/**
 * The two string sanitizers the gesture endpoint chains: `trim`, which
 * drops leading and trailing white space (JavaScript's `\s` class), and
 * `escape`, which replaces the HTML-significant characters by entities.
 * Both follow the definitions of the validator library that
 * express-validator delegates to.
 */
module Validator {
  import opened Media

  /** JavaScript's white-space class `\s`: white space and line terminators. */
  predicate IsSpace(c: char) {
    || c == '\t' || c == '\n' || c == '\U{B}' || c == '\U{C}' || c == '\r' || c == ' '
    || c == '\U{A0}' || c == '\U{1680}' || ('\U{2000}' <= c <= '\U{200A}')
    || c == '\U{2028}' || c == '\U{2029}' || c == '\U{202F}' || c == '\U{205F}'
    || c == '\U{3000}' || c == '\U{FEFF}'
  }

  predicate AllSpace(s: string) {
    forall i :: 0 <= i < |s| ==> IsSpace(s[i])
  }

  /** `ltrim`: drop the longest all-space prefix. */
  function TrimLeft(s: string): (r: string)
    ensures |r| <= |s| && r == s[|s| - |r|..]
    ensures AllSpace(s[..|s| - |r|])
    ensures r == [] || !IsSpace(r[0])
  {
    if |s| > 0 && IsSpace(s[0]) then
      var r := TrimLeft(s[1..]);
      assert s[..|s| - |r|] == [s[0]] + s[1..][..|s| - 1 - |r|];
      r
    else s
  }

  /** `rtrim`: drop the longest all-space suffix. */
  function TrimRight(s: string): (r: string)
    ensures |r| <= |s| && r == s[..|r|]
    ensures AllSpace(s[|r|..])
    ensures r == [] || !IsSpace(r[|r| - 1])
  {
    if |s| > 0 && IsSpace(s[|s| - 1]) then
      var r := TrimRight(s[..|s| - 1]);
      assert s[|r|..] == s[..|s| - 1][|r|..] + [s[|s| - 1]];
      r
    else s
  }

  /** `trim`: ltrim, then rtrim. */
  function Trim(s: string): (r: string)
    ensures |r| <= |s|
    ensures r == [] || (!IsSpace(r[0]) && !IsSpace(r[|r| - 1]))
  {
    var l := TrimLeft(s);
    var r := TrimRight(l);
    assert r != [] ==> r[0] == l[0];
    r
  }

  /**
   * Trimming keeps one contiguous piece of the input, removes only white
   * space around it, and leaves no white space at either end.
   */
  lemma TrimIsCore(s: string)
    ensures exists i, j :: 0 <= i <= j <= |s| && Trim(s) == s[i..j] && AllSpace(s[..i]) && AllSpace(s[j..])
    ensures Trim(s) == [] || (!IsSpace(Trim(s)[0]) && !IsSpace(Trim(s)[|Trim(s)| - 1]))
  {
    var l := TrimLeft(s);
    var r := TrimRight(l);
    var i := |s| - |l|;
    var j := i + |r|;
    assert Trim(s) == r;
    assert l == s[i..];
    assert r == s[i..j];
    assert AllSpace(s[..i]);
    assert s[j..] == l[|r|..];
    assert AllSpace(s[j..]);
  }

  /** Trimming empties exactly the strings made only of white space. */
  lemma TrimEmptyIffBlank(s: string)
    ensures Trim(s) == [] <==> AllSpace(s)
  {
    var l := TrimLeft(s);
    if Trim(s) == [] {
      assert l[0..] == l;
      assert l == [];
      assert s[..|s|] == s;
    }
  }

  /** Trimming twice is trimming once. */
  lemma TrimIdempotent(s: string)
    ensures Trim(Trim(s)) == Trim(s)
  {
    var t := Trim(s);
    TrimIsCore(s);
    assert TrimLeft(t) == t;
    assert TrimRight(t) == t;
  }

  /** The variation selectors U+FE0E and U+FE0F, which `isLength` does not count. */
  predicate IsSelector(c: char) {
    c == '\U{FE0E}' || c == '\U{FE0F}'
  }

  predicate AllSelectors(s: string) {
    forall k :: 0 <= k < |s| ==> IsSelector(s[k])
  }

  /**
   * The length `isLength` compares with its bounds: the characters other
   * than variation selectors. A string here holds code points, so the
   * surrogate pairs that `isLength` counts once are single characters already.
   */
  function DisplayLength(s: string): (r: nat)
    ensures r <= |s|
  {
    if |s| == 0 then 0
    else (if IsSelector(s[0]) then 0 else 1) + DisplayLength(s[1..])
  }

  /** Without variation selectors the counted length is the length. */
  lemma {:induction false} DisplayLengthPlain(s: string)
    requires forall k :: 0 <= k < |s| ==> !IsSelector(s[k])
    ensures DisplayLength(s) == |s|
  {
    if |s| > 0 {
      assert forall k :: 0 <= k < |s[1..]| ==> s[1..][k] == s[k + 1];
      DisplayLengthPlain(s[1..]);
    }
  }

  /** `isLength({ min: 1 })` fails exactly on strings made only of variation selectors, the empty one included. */
  lemma {:induction false} DisplayLengthZero(s: string)
    ensures DisplayLength(s) == 0 <==> AllSelectors(s)
  {
    if |s| > 0 {
      DisplayLengthZero(s[1..]);
      assert AllSelectors(s) <==> IsSelector(s[0]) && AllSelectors(s[1..]) by {
        if IsSelector(s[0]) && AllSelectors(s[1..]) {
          forall k | 0 <= k < |s| ensures IsSelector(s[k]) {
            if k > 0 {
              assert s[k] == s[1..][k - 1];
            }
          }
        }
        if AllSelectors(s) {
          forall k | 0 <= k < |s[1..]| ensures IsSelector(s[1..][k]) {
            assert s[1..][k] == s[k + 1];
          }
        }
      }
    }
  }

  /** The entity for one character; every other character stands for itself. */
  function EscapeChar(c: char): (r: string)
    ensures |r| >= 1
    ensures forall k :: 0 <= k < |r| ==> r[k] != '<' && r[k] != '>' && r[k] != '"' && r[k] != '\'' && r[k] != '`' && r[k] != '/' && r[k] != '\\'
  {
    match c
    case '&' => "&amp;"
    case '"' => "&quot;"
    case '\'' => "&#x27;"
    case '<' => "&lt;"
    case '>' => "&gt;"
    case '/' => "&#x2F;"
    case '\\' => "&#x5C;"
    case '`' => "&#96;"
    case _ => [c]
  }

  /** The characters `escape` replaces. */
  predicate Special(c: char) {
    c == '&' || c == '"' || c == '\'' || c == '<' || c == '>' || c == '/' || c == '\\' || c == '`'
  }

  /**
   * `escape`: the chained global replacements `&`, `"`, `'`, `<`, `>`,
   * `/`, `\` and the backquote. Since `&` goes first, no later entity is
   * escaped again, so the chain is this character-wise substitution.
   */
  function Escape(s: string): (r: string)
    ensures |r| >= |s|
    ensures forall k :: 0 <= k < |r| ==> r[k] != '<' && r[k] != '>' && r[k] != '"' && r[k] != '\'' && r[k] != '`'
    ensures forall k :: 0 <= k < |r| ==> r[k] != '/' && r[k] != '\\'
  {
    if |s| == 0 then [] else EscapeChar(s[0]) + Escape(s[1..])
  }

  /** A string with none of the replaced characters is left as it is. */
  lemma {:induction false} EscapePlain(s: string)
    requires forall k :: 0 <= k < |s| ==> !Special(s[k])
    ensures Escape(s) == s
  {
    if |s| > 0 {
      EscapePlain(s[1..]);
    }
  }

  /** The entity that `t` starts with, as the character it stands for and its length. */
  function EntityAt(t: string): (r: Option<(char, nat)>)
    ensures r.Some? ==> 4 <= r.value.1 <= |t|
  {
    if |t| >= 5 && t[..5] == "&amp;" then Some(('&', 5))
    else if |t| >= 6 && t[..6] == "&quot;" then Some(('"', 6))
    else if |t| >= 6 && t[..6] == "&#x27;" then Some(('\'', 6))
    else if |t| >= 4 && t[..4] == "&lt;" then Some(('<', 4))
    else if |t| >= 4 && t[..4] == "&gt;" then Some(('>', 4))
    else if |t| >= 6 && t[..6] == "&#x2F;" then Some(('/', 6))
    else if |t| >= 6 && t[..6] == "&#x5C;" then Some(('\\', 6))
    else if |t| >= 5 && t[..5] == "&#96;" then Some(('`', 5))
    else None
  }

  /** The entities undone, the inverse of Escape. */
  function Unescape(t: string): (r: string)
    decreases |t|
  {
    if |t| == 0 then []
    else if t[0] != '&' then [t[0]] + Unescape(t[1..])
    else match EntityAt(t)
      case Some((c, n)) => [c] + Unescape(t[n..])
      case None => [t[0]] + Unescape(t[1..])
  }

  /** Unescaping the escape of one character followed by more text yields that character first. */
  lemma UnescapeChar(c: char, rest: string)
    ensures Unescape(EscapeChar(c) + rest) == [c] + Unescape(rest)
  {
    var t := EscapeChar(c) + rest;
    if Special(c) {
      EntityOfEscape(c, rest);
      assert t[0] == '&';
      assert t[|EscapeChar(c)|..] == rest;
    } else {
      assert EscapeChar(c) == [c];
      assert t[0] == c && t[1..] == rest;
    }
  }

  /** An escaped character is recognized as the entity it was replaced by. */
  lemma EntityOfEscape(c: char, rest: string)
    requires Special(c)
    ensures EntityAt(EscapeChar(c) + rest) == Some((c, |EscapeChar(c)|))
  {
    match c
    case '&' => EntityAmp(rest);
    case '"' => EntityQuot(rest);
    case '\'' => EntityApos(rest);
    case '<' => EntityLt(rest);
    case '>' => EntityGt(rest);
    case '/' => EntitySlash(rest);
    case '\\' => EntityBackslash(rest);
    case '`' => EntityBackquote(rest);
  }

  lemma EntityAmp(rest: string)
    ensures EntityAt(EscapeChar('&') + rest) == Some(('&', 5))
  {
    var t := EscapeChar('&') + rest;
    assert t[..5] == "&amp;";
  }

  lemma EntityQuot(rest: string)
    ensures EntityAt(EscapeChar('"') + rest) == Some(('"', 6))
  {
    var t := EscapeChar('"') + rest;
    assert t[..6] == "&quot;";
    assert t[1] == 'q';
  }

  lemma EntityApos(rest: string)
    ensures EntityAt(EscapeChar('\'') + rest) == Some(('\'', 6))
  {
    var t := EscapeChar('\'') + rest;
    assert t[..6] == "&#x27;";
    assert t[1] == '#';
  }

  lemma EntityLt(rest: string)
    ensures EntityAt(EscapeChar('<') + rest) == Some(('<', 4))
  {
    var t := EscapeChar('<') + rest;
    assert t[..4] == "&lt;";
    assert t[1] == 'l';
  }

  lemma EntityGt(rest: string)
    ensures EntityAt(EscapeChar('>') + rest) == Some(('>', 4))
  {
    var t := EscapeChar('>') + rest;
    assert t[..4] == "&gt;";
    assert t[1] == 'g';
  }

  lemma EntitySlash(rest: string)
    ensures EntityAt(EscapeChar('/') + rest) == Some(('/', 6))
  {
    var t := EscapeChar('/') + rest;
    assert t[..6] == "&#x2F;";
    assert t[1] == '#';
    assert t[4] == 'F';
  }

  lemma EntityBackslash(rest: string)
    ensures EntityAt(EscapeChar('\\') + rest) == Some(('\\', 6))
  {
    var t := EscapeChar('\\') + rest;
    assert t[..6] == "&#x5C;";
    assert t[1] == '#';
    assert t[3] == '5';
  }

  lemma EntityBackquote(rest: string)
    ensures EntityAt(EscapeChar('`') + rest) == Some(('`', 5))
  {
    var t := EscapeChar('`') + rest;
    assert t[..5] == "&#96;";
    assert t[1] == '#';
    assert t[2] == '9';
  }

  /** Escaping loses nothing: unescaping gives the input back, so different inputs are logged differently. */
  lemma {:induction false} EscapeRoundTrip(s: string)
    ensures Unescape(Escape(s)) == s
  {
    if |s| > 0 {
      UnescapeChar(s[0], Escape(s[1..]));
      EscapeRoundTrip(s[1..]);
      assert s == [s[0]] + s[1..];
    }
  }

  /** Line breaks are not escaped: a line feed in the input is a line feed in the output. */
  lemma {:induction false} EscapeKeepsLineFeeds(s: string, k: nat)
    requires k < |s| && s[k] == '\n'
    ensures '\n' in Escape(s)
  {
    if k == 0 {
      assert Escape(s)[0] == '\n';
    } else {
      EscapeKeepsLineFeeds(s[1..], k - 1);
      var e := Escape(s[1..]);
      var i :| 0 <= i < |e| && e[i] == '\n';
      assert Escape(s)[|EscapeChar(s[0])| + i] == '\n';
    }
  }
}

/**
 * The Express server: the page routes, the log directory prepared at
 * start-up, and the /save-gesture endpoint, which validates the posted
 * `gesture`, appends one entry to logs/gestures.log and answers with a
 * JSON status.
 */
module GestureServer {
  import opened Media
  import opened Validator

  const ServerError := "Internal Server Error"

  /** A path segment that `path.normalize` keeps as it is. */
  predicate Plain(seg: string) {
    seg != "" && seg != "." && seg != ".."
  }

  predicate AllPlain(segs: seq<string>) {
    forall k :: 0 <= k < |segs| ==> Plain(segs[k])
  }

  /** A POSIX path cut at every `/`; "a//b" has an empty middle segment. */
  function Split(s: string): (r: seq<string>)
    ensures |r| >= 1
    ensures '/' !in s ==> r == [s]
    decreases |s|
  {
    if |s| == 0 then [""]
    else
      var rest := Split(s[1..]);
      if s[0] == '/' then [""] + rest
      else
        assert '/' !in s ==> rest == [s[1..]] && s == [s[0]] + s[1..];
        [[s[0]] + rest[0]] + rest[1..]
  }

  /**
   * `path.normalize` of the segments `segs` appended to the normalized
   * absolute directory `dir`: empty and "." segments vanish, and ".." drops
   * the segment before it, with nothing above the root.
   */
  function Resolve(dir: seq<string>, segs: seq<string>): (r: seq<string>)
    ensures AllPlain(segs) ==> r == dir + segs
    decreases |segs|
  {
    if |segs| == 0 then dir
    else
      var seg := segs[0];
      assert AllPlain(segs) ==> AllPlain(segs[1..]) by {
        if AllPlain(segs) {
          forall k | 0 <= k < |segs[1..]| ensures Plain(segs[1..][k]) {
            assert segs[1..][k] == segs[k + 1];
          }
        }
      }
      var r := if seg == "" || seg == "." then Resolve(dir, segs[1..])
        else if seg == ".." then Resolve(if |dir| == 0 then [] else dir[..|dir| - 1], segs[1..])
        else Resolve(dir + [seg], segs[1..]);
      assert AllPlain(segs) ==> dir + segs == (dir + [seg]) + segs[1..];
      r
  }

  /**
   * The file `res.sendFile(path.join(__dirname, 'templates', `${page}.html`))`
   * sends, as the segments of its absolute path: `root` holds the segments
   * of the directory of server.js and `page` is the route parameter as the
   * handler sees it, already percent-decoded.
   */
  function SentFile(root: seq<string>, page: string): (r: seq<string>)
    ensures '/' !in page ==> r == root + ["templates", page + ".html"]
  {
    TemplateJoin(root, page);
    Resolve(root, ["templates"] + Split(page + ".html"))
  }

  /** Joining a page name without `/` adds `templates` and `<page>.html` to the root. */
  lemma TemplateJoin(root: seq<string>, page: string)
    ensures '/' !in page ==> Resolve(root, ["templates"] + Split(page + ".html")) == root + ["templates", page + ".html"]
  {
    if '/' !in page {
      var name := page + ".html";
      assert '/' !in name by {
        forall k | 0 <= k < |name| ensures name[k] != '/' {
          if k < |page| {
            assert name[k] == page[k];
          } else {
            assert name[k] == ".html"[k - |page|];
          }
        }
      }
      assert |name| >= 5;
      assert AllPlain(["templates"] + Split(name));
    }
  }

  lemma SplitSlash(t: string)
    ensures Split("/" + t) == [""] + Split(t)
  {
    assert ("/" + t)[1..] == t;
  }

  lemma SplitChar(c: char, t: string)
    requires c != '/'
    ensures Split([c] + t) == [[c] + Split(t)[0]] + Split(t)[1..]
  {
    assert ([c] + t)[1..] == t;
  }

  lemma SplitUp(f: string)
    requires '/' !in f
    ensures Split("../" + f) == ["..", f]
  {
    assert Split(f) == [f];
    SplitSlash(f);
    assert Split("/" + f) == ["", f];
    SplitChar('.', "/" + f);
    assert "./" + f == [('.')] + ("/" + f);
    assert [('.')] + "" == ".";
    assert Split("./" + f) == [".", f];
    SplitChar('.', "./" + f);
    assert "../" + f == [('.')] + ("./" + f);
    assert [('.')] + "." == "..";
  }

  /** A name without `/` in front of more text joins the first segment of that text. */
  lemma {:induction false} SplitName(n: string, t: string)
    requires '/' !in n
    ensures Split(n + t) == [n + Split(t)[0]] + Split(t)[1..]
  {
    if |n| == 0 {
      assert n + t == t;
      assert n + Split(t)[0] == Split(t)[0];
    } else {
      var c, m := n[0], n[1..];
      NoSlashParts(n);
      var st := Split(t);
      SplitName(m, t);
      var u := m + t;
      assert n + t == [c] + u;
      SplitChar(c, u);
      var su := Split(u);
      assert su == [m + st[0]] + st[1..];
      JoinHead(c, m, st[0], n);
    }
  }

  lemma JoinHead(c: char, m: string, h: string, n: string)
    requires n == [c] + m
    ensures [c] + (m + h) == n + h
  {
  }

  lemma NoSlashParts(n: string)
    requires '/' !in n && |n| > 0
    ensures n[0] != '/' && '/' !in n[1..] && n == [n[0]] + n[1..]
  {
    assert n[0] in n;
    forall k | 0 <= k < |n[1..]| ensures n[1..][k] != '/' {
      assert n[1..][k] == n[k + 1];
    }
  }

  lemma ResolveUp(dir: seq<string>, above: string, f: string)
    requires Plain(above) && Plain(f)
    ensures Resolve(dir + [above], ["..", f]) == dir + [f]
  {
    assert Resolve(dir + [above], ["..", f]) == Resolve(dir, [f]);
    assert AllPlain([f]);
  }

  /** A plain segment is appended to the directory. */
  lemma ResolvePlainStep(dir: seq<string>, seg: string, rest: seq<string>)
    requires Plain(seg)
    ensures Resolve(dir, [seg] + rest) == Resolve(dir + [seg], rest)
  {
    assert ([seg] + rest)[1..] == rest;
  }

  /** `<page>.html` is a plain file name, and holds no `/` when the page holds none. */
  lemma HtmlName(page: string)
    requires '/' !in page
    ensures '/' !in page + ".html" && Plain(page + ".html")
  {
    var name := page + ".html";
    forall k | 0 <= k < |name| ensures name[k] != '/' {
      if k < |page| {
        assert name[k] == page[k];
      } else {
        assert name[k] == ".html"[k - |page|];
      }
    }
    assert |name| >= 5;
  }

  /**
   * As written, a decoded page holding `/` (sent as `%2F`) is normalized
   * by path.join: `../<page>` names `<page>.html` beside server.js,
   * outside templates/.
   */
  lemma TraversalLeavesTemplates(root: seq<string>, page: string)
    requires '/' !in page
    ensures SentFile(root, "../" + page) == root + [page + ".html"]
  {
    var f := page + ".html";
    HtmlName(page);
    assert ("../" + page) + ".html" == "../" + f;
    SplitUp(f);
    ResolvePlainStep(root, "templates", ["..", f]);
    ResolveUp(root, "templates", f);
  }

  /**
   * As written, different pages can name the same file: `<dir>/../<page>`
   * is sent as `<page>`.
   */
  lemma TraversalAliasesPages(root: seq<string>, dir: string, page: string)
    requires Plain(dir) && '/' !in dir && '/' !in page
    ensures SentFile(root, dir + "/../" + page) == SentFile(root, page)
    ensures dir + "/../" + page != page
  {
    var f := page + ".html";
    HtmlName(page);
    assert (dir + "/../" + page) + ".html" == dir + ("/../" + f);
    SplitUp(f);
    SplitSlash("../" + f);
    assert "/../" + f == "/" + ("../" + f);
    SplitName(dir, "/../" + f);
    assert dir + "" == dir;
    var d := root + ["templates"];
    ResolvePlainStep(root, "templates", [dir, "..", f]);
    ResolvePlainStep(d, dir, ["..", f]);
    ResolveUp(d, dir, f);
    assert |dir + "/../" + page| > |page|;
  }

  /**
   * The file the page route evidently means to send: the template of a
   * page that names one file, and nothing for a page holding `/`.
   */
  function TemplateFile(root: seq<string>, page: string): (r: Option<seq<string>>)
    ensures r.Some? <==> '/' !in page
    ensures r.Some? ==> r.value == root + ["templates", page + ".html"]
  {
    if '/' in page then None
    else
      Some(SentFile(root, page))
  }

  /** Every served template lies in templates/, and different pages get different files. */
  lemma TemplateFileInjective(root: seq<string>, p: string, q: string)
    requires TemplateFile(root, p).Some? && TemplateFile(root, p) == TemplateFile(root, q)
    ensures p == q
  {
    var f := TemplateFile(root, p).value;
    assert f[|root| + 1] == p + ".html";
    assert TemplateFile(root, q).value[|root| + 1] == q + ".html";
    assert p == (p + ".html")[..|p|];
    assert q == (q + ".html")[..|q|];
  }


  /** A route parameter: one non-empty path segment. */
  predicate Segment(page: string) {
    |page| > 0 && '/' !in page
  }

  function LowerAscii(c: char): char {
    if 'A' <= c <= 'Z' then (c as int + 32) as char else c
  }

  /** Express matches mount paths and routes ignoring ASCII case. */
  function Lower(s: string): (r: string)
    ensures |r| == |s| && forall k :: 0 <= k < |s| ==> r[k] == LowerAscii(s[k])
  {
    seq(|s|, k requires 0 <= k < |s| => LowerAscii(s[k]))
  }

  /** The paths the `/public` static mount sees: `/public` itself and everything below it. */
  predicate UnderMount(path: string) {
    |path| >= 7 && Lower(path[..7]) == "/public" && (|path| == 7 || path[7] == '/')
  }

  /**
   * What answers a GET: express.static under `/public` (with the rest of the
   * path), the index route, the page route with its raw parameter, or no route.
   */
  datatype Route = Static(rest: string) | Index | Page(param: string) | NoRoute

  /**
   * The handler a GET for `path` reaches first. The static mount goes
   * first; then "/" and "/<page>", with the optional trailing slash that
   * non-strict routing accepts.
   */
  function RouteOf(path: string): (r: Route)
    ensures r.Static? <==> UnderMount(path)
    ensures path == "/" ==> r == Index
    ensures (|path| == 0 || path[0] != '/') ==> r == NoRoute
    ensures r.Page? ==> Segment(r.param)
  {
    if UnderMount(path) then Static(path[7..])
    else if path == "/" then Index
    else if |path| >= 2 && path[0] == '/' then
      var page := if path[|path| - 1] == '/' then path[1..|path| - 1] else path[1..];
      if Segment(page) then Page(page) else NoRoute
    else NoRoute
  }

  /**
   * The file the index route sends, `path.join(__dirname, 'templates',
   * 'index.html')`, as the segments of its absolute path under `root`.
   */
  function IndexFile(root: seq<string>): (r: seq<string>)
    ensures r == root + ["templates", "index.html"]
  {
    var page := "index";
    assert '/' !in page && page + ".html" == "index.html";
    TemplateJoin(root, page);
    Resolve(root, ["templates"] + Split(page + ".html"))
  }

  /** `/index` reaches the page route with the page "index". */
  lemma IndexPath()
    ensures RouteOf("/index") == Page("index")
  {
    var path := "/index";
    assert |path| == 6 && path[0] == '/' && path[5] != '/';
    assert path[1..] == "index";
    assert '/' !in "index";
  }

  /** The page "index" names the same file as `/`. */
  lemma IndexPageIsIndex(root: seq<string>)
    ensures SentFile(root, "index") == IndexFile(root)
  {
    assert '/' !in "index";
    assert "index" + ".html" == "index.html";
  }

  /**
   * The file a route's handler sends: the index template, the page's
   * template as `path.join` resolves it, and none for the static files
   * (left to express.static) or an unmatched path.
   */
  function RoutedFile(root: seq<string>, route: Route): (r: Option<seq<string>>)
    ensures route == Index ==> r == Some(root + ["templates", "index.html"])
    ensures route.Page? ==> r == Some(SentFile(root, route.param))
    ensures route.Page? && '/' !in route.param ==> r == Some(root + ["templates", route.param + ".html"])
    ensures r.None? <==> route.Static? || route.NoRoute?
  {
    match route
    case Index => Some(IndexFile(root))
    case Page(page) => Some(SentFile(root, page))
    case _ => None
  }

  /** `GET /` sends templates/index.html under the server's directory. */
  lemma RootSendsIndex(root: seq<string>)
    ensures RoutedFile(root, RouteOf("/")) == Some(root + ["templates", "index.html"])
  {
  }

  /** Everything at or below `/public` goes to the static files first. */
  lemma RouteOfPublic(rest: string)
    requires rest == [] || rest[0] == '/'
    ensures RouteOf("/public" + rest) == Static(rest)
  {
    var path := "/public" + rest;
    assert path[..7] == "/public";
    assert Lower("/public") == "/public";
    assert path[7..] == rest;
  }

  /** The static mount answers `/<page>` exactly when the page is "public" in some case. */
  lemma UnderMountPage(page: string, slash: string)
    requires Segment(page) && (slash == "" || slash == "/")
    ensures UnderMount("/" + page + slash) <==> Lower(page) == "public"
  {
    var path := "/" + page + slash;
    if |page| == 6 {
      UnderMountSixLetters(page, slash);
    } else if |page| >= 7 {
      assert path[7] == page[6] && page[6] in page;
    } else if |path| >= 7 {
      assert |page| == 5 && path[6] == '/';
      assert Lower(path[..7])[6] == '/';
    }
  }

  /** A six-letter page fills the mount prefix exactly. */
  lemma UnderMountSixLetters(page: string, slash: string)
    requires Segment(page) && |page| == 6 && (slash == "" || slash == "/")
    ensures UnderMount("/" + page + slash) <==> Lower(page) == "public"
  {
    var path := "/" + page + slash;
    var head := path[..7];
    assert head == "/" + page;
    var low := Lower(head);
    assert low == "/" + Lower(page) by {
      forall k | 0 <= k < 7 ensures low[k] == ("/" + Lower(page))[k] {
        if k > 0 {
          assert head[k] == page[k - 1];
        }
      }
    }
    assert UnderMount(path) <==> low == "/public" by {
      if slash == "/" {
        assert path[7] == '/';
      } else {
        assert |path| == 7;
      }
    }
    if low == "/public" {
      assert Lower(page) == low[1..] == "public";
    }
    if Lower(page) == "public" {
      assert low == "/" + "public" == "/public";
    }
  }

  /** Every other page name reaches the page route, with or without the trailing slash. */
  lemma RouteOfPage(page: string)
    requires Segment(page)
    ensures Lower(page) != "public" ==> RouteOf("/" + page) == Page(page)
    ensures Lower(page) != "public" ==> RouteOf("/" + page + "/") == Page(page)
    ensures Lower(page) == "public" ==> RouteOf("/" + page) == Static("") && RouteOf("/" + page + "/") == Static("/")
  {
    UnderMountPage(page, "");
    UnderMountPage(page, "/");
    var a := "/" + page;
    assert a == "/" + page + "";
    assert a[1..] == page;
    assert a[|a| - 1] == page[|page| - 1];
    assert page[|page| - 1] in page;
    var b := "/" + page + "/";
    assert b[1..|b| - 1] == page;
    assert a[7..] == "" && b[7..] == "/" <== |page| == 6;
  }

  /** A path of two segments outside the static mount matches no page route. */
  lemma RouteOfNested(p: string, q: string)
    requires Segment(p) && Segment(q) && !UnderMount("/" + p + "/" + q)
    ensures RouteOf("/" + p + "/" + q) == NoRoute
  {
    var path := "/" + p + "/" + q;
    assert path[1..] == p + "/" + q;
    assert path[1 + |p|] == '/';
    assert path[|path| - 1] == q[|q| - 1];
    assert q[|q| - 1] in q;
    assert path[1..][|p|] == '/';
  }

  /**
   * One entry of express-validator's error list, a field error:
   * `{ type, value, msg, path, location }`, with the sanitized value.
   */
  datatype FieldError = FieldError(kind: string, value: string, msg: string, path: string, location: string)

  datatype Body = Errors(errors: seq<FieldError>) | Message(message: string)

  datatype Response = Response(status: nat, body: Body)

  /** The posted gesture after the validation chain: accepted with its sanitized value, or rejected. */
  datatype Checked = Accepted(gesture: string) | Rejected(errors: seq<FieldError>)

  /** The body field as the sanitizers see it: a missing field reads as the empty string. */
  function FieldValue(gesture: Option<string>): string {
    if gesture.Some? then gesture.value else ""
  }

  /** The single error of a rejected gesture, as the error list reports it. */
  function GestureError(value: string): FieldError {
    FieldError("field", value, "Invalid value", "gesture", "body")
  }

  /**
   * `body('gesture').trim().isLength({ min: 1 }).escape()`: the trimmed
   * value must count at least one character, variation selectors not
   * counted; an accepted value is then escaped.
   */
  function Validate(gesture: Option<string>): (r: Checked)
    ensures r.Rejected? <==> AllSelectors(Trim(FieldValue(gesture)))
    ensures AllSpace(FieldValue(gesture)) ==> r.Rejected?
    ensures r.Rejected? ==> r.errors == [GestureError(Trim(FieldValue(gesture)))]
    ensures r.Accepted? ==> r.gesture != ""
    ensures r.Accepted? ==> forall k :: 0 <= k < |r.gesture| ==> r.gesture[k] != '<' && r.gesture[k] != '>'
  {
    var trimmed := Trim(FieldValue(gesture));
    TrimEmptyIffBlank(FieldValue(gesture));
    DisplayLengthZero(trimmed);
    if DisplayLength(trimmed) >= 1 then Accepted(Escape(trimmed))
    else Rejected([GestureError(trimmed)])
  }

  /** A gesture of variation selectors only is not blank, but still rejected. */
  lemma SelectorOnlyRejected()
    ensures !AllSpace("\U{FE0F}") && Validate(Some("\U{FE0F}")).Rejected?
  {
    var s := "\U{FE0F}";
    assert !IsSpace(s[0]);
    assert TrimLeft(s) == s && TrimRight(s) == s;
    assert AllSelectors(Trim(s));
  }

  /** One line of the log: the timestamp, " - ", the gesture, and a line feed. */
  function LogEntry(timestamp: string, gesture: string): (r: string)
    ensures |r| == |timestamp| + |gesture| + 4
  {
    timestamp + " - " + gesture + "\n"
  }

  /** An entry gives back its timestamp and its gesture, and ends with the line feed. */
  lemma LogEntryParts(timestamp: string, gesture: string)
    ensures LogEntry(timestamp, gesture)[..|timestamp|] == timestamp
    ensures LogEntry(timestamp, gesture)[|timestamp|..|timestamp| + 3] == " - "
    ensures LogEntry(timestamp, gesture)[|timestamp| + 3..|timestamp| + 3 + |gesture|] == gesture
    ensures LogEntry(timestamp, gesture)[|timestamp| + 3 + |gesture|] == '\n'
  {
    var r := LogEntry(timestamp, gesture);
    assert r == timestamp + (" - " + (gesture + "\n"));
  }

  /**
   * Trimming removes only outer white space, so a gesture with an inner
   * line feed passes validation and its entry spans two lines of the log.
   */
  lemma InnerLineFeedSplitsEntry(timestamp: string)
    ensures Validate(Some("a\nb")) == Accepted("a\nb")
    ensures LogEntry(timestamp, "a\nb")[|timestamp| + 4] == '\n'
    ensures |timestamp| + 4 < |LogEntry(timestamp, "a\nb")| - 1
  {
    var s := "a\nb";
    assert !IsSpace(s[0]) && !IsSpace(s[2]);
    assert TrimLeft(s) == s;
    assert TrimRight(s) == s;
    DisplayLengthPlain(s);
    assert !Special(s[0]) && !Special(s[1]) && !Special(s[2]);
    EscapePlain(s);
    var e := LogEntry(timestamp, s);
    assert e == timestamp + " - " + s + "\n";
    assert e[|timestamp| + 4] == s[1];
  }

  /** The 200 answer's message quotes the sanitized gesture between fixed text. */
  function SuccessMessage(gesture: string): (r: string)
    ensures |r| == |gesture| + 31
    ensures r[..9] == "Gesture \"" && r[|r| - 22..] == "\" received and logged."
    ensures r[9..9 + |gesture|] == gesture
  {
    var r := "Gesture \"" + gesture + "\" received and logged.";
    assert r == "Gesture \"" + (gesture + "\" received and logged.");
    r
  }

  /** The message tells gestures apart: equal messages quote equal gestures. */
  lemma SuccessMessageInjective(g: string, h: string)
    requires SuccessMessage(g) == SuccessMessage(h)
    ensures g == h
  {
    assert |g| == |h|;
    assert g == SuccessMessage(g)[9..9 + |g|];
  }

  /** The server's state: the log directory, the log file and every append it issued. */
  class Server {
    var logsDirExists: bool
    var mkdirCalls: nat
    /** Every fs.appendFile call on logs/gestures.log, in order. */
    var appends: seq<string>
    /** The contents of logs/gestures.log. */
    var log: string

    /** Start-up: create the logs directory only when it is missing. */
    constructor (dirExists: bool, initialLog: string)
      ensures logsDirExists
      ensures mkdirCalls == if dirExists then 0 else 1
      ensures appends == [] && log == initialLog
    {
      logsDirExists := true;
      mkdirCalls := if dirExists then 0 else 1;
      appends, log := [], initialLog;
    }

    /**
     * The route handler of POST /save-gesture, which runs after the
     * validation middleware: `checked` is that middleware's outcome,
     * `Validate` of the posted field, `timestamp` the current time and
     * `appendOk` the outcome of the append. A rejected gesture gets a 400
     * with the error list and nothing is written; otherwise exactly one
     * entry is appended, and the answer is a 200 echoing the sanitized
     * gesture or a 500.
     */
    method SaveGesture(checked: Checked, timestamp: string, appendOk: bool) returns (resp: Response)
      modifies this`appends, this`log
      ensures match checked
        case Rejected(errs) => resp == Response(400, Errors(errs)) && appends == old(appends) && log == old(log)
        case Accepted(g) =>
          && appends == old(appends) + [LogEntry(timestamp, g)]
          && log == old(log) + (if appendOk then LogEntry(timestamp, g) else "")
          && resp == if appendOk then Response(200, Message(SuccessMessage(g))) else Response(500, Message(ServerError))
    {
      if checked.Rejected? {
        return Response(400, Errors(checked.errors));
      }
      var entry := LogEntry(timestamp, checked.gesture);
      appends := appends + [entry];
      if appendOk {
        log := log + entry;
        resp := Response(200, Message(SuccessMessage(checked.gesture)));
      } else {
        resp := Response(500, Message(ServerError));
      }
    }
  }

  /**
   * The logged and echoed gesture is the posted one, trimmed and escaped:
   * undoing the entities gives back exactly the trimmed value, which has
   * no white space at either end.
   */
  lemma AcceptedIsTrimmedEscaped(gesture: Option<string>)
    requires Validate(gesture).Accepted?
    ensures Validate(gesture).gesture == Escape(Trim(FieldValue(gesture)))
    ensures Unescape(Validate(gesture).gesture) == Trim(FieldValue(gesture))
    ensures !IsSpace(Trim(FieldValue(gesture))[0])
    ensures !IsSpace(Trim(FieldValue(gesture))[|Trim(FieldValue(gesture))| - 1])
  {
    var trimmed := Trim(FieldValue(gesture));
    assert DisplayLength(trimmed) >= 1;
    assert Validate(gesture) == Accepted(Escape(trimmed));
    EscapeRoundTrip(trimmed);
    TrimIsCore(FieldValue(gesture));
  }
}

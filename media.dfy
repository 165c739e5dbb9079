/**
 * Browser-side values shared by every capture page: the bytes of a canvas
 * image, optional values and camera streams.
 */
module Media {

  /** One byte of an RGBA canvas buffer or of a category mask. */
  type Byte = x: int | 0 <= x < 256

  datatype Option<T> = None | Some(value: T)

  /**
   * A camera stream as getUserMedia delivers it. `tracks` are the ids of its
   * media tracks, in the order `getTracks()` lists them.
   */
  datatype Stream = Stream(tracks: seq<nat>)
}

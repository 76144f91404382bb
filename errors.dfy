/** The installer's error enum (src/error.rs). */
module Errors {

  /** `crate::error::Error`. `FileWrite` wraps a `std::io::Error`, kept here as its text. */
  datatype Error =
    | FileWrite(cause: string)
    | IsoDownload
    | IsoFlash
    | MacosResize

  /** What `to_string()` yields: the `#[error(...)]` text of each variant.
      The wrapped I/O error of `FileWrite` is not part of its text. */
  function Message(e: Error): (m: string)
    ensures |m| > 0
  {
    match e
    case FileWrite(_) => "failed to write file"
    case IsoDownload => "failed to download ISO"
    case IsoFlash => "failed to flash ISO to disk"
    case MacosResize => "failed to shrink MacOS partition"
  }

  /** The text names the kind of error: two errors read the same exactly when they are
      the same variant (only `FileWrite` carries a payload, and its text ignores it). */
  lemma MessageIdentifiesKind(a: Error, b: Error)
    ensures Message(a) == Message(b) <==> (a.FileWrite? && b.FileWrite?) || a == b
  {
    if Message(a) == Message(b) {
      assert |Message(a)| == |Message(b)|;
    }
  }
}

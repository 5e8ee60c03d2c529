/**
 * Reads from an in-memory byte source, with the end-of-file behaviour of the
 * Go calls the codec makes on an `*os.File` or a `bytes.Reader`.
 */
module Io {
  import opened Wrappers
  import opened Binary

  datatype IoError =
    | EOF                       // no byte was available
    | UnexpectedEOF             // some, but fewer than requested, were available
    | WriteFailed(path: string) // the file system refused to write `path`

  function Zeros(n: nat): (r: seq<byte>)
    ensures |r| == n && forall i | 0 <= i < n :: r[i] == 0
  {
    seq(n, _ => 0)
  }

  /**
   * `io.ReadFull` of `n` bytes starting at `at`; `binary.Read` decodes a
   * fixed-size value from what it returns.
   */
  function ReadFull(src: seq<byte>, at: nat, n: nat): (r: Result<seq<byte>, IoError>)
    ensures r.Ok? <==> n == 0 || at + n <= |src|
    ensures r.Ok? ==> if n == 0 then r.value == [] else r.value == src[at..at + n]
    ensures r.Err? ==> (r.error == EOF <==> |src| <= at) && (r.error == EOF || r.error == UnexpectedEOF)
  {
    if n == 0 then Ok([])
    else if at + n <= |src| then Ok(src[at..at + n])
    else if |src| <= at then Err(EOF)
    else Err(UnexpectedEOF)
  }

  /**
   * A `Seek` to `at` followed by one `Read` into a zero-filled buffer of `n`
   * bytes: an empty buffer reads nothing without error, a position at or past
   * the end fails with EOF, and a read that reaches the end leaves the rest of
   * the buffer zero.
   */
  function ReadAt(src: seq<byte>, at: nat, n: nat): (r: Result<seq<byte>, IoError>)
    ensures r.Ok? <==> n == 0 || at < |src|
    ensures r.Ok? ==> |r.value| == n
    ensures r.Ok? && at + n <= |src| ==> r.value == src[at..at + n]
    ensures r.Ok? && 0 < n && |src| < at + n ==> r.value == src[at..] + Zeros(at + n - |src|)
    ensures r.Err? ==> r.error == EOF
  {
    if n == 0 then Ok([])
    else if |src| <= at then Err(EOF)
    else if at + n <= |src| then Ok(src[at..at + n])
    else Ok(src[at..] + Zeros(at + n - |src|))
  }
}

/** What the protocol codecs share: the `std::io::ErrorKind`s they raise
    and the shape of a read (`ProtocolRead::read_from` returns the value
    and the number of bytes it consumed from the front of its input). */
module Io {
  import opened Bytes
  import opened Wrappers

  /** `Aborted` stands for a panic: the program stops instead of returning
      an error, and the model records where it would have stopped. */
  datatype IoError =
    | UnexpectedEof
    | InvalidData(message: string)
    | InvalidInput(message: string)
    | Aborted(message: string)

  /** A value read from the front of an input, and how many bytes it took. */
  datatype Decoded<+T> = Decoded(value: T, size: nat)

  /** `Read::read_exact`: the next n bytes, or UnexpectedEof. */
  function ReadExact(input: seq<byte>, n: nat): (r: Result<seq<byte>, IoError>)
    ensures r.Ok? <==> n <= |input|
    ensures r.Ok? ==> |r.value| == n && r.value <= input
    ensures r.Err? ==> r.error == UnexpectedEof
  {
    if n <= |input| then Ok(input[..n]) else Err(UnexpectedEof)
  }

  /** What follows a prefix is what is left after reading it. */
  lemma AfterPrefix(prefix: seq<byte>, rest: seq<byte>)
    ensures (prefix + rest)[|prefix|..] == rest
  {
  }
}

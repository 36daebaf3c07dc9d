/** A stream read to the end by blocking calls, as tokio's `AsyncReadExt::read_exact` reads it. */
module ByteSource {
  import opened Wrappers
  import opened Bytes
  import opened Tcp

  class ByteSource {
    var rest: bytes          // what the peer has sent or will send, not yet read
    ghost var taken: bytes   // what has been read

    constructor (input: bytes)
      ensures rest == input && taken == []
    {
      rest, taken := input, [];
    }

    /** Reads exactly `n` bytes, or runs into the end of the stream. */
    method ReadExact(n: nat) returns (r: Result<bytes, IoError>)
      modifies this
      ensures if |old(rest)| >= n
              then r == Success(old(rest)[..n]) && rest == old(rest)[n..] && taken == old(taken) + old(rest)[..n]
              else r == Failure(UnexpectedEof) && rest == [] && taken == old(taken) + old(rest)
    {
      if |rest| < n {
        taken, rest := taken + rest, [];
        return Failure(UnexpectedEof);
      }
      r := Success(rest[..n]);
      taken, rest := taken + rest[..n], rest[n..];
    }
  }
}

/** Reading the peer's garbage up to its 16-byte terminator, `skip_garbage`. */
module SkipGarbage {
  import opened Wrappers
  import opened Bytes
  import opened ByteSource

  const MAX_GARBAGE_LEN: nat := 4095
  const TERMINATOR_LEN: nat := 16

  datatype SkipError = StreamEnded | TerminatorNotFound

  predicate TerminatorAt(input: bytes, terminator: bytes, i: nat) {
    i + TERMINATOR_LEN <= |input| && input[i..i + TERMINATOR_LEN] == terminator
  }

  ghost predicate FirstTerminatorAt(input: bytes, terminator: bytes, i: nat) {
    TerminatorAt(input, terminator, i) && forall j: nat :: j < i ==> !TerminatorAt(input, terminator, j)
  }

  /** Where fewer than 16 bytes are left there is no terminator. */
  lemma TooShort(input: bytes, terminator: bytes, k: nat)
    requires |input| < TERMINATOR_LEN + k
    ensures forall j: nat :: j >= k ==> !TerminatorAt(input, terminator, j)
  {
  }

  /** The window of the loop shows whether the terminator is at its offset. */
  lemma Window(input: bytes, terminator: bytes, k: nat)
    requires TERMINATOR_LEN + k <= |input| && |terminator| == TERMINATOR_LEN
    ensures var window := input[k..TERMINATOR_LEN + k];
            window[|window| - TERMINATOR_LEN..] == terminator <==> TerminatorAt(input, terminator, k)
    ensures input[..TERMINATOR_LEN + k][..k] == input[..k]
  {
    var window := input[k..TERMINATOR_LEN + k];
    assert window[|window| - TERMINATOR_LEN..] == window;
  }

  /** Reading one more byte moves the window and extends the garbage. */
  lemma NextByte(input: bytes, k: nat)
    requires TERMINATOR_LEN + k < |input|
    ensures var at := TERMINATOR_LEN + k;
            && input[at..][1..] == input[at + 1..]
            && (input[k..at] + input[at..][..1])[1..] == input[k + 1..at + 1]
            && input[..at] + input[at..][..1] == input[..at + 1]
  {
  }

  /** Succeeds exactly when the terminator occurs at an offset of at most 4094, and then returns what stands
      before its first occurrence and consumes that and the terminator. The loop runs 4095 times, so a
      terminator behind 4095 bytes of garbage, the maximum of BIP 324, is not found. */
  method SkipGarbage(stream: ByteSource, terminator: bytes) returns (r: Result<bytes, SkipError>)
    requires |terminator| == TERMINATOR_LEN
    modifies stream
    ensures r.Success? <==> exists i: nat :: i < MAX_GARBAGE_LEN && TerminatorAt(old(stream.rest), terminator, i)
    ensures r.Success? ==>
              && FirstTerminatorAt(old(stream.rest), terminator, |r.value|)
              && r.value == old(stream.rest)[..|r.value|]
              && stream.rest == old(stream.rest)[|r.value| + TERMINATOR_LEN..]
    ensures r == Failure(StreamEnded) <==> r.Failure? && |old(stream.rest)| < TERMINATOR_LEN + MAX_GARBAGE_LEN
  {
    hide TerminatorAt;
    ghost var input := stream.rest;
    var first := stream.ReadExact(TERMINATOR_LEN);
    if first.Failure? {
      TooShort(input, terminator, 0);
      return Failure(StreamEnded);
    }
    var window, garbage := first.value, first.value;
    for k := 0 to MAX_GARBAGE_LEN
      invariant TERMINATOR_LEN + k <= |input|
      invariant garbage == input[..TERMINATOR_LEN + k] && window == input[k..TERMINATOR_LEN + k]
      invariant stream.rest == input[TERMINATOR_LEN + k..]
      invariant forall j: nat :: j < k ==> !TerminatorAt(input, terminator, j)
    {
      Window(input, terminator, k);
      if window[|window| - TERMINATOR_LEN..] == terminator {
        return Success(garbage[..|garbage| - TERMINATOR_LEN]);
      }
      var b := stream.ReadExact(1);
      if b.Failure? {
        TooShort(input, terminator, k + 1);
        return Failure(StreamEnded);
      }
      NextByte(input, k);
      window, garbage := window + b.value, garbage + b.value;
      if |window| > TERMINATOR_LEN {
        window := window[1..];
      }
    }
    return Failure(TerminatorNotFound);
  }
}

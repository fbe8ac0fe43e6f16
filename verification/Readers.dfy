/**
 Reading byte streams back, from the front: fixed widths, big-endian numbers, two's
 complement, length prefixes. The readers know the widths of a format and nothing of the
 functions that write it.
 */
module Readers {
  import opened Bytes

  /** What was read and what is left of the stream. */
  datatype Read<+T> = Stuck | Got(value: T, rest: ByteString) {
    predicate IsFailure() {
      Stuck?
    }

    function PropagateFailure<U>(): Read<U>
      requires Stuck?
    {
      Stuck
    }

    function Extract(): (T, ByteString)
      requires Got?
    {
      (value, rest)
    }
  }

  function TakeBytes(n: nat, s: ByteString): (r: Read<ByteString>)
    ensures r.Got? ==> |r.value| == n
  {
    if |s| < n then Stuck else Got(s[..n], s[n..])
  }

  /** The announced length and the bytes it announces. */
  function TakeFramed(s: ByteString): Read<Blob> {
    var (length, t) :- TakeBytes(8, s);
    if FromBigEndian(length) > ISIZE_MAX then Stuck else TakeBytes(FromBigEndian(length), t)
  }

  /** The value of a two's complement of `width` bytes. */
  function Signed(s: ByteString): (v: int) {
    var n := FromBigEndian(s);
    if 2 * n < Pow256(|s|) then n else n - Pow256(|s|)
  }

  lemma {:induction false} FromBigEndianBound(s: ByteString)
    ensures FromBigEndian(s) < Pow256(|s|)
  {
    if s != [] {
      FromBigEndianBound(s[..|s| - 1]);
    }
  }

  lemma {:induction false} FromBigEndianRoundTrip(s: ByteString)
    ensures BigEndian(FromBigEndian(s), |s|) == s
  {
    if s != [] {
      FromBigEndianRoundTrip(s[..|s| - 1]);
      assert s == s[..|s| - 1] + [s[|s| - 1]];
    }
  }

  lemma SignedInRange(s: ByteString)
    ensures InSignedRange(Signed(s), |s|)
  {
    FromBigEndianBound(s);
  }

  lemma SignedRoundTrip(v: int, width: nat)
    requires InSignedRange(v, width)
    ensures Signed(SignedBigEndian(v, width)) == v
  {
    BigEndianRoundTrip(if v < 0 then v + Pow256(width) else v, width);
  }

  lemma TakesBytes(a: ByteString, rest: ByteString)
    ensures TakeBytes(|a|, a + rest) == Got(a, rest)
  {
    assert (a + rest)[..|a|] == a && (a + rest)[|a|..] == rest;
  }

  lemma TakenBytes(n: nat, s: ByteString)
    requires TakeBytes(n, s).Got?
    ensures s == TakeBytes(n, s).value + TakeBytes(n, s).rest
  {
  }

  lemma TakesFramed(value: Blob, rest: ByteString)
    ensures TakeFramed(Frame(value) + rest) == Got(value, rest)
  {
    var length := BigEndian(|value|, 8);
    Associate(length, value, rest);
    TakesBytes(length, value + rest);
    Pow256Values();
    BigEndianRoundTrip(|value|, 8);
    TakesBytes(value, rest);
  }

  /** What was read as a frame was framed so. */
  lemma FramedIsTaken(s: ByteString, value: Blob, rest: ByteString)
    requires TakeFramed(s) == Got(value, rest)
    ensures s == Frame(value) + rest
  {
    var length := s[..8];
    FromBigEndianRoundTrip(length);
    assert s == length + (value + rest);
    Associate(length, value, rest);
  }
}

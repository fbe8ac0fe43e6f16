/**
 Byte strings: big-endian integers, lowercase hex, and the byte-wise order. A Rust `str`
 appears here as its UTF-8 bytes.
 */
module Bytes {
  type Byte = b: int | 0 <= b < 256

  type ByteString = seq<Byte>

  /** No Rust allocation is longer than `isize::MAX` bytes, so every length fits in a `u64`. */
  const ISIZE_MAX := 0x7FFF_FFFF_FFFF_FFFF

  type Blob = s: ByteString | |s| <= ISIZE_MAX

  function Pow256(width: nat): nat {
    if width == 0 then 1 else 256 * Pow256(width - 1)
  }

  lemma Pow256Values()
    ensures Pow256(2) == 0x1_0000
    ensures Pow256(4) == 0x1_0000_0000
    ensures Pow256(8) == 0x1_0000_0000_0000_0000
  {
    assert Pow256(1) == 256 * Pow256(0);
    assert Pow256(2) == 256 * Pow256(1);
    assert Pow256(4) == 256 * Pow256(3);
    assert Pow256(6) == 256 * Pow256(5);
    assert Pow256(8) == 256 * Pow256(7);
  }

  /** The low `width` bytes of `n`, most significant first: `to_be_bytes`. */
  function BigEndian(n: nat, width: nat): (r: ByteString)
    ensures |r| == width
  {
    if width == 0 then [] else BigEndian(n / 256, width - 1) + [n % 256]
  }

  function FromBigEndian(s: ByteString): nat {
    if s == [] then 0 else FromBigEndian(s[..|s| - 1]) * 256 + s[|s| - 1]
  }

  lemma {:induction false} BigEndianRoundTrip(n: nat, width: nat)
    requires n < Pow256(width)
    ensures FromBigEndian(BigEndian(n, width)) == n
  {
    if width > 0 {
      BigEndianRoundTrip(n / 256, width - 1);
      assert BigEndian(n, width)[..width - 1] == BigEndian(n / 256, width - 1);
    }
  }

  predicate InSignedRange(v: int, width: nat) {
    0 <= 2 * v + Pow256(width) < 2 * Pow256(width)
  }

  /** Two's complement of a signed value that fits in `width` bytes. */
  function SignedBigEndian(v: int, width: nat): (r: ByteString)
    requires InSignedRange(v, width)
    ensures |r| == width
  {
    BigEndian(if v < 0 then v + Pow256(width) else v, width)
  }

  lemma SignedBigEndianInjective(v: int, w: int, width: nat)
    requires InSignedRange(v, width) && InSignedRange(w, width)
    requires SignedBigEndian(v, width) == SignedBigEndian(w, width)
    ensures v == w
  {
    BigEndianRoundTrip(if v < 0 then v + Pow256(width) else v, width);
    BigEndianRoundTrip(if w < 0 then w + Pow256(width) else w, width);
  }

  lemma BigEndianInjective(m: nat, n: nat, width: nat)
    requires m < Pow256(width) && n < Pow256(width) && BigEndian(m, width) == BigEndian(n, width)
    ensures m == n
  {
    BigEndianRoundTrip(m, width);
    BigEndianRoundTrip(n, width);
  }

  function Ascii(s: string): (r: ByteString)
    requires forall i :: 0 <= i < |s| ==> s[i] < '\U{80}'
    ensures |r| == |s| && forall i :: 0 <= i < |s| ==> r[i] == s[i] as int
  {
    seq(|s|, i requires 0 <= i < |s| => s[i] as int)
  }

  /** Equally long prefixes of equal lists can be cancelled. */
  lemma CancelPrefix<T>(a: seq<T>, x: seq<T>, b: seq<T>, y: seq<T>)
    requires |a| == |b| && a + x == b + y
    ensures a == b && x == y
  {
    assert a == (a + x)[..|a|] && b == (b + y)[..|b|];
    assert x == (a + x)[|a|..] && y == (b + y)[|b|..];
  }

  lemma Associate<T>(a: seq<T>, b: seq<T>, c: seq<T>)
    ensures a + b + c == a + (b + c)
  {
  }

  /** A length prefix and the bytes it announces. */
  function Frame(value: Blob): ByteString {
    BigEndian(|value|, 8) + value
  }

  /** Framing is injective and prefix-free at once. */
  lemma FrameCancels(a: Blob, x: ByteString, b: Blob, y: ByteString)
    requires Frame(a) + x == Frame(b) + y
    ensures a == b && x == y
  {
    assert Frame(a) + x == BigEndian(|a|, 8) + (a + x);
    assert Frame(b) + y == BigEndian(|b|, 8) + (b + y);
    CancelPrefix(BigEndian(|a|, 8), a + x, BigEndian(|b|, 8), b + y);
    Pow256Values();
    BigEndianInjective(|a|, |b|, 8);
    CancelPrefix(a, x, b, y);
  }

  // Lowercase hex

  function HexDigit(n: int): Byte
    requires 0 <= n < 16
  {
    if n < 10 then '0' as int + n else 'a' as int + n - 10
  }

  predicate IsHexDigit(b: Byte) {
    '0' as int <= b <= '9' as int || 'a' as int <= b <= 'f' as int
  }

  predicate IsHex(s: ByteString) {
    forall i :: 0 <= i < |s| ==> IsHexDigit(s[i])
  }

  /** `hex_nibble`, on lowercase hex digits. */
  function HexNibble(b: Byte): (n: int)
    requires IsHexDigit(b)
    ensures 0 <= n < 16 && HexDigit(n) == b
  {
    if b <= '9' as int then b - '0' as int else b - 'a' as int + 10
  }

  function DigestHex(bytes: ByteString): (r: ByteString)
    ensures |r| == 2 * |bytes| && IsHex(r)
    ensures forall i :: 0 <= i < |bytes| ==>
              r[2 * i] == HexDigit(bytes[i] / 16) && r[2 * i + 1] == HexDigit(bytes[i] % 16)
  {
    if bytes == [] then []
    else
      var b := bytes[|bytes| - 1];
      DigestHex(bytes[..|bytes| - 1]) + [HexDigit(b / 16), HexDigit(b % 16)]
  }

  lemma DigestHexInjective(a: ByteString, b: ByteString)
    requires DigestHex(a) == DigestHex(b)
    ensures a == b
  {
    forall i | 0 <= i < |a|
      ensures a[i] == b[i]
    {
      assert DigestHex(a)[2 * i] == DigestHex(b)[2 * i] && DigestHex(a)[2 * i + 1] == DigestHex(b)[2 * i + 1];
      HexDigitInjective(a[i] / 16, b[i] / 16);
      HexDigitInjective(a[i] % 16, b[i] % 16);
    }
  }

  lemma HexDigitInjective(m: int, n: int)
    requires 0 <= m < 16 && 0 <= n < 16 && HexDigit(m) == HexDigit(n)
    ensures m == n
  {
  }
}

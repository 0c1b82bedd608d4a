/** Bytes, fixed-width integers, and 32-byte digests. */
module Bytes {

  newtype byte = x: int | 0 <= x < 256

  type ByteString = seq<byte>

  /** n zero bytes. */
  function Zeros(n: nat): (z: ByteString)
    ensures |z| == n
    ensures forall i :: 0 <= i < n ==> z[i] == 0
  {
    if n == 0 then [] else [0] + Zeros(n - 1)
  }

  type Digest = d: ByteString | |d| == 32 witness Zeros(32)

  const ZERO_DIGEST: Digest := Zeros(32)

  const MAX_U16 := 0xFFFF
  const MAX_U32 := 0xFFFF_FFFF
  const MAX_U64 := 0xFFFF_FFFF_FFFF_FFFF
  const MAX_I64 := 0x7FFF_FFFF_FFFF_FFFF

  /** The number of values a field of w bytes can hold. */
  function Capacity(w: nat): (c: nat)
    ensures c >= 1
  {
    if w == 0 then 1 else 256 * Capacity(w - 1)
  }

  /** n in w bytes, most significant first; bits that do not fit are dropped. */
  function BigEndian(n: nat, w: nat): (b: ByteString)
    ensures |b| == w
    decreases w
  {
    if w == 0 then [] else BigEndian(n / 256, w - 1) + [(n % 256) as byte]
  }

  /** n in w bytes, least significant first; bits that do not fit are dropped. */
  function LittleEndian(n: nat, w: nat): (b: ByteString)
    ensures |b| == w
    decreases w
  {
    if w == 0 then [] else [(n % 256) as byte] + LittleEndian(n / 256, w - 1)
  }

  function FromBigEndian(b: ByteString): nat {
    if b == [] then 0 else 256 * FromBigEndian(b[..|b| - 1]) + b[|b| - 1] as nat
  }

  function FromLittleEndian(b: ByteString): nat {
    if b == [] then 0 else b[0] as nat + 256 * FromLittleEndian(b[1..])
  }

  lemma {:induction false} BigEndianRoundTrip(n: nat, w: nat)
    requires n < Capacity(w)
    ensures FromBigEndian(BigEndian(n, w)) == n
    decreases w
  {
    if w > 0 {
      BigEndianRoundTrip(n / 256, w - 1);
      var b := BigEndian(n, w);
      assert b[..|b| - 1] == BigEndian(n / 256, w - 1);
    }
  }

  lemma {:induction false} LittleEndianRoundTrip(n: nat, w: nat)
    requires n < Capacity(w)
    ensures FromLittleEndian(LittleEndian(n, w)) == n
    decreases w
  {
    if w > 0 {
      LittleEndianRoundTrip(n / 256, w - 1);
      var b := LittleEndian(n, w);
      assert b[1..] == LittleEndian(n / 256, w - 1);
    }
  }

  lemma {:induction false} FromLittleEndianRoundTrip(b: ByteString)
    ensures FromLittleEndian(b) < Capacity(|b|)
    ensures LittleEndian(FromLittleEndian(b), |b|) == b
  {
    if b != [] {
      FromLittleEndianRoundTrip(b[1..]);
      var n := FromLittleEndian(b);
      assert n / 256 == FromLittleEndian(b[1..]) && n % 256 == b[0] as nat;
      assert b == [b[0]] + b[1..];
    }
  }

  lemma CapacityValues()
    ensures Capacity(1) == 0x100 && Capacity(2) == MAX_U16 + 1
    ensures Capacity(4) == MAX_U32 + 1 && Capacity(8) == MAX_U64 + 1
  {
    assert Capacity(3) == 0x100_0000;
    assert Capacity(4) == 0x1_0000_0000;
    assert Capacity(5) == 0x100_0000_0000;
    assert Capacity(6) == 0x1_0000_0000_0000;
    assert Capacity(7) == 0x100_0000_0000_0000;
  }

  /** n in two bytes, most significant first. */
  function TwoBytes(n: nat): ByteString {
    [(n / 0x100 % 0x100) as byte, (n % 0x100) as byte]
  }

  function FourBytes(n: nat): ByteString {
    [(n / 0x100_0000 % 0x100) as byte, (n / 0x1_0000 % 0x100) as byte] + TwoBytes(n)
  }

  function EightBytes(n: nat): ByteString {
    [(n / 0x100_0000_0000_0000 % 0x100) as byte, (n / 0x1_0000_0000_0000 % 0x100) as byte,
     (n / 0x100_0000_0000 % 0x100) as byte, (n / 0x1_0000_0000 % 0x100) as byte] + FourBytes(n)
  }

  lemma BigEndianStep(n: nat, w: nat)
    requires w > 0
    ensures BigEndian(n, w) == BigEndian(n / 0x100, w - 1) + [(n % 0x100) as byte]
  {}

  /** What the widths in use write, byte by byte. */
  lemma BigEndianIs(n: nat)
    ensures BigEndian(n, 2) == TwoBytes(n) && BigEndian(n, 4) == FourBytes(n) && BigEndian(n, 8) == EightBytes(n)
  {
    BigEndianOfTwo(n);
    BigEndianOfFour(n);
    BigEndianOfEight(n);
  }

  lemma BigEndianOfTwo(n: nat)
    ensures BigEndian(n, 2) == TwoBytes(n)
  {
    BigEndianStep(n, 2);
    BigEndianStep(n / 0x100, 1);
  }

  lemma BigEndianOfFour(n: nat)
    ensures BigEndian(n, 4) == FourBytes(n)
  {
    BigEndianStep(n, 4);
    BigEndianStep(n / 0x100, 3);
    BigEndianOfTwo(n / 0x1_0000);
    assert n / 0x100 / 0x100 == n / 0x1_0000;
  }

  lemma ShiftedBytes(n: nat)
    ensures n / 0x1_0000_0000 / 0x100 == n / 0x100_0000_0000
    ensures n / 0x1_0000_0000 / 0x1_0000 == n / 0x1_0000_0000_0000
    ensures n / 0x1_0000_0000 / 0x100_0000 == n / 0x100_0000_0000_0000
  {}

  /** The upper four of eight bytes, and the lower four. */
  lemma UpperFour(n: nat)
    ensures EightBytes(n) == FourBytes(n / 0x1_0000_0000) + FourBytes(n)
  {
    ShiftedBytes(n);
    var m := n / 0x1_0000_0000;
    JoinsFour((m / 0x100_0000 % 0x100) as byte, (m / 0x1_0000 % 0x100) as byte, (m / 0x100 % 0x100) as byte, (m % 0x100) as byte);
  }

  lemma JoinsFour(a: byte, b: byte, c: byte, d: byte)
    ensures [a, b] + [c, d] == [a, b, c, d]
  {}

  lemma BigEndianOfEight(n: nat)
    ensures BigEndian(n, 8) == EightBytes(n)
  {
    hide BigEndian, FourBytes;
    BigEndianFourMore(n, 4);
    BigEndianOfFour(n / 0x1_0000_0000);
    UpperFour(n);
  }

  lemma BigEndianFourMore(n: nat, w: nat)
    ensures BigEndian(n, w + 4) == BigEndian(n / 0x1_0000_0000, w) + FourBytes(n)
  {
    hide BigEndian;
    BigEndianStep(n, w + 4);
    BigEndianStep(n / 0x100, w + 3);
    BigEndianStep(n / 0x100 / 0x100, w + 2);
    BigEndianStep(n / 0x100 / 0x100 / 0x100, w + 1);
  }

  /** The bytes of an ASCII text. */
  predicate IsText(b: ByteString, s: string) {
    |b| == |s| && forall i :: 0 <= i < |b| ==> b[i] as int == s[i] as int
  }

  /** Equal sequences split into parts of equal lengths. */
  lemma SplitAt<T>(a: seq<T>, b: seq<T>, x: seq<T>, y: seq<T>)
    requires a + x == b + y && |a| == |b|
    ensures a == b && x == y
  {
    assert a == (a + x)[..|a|] && b == (b + y)[..|b|];
    assert x == (a + x)[|a|..] && y == (b + y)[|b|..];
  }

  lemma Assoc<T>(a: seq<T>, b: seq<T>, c: seq<T>)
    ensures (a + b) + c == a + (b + c)
  {}

  lemma AppendTwice<T>(s: seq<T>, x: T)
    ensures s + [x] + [x] == s + [x, x]
  {}
}

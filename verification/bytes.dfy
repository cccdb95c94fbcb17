/** Small numbers as bit vectors and back. */
module BitVectors {

  lemma NumberBack(x: int)
    requires 0 <= x < 256
    ensures (x as bv8) as int == x
  {
  }

  lemma Digit0(x: bv8)
    ensures x & 1 != 0 <==> x as int % 2 == 1
  {
  }

  lemma Digit1(x: bv8)
    ensures x & 2 != 0 <==> x as int / 2 % 2 == 1
  {
  }

  lemma Digit2(x: bv8)
    ensures x & 4 != 0 <==> x as int / 4 % 2 == 1
  {
  }

  lemma Digit3(x: bv8)
    ensures x & 8 != 0 <==> x as int / 8 % 2 == 1
  {
  }

  lemma Digit4(x: bv8)
    ensures x & 16 != 0 <==> x as int / 16 % 2 == 1
  {
  }

  lemma Digit5(x: bv8)
    ensures x & 32 != 0 <==> x as int / 32 % 2 == 1
  {
  }

  lemma Digit6(x: bv8)
    ensures x & 64 != 0 <==> x as int / 64 % 2 == 1
  {
  }

  lemma Digit7(x: bv8)
    ensures x & 128 != 0 <==> x as int / 128 % 2 == 1
  {
  }

  lemma LowSeven(x: bv8)
    ensures (x & 0x7f) as int == x as int % 128
  {
  }

  lemma HighTwo(x: bv8)
    ensures (x >> 6) as int == x as int / 64
  {
  }
}

/** Bytes, numbers written in bytes, and the bits of a byte. */
module Bytes {
  import BitVectors

  newtype Byte = x: int | 0 <= x < 256

  function Min(a: nat, b: nat): nat {
    if a < b then a else b
  }

  // ----- Numbers, least significant byte first -----

  function LittleEndian(b: seq<Byte>): nat {
    if b == [] then 0 else b[0] as nat + 256 * LittleEndian(b[1..])
  }

  function Power256(n: nat): (p: nat)
    ensures p > 0
  {
    if n == 0 then 1 else 256 * Power256(n - 1)
  }

  lemma {:induction false} LittleEndianBound(b: seq<Byte>)
    ensures LittleEndian(b) < Power256(|b|)
  {
    if b != [] { LittleEndianBound(b[1..]); }
  }

  lemma {:induction false} LittleEndianSplit(b: seq<Byte>, k: nat)
    requires k <= |b|
    ensures LittleEndian(b) == LittleEndian(b[..k]) + Power256(k) * LittleEndian(b[k..])
  {
    if k == 0 {
      assert b[k..] == b;
    } else {
      LittleEndianSplit(b[1..], k - 1);
      assert b[..k][1..] == b[1..][..k - 1] && b[1..][k - 1..] == b[k..];
      Regroup(Power256(k - 1), LittleEndian(b[k..]));
    }
  }

  lemma Regroup(power: nat, n: nat)
    ensures 256 * (power * n) == 256 * power * n
  {
  }

  lemma {:induction false} LittleEndianInjective(a: seq<Byte>, b: seq<Byte>)
    requires |a| == |b| && LittleEndian(a) == LittleEndian(b)
    ensures a == b
  {
    if a != [] {
      LittleEndianInjective(a[1..], b[1..]);
      assert a == [a[0]] + a[1..] && b == [b[0]] + b[1..];
    }
  }

  function Zeros(n: nat): seq<Byte> {
    seq(n, _ => 0)
  }

  function LittleEndianBytes(n: nat, size: nat): (b: seq<Byte>)
    ensures |b| == size
  {
    if size == 0 then [] else [(n % 256) as Byte] + LittleEndianBytes(n / 256, size - 1)
  }

  lemma {:induction false} BytesBack(n: nat, size: nat)
    requires n < Power256(size)
    ensures LittleEndian(LittleEndianBytes(n, size)) == n
  {
    if size > 0 {
      BytesBack(n / 256, size - 1);
      assert LittleEndianBytes(n, size)[1..] == LittleEndianBytes(n / 256, size - 1);
    }
  }

  lemma BytesOf(b: seq<Byte>)
    ensures LittleEndianBytes(LittleEndian(b), |b|) == b
  {
    LittleEndianBound(b);
    BytesBack(LittleEndian(b), |b|);
    LittleEndianInjective(LittleEndianBytes(LittleEndian(b), |b|), b);
  }

  // ----- Bits -----

  function Mask(k: nat): bv8
    requires k < 8
  {
    1 << k
  }

  predicate Bit(b: Byte, k: nat)
    requires k < 8
  {
    (b as bv8) & Mask(k) != 0
  }

  function SetBit(b: Byte, k: nat): Byte
    requires k < 8
  {
    ((b as bv8) | Mask(k)) as Byte
  }

  function And(b: Byte, mask: bv8): Byte {
    ((b as bv8) & mask) as Byte
  }

  lemma BitsBack(x: bv8)
    ensures (x as Byte) as bv8 == x
  {
  }

  lemma MasksDiffer(k: nat, j: nat)
    requires k < 8 && j < 8
    ensures Mask(k) & Mask(j) == if k == j then Mask(k) else 0
    ensures Mask(k) != 0
  {
  }

  lemma OrMask(x: bv8, m: bv8, n: bv8)
    ensures m & n == 0 ==> (x | m) & n == x & n
    ensures m != 0 ==> (x | m) & m != 0
  {
  }

  /** Setting a bit sets that bit and no other. */
  lemma SetBitSets(b: Byte, k: nat, j: nat)
    requires k < 8 && j < 8
    ensures Bit(SetBit(b, k), j) <==> j == k || Bit(b, j)
  {
    BitsBack((b as bv8) | Mask(k));
    MasksDiffer(k, j);
    OrMask(b as bv8, Mask(k), Mask(j));
  }

  lemma ByteBack(b: Byte)
    ensures (b as bv8) as Byte == b
  {
    BitVectors.NumberBack(b as int);
  }

  /** A byte is its bits. */
  lemma BitsDetermine(a: Byte, b: Byte)
    requires forall k :: 0 <= k < 8 ==> (Bit(a, k) <==> Bit(b, k))
    ensures a == b
  {
    VectorsDetermine(a as bv8, b as bv8, a, b);
  }

  lemma VectorsDetermine(x: bv8, y: bv8, a: Byte, b: Byte)
    requires x == a as bv8 && y == b as bv8
    requires forall k :: 0 <= k < 8 ==> (Bit(a, k) <==> Bit(b, k))
    ensures a == b
  {
    assert x == y by {
      forall k | 0 <= k < 8
        ensures x & Mask(k) != 0 <==> y & Mask(k) != 0
      {
        assert Bit(a, k) <==> Bit(b, k);
      }
      EightMasks(x, y);
    }
    ByteBack(a);
    ByteBack(b);
  }

  lemma EightMasks(x: bv8, y: bv8)
    requires forall k :: 0 <= k < 8 ==> (x & Mask(k) != 0 <==> y & Mask(k) != 0)
    ensures x == y
  {
    assert Mask(0) == 1 && Mask(1) == 2 && Mask(2) == 4 && Mask(3) == 8;
    assert Mask(4) == 16 && Mask(5) == 32 && Mask(6) == 64 && Mask(7) == 128;
    EightBits(x, y);
  }

  lemma EightBits(x: bv8, y: bv8)
    requires (x & Mask(0) != 0) == (y & Mask(0) != 0) && (x & Mask(1) != 0) == (y & Mask(1) != 0)
    requires (x & Mask(2) != 0) == (y & Mask(2) != 0) && (x & Mask(3) != 0) == (y & Mask(3) != 0)
    requires (x & Mask(4) != 0) == (y & Mask(4) != 0) && (x & Mask(5) != 0) == (y & Mask(5) != 0)
    requires (x & Mask(6) != 0) == (y & Mask(6) != 0) && (x & Mask(7) != 0) == (y & Mask(7) != 0)
    ensures x == y
  {
  }

  const POWERS: seq<nat> := [1, 2, 4, 8, 16, 32, 64, 128]

  /** A bit is a digit of the number. */
  lemma BitIsDigit(b: Byte, k: nat)
    requires k < 8
    ensures Bit(b, k) <==> b as nat / POWERS[k] % 2 == 1
  {
    VectorDigit(b as bv8, b, k);
  }

  lemma VectorDigit(x: bv8, b: Byte, k: nat)
    requires x == b as bv8 && k < 8
    ensures x & Mask(k) != 0 <==> b as nat / POWERS[k] % 2 == 1
  {
    BitVectors.NumberBack(b as int);
    MaskIsPower(k);
    DigitOf(x, k);
  }

  lemma DigitOf(x: bv8, k: nat)
    requires k < 8
    ensures x & [1, 2, 4, 8, 16, 32, 64, 128][k] != 0 <==> x as int / POWERS[k] % 2 == 1
  {
    if k == 0 { BitVectors.Digit0(x); }
    else if k == 1 { BitVectors.Digit1(x); }
    else if k == 2 { BitVectors.Digit2(x); }
    else if k == 3 { BitVectors.Digit3(x); }
    else if k == 4 { BitVectors.Digit4(x); }
    else if k == 5 { BitVectors.Digit5(x); }
    else if k == 6 { BitVectors.Digit6(x); }
    else { BitVectors.Digit7(x); }
  }

  lemma MaskIsPower(k: nat)
    requires k < 8
    ensures Mask(k) == [1, 2, 4, 8, 16, 32, 64, 128][k]
  {
    assert k == 0 || k == 1 || k == 2 || k == 3 || k == 4 || k == 5 || k == 6 || k == 7;
  }

  lemma LowSevenIsRest(b: Byte)
    ensures And(b, 0x7f) as nat == b as nat % 128
  {
    BitVectors.NumberBack(b as int);
    BitVectors.LowSeven(b as bv8);
  }

  lemma HighTwoIsQuotient(b: Byte)
    ensures ((b as bv8) >> 6) as Byte as nat == b as nat / 64
  {
    BitVectors.NumberBack(b as int);
    BitVectors.HighTwo(b as bv8);
  }

  lemma LowSeven(b: Byte)
    requires b < 128
    ensures And(b, 0x7f) == b
  {
    ByteBack(b);
  }

  // ----- Writing into a buffer, piece after piece -----

  /** A buffer with something written into it from a place on. */
  ghost function Layout(was: seq<Byte>, start: nat, written: seq<Byte>): seq<Byte>
    requires start + |written| <= |was|
  {
    was[..start] + written + was[start + |written|..]
  }

  lemma LayoutAppend(was: seq<Byte>, start: nat, written: seq<Byte>, b: Byte)
    requires start + |written| < |was|
    ensures Layout(was, start, written)[start + |written| := b] == Layout(was, start, written + [b])
  {
  }

  lemma LayoutSlice(was: seq<Byte>, start: nat, written: seq<Byte>, end: nat)
    requires start + |written| <= end <= |was|
    ensures |Layout(was, start, written)| == |was|
    ensures Layout(was, start, written)[start..end] == written + was[start + |written|..end]
  {
  }

  lemma LayoutHead(was: seq<Byte>, start: nat, written: seq<Byte>, from: nat)
    requires from <= start && start + |written| <= |was|
    ensures |Layout(was, start, written)| == |was|
    ensures Layout(was, start, written)[from..start + |written|] == was[from..start] + written
  {
  }

  lemma LayoutNothing(was: seq<Byte>, start: nat)
    requires start <= |was|
    ensures Layout(was, start, []) == was
  {
  }

  /** Write one byte after what is already there. */
  method Put(destination: array<Byte>, at: nat, b: Byte, ghost was: seq<Byte>, ghost start: nat, ghost written: seq<Byte>)
    requires |was| == destination.Length && start + |written| < |was| && at == start + |written|
    requires destination[..] == Layout(was, start, written)
    modifies destination
    ensures destination[..] == Layout(was, start, written + [b])
  {
    LayoutAppend(was, start, written, b);
    destination[at] := b;
  }

  /** Write some bytes after what is already there. */
  method PutBytes(destination: array<Byte>, at: nat, bytes: seq<Byte>, ghost was: seq<Byte>, ghost start: nat, ghost written: seq<Byte>)
    requires |was| == destination.Length && start + |written| + |bytes| <= |was| && at == start + |written|
    requires destination[..] == Layout(was, start, written)
    modifies destination
    ensures destination[..] == Layout(was, start, written + bytes)
  {
    assert written + bytes[..0] == written;
    for i := 0 to |bytes|
      invariant destination[..] == Layout(was, start, written + bytes[..i])
    {
      Put(destination, at + i, bytes[i], was, start, written + bytes[..i]);
      assert written + bytes[..i] + [bytes[i]] == written + bytes[..i + 1];
    }
    assert bytes[..|bytes|] == bytes;
  }
}

/** Packet numbers: little-endian counters compared and incremented in place. */
module PacketNumbers {
  import opened Bytes

  /** The highest differing byte decides. */
  lemma HighestByteDecides(a: seq<Byte>, b: seq<Byte>, i: nat)
    requires |a| == |b| && i < |a| && a[i + 1..] == b[i + 1..] && a[i] > b[i]
    ensures LittleEndian(a) > LittleEndian(b)
  {
    LittleEndianSplit(a, i);
    LittleEndianSplit(b, i);
    LittleEndianBound(b[..i]);
    assert a[i..][1..] == a[i + 1..] && b[i..][1..] == b[i + 1..];
    HigherScaled(Power256(i), LittleEndian(a[i..]), LittleEndian(b[i..]));
  }

  lemma HigherScaled(p: nat, x: nat, y: nat)
    requires x > y
    ensures p * x >= p * y + p
  {
    assert p * x == p * y + p * (x - y);
    assert p * (x - y) == p + p * (x - y - 1);
  }

  method SequenceIsNewer(sequence: seq<Byte>, previous: seq<Byte>) returns (newer: bool)
    requires |sequence| == |previous|
    ensures newer == (LittleEndian(sequence) > LittleEndian(previous))
  {
    var i: nat := |sequence|;
    while i != 0
      invariant i <= |sequence| && sequence[i..] == previous[i..]
    {
      if sequence[i - 1] != previous[i - 1] {
        if sequence[i - 1] > previous[i - 1] {
          HighestByteDecides(sequence, previous, i - 1);
        } else {
          HighestByteDecides(previous, sequence, i - 1);
        }
        return sequence[i - 1] > previous[i - 1];
      }
      i := i - 1;
    }
    assert sequence[0..] == sequence && previous[0..] == previous;
    return false;
  }

  /** A run of 255s is one less than the power above it. */
  lemma {:induction false} AllOnes(b: seq<Byte>)
    requires forall i :: 0 <= i < |b| ==> b[i] == 255
    ensures LittleEndian(b) == Power256(|b|) - 1
  {
    if b != [] { AllOnes(b[1..]); }
  }

  lemma {:induction false} ZerosAreZero(n: nat)
    ensures LittleEndian(Zeros(n)) == 0
  {
    if n > 0 {
      ZerosAreZero(n - 1);
      assert Zeros(n)[1..] == Zeros(n - 1);
    }
  }

  /** Carrying past a run of 255s adds one. */
  lemma CarryAddsOne(b: seq<Byte>, carry: nat)
    requires carry < |b| && b[carry] < 255 && forall i :: 0 <= i < carry ==> b[i] == 255
    ensures LittleEndian(Zeros(carry) + [b[carry] + 1] + b[carry + 1..]) == LittleEndian(b) + 1
  {
    var b' := Zeros(carry) + [b[carry] + 1] + b[carry + 1..];
    LittleEndianSplit(b, carry);
    LittleEndianSplit(b', carry);
    AllOnes(b[..carry]);
    ZerosAreZero(carry);
    assert b'[..carry] == Zeros(carry) && b'[carry..][1..] == b[carry + 1..] && b[carry..][1..] == b[carry + 1..];
    var high := LittleEndian(b[carry..]);
    assert LittleEndian(b'[carry..]) == high + 1;
    HigherScaled(Power256(carry), high + 1, high);
    assert Power256(carry) * (high + 1) == Power256(carry) * high + Power256(carry);
  }

  method IncrementSequence(sequence: array<Byte>) returns (ok: bool)
    modifies sequence
    ensures ok == (LittleEndian(old(sequence[..])) < Power256(sequence.Length) - 1)
    ensures ok ==> LittleEndian(sequence[..]) == LittleEndian(old(sequence[..])) + 1
    ensures !ok ==> sequence[..] == old(sequence[..])
  {
    ghost var was := sequence[..];
    var carryEnd := 0;
    while carryEnd < sequence.Length && sequence[carryEnd] == 255
      invariant carryEnd <= sequence.Length && forall i :: 0 <= i < carryEnd ==> was[i] == 255
    {
      carryEnd := carryEnd + 1;
    }
    if carryEnd == sequence.Length {
      AllOnes(was);
      return false;
    }
    Clear(sequence, carryEnd);
    sequence[carryEnd] := sequence[carryEnd] + 1;
    hide LittleEndian, Power256;
    CarryAddsOne(was, carryEnd);
    assert sequence[..] == Zeros(carryEnd) + [was[carryEnd] + 1] + was[carryEnd + 1..];
    LittleEndianBound(sequence[..]);
    ok := true;
  }

  method Clear(sequence: array<Byte>, n: nat)
    requires n <= sequence.Length
    modifies sequence
    ensures sequence[..n] == Zeros(n) && sequence[n..] == old(sequence[n..])
  {
    for i := 0 to n
      invariant sequence[..i] == Zeros(i) && sequence[i..] == old(sequence[i..])
    {
      sequence[i] := 0;
      assert sequence[..i + 1] == sequence[..i] + [sequence[i]];
    }
  }

  // ----- Comparing codes without looking at where they differ -----

  lemma SameBits(a: Byte, b: Byte)
    ensures (a as bv8) ^ (b as bv8) == 0 <==> a == b
  {
    ByteBack(a);
    ByteBack(b);
    XorZero(a as bv8, b as bv8);
  }

  lemma XorZero(x: bv8, y: bv8)
    ensures x ^ y == 0 <==> x == y
  {
  }

  lemma OrZero(x: bv8, y: bv8)
    ensures x | y == 0 <==> x == 0 && y == 0
  {
  }

  method MicEqual(a: seq<Byte>, b: seq<Byte>) returns (equal: bool)
    requires |a| == |b|
    ensures equal == (a == b)
  {
    var difference: bv8 := 0;
    for i := 0 to |a|
      invariant difference == 0 <==> a[..i] == b[..i]
    {
      SameBits(a[i], b[i]);
      OrZero(difference, (a[i] as bv8) ^ (b[i] as bv8));
      assert a[..i + 1] == a[..i] + [a[i]] && b[..i + 1] == b[..i] + [b[i]];
      difference := difference | ((a[i] as bv8) ^ (b[i] as bv8));
    }
    assert a[..|a|] == a && b[..|b|] == b;
    equal := difference == 0;
  }
}

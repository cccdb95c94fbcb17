/** The Michael message integrity code, computed as the bytes come in.
    Section 12.5.2.3 of IEEE Std 802.11-2016. */
module Michael {
  import opened Bytes

  const MIC_SIZE: nat := 8
  const PADDING: Byte := 0x5a

  // ----- Words -----

  function Word(b: seq<Byte>): bv32
    requires |b| == 4
  {
    Joined(b[0] as bv8, b[1] as bv8, b[2] as bv8, b[3] as bv8)
  }

  function Joined(a: bv8, b: bv8, c: bv8, d: bv8): bv32 {
    (a as bv32) | ((b as bv32) << 8) | ((c as bv32) << 16) | ((d as bv32) << 24)
  }

  function Low(w: bv32): Byte {
    ((w & 0xff) as bv8) as Byte
  }

  function WordBytes(w: bv32): (b: seq<Byte>)
    ensures |b| == 4
  {
    [Low(w), Low(w >> 8), Low(w >> 16), Low(w >> 24)]
  }

  function RotateLeft(value: bv32, amount: bv6): bv32
    requires 0 < amount < 32
  {
    (value << amount) | (value >> (32 - amount))
  }

  function RotateRight(value: bv32, amount: bv6): bv32
    requires 0 < amount < 32
  {
    (value >> amount) | (value << (32 - amount))
  }

  function ExchangeBytes(value: bv32): bv32 {
    ((value & 0x00ff00ff) << 8) | ((value & 0xff00ff00) >> 8)
  }

  // ----- The definition: a fold over the words of the padded message -----

  datatype State = State(left: bv32, right: bv32)

  function Xor(a: bv32, b: bv32): bv32 {
    a ^ b
  }

  function Add(a: bv32, b: bv32): bv32 {
    a + b
  }

  function Mix(s: State, x: bv32): State {
    var r := Xor(s.right, x);
    State(Add(s.left, r), r)
  }

  function Block(s: State, word: bv32): State {
    var s0 := s.(left := Xor(s.left, word));
    var s1 := Mix(s0, RotateLeft(s0.left, 17));
    var s2 := Mix(s1, ExchangeBytes(s1.left));
    var s3 := Mix(s2, RotateLeft(s2.left, 3));
    Mix(s3, RotateRight(s3.left, 2))
  }

  ghost function Blocks(s: State, b: seq<Byte>): State
    decreases |b|
  {
    if |b| < 4 then s else Blocks(Block(s, Word(b[..4])), b[4..])
  }

  ghost function Padded(message: seq<Byte>): (p: seq<Byte>)
    ensures |p| % 4 == 0 && 4 <= |p| - |message| - 1 <= 7
  {
    message + [PADDING] + Zeros(7 - |message| % 4)
  }

  ghost function KeyState(key: seq<Byte>): State
    requires |key| == MIC_SIZE
  {
    State(Word(key[..4]), Word(key[4..]))
  }

  /** The code of any message. */
  ghost function Code(key: seq<Byte>, message: seq<Byte>): (code: seq<Byte>)
    requires |key| == MIC_SIZE
    ensures |code| == MIC_SIZE
  {
    var s := Blocks(KeyState(key), Padded(message));
    WordBytes(s.left) + WordBytes(s.right)
  }

  /** The code of a frame: the addresses and the priority come first. */
  ghost function Mic(key: seq<Byte>, da: seq<Byte>, sa: seq<Byte>, priority: Byte, data: seq<Byte>): (mic: seq<Byte>)
    requires |key| == MIC_SIZE && |da| == 6 && |sa| == 6
    ensures |mic| == MIC_SIZE
  {
    Code(key, da + sa + [priority, 0, 0, 0] + data)
  }

  // ----- Checks of the definition -----

  /** What a frame's code is computed over: destination, source, priority, three zeros, and the data. */
  lemma MicCovers(key: seq<Byte>, da: seq<Byte>, sa: seq<Byte>, priority: Byte, data: seq<Byte>, message: seq<Byte>)
    requires |key| == MIC_SIZE && |da| == 6 && |sa| == 6
    requires |message| == 16 + |data| && message[..6] == da && message[6..12] == sa && message[12] == priority
    requires message[13..16] == [0, 0, 0] && message[16..] == data
    ensures Mic(key, da, sa, priority, data) == Code(key, message)
  {
    hide Code;
    assert message == message[..6] + message[6..12] + [message[12]] + message[13..16] + message[16..];
    assert da + sa + [priority, 0, 0, 0] + data == da + sa + [priority] + [0, 0, 0] + data;
  }

  /** The bytes of a word are the bytes it was made of, in their order. */
  lemma WordComesBack(b: seq<Byte>)
    requires |b| == 4
    ensures WordBytes(Word(b)) == b
  {
    ByteBack(b[0]);
    ByteBack(b[1]);
    ByteBack(b[2]);
    ByteBack(b[3]);
    hide Joined, WordBytes;
    PartsComeBack(b[0] as bv8, b[1] as bv8, b[2] as bv8, b[3] as bv8);
  }

  lemma PartsComeBack(a: bv8, b: bv8, c: bv8, d: bv8)
    ensures WordBytes(Joined(a, b, c, d)) == [a as Byte, b as Byte, c as Byte, d as Byte]
  {
    JoinedComesBack(a, b, c, d);
    hide Joined;
  }

  lemma JoinedComesBack(a: bv8, b: bv8, c: bv8, d: bv8)
    ensures var w := Joined(a, b, c, d);
      && (w & 0xff) as bv8 == a && ((w >> 8) & 0xff) as bv8 == b
      && ((w >> 16) & 0xff) as bv8 == c && ((w >> 24) & 0xff) as bv8 == d
  {
  }

  lemma FoldTwo(s: State, p: seq<Byte>)
    requires |p| == 8
    ensures Blocks(s, p) == Block(Block(s, Word(p[..4])), Word(p[4..]))
  {
    hide Block, Word;
    var s1 := Block(s, Word(p[..4]));
    assert p[4..][..4] == p[4..] && p[4..][4..] == [];
    assert Blocks(s, p) == Blocks(s1, p[4..]);
    assert Blocks(s1, p[4..]) == Blocks(Block(s1, Word(p[4..])), []);
  }

  lemma FoldThree(s: State, p: seq<Byte>)
    requires |p| == 12
    ensures Blocks(s, p) == Block(Block(Block(s, Word(p[..4])), Word(p[4..8])), Word(p[8..]))
  {
    hide Block, Word;
    assert p[4..][..4] == p[4..8] && p[4..][4..] == p[8..];
    assert Blocks(s, p) == Blocks(Block(s, Word(p[..4])), p[4..]);
    FoldTwo(Block(s, Word(p[..4])), p[4..]);
  }

  /** The published test vectors for the empty message, "M" and "Michael". */
  lemma TestVectors()
    ensures Code([0, 0, 0, 0, 0, 0, 0, 0], []) == [0x82, 0x92, 0x5c, 0x1c, 0xa1, 0xd1, 0x30, 0xb8]
    ensures Code([0x82, 0x92, 0x5c, 0x1c, 0xa1, 0xd1, 0x30, 0xb8], [0x4d]) == [0x43, 0x47, 0x21, 0xca, 0x40, 0x63, 0x9b, 0x3f]
    ensures Code([0xd5, 0x5e, 0x10, 0x05, 0x10, 0x12, 0x89, 0x86], [0x4d, 0x69, 0x63, 0x68, 0x61, 0x65, 0x6c])
      == [0x0a, 0x94, 0x2b, 0x12, 0x4e, 0xca, 0xa5, 0x46]
  {
    hide Code;
    EmptyVector();
    ShortVector();
    LongVector();
  }

  lemma EmptyVector()
    ensures Code([0, 0, 0, 0, 0, 0, 0, 0], []) == [0x82, 0x92, 0x5c, 0x1c, 0xa1, 0xd1, 0x30, 0xb8]
  {
    hide Block, Word, WordBytes;
    assert Padded([]) == [0x5a, 0, 0, 0] + [0, 0, 0, 0];
    WordIs([0, 0, 0, 0], 0, 0, 0, 0);
    WordIs([0x5a, 0, 0, 0], 0x5a, 0, 0, 0);
    WordIs([0x82, 0x92, 0x5c, 0x1c], 0x82, 0x92, 0x5c, 0x1c);
    WordIs([0xa1, 0xd1, 0x30, 0xb8], 0xa1, 0xd1, 0x30, 0xb8);
    EmptyBlocks();
    WordComesBack([0x82, 0x92, 0x5c, 0x1c]);
    WordComesBack([0xa1, 0xd1, 0x30, 0xb8]);
    FoldTwo(State(0, 0), Padded([]));
    var key: seq<Byte> := [0, 0, 0, 0, 0, 0, 0, 0];
    assert key[..4] == [0, 0, 0, 0] == key[4..];
  }

  lemma ShortVector()
    ensures Code([0x82, 0x92, 0x5c, 0x1c, 0xa1, 0xd1, 0x30, 0xb8], [0x4d]) == [0x43, 0x47, 0x21, 0xca, 0x40, 0x63, 0x9b, 0x3f]
  {
    hide Block, Word, WordBytes;
    assert Padded([0x4d]) == [0x4d, 0x5a, 0, 0] + [0, 0, 0, 0];
    WordIs([0, 0, 0, 0], 0, 0, 0, 0);
    WordIs([0x5a, 0, 0, 0], 0x5a, 0, 0, 0);
    WordIs([0x82, 0x92, 0x5c, 0x1c], 0x82, 0x92, 0x5c, 0x1c);
    WordIs([0xa1, 0xd1, 0x30, 0xb8], 0xa1, 0xd1, 0x30, 0xb8);
    WordIs([0x4d, 0x5a, 0, 0], 0x4d, 0x5a, 0, 0);
    WordIs([0x43, 0x47, 0x21, 0xca], 0x43, 0x47, 0x21, 0xca);
    WordIs([0x40, 0x63, 0x9b, 0x3f], 0x40, 0x63, 0x9b, 0x3f);
    ShortBlocks();
    WordComesBack([0x43, 0x47, 0x21, 0xca]);
    WordComesBack([0x40, 0x63, 0x9b, 0x3f]);
    FoldTwo(State(0x1c5c9282, 0xb830d1a1), Padded([0x4d]));
    var key: seq<Byte> := [0x82, 0x92, 0x5c, 0x1c, 0xa1, 0xd1, 0x30, 0xb8];
    assert key[..4] == [0x82, 0x92, 0x5c, 0x1c] && key[4..] == [0xa1, 0xd1, 0x30, 0xb8];
  }

  lemma LongVector()
    ensures Code([0xd5, 0x5e, 0x10, 0x05, 0x10, 0x12, 0x89, 0x86], [0x4d, 0x69, 0x63, 0x68, 0x61, 0x65, 0x6c])
      == [0x0a, 0x94, 0x2b, 0x12, 0x4e, 0xca, 0xa5, 0x46]
  {
    hide Block, Word, WordBytes;
    var m: seq<Byte> := [0x4d, 0x69, 0x63, 0x68, 0x61, 0x65, 0x6c];
    var p: seq<Byte> := [0x4d, 0x69, 0x63, 0x68, 0x61, 0x65, 0x6c, 0x5a, 0, 0, 0, 0];
    assert Padded(m) == p;
    assert p[..4] == [0x4d, 0x69, 0x63, 0x68] && p[4..8] == [0x61, 0x65, 0x6c, 0x5a] && p[8..] == [0, 0, 0, 0];
    WordIs([0, 0, 0, 0], 0, 0, 0, 0);
    WordIs([0x4d, 0x69, 0x63, 0x68], 0x4d, 0x69, 0x63, 0x68);
    WordIs([0x61, 0x65, 0x6c, 0x5a], 0x61, 0x65, 0x6c, 0x5a);
    WordIs([0xd5, 0x5e, 0x10, 0x05], 0xd5, 0x5e, 0x10, 0x05);
    WordIs([0x10, 0x12, 0x89, 0x86], 0x10, 0x12, 0x89, 0x86);
    WordIs([0x0a, 0x94, 0x2b, 0x12], 0x0a, 0x94, 0x2b, 0x12);
    WordIs([0x4e, 0xca, 0xa5, 0x46], 0x4e, 0xca, 0xa5, 0x46);
    LongBlocks();
    WordComesBack([0x0a, 0x94, 0x2b, 0x12]);
    WordComesBack([0x4e, 0xca, 0xa5, 0x46]);
    FoldThree(State(0x05105ed5, 0x86891210), p);
    var key: seq<Byte> := [0xd5, 0x5e, 0x10, 0x05, 0x10, 0x12, 0x89, 0x86];
    assert key[..4] == [0xd5, 0x5e, 0x10, 0x05] && key[4..] == [0x10, 0x12, 0x89, 0x86];
  }

  /** A word from its bytes as vectors: the conversion and the joining are apart. */
  lemma WordIs(b: seq<Byte>, a0: bv8, a1: bv8, a2: bv8, a3: bv8)
    requires |b| == 4 && b == [a0 as Byte, a1 as Byte, a2 as Byte, a3 as Byte]
    ensures Word(b) == Joined(a0, a1, a2, a3)
  {
    hide Joined;
    BitsBack(a0);
    BitsBack(a1);
    BitsBack(a2);
    BitsBack(a3);
  }

  lemma EmptyBlocks()
    ensures Block(Block(State(0, 0), 0x5a), 0) == State(0x1c5c9282, 0xb830d1a1)
  {
  }

  lemma ShortBlocks()
    ensures Block(Block(State(0x1c5c9282, 0xb830d1a1), 0x5a4d), 0) == State(0xca214743, 0x3f9b6340)
  {
  }

  lemma LongBlocks()
    ensures Block(Block(Block(State(0x05105ed5, 0x86891210), 0x6863694d), 0x5a6c6561), 0) == State(0x122b940a, 0x46a5ca4e)
  {
  }

  // ----- Taking the bytes in pieces -----

  lemma {:induction false} BlocksSplit(s: State, a: seq<Byte>, b: seq<Byte>)
    requires |a| % 4 == 0
    ensures Blocks(s, a + b) == Blocks(Blocks(s, a), b)
    decreases |a|
  {
    hide Block, Word;
    if a == [] {
      assert a + b == b;
    } else {
      BlocksSplit(Block(s, Word(a[..4])), a[4..], b);
      assert (a + b)[..4] == a[..4] && (a + b)[4..] == a[4..] + b;
    }
  }

  datatype Progress = Progress(state: State, pending: seq<Byte>) {
    ghost predicate Valid() {
      |pending| < 4
    }
  }

  /** What has been seen and not yet folded in, and then the new bytes, in whole words. */
  ghost function Absorb(p: Progress, b: seq<Byte>): (p': Progress)
    ensures p'.Valid()
  {
    var all := p.pending + b;
    var whole := |all| - |all| % 4;
    Progress(Blocks(p.state, all[..whole]), all[whole..])
  }

  /** The pieces do not matter, whatever their sizes and whatever is pending. */
  lemma AbsorbSplits(p: Progress, a: seq<Byte>, b: seq<Byte>)
    ensures Absorb(Absorb(p, a), b) == Absorb(p, a + b)
  {
    hide Blocks;
    var first := p.pending + a;
    var w1 := |first| - |first| % 4;
    var rest := first[w1..] + b;
    var w2 := |rest| - |rest| % 4;
    assert p.pending + (a + b) == first + b;
    WholeAdds(|first|, |b|);
    TwoCuts(first, b, w1, w2);
    BlocksSplit(p.state, first[..w1], rest[..w2]);
  }

  /** Cutting off the whole words in two goes cuts where one go does. */
  lemma TwoCuts(first: seq<Byte>, b: seq<Byte>, w1: nat, w2: nat)
    requires w1 <= |first| && w2 <= |first| - w1 + |b|
    ensures (first + b)[..w1 + w2] == first[..w1] + (first[w1..] + b)[..w2]
    ensures (first + b)[w1 + w2..] == (first[w1..] + b)[w2..]
  {
    var all := first + b;
    assert all[w1..] == first[w1..] + b;
    assert all[..w1] == first[..w1];
    assert all[..w1 + w2] == all[..w1] + all[w1..][..w2];
    assert all[w1 + w2..] == all[w1..][w2..];
  }

  lemma WholeAdds(m: nat, n: nat)
    ensures (m - m % 4) % 4 == 0
    ensures (m + n) - (m + n) % 4 == (m - m % 4) + ((m % 4 + n) - (m % 4 + n) % 4)
  {
  }

  /** A message padded out by the end leaves nothing pending. */
  lemma AbsorbWhole(s: State, b: seq<Byte>)
    requires |b| % 4 == 0
    ensures Absorb(Progress(s, []), b) == Progress(Blocks(s, b), [])
  {
    hide Blocks;
    assert [] + b == b && b[..|b|] == b && b[|b|..] == [];
  }

  class MichaelContext {
    var left: bv32
    var right: bv32
    const pending: array<Byte>
    var pendingSize: nat

    ghost predicate Valid()
      reads this
    {
      pending.Length == 4 && pendingSize < 4
    }

    ghost function Snapshot(): Progress
      requires Valid()
      reads this, pending
    {
      Progress(State(left, right), pending[..pendingSize])
    }

    constructor (left: bv32, right: bv32)
      ensures Valid() && fresh(pending) && Snapshot() == Progress(State(left, right), [])
    {
      this.left, this.right := left, right;
      pending := new Byte[4];
      pendingSize := 0;
    }

    method MixIn(x: bv32)
      modifies `left, `right
      ensures State(left, right) == Mix(State(old(left), old(right)), x)
    {
      hide Xor, Add;
      right := Xor(right, x);
      left := Add(left, right);
    }

    method BlockIn(word: bv32)
      modifies `left, `right
      ensures State(left, right) == Block(State(old(left), old(right)), word)
    {
      hide Xor, Mix, RotateLeft, RotateRight, ExchangeBytes;
      left := Xor(left, word);
      MixIn(RotateLeft(left, 17));
      MixIn(ExchangeBytes(left));
      MixIn(RotateLeft(left, 3));
      MixIn(RotateRight(left, 2));
    }

    /** Fill up the pending bytes; the index of the next unread byte is returned. */
    method Fill(data: seq<Byte>) returns (next: nat)
      requires Valid() && pendingSize != 0
      modifies this, pending
      ensures Valid() && next <= |data| && Snapshot() == Absorb(old(Snapshot()), data[..next])
      ensures next < |data| ==> pendingSize == 0
    {
      hide Block, Word, Blocks, Absorb;
      next := 0;
      ghost var was := Snapshot();
      while next < |data| && pendingSize < 4
        invariant pending.Length == 4 && 0 < pendingSize <= 4 && next <= |data| && left == old(left) && right == old(right)
        invariant pending[..pendingSize] == was.pending + data[..next]
      {
        pending[pendingSize] := data[next];
        pendingSize := pendingSize + 1;
        next := next + 1;
      }
      FilledUp(was, data[..next]);
      assert pending[..] == pending[..4];
      if pendingSize == 4 {
        BlockIn(Word(pending[..]));
        pendingSize := 0;
      }
    }

    /** Keep the bytes that do not fill a word. */
    method Keep(bytes: seq<Byte>)
      requires Valid() && pendingSize == 0 && |bytes| < 4
      modifies `pendingSize, pending
      ensures Valid() && Snapshot() == Absorb(old(Snapshot()), bytes)
    {
      hide Blocks;
      for i := 0 to |bytes|
        invariant pending[..i] == bytes[..i]
      {
        pending[i] := bytes[i];
      }
      pendingSize := |bytes|;
      NothingWhole(State(left, right), bytes);
    }

    method Update(data: seq<Byte>)
      requires Valid()
      modifies this, pending
      ensures Valid() && Snapshot() == Absorb(old(Snapshot()), data)
    {
      hide Block, Word, Absorb;
      ghost var was := Snapshot();
      AbsorbNothing(was);
      var at := 0;
      assert data[..0] == [];
      if pendingSize != 0 {
        at := Fill(data);
      }
      while |data| - at >= 4
        invariant Valid() && at <= |data| && (at < |data| ==> pendingSize == 0)
        invariant Snapshot() == Absorb(was, data[..at])
      {
        AbsorbWord(State(left, right), data[at..at + 4]);
        AbsorbSplits(was, data[..at], data[at..at + 4]);
        assert data[..at + 4] == data[..at] + data[at..at + 4];
        assert Snapshot() == Progress(State(left, right), []);
        BlockIn(Word(data[at..at + 4]));
        assert Snapshot() == Progress(State(left, right), []);
        at := at + 4;
      }
      if at != |data| {
        Keep(data[at..]);
        AbsorbSplits(was, data[..at], data[at..]);
      }
      assert data[..at] + data[at..] == data;
      assert at == |data| ==> data[..at] == data;
    }
  }

  lemma AbsorbWord(s: State, b: seq<Byte>)
    requires |b| == 4
    ensures Absorb(Progress(s, []), b) == Progress(Block(s, Word(b)), [])
  {
    hide Block, Word;
    AbsorbWhole(s, b);
    assert b[..4] == b && b[4..] == [];
  }

  /** Bytes that fill at most one word with the pending ones. */
  lemma FilledUp(p: Progress, b: seq<Byte>)
    requires |p.pending| + |b| <= 4
    ensures var all := p.pending + b;
      Absorb(p, b) == if |all| == 4 then Progress(Block(p.state, Word(all)), []) else Progress(p.state, all)
  {
    hide Block, Word;
    var all := p.pending + b;
    if |all| == 4 {
      AbsorbWord(p.state, all);
    } else {
      NothingWhole(p.state, all);
    }
    assert [] + all == all;
  }

  lemma AbsorbNothing(p: Progress)
    requires p.Valid()
    ensures Absorb(p, []) == p
  {
    hide Block, Word;
    assert p.pending + [] == p.pending && p.pending[0..] == p.pending;
  }

  lemma NothingWhole(s: State, b: seq<Byte>)
    requires |b| < 4
    ensures Absorb(Progress(s, []), b) == Progress(s, b)
  {
    hide Block, Word;
    assert [] + b == b && b[0..] == b;
  }

  method MichaelMic(key: seq<Byte>, da: seq<Byte>, sa: seq<Byte>, priority: Byte, data: seq<Byte>) returns (out: seq<Byte>)
    requires |key| == MIC_SIZE && |da| == 6 && |sa| == 6
    ensures out == Mic(key, da, sa, priority, data)
  {
    hide Word, Blocks, Absorb, WordBytes;
    var pseudoHeader := da + sa + [priority, 0, 0, 0];
    var context := new MichaelContext(Word(key[..4]), Word(key[4..]));
    ghost var start := context.Snapshot();
    context.Update(pseudoHeader);
    context.Update(data);
    AbsorbSplits(start, pseudoHeader, data);
    ghost var message := pseudoHeader + data;
    context.Update([PADDING]);
    AbsorbSplits(start, message, [PADDING]);
    AbsorbPending(start, message + [PADDING]);
    ghost var zeros := 0;
    if context.pendingSize != 0 {
      zeros := 4 - context.pendingSize;
      context.Update([0, 0, 0, 0][..4 - context.pendingSize]);
      AbsorbSplits(start, message + [PADDING], [0, 0, 0, 0][..zeros]);
    }
    ghost var aligned := message + [PADDING] + [0, 0, 0, 0][..zeros];
    assert context.Snapshot() == Absorb(start, aligned) by {
      assert zeros == 0 ==> aligned == message + [PADDING];
    }
    context.Update([0, 0, 0, 0]);
    AbsorbSplits(start, aligned, [0, 0, 0, 0]);
    PaddingAdds(message, zeros);
    AbsorbWhole(KeyState(key), Padded(message));
    assert message == da + sa + [priority, 0, 0, 0] + data;
    out := WordBytes(context.left) + WordBytes(context.right);
  }

  lemma AbsorbPending(p: Progress, b: seq<Byte>)
    ensures |Absorb(p, b).pending| == (|p.pending| + |b|) % 4
  {
    hide Blocks;
  }

  lemma PaddingAdds(message: seq<Byte>, zeros: nat)
    requires zeros == (4 - (|message| + 1) % 4) % 4
    ensures message + [PADDING] + [0, 0, 0, 0][..zeros] + [0, 0, 0, 0] == Padded(message)
  {
  }
}

/** Addresses and 802.11 headers, written and read.  Section 9.2.4 of IEEE Std 802.11-2016. */
module Headers {
  import opened Bytes
  import opened Options

  type MacAddress = m: seq<Byte> | |m| == 6 witness Zeros(6)

  type Short = x: nat | x < 0x1_0000

  datatype Header = Header(
    frameControl: Short,
    durationId: Short,
    address1: MacAddress,
    address2: MacAddress,
    address3: MacAddress,
    address4: MacAddress,
    sequenceControl: Short)

  const TYPE_MANAGEMENT: nat := 0
  const TYPE_CONTROL: nat := 1
  const TYPE_DATA: nat := 2
  const SUBTYPE_DATA: nat := 0
  const SUBTYPE_NULL_DATA: nat := 4
  const TO_DS: nat := 0x100
  const FROM_DS: nat := 0x200
  const RETRY: nat := 0x800
  const PROTECTED_FRAME: nat := 0x4000

  predicate IsGroup(a: MacAddress) {
    a[0] % 2 == 1
  }

  function FrameType(frameControl: Short): nat {
    frameControl / 4 % 4
  }

  function Subtype(frameControl: Short): nat {
    frameControl / 16 % 16
  }

  /** One bit of the frame control field. */
  predicate Flag(frameControl: Short, flag: nat)
    requires flag > 0
  {
    frameControl / flag % 2 == 1
  }

  function Le16(x: Short): (b: seq<Byte>)
    ensures |b| == 2
  {
    [(x % 256) as Byte, (x / 256) as Byte]
  }

  function FromLe16(b: seq<Byte>): Short
    requires |b| == 2
  {
    b[0] as nat + 256 * b[1] as nat
  }

  lemma Le16Back(x: Short, b: seq<Byte>)
    ensures FromLe16(Le16(x)) == x
    ensures |b| == 2 ==> Le16(FromLe16(b)) == b
  {
  }

  predicate FourAddresses(frameControl: Short) {
    Flag(frameControl, TO_DS) && Flag(frameControl, FROM_DS)
  }

  /** The size of a header that can be written and read, or none. */
  function HeaderSize(frameControl: Short): (n: Option<nat>)
    ensures n.Some? ==> n.value == 24 || n.value == 30
  {
    if FrameType(frameControl) == TYPE_MANAGEMENT then Some(24)
    else if FrameType(frameControl) == TYPE_DATA && (Subtype(frameControl) == SUBTYPE_DATA || Subtype(frameControl) == SUBTYPE_NULL_DATA) then
      Some(if FourAddresses(frameControl) then 30 else 24)
    else None
  }

  ghost function Serialized(h: Header): (b: seq<Byte>)
    requires HeaderSize(h.frameControl).Some?
    ensures |b| == HeaderSize(h.frameControl).value
  {
    Le16(h.frameControl) + Le16(h.durationId) + h.address1 + h.address2 + h.address3 + Le16(h.sequenceControl)
    + if HeaderSize(h.frameControl).value == 30 then h.address4 else []
  }

  /** The header at the start of a frame, and where the rest begins. */
  function Deserialized(source: seq<Byte>): (r: Option<(Header, nat)>)
    ensures r.Some? ==> r.value.1 <= |source|
  {
    if |source| < 10 then None
    else
      var frameControl, rest := FromLe16(source[..2]), source[10..];
      var kind := FrameType(frameControl);
      if kind == TYPE_MANAGEMENT then
        if |rest| < 14 then None
        else
          Some((Header(frameControl, FromLe16(source[2..4]), source[4..10], rest[..6], rest[6..12], Zeros(6), FromLe16(rest[12..14])), 24))
      else if kind == TYPE_DATA then
        if Subtype(frameControl) != SUBTYPE_DATA && Subtype(frameControl) != SUBTYPE_NULL_DATA then None
        else
          var size := if FourAddresses(frameControl) then 20 else 14;
          if |rest| < size then None
          else
            Some((Header(frameControl, FromLe16(source[2..4]), source[4..10], rest[..6], rest[6..12],
                         if size == 20 then rest[14..20] else Zeros(6), FromLe16(rest[12..14])), 10 + size))
      else None
  }

  /** What is written is read back, whatever follows it. */
  lemma HeaderComesBack(h: Header, rest: seq<Byte>)
    requires HeaderSize(h.frameControl).Some?
    ensures var n := HeaderSize(h.frameControl).value;
      Deserialized(Serialized(h) + rest) == Some((if n == 30 then h else h.(address4 := Zeros(6)), n))
  {
    var n := HeaderSize(h.frameControl).value;
    var s := Serialized(h) + rest;
    Le16Back(h.frameControl, []);
    Le16Back(h.durationId, []);
    Le16Back(h.sequenceControl, []);
    assert s[..2] == Le16(h.frameControl) && s[2..4] == Le16(h.durationId) && s[4..10] == h.address1;
    assert s[10..] == h.address2 + h.address3 + Le16(h.sequenceControl) + (if n == 30 then h.address4 else []) + rest;
    assert s[10..][..6] == h.address2 && s[10..][6..12] == h.address3 && s[10..][12..14] == Le16(h.sequenceControl);
    assert n == 30 ==> s[10..][14..20] == h.address4;
  }

  /** What is read is what was there: reading and writing again gives the same bytes. */
  lemma HeaderWasThere(source: seq<Byte>)
    requires Deserialized(source).Some?
    ensures var (h, n) := Deserialized(source).value;
      HeaderSize(h.frameControl) == Some(n) && Serialized(h) == source[..n]
  {
    var (h, n) := Deserialized(source).value;
    Le16Back(0, source[..2]);
    Le16Back(0, source[2..4]);
    Le16Back(0, source[10..][12..14]);
    HeaderPieces(source, n);
  }

  lemma HeaderPieces(b: seq<Byte>, n: nat)
    requires 24 <= n <= |b|
    ensures b[..n] == b[..2] + b[2..4] + b[4..10] + b[10..][..6] + b[10..][6..12] + b[10..][12..14] + b[24..n]
    ensures n == 30 ==> b[10..][14..20] == b[24..n]
    ensures n == 24 ==> b[24..n] == []
  {
    assert b[10..][..6] == b[10..16] && b[10..][6..12] == b[16..22] && b[10..][12..14] == b[22..24];
    assert n == 30 ==> b[10..][14..20] == b[24..30];
  }

  /** Exactly the frames that hold a whole header of a supported kind can be read: management frames with
      24 bytes, and data and null data frames with 24, or 30 where both direction bits are set. */
  lemma ReadableExactly(source: seq<Byte>)
    ensures Deserialized(source).Some? <==>
      |source| >= 24 &&
      var control := source[0] as nat + 256 * source[1] as nat;
      || control / 4 % 4 == 0
      || (control / 4 % 4 == 2 && control / 16 % 16 in {0, 4} && (control / 256 % 4 == 3 ==> |source| >= 30))
  {
    if |source| >= 10 { DirectionBits(FromLe16(source[..2])); }
  }

  lemma DirectionBits(control: Short)
    ensures FourAddresses(control) <==> control / 256 % 4 == 3
  {
  }

  /** Where everything is in a header. */
  lemma HeaderLayout(h: Header)
    requires HeaderSize(h.frameControl).Some?
    ensures var b := Serialized(h);
      && b[0] as nat + 256 * b[1] as nat == h.frameControl && b[2] as nat + 256 * b[3] as nat == h.durationId
      && b[4..10] == h.address1 && b[10..16] == h.address2 && b[16..22] == h.address3
      && b[22] as nat + 256 * b[23] as nat == h.sequenceControl && (|b| == 30 ==> b[24..] == h.address4)
  {
    var b := Serialized(h);
    assert b[..2] == Le16(h.frameControl) && b[2..4] == Le16(h.durationId) && b[22..24] == Le16(h.sequenceControl);
    assert b[0] == b[..2][0] && b[1] == b[..2][1] && b[2] == b[2..4][0] && b[3] == b[2..4][1];
    assert b[22] == b[22..24][0] && b[23] == b[22..24][1];
  }

  // ----- The buffer a frame is built in, back to front -----

  /** A transmit buffer: a stretch of memory, the part of it that the descriptor covers, and how much
      of that is still free in front of the frame. */
  class TxBuffer {
    const memory: array<Byte>
    var data: nat
    var size: nat
    var currentOffset: nat

    ghost predicate Valid()
      reads this
    {
      data + size <= memory.Length && currentOffset <= size
    }

    ghost function Frame(): seq<Byte>
      requires Valid()
      reads this, memory
    {
      memory[data + currentOffset..data + size]
    }

    /** As the driver allocates it. */
    constructor (size: nat)
      ensures Valid() && fresh(memory) && memory.Length == size && data == 0 && this.size == size && currentOffset == size
    {
      memory := new Byte[size](_ => 0);
      data, this.size, currentOffset := 0, size, size;
    }

    method AllocateSpace(n: nat) returns (at: Option<nat>)
      requires Valid()
      modifies `currentOffset
      ensures Valid() && at == if n > old(currentOffset) then None else Some(data + old(currentOffset) - n)
      ensures currentOffset == if n > old(currentOffset) then old(currentOffset) else old(currentOffset) - n
      ensures at.Some? ==> |Frame()| == n + |old(Frame())| && Frame()[n..] == old(Frame())
    {
      if n > currentOffset {
        return None;
      }
      currentOffset := currentOffset - n;
      at := Some(data + currentOffset);
    }

    /** Copy some bytes to a place in the memory; the rest stays as it is. */
    method Overwrite(at: nat, bytes: seq<Byte>)
      requires at + |bytes| <= memory.Length
      modifies memory
      ensures forall to :: at + |bytes| <= to <= memory.Length ==> memory[at..to] == bytes + old(memory[at + |bytes|..to])
      ensures forall from :: 0 <= from <= at ==> memory[from..at + |bytes|] == old(memory[from..at]) + bytes
    {
      ghost var was := memory[..];
      LayoutNothing(was, at);
      PutBytes(memory, at, bytes, was, at, []);
      assert [] + bytes == bytes;
      hide Layout;
      forall to | at + |bytes| <= to <= memory.Length
        ensures memory[at..to] == bytes + was[at + |bytes|..to]
      {
        LayoutSlice(was, at, bytes, to);
      }
      forall from | 0 <= from <= at
        ensures memory[from..at + |bytes|] == was[from..at] + bytes
      {
        LayoutHead(was, at, bytes, from);
      }
    }

    /** Allocate space for some bytes and copy them there. */
    method Prepend(bytes: seq<Byte>) returns (ok: bool)
      requires Valid()
      modifies `currentOffset, memory
      ensures Valid() && ok == (|bytes| <= old(currentOffset))
      ensures currentOffset == if ok then old(currentOffset) - |bytes| else old(currentOffset)
      ensures Frame() == if ok then bytes + old(Frame()) else old(Frame())
    {
      hide Layout;
      var at := AllocateSpace(|bytes|);
      if at.None? {
        return false;
      }
      Overwrite(at.value, bytes);
      ok := true;
    }

    /** Overwrite the start of the frame. */
    method FillFront(bytes: seq<Byte>)
      requires Valid() && |bytes| <= |Frame()|
      modifies memory
      ensures Frame() == bytes + old(Frame())[|bytes|..]
    {
      Overwrite(data + currentOffset, bytes);
    }

    /** Put bytes behind the frame, in the tailroom. */
    method Append(bytes: seq<Byte>)
      requires Valid() && data + size + |bytes| <= memory.Length
      modifies `size, memory
      ensures Valid() && size == old(size) + |bytes| && Frame() == old(Frame()) + bytes
    {
      Overwrite(data + size, bytes);
      size := size + |bytes|;
    }

    /** A header over the start of the frame and a trailer behind it. */
    method Enclose(header: seq<Byte>, ghost body: seq<Byte>, trailer: seq<Byte>)
      requires Valid() && |header| <= |Frame()| && Frame()[|header|..] == body
      requires data + size + |trailer| <= memory.Length
      modifies `size, memory
      ensures Valid() && size == old(size) + |trailer| && Frame() == header + body + trailer
    {
      FillFront(header);
      Append(trailer);
    }

    /** The pieces of a header, each after the one before it. */
    method SerializeHeader(h: Header) returns (ok: bool)
      requires Valid()
      modifies `currentOffset, memory
      ensures Valid() && ok == (HeaderSize(h.frameControl).Some? && HeaderSize(h.frameControl).value <= old(currentOffset))
      ensures ok ==> currentOffset == old(currentOffset) - HeaderSize(h.frameControl).value
      ensures ok ==> Frame() == Serialized(h) + old(Frame())
      ensures !ok ==> currentOffset == old(currentOffset) && Frame() == old(Frame())
    {
      hide Layout, Serialized;
      var kind := FrameType(h.frameControl);
      if kind != TYPE_MANAGEMENT && kind != TYPE_DATA {
        return false;
      }
      if kind == TYPE_DATA && Subtype(h.frameControl) != SUBTYPE_DATA && Subtype(h.frameControl) != SUBTYPE_NULL_DATA {
        return false;
      }
      var headerSize := if kind == TYPE_DATA && FourAddresses(h.frameControl) then 30 else 24;
      var at := AllocateSpace(headerSize);
      if at.None? {
        return false;
      }
      WriteHeader(h, at.value, headerSize);
      ok := true;
    }

    method WriteHeader(h: Header, at: nat, headerSize: nat)
      requires HeaderSize(h.frameControl) == Some(headerSize) && at + headerSize <= memory.Length
      modifies memory
      ensures memory[..] == Layout(old(memory[..]), at, Serialized(h))
      ensures forall to :: at + headerSize <= to <= memory.Length ==> memory[at..to] == Serialized(h) + old(memory[at + headerSize..to])
    {
      hide Layout;
      ghost var was, w0 := memory[..], [];
      LayoutNothing(was, at);
      PutBytes(memory, at, Le16(h.frameControl), was, at, w0);
      ghost var w1 := w0 + Le16(h.frameControl);
      PutBytes(memory, at + 2, Le16(h.durationId), was, at, w1);
      ghost var w2 := w1 + Le16(h.durationId);
      PutBytes(memory, at + 4, h.address1, was, at, w2);
      ghost var w3 := w2 + h.address1;
      PutBytes(memory, at + 10, h.address2, was, at, w3);
      ghost var w4 := w3 + h.address2;
      PutBytes(memory, at + 16, h.address3, was, at, w4);
      ghost var w5 := w4 + h.address3;
      PutBytes(memory, at + 22, Le16(h.sequenceControl), was, at, w5);
      ghost var w6 := w5 + Le16(h.sequenceControl);
      if headerSize == 30 {
        PutBytes(memory, at + 24, h.address4, was, at, w6);
        assert w6 + h.address4 == Serialized(h);
      } else {
        assert w6 == Serialized(h);
      }
      forall to | at + headerSize <= to <= memory.Length
        ensures memory[at..to] == Serialized(h) + was[at + headerSize..to]
      {
        LayoutSlice(was, at, Serialized(h), to);
      }
    }
  }
}

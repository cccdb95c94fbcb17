/** The keys of a device: a list with one key at most for each identity, and their packet numbers. */
module KeyStores {
  import opened Bytes
  import opened Headers
  import opened LinkedLists
  import opened Michael
  import opened Options
  import opened PacketNumbers

  const SEQUENCE_SIZE: nat := 6
  const TKIP_KEY_SIZE: nat := 32
  const TKIP_TX_MIC_KEY_OFFSET: nat := 16
  const TKIP_RX_MIC_KEY_OFFSET: nat := 24

  const KEY_PAIRWISE: bv32 := 1
  const KEY_GROUP: bv32 := 2
  const KEY_RX: bv32 := 4
  const KEY_TX: bv32 := 8

  datatype Cipher = Ccmp | Tkip | Wep40 | Wep104

  datatype Status = Success | Unsupported | BadKey | NoMemory | DriverError(code: int)

  datatype Key = Key(
    cipher: Cipher, index: Byte, peer: MacAddress, flags: bv32, material: seq<Byte>, rx: seq<Byte>, tx: seq<Byte>)

  datatype TkipData = TkipData(
    header: Header, keyIndex: Byte, destination: MacAddress, source: MacAddress, priority: Byte, data: seq<Byte>)

  // ----- The store as a value -----

  predicate SameIdentity(k: Key, index: Byte, peer: MacAddress, flags: bv32) {
    k.index == index && k.flags == flags && k.peer == peer
  }

  /** Whether a key is for a frame with this header, sent by or received by `me`. */
  predicate Covers(flags: bv32, peer: MacAddress, me: MacAddress, h: Header) {
    var tx, group := h.address2 == me, IsGroup(h.address1);
    && flags & (if tx then KEY_TX else KEY_RX) != 0
    && flags & (if group then KEY_GROUP else KEY_PAIRWISE) != 0
    && (group || peer == if tx then h.address1 else h.address2)
  }

  predicate MatchesHeader(k: Key, me: MacAddress, h: Header) {
    Covers(k.flags, k.peer, me, h)
  }

  predicate MatchesAt(k: Key, me: MacAddress, h: Header, index: Byte) {
    k.index == index && MatchesHeader(k, me, h)
  }

  /** The first position at which p holds, or the length. */
  ghost function First(keys: seq<Key>, p: Key -> bool): (i: nat)
    ensures i <= |keys| && (i < |keys| ==> p(keys[i])) && forall j :: 0 <= j < i ==> !p(keys[j])
  {
    if keys == [] || p(keys[0]) then 0 else 1 + First(keys[1..], p)
  }

  lemma FirstIs(keys: seq<Key>, p: Key -> bool, i: nat)
    requires i <= |keys| && (i < |keys| ==> p(keys[i])) && forall j :: 0 <= j < i ==> !p(keys[j])
    ensures First(keys, p) == i
  {
  }

  ghost function Identified(keys: seq<Key>, index: Byte, peer: MacAddress, flags: bv32): (i: nat)
    ensures i <= |keys|
  {
    First(keys, k => SameIdentity(k, index, peer, flags))
  }

  ghost function Selected(keys: seq<Key>, me: MacAddress, h: Header): (i: nat)
    ensures i <= |keys|
  {
    First(keys, k => MatchesHeader(k, me, h))
  }

  ghost function SelectedAt(keys: seq<Key>, me: MacAddress, h: Header, index: Byte): (i: nat)
    ensures i <= |keys|
  {
    First(keys, k => MatchesAt(k, me, h, index))
  }

  ghost function Dropped(keys: seq<Key>, i: nat): seq<Key> {
    if i < |keys| then keys[..i] + keys[i + 1..] else keys
  }

  lemma DroppedNothing(keys: seq<Key>, i: nat)
    ensures i >= |keys| ==> Dropped(keys, i) == keys
  {
  }

  ghost function Deleted(keys: seq<Key>, index: Byte, peer: MacAddress, flags: bv32): seq<Key> {
    Dropped(keys, Identified(keys, index, peer, flags))
  }

  ghost function Installed(keys: seq<Key>, k: Key): seq<Key> {
    [k] + Deleted(keys, k.index, k.peer, k.flags)
  }

  ghost function FirstSequence(rxSeq: seq<Byte>): seq<Byte> {
    if |rxSeq| == SEQUENCE_SIZE then rxSeq else Zeros(SEQUENCE_SIZE)
  }

  ghost predicate Unique(keys: seq<Key>) {
    forall i, j :: 0 <= i < j < |keys| ==> !SameIdentity(keys[i], keys[j].index, keys[j].peer, keys[j].flags)
  }

  lemma InstalledIsUnique(keys: seq<Key>, k: Key)
    requires Unique(keys)
    ensures Unique(Installed(keys, k)) && Installed(keys, k)[0] == k
    ensures forall x :: x in Installed(keys, k) <==> x == k || (x in keys && (x.index != k.index || x.peer != k.peer || x.flags != k.flags))
  {
    DeletedIsUnique(keys, k.index, k.peer, k.flags);
    var rest := Deleted(keys, k.index, k.peer, k.flags);
    assert forall j :: 0 <= j < |rest| ==> rest[j] in rest;
  }

  lemma DeletedIsUnique(keys: seq<Key>, index: Byte, peer: MacAddress, flags: bv32)
    requires Unique(keys)
    ensures Unique(Deleted(keys, index, peer, flags))
    ensures forall x :: x in Deleted(keys, index, peer, flags) <==> x in keys && (x.index != index || x.peer != peer || x.flags != flags)
  {
    hide Unique;
    var i := Identified(keys, index, peer, flags);
    if i < |keys| {
      DroppedIsUnique(keys, i);
      OthersDiffer(keys, i);
      assert keys == keys[..i] + [keys[i]] + keys[i + 1..];
    }
  }

  lemma DroppedIsUnique(keys: seq<Key>, i: nat)
    requires Unique(keys) && i < |keys|
    ensures Unique(keys[..i] + keys[i + 1..])
  {
  }

  lemma OthersDiffer(keys: seq<Key>, i: nat)
    requires Unique(keys) && i < |keys|
    ensures forall x :: x in keys[..i] || x in keys[i + 1..] ==> !SameIdentity(x, keys[i].index, keys[i].peer, keys[i].flags)
  {
  }

  /** The station at the other end of a frame with this header. */
  function OtherEnd(me: MacAddress, h: Header): MacAddress {
    if h.address2 == me then h.address1 else h.address2
  }

  /** The key selected is for that direction and kind of frame, is the other end's own key unless the
      frame is for a group, and comes before any other that would do. */
  lemma SelectedKeyFits(keys: seq<Key>, me: MacAddress, h: Header, j: nat)
    requires j < |keys|
    ensures var i := Selected(keys, me, h);
      i < |keys| ==>
        (&& (h.address2 == me ==> keys[i].flags & KEY_TX != 0)
         && (h.address2 != me ==> keys[i].flags & KEY_RX != 0)
         && (h.address1[0] % 2 == 1 ==> keys[i].flags & KEY_GROUP != 0)
         && (h.address1[0] % 2 == 0 ==> keys[i].flags & KEY_PAIRWISE != 0 && keys[i].peer == OtherEnd(me, h)))
    ensures j < Selected(keys, me, h) ==>
      || (h.address2 == me && keys[j].flags & KEY_TX == 0) || (h.address2 != me && keys[j].flags & KEY_RX == 0)
      || (h.address1[0] % 2 == 1 && keys[j].flags & KEY_GROUP == 0)
      || (h.address1[0] % 2 == 0 && (keys[j].flags & KEY_PAIRWISE == 0 || keys[j].peer != OtherEnd(me, h)))
  {
  }

  /** The key selected by number has that number, and otherwise fits as the one selected without would;
      none before it does both. */
  lemma SelectedAtFits(keys: seq<Key>, me: MacAddress, h: Header, index: Byte, j: nat)
    requires j < |keys|
    ensures var i := SelectedAt(keys, me, h, index);
      && (i < |keys| ==> keys[i].index == index && Selected([keys[i]], me, h) == 0)
      && (j < i ==> keys[j].index != index || Selected([keys[j]], me, h) == 1)
  {
    hide Covers;
  }

  /** A received packet number is accepted only when it is newer than the last one. */
  ghost function AcceptRx(keys: seq<Key>, me: MacAddress, h: Header, index: Byte, cipher: Cipher, sequence: seq<Byte>): (seq<Key>, bool) {
    var i := SelectedAt(keys, me, h, index);
    if |sequence| == SEQUENCE_SIZE && i < |keys| && keys[i].cipher == cipher && LittleEndian(sequence) > LittleEndian(keys[i].rx) then
      (keys[i := keys[i].(rx := sequence)], true)
    else (keys, false)
  }

  ghost predicate TkipKey(k: Key) {
    k.cipher == Tkip && |k.material| == TKIP_KEY_SIZE
  }

  ghost function TkipMic(k: Key, offset: nat, d: TkipData): seq<Byte>
    requires |k.material| == TKIP_KEY_SIZE && offset + MIC_SIZE <= TKIP_KEY_SIZE
  {
    Mic(k.material[offset..offset + MIC_SIZE], d.destination, d.source, d.priority, d.data)
  }

  ghost function AcceptTkip(keys: seq<Key>, me: MacAddress, d: TkipData, sequence: seq<Byte>, mic: seq<Byte>): (seq<Key>, bool) {
    var i := SelectedAt(keys, me, d.header, d.keyIndex);
    if i < |keys| && TkipKey(keys[i]) && mic == TkipMic(keys[i], TKIP_RX_MIC_KEY_OFFSET, d) then
      AcceptRx(keys, me, d.header, d.keyIndex, Tkip, sequence)
    else (keys, false)
  }

  /** The next packet number, unless there is none. */
  ghost function Advanced(k: Key): Option<Key> {
    var n := LittleEndian(k.tx);
    if n < Power256(SEQUENCE_SIZE) - 1 then Some(k.(tx := LittleEndianBytes(n + 1, SEQUENCE_SIZE))) else None
  }

  ghost function NextTx(keys: seq<Key>, me: MacAddress, h: Header, index: Byte, cipher: Cipher): (seq<Key>, Option<seq<Byte>>) {
    var i := Selected(keys, me, h);
    if i < |keys| && keys[i].index == index && keys[i].cipher == cipher && Advanced(keys[i]).Some? then
      var k := Advanced(keys[i]).value;
      (keys[i := k], Some(k.tx))
    else (keys, None)
  }

  ghost function NextTkip(keys: seq<Key>, me: MacAddress, d: TkipData): (seq<Key>, Option<(seq<Byte>, seq<Byte>)>) {
    var i := SelectedAt(keys, me, d.header, d.keyIndex);
    if i < |keys| && TkipKey(keys[i]) && Advanced(keys[i]).Some? then
      var k := Advanced(keys[i]).value;
      (keys[i := k], Some((k.tx, TkipMic(k, TKIP_TX_MIC_KEY_OFFSET, d))))
    else (keys, None)
  }

  lemma PacketNumberSize(keys: seq<Key>, me: MacAddress, h: Header, index: Byte, cipher: Cipher, d: TkipData)
    ensures NextTx(keys, me, h, index, cipher).1.Some? ==> |NextTx(keys, me, h, index, cipher).1.value| == SEQUENCE_SIZE
    ensures NextTkip(keys, me, d).1.Some? ==>
      |NextTkip(keys, me, d).1.value.0| == SEQUENCE_SIZE && |NextTkip(keys, me, d).1.value.1| == MIC_SIZE
  {
    hide Mic;
  }

  lemma NumberLeft(k: Key)
    ensures Power256(SEQUENCE_SIZE) == 0x1_0000_0000_0000
    ensures LittleEndian(k.tx) < 0xffff_ffff_ffff <==> Advanced(k).Some?
    ensures Advanced(k).Some? ==>
      var k' := Advanced(k).value; |k'.tx| == 6 && LittleEndian(k'.tx) == LittleEndian(k.tx) + 1 && k' == k.(tx := k'.tx)
  {
    assert Power256(6) == 256 * Power256(5) && Power256(5) == 256 * Power256(4) && Power256(4) == 256 * Power256(3);
    assert Power256(3) == 256 * Power256(2) && Power256(2) == 256 * Power256(1) && Power256(1) == 256 * Power256(0);
    if Advanced(k).Some? { BytesBack(LittleEndian(k.tx) + 1, SEQUENCE_SIZE); }
  }

  /** A number is handed out exactly under the key selected, if it is the one asked for and has a number
      left; it is one more than the last, and that is all that changes. */
  lemma HandedOutExactly(keys: seq<Key>, me: MacAddress, h: Header, index: Byte, cipher: Cipher)
    ensures var i, (keys', n) := Selected(keys, me, h), NextTx(keys, me, h, index, cipher);
      && (n.Some? <==> i < |keys| && keys[i].index == index && keys[i].cipher == cipher && LittleEndian(keys[i].tx) < 0xffff_ffff_ffff)
      && (n.None? ==> keys' == keys)
      && (n.Some? ==> |n.value| == 6 && LittleEndian(n.value) == LittleEndian(keys[i].tx) + 1 && keys' == keys[i := keys[i].(tx := n.value)])
  {
    hide Selected, Advanced;
    var i := Selected(keys, me, h);
    if i < |keys| { NumberLeft(keys[i]); }
  }

  lemma TkipHandedOutExactly(keys: seq<Key>, me: MacAddress, d: TkipData, i: nat, r: (seq<Key>, Option<(seq<Byte>, seq<Byte>)>))
    requires i == SelectedAt(keys, me, d.header, d.keyIndex) && r == NextTkip(keys, me, d)
    ensures r.1.Some? <==> i < |keys| && keys[i].cipher == Tkip && |keys[i].material| == 32 && LittleEndian(keys[i].tx) < 0xffff_ffff_ffff
    ensures r.1.None? ==> r.0 == keys
    ensures r.1.Some? && i < |keys| && |keys[i].material| == 32 ==>
      var (n, mic) := r.1.value;
      && |n| == 6 && LittleEndian(n) == LittleEndian(keys[i].tx) + 1 && r.0 == keys[i := keys[i].(tx := n)]
      && mic == TkipMic(keys[i], 16, d)
  {
    hide SelectedAt, Advanced, Mic;
    if i < |keys| { NumberLeft(keys[i]); }
  }

  lemma TkipMicIs(k: Key, offset: nat, d: TkipData, key: seq<Byte>)
    requires |k.material| == 32 && offset + 8 <= 32 && key == k.material[offset..offset + 8]
    ensures TkipMic(k, offset, d) == Mic(key, d.destination, d.source, d.priority, d.data)
  {
    hide Mic;
  }

  /** A received number is accepted exactly under a key selected by its index, of the same cipher, when
      it is newer; then it is the one remembered, and that is all that changes.  Under TKIP the code
      must be right as well. */
  lemma AcceptedExactly(keys: seq<Key>, me: MacAddress, h: Header, index: Byte, cipher: Cipher, sequence: seq<Byte>)
    ensures var i, (keys', ok) := SelectedAt(keys, me, h, index), AcceptRx(keys, me, h, index, cipher, sequence);
      && (ok <==> |sequence| == 6 && i < |keys| && keys[i].cipher == cipher && LittleEndian(sequence) > LittleEndian(keys[i].rx))
      && keys' == if ok then keys[i := keys[i].(rx := sequence)] else keys
  {
    hide SelectedAt, LittleEndian;
  }

  lemma TkipAcceptedExactly(keys: seq<Key>, me: MacAddress, d: TkipData, sequence: seq<Byte>, mic: seq<Byte>)
    ensures var i, (keys', ok) := SelectedAt(keys, me, d.header, d.keyIndex), AcceptTkip(keys, me, d, sequence, mic);
      && ok == (
        && i < |keys| && keys[i].cipher == Tkip && |keys[i].material| == 32 && |sequence| == 6
        && LittleEndian(sequence) > LittleEndian(keys[i].rx)
        && mic == Mic(keys[i].material[24..32], d.destination, d.source, d.priority, d.data))
      && keys' == if ok then keys[i := keys[i].(rx := sequence)] else keys
  {
    hide SelectedAt, LittleEndian, Mic;
  }

  // ----- The list -----

  class KeyMetadata {
    const node: ListNode
    const cipher: Cipher
    const index: Byte
    const peer: MacAddress
    const flags: bv32
    const rxSequence: array<Byte>
    const txSequence: array<Byte>
    const material: seq<Byte>

    constructor (cipher: Cipher, index: Byte, peer: MacAddress, flags: bv32, material: seq<Byte>, rxSeq: seq<Byte>)
      ensures rxSequence.Length == txSequence.Length == SEQUENCE_SIZE && rxSequence != txSequence
      ensures fresh(node) && fresh(rxSequence) && fresh(txSequence)
      ensures Value() == Key(cipher, index, peer, flags, material, FirstSequence(rxSeq), Zeros(SEQUENCE_SIZE))
    {
      this.cipher, this.index, this.peer, this.flags, this.material := cipher, index, peer, flags, material;
      node := new ListNode();
      rxSequence := new Byte[SEQUENCE_SIZE](_ => 0);
      txSequence := new Byte[SEQUENCE_SIZE](_ => 0);
      new;
      if |rxSeq| == SEQUENCE_SIZE {
        CopyTo(rxSequence, rxSeq);
      }
      assert rxSequence[..] == FirstSequence(rxSeq) && txSequence[..] == Zeros(SEQUENCE_SIZE);
    }

    ghost function Value(): Key
      reads rxSequence, txSequence
    {
      Key(cipher, index, peer, flags, material, rxSequence[..], txSequence[..])
    }
  }

  method CopyTo(target: array<Byte>, source: seq<Byte>)
    requires target.Length == |source|
    modifies target
    ensures target[..] == source
  {
    for i := 0 to |source|
      invariant target[..i] == source[..i]
    {
      target[i] := source[i];
    }
    assert target[..] == target[..|source|];
  }

  ghost function RxSequences(keys: seq<KeyMetadata>): set<array<Byte>> {
    set k | k in keys :: k.rxSequence
  }

  ghost function TxSequences(keys: seq<KeyMetadata>): set<array<Byte>> {
    set k | k in keys :: k.txSequence
  }

  ghost function Values(keys: seq<KeyMetadata>): (s: seq<Key>)
    reads RxSequences(keys), TxSequences(keys)
    ensures |s| == |keys| && forall i :: 0 <= i < |keys| ==> s[i] == keys[i].Value()
  {
    seq(|keys|, i requires 0 <= i < |keys| reads RxSequences(keys), TxSequences(keys) => keys[i].Value())
  }

  /** Each list node leads to its key, and no two keys share a counter. */
  ghost predicate Linked(nodes: seq<ListNode>, keys: seq<KeyMetadata>, container: map<ListNode, KeyMetadata>) {
    && |keys| == |nodes|
    && (forall i :: 0 <= i < |keys| ==> nodes[i] in container && container[nodes[i]] == keys[i] && keys[i].node == nodes[i])
    && (forall i :: 0 <= i < |keys| ==> keys[i].rxSequence != keys[i].txSequence)
    && (forall i :: 0 <= i < |keys| ==> keys[i].rxSequence.Length == keys[i].txSequence.Length == SEQUENCE_SIZE)
    && (forall i, j :: 0 <= i < |keys| && 0 <= j < |keys| && i != j ==>
      keys[i].rxSequence != keys[j].rxSequence && keys[i].txSequence != keys[j].txSequence
      && keys[i].rxSequence != keys[j].txSequence)
  }

  lemma LinkedWithout(nodes: seq<ListNode>, keys: seq<KeyMetadata>, container: map<ListNode, KeyMetadata>, i: nat)
    requires Linked(nodes, keys, container) && i < |keys|
    ensures Linked(nodes[..i] + nodes[i + 1..], keys[..i] + keys[i + 1..], container)
  {
    var nodes', keys' := nodes[..i] + nodes[i + 1..], keys[..i] + keys[i + 1..];
    assert forall j :: 0 <= j < |keys'| ==>
      var j' := if j < i then j else j + 1; keys'[j] == keys[j'] && nodes'[j] == nodes[j'];
  }

  lemma ValuesWithout(keys: seq<KeyMetadata>, i: nat)
    requires i < |keys|
    ensures Values(keys[..i] + keys[i + 1..]) == Dropped(Values(keys), i)
  {
  }

  lemma LinkedPush(nodes: seq<ListNode>, keys: seq<KeyMetadata>, container: map<ListNode, KeyMetadata>, k: KeyMetadata)
    requires Linked(nodes, keys, container) && k.node !in nodes && k.rxSequence != k.txSequence
    requires k.rxSequence.Length == k.txSequence.Length == SEQUENCE_SIZE
    requires {k.rxSequence, k.txSequence} !! RxSequences(keys) + TxSequences(keys)
    ensures Linked([k.node] + nodes, [k] + keys, container[k.node := k])
  {
    forall i | 0 <= i < |keys|
      ensures keys[i].rxSequence !in {k.rxSequence, k.txSequence} && keys[i].txSequence !in {k.rxSequence, k.txSequence}
    {
      assert keys[i] in keys && keys[i].rxSequence in RxSequences(keys) && keys[i].txSequence in TxSequences(keys);
    }
  }

  lemma ValuesPush(keys: seq<KeyMetadata>, k: KeyMetadata)
    ensures Values([k] + keys) == [k.Value()] + Values(keys)
  {
  }

  class KeyStore {
    const me: MacAddress
    const list: List
    var container: map<ListNode, KeyMetadata>   // container_of
    ghost var keys: seq<KeyMetadata>            // in list order

    ghost predicate Valid()
      reads this, list, list.nodes
    {
      list.Valid() && Linked(list.nodes, keys, container)
    }

    /** The store as a value. */
    ghost function Snapshot(): (s: seq<Key>)
      reads this, RxSequences(keys), TxSequences(keys)
      ensures |s| == |keys|
    {
      Values(keys)
    }

    constructor (me: MacAddress)
      ensures Valid() && fresh(list) && Snapshot() == [] && this.me == me
    {
      this.me := me;
      list := new List();
      container := map[];
      keys := [];
    }

    /** The list walk shared by set and delete. */
    method FindIdentity(index: Byte, peer: MacAddress, flags: bv32) returns (node: ListNode?, ghost i: nat)
      requires Valid()
      ensures i == Identified(Snapshot(), index, peer, flags) && |keys| == |list.nodes|
      ensures node == if i < |keys| then list.nodes[i] else null
    {
      node, i := list.head, 0;
      while node != null
        invariant i <= |keys| && node == if i < |keys| then list.nodes[i] else null
        invariant forall j :: 0 <= j < i ==> !SameIdentity(Snapshot()[j], index, peer, flags)
        decreases |keys| - i
      {
        var candidate := container[node];
        if candidate.index == index && candidate.flags == flags && candidate.peer == peer {
          break;
        }
        node := node.next;
        i := i + 1;
      }
      FirstIs(Snapshot(), k => SameIdentity(k, index, peer, flags), i);
    }

    method SelectKey(h: Header) returns (metadata: KeyMetadata?, ghost i: nat)
      requires Valid()
      ensures i == Selected(Snapshot(), me, h)
      ensures var first := Selected(Snapshot(), me, h); metadata == if first < |keys| then keys[first] else null
    {
      hide Covers;
      var node := list.head;
      i := 0;
      while node != null
        invariant i <= |keys| && node == if i < |keys| then list.nodes[i] else null
        invariant forall j :: 0 <= j < i ==> !MatchesHeader(Snapshot()[j], me, h)
        decreases |keys| - i
      {
        metadata := container[node];
        assert Snapshot()[i] == metadata.Value();
        if Covers(metadata.flags, metadata.peer, me, h) {
          FirstIs(Snapshot(), k => MatchesHeader(k, me, h), i);
          return;
        }
        node := node.next;
        i := i + 1;
      }
      metadata := null;
      FirstIs(Snapshot(), k => MatchesHeader(k, me, h), i);
    }

    method SelectKeyByIndex(h: Header, index: Byte) returns (metadata: KeyMetadata?, ghost i: nat)
      requires Valid()
      ensures i == SelectedAt(Snapshot(), me, h, index)
      ensures var first := SelectedAt(Snapshot(), me, h, index); metadata == if first < |keys| then keys[first] else null
    {
      hide Covers;
      var node := list.head;
      i := 0;
      while node != null
        invariant i <= |keys| && node == if i < |keys| then list.nodes[i] else null
        invariant forall j :: 0 <= j < i ==> !MatchesAt(Snapshot()[j], me, h, index)
        decreases |keys| - i
      {
        metadata := container[node];
        assert Snapshot()[i] == metadata.Value();
        if metadata.index == index && Covers(metadata.flags, metadata.peer, me, h) {
          FirstIs(Snapshot(), k => MatchesAt(k, me, h, index), i);
          return;
        }
        node := node.next;
        i := i + 1;
      }
      metadata := null;
      FirstIs(Snapshot(), k => MatchesAt(k, me, h, index), i);
    }

    method SelectKeyIndex(h: Header) returns (index: int)
      requires Valid()
      ensures var i := Selected(Snapshot(), me, h); index == if i < |Snapshot()| then Snapshot()[i].index as int else -1
    {
      hide Linked, Selected, List.Valid;
      var metadata, i := SelectKey(h);
      assert metadata != null ==> metadata.Value() == Snapshot()[i];
      index := if metadata == null then -1 else metadata.index as int;
    }

    method SelectCipherByIndex(h: Header, index: Byte) returns (cipher: Option<Cipher>)
      requires Valid()
      ensures var i := SelectedAt(Snapshot(), me, h, index); cipher == if i < |Snapshot()| then Some(Snapshot()[i].cipher) else None
    {
      hide Linked, SelectedAt, List.Valid;
      var metadata, i := SelectKeyByIndex(h, index);
      assert metadata != null ==> metadata.Value() == Snapshot()[i];
      cipher := if metadata == null then None else Some(metadata.cipher);
    }

    /** Unlink the key at a position. */
    method Unlink(node: ListNode, ghost i: nat)
      requires Valid() && i < |keys| == |list.nodes| && list.nodes[i] == node
      modifies this, list, list.nodes
      ensures Valid() && Snapshot() == Dropped(old(Snapshot()), i) && keys == old(keys)[..i] + old(keys)[i + 1..]
      ensures list.nodes == old(list.nodes)[..i] + old(list.nodes)[i + 1..]
    {
      hide Linked, Dropped, List.Valid, Values;
      LinkedWithout(list.nodes, keys, container, i);
      ValuesWithout(keys, i);
      list.Remove(node, i);
      keys := keys[..i] + keys[i + 1..];
    }

    method Push(k: KeyMetadata)
      requires Valid() && k.node !in list.nodes && k.rxSequence != k.txSequence
      requires k.rxSequence.Length == k.txSequence.Length == SEQUENCE_SIZE
      requires {k.rxSequence, k.txSequence} !! RxSequences(keys) + TxSequences(keys)
      modifies this, list, list.nodes, k.node
      ensures Valid() && keys == [k] + old(keys) && Snapshot() == [k.Value()] + old(Snapshot())
    {
      hide Linked, List.Valid, Values, RxSequences, TxSequences;
      LinkedPush(list.nodes, keys, container, k);
      ValuesPush(keys, k);
      ghost var all := [k] + keys;
      list.PushFront(k.node);
      assert Values(all) == [k.Value()] + old(Snapshot());
      container := container[k.node := k];
      keys := [k] + keys;
    }

    /** Take the key with this identity, if there is one, off the list. */
    method Displace(index: Byte, peer: MacAddress, flags: bv32)
      requires Valid()
      modifies this, list, list.nodes
      ensures Valid() && Snapshot() == Deleted(old(Snapshot()), index, peer, flags)
      ensures (forall i :: 0 <= i < |list.nodes| ==> list.nodes[i] in old(list.nodes)) && (forall k :: k in keys ==> k in old(keys))
    {
      hide Linked, Identified, Dropped, List.Valid, Values;
      ghost var s := Snapshot();
      var node, i := FindIdentity(index, peer, flags);
      assert Snapshot() == s && i == Identified(s, index, peer, flags);
      DroppedNothing(s, i);
      if node != null {
        Unlink(node, i);
      }
    }

    /** The key bytes may be left out where their number is zero; `largest` is the greatest number that
        an allocation has room for beside the rest of the key. */
    method SetKey(cipher: Cipher, index: Byte, peer: MacAddress, flags: bv32, bytes: Option<seq<Byte>>, size: nat, rxSeq: seq<Byte>,
                  supported: bool, largest: nat, memory: bool, driver: int) returns (status: Status)
      requires Valid() && (bytes.Some? ==> |bytes.value| == size)
      modifies this, list, list.nodes
      ensures Valid() && status ==
        (if !supported then Unsupported else if (bytes.None? && size != 0) || size > largest then BadKey
         else if !memory then NoMemory else if driver != 0 then DriverError(driver) else Success)
      ensures Snapshot() ==
        if status.Success? then
          Installed(old(Snapshot()), Key(cipher, index, peer, flags, MaterialOf(bytes), FirstSequence(rxSeq), Zeros(SEQUENCE_SIZE)))
        else old(Snapshot())
      ensures status.Success? ==> Snapshot() != []
      ensures status.Success? ==>
        var material, rx := if bytes.Some? then bytes.value else [], if |rxSeq| == 6 then rxSeq else [0, 0, 0, 0, 0, 0];
        Snapshot()[0] == Key(cipher, index, peer, flags, material, rx, [0, 0, 0, 0, 0, 0])
    {
      hide Linked, Deleted, List.Valid, Values;
      if !supported {
        return Unsupported;
      }
      if (bytes.None? && size != 0) || size > largest {
        return BadKey;
      }
      if !memory {
        return NoMemory;
      }
      var material := MaterialOf(bytes);
      ghost var s := Snapshot();
      var metadata := new KeyMetadata(cipher, index, peer, flags, material, rxSeq);
      if driver != 0 {
        return DriverError(driver);
      }
      assert Snapshot() == s;
      Install(metadata);
      return Success;
    }

    /** Put a new key in front, in place of the one with its identity. */
    method Install(k: KeyMetadata)
      requires Valid() && k.node !in list.nodes && k.rxSequence != k.txSequence
      requires k.rxSequence.Length == k.txSequence.Length == SEQUENCE_SIZE
      requires {k.rxSequence, k.txSequence} !! RxSequences(keys) + TxSequences(keys)
      modifies this, list, list.nodes, k.node
      ensures Valid() && Snapshot() == Installed(old(Snapshot()), k.Value())
    {
      hide Linked, Deleted, List.Valid, Values;
      ghost var nodes := list.nodes;
      Displace(k.index, k.peer, k.flags);
      assert forall i :: 0 <= i < |list.nodes| ==> list.nodes[i] in nodes;
      Push(k);
    }

    /** No bytes where the key has none. */
    static function MaterialOf(bytes: Option<seq<Byte>>): seq<Byte> {
      if bytes.Some? then bytes.value else []
    }

    method DelKey(index: Byte, peer: MacAddress, flags: bv32, supported: bool, driver: int) returns (status: Status)
      requires Valid()
      modifies this, list, list.nodes
      ensures Valid() && status == (if !supported then Unsupported else if driver != 0 then DriverError(driver) else Success)
      ensures Snapshot() == if status.Success? then Deleted(old(Snapshot()), index, peer, flags) else old(Snapshot())
    {
      if !supported {
        return Unsupported;
      }
      if driver != 0 {
        return DriverError(driver);
      }
      Displace(index, peer, flags);
      return Success;
    }

    method StoreRx(k: KeyMetadata, ghost i: nat, sequence: seq<Byte>)
      requires Valid() && i < |keys| && keys[i] == k && |sequence| == SEQUENCE_SIZE
      modifies RxSequences(keys)
      ensures Valid() && Snapshot() == old(Snapshot())[i := old(Snapshot())[i].(rx := sequence)]
    {
      CopyTo(k.rxSequence, sequence);
    }

    method StoreTx(k: KeyMetadata, ghost i: nat, sequence: seq<Byte>)
      requires Valid() && i < |keys| && keys[i] == k && |sequence| == SEQUENCE_SIZE
      modifies TxSequences(keys)
      ensures Valid() && Snapshot() == old(Snapshot())[i := old(Snapshot())[i].(tx := sequence)]
    {
      CopyTo(k.txSequence, sequence);
    }

    /** Record a received packet number if it is newer. */
    lemma CounterSize(i: nat)
      requires Valid() && i < |keys|
      ensures keys[i].rxSequence.Length == SEQUENCE_SIZE && keys[i].rxSequence[..] == Snapshot()[i].rx
    {
    }

    method Newer(k: KeyMetadata, ghost i: nat, sequence: seq<Byte>) returns (valid: bool)
      requires Valid() && i < |keys| && keys[i] == k && |sequence| == SEQUENCE_SIZE
      modifies RxSequences(keys)
      ensures Valid() && valid == (LittleEndian(sequence) > LittleEndian(old(Snapshot())[i].rx))
      ensures Snapshot() == if valid then old(Snapshot())[i := old(Snapshot())[i].(rx := sequence)] else old(Snapshot())
    {
      hide Linked, List.Valid;
      CounterSize(i);
      valid := SequenceIsNewer(sequence, k.rxSequence[..]);
      if valid {
        StoreRx(k, i, sequence);
      }
    }

    method UpdateRxSequence(h: Header, index: Byte, cipher: Cipher, sequence: seq<Byte>) returns (valid: bool)
      requires Valid()
      modifies RxSequences(keys)
      ensures Valid() && (Snapshot(), valid) == AcceptRx(old(Snapshot()), me, h, index, cipher, sequence)
    {
      hide Linked, SelectedAt, List.Valid;
      if |sequence| != SEQUENCE_SIZE {
        return false;
      }
      ghost var s := Snapshot();
      var metadata, i := SelectKeyByIndex(h, index);
      assert Snapshot() == s && (metadata != null ==> metadata.cipher == s[i].cipher);
      if metadata == null || metadata.cipher != cipher {
        return false;
      }
      valid := Newer(metadata, i, sequence);
    }

    method ValidateTkipRx(d: TkipData, sequence: seq<Byte>, mic: seq<Byte>) returns (valid: bool)
      requires Valid() && |sequence| == SEQUENCE_SIZE && |mic| == MIC_SIZE
      modifies RxSequences(keys)
      ensures Valid() && (Snapshot(), valid) == AcceptTkip(old(Snapshot()), me, d, sequence, mic)
    {
      hide Linked, SelectedAt, List.Valid, Mic;
      ghost var s := Snapshot();
      var metadata, i := SelectKeyByIndex(d.header, d.keyIndex);
      assert Snapshot() == s && (metadata != null ==> metadata.Value() == s[i]);
      if metadata == null || metadata.cipher != Tkip || |metadata.material| != TKIP_KEY_SIZE {
        return false;
      }
      var newer := SequenceIsNewer(sequence, RxSequence(metadata, i));
      assert Snapshot() == s && metadata.Value() == s[i];
      if !newer {
        return false;
      }
      var calculated := MichaelMic(metadata.material[TKIP_RX_MIC_KEY_OFFSET..TKIP_RX_MIC_KEY_OFFSET + MIC_SIZE],
                                   d.destination, d.source, d.priority, d.data);
      valid := MicEqual(calculated, mic);
      assert Snapshot() == s && mic == TkipMic(s[i], TKIP_RX_MIC_KEY_OFFSET, d) <==> valid;
      if valid {
        StoreRx(metadata, i, sequence);
      }
    }

    function RxSequence(k: KeyMetadata, ghost i: nat): (s: seq<Byte>)
      requires Valid() && i < |keys| && keys[i] == k
      reads this, list, list.nodes, k.rxSequence
      ensures |s| == SEQUENCE_SIZE && s == k.rxSequence[..]
    {
      k.rxSequence[..]
    }

    /** Increment a counter in place. */
    method Increment(k: KeyMetadata, ghost i: nat) returns (ok: bool)
      requires Valid() && i < |keys| && keys[i] == k
      modifies TxSequences(keys)
      ensures Valid() && ok == Advanced(old(Snapshot())[i]).Some?
      ensures Snapshot() == if ok then old(Snapshot())[i := Advanced(old(Snapshot())[i]).value] else old(Snapshot())
    {
      ghost var was := k.txSequence[..];
      ok := IncrementSequence(k.txSequence);
      BytesOf(k.txSequence[..]);
    }

    method NextTxSequence(h: Header, index: Byte, cipher: Cipher) returns (sequence: Option<seq<Byte>>)
      requires Valid()
      modifies TxSequences(keys)
      ensures Valid() && (Snapshot(), sequence) == NextTx(old(Snapshot()), me, h, index, cipher)
    {
      hide Linked, Selected, List.Valid, Advanced;
      ghost var s := Snapshot();
      var metadata, i := SelectKey(h);
      assert Snapshot() == s && (metadata != null ==> metadata.Value() == s[i]);
      if metadata == null || metadata.index != index || metadata.cipher != cipher {
        return None;
      }
      var ok := Increment(metadata, i);
      if !ok {
        return None;
      }
      assert metadata.Value() == Snapshot()[i];
      sequence := Some(metadata.txSequence[..]);
    }

    /** Increment a copy of a counter. */
    method Incremented(k: KeyMetadata, ghost i: nat) returns (sequence: Option<seq<Byte>>)
      requires Valid() && i < |keys| && keys[i] == k
      ensures sequence == if Advanced(Snapshot()[i]).Some? then Some(Advanced(Snapshot()[i]).value.tx) else None
    {
      var copy := new Byte[SEQUENCE_SIZE](_ => 0);
      CopyTo(copy, k.txSequence[..]);
      var ok := IncrementSequence(copy);
      if !ok {
        return None;
      }
      BytesOf(copy[..]);
      sequence := Some(copy[..]);
    }

    method PrepareTkipTx(d: TkipData) returns (prepared: Option<(seq<Byte>, seq<Byte>)>)
      requires Valid()
      modifies TxSequences(keys)
      ensures Valid() && (Snapshot(), prepared) == NextTkip(old(Snapshot()), me, d)
    {
      hide Linked, SelectedAt, List.Valid, Mic;
      ghost var s := Snapshot();
      var metadata, i := SelectKeyByIndex(d.header, d.keyIndex);
      assert Snapshot() == s && (metadata != null ==> metadata.Value() == s[i]);
      if metadata == null || metadata.cipher != Tkip || |metadata.material| != TKIP_KEY_SIZE {
        return None;
      }
      var sequence := Incremented(metadata, i);
      assert Snapshot() == s && metadata.Value() == s[i];
      if sequence.None? {
        return None;
      }
      var mic := MichaelMic(metadata.material[TKIP_TX_MIC_KEY_OFFSET..TKIP_TX_MIC_KEY_OFFSET + MIC_SIZE],
                            d.destination, d.source, d.priority, d.data);
      assert Snapshot() == s && mic == TkipMic(s[i], TKIP_TX_MIC_KEY_OFFSET, d);
      StoreTx(metadata, i, sequence.value);
      prepared := Some((sequence.value, mic));
    }
  }
}

/** Whole runs of the key store: what the packet numbers of each installed key go through. */
module KeyRuns {
  import opened Bytes
  import opened Headers
  import opened KeyStores
  import opened Options

  /** A key from the moment it is set, with the receive counter the caller gave for it, and the numbers
      accepted and handed out under it. */
  datatype Installation = Installation(key: Key, given: seq<Byte>, accepted: seq<nat>, sent: seq<nat>) {
    /** Where the receive counter starts: as given, if what was given is a counter. */
    ghost function First(): nat {
      if |given| == 6 then LittleEndian(given) else 0
    }
  }

  datatype World = World(me: MacAddress, live: seq<Installation>, retired: seq<Installation>)

  datatype Event =
    | Set(cipher: Cipher, index: Byte, peer: MacAddress, flags: bv32, material: seq<Byte>, rxSeq: seq<Byte>)
    | Delete(index: Byte, peer: MacAddress, flags: bv32)
    | Receive(header: Header, index: Byte, cipher: Cipher, sequence: seq<Byte>)
    | ReceiveTkip(data: TkipData, sequence: seq<Byte>, mic: seq<Byte>)
    | Send(header: Header, index: Byte, cipher: Cipher)
    | SendTkip(data: TkipData)

  ghost function Keys(live: seq<Installation>): (keys: seq<Key>)
    ensures |keys| == |live| && forall i :: 0 <= i < |live| ==> keys[i] == live[i].key
  {
    seq(|live|, i requires 0 <= i < |live| => live[i].key)
  }

  /** Take the installation at a position, if there is one, off the list. */
  ghost function Retire(w: World, i: nat): World {
    if i < |w.live| then w.(live := w.live[..i] + w.live[i + 1..], retired := w.retired + [w.live[i]]) else w
  }

  ghost function Accepted(w: World, i: nat, r: (seq<Key>, bool), sequence: seq<Byte>): World {
    if r.1 && i < |w.live| && i < |r.0| then
      w.(live := w.live[i := w.live[i].(key := r.0[i], accepted := w.live[i].accepted + [LittleEndian(sequence)])])
    else w
  }

  ghost function Sent(w: World, i: nat, keys: seq<Key>, sequence: Option<seq<Byte>>): World {
    if sequence.Some? && i < |w.live| && i < |keys| then
      w.(live := w.live[i := w.live[i].(key := keys[i], sent := w.live[i].sent + [LittleEndian(sequence.value)])])
    else w
  }

  ghost function Step(w: World, e: Event): World {
    var keys := Keys(w.live);
    match e
    case Set(cipher, index, peer, flags, material, rxSeq) =>
      var k := Key(cipher, index, peer, flags, material, FirstSequence(rxSeq), Zeros(SEQUENCE_SIZE));
      var w' := Retire(w, Identified(keys, index, peer, flags));
      w'.(live := [Installation(k, rxSeq, [], [])] + w'.live)
    case Delete(index, peer, flags) => Retire(w, Identified(keys, index, peer, flags))
    case Receive(h, index, cipher, sequence) =>
      Accepted(w, SelectedAt(keys, w.me, h, index), AcceptRx(keys, w.me, h, index, cipher, sequence), sequence)
    case ReceiveTkip(d, sequence, mic) =>
      Accepted(w, SelectedAt(keys, w.me, d.header, d.keyIndex), AcceptTkip(keys, w.me, d, sequence, mic), sequence)
    case Send(h, index, cipher) =>
      var (keys', sequence) := NextTx(keys, w.me, h, index, cipher);
      Sent(w, Selected(keys, w.me, h), keys', sequence)
    case SendTkip(d) =>
      var (keys', prepared) := NextTkip(keys, w.me, d);
      Sent(w, SelectedAt(keys, w.me, d.header, d.keyIndex), keys', if prepared.Some? then Some(prepared.value.0) else None)
  }

  /** The store after an event, by the functions that specify its methods. */
  ghost function StoreAfter(keys: seq<Key>, me: MacAddress, e: Event): seq<Key> {
    match e
    case Set(cipher, index, peer, flags, material, rxSeq) =>
      Installed(keys, Key(cipher, index, peer, flags, material, FirstSequence(rxSeq), Zeros(SEQUENCE_SIZE)))
    case Delete(index, peer, flags) => Deleted(keys, index, peer, flags)
    case Receive(h, index, cipher, sequence) => AcceptRx(keys, me, h, index, cipher, sequence).0
    case ReceiveTkip(d, sequence, mic) => AcceptTkip(keys, me, d, sequence, mic).0
    case Send(h, index, cipher) => NextTx(keys, me, h, index, cipher).0
    case SendTkip(d) => NextTkip(keys, me, d).0
  }

  lemma RetireIsDropped(w: World, i: nat)
    ensures Keys(Retire(w, i).live) == Dropped(Keys(w.live), i)
  {
  }

  /** The histories are about the store itself: an installation holds the very key the store holds. */
  lemma StepIsStore(w: World, e: Event)
    ensures Keys(Step(w, e).live) == StoreAfter(Keys(w.live), w.me, e)
  {
    hide Identified, Selected, SelectedAt, TkipMic, Advanced;
    match e
    case Set(_, index, peer, flags, _, _) => RetireIsDropped(w, Identified(Keys(w.live), index, peer, flags));
    case Delete(index, peer, flags) => RetireIsDropped(w, Identified(Keys(w.live), index, peer, flags));
    case _ =>
  }

  // ----- What every step keeps -----

  ghost predicate Ascending(s: seq<nat>) {
    forall i, j :: 0 <= i < j < |s| ==> s[i] < s[j]
  }

  /** The accepted numbers ascend, from above the first; the sent ones are 1, 2, 3 and so on; none
      reaches the end of the counter. */
  ghost predicate Disciplined(x: Installation) {
    && |x.key.rx| == SEQUENCE_SIZE && |x.key.tx| == SEQUENCE_SIZE
    && Ascending([x.First()] + x.accepted)
    && LittleEndian(x.key.rx) == ([x.First()] + x.accepted)[|x.accepted|]
    && |x.sent| == LittleEndian(x.key.tx)
    && forall i :: 0 <= i < |x.sent| ==> x.sent[i] == i + 1
  }

  ghost predicate Inv(w: World) {
    && (forall i :: 0 <= i < |w.live| ==> Disciplined(w.live[i]))
    && (forall i :: 0 <= i < |w.retired| ==> Disciplined(w.retired[i]))
    && Unique(Keys(w.live))
  }

  lemma AcceptingIsDisciplined(x: Installation, sequence: seq<Byte>)
    requires Disciplined(x) && |sequence| == SEQUENCE_SIZE && LittleEndian(sequence) > LittleEndian(x.key.rx)
    ensures Disciplined(x.(key := x.key.(rx := sequence), accepted := x.accepted + [LittleEndian(sequence)]))
  {
    var n := LittleEndian(sequence);
    var was, now := [x.First()] + x.accepted, [x.First()] + (x.accepted + [n]);
    assert now == was + [n];
    forall i, j | 0 <= i < j < |now|
      ensures now[i] < now[j]
    {
      assert i < |was| - 1 ==> was[i] < was[|was| - 1];
    }
  }

  lemma SendingIsDisciplined(x: Installation)
    requires Disciplined(x) && Advanced(x.key).Some?
    ensures var k := Advanced(x.key).value; Disciplined(x.(key := k, sent := x.sent + [LittleEndian(k.tx)]))
  {
    BytesBack(LittleEndian(x.key.tx) + 1, SEQUENCE_SIZE);
  }

  lemma SettingIsDisciplined(k: Key, rxSeq: seq<Byte>)
    requires k.rx == FirstSequence(rxSeq) && k.tx == Zeros(SEQUENCE_SIZE)
    ensures Disciplined(Installation(k, rxSeq, [], []))
  {
    assert LittleEndian(Zeros(SEQUENCE_SIZE)) == 0 by {
      assert Zeros(6)[1..] == Zeros(5) && Zeros(5)[1..] == Zeros(4) && Zeros(4)[1..] == Zeros(3);
      assert Zeros(3)[1..] == Zeros(2) && Zeros(2)[1..] == Zeros(1) && Zeros(1)[1..] == Zeros(0);
    }
  }

  lemma OneChanged(w: World, i: nat, x: Installation)
    requires Inv(w) && i < |w.live| && Disciplined(x)
    requires x.key == w.live[i].key.(rx := x.key.rx, tx := x.key.tx)
    ensures Inv(w.(live := w.live[i := x]))
  {
  }

  lemma RetireKeeps(w: World, index: Byte, peer: MacAddress, flags: bv32)
    requires Inv(w)
    ensures Inv(Retire(w, Identified(Keys(w.live), index, peer, flags)))
  {
    hide Disciplined, Unique, Identified;
    RetireIsDropped(w, Identified(Keys(w.live), index, peer, flags));
    DeletedIsUnique(Keys(w.live), index, peer, flags);
  }

  lemma SetKeeps(w: World, e: Event)
    requires Inv(w) && e.Set?
    ensures Inv(Step(w, e))
  {
    var k := Key(e.cipher, e.index, e.peer, e.flags, e.material, FirstSequence(e.rxSeq), Zeros(SEQUENCE_SIZE));
    RetireKeeps(w, e.index, e.peer, e.flags);
    SettingIsDisciplined(k, e.rxSeq);
    InstalledIsUnique(Keys(w.live), k);
    StepIsStore(w, e);
  }

  lemma AcceptedKeeps(w: World, i: nat, r: (seq<Key>, bool), sequence: seq<Byte>)
    requires Inv(w)
    requires r.1 ==> i < |w.live| && |sequence| == SEQUENCE_SIZE && LittleEndian(sequence) > LittleEndian(w.live[i].key.rx)
    requires r.1 ==> r.0 == Keys(w.live)[i := w.live[i].key.(rx := sequence)]
    ensures Inv(Accepted(w, i, r, sequence))
  {
    if r.1 {
      AcceptingIsDisciplined(w.live[i], sequence);
      OneChanged(w, i, Accepted(w, i, r, sequence).live[i]);
    }
  }

  lemma SentKeeps(w: World, i: nat, keys: seq<Key>, sequence: Option<seq<Byte>>)
    requires Inv(w)
    requires sequence.Some? ==> i < |w.live| && Advanced(w.live[i].key).Some?
    requires sequence.Some? ==>
      var k := Advanced(w.live[i].key).value; keys == Keys(w.live)[i := k] && sequence.value == k.tx
    ensures Inv(Sent(w, i, keys, sequence))
  {
    if sequence.Some? {
      SendingIsDisciplined(w.live[i]);
      OneChanged(w, i, Sent(w, i, keys, sequence).live[i]);
    }
  }

  /** Every event keeps the invariant. */
  lemma StepKeeps(w: World, e: Event)
    requires Inv(w)
    ensures Inv(Step(w, e))
  {
    hide Inv, Retire, Accepted, Sent, Selected, SelectedAt, Identified, TkipMic, Advanced;
    var keys := Keys(w.live);
    match e
    case Set(_, _, _, _, _, _) => SetKeeps(w, e);
    case Delete(index, peer, flags) => RetireKeeps(w, index, peer, flags);
    case Receive(h, index, cipher, sequence) =>
      AcceptedKeeps(w, SelectedAt(keys, w.me, h, index), AcceptRx(keys, w.me, h, index, cipher, sequence), sequence);
    case ReceiveTkip(d, sequence, mic) =>
      AcceptedKeeps(w, SelectedAt(keys, w.me, d.header, d.keyIndex), AcceptTkip(keys, w.me, d, sequence, mic), sequence);
    case Send(h, index, cipher) =>
      var (keys', sequence) := NextTx(keys, w.me, h, index, cipher);
      SentKeeps(w, Selected(keys, w.me, h), keys', sequence);
    case SendTkip(d) =>
      var (keys', prepared) := NextTkip(keys, w.me, d);
      SentKeeps(w, SelectedAt(keys, w.me, d.header, d.keyIndex), keys', if prepared.Some? then Some(prepared.value.0) else None);
  }

  ghost function Play(w: World, events: seq<Event>): World
    decreases |events|
  {
    if events == [] then w else Play(Step(w, events[0]), events[1..])
  }

  lemma {:induction false} PlayKeeps(w: World, events: seq<Event>)
    requires Inv(w)
    ensures Inv(Play(w, events))
    decreases |events|
  {
    if events != [] {
      StepKeeps(w, events[0]);
      PlayKeeps(Step(w, events[0]), events[1..]);
    }
  }

  /** In any run, under any key ever set: the accepted numbers strictly increase, so none is accepted
      twice; the numbers handed out are 1, 2, 3 and so on, so none repeats; none of them wraps; and no
      two keys in the store have the same identity. */
  lemma PacketNumbersAreDisciplined(me: MacAddress, events: seq<Event>, x: Installation)
    requires var w := Play(World(me, [], []), events); x in w.live + w.retired
    ensures Ascending(x.accepted)
    ensures forall i :: 0 <= i < |x.accepted| ==> (if |x.given| == 6 then LittleEndian(x.given) else 0) < x.accepted[i] < Power256(SEQUENCE_SIZE)
    ensures |x.sent| < Power256(SEQUENCE_SIZE) && forall i :: 0 <= i < |x.sent| ==> x.sent[i] == i + 1
    ensures var keys := Keys(Play(World(me, [], []), events).live);
      forall i, j :: 0 <= i < j < |keys| ==> keys[i].index != keys[j].index || keys[i].peer != keys[j].peer || keys[i].flags != keys[j].flags
  {
    PlayKeeps(World(me, [], []), events);
    DisciplinedNumbers(x);
  }

  lemma DisciplinedNumbers(x: Installation)
    requires Disciplined(x)
    ensures Ascending(x.accepted) && forall i :: 0 <= i < |x.accepted| ==> x.First() < x.accepted[i] < Power256(SEQUENCE_SIZE)
    ensures |x.sent| < Power256(SEQUENCE_SIZE)
  {
    var s := [x.First()] + x.accepted;
    LittleEndianBound(x.key.rx);
    LittleEndianBound(x.key.tx);
    forall i, j | 0 <= i <= j < |x.accepted|
      ensures x.First() < x.accepted[i] && x.accepted[i] <= s[|x.accepted|] && (i < j ==> x.accepted[i] < x.accepted[j])
    {
      assert s[0] == x.First() && x.accepted[i] == s[i + 1] && x.accepted[j] == s[j + 1];
    }
  }

  // ----- Numbers under the same key bytes -----

  /** The same cipher with the same key bytes, whichever installation. */
  predicate SameSecret(x: Installation, y: Installation) {
    x.key.cipher == y.key.cipher && x.key.material == y.key.material
  }

  ghost function All(w: World): seq<Installation> {
    w.live + w.retired
  }

  /** A number was handed out under both. */
  ghost predicate Share(x: Installation, y: Installation) {
    exists n :: n in x.sent && n in y.sent
  }

  lemma BothStartAtOne(x: Installation, y: Installation)
    requires Disciplined(x) && Disciplined(y)
    ensures Share(x, y) <==> x.sent != [] && y.sent != []
  {
    if x.sent != [] && y.sent != [] {
      assert x.sent[0] == 1 == y.sent[0];
      assert 1 in x.sent && 1 in y.sent;
    }
  }

  /** In any run, two installations share a number exactly when something was sent under each. */
  lemma SharedExactly(me: MacAddress, events: seq<Event>, i: nat, j: nat)
    requires var w := Play(World(me, [], []), events); i < |All(w)| && j < |All(w)|
    ensures var all := All(Play(World(me, [], []), events)); Share(all[i], all[j]) <==> all[i].sent != [] && all[j].sent != []
  {
    PlayKeeps(World(me, [], []), events);
    var all := All(Play(World(me, [], []), events));
    BothStartAtOne(all[i], all[j]);
  }

  /** The rule for callers: key bytes are set only when, with the key they replace gone, they are in no
      key of the store, and nothing was ever sent under them. */
  ghost predicate Careful(w: World, e: Event) {
    e.Set? ==>
      var w' := Retire(w, Identified(Keys(w.live), e.index, e.peer, e.flags));
      && (forall i :: 0 <= i < |w'.live| ==> w'.live[i].key.cipher != e.cipher || w'.live[i].key.material != e.material)
      && (forall i :: 0 <= i < |w'.retired| && w'.retired[i].key.cipher == e.cipher && w'.retired[i].key.material == e.material ==>
        w'.retired[i].sent == [])
  }

  ghost predicate Apart(w: World) {
    && (forall i, j :: 0 <= i < j < |w.live| ==> !SameSecret(w.live[i], w.live[j]))
    && (forall i, j :: 0 <= i < |w.live| && 0 <= j < |w.retired| && SameSecret(w.live[i], w.retired[j]) ==> w.retired[j].sent == [])
    && (forall i, j :: 0 <= i < j < |w.retired| && SameSecret(w.retired[i], w.retired[j]) ==>
      w.retired[i].sent == [] || w.retired[j].sent == [])
  }

  lemma RetireApart(w: World, i: nat)
    requires Apart(w)
    ensures Apart(Retire(w, i))
  {
  }

  lemma SetApart(w: World, e: Event)
    requires Apart(w) && e.Set? && Careful(w, e)
    ensures Apart(Step(w, e))
  {
    hide Identified;
    RetireApart(w, Identified(Keys(w.live), e.index, e.peer, e.flags));
  }

  lemma ChangeApart(w: World, w': World, i: nat)
    requires Apart(w) && i < |w.live| && |w'.live| == |w.live| && w' == w.(live := w.live[i := w'.live[i]])
    requires SameSecret(w'.live[i], w.live[i])
    ensures Apart(w')
  {
  }

  /** Receiving and sending change one key, and not its bytes. */
  lemma TrafficChangesOne(w: World, e: Event) returns (i: nat)
    requires !e.Set? && !e.Delete?
    ensures Step(w, e) == w || (i < |w.live| && |Step(w, e).live| == |w.live|
      && Step(w, e) == w.(live := w.live[i := Step(w, e).live[i]]) && SameSecret(Step(w, e).live[i], w.live[i]))
  {
    hide Selected, SelectedAt, TkipMic;
    var keys := Keys(w.live);
    match e
    case Receive(h, index, _, _) => i := SelectedAt(keys, w.me, h, index);
    case ReceiveTkip(d, _, _) => i := SelectedAt(keys, w.me, d.header, d.keyIndex);
    case Send(h, _, _) => i := Selected(keys, w.me, h);
    case SendTkip(d) => i := SelectedAt(keys, w.me, d.header, d.keyIndex);
  }

  lemma StepApart(w: World, e: Event)
    requires Apart(w) && Careful(w, e)
    ensures Apart(Step(w, e))
  {
    hide Apart, Careful;
    match e
    case Set(_, _, _, _, _, _) => SetApart(w, e);
    case Delete(index, peer, flags) => RetireApart(w, Identified(Keys(w.live), index, peer, flags));
    case _ =>
      var i := TrafficChangesOne(w, e);
      hide Step;
      if Step(w, e) != w { ChangeApart(w, Step(w, e), i); }
  }

  ghost predicate CarefulRun(w: World, events: seq<Event>)
    decreases |events|
  {
    events != [] ==> Careful(w, events[0]) && CarefulRun(Step(w, events[0]), events[1..])
  }

  lemma {:induction false} PlayApart(w: World, events: seq<Event>)
    requires Apart(w) && CarefulRun(w, events)
    ensures Apart(Play(w, events))
    decreases |events|
  {
    hide Step, Apart, Careful;
    if events != [] {
      StepApart(w, events[0]);
      PlayApart(Step(w, events[0]), events[1..]);
    }
  }

  /** When every key is set by that rule, no number is handed out twice under the same key bytes, in
      whatever installations. */
  lemma CarefulRunsRepeatNothing(me: MacAddress, events: seq<Event>, i: nat, j: nat)
    requires CarefulRun(World(me, [], []), events)
    requires var w := Play(World(me, [], []), events); i < j < |All(w)| && SameSecret(All(w)[i], All(w)[j])
    ensures var all := All(Play(World(me, [], []), events)); !Share(all[i], all[j])
  {
    hide Play, CarefulRun, SameSecret, Share;
    PlayApart(World(me, [], []), events);
    OneIsUnused(Play(World(me, [], []), events), i, j);
    SharedExactly(me, events, i, j);
  }

  lemma OneIsUnused(w: World, i: nat, j: nat)
    requires Apart(w) && i < j < |All(w)| && SameSecret(All(w)[i], All(w)[j])
    ensures All(w)[i].sent == [] || All(w)[j].sent == []
  {
    hide SameSecret;
  }

  // ----- The rule is needed -----

  lemma SelectedStays(keys: seq<Key>, keys': seq<Key>, me: MacAddress, h: Header)
    requires |keys'| == |keys| && forall i :: 0 <= i < |keys| ==> keys'[i] == keys[i].(rx := keys'[i].rx, tx := keys'[i].tx)
    ensures Selected(keys', me, h) == Selected(keys, me, h)
  {
    FirstIs(keys', k => MatchesHeader(k, me, h), Selected(keys, me, h));
  }

  /** Sending under the key selected for a header hands out its next number, if it has one left. */
  lemma SendHandsOut(w: World, h: Header, i: nat)
    requires Inv(w) && i == Selected(Keys(w.live), w.me, h) < |w.live| && Advanced(w.live[i].key).Some?
    ensures var w' := Step(w, Send(h, w.live[i].key.index, w.live[i].key.cipher));
      && Inv(w') && w' == w.(live := w.live[i := w'.live[i]]) && |w'.live| == |w.live|
      && w'.live[i].key == w.live[i].key.(tx := w'.live[i].key.tx)
      && w'.live[i].sent == w.live[i].sent + [LittleEndian(w'.live[i].key.tx)]
  {
    StepKeeps(w, Send(h, w.live[i].key.index, w.live[i].key.cipher));
    hide Inv, Selected;
  }

  lemma UnusedHasNumbers(x: Installation)
    requires Disciplined(x) && x.sent == []
    ensures Advanced(x.key).Some?
  {
    assert Power256(SEQUENCE_SIZE) == 256 * Power256(5) && Power256(5) == 256 * Power256(4);
  }

  /** The numbers handed out by sending with one header and then, if need be, with another. */
  ghost function Sends(w: World, x: Installation, h: Header, y: Installation, h': Header): seq<Event> {
    [Send(h, x.key.index, x.key.cipher)] + if y.sent != [] then [] else [Send(h', y.key.index, y.key.cipher)]
  }

  lemma OneSend(w: World, h: Header, j: nat)
    requires Inv(w) && 0 < |w.live| && w.live[0].sent == [] && Selected(Keys(w.live), w.me, h) == 0
    requires 0 < j < |All(w)| && SameSecret(All(w)[0], All(w)[j])
    ensures var w' := Step(w, Send(h, w.live[0].key.index, w.live[0].key.cipher));
      && Inv(w') && w'.live != [] && w'.live[0].sent != [] && |w'.live| == |w.live| && w'.me == w.me
      && |All(w')| == |All(w)| && All(w')[j] == All(w)[j] && SameSecret(All(w')[0], All(w')[j])
      && forall g :: Selected(Keys(w'.live), w'.me, g) == Selected(Keys(w.live), w.me, g)
  {
    hide Selected, Step;
    UnusedHasNumbers(w.live[0]);
    SendHandsOut(w, h, 0);
    var w' := Step(w, Send(h, w.live[0].key.index, w.live[0].key.cipher));
    forall g ensures Selected(Keys(w'.live), w'.me, g) == Selected(Keys(w.live), w.me, g) {
      SelectedStays(Keys(w.live), Keys(w'.live), w.me, g);
    }
  }

  lemma SendShares(w: World, h: Header, j: nat)
    requires Inv(w) && 0 < j < |w.live| && w.live[0].sent != [] && w.live[j].sent == [] && Selected(Keys(w.live), w.me, h) == j
    requires SameSecret(w.live[0], w.live[j])
    ensures var w' := Step(w, Send(h, w.live[j].key.index, w.live[j].key.cipher));
      |All(w')| == |All(w)| && SameSecret(All(w')[0], All(w')[j]) && Share(All(w')[0], All(w')[j])
  {
    hide Selected, Step, Share;
    UnusedHasNumbers(w.live[j]);
    SendHandsOut(w, h, j);
    var w' := Step(w, Send(h, w.live[j].key.index, w.live[j].key.cipher));
    BothStartAtOne(w'.live[0], w'.live[j]);
  }

  /** Where the rule is broken, by a key with the same bytes that something was sent under or that is
      still in the store, sending under the new key (and under the other, if that is still unused)
      hands out a number for the second time. */
  lemma CarelessSetRepeats(w: World, e: Event, j: nat, h: Header, h': Header)
    requires Inv(w) && e.Set?
    requires var w1 := Step(w, e);
      && 0 < j < |All(w1)| && 0 < |w1.live| && SameSecret(All(w1)[0], All(w1)[j])
      && Selected(Keys(w1.live), w.me, h) == 0
      && (All(w1)[j].sent == [] ==> j < |w1.live| && Selected(Keys(w1.live), w.me, h') == j)
    ensures var w1 := Step(w, e);
      var w2 := Play(w1, Sends(w1, All(w1)[0], h, All(w1)[j], h'));
      |All(w2)| == |All(w1)| && SameSecret(All(w2)[0], All(w2)[j]) && Share(All(w2)[0], All(w2)[j])
  {
    StepKeeps(w, e);
    var w1 := Step(w, e);
    assert w1.live[0].sent == [];
    AfterSet(w1, j, h, h');
  }

  lemma AllAreDisciplined(w: World, j: nat)
    requires Inv(w) && j < |All(w)|
    ensures Disciplined(All(w)[j])
  {
  }

  lemma PlayTwo(w: World, e: Event, rest: seq<Event>)
    requires |rest| <= 1
    ensures Play(w, [e] + rest) == if rest == [] then Step(w, e) else Step(Step(w, e), rest[0])
  {
    hide Step;
    var w' := Step(w, e);
    assert ([e] + rest)[0] == e && ([e] + rest)[1..] == rest;
    assert Play(w, [e] + rest) == Play(w', rest);
    if rest != [] {
      assert rest[1..] == [];
      assert Play(w', rest) == Play(Step(w', rest[0]), []);
    }
  }

  lemma AfterSet(w1: World, j: nat, h: Header, h': Header)
    requires Inv(w1) && 0 < j < |All(w1)| && 0 < |w1.live| && w1.live[0].sent == [] && SameSecret(All(w1)[0], All(w1)[j])
    requires Selected(Keys(w1.live), w1.me, h) == 0
    requires All(w1)[j].sent == [] ==> j < |w1.live| && Selected(Keys(w1.live), w1.me, h') == j
    ensures var w2 := Play(w1, Sends(w1, All(w1)[0], h, All(w1)[j], h'));
      |All(w2)| == |All(w1)| && SameSecret(All(w2)[0], All(w2)[j]) && Share(All(w2)[0], All(w2)[j])
  {
    hide Selected, Step, Share, Inv;
    OneSend(w1, h, j);
    var e := Send(h, w1.live[0].key.index, w1.live[0].key.cipher);
    var w2 := Step(w1, e);
    if All(w1)[j].sent != [] {
      AllAreDisciplined(w2, 0);
      AllAreDisciplined(w2, j);
      BothStartAtOne(All(w2)[0], All(w2)[j]);
      PlayTwo(w1, e, []);
    } else {
      var e' := Send(h', w1.live[j].key.index, w1.live[j].key.cipher);
      PlayTwo(w1, e, [e']);
      SendShares(w2, h', j);
    }
  }

  /** A header of a frame to a peer is covered by a pairwise key for it that may transmit. */
  lemma PairwiseCovers(me: MacAddress, peer: MacAddress, h: Header)
    requires h.address1 == peer && h.address2 == me && !IsGroup(peer)
    ensures Covers(KEY_PAIRWISE | KEY_TX, peer, me, h)
  {
    assert (KEY_PAIRWISE | KEY_TX) & KEY_TX != 0 && (KEY_PAIRWISE | KEY_TX) & KEY_PAIRWISE != 0;
  }

  /** Setting a pairwise CCMP key for a peer. */
  function SetFor(peer: MacAddress, material: seq<Byte>): Event {
    Set(Ccmp, 0, peer, KEY_PAIRWISE | KEY_TX, material, [])
  }

  function FrameTo(me: MacAddress, peer: MacAddress): Header {
    Header(0x108, 0, peer, me, peer, Zeros(6), 0)
  }

  function SendTo(me: MacAddress, peer: MacAddress): Event {
    Send(FrameTo(me, peer), 0, Ccmp)
  }

  /** The store after a pairwise key has been set: it is in front, unused, and selected for its peer. */
  lemma SetIsSelected(w: World, peer: MacAddress, material: seq<Byte>)
    requires Inv(w) && !IsGroup(peer)
    ensures var w' := Step(w, SetFor(peer, material));
      && Inv(w') && w'.me == w.me && w'.live != [] && w'.live[0].sent == []
      && w'.live[0].key.cipher == Ccmp && w'.live[0].key.index == 0 && w'.live[0].key.material == material
      && Selected(Keys(w'.live), w.me, FrameTo(w.me, peer)) == 0
  {
    StepKeeps(w, SetFor(peer, material));
    PairwiseCovers(w.me, peer, FrameTo(w.me, peer));
    hide Inv, Identified, Covers, Retire;
  }

  /** The shortest run in which a number repeats under the same key bytes: set, send, set again, send. */
  lemma SettingAgainRepeats(me: MacAddress, peer: MacAddress, material: seq<Byte>)
    requires !IsGroup(peer)
    ensures var w := Play(World(me, [], []), [SetFor(peer, material), SendTo(me, peer), SetFor(peer, material), SendTo(me, peer)]);
      |w.live| == 1 && |w.retired| == 1 && SameSecret(w.live[0], w.retired[0]) && Share(w.live[0], w.retired[0])
  {
    hide Step, Selected, Share, Inv;
    var s, t, h := SetFor(peer, material), SendTo(me, peer), FrameTo(me, peer);
    var w := World(me, [], []);
    NothingIsKept(me);
    FirstSet(w, peer, material);
    SetIsSelected(w, peer, material);
    var w1 := Step(w, s);
    UnusedIsUsable(w1, 0);
    SendHandsOut(w1, h, 0);
    var w2 := Step(w1, t);
    SetAgain(w2, peer, material);
    SetIsSelected(w2, peer, material);
    CarelessSetRepeats(w2, s, 1, h, h);
    PlayFour(w, s, t, s, t);
    PlayTwo(Step(w2, s), t, []);
    assert Sends(Step(w2, s), All(Step(w2, s))[0], h, All(Step(w2, s))[1], h) == [t];
    OneLive(Step(w2, s), t);
  }

  lemma NothingIsKept(me: MacAddress)
    ensures Inv(World(me, [], []))
  {
  }

  lemma UnusedIsUsable(w: World, i: nat)
    requires Inv(w) && i < |w.live| && w.live[i].sent == []
    ensures Advanced(w.live[i].key).Some?
  {
    UnusedHasNumbers(w.live[i]);
  }

  lemma FirstSet(w: World, peer: MacAddress, material: seq<Byte>)
    requires w.live == [] && w.retired == []
    ensures var w' := Step(w, SetFor(peer, material)); |w'.live| == 1 && w'.retired == [] && Pairwise(w'.live[0], peer)
  {
  }

  /** A key set for a peer, as SetFor sets it. */
  predicate Pairwise(x: Installation, peer: MacAddress) {
    SameIdentity(x.key, 0, peer, KEY_PAIRWISE | KEY_TX)
  }

  lemma SetAgain(w: World, peer: MacAddress, material: seq<Byte>)
    requires |w.live| == 1 && w.retired == [] && Pairwise(w.live[0], peer)
    ensures var w' := Step(w, SetFor(peer, material)); |w'.live| == 1 && w'.retired == [w.live[0]]
  {
  }

  lemma SetForAnother(w: World, p: MacAddress, q: MacAddress, material: seq<Byte>)
    requires |w.live| == 1 && w.retired == [] && Pairwise(w.live[0], p) && p != q
    ensures var w' := Step(w, SetFor(q, material)); |w'.live| == 2 && w'.retired == [] && w'.live[1] == w.live[0] && Pairwise(w'.live[0], q)
  {
  }

  /** The key of the other peer does not match. */
  lemma SecondIsSelected(w: World, p: MacAddress, q: MacAddress)
    requires |w.live| == 2 && Pairwise(w.live[0], q) && Pairwise(w.live[1], p) && p != q && !IsGroup(p)
    ensures Selected(Keys(w.live), w.me, FrameTo(w.me, p)) == 1
  {
    PairwiseCovers(w.me, p, FrameTo(w.me, p));
    FirstIs(Keys(w.live), k => MatchesHeader(k, w.me, FrameTo(w.me, p)), 1);
  }

  lemma OneLive(w: World, e: Event)
    requires e.Send?
    ensures |Step(w, e).live| == |w.live| && |Step(w, e).retired| == |w.retired|
  {
    hide Selected, Advanced;
  }

  lemma PlayFour(w: World, a: Event, b: Event, c: Event, d: Event)
    ensures Play(w, [a, b, c, d]) == Play(Step(Step(Step(w, a), b), c), [d])
    ensures Play(w, [a, b, c, d]) == Play(Step(Step(w, a), b), [c] + [d])
  {
    hide Step;
    var w1, w2 := Step(w, a), Step(Step(w, a), b);
    assert [a, b, c, d][1..] == [b, c, d] && [b, c, d][1..] == [c, d] == [c] + [d] && [c, d][1..] == [d];
    assert Play(w, [a, b, c, d]) == Play(w1, [b, c, d]);
    assert Play(w1, [b, c, d]) == Play(w2, [c, d]);
    assert Play(w2, [c, d]) == Play(Step(w2, c), [d]);
  }

  /** Nor is it enough that nothing was ever sent under the key bytes when they are set: two keys in the
      store with the same bytes, for two peers, both hand out 1 afterwards. */
  lemma TwoPeersRepeat(me: MacAddress, p: MacAddress, q: MacAddress, material: seq<Byte>)
    requires !IsGroup(p) && !IsGroup(q) && p != q
    ensures var w := Play(World(me, [], []), [SetFor(p, material), SetFor(q, material), SendTo(me, q), SendTo(me, p)]);
      |w.live| == 2 && w.retired == [] && SameSecret(w.live[0], w.live[1]) && Share(w.live[0], w.live[1])
  {
    hide Step, Selected, Share, Inv, Pairwise;
    var w := World(me, [], []);
    NothingIsKept(me);
    FirstSet(w, p, material);
    SetIsSelected(w, p, material);
    var w1 := Step(w, SetFor(p, material));
    SetForAnother(w1, p, q, material);
    SetIsSelected(w1, q, material);
    var w2 := Step(w1, SetFor(q, material));
    SecondIsSelected(w2, p, q);
    CarelessSetRepeats(w1, SetFor(q, material), 1, FrameTo(me, q), FrameTo(me, p));
    PlayFour(w, SetFor(p, material), SetFor(q, material), SendTo(me, q), SendTo(me, p));
    OneLive(w2, SendTo(me, q));
    OneLive(Step(w2, SendTo(me, q)), SendTo(me, p));
    PlayTwo(w2, SendTo(me, q), [SendTo(me, p)]);
  }
}

/** The scan buffer: beacons framed onto the byte ring by the receive path, read back by the work. */
module Scan {
  import opened Bytes
  import opened RingBuffers

  // The layout of a beacon record where pointers and sizes take eight bytes: six of address, two
  // sixteen-bit numbers, the channel, the rates, the SSID, padding, a pointer, and the RSN size.
  const HEADER_SIZE: nat := 80
  const ADDRESS_SIZE: nat := 6
  const CHANNEL: nat := 10
  const RSN_SIZE: nat := 72
  const MAX_RSN_SIZE: nat := 255
  const BUFFER_COUNT: nat := 64
  const BUFFER_SIZE: nat := BUFFER_COUNT * (HEADER_SIZE + MAX_RSN_SIZE)
  const LAST_CHANNEL: nat := 14

  /** A beacon: the header bytes, and the RSN bytes whose number the header records. */
  datatype Beacon = Beacon(header: seq<Byte>, rsn: seq<Byte>) {
    ghost predicate Valid() {
      |header| == HEADER_SIZE && LittleEndian(header[RSN_SIZE..]) == |rsn|
    }

    ghost predicate Recorded() {
      Valid() && |rsn| <= MAX_RSN_SIZE
    }

    ghost function Stamped(channel: Byte): Beacon
      requires Valid()
    {
      if header[CHANNEL] == 0 then this.(header := header[CHANNEL := channel]) else this
    }

    ghost predicate WorthKeeping(channel: Byte)
      requires Valid()
    {
      header[CHANNEL] == channel && IndividualAddress(header[..ADDRESS_SIZE])
    }
  }

  /** Neither all zero nor all ones, and not a group address. */
  ghost predicate IndividualAddress(mac: seq<Byte>)
    requires mac != []
  {
    (exists i :: 0 <= i < |mac| && mac[i] != 0) && (exists i :: 0 <= i < |mac| && mac[i] != 255) && mac[0] % 2 == 0
  }

  lemma StampedIsValid(b: Beacon, channel: Byte)
    requires b.Valid()
    ensures b.Stamped(channel).Valid()
  {
    assert b.header[CHANNEL := channel][RSN_SIZE..] == b.header[RSN_SIZE..];
  }

  ghost predicate AllValid(beacons: seq<Beacon>) {
    forall i :: 0 <= i < |beacons| ==> beacons[i].Valid()
  }

  // ----- Framing -----

  ghost function Frames(beacons: seq<Beacon>): seq<Byte> {
    if beacons == [] then [] else beacons[0].header + beacons[0].rsn + Frames(beacons[1..])
  }

  lemma {:induction false} FramesAppend(beacons: seq<Beacon>, b: Beacon)
    ensures Frames(beacons + [b]) == Frames(beacons) + b.header + b.rsn
  {
    if beacons == [] {
      assert [b][1..] == [];
    } else {
      FramesAppend(beacons[1..], b);
      assert (beacons + [b])[1..] == beacons[1..] + [b];
    }
  }

  lemma FramesHead(beacons: seq<Beacon>)
    requires beacons != [] && beacons[0].Valid()
    ensures var f, b := Frames(beacons), beacons[0];
      && |f| >= HEADER_SIZE && f[..HEADER_SIZE] == b.header
      && |f[HEADER_SIZE..]| >= |b.rsn| && f[HEADER_SIZE..][..|b.rsn|] == b.rsn
      && f[HEADER_SIZE..][|b.rsn|..] == Frames(beacons[1..])
  {
    var f, b := Frames(beacons), beacons[0];
    assert f == b.header + (b.rsn + Frames(beacons[1..]));
  }

  /** The bytes determine the beacons: there is only one way to cut them up. */
  lemma {:induction false} FramesUnique(a: seq<Beacon>, b: seq<Beacon>)
    requires AllValid(a) && AllValid(b)
    requires Frames(a) == Frames(b)
    ensures a == b
  {
    if a != [] { FramesHead(a); }
    if b != [] { FramesHead(b); }
    if a != [] && b != [] {
      FramesUnique(a[1..], b[1..]);
      assert a == [a[0]] + a[1..] && b == [b[0]] + b[1..];
    }
  }

  // ----- What the sections do to the pipeline -----

  datatype Pipeline = Pipeline(channel: Byte, receiving: bool, beacons: seq<Beacon>) {
    ghost predicate Valid() {
      1 <= channel <= 14 && (forall i :: 0 <= i < |beacons| ==> beacons[i].Recorded()) && |Frames(beacons)| <= BUFFER_SIZE
    }
  }

  ghost predicate Accepts(p: Pipeline, b: Beacon) {
    p.receiving && |b.rsn| <= MAX_RSN_SIZE && |Frames(p.beacons)| + HEADER_SIZE + |b.rsn| <= BUFFER_SIZE
  }

  ghost function Accept(p: Pipeline, b: Beacon): Pipeline
    requires b.Valid()
  {
    if Accepts(p, b) then p.(beacons := p.beacons + [b.Stamped(p.channel)]) else p
  }

  lemma AcceptKeeps(p: Pipeline, b: Beacon)
    requires p.Valid() && b.Valid()
    ensures Accept(p, b).Valid()
  {
    StampedIsValid(b, p.channel);
    FramesAppend(p.beacons, b.Stamped(p.channel));
  }

  /** A beacon and the channel the scan was on. */
  datatype Capture = Capture(beacon: Beacon, channel: Byte) {
    ghost predicate Worthy() {
      beacon.Valid() && beacon.WorthKeeping(channel)
    }
  }

  /** What is recorded of a beacon heard on a channel: its bytes, except that a channel of 0 becomes
      the channel it was heard on. */
  ghost predicate RecordOf(heard: Capture, c: Capture) {
    var was, now := heard.beacon, c.beacon;
    && c.channel == heard.channel && now.rsn == was.rsn && |now.header| == |was.header| == HEADER_SIZE
    && (forall k :: 0 <= k < HEADER_SIZE && k != CHANNEL ==> now.header[k] == was.header[k])
    && now.header[CHANNEL] == if was.header[CHANNEL] == 0 then heard.channel else was.header[CHANNEL]
  }

  /** It is for the cache exactly when the beacon named no channel, or that one, and an individual address. */
  lemma RecordIsWorthy(heard: Capture, c: Capture)
    requires RecordOf(heard, c) && heard.beacon.Valid()
    ensures c.Worthy() <==>
      (heard.beacon.header[CHANNEL] == 0 || heard.beacon.header[CHANNEL] == heard.channel) && IndividualAddress(heard.beacon.header[..ADDRESS_SIZE])
  {
    hide IndividualAddress, LittleEndian;
    assert c.beacon.header[..ADDRESS_SIZE] == heard.beacon.header[..ADDRESS_SIZE];
    assert c.beacon.header[RSN_SIZE..] == heard.beacon.header[RSN_SIZE..];
  }

  lemma RecordIsUnique(heard: Capture, c: Capture, d: Capture)
    requires RecordOf(heard, c) && RecordOf(heard, d)
    ensures c == d
  {
    assert c.beacon.header == d.beacon.header;
  }

  ghost function Captures(beacons: seq<Beacon>, channel: Byte): (captures: seq<Capture>)
    ensures |captures| == |beacons| && forall i :: 0 <= i < |beacons| ==> captures[i] == Capture(beacons[i], channel)
  {
    seq(|beacons|, i requires 0 <= i < |beacons| => Capture(beacons[i], channel))
  }

  lemma CapturesAppend(beacons: seq<Beacon>, b: Beacon, channel: Byte)
    ensures Captures(beacons + [b], channel) == Captures(beacons, channel) + [Capture(b, channel)]
  {
  }

  lemma CapturesHead(beacons: seq<Beacon>, channel: Byte)
    requires beacons != []
    ensures Captures(beacons, channel) == [Capture(beacons[0], channel)] + Captures(beacons[1..], channel)
  {
  }

  /** The captures the work hands to the cache, in order: those worth keeping, but for the records
      `short`, for whose access points there is no memory. */
  ghost function Handed(captures: seq<Capture>, short: set<nat>): seq<Capture> {
    if captures == [] then []
    else
      var n := |captures| - 1;
      if captures[n].Worthy() && n !in short then Handed(captures[..n], short) + [captures[n]] else Handed(captures[..n], short)
  }

  lemma HandedAppend(captures: seq<Capture>, c: Capture, short: set<nat>)
    ensures Handed(captures + [c], short) ==
      if c.Worthy() && |captures| !in short then Handed(captures, short) + [c] else Handed(captures, short)
  {
    assert (captures + [c])[..|captures|] == captures;
  }

  lemma {:induction false} HandedExactly(captures: seq<Capture>, c: Capture, short: set<nat>)
    ensures c in Handed(captures, short) <==> exists i :: 0 <= i < |captures| && captures[i] == c && c.Worthy() && i !in short
  {
    if captures != [] {
      var n := |captures| - 1;
      HandedExactly(captures[..n], c, short);
      assert forall i :: 0 <= i < n ==> captures[..n][i] == captures[i];
    }
  }

  /** One more beacon read back. */
  lemma OneMore(beacons: seq<Beacon>, b: Beacon, channel: Byte, short: set<nat>, found: seq<Beacon>)
    requires b.Valid() && Captures(found, channel) == Handed(Captures(beacons, channel), short)
    ensures Captures(if b.WorthKeeping(channel) && |beacons| !in short then found + [b] else found, channel)
      == Handed(Captures(beacons + [b], channel), short)
  {
    hide Captures, Handed;
    CapturesAppend(beacons, b, channel);
    CapturesAppend(found, b, channel);
    HandedAppend(Captures(beacons, channel), Capture(b, channel), short);
  }

  lemma NothingFramed(channel: Byte, short: set<nat>)
    ensures Frames([]) == [] && Captures([], channel) == [] && Handed([], short) == []
  {
  }

  method ValidBssid(mac: seq<Byte>) returns (valid: bool)
    requires |mac| == ADDRESS_SIZE
    ensures valid == IndividualAddress(mac)
    ensures valid <==> mac != [0, 0, 0, 0, 0, 0] && mac != [255, 255, 255, 255, 255, 255] && mac[0] % 2 == 0
  {
    var allZero, allBroadcast := true, true;
    for i := 0 to ADDRESS_SIZE
      invariant allZero <==> forall k :: 0 <= k < i ==> mac[k] == 0
      invariant allBroadcast <==> forall k :: 0 <= k < i ==> mac[k] == 255
    {
      if mac[i] != 0 {
        allZero := false;
      }
      if mac[i] != 255 {
        allBroadcast := false;
      }
    }
    valid := !allZero && !allBroadcast && mac[0] % 2 == 0;
  }

  // ----- The channels -----

  datatype Rule = Rule(disabled: bool, passive: bool)

  type Rules = r: seq<Rule> | |r| == LAST_CHANNEL witness seq(LAST_CHANNEL, i => Rule(false, false))

  predicate Usable(rules: Rules, channel: nat) {
    1 <= channel <= LAST_CHANNEL && !rules[channel - 1].disabled && !rules[channel - 1].passive
  }

  /** The usable channels above one and up to another, in ascending order. */
  ghost function Usables(rules: Rules, above: nat, last: nat): seq<nat>
    decreases last
  {
    if last <= above then [] else
      var rest := Usables(rules, above, last - 1);
      if Usable(rules, last) then rest + [last] else rest
  }

  lemma {:induction false} UsablesExactly(rules: Rules, above: nat, last: nat, c: nat)
    ensures c in Usables(rules, above, last) <==> above < c <= last && Usable(rules, c)
    decreases last
  {
    if last > above { UsablesExactly(rules, above, last - 1, c); }
  }

  lemma {:induction false} UsablesAscend(rules: Rules, above: nat, last: nat)
    ensures forall i, j :: 0 <= i < j < |Usables(rules, above, last)| ==> Usables(rules, above, last)[i] < Usables(rules, above, last)[j]
    decreases last
  {
    if last > above {
      UsablesAscend(rules, above, last - 1);
      var rest := Usables(rules, above, last - 1);
      forall i | 0 <= i < |rest| ensures rest[i] < last {
        assert rest[i] in rest;
        UsablesExactly(rules, above, last - 1, rest[i]);
      }
      assert Usables(rules, above, last) == if Usable(rules, last) then rest + [last] else rest;
    }
  }

  ghost predicate IsNext(rules: Rules, current: nat, next: int) {
    if next < 0 then forall c :: current < c ==> !Usable(rules, c)
    else current < next <= LAST_CHANNEL && Usable(rules, next) && forall c :: current < c < next ==> !Usable(rules, c)
  }

  method NextChannel(rules: Rules, current: nat) returns (next: int)
    ensures IsNext(rules, current, next) && (next < 0 ==> next == -1)
  {
    var channel := current + 1;
    while channel <= LAST_CHANNEL
      invariant current < channel && forall c :: current < c < channel ==> !Usable(rules, c)
    {
      if !rules[channel - 1].disabled && !rules[channel - 1].passive {
        return channel;
      }
      channel := channel + 1;
    }
    return -1;
  }

  /** One more channel is one more channel of the list. */
  lemma NextExtends(rules: Rules, current: nat, next: int)
    requires IsNext(rules, current, next)
    ensures next >= 0 ==> Usables(rules, 0, next) == Usables(rules, 0, current) + [next as nat]
    ensures next < 0 && current <= LAST_CHANNEL ==> Usables(rules, 0, LAST_CHANNEL) == Usables(rules, 0, current)
  {
    NoneBetween(rules, current, if next < 0 then LAST_CHANNEL else next - 1);
  }

  lemma {:induction false} NoneBetween(rules: Rules, current: nat, last: nat)
    requires forall c :: current < c <= last ==> !Usable(rules, c)
    ensures current <= last ==> Usables(rules, 0, last) == Usables(rules, 0, current)
    decreases last
  {
    if current < last { NoneBetween(rules, current, last - 1); }
  }

  // ----- The scan state -----

  class ScanState {
    const buffer: RingBuffer
    const rsn: array<Byte>      // scratch space
    var receiving: bool
    var currentChannel: Byte
    ghost var beacons: seq<Beacon>

    ghost predicate Valid()
      reads this, buffer, buffer.data
    {
      && buffer.Valid() && buffer.size == BUFFER_SIZE && rsn.Length == MAX_RSN_SIZE && rsn != buffer.data
      && Snapshot().Valid() && buffer.Contents() == Frames(beacons)
    }

    ghost function Snapshot(): Pipeline
      reads this
    {
      Pipeline(currentChannel, receiving, beacons)
    }

    constructor (channel: Byte)
      requires 1 <= channel <= 14
      ensures Valid() && fresh(buffer) && fresh(buffer.data) && fresh(rsn) && Snapshot() == Pipeline(channel, false, [])
    {
      buffer := new RingBuffer(BUFFER_SIZE);
      rsn := new Byte[MAX_RSN_SIZE];
      receiving := false;
      currentChannel := channel;
      beacons := [];
    }

    /** Under the lock, on the receive path. */
    method ProcessResponse(header: array<Byte>, rsnBytes: array<Byte>)
      requires Valid() && header != buffer.data && rsnBytes != buffer.data && header != rsnBytes
      requires Beacon(header[..], rsnBytes[..]).Valid()
      modifies `beacons, buffer`write, buffer.data, header
      ensures Valid() && Snapshot() == Accept(old(Snapshot()), Beacon(old(header[..]), rsnBytes[..]))
      ensures var fits := receiving && rsnBytes.Length <= 255 && |old(buffer.Contents())| + HEADER_SIZE + rsnBytes.Length <= BUFFER_SIZE;
        if fits then
          && |beacons| == |old(beacons)| + 1 && beacons[..|old(beacons)|] == old(beacons)
          && RecordOf(Capture(Beacon(old(header[..]), rsnBytes[..]), currentChannel), Capture(beacons[|old(beacons)|], currentChannel))
        else beacons == old(beacons)
    {
      ghost var b := Beacon(header[..], rsnBytes[..]);
      if !receiving || rsnBytes.Length > MAX_RSN_SIZE {
        return;
      }
      var recordSize := HEADER_SIZE + rsnBytes.Length;
      if buffer.FreeSpace() < recordSize {
        return;
      }
      if header[CHANNEL] == 0 {
        header[CHANNEL] := currentChannel;
      }
      assert header[..] == b.Stamped(currentChannel).header;
      StampedIsValid(b, currentChannel);
      Append(header, rsnBytes);
    }

    /** Two writes, neither of them cut short. */
    method Append(header: array<Byte>, rsnBytes: array<Byte>)
      requires Valid() && header != buffer.data && rsnBytes != buffer.data
      requires Beacon(header[..], rsnBytes[..]).Recorded() && |Frames(beacons)| + header.Length + rsnBytes.Length <= BUFFER_SIZE
      modifies `beacons, buffer`write, buffer.data
      ensures Valid() && beacons == old(beacons) + [Beacon(header[..], rsnBytes[..])]
    {
      FramesAppend(beacons, Beacon(header[..], rsnBytes[..]));
      var n := buffer.Write(header, HEADER_SIZE);
      assert header[..n] == header[..];
      var m := buffer.Write(rsnBytes, rsnBytes.Length);
      assert rsnBytes[..m] == rsnBytes[..];
      beacons := beacons + [Beacon(header[..], rsnBytes[..])];
    }

    /** Read back one record; neither read is ever short. */
    method ReadBeacon(header: array<Byte>) returns (complete: bool, size: nat)
      requires Valid() && beacons != [] && header.Length == HEADER_SIZE && header != buffer.data && header != rsn
      modifies `beacons, buffer`read, header, rsn
      ensures Valid() && complete && size <= MAX_RSN_SIZE
      ensures Beacon(header[..], rsn[..size]) == old(beacons)[0] && beacons == old(beacons)[1..]
    {
      ghost var b := beacons[0];
      FramesHead(beacons);
      complete, size := false, 0;
      var n := buffer.Read(header, HEADER_SIZE);
      if n != HEADER_SIZE {
        return;
      }
      assert header[..] == b.header && b.Recorded();
      size := LittleEndian(header[RSN_SIZE..]);
      var m := buffer.Read(rsn, size);
      if m != size {
        return;
      }
      assert rsn[..size] == b.rsn;
      beacons := beacons[1..];
      complete := true;
    }

    /** The drain loop: every recorded beacon is read back, in order, and the buffer ends empty. */
    method Drain(short: set<nat>) returns (found: seq<Beacon>)
      requires Valid()
      modifies `beacons, buffer`read, rsn
      ensures Valid() && beacons == [] && Captures(found, currentChannel) == Handed(Captures(old(beacons), currentChannel), short)
    {
      hide IndividualAddress, Frames, Captures, Handed, LittleEndian;
      NothingFramed(currentChannel, short);
      found := [];
      ghost var all := beacons;
      var done := 0;   // the number of the record, for whether there is memory
      while buffer.DataCount() >= HEADER_SIZE
        invariant Valid() && done <= |all| && beacons == all[done..]
        invariant Captures(found, currentChannel) == Handed(Captures(all[..done], currentChannel), short)
        decreases |beacons|
      {
        assert beacons != [];
        var header := new Byte[HEADER_SIZE];
        var complete, size := ReadBeacon(header);
        if !complete {
          break;
        }
        OneMore(all[..done], all[done], currentChannel, short, found);
        assert all[..done + 1] == all[..done] + [all[done]];
        var memory := done !in short;
        done := done + 1;
        var valid := ValidBssid(header[..ADDRESS_SIZE]);
        if header[CHANNEL] != currentChannel || !valid {
          continue;
        }
        if !memory {
          continue;
        }
        found := found + [Beacon(header[..], rsn[..size])];
      }
      if beacons != [] {
        FramesHead(beacons);
      }
      assert all[..done] == all;
    }

    /** One run of the work: stop receiving, drain, move on to the next channel if there is one. */
    method Work(rules: Rules, short: set<nat>) returns (found: seq<Beacon>, next: int)
      requires Valid()
      modifies `receiving, `currentChannel, `beacons, buffer`read, rsn
      ensures Valid() && IsNext(rules, old(currentChannel) as nat, next)
      ensures Captures(found, old(currentChannel)) == Handed(Captures(old(beacons), old(currentChannel)), short)
      ensures Snapshot() == if next < 0 then Pipeline(old(currentChannel), false, []) else Pipeline(next as Byte, true, [])
    {
      receiving := false;
      found := Drain(short);
      next := NextChannel(rules, currentChannel as nat);
      if next < 0 {
        return;
      }
      currentChannel := next as Byte;
      receiving := true;
    }
  }
}

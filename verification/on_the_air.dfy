/** Transmission and reception in bytes: what exactly goes on the air, and which frames are handed up.
    Sections 9.2.4, 12.5.2.2 and 12.5.3.2 of IEEE Std 802.11-2016, and RFC 1042. */
module OnTheAir {
  import Association
  import opened Bytes
  import opened Frames
  import opened Headers
  import opened KeyStores
  import opened Michael
  import opened Options

  // ----- What goes on the air -----

  /** The header of a data frame to the access point: no duration, then access point, source and destination. */
  ghost function DataHeader(high: Byte, ap: MacAddress, ethernet: seq<Byte>, sequenceControl: Short): seq<Byte>
    requires |ethernet| >= 14
  {
    [0x08, high, 0, 0] + ap + ethernet[6..12] + ethernet[..6] + [(sequenceControl % 256) as Byte, (sequenceControl / 256) as Byte]
  }

  /** LLC/SNAP, and the Ethernet frame from its type on. */
  ghost function Snap(ethernet: seq<Byte>): seq<Byte>
    requires |ethernet| >= 14
  {
    [0xaa, 0xaa, 0x03, 0, 0, 0] + ethernet[12..]
  }

  lemma HeaderBytes(ap: MacAddress, ethernet: seq<Byte>, sequenceControl: Short)
    requires |ethernet| >= 14
    ensures var h := HeaderFor(ap, ethernet, sequenceControl);
      && HeaderSize(h.frameControl) == Some(24) == HeaderSize(Protect(h).frameControl)
      && Serialized(h) == DataHeader(0x01, ap, ethernet, sequenceControl)
      && Serialized(Protect(h)) == DataHeader(0x41, ap, ethernet, sequenceControl)
      && Body(ethernet) == Snap(ethernet)
  {
    BodyComesBack(ap, ethernet, sequenceControl);
    assert Le16(0x108) == [0x08, 0x01] && Le16(0x4108) == [0x08, 0x41] && Le16(0) == [0, 0];
    assert [0x08, 0x01, 0, 0] == [0x08, 0x01] + [0, 0] && [0x08, 0x41, 0, 0] == [0x08, 0x41] + [0, 0];
  }

  /** Without a key: the header, and the frame behind LLC/SNAP. */
  lemma OpenOnAir(keys: seq<Key>, me: MacAddress, ap: MacAddress, ethernet: seq<Byte>, sequenceControl: Short)
    requires |ethernet| >= 14 && Selected(keys, me, HeaderFor(ap, ethernet, sequenceControl)) == |keys|
    ensures Transmission(keys, me, Some(ap), ethernet, sequenceControl) ==
      (keys, OnAir(DataHeader(0x01, ap, ethernet, sequenceControl) + Snap(ethernet), -1, None))
  {
    hide Selected, Serialized, Body;
    HeaderBytes(ap, ethernet, sequenceControl);
  }

  /** Under a CCMP key: the number is one more than the last, and its bytes are around the key number. */
  lemma CcmpOnAir(keys: seq<Key>, me: MacAddress, ap: MacAddress, ethernet: seq<Byte>, sequenceControl: Short, i: nat)
    requires |ethernet| >= 14 && i == Selected(keys, me, HeaderFor(ap, ethernet, sequenceControl)) < |keys|
    requires keys[i].cipher == Ccmp && keys[i].index <= 3 && LittleEndian(keys[i].tx) < 0xffff_ffff_ffff
    ensures var (keys', outcome) := Transmission(keys, me, Some(ap), ethernet, sequenceControl);
      |keys'| == |keys| && |keys'[i].tx| == 6 &&
      var n := keys'[i].tx;
      && LittleEndian(n) == LittleEndian(keys[i].tx) + 1 && keys' == keys[i := keys[i].(tx := n)]
      && outcome == OnAir(DataHeader(0x41, ap, ethernet, sequenceControl)
          + ([n[0], n[1], 0, 0x20 + 64 * keys[i].index, n[2], n[3], n[4], n[5]] + Snap(ethernet)), keys[i].index as int, Some(Ccmp))
  {
    hide Selected, SelectedAt, Serialized, Body, Transmission, Protect, KeyIdByte, HeaderFor;
    var h := HeaderFor(ap, ethernet, sequenceControl);
    HeaderBytes(ap, ethernet, sequenceControl);
    SentProtected(keys, me, ap, ethernet, sequenceControl, h, i);
    NumberLeft(keys[i]);
    KeyNumber(keys[i].index);
  }

  /** Under a TKIP key: the number and the key number in front, and the code behind. */
  lemma TkipOnAir(keys: seq<Key>, me: MacAddress, ap: MacAddress, ethernet: seq<Byte>, sequenceControl: Short, i: nat)
    requires |ethernet| >= 14 && i == Selected(keys, me, HeaderFor(ap, ethernet, sequenceControl)) < |keys|
    requires keys[i].cipher == Tkip && |keys[i].material| == 32 && keys[i].index <= 3 && LittleEndian(keys[i].tx) < 0xffff_ffff_ffff
    ensures var (keys', outcome) := Transmission(keys, me, Some(ap), ethernet, sequenceControl);
      |keys'| == |keys| && |keys'[i].tx| == 6 &&
      var n, mic := keys'[i].tx, Mic(keys[i].material[16..24], ethernet[..6], ethernet[6..12], 0, Snap(ethernet));
      && LittleEndian(n) == LittleEndian(keys[i].tx) + 1 && keys' == keys[i := keys[i].(tx := n)]
      && outcome == OnAir(DataHeader(0x41, ap, ethernet, sequenceControl)
          + ([n[1], SeedByte(n[1]), n[0], 0x20 + 64 * keys[i].index, n[2], n[3], n[4], n[5]] + Snap(ethernet) + mic), keys[i].index as int, Some(Tkip))
  {
    hide Selected, SelectedAt, Serialized, Body, Transmission, Protect, KeyIdByte, Mic, SeedByte;
    var h := HeaderFor(ap, ethernet, sequenceControl);
    HeaderBytes(ap, ethernet, sequenceControl);
    SentProtected(keys, me, ap, ethernet, sequenceControl, h, i);
    NumberLeft(keys[i]);
    KeyNumber(keys[i].index);
  }

  lemma KeyNumber(key: Byte)
    requires key <= 3
    ensures KeyIdByte(key) == 0x20 + 64 * key
  {
    assert key == 0 || key == 1 || key == 2 || key == 3;
  }

  /** The seed byte of a TKIP header has bit 5 set and bit 7 clear, and the others of the number's byte. */
  lemma SeedBits(b: Byte, k: nat)
    requires k < 8
    ensures Bit(SeedByte(b), k) <==> k == 5 || (k != 7 && Bit(b, k))
  {
    BitsBack(((b as bv8) | 0x20) & 0x7f);
    SeedVector(b as bv8, k);
  }

  lemma SeedVector(x: bv8, k: nat)
    requires k < 8
    ensures ((x | 0x20) & 0x7f) & Mask(k) != 0 <==> k == 5 || (k != 7 && x & Mask(k) != 0)
  {
    MaskIsPower(k);
    assert k == 0 || k == 1 || k == 2 || k == 3 || k == 4 || k == 5 || k == 6 || k == 7;
  }

  /** When nothing is sent, the keys stay as they are, and the status says why. */
  lemma RefusedExactly(keys: seq<Key>, me: MacAddress, ap: Option<MacAddress>, ethernet: seq<Byte>, sequenceControl: Short)
    ensures ap.None? ==> Transmission(keys, me, ap, ethernet, sequenceControl) == (keys, Refused(NotAssociated))
    ensures ap.Some? && |ethernet| < 14 ==> Transmission(keys, me, ap, ethernet, sequenceControl) == (keys, Refused(NotEnoughSpace))
    ensures ap.Some? && |ethernet| >= 14 ==>
      var i := Selected(keys, me, HeaderFor(ap.value, ethernet, sequenceControl));
      i < |keys| ==>
        var (k, r) := (keys[i], Transmission(keys, me, ap, ethernet, sequenceControl));
        && (k.index <= 3 && k.cipher != Ccmp && k.cipher != Tkip ==> r == (keys, Refused(NoCipher)))
        && (k.index > 3 ==> r == (keys, Refused(NotPermitted)))
        && (k.cipher in {Ccmp, Tkip} && LittleEndian(k.tx) >= 0xffff_ffff_ffff ==> r == (keys, Refused(NotPermitted)))
        && (k.cipher == Tkip && |k.material| != 32 ==> r == (keys, Refused(NotPermitted)))
  {
    if ap.Some? && |ethernet| >= 14 {
      var h := HeaderFor(ap.value, ethernet, sequenceControl);
      var i := Selected(keys, me, h);
      if i < |keys| { UnsentUnder(keys, me, ap.value, ethernet, sequenceControl, h, i); }
    }
  }

  lemma UnsentUnder(keys: seq<Key>, me: MacAddress, ap: MacAddress, ethernet: seq<Byte>, sequenceControl: Short, h: Header, i: nat)
    requires |ethernet| >= 14 && h == HeaderFor(ap, ethernet, sequenceControl) && i == Selected(keys, me, h) < |keys|
    ensures var k, r := keys[i], Transmission(keys, me, Some(ap), ethernet, sequenceControl);
      && (k.index <= 3 && k.cipher != Ccmp && k.cipher != Tkip ==> r == (keys, Refused(NoCipher)))
      && (k.index > 3 ==> r == (keys, Refused(NotPermitted)))
      && (k.cipher in {Ccmp, Tkip} && LittleEndian(k.tx) >= 0xffff_ffff_ffff ==> r == (keys, Refused(NotPermitted)))
      && (k.cipher == Tkip && |k.material| != 32 ==> r == (keys, Refused(NotPermitted)))
  {
    hide Selected, SelectedAt, Serialized, Body, Mic, CcmpHeader, TkipHeader;
    NumberLeft(keys[i]);
    if keys[i].index <= 3 { SentProtected(keys, me, ap, ethernet, sequenceControl, h, i); }
  }

  // ----- Which frames are handed up -----

  /** The packet is a data frame for this station or a group, and opens to this body. */
  ghost predicate Carries(keys: seq<Key>, me: MacAddress, packet: seq<Byte>, h: Header, body: seq<Byte>) {
    && Deserialized(packet).Some? && Deserialized(packet).value.0 == h
    && Opened(keys, me, h, packet[Deserialized(packet).value.1..]).1 == Some(body)
    && h.frameControl / 4 % 4 == 2 && (h.address1 == me || h.address1[0] % 2 == 1)
  }

  predicate IsRetry(h: Header) {
    h.frameControl / 0x800 % 2 == 1
  }

  /** What is handed up for a header and a body: the Ethernet frame, where the body begins with LLC/SNAP. */
  lemma HandedUpExactly(h: Header, body: seq<Byte>)
    ensures var toDs, fromDs := h.frameControl / 0x100 % 2 == 1, h.frameControl / 0x200 % 2 == 1;
      Decapsulated(h, body) ==
        if |body| < 8 || body[..6] != [0xaa, 0xaa, 0x03, 0, 0, 0] then None
        else Some((if toDs then h.address3 else h.address1)
          + (if !fromDs then h.address2 else if toDs then h.address4 else h.address3) + body[6..])
  {
  }

  /** Two frames from the access point, one after the other: the second is handed up unless it is a
      retransmission with the number of the first, and its number is then the one remembered. */
  lemma RepeatedExactly(keys: seq<Key>, me: MacAddress, ap: MacAddress, received: Option<Short>,
                        p: seq<Byte>, f: Header, fBody: seq<Byte>, q: seq<Byte>, g: Header, gBody: seq<Byte>)
    requires Carries(keys, me, p, f, fBody) && f.address2 == ap
    requires Carries(Received(keys, me, Some(ap), received, p).keys, me, q, g, gBody) && g.address2 == ap
    ensures var first := Received(keys, me, Some(ap), received, p);
      var second := Received(first.keys, me, Some(ap), first.received, q);
      && first.received == Some(f.sequenceControl) && second.received == Some(g.sequenceControl)
      && second.delivered == if IsRetry(g) && g.sequenceControl == f.sequenceControl then None else Decapsulated(g, gBody)
  {
    hide Deserialized, Opened, Decapsulated;
  }

  /** The first frame from a new access point, and every frame of another station, is never taken for a repetition. */
  lemma NotRepeated(keys: seq<Key>, me: MacAddress, ap: Option<MacAddress>, received: Option<Short>, p: seq<Byte>, f: Header, body: seq<Byte>)
    requires Carries(keys, me, p, f, body) && (received.None? || ap != Some(f.address2) || !IsRetry(f))
    ensures var r := Received(keys, me, ap, received, p);
      && r.delivered == Decapsulated(f, body)
      && r.received == if ap == Some(f.address2) then Some(f.sequenceControl) else received
  {
    hide Deserialized, Opened, Decapsulated;
  }

  /** Nothing else is handed up or remembered. */
  lemma OnlyCarriedFrames(keys: seq<Key>, me: MacAddress, ap: Option<MacAddress>, received: Option<Short>, p: seq<Byte>)
    ensures var r := Received(keys, me, ap, received, p);
      r.delivered.Some? || r.received != received ==>
        Deserialized(p).Some? &&
        var (h, n) := Deserialized(p).value;
        Opened(keys, me, h, p[n..]).1.Some? && Carries(keys, me, p, h, Opened(keys, me, h, p[n..]).1.value)
  {
    hide Deserialized, Opened, Decapsulated, Deduplicated;
  }

  /** The filter of the data path is the filter of the association, for a device that is associated. */
  lemma FilterAgrees(d: Association.Device, f: Association.Numbered, ap: Option<MacAddress>, received: Option<Short>, h: Header)
    requires f.retry == IsRetry(h) && f.sequenceControl == h.sequenceControl && d.received == received
    requires d.state == Association.Associated && d.ap.Some? && d.ap.value.address == f.from <==> ap == Some(h.address2)
    ensures var (received', duplicate) := Deduplicated(received, ap, h);
      Association.Filter(d, Association.Associated, f) == (d.(received := received'), duplicate)
  {
  }

  // ----- What opens -----

  lemma KeyNumberBack(b: Byte)
    ensures KeyIdOf(b) as nat == b as nat / 64 && (ExtIv(b) <==> b as nat / 32 % 2 == 1)
  {
    HighTwoIsQuotient(b);
    BitIsDigit(b, 5);
    MaskIsPower(5);
  }

  /** A protected frame under CCMP opens exactly when it has room for header and trailer, says that it
      has a number, and that number is newer; what is in between is the body. */
  lemma CcmpOpensExactly(keys: seq<Key>, me: MacAddress, h: Header, body: seq<Byte>, j: nat)
    requires |body| >= 4 && j == SelectedAt(keys, me, h, (body[3] as nat / 64) as Byte) < |keys| && keys[j].cipher == Ccmp
    ensures Unprotected(keys, me, h, body) ==
      if |body| >= 16 && body[3] as nat / 32 % 2 == 1
        && LittleEndian([body[0], body[1], body[4], body[5], body[6], body[7]]) > LittleEndian(keys[j].rx) then
        (keys[j := keys[j].(rx := [body[0], body[1], body[4], body[5], body[6], body[7]])], Some(body[8..|body| - 8]))
      else (keys, None)
  {
    hide SelectedAt, LittleEndian, KeyIdOf, ExtIv, UnprotectedTkip;
    KeyNumberBack(body[3]);
  }

  /** Under TKIP it must also be plain data, repeat the byte of its number as it should, and carry the
      right code for its addresses. */
  lemma TkipOpensExactly(keys: seq<Key>, me: MacAddress, h: Header, body: seq<Byte>, j: nat)
    requires |body| >= 4 && j == SelectedAt(keys, me, h, (body[3] as nat / 64) as Byte) < |keys| && keys[j].cipher == Tkip
    ensures Unprotected(keys, me, h, body) ==
      if |body| >= 20 && h.frameControl / 4 % 4 == 2 && h.frameControl / 16 % 16 == 0 && body[3] as nat / 32 % 2 == 1
        && body[1] == SeedByte(body[0]) && |keys[j].material| == 32
        && LittleEndian([body[2], body[0], body[4], body[5], body[6], body[7]]) > LittleEndian(keys[j].rx)
        && body[|body| - 12..|body| - 4] == Mic(keys[j].material[24..32], Destination(h), Source(h), 0, body[8..|body| - 12]) then
        (keys[j := keys[j].(rx := [body[2], body[0], body[4], body[5], body[6], body[7]])], Some(body[8..|body| - 12]))
      else (keys, None)
  {
    hide SelectedAt, LittleEndian, KeyIdOf, ExtIv, SeedByte, UnprotectedCcmp, Mic, Destination, Source;
    KeyNumberBack(body[3]);
  }

  /** Under no key, or another cipher, nothing opens. */
  lemma NothingElseOpens(keys: seq<Key>, me: MacAddress, h: Header, body: seq<Byte>)
    requires |body| >= 4 ==>
      var j := SelectedAt(keys, me, h, (body[3] as nat / 64) as Byte); j < |keys| ==> keys[j].cipher != Ccmp && keys[j].cipher != Tkip
    ensures Unprotected(keys, me, h, body) == (keys, None)
  {
    hide SelectedAt, KeyIdOf;
    if |body| >= 4 { KeyNumberBack(body[3]); }
  }
}

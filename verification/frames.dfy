/** Ethernet frames over 802.11: what transmission makes of a frame and reception makes of it again.
    LLC/SNAP as in RFC 1042; the CCMP and TKIP headers as in sections 12.5.3.2 and 12.5.2.2 of
    IEEE Std 802.11-2016. */
module Frames {
  import opened Bytes
  import opened Headers
  import opened KeyStores
  import opened Michael
  import opened Options

  const ETHERNET_HEADER_SIZE: nat := 14
  const ETHERNET_MAX_FRAME_SIZE: nat := 1514
  const LLCSNAP_SIZE: nat := 8
  const TX_BUFFER_HEADROOM: nat := 64
  const TX_BUFFER_TAILROOM: nat := 8
  const CIPHER_HEADER_SIZE: nat := 8
  const CCMP_MIC_SIZE: nat := 8
  const TKIP_MIC_SIZE: nat := 8
  const TKIP_ICV_SIZE: nat := 4
  const LLC_SNAP: seq<Byte> := [0xaa, 0xaa, 0x03, 0, 0, 0]
  const DATA_TO_DS: Short := 0x108

  datatype TxStatus = NotAssociated | NotEnoughSpace | NotPermitted | NoCipher

  /** A refusal, or the frame as the driver gets it, with the key and the cipher the hardware is to use. */
  datatype Outcome = Refused(status: TxStatus) | OnAir(frame: seq<Byte>, key: int, cipher: Option<Cipher>)

  // ----- Cipher headers -----

  function KeyIdByte(key: Byte): Byte
    requires key <= 3
  {
    (0x20 | ((key as bv8) << 6)) as Byte
  }

  function KeyIdOf(b: Byte): Byte {
    ((b as bv8) >> 6) as Byte
  }

  predicate ExtIv(b: Byte) {
    (b as bv8) & 0x20 != 0
  }

  function SeedByte(b: Byte): Byte {
    (((b as bv8) | 0x20) & 0x7f) as Byte
  }

  lemma KeyIdBack(key: Byte)
    requires key <= 3
    ensures KeyIdOf(KeyIdByte(key)) == key && ExtIv(KeyIdByte(key))
  {
    BitsBack(0x20 | ((key as bv8) << 6));
    assert key == 0 || key == 1 || key == 2 || key == 3;
  }

  function CcmpHeader(key: Byte, s: seq<Byte>): (h: seq<Byte>)
    requires key <= 3 && |s| == SEQUENCE_SIZE
    ensures |h| == CIPHER_HEADER_SIZE
  {
    [s[0], s[1], 0, KeyIdByte(key), s[2], s[3], s[4], s[5]]
  }

  function CcmpSequence(h: seq<Byte>): (s: seq<Byte>)
    requires |h| >= CIPHER_HEADER_SIZE
    ensures |s| == SEQUENCE_SIZE
  {
    [h[0], h[1], h[4], h[5], h[6], h[7]]
  }

  function TkipHeader(key: Byte, s: seq<Byte>): (h: seq<Byte>)
    requires key <= 3 && |s| == SEQUENCE_SIZE
    ensures |h| == CIPHER_HEADER_SIZE
  {
    [s[1], SeedByte(s[1]), s[0], KeyIdByte(key), s[2], s[3], s[4], s[5]]
  }

  function TkipSequence(h: seq<Byte>): (s: seq<Byte>)
    requires |h| >= CIPHER_HEADER_SIZE
    ensures |s| == SEQUENCE_SIZE
  {
    [h[2], h[0], h[4], h[5], h[6], h[7]]
  }

  // ----- Transmission -----

  /** The body of a data frame: LLC/SNAP in front of the Ethernet type and payload. */
  ghost function Body(ethernet: seq<Byte>): seq<Byte>
    requires |ethernet| >= ETHERNET_HEADER_SIZE
  {
    LLC_SNAP + ethernet[12..]
  }

  function HeaderFor(ap: MacAddress, ethernet: seq<Byte>, sequenceControl: Short): Header
    requires |ethernet| >= ETHERNET_HEADER_SIZE
  {
    Header(DATA_TO_DS, 0, ap, ethernet[6..12], ethernet[..6], Zeros(6), sequenceControl)
  }

  function Protect(h: Header): Header {
    if Flag(h.frameControl, PROTECTED_FRAME) then h else h.(frameControl := h.frameControl + PROTECTED_FRAME)
  }

  ghost function TkipDataFor(h: Header, key: Byte, body: seq<Byte>): TkipData {
    TkipData(h, key, h.address3, h.address2, 0, body)
  }

  ghost function Protected(keys: seq<Key>, me: MacAddress, h: Header, key: Byte, cipher: Option<Cipher>, body: seq<Byte>): (seq<Key>, Outcome)
    requires key <= 3 && HeaderSize(Protect(h).frameControl).Some?
  {
    match cipher
    case Some(Ccmp) =>
      var (keys', sequence) := NextTx(keys, me, h, key, Ccmp);
      if sequence.None? || |sequence.value| != SEQUENCE_SIZE then (keys', Refused(NotPermitted))
      else (keys', OnAir(Serialized(Protect(h)) + (CcmpHeader(key, sequence.value) + body), key as int, cipher))
    case Some(Tkip) =>
      var (keys', prepared) := NextTkip(keys, me, TkipDataFor(h, key, body));
      if prepared.None? || |prepared.value.0| != SEQUENCE_SIZE then (keys', Refused(NotPermitted))
      else (keys', OnAir(Serialized(Protect(h)) + (TkipHeader(key, prepared.value.0) + body + prepared.value.1), key as int, cipher))
    case _ => (keys, Refused(NoCipher))
  }

  ghost function UnderSelectedKey(keys: seq<Key>, me: MacAddress, h: Header, body: seq<Byte>): (seq<Key>, Outcome)
    requires HeaderSize(h.frameControl).Some? && HeaderSize(Protect(h).frameControl).Some?
  {
    var i := Selected(keys, me, h);
    if i == |keys| then (keys, OnAir(Serialized(h) + body, -1, None))
    else if keys[i].index > 3 then (keys, Refused(NotPermitted))
    else
      var j := SelectedAt(keys, me, h, keys[i].index);
      Protected(keys, me, h, keys[i].index, if j < |keys| then Some(keys[j].cipher) else None, body)
  }

  /** All of transmission: the keys afterwards, and what becomes of the frame. */
  ghost function Transmission(keys: seq<Key>, me: MacAddress, ap: Option<MacAddress>, ethernet: seq<Byte>, sequenceControl: Short)
    : (seq<Key>, Outcome)
  {
    if ap.None? then (keys, Refused(NotAssociated))
    else if |ethernet| < ETHERNET_HEADER_SIZE then (keys, Refused(NotEnoughSpace))
    else UnderSelectedKey(keys, me, HeaderFor(ap.value, ethernet, sequenceControl), Body(ethernet))
  }

  // ----- Reception -----

  function Destination(h: Header): MacAddress {
    if Flag(h.frameControl, TO_DS) then h.address3 else h.address1
  }

  function Source(h: Header): MacAddress {
    if Flag(h.frameControl, TO_DS) then if Flag(h.frameControl, FROM_DS) then h.address4 else h.address2
    else if Flag(h.frameControl, FROM_DS) then h.address3 else h.address2
  }

  /** The Ethernet frame in the body of a data frame. */
  ghost function Decapsulated(h: Header, body: seq<Byte>): Option<seq<Byte>> {
    if |body| < LLCSNAP_SIZE || body[..6] != LLC_SNAP then None else Some(Destination(h) + Source(h) + body[6..])
  }

  ghost function UnprotectedCcmp(keys: seq<Key>, me: MacAddress, h: Header, key: Byte, body: seq<Byte>): (seq<Key>, Option<seq<Byte>>) {
    if |body| < CIPHER_HEADER_SIZE + CCMP_MIC_SIZE || !ExtIv(body[3]) then (keys, None)
    else
      var (keys', ok) := AcceptRx(keys, me, h, key, Ccmp, CcmpSequence(body));
      (keys', if ok then Some(body[CIPHER_HEADER_SIZE..|body| - CCMP_MIC_SIZE]) else None)
  }

  ghost function UnprotectedTkip(keys: seq<Key>, me: MacAddress, h: Header, key: Byte, body: seq<Byte>): (seq<Key>, Option<seq<Byte>>) {
    if FrameType(h.frameControl) != TYPE_DATA || Subtype(h.frameControl) != SUBTYPE_DATA then (keys, None)
    else if |body| < CIPHER_HEADER_SIZE + TKIP_MIC_SIZE + TKIP_ICV_SIZE || !ExtIv(body[3]) || body[1] != SeedByte(body[0]) then (keys, None)
    else
      var end := |body| - TKIP_MIC_SIZE - TKIP_ICV_SIZE;
      var payload, mic := body[CIPHER_HEADER_SIZE..end], body[end..end + TKIP_MIC_SIZE];
      var (keys', ok) := AcceptTkip(keys, me, TkipData(h, key, Destination(h), Source(h), 0, payload), TkipSequence(body), mic);
      (keys', if ok then Some(payload) else None)
  }

  ghost function Unprotected(keys: seq<Key>, me: MacAddress, h: Header, body: seq<Byte>): (seq<Key>, Option<seq<Byte>>) {
    if |body| < 4 then (keys, None)
    else
      var key := KeyIdOf(body[3]);
      var j := SelectedAt(keys, me, h, key);
      if j < |keys| && keys[j].cipher == Ccmp then UnprotectedCcmp(keys, me, h, key, body)
      else if j < |keys| && keys[j].cipher == Tkip then UnprotectedTkip(keys, me, h, key, body)
      else (keys, None)
  }

  /** The body of a frame, without its protection if it has any. */
  ghost function Opened(keys: seq<Key>, me: MacAddress, h: Header, body: seq<Byte>): (seq<Key>, Option<seq<Byte>>) {
    if Flag(h.frameControl, PROTECTED_FRAME) then Unprotected(keys, me, h, body) else (keys, Some(body))
  }

  /** The sequence control last received from the access point, and whether this frame repeats it. */
  function Deduplicated(received: Option<Short>, ap: Option<MacAddress>, h: Header): (Option<Short>, bool) {
    if ap != Some(h.address2) then (received, false)
    else if Flag(h.frameControl, RETRY) && received == Some(h.sequenceControl) then (received, true)
    else (Some(h.sequenceControl), false)
  }

  /** What reception leaves behind: the keys, the last sequence control, and the frame handed up. */
  datatype Reception = Reception(keys: seq<Key>, received: Option<Short>, delivered: Option<seq<Byte>>)

  /** What becomes of a data frame once its protection is off: a repetition is dropped, and the body of
      any other frame is handed up. */
  ghost function Accepted(keys: seq<Key>, ap: Option<MacAddress>, received: Option<Short>, h: Header, body: seq<Byte>): Reception {
    var (received', duplicate) := Deduplicated(received, ap, h);
    Reception(keys, received', if duplicate then None else Decapsulated(h, body))
  }

  ghost function Received(keys: seq<Key>, me: MacAddress, ap: Option<MacAddress>, received: Option<Short>, packet: seq<Byte>): Reception {
    if Deserialized(packet).None? then Reception(keys, received, None)
    else
      var (h, n) := Deserialized(packet).value;
      var (keys', body) := Opened(keys, me, h, packet[n..]);
      if body.None? || FrameType(h.frameControl) != TYPE_DATA || (h.address1 != me && !IsGroup(h.address1)) then
        Reception(keys', received, None)
      else Accepted(keys', ap, received, h, body.value)
  }

  // ----- There and back -----

  lemma SelectedHasIndex(keys: seq<Key>, me: MacAddress, h: Header)
    requires Selected(keys, me, h) < |keys|
    ensures SelectedAt(keys, me, h, keys[Selected(keys, me, h)].index) == Selected(keys, me, h)
  {
    var i := Selected(keys, me, h);
    FirstIs(keys, k => MatchesAt(k, me, h, keys[i].index), i);
  }

  /** The addresses, the type and the payload come back from the header and the body. */
  lemma BodyComesBack(ap: MacAddress, ethernet: seq<Byte>, sequenceControl: Short)
    requires |ethernet| >= ETHERNET_HEADER_SIZE
    ensures var h := HeaderFor(ap, ethernet, sequenceControl);
      && Decapsulated(h, Body(ethernet)) == Some(ethernet) == Decapsulated(Protect(h), Body(ethernet))
      && Destination(Protect(h)) == h.address3 && Source(Protect(h)) == h.address2
      && FrameType(Protect(h).frameControl) == TYPE_DATA && Subtype(Protect(h).frameControl) == SUBTYPE_DATA
      && HeaderSize(h.frameControl) == Some(24) == HeaderSize(Protect(h).frameControl)
      && Protect(h) == h.(frameControl := 0x4108)
  {
    assert ethernet == ethernet[..6] + ethernet[6..12] + ethernet[12..];
    assert Body(ethernet)[..6] == LLC_SNAP && Body(ethernet)[6..] == ethernet[12..];
  }

  /** Without a key, every frame comes through as it was, and its sequence control is recorded. */
  lemma OpenComesThrough(keys: seq<Key>, me: MacAddress, ap: MacAddress, ethernet: seq<Byte>, sequenceControl: Short,
                         theirKeys: seq<Key>, from: Option<MacAddress>, received: Option<Short>)
    requires |ethernet| >= ETHERNET_HEADER_SIZE && Selected(keys, me, HeaderFor(ap, ethernet, sequenceControl)) == |keys|
    ensures var (keys', outcome) := Transmission(keys, me, Some(ap), ethernet, sequenceControl);
      && keys' == keys && outcome.OnAir? && outcome.cipher.None?
      && Received(theirKeys, ap, from, received, outcome.frame) ==
        Reception(theirKeys, Deduplicated(received, from, HeaderFor(ap, ethernet, sequenceControl)).0, Some(ethernet))
  {
    hide Serialized, Deserialized, Decapsulated, Selected;
    var h := HeaderFor(ap, ethernet, sequenceControl);
    BodyComesBack(ap, ethernet, sequenceControl);
    HeaderComesBack(h, Body(ethernet));
    assert (Serialized(h) + Body(ethernet))[24..] == Body(ethernet);
  }

  /** The addresses of a data frame in each direction, as section 9.3.2.1 of IEEE Std 802.11-2016
      lays them out; `hop` is the access point, or the receiver of a frame relayed between two. */
  function AddressedHeader(toDs: bool, fromDs: bool, ethernet: seq<Byte>, hop: MacAddress, relay: MacAddress, sequenceControl: Short): Header
    requires |ethernet| >= ETHERNET_HEADER_SIZE
  {
    var destination, source := ethernet[..6], ethernet[6..12];
    if toDs && fromDs then Header(0x308, 0, hop, relay, destination, source, sequenceControl)
    else if toDs then Header(0x108, 0, hop, source, destination, Zeros(6), sequenceControl)
    else if fromDs then Header(0x208, 0, destination, hop, source, Zeros(6), sequenceControl)
    else Header(0x008, 0, destination, source, hop, Zeros(6), sequenceControl)
  }

  /** In each of the four directions, an unprotected frame is handed up to its receiver as the
      Ethernet frame it carries. */
  lemma EveryDirectionComesThrough(toDs: bool, fromDs: bool, ethernet: seq<Byte>, hop: MacAddress, relay: MacAddress, sequenceControl: Short,
                                   keys: seq<Key>, me: MacAddress, ap: Option<MacAddress>, received: Option<Short>)
    requires |ethernet| >= ETHERNET_HEADER_SIZE
    ensures var h := AddressedHeader(toDs, fromDs, ethernet, hop, relay, sequenceControl);
      HeaderSize(h.frameControl) == Some(if toDs && fromDs then 30 else 24)
      && Received(keys, me, ap, received, Serialized(h) + Body(ethernet)) ==
        if h.address1 == me || IsGroup(h.address1) then Reception(keys, Deduplicated(received, ap, h).0, Some(ethernet))
        else Reception(keys, received, None)
  {
    hide Serialized, Deserialized;
    var h := AddressedHeader(toDs, fromDs, ethernet, hop, relay, sequenceControl);
    HeaderComesBack(h, Body(ethernet));
    var n := HeaderSize(h.frameControl).value;
    assert (Serialized(h) + Body(ethernet))[n..] == Body(ethernet);
    assert ethernet == ethernet[..6] + ethernet[6..12] + ethernet[12..];
    assert Body(ethernet)[..6] == LLC_SNAP && Body(ethernet)[6..] == ethernet[12..];
  }

  /** The header of a protected data frame for this receiver, sent or sent again, in any direction. */
  ghost predicate ForReceiver(h: Header, me: MacAddress) {
    && HeaderSize(h.frameControl).Some? && Flag(h.frameControl, PROTECTED_FRAME)
    && FrameType(h.frameControl) == TYPE_DATA && Subtype(h.frameControl) == SUBTYPE_DATA
    && (h.address1 == me || IsGroup(h.address1)) && (HeaderSize(h.frameControl) == Some(24) ==> h.address4 == Zeros(6))
  }

  lemma ReadForReceiver(h: Header, me: MacAddress, rest: seq<Byte>)
    requires ForReceiver(h, me)
    ensures var n := HeaderSize(h.frameControl).value;
      Deserialized(Serialized(h) + rest) == Some((h, n)) && (Serialized(h) + rest)[n..] == rest
  {
    HeaderComesBack(h, rest);
  }

  /** A frame that went out under a cipher went through the one key selected for its header. */
  lemma SentProtected(keys: seq<Key>, me: MacAddress, ap: MacAddress, ethernet: seq<Byte>, sequenceControl: Short, h: Header, i: nat)
    requires |ethernet| >= ETHERNET_HEADER_SIZE && h == HeaderFor(ap, ethernet, sequenceControl)
    requires i == Selected(keys, me, h) < |keys| && keys[i].index <= 3
    ensures ForReceiver(Protect(h), ap) && !Flag(Protect(h).frameControl, RETRY) && SelectedAt(keys, me, h, keys[i].index) == i
    ensures Transmission(keys, me, Some(ap), ethernet, sequenceControl) ==
      Protected(keys, me, h, keys[i].index, Some(keys[i].cipher), Body(ethernet))
  {
    SelectedHasIndex(keys, me, h);
    BodyComesBack(ap, ethernet, sequenceControl);
    hide Selected, SelectedAt, Body, Protected;
  }

  /** Under a key whose number is not one of the four, or with a cipher the layer has no header for,
      nothing is sent. */
  lemma SentUnderSupportedKey(keys: seq<Key>, me: MacAddress, ap: MacAddress, ethernet: seq<Byte>, sequenceControl: Short, h: Header, i: nat)
    requires |ethernet| >= ETHERNET_HEADER_SIZE && h == HeaderFor(ap, ethernet, sequenceControl) && i == Selected(keys, me, h) < |keys|
    ensures Transmission(keys, me, Some(ap), ethernet, sequenceControl).1.OnAir? <==>
      keys[i].index <= 3 && Advanced(keys[i]).Some? && (keys[i].cipher == Ccmp || TkipKey(keys[i]))
  {
    hide Selected, SelectedAt, Body, Serialized, CcmpHeader, TkipHeader, Mic;
    if keys[i].index <= 3 {
      SentProtected(keys, me, ap, ethernet, sequenceControl, h, i);
    }
  }

  /** What CCMP sends. */
  lemma CcmpSent(keys: seq<Key>, me: MacAddress, h: Header, i: nat, body: seq<Byte>)
    requires i == Selected(keys, me, h) < |keys| && keys[i].index <= 3 && HeaderSize(Protect(h).frameControl).Some?
    requires Protected(keys, me, h, keys[i].index, Some(Ccmp), body).1.OnAir?
    ensures var (keys', outcome) := Protected(keys, me, h, keys[i].index, Some(Ccmp), body);
      && |keys'| == |keys| && |keys'[i].tx| == SEQUENCE_SIZE && LittleEndian(keys'[i].tx) == LittleEndian(keys[i].tx) + 1
      && outcome.frame == Serialized(Protect(h)) + (CcmpHeader(keys[i].index, keys'[i].tx) + body)
  {
    hide Serialized, Selected, SelectedAt, CcmpHeader, TkipHeader, NextTkip;
    BytesBack(LittleEndian(keys[i].tx) + 1, SEQUENCE_SIZE);
  }

  lemma CcmpLayout(key: Byte, sent: seq<Byte>, body: seq<Byte>, trailer: seq<Byte>)
    requires key <= 3 && |sent| == SEQUENCE_SIZE && |trailer| == CCMP_MIC_SIZE
    ensures var rest := CcmpHeader(key, sent) + body + trailer;
      && rest[3] == KeyIdByte(key) && CcmpSequence(rest) == sent
      && |rest| == CIPHER_HEADER_SIZE + |body| + CCMP_MIC_SIZE && rest[CIPHER_HEADER_SIZE..|rest| - CCMP_MIC_SIZE] == body
  {
    hide KeyIdByte;
  }

  lemma CcmpUnprotected(keys: seq<Key>, me: MacAddress, h: Header, key: Byte, sent: seq<Byte>, body: seq<Byte>, trailer: seq<Byte>)
    requires key <= 3 && |sent| == SEQUENCE_SIZE && |trailer| == CCMP_MIC_SIZE
    requires SelectedAt(keys, me, h, key) < |keys| && keys[SelectedAt(keys, me, h, key)].cipher == Ccmp
    ensures var j := SelectedAt(keys, me, h, key);
      Unprotected(keys, me, h, CcmpHeader(key, sent) + body + trailer) ==
        if LittleEndian(sent) > LittleEndian(keys[j].rx) then (keys[j := keys[j].(rx := sent)], Some(body)) else (keys, None)
  {
    hide SelectedAt, KeyIdByte, KeyIdOf, ExtIv, UnprotectedTkip, CcmpHeader, CcmpSequence;
    CcmpLayout(key, sent, body, trailer);
    KeyIdBack(key);
  }

  /** What reception makes of a CCMP frame. */
  lemma CcmpReceived(keys: seq<Key>, me: MacAddress, from: Option<MacAddress>, received: Option<Short>,
                     h: Header, key: Byte, sent: seq<Byte>, body: seq<Byte>, trailer: seq<Byte>)
    requires ForReceiver(h, me) && key <= 3 && |sent| == SEQUENCE_SIZE && |trailer| == CCMP_MIC_SIZE
    requires SelectedAt(keys, me, h, key) < |keys| && keys[SelectedAt(keys, me, h, key)].cipher == Ccmp
    ensures var j := SelectedAt(keys, me, h, key);
      Received(keys, me, from, received, Serialized(h) + (CcmpHeader(key, sent) + body + trailer)) ==
        if LittleEndian(sent) > LittleEndian(keys[j].rx) then
          Accepted(keys[j := keys[j].(rx := sent)], from, received, h, body)
        else Reception(keys, received, None)
  {
    hide Serialized, Deserialized, Decapsulated, SelectedAt, CcmpHeader, Unprotected, FrameType, Subtype, Flag, Deduplicated;
    CcmpUnprotected(keys, me, h, key, sent, body, trailer);
    ReadForReceiver(h, me, CcmpHeader(key, sent) + body + trailer);
  }

  lemma NeverDuplicate(received: Option<Short>, from: Option<MacAddress>, h: Header)
    requires !Flag(h.frameControl, RETRY)
    ensures !Deduplicated(received, from, h).1
  {
  }

  /** Under a CCMP key that both sides hold, with the eight bytes the hardware adds: the frame comes
      through as it was, with its packet number, exactly when that number is newer than the last. */
  lemma CcmpComesThrough(keys: seq<Key>, me: MacAddress, ap: MacAddress, ethernet: seq<Byte>, sequenceControl: Short,
                         theirKeys: seq<Key>, from: Option<MacAddress>, received: Option<Short>, trailer: seq<Byte>, i: nat, j: nat)
    requires |ethernet| >= ETHERNET_HEADER_SIZE && |trailer| == CCMP_MIC_SIZE
    requires i == Selected(keys, me, HeaderFor(ap, ethernet, sequenceControl)) < |keys| && keys[i].cipher == Ccmp
    requires Transmission(keys, me, Some(ap), ethernet, sequenceControl).1.OnAir?
    requires j == SelectedAt(theirKeys, ap, Protect(HeaderFor(ap, ethernet, sequenceControl)), keys[i].index)
    requires j < |theirKeys| && theirKeys[j].cipher == Ccmp
    ensures var h := HeaderFor(ap, ethernet, sequenceControl);
      var (keys', outcome) := Transmission(keys, me, Some(ap), ethernet, sequenceControl);
      && |keys'| == |keys| && LittleEndian(keys'[i].tx) == LittleEndian(keys[i].tx) + 1
      && Received(theirKeys, ap, from, received, outcome.frame + trailer) ==
        if LittleEndian(keys[i].tx) >= LittleEndian(theirKeys[j].rx) then
          Reception(theirKeys[j := theirKeys[j].(rx := keys'[i].tx)], Deduplicated(received, from, Protect(h)).0, Some(ethernet))
        else Reception(theirKeys, received, None)
  {
    hide Transmission, Protected, Received, Protect, Body, CcmpHeader, Serialized, Decapsulated, Selected, SelectedAt, Deduplicated, Advanced;
    var h := HeaderFor(ap, ethernet, sequenceControl);
    SentUnderSupportedKey(keys, me, ap, ethernet, sequenceControl, h, i);
    SentProtected(keys, me, ap, ethernet, sequenceControl, h, i);
    CcmpSent(keys, me, h, i, Body(ethernet));
    var (keys', outcome) := Transmission(keys, me, Some(ap), ethernet, sequenceControl);
    var key, sent := keys[i].index, keys'[i].tx;
    CcmpReceived(theirKeys, ap, from, received, Protect(h), key, sent, Body(ethernet), trailer);
    NeverDuplicate(received, from, Protect(h));
    BodyComesBack(ap, ethernet, sequenceControl);
    assert outcome.frame + trailer == Serialized(Protect(h)) + (CcmpHeader(key, sent) + Body(ethernet) + trailer);
  }

  /** What TKIP sends. */
  lemma TkipSent(keys: seq<Key>, me: MacAddress, h: Header, i: nat, body: seq<Byte>)
    requires i == Selected(keys, me, h) < |keys| && i == SelectedAt(keys, me, h, keys[i].index)
    requires keys[i].index <= 3 && HeaderSize(Protect(h).frameControl).Some?
    requires Protected(keys, me, h, keys[i].index, Some(Tkip), body).1.OnAir?
    ensures var (keys', outcome) := Protected(keys, me, h, keys[i].index, Some(Tkip), body);
      && TkipKey(keys[i]) && |keys'| == |keys|
      && |keys'[i].tx| == SEQUENCE_SIZE && LittleEndian(keys'[i].tx) == LittleEndian(keys[i].tx) + 1
      && outcome.frame == Serialized(Protect(h)) + (TkipHeader(keys[i].index, keys'[i].tx) + body
        + TkipMic(keys[i], TKIP_TX_MIC_KEY_OFFSET, TkipDataFor(h, keys[i].index, body)))
  {
    hide Serialized, Selected, SelectedAt, CcmpHeader, TkipHeader, NextTx, Mic;
    BytesBack(LittleEndian(keys[i].tx) + 1, SEQUENCE_SIZE);
  }

  lemma TkipLayout(key: Byte, sent: seq<Byte>, body: seq<Byte>, mic: seq<Byte>, icv: seq<Byte>)
    requires key <= 3 && |sent| == SEQUENCE_SIZE && |mic| == TKIP_MIC_SIZE && |icv| == TKIP_ICV_SIZE
    ensures var rest := TkipHeader(key, sent) + body + mic + icv;
      var end := |rest| - TKIP_MIC_SIZE - TKIP_ICV_SIZE;
      && rest[3] == KeyIdByte(key) && rest[1] == SeedByte(rest[0]) && TkipSequence(rest) == sent
      && end == CIPHER_HEADER_SIZE + |body| && rest[CIPHER_HEADER_SIZE..end] == body && rest[end..end + TKIP_MIC_SIZE] == mic
  {
    hide KeyIdByte, SeedByte;
  }

  /** The data a receiver checks a TKIP frame against. */
  ghost function ReceivedTkipData(h: Header, key: Byte, body: seq<Byte>): TkipData {
    TkipData(h, key, Destination(h), Source(h), 0, body)
  }

  lemma TkipUnprotected(keys: seq<Key>, me: MacAddress, h: Header, key: Byte, sent: seq<Byte>, body: seq<Byte>, mic: seq<Byte>, icv: seq<Byte>)
    requires key <= 3 && |sent| == SEQUENCE_SIZE && |mic| == TKIP_MIC_SIZE && |icv| == TKIP_ICV_SIZE
    requires FrameType(h.frameControl) == TYPE_DATA && Subtype(h.frameControl) == SUBTYPE_DATA
    requires SelectedAt(keys, me, h, key) < |keys| && TkipKey(keys[SelectedAt(keys, me, h, key)])
    ensures var j := SelectedAt(keys, me, h, key);
      Unprotected(keys, me, h, TkipHeader(key, sent) + body + mic + icv) ==
        if LittleEndian(sent) > LittleEndian(keys[j].rx) && mic == TkipMic(keys[j], TKIP_RX_MIC_KEY_OFFSET, ReceivedTkipData(h, key, body)) then
          (keys[j := keys[j].(rx := sent)], Some(body))
        else (keys, None)
  {
    hide SelectedAt, KeyIdByte, KeyIdOf, ExtIv, UnprotectedTkip, UnprotectedCcmp, TkipHeader, TkipMic, SeedByte, FrameType, Subtype, Destination, Source;
    TkipLayout(key, sent, body, mic, icv);
    KeyIdBack(key);
    TkipFrameUnprotected(keys, me, h, key, sent, body, mic, icv);
  }

  lemma TkipFrameUnprotected(keys: seq<Key>, me: MacAddress, h: Header, key: Byte, sent: seq<Byte>, body: seq<Byte>, mic: seq<Byte>, icv: seq<Byte>)
    requires key <= 3 && |sent| == SEQUENCE_SIZE && |mic| == TKIP_MIC_SIZE && |icv| == TKIP_ICV_SIZE
    requires FrameType(h.frameControl) == TYPE_DATA && Subtype(h.frameControl) == SUBTYPE_DATA
    ensures UnprotectedTkip(keys, me, h, key, TkipHeader(key, sent) + body + mic + icv) ==
      var (keys', ok) := AcceptTkip(keys, me, ReceivedTkipData(h, key, body), sent, mic);
      (keys', if ok then Some(body) else None)
  {
    hide KeyIdByte, ExtIv, SeedByte, TkipHeader, TkipSequence, AcceptTkip, FrameType, Subtype, Destination, Source;
    TkipLayout(key, sent, body, mic, icv);
    KeyIdBack(key);
  }

  /** What reception makes of a TKIP frame. */
  lemma TkipReceived(keys: seq<Key>, me: MacAddress, from: Option<MacAddress>, received: Option<Short>,
                     h: Header, key: Byte, sent: seq<Byte>, body: seq<Byte>, mic: seq<Byte>, icv: seq<Byte>)
    requires ForReceiver(h, me) && key <= 3 && |sent| == SEQUENCE_SIZE && |mic| == TKIP_MIC_SIZE && |icv| == TKIP_ICV_SIZE
    requires SelectedAt(keys, me, h, key) < |keys| && TkipKey(keys[SelectedAt(keys, me, h, key)])
    ensures var j := SelectedAt(keys, me, h, key);
      Received(keys, me, from, received, Serialized(h) + (TkipHeader(key, sent) + body + mic + icv)) ==
        if LittleEndian(sent) > LittleEndian(keys[j].rx) && mic == TkipMic(keys[j], TKIP_RX_MIC_KEY_OFFSET, ReceivedTkipData(h, key, body)) then
          Accepted(keys[j := keys[j].(rx := sent)], from, received, h, body)
        else Reception(keys, received, None)
  {
    hide Serialized, Deserialized, Decapsulated, SelectedAt, TkipHeader, Unprotected, FrameType, Subtype, Flag, TkipMic, ReceivedTkipData, Deduplicated;
    ReadForReceiver(h, me, TkipHeader(key, sent) + body + mic + icv);
    TkipUnprotected(keys, me, h, key, sent, body, mic, icv);
  }

  /** Both sides compute the code over the same addresses and data. */
  lemma SameMic(k: Key, k': Key, ap: MacAddress, ethernet: seq<Byte>, sequenceControl: Short, key: Byte)
    requires |ethernet| >= ETHERNET_HEADER_SIZE && TkipKey(k) && TkipKey(k')
    requires k.material[TKIP_TX_MIC_KEY_OFFSET..TKIP_RX_MIC_KEY_OFFSET] == k'.material[TKIP_RX_MIC_KEY_OFFSET..]
    ensures var h := HeaderFor(ap, ethernet, sequenceControl);
      TkipMic(k, TKIP_TX_MIC_KEY_OFFSET, TkipDataFor(h, key, Body(ethernet)))
      == TkipMic(k', TKIP_RX_MIC_KEY_OFFSET, ReceivedTkipData(Protect(h), key, Body(ethernet)))
  {
    hide Mic, Body;
    BodyComesBack(ap, ethernet, sequenceControl);
    assert k'.material[TKIP_RX_MIC_KEY_OFFSET..] == k'.material[TKIP_RX_MIC_KEY_OFFSET..TKIP_RX_MIC_KEY_OFFSET + MIC_SIZE];
  }

  /** Under a TKIP key whose transmit MIC key is the other side's receive MIC key, with the four bytes
      the hardware adds: the frame comes through as it was, with its packet number, exactly when that
      number is newer than the last. */
  lemma TkipComesThrough(keys: seq<Key>, me: MacAddress, ap: MacAddress, ethernet: seq<Byte>, sequenceControl: Short,
                         theirKeys: seq<Key>, from: Option<MacAddress>, received: Option<Short>, icv: seq<Byte>, i: nat, j: nat)
    requires |ethernet| >= ETHERNET_HEADER_SIZE && |icv| == TKIP_ICV_SIZE
    requires i == Selected(keys, me, HeaderFor(ap, ethernet, sequenceControl)) < |keys| && TkipKey(keys[i])
    requires Transmission(keys, me, Some(ap), ethernet, sequenceControl).1.OnAir?
    requires j == SelectedAt(theirKeys, ap, Protect(HeaderFor(ap, ethernet, sequenceControl)), keys[i].index)
    requires j < |theirKeys| && TkipKey(theirKeys[j])
    requires keys[i].material[TKIP_TX_MIC_KEY_OFFSET..TKIP_RX_MIC_KEY_OFFSET] == theirKeys[j].material[TKIP_RX_MIC_KEY_OFFSET..]
    ensures var h := HeaderFor(ap, ethernet, sequenceControl);
      var (keys', outcome) := Transmission(keys, me, Some(ap), ethernet, sequenceControl);
      && |keys'| == |keys| && LittleEndian(keys'[i].tx) == LittleEndian(keys[i].tx) + 1
      && Received(theirKeys, ap, from, received, outcome.frame + icv) ==
        if LittleEndian(keys[i].tx) >= LittleEndian(theirKeys[j].rx) then
          Reception(theirKeys[j := theirKeys[j].(rx := keys'[i].tx)], Deduplicated(received, from, Protect(h)).0, Some(ethernet))
        else Reception(theirKeys, received, None)
  {
    hide Transmission, Protected, Received, Protect, Body, TkipHeader, Serialized, Decapsulated, Selected, SelectedAt, Deduplicated, Mic, Advanced;
    var h := HeaderFor(ap, ethernet, sequenceControl);
    SentUnderSupportedKey(keys, me, ap, ethernet, sequenceControl, h, i);
    SentProtected(keys, me, ap, ethernet, sequenceControl, h, i);
    TkipSent(keys, me, h, i, Body(ethernet));
    var (keys', outcome) := Transmission(keys, me, Some(ap), ethernet, sequenceControl);
    var key, sent := keys[i].index, keys'[i].tx;
    var mic := TkipMic(keys[i], TKIP_TX_MIC_KEY_OFFSET, TkipDataFor(h, key, Body(ethernet)));
    SameMic(keys[i], theirKeys[j], ap, ethernet, sequenceControl, key);
    TkipReceived(theirKeys, ap, from, received, Protect(h), key, sent, Body(ethernet), mic, icv);
    NeverDuplicate(received, from, Protect(h));
    BodyComesBack(ap, ethernet, sequenceControl);
    assert outcome.frame + icv == Serialized(Protect(h)) + (TkipHeader(key, sent) + Body(ethernet) + mic + icv);
  }

  // ----- The same on the buffers -----

  ghost predicate Separate(memory: array<Byte>, store: KeyStore)
    reads store
  {
    memory !in RxSequences(store.keys) && memory !in TxSequences(store.keys)
  }

  /** A buffer as the driver hands it out, with headroom in front and tailroom behind set aside. */
  method AllocateTxBuffer() returns (b: TxBuffer)
    ensures fresh(b) && fresh(b.memory) && Ready(b) && b.Frame() == []
  {
    b := new TxBuffer(ETHERNET_MAX_FRAME_SIZE + TX_BUFFER_HEADROOM + TX_BUFFER_TAILROOM);
    b.data := b.data + TX_BUFFER_HEADROOM;
    b.size := b.size - (TX_BUFFER_HEADROOM + TX_BUFFER_TAILROOM);
    b.currentOffset := b.currentOffset - (TX_BUFFER_HEADROOM + TX_BUFFER_TAILROOM);
  }

  /** A buffer from AllocateTxBuffer, with a frame of any size up to the largest in it. */
  ghost predicate Ready(b: TxBuffer)
    reads b
  {
    && b.Valid() && b.data == TX_BUFFER_HEADROOM && b.size == ETHERNET_MAX_FRAME_SIZE
    && b.memory.Length == ETHERNET_MAX_FRAME_SIZE + TX_BUFFER_HEADROOM + TX_BUFFER_TAILROOM
  }

  lemma BodyInPieces(ethernet: seq<Byte>)
    requires |ethernet| >= ETHERNET_HEADER_SIZE
    ensures LLC_SNAP + [ethernet[12], ethernet[13]] + ethernet[ETHERNET_HEADER_SIZE..] == Body(ethernet)
  {
  }

  /** Replace the Ethernet header by LLC/SNAP. */
  method Encapsulate(b: TxBuffer) returns (ok: bool)
    requires b.Valid() && |b.Frame()| >= ETHERNET_HEADER_SIZE
    modifies b`currentOffset, b.memory
    ensures b.Valid() && ok && b.Frame() == Body(old(b.Frame()))
    ensures b.currentOffset == old(b.currentOffset) + ETHERNET_HEADER_SIZE - LLCSNAP_SIZE
  {
    hide Body;
    ghost var ethernet := b.Frame();
    var at := b.data + b.currentOffset;
    var ethertype := [b.memory[at + 12], b.memory[at + 13]];
    b.currentOffset := b.currentOffset + ETHERNET_HEADER_SIZE;
    SliceOfSlice(b.memory[..], at, b.data + b.size, ETHERNET_HEADER_SIZE);
    ok := b.Prepend(LLC_SNAP + ethertype);
    BodyInPieces(ethernet);
  }

  lemma SliceOfSlice(b: seq<Byte>, from: nat, to: nat, skip: nat)
    requires from + skip <= to <= |b|
    ensures b[from..to][skip..] == b[from + skip..to]
  {
  }

  method PrepareCcmpTx(b: TxBuffer, store: KeyStore, h: Header, key: Byte) returns (status: Option<TxStatus>)
    requires b.Valid() && store.Valid() && Separate(b.memory, store) && key <= 3
    modifies b`currentOffset, b.memory, TxSequences(store.keys)
    ensures b.Valid() && store.Valid()
    ensures var was, body := old(store.Snapshot()), old(b.Frame());
      if old(b.currentOffset) < CIPHER_HEADER_SIZE then status == Some(NotEnoughSpace) && store.Snapshot() == was
      else
        var (keys, sequence) := NextTx(was, store.me, h, key, Ccmp);
        && store.Snapshot() == keys && (status.None? <==> sequence.Some?) && (status.Some? ==> status.value == NotPermitted)
        && (sequence.Some? ==>
          && |sequence.value| == SEQUENCE_SIZE && b.Frame() == CcmpHeader(key, sequence.value) + body
          && b.currentOffset == old(b.currentOffset) - CIPHER_HEADER_SIZE)
  {
    hide NextTx, CcmpHeader, KeyStore.Valid, Values;
    ghost var was, body := store.Snapshot(), b.Frame();
    var at := b.AllocateSpace(CIPHER_HEADER_SIZE);
    if at.None? {
      return Some(NotEnoughSpace);
    }
    assert store.Snapshot() == was;
    status := FillCcmp(b, store, h, key, body);
  }

  /** Once the space is there: ask for a number and write the header with it. */
  method FillCcmp(b: TxBuffer, store: KeyStore, h: Header, key: Byte, ghost body: seq<Byte>) returns (status: Option<TxStatus>)
    requires b.Valid() && store.Valid() && Separate(b.memory, store) && key <= 3
    requires |b.Frame()| >= CIPHER_HEADER_SIZE && b.Frame()[CIPHER_HEADER_SIZE..] == body
    modifies b.memory, TxSequences(store.keys)
    ensures store.Valid() && status == FillStatus(NextTx(old(store.Snapshot()), store.me, h, key, Ccmp).1)
    ensures store.Snapshot() == NextTx(old(store.Snapshot()), store.me, h, key, Ccmp).0
    ensures var sequence := NextTx(old(store.Snapshot()), store.me, h, key, Ccmp).1;
      sequence.Some? ==> |sequence.value| == SEQUENCE_SIZE && b.Frame() == CcmpHeader(key, sequence.value) + body
  {
    hide NextTx, CcmpHeader, KeyStore.Valid, Values;
    PacketNumberSize(store.Snapshot(), store.me, h, key, Ccmp, TkipDataFor(h, key, []));
    var sequence := store.NextTxSequence(h, key, Ccmp);
    if sequence.None? {
      return Some(NotPermitted);
    }
    b.FillFront(CcmpHeader(key, sequence.value));
    status := None;
  }

  function FillStatus<T>(prepared: Option<T>): Option<TxStatus> {
    if prepared.None? then Some(NotPermitted) else None
  }

  /** The code is computed over the frame before the header goes in front of it, and put behind it. */
  method PrepareTkipTx(b: TxBuffer, store: KeyStore, h: Header, key: Byte) returns (status: Option<TxStatus>)
    requires b.Valid() && store.Valid() && Separate(b.memory, store) && key <= 3
    requires b.data + b.size + TKIP_MIC_SIZE <= b.memory.Length
    modifies b`currentOffset, b`size, b.memory, TxSequences(store.keys)
    ensures b.Valid() && store.Valid()
    ensures var was, body := old(store.Snapshot()), old(b.Frame());
      if old(b.currentOffset) < CIPHER_HEADER_SIZE then status == Some(NotEnoughSpace) && store.Snapshot() == was
      else
        var (keys, prepared) := NextTkip(was, store.me, TkipDataFor(h, key, body));
        && store.Snapshot() == keys && (status.None? <==> prepared.Some?) && (status.Some? ==> status.value == NotPermitted)
        && (prepared.Some? ==>
          && |prepared.value.0| == SEQUENCE_SIZE && b.Frame() == TkipHeader(key, prepared.value.0) + body + prepared.value.1
          && b.currentOffset == old(b.currentOffset) - CIPHER_HEADER_SIZE)
  {
    hide NextTkip, TkipHeader, KeyStore.Valid, Values;
    ghost var was := store.Snapshot();
    var data := TkipData(h, key, h.address3, h.address2, 0, Contents(b));
    var at := b.AllocateSpace(CIPHER_HEADER_SIZE);
    if at.None? {
      return Some(NotEnoughSpace);
    }
    assert store.Snapshot() == was;
    status := FillTkip(b, store, data);
  }

  method FillTkip(b: TxBuffer, store: KeyStore, data: TkipData) returns (status: Option<TxStatus>)
    requires b.Valid() && store.Valid() && Separate(b.memory, store) && data.keyIndex <= 3
    requires |b.Frame()| >= CIPHER_HEADER_SIZE && b.Frame()[CIPHER_HEADER_SIZE..] == data.data
    requires b.data + b.size + TKIP_MIC_SIZE <= b.memory.Length
    modifies b`size, b.memory, TxSequences(store.keys)
    ensures b.Valid() && store.Valid() && status == FillStatus(NextTkip(old(store.Snapshot()), store.me, data).1)
    ensures store.Snapshot() == NextTkip(old(store.Snapshot()), store.me, data).0
    ensures var prepared := NextTkip(old(store.Snapshot()), store.me, data).1;
      prepared.Some? ==>
        |prepared.value.0| == SEQUENCE_SIZE && b.Frame() == TkipHeader(data.keyIndex, prepared.value.0) + data.data + prepared.value.1
  {
    hide NextTkip, TkipHeader, KeyStore.Valid, Values;
    PacketNumberSize(store.Snapshot(), store.me, data.header, data.keyIndex, Tkip, data);
    var prepared := store.PrepareTkipTx(data);
    if prepared.None? {
      return Some(NotPermitted);
    }
    b.Enclose(TkipHeader(data.keyIndex, prepared.value.0), data.data, prepared.value.1);
    status := None;
  }

  method TransmitCcmp(b: TxBuffer, store: KeyStore, h: Header, key: Byte) returns (outcome: Outcome)
    requires b.Valid() && store.Valid() && Separate(b.memory, store) && key <= 3
    requires b.currentOffset >= CIPHER_HEADER_SIZE + 24 && HeaderSize(Protect(h).frameControl) == Some(24)
    modifies b`currentOffset, b.memory, TxSequences(store.keys)
    ensures store.Valid()
    ensures (store.Snapshot(), outcome) == Protected(old(store.Snapshot()), store.me, h, key, Some(Ccmp), old(b.Frame()))
  {
    hide NextTx, NextTkip, TkipHeader, CcmpHeader, KeyStore.Valid, Serialized, Protect;
    PacketNumberSize(store.Snapshot(), store.me, h, key, Ccmp, TkipDataFor(h, key, b.Frame()));
    var status := PrepareCcmpTx(b, store, h, key);
    if status.Some? {
      return Refused(status.value);
    }
    var ok := b.SerializeHeader(Protect(h));
    outcome := OnAir(Contents(b), key as int, Some(Ccmp));
  }

  method TransmitTkip(b: TxBuffer, store: KeyStore, h: Header, key: Byte) returns (outcome: Outcome)
    requires b.Valid() && store.Valid() && Separate(b.memory, store) && key <= 3
    requires b.currentOffset >= CIPHER_HEADER_SIZE + 24 && HeaderSize(Protect(h).frameControl) == Some(24)
    requires b.data + b.size + TKIP_MIC_SIZE <= b.memory.Length
    modifies b`currentOffset, b`size, b.memory, TxSequences(store.keys)
    ensures store.Valid()
    ensures (store.Snapshot(), outcome) == Protected(old(store.Snapshot()), store.me, h, key, Some(Tkip), old(b.Frame()))
  {
    hide NextTx, NextTkip, TkipHeader, CcmpHeader, KeyStore.Valid, Serialized, Protect;
    PacketNumberSize(store.Snapshot(), store.me, h, key, Tkip, TkipDataFor(h, key, b.Frame()));
    var status := PrepareTkipTx(b, store, h, key);
    if status.Some? {
      return Refused(status.value);
    }
    var ok := b.SerializeHeader(Protect(h));
    outcome := OnAir(Contents(b), key as int, Some(Tkip));
  }

  /** The part of transmission after a key has been selected. */
  method TransmitUnderKey(b: TxBuffer, store: KeyStore, h: Header, key: Byte) returns (outcome: Outcome)
    requires b.Valid() && store.Valid() && Separate(b.memory, store) && key <= 3
    requires b.currentOffset >= CIPHER_HEADER_SIZE + 24 && HeaderSize(Protect(h).frameControl) == Some(24)
    requires b.data + b.size + TKIP_MIC_SIZE <= b.memory.Length
    modifies b`currentOffset, b`size, b.memory, TxSequences(store.keys)
    ensures store.Valid()
    ensures var was := old(store.Snapshot());
      var j := SelectedAt(was, store.me, h, key);
      (store.Snapshot(), outcome) == Protected(was, store.me, h, key, if j < |was| then Some(was[j].cipher) else None, old(b.Frame()))
  {
    hide NextTx, NextTkip, KeyStore.Valid, Serialized, Protect, SelectedAt;
    ghost var was, body := store.Snapshot(), b.Frame();
    var cipher := store.SelectCipherByIndex(h, key);
    assert store.Snapshot() == was && b.Frame() == body;
    if cipher == Some(Ccmp) {
      outcome := TransmitCcmp(b, store, h, key);
    } else if cipher == Some(Tkip) {
      outcome := TransmitTkip(b, store, h, key);
    } else {
      outcome := Refused(NoCipher);
    }
  }

  function Contents(b: TxBuffer): (frame: seq<Byte>)
    requires b.Valid()
    reads b, b.memory
    ensures frame == b.Frame()
  {
    b.memory[b.data + b.currentOffset..b.data + b.size]
  }

  /** The frame goes out as it is, or under the key selected for it. */
  method TransmitFrame(b: TxBuffer, store: KeyStore, h: Header) returns (outcome: Outcome)
    requires b.Valid() && store.Valid() && Separate(b.memory, store)
    requires b.currentOffset >= CIPHER_HEADER_SIZE + 24 && b.data + b.size + TKIP_MIC_SIZE <= b.memory.Length
    requires HeaderSize(h.frameControl) == HeaderSize(Protect(h).frameControl) == Some(24)
    modifies b`currentOffset, b`size, b.memory, TxSequences(store.keys)
    ensures store.Valid() && (store.Snapshot(), outcome) == UnderSelectedKey(old(store.Snapshot()), store.me, h, old(b.Frame()))
  {
    hide KeyStore.Valid, Serialized, Protect, Selected, SelectedAt, Protected;
    ghost var was, body := store.Snapshot(), b.Frame();
    var key := store.SelectKeyIndex(h);
    assert store.Snapshot() == was && b.Frame() == body;
    if key >= 0 {
      if key > 3 {
        return Refused(NotPermitted);
      }
      outcome := TransmitUnderKey(b, store, h, key as Byte);
    } else {
      var ok := b.SerializeHeader(h);
      outcome := OnAir(Contents(b), -1, None);
    }
  }

  /** For every frame an allocated buffer can hold: the buffer never runs out of headroom or tailroom,
      and what goes on the air is what the specification says. */
  method TransmitBuffer(b: TxBuffer, store: KeyStore, ap: Option<MacAddress>, sequenceControl: Short) returns (outcome: Outcome)
    requires Ready(b) && store.Valid() && Separate(b.memory, store)
    modifies b, b.memory, TxSequences(store.keys)
    ensures store.Valid()
    ensures (store.Snapshot(), outcome) == Transmission(old(store.Snapshot()), store.me, ap, old(b.Frame()), sequenceControl)
  {
    hide KeyStore.Valid, UnderSelectedKey, Body;
    ghost var was, ethernet := store.Snapshot(), b.Frame();
    b.data := b.data - TX_BUFFER_HEADROOM;
    b.size := b.size + TX_BUFFER_HEADROOM;
    b.currentOffset := b.currentOffset + TX_BUFFER_HEADROOM;
    assert b.Frame() == ethernet && store.Snapshot() == was;
    if ap.None? {
      return Refused(NotAssociated);
    }
    if b.size - b.currentOffset < ETHERNET_HEADER_SIZE {
      return Refused(NotEnoughSpace);
    }
    var h := HeaderFor(ap.value, Contents(b), sequenceControl);
    BodyComesBack(ap.value, ethernet, sequenceControl);
    var encapsulated := Encapsulate(b);
    assert store.Snapshot() == was;
    outcome := TransmitFrame(b, store, h);
  }

  method ProcessCcmpRx(store: KeyStore, h: Header, key: Byte, body: seq<Byte>) returns (data: Option<seq<Byte>>)
    requires store.Valid()
    modifies RxSequences(store.keys)
    ensures store.Valid() && (store.Snapshot(), data) == UnprotectedCcmp(old(store.Snapshot()), store.me, h, key, body)
  {
    hide KeyStore.Valid, AcceptRx;
    if |body| < CIPHER_HEADER_SIZE + CCMP_MIC_SIZE {
      return None;
    }
    if !ExtIv(body[3]) {
      return None;
    }
    var valid := store.UpdateRxSequence(h, key, Ccmp, CcmpSequence(body));
    if !valid {
      return None;
    }
    data := Some(body[CIPHER_HEADER_SIZE..|body| - CCMP_MIC_SIZE]);
  }

  method ProcessTkipRx(store: KeyStore, h: Header, key: Byte, body: seq<Byte>) returns (data: Option<seq<Byte>>)
    requires store.Valid()
    modifies RxSequences(store.keys)
    ensures store.Valid() && (store.Snapshot(), data) == UnprotectedTkip(old(store.Snapshot()), store.me, h, key, body)
  {
    hide KeyStore.Valid, AcceptTkip;
    if FrameType(h.frameControl) != TYPE_DATA {
      return None;
    }
    if Subtype(h.frameControl) != SUBTYPE_DATA {
      return None;
    }
    if |body| < CIPHER_HEADER_SIZE + TKIP_MIC_SIZE + TKIP_ICV_SIZE {
      return None;
    }
    if !ExtIv(body[3]) {
      return None;
    }
    if body[1] != SeedByte(body[0]) {
      return None;
    }
    var end := |body| - TKIP_MIC_SIZE - TKIP_ICV_SIZE;
    var payload, mic := body[CIPHER_HEADER_SIZE..end], body[end..end + TKIP_MIC_SIZE];
    var data' := TkipData(h, key, Destination(h), Source(h), 0, payload);
    var valid := store.ValidateTkipRx(data', TkipSequence(body), mic);
    if !valid {
      return None;
    }
    data := Some(payload);
  }

  /** Strip the cipher header and trailer, if the key for the frame allows it. */
  method Unprotect(store: KeyStore, h: Header, body: seq<Byte>) returns (data: Option<seq<Byte>>)
    requires store.Valid()
    modifies RxSequences(store.keys)
    ensures store.Valid() && (store.Snapshot(), data) == Unprotected(old(store.Snapshot()), store.me, h, body)
  {
    hide KeyStore.Valid, UnprotectedCcmp, UnprotectedTkip, SelectedAt;
    if |body| < 4 {
      return None;
    }
    var key := KeyIdOf(body[3]);
    ghost var was := store.Snapshot();
    var cipher := store.SelectCipherByIndex(h, key);
    assert store.Snapshot() == was;
    if cipher == Some(Ccmp) {
      data := ProcessCcmpRx(store, h, key, body);
    } else if cipher == Some(Tkip) {
      data := ProcessTkipRx(store, h, key, body);
    } else {
      data := None;
    }
  }

  /** Make the Ethernet header in place: it ends where the LLC/SNAP header ended, and there is always
      room for it, because an 802.11 header came before. */
  method ProcessDataPacket(packet: array<Byte>, h: Header, start: nat, size: nat) returns (delivered: Option<seq<Byte>>)
    requires ETHERNET_HEADER_SIZE - LLCSNAP_SIZE <= start && start + size <= packet.Length
    modifies packet
    ensures delivered == Decapsulated(h, old(packet[start..start + size]))
  {
    hide Layout, Destination, Source;
    ghost var body := packet[start..start + size];
    if size < LLCSNAP_SIZE {
      return None;
    }
    assert body[..6] == packet[start..start + 6];
    if packet[start..start + 6] != LLC_SNAP {
      return None;
    }
    var ethertype := packet[start + 6..start + 8];
    var at, n := start + LLCSNAP_SIZE - ETHERNET_HEADER_SIZE, size + ETHERNET_HEADER_SIZE - LLCSNAP_SIZE;
    ghost var was := packet[..];
    LayoutNothing(was, at);
    PutBytes(packet, at, Destination(h), was, at, []);
    PutBytes(packet, at + 6, Source(h), was, at, [] + Destination(h));
    PutBytes(packet, at + 12, ethertype, was, at, [] + Destination(h) + Source(h));
    delivered := Some(packet[at..at + n]);
    LayoutSlice(was, at, Destination(h) + Source(h) + ethertype, at + n);
    assert [] + Destination(h) + Source(h) + ethertype == Destination(h) + Source(h) + ethertype;
    assert body[6..] == ethertype + was[at + 14..at + n];
    assert Destination(h) + Source(h) + (ethertype + was[at + 14..at + n]) == Destination(h) + Source(h) + ethertype + was[at + 14..at + n];
  }

  /** What is left of a protected body is a part of it, eight bytes in. */
  lemma UnprotectedIsInside(keys: seq<Key>, me: MacAddress, h: Header, body: seq<Byte>)
    ensures var r := Unprotected(keys, me, h, body).1;
      r.Some? ==> CIPHER_HEADER_SIZE + |r.value| <= |body| && r.value == body[CIPHER_HEADER_SIZE..CIPHER_HEADER_SIZE + |r.value|]
  {
    hide AcceptRx, AcceptTkip, SelectedAt;
  }

  lemma SliceOfTail(b: seq<Byte>, start: nat, skip: nat, n: nat)
    requires start + skip + n <= |b|
    ensures b[start..][skip..skip + n] == b[start + skip..start + skip + n]
    ensures b[start..|b|] == b[start..]
  {
  }

  /** Where that body is in the packet. */
  method OpenBody(packet: array<Byte>, store: KeyStore, h: Header, start: nat) returns (place: Option<(nat, nat)>)
    requires store.Valid() && Separate(packet, store) && start <= packet.Length
    modifies RxSequences(store.keys)
    ensures store.Valid() && store.Snapshot() == Opened(old(store.Snapshot()), store.me, h, packet[start..]).0
    ensures place.Some? ==> start <= place.value.0 && place.value.0 + place.value.1 <= packet.Length
    ensures Opened(old(store.Snapshot()), store.me, h, packet[start..]).1 ==
      if place.None? then None else Some(packet[place.value.0..place.value.0 + place.value.1])
    ensures packet[..] == old(packet[..])
  {
    hide KeyStore.Valid, Unprotected, Values;
    ghost var bytes := packet[..];
    assert bytes[start..] == packet[start..];
    if Flag(h.frameControl, PROTECTED_FRAME) {
      UnprotectedIsInside(store.Snapshot(), store.me, h, packet[start..]);
      var data := Unprotect(store, h, packet[start..]);
      if data.None? {
        return None;
      }
      SliceOfTail(bytes, start, CIPHER_HEADER_SIZE, |data.value|);
      place := Some((start + CIPHER_HEADER_SIZE, |data.value|));
    } else {
      SliceOfTail(bytes, start, 0, packet.Length - start);
      place := Some((start, packet.Length - start));
    }
  }

  method ProcessPacket(packet: array<Byte>, store: KeyStore, ap: Option<MacAddress>, received: Option<Short>)
    returns (received': Option<Short>, delivered: Option<seq<Byte>>)
    requires store.Valid() && Separate(packet, store)
    modifies packet, RxSequences(store.keys)
    ensures store.Valid()
    ensures Reception(store.Snapshot(), received', delivered) ==
      Received(old(store.Snapshot()), store.me, ap, received, old(packet[..]))
  {
    hide KeyStore.Valid, Opened, Decapsulated, Deserialized, Values;
    ghost var bytes := packet[..];
    received', delivered := received, None;
    var parsed := Deserialized(packet[..]);
    if parsed.None? {
      return;
    }
    var (h, start) := parsed.value;
    HeaderWasThere(bytes);
    assert packet[start..] == bytes[start..];
    var place := OpenBody(packet, store, h, start);
    if place.None? {
      return;
    }
    if FrameType(h.frameControl) != TYPE_DATA {
      return;
    }
    if h.address1 != store.me && !IsGroup(h.address1) {
      return;
    }
    var (last, duplicate) := Deduplicated(received, ap, h);
    received' := last;
    if duplicate {
      return;
    }
    ghost var keys := store.Snapshot();
    delivered := ProcessDataPacket(packet, h, place.value.0, place.value.1);
    assert store.Snapshot() == keys;
  }
}

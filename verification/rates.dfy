/** Rate bitmaps and information elements.
    Sections 9.4.2.2, 9.4.2.3 and 9.4.2.13 of IEEE Std 802.11-2016. */
module Rates {
  import opened Bytes
  import opened Options

  const IE_ID_SSID: Byte := 0
  const IE_ID_RATES: Byte := 1
  const IE_ID_CHANNEL: Byte := 3
  const IE_ID_RSN: Byte := 48
  const IE_ID_RATES_EXT: Byte := 50
  const MAX_SSID_SIZE: nat := 32
  const MAX_RATE_VALUE: nat := 125
  const BITMAP_SIZE: nat := 16
  const SUPPORTED_RATES: nat := 8

  type Bitmap = b: seq<Byte> | |b| == BITMAP_SIZE witness Zeros(BITMAP_SIZE)

  predicate Has(bitmap: Bitmap, rate: nat)
    requires rate < 128
  {
    Bit(bitmap[rate / 8], rate % 8)
  }

  function WithRate(bitmap: Bitmap, rate: nat): Bitmap
    requires rate < 128
  {
    bitmap[rate / 8 := SetBit(bitmap[rate / 8], rate % 8)]
  }

  lemma WithRateAdds(bitmap: Bitmap, rate: nat, other: nat)
    requires rate < 128 && other < 128
    ensures Has(WithRate(bitmap, rate), other) <==> other == rate || Has(bitmap, other)
  {
    SetBitSets(bitmap[rate / 8], rate % 8, other % 8);
    assert rate == rate / 8 * 8 + rate % 8 && other == other / 8 * 8 + other % 8;
  }

  /** A bitmap is its rates. */
  lemma RatesDetermine(a: Bitmap, b: Bitmap)
    requires forall r :: 0 <= r < 128 ==> (Has(a, r) <==> Has(b, r))
    ensures a == b
  {
    forall i | 0 <= i < BITMAP_SIZE
      ensures a[i] == b[i]
    {
      forall k | 0 <= k < 8
        ensures Bit(a[i], k) <==> Bit(b[i], k)
      {
        assert (8 * i + k) / 8 == i && (8 * i + k) % 8 == k;
        assert Has(a, 8 * i + k) <==> Has(b, 8 * i + k);
      }
      BitsDetermine(a[i], b[i]);
    }
  }

  // ----- Parsing -----

  /** The rate a byte stands for, or none: 126 and 127 have special meanings. */
  function RateOf(b: Byte): (r: nat)
    ensures r < 128
  {
    And(b, 0x7f) as nat
  }

  ghost function WithRates(bitmap: Bitmap, rates: seq<Byte>): Bitmap {
    if rates == [] then bitmap
    else
      var rest, r := WithRates(bitmap, rates[..|rates| - 1]), RateOf(rates[|rates| - 1]);
      if r == 126 || r == 127 then rest else WithRate(rest, r)
  }

  lemma {:induction false} WithRatesExactly(bitmap: Bitmap, rates: seq<Byte>, r: nat)
    requires r < 128
    ensures Has(WithRates(bitmap, rates), r) <==>
      Has(bitmap, r) || (r <= MAX_RATE_VALUE && exists i :: 0 <= i < |rates| && RateOf(rates[i]) == r)
  {
    hide RateOf, Has, WithRate;
    if rates != [] {
      var n := |rates| - 1;
      WithRatesExactly(bitmap, rates[..n], r);
      assert forall i :: 0 <= i < n ==> rates[..n][i] == rates[i];
      if RateOf(rates[n]) <= MAX_RATE_VALUE {
        WithRateAdds(WithRates(bitmap, rates[..n]), RateOf(rates[n]), r);
      }
    }
  }

  lemma {:induction false} WithRatesJoin(bitmap: Bitmap, a: seq<Byte>, b: seq<Byte>)
    ensures WithRates(bitmap, a + b) == WithRates(WithRates(bitmap, a), b)
  {
    if b == [] {
      assert a + b == a;
    } else {
      WithRatesJoin(bitmap, a, b[..|b| - 1]);
      assert (a + b)[..|a + b| - 1] == a + b[..|b| - 1];
    }
  }

  /** What the elements of a frame fill in.  A caller that passes no place for a field ignores it. */
  datatype Fields = Fields(bitmap: Bitmap, ssid: Option<seq<Byte>>, channel: Option<Byte>, rsn: Option<seq<Byte>>) {
    ghost predicate Valid() {
      ssid.Some? ==> |ssid.value| == MAX_SSID_SIZE + 1
    }
  }

  ghost function Element(f: Fields, id: Byte, body: seq<Byte>): (r: (Fields, bool))
    requires f.Valid()
    ensures r.0.Valid()
  {
    if id == IE_ID_SSID then
      if |body| > MAX_SSID_SIZE then (f, false)
      else if f.ssid.None? then (f, true)
      else (f.(ssid := Some(body + [0] + f.ssid.value[|body| + 1..])), true)
    else if id == IE_ID_CHANNEL then
      if |body| != 1 then (f, false)
      else if f.channel.None? then (f, true)
      else (f.(channel := Some(body[0])), true)
    else if id == IE_ID_RATES && |body| > SUPPORTED_RATES then (f, false)
    else if id == IE_ID_RATES || id == IE_ID_RATES_EXT then (f.(bitmap := WithRates(f.bitmap, body)), true)
    else if id == IE_ID_RSN then (if f.rsn.None? then f else f.(rsn := Some(body)), true)
    else (f, true)
  }

  ghost function Parsed(f: Fields, data: seq<Byte>): (r: (Fields, bool))
    requires f.Valid()
    ensures r.0.Valid()
    decreases |data|
  {
    if data == [] then (f, true)
    else if |data| < 2 || |data| - 2 < data[1] as nat then (f, false)
    else
      var size := data[1] as nat;
      var (f', ok) := Element(f, data[0], data[2..2 + size]);
      if ok then Parsed(f', data[2 + size..]) else (f', false)
  }

  lemma ParsedElement(f: Fields, id: Byte, body: seq<Byte>, rest: seq<Byte>)
    requires f.Valid() && |body| < 256
    ensures Parsed(f, [id, |body| as Byte] + body + rest) ==
      if Element(f, id, body).1 then Parsed(Element(f, id, body).0, rest) else Element(f, id, body)
  {
    var data := [id, |body| as Byte] + body + rest;
    assert data[2..2 + |body|] == body && data[2 + |body|..] == rest;
  }

  /** The elements that are refused: too long an SSID, a channel of another size, too many rates, or
      bytes that do not make up a whole element. */
  lemma RefusedExactly(f: Fields, id: Byte, body: seq<Byte>)
    requires f.Valid()
    ensures Element(f, id, body).1 <==> !(id == 0 && |body| > 32) && !(id == 3 && |body| != 1) && !(id == 1 && |body| > 8)
    ensures !Element(f, id, body).1 ==> Element(f, id, body).0 == f
  {
  }

  lemma NotWholeIsRefused(f: Fields, data: seq<Byte>)
    requires f.Valid() && (|data| == 1 || (|data| >= 2 && |data| - 2 < data[1] as nat))
    ensures Parsed(f, data) == (f, false)
  {
  }

  /** The channel, the RSN bytes and the SSID come back where the caller wants them and are passed over
      where not; what has another number is passed over. */
  lemma ChannelComesBack(f: Fields, channel: Byte, rest: seq<Byte>)
    requires f.Valid()
    ensures Parsed(f, [3, 1] + [channel] + rest) == Parsed(if f.channel.None? then f else f.(channel := Some(channel)), rest)
  {
    hide Parsed, WithRates;
    ParsedElement(f, 3, [channel], rest);
  }

  lemma RsnComesBack(f: Fields, rsn: seq<Byte>, rest: seq<Byte>)
    requires f.Valid() && |rsn| < 256
    ensures Parsed(f, [48, |rsn| as Byte] + rsn + rest) == Parsed(if f.rsn.None? then f else f.(rsn := Some(rsn)), rest)
  {
    hide Parsed, WithRates;
    ParsedElement(f, 48, rsn, rest);
  }

  lemma SsidComesBack(f: Fields, ssid: seq<Byte>, rest: seq<Byte>)
    requires f.Valid() && |ssid| <= 32
    ensures Parsed(f, [0, |ssid| as Byte] + ssid + rest) ==
      Parsed(if f.ssid.None? then f else f.(ssid := Some(ssid + [0] + f.ssid.value[|ssid| + 1..])), rest)
  {
    hide Parsed, WithRates;
    ParsedElement(f, 0, ssid, rest);
  }

  lemma OthersArePassedOver(f: Fields, id: Byte, body: seq<Byte>, rest: seq<Byte>)
    requires f.Valid() && |body| < 256 && id != 0 && id != 1 && id != 3 && id != 48 && id != 50
    ensures Parsed(f, [id, |body| as Byte] + body + rest) == Parsed(f, rest)
  {
    hide Parsed, WithRates;
    ParsedElement(f, id, body, rest);
  }

  /** Both elements of rates add what they list: a rate is the low seven bits of its byte, and has its
      bit in the bitmap, rate by rate, eight to a byte from the lowest bit on. */
  lemma RatesAdded(f: Fields, extended: bool, rates: seq<Byte>, rest: seq<Byte>, r: nat)
    requires f.Valid() && |rates| < 256 && (!extended ==> |rates| <= 8) && r < 128
    ensures var f' := f.(bitmap := WithRates(f.bitmap, rates));
      && Parsed(f, [if extended then 50 else 1, |rates| as Byte] + rates + rest) == Parsed(f', rest)
      && (f'.bitmap[r / 8] as nat / POWERS[r % 8] % 2 == 1 <==>
        || f.bitmap[r / 8] as nat / POWERS[r % 8] % 2 == 1
        || (r <= 125 && exists i :: 0 <= i < |rates| && rates[i] as nat % 128 == r))
  {
    hide Parsed, WithRates;
    ParsedElement(f, if extended then 50 else 1, rates, rest);
    WithRatesExactly(f.bitmap, rates, r);
    HasIsDigit(f.bitmap, r);
    HasIsDigit(WithRates(f.bitmap, rates), r);
    forall i | 0 <= i < |rates| ensures RateOf(rates[i]) == rates[i] as nat % 128 { LowSevenIsRest(rates[i]); }
  }

  lemma HasIsDigit(bitmap: Bitmap, r: nat)
    requires r < 128
    ensures Has(bitmap, r) <==> bitmap[r / 8] as nat / POWERS[r % 8] % 2 == 1
  {
    BitIsDigit(bitmap[r / 8], r % 8);
  }

  /** The mutable fields behind the pointers a caller passes. */
  class ElementFields {
    const bitmap: array<Byte>
    const ssid: array?<Byte>
    const wantsChannel: bool
    var channel: Byte
    const wantsRsn: bool
    var rsn: seq<Byte>

    ghost predicate Valid() {
      && bitmap.Length == BITMAP_SIZE && bitmap != ssid
      && (ssid != null ==> ssid.Length == MAX_SSID_SIZE + 1)
    }

    ghost function Snapshot(): (f: Fields)
      requires Valid()
      reads this, bitmap, ssid
      ensures f.Valid()
    {
      Fields(bitmap[..], if ssid == null then None else Some(ssid[..]),
             if wantsChannel then Some(channel) else None, if wantsRsn then Some(rsn) else None)
    }

    constructor (ssid: array?<Byte>, wantsChannel: bool, wantsRsn: bool)
      requires ssid != null ==> ssid.Length == MAX_SSID_SIZE + 1
      ensures Valid() && fresh(bitmap) && this.ssid == ssid && this.wantsChannel == wantsChannel && this.wantsRsn == wantsRsn
      ensures bitmap[..] == Zeros(BITMAP_SIZE) && channel == 0 && rsn == []
    {
      bitmap := new Byte[BITMAP_SIZE](_ => 0);
      this.ssid, this.wantsChannel, this.wantsRsn := ssid, wantsChannel, wantsRsn;
      channel, rsn := 0, [];
    }

    method HandleRates(rates: seq<Byte>)
      requires Valid()
      modifies bitmap
      ensures bitmap[..] == WithRates(old(bitmap[..]), rates)
    {
      for i := 0 to |rates|
        invariant bitmap[..] == WithRates(old(bitmap[..]), rates[..i])
      {
        assert rates[..i + 1][..i] == rates[..i];
        var rate := RateOf(rates[i]);
        if rate == 126 || rate == 127 {
          continue;
        }
        bitmap[rate / 8] := SetBit(bitmap[rate / 8], rate % 8);
      }
      assert rates[..|rates|] == rates;
    }

    method CopySsid(body: seq<Byte>)
      requires Valid() && ssid != null && |body| <= MAX_SSID_SIZE
      modifies ssid
      ensures ssid[..] == body + [0] + old(ssid[..])[|body| + 1..]
    {
      for i := 0 to |body|
        invariant ssid[..i] == body[..i] && ssid[i..] == old(ssid[..])[i..]
      {
        ssid[i] := body[i];
      }
      ghost var rest := ssid[|body|..];
      ssid[|body|] := 0;
      assert ssid[|body| + 1..] == rest[1..] == old(ssid[..])[|body| + 1..];
      assert ssid[..|body|] == body[..|body|] == body;
      assert ssid[..] == ssid[..|body|] + [ssid[|body|]] + ssid[|body| + 1..];
    }

    method ProcessElement(id: Byte, body: seq<Byte>) returns (ok: bool)
      requires Valid()
      modifies `channel, `rsn, bitmap, ssid
      ensures (Snapshot(), ok) == Element(old(Snapshot()), id, body)
    {
      hide WithRates;
      ok := true;
      if id == IE_ID_SSID {
        if |body| > MAX_SSID_SIZE {
          return false;
        }
        if ssid != null {
          CopySsid(body);
        }
      } else if id == IE_ID_CHANNEL {
        if |body| != 1 {
          return false;
        }
        if wantsChannel {
          channel := body[0];
        }
      } else if id == IE_ID_RATES || id == IE_ID_RATES_EXT {
        if id == IE_ID_RATES && |body| > SUPPORTED_RATES {
          return false;
        }
        HandleRates(body);
      } else if id == IE_ID_RSN {
        if wantsRsn {
          rsn := body;
        }
      }
    }

    /** One element after another; the first bad one stops the parse. */
    method ProcessInformationElements(data: seq<Byte>) returns (ok: bool)
      requires Valid()
      modifies `channel, `rsn, bitmap, ssid
      ensures (Snapshot(), ok) == Parsed(old(Snapshot()), data)
    {
      hide Element;
      var offset := 0;
      assert data[0..] == data;
      while offset < |data|
        invariant offset <= |data| && Parsed(Snapshot(), data[offset..]) == Parsed(old(Snapshot()), data)
      {
        if |data| - offset < 2 {
          return false;
        }
        var id, size := data[offset], data[offset + 1] as nat;
        ghost var rest := data[offset..];
        offset := offset + 2;
        if |data| - offset < size {
          return false;
        }
        assert rest[2..2 + size] == data[offset..offset + size] && rest[2 + size..] == data[offset + size..];
        var good := ProcessElement(id, data[offset..offset + size]);
        if !good {
          return false;
        }
        offset := offset + size;
      }
      return true;
    }
  }

  // ----- Writing -----

  /** The rates of a bitmap below a bound, in ascending order. */
  ghost function RatesBelow(bitmap: Bitmap, bound: nat): (rates: seq<Byte>)
    requires bound <= MAX_RATE_VALUE + 1
    ensures |rates| <= bound
  {
    if bound == 0 then []
    else
      var rest := RatesBelow(bitmap, bound - 1);
      if Has(bitmap, bound - 1) then rest + [(bound - 1) as Byte] else rest
  }

  lemma {:induction false} RatesBelowExactly(bitmap: Bitmap, bound: nat, r: nat)
    requires bound <= MAX_RATE_VALUE + 1 && r < 128
    ensures (r as Byte) in RatesBelow(bitmap, bound) <==> r < bound && Has(bitmap, r)
  {
    if bound > 0 { RatesBelowExactly(bitmap, bound - 1, r); }
  }

  /** Each rate once, in ascending order. */
  lemma {:induction false} RatesAscend(bitmap: Bitmap, bound: nat, i: nat, j: nat)
    requires bound <= MAX_RATE_VALUE + 1 && i < j < |RatesBelow(bitmap, bound)|
    ensures RatesBelow(bitmap, bound)[i] < RatesBelow(bitmap, bound)[j]
  {
    hide Has;
    var rest := RatesBelow(bitmap, bound - 1);
    assert RatesBelow(bitmap, bound) == if Has(bitmap, bound - 1) then rest + [(bound - 1) as Byte] else rest;
    hide RatesBelow;
    if j < |rest| {
      RatesAscend(bitmap, bound - 1, i, j);
    } else {
      BelowIsSmall(bitmap, bound - 1, i);
    }
  }

  ghost function RatesOf(bitmap: Bitmap): seq<Byte> {
    RatesBelow(bitmap, MAX_RATE_VALUE + 1)
  }

  /** At most eight supported rates; the others, if any, are extended rates. */
  ghost function Elements(rates: seq<Byte>): seq<Byte>
    requires |rates| <= MAX_RATE_VALUE + 1
  {
    var n := Min(|rates|, SUPPORTED_RATES);
    [IE_ID_RATES, n as Byte] + rates[..n]
    + if |rates| > n then [IE_ID_RATES_EXT, (|rates| - n) as Byte] + rates[n..] else []
  }

  method CountRates(bitmap: Bitmap) returns (count: nat)
    ensures count == |RatesOf(bitmap)|
  {
    count := 0;
    for rate := 0 to MAX_RATE_VALUE + 1
      invariant count == |RatesBelow(bitmap, rate)|
    {
      if Bit(bitmap[rate / 8], rate % 8) {
        count := count + 1;
      }
    }
  }

  function RateInformationElementsSize(rateCount: nat): nat {
    2 + Min(rateCount, 8) + if rateCount > 8 then 2 + rateCount - 8 else 0
  }

  /** What has been written once some of the rates have been: the second header comes before the ninth. */
  ghost function Prefix(done: seq<Byte>, total: nat): seq<Byte>
    requires |done| <= total <= MAX_RATE_VALUE + 1
  {
    var n := Min(total, SUPPORTED_RATES);
    if |done| <= n then [IE_ID_RATES, n as Byte] + done
    else [IE_ID_RATES, n as Byte] + done[..n] + [IE_ID_RATES_EXT, (total - n) as Byte] + done[n..]
  }

  lemma {:induction false} RatesGrow(bitmap: Bitmap, bound: nat, more: nat)
    requires bound <= more <= MAX_RATE_VALUE + 1
    ensures |RatesBelow(bitmap, bound)| <= |RatesBelow(bitmap, more)|
    ensures bound < more && Has(bitmap, bound) ==> |RatesBelow(bitmap, bound)| < |RatesBelow(bitmap, more)|
    decreases more
  {
    if bound < more { RatesGrow(bitmap, bound, more - 1); }
  }

  lemma PrefixStep(done: seq<Byte>, total: nat, rate: Byte)
    requires |done| < total <= MAX_RATE_VALUE + 1
    ensures var n := Min(total, SUPPORTED_RATES);
      Prefix(done + [rate], total) ==
        if |done| == n then Prefix(done, total) + [IE_ID_RATES_EXT] + [(total - n) as Byte] + [rate] else Prefix(done, total) + [rate]
  {
  }

  /** The step for one rate that the bitmap has. */
  method PutRate(destination: array<Byte>, start: nat, at: nat, rate: Byte, rateIndex: nat, rateCount: nat,
                 ghost was: seq<Byte>, ghost done: seq<Byte>) returns (next: nat)
    requires |was| == destination.Length && rateIndex == |done| < rateCount <= MAX_RATE_VALUE + 1
    requires start + RateInformationElementsSize(rateCount) <= |was| && at == |Prefix(done, rateCount)|
    requires destination[..] == Layout(was, start, Prefix(done, rateCount))
    modifies destination
    ensures next == |Prefix(done + [rate], rateCount)| <= RateInformationElementsSize(rateCount)
    ensures destination[..] == Layout(was, start, Prefix(done + [rate], rateCount))
  {
    PrefixStep(done, rateCount, rate);
    ghost var written := Prefix(done, rateCount);
    hide Layout;
    var supported := Min(rateCount, SUPPORTED_RATES);
    var extended := rateCount - supported;
    next := at;
    if rateIndex == supported && extended != 0 {
      Put(destination, start + next, IE_ID_RATES_EXT, was, start, written);
      Put(destination, start + next + 1, extended as Byte, was, start, written + [IE_ID_RATES_EXT]);
      written := written + [IE_ID_RATES_EXT] + [extended as Byte];
      next := next + 2;
    }
    Put(destination, start + next, rate, was, start, written);
    next := next + 1;
  }

  method SerializeRateInformationElements(destination: array<Byte>, start: nat, bitmap: Bitmap, rateCount: nat) returns (offset: nat)
    requires rateCount == |RatesOf(bitmap)| && start + RateInformationElementsSize(rateCount) <= destination.Length
    modifies destination
    ensures offset == RateInformationElementsSize(rateCount)
    ensures destination[..] == old(destination[..start]) + Elements(RatesOf(bitmap)) + old(destination[start + offset..])
  {
    ghost var was := destination[..];
    destination[start] := IE_ID_RATES;
    destination[start + 1] := Min(rateCount, SUPPORTED_RATES) as Byte;
    offset := 2;
    var rateIndex := 0;
    assert destination[..] == Layout(was, start, Prefix([], rateCount));
    for rate := 0 to MAX_RATE_VALUE + 1
      invariant rateIndex == |RatesBelow(bitmap, rate)| <= rateCount && offset == |Prefix(RatesBelow(bitmap, rate), rateCount)|
      invariant offset <= RateInformationElementsSize(rateCount)
      invariant destination[..] == Layout(was, start, Prefix(RatesBelow(bitmap, rate), rateCount))
    {
      hide Layout, Prefix;
      RatesGrow(bitmap, rate, MAX_RATE_VALUE + 1);
      RatesGrow(bitmap, rate + 1, MAX_RATE_VALUE + 1);
      if !Bit(bitmap[rate / 8], rate % 8) {
        continue;
      }
      offset := PutRate(destination, start, offset, rate as Byte, rateIndex, rateCount, was, RatesBelow(bitmap, rate));
      rateIndex := rateIndex + 1;
    }
    PrefixIsElements(RatesOf(bitmap));
  }

  lemma PrefixIsElements(rates: seq<Byte>)
    requires |rates| <= MAX_RATE_VALUE + 1
    ensures Prefix(rates, |rates|) == Elements(rates) && |Elements(rates)| == RateInformationElementsSize(|rates|)
  {
  }

  // ----- There and back -----

  /** What is written: the number of supported rates, at most eight, and those; then, if there are more,
      the number of the others and those. */
  lemma WrittenExactly(rates: seq<Byte>)
    requires |rates| <= 126
    ensures |rates| <= 8 ==> Elements(rates) == [1, |rates| as Byte] + rates
    ensures |rates| > 8 ==> Elements(rates) == [1, 8] + rates[..8] + [50, (|rates| - 8) as Byte] + rates[8..]
  {
    if |rates| <= 8 { assert rates[..|rates|] == rates; }
  }

  /** The elements written for a bitmap parse back to it, but for what a rate cannot be: the result
      is the old bitmap with every rate of the new one up to 125 added. */
  lemma RatesRoundTrip(f: Fields, bitmap: Bitmap, rest: seq<Byte>)
    requires f.Valid()
    ensures var f' := f.(bitmap := WithRates(f.bitmap, RatesOf(bitmap)));
      Parsed(f, Elements(RatesOf(bitmap)) + rest) == Parsed(f', rest)
  {
    hide WithRates, RatesBelow, Parsed, Elements;
    var rates := RatesOf(bitmap);
    if |rates| <= SUPPORTED_RATES { OneElement(f, rates, rest); } else { TwoElements(f, rates, rest); }
  }

  lemma OneElement(f: Fields, rates: seq<Byte>, rest: seq<Byte>)
    requires f.Valid() && |rates| <= SUPPORTED_RATES
    ensures Parsed(f, Elements(rates) + rest) == Parsed(f.(bitmap := WithRates(f.bitmap, rates)), rest)
  {
    hide WithRates, Parsed;
    assert rates[..|rates|] == rates;
    assert Elements(rates) + rest == [IE_ID_RATES, |rates| as Byte] + rates + rest;
    ParsedElement(f, IE_ID_RATES, rates, rest);
  }

  lemma TwoElements(f: Fields, rates: seq<Byte>, rest: seq<Byte>)
    requires f.Valid() && SUPPORTED_RATES < |rates| <= MAX_RATE_VALUE + 1
    ensures Parsed(f, Elements(rates) + rest) == Parsed(f.(bitmap := WithRates(f.bitmap, rates)), rest)
  {
    hide WithRates, Parsed;
    var first, second := rates[..SUPPORTED_RATES], rates[SUPPORTED_RATES..];
    var f1 := f.(bitmap := WithRates(f.bitmap, first));
    WithRatesJoin(f.bitmap, first, second);
    assert rates == first + second;
    ElementsInTwo(rates, rest);
    ParsedElement(f, IE_ID_RATES, first, [IE_ID_RATES_EXT, |second| as Byte] + second + rest);
    ParsedElement(f1, IE_ID_RATES_EXT, second, rest);
  }

  lemma ElementsInTwo(rates: seq<Byte>, rest: seq<Byte>)
    requires SUPPORTED_RATES < |rates| <= MAX_RATE_VALUE + 1
    ensures var first, second := rates[..SUPPORTED_RATES], rates[SUPPORTED_RATES..];
      Elements(rates) + rest == [IE_ID_RATES, |first| as Byte] + first + ([IE_ID_RATES_EXT, |second| as Byte] + second + rest)
  {
  }

  lemma RateOfSmall(r: nat)
    requires r < 128
    ensures RateOf(r as Byte) == r
  {
    LowSeven(r as Byte);
  }

  lemma RatesAddedExactly(f: Bitmap, bitmap: Bitmap, r: nat)
    requires r < 128
    ensures Has(WithRates(f, RatesOf(bitmap)), r) <==> Has(f, r) || (r <= MAX_RATE_VALUE && Has(bitmap, r))
  {
    var rates := RatesOf(bitmap);
    WithRatesExactly(f, rates, r);
    RatesBelowExactly(bitmap, MAX_RATE_VALUE + 1, r);
    RateOfSmall(r);
    if i :| 0 <= i < |rates| && RateOf(rates[i]) == r {
      BelowIsSmall(bitmap, MAX_RATE_VALUE + 1, i);
      RateOfSmall(rates[i] as nat);
      assert rates[i] in rates;
    }
    if (r as Byte) in rates {
      var i :| 0 <= i < |rates| && rates[i] == r as Byte;
    }
  }

  lemma {:induction false} BelowIsSmall(bitmap: Bitmap, bound: nat, i: nat)
    requires bound <= MAX_RATE_VALUE + 1 && i < |RatesBelow(bitmap, bound)|
    ensures RatesBelow(bitmap, bound)[i] as nat < bound
  {
    if i < |RatesBelow(bitmap, bound - 1)| { BelowIsSmall(bitmap, bound - 1, i); }
  }

  lemma NoRates(r: nat)
    requires r < 128
    ensures !Has(Zeros(BITMAP_SIZE), r)
  {
    assert And(0, Mask(r % 8)) == 0;
  }

  /** Into an empty bitmap, exactly the rates from 0 to 125 come back, whatever the bitmap. */
  lemma BitmapComesBack(f: Fields, bitmap: Bitmap, r: nat)
    requires f.Valid() && f.bitmap == Zeros(BITMAP_SIZE) && r < 128
    ensures var (f', ok) := Parsed(f, Elements(RatesOf(bitmap)));
      ok && f' == f.(bitmap := f'.bitmap) && (Has(f'.bitmap, r) <==> r <= MAX_RATE_VALUE && Has(bitmap, r))
  {
    RatesRoundTrip(f, bitmap, []);
    assert Elements(RatesOf(bitmap)) + [] == Elements(RatesOf(bitmap));
    RatesAddedExactly(f.bitmap, bitmap, r);
    NoRates(r);
  }

  /** A bitmap without the two special values comes back whole. */
  lemma PlainBitmapComesBack(f: Fields, bitmap: Bitmap)
    requires f.Valid() && f.bitmap == Zeros(BITMAP_SIZE)
    ensures Parsed(f, Elements(RatesOf(bitmap))) == (f.(bitmap := bitmap), true) <==> !Has(bitmap, 126) && !Has(bitmap, 127)
  {
    hide Parsed, Elements, RatesBelow, Has;
    var f' := Parsed(f, Elements(RatesOf(bitmap))).0;
    forall r | 0 <= r < 128
      ensures Has(f'.bitmap, r) <==> r <= MAX_RATE_VALUE && Has(bitmap, r)
    {
      BitmapComesBack(f, bitmap, r);
    }
    BitmapComesBack(f, bitmap, 0);
    if !Has(bitmap, 126) && !Has(bitmap, 127) { RatesDetermine(f'.bitmap, bitmap); }
  }

  /** The SSID and the rates of an association request come back, and then whatever the caller added. */
  lemma RequestComesBack(f: Fields, ssid: seq<Byte>, bitmap: Bitmap, added: seq<Byte>)
    requires f.Valid() && f.ssid.Some? && |ssid| <= MAX_SSID_SIZE
    ensures var f' := f.(ssid := Some(ssid + [0] + f.ssid.value[|ssid| + 1..]), bitmap := WithRates(f.bitmap, RatesOf(bitmap)));
      Parsed(f, [IE_ID_SSID, |ssid| as Byte] + ssid + (Elements(RatesOf(bitmap)) + added)) == Parsed(f', added)
  {
    ParsedElement(f, IE_ID_SSID, ssid, Elements(RatesOf(bitmap)) + added);
    RatesRoundTrip(Element(f, IE_ID_SSID, ssid).0, bitmap, added);
  }
}

/** Whole runs of scanning: any interleaving of scan calls, beacons, waiters and the two work items,
    one critical section (or one action outside the lock) at a time. */
module ScanRuns {
  import opened Bytes
  import opened Options
  import opened Scan

  datatype DeviceState = Down | Scanning | Other

  /** How far a scan call, and then its work, has come. */
  datatype Stage =
    | Chosen        // the first channel chosen, nothing published
    | Refused       // the device was busy
    | Claimed       // the device state is ours
    | Tuned         // published, about to listen on the channel
    | Listening     // receiving, the work not enqueued yet
    | Waiting       // receiving, the delayed work pending
    | Draining      // the work runs, not receiving
    | Unpublished   // no channel left
    | Queued        // the cleanup work pending
    | Cleaning      // the scan state destroyed
    | Done

  datatype Attempt = Attempt(
    stage: Stage,
    pipeline: Pipeline,
    visited: seq<nat>,        // the channels listened on
    heard: seq<Capture>,      // the beacons that were recorded, as they came in, and when
    accepted: seq<Capture>,   // their records
    drained: seq<Capture>,    // the beacons read back, and when
    inserted: seq<Capture>,   // those of them handed to the cache
    completions: nat,
    short: set<nat>)          // the records for whose access points there is no memory

  datatype World = World(
    rules: Rules,
    state: DeviceState,
    context: Option<nat>,        // the published scan state
    attempts: map<nat, Attempt>,
    owner: Option<nat>,          // the scan that moved the device out of Down
    cleanup: Option<nat>,        // the cleanup work item, when pending
    waiters: map<nat, nat>,      // each listed waiter, and the scan it found in progress
    woken: map<nat, nat>)

  datatype Event =
    | Call(id: nat, short: set<nat>)
    | Claim(id: nat)
    | Publish(id: nat)
    | Listen(id: nat)
    | EnqueueWork(id: nat)
    | StartWork(id: nat)
    | DrainOne(id: nat)
    | NextOrComplete(id: nat)
    | EnqueueCleanup(id: nat)
    | RunCleanup
    | CloseCleanup(id: nat)
    | Receive(beacon: Beacon)
    | Wait(waiter: nat)
    | OtherSwap(claim: bool)     // an association, elsewhere, takes or returns the device state

  function FirstUsable(rules: Rules, above: nat): (next: int)
    ensures IsNext(rules, above, next) && (next < 0 ==> next == -1)
    decreases LAST_CHANNEL - above
  {
    if above >= LAST_CHANNEL then -1
    else if Usable(rules, above + 1) then above + 1
    else FirstUsable(rules, above + 1)
  }

  predicate At(w: World, id: nat, stage: Stage) {
    id in w.attempts && w.attempts[id].stage == stage
  }

  ghost predicate Enabled(w: World, e: Event) {
    match e
    case Call(id, _) => id !in w.attempts
    case Claim(id) => At(w, id, Chosen)
    case Publish(id) => At(w, id, Claimed)
    case Listen(id) => At(w, id, Tuned)
    case EnqueueWork(id) => At(w, id, Listening)
    case StartWork(id) => At(w, id, Waiting)
    case DrainOne(id) => At(w, id, Draining) && w.attempts[id].pipeline.beacons != [] && w.attempts[id].pipeline.beacons[0].Valid()
    case NextOrComplete(id) => At(w, id, Draining) && w.attempts[id].pipeline.beacons == []
    case EnqueueCleanup(id) => At(w, id, Unpublished)
    case RunCleanup => w.cleanup.Some? && w.cleanup.value in w.attempts
    case CloseCleanup(id) => At(w, id, Cleaning)
    case Receive(beacon) => beacon.Valid() && (w.context.Some? ==> w.context.value in w.attempts)
    case Wait(waiter) => waiter !in w.waiters && waiter !in w.woken
    case OtherSwap(claim) => w.state == if claim then Down else Other
  }

  ghost function Moved(w: World, id: nat, stage: Stage): World
    requires id in w.attempts
  {
    w.(attempts := w.attempts[id := w.attempts[id].(stage := stage)])
  }

  ghost function Listened(a: Attempt): Attempt {
    a.(stage := Listening, pipeline := a.pipeline.(receiving := true), visited := a.visited + [a.pipeline.channel as nat])
  }

  ghost function Stopped(a: Attempt): Attempt {
    a.(stage := Draining, pipeline := a.pipeline.(receiving := false))
  }

  ghost function MovedOn(rules: Rules, a: Attempt): Attempt {
    var next := FirstUsable(rules, a.pipeline.channel as nat);
    if next < 0 then a.(stage := Unpublished, completions := a.completions + 1)
    else a.(stage := Tuned, pipeline := a.pipeline.(channel := next as Byte))
  }

  ghost function Recorded(a: Attempt, b: Beacon): Attempt
    requires b.Valid()
  {
    var p := a.pipeline;
    if Accepts(p, b) then
      a.(pipeline := Accept(p, b), heard := a.heard + [Capture(b, p.channel)],
         accepted := a.accepted + [Capture(b.Stamped(p.channel), p.channel)])
    else a
  }

  ghost function ReadBack(a: Attempt): Attempt
    requires a.pipeline.beacons != [] && a.pipeline.beacons[0].Valid()
  {
    var p := a.pipeline;
    var c := Capture(p.beacons[0], p.channel);
    a.(pipeline := p.(beacons := p.beacons[1..]), drained := a.drained + [c],
       inserted := if c.Worthy() && |a.drained| !in a.short then a.inserted + [c] else a.inserted)
  }

  ghost function Step(w: World, e: Event): World
    requires Enabled(w, e)
  {
    match e
    case Call(id, short) =>
      var first := FirstUsable(w.rules, 0);
      if first < 0 then w
      else w.(attempts := w.attempts[id := Attempt(Chosen, Pipeline(first as Byte, false, []), [], [], [], [], [], 0, short)])
    case Claim(id) =>
      if w.state == Down then Moved(w, id, Claimed).(state := Scanning, owner := Some(id)) else Moved(w, id, Refused)
    case Publish(id) => Moved(w, id, Tuned).(context := Some(id))
    case Listen(id) => w.(attempts := w.attempts[id := Listened(w.attempts[id])])
    case EnqueueWork(id) => Moved(w, id, Waiting)
    case StartWork(id) => w.(attempts := w.attempts[id := Stopped(w.attempts[id])])
    case DrainOne(id) => w.(attempts := w.attempts[id := ReadBack(w.attempts[id])])
    case NextOrComplete(id) =>
      var a := MovedOn(w.rules, w.attempts[id]);
      w.(attempts := w.attempts[id := a], context := if a.stage == Unpublished then None else w.context)
    case EnqueueCleanup(id) =>
      // A request made while the item is pending is ignored.
      if w.cleanup.Some? then Moved(w, id, Queued) else Moved(w, id, Queued).(cleanup := Some(id))
    case RunCleanup => Moved(w, w.cleanup.value, Cleaning).(cleanup := None)
    case CloseCleanup(id) =>
      Moved(w, id, Done).(state := if w.state == Scanning then Down else w.state, owner := None,
        woken := w.woken + w.waiters, waiters := map[])
    case Receive(beacon) =>
      if w.context.None? then w
      else w.(attempts := w.attempts[w.context.value := Recorded(w.attempts[w.context.value], beacon)])
    case Wait(waiter) =>
      if w.state != Scanning || w.owner.None? then w else w.(waiters := w.waiters[waiter := w.owner.value])
    case OtherSwap(claim) => w.(state := if claim then Other else Down)
  }

  // ----- What every step keeps -----

  predicate Active(s: Stage) {
    s != Chosen && s != Refused && s != Done
  }

  predicate Published(s: Stage) {
    s == Tuned || s == Listening || s == Waiting || s == Draining
  }

  predicate Completed(s: Stage) {
    s == Unpublished || s == Queued || s == Cleaning || s == Done
  }

  predicate Receiving(s: Stage) {
    s == Listening || s == Waiting
  }

  predicate SamePhase(s: Stage, t: Stage) {
    Completed(s) == Completed(t) && Receiving(s) == Receiving(t) && (s == Draining <==> t == Draining)
  }

  /** The channels an attempt has listened on: all the usable ones, in order, up to where it is. */
  ghost predicate ChannelsInOrder(rules: Rules, a: Attempt) {
    var c := a.pipeline.channel as nat;
    && Usable(rules, c)
    && a.visited ==
      if Completed(a.stage) then Usables(rules, 0, LAST_CHANNEL)
      else if Receiving(a.stage) || a.stage == Draining then Usables(rules, 0, c)
      else Usables(rules, 0, c - 1)
  }

  /** Every record is of a beacon that came in while listening on that channel. */
  ghost predicate HeardAccounted(a: Attempt) {
    && |a.heard| == |a.accepted|
    && forall i :: 0 <= i < |a.heard| ==>
      a.heard[i].beacon.Valid() && RecordOf(a.heard[i], a.accepted[i]) && a.heard[i].channel as nat in a.visited
  }

  /** What was accepted is what was read back, in order, and then what is still in the buffer; only
      while listening and draining is there anything in it. */
  ghost predicate BeaconsAccounted(a: Attempt) {
    && a.pipeline.Valid() && HeardAccounted(a)
    && a.accepted == a.drained + Captures(a.pipeline.beacons, a.pipeline.channel)
    && a.inserted == Handed(a.drained, a.short)
    && (a.pipeline.receiving <==> Receiving(a.stage))
    && (a.pipeline.beacons != [] ==> Receiving(a.stage) || a.stage == Draining)
    && a.completions == if Completed(a.stage) then 1 else 0
  }

  ghost predicate OneAtATime(w: World) {
    && (w.state == Scanning <==> w.owner.Some?)
    && (w.owner.Some? ==> w.owner.value in w.attempts)
    && (forall id :: id in w.attempts ==> (Active(w.attempts[id].stage) <==> w.owner == Some(id)))
    && (forall id :: w.context == Some(id) <==> w.owner == Some(id) && Published(w.attempts[id].stage))
    && (forall id :: w.cleanup == Some(id) <==> w.owner == Some(id) && w.attempts[id].stage == Queued)
  }

  ghost predicate WaitersAccounted(w: World) {
    && (forall x :: x in w.waiters ==> w.owner == Some(w.waiters[x]) && x !in w.woken)
    && (forall x :: x in w.woken ==> At(w, w.woken[x], Done))
  }

  ghost predicate AttemptsAccounted(w: World) {
    forall id :: id in w.attempts ==> ChannelsInOrder(w.rules, w.attempts[id]) && BeaconsAccounted(w.attempts[id])
  }

  ghost predicate Inv(w: World) {
    OneAtATime(w) && WaitersAccounted(w) && AttemptsAccounted(w)
  }

  /** An event of one attempt, in isolation. */
  lemma SameAttempt(rules: Rules, a: Attempt, stage: Stage)
    requires ChannelsInOrder(rules, a) && BeaconsAccounted(a)
    requires SamePhase(a.stage, stage)
    ensures ChannelsInOrder(rules, a.(stage := stage)) && BeaconsAccounted(a.(stage := stage))
  {
  }

  lemma FirstChannel(rules: Rules, short: set<nat>)
    requires FirstUsable(rules, 0) > 0
    ensures var c := FirstUsable(rules, 0);
      var a := Attempt(Chosen, Pipeline(c as Byte, false, []), [], [], [], [], [], 0, short);
      ChannelsInOrder(rules, a) && BeaconsAccounted(a)
  {
    NoneBetween(rules, 0, FirstUsable(rules, 0) - 1);
  }

  lemma ListenKeeps(rules: Rules, a: Attempt)
    requires ChannelsInOrder(rules, a) && BeaconsAccounted(a) && a.stage == Tuned
    ensures ChannelsInOrder(rules, Listened(a)) && BeaconsAccounted(Listened(a))
  {
  }

  lemma StartKeeps(rules: Rules, a: Attempt)
    requires ChannelsInOrder(rules, a) && BeaconsAccounted(a) && a.stage == Waiting
    ensures ChannelsInOrder(rules, Stopped(a)) && BeaconsAccounted(Stopped(a))
  {
  }

  lemma ReadBackKeeps(rules: Rules, a: Attempt)
    requires ChannelsInOrder(rules, a) && BeaconsAccounted(a) && a.stage == Draining && a.pipeline.beacons != []
    ensures a.pipeline.beacons[0].Valid() && ChannelsInOrder(rules, ReadBack(a)) && BeaconsAccounted(ReadBack(a))
  {
    hide Captures, Handed, Usables, Usable, Frames, Capture.Worthy;
    var p := a.pipeline;
    RestIsValid(p);
    HandedAppend(a.drained, Capture(p.beacons[0], p.channel), a.short);
    DrainedMatches(a.drained, p.beacons, p.channel);
  }

  lemma RestIsValid(p: Pipeline)
    requires p.Valid() && p.beacons != []
    ensures p.beacons[0].Valid() && p.(beacons := p.beacons[1..]).Valid()
  {
    FramesHead(p.beacons);
  }

  /** What leaves the buffer joins what was read back. */
  lemma DrainedMatches(drained: seq<Capture>, beacons: seq<Beacon>, channel: Byte)
    requires beacons != []
    ensures drained + Captures(beacons, channel) == (drained + [Capture(beacons[0], channel)]) + Captures(beacons[1..], channel)
  {
    hide Captures;
    CapturesHead(beacons, channel);
  }

  lemma RecordedKeeps(rules: Rules, a: Attempt, b: Beacon)
    requires ChannelsInOrder(rules, a) && BeaconsAccounted(a) && b.Valid()
    ensures ChannelsInOrder(rules, Recorded(a, b)) && BeaconsAccounted(Recorded(a, b))
  {
    hide Usable, Usables, Frames, Handed, HeardAccounted;
    AcceptKeeps(a.pipeline, b);
    if Accepts(a.pipeline, b) {
      UsablesExactly(rules, 0, a.pipeline.channel as nat, a.pipeline.channel as nat);
      HearingKeeps(a, b);
    }
  }

  lemma HearingKeeps(a: Attempt, b: Beacon)
    requires HeardAccounted(a) && b.Valid() && a.pipeline.channel as nat in a.visited && Accepts(a.pipeline, b)
    ensures HeardAccounted(Recorded(a, b))
  {
    hide Frames;
  }

  lemma MoveOnKeeps(rules: Rules, a: Attempt)
    requires ChannelsInOrder(rules, a) && BeaconsAccounted(a) && a.stage == Draining && a.pipeline.beacons == []
    ensures ChannelsInOrder(rules, MovedOn(rules, a)) && BeaconsAccounted(MovedOn(rules, a))
  {
    hide FirstUsable, Captures, Handed, Frames, Usables;
    UpToNext(rules, a.pipeline.channel as nat, FirstUsable(rules, a.pipeline.channel as nat));
  }

  lemma UpToNext(rules: Rules, c: nat, next: int)
    requires IsNext(rules, c, next)
    ensures next >= 0 ==> Usables(rules, 0, next - 1) == Usables(rules, 0, c)
    ensures next < 0 && c <= LAST_CHANNEL ==> Usables(rules, 0, LAST_CHANNEL) == Usables(rules, 0, c)
  {
    NextExtends(rules, c, next);
    if next >= 0 { assert (Usables(rules, 0, c) + [next as nat])[..|Usables(rules, 0, c)|] == Usables(rules, 0, c); }
  }

  lemma AttemptKept(w: World, w': World, id: nat)
    requires AttemptsAccounted(w) && w'.rules == w.rules && id in w'.attempts
    requires w'.attempts == w.attempts[id := w'.attempts[id]]
    requires ChannelsInOrder(w.rules, w'.attempts[id]) && BeaconsAccounted(w'.attempts[id])
    ensures AttemptsAccounted(w')
  {
  }

  lemma MovedKeeps(w: World, id: nat, stage: Stage)
    requires AttemptsAccounted(w) && id in w.attempts
    requires SamePhase(w.attempts[id].stage, stage)
    ensures AttemptsAccounted(Moved(w, id, stage))
  {
    SameAttempt(w.rules, w.attempts[id], stage);
    AttemptKept(w, Moved(w, id, stage), id);
  }

  lemma WorkKeepsAttempts(w: World, e: Event)
    requires AttemptsAccounted(w) && Enabled(w, e)
    requires e.Call? || e.Listen? || e.StartWork? || e.DrainOne? || e.NextOrComplete?
    ensures AttemptsAccounted(Step(w, e))
  {
    match e
    case Call(id, short) => if FirstUsable(w.rules, 0) >= 0 { FirstChannel(w.rules, short); AttemptKept(w, Step(w, e), id); }
    case Listen(id) => ListenKeeps(w.rules, w.attempts[id]); AttemptKept(w, Step(w, e), id);
    case StartWork(id) => StartKeeps(w.rules, w.attempts[id]); AttemptKept(w, Step(w, e), id);
    case DrainOne(id) => ReadBackKeeps(w.rules, w.attempts[id]); AttemptKept(w, Step(w, e), id);
    case NextOrComplete(id) => MoveOnKeeps(w.rules, w.attempts[id]); AttemptKept(w, Step(w, e), id);
  }

  lemma ReceiveKeepsAttempts(w: World, beacon: Beacon)
    requires OneAtATime(w) && AttemptsAccounted(w) && Enabled(w, Receive(beacon))
    ensures AttemptsAccounted(Step(w, Receive(beacon)))
  {
    hide Recorded, ChannelsInOrder, BeaconsAccounted;
    if w.context.Some? {
      RecordedKeeps(w.rules, w.attempts[w.context.value], beacon);
      AttemptKept(w, Step(w, Receive(beacon)), w.context.value);
    }
  }

  /** The attempt that only moves to another stage in an event, and that stage. */
  ghost function Move(w: World, e: Event): Option<(nat, Stage)>
    requires Enabled(w, e)
  {
    match e
    case Claim(id) => Some((id, if w.state == Down then Claimed else Refused))
    case Publish(id) => Some((id, Tuned))
    case EnqueueWork(id) => Some((id, Waiting))
    case EnqueueCleanup(id) => Some((id, Queued))
    case RunCleanup => Some((w.cleanup.value, Cleaning))
    case CloseCleanup(id) => Some((id, Done))
    case _ => None
  }

  lemma MoveKeepsAttempts(w: World, e: Event)
    requires AttemptsAccounted(w) && Enabled(w, e) && Move(w, e).Some? && (e.RunCleanup? ==> At(w, w.cleanup.value, Queued))
    ensures AttemptsAccounted(Step(w, e))
  {
    hide AttemptsAccounted, Step;
    var (id, stage) := Move(w, e).value;
    MovedKeeps(w, id, stage);
    MoveOnlyMoves(w, e);
    SameAttempts(Moved(w, id, stage), Step(w, e));
  }

  lemma MoveOnlyMoves(w: World, e: Event)
    requires Enabled(w, e) && Move(w, e).Some?
    ensures var (id, stage) := Move(w, e).value;
      id in w.attempts && Step(w, e).attempts == Moved(w, id, stage).attempts && Step(w, e).rules == w.rules
  {
  }

  lemma SameAttempts(w: World, w': World)
    requires AttemptsAccounted(w) && w'.rules == w.rules && w'.attempts == w.attempts
    ensures AttemptsAccounted(w')
  {
  }

  lemma StepKeepsAttempts(w: World, e: Event)
    requires OneAtATime(w) && AttemptsAccounted(w) && Enabled(w, e)
    ensures AttemptsAccounted(Step(w, e))
  {
    if Move(w, e).Some? { MoveKeepsAttempts(w, e); }
    else if e.Receive? { ReceiveKeepsAttempts(w, e.beacon); }
    else if e.Wait? || e.OtherSwap? { SameAttempts(w, Step(w, e)); }
    else { WorkKeepsAttempts(w, e); }
  }

  predicate ByCaller(e: Event) {
    e.Call? || e.Claim? || e.Publish?
  }

  predicate ByWork(e: Event) {
    e.Listen? || e.EnqueueWork? || e.StartWork? || e.DrainOne? || e.NextOrComplete?
  }

  predicate ByCleanup(e: Event) {
    e.EnqueueCleanup? || e.RunCleanup? || e.CloseCleanup?
  }

  lemma CallerKeepsOwner(w: World, e: Event)
    requires OneAtATime(w) && Enabled(w, e) && ByCaller(e)
    ensures OneAtATime(Step(w, e))
  {
    hide Recorded, ReadBack, Listened, Stopped, MovedOn, FirstUsable;
  }

  lemma WorkKeepsOwner(w: World, e: Event)
    requires OneAtATime(w) && Enabled(w, e) && ByWork(e)
    ensures OneAtATime(Step(w, e))
  {
    hide Recorded, FirstUsable, OneAtATime;
    if e.NextOrComplete? { MoveOnKeepsOwner(w, e.id); } else { StayingKeepsOwner(w, e); }
  }

  lemma MoveOnKeepsOwner(w: World, id: nat)
    requires OneAtATime(w) && Enabled(w, NextOrComplete(id))
    ensures OneAtATime(Step(w, NextOrComplete(id)))
  {
    hide FirstUsable;
  }

  lemma StayingKeepsOwner(w: World, e: Event)
    requires OneAtATime(w) && Enabled(w, e) && ByWork(e) && !e.NextOrComplete?
    ensures OneAtATime(Step(w, e))
  {
    hide Recorded, FirstUsable, MovedOn;
  }

  lemma CloseKeepsOwner(w: World, id: nat)
    requires OneAtATime(w) && Enabled(w, CloseCleanup(id))
    ensures OneAtATime(Step(w, CloseCleanup(id)))
  {
  }

  lemma CleanupKeepsOwner(w: World, e: Event)
    requires OneAtATime(w) && Enabled(w, e) && (e.EnqueueCleanup? || e.RunCleanup?)
    ensures OneAtATime(Step(w, e))
  {
    hide Recorded, ReadBack, Listened, Stopped, MovedOn, FirstUsable;
  }

  lemma OthersKeepOwner(w: World, e: Event)
    requires OneAtATime(w) && Enabled(w, e) && !ByCaller(e) && !ByWork(e) && !ByCleanup(e)
    ensures OneAtATime(Step(w, e))
  {
  }

  lemma StepKeepsOwner(w: World, e: Event)
    requires OneAtATime(w) && Enabled(w, e)
    ensures OneAtATime(Step(w, e))
  {
    if ByCaller(e) { CallerKeepsOwner(w, e); }
    else if ByWork(e) { WorkKeepsOwner(w, e); }
    else if e.CloseCleanup? { CloseKeepsOwner(w, e.id); }
    else if ByCleanup(e) { CleanupKeepsOwner(w, e); }
    else { OthersKeepOwner(w, e); }
  }

  lemma CleanupKeepsWaiters(w: World, e: Event)
    requires OneAtATime(w) && WaitersAccounted(w) && Enabled(w, e) && ByCleanup(e)
    ensures WaitersAccounted(Step(w, e))
  {
    hide FirstUsable;
  }

  lemma WorkKeepsWaiters(w: World, e: Event)
    requires OneAtATime(w) && WaitersAccounted(w) && Enabled(w, e) && ByWork(e)
    ensures WaitersAccounted(Step(w, e))
  {
  }

  lemma StepKeepsWaiters(w: World, e: Event)
    requires OneAtATime(w) && WaitersAccounted(w) && Enabled(w, e)
    ensures WaitersAccounted(Step(w, e))
  {
    hide Recorded, ReadBack, Listened, Stopped, MovedOn, FirstUsable;
    if ByCleanup(e) { CleanupKeepsWaiters(w, e); }
    else if ByWork(e) { WorkKeepsWaiters(w, e); }
  }

  /** Every step of every interleaving keeps the invariant. */
  lemma StepKeeps(w: World, e: Event)
    requires Inv(w) && Enabled(w, e)
    ensures Inv(Step(w, e))
  {
    StepKeepsOwner(w, e);
    StepKeepsWaiters(w, e);
    StepKeepsAttempts(w, e);
  }

  // ----- Whole runs -----

  ghost predicate Possible(w: World, events: seq<Event>)
    decreases |events|
  {
    events != [] ==> Enabled(w, events[0]) && Possible(Step(w, events[0]), events[1..])
  }

  ghost function Play(w: World, events: seq<Event>): World
    requires Possible(w, events)
    decreases |events|
  {
    if events == [] then w else Play(Step(w, events[0]), events[1..])
  }

  lemma {:induction false} PlayKeeps(w: World, events: seq<Event>)
    requires Inv(w) && Possible(w, events)
    ensures Inv(Play(w, events))
    decreases |events|
  {
    if events != [] {
      StepKeeps(w, events[0]);
      PlayKeeps(Step(w, events[0]), events[1..]);
    }
  }

  lemma {:induction false} RulesStay(w: World, events: seq<Event>)
    requires Possible(w, events)
    ensures Play(w, events).rules == w.rules
    decreases |events|
  {
    if events != [] { RulesStay(Step(w, events[0]), events[1..]); }
  }

  ghost function Start(rules: Rules): World {
    World(rules, Down, None, map[], None, None, map[], map[])
  }

  /** In every reachable world, whatever the channel rules: a scan that has completed did so once, and
      listened on exactly the usable channels, each once, in ascending order; everything it recorded
      was read back in order, and exactly the beacons worth keeping went to the cache. */
  lemma CompletedScans(rules: Rules, events: seq<Event>, id: nat)
    requires Possible(Start(rules), events)
    requires var w := Play(Start(rules), events); id in w.attempts && Completed(w.attempts[id].stage)
    ensures var a := Play(Start(rules), events).attempts[id];
      && a.completions == 1
      && (forall c :: c in a.visited <==> 1 <= c <= 14 && !rules[c - 1].disabled && !rules[c - 1].passive)
      && (forall i, j :: 0 <= i < j < |a.visited| ==> a.visited[i] < a.visited[j])
      && a.drained == a.accepted
      && (forall i :: 0 <= i < |a.heard| ==> a.heard[i].channel as nat in a.visited)
      && (forall c :: c in a.inserted <==> exists i :: 0 <= i < |a.heard| && i !in a.short && ForTheCache(a.heard[i], c))
  {
    PlayKeeps(Start(rules), events);
    RulesStay(Start(rules), events);
    CompletedAttempt(rules, Play(Start(rules), events).attempts[id]);
  }

  /** A beacon heard on a channel that goes to the cache, as this record: it names no channel or that one. */
  ghost predicate ForTheCache(heard: Capture, c: Capture) {
    && RecordOf(heard, c)
    && (heard.beacon.header[CHANNEL] == 0 || heard.beacon.header[CHANNEL] == heard.channel)
    && IndividualAddress(heard.beacon.header[..ADDRESS_SIZE])
  }

  lemma InsertedExactly(a: Attempt, c: Capture)
    requires HeardAccounted(a)
    ensures (exists i :: 0 <= i < |a.accepted| && a.accepted[i] == c && c.Worthy() && i !in a.short)
      <==> (exists i :: 0 <= i < |a.heard| && i !in a.short && ForTheCache(a.heard[i], c))
  {
    hide RecordOf, Capture.Worthy, IndividualAddress;
    forall i | 0 <= i < |a.heard|
      ensures a.accepted[i] == c && c.Worthy() <==> ForTheCache(a.heard[i], c)
    {
      RecordIsWorthy(a.heard[i], a.accepted[i]);
      if RecordOf(a.heard[i], c) { RecordIsUnique(a.heard[i], a.accepted[i], c); }
    }
  }

  lemma CompletedAttempt(rules: Rules, a: Attempt)
    requires ChannelsInOrder(rules, a) && BeaconsAccounted(a) && Completed(a.stage)
    ensures (forall c :: c in a.visited <==> Usable(rules, c)) && a.completions == 1 && a.drained == a.accepted
    ensures forall i, j :: 0 <= i < j < |a.visited| ==> a.visited[i] < a.visited[j]
    ensures forall c :: c in a.inserted <==> exists i :: 0 <= i < |a.heard| && i !in a.short && ForTheCache(a.heard[i], c)
  {
    forall c ensures c in a.visited <==> Usable(rules, c) { UsablesExactly(rules, 0, LAST_CHANNEL, c); }
    UsablesAscend(rules, 0, LAST_CHANNEL);
    forall c
      ensures c in a.inserted <==> exists i :: 0 <= i < |a.heard| && i !in a.short && ForTheCache(a.heard[i], c)
    {
      HandedExactly(a.drained, c, a.short);
      InsertedExactly(a, c);
    }
  }

  /** In every reachable world at most one scan is under way, exactly when the device says so; nobody
      waits unless one is; whoever was woken waited on a scan that is over. */
  lemma ReachableIsExclusive(rules: Rules, events: seq<Event>)
    requires Possible(Start(rules), events)
    ensures var w := Play(Start(rules), events);
      && (forall i, j :: i in w.attempts && j in w.attempts && Active(w.attempts[i].stage) && Active(w.attempts[j].stage) ==> i == j)
      && (w.state == Scanning <==> exists i :: i in w.attempts && Active(w.attempts[i].stage))
      && (forall x :: x in w.waiters ==> w.state == Scanning && w.waiters[x] in w.attempts && Active(w.attempts[w.waiters[x]].stage))
      && (forall x :: x in w.woken ==> At(w, w.woken[x], Done))
  {
    PlayKeeps(Start(rules), events);
    var w := Play(Start(rules), events);
    if w.owner.Some? { assert Active(w.attempts[w.owner.value].stage); }
  }

  /** Nothing is recorded while the work drains: the receive path changes nothing then. */
  lemma NoWriterWhileDraining(w: World, id: nat, beacon: Beacon)
    requires Inv(w) && At(w, id, Draining) && Enabled(w, Receive(beacon))
    ensures Step(w, Receive(beacon)) == w
  {
    hide WaitersAccounted, ChannelsInOrder, Captures, Handed;
    var a := w.attempts[id];
    assert Recorded(a, beacon) == a;
    assert w.attempts[id := a] == w.attempts;
  }

  /** The cleanup request of a completed scan is never the one that is ignored. */
  lemma CleanupIsNeverIgnored(w: World, id: nat)
    requires Inv(w) && Enabled(w, EnqueueCleanup(id))
    ensures Step(w, EnqueueCleanup(id)).cleanup == Some(id)
  {
    hide WaitersAccounted, AttemptsAccounted;
    assert w.owner == Some(id);
  }

  // ----- Every scan can finish -----

  ghost function OwnNext(w: World): Event
    requires w.owner.Some? && w.owner.value in w.attempts
  {
    var id := w.owner.value;
    var a := w.attempts[id];
    match a.stage
    case Claimed => Publish(id)
    case Tuned => Listen(id)
    case Listening => EnqueueWork(id)
    case Waiting => StartWork(id)
    case Draining => if a.pipeline.beacons != [] then DrainOne(id) else NextOrComplete(id)
    case Unpublished => EnqueueCleanup(id)
    case Queued => RunCleanup
    case _ => CloseCleanup(id)
  }

  ghost function Rank(s: Stage): nat {
    match s
    case Claimed => 7
    case Tuned => 6
    case Listening => 5
    case Waiting => 4
    case Draining => 3
    case Unpublished => 2
    case Queued => 1
    case _ => 0
  }

  /** How far an attempt is from its end: the channels left, then the stage, then, while it is drained,
      what is left in the buffer. */
  ghost function Distance(a: Attempt): nat
    requires a.pipeline.Valid()
  {
    ((LAST_CHANNEL - a.pipeline.channel as nat) * 8 + Rank(a.stage)) * (BUFFER_SIZE + 1)
    + if a.stage == Draining then |a.pipeline.beacons| else 0
  }

  lemma {:induction false} BeaconsFit(beacons: seq<Beacon>)
    requires AllValid(beacons)
    ensures |beacons| <= |Frames(beacons)|
  {
    if beacons != [] {
      FramesHead(beacons);
      BeaconsFit(beacons[1..]);
    }
  }

  lemma OwnerCan(w: World)
    requires OneAtATime(w) && w.owner.Some?
    requires var a := w.attempts[w.owner.value]; a.pipeline.beacons != [] ==> a.pipeline.beacons[0].Valid()
    ensures Enabled(w, OwnNext(w))
  {
    hide Frames, Usable;
  }

  /** What the next step makes of the attempt. */
  ghost function Advanced(rules: Rules, a: Attempt): Attempt
    requires a.pipeline.beacons != [] ==> a.pipeline.beacons[0].Valid()
  {
    match a.stage
    case Claimed => a.(stage := Tuned)
    case Tuned => Listened(a)
    case Listening => a.(stage := Waiting)
    case Waiting => Stopped(a)
    case Draining => if a.pipeline.beacons != [] then ReadBack(a) else MovedOn(rules, a)
    case Unpublished => a.(stage := Queued)
    case Queued => a.(stage := Cleaning)
    case _ => a.(stage := Done)
  }

  lemma AdvancedIsNearer(rules: Rules, a: Attempt)
    requires ChannelsInOrder(rules, a) && BeaconsAccounted(a) && Active(a.stage)
    ensures a.pipeline.beacons != [] ==> a.pipeline.beacons[0].Valid()
    ensures if a.stage == Cleaning then Advanced(rules, a).stage == Done
      else Advanced(rules, a).pipeline.Valid() && Distance(Advanced(rules, a)) < Distance(a)
  {
    hide Frames, Usable, Usables, FirstUsable, Captures, Handed, ReadBack, MovedOn;
    if a.stage == Draining {
      if a.pipeline.beacons != [] { ReadBackIsNearer(a); } else { MovedOnIsNearer(rules, a); }
    }
    BeaconsFit(a.pipeline.beacons);
  }

  lemma ReadBackIsNearer(a: Attempt)
    requires a.pipeline.Valid() && a.stage == Draining && a.pipeline.beacons != []
    ensures a.pipeline.beacons[0].Valid() && ReadBack(a).pipeline.Valid() && Distance(ReadBack(a)) < Distance(a)
  {
    hide Frames;
    RestIsValid(a.pipeline);
  }

  lemma MovedOnIsNearer(rules: Rules, a: Attempt)
    requires a.pipeline.Valid() && a.stage == Draining && a.pipeline.beacons == []
    ensures MovedOn(rules, a).pipeline.Valid() && Distance(MovedOn(rules, a)) < Distance(a)
  {
    hide Frames, FirstUsable;
  }

  lemma OwnStep(w: World)
    requires w.owner.Some? && w.owner.value in w.attempts && w.state == Scanning && Enabled(w, OwnNext(w))
    requires var a := w.attempts[w.owner.value];
      && Active(a.stage) && (a.stage == Queued ==> w.cleanup == w.owner)
      && (a.pipeline.beacons != [] ==> a.pipeline.beacons[0].Valid())
    ensures var id, w' := w.owner.value, Step(w, OwnNext(w));
      && w'.attempts == w.attempts[id := Advanced(w.rules, w.attempts[id])] && w'.rules == w.rules
      && if w.attempts[id].stage == Cleaning then
           w'.state == Down && w'.waiters == map[] && w'.woken == w.woken + w.waiters
         else
           w'.owner == w.owner && w'.waiters == w.waiters && w'.woken == w.woken
  {
  }

  lemma OwnerGoesOn(w: World)
    requires Inv(w) && w.owner.Some?
    ensures Enabled(w, OwnNext(w)) && Inv(Step(w, OwnNext(w)))
    ensures var id, w' := w.owner.value, Step(w, OwnNext(w));
      && id in w'.attempts && w'.rules == w.rules
      && if w.attempts[id].stage == Cleaning then
           w'.state == Down && w'.waiters == map[] && w'.woken == w.woken + w.waiters && w'.attempts[id].stage == Done
         else
           w'.owner == w.owner && w'.waiters == w.waiters && w'.woken == w.woken
           && Distance(w'.attempts[id]) < Distance(w.attempts[id])
  {
    hide Enabled, Step, OwnNext, Distance, Inv, Advanced, ChannelsInOrder, BeaconsAccounted;
    OwnerIsAccounted(w);
    AdvancedIsNearer(w.rules, w.attempts[w.owner.value]);
    OwnerCan(w);
    StepKeeps(w, OwnNext(w));
    OwnStep(w);
  }

  lemma OwnerIsAccounted(w: World)
    requires Inv(w) && w.owner.Some?
    ensures OneAtATime(w) && w.owner.value in w.attempts && w.state == Scanning
    ensures var a := w.attempts[w.owner.value];
      && Active(a.stage) && (a.stage == Queued ==> w.cleanup == w.owner)
      && ChannelsInOrder(w.rules, a) && BeaconsAccounted(a) && a.pipeline.Valid()
  {
  }

  /** The rest of the scan, alone. */
  ghost function Finished(w: World): World
    requires Inv(w) && w.owner.Some?
    decreases Distance(w.attempts[w.owner.value])
  {
    OwnerGoesOn(w);
    var w' := Step(w, OwnNext(w));
    if w.attempts[w.owner.value].stage == Cleaning then w' else Finished(w')
  }

  /** From any reachable world, the scan under way can go on to its end without waiting for anyone;
      then the device is down, everyone who waited is woken, and no channel was left out. */
  lemma {:induction false} ScanFinishes(w: World)
    requires Inv(w) && w.owner.Some?
    ensures var w', id := Finished(w), w.owner.value;
      && Inv(w') && w'.state == Down && At(w', id, Done) && w'.attempts[id].visited == Usables(w.rules, 0, LAST_CHANNEL)
      && w'.waiters == map[] && forall x :: x in w.waiters ==> x in w'.woken && w'.woken[x] == id
    decreases Distance(w.attempts[w.owner.value])
  {
    OwnerGoesOn(w);
    if w.attempts[w.owner.value].stage != Cleaning {
      ScanFinishes(Step(w, OwnNext(w)));
    }
  }

  // ----- ... under every interleaving -----

  /** Whoever else takes a step leaves the scan under way where it is, or records a beacon for it. */
  lemma OthersLeaveAlone(w: World, e: Event)
    requires OneAtATime(w) && w.owner.Some? && Enabled(w, e) && e != OwnNext(w)
    ensures LeftAlone(w, Step(w, e), e)
  {
    hide LeftAlone, OneAtATime, Step, Recorded, OwnNext;
    if ByWork(e) {
      WorkIsOwn(w, e);
      assert false;
    }
    if ByCleanup(e) {
      CleanupIsOwn(w, e);
      assert false;
    }
    if ByCaller(e) { CallerLeavesAlone(w, e); } else { ReceivingLeavesAlone(w, e); }
  }

  ghost predicate LeftAlone(w: World, w': World, e: Event)
    requires w.owner.Some? && w.owner.value in w.attempts && (e.Receive? ==> e.beacon.Valid())
  {
    var id := w.owner.value;
    && w'.owner == w.owner && (forall x :: x in w.waiters ==> x in w'.waiters) && id in w'.attempts
    && (w'.attempts[id] == w.attempts[id] || (e.Receive? && w'.attempts[id] == Recorded(w.attempts[id], e.beacon)))
  }

  lemma CallerLeavesAlone(w: World, e: Event)
    requires OneAtATime(w) && w.owner.Some? && Enabled(w, e) && e != OwnNext(w) && ByCaller(e)
    ensures LeftAlone(w, Step(w, e), e)
  {
    hide Recorded, ReadBack, Listened, Stopped, MovedOn, FirstUsable;
  }

  lemma CleanupIsOwn(w: World, e: Event)
    requires OneAtATime(w) && Enabled(w, e) && ByCleanup(e)
    ensures w.owner.Some? && e == OwnNext(w)
  {
    hide FirstUsable, Frames;
  }

  /** The work of a scan, and its cleanup, have nothing to do but the next step of the scan under way. */
  lemma WorkIsOwn(w: World, e: Event)
    requires OneAtATime(w) && Enabled(w, e) && ByWork(e)
    ensures w.owner.Some? && e == OwnNext(w)
  {
    hide FirstUsable, Frames;
  }

  lemma ReceivingLeavesAlone(w: World, e: Event)
    requires OneAtATime(w) && w.owner.Some? && Enabled(w, e) && !ByCaller(e) && !ByCleanup(e) && !ByWork(e)
    ensures LeftAlone(w, Step(w, e), e)
  {
    hide Recorded, ReadBack, Listened, Stopped, MovedOn, FirstUsable, OwnNext;
  }

  lemma RecordingSetsNothingBack(a: Attempt, b: Beacon)
    requires a.pipeline.Valid() && b.Valid() && (a.stage == Draining ==> !a.pipeline.receiving)
    ensures Recorded(a, b).pipeline.Valid() && Distance(Recorded(a, b)) == Distance(a)
  {
    hide Frames;
    AcceptKeeps(a.pipeline, b);
  }

  ghost predicate UnderWay(w: World, id: nat) {
    Inv(w) && w.owner == Some(id)
  }

  lemma ComesNearer(w: World, id: nat, e: Event)
    requires UnderWay(w, id) && Enabled(w, e) && !(e == OwnNext(w) && e.CloseCleanup?)
    ensures w.attempts[id].pipeline.Valid() && UnderWay(Step(w, e), id) && Step(w, e).attempts[id].pipeline.Valid()
    ensures var w' := Step(w, e);
      && (forall x :: x in w.waiters ==> x in w'.waiters)
      && Distance(w'.attempts[id]) + (if e == OwnNext(w) then 1 else 0) <= Distance(w.attempts[id])
  {
    hide Step, Distance, Enabled, Inv, OwnNext;
    UnderWayIsValid(w, id);
    StepKeeps(w, e);
    if e == OwnNext(w) {
      NotTheLast(w, id);
      OwnerGoesOn(w);
    } else {
      OtherComesNoFurther(w, id, e);
    }
    UnderWayIsValid(Step(w, e), id);
  }

  lemma UnderWayIsValid(w: World, id: nat)
    requires UnderWay(w, id)
    ensures id in w.attempts && w.attempts[id].pipeline.Valid() && Active(w.attempts[id].stage)
    ensures w.attempts[id].stage == Draining ==> !w.attempts[id].pipeline.receiving
  {
  }

  lemma NotTheLast(w: World, id: nat)
    requires UnderWay(w, id) && id in w.attempts && Active(w.attempts[id].stage)
    ensures OwnNext(w).CloseCleanup? <==> w.attempts[id].stage == Cleaning
    ensures OwnNext(w).CloseCleanup? ==> OwnNext(w) == CloseCleanup(id)
  {
    hide Inv;
  }

  lemma OtherComesNoFurther(w: World, id: nat, e: Event)
    requires UnderWay(w, id) && id in w.attempts && w.attempts[id].pipeline.Valid()
    requires w.attempts[id].stage == Draining ==> !w.attempts[id].pipeline.receiving
    requires Enabled(w, e) && e != OwnNext(w)
    ensures var w' := Step(w, e);
      && w'.owner == w.owner && (forall x :: x in w.waiters ==> x in w'.waiters)
      && id in w'.attempts && w'.attempts[id].pipeline.Valid() && Distance(w'.attempts[id]) == Distance(w.attempts[id])
  {
    hide Step, Distance, Recorded, OneAtATime, WaitersAccounted, AttemptsAccounted, OwnNext;
    OthersLeaveAlone(w, e);
    if e.Receive? { RecordingSetsNothingBack(w.attempts[id], e.beacon); }
  }

  lemma CloseEnds(w: World, id: nat)
    requires UnderWay(w, id) && Enabled(w, CloseCleanup(id))
    ensures Ended(w, Step(w, CloseCleanup(id)), id)
  {
  }

  /** The scan is over: the device is down, every usable channel was listened on, and whoever waited is woken. */
  ghost predicate Ended(w: World, w': World, id: nat) {
    && At(w', id, Done) && w'.state == Down && w'.attempts[id].visited == Usables(w.rules, 0, LAST_CHANNEL)
    && forall x :: x in w.waiters ==> x in w'.woken && w'.woken[x] == id
  }

  /** The steps of a run in which the scan under way, or its cleanup, does its next step. */
  ghost function OwnSteps(w: World, events: seq<Event>): nat
    requires Possible(w, events)
    decreases |events|
  {
    if events == [] then 0
    else
      (if w.owner.Some? && w.owner.value in w.attempts && events[0] == OwnNext(w) then 1 else 0)
      + OwnSteps(Step(w, events[0]), events[1..])
  }

  /** In any interleaving, once the scan has done so many of its own steps, it is over. */
  lemma {:induction false} FairRunsFinish(w: World, id: nat, events: seq<Event>) returns (n: nat)
    requires UnderWay(w, id) && Possible(w, events) && w.attempts[id].pipeline.Valid()
    requires OwnSteps(w, events) > Distance(w.attempts[id])
    ensures n < |events| && Possible(w, events[..n + 1]) && Ended(w, Play(w, events[..n + 1]), id)
    decreases |events|
  {
    hide Step, Enabled, Distance, Inv, Ended, OwnNext;
    UnderWayIsValid(w, id);
    var e, w1 := events[0], Step(w, events[0]);
    NotTheLast(w, id);
    if e == OwnNext(w) && e.CloseCleanup? {
      n := 0;
      CloseEnds(w, id);
      PlayFirst(w, e, []);
      assert events[..1] == [e] + [];
    } else {
      ComesNearer(w, id, e);
      n := FairRunsFinish(w1, id, events[1..]);
      PlayFirst(w, e, events[1..][..n + 1]);
      n := n + 1;
      assert events[..n + 1] == [e] + events[1..][..n];
      RulesStay(w, [e]);
      PlayFirst(w, e, []);
      EndedSince(w, w1, Play(w, events[..n + 1]), id);
    }
  }

  lemma EndedSince(w: World, w1: World, w': World, id: nat)
    requires Ended(w1, w', id) && w1.rules == w.rules && forall x :: x in w.waiters ==> x in w1.waiters
    ensures Ended(w, w', id)
  {
  }

  lemma PlayFirst(w: World, e: Event, rest: seq<Event>)
    requires Enabled(w, e) && Possible(Step(w, e), rest)
    ensures Possible(w, [e] + rest) && Play(w, [e] + rest) == Play(Step(w, e), rest)
  {
    assert ([e] + rest)[1..] == rest;
  }
}

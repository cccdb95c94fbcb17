/** Whole runs of the association protocol: any interleaving of frames, timers, callers, scans and
    the cleanup work, one critical section (or one action outside the lock) at a time. */
module AssociationRuns {
  import opened Association
  import opened Options

  /** The cleanup work item.  One run at a time: Begun before its first section, Holding what it
      took there, Closing once the context is destroyed and the last section is still to come. */
  datatype Run = Idle | Begun | Holding(taken: Option<Context>) | Closing(context: Context)

  datatype World = World(
    device: Device,
    refs: multiset<Ap>,              // references this layer holds on access points
    locals: multiset<Ap>,            // those of them held only in a local variable, to be released
    ready: nat,                      // associate calls between their two sections
    leaving: nat,                    // leave calls between their two sections
    run: Run,
    queued: bool,                    // the work item is pending
    requests: nat,                   // threads past a section that will enqueue the work
    created: set<Context>,
    completed: map<Context, Status>, // how each attempt ended
    destroyed: multiset<Context>,
    waitingFor: map<nat, Context>,   // the attempt each listed waiter waits on
    woken: map<nat, (Context, Status)>,
    last: Option<Context>,           // the context published last
    answered: map<nat, (Option<Context>, Status)>)   // those who asked when there was nothing to wait for: the last attempt, and the answer

  const START := World(INITIAL, multiset{}, multiset{}, 0, 0, Idle, false, 0, {}, map[], multiset{}, map[], map[], None, map[])

  datatype Event =
    | ScanSwap(starting: bool)
    | AssociateFirst
    | AssociateSecond(target: Ap, id: nat)
    | Received(stimulus: Stimulus)
    | Enqueue
    | RunStart
    | RunTake
    | RunDestroy
    | RunClose
    | LeaveFirst
    | LeaveSecond
    | ReleaseLocal(ap: Ap)
    | WaitFirst(waiter: nat)
    | SendFirst
    | Seen(frame: Numbered, expected: DeviceState)

  ghost predicate Enabled(w: World, e: Event) {
    match e
    case ScanSwap(starting) => w.device.state == if starting then Down else Scanning
    case AssociateSecond(_, id) => w.ready > 0 && forall c :: c in w.created ==> c.id != id
    case Received(s) => s.TimedOutAt? ==> Attempting(s.expected)
    case Enqueue => w.requests > 0
    case RunStart => w.queued && w.run.Idle?
    case RunTake => w.run.Begun?
    case RunDestroy => w.run.Holding?
    case RunClose => w.run.Closing?
    case LeaveSecond => w.leaving > 0
    case ReleaseLocal(ap) => ap in w.locals
    case WaitFirst(waiter) => waiter !in w.waitingFor && waiter !in w.woken && waiter !in w.answered
    case _ => true
  }

  ghost function One(ap: Option<Ap>): multiset<Ap> {
    if ap.None? then multiset{} else multiset{ap.value}
  }

  ghost function Step(w: World, e: Event): World
    requires Enabled(w, e)
  {
    var d := w.device;
    match e
    case ScanSwap(starting) => w.(device := d.(state := if starting then Scanning else Down))
    case AssociateFirst =>
      w.(device := TakeDisconnected(d), locals := w.locals + One(d.disconnectedAp), ready := w.ready + 1)
    case AssociateSecond(target, id) =>
      var (d', ok) := Publish(d, id, target);
      var c := Context(id, target, d.generation);
      w.(device := d', ready := w.ready - 1, created := w.created + {c},
         refs := if ok then w.refs + multiset{target} else w.refs,
         destroyed := if ok then w.destroyed else w.destroyed + multiset{c},
         last := if ok then Some(c) else w.last)
    case Received(stimulus) =>
      var r := React(d, stimulus);
      w.(device := r.device,
         requests := if r.cleanup then w.requests + 1 else w.requests,
         completed := if d.context.Some? && r.cleanup then w.completed[d.context.value := r.device.result] else w.completed,
         refs := if d.context.Some? && r.device.state == Associated then w.refs + One(d.ap) else w.refs)
    case Enqueue => w.(requests := w.requests - 1, queued := true)
    case RunStart => w.(queued := false, run := Begun)
    case RunTake => w.(device := TakeDisconnected(d), locals := w.locals + One(d.disconnectedAp), run := Holding(d.cleanupContext))
    case RunDestroy =>
      if w.run.taken.None? then w.(run := Idle)
      else
        var c := w.run.taken.value;
        w.(run := Closing(c), refs := w.refs - multiset{c.ap}, destroyed := w.destroyed + multiset{c})
    case RunClose =>
      w.(device := Cleaned(d), run := Idle, waitingFor := map[],
         woken := w.woken + Waking(w.waitingFor, d.result))
    case LeaveFirst => w.(device := Leave(d).0, leaving := if Leave(d).1 then w.leaving + 1 else w.leaving)
    case LeaveSecond => w.(device := Left(d).0, leaving := w.leaving - 1, locals := w.locals + One(Left(d).1))
    case ReleaseLocal(ap) => w.(locals := w.locals - multiset{ap}, refs := w.refs - multiset{ap})
    case WaitFirst(waiter) =>
      var (d', ready) := Await(d, waiter);
      if ready.Some? then w.(device := d', answered := w.answered[waiter := (w.last, ready.value)])
      else w.(device := d', waitingFor := w.waitingFor[waiter := Attempt(d)])
    case SendFirst =>
      // A transmission holds the access point while it needs its address.
      var ap := if d.state == Associated then d.ap else None;
      w.(locals := w.locals + One(ap), refs := w.refs + One(ap))
    case Seen(frame, expected) => w.(device := Filter(d, expected, frame).0)
  }

  /** Each waiter, with the attempt it waited on and the result it wakes with. */
  ghost function Waking(waitingFor: map<nat, Context>, result: Status): map<nat, (Context, Status)> {
    map x | x in waitingFor :: (waitingFor[x], result)
  }

  /** The attempt a new waiter would wait on. */
  ghost function Attempt(d: Device): Context {
    if d.context.Some? then d.context.value else if d.cleanupContext.Some? then d.cleanupContext.value else Context(0, Ap(0, []), 0)
  }

  // ----- What every step keeps -----

  /** A context that is still to be destroyed. */
  ghost predicate Live(w: World, c: Context) {
    w.device.context == Some(c) || (w.device.cleanupContext == Some(c) && !w.run.Closing?)
  }

  ghost predicate CleanupOnItsWay(w: World) {
    && (w.run.Holding? && w.run.taken.Some? ==> w.device.cleanupContext == w.run.taken)
    && (w.run.Closing? ==> w.device.cleanupContext == Some(w.run.context))
    && (w.device.cleanupPending ==>
      w.requests > 0 || w.queued || w.run.Begun? || w.run == Holding(w.device.cleanupContext) || w.run.Closing?)
  }

  ghost predicate ContextsAccounted(w: World) {
    && (forall c :: Live(w, c) ==> c in w.created)
    && (forall c :: w.destroyed[c] == if c in w.created && !Live(w, c) then 1 else 0)
  }

  ghost predicate OutcomesAccounted(w: World) {
    && (w.device.context.Some? ==> w.device.context.value in w.created && w.device.context.value !in w.completed)
    && (w.device.cleanupContext.Some? ==>
      var c := w.device.cleanupContext.value; c in w.completed && w.completed[c] == w.device.result)
    && (forall c :: c in w.completed ==> c in w.created)
  }

  ghost predicate WaitersAccounted(w: World) {
    && (forall x :: x in w.waitingFor <==> x in w.device.waiters)
    && (forall x :: x in w.waitingFor ==> w.waitingFor[x] == Attempt(w.device) && x !in w.woken)
    && (forall x :: x in w.woken ==> w.woken[x].0 in w.completed && w.completed[w.woken[x].0] == w.woken[x].1)
  }

  /** How an attempt ended, where there was one. */
  ghost predicate EndedWith(w: World, c: Option<Context>, result: Status) {
    if c.None? then result == UnknownError else c.value in w.completed && w.completed[c.value] == result
  }

  /** Between attempts the stored result is the outcome of the last one, and that is what a late caller got. */
  ghost predicate AnswersAccounted(w: World) {
    && (w.device.context.Some? ==> w.last == w.device.context)
    && (w.device.cleanupContext.Some? ==> w.last == w.device.cleanupContext)
    && (w.device.context.None? ==> EndedWith(w, w.last, w.device.result))
    && (forall x :: x in w.answered ==> EndedWith(w, w.answered[x].0, w.answered[x].1))
  }

  ghost predicate Core(w: World) {
    && Sound(w.device) && CleanupOnItsWay(w) && ContextsAccounted(w) && OutcomesAccounted(w) && WaitersAccounted(w)
  }

  ghost predicate Inv(w: World) {
    Core(w) && AnswersAccounted(w)
  }

  lemma ReceivedKeeps(w: World, s: Stimulus)
    requires Core(w) && Enabled(w, Received(s))
    ensures Core(Step(w, Received(s)))
  {
    hide React, Sound, CleanupOnItsWay, ContextsAccounted, OutcomesAccounted, WaitersAccounted;
    ReactionAdvances(w.device, s);
    var w', r := Step(w, Received(s)), React(w.device, s);
    if !r.cleanup || w.device.context.None? {
      SameBooks(w, w');
    } else {
      EndKeeps(w, w', r.device.state, r.device.ap, r.device.result);
    }
  }

  lemma EndKeeps(w: World, w': World, state: DeviceState, ap: Option<Ap>, result: Status)
    requires Core(w) && w.device.context.Some? && w'.device == Finish(w.device, state, ap, w.device.context, result)
    requires Sound(w'.device)
    requires w' == w.(device := w'.device, refs := w'.refs, requests := w.requests + 1, completed := w.completed[w.device.context.value := result])
    ensures Core(w')
  {
    assert forall c :: Live(w', c) <==> Live(w, c);
  }

  /** The bookkeeping does not depend on the rest of the device. */
  lemma SameBooks(w: World, w': World)
    requires Core(w) && Sound(w'.device) && w'.requests >= w.requests
    requires w'.run == w.run && w'.queued == w.queued && w'.created == w.created && w'.completed == w.completed
    requires w'.destroyed == w.destroyed && w'.waitingFor == w.waitingFor && w'.woken == w.woken
    requires var d, d' := w.device, w'.device;
      && d'.context == d.context && d'.cleanupContext == d.cleanupContext && d'.cleanupPending == d.cleanupPending
      && d'.result == d.result && d'.waiters == d.waiters
    ensures Core(w')
  {
    hide Sound, ContextsAccounted, OutcomesAccounted, WaitersAccounted;
    SameContexts(w, w');
    SameOutcomes(w, w');
    SameWaiters(w, w');
  }

  lemma SameContexts(w: World, w': World)
    requires ContextsAccounted(w) && w'.run.Closing? == w.run.Closing? && w'.created == w.created && w'.destroyed == w.destroyed
    requires w'.device.context == w.device.context && w'.device.cleanupContext == w.device.cleanupContext
    ensures ContextsAccounted(w')
  {
    assert forall c :: Live(w', c) <==> Live(w, c);
  }

  lemma SameOutcomes(w: World, w': World)
    requires OutcomesAccounted(w) && w'.created == w.created && w'.completed == w.completed
    requires w'.device.context == w.device.context && w'.device.cleanupContext == w.device.cleanupContext && w'.device.result == w.device.result
    ensures OutcomesAccounted(w')
  {
  }

  lemma SameWaiters(w: World, w': World)
    requires WaitersAccounted(w) && w'.completed == w.completed && w'.waitingFor == w.waitingFor && w'.woken == w.woken
    requires w'.device.waiters == w.device.waiters
    requires w'.device.context == w.device.context && w'.device.cleanupContext == w.device.cleanupContext
    ensures WaitersAccounted(w')
  {
  }

  lemma PublishKeeps(w: World, target: Ap, id: nat)
    requires Core(w) && Enabled(w, AssociateSecond(target, id))
    ensures Core(Step(w, AssociateSecond(target, id)))
  {
    hide ContextsAccounted, OutcomesAccounted, WaitersAccounted;
    PublishAccounts(w, target, id);
    PublishKeepsWaiters(w, target, id);
  }

  lemma PublishAccounts(w: World, target: Ap, id: nat)
    requires Sound(w.device) && ContextsAccounted(w) && OutcomesAccounted(w) && Enabled(w, AssociateSecond(target, id))
    ensures ContextsAccounted(Step(w, AssociateSecond(target, id))) && OutcomesAccounted(Step(w, AssociateSecond(target, id)))
  {
    var w', c := Step(w, AssociateSecond(target, id)), Context(id, target, w.device.generation);
    assert forall x :: Live(w', x) <==> Live(w, x) || (x == c && w'.device.context == Some(c));
  }

  lemma PublishKeepsWaiters(w: World, target: Ap, id: nat)
    requires Sound(w.device) && WaitersAccounted(w) && Enabled(w, AssociateSecond(target, id))
    ensures WaitersAccounted(Step(w, AssociateSecond(target, id)))
  {
  }

  lemma DestroyAccounts(w: World, w': World, c: Context)
    requires ContextsAccounted(w) && w.run == Holding(Some(c)) && w.device.cleanupContext == Some(c) && w.device.context.None?
    requires w'.run == Closing(c) && w'.device == w.device && w'.created == w.created && w'.destroyed == w.destroyed + multiset{c}
    ensures ContextsAccounted(w')
  {
    assert Live(w, c) && forall x :: Live(w', x) <==> Live(w, x) && x != c;
  }

  lemma DestroyedKeeps(w: World, w': World, c: Context)
    requires Core(w) && w.run == Holding(Some(c))
    requires w' == w.(run := Closing(c), refs := w'.refs, destroyed := w.destroyed + multiset{c})
    ensures Core(w')
  {
    hide ContextsAccounted;
    DestroyAccounts(w, w', c);
  }

  lemma IdleKeeps(w: World)
    requires Core(w) && w.run == Holding(None)
    ensures Core(w.(run := Idle))
  {
    assert forall x :: Live(w.(run := Idle), x) <==> Live(w, x);
  }

  lemma DestroyKeeps(w: World)
    requires Core(w) && Enabled(w, RunDestroy)
    ensures Core(Step(w, RunDestroy))
  {
    hide Core;
    if w.run.taken.None? { IdleKeeps(w); } else { DestroyedKeeps(w, Step(w, RunDestroy), w.run.taken.value); }
  }

  lemma CloseKeeps(w: World)
    requires Core(w) && Enabled(w, RunClose)
    ensures Core(Step(w, RunClose))
  {
    assert forall c :: Live(Step(w, RunClose), c) <==> Live(w, c);
  }

  lemma WorkKeeps(w: World, e: Event)
    requires Core(w) && Enabled(w, e) && (e.Enqueue? || e.RunStart? || e.RunTake?)
    ensures Core(Step(w, e))
  {
    hide ContextsAccounted, OutcomesAccounted, WaitersAccounted, Attempt, One;
    SameContexts(w, Step(w, e));
    SameOutcomes(w, Step(w, e));
    SameWaiters(w, Step(w, e));
  }

  lemma WaitKeeps(w: World, waiter: nat)
    requires Core(w) && Enabled(w, WaitFirst(waiter))
    ensures Core(Step(w, WaitFirst(waiter)))
  {
    hide ContextsAccounted, OutcomesAccounted, WaitersAccounted;
    SameContexts(w, Step(w, WaitFirst(waiter)));
    SameOutcomes(w, Step(w, WaitFirst(waiter)));
    WaitKeepsWaiters(w, waiter);
  }

  lemma WaitKeepsWaiters(w: World, waiter: nat)
    requires WaitersAccounted(w) && Enabled(w, WaitFirst(waiter))
    ensures WaitersAccounted(Step(w, WaitFirst(waiter)))
  {
    var w' := Step(w, WaitFirst(waiter));
    if Await(w.device, waiter).1.Some? { SameWaiters(w, w'); } else { ListedIsAccounted(w, w', waiter); }
  }

  lemma ListedIsAccounted(w: World, w': World, waiter: nat)
    requires WaitersAccounted(w) && waiter !in w.woken && w'.waitingFor == w.waitingFor[waiter := Attempt(w.device)]
    requires w'.device == w.device.(waiters := w.device.waiters + [waiter]) && w'.woken == w.woken && w'.completed == w.completed
    ensures WaitersAccounted(w')
  {
    assert Attempt(w'.device) == Attempt(w.device);
  }

  lemma LeaveIsSound(d: Device)
    requires Sound(d)
    ensures Sound(Leave(d).0) && Sound(Left(d).0)
  {
  }

  lemma LeaveKeeps(w: World, e: Event)
    requires Core(w) && Enabled(w, e) && (e.LeaveFirst? || e.LeaveSecond?)
    ensures Core(Step(w, e))
  {
    hide React, Publish, Cleaned, Await;
    LeaveIsSound(w.device);
    SameBooks(w, Step(w, e));
  }

  lemma CallerKeeps(w: World, e: Event)
    requires Core(w) && Enabled(w, e) && (e.ScanSwap? || e.AssociateFirst? || e.ReleaseLocal? || e.SendFirst? || e.Seen?)
    ensures Core(Step(w, e))
  {
    hide React, Publish, Leave, Left, Cleaned, Await, One, Inv, Sound;
    CallerIsSound(w, e);
    SameBooks(w, Step(w, e));
  }

  lemma CallerIsSound(w: World, e: Event)
    requires Core(w) && Enabled(w, e) && (e.ScanSwap? || e.AssociateFirst? || e.ReleaseLocal? || e.SendFirst? || e.Seen?)
    ensures Sound(Step(w, e).device)
  {
    hide React, Publish, Leave, Left, Cleaned, Await, One, CleanupOnItsWay, ContextsAccounted, OutcomesAccounted, WaitersAccounted;
  }

  lemma StepKeepsCore(w: World, e: Event)
    requires Core(w) && Enabled(w, e)
    ensures Core(Step(w, e))
  {
    match e
    case Received(s) => ReceivedKeeps(w, s);
    case AssociateSecond(target, id) => PublishKeeps(w, target, id);
    case RunDestroy => DestroyKeeps(w);
    case RunClose => CloseKeeps(w);
    case Enqueue => WorkKeeps(w, e);
    case RunStart => WorkKeeps(w, e);
    case RunTake => WorkKeeps(w, e);
    case WaitFirst(waiter) => WaitKeeps(w, waiter);
    case LeaveFirst => LeaveKeeps(w, e);
    case LeaveSecond => LeaveKeeps(w, e);
    case _ => CallerKeeps(w, e);
  }

  lemma StepKeepsAnswers(w: World, e: Event)
    requires Inv(w) && Enabled(w, e)
    ensures AnswersAccounted(Step(w, e))
  {
    hide Core, AnswersAccounted, Step;
    CoreEssence(w);
    if e.Received? { ReceivedKeepsAnswers(w, e.stimulus); }
    else if e.AssociateSecond? { PublishKeepsAnswers(w, e.target, e.id); }
    else if e.WaitFirst? { WaitKeepsAnswers(w, e.waiter); }
    else { OthersKeepAnswers(w, e); }
  }

  lemma CoreEssence(w: World)
    requires Core(w)
    ensures Sound(w.device) && OutcomesAccounted(w)
  {
  }

  lemma ReceivedKeepsAnswers(w: World, s: Stimulus)
    requires Sound(w.device) && OutcomesAccounted(w) && AnswersAccounted(w) && Enabled(w, Received(s))
    ensures AnswersAccounted(Step(w, Received(s)))
  {
    hide React;
    ReactionAdvances(w.device, s);
  }

  lemma PublishKeepsAnswers(w: World, target: Ap, id: nat)
    requires Sound(w.device) && AnswersAccounted(w) && Enabled(w, AssociateSecond(target, id))
    ensures AnswersAccounted(Step(w, AssociateSecond(target, id)))
  {
  }

  lemma WaitKeepsAnswers(w: World, waiter: nat)
    requires Sound(w.device) && AnswersAccounted(w) && Enabled(w, WaitFirst(waiter))
    ensures AnswersAccounted(Step(w, WaitFirst(waiter)))
  {
  }

  lemma OthersKeepAnswers(w: World, e: Event)
    requires AnswersAccounted(w) && Enabled(w, e) && !e.Received? && !e.AssociateSecond? && !e.WaitFirst?
    ensures AnswersAccounted(Step(w, e))
  {
    hide AnswersAccounted, Step;
    if e.RunClose? { CloseIsQuiet(w); } else { StepIsQuiet(w, e); }
    SameAnswers(w, Step(w, e));
  }

  /** Nothing that waiters look at changes. */
  ghost predicate Quiet(w: World, w': World) {
    && w'.waitingFor == w.waitingFor && w'.woken == w.woken && w'.completed == w.completed
    && w'.last == w.last && w'.answered == w.answered && w'.device.waiters == w.device.waiters && w'.device.result == w.device.result
    && w'.device.context == w.device.context && w'.device.cleanupContext == w.device.cleanupContext
  }

  lemma StepIsQuiet(w: World, e: Event)
    requires Enabled(w, e) && !e.Received? && !e.AssociateSecond? && !e.WaitFirst? && !e.RunClose?
    ensures Quiet(w, Step(w, e))
  {
    if e.Enqueue? || e.RunStart? || e.RunTake? || e.RunDestroy? { WorkIsQuiet(w, e); }
    else if e.LeaveFirst? || e.LeaveSecond? { LeaveIsQuiet(w, e); }
    else { CallerIsQuiet(w, e); }
  }

  lemma WorkIsQuiet(w: World, e: Event)
    requires Enabled(w, e) && (e.Enqueue? || e.RunStart? || e.RunTake? || e.RunDestroy?)
    ensures Quiet(w, Step(w, e))
  {
    if e.RunTake? { TakeIsQuiet(w); } else if e.RunDestroy? { DestroyIsQuiet(w); }
  }

  lemma TakeIsQuiet(w: World)
    requires Enabled(w, RunTake)
    ensures Quiet(w, Step(w, RunTake))
  {
  }

  lemma DestroyIsQuiet(w: World)
    requires Enabled(w, RunDestroy)
    ensures Quiet(w, Step(w, RunDestroy))
  {
    if w.run.taken.Some? { assert Step(w, RunDestroy).device == w.device; }
  }

  lemma LeaveIsQuiet(w: World, e: Event)
    requires Enabled(w, e) && (e.LeaveFirst? || e.LeaveSecond?)
    ensures Quiet(w, Step(w, e))
  {
    hide Waking, React, Publish, Await;
  }

  lemma CallerIsQuiet(w: World, e: Event)
    requires Enabled(w, e) && (e.ScanSwap? || e.AssociateFirst? || e.ReleaseLocal? || e.SendFirst? || e.Seen?)
    ensures Quiet(w, Step(w, e))
  {
    hide Waking, React, Publish, Await, Leave, Left;
  }

  lemma CloseIsQuiet(w: World)
    requires Enabled(w, RunClose)
    ensures var w' := Step(w, RunClose);
      && w'.last == w.last && w'.answered == w.answered && w'.completed == w.completed && w'.device.result == w.device.result
      && w'.device.context == w.device.context && w'.device.cleanupContext.None?
  {
  }

  lemma SameAnswers(w: World, w': World)
    requires AnswersAccounted(w) && w'.last == w.last && w'.answered == w.answered && w'.completed == w.completed
    requires w'.device.result == w.device.result && w'.device.context == w.device.context
    requires w'.device.cleanupContext == w.device.cleanupContext || w'.device.cleanupContext.None?
    ensures AnswersAccounted(w')
  {
  }

  /** Every step of every interleaving keeps the invariant. */
  lemma StepKeeps(w: World, e: Event)
    requires Inv(w) && Enabled(w, e)
    ensures Inv(Step(w, e))
  {
    hide Core, AnswersAccounted, Step;
    StepKeepsCore(w, e);
    StepKeepsAnswers(w, e);
  }

  // ----- Whole runs -----

  ghost predicate Possible(w: World, events: seq<Event>)
    decreases |events|
  {
    events != [] ==> Enabled(w, events[0]) && Possible(Step(w, events[0]), events[1..])
  }

  ghost function Play(w: World, events: seq<Event>): World
    requires Possible(w, events)
    decreases |events|
  {
    if events == [] then w else Play(Step(w, events[0]), events[1..])
  }

  lemma {:induction false} PlayKeeps(w: World, events: seq<Event>)
    requires Inv(w) && Possible(w, events)
    ensures Inv(Play(w, events))
    decreases |events|
  {
    if events != [] {
      StepKeeps(w, events[0]);
      PlayKeeps(Step(w, events[0]), events[1..]);
    }
  }

  /** In every reachable world: the device is sound, so no scan overlaps an attempt; every context is
      destroyed exactly once or still live; a waiter that has woken got the outcome of the attempt
      it waited on; one still listed waits on an attempt that has not ended or not been cleaned up. */
  lemma ReachableIsSound(events: seq<Event>)
    requires Possible(START, events)
    ensures var w := Play(START, events);
      && Sound(w.device)
      && (w.device.state == Scanning ==> w.device.context.None?)
      && (forall c :: c in w.created ==> w.destroyed[c] == if Live(w, c) then 0 else 1)
      && (forall x :: x in w.woken ==> w.woken[x].0 in w.completed && w.woken[x].1 == w.completed[w.woken[x].0])
      && (forall x :: x in w.device.waiters ==> x in w.waitingFor)
      && (forall x :: x in w.waitingFor ==> Some(w.waitingFor[x]) in {w.device.context, w.device.cleanupContext})
  {
    PlayKeeps(START, events);
  }

  /** An outcome, once there, is never changed: each attempt is completed at most once. */
  lemma {:induction false} OutcomesAreFinal(w: World, events: seq<Event>)
    requires Inv(w) && Possible(w, events)
    ensures forall c :: c in w.completed ==>
      c in Play(w, events).completed && Play(w, events).completed[c] == w.completed[c]
    decreases |events|
  {
    hide Step, Inv, Enabled;
    if events != [] {
      StepKeepsOutcomes(w, events[0]);
      StepKeeps(w, events[0]);
      OutcomesAreFinal(Step(w, events[0]), events[1..]);
    }
  }

  lemma StepKeepsOutcomes(w: World, e: Event)
    requires Inv(w) && Enabled(w, e)
    ensures forall c :: c in w.completed ==> c in Step(w, e).completed && Step(w, e).completed[c] == w.completed[c]
  {
    hide Step, Inv, Enabled;
    if e.Received? { ReactionKeepsOutcomes(w, e.stimulus); }
    else if e.AssociateSecond? { PublishWakesNobody(w, e.target, e.id); }
    else if e.RunClose? { CloseIsQuiet(w); }
    else if e.WaitFirst? { WaitCompletesNothing(w, e.waiter); }
    else { StepIsQuiet(w, e); }
  }

  lemma ReactionKeepsOutcomes(w: World, s: Stimulus)
    requires Inv(w) && Enabled(w, Received(s))
    ensures forall c :: c in w.completed ==> c in Step(w, Received(s)).completed && Step(w, Received(s)).completed[c] == w.completed[c]
  {
    hide Sound, CleanupOnItsWay, ContextsAccounted, WaitersAccounted, AnswersAccounted, React;
  }

  lemma WaitCompletesNothing(w: World, waiter: nat)
    requires Enabled(w, WaitFirst(waiter))
    ensures var w' := Step(w, WaitFirst(waiter)); w'.completed == w.completed && w'.device.context == w.device.context
  {
  }

  /** ... and at least once: only by completing does an attempt stop being the current one. */
  lemma AttemptEndsWithOutcome(w: World, e: Event)
    requires Inv(w) && Enabled(w, e) && w.device.context.Some? && Step(w, e).device.context != w.device.context
    ensures var c := w.device.context.value;
      && c !in w.completed && c in Step(w, e).completed && e.Received? && React(w.device, e.stimulus).cleanup
      && Step(w, e).device.cleanupContext == Some(c)
  {
    hide Step, React, Inv;
    if e.Received? { ReactionEnds(w, e.stimulus); } else { OthersEndNothing(w, e); }
  }

  lemma ReactionEnds(w: World, s: Stimulus)
    requires Inv(w) && Enabled(w, Received(s)) && w.device.context.Some? && Step(w, Received(s)).device.context != w.device.context
    ensures var c, w' := w.device.context.value, Step(w, Received(s));
      c !in w.completed && c in w'.completed && React(w.device, s).cleanup && w'.device.cleanupContext == Some(c)
  {
    hide CleanupOnItsWay, ContextsAccounted, WaitersAccounted, AnswersAccounted, React;
    ReactionAdvances(w.device, s);
  }

  lemma OthersEndNothing(w: World, e: Event)
    requires Inv(w) && Enabled(w, e) && w.device.context.Some? && !e.Received?
    ensures Step(w, e).device.context == w.device.context
  {
    hide Step, CleanupOnItsWay, ContextsAccounted, OutcomesAccounted, WaitersAccounted, AnswersAccounted;
    if e.AssociateSecond? { BusyDoesNotPublish(w, e.target, e.id); }
    else if e.RunClose? { CloseIsQuiet(w); }
    else if e.WaitFirst? { WaitCompletesNothing(w, e.waiter); }
    else { StepIsQuiet(w, e); }
  }

  lemma BusyDoesNotPublish(w: World, target: Ap, id: nat)
    requires Sound(w.device) && w.device.context.Some? && Enabled(w, AssociateSecond(target, id))
    ensures Step(w, AssociateSecond(target, id)).device == w.device
  {
  }

  /** A pending cleanup keeps its context and its result until its last section. */
  lemma PendingCleanupIsStable(w: World, e: Event)
    requires Inv(w) && Enabled(w, e) && w.device.cleanupPending && !e.RunClose?
    ensures var d, d' := w.device, Step(w, e).device;
      d'.cleanupPending && d'.cleanupContext == d.cleanupContext && d'.result == d.result && d.waiters <= d'.waiters
  {
    if e.Received? { ReactionAdvances(w.device, e.stimulus); }
  }

  /** A waiter that is listed stays listed on the attempt it waits on, until the step that wakes it
      with the outcome of that attempt. */
  ghost predicate Served(w: World, c: Context, x: nat) {
    || (x in w.device.waiters && x in w.waitingFor && w.waitingFor[x] == c)
    || (c in w.completed && x in w.woken && w.woken[x] == (c, w.completed[c]))
  }

  lemma StepServes(w: World, e: Event, c: Context, x: nat)
    requires Inv(w) && Enabled(w, e) && Served(w, c, x)
    ensures Served(Step(w, e), c, x)
  {
    if e.RunClose? { CloseServes(w, c, x); }
    else if e.WaitFirst? { WaitServes(w, e.waiter, c, x); }
    else if e.Received? { ReactionServes(w, e.stimulus, c, x); }
    else { OthersServe(w, e, c, x); }
  }

  lemma CloseServes(w: World, c: Context, x: nat)
    requires Inv(w) && Enabled(w, RunClose) && Served(w, c, x)
    ensures Served(Step(w, RunClose), c, x)
  {
    hide ContextsAccounted;
  }

  lemma WaitServes(w: World, waiter: nat, c: Context, x: nat)
    requires Inv(w) && Enabled(w, WaitFirst(waiter)) && Served(w, c, x)
    ensures Served(Step(w, WaitFirst(waiter)), c, x)
  {
    hide ContextsAccounted, OutcomesAccounted, CleanupOnItsWay, Sound, Attempt;
  }

  lemma ReactionServes(w: World, s: Stimulus, c: Context, x: nat)
    requires Inv(w) && Enabled(w, Received(s)) && Served(w, c, x)
    ensures Served(Step(w, Received(s)), c, x)
  {
    hide ContextsAccounted, CleanupOnItsWay, WaitersAccounted, React, Attempt, Sound, AnswersAccounted;
    ReactionAdvances(w.device, s);
  }

  lemma OthersServe(w: World, e: Event, c: Context, x: nat)
    requires Enabled(w, e) && Served(w, c, x) && !e.RunClose? && !e.WaitFirst? && !e.Received?
    ensures Served(Step(w, e), c, x)
  {
    hide Served, Step;
    if e.AssociateSecond? { PublishWakesNobody(w, e.target, e.id); } else { StepIsQuiet(w, e); }
    SameServed(w, Step(w, e), c, x);
  }

  lemma PublishWakesNobody(w: World, target: Ap, id: nat)
    requires Enabled(w, AssociateSecond(target, id))
    ensures var w' := Step(w, AssociateSecond(target, id));
      w'.device.waiters == w.device.waiters && w'.waitingFor == w.waitingFor && w'.woken == w.woken && w'.completed == w.completed
  {
  }

  lemma SameServed(w: World, w': World, c: Context, x: nat)
    requires Served(w, c, x) && w'.device.waiters == w.device.waiters && w'.waitingFor == w.waitingFor
    requires w'.woken == w.woken && w'.completed == w.completed
    ensures Served(w', c, x)
  {
  }

  lemma {:induction false} WaitersAreServed(w: World, events: seq<Event>, x: nat)
    requires Inv(w) && Possible(w, events) && x in w.device.waiters
    ensures Served(w, w.waitingFor[x], x) && Served(Play(w, events), w.waitingFor[x], x)
  {
    RunServes(w, events, w.waitingFor[x], x);
  }

  lemma {:induction false} RunServes(w: World, events: seq<Event>, c: Context, x: nat)
    requires Inv(w) && Possible(w, events) && Served(w, c, x)
    ensures Served(Play(w, events), c, x)
    decreases |events|
  {
    hide Inv, Served, Enabled, Step;
    if events != [] {
      StepKeeps(w, events[0]);
      StepServes(w, events[0], c, x);
      RunServes(Step(w, events[0]), events[1..], c, x);
    }
  }

  /** A caller is answered at once exactly when there is no attempt and no cleanup, and then with how
      the last attempt ended. */
  lemma LateCallerIsAnswered(w: World, x: nat)
    requires Inv(w) && Enabled(w, WaitFirst(x))
    ensures var d, w' := w.device, Step(w, WaitFirst(x));
      && (x in w'.answered <==> d.state != Authenticating && d.state != Associating && !d.cleanupPending)
      && (x in w'.answered <==> x !in w'.device.waiters)
      && (x in w'.answered ==> w'.answered[x].0 == w.last && EndedWith(w, w.last, w'.answered[x].1))
  {
    hide CleanupOnItsWay, ContextsAccounted, OutcomesAccounted;
  }

  /** Over whole runs, whoever was answered at once got the outcome of the attempt published last before,
      or an unknown error when there had been none. */
  lemma LateCallersGotTheOutcome(events: seq<Event>, x: nat)
    requires Possible(START, events) && x in Play(START, events).answered
    ensures var w := Play(START, events);
      var (c, status) := w.answered[x];
      if c.None? then status == UnknownError else c.value in w.completed && status == w.completed[c.value]
  {
    PlayKeeps(START, events);
  }

  // ----- Leaving -----

  /** Between the two sections of leaving nobody takes the access point away, and nobody else associates. */
  lemma LeavingStays(w: World, e: Event)
    requires Inv(w) && Enabled(w, e) && w.device.state == Deauthenticating && !e.LeaveSecond?
    ensures Step(w, e).device.state == Deauthenticating && Step(w, e).device.ap == w.device.ap
  {
    hide CleanupOnItsWay, ContextsAccounted, OutcomesAccounted, WaitersAccounted, AnswersAccounted, React, Attempt, One;
    if e.Received? { ReactionAdvances(w.device, e.stimulus); }
  }

  lemma {:induction false} LeavingWaits(w: World, events: seq<Event>)
    requires Inv(w) && Possible(w, events) && w.device.state == Deauthenticating && LeaveSecond !in events
    ensures Inv(Play(w, events)) && Play(w, events).device.state == Deauthenticating && Play(w, events).device.ap == w.device.ap
    decreases |events|
  {
    hide Step, Inv, Enabled;
    if events != [] {
      LeavingStays(w, events[0]);
      StepKeeps(w, events[0]);
      LeavingWaits(Step(w, events[0]), events[1..]);
    }
  }

  /** Leaving ends the association it began on, whatever happens between its two sections: the device is
      down, and the reference it had is the caller's to release. */
  lemma LeavingEnds(w: World, x: Ap, events: seq<Event>)
    requires Inv(w) && w.device.state == Associated && w.device.ap == Some(x)
    requires Possible(Step(w, LeaveFirst), events) && LeaveSecond !in events
    requires Enabled(Play(Step(w, LeaveFirst), events), LeaveSecond)
    ensures var w1 := Play(Step(w, LeaveFirst), events);
      var w2 := Step(w1, LeaveSecond);
      && w1.device.state == Deauthenticating && w1.device.ap == Some(x)
      && w2.device.state == Down && w2.device.ap.None? && w2.locals[x] == w1.locals[x] + 1
  {
    hide Inv;
    StepKeeps(w, LeaveFirst);
    LeavingWaits(Step(w, LeaveFirst), events);
  }

  /** Exactly once depends on runs of the work item being kept apart: a second run that began before
      the first had closed would take the same context, and destroy it again. */
  lemma OverlappingRunsDestroyTwice(w: World)
    requires Inv(w) && w.device.cleanupPending && w.run.Begun?
    ensures var first := Step(w, RunTake);
      var second := Step(first.(run := Begun), RunTake);
      && second.run == first.run == Holding(w.device.cleanupContext)
      && Step(Step(second, RunDestroy).(run := first.run), RunDestroy).destroyed[w.device.cleanupContext.value] == 2
  {
    assert Live(w, w.device.cleanupContext.value);
  }

  // ----- Pending cleanups finish -----

  /** What the cleanup work does next, and how far a pending cleanup is from being over. */
  ghost function WorkNext(w: World): Event {
    match w.run
    case Closing(_) => RunClose
    case Holding(_) => RunDestroy
    case Begun => RunTake
    case Idle => if w.queued then RunStart else Enqueue
  }

  ghost function Distance(w: World): nat {
    match w.run
    case Closing(_) => 0
    case Holding(c) => if c.Some? then 1 else 5
    case Begun => 2
    case Idle => if w.queued then 3 else 4
  }

  lemma WorkGoesOn(w: World)
    requires Inv(w) && w.device.cleanupPending
    ensures Enabled(w, WorkNext(w)) && Inv(Step(w, WorkNext(w)))
    ensures !w.run.Closing? ==>
      var w' := Step(w, WorkNext(w));
      && Distance(w') < Distance(w) && w'.device.cleanupPending && w'.device.cleanupContext == w.device.cleanupContext
      && w'.device.waiters == w.device.waiters && w'.completed == w.completed
  {
    hide Step, Distance, WorkNext, CleanupOnItsWay, ContextsAccounted, OutcomesAccounted, WaitersAccounted, AnswersAccounted;
    WorkCanGoOn(w);
    if !w.run.Closing? { WorkComesNearer(w); }
    StepKeeps(w, WorkNext(w));
  }

  lemma WorkComesNearer(w: World)
    requires CleanupOnItsWay(w) && w.device.cleanupPending && w.device.cleanupContext.Some? && Enabled(w, WorkNext(w)) && !w.run.Closing?
    ensures var w' := Step(w, WorkNext(w));
      && Distance(w') < Distance(w) && w'.device.cleanupPending && w'.device.cleanupContext == w.device.cleanupContext
      && w'.device.waiters == w.device.waiters && w'.completed == w.completed
  {
    hide Step;
    if w.run.Holding? { DestroyComesNearer(w); }
    else if w.run.Begun? { TakeComesNearer(w); }
    else { IdleComesNearer(w); }
  }

  lemma DestroyComesNearer(w: World)
    requires w.run.Holding? && (w.run.taken.Some? ==> w.device.cleanupContext == w.run.taken)
    ensures var w' := Step(w, RunDestroy);
      Distance(w') < Distance(w) && w'.device == w.device && w'.completed == w.completed
  {
    hide React, Publish, Leave, Left, Cleaned, Await, Attempt, One;
  }

  lemma TakeComesNearer(w: World)
    requires w.run.Begun? && w.device.cleanupContext.Some?
    ensures var w' := Step(w, RunTake);
      Distance(w') < Distance(w) && w'.device == TakeDisconnected(w.device) && w'.completed == w.completed
  {
    hide React, Publish, Leave, Left, Cleaned, Await, Attempt, One;
  }

  lemma IdleComesNearer(w: World)
    requires w.run.Idle? && Enabled(w, WorkNext(w))
    ensures var w' := Step(w, WorkNext(w));
      Distance(w') < Distance(w) && w'.device == w.device && w'.completed == w.completed
  {
    hide React, Publish, Leave, Left, Cleaned, Await, Attempt, One;
  }

  lemma WorkCanGoOn(w: World)
    requires Inv(w) && w.device.cleanupPending
    ensures Enabled(w, WorkNext(w))
  {
    hide ContextsAccounted, OutcomesAccounted, WaitersAccounted, AnswersAccounted;
  }

  /** The rest of the work, alone, from a world with a cleanup pending. */
  ghost function Finished(w: World): World
    requires Inv(w) && w.device.cleanupPending
    decreases Distance(w)
  {
    WorkGoesOn(w);
    var w' := Step(w, WorkNext(w));
    if w.run.Closing? then w' else Finished(w')
  }

  /** From any reachable world with a cleanup pending, the cleanup work can go on to its end without
      waiting for anyone; then the context has been destroyed once, and every waiter has been woken
      with the outcome of the attempt it waited on. */
  lemma {:induction false} CleanupFinishes(w: World)
    requires Inv(w) && w.device.cleanupPending
    ensures var w', c := Finished(w), w.device.cleanupContext.value;
      && Inv(w') && !w'.device.cleanupPending && w'.device.waiters == [] && w'.destroyed[c] == 1
      && forall x :: x in w.device.waiters ==> x in w'.woken && w'.woken[x] == (c, w.completed[c])
    decreases Distance(w)
  {
    WorkGoesOn(w);
    if !w.run.Closing? {
      CleanupFinishes(Step(w, WorkNext(w)));
    }
  }

  /** The work's last step: the context has been destroyed once, and the waiters wake. */
  lemma CloseWakes(w: World)
    requires Inv(w) && w.run.Closing?
    ensures w.device.cleanupPending
    ensures var w', c := Step(w, RunClose), w.device.cleanupContext.value;
      && !w'.device.cleanupPending && w'.device.waiters == [] && w'.destroyed[c] == 1
      && forall x :: x in w.device.waiters ==> x in w'.woken && w'.woken[x] == (c, w.completed[c])
  {
  }

  /** Nothing anyone else does takes a pending cleanup further from its end. */
  lemma NobodySetsBack(w: World, e: Event)
    requires Inv(w) && w.device.cleanupPending && Enabled(w, e) && !e.RunClose?
    ensures Distance(Step(w, e)) <= Distance(w)
  {
    hide React, Publish, Leave, Left, Cleaned, Await, Attempt, ContextsAccounted, OutcomesAccounted, WaitersAccounted, AnswersAccounted, One;
    if e.Enqueue? || e.RunStart? || e.RunTake? || e.RunDestroy? { WorkSetsNothingBack(w, e); } else { OthersLeaveTheWork(w, e); }
  }

  lemma WorkSetsNothingBack(w: World, e: Event)
    requires CleanupOnItsWay(w) && w.device.cleanupPending && w.device.cleanupContext.Some? && Enabled(w, e)
    requires e.Enqueue? || e.RunStart? || e.RunTake? || e.RunDestroy?
    ensures Distance(Step(w, e)) <= Distance(w)
  {
    hide React, Publish, Leave, Left, Cleaned, Await, Attempt, One;
  }

  lemma OthersLeaveTheWork(w: World, e: Event)
    requires Enabled(w, e) && !e.Enqueue? && !e.RunStart? && !e.RunTake? && !e.RunDestroy? && !e.RunClose?
    ensures Step(w, e).run == w.run && Step(w, e).queued == w.queued
  {
    hide React, Publish, Leave, Left, Cleaned, Await, Attempt, One;
  }

  /** A pending cleanup loses no waiter, and the work's own step brings it nearer. */
  lemma StaysPending(w: World, e: Event)
    requires Inv(w) && w.device.cleanupPending && Enabled(w, e) && !e.RunClose?
    ensures w.device.cleanupContext.Some? && w.device.cleanupContext.value in w.completed
    ensures var w', c := Step(w, e), w.device.cleanupContext;
      && w'.device.cleanupPending && w'.device.cleanupContext == c && (forall x :: x in w.device.waiters ==> x in w'.device.waiters)
      && c.value in w'.completed && w'.completed[c.value] == w.completed[c.value]
      && Distance(w') + (if e == WorkNext(w) then 1 else 0) <= Distance(w)
  {
    hide Step, Distance;
    PendingCleanupIsStable(w, e);
    NobodySetsBack(w, e);
    OutcomesAreFinal(w, [e]);
    PlayOne(w, e);
    if e == WorkNext(w) { WorkGoesOn(w); }
  }

  /** The steps of a run in which the work does its next step. */
  ghost function WorkSteps(w: World, events: seq<Event>): nat
    requires Possible(w, events)
    decreases |events|
  {
    if events == [] then 0
    else (if events[0] == WorkNext(w) then 1 else 0) + WorkSteps(Step(w, events[0]), events[1..])
  }

  /** In any interleaving, once the work has done at most six of its own steps, the cleanup is
      over: the context that was pending has been destroyed once, and every waiter woken with its outcome. */
  lemma {:induction false} FairRunsFinish(w: World, events: seq<Event>) returns (n: nat)
    requires Inv(w) && w.device.cleanupPending && Possible(w, events) && WorkSteps(w, events) > Distance(w)
    ensures Distance(w) <= 5 && n < |events| && Possible(w, events[..n + 1])
    ensures var w', c := Play(w, events[..n + 1]), w.device.cleanupContext.value;
      && !w'.device.cleanupPending && w'.destroyed[c] == 1
      && forall x :: x in w.device.waiters ==> x in w'.woken && w'.woken[x] == (c, w.completed[c])
    decreases |events|
  {
    hide Step, Inv;
    var e, w1 := events[0], Step(w, events[0]);
    assert Inv(w1) by { StepKeeps(w, e); }
    if e == RunClose {
      n := 0;
      PlayOne(w, e);
      CloseWakes(w);
      assert events[..1] == [e];
    } else {
      StaysPending(w, e);
      n := FairRunsFinish(w1, events[1..]);
      PlayFirst(w, e, events[1..][..n + 1]);
      n := n + 1;
      assert events[..n + 1] == [e] + events[1..][..n];
    }
  }

  // ----- References to access points -----

  ghost function Count(held: bool): nat {
    if held then 1 else 0
  }

  /** The references the layer should hold on an access point: one for each context not yet released,
      one while it is associated or leaving, one while it waits as disconnected, and the locals. */
  ghost function Owed(w: World, a: Ap): nat {
    var d := w.device;
    Count(d.context.Some? && d.context.value.ap == a)
    + Count(d.cleanupContext.Some? && !w.run.Closing? && d.cleanupContext.value.ap == a)
    + Count((d.state == Associated || d.state == Deauthenticating) && d.ap == Some(a))
    + Count(d.disconnectedAp == Some(a)) + w.locals[a]
  }

  /** The one step that can lose a reference: an association torn down while a disconnected access
      point, perhaps the same one, still waits to be released. */
  ghost predicate Overwrites(w: World, e: Event) {
    && e.Received? && w.device.state == Associated && React(w.device, e.stimulus).cleanup
    && w.device.disconnectedAp.Some?
  }

  lemma ReactionConserves(w: World, s: Stimulus, a: Ap)
    requires Sound(w.device) && CleanupOnItsWay(w) && Enabled(w, Received(s)) && w.refs[a] == Owed(w, a)
    ensures var w' := Step(w, Received(s));
      w'.refs[a] == Owed(w', a) <==> !(Overwrites(w, Received(s)) && w.device.disconnectedAp == Some(a))
  {
    if w.device.context.Some? { AttemptConserves(w, s, a); } else { SettledConserves(w, s, a); }
  }

  lemma AttemptConserves(w: World, s: Stimulus, a: Ap)
    requires Sound(w.device) && w.device.context.Some? && CleanupOnItsWay(w) && Enabled(w, Received(s)) && w.refs[a] == Owed(w, a)
    ensures Step(w, Received(s)).refs[a] == Owed(Step(w, Received(s)), a) && !Overwrites(w, Received(s))
  {
    hide React;
    ReactionAdvances(w.device, s);
  }

  lemma SettledConserves(w: World, s: Stimulus, a: Ap)
    requires Sound(w.device) && w.device.context.None? && Enabled(w, Received(s)) && w.refs[a] == Owed(w, a)
    ensures var w' := Step(w, Received(s));
      w'.refs[a] == Owed(w', a) <==> !(Overwrites(w, Received(s)) && w.device.disconnectedAp == Some(a))
  {
    hide React;
    ReactionAdvances(w.device, s);
  }

  lemma Counting(m: multiset<Ap>, b: Option<Ap>, a: Ap)
    ensures (m + One(b))[a] == m[a] + Count(b == Some(a))
    ensures b.Some? ==> (m + multiset{b.value})[a] == m[a] + Count(b.value == a)
    ensures b.Some? && (m[a] > 0 || b.value != a) ==> (m - multiset{b.value})[a] == m[a] - Count(b.value == a)
  {
  }

  lemma CallerConserves(w: World, e: Event, a: Ap)
    requires Sound(w.device) && CleanupOnItsWay(w) && Enabled(w, e) && w.refs[a] == Owed(w, a)
    requires e.ScanSwap? || e.AssociateFirst? || e.WaitFirst? || e.Seen?
    ensures Step(w, e).refs[a] == Owed(Step(w, e), a)
  {
    if e.AssociateFirst? { AssociateConserves(w, a); } else { QuietConserves(w, e, a); }
  }

  lemma AssociateConserves(w: World, a: Ap)
    requires w.refs[a] == Owed(w, a)
    ensures Step(w, AssociateFirst).refs[a] == Owed(Step(w, AssociateFirst), a)
  {
    Counting(w.locals, w.device.disconnectedAp, a);
  }

  lemma QuietConserves(w: World, e: Event, a: Ap)
    requires Sound(w.device) && Enabled(w, e) && w.refs[a] == Owed(w, a) && (e.ScanSwap? || e.WaitFirst? || e.Seen?)
    ensures Step(w, e).refs[a] == Owed(Step(w, e), a)
  {
    hide Owed;
    if e.ScanSwap? { SwapIsQuiet(w, e.starting); } else if e.WaitFirst? { WaitIsQuiet(w, e.waiter); } else { SeenIsQuiet(w, e.frame, e.expected); }
    SameOwed(w, Step(w, e), a);
  }

  /** What is owed does not depend on anything else. */
  lemma SameOwed(w: World, w': World, a: Ap)
    requires w'.locals == w.locals && w'.run.Closing? == w.run.Closing? && w'.device.ap == w.device.ap
    requires w'.device.context == w.device.context && w'.device.cleanupContext == w.device.cleanupContext
    requires w'.device.disconnectedAp == w.device.disconnectedAp
    requires (w'.device.state in {Associated, Deauthenticating}) == (w.device.state in {Associated, Deauthenticating})
    ensures Owed(w', a) == Owed(w, a)
  {
  }

  lemma SwapIsQuiet(w: World, starting: bool)
    requires Enabled(w, ScanSwap(starting))
    ensures var w' := Step(w, ScanSwap(starting));
      w' == w.(device := w.device.(state := w'.device.state)) && {w.device.state, w'.device.state} <= {Down, Scanning}
  {
  }

  lemma WaitIsQuiet(w: World, waiter: nat)
    requires Enabled(w, WaitFirst(waiter))
    ensures var w' := Step(w, WaitFirst(waiter));
      w'.refs == w.refs && w'.locals == w.locals && w'.run == w.run && w'.device == w.device.(waiters := w'.device.waiters)
  {
  }

  lemma SeenIsQuiet(w: World, frame: Numbered, expected: DeviceState)
    requires Enabled(w, Seen(frame, expected))
    ensures var w' := Step(w, Seen(frame, expected));
      w' == w.(device := w.device.(received := w'.device.received))
  {
  }

  lemma SendConserves(w: World, a: Ap)
    requires w.refs[a] == Owed(w, a)
    ensures Step(w, SendFirst).refs[a] == Owed(Step(w, SendFirst), a)
  {
    var ap := if w.device.state == Associated then w.device.ap else None;
    Counting(w.locals, ap, a);
    Counting(w.refs, ap, a);
  }

  lemma PublishConserves(w: World, target: Ap, id: nat, a: Ap)
    requires Sound(w.device) && Enabled(w, AssociateSecond(target, id)) && w.refs[a] == Owed(w, a)
    ensures var w' := Step(w, AssociateSecond(target, id)); w'.refs[a] == Owed(w', a)
  {
    Counting(w.refs, Some(target), a);
  }

  lemma ReleaseConserves(w: World, ap: Ap, a: Ap)
    requires Enabled(w, ReleaseLocal(ap)) && w.refs[a] == Owed(w, a)
    ensures Step(w, ReleaseLocal(ap)).refs[a] == Owed(Step(w, ReleaseLocal(ap)), a)
  {
    Counting(w.locals, Some(ap), a);
    Counting(w.refs, Some(ap), a);
  }

  lemma LeaverConserves(w: World, e: Event, a: Ap)
    requires Sound(w.device) && Enabled(w, e) && w.refs[a] == Owed(w, a) && (e.LeaveFirst? || e.LeaveSecond? || e.ReleaseLocal?)
    ensures Step(w, e).refs[a] == Owed(Step(w, e), a)
  {
    hide React, Publish, Cleaned, Await, Attempt;
    match e
    case ReleaseLocal(ap) => ReleaseConserves(w, ap, a);
    case _ => Counting(w.locals, Left(w.device).1, a);
  }

  lemma WorkConserves(w: World, e: Event, a: Ap)
    requires Sound(w.device) && CleanupOnItsWay(w) && Enabled(w, e) && w.refs[a] == Owed(w, a)
    requires e.Enqueue? || e.RunStart? || e.RunTake? || e.RunClose?
    ensures Step(w, e).refs[a] == Owed(Step(w, e), a)
  {
    hide React, Publish, Leave, Left, Await, Attempt;
    if e.RunTake? { Counting(w.locals, w.device.disconnectedAp, a); }
  }

  lemma OwedAfterDestroy(w: World, w': World, c: Context, a: Ap)
    requires w.run == Holding(Some(c)) && w'.run == Closing(c) && w'.device == w.device && w'.locals == w.locals
    requires w.device.cleanupContext == Some(c)
    ensures Owed(w, a) == Owed(w', a) + Count(c.ap == a)
  {
  }

  lemma DestroyConserves(w: World, a: Ap)
    requires CleanupOnItsWay(w) && Enabled(w, RunDestroy) && w.refs[a] == Owed(w, a)
    ensures Step(w, RunDestroy).refs[a] == Owed(Step(w, RunDestroy), a)
  {
    if w.run.taken.Some? { TakenConserves(w, w.run.taken.value, a); }
  }

  lemma TakenConserves(w: World, c: Context, a: Ap)
    requires CleanupOnItsWay(w) && w.run == Holding(Some(c)) && w.refs[a] == Owed(w, a)
    ensures Step(w, RunDestroy).refs[a] == Owed(Step(w, RunDestroy), a)
  {
    hide Owed;
    OwedAfterDestroy(w, Step(w, RunDestroy), c, a);
    Counting(w.refs, Some(c.ap), a);
  }

  /** The references held on an access point are the ones owed, step after step, exactly until a
      step overwrites it: an association torn down while this one still waits to be released. */
  lemma StepConserves(w: World, e: Event, a: Ap)
    requires Inv(w) && Enabled(w, e) && w.refs[a] == Owed(w, a)
    ensures var w' := Step(w, e);
      w'.refs[a] == Owed(w', a) <==> !(Overwrites(w, e) && w.device.disconnectedAp == Some(a))
  {
    match e
    case Received(s) => ReactionConserves(w, s, a);
    case AssociateSecond(target, id) => PublishConserves(w, target, id, a);
    case RunDestroy => DestroyConserves(w, a);
    case SendFirst => SendConserves(w, a);
    case _ =>
      if e.Enqueue? || e.RunStart? || e.RunTake? || e.RunClose? { WorkConserves(w, e, a); }
      else if e.LeaveFirst? || e.LeaveSecond? || e.ReleaseLocal? { LeaverConserves(w, e, a); }
      else { CallerConserves(w, e, a); }
  }

  // ----- With associate calls kept apart -----

  /** The rule for callers: one associate call at a time, and none during an attempt or while associated. */
  ghost predicate Orderly(w: World, e: Event) {
    e.AssociateFirst? ==> w.ready == 0 && !Attempting(w.device.state) && w.device.state != Associated
  }

  ghost predicate InOrder(w: World) {
    && w.ready <= 1 && (w.ready == 1 ==> !Attempting(w.device.state) && w.device.state != Associated)
    && (w.device.disconnectedAp.Some? ==> w.ready == 0 && (w.device.state == Down || w.device.state == Scanning))
  }

  /** The order does not depend on anything else. */
  lemma SameOrder(w: World, w': World)
    requires InOrder(w) && w'.ready == w.ready
    requires w'.device.disconnectedAp == w.device.disconnectedAp || w'.device.disconnectedAp.None?
    requires w'.device.state in {w.device.state, Down, Scanning}
    ensures InOrder(w')
  {
  }

  lemma AssociateInOrder(w: World, e: Event)
    requires Sound(w.device) && InOrder(w) && Enabled(w, e) && Orderly(w, e) && (e.AssociateFirst? || e.AssociateSecond?)
    ensures InOrder(Step(w, e))
  {
    hide React, Left, Leave, Await, Cleaned, One;
  }

  lemma LeaveInOrder(w: World, e: Event)
    requires Sound(w.device) && InOrder(w) && Enabled(w, e) && (e.LeaveFirst? || e.LeaveSecond?)
    ensures InOrder(Step(w, e))
  {
    hide React, Publish, Await, Cleaned, One;
  }

  lemma CallerInOrder(w: World, e: Event)
    requires Sound(w.device) && InOrder(w) && Enabled(w, e) && Orderly(w, e) && !e.Received?
    ensures InOrder(Step(w, e))
  {
    hide React, Publish, Left, Leave, One, Sound, InOrder, Orderly;
    if e.AssociateFirst? || e.AssociateSecond? { AssociateInOrder(w, e); }
    else if e.LeaveFirst? || e.LeaveSecond? { LeaveInOrder(w, e); }
    else { SameOrder(w, Step(w, e)); }
  }

  lemma StepInOrder(w: World, e: Event)
    requires Sound(w.device) && InOrder(w) && Enabled(w, e) && Orderly(w, e)
    ensures InOrder(Step(w, e)) && !Overwrites(w, e)
  {
    hide Step, InOrder, Sound, Orderly;
    if e.Received? { ReactionInOrder(w, e.stimulus); } else { CallerInOrder(w, e); }
  }

  lemma ReactionInOrder(w: World, s: Stimulus)
    requires Sound(w.device) && InOrder(w) && Enabled(w, Received(s))
    ensures InOrder(Step(w, Received(s))) && !Overwrites(w, Received(s))
  {
    hide React;
    ReactionAdvances(w.device, s);
  }

  ghost predicate PossibleInOrder(w: World, events: seq<Event>)
    decreases |events|
  {
    events != [] ==> Enabled(w, events[0]) && Orderly(w, events[0]) && PossibleInOrder(Step(w, events[0]), events[1..])
  }

  /** Over any run in which callers keep that rule, no reference is ever lost or released twice. */
  lemma {:induction false} RunConserves(w: World, events: seq<Event>, a: Ap)
    requires Inv(w) && InOrder(w) && PossibleInOrder(w, events) && w.refs[a] == Owed(w, a)
    ensures Possible(w, events) && Play(w, events).refs[a] == Owed(Play(w, events), a)
    decreases |events|
  {
    if events != [] {
      StepKeeps(w, events[0]);
      StepInOrder(w, events[0]);
      StepConserves(w, events[0], a);
      RunConserves(Step(w, events[0]), events[1..], a);
    }
  }

  lemma PlayFirst(w: World, e: Event, rest: seq<Event>)
    requires Enabled(w, e) && Possible(Step(w, e), rest)
    ensures Possible(w, [e] + rest) && Play(w, [e] + rest) == Play(Step(w, e), rest)
  {
    assert ([e] + rest)[1..] == rest;
  }

  lemma PlayOne(w: World, e: Event)
    requires Enabled(w, e)
    ensures Possible(w, [e]) && Play(w, [e]) == Step(w, e)
  {
    PlayFirst(w, e, []);
    assert [e] + [] == [e];
  }

  /** Without that rule a reference can be lost: an associate call that began while x was associated
      publishes y after x was torn down, and y is torn down before the cleanup work has run. */
  lemma DisorderLosesReference(w: World, x: Ap, y: Ap, id: nat) returns (run: seq<Event>)
    requires Inv(w) && w.refs[x] == Owed(w, x) && w.ready > 0 && (forall c :: c in w.created ==> c.id != id)
    requires w.device.state == Associated && w.device.ap == Some(x) && !w.device.cleanupPending && w.device.disconnectedAp.None?
    ensures Possible(w, run) && Play(w, run).refs[x] == Owed(Play(w, run), x) + 1
  {
    hide Step, Owed, Inv;
    var e1, e2 := Received(TornDown(x.address, true)), AssociateSecond(y, id);
    var e3, e4 := Received(Authenticated(y.address, 0, 2, 0)), Received(Responded(y.address, 0));
    var e5 := Received(TornDown(y.address, true));
    DisorderFirst(w, x, y, id);
    var w1 := Step(w, e1);
    var w2 := Step(w1, e2);
    var w3 := Step(w2, e3);
    var w4 := Step(w3, e4);
    DisorderSecond(w2, x, y);
    TeardownLoses(w4, x, y);
    PlayOne(w4, e5);
    PlayFirst(w3, e4, [e5]);
    PlayFirst(w2, e3, [e4] + [e5]);
    PlayFirst(w1, e2, [e3] + ([e4] + [e5]));
    PlayFirst(w, e1, [e2] + ([e3] + ([e4] + [e5])));
    run := [e1] + ([e2] + ([e3] + ([e4] + [e5])));
  }

  lemma StepKeepsBoth(w: World, e: Event, x: Ap)
    requires Inv(w) && w.refs[x] == Owed(w, x) && Enabled(w, e) && !Overwrites(w, e)
    ensures Inv(Step(w, e)) && Step(w, e).refs[x] == Owed(Step(w, e), x)
  {
    hide Inv, Owed, Step, Overwrites;
    StepKeeps(w, e);
    StepConserves(w, e, x);
  }

  /** Halfway through the run: y is being tried while x still waits to be released. */
  ghost predicate Halfway(w: World, x: Ap, y: Ap) {
    && Inv(w) && w.refs[x] == Owed(w, x)
    && w.device.state == Authenticating && w.device.ap == Some(y) && w.device.disconnectedAp == Some(x)
  }

  lemma DisorderFirst(w: World, x: Ap, y: Ap, id: nat)
    requires Inv(w) && w.refs[x] == Owed(w, x) && w.ready > 0 && (forall c :: c in w.created ==> c.id != id)
    requires w.device.state == Associated && w.device.ap == Some(x) && !w.device.cleanupPending && w.device.disconnectedAp.None?
    ensures var w1 := Step(w, Received(TornDown(x.address, true)));
      Enabled(w1, AssociateSecond(y, id)) && Halfway(Step(w1, AssociateSecond(y, id)), x, y)
  {
    hide Owed, CleanupOnItsWay, ContextsAccounted, OutcomesAccounted, WaitersAccounted, AnswersAccounted;
    var e := Received(TornDown(x.address, true));
    StepKeepsBoth(w, e, x);
    StepKeepsBoth(Step(w, e), AssociateSecond(y, id), x);
  }

  lemma DisorderSecond(w: World, x: Ap, y: Ap)
    requires Halfway(w, x, y)
    ensures var w' := Step(Step(w, Received(Authenticated(y.address, 0, 2, 0))), Received(Responded(y.address, 0)));
      w'.refs[x] == Owed(w', x) && w'.device.state == Associated && w'.device.ap == Some(y) && w'.device.disconnectedAp == Some(x)
  {
    hide Owed, CleanupOnItsWay, ContextsAccounted, OutcomesAccounted, WaitersAccounted, AnswersAccounted;
    var e := Received(Authenticated(y.address, 0, 2, 0));
    StepKeepsBoth(w, e, x);
    StepKeepsBoth(Step(w, e), Received(Responded(y.address, 0)), x);
  }

  lemma TeardownLoses(w: World, x: Ap, y: Ap)
    requires w.refs[x] == Owed(w, x)
    requires w.device.state == Associated && w.device.ap == Some(y) && w.device.disconnectedAp == Some(x)
    ensures var w' := Step(w, Received(TornDown(y.address, true))); w'.refs[x] == Owed(w', x) + 1
  {
  }

  lemma {:induction false} PlayJoin(w: World, a: seq<Event>, b: seq<Event>)
    requires Possible(w, a) && Possible(Play(w, a), b)
    ensures Possible(w, a + b) && Play(w, a + b) == Play(Play(w, a), b)
    decreases |a|
  {
    hide Step;
    if a == [] {
      assert a + b == b;
    } else {
      PlayJoin(Step(w, a[0]), a[1..], b);
      assert (a + b)[0] == a[0] && (a + b)[1..] == a[1..] + b;
    }
  }

  lemma PlayThree(w: World, e1: Event, e2: Event, e3: Event)
    requires Enabled(w, e1) && Enabled(Step(w, e1), e2) && Enabled(Step(Step(w, e1), e2), e3)
    ensures Possible(w, [e1] + ([e2] + [e3])) && Play(w, [e1] + ([e2] + [e3])) == Step(Step(Step(w, e1), e2), e3)
  {
    hide Step, Enabled;
    PlayOne(Step(Step(w, e1), e2), e3);
    PlayFirst(Step(w, e1), e2, [e3]);
    PlayFirst(w, e1, [e2] + [e3]);
  }

  lemma StepConservesThree(w: World, e1: Event, e2: Event, e3: Event, x: Ap)
    requires Inv(w) && w.refs[x] == Owed(w, x)
    requires Enabled(w, e1) && Enabled(Step(w, e1), e2) && Enabled(Step(Step(w, e1), e2), e3)
    requires !Overwrites(w, e1) && !Overwrites(Step(w, e1), e2) && !Overwrites(Step(Step(w, e1), e2), e3)
    ensures var w' := Step(Step(Step(w, e1), e2), e3); Inv(w') && w'.refs[x] == Owed(w', x)
  {
    hide Step, Enabled, Overwrites, Inv, Owed;
    StepKeepsBoth(w, e1, x);
    StepKeepsBoth(Step(w, e1), e2, x);
    StepKeepsBoth(Step(Step(w, e1), e2), e3, x);
  }

  /** x is being tried, or is established with its cleanup on the way, or is established. */
  ghost predicate Tried(w: World, x: Ap) {
    && Inv(w) && w.refs[x] == Owed(w, x) && w.created == {Context(0, x, 0)} && w.device.disconnectedAp.None? && w.ready == 0
    && w.device.state == Associating && w.device.context == Some(Context(0, x, 0)) && w.requests == 0 && !w.queued && w.run.Idle?
  }

  ghost predicate BeingCleaned(w: World, x: Ap) {
    && Inv(w) && w.refs[x] == Owed(w, x) && w.created == {Context(0, x, 0)} && w.device.disconnectedAp.None? && w.ready == 0
    && w.device.state == Associated && w.device.ap == Some(x) && w.run == Begun && w.device.cleanupContext == Some(Context(0, x, 0))
  }

  lemma TryFromStart(x: Ap)
    ensures var run := [AssociateFirst] + ([AssociateSecond(x, 0)] + [Received(Authenticated(x.address, 0, 2, 0))]);
      Possible(START, run) && Tried(Play(START, run), x)
  {
    var e1, e2, e3 := AssociateFirst, AssociateSecond(x, 0), Received(Authenticated(x.address, 0, 2, 0));
    PlayThree(START, e1, e2, e3);
    assert Inv(START) && START.refs[x] == Owed(START, x);
    StepConservesThree(START, e1, e2, e3, x);
  }

  lemma EstablishFromTry(w: World, x: Ap)
    requires Tried(w, x)
    ensures var run := [Received(Responded(x.address, 0))] + ([Enqueue] + [RunStart]);
      Possible(w, run) && BeingCleaned(Play(w, run), x)
  {
    hide Owed, CleanupOnItsWay, ContextsAccounted, OutcomesAccounted, WaitersAccounted, AnswersAccounted;
    var e1, e2, e3 := Received(Responded(x.address, 0)), Enqueue, RunStart;
    PlayThree(w, e1, e2, e3);
    StepConservesThree(w, e1, e2, e3, x);
  }

  lemma CleanUp(w: World, x: Ap)
    requires BeingCleaned(w, x)
    ensures var run := [RunTake] + ([RunDestroy] + [RunClose]);
      Possible(w, run) &&
      var w' := Play(w, run);
      && Inv(w') && w'.refs[x] == Owed(w', x) && w'.device.state == Associated && w'.device.ap == Some(x)
      && !w'.device.cleanupPending && w'.device.disconnectedAp.None? && w'.ready == 0 && w'.created == w.created
  {
    hide Owed, CleanupOnItsWay, ContextsAccounted, OutcomesAccounted, WaitersAccounted, React, Publish, Leave, Left, Await, AnswersAccounted;
    PlayThree(w, RunTake, RunDestroy, RunClose);
    StepConservesThree(w, RunTake, RunDestroy, RunClose, x);
  }

  /** So the code has a run, from its start, after which one reference to x will never be released. */
  lemma ReferenceCanBeLost(x: Ap, y: Ap) returns (run: seq<Event>)
    ensures Possible(START, run) && Play(START, run).refs[x] == Owed(Play(START, run), x) + 1
  {
    hide Owed, Inv, Step;
    run := [AssociateFirst] + ([AssociateSecond(x, 0)] + [Received(Authenticated(x.address, 0, 2, 0))]);
    TryFromStart(x);
    var more := [Received(Responded(x.address, 0))] + ([Enqueue] + [RunStart]);
    EstablishFromTry(Play(START, run), x);
    PlayJoin(START, run, more);
    run := run + more;
    more := [RunTake] + ([RunDestroy] + [RunClose]);
    CleanUp(Play(START, run), x);
    PlayJoin(START, run, more);
    run := run + more;
    var w := Play(START, run);
    CallWhileAssociated(w, x);
    PlayJoin(START, run, [AssociateFirst]);
    run := run + [AssociateFirst];
    more := DisorderLosesReference(Play(START, run), x, y, 1);
    PlayJoin(START, run, more);
    run := run + more;
  }

  /** An associate call may begin while x is associated. */
  lemma CallWhileAssociated(w: World, x: Ap)
    requires Inv(w) && w.refs[x] == Owed(w, x) && w.device.state == Associated && w.device.disconnectedAp.None?
    ensures Possible(w, [AssociateFirst])
    ensures var w' := Play(w, [AssociateFirst]);
      Inv(w') && w'.refs[x] == Owed(w', x) && w'.device == w.device && w'.ready == w.ready + 1 && w'.created == w.created
  {
    hide Owed, Inv;
    PlayOne(w, AssociateFirst);
    StepKeepsBoth(w, AssociateFirst, x);
  }
}

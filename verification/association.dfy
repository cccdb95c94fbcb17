/** The fields a station keeps about its association, and the critical sections on them. */
module Association {
  import opened Options

  type Address = seq<int>

  datatype Ap = Ap(id: nat, address: Address)

  datatype DeviceState = Down | Scanning | Authenticating | Associating | Associated | Deauthenticating

  datatype Status = Success | Rejected | TimedOut | UnknownError

  /** One attempt.  Its access point and generation do not change once it is published. */
  datatype Context = Context(id: nat, ap: Ap, generation: nat)

  /** The association part of the device structure. */
  datatype Device = Device(
    state: DeviceState,
    ap: Option<Ap>,
    context: Option<Context>,
    cleanupContext: Option<Context>,
    cleanupPending: bool,
    disconnectedAp: Option<Ap>,
    generation: nat,
    result: Status,
    waiters: seq<nat>,
    received: Option<nat>)   // the sequence control last received from the access point

  const INITIAL := Device(Down, None, None, None, false, None, 0, UnknownError, [], None)

  /** What a section leaves behind: the device, and whether its thread will ask for a cleanup run. */
  datatype Section = Section(device: Device, cleanup: bool)

  // ----- The critical sections, as functions -----

  predicate Attempting(s: DeviceState) {
    s == Authenticating || s == Associating
  }

  function NextGeneration(g: nat): nat {
    (g + 1) % 0x1_0000_0000
  }

  /** The end of an attempt: its context goes to the cleanup work. */
  function Finish(d: Device, state: DeviceState, ap: Option<Ap>, context: Option<Context>, result: Status): Device {
    d.(state := state, ap := ap, context := None, cleanupContext := context, cleanupPending := true,
       generation := NextGeneration(d.generation), result := result)
  }

  function TakeDisconnected(d: Device): Device {
    d.(disconnectedAp := None)
  }

  function Publish(d: Device, id: nat, ap: Ap): (r: (Device, bool)) {
    if d.cleanupPending || d.state != Down then (d, false)
    else
      (d.(state := Authenticating, ap := Some(ap), context := Some(Context(id, ap, d.generation)), result := UnknownError,
          received := None), true)
  }

  /** A frame as far as the duplicate filter looks at it. */
  datatype Numbered = Numbered(from: Address, retry: bool, sequenceControl: nat)

  /** Whether a frame repeats the last one of the stream, which it becomes if it does not. */
  function Filter(d: Device, expected: DeviceState, f: Numbered): (r: (Device, bool)) {
    if d.state != expected || d.ap.None? || d.ap.value.address != f.from then (d, false)
    else if f.retry && d.received == Some(f.sequenceControl) then (d, true)
    else (d.(received := Some(f.sequenceControl)), false)
  }

  function AuthReply(d: Device, address: Address, algorithm: int, transaction: int, status: int): Section {
    if d.ap.None? || d.ap.value.address != address then Section(d, false)
    else if algorithm != 0 || transaction != 2 then Section(d, false)
    else if d.state != Authenticating then Section(d, false)
    else if status != 0 then Section(Finish(d, Down, None, d.context, Rejected), true)
    else Section(d.(state := Associating), false)
  }

  function AssocReply(d: Device, address: Address, status: int): Section {
    if d.context.None? || d.ap.None? then Section(d, false)
    else if d.context.value.ap.address != address then Section(d, false)
    else if d.state != Associating then Section(d, false)
    else if status != 0 then Section(Finish(d, Down, None, d.context, Rejected), true)
    else Section(Finish(d, Associated, d.ap, d.context, Success), true)
  }

  function Expire(d: Device, context: Context, expected: DeviceState): Section {
    if d.context != Some(context) || d.ap.None? || d.generation != context.generation then Section(d, false)
    else if d.state != expected then Section(d, false)
    else Section(Finish(d, Down, None, Some(context), TimedOut), true)
  }

  /** `seen` is the state read at the start; the later compare-and-swap expects it again. */
  function TeardownSeen(d: Device, seen: DeviceState, address: Address, deauthentication: bool): Section {
    if d.ap.None? || d.ap.value.address != address then Section(d, false)
    else if seen != Associated && (!deauthentication || !Attempting(seen)) then Section(d, false)
    else if d.state != seen then Section(d, false)
    else if Attempting(seen) then
      if d.context.None? then Section(d.(state := Down), false)
      else Section(Finish(d, Down, None, d.context, Rejected), true)
    else Section(d.(state := Down, disconnectedAp := d.ap, ap := None, generation := NextGeneration(d.generation)), true)
  }

  function Teardown(d: Device, address: Address, deauthentication: bool): Section {
    TeardownSeen(d, d.state, address, deauthentication)
  }

  /** What can move an attempt along, or end it: frames from the air, and timers. */
  datatype Stimulus =
    | Authenticated(address: Address, algorithm: int, transaction: int, status: int)
    | Responded(address: Address, status: int)
    | TimedOutAt(context: Context, expected: DeviceState)
    | TornDown(address: Address, deauthentication: bool)

  function React(d: Device, s: Stimulus): Section {
    match s
    case Authenticated(address, algorithm, transaction, status) => AuthReply(d, address, algorithm, transaction, status)
    case Responded(address, status) => AssocReply(d, address, status)
    case TimedOutAt(context, expected) => Expire(d, context, expected)
    case TornDown(address, deauthentication) => Teardown(d, address, deauthentication)
  }

  /** The first section of leaving; true when the caller goes on to send and finish. */
  function Leave(d: Device): (Device, bool) {
    if d.ap.None? || d.state != Associated then (d, false) else (d.(state := Deauthenticating), true)
  }

  /** The second section of leaving: the access point, if any, is the caller's to release. */
  function Left(d: Device): (Device, Option<Ap>) {
    if d.ap.None? || d.state != Deauthenticating then (d, None)
    else (d.(state := Down, ap := None, generation := NextGeneration(d.generation)), d.ap)
  }

  /** The last section of a cleanup run: the waiters wake with the result. */
  function Cleaned(d: Device): Device {
    d.(cleanupContext := None, cleanupPending := false, waiters := [])
  }

  /** Either the result is there already, or the waiter joins the list. */
  function Await(d: Device, waiter: nat): (Device, Option<Status>) {
    if !Attempting(d.state) && !d.cleanupPending then (d, Some(d.result))
    else (d.(waiters := d.waiters + [waiter]), None)
  }

  /** The first frame of a new attempt is never taken for a repetition; afterwards a frame of the stream
      is, exactly when it is a retransmission with the number of the frame before it. */
  lemma RepetitionsExactly(d: Device, id: nat, ap: Ap, first: Numbered, expected: DeviceState, f: Numbered, g: Numbered)
    ensures Publish(d, id, ap).1 ==> !Filter(Publish(d, id, ap).0, expected, first).1
    ensures d.state == expected && d.ap.Some? && d.ap.value.address == f.from == g.from ==>
      (Filter(Filter(d, expected, f).0, expected, g).1 <==> g.retry && g.sequenceControl == f.sequenceControl)
    ensures d.state != expected || d.ap.None? || d.ap.value.address != f.from ==> Filter(d, expected, f) == (d, false)
  {
  }

  /** Whatever ends an attempt or an association, the generation moves on by one, modulo 2 to the 32:
      a timer of the old one that finds a context at the same address does nothing. */
  lemma GenerationMovesOn(d: Device, s: Stimulus, context: Context, expected: DeviceState)
    requires Sound(d)
    ensures React(d, s).cleanup ==> React(d, s).device.generation == (d.generation + 1) % 0x1_0000_0000
    ensures !React(d, s).cleanup ==> React(d, s).device.generation == d.generation
    ensures Left(d).1.Some? ==> Left(d).0.generation == (d.generation + 1) % 0x1_0000_0000
    ensures d.generation != context.generation ==> Expire(d, context, expected) == Section(d, false)
  {
  }

  // ----- The invariant of the device -----

  /** Whenever the lock is free. */
  ghost predicate Sound(d: Device) {
    && (Attempting(d.state) <==> d.context.Some?)
    && (d.context.Some? ==> d.ap == Some(d.context.value.ap) && d.generation == d.context.value.generation && !d.cleanupPending)
    && (d.state == Associated || d.state == Deauthenticating ==> d.ap.Some?)
    && (d.state == Down || d.state == Scanning ==> d.ap.None?)
    && (d.cleanupPending <==> d.cleanupContext.Some?)
    && (d.waiters != [] ==> d.context.Some? || d.cleanupPending)
  }

  /** A stimulus does nothing, moves to the next phase, ends the attempt in progress, or ends an
      established association; it asks for a cleanup exactly in the last two cases. */
  ghost predicate Advances(d: Device, s: Section) {
    if !s.cleanup then s.device == d || (d.state == Authenticating && s.device == d.(state := Associating))
    else if d.context.Some? then
      || s.device == Finish(d, Down, None, d.context, Rejected)
      || s.device == Finish(d, Down, None, d.context, TimedOut)
      || (d.state == Associating && s.device == Finish(d, Associated, d.ap, d.context, Success))
    else
      && d.state == Associated && !d.context.Some?
      && s.device == d.(state := Down, disconnectedAp := d.ap, ap := None, generation := NextGeneration(d.generation))
  }

  lemma ReactionAdvances(d: Device, s: Stimulus)
    requires Sound(d) && (s.TimedOutAt? ==> Attempting(s.expected))
    ensures Advances(d, React(d, s)) && Sound(React(d, s).device)
  {
  }

  /** What ends an attempt, and how: success comes only from its own access point accepting it in the
      second phase, a time-out only from its own timer, a rejection only from its own access point. */
  lemma OutcomesExactly(d: Device, s: Stimulus)
    requires Sound(d) && d.context.Some? && (s.TimedOutAt? ==> Attempting(s.expected))
    ensures var r, from := React(d, s), d.context.value.ap.address;
      && (r.cleanup && r.device.result == Success && r.device.state == Associated <==>
        s.Responded? && s.address == from && s.status == 0 && d.state == Associating)
      && (r.cleanup && r.device.result == TimedOut && r.device.state == Down <==>
        s.TimedOutAt? && s.context == d.context.value && s.expected == d.state)
      && (r.cleanup && r.device.result == Rejected && r.device.state == Down <==>
        || (s.Responded? && s.address == from && s.status != 0 && d.state == Associating)
        || (s.Authenticated? && s.address == from && s.algorithm == 0 && s.transaction == 2 && s.status != 0 && d.state == Authenticating)
        || (s.TornDown? && s.address == from && s.deauthentication))
      && (!r.cleanup && r.device != d <==>
        s.Authenticated? && s.address == from && s.algorithm == 0 && s.transaction == 2 && s.status == 0 && d.state == Authenticating)
  {
    ReactionAdvances(d, s);
  }

  /** Outside an attempt only one thing matters: the access point of an association takes it down. */
  lemma SettledExactly(d: Device, s: Stimulus)
    requires Sound(d) && d.context.None? && (s.TimedOutAt? ==> Attempting(s.expected))
    ensures React(d, s).cleanup <==> s.TornDown? && d.state == Associated && d.ap.value.address == s.address
    ensures !React(d, s).cleanup ==> React(d, s).device == d
    ensures React(d, s).cleanup ==> React(d, s).device.disconnectedAp == d.ap && React(d, s).device.state == Down
  {
  }

  /** A timer that fires acts exactly on the attempt it was started for, in the phase it was started in. */
  lemma ExpireOnlyItsAttempt(d: Device, context: Context, expected: DeviceState)
    requires Sound(d) && Attempting(expected)
    ensures Expire(d, context, expected).cleanup <==> d.context == Some(context) && d.state == expected
    ensures !Expire(d, context, expected).cleanup ==> Expire(d, context, expected).device == d
  {
  }

  /** A scan may start or end between the two accesses of a teardown without changing what it does. */
  lemma ScanCannotRaceTeardown(d: Device, seen: DeviceState, address: Address, deauthentication: bool)
    requires Sound(d) && {seen, d.state} <= {Down, Scanning}
    ensures TeardownSeen(d, seen, address, deauthentication) == Teardown(d, address, deauthentication) == Section(d, false)
  {
  }

  /** The same sections on the mutable structure, under its lock. */
  class Station {
    var state: DeviceState
    var ap: Option<Ap>
    var context: Option<Context>
    var cleanupContext: Option<Context>
    var cleanupPending: bool
    var disconnectedAp: Option<Ap>
    var generation: nat
    var result: Status
    var waiters: seq<nat>
    var received: Option<nat>

    function Snapshot(): Device
      reads this
    {
      Device(state, ap, context, cleanupContext, cleanupPending, disconnectedAp, generation, result, waiters, received)
    }

    constructor ()
      ensures Snapshot() == INITIAL
    {
      state, ap, context := Down, None, None;
      cleanupContext, cleanupPending, disconnectedAp := None, false, None;
      generation, result, waiters, received := 0, UnknownError, [], None;
    }

    method SetState(from: DeviceState, to: DeviceState) returns (ok: bool)
      modifies `state
      ensures ok == (old(state) == from) && state == if ok then to else old(state)
    {
      ok := state == from;
      if ok {
        state := to;
      }
    }

    method ScheduleCleanup(c: Option<Context>)
      modifies `context, `cleanupContext, `cleanupPending
      ensures context == None && cleanupContext == c && cleanupPending
    {
      context := None;
      cleanupContext := c;
      cleanupPending := true;
    }

    method TakeDisconnectedAp() returns (taken: Option<Ap>)
      modifies this
      ensures Snapshot() == TakeDisconnected(old(Snapshot())) && taken == old(disconnectedAp)
    {
      taken := disconnectedAp;
      disconnectedAp := None;
    }

    method PublishContext(id: nat, target: Ap) returns (ok: bool)
      modifies this
      ensures (Snapshot(), ok) == Publish(old(Snapshot()), id, target)
      ensures ok <==> old(state) == Down && !old(cleanupPending)
      ensures ok ==> context == Some(Context(id, target, generation)) && state == Authenticating && generation == old(generation)
    {
      if cleanupPending {
        return false;
      }
      ok := SetState(Down, Authenticating);
      if !ok {
        return;
      }
      context := Some(Context(id, target, generation));
      result := UnknownError;
      ap := Some(target);
      received := None;
    }

    method IsDuplicate(f: Numbered, expected: DeviceState) returns (duplicate: bool)
      modifies `received
      ensures (Snapshot(), duplicate) == Filter(old(Snapshot()), expected, f)
    {
      duplicate := false;
      var activeStream := state == expected && ap.Some? && ap.value.address == f.from;
      if activeStream {
        duplicate := f.retry && received == Some(f.sequenceControl);
        if !duplicate {
          received := Some(f.sequenceControl);
        }
      }
    }

    method ProcessAuthentication(address: Address, algorithm: int, transaction: int, status: int) returns (cleanup: bool)
      modifies this
      ensures Section(Snapshot(), cleanup) == AuthReply(old(Snapshot()), address, algorithm, transaction, status)
    {
      cleanup := false;
      if ap.None? || ap.value.address != address {
        return;
      }
      if algorithm != 0 || transaction != 2 {
        return;
      }
      if status != 0 {
        var ok := SetState(Authenticating, Down);
        if !ok {
          return;
        }
        ap := None;
        ScheduleCleanup(context);
        generation := NextGeneration(generation);
        result := Rejected;
        cleanup := true;
      } else {
        var ok := SetState(Authenticating, Associating);
      }
    }

    method ProcessResponse(address: Address, status: int) returns (cleanup: bool)
      modifies this
      ensures Section(Snapshot(), cleanup) == AssocReply(old(Snapshot()), address, status)
    {
      cleanup := false;
      if context.None? || ap.None? {
        return;
      }
      if context.value.ap.address != address {
        return;
      }
      var ok := SetState(Associating, if status != 0 then Down else Associated);
      if !ok {
        return;
      }
      if status != 0 {
        ap := None;
      }
      ScheduleCleanup(context);
      generation := NextGeneration(generation);
      result := if status != 0 then Rejected else Success;
      cleanup := true;
    }

    method TimeOut(c: Context, expected: DeviceState) returns (cleanup: bool)
      modifies this
      ensures Section(Snapshot(), cleanup) == Expire(old(Snapshot()), c, expected)
    {
      cleanup := false;
      if context != Some(c) || ap.None? || generation != c.generation {
        return;
      }
      var ok := SetState(expected, Down);
      if ok {
        ap := None;
        ScheduleCleanup(Some(c));
        generation := NextGeneration(generation);
        result := TimedOut;
        cleanup := true;
      }
    }

    method ProcessTeardown(address: Address, deauthentication: bool) returns (cleanup: bool)
      modifies this
      ensures Section(Snapshot(), cleanup) == Teardown(old(Snapshot()), address, deauthentication)
    {
      cleanup := false;
      if ap.None? || ap.value.address != address {
        return;
      }
      var seen := state;
      var inProgress := seen == Authenticating || seen == Associating;
      if seen != Associated && (!deauthentication || !inProgress) {
        return;
      }
      var ok := SetState(seen, Down);
      if !ok {
        return;
      }
      if inProgress {
        if context.None? {
          return;
        }
        ScheduleCleanup(context);
        result := Rejected;
      } else {
        disconnectedAp := ap;
      }
      cleanup := true;
      ap := None;
      generation := NextGeneration(generation);
    }

    method BeginLeave() returns (ok: bool)
      modifies this
      ensures (Snapshot(), ok) == Leave(old(Snapshot()))
      ensures ok <==> old(state) == Associated && old(ap).Some?
      ensures state == if ok then Deauthenticating else old(state)
    {
      if ap.None? || state != Associated {
        return false;
      }
      ok := SetState(Associated, Deauthenticating);
    }

    method EndLeave() returns (taken: Option<Ap>)
      modifies this
      ensures (Snapshot(), taken) == Left(old(Snapshot()))
      ensures old(state) == Deauthenticating && old(ap).Some? ==> state == Down && ap == None && taken == old(ap)
    {
      taken := None;
      if ap.Some? && state == Deauthenticating {
        taken := ap;
        ap := None;
        generation := NextGeneration(generation);
        var ok := SetState(Deauthenticating, Down);
      }
    }

    /** Wake the waiters one by one, in list order, each with the result. */
    method EndCleanup() returns (woken: seq<(nat, Status)>)
      modifies this
      ensures Snapshot() == Cleaned(old(Snapshot()))
      ensures |woken| == |old(waiters)| && forall i :: 0 <= i < |woken| ==> woken[i] == (old(waiters)[i], old(result))
    {
      cleanupContext := None;
      cleanupPending := false;
      woken := [];
      while waiters != []
        invariant Snapshot() == Cleaned(old(Snapshot())).(waiters := waiters)
        invariant |woken| + |waiters| == |old(waiters)| && waiters == old(waiters)[|woken|..]
        invariant forall i :: 0 <= i < |woken| ==> woken[i] == (old(waiters)[i], old(result))
        decreases |waiters|
      {
        woken := woken + [(waiters[0], result)];
        waiters := waiters[1..];
      }
    }

    method WaitFor(waiter: nat) returns (ready: Option<Status>)
      modifies this
      ensures (Snapshot(), ready) == Await(old(Snapshot()), waiter)
      ensures ready.Some? <==> old(state) != Authenticating && old(state) != Associating && !old(cleanupPending)
      ensures ready.Some? ==> ready.value == old(result) && waiters == old(waiters)
      ensures ready.None? ==> waiters == old(waiters) + [waiter]
    {
      if state != Authenticating && state != Associating && !cleanupPending {
        return Some(result);
      }
      waiters := waiters + [waiter];
      ready := None;
    }
  }
}

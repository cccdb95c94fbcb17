/** Whole runs of the cache and of those who hold references: the purge reads a count and drops the
    entry in two steps, and references come and go between them.  What needs the lock is one step. */
module CacheRuns {
  import opened Options

  datatype Ap = Ap(id: nat, mac: seq<int>)

  /** The purge, which keeps the lock: where it is, and what it has read. */
  datatype Purge = Idle | Walking(current: Option<Ap>) | Seen(ap: Ap, next: Option<Ap>, count: nat)

  datatype Visit = Visit(ap: Ap, count: nat)

  datatype World = World(
    known: set<Ap>,
    counts: multiset<Ap>,    // the reference counts
    held: multiset<Ap>,      // the references outside the cache
    freed: multiset<Ap>,
    entries: seq<Ap>,        // the cache, in its order
    purge: Purge,
    before: seq<Ap>,         // the entries when the purge began
    visits: seq<Visit>)      // the entries it is done with, and the counts it read

  const EMPTY := World({}, multiset{}, multiset{}, multiset{}, [], Idle, [], [])

  datatype Event =
    | Allocate(ap: Ap)
    | Hold(ap: Ap)
    | Release(ap: Ap)
    | Insert(ap: Ap, place: nat)
    | Remove(mac: seq<int>)
    | Find(mac: seq<int>)
    | PurgeStart
    | PurgeLook
    | PurgeAct
    | PurgeEnd

  ghost function At(s: seq<Ap>, i: nat): Option<Ap> {
    if i < |s| then Some(s[i]) else None
  }

  /** The position of the entry with an address, or the length. */
  ghost function Place(s: seq<Ap>, mac: seq<int>): (i: nat)
    ensures i <= |s| && (i < |s| ==> s[i].mac == mac) && forall j :: 0 <= j < i ==> s[j].mac != mac
  {
    if s == [] || s[0].mac == mac then 0 else 1 + Place(s[1..], mac)
  }

  ghost function Without(s: seq<Ap>, i: nat): seq<Ap> {
    if i < |s| then s[..i] + s[i + 1..] else s
  }

  /** Whoever drops the last reference frees the access point. */
  ghost function Dropped(w: World, ap: Ap): World {
    w.(counts := w.counts - multiset{ap}, freed := if w.counts[ap] == 1 then w.freed + multiset{ap} else w.freed)
  }

  ghost predicate Enabled(w: World, e: Event) {
    match e
    case Allocate(ap) => ap !in w.known
    case Hold(ap) => ap in w.held
    case Release(ap) => ap in w.held
    case Insert(ap, place) => w.purge.Idle? && ap in w.held && place <= |w.entries|
    case Remove(_) => w.purge.Idle?
    case Find(_) => w.purge.Idle?
    case PurgeStart => w.purge.Idle?
    case PurgeLook => w.purge.Walking? && w.purge.current.Some?
    case PurgeAct => w.purge.Seen?
    case PurgeEnd => w.purge == Walking(None)
  }

  ghost function Step(w: World, e: Event): World
    requires Enabled(w, e)
  {
    match e
    case Allocate(ap) =>
      w.(known := w.known + {ap}, counts := w.counts + multiset{ap}, held := w.held + multiset{ap})
    case Hold(ap) => w.(counts := w.counts + multiset{ap}, held := w.held + multiset{ap})
    case Release(ap) => Dropped(w, ap).(held := w.held - multiset{ap})
    case Insert(ap, place) =>
      if Place(w.entries, ap.mac) < |w.entries| then w
      else w.(counts := w.counts + multiset{ap}, entries := w.entries[..place] + [ap] + w.entries[place..])
    case Remove(mac) =>
      var i := Place(w.entries, mac);
      if i == |w.entries| then w else Dropped(w, w.entries[i]).(entries := Without(w.entries, i))
    case Find(mac) =>
      var i := Place(w.entries, mac);
      if i == |w.entries| then w
      else w.(counts := w.counts + multiset{w.entries[i]}, held := w.held + multiset{w.entries[i]})
    case PurgeStart => w.(purge := Walking(At(w.entries, 0)), before := w.entries, visits := [])
    case PurgeLook =>
      // The successor is fetched first.
      var ap := w.purge.current.value;
      w.(purge := Seen(ap, At(w.entries, Place(w.entries, ap.mac) + 1), w.counts[ap]))
    case PurgeAct =>
      var ap := w.purge.ap;
      var w' := w.(purge := Walking(w.purge.next), visits := w.visits + [Visit(ap, w.purge.count)]);
      if w.purge.count == 1 then Dropped(w', ap).(entries := Without(w.entries, Place(w.entries, ap.mac))) else w'
    case PurgeEnd => w.(purge := Idle)
  }

  // ----- What every step keeps -----

  ghost predicate Distinct(s: seq<Ap>) {
    forall i, j :: 0 <= i < j < |s| ==> s[i].mac != s[j].mac
  }

  ghost function Cached(w: World, ap: Ap): nat {
    if ap in w.entries then 1 else 0
  }

  /** Every count is the references there are; freed once, exactly when there are none left. */
  ghost predicate Counted(w: World, ap: Ap) {
    && w.counts[ap] == Cached(w, ap) + w.held[ap]
    && w.freed[ap] == (if ap in w.known && w.counts[ap] == 0 then 1 else 0)
    && (ap !in w.known ==> w.counts[ap] == 0)
  }

  /** The entries that the purge has kept, in order. */
  ghost function Kept(visits: seq<Visit>): seq<Ap> {
    if visits == [] then []
    else
      var v, rest := visits[|visits| - 1], Kept(visits[..|visits| - 1]);
      if v.count == 1 then rest else rest + [v.ap]
  }

  /** The entries are those the purge has kept and those it has yet to visit. */
  ghost predicate Walked(w: World) {
    && |w.visits| <= |w.before| && (forall i :: 0 <= i < |w.visits| ==> w.visits[i].ap == w.before[i])
    && w.entries == Kept(w.visits) + w.before[|w.visits|..]
    && (forall i :: 0 <= i < |w.visits| && w.visits[i].count == 1 ==> w.visits[i].ap in w.known && w.counts[w.visits[i].ap] == 0)
  }

  /** Where the purge is; a count that was read as 1 still is, because nobody else holds a reference. */
  ghost predicate AtPlace(w: World) {
    var k := |Kept(w.visits)|;
    match w.purge
    case Idle => true
    case Walking(current) => current == At(w.entries, k)
    case Seen(ap, next, count) => At(w.entries, k) == Some(ap) && next == At(w.entries, k + 1) && (count == 1 ==> w.held[ap] == 0)
  }

  ghost predicate Inv(w: World) {
    && (forall ap :: Counted(w, ap)) && Distinct(w.entries) && (!w.purge.Idle? ==> Walked(w)) && AtPlace(w)
  }

  lemma PlaceIs(s: seq<Ap>, i: nat)
    requires Distinct(s) && i < |s|
    ensures Place(s, s[i].mac) == i
  {
    var j := Place(s, s[i].mac);
    assert j < |s| && s[j].mac == s[i].mac;
  }

  lemma WithoutIs(s: seq<Ap>, i: nat, ap: Ap)
    requires Distinct(s) && i < |s|
    ensures Distinct(Without(s, i))
    ensures ap in Without(s, i) <==> ap in s && ap != s[i]
  {
    assert s == s[..i] + [s[i]] + s[i + 1..];
    assert ap in s <==> ap in s[..i] || ap == s[i] || ap in s[i + 1..];
    NotIn(s, i);
  }

  lemma NotIn(s: seq<Ap>, i: nat)
    requires Distinct(s) && i < |s|
    ensures s[i] !in s[..i] && s[i] !in s[i + 1..]
  {
  }

  lemma InsertedIs(s: seq<Ap>, place: nat, ap: Ap, b: Ap)
    requires Distinct(s) && place <= |s| && Place(s, ap.mac) == |s|
    ensures Distinct(s[..place] + [ap] + s[place..])
    ensures b in s[..place] + [ap] + s[place..] <==> b == ap || b in s
    ensures ap !in s
  {
    hide Distinct;
    assert s == s[..place] + s[place..];
    assert b in s <==> b in s[..place] || b in s[place..];
    InsertedIsDistinct(s, place, ap);
  }

  lemma InsertedIsDistinct(s: seq<Ap>, place: nat, ap: Ap)
    requires Distinct(s) && place <= |s| && forall j :: 0 <= j < |s| ==> s[j].mac != ap.mac
    ensures Distinct(s[..place] + [ap] + s[place..])
  {
  }

  lemma HolderKeepsCounts(w: World, e: Event, ap: Ap)
    requires Counted(w, ap) && Enabled(w, e) && (e.Allocate? || e.Hold? || e.Release?)
    ensures Counted(Step(w, e), ap)
  {
  }

  lemma InsertKeepsCounts(w: World, b: Ap, place: nat, ap: Ap)
    requires Counted(w, ap) && Distinct(w.entries) && Enabled(w, Insert(b, place))
    ensures Counted(Step(w, Insert(b, place)), ap)
  {
    hide Distinct, Place;
    if Place(w.entries, b.mac) == |w.entries| {
      InsertedIs(w.entries, place, b, ap);
    }
  }

  /** The cache lets go of an entry. */
  lemma DroppedKeepsCounts(w: World, w': World, i: nat, ap: Ap)
    requires Distinct(w.entries) && i < |w.entries| && Counted(w, ap) && Counted(w, w.entries[i])
    requires w' == Dropped(w, w.entries[i]).(entries := Without(w.entries, i), purge := w'.purge, visits := w'.visits)
    ensures Counted(w', ap)
  {
    hide Distinct, Without;
    WithoutIs(w.entries, i, ap);
  }

  lemma RemoveKeepsCounts(w: World, mac: seq<int>, ap: Ap)
    requires Inv(w) && Enabled(w, Remove(mac))
    ensures Counted(Step(w, Remove(mac)), ap)
  {
    hide Distinct, Without, Counted;
    var i := Place(w.entries, mac);
    if i < |w.entries| { DroppedKeepsCounts(w, Step(w, Remove(mac)), i, ap); }
  }

  lemma ActKeepsCounts(w: World, ap: Ap)
    requires Inv(w) && Enabled(w, PurgeAct)
    ensures Counted(Step(w, PurgeAct), ap)
  {
    hide Distinct, Without, Kept;
    PlaceIs(w.entries, |Kept(w.visits)|);
    assert Counted(w, ap);
    if w.purge.count == 1 {
      assert Counted(w, w.entries[|Kept(w.visits)|]);
      DroppedKeepsCounts(w, Step(w, PurgeAct), |Kept(w.visits)|, ap);
    }
  }

  lemma FindKeepsCounts(w: World, mac: seq<int>, ap: Ap)
    requires Inv(w) && Enabled(w, Find(mac))
    ensures Counted(Step(w, Find(mac)), ap)
  {
    hide Distinct;
    assert Counted(w, ap);
    var i := Place(w.entries, mac);
    if i < |w.entries| { assert Counted(w, w.entries[i]); }
  }

  lemma CountsKept(w: World, e: Event, ap: Ap)
    requires Inv(w) && Enabled(w, e)
    ensures Counted(Step(w, e), ap)
  {
    hide Place, Distinct, Without, Dropped;
    assert Counted(w, ap);
    match e
    case Insert(b, place) => InsertKeepsCounts(w, b, place, ap);
    case Remove(mac) => RemoveKeepsCounts(w, mac, ap);
    case PurgeAct => ActKeepsCounts(w, ap);
    case Allocate(_) => HolderKeepsCounts(w, e, ap);
    case Hold(_) => HolderKeepsCounts(w, e, ap);
    case Release(_) => HolderKeepsCounts(w, e, ap);
    case Find(mac) => FindKeepsCounts(w, mac, ap);
    case _ =>
  }

  lemma EntriesKept(w: World, e: Event)
    requires Inv(w) && Enabled(w, e)
    ensures Distinct(Step(w, e).entries)
  {
    match e
    case Insert(b, place) => if Place(w.entries, b.mac) == |w.entries| { InsertedIs(w.entries, place, b, b); }
    case Remove(mac) => var i := Place(w.entries, mac); if i < |w.entries| { WithoutIs(w.entries, i, w.entries[i]); }
    case PurgeAct => PlaceIs(w.entries, |Kept(w.visits)|); WithoutIs(w.entries, |Kept(w.visits)|, w.purge.ap);
    case _ =>
  }

  /** Holders come and go while the purge is under way. */
  lemma HoldersKeepWalk(w: World, e: Event)
    requires Inv(w) && Enabled(w, e) && !w.purge.Idle? && (e.Allocate? || e.Hold? || e.Release?)
    ensures Walked(Step(w, e)) && AtPlace(Step(w, e))
  {
    hide Inv, Walked, AtPlace, Step, Enabled;
    HoldersKeepPlace(w, e);
    HoldersKeepVisits(w, e);
  }

  lemma HoldersKeepPlace(w: World, e: Event)
    requires Inv(w) && Enabled(w, e) && (e.Allocate? || e.Hold? || e.Release?)
    ensures AtPlace(Step(w, e))
  {
    hide Kept, Walked, Distinct;
    if w.purge.Seen? { assert w.purge.ap in w.entries && Counted(w, w.purge.ap); }
  }

  lemma HoldersKeepVisits(w: World, e: Event)
    requires Inv(w) && Enabled(w, e) && !w.purge.Idle? && (e.Allocate? || e.Hold? || e.Release?)
    ensures Walked(Step(w, e))
  {
    hide Kept, AtPlace, Distinct;
    forall i | 0 <= i < |w.visits| && w.visits[i].count == 1
      ensures Step(w, e).counts[w.visits[i].ap] == 0
    {
      assert Counted(w, w.visits[i].ap);
    }
  }

  lemma LookKeepsWalk(w: World)
    requires Inv(w) && Enabled(w, PurgeLook)
    ensures Walked(Step(w, PurgeLook)) && AtPlace(Step(w, PurgeLook))
  {
    var ap := w.purge.current.value;
    assert Counted(w, ap);
    PlaceIs(w.entries, |Kept(w.visits)|);
  }

  lemma ActKeepsWalk(w: World)
    requires Inv(w) && Enabled(w, PurgeAct)
    ensures Walked(Step(w, PurgeAct)) && AtPlace(Step(w, PurgeAct))
  {
    hide Place, Distinct, Without, Kept, Counted;
    var k, w' := |Kept(w.visits)|, Step(w, PurgeAct);
    VisitsGrow(w.visits, Visit(w.purge.ap, w.purge.count));
    PlaceIs(w.entries, k);
    WalkGoesOn(Kept(w.visits), w.before[|w.visits|..]);
    assert w.before[|w.visits|..][1..] == w.before[|w.visits| + 1..];
    DroppedAreGone(w);
  }

  lemma VisitsGrow(visits: seq<Visit>, v: Visit)
    ensures Kept(visits + [v]) == if v.count == 1 then Kept(visits) else Kept(visits) + [v.ap]
  {
    assert (visits + [v])[..|visits|] == visits;
  }

  /** What follows the current entry follows it still, whether it stays or goes. */
  lemma WalkGoesOn(kept: seq<Ap>, rest: seq<Ap>)
    requires rest != []
    ensures var s, k := kept + rest, |kept|;
      && s[k] == rest[0] && Without(s, k) == kept + rest[1..] && s == (kept + [rest[0]]) + rest[1..]
      && At(Without(s, k), k) == At(s, k + 1)
  {
  }

  /** Those the purge has dropped, and the one it drops now, have no references left. */
  lemma DroppedAreGone(w: World)
    requires Inv(w) && Enabled(w, PurgeAct)
    ensures var w' := Step(w, PurgeAct);
      forall i :: 0 <= i < |w'.visits| && w'.visits[i].count == 1 ==> w'.visits[i].ap in w'.known && w'.counts[w'.visits[i].ap] == 0
  {
    hide Place, Without, Kept;
    assert Counted(w, w.purge.ap);
  }

  /** Every step of every interleaving keeps the invariant. */
  lemma StepKeeps(w: World, e: Event)
    requires Inv(w) && Enabled(w, e)
    ensures Inv(Step(w, e))
  {
    forall ap ensures Counted(Step(w, e), ap) { CountsKept(w, e, ap); }
    EntriesKept(w, e);
    if e.PurgeLook? { LookKeepsWalk(w); }
    else if e.PurgeAct? { ActKeepsWalk(w); }
    else if !w.purge.Idle? && !e.PurgeEnd? { HoldersKeepWalk(w, e); }
  }

  ghost predicate Possible(w: World, events: seq<Event>)
    decreases |events|
  {
    events != [] ==> Enabled(w, events[0]) && Possible(Step(w, events[0]), events[1..])
  }

  ghost function Play(w: World, events: seq<Event>): World
    requires Possible(w, events)
    decreases |events|
  {
    if events == [] then w else Play(Step(w, events[0]), events[1..])
  }

  lemma {:induction false} PlayKeeps(w: World, events: seq<Event>)
    requires Inv(w) && Possible(w, events)
    ensures Inv(Play(w, events))
    decreases |events|
  {
    hide Step, Enabled, Inv;
    if events != [] {
      StepKeeps(w, events[0]);
      PlayKeeps(Step(w, events[0]), events[1..]);
    }
  }

  /** In every reachable world, also in the middle of a purge: whatever is cached or held has not been
      freed, and whatever was allocated has been freed exactly once if it is neither. */
  lemma ReachableIsCounted(events: seq<Event>, ap: Ap)
    requires Possible(EMPTY, events)
    ensures var w := Play(EMPTY, events);
      && w.counts[ap] == Cached(w, ap) + w.held[ap]
      && w.freed[ap] == if ap in w.known && ap !in w.entries && ap !in w.held then 1 else 0
  {
    PlayKeeps(EMPTY, events);
    assert Counted(Play(EMPTY, events), ap);
  }

  /** A count is read as 1 exactly when nobody outside the cache holds a reference at that moment. */
  lemma LookReadsHolders(w: World)
    requires Inv(w) && Enabled(w, PurgeLook)
    ensures Step(w, PurgeLook).purge.count == 1 <==> w.purge.current.value !in w.held
  {
    assert Counted(w, w.purge.current.value);
  }

  /** Between reading a count of 1 and dropping the entry, nothing that happens changes the count. */
  lemma OneIsStable(w: World, e: Event)
    requires Inv(w) && Enabled(w, e) && w.purge.Seen? && w.purge.count == 1 && !e.PurgeAct?
    ensures var w' := Step(w, e); w'.purge == w.purge && w'.counts[w.purge.ap] == 1 && w'.entries == w.entries
  {
    assert Counted(w, w.purge.ap);
  }

  /** When a purge reaches its end, in any run: it has visited each entry that was there when it began
      exactly once, in order; the cache holds, in order, exactly those whose count it did not read as 1;
      and the others have been freed. */
  lemma PurgedExactly(events: seq<Event>)
    requires Possible(EMPTY, events) && Play(EMPTY, events).purge == Walking(None)
    ensures var w := Play(EMPTY, events);
      && |w.visits| == |w.before| && (forall i :: 0 <= i < |w.before| ==> w.visits[i].ap == w.before[i])
      && w.entries == Kept(w.visits)
      && forall i :: 0 <= i < |w.visits| && w.visits[i].count == 1 ==> w.freed[w.visits[i].ap] == 1
  {
    PlayKeeps(EMPTY, events);
    var w := Play(EMPTY, events);
    forall i | 0 <= i < |w.visits| && w.visits[i].count == 1 ensures w.freed[w.visits[i].ap] == 1 {
      assert Counted(w, w.visits[i].ap);
    }
  }
}

/** The limiter over whole runs: clients, the conductor goroutine and the closer that shuts
    the queue down, with the waiting and waking of the condition variable made explicit. */
module LimiterRun {
  import opened Limiter

  /** Where the conductor is between critical sections: running, asleep in one of the two waits of
      `checkin`, woken but not yet holding the lock again, or gone. */
  datatype Conductor = NotStarted | Running | ParkedEmpty | ParkedScanned | WokenEmpty | WokenScanned | Exited

  /** Where `gracefulShutdown` is. */
  datatype Closer = Idle | Polling | Deciding | Asleep | Awoken | Closed

  /** `outstanding`, `arrived` and `log` record history: requests granted and not yet released, all
      requests by id, and ids in the order they were granted. */
  datatype State = State(
    shuttingDown: bool, max: nat, elements: seq<Request>, granted: Granted,
    conductor: Conductor, closer: Closer,
    outstanding: seq<Request>, arrived: seq<Request>, log: seq<nat>)

  datatype Step =
    | Start
    | Acquire(tickets: seq<Ticket>, wakeCloser: bool)
    | Finish(k: nat)
    | Conduct
    | Shutdown(wakeCloser: bool)
    | Close
    | Stray(tickets: seq<Ticket>)

  function Initial(max: nat): State {
    State(true, max, [], map[], NotStarted, Idle, [], [], [])
  }

  // ----- Condition variable -----

  function WakeConductor(c: Conductor): Conductor {
    if c.ParkedEmpty? then WokenEmpty else if c.ParkedScanned? then WokenScanned else c
  }

  function WakeCloser(c: Closer): Closer {
    if c.Asleep? then Awoken else c
  }

  predicate Parked(c: Conductor) {
    c.ParkedEmpty? || c.ParkedScanned?
  }

  /** `Signal` wakes one sleeper, either one if there are two. */
  function Signal(s: State, wakeCloser: bool): State {
    if Parked(s.conductor) && !(wakeCloser && s.closer.Asleep?) then s.(conductor := WakeConductor(s.conductor))
    else s.(closer := WakeCloser(s.closer))
  }

  function Broadcast(s: State): State {
    s.(conductor := WakeConductor(s.conductor), closer := WakeCloser(s.closer))
  }

  // ----- Steps -----

  function Ids(rs: seq<Request>): (ids: seq<nat>)
    ensures |ids| == |rs| && forall i :: 0 <= i < |rs| ==> ids[i] == rs[i].id
  {
    seq(|rs|, i requires 0 <= i < |rs| => rs[i].id)
  }

  /** Scan the queue and sleep. */
  function ScanAndPark(s: State): State {
    var r := Scan([], s.elements, [], s.granted);
    s.(elements := r.kept, granted := r.granted, outstanding := s.outstanding + r.notified,
       log := s.log + Ids(r.notified), conductor := ParkedScanned)
  }

  /** The next critical section of the loop around `checkin`. */
  function ConductorStep(s: State): State {
    match s.conductor
    case Running =>
      if s.elements == [] && !s.shuttingDown then s.(conductor := ParkedEmpty)
      else if s.elements == [] then s.(conductor := Exited)
      else ScanAndPark(s)
    case WokenEmpty =>
      if s.elements == [] then s.(conductor := if s.shuttingDown then Exited else Running) else ScanAndPark(s)
    case WokenScanned => s.(conductor := Running)
    case _ => s
  }

  /** The next critical section of `gracefulShutdown` after `shutdown`. */
  function CloserStep(s: State): State {
    match s.closer
    case Polling => s.(closer := if s.granted == map[] then Closed else Deciding)
    case Deciding => s.(closer := if s.granted == map[] then Polling else Asleep)
    case Awoken => s.(closer := Polling)
    case _ => s
  }

  function Without(rs: seq<Request>, k: nat): seq<Request>
    requires k < |rs|
  {
    rs[..k] + rs[k + 1..]
  }

  /** One atomic step; a step that is not enabled changes nothing. The limiter is started once. `Finish` is the
      release of what a client was granted; `Stray` is a release by a client that was granted nothing, as
      after a failed acquire. */
  function Apply(s: State, step: Step): State {
    match step
    case Start => if s.conductor.NotStarted? then s.(shuttingDown := false, conductor := Running) else s
    case Acquire(tickets, wakeCloser) =>
      if s.shuttingDown || |s.elements| >= s.max then s
      else
        var e := Request(|s.arrived|, WithDefault(tickets));
        Signal(s.(elements := s.elements + [e], arrived := s.arrived + [e]), wakeCloser)
    case Finish(k) =>
      if k >= |s.outstanding| then s
      else Broadcast(s.(granted := Retrieve(s.granted, s.outstanding[k].wanted), outstanding := Without(s.outstanding, k)))
    case Conduct => ConductorStep(s)
    case Shutdown(wakeCloser) =>
      if s.conductor.NotStarted? || !s.closer.Idle? then s
      else Signal(s.(shuttingDown := true, closer := Polling), wakeCloser)
    case Close => CloserStep(s)
    case Stray(tickets) => Broadcast(s.(granted := Retrieve(s.granted, WithDefault(tickets))))
  }

  ghost predicate IsRun(states: seq<State>, steps: seq<Step>) {
    |states| == |steps| + 1 && forall i :: 0 <= i < |steps| ==> states[i + 1] == Apply(states[i], steps[i])
  }

  /** Up to state `i` clients release only what they were granted. */
  predicate Disciplined(steps: seq<Step>, i: nat) {
    forall k :: 0 <= k < i && k < |steps| ==> !steps[k].Stray?
  }

  // ----- Invariants -----

  /** All tickets held by granted, unreleased requests, with repetitions. */
  ghost function HeldBy(rs: seq<Request>): multiset<Ticket> {
    multiset(AllWanted(rs))
  }

  function AllWanted(rs: seq<Request>): seq<Ticket> {
    if rs == [] then [] else rs[0].wanted + AllWanted(rs[1..])
  }

  ghost predicate Exclusive(rs: seq<Request>) {
    forall i, j :: 0 <= i < j < |rs| ==> !ShareTicket(rs[i], rs[j])
  }

  predicate Blocked(g: Granted, e: Request) {
    exists t :: t in e.wanted && t in g
  }

  ghost predicate IdsOk(arrived: seq<Request>) {
    forall k :: 0 <= k < |arrived| ==> arrived[k].id == k && arrived[k].wanted != []
  }

  /** Every request is either queued, in arrival order, or granted. */
  ghost predicate QueueOk(arrived: seq<Request>, log: seq<nat>, elements: seq<Request>) {
    && (forall i :: 0 <= i < |elements| ==>
          elements[i].id < |arrived| && arrived[elements[i].id] == elements[i] && elements[i].id !in log)
    && (forall i, j :: 0 <= i < j < |elements| ==> elements[i].id < elements[j].id)
    && (forall x :: x in log ==> x < |arrived|)
    && (forall k :: 0 <= k < |arrived| ==> k in log || arrived[k] in elements)
  }

  predicate WantsAllOf(f: Request, e: Request) {
    forall t | t in e.wanted :: t in f.wanted
  }

  /** An earlier request all of whose tickets a granted one wants was granted before it. */
  ghost predicate OrderedGrants(arrived: seq<Request>, log: seq<nat>) {
    forall b, e :: 0 <= b < |log| && 0 <= e < log[b] < |arrived| && WantsAllOf(arrived[log[b]], arrived[e]) ==> e in log[..b]
  }

  /** Nobody sleeps through what concerns them. */
  ghost predicate WakeOk(s: State) {
    && (s.conductor.NotStarted? ==> s.shuttingDown && s.elements == [] && s.closer.Idle? && s.outstanding == [])
    && (s.conductor.ParkedEmpty? ==> s.elements == [] && !s.shuttingDown)
    && (s.conductor.ParkedScanned? ==> s.granted != map[] && forall e | e in s.elements :: Blocked(s.granted, e))
    && (s.conductor.Exited? ==> s.elements == [] && s.shuttingDown)
    && (!s.closer.Idle? ==> s.shuttingDown)
    && (s.closer.Asleep? ==> s.granted != map[])
  }

  predicate AllWant(rs: seq<Request>) {
    forall e | e in rs :: e.wanted != []
  }

  ghost predicate Inv(s: State) {
    && Accounts(s.granted, HeldBy(s.outstanding)) && Exclusive(s.outstanding) && AllWant(s.outstanding)
    && IdsOk(s.arrived) && QueueOk(s.arrived, s.log, s.elements) && OrderedGrants(s.arrived, s.log)
    && WakeOk(s)
  }

  // ----- Held tickets -----

  lemma {:induction false} AllWantedConcat(rs: seq<Request>, ts: seq<Request>)
    ensures AllWanted(rs + ts) == AllWanted(rs) + AllWanted(ts)
  {
    if rs == [] {
      assert rs + ts == ts;
    } else {
      AllWantedConcat(rs[1..], ts);
      assert (rs + ts)[1..] == rs[1..] + ts;
      Regroup(rs[0].wanted, AllWanted(rs[1..]), AllWanted(ts));
    }
  }

  lemma Regroup(a: seq<Ticket>, b: seq<Ticket>, c: seq<Ticket>)
    ensures a + (b + c) == (a + b) + c
  {
  }

  lemma HeldByAppend(rs: seq<Request>, e: Request)
    ensures HeldBy(rs + [e]) == HeldBy(rs) + multiset(e.wanted)
  {
    AllWantedConcat(rs, [e]);
    assert AllWanted([e]) == e.wanted;
  }

  lemma {:induction false} HeldByMember(rs: seq<Request>, i: nat, t: Ticket)
    requires i < |rs| && t in rs[i].wanted
    ensures t in HeldBy(rs)
  {
    if i > 0 {
      HeldByMember(rs[1..], i - 1, t);
    }
  }

  lemma HeldByWithout(rs: seq<Request>, k: nat)
    requires k < |rs|
    ensures multiset(rs[k].wanted) <= HeldBy(rs)
    ensures HeldBy(Without(rs, k)) == HeldBy(rs) - multiset(rs[k].wanted)
    ensures HeldBy(Without(rs, k)) + multiset(rs[k].wanted) == HeldBy(rs)
  {
    hide AllWanted;
    assert rs == (rs[..k] + [rs[k]]) + rs[k + 1..];
    AllWantedConcat(rs[..k] + [rs[k]], rs[k + 1..]);
    HeldByAppend(rs[..k], rs[k]);
    AllWantedConcat(rs[..k], rs[k + 1..]);
  }

  // ----- The scan keeps everything -----

  ghost predicate ScanOk(arrived: seq<Request>, log: seq<nat>, out: seq<Request>,
                         kept: seq<Request>, pending: seq<Request>, notified: seq<Request>, g: Granted) {
    && IdsOk(arrived)
    && Accounts(g, HeldBy(out + notified)) && Exclusive(out + notified)
    && (forall e | e in kept :: Blocked(g, e))
    && QueueOk(arrived, log + Ids(notified), kept + pending)
    && OrderedGrants(arrived, log + Ids(notified))
  }

  lemma {:induction false} ScanKeeps(arrived: seq<Request>, log: seq<nat>, out: seq<Request>,
                                     kept: seq<Request>, pending: seq<Request>, notified: seq<Request>, g: Granted)
    requires ScanOk(arrived, log, out, kept, pending, notified, g)
    ensures var r := Scan(kept, pending, notified, g); ScanOk(arrived, log, out, r.kept, [], r.notified, r.granted)
    ensures var r := Scan(kept, pending, notified, g); |r.kept| + |r.notified| == |kept| + |pending| + |notified|
    decreases |pending|
  {
    hide ScanOk, AllAvailable;
    if pending != [] {
      var f := pending[0];
      if AllAvailable(g, f.wanted) {
        GrantStep(arrived, log, out, kept, pending, notified, g);
        ScanKeeps(arrived, log, out, kept, pending[1..], notified + [f], Grant(g, f.wanted));
      } else {
        KeepStep(arrived, log, out, kept, pending, notified, g);
        ScanKeeps(arrived, log, out, kept + [f], pending[1..], notified, g);
      }
    }
  }

  lemma KeepStep(arrived: seq<Request>, log: seq<nat>, out: seq<Request>,
                 kept: seq<Request>, pending: seq<Request>, notified: seq<Request>, g: Granted)
    requires ScanOk(arrived, log, out, kept, pending, notified, g) && pending != [] && !AllAvailable(g, pending[0].wanted)
    ensures ScanOk(arrived, log, out, kept + [pending[0]], pending[1..], notified, g)
  {
    hide QueueOk, OrderedGrants, Exclusive, Accounts, IdsOk;
    assert (kept + [pending[0]]) + pending[1..] == kept + pending;
  }

  lemma GrantStep(arrived: seq<Request>, log: seq<nat>, out: seq<Request>,
                  kept: seq<Request>, pending: seq<Request>, notified: seq<Request>, g: Granted)
    requires ScanOk(arrived, log, out, kept, pending, notified, g) && pending != [] && AllAvailable(g, pending[0].wanted)
    ensures ScanOk(arrived, log, out, kept, pending[1..], notified + [pending[0]], Grant(g, pending[0].wanted))
  {
    hide QueueOk, OrderedGrants, Exclusive, Accounts, IdsOk, Blocked;
    var f := pending[0];
    var log' := log + Ids(notified);
    assert log + Ids(notified + [f]) == log' + [f.id];
    assert out + (notified + [f]) == (out + notified) + [f];
    HeldByAppend(out + notified, f);
    GrantAccounts(g, HeldBy(out + notified), f.wanted);
    GrantExclusive(g, out + notified, f);
    GrantQueue(arrived, log', kept, pending);
    GrantOrder(arrived, log', kept, pending, g);
    forall e | e in kept ensures Blocked(Grant(g, f.wanted), e) {
      StillBlocked(g, f.wanted, e);
    }
  }

  lemma StillBlocked(g: Granted, wanted: seq<Ticket>, e: Request)
    requires Blocked(g, e)
    ensures Blocked(Grant(g, wanted), e)
  {
    var t :| t in e.wanted && t in g;
    GrantCounts(g, wanted, t);
  }

  lemma GrantExclusive(g: Granted, out: seq<Request>, f: Request)
    requires Accounts(g, HeldBy(out)) && Exclusive(out) && AllAvailable(g, f.wanted)
    ensures Exclusive(out + [f])
  {
    hide HeldBy;
    forall t | t in f.wanted ensures t !in HeldBy(out) {
      assert Count(g, t) == 0;
    }
    forall i, t | 0 <= i < |out| && t in out[i].wanted ensures t in HeldBy(out) {
      HeldByMember(out, i, t);
    }
  }

  lemma GrantQueue(arrived: seq<Request>, log: seq<nat>, kept: seq<Request>, pending: seq<Request>)
    requires IdsOk(arrived) && QueueOk(arrived, log, kept + pending) && pending != []
    ensures QueueOk(arrived, log + [pending[0].id], kept + pending[1..])
  {
    var f, all, rest, m := pending[0], kept + pending, kept + pending[1..], |kept|;
    assert all[m] == f;
    assert rest == all[..m] + all[m + 1..];
    RemovedKeepsOrder(all, m);
    RemovedKeepsOthers(arrived, log, all, m);
    assert forall x :: x in log + [f.id] <==> x in log || x == f.id;
  }

  lemma RemovedKeepsOrder(all: seq<Request>, m: nat)
    requires m < |all| && forall i, j :: 0 <= i < j < |all| ==> all[i].id < all[j].id
    ensures var rest := all[..m] + all[m + 1..];
      && (forall i, j :: 0 <= i < j < |rest| ==> rest[i].id < rest[j].id)
      && (forall i :: 0 <= i < |rest| ==> rest[i] in all && rest[i].id != all[m].id)
  {
  }

  lemma RemovedKeepsOthers(arrived: seq<Request>, log: seq<nat>, all: seq<Request>, m: nat)
    requires m < |all| && IdsOk(arrived) && forall k :: 0 <= k < |arrived| ==> k in log || arrived[k] in all
    ensures forall k :: 0 <= k < |arrived| && k != all[m].id ==> k in log || arrived[k] in all[..m] + all[m + 1..]
  {
  }

  /** A request granted now leaves no earlier request behind whose tickets it all wants: such a
      request would have been found blocked on one of them. */
  lemma GrantOrder(arrived: seq<Request>, log: seq<nat>, kept: seq<Request>, pending: seq<Request>, g: Granted)
    requires IdsOk(arrived) && QueueOk(arrived, log, kept + pending) && OrderedGrants(arrived, log)
    requires pending != [] && AllAvailable(g, pending[0].wanted)
    requires forall e | e in kept :: Blocked(g, e)
    ensures OrderedGrants(arrived, log + [pending[0].id])
  {
    hide Blocked, AllAvailable;
    var f, all, log' := pending[0], kept + pending, log + [pending[0].id];
    assert all[|kept|] == f;
    assert forall i | 0 <= i < |pending| :: pending[i] == all[|kept| + i] && pending[i].id >= f.id;
    forall b, e | 0 <= b < |log'| && 0 <= e < log'[b] < |arrived| && WantsAllOf(arrived[log'[b]], arrived[e])
      ensures e in log'[..b]
    {
      if b < |log| {
        assert log'[..b] == log[..b];
      } else {
        assert log'[..b] == log && arrived[f.id] == f;
        NotAmongKept(g, kept, f, arrived[e]);
        assert arrived[e] !in pending;
      }
    }
  }

  lemma NotAmongKept(g: Granted, kept: seq<Request>, f: Request, e: Request)
    requires (forall e | e in kept :: Blocked(g, e)) && AllAvailable(g, f.wanted) && WantsAllOf(f, e)
    ensures e !in kept
  {
  }

  lemma ScanAndParkKeepsInv(s: State)
    requires Inv(s) && s.elements != [] && (s.conductor.Running? || s.conductor.WokenEmpty?)
    ensures Inv(ScanAndPark(s))
  {
    hide Accounts, Exclusive, QueueOk, OrderedGrants, Scan;
    assert s.outstanding + [] == s.outstanding && s.log + Ids([]) == s.log && [] + s.elements == s.elements;
    ScanKeeps(s.arrived, s.log, s.outstanding, [], s.elements, [], s.granted);
    var r := Scan([], s.elements, [], s.granted);
    assert r.kept + [] == r.kept;
    ScanLeavesGranted(s, r);
    NotifiedWant(s);
  }

  lemma NotifiedWant(s: State)
    requires IdsOk(s.arrived) && QueueOk(s.arrived, s.log, s.elements) && AllWant(s.outstanding)
    ensures AllWant(s.outstanding + Scan([], s.elements, [], s.granted).notified)
  {
    hide Scan;
    ScanNotifiesQueued([], s.elements, [], s.granted);
    assert forall i | 0 <= i < |s.elements| :: s.elements[i].wanted != [];
  }

  lemma ScanLeavesGranted(s: State, r: ScanResult)
    requires Inv(s) && s.elements != [] && r == Scan([], s.elements, [], s.granted)
    requires ScanOk(s.arrived, s.log, s.outstanding, r.kept, [], r.notified, r.granted)
    requires |r.kept| + |r.notified| == |s.elements|
    ensures r.granted != map[]
  {
    hide Exclusive, OrderedGrants, Scan;
    if r.kept != [] {
      assert Blocked(r.granted, r.kept[0]);
    } else {
      var out, i := s.outstanding + r.notified, |s.outstanding|;
      var x := out[i].id;
      assert r.notified[0] == out[i] && (s.log + Ids(r.notified))[|s.log|] == x;
      ScanNotifiesQueued([], s.elements, [], s.granted);
      assert r.notified[0] in r.notified;
      var j :| 0 <= j < |s.elements| && s.elements[j] == r.notified[0];
      var t := out[i].wanted[0];
      HeldByMember(out, i, t);
      assert Count(r.granted, t) != 0;
    }
  }

  lemma {:induction false} ScanNotifiesQueued(kept: seq<Request>, pending: seq<Request>, notified: seq<Request>, g: Granted)
    ensures forall e | e in Scan(kept, pending, notified, g).notified :: e in notified || e in pending
    decreases |pending|
  {
    if pending != [] {
      if AllAvailable(g, pending[0].wanted) {
        ScanNotifiesQueued(kept, pending[1..], notified + [pending[0]], Grant(g, pending[0].wanted));
      } else {
        ScanNotifiesQueued(kept + [pending[0]], pending[1..], notified, g);
      }
    }
  }

  // ----- The other steps -----

  lemma AcquireKeepsInv(s: State, tickets: seq<Ticket>, wakeCloser: bool)
    requires Inv(s)
    ensures Inv(Apply(s, Acquire(tickets, wakeCloser)))
  {
    hide Accounts, Exclusive;
    if !s.shuttingDown && |s.elements| < s.max {
      var e := Request(|s.arrived|, WithDefault(tickets));
      AcquireQueue(s.arrived, s.log, s.elements, e);
    }
  }

  lemma AcquireQueue(arrived: seq<Request>, log: seq<nat>, elements: seq<Request>, e: Request)
    requires IdsOk(arrived) && QueueOk(arrived, log, elements) && OrderedGrants(arrived, log)
    requires e.id == |arrived| && e.wanted != []
    ensures IdsOk(arrived + [e]) && QueueOk(arrived + [e], log, elements + [e]) && OrderedGrants(arrived + [e], log)
  {
    var all := elements + [e];
    assert all[|elements|] == e;
    forall k | 0 <= k < |arrived| && k !in log ensures arrived[k] in all {
      var i :| 0 <= i < |elements| && elements[i] == arrived[k];
      assert all[i] == arrived[k];
    }
    forall b, x | 0 <= b < |log| && 0 <= x < log[b] < |arrived + [e]| && WantsAllOf((arrived + [e])[log[b]], (arrived + [e])[x])
      ensures x in log[..b]
    {
      assert log[b] in log;
    }
  }

  lemma FinishKeepsInv(s: State, k: nat)
    requires Inv(s) && k < |s.outstanding|
    ensures Inv(Apply(s, Finish(k)))
  {
    hide Accounts, QueueOk, OrderedGrants, IdsOk, Retrieve, Exclusive, HeldBy;
    HeldByWithout(s.outstanding, k);
    RetrieveAccounts(s.granted, HeldBy(s.outstanding), s.outstanding[k].wanted, HeldBy(Without(s.outstanding, k)));
    ExclusiveWithout(s.outstanding, k);
  }

  lemma ExclusiveWithout(rs: seq<Request>, k: nat)
    requires k < |rs| && Exclusive(rs)
    ensures Exclusive(Without(rs, k))
  {
  }

  /** Steps that move only the shutdown flag, the conductor or the closer. */
  lemma ControlKeepsInv(s: State, step: Step)
    requires Inv(s) && (step.Start? || step.Shutdown? || step.Close?)
    ensures Inv(Apply(s, step))
  {
    hide Accounts, Exclusive, QueueOk, OrderedGrants, IdsOk, HeldBy, ConductorStep, Blocked;
  }

  lemma ConductKeepsInv(s: State)
    requires Inv(s)
    ensures Inv(ConductorStep(s))
  {
    hide Accounts, Exclusive, QueueOk, OrderedGrants, IdsOk, HeldBy, ScanAndPark, Blocked;
    if s.elements != [] && (s.conductor.Running? || s.conductor.WokenEmpty?) {
      ScanAndParkKeepsInv(s);
    }
  }

  lemma StepKeepsInv(s: State, step: Step)
    requires Inv(s) && !step.Stray?
    ensures Inv(Apply(s, step))
  {
    hide Inv, ConductorStep, CloserStep, Signal, Broadcast;
    match step
    case Start => ControlKeepsInv(s, step);
    case Acquire(tickets, wakeCloser) => AcquireKeepsInv(s, tickets, wakeCloser);
    case Finish(k) => if k < |s.outstanding| { FinishKeepsInv(s, k); }
    case Conduct => ConductKeepsInv(s);
    case Shutdown(_) => ControlKeepsInv(s, step);
    case Close => ControlKeepsInv(s, step);
  }

  lemma InitialInv(max: nat)
    ensures Inv(Initial(max))
  {
  }

  lemma {:induction false} RunInvariant(max: nat, states: seq<State>, steps: seq<Step>, i: nat)
    requires IsRun(states, steps) && states[0] == Initial(max) && i < |states| && Disciplined(steps, i)
    ensures Inv(states[i])
  {
    hide Apply, Inv;
    if i == 0 {
      InitialInv(max);
    } else {
      RunInvariant(max, states, steps, i - 1);
      StepKeepsInv(states[i - 1], steps[i - 1]);
    }
  }

  // ----- What the invariant says -----

  /** Mutual exclusion: the count of a ticket is the number of times granted, unreleased requests want
      it, a key is present exactly when it is positive, and no two such requests share a ticket. */
  lemma MutualExclusion(max: nat, states: seq<State>, steps: seq<Step>, i: nat)
    requires IsRun(states, steps) && states[0] == Initial(max) && i < |states| && Disciplined(steps, i)
    ensures forall t :: Count(states[i].granted, t) == multiset(AllWanted(states[i].outstanding))[t]
    ensures forall t :: t in states[i].granted <==> Count(states[i].granted, t) > 0
    ensures forall a, b :: 0 <= a < b < |states[i].outstanding| ==>
      !ShareTicket(states[i].outstanding[a], states[i].outstanding[b])
  {
    RunInvariant(max, states, steps, i);
  }

  /** No overtaking by a request that wants everything an earlier one wants: it is granted only
      after the earlier one. */
  lemma NoOvertaking(max: nat, states: seq<State>, steps: seq<Step>, i: nat, e: nat, f: nat)
    requires IsRun(states, steps) && states[0] == Initial(max) && i < |states| && Disciplined(steps, i)
    requires e < f < |states[i].arrived| && WantsAllOf(states[i].arrived[f], states[i].arrived[e])
    requires f in states[i].log
    ensures exists a, b :: 0 <= a < b < |states[i].log| && states[i].log[a] == e && states[i].log[b] == f
  {
    RunInvariant(max, states, steps, i);
    var log := states[i].log;
    var b :| 0 <= b < |log| && log[b] == f;
    assert e in log[..b];
    var a :| 0 <= a < b && log[a] == e;
  }

  /** No lost wake-up: an unsignalled conductor leaves only requests that wait for a held ticket, and
      after a scan some request still holds one, so a release is due; a conductor asleep on the empty
      queue has missed no request and no shutdown; a sleeping closer waits for a held ticket; and a
      conductor that has gone left nobody in the queue. */
  lemma NoLostWakeup(max: nat, states: seq<State>, steps: seq<Step>, i: nat)
    requires IsRun(states, steps) && states[0] == Initial(max) && i < |states| && Disciplined(steps, i)
    ensures var s := states[i];
      && (Parked(s.conductor) ==> forall e | e in s.elements :: Blocked(s.granted, e))
      && (s.conductor.ParkedScanned? || s.closer.Asleep? ==> s.outstanding != [])
      && (s.conductor.ParkedEmpty? ==> s.elements == [] && !s.shuttingDown)
      && (s.conductor.Exited? ==> s.elements == [] && s.shuttingDown)
  {
    RunInvariant(max, states, steps, i);
    var s := states[i];
    if s.granted != map[] {
      var t :| t in s.granted;
      assert Count(s.granted, t) != 0;
    }
  }
}

/** The limiter when a client releases tickets it was not granted. */
module LimiterStray {
  import opened Limiter
  import opened LimiterRun

  // ----- A release without a grant -----

  /** The ticket's count is below zero and no request holds it. */
  ghost predicate Overdrawn(s: State, t: Ticket) {
    t in s.granted && s.granted[t] < 0 && t !in AllWanted(s.outstanding)
  }

  /** How often a release of these tickets lowers the ticket's count. */
  function Lowered(tickets: seq<Ticket>, t: Ticket): nat {
    multiset(WithDefault(tickets))[t]
  }

  /** The release takes exactly the count the holder of the ticket has put on it. */
  predicate LooksFree(s: State, tickets: seq<Ticket>, t: Ticket) {
    0 < Count(s.granted, t) == Lowered(tickets, t)
  }

  /** What a stray release does to each ticket, by its count. A free ticket that is released is left overdrawn. A
      held one looks free when it is released as often as it is counted; when less often it stays taken, and
      when more often it is below zero although held. Nothing else changes. */
  lemma StrayRelease(s: State, tickets: seq<Ticket>, t: Ticket)
    requires Inv(s)
    ensures var s' := Apply(s, Stray(tickets)); var c, n := Count(s.granted, t), Lowered(tickets, t);
      var held := t in AllWanted(s'.outstanding);
      && s'.outstanding == s.outstanding && s'.elements == s.elements
      && Count(s'.granted, t) == c - n && (t in s'.granted <==> c != n) && (held <==> c > 0)
      && (Overdrawn(s', t) <==> c == 0 < n)
      && (held && t !in s'.granted <==> LooksFree(s, tickets, t))
      && (held && Count(s'.granted, t) > 0 <==> c > n)
      && (held && Count(s'.granted, t) < 0 <==> 0 < c < n)
  {
    hide AllWanted, Retrieve, QueueOk, OrderedGrants, Exclusive, WakeOk;
    RetrieveCounts(s.granted, WithDefault(tickets), t);
    assert t in HeldBy(s.outstanding) <==> t in AllWanted(s.outstanding);
  }

  /** Accounts and releases: against the outstanding requests the map stays right exactly when nothing was
      released, and against those without request `k` exactly when the tickets released are that request's. */
  lemma ReleaseAccounts(s: State, tickets: seq<Ticket>, k: nat)
    requires Inv(s) && k < |s.outstanding|
    ensures Accounts(Retrieve(s.granted, tickets), HeldBy(s.outstanding)) <==> tickets == []
    ensures Accounts(Retrieve(s.granted, tickets), HeldBy(Without(s.outstanding, k))) <==>
      multiset(tickets) == multiset(s.outstanding[k].wanted)
  {
    hide HeldBy, Retrieve, Accounts;
    var held := HeldBy(s.outstanding);
    RetrieveAccounts(s.granted, held, tickets, held);
    RetrieveAccounts(s.granted, held, tickets, HeldBy(Without(s.outstanding, k)));
    HeldByWithout(s.outstanding, k);
    SameSum(HeldBy(Without(s.outstanding, k)), multiset(tickets), multiset(s.outstanding[k].wanted));
    NothingAdded(held, tickets);
  }

  lemma SameSum(rest: multiset<Ticket>, a: multiset<Ticket>, b: multiset<Ticket>)
    ensures rest + a == rest + b <==> a == b
  {
    if rest + a == rest + b {
      forall t ensures a[t] == b[t] {
        assert (rest + a)[t] == (rest + b)[t];
      }
    }
  }

  lemma NothingAdded(held: multiset<Ticket>, tickets: seq<Ticket>)
    ensures held + multiset(tickets) == held <==> tickets == []
  {
    if tickets != [] {
      assert (held + multiset(tickets))[tickets[0]] == held[tickets[0]] + multiset(tickets)[tickets[0]];
      assert tickets[0] in multiset(tickets);
    }
  }

  // ----- A ticket that looks free although it is held -----

  /** After a stray release the next scan breaks mutual exclusion exactly when it grants a request that wants a
      ticket that looks free although it is held. */
  lemma RegrantBreaksExclusion(s: State, tickets: seq<Ticket>)
    requires Inv(s)
    ensures var s' := Apply(s, Stray(tickets)); var notified := Scan([], s'.elements, [], s'.granted).notified;
      Exclusive(s'.outstanding + notified) <==> forall e, t | e in notified && t in e.wanted :: !LooksFree(s, tickets, t)
  {
    hide Scan, AllWanted, AllAvailable, Inv, LooksFree;
    var s' := Apply(s, Stray(tickets));
    var out, notified := s'.outstanding, Scan([], s'.elements, [], s'.granted).notified;
    var pick := ScanIsGreedy(s'.elements, s'.granted);
    PicksApart(s'.elements, s'.granted, pick);
    StrayRelease(s, tickets, DEFAULT_TICKET);
    if e, t :| e in notified && t in e.wanted && LooksFree(s, tickets, t) {
      StrayRelease(s, tickets, t);
      AllWantedMembers(out, t);
      var i :| 0 <= i < |out| && t in out[i].wanted;
      var j :| 0 <= j < |notified| && notified[j] == e;
      assert ShareTicket((out + notified)[i], (out + notified)[|out| + j]);
    } else {
      forall i, j | 0 <= i < |out| && 0 <= j < |notified| ensures !ShareTicket(out[i], notified[j]) {
        assert notified[j] in notified;
        HeldMeansGranted(s, tickets, i, notified[j]);
      }
      ExclusiveParts(s, out, notified);
    }
  }

  lemma HeldMeansGranted(s: State, tickets: seq<Ticket>, i: nat, e: Request)
    requires Inv(s) && i < |s.outstanding| && AllAvailable(Apply(s, Stray(tickets)).granted, e.wanted)
    requires forall t | t in e.wanted :: !LooksFree(s, tickets, t)
    ensures !ShareTicket(s.outstanding[i], e)
  {
    hide Inv, LooksFree, Apply, AllWanted;
    forall t | t in e.wanted ensures t !in s.outstanding[i].wanted {
      StrayRelease(s, tickets, t);
      AllWantedMembers(s.outstanding, t);
    }
  }

  lemma ExclusiveParts(s: State, out: seq<Request>, notified: seq<Request>)
    requires Inv(s) && out == s.outstanding
    requires forall i, j :: 0 <= i < |out| && 0 <= j < |notified| ==> !ShareTicket(out[i], notified[j])
    requires forall a, b :: 0 <= a < b < |notified| ==> !ShareTicket(notified[a], notified[b])
    ensures Exclusive(out + notified)
  {
    hide ShareTicket, Accounts, QueueOk, OrderedGrants, WakeOk, IdsOk;
  }

  /** So it does when the first request in the queue wants such a ticket, and otherwise only tickets that are
      free or look so. */
  lemma HeadIsRegranted(s: State, tickets: seq<Ticket>, t: Ticket)
    requires Inv(s) && LooksFree(s, tickets, t) && s.elements != [] && t in s.elements[0].wanted
    requires forall u | u in s.elements[0].wanted :: Count(s.granted, u) == Lowered(tickets, u)
    ensures var s' := Apply(s, Stray(tickets));
      !Exclusive(s'.outstanding + Scan([], s'.elements, [], s'.granted).notified)
  {
    hide Scan, Inv, Exclusive, AllWanted;
    var s' := Apply(s, Stray(tickets));
    forall u | u in s.elements[0].wanted ensures u !in s'.granted {
      StrayRelease(s, tickets, u);
    }
    RegrantBreaksExclusion(s, tickets);
    var pick := ScanIsGreedy(s'.elements, s'.granted);
    PicksApart(s'.elements, s'.granted, pick);
    assert pick[0] <==> Pickable(s'.elements, s'.granted, pick, 0);
  }

  /** And if the holder of a released ticket releases first, the ticket is overdrawn all the same. */
  lemma HolderFinishOverdraws(s: State, tickets: seq<Ticket>, t: Ticket, k: nat)
    requires Inv(s) && k < |s.outstanding| && t in s.outstanding[k].wanted && Lowered(tickets, t) > 0
    ensures Overdrawn(Apply(Apply(s, Stray(tickets)), Finish(k)), t)
  {
    hide AllWanted, Retrieve;
    var s' := Apply(s, Stray(tickets));
    StrayRelease(s, tickets, t);
    OnlyHolder(s.outstanding, k, t);
    HeldByWithout(s.outstanding, k);
    RetrieveCounts(s.granted, WithDefault(tickets), t);
    RetrieveCounts(s'.granted, s.outstanding[k].wanted, t);
  }

  lemma OnlyHolder(rs: seq<Request>, k: nat, t: Ticket)
    requires Exclusive(rs) && k < |rs| && t in rs[k].wanted
    ensures t !in AllWanted(Without(rs, k))
  {
    hide AllWanted;
    var out := Without(rs, k);
    AllWantedMembers(out, t);
    forall i | 0 <= i < |out| ensures t !in out[i].wanted {
      var j := if i < k then i else i + 1;
      assert out[i] == rs[j];
      assert !ShareTicket(rs[if j < k then j else k], rs[if j < k then k else j]);
    }
  }

  /** A queue of one place. A client is granted `t`, a second one waits for it, a third is refused because the
      queue is full and releases `t` nevertheless: the scan grants `t` to the second while the first holds it. */
  lemma RefusedClientBreaksExclusion(t: Ticket) returns (states: seq<State>, steps: seq<Step>)
    ensures IsRun(states, steps) && states[0] == Initial(1) && |steps| == 8
    ensures steps[4] == Acquire([t], false) && states[5] == states[4] && steps[6] == Stray([t])
    ensures !Exclusive(states[8].outstanding)
  {
    hide Apply;
    var s1, s2, s3, s4 := HeldAndQueued(t, 1);
    var s6, s7, s8 := RefusedThenRegranted(t, s4);
    states := [Initial(1), s1, s2, s3, s4, s4, s6, s7, s8];
    var acquire := Acquire([t], false);
    steps := [Start, acquire, Conduct, acquire, acquire, Conduct, Stray([t]), Conduct];
  }

  /** One request holds the ticket and the next is queued for it, the conductor having been woken. */
  predicate OneHoldsOneWaits(s: State, t: Ticket, max: nat) {
    && s.conductor.WokenScanned? && s.closer.Idle? && !s.shuttingDown && s.max == max && s.granted == map[t := 1]
    && s.outstanding == [Request(0, [t])] && s.elements == [Request(1, [t])]
  }

  lemma HeldAndQueued(t: Ticket, max: nat) returns (s1: State, s2: State, s3: State, s4: State)
    requires max > 0
    ensures s1 == Apply(Initial(max), Start) && s2 == Apply(s1, Acquire([t], false))
    ensures s3 == Apply(s2, Conduct) && s4 == Apply(s3, Acquire([t], false)) && OneHoldsOneWaits(s4, t, max)
  {
    hide Apply;
    var e0, e1 := Request(0, [t]), Request(1, [t]);
    s1 := Initial(max).(shuttingDown := false, conductor := Running);
    s2 := s1.(elements := [e0], arrived := [e0]);
    s3 := s1.(granted := map[t := 1], outstanding := [e0], arrived := [e0], log := [0], conductor := ParkedScanned);
    s4 := s3.(elements := [e1], arrived := [e0, e1], conductor := WokenScanned);
    StartAndAcquire(t, Initial(max), s1, s2);
    ConductOne(t, e0, s2, s3);
    AcquireAgain(t, s3, s4);
  }

  lemma RefusedThenRegranted(t: Ticket, s4: State) returns (s6: State, s7: State, s8: State)
    requires OneHoldsOneWaits(s4, t, 1)
    ensures s4 == Apply(s4, Acquire([t], false)) && s6 == Apply(s4, Conduct) && s7 == Apply(s6, Stray([t])) && s8 == Apply(s7, Conduct)
    ensures !Exclusive(s8.outstanding)
  {
    hide Apply;
    var e0, e1 := Request(0, [t]), Request(1, [t]);
    s6 := s4.(conductor := Running);
    s7 := s6.(granted := map[]);
    s8 := s7.(elements := [], granted := map[t := 1], outstanding := [e0, e1], log := s4.log + [1], conductor := ParkedScanned);
    RefusedAndWoken(t, s4, s6, s7);
    ConductOne(t, e1, s7, s8);
    assert t in e0.wanted && t in e1.wanted;
    assert ShareTicket(s8.outstanding[0], s8.outstanding[1]);
  }

  lemma RefusedAndWoken(t: Ticket, s4: State, s5: State, s6: State)
    requires s4.conductor.WokenScanned? && s4.closer.Idle? && s4.max == 1 && |s4.elements| == 1 && s4.granted == map[t := 1]
    requires s5 == s4.(conductor := Running) && s6 == s5.(granted := map[])
    ensures s4 == Apply(s4, Acquire([t], false)) && s5 == Apply(s4, Conduct) && s6 == Apply(s5, Stray([t]))
  {
    hide Retrieve;
    OneTicket(Request(0, [t]), t);
  }

  lemma StartAndAcquire(t: Ticket, s0: State, s1: State, s2: State)
    requires s0 == Initial(s0.max) && s0.max > 0 && s1 == s0.(shuttingDown := false, conductor := Running)
    requires s2 == s1.(elements := [Request(0, [t])], arrived := [Request(0, [t])])
    ensures s1 == Apply(s0, Start) && s2 == Apply(s1, Acquire([t], false))
  {
  }

  lemma ConductOne(t: Ticket, e: Request, s2: State, s3: State)
    requires e.wanted == [t] && s2.conductor.Running? && s2.elements == [e] && s2.granted == map[]
    requires s3 == s2.(elements := [], granted := map[t := 1], outstanding := s2.outstanding + [e], log := s2.log + [e.id], conductor := ParkedScanned)
    ensures s3 == Apply(s2, Conduct)
  {
    hide Scan;
    OneTicket(e, t);
    assert Ids([e]) == [e.id];
  }

  lemma AcquireAgain(t: Ticket, s3: State, s4: State)
    requires !s3.shuttingDown && s3.max > 0 && s3.elements == [] && s3.arrived == [Request(0, [t])]
    requires s3.conductor.ParkedScanned?
    requires s4 == s3.(elements := [Request(1, [t])], arrived := s3.arrived + [Request(1, [t])], conductor := WokenScanned)
    ensures s4 == Apply(s3, Acquire([t], false))
  {
  }

  lemma OneTicket(e: Request, t: Ticket)
    requires e.wanted == [t]
    ensures Scan([], [e], [], map[]) == ScanResult([], [e], map[t := 1])
    ensures Retrieve(map[t := 1], [t]) == map[]
  {
    assert [e][1..] == [] && e.wanted[1..] == [];
    assert Grant(map[], e.wanted) == map[t := 1];
    assert Scan([], [], [] + [e], map[t := 1]) == ScanResult([], [e], map[t := 1]);
    assert Retrieve(map[t := 1], [t]) == Lower(map[t := 1], t);
  }

  // ----- An overdrawn ticket stays so -----

  lemma {:induction false} ScanAvoids(kept: seq<Request>, pending: seq<Request>, notified: seq<Request>, g: Granted, t: Ticket)
    requires t in g && g[t] < 0 && t !in AllWanted(notified)
    ensures var r := Scan(kept, pending, notified, g);
      && t in r.granted && r.granted[t] == g[t] && t !in AllWanted(r.notified)
      && (forall e | e in kept :: e in r.kept)
      && (forall e | e in pending && t in e.wanted :: e in r.kept)
    decreases |pending|
  {
    if pending != [] {
      var f := pending[0];
      assert forall e :: e in pending <==> e == f || e in pending[1..];
      if AllAvailable(g, f.wanted) {
        GrantCounts(g, f.wanted, t);
        AllWantedConcat(notified, [f]);
        assert AllWanted([f]) == f.wanted;
        ScanAvoids(kept, pending[1..], notified + [f], Grant(g, f.wanted), t);
      } else {
        ScanAvoids(kept + [f], pending[1..], notified, g, t);
        assert forall e :: e in kept + [f] <==> e in kept || e == f;
      }
    }
  }

  lemma {:induction false} AllWantedMembers(rs: seq<Request>, t: Ticket)
    ensures t in AllWanted(rs) <==> exists i :: 0 <= i < |rs| && t in rs[i].wanted
  {
    if rs != [] {
      AllWantedMembers(rs[1..], t);
      if i :| 0 <= i < |rs[1..]| && t in rs[1..][i].wanted {
        assert t in rs[i + 1].wanted;
      }
      if i :| 0 < i < |rs| && t in rs[i].wanted {
        assert t in rs[1..][i - 1].wanted;
      }
    }
  }

  lemma WantedWithout(rs: seq<Request>, k: nat, t: Ticket)
    requires k < |rs| && t !in AllWanted(rs)
    ensures t !in rs[k].wanted && t !in AllWanted(Without(rs, k))
  {
    hide AllWanted;
    AllWantedMembers(rs, t);
    AllWantedMembers(Without(rs, k), t);
    var out := Without(rs, k);
    assert forall i | 0 <= i < |out| :: out[i] == rs[if i < k then i else i + 1];
  }

  /** The step leaves the ticket overdrawn and drops no request for it. */
  ghost predicate StaysOverdrawn(s: State, s': State, t: Ticket) {
    Overdrawn(s', t) && forall e | e in s.elements && t in e.wanted :: e in s'.elements
  }

  lemma FinishOverdrawn(s: State, k: nat, t: Ticket)
    requires Overdrawn(s, t)
    ensures StaysOverdrawn(s, Apply(s, Finish(k)), t)
  {
    hide Retrieve;
    if k < |s.outstanding| {
      WantedWithout(s.outstanding, k, t);
      RetrieveCounts(s.granted, s.outstanding[k].wanted, t);
    }
  }

  lemma ConductOverdrawn(s: State, t: Ticket)
    requires Overdrawn(s, t)
    ensures StaysOverdrawn(s, ConductorStep(s), t)
  {
    hide Scan;
    ScanAvoids([], s.elements, [], s.granted, t);
    AllWantedConcat(s.outstanding, Scan([], s.elements, [], s.granted).notified);
  }

  lemma OverdrawnStep(s: State, step: Step, t: Ticket)
    requires Overdrawn(s, t)
    ensures StaysOverdrawn(s, Apply(s, step), t)
  {
    hide Scan, Retrieve, Without, ConductorStep, AllWanted;
    match step
    case Finish(k) => FinishOverdrawn(s, k, t);
    case Conduct => ConductOverdrawn(s, t);
    case Acquire(_, _) =>
    case Start =>
    case Shutdown(_) =>
    case Close =>
    case Stray(tickets) => RetrieveCounts(s.granted, WithDefault(tickets), t);
  }

  /** From then on, in every run, whatever else is released, the ticket is never granted again and every request
      that wants it stays in the queue for ever. */
  lemma {:induction false} OverdrawnForever(states: seq<State>, steps: seq<Step>, t: Ticket, i: nat, j: nat)
    requires IsRun(states, steps) && i <= j < |states| && Overdrawn(states[i], t)
    ensures Overdrawn(states[j], t)
    ensures forall e | e in states[i].elements && t in e.wanted :: e in states[j].elements
    decreases j
  {
    hide Apply, Overdrawn;
    if i < j {
      OverdrawnForever(states, steps, t, i, j - 1);
      OverdrawnStep(states[j - 1], steps[j - 1], t);
    }
  }
}

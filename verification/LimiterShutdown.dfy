/** What a graceful shutdown leaves behind. */
module LimiterShutdown {
  import opened Limiter
  import opened LimiterRun
  import opened LimiterStray

  /** Whenever nothing is granted, as when the closer finishes, the queue is empty exactly when every request
      that arrived has been granted; a request is still queued only if the conductor is awake. */
  lemma QuietQueue(max: nat, states: seq<State>, steps: seq<Step>, i: nat)
    requires IsRun(states, steps) && states[0] == Initial(max) && i < |states| && Disciplined(steps, i)
    requires states[i].granted == map[]
    ensures var s := states[i];
      && s.outstanding == []
      && (s.elements == [] <==> forall k :: 0 <= k < |s.arrived| ==> k in s.log)
      && (s.elements != [] ==> s.conductor.Running? || s.conductor.WokenEmpty? || s.conductor.WokenScanned?)
  {
    hide Exclusive, OrderedGrants;
    RunInvariant(max, states, steps, i);
    var s := states[i];
    NobodyHolds(s);
    if s.elements != [] {
      assert s.elements[0] in s.elements;
      assert !Blocked(s.granted, s.elements[0]);
    }
  }

  lemma NobodyHolds(s: State)
    requires Inv(s) && s.granted == map[]
    ensures s.outstanding == []
  {
    hide AllWanted;
    var all := AllWanted(s.outstanding);
    forall t ensures multiset(all)[t] == 0 {
      assert multiset(all)[t] == Count(s.granted, t);
    }
    assert multiset(all) == multiset{} && |all| == |multiset(all)|;
    HoldersWant(s.outstanding);
  }

  lemma HoldersWant(rs: seq<Request>)
    requires AllWant(rs)
    ensures rs != [] ==> AllWanted(rs) != []
  {
    if rs != [] { assert rs[0] in rs; }
  }

  /** Such a request is not stuck: with nothing granted, the conductor grants the first one queued within two
      of its own steps. */
  lemma FirstIsServed(s: State)
    requires Inv(s) && s.granted == map[] && s.elements != []
    ensures s.conductor.Running? || s.conductor.WokenEmpty? ==> s.elements[0] in Apply(s, Conduct).outstanding
    ensures s.conductor.WokenScanned? ==> s.elements[0] in Apply(Apply(s, Conduct), Conduct).outstanding
  {
    hide Scan, Inv;
    HeadIsNotified(s);
  }

  lemma HeadIsNotified(s: State)
    requires s.granted == map[] && s.elements != []
    ensures s.elements[0] in Scan([], s.elements, [], s.granted).notified
  {
    hide Scan;
    var pick := ScanIsGreedy(s.elements, s.granted);
    PicksApart(s.elements, s.granted, pick);
    assert pick[0] <==> Pickable(s.elements, s.granted, pick, 0);
  }

  /** The closer waits for granted tickets only: a request queued before the shutdown can still be
      waiting when graceful shutdown is over, although a free ticket is all it wants. */
  lemma ClosedWithRequestQueued(t: Ticket) returns (states: seq<State>, steps: seq<Step>)
    ensures IsRun(states, steps) && states[0] == Initial(2)
    ensures states[|steps|].closer.Closed? && states[|steps|].granted == map[]
    ensures states[|steps|].elements == [Request(1, [t])]
  {
    hide Apply;
    var s1, s2, s3, s4 := HeldAndQueued(t, 2);
    var s5 := s4.(shuttingDown := true, closer := Polling);
    var s6 := s5.(granted := map[], outstanding := []);
    var s7 := s6.(closer := Closed);
    var acquire := Acquire([t], false);
    ShutAndFinish(t, s4, s5, s6, s7);
    states := [Initial(2), s1, s2, s3, s4, s5, s6, s7];
    steps := [Start, acquire, Conduct, acquire, Shutdown(false), Finish(0), Close];
  }

  lemma ShutAndFinish(t: Ticket, s4: State, s5: State, s6: State, s7: State)
    requires s4.conductor.WokenScanned? && s4.closer.Idle? && s4.granted == map[t := 1] && s4.outstanding == [Request(0, [t])]
    requires s5 == s4.(shuttingDown := true, closer := Polling)
    requires s6 == s5.(granted := map[], outstanding := []) && s7 == s6.(closer := Closed)
    ensures s5 == Apply(s4, Shutdown(false)) && s6 == Apply(s5, Finish(0)) && s7 == Apply(s6, Close)
  {
    hide Retrieve;
    OneTicket(Request(0, [t]), t);
  }
}

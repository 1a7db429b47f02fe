/** The limiter in terms of what clients ask for: what each step does, and what runs promise about the tickets
    that were asked for. */
module LimiterAsked {
  import opened Limiter
  import opened LimiterRun

  /** The tickets a client asks for; one that names none asks for the default ticket. */
  function AskedFor(tickets: seq<Ticket>): seq<Ticket> {
    if tickets == [] then [DEFAULT_TICKET] else tickets
  }

  predicate Open(s: State) {
    !s.shuttingDown && |s.elements| < s.max
  }

  // ----- What each step does -----

  /** An acquire is refused exactly if the queue is shut down or full, and changes nothing then. Otherwise one
      request for exactly the tickets asked for goes to the end of the queue, and one sleeper is woken. */
  lemma AcquireEffect(s: State, tickets: seq<Ticket>, wakeCloser: bool)
    ensures var s' := Apply(s, Acquire(tickets, wakeCloser)); var e := Request(|s.arrived|, AskedFor(tickets));
      if !Open(s) then s' == s
      else
        && s'.arrived == s.arrived + [e] && s'.elements == s.elements + [e]
        && s' == s.(arrived := s'.arrived, elements := s'.elements, conductor := s'.conductor, closer := s'.closer)
        && (if Parked(s.conductor) && !(wakeCloser && s.closer.Asleep?) then !Parked(s'.conductor) && s'.closer == s.closer
            else s'.conductor == s.conductor && s'.closer == if s.closer.Asleep? then Awoken else s.closer)
  {
  }

  /** A release by a client that was granted something lowers the count of each of its tickets, drops the request
      from those outstanding, and wakes everybody. */
  lemma FinishEffect(s: State, k: nat, t: Ticket)
    requires Inv(s) && k < |s.outstanding|
    ensures var s' := Apply(s, Finish(k)); var e := s.outstanding[k];
      && s'.outstanding == s.outstanding[..k] + s.outstanding[k + 1..]
      && Count(s'.granted, t) == Count(s.granted, t) - multiset(e.wanted)[t] && (t in s'.granted <==> Count(s'.granted, t) != 0)
      && s' == s.(outstanding := s'.outstanding, granted := s'.granted, conductor := s'.conductor, closer := s'.closer)
      && !Parked(s'.conductor) && !s'.closer.Asleep?
      && (!Parked(s.conductor) ==> s'.conductor == s.conductor) && (!s.closer.Asleep? ==> s'.closer == s.closer)
  {
    hide Retrieve, Exclusive, QueueOk, OrderedGrants, WakeOk, HeldBy;
    RetrieveCounts(s.granted, s.outstanding[k].wanted, t);
  }

  /** The conductor, awake and with requests queued, grants a greedy choice of them in order of arrival, each for
      all its tickets, keeps the others in order, and sleeps. */
  lemma ScanEffect(s: State) returns (pick: seq<bool>)
    requires s.elements != [] && (s.conductor.Running? || s.conductor.WokenEmpty?)
    ensures GreedyChoice(s.elements, s.granted, pick)
    ensures var s' := Apply(s, Conduct); var chosen := Select(s.elements, pick, true);
      && s'.outstanding == s.outstanding + chosen && s'.log == s.log + Ids(chosen)
      && s'.elements == Select(s.elements, pick, false) && s'.conductor.ParkedScanned?
      && s' == s.(outstanding := s'.outstanding, log := s'.log, elements := s'.elements, granted := s'.granted, conductor := ParkedScanned)
  {
    hide Scan, Select, GreedyChoice;
    pick := ScanIsGreedy(s.elements, s.granted);
  }

  /** The conductor's other steps move nothing but itself: it sleeps on an empty open queue, leaves an empty one
      that is shut down, and looks again after it was woken. */
  lemma IdleEffect(s: State)
    requires !(s.elements != [] && (s.conductor.Running? || s.conductor.WokenEmpty?))
    ensures var s' := Apply(s, Conduct);
      && s' == s.(conductor := s'.conductor)
      && (s.conductor.Running? ==> s'.conductor == if s.shuttingDown then Exited else ParkedEmpty)
      && (s.conductor.WokenEmpty? ==> s'.conductor == if s.shuttingDown then Exited else Running)
      && (s.conductor.WokenScanned? ==> s'.conductor.Running?)
      && (s.conductor.NotStarted? || Parked(s.conductor) || s.conductor.Exited? ==> s' == s)
  {
  }

  /** Starting opens the queue once. Shutting down closes it and sets the closer going, which ends exactly when it
      finds nothing granted and sleeps only when it finds something. */
  lemma ControlEffect(s: State, wakeCloser: bool)
    ensures Apply(s, Start) == if s.conductor.NotStarted? then s.(shuttingDown := false, conductor := Running) else s
    ensures var s' := Apply(s, Shutdown(wakeCloser));
      if s.conductor.NotStarted? || !s.closer.Idle? then s' == s
      else
        && s'.shuttingDown && s'.closer.Polling? && !Parked(s'.conductor)
        && s' == s.(shuttingDown := true, closer := Polling, conductor := s'.conductor)
    ensures var s' := Apply(s, Close);
      && s' == s.(closer := s'.closer)
      && (s'.closer.Closed? <==> s.closer.Closed? || (s.closer.Polling? && s.granted == map[]))
      && (s'.closer.Asleep? <==> s.closer.Asleep? || (s.closer.Deciding? && s.granted != map[]))
      && (s.closer.Idle? ==> s' == s)
  {
  }

  // ----- Runs -----

  /** What the clients whose acquire was accepted have asked for, in that order. */
  ghost function Asked(states: seq<State>, steps: seq<Step>, i: nat): seq<seq<Ticket>>
    requires i <= |steps| && i < |states|
  {
    if i == 0 then []
    else
      var asked := Asked(states, steps, i - 1);
      if steps[i - 1].Acquire? && Open(states[i - 1]) then asked + [AskedFor(steps[i - 1].tickets)] else asked
  }

  /** In every run the requests are those asked for: the k-th accepted acquire is request k, for its tickets. */
  lemma {:induction false} ArrivedAsAsked(max: nat, states: seq<State>, steps: seq<Step>, i: nat)
    requires IsRun(states, steps) && states[0] == Initial(max) && i < |states|
    ensures var asked := Asked(states, steps, i);
      |states[i].arrived| == |asked| && forall k :: 0 <= k < |asked| ==> states[i].arrived[k] == Request(k, asked[k])
  {
    hide Apply, Open;
    if i > 0 {
      ArrivedAsAsked(max, states, steps, i - 1);
      var s, step := states[i - 1], steps[i - 1];
      if step.Acquire? {
        AcquireEffect(s, step.tickets, step.wakeCloser);
      } else {
        ArrivesByAcquire(s, step);
      }
    }
  }

  lemma ArrivesByAcquire(s: State, step: Step)
    requires !step.Acquire?
    ensures Apply(s, step).arrived == s.arrived
  {
    hide Scan, Retrieve;
  }

  /** A request that holds its tickets is one that arrived and was granted. */
  ghost predicate HoldersArrived(s: State) {
    forall i :: 0 <= i < |s.outstanding| ==>
      s.outstanding[i].id in s.log && s.outstanding[i].id < |s.arrived| && s.arrived[s.outstanding[i].id] == s.outstanding[i]
  }

  lemma HoldersStep(s: State, step: Step)
    requires Inv(s) && HoldersArrived(s)
    ensures HoldersArrived(Apply(s, step))
  {
    hide Inv, Scan, Retrieve;
    if step.Conduct? && s.elements != [] && (s.conductor.Running? || s.conductor.WokenEmpty?) {
      ScanHolders(s);
    } else if step.Conduct? {
      IdleEffect(s);
    }
  }

  lemma ScanHolders(s: State)
    requires Inv(s) && HoldersArrived(s)
    ensures HoldersArrived(ScanAndPark(s))
  {
    hide Scan, Accounts, Exclusive, OrderedGrants, WakeOk;
    ScanNotifiesQueued([], s.elements, [], s.granted);
    var notified := Scan([], s.elements, [], s.granted).notified;
    var log := s.log + Ids(notified);
    forall j | 0 <= j < |notified|
      ensures notified[j].id in log && notified[j].id < |s.arrived| && s.arrived[notified[j].id] == notified[j]
    {
      assert notified[j] in notified && log[|s.log| + j] == notified[j].id;
      var i :| 0 <= i < |s.elements| && s.elements[i] == notified[j];
    }
  }

  lemma {:induction false} HoldersOverRun(max: nat, states: seq<State>, steps: seq<Step>, i: nat)
    requires IsRun(states, steps) && states[0] == Initial(max) && i < |states| && Disciplined(steps, i)
    ensures HoldersArrived(states[i])
  {
    hide Apply, HoldersArrived, Inv;
    if i == 0 {
      NobodyAtFirst(max);
    } else {
      HoldersOverRun(max, states, steps, i - 1);
      RunInvariant(max, states, steps, i - 1);
      HoldersStep(states[i - 1], steps[i - 1]);
    }
  }

  lemma NobodyAtFirst(max: nat)
    ensures HoldersArrived(Initial(max))
  {
  }

  predicate SharesTicket(a: seq<Ticket>, b: seq<Ticket>) {
    exists t :: t in a && t in b
  }

  /** Mutual exclusion in terms of the clients. Whoever has been granted and has not released holds every ticket it
      asked for; no two such clients have asked for a common ticket, and a ticket nobody holds is available. */
  lemma AskedExclusion(max: nat, states: seq<State>, steps: seq<Step>, i: nat)
    requires IsRun(states, steps) && states[0] == Initial(max) && i < |states| && Disciplined(steps, i)
    ensures var s, asked := states[i], Asked(states, steps, i); var out := s.outstanding;
      && (forall a :: 0 <= a < |out| ==> out[a].id < |asked| && out[a].wanted == asked[out[a].id])
      && (forall a, b :: 0 <= a < b < |out| ==> out[a].id != out[b].id && !SharesTicket(asked[out[a].id], asked[out[b].id]))
      && (forall t :: t in s.granted <==> exists a :: 0 <= a < |out| && t in asked[out[a].id])
  {
    hide IsRun, QueueOk, OrderedGrants, WakeOk, AllWanted;
    RunInvariant(max, states, steps, i);
    HoldersOverRun(max, states, steps, i);
    RunLengths(states, steps);
    ArrivedAsAsked(max, states, steps, i);
    var s, asked := states[i], Asked(states, steps, i);
    var out := s.outstanding;
    forall a, b | 0 <= a < b < |out| ensures out[a].id != out[b].id && !SharesTicket(asked[out[a].id], asked[out[b].id]) {
      assert !ShareTicket(out[a], out[b]);
      assert out[a] in out && out[a].wanted[0] in out[a].wanted;
    }
    forall t ensures t in s.granted <==> exists a :: 0 <= a < |out| && t in asked[out[a].id] {
      GrantedMeansHeld(s, t);
    }
  }

  lemma RunLengths(states: seq<State>, steps: seq<Step>)
    requires IsRun(states, steps)
    ensures |states| == |steps| + 1
  {
  }

  lemma GrantedMeansHeld(s: State, t: Ticket)
    requires Accounts(s.granted, HeldBy(s.outstanding))
    ensures t in s.granted <==> exists a :: 0 <= a < |s.outstanding| && t in s.outstanding[a].wanted
  {
    hide AllWanted;
    HeldMembers(s.outstanding, t);
    assert t in s.granted <==> Count(s.granted, t) != 0;
  }

  lemma {:induction false} HeldMembers(rs: seq<Request>, t: Ticket)
    ensures t in HeldBy(rs) <==> exists a :: 0 <= a < |rs| && t in rs[a].wanted
  {
    if rs != [] {
      HeldMembers(rs[1..], t);
      if a :| 0 <= a < |rs[1..]| && t in rs[1..][a].wanted {
        assert t in rs[a + 1].wanted;
      }
      if a :| 0 < a < |rs| && t in rs[a].wanted {
        assert t in rs[1..][a - 1].wanted;
      }
    }
  }

  /** No accepted request is lost: it waits in the queue for the tickets asked for, or has been granted. And of two
      clients the later one, if it asked for everything the earlier one did, is granted after it. */
  lemma AskedServed(max: nat, states: seq<State>, steps: seq<Step>, i: nat, e: nat, f: nat)
    requires IsRun(states, steps) && states[0] == Initial(max) && i < |states| && Disciplined(steps, i)
    requires e < |Asked(states, steps, i)|
    ensures e in states[i].log || Request(e, Asked(states, steps, i)[e]) in states[i].elements
    ensures var asked, log := Asked(states, steps, i), states[i].log;
      e < f < |asked| && f in log && (forall t | t in asked[e] :: t in asked[f]) ==>
        exists a, b :: 0 <= a < b < |log| && log[a] == e && log[b] == f
  {
    hide IsRun, OrderedGrants, WakeOk, Accounts, Exclusive;
    RunInvariant(max, states, steps, i);
    RunLengths(states, steps);
    ArrivedAsAsked(max, states, steps, i);
    if e < f < |Asked(states, steps, i)| && f in states[i].log && WantsAllOf(states[i].arrived[f], states[i].arrived[e]) {
      NoOvertaking(max, states, steps, i, e, f);
    }
  }

  // ----- The queue object makes these steps -----

  /** The fields of the queue are those of the state. */
  ghost predicate Shows(q: Queue, s: State) reads q {
    && q.shuttingDown == s.shuttingDown && q.maxQueueSize == s.max && q.elements == s.elements
    && q.grantedTickets == s.granted && q.nextId == |s.arrived|
  }

  method AcquireStep(q: Queue, tickets: seq<Ticket>, ghost s: State, ghost wakeCloser: bool) returns (ok: bool)
    requires Shows(q, s)
    modifies q
    ensures Shows(q, Apply(s, Acquire(tickets, wakeCloser))) && (ok <==> Open(s))
  {
    var r := q.QueueUp(tickets);
    return r.Ok?;
  }

  method FinishStep(q: Queue, e: Request, ghost s: State, ghost k: nat)
    requires Shows(q, s) && k < |s.outstanding| && e == s.outstanding[k] && e.wanted != []
    modifies q
    ensures Shows(q, Apply(s, Finish(k)))
  {
    q.ReleaseTicket(e.wanted);
  }

  method StrayStep(q: Queue, tickets: seq<Ticket>, ghost s: State)
    requires Shows(q, s)
    modifies q
    ensures Shows(q, Apply(s, Stray(tickets)))
  {
    q.ReleaseTicket(tickets);
  }

  method ScanStep(q: Queue, ghost s: State) returns (notified: seq<Request>)
    requires Shows(q, s) && s.elements != [] && (s.conductor.Running? || s.conductor.WokenEmpty?)
    modifies q
    ensures Shows(q, Apply(s, Conduct)) && Apply(s, Conduct).outstanding == s.outstanding + notified
  {
    notified := q.ScanElements();
  }

  method StartStep(q: Queue, ghost s: State) returns (err: bool)
    requires Shows(q, s) && s.conductor.NotStarted? && s.shuttingDown
    modifies q
    ensures Shows(q, Apply(s, Start)) && !err
  {
    err := q.Start();
  }
}

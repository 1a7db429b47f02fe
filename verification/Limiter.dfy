/** The ticket limiter: a queue of requests, each wanting a set of named tickets. */
module Limiter {
  import opened Wrappers

  type Ticket = string
  type Granted = map<Ticket, int>

  /** A queued element; `id` stands for the pointer identity of the Go object. */
  datatype Request = Request(id: nat, wanted: seq<Ticket>)

  const DEFAULT_TICKET: Ticket := "not to use this ticket"

  function WithDefault(tickets: seq<Ticket>): seq<Ticket> {
    if tickets == [] then [DEFAULT_TICKET] else tickets
  }

  /** Reading a Go map: zero for a missing key. */
  function Count(g: Granted, t: Ticket): int {
    if t in g then g[t] else 0
  }

  predicate AllAvailable(g: Granted, wanted: seq<Ticket>) {
    forall t | t in wanted :: t !in g
  }

  function Grant(g: Granted, wanted: seq<Ticket>): Granted
    decreases wanted
  {
    if wanted == [] then g else Grant(g[wanted[0] := Count(g, wanted[0]) + 1], wanted[1..])
  }

  function Lower(g: Granted, t: Ticket): Granted {
    if Count(g, t) - 1 == 0 then g - {t} else g[t := Count(g, t) - 1]
  }

  function Retrieve(g: Granted, tickets: seq<Ticket>): Granted
    decreases tickets
  {
    if tickets == [] then g else Retrieve(Lower(g, tickets[0]), tickets[1..])
  }

  datatype ScanResult = ScanResult(kept: seq<Request>, notified: seq<Request>, granted: Granted)

  /** One pass over the queue, left to right, with what it has kept and notified so far. */
  function Scan(kept: seq<Request>, pending: seq<Request>, notified: seq<Request>, g: Granted): ScanResult
    decreases |pending|
  {
    if pending == [] then ScanResult(kept, notified, g)
    else if AllAvailable(g, pending[0].wanted)
    then Scan(kept, pending[1..], notified + [pending[0]], Grant(g, pending[0].wanted))
    else Scan(kept + [pending[0]], pending[1..], notified, g)
  }

  datatype QueueError = ShutdownQueue | FullQueue | StartedRepeatedly

  /** The fields behind the mutex; each method is one critical section. */
  class Queue {
    const maxQueueSize: nat
    var shuttingDown: bool
    var elements: seq<Request>
    var grantedTickets: Granted
    var nextId: nat

    constructor (maxQueueSize: nat)
      ensures this.maxQueueSize == maxQueueSize && shuttingDown && elements == [] && grantedTickets == map[] && nextId == 0
    {
      this.maxQueueSize := maxQueueSize;
      shuttingDown, elements, grantedTickets, nextId := true, [], map[], 0;
    }

    method QueueUp(tickets: seq<Ticket>) returns (r: Result<Request, QueueError>)
      modifies this`elements, this`nextId
      ensures r == Err(ShutdownQueue) <==> shuttingDown
      ensures r == Err(FullQueue) <==> !shuttingDown && |old(elements)| >= maxQueueSize
      ensures r.Ok? <==> !shuttingDown && |old(elements)| < maxQueueSize
      ensures r.Err? ==> elements == old(elements) && nextId == old(nextId)
      ensures r.Ok? ==> r.value == Request(old(nextId), WithDefault(tickets)) && r.value.wanted != []
      ensures r.Ok? ==> elements == old(elements) + [r.value] && nextId == old(nextId) + 1
    {
      if shuttingDown {
        return Err(ShutdownQueue);
      }
      if |elements| >= maxQueueSize {
        return Err(FullQueue);
      }
      var e := Request(nextId, if |tickets| == 0 then tickets + [DEFAULT_TICKET] else tickets);
      assert e.wanted == WithDefault(tickets);
      elements := elements + [e];
      nextId := nextId + 1;
      return Ok(e);
    }

    method ReleaseTicket(tickets: seq<Ticket>)
      modifies this`grantedTickets
      ensures grantedTickets == Retrieve(old(grantedTickets), WithDefault(tickets))
    {
      var ts := if |tickets| == 0 then tickets + [DEFAULT_TICKET] else tickets;
      assert ts == WithDefault(tickets);
      for i := 0 to |ts|
        invariant Retrieve(grantedTickets, ts[i..]) == Retrieve(old(grantedTickets), ts)
      {
        var t := ts[i];
        assert ts[i..][1..] == ts[i + 1..];
        var lowered := Lower(grantedTickets, t);
        grantedTickets := grantedTickets[t := Count(grantedTickets, t) - 1];
        if grantedTickets[t] == 0 {
          grantedTickets := grantedTickets - {t};
        }
        assert grantedTickets == lowered;
      }
      assert ts[|ts|..] == [];
    }

    method CheckAvailableTicket(tickets: seq<Ticket>) returns (ok: bool)
      ensures ok <==> AllAvailable(grantedTickets, tickets)
    {
      for i := 0 to |tickets|
        invariant forall k :: 0 <= k < i ==> tickets[k] !in grantedTickets
      {
        if tickets[i] in grantedTickets {
          return false;
        }
      }
      return true;
    }

    method GrantTicket(e: Request)
      modifies this`grantedTickets
      ensures grantedTickets == Grant(old(grantedTickets), e.wanted)
    {
      var ts := e.wanted;
      for i := 0 to |ts|
        invariant Grant(grantedTickets, ts[i..]) == Grant(old(grantedTickets), ts)
      {
        assert ts[i..][1..] == ts[i + 1..];
        grantedTickets := grantedTickets[ts[i] := Count(grantedTickets, ts[i]) + 1];
      }
      assert ts[|ts|..] == [];
    }

    /** The loop of `checkin`: granted elements are removed from the slice while it is walked. */
    method ScanElements() returns (notified: seq<Request>)
      modifies this`elements, this`grantedTickets
      ensures ScanResult(elements, notified, grantedTickets) == Scan([], old(elements), [], old(grantedTickets))
    {
      notified := [];
      var i := 0;
      while i < |elements|
        invariant 0 <= i <= |elements|
        invariant Scan(elements[..i], elements[i..], notified, grantedTickets) == Scan([], old(elements), [], old(grantedTickets))
        decreases |elements| - i
      {
        var e := elements[i];
        var rest := elements[i + 1..];
        assert elements[i..][1..] == rest && elements[..i + 1] == elements[..i] + [e];
        var ok := CheckAvailableTicket(e.wanted);
        if ok {
          GrantTicket(e);
          notified := notified + [e];
          var kept := elements[..i];
          elements := kept + rest;
          assert elements[..i] == kept && elements[i..] == rest;
          i := i - 1;
        }
        i := i + 1;
      }
      assert elements[..i] == elements && elements[i..] == [];
    }

    method Start() returns (err: bool)
      modifies this`shuttingDown
      ensures err <==> !old(shuttingDown)
      ensures !shuttingDown
    {
      if !shuttingDown {
        return true;
      }
      shuttingDown := false;
      return false;
    }
  }

  // ----- Ticket accounting -----

  /** The map counts the tickets held, and holds a key exactly for tickets that are held. */
  ghost predicate Accounts(g: Granted, held: multiset<Ticket>) {
    (forall t :: t in g ==> g[t] != 0) && forall t :: Count(g, t) == held[t]
  }

  lemma {:induction false} GrantCounts(g: Granted, wanted: seq<Ticket>, t: Ticket)
    ensures Count(Grant(g, wanted), t) == Count(g, t) + multiset(wanted)[t]
    ensures t in Grant(g, wanted) <==> t in g || t in wanted
    decreases wanted
  {
    if wanted != [] {
      assert wanted == [wanted[0]] + wanted[1..];
      GrantCounts(g[wanted[0] := Count(g, wanted[0]) + 1], wanted[1..], t);
    }
  }

  lemma {:induction false} RetrieveCounts(g: Granted, tickets: seq<Ticket>, t: Ticket)
    requires t in g ==> g[t] != 0
    ensures Count(Retrieve(g, tickets), t) == Count(g, t) - multiset(tickets)[t]
    ensures t in Retrieve(g, tickets) ==> Retrieve(g, tickets)[t] != 0
    decreases tickets
  {
    if tickets != [] {
      assert tickets == [tickets[0]] + tickets[1..];
      RetrieveCounts(Lower(g, tickets[0]), tickets[1..], t);
    }
  }

  lemma GrantAccounts(g: Granted, held: multiset<Ticket>, wanted: seq<Ticket>)
    requires Accounts(g, held)
    ensures Accounts(Grant(g, wanted), held + multiset(wanted))
  {
    forall t ensures Count(Grant(g, wanted), t) == (held + multiset(wanted))[t]
      && (t in Grant(g, wanted) ==> Grant(g, wanted)[t] != 0)
    {
      GrantCounts(g, wanted, t);
    }
  }

  /** After giving tickets back the map accounts for exactly what is left of the tickets held: nothing else
      will do, in particular not what was held before, unless no ticket was given back. */
  lemma RetrieveAccounts(g: Granted, held: multiset<Ticket>, tickets: seq<Ticket>, left: multiset<Ticket>)
    requires Accounts(g, held)
    ensures Accounts(Retrieve(g, tickets), left) <==> left + multiset(tickets) == held
  {
    hide Retrieve;
    var m, g' := multiset(tickets), Retrieve(g, tickets);
    forall t ensures Count(g', t) + m[t] == held[t] && (t in g' ==> g'[t] != 0) {
      RetrieveCounts(g, tickets, t);
    }
    if Accounts(g', left) {
      forall t ensures (left + m)[t] == held[t] {
        assert Count(g', t) == left[t];
      }
    }
  }

  // ----- The scan is the greedy choice -----

  predicate ShareTicket(e: Request, f: Request) {
    exists t :: t in e.wanted && t in f.wanted
  }

  /** Left to right: a request is picked exactly when its tickets are free at the start and no
      request picked before it wants one of them. */
  predicate GreedyChoice(es: seq<Request>, g: Granted, pick: seq<bool>) {
    |pick| == |es| && forall i :: 0 <= i < |es| ==> (pick[i] <==> Pickable(es, g, pick, i))
  }

  predicate Pickable(es: seq<Request>, g: Granted, pick: seq<bool>, i: nat)
    requires i < |es| && i <= |pick|
  {
    AllAvailable(g, es[i].wanted) && forall j :: 0 <= j < i && pick[j] ==> !ShareTicket(es[j], es[i])
  }

  function Select(es: seq<Request>, pick: seq<bool>, b: bool): seq<Request>
    requires |pick| == |es|
  {
    if es == [] then []
    else
      var n := |es| - 1;
      Select(es[..n], pick[..n], b) + if pick[n] == b then [es[n]] else []
  }

  /** Tickets taken after the first `i` choices. */
  ghost predicate TakenBy(es: seq<Request>, g: Granted, pick: seq<bool>, g': Granted) {
    |pick| <= |es| &&
    forall t :: t in g' <==> t in g || exists j :: 0 <= j < |pick| && pick[j] && t in es[j].wanted
  }

  /** A scan notifies exactly the greedy choice and keeps the others, both in queue order. */
  lemma ScanIsGreedy(es: seq<Request>, g: Granted) returns (pick: seq<bool>)
    ensures GreedyChoice(es, g, pick)
    ensures Scan([], es, [], g).notified == Select(es, pick, true) && Scan([], es, [], g).kept == Select(es, pick, false)
  {
    assert es[0..] == es && es[..0] == [];
    pick := GreedyFrom(es, g, [], [], [], g);
  }

  lemma {:induction false} GreedyFrom(es: seq<Request>, g0: Granted, done: seq<bool>, kept: seq<Request>, notified: seq<Request>, g: Granted)
    returns (pick: seq<bool>)
    requires |done| <= |es| && GreedyChoice(es[..|done|], g0, done) && TakenBy(es, g0, done, g)
    requires kept == Select(es[..|done|], done, false) && notified == Select(es[..|done|], done, true)
    ensures GreedyChoice(es, g0, pick)
    ensures var r := Scan(kept, es[|done|..], notified, g);
      r.kept == Select(es, pick, false) && r.notified == Select(es, pick, true)
    decreases |es| - |done|
  {
    hide GreedyChoice, TakenBy, AllAvailable, Grant;
    var i := |done|;
    if i == |es| {
      pick := done;
      assert es[..i] == es;
    } else {
      var e := es[i];
      var b := AllAvailable(g, e.wanted);
      var done' := done + [b];
      assert es[i..][1..] == es[i + 1..];
      ChoiceStep(es, g0, done, g, b);
      assert done'[..i] == done && es[..i + 1][..i] == es[..i];
      var g' := if b then Grant(g, e.wanted) else g;
      TakenStep(es, g0, done, g, b, g');
      pick := GreedyFrom(es, g0, done', if b then kept else kept + [e], if b then notified + [e] else notified, g');
    }
  }

  lemma ChoiceStep(es: seq<Request>, g0: Granted, done: seq<bool>, g: Granted, b: bool)
    requires |done| < |es| && GreedyChoice(es[..|done|], g0, done) && TakenBy(es, g0, done, g)
    requires b == AllAvailable(g, es[|done|].wanted)
    ensures GreedyChoice(es[..|done| + 1], g0, done + [b])
  {
    hide AllAvailable, ShareTicket, TakenBy;
    var i, pre, pick := |done|, es[..|done| + 1], done + [b];
    FreeMeansPickable(es, g0, done, g);
    forall k | 0 <= k <= i ensures pick[k] <==> Pickable(pre, g0, pick, k) {
      assert k < i ==> (done[k] <==> Pickable(es[..i], g0, done, k));
      assert forall j :: 0 <= j < k ==> pick[j] == done[j];
    }
  }

  /** Free now means free at the start and not taken by an earlier choice. */
  lemma FreeMeansPickable(es: seq<Request>, g0: Granted, done: seq<bool>, g: Granted)
    requires |done| < |es| && TakenBy(es, g0, done, g)
    ensures AllAvailable(g, es[|done|].wanted) <==> Pickable(es, g0, done, |done|)
  {
  }

  lemma TakenStep(es: seq<Request>, g0: Granted, done: seq<bool>, g: Granted, b: bool, g': Granted)
    requires |done| < |es| && TakenBy(es, g0, done, g)
    requires g' == if b then Grant(g, es[|done|].wanted) else g
    ensures TakenBy(es, g0, done + [b], g')
  {
    var pick := done + [b];
    forall t ensures t in g' <==> t in g0 || exists j :: 0 <= j < |pick| && pick[j] && t in es[j].wanted {
      GrantCounts(g, es[|done|].wanted, t);
      if j :| 0 <= j < |done| && done[j] && t in es[j].wanted {
        assert pick[j];
      }
      if b && t in es[|done|].wanted {
        assert pick[|done|];
      }
    }
  }

  lemma {:induction false} PicksApart(es: seq<Request>, g: Granted, pick: seq<bool>)
    requires GreedyChoice(es, g, pick)
    ensures var chosen := Select(es, pick, true);
      && (forall e | e in chosen :: AllAvailable(g, e.wanted) && e in es)
      && (forall i :: 0 <= i < |es| && pick[i] ==> es[i] in chosen)
      && (forall a, b :: 0 <= a < b < |chosen| ==> !ShareTicket(chosen[a], chosen[b]))
  {
    hide AllAvailable, ShareTicket;
    if es != [] {
      var n := |es| - 1;
      ChoicePrefix(es, g, pick);
      PicksApart(es[..n], g, pick[..n]);
      var before := Select(es[..n], pick[..n], true);
      forall e | e in before && pick[n] ensures !ShareTicket(e, es[n]) {
        ChosenAt(es[..n], pick[..n], e);
        assert Pickable(es, g, pick, n);
      }
      assert pick[n] <==> Pickable(es, g, pick, n);
      assert es == es[..n] + [es[n]];
    }
  }

  lemma ChoicePrefix(es: seq<Request>, g: Granted, pick: seq<bool>)
    requires GreedyChoice(es, g, pick) && es != []
    ensures GreedyChoice(es[..|es| - 1], g, pick[..|es| - 1])
  {
    hide AllAvailable, ShareTicket;
    var n := |es| - 1;
    forall i | 0 <= i < n ensures pick[i] <==> Pickable(es[..n], g, pick[..n], i) {
      assert pick[i] <==> Pickable(es, g, pick, i);
      assert forall j | 0 <= j < i :: es[..n][j] == es[j] && pick[..n][j] == pick[j];
    }
  }

  lemma {:induction false} ChosenAt(es: seq<Request>, pick: seq<bool>, e: Request)
    requires |pick| == |es| && e in Select(es, pick, true)
    ensures exists j :: 0 <= j < |es| && pick[j] && es[j] == e
  {
    var n := |es| - 1;
    if !(pick[n] && es[n] == e) {
      ChosenAt(es[..n], pick[..n], e);
      var j :| 0 <= j < n && pick[..n][j] && es[..n][j] == e;
      assert pick[j] && es[j] == e;
    }
  }
}

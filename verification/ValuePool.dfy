/** A pool of connections with a limit, waiters that may give up, and connects that may fail. */
module ValuePool {
  import opened Prelude

  type Value = nat
  type Ticket = nat

  datatype Limits = Limits(maxValues: nat, minValues: nat, maxPooled: nat)

  /** The locked state: the count of live values, the values in the pool (the last is taken first),
      and the waiters in order of arrival, each the sending half of a one-shot channel. */
  datatype Inner = Inner(numLive: nat, pooled: seq<Value>, waiters: seq<Ticket>)

  datatype Taken = Got(value: Value) | CreateNew | Wait

  function Take(limits: Limits, s: Inner, ticket: Ticket): (Inner, Taken) {
    if s.pooled != [] then
      (s.(pooled := s.pooled[..|s.pooled| - 1]), Got(s.pooled[|s.pooled| - 1]))
    else if s.numLive < limits.maxValues then (s.(numLive := s.numLive + 1), CreateNew)
    else (s.(waiters := s.waiters + [ticket]), Wait)
  }

  /** Where a returned value goes. */
  datatype Given = Dropped | Sent(ticket: Ticket) | Pooled | Underflow

  /** How many waiters in front have given up. */
  function GivenUp(waiters: seq<Ticket>, gone: set<Ticket>): (n: nat)
    ensures n <= |waiters|
    ensures forall i | 0 <= i < n :: waiters[i] in gone
    ensures n < |waiters| ==> waiters[n] !in gone
  {
    if waiters == [] || waiters[0] !in gone then 0 else 1 + GivenUp(waiters[1..], gone)
  }

  /** A full pool drops the value, and the count of live values must not be zero then.
      Otherwise it goes to the first waiter that has not given up,
      and all those before it are forgotten; with none left it goes into the pool. */
  function Return(limits: Limits, s: Inner, value: Value, gone: set<Ticket>): (Inner, Given) {
    var n := GivenUp(s.waiters, gone);
    if |s.pooled| >= limits.maxPooled then
      if s.numLive == 0 then (s, Underflow) else (s.(numLive := s.numLive - 1), Dropped)
    else if n < |s.waiters| then (s.(waiters := s.waiters[n + 1..]), Sent(s.waiters[n]))
    else (s.(waiters := [], pooled := s.pooled + [value]), Pooled)
  }

  // ----- What the two say about the queue and the values -----

  predicate AllGone(waiters: seq<Ticket>, gone: set<Ticket>) {
    forall i | 0 <= i < |waiters| :: waiters[i] in gone
  }

  /** The old queue is some waiters that gave up, then the one served, then exactly the new queue. */
  ghost predicate Serves(was: seq<Ticket>, gone: set<Ticket>, ticket: Ticket, now: seq<Ticket>) {
    exists n | 0 <= n < |was| :: AllGone(was[..n], gone) && was[n] == ticket && ticket !in gone && was[n + 1..] == now
  }

  /** What becomes of a returned value and of the waiters. */
  ghost predicate Returned(limits: Limits, was: Inner, value: Value, gone: set<Ticket>, now: Inner, r: Given) {
    match r
    case Dropped => |was.pooled| >= limits.maxPooled && was.numLive > 0 && now == was.(numLive := was.numLive - 1)
    case Underflow => |was.pooled| >= limits.maxPooled && was.numLive == 0 && now == was
    case Pooled =>
      && |was.pooled| < limits.maxPooled && AllGone(was.waiters, gone)
      && now == Inner(was.numLive, was.pooled + [value], [])
    case Sent(ticket) =>
      && |was.pooled| < limits.maxPooled && Serves(was.waiters, gone, ticket, now.waiters)
      && now == was.(waiters := now.waiters)
  }

  lemma ReturnIs(limits: Limits, s: Inner, value: Value, gone: set<Ticket>)
    ensures var (now, r) := Return(limits, s, value, gone); Returned(limits, s, value, gone, now, r)
  {
    var n := GivenUp(s.waiters, gone);
    if n < |s.waiters| {
      assert AllGone(s.waiters[..n], gone);
    }
  }

  /** Where a taker's value comes from: the value pooled last, else a new one while there is room, else it queues. */
  predicate Took(limits: Limits, was: Inner, ticket: Ticket, now: Inner, r: Taken) {
    match r
    case Got(value) => was.pooled == now.pooled + [value] && now == was.(pooled := now.pooled)
    case CreateNew => was.pooled == [] && was.numLive < limits.maxValues && now == was.(numLive := was.numLive + 1)
    case Wait =>
      was.pooled == [] && was.numLive >= limits.maxValues && now == was.(waiters := was.waiters + [ticket])
  }

  lemma TakeIs(limits: Limits, s: Inner, ticket: Ticket)
    ensures var (now, r) := Take(limits, s, ticket); Took(limits, s, ticket, now, r)
  {
  }

  class PoolState {
    const limits: Limits
    var numLiveValues: nat
    var pooledValues: seq<Value>
    var waiters: seq<Ticket>

    function State(): Inner
      reads this
    {
      Inner(numLiveValues, pooledValues, waiters)
    }

    /** `new`, once all its connects came through. */
    constructor (limits: Limits, connected: seq<Value>)
      requires |connected| == limits.minValues
      ensures this.limits == limits && State() == Inner(limits.minValues, connected, [])
    {
      this.limits := limits;
      numLiveValues, pooledValues, waiters := limits.minValues, connected, [];
    }

    /** `new`: the connects in order, up to the first that fails. */
    static method New(limits: Limits, connects: seq<Option<Value>>) returns (r: Option<PoolState>)
      requires |connects| == limits.minValues
      ensures r.Some? <==> forall i | 0 <= i < |connects| :: connects[i].Some?
      ensures r.Some? ==> fresh(r.value) && r.value.limits == limits
      ensures r.Some? ==> r.value.numLiveValues == |r.value.pooledValues| == limits.minValues && r.value.waiters == []
      ensures r.Some? ==> forall i | 0 <= i < |connects| :: Some(r.value.pooledValues[i]) == connects[i]
    {
      var connected: seq<Value> := [];
      for i := 0 to limits.minValues
        invariant |connected| == i && forall j | 0 <= j < i :: connects[j] == Some(connected[j])
      {
        if connects[i].None? {
          return None;
        }
        connected := connected + [connects[i].value];
      }
      var pool := new PoolState(limits, connected);
      return Some(pool);
    }

    /** The locked part of `take_value`. */
    method TakeValue(ticket: Ticket) returns (r: Taken)
      modifies this
      ensures (State(), r) == Take(limits, old(State()), ticket)
      ensures Took(limits, old(State()), ticket, State(), r)
    {
      TakeIs(limits, State(), ticket);
      if pooledValues != [] {
        var last := |pooledValues| - 1;
        r := Got(pooledValues[last]);
        pooledValues := pooledValues[..last];
      } else if numLiveValues < limits.maxValues {
        numLiveValues := numLiveValues + 1;
        r := CreateNew;
      } else {
        waiters := waiters + [ticket];
        r := Wait;
      }
    }

    /** `return_value`; `gone` holds the waiters whose receiving half was dropped, to whom a send fails. */
    method ReturnValue(value: Value, gone: set<Ticket>) returns (r: Given)
      modifies this
      ensures (State(), r) == Return(limits, old(State()), value, gone)
      ensures Returned(limits, old(State()), value, gone, State(), r)
    {
      ghost var was := State();
      r := Give(value, gone);
      ReturnIs(limits, was, value, gone);
    }

    /** Its body. */
    method Give(value: Value, gone: set<Ticket>) returns (r: Given)
      modifies this
      ensures (State(), r) == Return(limits, old(State()), value, gone)
    {
      if |pooledValues| >= limits.maxPooled {
        if numLiveValues == 0 {
          return Underflow;
        }
        numLiveValues := numLiveValues - 1;
        return Dropped;
      }
      ghost var was, n := waiters, 0;
      assert was[0..] == was;
      while waiters != []
        invariant n <= |was| && waiters == was[n..] && State() == old(State()).(waiters := waiters)
        invariant GivenUp(was, gone) == n + GivenUp(waiters, gone)
        decreases |waiters|
      {
        var waiter := waiters[0];
        assert was[n..][1..] == was[n + 1..];
        waiters := waiters[1..];
        n := n + 1;
        if waiter !in gone {
          return Sent(waiter);
        }
      }
      pooledValues := pooledValues + [value];
      return Pooled;
    }
  }

  // ----- The pool and its users -----

  /** Besides the pool: the waiters that gave up, values sent to a waiter and not picked up yet, values in use,
      connects in progress, and how many live values are lost for good (a connect failed or was abandoned,
      a waiter left with its value on the way, a user dropped the value without returning it).
      `queued` are all the tickets that ever queued, and `served` those that were sent a value, in order. */
  datatype World = World(
    inner: Inner, gone: set<Ticket>, sent: map<Ticket, Value>, inUse: set<Value>, connecting: nat, lost: nat,
    queued: seq<Ticket>, served: seq<Ticket>)

  datatype Event =
    | TakeOne(ticket: Ticket)
    | Connected(value: Value)
    | ConnectFailed
    | GiveUp(ticket: Ticket)
    | PickUp(ticket: Ticket)
    | ReturnOne(value: Value)
    | Forget(value: Value)

  predicate Exists(w: World, v: Value) {
    v in w.inner.pooled || v in w.inUse || v in w.sent.Values
  }

  /** What an event does, if it can happen. Tickets and connections are new when they appear. */
  function Next(limits: Limits, w: World, ev: Event): Option<World> {
    match ev
    case TakeOne(ticket) =>
      if ticket in w.queued then None
      else
        var (inner, r) := Take(limits, w.inner, ticket);
        Some(match r
             case Got(v) => w.(inner := inner, inUse := w.inUse + {v})
             case CreateNew => w.(inner := inner, connecting := w.connecting + 1)
             case Wait => w.(inner := inner, queued := w.queued + [ticket]))
    case Connected(v) =>
      if w.connecting == 0 || Exists(w, v) then None
      else Some(w.(connecting := w.connecting - 1, inUse := w.inUse + {v}))
    case ConnectFailed =>
      if w.connecting == 0 then None
      else Some(w.(connecting := w.connecting - 1, lost := w.lost + 1))
    case GiveUp(ticket) =>
      if ticket in w.sent then Some(w.(sent := w.sent - {ticket}, lost := w.lost + 1))
      else if ticket in w.inner.waiters then Some(w.(gone := w.gone + {ticket}))
      else None
    case PickUp(ticket) =>
      if ticket !in w.sent then None
      else Some(w.(sent := w.sent - {ticket}, inUse := w.inUse + {w.sent[ticket]}))
    case ReturnOne(v) =>
      if v !in w.inUse then None
      else
        var (inner, r) := Return(limits, w.inner, v, w.gone);
        var w' := w.(inner := inner, inUse := w.inUse - {v});
        (match r
         case Sent(ticket) => Some(w'.(sent := w.sent[ticket := v], served := w.served + [ticket]))
         case Dropped => Some(w')
         case Pooled => Some(w')
         case Underflow => None)
    case Forget(v) =>
      if v !in w.inUse then None
      else Some(w.(inUse := w.inUse - {v}, lost := w.lost + 1))
  }

  function Max(a: nat, b: nat): nat { if a < b then b else a }

  /** Every live value is accounted for, no value is in two places, the limit is kept. */
  ghost predicate Accounted(limits: Limits, w: World) {
    && w.inner.numLive == |w.inner.pooled| + w.connecting + |w.inUse| + |w.sent| + w.lost
    && w.inner.numLive <= Max(limits.minValues, limits.maxValues)
    && (forall i, j | 0 <= i < j < |w.inner.pooled| :: w.inner.pooled[i] != w.inner.pooled[j])
    && (forall t, u | t in w.sent && u in w.sent && t != u :: w.sent[t] != w.sent[u])
    && (forall v | v in w.inner.pooled :: v !in w.inUse)
    && (forall t | t in w.sent :: w.sent[t] !in w.inUse && w.sent[t] !in w.inner.pooled && t !in w.inner.waiters)
    && (forall i, j | 0 <= i < j < |w.inner.waiters| :: w.inner.waiters[i] != w.inner.waiters[j])
  }

  /** Somebody waits only while the pool is empty. */
  predicate WaitsForEmpty(w: World) {
    w.inner.waiters != [] ==> w.inner.pooled == []
  }

  /** Somebody waits only while no further value may be created. */
  predicate WaitsForFull(limits: Limits, w: World) {
    w.inner.waiters != [] ==> w.inner.numLive >= limits.maxValues
  }

  /** Those that did not give up. */
  function Present(tickets: seq<Ticket>, gone: set<Ticket>): seq<Ticket> {
    if tickets == [] then []
    else
      var n := |tickets| - 1;
      Present(tickets[..n], gone) + (if tickets[n] in gone then [] else [tickets[n]])
  }

  /** The queue is what is left of all who ever queued, in the order in which they came: those before it were
      served, each of them, in that order, unless they gave up. */
  predicate InOrder(queued: seq<Ticket>, waiters: seq<Ticket>, served: seq<Ticket>, gone: set<Ticket>) {
    && |waiters| <= |queued|
    && var n := |queued| - |waiters|;
    && queued[n..] == waiters
    && served == Present(queued[..n], gone)
  }

  predicate Once(tickets: seq<Ticket>) {
    forall i, j | 0 <= i < j < |tickets| :: tickets[i] != tickets[j]
  }

  ghost predicate InTurn(w: World) {
    && Once(w.queued)
    && InOrder(w.queued, w.inner.waiters, w.served, w.gone)
    && (forall t | t in w.sent :: t in w.served)
  }

  lemma OrderIs(queued: seq<Ticket>, passed: seq<Ticket>, waiters: seq<Ticket>, served: seq<Ticket>, gone: set<Ticket>)
    requires queued == passed + waiters && served == Present(passed, gone)
    ensures InOrder(queued, waiters, served, gone)
  {
    assert queued[..|passed|] == passed && queued[|passed|..] == waiters;
  }

  lemma OrderGives(queued: seq<Ticket>, waiters: seq<Ticket>, served: seq<Ticket>, gone: set<Ticket>)
    returns (passed: seq<Ticket>)
    requires InOrder(queued, waiters, served, gone)
    ensures queued == passed + waiters && served == Present(passed, gone)
    ensures passed == queued[..|queued| - |waiters|]
  {
    passed := queued[..|queued| - |waiters|];
  }

  lemma {:induction false} PresentAre(tickets: seq<Ticket>, gone: set<Ticket>, t: Ticket)
    ensures t in Present(tickets, gone) <==> t in tickets && t !in gone
  {
    if tickets != [] {
      var n := |tickets| - 1;
      PresentAre(tickets[..n], gone, t);
      assert tickets == tickets[..n] + [tickets[n]];
    }
  }

  lemma {:induction false} PresentConcat(a: seq<Ticket>, b: seq<Ticket>, gone: set<Ticket>)
    ensures Present(a + b, gone) == Present(a, gone) + Present(b, gone)
  {
    if b == [] {
      assert a + b == a;
      assert Present(a, gone) + [] == Present(a, gone);
    } else {
      var n := |b| - 1;
      assert (a + b)[..|a + b| - 1] == a + b[..n];
      PresentConcat(a, b[..n], gone);
      Assoc(Present(a, gone), Present(b[..n], gone), if b[n] in gone then [] else [b[n]]);
    }
  }

  lemma {:induction false} NonePresent(tickets: seq<Ticket>, gone: set<Ticket>)
    requires AllGone(tickets, gone)
    ensures Present(tickets, gone) == []
  {
    if tickets != [] {
      NonePresent(tickets[..|tickets| - 1], gone);
    }
  }

  /** One more gives up, none of these. */
  lemma {:induction false} StillPresent(tickets: seq<Ticket>, gone: set<Ticket>, t: Ticket)
    requires t !in tickets
    ensures Present(tickets, gone + {t}) == Present(tickets, gone)
  {
    if tickets != [] {
      var n := |tickets| - 1;
      assert tickets[n] in tickets && tickets == tickets[..n] + [tickets[n]];
      StillPresent(tickets[..n], gone, t);
    }
  }

  lemma TurnKept(w: World, w': World)
    requires InTurn(w) && w'.queued == w.queued && w'.inner.waiters == w.inner.waiters
    requires w'.served == w.served && w'.gone == w.gone && w'.sent.Keys <= w.sent.Keys
    ensures InTurn(w')
  {
  }

  lemma QueueKeepsTurn(w: World, ticket: Ticket, w': World)
    requires InTurn(w) && ticket !in w.queued && w'.queued == w.queued + [ticket]
    requires w'.inner.waiters == w.inner.waiters + [ticket]
    requires w'.served == w.served && w'.gone == w.gone && w'.sent == w.sent
    ensures InTurn(w')
  {
    var passed := OrderGives(w.queued, w.inner.waiters, w.served, w.gone);
    Assoc(passed, w.inner.waiters, [ticket]);
    OrderIs(w'.queued, passed, w'.inner.waiters, w'.served, w'.gone);
  }

  lemma GiveUpKeepsTurn(w: World, ticket: Ticket)
    requires InTurn(w) && ticket in w.inner.waiters
    ensures InTurn(w.(gone := w.gone + {ticket}))
  {
    var passed := OrderGives(w.queued, w.inner.waiters, w.served, w.gone);
    NotBefore(passed, w.inner.waiters, ticket);
    StillPresent(passed, w.gone, ticket);
    OrderIs(w.queued, passed, w.inner.waiters, w.served, w.gone + {ticket});
  }

  lemma NotBefore(a: seq<Ticket>, b: seq<Ticket>, t: Ticket)
    requires Once(a + b) && t in b
    ensures t !in a
  {
    var k :| 0 <= k < |b| && b[k] == t;
    assert (a + b)[|a| + k] == t;
    assert forall i | 0 <= i < |a| :: (a + b)[i] == a[i];
  }

  /** The queue moves on past some that gave up, and the one after them, if any, is served. */
  lemma ServeKeepsOrder(
      queued: seq<Ticket>, moved: seq<Ticket>, waiters: seq<Ticket>, served: seq<Ticket>, gone: set<Ticket>)
    requires InOrder(queued, moved + waiters, served, gone)
    ensures InOrder(queued, waiters, served + Present(moved, gone), gone)
  {
    var passed := OrderGives(queued, moved + waiters, served, gone);
    Assoc(passed, moved, waiters);
    PresentConcat(passed, moved, gone);
    OrderIs(queued, passed + moved, waiters, served + Present(moved, gone), gone);
  }

  lemma ReturnKeepsTurn(limits: Limits, w: World, v: Value)
    requires InTurn(w) && Next(limits, w, ReturnOne(v)).Some?
    ensures InTurn(Next(limits, w, ReturnOne(v)).value)
  {
    var w' := Next(limits, w, ReturnOne(v)).value;
    var moved := MovedPast(limits, w.inner, v, w.gone);
    if Return(limits, w.inner, v, w.gone).1.Dropped? {
      TurnKept(w, w');
    } else {
      ServeKeepsOrder(w.queued, moved, w'.inner.waiters, w.served, w.gone);
    }
  }

  /** The waiters a return takes out of the queue: of them only the one it serves did not give up. */
  lemma MovedPast(limits: Limits, s: Inner, value: Value, gone: set<Ticket>) returns (moved: seq<Ticket>)
    ensures var (now, r) := Return(limits, s, value, gone);
      r.Sent? || r.Pooled? ==>
        s.waiters == moved + now.waiters && Present(moved, gone) == if r.Sent? then [r.ticket] else []
  {
    var n := GivenUp(s.waiters, gone);
    NonePresent(s.waiters[..n], gone);
    if n < |s.waiters| {
      moved := s.waiters[..n + 1];
      assert moved[..n] == s.waiters[..n] && moved[n] == s.waiters[n];
    } else {
      moved := s.waiters;
      assert s.waiters[..n] == s.waiters == moved + [];
    }
  }

  lemma NextKeepsTurn(limits: Limits, w: World, ev: Event)
    requires InTurn(w) && Next(limits, w, ev).Some?
    ensures InTurn(Next(limits, w, ev).value)
  {
    var w' := Next(limits, w, ev).value;
    match ev
    case TakeOne(ticket) =>
      if Take(limits, w.inner, ticket).1.Wait? {
        QueueKeepsTurn(w, ticket, w');
      } else {
        TurnKept(w, w');
      }
    case GiveUp(ticket) =>
      if ticket in w.sent {
        TurnKept(w, w');
      } else {
        GiveUpKeepsTurn(w, ticket);
      }
    case ReturnOne(v) => ReturnKeepsTurn(limits, w, v);
    case _ => TurnKept(w, w');
  }

  /** What the turns say about one ticket that may take its place in the queue. */
  lemma NewTicket(w: World, ticket: Ticket)
    requires InTurn(w) && ticket !in w.queued
    ensures ticket !in w.inner.waiters && ticket !in w.sent
  {
    var passed := OrderGives(w.queued, w.inner.waiters, w.served, w.gone);
    PresentAre(passed, w.gone, ticket);
  }

  lemma MapSizes(m: map<Ticket, Value>, t: Ticket, v: Value)
    ensures t in m ==> |m - {t}| == |m| - 1
    ensures t !in m ==> |m[t := v]| == |m| + 1
  {
    assert (m - {t}).Keys == m.Keys - {t};
    assert m[t := v].Keys == m.Keys + {t};
  }

  lemma TakeKeepsAccounts(limits: Limits, w: World, ticket: Ticket)
    requires Accounted(limits, w) && WaitsForEmpty(w) && InTurn(w) && Next(limits, w, TakeOne(ticket)).Some?
    ensures var w' := Next(limits, w, TakeOne(ticket)).value; Accounted(limits, w') && WaitsForEmpty(w')
  {
    NewTicket(w, ticket);
    if w.inner.pooled != [] {
      PopKeepsAccounts(limits, w, ticket);
    }
  }

  lemma PopKeepsAccounts(limits: Limits, w: World, ticket: Ticket)
    requires Accounted(limits, w) && w.inner.waiters == [] && w.inner.pooled != []
    requires Next(limits, w, TakeOne(ticket)).Some?
    ensures Accounted(limits, Next(limits, w, TakeOne(ticket)).value)
  {
    var n := |w.inner.pooled| - 1;
    var v, rest := w.inner.pooled[n], w.inner.pooled[..n];
    assert v in w.inner.pooled && v !in w.inUse;
    assert forall i | 0 <= i < n :: rest[i] == w.inner.pooled[i] != v;
    assert forall x | x in rest :: x in w.inner.pooled && x != v;
  }

  lemma SentKeepsAccounts(limits: Limits, w: World, ev: Event)
    requires Accounted(limits, w) && WaitsForEmpty(w) && Next(limits, w, ev).Some? && (ev.GiveUp? || ev.PickUp?)
    ensures var w' := Next(limits, w, ev).value; Accounted(limits, w') && WaitsForEmpty(w')
  {
    MapSizes(w.sent, ev.ticket, 0);
    if ev.ticket in w.sent {
      assert w.sent[ev.ticket] !in w.inUse;
    }
  }

  lemma ReturnKeepsAccounts(limits: Limits, w: World, v: Value)
    requires Accounted(limits, w) && WaitsForEmpty(w) && Next(limits, w, ReturnOne(v)).Some?
    ensures var w' := Next(limits, w, ReturnOne(v)).value; Accounted(limits, w') && WaitsForEmpty(w')
  {
    var w' := Next(limits, w, ReturnOne(v)).value;
    var n := GivenUp(w.inner.waiters, w.gone);
    if |w.inner.pooled| < limits.maxPooled && n < |w.inner.waiters| {
      var ticket := w.inner.waiters[n];
      assert ticket in w.inner.waiters && ticket !in w.sent;
      MapSizes(w.sent, ticket, v);
      assert forall x | x in w'.inner.waiters :: x in w.inner.waiters && x != ticket;
    }
  }

  lemma NextKeepsAccounts(limits: Limits, w: World, ev: Event)
    requires Accounted(limits, w) && WaitsForEmpty(w) && InTurn(w) && Next(limits, w, ev).Some?
    ensures var w' := Next(limits, w, ev).value; Accounted(limits, w') && WaitsForEmpty(w')
  {
    match ev
    case TakeOne(ticket) => TakeKeepsAccounts(limits, w, ticket);
    case Connected(v) => assert forall t | t in w.sent :: w.sent[t] in w.sent.Values;
    case ConnectFailed =>
    case GiveUp(_) => SentKeepsAccounts(limits, w, ev);
    case PickUp(_) => SentKeepsAccounts(limits, w, ev);
    case ReturnOne(v) => ReturnKeepsAccounts(limits, w, v);
    case Forget(v) =>
  }

  lemma NextKeepsFull(limits: Limits, w: World, ev: Event)
    requires limits.maxPooled >= 1 || limits.maxValues == 0
    requires WaitsForEmpty(w) && WaitsForFull(limits, w) && Next(limits, w, ev).Some?
    ensures WaitsForFull(limits, Next(limits, w, ev).value)
  {
  }

  /** The state after some events that can all happen. */
  function After(limits: Limits, w: World, events: seq<Event>): Option<World> {
    if events == [] then Some(w)
    else
      var before := After(limits, w, events[..|events| - 1]);
      if before.None? then None else Next(limits, before.value, events[|events| - 1])
  }

  predicate Initial(limits: Limits, w: World) {
    && w == World(Inner(limits.minValues, w.inner.pooled, []), {}, map[], {}, 0, 0, [], [])
    && |w.inner.pooled| == limits.minValues
    && forall i, j | 0 <= i < j < |w.inner.pooled| :: w.inner.pooled[i] != w.inner.pooled[j]
  }

  lemma {:induction false} RunIsInTurn(limits: Limits, w: World, events: seq<Event>)
    requires Initial(limits, w) && After(limits, w, events).Some?
    ensures InTurn(After(limits, w, events).value)
  {
    if events != [] {
      var n := |events| - 1;
      RunIsInTurn(limits, w, events[..n]);
      NextKeepsTurn(limits, After(limits, w, events[..n]).value, events[n]);
    }
  }

  /** Over all runs nobody is forgotten and nobody overtakes: whoever queued and has neither given up nor been served is
      still in the queue; the queue is in order of arrival; and values went to those before it, in order of arrival. */
  lemma NobodyIsForgotten(limits: Limits, w: World, events: seq<Event>, t: Ticket)
    requires Initial(limits, w) && After(limits, w, events).Some?
    ensures var now := After(limits, w, events).value;
      && (t in now.queued && t !in now.gone && t !in now.served ==> t in now.inner.waiters)
      && InOrder(now.queued, now.inner.waiters, now.served, now.gone)
  {
    RunIsInTurn(limits, w, events);
    var now := After(limits, w, events).value;
    if t in now.queued && t !in now.gone && t !in now.served {
      StillQueued(now, t);
    }
  }

  lemma StillQueued(w: World, t: Ticket)
    requires InTurn(w) && t in w.queued && t !in w.gone && t !in w.served
    ensures t in w.inner.waiters
  {
    var passed := OrderGives(w.queued, w.inner.waiters, w.served, w.gone);
    PresentAre(passed, w.gone, t);
  }

  /** Over all runs: the count of live values is exactly pooled + connecting + in use + sent + lost, never above
      max(min_values, max_values), no value is in two places, and nobody waits while the pool holds a value. */
  lemma {:induction false} RunIsAccounted(limits: Limits, w: World, events: seq<Event>)
    requires Initial(limits, w) && After(limits, w, events).Some?
    ensures Accounted(limits, After(limits, w, events).value) && WaitsForEmpty(After(limits, w, events).value)
  {
    if events != [] {
      var n := |events| - 1;
      RunIsAccounted(limits, w, events[..n]);
      RunIsInTurn(limits, w, events[..n]);
      NextKeepsAccounts(limits, After(limits, w, events[..n]).value, events[n]);
    }
  }

  lemma {:induction false} RunWaitsForFull(limits: Limits, w: World, events: seq<Event>)
    requires limits.maxPooled >= 1 || limits.maxValues == 0
    requires Initial(limits, w) && After(limits, w, events).Some?
    ensures WaitsForFull(limits, After(limits, w, events).value)
  {
    if events != [] {
      var n := |events| - 1;
      RunIsAccounted(limits, w, events[..n]);
      RunWaitsForFull(limits, w, events[..n]);
      NextKeepsFull(limits, After(limits, w, events[..n]).value, events[n]);
    }
  }

  /** Nobody is ever kept waiting while a value could be created, whatever happens, exactly when the pool
      may hold a value (or none may ever be created): without room in the pool a returned value is dropped
      and its capacity freed, while the waiters stay in the queue. */
  lemma WaitersGetCapacityExactlyWhen(limits: Limits, w: World)
    requires Initial(limits, w)
    ensures
      (forall events :: After(limits, w, events).Some? ==> WaitsForFull(limits, After(limits, w, events).value)) <==>
            limits.maxPooled >= 1 || limits.maxValues == 0
  {
    if limits.maxPooled >= 1 || limits.maxValues == 0 {
      forall events | After(limits, w, events).Some? ensures WaitsForFull(limits, After(limits, w, events).value) {
        RunWaitsForFull(limits, w, events);
      }
    } else {
      var events := StarvingRun(limits, w);
      assert !WaitsForFull(limits, After(limits, w, events).value);
    }
  }

  // ----- Capacity that is lost -----

  /** Returning a value that is in use never makes the count underflow. */
  lemma ReturnNeverUnderflows(limits: Limits, w: World, events: seq<Event>, v: Value)
    requires Initial(limits, w) && After(limits, w, events).Some? && v in After(limits, w, events).value.inUse
    ensures var now := After(limits, w, events).value;
      now.inner.numLive > 0 && Return(limits, now.inner, v, now.gone).1 != Underflow
    ensures Next(limits, After(limits, w, events).value, ReturnOne(v)).Some?
  {
    RunIsAccounted(limits, w, events);
    var now := After(limits, w, events).value;
    assert now.inUse != {};
  }

  /** What is lost stays lost. */
  lemma {:induction false} LostNeverShrinks(limits: Limits, w: World, events: seq<Event>)
    requires After(limits, w, events).Some?
    ensures w.lost <= After(limits, w, events).value.lost
  {
    if events != [] {
      LostNeverShrinks(limits, w, events[..|events| - 1]);
    }
  }

  /** In every reachable state: a taker gets a value exactly when one is pooled, and may create one exactly when none is
      pooled and those connecting, in use, on their way and lost together are below the limit. Lost capacity counts
      as if it were in use. */
  lemma TakerMayCreateExactlyWhen(limits: Limits, w: World, events: seq<Event>, ticket: Ticket)
    requires Initial(limits, w) && After(limits, w, events).Some?
    ensures var now := After(limits, w, events).value;
      var taken := Take(limits, now.inner, ticket).1;
      && (taken.Got? <==> now.inner.pooled != [])
      && (taken.CreateNew? <==>
            now.inner.pooled == [] && now.connecting + |now.inUse| + |now.sent| + now.lost < limits.maxValues)
  {
    RunIsAccounted(limits, w, events);
  }

  /** No value exists or is being made, and none may be made. */
  ghost predicate Dead(limits: Limits, w: World) {
    w.inner.pooled == [] && w.connecting == 0 && w.inUse == {} && w.sent == map[] && w.inner.numLive >= limits.maxValues
  }

  /** A reachable state without any value is dead exactly when the lost capacity reaches the limit. */
  lemma DeadExactlyWhen(limits: Limits, w: World, events: seq<Event>)
    requires Initial(limits, w) && After(limits, w, events).Some?
    ensures var now := After(limits, w, events).value;
      now.inner.pooled == [] && now.connecting == 0 && now.inUse == {} && now.sent == map[] ==>
        (Dead(limits, now) <==> now.lost >= limits.maxValues)
  {
    RunIsAccounted(limits, w, events);
  }

  /** A dead pool stays dead whatever happens: nobody who waits is ever served, and every later taker queues. */
  lemma {:induction false} DeadForEver(limits: Limits, w: World, events: seq<Event>, ticket: Ticket)
    requires Dead(limits, w) && After(limits, w, events).Some?
    ensures var now := After(limits, w, events).value;
      Dead(limits, now) && w.inner.waiters <= now.inner.waiters && Take(limits, now.inner, ticket).1 == Wait
  {
    if events != [] {
      DeadForEver(limits, w, events[..|events| - 1], ticket);
    }
  }

  /** For any limits, a run that kills the pool: every value there is gets dropped by its user, every connect fails.
      A pool that starts without values is killed by failing connects alone. */
  lemma DyingRun(limits: Limits, w: World) returns (events: seq<Event>)
    requires Initial(limits, w)
    ensures After(limits, w, events).Some? && Dead(limits, After(limits, w, events).value)
    ensures limits.minValues == 0 ==>
      forall i | 0 <= i < |events| :: events[i] == TakeOne(0) || events[i] == ConnectFailed
  {
    var now := w;
    events := [];
    while now.inner.pooled != [] || now.inner.numLive < limits.maxValues
      invariant After(limits, w, events) == Some(now)
      invariant NoneInUse(now) && now.inner.numLive == |now.inner.pooled| + now.lost
      invariant limits.minValues == 0 ==> now.inner.pooled == []
      invariant limits.minValues == 0 ==>
        forall i | 0 <= i < |events| :: events[i] == TakeOne(0) || events[i] == ConnectFailed
      decreases |now.inner.pooled|, Max(limits.maxValues, now.inner.numLive) - now.inner.numLive
    {
      var ev := if now.inner.pooled != [] then Forget(now.inner.pooled[|now.inner.pooled| - 1]) else ConnectFailed;
      AfterOneMore(limits, w, events, TakeOne(0));
      AfterOneMore(limits, w, events + [TakeOne(0)], ev);
      events := events + [TakeOne(0)] + [ev];
      now := Next(limits, Next(limits, now, TakeOne(0)).value, ev).value;
    }
  }

  ghost predicate NoneInUse(w: World) {
    w.gone == {} && w.sent == map[] && w.connecting == 0 && w.inUse == {} && w.inner.waiters == [] && w.queued == []
  }

  lemma AfterOneMore(limits: Limits, w: World, events: seq<Event>, ev: Event)
    requires After(limits, w, events).Some?
    ensures After(limits, w, events + [ev]) == Next(limits, After(limits, w, events).value, ev)
  {
    assert (events + [ev])[..|events|] == events;
  }

  /** Without room in the pool: take every value there may be, let one more taker wait, return all of them. */
  lemma StarvingRun(limits: Limits, w: World) returns (events: seq<Event>)
    requires Initial(limits, w) && limits.maxPooled == 0 && limits.maxValues > 0
    ensures After(limits, w, events).Some? && !WaitsForFull(limits, After(limits, w, events).value)
  {
    var now := w;
    var next: nat := 0;
    events := [];
    while now.inner.pooled != [] || now.inner.numLive < limits.maxValues
      invariant After(limits, w, events) == Some(now)
      invariant AllInUse(now) && now.inner.waiters == [] && now.inner.numLive == |now.inner.pooled| + |now.inUse|
      invariant forall v | v in now.inner.pooled :: v !in now.inUse
      invariant forall i, j | 0 <= i < j < |now.inner.pooled| :: now.inner.pooled[i] != now.inner.pooled[j]
      decreases |now.inner.pooled|, Max(limits.maxValues, now.inner.numLive) - now.inner.numLive
    {
      AfterOneMore(limits, w, events, TakeOne(0));
      if now.inner.pooled != [] {
        var n := |now.inner.pooled| - 1;
        var v := now.inner.pooled[n];
        assert v in now.inner.pooled;
        events := events + [TakeOne(0)];
        now := Next(limits, now, TakeOne(0)).value;
      } else {
        events := events + [TakeOne(0)];
        now := Next(limits, now, TakeOne(0)).value;
        var unused := Unused(now.inUse);
        AfterOneMore(limits, w, events, Connected(unused));
        events := events + [Connected(unused)];
        now := Next(limits, now, Connected(unused)).value;
      }
    }
    AfterOneMore(limits, w, events, TakeOne(0));
    events := events + [TakeOne(0)];
    now := Next(limits, now, TakeOne(0)).value;
    while now.inUse != {}
      invariant After(limits, w, events) == Some(now)
      invariant AllInUse(now) && now.inner.waiters == [0] && now.inner.pooled == [] && now.inner.numLive == |now.inUse|
      decreases |now.inUse|
    {
      var v :| v in now.inUse;
      AfterOneMore(limits, w, events, ReturnOne(v));
      events := events + [ReturnOne(v)];
      now := Next(limits, now, ReturnOne(v)).value;
    }
  }

  ghost predicate AllInUse(w: World) {
    w.gone == {} && w.sent == map[] && w.connecting == 0 && w.queued == w.inner.waiters
  }

  lemma {:induction false} Unused(s: set<nat>) returns (v: nat)
    ensures v !in s && forall x | x in s :: x < v
  {
    if s == {} {
      v := 0;
    } else {
      var x :| x in s;
      var y := Unused(s - {x});
      assert forall z | z in s :: z == x || z in s - {x};
      v := if x < y then y else x + 1;
    }
  }
}

/** A token bucket whose waiters are served in order of arrival and may give up. */
module TokenSource {
  import opened Prelude

  /** A call of `take_token`, numbered by arrival. */
  type Ticket = nat

  /** The largest `usize` of a 64-bit machine. */
  const USIZE_MAX := 0xFFFF_FFFF_FFFF_FFFF

  datatype State = State(tokens: nat, running: nat, waiting: seq<Ticket>)

  function Min(a: nat, b: nat): nat { if a < b then a else b }

  /** What a deposit comes to: no more than the slots that are not running, whatever tokens are left. */
  function Clamped(maxTokens: nat, s: State, deposit: nat): nat {
    Min(deposit, if s.running <= maxTokens then maxTokens - s.running else 0)
  }

  /** The waiters served by `left` tokens, in order; those who gave up on the way are forgotten. */
  datatype Served = Served(waiting: seq<Ticket>, granted: seq<Ticket>, left: nat)

  /** A live waiter met with no token left makes the count underflow, which happens only if there was none to begin
      with. */
  function Serve(waiting: seq<Ticket>, gone: set<Ticket>, left: nat): Outcome<Served, ()> {
    if waiting == [] then Ok(Served([], [], left))
    else if waiting[0] in gone then Serve(waiting[1..], gone, left)
    else if left == 0 then Panic
    else if left == 1 then Ok(Served(waiting[1..], [waiting[0]], 0))
    else
      var rest :- Serve(waiting[1..], gone, left - 1);
      Ok(rest.(granted := [waiting[0]] + rest.granted))
  }

  function Deposit(maxTokens: nat, s: State, deposit: nat, gone: set<Ticket>): Outcome<(State, seq<Ticket>), ()> {
    if deposit == 0 then Ok((s, []))
    else
      var r :- Serve(s.waiting, gone, Clamped(maxTokens, s, deposit));
      if s.tokens + r.left > USIZE_MAX then Panic
      else Ok((State(s.tokens + r.left, s.running + |r.granted|, r.waiting), r.granted))
  }

  function TakeOne(s: State, ticket: Ticket): (State, bool) {
    if s.tokens > 0 then (s.(tokens := s.tokens - 1, running := s.running + 1), true)
    else (s.(waiting := s.waiting + [ticket]), false)
  }

  class TokenSource {
    const maxTokens: nat
    var currTokens: nat
    var currRunning: nat
    var notifiers: seq<Ticket>

    function Value(): State
      reads this
    {
      State(currTokens, currRunning, notifiers)
    }

    constructor (maxTokens: nat)
      ensures this.maxTokens == maxTokens && Value() == State(maxTokens, 0, [])
    {
      this.maxTokens, currTokens, currRunning, notifiers := maxTokens, maxTokens, 0, [];
    }

    /** The locked part of `take_token`: false when the caller has to wait. */
    method TakeToken(ticket: Ticket) returns (granted: bool)
      modifies this
      ensures (Value(), granted) == TakeOne(old(Value()), ticket)
    {
      if currTokens > 0 {
        currTokens := currTokens - 1;
        currRunning := currRunning + 1;
        return true;
      } else {
        notifiers := notifiers + [ticket];
        return false;
      }
    }

    method RestoreSlot()
      requires currRunning > 0
      modifies this`currRunning
      ensures currRunning == old(currRunning) - 1
    {
      currRunning := currRunning - 1;
    }

    /** `gone` holds the waiters whose receiving half was dropped. */
    method AddTokens(deposit: nat, gone: set<Ticket>) returns (r: Outcome<seq<Ticket>, ()>)
      modifies this
      ensures r.Panic? <==> Deposit(maxTokens, old(Value()), deposit, gone).Panic?
      ensures !r.Panic? ==> r.Ok? && Deposit(maxTokens, old(Value()), deposit, gone) == Ok((Value(), r.value))
      ensures !r.Panic? ==> Deposited(maxTokens, old(Value()), deposit, gone, Value(), r.value)
    {
      ghost var was := Value();
      r := Add(deposit, gone);
      if r.Ok? {
        DepositIs(maxTokens, was, deposit, gone);
      }
    }

    /** Its body. */
    method Add(deposit: nat, gone: set<Ticket>) returns (r: Outcome<seq<Ticket>, ()>)
      modifies this
      ensures r.Panic? <==> Deposit(maxTokens, old(Value()), deposit, gone).Panic?
      ensures !r.Panic? ==> r.Ok? && Deposit(maxTokens, old(Value()), deposit, gone) == Ok((Value(), r.value))
    {
      if deposit == 0 {
        return Ok([]);
      }
      var left := Clamped(maxTokens, Value(), deposit);
      var granted: seq<Ticket> := [];
      ghost var all := Serve(notifiers, gone, left);
      AfterNone(all);
      while notifiers != []
        invariant currTokens == old(currTokens) && currRunning == old(currRunning) + |granted|
        invariant all == After(granted, Serve(notifiers, gone, left))
        decreases |notifiers|
      {
        var tx := notifiers[0];
        notifiers := notifiers[1..];
        if tx in gone {
          continue;
        }
        currRunning := currRunning + 1;
        if left == 0 {
          return Panic;
        }
        AfterOne(granted, tx, Serve(notifiers, gone, left - 1));
        left := left - 1;
        granted := granted + [tx];
        if left == 0 {
          assert all == Ok(Served(notifiers, granted, 0));
          break;
        }
      }
      assert granted + [] == granted;
      assert all == Ok(Served(notifiers, granted, left));
      if currTokens + left > USIZE_MAX {
        return Panic;
      }
      currTokens := currTokens + left;
      return Ok(granted);
    }
  }

  function After(granted: seq<Ticket>, r: Outcome<Served, ()>): Outcome<Served, ()> {
    if r.Ok? then Ok(r.value.(granted := granted + r.value.granted)) else r
  }

  lemma AfterNone(r: Outcome<Served, ()>)
    ensures After([], r) == r
  {
    if r.Ok? {
      assert [] + r.value.granted == r.value.granted;
    }
  }

  lemma AfterOne(granted: seq<Ticket>, tx: Ticket, r: Outcome<Served, ()>)
    ensures After(granted, if r.Ok? then Ok(r.value.(granted := [tx] + r.value.granted)) else r) ==
            After(granted + [tx], r)
  {
    if r.Ok? {
      assert granted + ([tx] + r.value.granted) == granted + [tx] + r.value.granted;
    }
  }

  lemma ServesExactly(waiting: seq<Ticket>, gone: set<Ticket>, left: nat)
    ensures Serve(waiting, gone, left).Panic? <==> left == 0 && exists t | t in waiting :: t !in gone
    ensures !Serve(waiting, gone, left).Err?
  {
    if waiting != [] {
      assert forall t | t in waiting :: t == waiting[0] || t in waiting[1..];
      assert waiting[0] in waiting;
    }
  }

  /** The waiters that did not give up. */
  function Live(waiting: seq<Ticket>, gone: set<Ticket>): seq<Ticket> {
    if waiting == [] then []
    else (if waiting[0] in gone then [] else [waiting[0]]) + Live(waiting[1..], gone)
  }

  /** Tokens go to the live waiters one each, in order, and what they do not take is left over. */
  lemma {:induction false} ServesInOrder(waiting: seq<Ticket>, gone: set<Ticket>, left: nat)
    requires Serve(waiting, gone, left).Ok?
    ensures var r, live := Serve(waiting, gone, left).value, Live(waiting, gone);
      r.granted == live[..Min(left, |live|)] && r.left == left - Min(left, |live|)
  {
    if waiting != [] {
      if waiting[0] in gone {
        ServesInOrder(waiting[1..], gone, left);
        assert [] + Live(waiting[1..], gone) == Live(waiting[1..], gone);
      } else if left > 1 {
        ServesInOrder(waiting[1..], gone, left - 1);
      } else if left == 0 {
        assert false;
      }
    }
  }

  /** The first `n` waiters are passed: those of them that did not give up are granted, the others forgotten. */
  predicate Passes(waiting: seq<Ticket>, gone: set<Ticket>, n: nat, granted: seq<Ticket>, left: seq<Ticket>) {
    n <= |waiting| && granted == Live(waiting[..n], gone) && left == waiting[n..]
  }

  /** Serving passes waiters up to the one that takes the last token, or all of them. */
  lemma {:induction false} ServePasses(waiting: seq<Ticket>, gone: set<Ticket>, tokens: nat)
    requires Serve(waiting, gone, tokens).Ok?
    ensures var r := Serve(waiting, gone, tokens).value; var n := |waiting| - |r.waiting|;
      n >= 0 && Passes(waiting, gone, n, r.granted, r.waiting) &&
      (r.waiting != [] ==> n > 0 && waiting[n - 1] !in gone)
  {
    if waiting != [] {
      var rest := waiting[1..];
      if waiting[0] in gone {
        ServePasses(rest, gone, tokens);
        PassedOneMore(waiting, gone, |rest| - |Serve(rest, gone, tokens).value.waiting|);
      } else if tokens > 1 {
        ServePasses(rest, gone, tokens - 1);
        PassedOneMore(waiting, gone, |rest| - |Serve(rest, gone, tokens - 1).value.waiting|);
      } else {
        PassedOneMore(waiting, gone, 0);
      }
    }
  }

  lemma PassedOneMore(waiting: seq<Ticket>, gone: set<Ticket>, n: nat)
    requires n < |waiting|
    ensures waiting[n + 1..] == waiting[1..][n..]
    ensures Live(waiting[..n + 1], gone) ==
            (if waiting[0] in gone then [] else [waiting[0]]) + Live(waiting[1..][..n], gone)
  {
    assert waiting[..n + 1][1..] == waiting[1..][..n];
  }

  /** What a deposit does: the clamped tokens go to the live waiters in order of arrival, one each, as far as they go;
      the queue keeps exactly the waiters behind the one served last; and what nobody takes is added to the tokens. */
  predicate Deposited(maxTokens: nat, was: State, deposit: nat, gone: set<Ticket>, now: State, granted: seq<Ticket>) {
    var tokens, n := Clamped(maxTokens, was, deposit), |was.waiting| - |now.waiting|;
    && n >= 0 && Passes(was.waiting, gone, n, granted, now.waiting)
    && (now.waiting != [] ==> if deposit == 0 then n == 0 else n > 0 && was.waiting[n - 1] !in gone)
    && |granted| == Min(tokens, |Live(was.waiting, gone)|)
    && now.tokens == was.tokens + tokens - |granted| && now.running == was.running + |granted|
  }

  lemma DepositIs(maxTokens: nat, s: State, deposit: nat, gone: set<Ticket>)
    requires Deposit(maxTokens, s, deposit, gone).Ok?
    ensures var (now, granted) := Deposit(maxTokens, s, deposit, gone).value;
      Deposited(maxTokens, s, deposit, gone, now, granted)
  {
    if deposit > 0 {
      ServesInOrder(s.waiting, gone, Clamped(maxTokens, s, deposit));
      ServePasses(s.waiting, gone, Clamped(maxTokens, s, deposit));
    }
  }

  lemma {:induction false} LiveAre(waiting: seq<Ticket>, gone: set<Ticket>, t: Ticket)
    ensures t in Live(waiting, gone) <==> t in waiting && t !in gone
  {
    if waiting != [] {
      LiveAre(waiting[1..], gone, t);
      assert waiting == [waiting[0]] + waiting[1..];
    }
  }

  /** How many tokens a deposit leaves over. */
  function LeftOver(maxTokens: nat, s: State, deposit: nat, gone: set<Ticket>): nat {
    var tokens, live := Clamped(maxTokens, s, deposit), |Live(s.waiting, gone)|;
    tokens - Min(tokens, live)
  }

  /** A deposit panics exactly when it comes to nothing, every slot running, while someone is still waiting, so that the
      tokens to give underflow; or when the tokens left over make the count of tokens overflow. */
  lemma DepositPanicsExactlyWhen(maxTokens: nat, s: State, deposit: nat, gone: set<Ticket>)
    ensures Deposit(maxTokens, s, deposit, gone).Panic? <==>
            deposit > 0 &&
            ((s.running >= maxTokens && exists t | t in s.waiting :: t !in gone) ||
             s.tokens + LeftOver(maxTokens, s, deposit, gone) > USIZE_MAX)
  {
    var tokens := Clamped(maxTokens, s, deposit);
    ServesExactly(s.waiting, gone, tokens);
    if Serve(s.waiting, gone, tokens).Ok? {
      ServesInOrder(s.waiting, gone, tokens);
    }
  }

  // ----- The source and its users -----

  /** With the source: who gave up, the grants in the order they were made, how many slots were restored,
      the sum of the deposits as clamped, and the next ticket. */
  datatype World = World(s: State, gone: set<Ticket>, grants: seq<Ticket>, restored: nat, deposited: nat, next: Ticket)

  datatype Event = Arrive | GiveUp(ticket: Ticket) | Restore | Add(deposit: nat)

  /** What an event does, if it can happen without a panic. */
  function Next(maxTokens: nat, w: World, ev: Event): Option<World> {
    match ev
    case Arrive =>
      var (s, granted) := TakeOne(w.s, w.next);
      Some(w.(s := s, next := w.next + 1, grants := if granted then w.grants + [w.next] else w.grants))
    case GiveUp(ticket) =>
      if ticket in w.s.waiting then Some(w.(gone := w.gone + {ticket})) else None
    case Restore =>
      if w.s.running == 0 then None
      else Some(w.(s := w.s.(running := w.s.running - 1), restored := w.restored + 1))
    case Add(deposit) =>
      match Deposit(maxTokens, w.s, deposit, w.gone)
      case Ok((s, granted)) =>
        Some(w.(s := s, grants := w.grants + granted, deposited := w.deposited + Clamped(maxTokens, w.s, deposit)))
      case _ => None
  }

  /** Strictly ascending and below `bound`. */
  predicate InOrder(ts: seq<Ticket>, bound: Ticket) {
    (forall i, j | 0 <= i < j < |ts| :: ts[i] < ts[j]) && forall i | 0 <= i < |ts| :: ts[i] < bound
  }

  lemma SkipOne(before: seq<Ticket>, first: Ticket, rest: seq<Ticket>, bound: Ticket)
    requires InOrder(before + [first] + rest, bound)
    ensures InOrder(before + rest, bound)
  {
    var all := before + [first] + rest;
    assert forall i | 0 <= i < |before + rest| :: (before + rest)[i] == all[if i < |before| then i else i + 1];
  }

  /** Tokens are conserved, running slots are the grants not restored, a token is only left over when nobody waits,
      and grants and then waiters are in order of arrival. */
  ghost predicate Kept(maxTokens: nat, w: World) {
    && |w.grants| + w.s.tokens == maxTokens + w.deposited
    && w.s.running + w.restored == |w.grants|
    && (w.s.waiting != [] ==> w.s.tokens == 0)
    && InOrder(w.grants + w.s.waiting, w.next)
  }

  /** What serving keeps: the granted and then the waiting stay in order; every token is granted or left over;
      and none is left over unless the queue is empty. */
  lemma {:induction false} ServeKeeps(
      before: seq<Ticket>, waiting: seq<Ticket>, gone: set<Ticket>, left: nat, bound: Ticket)
    requires Serve(waiting, gone, left).Ok? && InOrder(before + waiting, bound)
    ensures var r := Serve(waiting, gone, left).value;
      && InOrder(before + r.granted + r.waiting, bound)
      && |r.granted| + r.left == left
      && (r.waiting != [] ==> r.left == 0)
    decreases |waiting|
  {
    if waiting == [] {
      assert before + [] + [] == before + waiting;
    } else {
      var first, rest := waiting[0], waiting[1..];
      assert before + waiting == before + [first] + rest;
      if first in gone {
        SkipOne(before, first, rest, bound);
        ServeKeeps(before, rest, gone, left, bound);
      } else if left > 1 {
        ServeKeeps(before + [first], rest, gone, left - 1, bound);
        Assoc(before, [first], Serve(rest, gone, left - 1).value.granted);
      }
    }
  }

  lemma NextKeeps(maxTokens: nat, w: World, ev: Event)
    requires Kept(maxTokens, w) && Next(maxTokens, w, ev).Some?
    ensures Kept(maxTokens, Next(maxTokens, w, ev).value)
  {
    match ev
    case Arrive =>
      if w.s.tokens > 0 {
        assert w.s.waiting == [] && w.grants + [] == w.grants && w.grants + [w.next] + [] == w.grants + [w.next];
      } else {
        Assoc(w.grants, w.s.waiting, [w.next]);
      }
    case GiveUp(_) =>
    case Restore =>
    case Add(deposit) =>
      if deposit > 0 {
        ServeKeeps(w.grants, w.s.waiting, w.gone, Clamped(maxTokens, w.s, deposit), w.next);
      } else {
        assert w.grants + [] == w.grants;
      }
  }

  function RunFrom(maxTokens: nat, events: seq<Event>): Option<World> {
    if events == [] then Some(World(State(maxTokens, 0, []), {}, [], 0, 0, 0))
    else
      var before := RunFrom(maxTokens, events[..|events| - 1]);
      if before.None? then None else Next(maxTokens, before.value, events[|events| - 1])
  }

  /** Over all runs without a panic: grants + tokens = max_tokens + clamped deposits, running = grants - restored,
      no token lies idle while someone waits, and grants are made strictly in order of arrival. */
  lemma {:induction false} RunKeeps(maxTokens: nat, events: seq<Event>)
    requires RunFrom(maxTokens, events).Some?
    ensures Kept(maxTokens, RunFrom(maxTokens, events).value)
  {
    if events != [] {
      var n := |events| - 1;
      RunKeeps(maxTokens, events[..n]);
      NextKeeps(maxTokens, RunFrom(maxTokens, events[..n]).value, events[n]);
    }
  }

  /** Over all runs nobody is forgotten: whoever arrived was granted a token, gave up, or still waits. */
  lemma {:induction false} NobodyIsForgotten(maxTokens: nat, events: seq<Event>, t: Ticket)
    requires RunFrom(maxTokens, events).Some? && t < RunFrom(maxTokens, events).value.next
    ensures Known(RunFrom(maxTokens, events).value, t)
  {
    if events != [] {
      var n := |events| - 1;
      var w := RunFrom(maxTokens, events[..n]).value;
      if t < w.next {
        NobodyIsForgotten(maxTokens, events[..n], t);
      }
      StillKnown(maxTokens, w, events[n], t);
    }
  }

  predicate Known(w: World, t: Ticket) {
    t in w.grants || t in w.gone || t in w.s.waiting
  }

  lemma StillKnown(maxTokens: nat, w: World, ev: Event, t: Ticket)
    requires Next(maxTokens, w, ev).Some? && (t < w.next ==> Known(w, t)) && t < Next(maxTokens, w, ev).value.next
    ensures Known(Next(maxTokens, w, ev).value, t)
  {
    if ev.Add? && ev.deposit > 0 {
      var waiting := w.s.waiting;
      var r := Serve(waiting, w.gone, Clamped(maxTokens, w.s, ev.deposit)).value;
      ServePasses(waiting, w.gone, Clamped(maxTokens, w.s, ev.deposit));
      var n := |waiting| - |r.waiting|;
      assert waiting == waiting[..n] + waiting[n..];
      LiveAre(waiting[..n], w.gone, t);
    }
  }

  /** Whoever is granted a token arrived before everyone who still waits: nobody overtakes. */
  lemma NoOvertaking(maxTokens: nat, events: seq<Event>, granted: Ticket, waiter: Ticket)
    requires RunFrom(maxTokens, events).Some?
    requires granted in RunFrom(maxTokens, events).value.grants && waiter in RunFrom(maxTokens, events).value.s.waiting
    ensures granted < waiter
  {
    RunKeeps(maxTokens, events);
    var w := RunFrom(maxTokens, events).value;
    var i :| 0 <= i < |w.grants| && w.grants[i] == granted;
    var j :| 0 <= j < |w.s.waiting| && w.s.waiting[j] == waiter;
    assert (w.grants + w.s.waiting)[i] == granted && (w.grants + w.s.waiting)[|w.grants| + j] == waiter;
  }

  lemma RunOneMore(maxTokens: nat, events: seq<Event>, ev: Event)
    requires RunFrom(maxTokens, events).Some?
    ensures RunFrom(maxTokens, events + [ev]) == Next(maxTokens, RunFrom(maxTokens, events).value, ev)
  {
    assert (events + [ev])[..|events|] == events;
  }

  lemma IdleDeposit(maxTokens: nat, w: World)
    requires maxTokens > 0 && w.s.running == 0 && w.s.waiting == []
    ensures w.s.tokens < USIZE_MAX ==>
      Next(maxTokens, w, Add(1)).Some? && Next(maxTokens, w, Add(1)).value.s == State(w.s.tokens + 1, 0, [])
    ensures w.s.tokens == USIZE_MAX ==> Next(maxTokens, w, Add(1)).None?
  {
  }

  /** Tokens and running slots together are within the limit. */
  predicate Bounded(maxTokens: nat, s: State) {
    s.tokens + s.running <= maxTokens
  }

  /** Either no token is left over from before, or there is room for the whole deposit. */
  predicate DepositFits(maxTokens: nat, s: State, deposit: nat) {
    s.tokens == 0 || s.tokens + s.running + deposit <= maxTokens
  }

  /** A deposit keeps the bound exactly when it fits. */
  lemma DepositKeepsBoundExactlyWhen(maxTokens: nat, s: State, deposit: nat, gone: set<Ticket>)
    requires Bounded(maxTokens, s) && Deposit(maxTokens, s, deposit, gone).Ok?
    ensures Bounded(maxTokens, Deposit(maxTokens, s, deposit, gone).value.0) <==> DepositFits(maxTokens, s, deposit)
  {
    if deposit > 0 {
      ServesInOrder(s.waiting, gone, Clamped(maxTokens, s, deposit));
    }
  }

  /** The deposit of an event fits; other events are no deposits. */
  predicate EventFits(maxTokens: nat, w: World, ev: Event) {
    ev.Add? ==> DepositFits(maxTokens, w.s, ev.deposit)
  }

  lemma NextKeepsBoundExactlyWhen(maxTokens: nat, w: World, ev: Event)
    requires Bounded(maxTokens, w.s) && Next(maxTokens, w, ev).Some?
    ensures Bounded(maxTokens, Next(maxTokens, w, ev).value.s) <==> EventFits(maxTokens, w, ev)
  {
    if ev.Add? {
      DepositKeepsBoundExactlyWhen(maxTokens, w.s, ev.deposit, w.gone);
    }
  }

  /** The bound holds after the run and after every shorter part of it. */
  predicate BoundedThroughout(maxTokens: nat, events: seq<Event>)
    requires RunFrom(maxTokens, events).Some?
  {
    && Bounded(maxTokens, RunFrom(maxTokens, events).value.s)
    && (events != [] ==> BoundedThroughout(maxTokens, events[..|events| - 1]))
  }

  /** Every deposit of the run fitted when it was made. */
  predicate FitsThroughout(maxTokens: nat, events: seq<Event>)
    requires RunFrom(maxTokens, events).Some?
  {
    events != [] ==>
      var before := events[..|events| - 1];
      && EventFits(maxTokens, RunFrom(maxTokens, before).value, events[|events| - 1])
      && FitsThroughout(maxTokens, before)
  }

  /** In a run without a panic the bound holds in every state exactly when every deposit fitted when it was made. */
  lemma {:induction false} RunIsBoundedExactlyWhen(maxTokens: nat, events: seq<Event>)
    requires RunFrom(maxTokens, events).Some?
    ensures BoundedThroughout(maxTokens, events) <==> FitsThroughout(maxTokens, events)
  {
    if events != [] {
      var n := |events| - 1;
      RunIsBoundedExactlyWhen(maxTokens, events[..n]);
      if BoundedThroughout(maxTokens, events[..n]) {
        NextKeepsBoundExactlyWhen(maxTokens, RunFrom(maxTokens, events[..n]).value, events[n]);
      }
    }
  }

  /** The clamp looks at running slots only, so it does not bound the tokens: deposits into an idle source pile up,
      as far as the count goes. */
  lemma {:induction false} IdleDepositsPileUp(maxTokens: nat, k: nat) returns (events: seq<Event>)
    requires maxTokens > 0 && maxTokens + k <= USIZE_MAX
    ensures RunFrom(maxTokens, events).Some?
    ensures RunFrom(maxTokens, events).value.s == State(maxTokens + k, 0, [])
  {
    events := [];
    if k > 0 {
      events := IdleDepositsPileUp(maxTokens, k - 1);
      RunOneMore(maxTokens, events, Add(1));
      IdleDeposit(maxTokens, RunFrom(maxTokens, events).value);
      events := events + [Add(1)];
    }
  }

  /** There the next deposit panics. */
  lemma IdleDepositsOverflow(maxTokens: nat) returns (events: seq<Event>)
    requires 0 < maxTokens <= USIZE_MAX
    ensures RunFrom(maxTokens, events).Some?
    ensures Deposit(maxTokens, RunFrom(maxTokens, events).value.s, 1, RunFrom(maxTokens, events).value.gone) == Panic
  {
    events := IdleDepositsPileUp(maxTokens, USIZE_MAX - maxTokens);
    IdleDeposit(maxTokens, RunFrom(maxTokens, events).value);
  }

  /** One slot, one runner, one waiter: the next deposit panics. */
  lemma BusySourcePanics()
    ensures var w := RunFrom(1, [Arrive, Arrive]);
      w.Some? && w.value.s == State(0, 1, [1]) && Next(1, w.value, Add(1)).None?
  {
    RunOneMore(1, [], Arrive);
    RunOneMore(1, [Arrive], Arrive);
    assert [] + [Arrive] == [Arrive] && [Arrive] + [Arrive] == [Arrive, Arrive];
    DepositPanicsExactlyWhen(1, State(0, 1, [1]), 1, {});
  }
}

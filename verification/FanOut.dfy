/** The in-memory message broker: topics, subscriptions, and the forwarding loop of each subscription. */
module FanOut {
  import opened Prelude

  const U64_MAX := 0xFFFF_FFFF_FFFF_FFFF

  type Id = nat
  type Topic = string
  type Msg = string

  /** The sending half of a subscriber's channel; sends fail once the subscriber dropped the other half. */
  type Outlet = nat

  // ----- Ids -----

  class IdGen {
    var nextId: nat
    var freeList: seq<Id>

    constructor ()
      ensures nextId == 0 && freeList == []
    {
      nextId, freeList := 0, [];
    }

    /** Ids are handed out from the free list first; as nothing puts an id there, each is above all before it. */
    method GenId() returns (r: Outcome<Id, ()>)
      modifies this
      ensures freeList == [] || old(freeList) != []
      ensures old(freeList) == [] && old(nextId) == U64_MAX ==> r == Panic && nextId == old(nextId)
      ensures old(freeList) == [] && old(nextId) != U64_MAX ==> r == Ok(old(nextId)) && nextId == old(nextId) + 1
      ensures old(freeList) != [] ==>
        var last := |old(freeList)| - 1;
        r == Ok(old(freeList)[last]) && freeList == old(freeList)[..last] && nextId == old(nextId)
    {
      if freeList != [] {
        var last := |freeList| - 1;
        r := Ok(freeList[last]);
        freeList := freeList[..last];
      } else if nextId == U64_MAX {
        r := Panic;
      } else {
        r := Ok(nextId);
        nextId := nextId + 1;
      }
    }
  }

  // ----- The connected outlet -----

  /** `pending` holds the outlets that were sent to the cell and not picked up yet. */
  datatype Cell = Cell(pending: seq<Outlet>, current: Option<Outlet>) {
    /** `borrow`, when it does not have to wait. */
    function Borrowed(): Cell
      requires current.Some? || pending != []
    {
      if current.Some? then this else Cell(pending[1..], Some(pending[0]))
    }

    /** The outlets that will be tried, in order. */
    function Candidates(): seq<Outlet> {
      (if current.Some? then [current.value] else []) + pending
    }
  }

  /** What a borrow comes to: the outlet, or a wait for one, or an error when none can come any more. */
  datatype Lent = Lent(outlet: Outlet) | Waits | ReplacerDropped

  class OptCell {
    var replacer: seq<Outlet>
    var currData: Option<Outlet>
    /** The sending half of the replacer still exists. */
    var connected: bool

    function Value(): Cell
      reads this
    {
      Cell(replacer, currData)
    }

    constructor ()
      ensures Value() == Cell([], None) && connected
    {
      replacer, currData, connected := [], None, true;
    }

    method Borrow() returns (r: Lent)
      modifies this`currData, this`replacer
      ensures r == Waits <==> old(currData).None? && old(replacer) == [] && connected
      ensures r == ReplacerDropped <==> old(currData).None? && old(replacer) == [] && !connected
      ensures !r.Lent? ==> Value() == old(Value())
      ensures r.Lent? ==> Value() == old(Value()).Borrowed() && currData == Some(r.outlet)
    {
      if currData.None? {
        if replacer == [] {
          return if connected then Waits else ReplacerDropped;
        }
        currData := Some(replacer[0]);
        replacer := replacer[1..];
      }
      return Lent(currData.value);
    }

    method DropValue()
      modifies this`currData
      ensures currData == None
    {
      currData := None;
    }

    /** The outlets that will be tried, in order. */
    ghost function Candidates(): seq<Outlet>
      reads this
    {
      Value().Candidates()
    }
  }

  /** How many outlets at the front are closed. */
  function ClosedBefore(outlets: seq<Outlet>, closed: set<Outlet>): (n: nat)
    ensures n <= |outlets|
    ensures forall i | 0 <= i < n :: outlets[i] in closed
    ensures n < |outlets| ==> outlets[n] !in closed
  {
    if outlets == [] || outlets[0] !in closed then 0 else 1 + ClosedBefore(outlets[1..], closed)
  }

  /** What becomes of one message: an outlet accepts it, or the loop waits for an outlet and may time out,
      or it returns at once because none can come. */
  datatype Forwarding = AcceptedBy(outlet: Outlet) | StillWaits | Returns

  /** The inner loop of a subscription for one message: outlets that turn out closed are dropped, until one accepts
      the message or none is left. */
  method ForwardOne(cell: OptCell, closed: set<Outlet>) returns (r: Forwarding, dropped: nat)
    modifies cell`currData, cell`replacer
    ensures dropped == ClosedBefore(old(cell.Candidates()), closed)
    ensures cell.Candidates() == old(cell.Candidates())[dropped..]
    ensures r.AcceptedBy? <==> dropped < |old(cell.Candidates())|
    ensures r == Returns <==> dropped == |old(cell.Candidates())| && !cell.connected
    ensures r.AcceptedBy? ==>
      r.outlet == old(cell.Candidates())[dropped] && r.outlet !in closed && cell.currData == Some(r.outlet)
  {
    ghost var all := cell.Candidates();
    dropped := 0;
    assert all[0..] == all;
    while true
      invariant PassedOver(all, closed, dropped, cell.Candidates())
      decreases |cell.Candidates()|
    {
      ghost var now := cell.Candidates();
      var lent := TryBorrow(cell);
      if !lent.Lent? {
        r := if lent.Waits? then StillWaits else Returns;
        return;
      }
      if lent.outlet !in closed {
        r := AcceptedBy(lent.outlet);
        return;
      }
      cell.DropValue();
      OneDropped(all, closed, dropped, now);
      dropped := dropped + 1;
    }
  }

  /** The first `dropped` of all outlets were closed; `now` are the others. */
  ghost predicate PassedOver(all: seq<Outlet>, closed: set<Outlet>, dropped: nat, now: seq<Outlet>) {
    && dropped <= |all| && now == all[dropped..]
    && ClosedBefore(all, closed) == dropped + ClosedBefore(now, closed)
  }

  lemma OneDropped(all: seq<Outlet>, closed: set<Outlet>, dropped: nat, now: seq<Outlet>)
    requires PassedOver(all, closed, dropped, now) && now != [] && now[0] in closed
    ensures PassedOver(all, closed, dropped + 1, now[1..])
  {
    assert now[1..] == all[dropped + 1..];
  }

  /** Borrowing picks the first candidate and leaves the candidates as they are. */
  method TryBorrow(cell: OptCell) returns (r: Lent)
    modifies cell`currData, cell`replacer
    ensures cell.Candidates() == old(cell.Candidates())
    ensures !r.Lent? ==> cell.Candidates() == [] && (r == Waits <==> cell.connected)
    ensures r.Lent? ==>
      && cell.currData == Some(r.outlet) && cell.Candidates() != [] && cell.Candidates()[0] == r.outlet
      && cell.replacer == cell.Candidates()[1..]
  {
    r := cell.Borrow();
  }

  // ----- Subscriptions -----

  /** `queue` and `inHand`: the messages the forwarding loop has not passed on yet; `alive`: it still runs;
      `tried`: the outlets it picked up, in order; `accepted`: what each of them accepted;
      `since`: how many messages had been published when it was created. */
  datatype Sub = Sub(
    topic: Topic, queue: seq<Msg>, inHand: seq<Msg>, cell: Cell, alive: bool, accepted: seq<seq<Msg>>, since: nat,
    tried: seq<Outlet>)
  {
    function Passed(): seq<Msg> {
      Flat(accepted) + inHand + queue
    }
  }

  function Flat(parts: seq<seq<Msg>>): seq<Msg> {
    if parts == [] then [] else Flat(parts[..|parts| - 1]) + parts[|parts| - 1]
  }

  type Subs = map<Id, Sub>

  /** The message put in the queue of the subscriptions `ids`. */
  function Queued(subs: Subs, ids: set<Id>, msg: Msg): Subs {
    map id | id in subs :: if id in ids then subs[id].(queue := subs[id].queue + [msg]) else subs[id]
  }

  class BrokerState {
    var topics: map<Topic, set<Id>>
    var subscriptions: Subs
    const subIdGen: IdGen

    /** A subscriber is listed under a topic exactly when its subscription is to that topic. */
    ghost predicate Indexed()
      reads this
    {
      CrossIndex(topics, subscriptions)
    }

    ghost predicate Valid()
      reads this, subIdGen
    {
      Indexed() && subIdGen.freeList == [] && forall id | id in subscriptions :: id < subIdGen.nextId
    }

    constructor ()
      ensures Valid() && topics == map[] && subscriptions == map[]
      ensures fresh(subIdGen)
    {
      topics, subscriptions := map[], map[];
      subIdGen := new IdGen();
    }

    /** `add_subscriber`: the id is new, and the subscription starts with the listener as its outlet. */
    method AddSubscriber(topic: Topic, listener: Outlet, published: nat) returns (r: Outcome<Id, ()>)
      requires Valid()
      modifies this, subIdGen
      ensures Valid() && (r.Panic? <==> old(subIdGen.nextId) == U64_MAX) && !r.Err?
      ensures r.Panic? ==> topics == old(topics) && subscriptions == old(subscriptions)
      ensures r.Ok? ==>
        && r.value !in old(subscriptions)
        && subscriptions == old(subscriptions)[r.value := NewSub(topic, listener, published)]
        && topics == Listed(old(topics), topic, r.value)
      ensures r.Ok? ==>
        var sub := subscriptions[r.value];
        && sub.cell.Candidates() == [listener] && sub.alive && sub.topic == topic && r.value in topics[topic]
        && sub.queue == [] && sub.inHand == [] && sub.accepted == [] && sub.since == published
    {
      var newId :- subIdGen.GenId();
      subscriptions := subscriptions[newId := NewSub(topic, listener, published)];
      topics := topics[topic := (if topic in topics then topics[topic] else {}) + {newId}];
      ListedKeepsIndex(old(topics), old(subscriptions), topic, newId, NewSub(topic, listener, published));
      return Ok(newId);
    }

    /** `publish_message`: the subscribers of the topic get the message in the order of their ids, up to the first
        one whose forwarding loop has returned: there the send fails and the unwrap panics. */
    method PublishMessage(topic: Topic, msg: Msg) returns (done: bool)
      requires Valid()
      modifies this`subscriptions
      ensures Valid()
      ensures done <==> AllAlive(old(subscriptions), Subscribers(topics, topic))
      ensures subscriptions == Queued(old(subscriptions), Reached(old(subscriptions), Subscribers(topics, topic)), msg)
    {
      ghost var before, served := subscriptions, {};
      done := true;
      var rest := if topic in topics then topics[topic] else {};
      assert Queued(before, served, msg) == before;
      while rest != {} && done
        invariant AreServed(before, Subscribers(topics, topic), served, rest)
        invariant subscriptions == Queued(before, served, msg)
        invariant !done ==> rest != {} && IsStuck(before, rest)
        decreases |rest|, done
      {
        var id := Least(rest);
        QueuedOneMore(before, served, id, msg);
        done := Publish(id, msg);
        if done {
          ServedOneMore(before, Subscribers(topics, topic), served, rest, id);
          rest := rest - {id};
          served := served + {id};
        }
      }
      ReachedIs(before, Subscribers(topics, topic), served, rest);
      QueuedKeepsIndex(topics, before, served, msg);
    }

    /** `SubscriptionState::publish`: it fails when the forwarding loop has returned. */
    method Publish(id: Id, msg: Msg) returns (sent: bool)
      requires id in subscriptions
      modifies this`subscriptions
      ensures sent <==> old(subscriptions)[id].alive
      ensures subscriptions ==
        if sent then old(subscriptions)[id := old(subscriptions)[id].(queue := old(subscriptions)[id].queue + [msg])]
        else old(subscriptions)
    {
      sent := subscriptions[id].alive;
      if sent {
        subscriptions := subscriptions[id := subscriptions[id].(queue := subscriptions[id].queue + [msg])];
      }
    }
  }

  predicate AllAlive(subs: Subs, ids: set<Id>) {
    forall id | id in ids && id in subs :: subs[id].alive
  }

  /** The subscribers before the first one, in the order of ids, whose forwarding loop has returned. */
  function Reached(subs: Subs, ids: set<Id>): set<Id> {
    set id | id in ids && !ReturnedUpTo(subs, ids, id)
  }

  predicate ReturnedUpTo(subs: Subs, ids: set<Id>, id: Id) {
    exists stuck | stuck in ids :: stuck <= id && stuck in subs && !subs[stuck].alive
  }

  /** Part of the way through a publish: `served` got the message, `rest`, all with higher ids, did not yet. */
  ghost predicate AreServed(subs: Subs, ids: set<Id>, served: set<Id>, rest: set<Id>) {
    && ids == served + rest && ids <= subs.Keys
    && (forall id, later | id in served && later in rest :: id < later)
    && AllAlive(subs, served)
  }

  lemma ServedOneMore(subs: Subs, ids: set<Id>, served: set<Id>, rest: set<Id>, id: Id)
    requires AreServed(subs, ids, served, rest) && id in rest && subs[id].alive
    requires forall later | later in rest :: id <= later
    ensures AreServed(subs, ids, served + {id}, rest - {id}) && |rest - {id}| < |rest|
  {
    assert |rest - {id}| == |rest| - 1;
  }

  ghost predicate IsStuck(subs: Subs, rest: set<Id>) {
    exists id | id in rest && id in subs :: !subs[id].alive && forall later | later in rest :: id <= later
  }

  lemma ReachedIs(subs: Subs, ids: set<Id>, served: set<Id>, rest: set<Id>)
    requires AreServed(subs, ids, served, rest) && (rest == {} || IsStuck(subs, rest))
    ensures Reached(subs, ids) == served && (AllAlive(subs, ids) <==> rest == {})
  {
    forall id | id in ids ensures ReturnedUpTo(subs, ids, id) <==> id in rest {
    }
  }

  lemma QueuedKeepsIndex(topics: map<Topic, set<Id>>, subs: Subs, ids: set<Id>, msg: Msg)
    requires CrossIndex(topics, subs)
    ensures CrossIndex(topics, Queued(subs, ids, msg))
  {
  }

  lemma QueuedOneMore(subs: Subs, served: set<Id>, id: Id, msg: Msg)
    requires id in subs && id !in served
    ensures var before := Queued(subs, served, msg);
      before[id] == subs[id] &&
      before[id := before[id].(queue := before[id].queue + [msg])] == Queued(subs, served + {id}, msg)
  {
  }

  function NewSub(topic: Topic, listener: Outlet, published: nat): Sub {
    Sub(topic, [], [], Cell([listener], None), true, [], published, [])
  }

  function Subscribers(topics: map<Topic, set<Id>>, topic: Topic): set<Id> {
    if topic in topics then topics[topic] else {}
  }

  function Listed(topics: map<Topic, set<Id>>, topic: Topic, id: Id): map<Topic, set<Id>> {
    topics[topic := Subscribers(topics, topic) + {id}]
  }

  ghost predicate CrossIndex(topics: map<Topic, set<Id>>, subs: Subs) {
    && (forall t, id | t in topics && id in topics[t] :: id in subs && subs[id].topic == t)
    && (forall id | id in subs :: subs[id].topic in topics && id in topics[subs[id].topic])
  }

  lemma ListedKeepsIndex(topics: map<Topic, set<Id>>, subs: Subs, topic: Topic, id: Id, sub: Sub)
    requires CrossIndex(topics, subs) && id !in subs && sub.topic == topic
    ensures CrossIndex(Listed(topics, topic, id), subs[id := sub])
  {
  }

  // ----- The broker, its forwarding loops, and its subscribers -----

  /** `up`: the event loop has not panicked; `log`: everything published, with its topic, in order. */
  datatype World = World(
    up: bool, topics: map<Topic, set<Id>>, subs: Subs, nextId: nat, log: seq<(Topic, Msg)>, closed: set<Outlet>)

  datatype Event =
    | Subscribe(topic: Topic, listener: Outlet)
    | Publish(topic: Topic, msg: Msg)
    | Replace(id: Id, listener: Outlet)
    | CloseOutlet(outlet: Outlet)
    | Receive(id: Id)
    | Borrow(id: Id)
    | Send(id: Id)
    | TimeOut(id: Id)

  /** What an event does, if it can happen. The last four are the steps of a subscription's forwarding loop:
      it takes a message, waits for an outlet, sends, and gives up when none came in time or none can come. */
  function Next(w: World, ev: Event): Option<World> {
    match ev
    case Subscribe(topic, listener) =>
      if !w.up || w.nextId == U64_MAX then None
      else
        Some(w.(nextId := w.nextId + 1, topics := Listed(w.topics, topic, w.nextId),
                subs := w.subs[w.nextId := NewSub(topic, listener, |w.log|)]))
    case Publish(topic, msg) =>
      if !w.up then None
      else
        var ids := Subscribers(w.topics, topic);
        Some(w.(up := AllAlive(w.subs, ids), log := w.log + [(topic, msg)],
                subs := Queued(w.subs, Reached(w.subs, ids), msg)))
    case CloseOutlet(outlet) =>
      Some(w.(closed := w.closed + {outlet}))
    case _ =>
      if ev.id !in w.subs || !w.subs[ev.id].alive then None
      else
        match LoopStep(w.subs[ev.id], ev, w.closed)
        case None => None
        case Some(sub) => Some(w.(subs := w.subs[ev.id := sub]))
  }

  predicate IsLoopStep(ev: Event) { ev.Replace? || ev.Receive? || ev.Borrow? || ev.Send? || ev.TimeOut? }

  function LoopStep(sub: Sub, ev: Event, closed: set<Outlet>): Option<Sub>
    requires IsLoopStep(ev)
  {
    match ev
    case Replace(_, listener) =>
      Some(sub.(cell := sub.cell.(pending := sub.cell.pending + [listener])))
    case Receive(_) =>
      if sub.inHand != [] || sub.queue == [] then None
      else Some(sub.(inHand := [sub.queue[0]], queue := sub.queue[1..]))
    case Borrow(_) =>
      if sub.inHand == [] || sub.cell.current.Some? || sub.cell.pending == [] then None
      else
        Some(sub.(cell := sub.cell.Borrowed(), accepted := sub.accepted + [[]],
                  tried := sub.tried + [sub.cell.pending[0]]))
    case Send(_) =>
      if sub.inHand == [] || sub.cell.current.None? || sub.accepted == [] then None
      else if sub.cell.current.value in closed then Some(sub.(cell := sub.cell.(current := None)))
      else
        var last := |sub.accepted| - 1;
        Some(sub.(inHand := [], accepted := sub.accepted[..last] + [sub.accepted[last] + sub.inHand]))
    case TimeOut(_) =>
      if sub.inHand == [] || sub.cell.current.Some? then None else Some(sub.(alive := false))
  }

  /** The messages published on a topic, from a point in the log on. */
  function Published(log: seq<(Topic, Msg)>, topic: Topic): seq<Msg> {
    if log == [] then []
    else
      var n := |log| - 1;
      Published(log[..n], topic) + (if log[n].0 == topic then [log[n].1] else [])
  }

  function PublishedTo(w: World, sub: Sub): seq<Msg>
    requires sub.since <= |w.log|
  {
    Published(w.log[sub.since..], sub.topic)
  }

  ghost predicate Inv(w: World) {
    && CrossIndex(w.topics, w.subs)
    && forall id | id in w.subs :: id < w.nextId && Forwards(w, w.subs[id])
  }

  /** What the outlets accepted, then what is still to be passed on, is what was published on the topic since,
      in order: all of it while the broker runs and the loop has not given up, and never anything else. */
  ghost predicate Forwards(w: World, sub: Sub) {
    && sub.since <= |w.log| && |sub.inHand| <= 1
    && sub.Passed() <= PublishedTo(w, sub)
    && (w.up && sub.alive ==> sub.Passed() == PublishedTo(w, sub))
    && (sub.cell.current.Some? ==> sub.accepted != [])
  }

  lemma PublishedSnoc(log: seq<(Topic, Msg)>, topic: Topic, entry: (Topic, Msg))
    ensures Published(log + [entry], topic) == Published(log, topic) + (if entry.0 == topic then [entry.1] else [])
  {
    assert (log + [entry])[..|log|] == log;
  }

  lemma FlatSnoc(parts: seq<seq<Msg>>, part: seq<Msg>)
    ensures Flat(parts + [part]) == Flat(parts) + part
  {
    assert (parts + [part])[..|parts|] == parts;
  }

  /** Everything published later, whether or not this subscription got it. */
  lemma LogGrows(w: World, w': World, sub: Sub, sub': Sub, topic: Topic, msg: Msg)
    requires Forwards(w, sub) && w'.log == w.log + [(topic, msg)] && (w'.up ==> w.up)
    requires
      || sub' == sub
      || (sub' == sub.(queue := sub.queue + [msg]) && topic == sub.topic && sub.Passed() == PublishedTo(w, sub))
    requires w'.up && sub.alive && topic == sub.topic ==> sub' != sub
    ensures Forwards(w', sub')
  {
    assert w'.log[sub.since..] == w.log[sub.since..] + [(topic, msg)];
    PublishedSnoc(w.log[sub.since..], sub.topic, (topic, msg));
    assert sub.(queue := sub.queue + [msg]).Passed() == sub.Passed() + [msg];
    assert PublishedTo(w, sub) + [] == PublishedTo(w, sub);
  }

  lemma PublishKeepsInv(w: World, topic: Topic, msg: Msg)
    requires Inv(w) && Next(w, Publish(topic, msg)).Some?
    ensures Inv(Next(w, Publish(topic, msg)).value)
  {
    var w' := Next(w, Publish(topic, msg)).value;
    if w'.up {
      ReachedIs(w.subs, Subscribers(w.topics, topic), Subscribers(w.topics, topic), {});
    }
    forall id | id in w'.subs ensures Forwards(w', w'.subs[id]) {
      assert Forwards(w, w.subs[id]);
      assert id in Subscribers(w.topics, topic) <==> w.subs[id].topic == topic;
      LogGrows(w, w', w.subs[id], w'.subs[id], topic, msg);
    }
  }

  /** A step of the loop neither loses nor repeats a message. */
  lemma LoopStepPasses(sub: Sub, ev: Event, closed: set<Outlet>)
    requires IsLoopStep(ev) && LoopStep(sub, ev, closed).Some? && |sub.inHand| <= 1
    ensures LoopStep(sub, ev, closed).value.Passed() == sub.Passed()
    ensures var sub' := LoopStep(sub, ev, closed).value;
      && sub'.topic == sub.topic && sub'.since == sub.since && |sub'.inHand| <= 1
      && (sub'.cell.current.Some? && !sub.cell.current.Some? ==> sub'.accepted != [])
      && (sub.accepted != [] ==> sub'.accepted != [])
  {
    var sub' := LoopStep(sub, ev, closed).value;
    match ev
    case Receive(_) =>
      assert sub.inHand == [];
      assert Flat(sub.accepted) + [] + sub.queue == Flat(sub.accepted) + [sub.queue[0]] + sub.queue[1..];
    case Borrow(_) =>
      FlatSnoc(sub.accepted, []);
      assert Flat(sub.accepted) + [] == Flat(sub.accepted);
    case Send(_) =>
      if sub'.inHand != sub.inHand {
        var last := |sub.accepted| - 1;
        var init, part := sub.accepted[..last], sub.accepted[last];
        FlatSnoc(init, part + sub.inHand);
        Assoc(Flat(init), part, sub.inHand);
        assert Flat(sub'.accepted) == Flat(sub.accepted) + sub.inHand;
        assert Flat(sub'.accepted) + [] == Flat(sub'.accepted);
      }
    case _ =>
  }

  // ----- The loop as steps -----

  /** The steps of one loop taken one after the other, the same outlets being closed all along. */
  function AfterSteps(sub: Sub, evs: seq<Event>, closed: set<Outlet>): Option<Sub>
    requires forall ev | ev in evs :: IsLoopStep(ev)
    decreases |evs|
  {
    if evs == [] then Some(sub)
    else
      match LoopStep(sub, evs[0], closed)
      case None => None
      case Some(next) => AfterSteps(next, evs[1..], closed)
  }

  /** What the inner loop makes of the message in hand: it drops the closed outlets in front,
      and then the first open one accepts the message, or the loop waits with it. */
  ghost predicate Forwarded(sub: Sub, closed: set<Outlet>, sub': Sub) {
    var all := sub.cell.Candidates();
    var n := ClosedBefore(all, closed);
    && sub'.cell.Candidates() == all[n..] && sub'.queue == sub.queue
    && (n == |all| ==> sub'.inHand == sub.inHand && Flat(sub'.accepted) == Flat(sub.accepted))
    && (n < |all| ==>
          && sub'.inHand == [] && sub'.cell.current == Some(all[n])
          && Flat(sub'.accepted) == Flat(sub.accepted) + sub.inHand)
  }

  /** Borrowing and sending in turn does for the message in hand what the method for the inner loop does. */
  lemma {:induction false} StepsForward(sub: Sub, id: Id, closed: set<Outlet>) returns (evs: seq<Event>, sub': Sub)
    requires |sub.inHand| == 1 && (sub.cell.current.Some? ==> sub.accepted != [])
    ensures forall ev | ev in evs :: ev == Borrow(id) || ev == Send(id)
    ensures AfterSteps(sub, evs, closed) == Some(sub') && Forwarded(sub, closed, sub')
    decreases |sub.cell.Candidates()|, sub.cell.current.None?
  {
    var all := sub.cell.Candidates();
    if all == [] {
      evs, sub' := [], sub;
    } else if sub.cell.current.None? {
      var next := Borrows(sub, id, closed);
      evs, sub' := StepsForward(next, id, closed);
      StepThen(sub, Borrow(id), next, evs, closed);
      evs := [Borrow(id)] + evs;
    } else if all[0] in closed {
      var next := Drops(sub, id, closed);
      evs, sub' := StepsForward(next, id, closed);
      ForwardedToo(sub, closed, next, sub');
      StepThen(sub, Send(id), next, evs, closed);
      evs := [Send(id)] + evs;
    } else {
      sub' := LoopStep(sub, Send(id), closed).value;
      SendAppends(sub, id, closed);
      StepThen(sub, Send(id), sub', [], closed);
      evs := [Send(id)];
      assert [Send(id)] + [] == evs;
    }
  }

  lemma Borrows(sub: Sub, id: Id, closed: set<Outlet>) returns (next: Sub)
    requires |sub.inHand| == 1 && sub.cell.current.None? && sub.cell.pending != []
    ensures LoopStep(sub, Borrow(id), closed) == Some(next) && next.cell.current.Some? && next.accepted != []
    ensures next.cell.Candidates() == sub.cell.Candidates() && next.queue == sub.queue && next.inHand == sub.inHand
    ensures Flat(next.accepted) == Flat(sub.accepted)
  {
    next := LoopStep(sub, Borrow(id), closed).value;
    FlatSnoc(sub.accepted, []);
    assert Flat(sub.accepted) + [] == Flat(sub.accepted);
  }

  lemma Drops(sub: Sub, id: Id, closed: set<Outlet>) returns (next: Sub)
    requires |sub.inHand| == 1 && sub.cell.current.Some? && sub.accepted != [] && sub.cell.current.value in closed
    ensures LoopStep(sub, Send(id), closed) == Some(next)
    ensures next == sub.(cell := next.cell) && next.cell.Candidates() == sub.cell.Candidates()[1..]
    ensures next.cell.current.None?
  {
    next := LoopStep(sub, Send(id), closed).value;
  }

  lemma ForwardedToo(sub: Sub, closed: set<Outlet>, next: Sub, sub': Sub)
    requires var all := sub.cell.Candidates();
      all != [] && all[0] in closed && next == sub.(cell := next.cell) && next.cell.Candidates() == all[1..]
    requires Forwarded(next, closed, sub')
    ensures Forwarded(sub, closed, sub')
  {
    var all := sub.cell.Candidates();
    var n := ClosedBefore(all[1..], closed);
    assert ClosedBefore(all, closed) == 1 + n && all[1..][n..] == all[1 + n..];
  }

  lemma StepThen(sub: Sub, ev: Event, next: Sub, evs: seq<Event>, closed: set<Outlet>)
    requires IsLoopStep(ev) && LoopStep(sub, ev, closed) == Some(next) && forall e | e in evs :: IsLoopStep(e)
    ensures AfterSteps(sub, [ev] + evs, closed) == AfterSteps(next, evs, closed)
  {
    assert ([ev] + evs)[1..] == evs;
  }

  lemma SendAppends(sub: Sub, id: Id, closed: set<Outlet>)
    requires |sub.inHand| == 1 && sub.cell.current.Some? && sub.accepted != [] && sub.cell.current.value !in closed
    ensures var sub' := LoopStep(sub, Send(id), closed).value;
      sub' == sub.(inHand := [], accepted := sub'.accepted) && Flat(sub'.accepted) == Flat(sub.accepted) + sub.inHand
  {
    var last := |sub.accepted| - 1;
    FlatSnoc(sub.accepted[..last], sub.accepted[last] + sub.inHand);
    Assoc(Flat(sub.accepted[..last]), sub.accepted[last], sub.inHand);
  }

  lemma LoopStepKeepsInv(w: World, ev: Event)
    requires Inv(w) && IsLoopStep(ev) && Next(w, ev).Some?
    ensures Inv(Next(w, ev).value)
  {
    assert Forwards(w, w.subs[ev.id]);
    LoopStepPasses(w.subs[ev.id], ev, w.closed);
    SubReplaced(w, ev.id, LoopStep(w.subs[ev.id], ev, w.closed).value);
  }

  lemma SubReplaced(w: World, id: Id, sub: Sub)
    requires Inv(w) && id in w.subs && w.subs[id].alive
    requires sub.topic == w.subs[id].topic && sub.since == w.subs[id].since && sub.Passed() == w.subs[id].Passed()
    requires |sub.inHand| <= 1 && (sub.cell.current.Some? ==> sub.accepted != [])
    ensures Inv(w.(subs := w.subs[id := sub]))
  {
    var w' := w.(subs := w.subs[id := sub]);
    SameTopicSameIndex(w.topics, w.subs, id, sub);
    forall other | other in w'.subs ensures other < w'.nextId && Forwards(w', w'.subs[other]) {
      assert Forwards(w, w.subs[other]);
    }
  }

  lemma SameTopicSameIndex(topics: map<Topic, set<Id>>, subs: Subs, id: Id, sub: Sub)
    requires CrossIndex(topics, subs) && id in subs && sub.topic == subs[id].topic
    ensures CrossIndex(topics, subs[id := sub])
  {
  }

  lemma NextKeepsInv(w: World, ev: Event)
    requires Inv(w) && Next(w, ev).Some?
    ensures Inv(Next(w, ev).value)
  {
    match ev
    case Subscribe(topic, listener) =>
      var w' := Next(w, ev).value;
      ListedKeepsIndex(w.topics, w.subs, topic, w.nextId, NewSub(topic, listener, |w.log|));
      forall id | id in w'.subs ensures Forwards(w', w'.subs[id]) {
        if id == w.nextId {
          assert w.log[|w.log|..] == [];
        } else {
          assert Forwards(w, w.subs[id]);
        }
      }
    case Publish(topic, msg) => PublishKeepsInv(w, topic, msg);
    case CloseOutlet(_) =>
      var w' := Next(w, ev).value;
      forall id | id in w'.subs ensures Forwards(w', w'.subs[id]) {
        assert Forwards(w, w.subs[id]);
      }
    case _ => LoopStepKeepsInv(w, ev);
  }

  const INITIAL := World(true, map[], map[], 0, [], {})

  function RunFrom(events: seq<Event>): Option<World> {
    if events == [] then Some(INITIAL)
    else
      var before := RunFrom(events[..|events| - 1]);
      if before.None? then None else Next(before.value, events[|events| - 1])
  }

  lemma {:induction false} RunKeepsInv(events: seq<Event>)
    requires RunFrom(events).Some?
    ensures Inv(RunFrom(events).value)
  {
    if events != [] {
      var n := |events| - 1;
      RunKeepsInv(events[..n]);
      NextKeepsInv(RunFrom(events[..n]).value, events[n]);
    }
  }

  /** In every reachable state the topics and the subscriptions index each other. */
  lemma IndexesAgree(events: seq<Event>, topic: Topic, id: Id)
    requires RunFrom(events).Some?
    ensures var w := RunFrom(events).value;
      id in Subscribers(w.topics, topic) <==> id in w.subs && w.subs[id].topic == topic
  {
    RunKeepsInv(events);
  }

  /** In every reachable state what a subscriber's successive outlets accepted, joined, is a prefix of the messages
      published on its topic since it subscribed: none is lost, repeated or out of order. While the broker runs and
      the forwarding loop has not given up, the rest is still in hand or queued. */
  lemma AcceptedIsAPrefix(events: seq<Event>, id: Id)
    requires RunFrom(events).Some? && id in RunFrom(events).value.subs
    ensures var w, sub := RunFrom(events).value, RunFrom(events).value.subs[id];
      && sub.since <= |w.log|
      && Flat(sub.accepted) <= PublishedTo(w, sub)
      && (w.up && sub.alive ==> Flat(sub.accepted) + (sub.inHand + sub.queue) == PublishedTo(w, sub))
  {
    RunKeepsInv(events);
    var w := RunFrom(events).value;
    var sub := w.subs[id];
    assert Forwards(w, sub);
    Assoc(Flat(sub.accepted), sub.inHand, sub.queue);
  }

  // ----- Which outlets a subscription tries -----

  /** The listener that a subscription started with, and then those that replaced it, in order. */
  function ListenersOf(events: seq<Event>, id: Id): seq<Outlet>
    requires RunFrom(events).Some?
  {
    if events == [] then []
    else
      var n := |events| - 1;
      var before := ListenersOf(events[..n], id);
      match events[n]
      case Subscribe(_, listener) => if RunFrom(events[..n]).value.nextId == id then before + [listener] else before
      case Replace(other, listener) => if other == id then before + [listener] else before
      case _ => before
  }

  /** Every outlet tried has its part of what was accepted, and the one in the cell is the last of them. */
  predicate Tallies(sub: Sub) {
    && |sub.tried| == |sub.accepted|
    && (sub.cell.current.Some? ==> sub.tried != [] && sub.tried[|sub.tried| - 1] == sub.cell.current.value)
  }

  lemma LoopStepTallies(sub: Sub, ev: Event, closed: set<Outlet>)
    requires IsLoopStep(ev) && LoopStep(sub, ev, closed).Some? && Tallies(sub)
    ensures var sub' := LoopStep(sub, ev, closed).value;
      Tallies(sub') &&
      sub'.tried + sub'.cell.pending == sub.tried + sub.cell.pending + (if ev.Replace? then [ev.listener] else [])
  {
    var sub' := LoopStep(sub, ev, closed).value;
    assert sub.tried + sub.cell.pending + [] == sub.tried + sub.cell.pending;
    match ev
    case Replace(_, listener) => Assoc(sub.tried, sub.cell.pending, [listener]);
    case Borrow(_) =>
      Assoc(sub.tried, [sub.cell.pending[0]], sub.cell.pending[1..]);
      assert [sub.cell.pending[0]] + sub.cell.pending[1..] == sub.cell.pending;
    case _ =>
  }

  /** In every run: the outlets that a subscription tried, and then those it has still to try, are the listener it
      subscribed with and then its replacements, in order. */
  lemma {:induction false} OutletsInOrder(events: seq<Event>, id: Id)
    requires RunFrom(events).Some?
    ensures id !in RunFrom(events).value.subs ==> ListenersOf(events, id) == []
    ensures id in RunFrom(events).value.subs ==>
      var sub := RunFrom(events).value.subs[id];
      Tallies(sub) && sub.tried + sub.cell.pending == ListenersOf(events, id)
  {
    if events != [] {
      var n := |events| - 1;
      OutletsInOrder(events[..n], id);
      RunKeepsInv(events[..n]);
      NextKeepsOutlets(RunFrom(events[..n]).value, events[n], id, ListenersOf(events[..n], id));
    }
  }

  lemma NextKeepsOutlets(w: World, ev: Event, id: Id, listeners: seq<Outlet>)
    requires Inv(w) && Next(w, ev).Some? && (id !in w.subs ==> listeners == [])
    requires id in w.subs ==> Tallies(w.subs[id]) && w.subs[id].tried + w.subs[id].cell.pending == listeners
    ensures var w', more := Next(w, ev).value, Listener(w, ev, id);
      && (id !in w'.subs ==> listeners + more == [])
      && (id in w'.subs ==>
            Tallies(w'.subs[id]) && w'.subs[id].tried + w'.subs[id].cell.pending == listeners + more)
    ensures listeners + [] == listeners
  {
    assert listeners + [] == listeners;
    if IsLoopStep(ev) && ev.id == id {
      LoopStepTallies(w.subs[id], ev, w.closed);
    } else if ev.Subscribe? && w.nextId == id {
      assert id !in w.subs && [] + [ev.listener] == [ev.listener];
    }
  }

  /** The outlet that an event brings to a subscription, if any. */
  function Listener(w: World, ev: Event, id: Id): seq<Outlet> {
    match ev
    case Subscribe(_, listener) => if w.nextId == id then [listener] else []
    case Replace(other, listener) => if other == id then [listener] else []
    case _ => []
  }

  /** What was accepted at one place is as before, or the outlet of that place, in the cell and open, was sent the
      message in hand. */
  predicate AcceptedAt(sub: Sub, sub': Sub, sends: bool, closed: set<Outlet>, k: nat) {
    && k < |sub.accepted| && k < |sub'.accepted| && k < |sub.tried| && k < |sub'.tried| && sub'.tried[k] == sub.tried[k]
    && (sub'.accepted[k] != sub.accepted[k] ==>
          && sends && sub.cell.current == Some(sub.tried[k]) && sub.tried[k] !in closed
          && sub'.accepted[k] == sub.accepted[k] + sub.inHand)
  }

  lemma LoopStepAccepts(sub: Sub, ev: Event, closed: set<Outlet>, k: nat)
    requires IsLoopStep(ev) && LoopStep(sub, ev, closed).Some? && Tallies(sub) && k < |sub.accepted|
    ensures AcceptedAt(sub, LoopStep(sub, ev, closed).value, ev.Send?, closed, k)
  {
  }

  lemma NextAccepts(w: World, ev: Event, id: Id, k: nat)
    requires Next(w, ev).Some? && id in w.subs && id < w.nextId && Tallies(w.subs[id]) && k < |w.subs[id].accepted|
    ensures id in Next(w, ev).value.subs
    ensures AcceptedAt(w.subs[id], Next(w, ev).value.subs[id], ev == Send(id), w.closed, k)
  {
    if IsLoopStep(ev) && ev.id == id {
      LoopStepAccepts(w.subs[id], ev, w.closed, k);
    }
  }

  /** In every run: what was accepted at one place was accepted by the outlet tried at that place. */
  lemma AcceptedByItsOutlet(events: seq<Event>, ev: Event, id: Id, k: nat)
    requires RunFrom(events).Some? && Next(RunFrom(events).value, ev).Some?
    requires id in RunFrom(events).value.subs && k < |RunFrom(events).value.subs[id].accepted|
    ensures var w, w' := RunFrom(events).value, Next(RunFrom(events).value, ev).value;
      id in w'.subs && AcceptedAt(w.subs[id], w'.subs[id], ev == Send(id), w.closed, k)
  {
    OutletsInOrder(events, id);
    RunKeepsInv(events);
    NextAccepts(RunFrom(events).value, ev, id, k);
  }

  /** A publish brings the broker down exactly when the forwarding loop of some subscriber of the topic has returned. */
  lemma PublishPanicsExactlyWhen(events: seq<Event>, topic: Topic, msg: Msg)
    requires RunFrom(events).Some? && RunFrom(events).value.up
    ensures var w := RunFrom(events).value;
      Next(w, Publish(topic, msg)).Some? &&
      (!Next(w, Publish(topic, msg)).value.up <==>
       exists id | id in w.subs :: w.subs[id].topic == topic && !w.subs[id].alive)
  {
    RunKeepsInv(events);
  }

  // ----- A subscriber that goes away -----

  /** The broker with this one subscription. */
  function With(w: World, sub: Sub): World {
    w.(subs := map[0 := sub])
  }

  lemma StepOfOne(events: seq<Event>, w: World, sub: Sub, ev: Event, sub': Sub)
    requires RunFrom(events) == Some(With(w, sub)) && sub.alive && IsLoopStep(ev) && ev.id == 0
    requires LoopStep(sub, ev, w.closed) == Some(sub')
    ensures RunFrom(events + [ev]) == Some(With(w, sub'))
  {
    assert map[0 := sub][0 := sub'] == map[0 := sub'];
    RunOneMore(events, With(w, sub), ev, With(w, sub'));
  }

  lemma RunOneMore(events: seq<Event>, w: World, ev: Event, w': World)
    requires RunFrom(events) == Some(w) && Next(w, ev) == Some(w')
    ensures RunFrom(events + [ev]) == Some(w')
  {
    assert (events + [ev])[..|events|] == events;
  }

  const GONE := [Subscribe("t", 0), CloseOutlet(0)]

  lemma SubscribesAndCloses()
    ensures RunFrom(GONE) == Some(With(World(true, map["t" := {0}], map[], 1, [], {0}), NewSub("t", 0, 0)))
  {
    var w := With(World(true, map["t" := {0}], map[], 1, [], {}), NewSub("t", 0, 0));
    var nobody: set<Id> := {};
    assert nobody + {0} == {0};
    assert Listed(map[], "t", 0) == map["t" := {0}];
    RunOneMore([], INITIAL, Subscribe("t", 0), w);
    assert [] + [Subscribe("t", 0)] == [Subscribe("t", 0)];
    RunOneMore([Subscribe("t", 0)], w, CloseOutlet(0), w.(closed := {0}));
    assert [Subscribe("t", 0)] + [CloseOutlet(0)] == GONE;
  }

  /** A publish to one subscriber, before and after its forwarding loop returned. */
  lemma PublishToOne(events: seq<Event>, w: World, sub: Sub, msg: Msg)
    requires RunFrom(events) == Some(With(w, sub)) && w.up && w.topics == map["t" := {0}]
    ensures sub.alive ==>
      RunFrom(events + [Publish("t", msg)]) ==
      Some(With(w.(log := w.log + [("t", msg)]), sub.(queue := sub.queue + [msg])))
    ensures !sub.alive ==>
      RunFrom(events + [Publish("t", msg)]).Some? && !RunFrom(events + [Publish("t", msg)]).value.up
  {
    var before := With(w, sub);
    RunOneMore(events, before, Publish("t", msg), Next(before, Publish("t", msg)).value);
    if sub.alive {
      ReachedIs(before.subs, {0}, {0}, {});
      assert Queued(before.subs, {0}, msg) == map[0 := sub.(queue := sub.queue + [msg])];
    }
  }

  /** A subscriber closes its outlet: its forwarding loop gives up on the first message,
      and the second one brings the broker down. */
  lemma GoneSubscriberPanics() returns (events: seq<Event>)
    ensures events ==
      GONE + [Publish("t", "a")] + [Receive(0)] + [Borrow(0)] + [Send(0)] + [TimeOut(0)] + [Publish("t", "b")]
    ensures RunFrom(events).Some? && !RunFrom(events).value.up
  {
    var w := World(true, map["t" := {0}], map[], 1, [], {0});
    var sub := NewSub("t", 0, 0);
    SubscribesAndCloses();
    PublishToOne(GONE, w, sub, "a");
    assert sub.queue + ["a"] == ["a"] && w.log + [("t", "a")] == [("t", "a")];
    w, sub, events := w.(log := [("t", "a")]), sub.(queue := ["a"]), GONE + [Publish("t", "a")];
    assert sub.queue[1..] == [];
    StepOfOne(events, w, sub, Receive(0), sub.(inHand := ["a"], queue := []));
    sub, events := sub.(inHand := ["a"], queue := []), events + [Receive(0)];
    var none: seq<seq<Msg>> := [];
    assert none + [[]] == [[]] && sub.cell.pending[1..] == [] && sub.tried + [0] == [0];
    StepOfOne(events, w, sub, Borrow(0), sub.(cell := Cell([], Some(0)), accepted := [[]], tried := [0]));
    sub, events := sub.(cell := Cell([], Some(0)), accepted := [[]], tried := [0]), events + [Borrow(0)];
    StepOfOne(events, w, sub, Send(0), sub.(cell := Cell([], None)));
    sub, events := sub.(cell := Cell([], None)), events + [Send(0)];
    StepOfOne(events, w, sub, TimeOut(0), sub.(alive := false));
    sub, events := sub.(alive := false), events + [TimeOut(0)];
    PublishToOne(events, w, sub, "b");
    events := events + [Publish("t", "b")];
  }
}

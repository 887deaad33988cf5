/** Two brokers joined by FIFO wires, with any number of streams in flight both ways. */
module RpcSystem {
  import opened Prelude
  import opened RpcBroker

  // ----- The system -----

  /** A running command on the side that serves it: what its handler emitted so far, what of that still waits in
      `stream_sender_loop`, whether the handler dropped its output, whether the loop sent the end. */
  datatype Stream = Stream(emitted: seq<Payload>, buffered: seq<Payload>, closed: bool, ended: bool) {
    function Gone(): seq<Payload>
      requires |buffered| <= |emitted|
    {
      emitted[..|emitted| - |buffered|]
    }

    predicate Ok() {
      && |buffered| <= |emitted| && emitted == Gone() + buffered
      && (ended ==> closed && buffered == [])
    }
  }

  /** `starting`: a command went out and its sink is about to be registered; the event loop handles nothing else
      meanwhile. `used` records the ids this side ever started, each with the sink of its last command;
      `cancelled` those it sent a cancel for since; `received` what each sink was handed; `lost` what the event
      loop took off the wire when it panicked; `closed` the sinks it dropped on an end, in order. */
  datatype Side = Side(
    broker: State, up: bool, starting: Option<(Id, Sink)>, streams: map<Id, Stream>,
    used: map<Id, Sink>, cancelled: set<Id>, received: map<Sink, seq<Payload>>, lost: seq<Message>,
    closed: seq<Sink>)
  {
    /** The ids this side expects responses for. */
    function Expecting(): map<Id, Sink> {
      if starting.Some? then broker.incoming[starting.value.0 := starting.value.1] else broker.incoming
    }

    /** The hypothesis on ids: an id may be started if this side never used it on this connection, or has seen the end
        of its last command and sent a cancel for that too. */
    predicate MayStart(id: Id) {
      id !in used || (id !in Expecting() && id in cancelled)
    }
  }

  /** Side `false` and side `true`; a wire is named by the side that writes to it. */
  datatype System = System(sides: map<bool, Side>, wires: map<bool, seq<Message>>) {
    predicate Whole() {
      sides.Keys == {false, true} && wires.Keys == {false, true}
    }

    function With(i: bool, side: Side): System {
      this.(sides := sides[i := side])
    }

    function Sending(i: bool, msg: Message): System
      requires i in wires
    {
      this.(wires := wires[i := wires[i] + [msg]])
    }
  }

  datatype Action =
    | Start(id: Id, name: string, payload: Payload, sink: Sink)
    | Register
    | Deliver(accepts: bool, open: bool)
    | Emit(id: Id, payload: Payload)
    | CloseOutput(id: Id)
    | SendResponse(id: Id)
    | SendEnd(id: Id)
    | SendCancel(id: Id)

  /** One step at side `i` of a connection whose sides keep to the hypothesis on ids. */
  ghost predicate Step(s: System, i: bool, a: Action, s': System)
    requires s.Whole()
  {
    (a.Start? ==> s.sides[i].MayStart(a.id)) && Happens(s, i, a, s')
  }

  /** What a step does, whatever id it takes. Every command comes with a channel of its own. */
  ghost predicate Happens(s: System, i: bool, a: Action, s': System)
    requires s.Whole()
  {
    var x := s.sides[i];
    match a
    case Start(id, name, payload, sink) =>
      && x.up && x.starting.None? && sink !in x.received
      && s' == Started(s, i, id, sink).Sending(i, Command(id, name, payload))
    case Register =>
      && x.up && x.starting.Some?
      && s' == s.With(i, x.(starting := None, broker := x.broker.(incoming := x.Expecting())))
    case Deliver(accepts, open) =>
      && x.up && x.starting.None? && s.wires[!i] != []
      && s' == Delivered(s, i, accepts, open)
    case Emit(id, payload) =>
      && id in x.streams && !x.streams[id].closed
      && var t := x.streams[id];
         var t' := t.(emitted := t.emitted + [payload], buffered := t.buffered + [payload]);
         s' == s.With(i, x.(streams := x.streams[id := t']))
    case CloseOutput(id) =>
      && id in x.streams
      && s' == s.With(i, x.(streams := x.streams[id := x.streams[id].(closed := true)]))
    case SendResponse(id) =>
      && id in x.streams && x.streams[id].buffered != []
      && var t := x.streams[id];
         s' == s.With(i, x.(streams := x.streams[id := t.(buffered := t.buffered[1..])]))
                .Sending(i, Response(id, t.buffered[0]))
    case SendEnd(id) =>
      && id in x.streams && x.streams[id].closed && x.streams[id].buffered == [] && !x.streams[id].ended
      && s' == s.With(i, x.(streams := x.streams[id := x.streams[id].(ended := true)])).Sending(i, End(id))
    case SendCancel(id) =>
      s' == s.With(i, x.(cancelled := x.cancelled + {id})).Sending(i, Cancel(id))
  }

  /** The caller's side of a start. The record of a finished stream is dropped when its id is started again. */
  function Started(s: System, i: bool, id: Id, sink: Sink): System
    requires s.Whole()
  {
    var x, y := s.sides[i], s.sides[!i];
    s.With(!i, y.(streams := Unfinished(y.streams, id)))
     .With(i, x.(starting := Some((id, sink)), used := x.used[id := sink], cancelled := x.cancelled - {id},
                 received := x.received[sink := []]))
  }

  function Unfinished(streams: map<Id, Stream>, id: Id): map<Id, Stream> {
    if id in streams && streams[id].ended then streams - {id} else streams
  }

  /** The first message on the other side's wire handled at side `i`. It is off the wire even when the event loop
      panics, and then nobody has it. */
  function Delivered(s: System, i: bool, accepts: bool, open: bool): System
    requires s.Whole() && s.wires[!i] != []
  {
    var x, wire := s.sides[i], s.wires[!i];
    var r := ReactTo(x.broker, wire[0], accepts, open);
    var rest := s.(wires := s.wires[!i := wire[1..]]);
    if r.status == Panics then rest.With(i, x.(up := false, lost := x.lost + [wire[0]]))
    else
      var x' := x.(broker := r.state, up := r.status == Goes);
      if r.effects == [] then rest.With(i, x')
      else
        match r.effects[0]
        case Send(msg) => rest.With(i, x').Sending(i, msg)
        case Spawn(id) => rest.With(i, x'.(streams := x.streams[id := Stream([], [], false, false)]))
        case Hand(sink, payload) =>
          var before := if sink in x.received then x.received[sink] else [];
          rest.With(i, x'.(received := x.received[sink := before + [payload]]))
        case CloseSink(sink) => rest.With(i, x'.(closed := x.closed + [sink]))
  }

  const FRESH := Side(State(map[], {}, 1), true, None, map[], map[], {}, map[], [], [])

  const INITIAL := System(map[false := FRESH, true := FRESH], map[false := [], true := []])

  ghost predicate Run(states: seq<System>) {
    states != [] && states[0] == INITIAL &&
    forall n | 0 <= n < |states| - 1 :: NextAt(states, n)
  }

  ghost predicate NextAt(states: seq<System>, n: nat)
    requires n + 1 < |states|
  {
    Next(states[n], states[n + 1])
  }

  ghost predicate Next(s: System, s': System) {
    s.Whole() && exists i, a :: Step(s, i, a, s')
  }

  // ----- One direction: the commands of one side and the streams they start on the other -----

  datatype Direction = Direction(
    used: map<Id, Sink>, cancelled: set<Id>, expecting: map<Id, Sink>, received: map<Sink, seq<Payload>>,
    requests: seq<Message>, streams: map<Id, Stream>, outgoing: set<Id>, replies: seq<Message>)

  function Calls(s: System, caller: bool): Direction
    requires s.Whole()
  {
    var x, y := s.sides[caller], s.sides[!caller];
    Direction(
      x.used, x.cancelled, x.Expecting(), x.received, s.wires[caller], y.streams, y.broker.outgoing, Pending(s, caller))
  }

  /** The messages to a side that had no effect there: what it lost in a panic, and what is still on the wire. */
  function Pending(s: System, side: bool): seq<Message>
    requires s.Whole()
  {
    s.sides[side].lost + s.wires[!side]
  }

  predicate Replies(m: Message, id: Id) {
    (m.Response? || m.End?) && m.id == id
  }

  /** The replies to one command among the messages of a wire. */
  function RepliesTo(wire: seq<Message>, id: Id): seq<Message> {
    if wire == [] then []
    else (if Replies(wire[0], id) then [wire[0]] else []) + RepliesTo(wire[1..], id)
  }

  function Responses(id: Id, ps: seq<Payload>): seq<Message> {
    seq(|ps|, k requires 0 <= k < |ps| => Response(id, ps[k]))
  }

  function EndIf(ended: bool, id: Id): seq<Message> {
    if ended then [End(id)] else []
  }

  /** Everything the stream of a command put on the wire. */
  function SentFor(d: Direction, id: Id): seq<Message>
    requires id in d.streams ==> d.streams[id].Ok()
  {
    if id in d.streams then Responses(id, d.streams[id].Gone()) + EndIf(d.streams[id].ended, id) else []
  }

  /** Everything the caller took off the wire for a command. */
  function HandledFor(d: Direction, id: Id): seq<Message>
    requires id in d.used && d.used[id] in d.received
  {
    Responses(id, d.received[d.used[id]]) + EndIf(id !in d.expecting, id)
  }

  ghost predicate DirInv(d: Direction) {
    Shape(d) && forall id :: InStep(d, id)
  }

  /** Streams belong to started commands, every command has its own sink, and a command on the wire is not running
      yet. */
  ghost predicate Shape(d: Direction) {
    && (forall id | id in d.streams :: d.streams[id].Ok() && id in d.used)
    && (forall id | id in d.used :: d.used[id] in d.received)
    && (forall a, b | a in d.used && b in d.used && a != b :: d.used[a] != d.used[b])
    && (forall id | id in d.expecting :: id in d.used && d.expecting[id] == d.used[id])
    && (forall k | 0 <= k < |d.requests| && d.requests[k].Command? ::
          d.requests[k].id in d.expecting && d.requests[k].id !in d.streams)
    && (forall j, k | 0 <= j < k < |d.requests| && d.requests[j].Command? && d.requests[k].Command? ::
          d.requests[j].id != d.requests[k].id)
  }

  /** For every command, what the caller took off the wire followed by what is still on it is what the stream sent. */
  ghost predicate InStep(d: Direction, id: Id)
    requires Shape(d)
  {
    if id in d.used then HandledFor(d, id) + RepliesTo(d.replies, id) == SentFor(d, id)
    else RepliesTo(d.replies, id) == []
  }

  lemma {:induction false} RepliesToConcat(a: seq<Message>, b: seq<Message>, id: Id)
    ensures RepliesTo(a + b, id) == RepliesTo(a, id) + RepliesTo(b, id)
  {
    if a == [] {
      assert a + b == b;
    } else {
      assert (a + b)[1..] == a[1..] + b;
      RepliesToConcat(a[1..], b, id);
      Assoc(if Replies(a[0], id) then [a[0]] else [], RepliesTo(a[1..], id), RepliesTo(b, id));
    }
  }

  lemma RepliesToSnoc(wire: seq<Message>, m: Message, id: Id)
    ensures RepliesTo(wire + [m], id) == RepliesTo(wire, id) + (if Replies(m, id) then [m] else [])
  {
    RepliesToConcat(wire, [m], id);
    assert RepliesTo([m][1..], id) == [];
  }

  lemma ResponsesSnoc(id: Id, ps: seq<Payload>, p: Payload)
    ensures Responses(id, ps + [p]) == Responses(id, ps) + [Response(id, p)]
  {
  }

  /** Responses and then perhaps one end: nothing can follow an end. */
  lemma NothingAfterEnd(id: Id, done: seq<Payload>, rest: seq<Message>, sent: seq<Payload>, ended: bool)
    requires Responses(id, done) + [End(id)] + rest == Responses(id, sent) + EndIf(ended, id)
    ensures rest == [] && ended && done == sent
  {
    var l, r := Responses(id, done) + [End(id)] + rest, Responses(id, sent) + EndIf(ended, id);
    assert forall k | 0 <= k < |sent| :: r[k] == Response(id, sent[k]);
    assert forall k | 0 <= k < |done| :: l[k] == Response(id, done[k]);
    assert l[|done|] == End(id);
  }

  /** The next reply on the wire belongs to a command whose sink is registered: no end was handled for it before. */
  lemma NextReplyIsExpected(d: Direction, id: Id)
    requires DirInv(d) && d.replies != [] && Replies(d.replies[0], id)
    ensures id in d.used && id in d.expecting
  {
    assert InStep(d, id);
    if id !in d.expecting {
      var t := d.streams[id];
      NothingAfterEnd(id, d.received[d.used[id]], RepliesTo(d.replies, id), t.Gone(), t.ended);
    }
  }

  // ----- Which ids the other side still holds to be running -----

  function Handled(outgoing: set<Id>, m: Message): set<Id> {
    if m.Command? then outgoing + {m.id} else if m.Cancel? then outgoing - {m.id} else outgoing
  }

  /** The running set once all the requests are handled. */
  function RunningAfter(outgoing: set<Id>, requests: seq<Message>): set<Id>
    decreases |requests|
  {
    if requests == [] then outgoing else RunningAfter(Handled(outgoing, requests[0]), requests[1..])
  }

  /** Every command finds its id free when its turn comes, and so does a command that may be started now and was
      cancelled or never used. */
  ghost predicate Orderly(used: map<Id, Sink>, cancelled: set<Id>, outgoing: set<Id>, requests: seq<Message>) {
    && (forall k | 0 <= k < |requests| && requests[k].Command? ::
          requests[k].id !in RunningAfter(outgoing, requests[..k]))
    && (forall id | id !in used || id in cancelled :: id !in RunningAfter(outgoing, requests))
  }

  lemma {:induction false} RunningAfterSnoc(outgoing: set<Id>, requests: seq<Message>, m: Message)
    ensures RunningAfter(outgoing, requests + [m]) == Handled(RunningAfter(outgoing, requests), m)
    decreases |requests|
  {
    if requests == [] {
      assert [m][1..] == [];
    } else {
      assert (requests + [m])[1..] == requests[1..] + [m];
      RunningAfterSnoc(Handled(outgoing, requests[0]), requests[1..], m);
    }
  }

  lemma {:induction false} RunningAfterFewer(fewer: set<Id>, outgoing: set<Id>, requests: seq<Message>)
    requires fewer <= outgoing
    ensures RunningAfter(fewer, requests) <= RunningAfter(outgoing, requests)
    decreases |requests|
  {
    if requests != [] {
      RunningAfterFewer(Handled(fewer, requests[0]), Handled(outgoing, requests[0]), requests[1..]);
    }
  }

  /** One more request, whose id is free if it is a command. */
  lemma OrderlySent(
      used: map<Id, Sink>, cancelled: set<Id>, outgoing: set<Id>, requests: seq<Message>, m: Message,
      used': map<Id, Sink>, cancelled': set<Id>)
    requires Orderly(used, cancelled, outgoing, requests)
    requires m.Command? ==> m.id !in used || m.id in cancelled
    requires forall id | id !in used' || id in cancelled' ::
      !(m.Command? && m.id == id) && ((m.Cancel? && m.id == id) || id !in used || id in cancelled)
    ensures Orderly(used', cancelled', outgoing, requests + [m])
  {
    var all := requests + [m];
    RunningAfterSnoc(outgoing, requests, m);
    forall k | 0 <= k < |all| && all[k].Command? ensures all[k].id !in RunningAfter(outgoing, all[..k]) {
      assert all[..k] == requests[..k];
      assert requests[..|requests|] == requests;
    }
  }

  /** The first request is handled; a rejected command does not run. */
  lemma OrderlyTaken(
      used: map<Id, Sink>, cancelled: set<Id>, outgoing: set<Id>, requests: seq<Message>, outgoing': set<Id>)
    requires Orderly(used, cancelled, outgoing, requests) && requests != []
    requires outgoing' <= Handled(outgoing, requests[0])
    ensures Orderly(used, cancelled, outgoing', requests[1..])
  {
    var rest := requests[1..];
    RunningAfterFewer(outgoing', Handled(outgoing, requests[0]), rest);
    forall k | 0 <= k < |rest| && rest[k].Command? ensures rest[k].id !in RunningAfter(outgoing', rest[..k]) {
      assert rest[k] == requests[k + 1] && requests[..k + 1][1..] == rest[..k];
      RunningAfterFewer(outgoing', Handled(outgoing, requests[0]), rest[..k]);
    }
  }

  // ----- What every change to a direction keeps -----

  /** The next command on the wire is not running yet. */
  lemma NextCommandIsNew(d: Direction)
    requires Orderly(d.used, d.cancelled, d.outgoing, d.requests) && d.requests != [] && d.requests[0].Command?
    ensures d.requests[0].id !in d.outgoing
  {
    assert d.requests[..0] == [];
  }

  lemma RequestSent(d: Direction, m: Message)
    requires DirInv(d) && !m.Command?
    ensures DirInv(d.(requests := d.requests + [m]))
  {
    var d' := d.(requests := d.requests + [m]);
    forall id ensures InStep(d', id) {
      assert InStep(d, id);
    }
  }

  lemma OtherReplySent(d: Direction, m: Message)
    requires DirInv(d) && !m.Response? && !m.End?
    ensures DirInv(d.(replies := d.replies + [m]))
  {
    var d' := d.(replies := d.replies + [m]);
    forall id ensures InStep(d', id) {
      assert InStep(d, id);
      RepliesToSnoc(d.replies, m, id);
      assert RepliesTo(d.replies, id) + [] == RepliesTo(d.replies, id);
    }
  }

  /** A request is taken off the wire and nothing is started; a cancel may forget that the stream is running. */
  lemma RequestTaken(d: Direction, outgoing: set<Id>)
    requires DirInv(d) && d.requests != []
    ensures DirInv(d.(requests := d.requests[1..], outgoing := outgoing))
  {
    var d' := d.(requests := d.requests[1..], outgoing := outgoing);
    assert forall k | 0 <= k < |d'.requests| :: d'.requests[k] == d.requests[k + 1];
    forall id ensures InStep(d', id) {
      assert InStep(d, id);
    }
  }

  lemma OtherReplyTaken(d: Direction)
    requires DirInv(d) && d.replies != [] && !d.replies[0].Response? && !d.replies[0].End?
    ensures DirInv(d.(replies := d.replies[1..]))
  {
    var d' := d.(replies := d.replies[1..]);
    forall id ensures InStep(d', id) {
      assert InStep(d, id);
      assert RepliesTo(d.replies, id) == RepliesTo(d.replies[1..], id);
    }
  }

  /** A command is started under an id that was never used, or whose end was handled: its old stream sent nothing
      more. */
  lemma CommandStarted(d: Direction, id: Id, sink: Sink, d': Direction)
    requires DirInv(d) && (id !in d.used || id !in d.expecting) && sink !in d.received && StartedIn(d, id, sink, d')
    ensures DirInv(d')
  {
    FinishedBefore(d, id);
    StartedShape(d, id, sink, d');
    forall i ensures InStep(d', i) {
      StartedInStep(d, id, sink, d', i);
    }
  }

  /** What a start does to the calls of the side that starts. */
  ghost predicate StartedIn(d: Direction, id: Id, sink: Sink, d': Direction) {
    && d'.requests != [] && d'.requests[|d'.requests| - 1].Command? && d'.requests[|d'.requests| - 1].id == id
    && d'.requests[..|d'.requests| - 1] == d.requests
    && d'.used == d.used[id := sink] && d'.expecting == d.expecting[id := sink] && d'.received == d.received[sink := []]
    && d'.streams == Unfinished(d.streams, id) && d'.replies == d.replies
  }

  lemma StartedShape(d: Direction, id: Id, sink: Sink, d': Direction)
    requires Shape(d) && id !in Unfinished(d.streams, id) && sink !in d.received && StartedIn(d, id, sink, d')
    requires id !in d.used || id !in d.expecting
    ensures Shape(d')
  {
    StartedRequests(d, id, sink, d');
    forall a, b | a in d'.used && b in d'.used && a != b ensures d'.used[a] != d'.used[b] {
      assert a != id ==> a in d.used && d.used[a] in d.received;
      assert b != id ==> b in d.used && d.used[b] in d.received;
    }
  }

  lemma StartedRequests(d: Direction, id: Id, sink: Sink, d': Direction)
    requires Shape(d) && id !in Unfinished(d.streams, id) && StartedIn(d, id, sink, d')
    requires id !in d.used || id !in d.expecting
    ensures forall k | 0 <= k < |d'.requests| && d'.requests[k].Command? ::
      d'.requests[k].id in d'.expecting && d'.requests[k].id !in d'.streams
    ensures forall j, k | 0 <= j < k < |d'.requests| && d'.requests[j].Command? && d'.requests[k].Command? ::
      d'.requests[j].id != d'.requests[k].id
  {
    assert forall k | 0 <= k < |d.requests| :: d'.requests[k] == d.requests[k];
    assert forall k | 0 <= k < |d.requests| && d.requests[k].Command? :: d.requests[k].id in d.expecting;
  }

  lemma StartedInStep(d: Direction, id: Id, sink: Sink, d': Direction, i: Id)
    requires DirInv(d) && StartedIn(d, id, sink, d') && Shape(d') && sink !in d.received
    requires RepliesTo(d.replies, id) == [] && id !in Unfinished(d.streams, id)
    ensures InStep(d', i)
  {
    assert InStep(d, i);
    if i != id {
      assert SentFor(d', i) == SentFor(d, i);
      assert i in d.used ==> HandledFor(d', i) == HandledFor(d, i);
    }
  }

  lemma FinishedBefore(d: Direction, id: Id)
    requires DirInv(d) && (id !in d.used || id !in d.expecting)
    ensures RepliesTo(d.replies, id) == [] && id !in Unfinished(d.streams, id)
    ensures id in d.used ==>
      id in d.streams && d.streams[id].ended && d.received[d.used[id]] == d.streams[id].emitted
  {
    assert InStep(d, id);
    if id in d.used {
      assert HandledFor(d, id)[|d.received[d.used[id]]|] == End(id);
      assert id in d.streams;
      var t := d.streams[id];
      NothingAfterEnd(id, d.received[d.used[id]], RepliesTo(d.replies, id), t.Gone(), t.ended);
    }
  }

  lemma StreamSpawned(d: Direction)
    requires DirInv(d) && d.requests != [] && d.requests[0].Command?
    ensures var id := d.requests[0].id;
      DirInv(d.(requests := d.requests[1..], outgoing := d.outgoing + {id},
                streams := d.streams[id := Stream([], [], false, false)]))
  {
    var id := d.requests[0].id;
    assert forall k | 0 <= k < |d.requests[1..]| :: d.requests[1..][k] == d.requests[k + 1];
    RequestTaken(d, d.outgoing);
    StreamAdded(d.(requests := d.requests[1..]), id);
  }

  lemma StreamAdded(d: Direction, id: Id)
    requires DirInv(d) && id in d.used && id !in d.streams
    requires forall k | 0 <= k < |d.requests| && d.requests[k].Command? :: d.requests[k].id != id
    ensures DirInv(d.(outgoing := d.outgoing + {id}, streams := d.streams[id := Stream([], [], false, false)]))
  {
    var d' := d.(outgoing := d.outgoing + {id}, streams := d.streams[id := Stream([], [], false, false)]);
    AddedShape(d, id, d');
    forall i ensures InStep(d', i) {
      AddedInStep(d, id, d', i);
    }
  }

  lemma AddedShape(d: Direction, id: Id, d': Direction)
    requires Shape(d) && id in d.used
    requires forall k | 0 <= k < |d.requests| && d.requests[k].Command? :: d.requests[k].id != id
    requires d' == d.(outgoing := d'.outgoing, streams := d.streams[id := Stream([], [], false, false)])
    ensures Shape(d')
  {
    NothingSentYet(id);
  }

  lemma AddedInStep(d: Direction, id: Id, d': Direction, i: Id)
    requires DirInv(d) && id in d.used && id !in d.streams && Shape(d')
    requires d' == d.(outgoing := d'.outgoing, streams := d.streams[id := Stream([], [], false, false)])
    ensures InStep(d', i)
  {
    assert InStep(d, i);
    NothingSentYet(id);
    assert SentFor(d', i) == SentFor(d, i);
    assert i in d.used ==> HandledFor(d', i) == HandledFor(d, i);
  }

  lemma NothingSentYet(id: Id)
    ensures var t := Stream([], [], false, false); t.Ok() && Responses(id, t.Gone()) + EndIf(t.ended, id) == []
  {
  }

  lemma ResponseHanded(d: Direction)
    requires DirInv(d) && d.replies != [] && d.replies[0].Response?
    ensures var m := d.replies[0];
      m.id in d.expecting && d.expecting[m.id] in d.received &&
      DirInv(d.(replies := d.replies[1..],
                received := d.received[d.expecting[m.id] := d.received[d.expecting[m.id]] + [m.payload]]))
  {
    var m := d.replies[0];
    NextReplyIsExpected(d, m.id);
    var sink := d.expecting[m.id];
    var d' := d.(replies := d.replies[1..], received := d.received[sink := d.received[sink] + [m.payload]]);
    forall id ensures InStep(d', id) {
      assert InStep(d, id);
      if id == m.id {
        ResponsesSnoc(id, d.received[sink], m.payload);
        ReplyMovesOver(Responses(id, d.received[sink]), m, RepliesTo(d'.replies, id));
      }
    }
  }

  lemma EndHandled(d: Direction)
    requires DirInv(d) && d.replies != [] && d.replies[0].End?
    ensures var m := d.replies[0];
      m.id in d.expecting && DirInv(d.(replies := d.replies[1..], expecting := d.expecting - {m.id}))
  {
    var m := d.replies[0];
    NextReplyIsExpected(d, m.id);
    var d' := d.(replies := d.replies[1..], expecting := d.expecting - {m.id});
    forall k | 0 <= k < |d.requests| && d.requests[k].Command? ensures d.requests[k].id in d'.expecting {
      CommandHasNoReplies(d, k);
    }
    forall id ensures InStep(d', id) {
      assert InStep(d, id);
      if id == m.id {
        ReplyMovesOver(Responses(id, d.received[d.used[id]]), m, RepliesTo(d'.replies, id));
      }
    }
  }

  lemma CommandHasNoReplies(d: Direction, k: nat)
    requires DirInv(d) && k < |d.requests| && d.requests[k].Command?
    ensures RepliesTo(d.replies, d.requests[k].id) == []
  {
    assert InStep(d, d.requests[k].id);
  }

  lemma ReplyMovesOver(done: seq<Message>, m: Message, rest: seq<Message>)
    ensures done + [] + ([m] + rest) == done + [m] + rest == done + [m] + [] + rest
  {
    assert done + [] == done && done + [m] + [] == done + [m];
    Assoc(done, [m], rest);
  }

  /** The handler emits, or drops its output: nothing on the wire changes. */
  lemma StreamChanged(d: Direction, id: Id, t: Stream)
    requires DirInv(d) && id in d.streams && t.Ok()
    requires t.Gone() == d.streams[id].Gone() && t.ended == d.streams[id].ended
    ensures DirInv(d.(streams := d.streams[id := t]))
  {
    var d' := d.(streams := d.streams[id := t]);
    ReplacedShape(d, id, t);
    forall i ensures InStep(d', i) {
      SameInStep(d, id, t, d', i);
    }
  }

  lemma ReplacedShape(d: Direction, id: Id, t: Stream)
    requires Shape(d) && id in d.streams && t.Ok()
    ensures Shape(d.(streams := d.streams[id := t]))
  {
  }

  lemma SameInStep(d: Direction, id: Id, t: Stream, d': Direction, i: Id)
    requires DirInv(d) && id in d.streams && t.Ok() && d' == d.(streams := d.streams[id := t]) && Shape(d')
    requires t.Gone() == d.streams[id].Gone() && t.ended == d.streams[id].ended
    ensures InStep(d', i)
  {
    assert InStep(d, i);
    assert SentFor(d', i) == SentFor(d, i);
    assert i in d.used ==> HandledFor(d', i) == HandledFor(d, i);
  }

  lemma ResponseSent(d: Direction, id: Id)
    requires DirInv(d) && id in d.streams && d.streams[id].buffered != []
    ensures var t := d.streams[id];
      DirInv(d.(streams := d.streams[id := t.(buffered := t.buffered[1..])],
                replies := d.replies + [Response(id, t.buffered[0])]))
  {
    var t := d.streams[id];
    var t', m := t.(buffered := t.buffered[1..]), Response(id, t.buffered[0]);
    GoneGrows(t);
    ResponsesSnoc(id, t.Gone(), t.buffered[0]);
    NoEnd(Responses(id, t.Gone()), m);
    ReplySent(d, id, t', m);
  }

  lemma GoneGrows(t: Stream)
    requires t.Ok() && t.buffered != []
    ensures var t' := t.(buffered := t.buffered[1..]); t'.Ok() && t'.Gone() == t.Gone() + [t.buffered[0]] && !t.ended
  {
  }

  lemma NoEnd(sent: seq<Message>, m: Message)
    ensures sent + [] + [m] == sent + [m] == sent + [m] + []
  {
  }

  lemma EndSent(d: Direction, id: Id)
    requires DirInv(d) && id in d.streams && d.streams[id].closed && d.streams[id].buffered == []
    requires !d.streams[id].ended
    ensures DirInv(d.(streams := d.streams[id := d.streams[id].(ended := true)], replies := d.replies + [End(id)]))
  {
    var t := d.streams[id];
    NoEnd(Responses(id, t.Gone()), End(id));
    ReplySent(d, id, t.(ended := true), End(id));
  }

  /** A stream moves on and puts the one reply on the wire that it is now ahead by. */
  lemma ReplySent(d: Direction, id: Id, t: Stream, m: Message)
    requires DirInv(d) && id in d.streams && t.Ok() && Replies(m, id)
    requires Responses(id, t.Gone()) + EndIf(t.ended, id) == SentFor(d, id) + [m]
    ensures DirInv(d.(streams := d.streams[id := t], replies := d.replies + [m]))
  {
    var d' := d.(streams := d.streams[id := t], replies := d.replies + [m]);
    forall i ensures InStep(d', i) {
      assert InStep(d, i);
      RepliesToSnoc(d.replies, m, i);
      if i == id {
        Assoc(HandledFor(d, id), RepliesTo(d.replies, id), [m]);
      } else {
        assert RepliesTo(d.replies, i) + [] == RepliesTo(d.replies, i);
      }
    }
  }

  // ----- Every step keeps both directions in step -----

  /** Besides the ledgers: only a side that is down has lost a message, and only responses get lost. */
  ghost predicate Inv(s: System) {
    s.Whole() && SideInv(s, false) && SideInv(s, true)
  }

  ghost predicate SideInv(s: System, i: bool)
    requires s.Whole()
  {
    var d := Calls(s, i);
    && DirInv(d) && Orderly(d.used, d.cancelled, d.outgoing, d.requests)
    && (s.sides[i].up ==> s.sides[i].lost == []) && OnlyResponses(s.sides[i].lost)
  }

  predicate OnlyResponses(ms: seq<Message>) {
    forall k | 0 <= k < |ms| :: ms[k].Response?
  }

  lemma BothDirections(s: System, i: bool)
    requires s.Whole() && SideInv(s, i) && SideInv(s, !i)
    ensures Inv(s)
  {
  }

  /** Side `i` sends a message that is no reply, and nothing else about the calls of the other side changes. */
  lemma NonReplySent(s: System, i: bool, m: Message, s': System)
    requires Inv(s) && s'.Whole() && !m.Response? && !m.End?
    requires Calls(s', !i) == Calls(s, !i).(replies := Calls(s, !i).replies + [m])
    requires s'.sides[!i].up == s.sides[!i].up && s'.sides[!i].lost == s.sides[!i].lost
    ensures SideInv(s', !i)
  {
    OtherReplySent(Calls(s, !i), m);
  }

  lemma StartKeepsInv(s: System, i: bool, id: Id, name: string, payload: Payload, sink: Sink, s': System)
    requires Inv(s) && Step(s, i, Start(id, name, payload, sink), s')
    ensures Inv(s')
  {
    var mine, m := Calls(s, i), Command(id, name, payload);
    StartCalls(s, i, id, name, payload, sink, s');
    assert (mine.requests + [m])[..|mine.requests|] == mine.requests;
    CommandStarted(mine, id, sink, Calls(s', i));
    OrderlySent(
      mine.used, mine.cancelled, mine.outgoing, mine.requests, m, mine.used[id := sink], mine.cancelled - {id});
    NonReplySent(s, i, m, s');
    BothDirections(s', i);
  }

  lemma StartCalls(s: System, i: bool, id: Id, name: string, payload: Payload, sink: Sink, s': System)
    requires s.Whole() && Step(s, i, Start(id, name, payload, sink), s')
    ensures s'.Whole() && forall j :: s'.sides[j].up == s.sides[j].up && s'.sides[j].lost == s.sides[j].lost
    ensures var mine, theirs, m := Calls(s, i), Calls(s, !i), Command(id, name, payload);
      && Calls(s', i) == mine.(used := mine.used[id := sink], cancelled := mine.cancelled - {id},
                               expecting := mine.expecting[id := sink], received := mine.received[sink := []],
                               requests := mine.requests + [m], streams := Unfinished(mine.streams, id))
      && Calls(s', !i) == theirs.(replies := theirs.replies + [m])
  {
    Assoc(s.sides[!i].lost, s.wires[i], [Command(id, name, payload)]);
  }

  /** The sink of a started command is registered: neither direction changes. */
  lemma QuietStepKeepsInv(s: System, i: bool, s': System)
    requires Inv(s) && s'.Whole() && Calls(s', i) == Calls(s, i) && Calls(s', !i) == Calls(s, !i)
    requires forall j :: s'.sides[j].up == s.sides[j].up && s'.sides[j].lost == s.sides[j].lost
    ensures Inv(s')
  {
    BothDirections(s', i);
  }

  lemma StreamStepKeepsInv(s: System, i: bool, id: Id, t: Stream)
    requires Inv(s) && id in s.sides[i].streams && t.Ok()
    requires t.Gone() == s.sides[i].streams[id].Gone() && t.ended == s.sides[i].streams[id].ended
    ensures Inv(s.With(i, s.sides[i].(streams := s.sides[i].streams[id := t])))
  {
    StreamStepCalls(s, i, id, t);
    StreamChanged(Calls(s, !i), id, t);
    BothDirections(s.With(i, s.sides[i].(streams := s.sides[i].streams[id := t])), i);
  }

  lemma StreamStepCalls(s: System, i: bool, id: Id, t: Stream)
    requires s.Whole()
    ensures var s' := s.With(i, s.sides[i].(streams := s.sides[i].streams[id := t]));
      && s'.Whole() && Calls(s', i) == Calls(s, i)
      && Calls(s', !i) == Calls(s, !i).(streams := Calls(s, !i).streams[id := t])
  {
  }

  lemma EmitKeepsInv(s: System, i: bool, id: Id, payload: Payload, s': System)
    requires Inv(s) && Step(s, i, Emit(id, payload), s')
    ensures Inv(s')
  {
    var t := Calls(s, !i).streams[id];
    var t' := t.(emitted := t.emitted + [payload], buffered := t.buffered + [payload]);
    assert t.Ok() && t'.Gone() == t.Gone();
    Assoc(t.Gone(), t.buffered, [payload]);
    StreamStepKeepsInv(s, i, id, t');
  }

  lemma CloseKeepsInv(s: System, i: bool, id: Id, s': System)
    requires Inv(s) && Step(s, i, CloseOutput(id), s')
    ensures Inv(s')
  {
    assert Calls(s, !i).streams[id].Ok();
    StreamStepKeepsInv(s, i, id, s.sides[i].streams[id].(closed := true));
  }

  lemma SendResponseKeepsInv(s: System, i: bool, id: Id, s': System)
    requires Inv(s) && Step(s, i, SendResponse(id), s')
    ensures Inv(s')
  {
    ReplyStepCalls(s, i, SendResponse(id), s');
    ResponseSent(Calls(s, !i), id);
    NonCommandSent(s, i, Response(id, s.sides[i].streams[id].buffered[0]), s');
    BothDirections(s', i);
  }

  lemma SendEndKeepsInv(s: System, i: bool, id: Id, s': System)
    requires Inv(s) && Step(s, i, SendEnd(id), s')
    ensures Inv(s')
  {
    ReplyStepCalls(s, i, SendEnd(id), s');
    EndSent(Calls(s, !i), id);
    NonCommandSent(s, i, End(id), s');
    BothDirections(s', i);
  }

  /** Side `i` sends a message that is neither a command nor a cancel. */
  lemma NonCommandSent(s: System, i: bool, m: Message, s': System)
    requires Inv(s) && s'.Whole() && !m.Command? && !m.Cancel?
    requires Calls(s', i) == Calls(s, i).(requests := Calls(s, i).requests + [m])
    requires s'.sides[i].up == s.sides[i].up && s'.sides[i].lost == s.sides[i].lost
    ensures SideInv(s', i)
  {
    var d := Calls(s, i);
    RequestSent(d, m);
    OrderlySent(d.used, d.cancelled, d.outgoing, d.requests, m, d.used, d.cancelled);
  }

  lemma ReplyStepCalls(s: System, i: bool, a: Action, s': System)
    requires s.Whole() && (a.SendResponse? || a.SendEnd?) && Step(s, i, a, s')
    ensures s'.Whole() && forall j :: s'.sides[j].up == s.sides[j].up && s'.sides[j].lost == s.sides[j].lost
    ensures var mine, theirs, t := Calls(s, i), Calls(s, !i), s.sides[i].streams[a.id];
      var m := if a.SendResponse? then Response(a.id, t.buffered[0]) else End(a.id);
      var t' := if a.SendResponse? then t.(buffered := t.buffered[1..]) else t.(ended := true);
      && Calls(s', i) == mine.(requests := mine.requests + [m])
      && Calls(s', !i) == theirs.(streams := theirs.streams[a.id := t'], replies := theirs.replies + [m])
  {
    var t := s.sides[i].streams[a.id];
    Assoc(s.sides[!i].lost, s.wires[i], [if a.SendResponse? then Response(a.id, t.buffered[0]) else End(a.id)]);
  }

  lemma CancelKeepsInv(s: System, i: bool, id: Id, s': System)
    requires Inv(s) && Step(s, i, SendCancel(id), s')
    ensures Inv(s')
  {
    CancelCalls(s, i, id, s');
    CancelSent(s, i, id, s');
    NonReplySent(s, i, Cancel(id), s');
    BothDirections(s', i);
  }

  lemma CancelSent(s: System, i: bool, id: Id, s': System)
    requires Inv(s) && s'.Whole() && s'.sides[i].up == s.sides[i].up && s'.sides[i].lost == s.sides[i].lost
    requires var d := Calls(s, i);
      Calls(s', i) == d.(cancelled := d.cancelled + {id}, requests := d.requests + [Cancel(id)])
    ensures SideInv(s', i)
  {
    var d := Calls(s, i);
    RequestSent(d, Cancel(id));
    SameLedger(d.(requests := d.requests + [Cancel(id)]), d.cancelled + {id});
    OrderlySent(d.used, d.cancelled, d.outgoing, d.requests, Cancel(id), d.used, d.cancelled + {id});
  }

  lemma SameLedger(d: Direction, cancelled: set<Id>)
    requires DirInv(d)
    ensures DirInv(d.(cancelled := cancelled))
  {
    forall id ensures InStep(d.(cancelled := cancelled), id) {
      assert InStep(d, id);
    }
  }

  lemma CancelCalls(s: System, i: bool, id: Id, s': System)
    requires s.Whole() && Step(s, i, SendCancel(id), s')
    ensures s'.Whole() && forall j :: s'.sides[j].up == s.sides[j].up && s'.sides[j].lost == s.sides[j].lost
    ensures var mine, theirs := Calls(s, i), Calls(s, !i);
      && Calls(s', i) == mine.(cancelled := mine.cancelled + {id}, requests := mine.requests + [Cancel(id)])
      && Calls(s', !i) == theirs.(replies := theirs.replies + [Cancel(id)])
  {
    Assoc(s.sides[!i].lost, s.wires[i], [Cancel(id)]);
  }

  /** In a reachable state the broker never meets a protocol error: every reply is for a registered command,
      and no command is already running. So it only sends an error when the handler rejects a command. */
  lemma OnlyRejectionsFail(s: System, i: bool, accepts: bool, open: bool)
    requires Inv(s) && s.sides[i].up && s.sides[i].starting.None? && s.wires[!i] != []
    ensures NoError(s.sides[i].broker, s.wires[!i][0], accepts, open)
  {
    var m := s.wires[!i][0];
    NothingLost(s, i);
    if m.Command? {
      NextCommandIsNew(Calls(s, !i));
    } else if m.Response? || m.End? {
      NextReplyIsExpected(Calls(s, i), m.id);
    }
    ReactsWithoutError(s.sides[i].broker, m, accepts, open);
  }

  /** The id of the message is as it should be, and the broker reacts accordingly. */
  ghost predicate NoError(b: State, m: Message, accepts: bool, open: bool) {
    var r := ReactTo(b, m, accepts, open);
    && (m.Command? ==> m.id !in b.outgoing)
    && (m.Response? || m.End? ==> m.id in b.incoming)
    && ((exists e | e in r.effects :: e.Send?) ==> m.Command? && !accepts)
    && (r.status == Stops <==> m.Error? || (m.Command? && !accepts))
    && (r.status == Panics <==> m.Response? && !open)
  }

  lemma ReactsWithoutError(b: State, m: Message, accepts: bool, open: bool)
    requires (m.Command? ==> m.id !in b.outgoing) && (m.Response? || m.End? ==> m.id in b.incoming)
    ensures NoError(b, m, accepts, open)
  {
  }

  lemma NothingLost(s: System, i: bool)
    requires s.Whole() && s.sides[i].lost == []
    ensures Pending(s, i) == s.wires[!i]
  {
  }

  /** The event loop of side `i` is about to handle a message. */
  ghost predicate Receives(s: System, i: bool) {
    s.Whole() && s.sides[i].up && s.sides[i].lost == [] && s.sides[i].starting.None? && s.wires[!i] != []
  }

  lemma DeliveryKeepsInv(s: System, i: bool, accepts: bool, open: bool)
    requires Inv(s) && Receives(s, i)
    ensures Inv(Delivered(s, i, accepts, open))
  {
    OnlyRejectionsFail(s, i, accepts, open);
    NothingLost(s, i);
    match s.wires[!i][0]
    case Command(id, _, _) =>
      if accepts {
        CommandAccepted(s, i, open);
      } else {
        CommandRejected(s, i, open);
      }
    case Cancel(id) => CancelDelivered(s, i, accepts, open);
    case Response(id, payload) => ResponseDelivered(s, i, accepts, open);
    case End(id) => EndDelivered(s, i, accepts, open);
    case Error(_) => CancelDelivered(s, i, accepts, open);
  }

  /** The callee's side of taking a request: the ledger of the other side's calls, with this running set. */
  lemma TakenAt(s: System, i: bool, outgoing: set<Id>, s': System)
    requires Inv(s) && Receives(s, i) && s'.Whole() && outgoing <= Handled(Calls(s, !i).outgoing, s.wires[!i][0])
    requires Calls(s', !i) == Calls(s, !i).(requests := s.wires[!i][1..], outgoing := outgoing)
    requires s'.sides[!i].up == s.sides[!i].up && s'.sides[!i].lost == s.sides[!i].lost
    ensures SideInv(s', !i)
  {
    var d := Calls(s, !i);
    RequestTaken(d, outgoing);
    OrderlyTaken(d.used, d.cancelled, d.outgoing, d.requests, outgoing);
  }

  lemma CommandAccepted(s: System, i: bool, open: bool)
    requires Inv(s) && Receives(s, i) && s.wires[!i][0].Command?
    requires s.wires[!i][0].id !in s.sides[i].broker.outgoing
    ensures Inv(Delivered(s, i, true, open))
  {
    var d := Calls(s, !i);
    CommandCalls(s, i, true, open);
    NothingLost(s, i);
    OtherReplyTaken(Calls(s, i));
    StreamSpawned(d);
    OrderlyTaken(d.used, d.cancelled, d.outgoing, d.requests, d.outgoing + {d.requests[0].id});
    BothDirections(Delivered(s, i, true, open), i);
  }

  lemma CommandRejected(s: System, i: bool, open: bool)
    requires Inv(s) && Receives(s, i) && s.wires[!i][0].Command?
    requires s.wires[!i][0].id !in s.sides[i].broker.outgoing
    ensures Inv(Delivered(s, i, false, open))
  {
    var mine, theirs := Calls(s, i), Calls(s, !i);
    var e := Error(Some(s.wires[!i][0].id));
    CommandCalls(s, i, false, open);
    NothingLost(s, i);
    OtherReplyTaken(mine);
    RequestTaken(theirs, theirs.outgoing);
    OtherReplySent(theirs.(requests := theirs.requests[1..]), e);
    OrderlyTaken(theirs.used, theirs.cancelled, theirs.outgoing, theirs.requests, theirs.outgoing);
    RequestSent(mine.(replies := mine.replies[1..]), e);
    OrderlySent(mine.used, mine.cancelled, mine.outgoing, mine.requests, e, mine.used, mine.cancelled);
    BothDirections(Delivered(s, i, false, open), i);
  }

  lemma CommandCalls(s: System, i: bool, accepts: bool, open: bool)
    requires Receives(s, i) && s.wires[!i][0].Command? && s.wires[!i][0].id !in s.sides[i].broker.outgoing
    ensures var s', mine, theirs, id := Delivered(s, i, accepts, open), Calls(s, i), Calls(s, !i), s.wires[!i][0].id;
      && s'.Whole() && s'.sides[i].lost == [] && s'.sides[!i] == s.sides[!i]
      && Calls(s', i) == mine.(replies := s.wires[!i][1..],
                               requests := if accepts then mine.requests else mine.requests + [Error(Some(id))])
      && Calls(s', !i) ==
         if accepts then theirs.(requests := theirs.requests[1..], outgoing := theirs.outgoing + {id},
                                 streams := theirs.streams[id := Stream([], [], false, false)])
         else theirs.(requests := theirs.requests[1..], replies := theirs.replies + [Error(Some(id))])
  {
    Assoc(s.sides[!i].lost, s.wires[i], [Error(Some(s.wires[!i][0].id))]);
    NothingLost(Delivered(s, i, accepts, open), i);
  }

  lemma CancelDelivered(s: System, i: bool, accepts: bool, open: bool)
    requires Inv(s) && Receives(s, i) && (s.wires[!i][0].Cancel? || s.wires[!i][0].Error?)
    ensures Inv(Delivered(s, i, accepts, open))
  {
    var m, s' := s.wires[!i][0], Delivered(s, i, accepts, open);
    var outgoing := if m.Cancel? then Calls(s, !i).outgoing - {m.id} else Calls(s, !i).outgoing;
    NothingLost(s, i);
    NothingLost(s', i);
    OtherReplyTaken(Calls(s, i));
    assert Calls(s', i) == Calls(s, i).(replies := s.wires[!i][1..]);
    TakenAt(s, i, outgoing, s');
    BothDirections(s', i);
  }

  lemma ResponseDelivered(s: System, i: bool, accepts: bool, open: bool)
    requires Inv(s) && Receives(s, i) && s.wires[!i][0].Response?
    ensures Inv(Delivered(s, i, accepts, open))
  {
    NothingLost(s, i);
    NextReplyIsExpected(Calls(s, i), s.wires[!i][0].id);
    ReplyCalls(s, i, accepts, open);
    if open {
      ResponseHanded(Calls(s, i));
    }
    TakenAt(s, i, Calls(s, !i).outgoing, Delivered(s, i, accepts, open));
    BothDirections(Delivered(s, i, accepts, open), i);
  }

  lemma EndDelivered(s: System, i: bool, accepts: bool, open: bool)
    requires Inv(s) && Receives(s, i) && s.wires[!i][0].End?
    ensures Inv(Delivered(s, i, accepts, open))
  {
    NothingLost(s, i);
    NextReplyIsExpected(Calls(s, i), s.wires[!i][0].id);
    ReplyCalls(s, i, accepts, open);
    EndHandled(Calls(s, i));
    TakenAt(s, i, Calls(s, !i).outgoing, Delivered(s, i, accepts, open));
    BothDirections(Delivered(s, i, accepts, open), i);
  }

  lemma ReplyCalls(s: System, i: bool, accepts: bool, open: bool)
    requires Receives(s, i) && (s.wires[!i][0].Response? || s.wires[!i][0].End?)
    requires s.wires[!i][0].id in s.sides[i].broker.incoming
    requires s.sides[i].broker.incoming[s.wires[!i][0].id] in s.sides[i].received
    ensures var s', mine, theirs, m := Delivered(s, i, accepts, open), Calls(s, i), Calls(s, !i), s.wires[!i][0];
      && s'.Whole() && s'.sides[!i] == s.sides[!i]
      && (s'.sides[i].up ==> s'.sides[i].lost == []) && OnlyResponses(s'.sides[i].lost)
      && (m.Response? && !open ==> Calls(s', i) == mine)
      && (m.Response? && open ==>
            var sink := mine.expecting[m.id];
            Calls(s', i) == mine.(replies := s.wires[!i][1..],
                                  received := mine.received[sink := mine.received[sink] + [m.payload]]))
      && (m.End? ==> Calls(s', i) == mine.(replies := s.wires[!i][1..], expecting := mine.expecting - {m.id}))
      && Calls(s', !i) == theirs.(requests := theirs.requests[1..])
  {
    var s' := Delivered(s, i, accepts, open);
    if s'.sides[i].up {
      NothingLost(s', i);
    } else {
      assert [] + [s.wires[!i][0]] + s.wires[!i][1..] == s.wires[!i];
      NothingLost(s, i);
    }
  }

  lemma StepKeepsInv(s: System, i: bool, a: Action, s': System)
    requires Inv(s) && Step(s, i, a, s')
    ensures Inv(s')
  {
    match a
    case Start(id, name, payload, sink) => StartKeepsInv(s, i, id, name, payload, sink, s');
    case Register => QuietStepKeepsInv(s, i, s');
    case Deliver(accepts, open) => DeliveryKeepsInv(s, i, accepts, open);
    case Emit(id, payload) => EmitKeepsInv(s, i, id, payload, s');
    case CloseOutput(id) => CloseKeepsInv(s, i, id, s');
    case SendResponse(id) => SendResponseKeepsInv(s, i, id, s');
    case SendEnd(id) => SendEndKeepsInv(s, i, id, s');
    case SendCancel(id) => CancelKeepsInv(s, i, id, s');
  }

  lemma StepAt(states: seq<System>, n: nat) returns (i: bool, a: Action)
    requires Run(states) && n + 1 < |states|
    ensures states[n].Whole() && Step(states[n], i, a, states[n + 1])
  {
    assert NextAt(states, n);
    i, a :| Step(states[n], i, a, states[n + 1]);
  }

  lemma {:induction false} RunKeepsInv(states: seq<System>, n: nat)
    requires Run(states) && n < |states|
    ensures Inv(states[n])
  {
    if n == 0 {
      assert DirInv(Calls(INITIAL, false)) && DirInv(Calls(INITIAL, true));
    } else {
      RunKeepsInv(states, n - 1);
      var i, a := StepAt(states, n - 1);
      StepKeepsInv(states[n - 1], i, a, states[n]);
    }
  }

  // ----- What holds in every reachable state -----

  function Payloads(ms: seq<Message>): seq<Payload> {
    if ms == [] then []
    else (if ms[0].Response? then [ms[0].payload] else []) + Payloads(ms[1..])
  }

  lemma {:induction false} PayloadsConcat(a: seq<Message>, b: seq<Message>)
    ensures Payloads(a + b) == Payloads(a) + Payloads(b)
  {
    if a == [] {
      assert a + b == b;
    } else {
      assert (a + b)[1..] == a[1..] + b;
      PayloadsConcat(a[1..], b);
      Assoc(if a[0].Response? then [a[0].payload] else [], Payloads(a[1..]), Payloads(b));
    }
  }

  lemma {:induction false} PayloadsOfStream(id: Id, ps: seq<Payload>, ended: bool)
    ensures Payloads(Responses(id, ps) + EndIf(ended, id)) == ps
  {
    PayloadsConcat(Responses(id, ps), EndIf(ended, id));
    assert Payloads(EndIf(ended, id)) == [] by {
      assert EndIf(true, id)[1..] == [];
    }
    if ps != [] {
      var n := |ps| - 1;
      PayloadsOfStream(id, ps[..n], false);
      assert Responses(id, ps[..n]) + EndIf(false, id) == Responses(id, ps[..n]);
      assert ps == ps[..n] + [ps[n]];
      ResponsesSnoc(id, ps[..n], ps[n]);
      PayloadsConcat(Responses(id, ps[..n]), [Response(id, ps[n])]);
      assert Payloads([Response(id, ps[n])]) == [ps[n]] by {
        assert [Response(id, ps[n])][1..] == [];
      }
    }
  }

  function Emitted(side: Side, id: Id): seq<Payload> {
    if id in side.streams then side.streams[id].emitted else []
  }

  function Buffered(side: Side, id: Id): seq<Payload> {
    if id in side.streams then side.streams[id].buffered else []
  }

  /** Exactly once and in order, in every reachable state and for every command: what its sink was handed, then the
      payloads lost in a panic or still on the wire, then those still buffered by the sender loop, are what the handler
      emitted. A side that is up has lost nothing. */
  lemma ExactlyOnceInOrder(states: seq<System>, n: nat, caller: bool, id: Id)
    requires Run(states) && n < |states|
    ensures states[n].Whole() && (states[n].sides[caller].up ==> Pending(states[n], caller) == states[n].wires[!caller])
    ensures var x, y := states[n].sides[caller], states[n].sides[!caller];
      id in x.used ==>
        && x.used[id] in x.received
        && x.received[x.used[id]] + Payloads(RepliesTo(Pending(states[n], caller), id)) + Buffered(y, id)
           == Emitted(y, id)
  {
    RunKeepsInv(states, n);
    var d := Calls(states[n], caller);
    assert SideInv(states[n], caller) && InStep(d, id);
    if id in d.used {
      var received, replies := d.received[d.used[id]], RepliesTo(d.replies, id);
      PayloadsOfStream(id, received, id !in d.expecting);
      PayloadsConcat(HandledFor(d, id), replies);
      if id in d.streams {
        PayloadsOfStream(id, d.streams[id].Gone(), d.streams[id].ended);
      }
    }
  }

  /** Once the caller handled the end of a command, its sink was handed everything the handler emitted,
      and no reply to it is on the wire any more or was lost. */
  lemma EndMeansAllDelivered(states: seq<System>, n: nat, caller: bool, id: Id)
    requires Run(states) && n < |states|
    ensures states[n].Whole()
    ensures var x, y := states[n].sides[caller], states[n].sides[!caller];
      id in x.used && id !in x.Expecting() ==>
        && id in y.streams && y.streams[id].ended
        && x.used[id] in x.received && x.received[x.used[id]] == y.streams[id].emitted
        && x.used[id] in x.closed
        && RepliesTo(states[n].wires[!caller], id) == [] && RepliesTo(x.lost, id) == []
  {
    RunKeepsInv(states, n);
    var d := Calls(states[n], caller);
    assert SideInv(states[n], caller);
    if id in d.used && id !in d.expecting {
      FinishedBefore(d, id);
      RepliesToConcat(states[n].sides[caller].lost, states[n].wires[!caller], id);
      ClosedExactlyWhen(states, n, caller, id);
    }
  }

  /** On the wire an end is the last reply to its command. */
  lemma NothingFollowsEnd(states: seq<System>, n: nat, caller: bool, id: Id, k: nat)
    requires Run(states) && n < |states| && states[n].Whole()
    requires k < |RepliesTo(states[n].wires[!caller], id)| && RepliesTo(states[n].wires[!caller], id)[k].End?
    ensures k == |RepliesTo(states[n].wires[!caller], id)| - 1
  {
    RunKeepsInv(states, n);
    var d := Calls(states[n], caller);
    assert SideInv(states[n], caller) && InStep(d, id);
    var lost, wire := RepliesTo(states[n].sides[caller].lost, id), RepliesTo(states[n].wires[!caller], id);
    RepliesToConcat(states[n].sides[caller].lost, states[n].wires[!caller], id);
    assert id in d.streams;
    Assoc(HandledFor(d, id), lost, wire);
    EndIsLast(id, HandledFor(d, id) + lost, wire, d.streams[id].Gone(), d.streams[id].ended, k);
  }

  lemma EndIsLast(id: Id, before: seq<Message>, wire: seq<Message>, sent: seq<Payload>, ended: bool, k: nat)
    requires before + wire == Responses(id, sent) + EndIf(ended, id) && k < |wire| && wire[k].End?
    ensures k == |wire| - 1
  {
    assert forall j | 0 <= j < |sent| :: (Responses(id, sent) + EndIf(ended, id))[j] == Response(id, sent[j]);
    assert (before + wire)[|before| + k] == wire[k];
  }

  /** In every run the broker's two "Stream protocol error" branches and its already-running branch are never taken:
      an event loop stops only after a rejected command, at the side that rejected it or at its peer, and it panics
      exactly when the next message is a response and the caller dropped the other half of its sink. */
  lemma NoProtocolError(states: seq<System>, n: nat, i: bool, accepts: bool, open: bool)
    requires Run(states) && n < |states|
    ensures states[n].Whole()
    ensures states[n].sides[i].up && states[n].sides[i].starting.None? && states[n].wires[!i] != [] ==>
      NoError(states[n].sides[i].broker, states[n].wires[!i][0], accepts, open)
  {
    RunKeepsInv(states, n);
    if states[n].sides[i].up && states[n].sides[i].starting.None? && states[n].wires[!i] != [] {
      OnlyRejectionsFail(states[n], i, accepts, open);
    }
  }

  // ----- What a panic loses -----

  /** A side whose event loop is down handles nothing any more. */
  lemma DownStaysDown(s: System, j: bool, a: Action, s': System, i: bool)
    requires s.Whole() && Step(s, j, a, s') && !s.sides[i].up
    ensures s'.Whole() && AsDown(s.sides[i], s'.sides[i])
  {
    match a
    case Start(id, name, payload, sink) => StartedElsewhere(s, j, id, sink, i);
    case Deliver(accepts, open) => DeliveredElsewhere(s, j, accepts, open, i);
    case _ =>
  }

  predicate AsDown(x: Side, x': Side) {
    !x'.up && x'.received == x.received && x'.lost == x.lost && x'.used == x.used
  }

  lemma StartedElsewhere(s: System, j: bool, id: Id, sink: Sink, i: bool)
    requires s.Whole() && j != i
    ensures var s' := Started(s, j, id, sink);
      s'.Whole() && s'.wires == s.wires && s'.sides[i] == s.sides[i].(streams := Unfinished(s.sides[i].streams, id))
  {
  }

  lemma DeliveredElsewhere(s: System, j: bool, accepts: bool, open: bool, i: bool)
    requires s.Whole() && s.wires[!j] != [] && j != i
    ensures var s' := Delivered(s, j, accepts, open); s'.Whole() && s'.sides[i] == s.sides[i]
  {
  }

  lemma {:induction false} DownForEver(states: seq<System>, n: nat, m: nat, i: bool)
    requires Run(states) && n <= m < |states| && states[n].Whole() && !states[n].sides[i].up
    ensures states[m].Whole() && AsDown(states[n].sides[i], states[m].sides[i])
  {
    if n < m {
      DownForEver(states, n, m - 1, i);
      NextStaysDown(states, m - 1, i);
      AsDownOn(states[n].sides[i], states[m - 1].sides[i], states[m].sides[i]);
    }
  }

  lemma NextStaysDown(states: seq<System>, n: nat, i: bool)
    requires Run(states) && n + 1 < |states| && states[n].Whole() && !states[n].sides[i].up
    ensures states[n + 1].Whole() && AsDown(states[n].sides[i], states[n + 1].sides[i])
  {
    var j, a := StepAt(states, n);
    DownStaysDown(states[n], j, a, states[n + 1], i);
  }

  lemma AsDownOn(x: Side, x': Side, x'': Side)
    requires AsDown(x, x') && AsDown(x', x'')
    ensures AsDown(x, x'')
  {
  }

  /** The payload that a panic loses is lost for good: in every later state it is the next one the sink should have been
      handed, and the sink is handed nothing. */
  lemma LostForGood(states: seq<System>, n: nat, m: nat, i: bool)
    requires Run(states) && n <= m < |states| && states[n].Whole()
    requires states[n].sides[i].lost != []
    ensures states[m].Whole() && states[n].sides[i].lost[0].Response?
    ensures var x, x', y := states[n].sides[i], states[m].sides[i], states[m].sides[!i];
      var id, payload := x.lost[0].id, x.lost[0].payload;
      && id in x.used && x.used[id] in x.received && x'.received == x.received
      && x.received[x.used[id]] + [payload] <= Emitted(y, id)
  {
    RunKeepsInv(states, n);
    assert SideInv(states[n], i);
    DownForEver(states, n, m, i);
    var id, lost := states[n].sides[i].lost[0].id, states[n].sides[i].lost;
    NextReplyIsExpected(Calls(states[n], i), id);
    ExactlyOnceInOrder(states, m, i, id);
    RepliesToConcat(lost, states[m].wires[!i], id);
    assert RepliesTo(lost, id)[0] == lost[0];
    FirstPayload(RepliesTo(Pending(states[m], i), id));
  }

  lemma FirstPayload(ms: seq<Message>)
    requires ms != [] && ms[0].Response?
    ensures Payloads(ms) != [] && Payloads(ms)[0] == ms[0].payload
  {
  }

  /** A panic loses the response it stumbles over. */
  lemma PanicLoses(states: seq<System>, n: nat, i: bool, accepts: bool)
    requires Run(states) && n < |states| && Receives(states[n], i) && states[n].wires[!i][0].Response?
    ensures var s' := Delivered(states[n], i, accepts, false);
      !s'.sides[i].up && s'.sides[i].lost == [states[n].wires[!i][0]] && s'.wires[!i] == states[n].wires[!i][1..]
  {
    NoProtocolError(states, n, i, accepts, false);
  }

  // ----- When a caller's stream ends -----

  /** The event loop dropped the sinks of exactly those commands whose end it handled, each once. */
  ghost predicate ClosedInv(x: Side) {
    && (forall a, b | 0 <= a < b < |x.closed| :: x.closed[a] != x.closed[b])
    && (forall sink | sink in x.closed :: sink in x.received)
    && (forall sink | sink in x.received :: sink in x.closed <==> Finished(x, sink))
  }

  /** Sinks are told apart by the ids they are registered under. */
  ghost predicate Registered(x: Side) {
    && (forall id | id in x.Expecting() :: id in x.used && x.Expecting()[id] in x.received)
    && (forall a, b | a in x.Expecting() && b in x.Expecting() && a != b :: x.Expecting()[a] != x.Expecting()[b])
  }

  lemma RegisteredIs(s: System, i: bool)
    requires s.Whole() && SideInv(s, i)
    ensures Registered(s.sides[i])
  {
    var d := Calls(s, i);
    assert forall id | id in d.expecting :: id in d.used && d.expecting[id] == d.used[id];
  }

  lemma StepKeepsClosed(s: System, j: bool, a: Action, s': System, i: bool)
    requires s.Whole() && Step(s, j, a, s') && Registered(s.sides[i]) && ClosedInv(s.sides[i])
    requires a.Deliver? ==> NoError(s.sides[j].broker, s.wires[!j][0], a.accepts, a.open)
    ensures s'.Whole() && ClosedInv(s'.sides[i])
  {
    if j == i && a.Start? {
      OwnStart(s, i, a, s');
      StartKeepsClosed(s.sides[i], a.id, a.sink, s'.sides[i]);
    } else if j == i && a.Deliver? {
      OwnDelivery(s, i, a, s');
      DeliveryKeepsClosed(s, i, a.accepts, a.open);
    } else {
      OtherStep(s, j, a, s', i);
      SameCallsSameClosed(s.sides[i], s'.sides[i]);
    }
  }

  lemma OwnDelivery(s: System, i: bool, a: Action, s': System)
    requires s.Whole() && a.Deliver? && Step(s, i, a, s')
    ensures s.wires[!i] != [] && s.sides[i].starting.None? && s'.Whole() && s' == Delivered(s, i, a.accepts, a.open)
  {
    DeliveredBroker(s, i, a.accepts, a.open);
  }

  lemma OwnStart(s: System, i: bool, a: Action, s': System)
    requires s.Whole() && a.Start? && Step(s, i, a, s')
    ensures s'.Whole()
    ensures var x, x' := s.sides[i], s'.sides[i];
      && x.starting.None? && x.MayStart(a.id) && a.sink !in x.received
      && x'.starting == Some((a.id, a.sink)) && x'.broker == x.broker && x'.closed == x.closed
      && x'.received == x.received[a.sink := []]
  {
  }

  /** Only its own starts and deliveries change what a side has to do with its sinks. */
  lemma OtherStep(s: System, j: bool, a: Action, s': System, i: bool)
    requires s.Whole() && Step(s, j, a, s') && (j != i || !(a.Start? || a.Deliver?))
    ensures s'.Whole() && SameCalls(s.sides[i], s'.sides[i]) && s'.sides[i].closed == s.sides[i].closed
  {
    match a
    case Start(id, name, payload, sink) => StartedElsewhere(s, j, id, sink, i);
    case Deliver(accepts, open) => DeliveredElsewhere(s, j, accepts, open, i);
    case _ =>
  }

  lemma SameCallsSameClosed(x: Side, x': Side)
    requires ClosedInv(x) && SameCalls(x, x') && x'.closed == x.closed
    ensures ClosedInv(x')
  {
    forall sink | sink in x'.received ensures sink in x'.closed <==> Finished(x', sink) {
      assert Finished(x, sink) <==> Finished(x', sink);
    }
  }

  lemma StartKeepsClosed(x: Side, id: Id, sink: Sink, x': Side)
    requires ClosedInv(x) && Registered(x) && x.starting.None? && x.MayStart(id) && sink !in x.received
    requires x'.starting == Some((id, sink)) && x'.broker == x.broker && x'.closed == x.closed
    requires x'.received == x.received[sink := []]
    ensures ClosedInv(x')
  {
    assert x'.Expecting() == x.Expecting()[id := sink];
    assert id in x'.Expecting() && x'.Expecting()[id] == sink;
    forall other | other in x.received ensures Finished(x', other) <==> Finished(x, other) {
      if Finished(x', other) {
        forall k | k in x.Expecting() ensures x.Expecting()[k] != other {
          assert k in x'.Expecting() && x'.Expecting()[k] == x.Expecting()[k];
        }
      }
    }
  }

  lemma DeliveryKeepsClosed(s: System, i: bool, accepts: bool, open: bool)
    requires s.Whole() && s.wires[!i] != [] && s.sides[i].starting.None?
    requires Registered(s.sides[i]) && ClosedInv(s.sides[i])
    requires NoError(s.sides[i].broker, s.wires[!i][0], accepts, open)
    ensures ClosedInv(Delivered(s, i, accepts, open).sides[i])
  {
    var x, x', m := s.sides[i], Delivered(s, i, accepts, open).sides[i], s.wires[!i][0];
    if m.End? {
      EndCloses(s, i, accepts, open);
      CloseKeepsClosed(x, m.id, x');
    } else if m.Response? && open {
      ResponseLeavesOpen(s, i, accepts);
      HandKeepsClosed(x, m.id, m.payload, x');
    } else {
      OtherLeavesOpen(s, i, accepts, open);
      SameCallsSameClosed(x, x');
    }
  }

  lemma EndCloses(s: System, i: bool, accepts: bool, open: bool)
    requires s.Whole() && s.wires[!i] != [] && s.sides[i].starting.None?
    requires s.wires[!i][0].End? && s.wires[!i][0].id in s.sides[i].broker.incoming
    ensures var x, x', id := s.sides[i], Delivered(s, i, accepts, open).sides[i], s.wires[!i][0].id;
      && x'.received == x.received && x'.closed == x.closed + [x.Expecting()[id]]
      && x'.Expecting() == x.Expecting() - {id}
  {
  }

  lemma ResponseLeavesOpen(s: System, i: bool, accepts: bool)
    requires s.Whole() && s.wires[!i] != [] && s.sides[i].starting.None?
    requires s.wires[!i][0].Response? && s.wires[!i][0].id in s.sides[i].broker.incoming
    requires s.sides[i].broker.incoming[s.wires[!i][0].id] in s.sides[i].received
    ensures var x, x', m := s.sides[i], Delivered(s, i, accepts, true).sides[i], s.wires[!i][0];
      var sink := x.Expecting()[m.id];
      && x'.Expecting() == x.Expecting() && x'.closed == x.closed
      && x'.received == x.received[sink := x.received[sink] + [m.payload]]
  {
  }

  lemma OtherLeavesOpen(s: System, i: bool, accepts: bool, open: bool)
    requires s.Whole() && s.wires[!i] != [] && s.sides[i].starting.None?
    requires NoError(s.sides[i].broker, s.wires[!i][0], accepts, open)
    requires !s.wires[!i][0].End? && !(s.wires[!i][0].Response? && open)
    ensures var x, x' := s.sides[i], Delivered(s, i, accepts, open).sides[i];
      SameCalls(x, x') && x'.closed == x.closed
  {
  }

  lemma CloseKeepsClosed(x: Side, id: Id, x': Side)
    requires ClosedInv(x) && Registered(x) && id in x.Expecting() && x'.received == x.received
    requires x'.closed == x.closed + [x.Expecting()[id]] && x'.Expecting() == x.Expecting() - {id}
    ensures ClosedInv(x')
  {
    var sink := x.Expecting()[id];
    assert !Finished(x, sink);
    forall other | other in x.received ensures other in x'.closed <==> Finished(x', other) {
      assert other in x'.closed <==> other in x.closed || other == sink;
      if Finished(x', other) && other != sink {
        forall k | k in x.Expecting() ensures x.Expecting()[k] != other {
          assert k != id ==> k in x'.Expecting();
        }
      }
    }
  }

  lemma HandKeepsClosed(x: Side, id: Id, payload: Payload, x': Side)
    requires ClosedInv(x) && Registered(x) && id in x.Expecting() && x'.closed == x.closed
    requires x'.Expecting() == x.Expecting()
    requires var sink := x.Expecting()[id]; x'.received == x.received[sink := x.received[sink] + [payload]]
    ensures ClosedInv(x')
  {
    forall sink | sink in x'.received ensures Finished(x', sink) <==> Finished(x, sink) {
    }
  }

  lemma {:induction false} RunKeepsClosed(states: seq<System>, n: nat, i: bool)
    requires Run(states) && n < |states|
    ensures states[n].Whole() && ClosedInv(states[n].sides[i])
  {
    if n > 0 {
      RunKeepsClosed(states, n - 1, i);
      NextKeepsClosed(states, n - 1, i);
    }
  }

  lemma NextKeepsClosed(states: seq<System>, n: nat, i: bool)
    requires Run(states) && n + 1 < |states| && states[n].Whole() && ClosedInv(states[n].sides[i])
    ensures states[n + 1].Whole() && ClosedInv(states[n + 1].sides[i])
  {
    RunKeepsInv(states, n);
    var j, a := StepAt(states, n);
    assert SideInv(states[n], i);
    RegisteredIs(states[n], i);
    if a.Deliver? {
      OnlyRejectionsFail(states[n], j, a.accepts, a.open);
    }
    StepKeepsClosed(states[n], j, a, states[n + 1], i);
  }

  /** In every run: the sink of a command is closed exactly when the end of the command was handled, never twice. */
  lemma ClosedExactlyWhen(states: seq<System>, n: nat, i: bool, id: Id)
    requires Run(states) && n < |states|
    ensures states[n].Whole()
    ensures var x := states[n].sides[i];
      && (forall a, b | 0 <= a < b < |x.closed| :: x.closed[a] != x.closed[b])
      && (id in x.used ==> (x.used[id] in x.closed <==> id !in x.Expecting()))
  {
    RunKeepsInv(states, n);
    RunKeepsClosed(states, n, i);
    var x, d := states[n].sides[i], Calls(states[n], i);
    assert SideInv(states[n], i);
    if id in x.used && id !in x.Expecting() {
      forall k | k in x.Expecting() ensures x.Expecting()[k] != x.used[id] {
        assert k in d.expecting && d.expecting[k] == d.used[k];
      }
    }
  }

  /** A sink that was closed is handed nothing more, and never opened again. */
  lemma ClosedIsFinal(states: seq<System>, n: nat, m: nat, i: bool, sink: Sink)
    requires Run(states) && n <= m < |states| && states[n].Whole() && sink in states[n].sides[i].closed
    ensures states[m].Whole() && sink in states[n].sides[i].received && sink in states[m].sides[i].received
    ensures states[m].sides[i].received[sink] == states[n].sides[i].received[sink] && sink in states[m].sides[i].closed
  {
    RunKeepsClosed(states, n, i);
    RunKeepsClosed(states, m, i);
    FinishedIsFinal(states, n, m, i, sink);
  }

  /** What the caller sees as the end of its stream: the event loop dropped the sink, or went down with
      all its sinks. */
  predicate StreamEnds(x: Side, sink: Sink) {
    sink in x.closed || !x.up
  }

  /** While the event loop is up, a stream that ended was delivered whole. */
  lemma EndedMeansWhole(states: seq<System>, n: nat, i: bool, id: Id)
    requires Run(states) && n < |states|
    ensures states[n].Whole()
    ensures var x := states[n].sides[i];
      id in x.used && x.up && StreamEnds(x, x.used[id]) ==>
        && id in states[n].sides[!i].streams && states[n].sides[!i].streams[id].ended
        && x.used[id] in x.received && x.received[x.used[id]] == states[n].sides[!i].streams[id].emitted
  {
    ClosedExactlyWhen(states, n, i, id);
    EndMeansAllDelivered(states, n, i, id);
  }

  // ----- No command is lost -----

  predicate OnWire(wire: seq<Message>, id: Id) {
    exists k | 0 <= k < |wire| :: IsCommand(wire[k], id)
  }

  /** A command that was started is on its way, or was taken up on the other side, or the event loop there is down. */
  ghost predicate Served(s: System, i: bool, id: Id)
    requires s.Whole()
  {
    id in s.sides[i].used && s.sides[!i].up ==> id in s.sides[!i].streams || OnWire(s.wires[i], id)
  }

  lemma StepServes(s: System, j: bool, a: Action, s': System, i: bool, id: Id)
    requires s.Whole() && Step(s, j, a, s') && Served(s, i, id)
    requires a.Deliver? ==> NoError(s.sides[j].broker, s.wires[!j][0], a.accepts, a.open)
    ensures s'.Whole() && Served(s', i, id)
  {
    if a.Deliver? && j != i {
      TakingServes(s, i, a.accepts, a.open, id);
    } else if a.Start? && j == i {
      StartServes(s, i, a, s', id);
    } else {
      OtherStepServes(s, j, a, s', i);
      if OnWire(s.wires[i], id) {
        OnLongerWire(s.wires[i], s'.wires[i], id);
      }
    }
  }

  lemma OnLongerWire(wire: seq<Message>, wire': seq<Message>, id: Id)
    requires wire <= wire' && OnWire(wire, id)
    ensures OnWire(wire', id)
  {
    var k :| 0 <= k < |wire| && IsCommand(wire[k], id);
    assert IsCommand(wire'[k], id);
  }

  /** The other side handles the first message on the wire. */
  lemma TakingServes(s: System, i: bool, accepts: bool, open: bool, id: Id)
    requires s.Whole() && s.wires[i] != [] && s.sides[!i].up && Served(s, i, id)
    requires NoError(s.sides[!i].broker, s.wires[i][0], accepts, open)
    ensures var s' := Delivered(s, !i, accepts, open); s'.Whole() && Served(s', i, id)
  {
    TakenUp(s, !i, accepts, open);
    var wire := s.wires[i];
    if OnWire(wire, id) && !IsCommand(wire[0], id) {
      var k :| 0 <= k < |wire| && IsCommand(wire[k], id);
      assert wire[1..][k - 1] == wire[k];
    }
  }

  lemma TakenUp(s: System, j: bool, accepts: bool, open: bool)
    requires s.Whole() && s.wires[!j] != [] && NoError(s.sides[j].broker, s.wires[!j][0], accepts, open)
    ensures var s', m := Delivered(s, j, accepts, open), s.wires[!j][0];
      && s'.Whole() && s'.wires[!j] == s.wires[!j][1..] && s'.sides[!j] == s.sides[!j]
      && (s'.sides[j].up ==> s'.sides[j].streams.Keys == s.sides[j].streams.Keys + if m.Command? then {m.id} else {})
  {
  }

  lemma StartServes(s: System, i: bool, a: Action, s': System, id: Id)
    requires s.Whole() && a.Start? && Step(s, i, a, s') && Served(s, i, id)
    ensures s'.Whole() && Served(s', i, id)
  {
    var m := Command(a.id, a.name, a.payload);
    assert s'.wires[i] == s.wires[i] + [m] && (s.wires[i] + [m])[|s.wires[i]|] == m;
    if id == a.id {
      assert IsCommand(s'.wires[i][|s.wires[i]|], id);
    } else if OnWire(s.wires[i], id) {
      OnLongerWire(s.wires[i], s'.wires[i], id);
    }
  }

  /** No other step takes a command off the wire, or a stream away from the other side. */
  lemma OtherStepServes(s: System, j: bool, a: Action, s': System, i: bool)
    requires s.Whole() && Step(s, j, a, s') && (a.Deliver? ==> j == i) && (a.Start? ==> j != i)
    ensures s'.Whole() && LeavesCommands(s, s', i)
  {
    match a
    case Deliver(accepts, open) => DeliveryServes(s, i, accepts, open);
    case Start(_, _, _, _) =>
    case Register =>
    case Emit(_, _) =>
    case CloseOutput(_) =>
    case _ => SendingServes(s, j, a, s', i);
  }

  predicate LeavesCommands(s: System, s': System, i: bool)
    requires s.Whole() && s'.Whole()
  {
    && s'.sides[i].used == s.sides[i].used && s.wires[i] <= s'.wires[i]
    && s'.sides[!i].up == s.sides[!i].up && s'.sides[!i].streams.Keys == s.sides[!i].streams.Keys
  }

  lemma DeliveryServes(s: System, i: bool, accepts: bool, open: bool)
    requires s.Whole() && s.wires[!i] != []
    ensures var s' := Delivered(s, i, accepts, open); s'.Whole() && LeavesCommands(s, s', i)
  {
    DeliveredElsewhere(s, i, accepts, open, !i);
  }

  lemma SendingServes(s: System, j: bool, a: Action, s': System, i: bool)
    requires s.Whole() && Step(s, j, a, s') && (a.SendResponse? || a.SendEnd? || a.SendCancel?)
    ensures s'.Whole() && LeavesCommands(s, s', i)
  {
  }

  /** In every run: a command that was started is on the wire, or was taken up by the other side and runs or ran there,
      unless the event loop of that side is down. */
  lemma {:induction false} EveryCommandIsServed(states: seq<System>, n: nat, i: bool, id: Id)
    requires Run(states) && n < |states|
    ensures states[n].Whole() && Served(states[n], i, id)
  {
    if n > 0 {
      EveryCommandIsServed(states, n - 1, i, id);
      NextServes(states, n - 1, i, id);
    }
  }

  lemma NextServes(states: seq<System>, n: nat, i: bool, id: Id)
    requires Run(states) && n + 1 < |states| && states[n].Whole() && Served(states[n], i, id)
    ensures states[n + 1].Whole() && Served(states[n + 1], i, id)
  {
    RunKeepsInv(states, n);
    var j, a := StepAt(states, n);
    if a.Deliver? {
      OnlyRejectionsFail(states[n], j, a.accepts, a.open);
    }
    StepServes(states[n], j, a, states[n + 1], i, id);
  }

  // ----- Ids that are used again -----

  ghost predicate Finished(x: Side, sink: Sink) {
    sink in x.received && forall id | id in x.Expecting() :: x.Expecting()[id] != sink
  }

  /** What a finished sink was handed has not changed. */
  ghost predicate Kept(x: Side, x': Side, sink: Sink) {
    sink in x.received && Finished(x', sink) && x'.received[sink] == x.received[sink]
  }

  lemma StepKeepsFinished(s: System, j: bool, a: Action, s': System, i: bool, sink: Sink)
    requires s.Whole() && Step(s, j, a, s') && Finished(s.sides[i], sink)
    ensures s'.Whole() && Kept(s.sides[i], s'.sides[i], sink)
  {
    match a
    case Start(id, name, payload, other) => StartKeepsFinished(s, j, id, other, i, sink);
    case Deliver(accepts, open) => DeliveryKeepsFinished(s, j, accepts, open, i, sink);
    case _ => assert SameCalls(s.sides[i], s'.sides[i]);
  }

  /** Nothing about the commands of a side changes. */
  predicate SameCalls(x: Side, x': Side) {
    x'.Expecting() == x.Expecting() && x'.received == x.received
  }

  lemma StartKeepsFinished(s: System, j: bool, id: Id, other: Sink, i: bool, sink: Sink)
    requires s.Whole() && s.sides[j].starting.None? && other !in s.sides[j].received && Finished(s.sides[i], sink)
    ensures var x := Started(s, j, id, other).sides[i];
      Finished(x, sink) && x.received[sink] == s.sides[i].received[sink]
  {
    var x := Started(s, j, id, other).sides[i];
    if j == i {
      forall k | k in x.Expecting() ensures x.Expecting()[k] != sink {
        assert k != id ==> k in s.sides[i].Expecting();
      }
    } else {
      StartedElsewhere(s, j, id, other, i);
      assert SameCalls(s.sides[i], x);
    }
  }

  lemma DeliveryKeepsFinished(s: System, j: bool, accepts: bool, open: bool, i: bool, sink: Sink)
    requires s.Whole() && s.wires[!j] != [] && s.sides[j].starting.None? && Finished(s.sides[i], sink)
    ensures var s' := Delivered(s, j, accepts, open);
      s'.Whole() && Finished(s'.sides[i], sink) && s'.sides[i].received[sink] == s.sides[i].received[sink]
  {
    if j != i {
      DeliveredElsewhere(s, j, accepts, open, i);
    } else {
      assert s.sides[i].Expecting() == s.sides[i].broker.incoming;
      DeliveredExpects(s, i, accepts, open);
      DeliveredHands(s, i, accepts, open, sink);
    }
  }

  /** Handling a message registers no sink. */
  lemma DeliveredExpects(s: System, i: bool, accepts: bool, open: bool)
    requires s.Whole() && s.wires[!i] != [] && s.sides[i].starting.None?
    ensures var s' := Delivered(s, i, accepts, open);
      && s'.Whole() && s'.sides[i].starting.None?
      && forall id | id in s'.sides[i].broker.incoming ::
           id in s.sides[i].broker.incoming && s'.sides[i].broker.incoming[id] == s.sides[i].broker.incoming[id]
  {
    DeliveredBroker(s, i, accepts, open);
  }

  lemma DeliveredBroker(s: System, i: bool, accepts: bool, open: bool)
    requires s.Whole() && s.wires[!i] != []
    ensures var s' := Delivered(s, i, accepts, open);
      && s'.Whole() && s'.sides[i].starting == s.sides[i].starting
      && s'.sides[i].broker == ReactTo(s.sides[i].broker, s.wires[!i][0], accepts, open).state
  {
  }

  /** It hands a payload to no sink but a registered one. */
  lemma DeliveredHands(s: System, i: bool, accepts: bool, open: bool, sink: Sink)
    requires s.Whole() && s.wires[!i] != [] && s.sides[i].starting.None? && sink in s.sides[i].received
    requires forall id | id in s.sides[i].broker.incoming :: s.sides[i].broker.incoming[id] != sink
    ensures var x' := Delivered(s, i, accepts, open).sides[i];
      sink in x'.received && x'.received[sink] == s.sides[i].received[sink]
  {
  }

  /** Once the end of a command is handled, what its sink was handed is final, whatever its id is used for later. */
  lemma {:induction false} FinishedIsFinal(states: seq<System>, n: nat, m: nat, i: bool, sink: Sink)
    requires Run(states) && n <= m < |states| && states[n].Whole() && Finished(states[n].sides[i], sink)
    ensures states[m].Whole() && Kept(states[n].sides[i], states[m].sides[i], sink)
  {
    if n < m {
      FinishedIsFinal(states, n, m - 1, i, sink);
      NextKeepsFinished(states, m - 1, i, sink);
      KeptOn(states[n].sides[i], states[m - 1].sides[i], states[m].sides[i], sink);
    }
  }

  lemma NextKeepsFinished(states: seq<System>, n: nat, i: bool, sink: Sink)
    requires Run(states) && n + 1 < |states| && states[n].Whole() && Finished(states[n].sides[i], sink)
    ensures states[n + 1].Whole() && Kept(states[n].sides[i], states[n + 1].sides[i], sink)
  {
    var j, a := StepAt(states, n);
    StepKeepsFinished(states[n], j, a, states[n + 1], i, sink);
  }

  lemma KeptOn(x: Side, x': Side, x'': Side, sink: Sink)
    requires Kept(x, x', sink) && Kept(x', x'', sink)
    ensures Kept(x, x'', sink)
  {
  }

  /** Without the hypothesis: while a response is still to be taken off the wire, its id may not be started again.
      Started all the same, the new command is handed the response of the old one before it has even reached the
      other side. */
  lemma EarlyReuseMixes(s: System, i: bool, name: string, payload: Payload, sink: Sink)
    returns (started: System, registered: System, handed: System)
    requires Inv(s) && Receives(s, i) && s.wires[!i][0].Response? && sink !in s.sides[i].received
    ensures var id := s.wires[!i][0].id;
      && !s.sides[i].MayStart(id)
      && Happens(s, i, Start(id, name, payload, sink), started)
      && started.Whole() && Happens(started, i, Register, registered)
      && registered.Whole() && Happens(registered, i, Deliver(true, true), handed)
    ensures handed.Whole() && sink in handed.sides[i].received
    ensures handed.sides[i].received[sink] == [s.wires[!i][0].payload]
    ensures handed.wires[i] == s.wires[i] + [Command(s.wires[!i][0].id, name, payload)]
  {
    var id := s.wires[!i][0].id;
    NothingLost(s, i);
    assert SideInv(s, i);
    NextReplyIsExpected(Calls(s, i), id);
    started, registered := StartAndRegister(s, i, id, name, payload, sink);
    handed := HandTo(registered, i, sink);
  }

  lemma StartAndRegister(s: System, i: bool, id: Id, name: string, payload: Payload, sink: Sink)
    returns (started: System, registered: System)
    requires s.Whole() && s.sides[i].up && s.sides[i].starting.None? && sink !in s.sides[i].received
    ensures Happens(s, i, Start(id, name, payload, sink), started)
    ensures started.Whole() && Happens(started, i, Register, registered)
    ensures registered.Whole() && registered.sides[i].up && registered.sides[i].starting.None?
    ensures registered.sides[i].lost == s.sides[i].lost
    ensures registered.sides[!i] == s.sides[!i].(streams := Unfinished(s.sides[!i].streams, id))
    ensures registered.wires == s.wires[i := s.wires[i] + [Command(id, name, payload)]]
    ensures var x := registered.sides[i];
      id in x.broker.incoming && x.broker.incoming[id] == sink && sink in x.received && x.received[sink] == []
  {
    started := Started(s, i, id, sink).Sending(i, Command(id, name, payload));
    var x := started.sides[i];
    registered := started.With(i, x.(starting := None, broker := x.broker.(incoming := x.Expecting())));
  }

  lemma HandTo(s: System, i: bool, sink: Sink) returns (s': System)
    requires Receives(s, i) && s.wires[!i][0].Response?
    requires var x, m := s.sides[i], s.wires[!i][0];
      m.id in x.broker.incoming && x.broker.incoming[m.id] == sink && sink in x.received && x.received[sink] == []
    ensures Happens(s, i, Deliver(true, true), s') && s'.Whole() && s'.wires[i] == s.wires[i]
    ensures sink in s'.sides[i].received && s'.sides[i].received[sink] == [s.wires[!i][0].payload]
  {
    s' := Delivered(s, i, true, true);
    assert [] + [s.wires[!i][0].payload] == [s.wires[!i][0].payload];
  }

  lemma RunOneMore(states: seq<System>, i: bool, a: Action, s': System)
    requires Run(states) && states[|states| - 1].Whole() && Step(states[|states| - 1], i, a, s')
    ensures Run(states + [s'])
  {
    var all := states + [s'];
    forall n | 0 <= n < |all| - 1 ensures NextAt(all, n) {
      if n < |states| - 1 {
        assert NextAt(states, n);
      }
    }
  }

  /** A run to such a state: a command is started, taken up, and answered once. The caller may now drop the other
      half of the sink, and its event loop panics, or start the id again, and the answer goes astray. */
  lemma AnsweredRun() returns (states: seq<System>)
    ensures Run(states) && Receives(states[|states| - 1], false)
    ensures states[|states| - 1].wires[true] == [Response(1, "answer")]
  {
    var s0 := INITIAL;
    var s1, s2 := StartAndRegister(s0, false, 1, "name", "payload", 0);
    assert s2.wires[false] == [Command(1, "name", "payload")];
    var s3, s4, s5 := AnswerFirst(s2);
    states := [s0];
    RunOneMore(states, false, Start(1, "name", "payload", 0), s1);
    states := states + [s1];
    RunOneMore(states, false, Register, s2);
    states := states + [s2];
    RunOneMore(states, true, Deliver(true, true), s3);
    states := states + [s3];
    RunOneMore(states, true, Emit(1, "answer"), s4);
    states := states + [s4];
    RunOneMore(states, true, SendResponse(1), s5);
    states := states + [s5];
  }

  lemma AnswerFirst(s: System) returns (taken: System, emitted: System, sent: System)
    requires s.Whole() && s.sides[false].up && s.sides[false].lost == [] && s.sides[true] == FRESH
    requires s.wires[true] == [] && s.sides[false].starting.None?
    requires s.wires[false] != [] && s.wires[false][0].Command? && s.wires[false][0].id == 1
    ensures Step(s, true, Deliver(true, true), taken) && taken.Whole()
    ensures Step(taken, true, Emit(1, "answer"), emitted) && emitted.Whole()
    ensures Step(emitted, true, SendResponse(1), sent)
    ensures sent.Whole() && sent.sides[false] == s.sides[false] && sent.wires[true] == [Response(1, "answer")]
  {
    taken := Delivered(s, true, true, true);
    DeliveredElsewhere(s, true, true, true, false);
    var t := Stream(["answer"], ["answer"], false, false);
    assert [] + ["answer"] == ["answer"];
    emitted := taken.With(true, taken.sides[true].(streams := taken.sides[true].streams[1 := t]));
    sent := emitted.With(true, emitted.sides[true].(streams := emitted.sides[true].streams[1 := t.(buffered := [])]))
                   .Sending(true, Response(1, "answer"));
    assert ["answer"][1..] == [];
    assert [] + [Response(1, "answer")] == [Response(1, "answer")];
  }
}

/** One end of the multiplexed RPC connection: the event loop's state and how it reacts. */
module RpcBroker {
  import opened Prelude

  const U32_MAX := 0xFFFF_FFFF

  /** A non-zero 32-bit number. */
  type Id = n: nat | 0 < n <= U32_MAX witness 1

  /** A JSON value, as text. */
  type Payload = string

  /** The sending half of the channel a caller made for one command. */
  type Sink = nat

  datatype Message =
    | Command(id: Id, name: string, payload: Payload)
    | Cancel(id: Id)
    | Response(id: Id, payload: Payload)
    | End(id: Id)
    | Error(about: Option<Id>)

  datatype State = State(incoming: map<Id, Sink>, outgoing: set<Id>, nextId: Id)

  /** What one event makes the broker do besides changing its state. */
  datatype Effect = Send(msg: Message) | Hand(sink: Sink, payload: Payload) | CloseSink(sink: Sink) | Spawn(id: Id)

  /** The event loop goes on, ends with an error, or its future panics. */
  datatype Status = Goes | Stops | Panics

  datatype Reaction = Reaction(state: State, effects: seq<Effect>, status: Status)

  /** `accepts`: the handler starts the command; `open`: the caller still holds the receiving half. */
  function ReactTo(b: State, msg: Message, accepts: bool, open: bool): Reaction {
    match msg
    case Command(id, _, _) =>
      if id in b.outgoing then Reaction(b, [Send(Error(Some(id)))], Goes)
      else if !accepts then Reaction(b, [Send(Error(Some(id)))], Stops)
      else Reaction(b.(outgoing := b.outgoing + {id}), [Spawn(id)], Goes)
    case Cancel(id) =>
      Reaction(b.(outgoing := b.outgoing - {id}), [], Goes)
    case Response(id, payload) =>
      if id !in b.incoming then Reaction(b, [Send(Error(Some(id)))], Stops)
      else if open then Reaction(b, [Hand(b.incoming[id], payload)], Goes)
      else Reaction(b, [], Panics)
    case End(id) =>
      if id !in b.incoming then Reaction(b, [Send(Error(Some(id)))], Stops)
      else Reaction(b.(incoming := b.incoming - {id}), [CloseSink(b.incoming[id])], Goes)
    case Error(_) =>
      Reaction(b, [], Stops)
  }

  /** A message whose stream is not known, and a command that is refused, are answered by an error about their id;
      the event loop ends on an error, on an unknown stream, and where the handler rejects a command that is not
      running; it panics on a response that the caller no longer waits for. */
  lemma StopsExactlyWhen(b: State, msg: Message, accepts: bool, open: bool)
    ensures var r := ReactTo(b, msg, accepts, open);
      var unknown := (msg.Response? || msg.End?) && msg.id !in b.incoming;
      var running := msg.Command? && msg.id in b.outgoing;
      && (r.status == Stops <==> msg.Error? || unknown || (msg.Command? && !running && !accepts))
      && (r.status == Panics <==> msg.Response? && msg.id in b.incoming && !open)
      && (r.effects == (if msg.Error? then [] else [Send(Error(Some(msg.id)))]) <==>
          msg.Error? || unknown || running || (msg.Command? && !accepts))
      && (r.state != b ==> r.status == Goes)
  {
  }

  /** What `take_new_id` leaves in the counter. */
  function NextIdAfter(nextId: Id): Id {
    if nextId == U32_MAX then 1 else nextId
  }

  class Broker {
    var incoming: map<Id, Sink>
    var outgoing: set<Id>
    var nextId: Id

    function Value(): State
      reads this
    {
      State(incoming, outgoing, nextId)
    }

    constructor ()
      ensures Value() == State(map[], {}, 1)
    {
      incoming, outgoing, nextId := map[], {}, 1;
    }

    method TakeNewId() returns (id: Id)
      modifies this`nextId
      ensures id == old(nextId) && nextId == NextIdAfter(id)
    {
      id := nextId;
      if nextId == U32_MAX {
        nextId := 1;
      }
    }

    /** `handle_start_command`: the message goes out before the sink is registered. None when the connection is
        closed: then the id is taken all the same, nothing is registered, and the event loop ends. */
    method HandleStartCommand(name: string, payload: Payload, sink: Sink, connected: bool)
      returns (sent: Option<Message>)
      modifies this
      ensures sent == if connected then Some(Command(old(nextId), name, payload)) else None
      ensures Value() == State(
          if connected then old(incoming)[old(nextId) := sink] else old(incoming),
          old(outgoing), NextIdAfter(old(nextId)))
    {
      var id := TakeNewId();
      if !connected {
        return None;
      }
      sent := Some(Command(id, name, payload));
      incoming := incoming[id := sink];
    }

    /** `handle_message`. */
    method HandleMessage(msg: Message, accepts: bool, open: bool) returns (effects: seq<Effect>, status: Status)
      modifies this`incoming, this`outgoing
      ensures Reaction(Value(), effects, status) == ReactTo(old(Value()), msg, accepts, open)
    {
      effects, status := [], Goes;
      match msg
      case Command(id, _, _) =>
        if id in outgoing {
          effects := [Send(Error(Some(id)))];
        } else if !accepts {
          effects, status := [Send(Error(Some(id)))], Stops;
        } else {
          outgoing := outgoing + {id};
          effects := [Spawn(id)];
        }
      case Cancel(id) =>
        outgoing := outgoing - {id};
      case Response(id, payload) =>
        if id in incoming {
          if open {
            effects := [Hand(incoming[id], payload)];
          } else {
            status := Panics;
          }
        } else {
          effects, status := [Send(Error(Some(id)))], Stops;
        }
      case End(id) =>
        if id in incoming {
          effects := [CloseSink(incoming[id])];
          incoming := incoming - {id};
        } else {
          effects, status := [Send(Error(Some(id)))], Stops;
        }
      case Error(_) =>
        status := Stops;
    }
  }

  // ----- When an id can be used again -----

  /** The state after a run of messages whose commands the handler all accepts. */
  function AfterAll(b: State, msgs: seq<Message>): State {
    if msgs == [] then b
    else ReactTo(AfterAll(b, msgs[..|msgs| - 1]), msgs[|msgs| - 1], true, true).state
  }

  /** A command with this id came in, and no cancel for it since. */
  predicate StartedAndNotCancelled(msgs: seq<Message>, id: Id) {
    exists i | 0 <= i < |msgs| :: IsCommand(msgs[i], id) && forall j | i < j < |msgs| :: msgs[j] != Cancel(id)
  }

  predicate IsCommand(m: Message, id: Id) { m.Command? && m.id == id }

  /** An id is refused as already running exactly when it was started and not cancelled since.
      Whether its stream has ended makes no difference: nothing but a cancel frees an id for reuse. */
  lemma ReuseIsRefusedExactlyWhen(msgs: seq<Message>, id: Id, name: string, payload: Payload)
    ensures var r := ReactTo(AfterAll(State(map[], {}, 1), msgs), Command(id, name, payload), true, true);
      r.effects == [Send(Error(Some(id)))] <==> StartedAndNotCancelled(msgs, id)
  {
    OutgoingIs(msgs, id);
  }

  lemma {:induction false} OutgoingIs(msgs: seq<Message>, id: Id)
    ensures id in AfterAll(State(map[], {}, 1), msgs).outgoing <==> StartedAndNotCancelled(msgs, id)
  {
    if msgs != [] {
      var n := |msgs| - 1;
      var init, last := msgs[..n], msgs[n];
      OutgoingIs(init, id);
      assert forall i | 0 <= i < n :: msgs[i] == init[i];
      if StartedAndNotCancelled(init, id) && last != Cancel(id) {
        var i :| 0 <= i < n && IsCommand(init[i], id) && forall j | i < j < n :: init[j] != Cancel(id);
        assert IsCommand(msgs[i], id) && forall j | i < j < |msgs| :: msgs[j] != Cancel(id);
      }
      if IsCommand(last, id) {
        assert IsCommand(msgs[n], id);
      } else if StartedAndNotCancelled(msgs, id) {
        var i :| 0 <= i < |msgs| && IsCommand(msgs[i], id) && forall j | i < j < |msgs| :: msgs[j] != Cancel(id);
        assert msgs[n] != Cancel(id);
        assert IsCommand(init[i], id);
      }
    }
  }

  /** The allocator never moves on: all the ids it hands out on a connection are 1. */
  lemma {:induction false} AllocatorRepeats(n: nat)
    ensures CounterAfter(n) == 1
  {
    if n > 0 {
      AllocatorRepeats(n - 1);
    }
  }

  /** The counter after `n` calls of `take_new_id`, and so the id that the next call returns. */
  function CounterAfter(n: nat): Id {
    if n == 0 then 1 else NextIdAfter(CounterAfter(n - 1))
  }

  /** So the second command of a connection, even after the first has ended, is refused by the peer,
      and the refusal ends the caller's event loop. */
  lemma SecondCommandEndsConnection(name: string, payload: Payload, caller: State)
    ensures
      var first, second := CounterAfter(0), CounterAfter(1);
      var callee := ReactTo(State(map[], {}, 1), Command(first, name, payload), true, true).state;
      var refusal := ReactTo(callee, Command(second, name, payload), true, true);
      && first == second && refusal.effects == [Send(Error(Some(second)))]
      && ReactTo(caller, refusal.effects[0].msg, true, true).status == Stops
  {
  }
}

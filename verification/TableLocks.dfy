/** The locks of a table and its indexes: threads take the table lock first and an index lock under it. */
module TableLocks {

  type Tid = nat

  type Ix = nat

  /** The rows of the table, each under its id. */
  type Rows = map<nat, string>

  datatype Mode = Shared | Exclusive

  predicate Conflict(a: Mode, b: Mode) { a == Exclusive || b == Exclusive }

  /** Where a thread is. `seen` are the rows that a thread found when it got the table lock. */
  datatype Phase =
    | Idle
    | WantTable(mode: Mode)
    | HasTable(mode: Mode, seen: Rows)
    | WantIndex(mode: Mode, seen: Rows, ix: Ix, ixMode: Mode)
    | HasIndex(mode: Mode, seen: Rows, ix: Ix, ixMode: Mode)
  {
    predicate OnTable() { HasTable? || WantIndex? || HasIndex? }

    predicate OnIndex(i: Ix) { HasIndex? && ix == i }

    predicate UsesIndex(i: Ix) { (WantIndex? || HasIndex?) && ix == i }
  }

  /** The rows, and for each index the rows that its entries list. */
  datatype State = State(threads: map<Tid, Phase>, rows: Rows, entries: map<Ix, Rows>) {

    predicate AllSynced() {
      forall i | i in entries :: entries[i] == rows
    }

    /** The table lock can be granted to `t`, even by a lock that makes readers queue behind a waiting writer. */
    predicate TableFree(t: Tid, mode: Mode) {
      forall u | u in threads && u != t ::
        !(threads[u].OnTable() && Conflict(mode, threads[u].mode)) &&
        !(mode == Shared && threads[u] == WantTable(Exclusive))
    }

    predicate IndexFree(t: Tid, i: Ix, mode: Mode) {
      forall u | u in threads && u != t ::
        !(threads[u].UsesIndex(i) && Conflict(mode, threads[u].ixMode))
    }
  }

  datatype Action =
    | Request(mode: Mode)
    | GetTable
    | RequestIndex(ix: Ix, ixMode: Mode)
    | GetIndex
    | WriteRows(rows: Rows)
    | WriteEntries(rows: Rows)
    | CreateIndex(ix: Ix)
    | ReleaseIndex
    | Finish

  /** One step of thread `t`. Mutators (`add`, `update`, `remove`, `add_index`) hold the table exclusively for the
      whole operation; `get_ids`, `get_values` and `get_entries` hold it shared and take one index lock, shared.
      A lock may be granted as soon as no holder conflicts, whatever it makes of waiting threads. */
  ghost predicate Step(s: State, t: Tid, a: Action, s': State) {
    t in s.threads &&
    var p := s.threads[t];
    match a
    case Request(mode) =>
      p.Idle? && s' == s.(threads := s.threads[t := WantTable(mode)])
    case GetTable =>
      && p.WantTable?
      && (forall u | u in s.threads && u != t :: !(s.threads[u].OnTable() && Conflict(p.mode, s.threads[u].mode)))
      && s' == s.(threads := s.threads[t := HasTable(p.mode, s.rows)])
    case RequestIndex(i, mode) =>
      && p.HasTable? && i in s.entries && (p.mode == Shared ==> mode == Shared)
      && s' == s.(threads := s.threads[t := WantIndex(p.mode, p.seen, i, mode)])
    case GetIndex =>
      && p.WantIndex?
      && (forall u | u in s.threads && u != t ::
            !(s.threads[u].OnIndex(p.ix) && Conflict(p.ixMode, s.threads[u].ixMode)))
      && s' == s.(threads := s.threads[t := HasIndex(p.mode, p.seen, p.ix, p.ixMode)])
    case WriteRows(rows) =>
      p.HasTable? && p.mode == Exclusive && s' == s.(rows := rows)
    case WriteEntries(rows) =>
      p.HasIndex? && p.ixMode == Exclusive && s' == s.(entries := s.entries[p.ix := rows])
    case CreateIndex(i) =>
      p.HasTable? && p.mode == Exclusive && i !in s.entries && s' == s.(entries := s.entries[i := s.rows])
    case ReleaseIndex =>
      p.HasIndex? && s' == s.(threads := s.threads[t := HasTable(p.mode, p.seen)])
    case Finish =>
      // the table guard lives until the operation has reached every index
      p.HasTable? && (p.mode == Exclusive ==> s.AllSynced()) && s' == s.(threads := s.threads[t := Idle])
  }

  /** Besides the threads' own steps, the last handle to an index may go away when no thread is using it. */
  ghost predicate Next(s: State, s': State) {
    || (exists t, a :: Step(s, t, a, s'))
    || (exists i | i in s.entries ::
          (forall u | u in s.threads :: !s.threads[u].UsesIndex(i)) && s' == s.(entries := s.entries - {i}))
  }

  ghost predicate Init(s: State) {
    (forall t | t in s.threads :: s.threads[t] == Idle) && s.entries == map[]
  }

  ghost predicate Inv(s: State) {
    && Excluded(s) && Synced(s)
    && (forall t | t in s.threads && (s.threads[t].WantIndex? || s.threads[t].HasIndex?) ::
          s.threads[t].ix in s.entries && (s.threads[t].mode == Shared ==> s.threads[t].ixMode == Shared))
  }

  /** Whoever holds the table exclusively holds it alone. */
  ghost predicate Excluded(s: State) {
    forall t, u | t in s.threads && u in s.threads && t != u && s.threads[t].OnTable() && s.threads[u].OnTable() ::
      s.threads[t].mode == Shared && s.threads[u].mode == Shared
  }

  /** Unless some thread holds the table exclusively, all is in sync, and as every reader found it. */
  ghost predicate Synced(s: State) {
    && (forall t | t in s.threads && s.threads[t].OnTable() && s.threads[t].mode == Shared ::
          s.threads[t].seen == s.rows)
    && ((forall t | t in s.threads :: s.threads[t].OnTable() ==> s.threads[t].mode == Shared) ==> s.AllSynced())
  }

  lemma StepKeepsInv(s: State, t: Tid, a: Action, s': State)
    requires Inv(s) && Step(s, t, a, s')
    ensures Inv(s')
  {
    assert forall u | u in s'.threads && u != t :: s'.threads[u] == s.threads[u];
    assert t in s'.threads;
    StepKeepsExclusion(s, t, a, s');
    StepKeepsSync(s, t, a, s');
  }

  lemma StepKeepsExclusion(s: State, t: Tid, a: Action, s': State)
    requires Inv(s) && Step(s, t, a, s')
    ensures Excluded(s')
  {
    assert forall u | u in s'.threads && u != t :: s'.threads[u] == s.threads[u];
  }

  lemma StepKeepsSync(s: State, t: Tid, a: Action, s': State)
    requires Inv(s) && Step(s, t, a, s')
    ensures Synced(s')
  {
    assert forall u | u in s'.threads && u != t :: s'.threads[u] == s.threads[u];
    assert t in s'.threads;
    if !s.AllSynced() {
      assert exists u | u in s.threads :: s.threads[u].OnTable() && s.threads[u].mode == Exclusive;
    }
  }

  ghost predicate Run(states: seq<State>) {
    states != [] && Init(states[0]) && forall i | 0 <= i < |states| - 1 :: Next(states[i], states[i + 1])
  }

  lemma {:induction false} RunKeepsInv(states: seq<State>, n: nat)
    requires Run(states) && n < |states|
    ensures Inv(states[n])
  {
    if n > 0 {
      RunKeepsInv(states, n - 1);
      var s, s' := states[n - 1], states[n];
      assert Next(s, s');
      if t, a :| Step(s, t, a, s') {
        StepKeepsInv(s, t, a, s');
      }
    }
  }

  /** A thread that asks for an index lock never waits for it: no other thread holds it, or waits for it, in
      conflict. */
  lemma IndexLocksNeverBlock(states: seq<State>, n: nat, t: Tid)
    requires Run(states) && n < |states| && t in states[n].threads && states[n].threads[t].WantIndex?
    ensures states[n].IndexFree(t, states[n].threads[t].ix, states[n].threads[t].ixMode)
  {
    RunKeepsInv(states, n);
    IndexIsFree(states[n], t);
  }

  // ----- No deadlock -----

  /** A step under locks that make a thread queue behind every conflicting holder and waiter. */
  ghost predicate StrictStep(s: State, t: Tid, a: Action, s': State) {
    && Step(s, t, a, s')
    && (a.GetTable? ==> s.TableFree(t, s.threads[t].mode))
    && (a.GetIndex? ==> s.IndexFree(t, s.threads[t].ix, s.threads[t].ixMode))
    && !a.Request?
  }

  /** A schedule in which nobody asks for anything new: every step belongs to an operation already in progress. */
  ghost predicate Schedule(states: seq<State>) {
    states != [] && forall i | 0 <= i < |states| - 1 :: Steps(states[i], states[i + 1])
  }

  ghost predicate Steps(s: State, s': State) {
    exists t, a :: StrictStep(s, t, a, s')
  }

  ghost predicate Leads(states: seq<State>, s: State, s': State) {
    Schedule(states) && states[0] == s && states[|states| - 1] == s'
  }

  lemma Joined(a: seq<State>, b: seq<State>, s: State, mid: State, s': State)
    requires Leads(a, s, mid) && Leads(b, mid, s')
    ensures Leads(a + b[1..], s, s')
  {
    var all := a + b[1..];
    forall i | 0 <= i < |all| - 1 ensures Steps(all[i], all[i + 1]) {
      if i < |a| - 1 {
        assert Steps(a[i], a[i + 1]);
      } else {
        assert Steps(b[i - |a| + 1], b[i - |a| + 2]);
      }
    }
  }

  lemma OneStep(s: State, t: Tid, a: Action, s': State)
    requires StrictStep(s, t, a, s')
    ensures Leads([s, s'], s, s')
  {
    assert Steps(s, s');
  }

  /** The indexes that do not reflect the last operation yet. */
  function Behind(s: State): set<Ix> {
    set i | i in s.entries && s.entries[i] != s.rows
  }

  function At(s: State, t: Tid, p: Phase): State {
    s.(threads := s.threads[t := p])
  }

  /** Whoever holds the table gets an index lock without waiting. */
  lemma IndexIsFree(s: State, t: Tid)
    requires Inv(s) && t in s.threads && s.threads[t].WantIndex?
    ensures s.IndexFree(t, s.threads[t].ix, s.threads[t].ixMode)
  {
  }

  /** A mutator brings one index up to date. */
  lemma SyncOne(s: State, t: Tid, i: Ix) returns (states: seq<State>, s': State)
    requires Inv(s) && t in s.threads && s.threads[t].HasTable? && s.threads[t].mode == Exclusive && i in s.entries
    ensures Leads(states, s, s') && Inv(s')
    ensures s' == s.(entries := s.entries[i := s.rows])
  {
    var p := s.threads[t];
    var wants := At(s, t, WantIndex(p.mode, p.seen, i, Exclusive));
    OneStep(s, t, RequestIndex(i, Exclusive), wants);
    StepKeepsInv(s, t, RequestIndex(i, Exclusive), wants);
    var has := GetIndexNow(wants, t);
    Joined([s, wants], [wants, has], s, wants, has);
    var rest, last := WriteAndRelease(has, t);
    Joined([s, wants] + [wants, has][1..], rest, s, has, last);
    states, s' := [s, wants] + [wants, has][1..] + rest[1..], last;
    assert s'.threads == s.threads;
  }

  lemma WriteAndRelease(s: State, t: Tid) returns (states: seq<State>, s': State)
    requires Inv(s) && t in s.threads && s.threads[t].HasIndex? && s.threads[t].ixMode == Exclusive
    ensures Leads(states, s, s') && Inv(s')
    ensures var p := s.threads[t];
      s' == At(s, t, HasTable(p.mode, p.seen)).(entries := s.entries[p.ix := s.rows])
  {
    var p := s.threads[t];
    var written := s.(entries := s.entries[p.ix := s.rows]);
    OneStep(s, t, WriteEntries(s.rows), written);
    StepKeepsInv(s, t, WriteEntries(s.rows), written);
    s' := At(written, t, HasTable(p.mode, p.seen));
    OneStep(written, t, ReleaseIndex, s');
    StepKeepsInv(written, t, ReleaseIndex, s');
    Joined([s, written], [written, s'], s, written, s');
    states := [s, written] + [written, s'][1..];
  }

  lemma GetIndexNow(s: State, t: Tid) returns (s': State)
    requires Inv(s) && t in s.threads && s.threads[t].WantIndex?
    ensures Leads([s, s'], s, s') && Inv(s')
    ensures var p := s.threads[t]; s' == At(s, t, HasIndex(p.mode, p.seen, p.ix, p.ixMode))
  {
    var p := s.threads[t];
    s' := At(s, t, HasIndex(p.mode, p.seen, p.ix, p.ixMode));
    IndexIsFree(s, t);
    OneStep(s, t, GetIndex, s');
    StepKeepsInv(s, t, GetIndex, s');
  }

  /** Whoever holds the table can run on to the end of its operation; nobody else moves. */
  lemma {:induction false} FinishFromTable(s: State, t: Tid) returns (states: seq<State>, s': State)
    requires Inv(s) && t in s.threads && s.threads[t].HasTable?
    ensures Leads(states, s, s') && Inv(s') && s'.threads == s.threads[t := Idle]
    decreases Behind(s)
  {
    if s.threads[t].mode == Exclusive && Behind(s) != {} {
      var i :| i in Behind(s);
      var first, mid := SyncOne(s, t, i);
      assert Behind(mid) == Behind(s) - {i};
      var rest, last := FinishFromTable(mid, t);
      Joined(first, rest, s, mid, last);
      states, s' := first + rest[1..], last;
    } else {
      s' := At(s, t, Idle);
      states := [s, s'];
      assert s.threads[t].mode == Exclusive ==> forall i | i in s.entries :: i !in Behind(s);
      OneStep(s, t, Finish, s');
      StepKeepsInv(s, t, Finish, s');
    }
  }

  lemma FinishOnTable(s: State, t: Tid) returns (states: seq<State>, s': State)
    requires Inv(s) && t in s.threads && s.threads[t].OnTable()
    ensures Leads(states, s, s') && Inv(s') && s'.threads == s.threads[t := Idle]
  {
    var has := s;
    states := [s];
    if s.threads[t].WantIndex? {
      has := GetIndexNow(s, t);
      states := [s, has];
    }
    var onTable := has;
    if has.threads[t].HasIndex? {
      var p := has.threads[t];
      onTable := At(has, t, HasTable(p.mode, p.seen));
      OneStep(has, t, ReleaseIndex, onTable);
      StepKeepsInv(has, t, ReleaseIndex, onTable);
      Joined(states, [has, onTable], s, has, onTable);
      states := states + [has, onTable][1..];
    }
    var rest, last := FinishFromTable(onTable, t);
    Joined(states, rest, s, onTable, last);
    states, s' := states + rest[1..], last;
    assert s'.threads == s.threads[t := Idle];
  }

  /** Once nobody is on the table, a writer that waits, or without one any reader, gets it and finishes. */
  lemma FinishWaiting(s: State, t: Tid) returns (states: seq<State>, s': State)
    requires Inv(s) && t in s.threads && s.threads[t].WantTable? && s.TableFree(t, s.threads[t].mode)
    ensures Leads(states, s, s') && Inv(s') && s'.threads == s.threads[t := Idle]
  {
    var has := At(s, t, HasTable(s.threads[t].mode, s.rows));
    OneStep(s, t, GetTable, has);
    StepKeepsInv(s, t, GetTable, has);
    var rest, last := FinishFromTable(has, t);
    Joined([s, has], rest, s, has, last);
    states, s' := [s, has] + rest[1..], last;
  }

  function AtWork(s: State): set<Tid> {
    set t | t in s.threads && s.threads[t] != Idle
  }

  /** Of the threads at work, one that can finish without waiting for another. */
  lemma CanFinish(s: State) returns (t: Tid)
    requires AtWork(s) != {}
    ensures t in AtWork(s)
    ensures s.threads[t].OnTable() || (s.threads[t].WantTable? && s.TableFree(t, s.threads[t].mode))
  {
    if u :| u in s.threads && s.threads[u].OnTable() {
      t := u;
    } else if u :| u in s.threads && s.threads[u] == WantTable(Exclusive) {
      t := u;
    } else {
      t :| t in AtWork(s);
    }
  }

  lemma {:induction false} FinishAll(s: State) returns (states: seq<State>, s': State)
    requires Inv(s)
    ensures Leads(states, s, s') && s'.threads.Keys == s.threads.Keys && AtWork(s') == {}
    decreases AtWork(s)
  {
    if AtWork(s) == {} {
      return [s], s;
    }
    var t := CanFinish(s);
    var first, mid;
    if s.threads[t].OnTable() {
      first, mid := FinishOnTable(s, t);
    } else {
      first, mid := FinishWaiting(s, t);
    }
    assert AtWork(mid) == AtWork(s) - {t};
    var rest, last := FinishAll(mid);
    Joined(first, rest, s, mid, last);
    return first + rest[1..], last;
  }

  /** No deadlock: from every reachable state the operations in progress can all run on to their end, with no help
      from anyone else, even under locks that make readers queue behind a waiting writer. */
  lemma NoDeadlock(states: seq<State>, n: nat) returns (more: seq<State>)
    requires Run(states) && n < |states|
    ensures Schedule(more) && more[0] == states[n]
    ensures forall t | t in states[n].threads :: t in more[|more| - 1].threads && more[|more| - 1].threads[t] == Idle
  {
    RunKeepsInv(states, n);
    var last;
    more, last := FinishAll(states[n]);
    forall t | t in states[n].threads ensures t in last.threads && last.threads[t] == Idle {
      assert t !in AtWork(last);
    }
  }

  /** While a thread is at work, some thread can take a step that changes something. */
  lemma SomeoneCanStep(states: seq<State>, n: nat, t: Tid) returns (u: Tid, a: Action, s': State)
    requires Run(states) && n < |states| && t in states[n].threads && states[n].threads[t] != Idle
    ensures StrictStep(states[n], u, a, s') && s' != states[n]
  {
    var more := NoDeadlock(states, n);
    assert |more| > 1;
    s' := FirstChange(more);
    assert Steps(states[n], s');
    u, a :| StrictStep(states[n], u, a, s');
  }

  lemma {:induction false} FirstChange(states: seq<State>) returns (s': State)
    requires Schedule(states) && states[|states| - 1] != states[0]
    ensures Steps(states[0], s') && s' != states[0]
  {
    assert Steps(states[0], states[1]);
    if states[1] != states[0] {
      s' := states[1];
    } else {
      forall i | 0 <= i < |states[1..]| - 1 ensures Steps(states[1..][i], states[1..][i + 1]) {
        assert Steps(states[i + 1], states[i + 2]);
      }
      s' := FirstChange(states[1..]);
    }
  }

  /** A lookup sees rows and entries of the same completed operation, the one that was the last when it got the
      table. */
  lemma LookupSeesOneOperation(states: seq<State>, n: nat, t: Tid)
    requires Run(states) && n < |states| && t in states[n].threads
    requires states[n].threads[t].HasIndex? && states[n].threads[t].mode == Shared
    ensures var s, p := states[n], states[n].threads[t];
      p.ix in s.entries && s.entries[p.ix] == s.rows == p.seen
  {
    RunKeepsInv(states, n);
    var s := states[n];
    assert forall u | u in s.threads && u != t :: s.threads[u].OnTable() ==> s.threads[u].mode == Shared;
  }
}

/** The table itself: rows, counter, and weak handles to the indexes, updated in two phases. */
module TableCore {
  import opened Prelude
  import opened KeyIndex
  import opened IndexStore
  import opened TableSpec

  const U64_MAX := 0xFFFF_FFFF_FFFF_FFFF

  class TableCore<T(!new), K(!new)> {
    var nextId: nat
    var rows: map<nat, T>
    var indexes: seq<IndexStore<T, K>>

    ghost function Registered(): set<IndexStore<T, K>>
      reads this`indexes
    {
      set ix | ix in indexes
    }

    /** The indexes that some strong handle still refers to. */
    ghost function Live(): map<IndexStore<T, K>, Index<T, K>>
      reads this`indexes, Registered()
    {
      map ix | ix in indexes && ix.live :: ix.Value()
    }

    ghost function State(): Table<IndexStore<T, K>, T, K>
      reads this, Registered()
    {
      Table(nextId, rows, Live())
    }

    ghost predicate Separate()
      reads this`indexes
    {
      forall i, j | 0 <= i < j < |indexes| :: indexes[i] != indexes[j]
    }

    ghost predicate Valid()
      reads this, Registered()
    {
      Separate() && State().Consistent()
    }

    constructor ()
      ensures Valid() && State() == Empty()
    {
      nextId, rows, indexes := 0, map[], [];
    }

    /** `apply`: the request goes to every index that is still referred to, in turn, up to the first that fails;
        after a full round the handles of dropped indexes are discarded. */
    method Apply(req: Request<T>) returns (r: Reply)
      requires Separate() && req.Proper() && forall ix | ix in Live() :: Live()[ix].InSync(req.Listed())
      modifies this`indexes, Registered()
      ensures Separate() && Handles(old(Registered()), old(Live().Keys))
      ensures r.Ok? ==> AllAfter(old(Live()), req, Live()) && AllReplyOk(old(Live()), req, Live().Keys)
      ensures !r.Ok? ==> exists ix | ix in old(Live()) :: ReplyTo(old(Live())[ix], req) == r
      ensures !r.Ok? && req.IsCheck() ==> forall ix | ix in Live() :: Live()[ix] == old(Live())[ix]
    {
      r := AskAll(req);
      if r.Ok? {
        ghost var asked := Live();
        RetainValidIndexes();
        FewerAfter(old(Live()), req, asked, Live());
      }
    }

    /** The same before the pruning. */
    method AskAll(req: Request<T>) returns (r: Reply)
      requires Separate() && req.Proper() && forall ix | ix in Live() :: Live()[ix].InSync(req.Listed())
      modifies Registered()
      ensures Separate() && Live().Keys <= old(Live().Keys)
      ensures r.Ok? ==> AllAfter(old(Live()), req, Live()) && AllReplyOk(old(Live()), req, Live().Keys)
      ensures !r.Ok? ==> exists ix | ix in old(Live()) :: ReplyTo(old(Live())[ix], req) == r
      ensures !r.Ok? && req.IsCheck() ==> forall ix | ix in Live() :: Live()[ix] == old(Live())[ix]
    {
      r := AskInTurn(req, Plan(req));
      if r.Ok? {
        forall ix | ix in Live() ensures ix in old(Live()) && Foretold(old(Live())[ix], req, Ok(()), Live()[ix]) {
          var j :| 0 <= j < |indexes| && indexes[j] == ix;
        }
      }
    }

    static lemma FewerAfter(
        was: map<IndexStore<T, K>, Index<T, K>>, req: Request<T>,
        asked: map<IndexStore<T, K>, Index<T, K>>, now: map<IndexStore<T, K>, Index<T, K>>)
      requires req.Proper() && AllAfter(was, req, asked) && AllReplyOk(was, req, asked.Keys)
      requires forall ix | ix in now :: ix in asked && now[ix] == asked[ix]
      ensures AllAfter(was, req, now) && AllReplyOk(was, req, now.Keys)
    {
    }

    static ghost predicate AllReplyOk(
        was: map<IndexStore<T, K>, Index<T, K>>, req: Request<T>, still: set<IndexStore<T, K>>)
      requires req.Proper()
    {
      forall ix | ix in still :: ix in was && was[ix].InSync(req.Listed()) && ReplyTo(was[ix], req) == Ok(())
    }

    /** What every live index will reply and become. */
    ghost function Plan(req: Request<T>): (plan: seq<(Reply, Index<T, K>)>)
      requires req.Proper() && forall ix | ix in Live() :: Live()[ix].InSync(req.Listed())
      reads this, Registered()
      ensures |plan| == |indexes|
      ensures forall j | 0 <= j < |indexes| && indexes[j].live ::
        Foretold(indexes[j].Value(), req, plan[j].0, plan[j].1)
    {
      var live, ixs := Live(), indexes;
      seq(|ixs|,
        j requires 0 <= j < |ixs| && req.Proper() && (forall ix | ix in live :: live[ix].InSync(req.Listed())) =>
        if ixs[j] in live then (ReplyTo(live[ixs[j]], req), After(live[ixs[j]], req))
        else (Ok(()), Index(ixs[j].key, ixs[j].le, ixs[j].unique, [])))
    }

    /** The loop of `apply`. */
    method AskInTurn(req: Request<T>, ghost plan: seq<(Reply, Index<T, K>)>) returns (r: Reply)
      requires Separate() && req.Proper() && |plan| == |indexes|
      requires forall j | 0 <= j < |indexes| && indexes[j].live ::
        Foretold(indexes[j].Value(), req, plan[j].0, plan[j].1)
      modifies Registered()
      ensures forall j | 0 <= j < |indexes| && indexes[j].live :: old(indexes[j].live)
      ensures r.Ok? ==> forall j | 0 <= j < |indexes| && indexes[j].live ::
        plan[j].0 == Ok(()) && indexes[j].Value() == plan[j].1
      ensures !r.Ok? ==> exists j | 0 <= j < |indexes| :: old(indexes[j].live) && plan[j].0 == r
      ensures !r.Ok? && req.IsCheck() ==> forall j | 0 <= j < |indexes| && indexes[j].live ::
        indexes[j].entries == old(indexes[j].entries)
    {
      for i := 0 to |indexes|
        invariant forall j | i <= j < |indexes| ::
          indexes[j].live == old(indexes[j].live) && indexes[j].entries == old(indexes[j].entries)
        invariant forall j | 0 <= j < i :: indexes[j].live ==>
          old(indexes[j].live) && plan[j].0 == Ok(()) && indexes[j].Value() == plan[j].1
        invariant req.IsCheck() ==> forall j | 0 <= j < i :: indexes[j].entries == old(indexes[j].entries)
      {
        r := Ask(indexes[i], req, plan[i].0, plan[i].1);
        if !r.Ok? {
          return;
        }
      }
      return Ok(());
    }

    static ghost predicate Foretold(before: Index<T, K>, req: Request<T>, reply: Reply, after: Index<T, K>)
      requires req.Proper()
    {
      before.InSync(req.Listed()) && reply == ReplyTo(before, req) && after == After(before, req)
    }

    /** Every handle was there before, and of those the ones that are still referred to are all kept. */
    ghost predicate Handles(were: set<IndexStore<T, K>>, lived: set<IndexStore<T, K>>)
      reads this`indexes, were
    {
      Registered() <= were && forall ix | ix in were && ix.live :: ix in Registered() && ix in lived
    }

    /** One turn: a dropped index is passed over. */
    static method Ask(ix: IndexStore<T, K>, req: Request<T>, ghost reply: Reply, ghost after: Index<T, K>)
      returns (r: Reply)
      requires req.Proper() && (ix.live ==> Foretold(ix.Value(), req, reply, after))
      modifies ix
      ensures ix.live ==> old(ix.live)
      ensures r.Ok? ==> ix.live ==> reply == Ok(()) && ix.Value() == after
      ensures !r.Ok? ==> old(ix.live) && r == reply
      ensures !r.Ok? || req.IsCheck() || !old(ix.live) ==> ix.entries == old(ix.entries)
    {
      var alive := ix.Upgrade();
      if alive {
        r := ix.Answer(req);
      } else {
        r := Ok(());
      }
    }

    /** `retain_valid_indexes`. */
    method RetainValidIndexes()
      requires Separate()
      modifies this`indexes, Registered()`live
      ensures Separate() && Handles(old(Registered()), old(Live().Keys))
    {
      var kept: seq<IndexStore<T, K>> := [];
      for i := 0 to |indexes|
        invariant indexes == old(indexes)
        invariant forall j | 0 <= j < |indexes| && indexes[j].live :: old(indexes[j].live)
        invariant forall ix | ix in kept :: ix in indexes[..i]
        invariant forall j | 0 <= j < i && indexes[j].live :: indexes[j] in kept
        invariant forall j, k | 0 <= j < k < |kept| :: kept[j] != kept[k]
      {
        assert indexes[i] !in indexes[..i];
        var alive := indexes[i].Upgrade();
        if alive {
          kept := kept + [indexes[i]];
        }
        assert indexes[..i + 1] == indexes[..i] + [indexes[i]];
      }
      assert indexes[..|indexes|] == indexes;
      indexes := kept;
    }

    /** The first phase of an operation: nothing but the set of live indexes can have changed. */
    method CheckAll(req: Request<T>) returns (r: Reply)
      requires Valid() && req.IsCheck() && req.Proper() && req.rows == rows
      modifies this`indexes, Registered()
      ensures Separate() && Handles(old(Registered()), old(Live().Keys))
      ensures State() == old(State()).Only(Live().Keys)
      ensures r.Ok? ==> AllReplyOk(old(Live()), req, Live().Keys)
      ensures !r.Ok? ==> exists ix | ix in old(Live()) :: ReplyTo(old(Live())[ix], req) == r
    {
      ghost var s0 := State();
      r := Apply(req);
      if r.Ok? {
        ChecksLeave(s0.indexes, req, Live());
      } else {
        assert Live() == s0.Only(Live().Keys).indexes;
      }
    }

    /** The second phase of `add_entry`. */
    method FileAll(value: T)
      requires Valid() && nextId !in rows
      modifies this, Registered()
      ensures Separate() && Handles(old(Registered()), old(Live().Keys))
      ensures State() == old(State()).Only(Live().Keys).Added(value) && State().Consistent()
    {
      ghost var s0 := State();
      var newId := nextId;
      rows := rows[newId := value];
      nextId := nextId + 1;
      assert rows - {newId} == s0.rows && Live() == s0.indexes;
      var r := Apply(FileEntry(rows, newId));
      AddedToAll(s0, value, Live());
    }

    /** `add_entry`. A refused row changes nothing. */
    method AddEntry(value: T) returns (r: Outcome<nat, Error>)
      requires Valid() && nextId < U64_MAX
      modifies this, Registered()
      ensures Valid() && Handles(old(Registered()), old(Live().Keys)) && !r.Panic?
      ensures r.Ok? ==>
        var s := old(State()).Only(Live().Keys);
        r.value == old(nextId) && !s.Conflict(value) && State() == s.Added(value)
      ensures r.Err? ==>
        r.error == AlreadyExists && old(State()).Conflict(value) && State() == old(State()).Only(Live().Keys)
      ensures r.Ok? ==> rows == old(rows)[old(nextId) := value] && nextId == old(nextId) + 1
      ensures Does(old(State()), AddRow(value), State(), Live().Keys)
    {
      ghost var s0 := State();
      var newId := nextId;
      assert newId !in rows;
      var checked := CheckAll(CheckAdd(rows, value));
      ghost var live := Live().Keys;
      OnlyTwice(s0, s0.indexes.Keys, live);
      if checked.Ok? {
        FileAll(value);
        OnlyTwice(s0, live, Live().Keys);
        return Ok(newId);
      } else {
        return checked.PropagateFailure();
      }
    }

    /** The second phase of `update_entry`: the row is overwritten before the indexes are asked. */
    method RefileAll(id: nat, value: T) returns (r: Reply)
      requires Valid() && id in rows
      modifies this, Registered()
      ensures Separate() && Handles(old(Registered()), old(Live().Keys))
      ensures r.Ok? ==>
        var s := old(State()).Only(Live().Keys);
        s.Consistent() && SameKeys(s, id, value) && State() == s.Updated(id, value)
      ensures !r.Ok? ==> r.Panic? && !SameKeys(old(State()), id, value)
      ensures !r.Ok? ==> rows == old(rows)[id := value] && nextId == old(nextId)
    {
      ghost var s0 := State();
      var replaced := rows[id];
      rows := rows[id := value];
      assert rows[id := replaced] == s0.rows && Live() == s0.indexes;
      r := Apply(RefileEntry(rows, id, replaced));
      if r.Ok? {
        UpdatedInAll(s0, id, value, Live());
      }
    }

    /** An update that keeps the key of its row in every index takes effect, one that takes the key of another row in a
        unique index that is still there is refused, and there is no other reason to refuse it. */
    static ghost predicate Decided(
        s: Table<IndexStore<T, K>, T, K>, still: set<IndexStore<T, K>>, id: nat, value: T, r: Reply)
      requires id in s.rows
    {
      && (SameKeys(s, id, value) ==> r.Ok?)
      && (KeyTaken(s.Only(still), id, value) ==> r == Err(AlreadyExists))
      && (r.Err? ==> r.error == AlreadyExists && KeyTaken(s, id, value))
    }

    /** `update_entry`. It takes effect as a whole or, refused, changes nothing, unless it panics. */
    method UpdateEntry(id: nat, value: T) returns (r: Outcome<(), Error>)
      requires Valid()
      modifies this, Registered()
      ensures Handles(old(Registered()), old(Live().Keys)) && (!r.Panic? ==> Valid())
      ensures r.Ok? ==>
        var s := old(State()).Only(Live().Keys);
        s.Consistent() && id in s.rows && s.UpdateAccepted(id, value) && State() == s.Updated(id, value)
      ensures r.Err? ==>
        State() == old(State()).Only(Live().Keys) &&
        if id !in old(rows) then r.error == UpdatedNonexistentEntry(id)
        else r.error == AlreadyExists && old(State()).UpdateRefused(id, value)
      ensures r.Ok? ==> rows == old(rows)[id := value] && nextId == old(nextId)
      ensures r.Panic? ==> id in old(rows) && old(State()).UpdatePanics(id, value)
      ensures r.Panic? ==> nextId == old(nextId) && (rows == old(rows) || rows == old(rows)[id := value])
      ensures id in old(rows) && !old(State()).UpdateRefused(id, value) ==>
        var s := old(State()).Only(Live().Keys);
        s.Consistent() && (!s.UpdateAccepted(id, value) ==> r.Panic?)
      ensures id in old(rows) && UniqueKept(old(State())) ==> Decided(old(State()), Live().Keys, id, value, r)
      ensures !r.Panic? ==> Does(old(State()), UpdateRow(id, value), State(), Live().Keys)
    {
      ghost var s0 := State();
      if id !in rows {
        OnlyTwice(s0, s0.indexes.Keys, Live().Keys);
        return Err(UpdatedNonexistentEntry(id));
      }
      r := CheckUpdateAll(id, value);
      ghost var live := Live().Keys;
      OnlyTwice(s0, s0.indexes.Keys, live);
      if r.Ok? {
        r := RefileAll(id, value);
        OnlyTwice(s0, live, Live().Keys);
        if r.Ok? {
          Accepted(s0, live, Live().Keys, id, value);
          UpdatedConsistent(s0.Only(Live().Keys), id, value);
          AcceptedDoes(s0, id, value, State(), Live().Keys);
        }
      } else if r.Err? {
        RefusedDoes(s0, id, value, State(), Live().Keys);
      }
      if UniqueKept(s0) {
        SettledIsDecided(s0, Live().Keys, id, value, r);
      }
    }

    /** The first phase of `update_entry`, in terms of rows and keys. */
    method CheckUpdateAll(id: nat, value: T) returns (r: Reply)
      requires Valid() && id in rows
      modifies this`indexes, Registered()
      ensures Separate() && Handles(old(Registered()), old(Live().Keys))
      ensures State() == old(State()).Only(Live().Keys)
      ensures r.Ok? ==> !KeyTaken(State(), id, value)
      ensures r.Err? ==> r.error == AlreadyExists && old(State()).UpdateRefused(id, value)
      ensures r.Panic? ==> AssertionFails(old(State()), value)
    {
      ghost var s0 := State();
      r := CheckAll(CheckUpdate(rows, id, value));
      forall ix | ix in s0.indexes
        ensures var v := s0.indexes[ix];
          UpdateReply(v, s0.rows, id, value, ReplyTo(v, CheckUpdate(s0.rows, id, value)))
      {
        UpdateReplyIs(s0.indexes[ix], s0.rows, id, value);
      }
    }

    /** An update that passes both phases is accepted by every index that is left. */
    static lemma Accepted(
        s: Table<IndexStore<T, K>, T, K>, checked: set<IndexStore<T, K>>, still: set<IndexStore<T, K>>,
        id: nat, value: T)
      requires s.Consistent() && id in s.rows && still <= checked && s.Only(still).Consistent()
      requires !KeyTaken(s.Only(checked), id, value)
      requires SameKeys(s.Only(still), id, value)
      ensures s.Only(still).UpdateAccepted(id, value)
    {
      var was, now := s.Only(checked).indexes, s.Only(still).indexes;
      forall h | h in now ensures !(now[h].unique && now[h].HeldByAnother(s.rows, id, now[h].key(value))) {
        assert h in was && was[h] == now[h];
      }
    }

    /** What is known when an update that found its row comes back. */
    static ghost predicate Settled(
        s: Table<IndexStore<T, K>, T, K>, still: set<IndexStore<T, K>>, id: nat, value: T, r: Reply)
      requires s.Consistent() && id in s.rows
    {
      match r
      case Ok(_) => s.Only(still).Consistent() && s.Only(still).UpdateAccepted(id, value)
      case Err(e) => e == AlreadyExists && s.UpdateRefused(id, value)
      case Panic => AssertionFails(s, value) || (!SameKeys(s, id, value) && !KeyTaken(s.Only(still), id, value))
    }

    static ghost predicate AssertionFails(s: Table<IndexStore<T, K>, T, K>, value: T) {
      exists ix | ix in s.indexes && s.indexes[ix].unique :: s.indexes[ix].HeldTwice(s.rows, s.indexes[ix].key(value))
    }

    static lemma SettledIsDecided(
        s: Table<IndexStore<T, K>, T, K>, still: set<IndexStore<T, K>>, id: nat, value: T, r: Reply)
      requires s.Consistent() && id in s.rows && UniqueKept(s) && Settled(s, still, id, value, r)
      ensures Decided(s, still, id, value, r)
    {
      UpdateIs(s, id, value);
      forall ix | ix in s.indexes && s.indexes[ix].unique
        ensures !s.indexes[ix].HeldTwice(s.rows, s.indexes[ix].key(value))
      {
        NotHeldTwice(s.indexes[ix], s.rows, s.indexes[ix].key(value));
      }
      if r.Ok? {
        NotTaken(s.Only(still), id, value);
      }
      if SameKeys(s, id, value) {
        NotTaken(s, id, value);
      }
    }

    static lemma NotTaken(s: Table<IndexStore<T, K>, T, K>, id: nat, value: T)
      requires s.Consistent() && id in s.rows && s.UpdateAccepted(id, value)
      ensures !KeyTaken(s, id, value)
    {
    }

    /** The second phase of `remove_entry`: the row goes last. */
    method UnfileAll(id: nat)
      requires Valid() && id in rows
      modifies this, Registered()
      ensures Separate() && Handles(old(Registered()), old(Live().Keys))
      ensures State() == old(State()).Only(Live().Keys).Removed(id) && State().Consistent()
    {
      ghost var s0 := State();
      var r := Apply(UnfileEntry(rows, id));
      RemovedFromAll(s0, id, Live());
      ghost var live := Live();
      rows := rows - {id};
      assert Live() == live;
    }

    /** `remove_entry`. */
    method RemoveEntry(id: nat) returns (r: Outcome<T, Error>)
      requires Valid()
      modifies this, Registered()
      ensures Valid() && Handles(old(Registered()), old(Live().Keys)) && !r.Panic?
      ensures r.Ok? ==>
        var s := old(State()).Only(Live().Keys);
        s.Consistent() && id in s.rows && r.value == s.rows[id] && State() == s.Removed(id)
      ensures r.Err? ==>
        r.error == RemovingNonexistentId(id) && id !in old(rows) && State() == old(State())
      ensures r.Ok? ==> r.value == old(rows)[id] && rows == old(rows) - {id} && nextId == old(nextId)
      ensures Does(old(State()), RemoveRow(id), State(), Live().Keys)
    {
      ghost var s0 := State();
      if id !in rows {
        return Err(RemovingNonexistentId(id));
      }
      var checked := CheckAll(CheckRemove(rows, id));
      assert checked.Ok?;
      ghost var live := Live().Keys;
      OnlyTwice(s0, s0.indexes.Keys, live);
      var value := rows[id];
      UnfileAll(id);
      OnlyTwice(s0, live, Live().Keys);
      return Ok(value);
    }

    /** `add_index_inner`. */
    method AddIndex(unique: bool, key: T -> K, le: (K, K) -> bool) returns (ix: IndexStore<T, K>)
      requires Valid() && TotalPreorder(le)
      modifies this`indexes
      ensures Valid() && fresh(ix) && ix.live && Registered() == old(Registered()) + {ix}
      ensures ix.Value() == Index(key, le, unique, ix.entries) && ix.Value().InSync(rows) && ix.Value().Canonical(rows)
      ensures State() == old(State()).(indexes := old(Live())[ix := ix.Value()])
      ensures Next(old(State()), CreateIndex(ix, unique, key, le), State())
    {
      ix := new IndexStore<T, K>(rows, unique, key, le);
      indexes := indexes + [ix];
      assert Live() == old(Live())[ix := ix.Value()];
    }

    /** `Index::get_ids`: the ids of the rows with a key equal to `k`, by a lookup. */
    method GetIds(ix: IndexStore<T, K>, k: K) returns (ids: seq<nat>)
      requires Valid() && ix in Registered() && ix.live
      ensures NoDup(ids) && forall id :: id in ids <==> id in rows && Equal(ix.le, k, ix.key(rows[id]))
    {
      assert ix in Live() && Live()[ix].InSync(rows);
      ids := ix.GetEntries(rows, k);
      ix.Value().FoundIsScan(rows, k);
    }

    /** `Index::get_entries`: the rows themselves, with their ids; no id that a lookup returns is missing. */
    method GetRows(ix: IndexStore<T, K>, k: K) returns (found: seq<(nat, T)>)
      requires Valid() && ix in Registered() && ix.live
      ensures forall i | 0 <= i < |found| ::
        found[i].0 in rows && found[i].1 == rows[found[i].0] && Equal(ix.le, k, ix.key(found[i].1))
      ensures forall i, j | 0 <= i < j < |found| :: found[i].0 != found[j].0
      ensures forall id | id in rows && Equal(ix.le, k, ix.key(rows[id])) ::
        exists i | 0 <= i < |found| :: found[i].0 == id
    {
      var ids := GetIds(ix, k);
      found := [];
      for n := 0 to |ids|
        invariant |found| == n
        invariant forall i | 0 <= i < n :: ids[i] in ids && found[i] == (ids[i], rows[ids[i]])
      {
        assert ids[n] in ids;
        found := found + [(ids[n], rows[ids[n]])];
      }
      forall id | id in rows && Equal(ix.le, k, ix.key(rows[id]))
        ensures exists i | 0 <= i < |found| :: found[i].0 == id
      {
        var i :| 0 <= i < |ids| && ids[i] == id;
        assert found[i].0 == id;
      }
    }
  }
}

/** The indexed table as a transition system: rows under ascending ids, and the live indexes over them. */
module TableSpec {
  import opened Prelude
  import opened KeyIndex
  import opened IndexStore

  datatype Table<H(==), !T(!new), !K(!new)> = Table(nextId: nat, rows: map<nat, T>, indexes: map<H, Index<T, K>>) {

    /** Ids are below the counter, and every live index lists exactly the rows in key order. */
    ghost predicate Consistent() {
      (forall id | id in rows :: id < nextId) && forall h | h in indexes :: indexes[h].InSync(rows)
    }

    /** The table with some of its indexes dropped. */
    function Only(hs: set<H>): Table<H, T, K> {
      this.(indexes := map h | h in indexes && h in hs :: indexes[h])
    }

    /** Some live unique index already holds the key of `value`. */
    ghost predicate Conflict(value: T) {
      exists h | h in indexes :: indexes[h].unique && indexes[h].Holds(rows, indexes[h].key(value))
    }

    ghost function Added(value: T): Table<H, T, K>
      requires Consistent()
    {
      var rows' := rows[nextId := value];
      assert rows' - {nextId} == rows;
      Table(nextId + 1, rows', EachAfter(indexes, FileEntry(rows', nextId)))
    }

    /** No live unique index lists another row with the new key, and none has to file the row under another key. */
    ghost predicate UpdateAccepted(id: nat, value: T)
      requires Consistent() && id in rows
    {
      forall h | h in indexes ::
        !(indexes[h].unique && indexes[h].HeldByAnother(rows, id, indexes[h].key(value))) &&
        Equal(indexes[h].le, indexes[h].key(rows[id]), indexes[h].key(value))
    }

    /** In some live unique index another row, and only one, holds the new key. */
    ghost predicate UpdateRefused(id: nat, value: T)
      requires Consistent() && id in rows
    {
      exists h | h in indexes && indexes[h].unique ::
        indexes[h].HeldByAnother(rows, id, indexes[h].key(value)) && !indexes[h].HeldTwice(rows, indexes[h].key(value))
    }

    /** Some live index lists several rows under the new key although it is unique, or would have to file the row
        under another key: the one fails an assertion, the other unwraps a lookup that found nothing. */
    ghost predicate UpdatePanics(id: nat, value: T)
      requires Consistent() && id in rows
    {
      exists h | h in indexes ::
        (indexes[h].unique && indexes[h].HeldTwice(rows, indexes[h].key(value))) ||
        !Equal(indexes[h].le, indexes[h].key(rows[id]), indexes[h].key(value))
    }

    ghost function Updated(id: nat, value: T): Table<H, T, K>
      requires Consistent() && id in rows
    {
      var rows' := rows[id := value];
      assert rows'[id := rows[id]] == rows;
      Table(nextId, rows', EachAfter(indexes, RefileEntry(rows', id, rows[id])))
    }

    ghost function Removed(id: nat): Table<H, T, K>
      requires Consistent() && id in rows
    {
      Table(nextId, rows - {id}, EachAfter(indexes, UnfileEntry(rows, id)))
    }
  }

  /** Every index after it replied to the request. */
  ghost function EachAfter<H, T(!new), K(!new)>(indexes: map<H, Index<T, K>>, req: Request<T>): map<H, Index<T, K>>
    requires req.Proper() && forall h | h in indexes :: indexes[h].InSync(req.Listed())
  {
    map h | h in indexes :: After(indexes[h], req)
  }

  function Empty<H(==), T(!new), K(!new)>(): Table<H, T, K> {
    Table(0, map[], map[])
  }

  datatype Event<H, !T, !K> =
    | AddRow(value: T)
    | UpdateRow(id: nat, value: T)
    | RemoveRow(id: nat)
    | CreateIndex(h: H, unique: bool, key: T -> K, le: (K, K) -> bool)
    | DropIndex(h: H)

  /** One operation that does not panic: it takes effect as a whole, or it is refused and changes nothing. */
  ghost predicate Next<H, T(!new), K(!new)>(s: Table<H, T, K>, ev: Event<H, T, K>, s': Table<H, T, K>)
    requires s.Consistent()
  {
    match ev
    case AddRow(value) =>
      if s.Conflict(value) then s' == s else s' == s.Added(value)
    case UpdateRow(id, value) =>
      if id !in s.rows then s' == s
      else if s.UpdateAccepted(id, value) then s' == s.Updated(id, value)
      else s' == s && s.UpdateRefused(id, value)
    case RemoveRow(id) =>
      if id !in s.rows then s' == s else s' == s.Removed(id)
    case CreateIndex(h, unique, key, le) =>
      && TotalPreorder(le) && h !in s.indexes && h in s'.indexes
      && s' == s.(indexes := s.indexes[h := s'.indexes[h]])
      && var ix := s'.indexes[h]; ix == Index(key, le, unique, ix.entries) && ix.InSync(s.rows) && ix.Canonical(s.rows)
    case DropIndex(h) =>
      s' == s.(indexes := s.indexes - {h})
  }

  lemma NextKeepsConsistent<H, T(!new), K(!new)>(s: Table<H, T, K>, ev: Event<H, T, K>, s': Table<H, T, K>)
    requires s.Consistent() && Next(s, ev, s')
    ensures s'.Consistent()
  {
    match ev
    case AddRow(value) =>
      if !s.Conflict(value) {
        AddedConsistent(s, value);
      }
    case UpdateRow(id, value) =>
      if id in s.rows && s.UpdateAccepted(id, value) {
        UpdatedConsistent(s, id, value);
      }
    case RemoveRow(id) =>
      if id in s.rows {
        RemovedConsistent(s, id);
      }
    case CreateIndex(h, unique, key, le) =>
    case DropIndex(h) =>
  }

  lemma AddedConsistent<H, T(!new), K(!new)>(s: Table<H, T, K>, value: T)
    requires s.Consistent()
    ensures s.Added(value).Consistent()
  {
    var rows' := s.rows[s.nextId := value];
    assert rows' - {s.nextId} == s.rows;
    forall h | h in s.indexes ensures After(s.indexes[h], FileEntry(rows', s.nextId)).InSync(rows') {
      AfterInSync(s.indexes[h], FileEntry(rows', s.nextId));
    }
  }

  lemma UpdatedConsistent<H, T(!new), K(!new)>(s: Table<H, T, K>, id: nat, value: T)
    requires s.Consistent() && id in s.rows && s.UpdateAccepted(id, value)
    ensures s.Updated(id, value).Consistent()
  {
    var rows' := s.rows[id := value];
    var req := RefileEntry(rows', id, s.rows[id]);
    assert rows'[id := s.rows[id]] == s.rows;
    forall h | h in s.indexes ensures After(s.indexes[h], req).InSync(rows') {
      AfterInSync(s.indexes[h], req);
    }
  }

  lemma RemovedConsistent<H, T(!new), K(!new)>(s: Table<H, T, K>, id: nat)
    requires s.Consistent() && id in s.rows
    ensures s.Removed(id).Consistent()
  {
    forall h | h in s.indexes ensures After(s.indexes[h], UnfileEntry(s.rows, id)).InSync(s.rows - {id}) {
      AfterInSync(s.indexes[h], UnfileEntry(s.rows, id));
    }
  }

  lemma OnlyTwice<H, T(!new), K(!new)>(s: Table<H, T, K>, more: set<H>, fewer: set<H>)
    requires fewer <= more
    ensures s.Only(more).Only(fewer) == s.Only(fewer)
    ensures s.Consistent() ==> s.Only(fewer).Consistent()
  {
  }

  /** Every index that is left replied to the request. */
  ghost predicate AllAfter<H, T(!new), K(!new)>(was: map<H, Index<T, K>>, req: Request<T>, now: map<H, Index<T, K>>)
    requires req.Proper()
  {
    now.Keys <= was.Keys && forall h | h in now :: was[h].InSync(req.Listed()) && now[h] == After(was[h], req)
  }

  lemma EachAfterIs<H, T(!new), K(!new)>(was: map<H, Index<T, K>>, req: Request<T>, now: map<H, Index<T, K>>)
    requires req.Proper() && AllAfter(was, req, now)
    ensures now == EachAfter(map h | h in was && h in now.Keys :: was[h], req)
  {
  }

  lemma ChecksLeave<H, T(!new), K(!new)>(was: map<H, Index<T, K>>, req: Request<T>, now: map<H, Index<T, K>>)
    requires req.Proper() && req.IsCheck() && AllAfter(was, req, now)
    ensures now == map h | h in was && h in now.Keys :: was[h]
  {
  }

  lemma AddedToAll<H, T(!new), K(!new)>(s: Table<H, T, K>, value: T, now: map<H, Index<T, K>>)
    requires s.Consistent()
    requires AllAfter(s.indexes, FileEntry(s.rows[s.nextId := value], s.nextId), now)
    ensures s.Only(now.Keys).Consistent()
    ensures Table(s.nextId + 1, s.rows[s.nextId := value], now) == s.Only(now.Keys).Added(value)
    ensures s.Only(now.Keys).Added(value).Consistent()
  {
    OnlyTwice(s, s.indexes.Keys, now.Keys);
    EachAfterIs(s.indexes, FileEntry(s.rows[s.nextId := value], s.nextId), now);
    AddedConsistent(s.Only(now.Keys), value);
  }

  lemma UpdatedInAll<H, T(!new), K(!new)>(s: Table<H, T, K>, id: nat, value: T, now: map<H, Index<T, K>>)
    requires s.Consistent() && id in s.rows
    requires AllAfter(s.indexes, RefileEntry(s.rows[id := value], id, s.rows[id]), now)
    ensures s.Only(now.Keys).Consistent()
    ensures Table(s.nextId, s.rows[id := value], now) == s.Only(now.Keys).Updated(id, value)
  {
    OnlyTwice(s, s.indexes.Keys, now.Keys);
    EachAfterIs(s.indexes, RefileEntry(s.rows[id := value], id, s.rows[id]), now);
  }

  lemma RemovedFromAll<H, T(!new), K(!new)>(s: Table<H, T, K>, id: nat, now: map<H, Index<T, K>>)
    requires s.Consistent() && id in s.rows && AllAfter(s.indexes, UnfileEntry(s.rows, id), now)
    ensures s.Only(now.Keys).Consistent()
    ensures Table(s.nextId, s.rows - {id}, now) == s.Only(now.Keys).Removed(id)
    ensures s.Only(now.Keys).Removed(id).Consistent()
  {
    OnlyTwice(s, s.indexes.Keys, now.Keys);
    EachAfterIs(s.indexes, UnfileEntry(s.rows, id), now);
    RemovedConsistent(s.Only(now.Keys), id);
  }

  // ----- Runs -----

  /** A run from the empty table; every update in it keeps the keys of the row or is refused. */
  ghost predicate Run<H, T(!new), K(!new)>(states: seq<Table<H, T, K>>, events: seq<Event<H, T, K>>)
  {
    && |states| == |events| + 1
    && states[0] == Empty()
    && forall i | 0 <= i < |events| :: states[i].Consistent() ==> Next(states[i], events[i], states[i + 1])
  }

  lemma {:induction false} RunIsConsistent<H, T(!new), K(!new)>(
      states: seq<Table<H, T, K>>, events: seq<Event<H, T, K>>, n: nat)
    requires Run(states, events) && n < |states|
    ensures states[n].Consistent()
  {
    if n > 0 {
      RunIsConsistent(states, events, n - 1);
      NextKeepsConsistent(states[n - 1], events[n - 1], states[n]);
    }
  }

  /** In every state of every run a lookup in any live index returns exactly the ids of the rows
      whose key equals the one looked for, each once. */
  lemma LookupIsScan<H, T(!new), K(!new)>(states: seq<Table<H, T, K>>, events: seq<Event<H, T, K>>, n: nat, h: H, k: K)
    requires Run(states, events) && n < |states| && h in states[n].indexes
    ensures var s, ix := states[n], states[n].indexes[h];
      && ix.Covered(s.rows) && NoDup(ix.Found(s.rows, k))
      && forall id :: id in ix.Found(s.rows, k) <==> id in s.rows && Equal(ix.le, k, ix.key(s.rows[id]))
  {
    RunIsConsistent(states, events, n);
    states[n].indexes[h].FoundIsScan(states[n].rows, k);
  }

  ghost predicate Canonical<H, T(!new), K(!new)>(s: Table<H, T, K>)
    requires s.Consistent()
  {
    forall h | h in s.indexes :: s.indexes[h].Canonical(s.rows)
  }

  lemma NextKeepsCanonical<H, T(!new), K(!new)>(s: Table<H, T, K>, ev: Event<H, T, K>, s': Table<H, T, K>)
    requires s.Consistent() && Next(s, ev, s') && Canonical(s) && !ev.UpdateRow?
    ensures s'.Consistent() && Canonical(s')
  {
    NextKeepsConsistent(s, ev, s');
    match ev
    case AddRow(value) =>
      if !s.Conflict(value) {
        AddedCanonical(s, value);
      }
    case RemoveRow(id) =>
      if id in s.rows {
        RemovedCanonical(s, id);
      }
    case CreateIndex(_, _, _, _) =>
    case DropIndex(_) =>
  }

  lemma AddedCanonical<H, T(!new), K(!new)>(s: Table<H, T, K>, value: T)
    requires s.Consistent() && Canonical(s) && s.Added(value).Consistent()
    ensures Canonical(s.Added(value))
  {
    var rows' := s.rows[s.nextId := value];
    assert rows' - {s.nextId} == s.rows;
    forall h | h in s.indexes ensures s.Added(value).indexes[h].Canonical(rows') {
      s.indexes[h].FiledCanonical(rows', s.nextId);
    }
  }

  lemma RemovedCanonical<H, T(!new), K(!new)>(s: Table<H, T, K>, id: nat)
    requires s.Consistent() && Canonical(s) && id in s.rows && s.Removed(id).Consistent()
    ensures Canonical(s.Removed(id))
  {
    forall h | h in s.indexes ensures s.Removed(id).indexes[h].Canonical(s.rows - {id}) {
      AfterUnfileCanonical(s.indexes[h], s.rows, id, s.Removed(id).indexes[h]);
    }
  }

  lemma AfterUnfileCanonical<T(!new), K(!new)>(ix: Index<T, K>, rows: map<nat, T>, id: nat, ix': Index<T, K>)
    requires ix.InSync(rows) && ix.Canonical(rows) && id in rows && ix' == After(ix, UnfileEntry(rows, id))
    ensures ix'.Covered(rows - {id}) && ix'.Canonical(rows - {id})
  {
    AfterUnfileIs(ix, rows, id);
    ix.UnfiledCanonical(rows, id);
  }

  lemma AfterUnfileIs<T(!new), K(!new)>(ix: Index<T, K>, rows: map<nat, T>, id: nat)
    requires ix.InSync(rows) && id in rows
    ensures id in ix.entries && After(ix, UnfileEntry(rows, id)) == ix.Unfiled(id)
  {
  }

  lemma {:induction false} RunIsCanonical<H, T(!new), K(!new)>(
      states: seq<Table<H, T, K>>, events: seq<Event<H, T, K>>, n: nat)
    requires Run(states, events) && n < |states| && forall i | 0 <= i < n :: !events[i].UpdateRow?
    ensures states[n].Consistent() && Canonical(states[n])
  {
    if n > 0 {
      RunIsCanonical(states, events, n - 1);
      NextKeepsCanonical(states[n - 1], events[n - 1], states[n]);
    }
  }

  /** Without updates, when an index was created makes no difference: two live indexes
      with the same key function and order hold the same entries. */
  lemma LateIndexIsTheSame<H, T(!new), K(!new)>(
      states: seq<Table<H, T, K>>, events: seq<Event<H, T, K>>, n: nat, a: H, b: H)
    requires Run(states, events) && n < |states| && forall i | 0 <= i < n :: !events[i].UpdateRow?
    requires a in states[n].indexes && b in states[n].indexes
    requires states[n].indexes[a].key == states[n].indexes[b].key && states[n].indexes[a].le == states[n].indexes[b].le
    ensures states[n].indexes[a].entries == states[n].indexes[b].entries
  {
    RunIsCanonical(states, events, n);
    states[n].indexes[a].CanonicalIsUnique(states[n].indexes[b], states[n].rows);
  }

  /** No live unique index lists two rows with equal keys. */
  ghost predicate UniqueKept<H, T(!new), K(!new)>(s: Table<H, T, K>) {
    forall h | h in s.indexes :: s.indexes[h].unique ==> s.indexes[h].DistinctKeys(s.rows)
  }

  /** Creation is the one place where a unique index can come to list equal keys: existing rows are not checked. */
  ghost predicate CreatedOverDistinct<H, T(!new), K(!new)>(s: Table<H, T, K>, ev: Event<H, T, K>) {
    ev.CreateIndex? && ev.unique ==> Index(ev.key, ev.le, true, []).DistinctKeys(s.rows)
  }

  /** A step keeps the keys of unique indexes distinct exactly when it does not create one over equal keys. */
  lemma NextKeepsUnique<H, T(!new), K(!new)>(s: Table<H, T, K>, ev: Event<H, T, K>, s': Table<H, T, K>)
    requires s.Consistent() && Next(s, ev, s') && UniqueKept(s)
    ensures UniqueKept(s') <==> CreatedOverDistinct(s, ev)
  {
    match ev
    case AddRow(value) =>
      if !s.Conflict(value) {
        AddedUnique(s, value);
      }
    case UpdateRow(id, value) =>
      if id in s.rows && s.UpdateAccepted(id, value) {
        UpdatedUnique(s, id, value);
      }
    case RemoveRow(id) =>
      if id in s.rows {
        RemovedUnique(s, id);
      }
    case CreateIndex(h, unique, key, le) =>
      assert s'.indexes[h].DistinctKeys(s'.rows) <==> Index(key, le, true, []).DistinctKeys(s.rows);
    case DropIndex(h) =>
  }

  lemma EachAfterKeepsKeys<H, T(!new), K(!new)>(indexes: map<H, Index<T, K>>, req: Request<T>)
    requires req.Proper() && forall h | h in indexes :: indexes[h].InSync(req.Listed())
    ensures forall h | h in indexes ::
      var ix, ix' := indexes[h], EachAfter(indexes, req)[h];
      ix'.key == ix.key && ix'.le == ix.le && ix'.unique == ix.unique
  {
    forall h | h in indexes
      ensures var ix, ix' := indexes[h], EachAfter(indexes, req)[h];
        ix'.key == ix.key && ix'.le == ix.le && ix'.unique == ix.unique
    {
      AfterKeepsKeys(indexes[h], req);
    }
  }

  lemma AddedUnique<H, T(!new), K(!new)>(s: Table<H, T, K>, value: T)
    requires s.Consistent() && UniqueKept(s) && !s.Conflict(value)
    ensures UniqueKept(s.Added(value))
  {
    var rows' := s.rows[s.nextId := value];
    assert rows' - {s.nextId} == s.rows;
    EachAfterKeepsKeys(s.indexes, FileEntry(rows', s.nextId));
    forall h | h in s.indexes && s.indexes[h].unique ensures Distinct(s.indexes[h].key, s.indexes[h].le, rows') {
      var ix := s.indexes[h];
      assert ix.DistinctKeys(s.rows) && !ix.Holds(s.rows, ix.key(value));
    }
  }

  lemma UpdatedUnique<H, T(!new), K(!new)>(s: Table<H, T, K>, id: nat, value: T)
    requires s.Consistent() && UniqueKept(s) && id in s.rows && s.UpdateAccepted(id, value)
    ensures UniqueKept(s.Updated(id, value))
  {
    var rows' := s.rows[id := value];
    assert rows'[id := s.rows[id]] == s.rows;
    EachAfterKeepsKeys(s.indexes, RefileEntry(rows', id, s.rows[id]));
    forall h | h in s.indexes && s.indexes[h].unique ensures Distinct(s.indexes[h].key, s.indexes[h].le, rows') {
      SameKeyDistinct(s.indexes[h], s.rows, id, value);
    }
  }

  lemma RemovedUnique<H, T(!new), K(!new)>(s: Table<H, T, K>, id: nat)
    requires s.Consistent() && UniqueKept(s) && id in s.rows
    ensures UniqueKept(s.Removed(id))
  {
    EachAfterKeepsKeys(s.indexes, UnfileEntry(s.rows, id));
    forall h | h in s.indexes && s.indexes[h].unique
      ensures Distinct(s.indexes[h].key, s.indexes[h].le, s.rows - {id})
    {
      assert s.indexes[h].DistinctKeys(s.rows);
    }
  }

  lemma SameKeyDistinct<T(!new), K(!new)>(ix: Index<T, K>, rows: map<nat, T>, id: nat, value: T)
    requires TotalPreorder(ix.le) && ix.DistinctKeys(rows) && id in rows
    requires Equal(ix.le, ix.key(rows[id]), ix.key(value))
    ensures ix.DistinctKeys(rows[id := value])
  {
    var rows' := rows[id := value];
    forall a, b | a in rows' && b in rows' && a != b ensures !Equal(ix.le, ix.key(rows'[a]), ix.key(rows'[b])) {
      assert !Equal(ix.le, ix.key(rows[a]), ix.key(rows[b]));
      assert Equal(ix.le, ix.key(rows[a]), ix.key(rows'[a])) && Equal(ix.le, ix.key(rows[b]), ix.key(rows'[b]));
    }
  }

  lemma {:induction false} RunKeepsUnique<H, T(!new), K(!new)>(
      states: seq<Table<H, T, K>>, events: seq<Event<H, T, K>>, n: nat)
    requires Run(states, events) && n < |states|
    requires forall i | 0 <= i < n :: CreatedOverDistinct(states[i], events[i])
    ensures UniqueKept(states[n])
  {
    if n > 0 {
      RunIsConsistent(states, events, n - 1);
      RunKeepsUnique(states, events, n - 1);
      NextKeepsUnique(states[n - 1], events[n - 1], states[n]);
    }
  }

  /** In such runs the length assertion of the update check never fails. */
  lemma UpdateCheckNeverPanics<H, T(!new), K(!new)>(
      states: seq<Table<H, T, K>>, events: seq<Event<H, T, K>>, n: nat, h: H, id: nat, value: T)
    requires Run(states, events) && n < |states|
    requires forall i | 0 <= i < n :: CreatedOverDistinct(states[i], events[i])
    requires h in states[n].indexes && id in states[n].rows
    ensures states[n].indexes[h].InSync(states[n].rows)
    ensures !ReplyTo(states[n].indexes[h], CheckUpdate(states[n].rows, id, value)).Panic?
  {
    RunIsConsistent(states, events, n);
    RunKeepsUnique(states, events, n);
    var ix := states[n].indexes[h];
    if ix.unique {
      ix.AtMostOne(states[n].rows, ix.key(value));
    }
  }

  /** No live index has to file the row under another key. */
  ghost predicate SameKeys<H, T(!new), K(!new)>(s: Table<H, T, K>, id: nat, value: T)
    requires id in s.rows
  {
    forall h | h in s.indexes :: Equal(s.indexes[h].le, s.indexes[h].key(s.rows[id]), s.indexes[h].key(value))
  }

  /** In some live unique index another row holds the new key. */
  ghost predicate KeyTaken<H, T(!new), K(!new)>(s: Table<H, T, K>, id: nat, value: T) {
    exists h | h in s.indexes && s.indexes[h].unique :: s.indexes[h].HeldByAnother(s.rows, id, s.indexes[h].key(value))
  }

  /** While no unique index lists equal keys, an update is accepted exactly when the row keeps its key in every live
      index, is refused exactly when another row holds its new key in a unique one, and panics in any other case. */
  lemma UpdateIs<H, T(!new), K(!new)>(s: Table<H, T, K>, id: nat, value: T)
    requires s.Consistent() && UniqueKept(s) && id in s.rows
    ensures s.UpdateAccepted(id, value) <==> SameKeys(s, id, value)
    ensures s.UpdateRefused(id, value) <==> KeyTaken(s, id, value)
    ensures s.UpdatePanics(id, value) && !s.UpdateRefused(id, value) <==>
            !SameKeys(s, id, value) && !KeyTaken(s, id, value)
  {
  }

  /** In every state of such a run: an update that keeps the key of the row in every live index takes effect; one that
      takes the key of another row in a unique index is refused, with nothing changed; any other does not come back. */
  lemma RunUpdates<H, T(!new), K(!new)>(
      states: seq<Table<H, T, K>>, events: seq<Event<H, T, K>>, n: nat, id: nat, value: T, s': Table<H, T, K>)
    requires Run(states, events) && n < |states|
    requires forall i | 0 <= i < n :: CreatedOverDistinct(states[i], events[i])
    requires id in states[n].rows
    ensures states[n].Consistent()
    ensures var s := states[n]; var comesBack := Next(s, UpdateRow(id, value), s');
      && (SameKeys(s, id, value) ==> !KeyTaken(s, id, value) && (comesBack <==> s' == s.Updated(id, value)))
      && (KeyTaken(s, id, value) ==> (comesBack <==> s' == s))
      && (!SameKeys(s, id, value) && !KeyTaken(s, id, value) ==> !comesBack)
  {
    RunIsConsistent(states, events, n);
    RunKeepsUnique(states, events, n);
    UpdateIs(states[n], id, value);
  }

  // ----- The order among equal keys, with updates -----

  type AllTimes<!H> = map<H, Times>

  /** The times of filing after an event that happens at time `now`: an id is filed when its row is added, when its
      row is updated, and, together with all others, when the index is created. */
  ghost function TimesAfter<H, T(!new), K(!new)>(
      s: Table<H, T, K>, ev: Event<H, T, K>, times: AllTimes<H>, now: nat): AllTimes<H>
    requires s.Consistent()
  {
    match ev
    case AddRow(value) =>
      if s.Conflict(value) then times else map h | h in times :: times[h][s.nextId := now]
    case UpdateRow(id, value) =>
      if id in s.rows && s.UpdateAccepted(id, value) then map h | h in times :: times[h][id := now] else times
    case CreateIndex(h, _, _, _) => times[h := map id | id in s.rows :: now]
    case _ => times
  }

  /** Every live index lists equal keys in the order in which they were filed, all of them before `now`. */
  ghost predicate InTime<H, T(!new), K(!new)>(s: Table<H, T, K>, times: AllTimes<H>, now: nat) {
    forall h | h in s.indexes :: h in times && FiledInTime(s.indexes[h], s.rows, times[h], now)
  }

  ghost predicate FiledInTime<T(!new), K(!new)>(ix: Index<T, K>, rows: map<nat, T>, when: Times, now: nat) {
    ix.Covered(rows) && ix.Ordered(rows, when) && forall id | id in rows :: Time(when, id) < now
  }

  lemma NextKeepsInTime<H, T(!new), K(!new)>(
      s: Table<H, T, K>, ev: Event<H, T, K>, s': Table<H, T, K>, times: AllTimes<H>, now: nat, times': AllTimes<H>)
    requires s.Consistent() && Next(s, ev, s') && InTime(s, times, now) && times' == TimesAfter(s, ev, times, now)
    ensures InTime(s', times', now + 1)
  {
    match ev
    case AddRow(value) =>
      if !s.Conflict(value) {
        var rows' := s.rows[s.nextId := value];
        assert rows' - {s.nextId} == s.rows;
        EachInTime(s.indexes, FileEntry(rows', s.nextId), times, now, s', times');
      }
    case UpdateRow(id, value) =>
      if id in s.rows && s.UpdateAccepted(id, value) {
        UpdatedInTime(s, id, value, s', times, now, times');
      }
    case RemoveRow(id) =>
      if id in s.rows {
        EachInTime(s.indexes, UnfileEntry(s.rows, id), times, now, s', times');
      }
    case CreateIndex(h, _, _, _) => CreatedInTime(s, h, s', times, now);
    case DropIndex(_) =>
  }

  /** Filed now, an id comes after all that were filed before. */
  lemma FiledLast<T(!new), K(!new)>(ix: Index<T, K>, rows: map<nat, T>, id: nat, when: Times, now: nat)
    requires id in rows && ix.InSync(rows - {id}) && ix.Ordered(rows - {id}, when)
    requires forall other | other in rows && other != id :: Time(when, other) < now
    ensures ix.Covered(rows) && FiledInTime(ix.Filed(rows, id), rows, when[id := now], now + 1)
  {
    ix.OrderedInMore(rows - {id}, when, rows - {id}, when[id := now]);
    ix.FiledOrdered(rows, id, when[id := now]);
  }

  /** Answering a request to file or refile an id is filing it now. */
  function Touched<T>(when: Times, req: Request<T>, now: nat): Times {
    if req.FileEntry? || req.RefileEntry? then when[req.id := now] else when
  }

  lemma AfterInTime<T(!new), K(!new)>(ix: Index<T, K>, req: Request<T>, when: Times, now: nat)
    requires req.Proper() && ix.InSync(req.Listed()) && FiledInTime(ix, req.Listed(), when, now)
    ensures FiledInTime(After(ix, req), req.ListedAfter(), Touched(when, req, now), now + 1)
  {
    match req
    case FileEntry(rows, id) =>
      assert forall other | other in rows && other != id :: other in rows - {id};
      FiledLast(ix, rows, id, when, now);
    case RefileEntry(rows, id, replaced) => RefileInTime(ix, rows, id, replaced, when, now);
    case UnfileEntry(rows, id) => ix.UnfiledOrdered(rows, id, when);
    case _ =>
  }

  lemma RefileInTime<T(!new), K(!new)>(
      ix: Index<T, K>, rows: map<nat, T>, id: nat, replaced: T, when: Times, now: nat)
    requires id in rows && ix.InSync(rows[id := replaced]) && FiledInTime(ix, rows[id := replaced], when, now)
    ensures FiledInTime(After(ix, RefileEntry(rows, id, replaced)), rows, when[id := now], now + 1)
  {
    UnfiledCovered(ix, rows, id, replaced);
    ix.UnfiledOrdered(rows[id := replaced], id, when);
    assert rows[id := replaced] - {id} == rows - {id};
    assert forall other | other in rows :: other in rows[id := replaced];
    FiledLast(ix.Unfiled(id), rows, id, when, now);
  }

  /** So do all live indexes, each with its own times. */
  lemma EachInTime<H, T(!new), K(!new)>(
      was: map<H, Index<T, K>>, req: Request<T>, times: AllTimes<H>, now: nat, s': Table<H, T, K>, times': AllTimes<H>)
    requires req.Proper() && forall h | h in was :: was[h].InSync(req.Listed())
    requires forall h | h in was :: h in times && FiledInTime(was[h], req.Listed(), times[h], now)
    requires s'.rows == req.ListedAfter() && s'.indexes == EachAfter(was, req)
    requires forall h | h in times :: h in times' && times'[h] == Touched(times[h], req, now)
    ensures InTime(s', times', now + 1)
  {
    forall h | h in s'.indexes ensures h in times' && FiledInTime(s'.indexes[h], s'.rows, times'[h], now + 1) {
      AfterInTime(was[h], req, times[h], now);
    }
  }

  lemma UpdatedInTime<H, T(!new), K(!new)>(
      s: Table<H, T, K>, id: nat, value: T, s': Table<H, T, K>, times: AllTimes<H>, now: nat, times': AllTimes<H>)
    requires s.Consistent() && id in s.rows && InTime(s, times, now) && s' == s.Updated(id, value)
    requires times' == map h | h in times :: times[h][id := now]
    ensures InTime(s', times', now + 1)
  {
    var rows' := s.rows[id := value];
    assert rows'[id := s.rows[id]] == s.rows;
    EachInTime(s.indexes, RefileEntry(rows', id, s.rows[id]), times, now, s', times');
  }

  lemma CreatedInTime<H, T(!new), K(!new)>(s: Table<H, T, K>, h: H, s': Table<H, T, K>, times: AllTimes<H>, now: nat)
    requires InTime(s, times, now) && h in s'.indexes
    requires s' == s.(indexes := s.indexes[h := s'.indexes[h]])
    requires s'.indexes[h].Covered(s.rows) && s'.indexes[h].Canonical(s.rows)
    ensures InTime(s', times[h := map id | id in s.rows :: now], now + 1)
  {
    SameTime(s'.indexes[h], s.rows, now);
  }

  lemma SameTime<T(!new), K(!new)>(ix: Index<T, K>, rows: map<nat, T>, now: nat)
    requires ix.Covered(rows) && ix.Canonical(rows)
    ensures FiledInTime(ix, rows, map id | id in rows :: now, now + 1)
  {
    var when: Times := map id | id in rows :: now;
    forall i, j | 0 <= i < j < |ix.entries| ensures ix.Before(rows, when, ix.entries[i], ix.entries[j]) {
      assert ix.Before(rows, map[], ix.entries[i], ix.entries[j]);
    }
  }

  /** The times of filing after the first `n` events of a run. */
  ghost function TimesOf<H, T(!new), K(!new)>(
      states: seq<Table<H, T, K>>, events: seq<Event<H, T, K>>, n: nat): AllTimes<H>
    requires Run(states, events) && n < |states|
  {
    if n == 0 then map[]
    else
      RunIsConsistent(states, events, n - 1);
      TimesAfter(states[n - 1], events[n - 1], TimesOf(states, events, n - 1), n - 1)
  }

  /** In every state of every run, updates included, each live index is ordered by key, then by the time of filing,
      then by id. */
  lemma {:induction false} RunIsInTime<H, T(!new), K(!new)>(
      states: seq<Table<H, T, K>>, events: seq<Event<H, T, K>>, n: nat)
    requires Run(states, events) && n < |states|
    ensures InTime(states[n], TimesOf(states, events, n), n)
  {
    if n > 0 {
      RunIsInTime(states, events, n - 1);
      StepIsInTime(states, events, n - 1, TimesOf(states, events, n - 1), TimesOf(states, events, n));
    }
  }

  lemma StepIsInTime<H, T(!new), K(!new)>(
      states: seq<Table<H, T, K>>, events: seq<Event<H, T, K>>, n: nat, times: AllTimes<H>, times': AllTimes<H>)
    requires Run(states, events) && n < |events| && InTime(states[n], times, n)
    requires times == TimesOf(states, events, n) && times' == TimesOf(states, events, n + 1)
    ensures InTime(states[n + 1], times', n + 1)
  {
    RunStep(states, events, n);
    TimesOfNext(states, events, n);
    NextKeepsInTime(states[n], events[n], states[n + 1], times, n, times');
  }

  lemma RunStep<H, T(!new), K(!new)>(states: seq<Table<H, T, K>>, events: seq<Event<H, T, K>>, n: nat)
    requires Run(states, events) && n < |events|
    ensures states[n].Consistent() && Next(states[n], events[n], states[n + 1])
  {
    RunIsConsistent(states, events, n);
  }

  lemma TimesOfNext<H, T(!new), K(!new)>(states: seq<Table<H, T, K>>, events: seq<Event<H, T, K>>, n: nat)
    requires Run(states, events) && n < |events| && states[n].Consistent()
    ensures TimesOf(states, events, n + 1) == TimesAfter(states[n], events[n], TimesOf(states, events, n), n)
  {
  }

  /** Two live indexes with the same key function and order hold the same entries exactly when they filed equal keys in
      the same order. */
  lemma SameEntriesExactlyWhen<H, T(!new), K(!new)>(
      states: seq<Table<H, T, K>>, events: seq<Event<H, T, K>>, n: nat, a: H, b: H)
    requires Run(states, events) && n < |states| && a in states[n].indexes && b in states[n].indexes
    requires states[n].indexes[a].key == states[n].indexes[b].key && states[n].indexes[a].le == states[n].indexes[b].le
    ensures var s, times := states[n], TimesOf(states, events, n);
      a in times && b in times &&
      (s.indexes[a].entries == s.indexes[b].entries <==> s.indexes[a].Agree(s.rows, times[a], times[b]))
  {
    RunIsInTime(states, events, n);
    RunIsConsistent(states, events, n);
    var s, times := states[n], TimesOf(states, events, n);
    s.indexes[a].SameEntriesExactlyWhen(s.indexes[b], s.rows, times[a], times[b]);
  }

  /** An index just created is the same as an older one with the same key function and order exactly when the older one
      filed equal keys in the order of their ids. */
  lemma NewIndexIsTheSameExactlyWhen<H, T(!new), K(!new)>(
      states: seq<Table<H, T, K>>, events: seq<Event<H, T, K>>, n: nat, a: H)
    requires Run(states, events) && n < |events| && events[n].CreateIndex?
    requires a != events[n].h && a in states[n].indexes
    requires states[n].indexes[a].key == events[n].key && states[n].indexes[a].le == events[n].le
    ensures a in TimesOf(states, events, n) && events[n].h in states[n + 1].indexes && a in states[n + 1].indexes
    ensures states[n + 1].indexes[a].entries == states[n + 1].indexes[events[n].h].entries <==>
            states[n].indexes[a].Agree(states[n].rows, TimesOf(states, events, n)[a], map[])
  {
    RunIsInTime(states, events, n);
    RunIsConsistent(states, events, n);
    RunIsConsistent(states, events, n + 1);
    var s, s' := states[n], states[n + 1];
    s.indexes[a].SameEntriesExactlyWhen(s'.indexes[events[n].h], s.rows, TimesOf(states, events, n)[a], map[]);
  }

  // ----- Calls are paths of events -----

  /** What a call does while indexes are dropped, of which `still` are left in the end: the drops come before
      the operation, or, where it changes nothing, after it. */
  ghost predicate Does<H, T(!new), K(!new)>(s: Table<H, T, K>, ev: Event<H, T, K>, s': Table<H, T, K>, still: set<H>)
    requires s.Consistent()
  {
    || (s.Only(still).Consistent() && Next(s.Only(still), ev, s'))
    || (Next(s, ev, s) && s' == s.Only(still))
  }

  lemma AcceptedDoes<H, T(!new), K(!new)>(s: Table<H, T, K>, id: nat, value: T, s': Table<H, T, K>, still: set<H>)
    requires s.Consistent() && s.Only(still).Consistent() && id in s.rows
    requires s.Only(still).UpdateAccepted(id, value) && s' == s.Only(still).Updated(id, value)
    ensures Does(s, UpdateRow(id, value), s', still)
  {
  }

  lemma RefusedDoes<H, T(!new), K(!new)>(s: Table<H, T, K>, id: nat, value: T, s': Table<H, T, K>, still: set<H>)
    requires s.Consistent() && id in s.rows && s.UpdateRefused(id, value) && s' == s.Only(still)
    ensures Does(s, UpdateRow(id, value), s', still)
  {
    assert !s.UpdateAccepted(id, value);
  }

  /** The drops of all indexes but some, one by one. */
  lemma {:induction false} DropsExtendRun<H, T(!new), K(!new)>(
      states: seq<Table<H, T, K>>, events: seq<Event<H, T, K>>, still: set<H>)
    returns (states': seq<Table<H, T, K>>, events': seq<Event<H, T, K>>)
    requires Run(states, events)
    ensures Run(states', events') && states'[|events'|] == states[|events|].Only(still)
    ensures events <= events' && forall i | |events| <= i < |events'| :: events'[i].DropIndex?
    decreases states[|events|].indexes.Keys - still
  {
    var s := states[|events|];
    RunIsConsistent(states, events, |events|);
    if h :| h in s.indexes && h !in still {
      var next := s.(indexes := s.indexes - {h});
      OneDropped(s, next, h, still);
      RunOneMore(states, events, DropIndex(h), next);
      states', events' := DropsExtendRun(states + [next], events + [DropIndex(h)], still);
    } else {
      assert s.Only(still) == s;
      states', events' := states, events;
    }
  }

  lemma OneDropped<H, T(!new), K(!new)>(s: Table<H, T, K>, next: Table<H, T, K>, h: H, still: set<H>)
    requires h in s.indexes && h !in still && next == s.(indexes := s.indexes - {h})
    ensures next.Only(still) == s.Only(still) && next.indexes.Keys - still < s.indexes.Keys - still
  {
    assert h in s.indexes.Keys - still && h !in next.indexes.Keys - still;
  }

  lemma RunOneMore<H, T(!new), K(!new)>(
      states: seq<Table<H, T, K>>, events: seq<Event<H, T, K>>, ev: Event<H, T, K>, s': Table<H, T, K>)
    requires Run(states, events) && states[|events|].Consistent() && Next(states[|events|], ev, s')
    ensures Run(states + [s'], events + [ev])
  {
    var all, evs := states + [s'], events + [ev];
    forall i | 0 <= i < |evs| && all[i].Consistent() ensures Next(all[i], evs[i], all[i + 1]) {
      assert all[i] == states[i] && (i < |events| ==> all[i + 1] == states[i + 1] && evs[i] == events[i]);
    }
  }

  /** A call made in the last state of a run goes on with that run: the drops and the operation are its next events.
      So what holds in every state of every run holds between calls. */
  lemma CallExtendsRun<H, T(!new), K(!new)>(
      states: seq<Table<H, T, K>>, events: seq<Event<H, T, K>>, ev: Event<H, T, K>, s': Table<H, T, K>, still: set<H>)
    returns (states': seq<Table<H, T, K>>, events': seq<Event<H, T, K>>)
    requires Run(states, events) && states[|events|].Consistent() && Does(states[|events|], ev, s', still)
    ensures Run(states', events') && states'[|events'|] == s'
    ensures events <= events' && forall i | |events| <= i < |events'| :: events'[i] == ev || events'[i].DropIndex?
  {
    var s := states[|events|];
    if Next(s, ev, s) && s' == s.Only(still) {
      RunOneMore(states, events, ev, s);
      states', events' := DropsExtendRun(states + [s], events + [ev], still);
    } else {
      var dropped, drops := DropsExtendRun(states, events, still);
      RunOneMore(dropped, drops, ev, s');
      states', events' := dropped + [s'], drops + [ev];
    }
  }

  // ----- A unique index over equal keys -----

  function ByValue(v: int): int { v }

  predicate AtMost(a: int, b: int) { a <= b }

  const TWO_ROWS: map<nat, int> := map[0 := 5, 1 := 5]

  const UNCHECKED: Index<int, int> := Index(ByValue, AtMost, true, [0, 1])

  lemma UncheckedLists()
    ensures UNCHECKED.InSync(TWO_ROWS) && UNCHECKED.Canonical(TWO_ROWS)
  {
    assert UNCHECKED.Keys(TWO_ROWS) == [5, 5];
    assert UNCHECKED.Lists(TWO_ROWS);
  }

  lemma UncheckedPanics()
    ensures UNCHECKED.InSync(TWO_ROWS) && !UNCHECKED.DistinctKeys(TWO_ROWS)
    ensures ReplyTo(UNCHECKED, CheckUpdate(TWO_ROWS, 0, 5)) == Panic
  {
    UncheckedLists();
    UNCHECKED.FoundIsScan(TWO_ROWS, 5);
    var f := UNCHECKED.Found(TWO_ROWS, 5);
    assert 0 in f && 1 in f;
    assert Equal(AtMost, ByValue(TWO_ROWS[0]), ByValue(TWO_ROWS[1]));
  }

  /** Two equal rows and then a unique index over them: a run after which updating a row to the value it has
      fails the length assertion. */
  lemma UncheckedIndexPanics() returns (states: seq<Table<nat, int, int>>, events: seq<Event<nat, int, int>>)
    ensures Run(states, events) && |states| == 4
    ensures var s := states[3];
      && !UniqueKept(s) && 0 in s.rows && 0 in s.indexes && s.indexes[0].InSync(s.rows)
      && ReplyTo(s.indexes[0], CheckUpdate(s.rows, 0, s.rows[0])) == Panic
  {
    var two := AddedToNone(AddedToNone(Empty(), 5), 5);
    var last := two.(indexes := map[0 := UNCHECKED]);
    states, events := TwoAdds();
    assert two.rows == TWO_ROWS;
    Creates(two, last);
    RunIsConsistent(states, events, 2);
    RunOneMore(states, events, CreateIndex(0, true, ByValue, AtMost), last);
    states, events := states + [last], events + [CreateIndex(0, true, ByValue, AtMost)];
    UncheckedPanics();
  }

  lemma TwoAdds() returns (states: seq<Table<nat, int, int>>, events: seq<Event<nat, int, int>>)
    ensures Run(states, events) && |states| == 3 && states[2] == AddedToNone(AddedToNone(Empty(), 5), 5)
  {
    var s0: Table<nat, int, int> := Empty();
    var s1 := AddedToNone(s0, 5);
    AddsToNone(s0, 5, s1);
    AddsToNone(s1, 5, AddedToNone(s1, 5));
    states, events := [s0, s1, AddedToNone(s1, 5)], [AddRow(5), AddRow(5)];
  }

  function AddedToNone(s: Table<nat, int, int>, value: int): Table<nat, int, int> {
    Table(s.nextId + 1, s.rows[s.nextId := value], map[])
  }

  lemma AddsToNone(s: Table<nat, int, int>, value: int, s': Table<nat, int, int>)
    requires s.indexes == map[] && s' == AddedToNone(s, value)
    ensures s.Consistent() ==> Next(s, AddRow(value), s')
  {
  }

  lemma Creates(s: Table<nat, int, int>, s': Table<nat, int, int>)
    requires s.indexes == map[] && s.rows == TWO_ROWS && s' == s.(indexes := map[0 := UNCHECKED])
    ensures s.Consistent() ==> Next(s, CreateIndex(0, true, ByValue, AtMost), s')
  {
    UncheckedLists();
    assert map[0 := UNCHECKED] == s.indexes[0 := s'.indexes[0]];
  }

  /** Updating the first of two rows with equal keys to the value it has moves it behind the second, so an index created
      before the update is no longer the same as one created after it. */
  lemma UpdateReorders()
    ensures UNCHECKED.InSync(TWO_ROWS) && UNCHECKED.Canonical(TWO_ROWS) && SAME_VALUE.Listed() == TWO_ROWS
    ensures ReplyTo(UNCHECKED, SAME_VALUE) == Ok(()) && After(UNCHECKED, SAME_VALUE).entries == [1, 0]
  {
    UncheckedLists();
    ListsTwoRows();
    SecondIsLeft();
    FirstGoesBehind();
    RefiledIs(UNCHECKED, TWO_ROWS, 0, 5, SECOND);
  }

  const SAME_VALUE: Request<int> := RefileEntry(TWO_ROWS, 0, 5)

  lemma ListsTwoRows()
    ensures SAME_VALUE.Listed() == TWO_ROWS == TWO_ROWS[0 := 5]
  {
    assert TWO_ROWS[0 := 5] == TWO_ROWS;
  }

  lemma RefiledIs(ix: Index<int, int>, rows: map<nat, int>, id: nat, replaced: int, left: Index<int, int>)
    requires id in rows && ix.InSync(rows[id := replaced]) && left.Covered(rows)
    requires id in ix.entries && left == ix.Unfiled(id)
    ensures After(ix, RefileEntry(rows, id, replaced)) == left.Filed(rows, id)
  {
  }

  const SECOND: Index<int, int> := Index(ByValue, AtMost, true, [1])

  lemma SecondIsLeft()
    ensures 0 in UNCHECKED.entries && UNCHECKED.Unfiled(0) == SECOND
  {
    assert CutAt([0, 1], 0) == [1];
  }

  lemma FirstGoesBehind()
    ensures SECOND.Covered(TWO_ROWS) && SECOND.Filed(TWO_ROWS, 0).entries == [1, 0]
  {
    assert SECOND.Keys(TWO_ROWS) == [5] && [5][1..] == [];
    assert Upper(AtMost, [5], 5) == 1;
  }
}

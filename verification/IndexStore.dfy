/** One index in memory: a vector of row ids that is searched and updated in place. */
module IndexStore {
  import opened Prelude
  import opened KeyIndex

  datatype Error = AlreadyExists | UpdatedNonexistentEntry(id: nat) | RemovingNonexistentId(id: nat)

  /** What a table asks of an index. The row map is the one at the time of the request:
      `FileEntry` and `RefileEntry` come after the row was written, `UnfileEntry` before it is removed. */
  datatype Request<T> =
    | CheckAdd(rows: map<nat, T>, value: T)
    | CheckUpdate(rows: map<nat, T>, id: nat, value: T)
    | CheckRemove(rows: map<nat, T>, id: nat)
    | FileEntry(rows: map<nat, T>, id: nat)
    | RefileEntry(rows: map<nat, T>, id: nat, replaced: T)
    | UnfileEntry(rows: map<nat, T>, id: nat)
  {
    /** The rows that an index lists when it receives the request. */
    function Listed(): map<nat, T> {
      match this
      case FileEntry(_, id) => rows - {id}
      case RefileEntry(_, id, replaced) => rows[id := replaced]
      case _ => rows
    }

    predicate Proper() {
      match this
      case CheckAdd(_, _) => true
      case _ => id in rows
    }

    /** The rows that it lists afterwards. */
    function ListedAfter(): map<nat, T> {
      match this
      case UnfileEntry(_, id) => rows - {id}
      case _ => rows
    }

    predicate IsCheck() { CheckAdd? || CheckUpdate? || CheckRemove? }
  }

  type Reply = Outcome<(), Error>

  /** The reply of an index in sync with the listed rows. */
  ghost function ReplyTo<T(!new), K(!new)>(ix: Index<T, K>, req: Request<T>): Reply
    requires req.Proper() && ix.InSync(req.Listed())
  {
    match req
    case CheckAdd(rows, value) =>
      if ix.unique && ix.Holds(rows, ix.key(value)) then Err(AlreadyExists) else Ok(())
    case CheckUpdate(rows, id, value) =>
      var f := ix.Found(rows, ix.key(value));
      if !ix.unique || f == [] then Ok(())
      else if |f| > 1 then Panic
      else if f[0] != id then Err(AlreadyExists)
      else Ok(())
    case RefileEntry(rows, id, replaced) =>
      if Equal(ix.le, ix.key(replaced), ix.key(rows[id])) then Ok(()) else Panic
    case _ => Ok(())
  }

  /** The check of an update in terms of rows and keys. A unique index refuses it exactly when one row holds the new key
      and that row is another; two such rows fail its assertion. */
  ghost predicate UpdateReply<T(!new), K(!new)>(ix: Index<T, K>, rows: map<nat, T>, id: nat, value: T, r: Reply) {
    var k := ix.key(value);
    && (r == Panic <==> ix.unique && ix.HeldTwice(rows, k))
    && (r == Err(AlreadyExists) <==> ix.unique && ix.HeldByAnother(rows, id, k) && !ix.HeldTwice(rows, k))
    && (r == Ok(()) <==> !(ix.unique && ix.HeldByAnother(rows, id, k)))
  }

  lemma UpdateReplyIs<T(!new), K(!new)>(ix: Index<T, K>, rows: map<nat, T>, id: nat, value: T)
    requires ix.InSync(rows) && id in rows
    ensures UpdateReply(ix, rows, id, value, ReplyTo(ix, CheckUpdate(rows, id, value)))
  {
    HeldIsFound(ix, rows, id, ix.key(value), ix.Found(rows, ix.key(value)));
  }

  lemma HeldIsFound<T(!new), K(!new)>(ix: Index<T, K>, rows: map<nat, T>, id: nat, k: K, f: seq<nat>)
    requires ix.InSync(rows) && f == ix.Found(rows, k)
    ensures ix.HeldTwice(rows, k) <==> |f| > 1
    ensures ix.HeldByAnother(rows, id, k) <==> |f| > 1 || (|f| == 1 && f[0] != id)
  {
    ix.FoundIsScan(rows, k);
    HeldIfFound(ix, rows, id, k, f);
    if ix.HeldByAnother(rows, id, k) {
      var other :| other in rows && other != id && Equal(ix.le, k, ix.key(rows[other]));
      assert other in f;
    }
    if ix.HeldTwice(rows, k) {
      var a :| a in rows && Equal(ix.le, k, ix.key(rows[a])) && ix.HeldByAnother(rows, a, k);
      var b :| b in rows && b != a && Equal(ix.le, k, ix.key(rows[b]));
      assert a in f && b in f;
    }
  }

  lemma HeldIfFound<T(!new), K(!new)>(ix: Index<T, K>, rows: map<nat, T>, id: nat, k: K, f: seq<nat>)
    requires NoDup(f) && forall x :: x in f <==> x in rows && Equal(ix.le, k, ix.key(rows[x]))
    ensures |f| > 1 ==> ix.HeldTwice(rows, k) && ix.HeldByAnother(rows, id, k)
    ensures |f| == 1 && f[0] != id ==> ix.HeldByAnother(rows, id, k)
  {
    if |f| > 0 {
      assert f[0] in f;
    }
    if |f| > 1 {
      assert f[1] in f && f[1] != f[0];
      assert ix.HeldByAnother(rows, f[0], k);
    }
  }

  /** While the index lists no equal keys, the update is refused exactly when another row holds the new key. */
  lemma UpdateRefusedExactlyWhen<T(!new), K(!new)>(ix: Index<T, K>, rows: map<nat, T>, id: nat, value: T)
    requires ix.InSync(rows) && ix.DistinctKeys(rows) && id in rows
    ensures var r := ReplyTo(ix, CheckUpdate(rows, id, value));
      && r == (if ix.unique && ix.HeldByAnother(rows, id, ix.key(value)) then Err(AlreadyExists) else Ok(()))
  {
    UpdateReplyIs(ix, rows, id, value);
    NotHeldTwice(ix, rows, ix.key(value));
  }

  lemma NotHeldTwice<T(!new), K(!new)>(ix: Index<T, K>, rows: map<nat, T>, k: K)
    requires TotalPreorder(ix.le) && ix.DistinctKeys(rows)
    ensures !ix.HeldTwice(rows, k)
  {
    forall a, b | a in rows && b in rows && a != b && Equal(ix.le, k, ix.key(rows[a]))
      ensures !Equal(ix.le, k, ix.key(rows[b]))
    {
      assert !Equal(ix.le, ix.key(rows[a]), ix.key(rows[b]));
    }
  }

  /** The index after it replied Ok. */
  ghost function After<T(!new), K(!new)>(ix: Index<T, K>, req: Request<T>): Index<T, K>
    requires req.Proper() && ix.InSync(req.Listed())
  {
    match req
    case FileEntry(rows, id) => assert ix.Covered(rows); ix.Filed(rows, id)
    case UnfileEntry(rows, id) => assert id in ix.entries; ix.Unfiled(id)
    case RefileEntry(rows, id, replaced) =>
      UnfiledCovered(ix, rows, id, replaced);
      ix.Unfiled(id).Filed(rows, id)
    case _ => ix
  }

  lemma UnfiledCovered<T(!new), K(!new)>(ix: Index<T, K>, rows: map<nat, T>, id: nat, replaced: T)
    requires id in rows && ix.InSync(rows[id := replaced])
    ensures id in ix.entries && ix.Unfiled(id).Covered(rows)
  {
    assert id in rows[id := replaced];
    RemovedIds(ix.entries, Position(ix.entries, id));
  }

  /** An index that replies Ok lists the new rows, under the same key function and order. */
  lemma AfterInSync<T(!new), K(!new)>(ix: Index<T, K>, req: Request<T>)
    requires req.Proper() && ix.InSync(req.Listed()) && ReplyTo(ix, req) == Ok(())
    ensures After(ix, req).InSync(req.ListedAfter())
  {
    match req
    case FileEntry(rows, id) => ix.FiledInSync(rows, id);
    case UnfileEntry(rows, id) => ix.UnfiledInSync(rows, id);
    case RefileEntry(rows, id, replaced) =>
      UnchangedKeyIsFound(ix, rows, id, replaced);
      ix.Unfiled(id).FiledInSync(rows, id);
    case _ =>
  }

  lemma AfterKeepsKeys<T(!new), K(!new)>(ix: Index<T, K>, req: Request<T>)
    requires req.Proper() && ix.InSync(req.Listed())
    ensures var ix' := After(ix, req); ix'.key == ix.key && ix'.le == ix.le && ix'.unique == ix.unique
  {
  }

  class IndexStore<T(!new), K(!new)> {
    const key: T -> K
    const le: (K, K) -> bool
    const unique: bool
    var entries: seq<nat>
    /** A strong handle to this index still exists. */
    var live: bool

    ghost function Value(): Index<T, K>
      reads this
    {
      Index(key, le, unique, entries)
    }

    /** Sorts the ids of the rows; keys of existing rows are not checked for uniqueness. */
    constructor (rows: map<nat, T>, unique: bool, key: T -> K, le: (K, K) -> bool)
      requires TotalPreorder(le)
      ensures this.key == key && this.le == le && this.unique == unique && live
      ensures Value().InSync(rows) && Value().Canonical(rows)
    {
      var ids := AscendingIds(rows);
      var sorted := SortBy(ids, rows, key, le, unique);
      this.key, this.le, this.unique, this.entries, this.live := key, le, unique, sorted, true;
    }

    /** `binary_search_by`: any probe between the bounds may be taken, so any of several equal entries may be found.
        Entries out of order promise no more than that a found entry is equal. */
    method BinarySearch(rows: map<nat, T>, k: K) returns (found: bool, at: nat)
      requires Value().Covered(rows)
      ensures at <= |entries|
      ensures found ==> at < |entries| && Equal(le, k, key(rows[entries[at]]))
      ensures !found && TotalPreorder(le) && Value().InOrder(rows) ==> Splits(le, Value().Keys(rows), k, at, at)
    {
      ghost var ks := Value().Keys(rows);
      var low, high := 0, |entries|;
      while low < high
        invariant low <= high <= |entries|
        invariant TotalPreorder(le) && Value().InOrder(rows) ==>
          (forall i | 0 <= i < low :: !le(k, ks[i])) && (forall i | high <= i < |ks| :: !le(ks[i], k))
      {
        var mid :| low <= mid < high;
        var target := key(rows[entries[mid]]);
        assert ks[mid] == target;
        if !le(k, target) {
          low := mid + 1;
        } else if !le(target, k) {
          high := mid;
        } else {
          return true, mid;
        }
      }
      return false, low;
    }

    /** `find_range`: the run of entries around a match, widened both ways; the insertion point on a miss. */
    method FindRange(rows: map<nat, T>, k: K) returns (start: nat, end: nat)
      requires Value().Covered(rows)
      ensures start <= end <= |entries|
      ensures forall i | start <= i < end :: Equal(le, k, key(rows[entries[i]]))
      ensures TotalPreorder(le) && Value().InOrder(rows) ==>
        start == Lower(le, Value().Keys(rows), k) && end == Upper(le, Value().Keys(rows), k)
    {
      var found, at := BinarySearch(rows, k);
      ghost var ks := Value().Keys(rows);
      start, end := at, at;
      if found {
        while start > 0 && Equal(le, k, key(rows[entries[start - 1]]))
          invariant start <= at
          invariant forall i | start <= i <= at :: Equal(le, k, key(rows[entries[i]]))
        {
          start := start - 1;
        }
        end := at + 1;
        while end < |entries| && Equal(le, k, key(rows[entries[end]]))
          invariant at < end <= |entries|
          invariant forall i | start <= i < end :: Equal(le, k, key(rows[entries[i]]))
        {
          end := end + 1;
        }
      }
      if TotalPreorder(le) && Value().InOrder(rows) {
        if found {
          MaximalRunSplits(le, ks, k, start, end);
        }
        SplitIsBounds(le, ks, k, start, end);
      }
    }

    /** `get_entries`. */
    method GetEntries(rows: map<nat, T>, k: K) returns (ids: seq<nat>)
      requires Value().InSync(rows)
      ensures ids == Value().Found(rows, k)
    {
      var start, end := FindRange(rows, k);
      ids := entries[start..end];
    }

    method DoCheckAdd(rows: map<nat, T>, value: T) returns (r: Reply)
      requires Value().InSync(rows)
      ensures r == ReplyTo(Value(), CheckAdd(rows, value))
    {
      if unique {
        var start, end := FindRange(rows, key(value));
        Value().HoldsIsFound(rows, key(value));
        if end - start != 0 {
          return Err(AlreadyExists);
        }
      }
      return Ok(());
    }

    method DoCheckUpdate(rows: map<nat, T>, id: nat, newValue: T) returns (r: Reply)
      requires Value().InSync(rows) && id in rows
      ensures r == ReplyTo(Value(), CheckUpdate(rows, id, newValue))
      ensures UpdateReply(Value(), rows, id, newValue, r)
    {
      UpdateReplyIs(Value(), rows, id, newValue);
      if unique {
        var start, end := FindRange(rows, key(newValue));
        if end - start != 0 {
          if end - start != 1 {
            return Panic;
          }
          if entries[start..end][0] != id {
            return Err(AlreadyExists);
          }
        }
      }
      return Ok(());
    }

    /** `add_entry`. */
    method DoFile(rows: map<nat, T>, id: nat)
      requires id in rows && Value().InSync(rows - {id})
      modifies this`entries
      ensures Value() == After(old(Value()), FileEntry(rows, id))
    {
      Value().FiledInSync(rows, id);
      assert Value().Keys(rows) == Value().Keys(rows - {id});
      var _, end := FindRange(rows, key(rows[id]));
      entries := entries[..end] + [id] + entries[end..];
    }

    /** The lookup of `update_entry`: by now the row holds its new value, so the id is found under its old key
        exactly when the key is unchanged. */
    method FindReplaced(rows: map<nat, T>, id: nat, replaced: T) returns (at: Option<nat>)
      requires id in rows && Value().InSync(rows[id := replaced])
      ensures at.Some? <==> Equal(le, key(replaced), key(rows[id]))
      ensures at.Some? ==> id in entries && at.value == Position(entries, id)
    {
      CoveredStays(Value(), rows, id, replaced);
      var start, end := FindRange(rows, key(replaced));
      ReplacedInRange(Value(), rows, id, replaced, start, end);
      var index := Position(entries[start..end], id);
      at := if index == end - start then None else Some(start + index);
    }

    /** `update_entry`: a lookup that comes to nothing is unwrapped. */
    method DoRefile(rows: map<nat, T>, id: nat, replaced: T) returns (r: Reply)
      requires id in rows && Value().InSync(rows[id := replaced])
      modifies this`entries
      ensures r == old(ReplyTo(Value(), RefileEntry(rows, id, replaced)))
      ensures r.Ok? ==> Value() == After(old(Value()), RefileEntry(rows, id, replaced))
      ensures !r.Ok? ==> entries == old(entries)
    {
      var at := FindReplaced(rows, id, replaced);
      if at.None? {
        return Panic;
      }
      UnchangedKeyIsFound(Value(), rows, id, replaced);
      entries := CutAt(entries, at.value);
      assert Value() == old(Value()).Unfiled(id);
      DoFile(rows, id);
      return Ok(());
    }

    /** `remove_entry`. */
    method DoUnfile(rows: map<nat, T>, id: nat)
      requires id in rows && Value().InSync(rows)
      modifies this`entries
      ensures Value() == After(old(Value()), UnfileEntry(rows, id))
    {
      var at := FindListed(rows, id);
      entries := CutAt(entries, at);
    }

    method FindListed(rows: map<nat, T>, id: nat) returns (at: nat)
      requires id in rows && Value().InSync(rows)
      ensures id in entries && at == Position(entries, id)
    {
      var start, end := FindRange(rows, key(rows[id]));
      var range := entries[start..end];
      Value().FoundAtItsPlace(rows, id);
      assert range == Value().Found(rows, key(rows[id]));
      return start + Position(range, id);
    }

    /** One request, answered under the lock of the index. */
    method Answer(req: Request<T>) returns (r: Reply)
      requires req.Proper() && Value().InSync(req.Listed())
      modifies this`entries
      ensures r == old(ReplyTo(Value(), req))
      ensures r.Ok? ==> Value() == After(old(Value()), req)
      ensures !r.Ok? ==> entries == old(entries)
    {
      match req
      case CheckAdd(rows, value) => r := DoCheckAdd(rows, value);
      case CheckUpdate(rows, id, value) => r := DoCheckUpdate(rows, id, value);
      case CheckRemove(_, _) => r := Ok(());
      case FileEntry(rows, id) => DoFile(rows, id); r := Ok(());
      case RefileEntry(rows, id, replaced) => r := DoRefile(rows, id, replaced);
      case UnfileEntry(rows, id) => DoUnfile(rows, id); r := Ok(());
    }

    /** `Weak::upgrade`: the last strong handle may have been dropped at any time before, by any thread. */
    method Upgrade() returns (alive: bool)
      modifies this`live
      ensures alive == live && (live ==> old(live))
    {
      if * {
        live := false;
      }
      alive := live;
    }
  }

  lemma CoveredStays<T(!new), K(!new)>(ix: Index<T, K>, rows: map<nat, T>, id: nat, replaced: T)
    requires id in rows && ix.InSync(rows[id := replaced])
    ensures ix.Covered(rows)
  {
    assert rows[id := replaced].Keys == rows.Keys;
  }

  /** Whatever entries the lookup under the old key comes up with, an id whose key changed is not among them,
      even where the overwritten row has left the entries out of order. */
  lemma ChangedKeyIsMissed<T(!new), K(!new)>(range: seq<nat>, ix: Index<T, K>, rows: map<nat, T>, id: nat, replaced: T)
    requires id in rows && !Equal(ix.le, ix.key(replaced), ix.key(rows[id]))
    requires forall i | 0 <= i < |range| :: range[i] in rows && Equal(ix.le, ix.key(replaced), ix.key(rows[range[i]]))
    ensures id !in range
  {
  }

  /** Looked up under its old key after the row was overwritten, an id whose key is unchanged is found at its place. */
  lemma UnchangedKeyIsFound<T(!new), K(!new)>(ix: Index<T, K>, rows: map<nat, T>, id: nat, replaced: T)
    requires id in rows && ix.InSync(rows[id := replaced]) && Equal(ix.le, ix.key(replaced), ix.key(rows[id]))
    ensures ix.InSync(rows) && id in ix.entries && ix.Unfiled(id).InSync(rows - {id})
    ensures var k := ix.key(replaced);
      var s, f := Lower(ix.le, ix.Keys(rows), k), ix.Found(rows, k);
      id in f && s + Position(f, id) == Position(ix.entries, id)
  {
    ix.SameKeyInSync(rows[id := replaced], id, rows[id]);
    assert rows[id := replaced][id := rows[id]] == rows;
    ix.UnfiledInSync(rows, id);
    ix.FoundAtItsPlace(rows, id);
    EqualKeysSameBounds(ix.le, ix.Keys(rows), ix.key(replaced), ix.key(rows[id]));
  }

  /** A table with one row and an index by its value: the update to another value passes the check,
      and then the index does not find the row under its old key. */
  lemma KeyChangePanics()
    ensures var ix, rows := Index((v: int) => v, (a: int, b: int) => a <= b, false, [0]), map[0 := 5];
      var check, refile := CheckUpdate(rows, 0, 6), RefileEntry(rows[0 := 6], 0, 5);
      && ix.InSync(rows) && ix.InSync(refile.Listed())
      && ReplyTo(ix, check) == Ok(()) && ReplyTo(ix, refile) == Panic
  {
    assert map[0 := 5][0 := 6][0 := 5] == map[0 := 5];
  }

  /** The same for the range that the lookup of `update_entry` comes up with. */
  lemma ReplacedInRange<T(!new), K(!new)>(
      ix: Index<T, K>, rows: map<nat, T>, id: nat, replaced: T, start: nat, end: nat)
    requires id in rows && ix.InSync(rows[id := replaced]) && ix.Covered(rows) && start <= end <= |ix.entries|
    requires forall i | start <= i < end :: Equal(ix.le, ix.key(replaced), ix.key(rows[ix.entries[i]]))
    requires ix.InOrder(rows) ==>
      start == Lower(ix.le, ix.Keys(rows), ix.key(replaced)) && end == Upper(ix.le, ix.Keys(rows), ix.key(replaced))
    ensures id in ix.entries[start..end] <==> Equal(ix.le, ix.key(replaced), ix.key(rows[id]))
    ensures id in ix.entries[start..end] ==>
      id in ix.entries && start + Position(ix.entries[start..end], id) == Position(ix.entries, id)
  {
    if Equal(ix.le, ix.key(replaced), ix.key(rows[id])) {
      UnchangedKeyIsFound(ix, rows, id, replaced);
    } else {
      assert forall i | 0 <= i < end - start :: ix.entries[start..end][i] == ix.entries[start + i];
      ChangedKeyIsMissed(ix.entries[start..end], ix, rows, id, replaced);
    }
  }

  /** The ids of the rows in ascending order: the keys of a `BTreeMap`. */
  method AscendingIds<T>(rows: map<nat, T>) returns (ids: seq<nat>)
    ensures forall id :: id in ids <==> id in rows
    ensures forall i, j | 0 <= i < j < |ids| :: ids[i] < ids[j]
  {
    ids := [];
    var rest := rows.Keys;
    while rest != {}
      invariant rest <= rows.Keys
      invariant forall id :: id in ids <==> id in rows && id !in rest
      invariant forall i, j | 0 <= i < j < |ids| :: ids[i] < ids[j]
      invariant forall i, id | 0 <= i < |ids| && id in rest :: ids[i] < id
      decreases rest
    {
      var least := Least(rest);
      rest := rest - {least};
      ids := ids + [least];
    }
  }

  /** `sort_by` on ascending ids: a stable sort by key. */
  method SortBy<T(!new), K(!new)>(ids: seq<nat>, rows: map<nat, T>, key: T -> K, le: (K, K) -> bool, ghost unique: bool)
    returns (sorted: seq<nat>)
    requires TotalPreorder(le)
    requires forall id :: id in ids <==> id in rows
    requires forall i, j | 0 <= i < j < |ids| :: ids[i] < ids[j]
    ensures Index(key, le, unique, sorted).InSync(rows) && Index(key, le, unique, sorted).Canonical(rows)
  {
    sorted := [];
    for i := 0 to |ids|
      invariant SortedSoFar(Index(key, le, unique, sorted), ids, rows, i)
    {
      SortStep(Index(key, le, unique, sorted), ids, rows, i);
      var u := InsertionPoint(sorted, ids[i], rows, key, le);
      sorted := sorted[..u] + [ids[i]] + sorted[u..];
    }
    assert FirstRows(ids, rows, |ids|) == rows;
  }

  ghost predicate SortedSoFar<T(!new), K(!new)>(ix: Index<T, K>, ids: seq<nat>, rows: map<nat, T>, i: nat)
    requires i <= |ids|
  {
    ix.InSync(FirstRows(ids, rows, i)) && ix.Canonical(FirstRows(ids, rows, i)) && ix.Covered(rows)
  }

  lemma SortStep<T(!new), K(!new)>(ix: Index<T, K>, ids: seq<nat>, rows: map<nat, T>, i: nat)
    requires i < |ids| && (forall id :: id in ids <==> id in rows) && SortedSoFar(ix, ids, rows, i)
    requires forall i, j | 0 <= i < j < |ids| :: ids[i] < ids[j]
    ensures ids[i] in rows && SortedSoFar(ix.Filed(rows, ids[i]), ids, rows, i + 1)
  {
    var rows' := FirstRows(ids, rows, i + 1);
    assert ids[i] in ids;
    OneMoreRow(ids, rows, i);
    ix.FiledCanonical(rows', ids[i]);
    FiledInMoreRows(ix, rows', rows, ids[i]);
  }

  lemma FiledInMoreRows<T(!new), K(!new)>(ix: Index<T, K>, few: map<nat, T>, rows: map<nat, T>, id: nat)
    requires ix.Covered(few) && id in few && forall x | x in few :: x in rows && rows[x] == few[x]
    ensures ix.Covered(rows) && ix.Filed(rows, id) == ix.Filed(few, id) && ix.Filed(rows, id).Covered(rows)
  {
    assert ix.Keys(rows) == ix.Keys(few);
    ix.FiledKeys(few, id);
  }

  /** Behind every id with a key at most the new one. */
  method InsertionPoint<T(!new), K(!new)>(sorted: seq<nat>, id: nat, rows: map<nat, T>, key: T -> K, le: (K, K) -> bool)
    returns (u: nat)
    requires id in rows && forall i | 0 <= i < |sorted| :: sorted[i] in rows
    ensures u == Upper(le, Index(key, le, false, sorted).Keys(rows), key(rows[id]))
  {
    ghost var ks := Index(key, le, false, sorted).Keys(rows);
    u := 0;
    assert ks[0..] == ks;
    while u < |sorted| && le(key(rows[sorted[u]]), key(rows[id]))
      invariant u <= |sorted|
      invariant Upper(le, ks, key(rows[id])) == u + Upper(le, ks[u..], key(rows[id]))
    {
      assert ks[u..][1..] == ks[u + 1..];
      u := u + 1;
    }
  }

  lemma OneMoreRow<T>(ids: seq<nat>, rows: map<nat, T>, i: nat)
    requires i < |ids| && ids[i] in rows
    requires forall i, j | 0 <= i < j < |ids| :: ids[i] < ids[j]
    ensures var rows' := FirstRows(ids, rows, i + 1);
      ids[i] in rows' && rows' - {ids[i]} == FirstRows(ids, rows, i) && forall id | id in rows' :: id <= ids[i]
  {
    assert ids[..i + 1] == ids[..i] + [ids[i]];
    assert ids[..i + 1][i] == ids[i];
  }

  ghost function FirstRows<T>(ids: seq<nat>, rows: map<nat, T>, n: nat): map<nat, T>
    requires n <= |ids|
  {
    map id | id in rows && id in ids[..n] :: rows[id]
  }
}

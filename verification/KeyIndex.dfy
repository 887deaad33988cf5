/** A secondary index as a value: row ids kept in the order of a key of their rows. */
module KeyIndex {

  // ----- Orders on keys -----

  /** What `Ord` promises of a key type: any two keys compare, and comparisons chain.
      Two keys that compare equal need not be identical. */
  ghost predicate TotalPreorder<K(!new)>(le: (K, K) -> bool) {
    (forall a, b :: le(a, b) || le(b, a)) && (forall a, b, c :: le(a, b) && le(b, c) ==> le(a, c))
  }

  predicate Equal<K>(le: (K, K) -> bool, a: K, b: K) { le(a, b) && le(b, a) }

  predicate Sorted<K>(le: (K, K) -> bool, ks: seq<K>) {
    forall i, j | 0 <= i < j < |ks| :: le(ks[i], ks[j])
  }

  /** How many keys at the start are strictly below `k`. */
  function Lower<K>(le: (K, K) -> bool, ks: seq<K>, k: K): (n: nat)
    ensures n <= |ks|
  {
    if ks == [] || le(k, ks[0]) then 0 else 1 + Lower(le, ks[1..], k)
  }

  /** How many keys at the start are at most `k`. */
  function Upper<K>(le: (K, K) -> bool, ks: seq<K>, k: K): (n: nat)
    ensures n <= |ks|
  {
    if ks == [] || !le(ks[0], k) then 0 else 1 + Upper(le, ks[1..], k)
  }

  /** The keys before `s` are below `k`, those from `s` to `e` equal it, those from `e` on are above it. */
  ghost predicate Splits<K>(le: (K, K) -> bool, ks: seq<K>, k: K, s: nat, e: nat) {
    && s <= e <= |ks|
    && (forall i | 0 <= i < s :: !le(k, ks[i]))
    && (forall i | s <= i < e :: Equal(le, k, ks[i]))
    && (forall i | e <= i < |ks| :: !le(ks[i], k))
  }

  /** In sorted keys the bounds cut out the run of equal keys; where there is none they are its insertion point. */
  lemma {:induction false} BoundsSplit<K(!new)>(le: (K, K) -> bool, ks: seq<K>, k: K)
    requires TotalPreorder(le) && Sorted(le, ks)
    ensures Splits(le, ks, k, Lower(le, ks, k), Upper(le, ks, k))
  {
    if ks != [] {
      var rest := ks[1..];
      BoundsSplit(le, rest, k);
      assert forall i | 0 < i < |ks| :: ks[i] == rest[i - 1] && le(ks[0], ks[i]);
      if le(k, ks[0]) && le(ks[0], k) {
        assert forall i | 0 < i < |ks| :: le(k, ks[i]);
        assert Lower(le, rest, k) == 0;
      } else if le(k, ks[0]) {
        assert forall i | 0 < i < |ks| :: !le(ks[i], k);
      }
    }
  }

  /** Nothing else splits them. */
  lemma {:induction false} SplitIsBounds<K(!new)>(le: (K, K) -> bool, ks: seq<K>, k: K, s: nat, e: nat)
    requires TotalPreorder(le) && Splits(le, ks, k, s, e)
    ensures s == Lower(le, ks, k) && e == Upper(le, ks, k)
  {
    if ks != [] {
      var rest := ks[1..];
      if e > 0 {
        SplitIsBounds(le, rest, k, if s == 0 then 0 else s - 1, e - 1);
      } else {
        assert le(k, ks[0]);
      }
    }
  }

  lemma EqualKeysSameBounds<K(!new)>(le: (K, K) -> bool, ks: seq<K>, a: K, b: K)
    requires TotalPreorder(le) && Sorted(le, ks) && Equal(le, a, b)
    ensures Lower(le, ks, a) == Lower(le, ks, b) && Upper(le, ks, a) == Upper(le, ks, b)
  {
    BoundsSplit(le, ks, b);
    var s, e := Lower(le, ks, b), Upper(le, ks, b);
    forall i | 0 <= i < |ks| ensures le(a, ks[i]) == le(b, ks[i]) && le(ks[i], a) == le(ks[i], b) {
    }
    SplitIsBounds(le, ks, a, s, e);
  }

  /** A run of equal keys that reaches neither way any further splits sorted keys. */
  lemma MaximalRunSplits<K(!new)>(le: (K, K) -> bool, ks: seq<K>, k: K, s: nat, e: nat)
    requires TotalPreorder(le) && Sorted(le, ks) && s < e <= |ks|
    requires forall i | s <= i < e :: Equal(le, k, ks[i])
    requires s > 0 ==> !Equal(le, k, ks[s - 1])
    requires e < |ks| ==> !Equal(le, k, ks[e])
    ensures Splits(le, ks, k, s, e)
  {
    forall i | 0 <= i < s ensures !le(k, ks[i]) {
      assert le(ks[s - 1], ks[s]) && (i < s - 1 ==> le(ks[i], ks[s - 1]));
    }
    forall i | e <= i < |ks| ensures !le(ks[i], k) {
      assert le(ks[e - 1], ks[e]) && (e < i ==> le(ks[e], ks[i]));
    }
  }

  lemma InsertKeepsSorted<K(!new)>(le: (K, K) -> bool, ks: seq<K>, k: K)
    requires TotalPreorder(le) && Sorted(le, ks)
    ensures var u := Upper(le, ks, k); Sorted(le, ks[..u] + [k] + ks[u..])
  {
    BoundsSplit(le, ks, k);
  }

  lemma SortedWithout<K(!new)>(le: (K, K) -> bool, ks: seq<K>, p: nat, ks': seq<K>)
    requires Sorted(le, ks) && |ks| == |ks'| + 1
    requires forall i | 0 <= i < |ks'| :: ks'[i] == ks[if i < p then i else i + 1]
    ensures Sorted(le, ks')
  {
    forall i, j | 0 <= i < j < |ks'| ensures le(ks'[i], ks'[j]) {
      assert le(ks[if i < p then i else i + 1], ks[if j < p then j else j + 1]);
    }
  }

  // ----- Sequences of ids -----

  predicate NoDup(s: seq<nat>) {
    forall i, j | 0 <= i < j < |s| :: s[i] != s[j]
  }

  function CutAt(s: seq<nat>, p: nat): seq<nat>
    requires p < |s|
  {
    s[..p] + s[p + 1..]
  }

  function Position(s: seq<nat>, x: nat): (p: nat)
    ensures p <= |s|
    ensures p < |s| <==> x in s
    ensures p < |s| ==> s[p] == x
  {
    if s == [] || s[0] == x then 0 else 1 + Position(s[1..], x)
  }

  lemma InSlice(s: seq<nat>, x: nat, from: nat, to: nat)
    requires NoDup(s) && from <= to <= |s|
    ensures x in s[from..to] <==> x in s && from <= Position(s, x) < to
    ensures NoDup(s[from..to])
  {
    if x in s[from..to] {
      var i :| 0 <= i < to - from && s[from..to][i] == x;
      PositionIs(s, x, from + i);
    }
    if x in s && from <= Position(s, x) < to {
      assert s[from..to][Position(s, x) - from] == x;
    }
  }

  lemma SlicePosition(s: seq<nat>, x: nat, from: nat, to: nat)
    requires NoDup(s) && from <= to <= |s| && x in s[from..to]
    ensures from + Position(s[from..to], x) == Position(s, x)
  {
    PositionIs(s, x, from + Position(s[from..to], x));
  }

  lemma EmptyTogether(s: seq<nat>, t: seq<nat>)
    requires forall x :: x in t ==> x in s
    ensures s == [] ==> t == []
  {
    assert |t| > 0 ==> t[0] in t;
  }

  lemma PositionIs(s: seq<nat>, x: nat, p: nat)
    requires NoDup(s) && p < |s| && s[p] == x
    ensures Position(s, x) == p
  {
  }

  lemma InsertedAt<X>(s: seq<X>, x: X, u: nat)
    requires u <= |s|
    ensures var t := s[..u] + [x] + s[u..];
      |t| == |s| + 1 && forall i | 0 <= i < |t| :: t[i] == if i < u then s[i] else if i == u then x else s[i - 1]
  {
  }

  lemma InsertedIds(s: seq<nat>, x: nat, u: nat)
    requires NoDup(s) && x !in s && u <= |s|
    ensures NoDup(s[..u] + [x] + s[u..])
    ensures forall y :: y in s[..u] + [x] + s[u..] <==> y == x || y in s
  {
    var t := s[..u] + [x] + s[u..];
    assert forall i | 0 <= i < |t| :: t[i] == if i < u then s[i] else if i == u then x else s[i - 1];
    forall y ensures y in t <==> y == x || y in s {
      if y in s {
        var i :| 0 <= i < |s| && s[i] == y;
        assert t[if i < u then i else i + 1] == y;
      }
      assert t[u] == x;
    }
  }

  lemma RemovedIds(s: seq<nat>, p: nat)
    requires NoDup(s) && p < |s|
    ensures NoDup(CutAt(s, p))
    ensures forall y :: y in CutAt(s, p) <==> y != s[p] && y in s
  {
    var t := CutAt(s, p);
    assert forall i | 0 <= i < |t| :: t[i] == if i < p then s[i] else s[i + 1];
    forall y ensures y in t <==> y != s[p] && y in s {
      if y != s[p] && y in s {
        var i :| 0 <= i < |s| && s[i] == y;
        assert t[if i < p then i else i - 1] == y;
      }
    }
  }

  /** No two rows hold equal keys. */
  ghost predicate Distinct<T(!new), K(!new)>(key: T -> K, le: (K, K) -> bool, rows: map<nat, T>) {
    forall a, b | a in rows && b in rows && a != b :: !Equal(le, key(rows[a]), key(rows[b]))
  }

  // ----- Times of filing -----

  /** When each id was filed last; 0 where nothing is said. */
  type Times = map<nat, nat>

  function Time(when: Times, id: nat): nat {
    if id in when then when[id] else 0
  }

  predicate Earlier(when: Times, a: nat, b: nat) {
    Time(when, a) < Time(when, b) || (Time(when, a) == Time(when, b) && a < b)
  }

  // ----- The index -----

  datatype Index<!T(!new), !K(!new)> = Index(key: T -> K, le: (K, K) -> bool, unique: bool, entries: seq<nat>) {

    predicate Covered(rows: map<nat, T>) {
      forall i | 0 <= i < |entries| :: entries[i] in rows
    }

    function Keys(rows: map<nat, T>): (ks: seq<K>)
      requires Covered(rows)
      ensures |ks| == |entries|
      ensures forall i | 0 <= i < |ks| :: ks[i] == key(rows[entries[i]])
    {
      seq(|entries|, i requires 0 <= i < |entries| => key(rows[entries[i]]))
    }

    ghost predicate InOrder(rows: map<nat, T>) {
      Covered(rows) && Sorted(le, Keys(rows))
    }

    /** The index lists exactly the rows, each once, in the order of their keys. */
    ghost predicate InSync(rows: map<nat, T>) {
      TotalPreorder(le) && Lists(rows) && InOrder(rows)
    }

    ghost predicate Lists(rows: map<nat, T>) {
      NoDup(entries) && forall id :: id in entries <==> id in rows
    }

    /** `get_entries`. */
    function Found(rows: map<nat, T>, k: K): seq<nat>
      requires Covered(rows)
    {
      var s, e := Lower(le, Keys(rows), k), Upper(le, Keys(rows), k);
      if s <= e then entries[s..e] else []
    }

    /** A row holds a key equal to `k`. */
    ghost predicate Holds(rows: map<nat, T>, k: K) {
      exists id | id in rows :: Equal(le, k, key(rows[id]))
    }

    /** A row other than `id` holds a key equal to `k`. */
    ghost predicate HeldByAnother(rows: map<nat, T>, id: nat, k: K) {
      exists other | other in rows && other != id :: Equal(le, k, key(rows[other]))
    }

    /** Two rows hold keys equal to `k`. */
    ghost predicate HeldTwice(rows: map<nat, T>, k: K) {
      exists id | id in rows && Equal(le, k, key(rows[id])) :: HeldByAnother(rows, id, k)
    }

    /** The id filed behind every id with a key at most its own. */
    function Filed(rows: map<nat, T>, id: nat): Index<T, K>
      requires Covered(rows) && id in rows
    {
      var u := Upper(le, Keys(rows), key(rows[id]));
      this.(entries := entries[..u] + [id] + entries[u..])
    }

    function Unfiled(id: nat): Index<T, K>
      requires id in entries
    {
      this.(entries := CutAt(entries, Position(entries, id)))
    }

    /** Ids are ordered by key, and ids with equal keys by the time they were filed and then by id. */
    ghost predicate Ordered(rows: map<nat, T>, when: Times)
      requires Covered(rows)
    {
      forall i, j | 0 <= i < j < |entries| :: Before(rows, when, entries[i], entries[j])
    }

    predicate Before(rows: map<nat, T>, when: Times, a: nat, b: nat)
      requires a in rows && b in rows
    {
      le(key(rows[a]), key(rows[b])) && (le(key(rows[b]), key(rows[a])) ==> Earlier(when, a, b))
    }

    /** All ids as if filed at the same time: equal keys are in ascending order of ids. */
    ghost predicate Canonical(rows: map<nat, T>)
      requires Covered(rows)
    {
      Ordered(rows, map[])
    }

    ghost predicate DistinctKeys(rows: map<nat, T>) {
      Distinct(key, le, rows)
    }

    // ----- A lookup agrees with a scan -----

    lemma FoundIsScan(rows: map<nat, T>, k: K)
      requires InSync(rows)
      ensures forall id :: id in Found(rows, k) <==> id in rows && Equal(le, k, key(rows[id]))
      ensures NoDup(Found(rows, k))
    {
      BoundsSplit(le, Keys(rows), k);
      var s, e := Lower(le, Keys(rows), k), Upper(le, Keys(rows), k);
      InSlice(entries, 0, s, e);
      forall id ensures id in Found(rows, k) <==> id in rows && Equal(le, k, key(rows[id])) {
        InSlice(entries, id, s, e);
        if id in rows {
          BetweenBounds(rows, k, id, s, e);
        }
      }
    }

    /** A listed id stands between the bounds of a key exactly when its row's key equals that key. */
    lemma BetweenBounds(rows: map<nat, T>, k: K, id: nat, s: nat, e: nat)
      requires Lists(rows) && Covered(rows) && id in rows && Splits(le, Keys(rows), k, s, e)
      ensures s <= Position(entries, id) < e <==> Equal(le, k, key(rows[id]))
    {
      ListedAt(rows, id);
    }

    lemma ListedAt(rows: map<nat, T>, id: nat)
      requires Lists(rows) && Covered(rows) && id in rows
      ensures var i := Position(entries, id); i < |entries| && entries[i] == id && Keys(rows)[i] == key(rows[id])
    {
    }

    /** An id is found among the entries of its key, at its place. */
    lemma FoundAtItsPlace(rows: map<nat, T>, id: nat)
      requires InSync(rows) && id in rows
      ensures var s, f := Lower(le, Keys(rows), key(rows[id])), Found(rows, key(rows[id]));
        id in f && s + Position(f, id) == Position(entries, id)
    {
      FoundIsScan(rows, key(rows[id]));
      var s, e := Lower(le, Keys(rows), key(rows[id])), Upper(le, Keys(rows), key(rows[id]));
      assert id in Found(rows, key(rows[id]));
      SlicePosition(entries, id, s, e);
    }

    lemma HoldsIsFound(rows: map<nat, T>, k: K)
      requires InSync(rows)
      ensures Holds(rows, k) <==> Found(rows, k) != []
    {
      FoundIsScan(rows, k);
      if Found(rows, k) != [] {
        assert Found(rows, k)[0] in rows;
      }
    }

    /** With distinct keys a lookup finds at most one row. */
    lemma AtMostOne(rows: map<nat, T>, k: K)
      requires InSync(rows) && DistinctKeys(rows)
      ensures |Found(rows, k)| <= 1
    {
      FoundIsScan(rows, k);
      var f := Found(rows, k);
      if |f| > 1 {
        assert f[0] in f && f[1] in f;
        assert Equal(le, key(rows[f[0]]), key(rows[f[1]]));
      }
    }

    // ----- The operations keep the index in sync -----

    /** `rows` holds a row that the index does not list yet. */
    lemma FiledInSync(rows: map<nat, T>, id: nat)
      requires id in rows && InSync(rows - {id})
      ensures Covered(rows) && Filed(rows, id).InSync(rows)
    {
      var ks, k := Keys(rows), key(rows[id]);
      FiledLists(rows, id);
      FiledKeys(rows, id);
      assert ks == Keys(rows - {id});
      InsertKeepsSorted(le, ks, k);
    }

    lemma FiledLists(rows: map<nat, T>, id: nat)
      requires id in rows && Lists(rows - {id})
      ensures Covered(rows) && Filed(rows, id).Lists(rows) && Filed(rows, id).Covered(rows)
    {
      assert Covered(rows - {id});
      InsertedIds(entries, id, Upper(le, Keys(rows), key(rows[id])));
    }

    lemma FiledKeys(rows: map<nat, T>, id: nat)
      requires id in rows && Covered(rows)
      ensures var ks, k := Keys(rows), key(rows[id]);
        var u := Upper(le, ks, k);
        Filed(rows, id).Covered(rows) && Filed(rows, id).Keys(rows) == ks[..u] + [k] + ks[u..]
    {
      var u := Upper(le, Keys(rows), key(rows[id]));
      InsertedAt(entries, id, u);
      InsertedAt(Keys(rows), key(rows[id]), u);
    }

    lemma UnfiledInSync(rows: map<nat, T>, id: nat)
      requires InSync(rows) && id in rows
      ensures id in entries && Unfiled(id).InSync(rows - {id})
    {
      UnfiledLists(rows, id);
      UnfiledKeys(rows, id);
      SortedWithout(le, Keys(rows), Position(entries, id), Unfiled(id).Keys(rows - {id}));
    }

    lemma UnfiledLists(rows: map<nat, T>, id: nat)
      requires Lists(rows) && id in rows
      ensures id in entries && Unfiled(id).Lists(rows - {id}) && Unfiled(id).Covered(rows - {id})
    {
      RemovedIds(entries, Position(entries, id));
    }

    lemma UnfiledKeys(rows: map<nat, T>, id: nat)
      requires Covered(rows) && id in entries && Unfiled(id).Covered(rows - {id})
      ensures var p, t := Position(entries, id), Unfiled(id).entries;
        var ks, ks' := Keys(rows), Unfiled(id).Keys(rows - {id});
        && (forall i | 0 <= i < |t| :: t[i] == entries[if i < p then i else i + 1])
        && forall i | 0 <= i < |t| :: ks'[i] == ks[if i < p then i else i + 1]
    {
    }

    /** Overwriting a row by one with an equal key keeps the index in sync as it stands. */
    lemma SameKeyInSync(rows: map<nat, T>, id: nat, value: T)
      requires InSync(rows) && id in rows && Equal(le, key(rows[id]), key(value))
      ensures InSync(rows[id := value])
    {
      var rows' := rows[id := value];
      var ks, ks' := Keys(rows), Keys(rows');
      assert forall i | 0 <= i < |ks| :: Equal(le, ks[i], ks'[i]);
      forall i, j | 0 <= i < j < |ks| ensures le(ks'[i], ks'[j]) {
        assert le(ks'[i], ks[i]) && le(ks[i], ks[j]) && le(ks[j], ks'[j]);
      }
    }

    // ----- The order among equal keys -----

    /** Filing an id later than all others keeps the order. */
    lemma FiledOrdered(rows: map<nat, T>, id: nat, when: Times)
      requires id in rows && InSync(rows - {id}) && Ordered(rows - {id}, when)
      requires forall other | other in rows && other != id :: Earlier(when, other, id)
      ensures Covered(rows) && Filed(rows, id).InSync(rows) && Filed(rows, id).Ordered(rows, when)
    {
      FiledInSync(rows, id);
      FiledBehind(rows, id, when);
      OrderedInMore(rows - {id}, when, rows, when);
      InsertedOrdered(rows, id, when, Upper(le, Keys(rows), key(rows[id])));
    }

    lemma OrderedInMore(few: map<nat, T>, when: Times, rows: map<nat, T>, when': Times)
      requires Covered(few) && Ordered(few, when)
      requires forall id | id in few :: id in rows && rows[id] == few[id] && Time(when', id) == Time(when, id)
      ensures Covered(rows) && Ordered(rows, when')
    {
      forall i, j | 0 <= i < j < |entries| ensures Before(rows, when', entries[i], entries[j]) {
        assert Before(few, when, entries[i], entries[j]);
      }
    }

    lemma InsertedOrdered(rows: map<nat, T>, id: nat, when: Times, u: nat)
      requires Covered(rows) && Ordered(rows, when) && id in rows && u <= |entries|
      requires forall i | 0 <= i < u :: Before(rows, when, entries[i], id)
      requires forall i | u <= i < |entries| :: Before(rows, when, id, entries[i])
      ensures var t := this.(entries := entries[..u] + [id] + entries[u..]); t.Covered(rows) && t.Ordered(rows, when)
    {
      InsertedAt(entries, id, u);
    }

    /** The place where an id is filed, if it is the latest. */
    lemma FiledBehind(rows: map<nat, T>, id: nat, when: Times)
      requires id in rows && InSync(rows - {id}) && Covered(rows)
      requires forall other | other in rows && other != id :: Earlier(when, other, id)
      ensures var u := Upper(le, Keys(rows), key(rows[id]));
        && (forall i | 0 <= i < u :: Before(rows, when, entries[i], id))
        && (forall i | u <= i < |entries| :: Before(rows, when, id, entries[i]))
    {
      var ks, k := Keys(rows), key(rows[id]);
      assert ks == Keys(rows - {id});
      BoundsSplit(le, ks, k);
      assert forall i | 0 <= i < |ks| :: entries[i] in rows - {id};
      forall i | 0 <= i < |ks| ensures ks[i] == key(rows[entries[i]]) && (le(ks[i], k) || le(k, ks[i])) {
      }
    }

    lemma UnfiledOrdered(rows: map<nat, T>, id: nat, when: Times)
      requires InSync(rows) && Ordered(rows, when) && id in rows
      ensures id in entries && Unfiled(id).InSync(rows - {id}) && Unfiled(id).Ordered(rows - {id}, when)
    {
      UnfiledInSync(rows, id);
      UnfiledKeys(rows, id);
      var p, t := Position(entries, id), Unfiled(id).entries;
      forall i, j | 0 <= i < j < |t| ensures Before(rows - {id}, when, t[i], t[j]) {
        assert Before(rows, when, entries[if i < p then i else i + 1], entries[if j < p then j else j + 1]);
      }
    }

    lemma FiledCanonical(rows: map<nat, T>, id: nat)
      requires id in rows && InSync(rows - {id}) && Canonical(rows - {id})
      requires forall other | other in rows :: other <= id
      ensures Covered(rows) && Filed(rows, id).InSync(rows) && Filed(rows, id).Canonical(rows)
    {
      FiledOrdered(rows, id, map[]);
    }

    lemma UnfiledCanonical(rows: map<nat, T>, id: nat)
      requires InSync(rows) && Canonical(rows) && id in rows
      ensures id in entries && Unfiled(id).InSync(rows - {id}) && Unfiled(id).Canonical(rows - {id})
    {
      UnfiledOrdered(rows, id, map[]);
    }

    /** The canonical order of the rows is unique: any two indexes with the same key function and order,
        however each came about, list the rows identically. */
    lemma CanonicalIsUnique(other: Index<T, K>, rows: map<nat, T>)
      requires other.key == key && other.le == le
      requires InSync(rows) && Canonical(rows) && other.InSync(rows) && other.Canonical(rows)
      ensures entries == other.entries
    {
      SameOrderSameIds(rows, map[], entries, other.entries);
    }

    /** Two records of filing order the ids of equal keys alike. */
    ghost predicate Agree(rows: map<nat, T>, when: Times, when': Times) {
      forall a, b | a in rows && b in rows && Equal(le, key(rows[a]), key(rows[b])) ::
        Earlier(when, a, b) <==> Earlier(when', a, b)
    }

    /** Two indexes with the same key function and order list the rows identically exactly when they filed equal keys
        in the same order. */
    lemma SameEntriesExactlyWhen(other: Index<T, K>, rows: map<nat, T>, when: Times, when': Times)
      requires other.key == key && other.le == le
      requires InSync(rows) && Ordered(rows, when) && other.InSync(rows) && other.Ordered(rows, when')
      ensures entries == other.entries <==> Agree(rows, when, when')
    {
      if Agree(rows, when, when') {
        forall i, j | 0 <= i < j < |other.entries| ensures Before(rows, when, other.entries[i], other.entries[j]) {
          assert other.Before(rows, when', other.entries[i], other.entries[j]);
        }
        SameOrderSameIds(rows, when, entries, other.entries);
      }
      if entries == other.entries {
        forall a, b | a in rows && b in rows && Equal(le, key(rows[a]), key(rows[b]))
          ensures Earlier(when, a, b) <==> Earlier(when', a, b)
        {
          EarlierIsFirst(rows, when, a, b);
          other.EarlierIsFirst(rows, when', a, b);
        }
      }
    }

    /** Of two ids with equal keys the one filed earlier stands first. */
    lemma EarlierIsFirst(rows: map<nat, T>, when: Times, a: nat, b: nat)
      requires InSync(rows) && Ordered(rows, when) && a in rows && b in rows && Equal(le, key(rows[a]), key(rows[b]))
      ensures Earlier(when, a, b) <==> Position(entries, a) < Position(entries, b)
    {
      var i, j := Position(entries, a), Position(entries, b);
      assert entries[i] == a && entries[j] == b;
      if i < j {
        assert Before(rows, when, a, b);
      } else if j < i {
        assert Before(rows, when, b, a);
      }
    }

    lemma {:induction false} SameOrderSameIds(rows: map<nat, T>, when: Times, s: seq<nat>, t: seq<nat>)
      requires forall x :: x in s <==> x in t
      requires forall x | x in s :: x in rows
      requires forall i, j | 0 <= i < j < |s| :: Before(rows, when, s[i], s[j])
      requires (forall x | x in t :: x in rows) && forall i, j | 0 <= i < j < |t| :: Before(rows, when, t[i], t[j])
      ensures s == t
      decreases |s|
    {
      if s == [] {
        EmptyTogether(s, t);
      } else {
        assert s[0] in t && t[0] in s;
        assert s[0] == t[0];
        var s', t' := s[1..], t[1..];
        forall x ensures x in s' <==> x in t' {
          assert s == [s[0]] + s' && t == [t[0]] + t';
          assert x in s <==> x == s[0] || x in s';
          assert x in t <==> x == t[0] || x in t';
        }
        SameOrderSameIds(rows, when, s', t');
      }
    }
  }
}

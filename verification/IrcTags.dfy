/** Message tags: escaping of values and the `;`-joined tag block
    ("Format" and "Escaping values" of the IRCv3 Message Tags specification, as the source reads them). */
module IrcTags {
  import opened Prelude
  import opened Utf8

  const BACKSLASH: Byte := 92
  const SEMICOLON: Byte := 59
  const COLON: Byte := 58
  const EQUALS: Byte := 61
  const SPACE: Byte := 32
  const CR: Byte := 13
  const LF: Byte := 10
  const LETTER_N: Byte := 110
  const LETTER_R: Byte := 114
  const LETTER_S: Byte := 115

  datatype Error =
    | NotUtf8
    | UnexpectedEscape
    | EmptyMessage
    | NoCommand
    | BangAfterAt
    | EmptyCommand
    | CommandNotThreeLong
    | CommandNotDigits
    | CommandNotLetters

  type Parse<T> = Outcome<T, Error>

  // ----- Escaping one value -----

  function EscapeByte(b: Byte): Bytes {
    if b == BACKSLASH then [BACKSLASH, BACKSLASH]
    else if b == SEMICOLON then [BACKSLASH, COLON]
    else if b == CR then [BACKSLASH, LETTER_R]
    else if b == LF then [BACKSLASH, LETTER_N]
    else if b == SPACE then [BACKSLASH, LETTER_S]
    else [b]
  }

  function Escaped(v: Bytes): Bytes {
    if v == [] then [] else EscapeByte(v[0]) + Escaped(v[1..])
  }

  function UnescapeByte(b: Byte): Option<Byte> {
    if b == BACKSLASH then Some(BACKSLASH)
    else if b == COLON then Some(SEMICOLON)
    else if b == LETTER_R then Some(CR)
    else if b == LETTER_N then Some(LF)
    else if b == LETTER_S then Some(SPACE)
    else None
  }

  /** The value of an escaped word; a lone trailing backslash is dropped,
      an unknown escape is an error. */
  function Unescaped(w: Bytes): Parse<Bytes>
    decreases |w|
  {
    if w == [] || w == [BACKSLASH] then Ok([])
    else if w[0] == BACKSLASH then
      match UnescapeByte(w[1])
      case None => Err(UnexpectedEscape)
      case Some(b) => Prepend(b, Unescaped(w[2..]))
    else Prepend(w[0], Unescaped(w[1..]))
  }

  function Prepend(b: Byte, r: Parse<Bytes>): Parse<Bytes> {
    if r.Ok? then Ok([b] + r.value) else r
  }

  lemma {:induction false} UnescapeAfterEscape(v: Bytes)
    ensures Unescaped(Escaped(v)) == Ok(v)
  {
    if v != [] {
      UnescapeAfterEscape(v[1..]);
      var e, rest := EscapeByte(v[0]), Escaped(v[1..]);
      assert (e + rest)[|e|..] == rest;
      assert |e| == 2 ==> (e + rest)[1] == e[1];
      assert v == [v[0]] + v[1..];
    }
  }

  /** The byte is written as a backslash and the letter, and they are read as the byte. */
  predicate WrittenAs(b: Byte, letter: Byte) {
    Escaped([b]) == [BACKSLASH, letter] && Unescaped([BACKSLASH, letter]) == Ok([b])
  }

  /** The five escapes, and no others. */
  lemma EscapesAre(b: Byte)
    ensures WrittenAs(BACKSLASH, BACKSLASH) && WrittenAs(SEMICOLON, COLON)
    ensures WrittenAs(CR, LETTER_R) && WrittenAs(LF, LETTER_N) && WrittenAs(SPACE, LETTER_S)
    ensures b !in [BACKSLASH, SEMICOLON, CR, LF, SPACE] ==> Escaped([b]) == [b]
    ensures b !in [BACKSLASH, COLON, LETTER_R, LETTER_N, LETTER_S] ==>
      Unescaped([BACKSLASH, b]) == Err(UnexpectedEscape)
  {
    EscapedAlone(BACKSLASH, BACKSLASH);
    EscapedAlone(SEMICOLON, COLON);
    EscapedAlone(SPACE, LETTER_S);
    EscapedAlone(CR, LETTER_R);
    EscapedAlone(LF, LETTER_N);
    EscapedAlone(b, b);
  }

  lemma EscapedAlone(b: Byte, letter: Byte)
    ensures Escaped([b]) == EscapeByte(b)
    ensures UnescapeByte(letter).Some? ==> Unescaped([BACKSLASH, letter]) == Ok([UnescapeByte(letter).value])
    ensures UnescapeByte(letter).None? ==> Unescaped([BACKSLASH, letter]) == Err(UnexpectedEscape)
  {
    assert [b][1..] == [] && EscapeByte(b) + [] == EscapeByte(b);
    var w := [BACKSLASH, letter];
    assert w[2..] == [] && Unescaped([]) == Ok([]);
    if UnescapeByte(letter).Some? {
      assert [UnescapeByte(letter).value] + [] == [UnescapeByte(letter).value];
    }
  }

  /** How many backslashes end the word. */
  function TrailingBackslashes(w: Bytes): (n: nat)
    ensures n <= |w|
  {
    if w == [] || w[|w| - 1] != BACKSLASH then 0 else 1 + TrailingBackslashes(w[..|w| - 1])
  }

  lemma {:induction false} TrailingOfConcat(a: Bytes, s: Bytes)
    ensures TrailingBackslashes(a + s) ==
            if TrailingBackslashes(s) == |s| then |s| + TrailingBackslashes(a) else TrailingBackslashes(s)
  {
    if s == [] {
      assert a + s == a;
    } else {
      assert (a + s)[..|a + s| - 1] == a + s[..|s| - 1];
      TrailingOfConcat(a, s[..|s| - 1]);
    }
  }

  /** Free of the bytes that delimit terms, words and lines. */
  predicate Plain(w: Bytes) {
    forall i | 0 <= i < |w| :: !Delimiter(w[i])
  }

  predicate Delimiter(b: Byte) {
    b == SEMICOLON || b == SPACE || b == CR || b == LF
  }

  /** What the writer produces: no delimiter, and no lone trailing backslash. */
  predicate Canonical(w: Bytes) {
    Plain(w) && TrailingBackslashes(w) % 2 == 0
  }

  lemma PlainConcat(a: Bytes, s: Bytes)
    ensures Plain(a + s) <==> Plain(a) && Plain(s)
  {
    if Plain(a + s) {
      assert forall i | 0 <= i < |a| :: a[i] == (a + s)[i];
      assert forall i | 0 <= i < |s| :: s[i] == (a + s)[|a| + i];
    }
  }

  lemma CanonicalOfConcat(a: Bytes, s: Bytes)
    requires TrailingBackslashes(a) == 0 || TrailingBackslashes(a) == 2
    ensures Canonical(a + s) <==> Plain(a) && Canonical(s)
  {
    ParityOfConcat(a, s);
    PlainConcat(a, s);
  }

  lemma ParityOfConcat(a: Bytes, s: Bytes)
    requires TrailingBackslashes(a) == 0 || TrailingBackslashes(a) == 2
    ensures TrailingBackslashes(a + s) % 2 == TrailingBackslashes(s) % 2
  {
    TrailingOfConcat(a, s);
  }

  /** Escaping undoes unescaping on an accepted word exactly when the word is canonical. */
  lemma {:induction false} EscapeAfterUnescape(w: Bytes)
    requires Unescaped(w).Ok?
    ensures Escaped(Unescaped(w).value) == w <==> Canonical(w)
    decreases |w|
  {
    if w == [] {
    } else if w == [BACKSLASH] {
      assert w[..0] == [];
      assert TrailingBackslashes(w) == 1;
    } else {
      var n := if w[0] == BACKSLASH then 2 else 1;
      var b := if n == 2 then UnescapeByte(w[1]).value else w[0];
      var a, rest := w[..n], w[n..];
      assert w == a + rest;
      EscapeAfterUnescape(rest);
      TrailingOfEscape(a);
      CanonicalOfConcat(a, rest);
      EscapeCons(b, Unescaped(rest).value);
      UnitsMatch(a, b, rest, Escaped(Unescaped(rest).value));
    }
  }

  /** A word starts with the escape of a byte, and goes on the same, only if it starts with that unit as written. */
  lemma UnitsMatch(a: Bytes, b: Byte, rest: Bytes, escaped: Bytes)
    requires (|a| == 2 && a[0] == BACKSLASH && UnescapeByte(a[1]) == Some(b)) || (|a| == 1 && a[0] == b != BACKSLASH)
    ensures EscapeByte(b) + escaped == a + rest <==> Plain(a) && escaped == rest
  {
    EscapeOfOne(a, b);
    EqualTails(a, rest, escaped);
    if EscapeByte(b) != a {
      assert (EscapeByte(b) + escaped)[0] == BACKSLASH && (a + rest)[0] == a[0] != BACKSLASH;
    }
  }

  lemma TrailingOfEscape(a: Bytes)
    requires (|a| == 2 && a[0] == BACKSLASH) || (|a| == 1 && a[0] != BACKSLASH)
    ensures TrailingBackslashes(a) == if |a| == 2 && a[1] == BACKSLASH then 2 else 0
  {
    if |a| == 2 {
      assert a[..1] == [BACKSLASH] && [BACKSLASH][..0] == [];
    }
  }

  /** One accepted unit is what its byte escapes to, unless it is a bare delimiter. */
  lemma EscapeOfOne(a: Bytes, b: Byte)
    requires (|a| == 2 && a[0] == BACKSLASH && UnescapeByte(a[1]) == Some(b)) || (|a| == 1 && a[0] == b != BACKSLASH)
    ensures EscapeByte(b) == a <==> Plain(a)
  {
    if |a| == 2 {
      assert a == [BACKSLASH, a[1]];
    } else {
      assert a == [b];
    }
  }

  lemma EscapeCons(b: Byte, v: Bytes)
    ensures Escaped([b] + v) == EscapeByte(b) + Escaped(v)
  {
    assert ([b] + v)[1..] == v;
  }

  /** A backslash that is not itself escaped stands before a byte that is no escape. */
  predicate UnknownEscapeAt(w: Bytes, i: nat) {
    && i + 1 < |w| && w[i] == BACKSLASH && UnescapeByte(w[i + 1]).None?
    && TrailingBackslashes(w[..i]) % 2 == 0
  }

  predicate HasUnknownEscape(w: Bytes) {
    exists i | 0 <= i < |w| :: UnknownEscapeAt(w, i)
  }

  /** A word is rejected exactly when it has an unknown escape, and with that error only. */
  lemma {:induction false} RejectedExactlyWhen(w: Bytes)
    ensures Unescaped(w) == Err(UnexpectedEscape) <==> HasUnknownEscape(w)
    ensures !HasUnknownEscape(w) ==> Unescaped(w).Ok?
    decreases |w|
  {
    if w == [] || w == [BACKSLASH] {
    } else {
      var n := if w[0] == BACKSLASH then 2 else 1;
      RejectedExactlyWhen(w[n..]);
      if n == 2 && UnescapeByte(w[1]).None? {
        assert UnknownEscapeAt(w, 0);
      } else {
        EscapesAreFurtherOn(w, n);
      }
    }
  }

  /** Past one accepted unit, a word has the unknown escapes of the rest. */
  lemma EscapesAreFurtherOn(w: Bytes, n: nat)
    requires |w| >= n > 0 && n == (if w[0] == BACKSLASH then 2 else 1) && (n == 2 ==> UnescapeByte(w[1]).Some?)
    ensures HasUnknownEscape(w) <==> HasUnknownEscape(w[n..])
  {
    forall i | 0 <= i < |w[n..]| ensures UnknownEscapeAt(w, n + i) <==> UnknownEscapeAt(w[n..], i) {
      SameParity(w, n, i);
    }
    if HasUnknownEscape(w) {
      var i :| 0 <= i < |w| && UnknownEscapeAt(w, i);
      assert w[..1] == [w[0]] && [w[0]][..0] == [];
      assert i != 0 && (n == 2 ==> i != 1);
      assert UnknownEscapeAt(w[n..], i - n);
    }
    if HasUnknownEscape(w[n..]) {
      var i :| 0 <= i < |w[n..]| && UnknownEscapeAt(w[n..], i);
      assert UnknownEscapeAt(w, n + i);
    }
  }

  lemma SameParity(w: Bytes, n: nat, i: nat)
    requires |w| >= n > 0 && n == (if w[0] == BACKSLASH then 2 else 1) && i <= |w| - n
    ensures TrailingBackslashes(w[..n + i]) % 2 == TrailingBackslashes(w[n..][..i]) % 2
  {
    assert w[..n + i] == w[..n] + w[n..][..i];
    TrailingOfEscape(w[..n]);
    ParityOfConcat(w[..n], w[n..][..i]);
  }

  lemma EqualTails(a: Bytes, s: Bytes, t: Bytes)
    ensures a + s == a + t <==> s == t
  {
    assert (a + s)[|a|..] == s && (a + t)[|a|..] == t;
  }

  lemma {:induction false} EscapedIsClean(v: Bytes)
    ensures Plain(Escaped(v))
    ensures v != [] ==> Escaped(v) != []
  {
    if v != [] {
      EscapedIsClean(v[1..]);
    }
  }

  /** Above ASCII both directions copy bytes, so they treat a character as a whole. */
  lemma {:induction false} EscapeCopiesHighBytes(v: Bytes, n: nat)
    requires n <= |v| && forall i | 0 <= i < n :: v[i] >= 0x80
    ensures Escaped(v) == v[..n] + Escaped(v[n..])
  {
    if n > 0 {
      EscapeCopiesHighBytes(v[1..], n - 1);
      assert v[1..][n - 1..] == v[n..];
      assert v[..n] == [v[0]] + v[1..][..n - 1];
      Assoc([v[0]], v[1..][..n - 1], Escaped(v[n..]));
    }
  }

  lemma {:induction false} UnescapeCopiesHighBytes(w: Bytes, n: nat)
    requires n <= |w| && forall i | 0 <= i < n :: w[i] >= 0x80
    requires Unescaped(w).Ok?
    ensures Unescaped(w[n..]).Ok? && Unescaped(w).value == w[..n] + Unescaped(w[n..]).value
  {
    if n > 0 {
      UnescapeCopiesHighBytes(w[1..], n - 1);
      assert w[1..][n - 1..] == w[n..];
      assert w[..n] == [w[0]] + w[1..][..n - 1];
      Assoc([w[0]], w[1..][..n - 1], Unescaped(w[n..]).value);
    } else {
      assert w[0..] == w;
    }
  }

  lemma {:induction false} EscapeKeepsUtf8(v: Bytes)
    requires ValidUtf8(v)
    ensures ValidUtf8(Escaped(v))
    decreases |v|
  {
    if v != [] {
      var n := CharLen(v);
      EscapeKeepsUtf8(v[n..]);
      if n > 1 {
        EscapeCopiesHighBytes(v, n);
        CharLenStable(v, Escaped(v[n..]));
      } else {
        Utf8AfterAscii(EscapeByte(v[0]), Escaped(v[1..]));
      }
    }
  }

  lemma {:induction false} Utf8AfterAscii(a: Bytes, s: Bytes)
    requires ValidUtf8(s) && forall i | 0 <= i < |a| :: a[i] < 0x80
    ensures ValidUtf8(a + s)
    decreases |a|
  {
    if a == [] {
      assert a + s == s;
    } else {
      Utf8AfterAscii(a[1..], s);
      assert (a + s)[1..] == a[1..] + s;
      assert CharLen(a + s) == 1;
    }
  }

  lemma {:induction false} UnescapeKeepsUtf8(w: Bytes)
    requires ValidUtf8(w) && Unescaped(w).Ok?
    ensures ValidUtf8(Unescaped(w).value)
    decreases |w|
  {
    if w == [] || w == [BACKSLASH] {
    } else {
      var n := CharLen(w);
      if n > 1 {
        UnescapeCopiesHighBytes(w, n);
        UnescapeKeepsUtf8(w[n..]);
        CharLenStable(w, Unescaped(w[n..]).value);
      } else if w[0] == BACKSLASH {
        assert w[1] < 0x80;
        assert CharLen(w[1..]) == 1 && w[1..][1..] == w[2..];
        UnescapeKeepsUtf8(w[2..]);
        Utf8AfterAscii([UnescapeByte(w[1]).value], Unescaped(w[2..]).value);
      } else {
        UnescapeKeepsUtf8(w[1..]);
        Utf8AfterAscii([w[0]], Unescaped(w[1..]).value);
      }
    }
  }

  // ----- The tag block -----

  type Tags = map<Bytes, Bytes>

  /** The terms between the separators: at least one, possibly empty. */
  function Split(s: Bytes): (terms: seq<Bytes>)
    ensures terms != []
    ensures forall t | t in terms :: Without(t, SEMICOLON) && forall b | b in t :: b in s
    decreases |s|
  {
    var p := IndexOf(s, SEMICOLON);
    if p == |s| then [s] else [s[..p]] + Split(s[p + 1..])
  }

  function Join(terms: seq<Bytes>): Bytes {
    if terms == [] then [] else if |terms| == 1 then terms[0]
    else terms[0] + [SEMICOLON] + Join(terms[1..])
  }

  lemma {:induction false} SplitOfJoin(terms: seq<Bytes>)
    requires terms != [] && forall t | t in terms :: Without(t, SEMICOLON)
    ensures Split(Join(terms)) == terms
  {
    assert terms[0] in terms;
    if |terms| == 1 {
      IndexOfIs(terms[0], SEMICOLON, |terms[0]|);
    } else {
      SplitOfJoin(terms[1..]);
      SplitFirst(terms[0], Join(terms[1..]));
      assert terms == [terms[0]] + terms[1..];
    }
  }

  lemma SplitFirst(term: Bytes, rest: Bytes)
    requires Without(term, SEMICOLON)
    ensures Split(term + [SEMICOLON] + rest) == [term] + Split(rest)
  {
    var s, p := term + [SEMICOLON] + rest, |term|;
    assert s[..p] == term && s[p + 1..] == rest;
    IndexOfIs(s, SEMICOLON, p);
  }

  function TermKey(term: Bytes): Bytes {
    term[..IndexOf(term, EQUALS)]
  }

  function TermValue(term: Bytes): Bytes {
    var p := IndexOf(term, EQUALS);
    if p == |term| then [] else term[p + 1..]
  }

  /** `key=value` or `key`, the value unescaped. */
  function Term(term: Bytes): Parse<(Bytes, Bytes)> {
    TermFrom(TermKey(term), TermValue(term))
  }

  function TermFrom(key: Bytes, value: Bytes): Parse<(Bytes, Bytes)> {
    if !ValidUtf8(key) || !ValidUtf8(value) then Err(NotUtf8)
    else
      var v :- Unescaped(value);
      Ok((key, v))
  }

  /** The terms read in order into `tags`: a later term overwrites an earlier one with its key. */
  function TagsOfTerms(terms: seq<Bytes>, tags: Tags): Parse<Tags> {
    if terms == [] then Ok(tags)
    else
      var (k, v) :- Term(terms[0]);
      TagsOfTerms(terms[1..], tags[k := v])
  }

  function TagsOf(word: Bytes): Parse<Tags> {
    TagsOfTerms(Split(word), map[])
  }

  /** A term is accepted exactly when its key and its value are UTF-8 and the value has no unknown escape. */
  predicate TermAccepted(term: Bytes) {
    ValidUtf8(TermKey(term)) && ValidUtf8(TermValue(term)) && !HasUnknownEscape(TermValue(term))
  }

  /** A tag block is accepted exactly when each of its terms is; reading it never panics. */
  lemma {:induction false} TagsAcceptedExactlyWhen(terms: seq<Bytes>, acc: Tags)
    ensures TagsOfTerms(terms, acc).Ok? <==> forall i | 0 <= i < |terms| :: TermAccepted(terms[i])
    ensures !TagsOfTerms(terms, acc).Panic?
  {
    if terms != [] {
      TermAcceptedExactlyWhen(terms[0]);
      if Term(terms[0]).Ok? {
        var kv := Term(terms[0]).value;
        TagsAcceptedExactlyWhen(terms[1..], acc[kv.0 := kv.1]);
        assert forall i | 0 < i < |terms| :: terms[i] == terms[1..][i - 1];
      }
    }
  }

  lemma TermAcceptedExactlyWhen(term: Bytes)
    ensures Term(term).Ok? <==> TermAccepted(term)
    ensures !Term(term).Panic?
  {
    AcceptedExactlyWhen(TermKey(term), TermValue(term));
  }

  lemma AcceptedExactlyWhen(key: Bytes, value: Bytes)
    ensures TermFrom(key, value).Ok? <==> ValidUtf8(key) && ValidUtf8(value) && !HasUnknownEscape(value)
    ensures !TermFrom(key, value).Panic?
  {
    RejectedExactlyWhen(value);
  }

  /** Why a term is rejected: its key or its value is not UTF-8, or else an escape is unknown. */
  function Rejection(term: Bytes): Error {
    if ValidUtf8(TermKey(term)) && ValidUtf8(TermValue(term)) then UnexpectedEscape else NotUtf8
  }

  lemma RejectedTerm(term: Bytes)
    requires !TermAccepted(term)
    ensures Term(term) == Err(Rejection(term))
  {
    RejectedExactlyWhen(TermValue(term));
  }

  /** The error of a block is that of its first term that is rejected. */
  lemma {:induction false} FirstRejectedTerm(terms: seq<Bytes>, acc: Tags, n: nat)
    requires n < |terms| && (forall i | 0 <= i < n :: TermAccepted(terms[i])) && !TermAccepted(terms[n])
    ensures TagsOfTerms(terms, acc) == Err(Rejection(terms[n]))
  {
    if n == 0 {
      RejectedTerm(terms[0]);
    } else {
      TermAcceptedExactlyWhen(terms[0]);
      var kv := Term(terms[0]).value;
      assert forall i | 0 <= i < n :: terms[1..][i] == terms[i + 1];
      FirstRejectedTerm(terms[1..], acc[kv.0 := kv.1], n - 1);
    }
  }

  /** The keys of a block are those of its terms, and each has the value of the last term with that key. */
  lemma {:induction false} LastTermWins(terms: seq<Bytes>, acc: Tags, k: Bytes)
    requires TagsOfTerms(terms, acc).Ok?
    ensures var tags, n := TagsOfTerms(terms, acc).value, LastWith(terms, k);
      && (k in tags <==> n < |terms| || k in acc)
      && (n < |terms| ==> Unescaped(TermValue(terms[n])) == Ok(tags[k]))
      && (n == |terms| && k in acc ==> tags[k] == acc[k])
  {
    if terms != [] {
      var kv := Term(terms[0]).value;
      LastTermWins(terms[1..], acc[kv.0 := kv.1], k);
    }
  }

  /** The last term with key `k`, or |terms|. */
  function LastWith(terms: seq<Bytes>, k: Bytes): (n: nat)
    ensures n <= |terms|
    ensures n < |terms| ==> TermKey(terms[n]) == k
    ensures forall i | n < i < |terms| || (n == |terms| && 0 <= i < n) :: TermKey(terms[i]) != k
  {
    if terms == [] then 0
    else
      var n := LastWith(terms[1..], k);
      assert forall i | 0 < i < |terms| :: terms[i] == terms[1..][i - 1];
      if n < |terms| - 1 then n + 1 else if TermKey(terms[0]) == k then 0 else |terms|
  }

  function TermText(key: Bytes, value: Bytes): Bytes {
    if value == [] then key else key + [EQUALS] + Escaped(value)
  }

  /** The entries of a tag map in the order in which the hash map is enumerated. */
  type Items = seq<(Bytes, Bytes)>

  predicate Enumerates(items: Items, tags: Tags) {
    && (forall i | 0 <= i < |items| :: items[i].0 in tags && tags[items[i].0] == items[i].1)
    && (forall k | k in tags :: exists i | 0 <= i < |items| :: items[i].0 == k)
    && (forall i, j | 0 <= i < j < |items| :: items[i].0 != items[j].0)
  }

  function TermTexts(items: Items): (terms: seq<Bytes>)
    ensures |terms| == |items|
    ensures forall i | 0 <= i < |items| :: terms[i] == TermText(items[i].0, items[i].1)
  {
    seq(|items|, i requires 0 <= i < |items| => TermText(items[i].0, items[i].1))
  }

  function BlockText(items: Items): Bytes {
    Join(TermTexts(items))
  }

  predicate ReadableItems(items: Items) {
    forall i | 0 <= i < |items| :: ReadableTag(items[i].0, items[i].1)
  }

  /** A key and a value that the tag block can carry. The key may be empty, though printing an empty key panics. */
  predicate ReadableTag(key: Bytes, value: Bytes) {
    ValidUtf8(key) && Without(key, SPACE) && Without(key, SEMICOLON) && Without(key, EQUALS) && ValidUtf8(value)
  }

  lemma TermOfTermText(key: Bytes, value: Bytes)
    requires ReadableTag(key, value)
    ensures Term(TermText(key, value)) == Ok((key, value))
  {
    var t := TermText(key, value);
    assert t[..|key|] == key;
    IndexOfIs(t, EQUALS, |key|);
    if value != [] {
      EscapedIsClean(value);
      var w := Escaped(value);
      assert t[|key| + 1..] == w;
      EscapeKeepsUtf8(value);
      UnescapeAfterEscape(value);
    }
  }

  lemma TermTextIsClean(key: Bytes, value: Bytes)
    requires ReadableTag(key, value)
    ensures Without(TermText(key, value), SEMICOLON) && Without(TermText(key, value), SPACE)
  {
    EscapedIsClean(value);
  }

  /** The items inserted in order. */
  function Inserted(items: Items, acc: Tags): Tags {
    if items == [] then acc else Inserted(items[1..], acc[items[0].0 := items[0].1])
  }

  lemma {:induction false} ReadTermTexts(items: Items, acc: Tags)
    requires ReadableItems(items)
    ensures TagsOfTerms(TermTexts(items), acc) == Ok(Inserted(items, acc))
  {
    if items != [] {
      var (k, v) := items[0];
      TermOfTermText(k, v);
      assert TermTexts(items)[1..] == TermTexts(items[1..]);
      ReadTermTexts(items[1..], acc[k := v]);
    }
  }

  lemma {:induction false} InsertedEntries(items: Items, acc: Tags)
    requires forall i, j | 0 <= i < j < |items| :: items[i].0 != items[j].0
    ensures var r := Inserted(items, acc);
      && acc.Keys <= r.Keys
      && (forall i | 0 <= i < |items| :: items[i].0 in r && r[items[i].0] == items[i].1)
      && (forall k | k in r :: (exists i | 0 <= i < |items| :: items[i].0 == k) || (k in acc && r[k] == acc[k]))
      && (forall k | k in acc :: (exists i | 0 <= i < |items| :: items[i].0 == k) || r[k] == acc[k])
  {
    if items != [] {
      var acc' := acc[items[0].0 := items[0].1];
      var rest := items[1..];
      InsertedEntries(rest, acc');
      assert items[0].0 in acc';
      assert forall i | 0 < i < |items| :: items[i] == rest[i - 1];
      assert forall i | 0 <= i < |rest| :: rest[i] == items[i + 1];
    }
  }

  lemma TermTextsAreClean(items: Items)
    requires ReadableItems(items)
    ensures forall t | t in TermTexts(items) :: Without(t, SEMICOLON) && Without(t, SPACE)
  {
    var terms := TermTexts(items);
    forall i | 0 <= i < |terms| ensures Without(terms[i], SEMICOLON) && Without(terms[i], SPACE) {
      TermTextIsClean(items[i].0, items[i].1);
    }
  }

  lemma ReadBlockText(items: Items)
    requires ReadableItems(items) && items != []
    ensures TagsOf(BlockText(items)) == Ok(Inserted(items, map[]))
    ensures Without(BlockText(items), SPACE)
  {
    TermTextsAreClean(items);
    SplitOfJoin(TermTexts(items));
    ReadTermTexts(items, map[]);
    JoinHasNoSpace(TermTexts(items));
  }

  lemma EnumerationInserts(items: Items, tags: Tags)
    requires Enumerates(items, tags)
    ensures Inserted(items, map[]) == tags && (items == [] <==> tags == map[])
  {
    InsertedEntries(items, map[]);
  }

  /** Reading the block of a tag map, written in any order, returns the map. */
  lemma TagBlockRoundTrip(items: Items, tags: Tags)
    requires Enumerates(items, tags) && items != []
    requires forall k | k in tags :: ReadableTag(k, tags[k])
    ensures TagsOf(BlockText(items)) == Ok(tags)
  {
    assert ReadableItems(items);
    ReadBlockText(items);
    EnumerationInserts(items, tags);
  }

  lemma {:induction false} JoinHasNoSpace(terms: seq<Bytes>)
    requires forall t | t in terms :: Without(t, SPACE)
    ensures Without(Join(terms), SPACE)
  {
    if |terms| > 1 {
      assert terms[0] in terms;
      JoinHasNoSpace(terms[1..]);
    } else if |terms| == 1 {
      assert terms[0] in terms;
    }
  }

  /** Every tag the parser produces has a key free of the bytes that delimit it. */
  lemma {:induction false} ParsedTagsAreReadable(terms: seq<Bytes>, acc: Tags)
    requires forall t | t in terms :: Without(t, SEMICOLON) && Without(t, SPACE)
    requires forall k | k in acc :: ReadableTag(k, acc[k])
    requires TagsOfTerms(terms, acc).Ok?
    ensures var tags := TagsOfTerms(terms, acc).value;
      (forall k | k in tags :: ReadableTag(k, tags[k])) && acc.Keys <= tags.Keys && (terms != [] ==> tags != map[])
  {
    if terms != [] {
      var t := terms[0];
      assert t in terms;
      var kv := Term(t).value;
      var p := IndexOf(t, EQUALS);
      UnescapeKeepsUtf8(if p == |t| then [] else t[p + 1..]);
      ParsedTagsAreReadable(terms[1..], acc[kv.0 := kv.1]);
      assert kv.0 in acc[kv.0 := kv.1];
    }
  }

  // ----- The loops of the source -----

  function Extend(prefix: Bytes, r: Parse<Bytes>): Parse<Bytes> {
    if r.Ok? then Ok(prefix + r.value) else r
  }

  lemma ExtendLaws(prefix: Bytes, b: Byte, r: Parse<Bytes>)
    ensures Extend([], r) == r
    ensures Extend(prefix, Prepend(b, r)) == Extend(prefix + [b], r)
  {
    if r.Ok? {
      assert [] + r.value == r.value;
      assert prefix + ([b] + r.value) == prefix + [b] + r.value;
    }
  }

  lemma UnescapedAt(w: Bytes, i: nat)
    requires i < |w|
    ensures Unescaped(w[i..]) ==
            if w[i] != BACKSLASH then Prepend(w[i], Unescaped(w[i + 1..]))
            else if i + 1 == |w| then Ok([])
            else if UnescapeByte(w[i + 1]).None? then Err(UnexpectedEscape)
            else Prepend(UnescapeByte(w[i + 1]).value, Unescaped(w[i + 2..]))
  {
    assert w[i..][1..] == w[i + 1..];
    if i + 1 < |w| {
      assert w[i..][2..] == w[i + 2..];
    } else {
      assert w[i..] == [w[i]];
    }
  }

  /** `unescape_tag_value`. */
  method UnescapeTagValue(w: Bytes) returns (r: Parse<Bytes>)
    ensures r == if ValidUtf8(w) then Unescaped(w) else Err(NotUtf8)
  {
    if !ValidUtf8(w) {
      return Err(NotUtf8);
    }
    var result, i := [], 0;
    ExtendLaws([], BACKSLASH, Unescaped(w));
    assert w[0..] == w;
    while i < |w|
      invariant i <= |w|
      invariant Unescaped(w) == Extend(result, Unescaped(w[i..]))
    {
      UnescapedAt(w, i);
      var ch := w[i];
      i := i + 1;
      if ch == BACKSLASH {
        if i == |w| {
          assert result + [] == result;
          return Ok(result);
        }
        match UnescapeByte(w[i])
        case None =>
          return Err(UnexpectedEscape);
        case Some(b) =>
          ExtendLaws(result, b, Unescaped(w[i + 1..]));
          result := result + [b];
          i := i + 1;
      } else {
        ExtendLaws(result, ch, Unescaped(w[i..]));
        result := result + [ch];
      }
    }
    assert result + [] == result;
    return Ok(result);
  }

  lemma TermsStep(terms: seq<Bytes>, i: nat, tags: Tags, r: Parse<(Bytes, Bytes)>)
    requires i < |terms| && r == Term(terms[i])
    ensures TagsOfTerms(terms[i..], tags) ==
            if r.Ok? then TagsOfTerms(terms[i + 1..], tags[r.value.0 := r.value.1]) else r.PropagateFailure<Tags>()
  {
    assert terms[i..][1..] == terms[i + 1..];
  }

  /** `parse_tags`. */
  method ParseTags(word: Bytes) returns (r: Parse<Tags>)
    ensures r == TagsOf(word)
  {
    var terms, result := Split(word), map[];
    ghost var all := TagsOf(word);
    assert terms[0..] == terms;
    for i := 0 to |terms|
      invariant all == TagsOfTerms(terms[i..], result)
    {
      var term := ReadTerm(terms[i]);
      TermsStep(terms, i, result, term);
      if !term.Ok? {
        return term.PropagateFailure();
      }
      result := result[term.value.0 := term.value.1];
    }
    assert terms[|terms|..] == [];
    return Ok(result);
  }

  /** One turn of the loop of `parse_tags`. */
  method ReadTerm(term: Bytes) returns (r: Parse<(Bytes, Bytes)>)
    ensures r == Term(term)
  {
    var p := IndexOf(term, EQUALS);
    var keyBytes := term[..p];
    var valueBytes := if p == |term| then [] else term[p + 1..];
    if !ValidUtf8(keyBytes) {
      return Err(NotUtf8);
    }
    var value :- UnescapeTagValue(valueBytes);
    return Ok((keyBytes, value));
  }

  /** `escape_tag_value`. */
  method EscapeTagValue(v: Bytes, out: Buffer)
    modifies out
    ensures out.data == old(out.data) + Escaped(v)
  {
    assert v[0..] == v;
    for i := 0 to |v|
      invariant out.data + Escaped(v[i..]) == old(out.data) + Escaped(v)
    {
      assert v[i..][1..] == v[i + 1..];
      out.Write(EscapeByte(v[i]));
    }
  }
}

/** CRLF framing: an incremental decoder over a growing buffer. */
module IrcCodec {
  import opened Prelude
  import opened IrcTags
  import opened IrcMessages

  /** The position of the first CR LF in `data`, or |data| when there is none. */
  function TermIndex(data: Bytes): (p: nat)
    ensures p <= |data|
    ensures p < |data| ==> TermAt(data, p)
    ensures forall i | 0 <= i < p :: !TermAt(data, i)
  {
    if data == [] || TermAt(data, 0) then 0
    else
      var p := 1 + TermIndex(data[1..]);
      assert forall i | 0 < i < p :: TermAt(data, i) <==> TermAt(data[1..], i - 1);
      p
  }

  predicate TermAt(data: Bytes, i: nat) {
    i + 1 < |data| && data[i] == CR && data[i + 1] == LF
  }

  lemma TermIndexIs(data: Bytes, p: nat)
    requires p <= |data| && (p < |data| ==> TermAt(data, p))
    requires forall i | 0 <= i < p :: !TermAt(data, i)
    ensures TermIndex(data) == p
  {
  }

  predicate NoTerm(data: Bytes) {
    forall i | 0 <= i < |data| :: !TermAt(data, i)
  }

  /** One call of `decode`: the message read from the first frame that is not empty, and what is left.
      Frames are consumed even when reading them fails. */
  function DecodeOne(data: Bytes): (r: (Option<Parse<Message>>, Bytes))
    ensures r.0.Some? ==> |r.1| < |data|
    ensures r.0.None? ==> NoTerm(r.1) && |r.1| <= |data|
    decreases |data|
  {
    var p := TermIndex(data);
    if p == |data| then (None, data)
    else if p > 0 then (Some(MessageOf(data[..p])), data[p + 2..])
    else DecodeOne(data[2..])
  }

  /** The last of the results is a panic. */
  predicate Panicked(rs: seq<Parse<Message>>) {
    rs != [] && rs[|rs| - 1].Panic?
  }

  /** `decode` called until it returns no message or panics: everything it returned, and what is left. */
  function Drained(data: Bytes): (r: (seq<Parse<Message>>, Bytes))
    ensures Panicked(r.0) || NoTerm(r.1)
    decreases |data|
  {
    var (r, rest) := DecodeOne(data);
    if r.None? then ([], rest)
    else if r.value.Panic? then ([r.value], rest)
    else
      var (rs, left) := Drained(rest);
      ([r.value] + rs, left)
  }

  /** Draining goes on with more bytes, unless it panicked: then they stay where they are. */
  function DrainedOn(before: (seq<Parse<Message>>, Bytes), more: Bytes): (seq<Parse<Message>>, Bytes) {
    if Panicked(before.0) then (before.0, before.1 + more)
    else
      var (rs, left) := Drained(before.1 + more);
      (before.0 + rs, left)
  }

  /** A peer's bytes arriving in chunks, the buffer drained after each. Once decoding panicked nothing is decoded
      any more; what is left then includes the bytes that were still to come. */
  function Fed(chunks: seq<Bytes>, buffered: Bytes): (seq<Parse<Message>>, Bytes) {
    if chunks == [] then ([], buffered)
    else
      var (rs, left) := Drained(buffered + chunks[0]);
      if Panicked(rs) then (rs, left + Flat(chunks[1..]))
      else
        var (rest, last) := Fed(chunks[1..], left);
        (rs + rest, last)
  }

  function Flat(chunks: seq<Bytes>): Bytes {
    if chunks == [] then [] else chunks[0] + Flat(chunks[1..])
  }

  /** Bytes that arrive later do not change what was decoded; decoding continues from the leftover. */
  lemma {:induction false} DrainedConcat(a: Bytes, b: Bytes)
    ensures Drained(a + b) == DrainedOn(Drained(a), b)
    decreases |a|
  {
    var p := TermIndex(a);
    if p == |a| {
      assert [] + Drained(a + b).0 == Drained(a + b).0;
    } else {
      FirstTermStays(a, b);
      var rest := a[p + 2..];
      assert (a + b)[p + 2..] == rest + b && (a + b)[..p] == a[..p];
      DrainedConcat(rest, b);
      if p > 0 {
        DrainedOnAfter(MessageOf(a[..p]), Drained(rest), b);
      } else {
        SkipEmptyFrame(a);
        SkipEmptyFrame(a + b);
      }
    }
  }

  lemma DrainedOnAfter(r: Parse<Message>, before: (seq<Parse<Message>>, Bytes), more: Bytes)
    ensures !r.Panic? ==>
      DrainedOn(([r] + before.0, before.1), more) ==
      ([r] + DrainedOn(before, more).0, DrainedOn(before, more).1)
  {
    if !r.Panic? {
      LastOfMore(r, before.0);
      Assoc([r], before.0, Drained(before.1 + more).0);
    }
  }

  lemma FirstTermStays(a: Bytes, b: Bytes)
    requires TermIndex(a) < |a|
    ensures TermIndex(a + b) == TermIndex(a)
  {
    assert forall i | 0 <= i <= TermIndex(a) :: TermAt(a + b, i) <==> TermAt(a, i);
    TermIndexIs(a + b, TermIndex(a));
  }

  lemma SkipEmptyFrame(data: Bytes)
    requires data != [] && TermIndex(data) == 0
    ensures Drained(data) == Drained(data[2..])
  {
  }

  lemma DrainedLeftover(data: Bytes)
    requires NoTerm(data)
    ensures Drained(data) == ([], data)
  {
    TermIndexIs(data, |data|);
  }

  /** However a byte stream is cut into chunks, the messages, the errors, a panic and the leftover are the same. */
  lemma {:induction false} ChunkInvariance(chunks: seq<Bytes>, buffered: Bytes)
    requires NoTerm(buffered)
    ensures Fed(chunks, buffered) == Drained(buffered + Flat(chunks))
  {
    if chunks == [] {
      DrainedLeftover(buffered);
      assert buffered + [] == buffered;
    } else {
      var first, later := buffered + chunks[0], Flat(chunks[1..]);
      DrainedConcat(first, later);
      Assoc(buffered, chunks[0], later);
      if !Panicked(Drained(first).0) {
        ChunkInvariance(chunks[1..], Drained(first).1);
      }
    }
  }

  // ----- When decoding panics -----

  /** The texts between terminators that are not empty, in order. */
  function Frames(data: Bytes): seq<Bytes>
    decreases |data|
  {
    var p := TermIndex(data);
    if p == |data| then []
    else (if p > 0 then [data[..p]] else []) + Frames(data[p + 2..])
  }

  predicate PanicFrame(frame: Bytes) {
    PrefixAccepted(frame) && CommandWord(frame) == THREE_ZEROS
  }

  /** One call of `decode` panics exactly when the first frame holds the command 000 behind an accepted prefix. */
  lemma {:induction false} DecodePanicsExactlyWhen(data: Bytes)
    ensures DecodeOne(data).0 == Some(Panic) <==> Frames(data) != [] && PanicFrame(Frames(data)[0])
    decreases |data|
  {
    var p := TermIndex(data);
    if p == 0 && data != [] {
      DecodePanicsExactlyWhen(data[2..]);
    } else if p < |data| {
      ReadPanicsExactlyWhen(data[..p]);
    }
  }

  function ReadAll(frames: seq<Bytes>): (rs: seq<Parse<Message>>)
    ensures |rs| == |frames|
  {
    if frames == [] then [] else [MessageOf(frames[0])] + ReadAll(frames[1..])
  }

  function UpToPanic(rs: seq<Parse<Message>>): seq<Parse<Message>> {
    if rs == [] then [] else if rs[0].Panic? then [rs[0]] else [rs[0]] + UpToPanic(rs[1..])
  }

  /** Draining reads the frames one by one, up to the first that panics. */
  lemma {:induction false} DrainedAreFrames(data: Bytes)
    ensures Drained(data).0 == UpToPanic(ReadAll(Frames(data)))
    decreases |data|
  {
    var p := TermIndex(data);
    if p < |data| {
      DrainedAreFrames(data[p + 2..]);
      if p == 0 {
        SkipEmptyFrame(data);
        assert [] + Frames(data[2..]) == Frames(data[2..]);
      } else {
        ReadOneMore(data[..p], Frames(data[p + 2..]));
      }
    }
  }

  lemma ReadOneMore(frame: Bytes, frames: seq<Bytes>)
    ensures var r := MessageOf(frame);
      UpToPanic(ReadAll([frame] + frames)) == if r.Panic? then [r] else [r] + UpToPanic(ReadAll(frames))
  {
    assert ([frame] + frames)[1..] == frames;
    assert ([MessageOf(frame)] + ReadAll(frames))[1..] == ReadAll(frames);
  }

  /** A byte stream brings the decoder down exactly when one of its frames is such a frame. */
  lemma StreamPanicsExactlyWhen(chunks: seq<Bytes>)
    ensures var frames := Frames(Flat(chunks));
      Panicked(Fed(chunks, []).0) <==> exists i | 0 <= i < |frames| :: PanicFrame(frames[i])
  {
    var frames := Frames(Flat(chunks));
    ChunkInvariance(chunks, []);
    assert [] + Flat(chunks) == Flat(chunks);
    DrainedAreFrames(Flat(chunks));
    SomePanics(ReadAll(frames));
    forall i | 0 <= i < |frames| ensures ReadAll(frames)[i].Panic? <==> PanicFrame(frames[i]) {
      PanicAt(frames, i);
    }
  }

  lemma {:induction false} SomePanics(rs: seq<Parse<Message>>)
    ensures Panicked(UpToPanic(rs)) <==> exists i | 0 <= i < |rs| :: rs[i].Panic?
  {
    if rs != [] {
      SomePanics(rs[1..]);
      LastOfMore(rs[0], UpToPanic(rs[1..]));
      assert forall i | 0 < i < |rs| :: rs[i] == rs[1..][i - 1];
    }
  }

  lemma {:induction false} PanicAt(frames: seq<Bytes>, i: nat)
    requires i < |frames|
    ensures ReadAll(frames)[i].Panic? <==> PanicFrame(frames[i])
  {
    if i == 0 {
      ReadPanicsExactlyWhen(frames[0]);
    } else {
      PanicAt(frames[1..], i - 1);
    }
  }

  lemma LastOfMore(r: Parse<Message>, rs: seq<Parse<Message>>)
    ensures Panicked([r]) <==> r.Panic?
    ensures !r.Panic? ==> (Panicked([r] + rs) <==> Panicked(rs))
  {
  }

  const TERM: Bytes := [CR, LF]

  lemma TermAfter(text: Bytes, rest: Bytes)
    requires NoTerm(text)
    ensures TermIndex(text + TERM + rest) == |text|
    ensures (text + TERM + rest)[..|text|] == text && (text + TERM + rest)[|text| + 2..] == rest
  {
    var data := text + TERM + rest;
    forall i | 0 <= i < |text| ensures !TermAt(data, i) {
      assert !TermAt(text, i);
    }
    TermIndexIs(data, |text|);
  }

  datatype Item = Item(message: Message, tags: Items)

  predicate Encodable(item: Item) {
    && Enumerates(item.tags, item.message.tags)
    && WellFormed(item.message) && NoTerm(MessageText(item.message, item.tags))
  }

  predicate AllEncodable(items: seq<Item>) {
    forall i | 0 <= i < |items| :: Encodable(items[i])
  }

  function Encoded(items: seq<Item>): Bytes
    requires AllEncodable(items)
  {
    if items == [] then []
    else
      assert Encodable(items[0]);
      WellFormedIsPrintable(items[0].message);
      MessageText(items[0].message, items[0].tags) + TERM + Encoded(items[1..])
  }

  function Messages(items: seq<Item>): seq<Parse<Message>> {
    if items == [] then [] else [Ok(items[0].message)] + Messages(items[1..])
  }

  /** Decoding what was encoded returns the messages, in order, with nothing left over. */
  lemma {:induction false} DecodeEncoded(items: seq<Item>)
    requires AllEncodable(items)
    ensures Drained(Encoded(items)) == (Messages(items), [])
  {
    if items == [] {
      DrainedLeftover([]);
    } else {
      assert Encodable(items[0]);
      DrainText(items[0].message, items[0].tags, Encoded(items[1..]));
      DecodeEncoded(items[1..]);
    }
  }

  lemma DrainText(m: Message, items: Items, rest: Bytes)
    requires Encodable(Item(m, items))
    ensures Drained(MessageText(m, items) + TERM + rest) == ([Ok(m)] + Drained(rest).0, Drained(rest).1)
  {
    RoundTrip(m, items);
    TextIsNotEmpty(m, items);
    TermAfter(MessageText(m, items), rest);
  }

  lemma TextIsNotEmpty(m: Message, items: Items)
    requires Enumerates(items, m.tags) && Printable(m) && Readable(m)
    ensures var t := MessageText(m, items); t != [] && !TermAt(t, 0)
  {
    CommandRoundTrip(m.command);
    EnumerationInserts(items, m.tags);
    ReadAfterTags(m, []);
    var c := CommandText(m.command)[0];
    if items == [] && m.source.None? {
      assert MessageText(m, items)[0] == c;
      assert c != CR;
    } else if items == [] {
      assert MessageText(m, items)[0] == COLON;
    } else {
      assert MessageText(m, items)[0] == AT;
    }
  }

  /** A message survives the encoder and the decoder exactly when it is well formed and its text has no CR LF. */
  lemma SurvivesExactlyWhen(m: Message, items: Items)
    requires Enumerates(items, m.tags) && Printable(m)
    ensures Drained(MessageText(m, items) + TERM) == ([Ok(m)], []) <==>
            WellFormed(m) && NoTerm(MessageText(m, items))
  {
    var data := MessageText(m, items) + TERM;
    RoundTrip(m, items);
    if Drained(data) == ([Ok(m)], []) {
      DrainedAreReadable(data);
      assert Drained(data).0[0] == Ok(m);
    }
    if Readable(m) {
      if NoTerm(MessageText(m, items)) {
        DrainWholeText(m, items);
      } else {
        DrainCutText(m, items);
      }
    }
  }

  lemma DrainWholeText(m: Message, items: Items)
    requires Enumerates(items, m.tags) && Printable(m) && Readable(m) && NoTerm(MessageText(m, items))
    ensures Drained(MessageText(m, items) + TERM) == ([MessageOf(MessageText(m, items))], [])
  {
    var text := MessageText(m, items);
    TextIsNotEmpty(m, items);
    TermAfter(text, []);
    DrainedLeftover([]);
    assert text + TERM + [] == text + TERM;
    assert [MessageOf(text)] + [] == [MessageOf(text)];
  }

  lemma DrainCutText(m: Message, items: Items)
    requires Enumerates(items, m.tags) && Printable(m) && Readable(m) && !NoTerm(MessageText(m, items))
    ensures var rs := Drained(MessageText(m, items) + TERM).0; rs != [] && rs[0] != Ok(m)
  {
    var text := MessageText(m, items);
    var p := TermIndex(text);
    TextIsNotEmpty(m, items);
    FirstTermStays(text, TERM);
    assert (text + TERM)[..p] == text[..p];
    CutTextIsAnother(m, items, p, text[..p]);
  }

  lemma {:induction false} DrainedAreReadable(data: Bytes)
    ensures forall r | r in Drained(data).0 :: r.Ok? ==> Readable(r.value)
    decreases |data|
  {
    var (r, rest) := DecodeOne(data);
    if r.Some? {
      if r.value.Ok? {
        DecodedIsReadable(data);
      }
      DrainedAreReadable(rest);
    }
  }

  lemma {:induction false} DecodedIsReadable(data: Bytes)
    requires DecodeOne(data).0.Some? && DecodeOne(data).0.value.Ok?
    ensures Readable(DecodeOne(data).0.value.value)
    decreases |data|
  {
    var p := TermIndex(data);
    if p > 0 {
      ParsedMessageIsReadable(data[..p]);
    } else {
      DecodedIsReadable(data[2..]);
    }
  }

  /** The text up to a CR LF inside it does not read as the message: cut before the command there is no command,
      and cut in the parameters some parameter is shorter or missing. */
  lemma CutTextIsAnother(m: Message, items: Items, p: nat, cut: Bytes)
    requires Enumerates(items, m.tags) && Printable(m) && Readable(m)
    requires TermAt(MessageText(m, items), p) && cut == MessageText(m, items)[..p]
    ensures MessageOf(cut) != Ok(m)
  {
    var tags, source, command := TagsText(items), SourcePrefix(m.source), CommandAndTail(m, ParamsText(m.params));
    var place := PlaceOfCut(tags, source, command, p, cut);
    match place
    case InTags(_) => CutTags(m, items, tags, source, command, cut, place);
    case InSource(_) => CutInSource(m, items, tags, source, command, cut, place);
    case InCommand(_) => CutInCommand(m, items, tags, source, command, cut, place);
  }

  /** The part of a message's text that a cut falls in, and where in it. */
  datatype Place = InTags(at: nat) | InSource(at: nat) | InCommand(at: nat)

  predicate CutThere(tags: Bytes, source: Bytes, command: Bytes, cut: Bytes, place: Place) {
    match place
    case InTags(p) =>
      p < |tags| && TermAt(tags + (source + command), p) && cut == (tags + (source + command))[..p]
    case InSource(p) =>
      p < |source| && TermAt(source + command, p) && cut == tags + (source + command)[..p]
    case InCommand(p) =>
      TermAt(command, p) && cut == tags + (source + command[..p])
  }

  lemma PlaceOfCut(tags: Bytes, source: Bytes, command: Bytes, p: nat, cut: Bytes) returns (place: Place)
    requires TermAt(tags + (source + command), p) && cut == (tags + (source + command))[..p]
    ensures CutThere(tags, source, command, cut, place)
  {
    if p < |tags| {
      place := InTags(p);
    } else {
      TermPast(tags, source + command, p);
      if p - |tags| < |source| {
        place := InSource(p - |tags|);
      } else {
        TermPast(source, command, p - |tags|);
        place := InCommand(p - |tags| - |source|);
      }
    }
  }

  lemma TermPast(a: Bytes, b: Bytes, p: nat)
    requires |a| <= p && TermAt(a + b, p)
    ensures TermAt(b, p - |a|) && (a + b)[..p] == a + b[..p - |a|]
  {
  }

  lemma CutTags(m: Message, items: Items, tags: Bytes, source: Bytes, command: Bytes, cut: Bytes, place: Place)
    requires Enumerates(items, m.tags) && Readable(m) && tags == TagsText(items)
    requires place.InTags? && CutThere(tags, source, command, cut, place)
    ensures !MessageOf(cut).Ok?
  {
    EnumerationInserts(items, m.tags);
    assert ReadableItems(items);
    ReadBlockText(items);
    CutBlock(BlockText(items), source + command, place.at);
  }

  lemma CutInSource(m: Message, items: Items, tags: Bytes, source: Bytes, command: Bytes, cut: Bytes, place: Place)
    requires Enumerates(items, m.tags) && Printable(m) && Readable(m)
    requires tags == TagsText(items) && source == SourcePrefix(m.source)
    requires place.InSource? && CutThere(tags, source, command, cut, place)
    ensures !MessageOf(cut).Ok?
  {
    SourceTextHasNoSpace(m.source.value);
    CutSource(SourceText(m.source.value).value, command, place.at);
    SkipTags(m, items, (source + command)[..place.at]);
  }

  lemma CutInCommand(m: Message, items: Items, tags: Bytes, source: Bytes, command: Bytes, cut: Bytes, place: Place)
    requires Enumerates(items, m.tags) && Printable(m) && Readable(m) && tags == TagsText(items)
    requires source == SourcePrefix(m.source) && command == CommandAndTail(m, ParamsText(m.params))
    requires place.InCommand? && CutThere(tags, source, command, cut, place)
    ensures MessageOf(cut) != Ok(m)
  {
    var k := ParamsOfCut(m, items, tags, source, command, cut, place);
    CutInParams(m, items, k, cut);
  }

  /** A cut in or after the command leaves the text up to somewhere in the parameters. */
  lemma ParamsOfCut(m: Message, items: Items, tags: Bytes, source: Bytes, command: Bytes, cut: Bytes, place: Place)
    returns (k: nat)
    requires WellFormedCommand(m.command) && tags == TagsText(items)
    requires (m.source.Some? ==> SourceText(m.source.value).Some?)
    requires source == SourcePrefix(m.source) && command == CommandAndTail(m, ParamsText(m.params))
    requires place.InCommand? && CutThere(tags, source, command, cut, place)
    ensures k < |ParamsText(m.params)|
    ensures cut == TagsText(items) + (SourcePrefix(m.source) + CommandAndTail(m, ParamsText(m.params)[..k]))
  {
    NoTermInCommand(m.command, place.at, ParamsText(m.params));
    CutTail(CommandText(m.command), ParamsText(m.params), place.at);
    k := place.at - |CommandText(m.command)| - 1;
  }

  lemma CutTail(text: Bytes, tail: Bytes, p: nat)
    requires |text| < p < |text + [SPACE] + tail|
    ensures (text + [SPACE] + tail)[..p] == text + [SPACE] + tail[..p - |text| - 1]
  {
  }

  lemma CutInParams(m: Message, items: Items, k: nat, cut: Bytes)
    requires Enumerates(items, m.tags) && Printable(m) && Readable(m) && k < |ParamsText(m.params)|
    requires cut == TagsText(items) + (SourcePrefix(m.source) + CommandAndTail(m, ParamsText(m.params)[..k]))
    ensures MessageOf(cut) != Ok(m)
  {
    ParamsRoundTrip(m.params);
    ReadWithTail(m, items, ParamsText(m.params)[..k]);
    CutParams(m.params, k);
  }

  lemma CutBlock(block: Bytes, rest: Bytes, p: nat)
    requires Without(block, SPACE) && TermAt([AT] + (block + [SPACE]) + rest, p) && p < |block| + 2
    ensures !MessageOf(([AT] + (block + [SPACE]) + rest)[..p]).Ok?
  {
    var text := [AT] + (block + [SPACE]) + rest;
    assert text[0] == AT && text[|block| + 1] == SPACE;
    assert text[..p] == [AT] + block[..p - 1];
    NoWordAfter(block[..p - 1]);
    assert text[..p][1..] == block[..p - 1];
  }

  lemma NoWordAfter(word: Bytes)
    requires Without(word, SPACE)
    ensures AfterWord(word) == []
  {
    IndexOfIs(word, SPACE, |word|);
  }

  lemma CutSource(word: Bytes, rest: Bytes, p: nat)
    requires Without(word, SPACE) && TermAt([COLON] + (word + [SPACE]) + rest, p) && p < |word| + 2
    ensures var cut := ([COLON] + (word + [SPACE]) + rest)[..p];
      cut != [] && cut[0] == COLON && forall tags :: !AfterTags(tags, cut).Ok?
  {
    var text := [COLON] + (word + [SPACE]) + rest;
    assert text[0] == COLON && text[|word| + 1] == SPACE;
    assert text[..p] == [COLON] + word[..p - 1];
    NoWordAfter(word[..p - 1]);
    assert text[..p][1..] == word[..p - 1];
  }

  /** Past the tag block, reading goes on as if there were none. */
  lemma SkipTags(m: Message, items: Items, text: Bytes)
    requires Enumerates(items, m.tags) && Readable(m) && text != [] && text[0] == COLON
    requires forall tags :: !AfterTags(tags, text).Ok?
    ensures !MessageOf(TagsText(items) + text).Ok?
  {
    if items == [] {
      assert TagsText(items) + text == text;
    } else {
      assert ReadableItems(items);
      ReadBlockText(items);
      ReadBlock(BlockText(items), text);
      Assoc([AT], BlockText(items) + [SPACE], text);
    }
  }

  lemma NoTermInCommand(c: Command, q: nat, rest: Bytes)
    requires WellFormedCommand(c) && TermAt(CommandText(c) + [SPACE] + rest, q)
    ensures q > |CommandText(c)|
  {
    var text := CommandText(c);
    assert c.Name? ==> forall i | 0 <= i < |text| :: Letter(text[i]);
    assert forall i | 0 <= i < |text| :: (text + [SPACE] + rest)[i] == text[i] != CR;
  }

  lemma {:induction false} CutParams(params: seq<Bytes>, k: nat)
    requires WellFormedParams(params) && k < |ParamsText(params)|
    ensures ParamsOf(ParamsText(params)[..k]) != params
  {
    var text := ParamsText(params);
    if |params| == 1 {
      if k > 0 {
        assert text[..k] == [COLON] + params[0][..k - 1];
        assert text[..k][1..] == params[0][..k - 1];
      }
    } else if k <= |params[0]| {
      assert text[..k] == params[0][..k];
      CutWord(params[0], k);
    } else {
      TailIsWellFormed(params);
      CutParams(params[1..], k - |params[0]| - 1);
      CutLater(params[0], ParamsText(params[1..]), params[1..], k - |params[0]| - 1);
      assert params == [params[0]] + params[1..];
    }
  }

  lemma TailIsWellFormed(params: seq<Bytes>)
    requires WellFormedParams(params) && |params| > 1
    ensures WellFormedParams(params[1..]) && MiddleParam(params[0])
    ensures ParamsText(params[1..]) != [] && ParamsText(params[1..])[0] != SPACE
  {
    ParamsRoundTrip(params[1..]);
    assert forall i | 0 <= i < |params[1..]| - 1 :: params[1..][i] == params[i + 1];
  }

  lemma CutLater(word: Bytes, rest: Bytes, params: seq<Bytes>, j: nat)
    requires MiddleParam(word) && rest != [] && rest[0] != SPACE && j < |rest| && ParamsOf(rest[..j]) != params
    ensures ParamsOf((word + [SPACE] + rest)[..|word| + 1 + j]) != [word] + params
  {
    assert (word + [SPACE] + rest)[..|word| + 1 + j] == word + [SPACE] + rest[..j];
    ParamsOfWordAnd(word, rest[..j]);
    assert ([word] + ParamsOf(rest[..j]))[1..] == ParamsOf(rest[..j]);
    assert ([word] + params)[1..] == params;
  }

  lemma CutWord(word: Bytes, k: nat)
    requires MiddleParam(word) && k <= |word|
    ensures |ParamsOf(word[..k])| <= 1
  {
    NoWordAfter(word[..k]);
    assert k > 0 ==> word[..k][0] == word[0];
  }

  lemma ParamsOfWordAnd(word: Bytes, rest: Bytes)
    requires MiddleParam(word) && (rest != [] ==> rest[0] != SPACE)
    ensures ParamsOf(word + [SPACE] + rest) == [word] + ParamsOf(rest)
  {
    WordThenRest(word, rest);
    assert (word + [SPACE] + rest)[0] == word[0];
  }

  /** `IrcCodec::decode` over a buffer it consumes from. */
  method Decode(data: Buffer) returns (r: Option<Parse<Message>>)
    modifies data
    ensures (r, data.data) == DecodeOne(old(data.data))
  {
    while true
      invariant DecodeOne(data.data) == DecodeOne(old(data.data))
      decreases |data.data|
    {
      var pos := TermIndex(data.data);
      if pos == |data.data| {
        return None;
      }
      var contents := data.data[..pos];
      data.data := data.data[pos + |TERM|..];
      if pos > 0 {
        var m := ReadMessage(contents);
        return Some(m);
      }
    }
  }

  /** `IrcCodec::encode`: false when it panics, and then nothing is appended. */
  method Encode(m: Message, items: Items, out: Buffer) returns (done: bool)
    requires Enumerates(items, m.tags)
    modifies out
    ensures done <==> Printable(m)
    ensures out.data == if done then old(out.data) + (MessageText(m, items) + TERM) else old(out.data)
  {
    var bytes := new Buffer([]);
    done := WriteMessage(m, items, bytes);
    if done {
      assert bytes.data == MessageText(m, items);
      Assoc(out.data, bytes.data, TERM);
      out.Write(bytes.data);
      out.Write(TERM);
    }
  }
}

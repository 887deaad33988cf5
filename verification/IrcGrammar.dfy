/** The texts that the parser accepts for one message: how many spaces stand between its words, and whether the last
    parameter follows a colon, makes no difference. */
module IrcGrammar {
  import opened Prelude
  import opened IrcTags
  import opened IrcMessages

  // ----- Spaces -----

  predicate Spaces(s: Bytes) { forall i | 0 <= i < |s| :: s[i] == SPACE }

  /** One or more spaces, or none where nothing follows. */
  predicate Gap(gap: Bytes, rest: Bytes) {
    Spaces(gap) && (rest != [] ==> gap != [] && rest[0] != SPACE)
  }

  lemma {:induction false} SpacesAreSkipped(gap: Bytes, rest: Bytes)
    requires Spaces(gap) && (rest != [] ==> rest[0] != SPACE)
    ensures SkipSpaces(gap + rest) == rest
  {
    if gap == [] {
      assert gap + rest == rest;
    } else {
      assert (gap + rest)[1..] == gap[1..] + rest;
      SpacesAreSkipped(gap[1..], rest);
    }
  }

  lemma WordThenGap(word: Bytes, gap: Bytes, rest: Bytes)
    requires Without(word, SPACE) && Gap(gap, rest)
    ensures Word(word + (gap + rest)) == word && AfterWord(word + (gap + rest)) == rest
  {
    var text := word + (gap + rest);
    assert text[..|word|] == word && text[|word|..] == gap + rest;
    IndexOfIs(text, SPACE, |word|);
    SpacesAreSkipped(gap, rest);
  }

  // ----- Parameters -----

  /** Words in a row, each followed by its gap. */
  function Spread(words: seq<Bytes>, gaps: seq<Bytes>): Bytes
    requires |words| == |gaps|
  {
    if words == [] then [] else words[0] + (gaps[0] + Spread(words[1..], gaps[1..]))
  }

  /** Every word can stand without a colon, and is set off from what follows. */
  predicate SetOff(words: seq<Bytes>, gaps: seq<Bytes>, last: Bytes)
    requires |words| == |gaps|
  {
    && (forall i | 0 <= i < |words| :: MiddleParam(words[i]) && Spaces(gaps[i]))
    && (forall i | 0 <= i < |words| :: (i < |words| - 1 || last != []) ==> gaps[i] != [])
    && (last != [] ==> last[0] == COLON)
  }

  /** The parameters of words that are set off, and of what stands behind a colon in the end: exactly these. */
  lemma {:induction false} SpreadParams(words: seq<Bytes>, gaps: seq<Bytes>, last: Bytes)
    requires |words| == |gaps| && SetOff(words, gaps, last)
    ensures ParamsOf(Spread(words, gaps) + last) == words + (if last == [] then [] else [last[1..]])
    ensures Spread(words, gaps) + last != [] ==> (Spread(words, gaps) + last)[0] != SPACE
  {
    if words == [] {
      assert Spread(words, gaps) + last == last;
    } else {
      var rest := Spread(words[1..], gaps[1..]) + last;
      SpreadParams(words[1..], gaps[1..], last);
      OneMoreWord(words, gaps, last, rest);
      WordThenGap(words[0], gaps[0], rest);
      assert MiddleParam(words[0]);
      assert words == [words[0]] + words[1..];
    }
  }

  lemma OneMoreWord(words: seq<Bytes>, gaps: seq<Bytes>, last: Bytes, rest: Bytes)
    requires |words| == |gaps| && words != [] && rest == Spread(words[1..], gaps[1..]) + last
    ensures Spread(words, gaps) + last == words[0] + (gaps[0] + rest)
  {
    Assoc(words[0], gaps[0] + Spread(words[1..], gaps[1..]), last);
    Assoc(gaps[0], Spread(words[1..], gaps[1..]), last);
  }

  /** Every text is spread in this way. */
  lemma {:induction false} ParamsAreSpread(text: Bytes)
    returns (words: seq<Bytes>, gaps: seq<Bytes>, last: Bytes)
    requires text != [] ==> text[0] != SPACE
    ensures |words| == |gaps| && SetOff(words, gaps, last) && text == Spread(words, gaps) + last
    decreases |text|
  {
    if text == [] || text[0] == COLON {
      words, gaps, last := [], [], text;
    } else {
      var word, rest := Word(text), AfterWord(text);
      var gap := GapBehind(text);
      var ws, gs;
      ws, gs, last := ParamsAreSpread(rest);
      words, gaps := [word] + ws, [gap] + gs;
      assert words[1..] == ws && gaps[1..] == gs;
      OneMoreWord(words, gaps, last, rest);
    }
  }

  lemma GapBehind(text: Bytes) returns (gap: Bytes)
    ensures Gap(gap, AfterWord(text)) && text == Word(text) + (gap + AfterWord(text))
  {
    var at := IndexOf(text, SPACE);
    gap := SkippedSpaces(text[at..]);
    assert text == text[..at] + text[at..];
  }

  lemma {:induction false} SkippedSpaces(text: Bytes) returns (gap: Bytes)
    ensures Spaces(gap) && text == gap + SkipSpaces(text)
    ensures text != [] && text[0] == SPACE ==> gap != []
  {
    if text != [] && text[0] == SPACE {
      var more := SkippedSpaces(text[1..]);
      gap := [SPACE] + more;
      assert text == [SPACE] + text[1..];
      Assoc([SPACE], more, SkipSpaces(text));
    } else {
      gap := [];
      assert text == [] + text;
    }
  }

  // ----- Messages -----

  /** The words of a message and the spaces behind them. */
  datatype Spelling = Spelling(
    block: Option<Bytes>, afterBlock: Bytes,
    source: Option<Bytes>, afterSource: Bytes,
    command: Bytes, afterCommand: Bytes,
    words: seq<Bytes>, gaps: seq<Bytes>, last: Bytes)
  {
    predicate Fits() {
      && |words| == |gaps| && SetOff(words, gaps, last)
      && (block.Some? ==> Without(block.value, SPACE) && Gap(afterBlock, SourceOn()) && SourceOn() != [])
      && (source.Some? ==> Without(source.value, SPACE) && Gap(afterSource, CommandOn()))
      && command != [] && Without(command, SPACE) && Gap(afterCommand, Tail())
      && (source.None? ==> command[0] != COLON && (block.None? ==> command[0] != AT))
    }

    function Tail(): Bytes
      requires |words| == |gaps|
    {
      Spread(words, gaps) + last
    }

    function CommandOn(): Bytes
      requires |words| == |gaps|
    {
      command + (afterCommand + Tail())
    }

    function SourceOn(): Bytes
      requires |words| == |gaps|
    {
      if source.None? then CommandOn() else [COLON] + (source.value + (afterSource + CommandOn()))
    }

    function Text(): Bytes
      requires |words| == |gaps|
    {
      if block.None? then SourceOn() else [AT] + (block.value + (afterBlock + SourceOn()))
    }

    function Params(): seq<Bytes> {
      words + (if last == [] then [] else [last[1..]])
    }

    /** What the words say, each on its own. The first that is rejected counts. */
    function Meaning(): Parse<Message> {
      var tags :- if block.None? then Ok(map[]) else TagsOf(block.value);
      if source.None? then WithCommand(tags, None)
      else
        var s :- SourceOf(source.value);
        WithCommand(tags, Some(s))
    }

    function WithCommand(tags: Tags, s: Option<Source>): Parse<Message> {
      var c :- CommandOf(command);
      Ok(Message(tags, s, c, Params()))
    }
  }

  lemma ReadCommandOn(sp: Spelling, tags: Tags, s: Option<Source>)
    requires sp.Fits()
    ensures AfterSource(tags, s, sp.CommandOn()) == sp.WithCommand(tags, s)
  {
    SpreadParams(sp.words, sp.gaps, sp.last);
    WordThenGap(sp.command, sp.afterCommand, sp.Tail());
  }

  lemma ReadSourceOn(sp: Spelling, tags: Tags)
    requires sp.Fits()
    ensures sp.SourceOn() != [] && AfterTags(tags, sp.SourceOn()) ==
      if sp.source.None? then sp.WithCommand(tags, None)
      else if !SourceOf(sp.source.value).Ok? then SourceOf(sp.source.value).PropagateFailure()
      else sp.WithCommand(tags, Some(SourceOf(sp.source.value).value))
  {
    ReadCommandOn(sp, tags, None);
    if sp.source.Some? {
      var text := sp.source.value + (sp.afterSource + sp.CommandOn());
      WordThenGap(sp.source.value, sp.afterSource, sp.CommandOn());
      assert ([COLON] + text)[1..] == text;
      if SourceOf(sp.source.value).Ok? {
        ReadCommandOn(sp, tags, Some(SourceOf(sp.source.value).value));
      }
    }
  }

  /** A text reads as what its words say, however many spaces separate them. */
  lemma TextMeans(sp: Spelling)
    requires sp.Fits()
    ensures MessageOf(sp.Text()) == sp.Meaning()
  {
    if sp.block.None? {
      ReadSourceOn(sp, map[]);
    } else {
      var text := sp.block.value + (sp.afterBlock + sp.SourceOn());
      WordThenGap(sp.block.value, sp.afterBlock, sp.SourceOn());
      assert ([AT] + text)[1..] == text;
      if TagsOf(sp.block.value).Ok? {
        ReadSourceOn(sp, TagsOf(sp.block.value).value);
      }
    }
  }

  /** A last parameter that can stand without a colon reads the same with one. */
  lemma ColonIsOptional(sp: Spelling, word: Bytes, gap: Bytes, bare: Spelling)
    requires sp.Fits() && sp.last == [COLON] + word && MiddleParam(word) && Spaces(gap)
    requires bare == sp.(words := sp.words + [word], gaps := sp.gaps + [gap], last := [])
    ensures bare.Fits() && MessageOf(bare.Text()) == MessageOf(sp.Text())
  {
    WithoutColon(sp.words, sp.gaps, sp.last, word, gap, bare.words, bare.gaps);
    SameHead(sp, bare);
    TextMeans(sp);
    TextMeans(bare);
  }

  /** Other parameters fit as well where spaces stand behind the command. */
  lemma SameHead(sp: Spelling, other: Spelling)
    requires sp.Fits() && sp.afterCommand != [] && |other.words| == |other.gaps|
    requires SetOff(other.words, other.gaps, other.last)
    requires other == sp.(words := other.words, gaps := other.gaps, last := other.last)
    ensures other.Fits()
  {
    SpreadParams(other.words, other.gaps, other.last);
    assert sp.command == sp.CommandOn()[..|sp.command|] && other.command == other.CommandOn()[..|other.command|];
  }

  lemma WithoutColon(
      words: seq<Bytes>, gaps: seq<Bytes>, last: Bytes, word: Bytes, gap: Bytes, words': seq<Bytes>, gaps': seq<Bytes>)
    requires |words| == |gaps| && SetOff(words, gaps, last)
    requires last == [COLON] + word && MiddleParam(word) && Spaces(gap)
    requires words' == words + [word] && gaps' == gaps + [gap]
    ensures SetOff(words', gaps', []) && words' + [] == words + [last[1..]]
  {
  }

  /** The words of a message, with spaces of any number. */
  predicate Spells(sp: Spelling, m: Message, items: Items)
    requires Printable(m)
  {
    && sp.Fits() && sp.Params() == m.params && sp.command == CommandText(m.command)
    && sp.block == (if items == [] then None else Some(BlockText(items)))
    && sp.source == (if m.source.None? then None else SourceText(m.source.value))
  }

  /** A message may be spelled in any such way: it reads the same as when it is printed. */
  lemma SpellingIsFree(sp: Spelling, m: Message, items: Items)
    requires Enumerates(items, m.tags) && Printable(m) && Readable(m) && Spells(sp, m, items)
    ensures MessageOf(sp.Text()) == MessageOf(MessageText(m, items))
    ensures WellFormed(m) ==> MessageOf(sp.Text()) == Ok(m)
  {
    TextMeans(sp);
    ReadOfText(m, items);
    RoundTrip(m, items);
    CommandRoundTrip(m.command);
    EnumerationInserts(items, m.tags);
    if items != [] {
      assert ReadableItems(items);
      ReadBlockText(items);
    }
  }

  /** Something stands behind the tags and the source, and the text does not start with a space. */
  predicate HasCommand(buf: Bytes) {
    buf != [] && buf[0] != SPACE && AfterTagBlock(buf) != [] && AfterSourceWord(AfterTagBlock(buf)) != []
  }

  /** Any other text is rejected for that, unless its tags were rejected before. */
  lemma TextsWithoutCommand(buf: Bytes)
    requires !HasCommand(buf)
    ensures MessageOf(buf) ==
      if buf == [] then Err(EmptyMessage)
      else if buf[0] == SPACE then Err(EmptyCommand)
      else if buf[0] == AT && AfterTagBlock(buf) != [] && TagsOf(Word(buf[1..])).Err? then
        TagsOf(Word(buf[1..])).PropagateFailure()
      else Err(NoCommand)
  {
    if buf != [] {
      if buf[0] == AT {
        TagsAcceptedExactlyWhen(Split(Word(buf[1..])), map[]);
      } else if buf[0] == SPACE {
        IndexOfIs(buf, SPACE, 0);
      }
    }
  }

  /** The block and the source each stand behind a byte of their own. */
  lemma Headed(text: Bytes, head: Byte) returns (word: Option<Bytes>, gap: Bytes)
    requires text != []
    ensures word.None? <==> text[0] != head
    ensures word.Some? ==>
      var rest := AfterWord(text[1..]);
      Without(word.value, SPACE) && Gap(gap, rest) && text == [head] + (word.value + (gap + rest))
  {
    word, gap := None, [];
    if text[0] == head {
      word := Some(Word(text[1..]));
      gap := GapBehind(text[1..]);
      assert text == [head] + text[1..];
    }
  }

  lemma CommandIsSpelled(on: Bytes) returns (sp: Spelling)
    requires on != [] && on[0] != SPACE
    ensures sp.block.None? && sp.source.None? && |sp.words| == |sp.gaps| && SetOff(sp.words, sp.gaps, sp.last)
    ensures sp.command != [] && sp.command[0] == on[0] && Without(sp.command, SPACE)
    ensures Gap(sp.afterCommand, sp.Tail()) && sp.CommandOn() == on
  {
    var afterCommand := GapBehind(on);
    var words, gaps, last := ParamsAreSpread(AfterWord(on));
    sp := Spelling(None, [], None, [], Word(on), afterCommand, words, gaps, last);
  }

  /** Every text with a command is spelled by its words, so what `TextMeans` says covers all that are not rejected for
      want of one. */
  lemma EveryTextIsSpelled(buf: Bytes) returns (sp: Spelling)
    requires HasCommand(buf)
    ensures sp.Fits() && sp.Text() == buf
  {
    var text := AfterTagBlock(buf);
    var on := AfterSourceWord(text);
    sp := CommandIsSpelled(on);
    var source, afterSource := Headed(text, COLON);
    sp := sp.(source := source, afterSource := afterSource);
    assert sp.CommandOn() == on && sp.SourceOn() == text;
    var block, afterBlock := Headed(buf, AT);
    sp := sp.(block := block, afterBlock := afterBlock);
    assert sp.CommandOn() == on && sp.SourceOn() == text;
  }
}

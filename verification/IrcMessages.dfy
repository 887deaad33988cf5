/** IRC messages: what the parser reads, what the writer prints, and when the two are inverse
    (section 2.3.1 of RFC 2812 with message tags, as the source reads it). */
module IrcMessages {
  import opened Prelude
  import opened Utf8
  import opened IrcTags

  const AT: Byte := 64
  const BANG: Byte := 33

  // ----- Commands -----

  type CommandNumber = n: nat | 0 < n < 1000 witness 1

  datatype Command = Name(name: Bytes) | Num(number: CommandNumber)

  predicate Digit(b: Byte) { 48 <= b <= 57 }

  predicate Letter(b: Byte) { 65 <= b <= 90 || 97 <= b <= 122 }

  predicate AllDigits(s: Bytes) { forall i | 0 <= i < |s| :: Digit(s[i]) }

  predicate AllLetters(s: Bytes) { forall i | 0 <= i < |s| :: Letter(s[i]) }

  function DigitValue(b: Byte): nat
    requires Digit(b)
  {
    (b as int) - 48
  }

  function Decimal(s: Bytes): nat
    requires AllDigits(s)
  {
    if s == [] then 0 else Decimal(s[..|s| - 1]) * 10 + DigitValue(s[|s| - 1])
  }

  lemma DecimalOfThree(s: Bytes)
    requires AllDigits(s) && |s| == 3
    ensures Decimal(s) == DigitValue(s[0]) * 100 + DigitValue(s[1]) * 10 + DigitValue(s[2]) < 1000
  {
    assert s[..2][..1] == s[..1] && s[..1][..0] == [];
    assert Decimal(s[..1]) == DigitValue(s[0]);
    assert Decimal(s[..2]) == DigitValue(s[0]) * 10 + DigitValue(s[1]);
  }

  /** The number 000 passes the checks of the parser and then fails the assertion of `CommandNumber::new`. */
  function CommandOf(word: Bytes): Parse<Command> {
    if word == [] then Err(EmptyCommand)
    else if Digit(word[0]) then
      if |word| != 3 then Err(CommandNotThreeLong)
      else if !AllDigits(word) then Err(CommandNotDigits)
      else
        DecimalOfThree(word);
        if Decimal(word) == 0 then Panic else Ok(Num(Decimal(word)))
    else if AllLetters(word) then Ok(Name(word))
    else Err(CommandNotLetters)
  }

  function CommandText(c: Command): Bytes {
    match c
    case Name(name) => name
    case Num(n) => [48 + n / 100, 48 + n / 10 % 10, 48 + n % 10]
  }

  predicate WellFormedCommand(c: Command) {
    c.Name? ==> c.name != [] && AllLetters(c.name)
  }

  lemma NumberRoundTrip(n: CommandNumber)
    ensures var t := [48 + n / 100, 48 + n / 10 % 10, 48 + n % 10];
      AllDigits(t) && Decimal(t) == n
  {
    var t: Bytes := [48 + n / 100, 48 + n / 10 % 10, 48 + n % 10];
    assert Digit(t[0]) && Digit(t[1]) && Digit(t[2]);
    DecimalOfThree(t);
  }

  lemma CommandRoundTrip(c: Command)
    requires WellFormedCommand(c)
    ensures CommandOf(CommandText(c)) == Ok(c)
    ensures CommandText(c) != [] && Without(CommandText(c), SPACE)
    ensures CommandText(c)[0] != COLON && CommandText(c)[0] != AT
  {
    if c.Num? {
      NumberRoundTrip(c.number);
    } else {
      assert Letter(c.name[0]);
    }
  }

  /** The words accepted are the texts of commands. */
  lemma CommandAcceptedExactlyWhen(word: Bytes, c: Command)
    ensures CommandOf(word) == Ok(c) <==> WellFormedCommand(c) && word == CommandText(c)
  {
    if WellFormedCommand(c) {
      CommandRoundTrip(c);
    }
    if |word| == 3 && AllDigits(word) {
      DecimalOfThree(word);
      ThreeDigits(DigitValue(word[0]), DigitValue(word[1]), DigitValue(word[2]), Decimal(word));
    }
  }

  lemma ThreeDigits(a: nat, b: nat, c: nat, n: nat)
    requires a < 10 && b < 10 && c < 10 && n == a * 100 + b * 10 + c
    ensures n / 100 == a && n / 10 % 10 == b && n % 10 == c
  {
    assert n / 10 == a * 10 + b;
  }

  /** Of the others, one that starts with a digit must be three bytes long, then be digits; any other must be
      letters. */
  lemma CommandErrors(word: Bytes)
    ensures CommandOf(word) == Err(EmptyCommand) <==> word == []
    ensures CommandOf(word) == Err(CommandNotLetters) <==> word != [] && !Digit(word[0]) && !AllLetters(word)
    ensures CommandOf(word) == Err(CommandNotThreeLong) <==> word != [] && Digit(word[0]) && |word| != 3
    ensures CommandOf(word) == Err(CommandNotDigits) <==> |word| == 3 && Digit(word[0]) && !AllDigits(word)
  {
  }

  // ----- Sources -----

  datatype Source = Source(nick: Option<Bytes>, user: Option<Bytes>, host: Option<Bytes>)

  function NoneIfEmpty(s: Bytes): Option<Bytes> {
    if s == [] then None else Some(s)
  }

  function OrEmpty(s: Option<Bytes>): Bytes {
    if s.None? then [] else s.value
  }

  /** `nick!user@host` with `!user` or `@host` left out, or a bare host. */
  function SourceOf(word: Bytes): Parse<Source> {
    var bang, at := IndexOf(word, BANG), IndexOf(word, AT);
    if bang == |word| && at == |word| then SourceFrom([], [], word)
    else if at == |word| then SourceFrom(word[..bang], word[bang + 1..], [])
    else if bang == |word| then SourceFrom(word[..at], [], word[at + 1..])
    else if at < bang then Err(BangAfterAt)
    else SourceFrom(word[..bang], word[bang + 1..at], word[at + 1..])
  }

  function SourceFrom(nick: Bytes, user: Bytes, host: Bytes): Parse<Source> {
    if ValidUtf8(nick) && ValidUtf8(user) then
      Ok(Source(NoneIfEmpty(nick), NoneIfEmpty(user), NoneIfEmpty(host)))
    else Err(NotUtf8)
  }

  /** Printing a source without any field is the `unreachable!` of the writer. */
  function SourceText(s: Source): Option<Bytes> {
    if s.nick.None? && s.user.None? then s.host
    else if s.host.None? then Some(OrEmpty(s.nick) + [BANG] + OrEmpty(s.user))
    else Some(OrEmpty(s.nick) + [BANG] + OrEmpty(s.user) + [AT] + s.host.value)
  }

  predicate Bare(s: Source) { s.nick.None? && s.user.None? }

  /** What the parser produces from a word. */
  predicate ReadableSource(s: Source) {
    && (s.nick.Some? ==>
          s.nick.value != [] && ValidUtf8(s.nick.value) && Without(s.nick.value, BANG) && Without(s.nick.value, AT))
    && (s.user.Some? ==> s.user.value != [] && ValidUtf8(s.user.value) && Without(s.user.value, AT))
    && (s.host.Some? ==> s.host.value != [])
  }

  predicate SourceWithoutSpace(s: Source) {
    Without(OrEmpty(s.nick), SPACE) && Without(OrEmpty(s.user), SPACE) && Without(OrEmpty(s.host), SPACE)
  }

  /** Some field is present, and a host standing alone cannot be taken for a nick or a user. */
  predicate UnambiguousSource(s: Source) {
    && (Bare(s) ==> s.host.Some? && Without(s.host.value, BANG) && Without(s.host.value, AT))
  }

  lemma ParsedSourceIsReadable(word: Bytes)
    requires SourceOf(word).Ok?
    ensures ReadableSource(SourceOf(word).value)
    ensures Without(word, SPACE) ==> SourceWithoutSpace(SourceOf(word).value)
  {
  }

  /** An `@` does not come before a `!`, and nick and user are UTF-8. */
  predicate SourceAccepted(word: Bytes) {
    var bang, at := IndexOf(word, BANG), IndexOf(word, AT);
    && (bang < |word| && at < |word| ==> bang < at)
    && (bang < |word| ==> ValidUtf8(word[..bang]) && ValidUtf8(word[bang + 1..at]))
    && (bang == |word| && at < |word| ==> ValidUtf8(word[..at]))
  }

  lemma SourceAcceptedExactlyWhen(word: Bytes)
    ensures SourceOf(word).Ok? <==> SourceAccepted(word)
    ensures !SourceOf(word).Panic?
  {
    assert ValidUtf8([]);
    if IndexOf(word, AT) == |word| && IndexOf(word, BANG) < |word| {
      assert word[IndexOf(word, BANG) + 1..] == word[IndexOf(word, BANG) + 1..|word|];
    }
  }

  /** A printed source reads back as itself exactly when it is unambiguous. */
  lemma SourceRoundTrip(s: Source)
    requires ReadableSource(s) && SourceText(s).Some?
    ensures SourceOf(SourceText(s).value) == Ok(s) <==> UnambiguousSource(s)
  {
    var nick, user, host := OrEmpty(s.nick), OrEmpty(s.user), OrEmpty(s.host);
    if Bare(s) {
      BareSourceRoundTrip(host);
    } else {
      assert SourceFrom(nick, user, host) == Ok(s);
      if s.host.Some? {
        FullSourceRoundTrip(nick, user, host);
      } else {
        HostlessSourceRoundTrip(nick, user);
      }
    }
  }

  lemma BareSourceRoundTrip(host: Bytes)
    requires host != []
    ensures SourceOf(host) == Ok(Source(None, None, Some(host))) <==> Without(host, BANG) && Without(host, AT)
  {
    if Without(host, BANG) && Without(host, AT) {
      IndexOfIs(host, BANG, |host|);
      IndexOfIs(host, AT, |host|);
    } else {
      assert IndexOf(host, BANG) < |host| || IndexOf(host, AT) < |host|;
    }
  }

  lemma FullSourceRoundTrip(nick: Bytes, user: Bytes, host: Bytes)
    requires Without(nick, BANG) && Without(nick, AT) && Without(user, AT)
    ensures SourceOf(nick + [BANG] + user + [AT] + host) == SourceFrom(nick, user, host)
  {
    var t := nick + [BANG] + user + [AT] + host;
    assert t[..|nick|] == nick;
    IndexOfIs(t, BANG, |nick|);
    var at := |nick| + 1 + |user|;
    assert t[..at] == nick + [BANG] + user;
    IndexOfIs(t, AT, at);
    assert t[|nick| + 1..at] == user && t[at + 1..] == host;
  }

  lemma HostlessSourceRoundTrip(nick: Bytes, user: Bytes)
    requires Without(nick, BANG) && Without(nick, AT) && Without(user, AT)
    ensures SourceOf(nick + [BANG] + user) == SourceFrom(nick, user, [])
  {
    var t := nick + [BANG] + user;
    assert t[..|nick|] == nick && t[..|t|] == t;
    IndexOfIs(t, BANG, |nick|);
    IndexOfIs(t, AT, |t|);
    assert t[|nick| + 1..] == user;
  }

  /** A nick and a host without a user; a `!` behind the `@` is an error. */
  lemma NickAtHost(nick: Bytes, rest: Bytes)
    requires Without(nick, BANG) && Without(nick, AT)
    ensures SourceOf(nick + [AT] + rest) ==
            if Without(rest, BANG) then SourceFrom(nick, [], rest) else Err(BangAfterAt)
  {
    var t := nick + [AT] + rest;
    assert t[..|nick|] == nick && t[|nick| + 1..] == rest;
    IndexOfIs(t, AT, |nick|);
    if Without(rest, BANG) {
      assert t[..|t|] == t;
      IndexOfIs(t, BANG, |t|);
    } else {
      var i :| 0 <= i < |rest| && rest[i] == BANG;
      assert t[|nick| + 1 + i] == BANG;
    }
  }

  /** The words that read as a source with no field at all. */
  lemma EmptySourceWords(word: Bytes)
    ensures SourceOf(word) == Ok(Source(None, None, None)) <==>
            word == [] || word == [BANG] || word == [AT] || word == [BANG, AT]
  {
    var bang, at := IndexOf(word, BANG), IndexOf(word, AT);
    if word == [BANG, AT] {
      IndexOfIs(word, AT, 1);
      assert word[..0] == [] && word[1..1] == [] && word[2..] == [];
    } else if word == [BANG] || word == [AT] {
      IndexOfIs([BANG], AT, 1);
      IndexOfIs([AT], BANG, 1);
      assert word[..0] == [] && word[1..] == [];
    } else if bang < at < |word| {
      assert word == word[..bang] + [BANG] + word[bang + 1..at] + [AT] + word[at + 1..];
    } else if bang < |word| && at == |word| {
      assert word == word[..bang] + [BANG] + word[bang + 1..];
    } else if at < |word| && bang == |word| {
      assert word == word[..at] + [AT] + word[at + 1..];
    }
  }

  // ----- Words and parameters -----

  function SkipSpaces(text: Bytes): (rest: Bytes)
    ensures |rest| <= |text|
    ensures rest != [] ==> rest[0] != SPACE
  {
    if text != [] && text[0] == SPACE then SkipSpaces(text[1..]) else text
  }

  function Word(text: Bytes): (w: Bytes)
    ensures Without(w, SPACE)
  {
    text[..IndexOf(text, SPACE)]
  }

  function AfterWord(text: Bytes): (rest: Bytes)
    ensures |rest| <= |text| && (rest != [] ==> rest[0] != SPACE)
    ensures text != [] ==> |rest| < |text|
  {
    SkipSpaces(text[IndexOf(text, SPACE)..])
  }

  function ParamsOf(text: Bytes): seq<Bytes>
    decreases |text|
  {
    if text == [] then []
    else if text[0] == COLON then [text[1..]]
    else [Word(text)] + ParamsOf(AfterWord(text))
  }

  function ParamsText(params: seq<Bytes>): Bytes {
    if params == [] then []
    else if |params| == 1 then [COLON] + params[0]
    else params[0] + [SPACE] + ParamsText(params[1..])
  }

  predicate MiddleParam(p: Bytes) {
    p != [] && Without(p, SPACE) && p[0] != COLON
  }

  /** Every parameter but the last is a word that cannot be taken for a trailing one. */
  predicate WellFormedParams(params: seq<Bytes>) {
    forall i | 0 <= i < |params| - 1 :: MiddleParam(params[i])
  }

  lemma WordThenRest(word: Bytes, rest: Bytes)
    requires Without(word, SPACE) && (rest != [] ==> rest[0] != SPACE)
    ensures Word(word + [SPACE] + rest) == word && AfterWord(word + [SPACE] + rest) == rest
  {
    var text := word + [SPACE] + rest;
    assert text[..|word|] == word;
    IndexOfIs(text, SPACE, |word|);
    assert text[|word|..][0] == SPACE && text[|word|..][1..] == rest;
    assert SkipSpaces(text[|word|..]) == SkipSpaces(rest);
  }

  lemma {:induction false} ParamsRoundTrip(params: seq<Bytes>)
    requires WellFormedParams(params)
    ensures ParamsOf(ParamsText(params)) == params
    ensures ParamsText(params) != [] ==> ParamsText(params)[0] != SPACE
  {
    if |params| == 1 {
      assert ParamsText(params)[1..] == params[0];
    } else if |params| > 1 {
      assert MiddleParam(params[0]);
      var rest := ParamsText(params[1..]);
      assert forall i | 0 <= i < |params[1..]| - 1 :: params[1..][i] == params[i + 1];
      ParamsRoundTrip(params[1..]);
      WordThenRest(params[0], rest);
      assert ParamsText(params)[0] == params[0][0];
      assert params == [params[0]] + params[1..];
    }
  }

  lemma {:induction false} ParsedParamsAreWellFormed(text: Bytes)
    requires text != [] ==> text[0] != SPACE
    ensures WellFormedParams(ParamsOf(text))
    decreases |text|
  {
    if text != [] && text[0] != COLON {
      var rest := AfterWord(text);
      ParsedParamsAreWellFormed(rest);
      assert MiddleParam(Word(text));
      var ps := ParamsOf(text);
      forall i | 0 <= i < |ps| - 1 ensures MiddleParam(ps[i]) {
        assert i > 0 ==> ps[i] == ParamsOf(rest)[i - 1];
      }
    }
  }

  // ----- Messages -----

  datatype Message = Message(tags: Tags, source: Option<Source>, command: Command, params: seq<Bytes>)

  function MessageOf(buf: Bytes): Parse<Message> {
    if buf == [] then Err(EmptyMessage)
    else if buf[0] == AT then
      if AfterWord(buf[1..]) == [] then Err(NoCommand)
      else
        var tags :- TagsOf(Word(buf[1..]));
        AfterTags(tags, AfterWord(buf[1..]))
    else AfterTags(map[], buf)
  }

  function AfterTags(tags: Tags, text: Bytes): Parse<Message>
    requires text != []
  {
    if text[0] == COLON then
      if AfterWord(text[1..]) == [] then Err(NoCommand)
      else
        var source :- SourceOf(Word(text[1..]));
        AfterSource(tags, Some(source), AfterWord(text[1..]))
    else AfterSource(tags, None, text)
  }

  function AfterSource(tags: Tags, source: Option<Source>, text: Bytes): Parse<Message> {
    var command :- CommandOf(Word(text));
    Ok(Message(tags, source, command, ParamsOf(AfterWord(text))))
  }

  function TagsText(items: Items): Bytes {
    if items == [] then [] else [AT] + (BlockText(items) + [SPACE])
  }

  function SourcePrefix(source: Option<Source>): Bytes
    requires source.Some? ==> SourceText(source.value).Some?
  {
    if source.None? then [] else [COLON] + (SourceText(source.value).value + [SPACE])
  }

  predicate NoEmptyKey(tags: Tags) {
    forall k | k in tags :: |k| > 0
  }

  /** Printing panics on an empty tag key and on a source without any field. */
  predicate Printable(m: Message) {
    NoEmptyKey(m.tags) && (m.source.Some? ==> SourceText(m.source.value).Some?)
  }

  /** The printed message, its tags in the order `items`. */
  function MessageText(m: Message, items: Items): Bytes
    requires Enumerates(items, m.tags) && Printable(m)
  {
    TagsText(items) + (SourcePrefix(m.source) + CommandAndTail(m, ParamsText(m.params)))
  }

  function CommandAndTail(m: Message, tail: Bytes): Bytes {
    CommandText(m.command) + [SPACE] + tail
  }

  /** What the parser produces. */
  predicate Readable(m: Message) {
    && (forall k | k in m.tags :: ReadableTag(k, m.tags[k]))
    && (m.source.Some? ==> ReadableSource(m.source.value) && SourceWithoutSpace(m.source.value))
    && WellFormedCommand(m.command)
    && WellFormedParams(m.params)
  }

  predicate WellFormed(m: Message) {
    Readable(m) && NoEmptyKey(m.tags) && (m.source.Some? ==> UnambiguousSource(m.source.value))
  }

  lemma WellFormedIsPrintable(m: Message)
    requires WellFormed(m)
    ensures Printable(m)
  {
  }

  lemma ParsedMessageIsReadable(buf: Bytes)
    requires MessageOf(buf).Ok?
    ensures Readable(MessageOf(buf).value)
  {
    if buf[0] == AT {
      ParsedBlockIsReadable(Word(buf[1..]));
      ReadableAfterTags(TagsOf(Word(buf[1..])).value, AfterWord(buf[1..]));
    } else {
      ReadableAfterTags(map[], buf);
    }
  }

  lemma ParsedBlockIsReadable(word: Bytes)
    requires Without(word, SPACE) && TagsOf(word).Ok?
    ensures var tags := TagsOf(word).value; forall k | k in tags :: ReadableTag(k, tags[k])
  {
    forall t | t in Split(word) ensures Without(t, SPACE) {
      forall i | 0 <= i < |t| ensures t[i] != SPACE {
        assert t[i] in t;
      }
    }
    ParsedTagsAreReadable(Split(word), map[]);
  }

  lemma ReadableAfterTags(tags: Tags, text: Bytes)
    requires forall k | k in tags :: ReadableTag(k, tags[k])
    requires text != [] && AfterTags(tags, text).Ok?
    ensures Readable(AfterTags(tags, text).value)
  {
    if text[0] == COLON {
      ParsedSourceIsReadable(Word(text[1..]));
      ParsedParamsAreWellFormed(AfterWord(AfterWord(text[1..])));
    } else {
      ParsedParamsAreWellFormed(AfterWord(text));
    }
  }

  function WithSourceReread(m: Message): Parse<Message>
    requires Printable(m)
  {
    if m.source.None? then Ok(m)
    else
      var s :- SourceOf(SourceText(m.source.value).value);
      Ok(m.(source := Some(s)))
  }

  /** Reading a printed message gives it back, up to how its source word is read. */
  lemma ReadOfText(m: Message, items: Items)
    requires Enumerates(items, m.tags) && Printable(m) && Readable(m)
    ensures MessageOf(MessageText(m, items)) == WithSourceReread(m)
  {
    ParamsRoundTrip(m.params);
    ReadWithTail(m, items, ParamsText(m.params));
  }

  /** The same for any text in place of the printed parameters. */
  lemma ReadWithTail(m: Message, items: Items, tail: Bytes)
    requires Enumerates(items, m.tags) && Printable(m) && Readable(m) && (tail != [] ==> tail[0] != SPACE)
    ensures MessageOf(TagsText(items) + (SourcePrefix(m.source) + CommandAndTail(m, tail))) ==
            WithSourceReread(m.(params := ParamsOf(tail)))
  {
    var text := SourcePrefix(m.source) + CommandAndTail(m, tail);
    ReadAfterTags(m, tail);
    EnumerationInserts(items, m.tags);
    if items == [] {
      assert TagsText(items) + text == text;
    } else {
      assert ReadableItems(items);
      ReadBlockText(items);
      ReadBlock(BlockText(items), text);
      Assoc([AT], BlockText(items) + [SPACE], text);
    }
  }

  lemma ReadBlock(block: Bytes, text: Bytes)
    requires Without(block, SPACE) && TagsOf(block).Ok? && text != [] && text[0] != SPACE
    ensures MessageOf([AT] + (block + [SPACE] + text)) == AfterTags(TagsOf(block).value, text)
  {
    WordThenRest(block, text);
    assert ([AT] + (block + [SPACE] + text))[1..] == block + [SPACE] + text;
  }

  lemma ReadAfterTags(m: Message, tail: Bytes)
    requires Printable(m) && Readable(m) && (tail != [] ==> tail[0] != SPACE)
    ensures var text := SourcePrefix(m.source) + CommandAndTail(m, tail);
      text != [] && text[0] != AT && text[0] != SPACE &&
      AfterTags(m.tags, text) == WithSourceReread(m.(params := ParamsOf(tail)))
  {
    var command := CommandAndTail(m, tail);
    ReadAfterSource(m, m.source, tail);
    if m.source.Some? {
      var word := SourceText(m.source.value).value;
      SourceTextHasNoSpace(m.source.value);
      WordThenRest(word, command);
      var text := word + [SPACE] + command;
      Assoc([COLON], word + [SPACE], command);
      assert ([COLON] + text)[1..] == text;
      if SourceOf(word).Ok? {
        ReadAfterSource(m, Some(SourceOf(word).value), tail);
      }
    } else {
      assert SourcePrefix(m.source) + command == command;
    }
  }

  lemma SourceTextHasNoSpace(s: Source)
    requires SourceWithoutSpace(s) && SourceText(s).Some?
    ensures Without(SourceText(s).value, SPACE)
  {
  }

  lemma ReadAfterSource(m: Message, source: Option<Source>, tail: Bytes)
    requires Readable(m) && (tail != [] ==> tail[0] != SPACE)
    ensures var text := CommandAndTail(m, tail);
      text != [] && text[0] != AT && text[0] != SPACE && text[0] != COLON &&
      AfterSource(m.tags, source, text) == Ok(Message(m.tags, source, m.command, ParamsOf(tail)))
  {
    CommandRoundTrip(m.command);
    WordThenRest(CommandText(m.command), tail);
    assert CommandAndTail(m, tail)[0] == CommandText(m.command)[0];
  }

  /** Printing a message and reading the text gives the message back, whatever the order of its tags,
      exactly when the message is well formed. */
  lemma RoundTrip(m: Message, items: Items)
    requires Enumerates(items, m.tags)
    ensures Printable(m) && MessageOf(MessageText(m, items)) == Ok(m) <==> WellFormed(m)
  {
    if Printable(m) && MessageOf(MessageText(m, items)) == Ok(m) {
      ParsedMessageIsReadable(MessageText(m, items));
    }
    if Printable(m) && Readable(m) {
      ReadOfText(m, items);
      if m.source.Some? {
        SourceRoundTrip(m.source.value);
      }
    }
  }

  // ----- When reading panics -----

  /** The text after the tag block, if there is one. */
  function AfterTagBlock(buf: Bytes): Bytes {
    if buf != [] && buf[0] == AT then AfterWord(buf[1..]) else buf
  }

  /** The text after the source, if there is one. */
  function AfterSourceWord(text: Bytes): Bytes {
    if text != [] && text[0] == COLON then AfterWord(text[1..]) else text
  }

  /** The word read as the command. */
  function CommandWord(buf: Bytes): Bytes {
    Word(AfterSourceWord(AfterTagBlock(buf)))
  }

  /** Nothing before the command is rejected. */
  predicate PrefixAccepted(buf: Bytes) {
    var text := AfterTagBlock(buf);
    && (buf != [] && buf[0] == AT ==>
          var terms := Split(Word(buf[1..]));
          forall i | 0 <= i < |terms| :: TermAccepted(terms[i]))
    && (text != [] && text[0] == COLON ==> SourceAccepted(Word(text[1..])))
  }

  const THREE_ZEROS: Bytes := [48, 48, 48]

  /** Reading panics exactly on the command 000 behind tags and a source that are accepted. */
  lemma ReadPanicsExactlyWhen(buf: Bytes)
    ensures MessageOf(buf).Panic? <==> PrefixAccepted(buf) && CommandWord(buf) == THREE_ZEROS
  {
    if buf != [] {
      var text := AfterTagBlock(buf);
      if buf[0] == AT {
        TagsAcceptedExactlyWhen(Split(Word(buf[1..])), map[]);
      }
      if text != [] && text[0] == COLON {
        SourceAcceptedExactlyWhen(Word(text[1..]));
      }
      CommandPanicsExactlyWhen(CommandWord(buf));
    }
  }

  lemma CommandPanicsExactlyWhen(word: Bytes)
    ensures CommandOf(word).Panic? <==> word == THREE_ZEROS
  {
    if |word| == 3 && AllDigits(word) {
      DecimalOfThree(word);
    }
  }

  lemma ThreeZerosPanic()
    ensures MessageOf(THREE_ZEROS) == Panic
  {
    CommandPanicsExactlyWhen(THREE_ZEROS);
    IndexOfIs(THREE_ZEROS, SPACE, 3);
    assert THREE_ZEROS[..3] == THREE_ZEROS;
  }

  // ----- Reading what was read -----

  /** `@ X` and `:! X`: texts of a peer that read to messages which cannot be printed. */
  lemma UnprintableTexts()
    ensures var m := MessageOf([AT, SPACE, 88]); m.Ok? && !NoEmptyKey(m.value.tags) && !Printable(m.value)
    ensures var m := MessageOf([COLON, BANG, SPACE, 88]);
      m.Ok? && m.value.source == Some(Source(None, None, None)) && !Printable(m.value)
  {
    var x: Bytes := [88];
    WordThenRest([], x);
    assert [] + [SPACE] + x == [SPACE, 88] == [AT, SPACE, 88][1..];
    assert x[..1] == x && x[1..] == [];
    IndexOfIs(x, SPACE, 1);
    EmptyBlock();
    WordThenRest([BANG], x);
    assert [BANG] + [SPACE] + x == [BANG, SPACE, 88] == [COLON, BANG, SPACE, 88][1..];
    EmptySourceWords([BANG]);
  }

  /** The empty block is one term with an empty key. */
  lemma EmptyBlock()
    ensures TagsOf([]) == Ok(map[[] := []])
  {
    assert Split([]) == [[]];
    assert TermKey([]) == [] && TermValue([]) == [];
    assert Term([]) == Ok(([], []));
    TagsOfOne([]);
  }

  lemma TagsOfOne(term: Bytes)
    requires Term(term).Ok?
    ensures TagsOfTerms([term], map[]) == Ok(map[Term(term).value.0 := Term(term).value.1])
  {
    assert [term][1..] == [];
  }

  /** A message that was read prints to a text that reads the same exactly when it has no empty tag key,
      its source has a field, and its host, if it stands alone, has no `!` or `@`. */
  lemma ParsePrintParse(buf: Bytes, items: Items)
    requires MessageOf(buf).Ok? && Enumerates(items, MessageOf(buf).value.tags)
    ensures var m := MessageOf(buf).value;
      Printable(m) && MessageOf(MessageText(m, items)) == Ok(m) <==>
      NoEmptyKey(m.tags) && (m.source.Some? ==> UnambiguousSource(m.source.value))
  {
    ParsedMessageIsReadable(buf);
    RoundTrip(MessageOf(buf).value, items);
  }

  // ----- The loops of the source -----

  /** `until_space`, with the inlined `eat_space`. */
  method UntilSpace(text: Bytes) returns (word: Bytes, rest: Bytes)
    ensures word == Word(text) && rest == AfterWord(text)
  {
    for i := 0 to |text|
      invariant Without(text[..i], SPACE)
    {
      if text[i] == SPACE {
        IndexOfIs(text, SPACE, i);
        rest := EatSpace(text[i..]);
        return text[..i], rest;
      }
    }
    assert text[..|text|] == text;
    IndexOfIs(text, SPACE, |text|);
    return text, [];
  }

  method EatSpace(text: Bytes) returns (rest: Bytes)
    ensures rest == SkipSpaces(text)
  {
    assert text[0..] == text;
    for i := 0 to |text|
      invariant SkipSpaces(text) == SkipSpaces(text[i..])
    {
      if text[i] != SPACE {
        return text[i..];
      }
      assert text[i..][1..] == text[i + 1..];
    }
    return [];
  }

  /** `Command::read_bytes`. */
  method ReadCommand(buf: Bytes) returns (r: Parse<Command>)
    ensures r == CommandOf(buf)
  {
    if buf == [] {
      return Err(EmptyCommand);
    }
    if Digit(buf[0]) {
      if |buf| != 3 {
        return Err(CommandNotThreeLong);
      }
      if !AllDigits(buf) {
        return Err(CommandNotDigits);
      }
      var total: nat := 0;
      for i := 0 to |buf|
        invariant AllDigits(buf[..i]) && total == Decimal(buf[..i])
      {
        assert buf[..i + 1][..i] == buf[..i];
        assert Digit(buf[i]);
        total := total * 10 + DigitValue(buf[i]);
      }
      assert buf[..|buf|] == buf;
      DecimalOfThree(buf);
      return if total == 0 then Panic else Ok(Num(total));
    } else if AllLetters(buf) {
      return Ok(Name(buf));
    } else {
      return Err(CommandNotLetters);
    }
  }

  /** `Message::read_bytes`. */
  method ReadMessage(buf: Bytes) returns (r: Parse<Message>)
    ensures r == MessageOf(buf)
  {
    if buf == [] {
      return Err(EmptyMessage);
    }
    var text, word := buf, [];
    var tags: Tags := map[];
    if text[0] == AT {
      word, text := UntilSpace(text[1..]);
      if text == [] {
        return Err(NoCommand);
      }
      tags :- ParseTags(word);
    }
    var source := None;
    if text[0] == COLON {
      word, text := UntilSpace(text[1..]);
      if text == [] {
        return Err(NoCommand);
      }
      var s :- SourceOf(word);
      source := Some(s);
    }
    word, text := UntilSpace(text);
    var command :- ReadCommand(word);
    var params := ReadParams(text);
    return Ok(Message(tags, source, command, params));
  }

  /** The parameter loop of `Message::read_bytes`. */
  method ReadParams(remaining: Bytes) returns (params: seq<Bytes>)
    ensures params == ParamsOf(remaining)
  {
    var text, word := remaining, [];
    params := [];
    ghost var all := ParamsOf(text);
    while text != []
      invariant all == params + ParamsOf(text)
      decreases |text|
    {
      assert params + ([Word(text)] + ParamsOf(AfterWord(text))) == params + [Word(text)] + ParamsOf(AfterWord(text));
      if text[0] == COLON {
        params := params + [text[1..]];
        text := [];
      } else {
        word, text := UntilSpace(text);
        params := params + [word];
      }
    }
    assert params + [] == params;
  }

  /** `Source::write_bytes`: false when it panics. */
  method WriteSource(s: Source, out: Buffer) returns (done: bool)
    modifies out
    ensures done <==> SourceText(s).Some?
    ensures done ==> out.data == old(out.data) + SourceText(s).value
  {
    match (s.nick, s.user, s.host)
    case (None, None, Some(host)) =>
      out.Write(host);
      return true;
    case (Some(nick), None, None) =>
      out.Write(nick);
      out.Write([BANG]);
      return true;
    case (nick, Some(user), None) =>
      out.Write(OrEmpty(nick));
      out.Write([BANG]);
      out.Write(user);
      return true;
    case (nick, user, Some(host)) =>
      out.Write(OrEmpty(nick));
      out.Write([BANG]);
      out.Write(OrEmpty(user));
      out.Write([AT]);
      out.Write(host);
      return true;
    case (None, None, None) =>
      return false;
  }

  /** The tag loop of `Message::write_bytes`: false when it panics. */
  method WriteTags(items: Items, out: Buffer) returns (done: bool)
    modifies out
    ensures done <==> forall i | 0 <= i < |items| :: |items[i].0| > 0
    ensures done ==> out.data == old(out.data) + BlockText(items)
  {
    var firstTag := true;
    ghost var start := out.data;
    NothingWritten(start, items);
    for i := 0 to |items|
      invariant firstTag <==> i == 0
      invariant forall j | 0 <= j < i :: |items[j].0| > 0
      invariant Written(start, items, i, out.data)
    {
      var (k, v) := items[i];
      if |k| == 0 {
        return false;
      }
      ghost var before := out.data;
      WriteTag(firstTag, k, v, out);
      firstTag := false;
      OneMoreWritten(start, items, i, before, out.data);
    }
    AllWritten(start, items, out.data);
    return true;
  }

  /** Part of the way through the block: what is missing are the terms from `i` on. */
  predicate Written(start: Bytes, items: Items, i: nat, now: Bytes)
    requires i <= |items|
  {
    now + BlockAfter(items, i) == start + BlockText(items)
  }

  function BlockAfter(items: Items, i: nat): Bytes
    requires i <= |items|
  {
    (if 0 < i < |items| then [SEMICOLON] else []) + BlockText(items[i..])
  }

  lemma NothingWritten(start: Bytes, items: Items)
    ensures Written(start, items, 0, start)
  {
    assert items[0..] == items;
  }

  lemma AllWritten(start: Bytes, items: Items, now: Bytes)
    requires Written(start, items, |items|, now)
    ensures now == start + BlockText(items)
  {
    assert now + [] == now;
  }

  lemma OneMoreWritten(start: Bytes, items: Items, i: nat, before: Bytes, now: Bytes)
    requires i < |items| && Written(start, items, i, before)
    requires now == before + ((if i == 0 then [] else [SEMICOLON]) + TermText(items[i].0, items[i].1))
    ensures Written(start, items, i + 1, now)
  {
    BlockStep(items, i);
    Assoc(before, (if i == 0 then [] else [SEMICOLON]) + TermText(items[i].0, items[i].1), BlockAfter(items, i + 1));
  }

  lemma BlockStep(items: Items, i: nat)
    requires i < |items|
    ensures BlockAfter(items, i) ==
            (if i == 0 then [] else [SEMICOLON]) + TermText(items[i].0, items[i].1) + BlockAfter(items, i + 1)
  {
    var terms := TermTexts(items[i..]);
    assert terms[1..] == TermTexts(items[i + 1..]);
  }

  /** One turn of the tag loop, past its assertion. */
  method WriteTag(firstTag: bool, key: Bytes, value: Bytes, out: Buffer)
    modifies out
    ensures out.data == old(out.data) + ((if firstTag then [] else [SEMICOLON]) + TermText(key, value))
  {
    ghost var start := out.data;
    if firstTag {
      assert start + [] == start && [] + TermText(key, value) == TermText(key, value);
    } else {
      out.Write([SEMICOLON]);
      Assoc(start, [SEMICOLON], TermText(key, value));
    }
    WriteTerm(key, value, out);
  }

  method WriteTerm(key: Bytes, value: Bytes, out: Buffer)
    modifies out
    ensures out.data == old(out.data) + TermText(key, value)
  {
    ghost var start := out.data;
    out.Write(key);
    if value != [] {
      out.Write([EQUALS]);
      EscapeTagValue(value, out);
      AppendThree(start, key, [EQUALS], Escaped(value));
      Assoc(key, [EQUALS], Escaped(value));
    }
  }

  /** `Message::write_bytes`: false when it panics. */
  method WriteMessage(m: Message, items: Items, out: Buffer) returns (done: bool)
    requires Enumerates(items, m.tags)
    modifies out
    ensures done <==> Printable(m)
    ensures done ==> out.data == old(out.data) + MessageText(m, items)
  {
    ghost var start := out.data;
    EnumerationInserts(items, m.tags);
    if m.tags != map[] {
      out.Write([AT]);
      done := WriteTags(items, out);
      if !done {
        return;
      }
      out.Write([SPACE]);
      AppendThree(start, [AT], BlockText(items), [SPACE]);
    }
    assert out.data == start + TagsText(items);
    ghost var tagged := out.data;
    if m.source.Some? {
      out.Write([COLON]);
      done := WriteSource(m.source.value, out);
      if !done {
        return;
      }
      out.Write([SPACE]);
      AppendThree(tagged, [COLON], SourceText(m.source.value).value, [SPACE]);
    }
    ghost var sourced := out.data;
    assert sourced == tagged + SourcePrefix(m.source);
    out.Write(CommandText(m.command));
    out.Write([SPACE]);
    WriteParams(m.params, out);
    AppendThree(sourced, CommandText(m.command), [SPACE], ParamsText(m.params));
    Assoc(CommandText(m.command), [SPACE], ParamsText(m.params));
    AppendThree(start, TagsText(items), SourcePrefix(m.source), CommandAndTail(m, ParamsText(m.params)));
    return true;
  }

  lemma AppendThree(start: Bytes, a: Bytes, b: Bytes, c: Bytes)
    ensures start + a + b + c == start + (a + (b + c))
  {
    Assoc(start + a, b, c);
    Assoc(start, a, b + c);
  }

  /** The parameter loop of `Message::write_bytes`. */
  method WriteParams(params: seq<Bytes>, out: Buffer)
    modifies out
    ensures out.data == old(out.data) + ParamsText(params)
  {
    if params != [] {
      var n := |params| - 1;
      assert params[0..] == params;
      for i := 0 to n
        invariant out.data + ParamsText(params[i..]) == old(out.data) + ParamsText(params)
      {
        assert params[i..][1..] == params[i + 1..];
        assert ParamsText(params[i..]) == params[i] + [SPACE] + ParamsText(params[i + 1..]);
        out.Write(params[i]);
        out.Write([SPACE]);
      }
      assert params[n..] == [params[n]];
      out.Write([COLON]);
      out.Write(params[n]);
    }
  }
}

# Verified models of the table, the IRC codec, the RPC protocol, the pools and the in-memory broker

Dafny models of six stateful components, with proofs of what each keeps true over every input or every run.
`dafny verify dfyconfig.toml` checks all of it.

| files | component |
|---|---|
| `KeyIndex`, `IndexStore`, `TableSpec`, `TableCore`, `TableLocks` | the in-memory table: rows, sorted secondary indexes behind weak handles, two-phase operations, and the lock order |
| `Utf8`, `IrcTags`, `IrcMessages`, `IrcGrammar`, `IrcCodec` | the IRC message parser and printer, the texts it accepts for one message, and CRLF framing |
| `RpcBroker`, `RpcSystem` | one end of the multiplexed RPC connection, and two ends joined by FIFO wires |
| `ValuePool` | the connection pool |
| `TokenSource` | the token bucket |
| `FanOut` | the in-memory message broker with its forwarding loops and replaceable outlets |
| `Prelude` | result types and byte strings |

Code that updates state in place is modelled by classes and loops, and each method is proved against a function of the
old state. The same functions are the steps of the transition systems whose runs the main lemmas are about. A Rust error
is `Err`; a failed assertion, an `unwrap` of nothing and an arithmetic overflow are `Panic` (or `done == false`).

Strings are byte sequences with UTF-8 defined as in section 4 of RFC 3629. The order in which a hash map is enumerated is
a parameter. `Weak::upgrade` may find an index dropped at any call. Timeouts, cancellations and failed connects are steps
that may happen at any time. What a handler, a receiver or a socket does is a parameter of the step. All indexes of one
table share a key type `K` (a tagged union where their key types differ) and have an order each, of which only totality
and transitivity are assumed: equal keys need not be identical.

Two hypotheses are explicit. In `RpcSystem.Step` a command is started under an id that its side never used on the
connection, or whose last command has ended and was cancelled too, with a channel of its own; the code does not provide
this, see below. In `TableCore.AddEntry` the counter has not reached its maximum.

## Where the code departs from what it promises

- An update of a row that changes its key in any live index passes the checks, overwrites the row and then panics,
  because the index looks the id up under its old key by comparing with the new row. `IndexStore.FindReplaced` says
  exactly when; `IndexStore.KeyChangePanics` is the smallest case.
- Creating a unique index does not look at the existing rows. Over equal keys it leads to a later update check failing
  its assertion; `TableSpec.NextKeepsUnique` gives the exact condition,
  `TableSpec.UncheckedIndexPanics` a run.
- The RPC id allocator never moves on, and an end frees no id for reuse although the protocol statement says it does
  (`crates/common/src/net/rpc/mod.rs:24-28`): the second command of a connection ends it. Conversely a cancel does free
  an id although it must not (`crates/common/src/net/rpc/mod.rs:30-34`), and a command started under it too early is
  handed the answers of the old one (`RpcSystem.EarlyReuseMixes`). See `RpcBroker.ReuseIsRefusedExactlyWhen` and
  `RpcBroker.SecondCommandEndsConnection`.
- A caller that drops the receiving half of a command's channel brings its own event loop down with the next response,
  and that response is lost: it is off the wire and in no sink (`RpcSystem.NoProtocolError`, `PanicLoses`, `LostForGood`).
- When an event loop stops or panics, its sinks go with it, so its callers see their streams end as if they were
  complete. Only while the loop is up does the end of a stream mean that it is whole (`RpcSystem.EndedMeansWhole`).
- The tag reader rejects an unknown escape, where the IRCv3 Message Tags specification drops the backslash. The command
  `000` from a peer panics the reader behind any accepted prefix (`IrcMessages.ReadPanicsExactlyWhen`,
  `IrcCodec.StreamPanicsExactlyWhen`); an empty tag key and a source without fields
  panic the writer, and a peer can send both (`IrcMessages.UnprintableTexts`).
- A failed or abandoned connect never gives its capacity back to the pool: once the lost capacity reaches the limit, the
  pool is dead for ever (`ValuePool.LostNeverShrinks`, `DeadExactlyWhen`, `DeadForEver`, `DyingRun`). With
  `max_pooled_values = 0` waiters starve while capacity is free (`ValuePool.WaitersGetCapacityExactlyWhen`).
- The clamp of a token deposit looks at running slots only, so tokens and running slots are not kept
  within the limit (`TokenSource.RunIsBoundedExactlyWhen` says when they are), and it can leave a deposit of
  nothing for a live waiter, where the count underflows (`TokenSource.DepositPanicsExactlyWhen`).
  With overflow checks the count of tokens itself can overflow (`TokenSource.IdleDepositsOverflow`).
- A publish to a subscriber whose forwarding loop has timed out panics the broker's event loop
  (`FanOut.PublishPanicsExactlyWhen`, `FanOut.GoneSubscriberPanics`).

## Model

| member | source | states |
|---|---|---|
| `IrcTags.UnescapeAfterEscape` | crates/irc-raw/src/messages.rs:34-71 | unescaping an escaped value gives the value back, for every byte string |
| `IrcTags.EscapeAfterUnescape` | crates/irc-raw/src/messages.rs:34-71 | escaping an accepted word's value gives the word back if and only if the word has no `;`, space, CR or LF and does not end in a lone backslash |
| `IrcTags.RejectedExactlyWhen` | crates/irc-raw/src/messages.rs:41-50 | a value is rejected if and only if some backslash that is not itself escaped stands before a byte that is no escape |
| `IrcTags.EscapesAre` | crates/irc-raw/src/messages.rs:42-49 | backslash, `;`, CR, LF and space are written as `\\`, `\:`, `\r`, `\n` and `\s`, and these are read back as them; every other byte is written as it is, and a backslash before any other byte is an error |
| `IrcTags.TagsAcceptedExactlyWhen` | crates/irc-raw/src/messages.rs:73-87 | a tag block is accepted if and only if every term has a UTF-8 key and a UTF-8 value without an unknown escape; reading it never panics |
| `IrcTags.FirstRejectedTerm` | crates/irc-raw/src/messages.rs:73-87 | a rejected block gives the error of its first rejected term: not UTF-8 when its key or value is not, else the unknown escape |
| `IrcTags.LastTermWins` | crates/irc-raw/src/messages.rs:73-87 | an accepted block maps exactly the keys of its terms, each to the unescaped value of the last term with that key |
| `IrcTags.EscapeKeepsUtf8` | crates/irc-raw/src/messages.rs:58-71 | escaping byte by byte keeps valid UTF-8 valid |
| `IrcTags.UnescapeKeepsUtf8` | crates/irc-raw/src/messages.rs:34-56 | unescaping valid UTF-8 gives valid UTF-8, so working on bytes is the same as working on characters |
| `IrcTags.TagBlockRoundTrip` | crates/irc-raw/src/messages.rs:73-87 | the block printed from a tag map, in whatever order the hash map is enumerated, parses to that map when its keys are free of `;`, `=` and space |
| `IrcTags.ParsedTagsAreReadable` | crates/irc-raw/src/messages.rs:73-87 | every map the tag parser returns has such keys and UTF-8 keys and values |
| `IrcTags.UnescapeTagValue` | crates/irc-raw/src/messages.rs:34-56 | the character loop returns the value, the unknown-escape error or the UTF-8 error of the specification |
| `IrcTags.ParseTags` | crates/irc-raw/src/messages.rs:73-87 | the term loop, later terms overwriting earlier ones, returns the specified map or the first error |
| `IrcTags.ReadTerm` | crates/irc-raw/src/messages.rs:76-84 | one turn of the loop splits the term at its first `=` and returns key and unescaped value, or the error |
| `IrcTags.EscapeTagValue` | crates/irc-raw/src/messages.rs:58-71 | the writer loop appends exactly the escaped value |
| `IrcMessages.CommandRoundTrip` | crates/irc-raw/src/messages.rs:148-186 | a letter command or a number 1 to 999 reads back as itself, and its text has no space and cannot be taken for tags or a source |
| `IrcMessages.CommandAcceptedExactlyWhen` | crates/irc-raw/src/messages.rs:148-177 | a command word reads as a command if and only if it is the text of that command |
| `IrcMessages.CommandErrors` | crates/irc-raw/src/messages.rs:148-177 | which error a rejected command word gives: empty, not three bytes long, not digits, not letters |
| `IrcMessages.SourceRoundTrip` | crates/irc-raw/src/messages.rs:213-276 | a printed source reads back as itself if and only if some field is present and a host standing alone has no `!` or `@` |
| `IrcMessages.NickAtHost` | crates/irc-raw/src/messages.rs:230-247 | `nick@host` reads as a nick and a host without a user, and is an error when a `!` stands behind the `@` |
| `IrcMessages.EmptySourceWords` | crates/irc-raw/src/messages.rs:213-250 | the words that read as a source without any field are exactly the empty word, `!`, `@` and `!@` |
| `IrcMessages.ParsedSourceIsReadable` | crates/irc-raw/src/messages.rs:213-250 | what the source parser returns has only non-empty fields, a nick free of `!` and `@`, a user free of `@`, and no space if the word had none |
| `IrcMessages.ParamsRoundTrip` | crates/irc-raw/src/messages.rs:421-431 | printed parameters read back as themselves when all but the last are non-empty, free of spaces and do not start with `:` |
| `IrcMessages.ParsedParamsAreWellFormed` | crates/irc-raw/src/messages.rs:421-431 | the parameters that the parser returns always meet that condition |
| `IrcGrammar.SpreadParams` | crates/irc-raw/src/messages.rs:421-431 | words that do not start with `:`, each followed by one or more spaces, and then perhaps a `:` and any text, read as exactly these words and that text; spaces behind a last word change nothing |
| `IrcGrammar.ParamsAreSpread` | crates/irc-raw/src/messages.rs:421-431 | every text that does not start with a space is of that form |
| `IrcMessages.ReadWithTail` | crates/irc-raw/src/messages.rs:363-485 | whatever text not starting with a space stands in place of the printed parameters, the tags, the command and, up to how its word is read, the source before it are read back |
| `IrcMessages.ReadOfText` | crates/irc-raw/src/messages.rs:363-485 | reading a printed message gives it back up to how its source word is read |
| `IrcMessages.ParsedMessageIsReadable` | crates/irc-raw/src/messages.rs:363-440 | every message the parser returns meets all well-formedness conditions on tags, source, command and parameters but the three of `ParsePrintParse` |
| `IrcMessages.RoundTrip` | crates/irc-raw/src/messages.rs:363-485 | for every order in which the tags are enumerated, a message prints and reads back as itself if and only if it is well formed |
| `IrcGrammar.TextMeans` | crates/irc-raw/src/messages.rs:363-440 | a text made of an optional `@` block, an optional `:` source, a command and parameters, separated by any number of spaces, reads as what these words say each on its own, the first that is rejected giving the error |
| `IrcGrammar.ColonIsOptional` | crates/irc-raw/src/messages.rs:421-431 | a message text reads the same with or without the colon before a last parameter that can stand without one |
| `IrcGrammar.SpellingIsFree` | crates/irc-raw/src/messages.rs:363-485 | a message spelled with any number of spaces, with or without that colon, reads the same as its printed text, and as the message itself where that is well formed |
| `IrcGrammar.EveryTextIsSpelled` | crates/irc-raw/src/messages.rs:363-440 | every buffer that has a command and does not start with a space is such a text |
| `IrcGrammar.TextsWithoutCommand` | crates/irc-raw/src/messages.rs:391-419 | every other buffer is rejected: as empty, for its empty command word, for its tags if they are not accepted, or for having no command |
| `IrcMessages.ParsePrintParse` | crates/irc-raw/src/messages.rs:363-485 | a message read from any buffer prints to a text that reads the same if and only if no tag key is empty, the source has a field, and a host standing alone has no `!` or `@` |
| `IrcMessages.SourceAcceptedExactlyWhen` | crates/irc-raw/src/messages.rs:213-250 | a source word is accepted if and only if no `@` comes before its `!` and nick and user are UTF-8; reading it never panics |
| `IrcMessages.CommandPanicsExactlyWhen` | crates/irc-raw/src/messages.rs:148-177 | reading a command word panics if and only if it is `000` |
| `IrcMessages.ReadPanicsExactlyWhen` | crates/irc-raw/src/messages.rs:363-440 | reading a buffer panics if and only if its command word is `000` and the tag block and the source before it, if any, are accepted |
| `IrcMessages.ThreeZerosPanic` | crates/irc-raw/src/messages.rs:93-100 | the three bytes `000` alone panic |
| `IrcMessages.WriteTerm` | crates/irc-raw/src/messages.rs:454-459 | the key is appended, then `=` and the escaped value when there is one |
| `IrcMessages.UnprintableTexts` | crates/irc-raw/src/messages.rs:363-485 | `@ X` and `:! X` are texts that read to messages the writer panics on |
| `IrcMessages.UntilSpace` | crates/irc-raw/src/messages.rs:376-389 | the scan returns the word up to the first space and the text after the spaces that follow it |
| `IrcMessages.EatSpace` | crates/irc-raw/src/messages.rs:366-374 | the scan drops exactly the leading spaces |
| `IrcMessages.ReadCommand` | crates/irc-raw/src/messages.rs:148-177 | the digit loop and its checks return the specified command or error; `000` panics |
| `IrcMessages.ReadMessage` | crates/irc-raw/src/messages.rs:363-440 | the parser returns the specified message, error or panic for every buffer |
| `IrcMessages.ReadParams` | crates/irc-raw/src/messages.rs:421-431 | the loop collects the words up to the first that starts with `:`, and the rest of the text behind that colon; `IrcGrammar.SpreadParams` says which these are, whether or not the last one has a colon |
| `IrcMessages.WriteSource` | crates/irc-raw/src/messages.rs:252-276 | the writer appends the source's text, and panics exactly when no field is present |
| `IrcMessages.WriteTags` | crates/irc-raw/src/messages.rs:446-460 | the tag loop appends the `;`-joined block in the order of enumeration, and panics exactly when some key is empty |
| `IrcMessages.WriteTag` | crates/irc-raw/src/messages.rs:448-459 | one turn appends the separator when it is not the first, and the term |
| `IrcMessages.WriteParams` | crates/irc-raw/src/messages.rs:474-482 | the loop appends the parameters, the last one after a `:` |
| `IrcMessages.WriteMessage` | crates/irc-raw/src/messages.rs:442-485 | the writer appends the message's text, and panics exactly on an empty tag key or a source without fields |
| `IrcCodec.DecodeOne` | crates/irc-raw/src/codec.rs:30-50 | a call that returns a message or an error strictly shrinks the buffer; one that returns nothing leaves no CR LF in it |
| `IrcCodec.DrainedConcat` | crates/irc-raw/src/codec.rs:30-50 | bytes that arrive later change nothing that was decoded, and decoding goes on from the leftover unless it panicked |
| `IrcCodec.ChunkInvariance` | crates/irc-raw/src/codec.rs:30-50 | however a byte stream is cut into chunks, draining after each gives the same messages, errors, panic and leftover as decoding it whole |
| `IrcCodec.DecodePanicsExactlyWhen` | crates/irc-raw/src/codec.rs:30-50 | a call panics if and only if the first frame has the command word `000` behind an accepted prefix |
| `IrcCodec.DrainedAreFrames` | crates/irc-raw/src/codec.rs:30-50 | draining reads the non-empty texts between terminators one by one, up to the first that panics |
| `IrcCodec.StreamPanicsExactlyWhen` | crates/irc-raw/src/codec.rs:30-50 | a byte stream, however it is cut into chunks, brings the decoder down if and only if one of its frames is such a frame |
| `IrcCodec.DecodeEncoded` | crates/irc-raw/src/codec.rs:30-68 | decoding the concatenation of any encoded well-formed messages whose text has no CR LF returns those messages in order and leaves nothing |
| `IrcCodec.SurvivesExactlyWhen` | crates/irc-raw/src/codec.rs:30-68 | a printable message comes back alone from encoder and decoder if and only if it is well formed and its text has no CR LF |
| `IrcCodec.CutTextIsAnother` | crates/irc-raw/src/codec.rs:36-45 | the text of a message cut at any CR LF inside it never reads as that message |
| `IrcCodec.DrainedAreReadable` | crates/irc-raw/src/codec.rs:30-50 | every message that draining any buffer returns meets the parser's well-formedness conditions |
| `IrcCodec.Decode` | crates/irc-raw/src/codec.rs:30-50 | the framing loop consumes from the buffer in place and returns the specified result |
| `IrcCodec.Encode` | crates/irc-raw/src/codec.rs:57-68 | encoding appends the message's text and CR LF, or nothing when the writer panics |
| `KeyIndex.BoundsSplit` | crates/server/src/util/table/index_store.rs:75-114 | in sorted keys the lower and upper bound of a key cut out exactly the run of equal keys, or its insertion point when there is none |
| `KeyIndex.SplitIsBounds` | crates/server/src/util/table/index_store.rs:75-114 | no other pair of positions splits the keys that way |
| `KeyIndex.MaximalRunSplits` | crates/server/src/util/table/index_store.rs:82-108 | a run of equal keys that widening cannot extend either way is such a split, whichever match it started from |
| `KeyIndex.InsertKeepsSorted` | crates/server/src/util/table/index_store.rs:163-170 | inserting at the end of the range keeps the keys sorted, on a match and on a miss |
| `KeyIndex.Index.FoundIsScan` | crates/server/src/util/table/index_store.rs:116-124 | the entries found for a key are exactly the ids a linear scan of the rows selects, each once |
| `KeyIndex.Index.HoldsIsFound` | crates/server/src/util/table/index_store.rs:126-138 | some row holds the key if and only if the range is not empty |
| `KeyIndex.Index.AtMostOne` | crates/server/src/util/table/index_store.rs:140-157 | with distinct keys the range has at most one entry |
| `KeyIndex.Index.FoundAtItsPlace` | crates/server/src/util/table/index_store.rs:185-196 | a listed id lies in the range of its own key, and its position in the range leads to its position in the entries |
| `KeyIndex.Index.FiledInSync` | crates/server/src/util/table/index_store.rs:163-170 | filing the id of a new row keeps the entries a sorted list of exactly the row ids |
| `KeyIndex.Index.UnfiledInSync` | crates/server/src/util/table/index_store.rs:185-196 | so does removing the id of a row that goes |
| `KeyIndex.Index.SameKeyInSync` | crates/server/src/util/table/index_store.rs:172-183 | overwriting a row by one with an equal key leaves the entries sorted as they stand |
| `KeyIndex.Index.FiledOrdered` | crates/server/src/util/table/index_store.rs:163-170 | filing an id later than all others keeps entries ordered by key, then by the time of filing, then by id |
| `KeyIndex.Index.UnfiledOrdered` | crates/server/src/util/table/index_store.rs:185-196 | so does removing any id |
| `KeyIndex.Index.EarlierIsFirst` | crates/server/src/util/table/index_store.rs:163-170 | of two ids with equal keys the one filed earlier stands first |
| `KeyIndex.Index.SameEntriesExactlyWhen` | crates/server/src/util/table/index_store.rs:60-73 | two indexes over the same rows with the same accessor hold identical entries if and only if they filed equal keys in the same order |
| `KeyIndex.Index.FiledCanonical` | crates/server/src/util/table/index_store.rs:163-170 | filing the highest id keeps entries ordered by key and then by id |
| `KeyIndex.Index.UnfiledCanonical` | crates/server/src/util/table/index_store.rs:185-196 | so does removing any id |
| `KeyIndex.Index.CanonicalIsUnique` | crates/server/src/util/table/index_store.rs:60-73 | two indexes over the same rows with the same accessor, both in that order, hold identical entries |
| `IndexStore.IndexStore.constructor` | crates/server/src/util/table/index_store.rs:60-73 | a new index lists exactly the row ids, ordered by key and then by id |
| `IndexStore.AscendingIds` | crates/server/src/util/table/index_store.rs:64 | the ids of an ordered map come out ascending, each once |
| `IndexStore.SortBy` | crates/server/src/util/table/index_store.rs:64-66 | the stable sort by key of ascending ids is ordered by key and then by id and loses none |
| `IndexStore.IndexStore.BinarySearch` | crates/server/src/util/table/index_store.rs:82 | a match is an equal entry, whichever of several; a miss in sorted entries is an insertion point; unsorted entries promise the match only |
| `IndexStore.IndexStore.FindRange` | crates/server/src/util/table/index_store.rs:75-114 | both widening loops end, and in sorted entries give the lower and upper bound of the key; in any entries the range holds equal keys only |
| `IndexStore.IndexStore.GetEntries` | crates/server/src/util/table/index_store.rs:116-124 | the lookup returns the entries between the bounds |
| `IndexStore.IndexStore.DoCheckAdd` | crates/server/src/util/table/index_store.rs:126-138 | a unique index answers `AlreadyExists` exactly when some row holds an equal key |
| `IndexStore.IndexStore.DoCheckUpdate` | crates/server/src/util/table/index_store.rs:140-157 | a unique index refuses the update if and only if exactly one row holds the new key and that row is another, and panics if and only if several rows hold it |
| `IndexStore.IndexStore.DoFile` | crates/server/src/util/table/index_store.rs:163-170 | the id of the new row is inserted behind every entry with a key at most its own |
| `IndexStore.IndexStore.FindReplaced` | crates/server/src/util/table/index_store.rs:175-180 | after the row was overwritten, the range of the old key contains the id if and only if the key is unchanged, and then its position is the right one |
| `IndexStore.IndexStore.DoRefile` | crates/server/src/util/table/index_store.rs:172-183 | the id moves to the end of its run of equal keys if the key is unchanged; otherwise the call panics and the entries stay as they were |
| `IndexStore.IndexStore.FindListed` | crates/server/src/util/table/index_store.rs:186-194 | the id of a row is found at its position, so the unwrap in a removal cannot fail |
| `IndexStore.IndexStore.DoUnfile` | crates/server/src/util/table/index_store.rs:185-196 | exactly the id of the row goes |
| `IndexStore.IndexStore.Answer` | crates/server/src/util/table/index_store.rs:199-233 | each request gets the specified reply, and an error or a panic leaves the entries as they were |
| `IndexStore.IndexStore.Upgrade` | crates/server/src/util/table/index_set.rs:25-42 | a weak handle may be found dead at any time, and never comes back to life |
| `IndexStore.UnchangedKeyIsFound` | crates/server/src/util/table/index_store.rs:172-183 | looked up under its old key after the row was overwritten, an id whose key is unchanged is found at its place |
| `IndexStore.ChangedKeyIsMissed` | crates/server/src/util/table/index_store.rs:172-183 | an id whose key changed is in no range the lookup can return, even from entries left out of order |
| `IndexStore.KeyChangePanics` | crates/server/src/util/table/table_core.rs:50-64 | one row, one index by value: an update to another value passes its check and then panics |
| `IndexStore.AfterInSync` | crates/server/src/util/table/index_store.rs:163-196 | an index that answers without error lists exactly the new rows in key order |
| `IndexStore.UpdateReplyIs` | crates/server/src/util/table/index_store.rs:140-157 | in terms of rows and keys: the update check says yes exactly when no other row holds the new key or the index is not unique, `AlreadyExists` exactly when another row and no more than one holds it, and panics exactly when several do |
| `IndexStore.UpdateRefusedExactlyWhen` | crates/server/src/util/table/index_store.rs:140-157 | over distinct keys a unique index answers `AlreadyExists` if and only if some row other than the one updated holds an equal key, and else says yes; a row may keep its own key |
| `TableSpec.NextKeepsConsistent` | crates/server/src/util/table/table_core.rs:33-97 | add, remove, accepted update, late index creation and index drop keep every live index in agreement with the rows, and all ids below the counter |
| `TableSpec.RunIsConsistent` | crates/server/src/util/table/table_core.rs:33-97 | so it is in every state of every run from the empty table |
| `TableSpec.LookupIsScan` | crates/server/src/util/table/table.rs:93-105 | in every state of every run, `get_ids(k)` on any live index holds exactly the ids of the rows whose key equals `k`, each once |
| `TableSpec.RunIsCanonical` | crates/server/src/util/table/table_core.rs:33-97 | in runs without updates every live index is ordered by key and then by id |
| `TableSpec.LateIndexIsTheSame` | crates/server/src/util/table/index_store.rs:60-73 | in such runs an index created late holds the same entries as one with the same accessor created at any earlier time |
| `TableSpec.NextKeepsInTime` | crates/server/src/util/table/table_core.rs:33-97 | every event, updates included, keeps each live index ordered by key, then by the time each id was filed last, then by id |
| `TableSpec.RunIsInTime` | crates/server/src/util/table/table_core.rs:33-97 | so it is in every state of every run |
| `TableSpec.SameEntriesExactlyWhen` | crates/server/src/util/table/index_store.rs:163-183 | in every state of every run, two live indexes with the same accessor hold the same entries if and only if they filed equal keys in the same order |
| `TableSpec.NewIndexIsTheSameExactlyWhen` | crates/server/src/util/table/index_store.rs:60-73 | an index just created is the same as an older one with the same accessor if and only if the older one filed equal keys in the order of their ids |
| `TableSpec.UpdateReorders` | crates/server/src/util/table/index_store.rs:172-183 | two rows with equal keys: an update that keeps the key moves the first behind the second |
| `TableSpec.NextKeepsUnique` | crates/server/src/util/table/index_store.rs:126-157 | a step keeps the keys in every live unique index pairwise distinct if and only if it does not create a unique index over equal keys |
| `TableSpec.RunKeepsUnique` | crates/server/src/util/table/index_store.rs:126-157 | over runs that create no unique index over equal keys, the keys stay distinct |
| `TableSpec.UpdateCheckNeverPanics` | crates/server/src/util/table/index_store.rs:146-147 | in such runs the length assertion of the update check never fails |
| `TableSpec.UpdateIs` | crates/server/src/util/table/table_core.rs:50-64 | while unique indexes list distinct keys, an update is accepted if and only if the row keeps its key in every live index, refused if and only if another row holds its new key in a live unique index, and panics in any other case |
| `TableSpec.RunUpdates` | crates/server/src/util/table/table_core.rs:50-64 | in every state of such runs an update that keeps the key in every live index takes effect and nothing else can happen, one that takes the key of another row in a unique index is refused with nothing changed, and any other does not come back |
| `TableSpec.UncheckedIndexPanics` | crates/server/src/util/table/index_store.rs:60-73 | a run that adds two equal rows and then creates a unique index over them, after which updating a row to the value it has fails the length assertion |
| `TableSpec.CallExtendsRun` | crates/server/src/util/table/table_core.rs:33-97 | a call of a table method made after a run extends that run by drops of indexes and the one operation, so what holds in every state of every run holds between calls |
| `TableSpec.SameKeyDistinct` | crates/server/src/util/table/index_store.rs:140-157 | an update that keeps the key keeps distinct keys distinct |
| `TableCore.TableCore.Apply` | crates/server/src/util/table/index_set.rs:25-42 | the request reaches every live index; success means every index still live said yes and changed as specified; a failed check leaves all entries as they were; dropped handles are pruned and no live one is lost |
| `TableCore.TableCore.AskAll` | crates/server/src/util/table/index_set.rs:33-37 | after the loop every index still live said yes and changed as specified, or some index gave the failure |
| `TableCore.TableCore.AskInTurn` | crates/server/src/util/table/index_set.rs:33-37 | the loop stops at the first failure, and skips handles found dead |
| `TableCore.TableCore.RetainValidIndexes` | crates/server/src/util/table/index_set.rs:25-27 | pruning keeps every live handle and adds none |
| `TableCore.TableCore.CheckAll` | crates/server/src/util/table/table_core.rs:37-38 | the first phase changes nothing but the set of live indexes, and returns an error only if some live index gave it |
| `TableCore.TableCore.FileAll` | crates/server/src/util/table/table_core.rs:39-42 | the second phase of an add cannot fail, with indexes dropped meanwhile or not |
| `TableCore.TableCore.AddEntry` | crates/server/src/util/table/table_core.rs:33-44 | an accepted row gets the next id and is filed in every live index; `AlreadyExists` comes exactly when a live unique index holds the key, and then rows, counter and entries are unchanged; it never panics; the call is the event of the transition system |
| `TableCore.TableCore.RefileAll` | crates/server/src/util/table/table_core.rs:58-61 | the second phase of an update succeeds only if every index still live sees its key unchanged, and otherwise panics |
| `TableCore.TableCore.UpdateEntry` | crates/server/src/util/table/table_core.rs:50-64 | success replaces the row and refiles it everywhere; an error changes nothing; unless it is refused it panics when an index that stays live sees its key changed or finds several rows under it, and it panics for no other reason; over distinct keys it succeeds whenever the row keeps its key in every live index, and answers `AlreadyExists` when another row holds the new key in a unique index that is still there, and only when another row does; the call is the event of the transition system |
| `TableCore.TableCore.CheckUpdateAll` | crates/server/src/util/table/table_core.rs:55-57 | the first phase says yes only if no unique index left lists another row with the new key, refuses only if some index lists exactly one such row, and panics only if one lists several rows with it |
| `TableCore.TableCore.UnfileAll` | crates/server/src/util/table/table_core.rs:73-74 | the second phase of a removal cannot fail |
| `TableCore.TableCore.RemoveEntry` | crates/server/src/util/table/table_core.rs:66-75 | the row goes from the map and every live index, or the id was missing and nothing changed; it never panics; the call is the event of the transition system |
| `TableCore.TableCore.AddIndex` | crates/server/src/util/table/table_core.rs:81-97 | the new index agrees with the rows and is registered; nothing else changes |
| `TableCore.TableCore.GetIds` | crates/server/src/util/table/table.rs:93-105 | the lookup agrees with a scan of the rows |
| `TableCore.TableCore.GetRows` | crates/server/src/util/table/table.rs:107-141 | the unwrap of each row succeeds, and the rows returned are exactly those with the key, each once |
| `TableLocks.StepKeepsInv` | crates/server/src/util/table/table.rs:21-53 | every step of every thread keeps whoever holds the table exclusively alone on it, and all indexes in step with the rows otherwise |
| `TableLocks.RunKeepsInv` | crates/server/src/util/table/table.rs:21-53 | so it is in every interleaving |
| `TableLocks.IndexLocksNeverBlock` | crates/server/src/util/table/index_store.rs:199-233 | a thread that asks for an index lock finds no other thread holding or awaiting it in conflict |
| `TableLocks.FinishOnTable` | crates/server/src/util/table/table.rs:21-53 | a thread on the table can run on to the end of its operation while nobody else moves |
| `TableLocks.NoDeadlock` | crates/server/src/util/table/table.rs:93-141 | from every reachable state a schedule without new requests ends every operation in progress, even if readers queue behind a waiting writer |
| `TableLocks.SomeoneCanStep` | crates/server/src/util/table/table.rs:93-141 | while some thread is at work, some thread can take a step that changes the state |
| `TableLocks.LookupSeesOneOperation` | crates/server/src/util/table/table.rs:93-141 | rows and entries that a lookup sees belong to the same completed operation |
| `RpcBroker.Broker.HandleStartCommand` | crates/common/src/net/rpc/broker.rs:104-121 | the command goes out under the counter's id and the sink is registered under it, or the send fails, the id is taken and nothing is registered |
| `RpcBroker.Broker.HandleMessage` | crates/common/src/net/rpc/broker.rs:123-216 | each message changes the two stream maps, causes effects and ends the loop as specified; what that comes to is in `StopsExactlyWhen` and, over runs, in `RpcSystem.ExactlyOnceInOrder`, `ClosedExactlyWhen` and `EveryCommandIsServed` |
| `RpcBroker.StopsExactlyWhen` | crates/common/src/net/rpc/broker.rs:123-216 | the loop ends exactly on an error, on a reply for an unknown stream, and on a rejected command; it panics exactly on a response whose sink is closed; an error about the id goes out exactly for an unknown stream, a rejected command and a running id |
| `RpcBroker.ReuseIsRefusedExactlyWhen` | crates/common/src/net/rpc/broker.rs:129-136 | after any messages a command is refused as already running if and only if its id was started and not cancelled since, ended or not |
| `RpcBroker.OutgoingIs` | crates/common/src/net/rpc/broker.rs:156-175 | the running set holds an id if and only if it was started and not cancelled since |
| `RpcBroker.AllocatorRepeats` | crates/common/src/net/rpc/broker.rs:218-224 | every id the allocator hands out on a connection is the same |
| `RpcBroker.SecondCommandEndsConnection` | crates/common/src/net/rpc/broker.rs:104-136 | so the second command of a connection is refused and the refusal ends the caller's event loop |
| `RpcSystem.StepKeepsInv` | crates/common/src/net/rpc/broker.rs:52-216 | every step of two joined brokers keeps, for every id both ways, what the caller was handed, then what it lost in a panic, then what is on the wire equal to what the stream sent; and every command finds its id free |
| `RpcSystem.RunKeepsInv` | crates/common/src/net/rpc/broker.rs:52-216 | so it is in every run that keeps to the hypothesis on ids, under any interleaving of streams |
| `RpcSystem.ExactlyOnceInOrder` | crates/common/src/net/rpc/broker.rs:52-65 | payloads handed to the caller's sink, then those lost in a panic or on the wire, then those buffered by the sender loop, are exactly what the handler emitted; a side that is up has lost nothing |
| `RpcSystem.EndMeansAllDelivered` | crates/common/src/net/rpc/mod.rs:24-28 | once the caller handled the end, its sink got everything the handler emitted, no reply is left on the wire or was lost, and the sink is closed: the caller sees the end of its stream |
| `RpcSystem.ClosedExactlyWhen` | crates/common/src/net/rpc/broker.rs:189-196 | in every run the sink of a command is closed if and only if the end of the command was handled, and never twice |
| `RpcSystem.ClosedIsFinal` | crates/common/src/net/rpc/broker.rs:189-196 | a sink that was closed stays closed and is handed nothing more |
| `RpcSystem.EndedMeansWhole` | crates/common/src/net/rpc/mod.rs:24-28 | while the event loop is up, a stream that ended for the caller was delivered whole |
| `RpcSystem.EveryCommandIsServed` | crates/common/src/net/rpc/broker.rs:104-145 | in every run a command that was started is on the wire, or was taken up by the other side, unless the event loop there is down |
| `RpcSystem.NothingFollowsEnd` | crates/common/src/net/rpc/broker.rs:57-62 | among the replies to a command on the wire an end is the last, so there is at most one, cancelled or not |
| `RpcSystem.NextReplyIsExpected` | crates/common/src/net/rpc/broker.rs:176-207 | the next reply on the wire always names a registered command |
| `RpcSystem.OnlyRejectionsFail` | crates/common/src/net/rpc/broker.rs:123-213 | in a reachable state an error goes out only for a command that the handler rejects |
| `RpcSystem.NoProtocolError` | crates/common/src/net/rpc/broker.rs:183-207 | in every run neither stream protocol error nor the already-running refusal is ever reached, and the event loop panics if and only if the next message is a response whose sink the caller has closed |
| `RpcSystem.PanicLoses` | crates/common/src/net/rpc/broker.rs:176-178 | the panic takes the response off the wire and hands it to nobody |
| `RpcSystem.LostForGood` | crates/common/src/net/rpc/broker.rs:89-102 | in every later state that payload is the next one its sink should have been handed, and the sink is handed nothing |
| `RpcSystem.FinishedIsFinal` | crates/common/src/net/rpc/mod.rs:24-28 | once the end of a command is handled, what its sink was handed never changes, whatever its id is used for later |
| `RpcSystem.EarlyReuseMixes` | crates/common/src/net/rpc/mod.rs:8-13 | a command started under an id whose response is still on the wire is handed that response before it has reached the other side |
| `RpcSystem.AnsweredRun` | crates/common/src/net/rpc/broker.rs:84-145 | a run into a state in which a response is about to be handed over |
| `ValuePool.PoolState.constructor` | crates/mq/src/pool.rs:30-52 | the pool starts with `min_values` connected values, all counted live |
| `ValuePool.PoolState.New` | crates/mq/src/pool.rs:30-52 | the pool comes up with its connected values in order if and only if every connect succeeds |
| `ValuePool.PoolState.TakeValue` | crates/mq/src/pool.rs:54-78 | the locked part takes the value pooled last, or counts a new one below the limit, or queues behind all others |
| `ValuePool.PoolState.ReturnValue` | crates/mq/src/pool.rs:95-121 | the value is dropped when the pool is full, where a count of zero would underflow; else the old queue is some waiters that gave up, then the one the value is sent to, then exactly the new queue; with none but such waiters the value is pooled and the queue empty |
| `ValuePool.ReturnIs` | crates/mq/src/pool.rs:95-121 | the same of the specification function that the transition system steps by |
| `ValuePool.NextKeepsTurn` | crates/mq/src/pool.rs:54-121 | every event keeps the queue and the values sent in order of arrival |
| `ValuePool.NobodyIsForgotten` | crates/mq/src/pool.rs:54-121 | in every run whoever queued and has neither given up nor been sent a value is still queued; the queue is in order of arrival; and values were sent to those before it that did not give up, in order of arrival |
| `ValuePool.NextKeepsAccounts` | crates/mq/src/pool.rs:54-121 | takes, returns, cancelled waiters and failed connects keep the accounts |
| `ValuePool.RunIsAccounted` | crates/mq/src/pool.rs:30-121 | in every run the live count is pooled + connecting + in use + in delivery + lost, at most max(`min_values`, `max_values`); no value is in two places; waiters imply an empty pool |
| `ValuePool.RunWaitsForFull` | crates/mq/src/pool.rs:54-121 | if the pool may hold a value, waiters imply that no value may be created |
| `ValuePool.WaitersGetCapacityExactlyWhen` | crates/mq/src/pool.rs:95-121 | that holds in every run if and only if `max_pooled_values >= 1` or `max_values == 0` |
| `ValuePool.ReturnNeverUnderflows` | crates/mq/src/pool.rs:97-98 | in every run, returning a value in use does not make the count underflow |
| `ValuePool.LostNeverShrinks` | crates/mq/src/pool.rs:70-81 | capacity lost to a failed or abandoned connect stays lost |
| `ValuePool.TakerMayCreateExactlyWhen` | crates/mq/src/pool.rs:63-77 | in every run a taker may create a value if and only if none is pooled and those connecting, in use, in delivery and lost together are below `max_values` |
| `ValuePool.DeadExactlyWhen` | crates/mq/src/pool.rs:70-77 | a pool without any value can make none if and only if the lost capacity has reached `max_values` |
| `ValuePool.DeadForEver` | crates/mq/src/pool.rs:54-78 | from then on nobody who waits is ever served and every later taker queues |
| `ValuePool.DyingRun` | crates/mq/src/pool.rs:70-81 | for any limits a run into that state; where the pool starts without values, by failing connects alone |
| `ValuePool.StarvingRun` | crates/mq/src/pool.rs:95-101 | with `max_pooled_values = 0`, for any limits, a run that leaves a waiter queued while capacity is free |
| `TokenSource.TokenSource.constructor` | crates/server/src/services/live/twitch/token_source.rs:18-29 | the bucket starts full with nobody running |
| `TokenSource.TokenSource.TakeToken` | crates/server/src/services/live/twitch/token_source.rs:31-46 | the locked part takes a token and a slot, or queues |
| `TokenSource.TokenSource.AddTokens` | crates/server/src/services/live/twitch/token_source.rs:60-83 | the clamped tokens go to the live waiters in order, one each, as far as they go; the queue keeps exactly those behind the waiter served last; what nobody takes is banked; or it panics, as specified |
| `TokenSource.DepositPanicsExactlyWhen` | crates/server/src/services/live/twitch/token_source.rs:65-75 | a deposit panics if and only if it is not zero and either every slot is running while a live waiter is queued, or the tokens left over make the count of tokens overflow |
| `TokenSource.ServesExactly` | crates/server/src/services/live/twitch/token_source.rs:69-80 | serving fails only with no token at all and a live waiter |
| `TokenSource.ServesInOrder` | crates/server/src/services/live/twitch/token_source.rs:69-80 | tokens go to the live waiters one each, in order of arrival, and the rest is left over |
| `TokenSource.ServePasses` | crates/server/src/services/live/twitch/token_source.rs:69-80 | the old queue is the waiters passed, of whom exactly those who did not leave are granted, and then the new queue, which is empty or starts behind the waiter that took the last token |
| `TokenSource.DepositIs` | crates/server/src/services/live/twitch/token_source.rs:60-83 | the same for a whole deposit, with the counts of tokens and running slots |
| `TokenSource.ServeKeeps` | crates/server/src/services/live/twitch/token_source.rs:69-80 | every token is granted or left over, none is left over while someone waits, and the order of arrival is kept |
| `TokenSource.NextKeeps` | crates/server/src/services/live/twitch/token_source.rs:31-83 | every call that does not panic keeps the conservation laws |
| `TokenSource.RunKeeps` | crates/server/src/services/live/twitch/token_source.rs:31-83 | in every run grants + tokens = `max_tokens` + clamped deposits, running = grants - restored, and a queue implies no token |
| `TokenSource.NobodyIsForgotten` | crates/server/src/services/live/twitch/token_source.rs:31-83 | in every run whoever arrived was granted a token, gave up, or still waits |
| `TokenSource.NoOvertaking` | crates/server/src/services/live/twitch/token_source.rs:31-83 | whoever was granted a token arrived before everyone still waiting |
| `TokenSource.DepositKeepsBoundExactlyWhen` | crates/server/src/services/live/twitch/token_source.rs:60-83 | where tokens + running is within `max_tokens`, a deposit keeps it there if and only if no token was left or there is room for the whole deposit |
| `TokenSource.NextKeepsBoundExactlyWhen` | crates/server/src/services/live/twitch/token_source.rs:31-83 | a call keeps it there if and only if it is no deposit, or a deposit that meets that condition |
| `TokenSource.RunIsBoundedExactlyWhen` | crates/server/src/services/live/twitch/token_source.rs:31-83 | the bound holds in every state of a run if and only if every deposit met that condition |
| `TokenSource.IdleDepositsPileUp` | crates/server/src/services/live/twitch/token_source.rs:65-68 | the clamp ignores tokens in the bucket: deposits into an idle source reach any number of tokens that a `usize` holds |
| `TokenSource.IdleDepositsOverflow` | crates/server/src/services/live/twitch/token_source.rs:82 | at the largest `usize` the next deposit panics |
| `TokenSource.BusySourcePanics` | crates/server/src/services/live/twitch/token_source.rs:65-75 | one slot, one runner, one waiter: the next deposit underflows |
| `FanOut.IdGen.GenId` | crates/server/src/util/id.rs:17-26 | ids come from the free list, else ascending; the last one is refused |
| `FanOut.OptCell.Borrow` | crates/server/src/util/future/opt_cell.rs:27-38 | the current value is kept, or the first replacement is taken, or the call waits, or it fails because the replacer was dropped |
| `FanOut.ForwardOne` | crates/server/src/services/fake/mq.rs:144-172 | for one message the loop drops exactly the closed outlets before the first open one, which accepts it; without one it waits, or returns when the replacer was dropped |
| `FanOut.StepsForward` | crates/server/src/services/fake/mq.rs:144-172 | borrowing and sending in turn, the steps of the transition system, do for a message what the method for the inner loop does |
| `FanOut.BrokerState.AddSubscriber` | crates/server/src/services/fake/mq.rs:209-222 | the subscriber gets an id never used; its subscription is to the topic, is listed under it, runs, has the listener as its one outlet and nothing queued; topics and subscriptions still index each other |
| `FanOut.BrokerState.Publish` | crates/server/src/services/fake/mq.rs:184-187 | the message is queued, or the forwarding loop has returned and the send fails |
| `FanOut.BrokerState.PublishMessage` | crates/server/src/services/fake/mq.rs:224-235 | the message reaches the subscribers of the topic in order of their ids, up to the first whose forwarding loop has returned, where it panics |
| `FanOut.ReachedIs` | crates/server/src/services/fake/mq.rs:224-235 | everyone is reached if and only if no forwarding loop of the topic has returned |
| `FanOut.LoopStepPasses` | crates/server/src/services/fake/mq.rs:137-178 | no step of a forwarding loop loses, repeats or reorders a message |
| `FanOut.NextKeepsInv` | crates/server/src/services/fake/mq.rs:137-235 | every event keeps the cross-index, and accepted, in hand and queued messages together a prefix of those published |
| `FanOut.RunKeepsInv` | crates/server/src/services/fake/mq.rs:137-235 | so it is in every run |
| `FanOut.IndexesAgree` | crates/server/src/services/fake/mq.rs:201-222 | in every reachable state an id is listed under a topic if and only if its subscription is to that topic |
| `FanOut.AcceptedIsAPrefix` | crates/server/src/services/fake/mq.rs:137-193 | what a subscriber's successive outlets accepted, joined, is an in-order prefix of what was published on its topic since it subscribed, and the rest is in hand or queued until the loop times out |
| `FanOut.OutletsInOrder` | crates/server/src/services/fake/mq.rs:137-193 | in every run the outlets of a subscription, tried so far and still to be tried, are the listener it subscribed with and then those of its replacements, in order |
| `FanOut.AcceptedByItsOutlet` | crates/server/src/services/fake/mq.rs:152-170 | a message is added only to what the last outlet picked up accepted, and that outlet is not closed; what earlier outlets accepted stays as it is |
| `FanOut.LoopStepTallies` | crates/server/src/services/fake/mq.rs:144-172 | each step of the loop keeps one list of accepted messages for each outlet picked up |
| `FanOut.PublishPanicsExactlyWhen` | crates/server/src/services/fake/mq.rs:224-235 | a publish panics if and only if the forwarding loop of some subscriber of the topic has returned |
| `FanOut.GoneSubscriberPanics` | crates/server/src/services/fake/mq.rs:137-235 | subscribe, close the outlet, publish, time out, publish: a run in which the second publish brings the broker down |

## Left out

- TableCore.TableCore.UpdateEntry: after a panic it promises the counter and the rows, old or new, but nothing about the entries, because the poisoned table lock makes every later call panic too.
- TableCore.TableCore.AddEntry: requires the counter to be below its maximum; the overflow of `next_id` is not modelled.
- IrcMessages.WriteMessage: when it panics it does not say which part of the text was already appended.
- IrcMessages.ReadMessage: an error tells its kind but not its text.
- TokenSource.TokenSource.AddTokens: models a 64-bit build with overflow checks; without them the counts at lines 75 and 82 wrap around instead of panicking, and the state after a panic is not stated.
- TokenSource.TokenSource.TakeToken: the count of running slots is not bounded by a `usize`; it would take as many callers at once.
- TokenSource.TokenSource.RestoreSlot: requires a running slot, which `run_with_token` always has; a caller whose future is dropped before it restores its slot is a grant that is never restored.
- ValuePool.PoolState.ReturnValue: which of the waiters are gone is fixed for one call.
- RpcSystem.ExactlyOnceInOrder: speaks of the last command under an id, for ids that keep to the hypothesis; the code's own allocator breaks that with its second command.
- RpcSystem.EveryCommandIsServed: what the transport does with messages for a side that is down, and when a side's task ends as a whole, is not modelled; such messages stay on the wire.
- RpcBroker.Broker.HandleMessage: payloads are text, the wording of errors is not modelled, and sending an error to the peer does not fail.
- RpcSystem.Step: nothing in the code sends a cancel, so it is a step of the environment; a handler that a cancel reaches may or may not stop.
- FanOut.AcceptedIsAPrefix: a message counts as accepted when the send to the outlet's channel succeeds, not when the subscriber reads it.
- TableLocks.Step: the entries of an index are reduced to the rows that they list; how an operation changes them is in `TableCore`.
- TableLocks.LookupSeesOneOperation: that a mutator has reached every index before it lets go of the table is a guard of its last step here; that the operations do so is in `TableCore`.
- TableLocks.NoDeadlock: a schedule that ends all operations always exists; that every schedule does depends on the fairness of the locks and is not stated.
- Lock poisoning, channel capacities, wakers, fairness and real time.
- What `FramedRead` does with the connection after a parse error, and I/O errors in the codec.
- `crates/irc/src/messages.rs`, a near copy of the modelled parser that its crate does not declare.
- Network, TLS, WebSocket, HTTP, AMQP, database and process handling, the command line and the development tools: calls into other libraries.
- Challenges, tokens and their encodings: calls into other libraries.
- `Terminate`, `resume`, `to_list` and `take_channel`, which have no body in the source.
- Debug formatters, getters, constructors that only check their argument, configuration, capability negotiation and room member lists keep no property of their own.

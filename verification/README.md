# Verified model of the engine's Git-backed state machines

The engine keeps its durable state in Git: event streams carried as canonical text, a mailing list on
one ref, JSON bodies that must survive a round trip byte for byte, and branches that move only at fixed
boundaries. This project models those parts in Dafny and proves what they promise.

* **Patchwork Check event stream** (`Framing`, `Base64`, `EventStream`, `StreamAnchors`, `StreamAppend`,
  `StreamValues`, `StreamPublication`, `StreamProtocol`, `StreamProgress`). An exact-byte log is framed by LF,
  CR and CRLF, carried as canonical base64 up to 4 MiB, replayed record by record into typed check values,
  extended by one record at a time and published by compare-and-swap. The main results: what a whole replay
  leaves, as sums over the records; an accepted append is never rejected later, from any initial state; a
  publication is planned exactly when it should be; and over every interleaving of appenders each published
  commit adds exactly one record to one node's stream.
* **Mailing list** (`PyText`, `MailMessage`, `MailGrammar`, `MailSeparators`, `MailList`, `MailGenesis`,
  `MailDuplicates`, `MailProgress`, `MailReaders`, `MailDelivery`, `MailReading`, `Rollout`, `RolloutReport`). The
  message format with its printer and parser, the retry loops of creators and posters over one ref, cursors, a
  reader, and the scan that binds a session's recorded checks to their calls. The parser reads exactly the
  messages of a grammar; the list is one append-only chain whose Message-Ids never repeat; a second qa post for
  an item follows only a misfiled one; a post fails only for one of three reasons; cursors never go back; a
  reader is given the posts once and in order, never past one that cannot be read, and catches up when left
  alone; and a check is reported exactly when its chain of rows is complete.
* **Lossless JSON** (`Utf8`, `JsonNumber`, `Json`, `JsonReader`, `JsonGrammar`, `JsonRender`, `JsonCanonical`,
  `JsonOrder`, `JsonLossless`, `JsonDepth`). A recursive-descent model of RFC 8259 sections 2 to 7 with
  the engine's hooks, the concrete syntax that it accepts exactly, the canonical printer, the round trip with
  every number lexeme kept, and the agreement of the three depth checks.
* **Derived structures** (`DependencyGraph`, `TokenIndex`, `TokenQuery`, `RateLimiter`, `NetworkCohort`,
  `CohortLaw`, `SvgBounds`): the transitive reduction of ancestry, the incrementally kept paraphrase index and
  its query, two sliding-window limits, two separately written publication validators, and bounding boxes under
  nested transforms.
* **Scope and maintainer boundaries** (`PyDigits`, `ScopeDecomposition`, `ScopeLedger`, `ScopeLaw`, `Subsystem`,
  `SubsystemProgress`): acceptance of a scope decomposition is an exact partition of exactly the documents that
  say what it asks for, and mainline moves only at a series hand-off.

Git itself is a store of immutable commits plus refs (`Git`): a commit is named by its index, so parents
are older than their children; `commit-tree` adds a commit or finds an identical one; `update-ref new old`
is one atomic step. Reads, commit creation and compare-and-swap are separate steps of the protocols.
Code that updates state step by step is a method with loops, or a class whose methods state the whole new
state, proved against functions; the lemmas are about those functions.

Eight properties that one might expect of the code hold only under a condition. Each has the exact
condition as an if-and-only-if, or a one-way result with a witness that shows what goes wrong:

* A replay continues after every rejected record, except that an event whose `op` is a JSON array or
  object ends it with a TypeError, because the operation is looked up in a set
  (`ai_org/patchwork_check_stream.py:480`). `StreamAppend.ReplayCompletesExactly` and
  `StreamAppend.ReplayCanDie` say exactly when.
* A post reads back as written unless a trailer text holds one of the eight separators that only
  `str.splitlines` honours; `post` refuses just newline and carriage return
  (`MailMessage.RoundTripExactly`). Whether such a post is read at all, and which refs it comes back with,
  can be told from the pieces that the separators make of its trailers
  (`MailSeparators.ReadsBackExactly`, `MailSeparators.RefsReadBack`).
* `read` raises exactly when a message behind `since` is malformed (`MailDelivery.ReadGivesTheRest`), and
  `post` accepts messages that are: a ref value "a", a vertical tab and "b" is enough
  (`MailSeparators.AcceptedAndMalformed`). Once one is listed, no reader that advances to what it was given gets past it
  (`MailDelivery.NothingPastMalformed`). On a list whose drafts all read back no read fails
  (`MailDelivery.BlockedExactlyByDrafts`).
* A second qa post for an item is possible exactly behind a misfiled one, which is read but filed under other
  text than its caller named: `MailList.OneQaPostPerItem` and `MailDuplicates.MisfiledDraftPostsTwice`, with
  the run of `MailDuplicates.TwoQaPostsForOneItem`.
* The dependency graph's closure is ancestry unless two names of one commit stand beside a third
  comparable ref (`DependencyGraph.ClosureIsAncestryExactly`).
* Leaf acceptance leaves mainline alone unless the contributor's branch or the default branch is mainline
  itself (`Subsystem.AcceptanceKeepsMainline`, `Subsystem.AcceptingMainlineMovesIt`,
  `Subsystem.AcceptingIntoMainlineMovesIt`).
* The two validators of a network publication differ. What the reader grounds the writer accepts unless a
  declared node path is not spelled as its directory, such as "sub//x"
  (`NetworkCohort.ReaderAgreesWithWriterExactly`, `NetworkCohort.DoubledSlashIsReadOnly`). What the writer
  accepted the reader grounds unless a declared child has no manifest, an approach names no lineage, or a
  stale child is ahead of its root view (`NetworkCohort.WriterAgreesWithReaderExactly`).
* A patch item is found under its own id whenever that is owned, except that an ordinal with a digit that has
  no decimal value, such as "follow_up_" and a superscript two, ends the projection with a ValueError, because
  all candidates are made first (`ScopeDecomposition.CandidatesRaiseExactly`,
  `ScopeDecomposition.SuperscriptOrdinalRaises`).

## Model

| member | source | states |
|---|---|---|
| StreamAppend.AcceptedAppendReplays | ai_org/patchwork_check_stream.py:155-228 | an accepted append is never rejected later: from every initial state, replaying the extended stream is replaying the old one and then applying that event on line old count + 1, with all earlier diagnostics and line numbers unchanged |
| StreamAppend.AppendAcceptsExactly | ai_org/patchwork_check_stream.py:184-228 | an append succeeds exactly for one nonblank record that fits in 4 MiB with its separator and line end, decodes and applies; the early size rejection refuses nothing that the exact check would accept |
| StreamAppend.PrepareAppendLoop | ai_org/patchwork_check_stream.py:184-228 | the framing loop, which stops at the first blank or second record, computes the same acceptance, refusal and appended bytes as the declarative form |
| StreamAppend.AcceptedParts | ai_org/patchwork_check_stream.py:184-228 | an accepted append decodes to exactly the old bytes, separator, the one record and LF |
| StreamAppend.AcceptedRecordApplies | ai_org/patchwork_check_stream.py:211-220 | a record that applied to the scratch state applies to every typed state, because acceptance of an event does not depend on the values |
| StreamAppend.ReplayCompletesExactly | ai_org/patchwork_check_stream.py:155-181 | a replay runs to its end if and only if the stream holds no record whose declared variable comes with an unhashable operation, whatever the initial state |
| StreamAppend.ReplayCanDie | ai_org/patchwork_check_stream.py:480 | for every declared check, the canonical one-record stream with operation [] makes replay end in a TypeError |
| StreamAppend.DiesOnFatalRecord | ai_org/patchwork_check_stream.py:155-181 | the same condition for a replay under way, from any sound state and line |
| StreamAppend.PrintedObjectIsOneRecord | ai_org/patchwork_check_stream.py:399-428 | the printed bytes of an object within the depth limit are one nonblank physical record that decodes to exactly its members |
| StreamValues.ReplayMeans | ai_org/patchwork_check_stream.py:155-181 | for every body, registry and initial state, a replay that ends leaves each counter at its last accepted set, or else its start, plus the accepted increments less the accepted decrements behind that, each text at its last accepted set, the diagnostics exactly on the refused records in line order, and each last event on the line of the last accepted record of its variable |
| StreamValues.CounterIsReplayed | ai_org/patchwork_check_stream.py:431-506 | a counter's final value for every typed start, summed over the records from their op and value members alone |
| StreamValues.TextIsReplayed | ai_org/patchwork_check_stream.py:431-506 | a text's final value is the string of its last accepted set, or else its start |
| StreamValues.RecordsAreTold | ai_org/patchwork_check_stream.py:155-181 | the diagnostics and the last events of a replay under way, from any line |
| StreamValues.VerdictExactly | ai_org/patchwork_check_stream.py:431-506 | an event is accepted exactly when its type allows what it asks, refused under a rule exactly when it breaks that rule, and ends the replay exactly when its operation is unhashable |
| StreamValues.DecodedExactly | ai_org/patchwork_check_stream.py:399-428 | what becomes of a record before its event is looked at: the depth bound, UTF-8, JSON and the object in this order, each under its own code and rule |
| StreamValues.InitialStateExactly | ai_org/patchwork_check_stream.py:630-649 | an initial state is accepted exactly when every value in it is of a declared check and of its type, and then starts each check at its value, or at zero or the empty string |
| StreamValues.CheckRecordExactly | ai_org/patchwork_check_stream.py:204-220 | a record may be added exactly when the longer stream fits and its event is allowed, and otherwise the first failing reason is the error |
| StreamValues.AppendSucceedsExactly | ai_org/patchwork_check_stream.py:184-228 | an append to a decodable body succeeds exactly for one nonblank record whose event is allowed and fits, its body then carries the old bytes, the separator, the record and LF under the same anchors, and every refusal has its own error |
| StreamAnchors.AnchorsExactly | ai_org/patchwork_check_stream.py:584-595 | the anchors are accepted exactly when they are a commit name of SHA-1 or SHA-256 and the path of the root's or one direct child's stream |
| StreamAnchors.RefusedExactly | ai_org/patchwork_check_stream.py:125-152 | of five reasons for refusing a body the first that applies is given: its fields, its anchors, no base64, more than 4 MiB of bytes, pad bits set |
| Framing.PhysicalRecords | ai_org/patchwork_check_stream.py:550-575 | the cursor loop yields exactly the records that LF, CR and CRLF delimit |
| Framing.RecordsAppend | ai_org/patchwork_check_stream.py:550-575 | framing distributes over concatenation wherever no CRLF pair straddles the cut |
| Framing.RecordsEnded | ai_org/patchwork_check_stream.py:190 | ending an unterminated stream with LF adds no record |
| Framing.AppendExtendsRecords | ai_org/patchwork_check_stream.py:190-222 | for every LF, CR, CRLF or unterminated ending, the append adds exactly the one record and leaves the stream ended |
| Framing.RecordsAreUnbroken | ai_org/patchwork_check_stream.py:550-575 | no record holds a line break |
| EventStream.DecodeInvertsBody | ai_org/patchwork_check_stream.py:95-152 | decoding gives back every byte string that could be encoded |
| EventStream.BodyInvertsDecode | ai_org/patchwork_check_stream.py:95-152 | every accepted body is rebuilt exactly from its decoded bytes, so the carrier is a bijection |
| EventStream.DecodesExactly | ai_org/patchwork_check_stream.py:125-152 | acceptance in full: closed fields, valid anchors, base64 shape, zero pad bits and at most 4 MiB; the closing length check never fires |
| EventStream.ReplayLoop | ai_org/patchwork_check_stream.py:155-181 | the loop that updates state, last events and diagnostics in place computes the fold over the framed records, whose final values `StreamValues.ReplayMeans` tells |
| EventStream.ReplayAppends | ai_org/patchwork_check_stream.py:155-181 | replaying one more record is one more step after replaying the rest, on the next line number |
| EventStream.ReplayRecords | ai_org/patchwork_check_stream.py:168-180 | every state that replay passes through is typed by the registry |
| EventStream.ApplyIsUniform | ai_org/patchwork_check_stream.py:431-506 | whether an event applies is the same in any two typed states; the value it leaves is told by `StreamValues.CounterIsReplayed` and `StreamValues.TextIsReplayed` |
| EventStream.InitialStateIsTyped | ai_org/patchwork_check_stream.py:630-649 | an accepted initial state gives every declared check a value of its type and nothing else |
| Base64.DecodeOfEncode | ai_org/patchwork_check_stream.py:95-106 | decoding inverts encoding for every byte string (RFC 4648 section 4) |
| Base64.EncodeOfDecode | ai_org/patchwork_check_stream.py:145-149 | re-encoding gives back a shaped text exactly when its pad bits are zero (RFC 4648 section 3.5) |
| Base64.AnnouncedSizeIsExact | ai_org/patchwork_check_stream.py:141-142 | the size computed before decoding is the decoded length |
| StreamPublication.PlanAppends | ai_org/patchwork_check_stream.py:247-379 | a planned publication adds exactly the candidate's one record to its node's stream, keeps every other file and leaves no legacy file beside the canonical one; when one is planned is told by `StreamProgress.PlanExactly` |
| StreamPublication.PlanKeepsOtherNodes | ai_org/patchwork_check_stream.py:360-372 | every other node reads the same stream, and is as ambiguous or not, before and after |
| StreamPublication.NodeFiles | ai_org/patchwork_check_stream.py:597-612 | the two coordinates of a node differ and no node's file is another's |
| StreamProtocol.RunKeepsInvariant | ai_org/patchwork_check_stream.py:247-396 | over every interleaving of calls, head checks, commit creation and compare-and-swap, the branch is the base plus the logged publications, each planned on the tip it replaced |
| StreamProtocol.PublicationsAreAppends | ai_org/patchwork_check_stream.py:247-396 | in every reachable world each node's records are the base's followed by its published records in order, every published commit's only parent is the previous tip, and a node with one coordinate never gets both |
| StreamProtocol.OtherFilesKept | ai_org/patchwork_check_stream.py:360-372 | a file that no publication's node owns is the same in every tip |
| StreamProtocol.ResultsMatchPublications | ai_org/patchwork_check_stream.py:382-396 | every "updated" result is exactly one publication with its own commit, of the one record that the caller's own request carried, and a refused call is none |
| StreamProgress.StreamOfExactly | ai_org/patchwork_check_stream.py:278-299 | a node's stream is that of a canonical file that reads, prints back byte for byte and is bound to the node, or the bytes of the legacy file, or empty where there is neither, and nothing where there are both |
| StreamProgress.PlanExactly | ai_org/patchwork_check_stream.py:247-379 | a publication is planned if and only if the directory is a node's, its stream reads and fits with a valid anchor, the manifest declares the request's registry, the candidate is one acceptable record, and the longer body prints and reads back; and the planned tree is then the old one with that stream |
| StreamProgress.AloneIsPublished | ai_org/patchwork_check_stream.py:247-396 | from every reachable world, a call on the head it expects, with such a plan, no competitor and no failing command, ends updated after four steps |
| StreamProgress.RefusalHasReason | ai_org/patchwork_check_stream.py:247-396 | in every run a call is refused only because the head had moved, nothing could be planned, the commit failed or the compare-and-swap lost |
| JsonLossless.LosslessRoundTrip | ai_org/body_codec.py:149-276 | reading the printed bytes of any value within the depth limit gives the value back, members in printing order, with every number lexeme unchanged |
| JsonLossless.PrintsOnlyJson | ai_org/body_codec.py:149-276 | a value prints if and only if it is made of JSON types and Unicode strings and is within the limit, and what is printed is text that the reader accepts and reads back as the arranged value |
| JsonLossless.CanonicalBytesDecideEquality | ai_org/body_codec.py:229-256 | equal values print to the same canonical bytes whatever order their members were inserted in, and values with the same bytes are equal up to a plain int and its decimal token; for values as the reader yields them, same bytes if and only if equal |
| JsonLossless.PrintReadPrint | ai_org/body_codec.py:149-276 | printing, reading and printing again is the identity on canonical bytes |
| JsonLossless.ArrangedKeeps | ai_org/body_codec.py:246-256 | sorting members at every level keeps height, validity and losslessness |
| JsonRender.ReadRendered | ai_org/body_codec.py:182-189 | the grammar of RFC 8259 reads every rendered value back whole |
| JsonRender.ScanRendered | ai_org/body_codec.py:182-189 | the same in front of any text that cannot continue a number |
| JsonRender.ScanEscaped | ai_org/body_codec.py:233-234 | every escaped string reads back to itself, whatever it holds (RFC 8259 section 7) |
| JsonGrammar.ReadsExactly | ai_org/body_codec.py:182-189 | a text is read as a value if and only if it is one of the ways to write that value: space, numbers by their parts, strings by any mixture of plain characters, short escapes, units and surrogate pairs, and objects without a repeated key (RFC 8259 sections 2 to 7) |
| JsonGrammar.WrittenIsRead | ai_org/body_codec.py:149-189 | whatever the grammar writes, with any space around it, is read as its meaning, unless an object has a key twice, however its two spellings differ, which is refused as such |
| JsonGrammar.SpellingReads | ai_org/body_codec.py:182-189 | every spelling of a string reads as its characters, escaped units in either case included |
| JsonGrammar.StringIsSpelled | ai_org/body_codec.py:182-189 | whatever is read as a string is a spelling of it |
| JsonGrammar.AsciiReads | ai_org/body_codec.py:182-189 | every text of Unicode scalar values, written as json.dumps writes it with ensure_ascii, reads back to itself |
| JsonGrammar.NumIsNumber | ai_org/body_codec.py:100-120 | whatever has the parts of a number is a number token (RFC 8259 section 6) |
| JsonGrammar.NumberHasParts | ai_org/body_codec.py:100-120 | and every number token has those parts |
| JsonCanonical.PrintsWhenFits | ai_org/body_codec.py:220-271 | the printer succeeds exactly when the value is supported and within the depth limit, and then prints the rendering of the arranged value |
| JsonOrder.SortIsCanonical | ai_org/body_codec.py:251-252 | sorting by UTF-8 bytes gives the same order for every insertion order of the same members |
| JsonOrder.KeyOrderIsTextOrder | ai_org/body_codec.py:251-252 | the order of UTF-8 bytes is the order of code points |
| JsonNumber.TokenIsMaximal | ai_org/body_codec.py:100-120 | a complete number token in front of a delimiter is matched whole and no further (RFC 8259 section 6) |
| JsonNumber.TokenIsNumber | ai_org/body_codec.py:100-120 | what the reader takes as a number is a valid lexeme |
| JsonNumber.IntTextIsToken | ai_org/body_codec.py:229-230 | a printed integer is an integer token that reads back to the same integer |
| JsonReader.DepthWalk | ai_org/body_codec.py:192-204 | the explicit-stack walk refuses exactly the values that are higher than the limit |
| JsonReader.StrictJsonLoads | ai_org/body_codec.py:149-205 | the reader with its walk computes the declarative decoding: UTF-8, grammar, unique keys, exact numbers, depth; which texts it accepts, and as what, is told by `JsonGrammar.ReadsExactly` |
| JsonDepth.JsonDepthExceeds | ai_org/patchwork_check_stream.py:524-547 | the byte loop with its early return says exactly whether the greatest running depth passes the limit |
| JsonDepth.PeakIsHeight | ai_org/patchwork_check_stream.py:524-547 | on every text that the grammar accepts, the scanner's greatest depth is the height of the value, whatever quotes, backslashes and braces its strings hold |
| JsonDepth.ScannerAgreesWithReader | ai_org/patchwork_check_stream.py:524-547 | on the bytes of any accepted text the scanner exceeds a limit exactly when the reader's walk refuses the value |
| JsonDepth.DepthChecksAgree | ai_org/body_codec.py:192-271 | for every value and limit, the scanner on the printed text, the printer and the reader's walk agree |
| Utf8.CodecIsBijective | ai_org/body_codec.py:161-165 | strict UTF-8 is a bijection between scalar texts and the byte strings it decodes (RFC 3629) |
| MailMessage.RoundTripExactly | ai_org/mailing_list.py:449-535 | a post reads back as written, with repeated trailers regrouped, if and only if no trailer text holds a separator that only splitlines honours |
| MailMessage.CleanRoundTrip | ai_org/mailing_list.py:449-535 | kind, subject, arbitrary body (even one with "Kind:" paragraphs or newlines at its ends), Message-Id, reply, refs and links all come back |
| MailMessage.PostIsNotGenesis | ai_org/mailing_list.py:485-488 | no post is mistaken for the genesis message, clean or not |
| MailMessage.SeparatorBreaksRoundTrip | ai_org/mailing_list.py:407-426 | a post with a vertical tab in a ref passes every check and does not read back |
| MailMessage.ReadIsPlain | ai_org/mailing_list.py:494-526 | no trailer text that the parser returns holds a line separator |
| MailMessage.RegroupedGrows | ai_org/mailing_list.py:538-547 | adding a parsed value regroups one more pair: a string at first, then a list in order |
| MailMessage.ReadTrailersLoop | ai_org/mailing_list.py:502-526 | the loop that fills the parsed fields line by line computes the fold over the lines |
| MailMessage.NormalizeKeepsValues | ai_org/mailing_list.py:407-426 | each name of a mapping keeps its values in order through sorting and spreading |
| MailMessage.NormalizeIgnoresOrder | ai_org/mailing_list.py:416 | the trailers do not depend on the order in which a mapping was filled |
| MailMessage.RefsSurvive | ai_org/mailing_list.py:407-547 | a mapping given to post comes out of read name for name: one value as a string, several as the list, none not at all |
| MailMessage.MessageIdInjective | ai_org/mailing_list.py:444-446 | a Message-Id determines kind, coordinate and sequence |
| MailMessage.MessageIdIsPlain | ai_org/mailing_list.py:444-446 | a generated Message-Id never breaks a line, whatever the coordinate holds |
| PyText.UrlQuoteInjective | ai_org/mailing_list.py:445 | different coordinates have different percent-encodings |
| PyText.SplitOfJoin | ai_org/mailing_list.py:468-494 | splitting undoes joining when no line holds a separator |
| MailGrammar.MessageExactly | ai_org/mailing_list.py:485-535 | a message of any origin is read, and as what, if and only if it is made of a header of the kind in capitals and the subject, a body, and a last paragraph of the kind and trailers in any order and mixture, with one identity and one reply at most |
| MailGrammar.TrailersExactly | ai_org/mailing_list.py:502-547 | the trailer loop takes exactly lines that are trailers, each pair cut at its first equals sign, and gives what they say, repeated names regrouped |
| MailGrammar.GenesisExactly | ai_org/mailing_list.py:485-488 | a message is the genesis exactly when it begins with its line |
| MailGrammar.SplitExactly | ai_org/mailing_list.py:494 | splitting gives the lines of whatever pieces make up a text, each ended by one of the eleven line breaks of splitlines |
| MailGrammar.PiecesOf | ai_org/mailing_list.py:494 | and every text is made up of such pieces |
| MailGrammar.NormalizeExactly | ai_org/mailing_list.py:407-426 | a mapping is taken exactly when each of its names goes with each of its values, and with an empty one, as a trailer, and then gives such pairs only |
| MailGrammar.MessageIdExactly | ai_org/mailing_list.py:444-446 | a Message-Id is the kind, the coordinate with reserved bytes of its UTF-8 written as two capital digits (RFC 3986 section 2.1), and the decimal sequence, with dots between, at the list |
| MailList.RunKeepsInvariant | ai_org/mailing_list.py:24-148 | over every interleaving of creators and posters, with their retries, the list is the chain of the logged moves and every phase keeps its promise |
| MailList.ListIsOneChain | ai_org/mailing_list.py:24-148 | the list is one first-parent chain from one genesis; every post keeps the empty tree and its sequence is its position |
| MailList.ListOnlyGrows | ai_org/mailing_list.py:59-148 | the list at a later time is the earlier list plus later entries |
| MailList.MessageIdsAreUnique | ai_org/mailing_list.py:429-446 | no two posts of a list carry the same Message-Id |
| MailGenesis.SeedIsTheCreators | ai_org/mailing_list.py:24-57 | in every world of every run, the genesis at the root of a list that some call created is read as the seed commit and tree that this very call had captured, however the list has grown |
| MailGenesis.SeedReadsBack | ai_org/mailing_list.py:332-350 | the seed that a genesis records reads back |
| MailGenesis.SeedExactly | ai_org/mailing_list.py:332-350 | a seed is read from exactly the genesis messages with one line of each kind, neither empty; one with neither line has none and any other is refused |
| MailList.ResultsMatchPosts | ai_org/mailing_list.py:80-148 | an ok result that found nothing existing is exactly one commit, of the draft that the caller posted; every other call, finished or not, has posted none; why a call fails is told by `MailProgress.FailureHasReason` |
| MailProgress.FailureHasReason | ai_org/mailing_list.py:59-148 | in every run a call that has failed could not make a commit, or searched for its item in a list with a message that cannot be read, or lost the compare-and-swap to four entries of other calls logged after its own began |
| MailProgress.AlonePosts | ai_org/mailing_list.py:80-148 | from every reachable world with a list, a valid post whose caller steps alone and whose commit can be made is over after at most five steps, with exactly one more entry, unless its one item is found or a message cannot be read |
| MailDuplicates.PostGoesThrough | ai_org/mailing_list.py:80-148 | the run of such a call, action for action, for every valid draft, whatever its kind |
| MailList.OneQaPostPerItem | ai_org/mailing_list.py:471-482 | whatever is posted, and however many posters and harvesters run, a second qa post for an item follows only one that was misfiled, and no two posts that are not are filed under one item |
| MailList.MalformedPostIsLast | ai_org/mailing_list.py:98-109 | once a post that cannot be read is listed, every search fails, so no post that names one item follows it |
| MailList.FiledExactly | ai_org/mailing_list.py:471-535 | whether a posted draft is read and under which item it is filed, told from the draft before it is posted and whatever its trailers hold |
| MailList.CleanIsSettled | ai_org/mailing_list.py:471-482 | a draft without the eight separators is read and filed under the item its caller named |
| MailList.UnplainItemIsNotSettled | ai_org/mailing_list.py:471-482 | a draft whose item holds one of them never is |
| MailDuplicates.SearchFindsOwnPostExactly | ai_org/mailing_list.py:478-482 | after a draft's post, the search for its item finds that post exactly when the draft is settled, misses it exactly when it is misfiled, and fails exactly when it cannot be read |
| MailDuplicates.MisfiledDraftPostsTwice | ai_org/mailing_list.py:92-141 | in any world of any run where the list reads and holds no post for the item, two calls with one misfiled draft add two posts for it |
| MailDuplicates.TwoQaPostsForOneItem | ai_org/mailing_list.py:92-141 | a run from a fresh list that ends with two qa posts for one item, for every clean draft and each of the eight separators |
| MailList.FiledUnderItsItem | ai_org/mailing_list.py:471-482 | a settled post is found under exactly the item its caller named |
| MailList.UncleanItemIsFiledElsewhere | ai_org/mailing_list.py:471-494 | with a separator at the end of its item a qa post is filed under the item without it, so two callers' different items meet |
| MailSeparators.TrailingSeparatorIsLost | ai_org/mailing_list.py:494-526 | a separator at the end of the last ref is lost: the post reads back as the one without it |
| MailSeparators.StrayTextIsMalformed | ai_org/mailing_list.py:407-426 | a separator followed by text that is no trailer passes every check of post and makes the message malformed |
| MailSeparators.AcceptedAndMalformed | ai_org/mailing_list.py:502-526 | the post with "a", a vertical tab and "b" in a ref is accepted and never read |
| MailSeparators.ReadsBackExactly | ai_org/mailing_list.py:485-535 | a valid post is read if and only if every piece that separators make of its trailers is a trailer, with one Message-Id and one reply at most; otherwise its trailers are malformed |
| MailSeparators.PostReadsFragments | ai_org/mailing_list.py:485-526 | a valid post is parsed fragment by fragment and can be malformed in its trailers only |
| MailSeparators.RefsReadBack | ai_org/mailing_list.py:521-535 | the refs that a post comes back with are those of its fragments, regrouped by name |
| MailSeparators.ContinuedReadsBack | ai_org/mailing_list.py:494-526 | a clean post with a separator in its last ref reads back as the clean post continued by whatever trailers the text behind the separator makes |
| MailReaders.PostersGrowTheList | ai_org/mailing_list.py:24-148 | every step of creators and posters, whatever they post, is the growth that cursors rely on |
| MailReaders.CursorsStayOnList | ai_org/mailing_list.py:283-306 | with posters and any number of callers running, and whatever the messages hold, a cursor points at a commit of the list, and a call that moves, finds or refuses leaves it at or past its target |
| MailReaders.CursorsOnlyAdvance | ai_org/mailing_list.py:283-306 | a cursor never moves backward and is never lost |
| MailReaders.BehindHasReached | ai_org/mailing_list.py:295-303 | a cursor that refuses to go back has already reached the target |
| MailReading.AloneAdvances | ai_org/mailing_list.py:283-306 | a call that steps alone ends in the one result that the list and the cursor ask for: not on the list, already there, behind, or moved; and only a move changes anything |
| MailReading.ContendedHasReason | ai_org/mailing_list.py:283-306 | in every run a call gives up as contended only after the reader's cursor was changed four times under it |
| MailDelivery.DeliversExactlyOnce | ai_org/mailing_list.py:151-193 | a reader that reads since its cursor and advances to the last post given gets a prefix of the posts, each once and in order; a read gives all the rest, or raises and gives nothing exactly when a message behind the cursor is malformed; nothing else fails |
| MailDelivery.NothingPastMalformed | ai_org/mailing_list.py:178-193 | a malformed message stops the reader for good: it is never given that message or anything behind it |
| MailDelivery.BlockedExactlyByDrafts | ai_org/mailing_list.py:178-193 | on a list that posters built, a read is blocked exactly by a draft behind since whose trailers do not read back |
| MailDelivery.PostersFeedReaders | ai_org/mailing_list.py:24-148 | every step of creators and posters, whatever they post, is growth of a list whose root alone is the genesis |
| MailDelivery.ReadGivesTheRest | ai_org/mailing_list.py:151-193 | a read since a listed post succeeds if and only if no message behind it is malformed, and then gives exactly the posts after it |
| MailDelivery.UnreadIsSuffix | ai_org/mailing_list.py:160-163 | the range since..head selects exactly the chain behind since |
| MailReading.ReaderCatchesUp | ai_org/mailing_list.py:151-193 | from any moment of any run, a reader that is not blocked and reads on while nobody posts has been given everything on the list, with its cursor at the head, after at most nine steps, and stays there |
| Rollout.ReportedChecksAreBound | ai_org/mailing_list_harvest.py:220-353 | every reported check has exactly one exec call, its own output and the outputs of waits on the cell it left running; sequence numbers are strictly ascending |
| Rollout.Extract | ai_org/mailing_list_harvest.py:220-281 | the row loop over its dictionaries and queues computes the fold over the rows, and reports the checks by sequence; which checks those are is told by `RolloutReport.ReportedExactly` |
| RolloutReport.ReportedExactly | ai_org/mailing_list_harvest.py:220-353 | a check is reported if and only if it is a complete chain of the rows: one exec call, its own output and the outputs of waits, bound to their calls, with an outcome line, the last one leaving no cell running, and the cell neither reopened nor given up along it |
| RolloutReport.EndedAtOnceIsReported | ai_org/mailing_list_harvest.py:306-353 | every exec call whose own output leaves no cell running and has an outcome line is reported with that command and those lines |
| RolloutReport.ReportsExactly | ai_org/mailing_list_harvest.py:306-353 | the reported checks are exactly those that some output row completes, told over the rows |
| RolloutReport.CallOfIsPaired | ai_org/mailing_list_harvest.py:255-276 | the call that an output is given is the one it is paired with |
| Rollout.DictionariesTrack | ai_org/mailing_list_harvest.py:231-276 | the dictionaries hold exactly what each id on its own and each anonymous queue is doing |
| Rollout.PairsAreOneToOne | ai_org/mailing_list_harvest.py:262-276 | no call is given two outputs, and anonymous calls of a family are given theirs in order |
| Rollout.OpenIsNeverAmbiguous | ai_org/mailing_list_harvest.py:231-336 | open and ambiguous ids are disjoint, and so are open and ambiguous cells |
| Rollout.PairedIdIsClean | ai_org/mailing_list_harvest.py:255-271 | an id that was reopened while open is never paired again |
| Rollout.ReopenedCellYieldsNoCheck | ai_org/mailing_list_harvest.py:306-336 | a cell that was reopened while running, or given up for another, yields no later check |
| Git.AncestorTransitive | ai_org/git_wrapper.py:441-444 | ancestry is transitive |
| Git.AncestorAntisymmetric | ai_org/git_wrapper.py:441-444 | two commits that are ancestors of each other are one |
| Git.ChainAscends | ai_org/mailing_list.py:429-441 | a first-parent chain never repeats a commit |
| DependencyGraph.Graph | ai_org/git_wrapper.py:1818-1840 | the nested loops return, sorted and without repetition, exactly the related pairs that no third ref stands between |
| DependencyGraph.ClosureIsAncestryExactly | ai_org/git_wrapper.py:1818-1840 | the closure of the edges is ancestry between different refs if and only if no two names of one commit stand beside a third comparable ref |
| DependencyGraph.DistinctCommitsHaveNoAliases | ai_org/git_wrapper.py:1818-1840 | with one name a commit the condition holds |
| DependencyGraph.KeptEdgeIsNeeded | ai_org/git_wrapper.py:1829-1838 | any edges between related refs that reach an edge's end contain it, so the graph is the least one |
| DependencyGraph.NoEdgeIsImplied | ai_org/git_wrapper.py:1829-1838 | no returned edge is implied by the others |
| DependencyGraph.AliasesLoseAnEdge | ai_org/git_wrapper.py:1818-1840 | with main at the root and a and b at one child commit, nothing leads from main to a |
| ScopeDecomposition.Decompose | ai_org/patch_series_bodies.py:975-1302 | the procedure accepts exactly the well-shaped and consistent inputs, returns their projection, and neither row-delta guard ever fires |
| ScopeDecomposition.AcceptanceIsPartition | ai_org/patch_series_bodies.py:1004-1059 | scope ids are distinct, ownership is a bijection onto them, and the historical rows and owners stand first and unchanged |
| ScopeDecomposition.ObligationInheritsOwner | ai_org/patch_series_bodies.py:1197-1227 | every obligation row carries its assigned patch item and the owner of that item's historical patch-plan row |
| ScopeDecomposition.GoalHasOneDuty | ai_org/patch_series_bodies.py:1145-1240 | every goal that requires a deliverable has exactly one obligation |
| ScopeDecomposition.RequirementHasOneDuty | ai_org/patch_series_bodies.py:1145-1240 | every requirement has exactly one obligation, which agrees with it on goal, id and deliverable |
| ScopeDecomposition.AssignmentHasOneDuty | ai_org/patch_series_bodies.py:1115-1231 | every assigned obligation id is exactly one obligation |
| ScopeDecomposition.DutyBelongs | ai_org/patch_series_bodies.py:1145-1240 | every obligation serves a goal, a requirement and an assignment of the root |
| ScopeDecomposition.ProjectDuties | ai_org/patch_series_bodies.py:1143-1251 | the obligation loop with its popped assignments accepts exactly consistent obligations and builds the projected rows |
| ScopeDecomposition.ReadScopeItems | ai_org/patch_series_bodies.py:1007-1033 | the loop accepts exactly well-shaped rows with distinct ids |
| ScopeDecomposition.ReadOwners | ai_org/patch_series_bodies.py:1035-1059 | the loop accepts exactly one owner for every scope id and none for others |
| ScopeDecomposition.ReadGoals | ai_org/patch_series_bodies.py:1074-1097 | the loop accepts exactly distinct goals whose deliverable ones keep their historical row |
| ScopeDecomposition.ReadRequirements | ai_org/patch_series_bodies.py:1099-1113 | the loop accepts exactly well-shaped requirements with distinct ids |
| ScopeDecomposition.ReadAssignments | ai_org/patch_series_bodies.py:1115-1137 | the nested loops accept exactly assignments that name no obligation twice, and fill the map from obligation to item |
| ScopeDecomposition.ReadRetained | ai_org/patch_series_bodies.py:1275-1288 | the loop accepts exactly distinct ids of the decomposition |
| ScopeDecomposition.HistoricalScopeId | ai_org/patch_series_bodies.py:1305-1323 | the scan returns the first candidate coordinate that is owned, the item itself before any other, unless an ordinal raises |
| ScopeDecomposition.CandidatesRaiseExactly | ai_org/patch_series_bodies.py:1315-1322 | the exact condition for the ValueError: an ordinal that isdigit accepts with a digit that int refuses |
| ScopeDecomposition.SuperscriptOrdinalRaises | ai_org/patch_series_bodies.py:1315-1323 | a superscript ordinal raises although the item itself may be owned |
| ScopeDecomposition.FollowUpIsFound | ai_org/patch_series_bodies.py:1315-1318 | a numbered follow-up has exactly its own id and its historical coordinate as candidates |
| ScopeLedger.RowsExactly | ai_org/patch_series_bodies.py:1004-1189 | the rows that are read from any two decoded documents are exactly those that their lists spell, member by member |
| ScopeLaw.LawfulExactly | ai_org/patch_series_bodies.py:1004-1251 | the checks pass exactly on rows that are lawful: said over positions, owners, goals, requirements, assignments and obligations, without sets or maps |
| ScopeLaw.AcceptsExactly | ai_org/patch_series_bodies.py:975-1302 | a frozen root and a ledger are accepted if and only if they say everything that is asked for, and the body carries the revision, the lineage, the escalation and the retained ids that they give |
| ScopeLaw.BodyExactly | ai_org/patch_series_bodies.py:1190-1227 | behind the unchanged historical rows stands one row for each obligation, with its assigned item, and its owner is that of the first of the item's coordinates that is known |
| ScopeLaw.CoordinatesExactly | ai_org/patch_series_bodies.py:1305-1323 | an item's coordinates are itself and at most one historical one, by the name or the ordinal that it ends in behind its last number sign, in any case and with dashes for underscores |
| ScopeLaw.TailExactly | ai_org/patch_series_bodies.py:1253-1288 | the revision, lineage, escalation and retained ids that are read are exactly those the ledger gives |
| ScopeLaw.EscalationExactly | ai_org/patch_series_bodies.py:1326-1366 | an escalation is taken exactly when it is empty or gives round, branch and commit, with a record path that is absent, null or that of the round |
| ScopeLaw.RecordPathExactly | ai_org/patch_series_bodies.py:1352-1357 | the record path of a round has its ordinal in four digits, or as many as it needs without a leading zero |
| PyDigits.IntOfNatText | ai_org/patch_series_bodies.py:1317-1318 | int undoes str on every ordinal |
| TokenIndex.IndexIsAlwaysRebuilt | ai_org/engineering_precedent_store.py:3405-3507 | after any sequence of opens, writes and rule versions, forward or back, the index is the one rebuilt from all stored terms |
| TokenIndex.EnsuredIsRebuilt | ai_org/engineering_precedent_store.py:3405-3491 | opening a store leaves exactly the rebuilt index, whatever version stamped it |
| TokenIndex.Store.Ensure | ai_org/engineering_precedent_store.py:3405-3442 | opening drops a stale table, fills in every key that is missing and stamps the version |
| TokenIndex.Store.Write | ai_org/engineering_precedent_store.py:2914-2955 | a write opens the store under the writer's rules and adds the row and its tokens |
| TokenIndex.Store.IndexTerm | ai_org/engineering_precedent_store.py:3494-3507 | the loop adds exactly the exact and family rows of the term |
| TokenIndex.FamilyToken | ai_org/engineering_precedent_store.py:772-790 | the scan strips the first suffix whose stem is long enough, and a short stem does not stop it |
| TokenIndex.SameTokensFindTheKey | ai_org/engineering_precedent_store.py:793-864 | a query with the tokens of a stored term, in any word order, matches all of them exactly and passes both floors |
| TokenIndex.SameTokensRankFirst | ai_org/engineering_precedent_store.py:844-864 | nothing ranks above that key unless it matches as many tokens, as exactly |
| TokenIndex.CandidateKeys | ai_org/engineering_precedent_store.py:793-864 | the query returns exactly the eligible keys, each once, by matched fraction, exact count and key |
| TokenIndex.Gather | ai_org/engineering_precedent_store.py:811-842 | the row loop gathers for every key its matched, exactly matched and stored tokens, in whatever order the rows come |
| TokenQuery.EligibleExactly | ai_org/engineering_precedent_store.py:793-864 | a stored key is a candidate exactly when at least three fifths of the query's tokens are akin to its own and, where it has fewer, three fifths of them to the query's; told over the stored terms, without the index |
| TokenQuery.MatchedExactly | ai_org/engineering_precedent_store.py:811-842 | a query token is matched exactly when a stored token of the key is the same, its stem, its stem's origin or of its family |
| TokenQuery.ExactExactly | ai_org/engineering_precedent_store.py:835-842 | it is matched exactly when it is itself a stored token |
| TokenQuery.StoredMatchedExactly | ai_org/engineering_precedent_store.py:832-834 | a stored token counts as matched exactly when a query token is akin to it |
| TokenQuery.TotalExactly | ai_org/engineering_precedent_store.py:845-850 | the stored total is the number of distinct tokens of the key's terms |
| RateLimiter.NoWindowExceedsLimit | ai_org/engineering_precedent_store.py:2148-2236 | however requests interleave, no 60-second window holds more grants than the limit |
| RateLimiter.GrantedExactly | ai_org/engineering_precedent_store.py:2157-2172 | a request is granted exactly when fewer than the limit were granted in the minute before it |
| RateLimiter.WaitingSuffices | ai_org/engineering_precedent_store.py:2139-2172 | a refusal asks for a positive wait of at most the window, and waiting it out with no competitor is enough |
| RateLimiter.GitHubSearchLedger.Reserve | ai_org/engineering_precedent_store.py:2148-2172 | the ledger filter decides as the shared rule and keeps the recent grants |
| RateLimiter.WebSearchLimiter.TryAcquire | ai_org/engineering_precedent_store.py:2221-2236 | popping stale timestamps from the front decides as the same rule |
| RateLimiter.KeptAreRecentGrants | ai_org/engineering_precedent_store.py:2148-2172 | what is kept is exactly the grants of the last window |
| Subsystem.AcceptanceKeepsMainline | ai_org/subsystem.py:56-95 | acceptance never moves mainline, however it ends, unless one of its two branches is mainline |
| Subsystem.AcceptingMainlineMovesIt | ai_org/subsystem.py:65-70 | when the contributor's branch is mainline, every acceptance that marks it moves it |
| Subsystem.AcceptingIntoMainlineMovesIt | ai_org/subsystem.py:75-95 | when the default branch is mainline, a complete acceptance makes mainline the new subsystem tip, which holds the old mainline and the marker, and a cut-short one leaves it |
| Subsystem.AcceptedMeansInherited | ai_org/subsystem.py:75-95 | a complete acceptance leaves DEFAULT at the new subsystem tip, a merge of the old tip and the marker |
| Subsystem.MainlineMovesByMerge | ai_org/subsystem.py:160-219 | a recorded hand-off moves mainline by one merge of the old mainline, or the base, and the subsystem tip; nothing else moves an existing mainline |
| Subsystem.OneRecordPerSeries | ai_org/subsystem.py:134-219 | over any run of acceptances of any branches, hand-offs and contributors' work between them, each series has at most one record on mainline |
| Subsystem.RecordCommit | ai_org/subsystem.py:312-322 | the walk finds the newest record on the first-parent chain exactly when there is one |
| Subsystem.BaseBefore | ai_org/subsystem.py:325-347 | the walk returns the newest first-parent ancestor with an acceptance merge of every leaf above it, and nothing when there is none |
| Subsystem.NewestBaseExactly | ai_org/subsystem.py:325-347 | a place on the chain has every leaf accepted above it exactly when it is no newer than that base |
| Subsystem.BaseExistsExactly | ai_org/subsystem.py:325-347 | there is a base exactly when there are leaves and the whole chain accepts every one |
| Subsystem.Maintainer.AcceptLeaf | ai_org/subsystem.py:56-95 | marking, branching, merging and forwarding in order leave the branches as the acceptance step says, and which of the six endings it has follows from the branches there are and the commands that fail |
| Subsystem.Maintainer.HandOff | ai_org/subsystem.py:134-219 | the checks and the merge in order leave the branches as the hand-off step says, and each of the six results is given exactly under its own condition |
| SubsystemProgress.ForwardsExactly | ai_org/subsystem.py:75-95 | an acceptance that has merged can forward the default branch if and only if the subsystem or the contribution holds that branch's commit |
| SubsystemProgress.AcceptanceNeverStrands | ai_org/subsystem.py:56-95 | over any run of acceptances, cut short wherever commands fail, hand-offs and work, the next acceptance that no command fails completes |
| SubsystemProgress.HandOffStartsBelowTheSeries | ai_org/subsystem.py:178-219 | where the series' leaves were accepted one above another and there is no mainline, the hand-off starts it at the commit that the subsystem stood at before the first of them |
| SubsystemProgress.BaseIsOne | ai_org/subsystem.py:325-347 | there is at most one such base |
| SubsystemProgress.RecordedIsFound | ai_org/subsystem.py:200-219 | what a hand-off records is what the walk down mainline finds under its subject |
| SubsystemProgress.HandOffIsIdempotent | ai_org/subsystem.py:134-158 | a series that has been handed off is current from then on: handing it off again finds that record and changes nothing, whether or not its branch is still there |
| NetworkCohort.ReaderAgreesWithWriterExactly | ai_org/network_bodies.py:514-671 | of any tree that the reader grounds, the writer's shape and pairwise checks accept the declared cohort if and only if every declared node path is spelled as its directory |
| NetworkCohort.DoubledSlashIsReadOnly | ai_org/network_bodies.py:99-118 | a tree whose one child spells its path "sub//x" is grounded by the reader and refused by the writer |
| NetworkCohort.DirIsNormal | ai_org/network_bodies.py:99-118 | a directory spelled by path normalization is spelled the same when normalized again |
| NetworkCohort.WriterAgreesWithReaderExactly | ai_org/network_bodies.py:227-392 | the reader accepts what the writer accepted exactly when every declared child has its manifest, every approach its lineage, and no stale child is ahead of its root view |
| NetworkCohort.SelectedChildIsGrounded | ai_org/network_bodies.py:499-511 | a reader that selects a child gets the grounded manifest of its key, and the writer's checks of that directory hold of it |
| NetworkCohort.KeyedChildrenLoop | ai_org/network_bodies.py:402-413 | the loop keys every child by its own distinct key and nothing else, and refuses exactly children without a string key or with a shared one |
| CohortLaw.RootsExactly | ai_org/network_bodies.py:280-309 | root, ledger and rollup agree exactly when their children lists do: keys apart, equal views, no row without a root child, the same rollup |
| CohortLaw.WriterExactly | ai_org/network_bodies.py:227-392 | the writer's checks pass exactly on lawful publications, told field by field over the lists |
| CohortLaw.ReaderExactly | ai_org/network_bodies.py:514-671 | the reader's checks pass exactly on trees in which every declared child is grounded, told the same way |
| CohortLaw.DirExactly | ai_org/network_bodies.py:99-118 | for the pieces of any path, its directory is the pieces that are neither empty nor a dot, or the dot where none is left, and an absolute path has none |
| SvgBounds.TreeBoxEncloses | ai_org/graphicist.py:1143-1167 | the computed box encloses the image, under all nested transforms, of every point of every rectangle, circle, ellipse, line and polygon drawn |
| SvgBounds.TreeBoxIsLeast | ai_org/graphicist.py:1143-1167 | the computed box is the least one over the transformed corners of all drawn shapes |
| SvgBounds.ElementBox | ai_org/graphicist.py:1143-1167 | the recursion over children computes that box and records the boxes of elements with ids, children before parents |
| SvgBounds.ProductComposes | ai_org/graphicist.py:1289-1302 | the matrix product applies the right factor first and then the left (SVG 1.1 section 7.6) |
| SvgBounds.ParseTransform | ai_org/graphicist.py:1266-1282 | the folded matrix sends every point where applying the listed transforms in order does |
| SvgBounds.TransformedBoxEncloses | ai_org/graphicist.py:1243-1263 | the transformed box encloses the image of every point of the box |
| SvgBounds.ShapeIsInItsBox | ai_org/graphicist.py:1170-1201 | every point a shape covers is in its own box |
| SvgBounds.ShapeBoxIsLeast | ai_org/graphicist.py:1170-1201 | and its box is the least one around them |
| SvgBounds.ShapeBoxExactly | ai_org/graphicist.py:1170-1201 | a shape has a box exactly when it covers anything |
| SvgBounds.OperationActs | ai_org/graphicist.py:1266-1282 | what matrix, translate and scale do to a point, with one number or more, and when they are passed over |
| SvgBounds.IdsExactly | ai_org/graphicist.py:1143-1167 | a drawn element with an id has its own box under it, whatever its children wrote, and an id that nothing carries keeps what it had |

## Left out

- Free-text messages of diagnostics and errors: a StreamFailure is its code and location, a diagnostic its code, line and rule, and a scope refusal one code a check.
- SHA-256, Unicode normalisation and case folding, SQLite, file locks and clocks: the digest of the old stream is not part of this model, the tokenizer is a parameter, an index row set stands for a table, a locked section is one step and time is a nondecreasing integer.
- Body codec process and CUE contracts: preparing and parsing a stream body are two parameters that need not be inverse; a publication is refused where they disagree.
- The bounded head-and-tail capture of the body codec process output is left out with that process.
- The registry that a tree's root manifest declares: a function of the tree, given as a parameter of the publication.
- Python's own limits: the digit limit of int and str conversions, the interpreter's recursion limit, cyclic values, keys that are no strings and str (not bytes) input of the strict reader.
- Deletion of the list ref or of a branch by other tools, and refs moved outside the modelled calls.
- The NUL byte in a message, which Git refuses, and author dates: no property depends on them.
- MailList.OneQaPostPerItem: starts from a list on which no qa post follows one that blocks its item, as every list that `post` has built from its genesis is.
- Session matching and the text rules of the rollout scan: which commands are checks, which cell an output leaves running and which lines are outcomes are parameters of `Rollout`, and narration is not part of this model.
- ScopeDecomposition.HistoricalScopeId: lower-casing is ASCII, which is all that the comparisons can tell, and the digits are those of Unicode 14.
- Root-generation classification, launch, review and hand-off prompts, and all carrier calls.
- SVG path data and rotate or skew: the code does not treat them geometrically, so no enclosure is claimed; hidden elements such as defs draw nothing. Attribute text becomes real numbers before the model starts, and rounding is left out.
- RateLimiter.NoWindowExceedsLimit: takes a fixed limit and timestamps in whole microseconds; changing the limit between requests is not modelled.
- Subsystem.OneRecordPerSeries: takes branches and series whose names are one line, and no commits made to mainline, the subsystem or the default branch outside the two boundaries.
- Classification of network paths by file name: bodies come already classified by role and normalized directory, one a coordinate; absolute paths, which no tree holds and the child schema refuses, are in no publication.
- The gate that says all leaves of a series are resolved, and which Git commands fail, a merge conflict among them, are inputs of the acceptance and the hand-off.

# Verified models of the Tortä core

This project models the parts of Yeah! Tortä whose correctness is hardest to see, and proves what they
promise. Everything is plain Dafny; `dafny verify dfyconfig.toml` checks the whole project.

What is modelled, one module per concern:

| files | component |
|---|---|
| `Trie`, `Names`, `Digest`, `Blocklist`, `Install`, `Artifact`, `LineCompiler`, `CompiledLists` | the blocklist: a reversed-label trie with subsumption pruning, its order-free fingerprint, provenance masks, the streaming text compiler, stacking of lists, and the binary artifact |
| `DnsName`, `DnsMessage`, `DnsBuild`, `DnsFilter`, `DnsCases` | the DNS wire codec: compressed names, the record walk, the answer validator, synthesised answers, and the answer-section filter |
| `Licence`, `LicenceRuns`, `LicenceLaws`, `Quarantine` | the licence ledger: bleeding, probation, healing, sequestration, retest and manual pins |
| `Egress` | the IPv6 egress latch and its probe cadence |
| `StartTable` | the range compilers behind the AS-name and country tables, and the search over them |
| `Discovery`, `Sightings` | the discovery ledger and its published roster, across restarts |
| `Glob` | the backtracking `*` matcher |
| `Sequences`, `Bytes`, `Utf8`, `Totals` | shared vocabulary |

Code that updates state is a class or a method proved against a specification function (`Matcher`,
`Installed`, `Store`, `EgressLatch`, `RangeMap`, `Ledger`, and the loops over bytes, labels, records and
lines). Whole-run statements are lemmas about those functions, for every sequence of events.

## Where the code and its documentation part

The model follows the code. Each point below is proved: the behaviour that was not to be expected, and the
condition under which the expected one holds.

- Folding label by label is said to equal folding the whole name (`blocklist.rs:385-387`). It does not for a
  capital sigma before a dot. `Names.WalksAgreeIff` gives the condition, `Blocklist.BlockedExactly` what it means
  for verdicts: exactly the names that fail it are missed by some list. `Blocklist.SigmaNameNotBlocked` is one.
- Normalising is not idempotent: white space can be left next to a dropped dot (`Names.NormalizeTwiceIff`). A
  merge or an artifact replays stored names through normalisation, so it can block what neither list blocked
  (`Install.MergeCanMisread`). Names that come from text never contain white space, so stacking compiled lists
  is exact (`CompiledLists.StackIsOneFile`).
- Some capitals grow when lowered. A text list can hold a name whose stored form is over 253 bytes; its
  artifact is then refused (`CompiledLists.WideNameIsRefused`). `CompiledLists.CompiledRoundTrip` is the exact
  condition.
- Decoding an artifact is said to check that the bytes describe the set they claim to (`blocklist.rs:307-312`).
  Bytes after the last announced record are ignored (`Artifact.AcceptedExactly`).
- An adblock caret is dropped only at the end of the line, so it stays in the name when a comment follows
  (`LineCompiler.CaretBeforeComment`).
- Synthesised answers echo the query's truncation bit, and their count wraps at 65536 addresses
  (`DnsBuild.Denials`, `DnsBuild.AddressResponse`). A question that points to or past its own end makes them
  unparseable (`DnsBuild.CutQuestionFails`, `DnsBuild.CutQuestionHappens`).
- The filter re-encodes owner names, which drops empty labels (`DnsFilter.OwnerNameKept`), and moves the
  sections behind the answers, which a pointer into the answers does not survive
  (`DnsFilter.PointerIntoAnswersBreaks`, `DnsCases.StrayPointerBreaks`).
- A kept answer's data is copied verbatim, on the argument that nothing kept points at what was dropped
  (`dns.rs:345-350`). A CNAME or MX target compressed against another answer does. `DnsCases.TargetChanges` is an
  accepted response whose kept CNAME target turns from `a.b` into `a`, in a response that is accepted as well.
  Targets spelled in place or pointing into the question are safe (`DnsFilter.AnswerDataNames`).
- A pin neither starts nor stops the quarantine clock. A host condemned by hand and then handed back is bitten for
  good exactly when it carries no clock from an earlier sequestration; with one, it is retested by that clock
  (`Quarantine.ClearedPinIsPermanentIff`, `Quarantine.ClearedPinRetests`).
- Above 256 promoted hosts the live roster follows the ranking only when something is published
  (`Discovery.RosterLagsExactly`, `Discovery.LagIsReachable`).

## Model

| member | source | states |
|---|---|---|
| `Names.InsertPathIsLabels` | rust/torta_core/src/blocklist.rs:373-380 | the path an insert walks is the normalised name's labels, top-level first, each non-empty and dot-free; it is empty exactly when normalising leaves nothing |
| `Names.NameOfInjective` | rust/torta_core/src/blocklist.rs:95-108 | distinct stored paths have distinct dotted names |
| `Names.FoldsAgreeIff` | rust/torta_core/src/blocklist.rs:382-402 | lowering a name label by label equals lowering it whole if and only if every capital sigma is word-final in its label exactly when it is in the name |
| `Names.WalksAgreeIff` | rust/torta_core/src/blocklist.rs:382-402 | the lookup walks the path the insert stored if and only if the trimmed name is sigma-safe |
| `Names.SigmaNameIsLost` | rust/torta_core/src/blocklist.rs:385-387 | a four-character name whose lookup path differs from its stored path |
| `Names.SigmaFolds` | rust/torta_core/src/blocklist.rs:373-380 | a capital sigma folds to the final form exactly when a cased character stands before it and none after it, case-ignorable ones skipped; else to the ordinary small sigma |
| `Names.CaseDoesNotMatter` | rust/torta_core/src/blocklist.rs:373-402 | names that differ only in ASCII case are stored under the same path and looked up along the same path |
| `Names.LowerAsciiIsItself` | rust/torta_core/src/blocklist.rs:373-402 | a lower-case ASCII name without white space or empty labels is stored and looked up as its own labels |
| `Names.NormalizeTwiceIff` | rust/torta_core/src/blocklist.rs:373-380 | normalising twice equals normalising once if and only if, in the trimmed input, the first non-empty label does not start with white space and the last does not end with any |
| `Names.SelfNormalIff` | rust/torta_core/src/blocklist.rs:373-380 | a name's stored path is read back from its own dotted form under exactly that condition on the input |
| `Names.SpacelessIsSelfNormal` | rust/torta_core/src/blocklist.rs:373-380 | every name without white space is read back from its stored name |
| `Names.SpaceBeforeDot` | rust/torta_core/src/blocklist.rs:373-380 | a name stored under one path and read back under another |
| `Names.PrefixIsZone` | rust/torta_core/src/blocklist.rs:229-246 | a prefix of a path is the name itself or a parent zone of it |
| `Names.ZoneIsPrefix` | rust/torta_core/src/blocklist.rs:229-246 | conversely, a parent zone's path is a prefix |
| `Trie.InsertAbsorbs` | rust/torta_core/src/blocklist.rs:154-171 | one insertion changes the set of terminals to: the same if the path is covered, else the path in place of all it covers |
| `Trie.InsertCanonical` | rust/torta_core/src/blocklist.rs:154-205 | insertion keeps the trie canonical: terminals childless, every leaf terminal, no mask on a non-terminal |
| `Trie.BuildIsMinimal` | rust/torta_core/src/blocklist.rs:154-205 | after any insertions the terminals are exactly the inserted paths with no inserted proper prefix |
| `Trie.TerminalsDetermine` | rust/torta_core/src/blocklist.rs:78-135 | canonical tries with the same terminals are the same trie, masks aside |
| `Trie.SameBlockingSameTrie` | rust/torta_core/src/blocklist.rs:154-171 | call sequences that cover the same paths build the same trie |
| `Trie.MaskIsCorroboration` | rust/torta_core/src/blocklist.rs:173-205 | each terminal's mask is the OR of the masks of all calls at or beneath it from the call that made it terminal onward |
| `Trie.UncoveredMask` | rust/torta_core/src/blocklist.rs:252-273 | a path that is not covered has no source bit |
| `Trie.EraseInsert` | rust/torta_core/src/blocklist.rs:173-205 | erasing masks commutes with a tagged insertion |
| `Trie.EraseBuild` | rust/torta_core/src/blocklist.rs:173-205 | tagged and untagged insertion build the same trie once masks are erased |
| `Digest.ComputeFnv1a` | rust/torta_core/src/blocklist.rs:404-412 | the hashing loop computes 64-bit FNV-1a of the name's bytes, with wrap-around |
| `Digest.KnownHashes` | rust/torta_core/src/blocklist.rs:404-412 | it gives the published values for the empty string and for "a" |
| `Digest.XorListIsSet` | rust/torta_core/src/blocklist.rs:209-218 | the running XOR over distinct names is a function of their set |
| `Digest.Summarize` | rust/torta_core/src/blocklist.rs:209-218 | counting and folding in visiting order |
| `Blocklist.WalkTerminals` | rust/torta_core/src/blocklist.rs:95-108 | whatever order children are visited in, the walk lists every terminal's name once and nothing else |
| `Blocklist.Descend` | rust/torta_core/src/blocklist.rs:159-170 | the descent creates what is missing, stops at a terminal on the way, and prunes below the last label: it is the trie's insertion |
| `Blocklist.Matcher.Insert` | rust/torta_core/src/blocklist.rs:154-171 | the terminals become the old ones with the normalised name absorbed; an empty name changes nothing |
| `Blocklist.Matcher.InsertWithSource` | rust/torta_core/src/blocklist.rs:186-205 | the same with a source mask, which the covering terminal takes |
| `Blocklist.Matcher.Finalize` | rust/torta_core/src/blocklist.rs:209-218 | count and fingerprint become those of the canonical set |
| `Blocklist.Matcher.IsBlocked` | rust/torta_core/src/blocklist.rs:229-246 | true if and only if some terminal is a prefix of the walked path |
| `Blocklist.FirstTerminal` | rust/torta_core/src/blocklist.rs:229-246 | the walk over any labels stops with a verdict that is coverage by a terminal, both ways |
| `Blocklist.Matcher.SourceMask` | rust/torta_core/src/blocklist.rs:252-273 | the mask of the covering terminal, or none |
| `Blocklist.FirstMask` | rust/torta_core/src/blocklist.rs:252-273 | the mask found walking any labels is that of the covering terminal |
| `Blocklist.LoadIsMinimal` | rust/torta_core/src/blocklist.rs:154-205 | after inserting any names the terminals are exactly the normalised names with no inserted proper parent zone |
| `Blocklist.BlockedExactly` | rust/torta_core/src/blocklist.rs:229-246 | "blocked if and only if some inserted name equals it or is a parent zone of it, after normalisation" holds of a name for every list if and only if the trimmed name is sigma-safe |
| `Blocklist.LostWhenUnsafe` | rust/torta_core/src/blocklist.rs:229-246 | every name that is not sigma-safe is missed by its own lookup after it alone was inserted |
| `Blocklist.SigmaNameNotBlocked` | rust/torta_core/src/blocklist.rs:389-402 | an inserted name that its own lookup misses |
| `Blocklist.CaseChangesNothing` | rust/torta_core/src/blocklist.rs:229-246 | the case of ASCII letters changes neither the list built nor any verdict |
| `Blocklist.AsciiBlockedExactly` | rust/torta_core/src/blocklist.rs:229-246 | for ASCII names in any case: blocked if and only if some inserted name is, up to case, the name asked for or what follows one of its dots to the end |
| `Blocklist.SameBlockingSameMatcher` | rust/torta_core/src/blocklist.rs:209-218 | lists that block the same names have the same trie, set and fingerprint |
| `Blocklist.OrderIrrelevant` | rust/torta_core/src/blocklist.rs:16-18 | reordering and repeating names changes neither trie nor fingerprint |
| `Blocklist.LoadMasks` | rust/torta_core/src/blocklist.rs:252-273 | a loaded terminal's mask is its corroboration, and a name with a source bit is blocked |
| `Install.Installed.InstallCompiled` | rust/torta_core/src/blocklist.rs:556-568 | installs the new list, or merges it: the terminals become the minimal ones of the old set and the replayed names; the reported count and fingerprint are the active ones |
| `Install.MergeExactly` | rust/torta_core/src/blocklist.rs:556-568 | the merged verdict is the OR of the two verdicts on every path if and only if each replayed terminal neither loses nor gains coverage |
| `Install.MergeIsOr` | rust/torta_core/src/blocklist.rs:556-568 | when stored names read back as themselves the merge is the OR, and merging either way gives the same set |
| `Install.MergeCanMisread` | rust/torta_core/src/blocklist.rs:556-568 | a merge that blocks a name neither list blocked |
| `LineCompiler.ParsedIsClean` | rust/torta_core/src/blocklist.rs:416-452 | whatever the notation, a parsed name has a dot, at most 253 bytes and 126 dots, no white space, wildcard, slash or comment sign, and is not shaped like an address |
| `LineCompiler.BlockableMeans` | rust/torta_core/src/blocklist.rs:435-451 | the test on labels is, character by character: a dot, no wildcard, no slash, the two bounds, and not digits with single dots between them |
| `LineCompiler.NotationsAgree` | rust/torta_core/src/blocklist.rs:416-452 | a plain name compiles to itself from every mix of indentation, adblock bars and caret, and leading wildcard |
| `LineCompiler.PlainLineExactly` | rust/torta_core/src/blocklist.rs:416-452 | a plain name in any of these notations is taken exactly under those conditions; else the line yields nothing |
| `LineCompiler.HostsLineAgrees` | rust/torta_core/src/blocklist.rs:422-426 | so does a hosts-file line that sinks it |
| `LineCompiler.CommentLine` | rust/torta_core/src/blocklist.rs:417-420 | a line that starts with a comment mark after any indentation yields nothing |
| `LineCompiler.TrailingTextDropped` | rust/torta_core/src/blocklist.rs:422-431 | text after the first word is dropped when the word is not an address column |
| `LineCompiler.InlineComment` | rust/torta_core/src/blocklist.rs:430-431 | a comment sign inside the word ends it |
| `LineCompiler.RepeatedMarks` | rust/torta_core/src/blocklist.rs:427-428 | the adblock marks come off however often they are repeated |
| `LineCompiler.WildcardsRefused` | rust/torta_core/src/blocklist.rs:432-437 | a leading wildcard label comes off once; any other wildcard refuses the line |
| `LineCompiler.CaretBeforeComment` | rust/torta_core/src/blocklist.rs:427-431 | text after an adblock entry is dropped, but the caret in front of it is kept |
| `LineCompiler.FeedByte` | rust/torta_core/src/blocklist.rs:475-489 | one byte advances the loaded lines and the line in progress; the buffer never exceeds 8192 bytes |
| `LineCompiler.OneLineText` | rust/torta_core/src/blocklist.rs:475-505 | a text of one line is read as that line up to 8192 bytes and skipped whole beyond |
| `LineCompiler.ReadsStop` | rust/torta_core/src/blocklist.rs:466-474 | reading takes every part up to the first empty or failed read and nothing after it |
| `LineCompiler.CompileReader` | rust/torta_core/src/blocklist.rs:462-497 | however the input is cut into reads, the matcher is the one loaded from its newline-separated lines of at most 8192 bytes, finalized |
| `LineCompiler.LinesAreIndependent` | rust/torta_core/src/blocklist.rs:475-493 | text before a newline and text after it contribute separately |
| `CompiledLists.CompiledIsSelfNormal` | rust/torta_core/src/blocklist.rs:416-506 | every name of a compiled matcher reads back as itself |
| `CompiledLists.MergeIsConcat` | rust/torta_core/src/blocklist.rs:556-568 | merging two compiled lists gives the set of the two texts compiled as one file |
| `CompiledLists.StackIsOneFile` | rust/torta_core/src/blocklist.rs:556-568 | after any run of installs and merges the active set is that of one file: the texts since the last replacement |
| `CompiledLists.InstallAll` | rust/torta_core/src/blocklist.rs:556-568 | carrying out any run of compilations and installations leaves those terminals active |
| `CompiledLists.CompiledRoundTrip` | rust/torta_core/src/blocklist.rs:284-367 | a compiled list's artifact is accepted, with the same set and trie, if and only if every stored name fits in 253 bytes; always when no name widens |
| `CompiledLists.WideNameCompiles` | rust/torta_core/src/blocklist.rs:440-443 | a name of up to 125 widening capitals is accepted by the compiler |
| `CompiledLists.WideNameIsStored` | rust/torta_core/src/blocklist.rs:373-380 | it is stored as their longer small letters |
| `CompiledLists.WideNameIsRefused` | rust/torta_core/src/blocklist.rs:336-345 | from 84 of them on, every artifact listing the stored name is refused |
| `Artifact.ToArtifact` | rust/torta_core/src/blocklist.rs:284-305 | writes the header and the sorted listing of the blocked set |
| `Artifact.FromArtifact` | rust/torta_core/src/blocklist.rs:313-367 | succeeds exactly on accepted bytes, with a finalized matcher whose fingerprint is the header's |
| `Artifact.ReadBackRecords` | rust/torta_core/src/blocklist.rs:330-355 | written records are read back exactly, unless one is over 253 bytes, which spoils them all |
| `Artifact.RoundTrip` | rust/torta_core/src/blocklist.rs:284-367 | for self-normalising names and fewer than 2^32 of them: accepted if and only if every name fits in 253 bytes, and then the same set and trie |
| `Artifact.AcceptedExactly` | rust/torta_core/src/blocklist.rs:313-367 | bytes are accepted, as a given trie, if and only if they are the header and records of some list of names of at most 253 bytes that builds it, with its fingerprint, followed by anything at all |
| `Artifact.HeaderLayout` | rust/torta_core/src/blocklist.rs:291-297 | the header byte by byte, its numbers least significant byte first |
| `Artifact.ArtifactIsCanonical` | rust/torta_core/src/blocklist.rs:284-305 | equal blocked sets give identical bytes |
| `Utf8.DecodeEncode` | rust/torta_core/src/blocklist.rs:499-505 | every string is decoded from its UTF-8 bytes |
| `Utf8.EncodeDecode` | rust/torta_core/src/blocklist.rs:346-349 | bytes that decode at all are the encoding of what they decode to |
| `DnsName.Read` | rust/torta_core/src/dns.rs:33-79 | the reading loop ends on every buffer, by jumps left and then bytes left, with the outcome of the recursive specification |
| `DnsName.ReadNameBounds` | rust/torta_core/src/dns.rs:33-79 | a name read ends after its start and inside the buffer; an ASCII name has at most 255 bytes and is in lower case |
| `DnsName.ReadNameShort` | rust/torta_core/src/dns.rs:56-70 | however compressed, an ASCII name splits into labels of at most 63 bytes |
| `DnsName.LowerForgetsCase` | rust/torta_core/src/dns.rs:77 | two names fold alike if and only if they differ at most in ASCII case |
| `DnsName.LowerFixesIff` | rust/torta_core/src/dns.rs:77 | folding leaves exactly the names without an ASCII capital as they are |
| `DnsName.LengthMeans` | rust/torta_core/src/dns.rs:41-63 | a first byte of 1 to 63 announces that many bytes of label, 64 to 191 announce nothing |
| `DnsName.PointerMeans` | rust/torta_core/src/dns.rs:46-58 | the two bytes of a pointer are read as its 14-bit offset, if that lies in the buffer |
| `DnsName.SixteenPointers` | rust/torta_core/src/dns.rs:52-56 | a chain of pointers is followed exactly up to sixteen of them |
| `DnsName.LoopIsNoName` | rust/torta_core/src/dns.rs:52-56 | a pointer to itself is no name |
| `DnsName.PlainReadableIff` | rust/torta_core/src/dns.rs:66-71 | a name spelled in place is readable exactly when it is at most 255 bytes long, dots included |
| `DnsName.WriteName` | rust/torta_core/src/dns.rs:368-379 | the writing loop appends the uncompressed form |
| `DnsName.ReadWritten` | rust/torta_core/src/dns.rs:368-379 | a name written anywhere in a buffer is read back as its labels, empty ones dropped and long ones cut, unless that is over 255 bytes |
| `DnsName.SentExactly` | rust/torta_core/src/dns.rs:368-379 | with labels of at most 63 bytes, the name read back is the name written if and only if it has no empty label |
| `DnsName.PlainStands` | rust/torta_core/src/dns.rs:40-71 | a name without a pointer stands wherever its bytes are copied |
| `DnsName.LocalMoves` | rust/torta_core/src/dns.rs:40-79 | a name spelled in place up to a pointer into a kept stretch reads the same after a move |
| `DnsMessage.BuildQuery` | rust/torta_core/src/dns.rs:114-133 | builds the query's wire form |
| `DnsMessage.QueryParses` | rust/torta_core/src/dns.rs:81-133 | what a built query parses to, for every name: the labels sent, in lower case, or nothing if they are too long |
| `DnsMessage.QueryRoundTrip` | rust/torta_core/src/dns.rs:81-133 | parsing a built query gives back id, name, type and class if and only if the name is lower case, has no empty label, labels of at most 63 bytes and at most 255 bytes in all |
| `DnsMessage.QueryHeader` | rust/torta_core/src/dns.rs:114-133 | a built query desires recursion and nothing else, asks one question and carries no records |
| `DnsMessage.QuestionsMatchIff` | rust/torta_core/src/dns.rs:713-717 | two built queries ask the same name if and only if the names sent differ at most in ASCII case |
| `DnsMessage.ReadRecord` | rust/torta_core/src/dns.rs:540-563 | one record is found or refused as specified, never outside the buffer |
| `DnsMessage.SkimRecords` | rust/torta_core/src/dns.rs:536-566 | the record loop computes the recursive walk |
| `DnsMessage.ValidateResponse` | rust/torta_core/src/dns.rs:686-742 | the validator's early returns and its own walk over the three sections compute the verdict |
| `DnsMessage.ReadAnswers` | rust/torta_core/src/dns.rs:571-597 | the answer accessor's own walk yields the answers of a complete response, nothing otherwise |
| `DnsMessage.ReadAuthority` | rust/torta_core/src/dns.rs:613-634 | the authority accessor's own walk likewise |
| `DnsMessage.ConsumersAgree` | rust/torta_core/src/dns.rs:571-742 | those three walks agree: a response is accepted for a query if and only if its header and question answer it and the accessors, which succeed together, yield records |
| `DnsMessage.ReasonIsFirstFailure` | rust/torta_core/src/dns.rs:686-742 | the verdict is that of the first of the nine checks that fails, in their order |
| `DnsMessage.NothingAsked` | rust/torta_core/src/dns.rs:81-89 | a message without a whole header, or announcing no question, is refused on either side |
| `DnsMessage.CountsAnnounced` | rust/torta_core/src/dns.rs:571-634 | they yield as many records as the header announces |
| `DnsMessage.QuestionKept` | rust/torta_core/src/dns.rs:81-105 | a pointer-free question is parsed alike from any message that carries the same question bytes and id |
| `DnsMessage.FixedLayout` | rust/torta_core/src/dns.rs:540-552 | type, class, time to live and length in this order, most significant byte first |
| `DnsBuild.BuildCanvas` | rust/torta_core/src/dns.rs:233-248 | the step-by-step echo is the canvas: QR and RA set, code in the low nibble, one question, no records |
| `DnsBuild.CanvasFields` | rust/torta_core/src/dns.rs:137-172 | the canvas is a response with the query's id, opcode, truncation and recursion bits, the recursion-available bit set, the given code, and empty sections |
| `DnsBuild.Denials` | rust/torta_core/src/dns.rs:137-172 | for a pointer-free question, the non-existence answer carries code 3 and is accepted exactly when the query's truncation bit is clear; the server failure carries code 2 and never is |
| `DnsBuild.CutQuestionFails` | rust/torta_core/src/dns.rs:137-141 | a question whose labels stop at a pointer to or past its end makes the echoed response unparseable |
| `DnsBuild.CutQuestionHappens` | rust/torta_core/src/dns.rs:137-141 | a 19-byte query of that kind |
| `DnsBuild.BuildAddressResponse` | rust/torta_core/src/dns.rs:267-274 | the loop builds canvas, answers and count |
| `DnsBuild.BuildSinkholeResponse` | rust/torta_core/src/dns.rs:255-260 | the sinkhole is the one-address response with a zero time to live |
| `DnsBuild.AddressResponse` | rust/torta_core/src/dns.rs:208-274 | for a pointer-free question: rejected as truncated if the query's bit is set, else accepted exactly when there are fewer than 65536 addresses; then the answers are those addresses in order and there is no authority |
| `DnsBuild.AddressReadBack` | rust/torta_core/src/dns.rs:571-597 | each answer carries the asked name, class IN, type 1 with 4 bytes or type 28 with 16, the time to live and the address bytes |
| `DnsFilter.EmitKept` | rust/torta_core/src/dns.rs:336-357 | the loop appends exactly the kept records, rewritten, and counts them |
| `DnsFilter.FilterRr` | rust/torta_core/src/dns.rs:298-364 | computes the filter, with its refusals and its pass-through |
| `DnsFilter.FilterPreserves` | rust/torta_core/src/dns.rs:298-364 | for a complete response with a pointer-free question and movable owner names behind its answers: same question and flags, answers exactly the kept ones in order with the same fields and data bytes, other sections moved together |
| `DnsFilter.AnswersLeft` | rust/torta_core/src/dns.rs:319-357 | the answers left are the response's at increasing positions, and those are exactly the ones of another class, or of a type outside the drop list and, in a defanged ANY reply, one of 1, 28, 15 and 5 |
| `DnsFilter.FilterStaysAccepted` | rust/torta_core/src/dns.rs:298-364 | such a response accepted for a query stays accepted |
| `DnsFilter.OwnerNameKept` | rust/torta_core/src/dns.rs:368-379 | a kept answer keeps its ASCII owner name if and only if that name has no empty label |
| `DnsFilter.MovedRecordKept` | rust/torta_core/src/dns.rs:359-363 | a record behind the answers keeps its data |
| `DnsFilter.TailKept` | rust/torta_core/src/dns.rs:359-363 | record by record, the authority and additional sections have the same owner name, type, class, time to live and data |
| `DnsFilter.AnswerDataNames` | rust/torta_core/src/dns.rs:345-353 | a name inside a kept answer's data reads the same afterwards when it is spelled there or points into the question |
| `DnsFilter.AuthorityDataNames` | rust/torta_core/src/dns.rs:359-363 | so does a name inside an authority record's data |
| `DnsFilter.DataNameLost` | rust/torta_core/src/dns.rs:345-353 | one that points to or past the end of the filtered message can no longer be read |
| `DnsCases.TargetChanges` | rust/torta_core/src/dns.rs:345-353 | an accepted response whose kept CNAME target reads `a.b` before filtering and `a` after, still accepted |
| `DnsFilter.FilterTwice` | rust/torta_core/src/dns.rs:298-364 | filtering again is byte-identical, for every pointer-free question and ASCII owner names |
| `DnsFilter.PointerIntoAnswersBreaks` | rust/torta_core/src/dns.rs:359-363 | with every answer dropped, a first authority name whose pointer leads to or past the new end makes the response rejected |
| `DnsCases.StrayPointerBreaks` | rust/torta_core/src/dns.rs:359-363 | an accepted response that is rejected once its one answer is dropped |
| `Licence.Store.RecordScored` | rust/torta_core/src/underground.rs:1472-1535 | one accident's whole effect on the ledger, first witness, duplicate and immune cases included |
| `Licence.Store.SetVerdict` | rust/torta_core/src/underground.rs:1545-1591 | a pin's whole effect, on known and unknown hosts |
| `Licence.SettleRow` | rust/torta_core/src/underground.rs:1628-1660 | one row's retest or healing step, and the points it counts |
| `Licence.SettleRows` | rust/torta_core/src/underground.rs:1621-1662 | in whatever order rows are visited, every row is settled once and the healed total is the sum |
| `Licence.Store.SettleRecovery` | rust/torta_core/src/underground.rs:1621-1662 | the pass over the store |
| `Licence.Store.TeethGate` | rust/torta_core/src/underground.rs:1675-1698 | bites exactly condemned hosts and unpinned sequestrated ones, and counts the bite |
| `Licence.Store.FeedRow` | rust/torta_core/src/underground.rs:1707-1756 | ignores the engine's own denials, records what scores, and settles when the tick is due |
| `LicenceRuns.StepAt` | rust/torta_core/src/underground.rs:1472-1756 | hosts do not interfere: each row moves by the events that name it and by settle passes |
| `LicenceRuns.RunSound` | rust/torta_core/src/underground.rs:1331-1397 | in every run, pins included, points stay within the licence and a host is sequestrated exactly when drained |
| `LicenceRuns.Conservation` | rust/torta_core/src/underground.rs:1331-1662 | in every run from an empty store, missing points equal points bled plus points taken by pins less points recovered, and the accidents recorded equal the sum of hits |
| `LicenceRuns.ChargedOncePerSecond` | rust/torta_core/src/underground.rs:1423-1443 | under a clock that never runs back, a host's charges fall in different seconds |
| `LicenceRuns.HostBalance` | rust/torta_core/src/underground.rs:1472-1662 | between pins, one host's missing points move by its charges less its heals |
| `LicenceRuns.BiteMeansDrained` | rust/torta_core/src/underground.rs:1675-1698 | a never-pinned host is bitten if and only if its charges, all in different seconds, less its heals, equal its whole licence |
| `LicenceRuns.ImmuneNeverBleeds` | rust/torta_core/src/underground.rs:1427-1443 | mirror-served and vouched rows lose no point |
| `LicenceLaws.PinDecides` | rust/torta_core/src/underground.rs:1675-1698 | after a host is vouched for, no lookup of it is bitten or counted, and after it is condemned every one is, through any events without another pin of it |
| `LicenceLaws.WornDown` | rust/torta_core/src/underground.rs:1331-1397 | a series of accidents costs the weight of each that finds the licence above the probation floor and twice the weight of every later one, until it is drained |
| `LicenceLaws.HealedExactly` | rust/torta_core/src/underground.rs:1648-1660 | a settle pass gives a row one point back exactly when it is short of its licence, not active-destroy, and 30 seconds past both its last accident and its last heal |
| `LicenceLaws.HealsSpaced` | rust/torta_core/src/underground.rs:1648-1660 | however often passes run, a host's heals are 30 seconds apart |
| `LicenceLaws.IdleRecovers` | rust/torta_core/src/underground.rs:1648-1660 | an idle host gets one point back per such pass, up to its full licence |
| `LicenceLaws.LanesExactly` | rust/torta_core/src/underground.rs:167-173 | exactly the analytics, advertising, tracker, leak, sonar and content lanes heal when idle and are let go when their quarantine has run out |
| `LicenceLaws.PenaltyKeepsPins` | rust/torta_core/src/underground.rs:1331-1397 | on any row the penalty restores a vouched host, drains a condemned one and never sequestrates one the mirror owns |
| `LicenceLaws.TickExactly` | rust/torta_core/src/underground.rs:1743-1756 | a row settles the ledger exactly when it is not the engine's own denial and five seconds have passed since the last time |
| `LicenceLaws.FirstWitnessOwns` | rust/torta_core/src/underground.rs:1472-1535 | a row's lane, witness and first sighting are those of the accident that opened it, for good |
| `Quarantine.QuarantineHolds` | rust/torta_core/src/underground.rs:1628-1653 | an unpinned host in quarantine stays bitten until its time is served; an active-destroy host, or one without a start time, for good |
| `Quarantine.RetestRestores` | rust/torta_core/src/underground.rs:1628-1653 | with only denials of it arriving, the first settle pass at or after the end restores the full licence |
| `LicenceLaws.HammeringNeverWalks` | rust/torta_core/src/underground.rs:1628-1640 | a host whose fresh accidents keep coming less than a quarter of the quarantine apart is never let go |
| `Quarantine.SequestrationStartsClock` | rust/torta_core/src/underground.rs:1389-1397 | the accident that sequestrates stamps the clock and leaves the row quiet |
| `Quarantine.FreedExactly` | rust/torta_core/src/underground.rs:1628-1653 | a step frees an unpinned quarantined host if and only if it settles with the clock started and run out, the lane not active-destroy, and the recent window quiet |
| `Quarantine.ActiveDestroyNeverHeals` | rust/torta_core/src/underground.rs:167-173 | an active-destroy row never regains a point without a pin |
| `Quarantine.ClearedPinIsPermanentIff` | rust/torta_core/src/underground.rs:1545-1591 | a host condemned by hand and handed back is bitten in every run without another pin if and only if it was unknown, is active-destroy, or carries no quarantine start time |
| `Quarantine.ClearedPinRetests` | rust/torta_core/src/underground.rs:1628-1653 | with a start time, a settle pass frees it exactly from the end of that quarantine on, a quarter of it after the last pin |
| `Egress.EgressLatch.Record` | rust/torta_core/src/egress.rs:85-135 | one dial's whole effect on the five counters |
| `Egress.EgressLatch.ShouldAttempt` | rust/torta_core/src/egress.rs:175-199 | the attempt decision and its effect |
| `Egress.EgressLatch.ResetForNewNetwork` | rust/torta_core/src/egress.rs:202-208 | back to the fresh state |
| `Egress.VerdictIsOutcomes` | rust/torta_core/src/egress.rs:85-89 | since a reset the verdict is a function of the IPv6 outcomes alone |
| `Egress.BucketIsWorstSuffix` | rust/torta_core/src/egress.rs:40-46 | while never latched, the bucket is the largest excess of failures over successes of any window ending now |
| `Egress.LatchedSinceReset` | rust/torta_core/src/egress.rs:85-135 | the latch has been set since a reset if and only if some window has failures exceeding successes by the threshold |
| `Egress.BucketExactly` | rust/torta_core/src/egress.rs:40-46 | after any outcomes, latched or not, the bucket holds k or more exactly when some window ending now has k more failures than successes and no later window ending now lost more than 8 - k |
| `Egress.BucketSinceReset` | rust/torta_core/src/egress.rs:85-135 | so it does through all events since a reset, requests and IPv4 dials included |
| `Egress.DeadExactly` | rust/torta_core/src/egress.rs:85-135 | the latch is set now exactly when some failure filled the bucket, so described, to 4 and no two successes in a row followed |
| `Egress.LatchesAgainExactly` | rust/torta_core/src/egress.rs:128-133 | while the latch is clear, before or after a revival, the next outcome sets it exactly when it is a failure and the outcomes so far left 3 in the bucket |
| `Egress.OutageIsRemembered` | rust/torta_core/src/egress.rs:90-102 | eight failures, two successes: clear; one more failure: set |
| `Egress.LiftsExactly` | rust/torta_core/src/egress.rs:108-119 | a set latch lifts at an event exactly when it is a reset or the second success with no failure between |
| `Egress.ResetForgets` | rust/torta_core/src/egress.rs:202-208 | what happened before a reset does not matter |
| `Egress.AttemptsExactly` | rust/torta_core/src/egress.rs:161-199 | which requests are attempted, in numbers: all while clear; while set, those at a multiple of 64, doubled per probe spent, up to 2048 |
| `Egress.GapRule` | rust/torta_core/src/egress.rs:161-165 | a live family is always tried, a dead one at multiples of the gap, and a gap of nothing never silences it |
| `Egress.BackoffIsProbes` | rust/torta_core/src/egress.rs:186-196 | from a fresh latch the backoff counts the probes spent, up to five |
| `Egress.ProbingIsInevitable` | rust/torta_core/src/egress.rs:161-199 | any 2048 requests contain an attempt, whatever happens between them |
| `Egress.SilenceCanLast` | rust/torta_core/src/egress.rs:161-199 | 2048 cannot be improved |
| `Egress.StretchBound` | rust/torta_core/src/egress.rs:161-199 | within one latched stretch N requests make at most 6 + N/2048 attempts |
| `Egress.BackoffBounded` | rust/torta_core/src/egress.rs:167-199 | backoff and bucket stay within their caps, and backoff is spent only while latched |
| `StartTable.RangeMap.Add` | rust/torta_core/examples/asn_gen.rs:61-75 | keeps the range and its order, or refuses and counts it |
| `StartTable.RefusedIffOverlap` | rust/torta_core/examples/asn_gen.rs:61-75 | the two neighbour checks see every overlap |
| `StartTable.InsertKeeps` | rust/torta_core/examples/geoip_gen.rs:130-142 | a range enters exactly when it overlaps nothing kept |
| `StartTable.BuildIsFirstInWins` | rust/torta_core/examples/geoip_gen.rs:127-142 | the kept ranges are exactly the first-in-wins ones, in order and disjoint |
| `StartTable.MergeKeepsOwner` | rust/torta_core/examples/asn_gen.rs:102-112 | merging neighbours changes no key's owner |
| `StartTable.EmitMeansOwner` | rust/torta_core/examples/asn_gen.rs:91-101 | probing the emitted rows gives each key's owner, gaps included |
| `StartTable.EmitNoRepeats` | rust/torta_core/examples/asn_gen.rs:91-101 | no two neighbouring rows carry the same value |
| `StartTable.TableIsExact` | rust/torta_core/examples/asn_gen.rs:61-120 | the greatest start at or below any key carries the value of the one kept range covering it, or unknown; keys strictly increase |
| `StartTable.EmitOnePass` | rust/torta_core/examples/asn_gen.rs:78-120 | the one-pass loop with a pending range emits that table and counts its merges and gaps |
| `StartTable.MergeInPlace` | rust/torta_core/examples/geoip_gen.rs:148-154 | extending the last range in place is merging |
| `StartTable.EmitTwoPass` | rust/torta_core/examples/geoip_gen.rs:147-172 | the two-pass form emits the same table |
| `StartTable.Lookup` | rust/torta_core/src/warden/start_table.rs:18-44 | the binary search finds the last row at or below the key |
| `StartTable.BytesAreExact` | rust/torta_core/src/warden/start_table.rs:8-44 | insert, compile, serialise and search: the payload of the one kept range covering the key, or nothing |
| `StartTable.AsnTableExact` | rust/torta_core/src/warden/asn.rs:49-72 | the same for AS-name tables |
| `StartTable.CountryTableExact` | rust/torta_core/src/warden/geoip.rs:50-89 | the same for country tables |
| `Discovery.Promotable` | rust/torta_core/src/centauri_discovery.rs:417-430 | collects, ranks and truncates the eligible hosts |
| `Discovery.RosterMeans` | rust/torta_core/src/centauri_discovery.rs:394-430 | a roster holds eligible hosts only, as many as the ceiling allows, and none left out outranks one let in |
| `Discovery.RosterUnique` | rust/torta_core/src/centauri_discovery.rs:408-410 | it is a function of the ledger |
| `Discovery.Ledger.ObserveHost` | rust/torta_core/src/centauri_discovery.rs:297-357 | one sighting's whole effect, publishing on the crossing |
| `Discovery.Ledger.LoadStore` | rust/torta_core/src/centauri_discovery.rs:546-568 | the rehydrating loop merges by key and stops at the cap |
| `Discovery.Ledger.ArmStore` | rust/torta_core/src/centauri_discovery.rs:594-624 | loads, opens the feed and publishes |
| `Discovery.RosterAgrees` | rust/torta_core/src/centauri_discovery.rs:297-357 | at every point of every run, restarts included: the ledger is within its cap, and the roster is exactly the hosts past the line while they fit, the ceiling's worth of them otherwise |
| `Discovery.FullLedgerCounts` | rust/torta_core/src/centauri_discovery.rs:313-335 | a full ledger still counts the hosts it knows, and only those |
| `Sightings.HitsAreSightings` | rust/torta_core/src/centauri_discovery.rs:297-357 | in every run a row's hits are those it was loaded with and one for each of its sightings counted since |
| `Sightings.SightingStamps` | rust/torta_core/src/centauri_discovery.rs:315-341 | a counted sighting stamps the last time on its row and no other; first time and marker stay those of the first |
| `Sightings.ObservedTotal` | rust/torta_core/src/centauri_discovery.rs:312 | the running total counts what passes the gates, and a reload only raises it |
| `Sightings.ThirdSightingPromotes` | rust/torta_core/src/centauri_discovery.rs:297-357 | without stored rows and below both ceilings the roster is exactly the hosts the open feed has seen three times or more since the last restart |
| `Discovery.RestartRestores` | rust/torta_core/src/centauri_discovery.rs:594-624 | reloading the stored ledger restores rows and total, and up to the ceiling the published hosts |
| `Discovery.RosterLagsExactly` | rust/torta_core/src/centauri_discovery.rs:318-330 | after a sighting that publishes nothing the roster is still the top of the ranking if and only if, before it, the host seen was in it, was not eligible, or was behind all of it by more than that sighting |
| `Discovery.LiveRosterCanLag` | rust/torta_core/src/centauri_discovery.rs:405-407 | a tie outside the roster that overtakes without being published |
| `Discovery.LagIsReachable` | rust/torta_core/src/centauri_discovery.rs:405-407 | a run from a cold start, loading between 257 and 4096 tied hosts, that ends in such a lag |
| `Glob.GlobMatch` | rust/carbon_bridge/src/specials.rs:156-183 | the iterative matcher with one remembered star returns true if and only if the text can be cut into pieces matching the pattern, each star taking any string |
| `Glob.DerivesIsMatches` | rust/carbon_bridge/src/specials.rs:155-183 | the recursive reading of a pattern and the cutting of the text agree |

## Left out

- Case folding is exact for ASCII, the Greek sigmas and one widening capital; other scripts are left unchanged by the model. Lossy UTF-8 decoding of DNS names is not modelled: DNS names are bytes with ASCII folding, and the rows about decoded names are about ASCII names (a label of wide letters can grow when folded and be cut when written).
- Trie nodes are values: the cursor of an insertion remembers the nodes above it and puts them back together, instead of updating them in place. The matcher that owns them is a class updated in place.
- Concurrency: lock poisoning, relaxed atomics and racing callers. Every component is a sequence of steps.
- Integer widths of points, weights, hits and clocks in the ledgers; the widths that matter (hash, counts, record lengths, header fields, pointer offsets) are modelled.
- Scoring, classification and detectors that produce a weight or a marker; the scoring law is a fixed parameter, and so is the test for an address column in hosts files.
- Durable formats of the ledgers (TSV parsing, change-gated writes, epoch amnesty); a stored ledger is the list of rows read.
- Event rings, reputation learning, correction logs and the review log: output only.
- `match_pattern`, `preview_text`, `negative_ttl_from_soa`, `decode_ptr_to_ip`, `solve_verdict` and the name interner of the table generator would only add easy members.
- LicenceLaws.WornDown: stated for a quarantine that lasts at least a second; one of no length is over in the settle pass that starts it.
- DnsFilter.AnswerDataNames: sufficient, not necessary, in the same way; which data holds a name, and where, is left to the caller.
- DnsFilter.FilterPreserves: the condition on the names behind the answers is sufficient, not necessary; a pointer elsewhere can survive when the bytes it meets happen to spell the same name.
- DnsBuild.AddressResponse: a question without a pointer is sufficient, not necessary; a pointer into bytes that the response keeps can survive.
- Source registry, trust scoring and installing with a source id, beyond the masks they write.
- Command-line parsing and registry-file reading of the table generators.

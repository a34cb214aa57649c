# Gateway protocols, modelled and proved in Dafny

The Nexus gateway stands between chat clients and model providers. This project models the five stateful parts of it in
which a simple promise is kept by a harder route, and proves that the promise is kept on every input and over every run.
`dafny verify dfyconfig.toml` verifies all of it.

## What is modelled

**PII placeholders.** Personal data in a request is replaced by placeholders such as `[PERSON_1]` before it leaves for
the provider, and the answer is restored. `PIIMapping.dfy` (module `Mappings`) holds the mapping with its alias tables:
the pure `Mapping`, the invariant `WF` over all runs of requests, and the class whose methods update the five maps.
`Unmask.dfy` gives restoring its declarative form, one lexical item at a time, and proves the byte loop with its
longest-first alias search equal to it. `Spelling.dfy` says what a rewritten placeholder and the original have in
common, their words, and `Lookup.dfy` which token a text resolves to over every run of requests. `BareSpelling.dfy`
decides, over every run of requests, which token a bracketless spelling stands for when two types compete for it.
`SpanChoice.dfy` describes the masked spans without saying how they are sorted. `Mask.dfy`, `PlainGaps.dfy` and
`PIIMasker.dfy` cover masking, the request cache and the round trip: what a masked text is restored to is stated for
every text, and an open bracket in front of a value, as in `[John Smith]`, is what loses it. `Replacing.dfy` and
`MaskKnown.dfy` cover masking for diagnostics: a value can come back with the token of another one, so no text keeps a
value exactly when every token that can be put in ends up without values.

**Streamed restoring.** A streamed answer may split a placeholder at any byte. `PIIStream.dfy` models feeding and
flushing one buffer. Chunk independence does not hold for every text: the stream cuts at the *last* open bracket, so it
restores the placeholder in `[foo [PERSON_1]` that a single pass copies, and a word run loses its left context once its
front was sent. `Faithful` states for which texts this cannot happen: no closed bracket group has a known placeholder as
a proper suffix that starts at an inner bracket, and no word run has a placeholder behind a front that no placeholder
starts with. `PIIStreamExact.dfy` proves that this condition is exact, and what holds with no condition at all;
`RoundTrips.dfy` gives a simpler condition that is enough, and the round trip of a masked text that is streamed back.
`Unmasker.dfy`, `UnmaskerLaws.dfy` and `StreamUnmasker.dfy` lift this to events with several choices, fields and tool
calls. There the channels interfere in one case only, which the laws state exactly: a finishing choice that names a call
twice gets the text held for it twice, and calls without an index all count as call 0. `EventLaws.dfy` states what
restoring and relaying leave unchanged.

**BER.** `BER.dfy` gives the accepted encodings twice: as a printer of concrete elements (definite and indefinite
lengths, section 8.1.3 of ITU-T X.690; end-of-contents markers, section 8.1.5; high tags; the depth and size limits) and
as a parser. `BERLaws.dfy` proves them inverse to each other. `BERNormalize.dfy` proves that the recursive normaliser
succeeds exactly on these encodings and returns the minimal definite-length encoding of the same tree. Only length forms
change; nothing is sorted or flattened, so the result is not full DER.

**Confidential admission.** `ReplayCache.dfy` proves the bounded cache with its three structures equal to a scan of the
plain history. `Admission.dfy` interleaves the freshness samples and store samples of any number of requests over one
nondecreasing clock. `EHBPBody.dfy` is the frame check in front of decryption, over a source that may return short
reads, empty reads and errors.

**Relay, settlement, lease.** `ChatEvents.dfy` and `Relay.dfy` describe the provider's stream as lines and the relay as
a line transducer; `RelayLaws.dfy` and `StreamOutcome.dfy` prove what it carries and how it ends, and `EndToEnd.dfy`
follows a masked text through the provider's stream to the client; `ProxyStream.dfy` is the class with `prime`, `Next`
and `Close` proved against them. `Settlement.dfy` puts attempts, fallback, records and the end of the lease around it,
and `SettlementLaws.dfy` says what is recorded. `Lease.dfy` is the timed protocol that keeps a credit hold alive, with
lost and late answers.

## How to read it

`Common.dfy`, `Wrappers.dfy` and `Text.dfy` hold what the modules share. Text is a `string` in which one character
stands for one byte. Each class or loop of the gateway is a class or method here, proved against a specification
function; the lemmas are about those functions. Presidio's analysis, provider replies, clock readings, timers,
Metering's answers and the order of calls are parameters that range over everything the code itself admits. Locks,
timers and cancellation are atomic steps.

Two places where code and comments differ, modelled as the code has them: `Close` is described as a cancellation "unless
the response had already finished", but it looks only at the finish reason, so an end marker without one still counts as
canceled; and an event with `"error": null` is not a usage-only event, although it reports no error, so it is not
hidden.

## Model

| member | source | states |
|---|---|---|
| `Mappings.AssignKeepsWF` | pkg/domain/pii.go:55-70 | asking for a token keeps the whole mapping invariant, changes no existing token, alias or normalised alias, and the token resolves to the value it was asked for |
| `Mappings.AssignAllKeepsWF` | pkg/domain/pii.go:55-128 | the same over every run of requests: whatever aliases clash, no binding ever changes target |
| `Mappings.AssignAllRemembers` | pkg/domain/pii.go:55-97 | after a run of any length every pair asked for still owns a token that resolves to exactly its own value |
| `Mappings.TokensInjective` | pkg/domain/pii.go:55-70 | two (type, value) pairs share a token if and only if they are the same pair |
| `Mappings.TokensOfType` | pkg/domain/pii.go:61-65 | the tokens of a type are exactly `[T_1]` to `[T_n]` for its counter n |
| `Mappings.KeyInjective` | pkg/domain/pii.go:56 | over the alphabet of types the joined key names one pair |
| `Mappings.KeysClashWithBarInType` | pkg/domain/pii.go:56 | two types share a key for some values if and only if one of them with a bar behind it starts the other, which the alphabet of types excludes |
| `Mappings.BareIsAlias` | pkg/domain/pii.go:279-296 | the bracketless placeholders are exactly the bound aliases without an opening bracket, and each one resolves to a value |
| `BareSpelling.BareSpellingIsOwn` | pkg/domain/pii.go:99-149 | over every run of requests: the bracketless spelling of a token stands for that token if and only if no type with that short name had the number when the token was issued; otherwise it stands for the token of such a type |
| `BareSpelling.BareTokenRestoresItsValue` | pkg/domain/pii.go:99-149 | in the first case the bracketless spelling restores the value of its own request |
| `BareSpelling.WasIssued` | pkg/domain/pii.go:55-70 | every token of a run was issued by one of its requests |
| `Mappings.PIIMapping.Token` | pkg/domain/pii.go:55-70 | the five maps change as the pure model of one request says, and the token is the one it owns |
| `Mappings.PIIMapping.Original` | pkg/domain/pii.go:81-97 | canonical token first, then alias, then normalised alias |
| `Mappings.PIIMapping.RegisterTokenAliases` | pkg/domain/pii.go:99-110 | binds the three alternative spellings of a token in order |
| `Mappings.PIIMapping.RegisterTokenAlias` | pkg/domain/pii.go:112-128 | an alias and its normal form are bound once and never move to another token |
| `Mappings.NormalizePlaceholderToken` | pkg/domain/pii.go:387-422 | the loop that trims, folds and collapses separators computes the normal form used by every lookup |
| `Spelling.CoreIs` | pkg/domain/pii.go:388-394 | the core of a spelling is what is left without space around it, at most one opening bracket in front and at most one closing bracket behind |
| `Spelling.SameWords` | pkg/domain/pii.go:387-422 | two texts share a normal form if and only if they have the same words: their cores split at separators, in capitals; it is empty if and only if there are none |
| `Lookup.LookupIs` | pkg/domain/pii.go:81-128 | over every run of requests a text resolves to itself, else to the first token that asked for this spelling, else to the first that asked for a spelling with the same words, and is restored to that token's value |
| `Lookup.RestoredIffSpelled` | pkg/domain/pii.go:81-128 | over every run of requests a text is restored if and only if it spells an issued token, by the name of its type or the short one and its number, and to the value of a token that it spells; every other text is copied |
| `Lookup.NumbersKeepApart` | pkg/domain/pii.go:81-128 | spellings with different numbers never stand for one token |
| `Lookup.LooselySpelled` | pkg/domain/pii.go:387-422 | every mixture of case, each of the three separators, and brackets or none spell the same token |
| `Lookup.OneRequest` | pkg/domain/pii.go:130-149 | after one request exactly the texts that name its type, or its short name from the table, and the number 1 are restored |
| `Lookup.OnePerson` | pkg/domain/pii.go:81-97 | with one person masked, `[person-1]` is restored and `[PERSON_2]` is copied |
| `Mappings.PIIMapping.BareAliasesByLength` | pkg/domain/pii.go:279-296 | lists exactly the bracketless placeholders, longest first |
| `Mappings.PIIMapping.MatchBareAlias` | pkg/domain/pii.go:308-318 | the first listed alias that starts the text ignoring case, with its value, or none at all |
| `Unmasking.UnmaskText` | pkg/domain/pii.go:238-277 | the byte loop with its longest-first alias search restores exactly the lexical items the mapping knows: bracket groups, maximal word runs, other bytes; everything from an unterminated bracket on is copied |
| `Unmasking.SearchIsExact` | pkg/domain/pii.go:265-271 | the longest alias that starts at a position ends at a boundary exactly when the whole word run is a placeholder, and then it is that placeholder: the search never picks a wrong one |
| `Unmasking.RunRestoredIff` | pkg/domain/pii.go:265-271 | a word run is restored if and only if some listed alias equals it ignoring case |
| `Unmasking.MatchWholeRun` | pkg/domain/pii.go:265-271 | one search at a position, sound and complete for whole runs |
| `Unmasking.RestoreNext` | pkg/domain/pii.go:246-275 | one turn of the loop consumes one item or one byte and restores it |
| `Unmasking.UnmaskEmptyMapping` | pkg/domain/pii.go:239-241 | returning early with an empty mapping is what the loop would give |
| `Masking.SortSpansSorts` | pkg/domain/pii.go:194-201 | sorting orders the spans by start, longer first, and keeps their multiset |
| `Masking.KeptSpansOk` | pkg/domain/pii.go:203-216 | the kept spans are detected ones, in order, apart and inside the text |
| `Masking.KeptSpansCover` | pkg/domain/pii.go:203-216 | every detected span inside the text starts inside a kept one, so only overlapping spans are dropped |
| `SpanChoice.KeptSpansAreRight` | pkg/domain/pii.go:194-216 | the kept spans are the only list of detected spans in order and apart such that each is the longest with its start and the first listed with its span, and every detected span starts inside one |
| `SpanChoice.VisibleOnlyBehind` | pkg/domain/pii.go:194-216 | a byte of a detected span stays visible only when the span starts strictly inside a kept one that ends before the byte |
| `Masking.KeepSpans` | pkg/domain/pii.go:193-216 | the in-place sort and filter leave exactly the kept spans |
| `Masking.ApplyMask` | pkg/domain/pii.go:188-231 | for every mapping, none among them, and all entity types: sorting, filtering and the loop with its cursor give the masked text and mapping of the pure model |
| `Masking.MaskedShowsTokens` | pkg/domain/pii.go:188-231 | with entity types over the documented alphabet the masked text shows for every kept span the token its value owns afterwards and everything else unchanged; the mapping only grows |
| `Masking.MaskedIsRestored` | pkg/domain/pii.go:188-277 | for every text and all spans, exactly what a masked text is restored to: each part outside the spans is restored on its own, and a value comes back unless the part in front of it leaves a bracket open, where the token stays |
| `Masking.RenderStable` | pkg/domain/pii.go:221-230 | tokens assigned later do not change how an earlier text was masked |
| `Masking.RoundTrip` | pkg/domain/pii.go:188-277 | a masked text comes back if and only if these restored parts make up the text; they do whenever each part restores to itself and closes its brackets |
| `Masking.OpenBracketsLoseValues` | pkg/domain/pii.go:188-277 | when every part outside the spans restores to itself and no value holds a closing bracket, the text comes back if and only if every part in front of a span closes its brackets |
| `RoundTrips.WrongRestoringsCancelAround` | pkg/domain/pii.go:188-277 | a family of texts, on mappings that requests build, that miss this condition on both sides of a span and come back all the same |
| `RoundTrips.WrongRestoringsCancel` | pkg/domain/pii.go:188-277 | one text of that family |
| `Masking.OpenGapIsNotRestored` | pkg/domain/pii.go:247-264 | behind every part that leaves a bracket open, and whatever follows, restoring copies the token instead of restoring it |
| `PlainGaps.PlainStays` | pkg/domain/pii.go:238-277 | text without an opening bracket and without a word run that is an alias restores to itself |
| `PIIMasker.PlainRoundTrip` | pkg/domain/pii.go:188-277 | a text masked with one mapping comes back exactly under every later mapping when what is outside its spans has no opening bracket and no word run equal to an alias |
| `PIIMasker.RoundTripLater` | apps/gateway/internal/application/services/pii.go:462-480 | an earlier text comes back through the final mapping if and only if its parts, restored on their own, make up the text |
| `PIIMasker.RequestPIIMasker.MaskText` | apps/gateway/internal/application/services/pii.go:462-480 | empty text, cache hit, analyzer failure and masking: which spans are masked, how the mapping grows, and that the cache never changes an entry and every entry stays a masking of its text |
| `PIIMasker.MaskAll` | apps/gateway/internal/application/services/pii.go:462-480 | for all texts of a request, repeated or failing ones among them: a text fails if and only if it is not empty and the analyzer has not found its spans by then; otherwise the spans of its first answer are masked, and the one final mapping restores it to its parts restored on their own, which is the text itself when these hold no placeholder |
| `Replacing.ReplaceAllRemoves` | pkg/domain/pii.go:177-181 | one replacement removes its value and brings back no value that was gone |
| `Replacing.ReplacePairsKeepsAway` | pkg/domain/pii.go:177-181 | in whatever order, a value that is gone stays gone |
| `Replacing.ReplacePairsRemovesAll` | pkg/domain/pii.go:154-182 | in whatever order pairs are taken, no value is left anywhere when no token holds one |
| `Replacing.NothingIsEverLeft` | pkg/domain/pii.go:173-181 | no text keeps a value if and only if every token that can be put in is free of values once the later values are replaced in it, which the mapping alone decides |
| `Replacing.TokensBehindFreeIsEnough` | pkg/domain/pii.go:173-181 | it is enough that no token holds a value that is replaced before it or by it |
| `MaskKnown.MaskingLeavesNothing` | pkg/domain/pii.go:154-182 | the same if and only if for every mapping with values free of brackets and every order of values of equal length |
| `MaskKnown.LaterTokenBringsValueBack` | pkg/domain/pii.go:154-182 | on mappings that two requests build: a value in the token of a value that is not longer comes back |
| `MaskKnown.TokenBringsValueBack` | pkg/domain/pii.go:154-182 | a concrete mapping and text on which a value comes back |
| `MaskKnown.EarlierTokenIsHarmless` | pkg/domain/pii.go:154-182 | on mappings that two requests build: a value in the token of a longer value is never left |
| `MaskKnown.SeparationIsNotNeeded` | pkg/domain/pii.go:154-182 | a concrete mapping on which a value is part of a token and yet no text keeps one |
| `MaskKnown.SortedPairs` | pkg/domain/pii.go:163-175 | lists exactly the known tokens with their nonempty values, longest value first |
| `MaskKnown.MaskKnownOriginals` | pkg/domain/pii.go:154-182 | replaces the pairs in that order; no value is left whenever the tokens that can be put in end up without values |
| `PIIStream.CutIsLegal` | apps/gateway/internal/application/services/pii.go:566-630 | wherever a chunk is cut, whatever text comes later, the cut leaves bracket pairs whole and splits a word run only behind a prefix that cannot start a placeholder |
| `PIIStream.NestedGroupUnknown` | apps/gateway/internal/application/services/pii.go:570-586 | a group with a second opening bracket is no placeholder, so holding from the last bracket loses nothing |
| `PIIStream.LegalCutIsHarmless` | apps/gateway/internal/application/services/pii.go:566-598 | under the streaming condition such a cut restores the same text, and the condition holds behind it |
| `PIIStream.StreamRefinesUnmask` | apps/gateway/internal/application/services/pii.go:566-649 | for every chunking of a text that meets the condition, feeding and flushing emits what one pass over the text would |
| `PIIStreamExact.StreamDiverges` | apps/gateway/internal/application/services/pii.go:566-649 | for every text that misses the condition, a chunking that the stream restores differently |
| `PIIStreamExact.StreamExact` | apps/gateway/internal/application/services/pii.go:566-649 | chunk independence holds for a text if and only if it meets the condition |
| `RoundTrips.SimpleTextsStream` | apps/gateway/internal/application/services/pii.go:566-649 | a condition on brackets and aliases alone under which every chunking is restored as in one piece: no bracket opens between a bracket and its end, and no word run that is no alias ends in one |
| `RoundTrips.StreamedRoundTrip` | apps/gateway/internal/application/services/pii.go:462-649 | a masked text without placeholders outside its spans comes back from every chunking, whatever was masked after it, if and only if the word runs outside its spans can be cut where the stream may cut |
| `PIIStreamExact.StrayBracketDiverges` | apps/gateway/internal/application/services/pii.go:570-586 | a concrete family outside the condition: a stray bracket before a token |
| `PIIStreamExact.StreamConserves` | apps/gateway/internal/application/services/pii.go:566-649 | with no condition at all, the segments handed to the restorer and the buffer concatenate to the input |
| `PIIStreamExact.PairsStayWhole` | apps/gateway/internal/application/services/pii.go:570-586 | with no condition at all, every innermost bracket pair reaches the restorer inside one segment |
| `PIIStreamBuffer.OpenBracketStart` | apps/gateway/internal/application/services/pii.go:572-586 | finds the last bracket exactly when it is an opening one |
| `PIIStreamBuffer.BareAliasHoldStart` | apps/gateway/internal/application/services/pii.go:600-630 | holds exactly the trailing word run that is a prefix of some alias ignoring case |
| `PIIStreamBuffer.FeedPIIStreamBuffer` | apps/gateway/internal/application/services/pii.go:566-598 | emits the restored text before the cut and keeps the rest in the builder |
| `PIIStreamBuffer.FlushPIIStreamBuffer` | apps/gateway/internal/application/services/pii.go:642-649 | restores and empties the builder |
| `PIIStreamBuffer.RestoreStream` | apps/gateway/internal/application/services/pii.go:566-649 | a whole stream through one builder |
| `UnmaskerLaws.EventChannel` | apps/gateway/internal/application/services/pii.go:252-296 | in every event each (choice, field) and (choice, tool call) buffer is fed its own pieces and flushed when its choice finishes; what is sent is just that if and only if no finishing choice names the call twice while text is held for it, and longer otherwise |
| `UnmaskerLaws.TailFlushes` | apps/gateway/internal/application/services/pii.go:358-379 | the closing event carries exactly what each channel still holds |
| `UnmaskerLaws.ChannelsDoNotInterfere` | apps/gateway/internal/application/services/pii.go:252-379 | over every run of events ended by the closing event, each channel emits what its own input alone gives if and only if at every finishing choice its call is named at most once or holds nothing to flush; it never emits less |
| `UnmaskerLaws.NamedOnceRunIsClean` | apps/gateway/internal/application/services/pii.go:252-379 | that is always so for text channels, and for the arguments of a call that no finishing choice names twice |
| `UnmaskerLaws.RepeatedCallReleasesTwice` | apps/gateway/internal/application/services/pii.go:325-348 | an event that finishes its choice with two calls without an index sends the text held for them twice, unless it is empty |
| `UnmaskerLaws.BracketArrivesTwice` | apps/gateway/internal/application/services/pii.go:325-348 | for every mapping, an opening bracket in such a call arrives as two |
| `UnmaskerLaws.EpisodeRestored` | apps/gateway/internal/application/services/pii.go:252-379 | up to the end of its choice a channel emits its text restored in one piece, under the streaming condition |
| `EventLaws.RestoringKeepsEvent` | apps/gateway/internal/application/services/pii.go:252-355 | restoring leaves id, model, usage, error and number of choices of an event, and of each choice its index, finish reason, role, fields and calls in order; only a finishing choice gets new fields and calls |
| `EventLaws.TailIsClosing` | apps/gateway/internal/application/services/pii.go:358-379 | the closing event has the given id and model, and one choice for each index, sorted, with something to read and no role or finish reason |
| `EventLaws.PlacesCount` | apps/gateway/internal/application/services/pii.go:443-450 | choices without an index are told apart by their place |
| `StreamUnmasker.StreamUnmasker.RestoreEvent` | apps/gateway/internal/application/services/pii.go:252-296 | for every event, however its indexes are spelled or repeated, the loop over choices, fields and tool calls updates the held buffers and the event as the pure model says |
| `StreamUnmasker.StreamUnmasker.RestoreChoice` | apps/gateway/internal/application/services/pii.go:261-289 | one choice of an event |
| `StreamUnmasker.StreamUnmasker.ReleaseChoice` | apps/gateway/internal/application/services/pii.go:299-355 | forgets the choice and adds what it held to its delta, new tool calls included |
| `StreamUnmasker.StreamUnmasker.TailEvent` | apps/gateway/internal/application/services/pii.go:358-379 | one closing event for all unfinished choices, in the order of their index strings; nothing stays held |
| `StreamUnmasker.KeysInOrder` | apps/gateway/internal/application/services/pii.go:320-324 | the keys sorted by their spelling |
| `BERLaws.ParseSound` | apps/gateway/internal/enclave/bootstrap/cms.go:249-333 | whatever is read is an accepted encoding, definite or indefinite at any nesting, of exactly the bytes consumed |
| `BERLaws.ParseComplete` | apps/gateway/internal/enclave/bootstrap/cms.go:249-333 | every accepted encoding is read, whatever bytes follow |
| `BERNormalize.NormalKeepsMeaning` | apps/gateway/internal/enclave/bootstrap/cms.go:238-333 | normalising succeeds with an output if and only if the input is an accepted encoding and the output is the minimal definite-length encoding of the tree it stands for |
| `BERNormalize.EncodingIsUnambiguous` | apps/gateway/internal/enclave/bootstrap/cms.go:249-333 | an accepted encoding stands for one tree |
| `BERNormalize.OnlyThePrefixCounts` | apps/gateway/internal/enclave/bootstrap/cms.go:249-333 | the result depends only on the bytes consumed |
| `BERNormalize.NormalIsIdempotent` | apps/gateway/internal/enclave/bootstrap/cms.go:238-247 | normalising twice changes nothing and never makes the input longer |
| `BERNormalize.NeverGrows` | apps/gateway/internal/enclave/bootstrap/cms.go:335-354 | at every nesting level the normal form is no longer than the encoding |
| `BERNormalize.SizeCheckNeverFires` | apps/gateway/internal/enclave/bootstrap/cms.go:323-325 | for inputs within the size limit the check on accumulated content never fails |
| `BERNormalize.NormalizeBERElement` | apps/gateway/internal/enclave/bootstrap/cms.go:249-333 | the recursive loops return the tree's minimal encoding and 2 to all bytes consumed, a terminator, or the parser's failure |
| `BERNormalize.NormalizeChildren` | apps/gateway/internal/enclave/bootstrap/cms.go:306-332 | children up to the end of the value or its terminator |
| `BERNormalize.NormalizeBER` | apps/gateway/internal/enclave/bootstrap/cms.go:238-247 | one element that ends with the input |
| `BERNormalize.EncodeDERElement` | apps/gateway/internal/enclave/bootstrap/cms.go:335-354 | tag, shortest length octets (section 10.1 of ITU-T X.690) and content |
| `BERNormalize.LongLengthOctets` | apps/gateway/internal/enclave/bootstrap/cms.go:340-351 | filling the four-byte buffer from the back gives the shortest long form |
| `BER.MinimalLengthIsShortest` | apps/gateway/internal/enclave/bootstrap/cms.go:335-354 | no accepted length octets (section 8.1.3 of ITU-T X.690) are shorter |
| `ReplayCache.ConfidentialReplayCache.CheckAndStore` | apps/gateway/internal/adapters/http/handlers/confidential_chat_completions_handler.go:260-292 | the answer is the one a scan of all past acceptances would give: duplicate, then account limit, then global limit |
| `ReplayCache.ConfidentialReplayCache.Evict` | apps/gateway/internal/adapters/http/handlers/confidential_chat_completions_handler.go:264-277 | afterwards the queue is exactly the live part of the history |
| `ReplayCache.ConfidentialReplayCache.Store` | apps/gateway/internal/adapters/http/handlers/confidential_chat_completions_handler.go:288-291 | key set, account counts and queue stay in agreement and within both capacities |
| `ReplayCache.TestsDecide` | apps/gateway/internal/adapters/http/handlers/confidential_chat_completions_handler.go:278-287 | the three lookups decide like the scan |
| `ReplayCache.DecideCounts` | apps/gateway/internal/adapters/http/handlers/confidential_chat_completions_handler.go:278-287 | by counting the acceptances that have not expired: one with the key makes a duplicate, as many as the account may have or as many as there may be at all refuse the request, and otherwise it is accepted |
| `Admission.AdmittedAtMostOnce` | apps/gateway/internal/adapters/http/handlers/confidential_chat_completions_handler.go:158-193 | over every interleaving of requests on a nondecreasing clock, an envelope whose store sample follows its freshness sample within 30 s was never admitted before |
| `Admission.SlowStoreAdmitsTwice` | apps/gateway/internal/adapters/http/handlers/confidential_chat_completions_handler.go:158-193 | the bound is tight: for every longer delay some run admits one envelope twice |
| `Admission.Admit` | apps/gateway/internal/adapters/http/handlers/confidential_chat_completions_handler.go:158-193 | stale, future and decided requests; only a fresh one reaches the cache |
| `EHBPBody.ValidatedEHBPBody.Read` | apps/gateway/internal/adapters/http/handlers/confidential_chat_completions_handler.go:313-359 | delivers source bytes unchanged and in order; a clean end only for well framed bytes, a framing error only for others, a source failure or missing progress only when the source failed or returned nothing meanwhile; until a size is refused, delivered bytes, undelivered prefix bytes and the rest of the frame add up to the wire size, within the body limit |
| `EHBPBody.ValidatedEHBPBody.OpenHeader` | apps/gateway/internal/adapters/http/handlers/confidential_chat_completions_handler.go:337-355 | reads four size bytes from short reads and opens the frame, or says with the right error that the body ends, is badly framed, or that the source failed |
| `EHBPBody.ValidatedEHBPBody.ReadHeader` | apps/gateway/internal/adapters/http/handlers/confidential_chat_completions_handler.go:337-358 | checks a size before any byte of its frame is delivered |
| `EHBPBody.ValidatedEHBPBody.ReadFrame` | apps/gateway/internal/adapters/http/handlers/confidential_chat_completions_handler.go:324-335 | never reads past the open frame |
| `EHBPBody.Drain` | apps/gateway/internal/adapters/http/handlers/confidential_chat_completions_handler.go:313-359 | for all buffer sizes and short reads of a source that neither fails nor returns nothing meanwhile, reading ends cleanly if and only if the source is whole frames of 1 to the largest size within the body limit, and then everything was delivered; a framing error is the first one that a scan of the bytes finds |
| `EHBPBody.WellFramedIff` | apps/gateway/internal/adapters/http/handlers/confidential_chat_completions_handler.go:313-359 | bytes are well framed if and only if they are within the body limit and written by putting a four-byte size, most significant byte first, in front of contents of allowed sizes |
| `Relay.OnlyUsageIsDropped` | apps/gateway/internal/application/services/proxy.go:575-586 | with hidden usage the lines left out are exactly the usage-only events and the blank line directly after each |
| `EventLaws.LinesAreRelayed` | apps/gateway/internal/application/services/proxy.go:479-586 | the lines sent are the upstream lines one for one and in order, apart from the hidden ones: every event keeps its id, usage, error and choices, and names the public model where it named one; text still held comes before the end marker, or at the very end |
| `Relay.ReadOne` | apps/gateway/internal/application/services/proxy.go:590-606 | reading one line moves what it gives from the rest of the stream to the queue, so it does not matter where priming stopped |
| `RelayLaws.RoleSentOnce` | apps/gateway/internal/application/services/proxy.go:522-560 | over a whole stream the role of a choice is sent at most once, and exactly when the first event that has it has it once |
| `RelayLaws.ChannelsAreRelayed` | apps/gateway/internal/application/services/proxy.go:479-518 | the text the client gets on a channel is that channel's own upstream text, fed and flushed, wherever the end marker comes, if and only if no finishing choice names its call twice while text is held for it |
| `RelayLaws.NamedOnceLinesAreClean` | apps/gateway/internal/application/services/proxy.go:479-518 | that is always so for text channels, and for the arguments of a call that no finishing choice names twice |
| `RelayLaws.ClientReadsRestoredText` | apps/gateway/internal/application/services/proxy.go:479-631 | end to end, under the streaming condition: however the provider splits a channel's text over events, the client reads it restored as in one piece, always for a text channel and for the arguments of a call exactly under that condition |
| `EndToEnd.MaskedTextReachesClient` | apps/gateway/internal/application/services/pii.go:252-649 | a model that repeats a masked text with plain parts makes the client read the original text, however the text is split over events and whatever was masked after it |
| `EndToEnd.EverySplitReachesClient` | apps/gateway/internal/application/services/pii.go:252-649 | for every split over the events of a field the client reads the original text, if and only if the word runs around the masked values can be cut where the stream may cut |
| `RelayLaws.UnmaskedTextPasses` | apps/gateway/internal/application/services/proxy.go:479-518 | without masking every channel's text passes unchanged |
| `StreamOutcome.OutcomeRead` | apps/gateway/internal/application/services/proxy.go:493-510 | what is noted is the first error, the last finish reason, usage and id, and the counts of the lines read |
| `StreamOutcome.PrimedIff` | apps/gateway/internal/application/services/proxy.go:452-474 | a stream is primed if and only if output or the end marker comes before any provider error, or it has events, neither of these, and ends cleanly |
| `StreamOutcome.FailureIsDecidedByTheLines` | apps/gateway/internal/application/services/proxy.go:590-664 | a response is a failure if and only if a provider error was read, or reading broke with no finish reason, or it was closed early with no finish reason |
| `StreamOutcome.ClosedAfterDoneIsCanceled` | apps/gateway/internal/application/services/proxy.go:639-649 | an end marker alone does not save a response that is closed before its end |
| `StreamOutcome.EndIsDecidedByTheLines` | apps/gateway/internal/application/services/proxy.go:590-664 | which end is noted follows from the lines read and whether reading broke |
| `StreamOutcome.SilentFailure` | apps/gateway/internal/application/services/proxy.go:468-474 | what is reported for a stream that never got to its output |
| `StreamOutcome.FirstFinishCounts` | apps/gateway/internal/application/services/proxy.go:341-348 | the first choice with a nonempty finish reason gives the reason of its event |
| `ProxyStream.ProxyStream.Prime` | apps/gateway/internal/application/services/proxy.go:452-474 | reads exactly to the first line that ends priming, loses nothing, and reports why a stream is given up |
| `ProxyStream.ProxyStream.Next` | apps/gateway/internal/application/services/proxy.go:590-631 | returns the transduction line by line, reads no more lines than it needs, and ends the response once, with the outcome of all lines |
| `ProxyStream.ProxyStream.Close` | apps/gateway/internal/application/services/proxy.go:641-649 | ends a response that has not ended with the outcome of the lines read so far |
| `ProxyStream.ProxyStream.Observe` | apps/gateway/internal/application/services/proxy.go:479-518 | one line of each kind: state and lines to send |
| `ProxyStream.ProxyStream.DropRepeatedRole` | apps/gateway/internal/application/services/proxy.go:522-560 | both passes: which roles repeat, and the event without them |
| `ProxyStream.ProxyStream.Keep` | apps/gateway/internal/application/services/proxy.go:575-586 | the flag for the next blank line says whether a usage-only event was just hidden |
| `ProxyStream.ProxyStream.Finish` | apps/gateway/internal/application/services/proxy.go:651-664 | the callback runs once |
| `ProxyStream.ServedFails` | apps/gateway/internal/application/services/proxy.go:590-664 | how often and how a response ends, from the lines read by then |
| `ProxyStream.Serve` | apps/gateway/internal/application/services/proxy.go:452-664 | over any order of reads and closes: the lines sent are a prefix of the one transduction of all upstream lines, the callback runs at most once, and with a failure exactly as the lines read by then decide |
| `Settlement.SettledExactlyOnce` | apps/gateway/internal/application/services/proxy.go:102-212 | in every run, with a record and a stop for each time a response ends: a reservation is recorded exactly once when the request is over and not before, at most two providers are called, and the lease ends exactly once, right after the record |
| `Settlement.StreamSettlement` | apps/gateway/internal/application/services/proxy.go:125-133 | a drained or closed stream is recorded as failed exactly when its lines say so, for the target that served it, with the last usage read, and with the first provider error, the failed read or the cancellation as the cause; a lost hold replaces the cause |
| `SettlementLaws.CompleteSettlement` | apps/gateway/internal/application/services/proxy.go:102-212 | the whole trace of a request that is not streamed: a complete answer is recorded with the usage it reports for the target that gave it, a System One answer with the sum of its counts, a failed attempt with its cause or the lost hold; the fallback is asked exactly after a rate limit, a server-side or a foreign failure |
| `Settlement.Settlement.Proxy` | apps/gateway/internal/application/services/proxy.go:189-212 | primary attempt, at most one fallback, and the failure record with its deferred end of the lease |
| `Settlement.Settlement.Attempt` | apps/gateway/internal/application/services/proxy.go:138-187 | refusals before and after the call, complete answers, and streams metered by their end callback |
| `Settlement.Settlement.Stream` | apps/gateway/internal/application/services/proxy.go:165-187 | a stream is given up while priming, or metered each time it ends |
| `Settlement.Settlement.Finish` | apps/gateway/internal/application/services/proxy.go:125-133 | one record, then the end of the lease |
| `Settlement.Settle` | apps/gateway/internal/application/services/proxy.go:102-212 | a whole request: its effects and their counts |
| `Lease.HoldIsLive` | apps/gateway/internal/adapters/metering/reservation_lease.go:19-77 | if Metering keeps each grant for its duration from when it handles the request, the hold is live at every moment the local lease is unexpired; the lease never ends earlier than before |
| `Lease.RenewalsExtend` | apps/gateway/internal/adapters/metering/reservation_lease.go:19-70 | after every run the keeper holds the lease that ends last of the first one and all that valid renewals granted, each lasting as many milliseconds as granted from when it was asked for; so no hold is reported expired while such a lease lasts |
| `Lease.EndsForAReason` | apps/gateway/internal/adapters/metering/reservation_lease.go:44-75 | a keeper ends in the first turn in which the hold ran out, the keeper was stopped or Metering refused, with that status, and goes on without one |
| `Lease.LossIsReportedOnce` | apps/gateway/internal/adapters/metering/reservation_lease.go:37-77 | a loss is reported at most once, exactly when the hold expired or was refused and the keeper was not stopped by then |
| `Lease.RenewalsAreSpaced` | apps/gateway/internal/adapters/metering/reservation_lease.go:34-63 | in every run renewals are at least the shortest wait apart |
| `Lease.SecondOrTenthApart` | apps/gateway/internal/adapters/metering/reservation_lease.go:34-63 | which is a second or a tenth of the first lease, whichever is shorter |
| `Lease.PunctualKeeperWaits` | apps/gateway/internal/adapters/metering/reservation_lease.go:45-54 | with punctual timers a turn waits for a third of the time left, rounded down, or for the shortest wait |
| `Lease.OutageIsBounded` | apps/gateway/internal/adapters/metering/reservation_lease.go:44-74 | in an outage fewer renewals are sent than the time left divided by the shortest wait |
| `Lease.OutageEndsTheHold` | apps/gateway/internal/adapters/metering/reservation_lease.go:44-59 | an outage that outlasts the lease ends it |
| `Lease.PunctualKeeperAsks` | apps/gateway/internal/adapters/metering/reservation_lease.go:45-63 | with punctual timers a turn asks if and only if more than the shortest wait is left |
| `Lease.Renew` | apps/gateway/internal/adapters/metering/reservation_lease.go:33-75 | the timed loop computes the run of the protocol for every sequence of clock readings and answers |
| `Lease.KeepReservation` | apps/gateway/internal/adapters/metering/reservation_lease.go:28-77 | takes the lease out of the shared table and renews it; without one nothing is sent or reported |

## Left out

- Masking.RoundTrip: the condition is on all restored parts together. No condition on each part alone is exact, because wrong restorings may cancel out (RoundTrips.WrongRestoringsCancel); where the parts restore to themselves Masking.OpenBracketsLoseValues decides by their brackets.
- MaskKnown.MaskKnownOriginals: the promise is for values without brackets, as a value with one may cross the edge of a token. `text` with no mapping object at all, and the values inside an error tree, are not modelled.
- Mappings.PIIMapping.Token: a missing mapping, for which the value itself is returned; Masking.ApplyMask returns before it asks. A bar in a type makes keys clash (Mappings.KeysClashWithBarInType), so ownership is promised for capital letters, digits and underscore, which is what the analyzer sends.
- Mappings.NormalizePlaceholderToken: trims ASCII white space only, and folds ASCII only; every alias is ASCII.
- BERNormalize.EncodeDERElement: contents of 4 GiB and more, for which the four-byte length buffer has no room; the size limit excludes them.
- RelayLaws.RoleSentOnce: roles are remembered for each spelling of an index. The code remembers them for each number and compares spellings when it drops them, so a choice with the index -0 shares its role with 0 and keeps a repeated one; no other spelling of a whole number differs.
- ProxyStream.Serve: keep-alive comments and the lines that the HTTP handler adds behind a stream are not part of it.
- Settlement.Settlement.Attempt: whether a System One response decodes is a parameter; its restored legend texts are not modelled.
- Lease.KeepReservation: durations are unbounded; the 64-bit limit on nanoseconds is 292 years.
- JSON decoding and encoding, and the byte positions that `rewriteModel` keeps: events are records here.
- The traversal of request bodies, nested JSON strings and complete response bodies; each leaf goes through the members above.
- Counters of entities and unresolved placeholders, which only feed logs and metrics.
- Provider proofs and their storage.
- Everything before the reservation: authentication, routing, validation, estimates; each is settled by one branch.
- HTTP, vsock, TLS, attestation, key management and decryption around the modelled parts.
- Real goroutine scheduling, and the time that steps take.

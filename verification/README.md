# Senda client: a model and its proofs

Senda pools machines into a mesh that serves language models. This project models the parts of it
that decide what a request means, where it goes and how a model is split, and proves what those
parts promise. Each module is one component:

| modules | component |
|---|---|
| `Chunked`, `HttpHead`, `Normalize`, `NormalizeContent`, `NormalizedShape`, `HttpRead`, `HttpHeaders`, `HttpForwarding` | the HTTP request reader: chunked bodies decoded again after every read, size limits, OpenAI-style bodies normalised, the request rebuilt for forwarding |
| `Election`, `Affinity`, `AffinityRuns`, `AffinityMap`, `TextOrder`, `PrefixHash`, `HashLaws`, `Selectors` | the prefix-affinity router: a cache of learned targets, the canonical hash of a prompt's preamble, and the two ways a target is picked |
| `Experts`, `SnakeDraft`, `Overlap`, `Division`, `RankingFile` | mixture-of-experts placement: the snake draft, the overlapped round-robin and the ranking file |
| `Gguf`, `GgufRoundTrip`, `GgufAccepts`, `GgufProfile`, `GgufOwners` | the GGUF header scanner and its byte accounting |
| `Relay` | the RPC relay that rewrites the endpoint of REGISTER_PEER frames |
| `SplitRole`, `Demand`, `InventoryScan` | mesh-wide state: split roles seen by every peer, gossiped demand, the single-flight inventory scan |
| `Results`, `Wire`, `Utf8`, `Text`, `Json`, `Sets`, `Sorting` | bytes, text, UTF-8 (RFC 3629), JSON values, sizes and counts, and stable sorting, shared by the rest |

Code that changes state step by step is a method or a class here, proved equal to a function of the
old state; the properties are lemmas about that function. A transport is a list of reads, of which
every one is non-empty and at most 8192 bytes where a theorem says so; a locked section is one step;
a clock read is a parameter.

Where a promise does not hold on every input, the theorem says exactly when it does:

* A chunked body is answered as its bytes are answered as a whole, however they are cut, unless a
  read that starts before the answer is known ends beyond the wire limit: the limit is looked at
  before decoding (`ReadsAnyChunked`, `ReadsChunked`). An encoding that fills the limit is accepted
  when a read ends with it and refused when the last read also brings a pipelined byte
  (`PipelinedByteDecides`); no plain encoding of a body within the limit is refused
  (`PlainBodyArrives`).
* A forwarded request is read back as itself, with nothing left to normalise, if and only if it has
  at most 64 headers (rebuilding can add two), its re-serialised body is within the body limit, no
  read ends at or beyond 64 KiB while its head is still partial, and the JSON codec reads back the
  body that was re-serialised (`ForwardingIsAFixedPoint`). Accepted requests whose forwarded form is
  refused: one with 64 short headers (`SixtyFourHeadersAreRefusedAgain`), and a `/v1/responses` body
  with a text as its input that stays less than 31 bytes below the limit
  (`InputOutgrowsTheLimit`). A parser with a nesting limit reads back what is within its limit
  (`InverseReadsBack`); normalisation can nest a body up to four levels deeper (`NormalizeFits`,
  `AudioDeepensByFour`).
* Translating a `/v1/responses` body twice is the same as once, except when an empty `input` list
  without instructions leaves behind an existing `messages` member that is not in chat form, a
  shape stated without the translation (`TranslationIsIdempotent`, `LeftBehind`).
* Pruning the affinity cache from the front removes all and only expired entries if and only if no
  fresh entry stands before an expired one (`PruningIsExact`), at every time if and only if the
  deque is sorted by last use (`SortedIsAlwaysExact`). Learners read the clock before they take the
  lock; all runs prune exactly, and all runs answer like the simple map, if and only if no such
  read is below a stamp the cache then holds (`PruningIsExactWithoutLagOnly`,
  `RefinementNeedsOrder`). Calls that follow one another are such runs
  (`SequentialCallsImplementSimpleMap`). A single run, whatever its clock reads, keeps the entries,
  answers and statistics of the simple map if and only if no pruning leaves an expired entry behind,
  other than one that the pruning lookup looks for and then drops (`CacheAgreesExactly`).
* The two selectors agree exactly when a hash decides, or the round-robin counter happens to point
  at the first host's id (`SelectorsAgree`).
* The base/expert split of a GGUF file is the same for every order of its tensor table if and only
  if there is no profile at all or no expert and no base tensor share an offset below the data
  length (`TableOrderMattersExactly`).
* Losing fewer nodes than there are copies loses no expert; losing as many can (`LossesThatHurt`).
* The servers of a model that list only that model see one group or none
  (`SingleModelServersAgree`). Not every member of a group does: a parked peer that only requests
  the model sees none (`ParkedMemberSeesNoGroup`), and a peer that only hosts it is in a group
  nobody else sees (`HostedOnlyPeerIsAlone`). `MembersAgreeExactly` says when all members see the
  group, in terms of what they serve, host and request.
* Two relays in a row write what one relay through the composed map writes on every stream; the
  second ends cleanly although the first did not exactly when the first swallowed a cut frame
  (`RelaysCompose`).

Where the code and its comments disagree, the model follows the code. `classify_peer_split_role` says
(senda/src/api/mod.rs:290-292) that it finds the first model with co-serving peers and classifies a
multi-model node by its largest cohort. It takes the last candidate with a non-empty cohort
(`ChosenIsLastShared`): the first one if and only if the first and the last such candidate name the
same model (`FirstSharedIsChosen`), the largest if and only if no earlier candidate has a larger
cohort (`LargestIsChosen`); `NeitherFirstNorLargest` is an input where it is neither.

## Model

| member | source | states |
|---|---|---|
| `Chunked.TryDecodeChunkedBody` | senda-client/src/network/http_parse.rs:303-349 | the loop over `pos` and `decoded` gives the answer of the round-by-round decoder that the lemmas below characterise |
| `Chunked.DecoderStable` | senda-client/src/network/http_parse.rs:303-349 | a final answer, complete or error, is the same with any bytes appended |
| `Chunked.CompleteIsTight` | senda-client/src/network/http_parse.rs:303-349 | a complete body is within the limit and its encoding within the buffer; every shorter prefix of the encoding asks for more |
| `Chunked.DecoderAcceptsExactlyMessages` | senda-client/src/network/http_parse.rs:303-349 | the decoder completes with a length and a body if and only if the buffer starts with a chunked message of that length, that payload, within the limit |
| `Chunked.RefusesExactly` | senda-client/src/network/http_parse.rs:303-349 | it answers an error if and only if valid chunks within the limit are followed by a size line that is no text or no size, a chunk without its end of line, or a chunk that makes the body too large; and which error |
| `Chunked.PrintedSizeIsRead` | senda-client/src/network/http_parse.rs:312-315 | every size below 2^64, printed by division in either hexadecimal alphabet, with leading zeros, blanks around it and any extension behind a semicolon, is read as that size |
| `Chunked.OtherSizesAreRefused` | senda-client/src/network/http_parse.rs:312-315 | any other size text is refused: no digits, a character that is none, or 65 bits |
| `Chunked.DecoderLocal` | senda-client/src/network/http_parse.rs:303-349 | what follows the encoding does not matter: any cut at or after its end decodes alike |
| `Chunked.OverflowsExactly` | senda-client/src/network/http_parse.rs:314-340 | the position leaves 64 bits if and only if the buffer starts with valid chunks within the limit and then a size line whose chunk would end beyond the last position |
| `Chunked.LargestSizeOverflows` | senda-client/src/network/http_parse.rs:314-340 | a concrete such buffer: the size line of 2^64 - 1 alone |
| `Chunked.PlainCost` | senda-client/src/network/http_parse.rs:5-9 | an encoding with minimal hexadecimal sizes, no extension and no trailer takes at most 6 bytes per body byte plus 5, which is what the wire limit allows for |
| `HttpHead.HeadRoundTrip` | senda-client/src/network/http_parse.rs:184-291 | a well-formed printed head parses back to itself and its own length, whatever follows |
| `HttpHead.HeadStable` | senda-client/src/network/http_parse.rs:230-291 | a parsed or malformed head stays so with any bytes appended |
| `HttpHead.HeadLocal` | senda-client/src/network/http_parse.rs:230-291 | a head parsed from a buffer parses alike from any cut at or after its end |
| `HttpHead.HeadPrefixPartial` | senda-client/src/network/http_parse.rs:235-290 | every proper prefix of a parsed head is partial, so the loop reads on and never stops early |
| `HttpHead.ParsedIsWellFormed` | senda-client/src/network/http_parse.rs:239-281 | whatever parses is a head that can be printed again |
| `HttpHeaders.HeaderLineIs` | senda-client/src/network/http_parse.rs:239-281 | a header line is read if and only if it is a name, a colon and a value with any blanks around it, and then as these |
| `HttpHeaders.RequestLineIs` | senda-client/src/network/http_parse.rs:239-252 | a request line is read if and only if it is what is printed for a method, a path and a version |
| `HttpHead.LongHeadIsMalformed` | senda-client/src/network/http_parse.rs:236-288 | a head with more than 64 headers is an error, not a partial head |
| `HttpRead.Transport.ReadMore` | senda-client/src/network/http_parse.rs:293-301 | one read appends its bytes; an empty read is the end of the stream and an error |
| `HttpRead.ReadUntilHeadersParsed` | senda-client/src/network/http_parse.rs:230-291 | the head, the bytes read and the reads left are those of the reading function, with the 64 KiB limit on partial heads |
| `HttpRead.FrameHeaders` | senda-client/src/network/http_parse.rs:243-271 | the framing loop folds Content-Length, Transfer-Encoding and Expect with the last one winning, and chunked overriding the length |
| `HttpHeaders.HeaderSays` | senda-client/src/network/http_parse.rs:243-271 | what each header adds: its name in any case, a length that must be a number, words of a comma-separated list in any case and with any white space |
| `HttpRead.ReadChunkedFrom` | senda-client/src/network/http_parse.rs:80-102 | result, reads left, and an interim response sent at most once and only when the client expects one and bytes are missing |
| `HttpRead.ReadSizedFrom` | senda-client/src/network/http_parse.rs:103-119 | the same for a body of a stated length, with the body limit checked first by the caller |
| `HttpRead.ReadBodyFrom` | senda-client/src/network/http_parse.rs:80-123 | the three ways of framing a body, the error for a stated length above the limit, and the interim response: sent if and only if the client expects one and the body lacks bytes |
| `HttpRead.KeepHeaders` | senda-client/src/network/http_parse.rs:202-218 | the header loop drops Connection, a stripped Expect and, for a rewritten body, the old framing headers, and keeps the rest in order |
| `HttpHeaders.KeptIs` | senda-client/src/network/http_parse.rs:202-218 | the fate of one header, by its name in any case; with `KeptInOrder`, of all of them in order |
| `HttpHeaders.ForwardedHeadIs` | senda-client/src/network/http_parse.rs:184-223 | method and version stay, the new path, the kept headers, the length of a new body and `Connection: close` |
| `HttpHeaders.RequestNames` | senda-client/src/network/http_parse.rs:150-169 | the model and the session are the texts under `model` and under `user`, else `session_id` |
| `HttpHeaders.LimitsAre` | senda-client/src/network/http_parse.rs:171-182 | object uploads have the 64 MiB limit, with or without a query, all else 8 MiB |
| `HttpRead.FinalizeForwardedRequest` | senda-client/src/network/http_parse.rs:184-228 | the rebuilt bytes are the printed forwarded head followed by the rewritten or the original body |
| `HttpRead.RebuildRequest` | senda-client/src/network/http_parse.rs:125-169 | JSON parsed, normalised and re-serialised only when changed; model and session taken from the normalised body |
| `HttpRead.ReadHttpRequest` | senda-client/src/network/http_parse.rs:73-169 | the whole call, with its errors, is the reading function the forwarding theorem is about; what is sent to the client is the interim response if and only if its headers ask for one and the body lacks bytes when the head has been read |
| `HttpForwarding.ReadsHead` | senda-client/src/network/http_parse.rs:230-301 | over every fragmentation, a well-formed head is found, with nothing read lost, unless a read ends at or beyond 64 KiB inside it |
| `HttpForwarding.SmallHeadIsNeverCut` | senda-client/src/network/http_parse.rs:282-286 | which never happens to a head of at most 64 KiB |
| `HttpForwarding.CutHeadIsNotRead` | senda-client/src/network/http_parse.rs:282-286 | a head cut that way is refused as too large |
| `HttpForwarding.ReadsAnyChunked` | senda-client/src/network/http_parse.rs:80-102 | over every fragmentation of every stream, broken ones too: the answer is that of the stream as a whole, or the wire limit is hit, exactly when a read that starts before the deciding byte ends beyond it |
| `HttpForwarding.ReadsChunked` | senda-client/src/network/http_parse.rs:80-102 | so a stream that starts with a complete encoding yields its body and keeps exactly the encoding, unless a read that starts inside the encoding ends beyond the wire limit; then it is refused as too large |
| `HttpForwarding.PipelinedByteDecides` | senda-client/src/network/http_parse.rs:94-101 | one stream with two answers: an encoding that fills the wire limit, its last byte read alone or with a pipelined one |
| `HttpForwarding.PlainBodyArrives` | senda-client/src/network/http_parse.rs:80-102 | for every body within the limit, every split into plain chunks, every fragmentation and anything pipelined behind it: exactly that body, exactly its encoding kept, the wire limit never hit |
| `HttpForwarding.AnyChunkedRequest` | senda-client/src/network/http_parse.rs:73-169 | the outcome of any chunked request, whole or broken, however it is cut |
| `HttpForwarding.ChunkedRequestArrives` | senda-client/src/network/http_parse.rs:73-169 | the same for a whole chunked request: what is rebuilt is its head and its payload, and pipelined bytes stay out |
| `HttpForwarding.SizedRequestArrives` | senda-client/src/network/http_parse.rs:73-169 | the same for a body of a stated length, empty when none is stated |
| `HttpForwarding.ChunkedWasRead` | senda-client/src/network/http_parse.rs:80-102 | a chunked body that was accepted decodes to the same body on its own and is within the wire limit |
| `HttpForwarding.ForwardedFraming` | senda-client/src/network/http_parse.rs:200-223 | the forwarded headers frame exactly the body that is sent and expect no interim response |
| `HttpForwarding.ForwardedHeadStays` | senda-client/src/network/http_parse.rs:184-228 | rebuilding a forwarded head gives the same head |
| `HttpForwarding.ForwardingIsAFixedPoint` | senda-client/src/network/http_parse.rs:73-228 | reading a forwarded request again, fragmented in any way, can succeed only if the header count, the body limit and the head limit allow it; it gives the same head, body and JSON with nothing to normalise if and only if they do and the codec reads back the re-serialised body, and then the same bytes, method, path, model and session |
| `HttpForwarding.InverseReadsBack` | senda-client/src/network/http_parse.rs:125-148 | a codec that is inverse on the values it can read, known by their number texts and a limit on nesting, reads a re-serialised body back if and only if that body is within its limit, which normalisation exceeds by at most four levels |
| `NormalizedShape.NormalizeFits` | senda-client/src/network/http_parse.rs:376-675 | a normalised body holds no number that the body did not hold and nests at most four levels deeper |
| `NormalizedShape.AudioDeepensByFour` | senda-client/src/network/http_parse.rs:425-656 | and four it can be: an audio item alone as the input, with its data outside the container |
| `HttpForwarding.FullTableIsRefusedAgain` | senda-client/src/network/http_parse.rs:184-228 | a bodyless request with 64 headers, none of them one the reader looks at, is accepted and its forwarded form refused |
| `HttpForwarding.SixtyFourHeadersAreRefusedAgain` | senda-client/src/network/http_parse.rs:184-228 | a concrete such request |
| `HttpForwarding.GrownBodyIsRefusedAgain` | senda-client/src/network/http_parse.rs:125-157 | a request whose normalised body prints above the body limit is accepted and its forwarded form refused |
| `HttpForwarding.InputOutgrowsTheLimit` | senda-client/src/network/http_parse.rs:125-157 | the natural such request: a text as the input, less than 31 bytes below the limit, under any codec that prints without white space |
| `HttpForwarding.InputGrows` | senda-client/src/network/http_parse.rs:583-656 | its body becomes a conversation of one message, and 31 bytes longer |
| `Normalize.JsonObject.AliasMaxTokens` | senda-client/src/network/http_parse.rs:376-386 | the alias loop leaves neither alias, keeps an existing `max_tokens`, else takes the first alias present, and reports whether one was there |
| `Normalize.JsonObject.DropResponsesKeys` | senda-client/src/network/http_parse.rs:658-674 | exactly the listed response-only members go, and the report says whether any was there |
| `Normalize.JsonObject.TranslateOpenAiResponsesInput` | senda-client/src/network/http_parse.rs:628-675 | the in-place translation is the translating function, with the same error on the same input |
| `Normalize.NormalizeInPlace` | senda-client/src/network/http_parse.rs:388-423 | the body, the changed flag, the rewritten path and the response adapter |
| `NormalizeContent.ItemIsDelivered` | senda-client/src/network/http_parse.rs:432-530 | every content item becomes the block of its kind with its own text, or with a container that holds its object, its url and its own members and nothing else; or it is refused for what it lacks |
| `NormalizeContent.ContentIsDelivered` | senda-client/src/network/http_parse.rs:532-556 | a content is delivered block by block, in order; one text block alone as its text; refused for its first item that is refused |
| `NormalizeContent.MessageIsDelivered` | senda-client/src/network/http_parse.rs:425-581 | a message keeps its role, `developer` becoming `system` and none `user`, and delivers its content |
| `NormalizeContent.InputIsDelivered` | senda-client/src/network/http_parse.rs:583-626 | messages are delivered one by one in order; anything else is one message of the user |
| `NormalizeContent.BodyIsDelivered` | senda-client/src/network/http_parse.rs:628-675 | the instructions, trimmed and unless blank, come first as the system; then the input or else the messages; every other member stays but for the nine listed |
| `NormalizeContent.MaxTokensIs` | senda-client/src/network/http_parse.rs:376-386 | `max_tokens` keeps its value, else takes that of the completion alias, else of the output alias; nothing else changes |
| `NormalizeContent.PathIs` | senda-client/src/network/http_parse.rs:365-374 | a rewritten path keeps its query |
| `NormalizeContent.NormalizedIs` | senda-client/src/network/http_parse.rs:388-423 | the whole: which paths are translated, which adapter answers, and that the report is true exactly when there was something to do |
| `Normalize.NormalizeIsIdempotent` | senda-client/src/network/http_parse.rs:388-423 | normalising a normalised request changes nothing and reports nothing changed; an unchanged report means an unchanged body |
| `Normalize.ChatMessagesAreFixed` | senda-client/src/network/http_parse.rs:451-581 | a message translates to itself if and only if it has the chat shape: exactly a role other than developer and a content that is a text or a list of four kinds of blocks, not one text block alone |
| `Normalize.LeftBehind` | senda-client/src/network/http_parse.rs:646-656 | a concrete body that is translated differently the second time |
| `Normalize.ChatBodyStays` | senda-client/src/network/http_parse.rs:541-675 | a body without response-only members is left alone if and only if its messages are already in chat form |
| `Normalize.TranslationIsIdempotent` | senda-client/src/network/http_parse.rs:583-675 | translating twice is translating once, if and only if a conversation the translation left alone was in chat form |
| `Election.ModelTargets.PickFrom` | senda-client/src/inference/election.rs:97-105 | the target under the shared counter, which advances by one modulo 2^64 and only for a non-empty list |
| `Election.RoundRobin` | senda-client/src/inference/election.rs:97-114 | a list is gone through from its start, round after round; an empty one gives no target |
| `Affinity.AffinityRouter.PruneExpired` | senda-client/src/network/affinity.rs:224-244 | the front-only scan of the deque, stopping at the first fresh entry |
| `Affinity.AffinityRouter.RemoveFromLru` | senda-client/src/network/affinity.rs:246-259 | the key's first position goes, the rest keeps its order |
| `Affinity.AffinityRouter.LookupTarget` | senda-client/src/network/affinity.rs:119-155 | hit, miss and stale hit: answer, entries, order and statistics |
| `Affinity.AffinityRouter.LearnTarget` | senda-client/src/network/affinity.rs:157-194 | a learnable target replaces its entry, goes to the back, and the front is evicted down to 4096 |
| `Affinity.AffinityRouter.ForgetTarget` | senda-client/src/network/affinity.rs:196-215 | an entry goes only when it still names the given target |
| `Affinity.AffinityRouter.StatsSnapshot` | senda-client/src/network/affinity.rs:95-103 | the statistics after pruning, with the number of live entries and the two switches |
| `AffinityRuns.StepKeeps` | senda-client/src/network/affinity.rs:95-259 | every call keeps the invariant: the deque lists the map's keys without duplicates, ordered by time of use up to the lag, within capacity, with consistent statistics |
| `AffinityRuns.RunKeeps` | senda-client/src/network/affinity.rs:95-259 | so does every run of calls |
| `AffinityRuns.LearnKeeps` | senda-client/src/network/affinity.rs:157-194 | learning keeps the invariant and the key just learned always survives eviction |
| `AffinityRuns.LearnedIsFound` | senda-client/src/network/affinity.rs:119-194 | a local or remote target that was learned is found by the next lookup for 20 minutes, and not after |
| `AffinityRuns.OthersAreNotLearned` | senda-client/src/network/affinity.rs:157-172 | the other three kinds of target change nothing |
| `AffinityRuns.FullCacheEvicts` | senda-client/src/network/affinity.rs:173-194 | a new key in a cache of 4096 fresh entries takes the place of the least recently used one |
| `AffinityRuns.PruningKeeps` | senda-client/src/network/affinity.rs:224-244 | pruning keeps exactly the fresh keys and the expired ones that stand behind a fresh one |
| `AffinityRuns.PruningIsExact` | senda-client/src/network/affinity.rs:224-244 | front-only pruning keeps exactly the unexpired entries if and only if no fresh entry stands before an expired one |
| `AffinityRuns.SurvivorsAreYoung` | senda-client/src/network/affinity.rs:157-194 | when a learner's clock read is at most `lag` below the stamps held when it gets the lock, no survivor of pruning is older than the limit plus the lag; without lag pruning is exact |
| `AffinityRuns.NoOldSurvivorInAnyRun` | senda-client/src/network/affinity.rs:157-244 | the same over every run from the empty router |
| `AffinityRuns.SortedIsAlwaysExact` | senda-client/src/network/affinity.rs:224-244 | pruning a state is exact at every time if and only if its deque is sorted by last use |
| `AffinityRuns.PruningIsExactWithoutLagOnly` | senda-client/src/network/affinity.rs:157-244 | pruning is exact in all runs if and only if no learner's read may be below a stamp held; if it may, by however little, there is a run that keeps an expired entry |
| `AffinityRuns.ClockedIsTimed` | senda-client/src/network/affinity.rs:173-194 | calls that follow one another, and learners that wait for the lock at most `lag`, are such runs, without and with that lag |
| `AffinityMap.StepAgrees` | senda-client/src/network/affinity.rs:95-259 | a call gives the cache and the simple map the same entries, answer and statistics exactly when its pruning leaves nothing expired but the key that a lookup looks for and then drops; otherwise their counts of stale entries differ |
| `AffinityMap.CacheAgreesExactly` | senda-client/src/network/affinity.rs:95-259 | so does every run, whatever its clock reads, if and only if all its calls are such |
| `AffinityMap.NothingIsLeft` | senda-client/src/network/affinity.rs:224-244 | a pruning leaves nothing expired if and only if no fresh entry stands before an expired one |
| `AffinityMap.OvertakenIsLeft` | senda-client/src/network/affinity.rs:119-155 | one state in which pruning is not exact and a lookup does no harm or does, as its candidates are |
| `AffinityMap.CacheImplementsSimpleMap` | senda-client/src/network/affinity.rs:95-259 | over every run in which no learner's read is below a stamp held, the map and the deque answer exactly as a plain map that drops what is too old and, above 4096 entries, the least recently used one |
| `AffinityMap.SequentialCallsImplementSimpleMap` | senda-client/src/network/affinity.rs:95-259 | so they do over every run of calls that follow one another, with the two clock reads of a learner as far apart as they may be, and every pruning is exact |
| `AffinityMap.RefinementNeedsOrder` | senda-client/src/network/affinity.rs:157-259 | and only then: a learner whose read is below a stamp held can make a lookup hit what the plain map has dropped |
| `AffinityRuns.HitIsACandidate` | senda-client/src/network/affinity.rs:119-155 | a hit is one of the candidates, is what was stored, and is not older than the limit plus the lag |
| `TextOrder.AscendingIsUnique` | senda-client/src/network/affinity.rs:347-356 | two strictly ascending key lists with the same keys are the same list, so a sorted key list is canonical |
| `PrefixHash.CollectKeys` | senda-client/src/network/affinity.rs:347-356 | the keys of an object collected in any order and sorted are its one ascending key list |
| `PrefixHash.HashJsonValue` | senda-client/src/network/affinity.rs:324-358 | the accumulator loop computes the recursive hash of the value |
| `PrefixHash.ScaffoldPrefixHashFromBody` | senda-client/src/network/affinity.rs:365-399 | the hash over the scaffold members and the messages before the first user message, or nothing when none is there |
| `PrefixHash.RoutingKeysOf` | senda-client/src/network/affinity.rs:401-440 | the session, prefix and sticky keys of a body |
| `PrefixHash.ReorderedMeansEqual` | senda-client/src/network/affinity.rs:324-358 | documents that differ in the order of object members, at every depth, denote the same value |
| `PrefixHash.HashIgnoresMemberOrder` | senda-client/src/network/affinity.rs:324-358 | such documents hash equally from any accumulator |
| `PrefixHash.OnlyThePreambleCounts` | senda-client/src/network/affinity.rs:365-399 | nothing from the first user message on enters the message part of the hash |
| `HashLaws.KnownHashes` | senda-client/src/network/affinity.rs:309-313 | the byte hash has the published 64-bit FNV-1a values |
| `HashLaws.OneByteApart` | senda-client/src/network/affinity.rs:309-313 | byte strings that differ in one place hash differently; no step loses its accumulator or its byte |
| `HashLaws.HashIsFold` | senda-client/src/network/affinity.rs:315-358 | the hash of a value is the fold of `31 * h + t` modulo 2^64 over its tokens: tag and text of a scalar, tag, length and items, tag and sorted members |
| `HashLaws.OneTokenApart` | senda-client/src/network/affinity.rs:315-317 | one token changed anywhere changes the fold |
| `HashLaws.OneChangeCounts` | senda-client/src/network/affinity.rs:324-358 | two values that differ in one scalar or key, at any depth, hash alike if and only if its two texts do |
| `HashLaws.ScaffoldIsFold` | senda-client/src/network/affinity.rs:360-399 | the prefix key is the fold over the five named members and the system and developer messages before the first user message; none exactly when there are none |
| `HashLaws.MemberCounts` | senda-client/src/network/affinity.rs:365-384 | requests that differ in one scalar or key of a named member have one prefix key if and only if its two texts hash alike |
| `HashLaws.SystemTextCounts` | senda-client/src/network/affinity.rs:385-397 | so have requests that differ in one system or developer text |
| `HashLaws.TextOfMessage` | senda-client/src/network/affinity.rs:290-307 | the text of a message is its content, or that of its blocks, a line each |
| `HashLaws.FirstUserCounts` | senda-client/src/network/affinity.rs:401-412 | the first user message decides the key of the user, by its text |
| `HashLaws.StickyIsFold` | senda-client/src/network/affinity.rs:414-440 | the session key is the hash of `user`, else of `session_id`; the sticky key is it, or the fold of prefix and user keys |
| `PrefixHash.ScaffoldIgnoresTheConversation` | senda-client/src/network/affinity.rs:365-399 | bodies with the same scaffold members and the same messages before the first user message have the same scaffold hash |
| `PrefixHash.RoutingIgnoresMemberOrder` | senda-client/src/network/affinity.rs:401-440 | all three routing keys ignore member order |
| `Selectors.RotateTargetsByHash` | senda-client/src/network/affinity.rs:442-447 | the array rotated left, in place, by the key modulo its length |
| `Selectors.RotatedAt` | senda-client/src/network/affinity.rs:442-447 | position by position: the list starts at the key and goes around once |
| `Selectors.MoveTargetFirst` | senda-client/src/network/affinity.rs:449-459 | the first occurrence of the target moved to the front, in place, the rest keeping its order |
| `Selectors.SelectModelTargetFromCandidates` | senda-client/src/network/affinity.rs:465-530 | selection, router state and counter in every branch |
| `Selectors.PrepareRemoteTargetsForRequest` | senda-client/src/network/affinity.rs:532-579 | prepared list and router state in every branch |
| `Selectors.SessionDecides` | senda-client/src/network/affinity.rs:465-487 | a session decides first, and nothing is learned |
| `Selectors.PrefixDecides` | senda-client/src/network/affinity.rs:488-497 | then what was learned for the prefix under the model, if it is a live candidate |
| `Selectors.TheRestDecides` | senda-client/src/network/affinity.rs:498-530 | then the prefix, the sticky key or the counter, in this order of precedence |
| `Selectors.SameLearning` | senda-client/src/network/affinity.rs:465-579 | on the same request both selectors give the same hash to learn, the same cached target and the same final router state |
| `Selectors.HeadIsSelected` | senda-client/src/network/affinity.rs:465-579 | in every branch a hash decides, the selected target is the head of the prepared list and the counter is untouched |
| `Selectors.CounterDecides` | senda-client/src/network/affinity.rs:509-529 | in the other branches the prepared list is the host list and the counter picks |
| `Selectors.SelectorsAgree` | senda-client/src/network/affinity.rs:465-579 | target and head agree if and only if a hash decides or the counter points at the first host |
| `Selectors.PreparedIsPermutation` | senda-client/src/network/affinity.rs:532-579 | the prepared list is always a permutation of the hosts |
| `Selectors.CachedHitKeepsTheRest` | senda-client/src/network/affinity.rs:557-562 | a cached hit is moved to the front and the other hosts keep their order |
| `Experts.AssignedHolds` | senda-client/src/inference/moe.rs:169-182 | for disjoint duplicate-free core and own experts, a node's list is ascending, duplicate-free and holds exactly both |
| `SnakeDraft.ComputeSnakeDraftAssignments` | senda-client/src/inference/moe.rs:191-237 | the drafting loop gives every node its share, with the early returns |
| `SnakeDraft.SnakeDraftBalances` | senda-client/src/inference/moe.rs:187-237 | for any weights that do not increase along the ranking, two nodes' totals differ by at most the weight of the first drafted expert, and their counts by at most one |
| `SnakeDraft.SnakeDraftCovers` | senda-client/src/inference/moe.rs:191-237 | for a duplicate-free ranking: every node holds the replicated experts, every other expert is on exactly one node, lists are ascending and of the stated length |
| `SnakeDraft.SnakeOrder` | senda-client/src/inference/moe.rs:218-228 | the first round goes from the first node to the last, the second back, and so on |
| `SnakeDraft.NothingSplit` | senda-client/src/inference/moe.rs:191-206 | with at most one node, or everything replicated, every node holds the whole ranking |
| `Overlap.ComputeAssignmentsWithOverlap` | senda-client/src/inference/moe.rs:136-185 | the dealing loops give every node its share, with the early returns and the clamped overlap |
| `Overlap.DealOne` | senda-client/src/inference/moe.rs:162-167 | one expert is pushed to the nodes that are to hold it and to no other |
| `Overlap.OverlapCounts` | senda-client/src/inference/moe.rs:136-185 | unique counts sum to copies times the experts dealt and differ by at most the number of copies |
| `Overlap.OverlapCovers` | senda-client/src/inference/moe.rs:136-185 | for a duplicate-free ranking: core experts are on all nodes, every other on exactly as many distinct nodes as there are copies, lists ascending, duplicate-free and of the stated length |
| `Overlap.DealtFrom` | senda-client/src/inference/moe.rs:155-160 | the i-th expert dealt is on the i-th node modulo their number and on those after it, as many as there are copies |
| `Overlap.NothingSplit` | senda-client/src/inference/moe.rs:136-148 | with at most one node, or all in the core, every node holds the whole ranking |
| `Overlap.SurvivesLosses` | senda-client/src/inference/moe.rs:128-185 | for a duplicate-free ranking: after losing any fewer nodes than there are copies, every expert is still held |
| `Overlap.LossesThatHurt` | senda-client/src/inference/moe.rs:128-185 | for a duplicate-free ranking: losing as many nodes as there are copies can lose an expert, so the bound is sharp |
| `RankingFile.CachedRankingMetadata.Parse` | senda-client/src/inference/moe.rs:265-287 | one comment line updates at most the field its key names, a value that does not parse clearing it |
| `RankingFile.LoadSharedRankingArtifact` | senda-client/src/inference/moe.rs:290-339 | the scan over the lines gives the loaded artifact, or none without any expert |
| `RankingFile.WriteSharedRankingArtifact` | senda-client/src/inference/moe.rs:342-375 | the text written, or a refusal of an empty ranking |
| `RankingFile.LinesRoundTrip` | senda-client/src/inference/moe.rs:290-314 | splitting joined lines gives the lines back |
| `RankingFile.DataLineLoads` | senda-client/src/inference/moe.rs:288-311 | a number with blanks around it and any columns behind a comma is an expert |
| `RankingFile.CommentLoads` | senda-client/src/inference/moe.rs:265-287 | a comment stores its value under its key with any blanks between them |
| `RankingFile.KnownFile` | senda-client/src/inference/moe.rs:340-374 | two written files, to the letter |
| `RankingFile.WrittenLoads` | senda-client/src/inference/moe.rs:264-375 | loading a written artifact gives its origin, ranking and optional fields; exactly the absent fields take the caller's values |
| `RankingFile.RankingFileRoundTrip` | senda-client/src/inference/moe.rs:264-375 | with the same kind and no values of the caller's own the artifact comes back unchanged and prints to the same text |
| `Gguf.File.Exact` | senda-client/src/models/gguf.rs:68-90 | the bytes at the cursor, which moves behind them, or a failure at the end of the file |
| `Gguf.File.SkipGgufValue` | senda-client/src/models/gguf.rs:138-172 | the recursive skip ends, and lands where the skipping function says, with the same failures |
| `Gguf.File.AsU32` | senda-client/src/models/gguf.rs:174-202 | any of the integer types read as unsigned, a negative one refused, every other type skipped |
| `Gguf.File.TensorInfos` | senda-client/src/models/gguf.rs:468-496 | the tensor table read entry by entry, with at most 8 dimensions each |
| `Gguf.ScanGgufTensorNames` | senda-client/src/models/gguf.rs:526-550 | the names in the order of the table, or none when anything is malformed |
| `GgufRoundTrip.SkipLands` | senda-client/src/models/gguf.rs:126-172 | skipping an encoded value lands exactly at its end, whatever follows, if its arrays fit 64 levels; otherwise it fails |
| `GgufRoundTrip.NamesRoundTrip` | senda-client/src/models/gguf.rs:526-550 | scanning a printed header returns every tensor name in order |
| `GgufAccepts.SkippedIs` | senda-client/src/models/gguf.rs:126-172 | a value skipped inside the file is an encoded one within the limits |
| `GgufAccepts.ScansExactly` | senda-client/src/models/gguf.rs:468-550 | a file scans to a non-empty list of names if and only if it starts with a printed header of these tensors, within all limits |
| `GgufAccepts.KnownTypes` | senda-client/src/models/gguf.rs:38-66 | the type codes and sizes |
| `GgufProfile.ScanKvs` | senda-client/src/models/gguf.rs:579-602 | the metadata loop keeps the last expert counts and alignment and skips everything else |
| `GgufProfile.SumSizes` | senda-client/src/models/gguf.rs:623-644 | the loop over the sorted table sums base and expert bytes, or fails at an offset out of order or range |
| `GgufProfile.ScanGgufTensorByteProfile` | senda-client/src/models/gguf.rs:562-655 | the whole profile, or none, for every file |
| `GgufProfile.AccountingIsExact` | senda-client/src/models/gguf.rs:604-655 | for a non-empty table the profile exists if and only if the aligned data start is in the file and every offset in the data; base, expert and overhead add up to the file, and base and expert to the data from the least offset on |
| `GgufOwners.ProfileCountsOwners` | senda-client/src/models/gguf.rs:618-653 | the expert bytes are the number of data positions whose owner is an expert tensor, the base bytes of those whose owner is not; the owner has the greatest offset not above the position, the later in the table on a tie |
| `GgufOwners.ExpertTensors` | senda-client/src/models/gguf.rs:498-511 | a tensor is an expert if and only if its name mentions one of six marks and none of three, in any case |
| `GgufOwners.MembersCount` | senda-client/src/models/gguf.rs:571-602 | which keys hold the alignment and the two counts, and their values without them |
| `GgufProfile.AlignIsLeastMultiple` | senda-client/src/models/gguf.rs:458-466 | the aligned value is the least multiple of the alignment not below the value; alignment 0 and 1 do nothing |
| `GgufProfile.TableOrderIsIrrelevant` | senda-client/src/models/gguf.rs:604-655 | with distinct offsets any order of the table gives the same profile |
| `GgufProfile.TiesFollowTableOrder` | senda-client/src/models/gguf.rs:623-644 | of two tensors at one offset inside the data the one later in the table gets the bytes: exchanging them leaves the profile alone if and only if both or neither are expert tensors |
| `GgufProfile.TableOrderMattersExactly` | senda-client/src/models/gguf.rs:604-655 | for every table, all orders give the same profile if and only if the data start or some offset is out of range, or no expert and base tensor share an offset inside the data |
| `GgufProfile.HeaderRoundTrip` | senda-client/src/models/gguf.rs:562-616 | parsing a printed header gives its metadata, its tensor table and its length |
| `Relay.RewriteEndpoint` | senda-client/src/network/rewrite.rs:75-115 | the 128 endpoint bytes of the buffer are overwritten in place if and only if their port is mapped; the peer id stays |
| `Relay.CopyPayload` | senda-client/src/network/rewrite.rs:119-135 | however the stream cuts its reads, exactly the payload is passed on, or all there is when the stream ends |
| `Relay.RelayFrame` | senda-client/src/network/rewrite.rs:66-135 | one frame passed on, rewritten or verbatim |
| `Relay.RelayWithRewrite` | senda-client/src/network/rewrite.rs:48-135 | the bytes written and whether the relay ended between two frames |
| `Relay.RelayRewritesFrames` | senda-client/src/network/rewrite.rs:48-135 | on any well-formed frames the output is the same frames with only mapped endpoints rewritten, and of the same total length |
| `Relay.CleanIffFrames` | senda-client/src/network/rewrite.rs:48-135 | the relay ends cleanly if and only if the input is a sequence of whole frames |
| `Relay.LocalEndpointPort` | senda-client/src/network/rewrite.rs:75-115 | parsing a printed endpoint gives its port back |
| `Relay.LocalEndpointIs` | senda-client/src/network/rewrite.rs:91-97 | the endpoint written is `127.0.0.1:`, the port and zeros, byte by byte |
| `Relay.PortIsRead` | senda-client/src/network/rewrite.rs:77-88 | an endpoint that names any host is mapped by the port behind its last colon, up to a zero byte |
| `Relay.FrameRewrites` | senda-client/src/network/rewrite.rs:66-115 | exactly frames of command 18 and 132 bytes with a mapped port change, and how |
| `Relay.RewrittenTwice` | senda-client/src/network/rewrite.rs:75-115 | rewriting an endpoint by one map and then another is rewriting it by their composition |
| `Relay.RelaysCompose` | senda-client/src/network/rewrite.rs:48-135 | on every stream two relays in a row write what one writes through the composed map; the second ends cleanly if and only if what is left behind the whole frames is nothing the first passes on |
| `SplitRole.ClassifyPeerSplitRole` | senda/src/api/mod.rs:277-458 | the loop over candidate models and the gates behind it classify as the function below does |
| `SplitRole.ChosenIsLastShared` | senda/src/api/mod.rs:300-325 | the model chosen is the last candidate another peer serves or requests, or the last of all when there is none |
| `SplitRole.FirstSharedIsChosen` | senda/src/api/mod.rs:290-325 | it is the first such candidate if and only if the first and the last name the same model |
| `SplitRole.LargestIsChosen` | senda/src/api/mod.rs:290-325 | its cohort is the largest if and only if no earlier candidate has a larger one |
| `SplitRole.NeitherFirstNorLargest` | senda/src/api/mod.rs:290-325 | an input where it is neither |
| `SplitRole.SeesTheView` | senda/src/api/mod.rs:336-441 | the group every peer that serves or requests a model would get for it is one function of the peer list |
| `SplitRole.SplitViewsAgree` | senda/src/api/mod.rs:277-458 | two peers in the cohort of a model see the same group when both chose that model, and a group only then |
| `SplitRole.SingleModelServersAgree` | senda/src/api/mod.rs:277-458 | when the peers that serve a model list only that model, all of them get the same group or none gets any |
| `SplitRole.MembersAgreeExactly` | senda/src/api/mod.rs:277-458 | all members of a group see it if and only if the peer it was found for serves or requests the model, or adds no memory and no printed id of its own, and every peer that serves or requests it is no client and has it as its last shared candidate |
| `SplitRole.ParkedMemberSeesNoGroup` | senda/src/mesh/mod.rs:1033-1041 | a parked peer that only requests the model is in the host's group and sees none |
| `SplitRole.HostedOnlyPeerIsAlone` | senda/src/api/mod.rs:293-346 | a host that neither serves nor requests the model it hosts is in a group the serving peer does not see |
| `SplitRole.GroupMeansOneHost` | senda/src/api/mod.rs:336-449 | any group a peer gets names the one peer, of the list and itself, that routes the model, which cannot hold it alone; its ids are those of the peer and of a non-empty cohort; the peer is a pipeline host if and only if it is that one |
| `SplitRole.GroupExactly` | senda/src/api/mod.rs:277-458 | there is a group if and only if the peer is no client and its last shared candidate has exactly one routing peer, of whose model nobody reports a size or somebody reports one it does not hold with a tenth to spare; and the role follows |
| `SplitRole.SizeDecides` | senda/src/api/mod.rs:209-211 | for a host and a worker, in terms of the one size reported |
| `SplitRole.HostsThatFitAndNot` | senda/src/api/mod.rs:376-387 | 24 GB hold a model of 8 GB and get no group, 4 GB do not and get one |
| `SplitRole.OnePipelineHost` | senda/src/api/mod.rs:404-449 | no two peers of a list are badged pipeline hosts of one model |
| `Demand.DemandTable.MergeDemand` | senda-client/src/mesh/types.rs:175-184 | the loop, in whatever order it visits their entries, merges the two tables |
| `Demand.MergeIsIdempotent` | senda-client/src/mesh/types.rs:175-184 | merging a table into itself changes nothing |
| `Demand.MergeIsCommutative` | senda-client/src/mesh/types.rs:175-184 | the side that merges does not matter |
| `Demand.MergeIsAssociative` | senda-client/src/mesh/types.rs:175-184 | nor does the grouping |
| `Demand.MergeIsLeastUpperBound` | senda-client/src/mesh/types.rs:175-184 | the merge is above both tables and below everything above both |
| `Demand.RunKeeps` | senda-client/src/mesh/types.rs:175-184 | over every run of raises, sends and deliveries with loss, duplication and reordering, no entry decreases and none exceeds the maximum of all local updates |
| `Demand.HeardIsHeld` | senda-client/src/mesh/types.rs:175-184 | a node that received a snapshot sent since a point in time holds at least what its sender held then |
| `Demand.ReachedIsHeld` | senda-client/src/mesh/types.rs:175-184 | a node holds at least the first table of every node whose entries have reached it, through however many others |
| `Demand.HeardReaches` | senda-client/src/mesh/types.rs:175-184 | hearing a sender directly is one way of being reached |
| `Demand.GossipConverges` | senda-client/src/mesh/types.rs:175-184 | once no node raises entries and every other node's table has reached a node, directly or through others, its table is the maximum of all updates, the same on all such nodes |
| `InventoryScan.ApiInner.Enrol` | senda/src/api/mod.rs:1015-1026 | the caller joins the waiters, and starts a scan exactly when none was running: the call step of the machine |
| `InventoryScan.ApiInner.TakeWaiters` | senda/src/api/mod.rs:1040-1044 | the flag falls and the waiters are taken in one step: the finishing step of the machine |
| `InventoryScan.ApiInner.Complete` | senda/src/api/mod.rs:1028-1047 | every waiter taken is answered once with the snapshot, or with the default when the scan failed |
| `InventoryScan.DeliveryIsSends` | senda/src/api/mod.rs:1045-1047 | the answers a task gives after the locked step are one sending step per waiter, in order |
| `InventoryScan.StepKeeps` | senda/src/api/mod.rs:1014-1055 | every step keeps the invariant: one scan while the flag holds, the flag while callers wait, every call in exactly one place |
| `InventoryScan.RunKeeps` | senda/src/api/mod.rs:1014-1055 | so does every interleaving |
| `InventoryScan.SingleFlight` | senda/src/api/mod.rs:1014-1055 | in every reachable state at most one scan is active, the flag holds if and only if waiters are enrolled, and no call is lost or answered twice |
| `InventoryScan.WaitersHaveAScan` | senda/src/api/mod.rs:1014-1055 | whoever waits has a scan that can finish |
| `InventoryScan.EnrolledAreServed` | senda/src/api/mod.rs:1040-1047 | every call enrolled before a completion gets exactly one answer, from that completion, with its snapshot |
| `Utf8.RoundTrip` | senda-client/src/models/gguf.rs:126-136 | decoding an encoded text gives it back |
| `Utf8.DecodeIsStrict` | senda-client/src/models/gguf.rs:126-136 | only encodings decode: what decodes is the encoding of the text it gives |
| `Text.DecimalRoundTrip` | senda-client/src/network/rewrite.rs:75-115 | parsing a printed number gives it back, below every limit |

## Left out

- Request heads: a small grammar (method, printable path, HTTP/1.0 or 1.1, name, colon, value) stands for the httparse library; its exact tolerance of odd bytes is not modelled.
- JSON text: a codec given as two functions; number formats, duplicate members, member order in text are not modelled; the recursion limit of the parser is a parameter.
- `HttpForwarding.ForwardingIsAFixedPoint`: covers streams below 2^64 bytes; what a codec reads back otherwise, when it does not read back the re-serialised body, is not said.
- `HttpForwarding.PlainBodyArrives`: covers streams below 2^64 bytes, which is what an offset can address.
- `Chunked.TryDecodeChunkedBody`: where `pos + size + 2` overflows the model has an outcome of its own, apart from the decoder's errors; the original panics there, and in a build without overflow checks it asks for more data instead when the size is 2^64 - 1 and the buffer ends with the size line.
- Integer widths: `usize` is 64 bits wide; statistics counters, stream positions and the demand counters are unbounded here.
- Floating point: split memory sums and the factor 1.1 are exact numbers; expert weights are reals.
- The hash function: over numbers below 2^64; that different texts seldom collide is not a theorem, only that one changed byte, scalar or key counts.
- Environment switches: fields of a configuration given with the call.
- `Affinity.AffinityRouter.LearnTarget`: the clock read before the lock is a parameter, so its lag can be any number; a clock that jumps back is not modelled.
- `SplitRole.ClassifyPeerSplitRole`: how much fast memory a peer has is a field of the peer; the serving-mode label built on the result, and the variant for the local node, are left out.
- `Demand.GossipConverges`: messages are whole snapshots; demand that ages out after a day is left out.
- `InventoryScan.ApiInner.Complete`: a receiver that goes away before its answer is left out; the answer then goes nowhere.
- `Relay.RelayWithRewrite`: the original looks the port up in a shared map frame by frame; a map that changes while a relay runs is left out.
- `GgufProfile.ScanGgufTensorByteProfile`: a file is its bytes; seeking past its end is allowed as on disk, and running out of memory is left out.
- `RankingFile.WriteSharedRankingArtifact`: the text only; creating directories and writing the file are left out.
- Standard-library steps (sort, dedup, rotate, split, trim, decimal printing) are functions with the documented result, not the library's own loops.
- Compact GGUF metadata, cache-size estimates and MoE detection: same cursor, easier fields.
- MoE failover targets, the GGUF expert-name test on its own, host election, ranking strength and the argument text of an expert list: short pure functions with nothing to prove beyond their bodies.
- Sockets, QUIC streams, tasks, the command line, the user interface and the language bindings.

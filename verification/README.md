# beating-heart-nostr: a Dafny model of the snippet search and the documentation ingestion

beating-heart-nostr is an MCP server for Nostr developers. It has two halves.

- **Documentation (RAG) side.** `main.go` cuts the markdown files of configured repositories into chunks and turns every chunk into an embedding prompt (`processMarkdownChunks`, `extractParentHeaders`, `extractOverlap`, `extractNipIdentifier`). It also keeps the list of repositories (`addRepository`, and the normalisation in `loadReposConfig`).
- **Server side.** `mcp_server.go` answers tool calls. `queryNostrDataHandler` prepares an embedding query. The event-kinds and standard-tags resources cut one section out of a README with `extractSection`. `searchCodeSnippetsHandler` finds code-snippet events (kind 1337):
  - first in an in-memory cache that `updateCodeSnippetCache` refreshes;
  - then, if that is not enough, by subscribing to relays;
  - it renders the result as markdown with `formatCodeSnippetResults`.

The model is a set of pure functions over immutable data. Events, relays, chunks and repository entries are datatypes.

What the program gets from the outside world is an input or a parameter:

- **Relays.** A relay's answer is `None` when connecting or subscribing failed. Otherwise it is the sequence of events its subscription delivered.
- **Authors.** The result of decoding an `npub` is an input. The bech32 encoding of a public key is a function parameter.
- **Other parameters.** The clock reading, `filepath.Join` and the embedding call are parameters.
- **Chunks.** The markdown parser's chunks are an input.

Modules:

| module | file | models |
|---|---|---|
| `Wrappers` | wrappers.dfy | `Option` and `Result` |
| `Strings` | strings.dfy | the parts of Go's `strings` package and of RE2's `\s` the code uses, on ASCII text |
| `Events` | events.dfy | events, `getTagValue`, `matchesQuery` |
| `Search` | search.dfy | `searchCachedEvents`, `searchRelayEvents`, `searchByQueryOnly` and the branches of `searchCodeSnippetsHandler` |
| `Cache` | cache.dfy | `updateCodeSnippetCache` |
| `Report` | report.dfy | `formatCodeSnippetResults` and the handler's final text |
| `Docs` | docs.dfy | `extractSection` and the argument handling of `queryNostrDataHandler` |
| `Sentences` | sentences.dfy | the sentence split of `extractOverlap` and `extractOverlap` itself |
| `Ingest` | ingest.dfy | `extractParentHeaders`, `extractNipIdentifier`, `processMarkdownChunks` |
| `Repos` | repos.dfy | `addRepository` and the normalisation of `loadReposConfig` |

The `limit` rules follow the code exactly, including a zero or negative limit:

- The cache filter appends an event and only then compares against the limit. It therefore returns at least one match when there is one (`Search.Cap`).
- The handler never passes a limit below one to the live loops: with such a limit `len(cachedEvents) >= limit` always holds (mcp_server.go:338), so it answers from the cache (`Search.HandlerBranch`).
- Taken on their own, the live loops have the same append-then-test shape. With a limit below one the targeted loop keeps at most the first event of the first relay that answers, provided that event matches (`Search.CollectTargetedFirst`), and the query-only loop returns the first matching event of the first answering relay (`Search.CollectUniqueFirst`).

There are two places where the repository's own descriptions and the code disagree. In both, the model follows the code.

- **extractOverlap.** The comment at main.go:477 says it "extracts the last 1-2 sentences". The code splits on `[.!?]\s+`, re-joins the last two pieces with `". "` and appends `"."`. The final sentence keeps its own period, so `"A. B. Ok."` yields `"B. Ok.."` (`Sentences.OverlapDoublesPeriod`; the general rule is `Sentences.OverlapRule`).
- **The `limit` argument.** The tool description at mcp_server.go:97-98 calls it the "Maximum number of code snippets to return". With a limit of zero or below, the cache search still returns one snippet when one matches (`Search.Cap`).

## Model

| member | source | states |
|---|---|---|
| Strings.Lower | mcp_server.go:571 | `strings.ToLower` on ASCII: same length, each capital becomes its own small letter (32 code points later), and a character that is not upper-case is left alone |
| Strings.TrimSpace | mcp_server.go:571 | `strings.TrimSpace`: the result is the input minus its leading and trailing white space, is itself trimmed, and is empty exactly when the input is blank |
| Strings.Fields | mcp_server.go:592 | `strings.Fields`: every word is non-empty and free of white space, and there are no words exactly when the text is blank |
| Strings.FieldsAfterBlank | mcp_server.go:592 | leading white space contributes no word |
| Strings.FieldsWordThen | mcp_server.go:592 | a run of non-space characters ended by white space or the end of the text is the next word, followed by the words of the rest; with FieldsAfterBlank this fixes every word and its order |
| Strings.IndexOf | mcp_server.go:742-745 | `strings.Index`: the first position where the pattern occurs, or none when it occurs nowhere |
| Strings.IndexOfSuffix | mcp_server.go:747-748 | searching in `content[from:]` is searching `content` from `from` on, with the position shifted by `from` |
| Strings.TrimSuffix | main.go:494 | `strings.TrimSuffix`: with the suffix present, result plus suffix is the input; otherwise the input is unchanged |
| Strings.SplitParts | main.go:265-269 | `strings.Split` on one character: no part contains the separator, and there is a single part exactly when the separator is absent |
| Strings.JoinSplit | main.go:464 | joining the parts of a split with the same separator gives back the original text |
| Strings.ParseDecimalInverts | main.go:414 | the `%d` rendering of a number parses back to that number |
| Strings.DecimalInjective | main.go:414 | two different numbers never render to the same `%d` text |
| Events.TagValueIn | mcp_server.go:732-739 | the value of the first tag with the name and at least two entries, or the default when no tag has that name |
| Events.GetTagValue | mcp_server.go:732-739 | the same for an event's tags: the first matching tag decides, later ones are ignored, and a missing tag yields the default |
| Events.ScanTags | mcp_server.go:580-588 | true exactly when some tag with a value has a lower-cased value containing the needle |
| Events.ScanFields | mcp_server.go:575-588 | true exactly when the lower-cased content or some lower-cased tag value contains the needle |
| Events.ScanWords | mcp_server.go:597-618 | true exactly when some word of length at least two occurs in the content or in a tag value |
| Events.MatchesQuery | mcp_server.go:564-621 | a blank query matches everything; otherwise the event matches exactly when the trimmed, lower-cased query has 2 to 10 characters and occurs whole in a field, or one of its words of length at least two occurs in a field |
| Events.SingleWordQuery | mcp_server.go:570-618 | for a one-word query: with length at least two, a match is exactly an occurrence in a field; with one character, nothing matches |
| Events.ContentShortcutHit | mcp_server.go:573-578 | a 2-to-10-character query that occurs in the lower-cased content matches |
| Events.ShortQueryMatchesExample | mcp_server.go:573-578 | "ndk" matches content that mentions "NDK", case-insensitively |
| Events.LongQueryMissExample | mcp_server.go:591-620 | a long single-word query found in no field and no tag does not match |
| Events.MatchesIgnoresTagNames | mcp_server.go:580-588 | matching looks at tag values only: two events with the same content and the same tag values match the same queries |
| Events.SameFieldHit | mcp_server.go:604-617 | the per-word field test depends only on the content and the tag values |
| Search.Cap | mcp_server.go:407-410 | the effective cache and live limit is the limit when it is at least one, and exactly one otherwise |
| Search.HasLanguage | mcp_server.go:383-394 | the language test holds exactly when some `l` tag equals the language up to ASCII case |
| Search.SelectSound | mcp_server.go:381-407 | every kept event comes from the input and passes the test |
| Search.CollectMatchesKeeps | mcp_server.go:380-413 | the cache loop returns the matches collected so far followed by the first matches still needed, in cache order |
| Search.SearchCachedEvents | mcp_server.go:369-414 | the cache result is the first `Cap(limit)` cache events passing the language, author and query filters, in cache order |
| Search.CachedResultSound | mcp_server.go:369-414 | at most `Cap(limit)` events, all of them matches in the cache; when there are few matches, all of them |
| Search.DrainTargetedKeeps | mcp_server.go:469-480 | draining one subscription appends the events passing the query until the limit is reached |
| Search.CollectTargetedKeeps | mcp_server.go:450-492 | with a limit of at least one, the relay loop yields the first `limit` query matches among everything the answering relays delivered, in relay order |
| Search.CollectTargetedFirst | mcp_server.go:469-489 | with a limit below one, only the first event of the first answering relay is considered |
| Search.SearchRelayEvents | mcp_server.go:417-493 | a query-only request goes to the broad search; otherwise the result is the first `limit` delivered events that pass the query, or for a limit below one the first event when it passes |
| Search.TargetedStopsAtLimit | mcp_server.go:486-489 | once the limit is reached, relays later in the list make no difference |
| Search.TargetedKeepsDuplicates | mcp_server.go:469-474 | the targeted search does not remove an event that two relays both deliver |
| Search.TargetedResultSound | mcp_server.go:417-493 | a targeted result has at most `Cap(limit)` events, each delivered by a relay and matching the query |
| Search.DedupSound | mcp_server.go:700-710 | duplicate elimination keeps only delivered events not seen before, and keeps no two events with the same id |
| Search.DrainUniqueKeeps | mcp_server.go:699-716 | draining one broad subscription appends the not-yet-seen matches up to the limit and records their ids |
| Search.CollectUniqueKeeps | mcp_server.go:678-728 | with a limit of at least one, the broad loop yields the first `limit` distinct-id matches over all answering relays |
| Search.CollectUniqueFirst | mcp_server.go:699-725 | with a limit below one, the broad loop yields the first match of the first answering relay |
| Search.SearchByQueryOnly | mcp_server.go:658-729 | cache matches win when there are any; otherwise the result is the de-duplicated live matches of the broad relays, cut to the limit |
| Search.QueryOnlyLiveResult | mcp_server.go:678-728 | a live query-only result has distinct ids, at most `Cap(limit)` events, each delivered and matching the query |
| Search.ResolveAuthor | mcp_server.go:325-333 | an `npub` author that decodes is replaced by its key; any other author, or one that fails to decode, is kept as given |
| Search.SearchSnippets | mcp_server.go:308-366 | the request fails exactly when no filter is given, with the source's message; otherwise it searches with the resolved filters |
| Search.HandlerBranch | mcp_server.go:335-365 | the branch taken: enough cache matches; some but too few; none with only a query; or none otherwise |
| Search.CacheSufficientResult | mcp_server.go:338-341 | with enough cache matches, the answer is the cache result and does not depend on any relay |
| Search.LiveResult | mcp_server.go:343-352 | with a positive limit and no cache match, the request succeeds with the broad live result for a query-only request and the targeted one otherwise, each for the full limit |
| Search.PartialResult | mcp_server.go:353-365 | with some but fewer than `limit` cache matches, the partial branch is taken: the answer starts with all of them, is topped up by a live search for the rest and is cut to the limit |
| Search.PartialQueryOnlyRepeatsCache | mcp_server.go:353-362 | for a query-only request the top-up is again served from the cache, so cache matches appear twice |
| Search.PartialKeepsDuplicates | mcp_server.go:353-362 | an event both cached and delivered by a relay can be reported twice |
| Cache.UpdateCodeSnippetCache | mcp_server.go:249-305 | events delivered by any relay replace the cache, stamped with the clock reading; no delivery leaves the cache untouched, so a filled cache is never emptied |
| Cache.FailedRelaysIgnored | mcp_server.go:270-283 | a relay that fails to connect or subscribe contributes nothing to the refresh |
| Report.ViewFallbacks | mcp_server.go:516-533 | each displayed field is its first tag's value or its fallback: the name is a non-empty `name` value, otherwise (no `name` tag or an empty one) the `f` value, then "Unnamed Snippet"; the description falls back to "No description provided"; extension, runtime and license are their tag's value or empty; the language is the search's language, then the `l` tag, then "text" |
| Report.BlocksAt | mcp_server.go:516-558 | the i-th rendered block is the block of the i-th event, numbered from one |
| Report.FormatResults | mcp_server.go:496-561 | the text is the no-results message exactly when there are no events |
| Report.HeaderCounts | mcp_server.go:505-514 | every header variant starts with "Found N code snippets" |
| Report.FormatCounts | mcp_server.go:496-514 | a non-empty result starts with the number of events reported |
| Report.FormatShowsEveryContent | mcp_server.go:554-557 | every event's content appears in the text inside its fenced code block |
| Report.SearchCodeSnippets | mcp_server.go:308-366 | the tool fails exactly when no filter is given; otherwise it answers the no-results message exactly when the search found nothing |
| Docs.ExtractSection | mcp_server.go:741-754 | the trimmed text from the first start marker up to the first end marker after it, or to the end; empty when the start marker is absent |
| Docs.BoundsAreSearches | mcp_server.go:742-752 | the two searches of the code find bounds that satisfy the reference definition, and no other bounds satisfy it |
| Docs.EmptyEndMarkerSection | mcp_server.go:741-754 | an empty end marker matches right after the start marker, so the section is the trimmed start marker, even when it ends the content |
| Docs.StartMarkerKept | mcp_server.go:747-753 | a section whose start marker is not blank is never empty, since the marker itself is kept |
| Docs.SubheadingEndsSection | mcp_server.go:177 | with `##` as the end marker, a `###` sub-heading already ends the section |
| Docs.PlanQuery | mcp_server.go:108-125 | a missing or empty query is rejected; otherwise the prompt is "search_query: " plus the query, and the similarity and result count are the given ones, or 0.6 and 3 when not given |
| Docs.QueryPromptIsNotDocument | mcp_server.go:125 | a query prompt never carries the document prefix |
| Sentences.SpaceRun | main.go:479 | the run of `\s` characters after a position: all white, and followed by a non-white character or the end |
| Sentences.SplitSentences | main.go:479-480 | the split always has at least one piece |
| Sentences.CutRoundTrip | main.go:479-480 | interleaving the pieces with the separators that were cut out gives back the text |
| Sentences.CutBreaks | main.go:479-480 | every separator cut out is a terminator followed by `\s` characters only |
| Sentences.CutPieces | main.go:479-480 | no piece contains a separator, and every piece after the first starts with a non-white character |
| Sentences.CutStartsAfterSpaces | main.go:479-480 | the first piece does not start with white space when the text does not |
| Sentences.CutWithoutBreak | main.go:480-482 | a text without a separator is split into itself |
| Sentences.ExtractOverlap | main.go:478-490 | the overlap is empty exactly when the text is |
| Sentences.OverlapRule | main.go:478-490 | a text is one piece exactly when it has no sentence break, and is then kept whole; with more than two pieces and a last piece under 20 characters the overlap is the last two pieces joined by ". " plus "."; otherwise the last piece plus "." |
| Sentences.OverlapWithoutBreak | main.go:481-482 | a text with no sentence separator is its own overlap |
| Sentences.OverlapEndsWithLastSentence | main.go:483-489 | with a separator, the overlap ends with the last sentence plus ".", and that sentence is a separator-free suffix of the text |
| Sentences.ExampleSentences | main.go:479-480 | "A. B. Ok." splits into "A", "B", "Ok." |
| Sentences.OverlapDoublesPeriod | main.go:483-485 | "A. B. Ok." yields "B. Ok..": the last sentence keeps its period and gets a second one |
| Ingest.CleanParts | main.go:465-472 | the cleaned parts are trimmed and non-empty; no parts give none; a blank part is dropped and any other part is kept trimmed |
| Ingest.CleanPartsAppend | main.go:467-472 | cleaning works part by part, so the result is the non-blank parts, trimmed, in their order |
| Ingest.CleanPartsAvoid | main.go:467-472 | cleaning introduces no character the parts did not contain |
| Ingest.ExtractParentHeaders | main.go:458-475 | an empty lineage is "Root"; a lineage without '>' is its trimmed self |
| Ingest.SplitJoinClean | main.go:464-474 | splitting a " > "-joined list of trimmed headers on '>' and cleaning gives the headers back |
| Ingest.HeadersOfJoin | main.go:458-475 | a " > "-joined list of trimmed headers is a fixed point of the header extraction |
| Ingest.HeadersIdempotent | main.go:458-475 | extracting the parent headers twice gives the same line as once, when the first result is not empty |
| Ingest.HeadersExample | main.go:458-475 | " A > B >C " becomes "A > B > C" |
| Ingest.SeparatorsOnlyLineage | main.go:463-474 | a lineage of '>' and white space only yields the empty string, not "Root" |
| Ingest.ExtractNipIdentifier | main.go:493-495 | a ".md" suffix is removed, any other name is kept |
| Ingest.NipIdentifierOfMarkdown | main.go:493-495 | the identifier of "name.md" is "name" |
| Ingest.Embedded | main.go:433-451 | at most one stored vector per request |
| Ingest.ChunkIdInjective | main.go:411-414 | two counter values never give the same chunk id |
| Ingest.ProcessMarkdownChunks | main.go:395-455 | the counter advances once per chunk; there is one request per chunk, in order, with ids that are pairwise distinct; the stored vectors are those of the requests whose embedding succeeded |
| Ingest.RequestIdsDistinct | main.go:411-414 | the requests of one file have pairwise different ids |
| Ingest.ChunkPromptOverlap | main.go:416-428 | every prompt starts with its section text; the previous chunk's overlap is appended exactly when there is a previous chunk with non-empty content |
| Ingest.StoredPromptIsNotQuery | main.go:417 | a stored prompt carries the document prefix and never equals a query prompt |
| Repos.AddRepository | main.go:264-293 | without a comma the request fails with the usage message; a known URL leaves the list unchanged; otherwise one enabled entry is appended, with the URL and name taken from the first two comma-separated fields and the default clone directory |
| Repos.AddRepositoryFields | main.go:265-290 | "url,name[,more]" adds exactly the entry for that URL and name unless the URL is already listed |
| Repos.AddRepositoryIdempotent | main.go:274-280 | adding the same repository twice has the effect of adding it once |
| Repos.AddRepositoryKeepsUrlsUnique | main.go:274-290 | adding a repository keeps the URLs pairwise distinct |
| Repos.NormalizeRepos | main.go:238-260 | empty clone directories get the default; when no entry is enabled the first one is enabled and the file rewritten; nothing else changes |
| Repos.NormalizeIdempotent | main.go:238-260 | normalising a normalised list changes nothing and writes nothing |

## Left out

- Networking: connecting, subscribing, timeouts and closing are not modelled. Each relay's outcome is an input: a relay whose connect or subscribe fails is `None`; a subscription cut off by its deadline is `Some` of the events it delivered first. The kind 1337 filter and the relay-side `Limit` are whatever the relay applies to what it delivers.
- The cache mutex, the background refresh goroutine and its ticker are left out, as is `populateCodeSnippetCache`: the model is sequential.
- `nip19` decoding and encoding are left out as foreign code. The decoding result is an input; the encoding is a function parameter.
- Embedding, the vector store, float similarity and the context generation after a query are left out as foreign code and floating point. `queryNostrDataHandler` is modelled up to the prompt it builds.
- `int(float64)` conversion of `limit` and `num_results` is left out: the model takes the converted integer.
- The markdown parser is left out as foreign code; its chunks are an input. `filepath.Base` is left out too, since the file name is an input.
- Git cloning, file reading and writing, JSON, command-line flags and `os.Exit` are left out as I/O. The same goes for `listRepositories`, `queryDatabase`, `cloneAllRepositories`, `createDatabase` and the `processData*` walkers.
- `saveReposToFile` is left out as I/O; normalisation only reports whether the file is rewritten.
- A failed `store.Save` is only logged by the source and is not modelled.
- Console output is left out as an effect on the output stream: the `fmt.Printf` and `fmt.Println` calls in both files (including those the stdio server still makes, e.g. mcp_server.go:303, 331, 454 and 465), and the `log.Fatalf` exits in main.go.
- The resource handlers are modelled only as far as their `extractSection` calls; reading the README and wrapping the result are I/O.
- Non-ASCII text is out of scope: case folding and white space beyond ASCII are not modelled, and one character stands for one byte.
- `debugEvent`, `min` and `contains` are left out as unused helpers.
- The `limit` parameter of `formatCodeSnippetResults` is left out because it is never read.
- Report.ViewOf: its contract is stated by `Report.ViewFallbacks`.
- Search.TargetedResultSound: does not promise the language and author filters, because the source leaves those to the relay and does not re-check them locally.

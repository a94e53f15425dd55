# AI translation service of NetNewsWire, modelled in Dafny

NetNewsWire's `AITranslationService` translates and summarises articles
through a remote chat-completion endpoint. This project models its core.

- **Sanitiser** (`cleanHTML`, module `Sanitizer`). Six attribute patterns are
  removed one after another: `class`, `style`, `id`, `data-*`, `aria-*` and
  `role`, each matched case-insensitively. Then every run of `\s` is
  collapsed to one space. `\s` is ICU's class, which the engine builds from
  the Unicode White_Space property; that is the same set of characters as
  Foundation's `whitespacesAndNewlines`, used for trimming.
- **Chunker** (`splitIntoChunks`, module `Chunker`).
  - The block-tag pattern `<(p|div|…|table)[\s>]` is scanned the way
    `NSRegularExpression.matches` scans it. The start of each match is a
    split point.
  - The text from each split point to the next is a segment. Segments are
    packed greedily: a segment starts a new chunk when adding it to a
    non-empty chunk would exceed `MaxChunkLength` (3000) characters.
  - Text before the first split point is glued to the first chunk, unless
    it is only whitespace.
  - With fewer than two matches the article is one chunk.
  - A chunk of two or more segments is at most `MaxChunkLength` long before
    the prefix is glued on. No other length bound holds.
- **Service** (module `TranslationService`).
  - It holds the translation cache, the summary cache and the stored API key.
  - `hasAPIKey`, the cache lookups and `clearCache` are modelled.
  - A reply is classified into a text or an `AITranslationError`.
  - `translate` and `summarize` are pure state transitions. The remote
    model is an oracle passed as a parameter: it maps the request number
    within one operation, and the request itself, to a reply.
  - Each operation returns the new state, the result and the list of
    requests it sent. This makes "no request was sent" and "the chunks were
    sent in order" statements about the result.
- **Shared helpers** (modules `Text` and `Results`). These hold the
  whitespace classes, ASCII case folding, trimming, concatenation, joining,
  and the `Option` and `Result` types.

Behaviours of the code that a reader might not expect. The model follows the
code in each, and each is proved:

- The sanitiser is not idempotent (`Sanitizer.CleanIsNotIdempotent`).
  - `<p\nclass="x">` becomes `<p class="x">`, because the line break turns
    into a space only after the attribute patterns have run.
  - A second pass then removes the attribute and gives `<p>`.
- The sanitiser can change a tag name (`Sanitizer.CleanCanChangeTagName`).
  The patterns are not tied to attribute boundaries, so `<di class="x"v>`
  becomes `<div>`.
- The sanitiser changes the values of attributes it does not target
  (`Sanitizer.CleanChangesAttributeValue`, `Sanitizer.CollapseGap`). The
  collapse runs over the whole markup, so `<p\ttitle="a\n\nb">` becomes
  `<p title="a b">`.
- The chunks need not concatenate to the article (`Chunker.ChunksReassemble`).
  A prefix before the first block tag that is only whitespace is dropped.
- A chunk can be longer than `MaxChunkLength` (`Chunker.LongSegmentsStandAlone`).
  This happens in three ways:
  - a single segment longer than the limit is never cut;
  - a non-blank prefix is glued onto the first chunk after packing;
  - with fewer than two block tags, the whole article is one chunk.
- `summarize` sends the raw `html`, not the sanitised article (line 222).
  `TranslationService.Summarize` states that this raw text is the request's
  content.

## Model

All source paths are relative to the repository root.

| member | source | states |
|---|---|---|
| Text.IsTrimSpace | Shared/AITranslation/AITranslationService.swift:131 | Foundation's `whitespacesAndNewlines`: space, tab, line feed, carriage return and no-break space are in it, and no printable ASCII character is |
| Text.IsRegexSpace | Shared/AITranslation/AITranslationService.swift:92 | ICU's `\s`, written out from the White_Space property, holds exactly the characters of Foundation's trimming set |
| Text.FoldCase | Shared/AITranslation/AITranslationService.swift:88 | case-insensitive matching maps each of `A`–`Z` to the letter 32 code points later, in `a`–`z`, and leaves every other character alone |
| Text.Trim | Shared/AITranslation/AITranslationService.swift:197 | the trimmed text is a slice of the input with only whitespace before and after it, no whitespace at either end, and empty exactly when the input is all whitespace |
| Text.TrimUnique | Shared/AITranslation/AITranslationService.swift:197 | any split into whitespace, a text with no whitespace at its ends, and whitespace is the one trimming finds |
| Text.TrimIgnoresPadding | Shared/AITranslation/AITranslationService.swift:197 | adding whitespace around a text does not change its trimmed form |
| Text.TrimIdempotent | Shared/AITranslation/AITranslationService.swift:197 | trimming a trimmed text changes nothing |
| Text.Join | Shared/AITranslation/AITranslationService.swift:72 | joining one part gives that part; the joined length is the parts' total length plus one separator between each pair |
| Text.JoinAppend | Shared/AITranslation/AITranslationService.swift:72 | joining two lists of parts is joining each and putting one separator between the results, so the parts keep their order |
| Sanitizer.MatchAttr | Shared/AITranslation/AITranslationService.swift:79-86 | a match of an attribute pattern starts with a space, ends with a double quote and lies inside the text |
| Sanitizer.MatchAttrSound | Shared/AITranslation/AITranslationService.swift:79-86 | every length the matcher reports is a match of the regular expression: the name ignoring case, `="`, a run without `"`, and a closing `"` |
| Sanitizer.MatchAttrComplete | Shared/AITranslation/AITranslationService.swift:79-86 | every match of the regular expression at the start of a text is the one the matcher reports |
| Sanitizer.MatchAttrIff | Shared/AITranslation/AITranslationService.swift:79-86 | the matcher reports a length exactly when the regular expression matches that many characters, so a match at an index is unique |
| Sanitizer.RemoveMatches | Shared/AITranslation/AITranslationService.swift:89 | removing the matches of one pattern never makes the text longer |
| Sanitizer.Scan | Shared/AITranslation/AITranslationService.swift:89 | every text splits into kept gaps and removed matches the way a left-to-right scan cuts it: each cut is a match where it stands, and no match starts inside a gap |
| Sanitizer.RemoveMatchesKeepsGaps | Shared/AITranslation/AITranslationService.swift:89 | removing one pattern's matches gives exactly the gaps of any such split, in order: every character outside a removed match survives and nothing else does |
| Sanitizer.RemoveMatchesKeepsScanGaps | Shared/AITranslation/AITranslationService.swift:89 | the removal result is the concatenation of the scan's own gaps |
| Sanitizer.RemoveMatchesChangesIffMatch | Shared/AITranslation/AITranslationService.swift:89 | removing one pattern changes the text if and only if the pattern matches at some index, and then strictly shortens it |
| Sanitizer.NoSpaceNoMatch | Shared/AITranslation/AITranslationService.swift:80-85 | every pattern begins with a space, so text without spaces is left alone |
| Sanitizer.RemoveAll | Shared/AITranslation/AITranslationService.swift:87-91 | applying the six patterns in order never lengthens the text |
| Sanitizer.RemoveAllSpaceFree | Shared/AITranslation/AITranslationService.swift:87-91 | text without a space is left alone by every pattern, since each pattern starts with a space |
| Sanitizer.RemoveAllOfScan | Shared/AITranslation/AITranslationService.swift:87-91 | running the patterns keeps the gaps of the first pattern's scan, then runs the remaining patterns on them |
| Sanitizer.CollapseSpaces | Shared/AITranslation/AITranslationService.swift:92 | after the collapse every `\s` character is a plain space, no two are adjacent, and the text is no longer than before |
| Sanitizer.CollapseFixedPoint | Shared/AITranslation/AITranslationService.swift:92 | the collapse leaves a text unchanged if and only if the text is already collapsed |
| Sanitizer.CollapseIdempotent | Shared/AITranslation/AITranslationService.swift:92 | collapsing twice is collapsing once |
| Sanitizer.CollapseKeepsVisible | Shared/AITranslation/AITranslationService.swift:92 | the collapse keeps every non-whitespace character, in order |
| Sanitizer.CollapseAppend | Shared/AITranslation/AITranslationService.swift:92 | text that ends in a character other than whitespace collapses on its own: the collapse of a concatenation is the concatenation of the collapses |
| Sanitizer.CollapseRun | Shared/AITranslation/AITranslationService.swift:92 | a whole whitespace run at the front becomes exactly one space |
| Sanitizer.CollapseGap | Shared/AITranslation/AITranslationService.swift:92 | each maximal whitespace run, wherever it stands, becomes exactly one space and the text on either side is collapsed on its own |
| Sanitizer.CleanHTML | Shared/AITranslation/AITranslationService.swift:77-94 | the cleaned text has no two adjacent whitespace characters, only plain spaces, is never longer than the input, and keeps every non-whitespace character that survives the attribute removal, in order |
| Sanitizer.CleanCollapsesRuns | Shared/AITranslation/AITranslationService.swift:87-92 | each maximal whitespace run left by the attribute removal becomes exactly one space in the cleaned text, with the text on either side cleaned on its own |
| Sanitizer.CleanKeepsSpaceFreeText | Shared/AITranslation/AITranslationService.swift:77-94 | markup without any whitespace passes through the sanitiser unchanged |
| Sanitizer.CleanIsNotIdempotent | Shared/AITranslation/AITranslationService.swift:77-94 | `<p\nclass="x">` cleans to `<p class="x">`, and cleaning that again gives `<p>` |
| Sanitizer.CleanDropsClass | Shared/AITranslation/AITranslationService.swift:77-94 | a ` class="…"` attribute between printable texts without spaces is removed and nothing else changes |
| Sanitizer.CleanCanChangeTagName | Shared/AITranslation/AITranslationService.swift:80 | `<di class="x"v>` cleans to `<div>`: removing an attribute inside a tag name changes the name |
| Sanitizer.CleanChangesAttributeValue | Shared/AITranslation/AITranslationService.swift:92 | `<p\ttitle="a\n\nb">` cleans to `<p title="a b">`: the collapse changes the value of an attribute no pattern targets |
| Chunker.FirstTag | Shared/AITranslation/AITranslationService.swift:97 | a block tag name from the list matches at an index exactly when one of the alternatives does; the match starts with `<` and holds no other `<` |
| Chunker.BlockMatch | Shared/AITranslation/AITranslationService.swift:97 | the block pattern matches at an index exactly when a block tag starts there, and no other block tag starts inside the match |
| Chunker.ScanFrom | Shared/AITranslation/AITranslationService.swift:102 | scanning from an index and resuming after each match finds exactly the block starts from that index on, in increasing order |
| Chunker.SplitPoints | Shared/AITranslation/AITranslationService.swift:102-112 | the split points are exactly the block starts of the text, in increasing order |
| Chunker.Segments | Shared/AITranslation/AITranslationService.swift:117-120 | there is one non-empty segment per split point, and together they are the text from the first split point on |
| Chunker.SegmentOffsets | Shared/AITranslation/AITranslationService.swift:117-120 | the segments before segment `m` make up the text between the first split point and split point `m` |
| Chunker.PackStep | Shared/AITranslation/AITranslationService.swift:122-127 | one packing step never reopens a closed chunk, closes at most one, closes one exactly when the segment would push a non-empty chunk over the limit, and ends the current chunk with the segment |
| Chunker.PackFrom | Shared/AITranslation/AITranslationService.swift:117-128 | the packing loop never reopens a closed chunk, closes at most one per segment, and the chunk being filled ends with the last segment |
| Chunker.SplitIntoChunks | Shared/AITranslation/AITranslationService.swift:96-148 | the chunker always returns at least one chunk |
| Chunker.PackStepInv | Shared/AITranslation/AITranslationService.swift:122-127 | one packing step keeps the greedy-packing invariant and appends the segment to the packed sequence |
| Chunker.PackFromInv | Shared/AITranslation/AITranslationService.swift:117-128 | the packing loop keeps the invariant, and the packed groups are the segments in order |
| Chunker.PackedGroupsAreGreedy | Shared/AITranslation/AITranslationService.swift:117-128 | the packed groups are the segments in order; no group is empty; a group of two or more segments fits in the limit; each group plus the next group's first segment exceeds it |
| Chunker.Attach | Shared/AITranslation/AITranslationService.swift:130-137 | the prefix changes the first chunk exactly when it is not blank, the first chunk still ends with its old text, and the other chunks are untouched |
| Chunker.Assemble | Shared/AITranslation/AITranslationService.swift:130-147 | there is at least one chunk and at most one more than the closed ones; a non-empty current chunk adds exactly one; with nothing packed and a blank prefix the result is the whole text |
| Chunker.SplitNormalForm | Shared/AITranslation/AITranslationService.swift:114-147 | with two or more split points, the chunks are the packed groups' texts, with a non-blank prefix glued to the first |
| Chunker.SingleChunkUnlessTwoBlockStarts | Shared/AITranslation/AITranslationService.swift:102-105 | when the block pattern matches at most once, the result is the whole text as one chunk |
| Chunker.TwoBlockStartsIffTwoPoints | Shared/AITranslation/AITranslationService.swift:102-105 | there are two or more split points if and only if the block pattern matches at two different indices |
| Chunker.ChunksReassemble | Shared/AITranslation/AITranslationService.swift:114-147 | the chunks concatenate to the text itself, or to the text without its whitespace-only prefix |
| Chunker.ChunkCountAndContent | Shared/AITranslation/AITranslationService.swift:114-147 | there are between one and as many chunks as split points, and none is empty |
| Chunker.LongSegmentsStandAlone | Shared/AITranslation/AITranslationService.swift:122-127 | a segment longer than the limit is never cut and never shares its chunk |
| Chunker.ChunksAreFull | Shared/AITranslation/AITranslationService.swift:122-124 | every chunk but the last, together with the first segment of the next chunk, would have exceeded the limit |
| Chunker.ChunkBoundariesAreSplitPoints | Shared/AITranslation/AITranslationService.swift:117-141 | every boundary between two chunks falls on a split point of the text |
| TranslationService.DecimalString | Shared/AITranslation/AITranslationService.swift:273 | a status code is written as digits, led by a minus sign exactly when it is negative |
| TranslationService.DigitsRoundTrip | Shared/AITranslation/AITranslationService.swift:273 | reading back the written digits gives the number |
| TranslationService.DecimalStringInjective | Shared/AITranslation/AITranslationService.swift:273 | different status codes are written differently |
| TranslationService.ErrorDescription | Shared/AITranslation/AITranslationService.swift:266-275 | exactly the three service errors have a description, and an API error's description ends with the server's message |
| TranslationService.ApiDescriptionsDiffer | Shared/AITranslation/AITranslationService.swift:272-273 | the status code and the message can both be read back from an API error's description |
| TranslationService.DescriptionsDistinguishErrors | Shared/AITranslation/AITranslationService.swift:266-275 | two described errors with the same text are the same error |
| TranslationService.Classify | Shared/AITranslation/AITranslationService.swift:178-197 | a reply gives text exactly when it is HTTP 200 with content, and that text is the content trimmed; a transfer failure gives exactly the transport error with its reason; an HTTP 200 body that is not JSON gives exactly the malformed-JSON error; any other status is an API error with that status and the body, or "Unknown error" when the body is not UTF-8; a non-HTTP reply or missing content is an invalid response |
| TranslationService.ClassifyIgnoresPadding | Shared/AITranslation/AITranslationService.swift:197 | whitespace the model puts around its answer does not reach the caller |
| TranslationService.ClassifiedTextIsTrimmed | Shared/AITranslation/AITranslationService.swift:197 | a classified answer is already trimmed |
| TranslationService.HasAPIKey | Shared/AITranslation/AITranslationService.swift:32-37 | a key is usable exactly when one is stored and it is not empty |
| TranslationService.SetAPIKey | Shared/AITranslation/AITranslationService.swift:23-30 | storing a key replaces the stored key and leaves both caches alone |
| TranslationService.StoredKeyDecidesAccess | Shared/AITranslation/AITranslationService.swift:23-37 | after storing a key, one is usable exactly when that key is not empty; after removing it, none is |
| TranslationService.CachedTranslation | Shared/AITranslation/AITranslationService.swift:39-41 | the lookup finds a translation exactly for the cached articles, and returns the cached text |
| TranslationService.CachedSummary | Shared/AITranslation/AITranslationService.swift:48-50 | the lookup finds a summary exactly for the cached articles, and returns the cached text |
| TranslationService.ClearCache | Shared/AITranslation/AITranslationService.swift:43-46 | afterwards neither cache holds the article, every other article's lookups are unchanged, and so is the key |
| TranslationService.ClearCacheIdempotent | Shared/AITranslation/AITranslationService.swift:43-46 | clearing twice is clearing once, and clearing an uncached article changes nothing |
| TranslationService.TranslateChunks | Shared/AITranslation/AITranslationService.swift:66-70 | the loop sends one request per chunk, in chunk order; a completed loop sent every chunk and has one part per chunk; a failed loop sent at least one |
| TranslationService.CompletedLoopAnswers | Shared/AITranslation/AITranslationService.swift:66-70 | in a completed loop, part `i` is the answer to request `i` |
| TranslationService.FailedLoopStops | Shared/AITranslation/AITranslationService.swift:66-70 | a failed loop ends with the failing answer, after only successful ones, and sends nothing after it |
| TranslationService.TranslationChunks | Shared/AITranslation/AITranslationService.swift:63-64 | translating an article sends at least one chunk |
| TranslationService.TranslateChunked | Shared/AITranslation/AITranslationService.swift:54-75 | with `ask` sending one request and classifying its reply: a cached translation is returned with no request, even without a key; a miss without a usable key fails with `noAPIKey`, sends nothing and changes nothing; otherwise the chunks are sent in order, a failure leaves the state alone, and a success caches the result under the article only; the summary cache and the key never change |
| TranslationService.Translate | Shared/AITranslation/AITranslationService.swift:54-75 | as above, with the chunks of the cleaned article: on a miss with a key at least one request is sent, and a success sent every chunk |
| TranslationService.TranslateAnswers | Shared/AITranslation/AITranslationService.swift:66-74 | a successful translation is the answers to the chunks, in order, joined with line feeds; a failure is the answer to the last request sent, after only successful answers |
| TranslationService.TranslateOracleAnswers | Shared/AITranslation/AITranslationService.swift:54-75 | on a miss with a usable key, a successful translation is the remote model's classified replies to the chunks of the cleaned article, in chunk order, joined with line feeds; a failure is the classified reply to the last request sent, after only successful replies |
| TranslationService.TranslateThenHit | Shared/AITranslation/AITranslationService.swift:54-75 | after a successful translation the same article is served from the cache with no request, whatever the text and the oracle |
| TranslationService.TranslateLeavesOthers | Shared/AITranslation/AITranslationService.swift:73 | translating one article leaves every other article's cached translation and summary alone |
| TranslationService.ClearCacheForcesRequest | Shared/AITranslation/AITranslationService.swift:43-64 | with a key, translating a just-cleared article sends at least one request |
| TranslationService.Summarize | Shared/AITranslation/AITranslationService.swift:200-258 | a cached summary is returned with no request, even without a key; a miss without a usable key fails with `noAPIKey`, sends nothing and changes nothing; otherwise exactly one request carrying the raw article is sent, its classified answer is the result, and only a success is cached |
| TranslationService.SummarizeThenHit | Shared/AITranslation/AITranslationService.swift:200-258 | after a successful summary the same article is served from the cache with no request |
| TranslationService.CachesAreIndependent | Shared/AITranslation/AITranslationService.swift:18-19 | summarising never changes an article's cached translation, and translating never changes its cached summary |

## Left out

- The HTTP transport, the endpoint URL, the model name, the prompts, `temperature`, `max_tokens`, `stream`, the timeouts and the JSON encoding of the request body. The remote model is an oracle parameter. Its reply is abstracted to three shapes:
  - a transfer failure;
  - a non-HTTP response;
  - an HTTP status with the body decoded as UTF-8 (or not), plus what the JSON body holds (not JSON, no `choices[0].message.content` string, or that string).
- Decoding JSON and UTF-8 is not modelled; it happens outside the model, in the oracle.
- `UserDefaults` persistence of the key. The key is a field of the service state.
- Concurrency and `async`: each operation is one atomic transition. In the source, two calls for the same article can interleave at their `await`s; then both send requests and the later write wins.
- The `try?` failure branches around `NSRegularExpression` construction (lines 88 and 98-100). The patterns are constant and valid, so these branches never run.
- The `nil` case of `Range(match.range, in:)` at line 109. A Swift `Character` is modelled as one `char`, so every match bound is a character boundary and no split point is ever skipped. In the source, a match bound can fall inside a grapheme cluster, for instance when a combining mark follows `<p>` as in `<p>\u{301}x<p>\u{301}y`. The conversion then gives `nil` and the split point is skipped. If every split point is skipped, `splitPoints[0]` at line 130 traps.
- TranslationService.ErrorDescription: Foundation's own errors (transfer failure, invalid JSON) are passed through unchanged. Their descriptions come from Foundation and are not modelled.
- Text.FoldCase: only ASCII case folding is modelled. ICU's case-insensitive matching also folds a few non-ASCII letters onto ASCII ones, such as KELVIN SIGN onto `k`.
- A Swift `Character` (a grapheme cluster) is modelled as one `char`. `count` and the length limit therefore count code points. The regex engine works on UTF-16 units, which is not modelled either.
- Swift compares `String` dictionary keys up to canonical equivalence, so `"\u{E9}"` and `"e\u{301}"` name the same article in both caches. The model's article identifiers are compared character by character. In the source, clearing or storing under one such identifier also changes the lookup under the other. In the model they are two keys, and the "other articles are unchanged" clauses of `TranslationService.ClearCache` and `TranslationService.TranslateLeavesOthers` hold only for identifiers that are not canonically equivalent.
- The key window controller (`Mac/MainWindow/AITranslation/AITranslationKeyWindowController.swift`) is not part of this model.
- Text.Join: its contract states the one-part case and the length only. The order of the parts is in `Text.JoinAppend`.
- Sanitizer.MatchAttr: its contract states the shape of a match only. That it finds exactly the regular expression's matches is in `Sanitizer.MatchAttrIff`.
- Sanitizer.RemoveMatches: its contract states the length bound only. Which characters are kept is in `Sanitizer.RemoveMatchesKeepsGaps`.
- Sanitizer.RemoveAll: its contract states the length bound only. Which characters are kept is in `Sanitizer.RemoveAllOfScan` and `Sanitizer.RemoveMatchesKeepsGaps`.
- Sanitizer.CollapseSpaces: its contract states the collapsed form and the length bound only. That each whitespace run becomes exactly one space is in `Sanitizer.CollapseRun` and `Sanitizer.CollapseGap`, and that every other character is kept in order is in `Sanitizer.CollapseKeepsVisible`.
- Sanitizer.CleanHTML: its contract states the collapsed form, the length bound and the kept non-whitespace characters only. That each whitespace run becomes exactly one space is in `Sanitizer.CleanCollapsesRuns`.
- Chunker.PackStep: its contract states how the closed chunks grow. The packing invariant it keeps is in `Chunker.PackStepInv`.
- Chunker.PackFrom: its contract states how the closed chunks grow. The greedy shape of the result is in `Chunker.PackFromInv` and `Chunker.PackedGroupsAreGreedy`.
- Chunker.Assemble: its contract states chunk counts only. The chunks themselves are in `Chunker.AssembleChunks` and `Chunker.SplitNormalForm`.

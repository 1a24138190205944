# Website RAG chatbot — a verified Dafny model

`main.py` is a retrieval-augmented chatbot for one company's website. A
`WebsiteChatbot` session fetches five conventional pages of the site and
cleans their visible text (`WebsiteScraper`). It cuts the pages into
600-character chunks. For each question it scores every chunk lexically and
joins the five best chunks into a context, falling back to the first eight
chunks when nothing scores. It then sends a fixed prompt through `LLM`, a
memoising layer over a chat-completions service.

The model has one module per component:

- `Text` (`text.dfy`): the Python `str` operations the program relies on.
  These are `isspace`, `strip`, `lower`, `split("\n")`, `split()`, `join`,
  `in` and `startswith`.
  - `isspace` is a definition only: the set of whitespace characters.
  - `startswith` is shown to mean "is the prefix followed by something".
  - `strip` removes only whitespace, from both ends, and is idempotent.
  - `split("\n")` and `join` are shown to be inverses.
  - `in` is shown to mean an occurrence at some offset.
  - `split()` yields non-empty words free of whitespace. For every string,
    its words joined by single spaces are the string trimmed with each
    inner whitespace run collapsed to one space. That is `Text.JoinWords`,
    against the independent character-by-character definition
    `Text.Squeeze`.
- `Scraper` (`scraper.dfy`): the cleanup after HTML parsing in
  `scrape_page`, the URL derivation of `scrape_website`, and the
  collection of truthy results in completion order.
  - The method `ScrapeWebsite` is proved equal to the specification
    function `CollectPages`.
- `Chunking` (`chunking.dfy`): the specification of `create_chunks`, and
  the lemmas that show it is lossless, bounded, counted and page-ordered.
- `Ranking` (`ranking.dfy`): the score of `retrieve`, the `scored` list,
  Python's tuple order, `list.sort(reverse=True)` (as an insertion sort
  proved sorted, a permutation and unique), the best five chunks and the
  context string.
- `Generation` (`generation.dfy`): one `generate` call as a pure step
  function `GenerateStep`, with lemmas about missing keys, cache hits,
  repeats and failures.
  - The class `LLM` holds the cache. A ghost log records every call made
    to the service. Its invariant is that every cached answer is a
    successful reply to that very prompt.
- `Chatbot` (`chatbot.dfy`): the prompt text, the fallback context and
  the class `WebsiteChatbot`.
  - The class's methods `Initialize`, `CreateChunks`, `Retrieve` and `Ask`
    update or read the fields `pages`, `chunks` and `ready`.
  - `CreateChunks` and `Retrieve` keep the program's loops, with
    invariants.
  - The class invariant is that `chunks` is always the chunking of
    `pages`.

The network, the HTML parser and the language model are parameters:

- `fetch: string -> Option<string>` gives the parsed visible text of a
  URL. It returns `None` when the request fails, times out or answers with
  a status other than 200.
- `order`, a permutation of `0..4`, is the order in which `as_completed`
  hands back the five futures.
- `reply: Reply` is the status and message content the service would
  return if it were asked.
- The value of `OPENROUTER_API_KEY` is a constructor argument. It is
  stripped on construction, as the program does at load.

The system's written description disagrees with the code in a few places.
The model follows the code:

- **Tie-break.** The description asks for a stable sort that keeps corpus order
  among equal scores. The code sorts `(score, chunk)` tuples with
  `reverse=True`, so equal scores are ordered by chunk text, descending.
  This is `Ranking.SortDesc` and `Ranking.AtLeast`.
- **Readiness.** The description says an initialisation that collects no page
  should fail. The code sets `ready` unconditionally.
  `Chatbot.WebsiteChatbot.Initialize` states that it ends ready for every
  outcome. `Chatbot.SessionContextEmpty` states that such a session then
  sends an empty context.
- **Empty context.** The code's policy is the fallback: the first
  min(8, n) chunks joined by a blank line. It never refuses by itself.
  With an empty corpus it sends the prompt with an empty context and
  returns whatever the service answers.
- **Word matching.** Question words are `split()` pieces with their
  punctuation. The description gives an example question about a return
  policy. In it only "return" earns the word bonus; "policy?" does not. The first chunk is still the only
  one that scores, and `Ranking.OnlyScoringChunk` gives the resulting
  context for any such pair of chunks.
- **Repeated calls.** The description says a second identical call makes
  no outbound call. That holds unless the first call reached the service
  and got a non-200 reply. Such a failed call stores nothing, so the
  second one calls again. Two calls without a key make no call at all. See
  `Generation.RepeatIsFree` and `Generation.FailureIsRetried`.

## Model

| member | source | states |
|---|---|---|
| Text.IsSpace | main.py:46 | defines `str.isspace()` on one character: the whitespace set that `strip()` and `split()` use |
| Text.StartsWith | main.py:61 | defines `s.startswith(p)`: `p` is the first `|p|` characters of `s` |
| Text.StartsWithConcat | main.py:61 | `startswith(p)` holds exactly when the string is `p` followed by something |
| Text.IsSubstring | main.py:188 | defines Python's `needle in hay` on strings, recursively over the suffixes of `hay` |
| Text.Join | main.py:202 | defines `sep.join(parts)` |
| Text.Words | main.py:191 | defines `str.split()` with no argument: the maximal runs of non-whitespace, in order |
| Text.JoinWords | main.py:191 | for every string, the words of `split()` joined by single spaces are the string trimmed with each inner whitespace run made one space |
| Text.Lower | main.py:179 | same length, each character mapped by `LowerChar`: ASCII capitals to small letters, everything else unchanged |
| Text.LowerIdempotent | main.py:185 | lower-casing twice is lower-casing once |
| Text.IsSubstringAt | main.py:188 | `needle in hay` holds exactly when the needle occurs at some offset |
| Text.Strip | main.py:46 | the stripped line is no longer than the line and neither starts nor ends with whitespace |
| Text.StripSlice | main.py:46 | the stripped line is a contiguous slice of the line, and everything removed on either side is whitespace |
| Text.StripIdempotent | main.py:48 | stripping a stripped line changes nothing (the length tested is that of the kept line) |
| Text.TrimStart | main.py:46 | a suffix of the input; only whitespace removed; starts with non-whitespace or is empty |
| Text.TrimEnd | main.py:46 | a prefix of the input; only whitespace removed; ends with non-whitespace or is empty |
| Text.SplitOn | main.py:47 | `split("\n")` always yields at least one piece |
| Text.JoinSplitOn | main.py:47 | joining the pieces of `split(sep)` with `sep` restores the string |
| Text.SplitOnPiecesFree | main.py:47 | no piece of `split(sep)` contains `sep` |
| Text.SplitOnJoin | main.py:51 | splitting a join of one or more separator-free pieces gives the pieces back |
| Text.JoinEmpty | main.py:202 | with a non-empty separator, `join` is empty exactly when there are no parts or one empty part |
| Text.RunLength | main.py:191 | the leading run of non-whitespace characters is maximal |
| Text.WordsAreWords | main.py:191 | every word of `split()` is non-empty and holds no whitespace |
| Text.WordsOfJoin | main.py:191 | `split()` of words joined by single spaces gives the words back |
| Scraper.KeepLine | main.py:45-49 | defines one line of the list comprehension: the stripped line, kept when longer than 25 characters |
| Scraper.KeptLines | main.py:45-49 | defines the list comprehension over all lines, in order |
| Scraper.KeptText | main.py:45-51 | defines the kept lines joined by newlines, before the 15000-character cut |
| Scraper.ScrapePage | main.py:26-57 | defines `scrape_page(url)`: `None` when fetching fails, else the cleaned text |
| Scraper.IsTruthy | main.py:79 | defines `if result:`: present and not the empty string |
| Scraper.Truthy | main.py:77-80 | defines the truthy results kept in the order given |
| Scraper.Reorder | main.py:77 | defines the results visited in completion order |
| Scraper.CollectPages | main.py:59-82 | defines what `scrape_website` returns for a completion order |
| Scraper.KeptLinesMembers | main.py:45-49 | a line is kept exactly when it is the stripped form, longer than 25 characters, of some input line |
| Scraper.KeptLinesAppend | main.py:45-49 | the filter keeps line order: it works line by line |
| Scraper.KeptLinesClean | main.py:45-49 | kept lines are non-empty, already stripped and newline-free |
| Scraper.CleanText | main.py:45-53 | a prefix of the kept lines joined by newlines, of length min(15000, that text's length) |
| Scraper.CleanTextLinesRecoverable | main.py:45-51 | splitting the joined text on newlines gives back exactly the kept lines |
| Scraper.CleanTextEmpty | main.py:45-53 | the cleaned text is empty exactly when no line is longer than 25 characters |
| Scraper.ScrapePageTruthy | main.py:26-53 | a page's result is truthy exactly when it was fetched and has a line longer than 25 characters |
| Scraper.NormalizeBase | main.py:61-62 | the base starts with "http" and is unchanged exactly when it already did; otherwise it is "https://" followed by the given base |
| Scraper.NormalizeBaseIdempotent | main.py:61-62 | normalising twice is normalising once |
| Scraper.CandidateUrls | main.py:64-70 | exactly five URLs, the normalised base followed by "", "/about", "/services", "/products", "/contact" |
| Scraper.ScrapeAll | main.py:75 | one result per candidate URL, in request order, each that URL's `scrape_page` |
| Scraper.TruthyCounts | main.py:77-80 | each page is collected as often as it occurs non-empty among the results; `None` and "" are dropped |
| Scraper.CollectPagesNonEmpty | main.py:79-80 | no collected page is empty |
| Scraper.ReorderPermutation | main.py:77 | visiting the results in completion order is a permutation of them |
| Scraper.CollectPagesAnyOrder | main.py:72-82 | whatever the completion order, the same pages are collected with the same multiplicities |
| Scraper.TwoOfFiveRespond | main.py:64-82 | when only the base and "/contact" yield usable text, exactly two pages are collected in every completion order |
| Scraper.ReorderAt | main.py:77-78 | with every index in range, the k-th completed result is the one submitted at the k-th index of the order |
| Scraper.ReorderSameIndices | main.py:77-78 | two completion orders listing the same indices visit the same results, each as often |
| Scraper.CollectCompleted | main.py:77-80 | the loop appends exactly the truthy results, taken in completion order |
| Scraper.ScrapeWebsite | main.py:59-82 | the loop over completed futures collects exactly `CollectPages` for the given completion order |
| Chunking.PageChunks | main.py:167-169 | defines the 600-character windows of one page |
| Chunking.Chunks | main.py:163-171 | defines the windows of all pages, page after page |
| Chunking.PageChunksLossless | main.py:167-169 | a page's windows concatenated in order are the page |
| Chunking.PageChunksBounded | main.py:167-169 | every window holds 1 to 600 characters |
| Chunking.PageChunksCount | main.py:167 | a page of n characters yields ceil(n/600) windows |
| Chunking.PageChunksFull | main.py:167-168 | every window of a page but the last is full |
| Chunking.PageOrder | main.py:165-171 | the windows of page k follow those of all earlier pages and precede those of all later ones |
| Chunking.ChunksWithinPages | main.py:163-171 | no chunk is empty or over 600 characters, and each lies in a single page's windows |
| Chunking.ChunksLossless | main.py:163-171 | the whole corpus concatenated is the pages concatenated |
| Ranking.Score | main.py:183-193 | defines a chunk's score: 10 when the whole lower-cased question occurs in the lower-cased chunk, plus 2 per question word longer than 3 characters that occurs in it |
| Ranking.Scored | main.py:181-196 | defines the `scored` list: the positively scored chunks as `(score, chunk)` pairs, in corpus order |
| Ranking.StrLess | main.py:198 | defines Python's `<` on strings: lexicographic by code point, a proper prefix first |
| Ranking.AtLeast | main.py:198 | defines tuple `>=` on `(score, chunk)`: by score, then by chunk text |
| Ranking.Best | main.py:198-200 | defines `best`: the first five pairs after the descending sort |
| Ranking.Retrieved | main.py:202 | defines the context: the chosen chunk texts joined by a blank line |
| Ranking.MatchCount | main.py:191-193 | the number of word hits is at most the number of question words |
| Ranking.MatchCountPositive | main.py:191-193 | some word earns the bonus exactly when some position holds a word longer than 3 characters found in the chunk |
| Ranking.ScorePositive | main.py:179-195 | a chunk is kept exactly when the whole lower-cased question, or one of its words longer than 3 characters, occurs in the lower-cased chunk |
| Ranking.ScoreIgnoresCase | main.py:179-185 | the score does not depend on letter case |
| Ranking.ScoredMembers | main.py:183-196 | a pair is in `scored` exactly when its chunk is in the corpus with that score and the score is positive |
| Ranking.StrLessIrreflexive | main.py:198 | Python's string `<` is irreflexive |
| Ranking.StrLessTransitive | main.py:198 | Python's string `<` is transitive |
| Ranking.StrLessTotal | main.py:198 | any two strings are equal or ordered one way or the other |
| Ranking.StrLessAsymmetric | main.py:198 | Python's string `<` is asymmetric |
| Ranking.AtLeastReflexive | main.py:198 | tuple order is reflexive |
| Ranking.AtLeastTotal | main.py:198 | any two pairs are comparable by tuple order |
| Ranking.AtLeastAntisymmetric | main.py:198 | two pairs each at least the other are equal |
| Ranking.AtLeastTransitive | main.py:198 | tuple order is transitive |
| Ranking.Insert | main.py:198 | inserting adds exactly that pair to the multiset |
| Ranking.InsertSorted | main.py:198 | inserting into a descending list keeps it descending |
| Ranking.SortDesc | main.py:198 | the sorted list is descending in tuple order and a permutation of `scored` |
| Ranking.SortedUnique | main.py:198 | two descending permutations of the same pairs are equal, so the result of the sort is determined |
| Ranking.Texts | main.py:202 | the chunk text of every chosen pair, in order |
| Ranking.BestLength | main.py:198-200 | at most 5 chunks are chosen, and min(5, number of scored chunks) are |
| Ranking.BestMembers | main.py:195-200 | every chosen pair is a corpus chunk with its own positive score; the choice is descending by score and, within a score, by chunk text |
| Ranking.BestWithinScored | main.py:198-200 | no pair is chosen more often than it occurs in `scored`, so duplicate chunks are not over-chosen |
| Ranking.BestExcluded | main.py:198-200 | a pair chosen fewer times than it occurs in `scored`, duplicate chunks included, means five were chosen and the fifth is at least that pair in tuple order |
| Ranking.PrefixExcluded | main.py:198-200 | in a sorted list, a pair occurring more often than in a prefix lies past the prefix, and the prefix's last pair is at least it |
| Ranking.BestExcludedChunk | main.py:195-200 | a positively scored chunk whose pair is not chosen means five were chosen, each scoring at least as much |
| Ranking.RetrievedEmpty | main.py:195-202 | over non-empty chunks the context is "" exactly when no chunk scores |
| Ranking.OnlyScoringChunk | main.py:177-202 | with two chunks of which only the first scores, the choice is that chunk alone and it is the context |
| Generation.GenerateStep | main.py:94-126 | asks the service exactly when a key is set and the prompt is not cached; a no-call step leaves the cache as it was; the cache only grows, and only by the prompt with the reply's content on status 200; no key gives the key sentinel; a non-200 reply gives the error sentinel |
| Generation.MissingKeyShortCircuits | main.py:96-97 | without a key: the sentinel, no call, cache untouched |
| Generation.CacheHit | main.py:101-102 | a cached prompt returns the stored answer without a call |
| Generation.RepeatIsFree | main.py:99-126 | after a success or a hit, the same prompt again returns the same answer without a call, and the cache is unchanged |
| Generation.FailureIsRetried | main.py:118-120 | a non-200 reply returns the error sentinel, stores nothing, and the next call for the prompt asks again |
| Generation.OtherPromptsUntouched | main.py:124 | a call never changes another prompt's cache entry |
| Generation.LLM.constructor | main.py:91-92 | empty cache and empty log; the key is the configured value stripped, as main.py:12 does at load |
| Generation.LLM.Generate | main.py:94-126 | result, new cache and new log are those of `GenerateStep`; the cached answers stay service replies to their own prompts |
| Chatbot.Prompt | main.py:219-236 | defines the prompt text for a company, a context and a question |
| Chatbot.AskContext | main.py:213-217 | defines the context `ask` uses: the retrieved one, or the first 8 chunks joined by a blank line when that is empty |
| Chatbot.PromptHolds | main.py:219-236 | the prompt holds the company, the context and the question verbatim at fixed places and ends with the answer cue |
| Chatbot.PromptDistinguishesQuestions | main.py:219-236 | for fixed company and context, distinct questions give distinct prompts, hence distinct cache keys |
| Chatbot.AskContextCases | main.py:213-217 | over non-empty chunks: if some chunk scores, the retrieved context, which is non-empty; otherwise the first min(8, n) chunks joined by a blank line |
| Chatbot.AskContextEmpty | main.py:213-217 | over non-empty chunks, the context is empty exactly when there are no chunks |
| Chatbot.SessionContextEmpty | main.py:148-155 | after initialising with any fetch results, the context sent is empty exactly when no page was collected |
| Chatbot.AskStep | main.py:208-238 | a session not ready answers "Bot not ready" without a call; a ready one calls the service exactly when the key is set and its prompt is not cached |
| Chatbot.AskRepeatIsFree | main.py:208-238 | a ready session asked the same question twice, after a success or a cache hit, calls the service at most once and answers the same |
| Chatbot.WebsiteChatbot.constructor | main.py:135-142 | company and URL kept, no pages, no chunks, not ready, a fresh empty generation layer |
| Chatbot.WebsiteChatbot.Initialize | main.py:148-155 | ready, with the collected pages for the completion order and their chunks, even when none was collected; the cache untouched |
| Chatbot.WebsiteChatbot.CreateChunks | main.py:161-171 | the nested loops produce exactly `Chunks(pages)`; nothing else changes |
| Chatbot.WebsiteChatbot.Retrieve | main.py:177-202 | the scoring loops, sort and join produce exactly `Retrieved(chunks, question)` |
| Chatbot.WebsiteChatbot.Ask | main.py:208-238 | answer, cache and call log are those of `AskStep` with the prompt built from the fallback context; not ready leaves the generation layer untouched |

## Left out

- The Streamlit user interface (`main`, main.py:245-285). It is
  interaction only.
- HTTP transport.
  - `requests.get` and `requests.post`, the browser header and the timeout
    are parameters: `fetch` and `reply`.
  - An exception raised by `requests.post` in `generate` is not caught by
    the program and is not modelled.
- JSON parsing of the service's reply. `Reply.content` stands for
  `choices[0].message.content`. A malformed 200 body, which raises in the
  program, is not modelled.
- BeautifulSoup parsing, the removal of script and style elements and the
  choice of `<main>` (main.py:32-43). `fetch` yields the extracted text.
- The catch-all exception handler of `scrape_page` (main.py:55-57). It
  maps every failure to `None`, which `fetch` returns directly.
- Thread-pool concurrency (main.py:74-80). The completion order is the
  permutation `order`, and collection is sequential.
- `hashlib.md5`. The cache is keyed by the prompt itself, so digest
  collisions are not modelled.
- Environment configuration (main.py:12). The API key is a constructor
  argument; the endpoint URL and the model name are not used.
- The `temperature` and `max_tokens` payload fields (main.py:113-114).
- The `print` logging (main.py:56, 119).
- Text.Lower: only ASCII letters are lower-cased. Python's `str.lower()`
  also maps non-ASCII capitals and can change the length of a string.
- Lemmas over concrete literal strings are not included. The
  return-policy example is covered only in general form, by
  `Ranking.OnlyScoringChunk`, which takes the two scores as given.

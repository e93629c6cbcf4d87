# research-agent: article ranking, source adapters and model-call fallbacks

This project is a Dafny model of the pure logic in the worker utilities of the
research-agent backend:

- **Ranking** (`scoreAndSortArticles`). Every raw article gets a relevance
  score for a list of keywords:
  - 2 points for each keyword found in its title, ignoring case;
  - plus the number of case-insensitive whole-word matches of each keyword in
    its content (`/\bkeyword\b/gi`).

  The scored list is then sorted by score, highest first, with a stable sort.
- **Source adapters** (`fetchFromNewsAPI`, `getHackerNewsStory`,
  `fetchFromHackerNews`, `fetchFromWikipedia`, `stripHtml`). Each HTTP request
  is replaced by its outcome (`Http<T>`): either `Failed` (a network error, an
  error status, or a body whose shape makes the handler throw) or
  `Received(body)`. What is left is the mapping, filtering and fallback logic:
  - the NewsAPI content fallback chain;
  - the HackerNews top-30 slice, story check and topic filter;
  - the Wikipedia url and the HTML tag stripper;
  - the `[]` returned on every error path inside the `try`.
- **Model-call fallbacks** (`expandTopicWithLLM`, `summarizeArticle`, and the
  zod schemas `expandTopicSchema` and `summarizeArticleSchema`). The chat
  completion is replaced by its outcome (`Reply`): the call failed, there was
  no content, the content was not JSON, or a parsed JSON value.

Files:

| file | contents |
|---|---|
| `Wrappers.dfy` | `Option` |
| `Articles.dfy` | `RawArticles` (types.ts) as `RawArticle`, and `ScoredArticle`, which adds `score: nat` |
| `Text.dfy` | ASCII lower-casing, substring search (`includes`), and the decimal rendering of a page id with its parser |
| `Scoring.dfy` | the title score, the whole-word counter, the score, and the stable sort with its uniqueness proof |
| `Adapters.dfy` | the three source adapters |
| `LlmClient.dfy` | JSON values, the two schemas, topic expansion and summarisation |

Stability is stated in a form that still holds when the input contains
identical articles. For every score `k`, `WithScore(out, k) == WithScore(in, k)`:
the articles of score `k` appear in the output in the same order as in the
input. `StableSortIsUnique` proves that a descending list with that property is
exactly `SortByScore` of the input.

## Model

| member | source | states |
|---|---|---|
| Scoring.TitleScore | backend/src/workers/utils/scoreArticles.ts:11-15 | the title component is even and at most 2 per keyword |
| Scoring.TitleScoreCountsHits | backend/src/workers/utils/scoreArticles.ts:11-15 | the title component is exactly 2 × the number of keywords whose lower-case form occurs in the lower-cased title |
| Scoring.CountFrom | backend/src/workers/utils/scoreArticles.ts:18-19 | the global search from position i finds at most one match per remaining position |
| Scoring.CountFromCoversText | backend/src/workers/utils/scoreArticles.ts:18-19 | matches of a non-empty keyword never overlap: the count times the keyword length fits in the text after i |
| Scoring.CountWholeWord | backend/src/workers/utils/scoreArticles.ts:18-19 | the per-keyword match count is at most one more than the content length |
| Scoring.WholeWordCountBound | backend/src/workers/utils/scoreArticles.ts:18-19 | a keyword of n characters is counted at most (content length) / n times |
| Scoring.MatchesFromIff | backend/src/workers/utils/scoreArticles.ts:18 | the set of whole-word positions holds exactly the positions from i on where `\bkeyword\b` matches, ignoring case |
| Scoring.MatchIsWord | backend/src/workers/utils/scoreArticles.ts:18 | inside a match of a word keyword every character is a `\w` character |
| Scoring.NoMatchInside | backend/src/workers/utils/scoreArticles.ts:18 | no second match of a word keyword can start inside a match |
| Scoring.MatchesSkipInside | backend/src/workers/utils/scoreArticles.ts:18 | skipping past a match, as the global search does, loses no whole-word position |
| Scoring.CountFromCountsMatches | backend/src/workers/utils/scoreArticles.ts:18-19 | for a keyword of word characters, the global search counts every whole-word occurrence from i on |
| Scoring.WholeWordCountIsOccurrences | backend/src/workers/utils/scoreArticles.ts:17-20 | for a keyword of word characters, the per-keyword content count is the number of positions where the keyword stands as a whole word, ignoring case |
| Scoring.ContentScore | backend/src/workers/utils/scoreArticles.ts:17-20 | the content component is at most (number of keywords) × (content length + 1) |
| Scoring.ContentScoreAppend | backend/src/workers/utils/scoreArticles.ts:17-20 | the content component is a sum over the keywords: splitting the keyword list splits the score |
| Scoring.Score | backend/src/workers/utils/scoreArticles.ts:22-24 | the score is a natural number of at most (number of keywords) × (content length + 3) |
| Scoring.SameContentScoreDifference | backend/src/workers/utils/scoreArticles.ts:11-22 | two articles with the same content differ in score by exactly 2 × the difference of their title-matched keyword counts |
| Scoring.ScoreAll | backend/src/workers/utils/scoreArticles.ts:8-25 | the `.map` keeps length and order and pairs each article with its own score |
| Scoring.ArticlesOfScoreAll | backend/src/workers/utils/scoreArticles.ts:24 | `{ ...article, score }` keeps source, title, url and content: dropping the scores gives the input back |
| Scoring.Insert | backend/src/workers/utils/scoreArticles.ts:26 | one insertion step adds exactly the inserted article (as a multiset) |
| Scoring.InsertArticles | backend/src/workers/utils/scoreArticles.ts:26 | one insertion step adds exactly that article's unscored record |
| Scoring.InsertDescending | backend/src/workers/utils/scoreArticles.ts:26 | inserting into a highest-first list keeps it highest-first |
| Scoring.InsertRuns | backend/src/workers/utils/scoreArticles.ts:26 | inserting puts the article after every earlier article of the same score and changes no other score's run |
| Scoring.SortByScore | backend/src/workers/utils/scoreArticles.ts:26 | the sort keeps the length, is a permutation (of the scored and of the unscored records), is highest-first, and keeps the input order within every score |
| Scoring.RunsDetermineDescending | backend/src/workers/utils/scoreArticles.ts:26 | two highest-first lists with the same per-score runs are equal |
| Scoring.StableSortIsUnique | backend/src/workers/utils/scoreArticles.ts:26 | any highest-first list with the input's per-score order is the sort's result, so the stable comparator sort has exactly one outcome |
| Scoring.SortKeepsDescending | backend/src/workers/utils/scoreArticles.ts:26 | sorting a highest-first list changes nothing, so sorting is idempotent |
| Scoring.ScoreAndSort | backend/src/workers/utils/scoreArticles.ts:3-27 | same length; a permutation of the input articles, none dropped; every element carries its article's score; highest-first; equal scores in input order |
| Scoring.NoKeywordsKeepsOrder | backend/src/workers/utils/scoreArticles.ts:3-27 | with no keywords every score is 0 and the input order is kept |
| Text.Lower | backend/src/workers/utils/scoreArticles.ts:13 | lower-casing keeps the length, maps each character on its own, and leaves no upper-case ASCII letter |
| Text.SameIgnoringCaseIff | backend/src/workers/utils/scoreArticles.ts:18 | character-by-character comparison under the `i` flag is equality of the lower-cased strings |
| Text.ContainsIffOccurs | backend/src/workers/utils/scoreArticles.ts:13 | `includes` holds exactly when the needle starts at some position of the haystack |
| Text.DecimalString | backend/src/workers/utils/apiClients.ts:97 | a page id renders as a non-empty string of decimal digits with no leading zero (the only string starting with 0 is "0", for 0) |
| Text.DecimalRoundTrip | backend/src/workers/utils/apiClients.ts:97 | reading the rendered digits back gives the page id |
| Adapters.NewsArticle | backend/src/workers/utils/apiClients.ts:17-23 | tagged NewsAPI, keeps title and url, and the content is the content, else the description, else "No content available."; never empty |
| Adapters.FetchFromNewsAPI | backend/src/workers/utils/apiClients.ts:4-29 | no key gives []; a failed request or a missing `articles` gives []; otherwise one article per item in order; every result is tagged NewsAPI with non-empty content |
| Adapters.GetHackerNewsStory | backend/src/workers/utils/apiClients.ts:31-46 | a story exactly when the request succeeded and the item has a title and a url; its text is the item's text or "" |
| Adapters.HnResult | backend/src/workers/utils/apiClients.ts:60-73 | a story is kept exactly when it is valid and its title contains the topic ignoring case; the article is tagged HackerNews with the story's title and url, and its content is the story text, or "No content available." when the text is empty |
| Adapters.HnCollect | backend/src/workers/utils/apiClients.ts:55-73 | at most one article per id, and an article is in the result exactly when some listed id yields it |
| Adapters.HnCollectAppend | backend/src/workers/utils/apiClients.ts:58-73 | the filter and map keep the order of the ids |
| Adapters.HnCollectOnlyListed | backend/src/workers/utils/apiClients.ts:55-58 | only the item requests of listed ids affect the result |
| Adapters.FirstStories | backend/src/workers/utils/apiClients.ts:55-56 | `.slice(0, 30)`: a prefix of the ids of length min(30, number of ids) |
| Adapters.FetchFromHackerNews | backend/src/workers/utils/apiClients.ts:48-81 | a failed top-stories request gives []; at most 30 results; each result is a kept story; an article is returned exactly when one of the first 30 ids yields it |
| Adapters.HackerNewsIgnoresLaterStories | backend/src/workers/utils/apiClients.ts:55-57 | item requests past the 30th top story never change the result |
| Adapters.HackerNewsKeepsOrder | backend/src/workers/utils/apiClients.ts:58-73 | the results are those of any prefix of the first 30 ids followed by those of the rest: top-stories order is kept |
| Adapters.StripHtml | backend/src/workers/utils/apiClients.ts:89 | the output holds no `<` and is never longer than the input |
| Adapters.SkipTag | backend/src/workers/utils/apiClients.ts:89 | `[^>]*>?` consumes up to and including the first `>`, or everything when there is none |
| Adapters.StripHtmlKeepsPlainPrefix | backend/src/workers/utils/apiClients.ts:89 | text before the first `<` passes through unchanged |
| Adapters.SkipTagPast | backend/src/workers/utils/apiClients.ts:89 | a tag body without `>` is consumed together with its closing `>` |
| Adapters.StripHtmlDropsTag | backend/src/workers/utils/apiClients.ts:89 | a complete tag is removed together with everything inside it |
| Adapters.StripHtmlIdentity | backend/src/workers/utils/apiClients.ts:89 | text without `<` is left unchanged |
| Adapters.StripHtmlIdempotent | backend/src/workers/utils/apiClients.ts:89 | stripping twice is stripping once |
| Adapters.WikiUrl | backend/src/workers/utils/apiClients.ts:97 | the url is "https://en.wikipedia.org/?curid=" followed by at least one decimal digit, with no leading zero unless the id is 0 |
| Adapters.WikiUrlRoundTrip | backend/src/workers/utils/apiClients.ts:97 | the page id can be read back from the url |
| Adapters.WikiUrlInjective | backend/src/workers/utils/apiClients.ts:97 | distinct pages get distinct urls |
| Adapters.WikiArticle | backend/src/workers/utils/apiClients.ts:94-99 | tagged Wikipedia, keeps the title, the url is the page's url (so it points at the page id), the content is the stripped snippet followed by "..." and holds no `<` |
| Adapters.FetchFromWikipedia | backend/src/workers/utils/apiClients.ts:83-105 | a failed request, a missing `query` or a missing `search` gives []; a hit without a snippet makes the whole call give []; otherwise one article per hit in order, each tagged Wikipedia with a page url and no `<` in its content |
| LlmClient.Strings | backend/src/workers/utils/schema.ts:4 | `z.array(z.string())` accepts exactly the arrays of strings and returns those strings in order |
| LlmClient.StringsRoundTrip | backend/src/workers/utils/schema.ts:4 | an array built from strings is accepted and gives the same strings back |
| LlmClient.ExpandTopicSchema | backend/src/workers/utils/schema.ts:3-5 | accepts exactly the objects whose `keywords` field is an array of strings (other keys allowed), and returns those strings in order |
| LlmClient.SummarizeArticleSchema | backend/src/workers/utils/schema.ts:7-10 | accepts exactly the objects with a string `summary` and an array of strings `keywords`, and returns those two fields |
| LlmClient.ExpandTopic | backend/src/workers/utils/llmClient.ts:13-43 | the topic always comes first; a validated reply gives the topic followed by its keywords; any other reply gives exactly [topic] |
| LlmClient.ExpandTopicKeepsKeywords | backend/src/workers/utils/llmClient.ts:32-36 | a reply carrying keywords gives the topic followed by all of them, in their order |
| LlmClient.ExpandTopicNoDedup | backend/src/workers/utils/llmClient.ts:36 | the topic is prepended without removing its copies from the keywords |
| LlmClient.SummarizeArticle | backend/src/workers/utils/llmClient.ts:45-83 | a reply accepted by the schema is returned as validated; every other outcome gives the fixed fallback summary with no keywords |
| LlmClient.SummarizeArticleRoundTrip | backend/src/workers/utils/llmClient.ts:65-69 | a well-formed reply comes back exactly as the model wrote it |

## Left out

- Network and model transport are left out: the axios requests, query-string assembly with `encodeURIComponent`, the OpenAI client and the `process.env` reads. Their outcomes are inputs (`Http<T>`, `Reply`, the `apiKey` parameter).
- The `Promise.all` fan-out over the HackerNews item requests is modelled as a sequential map over the ids. It keeps the order, as `Promise.all` does. Concurrency is not modelled.
- The `console.*` logging and the unused `retries` parameter of `fetchFromNewsAPI` are left out.
- Scoring.CountFrom: the keyword is matched literally. The source puts the raw keyword into a regular expression, so a keyword holding metacharacters is interpreted as a pattern instead (`.` matches any character), or makes `new RegExp` throw (`c++`). That throw would fail the whole ranking call. For keywords made of letters, digits, `_` and other non-metacharacters, the model and the source agree.
- Scoring.CountFromCountsMatches: it is proved for keywords of word characters only. For other keywords, matches can overlap, and the global search then counts only the non-overlapping matches it finds from left to right. `CountFrom` models that count for every keyword.
- Text.Lower: lower-casing and the `i` flag fold only ASCII letters. Full Unicode case mapping is not modelled.
- LlmClient.Strings: JSON numbers are modelled as integers. Floating point does not affect any schema decision here.
- Adapters.FetchFromNewsAPI: `title` and `url` are strings in the model. The source copies whatever the answer holds, including `undefined`.
- Adapters.GetHackerNewsStory: `title`, `url` and `text` are optional strings. A truthy non-string title would make `toLowerCase` throw in the source; the model has no such value.
- Adapters.FetchFromWikipedia: a hit's `pageid` is a natural number and `title` a string. The url renders the page id in plain decimal digits, which JavaScript does only for ids below 10^21 (and exactly only up to 2^53); larger numbers would be written in exponent form.
- Adapters.FetchFromNewsAPI, Adapters.FetchFromWikipedia: the request url is built with `encodeURIComponent(topic)` before the `try` (apiClients.ts lines 10-12 and 86-88), so a topic holding an unpaired surrogate makes these calls throw instead of returning `[]`. The model takes no topic for these two adapters and its strings cannot hold such a character, so that throw is not modelled.
- The code has no job pipeline (orchestrator, status state machine, job log); the worker entry point only logs. The Express controllers and routes, the BullMQ queue, Prisma and the frontend are HTTP, queue, database and UI plumbing and are not part of this model.
- The code does not de-duplicate by url, escape keywords, cap the expanded keywords or check urls, and the model follows the code:
  - no de-duplication by url, neither in `scoreAndSortArticles` nor in the adapters;
  - no escaping of keywords before building the whole-word matcher;
  - no cap on the number of expanded keywords;
  - no check that an adapter result has a non-empty url: NewsAPI items keep whatever url they carry.

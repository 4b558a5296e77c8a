# GooAI trend–sentiment pipeline, modelled in Dafny

GooAI fetches Google Trends interest for a list of keywords, scores each
keyword's sentiment, and tweets the top trend. This project models the three
parts of that pipeline whose behaviour can be stated exactly, and proves
properties about each one.

- `scraper.dfy` (module `Scraper`) covers `GoogleTrendsScraper` and its `fetch_trends` retry loop.
  - The class `TrendsScraper` keeps the configuration that `__init__` stores.
  - `FetchTrends` and `FetchKeyword` are the two nested loops, written as imperative methods.
  - Each method is proved equal to the specification functions `FetchAll` and `RunKeyword`.
  - The trends provider is an oracle `provider(request, attempt)`. It answers each try with a `RequestException`, some other exception, or a data frame.
  - The method returns its side effects, the requests and the `time.sleep(delay)` calls, as a trace of events.
- `sentiment_analysis.dfy` (module `SentimentAnalysis`) covers `preprocess_text`, `analyze_sentiment` and the row steps of `process_data`.
  - `preprocess_text` is modelled pass by pass. First the URL deletion (`http\S+|www\S+`, leftmost match first, greedy up to the next character that Python's `str.isspace` accepts). Then the `[^A-Za-z0-9 ]+` filter. Then `lower()` and `strip()`.
  - The transformer classifier and TextBlob's polarity are passed in as functions.
- `bot.dfy` (module `Bot`) covers `TwitterBot.load_trends` and `TwitterBot.generate_tweet`.
  - `load_trends` is the `dropna` filter, without the CSV read.
  - `generate_tweet` picks a row with the highest sentiment score and fills in the four-line template.
  - The template has a parser partner, `ParseTweet`: what it accepts is exactly the tweet of the fields it returns, and a round-trip lemma reads back every tweet whose fields hold no newline.
- `wrappers.dfy` (module `Wrappers`) holds `Option` (an empty CSV cell) and `Result` (an operation that can raise).

Four behaviours of the code that a reader might not expect:

- **Normalisation is not idempotent.** One might expect normalising twice to equal normalising once. The code deletes URLs before it deletes punctuation, so removing a `.` can join a new URL that a second pass then deletes. `NotIdempotent` proves this for every text of the form `h.ttp` followed by a non-empty run of lower-case letters other than `h` and `w`. For example, `h.ttpx` normalises to `httpx`, which normalises to the empty text. `RemoveUrlsIdempotent` proves that the URL pass on its own is idempotent.
- **The top trend among equal scores is not fixed by the code.** The code sorts with pandas' default sort, which is not stable, so it does not say which of several rows with the top score comes first. The model therefore promises only that the chosen row has a maximal score (`GenerateTweet`, `SortedHeadIsTop`). `TopIndex` picks the first maximum, which is one refinement the code allows. When the maximum is unique, every descending sort picks the same row (`UniqueTopIsSortedHead`).
- **A negative `delay` ends the fetch at the first `RequestException`.** `time.sleep` raises `ValueError` on a negative length, inside the `except` block, so the error escapes `fetch_trends`. The model records the failed request and ends the fetch as `Aborted` (`NegativeDelayEndsFetch`).
- **The "Interest Score" line of the tweet shows the sentiment score, not interest.** `GenerateTweet` states this.

## Model

| member | source | states |
|---|---|---|
| `SentimentAnalysis.IsWhitespace` | sentiment_analysis.py:18 | The characters `\s` matches in a `str` pattern, which are those for which `str.isspace` holds (and which `strip()` removes) |
| `SentimentAnalysis.UrlAt` | sentiment_analysis.py:18 | The pattern `http\S+\|www\S+` matches at the start of the text: `http` or `www` (case-sensitive) followed by at least one non-whitespace character |
| `SentimentAnalysis.NonSpaceRun` | sentiment_analysis.py:18 | The greedy extent of `\S+`: the longest prefix with no `str.isspace` character, which ends at whitespace or at the end of the text |
| `SentimentAnalysis.RemoveUrls` | sentiment_analysis.py:18 | Deleting URL matches never lengthens the text |
| `SentimentAnalysis.RemoveUrlsLeavesNoUrl` | sentiment_analysis.py:18 | After the URL pass, no match of the pattern starts anywhere in the result |
| `SentimentAnalysis.RemoveUrlsLeadingRun` | sentiment_analysis.py:18 | The URL pass never lengthens the leading non-whitespace run, and what is left of that run is unchanged |
| `SentimentAnalysis.RemoveUrlsIdentity` | sentiment_analysis.py:18 | Text in which the pattern matches nowhere passes through unchanged |
| `SentimentAnalysis.RemoveUrlsIdempotent` | sentiment_analysis.py:18 | Applying the URL pass twice gives the same result as applying it once |
| `SentimentAnalysis.BareHttpSurvives` | sentiment_analysis.py:18 | `http` with nothing after it is not a match (`\S+` needs at least one character) |
| `SentimentAnalysis.WwwSpaceSurvives` | sentiment_analysis.py:18 | `www` followed by a space is not a match |
| `SentimentAnalysis.UpperCaseUrlIsKept` | sentiment_analysis.py:18 | Matching is case-sensitive: `HTTP://x` is kept |
| `SentimentAnalysis.PlainPrefixKept` | sentiment_analysis.py:18 | A prefix containing no `h` or `w` is kept whole, and the scan goes on after it unchanged |
| `SentimentAnalysis.GluedPrefixSurvives` | sentiment_analysis.py:18-19 | Text with no `h` or `w` glued in front of a URL is kept; the URL is deleted up to the next whitespace |
| `SentimentAnalysis.KeepAllowed` | sentiment_analysis.py:19 | Only `[A-Za-z0-9 ]` characters remain, the result is never longer, and text already in that class is unchanged |
| `SentimentAnalysis.KeepAllowedAppend` | sentiment_analysis.py:19 | The filter distributes over concatenation, so the kept characters stay in input order |
| `SentimentAnalysis.KeepAllowedCounts` | sentiment_analysis.py:19 | Every allowed character keeps its number of occurrences |
| `SentimentAnalysis.LowerChar` | sentiment_analysis.py:20 | A capital becomes the small letter at the same place in the alphabet; small letters, digits and space are unchanged; so an allowed character becomes a small letter, a digit or a space |
| `SentimentAnalysis.Lower` | sentiment_analysis.py:20 | Same length as the input, lower-cased character by character |
| `SentimentAnalysis.LeadingWhitespace` | sentiment_analysis.py:20 | Counts the whitespace prefix exactly: it stops at the first non-whitespace character |
| `SentimentAnalysis.TrimEnd` | sentiment_analysis.py:20 | Returns a prefix of the input; only whitespace is cut; the result does not end in whitespace |
| `SentimentAnalysis.Strip` | sentiment_analysis.py:20 | Returns one contiguous slice of the input; only whitespace is cut on either side; the result neither starts nor ends with whitespace |
| `SentimentAnalysis.StripUnpadded` | sentiment_analysis.py:20 | Text with no whitespace at either end is its own strip |
| `SentimentAnalysis.PreprocessText` | sentiment_analysis.py:16-21 | The result uses only `a-z`, `0-9` and space, has no space at either end, and is never longer than the input |
| `SentimentAnalysis.NormalizedTextIsFixed` | sentiment_analysis.py:16-21 | Normalised text with no URL match and no space at either end is returned unchanged |
| `SentimentAnalysis.InteriorSpacesKept` | sentiment_analysis.py:19-20 | Runs of spaces inside the text are not collapsed (`a  b` stays) |
| `SentimentAnalysis.PreprocessEmpty` | sentiment_analysis.py:16-21 | The empty text normalises to the empty text |
| `SentimentAnalysis.NotIdempotent` | sentiment_analysis.py:18-20 | Normalising twice can differ from normalising once: for a non-empty run `t` of lower-case letters other than `h` and `w`, `h.ttp`+`t` becomes `http`+`t`, and that becomes empty |
| `SentimentAnalysis.SignedScore` | sentiment_analysis.py:28 | The score is the confidence or its negation; for a positive confidence it is positive exactly for `POSITIVE` and negative for every other label; a confidence in [0, 1] gives a score in [-1, 1] |
| `SentimentAnalysis.AnalyzeSentiment` | sentiment_analysis.py:23-31 | Normalises the text, then scores it with the classifier's signed confidence or with TextBlob's polarity, as the analyzer was built; no contract of its own, since both scorers are outside code (see the two rows below) |
| `SentimentAnalysis.ModelScoreInRange` | sentiment_analysis.py:26-28 | For a classifier confidence in [0, 1] (its requirement), the classifier strategy's score lies in [-1, 1], and a positive score means the label was `POSITIVE` |
| `SentimentAnalysis.AnalyzeSeesOnlyNormalizedText` | sentiment_analysis.py:23-31 | Either strategy scores only the normalised text, so texts that normalise alike score alike |
| `SentimentAnalysis.Category` | sentiment_analysis.py:40 | `Positive` exactly when the score is above 0, `Negative` exactly when below, `Neutral` exactly at 0 |
| `SentimentAnalysis.DropMissingKeyword` | sentiment_analysis.py:37 | Every kept row has a keyword, and no row is added |
| `SentimentAnalysis.DropMissingKeywordCounts` | sentiment_analysis.py:37 | Every row with a keyword is kept as many times as it occurs |
| `SentimentAnalysis.DropMissingKeywordAppend` | sentiment_analysis.py:37 | The filter distributes over concatenation, so row order is kept |
| `SentimentAnalysis.DropMissingKeywordKeepsComplete` | sentiment_analysis.py:37 | A table with no missing keyword is unchanged |
| `SentimentAnalysis.ScoreRows` | sentiment_analysis.py:39-40 | Row by row: date, keyword and interest are kept; the score is that of the keyword; the category is that of the score |
| `SentimentAnalysis.ProcessData` | sentiment_analysis.py:33-44 | One output row per row that has a keyword, in order, with its date, keyword and interest |
| `SentimentAnalysis.SameKeywordSameSentiment` | sentiment_analysis.py:39-40 | Rows with equal keywords get equal scores and categories |
| `SentimentAnalysis.ProcessedCategoryMatchesScore` | sentiment_analysis.py:39-40 | Every processed row's category agrees with its own score under both strategies |
| `Scraper.RunKeyword` | scraper.py:25-37 | The specification of one keyword's retries: a `RequestException` sleeps and retries while tries are left (or, with a negative `delay`, ends the fetch); another exception ends the fetch; a frame ends the retries with its rows tagged; its properties are the lemmas below |
| `Scraper.FetchAll` | scraper.py:24-37 | The specification of the whole fetch: each keyword's run in list order, stopping at the first escaped exception; its properties are the lemmas below |
| `Scraper.TagRows` | scraper.py:31-32 | Each provider row gives one row with the same date and interest, tagged with the keyword (`isPartial` dropped) |
| `Scraper.Failures` | scraper.py:25-37 | `n` failed tries leave `2n` events: try `k` is requested, then a sleep of `delay` follows |
| `Scraper.FailuresCounts` | scraper.py:35-37 | `n` failed tries make `n` requests and `n` sleeps, including a sleep after the last failure |
| `Scraper.FailuresSoFar` | scraper.py:25-37 | While every try fails, the keyword's run is the failures so far followed by the remaining tries; with a negative `delay`, the first failure ends the fetch after one request |
| `Scraper.FirstSuccess` | scraper.py:25-37 | A frame on try `n` after `n` failures ends the keyword: `n + 1` requests, `n` sleeps, and the frame's rows tagged with the keyword; with a negative `delay` and `n > 0`, the fetch ends after the first request with no rows |
| `Scraper.AllTriesFail` | scraper.py:25-37 | When every try fails, `retries` requests and `retries` sleeps happen, no rows are added, and the fetch goes on; with a negative `delay` and tries to make, the fetch ends after the first request with no rows |
| `Scraper.KeywordBounds` | scraper.py:25-34 | A keyword is requested at most `retries` times (never when `retries <= 0`); every request names it with a try number below `retries`; every row it adds carries it |
| `Scraper.KeywordSleepsMatchFailures` | scraper.py:35-37 | For one keyword, sleeps equal the requests that raised `RequestException`; with a negative `delay` there is no sleep, at most one such request, and it ends the fetch |
| `Scraper.SleepsMatchFailures` | scraper.py:24-37 | Over the whole fetch, sleeps equal the requests that raised `RequestException`; with a negative `delay` there is no sleep, at most one such request, and it ends the fetch |
| `Scraper.NoTriesNoRequests` | scraper.py:25 | With `retries <= 0`, no request is made and the table is empty |
| `Scraper.EmptyKeywords` | scraper.py:24 | An empty keyword list makes no request and gives an empty table |
| `Scraper.FetchAllAppend` | scraper.py:24-37 | The fetch concatenates each keyword's contribution in keyword order; rows already gathered never change; after an escaped exception, no later keyword is requested |
| `Scraper.RowsCarryTheirKeyword` | scraper.py:32 | Every row of the table carries one of the requested keywords |
| `Scraper.FailingKeywordSkipped` | scraper.py:24-37 | A keyword whose every try fails adds nothing, and the keywords after it are fetched as if it were absent; with a negative `delay` and tries to make, it ends the fetch, keeping only the rows fetched before it |
| `Scraper.OtherErrorEndsFetch` | scraper.py:24-37 | A keyword whose try raises an exception other than `RequestException`, after failures only, ends the whole fetch after that request: the rows fetched before it are all there is, and no later keyword is requested |
| `Scraper.NegativeDelayEndsFetch` | scraper.py:35-37 | With a negative `delay`, a keyword whose first try raises `RequestException` ends the whole fetch after that one request: the rows fetched before it are all there is, and no later keyword is requested |
| `Scraper.TrendsScraper.constructor` | scraper.py:11-17 | Stores the keywords and the configuration, with defaults `today 3-m`, `''`, `0`, `3` and `5` |
| `Scraper.TrendsScraper.FetchTrends` | scraper.py:20-40 | The outer loop gives the table and the event trace of `FetchAll`, or `Aborted` when an exception escapes (one other than `RequestException`, or the `ValueError` of a sleep with a negative `delay`) |
| `Scraper.TrendsScraper.FetchKeyword` | scraper.py:25-37 | The retry loop for one keyword, including the abort on a negative `delay`, gives exactly the run that `RunKeyword` specifies |
| `Bot.LoadTrends` | bot.py:29 | The `dropna` on keyword and category: never more trends than rows (membership, count and order in the rows below) |
| `Bot.LoadTrendsMembership` | bot.py:29 | A trend is loaded exactly when some row has that keyword and category present, whatever its score |
| `Bot.LoadTrendsLength` | bot.py:29 | One trend per complete row: the number loaded equals the number of rows with both fields present |
| `Bot.LoadTrendsAppend` | bot.py:29 | The filter distributes over concatenation, so row order is kept |
| `Bot.LoadTrendsKeepsCompleteTable` | bot.py:29 | A table with no missing cells loses no row and keeps each row's values |
| `Bot.TopIndex` | bot.py:34 | The chosen row's score is at least every other row's score (and it is the first such row, a refinement) |
| `Bot.SortedHeadIsTop` | bot.py:34 | Whatever order a descending sort leaves ties in, its first row is a row of the table with the top score |
| `Bot.UniqueTopIsSortedHead` | bot.py:34 | When one row alone holds the top score, every descending sort puts that row first |
| `Bot.Tweet` | bot.py:39-44 | The four-line template; no contract of its own, its shape is stated by `TweetLines`, `ParseTweet` and `ParseTweetRoundTrip` |
| `Bot.GenerateTweet` | bot.py:32-46 | Fails exactly on an empty table; otherwise the tweet is the template filled from one row with the highest score (keyword, category and that row's sentiment score) |
| `Bot.LoadedTableTweets` | bot.py:25-34 | After loading, a tweet is produced exactly when some row has both a keyword and a category |
| `Bot.ParseTweet` | bot.py:39-44 | Any text it accepts is exactly the template filled with the three fields it returns |
| `Bot.LinesUnlines` | bot.py:39-44 | Splitting a text at its newlines loses nothing: joining the lines with newlines gives the text back |
| `Bot.TweetLines` | bot.py:39-44 | A tweet whose fields contain no newline has exactly four lines: the keyword line, the sentiment line, the score line and the signature |
| `Bot.ParseTweetRoundTrip` | bot.py:39-44 | Reading a tweet back gives its keyword, sentiment and formatted score, provided none of them contains a newline |

## Left out

- File I/O is not modelled: `pd.read_csv`, `to_csv`, `save_to_csv` and `run`. Tables enter and leave as sequences of rows.
- Logging is not modelled.
- The `__main__` blocks are not modelled.
- `time.sleep(delay)` is recorded as a `Slept` event in the trace; no time passes. A negative `delay` makes the sleep raise `ValueError`, which the model records as the end of the fetch, with no `Slept` event.
- Twitter authentication, `post_tweet` (including its caught `TweepError`) and the endless `schedule_tweets` loop are not modelled.
- `trend_visualizer.py` and `app.py` are not part of this model.
- The pytrends client is an oracle, not a model of Google Trends.
  - Its answer depends only on the request and the try number. State the provider keeps across keywords, such as rate limiting, is not modelled, and a keyword listed twice gets the same answers both times; `FailingKeywordSkipped`'s "fetched as if it were absent" relies on this.
  - Any exception other than `requests.exceptions.RequestException` (pytrends' own `ResponseError`, for example) aborts the fetch as `Aborted`, with no table.
  - `build_payload` and `interest_over_time` are one call, made once per try.
- The `KeyError` that `drop(columns=['isPartial'])` would raise on a frame without that column is not modelled: `ProviderRow` always has the field.
- pandas names the interest column after the keyword. The model keeps interest in one field, so the wide layout of `pd.concat` across keywords (one column per keyword, NaN elsewhere) is not modelled.
- The index of the accumulated table (dates) is a plain `date` field.
- `Scraper.TrendsScraper.FetchKeyword` is the inner `for attempt` loop as its own method. Behaviour and trace are those of the nested loop.
- The transformer pipeline and TextBlob are function parameters.
  - Their outputs are real numbers, not floats.
  - A classifier confidence in [0, 1] is assumed only where a lemma says so.
  - TextBlob's range of [-1, 1] is not modelled.
- `SentimentAnalysis.PreprocessText`: `lower()` is modelled on ASCII only. This is exact here, because the character filter has already removed every non-ASCII character.
- `SentimentAnalysis.AnalyzeSentiment`: the scorers are oracles, so it carries no contract of its own. Its properties are stated by `SignedScore`, `ModelScoreInRange` and `AnalyzeSeesOnlyNormalizedText`.
- `SentimentAnalyzer` is a value: its fields are set once by the constructor and never updated. Loading the transformer pipeline is not modelled.
- NaN sentiment scores are not modelled.
- `load_trends` runs `dropna(inplace=True)` on a frame that only `load_trends` can see. The model returns the filtered rows, which is the same observable result.
- `Bot.GenerateTweet`: the `:.2f` rendering of the score is a parameter `fmt`. The model does not claim decimal round-half-up, because Python rounds the binary float.
- `Bot.GenerateTweet`: among rows with equal top scores, the model promises only maximality, since pandas' default sort is not stable.

# Verse lookup and ranking engine

This project models the lookup core shared by the Bible command-line tool and its HTTP API. Given a query, the core:

- resolves it to one verse of a read-only corpus in one of two modes. A query with a colon is matched exactly against references. Any other query is matched as a substring of a verse's text or reference.
- when resolution fails, ranks the corpus by how many distinct query tokens each verse contains, and returns the best few as suggestions.
- picks "today's meditation". It takes the first meditation dated today's ISO date. Failing that, the API takes the day ordinal modulo the number of meditations, and the command line takes the first meditation.

Everything is pure and runs over an explicit corpus parameter. The model is therefore a set of functions, with lemmas about them.

Modules:

- `Options` holds `Option` and `Result`.
- `Text` models Python's `str.strip()`, `str.split()` and substring `in` over code points. Whitespace is exactly the set of code points for which `str.isspace()` holds.
- `Sequences` models `next(generator, None)` as a first-match search, and the slice `xs[:n]`.
- `Ranking` models `sorted(xs, key=..., reverse=True)`. It is a stable descending sort by an arbitrary key, followed by the positive-key filter and the truncation.
- `Dates` models `datetime.date`: proleptic Gregorian dates, `isoformat()` (`YYYY-MM-DD`, the full-date form of section 5.6 of RFC 3339) and `toordinal()`, where 1 January of year 1 is day 1.
- `Corpus` holds the typed records: verse, perspective, meditation and corpus.
- `Api` models `src/api.py`: `find_verse`, `suggest_verses`, `pick_today_meditation`, and the response shapes of the `search` and `meditate` handlers.
- `Cli` models `src/bible_cli.py`: its copy of `find_verse` and the meditation chosen by `print_today`.

The stable sort is characterised in three ways. Keys never increase along the result. Each class of equal keys keeps input order. Any sequence with both properties is the sort's result (`Ranking.SortIsUnique`). The suggestions are a head of that order (`Api.SuggestVerses`), so "exactly the first min(k, limit) verses of the stable score-descending order" follows from the three.

The `search` hit path reads `data["meditations"][0]`. With no meditations the handler raises `IndexError`, so `Api.Search` returns `Failure(IndexError)` there. The miss path never touches the meditations.

## Model

| member | source | states |
|---|---|---|
| Text.Strip | src/api.py:23 | `strip()` never lengthens the query; `Text.StripSpec` gives the whole characterisation |
| Text.TrimStartSpec | src/api.py:23 | the leading-whitespace trim drops only whitespace, and what it keeps does not start with whitespace |
| Text.TrimEndSpec | src/api.py:23 | the trailing-whitespace trim drops only whitespace, and what it keeps does not end with whitespace |
| Text.StripSpec | src/api.py:23 | the trimmed query is a contiguous piece of the input, with only whitespace cut at either end, and it neither starts nor ends with whitespace |
| Text.StripIdempotent | src/api.py:23 | trimming twice is trimming once |
| Text.StripEmptyIff | src/api.py:23 | the trimmed query is empty exactly when the query is all whitespace |
| Text.Contains | src/api.py:30 | a needle that starts the haystack is found, and a found needle is no longer than the haystack; `Text.ContainsIff` gives the exact condition |
| Text.ContainsIff | src/api.py:30 | `needle in hay` holds exactly when the needle occurs at some offset of the haystack |
| Text.ContainsTransitive | src/api.py:30 | a substring of a substring is a substring |
| Text.ContainsEmpty | src/api.py:30 | the empty string occurs in every string |
| Text.ContainsStrip | src/api.py:23 | the trimmed query occurs in the raw query |
| Text.Split | src/api.py:39 | `split()` yields no more words than the string has characters |
| Text.SplitWords | src/api.py:39 | `split()` yields only non-empty words free of whitespace. With `Text.SplitWord`, each word is a maximal run |
| Text.SplitWord | src/api.py:39 | a non-empty run without whitespace splits into exactly itself. Together with `Text.SplitConcat` and `Text.SplitAfterWhitespace` this fixes the words of every string |
| Text.SplitEmptyIff | src/api.py:39 | a string splits into no words exactly when it is all whitespace |
| Text.SplitConcat | src/api.py:39 | at a whitespace boundary, the words of a concatenation are the words of its parts |
| Text.SplitAfterWhitespace | src/api.py:39 | leading whitespace adds no words |
| Text.SplitStrip | src/api.py:39 | splitting the trimmed query gives the same words as splitting the raw one, so the `strip()` before `split()` changes nothing |
| Text.SplitStripJoin | src/api.py:39 | joining two queries with a space concatenates their words |
| Sequences.First | src/api.py:25-33 | `next(...)` returns the first element satisfying the condition, and None exactly when no element does |
| Sequences.Take | src/api.py:46 | `xs[:n]` is a prefix of `xs` of length min(n, len(xs)) |
| Ranking.Insert | src/api.py:45 | the insertion step of the sort adds exactly one place |
| Ranking.InsertMultiset | src/api.py:45 | inserting an element adds exactly that element |
| Ranking.InsertKeepsSorted | src/api.py:45 | inserting into a key-sorted sequence keeps it key-sorted |
| Ranking.SortDescending | src/api.py:45 | the sort rearranges its input (same multiset) and keys never increase along the result |
| Ranking.SortKeepsInputOrder | src/api.py:45 | stability: for every key, the elements with that key appear in input order |
| Ranking.SortIsUnique | src/api.py:45 | any key-sorted sequence that keeps input order within each key class equals the sort's result |
| Ranking.KeepPositive | src/api.py:46 | the `score(verse) > 0` filter never lengthens its input; `Ranking.KeepPositiveSpec` and `Ranking.KeepPositiveOfSorted` say what it keeps |
| Ranking.KeepPositiveSpec | src/api.py:46 | the filter keeps only elements with a positive key, all drawn from the input |
| Ranking.KeepPositiveOfSorted | src/api.py:45-46 | on a sorted sequence the positive elements are its head, and everything after them has key 0 or less |
| Ranking.SortKeepsPositiveCount | src/api.py:45-46 | sorting keeps the number of positive-key elements |
| Ranking.TopPositive | src/api.py:45-46 | filter-then-truncate yields min(limit, positive count) elements, all positive and from the input, key-sorted, as a head of the stable sort |
| Ranking.TopPositiveKeepsInputOrder | src/api.py:45-46 | within each key, the selected elements are a head of the input's elements with that key |
| Ranking.TopPositiveSkipsNothingBetter | src/api.py:45-46 | a positive element is left out only when all `limit` places are taken by elements keyed at least as high |
| Dates.DaysInMonth | src/api.py:56 | months have 28 to 31 days, and 29 only for February of a leap year |
| Dates.ToOrdinal | src/api.py:56 | the day ordinal of a valid date is at least 1; `Dates.OrdinalEpoch` and `Dates.OrdinalCountsDays` pin it to proleptic Gregorian day numbers (0001-01-01 is day 1 and each next day adds one) |
| Dates.OrdinalEpoch | src/api.py:56 | 1 January of year 1 is day 1 |
| Dates.OrdinalCountsDays | src/api.py:56 | each calendar day's ordinal is one more than the previous day's, across month ends, year ends and leap days |
| Dates.NextDay | src/api.py:56 | the day after a valid date, other than the last one, is valid |
| Dates.IsoFormat | src/api.py:51 | `isoformat()` is ten characters: four digits, '-', two digits, '-', two digits |
| Dates.IsoRoundTrip | src/api.py:51 | reading a date's ISO text back gives the date |
| Dates.IsoInjective | src/api.py:51 | two dates with the same ISO text are the same date |
| Api.FindVerse | src/api.py:22-33 | with a colon in the trimmed query: the first verse whose reference equals it, or None when there is none. Without a colon: the first verse whose text or reference contains it, or None when there is none |
| Api.MentionsIff | src/api.py:30 | `Api.Mentions` holds exactly when the query occurs at some offset of the verse's text or of its reference |
| Api.FirstWithReferenceUnique | src/api.py:25 | the exact-mode answer is determined uniquely |
| Api.FirstMentioningUnique | src/api.py:26-33 | the substring-mode answer is determined uniquely |
| Api.FindVerseFromCorpus | src/api.py:22-33 | a resolved verse is an element of the corpus |
| Api.FindVerseTrimInvariant | src/api.py:23 | resolving the query and resolving its trimmed form give the same answer |
| Api.ReferenceQueryDoesNotFallBack | src/api.py:24-25 | a colon query that names no reference resolves to None, even when it occurs in some text |
| Api.ReferenceRoundTrip | src/api.py:24-25 | a verse whose reference has a colon and no outer whitespace is found by that reference |
| Api.TextReachability | src/api.py:26-33 | a verse's own text, when its trimmed form has no colon, resolves to a verse mentioning it |
| Api.BlankQueryFindsFirstVerse | src/api.py:23-33 | a whitespace-only query resolves to the first verse of a non-empty corpus |
| Api.Tokens | src/api.py:39 | the tokens are exactly the words of the trimmed query, each non-empty and free of whitespace |
| Api.ScoredTextParts | src/api.py:42 | `Api.ScoredText` is the reference, then exactly one space, then the text (its length, its reference prefix, the space at the join, its text suffix), so it contains both |
| Text.ContainsInJoin | src/api.py:42-43 | a word without whitespace occurs in `a + " " + b` exactly when it occurs in `a` or in `b` |
| Api.ScoredTextMatch | src/api.py:42-43 | a whitespace-free token occurs in the scored text exactly when it occurs in the reference or in the text (it cannot straddle the joining space) |
| Api.Score | src/api.py:41-43 | a verse's score is at most the number of distinct tokens |
| Api.ScoreCountsMentions | src/api.py:39-43 | for whitespace-free tokens (as split produces), the score is exactly the number of distinct tokens that occur in the verse's reference or text |
| Api.MentionedTokenScores | src/api.py:41-43 | a token that occurs in a verse's reference or text makes that verse score at least 1 |
| Api.SuggestVerses | src/api.py:36-46 | at most `limit` suggestions, exactly min(limit, number of verses scoring above 0), each from the corpus and scoring at least 1, scores non-increasing, and a head of the stable score-descending ranking |
| Api.SuggestionsKeepCorpusOrder | src/api.py:45-46 | suggestions with equal scores appear in corpus order, as a head of the corpus's verses with that score |
| Api.SuggestionsSkipNothingBetter | src/api.py:45-46 | a verse with a positive score is left out only when all `limit` places are taken by verses scoring at least as high |
| Api.SuggestionsDependOnTokens | src/api.py:39-46 | two queries with the same token set get the same suggestions |
| Api.TokensOfJoin | src/api.py:39 | the tokens of two queries joined by a space are the union of their tokens |
| Api.RepeatedTokensKeepSuggestions | src/api.py:39-46 | appending tokens the query already has changes no score and no suggestion |
| Api.BlankQuerySuggestsNothing | src/api.py:39-46 | a whitespace-only query has no tokens, scores every verse 0 and gets no suggestions |
| Api.FirstDatedUnique | src/api.py:50-53 | the first meditation with a given date is determined uniquely |
| Api.FirstDated | src/api.py:50-53 | the scan returns the first meditation dated today's ISO text, or None when none is |
| Api.FallbackIndex | src/api.py:56 | the fallback slot lies inside the meditation list |
| Api.PickTodayMeditation | src/api.py:49-57 | the result is one of the meditations: the first one dated today when any is, otherwise the one at ordinal(today) mod their number |
| Api.DatedMeditationWins | src/api.py:50-55 | when some meditation is dated today, the pick carries today's date |
| Api.PickWithoutDatedMatch | src/api.py:56-57 | with no meditation dated today, the pick is the fallback slot |
| Api.FallbackIndexNextDay | src/api.py:56 | the fallback slot of the next day is the following slot, wrapping at the end |
| Api.FallbackAdvancesDaily | src/api.py:49-57 | on two consecutive days with no dated match, the pick moves one slot on and wraps around |
| Api.Search | src/api.py:60-82 | a hit gives exactly one result carrying the verse's fields, the first three perspectives and the first meditation, with no suggestions. A miss gives no result and `suggest_verses(verses, query)`. A hit with no meditations fails with IndexError |
| Api.SearchShapesExclusive | src/api.py:63-82 | a search never returns both results and suggestions |
| Api.Meditate | src/api.py:98-116 | a hit gives the verse's reference and summary with the corpus prompts, and no suggestions. A miss gives no result and `suggest_verses(verses, query)` |
| Cli.FindVerse | src/bible_cli.py:18-29 | the same two-mode first-match characterisation as the API resolver |
| Cli.FindVerseAgreesWithApi | src/bible_cli.py:18-29 | the command-line resolver equals the API resolver on every corpus and query |
| Cli.FindVerseTrimInvariant | src/bible_cli.py:19 | only the trimmed query matters |
| Cli.BlankQueryFindsFirstVerse | src/bible_cli.py:19-29 | a whitespace-only query resolves to the first verse of a non-empty corpus |
| Cli.TodayMeditation | src/bible_cli.py:70-74 | the shown meditation is one of the list: the first dated today when any is, otherwise the first of the list |
| Cli.TodayMeditationVersusApi | src/bible_cli.py:70-74 | the command-line and API choices agree when some meditation is dated today. Otherwise the command line shows the first meditation and the API the fallback slot |

## Left out

- Loading the corpus (`load_data`, `DATA_PATH`, JSON parsing) is file I/O. The corpus is a parameter of every operation.
- The clock (`date.today()`) is a parameter `today`. The `today` handler reads the clock twice, once to pick and once to label the response. It only copies the picked meditation's fields, so it is not modelled beyond `Api.PickTodayMeditation`.
- The FastAPI application, its routes, and the `min_length=1` validation of `query` belong to the HTTP layer. The model accepts every query, including the empty one that this validation rejects.
- The pass-through endpoints `verses`, `perspectives` and `health` contain no logic.
- argparse, `main`, and all `print_*` rendering are console output. Of `print_today` only the meditation choice is modelled (`Cli.TodayMeditation`). The resolver that `print_search` and `print_meditate` call is modelled (`Cli.FindVerse`). What they print around it is not:
  - On a miss, `print_search` prints a fixed "no results" message and no suggestions (src/bible_cli.py:38-40), unlike the API's `search`.
  - On a hit, `print_search` prints the first three perspectives and then the first meditation (src/bible_cli.py:41, 58). With an empty meditation list it raises `IndexError` after the verse and perspectives have been printed. The output written before the error is not modelled.
- Python truthiness at the `if not verse` and `if meditation` checks: a record is never empty, so a hit is `Some`.
- Api.SuggestVerses: `limit` is a natural number. Python's `[:limit]` with a negative limit drops items from the end instead, and that is not modelled.
- Api.PickTodayMeditation: requires a non-empty list. With an empty list the source divides by zero.
- Cli.TodayMeditation: requires a non-empty list. The source evaluates the default `meditations[0]` before scanning and raises `IndexError` on an empty list.
- Dates are the values `datetime.date` can hold (years 1 to 9999). Time zones do not enter.
- The selector assumes a non-empty meditation list (`Api.PickTodayMeditation` requires one). The `search` handler also indexes the first meditation on every hit, and `Api.Search` models the resulting `IndexError`.

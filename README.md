# Publisher search, wiki outline and score extraction — a Dafny model

This project models the logic of a React front-end with two screens.

**`ApiInterface`** searches a paragraph index.
- It builds the search URL from the question and the selected publishers. Publishers are toggled in and out of the selection.
- It shapes the returned hits into numbered result cards.
- It fills prompt templates with the question and the concatenated text.
- It parses a chat model's wiki outline. The outline is JSON when possible; otherwise a `key: value` line parser builds it, and failing that the whole reply becomes the answer.
- It defaults the outline's answer.
- For every headline key, it finds the matching questions key, fetches source paragraphs, asks for a concise summary and stores one section per headline.

**`DataExtractor`** runs a list of queries and a list of subset queries against one file.
- It keeps a mandatory set of fields selected.
- It loads the queries one after another and stops at the first failure. For every returned item it extracts the selected fields, with the `_additional` certainty and adjusted score.
- It exports the adjusted scores in part order.
- It turns every visible query into a chart dataset: the best `pointLimit` points, ordered by part, with the highest score highlighted.
- It writes and splits the chart's tooltip label.

Modules:
- `Wrappers` (`wrappers.dfy`): `Option`.
- `Text` (`text.dfy`): the JavaScript string operations used, each with its characterising lemmas. These are `trim`/`trimStart`/`trimEnd` with the ECMAScript white-space and line-terminator sets, `split` on one character, `join`, `indexOf`, `replace` with a string pattern (first occurrence only, with `$` patterns in the replacement) and integer-to-string.
- `Seqs` (`seqs.dfy`): sequence utilities. These are filtering out one value, de-duplication keeping first occurrences (`new Set`), a stable sort by integer key (`Array.prototype.sort` is stable), `map`, `flatMap` and `filter`.
- `OrderedMap` (`ordered_map.dfy`): a plain JavaScript object as a dictionary whose keys keep insertion order.
- `Search` (`search.dfy`): publisher toggle, URL construction, prompt filling, result shaping, the submit outcome, and the numeric input clamps.
- `Outline` (`outline.dfy`): the `key: value` fallback parser, answer defaulting, headline and questions keys, section summaries, and the wiki pipeline.
- `Queries` (`queries.dfy`): the query lists, the mandatory-field merge, field extraction and the sequential load.
- `Scores` (`scores.dfy`): the score export, chart points, the point highlight, colours, datasets and the tooltip label.

Services outside the program are parameters:
- `fetch`, the chat-completion service and `encodeURIComponent`;
- `JSON.parse`, as a classifier `json: string -> Json`;
- `parseInt`/`parseFloat` of record fields (`partOf`, `scoreOf`);
- `normalizeScore` (`normalize`, with the scale it uses folded into the `Loader`);
- `Date.now` (`now`);
- number-to-text of non-integral numbers (`showReal`).

Methods with loops mirror the source's loops:
- `Search.ConstructUrl` (the `forEach` over publishers);
- `Outline.ParseKeyValueLines` (the line loop of the fallback parser);
- `Outline.SectionSummaries` (the loop over headline keys);
- `Queries.ExtractRecord` (the `forEach` over selected fields);
- `Queries.ExtractBatch` (the `map` over returned items);
- `Queries.LoadSequentially` and `Queries.HandleSubmit` (the sequential load).

Each method is proved to compute the function that specifies it. The properties are lemmas about those functions.

## Model

| member | source | states |
|---|---|---|
| Search.TogglePublisherSpec | src/ApiInterface.js:46-52 | The publisher is selected afterwards exactly when it was not selected before. If it was absent it is appended at the end. If it was present every copy is removed. The other publishers keep their membership. |
| Search.TogglePublisherTwice | src/ApiInterface.js:46-52 | Toggling an absent publisher twice restores the selection. Toggling a present one twice moves it, as a single copy, to the end. |
| Search.ConstructUrl | src/ApiInterface.js:54-63 | The loop that appends one `&value=` parameter per selected publisher yields exactly the declared search URL. |
| Search.ValueParamsJoin | src/ApiInterface.js:57-60 | The query string is `field=publisher` followed by one `value=<encoded publisher>` per selected publisher, separated by `&`, in selection order. |
| Search.SearchUrlParts | src/ApiInterface.js:54-63 | Assume the encoder never emits `?` or `&`. With no publishers the URL is `/all/<encoded question>` and has no query string. Otherwise it splits at `?` into exactly that path and a query string. The query string splits at `&` into `field=publisher` and one parameter per publisher. |
| Search.InitialSelection | src/ApiInterface.js:4-11 | The page starts with the three offered publishers selected, each once. Assume the encoder never emits `?` or `&`. Then the first search's query string splits into `field=publisher` and one `value=` parameter per offered publisher, in the listed order. |
| Search.QueryStringParts | src/ApiInterface.js:57-60 | The query string has no `?`, and splitting it at `&` recovers its parameters exactly. |
| Search.FillPromptNoPlaceholders | src/ApiInterface.js:261-263 | A template with neither `{question}` nor `{text}` is left unchanged. |
| Search.FillPromptAt | src/ApiInterface.js:261-263 | Only the first `{question}` is replaced, then only the first `{text}` of the result. When the inserted values hold no `$`, they appear literally at those positions. |
| Search.Shown | src/ApiInterface.js:134 | `slice(0, count)` keeps `min(count, hits)` hits, and they are the first hits in their original order. |
| Search.CardsFromHits | src/ApiInterface.js:134-141 | Every card was made from the hit whose position its id names. Ids run from the first index to the last, and no card has an empty paragraph. |
| Search.CardsIncreasing | src/ApiInterface.js:134-141 | Card ids strictly increase. |
| Search.CardsComplete | src/ApiInterface.js:134-141 | Every hit with a non-empty paragraph has a card with its id. |
| Search.ShapeResultsSpec | src/ApiInterface.js:134-141 | There are at most `count` cards, and each card is the hit at position `id - 1` with a paragraph. Ids increase. |
| Search.ShapeResultsComplete | src/ApiInterface.js:134-141 | No shown hit with a paragraph is dropped. |
| Search.SubmitSpec | src/ApiInterface.js:126-150 | An error is reported exactly when the fetch failed. A non-empty array gives the shaped cards (at most `count`) and their paragraphs joined by a blank line. A non-array or empty reply gives no cards and "No results found.". |
| Search.ClampCount | src/ApiInterface.js:682 | `Math.max(1, parseInt(v) \|\| 1)` is at least 1. It is the parsed number when that is at least 1, and 1 when parsing failed or the number is below 1. |
| Outline.WordPrefixSpec | src/ApiInterface.js:94 | The `\w+` prefix of a line is its longest prefix of word characters. |
| Outline.MatchRestTrimStart | src/ApiInterface.js:94 | `\s*(.*)$` after the colon matches exactly when the rest, with leading white space removed, contains no line terminator. That trimmed rest is the captured value. |
| Outline.MatchKeyLineSpec | src/ApiInterface.js:94-97 | The regex matches a line with key `k` and value `v` exactly when the line is `k:` + white space + `v`, `k` is a maximal non-empty run of word characters, and `v` starts with no white space and contains no line terminator. |
| Outline.KeyLineMatches | src/ApiInterface.js:94-97 | Every line of the form `key: value` built under those conditions is matched with that key and value. |
| Outline.KeyLineEndingInTerminator | src/ApiInterface.js:94-97 | A line ending in a line terminator can match only with an empty value. |
| Outline.ParseKeyValueLines | src/ApiInterface.js:89-110 | The imperative line loop and the empty-result fallback compute exactly the declared fallback parse. |
| Outline.RunAppend | src/ApiInterface.js:93-105 | Parsing two runs of lines is parsing the first, then continuing with the second. |
| Outline.NoKeyLinesIdle | src/ApiInterface.js:93-105 | Lines that are not key lines, before any key line, change nothing. |
| Outline.LeadingLinesDropped | src/ApiInterface.js:92-98 | Text before the first key line is ignored. |
| Outline.RunKeys | src/ApiInterface.js:93-105 | The parsed object's keys are the keys of the key lines, each once, in first-occurrence order. |
| Outline.KeyLineKeysHas | src/ApiInterface.js:94-97 | A key is among the key-line keys exactly when some line is a key line for it. |
| Outline.KeyValueFallbackKeys | src/ApiInterface.js:89-110 | The result always has a key. With no key lines it is exactly `{answer: content.trim()}`. Otherwise its keys are the key-line keys in first-occurrence order. A key is present exactly when some line is a key line for it, or when it is `answer` and there are no key lines. |
| Outline.ContinuationStep | src/ApiInterface.js:98-103 | A non-key line after a key line adds its trimmed text to that key's value, turning a scalar into a list. A blank line adds nothing. |
| Outline.Continuation | src/ApiInterface.js:98-103 | A block of non-key lines adds its non-blank trimmed lines, in order, to the current key. |
| Outline.Untouched | src/ApiInterface.js:93-104 | Lines that never name key `k` leave `k`'s value alone while `k` is not current. |
| Outline.LastKeyLineWins | src/ApiInterface.js:93-104 | The final value of key `k` comes from its last key line, followed by the non-blank trimmed lines up to the next key line. |
| Outline.KeyValueFallbackValue | src/ApiInterface.js:89-110 | The same statement about the parse of a whole reply. |
| Outline.ParseWikiResponse | src/ApiInterface.js:65-114 | The result is always an object or a JSON primitive, never "not JSON". When neither JSON attempt parses, it is an object with at least one key. |
| Outline.DefaultAnswer | src/ApiInterface.js:295-298 | Afterwards the answer is truthy. A truthy answer is kept unchanged. A missing or falsy one becomes "No answer provided.". No other key changes, and the key order gains `answer` only when it was absent. |
| Outline.PlainReplyAnswer | src/ApiInterface.js:107-110 | A reply with no key lines becomes `{answer: trimmed reply}`. It becomes "No answer provided." when that is empty. |
| Outline.HeadlineKeyIsPrefix | src/ApiInterface.js:352 | The headline filter `startsWith('headline') \|\| /^headline_\d+$/` is the same as `startsWith('headline')`. |
| Outline.HeadlineKeysSpec | src/ApiInterface.js:352 | The headline keys are the object's keys that start with "headline", in key order. |
| Outline.KeysWithPrefixHas | src/ApiInterface.js:352 | A key is kept exactly when it is in the object and has the prefix. |
| Outline.QuestionsKeyCollapse | src/ApiInterface.js:358-362 | The three-way questions-key test is the same as "starts with `questions` and ends with the headline's digits". |
| Outline.FindQuestionsKeySpec | src/ApiInterface.js:358-362 | No questions key is found exactly when no key passes the test. A found key is the first key in key order that passes it. |
| Outline.FetchParagraphs | src/ApiInterface.js:314-346 | At most `count` paragraphs come back. A failed fetch gives none. A successful one gives `min(count, returned)`, and paragraph `i` is hit `i` of the reply with each missing field read as `''`. |
| Outline.ConciseSummary | src/ApiInterface.js:397-433 | The summary is a trimmed string. It is the trimmed reply when the service answers. |
| Outline.SectionSummaries | src/ApiInterface.js:349-395 | The loop over headline keys computes exactly the declared section dictionary. |
| Outline.SectionForOk | src/ApiInterface.js:355-385 | A headline key yields a section exactly when its questions key is found and holds a truthy value. The section is filed under the headline's text and its summary is trimmed. Its sources are the first `sourcesPer` (or all, if fewer) of the paragraphs fetched for that key's questions text, an array of questions being joined by spaces. |
| Outline.SectionsSpec | src/ApiInterface.js:349-395 | Every stored section is well formed and is filed under the text of one of the headline keys. |
| Outline.SectionsComplete | src/ApiInterface.js:355-385 | Take any headline key whose questions key is found with a truthy value. Its headline text is a key of the section dictionary. |
| Outline.SectionsLastWins | src/ApiInterface.js:355-385 | Take a headline key that produces a section, where no later headline key produces a section under the same headline text. Its headline text holds exactly that section. So a later headline with the same text overwrites an earlier one. |
| OrderedMap.PutSomeGet | src/ApiInterface.js:380-383 | A loop that stores some entries into an empty object leaves each key holding the value of its last stored entry. A key with no entry is absent. |
| Outline.GenerateWikiSummarySpec | src/ApiInterface.js:259-310 | The wiki's answer is always truthy. Every section belongs to a headline key of the outline. A failed request or an assignment to a JSON primitive gives the error wiki. A reply without choices gives the failure wiki. A plain-text reply gives `{answer: trimmed reply or default}`. |
| Queries.InitialQueriesSpec | src/DataExtractor.js:17-28 | The initial lists hold only visible queries with no results. The ids within each list are distinct, and no id is in both lists. |
| Queries.InitialSubsetIds | src/DataExtractor.js:21-28 | The initial subset ids are the strings `subset1` to `subset6`, in order. |
| Queries.AddQuerySpec | src/DataExtractor.js:100-102 | One query is appended with id `now`, empty text, no results and visible. Ids stay distinct when `now` is a new id. |
| Queries.AddSubsetQuerySpec | src/DataExtractor.js:112-114 | One visible subset query is appended with a `subset…` string id, empty text and no results. |
| Queries.UpdateQuerySpec | src/DataExtractor.js:104-106 | Only queries with the given id get the new text. Everything else is unchanged. |
| Queries.UpdateQueryTwice | src/DataExtractor.js:104-106 | Two updates of one query keep only the last text. |
| Queries.ToggleVisibilitySpec | src/DataExtractor.js:108-110 | Only queries with the given id flip their visibility. Everything else is unchanged. |
| Queries.ToggleTwice | src/DataExtractor.js:108-110 | Toggling twice restores the list. |
| Queries.WhereAbsent | src/DataExtractor.js:116-122 | An update of an id that is not in the list changes nothing. |
| Queries.MergeFieldsSpec | src/DataExtractor.js:53-58 | The merged selection is the mandatory fields followed by the other selected fields, de-duplicated. It has no duplicates. A field is in it exactly when it is mandatory or was selected. |
| Queries.InitialMerge | src/DataExtractor.js:31-58 | Merging the initial selection gives exactly the mandatory fields. |
| Queries.ExtractRecord | src/DataExtractor.js:145-158 | The `forEach` over selected fields builds exactly the declared record. |
| Queries.WritesKeys | src/DataExtractor.js:147-155 | The record's writes go to the selected fields in order, with `_additional` expanded to `certainty` and then `adjustedScore`. |
| Queries.ExpandHas | src/DataExtractor.js:147-155 | A key is written exactly when it is a selected field other than `_additional`, or when it is `certainty`/`adjustedScore` and `_additional` is selected. |
| Queries.ExtractKeys | src/DataExtractor.js:145-158 | The record's keys are the written keys, each once, in first-write order. For a duplicate-free selection without `certainty`/`adjustedScore` they are exactly the written keys. |
| Queries.ExtractField | src/DataExtractor.js:154 | An unselected field is absent. A selected field holds the item's value when that is truthy and `N/A` otherwise. |
| Queries.ExtractAdditional | src/DataExtractor.js:148-152 | Without `_additional` there is no certainty and no adjusted score. With it, an item with a truthy certainty gets its certainty and its normalised score, and any other item gets `N/A` for both. |
| Queries.ExtractAllAt | src/DataExtractor.js:145-158 | Record `k` is the extraction of item `k`, and there is one record per item. |
| Queries.ExtractBatch | src/DataExtractor.js:145-158 | The loop over returned items computes exactly the declared list of records. |
| Queries.LoadSequentially | src/DataExtractor.js:127-170 | The loop over queries computes exactly the declared sequential load. |
| Queries.HandleSubmit | src/DataExtractor.js:124-175 | Both lists are loaded independently. The reported error is the subset load's error if there is one, else the main load's. |
| Queries.LoadAllShape | src/DataExtractor.js:160-162 | Loading changes only results: ids, texts and visibility are kept. |
| Queries.LoadAllError | src/DataExtractor.js:163-168 | No error is reported exactly when every query loads. A reported error is the message of the first query that failed, and every query before it loaded. |
| Queries.LoadAllResults | src/DataExtractor.js:128-162 | When every query loads, each query gets the records fetched for it. A query not in the load keeps its results. |
| Scores.ExportScoresSpec | src/DataExtractor.js:188-203 | The export is the main queries' blocks followed by the subset queries' blocks. |
| Scores.BlocksSpec | src/DataExtractor.js:189-202 | Each block starts with `<query>:` and a newline and ends with a blank line. The blocks are concatenated in list order. |
| Scores.ScoresOrder | src/DataExtractor.js:190-199 | The exported records are exactly the records with a score. They are ordered by part, and records with equal parts keep their original order. |
| Scores.ScoresLineSpec | src/DataExtractor.js:190-199 | Take any sequence that is sorted by part and holds, for every part, exactly the scored records of that part in their original order. Every record in it has a score. The score line is the `, `-join of their adjusted-score texts, one text per record, in that order. |
| Seqs.SortedUnique | src/DataExtractor.js:190-194 | Two part-sorted sequences that hold the same records for every part, in the same order, are equal. So the stable sort's result is the only such ordering. |
| Scores.SelectSpec | src/DataExtractor.js:336-346 | The chart keeps `min(pointLimit, points)` points for a non-negative limit, and follows `slice` semantics for the others. The kept points are ordered by part and are drawn from the query's points. |
| Scores.SelectTop | src/DataExtractor.js:343-344 | No dropped point scores higher than a kept one. |
| Scores.MaxScoreSpec | src/DataExtractor.js:347 | The maximum is absent exactly for no points. Otherwise it is some point's score, and no score exceeds it. |
| Scores.StylesSpec | src/DataExtractor.js:352-361 | A point is drawn large and white-bordered exactly when its score is the highest. Otherwise it is drawn small in the line's colour. A non-empty dataset highlights at least one point. |
| Scores.DatasetsSpec | src/DataExtractor.js:335-393 | Only visible queries get datasets. The `i`-th visible query gets dataset `i`, coloured by `i` modulo the palette and drawn from its own points. |
| Scores.ChartDataMain | src/DataExtractor.js:335-362 | The chart has one dataset per visible main query and per visible subset query. For `k` below the number of visible main queries, dataset `k` belongs to the `k`-th visible main query. It is coloured `lineColors[k % 5]`, is not a secondary line, and holds that query's selected points and their styles. |
| Scores.ChartDataSubsets | src/DataExtractor.js:365-398 | Let `n` be the number of visible main queries. For `k` from `n` on, dataset `k` belongs to the `(k - n)`-th visible subset query. It is coloured `subsetLineColors[(k - n) % 6]`, is drawn as a secondary line, and holds that query's selected points and their styles. |
| Scores.LabelRoundTrip | src/DataExtractor.js:249-253 | A label written by the tooltip `label` callback (`src/DataExtractor.js:417-419`) splits back, at `\|` and trimmed, into its part, title and score. |
| Scores.TrimLabelPieces | src/DataExtractor.js:251-253 | Trimming the split pieces strips exactly the padding that the label template added. |
| Text.TrimStartSpec | src/ApiInterface.js:98-102 | `trimStart` removes exactly the longest white-space prefix. |
| Text.TrimEndSpec | src/ApiInterface.js:98-102 | `trimEnd` removes exactly the longest white-space suffix. |
| Text.TrimIdempotent | src/ApiInterface.js:109 | Trimming twice is trimming once. |
| Text.ReplaceFirstAt | src/ApiInterface.js:262-263 | `replace` with a string pattern replaces exactly the first occurrence, and a replacement without `$` is inserted literally. |
| Text.SplitJoin | src/DataExtractor.js:250 | Splitting a join at its separator recovers the parts, when no part holds the separator. |
| Text.JoinSplit | src/DataExtractor.js:250 | Joining the split pieces with the separator restores the string. |
| Text.NatToStringValue | src/DataExtractor.js:417-419 | The decimal text of a number reads back as that number. |
| Seqs.SortByStable | src/DataExtractor.js:190-194 | The sort is stable: records with equal keys keep their relative order. |
| Seqs.DedupAppend | src/DataExtractor.js:55 | De-duplicating a concatenation gives the first part de-duplicated, then the second part's new elements de-duplicated. |
| OrderedMap.Dict.Put | src/DataExtractor.js:147-155 | An assignment to an object property sets that key and leaves every other key unchanged. It appends the key to the key order only when the key is new. |
| OrderedMap.PutAllKeys | src/DataExtractor.js:146-157 | After a series of assignments, the keys are the assigned keys in first-assignment order. |
| OrderedMap.PutAllGet | src/DataExtractor.js:146-157 | After a series of assignments, each key holds its last assigned value. |

## Left out

- Network, DOM and React state: `fetch`, response status and body, `setState`, `useEffect`/`useMemo`, the loading flags and the graph-size inputs. Each service becomes a parameter. A state update is a function from the old list to the new one.
- The clipboard copy (`src/ApiInterface.js:155-164`). The `generateSummary`, `generateDetailedSummary` and `generateSummaryForParagraphs` requests (`src/ApiInterface.js:167-257`, `435-475`). They are a prompt fill, modelled by `Search.FillPrompt`, followed by a request whose reply is only displayed.
- `JSON.parse` and the code-block regex in `parseWikiResponse` (`src/ApiInterface.js:66-87`). They are the parameter `json`, which classifies a reply as an object, a primitive or not JSON.
- Floating point. `normalizeScore` (`src/DataExtractor.js:70-72`), `Math.min`/`Math.max` over certainties, `getMaxCertainty` (`src/DataExtractor.js:82-98`) and the filter-type choice of the scale are folded into the `Loader` parameter (`normalize`, `scale`). `parseInt`/`parseFloat` of `part` and `adjustedScore` are the parameters `partOf`/`scoreOf`, and NaN is not represented. Numbers other than integers are printed by the parameter `showReal`.
- `Scores.SelectSpec`: `pointLimit` is modelled as `parseInt` of the input (`Option<int>`, with `None` for NaN) rather than as a JavaScript number.
- The chart scale settings (`highScore * 1.05`, the x-axis maximum at `src/DataExtractor.js:432`). The Chart.js element callbacks at `src/DataExtractor.js:466-491` repeat `Scores.PointStyle`. The hex-to-RGB helper (`src/DataExtractor.js:257-260`) and the tooltip DOM are also left out.
- `exportJSON` (`src/DataExtractor.js:177-186`). It serialises the state with `JSON.stringify`, and that is not part of this model.
- `availableFields` (`src/DataExtractor.js:45-50`). It is a constant list that only feeds the field selector.
- `Date.now` is the parameter `now`. Id freshness is stated as a precondition of `Queries.AddQuerySpec`'s last clause.
- JavaScript objects list integer-like keys (canonical array indices such as `1` or `2024`) first, in ascending numeric order, and then the other keys in insertion order. The model keeps plain insertion order for all keys. The `__proto__` key is not special in the model.
- Outline.RunKeys: the stated key order is insertion order. `\w+` also accepts digit-only keys, so for `b: x` followed by `1: y` JavaScript lists `["1", "b"]` where the model states `["b", "1"]`. Which keys are present, and their values, are unaffected.
- Outline.KeyValueFallbackKeys: the same difference in key order for digit-only keys. The headline and questions lookups built on the key order (`Outline.HeadlineKeysSpec`, `Outline.FindQuestionsKeySpec`) only consider keys that start with `headline` or `questions`. JavaScript keeps the relative order of such keys, so the results of those lookups are unaffected.
- Outline.Value: an outline value is a string or an array of strings. JSON replies can also hold `null`, numbers, booleans, nested objects and arrays of other values, and the model has no such values. For example `"answer": null`, `0` or `false` are all falsy and become "No answer provided." in the source. A numeric headline is used as a number, and `join(' ')` of an array of objects gives `[object Object]`. These cases are not represented.
- Outline.ParseWikiResponse: a JSON object reply is the `json` parameter's `Dict<Value>`, so it carries only string and string-array values, for the reason above.
- Queries.Cell: a field value of a returned item is a string or a number. Booleans, `null` and arrays are not represented, and a missing field is an absent key, standing for `undefined`.
- Strings are sequences of characters. The model does not distinguish UTF-16 code units from code points, and no case folding or normalisation is involved.
- The `catch` in `generateWikiSectionSummaries` (`src/ApiInterface.js:386-389`) cannot be reached. Both calls inside it catch every error themselves (`src/ApiInterface.js:342-345`, `429-432`), so no path leads to "Failed to generate summary.".
- `Outline.KeyLineEndingInTerminator`: a line that ends in a line terminator still matches `^(\w+):\s*(.*)$` when only white space follows the colon, because `\s*` consumes the terminator. The value is then empty. Only text before the terminator prevents a match. The model follows the regex.
- `Queries.ExtractKeys`: the exact key list is stated only for selections without duplicates and without fields named `certainty` or `adjustedScore`. In general it is the de-duplicated write order.
- `Queries.ExtractField`: stated only for fields other than `_additional`, `certainty` and `adjustedScore`. A field with one of those names would be overwritten by the `_additional` writes, depending on order.
- `Queries.ExtractAdditional`: stated only when `certainty` and `adjustedScore` are not themselves selected fields.
- `Scores.LabelRoundTrip`: stated only when the title text contains no `|` and has no surrounding white space. Other titles do not split back into the same three parts.
- `Search.SearchUrlParts`: stated for encoders that never produce `?` or `&`, as `encodeURIComponent` does not.
- The `Navbar` and `App` components render markup only.

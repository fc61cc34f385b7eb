# BayStars news pipeline — a Dafny model

The repository runs a news site about the Yokohama DeNA BayStars in three
stages. Each stage is a Node script:

- `scripts/fetch-articles.js` scrapes six sources and writes `raw-articles.json`:
  - five HTML pages: the club site, Yahoo! baseball, Sportsnavi, Nikkan Sports and Mainichi;
  - one RSS feed: Google News.

  Each source adapter keeps the anchors that pass its filter and turns each into a record.
  It then removes duplicate titles and keeps ten. The aggregator merges the six results,
  removes duplicate trimmed titles, sorts the records newest first and counts records per source.
- `scripts/generate-articles.js` turns each raw record into a Markdown file with front matter.
  - The body is a text from the Gemini language model, or a fixed demo text when that fails.
  - The file name is `date-position-sanitizedTitle.md`.
  - The stage prepends the new entries to `index.json` and keeps the newest hundred.
- `scripts/build-site.js` lists the Markdown files, newest name first.
  - It reads each file's front matter into an article with a 150-character excerpt.
  - It renders one card per article, or a placeholder when there is none, and writes `articles.json`.

The model has one Dafny module per script, plus shared modules:

| module | file | contents |
|---|---|---|
| `Wrappers` | `wrappers.dfy` | `Option` and `Result` |
| `Text` | `text.dfy` | the JavaScript string operations the scripts use: the `\s`/`trim()` whitespace set, `trim`, `startsWith`, `endsWith`, `indexOf`/`includes`, `substring(0, n)`, the default string order of `sort()`, and decimal rendering |
| `KeyedDedup` | `keyed_dedup.dfy` | the idiom `Array.from(new Map(xs.map(a => [key(a), a])).values())` |
| `Lists` | `lists.dfy` | the array methods `filter` and `map` |
| `Sorting` | `sorting.dfy` | `Array.prototype.sort`, as a stable in-place insertion sort on an `array`, proved equal to a functional insertion sort |
| `FetchArticles` | `fetch_articles.dfy` | the six adapters, as one adapter parameterised by origin, link test, text test and source label, and the aggregator |
| `GenerateArticles` | `generate_articles.dfy` | `sanitizeFilename`, the model probing loop, the demo fallback, `createMarkdownFile`, `updateArticleIndex` and the generation loop |
| `BuildSite` | `build_site.dfy` | the name listing (`filter`/`sort`/`reverse` in place), parsing with skipped failures, excerpts, card links and the placeholder |

Loops and in-place updates in the scripts become methods with loop invariants. The
affected code is the `.each` push loops, the `forEach` loops, the model probing loop, the
generation loop, `sort`, `reverse` and the `parseArticles` loop. Each method's `ensures`
ties its result to a specification function. The properties are then proved about those
functions as lemmas.

## Model

| member | source | states |
|---|---|---|
| Text.TrimStart | scripts/fetch-articles.js:51 | the result is a suffix of the input, only whitespace was removed, and it does not start with whitespace |
| Text.TrimEnd | scripts/fetch-articles.js:51 | the result is a prefix of the input, only whitespace was removed, and it does not end with whitespace |
| Text.TrimShape | scripts/fetch-articles.js:51 | `trim()` returns a slice of its input flanked only by whitespace, and the slice neither starts nor ends with whitespace |
| Text.IndexOf | scripts/fetch-articles.js:53 | `indexOf` is -1 exactly when the pattern occurs nowhere; otherwise the pattern occurs at the result and at no earlier index |
| Text.LessIrreflexive | scripts/build-site.js:28 | no name sorts before itself in the default string order |
| Text.LessAsymmetric | scripts/build-site.js:28 | the default string order is asymmetric |
| Text.LessTransitive | scripts/build-site.js:28 | the default string order is transitive |
| Text.LessTotal | scripts/build-site.js:28 | any two distinct names are ordered one way or the other |
| Text.Decimal | scripts/generate-articles.js:143 | the rendering of a position in a file name is a non-empty string of digits |
| Text.DecimalValue | scripts/generate-articles.js:143 | reading the rendered digits back gives the position, so the rendering loses nothing |
| KeyedDedup.FirstIndexOf | scripts/fetch-articles.js:66 | the first index whose key is `k`: -1 exactly when no element has that key |
| KeyedDedup.LastIndexOf | scripts/fetch-articles.js:66 | the last index whose key is `k`: -1 exactly when no element has that key |
| KeyedDedup.ValuesPair | scripts/fetch-articles.js:66 | of two elements with the same key, the Map holds the later one, alone |
| KeyedDedup.ValuesShorter | scripts/fetch-articles.js:66 | deduplication never lengthens the list |
| KeyedDedup.ValuesDistinct | scripts/fetch-articles.js:66 | the keys of the deduplicated list are pairwise distinct |
| KeyedDedup.ValuesKeys | scripts/fetch-articles.js:66 | the deduplicated list holds exactly the set of keys of the input |
| KeyedDedup.ValuesKeepLast | scripts/fetch-articles.js:66 | each kept element is the LAST input element with its key |
| KeyedDedup.ValuesFirstOrder | scripts/fetch-articles.js:66 | the kept elements are in the order of the FIRST occurrence of their keys |
| KeyedDedup.ValuesOfDistinct | scripts/fetch-articles.js:291-293 | a list whose keys are already distinct passes through unchanged |
| KeyedDedup.ValuesIdempotent | scripts/fetch-articles.js:291-293 | deduplicating twice equals deduplicating once |
| Lists.MapShape | scripts/build-site.js:58 | `map` yields one result per element, the `i`-th from the `i`-th element |
| Lists.MapAppend | scripts/build-site.js:58 | `map` distributes over concatenation, so results keep the input order |
| Sorting.SortInPlace | scripts/fetch-articles.js:296-300 | the in-place sort leaves the array holding the insertion sort of its old contents |
| Sorting.InsertLast | scripts/fetch-articles.js:296-300 | one insertion step: the sorted prefix grows by the next element and the rest of the array is unchanged |
| Sorting.InsertPermutes | scripts/fetch-articles.js:296-300 | inserting adds exactly the inserted element to the multiset |
| Sorting.SortPermutes | scripts/fetch-articles.js:296-300 | sorting is a permutation: the multiset of elements is unchanged |
| Sorting.InsertSorted | scripts/fetch-articles.js:296-300 | inserting into a sorted list under a strict weak order keeps it sorted |
| Sorting.SortSorted | scripts/fetch-articles.js:296-300 | under a strict weak order the sorted result has no element that must precede an earlier one |
| Sorting.InsertStable | scripts/fetch-articles.js:296-300 | an insertion keeps elements that never precede each other in their input order |
| Sorting.SortStable | scripts/fetch-articles.js:296-300 | the sort is stable: each group of mutually unordered elements comes out in input order |
| Sorting.InsertKeepsDistinct | scripts/fetch-articles.js:291-300 | inserting an element with a new key keeps keys distinct |
| Sorting.SortKeepsDistinct | scripts/fetch-articles.js:291-300 | sorting a list with distinct keys keeps the keys distinct |
| Lists.FilterMembers | scripts/build-site.js:27 | `filter` returns only elements of the input that satisfy the predicate |
| Lists.FilterComplete | scripts/build-site.js:27 | `filter` keeps every element of the input that satisfies the predicate |
| Sorting.FilterSorted | scripts/build-site.js:31-49 | dropping elements from a sorted list keeps it sorted |
| FetchArticles.ToRecord | scripts/fetch-articles.js:56-61 | the title is a non-empty prefix of the trimmed text of at most 150 characters, and the whole text when it is shorter; the record carries the adapter's label and the page's clock reading |
| FetchArticles.Extract | scripts/fetch-articles.js:46-68 | the adapter body returns at most ten records with pairwise distinct titles, each from this source with a title of 1 to 150 characters, and it equals the dedup-then-cap of the candidates |
| FetchArticles.CandidatesExact | scripts/fetch-articles.js:49-63 | the pushed records are exactly the records of the accepted anchors (sound and complete) |
| FetchArticles.CandidatesSound | scripts/fetch-articles.js:49-63 | every pushed record comes from an accepted anchor of the page |
| FetchArticles.CandidatesComplete | scripts/fetch-articles.js:49-63 | every accepted anchor of the page yields a pushed record |
| FetchArticles.ValuesAreCandidates | scripts/fetch-articles.js:66 | every record surviving the dedup is a candidate, with this source's label and a title of 1 to 150 characters |
| FetchArticles.HarvestFiltered | scripts/fetch-articles.js:49-68 | every record an adapter returns was built from an anchor its filter accepts |
| FetchArticles.FeedTest | scripts/fetch-articles.js:165-169 | the feed accepts an item exactly when its trimmed link is non-empty and its trimmed title has 6 to 199 characters |
| FetchArticles.BaystarsTest | scripts/fetch-articles.js:53 | the club site accepts an anchor exactly when the link is non-empty, the trimmed text has 6 to 199 characters and the link contains "/news/" |
| FetchArticles.YahooTest | scripts/fetch-articles.js:88-92 | Yahoo accepts an anchor exactly when it is plausible, its link contains "npb" and its text lacks "チケット" |
| FetchArticles.SportsnaviTest | scripts/fetch-articles.js:130 | Sportsnavi accepts an anchor exactly when it is plausible and its text lacks "チケット" |
| FetchArticles.NikkanTest | scripts/fetch-articles.js:205 | Nikkan Sports accepts an anchor exactly when it is plausible and its link contains "baseball" |
| FetchArticles.MainichiTest | scripts/fetch-articles.js:244 | Mainichi accepts an anchor exactly when it is plausible and its text contains "ベイスターズ" |
| FetchArticles.ResolveAbsolute | scripts/fetch-articles.js:54 | a link starting with "http" is kept unchanged, any other is appended to the origin, and every resolved link starts with "http" |
| FetchArticles.HarvestDedupThenCap | scripts/fetch-articles.js:66-68 | an adapter returns the first ten of the deduplicated candidates (all of them when fewer than ten), each the last candidate with its title: dedup happens before the cap |
| FetchArticles.EntryOf | scripts/fetch-articles.js:312 | the entry of a source label in the counts, or -1 exactly when the label has none |
| FetchArticles.Gather | scripts/fetch-articles.js:284-288 | the `forEach` concatenates exactly the fulfilled results, in declaration order |
| FetchArticles.CountSources | scripts/fetch-articles.js:310-313 | the counting loop produces the per-source counts of the records |
| FetchArticles.Aggregate | scripts/fetch-articles.js:283-313 | the merge step returns the newest-first sort of the deduplicated fulfilled records and their per-source counts |
| FetchArticles.FetchAllArticles | scripts/fetch-articles.js:268-322 | the whole fetch returns the merge of the six adapters' results on their pages and the counts of that snapshot |
| FetchArticles.NewerIsStrictWeakOrder | scripts/fetch-articles.js:296-300 | the newest-first comparator is a strict weak order, so the sort is meaningful |
| FetchArticles.MergedOrder | scripts/fetch-articles.js:291-300 | the snapshot is non-increasing in `fetchedAt`, is a permutation of the deduplicated records, and records with equal timestamps keep their dedup order |
| FetchArticles.MergedTitles | scripts/fetch-articles.js:291-293 | the snapshot's trimmed titles are pairwise distinct and are exactly the trimmed titles of all fulfilled records |
| FetchArticles.MergeIdempotent | scripts/fetch-articles.js:291-293 | deduplicating the snapshot again changes nothing |
| FetchArticles.FulfilledAppend | scripts/fetch-articles.js:284-288 | the gathered records of two runs of results are the concatenation of each run's records |
| FetchArticles.OneSourceLeft | scripts/fetch-articles.js:274-300 | when every other source failed or found nothing, the snapshot is the one source's records, deduplicated and sorted |
| FetchArticles.NothingFulfilled | scripts/fetch-articles.js:284-288 | rejected or empty results contribute nothing; with none fulfilled the snapshot is empty |
| FetchArticles.CountsTotal | scripts/fetch-articles.js:310-313 | the per-source counts add up to the number of records |
| FetchArticles.CountsDistinct | scripts/fetch-articles.js:310-313 | no source label has two entries |
| FetchArticles.CountsCover | scripts/fetch-articles.js:310-313 | every record's source label has an entry |
| FetchArticles.CountsExact | scripts/fetch-articles.js:310-313 | each entry is the number of records from its source, and at least one |
| FetchArticles.LaterSourceWins | scripts/fetch-articles.js:291-293 | when two sources report the same title, the later source's record is the one kept |
| FetchArticles.NewestFirstExample | scripts/fetch-articles.js:296-300 | timestamps arriving as t3, t1, t2 with t3 > t2 > t1 come out as t3, t2, t1 |
| GenerateArticles.LowerAllNoUpper | scripts/generate-articles.js:130 | after `toLowerCase` no ASCII capital remains |
| GenerateArticles.LowerAllSafe | scripts/generate-articles.js:130 | `toLowerCase` leaves text made of `[a-z0-9_-]` and whitespace unchanged |
| GenerateArticles.LowerCharKeeps | scripts/generate-articles.js:130 | lower-casing leaves a character of `[a-z0-9_-]` or whitespace as it is |
| GenerateArticles.FilterKept | scripts/generate-articles.js:131 | after dropping `[^\w\s-]` from lower-cased text only `[a-z0-9_-]` and whitespace remain |
| GenerateArticles.FilterSafe | scripts/generate-articles.js:131 | dropping `[^\w\s-]` leaves text of `[a-z0-9_-]` and whitespace unchanged |
| GenerateArticles.CollapseSafe | scripts/generate-articles.js:132 | replacing whitespace runs by dashes leaves only `[a-z0-9_-]`: no whitespace remains |
| GenerateArticles.CollapseNoSpace | scripts/generate-articles.js:132 | text without whitespace is left unchanged by the run replacement |
| GenerateArticles.CollapseAppend | scripts/generate-articles.js:132 | a part that does not start with whitespace is replaced independently of what precedes it |
| GenerateArticles.CollapseSpaces | scripts/generate-articles.js:132 | a trailing whitespace run after a non-whitespace character becomes exactly one dash |
| GenerateArticles.CollapseRun | scripts/generate-articles.js:132 | each maximal whitespace run between two parts becomes exactly one dash |
| GenerateArticles.CollapseSpaceDash | scripts/generate-articles.js:132 | a space before an existing dash becomes a second dash |
| GenerateArticles.CollapseDashes | scripts/generate-articles.js:132 | "u - v" becomes "u---v": the existing dash is kept and each space becomes a dash |
| GenerateArticles.SpacedSafe | scripts/generate-articles.js:129-131 | "u - v" built from safe parts consists of safe characters and whitespace only |
| GenerateArticles.SanitizeShape | scripts/generate-articles.js:128-134 | a sanitized title has at most 50 characters, all in `[a-z0-9_-]` |
| GenerateArticles.SanitizeSafe | scripts/generate-articles.js:128-134 | a title of at most 50 characters of `[a-z0-9_-]` is its own sanitized form |
| GenerateArticles.SanitizeDashes | scripts/generate-articles.js:128-134 | a title "u - v" of safe parts is named "u---v" |
| GenerateArticles.SanitizeIdempotent | scripts/generate-articles.js:128-134 | sanitizing a sanitized title changes nothing |
| GenerateArticles.PositionFromName | scripts/generate-articles.js:143 | two names with the same prefix and positions followed by a dash agree only when the positions agree |
| GenerateArticles.FileNamesDistinct | scripts/generate-articles.js:143 | records at different positions never share a file name, whatever their titles, so no file of a run overwrites another |
| GenerateArticles.Chosen | scripts/generate-articles.js:51-69 | the probed model is absent only for an empty list; otherwise it is the first name whose probe succeeds, or the last name when all fail |
| GenerateArticles.SelectModel | scripts/generate-articles.js:52-65 | the probing loop leaves the handle of the chosen model |
| GenerateArticles.ChosenAt | scripts/generate-articles.js:55-65 | the loop stops at a name when all earlier probes failed and this one succeeds or is the last |
| GenerateArticles.GenerateWithGemini | scripts/generate-articles.js:48-97 | the generator asks the chosen model, and the `!model` error branch is unreachable |
| GenerateArticles.DemoShape | scripts/generate-articles.js:102-123 | the demo text opens with a heading of the title, is longer than that heading, and links to the record's URL |
| GenerateArticles.Content | scripts/generate-articles.js:219-229 | the content chosen for a record is never empty |
| GenerateArticles.CreateMarkdownFile | scripts/generate-articles.js:139-168 | nothing is written exactly when the content is empty |
| GenerateArticles.MarkdownShape | scripts/generate-articles.js:139-168 | for non-empty content, the file is named from date, position and sanitized title; the metadata carry the title, date, name and path; and the file text is front matter opening with the title, followed by the content |
| GenerateArticles.UpdateArticleIndex | scripts/generate-articles.js:173-187 | an unparsable index file is an error; otherwise the new index is a prefix of batch plus existing entries, of length min(100, total) |
| GenerateArticles.IndexKeepsBatch | scripts/generate-articles.js:176-183 | the index has at most 100 entries and starts with the batch; an empty batch keeps the first 100 existing entries; a non-array value counts as none |
| GenerateArticles.ReplayIsNewest | scripts/generate-articles.js:183 | over any series of runs, the index is the newest hundred entries of all batches, newest batch first |
| GenerateArticles.MapIndexedShape | scripts/generate-articles.js:212-240 | the loop produces one result per record, the `k`-th from the `k`-th record and its position |
| GenerateArticles.GenerateAllArticles | scripts/generate-articles.js:192-246 | a missing raw file and an empty raw list end the run without generating anything; otherwise the files written are the plan of the records, the metadata are theirs in order, and the index is updated with them |
| GenerateArticles.PlanShape | scripts/generate-articles.js:212-240 | one created file per record, in record order |
| GenerateArticles.MetasShape | scripts/generate-articles.js:231-236 | the metadata list pairs up with the created files |
| GenerateArticles.OneEntryPerItem | scripts/generate-articles.js:212-236 | a run returns exactly one metadata entry per record, in order, the `k`-th named after position `k + 1` and carrying the record's title |
| GenerateArticles.GenerateOne | scripts/generate-articles.js:217-236 | the loop body always writes a file: the generated text when the model produced one, else the demo text |
| GenerateArticles.EveryRecordWritten | scripts/generate-articles.js:217-236 | each record's file is named after its title and position, and holds the generated text when non-empty, the demo text otherwise |
| BuildSite.Backwards | scripts/build-site.js:29 | reversing keeps the length |
| BuildSite.BackwardsAt | scripts/build-site.js:29 | the `i`-th element of the reversed list is the `i`-th from the end |
| BuildSite.ReverseInPlace | scripts/build-site.js:29 | reversing in place leaves the array holding its old contents backwards |
| BuildSite.BackwardsPermutes | scripts/build-site.js:29 | reversing is a permutation |
| BuildSite.SortedNames | scripts/build-site.js:26-29 | filter, in-place sort and reverse yield the listed names |
| BuildSite.LessIsStrictWeakOrder | scripts/build-site.js:28 | the default string order is a strict weak order |
| BuildSite.BackwardsSorted | scripts/build-site.js:28-29 | a list sorted ascending, reversed, is sorted descending |
| BuildSite.ListedShape | scripts/build-site.js:26-29 | only listed `.md` names are visited, every `.md` name of the listing is visited, and the names come in non-increasing string order |
| BuildSite.TenBeforeTwo | scripts/build-site.js:28 | on one day, the name with position 10 sorts before the name with position 2 |
| BuildSite.SecondBeforeTenth | scripts/build-site.js:28-29 | after `sort().reverse()`, the day's second file is listed before its tenth: positions compare as strings |
| BuildSite.ExcerptShape | scripts/build-site.js:44 | the excerpt ends with "...", has at most 153 characters, is a prefix of the body before the ellipsis, keeps a short body whole and cuts a longer one to its first 150 characters |
| BuildSite.ParseArticles | scripts/build-site.js:18-52 | a missing directory gives no articles; otherwise one article per listed readable file, in listing order |
| BuildSite.CollectNames | scripts/build-site.js:31-49 | failed files are skipped and the others keep their order: the articles' names are exactly the readable listed names, and there are no more articles than files |
| BuildSite.FileNamesAt | scripts/build-site.js:43 | the `i`-th name of the list is the `i`-th article's file name |
| BuildSite.ParsedShape | scripts/build-site.js:26-49 | there are at most as many articles as `.md` names, each from a listed `.md` file, in non-increasing name order |
| BuildSite.LinkReplacesFirst | scripts/build-site.js:61 | only the first ".md" is replaced: a name with ".md" before its end keeps its later ".md" |
| BuildSite.LinkOfStem | scripts/build-site.js:61 | a name with no dot besides its ".md" extension links to the same name with ".html" |
| BuildSite.StemHasNoDot | scripts/generate-articles.js:143 | a generated name has no dot before its extension, provided the date has none |
| BuildSite.GeneratedLink | scripts/build-site.js:61 | the card of a generated file links to the same name with ".html" for ".md" |
| BuildSite.CardLinks | scripts/build-site.js:58-70 | both anchors of a card point at the article's link, and the card starts with a line break |
| BuildSite.JoinStart | scripts/build-site.js:71 | the joined cards start with the first card |
| BuildSite.JoinAppend | scripts/build-site.js:71 | joining two non-empty lists gives their joins separated by the separator |
| BuildSite.PlaceholderIffEmpty | scripts/build-site.js:320 | the placeholder appears exactly when there is no article |
| BuildSite.ContainerAppend | scripts/build-site.js:58-71 | the cards keep the order of the articles: the container of two lists is their containers joined by a line break |
| BuildSite.BuildSite | scripts/build-site.js:337-356 | the site's container is rendered from the parsed articles, which are also the records written to `articles.json` |

## Left out

- Network access (`fetchWithUA`, its User-Agent header and time-out) is not modelled. A failed fetch is a `None` page.
- The HTML and RSS parsing of cheerio is not modelled. A page is given as its anchors in document order, each an `href` and its raw text.
  - Yahoo's `a[href*="npb"]` selector is a test on the link target.
  - The feed's items are anchors whose `href` is the text of `<link>`.
- The concurrency of `Promise.allSettled` is not modelled. The settled results are a sequence in declaration order.
  - Every adapter catches its own errors, so `FetchAllArticles` fulfils them all.
  - `Aggregate`, `Gather` and the lemmas about `Merged` also allow rejected results.
- `Array.isArray(result.value)` holds for every adapter result, so it is not a case of the model.
- The clock is not modelled.
  - `fetchedAt` is an ISO time string compared through `new Date`; the model takes it as an integer reading.
  - One reading per adapter run: the model does not capture the clock advancing between the anchors of one page.
  - The ISO date of a run, and the local dates in the demo text and page footer, are parameters.
- The file system, `JSON.parse`/`JSON.stringify`, `mkdirSync` and `process.exit` are not modelled.
  - Files are given as parameters, and files written as values.
  - The exit codes are the constructors of `Run`.
  - Invalid JSON in `raw-articles.json` is not modelled.
- The front-matter parser is not modelled. A file reader returns the parsed attributes and body, or `None` when reading or parsing throws. Attributes missing from the front matter (`undefined` in JavaScript) are not distinguished.
- The Gemini SDK is not modelled, nor `getGenerativeModel`, `getAvailableModels` (never called), the prompt text, the 500 ms wait, or `lastError`.
  - Each record's handling sees a `Service`, found by position: which models answer the test request, and the text (or failure) of the article request.
- Console output is not modelled, including the 60-character title log line.
- The CSS, the static HTML around the article container, and the `toLocaleString` footer are not modelled.
- `path.join` normalisation is not modelled. Paths are joined with "/".
- Unicode fidelity is only approximated.
  - Strings are sequences of Unicode scalar values. JavaScript's `length`, `substring` and default sort order count UTF-16 code units, so they differ from the model for characters outside the Basic Multilingual Plane.
  - `toLowerCase` is modelled only for the characters whose lower case contains an ASCII letter. Every other character either is its own lower case or lower-cases to characters that the following `[^\w\s-]` step removes, so the sanitized name is exact.

In these places the model follows the code as written, where a reader might expect otherwise:

- The deduplication through a JavaScript `Map` keeps the position of the first record with a key but the value of the last one. It is not "first record wins" (see `KeyedDedup.ValuesKeepLast` and `FetchArticles.LaterSourceWins`).
- A `JSON.parse` failure on `index.json` is not caught. It ends the run, modelled as an `Err` index.
- The model handle is assigned before its probe request, so it is never null once the list has been tried. When every probe fails, the last model is used for the article request.
- `apiAvailable` is never set to false, so the service is asked for every record.

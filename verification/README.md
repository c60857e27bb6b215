# BetMind dashboard core, modelled in Dafny

A model of the pure logic in a React betting dashboard. The dashboard lists
today's football and basketball fixtures, hides the ones that finished, sorts
and filters them by tab, and keeps a betting ticket. An AI judge writes an
analysis per fixture, and a Monte Carlo simulator draws a score histogram.
The network calls, the language model, the browser storage and the clock all
become inputs. The model is pure functions over immutable data, plus small
state records for the Supabase "offline" flag, the analysis memory and the
ticket.

The modules follow the program's structure:

- `Common`: the optional value, JavaScript numbers (`NaN` or a finite
  real), `x || d`, `Math.round`, truncation, and `Array.prototype.filter`
  (`Keep`).
- `JsText`: the string built-ins the code relies on. These are `trim`,
  `split`, `indexOf`/`lastIndexOf`, `replace`, `substring`, `localeCompare`,
  ASCII `toLowerCase`/`toUpperCase`, `includes`, and `Number()` on decimal
  text.
- `Types`: the records of types.ts.
- `Calendar`: ECMAScript day arithmetic (MakeDay and the proleptic Gregorian
  calendar of section 21.4.1 of ECMA-262). It supplies `Date`'s
  `setMonth`/`setDate` normalisation.
- `Simulation`: `runMonteCarlo`, with the normal draws given as a sequence of
  reals.
- `Supabase`: `getEnv` precedence, when a client exists, and the one-way
  offline circuit with its error classification.
- `MatchTime`: `isLive` and the `sortMatchesByTime` comparator, with the sort
  modelled as an insertion sort by that comparator.
- `Extraction`: `cleanAndParseJSON`. `JSON.parse` is a parameter.
- `Scrape`: the mapping of scraped rows to fixtures, and `filterMatches`.
- `Analysis`: edge recomputation, analysis assembly, and the cache order of
  `analyzeMatchDeeply`.
- `Fetch`: the decision flow of `fetchDailyMatches`.
- `Dashboard`: `isMatchExpiredLocal`, the tab filters, and the ticket list.
- `Avatar`: the initials of `PlayerAvatar`.

`Dashboard.FilteredMatches` takes the expiry gate as a parameter. The
program lists with the gate as written, `Dashboard.IsMatchExpiredAsWritten`.
The corrected gate, `Dashboard.IsMatchExpired`, is modelled beside it. The
two gates, and so the two listings, are proved equal on agreeable inputs:
`dd/mm` dates for which `setMonth` does not overflow (now's day of the month
exists in the fixture's month) and, for a January fixture seen in December or
a December fixture seen in January, a day from 1 to 31 and a time within the
day. Outside those inputs they may differ (see "Findings").

## Model

| member | source | states |
|---|---|---|
| Simulation.TempoMultiplier | services/simulationService.ts:41 | A missing or zero tempo gives multiplier 1; any other tempo t gives t/50. |
| Simulation.TempoOnlyInBasketball | services/simulationService.ts:41-54 | Outside basketball, changing the tempo never changes a trial's final scores. |
| Simulation.NeutralTempo | services/simulationService.ts:41 | A missing tempo, a zero tempo and a tempo of 50 give the same trial. |
| Simulation.SameMultiplierSameTrial | services/simulationService.ts:41-48 | A trial depends on the tempo only through its multiplier. |
| Simulation.BasketballHasNoDraw | services/simulationService.ts:46-58 | In basketball, when both tempo-scaled scores are non-negative, the home nudge on a rounded tie means no trial ends level. |
| Simulation.Outcomes | services/simulationService.ts:32-58 | The run produces exactly one final score pair per iteration. |
| Simulation.VerdictsPartition | services/simulationService.ts:66-68 | Home wins, away wins and draws together count every trial exactly once. |
| Simulation.DrawsAreZeroDiffs | services/simulationService.ts:63-68 | The frequency of differential 0 equals the number of draws. |
| Simulation.HomeWinsArePositiveDiffs | services/simulationService.ts:63-66 | The trials with a positive differential are exactly the home wins. |
| Simulation.AwayWinsAreNegativeDiffs | services/simulationService.ts:63-67 | The trials with a negative differential are exactly the away wins. |
| Simulation.DiffsSize | services/simulationService.ts:63-64 | The frequency map records one differential per trial. |
| Simulation.PrefixStep | services/simulationService.ts:60-68 | Counting one more trial adds exactly its verdict to one counter, its differential to the map, and its scores to the totals. |
| Simulation.TallyTrials | services/simulationService.ts:14-69 | The loop's counters equal the verdict counts and sum to the number of trials; the map holds every differential once per trial. Its 0-entry is the draw count, and min/max bracket every differential. |
| Simulation.BucketCount | services/simulationService.ts:81-85 | The inner loop sums the frequencies of the `step` differentials starting at the bucket start. |
| Simulation.Distribute | services/simulationService.ts:73-89 | The outer loop builds exactly the histogram of bucket starts `min, min+step, ...` up to max, keeping only non-empty buckets. |
| Simulation.HistogramExact | services/simulationService.ts:80-88 | Every bucket has a positive count, equal to the number of differentials in its range. |
| Simulation.HistogramOnGrid | services/simulationService.ts:78-80 | Every bucket starts on the grid `min + k*step`, within `[min, max]`. |
| Simulation.HistogramBuckets | services/simulationService.ts:78-88 | Buckets have exact positive counts and start on the grid. |
| Simulation.HistogramSorted | services/simulationService.ts:80-99 | Bucket starts rise by at least one step, so the list is strictly ascending and the final sort leaves it as it is. |
| Simulation.HistogramCovers | services/simulationService.ts:80-88 | Every observed differential between min and max falls in some bucket. |
| Simulation.HistogramSum | services/simulationService.ts:80-88 | The bucket counts add up to the number of differentials from the first start to max. |
| Simulation.HistogramProperties | services/simulationService.ts:73-89 | For a map bracketed by min and max, the counts sum to the number of trials. The buckets are exact, on the grid, ascending, and cover every differential. |
| Simulation.PercentBounds | services/simulationService.ts:92-94 | Each percentage lies in [0, 100]. |
| Simulation.PercentagesSumTo100 | services/simulationService.ts:92-94 | The win, loss and draw percentages add up to exactly 100 over the reals. |
| Simulation.RunMonteCarlo | services/simulationService.ts:13-102 | Percentages and rounded means come from the trial counts and totals. With trials, each percentage lies in [0, 100] and the three sum to 100; with none they are NaN and the histogram is empty. The histogram counts sum to the number of trials, and its buckets are exact, ascending and covering. |
| Common.Round | services/simulationService.ts:57-58 | `Math.round` gives the integer within half a unit, with halves going up. |
| Common.ClampRound | services/simulationService.ts:57-58 | A clamped, rounded score is a natural number: 0 for a negative score, otherwise the rounded score. |
| Supabase.GetEnv | lib/supabase.ts:4-20 | `getEnv(key)`: the non-empty value of the first source among window, build and process, else `''`. Supabase.FirstValueSpec and Supabase.GetEnvPrecedence state it. |
| Supabase.Lookup | lib/supabase.ts:6-18 | A source yields a value exactly when it exists and holds a non-empty value for the key. |
| Supabase.FirstValueSpec | lib/supabase.ts:4-20 | The first-value rule yields `''` exactly when no source has a value; otherwise it yields the value of the first source that has one. |
| Supabase.GetEnvPrecedence | lib/supabase.ts:4-20 | `getEnv` is the first-value rule over window, then build, then process. |
| Supabase.ClientExistsIff | lib/supabase.ts:22-39 | A client exists exactly when some source gives a URL and some source gives an anonymous key. |
| Supabase.IsConfigured | lib/supabase.ts:50-52 | `isSupabaseConfigured()`: a client exists and the circuit is closed. Supabase.MarkOfflineIdempotent and Supabase.OfflineIsFinal show it stays false once the circuit opens. |
| Supabase.MarkOffline | lib/supabase.ts:43-48 | After the call the flag is set. An already offline state is unchanged. The first call logs exactly one warning. |
| Supabase.MarkOfflineIdempotent | lib/supabase.ts:43-52 | A second call changes nothing, and afterwards `isSupabaseConfigured` is false even with a client. |
| Supabase.AfterCall | services/geminiService.ts:121-128 | A call trips the circuit exactly when it threw or its error message names a network failure; an open circuit stays as it is. |
| Supabase.SqlErrorKeepsOnline | services/geminiService.ts:121-128 | An error message without "Failed to fetch" or "Network" leaves the circuit unchanged. |
| Supabase.EmptyMessageKeepsOnline | services/geminiService.ts:123 | An error without a message leaves the circuit unchanged. |
| Supabase.RunFromInitial | lib/supabase.ts:41-48 | From the initial state, after any series of calls, the flag is set exactly when some call tripped it. The warning is logged once if the flag is set, and never otherwise. |
| Supabase.OfflineIsFinal | lib/supabase.ts:41-52 | Once offline, no later call changes the state, and the store is never configured again. |
| MatchTime.IsLive | services/geminiService.ts:17-30 | `isLive`: missing or empty fields are never live, and a fixture is live only when dated today and now lies in the 150-minute window after kick-off. MatchTime.LiveByKickoff, LiveWindowOfDigits, NotTodayNotLive and HourOnlyNeverLive state it. |
| MatchTime.LiveByKickoff | services/geminiService.ts:17-30 | A fixture dated today is live exactly when its kick-off minute is a number and now lies in [kick-off, kick-off + 150). |
| MatchTime.LiveWindowOfDigits | services/geminiService.ts:17-30 | For a `HH:MM` time in digits dated today, live means `HH*60+MM <= now < HH*60+MM+150`. There is no wrap past midnight. |
| MatchTime.KickoffOfParts | services/geminiService.ts:20-21 | `HH:MM` reads as HH times 60 plus MM. |
| MatchTime.NotTodayNotLive | services/geminiService.ts:18-29 | A fixture without a date, or dated another day, is never live. |
| MatchTime.HourOnlyNeverLive | services/geminiService.ts:20-21 | A time without a minute part reads as NaN minutes and is never live. |
| MatchTime.AdjustedHour | services/geminiService.ts:40-43 | The adjusted hour is a number exactly when the text before the first colon reads as one. |
| MatchTime.NightAfterEvening | services/geminiService.ts:39-48 | Of two fixtures with the same live status, one whose hour is 0 to 9 is listed after one whose hour is 10 to 23: the comparator puts the later-night fixture second, in both argument orders. |
| MatchTime.NightDigitsAfterEvening | services/geminiService.ts:39-48 | For `hh:mm` times in digits, an hour below 10 sorts after an hour from 10 to 23, so `01:00` follows `20:00`. |
| MatchTime.Comparator | services/geminiService.ts:34-52 | The comparator of `sortMatchesByTime`: live fixtures first, then adjusted hour, then time text, and NaN when an hour is not numeric. MatchTime.CompareKeysOrder and OrderIsKeyOrder state it as a key order. |
| MatchTime.CompareKeysOrder | services/geminiService.ts:34-52 | On numeric hours the comparator never answers NaN, and it answers at most 0 exactly when the key order puts the first fixture first. |
| MatchTime.OrderIsKeyOrder | services/geminiService.ts:34-52 | With numeric hours, the comparator keeps `a` before `b` exactly when (live first, adjusted hour, time text) orders `a` first. |
| MatchTime.KeyLeTotal | services/geminiService.ts:34-52 | Any two fixtures with numeric hours are ordered one way or the other. |
| MatchTime.KeyLeTransitive | services/geminiService.ts:34-52 | The key order is transitive. |
| MatchTime.ByTimeIsPreorder | services/geminiService.ts:34-52 | With numeric hours the comparator is a total preorder on the fixtures. |
| MatchTime.SortByTime | services/geminiService.ts:33-34 | Sorting returns a permutation of its input. |
| MatchTime.InsertBySorted | services/geminiService.ts:33-34 | Insertion under a total preorder keeps a sorted list sorted. |
| MatchTime.SortBySorted | services/geminiService.ts:33-34 | Sorting by a total preorder yields a sorted list. |
| MatchTime.SortByTimeSorted | services/geminiService.ts:33-53 | With numeric hours, the sorted fixtures are in key order: live first, then adjusted hour, then time text. |
| JsText.StrCompare | services/geminiService.ts:51 | The code-unit order that stands in for `localeCompare` answers -1, 0 or 1, and 0 exactly for equal texts. |
| JsText.DigitTextOrder | services/geminiService.ts:51 | On digit strings of the same length, the text order is the numeric order, which is also what a collation gives. |
| JsText.StrComparePrefix | services/geminiService.ts:51 | A shared prefix does not change the text order. |
| MatchTime.SameHourByMinute | services/geminiService.ts:48-51 | Two `hh:mm` fixtures with the same live status and hour, and minutes of the same width, are ordered by their minute values. |
| JsText.StrCompareAntisymmetric | services/geminiService.ts:51 | Swapping the texts negates the answer. |
| JsText.StrCompareTransitive | services/geminiService.ts:51 | The text order is transitive. |
| Extraction.CleanAndParse | services/geminiService.ts:56-81 | `cleanAndParseJSON`: the cleaned span goes to `JSON.parse`, and a parse failure gives the fallback. Extraction.ProseRoundTrip, FencedRoundTrip and NoBracketsWholeText state what reaches the parser. |
| Extraction.JsonStart | services/geminiService.ts:59-66 | The start is -1 exactly when there is no `{` or `[`; otherwise it is the first opening bracket. |
| Extraction.JsonEnd | services/geminiService.ts:69-71 | The end is -1 exactly when there is no `}` or `]`; otherwise it is the last closing bracket. |
| Extraction.JsonSpan | services/geminiService.ts:73-75 | Without both brackets the text is kept whole. Otherwise the span runs from the first opening to the last closing bracket; the arguments are swapped when the closing bracket comes first. |
| Extraction.SpanOfPayload | services/geminiService.ts:59-71 | Around a bracketed document in plain prose, the first opening and last closing brackets are the document's ends. |
| Extraction.JsonSpanOfPayload | services/geminiService.ts:73-75 | The kept span of prose around a document is the document. |
| Extraction.ProseRoundTrip | services/geminiService.ts:56-81 | A document surrounded by plain prose is extracted exactly and parsed as if alone. |
| Extraction.StripFenced | services/geminiService.ts:58 | Fence removal and trimming reduce a Markdown JSON block to its body. |
| Extraction.FencedRoundTrip | services/geminiService.ts:56-81 | A reply fenced as a Markdown JSON block yields exactly the document, and parses as it would alone. |
| Extraction.NoBracketsWholeText | services/geminiService.ts:73-76 | Without an opening bracket the whole cleaned text goes to the parser. |
| Extraction.StripClean | services/geminiService.ts:58 | Text without backticks or surrounding white space is left unchanged by cleaning. |
| Extraction.StripKeepsOut | services/geminiService.ts:58 | Cleaning never introduces a character. |
| JsText.Trim | services/geminiService.ts:58 | Trimming yields a slice with no white space at either end. |
| JsText.TrimIdempotent | services/geminiService.ts:58 | Trimming twice is trimming once. |
| JsText.RemoveAll | services/geminiService.ts:58 | Removal never lengthens the text and leaves a text without the pattern unchanged. |
| JsText.IndexOf | services/geminiService.ts:59-60 | The result is -1 exactly when the character is absent; otherwise it is the first position holding it. |
| JsText.LastIndexOf | services/geminiService.ts:69-70 | The result is -1 exactly when the character is absent; otherwise it is the last position holding it. |
| JsText.Split | components/Dashboard.tsx:16 | Splitting yields separator-free pieces that join back to the text. |
| JsText.SplitUnique | components/Dashboard.tsx:16 | Any separator-free decomposition that joins back to the text is the split. |
| JsText.ParseDigits | components/Dashboard.tsx:17-18 | `Number()` of a digit string is its decimal value. |
| JsText.ParseNumber | components/Dashboard.tsx:17-18 | `Number()` of empty or all-blank text is 0. |
| JsText.ToNumber | services/geminiService.ts:267 | `Number(undefined)` is NaN, `Number(null)` is 0, and a number converts to itself. |
| Scrape.MatchId | services/geminiService.ts:257 | The id has no white space and no upper-case letter, and is no longer than its three parts plus two dashes. |
| Scrape.IdOfCleanParts | services/geminiService.ts:257 | With single-word, lower-case parts the id is `home-away-date`. |
| Scrape.CollapseRun | services/geminiService.ts:257 | A run of white space of any length between two words becomes one dash. |
| JsText.CollapseSpaces | services/geminiService.ts:257 | Replacing white-space runs leaves no white space and keeps a text without any as it is. |
| JsText.ToLower | services/geminiService.ts:257 | Lower-casing keeps the length and maps every character. |
| Scrape.Normalize | services/geminiService.ts:256-269 | A fixture keeps the row's teams, league and time, and gets a clean id. A missing date falls back to today. Sport is basketball exactly when the league or sport says so. Live implies dated today. Odds default to 0, and it trends exactly when 0 < odds < 2.5. |
| Scrape.IsBasketballRow | services/geminiService.ts:263 | A row is basketball when its league names NBA or Basket, or its sport is `Basketball`. Scrape.Normalize states the resulting sport. |
| Scrape.TrendingIffListedOdds | services/geminiService.ts:267-268 | A row trends exactly when its listed odds lie in (0, 2.5); non-numeric or zero odds never trend. |
| Scrape.UndatedRowScheduled | services/geminiService.ts:257-264 | An undated row is dated today and scheduled, and its id embeds "undefined". |
| Scrape.ScrapedMatches | services/geminiService.ts:253-269 | The scraper yields one mapped fixture per element of a parsed array, and nothing otherwise. |
| Scrape.EmptyReplyNoMatches | services/geminiService.ts:253-254 | An empty or missing reply yields no fixture. |
| Scrape.FilterMatches | services/geminiService.ts:276-279 | The pass-through categories return the list unchanged. Any other category keeps exactly the fixtures whose sport is that category. |
| Scrape.FilterMatchesIdempotent | services/geminiService.ts:276-279 | Filtering twice is filtering once. |
| Scrape.FilterMatchesAppend | services/geminiService.ts:276-279 | Filtering distributes over concatenation, so kept fixtures stay in order. |
| Scrape.NbaCategoryEmpty | services/geminiService.ts:276-279 | The "NBA" category the scraper accepts matches no fixture's sport, so its listing is empty. |
| Scrape.ScrapeHasNoTennis | services/geminiService.ts:263-279 | The scraper only makes football and basketball fixtures, so the "Tennis" category is empty. |
| Common.Keep | components/Dashboard.tsx:100-101 | Filtering keeps only passing elements, keeps every passing element, and never lengthens the list. |
| Common.KeepIdempotent | services/geminiService.ts:278 | Filtering twice by the same test is filtering once. |
| Analysis.Round3 | services/geminiService.ts:534 | The result is a whole number of thousandths, the nearest one to the input, with halves rounded away from zero: within (x - 0.0005, x + 0.0005] for x >= 0 and [x - 0.0005, x + 0.0005) for x < 0. |
| Analysis.NegatedThousandths | services/geminiService.ts:534 | A negative input rounds as its magnitude does, with the sign put back, so its half goes down. |
| Analysis.WithEdge | services/geminiService.ts:530-535 | The tip's edge is overwritten with the recomputed edge and every other field is kept. |
| Analysis.EdgeSign | services/geminiService.ts:531-534 | A positive edge implies probability times odds exceeds 100, and a product of at least 100.05 gives a positive edge. The same holds for negative edges. |
| Analysis.RoundedReturnSign | services/geminiService.ts:533-534 | The sign of the rounded return of a probability and odds, in terms of their product. |
| Analysis.EdgeOfBlankTip | services/geminiService.ts:531-533 | A tip without numeric probability and odds is read as 50% at odds 1.0, giving an edge of -0.5. |
| Analysis.WithEdgeIdempotent | services/geminiService.ts:530-535 | Recomputing an edge twice gives the same tip. |
| Analysis.Assemble | services/geminiService.ts:538-554 | The analysis belongs to the match and cites no source. Missing lists default to empty. Every prediction is its tip with the edge recomputed. The remaining fields are copied. |
| Analysis.UnparsedReplyIsEmpty | services/geminiService.ts:526-554 | An unreadable reply still yields an empty analysis for the match. |
| Analysis.AssembleStable | services/geminiService.ts:529-545 | Assembling from already assembled predictions changes none of them. |
| Analysis.Consult | services/geminiService.ts:317-340 | A remote hit is returned and remembered. A network-looking error or a throw opens the circuit. Anything else falls through with nothing changed. |
| Analysis.Compute | services/geminiService.ts:517-591 | A judge reply is assembled, remembered and, when configured, saved, with the save's outcome applied to the circuit. A failed call changes nothing. |
| Analysis.AnalyzeMatch | services/geminiService.ts:310-591 | `analyzeMatchDeeply`: memory first, then the remote cache when configured, then the judge. Analysis.MemoryFirst, ResultRemembered, SecondCallCached, CircuitMonotone, ForcedIsComputed, UnconfiguredIgnoresRemote and ComputedBelongsToMatch state it. |
| Analysis.MemoryFirst | services/geminiService.ts:312-314 | A remembered analysis is returned at once and nothing changes. |
| Analysis.ResultRemembered | services/geminiService.ts:584-586 | Whatever is returned is remembered under the match's id; no other entry changes. |
| Analysis.SecondCallCached | services/geminiService.ts:312-314 | After a successful call, asking again without forcing returns the same analysis from memory. |
| Analysis.CircuitMonotone | services/geminiService.ts:325-581 | The circuit only opens, and only on a failed lookup or save. |
| Analysis.ForcedIsComputed | services/geminiService.ts:310-341 | A forced run skips both caches and assembles the judge's reply. |
| Analysis.UnconfiguredIgnoresRemote | services/geminiService.ts:317 | Without a configured store the remote answer plays no part. |
| Analysis.ComputedBelongsToMatch | services/geminiService.ts:538-554 | An analysis that was not a cache hit belongs to the match and cites no source. |
| Fetch.QueryCircuit | services/geminiService.ts:119-150 | The query opens the circuit exactly when it threw or failed with a network message. |
| Fetch.FetchDaily | services/geminiService.ts:87-203 | `fetchDailyMatches`: today's cache, then the store when configured, then a scrape; the choice is sorted, a fresh scrape is saved, and the category filter applies last. Fetch.FetchIsSortedChoice, LocalFirst, ForcedScrapes, FetchCircuitMonotone, UnconfiguredIgnoresStore, FetchPermutes and FetchSorted state it. |
| Fetch.Chosen | services/geminiService.ts:96-159 | A usable cache entry wins unless forced. A forced refresh, or no cache with no store, scrapes. Otherwise, with a configured store, non-empty rows are used, and an error, a throw or no rows falls through to the scrape. |
| Fetch.FetchIsSortedChoice | services/geminiService.ts:161-202 | The listing is the chosen list, sorted, then filtered by category. |
| Fetch.FetchCircuitMonotone | services/geminiService.ts:119-198 | The circuit only opens, and only because the query or the save reported an unreachable server. |
| Fetch.LocalFirst | services/geminiService.ts:96-109 | Today's cached list is served without touching the store or the circuit. |
| Fetch.ForcedScrapes | services/geminiService.ts:155-199 | A forced refresh always scrapes; only a non-empty scrape with a configured store applies the save. |
| Fetch.UnconfiguredIgnoresStore | services/geminiService.ts:109-167 | Without a configured store neither the query nor the save has any effect. |
| Fetch.FetchPermutes | services/geminiService.ts:161-202 | For the pass-through categories, the listing is a rearrangement of the chosen list. |
| Fetch.KeepSortedBy | services/geminiService.ts:278 | Filtering keeps a sorted list sorted. |
| Fetch.FetchSorted | services/geminiService.ts:161-202 | When every candidate hour is numeric, the listing is in key order. |
| Dashboard.ResolvedYear | components/Dashboard.tsx:30-32 | A January fixture seen in December belongs to next year, and a December fixture seen in January to last year. Any other fixture belongs to this year. |
| Dashboard.IsMatchExpiredAsWritten | components/Dashboard.tsx:12-37 | `isMatchExpiredLocal` as written: `setMonth`, `setDate`, `setHours` and the year-end `setFullYear` on a copy of now. Dashboard.MonthOverflowKeepsStaleFixture, IsoDateReadAsDay and AsWrittenAgrees state where it does and does not behave as intended. |
| Dashboard.IsMatchExpired | components/Dashboard.tsx:12-37 | The intended gate: hidden strictly more than 240 minutes after the kick-off on the fixture's own date. Dashboard.ExpiredOfDigits, ExpiryThreshold and UnreadableNeverExpires state it. |
| Dashboard.Kickoff | components/Dashboard.tsx:15-28 | The kick-off exists exactly when day and month (and, for a year-month-day date, whose first field is a four-digit year, the year too) read as non-zero numbers. It is that minute of the fixture's own civil date. |
| Dashboard.UnreadableNeverExpires | components/Dashboard.tsx:13-20 | A fixture without a date or a time, or with a day or month that reads as 0 or NaN, is never hidden. |
| Dashboard.ExpiryThreshold | components/Dashboard.tsx:35-36 | At exactly 240 minutes past kick-off a fixture is shown; one millisecond later it is hidden. |
| Dashboard.ReadDigitDate | components/Dashboard.tsx:16-18 | A `dd/mm` date reads the first field as the day and the second as the month. |
| Dashboard.ReadIsoDate | components/Dashboard.tsx:16-18 | A `yyyy-mm-dd` date with a four-digit year is split on `-` into its three numbers and read as year-month-day. |
| Dashboard.ReadDayFirstDashed | components/Dashboard.tsx:16-18 | A `dd-mm-yyyy` date is read day first, as the code reads it. |
| Dashboard.DigitTime | components/Dashboard.tsx:22-28 | An `hh:mm` time in digits is hh times 60 plus mm minutes after midnight. |
| Dashboard.HourMarkAsColon | components/Dashboard.tsx:22 | `20h30` reads as `20:30`. |
| Dashboard.HourOnlyOnTheHour | components/Dashboard.tsx:23-28 | A time without minutes means minute 0. |
| Dashboard.ExpiredOfDigits | components/Dashboard.tsx:12-37 | A `dd/mm`, `hh:mm` fixture is hidden exactly when now is more than 240 minutes past its civil kick-off, in the year the year-end rule picks. |
| Dashboard.ExpiredOfDayMonth | components/Dashboard.tsx:20-36 | A positive day and month expire exactly when now is past that day's kick-off plus the buffer. |
| Dashboard.SetMonth | components/Dashboard.tsx:25-26 | `setMonth` keeps now's day number relative to the month start, so it keeps now's day of month whenever that day exists in the target month. |
| Dashboard.SetMonthThenDateLands | components/Dashboard.tsx:25-27 | Without overflow, `setMonth` then `setDate` lands on the requested day. |
| Dashboard.SettersLand | components/Dashboard.tsx:25-28 | Without overflow, the three setters place the kick-off at the requested day and minute. |
| Dashboard.SettersAtYearEnd | components/Dashboard.tsx:25-32 | In the year-end case the setters and `setFullYear` place the kick-off at the requested day in the chosen year. |
| Dashboard.AgreeOnFields | components/Dashboard.tsx:15-36 | On agreeable inputs the written and the intended kick-offs are equal: a `dd/mm` date without month overflow and, in the year-end case, a day from 1 to 31 and a time within the day. |
| Dashboard.AsWrittenAgrees | components/Dashboard.tsx:12-37 | On agreeable inputs (no month overflow; in the year-end case a day from 1 to 31 and a time within the day) the gate as written hides exactly the fixtures the intended gate hides. |
| Dashboard.MonthOverflowKeepsStaleFixture | components/Dashboard.tsx:25-28 | On 29 March of a non-leap year at 01:00, a `28/02 23:00` fixture is kept by the written gate but hidden by the intended one. |
| Dashboard.IsoDateReadAsDay | components/Dashboard.tsx:15-18 | At noon on 10 April 2025, a `2025-03-28 20:00` fixture is kept by the written gate, which reads the year as the day, but hidden by the intended one. |
| Dashboard.FilteredMatches | components/Dashboard.tsx:99-114 | `filteredMatches` with either gate: expired fixtures are dropped, then the tab's predicate applies. Dashboard.FilteredMembership, AllTabShowsFresh, FilteredAppend and ListingsAgree state it. |
| Dashboard.ShowOnTab | components/Dashboard.tsx:101-113 | The tab predicates: trending, confidence over 70, odds of at least 2.5, value score over 1.1, the sport, or everything. Dashboard.MissingFieldDefaults states the `||` defaults. |
| Dashboard.FilteredMembership | components/Dashboard.tsx:99-114 | For either gate, the one as written or the intended one, a fixture is listed exactly when it is in the input, not expired by that gate, and passes the tab. |
| Dashboard.AllTabShowsFresh | components/Dashboard.tsx:100-112 | For either gate, the "All" tab hides only the fixtures that gate finds expired. |
| Dashboard.FilteredAppend | components/Dashboard.tsx:99-114 | For either gate, the listing distributes over concatenation, so listed fixtures keep their order. |
| Dashboard.ListingsAgree | components/Dashboard.tsx:100 | When every fixture's date and time are agreeable (no month overflow; in the year-end case a day from 1 to 31 and a time within the day), the program's listing equals the intended one. |
| Dashboard.StaleFixtureListed | components/Dashboard.tsx:100 | On the month-overflow inputs, the program's "All" listing still shows the finished fixture, and the intended listing drops it. |
| Common.KeepAgree | components/Dashboard.tsx:100 | Two tests that agree on every element keep the same elements. |
| Dashboard.MissingFieldDefaults | components/Dashboard.tsx:103-108 | A fixture with no confidence is a value bet exactly when its odds exceed 2.2. Without a confidence it is not safe, and without odds it is neither high-odds nor value. |
| Dashboard.AddToTicket | components/Dashboard.tsx:46-51 | An item whose id is present changes nothing; otherwise it is appended. |
| Dashboard.RemoveFromTicket | components/Dashboard.tsx:53-55 | `removeFromTicket`: keeps the items with other ids. Dashboard.RemoveSpec, RemoveUndoesAdd and RemoveKeepsUnique state it. |
| Dashboard.AddKeepsUnique | components/Dashboard.tsx:46-51 | Adding keeps the ids distinct and makes the item's id present. |
| Dashboard.AddIdempotent | components/Dashboard.tsx:46-51 | Adding the same item twice is adding it once. |
| Dashboard.RemoveSpec | components/Dashboard.tsx:53-55 | After removal no item has the id, and exactly the items with other ids remain. |
| Dashboard.RemoveUndoesAdd | components/Dashboard.tsx:46-55 | Removing a freshly added item restores the ticket. |
| Dashboard.RemoveKeepsUnique | components/Dashboard.tsx:53-55 | Removal keeps the ids distinct. |
| Calendar.Normalize | components/Dashboard.tsx:27-28 | A day that runs past either end of its month becomes the valid date with the same day number, as `setDate` does. |
| Calendar.DayIndexInjective | components/Dashboard.tsx:25-28 | Distinct valid dates have distinct day numbers, so the normal form is unique. |
| Calendar.DayFromYearStep | components/Dashboard.tsx:31-32 | Consecutive years are one leap-rule year length apart. |
| Avatar.AvatarFor | components/ui/PlayerAvatar.tsx:4-6 | An empty name shows the placeholder. Any other name shows at most two initials, none of them a lower-case letter. |
| Avatar.FirstCharsAreWordStarts | components/ui/PlayerAvatar.tsx:6 | Split-map-join picks exactly the characters that start a word, in order: each is a non-space at the start or after a space. |
| Avatar.BadgeIsWordStarts | components/ui/PlayerAvatar.tsx:6 | The initials are the first two word-starting characters, upper-cased. |
| Avatar.EmptyWordsContributeNothing | components/ui/PlayerAvatar.tsx:6 | Empty pieces from leading, trailing or repeated spaces add nothing. |
| Avatar.BadgeLength | components/ui/PlayerAvatar.tsx:6 | The number of initials is the number of non-empty words, capped at two. |
| Avatar.LeadingSpaceIgnored | components/ui/PlayerAvatar.tsx:6 | A leading space does not change the avatar. |
| Avatar.SingleWord | components/ui/PlayerAvatar.tsx:6 | A single word gives exactly its upper-cased first character. |
| Avatar.TwoWords | components/ui/PlayerAvatar.tsx:6 | Two words give their upper-cased first characters, in order. |

## Left out

- Network and AI calls are left out: the Gemini requests, the agent fan-out with `Promise.allSettled`, the prompts, and the Supabase queries and upserts. Their answers are inputs (`MatchQuery`, `RemoteLookup`, `JudgeCall`, `CallOutcome`), and the sport filter inside the query is part of that answer.
- `localStorage`, `new Date()` and `toLocaleDateString` are inputs ("today", "now" and the cache entry); writing the cache entry back is not modelled.
- Local time is taken as UTC, so there are no time zones or daylight-saving shifts. The clock is a valid civil date and time, and `Date`'s range limit of ±8.64e15 ms is not modelled.
- `randomNormal` (Box-Muller with `log`, `cos` and `sqrt`) is replaced by an input sequence of draws. All arithmetic is exact real arithmetic rather than IEEE doubles.
- Simulation.RunMonteCarlo: ratings and tempo are reals, so a NaN rating or tempo is not modelled.
- Common.Round: modelled as `floor(x + 1/2)` over reals, so double rounding is not modelled.
- Analysis.Round3: `toFixed(3)` on reals, so the binary representation of doubles is not modelled.
- JsText.StrCompare: code-unit order stands in for the collation of `localeCompare`. A collation ranks punctuation before digits, compares letters case-blind first, and returns 0 for canonically equivalent texts. The two orders agree only where the texts first differ digit against digit, or where one text is a prefix of the other; `20:30` against `20:3:0` and `20:30b` against `20:30C` are ordered the other way by a collation.
- JsText.ParseNumber: handles an optional sign, decimal digits and one dot. Exponent, hexadecimal and `Infinity` forms read as NaN.
- `JSON.parse` is an abstract partial function, and the JSON values it produces are given as typed records.
- The Supabase rows mapped to fixtures in `fetchDailyMatches` (services/geminiService.ts:132-145) arrive already mapped, as inputs. That mapping differs from the scrape's: it reads the sport from the row's `sport` alone, without the league test; it sets the confidence to the constant 75; and it copies the odds unconverted, without `Number(...) || 0`.
- MatchTime.SortByTimeSorted: key order is proved only when every hour parses as a number. With a NaN hour, `Array.prototype.sort` gets an inconsistent comparator and its result depends on the engine. Permutation is proved for every input. The third key is the code-unit order of `JsText.StrCompare`, so the tie-break among fixtures of the same live status and hour matches `localeCompare` only where the two orders agree. MatchTime.SameHourByMinute states the `hh:mm` case, where they do.
- Analysis.Compute: the analysis save is not awaited, so its effect on the circuit lands at some later point in the program; the model applies it before the call returns.
- Fetch.FetchDaily: the matches save (services/geminiService.ts:167-198) is not awaited either, so its effect on the circuit lands later in the program; the model applies it before the call returns.
- Analysis.Compute: a judge reply that parses to `null` makes `json.predictions` throw (services/geminiService.ts:526-529). A prediction that is `null` or not an object makes the `pred.edge` write throw (530-535). Either way the call rejects at line 590. The model's parsed reply is always a record of optional fields with one record per tip, so these rejections are not modelled.
- Fetch.FetchIsSortedChoice: a fixture row without a `time` makes `time.split` throw inside the sort at services/geminiService.ts:163, and `fetchDailyMatches` rejects. The model's fixtures always carry a time text.
- Scrape.ScrapedMatches: a `null` element in the scraped array makes the mapping at services/geminiService.ts:256-269 throw, and the catch at lines 270-273 returns `[]` for the whole scrape. The model's rows are records, so every element maps to one fixture.
- Fetch.FetchSorted: key order is proved only when every candidate hour is numeric, for the same reason.
- Simulation.BasketballHasNoDraw: assumes both tempo-scaled scores are non-negative. Otherwise the clamp at 0 can still produce 0-0.
- React state and rendering are left out. `addToTicket` reads the rendered list while appending to the pending one, so two adds in one render could both pass the duplicate check; the model applies updates one at a time. Also left out are the tab-to-category query key and refetch timer, and all render code.
- ToUpper, ToLower and the avatar use ASCII case mapping only. A character stands for a Unicode code point, so the split surrogate that `n[0]` returns for an astral-plane first letter is not modelled.
- The duplicate avatar in components/AnalysisView.tsx:57-66 is left out.
- The fields of `MatchAnalysis` that the assembly step never sets are left out.

## Findings

| source | as written | input that shows it | evidently intended | confidence | as-written member | corrected member |
|---|---|---|---|---|---|---|
| components/Dashboard.tsx:25-28 | The kick-off is built on a copy of now with `setMonth(month - 1)` before `setDate(day)`. When now's day of the month does not exist in the fixture's month, `setMonth` overflows into the next month and `setDate` keeps that month. | Now 29 March (non-leap year) 01:00, date `28/02`, time `23:00`: the kick-off lands on 28 March, so a month-old fixture stays listed. | The kick-off is the fixture's own date: day `day` of month `month` at that time. | not executed | Dashboard.MonthOverflowKeepsStaleFixture | Dashboard.ExpiredOfDigits |
| components/Dashboard.tsx:15-18 | The comment promises `YYYY-MM-DD`, but the first `-` field, the year, is read as the day, and the day field is ignored. | Now 10 April 2025 12:00, date `2025-03-28`, time `20:00`: day 2025 of March lies years ahead, so the finished fixture stays listed. | Year, month and day are read in that order for a year-month-day date, one whose first field is a four-digit year; a `dd-mm-yyyy` date is still read day first. | not executed | Dashboard.IsoDateReadAsDay | Dashboard.Kickoff |

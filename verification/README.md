# PSG diaspora dataset — a Dafny model of the enrichment pipeline

The psg-diaspora-dataset repository collects professional footballers born
in Île-de-France between 1980 and 2006 from Wikidata. It enriches each player
record with a birth département and a diaspora background, and publishes
statistics and two Streamlit dashboards over the result. This project models
the parts of it that compute, in Dafny, and proves what they promise:

- **The analysis step** (`src/analysis/analyze_players.py`) has four parts.
  - **The birthplace resolver** (`Resolver`) lower-cases the name. It answers
    "75" for anything that mentions Paris. Otherwise it tries a fixed
    city-to-département table in definition order.
  - **The diaspora categorisation** (`Diaspora`) uses seven regional country
    lists. The last matching nationality sets the region.
  - **The single pass** (`Analysis`) builds one enriched record per player and
    fills the counters: nationalities, dual nationals, diaspora regions and
    countries, birth years, five-year periods and départements. It fails on an
    empty dataset or on a date whose year is not an integer.
  - **The statistics page** for the article (`Report`).
- **The Wikidata collector** (`src/collectors/wikidata.py`, module `Wikidata`)
  covers:
  - the result-cell parsers (entity URIs, ISO dates, `Point(...)` literals,
    comma-separated lists);
  - one record per result row;
  - the unknown-département guard;
  - the per-département collection and the first-occurrence de-duplication by
    Wikidata id.
- **The 93/95 retry script** (`scripts/retry_93_95.py`, module `Retry`) has
  its own row parser. It tags each player with the département it was queried
  for. It then appends every new id to the main dataset, a class whose
  `players` and `count` fields the merge updates in place.
- **The two dashboards.**
  - `Dashboard` holds what both pages share: the row table, the filter chain,
    the region options, the birth-year slider bounds, the per-département
    counts and markers, and the origin-country chart.
  - `SpaceApp` is specific to `huggingface-space/app.py`: the "d - Name"
    labels read back to codes, the loading of the published table, the bar
    chart and the African-diaspora metric.
  - `ExplorerApp` is specific to `app/app.py`: the options built from the
    table itself, the filter chain with its late `int`, the diaspora metric
    and the map.

Support modules:
- `Wrappers`: Option, Result and the two exception kinds.
- `Seqs`: filter, map, flat-map, stable sort, first index, lookup.
- `Text`: Python's `lower`, `in`, `split`, `strip` and string order.
- `Numerals`: `str(int)` and `int(str)`.
- `Counters`: `collections.Counter` as an insertion-ordered list of entries,
  `most_common` and the count-descending sort.
- `Records`: the player record.

Exceptions are values: a `ValueError` or `ZeroDivisionError` the Python code
would raise is a `Failure` here. Python's `None` is `None`. For the date of
birth and the birthplace, a JSON `null` and a missing key are both `None`,
since the analysis tests them for truth or for being a dict. The
nationalities and the birthplace name are plain values; see "Left out". The network is a parameter: what the endpoint answers for
each département.

The model keeps the source's quirks:
- "Cormeilles-en-Parisis" and "Villeparisis" resolve to Paris.
- "clichy" (92) shadows "clichy-sous-bois" (93), and "châtillon" (92) shadows
  "viry-châtillon" (91).
- The region is that of the *last* diaspora nationality.
- The retry parser accepts any URI as an id and keeps an empty date as "".
- The statistics page (`src/analysis/analyze_players.py:403`) and the
  explorer dashboard (`app/app.py:139-141`) label as "African diaspora" the
  share of players with any diaspora region, Europe, Asia and the Americas
  included. The Space dashboard (`huggingface-space/app.py:182-183`) counts
  only Sub-Saharan Africa, the Maghreb and the Comoros under the same name.

## Model

| member | source | states |
|---|---|---|
| Resolver.ExtractDepartmentFromBirthplace | src/analysis/analyze_players.py:25-184 | The early-return loop gives the resolver's answer for every name: "75" when the lower-cased name mentions Paris, otherwise the code of the first table entry whose city occurs in it, otherwise None |
| Resolver.FirstMatchSpec | src/analysis/analyze_players.py:180-184 | The table lookup finds nothing exactly when no city of the table occurs in the name. Otherwise it answers with the code of an entry whose city occurs and before which no city occurs (first match wins) |
| Resolver.DepartmentInIleDeFrance | src/analysis/analyze_players.py:33-178 | Every answer of the resolver is one of the eight Île-de-France codes 75, 77, 78, 91, 92, 93, 94, 95 |
| Resolver.MentionsParisIffParis | src/analysis/analyze_players.py:33 | The "arrondissement de paris" test adds nothing to the "paris" test |
| Resolver.ParisWins | src/analysis/analyze_players.py:30-34 | Any name whose lower-cased form contains "paris" resolves to "75" whatever the table holds |
| Resolver.DepartmentIgnoresCase | src/analysis/analyze_players.py:30 | A name and its lower-cased form resolve alike |
| Resolver.ShadowedEntry | src/analysis/analyze_players.py:180-184 | When an entry's city contains the city of an earlier entry, a name matching it is answered by that earlier entry or one before it, never by it |
| Resolver.HautsDeSeineFirst | src/analysis/analyze_players.py:37-63 | The table opens with the Hauts-de-Seine cities, all mapped to "92" |
| Resolver.ShadowedEntries | src/analysis/analyze_players.py:122-143 | The positions of "viry-châtillon" (91) and "clichy-sous-bois" (93) in the table |
| Resolver.ShadowedBy92 | src/analysis/analyze_players.py:37-184 | A non-Paris name matching an entry whose city contains an earlier Hauts-de-Seine city resolves to "92" |
| Resolver.ClichySousBoisShadowed | src/analysis/analyze_players.py:48-143 | A non-Paris birthplace mentioning "clichy-sous-bois" resolves to "92", not "93", because "clichy" comes first |
| Resolver.ViryChatillonShadowed | src/analysis/analyze_players.py:54-122 | A non-Paris birthplace mentioning "viry-châtillon" resolves to "92", not "91", because "châtillon" comes first |
| Resolver.ParisInCityName | src/analysis/analyze_players.py:33-34 | A table city whose name holds "paris" is never answered with its own code: any name matching it resolves to "75" |
| Resolver.ParisInCityNameEntries | src/analysis/analyze_players.py:111-175 | "villeparisis" (77) and "cormeilles-en-parisis" (95) are table cities holding "paris" |
| Text.LowerIdempotent | src/analysis/analyze_players.py:30 | Lower-casing twice is lower-casing once |
| Diaspora.CategorizeDiaspora | src/analysis/analyze_players.py:187-263 | The dual-national flag is "more than one nationality", the nationalities come back unchanged, and the region and the countries are those of the list-based definitions |
| Diaspora.CategorizationSpec | src/analysis/analyze_players.py:238-261 | The countries are exactly the listed non-French nationalities, in input order. The region is None exactly when there are none; otherwise it is the region of the last one |
| Diaspora.ClassifySound | src/analysis/analyze_players.py:239-261 | A nationality is filed under a region only if that region's list holds it |
| Diaspora.ClassifyComplete | src/analysis/analyze_players.py:239-261 | Every nationality in some region's list, other than France, counts as a diaspora country |
| Diaspora.OnlyFrench | src/analysis/analyze_players.py:239-240 | A player whose every nationality is France has no diaspora country and no region |
| Diaspora.LabelsDistinct | src/analysis/analyze_players.py:242-260 | The seven region labels are pairwise distinct, non-empty and never the text "None" the dashboards use for a missing region |
| Diaspora.LastMatchWins | src/analysis/analyze_players.py:241-246 | ["Algérie", "Sénégal"] is filed under Sub-Saharan Africa: the last match overwrites the first |
| Analysis.EnrichPlayers | src/analysis/analyze_players.py:297-337 | The pass either stops with the ValueError of the first date whose year does not parse, or yields one enriched record per player in order together with the accumulators over them |
| Analysis.EnrichPlayer | src/analysis/analyze_players.py:297-337 | One iteration fails exactly on a date whose first four characters are not an integer. Otherwise it updates the accumulators with the record built from the resolver and the categorisation |
| Analysis.VisitPlayer | src/analysis/analyze_players.py:299-337 | Given the resolver's and the categorisation's answers, one iteration raises the unguarded year conversion's ValueError or returns the updated accumulators and the record |
| Analysis.CountPlayer | src/analysis/analyze_players.py:299-326 | The counting half of one iteration performs exactly the accumulator update of the enriched record |
| Analysis.CountCountries | src/analysis/analyze_players.py:325-326 | Adds every diaspora country of a player to the country counter, one at a time |
| Analysis.FiveYearCounts | src/analysis/analyze_players.py:357-361 | The regrouping loop computes the five-year counter |
| Analysis.AnalyzeDataset | src/analysis/analyze_players.py:266-390 | The analysis gives the outcome `Analyze` defines: the first bad date's ValueError, the empty-dataset ZeroDivisionError, or the summary and the records |
| Analysis.AnalyzeOutcome | src/analysis/analyze_players.py:266-390 | The analysis fails exactly on an empty dataset or a bad date, and a bad date wins over emptiness. On success there is one enriched record per player, in input order |
| Analysis.FirstBadYearSpec | src/analysis/analyze_players.py:306-332 | The reported bad date is the year text of the first player whose year does not parse; there is none exactly when every year parses |
| Analysis.TalliesOfSpec | src/analysis/analyze_players.py:297-326 | After any prefix each accumulator holds: the concatenated nationalities; the count of players with several nationalities; the parsed years; and the counts of resolved départements, region labels and diaspora countries |
| Analysis.DemographicsSpec | src/analysis/analyze_players.py:340-347 | Every player is counted. Dual nationals are the players with more than one nationality. The top nationalities are `most_common(20)` of all nationalities in the sense of `IsMostCommon`: min(20, number of distinct nationalities) entries, each once with its multiplicity, largest count first, no left-out nationality more frequent than a kept one, and ties in first-appearance order |
| Analysis.DiasporaSpec | src/analysis/analyze_players.py:349-354 | The diaspora total is the number of players with a region. Each region label is counted once per such player. The top countries are `most_common(20)` of all diaspora countries in the same full sense (length, multiplicities, order, nothing left out more frequent, ties in first-appearance order) |
| Analysis.DepartmentTotal | src/analysis/analyze_players.py:317-319 | The département counts add up to the number of players whose birthplace resolved; unresolved players are counted nowhere |
| Analysis.RegroupTotal | src/analysis/analyze_players.py:357-361 | Regrouping by five-year period keeps the total number of births |
| Analysis.RegroupDistinct | src/analysis/analyze_players.py:357-361 | The five-year counter has each period once |
| Analysis.PeriodStartIsPeriod | src/analysis/analyze_players.py:360 | `(year // 5) * 5` is a multiple of five for every year, negative ones included |
| Analysis.RegroupSpec | src/analysis/analyze_players.py:357-361 | Regrouping the year counter of `ys` counts each period p exactly as often as p occurs among the periods `(y // 5) * 5` of `ys`. Its keys are exactly those periods, each once, and its total is the number of years |
| Analysis.RegroupCounts | src/analysis/analyze_players.py:357-361 | The regrouped count of a period is the sum of the counts of the years that fall in it |
| Analysis.RegroupKeys | src/analysis/analyze_players.py:359-361 | Every period of the regrouped counter is the period of some year of the year counter |
| Analysis.ByYearSpec | src/analysis/analyze_players.py:356-363 | `dict(sorted(year_counts.items()))` counts each year with its multiplicity, holds exactly the parsed years and lists them in strictly increasing order |
| Analysis.ByPeriodSpec | src/analysis/analyze_players.py:357-364 | The sorted five-year counter counts each period with the multiplicity of its period among the years, holds exactly those periods in strictly increasing order, each a multiple of five, and totals the number of years |
| Analysis.TemporalSpec | src/analysis/analyze_players.py:357-368 | Stated on the summary's `by_year` and `by_5year` themselves: `by_year` counts every parsed year with its multiplicity and nothing else, in increasing order. `by_5year` counts every period with the number of parsed years in it and nothing else, in increasing order, each a multiple of five, with total the number of parsed years. Earliest and latest exist exactly when some year parsed, and bound all of them |
| Analysis.GeographicSpec | src/analysis/analyze_players.py:382-388 | The département rows, read as (code, count) pairs, are `most_common()` of the resolved codes in the full sense: one row per distinct code, no code twice, each with its number of players, largest count first, ties in first-appearance order. Every resolved code has its row, and each row carries its code's name |
| Analysis.DepartmentEntriesSpec | src/analysis/analyze_players.py:371-386 | The same for the rows built from any list of codes: no code twice, every code has its row with its multiplicity and name, largest count first, ties in first-appearance order |
| Analysis.ResolvedInIleDeFrance | src/analysis/analyze_players.py:315-319 | Every département the analysis counts is an Île-de-France code |
| Counters.AddSpec | src/analysis/analyze_players.py:319 | `counter[k] += n` raises k's count by n and no other, raises the total by n, and appends k to the keys only when it is new |
| Counters.TallySpec | src/analysis/analyze_players.py:340 | `Counter(xs)` gives each element its multiplicity, has the length of `xs` as total, lists the distinct elements in first-appearance order, and has only positive counts |
| Counters.SortByCountDescSpec | src/analysis/analyze_players.py:385 | Sorting items by `-count` keeps the same items, puts the largest count first and keeps insertion order among equal counts |
| Counters.MostCommonSpec | src/analysis/analyze_players.py:346 | `most_common(n)` has exactly min(n, number of distinct elements) entries, each key once, each an element of the input with its multiplicity, largest count first. No left-out element occurs more often than a kept one. The kept entries of each count are the first elements with that count in first-appearance order |
| Counters.MostCommonLeftOut | src/analysis/analyze_players.py:346 | No element left out of `most_common(n)` occurs more often than any kept one |
| Counters.MostCommonTies | src/analysis/analyze_players.py:346 | The kept keys with count k are a prefix of the elements occurring k times, in first-appearance order |
| Counters.SortedTallySpec | src/analysis/analyze_players.py:385 | `sorted(Counter(xs).items(), key=lambda x: -x[1])` is `most_common()` of every element in the full sense above, and every element of `xs` has its entry |
| Report.GenerateArticleStats | src/analysis/analyze_players.py:393-437 | The page written line by line is: title, date, headline, region table, top-country table, département table, period table, limitations, in that order |
| Report.RegionRowsSpec | src/analysis/analyze_players.py:405-411 | One row per region with its count and the player total as denominator, every region listed, largest count first |
| Report.CountryRowsSpec | src/analysis/analyze_players.py:413-417 | The first ten entries of the top-country counter, or all of them when fewer, in its order |
| Report.DepartmentRowsSpec | src/analysis/analyze_players.py:419-425 | One row per département of the results in their order, followed always by the two missing départements 93 and 95 |
| Report.PeriodRowsSpec | src/analysis/analyze_players.py:427-431 | The period rows are the five-year counter sorted by period, each spanning `period` to `period + 4` |
| Report.PeriodRowsOfAnalysis | src/analysis/analyze_players.py:427-431 | For the results of an analysis every period row starts on a multiple of five |
| Wikidata.ExtractQidSpec | src/collectors/wikidata.py:246-251 | An id exists exactly when the URI contains "/entity/Q". It is the text after the last "/", so it holds no "/" and ends the URI |
| Wikidata.ExtractQidOfEntity | src/collectors/wikidata.py:246-251 | The QID of `base/entity/Q…` is recovered whole |
| Text.AfterLastSpec | src/collectors/wikidata.py:250 | `s.split("/")[-1]` is a suffix holding no "/"; it is all of `s` when `s` holds none |
| Wikidata.ParseDateSpec | src/collectors/wikidata.py:253-259 | No date exactly for the empty value. Otherwise the date is a prefix of the value holding no "T", and all of it when the value holds no "T" |
| Wikidata.ParseDateOfDateTime | src/collectors/wikidata.py:253-259 | The date part of `date + "T" + time` is `date` |
| Text.BeforeFirstSpec | src/collectors/wikidata.py:258 | `s.split("T")[0]` is a prefix holding no "T", followed by a "T" unless it is all of `s` |
| Wikidata.ParseCoordinatesSpec | src/collectors/wikidata.py:261-272 | When coordinates come back, the value is "Point(" followed by a body and one closing character, and the body is the longitude and the latitude as two words with whitespace around and at least one whitespace between them |
| Text.TwoWordsShape | src/collectors/wikidata.py:266-267 | When `split()` finds exactly two words, the text is those two words with whitespace around them and at least one whitespace between them |
| Wikidata.ParseCoordinatesOfPoint | src/collectors/wikidata.py:261-272 | Conversely, "Point(" + any whitespace + longitude + whitespace + latitude + any whitespace + any closing character gives back exactly that longitude and latitude |
| Wikidata.ParseListSpec | src/collectors/wikidata.py:274-279 | An empty value gives no items. Every item is non-empty and has nothing left for `strip()` |
| Wikidata.ParseListOfJoin | src/collectors/wikidata.py:274-279 | Joining trimmed, non-empty, comma-free items with "," followed by any run of whitespace and parsing the text gives the same items in order |
| Wikidata.ParseListOfGroupConcat | src/collectors/wikidata.py:143 | A list the query builds with `GROUP_CONCAT(...; separator=", ")` parses back to its items in order |
| Text.StripSpec | src/collectors/wikidata.py:278 | `strip()` keeps a substring that neither starts nor ends with whitespace, and is empty exactly for all-whitespace text |
| Text.SplitJoin | src/collectors/wikidata.py:278 | `split(",")` undoes `",".join` of comma-free parts |
| Wikidata.ParseRowDefaults | src/collectors/wikidata.py:228-241 | A row with no bound variable gives empty texts, no id, no date, no coordinates and no nationalities |
| Wikidata.ParseResults | src/collectors/wikidata.py:224-244 | One parsed record per result row, in row order |
| Wikidata.FootballersByDepartmentSpec | src/collectors/wikidata.py:129-133 | An unknown code is refused with `ValueError("Unknown département: " + code)` before any query. A known code fails only when its query fails, and otherwise gives one record per row |
| Wikidata.CollectionOrderSpec | src/collectors/wikidata.py:326-335 | The collection queries each of the eight known codes exactly once, so the guard never fires during it |
| Wikidata.CollectedFromResponses | src/collectors/wikidata.py:326-343 | Every collected record was parsed from a row the endpoint returned for a known département whose query succeeded |
| Wikidata.CollectFootballers | src/collectors/wikidata.py:326-354 | The collection loop skips failed départements and returns the de-duplication of everything collected, in collection order |
| Wikidata.Deduplicate | src/collectors/wikidata.py:348-354 | The de-duplication loop computes the first-occurrence filter by truthy id |
| Wikidata.UniqueFromFresh | src/collectors/wikidata.py:352-354 | Only records whose id is truthy and not yet seen are kept |
| Wikidata.UniqueFromDistinct | src/collectors/wikidata.py:352-354 | No id is kept twice |
| Wikidata.UniqueFromOrder | src/collectors/wikidata.py:351-354 | Kept records keep their input order |
| Wikidata.UniqueFromKeepsIds | src/collectors/wikidata.py:351-354 | Every truthy, unseen id of the input is kept |
| Wikidata.UniqueFromFirst | src/collectors/wikidata.py:351-354 | Each kept record is the first input record with its id |
| Wikidata.UniqueSpec | src/collectors/wikidata.py:348-354 | De-duplication in full: no falsy id, no repeated id, order kept, first occurrence kept, every truthy id present |
| Retry.ParseResults | scripts/retry_93_95.py:105-126 | One player per row, in row order |
| Retry.RetryParseComparedToCollector | scripts/retry_93_95.py:110-123 | Against the collector's parser: the ids agree on entity URIs, but any other text still gives an id here. The dates agree on non-empty values, but an empty value stays "" here. The nationalities always agree |
| Retry.RetryNationalitiesAgree | scripts/retry_93_95.py:118-122 | The nationalities are split, trimmed and filtered exactly as the collector's list parser does, the empty value included |
| Retry.TagDepartment | scripts/retry_93_95.py:165-166 | Every player of a batch gets the batch's département code and nothing else changes |
| Retry.CollectRetry | scripts/retry_93_95.py:157-168 | The collection loop gives the tagged 93 batch followed by the tagged 95 batch |
| Retry.RetryCollectedParts | scripts/retry_93_95.py:143-168 | The collection is the tagged players of Q12761 as "93" followed by those of Q12784 as "95" |
| Retry.TaggedBatches | scripts/retry_93_95.py:160-168 | Two tagged batches side by side: each position holds its own row's record with its batch's code |
| Retry.CollectedTagged | scripts/retry_93_95.py:143-168 | Every collected player carries the code of the département it was queried for, position by position |
| Retry.MainData.constructor | scripts/retry_93_95.py:192-194 | The main dataset as read: its players and its metadata count |
| Retry.MainData.Merge | scripts/retry_93_95.py:196-208 | The existing players stay in place. The new ones are appended in collection order. `new_count` is the number appended, and the metadata count becomes the final length |
| Retry.NewPlayersFresh | scripts/retry_93_95.py:201-204 | An appended player's id was not among the existing ids |
| Retry.NewPlayersDistinct | scripts/retry_93_95.py:201-204 | No id is appended twice |
| Retry.NewPlayersOrder | scripts/retry_93_95.py:201-203 | Appended players keep collection order |
| Retry.NewPlayersCover | scripts/retry_93_95.py:197-204 | Every collected id ends up either among the existing ids or among the appended ones |
| Retry.MergeKeepsIdsUnique | scripts/retry_93_95.py:197-205 | A main dataset without repeated ids has none after the merge |
| Retry.MergeIds | scripts/retry_93_95.py:197-205 | The ids after the merge are the existing ids together with the collected ids |
| Dashboard.ApplyFilters | huggingface-space/app.py:153-169 | The chain of masks (département, region, year range, nationality; an "All" mask skipped) equals one filter by the conjunction of the four predicates |
| Dashboard.FilteredSpec | huggingface-space/app.py:155-169 | A row is shown exactly when it is in the table and passes every active filter. The shown rows keep table order |
| Dashboard.AllChoicesKeepYearRange | huggingface-space/app.py:153-169 | With every choice on "All" only the inclusive year range filters |
| Dashboard.CodeBeforeSeparator | huggingface-space/app.py:139 | The text before the first " - " of `str(d) + " - " + anything` is `str(d)`. `str(d)` alone is left whole and is never "All" |
| Numerals.ParseIntOfIntToString | huggingface-space/app.py:139 | `int(str(d)) == d` for every integer |
| Dashboard.KnownYearsSpec | huggingface-space/app.py:146 | The years the slider ranges over are exactly the rows' non-missing birth years |
| Dashboard.YearBoundsSpec | huggingface-space/app.py:146 | The slider bounds exist exactly when some row has a birth year. They are the smallest and the largest of them, both attained |
| Dashboard.DefaultRangeKeepsKnownYears | huggingface-space/app.py:146-164 | The default slider range with every other choice on "All" shows exactly the rows that have a birth year |
| Dashboard.RegionOptionsMembers | huggingface-space/app.py:142 | "All" first, then exactly the regions of the table other than 'None' |
| Dashboard.RegionOptionsOrder | huggingface-space/app.py:142 | The regions after "All" appear once each, in increasing string order |
| Dashboard.OtherDepartmentsEmpty | huggingface-space/app.py:155-206 | Once a département is chosen, every other département counts zero |
| Dashboard.BuildMapData | huggingface-space/app.py:333-343 | The marker loop gives one marker per place in table order, kept only when its count is positive |
| Dashboard.MapPointsSpec | huggingface-space/app.py:333-343 | Each marker is a place with its count, which is positive. Every place with a positive count has its marker. Markers keep the places' order |
| Dashboard.DualCountUnderChoice | huggingface-space/app.py:166-178 | The dual-national count is at most the shown rows. It is all of them under "Dual nationals only" and none under "Single nationality only" |
| Dashboard.AllCountries | huggingface-space/app.py:297-300 | The flattening loop gives every shown row's diaspora countries, row by row |
| Dashboard.TopCountriesSpec | huggingface-space/app.py:297-303 | The top countries are `most_common(10)` of the flattened diaspora countries in the full sense: min(10, distinct countries) entries, each once with its number of occurrences, largest first, none left out more frequent, ties in first-appearance order. Each is a diaspora country of some shown row |
| SpaceApp.DepartmentsWellFormed | huggingface-space/app.py:21-30 | The département codes are in increasing order and every name is non-empty |
| SpaceApp.DeptLabelSpec | huggingface-space/app.py:75-79 | A known code is labelled "d - Name" with its own name; any other code is labelled `str(d)` |
| SpaceApp.LabelRoundTrip | huggingface-space/app.py:136-139 | Reading back the label of any code gives that code, never an error |
| SpaceApp.LabelsRoundTrip | huggingface-space/app.py:133-139 | In "All" followed by labels, each option after "All" reads back to its own code |
| SpaceApp.SortedCodesInOrder | huggingface-space/app.py:133 | `sorted(DEPARTMENTS.keys())` is the definition order |
| SpaceApp.OptionsRoundTrip | huggingface-space/app.py:133-139 | The département options are "All" then one label per code, and every option after "All" reads back to its code |
| SpaceApp.LoadFails | huggingface-space/app.py:40-43 | Loading fails exactly when some present département is not an integer |
| SpaceApp.LoadKeeps | huggingface-space/app.py:40-70 | A successful load keeps, in order, exactly the rows with a département, each with its integer code. A missing region becomes 'None' and a missing city "Unknown" |
| SpaceApp.LoadRowsSpec | huggingface-space/app.py:40-69 | The same two facts for the loader with Python's `int` |
| SpaceApp.DepartmentData | huggingface-space/app.py:204-211 | One bar per code of `DEPARTMENTS`, in definition order, with its label and count |
| SpaceApp.DepartmentChartMembers | huggingface-space/app.py:204-214 | Each bar is a listed code with its label and its positive count, and every listed code with rows has its bar |
| SpaceApp.DepartmentChartOrder | huggingface-space/app.py:214 | The bars go from the smallest count to the largest |
| SpaceApp.SpaceMapPoints | huggingface-space/app.py:333-343 | One marker per département with rows, in definition order, keyed `str(code)`, named "code - Name", with its count |
| SpaceApp.AfricanCountUnderRegion | huggingface-space/app.py:182-183 | Choosing one of the three African regions makes every shown row count; choosing any other region makes none count |
| ExplorerApp.KeysAreDecimal | app/app.py:70-79 | Each key of `DEPT_COORDS` is the decimal text of its code |
| ExplorerApp.DecimalLookup | app/app.py:96 | In a table keyed by decimal texts of distinct codes, the key `str(d)` is found exactly at d's position, and the default is returned otherwise |
| ExplorerApp.DepartmentListSpec | app/app.py:95 | The département list holds each département of the table once, in strictly increasing order |
| ExplorerApp.OptionLabelSpec | app/app.py:96-97 | A code with a key in `DEPT_COORDS` is shown as "d - Name"; any other code is shown as "d - d" |
| ExplorerApp.OptionRoundTrip | app/app.py:99-116 | The text before " - " of any option is `str(d)`, and `int` of it gives d back |
| ExplorerApp.OptionsRoundTrip | app/app.py:97-99 | "All" comes first, and every later option reads back to its own code |
| ExplorerApp.FilterRows | app/app.py:113-126 | Filtering fails exactly when the chosen text is neither "All" nor an integer. Otherwise it is the shared filter with that département |
| ExplorerApp.ChosenOptionFilters | app/app.py:95-116 | Choosing any offered option never raises and shows only rows of the département it was built from |
| ExplorerApp.FloatOptionRaises | app/app.py:95-116 | When pandas has read the département column as floats, every option reads "d.0 - d.0". The text before " - " is "d.0", and `int` of it raises, so choosing any département fails |
| ExplorerApp.DiasporaCountSpec | app/app.py:139 | The diaspora count and the rows without a region make up all shown rows. Once a region is chosen every shown row counts |
| ExplorerApp.DecimalPlaces | app/app.py:245-246 | Every key of a decimal-keyed table reads back with `int` as its code |
| ExplorerApp.DecimalMapPoints | app/app.py:244-254 | Markers of a decimal-keyed table: one per key whose code has rows, in table order, with its name and count |
| ExplorerApp.ExplorerMapPoints | app/app.py:244-254 | `int(dept)` never raises on the keys of `DEPT_COORDS`. The map shows one marker per key with rows, in definition order, with the bare name and the count |

## Left out

- Percentages (`round(100 * x / n, 1)` in the results, on the page and in both dashboards' metrics) are floating point. The model keeps the count and the denominator each is computed from. The only effect it keeps is the ZeroDivisionError of an empty dataset.
- `float()` of the two coordinate tokens is not modelled. Coordinates stay the two tokens as text. So the ValueError `float()` raises on a token that is not a number (`src/collectors/wikidata.py:268-269`) is not modelled either. In the collection it would escape `_parse_results` and be caught by the `except` at `src/collectors/wikidata.py:341`, dropping the whole département. It cannot arise there: the département query (`src/collectors/wikidata.py:136-143`) never selects `?birthPlaceCoord`, so no record has coordinates.
- The département latitudes and longitudes of both dashboards are left out, as is the rendering of every chart.
- File and JSON reading and writing are left out: loading the players, saving the results, the dataset export, the collector's `save`, and reading and writing the merge file.
- The HTTP client, the SPARQL query text, the rate-limit check, `time.sleep` and the closing `subprocess.run` are left out. What the endpoint returns is a parameter, and a failed query is a `Failure` response, or no rows for the retry script.
- `datetime.now()` is left out: the analysis date is a parameter of the page.
- The metadata updates of the merge other than the count (`last_updated`, `includes_93_95`) are left out, and so is the retry script's own output file. These are timestamps and I/O.
- Text.LowerChar: lowers ASCII and Latin-1 capitals only. Python's full Unicode case mapping is not modelled.
- Numerals.ParseInt: accepts ASCII digits only. Python's `int` also accepts other Unicode decimal digits, which are not modelled.
- The `eval` branches of the dashboards' list parsing are left out. A missing value gives `[]` and a list gives itself.
- The two-level `.get(...).get("value", "")` of result cells is flattened to one map from variable names to values.
- A JSON `null` for `nationalities` or for the birthplace `name` cannot be represented: the record holds a list and a text there, as the collectors always write. In the source a null list makes `nationalities_all.extend(None)` raise TypeError (`src/analysis/analyze_players.py:298-299`), and a null name makes `.lower()` raise AttributeError (`src/analysis/analyze_players.py:315-316`, `:30`). Those two error paths are not modelled.
- A missing `wikidata_id` key is read as None. The Python dedup would raise KeyError on such a record, but the collector always writes the key.
- The collector's `get_footballers_details`, `get_player_details`, `get_idf_footballers` and the generic `query` are not part of this model. They are HTTP wrappers around `_parse_results`, which is modelled.
- `create_huggingface_dataset`, the column renames of the export and the analysis `main` are file output and are not part of this model.
- The "Top Department" metric (pandas `mode()`), the birth-year and diaspora pie charts, the name search box, the display table and the CSV download of both dashboards are left out.
- `app/app.py`'s département bar chart (`value_counts` with names) is left out. Its map counts are modelled.
- Dashboard.TopCountriesSpec: pandas `value_counts` orders ties by its own sort. The model uses a stable sort, so ties keep first-appearance order.
- SpaceApp.DepartmentChart: `sort_values('count', ascending=True)` (`huggingface-space/app.py:214`) uses an unstable sort by default, so it does not promise an order among equal counts. The model's stable sort keeps definition order among them, and no contract relies on that order.
- ExplorerApp.DepartmentListSpec: the model reads the CSV's département column as integers and skips missing ones. When the column holds a missing value, pandas reads the whole column as floats. The list then holds floats, and the `nan` a missing value leaves is not modelled. What happens to the options of a float column is under "Findings".
- SpaceApp.LoadRowsSpec: the published `birth_department` column is modelled as text converted by `int`. `astype(int)` of a float column is not modelled.

## Findings

| source | as written | input that shows it | evidently intended | confidence | as-written member | corrected member |
|---|---|---|---|---|---|---|
| app/app.py:95-116 | The options are built from whatever type pandas gives `birth_department`. The export (`src/analysis/analyze_players.py:449-472`) writes an empty cell for every unresolved player. So the column is read as floats, every option reads "75.0 - 75.0", and `int("75.0")` raises when the filter is applied | A dataset with one player whose birthplace does not resolve, then choosing any département | Choosing an offered option filters by its département without raising, as the options of an integer column do | high for the raise once the column is read as floats; that pandas reads it so is outside the model; not executed | ExplorerApp.FloatOptionRaises | ExplorerApp.ChosenOptionFilters |

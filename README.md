# Brand-mention correlation demo, modelled in Dafny

`Example.py` is a small pipeline. It takes a table of brands and categories, asks a yes/no question per brand, and seeds a few canned answers. It then labels whether each answer mentions its brand and summarises mentions per (Category, Brand) and per Category. Next, it asks the Wikipedia service whether each brand has a page. Finally, it tests the association between having a page (HasWiki) and being mentioned (Mentioned).

This project models the deterministic rules of that pipeline:

- `text.dfy` (`Text`): the Python string operations the rules rely on.
  - `str.lower` and `str.strip`.
  - The substring test `needle in hay`.
  - The code-point order used by `sorted`.
- `records.dfy` (`Records`): the table row with its columns Brand, Category, Prompt, Response, ResponseEmpty, Mentioned, HasWiki and WikiTitle.
- `prompts.dfy` (`Prompts`): `build_prompts` and `seed_sample_responses`. Seeding is a loop that writes rows in place, so it is a method.
- `mentions.dfy` (`Mentions`): `label_mentions`, a per-row function.
- `resolver.dfy` (`PageResolver`): `has_wikipedia_page`.
  - The Wikipedia service is an oracle value `Wiki`. A page fetch answers `Ok(title)`, `Ambiguous(options)`, `NotFound` or `OtherError`. A search answers `Hits(hits)` or `SearchFailed`.
  - The specification is `Resolve`: the first fetch that loads in a flat fetch order. That order is each candidate title, each followed by its top three ranked options when it is ambiguous, and then the first five search hits.
  - The method `HasWikipediaPage` keeps the source's loops and early returns, and is proved equal to `Resolve`.
- `flags.dfy` (`WikiFlags`): `compute_haswiki_flags`. It is a loop over the sorted distinct brands that fills the two dictionaries, followed by the join back onto the rows.
- `stats.dfy` (`Association`, `Summary`): the integer side of `chi_square_on_haswiki` and `summarize`.
  - `Association` covers the 2x2 crosstab and the degenerate-table guard.
  - `Summary` covers the per-group counts and the mention-rate rule.

## Model

| member | source | states |
|---|---|---|
| Text.LowerChar | Example.py:134 | a lowered character is never an ASCII capital; only ASCII capitals change, and they become small letters; whitespace stays whitespace and nothing else becomes whitespace |
| Text.Lower | Example.py:134 | `s.lower()` keeps the length and lowers every character as `LowerChar` does |
| Text.ContainsLonger | Example.py:134 | a string that contains another is at least as long as it |
| Text.StripEmptyIffAllSpace | Example.py:132 | `s.strip() == ""` exactly when every character of `s` is whitespace, the empty string included |
| Text.ContainsIsSubstring | Example.py:134 | the left-to-right scan answers true exactly when the needle occurs at some position of the haystack |
| Text.LessTotal | Example.py:178 | any two different strings are ordered one way or the other by code-point order |
| Text.LessIrreflexive | Example.py:178 | no string is before itself, so with `LessTotal` and `LessTransitive` code-point order is a strict total order |
| Text.LessTransitive | Example.py:178 | code-point order on strings is transitive |
| Prompts.BuildPrompts | Example.py:99-103 | same number of rows; every row gets "Is <Brand> a good <Category> brand?" and keeps all other columns |
| Prompts.SeedSampleResponses | Example.py:106-122 | same number of rows; row i gets seed text i for i < min(3, rows) and "" otherwise; no other column changes |
| Mentions.MentionFlag | Example.py:132-137 | the flag is 0 or 1; it is 0 for a blank response; for a non-blank response it is 1 exactly when the lowered brand is a substring of the lowered response |
| Mentions.LabelRow | Example.py:131-137 | the labelled row satisfies `Labelled` (ResponseEmpty is "all whitespace", and Mentioned follows the rule above); only ResponseEmpty and Mentioned change |
| Mentions.LabelMentions | Example.py:125-138 | same number of rows, each row labelled as by `LabelRow` |
| Mentions.MentionedWhenOccurs | Example.py:134 | an occurrence of the lowered brand in a non-blank lowered response makes Mentioned 1 |
| Mentions.MentionExampleApple | Example.py:133-137 | "Apple" in "Yes, Apple is great" is a mention |
| Mentions.MentionExampleBlank | Example.py:132-137 | worked example: for the brand "Dell", the empty response and " \t\n" are not mentions (the general rule for every brand is the `MentionFlag` row) |
| Mentions.MentionEmptyBrand | Example.py:134-136 | an empty brand is mentioned by every non-blank response, because the empty string is a substring of every string |
| Mentions.MentionCaseInsensitive | Example.py:134 | lowering the brand or the response does not change Mentioned |
| PageResolver.Dedup | Example.py:61 | `list(dict.fromkeys(s))` has the same elements as `s` and no repeats |
| PageResolver.DedupKeepsFirstOrder | Example.py:61 | the deduplicated list is ordered by first occurrence in the input |
| PageResolver.DedupOfDistinct | Example.py:61 | a list without repeats is unchanged |
| PageResolver.Candidates | Example.py:61 | the brand is always a candidate, no candidate is repeated, and when the brand is not one of its own aliases it is tried last |
| PageResolver.CandidatesContents | Example.py:61 | the candidate titles are the aliases (or the brand when it has none) plus the brand, each once, and always include the brand |
| PageResolver.CandidatesOrder | Example.py:61 | candidates keep first-occurrence order of "aliases, then brand"; with distinct aliases not naming the brand they are exactly the aliases followed by the brand |
| PageResolver.CandidatesWithoutAlias | Example.py:61 | a brand with no alias entry is tried as `[brand]` only |
| PageResolver.CandidatesExampleHP | Example.py:41-61 | HP is tried as "HP Inc.", "Hewlett-Packard", "HP" |
| PageResolver.CandidatesExampleJabra | Example.py:41-61 | Jabra, whose first alias is the brand itself, is tried as "Jabra", "Jabra (company)" |
| PageResolver.KeyMeaning | Example.py:71 | the first component of the sort key is true exactly when the lowered brand is not a substring of the lowered option (an option containing the brand is at least as long as it), the second is the option's length |
| PageResolver.Rank | Example.py:69-72 | ranking keeps the number of options |
| PageResolver.InsertRanked | Example.py:69-72 | inserting one option into a ranked list keeps it ranked |
| PageResolver.RankPermutes | Example.py:69-72 | ranking reorders the options without dropping or adding any (same multiset) |
| PageResolver.RankSorted | Example.py:69-72 | ranked options are ordered by the key (brand not contained, length) |
| PageResolver.InsertStable | Example.py:69-72 | inserting an option leaves the relative order of every key class as if it were prepended |
| PageResolver.RankStable | Example.py:69-72 | options with equal keys keep their input order (the sort is stable) |
| PageResolver.RankPrefersBrand | Example.py:69-72 | an option containing the brand (ignoring case) comes before one that does not; within a group, shorter comes first |
| PageResolver.OptionsTried | Example.py:66-73 | after an ambiguous title at most three options are tried, each one of that title's disambiguation options; after any other answer none are |
| PageResolver.Take | Example.py:73 | `s[:n]` is the prefix of length min(n, len(s)) |
| PageResolver.FirstOk | Example.py:62-96 | nothing is found exactly when no title in the list loads |
| PageResolver.FetchOrder | Example.py:61-94 | every candidate is fetched, and at most 4 fetches per candidate plus 5 search hits are made |
| PageResolver.Resolve | Example.py:54-96 | the flag is 0 or 1, and it is 1 exactly when a title is returned |
| PageResolver.ResolveFirstSuccess | Example.py:62-96 | the answer is (1, t) with t the title of the first fetch in fetch order that loads, every earlier fetch failing; it is (0, None) exactly when no fetch loads |
| PageResolver.FetchOrderShape | Example.py:61-82 | any title yields at most three tried options; the candidates' fetches are a prefix of the fetch order, at most four per candidate, containing every candidate; for each candidate i they are the fetches of candidates before i, then candidate i's own title and options, then those of the candidates after i |
| PageResolver.TitleAttemptsLayout | Example.py:62-82 | for any candidate list, candidate i's fetches sit between those of the earlier and of the later candidates |
| PageResolver.SearchAttemptsShape | Example.py:84-94 | the fallback fetches exactly `hits[:5]` (at most five hits, from the front of the list) when the search answers, and nothing when the search fails |
| PageResolver.FetchOrderWithoutAlias | Example.py:61-94 | a brand without aliases is fetched as itself, then its tried options, then the search hits |
| PageResolver.TryCandidate | Example.py:63-82 | one candidate: its own page if it loads, else the first of its top three ranked options that loads, else nothing |
| PageResolver.TrySearch | Example.py:84-94 | the first of the first five search hits that loads, nothing if none loads or the search fails |
| PageResolver.HasWikipediaPage | Example.py:54-96 | the nested loops with early return produce exactly `Resolve`: first success wins, otherwise (0, None), and no service failure escapes |
| WikiFlags.SortedUnique | Example.py:178 | the distinct brands are exactly the brands of the table |
| WikiFlags.InsertUniqueIncreasing | Example.py:178 | inserting a brand into a strictly increasing list keeps it strictly increasing |
| WikiFlags.SortedUniqueIncreasing | Example.py:178 | the distinct brands are strictly increasing, so each occurs once |
| WikiFlags.RecordedUpdate | Example.py:182-184 | storing the resolver's answer for a brand keeps every dictionary entry equal to the resolver's answer for its key |
| WikiFlags.RecordAnswer | Example.py:182-184 | one loop pass adds the brand as a key of both dictionaries and every entry stays the resolver's answer |
| WikiFlags.ResolveEachBrand | Example.py:179-186 | the resolver is called on the brands in the given order; the keys of each dictionary are exactly the brands, each holding its resolver answer |
| WikiFlags.JoinFlags | Example.py:188-189 | same number of rows; a row whose brand is in both dictionaries gets that brand's flag and title |
| WikiFlags.ComputeHasWikiFlags | Example.py:175-190 | each distinct brand is resolved once, in sorted order, exactly the brands of the table; every row gets its brand's HasWiki and WikiTitle and keeps its other columns |
| Association.CellCount | Example.py:198 | a cell count never exceeds the number of rows |
| Association.CellsCoverRows | Example.py:198 | on binary columns, every row falls in exactly one of the four (HasWiki, Mentioned) cells, so the cells add up to the row count |
| Association.CrossTab | Example.py:198 | on binary columns, the counts of the table add up to the number of rows |
| Association.TableSize | Example.py:198-200 | `tab.size`, the number of present HasWiki levels times present Mentioned levels, is 0 exactly when there are no rows |
| Association.DegenerateGuard | Example.py:200 | `tab.size == 0 or tab.values.sum() == 0` holds exactly when there are no rows |
| Association.ChiSquareOnHasWiki | Example.py:198-206 | the degenerate report comes out exactly when there are no rows; otherwise the Pearson test gets the (HasWiki, Mentioned) counts and a positive sample size, so phi's NaN branch is dead |
| Association.EmptyTableReport | Example.py:200-202 | an empty table reports chi2 = 0, p = 1, dof = 0, phi = 0 |
| Association.NonEmptyTableTested | Example.py:203-206 | a non-empty table goes to the Pearson test with counts summing to the row count |
| Summary.NonBlank | Example.py:147 | responses_nonempty never exceeds the number of rows |
| Summary.Aggregate | Example.py:145-149 | prompts is the number of rows of the group, and non-blank responses never exceed it |
| Summary.NonBlankAppend | Example.py:147 | the non-blank count of two tables end to end is the sum of their counts |
| Summary.MentionSumAppend | Example.py:148 | the mention sum of two tables end to end is the sum of their sums |
| Summary.AggregateAppend | Example.py:145-149 | the counts of two tables end to end are the componentwise sums |
| Summary.AggregateRemove | Example.py:145-149 | taking one row out of a table takes exactly its counts out of the totals |
| Summary.MultisetRemove | Example.py:144 | removing one copy of the same row from two tables with the same rows leaves tables with the same rows |
| Summary.AggregateMultiset | Example.py:145-149 | the counts depend only on the rows a group holds, counted with repeats, not on their order |
| Summary.AggregateBounds | Example.py:143-150 | on labelled rows, prompts is the row count and mentions <= non-blank responses <= prompts |
| Summary.MentionRate | Example.py:151-155 | the rate is 0 when there are no non-blank responses, otherwise mentions / non-blank; it lies in [0, 1] when mentions <= non-blank |
| Summary.InBrandGroup | Example.py:144 | the group holds every row with that (Category, Brand), as many times as the table does, and no other row |
| Summary.InCategory | Example.py:159 | the group holds every row with that Category, as many times as the table does, and no other row |
| Summary.InBrandGroupHas | Example.py:144 | every row of the table is in the group of its own (Category, Brand) |
| Summary.InBrandGroupFrom | Example.py:144 | every row of a (Category, Brand) group is a row of the table |
| Summary.InCategoryHas | Example.py:159 | every row of the table is in the group of its own Category |
| Summary.InCategoryFrom | Example.py:159 | every row of a Category group is a row of the table |
| Summary.ByBrand | Example.py:143-150 | one entry per (Category, Brand) pair present in the table, holding the counts of that pair's group |
| Summary.ByCategory | Example.py:158-165 | one entry per Category present in the table, holding the counts of that Category's group |
| Summary.SameRowsPresent | Example.py:144 | a row of a table is also a row of any table with the same rows |
| Summary.SameBrandGroups | Example.py:144 | two tables with the same rows have (Category, Brand) groups with the same rows |
| Summary.SameCategoryGroups | Example.py:159 | two tables with the same rows have Category groups with the same rows |
| Summary.ByBrandIgnoresOrder | Example.py:143-150 | the by-brand summary depends only on the rows, not on their order |
| Summary.ByCategoryIgnoresOrder | Example.py:158-165 | the by-category summary depends only on the rows, not on their order |
| Summary.GroupBounds | Example.py:137-155 | a non-empty group whose rows all come from a labelled table has a prompt, mentions <= non-blank <= prompts, and a rate in [0, 1] |
| Summary.ByBrandBounds | Example.py:143-155 | every by-brand group of a labelled table satisfies those bounds |
| Summary.ByCategoryBounds | Example.py:158-170 | every by-category group of a labelled table satisfies those bounds |

Some definitions have no row of their own because they are plain transcriptions of one source expression. Each is pinned down by the rows named here:
- `Text.Strip` (`str.strip`) by `Text.StripEmptyIffAllSpace`.
- `Text.Contains` (`needle in hay`) by `Text.ContainsIsSubstring` and `Text.ContainsLonger`.
- `Text.Less` (code-point order) by `Text.LessTotal` and `Text.LessTransitive`.
- `Prompts.PromptFor` (the f-string at Example.py:102) by `Prompts.BuildPrompts`.
- `PageResolver.AliasesOrBrand` (`WIKI_ALIASES.get(brand, [brand])`) by `PageResolver.CandidatesContents`.
- `PageResolver.SearchAttempts` (`hits[:5]`, or nothing when the search fails) by `PageResolver.SearchAttemptsShape`.
- `Summary.MentionSum` (`("Mentioned", "sum")`) by `Summary.MentionSumAppend` and `Summary.AggregateBounds`.

## Left out

- Loading the CSV, every `print` and `head` preview, and `main`: these are I/O.
- The Wikipedia library itself, `set_lang("en")` and the warning filter: they are foreign network calls. The service is a parameter `Wiki`. It is deterministic: the same title always gets the same answer within one run of `compute_haswiki_flags`, since one `Wiki` value answers for every brand of the pass.
- Which exception classes the library raises: they are collapsed into `Ambiguous`, `NotFound` and `OtherError` for fetches and `SearchFailed` for search. The source treats every non-disambiguation failure alike.
- `time.sleep` between requests: it has no logical effect.
- The Pearson statistic, p-value, dof and phi computed by `chi2_contingency` and `sqrt`: these are floating-point numerics.
- The mean Mentioned by HasWiki and the `p < 0.05` interpretation text.
- Sorting and `head(20)` of the printed summaries: presentation only.
- Text.Lower: lowers ASCII letters only, because Python's full Unicode case mapping is not modelled.
- Summary.MentionRate: computes an exact rational, not a rounded float.
- Association.ChiSquareOnHasWiki: always counts a full 2x2 table. When a level of HasWiki or Mentioned is absent from the data, pandas' crosstab has no row or column for it, but the model has zero cells there. `TableSize` still counts present levels only, as `tab.size` does. What `chi2_contingency` does with a table that has fewer than two rows or columns is not modelled.
- Association.ChiSquareOnHasWiki: requires HasWiki and Mentioned to be 0 or 1, which the labelling and resolution stages guarantee. It stops at the input of the Pearson test.
- Records.Row: a missing Brand, Category or Response (NaN) is not modelled. Every cell is a string. As a consequence:
  - the `fillna("")` of Response;
  - the `dropna()` of brands;
  - the `fillna(0)` of HasWiki for a brand without an answer.
  All three have no work to do in the model. `WikiFlags.JoinFlags` still writes the fallback of 0 and no title.
- Mentions.LabelMentions: on a table with no rows, pandas' row-wise `apply` at Example.py:133 does not produce a column, and the assignment to `df["Mentioned"]` fails. The model instead returns the empty table. As a consequence, the empty-table report of `chi_square_on_haswiki` (Example.py:200-202) is reached in the source only when that function is called on its own, while in the model the labelling stage passes the empty table on and every later stage accepts it.
- Prompts.SeedSampleResponses: writes by position. This is `df.at[i, ...]` on the default 0..n-1 row labels that the loader produces; other row labels are not modelled.

# Paper-search deduplication engine, modelled in Dafny

This project models the core of a paper-search tool. The tool queries
OpenAlex, Semantic Scholar, arXiv and Crossref and maps each raw item to a
flat paper record (`source`, `title`, `abstract`, `authors`, `link`,
`citations`, `status`, `pub_date`). It then removes papers already seen,
using three mechanisms:

- an identity key (`normalize_key`: the trimmed, lower-cased DOI, else
  link, else title);
- dated result archives named `YYYY-MM-DD_<prefix>.json`, one per day,
  which are appended to and consulted on later days;
- a cumulative database of `{title, doi}` summaries keyed by identity.

Two in-run dedups sit beside these. The app merges the per-source lists
keeping the first paper per trimmed, lower-cased title. The search module
keeps the first paper per (title, authors, link) triple.

Modules, one per concern:

- `Text`: Python `strip`, `lower`, `split`, `join`, `replace` and string order.
- `Json`: JSON values and records; `Option` and `Outcome` (a value, or an escaping exception).
- `Seqs`: subsequences, filtering, flattening, first-per-key.
- `Keyed`: key sets, filtering against earlier records, dicts in insertion order.
- `Dates`: archive dates.
- `Utils`: utils.py.
- `SearchApi`: search_api.py.
- `App`: app.py.
- `CrossrefSearch`: crossref_search.py.

The file system is the class `Utils.Store`. Its field `files` maps a path
to the list of records the file holds, or to `Unreadable`. A path that is
not in the map does not exist. Directory listings, today's and yesterday's
dates, the timestamp and whether a write succeeds are parameters. HTTP
responses arrive already parsed, as typed items in which `None` marks an
absent key.

Where the code and its own description differ, the model follows the code:

- The database summary uses `paper.get("title", "Untitled")` and
  `paper.get("doi", paper.get("link", ""))` (utils.py:196-199). A default
  applies only when the key is absent. A present but empty DOI is kept as
  `""`; it is not replaced by the link.
- The mapped records carry no `doi` field. Their identity key is therefore
  the link, or the title when the link is empty.
- The docstring of `merge_and_save` speaks of "title + authors or link".
  The key the code builds is the whole (title, authors, link) triple
  (search_api.py:235).
- Crossref dates are the present `date-parts` joined by `-` without zero
  padding, so 19 September 2025 gives `2025-9-19`.
- Today's archive is described as only ever growing within a day. When it
  exists but cannot be read, however, `save_results_to_json` starts from
  `[]` (utils.py:118-121) and rewrites the file with only the new
  candidates, so its earlier contents are lost. `Utils.Store.ExistingArchive`
  and `Utils.Store.SaveResultsToJson` model exactly this.

## Model

| member | source | states |
|---|---|---|
| Utils.PathJoin | utils.py:37 | `os.path.join(dir, name)` on POSIX: an absolute name replaces the directory; no separator is added after an empty directory or one ending in `/` |
| Utils.NormalizeKey | utils.py:11-28 | the identity key of a paper: DOI, else link, else title, each trimmed and lower-cased; "" when none is set |
| Utils.KeyIsNormalized | utils.py:18-28 | a key is already trimmed and lower-cased: normalising it again changes nothing |
| Utils.KeyEmptyIff | utils.py:18-28 | the key is "" exactly when DOI, link and title are all blank after trimming |
| Utils.DoiDecidesKey | utils.py:18-23 | a record with a DOI is keyed by its normalised DOI whatever its link and title are |
| Utils.LinkDecidesKey | utils.py:18-25 | without a DOI, a record with a link is keyed by its normalised link whatever its title is |
| Utils.KeyIgnoresCaseAndPadding | utils.py:18-23 | two DOIs that differ only in letter case and surrounding whitespace give the same key |
| Utils.TitleFallback | utils.py:20-27 | without DOI and link, records with equal normalised titles get equal keys |
| Utils.SentinelLinkSharesKey | utils.py:19-25 | two DOI-less records whose link is the "Not Available" sentinel share the key "not available", whatever their titles |
| Utils.MatchesArchiveGlob | utils.py:37-38 | the names the glob `*_allapi_scholar_ndt.json` matches: the suffix, and no leading `.` |
| Utils.DatePart | utils.py:49 | `name.split("_")[0]`, the text before the first underscore |
| Utils.Dated | utils.py:45-53 | every collected (date, path) pair has a valid calendar date as its date part |
| Utils.DatedMembers | utils.py:45-53 | a pair is collected exactly when some globbed name has a valid date prefix, with that prefix and path; none is collected exactly when no name has one |
| Utils.MaxByDateIsFirstMaximum | utils.py:60 | `max` with a date key returns a pair that no other pair's date exceeds, and every earlier pair has a strictly smaller date (the first maximum) |
| Utils.MaxByDateIsMaximum | utils.py:60 | the chosen pair is one of the pairs, and no pair has a later date string |
| Utils.MaxOfDated | utils.py:45-60 | the chosen pair comes from a name whose date is, as a calendar date, not before any other valid name's date |
| Utils.MaxByDate | utils.py:60 | `max(files_with_dates, key=lambda x: x[0])`: a running maximum that replaces the current pair only on a strictly later date |
| Utils.LatestArchive | utils.py:37-62 | the path `get_latest_json` returns for a listing: the maximum of the dated globbed names, or None when there is none |
| Utils.LatestArchiveNone | utils.py:37-57 | the lookup gives None exactly when no listed name matches the glob with a valid date prefix |
| Utils.LatestArchiveIsLatest | utils.py:37-62 | otherwise it returns the path of a globbed, validly dated name whose date is not before any other such name's date |
| Utils.GetLatest | utils.py:37-62 | the filtering loop and the running maximum compute exactly the latest-archive choice for a directory listing |
| Utils.GetLatestJson | utils.py:33-62 | the latest archive under results/ |
| Utils.GetLatestJsonAgent | utils.py:64-93 | the latest archive under results_agent/ |
| Utils.PubDates | utils.py:234 | `old_dates`: the set of `paper.get("pub_date", "")` over the archive |
| Utils.HashableDates | utils.py:234 | the set can be built: no archive record has a list or object `pub_date` |
| Utils.FilterLoaded | utils.py:218-267 | once the archive's pub_date values can be collected into a set, the result is a subsequence of the candidates and never loses a keyless one. It is the input unchanged when there is no archive, the archive is unreadable, or today's date is among its pub_date values. Otherwise it drops exactly the candidates matching the archive (yesterday's date present) or the database (fallback); with no database or an unreadable one it is unchanged |
| Utils.DatabaseFallbackExample | utils.py:251-267 | the fallback removes a candidate whose DOI differs from a database DOI only in letter case, and keeps a title-keyed one |
| Utils.ExampleKeys | utils.py:18-27 | the keys of three concrete records: lower-cased DOI, and the title when DOI and link are blank |
| Utils.TodayArchive | utils.py:108-111 | the first name in listing order that starts with today's date and ends with `<prefix>.json` (every earlier name fails the test), or none when no name does |
| Utils.ArchiveTarget | utils.py:107-126 | the file `save_results_to_json` rewrites: today's first listed archive for the prefix, else `<today>_<prefix>.json` in the output directory |
| Utils.NewForArchive | utils.py:129-130 | `new_filtered`: the candidates whose key is not a non-empty key of the archive's old contents |
| Utils.ArchiveAppendSpec | utils.py:129-136 | the rewritten archive keeps its old contents as a prefix. It appends exactly the candidates whose key the old contents lack, in order with repeats kept, and always appends keyless candidates |
| Utils.Summary | utils.py:196-199 | the `{title, doi}` summary: the title, "Untitled" when absent; the DOI, else the link, else "" when those keys are absent |
| Utils.MergedDatabase | utils.py:190-202 | the list written back: `list(db_dict.values())` after indexing the database by key and adding the summaries of new results |
| Utils.MergedIndex | utils.py:190-200 | the database dict stays a valid insertion-ordered dict |
| Utils.MergedKeys | utils.py:190-202 | the rewritten database has one entry per non-empty key of the old database or of the results and no other; old entries with an empty or repeated key are dropped |
| Utils.MergedKeepsOld | utils.py:190-199 | an existing key keeps the last old entry with that key; results never replace it |
| Utils.MergedAddsFirstSummary | utils.py:193-199 | a new key holds the `{title, doi}` summary of the first result with that key |
| Utils.MergedOldFirst | utils.py:190-202 | the old entries come first in their old order, and new summaries follow |
| Utils.AddNewSummaries | utils.py:192-200 | the loop adding summaries computes exactly the dict update that the lemmas above describe |
| Utils.Store.ReadArchive | utils.py:226-232 | reading the latest archive: Missing when the lookup found none, its records when readable, Failed otherwise |
| Utils.Store.ReadDatabase | utils.py:251-262 | reading the database: Missing when the path does not exist, its records when readable, Failed otherwise |
| Utils.Store.ExistingArchive | utils.py:113-121 | the old contents of today's archive: its records, or [] when there is none or it cannot be read |
| Utils.Store.LoadDatabase | utils.py:151-159 | [] when the database file does not exist, its records when readable, an exception when unreadable |
| Utils.Store.WriteRecords | utils.py:166-167 | a successful write replaces exactly that path's contents; a failed one raises and changes nothing |
| Utils.Store.SaveDatabase | utils.py:162-168 | the whole list replaces the database file and nothing else changes |
| Utils.Store.FilterDuplicates | utils.py:211-267 | raises when the latest archive under results/ is readable and holds a list or object `pub_date`, which cannot go into `old_dates`; otherwise the filter applied to that archive and to the database as they are stored, a subsequence of the input |
| Utils.Store.SaveResultsToJson | utils.py:98-145 | rewrites today's archive for the prefix, or a new `<today>_<prefix>.json`, as its readable old contents (none when unreadable) followed by the new candidates. Nothing is written when no candidate is new, and the path is returned. A failed write returns None and changes nothing |
| Utils.Store.SaveResultsToDatabase | utils.py:173-204 | false and no change when the result file is missing or unreadable; an unreadable database or failed write raises without change; otherwise true and the database becomes the merged list |
| Keyed.KeySet | utils.py:129 | the set of non-empty keys: a record's non-empty key is in it, every member is some record's key, and "" never is |
| Keyed.UnmatchedDropsMatches | utils.py:244-245 | filtering against the key set of earlier records removes exactly the candidates with a non-empty key shared by an earlier record; the rest keep their multiplicity and order |
| Keyed.UnkeyedSurvive | utils.py:264 | candidates with key "" are never removed by a key-based filter |
| Keyed.Index.Put | utils.py:196 | `d[k] = v` sets the entry; a new key goes last in the order and an existing key keeps its place |
| Keyed.Index.Values | utils.py:202 | definition of `list(d.values())`: the entries in key-insertion order; its properties are stated by Keyed.ValuesCount and Utils.MergedOldFirst |
| Keyed.IndexByKey | utils.py:190 | the dict comprehension builds a valid insertion-ordered dict |
| Keyed.IndexByKeySpec | utils.py:190 | the comprehension holds one entry per non-empty key, the last item with that key |
| Keyed.AddSummariesKeys | utils.py:193-200 | the loop adds exactly the results' non-empty keys |
| Keyed.AddSummariesOrder | utils.py:193-200 | the loop keeps the old key order as a prefix |
| Keyed.AddSummariesKeepsEntries | utils.py:195 | the loop never replaces an entry already present |
| Keyed.AddSummariesNewEntries | utils.py:193-199 | each new key holds the summary of the first result carrying it |
| Keyed.ValuesCount | utils.py:202 | the written list has one element per key of the dict |
| Seqs.Filter | utils.py:130 | a list comprehension with a condition keeps, in order, exactly the elements satisfying it, each as often as it occurs |
| Seqs.FilterMembers | utils.py:38 | an element is in the filtered list exactly when it is in the list and kept |
| Seqs.FirstByKeySpec | app.py:43-48 | first-per-key keeps a subsequence of admitted elements with pairwise distinct keys |
| Seqs.FirstByKeyAppend | app.py:46-48 | one more element is kept exactly when its key is admitted and not yet seen |
| Seqs.FirstByKeyCovers | app.py:43-48 | every admitted key of the input is represented in the output |
| Seqs.FirstByKeyKeepsFirst | app.py:46-48 | every kept element is the first element of the input with its key |
| Seqs.FirstByKeyOfDistinct | app.py:43-48 | a list with admitted, distinct keys is left unchanged |
| Seqs.FirstByKeyIdempotent | app.py:43-48 | keeping the first per key twice equals keeping it once |
| Text.LStripSpec | utils.py:18 | lstrip leaves a suffix that is empty or starts with a non-space, having removed only whitespace |
| Text.RStripSpec | utils.py:18 | rstrip leaves a prefix that is empty or ends with a non-space, having removed only whitespace |
| Text.StripSpec | utils.py:18 | a stripped string has no whitespace at either end |
| Text.StripPadding | utils.py:18 | stripping removes any whitespace padding around a string |
| Text.StripIdempotent | utils.py:18 | stripping twice equals stripping once |
| Text.StripLowerCommute | search_api.py:235 | `lower().strip()` equals `strip().lower()` |
| Text.NormIdempotent | utils.py:18-20 | normalising a normalised string changes nothing |
| Text.SplitJoin | search_api.py:16 | splitting a join at a separator that no piece contains returns the pieces |
| Text.JoinSplit | utils.py:49 | joining the pieces of a split with the separator gives back the string |
| Text.ReplaceNewlines | search_api.py:41 | after `replace("\n", " ")` no newline remains |
| Text.LessTransitive | utils.py:60 | Python's string order is transitive |
| Text.LessTotal | utils.py:60 | any two distinct strings are ordered one way or the other |
| Text.LessAsymmetric | utils.py:60 | the string order is asymmetric |
| Dates.DateStringOrder | utils.py:50-60 | for `YYYY-MM-DD` names, string order, as used by `max`, is calendar order |
| SearchApi.AuthorsString | search_api.py:44 | `", ".join(names) if names else "Not Available"` |
| SearchApi.DecodeAbstract | search_api.py:12-16 | `decode_openalex_abstract`: "Not Available" for a missing or empty index, else the words of the sorted (position, word) pairs joined with spaces |
| SearchApi.SortPairs | search_api.py:15 | the sort returns a permutation of the (position, word) pairs in ascending tuple order |
| SearchApi.SortedUnique | search_api.py:15 | any two sorted permutations of the same pairs are equal, so the result does not depend on the sorting algorithm |
| SearchApi.PairsLength | search_api.py:15 | there is one pair per listed position |
| SearchApi.PairsMembers | search_api.py:15 | each pair is a word of the index together with one of its positions |
| SearchApi.DecodeAbstractWords | search_api.py:12-16 | a missing or empty index decodes to "Not Available". Otherwise, when no word contains a space, splitting the abstract at spaces yields one word per listed position, in the order of the sorted (position, word) pairs |
| SearchApi.DecodeWithoutPositions | search_api.py:13-16 | a non-empty index that lists no positions decodes to the empty abstract, not to "Not Available" |
| SearchApi.OpenAlexAuthors | search_api.py:43 | the display names of the authorships that have an `author`, in order |
| SearchApi.OpenAlexAbstract | search_api.py:39-41 | the decoded abstract, with newlines replaced and whitespace stripped when it is non-empty |
| SearchApi.OpenAlexRecord | search_api.py:37-60 | the OpenAlex record: each field read with its `.get` default (`No title`, `Not Available`, 0) and the source tag |
| SearchApi.OpenAlexAbstractClean | search_api.py:39-41 | an OpenAlex abstract has no newline and no surrounding whitespace, and is "Not Available" without an index |
| SearchApi.SemanticScholarRecord | search_api.py:86-106 | the Semantic Scholar record: `.get` defaults, the `or "Not Available"` abstract, the fixed status and `str(year)` |
| SearchApi.SemanticScholarDefaults | search_api.py:88-105 | the abstract is "Not Available" exactly when it is missing, falsy or already that sentinel; status is always "Not Available"; pub_date is `str(year)`, so a null year gives "None" |
| SearchApi.ArxivRecord | search_api.py:145-164 | the arXiv record: stripped title, summary and id, the joined authors, `published[:10]` and the fixed citations and status |
| SearchApi.ArxivRecordFields | search_api.py:153-163 | pub_date is the first ten characters of `published` (all of it when shorter); citations and status are the fixed "Not Available" and "Open Access" |
| SearchApi.CrossrefTitle | search_api.py:192 | `item.get("title", ["No title"])[0]`; an empty list raises |
| SearchApi.CrossrefAbstract | search_api.py:193-195 | the abstract, "Not Available" when absent, cleaned when it is a non-empty string |
| SearchApi.FullName | search_api.py:199 | `f"{given} {family}".strip()` with "" for an absent part |
| SearchApi.AuthorNames | search_api.py:197-201 | the non-empty full names, in order |
| SearchApi.FullNames | search_api.py:198-199 | one full name per author entry |
| SearchApi.CollectAuthorNames | search_api.py:197-201 | the author loop collects exactly the non-empty full names |
| SearchApi.AuthorNamesSpec | search_api.py:197-201 | the collected names are the non-empty full names in order, each already trimmed; empty names are dropped |
| SearchApi.FullNameTrimmed | search_api.py:199 | a full name has no surrounding whitespace |
| SearchApi.CrossrefLink | search_api.py:204-205 | the doi.org URL of a non-empty DOI, else "Not Available" |
| SearchApi.CrossrefLinkSpec | search_api.py:204-205 | the link is "Not Available" exactly when the DOI is empty; otherwise the DOI follows the `https://doi.org/` prefix and can be read back |
| SearchApi.PresentParts | search_api.py:208 | every present date part gives a non-empty string |
| SearchApi.PresentPartsSpec | search_api.py:208 | no part is listed exactly when every part is None; non-negative parts contain no "-" |
| SearchApi.CrossrefPubDate | search_api.py:207-208 | the present parts of the first `date-parts` entry joined with "-"; `[[None]]` when absent; an empty list raises |
| SearchApi.CrossrefPubDateSpec | search_api.py:207-208 | an empty date-parts list raises. Otherwise pub_date is empty exactly when no part is present, and for non-negative parts splitting it at "-" yields their decimal strings |
| SearchApi.CrossrefDateUnpadded | search_api.py:208 | the parts 2025, 9, 19 give "2025-9-19", not the zero-padded form |
| SearchApi.CrossrefFields | search_api.py:191-211 | the fields both Crossref mappings share, or an exception from the title or the date |
| SearchApi.CrossrefRecord | search_api.py:212-221 | the shared fields with the source tag `Crossref` |
| SearchApi.CrossrefFieldsRaise | search_api.py:192-208 | mapping an item raises exactly when its title list or its date-parts list is empty |
| SearchApi.MapItems | search_api.py:50-60 | the append loop yields one record per item, in order |
| SearchApi.SearchOpenAlex | search_api.py:28-61 | [] for a failed request or missing results, else the OpenAlex record of every item in order |
| SearchApi.SearchSemanticScholar | search_api.py:77-115 | [] for a failed request or missing data, else the Semantic Scholar record of every item in order |
| SearchApi.SearchArxiv | search_api.py:133-165 | [] for a failed request or no entries, else the arXiv record of every entry in order |
| SearchApi.Collect | search_api.py:190-222 | when nothing raises there is one record per item |
| SearchApi.CollectSpec | search_api.py:190-222 | the loop raises exactly when some item's mapping raises, and otherwise maps every item in order |
| SearchApi.CollectPrefixRaises | search_api.py:190-222 | once an item raises, the whole loop raises |
| SearchApi.CollectItems | search_api.py:190-222 | the append loop with early exceptions computes exactly that list |
| SearchApi.SearchCrossref | search_api.py:182-222 | [] for a failed request or a body without message.items, else the Crossref records of all items, or an exception when one item raises |
| SearchApi.TripleKey | search_api.py:235 | the lower-cased, stripped (title, authors, link); None when a field is absent or not a string |
| SearchApi.UniqueByTriple | search_api.py:233-239 | `list(unique.values())`: the first paper per triple, in first-occurrence order |
| SearchApi.TracksPut | search_api.py:236-237 | inserting a new key keeps the dict and its order in step with the kept papers |
| SearchApi.DedupBy | search_api.py:233-239 | the dict loop raises when a paper lacks a string key field, else returns the first paper per key in first-occurrence order |
| SearchApi.UniqueByTripleSpec | search_api.py:233-239 | at most one paper per lower-cased, trimmed (title, authors, link) triple; each is the first paper with its triple; every triple of the input is represented; the output is a subsequence of the input |
| SearchApi.MergeAndSave | search_api.py:228-248 | the deduplicated list is written to results/<filename>; a missing or non-string key field raises with nothing written |
| App.TitleKey | app.py:45 | `paper.get("title", "").strip().lower()`; None when the title is present but not a string |
| App.MergedByTitle | app.py:40-48 | the merged list: the first paper per non-empty title over the concatenated sources |
| App.MergeFirstBy | app.py:41-48 | the nested loop with a seen set computes the first paper per admitted key across all sources, or raises when computing a key raises |
| App.MergeByTitle | app.py:41-48 | the title merge raises exactly when some title is present but not a string, and otherwise is the first paper per non-empty normalised title |
| App.FlattenContains | app.py:43-44 | every paper of every source is in the concatenated list |
| App.MergeAndSaveResults | app.py:36-57 | the merged list is written to results/<timestamp>_<filename> and is exactly the list returned with that path; nothing is written when the merge or the write raises |
| App.MergedTitlesUnique | app.py:45-48 | no two merged papers share a normalised title, none has an empty one, and each is the first paper with its title |
| App.MergedCovers | app.py:43-48 | the merge is a subsequence of the concatenated sources, and every non-empty title is represented |
| App.MergeIdempotent | app.py:40-48 | merging the merged list again as a single source returns it unchanged |
| CrossrefSearch.Ranked | crossref_search.py:30 | definition of `enumerate(items, start=1)`: the i-th item paired with rank i + 1; its use is stated by CrossrefSearch.NdtRecordsSpec |
| CrossrefSearch.NdtRecord | crossref_search.py:31-57 | the shared Crossref fields with `rank` set to the item's rank |
| CrossrefSearch.NdtRecords | crossref_search.py:29-57 | the ranked list, or an exception when some item's mapping raises |
| CrossrefSearch.NdtRecordsSpec | crossref_search.py:29-57 | the list raises exactly when some item does; otherwise there is one record per item, in order, the i-th ranked i + 1 and otherwise built from the shared Crossref fields |
| CrossrefSearch.SameFieldsAsSearchCrossref | crossref_search.py:48-57 | a ranked record agrees with the search module's Crossref record on every field except `rank` and `source` |
| CrossrefSearch.ResultsFile | crossref_search.py:62-63 | `results/crossref_results_<timestamp>.json` |
| CrossrefSearch.SearchCrossrefNdt | crossref_search.py:8-67 | a failed request or a body without message.items gives the error dict and writes nothing; otherwise the ranked list is written to results/crossref_results_<timestamp>.json and returned with that path |

## Left out

- HTTP requests, XML and JSON parsing, and the network: responses enter as parsed, typed items.
- JSON values of an unexpected type in a search response are left out: the typed items cannot hold them. A null `primary_location`, `open_access`, `issued` or `authors`, or a missing XML element, makes the source raise. A Crossref `title` that is a string rather than a list is indexed by `[0]` (search_api.py:192, crossref_search.py:31): a non-empty string gives its first character as the title, an empty one raises `IndexError`. The empty Crossref `title` list and the empty `date-parts` list are modelled as exceptions.
- JSON numbers are modelled as integers (`Json.Value.Num`); floating-point values are left out.
- Utils.NormalizeKey: reads only string fields. A truthy non-string `doi`, `link` or `title` would make `.strip()` raise in the source; the model treats it as empty.
- Text.Lower: lower-cases ASCII letters only, not the full Unicode mapping of `str.lower`.
- Dates.IsValidDate: accepts only the zero-padded `YYYY-MM-DD` shape. `strptime` would also accept one-digit months and days, such as `2025-9-1`. With such names the source's string `max` can pick an older archive, since `"2025-9-1" > "2025-10-01"`. Utils.MaxOfDated and Utils.LatestArchiveIsLatest hold only because of this restriction.
- The clock: `datetime.now()` and `timedelta(days=1)` become the `today`, `yesterday` and `timestamp` parameters.
- Utils.Store.SaveResultsToJson: the source reads the clock twice, once for the lookup of today's archive (utils.py:104) and once for the new file's name (utils.py:124); across midnight the two dates can differ, and the model uses one `today` for both.
- Directory listings: `os.listdir` and `glob` become the `listing` parameter, in the order they yield. The `results_dir` parameter of `filter_duplicates` is unused by the source (it always looks under results/), and the model does the same. The database directory and file are parameters; their defaults, `database` and `papers_db.json`, are not modelled as constants.
- Utils.Store: a file is either a list of records or `Unreadable`; a JSON file that parses to anything else is left out. In the source `json.load` succeeds on such a file and what follows depends on the value. An empty object `{}` or an empty string `""` iterates as nothing and so behaves as `[]`: `existing_keys` (utils.py:129), `db_dict` (utils.py:190), `old_dates` (utils.py:234) and `db_keys` (utils.py:259) come out empty, and `save_results_to_database` rewrites the database as a list. The one exception is `save_results_to_json`, which then raises at `merged_data.extend` (utils.py:136) when some candidate is new. A number, a boolean, null, a non-empty object or string, or a list holding a non-object makes the iteration or its `.get` raise. At utils.py:129, 190, 194 and 234 that exception escapes; at utils.py:259 it is caught and the database counts as unreadable (utils.py:260-262).
- `os.makedirs` is left out: directories are implicit in the paths of the store.
- The key order inside a written JSON object is left out: records are maps.
- Success of `open(..., "w")` is the `canWrite` parameter.
- `print` output is left out, including the counters `removed_count` and `new_count`, which are only printed.
- The Streamlit UI of app.py, its `.env` handling, and the calls to `enrich_with_firecrawl`, `filter_irrelevant_papers` and `summarize_filtered_papers` are left out. The latter go to code that is not part of this model.
- scholar_search.py, mdpi_search.py, springer_search.py and main.py are browser automation or plumbing and are not part of this model.
- The full text of the exception in the Crossref connection error (`{e}`) is the `reason` string of a failed response.

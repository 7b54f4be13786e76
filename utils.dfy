/** The deduplication and incremental-merge engine of utils.py: the identity key
    of a paper, the choice of the latest dated result archive, the three-tier
    filter against earlier runs, the same-day archive append and the merge into
    the cumulative database.

    The file system is a `Store` whose `files` map a path to the JSON list the
    file holds, or to `Unreadable` when opening or parsing it fails; a path that
    is not in the map does not exist. Directory listings, the clock and the
    success of a write are parameters. */
module Utils {
  import opened Text
  import opened Json
  import opened Seqs
  import opened Keyed
  import Dates

  const ResultsDir := "results"
  const ResultsDirAgent := "results_agent"
  /** The default archive prefix of `save_results_to_json`. */
  const ArchivePrefix := "allapi_scholar_ndt"
  /** The glob `*_allapi_scholar_ndt.json` that the latest-archive lookup uses. */
  const ArchiveGlobSuffix := "_" + ArchivePrefix + ".json"

  /** `os.path.join(dir, name)` on POSIX: an absolute `name` replaces `dir`,
      and no separator is added after an empty `dir` or one ending in `/`. */
  function PathJoin(dir: string, name: string): string {
    if name != [] && name[0] == '/' then name
    else if dir == [] || dir[|dir| - 1] == '/' then dir + name
    else dir + "/" + name
  }

  // =====================================================================
  // Identity key
  // =====================================================================

  /** `normalize_key`: the trimmed, lower-cased DOI, else link, else title;
      "" marks a record that has none of the three. */
  function NormalizeKey(p: Record): string {
    var doi := Norm(FieldText(p, "doi"));
    var link := Norm(FieldText(p, "link"));
    var title := Norm(FieldText(p, "title"));
    if doi != "" then doi
    else if link != "" then link
    else if title != "" then title
    else ""
  }

  /** A key is already trimmed and lower-cased. */
  lemma KeyIsNormalized(p: Record)
    ensures Norm(NormalizeKey(p)) == NormalizeKey(p)
  {
    var doi := FieldText(p, "doi");
    var link := FieldText(p, "link");
    var title := FieldText(p, "title");
    if Norm(doi) != "" {
      NormIdempotent(doi);
    } else if Norm(link) != "" {
      NormIdempotent(link);
    } else {
      NormIdempotent(title);
    }
  }

  /** The key is empty exactly when DOI, link and title are all empty after trimming. */
  lemma KeyEmptyIff(p: Record)
    ensures NormalizeKey(p) == "" <==>
      Strip(FieldText(p, "doi")) == "" && Strip(FieldText(p, "link")) == "" && Strip(FieldText(p, "title")) == ""
  {
  }

  /** A record with a DOI is keyed by it, whatever its link and title are. */
  lemma DoiDecidesKey(p: Record, link: Value, title: Value)
    requires Strip(FieldText(p, "doi")) != ""
    ensures NormalizeKey(p["link" := link]["title" := title]) == NormalizeKey(p) == Norm(FieldText(p, "doi"))
  {
    assert FieldText(p["link" := link]["title" := title], "doi") == FieldText(p, "doi");
  }

  /** Without a DOI, a record with a link is keyed by it, whatever its title is. */
  lemma LinkDecidesKey(p: Record, title: Value)
    requires Strip(FieldText(p, "doi")) == "" && Strip(FieldText(p, "link")) != ""
    ensures NormalizeKey(p["title" := title]) == NormalizeKey(p) == Norm(FieldText(p, "link"))
  {
    var q := p["title" := title];
    assert FieldText(q, "doi") == FieldText(p, "doi");
    assert FieldText(q, "link") == FieldText(p, "link");
    assert Norm(FieldText(p, "doi")) == "";
    assert Norm(FieldText(p, "link")) != "";
  }

  /** Two DOIs that differ only in letter case and surrounding whitespace give one key. */
  lemma KeyIgnoresCaseAndPadding(p: Record, q: Record, doi: string, pre: string, post: string)
    requires AllSpace(pre) && AllSpace(post) && Strip(doi) != ""
    requires FieldText(p, "doi") == pre + doi + post
    requires FieldText(q, "doi") == Lower(doi)
    ensures NormalizeKey(p) == NormalizeKey(q)
  {
    StripPadding(pre, doi, post);
    StripLowerCommute(doi);
    LowerIdempotent(Strip(doi));
    assert Strip(Lower(doi)) != "";
  }

  /** Records without DOI and link are matched on their title. */
  lemma TitleFallback(p: Record, q: Record)
    requires Strip(FieldText(p, "doi")) == "" && Strip(FieldText(p, "link")) == ""
    requires Strip(FieldText(q, "doi")) == "" && Strip(FieldText(q, "link")) == ""
    requires Norm(FieldText(p, "title")) == Norm(FieldText(q, "title"))
    ensures NormalizeKey(p) == NormalizeKey(q)
  {
  }

  /** The "Not Available" link that the API mappers put in records without a URL
      is a non-empty link, so two link-less, DOI-less papers share one key
      whatever their titles. */
  lemma SentinelLinkSharesKey(p: Record, q: Record)
    requires "doi" !in p && "doi" !in q
    requires "link" in p && p["link"] == Str("Not Available")
    requires "link" in q && q["link"] == Str("Not Available")
    ensures NormalizeKey(p) == NormalizeKey(q) == "not available"
  {
    var s := "Not Available";
    assert LStrip(s) == s;
    assert RStrip(s) == s;
    assert Lower(s) == "not available";
  }

  // =====================================================================
  // Latest dated archive: get_latest_json / get_latest_json_agent
  // =====================================================================

  /** The names the glob `*_allapi_scholar_ndt.json` matches (glob skips hidden names). */
  predicate MatchesArchiveGlob(name: string) {
    EndsWith(name, ArchiveGlobSuffix) && !StartsWith(name, ".")
  }

  /** `name.split("_")[0]`. */
  function DatePart(name: string): string {
    Split(name, '_')[0]
  }

  /** `files_with_dates`: the (date prefix, path) pairs of the glob's names whose
      prefix is a valid date, in glob order. */
  function Dated(dir: string, names: seq<string>): (c: seq<(string, string)>)
    ensures forall k :: 0 <= k < |c| ==> Dates.IsValidDate(c[k].0)
    decreases |names|
  {
    if names == [] then []
    else
      var init := Dated(dir, names[..|names| - 1]);
      var name := names[|names| - 1];
      if Dates.IsValidDate(DatePart(name)) then init + [(DatePart(name), PathJoin(dir, name))] else init
  }

  /** `max(files_with_dates, key=lambda x: x[0])`: the first pair whose date is maximal. */
  function MaxByDate(c: seq<(string, string)>): (m: (string, string))
    requires c != []
    decreases |c|
  {
    if |c| == 1 then c[0]
    else
      var m := MaxByDate(c[..|c| - 1]);
      if Less(m.0, c[|c| - 1].0) then c[|c| - 1] else m
  }

  /** The path `get_latest_json` returns for a directory listing, `None` when no
      name matches the glob with a valid date prefix. */
  function LatestArchive(dir: string, listing: seq<string>): Option<string> {
    var c := Dated(dir, Filter(listing, MatchesArchiveGlob));
    if c == [] then None else Some(MaxByDate(c).1)
  }

  /** The maximum is an element that no other date exceeds, and every element
      before it has a strictly smaller date. */
  lemma {:induction false} MaxByDateIsFirstMaximum(c: seq<(string, string)>)
    requires c != []
    ensures exists i :: (0 <= i < |c| && c[i] == MaxByDate(c) &&
      (forall j :: 0 <= j < |c| ==> !Less(MaxByDate(c).0, c[j].0)) &&
      (forall j :: 0 <= j < i ==> Less(c[j].0, MaxByDate(c).0)))
    decreases |c|
  {
    if |c| == 1 {
      LessIrreflexive(c[0].0);
      assert c[0] == MaxByDate(c);
    } else {
      var init := c[..|c| - 1];
      var last := c[|c| - 1];
      MaxByDateIsFirstMaximum(init);
      var m := MaxByDate(init);
      var i :| 0 <= i < |init| && init[i] == m &&
        (forall j :: 0 <= j < |init| ==> !Less(m.0, init[j].0)) &&
        (forall j :: 0 <= j < i ==> Less(init[j].0, m.0));
      if Less(m.0, last.0) {
        forall j | 0 <= j < |c| ensures !Less(last.0, c[j].0) {
          if j < |c| - 1 {
            assert c[j] == init[j];
            if m.0 != init[j].0 { LessTotal(m.0, init[j].0); }
            if Less(init[j].0, m.0) { LessTransitive(init[j].0, m.0, last.0); LessAsymmetric(init[j].0, last.0); }
            else { assert init[j].0 == m.0; LessAsymmetric(m.0, last.0); }
          } else {
            LessIrreflexive(last.0);
          }
        }
        forall j | 0 <= j < |c| - 1 ensures Less(c[j].0, last.0) {
          assert c[j] == init[j];
          if m.0 != init[j].0 { LessTotal(m.0, init[j].0); LessTransitive(init[j].0, m.0, last.0); }
        }
        assert c[|c| - 1] == MaxByDate(c);
      } else {
        assert c[i] == init[i];
        forall j | 0 <= j < |c| ensures !Less(m.0, c[j].0) {
          if j < |c| - 1 { assert c[j] == init[j]; }
        }
        forall j | 0 <= j < i ensures Less(c[j].0, m.0) {
          assert c[j] == init[j];
        }
      }
    }
  }

  /** Every pair of `files_with_dates` comes from a globbed name with a valid
      date prefix, and every such name contributes its pair. */
  lemma {:induction false} DatedMembers(dir: string, names: seq<string>)
    ensures forall d, path :: (d, path) in Dated(dir, names) <==>
      exists name :: name in names && Dates.IsValidDate(DatePart(name)) && d == DatePart(name) && path == PathJoin(dir, name)
    ensures Dated(dir, names) == [] <==> forall name :: name in names ==> !Dates.IsValidDate(DatePart(name))
    decreases |names|
  {
    if names != [] {
      var init := names[..|names| - 1];
      DatedMembers(dir, init);
      assert names == init + [names[|names| - 1]];
    }
  }

  /** `get_latest_json` returns `None` exactly when no listed name matches the
      glob with a valid date prefix. */
  lemma LatestArchiveNone(dir: string, listing: seq<string>)
    ensures LatestArchive(dir, listing).None? <==> forall name :: name in listing ==> !IsDatedArchive(name)
  {
    FilterMembers(listing, MatchesArchiveGlob);
    DatedMembers(dir, Filter(listing, MatchesArchiveGlob));
  }

  /** The maximum is one of the pairs, and no pair has a later date. */
  lemma MaxByDateIsMaximum(c: seq<(string, string)>)
    requires c != []
    ensures MaxByDate(c) in c
    ensures forall j :: 0 <= j < |c| ==> !Less(MaxByDate(c).0, c[j].0)
  {
    MaxByDateIsFirstMaximum(c);
  }

  /** A name the archive lookup considers: it matches the glob and starts with a valid date. */
  predicate IsDatedArchive(name: string) {
    MatchesArchiveGlob(name) && Dates.IsValidDate(DatePart(name))
  }

  /** The pair `max` picks from `files_with_dates` comes from a name with the
      latest date. */
  lemma MaxOfDated(dir: string, names: seq<string>)
    requires Dated(dir, names) != []
    ensures exists name :: (name in names && Dates.IsValidDate(DatePart(name)) &&
      MaxByDate(Dated(dir, names)) == (DatePart(name), PathJoin(dir, name)) &&
      forall other :: other in names && Dates.IsValidDate(DatePart(other)) ==> !Dates.Before(DatePart(name), DatePart(other)))
  {
    var c := Dated(dir, names);
    DatedMembers(dir, names);
    MaxByDateIsMaximum(c);
    var m := MaxByDate(c);
    assert (m.0, m.1) in c;
    var name :| name in names && Dates.IsValidDate(DatePart(name)) && m.0 == DatePart(name) && m.1 == PathJoin(dir, name);
    forall other | other in names && Dates.IsValidDate(DatePart(other))
      ensures !Dates.Before(DatePart(name), DatePart(other))
    {
      var pair := (DatePart(other), PathJoin(dir, other));
      assert pair in c;
      var j :| 0 <= j < |c| && c[j] == pair;
      assert !Less(m.0, pair.0);
      Dates.DateStringOrder(DatePart(name), DatePart(other));
    }
  }

  /** Otherwise it returns the path of such a name whose date is not before
      any other such name's date. */
  lemma LatestArchiveIsLatest(dir: string, listing: seq<string>)
    requires LatestArchive(dir, listing).Some?
    ensures exists name :: (name in listing && IsDatedArchive(name) &&
      LatestArchive(dir, listing) == Some(PathJoin(dir, name)) &&
      forall other :: other in listing && IsDatedArchive(other) ==> !Dates.Before(DatePart(name), DatePart(other)))
  {
    var globbed := Filter(listing, MatchesArchiveGlob);
    FilterMembers(listing, MatchesArchiveGlob);
    MaxOfDated(dir, globbed);
    var name :| name in globbed && Dates.IsValidDate(DatePart(name)) &&
      MaxByDate(Dated(dir, globbed)) == (DatePart(name), PathJoin(dir, name)) &&
      forall other :: other in globbed && Dates.IsValidDate(DatePart(other)) ==> !Dates.Before(DatePart(name), DatePart(other));
    assert name in listing && IsDatedArchive(name);
  }

  /** `get_latest_json`, parameterised by the directory it lists. */
  method GetLatest(dir: string, listing: seq<string>) returns (latest: Option<string>)
    ensures latest == LatestArchive(dir, listing)
  {
    var jsonFiles := Filter(listing, MatchesArchiveGlob);
    if jsonFiles == [] {
      return None;
    }
    var filesWithDates: seq<(string, string)> := [];
    for i := 0 to |jsonFiles|
      invariant filesWithDates == Dated(dir, jsonFiles[..i])
    {
      var datePart := Split(jsonFiles[i], '_')[0];
      if Dates.IsValidDate(datePart) {
        filesWithDates := filesWithDates + [(datePart, PathJoin(dir, jsonFiles[i]))];
      }
      assert jsonFiles[..i + 1][..i] == jsonFiles[..i];
    }
    assert jsonFiles[..|jsonFiles|] == jsonFiles;
    if filesWithDates == [] {
      return None;
    }
    var best := filesWithDates[0];
    for k := 1 to |filesWithDates|
      invariant best == MaxByDate(filesWithDates[..k])
    {
      if Less(best.0, filesWithDates[k].0) {
        best := filesWithDates[k];
      }
      assert filesWithDates[..k + 1][..k] == filesWithDates[..k];
    }
    assert filesWithDates[..|filesWithDates|] == filesWithDates;
    return Some(best.1);
  }

  /** `get_latest_json()`: the latest archive under results/. */
  method GetLatestJson(listing: seq<string>) returns (latest: Option<string>)
    ensures latest == LatestArchive(ResultsDir, listing)
  {
    latest := GetLatest(ResultsDir, listing);
  }

  /** `get_latest_json_agent()`: the latest archive under results_agent/. */
  method GetLatestJsonAgent(listing: seq<string>) returns (latest: Option<string>)
    ensures latest == LatestArchive(ResultsDirAgent, listing)
  {
    latest := GetLatest(ResultsDirAgent, listing);
  }

  // =====================================================================
  // filter_duplicates, once the archive and the database are loaded
  // =====================================================================

  /** The result of looking for and reading a historical file. */
  datatype Load = Missing | Failed | Loaded(records: seq<Record>)

  /** `{paper.get("pub_date", "") for paper in old_results}`. */
  function PubDates(records: seq<Record>): set<Value> {
    set p | p in records :: Field(p, "pub_date", Str(""))
  }

  /** Building the set `old_dates` hashes every `pub_date`: a list or an
      object there raises `TypeError`. */
  predicate HashableDates(records: seq<Record>) {
    forall p :: p in records ==> !Field(p, "pub_date", Str("")).Arr? && !Field(p, "pub_date", Str("")).Obj?
  }

  /** The decision of `filter_duplicates` given the latest archive and the
      database, once `old_dates` could be built (see `HashableDates`). */
  function FilterLoaded(newResults: seq<Record>, archive: Load, database: Load, today: string, yesterday: string): (r: seq<Record>)
    ensures IsSubseq(r, newResults)
    ensures forall p :: p in newResults && NormalizeKey(p) == "" ==> p in r
    ensures !archive.Loaded? ==> r == newResults
    ensures archive.Loaded? && Str(today) in PubDates(archive.records) ==> r == newResults
    ensures archive.Loaded? && Str(today) !in PubDates(archive.records) && Str(yesterday) in PubDates(archive.records) ==>
      DropsMatches(r, newResults, archive.records, NormalizeKey)
    ensures archive.Loaded? && Str(today) !in PubDates(archive.records) && Str(yesterday) !in PubDates(archive.records) ==>
      (if database.Loaded? then DropsMatches(r, newResults, database.records, NormalizeKey) else r == newResults)
  {
    SubseqRefl(newResults);
    match archive
    case Missing => newResults
    case Failed => newResults
    case Loaded(oldResults) =>
      var oldDates := PubDates(oldResults);
      if Str(today) in oldDates then newResults
      else if Str(yesterday) in oldDates then
        UnmatchedDropsMatches(newResults, oldResults, NormalizeKey);
        UnkeyedSurvive(Unmatched(newResults, KeySet(oldResults, NormalizeKey), NormalizeKey), newResults, oldResults, NormalizeKey);
        Unmatched(newResults, KeySet(oldResults, NormalizeKey), NormalizeKey)
      else match database
        case Loaded(dbData) =>
          UnmatchedDropsMatches(newResults, dbData, NormalizeKey);
          UnkeyedSurvive(Unmatched(newResults, KeySet(dbData, NormalizeKey), NormalizeKey), newResults, dbData, NormalizeKey);
          Unmatched(newResults, KeySet(dbData, NormalizeKey), NormalizeKey)
        case _ => newResults
  }

  /** The database fallback on a small example: a DOI that differs only in
      letter case is a match, a record keyed by its title is kept. */
  lemma DatabaseFallbackExample()
    ensures var a := map["doi" := Str("10.1/X"), "title" := Str("A")];
            var b := map["doi" := Str(""), "link" := Str(""), "title" := Str("B")];
            var db := [map["doi" := Str("10.1/x")]];
            FilterLoaded([a, b], Loaded([]), Loaded(db), "2025-01-02", "2025-01-01") == [b]
  {
    ExampleKeys();
    FallbackOnKeys(map["doi" := Str("10.1/X"), "title" := Str("A")],
                   map["doi" := Str(""), "link" := Str(""), "title" := Str("B")],
                   map["doi" := Str("10.1/x")]);
  }

  lemma FallbackOnKeys(a: Record, b: Record, d: Record)
    requires NormalizeKey(a) == NormalizeKey(d) == "10.1/x" && NormalizeKey(b) == "b"
    ensures FilterLoaded([a, b], Loaded([]), Loaded([d]), "2025-01-02", "2025-01-01") == [b]
  {
    assert FilterLoaded([a, b], Loaded([]), Loaded([d]), "2025-01-02", "2025-01-01")
        == Unmatched([a, b], KeySet([d], NormalizeKey), NormalizeKey) by {
      assert PubDates([]) == {};
    }
    assert KeySet([d], NormalizeKey) == {"10.1/x"};
    ExampleFilter(a, b);
  }

  lemma ExampleFilter(a: Record, b: Record)
    requires NormalizeKey(a) == "10.1/x" && NormalizeKey(b) == "b"
    ensures Unmatched([a, b], {"10.1/x"}, NormalizeKey) == [b]
  {
    assert [a, b][..1] == [a];
    assert [a][..0] == [];
    assert Unmatched([a], {"10.1/x"}, NormalizeKey) == [];
  }

  lemma ExampleKeys()
    ensures NormalizeKey(map["doi" := Str("10.1/X"), "title" := Str("A")]) == "10.1/x"
    ensures NormalizeKey(map["doi" := Str(""), "link" := Str(""), "title" := Str("B")]) == "b"
    ensures NormalizeKey(map["doi" := Str("10.1/x")]) == "10.1/x"
  {
    assert LStrip("10.1/X") == "10.1/X" && RStrip("10.1/X") == "10.1/X";
    assert Lower("10.1/X") == "10.1/x";
    assert LStrip("10.1/x") == "10.1/x" && RStrip("10.1/x") == "10.1/x";
    assert Lower("10.1/x") == "10.1/x";
    assert LStrip("B") == "B" && RStrip("B") == "B" && Lower("B") == "b";
    assert Norm("") == "";
  }

  // =====================================================================
  // save_results_to_json: the same-day archive append
  // =====================================================================

  predicate IsTodayArchive(name: string, today: string, prefix: string) {
    StartsWith(name, today) && EndsWith(name, prefix + ".json")
  }

  /** The first listed name that is today's archive for this prefix. */
  function TodayArchive(listing: seq<string>, today: string, prefix: string): (found: Option<string>)
    ensures found.Some? ==> exists i :: (0 <= i < |listing| && listing[i] == found.value &&
      IsTodayArchive(listing[i], today, prefix) &&
      forall j :: 0 <= j < i ==> !IsTodayArchive(listing[j], today, prefix))
    ensures found.None? ==> forall name :: name in listing ==> !IsTodayArchive(name, today, prefix)
  {
    if listing == [] then None
    else if IsTodayArchive(listing[0], today, prefix) then Some(listing[0])
    else TodayArchive(listing[1..], today, prefix)
  }

  /** The file `save_results_to_json` reads and rewrites: today's existing
      archive, or a new `<today>_<prefix>.json`. */
  function ArchiveTarget(outputDir: string, listing: seq<string>, today: string, prefix: string): string {
    match TodayArchive(listing, today, prefix)
    case Some(name) => PathJoin(outputDir, name)
    case None => PathJoin(outputDir, today + "_" + prefix + ".json")
  }

  /** The candidates that are new against the archive's current contents. */
  function NewForArchive(previous: seq<Record>, data: seq<Record>): seq<Record> {
    Unmatched(data, KeySet(previous, NormalizeKey), NormalizeKey)
  }

  /** The rewritten archive keeps its old contents as a prefix and appends
      exactly the candidates whose key it does not hold yet; records without a
      key are always appended, and repeats inside the batch are not removed. */
  lemma ArchiveAppendSpec(previous: seq<Record>, data: seq<Record>)
    ensures var merged := previous + NewForArchive(previous, data);
      merged[..|previous|] == previous &&
      DropsMatches(merged[|previous|..], data, previous, NormalizeKey) &&
      (forall p :: p in data && NormalizeKey(p) == "" ==> p in merged[|previous|..])
  {
    var added := NewForArchive(previous, data);
    var merged := previous + added;
    assert merged[..|previous|] == previous;
    assert merged[|previous|..] == added;
    UnmatchedDropsMatches(data, previous, NormalizeKey);
    UnkeyedSurvive(added, data, previous, NormalizeKey);
  }

  // =====================================================================
  // save_results_to_database: the cumulative database merge
  // =====================================================================

  /** The summary `save_results_to_database` stores for a new paper: its
      title, "Untitled" when the key is absent, and its DOI, else its link,
      else "" when those keys are absent. */
  function Summary(p: Record): Record {
    map["title" := Field(p, "title", Str("Untitled")), "doi" := Field(p, "doi", Field(p, "link", Str("")))]
  }

  /** The dict `save_results_to_database` builds: the database keyed by
      identity, then a summary for every result with a new key. */
  function MergedIndex(db: seq<Record>, results: seq<Record>): (d: Index<Record>)
    ensures d.Valid()
  {
    AddSummaries(IndexByKey(db, NormalizeKey), results, NormalizeKey, Summary)
  }

  /** The list that `save_results_to_database` writes back to the database. */
  function MergedDatabase(db: seq<Record>, results: seq<Record>): seq<Record> {
    MergedIndex(db, results).Values()
  }

  /** The rewritten database has one entry for every non-empty key of the old
      database or of the results and for no other key: old entries with an
      empty key are dropped, and so are old entries repeating a key. */
  lemma MergedKeys(db: seq<Record>, results: seq<Record>)
    ensures MergedIndex(db, results).entries.Keys == KeySet(db, NormalizeKey) + KeySet(results, NormalizeKey)
    ensures |MergedDatabase(db, results)| == |KeySet(db, NormalizeKey) + KeySet(results, NormalizeKey)|
  {
    IndexByKeySpec(db, NormalizeKey);
    AddSummariesKeys(IndexByKey(db, NormalizeKey), results, NormalizeKey, Summary);
    ValuesCount(MergedIndex(db, results));
  }

  /** An old key keeps the last old entry with that key, untouched by the results. */
  lemma MergedKeepsOld(db: seq<Record>, results: seq<Record>)
    ensures forall k :: k in KeySet(db, NormalizeKey) ==> (k in MergedIndex(db, results).entries &&
      exists i :: (0 <= i < |db| && db[i] == MergedIndex(db, results).entries[k] && NormalizeKey(db[i]) == k &&
        forall j :: i < j < |db| ==> NormalizeKey(db[j]) != k))
  {
    IndexByKeySpec(db, NormalizeKey);
    AddSummariesKeepsEntries(IndexByKey(db, NormalizeKey), results, NormalizeKey, Summary);
  }

  /** A new key holds the summary of the first result with that key. */
  lemma MergedAddsFirstSummary(db: seq<Record>, results: seq<Record>)
    ensures forall k :: k in KeySet(results, NormalizeKey) && k !in KeySet(db, NormalizeKey) ==>
      (k in MergedIndex(db, results).entries && exists i :: (0 <= i < |results| && NormalizeKey(results[i]) == k &&
        MergedIndex(db, results).entries[k] == Summary(results[i]) &&
        forall j :: 0 <= j < i ==> NormalizeKey(results[j]) != k))
  {
    IndexByKeySpec(db, NormalizeKey);
    AddSummariesKeys(IndexByKey(db, NormalizeKey), results, NormalizeKey, Summary);
    AddSummariesNewEntries(IndexByKey(db, NormalizeKey), results, NormalizeKey, Summary);
  }

  /** The old entries come first, in their old order; the new summaries follow. */
  lemma MergedOldFirst(db: seq<Record>, results: seq<Record>)
    ensures var previous := IndexByKey(db, NormalizeKey).Values();
      |previous| <= |MergedDatabase(db, results)| && MergedDatabase(db, results)[..|previous|] == previous
  {
    var d0 := IndexByKey(db, NormalizeKey);
    var d := MergedIndex(db, results);
    AddSummariesOrder(d0, results, NormalizeKey, Summary);
    AddSummariesKeepsEntries(d0, results, NormalizeKey, Summary);
    var vs := d.Values();
    forall i | 0 <= i < |d0.order| ensures vs[i] == d0.Values()[i] {
      assert d.order[i] == d.order[..|d0.order|][i] == d0.order[i];
    }
  }

  /** The loop of `save_results_to_database`, adding a summary for each paper
      whose non-empty key the dict does not hold yet. */
  method AddNewSummaries(d: Index<Record>, results: seq<Record>) returns (d': Index<Record>)
    requires d.Valid()
    ensures d' == AddSummaries(d, results, NormalizeKey, Summary)
  {
    d' := d;
    for i := 0 to |results|
      invariant d' == AddSummaries(d, results[..i], NormalizeKey, Summary)
    {
      var paper := results[i];
      var key := NormalizeKey(paper);
      assert results[..i + 1][..i] == results[..i];
      if key != "" && key !in d'.entries {
        d' := d'.Put(key, Summary(paper));
      }
    }
    assert results[..|results|] == results;
  }

  // =====================================================================
  // The file store
  // =====================================================================

  /** What a path holds: a JSON list of records, or content that `open` or
      `json.load` rejects. */
  datatype FileState = Unreadable | Records(items: seq<Record>)

  class Store {
    var files: map<string, FileState>

    constructor (files0: map<string, FileState>)
      ensures files == files0
    {
      files := files0;
    }

    /** Opening and parsing a file found by the latest-archive lookup. */
    function ReadArchive(path: Option<string>): Load
      reads this
    {
      match path
      case None => Missing
      case Some(p) => if p in files && files[p].Records? then Loaded(files[p].items) else Failed
    }

    /** `os.path.exists(db_path)` followed by opening and parsing it. */
    function ReadDatabase(path: string): Load
      reads this
    {
      if path !in files then Missing
      else match files[path]
        case Unreadable => Failed
        case Records(items) => Loaded(items)
    }

    /** The records of today's existing archive as `save_results_to_json` loads
        them: [] when there is none or it cannot be read. */
    function ExistingArchive(outputDir: string, listing: seq<string>, today: string, prefix: string): seq<Record>
      reads this
    {
      match TodayArchive(listing, today, prefix)
      case None => []
      case Some(name) =>
        var p := PathJoin(outputDir, name);
        if p in files && files[p].Records? then files[p].items else []
    }

    /** `load_database`: [] when the file does not exist; a read or parse
        failure propagates. */
    method LoadDatabase(dbDir: string, dbFile: string) returns (o: Outcome<seq<Record>>)
      ensures var path := PathJoin(dbDir, dbFile);
        o == if path !in files then Done([])
             else if files[path].Unreadable? then Raised
             else Done(files[path].items)
    {
      var path := PathJoin(dbDir, dbFile);
      if path !in files {
        return Done([]);
      }
      match files[path]
      case Unreadable => return Raised;
      case Records(items) => return Done(items);
    }

    /** `open(path, "w")` followed by `json.dump(data, f)`: the list replaces
        the file; a failed write propagates. */
    method WriteRecords(path: string, data: seq<Record>, canWrite: bool) returns (o: Outcome<()>)
      modifies this
      ensures canWrite ==> o == Done(()) && files == old(files)[path := Records(data)]
      ensures !canWrite ==> o == Raised && files == old(files)
    {
      if !canWrite {
        return Raised;
      }
      files := files[path := Records(data)];
      return Done(());
    }

    /** `save_database`: the whole list replaces the database file. */
    method SaveDatabase(data: seq<Record>, dbDir: string, dbFile: string, canWrite: bool) returns (o: Outcome<()>)
      modifies this
      ensures canWrite ==> o == Done(()) && files == old(files)[PathJoin(dbDir, dbFile) := Records(data)]
      ensures !canWrite ==> o == Raised && files == old(files)
    {
      o := WriteRecords(PathJoin(dbDir, dbFile), data, canWrite);
    }

    /** `filter_duplicates`: look up the latest archive under results/, read it
        and, when needed, the database, and filter the new results. */
    method FilterDuplicates(newResults: seq<Record>, listing: seq<string>, dbDir: string, dbFile: string,
                            today: string, yesterday: string) returns (o: Outcome<seq<Record>>)
      ensures var archive := ReadArchive(LatestArchive(ResultsDir, listing));
        if archive.Loaded? && !HashableDates(archive.records) then o == Raised
        else o == Done(FilterLoaded(newResults, archive, ReadDatabase(PathJoin(dbDir, dbFile)), today, yesterday))
      ensures o.Done? ==> IsSubseq(o.value, newResults)
    {
      var latestFile := GetLatestJson(listing);
      var archive := ReadArchive(latestFile);
      if archive.Loaded? && !HashableDates(archive.records) {
        return Raised;
      }
      var database := ReadDatabase(PathJoin(dbDir, dbFile));
      o := Done(FilterLoaded(newResults, archive, database, today, yesterday));
    }

    /** `save_results_to_json`: append the new candidates to today's archive for
        this prefix (creating it if needed) and return its path; nothing is
        written when no candidate is new, and `None` is returned when the write fails. */
    method SaveResultsToJson(data: seq<Record>, outputDir: string, prefix: string, listing: seq<string>,
                             today: string, canWrite: bool) returns (path: Option<string>)
      modifies this
      ensures var target := ArchiveTarget(outputDir, listing, today, prefix);
        var previous := old(ExistingArchive(outputDir, listing, today, prefix));
        var added := NewForArchive(previous, data);
        if added == [] then path == Some(target) && files == old(files)
        else if canWrite then path == Some(target) && files == old(files)[target := Records(previous + added)]
        else path == None && files == old(files)
    {
      var existingFile: Option<string> := None;
      var i := 0;
      while i < |listing|
        invariant 0 <= i <= |listing|
        invariant TodayArchive(listing, today, prefix) == TodayArchive(listing[i..], today, prefix)
      {
        if IsTodayArchive(listing[i], today, prefix) {
          existingFile := Some(PathJoin(outputDir, listing[i]));
          break;
        }
        assert listing[i..][1..] == listing[i + 1..];
        i := i + 1;
      }
      var mergedData: seq<Record> := [];
      var target: string;
      if existingFile.Some? {
        target := existingFile.value;
        if target in files && files[target].Records? {
          mergedData := files[target].items;
        }
      } else {
        assert listing[i..] == [];
        target := PathJoin(outputDir, today + "_" + prefix + ".json");
      }
      var existingKeys := KeySet(mergedData, NormalizeKey);
      var newFiltered := Unmatched(data, existingKeys, NormalizeKey);
      if newFiltered == [] {
        return Some(target);
      }
      mergedData := mergedData + newFiltered;
      if !canWrite {
        return None;
      }
      files := files[target := Records(mergedData)];
      return Some(target);
    }

    /** `save_results_to_database`: merge the papers of a result file into the
        database and rewrite it. Returns `false` without touching anything when
        the result file is missing or unreadable; an unreadable database or a
        failed write propagates as an exception. */
    method SaveResultsToDatabase(resultFile: string, dbDir: string, dbFile: string, canWrite: bool)
      returns (o: Outcome<bool>)
      modifies this
      ensures resultFile !in old(files) || old(files)[resultFile].Unreadable? ==>
        o == Done(false) && files == old(files)
      ensures resultFile in old(files) && old(files)[resultFile].Records? ==>
        var dbPath := PathJoin(dbDir, dbFile);
        if dbPath in old(files) && old(files)[dbPath].Unreadable? then o == Raised && files == old(files)
        else
          var dbData := if dbPath in old(files) then old(files)[dbPath].items else [];
          if canWrite then o == Done(true) && files == old(files)[dbPath := Records(MergedDatabase(dbData, old(files)[resultFile].items))]
          else o == Raised && files == old(files)
    {
      if resultFile !in files {
        return Done(false);
      }
      if files[resultFile].Unreadable? {
        return Done(false);
      }
      var results := files[resultFile].items;
      var loaded := LoadDatabase(dbDir, dbFile);
      if loaded.Raised? {
        return Raised;
      }
      var dbDict := AddNewSummaries(IndexByKey(loaded.value, NormalizeKey), results);
      var saved := SaveDatabase(dbDict.Values(), dbDir, dbFile, canWrite);
      if saved.Raised? {
        return Raised;
      }
      return Done(true);
    }
  }
}

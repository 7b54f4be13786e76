/** search_api.py once the responses are fetched and parsed: the OpenAlex
    abstract decoder, the per-source record mappings, and the triple-key
    dedup of `merge_and_save`.

    A response is either a failed request or a parsed body holding the list
    of raw items (`None` when the body lacks it). Raw items are typed: a field
    the code reads with `.get` is an `Option`, `None` standing for the absent
    key. */
module SearchApi {
  import opened Text
  import opened Json
  import opened Seqs
  import Utils

  /** A request that raised `RequestException`, or the items of a parsed body. */
  datatype Response<T> = RequestFailed(reason: string) | Body(items: Option<seq<T>>)

  const NotAvailable := "Not Available"

  /** `", ".join(names) if names else "Not Available"`. */
  function AuthorsString(names: seq<string>): string {
    if names == [] then NotAvailable else Join(names, ", ")
  }

  // =====================================================================
  // decode_openalex_abstract
  // =====================================================================

  /** An `abstract_inverted_index`: each word with the positions it occurs at,
      in the dict's order. */
  type InvertedIndex = seq<(string, seq<int>)>

  /** The `(pos, word)` pairs of one entry. */
  function PositionsOf(entry: (string, seq<int>)): seq<(int, string)> {
    seq(|entry.1|, k requires 0 <= k < |entry.1| => (entry.1[k], entry.0))
  }

  /** `[(pos, word) for word, positions in index.items() for pos in positions]`. */
  function Pairs(index: InvertedIndex): seq<(int, string)>
    decreases |index|
  {
    if index == [] then [] else Pairs(index[..|index| - 1]) + PositionsOf(index[|index| - 1])
  }

  /** The number of positions listed across all entries. */
  function TotalPositions(index: InvertedIndex): nat
    decreases |index|
  {
    if index == [] then 0 else TotalPositions(index[..|index| - 1]) + |index[|index| - 1].1|
  }

  /** Python's tuple order on `(pos, word)`. */
  predicate PairLess(a: (int, string), b: (int, string)) {
    a.0 < b.0 || (a.0 == b.0 && Less(a.1, b.1))
  }

  predicate SortedPairs(s: seq<(int, string)>) {
    forall i, j :: 0 <= i < j < |s| ==> !PairLess(s[j], s[i])
  }

  lemma PairLessAsymmetric(a: (int, string), b: (int, string))
    requires PairLess(a, b)
    ensures !PairLess(b, a)
  {
    if a.0 == b.0 { LessAsymmetric(a.1, b.1); }
  }

  lemma PairLessTotal(a: (int, string), b: (int, string))
    requires a != b
    ensures PairLess(a, b) || PairLess(b, a)
  {
    if a.0 == b.0 { LessTotal(a.1, b.1); }
  }

  /** "Not after" is transitive. */
  lemma PairLeqTransitive(a: (int, string), b: (int, string), c: (int, string))
    requires !PairLess(b, a) && !PairLess(c, b)
    ensures !PairLess(c, a)
  {
    if a != b && b != c {
      PairLessTotal(a, b);
      PairLessTotal(b, c);
      if a.0 == b.0 && b.0 == c.0 { LessTransitive(a.1, b.1, c.1); }
      PairLessAsymmetric(a, c);
    }
  }

  lemma InsertBehind(x: (int, string), s: seq<(int, string)>, rest: seq<(int, string)>)
    requires s != [] && SortedPairs(s) && PairLess(s[0], x)
    requires SortedPairs(rest) && multiset(rest) == multiset(s[1..]) + multiset{x}
    ensures SortedPairs([s[0]] + rest) && multiset([s[0]] + rest) == multiset(s) + multiset{x}
  {
    forall j | 0 <= j < |rest| ensures !PairLess(rest[j], s[0]) {
      assert rest[j] in multiset(rest);
      if rest[j] == x {
        PairLessAsymmetric(s[0], x);
      } else {
        assert rest[j] in s[1..];
        var k :| 0 <= k < |s[1..]| && s[1..][k] == rest[j];
        assert s[k + 1] == rest[j];
      }
    }
    var r := [s[0]] + rest;
    forall i, j | 0 <= i < j < |r| ensures !PairLess(r[j], r[i]) {
      if i > 0 { assert r[i] == rest[i - 1] && r[j] == rest[j - 1]; } else { assert r[j] == rest[j - 1]; }
    }
    assert s == [s[0]] + s[1..];
  }

  lemma InsertInFront(x: (int, string), s: seq<(int, string)>)
    requires SortedPairs(s) && (s == [] || !PairLess(s[0], x))
    ensures SortedPairs([x] + s)
  {
    var r := [x] + s;
    forall i, j | 0 <= i < j < |r| ensures !PairLess(r[j], r[i]) {
      if i == 0 {
        assert r[j] == s[j - 1];
        if j > 1 { PairLeqTransitive(x, s[0], s[j - 1]); }
      } else {
        assert r[i] == s[i - 1] && r[j] == s[j - 1];
      }
    }
  }

  /** Insert one pair into a sorted list. */
  function Insert(x: (int, string), s: seq<(int, string)>): (r: seq<(int, string)>)
    requires SortedPairs(s)
    ensures SortedPairs(r) && multiset(r) == multiset(s) + multiset{x}
    decreases |s|
  {
    if s == [] then [x]
    else if PairLess(s[0], x) then
      var rest := Insert(x, s[1..]);
      InsertBehind(x, s, rest);
      [s[0]] + rest
    else
      InsertInFront(x, s);
      [x] + s
  }

  /** `sorted(pairs)`: the pairs in ascending (position, word) order. */
  function SortPairs(s: seq<(int, string)>): (r: seq<(int, string)>)
    ensures SortedPairs(r) && multiset(r) == multiset(s)
    decreases |s|
  {
    if s == [] then []
    else
      assert s == [s[0]] + s[1..];
      Insert(s[0], SortPairs(s[1..]))
  }

  /** Two sorted arrangements of one multiset start with the same pair. */
  lemma SortedHeads(a: seq<(int, string)>, b: seq<(int, string)>)
    requires a != [] && b != []
    requires SortedPairs(a) && SortedPairs(b) && multiset(a) == multiset(b)
    ensures a[0] == b[0]
  {
    assert a[0] in multiset(b) && b[0] in multiset(a);
    var j :| 0 <= j < |b| && b[j] == a[0];
    var i :| 0 <= i < |a| && a[i] == b[0];
    LessIrreflexive(a[0].1);
    LessIrreflexive(b[0].1);
    assert !PairLess(a[0], b[0]) by { if j > 0 { assert !PairLess(b[j], b[0]); } }
    assert !PairLess(b[0], a[0]) by { if i > 0 { assert !PairLess(a[i], a[0]); } }
    if a[0] != b[0] { PairLessTotal(a[0], b[0]); }
  }

  lemma TailsMultiset(a: seq<(int, string)>, b: seq<(int, string)>)
    requires a != [] && b != [] && a[0] == b[0] && multiset(a) == multiset(b)
    ensures multiset(a[1..]) == multiset(b[1..])
  {
    assert a == [a[0]] + a[1..] && b == [b[0]] + b[1..];
    assert multiset(a[1..]) == multiset(a) - multiset{a[0]};
    assert multiset(b[1..]) == multiset(b) - multiset{b[0]};
  }

  /** There is only one sorted arrangement of a multiset of pairs: whatever
      algorithm `sorted` uses, its result is the one `SortPairs` computes. */
  lemma {:induction false} SortedUnique(a: seq<(int, string)>, b: seq<(int, string)>)
    requires SortedPairs(a) && SortedPairs(b) && multiset(a) == multiset(b)
    ensures a == b
    decreases |a|
  {
    assert |a| == |multiset(a)| == |multiset(b)| == |b|;
    if a != [] {
      SortedHeads(a, b);
      TailsMultiset(a, b);
      SortedUnique(a[1..], b[1..]);
      assert a == [a[0]] + a[1..] && b == [b[0]] + b[1..];
    }
  }

  /** The words of a list of pairs, in order. */
  function Words(ps: seq<(int, string)>): (ws: seq<string>)
    ensures |ws| == |ps|
  {
    seq(|ps|, k requires 0 <= k < |ps| => ps[k].1)
  }

  /** `decode_openalex_abstract`. */
  function DecodeAbstract(index: Option<InvertedIndex>): string {
    match index
    case None => NotAvailable
    case Some(entries) =>
      if entries == [] then NotAvailable else Join(Words(SortPairs(Pairs(entries))), " ")
  }

  lemma {:induction false} PairsLength(index: InvertedIndex)
    ensures |Pairs(index)| == TotalPositions(index)
    decreases |index|
  {
    if index != [] { PairsLength(index[..|index| - 1]); }
  }

  /** Each pair is a word of the index with one of its positions. */
  lemma {:induction false} PairsMembers(index: InvertedIndex)
    ensures forall p :: p in Pairs(index) ==> exists e :: e in index && e.0 == p.1 && p.0 in e.1
    decreases |index|
  {
    if index != [] {
      var init := index[..|index| - 1];
      var last := index[|index| - 1];
      PairsMembers(init);
      forall p | p in Pairs(index) ensures exists e :: e in index && e.0 == p.1 && p.0 in e.1 {
        if p in Pairs(init) {
          var e :| e in init && e.0 == p.1 && p.0 in e.1;
          assert e in index;
        } else {
          assert p in PositionsOf(last);
          var k :| 0 <= k < |last.1| && PositionsOf(last)[k] == p;
          assert last.1[k] == p.0;
        }
      }
    }
  }

  /** A missing or empty index decodes to "Not Available"; otherwise, when no
      word contains a space, splitting the abstract at spaces gives back one
      word per listed position, in the order of any sorting of the
      (position, word) pairs. */
  lemma DecodeAbstractWords(index: Option<InvertedIndex>)
    ensures index.None? || index.value == [] ==> DecodeAbstract(index) == NotAvailable
    ensures (index.Some? && index.value != [] && TotalPositions(index.value) >= 1 &&
      (forall e :: e in index.value ==> ' ' !in e.0)) ==>
      |Split(DecodeAbstract(index), ' ')| == TotalPositions(index.value) &&
      forall ps :: SortedPairs(ps) && multiset(ps) == multiset(Pairs(index.value)) ==>
        Split(DecodeAbstract(index), ' ') == Words(ps)
  {
    if index.Some? && index.value != [] && TotalPositions(index.value) >= 1 &&
      (forall e :: e in index.value ==> ' ' !in e.0)
    {
      var entries := index.value;
      var sorted := SortPairs(Pairs(entries));
      var ws := Words(sorted);
      PairsLength(entries);
      PairsMembers(entries);
      forall k | 0 <= k < |ws| ensures ' ' !in ws[k] {
        assert sorted[k] in multiset(Pairs(entries));
        assert sorted[k] in Pairs(entries);
      }
      SplitJoin(ws, ' ');
      forall ps | SortedPairs(ps) && multiset(ps) == multiset(Pairs(entries))
        ensures Split(DecodeAbstract(index), ' ') == Words(ps)
      {
        SortedUnique(ps, sorted);
      }
    }
  }

  /** An index that is non-empty but lists no position is truthy, so it
      decodes to the empty abstract rather than "Not Available". */
  lemma DecodeWithoutPositions(entries: InvertedIndex)
    requires entries != [] && TotalPositions(entries) == 0
    ensures DecodeAbstract(Some(entries)) == ""
  {
    PairsLength(entries);
  }

  // =====================================================================
  // search_openalex
  // =====================================================================

  /** An authorship, with `a["author"]["display_name"]` when it has an author. */
  datatype Authorship = Authorship(author: Option<string>)

  datatype OpenAlexItem = OpenAlexItem(
    title: Option<Value>,
    abstractIndex: Option<InvertedIndex>,
    authorships: Option<seq<Authorship>>,
    /** `primary_location.landing_page_url`; `None` when either key is absent. */
    landingPage: Option<Value>,
    citedByCount: Option<Value>,
    /** `open_access.status`; `None` when either key is absent. */
    openAccessStatus: Option<Value>,
    publicationDate: Option<Value>)

  /** `[a["author"]["display_name"] for a in authorships if "author" in a]`. */
  function OpenAlexAuthors(authorships: seq<Authorship>): seq<string>
    decreases |authorships|
  {
    if authorships == [] then []
    else
      var init := OpenAlexAuthors(authorships[..|authorships| - 1]);
      match authorships[|authorships| - 1].author
      case Some(name) => init + [name]
      case None => init
  }

  /** The decoded abstract with newlines replaced and surrounding whitespace
      stripped, when it is non-empty. */
  function OpenAlexAbstract(index: Option<InvertedIndex>): string {
    var a := DecodeAbstract(index);
    if a != "" then Strip(ReplaceNewlines(a)) else a
  }

  /** The record `search_openalex` builds from one item. */
  function OpenAlexRecord(item: OpenAlexItem): Record {
    map[
      "source" := Str("OpenAlex"),
      "title" := GetOr(item.title, Str("No title")),
      "abstract" := Str(OpenAlexAbstract(item.abstractIndex)),
      "authors" := Str(AuthorsString(OpenAlexAuthors(GetOr(item.authorships, [])))),
      "link" := GetOr(item.landingPage, Str(NotAvailable)),
      "citations" := GetOr(item.citedByCount, Num(0)),
      "status" := GetOr(item.openAccessStatus, Str(NotAvailable)),
      "pub_date" := GetOr(item.publicationDate, Str(NotAvailable))]
  }

  /** An OpenAlex abstract holds no newline and no surrounding whitespace, and
      is "Not Available" when the item has no inverted index. */
  lemma OpenAlexAbstractClean(index: Option<InvertedIndex>)
    ensures var a := OpenAlexAbstract(index);
      '\n' !in a && (a == [] || (!IsSpace(a[0]) && !IsSpace(a[|a| - 1]))) &&
      (index.None? || index.value == [] ==> a == NotAvailable)
  {
    var d := DecodeAbstract(index);
    if d != "" {
      StripKeepsOnly(ReplaceNewlines(d));
      StripSpec(ReplaceNewlines(d));
    }
    if index.None? || index.value == [] {
      assert ReplaceNewlines(NotAvailable) == NotAvailable;
      assert LStrip(NotAvailable) == NotAvailable;
      assert RStrip(NotAvailable) == NotAvailable;
    }
  }

  // =====================================================================
  // search_semantic_scholar
  // =====================================================================

  datatype SemanticScholarItem = SemanticScholarItem(
    title: Option<Value>,
    abstractText: Option<Value>,
    /** `[a["name"] for a in item["authors"]]`. */
    authorNames: Option<seq<string>>,
    url: Option<Value>,
    citationCount: Option<Value>,
    year: Option<Scalar>)

  /** The record `search_semantic_scholar` builds from one item. */
  function SemanticScholarRecord(item: SemanticScholarItem): Record {
    var abstractText := GetOr(item.abstractText, Null);
    map[
      "source" := Str("Semantic Scholar"),
      "title" := GetOr(item.title, Str("No title")),
      "abstract" := if Truthy(abstractText) then abstractText else Str(NotAvailable),
      "authors" := Str(AuthorsString(GetOr(item.authorNames, []))),
      "link" := GetOr(item.url, Str(NotAvailable)),
      "citations" := GetOr(item.citationCount, Num(0)),
      "status" := Str(NotAvailable),
      "pub_date" := Str(match item.year case None => NotAvailable case Some(y) => PyStr(y))]
  }

  /** A missing, null, empty or otherwise falsy abstract becomes "Not
      Available", a truthy one is kept; the status is always "Not Available";
      the publication date is `str(year)`, so a null year gives "None". */
  lemma SemanticScholarDefaults(item: SemanticScholarItem)
    ensures var r := SemanticScholarRecord(item);
      r["status"] == Str(NotAvailable) &&
      (r["abstract"] == Str(NotAvailable) <==>
        (item.abstractText.None? || !Truthy(item.abstractText.value) || item.abstractText.value == Str(NotAvailable))) &&
      (item.year == Some(Null) ==> r["pub_date"] == Str("None")) &&
      (forall n :: n >= 0 && item.year == Some(Num(n)) ==> r["pub_date"] == Str(NatToString(n)))
  {
  }

  // =====================================================================
  // search_arxiv
  // =====================================================================

  /** The texts of an Atom `entry` element. */
  datatype ArxivEntry = ArxivEntry(title: string, summary: string, id: string, authorNames: seq<string>, published: string)

  /** The record `search_arxiv` builds from one entry. */
  function ArxivRecord(entry: ArxivEntry): Record {
    map[
      "source" := Str("arXiv"),
      "title" := Str(Strip(entry.title)),
      "abstract" := Str(Strip(entry.summary)),
      "authors" := Str(AuthorsString(entry.authorNames)),
      "link" := Str(Strip(entry.id)),
      "citations" := Str(NotAvailable),
      "status" := Str("Open Access"),
      "pub_date" := Str(Take(entry.published, 10))]
  }

  /** The publication date is the first ten characters of `published` (all
      of it when shorter); citations and status are fixed. */
  lemma ArxivRecordFields(entry: ArxivEntry)
    ensures var r := ArxivRecord(entry);
      r["pub_date"].Str? && StartsWith(entry.published, r["pub_date"].s) &&
      |r["pub_date"].s| == (if |entry.published| < 10 then |entry.published| else 10) &&
      r["citations"] == Str(NotAvailable) && r["status"] == Str("Open Access")
  {
  }

  // =====================================================================
  // search_crossref (and the same mapping in crossref_search.py)
  // =====================================================================

  /** An entry of `item["author"]`. */
  datatype CrossrefAuthor = CrossrefAuthor(given: Option<Scalar>, family: Option<Scalar>)

  datatype CrossrefItem = CrossrefItem(
    title: Option<seq<Value>>,
    abstractText: Option<Value>,
    authors: Option<seq<CrossrefAuthor>>,
    doi: Option<string>,
    /** `issued.date-parts`; `None` when either key is absent. */
    dateParts: Option<seq<seq<Option<int>>>>,
    referencedByCount: Option<Value>,
    publisher: Option<Value>)

  const DoiPrefix := "https://doi.org/"

  /** `item.get("title", ["No title"])[0]`: an empty list raises IndexError. */
  function CrossrefTitle(item: CrossrefItem): Outcome<Value> {
    match item.title
    case None => Done(Str("No title"))
    case Some(titles) => if titles == [] then Raised else Done(titles[0])
  }

  /** The abstract, cleaned when it is a non-empty string. */
  function CrossrefAbstract(item: CrossrefItem): Value {
    var a := GetOr(item.abstractText, Str(NotAvailable));
    if a.Str? && a.s != "" then Str(Strip(ReplaceNewlines(a.s))) else a
  }

  /** `f"{a.get('given', '')} {a.get('family', '')}".strip()`. */
  function FullName(a: CrossrefAuthor): string {
    Strip(PyStr(GetOr(a.given, Str(""))) + " " + PyStr(GetOr(a.family, Str(""))))
  }

  /** The full name of every author, in order. */
  function FullNames(authors: seq<CrossrefAuthor>): (names: seq<string>)
    ensures |names| == |authors|
  {
    seq(|authors|, i requires 0 <= i < |authors| => FullName(authors[i]))
  }

  /** The `authors` list the loop builds: the non-empty full names. */
  function AuthorNames(authors: seq<CrossrefAuthor>): seq<string> {
    Filter(FullNames(authors), name => name != "")
  }

  /** The loop over `item.get("author", [])`, appending each non-empty full name. */
  method CollectAuthorNames(authors: seq<CrossrefAuthor>) returns (names: seq<string>)
    ensures names == AuthorNames(authors)
  {
    names := [];
    for i := 0 to |authors|
      invariant names == AuthorNames(authors[..i])
    {
      var fullName := FullName(authors[i]);
      assert FullNames(authors[..i + 1])[..i] == FullNames(authors[..i]);
      assert FullNames(authors[..i + 1])[i] == fullName;
      if fullName != "" {
        names := names + [fullName];
      }
    }
    assert authors[..|authors|] == authors;
  }

  /** The kept names are the non-empty full names, each trimmed, in order;
      names that are empty after trimming are dropped. */
  lemma AuthorNamesSpec(authors: seq<CrossrefAuthor>)
    ensures var names := AuthorNames(authors);
      IsSubseq(names, FullNames(authors)) &&
      (forall n :: multiset(names)[n] == if n == "" then 0 else multiset(FullNames(authors))[n]) &&
      (forall n :: n in names ==> n != "" && Strip(n) == n)
  {
    var names := AuthorNames(authors);
    forall n | n in names ensures n != "" && Strip(n) == n {
      assert multiset(names)[n] > 0;
      assert n in FullNames(authors);
      var i :| 0 <= i < |authors| && FullNames(authors)[i] == n;
      FullNameTrimmed(authors[i]);
    }
  }

  lemma FullNameTrimmed(a: CrossrefAuthor)
    ensures Strip(FullName(a)) == FullName(a)
  {
    StripIdempotent(PyStr(GetOr(a.given, Str(""))) + " " + PyStr(GetOr(a.family, Str(""))));
  }

  /** `f"https://doi.org/{doi}" if doi else "Not Available"`. */
  function CrossrefLink(doi: string): string {
    if doi != "" then DoiPrefix + doi else NotAvailable
  }

  /** The link is "Not Available" exactly when the DOI is empty; otherwise the
      DOI can be read back after the resolver prefix. */
  lemma CrossrefLinkSpec(doi: string)
    ensures CrossrefLink(doi) == NotAvailable <==> doi == ""
    ensures doi != "" ==> StartsWith(CrossrefLink(doi), DoiPrefix) && CrossrefLink(doi)[|DoiPrefix|..] == doi
  {
    if doi != "" {
      assert CrossrefLink(doi)[0] == 'h';
      assert (DoiPrefix + doi)[..|DoiPrefix|] == DoiPrefix;
    }
  }

  /** `[str(p) for p in parts if p is not None]`. */
  function PresentParts(parts: seq<Option<int>>): (strs: seq<string>)
    ensures forall k :: 0 <= k < |strs| ==> strs[k] != ""
    decreases |parts|
  {
    if parts == [] then []
    else
      var init := PresentParts(parts[..|parts| - 1]);
      match parts[|parts| - 1]
      case Some(p) => init + [IntToString(p)]
      case None => init
  }

  /** `"-".join(...)` of the first `date-parts` entry; an empty `date-parts`
      list raises IndexError. */
  function CrossrefPubDate(item: CrossrefItem): Outcome<string> {
    var dateParts := GetOr(item.dateParts, [[None]]);
    if dateParts == [] then Raised else Done(Join(PresentParts(dateParts[0]), "-"))
  }

  lemma {:induction false} PresentPartsSpec(parts: seq<Option<int>>)
    ensures PresentParts(parts) == [] <==> forall k :: 0 <= k < |parts| ==> parts[k].None?
    ensures (forall k :: 0 <= k < |parts| && parts[k].Some? ==> parts[k].value >= 0) ==>
      forall k :: 0 <= k < |PresentParts(parts)| ==> '-' !in PresentParts(parts)[k]
    decreases |parts|
  {
    if parts != [] {
      var init := parts[..|parts| - 1];
      PresentPartsSpec(init);
      assert forall k :: 0 <= k < |init| ==> init[k] == parts[k];
    }
  }

  /** `pub_date` is empty exactly when no date part is present; when the
      present parts are non-negative, splitting it at "-" gives back their
      decimal strings (not zero-padded). Empty date-parts raise. */
  lemma CrossrefPubDateSpec(item: CrossrefItem)
    ensures CrossrefPubDate(item).Raised? <==> item.dateParts == Some([])
    ensures CrossrefPubDate(item).Done? ==>
      var parts := GetOr(item.dateParts, [[None]])[0];
      (CrossrefPubDate(item).value == "" <==> forall k :: 0 <= k < |parts| ==> parts[k].None?) &&
      ((forall k :: 0 <= k < |parts| && parts[k].Some? ==> parts[k].value >= 0) && PresentParts(parts) != [] ==>
        Split(CrossrefPubDate(item).value, '-') == PresentParts(parts))
  {
    if CrossrefPubDate(item).Done? {
      var parts := GetOr(item.dateParts, [[None]])[0];
      PresentPartsSpec(parts);
      var strs := PresentParts(parts);
      if strs != [] {
        JoinNonEmpty(strs, "-");
        if forall k :: 0 <= k < |parts| && parts[k].Some? ==> parts[k].value >= 0 {
          SplitJoin(strs, '-');
        }
      }
    }
  }

  lemma JoinNonEmpty(xs: seq<string>, sep: string)
    requires xs != [] && xs[0] != ""
    ensures Join(xs, sep) != ""
  {
  }

  /** A month or day below ten is not zero-padded. */
  lemma CrossrefDateUnpadded()
    ensures Join(PresentParts([Some(2025), Some(9), Some(19)]), "-") == "2025-9-19"
  {
    assert NatToString(2025) == "2025" by {
      assert NatToString(2) == "2";
      assert NatToString(20) == "20";
      assert NatToString(202) == "202";
    }
    assert NatToString(19) == "19";
    assert [Some(2025), Some(9), Some(19)][..2] == [Some(2025), Some(9)];
    assert [Some(2025), Some(9)][..1] == [Some(2025)];
    assert [Some(2025)][..0] == [];
    assert PresentParts([Some(2025), Some(9), Some(19)]) == ["2025", "9", "19"];
  }

  /** The fields both Crossref mappings share. */
  function CrossrefFields(item: CrossrefItem): Outcome<Record> {
    match CrossrefTitle(item)
    case Raised => Raised
    case Done(title) =>
      match CrossrefPubDate(item)
      case Raised => Raised
      case Done(pubDate) =>
        Done(map[
          "title" := title,
          "abstract" := CrossrefAbstract(item),
          "authors" := Str(AuthorsString(AuthorNames(GetOr(item.authors, [])))),
          "link" := Str(CrossrefLink(GetOr(item.doi, ""))),
          "citations" := GetOr(item.referencedByCount, Num(0)),
          "status" := GetOr(item.publisher, Str(NotAvailable)),
          "pub_date" := Str(pubDate)])
  }

  /** An item raises exactly when its title list or its date-parts list is empty. */
  lemma CrossrefFieldsRaise(item: CrossrefItem)
    ensures CrossrefFields(item).Raised? <==> item.title == Some([]) || item.dateParts == Some([])
  {
  }

  /** The record `search_crossref` builds from one item. */
  function CrossrefRecord(item: CrossrefItem): Outcome<Record> {
    match CrossrefFields(item)
    case Raised => Raised
    case Done(fields) => Done(fields["source" := Str("Crossref")])
  }

  // =====================================================================
  // The search loops, once the response is parsed
  // =====================================================================

  /** The list a search returns: [] for a failed request or a body without
      items, else one record per item in order. */
  function Mapped<T>(response: Response<T>, record: T -> Record): seq<Record> {
    match response
    case RequestFailed(_) => []
    case Body(None) => []
    case Body(Some(items)) => seq(|items|, i requires 0 <= i < |items| => record(items[i]))
  }

  /** The loop `for item in items: results.append(record(item))`. */
  method MapItems<T>(items: seq<T>, record: T -> Record) returns (results: seq<Record>)
    ensures |results| == |items|
    ensures forall i :: 0 <= i < |items| ==> results[i] == record(items[i])
  {
    results := [];
    for i := 0 to |items|
      invariant |results| == i
      invariant forall k :: 0 <= k < i ==> results[k] == record(items[k])
    {
      results := results + [record(items[i])];
    }
  }

  method SearchOpenAlex(response: Response<OpenAlexItem>) returns (results: seq<Record>)
    ensures results == Mapped(response, OpenAlexRecord)
  {
    if response.RequestFailed? || response.items.None? || |response.items.value| == 0 {
      return [];
    }
    results := MapItems(response.items.value, OpenAlexRecord);
  }

  method SearchSemanticScholar(response: Response<SemanticScholarItem>) returns (results: seq<Record>)
    ensures results == Mapped(response, SemanticScholarRecord)
  {
    if response.RequestFailed? || response.items.None? || |response.items.value| == 0 {
      return [];
    }
    results := MapItems(response.items.value, SemanticScholarRecord);
  }

  method SearchArxiv(response: Response<ArxivEntry>) returns (results: seq<Record>)
    ensures results == Mapped(response, ArxivRecord)
  {
    if response.RequestFailed? || response.items.None? || |response.items.value| == 0 {
      return [];
    }
    results := MapItems(response.items.value, ArxivRecord);
  }

  /** A list built by a loop whose body may raise: the first item that raises
      ends the whole loop. */
  function Collect<T>(items: seq<T>, record: T -> Outcome<Record>): (o: Outcome<seq<Record>>)
    ensures o.Done? ==> |o.value| == |items|
    decreases |items|
  {
    if items == [] then Done([])
    else
      match Collect(items[..|items| - 1], record)
      case Raised => Raised
      case Done(init) =>
        match record(items[|items| - 1])
        case Raised => Raised
        case Done(r) => Done(init + [r])
  }

  /** The loop raises exactly when some item does, and otherwise maps every
      item in order. */
  lemma {:induction false} CollectSpec<T>(items: seq<T>, record: T -> Outcome<Record>)
    ensures Collect(items, record).Raised? <==> exists i :: 0 <= i < |items| && record(items[i]).Raised?
    ensures Collect(items, record).Done? ==>
      forall i :: 0 <= i < |items| ==> record(items[i]) == Done(Collect(items, record).value[i])
    decreases |items|
  {
    if items != [] {
      var init := items[..|items| - 1];
      CollectSpec(init, record);
      assert forall i :: 0 <= i < |init| ==> init[i] == items[i];
    }
  }

  /** Once a prefix raises, the whole list does. */
  lemma {:induction false} CollectPrefixRaises<T>(items: seq<T>, record: T -> Outcome<Record>, n: nat)
    requires n <= |items| && Collect(items[..n], record).Raised?
    ensures Collect(items, record).Raised?
    decreases |items| - n
  {
    if n < |items| {
      assert items[..n + 1][..n] == items[..n];
      CollectPrefixRaises(items, record, n + 1);
    } else {
      assert items[..n] == items;
    }
  }

  /** `for item in items: results.append(record(item))`, where building a
      record may raise. */
  method CollectItems<T>(items: seq<T>, record: T -> Outcome<Record>) returns (o: Outcome<seq<Record>>)
    ensures o == Collect(items, record)
  {
    var results: seq<Record> := [];
    for i := 0 to |items|
      invariant Collect(items[..i], record) == Done(results)
    {
      assert items[..i + 1][..i] == items[..i];
      var r := record(items[i]);
      if r.Raised? {
        CollectPrefixRaises(items, record, i + 1);
        return Raised;
      }
      results := results + [r.value];
    }
    assert items[..|items|] == items;
    return Done(results);
  }

  /** `search_crossref`: an item that raises ends the whole search. */
  method SearchCrossref(response: Response<CrossrefItem>) returns (o: Outcome<seq<Record>>)
    ensures o == match response
      case RequestFailed(_) => Done([])
      case Body(None) => Done([])
      case Body(Some(items)) => Collect(items, CrossrefRecord)
  {
    if response.RequestFailed? || response.items.None? {
      return Done([]);
    }
    o := CollectItems(response.items.value, CrossrefRecord);
  }

  // =====================================================================
  // merge_and_save
  // =====================================================================

  /** `paper[f].lower().strip()` for the three key fields; `None` when one is
      absent (KeyError) or not a string (AttributeError). */
  function TripleKey(p: Record): Option<(string, string, string)> {
    if "title" in p && p["title"].Str? && "authors" in p && p["authors"].Str? && "link" in p && p["link"].Str? then
      Some((Strip(Lower(p["title"].s)), Strip(Lower(p["authors"].s)), Strip(Lower(p["link"].s))))
    else None
  }

  /** `list(unique.values())`: the first paper per triple, in first-occurrence order. */
  function UniqueByTriple(papers: seq<Record>): seq<Record> {
    FirstByKey(papers, TripleKey, Present)
  }

  /** The dict `unique` and its key order hold exactly the papers kept so far. */
  ghost predicate Tracks<K(!new)>(unique: map<K, Record>, order: seq<K>, kept: seq<Record>, key: Record -> Option<K>) {
    |order| == |kept| &&
    (forall j :: 0 <= j < |order| ==> order[j] in unique && unique[order[j]] == kept[j] && key(kept[j]) == Some(order[j])) &&
    (forall k :: k in unique <==> Some(k) in KeysOf(kept, key))
  }

  lemma TracksPut<K(!new)>(unique: map<K, Record>, order: seq<K>, kept: seq<Record>, key: Record -> Option<K>, paper: Record)
    requires Tracks(unique, order, kept, key) && key(paper).Some? && key(paper).value !in unique
    ensures Tracks(unique[key(paper).value := paper], order + [key(paper).value], kept + [paper], key)
  {
    assert KeysOf(kept + [paper], key) == KeysOf(kept, key) + {key(paper)};
  }

  /** The loop `if key not in unique: unique[key] = paper` followed by
      `list(unique.values())`; computing a key may raise. */
  method DedupBy<K(==,!new)>(papers: seq<Record>, key: Record -> Option<K>) returns (o: Outcome<seq<Record>>)
    ensures o == if AllKeyed(papers, key) then Done(FirstByKey(papers, key, Present)) else Raised
  {
    var unique: map<K, Record> := map[];
    var order: seq<K> := [];
    ghost var kept: seq<Record> := [];
    for i := 0 to |papers|
      invariant AllKeyed(papers[..i], key)
      invariant kept == FirstByKey(papers[..i], key, Present)
      invariant Tracks(unique, order, kept, key)
    {
      var paper := papers[i];
      assert papers[..i + 1] == papers[..i] + [paper];
      FirstByKeyAppend(papers[..i], paper, key, Present);
      AllKeyedAppend(papers[..i], paper, key);
      if key(paper).None? {
        assert paper in papers;
        return Raised;
      }
      var k := key(paper).value;
      if k !in unique {
        TracksPut(unique, order, kept, key, paper);
        unique := unique[k := paper];
        order := order + [k];
        kept := kept + [paper];
      }
    }
    assert papers[..|papers|] == papers;
    var values := seq(|order|, j requires 0 <= j < |order| => unique[order[j]]);
    assert values == kept;
    return Done(values);
  }

  /** At most one paper per triple survives, each the first paper with its
      triple, and every triple of the input is represented. */
  lemma UniqueByTripleSpec(papers: seq<Record>)
    requires AllKeyed(papers, TripleKey)
    ensures IsSubseq(UniqueByTriple(papers), papers)
    ensures forall i, j :: 0 <= i < j < |UniqueByTriple(papers)| ==>
      TripleKey(UniqueByTriple(papers)[i]) != TripleKey(UniqueByTriple(papers)[j])
    ensures forall y :: y in UniqueByTriple(papers) ==>
      exists i :: 0 <= i < |papers| && papers[i] == y && FirstWithKey(papers, i, TripleKey)
    ensures forall i :: 0 <= i < |papers| ==>
      exists y :: y in UniqueByTriple(papers) && TripleKey(y) == TripleKey(papers[i])
  {
    FirstByKeySpec(papers, TripleKey, Present);
    FirstByKeyKeepsFirst(papers, TripleKey, Present);
    FirstByKeyCovers(papers, TripleKey, Present);
    assert forall i :: 0 <= i < |papers| ==> papers[i] in papers;
  }

  /** `merge_and_save`: dedup and write the list to results/<filename>. */
  method MergeAndSave(store: Utils.Store, allResults: seq<Record>, filename: string, canWrite: bool)
    returns (o: Outcome<()>)
    modifies store
    ensures !AllKeyed(allResults, TripleKey) ==> o == Raised && store.files == old(store.files)
    ensures AllKeyed(allResults, TripleKey) && canWrite ==>
      o == Done(()) && store.files == old(store.files)[Utils.PathJoin(Utils.ResultsDir, filename) := Utils.Records(UniqueByTriple(allResults))]
    ensures AllKeyed(allResults, TripleKey) && !canWrite ==> o == Raised && store.files == old(store.files)
  {
    var deduped := DedupBy(allResults, TripleKey);
    if deduped.Raised? {
      return Raised;
    }
    o := store.WriteRecords(Utils.PathJoin(Utils.ResultsDir, filename), deduped.value, canWrite);
  }
}

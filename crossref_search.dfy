/** crossref_search.py's `search_crossref_ndt`: the Crossref mapping with a
    1-based rank instead of a source tag, error dicts instead of an empty
    list, and the ranked list written to results/crossref_results_<timestamp>.json. */
module CrossrefSearch {
  import opened Json
  import opened SearchApi
  import Utils

  /** The returned dict: `{"error": message}` or `{"data": results, "file": path}`. */
  datatype NdtResult = Error(message: string) | Data(data: seq<Record>, file: string)

  const ConnectionError := "Lỗi khi kết nối API Crossref: "
  const NoResults := "Không tìm thấy kết quả nào từ Crossref."

  /** `enumerate(items, start=1)`. */
  function Ranked(items: seq<CrossrefItem>): (ranked: seq<(CrossrefItem, int)>)
    ensures |ranked| == |items|
    ensures forall i :: 0 <= i < |items| ==> ranked[i] == (items[i], i + 1)
  {
    seq(|items|, i requires 0 <= i < |items| => (items[i], i + 1))
  }

  /** The record built for one ranked item. */
  function NdtRecord(ranked: (CrossrefItem, int)): Outcome<Record> {
    match CrossrefFields(ranked.0)
    case Raised => Raised
    case Done(fields) => Done(fields["rank" := Num(ranked.1)])
  }

  /** The ranked result list; an item that raises ends the search. */
  function NdtRecords(items: seq<CrossrefItem>): Outcome<seq<Record>> {
    Collect(Ranked(items), NdtRecord)
  }

  /** The list raises exactly when some item does; otherwise it holds one
      record per item, in order, the i-th ranked i + 1 and otherwise built as
      the shared Crossref fields. */
  lemma NdtRecordsSpec(items: seq<CrossrefItem>)
    ensures NdtRecords(items).Raised? <==> exists i :: 0 <= i < |items| && CrossrefFields(items[i]).Raised?
    ensures NdtRecords(items).Done? ==>
      |NdtRecords(items).value| == |items| &&
      forall i :: 0 <= i < |items| ==>
        CrossrefFields(items[i]).Done? &&
        NdtRecords(items).value[i] == CrossrefFields(items[i]).value["rank" := Num(i + 1)]
  {
    CollectSpec(Ranked(items), NdtRecord);
    if NdtRecords(items).Raised? {
      var i :| 0 <= i < |Ranked(items)| && NdtRecord(Ranked(items)[i]).Raised?;
      assert CrossrefFields(items[i]).Raised?;
    } else {
      forall i | 0 <= i < |items| ensures CrossrefFields(items[i]).Done? {
        assert NdtRecord(Ranked(items)[i]).Done?;
      }
    }
  }

  /** The ranked record and the `search_crossref` record of one item agree
      on every field except the rank and the source tag. */
  lemma SameFieldsAsSearchCrossref(item: CrossrefItem, rank: int)
    ensures NdtRecord((item, rank)).Raised? <==> CrossrefRecord(item).Raised?
    ensures NdtRecord((item, rank)).Done? ==>
      var ranked := NdtRecord((item, rank)).value;
      var tagged := CrossrefRecord(item).value;
      ranked["rank"] == Num(rank) && tagged["source"] == Str("Crossref") &&
      "source" !in ranked && "rank" !in tagged &&
      forall k :: k != "rank" && k != "source" ==> (k in ranked <==> k in tagged) && (k in ranked ==> ranked[k] == tagged[k])
  {
  }

  /** The results file, `results/crossref_results_<timestamp>.json`. */
  function ResultsFile(timestamp: string): string {
    Utils.PathJoin(Utils.ResultsDir, "crossref_results_" + timestamp + ".json")
  }

  /** `search_crossref_ndt` once the response is parsed: a failed request or a
      body without `message.items` gives an error dict and writes nothing;
      otherwise the ranked list is written and returned with its path. */
  method SearchCrossrefNdt(store: Utils.Store, response: Response<CrossrefItem>, timestamp: string, canWrite: bool)
    returns (o: Outcome<NdtResult>)
    modifies store
    ensures response.RequestFailed? ==>
      o == Done(Error(ConnectionError + response.reason)) && store.files == old(store.files)
    ensures response == Body(None) ==> o == Done(Error(NoResults)) && store.files == old(store.files)
    ensures response.Body? && response.items.Some? ==>
      var records := NdtRecords(response.items.value);
      if records.Done? && canWrite then
        o == Done(Data(records.value, ResultsFile(timestamp))) &&
        store.files == old(store.files)[ResultsFile(timestamp) := Utils.Records(records.value)]
      else
        o == Raised && store.files == old(store.files)
  {
    if response.RequestFailed? {
      return Done(Error(ConnectionError + response.reason));
    }
    if response.items.None? {
      return Done(Error(NoResults));
    }
    var records := CollectItems(Ranked(response.items.value), NdtRecord);
    if records.Raised? {
      return Raised;
    }
    var file := ResultsFile(timestamp);
    var written := store.WriteRecords(file, records.value, canWrite);
    if written.Raised? {
      return Raised;
    }
    return Done(Data(records.value, file));
  }
}

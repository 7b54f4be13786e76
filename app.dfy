/** app.py's `merge_and_save_results`: merge the per-source result lists,
    keep the first paper per normalized title, and write the merged list to a
    timestamped file under results/. */
module App {
  import opened Text
  import opened Json
  import opened Seqs
  import Utils

  /** `paper.get("title", "").strip().lower()`; `None` when the title is
      present but not a string (AttributeError). */
  function TitleKey(p: Record): Option<string> {
    if "title" !in p then Some("")
    else if p["title"].Str? then Some(Norm(p["title"].s))
    else None
  }

  /** `if title and title not in seen_titles`: only non-empty titles count. */
  predicate IsTitle(k: Option<string>) {
    k.Some? && k.value != ""
  }

  /** The merged list: the first paper per non-empty normalized title across
      all sources, in source order then list order. */
  function MergedByTitle(allResults: seq<seq<Record>>): seq<Record> {
    FirstByKey(Flatten(allResults), TitleKey, IsTitle)
  }

  /** The nested loop over `all_results` and each source's papers, keeping a
      paper when its key is admitted and not in `seen`; computing a key may raise. */
  method MergeFirstBy<K(==)>(allResults: seq<seq<Record>>, key: Record -> Option<K>, admit: Option<K> -> bool)
    returns (o: Outcome<seq<Record>>)
    ensures o == if AllKeyed(Flatten(allResults), key) then Done(FirstByKey(Flatten(allResults), key, admit)) else Raised
  {
    var seen: set<Option<K>> := {};
    var merged: seq<Record> := [];
    for i := 0 to |allResults|
      invariant AllKeyed(Flatten(allResults[..i]), key)
      invariant merged == FirstByKey(Flatten(allResults[..i]), key, admit)
      invariant seen == KeysOf(merged, key)
    {
      var source := allResults[i];
      ghost var before := Flatten(allResults[..i]);
      assert allResults[..i + 1][..i] == allResults[..i];
      assert Flatten(allResults[..i + 1]) == before + source;
      assert before + source[..0] == before;
      for j := 0 to |source|
        invariant AllKeyed(before + source[..j], key)
        invariant merged == FirstByKey(before + source[..j], key, admit)
        invariant seen == KeysOf(merged, key)
      {
        var paper := source[j];
        assert before + source[..j + 1] == (before + source[..j]) + [paper];
        FirstByKeyAppend(before + source[..j], paper, key, admit);
        AllKeyedAppend(before + source[..j], paper, key);
        var k := key(paper);
        if k.None? {
          assert paper in Flatten(allResults) by { FlattenContains(allResults, i, j); }
          return Raised;
        }
        if admit(k) && k !in seen {
          assert KeysOf(merged + [paper], key) == KeysOf(merged, key) + {k};
          merged := merged + [paper];
          seen := seen + {k};
        }
      }
      assert source[..|source|] == source;
    }
    assert allResults[..|allResults|] == allResults;
    return Done(merged);
  }

  /** The title merge of `merge_and_save_results`. */
  method MergeByTitle(allResults: seq<seq<Record>>) returns (o: Outcome<seq<Record>>)
    ensures o == if AllKeyed(Flatten(allResults), TitleKey) then Done(MergedByTitle(allResults)) else Raised
  {
    o := MergeFirstBy(allResults, TitleKey, IsTitle);
  }

  /** Every element of every source is in the flattened list. */
  lemma {:induction false} FlattenContains<T>(ss: seq<seq<T>>, i: nat, j: nat)
    requires i < |ss| && j < |ss[i]|
    ensures ss[i][j] in Flatten(ss)
    decreases |ss|
  {
    if i < |ss| - 1 {
      FlattenContains(ss[..|ss| - 1], i, j);
    }
  }

  /** `merge_and_save_results`: merge, then write to
      results/<timestamp>_<filename>, returning the path and the merged list. */
  method MergeAndSaveResults(store: Utils.Store, allResults: seq<seq<Record>>, filename: string, timestamp: string, canWrite: bool)
    returns (o: Outcome<(string, seq<Record>)>)
    modifies store
    ensures var path := Utils.PathJoin(Utils.ResultsDir, timestamp + "_" + filename);
      if AllKeyed(Flatten(allResults), TitleKey) && canWrite then
        o == Done((path, MergedByTitle(allResults))) &&
        store.files == old(store.files)[path := Utils.Records(MergedByTitle(allResults))]
      else
        o == Raised && store.files == old(store.files)
  {
    var merged := MergeByTitle(allResults);
    if merged.Raised? {
      return Raised;
    }
    var path := Utils.PathJoin(Utils.ResultsDir, timestamp + "_" + filename);
    var written := store.WriteRecords(path, merged.value, canWrite);
    if written.Raised? {
      return Raised;
    }
    return Done((path, merged.value));
  }

  /** No two merged papers share a normalized title, none has an empty one,
      and each is the first paper with its title. */
  lemma MergedTitlesUnique(allResults: seq<seq<Record>>)
    ensures forall i, j :: 0 <= i < j < |MergedByTitle(allResults)| ==>
      TitleKey(MergedByTitle(allResults)[i]) != TitleKey(MergedByTitle(allResults)[j])
    ensures forall p :: p in MergedByTitle(allResults) ==> IsTitle(TitleKey(p))
    ensures forall y :: y in MergedByTitle(allResults) ==>
      exists i :: (0 <= i < |Flatten(allResults)| && Flatten(allResults)[i] == y &&
        FirstWithKey(Flatten(allResults), i, TitleKey))
  {
    FirstByKeySpec(Flatten(allResults), TitleKey, IsTitle);
    FirstByKeyKeepsFirst(Flatten(allResults), TitleKey, IsTitle);
    assert MergedByTitle(allResults) == FirstByKey(Flatten(allResults), TitleKey, IsTitle);
  }

  /** Every paper with a non-empty title is represented by the merged paper
      with the same normalized title; the merged list is a subsequence of the
      concatenated sources. */
  lemma MergedCovers(allResults: seq<seq<Record>>)
    ensures IsSubseq(MergedByTitle(allResults), Flatten(allResults))
    ensures forall i :: 0 <= i < |Flatten(allResults)| && IsTitle(TitleKey(Flatten(allResults)[i])) ==>
      exists y :: y in MergedByTitle(allResults) && TitleKey(y) == TitleKey(Flatten(allResults)[i])
  {
    FirstByKeySpec(Flatten(allResults), TitleKey, IsTitle);
    FirstByKeyCovers(Flatten(allResults), TitleKey, IsTitle);
  }

  /** Merging a merged list again, as a single source, changes nothing. */
  lemma MergeIdempotent(allResults: seq<seq<Record>>)
    ensures MergedByTitle([MergedByTitle(allResults)]) == MergedByTitle(allResults)
  {
    FlattenSingleton(MergedByTitle(allResults));
    FirstByKeyIdempotent(Flatten(allResults), TitleKey, IsTitle);
  }
}

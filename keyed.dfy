/** Collections of records compared by an identity key, where the empty key
    means "no identity": key sets, filtering against earlier records, and
    dicts keyed by identity with Python's insertion order. */
module Keyed {
  import opened Seqs

  /** `{key(p) for p in records if key(p)}`. */
  function KeySet<T(==,!new)>(records: seq<T>, key: T -> string): (keys: set<string>)
    ensures "" !in keys
    ensures forall p :: p in records && key(p) != "" ==> key(p) in keys
    ensures forall k :: k in keys ==> exists p :: p in records && key(p) == k
  {
    set p | p in records && key(p) != "" :: key(p)
  }

  /** `[p for p in candidates if key(p) not in keys]`. */
  function Unmatched<T(==,!new)>(candidates: seq<T>, keys: set<string>, key: T -> string): seq<T> {
    Filter(candidates, p => key(p) !in keys)
  }

  /** A candidate collides with an earlier record: both have the same non-empty key. */
  ghost predicate Matches<T>(p: T, earlier: seq<T>, key: T -> string) {
    key(p) != "" && exists q :: q in earlier && key(q) == key(p)
  }

  /** `r` is `candidates` with exactly the records that collide with `earlier`
      removed; the others are kept, as often as they occur and in their order. */
  ghost predicate DropsMatches<T(!new)>(r: seq<T>, candidates: seq<T>, earlier: seq<T>, key: T -> string) {
    IsSubseq(r, candidates) &&
    forall p :: multiset(r)[p] == if Matches(p, earlier, key) then 0 else multiset(candidates)[p]
  }

  /** Filtering against the key set of earlier records drops exactly the collisions. */
  lemma UnmatchedDropsMatches<T(!new)>(candidates: seq<T>, earlier: seq<T>, key: T -> string)
    ensures DropsMatches(Unmatched(candidates, KeySet(earlier, key), key), candidates, earlier, key)
  {
    var keys := KeySet(earlier, key);
    forall p ensures (key(p) in keys) == Matches(p, earlier, key) {
      if key(p) in keys {
        var q :| q in earlier && key(q) == key(p);
      }
    }
  }

  /** Records with no key are never removed by a key-based filter. */
  lemma UnkeyedSurvive<T(!new)>(r: seq<T>, candidates: seq<T>, earlier: seq<T>, key: T -> string)
    requires DropsMatches(r, candidates, earlier, key)
    ensures forall p :: p in candidates && key(p) == "" ==> p in r
  {
    forall p | p in candidates && key(p) == "" ensures p in r {
      assert multiset(r)[p] == multiset(candidates)[p];
    }
  }

  /** A Python dict keyed by identity: its keys in insertion order and its entries. */
  datatype Index<T> = Index(order: seq<string>, entries: map<string, T>) {
    ghost predicate Valid() {
      (forall i, j :: 0 <= i < j < |order| ==> order[i] != order[j]) &&
      (forall k :: k in entries <==> k in order)
    }

    /** `d[k] = v`: a new key goes last, an existing key keeps its place. */
    function Put(k: string, v: T): (d: Index<T>)
      requires Valid()
      ensures d.Valid()
      ensures d.entries == entries[k := v]
      ensures d.order == if k in entries then order else order + [k]
    {
      if k in entries then Index(order, entries[k := v]) else Index(order + [k], entries[k := v])
    }

    /** `list(d.values())`. */
    function Values(): (vs: seq<T>)
      requires Valid()
      ensures |vs| == |order|
      ensures forall i :: 0 <= i < |order| ==> vs[i] == entries[order[i]]
    {
      seq(|order|, i requires 0 <= i < |order| => entries[order[i]])
    }
  }

  /** `{key(item): item for item in db if key(item)}`: a later item with the
      same key overwrites an earlier one in place. */
  function IndexByKey<T>(db: seq<T>, key: T -> string): (d: Index<T>)
    ensures d.Valid()
    decreases |db|
  {
    if db == [] then Index([], map[])
    else
      var d := IndexByKey(db[..|db| - 1], key);
      var item := db[|db| - 1];
      if key(item) != "" then d.Put(key(item), item) else d
  }

  /** Walk `results` and store `summary(p)` under each non-empty key the dict
      does not hold yet. */
  function AddSummaries<T>(d: Index<T>, results: seq<T>, key: T -> string, summary: T -> T): (d': Index<T>)
    requires d.Valid()
    ensures d'.Valid()
    decreases |results|
  {
    if results == [] then d
    else
      var e := AddSummaries(d, results[..|results| - 1], key, summary);
      var p := results[|results| - 1];
      if key(p) != "" && key(p) !in e.entries then e.Put(key(p), summary(p)) else e
  }

  /** The dict holds one entry per non-empty key of `db`: the last item with that key. */
  lemma {:induction false} IndexByKeySpec<T(!new)>(db: seq<T>, key: T -> string)
    ensures IndexByKey(db, key).entries.Keys == KeySet(db, key)
    ensures forall k :: k in IndexByKey(db, key).entries ==>
      exists i :: (0 <= i < |db| && db[i] == IndexByKey(db, key).entries[k] && key(db[i]) == k &&
        forall j :: i < j < |db| ==> key(db[j]) != k)
    decreases |db|
  {
    if db != [] {
      var init := db[..|db| - 1];
      var item := db[|db| - 1];
      IndexByKeySpec(init, key);
      assert db == init + [item];
      var d := IndexByKey(init, key);
      var d' := IndexByKey(db, key);
      forall k | k in d'.entries
        ensures exists i :: (0 <= i < |db| && db[i] == d'.entries[k] && key(db[i]) == k &&
          forall j :: i < j < |db| ==> key(db[j]) != k)
      {
        if key(item) == k {
          assert db[|db| - 1] == d'.entries[k];
        } else {
          var i :| 0 <= i < |init| && init[i] == d.entries[k] && key(init[i]) == k &&
            forall j :: i < j < |init| ==> key(init[j]) != k;
          assert db[i] == init[i];
          forall j | i < j < |db| ensures key(db[j]) != k {
            if j < |init| { assert db[j] == init[j]; }
          }
        }
      }
    }
  }

  /** Adding summaries adds exactly the new non-empty keys. */
  lemma {:induction false} AddSummariesKeys<T(!new)>(d: Index<T>, results: seq<T>, key: T -> string, summary: T -> T)
    requires d.Valid()
    ensures AddSummaries(d, results, key, summary).entries.Keys == d.entries.Keys + KeySet(results, key)
    decreases |results|
  {
    if results != [] {
      var init := results[..|results| - 1];
      var p := results[|results| - 1];
      AddSummariesKeys(d, init, key, summary);
      assert results == init + [p];
      assert KeySet(results, key) == KeySet(init, key) + (if key(p) != "" then {key(p)} else {});
    }
  }

  /** Adding summaries keeps the old key order as a prefix. */
  lemma {:induction false} AddSummariesOrder<T>(d: Index<T>, results: seq<T>, key: T -> string, summary: T -> T)
    requires d.Valid()
    ensures |d.order| <= |AddSummaries(d, results, key, summary).order|
    ensures AddSummaries(d, results, key, summary).order[..|d.order|] == d.order
    decreases |results|
  {
    if results != [] {
      var init := results[..|results| - 1];
      var p := results[|results| - 1];
      AddSummariesOrder(d, init, key, summary);
      var e := AddSummaries(d, init, key, summary);
      if key(p) != "" && key(p) !in e.entries {
        assert (e.order + [key(p)])[..|d.order|] == e.order[..|d.order|];
      }
    }
  }

  /** Adding summaries never replaces an entry that is already there. */
  lemma {:induction false} AddSummariesKeepsEntries<T>(d: Index<T>, results: seq<T>, key: T -> string, summary: T -> T)
    requires d.Valid()
    ensures forall k :: k in d.entries ==>
      k in AddSummaries(d, results, key, summary).entries && AddSummaries(d, results, key, summary).entries[k] == d.entries[k]
    decreases |results|
  {
    if results != [] {
      AddSummariesKeepsEntries(d, results[..|results| - 1], key, summary);
    }
  }

  /** Each new key holds the summary of the first result with that key. */
  lemma {:induction false} AddSummariesNewEntries<T(!new)>(d: Index<T>, results: seq<T>, key: T -> string, summary: T -> T)
    requires d.Valid()
    ensures forall k :: k in AddSummaries(d, results, key, summary).entries && k !in d.entries ==>
      exists i :: (0 <= i < |results| && key(results[i]) == k &&
        AddSummaries(d, results, key, summary).entries[k] == summary(results[i]) &&
        forall j :: 0 <= j < i ==> key(results[j]) != k)
    decreases |results|
  {
    if results != [] {
      var init := results[..|results| - 1];
      var last := results[|results| - 1];
      AddSummariesNewEntries(d, init, key, summary);
      AddSummariesKeys(d, init, key, summary);
      var e := AddSummaries(d, init, key, summary);
      var e' := AddSummaries(d, results, key, summary);
      forall k | k in e'.entries && k !in d.entries
        ensures exists i :: (0 <= i < |results| && key(results[i]) == k &&
          e'.entries[k] == summary(results[i]) &&
          forall j :: 0 <= j < i ==> key(results[j]) != k)
      {
        if k in e.entries {
          var i :| 0 <= i < |init| && key(init[i]) == k && e.entries[k] == summary(init[i]) &&
            forall j :: 0 <= j < i ==> key(init[j]) != k;
          assert results[i] == init[i];
          forall j | 0 <= j < i ensures key(results[j]) != k { assert results[j] == init[j]; }
        } else {
          assert key(last) == k && e'.entries[k] == summary(last);
          forall j | 0 <= j < |results| - 1 ensures key(results[j]) != k {
            assert results[j] == init[j];
            assert key(init[j]) != "" ==> key(init[j]) in KeySet(init, key);
          }
        }
      }
    }
  }

  /** A list with no repeats has as many elements as its set of elements. */
  lemma {:induction false} DistinctCount(s: seq<string>)
    requires forall i, j :: 0 <= i < j < |s| ==> s[i] != s[j]
    ensures |set i | 0 <= i < |s| :: s[i]| == |s|
    decreases |s|
  {
    if s != [] {
      var init := s[..|s| - 1];
      DistinctCount(init);
      var a := set i | 0 <= i < |init| :: init[i];
      var b := set i | 0 <= i < |s| :: s[i];
      assert b == a + {s[|s| - 1]} by {
        forall x | x in b ensures x in a + {s[|s| - 1]} {
          var i :| 0 <= i < |s| && s[i] == x;
          if i < |init| { assert init[i] == x; }
        }
        forall x | x in a ensures x in b {
          var i :| 0 <= i < |init| && init[i] == x;
          assert s[i] == x;
        }
      }
      assert s[|s| - 1] !in a;
    }
  }

  /** A valid dict has one value per key. */
  lemma ValuesCount<T>(d: Index<T>)
    requires d.Valid()
    ensures |d.Values()| == |d.entries.Keys|
  {
    DistinctCount(d.order);
    assert d.entries.Keys == set i | 0 <= i < |d.order| :: d.order[i];
  }
}

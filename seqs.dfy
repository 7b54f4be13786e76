/** Order-preserving list operations shared by the merge and dedup code:
    subsequences, filtering (a list comprehension with a condition),
    flattening nested lists, and "keep the first record per key". */
module Seqs {

  /** `a` is `b` with some elements left out, the rest in their original order. */
  predicate IsSubseq<T(==)>(a: seq<T>, b: seq<T>)
    decreases |b|
  {
    a == [] ||
    (b != [] &&
      (IsSubseq(a, b[..|b| - 1]) ||
       (a[|a| - 1] == b[|b| - 1] && IsSubseq(a[..|a| - 1], b[..|b| - 1]))))
  }

  lemma {:induction false} SubseqRefl<T>(a: seq<T>)
    ensures IsSubseq(a, a)
  {
    if a != [] {
      SubseqRefl(a[..|a| - 1]);
    }
  }

  /** Appending to the longer list, or to both, keeps a subsequence. */
  lemma SubseqExtend<T>(a: seq<T>, b: seq<T>, x: T)
    requires IsSubseq(a, b)
    ensures IsSubseq(a, b + [x])
    ensures IsSubseq(a + [x], b + [x])
  {
    assert (b + [x])[..|b|] == b;
    assert (a + [x])[..|a|] == a;
  }

  /** `[x for x in s if keep(x)]`. */
  function Filter<T(==,!new)>(s: seq<T>, keep: T -> bool): (r: seq<T>)
    ensures IsSubseq(r, s)
    ensures forall x :: multiset(r)[x] == if keep(x) then multiset(s)[x] else 0
    decreases |s|
  {
    if s == [] then []
    else
      var init := s[..|s| - 1];
      var x := s[|s| - 1];
      var kept := Filter(init, keep);
      assert s == init + [x];
      SubseqExtend(kept, init, x);
      if keep(x) then kept + [x] else kept
  }

  /** An element survives the filter exactly when it is in the list and kept. */
  lemma FilterMembers<T(!new)>(s: seq<T>, keep: T -> bool)
    ensures forall x :: x in Filter(s, keep) <==> x in s && keep(x)
  {
    forall x ensures x in Filter(s, keep) <==> x in s && keep(x) {
      assert multiset(Filter(s, keep))[x] == if keep(x) then multiset(s)[x] else 0;
    }
  }

  /** The concatenation of a list of lists, in order. */
  function Flatten<T>(ss: seq<seq<T>>): (r: seq<T>)
    decreases |ss|
  {
    if ss == [] then [] else Flatten(ss[..|ss| - 1]) + ss[|ss| - 1]
  }

  lemma FlattenSingleton<T>(s: seq<T>)
    ensures Flatten([s]) == s
  {
    assert [s][..0] == [];
  }

  function KeysOf<T(==), K(==)>(s: seq<T>, key: T -> K): set<K> {
    set x | x in s :: key(x)
  }

  /** Walk `s` in order and keep each element whose key is admitted and has
      not been seen yet: what a loop with a `seen` set does. */
  function FirstByKey<T(==), K(==)>(s: seq<T>, key: T -> K, admit: K -> bool): seq<T>
    decreases |s|
  {
    if s == [] then []
    else
      var kept := FirstByKey(s[..|s| - 1], key, admit);
      var x := s[|s| - 1];
      if admit(key(x)) && key(x) !in KeysOf(kept, key) then kept + [x] else kept
  }

  /** The kept elements are a subsequence of the input with admitted,
      pairwise distinct keys. */
  lemma {:induction false} FirstByKeySpec<T, K>(s: seq<T>, key: T -> K, admit: K -> bool)
    ensures IsSubseq(FirstByKey(s, key, admit), s)
    ensures forall x :: x in FirstByKey(s, key, admit) ==> x in s && admit(key(x))
    ensures forall i, j :: 0 <= i < j < |FirstByKey(s, key, admit)| ==>
      key(FirstByKey(s, key, admit)[i]) != key(FirstByKey(s, key, admit)[j])
    decreases |s|
  {
    if s != [] {
      var init := s[..|s| - 1];
      var x := s[|s| - 1];
      var kept := FirstByKey(init, key, admit);
      FirstByKeySpec(init, key, admit);
      SubseqExtend(kept, init, x);
      assert s == init + [x];
      var r := FirstByKey(s, key, admit);
      if r != kept {
        forall i, j | 0 <= i < j < |r| ensures key(r[i]) != key(r[j]) {
          if j == |r| - 1 {
            assert r[i] == kept[i];
            assert key(kept[i]) in KeysOf(kept, key);
          } else {
            assert r[i] == kept[i] && r[j] == kept[j];
          }
        }
      }
    }
  }

  /** One more element: kept exactly when its key is admitted and new. */
  lemma FirstByKeyAppend<T, K>(s: seq<T>, x: T, key: T -> K, admit: K -> bool)
    ensures FirstByKey(s + [x], key, admit) ==
      if admit(key(x)) && key(x) !in KeysOf(FirstByKey(s, key, admit), key)
      then FirstByKey(s, key, admit) + [x] else FirstByKey(s, key, admit)
  {
    assert (s + [x])[..|s|] == s;
  }

  /** Every admitted key of the input is represented in the output. */
  lemma {:induction false} FirstByKeyCovers<T, K>(s: seq<T>, key: T -> K, admit: K -> bool)
    ensures forall i :: 0 <= i < |s| && admit(key(s[i])) ==>
              exists y :: y in FirstByKey(s, key, admit) && key(y) == key(s[i])
    decreases |s|
  {
    if s != [] {
      var init := s[..|s| - 1];
      var kept := FirstByKey(init, key, admit);
      FirstByKeyCovers(init, key, admit);
      var r := FirstByKey(s, key, admit);
      assert forall y :: y in kept ==> y in r;
      forall i | 0 <= i < |s| && admit(key(s[i]))
        ensures exists y :: y in r && key(y) == key(s[i])
      {
        if i < |s| - 1 {
          assert s[i] == init[i];
        } else if key(s[i]) in KeysOf(kept, key) {
          var y :| y in kept && key(y) == key(s[i]);
          assert y in r;
        } else {
          assert s[i] in r;
        }
      }
    }
  }

  /** No element before position i has the key of s[i]. */
  predicate FirstWithKey<T, K(==)>(s: seq<T>, i: nat, key: T -> K)
    requires i < |s|
  {
    forall j :: 0 <= j < i ==> key(s[j]) != key(s[i])
  }

  /** Every kept element is the first element of the input with its key. */
  lemma {:induction false} FirstByKeyKeepsFirst<T, K>(s: seq<T>, key: T -> K, admit: K -> bool)
    ensures forall y :: y in FirstByKey(s, key, admit) ==>
              exists i :: 0 <= i < |s| && s[i] == y && FirstWithKey(s, i, key)
    decreases |s|
  {
    if s != [] {
      var init := s[..|s| - 1];
      var x := s[|s| - 1];
      var kept := FirstByKey(init, key, admit);
      FirstByKeyKeepsFirst(init, key, admit);
      forall y | y in FirstByKey(s, key, admit)
        ensures exists i :: 0 <= i < |s| && s[i] == y && FirstWithKey(s, i, key)
      {
        if y in kept {
          var i :| 0 <= i < |init| && init[i] == y && FirstWithKey(init, i, key);
          assert s[i] == y;
          assert FirstWithKey(s, i, key) by {
            forall j | 0 <= j < i ensures key(s[j]) != key(s[i]) {
              assert s[j] == init[j];
            }
          }
        } else {
          assert y == x && key(x) !in KeysOf(kept, key);
          FirstByKeyCovers(init, key, admit);
          assert FirstWithKey(s, |s| - 1, key) by {
            forall j | 0 <= j < |s| - 1 ensures key(s[j]) != key(x) {
              assert s[j] == init[j];
              assert forall z :: z in kept ==> key(z) in KeysOf(kept, key);
            }
          }
        }
      }
    }
  }

  /** A list whose keys are all admitted and pairwise distinct is left as it is. */
  lemma {:induction false} FirstByKeyOfDistinct<T, K>(s: seq<T>, key: T -> K, admit: K -> bool)
    requires forall x :: x in s ==> admit(key(x))
    requires forall i, j :: 0 <= i < j < |s| ==> key(s[i]) != key(s[j])
    ensures FirstByKey(s, key, admit) == s
    decreases |s|
  {
    if s != [] {
      var init := s[..|s| - 1];
      var x := s[|s| - 1];
      FirstByKeyOfDistinct(init, key, admit);
      forall z | z in init ensures key(z) != key(x) {
        var i :| 0 <= i < |init| && init[i] == z;
        assert s[i] == z;
      }
      assert key(x) !in KeysOf(init, key);
      assert s == init + [x];
    }
  }

  /** Keeping the first element per key a second time changes nothing. */
  lemma FirstByKeyIdempotent<T, K>(s: seq<T>, key: T -> K, admit: K -> bool)
    ensures FirstByKey(FirstByKey(s, key, admit), key, admit) == FirstByKey(s, key, admit)
  {
    FirstByKeySpec(s, key, admit);
    FirstByKeyOfDistinct(FirstByKey(s, key, admit), key, admit);
  }
}

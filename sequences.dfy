/** Generic sequence operations shared by the listing, roster and watchlist
    logic: an Option type for lookups that may fail, order-preserving
    filtering (Ruby's `select`/`reject!`) and order-preserving deduplication by
    a key (Ruby's `uniq` and `uniq { |r| ... }`).

    Filter and Dedup recurse on the last element, which is how the source's
    loops build their arrays (one `<<` at a time). */
module Sequences {

  datatype Option<+T> = None | Some(value: T) {
    /** The value, or `default` when the lookup failed. */
    function GetOr(default: T): T {
      match this
      case Some(v) => v
      case None => default
    }
  }

  /** The `i`-th entry of a trace, or the empty sequence past its end. */
  function At<T>(trace: seq<seq<T>>, i: nat): seq<T> {
    if i < |trace| then trace[i] else []
  }

  /** The elements of `xs` that satisfy `p`, in their original order. */
  function Filter<T>(xs: seq<T>, p: T -> bool): (r: seq<T>)
    ensures |r| <= |xs|
    ensures forall j :: 0 <= j < |r| ==> p(r[j])
    decreases |xs|
  {
    if xs == [] then []
    else
      var init := Filter(xs[..|xs| - 1], p);
      if p(xs[|xs| - 1]) then init + [xs[|xs| - 1]] else init
  }

  lemma {:induction false} FilterMembership<T>(xs: seq<T>, p: T -> bool, x: T)
    ensures x in Filter(xs, p) <==> x in xs && p(x)
    decreases |xs|
  {
    if xs != [] {
      var init := xs[..|xs| - 1];
      FilterMembership(init, p, x);
      assert xs == init + [xs[|xs| - 1]];
    }
  }

  /** Filtering keeps every selected element exactly as often as it occurs. */
  lemma {:induction false} FilterCount<T>(xs: seq<T>, p: T -> bool, x: T)
    ensures multiset(Filter(xs, p))[x] == if p(x) then multiset(xs)[x] else 0
    decreases |xs|
  {
    if xs != [] {
      var init := xs[..|xs| - 1];
      FilterCount(init, p, x);
      assert xs == init + [xs[|xs| - 1]];
    }
  }

  /** `r` can be obtained from `xs` by deleting elements: matched greedily
      from the back, which decides subsequence. */
  predicate IsSubsequence<T(==)>(r: seq<T>, xs: seq<T>)
    decreases |xs|
  {
    if r == [] then true
    else if xs == [] then false
    else if r[|r| - 1] == xs[|xs| - 1] then IsSubsequence(r[..|r| - 1], xs[..|xs| - 1])
    else IsSubsequence(r, xs[..|xs| - 1])
  }

  /** Filtering keeps the relative order of what it keeps. */
  lemma {:induction false} FilterIsSubsequence<T>(xs: seq<T>, p: T -> bool)
    ensures IsSubsequence(Filter(xs, p), xs)
    decreases |xs|
  {
    if xs != [] {
      var init := xs[..|xs| - 1];
      FilterIsSubsequence(init, p);
      var f := Filter(init, p);
      if p(xs[|xs| - 1]) {
        assert (f + [xs[|xs| - 1]])[..|f|] == f;
      }
    }
  }

  /** Some element of `xs` has key `k`. */
  predicate HasKey<T, K(==)>(xs: seq<T>, key: T -> K, k: K) {
    exists i :: 0 <= i < |xs| && key(xs[i]) == k
  }

  /** No two elements of `xs` share a key. */
  predicate DistinctKeys<T, K(==)>(xs: seq<T>, key: T -> K) {
    forall i, j :: 0 <= i < j < |xs| ==> key(xs[i]) != key(xs[j])
  }

  /** The position of the first element of `xs` whose key is `k`. */
  function FirstIndex<T, K(==)>(xs: seq<T>, key: T -> K, k: K): (i: nat)
    requires HasKey(xs, key, k)
    ensures i < |xs| && key(xs[i]) == k
    ensures forall m :: 0 <= m < i ==> key(xs[m]) != k
    decreases |xs|
  {
    var n := |xs| - 1;
    if HasKey(xs[..n], key, k) then FirstIndex(xs[..n], key, k)
    else
      assert forall m :: 0 <= m < n ==> key(xs[m]) != k by {
        forall m | 0 <= m < n ensures key(xs[m]) != k {
          assert xs[..n][m] == xs[m];
        }
      }
      n
  }

  /** The first index is the only position holding `k` with no earlier
      holder. */
  lemma FirstIndexUnique<T, K>(xs: seq<T>, key: T -> K, k: K, i: nat)
    requires i < |xs| && key(xs[i]) == k
    requires forall m :: 0 <= m < i ==> key(xs[m]) != k
    ensures HasKey(xs, key, k) && FirstIndex(xs, key, k) == i
  {
    assert HasKey(xs, key, k);
  }

  /** A key found in a prefix has the same first index in the whole
      sequence. */
  lemma FirstIndexPrefix<T, K>(xs: seq<T>, m: nat, key: T -> K, k: K)
    requires m <= |xs| && HasKey(xs[..m], key, k)
    ensures HasKey(xs, key, k) && FirstIndex(xs, key, k) == FirstIndex(xs[..m], key, k)
    ensures xs[FirstIndex(xs, key, k)] == xs[..m][FirstIndex(xs[..m], key, k)]
  {
    var f := FirstIndex(xs[..m], key, k);
    assert xs[f] == xs[..m][f];
    assert forall i :: 0 <= i < f ==> xs[i] == xs[..m][i];
    FirstIndexUnique(xs, key, k, f);
  }

  /** Keeps the first element for each key and drops every later one. */
  function Dedup<T, K(==)>(xs: seq<T>, key: T -> K): (r: seq<T>)
    ensures |r| <= |xs|
    decreases |xs|
  {
    if xs == [] then []
    else
      var init := Dedup(xs[..|xs| - 1], key);
      var x := xs[|xs| - 1];
      if HasKey(init, key, key(x)) then init else init + [x]
  }

  lemma HasKeyAppend<T, K>(a: seq<T>, x: T, key: T -> K, k: K)
    ensures HasKey(a + [x], key, k) <==> HasKey(a, key, k) || key(x) == k
  {
    if HasKey(a, key, k) {
      var i :| 0 <= i < |a| && key(a[i]) == k;
      assert (a + [x])[i] == a[i];
    }
    if key(x) == k {
      assert (a + [x])[|a|] == x;
    }
    if HasKey(a + [x], key, k) {
      var i :| 0 <= i < |a| + 1 && key((a + [x])[i]) == k;
      if i < |a| {
        assert (a + [x])[i] == a[i];
      }
    }
  }

  /** Deduplication loses no key and invents none. */
  lemma {:induction false} DedupKeys<T, K>(xs: seq<T>, key: T -> K, k: K)
    ensures HasKey(Dedup(xs, key), key, k) <==> HasKey(xs, key, k)
    decreases |xs|
  {
    if xs != [] {
      var init := xs[..|xs| - 1];
      var x := xs[|xs| - 1];
      assert xs == init + [x];
      DedupKeys(init, key, k);
      DedupKeys(init, key, key(x));
      HasKeyAppend(init, x, key, k);
      HasKeyAppend(Dedup(init, key), x, key, k);
    }
  }

  /** After deduplication no two elements share a key. */
  lemma {:induction false} DedupDistinct<T, K>(xs: seq<T>, key: T -> K)
    ensures DistinctKeys(Dedup(xs, key), key)
    decreases |xs|
  {
    if xs != [] {
      var init := xs[..|xs| - 1];
      DedupDistinct(init, key);
    }
  }

  /** Each kept element is the first occurrence of its key in `xs`, and the
      kept elements appear in the order of those first occurrences. */
  lemma {:induction false} DedupFirstOccurrence<T, K>(xs: seq<T>, key: T -> K)
    ensures forall j :: 0 <= j < |Dedup(xs, key)| ==>
      HasKey(xs, key, key(Dedup(xs, key)[j])) &&
      Dedup(xs, key)[j] == xs[FirstIndex(xs, key, key(Dedup(xs, key)[j]))]
    ensures forall i, j :: 0 <= i < j < |Dedup(xs, key)| ==>
      HasKey(xs, key, key(Dedup(xs, key)[i])) && HasKey(xs, key, key(Dedup(xs, key)[j])) &&
      FirstIndex(xs, key, key(Dedup(xs, key)[i])) < FirstIndex(xs, key, key(Dedup(xs, key)[j]))
    decreases |xs|
  {
    if xs != [] {
      var n := |xs| - 1;
      var init := xs[..n];
      var x := xs[n];
      var r' := Dedup(init, key);
      var r := Dedup(xs, key);
      DedupFirstOccurrence(init, key);
      // Every key kept from the prefix has the same first index in `xs`.
      forall j | 0 <= j < |r'|
        ensures HasKey(xs, key, key(r'[j]))
        ensures FirstIndex(xs, key, key(r'[j])) == FirstIndex(init, key, key(r'[j]))
        ensures FirstIndex(init, key, key(r'[j])) < n
        ensures r'[j] == xs[FirstIndex(xs, key, key(r'[j]))]
      {
        var k := key(r'[j]);
        assert HasKey(init, key, k);
        HasKeyAppend(init, x, key, k);
        assert xs == init + [x];
        assert xs[..n] == init;
        var f := FirstIndex(init, key, k);
        assert FirstIndex(xs, key, k) == f;
        assert xs[f] == init[f];
      }
      if !HasKey(r', key, key(x)) {
        DedupKeys(init, key, key(x));
        HasKeyAppend(init, x, key, key(x));
        assert xs == init + [x];
        assert FirstIndex(xs, key, key(x)) == n;
        assert r == r' + [x];
        forall j | 0 <= j < |r|
          ensures HasKey(xs, key, key(r[j])) && r[j] == xs[FirstIndex(xs, key, key(r[j]))]
        {
          if j < |r'| {
            assert r[j] == r'[j];
          }
        }
      }
    }
  }

  /** A sequence whose keys are already distinct is left unchanged. */
  lemma {:induction false} DedupOfDistinct<T, K>(xs: seq<T>, key: T -> K)
    requires DistinctKeys(xs, key)
    ensures Dedup(xs, key) == xs
    decreases |xs|
  {
    if xs != [] {
      var n := |xs| - 1;
      var init := xs[..n];
      assert DistinctKeys(init, key) by {
        forall i, j | 0 <= i < j < |init| ensures key(init[i]) != key(init[j]) {
          assert init[i] == xs[i] && init[j] == xs[j];
        }
      }
      DedupOfDistinct(init, key);
      assert xs == init + [xs[n]];
    }
  }

  /** Deduplicating twice is the same as deduplicating once. */
  lemma DedupIdempotent<T, K>(xs: seq<T>, key: T -> K)
    ensures Dedup(Dedup(xs, key), key) == Dedup(xs, key)
  {
    DedupDistinct(xs, key);
    DedupOfDistinct(Dedup(xs, key), key);
  }
}

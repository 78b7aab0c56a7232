/** Sequence operations shared by every stage of the pipeline: the optional
    cell, boolean-mask selection (`df[mask]`), counting a mask (`mask.sum()`)
    and `drop_duplicates(subset=..., keep='first')` over a key extractor. */
module Common {

  /** A table cell that may be missing (NaN / NaT / None in the source). */
  datatype Option<T> = None | Some(value: T)

  /** Rows of `s` for which the mask `p` holds, in their original order. */
  function Filter<T>(s: seq<T>, p: T -> bool): (r: seq<T>)
    ensures |r| <= |s|
    ensures forall x :: x in r ==> x in s && p(x)
    ensures forall x :: x in s && p(x) ==> x in r
  {
    if s == [] then []
    else Filter(s[..|s| - 1], p) + (if p(s[|s| - 1]) then [s[|s| - 1]] else [])
  }

  /** A mask true on every row selects the whole table. */
  lemma {:induction false} FilterAll<T>(s: seq<T>, p: T -> bool)
    requires forall x :: x in s ==> p(x)
    ensures Filter(s, p) == s
  {
    if s != [] {
      var s', x := s[..|s| - 1], s[|s| - 1];
      assert s == s' + [x];
      forall y | y in s' ensures p(y) {
        assert y in s;
      }
      FilterAll(s', p);
      assert p(x);
    }
  }

  /** A mask false on every row selects nothing. */
  lemma {:induction false} FilterNone<T>(s: seq<T>, p: T -> bool)
    requires forall x :: x in s ==> !p(x)
    ensures Filter(s, p) == []
  {
    if s != [] {
      FilterNone(s[..|s| - 1], p);
    }
  }

  /** Number of rows of `s` for which the mask `p` holds. */
  function Count<T>(s: seq<T>, p: T -> bool): nat
  {
    if s == [] then 0
    else Count(s[..|s| - 1], p) + (if p(s[|s| - 1]) then 1 else 0)
  }

  /** Selection keeps relative order: filtering a concatenation filters each part. */
  lemma {:induction false} FilterConcat<T>(a: seq<T>, b: seq<T>, p: T -> bool)
    ensures Filter(a + b, p) == Filter(a, p) + Filter(b, p)
    decreases |b|
  {
    if b == [] {
      assert a + b == a;
    } else {
      var b' := b[..|b| - 1];
      assert (a + b)[..|a + b| - 1] == a + b';
      assert (a + b)[|a + b| - 1] == b[|b| - 1];
      FilterConcat(a, b', p);
    }
  }

  /** The selection has exactly as many rows as the mask has true entries. */
  lemma {:induction false} FilterCount<T>(s: seq<T>, p: T -> bool)
    ensures |Filter(s, p)| == Count(s, p)
  {
    if s != [] {
      FilterCount(s[..|s| - 1], p);
    }
  }

  /** A mask and its negation split the rows: their counts add up to the row count. */
  lemma {:induction false} CountComplement<T>(s: seq<T>, p: T -> bool, q: T -> bool)
    requires forall x :: q(x) == !p(x)
    ensures Count(s, p) + Count(s, q) == |s|
  {
    if s != [] {
      CountComplement(s[..|s| - 1], p, q);
    }
  }

  /** A count over a concatenation is the sum of the counts. */
  lemma {:induction false} CountConcat<T>(a: seq<T>, b: seq<T>, p: T -> bool)
    ensures Count(a + b, p) == Count(a, p) + Count(b, p)
    decreases |b|
  {
    if b == [] {
      assert a + b == a;
    } else {
      var b' := b[..|b| - 1];
      assert (a + b)[..|a + b| - 1] == a + b';
      CountConcat(a, b', p);
    }
  }

  /** The set of keys present in `s`. */
  function KeysOf<T, K>(s: seq<T>, key: T -> K): set<K>
  {
    set i | 0 <= i < |s| :: key(s[i])
  }

  /** Appending a row adds exactly its key. */
  lemma KeysOfSnoc<T, K>(s: seq<T>, x: T, key: T -> K)
    ensures KeysOf(s + [x], key) == KeysOf(s, key) + {key(x)}
  {
    var t := s + [x];
    forall k | k in KeysOf(t, key) ensures k in KeysOf(s, key) + {key(x)} {
      var i :| 0 <= i < |t| && key(t[i]) == k;
      if i < |s| { assert t[i] == s[i]; }
    }
    forall k | k in KeysOf(s, key) ensures k in KeysOf(t, key) {
      var i :| 0 <= i < |s| && key(s[i]) == k;
      assert t[i] == s[i];
    }
    assert t[|s|] == x;
  }

  /** Position of the first row of `s` whose key is `k`. */
  function FirstIndex<T, K(==)>(s: seq<T>, key: T -> K, k: K): (i: nat)
    requires k in KeysOf(s, key)
    ensures i < |s| && key(s[i]) == k
    ensures forall j :: 0 <= j < i ==> key(s[j]) != k
  {
    var s' := s[..|s| - 1];
    if k in KeysOf(s', key) then
      var i := FirstIndex(s', key, k);
      assert s[i] == s'[i];
      i
    else
      assert forall j :: 0 <= j < |s| - 1 ==> s[j] in s' && key(s[j]) in KeysOf(s', key);
      |s| - 1
  }

  /** Appending a row leaves the first position of every key already present unchanged. */
  lemma FirstIndexSnoc<T, K>(s: seq<T>, x: T, key: T -> K)
    ensures forall k :: k in KeysOf(s, key) ==>
      k in KeysOf(s + [x], key) && FirstIndex(s + [x], key, k) == FirstIndex(s, key, k)
  {
    KeysOfSnoc(s, x, key);
    forall k | k in KeysOf(s, key) ensures FirstIndex(s + [x], key, k) == FirstIndex(s, key, k) {
      var i := FirstIndex(s, key, k);
      assert (s + [x])[i] == s[i];
    }
  }

  /** An appended row with a new key is that key's first row. */
  lemma FirstIndexSnocNew<T, K>(s: seq<T>, x: T, key: T -> K)
    requires key(x) !in KeysOf(s, key)
    ensures key(x) in KeysOf(s + [x], key) && FirstIndex(s + [x], key, key(x)) == |s|
  {
    KeysOfSnoc(s, x, key);
    forall j | 0 <= j < |s| ensures key((s + [x])[j]) != key(x) {
      assert (s + [x])[j] == s[j];
    }
  }

  /** No two rows of `s` share a key. */
  ghost predicate DistinctKeys<T, K>(s: seq<T>, key: T -> K)
  {
    forall i, j :: 0 <= i < j < |s| ==> key(s[i]) != key(s[j])
  }

  /** `drop_duplicates(subset=key, keep='first')`: one row per distinct key,
      the first one. */
  function DedupFirst<T, K(==)>(s: seq<T>, key: T -> K): (r: seq<T>)
    ensures |r| <= |s|
    ensures KeysOf(r, key) == KeysOf(s, key)
    ensures forall i :: 0 <= i < |r| ==>
      key(r[i]) in KeysOf(s, key) && r[i] == s[FirstIndex(s, key, key(r[i]))]
    ensures forall i, j :: 0 <= i < j < |r| ==> key(r[i]) != key(r[j])
  {
    if s == [] then []
    else
      var s', x := s[..|s| - 1], s[|s| - 1];
      assert s == s' + [x];
      var r' := DedupFirst(s', key);
      KeysOfSnoc(s', x, key);
      FirstIndexSnoc(s', x, key);
      if key(x) in KeysOf(r', key) then r'
      else
        KeysOfSnoc(r', x, key);
        FirstIndexSnocNew(s', x, key);
        assert forall i :: 0 <= i < |r'| ==> key(r'[i]) in KeysOf(r', key);
        r' + [x]
  }

  /** The surviving rows keep the order of their keys' first occurrences. */
  lemma {:induction false} DedupKeepsOrder<T, K>(s: seq<T>, key: T -> K, i: nat, j: nat)
    requires i < j < |DedupFirst(s, key)|
    ensures var r := DedupFirst(s, key);
      key(r[i]) in KeysOf(s, key) && key(r[j]) in KeysOf(s, key) &&
      FirstIndex(s, key, key(r[i])) < FirstIndex(s, key, key(r[j]))
  {
    var s', x := s[..|s| - 1], s[|s| - 1];
    assert s == s' + [x];
    var r' := DedupFirst(s', key);
    FirstIndexSnoc(s', x, key);
    var r := DedupFirst(s, key);
    if key(x) in KeysOf(r', key) {
      assert r == r';
      DedupKeepsOrder(s', key, i, j);
    } else {
      FirstIndexSnocNew(s', x, key);
      assert r == r' + [x];
      var ki := key(r'[i]);
      assert ki in KeysOf(s', key);
      if j < |r'| {
        DedupKeepsOrder(s', key, i, j);
      } else {
        assert r[j] == x;
      }
    }
  }

  /** With keys already distinct, deduplication changes nothing. */
  lemma {:induction false} DedupDistinct<T, K>(s: seq<T>, key: T -> K)
    requires DistinctKeys(s, key)
    ensures DedupFirst(s, key) == s
  {
    if s != [] {
      var s', x := s[..|s| - 1], s[|s| - 1];
      assert s == s' + [x];
      assert DistinctKeys(s', key);
      DedupDistinct(s', key);
      assert key(x) !in KeysOf(s', key) by {
        forall y | y in s' ensures key(y) != key(x) {
          var j :| 0 <= j < |s'| && s'[j] == y;
          assert s[j] == y;
        }
      }
      assert key(x) !in KeysOf(DedupFirst(s', key), key);
      assert DedupFirst(s, key) == DedupFirst(s', key) + [x];
    }
  }

  /** Deduplicating twice is the same as deduplicating once. */
  lemma DedupIdempotent<T, K>(s: seq<T>, key: T -> K)
    ensures DedupFirst(DedupFirst(s, key), key) == DedupFirst(s, key)
  {
    DedupDistinct(DedupFirst(s, key), key);
  }
}

/** Order-preserving sequence helpers shared by the loader and the view:
    first-seen de-duplication (a JavaScript `Map` used as an ordered set)
    and `Array.prototype.filter`. */
module Seqs {

  /** No element occurs twice. */
  predicate Distinct<T(==)>(s: seq<T>) {
    forall i, j | 0 <= i < j < |s| :: s[i] != s[j]
  }

  /** The position of the first occurrence of `x` in `s`. */
  function FirstIndex<T(==)>(s: seq<T>, x: T): (k: nat)
    requires x in s
    ensures k < |s| && s[k] == x
    ensures forall i | 0 <= i < k :: s[i] != x
  {
    if s[0] == x then 0 else 1 + FirstIndex(s[1..], x)
  }

  /** `a` is obtained from `b` by deleting elements, keeping the order of the rest. */
  predicate IsSubsequence<T(==)>(a: seq<T>, b: seq<T>)
    decreases |b|
  {
    if |a| == 0 then true
    else if |b| == 0 then false
    else (a[|a| - 1] == b[|b| - 1] && IsSubsequence(a[..|a| - 1], b[..|b| - 1]))
         || IsSubsequence(a, b[..|b| - 1])
  }

  /** The elements of `s` in order of their first occurrence, each once: what
      inserting every element into an insertion-ordered set yields. */
  function Dedup<T(==,!new)>(s: seq<T>): (d: seq<T>)
    ensures Distinct(d)
    ensures forall x :: x in d <==> x in s
  {
    if |s| == 0 then []
    else
      var d := Dedup(s[..|s| - 1]);
      assert forall x :: x in s <==> x in s[..|s| - 1] || x == s[|s| - 1] by {
        assert s == s[..|s| - 1] + [s[|s| - 1]];
      }
      if s[|s| - 1] in d then d else d + [s[|s| - 1]]
  }

  /** The elements of `s` that satisfy `keep`, in their original order and
      with their original multiplicity. */
  function Filter<T(==,!new)>(s: seq<T>, keep: T -> bool): (r: seq<T>)
    ensures IsSubsequence(r, s)
    ensures forall x :: x in r <==> x in s && keep(x)
    ensures |r| <= |s|
  {
    if |s| == 0 then []
    else
      var last := s[|s| - 1];
      var r := Filter(s[..|s| - 1], keep);
      assert s == s[..|s| - 1] + [last];
      if keep(last) then r + [last] else r
  }

  /** Appending one element to the input of `Filter` appends it to the output
      exactly when it is kept. */
  lemma FilterSnoc<T(!new)>(s: seq<T>, x: T, keep: T -> bool)
    ensures Filter(s + [x], keep) == Filter(s, keep) + (if keep(x) then [x] else [])
  {
    assert (s + [x])[..|s + [x]| - 1] == s;
  }

  /** Filtering a concatenation filters each part. */
  lemma {:induction false} FilterAppend<T(!new)>(a: seq<T>, b: seq<T>, keep: T -> bool)
    ensures Filter(a + b, keep) == Filter(a, keep) + Filter(b, keep)
    decreases |b|
  {
    if |b| > 0 {
      var b', x := b[..|b| - 1], b[|b| - 1];
      assert b == b' + [x];
      assert a + b == (a + b') + [x];
      FilterSnoc(a + b', x, keep);
      FilterSnoc(b', x, keep);
      FilterAppend(a, b', keep);
    } else {
      assert a + b == a;
    }
  }

  /** A sequence whose every element is kept passes through unchanged. */
  lemma {:induction false} FilterKeepsAll<T(!new)>(s: seq<T>, keep: T -> bool)
    requires forall i | 0 <= i < |s| :: keep(s[i])
    ensures Filter(s, keep) == s
  {
    if |s| > 0 {
      FilterKeepsAll(s[..|s| - 1], keep);
      assert s == s[..|s| - 1] + [s[|s| - 1]];
    }
  }

  /** `Filter` keeps every kept element as often as it occurs and drops the rest. */
  lemma {:induction false} FilterCounts<T(!new)>(s: seq<T>, keep: T -> bool)
    ensures forall x :: multiset(Filter(s, keep))[x] == if keep(x) then multiset(s)[x] else 0
  {
    if |s| > 0 {
      var p, last := s[..|s| - 1], s[|s| - 1];
      assert s == p + [last];
      FilterCounts(p, keep);
      FilterSnoc(p, last, keep);
    }
  }

  /** Re-inserting elements into an insertion-ordered set never moves an element
      that is already there. */
  lemma DedupSnoc<T(!new)>(s: seq<T>, x: T)
    ensures Dedup(s + [x]) == if x in Dedup(s) then Dedup(s) else Dedup(s) + [x]
  {
    assert (s + [x])[..|s + [x]| - 1] == s;
  }

  lemma FirstIndexSnoc<T>(s: seq<T>, x: T, y: T)
    requires y in s
    ensures FirstIndex(s + [x], y) == FirstIndex(s, y)
  {
    if s[0] != y {
      assert (s + [x])[1..] == s[1..] + [x];
      FirstIndexSnoc(s[1..], x, y);
    }
  }

  /** `Dedup` lists the elements in the order in which they were first seen. */
  lemma {:induction false} DedupFirstSeenOrder<T(!new)>(s: seq<T>)
    ensures forall i, j | 0 <= i < j < |Dedup(s)| ::
      FirstIndex(s, Dedup(s)[i]) < FirstIndex(s, Dedup(s)[j])
  {
    if |s| > 0 {
      var p, x := s[..|s| - 1], s[|s| - 1];
      assert s == p + [x];
      DedupFirstSeenOrder(p);
      DedupSnoc(p, x);
      var d := Dedup(p);
      forall y | y in d
        ensures FirstIndex(s, y) == FirstIndex(p, y) < |p|
      {
        FirstIndexSnoc(p, x, y);
      }
      if x !in d {
        assert x !in p;
        assert FirstIndex(s, x) == |p|;
        var e := d + [x];
        assert Dedup(s) == e;
        forall i, j | 0 <= i < j < |e|
          ensures FirstIndex(s, e[i]) < FirstIndex(s, e[j])
        {
          assert e[i] == d[i] && d[i] in d;
          if j < |d| {
            assert e[j] == d[j] && d[j] in d;
          }
        }
      }
    }
  }

  /** A subsequence of a sequence whose elements have pairwise different keys
      also has pairwise different keys. */
  lemma {:induction false} SubsequenceKeepsKeysDistinct<T, K>(a: seq<T>, b: seq<T>, key: T -> K)
    requires IsSubsequence(a, b)
    requires forall i, j | 0 <= i < j < |b| :: key(b[i]) != key(b[j])
    ensures forall i, j | 0 <= i < j < |a| :: key(a[i]) != key(a[j])
    decreases |b|
  {
    if |a| > 0 {
      var a', b' := a[..|a| - 1], b[..|b| - 1];
      if a[|a| - 1] == b[|b| - 1] && IsSubsequence(a', b') {
        SubsequenceKeepsKeysDistinct(a', b', key);
        SubsequenceMembers(a', b');
        forall i | 0 <= i < |a'|
          ensures key(a[i]) != key(a[|a| - 1])
        {
          assert a[i] == a'[i] && a'[i] in b';
          var k :| 0 <= k < |b'| && b'[k] == a'[i];
          assert b[k] == a[i];
        }
      } else {
        SubsequenceKeepsKeysDistinct(a, b', key);
      }
    }
  }

  /** Every element of a subsequence is an element of the whole. */
  lemma {:induction false} SubsequenceMembers<T>(a: seq<T>, b: seq<T>)
    requires IsSubsequence(a, b)
    ensures forall x :: x in a ==> x in b
    decreases |b|
  {
    if |a| > 0 {
      var a', b' := a[..|a| - 1], b[..|b| - 1];
      assert a == a' + [a[|a| - 1]] && b == b' + [b[|b| - 1]];
      if a[|a| - 1] == b[|b| - 1] && IsSubsequence(a', b') {
        SubsequenceMembers(a', b');
      } else {
        SubsequenceMembers(a, b');
      }
    }
  }
}

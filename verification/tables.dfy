/** Tables as immutable sequences of rows, and the row-level operations of
    pandas that every pipeline uses: slicing, column-wise maps, `dropna`-style
    stable filters, key sets, uniqueness on a key and order-preserving
    subsequences. Key and predicate arguments are always named functions, so
    that two mentions of the same step denote the same value. */
module Tables {

  /** `df[:n]`: the first `min(n, |s|)` rows, unchanged and in order. */
  function Take<T>(s: seq<T>, n: nat): (r: seq<T>)
    ensures |r| <= n && |r| <= |s|
    ensures |s| <= n ==> r == s
    ensures n <= |s| ==> |r| == n
    ensures forall i :: 0 <= i < |r| ==> r[i] == s[i]
  {
    if |s| <= n then s else s[..n]
  }

  /** A column-wise rewrite (`df[c] = df[c].apply(f)`): one output row per input row. */
  function MapRows<T, U>(s: seq<T>, f: T -> U): (r: seq<U>)
    ensures |r| == |s|
    ensures forall i :: 0 <= i < |s| ==> r[i] == f(s[i])
  {
    seq(|s|, i requires 0 <= i < |s| => f(s[i]))
  }

  /** Order-preserving containment: `a` is obtained from `b` by deleting rows. */
  predicate IsSubsequence<T(==)>(a: seq<T>, b: seq<T>)
    decreases |b|
  {
    if |a| == 0 then true
    else if |b| == 0 then false
    else (a[|a| - 1] == b[|b| - 1] && IsSubsequence(a[..|a| - 1], b[..|b| - 1]))
         || IsSubsequence(a, b[..|b| - 1])
  }

  /** `df[mask]` / `dropna(subset=...)`: keep the rows satisfying `p`, in their order. */
  function Filter<T(==)>(s: seq<T>, p: T -> bool): (r: seq<T>)
    ensures |r| <= |s|
    ensures forall i :: 0 <= i < |r| ==> p(r[i]) && r[i] in s
    ensures forall i :: 0 <= i < |s| && p(s[i]) ==> s[i] in r
    ensures IsSubsequence(r, s)
  {
    if |s| == 0 then []
    else
      var q := s[..|s| - 1];
      var x := s[|s| - 1];
      assert s == q + [x];
      var f := Filter(q, p);
      SubsequenceExtend(f, q, x);
      FilterStepMembers(f, q, x, p);
      if p(x) then
        SubsequenceAppend(f, q, x);
        f + [x]
      else f
  }

  /** One step of `Filter`: extending the input by `x` keeps the membership
      facts when `x` is appended exactly if it satisfies `p`. */
  lemma FilterStepMembers<T>(f: seq<T>, q: seq<T>, x: T, p: T -> bool)
    requires forall i :: 0 <= i < |f| ==> p(f[i]) && f[i] in q
    requires forall i :: 0 <= i < |q| && p(q[i]) ==> q[i] in f
    ensures var r := if p(x) then f + [x] else f;
      && (forall i :: 0 <= i < |r| ==> p(r[i]) && r[i] in q + [x])
      && (forall i :: 0 <= i < |q + [x]| && p((q + [x])[i]) ==> (q + [x])[i] in r)
  {
    var r := if p(x) then f + [x] else f;
    forall i | 0 <= i < |r| ensures p(r[i]) && r[i] in q + [x] {
      if i < |f| {
        assert r[i] == f[i];
      }
    }
    forall i | 0 <= i < |q + [x]| && p((q + [x])[i]) ensures (q + [x])[i] in r {
      if i < |q| {
        assert (q + [x])[i] == q[i];
      }
    }
  }

  /** True when some row has key `k` (the key occurs in the column). */
  predicate HasKey<T, K(==)>(s: seq<T>, key: T -> K, k: K) {
    exists i :: 0 <= i < |s| && key(s[i]) == k
  }

  /** No two rows share a key (`df[c].is_unique`). */
  predicate UniqueOn<T, K(==)>(s: seq<T>, key: T -> K) {
    forall i, j :: 0 <= i < j < |s| ==> key(s[i]) != key(s[j])
  }

  /** Row `i` carries the first occurrence of its key. */
  predicate IsFirstOccurrence<T, K(==)>(s: seq<T>, key: T -> K, i: int) {
    0 <= i < |s| && forall j :: 0 <= j < i ==> key(s[j]) != key(s[i])
  }

  /** Row `i` carries the last occurrence of its key. */
  predicate IsLastOccurrence<T, K(==)>(s: seq<T>, key: T -> K, i: int) {
    0 <= i < |s| && forall j :: i < j < |s| ==> key(s[j]) != key(s[i])
  }

  /** Number of rows satisfying `p`: an independent count for a filter's length. */
  function Count<T>(s: seq<T>, p: T -> bool): nat {
    if |s| == 0 then 0 else Count(s[..|s| - 1], p) + (if p(s[|s| - 1]) then 1 else 0)
  }

  // ---------------------------------------------------------------------------
  // Lemmas about subsequences

  lemma SubsequenceExtend<T>(a: seq<T>, b: seq<T>, x: T)
    requires IsSubsequence(a, b)
    ensures IsSubsequence(a, b + [x])
  {
    assert (b + [x])[..|b|] == b;
  }

  lemma SubsequenceAppend<T>(a: seq<T>, b: seq<T>, x: T)
    requires IsSubsequence(a, b)
    ensures IsSubsequence(a + [x], b + [x])
  {
    assert (b + [x])[..|b|] == b;
    assert (a + [x])[..|a|] == a;
  }

  lemma {:induction false} SubsequenceRefl<T>(a: seq<T>)
    ensures IsSubsequence(a, a)
    decreases |a|
  {
    if |a| > 0 {
      SubsequenceRefl(a[..|a| - 1]);
    }
  }

  lemma {:induction false} SubsequencePrepend<T>(a: seq<T>, b: seq<T>, x: T)
    requires IsSubsequence(a, b)
    ensures IsSubsequence(a, [x] + b)
    decreases |b|
  {
    if |a| > 0 {
      var b' := b[..|b| - 1];
      assert ([x] + b)[..|b|] == [x] + b';
      if a[|a| - 1] == b[|b| - 1] && IsSubsequence(a[..|a| - 1], b') {
        SubsequencePrepend(a[..|a| - 1], b', x);
      } else {
        SubsequencePrepend(a, b', x);
      }
    }
  }

  lemma {:induction false} SingletonSubsequence<T>(x: T, b: seq<T>)
    ensures IsSubsequence([x], [x] + b)
    decreases |b|
  {
    if |b| == 0 {
      assert [x] + b == [x];
      assert [x][..0] == [];
    } else {
      assert ([x] + b)[..|b|] == [x] + b[..|b| - 1];
      SingletonSubsequence(x, b[..|b| - 1]);
    }
  }

  lemma {:induction false} SubsequencePrependBoth<T>(a: seq<T>, b: seq<T>, x: T)
    requires IsSubsequence(a, b)
    ensures IsSubsequence([x] + a, [x] + b)
    decreases |b|
  {
    if |a| == 0 {
      assert [x] + a == [x];
      SingletonSubsequence(x, b);
    } else {
      var a' := a[..|a| - 1];
      var b' := b[..|b| - 1];
      assert ([x] + a)[..|a|] == [x] + a';
      assert ([x] + b)[..|b|] == [x] + b';
      if a[|a| - 1] == b[|b| - 1] && IsSubsequence(a', b') {
        SubsequencePrependBoth(a', b', x);
      } else {
        SubsequencePrependBoth(a, b', x);
      }
    }
  }

  lemma {:induction false} SubsequenceTrans<T>(a: seq<T>, b: seq<T>, c: seq<T>)
    requires IsSubsequence(a, b) && IsSubsequence(b, c)
    ensures IsSubsequence(a, c)
    decreases |c|
  {
    if |a| > 0 {
      var a' := a[..|a| - 1];
      var b' := b[..|b| - 1];
      var c' := c[..|c| - 1];
      if b[|b| - 1] == c[|c| - 1] && IsSubsequence(b', c') {
        if a[|a| - 1] == b[|b| - 1] && IsSubsequence(a', b') {
          SubsequenceTrans(a', b', c');
        } else {
          SubsequenceTrans(a, b', c');
        }
      } else {
        SubsequenceTrans(a, b, c');
      }
    }
  }

  /** Every row of a subsequence is a row of the whole. */
  lemma {:induction false} SubsequenceMembers<T>(a: seq<T>, b: seq<T>)
    requires IsSubsequence(a, b)
    ensures forall i :: 0 <= i < |a| ==> a[i] in b
    decreases |b|
  {
    if |a| > 0 {
      var b' := b[..|b| - 1];
      assert b == b' + [b[|b| - 1]];
      if a[|a| - 1] == b[|b| - 1] && IsSubsequence(a[..|a| - 1], b') {
        SubsequenceMembers(a[..|a| - 1], b');
        assert a == a[..|a| - 1] + [a[|a| - 1]];
      } else {
        SubsequenceMembers(a, b');
      }
    }
  }

  /** Deleting rows cannot break uniqueness on a key. */
  lemma {:induction false} SubsequenceKeepsUnique<T, K>(a: seq<T>, b: seq<T>, key: T -> K)
    requires IsSubsequence(a, b) && UniqueOn(b, key)
    ensures UniqueOn(a, key)
    decreases |b|
  {
    if |a| > 0 {
      var a' := a[..|a| - 1];
      var b' := b[..|b| - 1];
      assert UniqueOn(b', key);
      if a[|a| - 1] == b[|b| - 1] && IsSubsequence(a', b') {
        SubsequenceKeepsUnique(a', b', key);
        SubsequenceMembers(a', b');
        forall i | 0 <= i < |a'| ensures key(a[i]) != key(a[|a| - 1]) {
          assert a[i] == a'[i] && a'[i] in b';
          var j :| 0 <= j < |b'| && b'[j] == a'[i];
          assert b[j] == b'[j];
        }
      } else {
        SubsequenceKeepsUnique(a, b', key);
      }
    }
  }

  // ---------------------------------------------------------------------------
  // Lemmas about filters

  /** A filter distributes over concatenation: the order of surviving rows is
      exactly their order in the input. */
  lemma {:induction false} FilterConcat<T>(a: seq<T>, b: seq<T>, p: T -> bool)
    ensures Filter(a + b, p) == Filter(a, p) + Filter(b, p)
    decreases |b|
  {
    if |b| == 0 {
      assert a + b == a;
    } else {
      var b' := b[..|b| - 1];
      assert (a + b)[..|a + b| - 1] == a + b';
      FilterConcat(a, b', p);
    }
  }

  /** Two successive `dropna` steps are one filter on the conjunction. */
  lemma {:induction false} FilterFilter<T>(s: seq<T>, p: T -> bool, q: T -> bool, pq: T -> bool)
    requires forall x :: pq(x) == (p(x) && q(x))
    ensures Filter(Filter(s, p), q) == Filter(s, pq)
    decreases |s|
  {
    if |s| > 0 {
      var s' := s[..|s| - 1];
      var x := s[|s| - 1];
      FilterFilter(s', p, q, pq);
      if p(x) {
        FilterConcat(Filter(s', p), [x], q);
        assert Filter([x], q) == (if q(x) then [x] else []) by {
          assert [x][..0] == [];
        }
      }
    }
  }

  /** A filter whose predicate holds everywhere changes nothing. */
  lemma {:induction false} FilterAll<T>(s: seq<T>, p: T -> bool)
    requires forall i :: 0 <= i < |s| ==> p(s[i])
    ensures Filter(s, p) == s
    decreases |s|
  {
    if |s| > 0 {
      FilterAll(s[..|s| - 1], p);
    }
  }

  /** The length of a filter is the number of rows satisfying its predicate. */
  lemma {:induction false} FilterLength<T>(s: seq<T>, p: T -> bool)
    ensures |Filter(s, p)| == Count(s, p)
    decreases |s|
  {
    if |s| > 0 {
      FilterLength(s[..|s| - 1], p);
    }
  }

  /** A filter after a rewrite that only ever touches rows the filter then
      drops is a filter on the original rows. */
  lemma {:induction false} FilterAfterMap<T>(s: seq<T>, f: T -> T, p: T -> bool, q: T -> bool)
    requires forall x :: q(x) == p(f(x))
    requires forall x :: q(x) ==> f(x) == x
    ensures Filter(MapRows(s, f), p) == Filter(s, q)
    decreases |s|
  {
    if |s| > 0 {
      var s' := s[..|s| - 1];
      assert MapRows(s, f)[..|s| - 1] == MapRows(s', f);
      FilterAfterMap(s', f, p, q);
    }
  }

  /** Filtering commutes with a rewrite that never changes the predicate. */
  lemma {:induction false} FilterMapCommute<T>(s: seq<T>, f: T -> T, p: T -> bool)
    requires forall x :: p(f(x)) == p(x)
    ensures Filter(MapRows(s, f), p) == MapRows(Filter(s, p), f)
    decreases |s|
  {
    if |s| > 0 {
      var s' := s[..|s| - 1];
      assert MapRows(s, f)[..|s| - 1] == MapRows(s', f);
      FilterMapCommute(s', f, p);
    }
  }

  /** A rewrite that keeps every row's key keeps uniqueness on that key. */
  lemma MapKeepsUnique<T, U, K>(s: seq<T>, f: T -> U, key: T -> K, key': U -> K)
    requires forall x :: key'(f(x)) == key(x)
    requires UniqueOn(s, key)
    ensures UniqueOn(MapRows(s, f), key')
  {
  }
}

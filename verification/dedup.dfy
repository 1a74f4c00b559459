/** `DataFrame.drop_duplicates(subset=key, keep='first' | 'last')`: a stable
    filter that keeps, for every key value, exactly one row (the earliest or the
    latest), leaving the surviving rows in their original order. */
module Dedup {
  import opened Tables

  /** `drop_duplicates(subset=key, keep='first')`: a row survives when no
      earlier row has its key. */
  function DropDuplicatesFirst<T(==), K(==)>(s: seq<T>, key: T -> K): (r: seq<T>)
    ensures |r| <= |s|
    ensures IsSubsequence(r, s)
    decreases |s|
  {
    if |s| == 0 then []
    else
      var q := s[..|s| - 1];
      var x := s[|s| - 1];
      var rq := DropDuplicatesFirst(q, key);
      assert s == q + [x];
      if HasKey(q, key, key(x)) then
        SubsequenceExtend(rq, q, x);
        rq
      else
        SubsequenceAppend(rq, q, x);
        rq + [x]
  }

  /** `drop_duplicates(subset=key, keep='last')`: a row survives when no later
      row has its key. */
  function DropDuplicatesLast<T(==), K(==)>(s: seq<T>, key: T -> K): (r: seq<T>)
    ensures |r| <= |s|
    ensures IsSubsequence(r, s)
    decreases |s|
  {
    if |s| == 0 then []
    else
      var x := s[0];
      var q := s[1..];
      var rq := DropDuplicatesLast(q, key);
      assert s == [x] + q;
      if HasKey(q, key, key(x)) then
        SubsequencePrepend(rq, q, x);
        rq
      else
        SubsequencePrependBoth(rq, q, x);
        [x] + rq
  }

  lemma HasKeySnoc<T, K>(q: seq<T>, x: T, key: T -> K, k: K)
    ensures HasKey(q + [x], key, k) <==> HasKey(q, key, k) || key(x) == k
  {
    var s := q + [x];
    if HasKey(s, key, k) && key(x) != k {
      var i :| 0 <= i < |s| && key(s[i]) == k;
      assert key(q[i]) == k;
    }
    if HasKey(q, key, k) {
      var i :| 0 <= i < |q| && key(q[i]) == k;
      assert key(s[i]) == k;
    }
    assert s[|q|] == x;
  }

  lemma HasKeyCons<T, K>(x: T, q: seq<T>, key: T -> K, k: K)
    ensures HasKey([x] + q, key, k) <==> HasKey(q, key, k) || key(x) == k
  {
    var s := [x] + q;
    if HasKey(s, key, k) && key(x) != k {
      var i :| 0 <= i < |s| && key(s[i]) == k;
      assert key(q[i - 1]) == k;
    }
    if HasKey(q, key, k) {
      var i :| 0 <= i < |q| && key(q[i]) == k;
      assert key(s[i + 1]) == k;
    }
    assert s[0] == x;
  }

  // ---------------------------------------------------------------------------
  // keep='first'

  /** Keep-first loses no key value and invents none. */
  lemma {:induction false} DropFirstKeys<T, K>(s: seq<T>, key: T -> K, k: K)
    ensures HasKey(DropDuplicatesFirst(s, key), key, k) <==> HasKey(s, key, k)
    decreases |s|
  {
    if |s| > 0 {
      var q := s[..|s| - 1];
      var x := s[|s| - 1];
      assert s == q + [x];
      HasKeySnoc(q, x, key, k);
      DropFirstKeys(q, key, k);
      if !HasKey(q, key, key(x)) {
        HasKeySnoc(DropDuplicatesFirst(q, key), x, key, k);
      }
    }
  }

  /** Keep-first leaves at most one row per key value. */
  lemma {:induction false} DropFirstUnique<T, K>(s: seq<T>, key: T -> K)
    ensures UniqueOn(DropDuplicatesFirst(s, key), key)
    decreases |s|
  {
    if |s| > 0 {
      var q := s[..|s| - 1];
      var x := s[|s| - 1];
      var rq := DropDuplicatesFirst(q, key);
      DropFirstUnique(q, key);
      if !HasKey(q, key, key(x)) {
        forall i | 0 <= i < |rq| ensures key(rq[i]) != key(x) {
          assert HasKey(rq, key, key(rq[i]));
          DropFirstKeys(q, key, key(rq[i]));
        }
      }
    }
  }

  /** The row kept for a key is the first row of the input carrying that key. */
  lemma {:induction false} DropFirstKeepsFirst<T, K>(s: seq<T>, key: T -> K, k: nat, i: nat)
    requires k < |DropDuplicatesFirst(s, key)|
    requires IsFirstOccurrence(s, key, i) && key(s[i]) == key(DropDuplicatesFirst(s, key)[k])
    ensures DropDuplicatesFirst(s, key)[k] == s[i]
    decreases |s|
  {
    var q := s[..|s| - 1];
    var x := s[|s| - 1];
    var rq := DropDuplicatesFirst(q, key);
    var r := DropDuplicatesFirst(s, key);
    if k < |rq| {
      assert r[k] == rq[k];
      assert HasKey(rq, key, key(rq[k]));
      DropFirstKeys(q, key, key(rq[k]));
      var j :| 0 <= j < |q| && key(q[j]) == key(rq[k]);
      assert i <= j && i < |q|;
      assert IsFirstOccurrence(q, key, i);
      DropFirstKeepsFirst(q, key, k, i);
    } else {
      assert r[k] == x;
      assert !HasKey(q, key, key(x));
      assert i == |q| by { assert forall m :: 0 <= m < |q| ==> s[m] == q[m]; }
    }
  }

  /** Keep-first keeps the order of first appearance: every occurrence of a
      later survivor's key comes after some occurrence of an earlier
      survivor's key. */
  lemma {:induction false} DropFirstOrder<T, K>(s: seq<T>, key: T -> K, a: nat, b: nat, j: nat)
    requires a < b < |DropDuplicatesFirst(s, key)|
    requires j < |s| && key(s[j]) == key(DropDuplicatesFirst(s, key)[b])
    ensures HasKey(s[..j], key, key(DropDuplicatesFirst(s, key)[a]))
    decreases |s|
  {
    var q := s[..|s| - 1];
    var x := s[|s| - 1];
    var rq := DropDuplicatesFirst(q, key);
    var r := DropDuplicatesFirst(s, key);
    var k := key(r[a]);
    if b < |rq| {
      assert r[a] == rq[a] && r[b] == rq[b];
      var j' := j;
      if j == |q| {
        assert HasKey(rq, key, key(rq[b]));
        DropFirstKeys(q, key, key(rq[b]));
        j' :| 0 <= j' < |q| && key(q[j']) == key(rq[b]);
      }
      DropFirstOrder(q, key, a, b, j');
      var i :| 0 <= i < |q[..j']| && key(q[..j'][i]) == k;
      assert s[..j][i] == q[i];
    } else {
      assert r[b] == x && r[a] == rq[a];
      assert !HasKey(q, key, key(x));
      assert j == |q| by { assert forall m :: 0 <= m < |q| ==> s[m] == q[m]; }
      assert s[..j] == q;
      assert HasKey(rq, key, k);
      DropFirstKeys(q, key, k);
    }
  }

  /** Keep-first, stated without reference to its recursion: unique on the key,
      the same key values as the input, each kept row the first occurrence of
      its key, survivors in order of first appearance, and rows only removed. */
  lemma DropFirstSpec<T, K>(s: seq<T>, key: T -> K)
    ensures var r := DropDuplicatesFirst(s, key);
      && UniqueOn(r, key)
      && (forall k :: HasKey(r, key, k) <==> HasKey(s, key, k))
      && (forall k, i :: 0 <= k < |r| && IsFirstOccurrence(s, key, i) && key(s[i]) == key(r[k])
            ==> r[k] == s[i])
      && (forall a, b, j :: 0 <= a < b < |r| && 0 <= j < |s| && key(s[j]) == key(r[b])
            ==> HasKey(s[..j], key, key(r[a])))
      && IsSubsequence(r, s)
  {
    var r := DropDuplicatesFirst(s, key);
    forall a, b, j | 0 <= a < b < |r| && 0 <= j < |s| && key(s[j]) == key(r[b])
      ensures HasKey(s[..j], key, key(r[a]))
    {
      DropFirstOrder(s, key, a, b, j);
    }
    DropFirstUnique(s, key);
    forall k ensures HasKey(r, key, k) <==> HasKey(s, key, k) {
      DropFirstKeys(s, key, k);
    }
    forall k, i | 0 <= k < |r| && IsFirstOccurrence(s, key, i) && key(s[i]) == key(r[k])
      ensures r[k] == s[i]
    {
      DropFirstKeepsFirst(s, key, k, i);
    }
  }

  /** A table already unique on the key passes through keep-first untouched. */
  lemma {:induction false} DropFirstOfUnique<T, K>(s: seq<T>, key: T -> K)
    requires UniqueOn(s, key)
    ensures DropDuplicatesFirst(s, key) == s
    decreases |s|
  {
    if |s| > 0 {
      var q := s[..|s| - 1];
      assert UniqueOn(q, key);
      DropFirstOfUnique(q, key);
      assert !HasKey(q, key, key(s[|s| - 1])) by {
        forall i | 0 <= i < |q| ensures key(q[i]) != key(s[|s| - 1]) { assert q[i] == s[i]; }
      }
      assert s == q + [s[|s| - 1]];
    }
  }

  /** Deduplicating twice on the same key is deduplicating once. */
  lemma DropFirstIdempotent<T, K>(s: seq<T>, key: T -> K)
    ensures DropDuplicatesFirst(DropDuplicatesFirst(s, key), key) == DropDuplicatesFirst(s, key)
  {
    DropFirstUnique(s, key);
    DropFirstOfUnique(DropDuplicatesFirst(s, key), key);
  }

  // ---------------------------------------------------------------------------
  // keep='last'

  /** Keep-last loses no key value and invents none. */
  lemma {:induction false} DropLastKeys<T, K>(s: seq<T>, key: T -> K, k: K)
    ensures HasKey(DropDuplicatesLast(s, key), key, k) <==> HasKey(s, key, k)
    decreases |s|
  {
    if |s| > 0 {
      var x := s[0];
      var q := s[1..];
      assert s == [x] + q;
      HasKeyCons(x, q, key, k);
      DropLastKeys(q, key, k);
      if !HasKey(q, key, key(x)) {
        HasKeyCons(x, DropDuplicatesLast(q, key), key, k);
      }
    }
  }

  /** Keep-last leaves at most one row per key value. */
  lemma {:induction false} DropLastUnique<T, K>(s: seq<T>, key: T -> K)
    ensures UniqueOn(DropDuplicatesLast(s, key), key)
    decreases |s|
  {
    if |s| > 0 {
      var x := s[0];
      var q := s[1..];
      var rq := DropDuplicatesLast(q, key);
      DropLastUnique(q, key);
      if !HasKey(q, key, key(x)) {
        forall i | 0 <= i < |rq| ensures key(rq[i]) != key(x) {
          assert HasKey(rq, key, key(rq[i]));
          DropLastKeys(q, key, key(rq[i]));
        }
        var r := [x] + rq;
        forall i, j | 0 <= i < j < |r| ensures key(r[i]) != key(r[j]) {
          if i == 0 { assert r[j] == rq[j - 1]; } else { assert r[i] == rq[i - 1] && r[j] == rq[j - 1]; }
        }
      }
    }
  }

  /** The row kept for a key is the last row of the input carrying that key. */
  lemma {:induction false} DropLastKeepsLast<T, K>(s: seq<T>, key: T -> K, k: nat, i: nat)
    requires k < |DropDuplicatesLast(s, key)|
    requires IsLastOccurrence(s, key, i) && key(s[i]) == key(DropDuplicatesLast(s, key)[k])
    ensures DropDuplicatesLast(s, key)[k] == s[i]
    decreases |s|
  {
    var x := s[0];
    var q := s[1..];
    var rq := DropDuplicatesLast(q, key);
    var r := DropDuplicatesLast(s, key);
    var off := if HasKey(q, key, key(x)) then 0 else 1;
    if k >= off {
      assert r[k] == rq[k - off];
      assert HasKey(rq, key, key(rq[k - off]));
      DropLastKeys(q, key, key(rq[k - off]));
      var j :| 0 <= j < |q| && key(q[j]) == key(rq[k - off]);
      assert j + 1 <= i && i > 0;
      assert IsLastOccurrence(q, key, i - 1);
      DropLastKeepsLast(q, key, k - off, i - 1);
    } else {
      assert r[k] == x;
      assert !HasKey(q, key, key(x));
      assert i == 0 by { assert forall m :: 0 < m < |s| ==> s[m] == q[m - 1]; }
    }
  }

  /** Keep-last keeps the order of last appearance: every occurrence of an
      earlier survivor's key comes before some occurrence of a later
      survivor's key. */
  lemma {:induction false} DropLastOrder<T, K>(s: seq<T>, key: T -> K, a: nat, b: nat, j: nat)
    requires a < b < |DropDuplicatesLast(s, key)|
    requires j < |s| && key(s[j]) == key(DropDuplicatesLast(s, key)[a])
    ensures HasKey(s[j + 1..], key, key(DropDuplicatesLast(s, key)[b]))
    decreases |s|
  {
    var x := s[0];
    var q := s[1..];
    var rq := DropDuplicatesLast(q, key);
    var r := DropDuplicatesLast(s, key);
    var k := key(r[b]);
    var off := if HasKey(q, key, key(x)) then 0 else 1;
    if a >= off {
      assert r[a] == rq[a - off] && r[b] == rq[b - off];
      var j' := j;
      if j == 0 {
        assert HasKey(rq, key, key(rq[a - off]));
        DropLastKeys(q, key, key(rq[a - off]));
        var m :| 0 <= m < |q| && key(q[m]) == key(rq[a - off]);
        j' := m + 1;
      }
      DropLastOrder(q, key, a - off, b - off, j' - 1);
      var i :| 0 <= i < |q[j'..]| && key(q[j'..][i]) == k;
      assert s[j + 1..][i + j' - j] == q[j'..][i];
    } else {
      assert r[a] == x && r[b] == rq[b - 1];
      assert j == 0;
      assert s[j + 1..] == q;
      assert HasKey(rq, key, k);
      DropLastKeys(q, key, k);
    }
  }

  /** Keep-last, stated without reference to its recursion: unique on the key,
      the same key values as the input, each kept row the last occurrence of
      its key, survivors in order of last appearance, and rows only removed. */
  lemma DropLastSpec<T, K>(s: seq<T>, key: T -> K)
    ensures var r := DropDuplicatesLast(s, key);
      && UniqueOn(r, key)
      && (forall k :: HasKey(r, key, k) <==> HasKey(s, key, k))
      && (forall k, i :: 0 <= k < |r| && IsLastOccurrence(s, key, i) && key(s[i]) == key(r[k])
            ==> r[k] == s[i])
      && (forall a, b, j :: 0 <= a < b < |r| && 0 <= j < |s| && key(s[j]) == key(r[a])
            ==> HasKey(s[j + 1..], key, key(r[b])))
      && IsSubsequence(r, s)
  {
    var r := DropDuplicatesLast(s, key);
    forall a, b, j | 0 <= a < b < |r| && 0 <= j < |s| && key(s[j]) == key(r[a])
      ensures HasKey(s[j + 1..], key, key(r[b]))
    {
      DropLastOrder(s, key, a, b, j);
    }
    DropLastUnique(s, key);
    forall k ensures HasKey(r, key, k) <==> HasKey(s, key, k) {
      DropLastKeys(s, key, k);
    }
    forall k, i | 0 <= k < |r| && IsLastOccurrence(s, key, i) && key(s[i]) == key(r[k])
      ensures r[k] == s[i]
    {
      DropLastKeepsLast(s, key, k, i);
    }
  }

  /** A table already unique on the key passes through keep-last untouched. */
  lemma {:induction false} DropLastOfUnique<T, K>(s: seq<T>, key: T -> K)
    requires UniqueOn(s, key)
    ensures DropDuplicatesLast(s, key) == s
    decreases |s|
  {
    if |s| > 0 {
      var q := s[1..];
      assert UniqueOn(q, key);
      DropLastOfUnique(q, key);
      assert !HasKey(q, key, key(s[0])) by {
        forall i | 0 <= i < |q| ensures key(q[i]) != key(s[0]) { assert q[i] == s[i + 1]; }
      }
      assert s == [s[0]] + q;
    }
  }

  lemma DropLastIdempotent<T, K>(s: seq<T>, key: T -> K)
    ensures DropDuplicatesLast(DropDuplicatesLast(s, key), key) == DropDuplicatesLast(s, key)
  {
    DropLastUnique(s, key);
    DropLastOfUnique(DropDuplicatesLast(s, key), key);
  }
}

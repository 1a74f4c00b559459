/** `pd.merge(left, right, on=key, how='left' | 'right')`. A left merge emits,
    for each left row in order, one row per matching right row (in right order),
    or a single row with missing right columns when nothing matches. A right
    merge is the left merge with the sides exchanged, which is how pandas
    computes it. Keys compare with `==`, so a missing key matches a missing
    key, as NaN keys do in pandas. */
module Join {
  import opened Wrappers
  import opened Tables

  /** The right rows whose key is `k`, in their order. */
  function Matches<R, K(==)>(right: seq<R>, rk: R -> K, k: K): (m: seq<R>)
    ensures |m| <= |right|
    ensures forall i :: 0 <= i < |m| ==> rk(m[i]) == k
    decreases |right|
  {
    if |right| == 0 then []
    else
      var x := right[|right| - 1];
      Matches(right[..|right| - 1], rk, k) + (if rk(x) == k then [x] else [])
  }

  /** The first right row whose key is `k`, if any. */
  function Lookup<R, K(==)>(right: seq<R>, rk: R -> K, k: K): Option<R> {
    var m := Matches(right, rk, k);
    if |m| == 0 then None else Some(m[0])
  }

  /** The output rows one left row contributes. */
  function RowsFor<L, R, K(==)>(x: L, right: seq<R>, lk: L -> K, rk: R -> K): seq<(L, Option<R>)> {
    var m := Matches(right, rk, lk(x));
    if |m| == 0 then [(x, None)]
    else seq(|m|, i requires 0 <= i < |m| => (x, Some(m[i])))
  }

  /** `pd.merge(left, right, on=key, how='left')`. */
  function LeftMerge<L, R, K(==)>(left: seq<L>, right: seq<R>, lk: L -> K, rk: R -> K)
    : (r: seq<(L, Option<R>)>)
    ensures |r| >= |left|
    decreases |left|
  {
    if |left| == 0 then []
    else LeftMerge(left[..|left| - 1], right, lk, rk) + RowsFor(left[|left| - 1], right, lk, rk)
  }

  function Swap<A, B>(p: (A, B)): (B, A) {
    (p.1, p.0)
  }

  /** `pd.merge(left, right, on=key, how='right')`. */
  function RightMerge<L, R, K(==)>(left: seq<L>, right: seq<R>, lk: L -> K, rk: R -> K)
    : (r: seq<(Option<L>, R)>)
    ensures |r| >= |right|
  {
    MapRows(LeftMerge(right, left, rk, lk), Swap<R, Option<L>>)
  }

  // ---------------------------------------------------------------------------
  // Matches and lookup

  /** Some right row has the key exactly when the key has matches. */
  lemma {:induction false} MatchesEmpty<R, K>(right: seq<R>, rk: R -> K, k: K)
    ensures |Matches(right, rk, k)| == 0 <==> !HasKey(right, rk, k)
    decreases |right|
  {
    if |right| > 0 {
      var q := right[..|right| - 1];
      MatchesEmpty(q, rk, k);
      if HasKey(right, rk, k) && rk(right[|right| - 1]) != k {
        var i :| 0 <= i < |right| && rk(right[i]) == k;
        assert rk(q[i]) == k;
      }
      if HasKey(q, rk, k) {
        var i :| 0 <= i < |q| && rk(q[i]) == k;
        assert rk(right[i]) == k;
      }
    }
  }

  /** Every match is a right row. */
  lemma {:induction false} MatchesMembers<R, K>(right: seq<R>, rk: R -> K, k: K)
    ensures forall i :: 0 <= i < |Matches(right, rk, k)| ==> Matches(right, rk, k)[i] in right
    decreases |right|
  {
    if |right| > 0 {
      var q := right[..|right| - 1];
      MatchesMembers(q, rk, k);
      assert right == q + [right[|right| - 1]];
    }
  }

  /** On a right side unique on its key, a key has at most one match. */
  lemma {:induction false} UniqueMatches<R, K>(right: seq<R>, rk: R -> K, k: K)
    requires UniqueOn(right, rk)
    ensures |Matches(right, rk, k)| <= 1
    decreases |right|
  {
    if |right| > 0 {
      var q := right[..|right| - 1];
      var x := right[|right| - 1];
      assert UniqueOn(q, rk);
      UniqueMatches(q, rk, k);
      if rk(x) == k {
        assert !HasKey(q, rk, k) by {
          forall i | 0 <= i < |q| ensures rk(q[i]) != k { assert q[i] == right[i]; }
        }
        MatchesEmpty(q, rk, k);
      }
    }
  }

  /** The lookup finds a right row with the key exactly when one exists. */
  lemma LookupSpec<R, K>(right: seq<R>, rk: R -> K, k: K)
    ensures Lookup(right, rk, k).None? <==> !HasKey(right, rk, k)
    ensures Lookup(right, rk, k).Some? ==>
              Lookup(right, rk, k).value in right && rk(Lookup(right, rk, k).value) == k
  {
    MatchesEmpty(right, rk, k);
    MatchesMembers(right, rk, k);
  }

  // ---------------------------------------------------------------------------
  // Left merge

  /** The rows a single left row contributes all carry it, and each carries a
      right row with its key, or nothing when no right row has its key. */
  lemma RowsForRow<L, R, K>(x: L, right: seq<R>, lk: L -> K, rk: R -> K, j: nat)
    requires j < |RowsFor(x, right, lk, rk)|
    ensures var p := RowsFor(x, right, lk, rk)[j];
      && p.0 == x
      && (p.1.Some? ==> p.1.value in right && rk(p.1.value) == lk(x))
      && (p.1.None? ==> !HasKey(right, rk, lk(x)))
  {
    MatchesEmpty(right, rk, lk(x));
    MatchesMembers(right, rk, lk(x));
  }

  /** Output row `j` pairs a left row with a right row of the same key, or with
      a missing right side when no right row has that key. */
  lemma {:induction false} LeftMergeRow<L, R, K>(left: seq<L>, right: seq<R>, lk: L -> K, rk: R -> K, j: nat)
    requires j < |LeftMerge(left, right, lk, rk)|
    ensures var p := LeftMerge(left, right, lk, rk)[j];
      && p.0 in left
      && (p.1.Some? ==> p.1.value in right && rk(p.1.value) == lk(p.0))
      && (p.1.None? ==> !HasKey(right, rk, lk(p.0)))
    decreases |left|
  {
    var q := left[..|left| - 1];
    var x := left[|left| - 1];
    var a := LeftMerge(q, right, lk, rk);
    assert left == q + [x];
    if j < |a| {
      LeftMergeRow(q, right, lk, rk, j);
    } else {
      RowsForRow(x, right, lk, rk, j - |a|);
    }
  }

  /** Every output row pairs a left row with a right row of the same key, or
      with a missing right side when no right row has that key. */
  lemma LeftMergeRows<L, R, K>(left: seq<L>, right: seq<R>, lk: L -> K, rk: R -> K)
    ensures var r := LeftMerge(left, right, lk, rk);
      forall j :: 0 <= j < |r| ==>
        && r[j].0 in left
        && (r[j].1.Some? ==> r[j].1.value in right && rk(r[j].1.value) == lk(r[j].0))
        && (r[j].1.None? ==> !HasKey(right, rk, lk(r[j].0)))
  {
    forall j | 0 <= j < |LeftMerge(left, right, lk, rk)| {
      LeftMergeRow(left, right, lk, rk, j);
    }
  }

  /** Every left row appears in the output at least once. */
  lemma {:induction false} LeftMergeKeepsLeft<L, R, K>(left: seq<L>, right: seq<R>, lk: L -> K, rk: R -> K, i: nat)
    requires i < |left|
    ensures exists j :: 0 <= j < |LeftMerge(left, right, lk, rk)| && LeftMerge(left, right, lk, rk)[j].0 == left[i]
    decreases |left|
  {
    if i < |left| - 1 {
      LeftMergeKeepsLeft(left[..|left| - 1], right, lk, rk, i);
      KeepsEarlierLeft(left, right, lk, rk, i);
    } else {
      KeepsLastLeft(left, right, lk, rk);
    }
  }

  /** A left row already in the output for a prefix stays in it. */
  lemma KeepsEarlierLeft<L, R, K>(left: seq<L>, right: seq<R>, lk: L -> K, rk: R -> K, i: nat)
    requires i < |left| - 1
    requires var a := LeftMerge(left[..|left| - 1], right, lk, rk);
      exists j :: 0 <= j < |a| && a[j].0 == left[..|left| - 1][i]
    ensures exists j :: 0 <= j < |LeftMerge(left, right, lk, rk)| && LeftMerge(left, right, lk, rk)[j].0 == left[i]
  {
    var a := LeftMerge(left[..|left| - 1], right, lk, rk);
    var r := LeftMerge(left, right, lk, rk);
    var j :| 0 <= j < |a| && a[j].0 == left[..|left| - 1][i];
    assert r == a + RowsFor(left[|left| - 1], right, lk, rk);
    assert r[j] == a[j];
  }

  /** The last left row is in the output. */
  lemma KeepsLastLeft<L, R, K>(left: seq<L>, right: seq<R>, lk: L -> K, rk: R -> K)
    requires |left| > 0
    ensures exists j :: 0 <= j < |LeftMerge(left, right, lk, rk)| && LeftMerge(left, right, lk, rk)[j].0 == left[|left| - 1]
  {
    var a := LeftMerge(left[..|left| - 1], right, lk, rk);
    var b := RowsFor(left[|left| - 1], right, lk, rk);
    var r := LeftMerge(left, right, lk, rk);
    RowsForHead(left[|left| - 1], right, lk, rk);
    assert r == a + b;
    assert r[|a|] == b[0];
  }

  /** Every right row carrying the key is among the key's matches. */
  lemma {:induction false} MatchesComplete<R, K>(right: seq<R>, rk: R -> K, j: nat)
    requires j < |right|
    ensures right[j] in Matches(right, rk, rk(right[j]))
    decreases |right|
  {
    var q := right[..|right| - 1];
    if j < |q| {
      assert right[j] == q[j];
      MatchesComplete(q, rk, j);
    }
  }

  /** Each right row matching a left row yields an output row pairing them. */
  lemma RowsForComplete<L, R, K>(x: L, right: seq<R>, lk: L -> K, rk: R -> K, j: nat)
    requires j < |right| && rk(right[j]) == lk(x)
    ensures (x, Some(right[j])) in RowsFor(x, right, lk, rk)
  {
    MatchesComplete(right, rk, j);
    var m := Matches(right, rk, lk(x));
    var t :| 0 <= t < |m| && m[t] == right[j];
    assert RowsFor(x, right, lk, rk)[t] == (x, Some(right[j]));
  }

  /** No matching pair is lost: every left row and every right row with the
      same key appear together in some output row. */
  lemma {:induction false} LeftMergeComplete<L, R, K>(left: seq<L>, right: seq<R>, lk: L -> K, rk: R -> K,
                                                      i: nat, j: nat)
    requires i < |left| && j < |right| && rk(right[j]) == lk(left[i])
    ensures (left[i], Some(right[j])) in LeftMerge(left, right, lk, rk)
    decreases |left|
  {
    var q := left[..|left| - 1];
    if i < |q| {
      assert left[i] == q[i];
      LeftMergeComplete(q, right, lk, rk, i, j);
      LeftMergeGrows(left, right, lk, rk, (left[i], Some(right[j])));
    } else {
      RowsForComplete(left[i], right, lk, rk, j);
      LeftMergeEndsWith(left, right, lk, rk, (left[i], Some(right[j])));
    }
  }

  /** Rows emitted for a prefix of the left side stay in the output. */
  lemma LeftMergeGrows<L, R, K>(left: seq<L>, right: seq<R>, lk: L -> K, rk: R -> K, p: (L, Option<R>))
    requires |left| > 0 && p in LeftMerge(left[..|left| - 1], right, lk, rk)
    ensures p in LeftMerge(left, right, lk, rk)
  {
  }

  /** The rows of the last left row are in the output. */
  lemma LeftMergeEndsWith<L, R, K>(left: seq<L>, right: seq<R>, lk: L -> K, rk: R -> K, p: (L, Option<R>))
    requires |left| > 0 && p in RowsFor(left[|left| - 1], right, lk, rk)
    ensures p in LeftMerge(left, right, lk, rk)
  {
  }

  /** A left row always contributes at least one output row. */
  lemma RowsForHead<L, R, K>(x: L, right: seq<R>, lk: L -> K, rk: R -> K)
    ensures |RowsFor(x, right, lk, rk)| >= 1 && RowsFor(x, right, lk, rk)[0].0 == x
  {
  }

  /** Against a right side unique on its key, a left row contributes exactly
      one output row, carrying its lookup. */
  lemma RowsForUnique<L, R, K>(x: L, right: seq<R>, lk: L -> K, rk: R -> K)
    requires UniqueOn(right, rk)
    ensures RowsFor(x, right, lk, rk) == [(x, Lookup(right, rk, lk(x)))]
  {
    UniqueMatches(right, rk, lk(x));
  }

  /** With a right side unique on its key, the left merge is a row-by-row
      lookup: exactly one output row per left row, in order, carrying the
      matching right row or nothing. */
  lemma {:induction false} LeftMergeUniqueRight<L, R, K>(left: seq<L>, right: seq<R>, lk: L -> K, rk: R -> K)
    requires UniqueOn(right, rk)
    ensures |LeftMerge(left, right, lk, rk)| == |left|
    ensures forall i :: 0 <= i < |left| ==>
              LeftMerge(left, right, lk, rk)[i] == (left[i], Lookup(right, rk, lk(left[i])))
    decreases |left|
  {
    if |left| > 0 {
      LeftMergeUniqueRight(left[..|left| - 1], right, lk, rk);
      RowsForUnique(left[|left| - 1], right, lk, rk);
      LookupStep(left, right, lk, rk);
    }
  }

  /** One step of the induction above: a row-by-row lookup for all but the
      last left row, extended by the last row's single output row. */
  lemma LookupStep<L, R, K>(left: seq<L>, right: seq<R>, lk: L -> K, rk: R -> K)
    requires |left| > 0
    requires var q := left[..|left| - 1];
      && |LeftMerge(q, right, lk, rk)| == |q|
      && (forall i :: 0 <= i < |q| ==> LeftMerge(q, right, lk, rk)[i] == (q[i], Lookup(right, rk, lk(q[i]))))
    requires RowsFor(left[|left| - 1], right, lk, rk)
             == [(left[|left| - 1], Lookup(right, rk, lk(left[|left| - 1])))]
    ensures |LeftMerge(left, right, lk, rk)| == |left|
    ensures forall i :: 0 <= i < |left| ==>
              LeftMerge(left, right, lk, rk)[i] == (left[i], Lookup(right, rk, lk(left[i])))
  {
    var q := left[..|left| - 1];
    var a := LeftMerge(q, right, lk, rk);
    var b := RowsFor(left[|left| - 1], right, lk, rk);
    var r := LeftMerge(left, right, lk, rk);
    assert r == a + b;
    forall i | 0 <= i < |left| ensures r[i] == (left[i], Lookup(right, rk, lk(left[i]))) {
      if i < |q| {
        assert r[i] == a[i];
        assert left[i] == q[i];
      } else {
        assert r[i] == b[0];
      }
    }
  }

  /** Duplicate keys on the right multiply left rows: a left merge need not
      preserve the row count. */
  lemma LeftMergeCanGrow()
    ensures |LeftMerge([0], [0, 0], Ident, Ident)| == 2
  {
    assert [0, 0][..1] == [0];
    assert [0][..0] == [];
    assert Matches([0, 0], Ident, 0) == [0, 0];
  }

  function Ident(x: int): int { x }

  // ---------------------------------------------------------------------------
  // Right merge

  /** Every output row pairs a right row with a left row of the same key, or
      with a missing left side when no left row has that key. */
  lemma RightMergeRows<L, R, K>(left: seq<L>, right: seq<R>, lk: L -> K, rk: R -> K)
    ensures var r := RightMerge(left, right, lk, rk);
      forall j :: 0 <= j < |r| ==>
        && r[j].1 in right
        && (r[j].0.Some? ==> r[j].0.value in left && lk(r[j].0.value) == rk(r[j].1))
        && (r[j].0.None? ==> !HasKey(left, lk, rk(r[j].1)))
  {
    var r := RightMerge(left, right, lk, rk);
    forall j | 0 <= j < |r|
      ensures && r[j].1 in right
              && (r[j].0.Some? ==> r[j].0.value in left && lk(r[j].0.value) == rk(r[j].1))
              && (r[j].0.None? ==> !HasKey(left, lk, rk(r[j].1)))
    {
      LeftMergeRow(right, left, rk, lk, j);
      assert r[j] == Swap(LeftMerge(right, left, rk, lk)[j]);
    }
  }

  /** Every right row appears in the output at least once. */
  lemma RightMergeKeepsRight<L, R, K>(left: seq<L>, right: seq<R>, lk: L -> K, rk: R -> K, i: nat)
    requires i < |right|
    ensures exists j :: 0 <= j < |RightMerge(left, right, lk, rk)| && RightMerge(left, right, lk, rk)[j].1 == right[i]
  {
    LeftMergeKeepsLeft(right, left, rk, lk, i);
    var j :| 0 <= j < |LeftMerge(right, left, rk, lk)| && LeftMerge(right, left, rk, lk)[j].0 == right[i];
    assert RightMerge(left, right, lk, rk)[j].1 == right[i];
  }

  /** No matching pair is lost: every left row and every right row with the
      same key appear together in some output row. */
  lemma RightMergeComplete<L, R, K>(left: seq<L>, right: seq<R>, lk: L -> K, rk: R -> K, i: nat, j: nat)
    requires i < |left| && j < |right| && lk(left[i]) == rk(right[j])
    ensures (Some(left[i]), right[j]) in RightMerge(left, right, lk, rk)
  {
    LeftMergeComplete(right, left, rk, lk, j, i);
    var m := LeftMerge(right, left, rk, lk);
    var t :| 0 <= t < |m| && m[t] == (right[j], Some(left[i]));
    assert RightMerge(left, right, lk, rk)[t] == (Some(left[i]), right[j]);
  }

  /** A right row whose key no left row has survives with a missing left side. */
  lemma RightMergeUnmatched<L, R, K>(left: seq<L>, right: seq<R>, lk: L -> K, rk: R -> K, i: nat)
    requires i < |right| && !HasKey(left, lk, rk(right[i]))
    ensures (None, right[i]) in RightMerge(left, right, lk, rk)
  {
    var m := LeftMerge(right, left, rk, lk);
    LeftMergeKeepsLeft(right, left, rk, lk, i);
    var t :| 0 <= t < |m| && m[t].0 == right[i];
    LeftMergeRow(right, left, rk, lk, t);
    assert m[t] == (right[i], None);
    assert RightMerge(left, right, lk, rk)[t] == (None, right[i]);
  }

  /** With a left side unique on its key, the right merge yields exactly one
      row per right row, in order, carrying the matching left row or nothing. */
  lemma RightMergeUniqueLeft<L, R, K>(left: seq<L>, right: seq<R>, lk: L -> K, rk: R -> K)
    requires UniqueOn(left, lk)
    ensures |RightMerge(left, right, lk, rk)| == |right|
    ensures forall i :: 0 <= i < |right| ==>
              RightMerge(left, right, lk, rk)[i] == (Lookup(left, lk, rk(right[i])), right[i])
  {
    LeftMergeUniqueRight(right, left, rk, lk);
  }
}

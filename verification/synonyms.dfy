/** Whole-value synonym replacement (`Series.replace(to_replace=[...], value=v)`
    and `DataFrame.replace` without `regex`): a value equal to one of a rule's
    variants becomes that rule's canonical value; any other value, including
    one that merely contains a variant, is left alone. A list of rules is
    applied one rule at a time, in order, as successive `replace` calls are. */
module Synonyms {
  import opened Wrappers

  datatype Synonym = Synonym(variants: seq<string>, canonical: string)

  /** One `replace(to_replace=variants, value=canonical)` call on one value. */
  function ApplyRule(v: string, rule: Synonym): string {
    if v in rule.variants then rule.canonical else v
  }

  predicate IsVariant(v: string, rules: seq<Synonym>) {
    exists i :: 0 <= i < |rules| && v in rules[i].variants
  }

  predicate IsCanonical(v: string, rules: seq<Synonym>) {
    exists i :: 0 <= i < |rules| && rules[i].canonical == v
  }

  /** The successive `replace` calls, first rule first. */
  function Rewrite(v: string, rules: seq<Synonym>): (r: string)
    ensures r == v || IsCanonical(r, rules)
    ensures !IsVariant(v, rules) ==> r == v
    decreases |rules|
  {
    if |rules| == 0 then v
    else
      var r := Rewrite(ApplyRule(v, rules[0]), rules[1..]);
      assert IsCanonical(r, rules[1..]) ==> IsCanonical(r, rules) by {
        if IsCanonical(r, rules[1..]) {
          var i :| 0 <= i < |rules[1..]| && rules[1..][i].canonical == r;
          assert rules[i + 1].canonical == r;
        }
      }
      assert IsVariant(v, rules[1..]) ==> IsVariant(v, rules) by {
        if IsVariant(v, rules[1..]) {
          var i :| 0 <= i < |rules[1..]| && v in rules[1..][i].variants;
          assert v in rules[i + 1].variants;
        }
      }
      r
  }

  /** The rules never rewrite a canonical value to anything but itself, so the
      order in which the rules are applied does not matter. */
  predicate Unchained(rules: seq<Synonym>) {
    forall i, j :: 0 <= i < |rules| && 0 <= j < |rules| && rules[i].canonical in rules[j].variants
      ==> rules[j].canonical == rules[i].canonical
  }

  /** No canonical value is listed as a variant anywhere. */
  predicate Resolved(rules: seq<Synonym>) {
    forall i, j :: 0 <= i < |rules| && 0 <= j < |rules| ==> rules[i].canonical !in rules[j].variants
  }

  /** Reference reading of a synonym table: the canonical value of the first
      rule that lists `v`, if any. */
  function FirstCanonical(v: string, rules: seq<Synonym>): Option<string>
    decreases |rules|
  {
    if |rules| == 0 then None
    else if v in rules[0].variants then Some(rules[0].canonical)
    else FirstCanonical(v, rules[1..])
  }

  /** A value that every rule listing it maps back to itself is a fixed point. */
  lemma {:induction false} FixedValue(c: string, rules: seq<Synonym>)
    requires forall j :: 0 <= j < |rules| && c in rules[j].variants ==> rules[j].canonical == c
    ensures Rewrite(c, rules) == c
    decreases |rules|
  {
    if |rules| > 0 {
      assert ApplyRule(c, rules[0]) == c;
      FixedValue(c, rules[1..]);
    }
  }

  /** For unchained rules, applying the replacements in sequence is the same
      as one lookup in the table. */
  lemma {:induction false} RewriteIsLookup(v: string, rules: seq<Synonym>)
    requires Unchained(rules)
    ensures Rewrite(v, rules) == (match FirstCanonical(v, rules) case None => v case Some(c) => c)
    decreases |rules|
  {
    if |rules| > 0 {
      var rest := rules[1..];
      if v in rules[0].variants {
        var c := rules[0].canonical;
        forall j | 0 <= j < |rest| && c in rest[j].variants ensures rest[j].canonical == c {
          assert rest[j] == rules[j + 1];
        }
        FixedValue(c, rest);
      } else {
        assert Unchained(rest) by {
          forall i, j | 0 <= i < |rest| && 0 <= j < |rest| && rest[i].canonical in rest[j].variants
            ensures rest[j].canonical == rest[i].canonical
          {
            assert rest[i] == rules[i + 1] && rest[j] == rules[j + 1];
          }
        }
        RewriteIsLookup(v, rest);
      }
    }
  }

  /** For unchained rules, replacing twice is replacing once. */
  lemma RewriteIdempotent(v: string, rules: seq<Synonym>)
    requires Unchained(rules)
    ensures Rewrite(Rewrite(v, rules), rules) == Rewrite(v, rules)
  {
    var r := Rewrite(v, rules);
    if r != v {
      var i :| 0 <= i < |rules| && rules[i].canonical == r;
      FixedValue(r, rules);
    }
  }

  /** For resolved rules, no listed variant survives the replacement. */
  lemma RewriteLeavesNoVariant(v: string, rules: seq<Synonym>)
    requires Resolved(rules)
    ensures !IsVariant(Rewrite(v, rules), rules)
  {
    var r := Rewrite(v, rules);
    if r != v {
      var i :| 0 <= i < |rules| && rules[i].canonical == r;
    }
  }

  /** Resolved rules are unchained. */
  lemma ResolvedUnchained(rules: seq<Synonym>)
    requires Resolved(rules)
    ensures Unchained(rules)
  {
  }

  /** Without the unchained condition the sequence of replacements is not a
      lookup: a value can be carried through two rules. */
  lemma ChainedRulesCompose()
    ensures Rewrite("a", [Synonym(["a"], "b"), Synonym(["b"], "c")]) == "c"
    ensures FirstCanonical("a", [Synonym(["a"], "b"), Synonym(["b"], "c")]) == Some("b")
  {
    var rules := [Synonym(["a"], "b"), Synonym(["b"], "c")];
    assert rules[1..] == [Synonym(["b"], "c")];
    assert rules[1..][1..] == [];
  }
}

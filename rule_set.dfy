/** The working rule set: concrete (first, second) character pairs with the
    placement to apply to the second glyph. Rules are identified by the
    string "first_second"; insertion is first-wins. */
module RuleSet {
  import opened Wrappers

  /** One working rule. Placements are reals: float rounding is not modelled. */
  datatype AdjustmentRule = AdjustmentRule(
    ruleName: string,
    first: char,
    second: char,
    x: real,
    y: real,
    selected: bool,
    category: string)
  {
    /** The identity string `first_second`. */
    function Key(): string {
      [first, '_', second]
    }
  }

  /** A freshly constructed rule is selected. */
  function NewRule(name: string, first: char, second: char, x: real, y: real, category: string): (r: AdjustmentRule)
    ensures r.ruleName == name && r.selected && r.first == first && r.second == second
    ensures r.x == x && r.y == y && r.category == category
  {
    AdjustmentRule(name, first, second, x, y, true, category)
  }

  /** Keying on the three-character string is keying on the ordered pair. */
  lemma KeyIdentifiesPair(a: AdjustmentRule, b: AdjustmentRule)
    ensures a.Key() == b.Key() <==> a.first == b.first && a.second == b.second
  {
    if a.Key() == b.Key() {
      assert a.Key()[0] == b.Key()[0] && a.Key()[2] == b.Key()[2];
    }
  }

  predicate HasKey(rules: seq<AdjustmentRule>, key: string) {
    exists i :: 0 <= i < |rules| && rules[i].Key() == key
  }

  /** No two rules share an ordered pair. */
  ghost predicate UniqueKeys(rules: seq<AdjustmentRule>) {
    forall i, j :: 0 <= i < j < |rules| ==> rules[i].Key() != rules[j].Key()
  }

  /** The first rule carrying `key`, if any. */
  function FirstWithKey(rules: seq<AdjustmentRule>, key: string): Option<AdjustmentRule> {
    if rules == [] then None
    else if rules[0].Key() == key then Some(rules[0])
    else FirstWithKey(rules[1..], key)
  }

  /** Inserting one rule: refused when its key is already present, appended otherwise. */
  function WithRule(rules: seq<AdjustmentRule>, rule: AdjustmentRule): (seq<AdjustmentRule>, bool) {
    if HasKey(rules, rule.Key()) then (rules, false) else (rules + [rule], true)
  }

  /** Inserting candidates in order; the number is how many were accepted. */
  function WithRules(rules: seq<AdjustmentRule>, cands: seq<AdjustmentRule>): (seq<AdjustmentRule>, nat)
    decreases |cands|
  {
    if cands == [] then (rules, 0)
    else
      var prev := WithRules(rules, cands[..|cands| - 1]);
      var step := WithRule(prev.0, cands[|cands| - 1]);
      (step.0, if step.1 then prev.1 + 1 else prev.1)
  }

  /** The candidates whose key is not in `rules`, in order. */
  function Fresh(rules: seq<AdjustmentRule>, cands: seq<AdjustmentRule>): seq<AdjustmentRule>
    decreases |cands|
  {
    if cands == [] then []
    else
      var last := cands[|cands| - 1];
      Fresh(rules, cands[..|cands| - 1]) + (if HasKey(rules, last.Key()) then [] else [last])
  }

  /** First-wins: an existing key refuses the rule and changes nothing;
      a new key is appended at the end, and afterwards the key is present. */
  lemma WithRuleFirstWins(rules: seq<AdjustmentRule>, rule: AdjustmentRule)
    ensures var (r, ok) := WithRule(rules, rule);
      && (ok <==> !HasKey(rules, rule.Key()))
      && (ok ==> r == rules + [rule])
      && (!ok ==> r == rules)
      && HasKey(r, rule.Key())
      && (UniqueKeys(rules) ==> UniqueKeys(r))
  {
    var (r, ok) := WithRule(rules, rule);
    if ok {
      assert r[|rules|].Key() == rule.Key();
    }
  }

  lemma {:induction false} HasKeyAppend(a: seq<AdjustmentRule>, b: seq<AdjustmentRule>, key: string)
    ensures HasKey(a + b, key) <==> HasKey(a, key) || HasKey(b, key)
  {
    if HasKey(a + b, key) {
      var i :| 0 <= i < |a + b| && (a + b)[i].Key() == key;
      if i >= |a| {
        assert b[i - |a|] == (a + b)[i];
      }
    }
    if HasKey(b, key) {
      var i :| 0 <= i < |b| && b[i].Key() == key;
      assert (a + b)[|a| + i] == b[i];
    }
    if HasKey(a, key) {
      var i :| 0 <= i < |a| && a[i].Key() == key;
      assert (a + b)[i] == a[i];
    }
  }

  /** Inserting only appends: the old rules stay as a prefix, the suffix has
      as many rules as were accepted, and each of them is one of the candidates. */
  lemma {:induction false} WithRulesExtends(rules: seq<AdjustmentRule>, cands: seq<AdjustmentRule>)
    ensures var (r, n) := WithRules(rules, cands);
      && |r| == |rules| + n
      && r[..|rules|] == rules
      && forall i :: |rules| <= i < |r| ==> r[i] in cands
    decreases |cands|
  {
    if cands != [] {
      var init := cands[..|cands| - 1];
      WithRulesExtends(rules, init);
      var (p, m) := WithRules(rules, init);
      var (r, n) := WithRules(rules, cands);
      if HasKey(p, cands[|cands| - 1].Key()) {
        assert r == p;
      } else {
        assert r == p + [cands[|cands| - 1]];
        forall i | |rules| <= i < |r| ensures r[i] in cands {
          if i < |p| {
            assert r[i] == p[i];
            assert p[i] in init;
          } else {
            assert r[i] == cands[|cands| - 1];
          }
        }
      }
      forall i | |rules| <= i < |r| ensures r[i] in cands {
        if i < |p| && r == p {
          assert p[i] in init;
        }
      }
    }
  }

  /** The keys present after inserting are the old keys and the candidates' keys. */
  lemma {:induction false} WithRulesKeys(rules: seq<AdjustmentRule>, cands: seq<AdjustmentRule>, key: string)
    ensures HasKey(WithRules(rules, cands).0, key) <==> HasKey(rules, key) || HasKey(cands, key)
    decreases |cands|
  {
    if cands != [] {
      var init := cands[..|cands| - 1];
      var last := cands[|cands| - 1];
      WithRulesKeys(rules, init, key);
      var p := WithRules(rules, init).0;
      assert init + [last] == cands;
      HasKeyAppend(init, [last], key);
      HasKeySingleton(last, key);
      if !HasKey(p, last.Key()) {
        HasKeyAppend(p, [last], key);
      }
    }
  }

  lemma HasKeySingleton(rule: AdjustmentRule, key: string)
    ensures HasKey([rule], key) <==> rule.Key() == key
  {
    if HasKey([rule], key) {
      var i :| 0 <= i < 1 && [rule][i].Key() == key;
      assert i == 0;
    }
    if rule.Key() == key {
      assert [rule][0].Key() == key;
    }
  }

  /** Inserting one more candidate is one more first-wins step. */
  lemma WithRulesSnoc(rules: seq<AdjustmentRule>, cands: seq<AdjustmentRule>, c: AdjustmentRule)
    ensures WithRules(rules, cands + [c]).0 == WithRule(WithRules(rules, cands).0, c).0
    ensures WithRules(rules, cands + [c]).1
      == WithRules(rules, cands).1 + (if WithRule(WithRules(rules, cands).0, c).1 then 1 else 0)
  {
    assert (cands + [c])[..|cands|] == cands;
  }

  /** A member's key is present. */
  lemma MemberHasKey(rules: seq<AdjustmentRule>, r: AdjustmentRule)
    requires r in rules
    ensures HasKey(rules, r.Key())
  {
    var i :| 0 <= i < |rules| && rules[i] == r;
  }

  /** After inserting, every candidate's key is present. */
  lemma WithRulesCovers(rules: seq<AdjustmentRule>, cands: seq<AdjustmentRule>)
    ensures forall c :: c in cands ==> HasKey(WithRules(rules, cands).0, c.Key())
  {
    forall c | c in cands ensures HasKey(WithRules(rules, cands).0, c.Key()) {
      var i :| 0 <= i < |cands| && cands[i] == c;
      WithRulesKeys(rules, cands, c.Key());
    }
  }

  /** When every candidate's key is already present, inserting adds nothing. */
  lemma {:induction false} WithRulesAllPresent(rules: seq<AdjustmentRule>, cands: seq<AdjustmentRule>)
    requires forall c :: c in cands ==> HasKey(rules, c.Key())
    ensures WithRules(rules, cands) == (rules, 0)
    decreases |cands|
  {
    if cands != [] {
      var init := cands[..|cands| - 1];
      assert forall c :: c in init ==> c in cands;
      WithRulesAllPresent(rules, init);
      assert cands[|cands| - 1] in cands;
    }
  }

  /** Candidates whose keys an earlier batch already proposed add nothing after it. */
  lemma WithRulesAfterCovering(rules: seq<AdjustmentRule>, earlier: seq<AdjustmentRule>, later: seq<AdjustmentRule>)
    requires forall c :: c in later ==> HasKey(earlier, c.Key())
    ensures var before := WithRules(rules, earlier).0; WithRules(before, later) == (before, 0)
  {
    var before := WithRules(rules, earlier).0;
    forall c | c in later ensures HasKey(before, c.Key()) {
      WithRulesKeys(rules, earlier, c.Key());
    }
    WithRulesAllPresent(before, later);
  }

  /** A middle batch that adds nothing drops out of a three-part insertion. */
  lemma WithRulesSkipsNoOp(rules: seq<AdjustmentRule>, a: seq<AdjustmentRule>, b: seq<AdjustmentRule>, c: seq<AdjustmentRule>)
    requires var ra := WithRules(rules, a).0; WithRules(ra, b) == (ra, 0)
    ensures var ra := WithRules(rules, a);
      var rc := WithRules(ra.0, c);
      WithRules(rules, a + b + c) == (rc.0, ra.1 + rc.1)
  {
    WithRulesAppend(rules, a, b);
    WithRulesAppend(rules, a + b, c);
  }

  /** Running the same insertion twice adds nothing the second time, and it
      stays so whatever placements or names the repeated candidates carry. */
  lemma WithRulesIdempotent(rules: seq<AdjustmentRule>, cands: seq<AdjustmentRule>, again: seq<AdjustmentRule>)
    requires |again| == |cands|
    requires forall i :: 0 <= i < |cands| ==> again[i].Key() == cands[i].Key()
    ensures var r := WithRules(rules, cands).0; WithRules(r, again) == (r, 0)
  {
    var r := WithRules(rules, cands).0;
    WithRulesCovers(rules, cands);
    forall c | c in again ensures HasKey(r, c.Key()) {
      var i :| 0 <= i < |again| && again[i] == c;
      assert cands[i] in cands;
    }
    WithRulesAllPresent(r, again);
  }

  /** Inserting keeps the set duplicate-free. */
  lemma {:induction false} WithRulesKeepsUnique(rules: seq<AdjustmentRule>, cands: seq<AdjustmentRule>)
    requires UniqueKeys(rules)
    ensures UniqueKeys(WithRules(rules, cands).0)
    decreases |cands|
  {
    if cands != [] {
      var init := cands[..|cands| - 1];
      WithRulesKeepsUnique(rules, init);
      WithRuleFirstWins(WithRules(rules, init).0, cands[|cands| - 1]);
    }
  }

  /** Inserting a concatenation is inserting one part after the other. */
  lemma {:induction false} WithRulesAppend(rules: seq<AdjustmentRule>, a: seq<AdjustmentRule>, b: seq<AdjustmentRule>)
    ensures var ra := WithRules(rules, a);
      var rb := WithRules(ra.0, b);
      WithRules(rules, a + b) == (rb.0, ra.1 + rb.1)
    decreases |b|
  {
    if b == [] {
      assert a + b == a;
    } else {
      var binit := b[..|b| - 1];
      WithRulesAppend(rules, a, binit);
      assert (a + b)[..|a + b| - 1] == a + binit;
      assert (a + b)[|a + b| - 1] == b[|b| - 1];
    }
  }

  /** First-wins stated on the stored rules: a key already present keeps its
      rule; a new key gets the first candidate that carries it. */
  lemma {:induction false} WithRulesFirstWins(rules: seq<AdjustmentRule>, cands: seq<AdjustmentRule>, key: string)
    ensures FirstWithKey(WithRules(rules, cands).0, key)
         == if HasKey(rules, key) then FirstWithKey(rules, key) else FirstWithKey(cands, key)
    decreases |cands|
  {
    if cands == [] {
      NoKeyNoFirst(rules, key);
    } else {
      var init := cands[..|cands| - 1];
      var last := cands[|cands| - 1];
      WithRulesFirstWins(rules, init, key);
      WithRulesKeys(rules, init, key);
      var p := WithRules(rules, init).0;
      var r := WithRules(rules, cands).0;
      assert init + [last] == cands;
      FirstWithKeyAppend(init, [last], key);
      FirstWithKeySingleton(last, key);
      NoKeyNoFirst(init, key);
      if HasKey(rules, key) {
        WithRulesExtends(rules, init);
        assert p == rules + p[|rules|..];
        FirstWithKeyAppend(rules, p[|rules|..], key);
      }
      if !HasKey(p, last.Key()) {
        assert r == p + [last];
        FirstWithKeyAppend(p, [last], key);
      } else if last.Key() == key && !HasKey(rules, key) && !HasKey(init, key) {
        assert false;
      }
    }
  }

  lemma FirstWithKeySingleton(rule: AdjustmentRule, key: string)
    ensures FirstWithKey([rule], key) == if rule.Key() == key then Some(rule) else None
  {
    assert [rule][1..] == [];
  }

  lemma {:induction false} NoKeyNoFirst(rules: seq<AdjustmentRule>, key: string)
    ensures FirstWithKey(rules, key).None? <==> !HasKey(rules, key)
    decreases |rules|
  {
    if rules != [] {
      NoKeyNoFirst(rules[1..], key);
      HasKeyAppend([rules[0]], rules[1..], key);
      HasKeySingleton(rules[0], key);
      assert [rules[0]] + rules[1..] == rules;
    }
  }

  lemma {:induction false} FirstWithKeyAppend(a: seq<AdjustmentRule>, b: seq<AdjustmentRule>, key: string)
    ensures FirstWithKey(a + b, key) == if HasKey(a, key) then FirstWithKey(a, key) else FirstWithKey(b, key)
    decreases |a|
  {
    if a == [] {
      assert a + b == b;
    } else {
      assert (a + b)[1..] == a[1..] + b;
      FirstWithKeyAppend(a[1..], b, key);
      HasKeyAppend([a[0]], a[1..], key);
      HasKeySingleton(a[0], key);
      assert [a[0]] + a[1..] == a;
    }
  }

  /** With duplicate-free candidates, exactly the candidates whose key is new
      are appended, in order, and the count is their number. */
  lemma {:induction false} WithRulesAppendsFresh(rules: seq<AdjustmentRule>, cands: seq<AdjustmentRule>)
    requires UniqueKeys(cands)
    ensures WithRules(rules, cands) == (rules + Fresh(rules, cands), |Fresh(rules, cands)|)
    decreases |cands|
  {
    if cands == [] {
      assert rules + [] == rules;
    } else {
      var init := cands[..|cands| - 1];
      var last := cands[|cands| - 1];
      assert UniqueKeys(init) by {
        forall i, j | 0 <= i < j < |init| ensures init[i].Key() != init[j].Key() {
          assert init[i] == cands[i] && init[j] == cands[j];
        }
      }
      WithRulesAppendsFresh(rules, init);
      var f := Fresh(rules, init);
      HasKeyAppend(rules, f, last.Key());
      LastKeyNotEarlier(cands);
      FreshKeysFromCands(rules, init, last.Key());
      var step := WithRule(rules + f, last);
      assert WithRules(rules, cands) == (step.0, if step.1 then |f| + 1 else |f|);
      if HasKey(rules, last.Key()) {
        assert HasKey(rules + f, last.Key());
        assert !step.1 && step.0 == rules + f;
        assert Fresh(rules, cands) == f + [];
        assert f + [] == f;
        assert WithRules(rules, cands).0 == rules + Fresh(rules, cands);
        assert WithRules(rules, cands).1 == |Fresh(rules, cands)|;
      } else {
        assert Fresh(rules, cands) == f + [last];
        assert step.1 && step.0 == rules + f + [last];
        assert rules + f + [last] == rules + (f + [last]);
      }
    }
  }

  lemma LastKeyNotEarlier(cands: seq<AdjustmentRule>)
    requires UniqueKeys(cands) && cands != []
    ensures !HasKey(cands[..|cands| - 1], cands[|cands| - 1].Key())
  {
    var init := cands[..|cands| - 1];
    forall i | 0 <= i < |init| ensures init[i].Key() != cands[|cands| - 1].Key() {
      assert init[i] == cands[i];
    }
  }

  lemma FreshKeysFromCands(rules: seq<AdjustmentRule>, cands: seq<AdjustmentRule>, key: string)
    ensures HasKey(Fresh(rules, cands), key) ==> HasKey(cands, key)
  {
    var f := Fresh(rules, cands);
    if HasKey(f, key) {
      var i :| 0 <= i < |f| && f[i].Key() == key;
      FreshFromCands(rules, cands);
      assert f[i] in cands;
      var j :| 0 <= j < |cands| && cands[j] == f[i];
    }
  }

  lemma {:induction false} FreshFromCands(rules: seq<AdjustmentRule>, cands: seq<AdjustmentRule>)
    ensures forall c :: c in Fresh(rules, cands) ==> c in cands
    decreases |cands|
  {
    if cands != [] {
      var init := cands[..|cands| - 1];
      FreshFromCands(rules, init);
      assert forall c :: c in init ==> c in cands;
    }
  }

  /** Two duplicate-free lists with no key in common concatenate to a duplicate-free list. */
  lemma UniqueKeysAppend(a: seq<AdjustmentRule>, b: seq<AdjustmentRule>)
    requires UniqueKeys(a) && UniqueKeys(b)
    requires forall r :: r in b ==> !HasKey(a, r.Key())
    ensures UniqueKeys(a + b)
  {
    var ab := a + b;
    forall i, j | 0 <= i < j < |ab| ensures ab[i].Key() != ab[j].Key() {
      if i < |a| && |a| <= j {
        assert ab[j] == b[j - |a|] && ab[j] in b;
        assert ab[i] == a[i];
      } else if |a| <= i {
        assert ab[i] == b[i - |a|] && ab[j] == b[j - |a|];
      } else {
        assert ab[i] == a[i] && ab[j] == a[j];
      }
    }
  }

  /** A key absent from both halves is absent from their concatenation. */
  lemma AbsentFromBoth(a: seq<AdjustmentRule>, b: seq<AdjustmentRule>, c: seq<AdjustmentRule>)
    requires forall r :: r in c ==> !HasKey(a, r.Key())
    requires forall r :: r in c ==> !HasKey(b, r.Key())
    ensures forall r :: r in c ==> !HasKey(a + b, r.Key())
  {
    forall r | r in c ensures !HasKey(a + b, r.Key()) {
      HasKeyAppend(a, b, r.Key());
    }
  }

  /** Against an empty rule set every candidate is fresh. */
  lemma {:induction false} FreshOverEmpty(cands: seq<AdjustmentRule>)
    ensures Fresh([], cands) == cands
    decreases |cands|
  {
    if cands != [] {
      FreshOverEmpty(cands[..|cands| - 1]);
      assert cands[..|cands| - 1] + [cands[|cands| - 1]] == cands;
    }
  }

  /** Candidates none of whose keys occur in `rules` are all fresh. */
  lemma {:induction false} FreshWhenApart(rules: seq<AdjustmentRule>, cands: seq<AdjustmentRule>)
    requires forall r :: r in cands ==> !HasKey(rules, r.Key())
    ensures Fresh(rules, cands) == cands
    decreases |cands|
  {
    if cands != [] {
      var init := cands[..|cands| - 1];
      assert forall r :: r in init ==> r in cands;
      FreshWhenApart(rules, init);
      assert cands[|cands| - 1] in cands;
      assert init + [cands[|cands| - 1]] == cands;
    }
  }
}

/** The font side: a character table mapping code points to glyph indices
    and the list of glyph-pair adjustment records that the working rules are
    merged into. The merge looks each character up, then inserts or
    overwrites the record of the ordered glyph pair. */
module GlyphTable {
  import opened Wrappers
  import opened RuleSet

  /** One character-table entry. */
  datatype CharacterEntry = CharacterEntry(unicode: nat, glyphIndex: nat)

  /** Placement and advance adjustments of one glyph. */
  datatype GlyphValueRecord = GlyphValueRecord(xPlacement: real, yPlacement: real, xAdvance: real, yAdvance: real)

  /** A glyph index with its adjustment. */
  datatype GlyphAdjustmentRecord = GlyphAdjustmentRecord(glyphIndex: nat, value: GlyphValueRecord)

  /** An adjustment record for an ordered glyph pair. */
  datatype GlyphPairRecord = GlyphPairRecord(first: GlyphAdjustmentRecord, second: GlyphAdjustmentRecord)

  const ZeroValue: GlyphValueRecord := GlyphValueRecord(0.0, 0.0, 0.0, 0.0)

  /** The record written for a pair: nothing moves the first glyph, the second
      glyph is placed at (x, y), and neither advance changes. */
  function PairRecord(g1: nat, g2: nat, x: real, y: real): (p: GlyphPairRecord)
    ensures p.first.glyphIndex == g1 && p.second.glyphIndex == g2
    ensures p.first.value == GlyphValueRecord(0.0, 0.0, 0.0, 0.0)
    ensures p.second.value == GlyphValueRecord(x, y, 0.0, 0.0)
  {
    GlyphPairRecord(GlyphAdjustmentRecord(g1, ZeroValue), GlyphAdjustmentRecord(g2, GlyphValueRecord(x, y, 0.0, 0.0)))
  }

  /** The glyph of the first table entry whose code point is `c`. */
  function TryGetGlyphIndex(table: seq<CharacterEntry>, c: char): (r: Option<nat>)
    ensures r.None? <==> forall i :: 0 <= i < |table| ==> table[i].unicode != c as nat
    ensures r.Some? ==> exists i :: (0 <= i < |table| && table[i].unicode == c as nat && table[i].glyphIndex == r.value
      && forall j :: 0 <= j < i ==> table[j].unicode != c as nat)
  {
    if table == [] then None
    else if table[0].unicode == c as nat then Some(table[0].glyphIndex)
    else
      var r := TryGetGlyphIndex(table[1..], c);
      assert forall i :: 1 <= i < |table| ==> table[i] == table[1..][i - 1];
      r
  }

  /** The record is the one for the ordered pair (g1, g2). */
  predicate IsPair(p: GlyphPairRecord, g1: nat, g2: nat) {
    p.first.glyphIndex == g1 && p.second.glyphIndex == g2
  }

  /** The index of the first record for (g1, g2), if any. */
  function FindPair(records: seq<GlyphPairRecord>, g1: nat, g2: nat): (r: Option<nat>)
    ensures r.None? <==> forall i :: 0 <= i < |records| ==> !IsPair(records[i], g1, g2)
    ensures r.Some? ==> (r.value < |records| && IsPair(records[r.value], g1, g2)
      && forall j :: 0 <= j < r.value ==> !IsPair(records[j], g1, g2))
  {
    if records == [] then None
    else if IsPair(records[0], g1, g2) then Some(0)
    else
      match FindPair(records[1..], g1, g2)
      case None => None
      case Some(i) => Some(i + 1)
  }

  /** The record the font uses for (g1, g2): the first one for that pair. */
  function Lookup(records: seq<GlyphPairRecord>, g1: nat, g2: nat): Option<GlyphPairRecord> {
    match FindPair(records, g1, g2)
    case None => None
    case Some(i) => Some(records[i])
  }

  /** Insert-or-overwrite on the ordered glyph pair; the flag tells whether a
      record was appended. */
  function Upsert(records: seq<GlyphPairRecord>, g1: nat, g2: nat, x: real, y: real): (seq<GlyphPairRecord>, bool) {
    match FindPair(records, g1, g2)
    case Some(i) => (records[i := PairRecord(g1, g2, x, y)], false)
    case None => (records + [PairRecord(g1, g2, x, y)], true)
  }

  /** No two records share an ordered glyph pair. */
  predicate UniquePairs(records: seq<GlyphPairRecord>) {
    forall i, j :: 0 <= i < j < |records| ==>
      records[i].first.glyphIndex != records[j].first.glyphIndex || records[i].second.glyphIndex != records[j].second.glyphIndex
  }

  /** Upsert either overwrites the first record of the pair, keeping the length
      and every other record, or appends one record when the pair is new. */
  lemma UpsertShape(records: seq<GlyphPairRecord>, g1: nat, g2: nat, x: real, y: real)
    ensures var (r, isNew) := Upsert(records, g1, g2, x, y);
      && (isNew <==> forall i :: 0 <= i < |records| ==> !IsPair(records[i], g1, g2))
      && (isNew ==> r == records + [PairRecord(g1, g2, x, y)])
      && (!isNew ==> |r| == |records| && exists i :: (0 <= i < |records|
            && IsPair(records[i], g1, g2) && (forall j :: 0 <= j < i ==> !IsPair(records[j], g1, g2))
            && r[i] == PairRecord(g1, g2, x, y)
            && forall j :: 0 <= j < |records| && j != i ==> r[j] == records[j]))
  {
  }

  /** Upsert acts on the font like a map update of the pair's record. */
  lemma UpsertLookup(records: seq<GlyphPairRecord>, g1: nat, g2: nat, x: real, y: real, h1: nat, h2: nat)
    ensures Lookup(Upsert(records, g1, g2, x, y).0, h1, h2)
      == if h1 == g1 && h2 == g2 then Some(PairRecord(g1, g2, x, y)) else Lookup(records, h1, h2)
  {
    var r := Upsert(records, g1, g2, x, y).0;
    match FindPair(records, g1, g2)
    case None =>
      FindPairAt(r, g1, g2, |records|);
      if h1 != g1 || h2 != g2 {
        match FindPair(records, h1, h2)
        case None =>
          assert forall i :: 0 <= i < |r| ==> !IsPair(r[i], h1, h2);
        case Some(k) =>
          FindPairAt(r, h1, h2, k);
      }
    case Some(i) =>
      FindPairAt(r, g1, g2, i);
      if h1 != g1 || h2 != g2 {
        match FindPair(records, h1, h2)
        case None =>
          assert forall j :: 0 <= j < |r| ==> !IsPair(r[j], h1, h2);
        case Some(k) =>
          FindPairAt(r, h1, h2, k);
      }
  }

  /** The first record of the pair is the one FindPair reports. */
  lemma FindPairAt(records: seq<GlyphPairRecord>, g1: nat, g2: nat, k: nat)
    requires k < |records| && IsPair(records[k], g1, g2)
    requires forall j :: 0 <= j < k ==> !IsPair(records[j], g1, g2)
    ensures FindPair(records, g1, g2) == Some(k)
  {
  }

  /** A duplicate-free table stays duplicate-free. */
  lemma UpsertKeepsUnique(records: seq<GlyphPairRecord>, g1: nat, g2: nat, x: real, y: real)
    requires UniquePairs(records)
    ensures UniquePairs(Upsert(records, g1, g2, x, y).0)
  {
  }

  /** Both characters of the rule have a glyph in the table. */
  predicate Resolves(table: seq<CharacterEntry>, rule: AdjustmentRule) {
    TryGetGlyphIndex(table, rule.first).Some? && TryGetGlyphIndex(table, rule.second).Some?
  }

  /** The table after a merge and the three counters of the merge. */
  datatype Merged = Merged(records: seq<GlyphPairRecord>, added: nat, updated: nat, skipped: nat)

  /** One selected rule merged into the table. */
  function MergeRule(m: Merged, table: seq<CharacterEntry>, rule: AdjustmentRule): Merged {
    if Resolves(table, rule) then
      var (r, isNew) := Upsert(m.records, TryGetGlyphIndex(table, rule.first).value,
                               TryGetGlyphIndex(table, rule.second).value, rule.x, rule.y);
      if isNew then Merged(r, m.added + 1, m.updated, m.skipped) else Merged(r, m.added, m.updated + 1, m.skipped)
    else Merged(m.records, m.added, m.updated, m.skipped + 1)
  }

  /** The merge of every selected rule, in list order; unselected rules are passed over. */
  function Merge(records: seq<GlyphPairRecord>, table: seq<CharacterEntry>, rules: seq<AdjustmentRule>): Merged
    decreases |rules|
  {
    if rules == [] then Merged(records, 0, 0, 0)
    else
      var m := Merge(records, table, rules[..|rules| - 1]);
      var last := rules[|rules| - 1];
      if last.selected then MergeRule(m, table, last) else m
  }

  /** The selected rules, in order. */
  function Selected(rules: seq<AdjustmentRule>): (s: seq<AdjustmentRule>)
    ensures forall r :: r in s <==> r in rules && r.selected
    decreases |rules|
  {
    if rules == [] then []
    else
      var init := rules[..|rules| - 1];
      var last := rules[|rules| - 1];
      assert rules == init + [last];
      Selected(init) + (if last.selected then [last] else [])
  }

  /** Filtering a list with one more rule at its end keeps that rule exactly when it is selected. */
  lemma SelectedSnoc(init: seq<AdjustmentRule>, last: AdjustmentRule)
    ensures Selected(init + [last]) == Selected(init) + (if last.selected then [last] else [])
  {
    assert (init + [last])[..|init|] == init;
  }

  /** The selected rules whose two characters both have glyphs, in order. */
  function Applicable(table: seq<CharacterEntry>, rules: seq<AdjustmentRule>): (s: seq<AdjustmentRule>)
    ensures forall r :: r in s <==> r in rules && r.selected && Resolves(table, r)
    decreases |rules|
  {
    if rules == [] then []
    else
      var init := rules[..|rules| - 1];
      var last := rules[|rules| - 1];
      assert rules == init + [last];
      Applicable(table, init) + (if last.selected && Resolves(table, last) then [last] else [])
  }

  /** Filtering a list with one more rule at its end keeps that rule exactly when it is selected and resolves. */
  lemma ApplicableSnoc(table: seq<CharacterEntry>, init: seq<AdjustmentRule>, last: AdjustmentRule)
    ensures Applicable(table, init + [last])
         == Applicable(table, init) + (if last.selected && Resolves(table, last) then [last] else [])
  {
    assert (init + [last])[..|init|] == init;
  }

  /** Every selected rule is counted exactly once: as added or updated when
      both glyphs resolve, as skipped otherwise; the table grows by `added`. */
  lemma {:induction false} MergeCounts(records: seq<GlyphPairRecord>, table: seq<CharacterEntry>, rules: seq<AdjustmentRule>)
    ensures Merge(records, table, rules).added + Merge(records, table, rules).updated
            + Merge(records, table, rules).skipped == |Selected(rules)|
    ensures Merge(records, table, rules).added + Merge(records, table, rules).updated == |Applicable(table, rules)|
    ensures Merge(records, table, rules).skipped == |Selected(rules)| - |Applicable(table, rules)|
    ensures |Merge(records, table, rules).records| == |records| + Merge(records, table, rules).added
    decreases |rules|
  {
    if rules != [] {
      var init := rules[..|rules| - 1];
      var last := rules[|rules| - 1];
      MergeCounts(records, table, init);
      assert rules == init + [last];
      SelectedSnoc(init, last);
      ApplicableSnoc(table, init, last);
      var m := Merge(records, table, init);
      if last.selected {
        MergeRuleCounts(m, table, last);
      }
    }
  }

  /** One rule adds one to exactly one counter; the table grows only when the rule adds a record. */
  lemma MergeRuleCounts(m: Merged, table: seq<CharacterEntry>, rule: AdjustmentRule)
    ensures MergeRule(m, table, rule).added + MergeRule(m, table, rule).updated
            == m.added + m.updated + (if Resolves(table, rule) then 1 else 0)
    ensures MergeRule(m, table, rule).skipped == m.skipped + (if Resolves(table, rule) then 0 else 1)
    ensures |MergeRule(m, table, rule).records| == |m.records| + MergeRule(m, table, rule).added - m.added
  {
    if Resolves(table, rule) {
      UpsertShape(m.records, TryGetGlyphIndex(table, rule.first).value,
                  TryGetGlyphIndex(table, rule.second).value, rule.x, rule.y);
    }
  }

  /** Unselected rules play no part in the merge. */
  lemma {:induction false} MergeIgnoresUnselected(records: seq<GlyphPairRecord>, table: seq<CharacterEntry>, rules: seq<AdjustmentRule>)
    ensures Merge(records, table, rules) == Merge(records, table, Selected(rules))
    decreases |rules|
  {
    if rules != [] {
      var init := rules[..|rules| - 1];
      var last := rules[|rules| - 1];
      MergeIgnoresUnselected(records, table, init);
      var s := Selected(init);
      if last.selected {
        assert Selected(rules) == s + [last];
        assert (s + [last])[..|s + [last]| - 1] == s;
      } else {
        assert Selected(rules) == s;
      }
    }
  }

  /** A rule whose glyphs do not resolve leaves the table as it was. */
  lemma SkippedRuleLeavesTable(m: Merged, table: seq<CharacterEntry>, rule: AdjustmentRule)
    requires !Resolves(table, rule)
    ensures MergeRule(m, table, rule).records == m.records
    ensures MergeRule(m, table, rule).skipped == m.skipped + 1
  {
  }

  /** Merging keeps a duplicate-free table duplicate-free. */
  lemma {:induction false} MergeKeepsUnique(records: seq<GlyphPairRecord>, table: seq<CharacterEntry>, rules: seq<AdjustmentRule>)
    requires UniquePairs(records)
    ensures UniquePairs(Merge(records, table, rules).records)
    decreases |rules|
  {
    if rules != [] {
      var m := Merge(records, table, rules[..|rules| - 1]);
      MergeKeepsUnique(records, table, rules[..|rules| - 1]);
      var last := rules[|rules| - 1];
      if last.selected && Resolves(table, last) {
        UpsertKeepsUnique(m.records, TryGetGlyphIndex(table, last.first).value,
                          TryGetGlyphIndex(table, last.second).value, last.x, last.y);
      }
    }
  }

  /** The rule applied to (g1, g2): the rule maps onto that glyph pair. */
  predicate MapsTo(table: seq<CharacterEntry>, rule: AdjustmentRule, g1: nat, g2: nat) {
    TryGetGlyphIndex(table, rule.first) == Some(g1) && TryGetGlyphIndex(table, rule.second) == Some(g2)
  }

  /** The rule is selected and maps onto (g1, g2): merging it writes that pair. */
  predicate Writes(table: seq<CharacterEntry>, rule: AdjustmentRule, g1: nat, g2: nat) {
    rule.selected && MapsTo(table, rule, g1, g2)
  }

  /** The last selected rule that maps onto (g1, g2), if any. */
  function LastFor(table: seq<CharacterEntry>, rules: seq<AdjustmentRule>, g1: nat, g2: nat): (r: Option<AdjustmentRule>)
    ensures r.Some? ==> r.value in rules && Writes(table, r.value, g1, g2)
    ensures r.None? <==> forall i :: 0 <= i < |rules| ==> !Writes(table, rules[i], g1, g2)
    ensures r.Some? ==>
      exists i :: 0 <= i < |rules| && rules[i] == r.value && forall j :: i < j < |rules| ==> !Writes(table, rules[j], g1, g2)
    decreases |rules|
  {
    if rules == [] then None
    else
      var init := rules[..|rules| - 1];
      var last := rules[|rules| - 1];
      if Writes(table, last, g1, g2) then
        assert rules[|rules| - 1] == last;
        Some(last)
      else
        var r := LastFor(table, init, g1, g2);
        assert forall i :: 0 <= i < |init| ==> init[i] == rules[i];
        if r.Some? then
          LastWriterAmongInit(table, rules, g1, g2, r.value);
          r
        else r
  }

  /** A last writer of all but the final rule is the last writer of the whole
      list when the final rule writes a different pair. */
  lemma LastWriterAmongInit(table: seq<CharacterEntry>, rules: seq<AdjustmentRule>, g1: nat, g2: nat, v: AdjustmentRule)
    requires rules != [] && !Writes(table, rules[|rules| - 1], g1, g2)
    requires exists i :: 0 <= i < |rules| - 1 && rules[i] == v && forall j :: i < j < |rules| - 1 ==> !Writes(table, rules[j], g1, g2)
    ensures exists i :: 0 <= i < |rules| && rules[i] == v && forall j :: i < j < |rules| ==> !Writes(table, rules[j], g1, g2)
  {
    var i :| 0 <= i < |rules| - 1 && rules[i] == v && forall j :: i < j < |rules| - 1 ==> !Writes(table, rules[j], g1, g2);
    assert forall j :: i < j < |rules| ==> !Writes(table, rules[j], g1, g2);
  }

  /** After the merge the font's record for a glyph pair carries the placement
      of the last selected rule mapping onto it; pairs no rule maps onto
      keep their old record (or stay absent). So where the working rules are
      first-wins, the font is last-wins. */
  lemma {:induction false} MergeLookup(records: seq<GlyphPairRecord>, table: seq<CharacterEntry>, rules: seq<AdjustmentRule>, g1: nat, g2: nat)
    ensures Lookup(Merge(records, table, rules).records, g1, g2)
      == match LastFor(table, rules, g1, g2)
         case Some(r) => Some(PairRecord(g1, g2, r.x, r.y))
         case None => Lookup(records, g1, g2)
    decreases |rules|
  {
    if rules != [] {
      var init := rules[..|rules| - 1];
      var last := rules[|rules| - 1];
      MergeLookup(records, table, init, g1, g2);
      var m := Merge(records, table, init);
      if last.selected && Resolves(table, last) {
        var h1 := TryGetGlyphIndex(table, last.first).value;
        var h2 := TryGetGlyphIndex(table, last.second).value;
        UpsertLookup(m.records, h1, h2, last.x, last.y, g1, g2);
      }
    }
  }
}

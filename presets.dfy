/** The eight built-in presets: each binds a sequence of first characters and
    a sequence of second characters and stamps every pair of their product with
    the preset's final placement and name. */
module Presets {
  import opened ThaiChars
  import opened RuleSet

  /** The preset identifiers, in the order generate-all runs them. */
  datatype PresetKind =
    | ConsonantUpper
    | ConsonantTone
    | ConsonantThanThaKhaat
    | UpperTone
    | UpperThanThaKhaat
    | SaraAmTone
    | AscenderUpper
    | DescenderLower

  /** The three offsets the metric formulas derive from a font. */
  datatype DerivedOffsets = DerivedOffsets(base: real, upperTone: real, ascender: real)

  /** The offsets used when no font is selected (calibrated for point size 100). */
  const FallbackOffsets: DerivedOffsets := DerivedOffsets(-2.0, 19.4, -3.5)

  /** A preset's tunable values; the final placement is default plus offset. */
  datatype PresetConfig = PresetConfig(name: string, defaultX: real, defaultY: real, offsetX: real, offsetY: real)
  {
    function FinalX(): real { defaultX + offsetX }
    function FinalY(): real { defaultY + offsetY }
  }

  /** The display name, which is also the category of every generated rule. */
  function DisplayName(kind: PresetKind): string {
    match kind
    case ConsonantUpper => "พยัญชนะ + สระบน"
    case ConsonantTone => "พยัญชนะ + วรรณยุกต์"
    case ConsonantThanThaKhaat => "พยัญชนะ + ทัณฑฆาต (์)"
    case UpperTone => "สระบน + วรรณยุกต์"
    case UpperThanThaKhaat => "สระบน + ทัณฑฆาต (์)"
    case SaraAmTone => "สระอำ + วรรณยุกต์"
    case AscenderUpper => "พยัญชนะหางบน + สระบน/วรรณยุกต์"
    case DescenderLower => "พยัญชนะหางล่าง + สระล่าง"
  }

  /** Which derived offset seeds a preset's default Y; the descender preset uses 2. */
  function DefaultY(kind: PresetKind, o: DerivedOffsets): real {
    match kind
    case ConsonantUpper | ConsonantTone | ConsonantThanThaKhaat => o.base
    case UpperTone | UpperThanThaKhaat | SaraAmTone => o.upperTone
    case AscenderUpper => o.ascender
    case DescenderLower => 2.0
  }

  /** The preset table as (re)built from derived offsets: X defaults to 0 and
      both user offsets start at 0. */
  function InitialPresets(o: DerivedOffsets): map<PresetKind, PresetConfig> {
    map[
      ConsonantUpper := PresetConfig(DisplayName(ConsonantUpper), 0.0, o.base, 0.0, 0.0),
      ConsonantTone := PresetConfig(DisplayName(ConsonantTone), 0.0, o.base, 0.0, 0.0),
      ConsonantThanThaKhaat := PresetConfig(DisplayName(ConsonantThanThaKhaat), 0.0, o.base, 0.0, 0.0),
      UpperTone := PresetConfig(DisplayName(UpperTone), 0.0, o.upperTone, 0.0, 0.0),
      UpperThanThaKhaat := PresetConfig(DisplayName(UpperThanThaKhaat), 0.0, o.upperTone, 0.0, 0.0),
      SaraAmTone := PresetConfig(DisplayName(SaraAmTone), 0.0, o.upperTone, 0.0, 0.0),
      AscenderUpper := PresetConfig(DisplayName(AscenderUpper), 0.0, o.ascender, 0.0, 0.0),
      DescenderLower := PresetConfig(DisplayName(DescenderLower), 0.0, 2.0, 0.0, 0.0)
    ]
  }

  /** Right after (re)initialisation every preset is present, its final X is 0
      and its final Y is its default Y, because both offsets are 0. */
  lemma InitialPresetsFinalValues(o: DerivedOffsets, kind: PresetKind)
    ensures kind in InitialPresets(o)
    ensures var c := InitialPresets(o)[kind];
      && c.name == DisplayName(kind)
      && c.offsetX == 0.0 && c.offsetY == 0.0
      && c.FinalX() == 0.0 && c.FinalY() == DefaultY(kind, o)
  {
  }

  /** The characters a preset iterates in its outer loop. */
  function Firsts(kind: PresetKind): seq<char> {
    match kind
    case ConsonantUpper | ConsonantTone | ConsonantThanThaKhaat => AllConsonants
    case UpperTone | UpperThanThaKhaat => UpperVowels
    case SaraAmTone => [SaraAm]
    case AscenderUpper => AscenderConsonants
    case DescenderLower => DescenderConsonants
  }

  /** The characters a preset iterates in its inner loop(s). The ascender preset
      runs three inner loops per consonant: upper vowels, tone marks, then ์. */
  function Seconds(kind: PresetKind): seq<char> {
    match kind
    case ConsonantUpper => UpperVowels
    case ConsonantTone | UpperTone | SaraAmTone => ToneMarks
    case ConsonantThanThaKhaat | UpperThanThaKhaat => [ThanThaKhaat]
    case AscenderUpper => UpperVowels + ToneMarks + [ThanThaKhaat]
    case DescenderLower => LowerVowels
  }

  /** The rule a generator proposes for one pair; its name is "first+second". */
  function PairRule(a: char, b: char, x: real, y: real, category: string): AdjustmentRule {
    NewRule([a, '+', b], a, b, x, y, category)
  }

  /** One outer-loop step: `a` paired with each of `seconds`, in order. */
  function Row(a: char, seconds: seq<char>, x: real, y: real, category: string): (r: seq<AdjustmentRule>)
    ensures |r| == |seconds|
    ensures forall j :: 0 <= j < |seconds| ==> r[j] == PairRule(a, seconds[j], x, y, category)
  {
    seq(|seconds|, j requires 0 <= j < |seconds| => PairRule(a, seconds[j], x, y, category))
  }

  /** The nested-loop product, outer loop over `firsts`. */
  function Product(firsts: seq<char>, seconds: seq<char>, x: real, y: real, category: string): seq<AdjustmentRule>
    decreases |firsts|
  {
    if firsts == [] then []
    else Product(firsts[..|firsts| - 1], seconds, x, y, category) + Row(firsts[|firsts| - 1], seconds, x, y, category)
  }

  /** Extending the inner loop by one second character appends one rule. */
  lemma RowStep(a: char, seconds: seq<char>, j: int, x: real, y: real, category: string)
    requires 0 <= j < |seconds|
    ensures Row(a, seconds[..j + 1], x, y, category) == Row(a, seconds[..j], x, y, category) + [PairRule(a, seconds[j], x, y, category)]
  {
  }

  /** Extending the outer loop by one first character appends its row. */
  lemma ProductStep(firsts: seq<char>, i: int, seconds: seq<char>, x: real, y: real, category: string)
    requires 0 <= i < |firsts|
    ensures Product(firsts[..i + 1], seconds, x, y, category) == Product(firsts[..i], seconds, x, y, category) + Row(firsts[i], seconds, x, y, category)
  {
    assert firsts[..i + 1][..i] == firsts[..i];
  }

  /** The rebuilt preset table configures every preset. */
  lemma InitialPresetsComplete(o: DerivedOffsets)
    ensures forall k :: k in InitialPresets(o)
  {
    forall k: PresetKind ensures k in InitialPresets(o) {
      InitialPresetsFinalValues(o, k);
    }
  }

  /** The candidate rules of one preset under its current configuration. */
  function PresetRules(kind: PresetKind, config: PresetConfig): seq<AdjustmentRule> {
    Product(Firsts(kind), Seconds(kind), config.FinalX(), config.FinalY(), config.name)
  }

  /** The candidates of the first six presets, in generate-all order. */
  function EarlierRules(presets: map<PresetKind, PresetConfig>): seq<AdjustmentRule>
    requires forall k :: k in presets
  {
    PresetRules(ConsonantUpper, presets[ConsonantUpper])
    + PresetRules(ConsonantTone, presets[ConsonantTone])
    + PresetRules(ConsonantThanThaKhaat, presets[ConsonantThanThaKhaat])
    + PresetRules(UpperTone, presets[UpperTone])
    + PresetRules(UpperThanThaKhaat, presets[UpperThanThaKhaat])
    + PresetRules(SaraAmTone, presets[SaraAmTone])
  }

  /** All candidates generate-all proposes, preset after preset. */
  function GenerateAllRules(presets: map<PresetKind, PresetConfig>): seq<AdjustmentRule>
    requires forall k :: k in presets
  {
    EarlierRules(presets)
    + PresetRules(AscenderUpper, presets[AscenderUpper])
    + PresetRules(DescenderLower, presets[DescenderLower])
  }

  /** Every candidate of a product carries the stamped placement and category,
      is selected, and pairs a first character with a second one. */
  lemma {:induction false} ProductStamps(firsts: seq<char>, seconds: seq<char>, x: real, y: real, category: string)
    ensures forall r :: r in Product(firsts, seconds, x, y, category) ==>
      && r.x == x && r.y == y && r.category == category && r.selected
      && r.first in firsts && r.second in seconds
      && r.ruleName == [r.first, '+', r.second]
    decreases |firsts|
  {
    if firsts != [] {
      var init := firsts[..|firsts| - 1];
      ProductStamps(init, seconds, x, y, category);
      assert forall c :: c in init ==> c in firsts;
    }
  }

  /** Every pair of the two classes is proposed. */
  lemma {:induction false} ProductCovers(firsts: seq<char>, seconds: seq<char>, x: real, y: real, category: string, a: char, b: char)
    requires a in firsts && b in seconds
    ensures PairRule(a, b, x, y, category) in Product(firsts, seconds, x, y, category)
    decreases |firsts|
  {
    var init := firsts[..|firsts| - 1];
    var last := firsts[|firsts| - 1];
    var j :| 0 <= j < |seconds| && seconds[j] == b;
    if a == last {
      assert Row(last, seconds, x, y, category)[j] == PairRule(a, b, x, y, category);
    } else {
      assert firsts == init + [last];
      ProductCovers(init, seconds, x, y, category, a, b);
    }
  }

  lemma DistributesOverSuccessor(n: nat, m: nat)
    ensures n * m + m == (n + 1) * m
  {
  }

  /** A product has |firsts| * |seconds| candidates. */
  lemma {:induction false} ProductSize(firsts: seq<char>, seconds: seq<char>, x: real, y: real, category: string)
    ensures |Product(firsts, seconds, x, y, category)| == |firsts| * |seconds|
    decreases |firsts|
  {
    if firsts != [] {
      var n := |firsts| - 1;
      ProductSize(firsts[..n], seconds, x, y, category);
      assert |Product(firsts, seconds, x, y, category)| == n * |seconds| + |seconds|;
      assert n * |seconds| + |seconds| == (n + 1) * |seconds| by {
        DistributesOverSuccessor(n, |seconds|);
      }
    }
  }

  /** A preset's candidates are all stamped with its final placement and name. */
  lemma PresetRulesStamped(kind: PresetKind, config: PresetConfig)
    ensures forall r :: r in PresetRules(kind, config) ==>
      && r.x == config.FinalX() && r.y == config.FinalY() && r.category == config.name
      && r.first in Firsts(kind) && r.second in Seconds(kind)
  {
    ProductStamps(Firsts(kind), Seconds(kind), config.FinalX(), config.FinalY(), config.name);
  }

  /** The raw count shown before generating everything: the sum of the product
      sizes of all eight presets, repeats included. */
  function CalculateTotalPossiblePairs(): (total: nat)
    ensures total == |Firsts(ConsonantUpper)| * |Seconds(ConsonantUpper)|
                   + |Firsts(ConsonantTone)| * |Seconds(ConsonantTone)|
                   + |Firsts(ConsonantThanThaKhaat)| * |Seconds(ConsonantThanThaKhaat)|
                   + |Firsts(UpperTone)| * |Seconds(UpperTone)|
                   + |Firsts(UpperThanThaKhaat)| * |Seconds(UpperThanThaKhaat)|
                   + |Firsts(SaraAmTone)| * |Seconds(SaraAmTone)|
                   + |Firsts(AscenderUpper)| * |Seconds(AscenderUpper)|
                   + |Firsts(DescenderLower)| * |Seconds(DescenderLower)|
    ensures total == 566
  {
    |AllConsonants| * |UpperVowels|
    + |AllConsonants| * |ToneMarks|
    + |AllConsonants|
    + |UpperVowels| * |ToneMarks|
    + |UpperVowels|
    + |ToneMarks|
    + |AscenderConsonants| * (|UpperVowels| + |ToneMarks| + 1)
    + |DescenderConsonants| * |LowerVowels|
  }

  /** The total is the number of candidates generate-all proposes. */
  lemma TotalPossiblePairsCountsCandidates(presets: map<PresetKind, PresetConfig>)
    requires forall k :: k in presets
    ensures |GenerateAllRules(presets)| == CalculateTotalPossiblePairs()
  {
    forall k: PresetKind
      ensures |PresetRules(k, presets[k])| == |Firsts(k)| * |Seconds(k)|
    {
      var c := presets[k];
      ProductSize(Firsts(k), Seconds(k), c.FinalX(), c.FinalY(), c.name);
    }
  }

  /** A pair whose first character is a consonant of the array and whose second
      is an upper vowel, a tone mark or ์ is proposed by one of the first three presets. */
  lemma ConsonantPairIsEarlier(presets: map<PresetKind, PresetConfig>, a: char, b: char)
    requires forall k :: k in presets
    requires a in AllConsonants && (b in UpperVowels || b in ToneMarks || b == ThanThaKhaat)
    ensures exists r :: r in EarlierRules(presets) && r.first == a && r.second == b
  {
    var kind := if b in UpperVowels then ConsonantUpper else if b in ToneMarks then ConsonantTone else ConsonantThanThaKhaat;
    var c := presets[kind];
    ProductCovers(Firsts(kind), Seconds(kind), c.FinalX(), c.FinalY(), c.name, a, b);
    var p := PairRule(a, b, c.FinalX(), c.FinalY(), c.name);
    assert p in EarlierRules(presets);
  }

  /** Every ordered pair of the ascender preset is already proposed by the
      three consonant presets, because its consonants are consonants of the array. */
  lemma AscenderPairsAreEarlier(presets: map<PresetKind, PresetConfig>)
    requires forall k :: k in presets
    ensures forall r :: r in PresetRules(AscenderUpper, presets[AscenderUpper]) ==> HasKey(EarlierRules(presets), r.Key())
  {
    var asc := PresetRules(AscenderUpper, presets[AscenderUpper]);
    AscendersAreConsonants();
    PresetRulesStamped(AscenderUpper, presets[AscenderUpper]);
    forall r | r in asc ensures HasKey(EarlierRules(presets), r.Key()) {
      assert r.first in AscenderConsonants;
      assert r.second in UpperVowels + ToneMarks + [ThanThaKhaat];
      ConsonantPairIsEarlier(presets, r.first, r.second);
      var p :| p in EarlierRules(presets) && p.first == r.first && p.second == r.second;
      KeyIdentifiesPair(p, r);
    }
  }

  /** Inside generate-all the ascender preset adds nothing, whatever the rule
      set held before. */
  lemma AscenderAddsNothingInGenerateAll(rules: seq<AdjustmentRule>, presets: map<PresetKind, PresetConfig>)
    requires forall k :: k in presets
    ensures var before := WithRules(rules, EarlierRules(presets)).0;
      WithRules(before, PresetRules(AscenderUpper, presets[AscenderUpper])) == (before, 0)
  {
    AscenderPairsAreEarlier(presets);
    WithRulesAfterCovering(rules, EarlierRules(presets), PresetRules(AscenderUpper, presets[AscenderUpper]));
  }

  /** Generate-all is each preset in turn; the ascender step in the middle is a no-op. */
  lemma GenerateAllSkipsAscender(rules: seq<AdjustmentRule>, presets: map<PresetKind, PresetConfig>)
    requires forall k :: k in presets
    ensures WithRules(rules, GenerateAllRules(presets)).0
      == WithRules(WithRules(rules, EarlierRules(presets)).0, PresetRules(DescenderLower, presets[DescenderLower])).0
    ensures WithRules(rules, GenerateAllRules(presets)).1
      == WithRules(rules, EarlierRules(presets)).1
       + WithRules(WithRules(rules, EarlierRules(presets)).0, PresetRules(DescenderLower, presets[DescenderLower])).1
  {
    var e := EarlierRules(presets);
    var a := PresetRules(AscenderUpper, presets[AscenderUpper]);
    var d := PresetRules(DescenderLower, presets[DescenderLower]);
    assert GenerateAllRules(presets) == e + a + d;
    AscenderAddsNothingInGenerateAll(rules, presets);
    WithRulesSkipsNoOp(rules, e, a, d);
  }

  /** A product of two duplicate-free classes proposes each ordered pair once. */
  lemma {:induction false} ProductUniqueKeys(firsts: seq<char>, seconds: seq<char>, x: real, y: real, category: string)
    requires Distinct(firsts) && Distinct(seconds)
    ensures UniqueKeys(Product(firsts, seconds, x, y, category))
    decreases |firsts|
  {
    if firsts != [] {
      var init := firsts[..|firsts| - 1];
      var last := firsts[|firsts| - 1];
      assert Distinct(init) by {
        forall i, j | 0 <= i < j < |init| ensures init[i] != init[j] {
          assert init[i] == firsts[i] && init[j] == firsts[j];
        }
      }
      ProductUniqueKeys(init, seconds, x, y, category);
      var row := Row(last, seconds, x, y, category);
      assert UniqueKeys(row) by {
        forall i, j | 0 <= i < j < |row| ensures row[i].Key() != row[j].Key() {
          KeyIdentifiesPair(row[i], row[j]);
        }
      }
      var prev := Product(init, seconds, x, y, category);
      ProductStamps(init, seconds, x, y, category);
      assert last !in init by {
        forall k | 0 <= k < |init| ensures init[k] != last {
          assert init[k] == firsts[k];
        }
      }
      forall r | r in row ensures !HasKey(prev, r.Key()) {
        var j :| 0 <= j < |row| && row[j] == r;
        assert r.first == last;
        forall i | 0 <= i < |prev| ensures prev[i].Key() != r.Key() {
          assert prev[i] in prev;
          KeyIdentifiesPair(prev[i], r);
        }
      }
      UniqueKeysAppend(prev, row);
    }
  }

  /** Two products whose first classes or whose second classes are disjoint
      share no ordered pair. */
  lemma ProductsApart(f1: seq<char>, s1: seq<char>, x1: real, y1: real, c1: string,
                      f2: seq<char>, s2: seq<char>, x2: real, y2: real, c2: string)
    requires (forall c :: c in f1 ==> c !in f2) || (forall c :: c in s1 ==> c !in s2)
    ensures forall r :: r in Product(f2, s2, x2, y2, c2) ==> !HasKey(Product(f1, s1, x1, y1, c1), r.Key())
  {
    var p1 := Product(f1, s1, x1, y1, c1);
    ProductStamps(f1, s1, x1, y1, c1);
    ProductStamps(f2, s2, x2, y2, c2);
    forall r | r in Product(f2, s2, x2, y2, c2) ensures !HasKey(p1, r.Key()) {
      if HasKey(p1, r.Key()) {
        var i :| 0 <= i < |p1| && p1[i].Key() == r.Key();
        assert p1[i] in p1;
        KeyIdentifiesPair(p1[i], r);
      }
    }
  }

  /** Among the presets other than the ascender one, two different presets
      differ in their first class or in their second class. */
  lemma KindsApart(k1: PresetKind, k2: PresetKind)
    requires k1 != k2 && k1 != AscenderUpper && k2 != AscenderUpper
    ensures (forall c :: c in Firsts(k1) ==> c !in Firsts(k2)) || (forall c :: c in Seconds(k1) ==> c !in Seconds(k2))
  {
    forall c
      ensures c in UpperVowels ==> c !in ToneMarks && c != ThanThaKhaat && c != SaraAm && c !in LowerVowels
      ensures c in ToneMarks ==> c != ThanThaKhaat && c !in LowerVowels
      ensures c in LowerVowels ==> c != ThanThaKhaat
      ensures c in AllConsonants ==> c !in UpperVowels && c != SaraAm
    {
      ClassesDisjoint(c);
      ClassesByCodePoint(c);
    }
  }

  /** Two different presets other than the ascender one share no ordered pair. */
  lemma PresetsApart(presets: map<PresetKind, PresetConfig>, k1: PresetKind, k2: PresetKind)
    requires forall k :: k in presets
    requires k1 != k2 && k1 != AscenderUpper && k2 != AscenderUpper
    ensures forall r :: r in PresetRules(k2, presets[k2]) ==> !HasKey(PresetRules(k1, presets[k1]), r.Key())
  {
    KindsApart(k1, k2);
    var a := presets[k1];
    var b := presets[k2];
    ProductsApart(Firsts(k1), Seconds(k1), a.FinalX(), a.FinalY(), a.name,
                  Firsts(k2), Seconds(k2), b.FinalX(), b.FinalY(), b.name);
  }

  /** The ascender preset's three inner classes, one after another, repeat no character. */
  lemma AscenderSecondsDistinct()
    ensures Distinct(Seconds(AscenderUpper))
  {
    ClassesDistinct();
    var s := Seconds(AscenderUpper);
    forall i, j | 0 <= i < j < |s| ensures s[i] != s[j] {
      ClassesDisjoint(s[i]);
      if j < 6 {
        assert s[i] == UpperVowels[i] && s[j] == UpperVowels[j];
      } else if i >= 6 && j < 10 {
        assert s[i] == ToneMarks[i - 6] && s[j] == ToneMarks[j - 6];
      } else if i < 6 {
        assert s[i] in UpperVowels;
        assert s[j] in ToneMarks || s[j] == ThanThaKhaat;
      } else {
        assert s[i] in ToneMarks && s[j] == ThanThaKhaat;
      }
    }
  }

  /** Every preset iterates duplicate-free classes, so it proposes each ordered pair once. */
  lemma PresetUniqueKeys(presets: map<PresetKind, PresetConfig>, k: PresetKind)
    requires forall k :: k in presets
    ensures UniqueKeys(PresetRules(k, presets[k]))
  {
    ClassesDistinct();
    AscenderSecondsDistinct();
    var c := presets[k];
    ProductUniqueKeys(Firsts(k), Seconds(k), c.FinalX(), c.FinalY(), c.name);
  }

  /** A preset appends exactly its pairs not yet in the rule list, in loop
      order, and reports that many. */
  lemma PresetAddsFresh(rules: seq<AdjustmentRule>, presets: map<PresetKind, PresetConfig>, k: PresetKind)
    requires forall k :: k in presets
    ensures WithRules(rules, PresetRules(k, presets[k])).0 == rules + Fresh(rules, PresetRules(k, presets[k]))
    ensures WithRules(rules, PresetRules(k, presets[k])).1 == |Fresh(rules, PresetRules(k, presets[k]))|
  {
    PresetUniqueKeys(presets, k);
    WithRulesAppendsFresh(rules, PresetRules(k, presets[k]));
  }

  /** Running the same preset a second time adds nothing, even after its
      offsets were edited in between. */
  lemma PresetTwiceAddsNothing(rules: seq<AdjustmentRule>, k: PresetKind, first: PresetConfig, second: PresetConfig)
    ensures WithRules(WithRules(rules, PresetRules(k, first)).0, PresetRules(k, second))
      == (WithRules(rules, PresetRules(k, first)).0, 0)
  {
    var a := PresetRules(k, first);
    var b := PresetRules(k, second);
    ProductKeysAgree(Firsts(k), Seconds(k), first.FinalX(), first.FinalY(), first.name,
                     second.FinalX(), second.FinalY(), second.name);
    WithRulesIdempotent(rules, a, b);
  }

  /** Products of the same classes carry the same keys position by position,
      whatever placement and name they are stamped with. */
  lemma {:induction false} ProductKeysAgree(firsts: seq<char>, seconds: seq<char>,
                                           x1: real, y1: real, c1: string, x2: real, y2: real, c2: string)
    ensures |Product(firsts, seconds, x1, y1, c1)| == |Product(firsts, seconds, x2, y2, c2)|
    ensures forall i :: 0 <= i < |Product(firsts, seconds, x1, y1, c1)| ==>
      Product(firsts, seconds, x1, y1, c1)[i].Key() == Product(firsts, seconds, x2, y2, c2)[i].Key()
    decreases |firsts|
  {
    if firsts != [] {
      var init := firsts[..|firsts| - 1];
      var last := firsts[|firsts| - 1];
      ProductKeysAgree(init, seconds, x1, y1, c1, x2, y2, c2);
      var p1 := Product(init, seconds, x1, y1, c1);
      var p2 := Product(init, seconds, x2, y2, c2);
      var r1 := Row(last, seconds, x1, y1, c1);
      var r2 := Row(last, seconds, x2, y2, c2);
      var q1: seq<AdjustmentRule> := p1 + r1;
      var q2: seq<AdjustmentRule> := p2 + r2;
      forall i | 0 <= i < |q1| ensures q1[i].Key() == q2[i].Key() {
        if i >= |p1| {
          assert q1[i] == r1[i - |p1|] && q2[i] == r2[i - |p1|];
        } else {
          assert q1[i] == p1[i] && q2[i] == p2[i];
        }
      }
    }
  }

  /** The candidates of the first n presets in generate-all order, with the
      ascender preset (position 6) left out. */
  function PrefixRules(presets: map<PresetKind, PresetConfig>, n: nat): seq<AdjustmentRule>
    requires forall k :: k in presets
    requires n <= 7
  {
    if n == 0 then [] else PrefixRules(presets, n - 1) + PresetRules(KindAt(n - 1), presets[KindAt(n - 1)])
  }

  /** The presets other than the ascender one, in generate-all order. */
  function KindAt(i: nat): (k: PresetKind)
    requires i < 7
    ensures k != AscenderUpper
  {
    [ConsonantUpper, ConsonantTone, ConsonantThanThaKhaat, UpperTone, UpperThanThaKhaat, SaraAmTone, DescenderLower][i]
  }

  /** No earlier preset of the prefix proposes a pair of preset n. */
  lemma {:induction false} PrefixApart(presets: map<PresetKind, PresetConfig>, m: nat, n: nat)
    requires forall k :: k in presets
    requires m <= n < 7
    ensures forall r :: r in PresetRules(KindAt(n), presets[KindAt(n)]) ==> !HasKey(PrefixRules(presets, m), r.Key())
  {
    if m > 0 {
      PrefixApart(presets, m - 1, n);
      assert KindAt(m - 1) != KindAt(n);
      PresetsApart(presets, KindAt(m - 1), KindAt(n));
      AbsentFromBoth(PrefixRules(presets, m - 1), PresetRules(KindAt(m - 1), presets[KindAt(m - 1)]),
                     PresetRules(KindAt(n), presets[KindAt(n)]));
    }
  }

  /** The presets of a prefix propose no ordered pair twice. */
  lemma {:induction false} PrefixUniqueKeys(presets: map<PresetKind, PresetConfig>, n: nat)
    requires forall k :: k in presets
    requires n <= 7
    ensures UniqueKeys(PrefixRules(presets, n))
  {
    if n > 0 {
      PrefixUniqueKeys(presets, n - 1);
      PresetUniqueKeys(presets, KindAt(n - 1));
      PrefixApart(presets, n - 1, n - 1);
      UniqueKeysAppend(PrefixRules(presets, n - 1), PresetRules(KindAt(n - 1), presets[KindAt(n - 1)]));
    }
  }

  /** The first six kinds of the prefix order are the six earlier presets. */
  lemma EarlierKinds()
    ensures KindAt(0) == ConsonantUpper && KindAt(1) == ConsonantTone && KindAt(2) == ConsonantThanThaKhaat
    ensures KindAt(3) == UpperTone && KindAt(4) == UpperThanThaKhaat && KindAt(5) == SaraAmTone
    ensures KindAt(6) == DescenderLower
  {
  }

  /** The first preset alone. */
  lemma PrefixOne(presets: map<PresetKind, PresetConfig>)
    requires forall k :: k in presets
    ensures PrefixRules(presets, 1) == PresetRules(ConsonantUpper, presets[ConsonantUpper])
  {
    EarlierKinds();
    assert PrefixRules(presets, 1) == [] + PresetRules(ConsonantUpper, presets[ConsonantUpper]);
  }

  /** The six earlier presets are the first six of the prefix. */
  lemma EarlierIsPrefix(presets: map<PresetKind, PresetConfig>)
    requires forall k :: k in presets
    ensures EarlierRules(presets) == PrefixRules(presets, 6)
  {
    EarlierKinds();
    PrefixOne(presets);
    var q1 := PrefixRules(presets, 1);
    var q2 := PrefixRules(presets, 2);
    var q3 := PrefixRules(presets, 3);
    var q4 := PrefixRules(presets, 4);
    var q5 := PrefixRules(presets, 5);
    var q6 := PrefixRules(presets, 6);
    assert q2 == q1 + PresetRules(ConsonantTone, presets[ConsonantTone]);
    assert q3 == q2 + PresetRules(ConsonantThanThaKhaat, presets[ConsonantThanThaKhaat]);
    assert q4 == q3 + PresetRules(UpperTone, presets[UpperTone]);
    assert q5 == q4 + PresetRules(UpperThanThaKhaat, presets[UpperThanThaKhaat]);
    assert q6 == q5 + PresetRules(SaraAmTone, presets[SaraAmTone]);
  }

  /** The size of one preset's candidate list. */
  lemma PresetSize(presets: map<PresetKind, PresetConfig>, k: PresetKind)
    requires forall k :: k in presets
    ensures |PresetRules(k, presets[k])| == |Firsts(k)| * |Seconds(k)|
  {
    var c := presets[k];
    ProductSize(Firsts(k), Seconds(k), c.FinalX(), c.FinalY(), c.name);
  }

  /** How many characters each preset iterates in its outer and inner loops. */
  lemma ClassSizes()
    ensures |Firsts(ConsonantUpper)| == 44 && |Seconds(ConsonantUpper)| == 6
    ensures |Firsts(ConsonantTone)| == 44 && |Seconds(ConsonantTone)| == 4
    ensures |Firsts(ConsonantThanThaKhaat)| == 44 && |Seconds(ConsonantThanThaKhaat)| == 1
    ensures |Firsts(UpperTone)| == 6 && |Seconds(UpperTone)| == 4
    ensures |Firsts(UpperThanThaKhaat)| == 6 && |Seconds(UpperThanThaKhaat)| == 1
    ensures |Firsts(SaraAmTone)| == 1 && |Seconds(SaraAmTone)| == 4
    ensures |Firsts(DescenderLower)| == 2 && |Seconds(DescenderLower)| == 2
  {
  }

  /** Sizes of the presets generate-all keeps: 518 from the six earlier ones, 4 from the descender one. */
  lemma KeptSizes(presets: map<PresetKind, PresetConfig>)
    requires forall k :: k in presets
    ensures |EarlierRules(presets)| == 518
    ensures |PresetRules(DescenderLower, presets[DescenderLower])| == 4
  {
    ClassSizes();
    PresetSize(presets, ConsonantUpper);
    PresetSize(presets, ConsonantTone);
    PresetSize(presets, ConsonantThanThaKhaat);
    PresetSize(presets, UpperTone);
    PresetSize(presets, UpperThanThaKhaat);
    PresetSize(presets, SaraAmTone);
    PresetSize(presets, DescenderLower);
  }

  /** Generate-all on an empty rule list keeps every candidate of the six
      earlier presets and of the descender preset, in order, and nothing of
      the ascender preset: 522 rules, of the 566 candidates proposed. */
  lemma GenerateAllFromEmpty(presets: map<PresetKind, PresetConfig>)
    requires forall k :: k in presets
    ensures WithRules([], GenerateAllRules(presets)).0
      == EarlierRules(presets) + PresetRules(DescenderLower, presets[DescenderLower])
    ensures WithRules([], GenerateAllRules(presets)).1 == 522
    ensures |WithRules([], GenerateAllRules(presets)).0| == 522
  {
    var e := EarlierRules(presets);
    var d := PresetRules(DescenderLower, presets[DescenderLower]);
    GenerateAllSkipsAscender([], presets);
    EarlierIsPrefix(presets);
    PrefixUniqueKeys(presets, 6);
    WithRulesAppendsFresh([], e);
    FreshOverEmpty(e);
    assert [] + e == e;
    assert WithRules([], e) == (e, |e|);
    PresetUniqueKeys(presets, DescenderLower);
    PrefixApart(presets, 6, 6);
    WithRulesAppendsFresh(e, d);
    FreshWhenApart(e, d);
    assert WithRules(e, d) == (e + d, |d|);
    KeptSizes(presets);
  }
}

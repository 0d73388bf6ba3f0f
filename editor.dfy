/** The editor window's state and the operations behind its buttons: the
    working rule list, the preset table, the selected font with its pair
    records, and the single-slot backup used by undo. */
module Editor {
  import opened Wrappers
  import opened ThaiChars
  import opened RuleSet
  import opened Presets
  import opened TextScan
  import opened GlyphTable

  /** A font asset: its character table and derived metric offsets are fixed,
      its glyph-pair records are edited in place. `notifications` counts the
      reload-and-notify steps (definition re-read plus font-changed event)
      that follow each batch of edits. */
  class FontAsset {
    const characterTable: seq<CharacterEntry>
    const offsets: DerivedOffsets
    var records: seq<GlyphPairRecord>
    var notifications: nat

    constructor (characterTable: seq<CharacterEntry>, offsets: DerivedOffsets, records: seq<GlyphPairRecord>)
      ensures this.characterTable == characterTable && this.offsets == offsets
      ensures this.records == records && notifications == 0
    {
      this.characterTable := characterTable;
      this.offsets := offsets;
      this.records := records;
      notifications := 0;
    }

    /** Re-read the definition and raise the font-changed event. */
    method Notify()
      modifies this`notifications
      ensures notifications == old(notifications) + 1
    {
      notifications := notifications + 1;
    }
  }

  /** The sample text the window starts with. */
  const DefaultSampleText: string :=
    "ปิ่น อื้อ จี๊ด อื้ม ปรื๋อ ผื่น ลิ้น \nติ๋ม ปริ่ม หั่น ปั้น ตั๊ก ป้า ม๊า \nฝ่า ป่า ฟ้า ผ่า ผ้า จ๋า สิทธิ์  \nย่ำ ถ้ำ ฎุ ฎูำ"

  /** Rules with their selection flag set to `on`; nothing else changes. */
  function WithSelection(rules: seq<AdjustmentRule>, on: bool): (r: seq<AdjustmentRule>)
    ensures |r| == |rules|
    ensures forall i :: 0 <= i < |rules| ==> r[i] == rules[i].(selected := on)
  {
    seq(|rules|, i requires 0 <= i < |rules| => rules[i].(selected := on))
  }

  /** Changing the selection keeps every key, so the rule set stays duplicate-free. */
  lemma SelectionKeepsKeys(rules: seq<AdjustmentRule>, on: bool)
    requires UniqueKeys(rules)
    ensures UniqueKeys(WithSelection(rules, on))
    ensures forall key :: HasKey(WithSelection(rules, on), key) <==> HasKey(rules, key)
  {
    var r := WithSelection(rules, on);
    forall key ensures HasKey(r, key) <==> HasKey(rules, key) {
      if HasKey(rules, key) {
        var i :| 0 <= i < |rules| && rules[i].Key() == key;
        assert r[i].Key() == key;
      }
      if HasKey(r, key) {
        var i :| 0 <= i < |r| && r[i].Key() == key;
        assert rules[i].Key() == key;
      }
    }
  }

  /** Changing the selection of a non-empty list splits off its last rule. */
  lemma WithSelectionSnoc(rules: seq<AdjustmentRule>, on: bool)
    requires rules != []
    ensures WithSelection(rules, on)
         == WithSelection(rules[..|rules| - 1], on) + [rules[|rules| - 1].(selected := on)]
  {
    var w := WithSelection(rules, on);
    assert w[..|w| - 1] == WithSelection(rules[..|rules| - 1], on);
    assert w == w[..|w| - 1] + [w[|w| - 1]];
  }

  /** After select-all every rule takes part in a merge. */
  lemma {:induction false} SelectAllSelectsEverything(rules: seq<AdjustmentRule>)
    ensures Selected(WithSelection(rules, true)) == WithSelection(rules, true)
    decreases |rules|
  {
    if rules != [] {
      var init := rules[..|rules| - 1];
      var last := rules[|rules| - 1].(selected := true);
      SelectAllSelectsEverything(init);
      WithSelectionSnoc(rules, true);
      SelectedSnoc(WithSelection(init, true), last);
    }
  }

  /** After deselect-all no rule takes part in a merge. */
  lemma {:induction false} DeselectAllSelectsNothing(rules: seq<AdjustmentRule>)
    ensures Selected(WithSelection(rules, false)) == []
    decreases |rules|
  {
    if rules != [] {
      var init := rules[..|rules| - 1];
      var last := rules[|rules| - 1].(selected := false);
      DeselectAllSelectsNothing(init);
      WithSelectionSnoc(rules, false);
      SelectedSnoc(WithSelection(init, false), last);
    }
  }

  /** Merging after deselect-all leaves the font's records exactly as they were. */
  lemma MergeAfterDeselectAll(records: seq<GlyphPairRecord>, table: seq<CharacterEntry>, rules: seq<AdjustmentRule>)
    ensures Merge(records, table, WithSelection(rules, false)) == Merged(records, 0, 0, 0)
  {
    DeselectAllSelectsNothing(rules);
    MergeIgnoresUnselected(records, table, WithSelection(rules, false));
  }

  /** The editor window. */
  class Session {
    var fontAsset: FontAsset?
    var sampleText: string
    var rules: seq<AdjustmentRule>
    var presets: map<PresetKind, PresetConfig>
    var isProcessing: bool
    var backupRecords: Option<seq<GlyphPairRecord>>
    var lastModifiedFont: FontAsset?

    /** The rule list has no repeated pair, every preset is configured, and a
        backup exists exactly when the font it was taken from is remembered. */
    ghost predicate Valid()
      reads this
    {
      && UniqueKeys(rules)
      && (forall k :: k in presets)
      && (backupRecords.Some? <==> lastModifiedFont != null)
    }

    /** The metric offsets that preset defaults are computed from. */
    function CurrentOffsets(): DerivedOffsets
      reads this, fontAsset
    {
      if fontAsset == null then FallbackOffsets else fontAsset.offsets
    }

    /** Opening the window: no font, no rules, no backup, presets from the fallback offsets. */
    constructor ()
      ensures Valid()
      ensures fontAsset == null && sampleText == DefaultSampleText && rules == []
      ensures presets == InitialPresets(FallbackOffsets)
      ensures !isProcessing && backupRecords == None && lastModifiedFont == null
    {
      fontAsset := null;
      sampleText := DefaultSampleText;
      rules := [];
      presets := InitialPresets(FallbackOffsets);
      InitialPresetsComplete(FallbackOffsets);
      isProcessing := false;
      backupRecords := None;
      lastModifiedFont := null;
    }

    /** Rebuilds every preset from the current font's offsets; user offsets
        are reset to 0. Also what "recalculate defaults" does. */
    method InitializePresets()
      requires Valid()
      modifies this`presets
      ensures Valid()
      ensures presets == InitialPresets(CurrentOffsets())
    {
      presets := InitialPresets(CurrentOffsets());
      InitialPresetsComplete(CurrentOffsets());
    }

    /** Picking a font in the object field. A different font clears the rules
        and, when it is not null, rebuilds the presets; the backup is kept. */
    method SelectFont(newFont: FontAsset?)
      requires Valid()
      modifies this`fontAsset, this`rules, this`presets
      ensures Valid()
      ensures fontAsset == newFont
      ensures newFont == old(fontAsset) ==> rules == old(rules) && presets == old(presets)
      ensures newFont != old(fontAsset) ==> rules == []
      ensures newFont != old(fontAsset) && newFont != null ==> presets == InitialPresets(newFont.offsets)
      ensures newFont != old(fontAsset) && newFont == null ==> presets == old(presets)
    {
      if newFont != fontAsset {
        fontAsset := newFont;
        rules := [];
        if fontAsset != null {
          InitializePresets();
        }
      }
    }

    /** Editing a preset's default and offset fields; its name stays. */
    method EditPreset(kind: PresetKind, defaultX: real, defaultY: real, offsetX: real, offsetY: real)
      requires Valid()
      modifies this`presets
      ensures Valid()
      ensures presets == old(presets)[kind := PresetConfig(old(presets)[kind].name, defaultX, defaultY, offsetX, offsetY)]
      ensures presets[kind].FinalX() == defaultX + offsetX && presets[kind].FinalY() == defaultY + offsetY
    {
      presets := presets[kind := presets[kind].(defaultX := defaultX, defaultY := defaultY, offsetX := offsetX, offsetY := offsetY)];
    }

    /** First-wins insertion of one rule. */
    method AddRule(name: string, first: char, second: char, x: real, y: real, category: string) returns (added: bool)
      requires Valid()
      modifies this`rules
      ensures Valid()
      ensures rules == WithRule(old(rules), NewRule(name, first, second, x, y, category)).0
      ensures added == WithRule(old(rules), NewRule(name, first, second, x, y, category)).1
    {
      var key := [first, '_', second];
      var i := 0;
      while i < |rules|
        invariant 0 <= i <= |rules|
        invariant forall j :: 0 <= j < i ==> rules[j].Key() != key
      {
        if rules[i].Key() == key {
          return false;
        }
        i := i + 1;
      }
      var rule := NewRule(name, first, second, x, y, category);
      WithRuleFirstWins(rules, rule);
      rules := rules + [rule];
      added := true;
    }

    /** The nested generator loops: every first character, then every second
        character, each pair offered to AddRule; the result counts acceptances. */
    method AddCrossProduct(firsts: seq<char>, seconds: seq<char>, x: real, y: real, category: string) returns (added: nat)
      requires Valid()
      modifies this`rules
      ensures Valid()
      ensures rules == WithRules(old(rules), Product(firsts, seconds, x, y, category)).0
      ensures added == WithRules(old(rules), Product(firsts, seconds, x, y, category)).1
    {
      ghost var start := rules;
      added := 0;
      var i := 0;
      while i < |firsts|
        invariant 0 <= i <= |firsts| && Valid()
        invariant rules == WithRules(start, Product(firsts[..i], seconds, x, y, category)).0
        invariant added == WithRules(start, Product(firsts[..i], seconds, x, y, category)).1
      {
        ghost var done := Product(firsts[..i], seconds, x, y, category);
        var rowAdded := AddRow(firsts[i], seconds, x, y, category);
        added := added + rowAdded;
        WithRulesAppend(start, done, Row(firsts[i], seconds, x, y, category));
        ProductStep(firsts, i, seconds, x, y, category);
        i := i + 1;
      }
      assert firsts[..i] == firsts;
    }

    /** The inner generator loop for one first character. */
    method AddRow(a: char, seconds: seq<char>, x: real, y: real, category: string) returns (added: nat)
      requires Valid()
      modifies this`rules
      ensures Valid()
      ensures rules == WithRules(old(rules), Row(a, seconds, x, y, category)).0
      ensures added == WithRules(old(rules), Row(a, seconds, x, y, category)).1
    {
      ghost var start := rules;
      added := 0;
      var j := 0;
      while j < |seconds|
        invariant 0 <= j <= |seconds| && Valid()
        invariant rules == WithRules(start, Row(a, seconds[..j], x, y, category)).0
        invariant added == WithRules(start, Row(a, seconds[..j], x, y, category)).1
      {
        var b := seconds[j];
        RowStep(a, seconds, j, x, y, category);
        WithRulesSnoc(start, Row(a, seconds[..j], x, y, category), PairRule(a, b, x, y, category));
        var ok := AddRule([a, '+', b], a, b, x, y, category);
        if ok {
          added := added + 1;
        }
        j := j + 1;
      }
      assert seconds[..j] == seconds;
    }

    /** One preset's "Add" button: its generator adds the preset's candidates and reports how many it added. */
    method GeneratePreset(kind: PresetKind) returns (added: nat)
      requires Valid()
      modifies this`rules
      ensures Valid()
      ensures rules == WithRules(old(rules), PresetRules(kind, presets[kind])).0
      ensures added == WithRules(old(rules), PresetRules(kind, presets[kind])).1
      ensures rules == old(rules) + Fresh(old(rules), PresetRules(kind, presets[kind]))
      ensures added == |Fresh(old(rules), PresetRules(kind, presets[kind]))|
    {
      var config := presets[kind];
      PresetAddsFresh(rules, presets, kind);
      added := AddCrossProduct(Firsts(kind), Seconds(kind), config.FinalX(), config.FinalY(), config.name);
    }

    /** The eight presets in order, without dialogs: each block reads its
        preset's configuration and runs that preset's loops. */
    method GenerateAllPresetsInternal()
      requires Valid()
      modifies this`rules
      ensures Valid()
      ensures rules == WithRules(old(rules), GenerateAllRules(old(presets))).0
    {
      ghost var r0 := rules;
      var p := presets;
      var config1 := p[ConsonantUpper];
      var added1 := AddCrossProduct(Firsts(ConsonantUpper), Seconds(ConsonantUpper), config1.FinalX(), config1.FinalY(), config1.name);
      ghost var c1 := PresetRules(ConsonantUpper, config1);
      ghost var acc := c1;
      var config2 := p[ConsonantTone];
      var added2 := AddCrossProduct(Firsts(ConsonantTone), Seconds(ConsonantTone), config2.FinalX(), config2.FinalY(), config2.name);
      ghost var c2 := PresetRules(ConsonantTone, config2);
      WithRulesAppend(r0, acc, c2);
      acc := acc + c2;
      var config3 := p[ConsonantThanThaKhaat];
      var added3 := AddCrossProduct(Firsts(ConsonantThanThaKhaat), Seconds(ConsonantThanThaKhaat), config3.FinalX(), config3.FinalY(), config3.name);
      ghost var c3 := PresetRules(ConsonantThanThaKhaat, config3);
      WithRulesAppend(r0, acc, c3);
      acc := acc + c3;
      var config4 := p[UpperTone];
      var added4 := AddCrossProduct(Firsts(UpperTone), Seconds(UpperTone), config4.FinalX(), config4.FinalY(), config4.name);
      ghost var c4 := PresetRules(UpperTone, config4);
      WithRulesAppend(r0, acc, c4);
      acc := acc + c4;
      var config5 := p[UpperThanThaKhaat];
      var added5 := AddCrossProduct(Firsts(UpperThanThaKhaat), Seconds(UpperThanThaKhaat), config5.FinalX(), config5.FinalY(), config5.name);
      ghost var c5 := PresetRules(UpperThanThaKhaat, config5);
      WithRulesAppend(r0, acc, c5);
      acc := acc + c5;
      var config6 := p[SaraAmTone];
      var added6 := AddCrossProduct(Firsts(SaraAmTone), Seconds(SaraAmTone), config6.FinalX(), config6.FinalY(), config6.name);
      ghost var c6 := PresetRules(SaraAmTone, config6);
      WithRulesAppend(r0, acc, c6);
      acc := acc + c6;
      var config7 := p[AscenderUpper];
      var added7 := AddCrossProduct(Firsts(AscenderUpper), Seconds(AscenderUpper), config7.FinalX(), config7.FinalY(), config7.name);
      ghost var c7 := PresetRules(AscenderUpper, config7);
      WithRulesAppend(r0, acc, c7);
      acc := acc + c7;
      var config8 := p[DescenderLower];
      var added8 := AddCrossProduct(Firsts(DescenderLower), Seconds(DescenderLower), config8.FinalX(), config8.FinalY(), config8.name);
      ghost var c8 := PresetRules(DescenderLower, config8);
      WithRulesAppend(r0, acc, c8);
      acc := acc + c8;
      assert GenerateAllRules(p) == acc;
    }

    /** "Generate all": the same eight blocks; the count reported is the
        growth of the rule list. */
    method GenerateAllPresets() returns (addedCount: int)
      requires Valid()
      modifies this`rules
      ensures Valid()
      ensures rules == WithRules(old(rules), GenerateAllRules(old(presets))).0
      ensures addedCount == WithRules(old(rules), GenerateAllRules(old(presets))).1
    {
      var beforeCount := |rules|;
      ghost var r0 := rules;
      GenerateAllPresetsInternal();
      WithRulesExtends(r0, GenerateAllRules(old(presets)));
      addedCount := |rules| - beforeCount;
    }

    /** An edit of the sample text. */
    method SetSampleText(text: string)
      requires Valid()
      modifies this`sampleText
      ensures Valid() && sampleText == text
    {
      sampleText := text;
    }

    /** Scans the sample text for pairs and inserts their rules. Empty text is
        reported as an error and changes nothing. */
    method ScanAndDetectPairs() returns (added: nat)
      requires Valid()
      modifies this`rules
      ensures Valid()
      ensures sampleText == [] ==> rules == old(rules) && added == 0
      ensures sampleText != [] ==> rules == WithRules(old(rules), TextCands(Words(sampleText))).0
      ensures sampleText != [] ==> added == WithRules(old(rules), TextCands(Words(sampleText))).1
    {
      if sampleText == [] {
        return 0;
      }
      var words := Words(sampleText);
      ghost var start := rules;
      added := 0;
      var k := 0;
      while k < |words|
        invariant 0 <= k <= |words| && Valid()
        invariant rules == WithRules(start, TextCands(words[..k])).0
        invariant added == WithRules(start, TextCands(words[..k])).1
      {
        ghost var done := TextCands(words[..k]);
        var wordAdded := ScanWord(words[k]);
        added := added + wordAdded;
        WithRulesAppend(start, done, AllWordCands(words[k]));
        TextCandsStep(words, k);
        k := k + 1;
      }
      assert words[..k] == words;
    }

    /** The inner scan loop over the adjacent pairs of one word. */
    method ScanWord(word: string) returns (added: nat)
      requires Valid()
      modifies this`rules
      ensures Valid()
      ensures rules == WithRules(old(rules), AllWordCands(word)).0
      ensures added == WithRules(old(rules), AllWordCands(word)).1
    {
      ghost var start := rules;
      added := 0;
      var i := 0;
      while i < |word| - 1
        invariant 0 <= i && (i == 0 || i < |word|) && Valid()
        invariant rules == WithRules(start, WordCands(word, i)).0
        invariant added == WithRules(start, WordCands(word, i)).1
      {
        ghost var done := WordCands(word, i);
        ghost var pair := PairCands(word, i);
        var pairAdded := ScanPair(word, i);
        WordCandsStep(word, i);
        WithRulesAppend(start, done, pair);
        assert WordCands(word, i + 1) == done + pair;
        added := added + pairAdded;
        i := i + 1;
      }
      assert WordCands(word, i) == AllWordCands(word);
    }

    /** One step of the inner scan loop: the pair at position i, when valid,
        is offered to AddRule. */
    method ScanPair(word: string, i: nat) returns (added: nat)
      requires Valid() && i + 1 < |word|
      modifies this`rules
      ensures Valid()
      ensures rules == WithRules(old(rules), PairCands(word, i)).0
      ensures added == WithRules(old(rules), PairCands(word, i)).1
    {
      var firstChar := word[i];
      var secondChar := word[i + 1];
      added := 0;
      if IsValidThaiPair(firstChar, secondChar) {
        WithRulesSnoc(rules, [], ScanRule(word, firstChar, secondChar));
        var ok := AddRule(word, firstChar, secondChar, 0.0, -2.0, ScanCategory);
        if ok {
          added := 1;
        }
      }
    }

    /** Insert-or-overwrite of one glyph pair in the selected font. */
    method AddOrUpdatePairAdjustment(g1: nat, g2: nat, x: real, y: real) returns (isNew: bool)
      requires fontAsset != null
      modifies fontAsset`records
      ensures (fontAsset.records, isNew) == Upsert(old(fontAsset.records), g1, g2, x, y)
    {
      var records := fontAsset.records;
      var i := 0;
      while i < |records|
        invariant 0 <= i <= |records|
        invariant forall j :: 0 <= j < i ==> !IsPair(records[j], g1, g2)
      {
        if records[i].first.glyphIndex == g1 && records[i].second.glyphIndex == g2 {
          FindPairAt(records, g1, g2, i);
          fontAsset.records := records[i := PairRecord(g1, g2, x, y)];
          return false;
        }
        i := i + 1;
      }
      fontAsset.records := records + [PairRecord(g1, g2, x, y)];
      isNew := true;
    }

    /** Merges every selected rule into the font and counts additions,
        updates and skips; the font is then reloaded and notified once.
        Without a font it reports an error and changes nothing. */
    method ApplyAdjustments() returns (added: nat, updated: nat, skipped: nat)
      requires Valid()
      modifies fontAsset
      ensures fontAsset == null ==> added == 0 && updated == 0 && skipped == 0
      ensures fontAsset != null ==>
        && Merged(fontAsset.records, added, updated, skipped)
             == Merge(old(fontAsset.records), fontAsset.characterTable, rules)
        && fontAsset.notifications == old(fontAsset.notifications) + 1
    {
      if fontAsset == null {
        return 0, 0, 0;
      }
      var font := fontAsset;
      ghost var start := font.records;
      added, updated, skipped := 0, 0, 0;
      var i := 0;
      while i < |rules|
        invariant 0 <= i <= |rules|
        invariant fontAsset == font
        invariant Merged(font.records, added, updated, skipped) == Merge(start, font.characterTable, rules[..i])
        invariant font.notifications == old(font.notifications)
      {
        var rule := rules[i];
        assert rules[..i + 1][..i] == rules[..i];
        if rule.selected {
          var g1 := TryGetGlyphIndex(font.characterTable, rule.first);
          var g2 := TryGetGlyphIndex(font.characterTable, rule.second);
          if g1.Some? && g2.Some? {
            var isNew := AddOrUpdatePairAdjustment(g1.value, g2.value, rule.x, rule.y);
            if isNew {
              added := added + 1;
            } else {
              updated := updated + 1;
            }
          } else {
            skipped := skipped + 1;
          }
        }
        i := i + 1;
      }
      assert rules[..i] == rules;
      font.Notify();
    }

    /** The same merge without counters or dialogs, as one-click uses it. */
    method ApplyAdjustmentsInternal()
      requires Valid()
      modifies fontAsset
      ensures fontAsset != null ==>
        && fontAsset.records == Merge(old(fontAsset.records), fontAsset.characterTable, rules).records
        && fontAsset.notifications == old(fontAsset.notifications) + 1
    {
      if fontAsset == null {
        return;
      }
      var font := fontAsset;
      ghost var start := font.records;
      ghost var m := Merged(start, 0, 0, 0);
      var i := 0;
      while i < |rules|
        invariant 0 <= i <= |rules|
        invariant fontAsset == font
        invariant m == Merge(start, font.characterTable, rules[..i]) && font.records == m.records
        invariant font.notifications == old(font.notifications)
      {
        var rule := rules[i];
        assert rules[..i + 1][..i] == rules[..i];
        if rule.selected {
          var g1 := TryGetGlyphIndex(font.characterTable, rule.first);
          var g2 := TryGetGlyphIndex(font.characterTable, rule.second);
          if g1.Some? && g2.Some? {
            var isNew := AddOrUpdatePairAdjustment(g1.value, g2.value, rule.x, rule.y);
          }
          m := MergeRule(m, font.characterTable, rule);
        }
        i := i + 1;
      }
      assert rules[..i] == rules;
      font.Notify();
    }

    /** Undo is offered only for a backup of the font currently selected. */
    predicate CanUndo()
      reads this
    {
      backupRecords.Some? && lastModifiedFont == fontAsset
    }

    /** Copies the selected font's records into the backup slot. */
    method BackupFontAsset()
      requires Valid()
      modifies this`backupRecords, this`lastModifiedFont
      ensures Valid()
      ensures fontAsset == null ==> backupRecords == old(backupRecords) && lastModifiedFont == old(lastModifiedFont)
      ensures fontAsset != null ==> backupRecords == Some(fontAsset.records) && lastModifiedFont == fontAsset
    {
      if fontAsset == null {
        return;
      }
      backupRecords := Some(fontAsset.records);
      lastModifiedFont := fontAsset;
    }

    /** Restores the backup into the selected font once the user confirms,
        then empties the slot. Nothing happens without a font, without a
        backup, or without confirmation. The font is not compared with the
        one the backup came from. */
    method UndoLastChanges(confirmed: bool)
      requires Valid()
      modifies this`backupRecords, this`lastModifiedFont, fontAsset
      ensures Valid()
      ensures fontAsset == null || old(backupRecords).None? || !confirmed ==>
        && backupRecords == old(backupRecords) && lastModifiedFont == old(lastModifiedFont)
        && (fontAsset != null ==>
              fontAsset.records == old(fontAsset.records) && fontAsset.notifications == old(fontAsset.notifications))
      ensures fontAsset != null && old(backupRecords).Some? && confirmed ==>
        && fontAsset.records == old(backupRecords).value
        && fontAsset.notifications == old(fontAsset.notifications) + 1
        && backupRecords == None && lastModifiedFont == null
    {
      if fontAsset == null || backupRecords.None? {
        return;
      }
      if confirmed {
        fontAsset.records := backupRecords.value;
        fontAsset.Notify();
        backupRecords := None;
        lastModifiedFont := null;
      }
    }

    /** "Select all" in the rules tab. */
    method SelectAll()
      requires Valid()
      modifies this`rules
      ensures Valid()
      ensures rules == WithSelection(old(rules), true)
    {
      SetAllSelected(true);
    }

    /** "Deselect all" in the rules tab. */
    method DeselectAll()
      requires Valid()
      modifies this`rules
      ensures Valid()
      ensures rules == WithSelection(old(rules), false)
    {
      SetAllSelected(false);
    }

    method SetAllSelected(on: bool)
      requires Valid()
      modifies this`rules
      ensures Valid()
      ensures rules == WithSelection(old(rules), on)
    {
      ghost var start := rules;
      SelectionKeepsKeys(start, on);
      var i := 0;
      while i < |rules|
        invariant 0 <= i <= |rules| == |start|
        invariant forall j :: 0 <= j < i ==> rules[j] == start[j].(selected := on)
        invariant forall j :: i <= j < |rules| ==> rules[j] == start[j]
      {
        rules := rules[i := rules[i].(selected := on)];
        i := i + 1;
      }
    }

    /** "Clear all", after its confirmation dialog. */
    method ClearRules(confirmed: bool)
      requires Valid()
      modifies this`rules
      ensures Valid()
      ensures rules == if confirmed then [] else old(rules)
    {
      if confirmed {
        rules := [];
      }
    }

    /** One-click fix, run synchronously: back up the font, rebuild every
        preset rule from an empty list, merge them into the font. */
    method OneClickAutoFix()
      requires Valid()
      modifies this`rules, this`isProcessing, this`backupRecords, this`lastModifiedFont, fontAsset
      ensures Valid()
      ensures fontAsset == null ==>
        && rules == old(rules) && isProcessing == old(isProcessing)
        && backupRecords == old(backupRecords) && lastModifiedFont == old(lastModifiedFont)
      ensures fontAsset != null ==>
        && !isProcessing
        && backupRecords == Some(old(fontAsset.records)) && lastModifiedFont == fontAsset
        && rules == WithRules([], GenerateAllRules(presets)).0 && |rules| == 522
        && fontAsset.records == Merge(old(fontAsset.records), fontAsset.characterTable, rules).records
        && fontAsset.notifications == old(fontAsset.notifications) + 1
    {
      if fontAsset == null {
        return;
      }
      isProcessing := true;
      BackupFontAsset();
      RebuildAndApply();
      isProcessing := false;
    }

    /** Step 1 of one-click: the rule list is cleared and every preset is
        generated into it. */
    method RebuildRules()
      requires Valid()
      modifies this`rules
      ensures Valid()
      ensures rules == WithRules([], GenerateAllRules(presets)).0
      ensures |rules| == 522
    {
      ClearRules(true);
      GenerateAllPresetsInternal();
      GenerateAllFromEmpty(presets);
    }

    /** Steps 1 and 2 of one-click: rebuild the rules, then merge them into
        the font. */
    method RebuildAndApply()
      requires Valid() && fontAsset != null
      modifies this`rules, fontAsset
      ensures Valid()
      ensures rules == WithRules([], GenerateAllRules(presets)).0
      ensures |rules| == 522
      ensures fontAsset.records == Merge(old(fontAsset.records), fontAsset.characterTable, rules).records
      ensures fontAsset.notifications == old(fontAsset.notifications) + 1
    {
      ghost var before := fontAsset.records;
      RebuildRules();
      assert fontAsset.records == before;
      ApplyAdjustmentsInternal();
    }

    /** One-click followed by a confirmed undo gives the font back exactly the
        records it had, in the same order, and empties the backup slot. */
    method AutoFixThenUndo()
      requires Valid() && fontAsset != null
      modifies this`rules, this`isProcessing, this`backupRecords, this`lastModifiedFont, fontAsset
      ensures Valid()
      ensures fontAsset.records == old(fontAsset.records)
      ensures backupRecords == None && lastModifiedFont == null
    {
      OneClickAutoFix();
      assert CanUndo();
      UndoLastChanges(true);
    }
  }
}

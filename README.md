# Easy Thai Font Adjustment — rule engine model

A Dafny model of the rule engine behind the Unity editor window
`EasyThaiFontAdjustment`. The window adjusts the placement of Thai upper and
lower marks in a TextMeshPro font asset. It keeps a working list of
adjustment rules, one for each ordered character pair. The list is filled
from eight presets and from pairs found in a sample text, and it is then
merged into the font's list of glyph-pair adjustment records. A one-slot
backup lets the last one-click fix be undone.

Modules:

- `ThaiChars`: the fixed character arrays, in their exact order, and the
  pair test (`IsThaiConsonant`, `IsUpperGlyph`, `IsValidThaiPair`). Each
  array is also described by code point.
- `RuleSet`: the rule record with its `first_second` key, and first-wins
  insertion: of one rule (`WithRule`) and of a batch (`WithRules`, with
  its count).
- `Presets`: the eight presets (first class × second class, stamped with
  the preset's final placement and name), their initial configuration from
  the derived metric offsets, the generate-all order and the raw total.
- `TextScan`: splitting on space, line feed, carriage return and tab with
  empty pieces dropped, and the candidates of each word's adjacent pairs.
- `GlyphTable`: the character table lookup, the upsert on ordered glyph
  pairs, and the merge of selected rules with its added / updated / skipped
  counters.
- `Editor`: the window's state as the class `Session` and the font as the
  class `FontAsset`, whose records are edited in place. The button
  operations are methods with the window's own loops. Each method is proved
  against the functions above.

Generate-all proposes 566 candidates, the number `CalculateTotalPossiblePairs`
returns. On an empty list it keeps 522 of them, because the ascender preset's
44 pairs are all proposed earlier (`Presets.GenerateAllFromEmpty`). The
one-click info label says 562 pairs
(Assets/EasyThaiFontAdjustment/Editor/EasyThaiFontAdjustment.cs:365); neither count is 562.

Where the code is less strict than a reader might expect, the model follows
the code:
- Recalculating defaults rebuilds every preset and resets the user offsets
  to 0.
- `UndoLastChanges` does not compare the font with the one the backup came
  from. Only the undo button's visibility condition does
  (`Editor.Session.CanUndo`, line 374).
- The upsert overwrites only the first record of a pair, so repeated
  records already in a font are left alone.

## Model

| member | source | states |
|---|---|---|
| `ThaiChars.IsThaiConsonant` | Assets/EasyThaiFontAdjustment/Editor/EasyThaiFontAdjustment.cs:1376-1379 | a consonant is any character in the code-point range ก..ฮ (U+0E01..U+0E2E); `RangeWiderThanConsonantArray` relates it to the consonant array |
| `ThaiChars.IsUpperGlyph` | Assets/EasyThaiFontAdjustment/Editor/EasyThaiFontAdjustment.cs:1381-1384 | an upper glyph is an upper vowel, a tone mark or ์ |
| `ThaiChars.IsValidThaiPair` | Assets/EasyThaiFontAdjustment/Editor/EasyThaiFontAdjustment.cs:1169-1184 | the scan's pair test, its three accepting branches in the code's order; `ValidPairShapes` states it by code point |
| `ThaiChars.ClassesByCodePoint` | Assets/EasyThaiFontAdjustment/Editor/EasyThaiFontAdjustment.cs:94-111 | each character array holds exactly the code points its class names: consonant array = U+0E01..U+0E2E minus U+0E24 and U+0E26, upper vowels = U+0E31, U+0E34..U+0E37, U+0E47, tone marks = U+0E48..U+0E4B, lower vowels = U+0E38..U+0E39 (both directions) |
| `ThaiChars.ConsonantAt` | Assets/EasyThaiFontAdjustment/Editor/EasyThaiFontAdjustment.cs:95-102 | the consonant array by index: ก.. ร at 0..34, ล at 35, ว..ฮ from 36 on |
| `ThaiChars.ValidPairShapes` | Assets/EasyThaiFontAdjustment/Editor/EasyThaiFontAdjustment.cs:1169-1184 | the pair test holds exactly for consonant-by-range + upper glyph, upper vowel + tone mark or ์, and consonant-by-range + lower vowel, stated by code point (both directions) |
| `ThaiChars.RangeWiderThanConsonantArray` | Assets/EasyThaiFontAdjustment/Editor/EasyThaiFontAdjustment.cs:1376-1379 | the range test accepts every one of the 44 array consonants and also ฤ and ฦ, which the array lacks |
| `ThaiChars.SaraAmNeverEndsAValidPair` | Assets/EasyThaiFontAdjustment/Editor/EasyThaiFontAdjustment.cs:1169-1184 | no pair ending in สระอำ passes the pair test |
| `ThaiChars.AscendersAreConsonants` | Assets/EasyThaiFontAdjustment/Editor/EasyThaiFontAdjustment.cs:95-105 | every ascender and descender consonant is in the consonant array |
| `ThaiChars.ClassesDistinct` | Assets/EasyThaiFontAdjustment/Editor/EasyThaiFontAdjustment.cs:95-110 | no class array repeats a character |
| `ThaiChars.ClassesDisjoint` | Assets/EasyThaiFontAdjustment/Editor/EasyThaiFontAdjustment.cs:106-111 | upper vowels, tone marks, lower vowels and ์ are pairwise disjoint; a consonant is neither an upper vowel nor สระอำ |
| `RuleSet.AdjustmentRule.Key` | Assets/EasyThaiFontAdjustment/Editor/EasyThaiFontAdjustment.cs:65 | the identity string of a rule is first, `_`, second; `KeyIdentifiesPair` shows it identifies the ordered pair |
| `RuleSet.WithRule` | Assets/EasyThaiFontAdjustment/Editor/EasyThaiFontAdjustment.cs:1186-1196 | AddRule on values: refused with `false` when the key is already in the list, appended with `true` otherwise; `WithRuleFirstWins` states it |
| `RuleSet.WithRules` | Assets/EasyThaiFontAdjustment/Editor/EasyThaiFontAdjustment.cs:1186-1196 | a batch of AddRule calls in order, with the count of accepted rules that the generators and the scan tally; the `WithRules…` lemmas state its properties |
| `RuleSet.NewRule` | Assets/EasyThaiFontAdjustment/Editor/EasyThaiFontAdjustment.cs:53-61 | a new rule carries the given name, pair, placement and category and starts selected |
| `RuleSet.KeyIdentifiesPair` | Assets/EasyThaiFontAdjustment/Editor/EasyThaiFontAdjustment.cs:65 | two rules have the same key exactly when they have the same ordered pair |
| `RuleSet.WithRuleFirstWins` | Assets/EasyThaiFontAdjustment/Editor/EasyThaiFontAdjustment.cs:1186-1196 | AddRule refuses a rule whose pair is present and changes nothing; otherwise it appends exactly that rule and reports true; the pair is present afterwards and a duplicate-free list stays duplicate-free |
| `RuleSet.WithRulesExtends` | Assets/EasyThaiFontAdjustment/Editor/EasyThaiFontAdjustment.cs:1074-1128 | a batch of insertions only appends: old rules stay a prefix, the list grows by the reported count, and every new rule is a candidate |
| `RuleSet.WithRulesKeys` | Assets/EasyThaiFontAdjustment/Editor/EasyThaiFontAdjustment.cs:1186-1196 | after a batch, a pair is present exactly when it was present before or some candidate carries it |
| `RuleSet.WithRulesCovers` | Assets/EasyThaiFontAdjustment/Editor/EasyThaiFontAdjustment.cs:1186-1196 | after a batch every candidate's pair is present |
| `RuleSet.WithRulesAllPresent` | Assets/EasyThaiFontAdjustment/Editor/EasyThaiFontAdjustment.cs:1186-1196 | a batch whose pairs are all present adds nothing and reports 0 |
| `RuleSet.WithRulesAfterCovering` | Assets/EasyThaiFontAdjustment/Editor/EasyThaiFontAdjustment.cs:1074-1128 | a batch whose pairs an earlier batch proposed adds nothing after it |
| `RuleSet.WithRulesSkipsNoOp` | Assets/EasyThaiFontAdjustment/Editor/EasyThaiFontAdjustment.cs:1074-1128 | a middle batch that adds nothing drops out of three consecutive batches, rules and count |
| `RuleSet.WithRulesIdempotent` | Assets/EasyThaiFontAdjustment/Editor/EasyThaiFontAdjustment.cs:922-1072 | repeating a batch with the same pairs, whatever placements they carry, adds nothing |
| `RuleSet.WithRulesKeepsUnique` | Assets/EasyThaiFontAdjustment/Editor/EasyThaiFontAdjustment.cs:1186-1196 | insertion keeps the rule list free of repeated pairs |
| `RuleSet.WithRulesAppend` | Assets/EasyThaiFontAdjustment/Editor/EasyThaiFontAdjustment.cs:1074-1128 | inserting two batches one after the other is inserting their concatenation, counts added |
| `RuleSet.WithRulesFirstWins` | Assets/EasyThaiFontAdjustment/Editor/EasyThaiFontAdjustment.cs:1186-1196 | the stored rule for a pair is the old one if the pair was present, else the first candidate carrying it |
| `RuleSet.WithRulesAppendsFresh` | Assets/EasyThaiFontAdjustment/Editor/EasyThaiFontAdjustment.cs:922-1072 | with duplicate-free candidates, exactly the candidates with new pairs are appended, in order, and the count is their number |
| `RuleSet.UniqueKeysAppend` | Assets/EasyThaiFontAdjustment/Editor/EasyThaiFontAdjustment.cs:1074-1128 | two duplicate-free lists sharing no pair concatenate to a duplicate-free list |
| `RuleSet.FreshOverEmpty` | Assets/EasyThaiFontAdjustment/Editor/EasyThaiFontAdjustment.cs:386-449 | against an empty rule list every candidate is new |
| `RuleSet.FreshWhenApart` | Assets/EasyThaiFontAdjustment/Editor/EasyThaiFontAdjustment.cs:1074-1128 | candidates none of whose pairs are present are all new |
| `Presets.PresetConfig.FinalX` | Assets/EasyThaiFontAdjustment/Editor/EasyThaiFontAdjustment.cs:90 | a preset's final X placement is its default X plus its user offset X |
| `Presets.PresetConfig.FinalY` | Assets/EasyThaiFontAdjustment/Editor/EasyThaiFontAdjustment.cs:91 | a preset's final Y placement is its default Y plus its user offset Y |
| `Presets.InitialPresets` | Assets/EasyThaiFontAdjustment/Editor/EasyThaiFontAdjustment.cs:125-191 | the eight preset configurations built from the three derived offsets, each with zero user offsets; `InitialPresetsComplete` and `InitialPresetsFinalValues` state them |
| `Presets.Product` | Assets/EasyThaiFontAdjustment/Editor/EasyThaiFontAdjustment.cs:922-940 | a generator's nested loops on values: for each first character in order, for each second character in order, one rule named `first+second` with the preset's placement and name; `ProductCovers`, `ProductStamps` and `ProductSize` state it |
| `Presets.PresetRules` | Assets/EasyThaiFontAdjustment/Editor/EasyThaiFontAdjustment.cs:922-1072 | the candidates one preset generator offers: the product of its two classes stamped with its final X, final Y and display name; `PresetRulesStamped` states it |
| `Presets.GenerateAllRules` | Assets/EasyThaiFontAdjustment/Editor/EasyThaiFontAdjustment.cs:1074-1128 | the candidates of generate-all: the eight presets' candidates concatenated in the button's order; `GenerateAllFromEmpty` and `TotalPossiblePairsCountsCandidates` state it |
| `Presets.InitialPresetsFinalValues` | Assets/EasyThaiFontAdjustment/Editor/EasyThaiFontAdjustment.cs:125-191 | after (re)initialisation each preset has its display name, both offsets 0, final X 0 and final Y its default Y (base, upper-tone, ascender offset or 2) |
| `Presets.InitialPresetsComplete` | Assets/EasyThaiFontAdjustment/Editor/EasyThaiFontAdjustment.cs:125-191 | (re)initialisation configures all eight presets |
| `Presets.Row` | Assets/EasyThaiFontAdjustment/Editor/EasyThaiFontAdjustment.cs:922-939 | one outer-loop step proposes the first character paired with each second character, in order, named first+second |
| `Presets.RowStep` | Assets/EasyThaiFontAdjustment/Editor/EasyThaiFontAdjustment.cs:922-939 | one more inner-loop iteration appends one rule |
| `Presets.ProductStep` | Assets/EasyThaiFontAdjustment/Editor/EasyThaiFontAdjustment.cs:922-939 | one more outer-loop iteration appends one row |
| `Presets.ProductStamps` | Assets/EasyThaiFontAdjustment/Editor/EasyThaiFontAdjustment.cs:922-1072 | every generated rule carries the preset's final X and Y, its name as category, is selected, pairs a first with a second character and is named first+second |
| `Presets.ProductCovers` | Assets/EasyThaiFontAdjustment/Editor/EasyThaiFontAdjustment.cs:922-1072 | every pair of the two classes is proposed |
| `Presets.ProductSize` | Assets/EasyThaiFontAdjustment/Editor/EasyThaiFontAdjustment.cs:1198-1210 | a nested loop proposes |firsts| * |seconds| rules |
| `Presets.PresetRulesStamped` | Assets/EasyThaiFontAdjustment/Editor/EasyThaiFontAdjustment.cs:922-1072 | a preset's rules are stamped with its configuration and drawn from its two classes |
| `Presets.CalculateTotalPossiblePairs` | Assets/EasyThaiFontAdjustment/Editor/EasyThaiFontAdjustment.cs:1198-1210 | the total is the sum of the eight raw product sizes, which is 566 |
| `Presets.TotalPossiblePairsCountsCandidates` | Assets/EasyThaiFontAdjustment/Editor/EasyThaiFontAdjustment.cs:1198-1210 | the total equals the number of candidates generate-all proposes, repeats included |
| `Presets.ConsonantPairIsEarlier` | Assets/EasyThaiFontAdjustment/Editor/EasyThaiFontAdjustment.cs:1074-1092 | an array consonant followed by an upper vowel, tone mark or ์ is proposed by one of the three consonant presets |
| `Presets.AscenderPairsAreEarlier` | Assets/EasyThaiFontAdjustment/Editor/EasyThaiFontAdjustment.cs:1102-1112 | every pair of the ascender preset is proposed by an earlier preset |
| `Presets.AscenderAddsNothingInGenerateAll` | Assets/EasyThaiFontAdjustment/Editor/EasyThaiFontAdjustment.cs:1102-1112 | inside generate-all the ascender preset adds nothing, whatever the list held |
| `Presets.GenerateAllSkipsAscender` | Assets/EasyThaiFontAdjustment/Editor/EasyThaiFontAdjustment.cs:1074-1128 | generate-all equals the six earlier presets followed by the descender preset, rules and count |
| `Presets.ProductUniqueKeys` | Assets/EasyThaiFontAdjustment/Editor/EasyThaiFontAdjustment.cs:922-1072 | a product of two duplicate-free classes proposes each pair once |
| `Presets.ProductsApart` | Assets/EasyThaiFontAdjustment/Editor/EasyThaiFontAdjustment.cs:922-1072 | products with disjoint first classes or disjoint second classes share no pair |
| `Presets.KindsApart` | Assets/EasyThaiFontAdjustment/Editor/EasyThaiFontAdjustment.cs:94-111 | any two different presets other than the ascender one differ in their first class or in their second class |
| `Presets.PresetsApart` | Assets/EasyThaiFontAdjustment/Editor/EasyThaiFontAdjustment.cs:1074-1128 | two different presets other than the ascender one share no pair |
| `Presets.AscenderSecondsDistinct` | Assets/EasyThaiFontAdjustment/Editor/EasyThaiFontAdjustment.cs:1027-1053 | the ascender preset's three inner loops (upper vowels, tone marks, ์) repeat no character |
| `Presets.PresetUniqueKeys` | Assets/EasyThaiFontAdjustment/Editor/EasyThaiFontAdjustment.cs:922-1072 | every preset proposes each pair at most once |
| `Presets.PresetAddsFresh` | Assets/EasyThaiFontAdjustment/Editor/EasyThaiFontAdjustment.cs:922-1072 | a preset appends exactly its pairs not already present, in loop order, and its count is their number |
| `Presets.PresetTwiceAddsNothing` | Assets/EasyThaiFontAdjustment/Editor/EasyThaiFontAdjustment.cs:922-1072 | running a preset a second time adds nothing, even with its offsets edited in between |
| `Presets.ProductKeysAgree` | Assets/EasyThaiFontAdjustment/Editor/EasyThaiFontAdjustment.cs:922-1072 | products of the same classes carry the same pairs position by position, whatever the stamp |
| `Presets.KindAt` | Assets/EasyThaiFontAdjustment/Editor/EasyThaiFontAdjustment.cs:1074-1128 | generate-all order without the ascender preset; no position holds the ascender preset |
| `Presets.PrefixApart` | Assets/EasyThaiFontAdjustment/Editor/EasyThaiFontAdjustment.cs:1074-1128 | no earlier preset of that order proposes a pair of a later one |
| `Presets.PrefixUniqueKeys` | Assets/EasyThaiFontAdjustment/Editor/EasyThaiFontAdjustment.cs:1074-1128 | the presets of any prefix of that order together propose each pair once |
| `Presets.EarlierKinds` | Assets/EasyThaiFontAdjustment/Editor/EasyThaiFontAdjustment.cs:1074-1128 | the order is the six earlier presets then the descender preset |
| `Presets.PrefixOne` | Assets/EasyThaiFontAdjustment/Editor/EasyThaiFontAdjustment.cs:1074-1081 | the first prefix is the consonant + upper-vowel preset |
| `Presets.EarlierIsPrefix` | Assets/EasyThaiFontAdjustment/Editor/EasyThaiFontAdjustment.cs:1074-1103 | the six earlier presets form the first six of that order |
| `Presets.PresetSize` | Assets/EasyThaiFontAdjustment/Editor/EasyThaiFontAdjustment.cs:580-610 | a preset proposes |firsts| * |seconds| rules |
| `Presets.KeptSizes` | Assets/EasyThaiFontAdjustment/Editor/EasyThaiFontAdjustment.cs:1074-1128 | the six earlier presets propose 518 rules and the descender preset 4 |
| `Presets.GenerateAllFromEmpty` | Assets/EasyThaiFontAdjustment/Editor/EasyThaiFontAdjustment.cs:386-449 | generate-all on an empty list keeps every rule of the six earlier presets and of the descender preset, in order, and none of the ascender preset: 522 rules of the 566 proposed |
| `TextScan.Words` | Assets/EasyThaiFontAdjustment/Editor/EasyThaiFontAdjustment.cs:1137 | the split of the sample text on space, line feed, carriage return and tab with empty pieces removed; `WordsAreSeparatorFree`, `OnlySeparatorsNoWords` and `SeparatorFreeIsOneWord` state it |
| `TextScan.TextCands` | Assets/EasyThaiFontAdjustment/Editor/EasyThaiFontAdjustment.cs:1141-1153 | the candidates of the scan loops: word after word, the valid adjacent pairs of each word in position order; `TextCandsExact`, `ScanSound` and `ScanComplete` state it |
| `TextScan.RunLength` | Assets/EasyThaiFontAdjustment/Editor/EasyThaiFontAdjustment.cs:1137 | the length of the longest separator-free prefix: within bounds, no separator before it, a separator right after it |
| `TextScan.WordsAreSeparatorFree` | Assets/EasyThaiFontAdjustment/Editor/EasyThaiFontAdjustment.cs:1137 | splitting yields only non-empty pieces without space, line feed, carriage return or tab |
| `TextScan.OnlySeparatorsNoWords` | Assets/EasyThaiFontAdjustment/Editor/EasyThaiFontAdjustment.cs:1137 | text made only of separators has no pieces |
| `TextScan.SeparatorFreeIsOneWord` | Assets/EasyThaiFontAdjustment/Editor/EasyThaiFontAdjustment.cs:1137 | non-empty separator-free text is one piece |
| `TextScan.WordPairInText` | Assets/EasyThaiFontAdjustment/Editor/EasyThaiFontAdjustment.cs:1137-1147 | a pair adjacent in a piece is adjacent in the text |
| `TextScan.TextPairInWord` | Assets/EasyThaiFontAdjustment/Editor/EasyThaiFontAdjustment.cs:1137-1147 | a pair of adjacent non-separators in the text is adjacent in some piece |
| `TextScan.WordCandsStep` | Assets/EasyThaiFontAdjustment/Editor/EasyThaiFontAdjustment.cs:1143-1153 | one more inner-loop iteration appends the pair's rule exactly when the pair passes the test |
| `TextScan.TextCandsStep` | Assets/EasyThaiFontAdjustment/Editor/EasyThaiFontAdjustment.cs:1141-1154 | one more word appends that word's candidates |
| `TextScan.WordCandsExact` | Assets/EasyThaiFontAdjustment/Editor/EasyThaiFontAdjustment.cs:1143-1153 | a word's candidates are exactly the scan rules of its valid adjacent pairs (both directions) |
| `TextScan.AllWordCandsSound` | Assets/EasyThaiFontAdjustment/Editor/EasyThaiFontAdjustment.cs:1143-1153 | every candidate of a word is a valid pair adjacent in that word, named after the word |
| `TextScan.AllWordCandsComplete` | Assets/EasyThaiFontAdjustment/Editor/EasyThaiFontAdjustment.cs:1143-1153 | every valid adjacent pair of a word is proposed |
| `TextScan.TextCandsExact` | Assets/EasyThaiFontAdjustment/Editor/EasyThaiFontAdjustment.cs:1141-1154 | the text's candidates are exactly the candidates of its pieces (both directions) |
| `TextScan.ScanSound` | Assets/EasyThaiFontAdjustment/Editor/EasyThaiFontAdjustment.cs:1130-1167 | every scanned rule is a valid pair adjacent in the text, neither character a separator, with x 0, y -2, category จากข้อความ, selected, named after a piece of the text |
| `TextScan.ScanComplete` | Assets/EasyThaiFontAdjustment/Editor/EasyThaiFontAdjustment.cs:1130-1167 | every valid pair of adjacent non-separator characters of the text is proposed |
| `TextScan.CandOfWordIsTextCand` | Assets/EasyThaiFontAdjustment/Editor/EasyThaiFontAdjustment.cs:1141-1154 | a candidate of one piece is a candidate of the text |
| `TextScan.NoPairAcrossSeparator` | Assets/EasyThaiFontAdjustment/Editor/EasyThaiFontAdjustment.cs:1137 | a valid pair split by a space yields no candidate |
| `TextScan.FirstSampleWord` | Assets/EasyThaiFontAdjustment/Editor/EasyThaiFontAdjustment.cs:20 | the first word of the default sample text, ปิ่น, yields the rules for ป+ิ and then ิ+่ |
| `GlyphTable.Upsert` | Assets/EasyThaiFontAdjustment/Editor/EasyThaiFontAdjustment.cs:1300-1360 | AddOrUpdatePairAdjustment on values: replace the first record of the glyph pair, or append a new one and report it as new; `UpsertShape` and `UpsertLookup` state it |
| `GlyphTable.MergeRule` | Assets/EasyThaiFontAdjustment/Editor/EasyThaiFontAdjustment.cs:1228-1245 | one selected rule of the apply loop: upsert when both glyphs resolve and count it as added or updated, otherwise count it as skipped; `MergeRuleCounts` states it |
| `GlyphTable.Merge` | Assets/EasyThaiFontAdjustment/Editor/EasyThaiFontAdjustment.cs:1213-1246 | the apply loop over the selected rules in list order; `MergeCounts`, `MergeLookup` and `MergeKeepsUnique` state it |
| `GlyphTable.PairRecord` | Assets/EasyThaiFontAdjustment/Editor/EasyThaiFontAdjustment.cs:1311-1356 | a written record places nothing on the first glyph and (x, y) on the second, with zero advances |
| `GlyphTable.TryGetGlyphIndex` | Assets/EasyThaiFontAdjustment/Editor/EasyThaiFontAdjustment.cs:1362-1374 | the glyph of the first table entry whose code point matches; none exactly when no entry matches |
| `GlyphTable.FindPair` | Assets/EasyThaiFontAdjustment/Editor/EasyThaiFontAdjustment.cs:1305-1309 | the index of the first record for the ordered glyph pair; none exactly when there is none |
| `GlyphTable.UpsertShape` | Assets/EasyThaiFontAdjustment/Editor/EasyThaiFontAdjustment.cs:1300-1360 | an existing pair: the first such record is overwritten, length and all other records unchanged, result false; a new pair: one record appended, result true |
| `GlyphTable.UpsertLookup` | Assets/EasyThaiFontAdjustment/Editor/EasyThaiFontAdjustment.cs:1300-1360 | the upsert acts on the font like a map update of the pair's record; every other pair reads as before |
| `GlyphTable.FindPairAt` | Assets/EasyThaiFontAdjustment/Editor/EasyThaiFontAdjustment.cs:1305-1309 | the first record of the pair is the one the search stops at |
| `GlyphTable.UpsertKeepsUnique` | Assets/EasyThaiFontAdjustment/Editor/EasyThaiFontAdjustment.cs:1300-1360 | a table without repeated pairs stays so |
| `GlyphTable.Selected` | Assets/EasyThaiFontAdjustment/Editor/EasyThaiFontAdjustment.cs:1227 | exactly the selected rules, in order |
| `GlyphTable.Applicable` | Assets/EasyThaiFontAdjustment/Editor/EasyThaiFontAdjustment.cs:1227-1231 | exactly the selected rules whose two characters both have glyphs, in order |
| `GlyphTable.MergeCounts` | Assets/EasyThaiFontAdjustment/Editor/EasyThaiFontAdjustment.cs:1213-1246 | added + updated + skipped is the number of selected rules; added + updated is the number that resolve; the table grows by added |
| `GlyphTable.MergeIgnoresUnselected` | Assets/EasyThaiFontAdjustment/Editor/EasyThaiFontAdjustment.cs:1227 | unselected rules play no part in the merge |
| `GlyphTable.MergeRuleCounts` | Assets/EasyThaiFontAdjustment/Editor/EasyThaiFontAdjustment.cs:1228-1245 | one rule raises added or updated by one when both glyphs resolve and skipped by one otherwise; the table grows exactly when added rises |
| `GlyphTable.SkippedRuleLeavesTable` | Assets/EasyThaiFontAdjustment/Editor/EasyThaiFontAdjustment.cs:1240-1244 | a rule whose glyphs do not resolve leaves the table as it was and counts as skipped |
| `GlyphTable.MergeKeepsUnique` | Assets/EasyThaiFontAdjustment/Editor/EasyThaiFontAdjustment.cs:1213-1246 | the merge keeps a table without repeated pairs so |
| `GlyphTable.LastFor` | Assets/EasyThaiFontAdjustment/Editor/EasyThaiFontAdjustment.cs:1227-1233 | the selected rule mapping onto a glyph pair that no later selected rule overrides; none exactly when no selected rule maps onto that pair |
| `GlyphTable.MergeLookup` | Assets/EasyThaiFontAdjustment/Editor/EasyThaiFontAdjustment.cs:1213-1246 | after the merge a glyph pair's record carries the placement of the last selected rule mapping onto it; other pairs keep their old record |
| `Editor.FontAsset.constructor` | Assets/EasyThaiFontAdjustment/Editor/EasyThaiFontAdjustment.cs:19 | a font with the given character table, offsets and records, not yet notified |
| `Editor.FontAsset.Notify` | Assets/EasyThaiFontAdjustment/Editor/EasyThaiFontAdjustment.cs:1253-1257 | one reload-and-notify step |
| `Editor.WithSelection` | Assets/EasyThaiFontAdjustment/Editor/EasyThaiFontAdjustment.cs:791-802 | every rule's flag set, nothing else changed, length kept |
| `Editor.SelectionKeepsKeys` | Assets/EasyThaiFontAdjustment/Editor/EasyThaiFontAdjustment.cs:791-802 | changing selection keeps every pair and the list duplicate-free |
| `Editor.SelectAllSelectsEverything` | Assets/EasyThaiFontAdjustment/Editor/EasyThaiFontAdjustment.cs:791-796 | after select-all every rule takes part in a merge |
| `Editor.DeselectAllSelectsNothing` | Assets/EasyThaiFontAdjustment/Editor/EasyThaiFontAdjustment.cs:797-802 | after deselect-all no rule takes part in a merge |
| `Editor.MergeAfterDeselectAll` | Assets/EasyThaiFontAdjustment/Editor/EasyThaiFontAdjustment.cs:797-802 | merging after deselect-all leaves the font's records exactly as they were, all counts 0 |
| `Editor.Session.constructor` | Assets/EasyThaiFontAdjustment/Editor/EasyThaiFontAdjustment.cs:19-40 | a new window: no font, the default sample text, no rules, no backup, presets from the fallback offsets |
| `Editor.Session.InitializePresets` | Assets/EasyThaiFontAdjustment/Editor/EasyThaiFontAdjustment.cs:125-191 | every preset rebuilt from the current font's offsets (fallback without a font), user offsets reset to 0 |
| `Editor.Session.SelectFont` | Assets/EasyThaiFontAdjustment/Editor/EasyThaiFontAdjustment.cs:253-263 | a different font clears the rules and, when not null, rebuilds the presets; picking the same font changes nothing; the backup is kept |
| `Editor.Session.EditPreset` | Assets/EasyThaiFontAdjustment/Editor/EasyThaiFontAdjustment.cs:672-711 | only the chosen preset's default X and Y and offsets X and Y change; its final placement is default plus offset |
| `Editor.Session.AddRule` | Assets/EasyThaiFontAdjustment/Editor/EasyThaiFontAdjustment.cs:1186-1196 | the list after the call and the result are the first-wins insertion of the new rule |
| `Editor.Session.AddCrossProduct` | Assets/EasyThaiFontAdjustment/Editor/EasyThaiFontAdjustment.cs:922-939 | the nested loops leave the list and the count of the whole product's first-wins insertion |
| `Editor.Session.AddRow` | Assets/EasyThaiFontAdjustment/Editor/EasyThaiFontAdjustment.cs:926-933 | the inner loop leaves the list and the count of one row's insertion |
| `Editor.Session.GeneratePreset` | Assets/EasyThaiFontAdjustment/Editor/EasyThaiFontAdjustment.cs:922-1072 | one preset appends exactly its new pairs, in loop order, and reports how many |
| `Editor.Session.GenerateAllPresetsInternal` | Assets/EasyThaiFontAdjustment/Editor/EasyThaiFontAdjustment.cs:491-535 | the list after the eight blocks is the insertion of all preset candidates in order |
| `Editor.Session.GenerateAllPresets` | Assets/EasyThaiFontAdjustment/Editor/EasyThaiFontAdjustment.cs:1074-1128 | the same list, and the reported count is the number of rules accepted |
| `Editor.Session.SetSampleText` | Assets/EasyThaiFontAdjustment/Editor/EasyThaiFontAdjustment.cs:742-758 | the sample text is replaced |
| `Editor.Session.ScanAndDetectPairs` | Assets/EasyThaiFontAdjustment/Editor/EasyThaiFontAdjustment.cs:1130-1167 | empty text changes nothing and reports 0; otherwise the list and count are the insertion of the text's candidates |
| `Editor.Session.ScanWord` | Assets/EasyThaiFontAdjustment/Editor/EasyThaiFontAdjustment.cs:1143-1153 | the inner loop leaves the list and count of one word's candidates |
| `Editor.Session.ScanPair` | Assets/EasyThaiFontAdjustment/Editor/EasyThaiFontAdjustment.cs:1145-1152 | one position: the pair's rule is offered exactly when it passes the test |
| `Editor.Session.AddOrUpdatePairAdjustment` | Assets/EasyThaiFontAdjustment/Editor/EasyThaiFontAdjustment.cs:1300-1360 | the font's records and the result are the upsert of the glyph pair |
| `Editor.Session.ApplyAdjustments` | Assets/EasyThaiFontAdjustment/Editor/EasyThaiFontAdjustment.cs:1213-1281 | no font: nothing changes, counts 0; otherwise records and counts are the merge of the rule list, and the font is notified once |
| `Editor.Session.ApplyAdjustmentsInternal` | Assets/EasyThaiFontAdjustment/Editor/EasyThaiFontAdjustment.cs:537-558 | the font's records are the merge of the rule list, notified once |
| `Editor.Session.CanUndo` | Assets/EasyThaiFontAdjustment/Editor/EasyThaiFontAdjustment.cs:374 | the undo button is offered only while a backup exists and the selected font is the one the backup was taken from |
| `Editor.Session.BackupFontAsset` | Assets/EasyThaiFontAdjustment/Editor/EasyThaiFontAdjustment.cs:451-461 | with a font, the slot holds a copy of its records and remembers the font; without, nothing changes |
| `Editor.Session.UndoLastChanges` | Assets/EasyThaiFontAdjustment/Editor/EasyThaiFontAdjustment.cs:463-489 | with a font, a backup and confirmation: records become the backup exactly, the font is notified, the slot is emptied; otherwise nothing changes |
| `Editor.Session.SelectAll` | Assets/EasyThaiFontAdjustment/Editor/EasyThaiFontAdjustment.cs:791-796 | every rule selected, nothing else changed |
| `Editor.Session.DeselectAll` | Assets/EasyThaiFontAdjustment/Editor/EasyThaiFontAdjustment.cs:797-802 | every rule deselected, nothing else changed |
| `Editor.Session.SetAllSelected` | Assets/EasyThaiFontAdjustment/Editor/EasyThaiFontAdjustment.cs:791-802 | the loop sets every rule's flag, nothing else changes |
| `Editor.Session.ClearRules` | Assets/EasyThaiFontAdjustment/Editor/EasyThaiFontAdjustment.cs:767-774 | confirmed: the list is empty; otherwise unchanged |
| `Editor.Session.OneClickAutoFix` | Assets/EasyThaiFontAdjustment/Editor/EasyThaiFontAdjustment.cs:386-449 | without a font nothing changes; otherwise the backup holds the old records, the rules are generate-all from empty (522 rules), the font's records are their merge, the font is reloaded and notified exactly once, and processing ends |
| `Editor.Session.RebuildRules` | Assets/EasyThaiFontAdjustment/Editor/EasyThaiFontAdjustment.cs:398-405 | the cleared list regenerated is generate-all from empty, 522 rules |
| `Editor.Session.RebuildAndApply` | Assets/EasyThaiFontAdjustment/Editor/EasyThaiFontAdjustment.cs:398-412 | the regenerated rules merged into the font's records, notified once |
| `Editor.Session.AutoFixThenUndo` | Assets/EasyThaiFontAdjustment/Editor/EasyThaiFontAdjustment.cs:374-489 | one-click followed by a confirmed undo gives the font back exactly its records, in order, and empties the slot |

## Left out

- Drawing, tabs, foldouts, colours, scroll state, the menu item, dialogs, `Repaint`: user interface. A dialog's Yes/Cancel answer is a `confirmed` parameter.
- `Undo.RecordObject`, `EditorUtility.SetDirty`, `AssetDatabase.SaveAssets/Refresh`: editor persistence. `ReadFontAssetDefinition` and the font-changed event become the `FontAsset.notifications` counter.
- `RefreshTextMeshProComponents` and `VerifyPairAdjustments`: a scene traversal through Unity APIs and logging.
- `CalculateBaseAdjustment`, `CalculateUpperToneAdjustment`, `CalculateAscenderAdjustment` and their rounding: float formulas on font metrics. Every font carries its three derived offsets as an opaque `DerivedOffsets` value; without a font the model uses the code's fallback values -2, 19.4 and -3.5.
- Float placements are reals, so float rounding of `defaultX + offsetX` is not modelled; `uint` glyph indices and code points are naturals with no arithmetic on them.
- `OneClickAutoFix`: `async`/`Task.Delay`, the progress fields, the success dialog and the exception handler are left out. The model runs backup, clear, generate-all and apply synchronously, with the `isProcessing` flag.
- The per-rule edit fields of the rules tab, and the object identity of rules: rules are values, and the select/deselect loops rewrite the list.
- The eight preset generator methods are one method, `GeneratePreset`, over a closed set of preset kinds. Their success dialogs and tab switch are left out. A single-loop generator is the cross product with a one-element class. The ascender preset's three inner loops are one loop over the upper vowels, then the tone marks, then ์, which proposes the same rules in the same order.
- The `Dictionary<string, PresetConfig>` with string keys is a total map over the preset kinds; the descriptions are left out.
- A null sample text is modelled as the empty text; `String.Split` is the `Words` function.
- Text is a Dafny `string`, a sequence of Unicode scalar values, while C# strings are sequences of UTF-16 code units. Every Thai character lies in the Basic Multilingual Plane, so each is one code unit and one `char` in both, and the pair test is unaffected; text with characters outside that plane would split into different adjacent pairs.
- Exceptions thrown by Unity calls are left out; the model's operations always complete.

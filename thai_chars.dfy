/** Fixed Thai character classes of the font-adjustment window and the pair
    predicates built on them. The ordered sequences are the editor window's
    character arrays, element for element and in the same order: generators
    iterate them, so their order decides the order of the generated rules. */
module ThaiChars {

  /** The 44 consonants ก..ฮ of the consonant array. ฤ (U+0E24) and ฦ (U+0E26)
      are not in it. */
  const AllConsonants: seq<char> := [
    '\U{0E01}', '\U{0E02}', '\U{0E03}', '\U{0E04}', '\U{0E05}', '\U{0E06}', '\U{0E07}', '\U{0E08}', '\U{0E09}', '\U{0E0A}',
    '\U{0E0B}', '\U{0E0C}', '\U{0E0D}', '\U{0E0E}', '\U{0E0F}', '\U{0E10}', '\U{0E11}', '\U{0E12}', '\U{0E13}', '\U{0E14}',
    '\U{0E15}', '\U{0E16}', '\U{0E17}', '\U{0E18}', '\U{0E19}', '\U{0E1A}', '\U{0E1B}', '\U{0E1C}', '\U{0E1D}', '\U{0E1E}',
    '\U{0E1F}', '\U{0E20}', '\U{0E21}', '\U{0E22}', '\U{0E23}', '\U{0E25}', '\U{0E27}', '\U{0E28}', '\U{0E29}', '\U{0E2A}',
    '\U{0E2B}', '\U{0E2C}', '\U{0E2D}', '\U{0E2E}'
  ]

  /** Consonants with an ascending stroke: ป ฝ ฟ ฬ. */
  const AscenderConsonants: seq<char> := ['\U{0E1B}', '\U{0E1D}', '\U{0E1F}', '\U{0E2C}']

  /** Consonants with a descending stroke: ฎ ฏ. */
  const DescenderConsonants: seq<char> := ['\U{0E0E}', '\U{0E0F}']

  /** Upper vowels in the array's order: ิ ี ึ ื ็ ั. */
  const UpperVowels: seq<char> := ['\U{0E34}', '\U{0E35}', '\U{0E36}', '\U{0E37}', '\U{0E47}', '\U{0E31}']

  /** Lower vowels: ุ ู. */
  const LowerVowels: seq<char> := ['\U{0E38}', '\U{0E39}']

  /** สระอำ (sara am). */
  const SaraAm: char := '\U{0E33}'

  /** Tone marks: ่ ้ ๊ ๋. */
  const ToneMarks: seq<char> := ['\U{0E48}', '\U{0E49}', '\U{0E4A}', '\U{0E4B}']

  /** ทัณฑฆาต (thanthakhat). */
  const ThanThaKhaat: char := '\U{0E4C}'

  /** A consonant by code-point range ก..ฮ (46 code points, so ฤ and ฦ too). */
  predicate IsThaiConsonant(c: char) {
    '\U{0E01}' <= c <= '\U{0E2E}'
  }

  /** A glyph drawn above the base line: an upper vowel, a tone mark or ์. */
  predicate IsUpperGlyph(c: char) {
    c in UpperVowels || c in ToneMarks || c == ThanThaKhaat
  }

  /** The pair test applied to adjacent characters of sample text. */
  predicate IsValidThaiPair(first: char, second: char) {
    if IsThaiConsonant(first) && IsUpperGlyph(second) then true
    else if first in UpperVowels && (second in ToneMarks || second == ThanThaKhaat) then true
    else if IsThaiConsonant(first) && second in LowerVowels then true
    else false
  }

  /** No character occurs twice in the sequence. */
  predicate Distinct(s: seq<char>) {
    forall i, j :: 0 <= i < j < |s| ==> s[i] != s[j]
  }

  // Independent descriptions by code point, used to state what the arrays hold.

  predicate InRange(c: char, lo: int, hi: int) {
    lo <= c as int <= hi
  }

  predicate IsUpperVowelCode(c: char) {
    c as int == 0x0E31 || InRange(c, 0x0E34, 0x0E37) || c as int == 0x0E47
  }

  predicate IsToneMarkCode(c: char) {
    InRange(c, 0x0E48, 0x0E4B)
  }

  predicate IsLowerVowelCode(c: char) {
    InRange(c, 0x0E38, 0x0E39)
  }

  /** The arrays hold exactly the code points their descriptions name. */
  lemma ClassesByCodePoint(c: char)
    ensures c in UpperVowels <==> IsUpperVowelCode(c)
    ensures c in ToneMarks <==> IsToneMarkCode(c)
    ensures c in LowerVowels <==> IsLowerVowelCode(c)
    ensures c in AllConsonants <==> InRange(c, 0x0E01, 0x0E2E) && c as int != 0x0E24 && c as int != 0x0E26
  {
    UpperVowelsByCodePoint(c);
    ToneMarksByCodePoint(c);
    LowerVowelsByCodePoint(c);
    ConsonantsByCodePoint(c);
  }

  lemma UpperVowelsByCodePoint(c: char)
    ensures c in UpperVowels <==> IsUpperVowelCode(c)
  {
    if IsUpperVowelCode(c) {
      var i := if c as int == 0x0E31 then 5 else if c as int == 0x0E47 then 4 else c as int - 0x0E34;
      assert UpperVowels[i] == c;
    }
  }

  lemma ToneMarksByCodePoint(c: char)
    ensures c in ToneMarks <==> IsToneMarkCode(c)
  {
    if IsToneMarkCode(c) {
      assert ToneMarks[c as int - 0x0E48] == c;
    }
  }

  lemma LowerVowelsByCodePoint(c: char)
    ensures c in LowerVowels <==> IsLowerVowelCode(c)
  {
    if IsLowerVowelCode(c) {
      assert LowerVowels[c as int - 0x0E38] == c;
    }
  }

  lemma ConsonantsByCodePoint(c: char)
    ensures c in AllConsonants <==> InRange(c, 0x0E01, 0x0E2E) && c as int != 0x0E24 && c as int != 0x0E26
  {
    if InRange(c, 0x0E01, 0x0E2E) && c as int != 0x0E24 && c as int != 0x0E26 {
      var k := c as int - 0x0E01;
      var i := if k < 0x23 then k else if k < 0x25 then k - 1 else k - 2;
      ConsonantAt(i);
      assert AllConsonants[i] == c;
    }
    if c in AllConsonants {
      var i :| 0 <= i < |AllConsonants| && AllConsonants[i] == c;
      ConsonantAt(i);
    }
  }

  /** The consonant array by index: ก..ฃ..ร, then ล, then ว..ฮ. */
  lemma ConsonantAt(i: int)
    requires 0 <= i < |AllConsonants|
    ensures AllConsonants[i] as int == if i < 0x23 then 0x0E01 + i else if i == 0x23 then 0x0E25 else 0x0E03 + i
  {
  }

  /** IsValidThaiPair accepts exactly three shapes, stated by code point. */
  lemma ValidPairShapes(first: char, second: char)
    ensures IsValidThaiPair(first, second) <==>
      || (InRange(first, 0x0E01, 0x0E2E) && (IsUpperVowelCode(second) || InRange(second, 0x0E48, 0x0E4C)))
      || (IsUpperVowelCode(first) && InRange(second, 0x0E48, 0x0E4C))
      || (InRange(first, 0x0E01, 0x0E2E) && IsLowerVowelCode(second))
  {
    ClassesByCodePoint(first);
    ClassesByCodePoint(second);
  }

  /** The range test accepts two code points that the consonant array lacks. */
  lemma RangeWiderThanConsonantArray()
    ensures |AllConsonants| == 44
    ensures forall c :: c in AllConsonants ==> IsThaiConsonant(c)
    ensures IsThaiConsonant('\U{0E24}') && '\U{0E24}' !in AllConsonants
    ensures IsThaiConsonant('\U{0E26}') && '\U{0E26}' !in AllConsonants
  {
    ClassesByCodePoint('\U{0E24}');
    ClassesByCodePoint('\U{0E26}');
  }

  /** สระอำ is neither an upper glyph nor a lower vowel, so no scanned pair ends in it. */
  lemma SaraAmNeverEndsAValidPair(first: char)
    ensures !IsValidThaiPair(first, SaraAm)
  {
    ClassesByCodePoint(SaraAm);
  }

  /** Every ascender consonant is also in the consonant array. */
  lemma AscendersAreConsonants()
    ensures forall c :: c in AscenderConsonants ==> c in AllConsonants
    ensures forall c :: c in DescenderConsonants ==> c in AllConsonants
  {
    assert AllConsonants[0x1B - 1] == AscenderConsonants[0];
    assert AllConsonants[0x1D - 1] == AscenderConsonants[1];
    assert AllConsonants[0x1F - 1] == AscenderConsonants[2];
    assert AllConsonants[41] == AscenderConsonants[3];
    assert AllConsonants[13] == DescenderConsonants[0];
    assert AllConsonants[14] == DescenderConsonants[1];
  }

  /** The arrays have no repeated characters. */
  lemma ClassesDistinct()
    ensures Distinct(AllConsonants) && Distinct(AscenderConsonants) && Distinct(DescenderConsonants)
    ensures Distinct(UpperVowels) && Distinct(LowerVowels) && Distinct(ToneMarks)
  {
    forall i, j | 0 <= i < j < |AllConsonants| ensures AllConsonants[i] != AllConsonants[j] {
      ConsonantsIncreasing(i, j);
    }
  }

  lemma ConsonantsIncreasing(i: int, j: int)
    requires 0 <= i < j < |AllConsonants|
    ensures AllConsonants[i] < AllConsonants[j]
  {
    if i + 1 < j {
      ConsonantsIncreasing(i, j - 1);
    }
  }

  /** The second-position classes are pairwise disjoint, and an upper vowel or
      sara am is never a consonant. */
  lemma ClassesDisjoint(c: char)
    ensures !(c in UpperVowels && c in ToneMarks)
    ensures !(c in UpperVowels && c in LowerVowels)
    ensures !(c in ToneMarks && c in LowerVowels)
    ensures c == ThanThaKhaat ==> c !in UpperVowels && c !in ToneMarks && c !in LowerVowels
    ensures c in AllConsonants ==> c !in UpperVowels && c != SaraAm
  {
    ClassesByCodePoint(c);
  }
}

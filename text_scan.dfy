/** Pair detection in sample text: the text is split into words on space, line
    feed, carriage return and tab (empty pieces dropped), and every adjacent
    character pair inside a word that passes the Thai pair test becomes a
    candidate rule with the fixed scan placement. */
module TextScan {
  import opened ThaiChars
  import opened RuleSet

  /** The four separators the text is split on. */
  predicate IsSeparator(c: char) {
    c == ' ' || c == '\n' || c == '\r' || c == '\t'
  }

  /** The category every scanned rule carries. */
  const ScanCategory: string := "จากข้อความ"

  /** The rule proposed for a pair found in `word`; its name is the whole word. */
  function ScanRule(word: string, first: char, second: char): AdjustmentRule {
    NewRule(word, first, second, 0.0, -2.0, ScanCategory)
  }

  /** The length of the longest separator-free prefix of `s`. */
  function RunLength(s: string): (n: nat)
    ensures n <= |s|
    ensures forall i :: 0 <= i < n ==> !IsSeparator(s[i])
    ensures n < |s| ==> IsSeparator(s[n])
  {
    if s == [] || IsSeparator(s[0]) then 0 else 1 + RunLength(s[1..])
  }

  /** Splitting on the separators with empty entries removed. */
  function Words(s: string): seq<string>
    decreases |s|
  {
    if s == [] then []
    else if IsSeparator(s[0]) then Words(s[1..])
    else
      var n := RunLength(s);
      [s[..n]] + Words(s[n..])
  }

  /** `a` is immediately followed by `b` somewhere in `s`. */
  predicate AdjacentIn(s: string, a: char, b: char) {
    exists k :: 0 <= k < |s| - 1 && s[k] == a && s[k + 1] == b
  }

  /** Every word is non-empty and holds no separator. */
  lemma {:induction false} WordsAreSeparatorFree(s: string)
    ensures forall w :: w in Words(s) ==> |w| > 0 && forall i :: 0 <= i < |w| ==> !IsSeparator(w[i])
    decreases |s|
  {
    if s != [] {
      if IsSeparator(s[0]) {
        WordsAreSeparatorFree(s[1..]);
      } else {
        WordsAreSeparatorFree(s[RunLength(s)..]);
      }
    }
  }

  /** A text made only of separators (the empty text included) has no words. */
  lemma {:induction false} OnlySeparatorsNoWords(s: string)
    requires forall i :: 0 <= i < |s| ==> IsSeparator(s[i])
    ensures Words(s) == []
    decreases |s|
  {
    if s != [] {
      OnlySeparatorsNoWords(s[1..]);
    }
  }

  /** A non-empty separator-free text is a single word. */
  lemma SeparatorFreeIsOneWord(s: string)
    requires |s| > 0 && forall i :: 0 <= i < |s| ==> !IsSeparator(s[i])
    ensures Words(s) == [s]
  {
    var n := RunLength(s);
    assert n == |s|;
    assert s[..n] == s;
    assert s[n..] == [];
  }

  /** Adjacency inside a word is adjacency in the text. */
  lemma {:induction false} WordPairInText(s: string, w: string, a: char, b: char)
    requires w in Words(s) && AdjacentIn(w, a, b)
    ensures AdjacentIn(s, a, b)
    decreases |s|
  {
    if IsSeparator(s[0]) {
      WordPairInText(s[1..], w, a, b);
      var k :| 0 <= k < |s[1..]| - 1 && s[1..][k] == a && s[1..][k + 1] == b;
      assert s[k + 1] == a && s[k + 2] == b;
    } else {
      var n := RunLength(s);
      if w == s[..n] {
        var k :| 0 <= k < |w| - 1 && w[k] == a && w[k + 1] == b;
        assert s[k] == a && s[k + 1] == b;
      } else {
        WordPairInText(s[n..], w, a, b);
        var k :| 0 <= k < |s[n..]| - 1 && s[n..][k] == a && s[n..][k + 1] == b;
        assert s[n + k] == a && s[n + k + 1] == b;
      }
    }
  }

  /** Two adjacent non-separators of the text lie adjacent inside one word. */
  lemma {:induction false} TextPairInWord(s: string, k: int)
    requires 0 <= k < |s| - 1 && !IsSeparator(s[k]) && !IsSeparator(s[k + 1])
    ensures exists w :: w in Words(s) && AdjacentIn(w, s[k], s[k + 1])
    decreases |s|
  {
    if IsSeparator(s[0]) {
      TextPairInWord(s[1..], k - 1);
      var w :| w in Words(s[1..]) && AdjacentIn(w, s[1..][k - 1], s[1..][k]);
      assert w in Words(s);
    } else {
      var n := RunLength(s);
      if k + 1 < n {
        var w := s[..n];
        assert w[k] == s[k] && w[k + 1] == s[k + 1];
        assert w in Words(s);
      } else {
        assert n <= k;
        TextPairInWord(s[n..], k - n);
        var w :| w in Words(s[n..]) && AdjacentIn(w, s[n..][k - n], s[n..][k - n + 1]);
        assert w in Words(s);
      }
    }
  }

  /** The candidate at position i of a word: one rule when the pair there is valid. */
  function PairCands(w: string, i: nat): seq<AdjustmentRule>
    requires i + 1 < |w|
  {
    if IsValidThaiPair(w[i], w[i + 1]) then [ScanRule(w, w[i], w[i + 1])] else []
  }

  /** The candidates of the first `n` positions of a word, in order. */
  function WordCands(w: string, n: nat): seq<AdjustmentRule>
    requires n == 0 || n < |w|
  {
    if n == 0 then [] else WordCands(w, n - 1) + PairCands(w, n - 1)
  }

  /** All candidates of one word: its positions 0 .. |w| - 2. */
  function AllWordCands(w: string): seq<AdjustmentRule> {
    if |w| == 0 then [] else WordCands(w, |w| - 1)
  }

  /** The candidates of a list of words, word after word. */
  function TextCands(words: seq<string>): seq<AdjustmentRule>
    decreases |words|
  {
    if words == [] then []
    else TextCands(words[..|words| - 1]) + AllWordCands(words[|words| - 1])
  }

  /** Extending the pair loop by one position appends at most one candidate. */
  lemma WordCandsStep(w: string, i: nat)
    requires i + 1 < |w|
    ensures WordCands(w, i + 1) == WordCands(w, i) + PairCands(w, i)
  {
  }

  /** Extending the word loop by one word appends that word's candidates. */
  lemma TextCandsStep(words: seq<string>, k: int)
    requires 0 <= k < |words|
    ensures TextCands(words[..k + 1]) == TextCands(words[..k]) + AllWordCands(words[k])
  {
    assert words[..k + 1][..k] == words[..k];
  }

  /** A word's candidates are exactly the scan rules of its valid adjacent pairs. */
  lemma {:induction false} WordCandsExact(w: string, n: nat)
    requires n == 0 || n < |w|
    ensures forall r :: r in WordCands(w, n) <==>
      exists i :: 0 <= i < n && IsValidThaiPair(w[i], w[i + 1]) && r == ScanRule(w, w[i], w[i + 1])
  {
    if n > 0 {
      WordCandsExact(w, n - 1);
    }
  }

  /** Every candidate of a word stems from a valid pair adjacent in that word. */
  lemma AllWordCandsSound(w: string)
    ensures forall r :: r in AllWordCands(w) ==>
      && r == ScanRule(w, r.first, r.second)
      && IsValidThaiPair(r.first, r.second)
      && AdjacentIn(w, r.first, r.second)
  {
    if |w| > 0 {
      WordCandsExact(w, |w| - 1);
    }
  }

  /** Every valid adjacent pair of a word is proposed. */
  lemma AllWordCandsComplete(w: string, i: int)
    requires 0 <= i < |w| - 1 && IsValidThaiPair(w[i], w[i + 1])
    ensures ScanRule(w, w[i], w[i + 1]) in AllWordCands(w)
  {
    WordCandsExact(w, |w| - 1);
  }

  /** The candidates of a word list come from its words, and every word's
      candidates are among them. */
  lemma {:induction false} TextCandsExact(words: seq<string>)
    ensures forall r :: r in TextCands(words) <==> exists w :: w in words && r in AllWordCands(w)
    decreases |words|
  {
    if words != [] {
      var init := words[..|words| - 1];
      TextCandsExact(init);
      assert words == init + [words[|words| - 1]];
    }
  }

  /** One candidate of one word of the text, traced back to the text. */
  lemma WordCandSound(s: string, w: string, r: AdjustmentRule)
    requires w in Words(s) && r in AllWordCands(w)
    ensures IsValidThaiPair(r.first, r.second) && AdjacentIn(s, r.first, r.second)
    ensures !IsSeparator(r.first) && !IsSeparator(r.second)
    ensures r.x == 0.0 && r.y == -2.0 && r.category == ScanCategory && r.selected
    ensures r.ruleName == w
  {
    AllWordCandsSound(w);
    WordPairInText(s, w, r.first, r.second);
    WordsAreSeparatorFree(s);
    var k :| 0 <= k < |w| - 1 && w[k] == r.first && w[k + 1] == r.second;
    assert !IsSeparator(w[k]) && !IsSeparator(w[k + 1]);
  }

  /** Soundness of the scan: every candidate taken from the text is a valid
      pair that occurs adjacently in the text with neither character a
      separator, carries placement (0, -2), the scan category and the name of
      a word of the text, and starts out selected. */
  lemma ScanSound(s: string)
    ensures forall r :: r in TextCands(Words(s)) ==>
      && IsValidThaiPair(r.first, r.second)
      && AdjacentIn(s, r.first, r.second)
      && !IsSeparator(r.first) && !IsSeparator(r.second)
      && r.x == 0.0 && r.y == -2.0 && r.category == ScanCategory && r.selected
      && r.ruleName in Words(s)
  {
    TextCandsExact(Words(s));
    forall r | r in TextCands(Words(s))
      ensures IsValidThaiPair(r.first, r.second) && AdjacentIn(s, r.first, r.second)
      ensures !IsSeparator(r.first) && !IsSeparator(r.second)
      ensures r.x == 0.0 && r.y == -2.0 && r.category == ScanCategory && r.selected
      ensures r.ruleName in Words(s)
    {
      var w :| w in Words(s) && r in AllWordCands(w);
      WordCandSound(s, w, r);
    }
  }

  /** Completeness of the scan: every valid pair of adjacent non-separator
      characters of the text is proposed. */
  lemma ScanComplete(s: string, k: int)
    requires 0 <= k < |s| - 1 && !IsSeparator(s[k]) && !IsSeparator(s[k + 1])
    requires IsValidThaiPair(s[k], s[k + 1])
    ensures HasKey(TextCands(Words(s)), [s[k], '_', s[k + 1]])
  {
    TextPairInWord(s, k);
    var ws := Words(s);
    var w :| w in ws && AdjacentIn(w, s[k], s[k + 1]);
    var i :| 0 <= i < |w| - 1 && w[i] == s[k] && w[i + 1] == s[k + 1];
    AllWordCandsComplete(w, i);
    var r := ScanRule(w, w[i], w[i + 1]);
    CandOfWordIsTextCand(ws, w, r);
    MemberHasKey(TextCands(ws), r);
  }

  lemma CandOfWordIsTextCand(words: seq<string>, w: string, r: AdjustmentRule)
    requires w in words && r in AllWordCands(w)
    ensures r in TextCands(words)
  {
    TextCandsExact(words);
  }

  /** A pair split by a separator is never proposed on the strength of that
      occurrence: the scan proposes only pairs adjacent inside one word. */
  lemma NoPairAcrossSeparator(a: char, b: char)
    requires IsValidThaiPair(a, b)
    ensures TextCands(Words([a, ' ', b])) == []
  {
    assert !IsSeparator(a) && !IsSeparator(b) by {
      ClassesByCodePoint(a);
      ClassesByCodePoint(b);
    }
    var s := [a, ' ', b];
    assert RunLength([b]) == 1;
    assert [b][..1] == [b] && [b][1..] == [];
    assert Words([b]) == [[b]];
    assert Words([' ', b]) == [[b]] by {
      assert [' ', b][1..] == [b];
    }
    assert RunLength(s) == 1;
    assert s[..1] == [a] && s[1..] == [' ', b];
    assert Words(s) == [[a], [b]];
    assert TextCands([[a]]) == [] by {
      assert [[a]][..0] == [];
    }
    assert [[a], [b]][..1] == [[a]];
  }

  /** The first word of the default sample text yields two candidates, in order. */
  lemma FirstSampleWord()
    ensures AllWordCands("ปิ่น") == [
      ScanRule("ปิ่น", '\U{0E1B}', '\U{0E34}'),
      ScanRule("ปิ่น", '\U{0E34}', '\U{0E48}')
    ]
  {
    var w := "ปิ่น";
    assert w == ['\U{0E1B}', '\U{0E34}', '\U{0E48}', '\U{0E19}'];
    assert !IsValidThaiPair(w[2], w[3]);
    assert WordCands(w, 1) == [ScanRule(w, w[0], w[1])];
  }
}

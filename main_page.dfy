/** The two file-name helpers of the upload page: guessing the billing
    month from a PDF's file name, and turning the company name into the
    name of the Excel file offered for download. */
module MainPage {
  import opened Strings

  // ---------------------------------------------------------------------
  // Month from a file name
  // ---------------------------------------------------------------------

  /** 月, the month counter. */
  const MonthSign: char := '\U{6708}'

  /** A half-width or full-width decimal digit. */
  predicate IsWideDigit(c: char) {
    IsDigit(c) || '\U{FF10}' <= c <= '\U{FF19}'
  }

  /** The translation table str.maketrans('０１２３４５６７８９', '0123456789')
      applied to one character: a full-width digit becomes its ASCII digit,
      anything else is left alone. */
  function HalfWidthDigit(c: char): char {
    if '\U{FF10}' <= c <= '\U{FF19}' then ((c as int) - 0xFF10 + ('0' as int)) as char else c
  }

  /** The table applied to a whole string. */
  function HalfWidth(s: string): (r: string)
    ensures |r| == |s|
    ensures forall k :: 0 <= k < |s| ==> r[k] == HalfWidthDigit(s[k])
  {
    seq(|s|, k requires 0 <= k < |s| => HalfWidthDigit(s[k]))
  }

  /** The digit's value: int() of the digit after the translation table. */
  function WideDigitValue(c: char): (d: nat)
    requires IsWideDigit(c)
    ensures d < 10
    ensures IsDigit(HalfWidthDigit(c)) && d == DigitValue(HalfWidthDigit(c))
  {
    if IsDigit(c) then DigitValue(c) else (c as int) - 0xFF10
  }

  /** Stage 1, ([0-9０-９]{1,2})\s*月. At p the group takes two digits when a
      second one follows, one otherwise; giving the second one back cannot
      help, since a digit is neither whitespace nor 月. */
  function DigitGroupEnd(s: string, p: nat): (e: nat)
    requires p < |s|
    ensures p < e <= |s| && e <= p + 2
  {
    if p + 1 < |s| && IsWideDigit(s[p + 1]) then p + 2 else p + 1
  }

  predicate KanjiMonthAt(s: string, p: nat) {
    && p < |s| && IsWideDigit(s[p])
    && var j := SkipSpaces(s, DigitGroupEnd(s, p));
    && j < |s| && s[j] == MonthSign
  }

  /** The stage-1 pattern as a relation: a match starts at p and its group is s[p..q]. */
  ghost predicate KanjiMonthMatch(s: string, p: int, q: int) {
    && 0 <= p < q <= |s| && q <= p + 2
    && (forall k :: p <= k < q ==> IsWideDigit(s[k]))
    && var j := SkipSpaces(s, q);
    && j < |s| && s[j] == MonthSign
  }

  /** Leftmost position from p on where stage 1 matches, or |s|. */
  function FirstKanjiMonth(s: string, p: nat): (i: nat)
    requires p <= |s|
    ensures p <= i <= |s|
    ensures i < |s| ==> KanjiMonthAt(s, i)
    decreases |s| - p
  {
    if p == |s| || KanjiMonthAt(s, p) then p else FirstKanjiMonth(s, p + 1)
  }

  /** int() of the translated group. */
  function KanjiMonthValue(s: string, p: nat): nat
    requires p < |s| && KanjiMonthAt(s, p)
  {
    var e := DigitGroupEnd(s, p);
    if e == p + 2 then 10 * WideDigitValue(s[p]) + WideDigitValue(s[p + 1]) else WideDigitValue(s[p])
  }

  /** Stage 2, [_\-]([0-9]{2})[_\-\.]: two ASCII digits between separators. */
  predicate SepMonthAt(s: string, p: nat) {
    && p + 3 < |s|
    && (s[p] == '_' || s[p] == '-')
    && IsDigit(s[p + 1]) && IsDigit(s[p + 2])
    && (s[p + 3] == '_' || s[p + 3] == '-' || s[p + 3] == '.')
  }

  /** Leftmost position from p on where stage 2 matches, or |s|. */
  function FirstSepMonth(s: string, p: nat): (i: nat)
    requires p <= |s|
    ensures p <= i <= |s|
    ensures i < |s| ==> SepMonthAt(s, i)
    ensures forall j :: p <= j < i ==> !SepMonthAt(s, j)
    decreases |s| - p
  {
    if p == |s| || SepMonthAt(s, p) then p else FirstSepMonth(s, p + 1)
  }

  function SepMonthValue(s: string, p: nat): nat
    requires SepMonthAt(s, p)
  {
    10 * DigitValue(s[p + 1]) + DigitValue(s[p + 2])
  }

  /** Stage 3: English month names, in the order the table lists them. */
  const MonthNames: seq<(string, int)> := [
    ("jan", 1), ("january", 1),
    ("feb", 2), ("february", 2),
    ("mar", 3), ("march", 3),
    ("apr", 4), ("april", 4),
    ("may", 5),
    ("jun", 6), ("june", 6),
    ("jul", 7), ("july", 7),
    ("aug", 8), ("august", 8),
    ("sep", 9), ("september", 9),
    ("oct", 10), ("october", 10),
    ("nov", 11), ("november", 11),
    ("dec", 12), ("december", 12)
  ]

  /** str.lower() as far as it can matter here: ASCII capitals, and the
      Kelvin sign, which lower-cases to an ASCII k. */
  function LowerChar(c: char): char {
    if 'A' <= c <= 'Z' then ((c as int) + 32) as char
    else if c == '\U{212A}' then 'k'
    else c
  }

  function Lower(s: string): (r: string)
    ensures |r| == |s|
    ensures forall k :: 0 <= k < |s| ==> r[k] == LowerChar(s[k])
  {
    seq(|s|, k requires 0 <= k < |s| => LowerChar(s[k]))
  }

  /** needle occurs in s at or after position i. */
  predicate ContainsFrom(s: string, needle: string, i: nat)
    requires i <= |s|
    decreases |s| - i
  {
    if |s| - i < |needle| then false
    else s[i..i + |needle|] == needle || ContainsFrom(s, needle, i + 1)
  }

  /** needle in s */
  predicate Contains(s: string, needle: string) {
    ContainsFrom(s, needle, 0)
  }

  /** The month of the first table entry whose name occurs in s. */
  function FirstNamedMonth(s: string, names: seq<(string, int)>): Option<int> {
    if |names| == 0 then None
    else if Contains(s, names[0].0) then Some(names[0].1)
    else FirstNamedMonth(s, names[1..])
  }

  /** Stage 1's verdict: the value of its leftmost match, when that is a month. */
  function KanjiStage(filename: string): Option<int> {
    var p := FirstKanjiMonth(filename, 0);
    if p < |filename| && 1 <= KanjiMonthValue(filename, p) <= 12 then Some(KanjiMonthValue(filename, p)) else None
  }

  /** Stage 2's verdict, likewise. */
  function SepStage(filename: string): Option<int> {
    var q := FirstSepMonth(filename, 0);
    if q < |filename| && 1 <= SepMonthValue(filename, q) <= 12 then Some(SepMonthValue(filename, q)) else None
  }

  /** Stage 3's verdict. */
  function NameStage(filename: string): Option<int> {
    FirstNamedMonth(Lower(filename), MonthNames)
  }

  /** _detect_month_from_filename: the three stages in order; each looks
      only at its leftmost match, and an out-of-range value passes on to the
      next stage. */
  function DetectMonthFromFilename(filename: string): Option<int> {
    if KanjiStage(filename).Some? then KanjiStage(filename)
    else if SepStage(filename).Some? then SepStage(filename)
    else NameStage(filename)
  }

  // ---------------------------------------------------------------------
  // Properties of the month detection
  // ---------------------------------------------------------------------

  /** Every month in the name table is on the calendar. */
  lemma {:induction false} FirstNamedMonthInRange(s: string, names: seq<(string, int)>)
    requires forall k :: 0 <= k < |names| ==> 1 <= names[k].1 <= 12
    ensures FirstNamedMonth(s, names).Some? ==> 1 <= FirstNamedMonth(s, names).value <= 12
  {
    if |names| > 0 && !Contains(s, names[0].0) {
      FirstNamedMonthInRange(s, names[1..]);
    }
  }

  /** The detector answers None or a month from 1 to 12. */
  lemma DetectMonthInRange(filename: string)
    ensures DetectMonthFromFilename(filename).Some? ==> 1 <= DetectMonthFromFilename(filename).value <= 12
  {
    FirstNamedMonthInRange(Lower(filename), MonthNames);
  }

  /** Stage 1's group at a match position is exactly the greedy digit group:
      the regex engine's first choice, and the only one that can match. */
  lemma KanjiMonthGroup(s: string, p: nat, q: int)
    requires KanjiMonthMatch(s, p, q)
    ensures KanjiMonthAt(s, p) && q == DigitGroupEnd(s, p)
  {
    if q == p + 1 && p + 1 < |s| {
      assert !IsSpace(s[q]) ==> SkipSpaces(s, q) == q;
    }
  }

  lemma {:induction false} FirstKanjiMonthIsLeftmost(s: string, p: nat)
    requires p <= |s|
    ensures forall i :: p <= i < FirstKanjiMonth(s, p) ==> i < |s| && !KanjiMonthAt(s, i)
    decreases |s| - p
  {
    if p < |s| && !KanjiMonthAt(s, p) {
      FirstKanjiMonthIsLeftmost(s, p + 1);
    } else {
      assert FirstKanjiMonth(s, p) == p;
    }
  }

  /** What stage 1 reads is the group of the leftmost match of its pattern. */
  lemma KanjiMonthIsLeftmostMatch(s: string)
    ensures FirstKanjiMonth(s, 0) == |s| <==> forall p, q :: !KanjiMonthMatch(s, p, q)
    ensures FirstKanjiMonth(s, 0) < |s| ==>
              && KanjiMonthMatch(s, FirstKanjiMonth(s, 0), DigitGroupEnd(s, FirstKanjiMonth(s, 0)))
              && forall p, q :: p < FirstKanjiMonth(s, 0) ==> !KanjiMonthMatch(s, p, q)
  {
    var i := FirstKanjiMonth(s, 0);
    FirstKanjiMonthIsLeftmost(s, 0);
    forall p, q | 0 <= p < i ensures !KanjiMonthMatch(s, p, q) {
      if KanjiMonthMatch(s, p, q) {
        KanjiMonthGroup(s, p, q);
      }
    }
    if i < |s| {
      assert KanjiMonthMatch(s, i, DigitGroupEnd(s, i));
    }
  }

  /** The translation keeps what stage 1 looks at: digits stay digits,
      whitespace stays whitespace, 月 stays 月. */
  lemma HalfWidthDigitKeepsClasses(c: char)
    ensures IsWideDigit(HalfWidthDigit(c)) == IsWideDigit(c)
    ensures IsSpace(HalfWidthDigit(c)) == IsSpace(c)
    ensures (HalfWidthDigit(c) == MonthSign) == (c == MonthSign)
    ensures IsWideDigit(c) ==> WideDigitValue(HalfWidthDigit(c)) == WideDigitValue(c)
  {
  }

  lemma {:induction false} SkipSpacesHalfWidth(s: string, i: nat)
    requires i <= |s|
    ensures SkipSpaces(HalfWidth(s), i) == SkipSpaces(s, i)
    decreases |s| - i
  {
    if i < |s| {
      HalfWidthDigitKeepsClasses(s[i]);
      if IsSpace(s[i]) {
        SkipSpacesHalfWidth(s, i + 1);
      }
    }
  }

  /** Stage 1 matches at the same places, with the same value, after the
      translation. */
  lemma KanjiMonthAtHalfWidth(s: string, p: nat)
    ensures KanjiMonthAt(HalfWidth(s), p) == KanjiMonthAt(s, p)
    ensures KanjiMonthAt(s, p) ==> KanjiMonthValue(HalfWidth(s), p) == KanjiMonthValue(s, p)
  {
    var h := HalfWidth(s);
    if p < |s| {
      HalfWidthDigitKeepsClasses(s[p]);
      if p + 1 < |s| {
        HalfWidthDigitKeepsClasses(s[p + 1]);
      }
      var e := DigitGroupEnd(s, p);
      assert DigitGroupEnd(h, p) == e;
      SkipSpacesHalfWidth(s, e);
      var j := SkipSpaces(s, e);
      if j < |s| {
        HalfWidthDigitKeepsClasses(s[j]);
      }
    }
  }

  lemma {:induction false} FirstKanjiMonthHalfWidth(s: string, p: nat)
    requires p <= |s|
    ensures FirstKanjiMonth(HalfWidth(s), p) == FirstKanjiMonth(s, p)
    decreases |s| - p
  {
    KanjiMonthAtHalfWidth(s, p);
    if p < |s| && !KanjiMonthAt(s, p) {
      FirstKanjiMonthHalfWidth(s, p + 1);
    }
  }

  /** Full-width digits before 月 count as their half-width counterparts:
      writing them in half width never changes stage 1's verdict. (Stage 2
      reads only ASCII digits, so the detector as a whole is not invariant.) */
  lemma KanjiStageHalfWidth(s: string)
    ensures KanjiStage(HalfWidth(s)) == KanjiStage(s)
  {
    FirstKanjiMonthHalfWidth(s, 0);
    var p := FirstKanjiMonth(s, 0);
    if p < |s| {
      KanjiMonthAtHalfWidth(s, p);
    }
  }

  /** The three-letter abbreviations ("may" for May), by month. */
  const Abbreviations: seq<string> :=
    ["jan", "feb", "mar", "apr", "may", "jun", "jul", "aug", "sep", "oct", "nov", "dec"]

  /** The full month names, by month. */
  const FullNames: seq<string> :=
    ["january", "february", "march", "april", "may", "june", "july",
     "august", "september", "october", "november", "december"]

  /** The table entries of month m: its abbreviation, then its full name
      (May has only the one). */
  function EntriesOf(m: nat): seq<(string, int)>
    requires 1 <= m <= 12
  {
    if m == 5 then [(Abbreviations[m - 1], m)] else [(Abbreviations[m - 1], m), (FullNames[m - 1], m)]
  }

  /** The table from month m on. */
  function EntriesFrom(m: nat): seq<(string, int)>
    requires 1 <= m <= 13
    decreases 13 - m
  {
    if m == 13 then [] else EntriesOf(m) + EntriesFrom(m + 1)
  }

  /** s holds the abbreviation of month m. */
  predicate MentionsMonth(s: string, m: int) {
    1 <= m <= 12 && Contains(s, Abbreviations[m - 1])
  }

  /** The first month from m on whose abbreviation occurs in s. */
  function FirstAbbreviatedMonth(s: string, m: nat): Option<int>
    requires 1 <= m <= 13
    decreases 13 - m
  {
    if m == 13 then None else if MentionsMonth(s, m) then Some(m) else FirstAbbreviatedMonth(s, m + 1)
  }

  /** Where the entries of month m start in the name table. */
  function Offset(m: nat): nat
    requires 1 <= m <= 13
  {
    if m <= 5 then 2 * (m - 1) else 2 * (m - 1) - 1
  }

  /** Each month's entries sit at its offset in the table. */
  lemma EntriesOfInTable(m: nat)
    requires 1 <= m <= 12
    ensures Offset(m) <= Offset(m + 1) <= |MonthNames|
    ensures EntriesOf(m) == MonthNames[Offset(m)..Offset(m + 1)]
  {
    if m == 1 {
      assert EntriesOf(1) == MonthNames[0..2];
    } else if m == 2 {
      assert EntriesOf(2) == MonthNames[2..4];
    } else if m == 3 {
      assert EntriesOf(3) == MonthNames[4..6];
    } else if m == 4 {
      assert EntriesOf(4) == MonthNames[6..8];
    } else if m == 5 {
      assert EntriesOf(5) == MonthNames[8..9];
    } else if m == 6 {
      assert EntriesOf(6) == MonthNames[9..11];
    } else if m == 7 {
      assert EntriesOf(7) == MonthNames[11..13];
    } else if m == 8 {
      assert EntriesOf(8) == MonthNames[13..15];
    } else if m == 9 {
      assert EntriesOf(9) == MonthNames[15..17];
    } else if m == 10 {
      assert EntriesOf(10) == MonthNames[17..19];
    } else if m == 11 {
      assert EntriesOf(11) == MonthNames[19..21];
    } else {
      assert EntriesOf(12) == MonthNames[21..23];
    }
  }

  /** One step down the table: month m's entries followed by the rest. */
  lemma TableStep(names: seq<(string, int)>, m: nat)
    requires 1 <= m <= 12 && |names| == Offset(13)
    requires EntriesOf(m) == names[Offset(m)..Offset(m + 1)]
    requires EntriesFrom(m + 1) == names[Offset(m + 1)..]
    ensures EntriesFrom(m) == names[Offset(m)..]
  {
    SliceSplit(names, Offset(m), Offset(m + 1));
  }

  lemma SliceSplit<T>(xs: seq<T>, a: nat, b: nat)
    requires a <= b <= |xs|
    ensures xs[a..] == xs[a..b] + xs[b..]
  {
  }

  /** The name table from month m's entries on is EntriesFrom(m). */
  lemma {:induction false} EntriesFromInTable(m: nat)
    requires 1 <= m <= 13
    ensures EntriesFrom(m) == MonthNames[Offset(m)..]
    decreases 13 - m
  {
    if m < 13 {
      EntriesFromInTable(m + 1);
      EntriesOfInTable(m);
      TableStep(MonthNames, m);
    }
  }

  /** The name table is the entries of January, then February, and so on. */
  lemma MonthNamesByMonth()
    ensures MonthNames == EntriesFrom(1)
  {
    EntriesFromInTable(1);
  }

  /** A string containing a word contains every prefix of it. */
  lemma {:induction false} ContainsPrefix(s: string, word: string, n: nat, i: nat)
    requires i <= |s| && n <= |word|
    requires ContainsFrom(s, word, i)
    ensures ContainsFrom(s, word[..n], i)
    decreases |s| - i
  {
    if s[i..i + |word|] == word {
      assert s[i..i + n] == word[..n];
    } else {
      ContainsPrefix(s, word, n, i + 1);
    }
  }

  /** Searching a table in two parts: the first part wins. */
  lemma {:induction false} FirstNamedMonthConcat(s: string, a: seq<(string, int)>, b: seq<(string, int)>)
    ensures FirstNamedMonth(s, a + b)
            == if FirstNamedMonth(s, a).Some? then FirstNamedMonth(s, a) else FirstNamedMonth(s, b)
  {
    if |a| == 0 {
      assert a + b == b;
    } else {
      assert (a + b)[1..] == a[1..] + b;
      FirstNamedMonthConcat(s, a[1..], b);
    }
  }

  /** Each full name starts with its month's abbreviation. */
  lemma FullNameExtendsAbbreviation(m: nat)
    requires 1 <= m <= 12 && m != 5
    ensures |EntriesOf(m)[1].0| >= 3 && EntriesOf(m)[1].0[..3] == Abbreviations[m - 1]
  {
  }

  /** A month's entries match exactly when its abbreviation does. */
  lemma FirstNamedMonthOfEntries(s: string, m: nat)
    requires 1 <= m <= 12
    ensures FirstNamedMonth(s, EntriesOf(m)) == if MentionsMonth(s, m) then Some(m) else None
  {
    var entries := EntriesOf(m);
    assert entries[0] == (Abbreviations[m - 1], m);
    if m == 5 {
      assert entries[1..] == [];
    } else if !MentionsMonth(s, m) {
      FullNameExtendsAbbreviation(m);
      var full := entries[1].0;
      if Contains(s, full) {
        ContainsPrefix(s, full, 3, 0);
      }
      assert entries[1..][0] == entries[1] && entries[1..][1..] == [];
      assert FirstNamedMonth(s, entries[1..]) == None;
    }
  }

  lemma {:induction false} FirstNamedMonthFrom(s: string, m: nat)
    requires 1 <= m <= 13
    ensures FirstNamedMonth(s, EntriesFrom(m)) == FirstAbbreviatedMonth(s, m)
    decreases 13 - m
  {
    if m < 13 {
      FirstNamedMonthFrom(s, m + 1);
      FirstNamedMonthConcat(s, EntriesOf(m), EntriesFrom(m + 1));
      FirstNamedMonthOfEntries(s, m);
    }
  }

  /** The name stage finds the earliest month whose abbreviation occurs in
      the lower-cased name; the full names never decide anything. */
  lemma NameStageIsLowestAbbreviation(filename: string)
    ensures var lower := Lower(filename);
      && (FirstNamedMonth(lower, MonthNames).None? <==> forall m :: !MentionsMonth(lower, m))
      && (FirstNamedMonth(lower, MonthNames).Some? ==>
            var m := FirstNamedMonth(lower, MonthNames).value;
            && MentionsMonth(lower, m)
            && forall m' :: m' < m ==> !MentionsMonth(lower, m'))
  {
    var lower := Lower(filename);
    MonthNamesByMonth();
    FirstNamedMonthFrom(lower, 1);
    FirstAbbreviatedMonthSpec(lower, 1);
  }

  lemma {:induction false} FirstAbbreviatedMonthSpec(s: string, m: nat)
    requires 1 <= m <= 13
    ensures FirstAbbreviatedMonth(s, m).None? <==> forall k :: m <= k ==> !MentionsMonth(s, k)
    ensures FirstAbbreviatedMonth(s, m).Some? ==>
              var k := FirstAbbreviatedMonth(s, m).value;
              && m <= k && MentionsMonth(s, k)
              && forall k' :: m <= k' < k ==> !MentionsMonth(s, k')
    decreases 13 - m
  {
    if m < 13 {
      FirstAbbreviatedMonthSpec(s, m + 1);
      if !MentionsMonth(s, m) {
        assert FirstAbbreviatedMonth(s, m) == FirstAbbreviatedMonth(s, m + 1);
      }
    }
  }

  // ---------------------------------------------------------------------
  // The documented examples
  // ---------------------------------------------------------------------

  /** Without 月 stage 1 never matches. */
  lemma {:induction false} NoMonthSign(s: string, p: nat)
    requires p <= |s|
    requires MonthSign !in s
    ensures FirstKanjiMonth(s, p) == |s|
    decreases |s| - p
  {
    if p < |s| {
      NoMonthSign(s, p + 1);
    }
  }

  /** A name already in lower case is its own lower-cased form. */
  lemma LowerOfLowerCase(s: string)
    requires forall k :: 0 <= k < |s| ==> !('A' <= s[k] <= 'Z') && s[k] != '\U{212A}'
    ensures Lower(s) == s
  {
  }

  /** A word found at position j is found from any i up to j. */
  lemma {:induction false} ContainsAt(s: string, word: string, i: nat, j: nat)
    requires i <= j && j + |word| <= |s| && s[j..j + |word|] == word
    ensures ContainsFrom(s, word, i)
    decreases j - i
  {
    if i < j && s[i..i + |word|] != word {
      ContainsAt(s, word, i + 1, j);
    }
  }

  /** A word whose first letter does not occur early enough is not found. */
  lemma {:induction false} NotContainsFrom(s: string, word: string, i: nat)
    requires i <= |s| && |word| > 0
    requires forall j :: i <= j && j + |word| <= |s| ==> s[j] != word[0]
    ensures !ContainsFrom(s, word, i)
    decreases |s| - i
  {
    if |s| - i >= |word| {
      assert s[i..i + |word|][0] == s[i];
      NotContainsFrom(s, word, i + 1);
    }
  }

  /** Without 月 stage 1 has no verdict. */
  lemma KanjiStageWithoutMonthSign(s: string)
    requires MonthSign !in s
    ensures KanjiStage(s) == None
  {
    NoMonthSign(s, 0);
  }

  /** A match at i with none before it from p on is what the search finds. */
  lemma {:induction false} FirstKanjiMonthAt(s: string, p: nat, i: nat)
    requires p <= i < |s| && KanjiMonthAt(s, i)
    requires forall j :: p <= j < i ==> !KanjiMonthAt(s, j)
    ensures FirstKanjiMonth(s, p) == i
    decreases i - p
  {
    if p < i {
      FirstKanjiMonthAt(s, p + 1, i);
    }
  }

  lemma KanjiMatchExample()
    ensures KanjiMonthAt("2025年1月_電気料金.pdf", 5) && KanjiMonthValue("2025年1月_電気料金.pdf", 5) == 1
  {
  }

  lemma NoEarlierKanjiMatchExample()
    ensures forall j :: 0 <= j < 5 ==> !KanjiMonthAt("2025年1月_電気料金.pdf", j)
  {
    var s := "2025年1月_電気料金.pdf";
    assert s[1] == '0' && s[2] == '2' && s[3] == '5' && s[4] == '年';
  }

  lemma KanjiStageExample()
    ensures KanjiStage("2025年1月_電気料金.pdf") == Some(1)
  {
    KanjiMatchExample();
    NoEarlierKanjiMatchExample();
    FirstKanjiMonthAt("2025年1月_電気料金.pdf", 0, 5);
  }

  /** "2025年1月_電気料金.pdf" is month 1: stage 1 matches "1月". */
  lemma KanjiExample()
    ensures DetectMonthFromFilename("2025年1月_電気料金.pdf") == Some(1)
  {
    KanjiStageExample();
  }

  lemma WideKanjiMatchExample()
    ensures KanjiMonthAt("２０２５年１２月.pdf", 5) && KanjiMonthValue("２０２５年１２月.pdf", 5) == 12
  {
  }

  lemma NoEarlierWideKanjiMatchExample()
    ensures forall j :: 0 <= j < 5 ==> !KanjiMonthAt("２０２５年１２月.pdf", j)
  {
    var s := "２０２５年１２月.pdf";
    assert s[1] == '０' && s[2] == '２' && s[3] == '５' && s[4] == '年';
  }

  /** "２０２５年１２月.pdf" is month 12: the full-width "１２" before 月 is
      translated and read as 12. */
  lemma WideKanjiExample()
    ensures DetectMonthFromFilename("２０２５年１２月.pdf") == Some(12)
  {
    WideKanjiMatchExample();
    NoEarlierWideKanjiMatchExample();
    FirstKanjiMonthAt("２０２５年１２月.pdf", 0, 5);
  }

  lemma SepStageExample()
    ensures SepStage("電気_2025_01.pdf") == Some(1)
  {
    var s := "電気_2025_01.pdf";
    assert SepMonthAt(s, 7);
    assert FirstSepMonth(s, 7) == 7;
    assert FirstSepMonth(s, 6) == 7;
    assert FirstSepMonth(s, 5) == 7;
    assert FirstSepMonth(s, 4) == 7;
    assert FirstSepMonth(s, 3) == 7;
    assert FirstSepMonth(s, 2) == 7;
    assert FirstSepMonth(s, 1) == 7;
  }

  /** "電気_2025_01.pdf" is month 1: stage 2 matches "_01.". */
  lemma SeparatorExample()
    ensures DetectMonthFromFilename("電気_2025_01.pdf") == Some(1)
  {
    KanjiStageWithoutMonthSign("電気_2025_01.pdf");
    SepStageExample();
  }

  lemma DateStageExample()
    ensures SepStage("2025-01-15.pdf") == Some(1)
  {
    var s := "2025-01-15.pdf";
    assert SepMonthAt(s, 4);
    assert FirstSepMonth(s, 4) == 4;
    assert FirstSepMonth(s, 3) == 4;
    assert FirstSepMonth(s, 2) == 4;
    assert FirstSepMonth(s, 1) == 4;
  }

  /** "2025-01-15.pdf" is month 1: stage 2 matches "-01-". */
  lemma DateExample()
    ensures DetectMonthFromFilename("2025-01-15.pdf") == Some(1)
  {
    KanjiStageWithoutMonthSign("2025-01-15.pdf");
    DateStageExample();
  }

  lemma NameSepStageExample()
    ensures SepStage("invoice_jan.pdf") == None
  {
    var s := "invoice_jan.pdf";
    assert FirstSepMonth(s, 15) == 15;
    assert FirstSepMonth(s, 14) == 15;
    assert FirstSepMonth(s, 13) == 15;
    assert FirstSepMonth(s, 12) == 15;
    assert FirstSepMonth(s, 11) == 15;
    assert FirstSepMonth(s, 10) == 15;
    assert FirstSepMonth(s, 9) == 15;
    assert FirstSepMonth(s, 8) == 15;
    assert FirstSepMonth(s, 7) == 15;
    assert FirstSepMonth(s, 6) == 15;
    assert FirstSepMonth(s, 5) == 15;
    assert FirstSepMonth(s, 4) == 15;
    assert FirstSepMonth(s, 3) == 15;
    assert FirstSepMonth(s, 2) == 15;
    assert FirstSepMonth(s, 1) == 15;
  }

  lemma NameStageExample()
    ensures NameStage("invoice_jan.pdf") == Some(1)
  {
    var s := "invoice_jan.pdf";
    LowerOfLowerCase(s);
    ContainsAt(s, "jan", 0, 8);
  }

  /** "invoice_jan.pdf" is month 1: only stage 3 matches, on "jan". */
  lemma NameExample()
    ensures DetectMonthFromFilename("invoice_jan.pdf") == Some(1)
  {
    KanjiStageWithoutMonthSign("invoice_jan.pdf");
    NameSepStageExample();
    NameStageExample();
  }

  lemma LeadingSepStage()
    ensures SepStage("01_請求書.pdf") == None
  {
    var s := "01_請求書.pdf";
    assert FirstSepMonth(s, 2) == 10;
    assert FirstSepMonth(s, 1) == 10;
  }

  lemma LeadingNameStage()
    ensures NameStage("01_請求書.pdf") == None
  {
    var s := "01_請求書.pdf";
    LowerOfLowerCase(s);
    forall m | 1 <= m <= 12 ensures !MentionsMonth(s, m) {
      NotContainsFrom(s, Abbreviations[m - 1], 0);
    }
    NameStageIsLowestAbbreviation(s);
  }

  /** "01_請求書.pdf", documented as month 1, is not recognised: stage 2
      wants a separator before the two digits, and the name starts with them. */
  lemma LeadingDigitsAsWritten()
    ensures DetectMonthFromFilename("01_請求書.pdf") == None
  {
    KanjiStageWithoutMonthSign("01_請求書.pdf");
    LeadingSepStage();
    LeadingNameStage();
  }

  /** The documented second pattern with the start of the name accepted as
      its left separator, (?:^|[_\-])([0-9]{2})[_\-\.]: the leftmost match is
      at the start when the name begins with two digits and a separator. */
  predicate LeadingMonthAt(s: string) {
    && 2 < |s| && IsDigit(s[0]) && IsDigit(s[1])
    && (s[2] == '_' || s[2] == '-' || s[2] == '.')
  }

  function CorrectedSepStage(filename: string): Option<int> {
    if LeadingMonthAt(filename) then
      var month := 10 * DigitValue(filename[0]) + DigitValue(filename[1]);
      if 1 <= month <= 12 then Some(month) else None
    else SepStage(filename)
  }

  /** The detector with the corrected second stage. */
  function DetectMonthCorrected(filename: string): Option<int> {
    if KanjiStage(filename).Some? then KanjiStage(filename)
    else if CorrectedSepStage(filename).Some? then CorrectedSepStage(filename)
    else NameStage(filename)
  }

  /** The corrected detector still answers None or a month from 1 to 12. */
  lemma DetectMonthCorrectedInRange(filename: string)
    ensures DetectMonthCorrected(filename).Some? ==> 1 <= DetectMonthCorrected(filename).value <= 12
  {
    FirstNamedMonthInRange(Lower(filename), MonthNames);
  }

  /** The correction changes nothing unless the name starts with two digits
      and a separator. */
  lemma DetectMonthCorrectedAgrees(filename: string)
    requires !LeadingMonthAt(filename)
    ensures DetectMonthCorrected(filename) == DetectMonthFromFilename(filename)
  {
  }

  lemma LeadingCorrectedSepStage()
    ensures CorrectedSepStage("01_請求書.pdf") == Some(1)
  {
  }

  /** The corrected detector reads "01_請求書.pdf" as month 1. */
  lemma LeadingDigitsCorrected()
    ensures DetectMonthCorrected("01_請求書.pdf") == Some(1)
  {
    KanjiStageWithoutMonthSign("01_請求書.pdf");
    LeadingCorrectedSepStage();
  }

  /** The corrected detector keeps the other documented examples. */
  lemma CorrectedKeepsKanjiExample()
    ensures DetectMonthCorrected("2025年1月_電気料金.pdf") == Some(1)
  {
    KanjiExample();
    DetectMonthCorrectedAgrees("2025年1月_電気料金.pdf");
  }

  lemma CorrectedKeepsSeparatorExample()
    ensures DetectMonthCorrected("電気_2025_01.pdf") == Some(1)
  {
    SeparatorExample();
    DetectMonthCorrectedAgrees("電気_2025_01.pdf");
  }

  lemma CorrectedKeepsNameExample()
    ensures DetectMonthCorrected("invoice_jan.pdf") == Some(1)
  {
    NameExample();
    DetectMonthCorrectedAgrees("invoice_jan.pdf");
  }

  lemma CorrectedKeepsDateExample()
    ensures DetectMonthCorrected("2025-01-15.pdf") == Some(1)
  {
    DateExample();
    DetectMonthCorrectedAgrees("2025-01-15.pdf");
  }

  // ---------------------------------------------------------------------
  // The Excel file name
  // ---------------------------------------------------------------------

  /** The characters Windows refuses in file names, as the raw string
      r'\\/:*?"<>|' spells them: the backslash comes twice. */
  const InvalidChars: seq<char> := ['\\', '\\', '/', ':', '*', '?', '"', '<', '>', '|']

  function CharSet(cs: seq<char>): set<char> {
    set c | c in cs
  }

  lemma CharSetSnoc(cs: seq<char>, i: nat)
    requires i < |cs|
    ensures CharSet(cs[..i + 1]) == CharSet(cs[..i]) + {cs[i]}
  {
    assert cs[..i + 1] == cs[..i] + [cs[i]];
  }

  /** s with every character in cs dropped, the rest in order. */
  function Without(s: string, cs: set<char>): (r: string)
    ensures |r| <= |s|
    ensures forall k :: 0 <= k < |r| ==> r[k] !in cs
  {
    if |s| == 0 then "" else (if s[0] in cs then "" else [s[0]]) + Without(s[1..], cs)
  }

  /** Every other character keeps its number of occurrences. */
  lemma {:induction false} WithoutKeepsOthers(s: string, cs: set<char>, c: char)
    requires c !in cs
    ensures multiset(Without(s, cs))[c] == multiset(s)[c]
  {
    if |s| > 0 {
      WithoutKeepsOthers(s[1..], cs, c);
      assert s == [s[0]] + s[1..];
    }
  }

  /** Dropping works piece by piece, so the kept characters stay in order. */
  lemma {:induction false} WithoutConcat(a: string, b: string, cs: set<char>)
    ensures Without(a + b, cs) == Without(a, cs) + Without(b, cs)
  {
    if |a| == 0 {
      assert a + b == b;
    } else {
      assert (a + b)[1..] == a[1..] + b;
      WithoutConcat(a[1..], b, cs);
    }
  }

  /** Dropping one more character after some have been dropped. */
  lemma {:induction false} WithoutThenRemove(s: string, cs: set<char>, c: char)
    ensures RemoveChar(Without(s, cs), c) == Without(s, cs + {c})
  {
    if |s| > 0 {
      WithoutThenRemove(s[1..], cs, c);
      var head := if s[0] in cs then "" else [s[0]];
      RemoveCharConcat(head, Without(s[1..], cs), c);
    }
  }

  lemma {:induction false} RemoveCharConcat(a: string, b: string, c: char)
    ensures RemoveChar(a + b, c) == RemoveChar(a, c) + RemoveChar(b, c)
  {
    if |a| > 0 {
      assert (a + b)[1..] == a[1..] + b;
      RemoveCharConcat(a[1..], b, c);
    } else {
      assert a + b == b;
    }
  }

  /** A string without any character of cs is left as it is. */
  lemma {:induction false} WithoutNone(s: string, cs: set<char>)
    requires forall k :: 0 <= k < |s| ==> s[k] !in cs
    ensures Without(s, cs) == s
  {
    if |s| > 0 {
      WithoutNone(s[1..], cs);
    }
  }

  /** The session's company name, None and "" alike read as no name. */
  function ExcelFilename(corpName: Option<string>): string {
    var name := Strip(if corpName.Some? then corpName.value else "");
    if name == "" then "output.xlsx"
    else
      var cleaned := Without(name, CharSet(InvalidChars));
      (if cleaned == "" then "output" else cleaned) + ".xlsx"
  }

  /** _build_excel_filename, with the company name passed in. */
  method BuildExcelFilename(corpName: Option<string>) returns (filename: string)
    ensures filename == ExcelFilename(corpName)
  {
    var name := Strip(if corpName.Some? then corpName.value else "");
    if name == "" {
      return "output.xlsx";
    }
    ghost var original := name;
    WithoutNone(original, CharSet(InvalidChars[..0]));
    for i := 0 to |InvalidChars|
      invariant name == Without(original, CharSet(InvalidChars[..i]))
    {
      WithoutThenRemove(original, CharSet(InvalidChars[..i]), InvalidChars[i]);
      CharSetSnoc(InvalidChars, i);
      name := RemoveChar(name, InvalidChars[i]);
    }
    assert InvalidChars[..|InvalidChars|] == InvalidChars;
    if name == "" {
      name := "output";
    }
    filename := name + ".xlsx";
  }

  /** No character of f is refused in a file name. */
  predicate IsSafeName(f: string) {
    forall k :: 0 <= k < |f| ==> f[k] !in InvalidChars
  }

  lemma SafeWithExtension(base: string)
    requires IsSafeName(base)
    ensures IsSafeName(base + ".xlsx")
  {
    var f := base + ".xlsx";
    forall k | 0 <= k < |f| ensures f[k] !in InvalidChars {
      if k < |base| {
        assert f[k] == base[k];
      } else {
        assert f[k] == ".xlsx"[k - |base|];
      }
    }
  }

  lemma WithoutInvalidIsSafe(s: string)
    ensures IsSafeName(Without(s, CharSet(InvalidChars)))
  {
    var r := Without(s, CharSet(InvalidChars));
    forall k | 0 <= k < |r| ensures r[k] !in InvalidChars {
      assert r[k] !in CharSet(InvalidChars);
    }
  }

  /** The result always ends in ".xlsx" and never holds a refused character. */
  lemma ExcelFilenameIsSafe(corpName: Option<string>)
    ensures var f := ExcelFilename(corpName);
      && |f| > 5 && f[|f| - 5..] == ".xlsx"
      && IsSafeName(f)
  {
    var name := Strip(if corpName.Some? then corpName.value else "");
    var cleaned := Without(name, CharSet(InvalidChars));
    WithoutInvalidIsSafe(name);
    var base := if name == "" || cleaned == "" then "output" else cleaned;
    SafeWithExtension(base);
    var f := base + ".xlsx";
    assert f == ExcelFilename(corpName);
    assert f[|f| - 5..] == ".xlsx";
  }

  /** An empty stripped name, or one made only of refused characters,
      gives "output.xlsx". */
  lemma ExcelFilenameDefault(corpName: Option<string>)
    ensures var name := Strip(if corpName.Some? then corpName.value else "");
      (forall k :: 0 <= k < |name| ==> name[k] in InvalidChars) ==> ExcelFilename(corpName) == "output.xlsx"
  {
    var name := Strip(if corpName.Some? then corpName.value else "");
    if name != "" && forall k :: 0 <= k < |name| ==> name[k] in InvalidChars {
      WithoutEmpty(name, CharSet(InvalidChars));
      assert Without(name, CharSet(InvalidChars)) == "";
    }
  }

  lemma {:induction false} WithoutEmpty(s: string, cs: set<char>)
    ensures Without(s, cs) == "" <==> forall k :: 0 <= k < |s| ==> s[k] in cs
  {
    if |s| > 0 {
      WithoutEmpty(s[1..], cs);
      if Without(s, cs) == "" {
        forall k | 0 <= k < |s| ensures s[k] in cs {
          if k > 0 {
            assert s[k] == s[1..][k - 1];
          }
        }
      }
    }
  }

  /** A clean stripped name is used as it is. */
  lemma ExcelFilenameOfCleanName(corpName: string)
    requires Strip(corpName) != ""
    requires forall k :: 0 <= k < |Strip(corpName)| ==> Strip(corpName)[k] !in InvalidChars
    ensures ExcelFilename(Some(corpName)) == Strip(corpName) + ".xlsx"
  {
    WithoutNone(Strip(corpName), CharSet(InvalidChars));
  }
}

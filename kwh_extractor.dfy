/** The usage-figure extractor of the OCR service: from recognised invoice
    text, the largest number of at least four digits written just before a
    "kWh" unit marker on one of the text's lines. */
module KwhExtractor {
  import opened Strings

  /** Smallest value accepted as a usage reading. */
  const MinReading: nat := 1000

  /** CPython's default limit on the length of a digit string int() converts;
      a longer one raises ValueError, which the extractor catches and skips. */
  const IntMaxStrDigits: nat := 4300

  // ---------------------------------------------------------------------
  // Step 1: full-width to half-width translation
  // ---------------------------------------------------------------------

  /** The translation table: full-width digits, the full-width and the
      ideographic comma, the ideographic space and the full-width k, w, h
      (both cases) become their half-width forms; every other character is kept. */
  function FoldWidth(c: char): char {
    if '\U{FF10}' <= c <= '\U{FF19}' then ((c as int) - 0xFF10 + ('0' as int)) as char
    else if c == '\U{FF0C}' || c == '\U{3001}' then ','
    else if c == '\U{3000}' then ' '
    else if c == '\U{FF4B}' then 'k'
    else if c == '\U{FF2B}' then 'K'
    else if c == '\U{FF57}' then 'w'
    else if c == '\U{FF37}' then 'W'
    else if c == '\U{FF48}' then 'h'
    else if c == '\U{FF28}' then 'H'
    else c
  }

  function NormalizeWidth(s: string): string {
    seq(|s|, k requires 0 <= k < |s| => FoldWidth(s[k]))
  }

  // ---------------------------------------------------------------------
  // Step 2: line breaks and lines
  // ---------------------------------------------------------------------

  /** s.replace('\r\n', '\n') */
  function ReplaceCrLf(s: string): string {
    if |s| == 0 then ""
    else if |s| >= 2 && s[0] == '\r' && s[1] == '\n' then "\n" + ReplaceCrLf(s[2..])
    else [s[0]] + ReplaceCrLf(s[1..])
  }

  /** s.replace('\r', '\n') */
  function ReplaceCr(s: string): (r: string)
    ensures |r| == |s|
    ensures forall k :: 0 <= k < |s| ==> r[k] == (if s[k] == '\r' then '\n' else s[k])
  {
    if |s| == 0 then "" else [if s[0] == '\r' then '\n' else s[0]] + ReplaceCr(s[1..])
  }

  /** Every line-break variant becomes a single '\n'. */
  function NormalizeNewlines(s: string): (r: string)
    ensures forall k :: 0 <= k < |r| ==> r[k] != '\r'
  {
    ReplaceCr(ReplaceCrLf(s))
  }

  /** Text without carriage returns is left as it is. */
  lemma {:induction false} NormalizeNewlinesWithoutCr(s: string)
    requires forall k :: 0 <= k < |s| ==> s[k] != '\r'
    ensures NormalizeNewlines(s) == s
  {
    if |s| > 0 {
      NormalizeNewlinesWithoutCr(s[1..]);
      assert ReplaceCrLf(s) == [s[0]] + ReplaceCrLf(s[1..]);
    }
  }

  /** ReplaceCrLf works piece by piece, unless the cut separates a '\r'
      from the '\n' after it. */
  lemma {:induction false} ReplaceCrLfConcat(a: string, b: string)
    requires !(|a| > 0 && a[|a| - 1] == '\r' && |b| > 0 && b[0] == '\n')
    ensures ReplaceCrLf(a + b) == ReplaceCrLf(a) + ReplaceCrLf(b)
  {
    if |a| == 0 {
      assert a + b == b;
    } else if |a| >= 2 && a[0] == '\r' && a[1] == '\n' {
      assert (a + b)[2..] == a[2..] + b;
      ReplaceCrLfConcat(a[2..], b);
      assert ReplaceCrLf(a + b) == "\n" + ReplaceCrLf(a[2..] + b);
    } else {
      assert (a + b)[1..] == a[1..] + b;
      assert !((a + b)[0] == '\r' && |a + b| >= 2 && (a + b)[1] == '\n');
      ReplaceCrLfConcat(a[1..], b);
      assert ReplaceCrLf(a + b) == [a[0]] + ReplaceCrLf(a[1..] + b);
    }
  }

  lemma ReplaceCrConcat(a: string, b: string)
    ensures ReplaceCr(a + b) == ReplaceCr(a) + ReplaceCr(b)
  {
  }

  /** Newline normalisation works piece by piece, unless the cut separates
      a '\r' from the '\n' after it. */
  lemma NormalizeNewlinesConcat(a: string, b: string)
    requires !(|a| > 0 && a[|a| - 1] == '\r' && |b| > 0 && b[0] == '\n')
    ensures NormalizeNewlines(a + b) == NormalizeNewlines(a) + NormalizeNewlines(b)
  {
    ReplaceCrLfConcat(a, b);
    ReplaceCrConcat(ReplaceCrLf(a), ReplaceCrLf(b));
  }

  /** The pieces: "\r\n" and a lone '\r' each become one '\n'; any other
      character is kept. With NormalizeNewlinesConcat these fix the result
      of every text. */
  lemma NormalizeNewlinesPieces(c: char)
    ensures NormalizeNewlines("\r\n") == "\n"
    ensures NormalizeNewlines("\r") == "\n"
    ensures c != '\r' ==> NormalizeNewlines([c]) == [c]
  {
    assert ReplaceCrLf("\r\n") == "\n" + ReplaceCrLf("");
    assert ReplaceCrLf("\r") == "\r" + ReplaceCrLf("");
    assert ReplaceCrLf([c]) == [c] + ReplaceCrLf("");
  }

  /** A "\r\n" between two pieces of text becomes one line feed. */
  lemma NormalizeCrLfBetween(a: string, b: string)
    ensures NormalizeNewlines(a + "\r\n" + b) == NormalizeNewlines(a) + "\n" + NormalizeNewlines(b)
  {
    NormalizeNewlinesConcat(a, "\r\n");
    NormalizeNewlinesConcat(a + "\r\n", b);
    NormalizeNewlinesPieces(' ');
  }

  /** A lone '\r' between two pieces of text becomes one line feed. */
  lemma NormalizeCrBetween(a: string, b: string)
    requires |b| == 0 || b[0] != '\n'
    ensures NormalizeNewlines(a + "\r" + b) == NormalizeNewlines(a) + "\n" + NormalizeNewlines(b)
  {
    NormalizeNewlinesConcat(a, "\r");
    NormalizeNewlinesConcat(a + "\r", b);
    NormalizeNewlinesPieces(' ');
  }

  /** s.split('\n'): the pieces between line feeds, at least one of them. */
  function SplitLines(s: string): (r: seq<string>)
    ensures |r| >= 1
    ensures forall k :: 0 <= k < |r| ==> '\n' !in r[k]
  {
    if |s| == 0 then [""]
    else
      var rest := SplitLines(s[1..]);
      if s[0] == '\n' then [""] + rest
      else [[s[0]] + rest[0]] + rest[1..]
  }

  /** Joining the lines with '\n' gives the text back. */
  lemma {:induction false} SplitLinesJoin(s: string)
    ensures Join("\n", SplitLines(s)) == s
  {
    if |s| > 0 {
      var rest := SplitLines(s[1..]);
      SplitLinesJoin(s[1..]);
      if s[0] == '\n' {
        assert ([""] + rest)[1..] == rest;
      } else {
        var r := [[s[0]] + rest[0]] + rest[1..];
        assert r[1..] == rest[1..];
        assert s == [s[0]] + s[1..];
      }
    }
  }

  // ---------------------------------------------------------------------
  // Step 3: lines that carry the unit marker  k \s* w \s* h  (any case)
  // ---------------------------------------------------------------------

  /** Case-insensitive 'k' in Python's re: k, K and the Kelvin sign. */
  predicate IsK(c: char) { c == 'k' || c == 'K' || c == '\U{212A}' }

  predicate IsW(c: char) { c == 'w' || c == 'W' }

  predicate IsH(c: char) { c == 'h' || c == 'H' }

  /** The marker pattern matches at i. */
  predicate MarkerAt(s: string, i: nat) {
    && i < |s| && IsK(s[i])
    && var j := SkipSpaces(s, i + 1);
    && j < |s| && IsW(s[j])
    && var m := SkipSpaces(s, j + 1);
    && m < |s| && IsH(s[m])
  }

  /** re.search of the marker pattern from position i on. */
  function HasMarkerFrom(s: string, i: nat): (b: bool)
    requires i <= |s|
    ensures b <==> exists k :: i <= k < |s| && MarkerAt(s, k)
    decreases |s| - i
  {
    if i == |s| then false else MarkerAt(s, i) || HasMarkerFrom(s, i + 1)
  }

  predicate HasMarker(line: string) {
    HasMarkerFrom(line, 0)
  }

  /** The list comprehension keeping the marked lines, in order. */
  function MarkedLines(lines: seq<string>): (r: seq<string>)
    ensures |r| <= |lines|
    ensures forall k :: 0 <= k < |r| ==> HasMarker(r[k])
    ensures forall k :: 0 <= k < |lines| && HasMarker(lines[k]) ==> lines[k] in r
    ensures forall k :: 0 <= k < |r| ==> r[k] in lines
  {
    if |lines| == 0 then []
    else
      var init := MarkedLines(lines[..|lines| - 1]);
      var last := lines[|lines| - 1];
      assert forall k :: 0 <= k < |lines| - 1 ==> lines[k] == lines[..|lines| - 1][k];
      if HasMarker(last) then init + [last] else init
  }

  /** The filter works line by line: one line is kept exactly when it is marked. */
  lemma MarkedLinesOne(line: string)
    ensures MarkedLines([line]) == (if HasMarker(line) then [line] else [])
  {
    assert [line][..0] == [];
  }

  /** The filter keeps the marked lines of each part, in their order. */
  lemma {:induction false} MarkedLinesConcat(a: seq<string>, b: seq<string>)
    ensures MarkedLines(a + b) == MarkedLines(a) + MarkedLines(b)
    decreases |b|
  {
    if |b| == 0 {
      assert a + b == a;
    } else {
      var b' := b[..|b| - 1];
      assert (a + b)[..|a + b| - 1] == a + b';
      MarkedLinesConcat(a, b');
      assert b[..|b| - 1] == b';
    }
  }

  // ---------------------------------------------------------------------
  // Step 4: the number run before the marker
  //   ([\d\s,\.]+)\s*[\(\[（]?\s*k\s*[wW]\s*[hH]\s*[\)\]）]?
  // ---------------------------------------------------------------------

  predicate IsRunChar(c: char) {
    IsDigit(c) || IsSpace(c) || c == ',' || c == '.'
  }

  predicate IsOpenBracket(c: char) {
    c == '(' || c == '[' || c == '\U{FF08}'
  }

  /** The part of the pattern after the group matches at q: optional spaces,
      an optional opening bracket, optional spaces, then the marker (the
      closing bracket is optional, so it never decides a match). */
  predicate TailMatches(s: string, q: nat)
    requires q <= |s|
  {
    var j := SkipSpaces(s, q);
    if j < |s| && IsOpenBracket(s[j]) then MarkerAt(s, SkipSpaces(s, j + 1)) else MarkerAt(s, j)
  }

  /** End of the maximal run of run characters starting at p. */
  function RunEnd(s: string, p: nat): (e: nat)
    requires p <= |s|
    ensures p <= e <= |s|
    ensures forall k :: p <= k < e ==> IsRunChar(s[k])
    ensures e < |s| ==> !IsRunChar(s[e])
    decreases |s| - p
  {
    if p == |s| || !IsRunChar(s[p]) then p else RunEnd(s, p + 1)
  }

  /** The regex, as a relation: a match starts at p and captures s[p..q]. */
  ghost predicate GroupMatch(s: string, p: int, q: int) {
    && 0 <= p < q <= |s|
    && (forall k :: p <= k < q ==> IsRunChar(s[k]))
    && TailMatches(s, q)
  }

  /** The search tries position p: the run starting there is followed by the marker. */
  predicate MatchAt(s: string, p: nat) {
    p < |s| && IsRunChar(s[p]) && TailMatches(s, RunEnd(s, p))
  }

  /** The first position from p on where the pattern matches, or |s|. */
  function FirstMatchFrom(s: string, p: nat): (i: nat)
    requires p <= |s|
    ensures p <= i <= |s|
    ensures i < |s| ==> MatchAt(s, i)
    decreases |s| - p
  {
    if p == |s| || MatchAt(s, p) then p else FirstMatchFrom(s, p + 1)
  }

  /** match.group(1) of re.search on the line, or None without a match: the
      whole run at the first matching position. */
  function Capture(line: string): Option<string> {
    var i := FirstMatchFrom(line, 0);
    if i == |line| then None else Some(line[i..RunEnd(line, i)])
  }

  /** Greediness: any match at p can be extended to the end of the run, and
      no match at p captures past it, so the regex engine's first (longest)
      choice for the group is the whole run. */
  lemma GroupMatchExtends(s: string, p: nat, q: nat)
    requires GroupMatch(s, p, q)
    ensures q <= RunEnd(s, p)
    ensures GroupMatch(s, p, RunEnd(s, p))
  {
    var e := RunEnd(s, p);
    var j := SkipSpaces(s, q);
    assert j < |s| && (IsOpenBracket(s[j]) || IsK(s[j]));
    SkipSpacesFromInside(s, q, e);
  }

  /** A position where the search does not stop starts no match at all. */
  lemma NoGroupMatchAt(s: string, p: nat)
    requires p < |s| && !MatchAt(s, p)
    ensures forall q :: !GroupMatch(s, p, q)
  {
    forall q | GroupMatch(s, p, q) ensures false {
      GroupMatchExtends(s, p, q);
    }
  }

  /** The search passes over no position where the search would stop. */
  lemma {:induction false} FirstMatchIsLeftmost(s: string, p: nat)
    requires p <= |s|
    ensures forall i :: p <= i < FirstMatchFrom(s, p) ==> i < |s| && !MatchAt(s, i)
    decreases |s| - p
  {
    if p < |s| && !MatchAt(s, p) {
      FirstMatchIsLeftmost(s, p + 1);
    } else {
      assert FirstMatchFrom(s, p) == p;
    }
  }

  /** What a line contributes is exactly group 1 of the leftmost match of the
      number-before-marker pattern, with the longest capture the pattern allows;
      a line without a match contributes nothing. */
  lemma CaptureIsLeftmostLongest(line: string)
    ensures Capture(line).None? <==> forall i, q :: !GroupMatch(line, i, q)
    ensures Capture(line).Some? ==>
              exists i, q :: && GroupMatch(line, i, q)
                             && Capture(line).value == line[i..q]
                             && (forall i', q' :: i' < i ==> !GroupMatch(line, i', q'))
                             && (forall q' :: GroupMatch(line, i, q') ==> q' <= q)
  {
    FirstMatchIsLeftmost(line, 0);
    var i := FirstMatchFrom(line, 0);
    forall i', q' | 0 <= i' < i ensures !GroupMatch(line, i', q') {
      NoGroupMatchAt(line, i');
    }
    if i < |line| {
      var e := RunEnd(line, i);
      assert GroupMatch(line, i, e);
      forall q' | GroupMatch(line, i, q') ensures q' <= e {
        GroupMatchExtends(line, i, q');
      }
    }
  }

  // ---------------------------------------------------------------------
  // Step 5: from the captured run to a number
  // ---------------------------------------------------------------------

  /** re.sub(r',\s+', ',', s), read left to right: whitespace right after a
      comma (or after whitespace that followed one) is dropped. */
  function CollapseCommaSpaces(s: string, afterComma: bool := false): string {
    if |s| == 0 then ""
    else if afterComma && IsSpace(s[0]) then CollapseCommaSpaces(s[1..], true)
    else [s[0]] + CollapseCommaSpaces(s[1..], s[0] == ',')
  }

  /** re.sub(r'[^\d,]', '', s) */
  function KeepDigitsAndCommas(s: string): (r: string)
    ensures forall k :: 0 <= k < |r| ==> IsDigit(r[k]) || r[k] == ','
  {
    if |s| == 0 then ""
    else (if IsDigit(s[0]) || s[0] == ',' then [s[0]] else "") + KeepDigitsAndCommas(s[1..])
  }

  /** The cleaning chain applied to the captured run: strip, drop spaces,
      collapse "comma + whitespace", keep digits and commas, drop commas. */
  function CleanCapture(raw: string): (r: string)
    ensures AllDigits(r)
  {
    RemoveCommasLeavesDigits(KeepDigitsAndCommas(CollapseCommaSpaces(RemoveChar(Strip(raw), ' '))));
    RemoveChar(KeepDigitsAndCommas(CollapseCommaSpaces(RemoveChar(Strip(raw), ' '))), ',')
  }

  lemma {:induction false} RemoveCharKeepsDigits(s: string, c: char)
    requires !IsDigit(c)
    ensures DigitsOf(RemoveChar(s, c)) == DigitsOf(s)
  {
    if |s| > 0 {
      RemoveCharKeepsDigits(s[1..], c);
      DigitsOfConcat(if s[0] == c then "" else [s[0]], RemoveChar(s[1..], c));
    }
  }

  lemma {:induction false} CollapseKeepsDigits(s: string, afterComma: bool)
    ensures DigitsOf(CollapseCommaSpaces(s, afterComma)) == DigitsOf(s)
  {
    if |s| > 0 {
      CollapseKeepsDigits(s[1..], if afterComma && IsSpace(s[0]) then true else s[0] == ',');
      if !(afterComma && IsSpace(s[0])) {
        DigitsOfConcat([s[0]], CollapseCommaSpaces(s[1..], s[0] == ','));
      }
    }
  }

  lemma {:induction false} KeepDigitsAndCommasKeepsDigits(s: string)
    ensures DigitsOf(KeepDigitsAndCommas(s)) == DigitsOf(s)
  {
    if |s| > 0 {
      KeepDigitsAndCommasKeepsDigits(s[1..]);
      DigitsOfConcat(if IsDigit(s[0]) || s[0] == ',' then [s[0]] else "", KeepDigitsAndCommas(s[1..]));
    }
  }

  /** Dropping the commas of a string of digits and commas leaves only digits. */
  lemma {:induction false} RemoveCommasLeavesDigits(s: string)
    requires forall k :: 0 <= k < |s| ==> IsDigit(s[k]) || s[k] == ','
    ensures AllDigits(RemoveChar(s, ','))
  {
    if |s| > 0 {
      RemoveCommasLeavesDigits(s[1..]);
    }
  }

  /** The cleaning chain keeps exactly the digits of the run, in order:
      "207,624" gives "207624", "14, 662" gives "14662". */
  lemma CleanCaptureIsDigits(raw: string)
    ensures CleanCapture(raw) == DigitsOf(raw)
  {
    var a := Strip(raw);
    var b := RemoveChar(a, ' ');
    var c := CollapseCommaSpaces(b);
    var d := KeepDigitsAndCommas(c);
    StripKeepsDigits(raw);
    RemoveCharKeepsDigits(a, ' ');
    CollapseKeepsDigits(b, false);
    KeepDigitsAndCommasKeepsDigits(c);
    RemoveCharKeepsDigits(d, ',');
    DigitsOfAllDigits(CleanCapture(raw));
  }

  // ---------------------------------------------------------------------
  // Steps 6 and 7: threshold and maximum
  // ---------------------------------------------------------------------

  /** The value a marked line appends to the candidate list, if any: none
      without a match, none for a run without digits, none when int()
      refuses the digit string, none below the threshold. */
  function Candidate(line: string): (v: Option<nat>)
    ensures v.Some? ==> v.value >= MinReading
  {
    match Capture(line)
    case None => None
    case Some(raw) =>
      var digits := CleanCapture(raw);
      if digits == "" || |digits| > IntMaxStrDigits then None
      else
        var n := DecimalValue(digits);
        if n < MinReading then None else Some(n)
  }

  /** all_nums after the loop over the given lines. */
  function Candidates(lines: seq<string>): (r: seq<nat>)
    ensures |r| <= |lines|
  {
    if |lines| == 0 then []
    else Candidates(lines[..|lines| - 1]) + Contribution(lines[|lines| - 1])
  }

  /** What one line appends to all_nums. */
  function Contribution(line: string): (r: seq<nat>)
    ensures |r| <= 1
    ensures forall v :: v in r <==> Candidate(line) == Some(v)
  {
    match Candidate(line)
    case Some(v) => [v]
    case None => []
  }

  /** The marked lines of a text, after width folding and line splitting. */
  function KwhLines(text: string): seq<string> {
    MarkedLines(SplitLines(NormalizeNewlines(NormalizeWidth(text))))
  }

  function SeqMax(s: seq<nat>): (m: nat)
    requires |s| > 0
    ensures m in s
    ensures forall k :: 0 <= k < |s| ==> s[k] <= m
  {
    if |s| == 1 then s[0]
    else
      var m := SeqMax(s[..|s| - 1]);
      assert forall k :: 0 <= k < |s| - 1 ==> s[k] == s[..|s| - 1][k];
      if m < s[|s| - 1] then s[|s| - 1] else m
  }

  /** The extractor's result: "" when nothing qualifies, otherwise str() of
      the largest candidate. */
  function ExtractKwh(text: string): string {
    var cs := Candidates(KwhLines(text));
    if cs == [] then "" else NatToString(SeqMax(cs))
  }

  /** One more line extends the candidate list by what that line yields. */
  lemma CandidatesStep(lines: seq<string>, i: nat)
    requires i < |lines|
    ensures Candidates(lines[..i + 1]) == Candidates(lines[..i]) + Contribution(lines[i])
  {
    assert lines[..i + 1][..i] == lines[..i];
  }

  /** _extract_kwh_from_text: the loop that fills all_nums, then the maximum. */
  method ExtractKwhFromText(text: string) returns (r: string)
    ensures r == ExtractKwh(text)
  {
    var normalized := NormalizeNewlines(NormalizeWidth(text));
    var lines := SplitLines(normalized);
    var kwhLines := MarkedLines(lines);
    var allNums: seq<nat> := [];
    for i := 0 to |kwhLines|
      invariant allNums == Candidates(kwhLines[..i])
    {
      var line := kwhLines[i];
      CandidatesStep(kwhLines, i);
      var found := Capture(line);
      if found.None? {
        continue;
      }
      var raw := Strip(found.value);
      var rawNoSpace := RemoveChar(raw, ' ');
      var rawNormalized := CollapseCommaSpaces(rawNoSpace);
      var cleaned := KeepDigitsAndCommas(rawNormalized);
      var finalNum := RemoveChar(cleaned, ',');
      assert finalNum == CleanCapture(found.value);
      if finalNum == "" {
        continue;
      }
      if |finalNum| > IntMaxStrDigits {
        // int() raises ValueError; the handler skips the line
        continue;
      }
      var v := DecimalValue(finalNum);
      if v < MinReading {
        continue;
      }
      allNums := allNums + [v];
    }
    assert kwhLines[..|kwhLines|] == kwhLines;
    if allNums == [] {
      return "";
    }
    r := NatToString(SeqMax(allNums));
  }

  // ---------------------------------------------------------------------
  // Properties
  // ---------------------------------------------------------------------

  /** The candidates of a list of lines are exactly the values the lines yield. */
  lemma {:induction false} CandidatesMembers(lines: seq<string>, v: nat)
    ensures v in Candidates(lines) <==> exists k :: 0 <= k < |lines| && Candidate(lines[k]) == Some(v)
  {
    if |lines| > 0 {
      var n := |lines|;
      var init, last := lines[..n - 1], lines[n - 1];
      assert Candidates(lines) == Candidates(init) + Contribution(last);
      CandidatesMembers(init, v);
      if v in Candidates(lines) {
        if v in Candidates(init) {
          var k :| 0 <= k < |init| && Candidate(init[k]) == Some(v);
          assert lines[k] == init[k];
        } else {
          assert Candidate(lines[n - 1]) == Some(v);
        }
      } else {
        forall k | 0 <= k < n ensures Candidate(lines[k]) != Some(v) {
          if k < n - 1 {
            assert lines[k] == init[k];
          }
        }
      }
    }
  }

  /** Every candidate passed the threshold. */
  lemma {:induction false} CandidatesAtLeastMin(lines: seq<string>)
    ensures forall k :: 0 <= k < |Candidates(lines)| ==> Candidates(lines)[k] >= MinReading
  {
    if |lines| > 0 {
      CandidatesAtLeastMin(lines[..|lines| - 1]);
    }
  }

  /** The result is "" exactly when no marked line yields a value. */
  lemma ExtractKwhEmptyIff(text: string)
    ensures ExtractKwh(text) == "" <==>
              forall k :: 0 <= k < |KwhLines(text)| ==> Candidate(KwhLines(text)[k]).None?
  {
    var ls := KwhLines(text);
    if Candidates(ls) == [] {
      forall k | 0 <= k < |ls| ensures Candidate(ls[k]).None? {
        if Candidate(ls[k]).Some? {
          CandidatesMembers(ls, Candidate(ls[k]).value);
        }
      }
    } else {
      CandidatesMembers(ls, Candidates(ls)[0]);
    }
  }

  /** A non-empty result is the canonical numeral, at least four digits long,
      of a value some marked line yields, and no marked line yields more. */
  lemma ExtractKwhIsLargestCandidate(text: string)
    ensures var r := ExtractKwh(text);
      r != "" ==>
        && IsCanonicalNumeral(r)
        && |r| >= 4
        && DecimalValue(r) >= MinReading
        && (exists k :: 0 <= k < |KwhLines(text)| && Candidate(KwhLines(text)[k]) == Some(DecimalValue(r)))
        && (forall k :: 0 <= k < |KwhLines(text)| && Candidate(KwhLines(text)[k]).Some? ==>
                          Candidate(KwhLines(text)[k]).value <= DecimalValue(r))
  {
    var ls := KwhLines(text);
    var cs := Candidates(ls);
    if cs == [] {
      return;
    }
    var m := SeqMax(cs);
    assert ExtractKwh(text) == NatToString(m);
    CandidatesAtLeastMin(ls);
    DecimalOfNatToString(m);
    NatToStringLength(m);
    CandidatesMembers(ls, m);
    forall k | 0 <= k < |ls| && Candidate(ls[k]).Some?
      ensures Candidate(ls[k]).value <= m
    {
      CandidatesMembers(ls, Candidate(ls[k]).value);
    }
  }

  /** Writing some full-width characters of the table in their half-width
      form instead never changes the result. */
  lemma ExtractKwhWidthInvariant(s: string, t: string)
    requires |s| == |t|
    requires forall k :: 0 <= k < |s| ==> t[k] == s[k] || t[k] == FoldWidth(s[k])
    ensures ExtractKwh(s) == ExtractKwh(t)
  {
    forall k | 0 <= k < |s| ensures NormalizeWidth(s)[k] == NormalizeWidth(t)[k] {
      FoldWidthIdempotent(s[k]);
    }
    assert NormalizeWidth(s) == NormalizeWidth(t);
    assert KwhLines(s) == KwhLines(t);
  }

  lemma FoldWidthIdempotent(c: char)
    ensures FoldWidth(FoldWidth(c)) == FoldWidth(c)
  {
  }

  /** Folding is idempotent, so translating first changes nothing either. */
  lemma ExtractKwhOfNormalized(s: string)
    ensures ExtractKwh(NormalizeWidth(s)) == ExtractKwh(s)
  {
    ExtractKwhWidthInvariant(s, NormalizeWidth(s));
  }

  // ---------------------------------------------------------------------
  // A worked example: a usage line with a comma and full-width brackets
  // ---------------------------------------------------------------------

  /** "Usage 2,915 (kWh)" as an invoice prints it, the brackets full width. */
  const UsageLine: string := "ご使用量 2,915（kWh）"

  /** Text without line feeds is one line. */
  lemma {:induction false} SplitLinesWithoutNewline(s: string)
    requires '\n' !in s
    ensures SplitLines(s) == [s]
  {
    if |s| > 0 {
      assert '\n' !in s[1..];
      SplitLinesWithoutNewline(s[1..]);
      assert [s[0]] + s[1..] == s;
    }
  }

  /** A line whose first four characters cannot start a run, followed by a
      space, the digits "2,915", a full-width bracket and "kWh": the run
      captured is the space and the digits. */
  lemma CaptureOfUsageShape(s: string)
    requires |s| == 15
    requires !IsRunChar(s[0]) && !IsRunChar(s[1]) && !IsRunChar(s[2]) && !IsRunChar(s[3])
    requires s[4] == ' ' && s[5] == '2' && s[6] == ',' && s[7] == '9' && s[8] == '1' && s[9] == '5'
    requires s[10] == '\U{FF08}' && s[11] == 'k' && s[12] == 'W' && s[13] == 'h' && s[14] == '\U{FF09}'
    ensures Capture(s) == Some(" 2,915")
  {
    assert s[4..10] == " 2,915";
    assert RunEnd(s, 10) == 10;
    assert RunEnd(s, 9) == 10;
    assert RunEnd(s, 8) == 10;
    assert RunEnd(s, 7) == 10;
    assert RunEnd(s, 6) == 10;
    assert RunEnd(s, 5) == 10;
    assert RunEnd(s, 4) == 10;
    assert SkipSpaces(s, 10) == 10;
    assert SkipSpaces(s, 11) == 11;
    assert SkipSpaces(s, 12) == 12;
    assert SkipSpaces(s, 13) == 13;
    assert MarkerAt(s, 11);
    assert MatchAt(s, 4);
    assert FirstMatchFrom(s, 4) == 4;
    assert FirstMatchFrom(s, 3) == 4;
    assert FirstMatchFrom(s, 2) == 4;
    assert FirstMatchFrom(s, 1) == 4;
  }

  /** A marked line that the translation table and the newline handling
      leave alone is the text's only marked line. */
  lemma KwhLinesOfPlainLine(s: string)
    requires forall k :: 0 <= k < |s| ==> FoldWidth(s[k]) == s[k] && s[k] != '\r' && s[k] != '\n'
    requires HasMarker(s)
    ensures KwhLines(s) == [s]
  {
    assert NormalizeWidth(s) == s;
    NormalizeNewlinesWithoutCr(s);
    SplitLinesWithoutNewline(s);
    assert MarkedLines([s]) == [s] by {
      assert [s][..0] == [];
    }
  }

  /** The line is its own only line, and it carries the marker. */
  lemma UsageLineLines()
    ensures KwhLines(UsageLine) == [UsageLine]
  {
    var s := UsageLine;
    assert forall k :: 0 <= k < |s| ==> FoldWidth(s[k]) == s[k] && s[k] != '\r' && s[k] != '\n';
    assert s[11] == 'k' && s[12] == 'W' && s[13] == 'h';
    assert SkipSpaces(s, 12) == 12 && SkipSpaces(s, 13) == 13;
    assert MarkerAt(s, 11);
    KwhLinesOfPlainLine(s);
  }

  /** The leftmost match starts at the space before the digits; the run
      stops at the full-width bracket. */
  lemma UsageLineCapture()
    ensures Capture(UsageLine) == Some(" 2,915")
  {
    var s := UsageLine;
    assert s[0] == 'ご' && s[1] == '使' && s[2] == '用' && s[3] == '量';
    CaptureOfUsageShape(s);
  }

  /** The digits of the captured run. */
  lemma UsageRunDigits()
    ensures DigitsOf(" 2,915") == "2915"
  {
  }

  /** str(2915) */
  lemma UsageNumeral()
    ensures NatToString(2915) == "2915"
  {
  }

  /** A line whose captured run holds the digits of str(v), for v at or
      above the threshold, yields v. */
  lemma CandidateOfRun(line: string, raw: string, v: nat)
    requires Capture(line) == Some(raw) && DigitsOf(raw) == NatToString(v)
    requires MinReading <= v && |NatToString(v)| <= IntMaxStrDigits
    ensures Candidate(line) == Some(v)
  {
    CleanCaptureIsDigits(raw);
    DecimalOfNatToString(v);
  }

  /** The usage line yields 2915. */
  lemma UsageLineCandidate()
    ensures Candidate(UsageLine) == Some(2915)
  {
    UsageLineCapture();
    UsageRunDigits();
    UsageNumeral();
    CandidateOfRun(UsageLine, " 2,915", 2915);
  }

  /** A text whose only marked line yields v gives str(v). */
  lemma ExtractKwhOfOneLine(text: string, line: string, v: nat)
    requires KwhLines(text) == [line] && Candidate(line) == Some(v)
    ensures ExtractKwh(text) == NatToString(v)
  {
  }

  /** The extractor reads 2915 kWh from the line. */
  lemma UsageLineExample()
    ensures ExtractKwh(UsageLine) == "2915"
  {
    UsageLineLines();
    UsageLineCandidate();
    ExtractKwhOfOneLine(UsageLine, UsageLine, 2915);
    UsageNumeral();
  }
}

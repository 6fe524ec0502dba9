/** The multi-month mode: a document of 12, 24 or 36 pages is cut into
    page texts, grouped into twelve runs of consecutive pages, and each
    group's usage reading is filed under the month it belongs to, counting
    from a start month forward or backward. */
module MultiMonth {
  import opened Strings
  import opened Months
  import opened KwhExtractor
  import opened Invoices
  import opened Recognition

  // ---------------------------------------------------------------------
  // Page texts
  // ---------------------------------------------------------------------

  /** A slice index as Python resolves it: negative counts from the end,
      then clamped into 0..n. */
  function SliceIndex(i: int, n: nat): (j: nat)
    ensures j <= n
    ensures 0 <= i <= n ==> j == i
  {
    if i < 0 then (if i + n < 0 then 0 else i + n) else if i > n then n else i
  }

  /** s[start:end] in Python: never fails, empty when the resolved bounds cross. */
  function PySlice(s: string, start: int, end: int): (r: string)
    ensures |r| <= |s|
    ensures 0 <= start <= end <= |s| ==> r == s[start..end]
    ensures end <= start && (start < 0 <==> end < 0) ==> r == ""
  {
    var b, e := SliceIndex(start, |s|), SliceIndex(end, |s|);
    if b < e then s[b..e] else ""
  }

  /** A page's text: the content under its first span, or "" without spans. */
  function PageText(content: string, page: Page): string {
    if |page.spans| > 0 then
      var span := page.spans[0];
      PySlice(content, span.offset, span.offset + span.length)
    else ""
  }

  /** The loop collecting one text per page, in page order. */
  method CollectPageTexts(content: string, pages: seq<Page>) returns (texts: seq<string>)
    ensures |texts| == |pages|
    ensures forall i :: 0 <= i < |pages| ==> texts[i] == PageText(content, pages[i])
  {
    texts := [];
    for i := 0 to |pages|
      invariant |texts| == i
      invariant forall k :: 0 <= k < i ==> texts[k] == PageText(content, pages[k])
    {
      var page := pages[i];
      if |page.spans| > 0 {
        var span := page.spans[0];
        var start := span.offset;
        var end := span.offset + span.length;
        texts := texts + [PySlice(content, start, end)];
      } else {
        texts := texts + [""];
      }
    }
  }

  function PageTexts(content: string, pages: seq<Page>): (r: seq<string>)
    ensures |r| == |pages|
    ensures forall i :: 0 <= i < |pages| ==> r[i] == PageText(content, pages[i])
  {
    seq(|pages|, i requires 0 <= i < |pages| => PageText(content, pages[i]))
  }

  // ---------------------------------------------------------------------
  // Grouping and month keys
  // ---------------------------------------------------------------------

  predicate ValidPageCount(n: int) {
    n == 12 || n == 24 || n == 36
  }

  /** Pages per month: 1, 2 or 3. */
  function PagesPerMonth(n: nat): (k: nat)
    requires ValidPageCount(n)
    ensures 1 <= k <= 3 && 12 * k == n
  {
    n / 12
  }

  /** The text of group i: its pages joined by line feeds. */
  function GroupText(texts: seq<string>, i: nat): string
    requires ValidPageCount(|texts|) && i < 12
  {
    var k := PagesPerMonth(|texts|);
    assert (i + 1) * k <= 12 * k;
    Join("\n", texts[i * k..(i + 1) * k])
  }

  /** The field key of a month: "<month>月値". */
  function MonthKey(month: int): string {
    IntToString(month) + MonthKeySuffix
  }

  /** What the extractor finds in each of the twelve groups. */
  function GroupReadings(texts: seq<string>): (r: seq<string>)
    requires ValidPageCount(|texts|)
    ensures |r| == 12
    ensures forall i :: 0 <= i < 12 ==> r[i] == ExtractKwh(GroupText(texts, i))
  {
    seq(12, i requires 0 <= i < 12 => ExtractKwh(GroupText(texts, i)))
  }

  /** The fields after n turns of the labelling loop: the confidence, then
      for each group before n a reading under its month's key when the
      extractor found one. */
  function MonthFields(readings: seq<string>, start: int, descending: bool, confidence: real, n: nat)
    : map<string, FieldValue>
    requires n <= |readings|
  {
    if n == 0 then map[ConfidenceKey := Confidence(confidence)]
    else
      var fields := MonthFields(readings, start, descending, confidence, n - 1);
      var kwh := readings[n - 1];
      if kwh != "" then fields[MonthKey(StepMonth(start, n - 1, descending)) := Reading(kwh)] else fields
  }

  /** Group i is the slice of pages from i*k up to i*k + k, inside the document. */
  lemma GroupSlice(texts: seq<string>, i: nat, startIdx: int, endIdx: int)
    requires ValidPageCount(|texts|) && i < 12
    requires startIdx == i * (|texts| / 12) && endIdx == startIdx + |texts| / 12
    ensures 0 <= startIdx <= endIdx <= |texts|
    ensures Join("\n", texts[startIdx..endIdx]) == GroupText(texts, i)
  {
    var k := PagesPerMonth(|texts|);
    assert (i + 1) * k <= 12 * k;
    assert endIdx == (i + 1) * k;
  }

  /** One turn of the labelling loop files group i's reading, if any, and
      moves on to the next month. */
  lemma MonthFieldsStep(readings: seq<string>, start: int, descending: bool, confidence: real, i: nat)
    requires i < |readings|
    ensures MonthFields(readings, start, descending, confidence, i + 1)
            == if readings[i] != "" then
                 MonthFields(readings, start, descending, confidence, i)[MonthKey(StepMonth(start, i, descending))
                                                                        := Reading(readings[i])]
               else MonthFields(readings, start, descending, confidence, i)
    ensures StepMonth(start, i + 1, descending)
            == if descending then PrevMonth(StepMonth(start, i, descending)) else NextMonth(StepMonth(start, i, descending))
  {
  }

  /** The labelling loop: twelve groups, the month stepped after each. */
  method AssignMonths(texts: seq<string>, start: int, monthOrder: string, confidence: real)
    returns (fields: map<string, FieldValue>)
    requires ValidPageCount(|texts|)
    ensures fields == MonthFields(GroupReadings(texts), start, IsDescending(monthOrder), confidence, 12)
  {
    ghost var readings := GroupReadings(texts);
    ghost var descending := IsDescending(monthOrder);
    var pagesPerMonth := |texts| / 12;
    fields := map[ConfidenceKey := Confidence(confidence)];
    var currentMonth := start;
    for i := 0 to 12
      invariant currentMonth == StepMonth(start, i, descending)
      invariant fields == MonthFields(readings, start, descending, confidence, i)
    {
      var startIdx := i * pagesPerMonth;
      var endIdx := startIdx + pagesPerMonth;
      GroupSlice(texts, i, startIdx, endIdx);
      var monthText := Join("\n", texts[startIdx..endIdx]);
      var kwhValue := ExtractKwhFromText(monthText);
      MonthFieldsStep(readings, start, descending, confidence, i);
      if kwhValue != "" {
        fields := fields[MonthKey(currentMonth) := Reading(kwhValue)];
      }
      if monthOrder == "descending" {
        currentMonth := PrevMonth(currentMonth);
      } else {
        currentMonth := NextMonth(currentMonth);
      }
    }
  }

  /** _analyze_multi after recognition: no text is an error, a page count
      other than 12, 24 or 36 is an error naming the count, otherwise the
      month fields and the page texts joined by line feeds. */
  function MultiInvoice(result: AnalyzeResult, start: int, monthOrder: string): Result<Invoice, OcrError> {
    var content := if result.content.Some? then result.content.value else "";
    if Strip(content) == "" then Err(NoText)
    else
      var texts := PageTexts(content, result.pages);
      if !ValidPageCount(|texts|) then Err(PageCountMismatch(|texts|))
      else
        var fields := MonthFields(GroupReadings(texts), start, IsDescending(monthOrder),
                                  AverageConfidence(result.pages), 12);
        Ok(Invoice(fields, Join("\n", texts)))
  }

  // ---------------------------------------------------------------------
  // Properties
  // ---------------------------------------------------------------------

  /** A month key starts with a digit or a minus sign, so it is never the confidence key. */
  lemma MonthKeyIsNotConfidenceKey(month: int)
    ensures MonthKey(month) != ConfidenceKey
  {
    var key := MonthKey(month);
    assert key[0] == IntToString(month)[0];
    assert ConfidenceKey[0] == 'o';
  }

  /** Different months have different keys. */
  lemma MonthKeyInjective(m: int, n: int)
    requires MonthKey(m) == MonthKey(n)
    ensures m == n
  {
    var a, b := IntToString(m), IntToString(n);
    assert |a| == |b|;
    assert a == MonthKey(m)[..|a|] == MonthKey(n)[..|b|] == b;
    if m < 0 && n < 0 {
      assert a[1..] == NatToString(-m) && b[1..] == NatToString(-n);
      NatToStringInjective(-m, -n);
    } else if m >= 0 && n >= 0 {
      NatToStringInjective(m, n);
    }
  }

  /** The key of group i's month. */
  function GroupKey(start: int, descending: bool, i: nat): string {
    MonthKey(StepMonth(start, i, descending))
  }

  /** For a start month on the calendar, the keys of different groups differ. */
  lemma GroupKeysDistinct(start: int, descending: bool, i: nat, j: nat)
    requires 1 <= start <= 12 && i < j < 12
    ensures GroupKey(start, descending, i) != GroupKey(start, descending, j)
  {
    StepMonthsDistinct(start, i, j, descending);
    if GroupKey(start, descending, i) == GroupKey(start, descending, j) {
      MonthKeyInjective(StepMonth(start, i, descending), StepMonth(start, j, descending));
    }
  }

  /** Only the confidence key and the keys of the groups seen so far are filed. */
  lemma {:induction false} MonthFieldsKeys(readings: seq<string>, start: int, descending: bool,
                                           confidence: real, n: nat, key: string)
    requires n <= |readings|
    requires key in MonthFields(readings, start, descending, confidence, n)
    ensures key == ConfidenceKey || exists i :: 0 <= i < n && key == GroupKey(start, descending, i)
  {
    if n > 0 && key != GroupKey(start, descending, n - 1) {
      MonthFieldsKeys(readings, start, descending, confidence, n - 1, key);
    }
  }

  /** The confidence is filed from the start and never overwritten. */
  lemma {:induction false} MonthFieldsConfidence(readings: seq<string>, start: int, descending: bool,
                                                 confidence: real, n: nat)
    requires n <= |readings|
    ensures var fields := MonthFields(readings, start, descending, confidence, n);
      ConfidenceKey in fields && fields[ConfidenceKey] == Confidence(confidence)
  {
    if n > 0 {
      MonthFieldsConfidence(readings, start, descending, confidence, n - 1);
      MonthKeyIsNotConfidenceKey(StepMonth(start, n - 1, descending));
    }
  }

  /** Group i's reading is filed under its key exactly when the extractor
      found one, and later groups leave it alone. */
  lemma {:induction false} MonthFieldsGroup(readings: seq<string>, start: int, descending: bool,
                                            confidence: real, n: nat, i: nat)
    requires i < n <= |readings| <= 12 && 1 <= start <= 12
    ensures var fields := MonthFields(readings, start, descending, confidence, n);
      var kwh := readings[i];
      && (GroupKey(start, descending, i) in fields <==> kwh != "")
      && (kwh != "" ==> fields[GroupKey(start, descending, i)] == Reading(kwh))
  {
    var key := GroupKey(start, descending, i);
    if i < n - 1 {
      GroupKeysDistinct(start, descending, i, n - 1);
      MonthFieldsGroup(readings, start, descending, confidence, n - 1, i);
    } else if key in MonthFields(readings, start, descending, confidence, n - 1) {
      MonthKeyIsNotConfidenceKey(StepMonth(start, i, descending));
      MonthFieldsKeys(readings, start, descending, confidence, n - 1, key);
      var j :| 0 <= j < n - 1 && key == GroupKey(start, descending, j);
      GroupKeysDistinct(start, descending, j, i);
    }
  }

  /** The meaning of the labelling loop, for a start month on the calendar:
      the confidence is always filed; group i's reading is filed under its
      month's key exactly when the extractor found one; nothing else is filed. */
  lemma MonthFieldsMeaning(readings: seq<string>, start: int, descending: bool, confidence: real)
    requires |readings| == 12 && 1 <= start <= 12
    ensures var fields := MonthFields(readings, start, descending, confidence, 12);
      && ConfidenceKey in fields && fields[ConfidenceKey] == Confidence(confidence)
      && (forall i :: 0 <= i < 12 ==>
            (GroupKey(start, descending, i) in fields <==> readings[i] != ""))
      && (forall i :: 0 <= i < 12 && GroupKey(start, descending, i) in fields ==>
            fields[GroupKey(start, descending, i)] == Reading(readings[i]))
      && (forall key :: key in fields ==>
            key == ConfidenceKey || exists i :: 0 <= i < 12 && key == GroupKey(start, descending, i))
  {
    var fields := MonthFields(readings, start, descending, confidence, 12);
    MonthFieldsConfidence(readings, start, descending, confidence, 12);
    forall i | 0 <= i < 12
      ensures GroupKey(start, descending, i) in fields <==> readings[i] != ""
      ensures GroupKey(start, descending, i) in fields ==>
                fields[GroupKey(start, descending, i)] == Reading(readings[i])
    {
      MonthFieldsGroup(readings, start, descending, confidence, 12, i);
    }
    forall key | key in fields
      ensures key == ConfidenceKey || exists i :: 0 <= i < 12 && key == GroupKey(start, descending, i)
    {
      MonthFieldsKeys(readings, start, descending, confidence, 12, key);
    }
  }

  /** A document that has text but not 12, 24 or 36 pages is refused with
      its actual page count; with one of those counts it is accepted. */
  lemma MultiPageCount(result: AnalyzeResult, start: int, monthOrder: string)
    requires result.content.Some? && Strip(result.content.value) != ""
    ensures MultiInvoice(result, start, monthOrder).Err? <==> !ValidPageCount(|result.pages|)
    ensures !ValidPageCount(|result.pages|) ==>
              MultiInvoice(result, start, monthOrder) == Err(PageCountMismatch(|result.pages|))
  {
  }

  /** An accepted document's text is its page texts joined by line feeds. */
  lemma MultiRawText(result: AnalyzeResult, start: int, monthOrder: string)
    ensures MultiInvoice(result, start, monthOrder).Ok? ==>
              && result.content.Some?
              && MultiInvoice(result, start, monthOrder).value.rawText
                 == Join("\n", PageTexts(result.content.value, result.pages))
  {
  }
}

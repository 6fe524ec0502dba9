/** The recognition layer of the OCR service: the shape of an analysis
    result, what one call to the recognition service can give back, and the
    fallback policy over models and over the original and the preprocessed
    document, stated as functions of an abstract service. */
module Recognition {
  import opened Strings

  newtype byte = x: int | 0 <= x < 256

  /** The bytes of a PDF document. */
  type Bytes = seq<byte>

  /** Where a page's text sits in the full content. */
  datatype Span = Span(offset: int, length: int)

  /** A recognised word; the service may leave its confidence unset. */
  datatype Word = Word(confidence: Option<real>)

  datatype Page = Page(spans: seq<Span>, words: seq<Word>)

  /** The service's analysis of a document: the full text, if any, and its pages. */
  datatype AnalyzeResult = AnalyzeResult(content: Option<string>, pages: seq<Page>)

  /** What one recognition call gives back: a result, an HTTP error
      response, or some other exception (its type name and message). */
  datatype Response =
    | Returned(result: AnalyzeResult)
    | HttpFailure(status: int, message: string)
    | Raised(kind: string, message: string)

  /** Which document an attempt reads: the uploaded bytes or their
      preprocessed form. */
  datatype Source = Original | Preprocessed

  /** One (model, source) attempt of the fallback. */
  datatype Attempt = Attempt(model: string, source: Source)

  /** The note kept for an attempt that did not succeed. */
  datatype Diagnostic =
    | Insufficient(attempt: Attempt, chars: nat)
    | Http(attempt: Attempt, status: int, message: string)
    | Failed(attempt: Attempt, kind: string, message: string)

  /** The service's effects on the outside world, in order: recognition
      calls and runs of the preprocessing step. */
  datatype Event =
    | Analyze(attempt: Attempt, document: Bytes)
    | Preprocess(document: Bytes)

  /** A successful recognition and the label of the attempt that produced it. */
  datatype Recognized = Recognized(result: AnalyzeResult, usedModel: string)

  datatype OcrError =
    | AllModelsFailed(diagnostics: seq<Diagnostic>)
    | NoText
    | PageCountMismatch(count: int)
    | MissingStartMonth

  /** The models tried, in order. */
  const ModelsToTry: seq<string> := ["prebuilt-invoice"]

  /** A result is adequate when its stripped text is longer than this. */
  const AdequateLength: nat := 50

  /** Appended to the model id when the preprocessed document succeeded. */
  const PreprocessedSuffix: string := "(前処理)"

  /** The recognition service: the response to an attempt on a document.
      It is keyed by the attempt, so a retry may be answered differently. */
  type Oracle = (Attempt, Bytes) -> Response

  /** The image preprocessing step: the enhanced document, or None when it
      fails. */
  type Enhancer = Bytes -> Option<Bytes>

  predicate Adequate(r: Response) {
    r.Returned? && r.result.content.Some? && |Strip(r.result.content.value)| > AdequateLength
  }

  /** The length reported for an inadequate result: the unstripped text's, 0 without text. */
  function ContentLength(result: AnalyzeResult): nat {
    if result.content.Some? then |result.content.value| else 0
  }

  function DiagnosticOf(a: Attempt, r: Response): (d: Diagnostic)
    ensures d.attempt == a
  {
    match r
    case Returned(result) => Insufficient(a, ContentLength(result))
    case HttpFailure(status, message) => Http(a, status, message)
    case Raised(kind, message) => Failed(a, kind, message)
  }

  /** The model label returned with a success. */
  function UsedModel(a: Attempt): string {
    if a.source == Original then a.model else a.model + PreprocessedSuffix
  }

  /** _preprocess_pdf: the enhanced document, or the input when enhancing fails. */
  function EnhanceOrKeep(document: Bytes, enhance: Enhancer): Bytes {
    match enhance(document)
    case Some(enhanced) => enhanced
    case None => document
  }

  // ---------------------------------------------------------------------
  // The fallback policy
  // ---------------------------------------------------------------------

  /** The attempts of one round, in model order. */
  function Attempts(models: seq<string>, source: Source): (r: seq<Attempt>)
    ensures |r| == |models|
    ensures forall j :: 0 <= j < |r| ==> r[j] == Attempt(models[j], source)
  {
    seq(|models|, j requires 0 <= j < |models| => Attempt(models[j], source))
  }

  /** The responses the service would give to each attempt of a round. */
  function Responses(attempts: seq<Attempt>, document: Bytes, respond: Oracle): (rs: seq<Response>)
    ensures |rs| == |attempts|
    ensures forall j :: 0 <= j < |rs| ==> rs[j] == respond(attempts[j], document)
  {
    seq(|attempts|, j requires 0 <= j < |attempts| => respond(attempts[j], document))
  }

  /** The index of the first adequate response, or |rs| when there is none. */
  function FirstAdequate(rs: seq<Response>): (i: nat)
    ensures i <= |rs|
    ensures i < |rs| ==> Adequate(rs[i])
    ensures forall j :: 0 <= j < i ==> !Adequate(rs[j])
  {
    if |rs| == 0 then 0 else if Adequate(rs[0]) then 0 else 1 + FirstAdequate(rs[1..])
  }

  /** The calls of a round that stopped after n attempts. */
  function Calls(attempts: seq<Attempt>, document: Bytes, n: nat): (r: seq<Event>)
    requires n <= |attempts|
    ensures |r| == n
    ensures forall j :: 0 <= j < n ==> r[j] == Analyze(attempts[j], document)
  {
    seq(n, j requires 0 <= j < n => Analyze(attempts[j], document))
  }

  /** The diagnostics of the first n attempts of a round. */
  function Diagnostics(attempts: seq<Attempt>, rs: seq<Response>, n: nat): (r: seq<Diagnostic>)
    requires n <= |attempts| == |rs|
    ensures |r| == n
    ensures forall j :: 0 <= j < n ==> r[j] == DiagnosticOf(attempts[j], rs[j])
  {
    seq(n, j requires 0 <= j < n => DiagnosticOf(attempts[j], rs[j]))
  }

  /** What one round leaves behind: the success, if any, the diagnostics of
      the attempts that failed, and the calls made. */
  datatype Round = Round(found: Option<Recognized>, diagnostics: seq<Diagnostic>, calls: seq<Event>)

  /** One round: the models are tried in order on one document until one
      gives an adequate result. */
  function RunRound(models: seq<string>, source: Source, document: Bytes, respond: Oracle): Round {
    var attempts := Attempts(models, source);
    var rs := Responses(attempts, document, respond);
    var i := FirstAdequate(rs);
    if i < |models| then
      Round(Some(Recognized(rs[i].result, UsedModel(attempts[i]))),
            Diagnostics(attempts, rs, i), Calls(attempts, document, i + 1))
    else
      Round(None, Diagnostics(attempts, rs, i), Calls(attempts, document, i))
  }

  /** The outcome of a whole fallback and the calls it made. */
  datatype Run = Run(outcome: Result<Recognized, OcrError>, calls: seq<Event>)

  /** _call_azure_ocr_with_fallback: a round on the original document; if it
      finds nothing, the document is preprocessed and a second round runs on
      the result; if that finds nothing either, the error carries the
      diagnostics of both rounds. */
  function Fallback(models: seq<string>, document: Bytes, respond: Oracle, enhance: Enhancer): Run {
    var first := RunRound(models, Original, document, respond);
    if first.found.Some? then Run(Ok(first.found.value), first.calls)
    else
      var preprocessed := EnhanceOrKeep(document, enhance);
      var second := RunRound(models, Preprocessed, preprocessed, respond);
      var calls := first.calls + [Preprocess(document)] + second.calls;
      if second.found.Some? then Run(Ok(second.found.value), calls)
      else Run(Err(AllModelsFailed(first.diagnostics + second.diagnostics)), calls)
  }

  // ---------------------------------------------------------------------
  // Properties of the fallback
  // ---------------------------------------------------------------------

  /** A round succeeds exactly when some model's response is adequate, and
      then with the first such model, after exactly one call per model up
      to it. */
  lemma RunRoundFirstAdequate(models: seq<string>, source: Source, document: Bytes, respond: Oracle)
    ensures var r := RunRound(models, source, document, respond);
      && (r.found.Some? <==> exists k :: 0 <= k < |models| && Adequate(respond(Attempt(models[k], source), document)))
      && (r.found.Some? ==>
            exists i :: && 0 <= i < |models|
                        && Adequate(respond(Attempt(models[i], source), document))
                        && (forall j :: 0 <= j < i ==> !Adequate(respond(Attempt(models[j], source), document)))
                        && r.found.value == Recognized(respond(Attempt(models[i], source), document).result,
                                                       UsedModel(Attempt(models[i], source)))
                        && r.calls == Calls(Attempts(models, source), document, i + 1))
      && (r.found.None? ==> r.calls == Calls(Attempts(models, source), document, |models|))
  {
    var attempts := Attempts(models, source);
    var rs := Responses(attempts, document, respond);
    var i := FirstAdequate(rs);
    if i == |models| {
      forall k | 0 <= k < |models| ensures !Adequate(respond(Attempt(models[k], source), document)) {
        assert rs[k] == respond(Attempt(models[k], source), document);
      }
    }
  }

  /** Every success has more than 50 characters of stripped text. */
  lemma FallbackSuccessIsAdequate(models: seq<string>, document: Bytes, respond: Oracle, enhance: Enhancer)
    ensures var run := Fallback(models, document, respond, enhance);
      run.outcome.Ok? ==>
        && run.outcome.value.result.content.Some?
        && |Strip(run.outcome.value.result.content.value)| > AdequateLength
  {
    var first := RunRound(models, Original, document, respond);
    var attempts := Attempts(models, Original);
    var rs := Responses(attempts, document, respond);
    if first.found.None? {
      var pre := EnhanceOrKeep(document, enhance);
      var attempts2 := Attempts(models, Preprocessed);
      var rs2 := Responses(attempts2, pre, respond);
      assert FirstAdequate(rs2) < |models| ==> Adequate(rs2[FirstAdequate(rs2)]);
    } else {
      assert Adequate(rs[FirstAdequate(rs)]);
    }
  }

  /** The only preprocessing event of a fallback sits right after the
      first round's calls, and only when that round found nothing. */
  lemma FallbackPreprocessPosition(models: seq<string>, document: Bytes, respond: Oracle, enhance: Enhancer)
    ensures var first := RunRound(models, Original, document, respond);
      var calls := Fallback(models, document, respond, enhance).calls;
      forall j :: 0 <= j < |calls| ==> (calls[j].Preprocess? <==> first.found.None? && j == |first.calls|)
  {
    var first := RunRound(models, Original, document, respond);
    RoundMakesOnlyAnalyses(models, Original, document, respond);
    if first.found.None? {
      var pre := EnhanceOrKeep(document, enhance);
      var second := RunRound(models, Preprocessed, pre, respond);
      RoundMakesOnlyAnalyses(models, Preprocessed, pre, respond);
      PreprocessBetweenRounds(first.calls, document, second.calls);
    }
  }

  /** Between two runs of analyses, the preprocessing event is the only one. */
  lemma PreprocessBetweenRounds(a: seq<Event>, document: Bytes, b: seq<Event>)
    requires forall j :: 0 <= j < |a| ==> a[j].Analyze?
    requires forall j :: 0 <= j < |b| ==> b[j].Analyze?
    ensures var calls := a + [Preprocess(document)] + b;
      forall j :: 0 <= j < |calls| ==> (calls[j].Preprocess? <==> j == |a|)
  {
    var calls := a + [Preprocess(document)] + b;
    forall j | 0 <= j < |calls| ensures calls[j].Preprocess? <==> j == |a| {
      if j < |a| {
        assert calls[j] == a[j];
      } else if j > |a| {
        assert calls[j] == b[j - |a| - 1];
      }
    }
  }

  /** A round only calls the recognition service, on its models in order. */
  lemma RoundMakesOnlyAnalyses(models: seq<string>, source: Source, document: Bytes, respond: Oracle)
    ensures var calls := RunRound(models, source, document, respond).calls;
      && |calls| <= |models|
      && forall j :: 0 <= j < |calls| ==> calls[j] == Analyze(Attempt(models[j], source), document)
  {
  }

  /** Preprocessing runs exactly when no model is adequate on the original
      document, and then exactly once. */
  lemma FallbackPreprocessesOnlyAfterOriginalsFail(models: seq<string>, document: Bytes,
                                                  respond: Oracle, enhance: Enhancer)
    ensures var calls := Fallback(models, document, respond, enhance).calls;
      && ((exists j :: 0 <= j < |calls| && calls[j].Preprocess?) <==>
            forall k :: 0 <= k < |models| ==> !Adequate(respond(Attempt(models[k], Original), document)))
      && (forall j, j' :: 0 <= j < j' < |calls| && calls[j].Preprocess? ==> !calls[j'].Preprocess?)
  {
    var first := RunRound(models, Original, document, respond);
    var calls := Fallback(models, document, respond, enhance).calls;
    RunRoundFirstAdequate(models, Original, document, respond);
    FallbackPreprocessPosition(models, document, respond, enhance);
    if first.found.None? {
      assert calls[|first.calls|].Preprocess?;
    }
  }

  /** A total failure tried every model on both documents, in order, and
      carries exactly one diagnostic per attempt, in the order tried. */
  lemma FallbackFailureDiagnostics(models: seq<string>, document: Bytes, respond: Oracle, enhance: Enhancer)
    ensures var run := Fallback(models, document, respond, enhance);
      run.outcome.Err? ==>
        && run.outcome.error.AllModelsFailed?
        && var ds := run.outcome.error.diagnostics;
        && |ds| == 2 * |models|
        && (forall j :: 0 <= j < |models| ==> ds[j].attempt == Attempt(models[j], Original))
        && (forall j :: 0 <= j < |models| ==> ds[|models| + j].attempt == Attempt(models[j], Preprocessed))
        && |run.calls| == 2 * |models| + 1
  {
    var first := RunRound(models, Original, document, respond);
    RunRoundFirstAdequate(models, Original, document, respond);
    if first.found.None? {
      var pre := EnhanceOrKeep(document, enhance);
      var second := RunRound(models, Preprocessed, pre, respond);
      RunRoundFirstAdequate(models, Preprocessed, pre, respond);
    }
  }

  /** With distinct model ids, no (model, source) attempt is made twice. */
  lemma FallbackCallsEachAttemptOnce(models: seq<string>, document: Bytes, respond: Oracle, enhance: Enhancer)
    requires forall i, j :: 0 <= i < j < |models| ==> models[i] != models[j]
    ensures var calls := Fallback(models, document, respond, enhance).calls;
      forall i, j :: 0 <= i < j < |calls| && calls[i].Analyze? && calls[j].Analyze? ==>
                       calls[i].attempt != calls[j].attempt
  {
    var first := RunRound(models, Original, document, respond);
    RoundMakesOnlyAnalyses(models, Original, document, respond);
    if first.found.None? {
      var pre := EnhanceOrKeep(document, enhance);
      var second := RunRound(models, Preprocessed, pre, respond);
      RoundMakesOnlyAnalyses(models, Preprocessed, pre, respond);
      AttemptsDistinctAcrossRounds(models, first.calls, document, second.calls);
    }
  }

  /** Two rounds over distinct models, one on each source, with the
      preprocessing event between them, never repeat an attempt. */
  lemma AttemptsDistinctAcrossRounds(models: seq<string>, a: seq<Event>, document: Bytes, b: seq<Event>)
    requires forall i, j :: 0 <= i < j < |models| ==> models[i] != models[j]
    requires |a| <= |models| && |b| <= |models|
    requires forall j :: 0 <= j < |a| ==> a[j].Analyze? && a[j].attempt == Attempt(models[j], Original)
    requires forall j :: 0 <= j < |b| ==> b[j].Analyze? && b[j].attempt == Attempt(models[j], Preprocessed)
    ensures var calls := a + [Preprocess(document)] + b;
      forall i, j :: 0 <= i < j < |calls| && calls[i].Analyze? && calls[j].Analyze? ==>
                       calls[i].attempt != calls[j].attempt
  {
    var calls := a + [Preprocess(document)] + b;
    var n := |a|;
    forall i, j | 0 <= i < j < |calls| && calls[i].Analyze? && calls[j].Analyze?
      ensures calls[i].attempt != calls[j].attempt
    {
      if j < n {
        assert calls[i] == a[i] && calls[j] == a[j];
      } else if i < n {
        assert calls[i] == a[i] && calls[j] == b[j - n - 1];
      } else {
        assert calls[i] == b[i - n - 1] && calls[j] == b[j - n - 1];
      }
    }
  }

  /** With the service's single model, a total failure reports the original
      and then the preprocessed attempt of "prebuilt-invoice". */
  lemma ModelsToTryFailure(document: Bytes, respond: Oracle, enhance: Enhancer)
    ensures var run := Fallback(ModelsToTry, document, respond, enhance);
      run.outcome.Err? ==>
        && |run.outcome.error.diagnostics| == 2
        && run.outcome.error.diagnostics[0].attempt == Attempt("prebuilt-invoice", Original)
        && run.outcome.error.diagnostics[1].attempt == Attempt("prebuilt-invoice", Preprocessed)
  {
    FallbackFailureDiagnostics(ModelsToTry, document, respond, enhance);
  }

  // ---------------------------------------------------------------------
  // Average word confidence
  // ---------------------------------------------------------------------

  /** Sum of the confidences that are set. */
  function WordsTotal(words: seq<Word>): real {
    if |words| == 0 then 0.0
    else
      var last := words[|words| - 1];
      WordsTotal(words[..|words| - 1]) + (if last.confidence.Some? then last.confidence.value else 0.0)
  }

  /** Number of words whose confidence is set. */
  function WordsCount(words: seq<Word>): (n: nat)
    ensures n <= |words|
  {
    if |words| == 0 then 0
    else WordsCount(words[..|words| - 1]) + (if words[|words| - 1].confidence.Some? then 1 else 0)
  }

  function ConfidenceTotal(pages: seq<Page>): real {
    if |pages| == 0 then 0.0
    else ConfidenceTotal(pages[..|pages| - 1]) + WordsTotal(pages[|pages| - 1].words)
  }

  function ConfidenceCount(pages: seq<Page>): nat {
    if |pages| == 0 then 0
    else ConfidenceCount(pages[..|pages| - 1]) + WordsCount(pages[|pages| - 1].words)
  }

  /** The average confidence over all words that carry one; 0 when none does. */
  function AverageConfidence(pages: seq<Page>): real {
    var n := ConfidenceCount(pages);
    if n > 0 then ConfidenceTotal(pages) / (n as real) else 0.0
  }

  predicate HasConfidence(pages: seq<Page>) {
    exists p, w :: 0 <= p < |pages| && 0 <= w < |pages[p].words| && pages[p].words[w].confidence.Some?
  }

  predicate ConfidencesInUnitRange(pages: seq<Page>) {
    forall p, w :: 0 <= p < |pages| && 0 <= w < |pages[p].words| && pages[p].words[w].confidence.Some? ==>
                     0.0 <= pages[p].words[w].confidence.value <= 1.0
  }

  lemma {:induction false} WordsCountPositive(words: seq<Word>)
    ensures WordsCount(words) > 0 <==> exists w :: 0 <= w < |words| && words[w].confidence.Some?
  {
    if |words| > 0 {
      var init := words[..|words| - 1];
      WordsCountPositive(init);
      if exists w :: 0 <= w < |init| && init[w].confidence.Some? {
        var w :| 0 <= w < |init| && init[w].confidence.Some?;
        assert words[w] == init[w];
      }
      if exists w :: 0 <= w < |words| && words[w].confidence.Some? {
        var w :| 0 <= w < |words| && words[w].confidence.Some?;
        if w < |init| {
          assert init[w] == words[w];
        }
      }
    }
  }

  /** Words are counted exactly when some word carries a confidence. */
  lemma {:induction false} ConfidenceCountPositive(pages: seq<Page>)
    ensures ConfidenceCount(pages) > 0 <==> HasConfidence(pages)
  {
    if |pages| > 0 {
      var init := pages[..|pages| - 1];
      var last := pages[|pages| - 1];
      ConfidenceCountPositive(init);
      WordsCountPositive(last.words);
      if HasConfidence(init) {
        var p, w :| 0 <= p < |init| && 0 <= w < |init[p].words| && init[p].words[w].confidence.Some?;
        assert pages[p] == init[p];
      }
      if HasConfidence(pages) {
        var p, w :| 0 <= p < |pages| && 0 <= w < |pages[p].words| && pages[p].words[w].confidence.Some?;
        if p < |init| {
          assert init[p] == pages[p];
          assert HasConfidence(init);
        }
      }
    }
  }

  /** The zero guard: without any confidence the average is 0. */
  lemma AverageWithoutConfidenceIsZero(pages: seq<Page>)
    requires !HasConfidence(pages)
    ensures AverageConfidence(pages) == 0.0
  {
    ConfidenceCountPositive(pages);
  }

  lemma {:induction false} WordsTotalBounds(words: seq<Word>)
    requires forall w :: 0 <= w < |words| && words[w].confidence.Some? ==> 0.0 <= words[w].confidence.value <= 1.0
    ensures 0.0 <= WordsTotal(words) <= WordsCount(words) as real
  {
    if |words| > 0 {
      WordsTotalBounds(words[..|words| - 1]);
    }
  }

  lemma {:induction false} ConfidenceTotalBounds(pages: seq<Page>)
    requires ConfidencesInUnitRange(pages)
    ensures 0.0 <= ConfidenceTotal(pages) <= ConfidenceCount(pages) as real
  {
    if |pages| > 0 {
      var init := pages[..|pages| - 1];
      var last := pages[|pages| - 1];
      assert ConfidencesInUnitRange(init) by {
        forall p, w | 0 <= p < |init| && 0 <= w < |init[p].words| && init[p].words[w].confidence.Some?
          ensures 0.0 <= init[p].words[w].confidence.value <= 1.0
        {
          assert init[p] == pages[p];
        }
      }
      ConfidenceTotalBounds(init);
      WordsTotalBounds(last.words);
    }
  }

  /** Confidences between 0 and 1 average to a value between 0 and 1. */
  lemma AverageConfidenceInUnitRange(pages: seq<Page>)
    requires ConfidencesInUnitRange(pages)
    ensures 0.0 <= AverageConfidence(pages) <= 1.0
  {
    ConfidenceTotalBounds(pages);
    var n := ConfidenceCount(pages);
    if n > 0 {
      var t := ConfidenceTotal(pages);
      assert t / (n as real) <= 1.0 by {
        assert t <= n as real;
      }
    }
  }

  /** The averaging loop: a running total and count over every page's words. */
  method ComputeAverageConfidence(pages: seq<Page>) returns (average: real)
    ensures average == AverageConfidence(pages)
  {
    var total := 0.0;
    var count := 0;
    for i := 0 to |pages|
      invariant total == ConfidenceTotal(pages[..i])
      invariant count == ConfidenceCount(pages[..i])
    {
      var words := pages[i].words;
      assert pages[..i + 1][..i] == pages[..i];
      for j := 0 to |words|
        invariant total == ConfidenceTotal(pages[..i]) + WordsTotal(words[..j])
        invariant count == ConfidenceCount(pages[..i]) + WordsCount(words[..j])
      {
        assert words[..j + 1][..j] == words[..j];
        if words[j].confidence.Some? {
          total := total + words[j].confidence.value;
          count := count + 1;
        }
      }
      assert words[..|words|] == words;
    }
    assert pages[..|pages|] == pages;
    average := if count > 0 then total / (count as real) else 0.0;
  }
}

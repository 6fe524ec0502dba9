/** The OCR service: recognition with fallback over an abstract recognition
    service and an abstract preprocessing step, then the single-month or the
    multi-month analysis of the recognised document. The service records
    every call it makes to the outside world, in order. */
module OcrServices {
  import opened Strings
  import opened Invoices
  import opened Recognition
  import opened MultiMonth

  /** _analyze_single after recognition: no text is an error; otherwise the
      average confidence as the only field and the full text. */
  function SingleInvoice(result: AnalyzeResult): Result<Invoice, OcrError> {
    var text := if result.content.Some? then result.content.value else "";
    if Strip(text) == "" then Err(NoText)
    else Ok(Invoice(map[ConfidenceKey := Confidence(AverageConfidence(result.pages))], text))
  }

  /** The outcome of an analysis and the calls it made. */
  datatype Analysis = Analysis(outcome: Result<Invoice, OcrError>, calls: seq<Event>)

  /** analyze_invoice: "multi" needs a start month and runs the multi-month
      analysis; every other mode runs the single-month analysis. Both start
      with the recognition fallback and pass its error on. */
  function AnalyzeInvoiceSpec(models: seq<string>, content: Bytes, mode: string, startMonth: Option<int>,
                              monthOrder: string, respond: Oracle, enhance: Enhancer): Analysis
  {
    if mode == "multi" && startMonth.None? then Analysis(Err(MissingStartMonth), [])
    else
      var run := Fallback(models, content, respond, enhance);
      match run.outcome
      case Err(e) => Analysis(Err(e), run.calls)
      case Ok(recognized) =>
        if mode == "multi" then Analysis(MultiInvoice(recognized.result, startMonth.value, monthOrder), run.calls)
        else Analysis(SingleInvoice(recognized.result), run.calls)
  }

  /** The first adequate response is the one the search stops at. */
  lemma {:induction false} FirstAdequateCharacterized(rs: seq<Response>, i: nat)
    requires i <= |rs|
    requires i < |rs| ==> Adequate(rs[i])
    requires forall j :: 0 <= j < i ==> !Adequate(rs[j])
    ensures FirstAdequate(rs) == i
  {
    if i > 0 {
      FirstAdequateCharacterized(rs[1..], i - 1);
    }
  }

  class OcrService {
    /** The recognition service. */
    const respond: Oracle
    /** The image preprocessing step. */
    const enhance: Enhancer
    /** The calls made so far to the recognition service and the preprocessing step. */
    var calls: seq<Event>

    constructor(respond: Oracle, enhance: Enhancer)
      ensures this.respond == respond && this.enhance == enhance
      ensures calls == []
    {
      this.respond := respond;
      this.enhance := enhance;
      calls := [];
    }

    /** One recognition call. */
    method Recognize(attempt: Attempt, document: Bytes) returns (response: Response)
      modifies this
      ensures response == respond(attempt, document)
      ensures calls == old(calls) + [Analyze(attempt, document)]
    {
      calls := calls + [Analyze(attempt, document)];
      response := respond(attempt, document);
    }

    /** _preprocess_pdf: best effort; a failure gives back the input. */
    method PreprocessPdf(document: Bytes) returns (processed: Bytes)
      modifies this
      ensures processed == EnhanceOrKeep(document, enhance)
      ensures calls == old(calls) + [Preprocess(document)]
    {
      calls := calls + [Preprocess(document)];
      var enhanced := enhance(document);
      match enhanced
      case Some(pdf) =>
        processed := pdf;
      case None =>
        processed := document;
    }

    /** One loop of the fallback: each model on one document, until a result
      is adequate; every other outcome adds a diagnostic. */
    method TryModels(source: Source, document: Bytes, errors: seq<Diagnostic>)
      returns (found: Option<Recognized>, errorsOut: seq<Diagnostic>)
      modifies this
      ensures var round := RunRound(ModelsToTry, source, document, respond);
        && found == round.found
        && errorsOut == errors + round.diagnostics
        && calls == old(calls) + round.calls
    {
      ghost var attempts := Attempts(ModelsToTry, source);
      ghost var rs := Responses(attempts, document, respond);
      errorsOut := errors;
      for i := 0 to |ModelsToTry|
        invariant forall j :: 0 <= j < i ==> !Adequate(rs[j])
        invariant errorsOut == errors + Diagnostics(attempts, rs, i)
        invariant calls == old(calls) + Calls(attempts, document, i)
      {
        var attempt := Attempt(ModelsToTry[i], source);
        var response := Recognize(attempt, document);
        assert Calls(attempts, document, i + 1) == Calls(attempts, document, i) + [Analyze(attempt, document)];
        match response {
          case Returned(result) =>
            if result.content.Some? && result.content.value != ""
               && |Strip(result.content.value)| > AdequateLength {
              found := Some(Recognized(result, UsedModel(attempt)));
              FirstAdequateCharacterized(rs, i);
              return;
            }
            errorsOut := errorsOut + [Insufficient(attempt, ContentLength(result))];
          case HttpFailure(status, message) =>
            errorsOut := errorsOut + [Http(attempt, status, message)];
          case Raised(kind, message) =>
            errorsOut := errorsOut + [Failed(attempt, kind, message)];
        }
        assert Diagnostics(attempts, rs, i + 1) == Diagnostics(attempts, rs, i) + [DiagnosticOf(attempt, response)];
      }
      found := None;
      FirstAdequateCharacterized(rs, |ModelsToTry|);
    }

    /** _call_azure_ocr_with_fallback */
    method CallOcrWithFallback(content: Bytes) returns (r: Result<Recognized, OcrError>)
      modifies this
      ensures var run := Fallback(ModelsToTry, content, respond, enhance);
        r == run.outcome && calls == old(calls) + run.calls
    {
      ghost var before := calls;
      var found, errors := TryModels(Original, content, []);
      ghost var first := RunRound(ModelsToTry, Original, content, respond);
      assert errors == first.diagnostics;
      if found.Some? {
        return Ok(found.value);
      }
      var preprocessed := PreprocessPdf(content);
      found, errors := TryModels(Preprocessed, preprocessed, errors);
      ghost var second := RunRound(ModelsToTry, Preprocessed, preprocessed, respond);
      assert calls == before + (first.calls + [Preprocess(content)] + second.calls);
      if found.Some? {
        return Ok(found.value);
      }
      return Err(AllModelsFailed(errors));
    }

    /** _analyze_single */
    method AnalyzeSingle(content: Bytes) returns (r: Result<Invoice, OcrError>)
      modifies this
      ensures var analysis := AnalyzeInvoiceSpec(ModelsToTry, content, "single", None, "", respond, enhance);
        r == analysis.outcome && calls == old(calls) + analysis.calls
    {
      var recognized := CallOcrWithFallback(content);
      if recognized.Err? {
        return Err(recognized.error);
      }
      var result := recognized.value.result;
      var fullText := if result.content.Some? then result.content.value else "";
      if Strip(fullText) == "" {
        return Err(NoText);
      }
      var averageConfidence := ComputeAverageConfidence(result.pages);
      r := Ok(Invoice(map[ConfidenceKey := Confidence(averageConfidence)], fullText));
    }

    /** _analyze_multi */
    method AnalyzeMulti(content: Bytes, startMonth: int, monthOrder: string) returns (r: Result<Invoice, OcrError>)
      modifies this
      ensures var analysis := AnalyzeInvoiceSpec(ModelsToTry, content, "multi", Some(startMonth), monthOrder,
                                                 respond, enhance);
        r == analysis.outcome && calls == old(calls) + analysis.calls
    {
      var recognized := CallOcrWithFallback(content);
      if recognized.Err? {
        return Err(recognized.error);
      }
      var result := recognized.value.result;
      var fullContent := if result.content.Some? then result.content.value else "";
      if Strip(fullContent) == "" {
        return Err(NoText);
      }
      var averageConfidence := ComputeAverageConfidence(result.pages);
      var pageTexts := CollectPageTexts(fullContent, result.pages);
      assert pageTexts == PageTexts(fullContent, result.pages);
      if !ValidPageCount(|pageTexts|) {
        return Err(PageCountMismatch(|pageTexts|));
      }
      var fields := AssignMonths(pageTexts, startMonth, monthOrder, averageConfidence);
      r := Ok(Invoice(fields, Join("\n", pageTexts)));
    }

    /** analyze_invoice */
    method AnalyzeInvoice(content: Bytes, mode: string, startMonth: Option<int>, monthOrder: string)
      returns (r: Result<Invoice, OcrError>)
      modifies this
      ensures var analysis := AnalyzeInvoiceSpec(ModelsToTry, content, mode, startMonth, monthOrder,
                                                 respond, enhance);
        r == analysis.outcome && calls == old(calls) + analysis.calls
    {
      if mode == "multi" {
        if startMonth.None? {
          return Err(MissingStartMonth);
        }
        r := AnalyzeMulti(content, startMonth.value, monthOrder);
        return;
      }
      r := AnalyzeSingle(content);
    }
  }

  // ---------------------------------------------------------------------
  // Properties of the dispatch
  // ---------------------------------------------------------------------

  /** "multi" without a start month is refused before any call is made. */
  lemma MultiWithoutStartMonth(models: seq<string>, content: Bytes, monthOrder: string,
                               respond: Oracle, enhance: Enhancer)
    ensures AnalyzeInvoiceSpec(models, content, "multi", None, monthOrder, respond, enhance)
            == Analysis(Err(MissingStartMonth), [])
  {
  }

  /** Any mode other than "multi" is the single-month mode, whatever the
      start month and the order. */
  lemma OtherModesAreSingle(models: seq<string>, content: Bytes, mode: string, startMonth: Option<int>,
                            monthOrder: string, respond: Oracle, enhance: Enhancer)
    requires mode != "multi"
    ensures AnalyzeInvoiceSpec(models, content, mode, startMonth, monthOrder, respond, enhance)
            == AnalyzeInvoiceSpec(models, content, "single", None, "", respond, enhance)
  {
  }

  /** After a successful recognition the "no text" error cannot arise: the
      single-month mode then returns the full text and the average
      confidence as its only field. */
  lemma SingleAfterRecognition(models: seq<string>, content: Bytes, respond: Oracle, enhance: Enhancer)
    ensures var run := Fallback(models, content, respond, enhance);
      var analysis := AnalyzeInvoiceSpec(models, content, "single", None, "", respond, enhance);
      run.outcome.Ok? ==>
        && analysis.outcome.Ok?
        && analysis.outcome.value.rawText == run.outcome.value.result.content.value
        && analysis.outcome.value.fields
           == map[ConfidenceKey := Confidence(AverageConfidence(run.outcome.value.result.pages))]
  {
    FallbackSuccessIsAdequate(models, content, respond, enhance);
  }

  /** Likewise in the multi-month mode the only refusal after a successful
      recognition is a wrong page count. */
  lemma MultiAfterRecognition(models: seq<string>, content: Bytes, startMonth: int, monthOrder: string,
                              respond: Oracle, enhance: Enhancer)
    ensures var run := Fallback(models, content, respond, enhance);
      var analysis := AnalyzeInvoiceSpec(models, content, "multi", Some(startMonth), monthOrder, respond, enhance);
      run.outcome.Ok? ==>
        (analysis.outcome.Err? <==> !ValidPageCount(|run.outcome.value.result.pages|))
  {
    var run := Fallback(models, content, respond, enhance);
    FallbackSuccessIsAdequate(models, content, respond, enhance);
    if run.outcome.Ok? {
      MultiPageCount(run.outcome.value.result, startMonth, monthOrder);
    }
  }
}

/**
 * `SpaceOCRText`: select a key, normalise the payload, call the OCR service,
 * and on success spend one unit of the key's quota on a best-effort basis.
 */
module SpaceOcr {
  import opened Results
  import opened ApiKeys
  import opened KeySelection
  import opened UsageLedger

  const JpegDataUriPrefix: string := "data:image/jpeg;base64,"
  /** The language and engine every request is configured with. */
  const Language: string := "eng"
  const Engine: nat := 2

  /** What the OCR service is asked: credential, language, engine and payload. */
  datatype OcrRequest = OcrRequest(apiKey: string, language: string, engine: nat, image: string)

  /** What the OCR service answers: the extracted text, or an error. */
  datatype OcrOutcome = Parsed(text: string) | ServiceError(message: string)

  predicate HasPrefix(s: string, prefix: string)
  {
    |prefix| <= |s| && s[..|prefix|] == prefix
  }

  /** The payload carrying the JPEG data-URI prefix, added only when it is missing. */
  function EnsureJpegPrefix(s: string): (r: string)
    ensures HasPrefix(r, JpegDataUriPrefix)
    ensures HasPrefix(s, JpegDataUriPrefix) ==> r == s
    ensures r == s || r == JpegDataUriPrefix + s
    ensures r[|r| - |s|..] == s
  {
    if HasPrefix(s, JpegDataUriPrefix) then s else JpegDataUriPrefix + s
  }

  lemma EnsureJpegPrefixIdempotent(s: string)
    ensures EnsureJpegPrefix(EnsureJpegPrefix(s)) == EnsureJpegPrefix(s)
  {
  }

  /** Everything one call of the flow decides: its result, the new collection, and the OCR request it sent. */
  datatype Run = Run(result: Result<string, Error>, docs: Collection, sent: Option<OcrRequest>)

  /**
   * The flow as a function of the collection and of what the environment does:
   * the clock, whether the query fails, the OCR service, and whether the quota
   * transaction is aborted.
   */
  function OcrFlow(docs: Collection, image: string, now: int, queryFails: bool,
                   ocr: OcrRequest -> OcrOutcome, commitFails: bool): (run: Run)
  {
    match GetLeastUsedApiKey(docs, now, queryFails)
    case Failure(e) => Run(Failure(e), docs, None)
    case Success(k) =>
      var request := OcrRequest(k.key, Language, Engine, EnsureJpegPrefix(image));
      match ocr(request)
      case ServiceError(msg) => Run(Failure(OcrFailed(msg)), docs, Some(request))
      case Parsed(text) =>
        var after := if k.key in docs && !commitFails then Decremented(docs, k.key) else docs;
        Run(Success(text), after, Some(request))
  }

  /**
   * Performs OCR with the first eligible key. The request actually sent to the
   * OCR service is returned in `sent`; `None` means the service was not called.
   */
  method SpaceOcrText(store: KeyStore, base64image: string, now: int, queryFails: bool,
                      ocr: OcrRequest -> OcrOutcome, commitFails: bool)
    returns (r: Result<string, Error>, ghost sent: Option<OcrRequest>)
    modifies store
    ensures var run := OcrFlow(old(store.docs), base64image, now, queryFails, ocr, commitFails);
      r == run.result && store.docs == run.docs && sent == run.sent
  {
    var selected := GetLeastUsedApiKey(store.docs, now, queryFails);
    if selected.Failure? {
      return Failure(selected.error), None;
    }
    var apiKey := selected.value;
    var image := base64image;
    if !HasPrefix(image, JpegDataUriPrefix) {
      image := JpegDataUriPrefix + image;
    }
    var request := OcrRequest(apiKey.key, Language, Engine, image);
    sent := Some(request);
    var outcome := ocr(request);
    if outcome.ServiceError? {
      return Failure(OcrFailed(outcome.message)), sent;
    }
    // A failed decrement is only logged; the text is returned regardless.
    var _ := store.DecrementUsageCount(apiKey.key, commitFails);
    r := Success(outcome.text);
  }

  /** Without an eligible key the flow fails before the OCR service is called, and nothing changes. */
  lemma SelectionFailureAborts(docs: Collection, image: string, now: int, queryFails: bool,
                               ocr: OcrRequest -> OcrOutcome, commitFails: bool)
    requires queryFails || !AnyEligible(docs, now)
    ensures var run := OcrFlow(docs, image, now, queryFails, ocr, commitFails);
      && run.result == Failure(if queryFails then FetchFailed else NoAvailableKey)
      && run.sent == None
      && run.docs == docs
  {
  }

  /** The OCR service is called exactly when selection succeeds, with the selected key and the prefixed payload. */
  lemma OcrCalledWithSelectedKey(docs: Collection, image: string, now: int, queryFails: bool,
                                 ocr: OcrRequest -> OcrOutcome, commitFails: bool)
    ensures var run := OcrFlow(docs, image, now, queryFails, ocr, commitFails);
      var sel := GetLeastUsedApiKey(docs, now, queryFails);
      && (run.sent.Some? <==> sel.Success?)
      && (run.sent.Some? ==>
            && run.sent.value.apiKey == sel.value.key
            && Eligible(sel.value, now)
            && run.sent.value.image == EnsureJpegPrefix(image)
            && HasPrefix(run.sent.value.image, JpegDataUriPrefix))
  {
  }

  /** When the OCR service fails, its error is returned and no quota is consumed. */
  lemma OcrFailureConsumesNoQuota(docs: Collection, image: string, now: int, queryFails: bool,
                                  ocr: OcrRequest -> OcrOutcome, commitFails: bool)
    ensures var run := OcrFlow(docs, image, now, queryFails, ocr, commitFails);
      run.sent.Some? && ocr(run.sent.value).ServiceError? ==>
        run.result == Failure(OcrFailed(ocr(run.sent.value).message)) && run.docs == docs
  {
  }

  /** Once the OCR service has answered with text, that text is the result whether or not the bookkeeping succeeds. */
  lemma ResultSurvivesBookkeepingFailure(docs: Collection, image: string, now: int, queryFails: bool,
                                         ocr: OcrRequest -> OcrOutcome)
    ensures var run := OcrFlow(docs, image, now, queryFails, ocr, false);
      run.sent.Some? && ocr(run.sent.value).Parsed? ==>
        var text := ocr(run.sent.value).text;
        && run.result == Success(text)
        && OcrFlow(docs, image, now, queryFails, ocr, true).result == Success(text)
        && OcrFlow(docs, image, now, queryFails, ocr, true).docs == docs
  {
  }

  /**
   * In a well-keyed collection a successful call with a committed transaction
   * spends exactly one unit of the selected key and changes nothing else; the
   * selected key had quota, so on its own the flow never drives a count negative.
   */
  lemma SuccessSpendsOneUnitOfSelectedKey(docs: Collection, image: string, now: int,
                                          ocr: OcrRequest -> OcrOutcome)
    requires WellKeyed(docs)
    ensures var run := OcrFlow(docs, image, now, false, ocr, false);
      run.sent.Some? && ocr(run.sent.value).Parsed? ==>
        var k := GetLeastUsedApiKey(docs, now, false).value;
        && k.key in docs && docs[k.key] == k
        && run.docs.Keys == docs.Keys
        && run.docs[k.key] == k.(usageCount := k.usageCount - 1)
        && run.docs[k.key].usageCount >= 0
        && (forall id :: id in docs && id != k.key ==> run.docs[id] == docs[id])
  {
    if GetLeastUsedApiKey(docs, now, false).Success? {
      SelectedIsAddressable(docs, now);
    }
  }

  /** Whatever happens, one call spends at most one unit of quota, and only of the key it selected. */
  lemma AtMostOneUnitPerCall(docs: Collection, image: string, now: int, queryFails: bool,
                             ocr: OcrRequest -> OcrOutcome, commitFails: bool)
    ensures var run := OcrFlow(docs, image, now, queryFails, ocr, commitFails);
      || run.docs == docs
      || (&& run.sent.Some?
          && run.sent.value.apiKey in docs
          && run.docs == Decremented(docs, run.sent.value.apiKey))
  {
  }

  /** A single eligible key with five uses left: the text comes back and four uses remain. */
  lemma SingleKeyIsSpent(k: ApiKey, image: string, now: int, ocr: OcrRequest -> OcrOutcome, text: string)
    requires k.usageCount == 5 && now < k.expiresAt
    requires forall q :: ocr(q) == Parsed(text)
    ensures var run := OcrFlow(map[k.key := k], image, now, false, ocr, false);
      run.result == Success(text) && run.docs == map[k.key := k.(usageCount := 4)]
  {
    var docs := map[k.key := k];
    assert docs[k.key] == k;
    assert AnyEligible(docs, now);
  }

  /** A single exhausted key: no key is available and the OCR service is never called. */
  lemma ExhaustedKeyIsNeverUsed(k: ApiKey, image: string, now: int, ocr: OcrRequest -> OcrOutcome, commitFails: bool)
    requires k.usageCount == 0
    ensures var run := OcrFlow(map[k.key := k], image, now, false, ocr, commitFails);
      run.result == Failure(NoAvailableKey) && run.sent == None && run.docs == map[k.key := k]
  {
    var docs := map[k.key := k];
    assert forall id :: id in docs ==> id == k.key;
  }
}

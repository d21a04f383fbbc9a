# OCR API-key pool — Dafny model

This project models the credential pool behind the OCR service in
`services/ocr/space.go`. The pool is a collection of OCR.space API keys. Each key has
a remaining usage count, a creation time and an expiry time.

- **Key selection** (`getLeastUsedAPIKey`). Keep the keys that have quota left
  (`usage_count > 0`) and have not expired (`expires_at > now`). Order them by
  `created_at` ascending, then by `usage_count` ascending, and take the first.
  Despite the function's name, this is an oldest-first policy: usage only breaks ties
  between keys of the same age. The model keeps that precedence as written.
- **Quota decrement** (`decrementUsageCount`). One atomic transaction reads the document
  addressed by the key and writes back `usage_count - 1`. Nothing stops the count at
  zero.
- **Orchestration** (`SpaceOCRText`). The steps are:
  1. select a key, and abort on failure;
  2. prefix the payload with `data:image/jpeg;base64,` unless it already has it;
  3. call the OCR service, and abort on failure without touching quota;
  4. on success, decrement the selected key on a best-effort basis. A decrement
     failure is only logged, and the text is returned anyway.

Modules:

- `Results`: Option and Result.
- `ApiKeys`: the record, eligibility and the query order.
- `KeySelection`: the query.
- `UsageLedger`: the decrement, and the `KeyStore` class that holds the collection as a
  map field.
- `SpaceOcr`: payload normalisation, and the flow as the `SpaceOcrText` method, proved
  against the function `OcrFlow`.

How the environment is modelled:

- **The store.** The collection is a `map<string, ApiKey>` from document id to record.
  Timestamps are integers.
- **The clock.** `time.Now()` becomes the parameter `now`.
- **Store faults.** Two booleans stand for faults the store can report:
  - `queryFails`: the query returns an error other than "no more documents";
  - `commitFails`: the decrement transaction is aborted.
- **The OCR service.** It is a total function parameter from the request (key,
  language `eng`, engine 2, payload) to either text or an error message. `SpaceOcrText`
  also returns, as ghost output, the request it sent. `None` means the service was never
  called.
- **Ties.** The query filters on `usage_count` and `expires_at` but orders only by
  `created_at` and `usage_count`. For such a query Firestore appends implicit
  ascending sort keys: first the filtered field that has no ordering (`expires_at`),
  then the document id. When `created_at` and `usage_count` are equal, the earlier
  expiry therefore wins, and after that the lower document id. The id is compared
  lexicographically, which makes "the first result" unique.
- **Two keys per record.** `space.go` decrements the document named by the *decoded*
  `key` field of the selected record (space.go line 119), not by the id of the document
  that was read. The flow is modelled that way. `WellKeyed` states the assumption that
  every record's `key` equals its document id. Under it, the decrement hits the selected
  record (`SelectedIsAddressable`). Without it, the decrement may fail or hit another
  document. `AtMostOneUnitPerCall` bounds what can happen either way.

## Model

| member | source | states |
|---|---|---|
| `ApiKeys.PrecedesTotal` | services/ocr/space.go:38-42 | any two distinct documents are ordered one way or the other by (created_at, usage_count, expires_at, document id) |
| `ApiKeys.PrecedesTransitive` | services/ocr/space.go:40-42 | the query order is transitive |
| `ApiKeys.PrecedesAsymmetric` | services/ocr/space.go:40-42 | the query order is strict: no two documents precede each other |
| `KeySelection.LeastExists` | services/ocr/space.go:40-42 | every non-empty set of documents has a first element in the query order |
| `KeySelection.FirstUnique` | services/ocr/space.go:42 | at most one document is first among the eligible ones, so `Limit(1)` picks a unique document |
| `KeySelection.FirstEligible` | services/ocr/space.go:37-47 | there is a first document exactly when some document is eligible; if so, it is eligible and precedes every other eligible document |
| `KeySelection.GetLeastUsedApiKey` | services/ocr/space.go:34-60 | a query error gives FetchFailed; with no eligible key it gives NoAvailableKey; otherwise it succeeds with a stored record that is eligible and no later than any eligible record (older created_at, or equal created_at and no higher usage_count) |
| `KeySelection.OlderKeyWins` | services/ocr/space.go:40 | of two eligible keys, the older one is selected whatever the usage counts |
| `KeySelection.LowerUsageBreaksTie` | services/ocr/space.go:41 | of two eligible keys created at the same time, the one with the lower usage count is selected |
| `KeySelection.EarlierExpiryBreaksFullTie` | services/ocr/space.go:38-42 | of two eligible keys with equal created_at and usage_count, the one that expires first is selected (the implicit ordering on the filtered field) |
| `KeySelection.SelectedIsAddressable` | services/ocr/space.go:119 | in a well-keyed collection, the selected record's key names that same record |
| `UsageLedger.Decremented` | services/ocr/space.go:80-83 | after one unit is spent, the key's usage count is exactly one lower; its key, created_at and expires_at are unchanged; the set of documents and every other record are unchanged |
| `UsageLedger.DecrementHasNoFloor` | services/ocr/space.go:80 | a key at zero or below goes further below zero: there is no clamp |
| `UsageLedger.RepeatedDecrement` | services/ocr/space.go:66-84 | n serialised decrements of a key lower it by exactly n and change nothing else (no lost update) |
| `UsageLedger.KeyStore.DecrementUsageCount` | services/ocr/space.go:63-90 | a missing document fails with DocumentNotFound, an aborted transaction fails with TransactionAborted, and both leave the collection unchanged; otherwise the collection becomes `Decremented` of the old one |
| `SpaceOcr.EnsureJpegPrefix` | services/ocr/space.go:106-109 | the result starts with the JPEG data-URI prefix; an already-prefixed payload is returned unchanged; otherwise exactly one prefix is prepended, and the original payload ends the result |
| `SpaceOcr.EnsureJpegPrefixIdempotent` | services/ocr/space.go:106-109 | normalising twice gives the same payload as normalising once |
| `SpaceOcr.SpaceOcrText` | services/ocr/space.go:93-124 | the result, the new collection and the OCR request sent are those of `OcrFlow` on the old collection |
| `SpaceOcr.SelectionFailureAborts` | services/ocr/space.go:102-105 | if the query fails or no key is eligible, that error is returned, the OCR service is not called, and the collection is unchanged |
| `SpaceOcr.OcrCalledWithSelectedKey` | services/ocr/space.go:106-113 | the OCR service is called exactly when selection succeeds, with the selected (eligible) key and the prefixed payload |
| `SpaceOcr.OcrFailureConsumesNoQuota` | services/ocr/space.go:113-116 | if the OCR service fails, its error is returned and the collection is unchanged |
| `SpaceOcr.ResultSurvivesBookkeepingFailure` | services/ocr/space.go:118-123 | once the OCR service returns text, that text is the result whether the decrement commits or is aborted; an aborted decrement leaves the collection unchanged |
| `SpaceOcr.SuccessSpendsOneUnitOfSelectedKey` | services/ocr/space.go:118-123 | in a well-keyed collection, a successful call with a committed decrement lowers the selected key's usage count by exactly one, changes nothing else, and leaves that count non-negative |
| `SpaceOcr.AtMostOneUnitPerCall` | services/ocr/space.go:93-124 | every call either leaves the collection unchanged or spends exactly one unit of the key it sent to the OCR service |
| `SpaceOcr.SingleKeyIsSpent` | services/ocr/space.go:93-124 | one eligible key with 5 uses and a succeeding OCR service: the text is returned and 4 uses remain |
| `SpaceOcr.ExhaustedKeyIsNeverUsed` | services/ocr/space.go:37-38 | one key with 0 uses: the call fails with NoAvailableKey, the OCR service is never called, and nothing changes |

## Left out

- Firestore client construction, the `GCP_PROJECT_ID` variable and `client.Close` (space.go lines 25-32 and 94-99): these are I/O and configuration. A failure to create the client is not modelled.
- Document decoding with `DataTo` (space.go lines 55-58 and 74-77): records are typed values, so decoding cannot fail in this model. Aborting the decrement transaction is covered by `commitFails`.
- The OCR library (`InitConfig`, `ParseFromBase64`, `JustText`; space.go lines 112-113 and 123) is a foreign network call. It is modelled by the function parameter `ocr`: its text stands for `JustText()`, and its error message stands for the library's error.
- Concurrency: the model does not cover transaction isolation, Firestore's automatic retries of a contended transaction, or the race between selecting a key and decrementing it in two concurrent calls (space.go line 66). A decrement is one atomic step. `RepeatedDecrement` states the serialised outcome.
- The clock (`time.Now()`, space.go line 39) is the parameter `now`.
- The log line for a failed decrement (space.go line 120) is a side effect. The decrement's status is discarded, as `space.go` does.
- Exact error message strings: errors are the constructors of `ApiKeys.Error`.
- Decremented: usage counts are unbounded integers. The wrap-around of Go's 64-bit `UsageCount - 1` (space.go line 80) from math.MinInt64 to math.MaxInt64 is not modelled.
- DecrementHasNoFloor: states that the count goes below zero with unbounded integers. With Go's 64-bit `int`, a count of math.MinInt64 wraps to math.MaxInt64 instead.
- KeyStore.DecrementUsageCount: writes back the unbounded `usageCount - 1`, so it does not model the 64-bit wrap-around either.

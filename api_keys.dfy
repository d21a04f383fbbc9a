/**
 * The records of the `OcrSpaceKey` collection and the order in which the
 * key-selection query returns them.
 */
module ApiKeys {

  /** One stored credential. Timestamps are instants on one integer clock. */
  datatype ApiKey = ApiKey(key: string, usageCount: int, createdAt: int, expiresAt: int)

  /** The collection, addressed by document id. */
  type Collection = map<string, ApiKey>

  /** Why an operation of the pool failed (the wrapped error strings of space.go). */
  datatype Error =
    | NoAvailableKey                  // the query matched no document
    | FetchFailed                     // the query itself failed
    | DecrementFailed(cause: TxError) // the quota transaction failed
    | OcrFailed(message: string)      // the OCR service reported an error

  datatype TxError = DocumentNotFound | TransactionAborted

  /** The query's two filters: quota left and not yet expired. */
  predicate Eligible(k: ApiKey, now: int)
  {
    k.usageCount > 0 && k.expiresAt > now
  }

  /** Every document stores its own id in its `key` field. */
  predicate WellKeyed(docs: Collection)
  {
    forall id :: id in docs ==> docs[id].key == id
  }

  /** Lexicographic order on document ids, the store's last, implicit sort key. */
  predicate NameBefore(a: string, b: string)
  {
    if |b| == 0 then false
    else if |a| == 0 then true
    else if a[0] != b[0] then a[0] < b[0]
    else NameBefore(a[1..], b[1..])
  }

  lemma {:induction false} NameBeforeIrreflexive(a: string)
    ensures !NameBefore(a, a)
  {
    if |a| > 0 {
      NameBeforeIrreflexive(a[1..]);
    }
  }

  lemma {:induction false} NameBeforeAsymmetric(a: string, b: string)
    requires NameBefore(a, b)
    ensures !NameBefore(b, a)
  {
    if |a| > 0 && a[0] == b[0] {
      NameBeforeAsymmetric(a[1..], b[1..]);
    }
  }

  lemma {:induction false} NameBeforeTransitive(a: string, b: string, c: string)
    requires NameBefore(a, b) && NameBefore(b, c)
    ensures NameBefore(a, c)
  {
    if |a| > 0 && a[0] == b[0] && b[0] == c[0] {
      NameBeforeTransitive(a[1..], b[1..], c[1..]);
    }
  }

  lemma {:induction false} NameBeforeTotal(a: string, b: string)
    requires a != b
    ensures NameBefore(a, b) || NameBefore(b, a)
  {
    if |a| > 0 && |b| > 0 && a[0] == b[0] {
      assert a == [a[0]] + a[1..] && b == [b[0]] + b[1..];
      NameBeforeTotal(a[1..], b[1..]);
    }
  }

  /**
   * The query's explicit ordering: older `createdAt` first, and among equally
   * old records the lower `usageCount` first. Strict.
   */
  predicate SortsBefore(a: ApiKey, b: ApiKey)
  {
    a.createdAt < b.createdAt || (a.createdAt == b.createdAt && a.usageCount < b.usageCount)
  }

  /** Neither record sorts before the other under the explicit ordering. */
  predicate SameRank(a: ApiKey, b: ApiKey)
  {
    a.createdAt == b.createdAt && a.usageCount == b.usageCount
  }

  /** `a` is no later than `b` under the explicit ordering. */
  predicate NotLaterThan(a: ApiKey, b: ApiKey)
  {
    SortsBefore(a, b) || SameRank(a, b)
  }

  /**
   * Among records of the same rank, the store's implicit ordering: the
   * filtered field left without an explicit ordering (`expires_at`) ascending,
   * then the document id ascending.
   */
  predicate ImplicitBefore(i: string, a: ApiKey, j: string, b: ApiKey)
  {
    a.expiresAt < b.expiresAt || (a.expiresAt == b.expiresAt && NameBefore(i, j))
  }

  /** The full order of the query results: explicit ordering, then the implicit one. */
  predicate Precedes(i: string, a: ApiKey, j: string, b: ApiKey)
  {
    SortsBefore(a, b) || (SameRank(a, b) && ImplicitBefore(i, a, j, b))
  }

  lemma PrecedesIrreflexive(i: string, a: ApiKey)
    ensures !Precedes(i, a, i, a)
  {
    NameBeforeIrreflexive(i);
  }

  lemma PrecedesAsymmetric(i: string, a: ApiKey, j: string, b: ApiKey)
    requires Precedes(i, a, j, b)
    ensures !Precedes(j, b, i, a)
  {
    if SameRank(a, b) && a.expiresAt == b.expiresAt {
      NameBeforeAsymmetric(i, j);
    }
  }

  lemma PrecedesTransitive(i: string, a: ApiKey, j: string, b: ApiKey, k: string, c: ApiKey)
    requires Precedes(i, a, j, b) && Precedes(j, b, k, c)
    ensures Precedes(i, a, k, c)
  {
    if SameRank(a, b) && SameRank(b, c) && a.expiresAt == b.expiresAt == c.expiresAt {
      NameBeforeTransitive(i, j, k);
    }
  }

  lemma PrecedesTotal(i: string, a: ApiKey, j: string, b: ApiKey)
    requires i != j
    ensures Precedes(i, a, j, b) || Precedes(j, b, i, a)
  {
    if SameRank(a, b) && a.expiresAt == b.expiresAt {
      NameBeforeTotal(i, j);
    }
  }
}

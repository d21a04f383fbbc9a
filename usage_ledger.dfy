/**
 * `decrementUsageCount`: one atomic read-modify-write transaction on the
 * document addressed by a key, writing back `usage_count - 1`.
 */
module UsageLedger {
  import opened Results
  import opened ApiKeys

  datatype Status = Done | Failed(error: Error)

  /** The collection after one unit of `key`'s quota is spent. */
  function Decremented(docs: Collection, key: string): (r: Collection)
    requires key in docs
    ensures r.Keys == docs.Keys
    ensures r[key].usageCount == docs[key].usageCount - 1
    ensures r[key].key == docs[key].key
    ensures r[key].createdAt == docs[key].createdAt && r[key].expiresAt == docs[key].expiresAt
    ensures forall id :: id in docs && id != key ==> r[id] == docs[id]
  {
    docs[key := docs[key].(usageCount := docs[key].usageCount - 1)]
  }

  /** There is no floor at zero: an exhausted key goes negative. */
  lemma DecrementHasNoFloor(docs: Collection, key: string)
    requires key in docs && docs[key].usageCount <= 0
    ensures Decremented(docs, key)[key].usageCount < 0
  {
  }

  /** `n` decrements of one key applied one after the other. */
  function DecrementedTimes(docs: Collection, key: string, n: nat): (r: Collection)
    requires key in docs
    ensures key in r
  {
    if n == 0 then docs else Decremented(DecrementedTimes(docs, key, n - 1), key)
  }

  /** Serialised decrements lose no update: n of them take exactly n units from that key and nothing else. */
  lemma {:induction false} RepeatedDecrement(docs: Collection, key: string, n: nat)
    requires key in docs
    ensures DecrementedTimes(docs, key, n).Keys == docs.Keys
    ensures DecrementedTimes(docs, key, n)[key] == docs[key].(usageCount := docs[key].usageCount - n)
    ensures forall id :: id in docs && id != key ==> DecrementedTimes(docs, key, n)[id] == docs[id]
  {
    if n > 0 {
      RepeatedDecrement(docs, key, n - 1);
    }
  }

  /** The `OcrSpaceKey` collection, held by the store. */
  class KeyStore {
    var docs: Collection

    constructor (initial: Collection)
      ensures docs == initial
    {
      docs := initial;
    }

    /**
     * Reads the document `key`, then writes back its usage count minus one.
     * A missing document fails the read; `commitFails` stands for the store
     * aborting the transaction. A failed transaction writes nothing.
     */
    method DecrementUsageCount(key: string, commitFails: bool) returns (status: Status)
      modifies this
      ensures key !in old(docs) ==> status == Failed(DecrementFailed(DocumentNotFound))
      ensures key in old(docs) && commitFails ==> status == Failed(DecrementFailed(TransactionAborted))
      ensures key in old(docs) && !commitFails ==> status == Done
      ensures docs == if status.Done? then Decremented(old(docs), key) else old(docs)
    {
      if key !in docs {
        return Failed(DecrementFailed(DocumentNotFound));
      }
      var apiKey := docs[key];
      var newUsageCount := apiKey.usageCount - 1;
      if commitFails {
        return Failed(DecrementFailed(TransactionAborted));
      }
      docs := docs[key := apiKey.(usageCount := newUsageCount)];
      status := Done;
    }
  }
}

/**
 * `getLeastUsedAPIKey`: filter the collection to eligible keys, order them
 * oldest first with usage count as tie-break, and take the first one.
 */
module KeySelection {
  import opened Results
  import opened ApiKeys

  predicate AnyEligible(docs: Collection, now: int)
  {
    exists id :: id in docs && Eligible(docs[id], now)
  }

  /** `id` is the first document of the query's result. */
  predicate IsFirst(docs: Collection, now: int, id: string)
  {
    && id in docs
    && Eligible(docs[id], now)
    && forall j :: j in docs && j != id && Eligible(docs[j], now) ==> Precedes(id, docs[id], j, docs[j])
  }

  ghost predicate IsLeast(docs: Collection, ids: set<string>, m: string)
    requires ids <= docs.Keys
  {
    m in ids && forall j :: j in ids && j != m ==> Precedes(m, docs[m], j, docs[j])
  }

  /** Every non-empty set of documents has a first one in the query order. */
  lemma {:induction false} LeastExists(docs: Collection, ids: set<string>)
    requires ids <= docs.Keys && ids != {}
    ensures exists m :: IsLeast(docs, ids, m)
    decreases ids
  {
    var x :| x in ids;
    if ids == {x} {
      assert IsLeast(docs, ids, x);
    } else {
      var rest := ids - {x};
      LeastExists(docs, rest);
      var m :| IsLeast(docs, rest, m);
      PrecedesTotal(x, docs[x], m, docs[m]);
      if Precedes(x, docs[x], m, docs[m]) {
        forall j | j in ids && j != x
          ensures Precedes(x, docs[x], j, docs[j])
        {
          if j != m {
            PrecedesTransitive(x, docs[x], m, docs[m], j, docs[j]);
          }
        }
        assert IsLeast(docs, ids, x);
      } else {
        assert IsLeast(docs, ids, m);
      }
    }
  }

  lemma FirstExists(docs: Collection, now: int)
    requires AnyEligible(docs, now)
    ensures exists id :: IsFirst(docs, now, id)
  {
    var ids := set id | id in docs && Eligible(docs[id], now);
    var w :| w in docs && Eligible(docs[w], now);
    assert w in ids;
    LeastExists(docs, ids);
    var m :| IsLeast(docs, ids, m);
    assert IsFirst(docs, now, m);
  }

  lemma FirstUnique(docs: Collection, now: int)
    ensures forall a, b :: IsFirst(docs, now, a) && IsFirst(docs, now, b) ==> a == b
  {
    forall a, b | IsFirst(docs, now, a) && IsFirst(docs, now, b)
      ensures a == b
    {
      if a != b {
        PrecedesAsymmetric(a, docs[a], b, docs[b]);
      }
    }
  }

  /** The id of the first document the query returns, if any. */
  function FirstEligible(docs: Collection, now: int): (r: Option<string>)
    ensures r.None? <==> !AnyEligible(docs, now)
    ensures r.Some? ==> IsFirst(docs, now, r.value)
  {
    if AnyEligible(docs, now) then
      FirstExists(docs, now);
      FirstUnique(docs, now);
      var id :| IsFirst(docs, now, id);
      Some(id)
    else
      None
  }

  /**
   * The key-selection query. `queryFails` stands for the store reporting an
   * error instead of a result.
   */
  function GetLeastUsedApiKey(docs: Collection, now: int, queryFails: bool): (r: Result<ApiKey, Error>)
    ensures queryFails ==> r == Failure(FetchFailed)
    ensures !queryFails && !AnyEligible(docs, now) ==> r == Failure(NoAvailableKey)
    ensures r.Success? <==> !queryFails && AnyEligible(docs, now)
    ensures r.Success? ==> r.value in docs.Values && Eligible(r.value, now)
    ensures r.Success? ==>
      forall id :: id in docs && Eligible(docs[id], now) ==> NotLaterThan(r.value, docs[id])
  {
    if queryFails then
      Failure(FetchFailed)
    else
      match FirstEligible(docs, now)
      case None => Failure(NoAvailableKey)
      case Some(id) =>
        assert forall j :: j in docs && j != id && Eligible(docs[j], now) ==> NotLaterThan(docs[id], docs[j]);
        Success(docs[id])
  }

  /** Between two eligible keys of different age the older one wins, whatever their usage counts. */
  lemma OlderKeyWins(i: string, a: ApiKey, j: string, b: ApiKey, now: int)
    requires i != j && Eligible(a, now) && Eligible(b, now)
    requires a.createdAt < b.createdAt
    ensures GetLeastUsedApiKey(map[i := a, j := b], now, false) == Success(a)
  {
    var docs := map[i := a, j := b];
    var r := GetLeastUsedApiKey(docs, now, false);
    assert i in docs && docs[i] == a && docs[j] == b;
    var id :| id in docs && docs[id] == r.value;
    assert NotLaterThan(r.value, a);
  }

  /** Between two eligible keys of equal age the one with the lower usage count wins. */
  lemma LowerUsageBreaksTie(i: string, a: ApiKey, j: string, b: ApiKey, now: int)
    requires i != j && Eligible(a, now) && Eligible(b, now)
    requires a.createdAt == b.createdAt && a.usageCount < b.usageCount
    ensures GetLeastUsedApiKey(map[i := a, j := b], now, false) == Success(a)
  {
    var docs := map[i := a, j := b];
    var r := GetLeastUsedApiKey(docs, now, false);
    assert i in docs && docs[i] == a && docs[j] == b;
    var id :| id in docs && docs[id] == r.value;
    assert NotLaterThan(r.value, a);
  }

  /** Between two eligible keys of equal age and usage the one that expires first wins. */
  lemma EarlierExpiryBreaksFullTie(i: string, a: ApiKey, j: string, b: ApiKey, now: int)
    requires i != j && Eligible(a, now) && Eligible(b, now)
    requires SameRank(a, b) && a.expiresAt < b.expiresAt
    ensures GetLeastUsedApiKey(map[i := a, j := b], now, false) == Success(a)
  {
    var docs := map[i := a, j := b];
    assert i in docs && docs[i] == a && docs[j] == b;
    var first := FirstEligible(docs, now);
    assert first.value == i;
  }

  /** In a well-keyed collection the selected record is addressable by its own key. */
  lemma SelectedIsAddressable(docs: Collection, now: int)
    requires WellKeyed(docs)
    requires GetLeastUsedApiKey(docs, now, false).Success?
    ensures var k := GetLeastUsedApiKey(docs, now, false).value; k.key in docs && docs[k.key] == k
  {
    var k := GetLeastUsedApiKey(docs, now, false).value;
    var id :| id in docs && docs[id] == k;
    assert docs[id].key == id;
  }
}

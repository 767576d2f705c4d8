/**
 * `AddTransactions2.Run` (POST /transactions/batch): the same pipeline with
 * the first-failure placeholder validator, a null element treated as an
 * invalid record, and, after the upserts, a detached request asking the
 * aggregation function to recompute the tenants of the valid records.
 */
module AddTransactions2 {
  import opened Nullables
  import opened Text
  import opened Guids
  import opened Models
  import opened PlaceholderValidator
  import opened Ingestion

  /** Valid when the placeholder validator answers "OK"; otherwise refused
      with its answer as the reason. */
  function Judge(txn: Nullable<Transaction>): (v: Verdict)
    ensures v == Accept ==> txn.Value? && !IsNullOrWhiteSpace(txn.value.tenantId) && txn.value.amount > 0.0
    ensures v.Refuse? ==> v.reason != Accepted
    ensures v == Accept <==> ValidateTransaction(txn) == Accepted
    ensures v.Refuse? ==> v.reason == ValidateTransaction(txn)
  {
    var verdict := ValidateTransaction(txn);
    if verdict == Accepted then Accept else Refuse(verdict)
  }

  /** `v.Txn?.Id`: the id of an invalid record, null for a null element. */
  function IdOf(txn: Nullable<Transaction>): (id: Nullable<Guid>)
    ensures id.Null? <==> txn.Null?
    ensures txn.Value? ==> id == Value(txn.value.id)
  {
    if txn.Null? then Null else Value(txn.value.id)
  }

  function TenantIds(valid: seq<Transaction>): (tenants: seq<Nullable<string>>) {
    seq(|valid|, k requires 0 <= k < |valid| => valid[k].tenantId)
  }

  /** The aggregation request: the distinct tenant ids of every valid record,
      whether or not its upsert succeeded; none when the URL is null or empty. */
  function Aggregation(url: Nullable<string>, valid: seq<Transaction>): (request: Nullable<AggregationRequest>)
    ensures request.Null? <==> IsNullOrEmpty(url)
  {
    if IsNullOrEmpty(url) then Null
    else Value(AggregationRequest(url.value, Distinct(TenantIds(valid))))
  }

  /** The request goes to the configured URL and names each tenant of the
      given records once, and no other. */
  lemma AggregationLists(url: Nullable<string>, valid: seq<Transaction>)
    requires !IsNullOrEmpty(url)
    ensures var request := Aggregation(url, valid).value;
              && request.url == url.value
              && NoDuplicates(request.tenants)
              && (forall k :: 0 <= k < |valid| ==> valid[k].tenantId in request.tenants)
              && (forall i :: 0 <= i < |request.tenants| ==>
                    exists k :: 0 <= k < |valid| && valid[k].tenantId == request.tenants[i])
  {
    var tenants := TenantIds(valid);
    assert forall k :: 0 <= k < |valid| ==> valid[k].tenantId == tenants[k];
  }

  /** The records the placeholder validator accepted, without their null wrapper. */
  function AcceptedRecords(valid: seq<Nullable<Transaction>>): (txns: seq<Transaction>)
    requires forall k :: 0 <= k < |valid| ==> Judge(valid[k]) == Accept
    ensures |txns| == |valid|
    ensures forall k :: 0 <= k < |valid| ==> valid[k] == Value(txns[k])
  {
    assert forall k :: 0 <= k < |valid| ==> Judge(valid[k]) == Accept && valid[k].Value?;
    Values(valid)
  }

  /** The handler, given the deserialised body, the store's answer to each
      upsert and the configured aggregation URL. */
  function Run(payload: Payload, store: Store, url: Nullable<string>): (h: Handled)
    ensures payload.Malformed? ==> h == Reject(InvalidJson)
    ensures payload.NullBody? || payload == Array([]) ==> h == Reject(NoTransactions)
    ensures StatusCode(h.response) != 500
    ensures !h.response.Ok? ==> h.upserts == [] && h.aggregation == Null
    ensures h.response.Ok? ==> (h.aggregation.Null? <==> IsNullOrEmpty(url))
  {
    match payload
    case Malformed => Reject(InvalidJson)
    case NullBody => Reject(NoTransactions)
    case Array(items) =>
      if |items| == 0 then Reject(NoTransactions)
      else IngestBatch(items, store, url)
  }

  function IngestBatch(items: seq<Nullable<Transaction>>, store: Store, url: Nullable<string>): (h: Handled)
    ensures h.response.Ok? || h.response == BadRequest(AllInvalid)
    ensures !h.response.Ok? ==> h.upserts == [] && h.aggregation == Null
    ensures h.response.Ok? ==> (h.aggregation.Null? <==> IsNullOrEmpty(url))
  {
    var split := Partition(items, Judge);
    if |split.valid| == 0 then Reject(AllInvalid)
    else
      var valid := AcceptedRecords(split.valid);
      Complete(valid, split.invalid, IdOf, store, Aggregation(url, valid))
  }

  /** No record is valid exactly when the placeholder validator refuses every
      element. */
  lemma AllRefusedIff(items: seq<Nullable<Transaction>>)
    ensures |Partition(items, Judge).valid| == 0 <==> forall k :: 0 <= k < |items| ==> ValidateTransaction(items[k]) != Accepted
  {
    if |Partition(items, Judge).valid| == 0 {
      NoneAcceptedWhenNoneValid(items);
    } else {
      SomeAcceptedWhenSomeValid(items);
    }
  }

  lemma NoneAcceptedWhenNoneValid(items: seq<Nullable<Transaction>>)
    requires |Partition(items, Judge).valid| == 0
    ensures forall k :: 0 <= k < |items| ==> ValidateTransaction(items[k]) != Accepted
  {
    forall k | 0 <= k < |items| ensures ValidateTransaction(items[k]) != Accepted {
      PartitionMembership(items, Judge, items[k]);
    }
  }

  lemma SomeAcceptedWhenSomeValid(items: seq<Nullable<Transaction>>)
    requires |Partition(items, Judge).valid| > 0
    ensures exists k :: 0 <= k < |items| && ValidateTransaction(items[k]) == Accepted
  {
    var first := Partition(items, Judge).valid[0];
    PartitionValidFromItems(items, Judge);
    var k :| 0 <= k < |items| && items[k] == first;
    assert Judge(items[k]) == Accept;
  }

  /** The batch is refused as all-invalid, before any upsert or aggregation
      request, exactly when every element is refused. */
  lemma AllInvalidIff(items: seq<Nullable<Transaction>>, store: Store, url: Nullable<string>)
    ensures IngestBatch(items, store, url).response == BadRequest(AllInvalid)
            <==> forall k :: 0 <= k < |items| ==> ValidateTransaction(items[k]) != Accepted
  {
    AllRefusedIff(items);
  }

  /** A batch with at least one accepted element gets a 200: every element is
      counted once, as upserted or invalid, and the two counters add up to
      the number of upserts, with a success for each upsert the store
      accepted. */
  lemma IngestBatchCounts(items: seq<Nullable<Transaction>>, store: Store, url: Nullable<string>)
    requires exists k :: 0 <= k < |items| && ValidateTransaction(items[k]) == Accepted
    ensures var h := IngestBatch(items, store, url);
              && h.response.Ok?
              && |h.upserts| > 0
              && |h.upserts| + h.response.summary.invalidCount == |items|
              && h.response.summary.successCount + h.response.summary.failureCount == |h.upserts|
              && h.response.summary.successCount == multiset(Answers(h.upserts, store))[Upserted]
  {
    AllRefusedIff(items);
  }

  /** What the batch handler does with a batch that has an accepted element,
      in terms of the partition: upsert the accepted records, in order, each
      under its tenant id, and ask for those records' tenants to be
      aggregated. */
  lemma UpsertsOfAcceptedBatch(items: seq<Nullable<Transaction>>, store: Store, url: Nullable<string>)
    requires |Partition(items, Judge).valid| > 0
    ensures var valid := Partition(items, Judge).valid;
            var records := AcceptedRecords(valid);
            var h := IngestBatch(items, store, url);
              && |h.upserts| == |records|
              && (forall k :: 0 <= k < |records| ==>
                   h.upserts[k].document == records[k] && h.upserts[k].partitionKey == records[k].tenantId)
              && h.aggregation == Aggregation(url, records)
  {
  }

  /** Every element the partition keeps as valid is a record with a tenant
      and a positive amount. */
  lemma AcceptedAreWellFormed(items: seq<Nullable<Transaction>>)
    ensures var valid := Partition(items, Judge).valid;
            forall k :: 0 <= k < |valid| ==>
              valid[k].Value? && !IsNullOrWhiteSpace(valid[k].value.tenantId) && valid[k].value.amount > 0.0
  {
    var valid := Partition(items, Judge).valid;
    forall k | 0 <= k < |valid|
      ensures valid[k].Value? && !IsNullOrWhiteSpace(valid[k].value.tenantId) && valid[k].value.amount > 0.0
    {
      assert Judge(valid[k]) == Accept;
    }
  }

  /** `AcceptedAreWellFormed` restated for the unwrapped records, in the
      form the upsert lemmas below use; it adds no new fact. */
  lemma AcceptedRecordsWellFormed(items: seq<Nullable<Transaction>>)
    requires |Partition(items, Judge).valid| > 0
    ensures var records := AcceptedRecords(Partition(items, Judge).valid);
            forall k :: 0 <= k < |records| ==> !IsNullOrWhiteSpace(records[k].tenantId) && records[k].amount > 0.0
  {
    AcceptedAreWellFormed(items);
  }

  /** The accepted records are records of the batch. */
  lemma AcceptedRecordsFromBatch(items: seq<Nullable<Transaction>>)
    requires |Partition(items, Judge).valid| > 0
    ensures var records := AcceptedRecords(Partition(items, Judge).valid);
            forall k :: 0 <= k < |records| ==> Value(records[k]) in items
  {
    PartitionValidFromItems(items, Judge);
  }

  /** Only accepted records are upserted, each under its own tenant id. */
  lemma UpsertsAreAcceptedRecords(items: seq<Nullable<Transaction>>, store: Store, url: Nullable<string>)
    ensures forall u | u in IngestBatch(items, store, url).upserts ::
              && !IsNullOrWhiteSpace(u.document.tenantId) && u.document.amount > 0.0
              && u.partitionKey == u.document.tenantId
              && Value(u.document) in items
  {
    if |Partition(items, Judge).valid| > 0 {
      UpsertsOfAcceptedBatch(items, store, url);
      AcceptedRecordsWellFormed(items);
      AcceptedRecordsFromBatch(items);
    }
  }

  /** Each tenant of the given records is in the aggregation request. */
  lemma RecordTenantsListed(url: Nullable<string>, records: seq<Transaction>, upserts: seq<UpsertCall>)
    requires !IsNullOrEmpty(url)
    requires |upserts| == |records|
    requires forall k :: 0 <= k < |records| ==> upserts[k].partitionKey == records[k].tenantId
    ensures var tenants := Aggregation(url, records).value.tenants;
            forall u | u in upserts :: u.partitionKey in tenants
  {
    var tenants := Aggregation(url, records).value.tenants;
    AggregationLists(url, records);
    forall u | u in upserts ensures u.partitionKey in tenants {
      var k :| 0 <= k < |upserts| && upserts[k] == u;
      assert records[k].tenantId in tenants;
    }
  }

  /** Each tenant in the aggregation request built from the given records is
      the partition key of one of their upserts. */
  lemma ListedTenantsFromRecords(url: Nullable<string>, records: seq<Transaction>, upserts: seq<UpsertCall>,
                                 aggregation: Nullable<AggregationRequest>)
    requires !IsNullOrEmpty(url) && aggregation == Aggregation(url, records)
    requires |upserts| == |records|
    requires forall k :: 0 <= k < |records| ==> upserts[k].partitionKey == records[k].tenantId
    ensures aggregation.Value?
    ensures forall i | 0 <= i < |aggregation.value.tenants| ::
              exists k :: 0 <= k < |upserts| && upserts[k].partitionKey == aggregation.value.tenants[i]
  {
    var tenants := aggregation.value.tenants;
    AggregationLists(url, records);
    forall i | 0 <= i < |tenants|
      ensures exists k :: 0 <= k < |upserts| && upserts[k].partitionKey == tenants[i]
    {
      var k :| 0 <= k < |records| && records[k].tenantId == tenants[i];
    }
  }

  /** The aggregation request of a batch answered with a 200 goes to the
      configured URL and lists each tenant once. */
  lemma AggregationRequested(items: seq<Nullable<Transaction>>, store: Store, url: Nullable<string>)
    ensures var h := IngestBatch(items, store, url);
            h.response.Ok? && !IsNullOrEmpty(url) ==>
              && h.aggregation.Value?
              && h.aggregation.value.url == url.value
              && NoDuplicates(h.aggregation.value.tenants)
  {
    if IngestBatch(items, store, url).response.Ok? && !IsNullOrEmpty(url) {
      UpsertsOfAcceptedBatch(items, store, url);
      AggregationLists(url, AcceptedRecords(Partition(items, Judge).valid));
    }
  }

  /** The tenant of every upserted record is in the aggregation request,
      whatever the upsert's outcome. */
  lemma UpsertedTenantsAggregated(items: seq<Nullable<Transaction>>, store: Store, url: Nullable<string>)
    ensures var h := IngestBatch(items, store, url);
            h.response.Ok? && !IsNullOrEmpty(url) ==>
              h.aggregation.Value? && forall u | u in h.upserts :: u.partitionKey in h.aggregation.value.tenants
  {
    var h := IngestBatch(items, store, url);
    if h.response.Ok? && !IsNullOrEmpty(url) {
      UpsertsOfAcceptedBatch(items, store, url);
      RecordTenantsListed(url, AcceptedRecords(Partition(items, Judge).valid), h.upserts);
    }
  }

  /** The aggregation request names no tenant beyond those of the upserted
      records. */
  lemma AggregatedTenantsUpserted(items: seq<Nullable<Transaction>>, store: Store, url: Nullable<string>)
    ensures var h := IngestBatch(items, store, url);
            h.response.Ok? && !IsNullOrEmpty(url) ==>
              h.aggregation.Value? &&
              var tenants := h.aggregation.value.tenants;
              forall i | 0 <= i < |tenants| :: exists k :: 0 <= k < |h.upserts| && h.upserts[k].partitionKey == tenants[i]
  {
    var h := IngestBatch(items, store, url);
    if h.response.Ok? && !IsNullOrEmpty(url) {
      var split := Partition(items, Judge);
      var records := AcceptedRecords(split.valid);
      assert h == Complete(records, split.invalid, IdOf, store, Aggregation(url, records));
      ListedTenantsFromRecords(url, records, h.upserts, h.aggregation);
    }
  }

  /** Every tenant id in the aggregation request is a non-blank string. */
  lemma AggregatedTenantsNotBlank(items: seq<Nullable<Transaction>>, store: Store, url: Nullable<string>)
    ensures var h := IngestBatch(items, store, url);
            h.response.Ok? && !IsNullOrEmpty(url) ==>
              h.aggregation.Value? &&
              forall i | 0 <= i < |h.aggregation.value.tenants| :: !IsNullOrWhiteSpace(h.aggregation.value.tenants[i])
  {
    var h := IngestBatch(items, store, url);
    if h.response.Ok? && !IsNullOrEmpty(url) {
      AggregatedTenantsUpserted(items, store, url);
      UpsertsAreAcceptedRecords(items, store, url);
      forall i | 0 <= i < |h.aggregation.value.tenants|
        ensures !IsNullOrWhiteSpace(h.aggregation.value.tenants[i])
      {
        var k :| 0 <= k < |h.upserts| && h.upserts[k].partitionKey == h.aggregation.value.tenants[i];
        assert h.upserts[k] in h.upserts;
      }
    }
  }

  /** The reason the partition records for a refused element is the
      placeholder validator's answer, which is never the blank-id one. */
  lemma RefusalReasons(items: seq<Nullable<Transaction>>)
    ensures var invalid := Partition(items, Judge).invalid;
            forall k | 0 <= k < |invalid| ::
              && invalid[k].1 == ValidateTransaction(invalid[k].0)
              && invalid[k].1 in {NullTransaction, MissingTenantId, InvalidAmount}
  {
    var invalid := Partition(items, Judge).invalid;
    forall k | 0 <= k < |invalid|
      ensures invalid[k].1 == ValidateTransaction(invalid[k].0)
      ensures invalid[k].1 in {NullTransaction, MissingTenantId, InvalidAmount}
    {
      MissingIdUnreachable(invalid[k].0);
    }
  }

  /** The invalid details of a 200 answer are the refused elements, in order,
      each with its id (null for a null element) and its reason. */
  lemma InvalidDetailsOfBatch(items: seq<Nullable<Transaction>>, store: Store, url: Nullable<string>)
    ensures var h := IngestBatch(items, store, url);
            var invalid := Partition(items, Judge).invalid;
            h.response.Ok? ==>
              && |h.response.summary.invalidDetails| == |invalid|
              && forall k | 0 <= k < |invalid| ::
                   h.response.summary.invalidDetails[k] == InvalidDetail(IdOf(invalid[k].0), invalid[k].1)
  {
    var split := Partition(items, Judge);
    if |split.valid| > 0 {
      var valid := AcceptedRecords(split.valid);
      assert IngestBatch(items, store, url) == Complete(valid, split.invalid, IdOf, store, Aggregation(url, valid));
    }
  }

  /** Each invalid element is reported with its placeholder reason, never
      "OK", and a null element is reported with a null id. */
  lemma InvalidDetailsMirrorRefusals(items: seq<Nullable<Transaction>>, store: Store, url: Nullable<string>)
    ensures var h := IngestBatch(items, store, url);
            var invalid := Partition(items, Judge).invalid;
            h.response.Ok? ==>
              && |h.response.summary.invalidDetails| == |invalid|
              && forall k | 0 <= k < |invalid| ::
                   var d := h.response.summary.invalidDetails[k];
                   && d.reason == ValidateTransaction(invalid[k].0)
                   && d.reason in {NullTransaction, MissingTenantId, InvalidAmount}
                   && (d.transactionId.Null? <==> invalid[k].0.Null?)
  {
    InvalidDetailsOfBatch(items, store, url);
    RefusalReasons(items);
  }

  /** A null element does not fail the batch: when the batch is answered with
      a 200, the null is among the invalid details with a null id. */
  lemma NullElementReported(items: seq<Nullable<Transaction>>, store: Store, url: Nullable<string>)
    requires Null in items
    ensures var h := IngestBatch(items, store, url);
            h.response.Ok? ==> InvalidDetail(Null, NullTransaction) in h.response.summary.invalidDetails
  {
    var h := IngestBatch(items, store, url);
    if h.response.Ok? {
      InvalidDetailsOfBatch(items, store, url);
      RefusedItemDetailed(items, Judge, IdOf, h.response.summary.invalidDetails, Null);
    }
  }
}

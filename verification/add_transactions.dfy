/**
 * `AddTransactions.Run` (POST /transaction): parse the batch, validate each
 * record with `TransactionValidator`, upsert the valid ones concurrently and
 * answer with a summary. This variant starts no aggregation request.
 */
module AddTransactions {
  import opened Nullables
  import opened Text
  import opened Guids
  import opened Models
  import opened Validators
  import opened Ingestion

  const ReasonSeparator: string := "; "

  /** Valid when the validator reports nothing; otherwise refused with its
      messages joined by "; ". */
  function Judge(now: Ticks): (judge: Transaction -> Verdict)
    ensures forall t :: judge(t) == Accept <==> RulesHold(t, now)
    ensures forall t :: judge(t).Refuse? ==> |judge(t).reason| > 0 && Validate(t, now)[0] <= judge(t).reason
  {
    t => var errors := Validate(t, now);
         if errors == [] then Accept else Refuse(Join(ReasonSeparator, errors))
  }

  /** `Judge`'s contract instantiated for one record; it states nothing new
      and only spares the solver the quantifier in the proofs below. */
  lemma JudgeRefusesWithReason(t: Transaction, now: Ticks)
    ensures Judge(now)(t) == Accept <==> RulesHold(t, now)
    ensures Judge(now)(t).Refuse? ==> |Judge(now)(t).reason| > 0 && Validate(t, now)[0] <= Judge(now)(t).reason
  {
  }

  /** The id an invalid record is reported under. */
  function IdOf(t: Transaction): Nullable<Guid> {
    Value(t.id)
  }

  /** The handler, given the deserialised body, the instant the validator was
      built and the store's answer to each upsert. */
  function Run(payload: Payload, now: Ticks, store: Store): (h: Handled)
    ensures payload.Malformed? ==> h == Reject(InvalidJson)
    ensures payload.NullBody? || payload == Array([]) ==> h == Reject(NoTransactions)
    ensures StatusCode(h.response) == 500 <==> payload.Array? && Null in payload.items
    ensures h.response.Ok? || h.response == BadRequest(AllInvalid) ==> payload.Array? && Null !in payload.items
    ensures !h.response.Ok? ==> h.upserts == []
    ensures h.aggregation == Null
  {
    match payload
    case Malformed => Reject(InvalidJson)
    case NullBody => Reject(NoTransactions)
    case Array(items) =>
      if |items| == 0 then Reject(NoTransactions)
      // a null element is dereferenced while the batch is being validated
      else if Null in items then Handled(Unhandled, [], Null)
      else IngestBatch(Values(items), now, store)
  }

  /** A non-empty batch without null elements: partition, stop if nothing is
      valid, otherwise upsert the valid records and summarise. */
  function IngestBatch(txns: seq<Transaction>, now: Ticks, store: Store): (h: Handled)
    requires |txns| > 0
    ensures h.response.Ok? || h.response == BadRequest(AllInvalid)
    ensures !h.response.Ok? ==> h.upserts == []
    ensures h.aggregation == Null
  {
    var split := Partition(txns, Judge(now));
    if |split.valid| == 0 then Reject(AllInvalid)
    else
      Complete(split.valid, split.invalid, IdOf, store, Null)
  }

  /** The batch is refused as all-invalid exactly when every record breaks
      some rule. */
  lemma AllInvalidIff(txns: seq<Transaction>, now: Ticks, store: Store)
    requires |txns| > 0
    ensures IngestBatch(txns, now, store).response == BadRequest(AllInvalid)
            <==> forall k :: 0 <= k < |txns| ==> !RulesHold(txns[k], now)
  {
    AllRefusedIff(txns, now);
  }

  /** A batch with at least one valid record gets a 200: one upsert per
      valid record, every record counted once as upserted or invalid, both
      counters summing to the number of upserts, and a success for each
      upsert the store accepted. */
  lemma IngestBatchCounts(txns: seq<Transaction>, now: Ticks, store: Store)
    requires exists k :: 0 <= k < |txns| && RulesHold(txns[k], now)
    ensures var h := IngestBatch(txns, now, store);
              && h.response.Ok?
              && |h.upserts| > 0
              && |h.upserts| + h.response.summary.invalidCount == |txns|
              && h.response.summary.successCount + h.response.summary.failureCount == |h.upserts|
              && h.response.summary.successCount == multiset(Answers(h.upserts, store))[Upserted]
  {
    AllRefusedIff(txns, now);
  }

  /** After a 200, the upserts are exactly the valid records of the batch,
      each once, in batch order, under its own tenant id. */
  lemma UpsertsOfValidBatch(txns: seq<Transaction>, now: Ticks, store: Store)
    requires |txns| > 0
    ensures var valid := Partition(txns, Judge(now)).valid;
            var h := IngestBatch(txns, now, store);
            h.response.Ok? ==>
              && |h.upserts| == |valid|
              && forall k :: 0 <= k < |valid| ==> h.upserts[k] == UpsertCall(valid[k], valid[k].tenantId)
  {
    var split := Partition(txns, Judge(now));
    if |split.valid| > 0 {
      assert IngestBatch(txns, now, store) == Complete(split.valid, split.invalid, IdOf, store, Null);
    }
  }

  /** Only records of the batch that pass every rule are upserted, each under
      its own tenant id as partition key. */
  lemma UpsertsAreValidRecords(txns: seq<Transaction>, now: Ticks, store: Store)
    requires |txns| > 0
    ensures forall u | u in IngestBatch(txns, now, store).upserts ::
              u.document in txns && RulesHold(u.document, now) && u.partitionKey == u.document.tenantId
  {
    var split := Partition(txns, Judge(now));
    var h := IngestBatch(txns, now, store);
    if h.response.Ok? {
      UpsertsOfValidBatch(txns, now, store);
      ValidPassRules(split.valid, now);
      PartitionValidFromItems(txns, Judge(now));
      UpsertsOfRecords(txns, split.valid, h.upserts, now);
    }
  }

  lemma UpsertsOfRecords(txns: seq<Transaction>, valid: seq<Transaction>, upserts: seq<UpsertCall>, now: Ticks)
    requires forall k :: 0 <= k < |valid| ==> valid[k] in txns && RulesHold(valid[k], now)
    requires |upserts| == |valid|
    requires forall k :: 0 <= k < |valid| ==> upserts[k] == UpsertCall(valid[k], valid[k].tenantId)
    ensures forall u | u in upserts :: u.document in txns && RulesHold(u.document, now) && u.partitionKey == u.document.tenantId
  {
  }

  /** Every record that passes every rule is upserted under its tenant. */
  lemma EveryValidRecordUpserted(txns: seq<Transaction>, now: Ticks, store: Store, t: Transaction)
    requires t in txns && RulesHold(t, now)
    ensures UpsertCall(t, t.tenantId) in IngestBatch(txns, now, store).upserts
  {
    var split := Partition(txns, Judge(now));
    PartitionMembership(txns, Judge(now), t);
    JudgeRefusesWithReason(t, now);
    var k :| 0 <= k < |split.valid| && split.valid[k] == t;
    var h := Complete(split.valid, split.invalid, IdOf, store, Null);
    assert IngestBatch(txns, now, store) == h;
    assert h.upserts[k] == UpsertCall(t, t.tenantId);
  }

  /** Each invalid record is reported with its id and a non-empty reason. */
  lemma InvalidDetailsHaveReasons(txns: seq<Transaction>, now: Ticks, store: Store)
    requires |txns| > 0
    ensures var h := IngestBatch(txns, now, store);
            h.response.Ok? ==>
              forall d | d in h.response.summary.invalidDetails :: d.transactionId.Value? && |d.reason| > 0
  {
    var split := Partition(txns, Judge(now));
    if |split.valid| > 0 {
      var h := Complete(split.valid, split.invalid, IdOf, store, Null);
      assert IngestBatch(txns, now, store) == h;
      ReasonsNotEmpty(split.invalid, now);
      forall d | d in h.response.summary.invalidDetails ensures d.transactionId.Value? && |d.reason| > 0 {
        var k :| 0 <= k < |h.response.summary.invalidDetails| && h.response.summary.invalidDetails[k] == d;
      }
    }
  }

  /** The invalid details list the refused records in input order, each
      under its id with every failing rule's message joined by "; ". */
  lemma InvalidDetailsJoinMessages(txns: seq<Transaction>, now: Ticks, store: Store)
    requires |txns| > 0
    ensures var invalid := Partition(txns, Judge(now)).invalid;
            var h := IngestBatch(txns, now, store);
            h.response.Ok? ==>
              && |h.response.summary.invalidDetails| == |invalid|
              && forall k :: 0 <= k < |invalid| ==>
                   && !RulesHold(invalid[k].0, now)
                   && h.response.summary.invalidDetails[k]
                        == InvalidDetail(Value(invalid[k].0.id), Join(ReasonSeparator, Validate(invalid[k].0, now)))
  {
    var split := Partition(txns, Judge(now));
    if |split.valid| > 0 {
      assert IngestBatch(txns, now, store) == Complete(split.valid, split.invalid, IdOf, store, Null);
      forall k | 0 <= k < |split.invalid|
        ensures !RulesHold(split.invalid[k].0, now)
        ensures split.invalid[k].1 == Join(ReasonSeparator, Validate(split.invalid[k].0, now))
      {
        RefusalIsJoinedMessages(split.invalid[k].0, now, split.invalid[k].1);
      }
    }
  }

  lemma RefusalIsJoinedMessages(t: Transaction, now: Ticks, reason: string)
    requires Judge(now)(t) == Refuse(reason)
    ensures !RulesHold(t, now) && reason == Join(ReasonSeparator, Validate(t, now))
  {
  }

  lemma ValidPassRules(valid: seq<Transaction>, now: Ticks)
    requires forall k | 0 <= k < |valid| :: Judge(now)(valid[k]) == Accept
    ensures forall k | 0 <= k < |valid| :: RulesHold(valid[k], now)
  {
    forall k | 0 <= k < |valid| ensures RulesHold(valid[k], now) {
      JudgeRefusesWithReason(valid[k], now);
    }
  }

  /** No record is valid exactly when every record fails some rule. */
  lemma AllRefusedIff(txns: seq<Transaction>, now: Ticks)
    ensures |Partition(txns, Judge(now)).valid| == 0 <==> forall k :: 0 <= k < |txns| ==> !RulesHold(txns[k], now)
  {
    if |Partition(txns, Judge(now)).valid| == 0 {
      NoneHoldWhenNoneValid(txns, now);
    } else {
      SomeHoldWhenSomeValid(txns, now);
    }
  }

  lemma NoneHoldWhenNoneValid(txns: seq<Transaction>, now: Ticks)
    requires |Partition(txns, Judge(now)).valid| == 0
    ensures forall k :: 0 <= k < |txns| ==> !RulesHold(txns[k], now)
  {
    forall k | 0 <= k < |txns| ensures !RulesHold(txns[k], now) {
      PartitionMembership(txns, Judge(now), txns[k]);
      JudgeRefusesWithReason(txns[k], now);
    }
  }

  lemma SomeHoldWhenSomeValid(txns: seq<Transaction>, now: Ticks)
    requires |Partition(txns, Judge(now)).valid| > 0
    ensures exists k :: 0 <= k < |txns| && RulesHold(txns[k], now)
  {
    var first := Partition(txns, Judge(now)).valid[0];
    PartitionValidFromItems(txns, Judge(now));
    var k :| 0 <= k < |txns| && txns[k] == first;
    JudgeRefusesWithReason(txns[k], now);
  }

  lemma ReasonsNotEmpty(invalid: seq<(Transaction, string)>, now: Ticks)
    requires forall k | 0 <= k < |invalid| :: Judge(now)(invalid[k].0) == Refuse(invalid[k].1)
    ensures forall k | 0 <= k < |invalid| :: |invalid[k].1| > 0
  {
    forall k | 0 <= k < |invalid| ensures |invalid[k].1| > 0 {
      JudgeRefusesWithReason(invalid[k].0, now);
    }
  }

  /** A batch of one valid record and one with an empty tenant id, where the
      store accepts the upsert: one success, no failure, and the second record
      reported under its id with the tenant message. */
  lemma MixedBatchExample(t: Transaction, now: Ticks, store: Store)
    requires RulesHold(t, now) && store(UpsertCall(t, t.tenantId)) == Upserted
    ensures var bad := t.(tenantId := Value(""));
            IngestBatch([t, bad], now, store)
              == Handled(Ok(Summary(1, 0, 1, [InvalidDetail(Value(t.id), TenantIdRequired)])),
                         [UpsertCall(t, t.tenantId)], Null)
  {
    var bad := t.(tenantId := Value(""));
    EmptyTenantRefused(t, now);
    JudgeRefusesWithReason(t, now);
    PartitionOfPair(t, bad, Judge(now));
    SingleUpsertCompleted(t, (bad, TenantIdRequired), store);
  }

  /** Against a record that passes every rule: an empty tenant id and a zero
      amount give the reason "tenantId is required.; amount must be > 0.". */
  lemma TwoFailuresReason(t: Transaction, now: Ticks)
    requires RulesHold(t, now)
    ensures Judge(now)(t.(tenantId := Value(""), amount := 0.0)) == Refuse(TenantIdRequired + ReasonSeparator + AmountNotPositive)
  {
    var u := t.(tenantId := Value(""), amount := 0.0);
    var errors := [TenantIdRequired, AmountNotPositive];
    TwoFailuresExample(t, now);
    JudgeOfFailures(u, now, errors);
    assert Join(ReasonSeparator, errors) == TenantIdRequired + ReasonSeparator + AmountNotPositive;
  }

  lemma JudgeOfFailures(t: Transaction, now: Ticks, errors: seq<string>)
    requires Validate(t, now) == errors != []
    ensures Judge(now)(t) == Refuse(Join(ReasonSeparator, errors))
  {
  }

  /** Against a record that passes every rule, an empty tenant id is refused
      with the tenant message alone. */
  lemma EmptyTenantRefused(t: Transaction, now: Ticks)
    requires RulesHold(t, now)
    ensures Judge(now)(t.(tenantId := Value(""))) == Refuse(TenantIdRequired)
  {
    SingleFailure(Checks(t.(tenantId := Value("")), now), 0);
  }

  lemma PartitionOfPair<T>(a: T, b: T, judge: T -> Verdict)
    requires judge(a) == Accept && judge(b).Refuse?
    ensures Partition([a, b], judge) == Split([a], [(b, judge(b).reason)])
  {
    assert [a, b][1..] == [b];
    assert [b][1..] == [];
  }

  lemma SingleUpsertCompleted(t: Transaction, refused: (Transaction, string), store: Store)
    requires store(UpsertCall(t, t.tenantId)) == Upserted
    ensures Complete([t], [refused], IdOf, store, Null)
              == Handled(Ok(Summary(1, 0, 1, [InvalidDetail(Value(refused.0.id), refused.1)])),
                         [UpsertCall(t, t.tenantId)], Null)
  {
    var h := Complete([t], [refused], IdOf, store, Null);
    assert h.upserts == [UpsertCall(t, t.tenantId)];
    assert Answers(h.upserts, store) == [Upserted];
    assert multiset([Upserted])[Upserted] == 1;
  }
}

/**
 * The pieces both batch-ingestion handlers share: the request and response
 * shapes, the valid/invalid partition, the fan-out of one upsert per valid
 * record and the fold of their outcomes into two counters, the summary, and
 * the distinct-tenant list handed to the aggregation notifier.
 *
 * The document store is a function from an upsert call to its outcome; the
 * concurrent fan-out is a fold whose result does not depend on the order in
 * which the calls complete.
 */
module Ingestion {
  import opened Nullables
  import opened Guids
  import opened Models

  // ---------------------------------------------------------------------
  // Request and response
  // ---------------------------------------------------------------------

  /** The request body after JSON deserialisation: not an array of
      transactions, the literal `null`, or an array whose elements may be
      `null`. */
  datatype Payload = Malformed | NullBody | Array(items: seq<Nullable<Transaction>>)

  const InvalidJson: string := "Invalid JSON format. Expected an array of transactions."
  const NoTransactions: string := "No transactions provided."
  const AllInvalid: string := "All transactions are invalid. Nothing to upsert."

  datatype InvalidDetail = InvalidDetail(transactionId: Nullable<Guid>, reason: string)

  datatype Summary = Summary(
    successCount: nat,
    failureCount: nat,
    invalidCount: nat,
    invalidDetails: seq<InvalidDetail>)

  /** A plain-text 400, a 200 with the summary, or an exception that escapes
      the handler (the host answers 500). */
  datatype Response = BadRequest(text: string) | Ok(summary: Summary) | Unhandled

  /** The HTTP status the caller receives. */
  function StatusCode(r: Response): int {
    match r
    case BadRequest(_) => 400
    case Ok(_) => 200
    case Unhandled => 500
  }

  /** One `UpsertItemAsync(document, new PartitionKey(partitionKey))`. */
  datatype UpsertCall = UpsertCall(document: Transaction, partitionKey: Nullable<string>)

  /** A store success, a `CosmosException` with its status code, or any other exception. */
  datatype UpsertOutcome = Upserted | StoreRejected(statusCode: int, message: string) | Faulted(message: string)

  /** The document store, as the answer it gives each upsert call. */
  type Store = UpsertCall -> UpsertOutcome

  /** The POST the detached aggregation task attempts: `{ tenants: [...] }` to `url`. */
  datatype AggregationRequest = AggregationRequest(url: string, tenants: seq<Nullable<string>>)

  /** Everything a request observably does: its response, the upserts it
      issues (in issue order) and the aggregation request it starts, if any. */
  datatype Handled = Handled(response: Response, upserts: seq<UpsertCall>, aggregation: Nullable<AggregationRequest>)

  /** An early exit: a 400 before any store or notifier call. */
  function Reject(text: string): Handled {
    Handled(BadRequest(text), [], Null)
  }

  // ---------------------------------------------------------------------
  // Partition
  // ---------------------------------------------------------------------

  datatype Verdict = Accept | Refuse(reason: string)

  datatype Split<T> = Split(valid: seq<T>, invalid: seq<(T, string)>)

  function Firsts<T>(pairs: seq<(T, string)>): (items: seq<T>)
    ensures |items| == |pairs|
    ensures forall k :: 0 <= k < |pairs| ==> items[k] == pairs[k].0
  {
    seq(|pairs|, k requires 0 <= k < |pairs| => pairs[k].0)
  }

  /** Splits the items into those the judge accepts and those it refuses,
      each refused item paired with the judge's reason. */
  function Partition<T>(items: seq<T>, judge: T -> Verdict): (s: Split<T>)
    ensures |s.valid| + |s.invalid| == |items|
    ensures forall k | 0 <= k < |s.valid| :: judge(s.valid[k]) == Accept
    ensures forall k | 0 <= k < |s.invalid| :: judge(s.invalid[k].0) == Refuse(s.invalid[k].1)
  {
    if |items| == 0 then Split([], [])
    else
      var rest := Partition(items[1..], judge);
      match judge(items[0])
      case Accept => Split([items[0]] + rest.valid, rest.invalid)
      case Refuse(reason) => Split(rest.valid, [(items[0], reason)] + rest.invalid)
  }

  /** The items of a concatenation of pairs are the concatenated items. */
  lemma FirstsAppend<T>(a: seq<(T, string)>, b: seq<(T, string)>)
    ensures Firsts(a + b) == Firsts(a) + Firsts(b)
  {
    var l, r := Firsts(a + b), Firsts(a) + Firsts(b);
    assert |l| == |r|;
    forall k | 0 <= k < |l| ensures l[k] == r[k] {
      if k < |a| {
        assert (a + b)[k] == a[k];
      } else {
        assert (a + b)[k] == b[k - |a|];
      }
    }
  }

  /** One step of the partition, for an accepted first item: it joins the
      valid list of the rest. */
  lemma PartitionStepAccept<T>(items: seq<T>, judge: T -> Verdict)
    requires |items| > 0 && judge(items[0]) == Accept
    ensures var s := Partition(items, judge);
            var rest := Partition(items[1..], judge);
              && multiset(s.valid) == multiset{items[0]} + multiset(rest.valid)
              && multiset(Firsts(s.invalid)) == multiset(Firsts(rest.invalid))
  {
    var s := Partition(items, judge);
    var rest := Partition(items[1..], judge);
    assert s.valid == [items[0]] + rest.valid;
  }

  /** One step of the partition, for a refused first item: it joins the
      invalid list of the rest. */
  lemma PartitionStepRefuse<T>(items: seq<T>, judge: T -> Verdict)
    requires |items| > 0 && judge(items[0]).Refuse?
    ensures var s := Partition(items, judge);
            var rest := Partition(items[1..], judge);
              && multiset(s.valid) == multiset(rest.valid)
              && multiset(Firsts(s.invalid)) == multiset{items[0]} + multiset(Firsts(rest.invalid))
  {
    var first := (items[0], judge(items[0]).reason);
    var rest := Partition(items[1..], judge).invalid;
    assert Partition(items, judge).invalid == [first] + rest;
    FirstsCons(first, rest);
  }

  /** Adding a pair in front adds its item to the multiset of items. */
  lemma FirstsCons<T>(first: (T, string), rest: seq<(T, string)>)
    ensures multiset(Firsts([first] + rest)) == multiset{first.0} + multiset(Firsts(rest))
  {
    FirstsAppend([first], rest);
    assert Firsts([first]) == [first.0];
  }

  /** Every input item lands in exactly one of the two lists, as often as it
      occurs in the input. */
  lemma {:induction false} PartitionKeepsEveryItem<T>(items: seq<T>, judge: T -> Verdict)
    ensures var s := Partition(items, judge);
      multiset(s.valid) + multiset(Firsts(s.invalid)) == multiset(items)
  {
    if |items| > 0 {
      if judge(items[0]) == Accept {
        PartitionStepAccept(items, judge);
      } else {
        PartitionStepRefuse(items, judge);
      }
      PartitionKeepsEveryItem(items[1..], judge);
      assert multiset(items) == multiset{items[0]} + multiset(items[1..]) by {
        assert items == [items[0]] + items[1..];
      }
    }
  }

  /** Each valid item is an input item. */
  lemma PartitionValidFromItems<T>(items: seq<T>, judge: T -> Verdict)
    ensures var valid := Partition(items, judge).valid;
            forall k :: 0 <= k < |valid| ==> valid[k] in items
  {
    var valid := Partition(items, judge).valid;
    PartitionKeepsEveryItem(items, judge);
    forall k | 0 <= k < |valid| ensures valid[k] in items {
      assert valid[k] in multiset(valid);
    }
  }

  /** An input item is in the valid list exactly when the judge accepts it,
      and among the invalid items exactly when the judge refuses it. */
  lemma PartitionMembership<T>(items: seq<T>, judge: T -> Verdict, x: T)
    requires x in items
    ensures var s := Partition(items, judge);
      && (x in s.valid <==> judge(x) == Accept)
      && (x in Firsts(s.invalid) <==> judge(x).Refuse?)
  {
    var s := Partition(items, judge);
    PartitionKeepsEveryItem(items, judge);
    assert x in multiset(items);
    if x in Firsts(s.invalid) {
      var k :| 0 <= k < |s.invalid| && s.invalid[k].0 == x;
    }
  }

  /** A refused input item is among the invalid details of a summary built
      from the partition, with its id and the judge's reason. */
  lemma RefusedItemDetailed<T>(items: seq<T>, judge: T -> Verdict, idOf: T -> Nullable<Guid>,
                               details: seq<InvalidDetail>, x: T)
    requires x in items && judge(x).Refuse?
    requires var invalid := Partition(items, judge).invalid;
             && |details| == |invalid|
             && forall k :: 0 <= k < |invalid| ==> details[k] == InvalidDetail(idOf(invalid[k].0), invalid[k].1)
    ensures InvalidDetail(idOf(x), judge(x).reason) in details
  {
    var invalid := Partition(items, judge).invalid;
    PartitionMembership(items, judge, x);
    var k :| 0 <= k < |invalid| && invalid[k].0 == x;
    assert details[k] == InvalidDetail(idOf(x), judge(x).reason);
  }

  /** The partition of a concatenation is the concatenation of the
      partitions: both lists keep the input order. */
  lemma {:induction false} PartitionAppend<T>(a: seq<T>, b: seq<T>, judge: T -> Verdict)
    ensures var pa, pb := Partition(a, judge), Partition(b, judge);
      Partition(a + b, judge) == Split(pa.valid + pb.valid, pa.invalid + pb.invalid)
  {
    if |a| > 0 {
      assert (a + b)[1..] == a[1..] + b;
      assert (a + b)[0] == a[0];
      PartitionAppend(a[1..], b, judge);
    } else {
      assert a + b == b;
    }
  }

  // ---------------------------------------------------------------------
  // Upsert fan-out and the outcome counters
  // ---------------------------------------------------------------------

  /** One upsert per valid record, keyed by the record's own tenant. */
  function UpsertCalls(valid: seq<Transaction>): (calls: seq<UpsertCall>)
    ensures |calls| == |valid|
    ensures forall c :: c in calls ==> c.document in valid && c.partitionKey == c.document.tenantId
    ensures forall t :: t in valid ==> UpsertCall(t, t.tenantId) in calls
    ensures forall k :: 0 <= k < |valid| ==> calls[k] == UpsertCall(valid[k], valid[k].tenantId)
  {
    var calls := seq(|valid|, k requires 0 <= k < |valid| => UpsertCall(valid[k], valid[k].tenantId));
    assert forall k :: 0 <= k < |valid| ==> calls[k] == UpsertCall(valid[k], valid[k].tenantId);
    calls
  }

  function Answers(calls: seq<UpsertCall>, store: Store): seq<UpsertOutcome> {
    seq(|calls|, k requires 0 <= k < |calls| => store(calls[k]))
  }

  datatype Counters = Counters(successCount: nat, failureCount: nat)

  /** One `Interlocked.Increment` of the counter the outcome selects. */
  function Increment(c: Counters, outcome: UpsertOutcome): (r: Counters)
    ensures r.successCount + r.failureCount == c.successCount + c.failureCount + 1
    ensures r.successCount >= c.successCount && r.failureCount >= c.failureCount
    ensures r.successCount > c.successCount <==> outcome.Upserted?
  {
    if outcome.Upserted? then c.(successCount := c.successCount + 1)
    else c.(failureCount := c.failureCount + 1)
  }

  /** The counters after every outcome has been recorded, starting from zero. */
  function Tally(outcomes: seq<UpsertOutcome>): (c: Counters)
    ensures c.successCount + c.failureCount == |outcomes|
    ensures c.successCount == multiset(outcomes)[Upserted]
  {
    if |outcomes| == 0 then Counters(0, 0)
    else
      var last := |outcomes| - 1;
      assert outcomes == outcomes[..last] + [outcomes[last]];
      Increment(Tally(outcomes[..last]), outcomes[last])
  }

  /** The counters depend only on which outcomes occurred, not on the order
      in which they were recorded. */
  lemma TallyOrderIndependent(a: seq<UpsertOutcome>, b: seq<UpsertOutcome>)
    requires multiset(a) == multiset(b)
    ensures Tally(a) == Tally(b)
  {
    assert |a| == |multiset(a)| == |multiset(b)| == |b|;
  }

  /** `Task.WhenAll` over the upsert tasks: each task increments one counter
      when it completes, and completions arrive in any order. The counters
      after the join are those of the outcomes in issue order. */
  method AwaitAll(issued: seq<UpsertOutcome>, completions: seq<UpsertOutcome>) returns (c: Counters)
    requires multiset(completions) == multiset(issued)
    ensures c.successCount + c.failureCount == |issued|
    ensures c.successCount == multiset(issued)[Upserted]
  {
    c := Counters(0, 0);
    var k := 0;
    while k < |completions|
      invariant 0 <= k <= |completions|
      invariant c == Tally(completions[..k])
    {
      assert completions[..k + 1][..k] == completions[..k];
      c := Increment(c, completions[k]);
      k := k + 1;
    }
    assert completions[..k] == completions;
    TallyOrderIndependent(completions, issued);
  }

  /** When the store fails exactly the odd-numbered calls, the even-numbered
      half succeeds: ceil(n / 2) successes. */
  lemma {:induction false} AlternatingOutcomes(outcomes: seq<UpsertOutcome>)
    requires forall k :: 0 <= k < |outcomes| ==> (outcomes[k].Upserted? <==> k % 2 == 0)
    ensures Tally(outcomes).successCount == (|outcomes| + 1) / 2
    ensures Tally(outcomes).failureCount == |outcomes| / 2
  {
    if |outcomes| > 0 {
      AlternatingOutcomes(outcomes[..|outcomes| - 1]);
    }
  }

  // ---------------------------------------------------------------------
  // Summary
  // ---------------------------------------------------------------------

  /** The 200 body: both counters, and the id and reason of each invalid
      record in input order. */
  function Summarize<T>(c: Counters, invalid: seq<(T, string)>, idOf: T -> Nullable<Guid>): (s: Summary)
    ensures s.successCount == c.successCount && s.failureCount == c.failureCount
    ensures s.invalidCount == |invalid| == |s.invalidDetails|
    ensures forall k :: 0 <= k < |invalid| ==> s.invalidDetails[k] == InvalidDetail(idOf(invalid[k].0), invalid[k].1)
  {
    Summary(c.successCount, c.failureCount, |invalid|,
            seq(|invalid|, k requires 0 <= k < |invalid| => InvalidDetail(idOf(invalid[k].0), invalid[k].1)))
  }

  /** The part of a request after the all-invalid check: upsert every valid
      record, wait for all of them, and answer 200 with the summary. */
  function Complete<T>(valid: seq<Transaction>, invalid: seq<(T, string)>, idOf: T -> Nullable<Guid>,
                       store: Store, aggregation: Nullable<AggregationRequest>): (h: Handled)
    ensures h.response.Ok? && h.aggregation == aggregation
    ensures |h.upserts| == |valid|
    ensures forall k :: 0 <= k < |valid| ==> h.upserts[k].document == valid[k] && h.upserts[k].partitionKey == valid[k].tenantId
    ensures h.response.summary.successCount + h.response.summary.failureCount == |valid|
    ensures h.response.summary.successCount == multiset(Answers(h.upserts, store))[Upserted]
    ensures h.response.summary.invalidCount == |invalid| == |h.response.summary.invalidDetails|
    ensures forall k :: 0 <= k < |invalid| ==>
              h.response.summary.invalidDetails[k] == InvalidDetail(idOf(invalid[k].0), invalid[k].1)
  {
    var calls := UpsertCalls(valid);
    Handled(Ok(Summarize(Tally(Answers(calls, store)), invalid, idOf)), calls, aggregation)
  }

  // ---------------------------------------------------------------------
  // Distinct, for the notifier's tenant list
  // ---------------------------------------------------------------------

  predicate NoDuplicates<T(==)>(s: seq<T>) {
    forall i, j :: 0 <= i < j < |s| ==> s[i] != s[j]
  }

  /** LINQ `Distinct()`: each value once, in order of first occurrence. */
  function Distinct<T(==)>(s: seq<T>): (r: seq<T>)
    ensures NoDuplicates(r)
    ensures forall i :: 0 <= i < |r| ==> r[i] in s
    ensures forall i :: 0 <= i < |s| ==> s[i] in r
    ensures |r| <= |s|
  {
    if |s| == 0 then []
    else
      var init := Distinct(s[..|s| - 1]);
      var last := s[|s| - 1];
      assert s == s[..|s| - 1] + [last];
      if last in init then init else init + [last]
  }

  /** The position of the first occurrence of `x` in `s`. */
  function FirstIndex<T(==)>(s: seq<T>, x: T): (i: nat)
    requires x in s
    ensures i < |s| && s[i] == x
    ensures forall k :: 0 <= k < i ==> s[k] != x
  {
    if s[0] == x then 0 else 1 + FirstIndex(s[1..], x)
  }

  lemma FirstIndexOfPrefix<T>(init: seq<T>, last: T, x: T)
    requires x in init
    ensures FirstIndex(init + [last], x) == FirstIndex(init, x)
  {
    var s := init + [last];
    var a, b := FirstIndex(s, x), FirstIndex(init, x);
    assert s[b] == x;
    assert a <= b;
    assert init[a] == x;
  }

  /** `Distinct` keeps the order of first occurrences: an earlier value of
      the result first occurs earlier in the input. */
  lemma {:induction false} DistinctKeepsFirstOrder<T>(s: seq<T>)
    ensures forall i, j :: 0 <= i < j < |Distinct(s)| ==> FirstIndex(s, Distinct(s)[i]) < FirstIndex(s, Distinct(s)[j])
  {
    if |s| > 0 {
      var init := s[..|s| - 1];
      var last := s[|s| - 1];
      assert s == init + [last];
      DistinctKeepsFirstOrder(init);
      var d := Distinct(init);
      var r := Distinct(s);
      forall i | 0 <= i < |d|
        ensures FirstIndex(s, d[i]) == FirstIndex(init, d[i])
      {
        FirstIndexOfPrefix(init, last, d[i]);
      }
      if last !in d {
        assert last !in init;
        assert FirstIndex(s, last) == |init|;
      }
    }
  }

  /** A list without duplicates is its own distinct list. */
  lemma {:induction false} DistinctOfDistinct<T>(s: seq<T>)
    requires NoDuplicates(s)
    ensures Distinct(s) == s
  {
    if |s| > 0 {
      var init := s[..|s| - 1];
      DistinctOfDistinct(init);
      assert s[|s| - 1] !in init;
      assert s == init + [s[|s| - 1]];
    }
  }
}

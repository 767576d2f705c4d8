# Batch transaction ingestion

A Dafny model of the batch ingestion handlers of the cash-flow forecast API.
The API has two HTTP functions that take a JSON array of transactions:

- `AddTransactions` (POST /transaction) validates each record with the
  FluentValidation rule set `TransactionValidator`.
- `AddTransactions2` (POST /transactions/batch) validates each record with a
  first-failure placeholder check. After the upserts it also starts a
  detached request that asks an aggregation function to recompute the
  tenants involved.

Both handlers do the same things in order:

1. Parse the body.
2. Exit early with a 400 when the body is malformed, null, empty, or holds
   only invalid records.
3. Split the records into valid ones and (record, reason) pairs.
4. Upsert every valid record concurrently, keyed by its tenant id.
5. Count successes and failures.
6. Answer 200 with a summary.

Modules, one per file:

- `Nullables`: C# `null` as `Nullable<T>`.
- `Text`: `char.IsWhiteSpace`, `string.IsNullOrWhiteSpace`, `string.IsNullOrEmpty`, `string.Join`, decimal formatting.
- `Guids`: `System.Guid` and its default "D" string form.
- `Models`: the `Transaction` record.
- `Validators`: `TransactionValidator`.
- `PlaceholderValidator`: the first-failure `ValidateTransaction`.
- `Ingestion`: what the two handlers share: the partition, the upsert fan-out, the counter fold, the summary, and `Distinct`.
- `AddTransactions` and `AddTransactions2`: the two handlers.

A handler is a function from the deserialised body to a `Handled` value. A
`Handled` value holds three things:

- the response: a 400 with its text, a 200 with the summary, or an exception
  that escapes the handler;
- the upserts issued, in issue order;
- the aggregation request started, if any.

Inputs from outside the handler are passed in as parameters:

- Both handlers take the document store: a function from an upsert call to
  its outcome.
- `AddTransactions.Run` also takes `now`, the instant its
  `TransactionValidator` was built, as a number of ticks. Its two date
  bounds are computed from that instant.
- `AddTransactions2.Run` takes no clock, because its placeholder validator
  has no date rule. It takes instead the aggregation URL, which the handler
  reads from the `AggregationFunctionUrl` environment variable
  (temp-addtransactions.cs:162). The URL may be null.

## Model

| member | source | states |
|---|---|---|
| Validators.Checks | api/validators/validators.cs:11-28 | the rule set as twelve checks, every chained check included; they all hold exactly when every rule holds |
| Validators.Failures | api/validators/validators.cs:11-28 | a message is reported exactly when some failing check has it; nothing is reported exactly when every check holds |
| Validators.FailuresAppend | api/functions/AddTransactions.cs:88 | messages come out in check order: the failures of a concatenation are the failures of the first part followed by those of the second |
| Validators.Validate | api/validators/validators.cs:9-29 | the error list is empty exactly when every rule holds; no message is empty |
| Validators.PresenceMessages | api/validators/validators.cs:11-27 | each "... is required." message (tenant, company, account, sender id) appears exactly when that field is null, empty or white space |
| Validators.AmountMessages | api/validators/validators.cs:14-17 | the amount, 3-letter currency, fxRate and netAmount messages each appear exactly when their bound is broken; a null currency does not get the 3-letter message |
| Validators.DateMessages | api/validators/validators.cs:18-24 | the posted-date message appears exactly when postedDate is more than 5 minutes past `now`; the value-date message exactly when valueDate is more than 30 days past `now` |
| Validators.LibraryMessages | api/validators/validators.cs:15-28 | the library-worded checks: the empty-currency message appears exactly when currency is blank; the length message appears exactly when a sender id is longer than 200 characters |
| Validators.CustomMessagesReported | api/validators/validators.cs:11-27 | every check with a `WithMessage` text reports that text exactly when it fails |
| Validators.MessagesDistinct | api/validators/validators.cs:11-28 | no two checks share a message, so each message identifies its rule |
| Validators.CurrencyCodeExamples | api/validators/validators.cs:15 | in an otherwise valid record, "US" yields exactly the 3-letter message and "USD" yields no error |
| Validators.ZeroAmountExamples | api/validators/validators.cs:14-17 | in an otherwise valid record, amount 0 yields exactly the amount message, and netAmount 0 yields no error |
| Validators.TwoFailuresExample | api/validators/validators.cs:11-14 | in an otherwise valid record, an empty tenant id and amount 0 yield exactly ["tenantId is required.", "amount must be > 0."], in that order |
| Validators.BlankTenantExample | api/validators/validators.cs:11 | in an otherwise valid record, a tenant id of " " yields exactly the tenant message |
| Text.BlankIffAllWhiteSpace | api/functions/temp-addtransactions.cs:230 | a string counts as blank for `IsNullOrWhiteSpace` exactly when every character is white space |
| Text.Join | api/functions/AddTransactions.cs:88 | `string.Join`: for a non-empty list, the length is the parts' total plus one separator between each pair of neighbours, and the first part is a prefix |
| Text.DecimalString | api/validators/validators.cs:28 | the count printed in the `MaximumLength` message: a non-empty string of decimal digits |
| Validators.SenderIdTooLong | api/validators/validators.cs:28 | the default `MaximumLength(200)` message starts with the fixed text naming the property and the limit |
| Text.JoinAppend | api/functions/AddTransactions.cs:88 | joining a concatenated list is joining each part with one separator between them |
| Guids.HexRoundTrip | api/models/models.cs:8 | reading back the fixed-width hexadecimal digits of a Guid field gives the field modulo 16^width |
| Guids.GuidString | api/functions/temp-addtransactions.cs:227 | the string form of a Guid is 36 characters: hyphens at 8, 13, 18 and 23, hexadecimal digits elsewhere |
| Guids.GuidStringNotBlank | api/functions/temp-addtransactions.cs:227 | the string form of a Guid is never null, empty or white space |
| PlaceholderValidator.ValidateTransaction | api/functions/temp-addtransactions.cs:221-237 | the answer is "OK" or one of the four reasons; "OK" only for a present record with a tenant and a positive amount; a null record gets "Transaction is null" |
| PlaceholderValidator.MissingIdUnreachable | api/functions/temp-addtransactions.cs:227-228 | "Missing transaction ID" is never returned |
| PlaceholderValidator.AcceptedIff | api/functions/temp-addtransactions.cs:221-237 | "OK" exactly when the record is present, its tenant id is not blank and its amount is positive |
| PlaceholderValidator.BlankTenantReportedFirst | api/functions/temp-addtransactions.cs:230-234 | a blank tenant id gives "Missing Tenant ID", whatever the amount |
| PlaceholderValidator.AmountCheckedLast | api/functions/temp-addtransactions.cs:233-234 | with a tenant present, a non-positive amount gives "Invalid transaction amount" |
| PlaceholderValidator.NoReasonIsAccepted | api/functions/temp-addtransactions.cs:224-236 | no failure reason equals "OK", so comparing with "OK" separates valid from invalid |
| Ingestion.Partition | api/functions/AddTransactions.cs:75-92 | the two lists together are as long as the input; every valid item is accepted by the judge, and every invalid item is paired with the judge's reason |
| Ingestion.PartitionKeepsEveryItem | api/functions/AddTransactions.cs:75-92 | each input item lands in exactly one list, as many times as it occurs (multiset equality) |
| Ingestion.PartitionMembership | api/functions/AddTransactions.cs:78-91 | an input item is in the valid list exactly when accepted, and among the invalid items exactly when refused |
| Ingestion.PartitionAppend | api/functions/AddTransactions.cs:75-92 | partitioning a concatenation concatenates the partitions, so both lists keep input order |
| Ingestion.PartitionValidFromItems | api/functions/AddTransactions.cs:84 | every valid item is an input item |
| Ingestion.RefusedItemDetailed | api/functions/temp-addtransactions.cs:205-209 | a refused input item appears in the invalid details with its id and reason |
| Ingestion.UpsertCalls | api/functions/AddTransactions.cs:107-112 | one upsert per position of the valid list, in order, so a record listed twice is upserted twice; each call is of its valid record keyed by that record's tenant id |
| Ingestion.Increment | api/functions/AddTransactions.cs:113-124 | each outcome raises exactly one counter by one; the success counter rises exactly when the upsert succeeded |
| Ingestion.Tally | api/functions/AddTransactions.cs:104-130 | the two counters add up to the number of outcomes; the success counter is the number of `Upserted` outcomes |
| Ingestion.TallyOrderIndependent | api/functions/AddTransactions.cs:107-130 | outcomes that are a permutation of each other give the same counters |
| Ingestion.AwaitAll | api/functions/AddTransactions.cs:107-130 | recording completions in any order gives the counters of the outcomes in issue order |
| Ingestion.AlternatingOutcomes | api/functions/AddTransactions.cs:113-126 | if every other upsert fails, the counters are ceil(n/2) and floor(n/2) |
| Ingestion.Summarize | api/functions/AddTransactions.cs:139-156 | the summary copies both counters; invalidCount is the number of invalid records; the details list each invalid record's id and reason in order |
| Ingestion.Complete | api/functions/AddTransactions.cs:104-156 | one upsert per valid record, in order, keyed by its tenant id; a 200 whose counters add up to the number of upserts and count the store's successes; details mirror the invalid list |
| Ingestion.Distinct | api/functions/temp-addtransactions.cs:169 | the result has no duplicates, and holds exactly the values of the input |
| Ingestion.DistinctOfDistinct | api/functions/temp-addtransactions.cs:169 | a list without duplicates is its own distinct list |
| Ingestion.DistinctKeepsFirstOrder | api/functions/temp-addtransactions.cs:169 | the result keeps first-occurrence order: a value earlier in the result first occurs earlier in the input |
| AddTransactions.Run | api/functions/AddTransactions.cs:32-157 | a malformed body gives "Invalid JSON format..."; a null or empty list gives "No transactions provided."; neither upserts; the handler throws, and the host answers 500, exactly when an element is null; it never starts an aggregation request |
| AddTransactions.IngestBatch | api/functions/AddTransactions.cs:74-157 | a non-empty batch ends in the all-invalid 400 with no upserts, or in a 200 |
| AddTransactions.Judge | api/functions/AddTransactions.cs:81-90 | a record is valid exactly when every rule holds; a refused record's reason is non-empty and starts with its first failing message |
| AddTransactions.TwoFailuresReason | api/functions/AddTransactions.cs:88 | in an otherwise valid record, an empty tenant id and amount 0 give the reason "tenantId is required.; amount must be > 0." |
| AddTransactions.AllRefusedIff | api/functions/AddTransactions.cs:78-96 | the valid list is empty exactly when every record breaks some rule |
| AddTransactions.AllInvalidIff | api/functions/AddTransactions.cs:96-102 | the all-invalid 400 is returned exactly when every record breaks some rule |
| AddTransactions.IngestBatchCounts | api/functions/AddTransactions.cs:104-146 | with one valid record or more: a 200 with at least one upsert; upserts plus invalidCount equals the batch size; both counters add up to the number of upserts; successes are the store's `Upserted` answers |
| AddTransactions.UpsertsOfValidBatch | api/functions/AddTransactions.cs:107-112 | after a 200, the upserts are exactly the batch's valid records, each once and in batch order, each under its own tenant id |
| AddTransactions.UpsertsAreValidRecords | api/functions/AddTransactions.cs:107-112 | every upserted document is a record of the batch, passes every rule, and is keyed by its own tenant id |
| AddTransactions.EveryValidRecordUpserted | api/functions/AddTransactions.cs:107-112 | every record of the batch that passes every rule is upserted under its tenant id |
| AddTransactions.InvalidDetailsHaveReasons | api/functions/AddTransactions.cs:148-152 | every invalid detail carries an id and a non-empty reason |
| AddTransactions.InvalidDetailsJoinMessages | api/functions/AddTransactions.cs:148-152 | the details follow the invalid records in order; each is a rule-breaking record's id with all its messages joined by "; " |
| AddTransactions.MixedBatchExample | api/functions/AddTransactions.cs:75-156 | a valid record followed by one with an empty tenant id, with the upsert accepted: summary (1, 0, 1, [(id, "tenantId is required.")]) and one upsert |
| AddTransactions.EmptyTenantRefused | api/validators/validators.cs:11 | in an otherwise valid record, an empty tenant id is refused with exactly "tenantId is required." |
| AddTransactions2.Judge | api/functions/temp-addtransactions.cs:90-100 | an element is accepted exactly when the placeholder validator answers "OK", and a refusal carries that answer as its reason; an accepted element is a record with a tenant and a positive amount |
| AddTransactions2.IdOf | api/functions/temp-addtransactions.cs:207 | the reported id is null exactly for a null element, and otherwise the record's id |
| AddTransactions2.Aggregation | api/functions/temp-addtransactions.cs:162-184 | there is no aggregation request exactly when the URL is null or empty |
| AddTransactions2.AggregationLists | api/functions/temp-addtransactions.cs:169-172 | the request goes to the URL; it names each valid record's tenant once, and no other tenant |
| AddTransactions2.Run | api/functions/temp-addtransactions.cs:43-215 | a malformed body gives the JSON 400; a null or empty list gives "No transactions provided."; no exception escapes, so never a 500; without a 200 there are no upserts and no aggregation request |
| AddTransactions2.IngestBatch | api/functions/temp-addtransactions.cs:83-214 | the all-invalid 400 with nothing issued, or a 200 that sends an aggregation request exactly when the URL is non-empty |
| AddTransactions2.AllRefusedIff | api/functions/temp-addtransactions.cs:88-105 | the valid list is empty exactly when no element gets "OK" |
| AddTransactions2.AllInvalidIff | api/functions/temp-addtransactions.cs:105-111 | the all-invalid 400 is returned exactly when no element gets "OK" |
| AddTransactions2.IngestBatchCounts | api/functions/temp-addtransactions.cs:116-150 | with one accepted element or more: a 200; upserts plus invalidCount equals the batch size; both counters add up to the number of upserts; successes are the store's `Upserted` answers |
| AddTransactions2.UpsertsOfAcceptedBatch | api/functions/temp-addtransactions.cs:120-125 | the accepted records are upserted in order, each under its tenant id; the aggregation request is built from those same records |
| AddTransactions2.AcceptedAreWellFormed | api/functions/temp-addtransactions.cs:88-102 | every element kept as valid is a record with a non-blank tenant id and a positive amount |
| AddTransactions2.AcceptedRecordsWellFormed | api/functions/temp-addtransactions.cs:95 | every accepted record has a non-blank tenant id and a positive amount |
| AddTransactions2.AcceptedRecordsFromBatch | api/functions/temp-addtransactions.cs:88-95 | every accepted record is an element of the batch |
| AddTransactions2.UpsertsAreAcceptedRecords | api/functions/temp-addtransactions.cs:120-125 | every upsert is of a batch record with a tenant and a positive amount, keyed by that record's tenant id |
| AddTransactions2.RecordTenantsListed | api/functions/temp-addtransactions.cs:169 | every partition key the upserts use appears in the tenant list |
| AddTransactions2.ListedTenantsFromRecords | api/functions/temp-addtransactions.cs:169 | every listed tenant is the partition key of some upsert |
| AddTransactions2.AggregationRequested | api/functions/temp-addtransactions.cs:162-172 | after a 200 with a non-empty URL, the request goes to that URL with a tenant list without duplicates |
| AddTransactions2.UpsertedTenantsAggregated | api/functions/temp-addtransactions.cs:169 | after a 200, every upserted tenant is in the aggregation request |
| AddTransactions2.AggregatedTenantsUpserted | api/functions/temp-addtransactions.cs:169 | after a 200, every tenant in the aggregation request had a record upserted, whether or not that upsert succeeded |
| AddTransactions2.AggregatedTenantsNotBlank | api/functions/temp-addtransactions.cs:169 | no tenant in the aggregation request is null or blank |
| AddTransactions2.RefusalReasons | api/functions/temp-addtransactions.cs:97-100 | every invalid element carries the validator's answer, which is "Transaction is null", "Missing Tenant ID" or "Invalid transaction amount" |
| AddTransactions2.InvalidDetailsOfBatch | api/functions/temp-addtransactions.cs:203-209 | the details list the invalid elements in order, each with its id (null for a null element) and its reason |
| AddTransactions2.InvalidDetailsMirrorRefusals | api/functions/temp-addtransactions.cs:199-210 | each detail's reason is the validator's answer for its element and one of the three reachable reasons; its id is null exactly for a null element |
| AddTransactions2.NullElementReported | api/functions/temp-addtransactions.cs:205-209 | a null element in a batch that gets a 200 shows up as (null, "Transaction is null") |

## Where the code and its own comments and types differ

- The comment at temp-addtransactions.cs:168 says the tenant ids come "from
  successfully processed transactions". The code on the next line takes the
  tenants of every valid record, whether or not that record's upsert
  succeeded. The model follows the code.
- The `Transaction` class (api/models/models.cs:5-37) has no
  `SenderTransactionId` property, yet the validator (validators.cs:26-28)
  and the log call (AddTransactions.cs:89) read one. The model adds
  `senderTransactionId` to `Transaction` as a nullable string, which is how
  both uses treat it.
- The invalid list of `AddTransactions` has the element type
  `(Transaction? Txn, string Reason)` (AddTransactions.cs:76), and the
  summary reads `v.Txn?.Id` (line 150). Both suggest that a null array
  element becomes an invalid record. That holds only in `AddTransactions2`. In `AddTransactions`, the null element
  reaches `_validator.Validate(txn)` (AddTransactions.cs:81), and
  FluentValidation refuses a null instance by throwing. Were it not to
  throw, the log call at line 89 dereferences the element. Nothing catches
  either, so the model answers `Unhandled`, with no upserts.

## Left out

- JSON parsing, HTTP request and response objects, the Cosmos DB SDK, logging, and the Stopwatch `DurationMs` field: these are I/O and timing. The parse result is a `Payload` value, the store is a function from an upsert call to its outcome, and `DurationMs` is not in `Summary`.
- Store: a function of the call, so two identical upserts get the same answer. A live store could answer them differently.
- The concurrency of `Task.WhenAll` and `Interlocked.Increment`: the fan-out is a fold over the outcomes. `AwaitAll` and `TallyOrderIndependent` show that the completion order does not matter.
- The detached `Task.Run` aggregation POST: only the request it attempts is modelled (URL and tenant list), not the network outcome. A URL of white space only is not null or empty, so it is attempted. Its failure is caught and logged inside the task.
- `double` semantics of the money fields: they are reals, because only their comparisons with 0 are used.
- `char`: a Unicode scalar value, not a UTF-16 code unit. White space follows `char.IsWhiteSpace` for the characters it lists. `Length(3)` (validators.cs:15) and `MaximumLength(200)` (validators.cs:28) count UTF-16 code units, so a string with characters outside the Basic Multilingual Plane has a different length in the model.
- `DateTime.UtcNow.AddMinutes(5)` and `AddDays(30)`: plain tick addition, without the `ArgumentOutOfRangeException` near `DateTime.MaxValue`.
- The two `DateTime.UtcNow` reads in the validator's constructor (validators.cs:19 and 23) are one instant `now` in the model. The real reads may differ by the time between them.
- `ValueDate.NotNull()` (validators.cs:22): not among the checks, because a `DateTime` is never null and the check cannot fail.
- Validator wiring: api/Program.cs registers no `IValidator<Transaction>`, so how `AddTransactions` receives its validator is not part of this model. The model takes a `TransactionValidator` built at instant `now`.
- FluentValidation defaults: the library is not part of this model. The default messages of `NotEmpty` (currency) and `MaximumLength(200)` (sender id) follow the wording the library documents. Checks are in the library's default cascade mode, so every check of a rule runs.
- api/Functions/GetTransaction.cs, api/GetTransaction.cs and api/functions/GetTransactions.cs: query glue and stubs outside the ingestion path.
- `ForecastResult` (api/models/models.cs:47-54): unused by the handlers.
- The front-end files under src/: UI and authentication configuration.
- Text.DecimalString: states only that the result is a non-empty string of decimal digits, not that it reads back as the number.
- Validators.SenderIdTooLong: states only the message's fixed prefix, not the exact decimal rendering of the count.

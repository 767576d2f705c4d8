/**
 * The FluentValidation rule set `TransactionValidator`. Rules run in
 * declaration order and, within a rule, every chained check runs (the
 * library's default cascade mode), so one rule may contribute two messages.
 * `WithMessage` replaces the message of the check written just before it
 * only; the other checks keep the library's default wording.
 *
 * `now` is the instant the validator object was constructed: the two date
 * bounds are computed once, from the clock, in the constructor.
 */
module Validators {
  import opened Nullables
  import opened Text
  import opened Models

  const TenantIdRequired: string := "tenantId is required."
  const CompanyIdRequired: string := "companyId is required."
  const AccountIdRequired: string := "accountId is required."
  const AmountNotPositive: string := "amount must be > 0."
  const CurrencyNotEmpty: string := "'Currency' must not be empty."
  const CurrencyNotThreeLetters: string := "currency must be a 3-letter code."
  const FxRateNotPositive: string := "fxRate must be > 0."
  const NetAmountNegative: string := "netAmount must be >= 0."
  const PostedDateTooFar: string := "postedDate can't be in the far future."
  const ValueDateTooFar: string := "valueDate too far in the future."
  const SenderIdRequired: string := "senderTransactionId is required."

  const CurrencyLength: nat := 3
  const SenderIdMaxLength: nat := 200
  const PostedDateSlack: int := 5 * TicksPerMinute
  const ValueDateSlack: int := 30 * TicksPerDay

  /** The library's default message of `MaximumLength(200)`. */
  function SenderIdTooLong(entered: nat): (message: string)
    ensures SenderIdTooLongPrefix <= message
  {
    SenderIdTooLongPrefix + DecimalString(entered) + " characters."
  }

  const SenderIdTooLongPrefix: string :=
    "The length of " + "'Sender Transaction Id' must be 200 characters or fewer. You entered "

  /** `NotEmpty()` on a string: not null, not empty, not only white space. */
  predicate NotEmpty(s: Nullable<string>) {
    !IsNullOrWhiteSpace(s)
  }

  /** `Length(n)` on a string: a null string passes. */
  predicate HasLength(s: Nullable<string>, n: nat) {
    s.Null? || |s.value| == n
  }

  /** `MaximumLength(n)` on a string: a null string passes. */
  predicate WithinLength(s: Nullable<string>, n: nat) {
    s.Null? || |s.value| <= n
  }

  /** One check of a rule: whether it holds, and the message it reports when
      it does not. */
  datatype Check = Check(holds: bool, message: string)

  /** The messages of the failing checks, in order. */
  function Failures(checks: seq<Check>): (errors: seq<string>)
    ensures forall m :: m in errors <==> exists k :: 0 <= k < |checks| && !checks[k].holds && checks[k].message == m
    ensures errors == [] <==> forall k :: 0 <= k < |checks| ==> checks[k].holds
  {
    if |checks| == 0 then []
    else (if checks[0].holds then [] else [checks[0].message]) + Failures(checks[1..])
  }

  /** Every rule of the validator, stated field by field. */
  predicate RulesHold(t: Transaction, now: Ticks) {
    && NotEmpty(t.tenantId)
    && NotEmpty(t.companyId)
    && NotEmpty(t.accountId)
    && t.amount > 0.0
    && t.currency.Value? && NotEmpty(t.currency) && |t.currency.value| == CurrencyLength
    && t.fxRate > 0.0
    && t.netAmount >= 0.0
    && t.postedDate <= now + PostedDateSlack
    && t.valueDate <= now + ValueDateSlack
    && t.senderTransactionId.Value? && NotEmpty(t.senderTransactionId)
    && |t.senderTransactionId.value| <= SenderIdMaxLength
  }

  /** The checks of every rule, in declaration order. The `NotNull()` on the
      value date (validators.cs:22) is not among them: a `DateTime` is never
      null, so that check cannot fail. All of them hold exactly when the
      rules do. */
  function Checks(t: Transaction, now: Ticks): (cs: seq<Check>)
    ensures |cs| == 12
    ensures (forall k :: 0 <= k < |cs| ==> cs[k].holds) <==> RulesHold(t, now)
  {
    var sender := t.senderTransactionId;
    var cs := [ Check(NotEmpty(t.tenantId), TenantIdRequired),
      Check(NotEmpty(t.companyId), CompanyIdRequired),
      Check(NotEmpty(t.accountId), AccountIdRequired),
      Check(t.amount > 0.0, AmountNotPositive),
      Check(NotEmpty(t.currency), CurrencyNotEmpty),
      Check(HasLength(t.currency, CurrencyLength), CurrencyNotThreeLetters),
      Check(t.fxRate > 0.0, FxRateNotPositive),
      Check(t.netAmount >= 0.0, NetAmountNegative),
      Check(t.postedDate <= now + PostedDateSlack, PostedDateTooFar),
      Check(t.valueDate <= now + ValueDateSlack, ValueDateTooFar),
      Check(NotEmpty(sender), SenderIdRequired),
      Check(WithinLength(sender, SenderIdMaxLength), SenderIdTooLong(if sender.Value? then |sender.value| else 0)) ];
    assert RulesHold(t, now) <==> cs[0].holds && cs[1].holds && cs[2].holds && cs[3].holds
                                  && cs[4].holds && cs[5].holds && cs[6].holds && cs[7].holds
                                  && cs[8].holds && cs[9].holds && cs[10].holds && cs[11].holds;
    cs
  }

  /** The error messages of `TransactionValidator.Validate(t)`, in rule order;
      the record is valid when there are none. */
  function Validate(t: Transaction, now: Ticks): (errors: seq<string>)
    ensures errors == [] <==> RulesHold(t, now)
    ensures forall e | e in errors :: |e| > 0
  {
    Failures(Checks(t, now))
  }

  /** A check whose message no other check uses is reported exactly when it fails. */
  lemma {:induction false} UniqueMessageReported(checks: seq<Check>, j: nat)
    requires j < |checks|
    requires forall k :: 0 <= k < |checks| && k != j ==> checks[k].message != checks[j].message
    ensures checks[j].message in Failures(checks) <==> !checks[j].holds
  {
  }

  /** No two checks of the rule set share a message. */
  lemma MessagesDistinct(t: Transaction, now: Ticks)
    ensures forall k, j :: 0 <= k < j < |Checks(t, now)| ==> Checks(t, now)[k].message != Checks(t, now)[j].message
  {
    var checks := Checks(t, now);
    assert checks[11].message[0] == SenderIdTooLongPrefix[0] == 'T';
  }

  /** Every check but the two with library wording reports its message
      exactly when it fails. */
  lemma CustomMessagesReported(t: Transaction, now: Ticks)
    ensures var checks := Checks(t, now);
            forall j | 0 <= j < |checks| && j != 4 && j != 11 ::
              checks[j].message in Validate(t, now) <==> !checks[j].holds
  {
    var checks := Checks(t, now);
    assert Validate(t, now) == Failures(checks);
    forall j | 0 <= j < |checks| && j != 4 && j != 11
      ensures checks[j].message in Failures(checks) <==> !checks[j].holds
    {
      MessagesDistinct(t, now);
      UniqueMessageReported(checks, j);
    }
  }

  /** Each "is required" message is reported exactly when its field is
      null, empty or blank. */
  lemma PresenceMessages(t: Transaction, now: Ticks)
    ensures var errors := Validate(t, now);
      && (TenantIdRequired in errors <==> IsNullOrWhiteSpace(t.tenantId))
      && (CompanyIdRequired in errors <==> IsNullOrWhiteSpace(t.companyId))
      && (AccountIdRequired in errors <==> IsNullOrWhiteSpace(t.accountId))
      && (SenderIdRequired in errors <==> IsNullOrWhiteSpace(t.senderTransactionId))
  {
    var checks := Checks(t, now);
    assert Validate(t, now) == Failures(checks);
    MessagesDistinct(t, now);
    UniqueMessageReported(checks, 0);
    UniqueMessageReported(checks, 1);
    UniqueMessageReported(checks, 2);
    UniqueMessageReported(checks, 10);
  }

  /** Each message about an amount or the currency code is reported exactly
      when its bound is broken. */
  lemma AmountMessages(t: Transaction, now: Ticks)
    ensures var errors := Validate(t, now);
      && (AmountNotPositive in errors <==> t.amount <= 0.0)
      && (CurrencyNotThreeLetters in errors <==> t.currency.Value? && |t.currency.value| != CurrencyLength)
      && (FxRateNotPositive in errors <==> t.fxRate <= 0.0)
      && (NetAmountNegative in errors <==> t.netAmount < 0.0)
  {
    var checks := Checks(t, now);
    assert Validate(t, now) == Failures(checks);
    MessagesDistinct(t, now);
    UniqueMessageReported(checks, 3);
    UniqueMessageReported(checks, 5);
    UniqueMessageReported(checks, 6);
    UniqueMessageReported(checks, 7);
  }

  /** Each date message is reported exactly when the date lies beyond its
      slack from the moment the validator was built. */
  lemma DateMessages(t: Transaction, now: Ticks)
    ensures var errors := Validate(t, now);
      && (PostedDateTooFar in errors <==> t.postedDate > now + PostedDateSlack)
      && (ValueDateTooFar in errors <==> t.valueDate > now + ValueDateSlack)
  {
    var checks := Checks(t, now);
    assert Validate(t, now) == Failures(checks);
    MessagesDistinct(t, now);
    UniqueMessageReported(checks, 8);
    UniqueMessageReported(checks, 9);
  }

  /** The two checks with library wording: the empty-currency message is
      reported exactly when the currency is null, empty or blank, and the
      length message exactly when a present sender id exceeds 200 characters. */
  lemma LibraryMessages(t: Transaction, now: Ticks)
    ensures IsNullOrWhiteSpace(t.currency) <==> CurrencyNotEmpty in Validate(t, now)
    ensures var sender := t.senderTransactionId;
            sender.Value? ==> (SenderIdTooLong(|sender.value|) in Validate(t, now) <==> |sender.value| > SenderIdMaxLength)
  {
    var checks := Checks(t, now);
    assert Validate(t, now) == Failures(checks);
    MessagesDistinct(t, now);
    UniqueMessageReported(checks, 4);
    UniqueMessageReported(checks, 11);
  }

  /** When exactly one check fails, its message is the only one reported. */
  lemma {:induction false} SingleFailure(checks: seq<Check>, j: nat)
    requires j < |checks| && !checks[j].holds
    requires forall k :: 0 <= k < |checks| && k != j ==> checks[k].holds
    ensures Failures(checks) == [checks[j].message]
  {
    if j == 0 {
      assert forall k :: 0 <= k < |checks[1..]| ==> checks[1..][k] == checks[k + 1];
    } else {
      SingleFailure(checks[1..], j - 1);
    }
  }

  /** Failures are reported in check order: the failures of a sequence of
      checks are those of its first part followed by those of the rest. */
  lemma {:induction false} FailuresAppend(a: seq<Check>, b: seq<Check>)
    ensures Failures(a + b) == Failures(a) + Failures(b)
  {
    if |a| == 0 {
      assert a + b == b;
    } else {
      assert (a + b)[1..] == a[1..] + b;
      FailuresAppend(a[1..], b);
    }
  }

  /** Against a record that passes every rule: an empty tenant id together
      with a zero amount is refused with exactly the tenant message followed
      by the amount message. */
  lemma TwoFailuresExample(t: Transaction, now: Ticks)
    requires RulesHold(t, now)
    ensures Validate(t.(tenantId := Value(""), amount := 0.0), now) == [TenantIdRequired, AmountNotPositive]
  {
    var checks := Checks(t.(tenantId := Value(""), amount := 0.0), now);
    assert checks == checks[..1] + checks[1..];
    FailuresAppend(checks[..1], checks[1..]);
    SingleFailure(checks[..1], 0);
    AmountAloneAfterTenant(t, now);
  }

  lemma AmountAloneAfterTenant(t: Transaction, now: Ticks)
    requires RulesHold(t, now)
    ensures Failures(Checks(t.(tenantId := Value(""), amount := 0.0), now)[1..]) == [AmountNotPositive]
  {
    SingleFailure(Checks(t.(tenantId := Value(""), amount := 0.0), now)[1..], 2);
  }

  /** Against a record that passes every rule: "US" is refused with the
      3-letter message alone and "USD" passes. */
  lemma CurrencyCodeExamples(t: Transaction, now: Ticks)
    requires RulesHold(t, now)
    ensures Validate(t.(currency := Value("US")), now) == [CurrencyNotThreeLetters]
    ensures Validate(t.(currency := Value("USD")), now) == []
  {
    var us := t.(currency := Value("US"));
    assert !IsWhiteSpace('U');
    SingleFailure(Checks(us, now), 5);
  }

  /** Against a record that passes every rule: a zero amount is refused with
      the amount message alone, while a zero net amount passes. */
  lemma ZeroAmountExamples(t: Transaction, now: Ticks)
    requires RulesHold(t, now)
    ensures Validate(t.(amount := 0.0), now) == [AmountNotPositive]
    ensures Validate(t.(netAmount := 0.0), now) == []
  {
    SingleFailure(Checks(t.(amount := 0.0), now), 3);
  }

  /** Against a record that passes every rule: a white-space tenant id is
      refused with the tenant message alone. */
  lemma BlankTenantExample(t: Transaction, now: Ticks)
    requires RulesHold(t, now)
    ensures Validate(t.(tenantId := Value(" ")), now) == [TenantIdRequired]
  {
    var blank := t.(tenantId := Value(" "));
    assert IsBlank(" ") by {
      assert " "[1..] == "";
    }
    SingleFailure(Checks(blank, now), 0);
  }
}

/**
 * `AddTransactions2.ValidateTransaction`: a first-failure validator that
 * checks, in order, for a null record, a blank id, a blank tenant and a
 * non-positive amount, and answers "OK" when none applies.
 */
module PlaceholderValidator {
  import opened Nullables
  import opened Text
  import opened Guids
  import opened Models

  const Accepted: string := "OK"
  const NullTransaction: string := "Transaction is null"
  const MissingTransactionId: string := "Missing transaction ID"
  const MissingTenantId: string := "Missing Tenant ID"
  const InvalidAmount: string := "Invalid transaction amount"

  function ValidateTransaction(txn: Nullable<Transaction>): (verdict: string)
    ensures verdict in {Accepted, NullTransaction, MissingTransactionId, MissingTenantId, InvalidAmount}
    ensures verdict == Accepted ==> txn.Value? && !IsNullOrWhiteSpace(txn.value.tenantId) && txn.value.amount > 0.0
    ensures txn.Null? ==> verdict == NullTransaction
  {
    if txn.Null? then NullTransaction
    else if IsNullOrWhiteSpace(Value(GuidString(txn.value.id))) then MissingTransactionId
    else if IsNullOrWhiteSpace(txn.value.tenantId) then MissingTenantId
    else if txn.value.amount <= 0.0 then InvalidAmount
    else Accepted
  }

  /** The blank-id branch can never be taken: a Guid's string form is never blank. */
  lemma MissingIdUnreachable(txn: Nullable<Transaction>)
    ensures ValidateTransaction(txn) != MissingTransactionId
  {
    if txn.Value? {
      GuidStringNotBlank(txn.value.id);
    }
  }

  /** A record is accepted exactly when it is present, has a tenant and has a
      positive amount. */
  lemma AcceptedIff(txn: Nullable<Transaction>)
    ensures ValidateTransaction(txn) == Accepted
            <==> txn.Value? && !IsNullOrWhiteSpace(txn.value.tenantId) && txn.value.amount > 0.0
  {
    MissingIdUnreachable(txn);
  }

  /** The tenant check comes before the amount check: a blank tenant is the
      reason even when the amount is also invalid. */
  lemma BlankTenantReportedFirst(t: Transaction)
    requires IsNullOrWhiteSpace(t.tenantId)
    ensures ValidateTransaction(Value(t)) == MissingTenantId
  {
    MissingIdUnreachable(Value(t));
  }

  /** With a tenant present, a non-positive amount is the reason. */
  lemma AmountCheckedLast(t: Transaction)
    requires !IsNullOrWhiteSpace(t.tenantId) && t.amount <= 0.0
    ensures ValidateTransaction(Value(t)) == InvalidAmount
  {
    MissingIdUnreachable(Value(t));
  }

  /** No failure reason reads "OK", so the caller's comparison with "OK" tells
      valid from invalid. */
  lemma NoReasonIsAccepted()
    ensures Accepted !in {NullTransaction, MissingTransactionId, MissingTenantId, InvalidAmount}
  {
  }
}

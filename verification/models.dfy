/**
 * The ingested record. Reference-typed properties may be null after JSON
 * deserialisation; `double` money fields are reals (only their sign is ever
 * inspected); `DateTime` values are ticks (100-nanosecond units).
 */
module Models {
  import opened Nullables
  import opened Guids

  type Ticks = int

  const TicksPerMinute: int := 600_000_000
  const TicksPerDay: int := 1440 * TicksPerMinute

  datatype InvoiceDetails = InvoiceDetails(
    invoiceId: Nullable<string>,
    dueDate: Ticks,
    paymentTermsDays: int,
    status: Nullable<string>)

  datatype Transaction = Transaction(
    id: Guid,
    tenantId: Nullable<string>,
    companyId: Nullable<string>,
    accountId: Nullable<string>,
    transactionType: Nullable<string>,
    sourceSystem: Nullable<string>,
    sourceId: Nullable<string>,
    postedDate: Ticks,
    valueDate: Ticks,
    amount: real,
    taxAmount: real,
    netAmount: real,
    taxRate: real,
    paymentTerms: int,
    currency: Nullable<string>,
    fxRate: real,
    convertedAmount: real,
    category: Nullable<string>,
    description: Nullable<string>,
    invoice: Nullable<InvoiceDetails>,
    createdAt: Ticks,
    paymentDate: Ticks,
    dateIssued: Ticks,
    senderTransactionId: Nullable<string>)
}

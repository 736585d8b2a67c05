/**
 * The persisted rows of the consumables service and its configuration.
 *
 * There are three tables: consumable_balances (one row per user, keyed by
 * user id), consumable_purchases and consumable_usages (append-only audit
 * ledgers). The two ledgers share their leading columns (a serial id and the
 * owning user); `Row<T>` holds those and the table-specific fields. Creation
 * timestamps are modelled by the position of a row in its table.
 */
module Schema {
  import opened Wrappers

  /** A consumable_balances row, without its key and timestamps. */
  datatype BalanceRow = BalanceRow(balance: int, initialCredits: int)

  /** A ledger row: serial id, owning user, and the table's own columns. */
  datatype Row<T> = Row(id: nat, userId: string, fields: T)

  /** The columns of consumable_purchases after id and user_id. */
  datatype Purchase = Purchase(
    credits: int,
    source: string,
    transactionRefId: Option<string>,
    productId: Option<string>,
    priceCents: Option<int>,
    currency: Option<string>)

  /** The column of consumable_usages after id and user_id. */
  datatype Usage = Usage(filename: Option<string>)

  type PurchaseRecord = Row<Purchase>
  type UsageRecord = Row<Usage>

  /** The three tables as the service sees them. */
  datatype Db = Db(
    balances: map<string, BalanceRow>,
    purchases: seq<PurchaseRecord>,
    usages: seq<UsageRecord>)

  /** Service configuration; the webhook secret is not used by the balance service. */
  datatype ConsumablesConfig = ConsumablesConfig(initialFreeCredits: int, revenueCatWebhookSecret: Option<string>)

  /** The source recorded for the free-credit grant made when a balance row is created. */
  const FreeSource: string := "free"
}

# Consumable credits service, modelled in Dafny

This project models the core of a per-user consumable-credit service.

- Every user has one balance row. It is created lazily on first read and seeded with the configured free credits.
- Purchases add credits, and each purchase is appended to a purchase ledger.
- A usage deducts exactly one credit, and only from a positive balance. Each successful deduction appends one row to a usage ledger.
- Purchases that arrive through a RevenueCat webhook are deduplicated by their transaction id.
- A separate pure function turns a webhook event into a normalized purchase, or into nothing.

## Files

- `wrappers.dfy`: module `Wrappers`. The `Option` type stands for nullable columns and optional arguments.
- `schema.dfy`: module `Schema`. It holds the balance row, the two ledger rows (`Row<T>`: serial id, owning user and the table's own fields), the three tables as one value `Db`, and the configuration.
- `ledger.dfy`: module `Ledger`. It covers inserting with the next serial id, listing one user's rows newest first (`Newest`), SQL `LIMIT`/`OFFSET` (`Page`), a user's purchased credits (`SumCredits`) and the transaction-reference lookup.
- `consumables.dfy`: module `Consumables`. Each public operation of `ConsumablesHelper` is a function from the tables before a call to the tables after it plus the returned value. The file also proves the table invariants, and the lemma `RunKeepsInvariants` carries them over any sequence of calls.
- `helper.dfy`: module `Helper`, with class `ConsumablesHelper`. Its fields are the balances map and the two ledger sequences. Its methods update those fields in the order the service issues its queries. Each method is proved to produce exactly the tables and the result that the matching `Consumables` function gives.
- `webhook.dfy`: module `Webhook`. It models the event filter, field extraction, price rounding and the store-to-source mapping.

Modelling choices:

- Creation time is modelled as position in a table.
- Ids are serial: the n-th row inserted has id n.
- "Newest first" therefore means descending ids.
- Operations run one at a time.

## Model

| member | source | states |
|---|---|---|
| `Consumables.GetBalance` | src/helpers/ConsumablesHelper.ts:31-63 | after the call the user has a row and the response is exactly that stored row's balance and initial_credits; no usage row is written |
| `Consumables.GetBalanceOfExisting` | src/helpers/ConsumablesHelper.ts:33-43 | an existing row is returned unchanged and the tables are not touched |
| `Consumables.GetBalanceOfAbsent` | src/helpers/ConsumablesHelper.ts:45-62 | a missing row is created with balance = initial_credits = initialFreeCredits, and those values are returned; one `free` purchase row with those credits and null optional fields is appended if and only if initialFreeCredits > 0 |
| `Consumables.GetBalanceIdempotent` | src/helpers/ConsumablesHelper.ts:33-43 | a second getBalance returns the same values as the first and writes nothing |
| `Consumables.GetBalanceKeepsInvariant` | src/helpers/ConsumablesHelper.ts:45-60 | with initialFreeCredits >= 0, creating a row keeps ids serial, every ledger row owned by an existing user, and every balance equal to purchased credits minus usage rows; existing rows and initial_credits are kept |
| `Consumables.GetBalanceKeepsNonNegative` | src/helpers/ConsumablesHelper.ts:46-51 | with initialFreeCredits >= 0, getBalance makes no balance negative |
| `Consumables.RecordPurchase` | src/helpers/ConsumablesHelper.ts:66-105 | the user has a row afterwards and the response equals that stored row |
| `Consumables.RecordPurchaseEffect` | src/helpers/ConsumablesHelper.ts:72-104 | new balance = prior balance + credits, where the prior balance of a missing user is initialFreeCredits; initial_credits is kept; exactly one row carrying the request is appended after what getBalance wrote; usages and other users' rows are untouched |
| `Consumables.RecordPurchaseStoresNulls` | src/helpers/ConsumablesHelper.ts:76-84 | a request without optional fields is stored with null transaction_ref_id, product_id, price_cents and currency |
| `Consumables.CreditKeepsInvariant` | src/helpers/ConsumablesHelper.ts:76-93 | appending a purchase and adding its credits keeps the ledger and the balance in agreement |
| `Consumables.RecordPurchaseKeepsInvariant` | src/helpers/ConsumablesHelper.ts:66-105 | recordPurchase keeps the table invariant and never removes rows or changes initial_credits |
| `Consumables.RecordPurchaseKeepsNonNegative` | src/helpers/ConsumablesHelper.ts:87-93 | with non-negative credits and free grant, no balance becomes negative |
| `Consumables.RecordPurchaseMayRepeatRef` | src/helpers/ConsumablesHelper.ts:76-84 | nothing on the direct purchase path stops two purchases with the same transaction_ref_id |
| `Consumables.RecordUsage` | src/helpers/ConsumablesHelper.ts:108-139 | the user has a row afterwards and the reported balance is the stored one |
| `Consumables.RecordUsageSucceedsIff` | src/helpers/ConsumablesHelper.ts:115-126 | a usage succeeds if and only if the user already had a row with a positive balance |
| `Consumables.RecordUsageOnSuccess` | src/helpers/ConsumablesHelper.ts:115-138 | on success the balance drops by exactly 1, one usage row with the filename (or null) is appended, purchases are untouched, and the response is {new balance, true} |
| `Consumables.RecordUsageOnFailure` | src/helpers/ConsumablesHelper.ts:126-130 | on failure no usage row is written, the tables are what getBalance leaves (unchanged for an existing user), and the reported balance is the current one |
| `Consumables.FirstUsageOfNewUserRefused` | src/helpers/ConsumablesHelper.ts:126-130 | a user without a row is refused on a first usage, even though the lazy creation then leaves them a positive balance |
| `Consumables.RecordUsageAuditsDeduction` | src/helpers/ConsumablesHelper.ts:132-136 | a user's usage rows grow by one exactly when that user's deduction succeeded |
| `Consumables.RecordUsageKeepsInvariant` | src/helpers/ConsumablesHelper.ts:115-136 | recordUsage keeps the table invariant: usage rows still equal successful deductions |
| `Consumables.RecordUsageKeepsNonNegative` | src/helpers/ConsumablesHelper.ts:118-122 | the guarded decrement never makes a balance negative |
| `Consumables.RecordPurchaseFromWebhook` | src/helpers/ConsumablesHelper.ts:177-209 | the user has a row afterwards and the reported balance is the stored one |
| `Consumables.WebhookDuplicateIsNoOp` | src/helpers/ConsumablesHelper.ts:187-197 | a transaction id already on record adds no purchase carrying the request and none of its credits; the tables are what getBalance leaves (unchanged when the user already has a row); the response is {true, current balance} |
| `Consumables.WebhookNewIsPurchase` | src/helpers/ConsumablesHelper.ts:199-208 | a new transaction id is exactly recordPurchase with that id as the reference; the response is {false, prior balance + credits} |
| `Consumables.WebhookTwiceCreditsOnce` | src/helpers/ConsumablesHelper.ts:186-208 | a second delivery of the same transaction changes nothing and reports the balance the first delivery left |
| `Consumables.GetBalanceKeepsUniqueRefs` | src/helpers/ConsumablesHelper.ts:53-60 | the free-grant row carries no transaction reference |
| `Consumables.WebhookKeepsUniqueRefs` | src/helpers/ConsumablesHelper.ts:186-208 | the duplicate check keeps at most one purchase per transaction reference |
| `Consumables.WebhookKeepsInvariant` | src/helpers/ConsumablesHelper.ts:177-209 | the webhook path keeps the table invariant |
| `Consumables.WebhookKeepsNonNegative` | src/helpers/ConsumablesHelper.ts:177-209 | with non-negative credits, the webhook path makes no balance negative |
| `Consumables.PurchaseFields` | src/helpers/ConsumablesHelper.ts:76-84 | the stored purchase carries every field of the request unchanged, absent ones as null |
| `Consumables.FreeGrant` | src/helpers/ConsumablesHelper.ts:55-59 | the free-grant row carries the free credits, source `free`, and null transaction_ref_id, product_id, price_cents and currency |
| `Consumables.WebhookRequest` | src/helpers/ConsumablesHelper.ts:199-206 | the webhook's purchase request carries the transaction id as its reference and the credits, source, product, price and currency as given |
| `Consumables.PurchaseHistory` | src/helpers/ConsumablesHelper.ts:142-155 | a purchase page holds at most `limit` rows, each a row of the purchase table that belongs to the user |
| `Consumables.UsageHistory` | src/helpers/ConsumablesHelper.ts:158-171 | a usage page holds at most `limit` rows, each a row of the usage table that belongs to the user |
| `Consumables.PurchaseHistoryContents` | src/helpers/ConsumablesHelper.ts:142-155 | a purchase page holds at most `limit` rows; all are the user's own purchases, newest first, starting `offset` rows into the user's listing |
| `Consumables.UsageHistoryContents` | src/helpers/ConsumablesHelper.ts:158-171 | the same for usage pages |
| `Consumables.PurchaseHistoryComplete` | src/helpers/ConsumablesHelper.ts:148-154 | a large enough first page lists every purchase of the user |
| `Consumables.UsageHistoryComplete` | src/helpers/ConsumablesHelper.ts:164-170 | a large enough first page lists every usage of the user |
| `Consumables.ApplyKeepsInvariants` | src/helpers/ConsumablesHelper.ts:31-209 | every state-changing call keeps the invariant and non-negativity |
| `Consumables.RunKeepsInvariants` | src/helpers/ConsumablesHelper.ts:31-209 | over any sequence of calls with non-negative credits, no balance goes negative and every balance equals purchased credits minus usages |
| `Consumables.EmptyTablesSatisfyInvariants` | src/schema/index.ts:16-41 | empty tables satisfy the invariants |
| `Ledger.Append` | src/schema/index.ts:25 | an insert keeps every existing row in place and adds one row last, with the next serial id, the owner and the fields given; it models the inserts at src/helpers/ConsumablesHelper.ts:53-59, :76-84 and :133-136 |
| `Ledger.RowsWithRef` | src/helpers/ConsumablesHelper.ts:187-192 | the duplicate-check query returns only purchases of the table carrying the transaction id, and returns none exactly when no purchase carries it |
| `Ledger.HasTransactionRef` | src/helpers/ConsumablesHelper.ts:187-194 | the query result is non-empty if and only if some purchase carries the transaction id as its reference |
| `Ledger.Newest` | src/helpers/ConsumablesHelper.ts:151-152 | a listing holds only rows of the table that belong to the given user, and no more rows than the table |
| `Ledger.Page` | src/helpers/ConsumablesHelper.ts:153-154 | the page skips `offset` rows and keeps at most `limit` of the rest, in order |
| `Ledger.NewestMembers` | src/helpers/ConsumablesHelper.ts:151 | a row is listed if and only if it is in the table and belongs to the user |
| `Ledger.NewestIsDescending` | src/helpers/ConsumablesHelper.ts:152 | when ids follow insertion order, the listing is newest first |
| `Ledger.NewestRowAt` | src/helpers/ConsumablesHelper.ts:148-152 | every listed row is a row of the table |
| `Ledger.PageKeepsDescending` | src/helpers/ConsumablesHelper.ts:152-154 | paging keeps newest-first order |
| `Ledger.NewestOfAbsent` | src/helpers/ConsumablesHelper.ts:45-51 | a user with no rows, such as one just created, has an empty listing |
| `Ledger.SumCreditsOfAbsent` | src/helpers/ConsumablesHelper.ts:45-51 | a user without purchases has no credits in the ledger |
| `Ledger.NewestAppend` | src/helpers/ConsumablesHelper.ts:133-136 | an inserted row heads its owner's listing and leaves other users' listings unchanged |
| `Ledger.SumCreditsAppend` | src/helpers/ConsumablesHelper.ts:76-84 | an inserted purchase changes only its owner's credit total, by its credits |
| `Ledger.AppendKeepsSerialIds` | src/schema/index.ts:25 | inserting keeps ids serial |
| `Ledger.SerialIdsIncrease` | src/schema/index.ts:25 | serial ids increase with insertion order |
| `Helper.ConsumablesHelper.constructor` | src/helpers/ConsumablesHelper.ts:20-28 | the helper starts over the given tables and configuration, and is `Valid()` when those tables satisfy the invariants and the free grant is not negative |
| `Helper.ConsumablesHelper.GetBalance` | src/helpers/ConsumablesHelper.ts:31-63 | the new tables and the result are those of `Consumables.GetBalance`; `Valid()` is kept |
| `Helper.ConsumablesHelper.RecordPurchase` | src/helpers/ConsumablesHelper.ts:66-105 | the new tables and the result are those of `Consumables.RecordPurchase`; `Valid()` is kept for non-negative credits |
| `Helper.ConsumablesHelper.RecordUsage` | src/helpers/ConsumablesHelper.ts:108-139 | the new tables and the result are those of `Consumables.RecordUsage`; `Valid()` is kept |
| `Helper.ConsumablesHelper.GetPurchaseHistory` | src/helpers/ConsumablesHelper.ts:142-155 | read-only; at most `limit` rows, all the user's own purchases, newest first when `Valid()`; defaults 50 and 0 |
| `Helper.ConsumablesHelper.GetUsageHistory` | src/helpers/ConsumablesHelper.ts:158-171 | read-only; at most `limit` rows, all the user's own usages, newest first when `Valid()`; defaults 50 and 0 |
| `Helper.ConsumablesHelper.RecordPurchaseFromWebhook` | src/helpers/ConsumablesHelper.ts:177-209 | the new tables and the result are those of `Consumables.RecordPurchaseFromWebhook`; `Valid()` and unique transaction references are kept |
| `Webhook.ParseConsumablePurchaseEvent` | src/helpers/WebhookHelper.ts:28-52 | the result is non-null exactly for the two purchase event types; then the user id and transaction id are copied, the price in cents is the nearest integer to price × 100, and the store goes through the corrected `SourceForStore`, not the lookup as written (see Findings) |
| `Webhook.ParseAcceptsOnlyPurchases` | src/helpers/WebhookHelper.ts:38-44 | the result is non-null if and only if the event type is NON_RENEWING_PURCHASE or INITIAL_PURCHASE |
| `Webhook.ParseCopiesFields` | src/helpers/WebhookHelper.ts:44-51 | user id, transaction id, product id and currency are copied verbatim; the store is mapped; the price in cents is the nearest integer to price × 100 |
| `Webhook.ParseIgnoresVersionAndTime` | src/helpers/WebhookHelper.ts:28-52 | api_version and purchased_at_ms do not affect the result |
| `Webhook.MathRound` | src/helpers/WebhookHelper.ts:48 | the result lies within one half of the argument, with halves rounded up |
| `Webhook.PriceRounding` | src/helpers/WebhookHelper.ts:48 | 19.99 gives 1999 cents and 4.995 gives 500 cents |
| `Webhook.SourceForStore` | src/helpers/WebhookHelper.ts:18-22 | a mapped store gets its table entry; any other store is its own source |
| `Webhook.StoreMapping` | src/helpers/WebhookHelper.ts:18-22 | STRIPE maps to web, APP_STORE to apple, PLAY_STORE to google |
| `Webhook.UnknownStorePassesThrough` | src/helpers/WebhookHelper.ts:50 | a store name not in the table is returned unchanged |
| `Webhook.SourceLookupAsWritten` | src/helpers/WebhookHelper.ts:50 | `STORE_TO_SOURCE[store] ?? store` as evaluated on a plain object: a string exactly when the store is not an inherited property name, and then the same string `SourceForStore` gives |
| `Webhook.InheritedKeyIsNotPassedThrough` | src/helpers/WebhookHelper.ts:50 | with the lookup as written, the store name "constructor" does not come out as a string |
| `Webhook.AsWrittenAgreesOffPrototype` | src/helpers/WebhookHelper.ts:50 | apart from inherited property names, the lookup as written agrees with `SourceForStore` |

Transaction references:

- `transaction_ref_id` carries no uniqueness constraint (src/schema/index.ts:29). So only the webhook lookup at src/helpers/ConsumablesHelper.ts:187-197 keeps references unique (`Consumables.WebhookKeepsUniqueRefs`). A direct `recordPurchase` can repeat a reference (`Consumables.RecordPurchaseMayRepeatRef`).
- No code catches a rejected duplicate insert, so none is modelled.

## Left out

- `validateWebhookSignature` (src/helpers/WebhookHelper.ts:7-16): the HMAC-SHA256 digest comes from Node's `crypto` module, a foreign call.
- Floating point: the price is an exact real, and `Math.round` is `floor(x + 1/2)` on the exact product. Binary64 rounding is not modelled. For example, 1.005 × 100 comes out just below 100.5 in binary64, so it rounds to 100; the model gives 101.
- Non-integer `credits`, `limit` or `offset` are not modelled, and neither are negative `limit` or `offset`. `limit` and `offset` are `nat`.
- Integer width: balance, credits and price_cents are 32-bit `integer` columns. The database would reject an overflow, and the model's integers are unbounded.
- Column lengths (`varchar(128)` and the others) and the errors for values that exceed them.
- Timestamps: `created_at` is the insertion position, and `updated_at` is not modelled. Rows created in the same instant have no defined order under `ORDER BY created_at DESC`; the model lists them in reverse insertion order.
- Serial ids are numbered 1, 2, 3, … A real sequence can skip values after failed inserts.
- Concurrency: the atomicity of the conditional `UPDATE`, and the race between the duplicate lookup and the insert. Operations are sequential.
- The Drizzle query builder and the untyped `db` handle are replaced by the three tables. Storage errors are not modelled.
- The `ConsumableSource` type belongs to an external package and is modelled as a string. `revenueCatWebhookSecret` is carried in the configuration but never read.
- src/index.ts holds re-exports only.
- `Helper.ConsumablesHelper.RecordPurchase`: does not model the balance `UPDATE` matching no row, because `getBalance` has just created the row.

## Findings

| source | as written | input that shows it | evidently intended | confidence | as-written member | corrected member |
|---|---|---|---|---|---|---|
| src/helpers/WebhookHelper.ts:50 | `STORE_TO_SOURCE[store] ?? store` reads a property of a plain object, so names inherited from `Object.prototype` resolve to a function or an object, and `??` keeps that result | store `"constructor"` (also `"toString"`, `"__proto__"`, …) | any store name outside the three-entry table passes through unchanged as a string | medium; not executed, follows JavaScript property lookup | `Webhook.SourceLookupAsWritten`, `Webhook.InheritedKeyIsNotPassedThrough` | `Webhook.SourceForStore`, `Webhook.UnknownStorePassesThrough` |

/**
 * ConsumablesHelper: the balance service as an object over the three tables.
 *
 * The database handle becomes three fields that the methods update in
 * place, statement by statement as the service issues its queries. Each
 * method is proved to leave exactly the tables, and return exactly the
 * value, that the corresponding function of module Consumables gives; the
 * properties of those functions are proved there.
 */
module Helper {
  import opened Wrappers
  import opened Schema
  import opened Ledger
  import Consumables

  class ConsumablesHelper {
    const config: ConsumablesConfig
    var balances: map<string, BalanceRow>
    var purchases: seq<PurchaseRecord>
    var usages: seq<UsageRecord>

    /** The tables as a value. */
    ghost function Tables(): Db
      reads this
    {
      Db(balances, purchases, usages)
    }

    /**
     * The tables are well formed, no balance is negative, and every balance
     * equals its purchased credits minus its usage rows; the free grant is
     * not negative.
     */
    ghost predicate Valid()
      reads this
    {
      && config.initialFreeCredits >= 0
      && Consumables.Invariant(Tables())
      && Consumables.NonNegative(Tables())
    }

    /** The helper over existing tables with the given configuration. */
    constructor (db: Db, config: ConsumablesConfig)
      ensures Tables() == db && this.config == config
      ensures config.initialFreeCredits >= 0 && Consumables.Invariant(db) && Consumables.NonNegative(db) ==> Valid()
    {
      this.config := config;
      balances, purchases, usages := db.balances, db.purchases, db.usages;
    }

    /** Get or create the balance row; first access grants the free credits. */
    method GetBalance(userId: string) returns (r: Consumables.BalanceResponse)
      modifies this`balances, this`purchases
      ensures Tables() == Consumables.GetBalance(old(Tables()), config.initialFreeCredits, userId).db
      ensures r == Consumables.GetBalance(old(Tables()), config.initialFreeCredits, userId).result
      ensures old(Valid()) ==> Valid()
    {
      ghost var before := Tables();
      if Valid() {
        Consumables.GetBalanceKeepsInvariant(before, config.initialFreeCredits, userId);
        Consumables.GetBalanceKeepsNonNegative(before, config.initialFreeCredits, userId);
      }
      if userId in balances {
        var existing := balances[userId];
        return Consumables.BalanceResponse(existing.balance, existing.initialCredits);
      }
      var freeCredits := config.initialFreeCredits;
      balances := balances[userId := BalanceRow(freeCredits, freeCredits)];
      if freeCredits > 0 {
        purchases := Append(purchases, userId, Consumables.FreeGrant(freeCredits));
      }
      r := Consumables.BalanceResponse(freeCredits, freeCredits);
    }

    /** Record a purchase: ensure the row, insert the purchase, add the credits, read the row back. */
    method RecordPurchase(userId: string, request: Consumables.PurchaseRequest) returns (r: Consumables.BalanceResponse)
      modifies this`balances, this`purchases
      ensures Tables() == Consumables.RecordPurchase(old(Tables()), config.initialFreeCredits, userId, request).db
      ensures r == Consumables.RecordPurchase(old(Tables()), config.initialFreeCredits, userId, request).result
      ensures old(Valid()) && request.credits >= 0 ==> Valid()
    {
      ghost var before := Tables();
      if Valid() && request.credits >= 0 {
        Consumables.RecordPurchaseKeepsInvariant(before, config.initialFreeCredits, userId, request);
        Consumables.RecordPurchaseKeepsNonNegative(before, config.initialFreeCredits, userId, request);
      }
      var ensured := GetBalance(userId);
      purchases := Append(purchases, userId, Consumables.PurchaseFields(request));
      var row := balances[userId];
      balances := balances[userId := row.(balance := row.balance + request.credits)];
      var updated := balances[userId];
      r := Consumables.BalanceResponse(updated.balance, updated.initialCredits);
    }

    /** Record a usage: deduct one credit only from a positive balance; otherwise report the balance. */
    method RecordUsage(userId: string, filename: Option<string> := None) returns (r: Consumables.UseResponse)
      modifies this
      ensures Tables() == Consumables.RecordUsage(old(Tables()), config.initialFreeCredits, userId, filename).db
      ensures r == Consumables.RecordUsage(old(Tables()), config.initialFreeCredits, userId, filename).result
      ensures old(Valid()) ==> Valid()
    {
      ghost var before := Tables();
      if Valid() {
        Consumables.RecordUsageKeepsInvariant(before, config.initialFreeCredits, userId, filename);
        Consumables.RecordUsageKeepsNonNegative(before, config.initialFreeCredits, userId, filename);
      }
      // The guarded decrement: the rows it updated, with their new balance.
      var result: seq<int> := [];
      if userId in balances && balances[userId].balance > 0 {
        var row := balances[userId];
        balances := balances[userId := row.(balance := row.balance - 1)];
        result := [balances[userId].balance];
      }
      if |result| == 0 {
        var current := GetBalance(userId);
        return Consumables.UseResponse(current.balance, false);
      }
      usages := Append(usages, userId, Usage(filename));
      r := Consumables.UseResponse(result[0], true);
    }

    /** One page of the user's purchases, newest first. */
    method GetPurchaseHistory(userId: string, limit: nat := Consumables.DefaultLimit, offset: nat := Consumables.DefaultOffset)
      returns (r: seq<PurchaseRecord>)
      ensures r == Consumables.PurchaseHistory(Tables(), userId, limit, offset)
      ensures |r| <= limit
      ensures forall k :: 0 <= k < |r| ==> r[k].userId == userId && r[k] in purchases
      ensures Valid() ==> DescendingIds(r)
    {
      r := Page(Newest(purchases, userId), limit, offset);
      if Valid() {
        Consumables.PurchaseHistoryContents(Tables(), userId, limit, offset);
      }
    }

    /** One page of the user's usages, newest first. */
    method GetUsageHistory(userId: string, limit: nat := Consumables.DefaultLimit, offset: nat := Consumables.DefaultOffset)
      returns (r: seq<UsageRecord>)
      ensures r == Consumables.UsageHistory(Tables(), userId, limit, offset)
      ensures |r| <= limit
      ensures forall k :: 0 <= k < |r| ==> r[k].userId == userId && r[k] in usages
      ensures Valid() ==> DescendingIds(r)
    {
      r := Page(Newest(usages, userId), limit, offset);
      if Valid() {
        Consumables.UsageHistoryContents(Tables(), userId, limit, offset);
      }
    }

    /** Idempotent purchase from a webhook: a transaction id already on record is not credited again. */
    method RecordPurchaseFromWebhook(
      userId: string, transactionId: string, credits: int, source: string,
      productId: string, priceCents: int, currency: string) returns (r: Consumables.WebhookResponse)
      modifies this`balances, this`purchases
      ensures Tables() == Consumables.RecordPurchaseFromWebhook(
        old(Tables()), config.initialFreeCredits, userId, transactionId, credits, source, productId, priceCents, currency).db
      ensures r == Consumables.RecordPurchaseFromWebhook(
        old(Tables()), config.initialFreeCredits, userId, transactionId, credits, source, productId, priceCents, currency).result
      ensures old(Valid()) && credits >= 0 ==> Valid()
      ensures old(UniqueRefs(purchases)) ==> UniqueRefs(purchases)
    {
      ghost var before := Tables();
      if UniqueRefs(purchases) {
        Consumables.WebhookKeepsUniqueRefs(before, config.initialFreeCredits, userId, transactionId, credits, source, productId, priceCents, currency);
      }
      if HasTransactionRef(purchases, transactionId) {
        var bal := GetBalance(userId);
        return Consumables.WebhookResponse(true, bal.balance);
      }
      var result := RecordPurchase(userId, Consumables.WebhookRequest(transactionId, credits, source, productId, priceCents, currency));
      r := Consumables.WebhookResponse(false, result.balance);
    }
  }
}

/**
 * The balance service as a state machine over the three tables.
 *
 * Each public operation of ConsumablesHelper is a function from the tables
 * before the call to a `Step`: the tables after the call and the value
 * returned. Operations run one at a time; `free` is the configured
 * initialFreeCredits.
 */
module Consumables {
  import opened Wrappers
  import opened Schema
  import opened Ledger

  datatype BalanceResponse = BalanceResponse(balance: int, initialCredits: int)
  datatype UseResponse = UseResponse(balance: int, success: bool)
  datatype WebhookResponse = WebhookResponse(alreadyProcessed: bool, balance: int)

  /** A purchase request; absent optional fields are stored as null. */
  datatype PurchaseRequest = PurchaseRequest(
    credits: int,
    source: string,
    transactionRefId: Option<string>,
    productId: Option<string>,
    priceCents: Option<int>,
    currency: Option<string>)

  /** The tables after an operation and what it returned. */
  datatype Step<R> = Step(db: Db, result: R)

  const DefaultLimit: nat := 50
  const DefaultOffset: nat := 0

  /** The purchase row written for a request. */
  function PurchaseFields(request: PurchaseRequest): (p: Purchase)
    ensures p.credits == request.credits && p.source == request.source
    ensures p.transactionRefId == request.transactionRefId && p.productId == request.productId
    ensures p.priceCents == request.priceCents && p.currency == request.currency
  {
    Purchase(request.credits, request.source, request.transactionRefId,
             request.productId, request.priceCents, request.currency)
  }

  /** The audit row for the free-credit grant. */
  function FreeGrant(free: int): (p: Purchase)
    ensures p.credits == free && p.source == FreeSource
    ensures p.transactionRefId.None? && p.productId.None? && p.priceCents.None? && p.currency.None?
  {
    Purchase(free, FreeSource, None, None, None, None)
  }

  // ---------------------------------------------------------------------------
  // Operations
  // ---------------------------------------------------------------------------

  /** getBalance: read the user's row, creating it (and its free-credit audit entry) on first access. */
  function GetBalance(db: Db, free: int, userId: string): (s: Step<BalanceResponse>)
    ensures userId in s.db.balances
    ensures s.result == BalanceResponse(s.db.balances[userId].balance, s.db.balances[userId].initialCredits)
    ensures s.db.usages == db.usages
  {
    if userId in db.balances then
      Step(db, BalanceResponse(db.balances[userId].balance, db.balances[userId].initialCredits))
    else
      var created := db.(balances := db.balances[userId := BalanceRow(free, free)]);
      var audited := if free > 0 then created.(purchases := Append(created.purchases, userId, FreeGrant(free)))
                     else created;
      Step(audited, BalanceResponse(free, free))
  }

  /** recordPurchase: ensure the row, append the purchase, add the credits, return the stored row. */
  function RecordPurchase(db: Db, free: int, userId: string, request: PurchaseRequest): (s: Step<BalanceResponse>)
    ensures userId in s.db.balances
    ensures s.result == BalanceResponse(s.db.balances[userId].balance, s.db.balances[userId].initialCredits)
  {
    var ensured := GetBalance(db, free, userId).db;
    var inserted := ensured.(purchases := Append(ensured.purchases, userId, PurchaseFields(request)));
    var row := inserted.balances[userId];
    var updated := inserted.(balances := inserted.balances[userId := row.(balance := row.balance + request.credits)]);
    Step(updated, BalanceResponse(updated.balances[userId].balance, updated.balances[userId].initialCredits))
  }

  /** recordUsage: take one credit if the user has a row with a positive balance; otherwise report the balance. */
  function RecordUsage(db: Db, free: int, userId: string, filename: Option<string>): (s: Step<UseResponse>)
    ensures userId in s.db.balances
    ensures s.result.balance == s.db.balances[userId].balance
  {
    if userId in db.balances && db.balances[userId].balance > 0 then
      var row := db.balances[userId];
      var decremented := db.(balances := db.balances[userId := row.(balance := row.balance - 1)]);
      var audited := decremented.(usages := Append(decremented.usages, userId, Usage(filename)));
      Step(audited, UseResponse(row.balance - 1, true))
    else
      var current := GetBalance(db, free, userId);
      Step(current.db, UseResponse(current.result.balance, false))
  }

  /** recordPurchaseFromWebhook: purchase unless a purchase already carries the transaction id. */
  function RecordPurchaseFromWebhook(
    db: Db, free: int, userId: string, transactionId: string, credits: int,
    source: string, productId: string, priceCents: int, currency: string): (s: Step<WebhookResponse>)
    ensures userId in s.db.balances
    ensures s.result.balance == s.db.balances[userId].balance
  {
    if HasTransactionRef(db.purchases, transactionId) then
      var bal := GetBalance(db, free, userId);
      Step(bal.db, WebhookResponse(true, bal.result.balance))
    else
      var request := WebhookRequest(transactionId, credits, source, productId, priceCents, currency);
      var purchased := RecordPurchase(db, free, userId, request);
      Step(purchased.db, WebhookResponse(false, purchased.result.balance))
  }

  /** The purchase request the webhook path hands to recordPurchase. */
  function WebhookRequest(
    transactionId: string, credits: int, source: string,
    productId: string, priceCents: int, currency: string): (r: PurchaseRequest)
    ensures r.transactionRefId == Some(transactionId) && r.credits == credits && r.source == source
    ensures r.productId == Some(productId) && r.priceCents == Some(priceCents) && r.currency == Some(currency)
  {
    PurchaseRequest(credits, source, Some(transactionId), Some(productId), Some(priceCents), Some(currency))
  }

  /** getPurchaseHistory: one page of the user's purchases, newest first. */
  function PurchaseHistory(db: Db, userId: string, limit: nat, offset: nat): (r: seq<PurchaseRecord>)
    ensures |r| <= limit
    ensures forall k :: 0 <= k < |r| ==> r[k].userId == userId && r[k] in db.purchases
  {
    Page(Newest(db.purchases, userId), limit, offset)
  }

  /** getUsageHistory: one page of the user's usages, newest first. */
  function UsageHistory(db: Db, userId: string, limit: nat, offset: nat): (r: seq<UsageRecord>)
    ensures |r| <= limit
    ensures forall k :: 0 <= k < |r| ==> r[k].userId == userId && r[k] in db.usages
  {
    Page(Newest(db.usages, userId), limit, offset)
  }

  // ---------------------------------------------------------------------------
  // Invariants of the tables
  // ---------------------------------------------------------------------------

  /** Serial ids in both ledgers, and every ledger row belongs to a user with a balance row. */
  ghost predicate WellFormed(db: Db) {
    && SerialIds(db.purchases)
    && SerialIds(db.usages)
    && (forall i :: 0 <= i < |db.purchases| ==> db.purchases[i].userId in db.balances)
    && (forall i :: 0 <= i < |db.usages| ==> db.usages[i].userId in db.balances)
  }

  /** No stored balance is negative. */
  ghost predicate NonNegative(db: Db) {
    forall u :: u in db.balances ==> db.balances[u].balance >= 0
  }

  /** Each balance is the credits purchased (the free grant included) minus one per usage row. */
  ghost predicate LedgerBalanced(db: Db) {
    forall u :: u in db.balances ==>
      db.balances[u].balance == SumCredits(db.purchases, u) - |Newest(db.usages, u)|
  }

  ghost predicate Invariant(db: Db) {
    WellFormed(db) && LedgerBalanced(db)
  }

  /** Rows are never removed and their initial_credits never change. */
  ghost predicate Extends(before: Db, after: Db) {
    && (forall u :: u in before.balances ==>
          u in after.balances && after.balances[u].initialCredits == before.balances[u].initialCredits)
    && before.purchases <= after.purchases
    && before.usages <= after.usages
  }

  // ---------------------------------------------------------------------------
  // getBalance
  // ---------------------------------------------------------------------------

  /** An existing row is returned as stored and nothing is written. */
  lemma GetBalanceOfExisting(db: Db, free: int, userId: string)
    requires userId in db.balances
    ensures GetBalance(db, free, userId) ==
            Step(db, BalanceResponse(db.balances[userId].balance, db.balances[userId].initialCredits))
  {
  }

  /**
   * A missing row is created with balance = initial_credits = free, and one
   * `free` purchase row is appended exactly when free is positive.
   */
  lemma GetBalanceOfAbsent(db: Db, free: int, userId: string)
    requires userId !in db.balances
    ensures var s := GetBalance(db, free, userId);
      && s.db.balances == db.balances[userId := BalanceRow(free, free)]
      && s.result == BalanceResponse(free, free)
      && s.db.usages == db.usages
      && (|s.db.purchases| == |db.purchases| + 1 <==> free > 0)
      && s.db.purchases == db.purchases + (if free > 0 then [Row(|db.purchases| + 1, userId, FreeGrant(free))] else [])
  {
  }

  /** A second getBalance returns the same values and writes nothing. */
  lemma GetBalanceIdempotent(db: Db, free: int, userId: string)
    ensures var first := GetBalance(db, free, userId);
            GetBalance(first.db, free, userId) == first
  {
  }

  lemma GetBalanceKeepsInvariant(db: Db, free: int, userId: string)
    requires Invariant(db) && free >= 0
    ensures Invariant(GetBalance(db, free, userId).db)
    ensures Extends(db, GetBalance(db, free, userId).db)
  {
    if userId !in db.balances {
      var s := GetBalance(db, free, userId).db;
      var created := db.(balances := db.balances[userId := BalanceRow(free, free)]);
      if free > 0 {
        AppendKeepsSerialIds(created.purchases, userId, FreeGrant(free));
      }
      forall u | u in s.balances
        ensures s.balances[u].balance == SumCredits(s.purchases, u) - |Newest(s.usages, u)|
      {
        if free > 0 {
          SumCreditsAppend(db.purchases, userId, FreeGrant(free), u);
        }
        if u == userId {
          SumCreditsOfAbsent(db.purchases, userId);
          NewestOfAbsent(db.usages, userId);
        }
      }
    }
  }

  lemma GetBalanceKeepsNonNegative(db: Db, free: int, userId: string)
    requires NonNegative(db) && free >= 0
    ensures NonNegative(GetBalance(db, free, userId).db)
  {
  }

  // ---------------------------------------------------------------------------
  // recordPurchase
  // ---------------------------------------------------------------------------

  /** The balance a user has before an operation, counting the grant getBalance would create. */
  function PriorBalance(db: Db, free: int, userId: string): int {
    if userId in db.balances then db.balances[userId].balance else free
  }

  /**
   * recordPurchase adds exactly the request's credits to the prior balance,
   * keeps initial_credits, appends exactly one row carrying the request after
   * whatever getBalance wrote, and touches no usage and no other user's row.
   */
  lemma RecordPurchaseEffect(db: Db, free: int, userId: string, request: PurchaseRequest)
    ensures var s := RecordPurchase(db, free, userId, request);
            var ensured := GetBalance(db, free, userId).db;
      && s.db.balances[userId].balance == PriorBalance(db, free, userId) + request.credits
      && s.db.balances[userId].initialCredits == GetBalance(db, free, userId).result.initialCredits
      && s.db.purchases == ensured.purchases + [Row(|ensured.purchases| + 1, userId, PurchaseFields(request))]
      && s.db.usages == db.usages
      && (forall u :: u in db.balances && u != userId ==> u in s.db.balances && s.db.balances[u] == db.balances[u])
      && s.db.balances.Keys == db.balances.Keys + {userId}
  {
  }

  /** Missing optional request fields are stored as null. */
  lemma RecordPurchaseStoresNulls(db: Db, free: int, userId: string, credits: int, source: string)
    ensures var s := RecordPurchase(db, free, userId, PurchaseRequest(credits, source, None, None, None, None));
      && |s.db.purchases| > 0
      && s.db.purchases[|s.db.purchases| - 1] == Row(|s.db.purchases|, userId, Purchase(credits, source, None, None, None, None))
  {
  }

  /** Appending a purchase for an existing user and adding its credits keeps the invariant. */
  lemma CreditKeepsInvariant(db: Db, userId: string, fields: Purchase)
    requires Invariant(db) && userId in db.balances
    ensures var inserted := db.(purchases := Append(db.purchases, userId, fields));
            var row := db.balances[userId];
            Invariant(inserted.(balances := inserted.balances[userId := row.(balance := row.balance + fields.credits)]))
  {
  }

  lemma RecordPurchaseKeepsInvariant(db: Db, free: int, userId: string, request: PurchaseRequest)
    requires Invariant(db) && free >= 0
    ensures Invariant(RecordPurchase(db, free, userId, request).db)
    ensures Extends(db, RecordPurchase(db, free, userId, request).db)
  {
    var ensured := GetBalance(db, free, userId).db;
    GetBalanceKeepsInvariant(db, free, userId);
    var fields := PurchaseFields(request);
    var inserted := ensured.(purchases := Append(ensured.purchases, userId, fields));
    var row := ensured.balances[userId];
    var updated := inserted.(balances := inserted.balances[userId := row.(balance := row.balance + fields.credits)]);
    assert RecordPurchase(db, free, userId, request).db == updated;
    CreditKeepsInvariant(ensured, userId, fields);
    assert Extends(ensured, updated);
    ExtendsTransitive(db, ensured, updated);
  }

  lemma ExtendsTransitive(a: Db, b: Db, c: Db)
    requires Extends(a, b) && Extends(b, c)
    ensures Extends(a, c)
  {
  }

  lemma RecordPurchaseKeepsNonNegative(db: Db, free: int, userId: string, request: PurchaseRequest)
    requires NonNegative(db) && free >= 0 && request.credits >= 0
    ensures NonNegative(RecordPurchase(db, free, userId, request).db)
  {
  }

  /** Without a uniqueness constraint, a direct purchase may repeat a transaction reference. */
  lemma RecordPurchaseMayRepeatRef()
    ensures var db := Db(map[], [], []);
            var request := PurchaseRequest(25, "web", Some("txn"), None, None, None);
            var once := RecordPurchase(db, 0, "u", request).db;
            var twice := RecordPurchase(once, 0, "u", request).db;
            UniqueRefs(once.purchases) && !UniqueRefs(twice.purchases)
  {
    var db := Db(map[], [], []);
    var request := PurchaseRequest(25, "web", Some("txn"), None, None, None);
    var once := RecordPurchase(db, 0, "u", request).db;
    var twice := RecordPurchase(once, 0, "u", request).db;
    assert twice.purchases[0].fields.transactionRefId == twice.purchases[1].fields.transactionRefId == Some("txn");
  }

  // ---------------------------------------------------------------------------
  // recordUsage
  // ---------------------------------------------------------------------------

  /** A usage succeeds exactly when the user already has a row with a positive balance. */
  lemma RecordUsageSucceedsIff(db: Db, free: int, userId: string, filename: Option<string>)
    ensures RecordUsage(db, free, userId, filename).result.success <==>
            userId in db.balances && db.balances[userId].balance > 0
  {
  }

  /** On success the balance drops by one and one usage row (with the filename or null) is appended. */
  lemma RecordUsageOnSuccess(db: Db, free: int, userId: string, filename: Option<string>)
    requires userId in db.balances && db.balances[userId].balance > 0
    ensures var s := RecordUsage(db, free, userId, filename);
      && s.result == UseResponse(db.balances[userId].balance - 1, true)
      && s.db.balances == db.balances[userId := db.balances[userId].(balance := db.balances[userId].balance - 1)]
      && s.db.usages == db.usages + [Row(|db.usages| + 1, userId, Usage(filename))]
      && s.db.purchases == db.purchases
  {
  }

  /**
   * On failure no usage row is written and the tables are exactly what
   * getBalance leaves: an existing (zero or negative) balance is unchanged, a
   * missing row is created with the free grant.
   */
  lemma RecordUsageOnFailure(db: Db, free: int, userId: string, filename: Option<string>)
    requires !(userId in db.balances && db.balances[userId].balance > 0)
    ensures var s := RecordUsage(db, free, userId, filename);
      && !s.result.success
      && s.db == GetBalance(db, free, userId).db
      && s.db.usages == db.usages
      && s.result.balance == PriorBalance(db, free, userId)
      && (userId in db.balances ==> s.db == db)
  {
  }

  /**
   * The first usage attempt of a user without a row is refused, even when the
   * free grant it triggers leaves that user with credits.
   */
  lemma FirstUsageOfNewUserRefused(db: Db, free: int, userId: string, filename: Option<string>)
    requires userId !in db.balances && free > 0
    ensures var s := RecordUsage(db, free, userId, filename);
            !s.result.success && s.result.balance == free && s.db.balances[userId].balance > 0
  {
  }

  /** Each successful deduction adds exactly one usage row for that user, and no other row. */
  lemma RecordUsageAuditsDeduction(db: Db, free: int, userId: string, filename: Option<string>, who: string)
    ensures var s := RecordUsage(db, free, userId, filename);
            |Newest(s.db.usages, who)| ==
            |Newest(db.usages, who)| + (if s.result.success && who == userId then 1 else 0)
  {
  }

  lemma RecordUsageKeepsInvariant(db: Db, free: int, userId: string, filename: Option<string>)
    requires Invariant(db) && free >= 0
    ensures Invariant(RecordUsage(db, free, userId, filename).db)
    ensures Extends(db, RecordUsage(db, free, userId, filename).db)
  {
    if userId in db.balances && db.balances[userId].balance > 0 {
      AppendKeepsSerialIds(db.usages, userId, Usage(filename));
      var s := RecordUsage(db, free, userId, filename).db;
      forall u | u in s.balances
        ensures s.balances[u].balance == SumCredits(s.purchases, u) - |Newest(s.usages, u)|
      {
        NewestAppend(db.usages, userId, Usage(filename), u);
      }
    } else {
      GetBalanceKeepsInvariant(db, free, userId);
    }
  }

  /** The only decrement is guarded by a positive balance, so usage never makes a balance negative. */
  lemma RecordUsageKeepsNonNegative(db: Db, free: int, userId: string, filename: Option<string>)
    requires NonNegative(db) && free >= 0
    ensures NonNegative(RecordUsage(db, free, userId, filename).db)
  {
  }

  // ---------------------------------------------------------------------------
  // recordPurchaseFromWebhook
  // ---------------------------------------------------------------------------

  /** A transaction id already on record adds nothing: the tables are what getBalance leaves. */
  lemma WebhookDuplicateIsNoOp(
    db: Db, free: int, userId: string, transactionId: string, credits: int,
    source: string, productId: string, priceCents: int, currency: string)
    requires HasTransactionRef(db.purchases, transactionId)
    ensures var s := RecordPurchaseFromWebhook(db, free, userId, transactionId, credits, source, productId, priceCents, currency);
      && s.result == WebhookResponse(true, PriorBalance(db, free, userId))
      && s.db == GetBalance(db, free, userId).db
      && (userId in db.balances ==> s.db == db)
  {
  }

  /** A new transaction id is exactly recordPurchase with that id as the reference. */
  lemma WebhookNewIsPurchase(
    db: Db, free: int, userId: string, transactionId: string, credits: int,
    source: string, productId: string, priceCents: int, currency: string)
    requires !HasTransactionRef(db.purchases, transactionId)
    ensures var s := RecordPurchaseFromWebhook(db, free, userId, transactionId, credits, source, productId, priceCents, currency);
            var p := RecordPurchase(db, free, userId, WebhookRequest(transactionId, credits, source, productId, priceCents, currency));
      && s.db == p.db
      && s.result == WebhookResponse(false, p.result.balance)
      && s.result.balance == PriorBalance(db, free, userId) + credits
  {
  }

  /** Delivering the same webhook twice credits the purchase once. */
  lemma WebhookTwiceCreditsOnce(
    db: Db, free: int, userId: string, transactionId: string, credits: int,
    source: string, productId: string, priceCents: int, currency: string)
    ensures var first := RecordPurchaseFromWebhook(db, free, userId, transactionId, credits, source, productId, priceCents, currency);
            var second := RecordPurchaseFromWebhook(first.db, free, userId, transactionId, credits, source, productId, priceCents, currency);
      && second.result == WebhookResponse(true, first.result.balance)
      && second.db == first.db
  {
    var first := RecordPurchaseFromWebhook(db, free, userId, transactionId, credits, source, productId, priceCents, currency);
    if !HasTransactionRef(db.purchases, transactionId) {
      var request := WebhookRequest(transactionId, credits, source, productId, priceCents, currency);
      RecordPurchaseEffect(db, free, userId, request);
      assert first.db.purchases[|first.db.purchases| - 1].fields.transactionRefId == Some(transactionId);
    } else {
      var i :| 0 <= i < |db.purchases| && db.purchases[i].fields.transactionRefId == Some(transactionId);
      assert first.db.purchases[i] == db.purchases[i];
    }
    assert HasTransactionRef(first.db.purchases, transactionId);
  }

  /** The free grant carries no transaction reference, so getBalance keeps references unique. */
  lemma GetBalanceKeepsUniqueRefs(db: Db, free: int, userId: string)
    requires UniqueRefs(db.purchases)
    ensures UniqueRefs(GetBalance(db, free, userId).db.purchases)
  {
  }

  /** The duplicate check keeps transaction references unique across webhook deliveries. */
  lemma WebhookKeepsUniqueRefs(
    db: Db, free: int, userId: string, transactionId: string, credits: int,
    source: string, productId: string, priceCents: int, currency: string)
    requires UniqueRefs(db.purchases)
    ensures UniqueRefs(RecordPurchaseFromWebhook(db, free, userId, transactionId, credits, source, productId, priceCents, currency).db.purchases)
  {
  }

  lemma WebhookKeepsInvariant(
    db: Db, free: int, userId: string, transactionId: string, credits: int,
    source: string, productId: string, priceCents: int, currency: string)
    requires Invariant(db) && free >= 0
    ensures Invariant(RecordPurchaseFromWebhook(db, free, userId, transactionId, credits, source, productId, priceCents, currency).db)
    ensures Extends(db, RecordPurchaseFromWebhook(db, free, userId, transactionId, credits, source, productId, priceCents, currency).db)
  {
    if HasTransactionRef(db.purchases, transactionId) {
      GetBalanceKeepsInvariant(db, free, userId);
    } else {
      RecordPurchaseKeepsInvariant(db, free, userId, WebhookRequest(transactionId, credits, source, productId, priceCents, currency));
    }
  }

  lemma WebhookKeepsNonNegative(
    db: Db, free: int, userId: string, transactionId: string, credits: int,
    source: string, productId: string, priceCents: int, currency: string)
    requires NonNegative(db) && free >= 0 && credits >= 0
    ensures NonNegative(RecordPurchaseFromWebhook(db, free, userId, transactionId, credits, source, productId, priceCents, currency).db)
  {
  }

  // ---------------------------------------------------------------------------
  // History
  // ---------------------------------------------------------------------------

  /**
   * A purchase page holds only the user's purchases, newest first, at most
   * `limit` of them, starting `offset` rows into the user's listing; with no
   * paging limit in effect it lists every purchase of the user.
   */
  lemma PurchaseHistoryContents(db: Db, userId: string, limit: nat, offset: nat)
    requires WellFormed(db)
    ensures var r := PurchaseHistory(db, userId, limit, offset);
      && |r| <= limit
      && DescendingIds(r)
      && (forall k :: 0 <= k < |r| ==> r[k].userId == userId && r[k] in db.purchases)
      && (forall k :: 0 <= k < |r| ==> r[k] == Newest(db.purchases, userId)[offset + k])
  {
    SerialIdsIncrease(db.purchases);
    NewestIsDescending(db.purchases, userId);
    PageKeepsDescending(Newest(db.purchases, userId), limit, offset);
    var r := PurchaseHistory(db, userId, limit, offset);
    forall k | 0 <= k < |r|
      ensures r[k] in db.purchases
    {
      NewestMembers(db.purchases, userId, r[k]);
    }
  }

  /** The same contract for usage pages. */
  lemma UsageHistoryContents(db: Db, userId: string, limit: nat, offset: nat)
    requires WellFormed(db)
    ensures var r := UsageHistory(db, userId, limit, offset);
      && |r| <= limit
      && DescendingIds(r)
      && (forall k :: 0 <= k < |r| ==> r[k].userId == userId && r[k] in db.usages)
      && (forall k :: 0 <= k < |r| ==> r[k] == Newest(db.usages, userId)[offset + k])
  {
    SerialIdsIncrease(db.usages);
    NewestIsDescending(db.usages, userId);
    PageKeepsDescending(Newest(db.usages, userId), limit, offset);
    var r := UsageHistory(db, userId, limit, offset);
    forall k | 0 <= k < |r|
      ensures r[k] in db.usages
    {
      NewestMembers(db.usages, userId, r[k]);
    }
  }

  /** A first page large enough holds every one of the user's purchases. */
  lemma PurchaseHistoryComplete(db: Db, userId: string, limit: nat, x: PurchaseRecord)
    requires limit >= |db.purchases|
    requires x in db.purchases && x.userId == userId
    ensures x in PurchaseHistory(db, userId, limit, 0)
  {
    NewestMembers(db.purchases, userId, x);
    assert PurchaseHistory(db, userId, limit, 0) == Newest(db.purchases, userId);
  }

  /** A first page large enough holds every one of the user's usages. */
  lemma UsageHistoryComplete(db: Db, userId: string, limit: nat, x: UsageRecord)
    requires limit >= |db.usages|
    requires x in db.usages && x.userId == userId
    ensures x in UsageHistory(db, userId, limit, 0)
  {
    NewestMembers(db.usages, userId, x);
    assert UsageHistory(db, userId, limit, 0) == Newest(db.usages, userId);
  }

  // ---------------------------------------------------------------------------
  // Any sequence of calls
  // ---------------------------------------------------------------------------

  /** A call of one of the state-changing operations. */
  datatype Call =
    | GetBalanceCall(userId: string)
    | PurchaseCall(userId: string, request: PurchaseRequest)
    | UsageCall(userId: string, filename: Option<string>)
    | WebhookCall(userId: string, transactionId: string, credits: int, source: string,
                  productId: string, priceCents: int, currency: string)

  function Apply(db: Db, free: int, call: Call): Db {
    match call
    case GetBalanceCall(u) => GetBalance(db, free, u).db
    case PurchaseCall(u, request) => RecordPurchase(db, free, u, request).db
    case UsageCall(u, filename) => RecordUsage(db, free, u, filename).db
    case WebhookCall(u, t, c, src, p, price, cur) => RecordPurchaseFromWebhook(db, free, u, t, c, src, p, price, cur).db
  }

  /** The tables after running the calls in order. */
  function Run(db: Db, free: int, calls: seq<Call>): Db
    decreases |calls|
  {
    if |calls| == 0 then db else Run(Apply(db, free, calls[0]), free, calls[1..])
  }

  /** The credits a call may add. */
  function CallCredits(call: Call): int {
    match call
    case PurchaseCall(_, request) => request.credits
    case WebhookCall(_, _, credits, _, _, _, _) => credits
    case _ => 0
  }

  lemma ApplyKeepsInvariants(db: Db, free: int, call: Call)
    requires Invariant(db) && NonNegative(db) && free >= 0 && CallCredits(call) >= 0
    ensures Invariant(Apply(db, free, call)) && NonNegative(Apply(db, free, call))
    ensures Extends(db, Apply(db, free, call))
  {
    match call
    case GetBalanceCall(u) =>
      GetBalanceKeepsInvariant(db, free, u);
      GetBalanceKeepsNonNegative(db, free, u);
    case PurchaseCall(u, request) =>
      RecordPurchaseKeepsInvariant(db, free, u, request);
      RecordPurchaseKeepsNonNegative(db, free, u, request);
    case UsageCall(u, filename) =>
      RecordUsageKeepsInvariant(db, free, u, filename);
      RecordUsageKeepsNonNegative(db, free, u, filename);
    case WebhookCall(u, t, c, src, p, price, cur) =>
      WebhookKeepsInvariant(db, free, u, t, c, src, p, price, cur);
      WebhookKeepsNonNegative(db, free, u, t, c, src, p, price, cur);
  }

  /**
   * Starting from empty tables, with a non-negative free grant and
   * non-negative purchase credits, every sequence of calls leaves no negative
   * balance and every balance equal to its credits purchased minus its usage
   * rows.
   */
  lemma {:induction false} RunKeepsInvariants(db: Db, free: int, calls: seq<Call>)
    requires Invariant(db) && NonNegative(db) && free >= 0
    requires forall k :: 0 <= k < |calls| ==> CallCredits(calls[k]) >= 0
    ensures Invariant(Run(db, free, calls)) && NonNegative(Run(db, free, calls))
    ensures Extends(db, Run(db, free, calls))
    decreases |calls|
  {
    if |calls| > 0 {
      ApplyKeepsInvariants(db, free, calls[0]);
      var next := Apply(db, free, calls[0]);
      RunKeepsInvariants(next, free, calls[1..]);
    }
  }

  /** Empty tables satisfy every invariant. */
  lemma EmptyTablesSatisfyInvariants()
    ensures Invariant(Db(map[], [], [])) && NonNegative(Db(map[], [], []))
  {
  }
}

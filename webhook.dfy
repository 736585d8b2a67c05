/**
 * Reading a RevenueCat webhook event: only the two consumable purchase event
 * types are accepted; the purchase fields are copied out, the price is
 * converted to minor units with Math.round, and the store name is mapped
 * to a payment source.
 */
module Webhook {
  import opened Wrappers

  /** The `event` object of a RevenueCat webhook delivery. */
  datatype EventBody = EventBody(
    eventType: string,
    appUserId: string,
    productId: string,
    priceInPurchasedCurrency: real,
    currency: string,
    store: string,
    transactionId: string,
    purchasedAtMs: int)

  datatype RevenueCatWebhookEvent = RevenueCatWebhookEvent(apiVersion: string, event: EventBody)

  /** The normalized purchase handed on to the balance service. */
  datatype ConsumablePurchase = ConsumablePurchase(
    userId: string,
    transactionId: string,
    productId: string,
    priceCents: int,
    currency: string,
    store: string)

  /** The event types that are consumable purchases. */
  const ValidTypes: seq<string> := ["NON_RENEWING_PURCHASE", "INITIAL_PURCHASE"]

  /** The store names with a payment source of their own. */
  const StoreToSource: map<string, string> := map["STRIPE" := "web", "APP_STORE" := "apple", "PLAY_STORE" := "google"]

  /** Math.round on an exact value: the nearest integer, halves rounded up. */
  function MathRound(x: real): (r: int)
    ensures r as real - 0.5 <= x < r as real + 0.5
  {
    (x + 0.5).Floor
  }

  /** The payment source for a store: its mapped name, or the store name itself. */
  function SourceForStore(store: string): (source: string)
    ensures store in StoreToSource ==> source == StoreToSource[store]
    ensures store !in StoreToSource ==> source == store
  {
    if store in StoreToSource then StoreToSource[store] else store
  }

  /** The purchase an event describes, or None when the event is not a consumable purchase. */
  function ParseConsumablePurchaseEvent(e: RevenueCatWebhookEvent): (r: Option<ConsumablePurchase>)
    ensures r.Some? <==> e.event.eventType in ValidTypes
    ensures r.Some? ==> r.value.userId == e.event.appUserId && r.value.transactionId == e.event.transactionId
    ensures r.Some? ==> r.value.store == SourceForStore(e.event.store)
    ensures r.Some? ==> r.value.priceCents as real - 0.5 <= e.event.priceInPurchasedCurrency * 100.0 < r.value.priceCents as real + 0.5
  {
    if e.event.eventType !in ValidTypes then None
    else
      Some(ConsumablePurchase(
        e.event.appUserId,
        e.event.transactionId,
        e.event.productId,
        MathRound(e.event.priceInPurchasedCurrency * 100.0),
        e.event.currency,
        SourceForStore(e.event.store)))
  }

  /** Accepted exactly for the two purchase event types; every other type yields None. */
  lemma ParseAcceptsOnlyPurchases(e: RevenueCatWebhookEvent)
    ensures ParseConsumablePurchaseEvent(e).Some? <==>
            e.event.eventType == "NON_RENEWING_PURCHASE" || e.event.eventType == "INITIAL_PURCHASE"
  {
  }

  /** An accepted event's identifiers and currency are copied verbatim, and its store is mapped. */
  lemma ParseCopiesFields(e: RevenueCatWebhookEvent)
    requires e.event.eventType in ValidTypes
    ensures var p := ParseConsumablePurchaseEvent(e).value;
      && p.userId == e.event.appUserId
      && p.transactionId == e.event.transactionId
      && p.productId == e.event.productId
      && p.currency == e.event.currency
      && p.store == SourceForStore(e.event.store)
      && p.priceCents as real - 0.5 <= e.event.priceInPurchasedCurrency * 100.0 < p.priceCents as real + 0.5
  {
  }

  /** The API version and the purchase time have no effect on the result. */
  lemma ParseIgnoresVersionAndTime(e: RevenueCatWebhookEvent, apiVersion: string, purchasedAtMs: int)
    ensures ParseConsumablePurchaseEvent(e) ==
            ParseConsumablePurchaseEvent(e.(apiVersion := apiVersion, event := e.event.(purchasedAtMs := purchasedAtMs)))
  {
  }

  /** STRIPE pays on the web, APP_STORE through Apple, PLAY_STORE through Google. */
  lemma StoreMapping()
    ensures SourceForStore("STRIPE") == "web"
    ensures SourceForStore("APP_STORE") == "apple"
    ensures SourceForStore("PLAY_STORE") == "google"
  {
  }

  /** A store name outside the table is its own source. */
  lemma UnknownStorePassesThrough(store: string)
    requires store != "STRIPE" && store != "APP_STORE" && store != "PLAY_STORE"
    ensures SourceForStore(store) == store
  {
  }

  /** 19.99 is 1999 cents, and 4.995 rounds half up to 500 cents. */
  lemma PriceRounding()
    ensures MathRound(19.99 * 100.0) == 1999
    ensures MathRound(4.995 * 100.0) == 500
  {
  }

  // ---------------------------------------------------------------------------
  // The store lookup as written: a JavaScript property read on a plain object
  // ---------------------------------------------------------------------------

  /**
   * Property names a plain JavaScript object inherits from Object.prototype;
   * reading one of them from the mapping object yields a function or an
   * object, which `??` does not replace.
   */
  const InheritedKeys: set<string> := {
    "constructor", "__proto__", "toString", "toLocaleString", "valueOf", "hasOwnProperty",
    "isPrototypeOf", "propertyIsEnumerable", "__defineGetter__", "__defineSetter__",
    "__lookupGetter__", "__lookupSetter__" }

  /** What `STORE_TO_SOURCE[store] ?? store` evaluates to. */
  datatype JsValue = JsString(s: string) | InheritedMember(key: string)

  /** The lookup as written, with the prototype chain of the mapping object. */
  function SourceLookupAsWritten(store: string): (r: JsValue)
    ensures r.JsString? <==> store !in InheritedKeys
    ensures r.JsString? ==> r.s == SourceForStore(store)
  {
    if store in StoreToSource then JsString(StoreToSource[store])
    else if store in InheritedKeys then InheritedMember(store)
    else JsString(store)
  }

  /** The store "constructor" comes out as Object's constructor, not as a string. */
  lemma InheritedKeyIsNotPassedThrough()
    ensures SourceLookupAsWritten("constructor") != JsString("constructor")
    ensures !SourceLookupAsWritten("constructor").JsString?
  {
  }

  /** Outside the inherited names the lookup as written agrees with SourceForStore. */
  lemma AsWrittenAgreesOffPrototype(store: string)
    requires store !in InheritedKeys
    ensures SourceLookupAsWritten(store) == JsString(SourceForStore(store))
  {
  }
}

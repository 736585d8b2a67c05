/**
 * The append-only audit ledgers: inserting a row with the next serial id,
 * listing one user's rows newest first, limit/offset paging, and the credit
 * total of a user's purchases.
 */
module Ledger {
  import opened Wrappers
  import opened Schema

  /** Inserts a row; the serial id is one more than the number of rows so far. */
  function Append<T>(rows: seq<Row<T>>, userId: string, fields: T): (r: seq<Row<T>>)
    ensures |r| == |rows| + 1 && r[..|rows|] == rows
    ensures r[|rows|].id == |r| && r[|rows|].userId == userId && r[|rows|].fields == fields
  {
    rows + [Row(|rows| + 1, userId, fields)]
  }

  /** Ids are 1, 2, 3, ... in insertion order, as a serial column assigns them. */
  ghost predicate SerialIds<T>(rows: seq<Row<T>>) {
    forall i :: 0 <= i < |rows| ==> rows[i].id == i + 1
  }

  /** Ids grow with insertion order (so with creation time). */
  ghost predicate IncreasingIds<T>(rows: seq<Row<T>>) {
    forall i, j :: 0 <= i < j < |rows| ==> rows[i].id < rows[j].id
  }

  /** Ids shrink along the sequence: newest first. */
  ghost predicate DescendingIds<T>(rows: seq<Row<T>>) {
    forall i, j :: 0 <= i < j < |rows| ==> rows[i].id > rows[j].id
  }

  /** The rows that belong to `userId`, most recently inserted first. */
  function Newest<T>(rows: seq<Row<T>>, userId: string): (r: seq<Row<T>>)
    ensures |r| <= |rows|
    ensures forall k :: 0 <= k < |r| ==> r[k].userId == userId && r[k] in rows
  {
    if |rows| == 0 then []
    else
      var last := rows[|rows| - 1];
      (if last.userId == userId then [last] else []) + Newest(rows[..|rows| - 1], userId)
  }

  /** SQL `LIMIT limit OFFSET offset` applied to an ordered result. */
  function Page<T>(s: seq<T>, limit: nat, offset: nat): (r: seq<T>)
    ensures |r| == if offset >= |s| then 0 else if limit < |s| - offset then limit else |s| - offset
    ensures forall k :: 0 <= k < |r| ==> r[k] == s[offset + k]
  {
    if offset >= |s| then []
    else if limit < |s| - offset then s[offset..offset + limit]
    else s[offset..]
  }

  /** The credits of all purchases recorded for `userId`. */
  function SumCredits(purchases: seq<PurchaseRecord>, userId: string): int {
    if |purchases| == 0 then 0
    else
      var last := purchases[|purchases| - 1];
      SumCredits(purchases[..|purchases| - 1], userId) + (if last.userId == userId then last.fields.credits else 0)
  }

  /** The purchases whose transaction reference is `transactionId`, in table order. */
  function RowsWithRef(purchases: seq<PurchaseRecord>, transactionId: string): (r: seq<PurchaseRecord>)
    ensures forall k :: 0 <= k < |r| ==> r[k] in purchases && r[k].fields.transactionRefId == Some(transactionId)
    ensures |r| == 0 <==> forall i :: 0 <= i < |purchases| ==> purchases[i].fields.transactionRefId != Some(transactionId)
  {
    if |purchases| == 0 then []
    else
      var last := purchases[|purchases| - 1];
      RowsWithRef(purchases[..|purchases| - 1], transactionId) +
        (if last.fields.transactionRefId == Some(transactionId) then [last] else [])
  }

  /** The duplicate check: the query for the reference returns at least one row. */
  predicate HasTransactionRef(purchases: seq<PurchaseRecord>, transactionId: string)
    ensures HasTransactionRef(purchases, transactionId) <==>
            exists i :: 0 <= i < |purchases| && purchases[i].fields.transactionRefId == Some(transactionId)
  {
    |RowsWithRef(purchases, transactionId)| > 0
  }

  /** At most one purchase per non-null transaction reference. */
  ghost predicate UniqueRefs(purchases: seq<PurchaseRecord>) {
    forall i, j :: 0 <= i < j < |purchases| && purchases[i].fields.transactionRefId.Some? ==>
      purchases[i].fields.transactionRefId != purchases[j].fields.transactionRefId
  }

  lemma AppendKeepsSerialIds<T>(rows: seq<Row<T>>, userId: string, fields: T)
    requires SerialIds(rows)
    ensures SerialIds(Append(rows, userId, fields))
  {
  }

  lemma SerialIdsIncrease<T>(rows: seq<Row<T>>)
    requires SerialIds(rows)
    ensures IncreasingIds(rows)
  {
  }

  /** Inserting a row puts it at the head of its owner's listing and changes no one else's. */
  lemma NewestAppend<T>(rows: seq<Row<T>>, userId: string, fields: T, who: string)
    ensures Newest(Append(rows, userId, fields), who) ==
            (if userId == who then [Row(|rows| + 1, userId, fields)] else []) + Newest(rows, who)
  {
  }

  /** Inserting a purchase changes only its owner's credit total, by its credits. */
  lemma SumCreditsAppend(purchases: seq<PurchaseRecord>, userId: string, fields: Purchase, who: string)
    ensures SumCredits(Append(purchases, userId, fields), who) ==
            SumCredits(purchases, who) + (if userId == who then fields.credits else 0)
  {
  }

  /** A user's listing holds exactly that user's rows. */
  lemma {:induction false} NewestMembers<T>(rows: seq<Row<T>>, userId: string, x: Row<T>)
    ensures x in Newest(rows, userId) <==> x in rows && x.userId == userId
  {
    if |rows| > 0 {
      var prefix := rows[..|rows| - 1];
      NewestMembers(prefix, userId, x);
      assert rows == prefix + [rows[|rows| - 1]];
    }
  }

  /** A user with no rows has an empty listing. */
  lemma {:induction false} NewestOfAbsent<T>(rows: seq<Row<T>>, userId: string)
    requires forall i :: 0 <= i < |rows| ==> rows[i].userId != userId
    ensures Newest(rows, userId) == []
  {
    if |rows| > 0 {
      NewestOfAbsent(rows[..|rows| - 1], userId);
    }
  }

  /** A user with no purchases has no credits in the ledger. */
  lemma {:induction false} SumCreditsOfAbsent(purchases: seq<PurchaseRecord>, userId: string)
    requires forall i :: 0 <= i < |purchases| ==> purchases[i].userId != userId
    ensures SumCredits(purchases, userId) == 0
  {
    if |purchases| > 0 {
      SumCreditsOfAbsent(purchases[..|purchases| - 1], userId);
    }
  }

  /** When ids follow insertion order, a listing is newest first. */
  lemma {:induction false} NewestIsDescending<T>(rows: seq<Row<T>>, userId: string)
    requires IncreasingIds(rows)
    ensures DescendingIds(Newest(rows, userId))
  {
    if |rows| > 0 {
      var prefix := rows[..|rows| - 1];
      var last := rows[|rows| - 1];
      NewestIsDescending(prefix, userId);
      var tail := Newest(prefix, userId);
      forall k | 0 <= k < |tail|
        ensures tail[k].id < last.id
      {
        NewestRowAt(prefix, userId, k);
      }
    }
  }

  /** Every listed row comes from the table, at a position before its length. */
  lemma {:induction false} NewestRowAt<T>(rows: seq<Row<T>>, userId: string, k: nat)
    requires k < |Newest(rows, userId)|
    ensures exists i :: 0 <= i < |rows| && rows[i] == Newest(rows, userId)[k]
  {
    var prefix := rows[..|rows| - 1];
    var last := rows[|rows| - 1];
    if last.userId == userId {
      if k == 0 {
        assert rows[|rows| - 1] == Newest(rows, userId)[0];
      } else {
        NewestRowAt(prefix, userId, k - 1);
        var i :| 0 <= i < |prefix| && prefix[i] == Newest(prefix, userId)[k - 1];
        assert rows[i] == Newest(rows, userId)[k];
      }
    } else {
      NewestRowAt(prefix, userId, k);
      var i :| 0 <= i < |prefix| && prefix[i] == Newest(prefix, userId)[k];
      assert rows[i] == Newest(rows, userId)[k];
    }
  }

  /** A page of a newest-first listing is itself newest first. */
  lemma PageKeepsDescending<T>(s: seq<Row<T>>, limit: nat, offset: nat)
    requires DescendingIds(s)
    ensures DescendingIds(Page(s, limit, offset))
  {
  }
}

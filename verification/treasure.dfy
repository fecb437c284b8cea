/** The treasure ledger of controllers/treasureController.js: a room's shared
    cash pool and the credit/debit transactions recorded against it. This
    module holds the transaction records and what the ledger means; the
    operations that change a room's pool are methods of `Rooms.Room`. */
module Treasure {
  import opened Money
  import opened Sorting

  /** The schema's `type` enum: "credit" adds to the pool, "debit" spends. */
  datatype TxKind = Credit | Debit

  /** One entry of `treasureTransactions`; `date` is the `new Date()` of the
      request, in milliseconds. */
  datatype Tx = Tx(description: string, amount: real, kind: TxKind, date: int)

  /** Everything ever added to the pool. */
  function Credits(txs: seq<Tx>): real {
    if txs == [] then 0.0
    else
      var t := txs[|txs| - 1];
      Credits(txs[..|txs| - 1]) + (if t.kind == Credit then t.amount else 0.0)
  }

  /** Everything ever spent from the pool. */
  function Debits(txs: seq<Tx>): real {
    if txs == [] then 0.0
    else
      var t := txs[|txs| - 1];
      Debits(txs[..|txs| - 1]) + (if t.kind == Debit then t.amount else 0.0)
  }

  /** What the ledger says the pool holds. */
  function LedgerBalance(txs: seq<Tx>): real {
    Credits(txs) - Debits(txs)
  }

  /** Recording one more transaction moves the ledger's balance by exactly
      its amount, up for a credit and down for a debit. */
  lemma LedgerAppend(txs: seq<Tx>, t: Tx)
    ensures t.kind == Credit ==> LedgerBalance(txs + [t]) == LedgerBalance(txs) + t.amount
    ensures t.kind == Debit ==> LedgerBalance(txs + [t]) == LedgerBalance(txs) - t.amount
  {
    var all := txs + [t];
    assert all[..|all| - 1] == txs;
  }

  /** The failures of the treasure operations. */
  datatype TreasureError =
    | InvalidAmount       // "Please provide a valid positive amount ..."
    | MissingDescription  // "Please provide a description ..."
    | InsufficientFunds   // "Insufficient funds in treasure for this transaction."
    | NotAConstructor     // `throw new new Error(...)()` raises a TypeError instead
    | NotAuthorizedToView // the requester is not a member of the room

  function DateKey(t: Tx): real {
    t.date as real
  }

  /** `treasureTransactions.sort((a, b) => b.date - a.date)`: most recent
      first, the same transactions, ties kept in recording order. */
  function NewestFirst(txs: seq<Tx>): (r: seq<Tx>)
    ensures multiset(r) == multiset(txs)
    ensures forall i, j :: 0 <= i < j < |r| ==> r[i].date >= r[j].date
  {
    SortDesc(txs, DateKey)
  }
}

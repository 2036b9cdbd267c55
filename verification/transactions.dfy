/**
 The statement entries an account appends on every balance change.
 An entry is its type and amount; the creation timestamp is not modelled.
 */
module Transactions {

  /** The three entry types the account code writes. */
  datatype EntryType = Deposit | Withdraw | Interest

  /** One immutable statement entry. */
  datatype Transaction = Transaction(kind: EntryType, amount: real)

  /** The change to the balance an entry records: withdrawals count negatively. */
  function Signed(t: Transaction): real {
    match t.kind
    case Withdraw => -t.amount
    case _ => t.amount
  }

  /** The net effect on the balance of a whole log, oldest entry first. */
  function Net(log: seq<Transaction>): real {
    if |log| == 0 then 0.0 else Net(log[..|log| - 1]) + Signed(log[|log| - 1])
  }

  /** Appending one entry moves the net by exactly that entry's signed amount. */
  lemma NetAppend(log: seq<Transaction>, t: Transaction)
    ensures Net(log + [t]) == Net(log) + Signed(t)
  {
    assert (log + [t])[..|log|] == log;
  }
}

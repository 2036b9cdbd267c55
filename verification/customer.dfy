/**
 The ledger a customer owns: an ordered list of accounts (insertion order),
 transfers between them and month-end interest over all of them.
 Account numbers are not required to be unique; look-ups therefore say
 which match they pick (the last one for transfers).
 */
module Ledger {
  import opened Wrappers
  import opened Accounts
  import T = Transactions

  datatype Customer = Customer(name: string, accounts: seq<Account>)

  /** What a look-up asks for: an account number, or a number together with that account's password. */
  datatype Query = Numbered(number: string) | Credentials(number: string, password: string)

  predicate Matches(a: Account, q: Query) {
    match q
    case Numbered(n) => a.number == n
    case Credentials(n, p) => a.number == n && VerifyPassword(a, p)
  }

  /** The index of the last account matching `q`, if any. */
  function LastMatch(s: seq<Account>, q: Query): (r: Option<nat>)
    ensures r.Some? ==> r.value < |s| && Matches(s[r.value], q)
    ensures r.Some? ==> forall j :: r.value < j < |s| ==> !Matches(s[j], q)
    ensures r.None? <==> forall j :: 0 <= j < |s| ==> !Matches(s[j], q)
  {
    if |s| == 0 then None
    else if Matches(s[|s| - 1], q) then Some(|s| - 1)
    else LastMatch(s[..|s| - 1], q)
  }

  /** The index of the first account matching `q`, if any. */
  function FirstMatch(s: seq<Account>, q: Query): (r: Option<nat>)
    ensures r.Some? ==> r.value < |s| && Matches(s[r.value], q)
    ensures r.Some? ==> forall j :: 0 <= j < r.value ==> !Matches(s[j], q)
    ensures r.None? <==> forall j :: 0 <= j < |s| ==> !Matches(s[j], q)
  {
    if |s| == 0 then None
    else if Matches(s[0], q) then Some(0)
    else match FirstMatch(s[1..], q)
      case None => None
      case Some(i) => Some(i + 1)
  }

  /** Sum of all balances. */
  function Total(s: seq<Account>): real {
    if |s| == 0 then 0.0 else Total(s[..|s| - 1]) + s[|s| - 1].balance
  }

  predicate AllSolvent(s: seq<Account>) {
    forall k :: 0 <= k < |s| ==> Solvent(s[k])
  }

  predicate UniqueNumbers(s: seq<Account>) {
    forall i, j :: 0 <= i < j < |s| ==> s[i].number != s[j].number
  }

  /** Appends the account at the end; a number already in use is not rejected. */
  function AddAccount(c: Customer, a: Account): (r: Customer)
    ensures r.name == c.name
    ensures |r.accounts| == |c.accounts| + 1
    ensures r.accounts[..|c.accounts|] == c.accounts && r.accounts[|c.accounts|] == a
    ensures Total(r.accounts) == Total(c.accounts) + a.balance
  {
    var s := c.accounts + [a];
    assert s[..|s| - 1] == c.accounts;
    c.(accounts := s)
  }

  /** A newly added account shadows older ones with its number as a transfer destination. */
  lemma AddedAccountIsTransferTarget(c: Customer, a: Account)
    ensures LastMatch(AddAccount(c, a).accounts, Numbered(a.number)) == Some(|c.accounts|)
    ensures LastMatch(AddAccount(c, a).accounts, Credentials(a.number, a.password)) == Some(|c.accounts|)
  {
  }

  /**
   The single pass over the accounts that picks both ends of a transfer:
   the source is the last account with the number and password, the
   destination the last account with the number.
   */
  method ResolveTransfer(s: seq<Account>, fromNum: string, toNum: string, password: string)
    returns (src: Option<nat>, dst: Option<nat>)
    ensures src == LastMatch(s, Credentials(fromNum, password))
    ensures dst == LastMatch(s, Numbered(toNum))
  {
    src, dst := None, None;
    var k := 0;
    while k < |s|
      invariant 0 <= k <= |s|
      invariant src == LastMatch(s[..k], Credentials(fromNum, password))
      invariant dst == LastMatch(s[..k], Numbered(toNum))
    {
      assert s[..k + 1][..k] == s[..k];
      if s[k].number == fromNum && VerifyPassword(s[k], password) {
        src := Some(k);
      }
      if s[k].number == toNum {
        dst := Some(k);
      }
      k := k + 1;
    }
    assert s[..|s|] == s;
  }

  /** Both ends of a transfer resolve and the amount is positive. */
  predicate TransferGuard(c: Customer, fromNum: string, toNum: string, amount: real, password: string) {
    && LastMatch(c.accounts, Credentials(fromNum, password)).Some?
    && LastMatch(c.accounts, Numbered(toNum)).Some?
    && amount > 0.0
  }

  /**
   Transfer as written: once the guard passes, the source is asked to withdraw
   and the destination is credited, whether or not the withdrawal was accepted.
   The destination's password is never checked.
   */
  function TransferFunds(c: Customer, fromNum: string, toNum: string, amount: real, password: string): (r: Customer)
    ensures r.name == c.name && |r.accounts| == |c.accounts|
    ensures !TransferGuard(c, fromNum, toNum, amount, password) ==> r == c
    ensures forall k ::
              && 0 <= k < |c.accounts|
              && Some(k) != LastMatch(c.accounts, Credentials(fromNum, password))
              && Some(k) != LastMatch(c.accounts, Numbered(toNum))
              ==> r.accounts[k] == c.accounts[k]
    ensures TransferGuard(c, fromNum, toNum, amount, password) ==>
              var i := LastMatch(c.accounts, Credentials(fromNum, password)).value;
              var j := LastMatch(c.accounts, Numbered(toNum)).value;
              && (i != j ==> r.accounts[i] == Withdraw(c.accounts[i], amount)
                             && r.accounts[j] == Deposit(c.accounts[j], amount))
              && (i == j ==> r.accounts[i] == Deposit(Withdraw(c.accounts[i], amount), amount))
  {
    var src := LastMatch(c.accounts, Credentials(fromNum, password));
    var dst := LastMatch(c.accounts, Numbered(toNum));
    if src.Some? && dst.Some? && amount > 0.0 then
      var debited := c.accounts[src.value := Withdraw(c.accounts[src.value], amount)];
      c.(accounts := debited[dst.value := Deposit(debited[dst.value], amount)])
    else
      c
  }

  /** Replacing one account changes the total by the change in that account's balance. */
  lemma {:induction false} TotalUpdate(s: seq<Account>, i: nat, x: Account)
    requires i < |s|
    ensures Total(s[i := x]) == Total(s) - s[i].balance + x.balance
    decreases |s|
  {
    var s' := s[i := x];
    var n := |s| - 1;
    assert s'[..n] == if i < n then s[..n][i := x] else s[..n];
    if i < n {
      TotalUpdate(s[..n], i, x);
    }
  }

  /**
   A transfer whose withdrawal is accepted moves exactly `amount` from the
   source to the destination: the total is conserved, the source loses
   `amount`, the destination gains it, and when they are different accounts
   the sum of the two balances is unchanged, each of the two keeps its
   number, password and kind, and each logs exactly its own half.
   */
  lemma TransferAcceptedConserves(c: Customer, fromNum: string, toNum: string, amount: real, password: string)
    requires TransferGuard(c, fromNum, toNum, amount, password)
    requires WithdrawAccepted(c.accounts[LastMatch(c.accounts, Credentials(fromNum, password)).value], amount)
    ensures Total(TransferFunds(c, fromNum, toNum, amount, password).accounts) == Total(c.accounts)
    ensures var i := LastMatch(c.accounts, Credentials(fromNum, password)).value;
            var j := LastMatch(c.accounts, Numbered(toNum)).value;
            var r := TransferFunds(c, fromNum, toNum, amount, password).accounts;
            i != j ==>
              && r[i].balance == c.accounts[i].balance - amount
              && r[j].balance == c.accounts[j].balance + amount
              && r[i].balance + r[j].balance == c.accounts[i].balance + c.accounts[j].balance
              && SameIdentity(c.accounts[i], r[i]) && SameIdentity(c.accounts[j], r[j])
              && OneEntryAppended(c.accounts[i], r[i])
              && r[i].log[|c.accounts[i].log|] == T.Transaction(T.Withdraw, amount)
              && OneEntryAppended(c.accounts[j], r[j])
              && r[j].log[|c.accounts[j].log|] == T.Transaction(T.Deposit, amount)
  {
    var i := LastMatch(c.accounts, Credentials(fromNum, password)).value;
    var j := LastMatch(c.accounts, Numbered(toNum)).value;
    var debited := c.accounts[i := Withdraw(c.accounts[i], amount)];
    TotalUpdate(c.accounts, i, Withdraw(c.accounts[i], amount));
    TotalUpdate(debited, j, Deposit(debited[j], amount));
  }

  /** A transfer from an account to itself leaves its balance alone and logs both halves. */
  lemma TransferToSelf(c: Customer, fromNum: string, toNum: string, amount: real, password: string)
    requires TransferGuard(c, fromNum, toNum, amount, password)
    requires LastMatch(c.accounts, Credentials(fromNum, password)) == LastMatch(c.accounts, Numbered(toNum))
    requires WithdrawAccepted(c.accounts[LastMatch(c.accounts, Numbered(toNum)).value], amount)
    ensures var i := LastMatch(c.accounts, Numbered(toNum)).value;
            var r := TransferFunds(c, fromNum, toNum, amount, password);
            && r.accounts == c.accounts[i := r.accounts[i]]
            && r.accounts[i] == Deposit(Withdraw(c.accounts[i], amount), amount)
            && SameIdentity(c.accounts[i], r.accounts[i])
            && r.accounts[i].balance == c.accounts[i].balance
            && r.accounts[i].log
               == c.accounts[i].log + [T.Transaction(T.Withdraw, amount), T.Transaction(T.Deposit, amount)]
  {
    var i := LastMatch(c.accounts, Numbered(toNum)).value;
    var w := Withdraw(c.accounts[i], amount);
    var d := Deposit(w, amount);
    assert d.log == w.log + [T.Transaction(T.Deposit, amount)];
  }

  /**
   A transfer whose withdrawal is refused still credits the destination: only
   the destination changes, it gains `amount`, and so does the total.
   */
  lemma TransferRefusedStillCredits(c: Customer, fromNum: string, toNum: string, amount: real, password: string)
    requires TransferGuard(c, fromNum, toNum, amount, password)
    requires !WithdrawAccepted(c.accounts[LastMatch(c.accounts, Credentials(fromNum, password)).value], amount)
    ensures var j := LastMatch(c.accounts, Numbered(toNum)).value;
            TransferFunds(c, fromNum, toNum, amount, password).accounts
              == c.accounts[j := Deposit(c.accounts[j], amount)]
    ensures Total(TransferFunds(c, fromNum, toNum, amount, password).accounts) == Total(c.accounts) + amount
  {
    var i := LastMatch(c.accounts, Credentials(fromNum, password)).value;
    var j := LastMatch(c.accounts, Numbered(toNum)).value;
    assert c.accounts[i := Withdraw(c.accounts[i], amount)] == c.accounts;
    TotalUpdate(c.accounts, j, Deposit(c.accounts[j], amount));
  }

  /** A concrete case: an empty savings account "transfers" 100 it does not have, and the total grows by 100. */
  lemma TransferCreatesMoneyExample()
    ensures var c := Customer("owner", [NewSavings("A", 0.0, 0.05, "pw"), NewSavings("B", 0.0, 0.05, "pw")]);
            && Total(c.accounts) == 0.0
            && Total(TransferFunds(c, "A", "B", 100.0, "pw").accounts) == 100.0
  {
    var c := Customer("owner", [NewSavings("A", 0.0, 0.05, "pw"), NewSavings("B", 0.0, 0.05, "pw")]);
    assert LastMatch(c.accounts, Credentials("A", "pw")) == Some(0);
    assert LastMatch(c.accounts, Numbered("B")) == Some(1);
    TransferRefusedStillCredits(c, "A", "B", 100.0, "pw");
  }

  /**
   Transfer as the refusal message ("check ... balance") intends: the
   destination is credited only if the withdrawal was accepted.
   */
  function TransferFundsChecked(c: Customer, fromNum: string, toNum: string, amount: real, password: string): (r: Customer)
    ensures r.name == c.name && |r.accounts| == |c.accounts|
    ensures Total(r.accounts) == Total(c.accounts)
    ensures TransferGuard(c, fromNum, toNum, amount, password)
      && WithdrawAccepted(c.accounts[LastMatch(c.accounts, Credentials(fromNum, password)).value], amount)
      ==> r == TransferFunds(c, fromNum, toNum, amount, password)
    ensures !(TransferGuard(c, fromNum, toNum, amount, password)
      && WithdrawAccepted(c.accounts[LastMatch(c.accounts, Credentials(fromNum, password)).value], amount))
      ==> r == c
  {
    var src := LastMatch(c.accounts, Credentials(fromNum, password));
    var dst := LastMatch(c.accounts, Numbered(toNum));
    if src.Some? && dst.Some? && amount > 0.0 && WithdrawAccepted(c.accounts[src.value], amount) then
      TransferAcceptedConserves(c, fromNum, toNum, amount, password);
      TransferFunds(c, fromNum, toNum, amount, password)
    else
      c
  }

  /**
   Every account keeps its balance equal to its opening balance plus its log's
   net through a transfer, whether the withdrawal is accepted or refused.
   */
  lemma TransferKeepsTracks(c: Customer, fromNum: string, toNum: string, amount: real, password: string,
                            openings: seq<real>)
    requires |openings| == |c.accounts|
    requires forall k :: 0 <= k < |c.accounts| ==> Tracks(c.accounts[k], openings[k])
    ensures var r := TransferFunds(c, fromNum, toNum, amount, password).accounts;
            forall k :: 0 <= k < |r| ==> Tracks(r[k], openings[k])
  {
    var r := TransferFunds(c, fromNum, toNum, amount, password).accounts;
    if TransferGuard(c, fromNum, toNum, amount, password) {
      var i := LastMatch(c.accounts, Credentials(fromNum, password)).value;
      var j := LastMatch(c.accounts, Numbered(toNum)).value;
      var w := Withdraw(c.accounts[i], amount);
      AppendKeepsTracks(c.accounts[i], w, openings[i]);
      if i == j {
        AppendKeepsTracks(w, Deposit(w, amount), openings[i]);
      } else {
        AppendKeepsTracks(c.accounts[j], Deposit(c.accounts[j], amount), openings[j]);
      }
      forall k | 0 <= k < |r|
        ensures Tracks(r[k], openings[k])
      {
        if k != i && k != j {
          assert r[k] == c.accounts[k];
        }
      }
    }
  }

  /** Every account in the ledger keeps its balance bound through a transfer. */
  lemma TransferKeepsSolvent(c: Customer, fromNum: string, toNum: string, amount: real, password: string)
    requires AllSolvent(c.accounts)
    ensures AllSolvent(TransferFunds(c, fromNum, toNum, amount, password).accounts)
  {
  }

  /** Month-end interest, account by account in list order. */
  function InterestAll(s: seq<Account>): (r: seq<Account>)
    ensures |r| == |s|
    ensures forall k :: 0 <= k < |s| ==> r[k] == ApplyMonthlyInterest(s[k])
  {
    if |s| == 0 then [] else InterestAll(s[..|s| - 1]) + [ApplyMonthlyInterest(s[|s| - 1])]
  }

  /** Batch interest keeps the list's length and its order of account numbers. */
  function ApplyMonthlyInterestAll(c: Customer): (r: Customer)
    ensures r.name == c.name && |r.accounts| == |c.accounts|
    ensures forall k :: 0 <= k < |c.accounts| ==>
      SameIdentity(c.accounts[k], r.accounts[k]) && r.accounts[k] == ApplyMonthlyInterest(c.accounts[k])
  {
    c.(accounts := InterestAll(c.accounts))
  }

  /** Batch interest keeps every account solvent when no savings rate is below -12. */
  lemma InterestAllKeepsSolvent(c: Customer)
    requires AllSolvent(c.accounts)
    requires forall k :: 0 <= k < |c.accounts| && c.accounts[k].policy.Savings? ==> c.accounts[k].policy.rate >= -12.0
    ensures AllSolvent(ApplyMonthlyInterestAll(c).accounts)
  {
    var r := ApplyMonthlyInterestAll(c).accounts;
    forall k | 0 <= k < |r|
      ensures Solvent(r[k])
    {
      InterestKeepsSolvent(c.accounts[k]);
    }
  }
}

/**
 A bank account and its operations. The account kinds form a closed set:
 a plain account, a savings account (which keeps the plain withdrawal rule
 and adds monthly interest) and a current account (which lets the balance
 go negative down to an overdraft limit and earns no interest).
 Every operation is a pure function; a refused operation returns the
 account unchanged.
 */
module Accounts {
  import T = Transactions

  /** The withdrawal and interest policy of an account. */
  datatype Policy = Plain | Savings(rate: real) | Current(overdraftLimit: real)

  datatype Account = Account(
    number: string,
    balance: real,
    password: string,
    log: seq<T.Transaction>,
    policy: Policy)

  /** The lowest balance the policy's withdrawal rule can leave behind. */
  function Floor(p: Policy): real {
    match p
    case Current(limit) => -limit
    case _ => 0.0
  }

  /** The balance bound every withdrawal respects. */
  predicate Solvent(a: Account) {
    a.balance >= Floor(a.policy)
  }

  /** The balance is the opening balance plus the net of the log. */
  predicate Tracks(a: Account, opening: real) {
    a.balance == opening + T.Net(a.log)
  }

  /** `r` is `a` with one more entry, and the balance moved by that entry's signed amount. */
  predicate OneEntryAppended(a: Account, r: Account) {
    && |r.log| == |a.log| + 1
    && r.log[..|a.log|] == a.log
    && r.balance == a.balance + T.Signed(r.log[|a.log|])
  }

  /** Number, password and policy are untouched. */
  predicate SameIdentity(a: Account, r: Account) {
    r.number == a.number && r.password == a.password && r.policy == a.policy
  }

  /** A plain account; any opening balance is accepted. */
  function NewAccount(number: string, initialBalance: real, password: string): (a: Account)
    ensures a.number == number && a.password == password && a.policy == Plain
    ensures a.log == [] && Tracks(a, initialBalance)
  {
    Account(number, initialBalance, password, [], Plain)
  }

  /** A savings account; any opening balance and any rate are accepted. */
  function NewSavings(number: string, initialBalance: real, rate: real, password: string): (a: Account)
    ensures a.number == number && a.password == password && a.policy == Savings(rate)
    ensures a.log == [] && Tracks(a, initialBalance)
  {
    Account(number, initialBalance, password, [], Savings(rate))
  }

  /** A current account; any opening balance and any overdraft limit are accepted. */
  function NewCurrent(number: string, initialBalance: real, overdraftLimit: real, password: string): (a: Account)
    ensures a.number == number && a.password == password && a.policy == Current(overdraftLimit)
    ensures a.log == [] && Tracks(a, initialBalance)
  {
    Account(number, initialBalance, password, [], Current(overdraftLimit))
  }

  predicate DepositAccepted(amount: real) {
    amount > 0.0
  }

  /** Deposit: a positive amount is credited and logged; anything else is refused. */
  function Deposit(a: Account, amount: real): (r: Account)
    ensures SameIdentity(a, r)
    ensures DepositAccepted(amount) ==>
      OneEntryAppended(a, r) && r.log[|a.log|] == T.Transaction(T.Deposit, amount)
    ensures !DepositAccepted(amount) ==> r == a
    ensures r.balance - a.balance == (if amount > 0.0 then amount else 0.0)
  {
    if amount > 0.0 then
      a.(balance := a.balance + amount, log := a.log + [T.Transaction(T.Deposit, amount)])
    else
      a
  }

  /** The withdrawal rule, stated through the balance it leaves behind. */
  predicate WithdrawAccepted(a: Account, amount: real) {
    amount > 0.0 && a.balance - amount >= Floor(a.policy)
  }

  /** Debits and logs an accepted withdrawal. */
  function Debit(a: Account, amount: real): Account {
    a.(balance := a.balance - amount, log := a.log + [T.Transaction(T.Withdraw, amount)])
  }

  /**
   Withdraw: the plain rule (inherited by savings) takes out 0 < amount <= balance;
   the current-account rule takes out 0 < amount <= balance + overdraft limit.
   */
  function Withdraw(a: Account, amount: real): (r: Account)
    ensures SameIdentity(a, r)
    ensures WithdrawAccepted(a, amount) ==>
      OneEntryAppended(a, r) && r.log[|a.log|] == T.Transaction(T.Withdraw, amount)
      && r.balance == a.balance - amount
    ensures !WithdrawAccepted(a, amount) ==> r == a
    ensures Solvent(a) ==> Solvent(r)
    ensures WithdrawAccepted(a, amount) ==> Solvent(r)
  {
    match a.policy
    case Current(limit) =>
      if amount > 0.0 && amount <= a.balance + limit then Debit(a, amount) else a
    case _ =>
      if amount > 0.0 && amount <= a.balance then Debit(a, amount) else a
  }

  /**
   Pure equality against the stored password: the same length and the same
   character at every position. Nothing about the account changes.
   */
  function VerifyPassword(a: Account, candidate: string): (r: bool)
    ensures r <==> |candidate| == |a.password| && forall k :: 0 <= k < |candidate| ==> candidate[k] == a.password[k]
  {
    candidate == a.password
  }

  /** The password changes to `newPass` exactly when `oldPass` is the current one. */
  function ChangePassword(a: Account, oldPass: string, newPass: string): (r: Account)
    ensures r.number == a.number && r.balance == a.balance && r.log == a.log && r.policy == a.policy
    ensures forall p :: VerifyPassword(r, p) <==>
      (if VerifyPassword(a, oldPass) then p == newPass else VerifyPassword(a, p))
  {
    if VerifyPassword(a, oldPass) then a.(password := newPass) else a
  }

  /**
   Monthly interest: a savings account is credited balance * rate / 12, computed
   from the balance before the update, and logs it (whatever its sign); plain and
   current accounts are left alone.
   */
  function ApplyMonthlyInterest(a: Account): (r: Account)
    ensures SameIdentity(a, r)
    ensures a.policy.Savings? ==>
      OneEntryAppended(a, r) && r.log[|a.log|].kind == T.Interest
      && r.balance == a.balance * (1.0 + a.policy.rate / 12.0)
    ensures !a.policy.Savings? ==> r == a
  {
    match a.policy
    case Savings(rate) =>
      var interest := a.balance * rate / 12.0;
      a.(balance := a.balance + interest, log := a.log + [T.Transaction(T.Interest, interest)])
    case _ => a
  }

  /** Interest keeps a savings account solvent as long as the rate does not fall below -12 (-1200% a year). */
  lemma InterestKeepsSolvent(a: Account)
    requires Solvent(a)
    requires a.policy.Savings? ==> a.policy.rate >= -12.0
    ensures Solvent(ApplyMonthlyInterest(a))
  {
    if a.policy.Savings? {
      var b, rate := a.balance, a.policy.rate;
      var f := 1.0 + rate / 12.0;
      assert f >= 0.0;
      assert b * f >= 0.0 by { NonNegativeProduct(b, f); }
      assert b + b * rate / 12.0 == b * f;
    }
  }

  /** The product of two non-negative reals is non-negative. */
  lemma NonNegativeProduct(x: real, y: real)
    requires x >= 0.0 && y >= 0.0
    ensures x * y >= 0.0
  {
  }

  /** Every operation keeps the balance equal to the opening balance plus the log's net. */
  lemma OperationsKeepTracks(a: Account, opening: real, amount: real, oldPass: string, newPass: string)
    requires Tracks(a, opening)
    ensures Tracks(Deposit(a, amount), opening)
    ensures Tracks(Withdraw(a, amount), opening)
    ensures Tracks(ApplyMonthlyInterest(a), opening)
    ensures Tracks(ChangePassword(a, oldPass, newPass), opening)
  {
    AppendKeepsTracks(a, Deposit(a, amount), opening);
    AppendKeepsTracks(a, Withdraw(a, amount), opening);
    AppendKeepsTracks(a, ApplyMonthlyInterest(a), opening);
  }

  /** One logged step, or no step at all, keeps `Tracks`. */
  lemma AppendKeepsTracks(a: Account, r: Account, opening: real)
    requires Tracks(a, opening)
    requires OneEntryAppended(a, r) || r == a
    ensures Tracks(r, opening)
  {
    if r != a {
      assert r.log == a.log + [r.log[|a.log|]];
      T.NetAppend(a.log, r.log[|a.log|]);
    }
  }

  /** Depositing and then withdrawing the same positive amount restores the balance, for every kind. */
  lemma DepositWithdrawRoundTrip(a: Account, amount: real)
    requires amount > 0.0 && Solvent(a)
    ensures WithdrawAccepted(Deposit(a, amount), amount)
    ensures Withdraw(Deposit(a, amount), amount).balance == a.balance
    ensures Withdraw(Deposit(a, amount), amount).log
      == a.log + [T.Transaction(T.Deposit, amount), T.Transaction(T.Withdraw, amount)]
  {
    var d := Deposit(a, amount);
    var w := Withdraw(d, amount);
    assert w.log == d.log + [T.Transaction(T.Withdraw, amount)];
  }

  /** A savings account refuses to be overdrawn and stays as it was. */
  lemma SavingsRefusesOverdraw(a: Account, amount: real)
    requires a.policy.Savings? && amount > a.balance
    ensures Withdraw(a, amount) == a
  {
  }

  /**
   A current account accepts a withdrawal of exactly balance + overdraft limit,
   leaving the balance at -limit, and refuses anything beyond it.
   */
  lemma CurrentOverdraftBoundary(a: Account, excess: real)
    requires a.policy.Current? && a.balance + a.policy.overdraftLimit > 0.0
    requires excess > 0.0
    ensures WithdrawAccepted(a, a.balance + a.policy.overdraftLimit)
    ensures Withdraw(a, a.balance + a.policy.overdraftLimit).balance == -a.policy.overdraftLimit
    ensures Withdraw(a, a.balance + a.policy.overdraftLimit + excess) == a
  {
  }

  /** The worked figure: 1200 at 12% a year earns exactly 12 in a month. */
  lemma InterestExample(number: string, password: string)
    ensures ApplyMonthlyInterest(NewSavings(number, 1200.0, 0.12, password)).balance == 1212.0
    ensures ApplyMonthlyInterest(NewSavings(number, 1200.0, 0.12, password)).log
      == [T.Transaction(T.Interest, 12.0)]
    ensures ApplyMonthlyInterest(NewCurrent(number, 1200.0, 500.0, password))
      == NewCurrent(number, 1200.0, 500.0, password)
  {
  }
}

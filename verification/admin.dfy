/**
 The administrator: closes an account, gated by the administrator's own
 password. Closing removes the first account with the number from the
 ledger and discards it; the remaining accounts keep their order.
 */
module Administration {
  import opened Wrappers
  import opened Accounts
  import opened Ledger

  datatype Admin = Admin(name: string, password: string)

  /** Removes the first account numbered `number` when `password` is the administrator's. */
  function CloseAccount(admin: Admin, c: Customer, number: string, password: string): (r: Customer)
    ensures r.name == c.name
    ensures password != admin.password ==> r == c
    ensures (forall k :: 0 <= k < |c.accounts| ==> c.accounts[k].number != number) ==> r == c
    ensures password == admin.password && FirstMatch(c.accounts, Numbered(number)).Some? ==>
              var i := FirstMatch(c.accounts, Numbered(number)).value;
              && |r.accounts| == |c.accounts| - 1
              && (forall k :: 0 <= k < i ==> r.accounts[k] == c.accounts[k])
              && (forall k :: i <= k < |r.accounts| ==> r.accounts[k] == c.accounts[k + 1])
              && multiset(r.accounts) + multiset{c.accounts[i]} == multiset(c.accounts)
  {
    if admin.password == password then
      match FirstMatch(c.accounts, Numbered(number))
      case None => c
      case Some(i) =>
        assert c.accounts == c.accounts[..i] + [c.accounts[i]] + c.accounts[i + 1..];
        c.(accounts := c.accounts[..i] + c.accounts[i + 1..])
    else
      c
  }

  /**
   With unique account numbers, a closed account can no longer be found:
   both transfer look-ups by its number come back empty, and every other
   account is still there.
   */
  lemma ClosedAccountNotFound(admin: Admin, c: Customer, number: string, password: string)
    requires UniqueNumbers(c.accounts)
    requires password == admin.password
    ensures var r := CloseAccount(admin, c, number, password);
            && LastMatch(r.accounts, Numbered(number)).None?
            && FirstMatch(r.accounts, Numbered(number)).None?
            && UniqueNumbers(r.accounts)
            && (forall k :: 0 <= k < |c.accounts| && c.accounts[k].number != number ==> c.accounts[k] in r.accounts)
  {
    var r := CloseAccount(admin, c, number, password);
    match FirstMatch(c.accounts, Numbered(number))
    case None =>
    case Some(i) =>
      forall k | 0 <= k < |r.accounts|
        ensures r.accounts[k].number != number
      {
        if k >= i {
          assert r.accounts[k] == c.accounts[k + 1];
        }
      }
      forall k | 0 <= k < |c.accounts| && c.accounts[k].number != number
        ensures c.accounts[k] in r.accounts
      {
        if k < i {
          assert r.accounts[k] == c.accounts[k];
        } else {
          assert k > i;
          assert r.accounts[k - 1] == c.accounts[k];
        }
      }
  }

  /** When numbers repeat, only the first account with the number goes; a later one with it stays. */
  lemma ClosingRemovesOnlyFirst(admin: Admin, c: Customer, number: string, j: nat)
    requires j < |c.accounts| && c.accounts[j].number == number
    requires exists i :: 0 <= i < j && c.accounts[i].number == number
    ensures CloseAccount(admin, c, number, admin.password).accounts[j - 1] == c.accounts[j]
  {
    var i := FirstMatch(c.accounts, Numbered(number)).value;
    assert i < j;
  }
}

# Bank ledger core in Dafny

This project models the in-memory account and ledger logic of a small C++ bank
management program (`Bank_management.cpp`, lines 9-240):

- **Transaction**: a statement entry, made of its type (Deposit, Withdraw or Interest) and its amount.
- **Account**: an account number, a balance, a password, an append-only transaction log, and a policy.
  - The policy is `Plain`, `Savings(rate)` or `Current(overdraftLimit)`.
  - `Plain` stands for an instance of the base class.
  - Savings keeps the base withdrawal rule and adds monthly interest.
  - Current replaces the withdrawal rule with an overdraft rule and earns no interest.
- **Customer** (the ledger): an owner name and an ordered list of accounts.
  - `AddAccount` appends an account.
  - `TransferFunds` moves money between two accounts.
  - `ApplyMonthlyInterestAll` runs month-end interest over every account.
- **Admin**: removes an account from a customer's list. It is gated by the administrator's password.

Every operation is a pure function over immutable values.

- The C++ code returns nothing and only prints a message when it refuses. A refused operation here returns its input unchanged.
- Which branch was taken is reported by the predicates `DepositAccepted`, `WithdrawAccepted` and `TransferGuard`.
- Amounts are exact `real`s.

Modules, one per file:

- `Wrappers` (`wrappers.dfy`): `Option`.
- `Transactions` (`transactions.dfy`): entries and the signed net of a log.
- `Accounts` (`account.dfy`).
- `Ledger` (`customer.dfy`).
- `Administration` (`admin.dfy`).

Two properties serve as partners for the account operations:

- `Solvent`: balance >= 0 for plain and savings accounts, and balance >= -overdraftLimit for current accounts.
- `Tracks`: the balance equals the opening balance plus the signed net of the log.

For the ledger operations the partners are the total balance (`Total`) and the list's order.

The model follows what the code does, including where that departs from the code's evident intent:

- No operation returns an error value.
- The balance bound is not established at construction. Any opening balance, rate or overdraft limit is accepted. The bound is only shown to be preserved.
- `addAccount` does not enforce unique account numbers. A transfer picks the last account with a number. Closure removes the first one.
- A transfer checks only the source account's password.
- A transfer credits the destination even when the source refuses the withdrawal. See Findings.

## Model

| member | source | states |
|---|---|---|
| Accounts.NewAccount | Bank_management.cpp:34-35 | any opening balance is accepted; the log starts empty, so the balance equals the opening balance plus the log's net |
| Accounts.NewSavings | Bank_management.cpp:99-100 | a savings account accepts any opening balance and any rate, and starts with an empty log |
| Accounts.NewCurrent | Bank_management.cpp:122-123 | a current account accepts any opening balance and any overdraft limit, and starts with an empty log |
| Accounts.Deposit | Bank_management.cpp:37-45 | a positive amount raises the balance by exactly that amount and appends one ("Deposit", amount) entry; a non-positive amount leaves the whole account unchanged; number, password and kind never change |
| Accounts.Withdraw | Bank_management.cpp:47-55 | accepted iff amount > 0 and the balance left is at least the policy's floor (0 for plain and savings, -overdraftLimit for current, as overridden at lines 125-133); on success the balance drops by amount and one ("Withdraw", amount) entry is appended; on refusal nothing changes; the balance bound is preserved |
| Accounts.VerifyPassword | Bank_management.cpp:65-67 | pure equality with the stored password: true iff the candidate has the same length and the same character at every position; being a function of the account, it changes nothing |
| Accounts.ChangePassword | Bank_management.cpp:65-76 | afterwards a candidate verifies iff it equals the new password when the old one matched, and as before otherwise; balance, log, number and kind never change |
| Accounts.ApplyMonthlyInterest | Bank_management.cpp:102-107 | a savings balance becomes balance * (1 + rate/12), using the balance from before the update, with one Interest entry equal to the change; plain and current accounts are unchanged (the base no-op at line 90) |
| Accounts.InterestKeepsSolvent | Bank_management.cpp:102-107 | interest keeps a solvent account solvent when the rate is at least -12 |
| Accounts.OperationsKeepTracks | Bank_management.cpp:37-107 | deposit, withdraw, interest and password change all keep the balance equal to the opening balance plus the log's signed net: every balance change is logged with a matching amount |
| Accounts.DepositWithdrawRoundTrip | Bank_management.cpp:37-55 | on a solvent account of any kind, depositing then withdrawing the same positive amount is accepted and restores the balance, logging both entries |
| Accounts.SavingsRefusesOverdraw | Bank_management.cpp:47-55 | a savings withdrawal above the balance leaves the account unchanged |
| Accounts.CurrentOverdraftBoundary | Bank_management.cpp:125-133 | a current account accepts a withdrawal of exactly balance + overdraftLimit, leaving -overdraftLimit, and refuses any larger amount |
| Accounts.InterestExample | Bank_management.cpp:102-107 | 1200 at rate 0.12 earns exactly 12 in a month, logged as one Interest entry; a current account is unchanged |
| Transactions.NetAppend | Bank_management.cpp:40 | appending an entry moves the log's net by that entry's signed amount |
| Ledger.AddAccount | Bank_management.cpp:150-152 | the account is appended at the end, everything before it is kept, and the total grows by its balance; duplicate numbers are not rejected |
| Ledger.AddedAccountIsTransferTarget | Bank_management.cpp:150-165 | a newly added account shadows any older account with the same number, both as a transfer source and as a transfer destination |
| Ledger.LastMatch | Bank_management.cpp:158-165 | returns the last index whose account matches the query, or none iff no account matches |
| Ledger.FirstMatch | Bank_management.cpp:223-230 | returns the first index whose account matches the query, or none iff no account matches |
| Ledger.ResolveTransfer | Bank_management.cpp:155-165 | the single pass over the list picks as source the last account with the number and password, and as destination the last account with the number |
| Ledger.TransferFunds | Bank_management.cpp:154-174 | if the source or destination is missing or amount <= 0, nothing changes; otherwise the source becomes its own withdraw result and the destination its own deposit result (for one account, deposit after withdraw), every other account is unchanged, and the list keeps its length |
| Ledger.TransferAcceptedConserves | Bank_management.cpp:167-169 | when the withdrawal is accepted, the ledger total is conserved; for two distinct accounts, the source loses exactly amount, the destination gains it, their sum is unchanged, each keeps its number, password and kind, and each gets exactly one entry: ('Withdraw', amount) on the source, ('Deposit', amount) on the destination |
| Ledger.TransferToSelf | Bank_management.cpp:167-169 | a transfer whose source and destination are the same account becomes exactly deposit-after-withdraw of that account: its balance is unchanged, its number, password and kind are kept, it logs a Withdraw then a Deposit entry, and no other account changes |
| Ledger.TransferRefusedStillCredits | Bank_management.cpp:167-172 | when the withdrawal is refused, the result is exactly the destination credited by amount, and the total grows by amount |
| Ledger.TransferCreatesMoneyExample | Bank_management.cpp:167-172 | transferring 100 out of an empty savings account to another account raises the ledger total from 0 to 100 |
| Ledger.TransferFundsChecked | Bank_management.cpp:167-172 | corrected transfer: the total is always conserved; it agrees with the as-written transfer when the withdrawal is accepted, and changes nothing otherwise |
| Ledger.TransferKeepsTracks | Bank_management.cpp:167-169 | through any transfer, accepted or refused, every account's balance stays equal to its opening balance plus its log's signed net |
| Ledger.TransferKeepsSolvent | Bank_management.cpp:154-174 | if every account satisfies its balance bound before a transfer, every account does after it |
| Ledger.InterestAll | Bank_management.cpp:184-188 | interest is applied to each account in place: same length, and position k holds account k after its interest |
| Ledger.ApplyMonthlyInterestAll | Bank_management.cpp:184-188 | batch interest keeps the owner, the list length and each position's number, password and kind, so order is preserved |
| Ledger.InterestAllKeepsSolvent | Bank_management.cpp:184-188 | batch interest keeps every account within its balance bound when no savings rate is below -12 |
| Administration.CloseAccount | Bank_management.cpp:220-235 | with a wrong admin password, or when no account has the number, the list is unchanged; otherwise the first account with the number is removed, the others keep their relative order, and the removed account is the only one lost |
| Administration.ClosedAccountNotFound | Bank_management.cpp:220-235 | with unique numbers and the right password, no account with the closed number can be found afterwards, numbers stay unique, and every other account remains |
| Administration.ClosingRemovesOnlyFirst | Bank_management.cpp:223-229 | when a number repeats, a later account with that number survives closure, shifted down by one |

## Left out

- The interactive menu and `main` (lines 247-386) are left out. This includes the deposit and withdraw dispatch by account number at lines 309-334, which applies the operation to the first account with the number. All of it is console input handling.
- All display code is left out: `displayTransaction`, `displayAccountInfo`, `displayStatement`, `displayAllAccounts`, `viewAllAccounts` and every printed message. It is presentation only.
- The transaction timestamp from `time(0)` is left out. It comes from the system clock, so an entry is its type and amount only.
- `double` arithmetic is modelled as exact `real` arithmetic. Floating-point rounding, in the monthly interest in particular, is not captured.
- Raw-pointer ownership and `delete` (lines 145, 204-208 and 225) are left out. The ledger is a sequence of account values, and closing an account is removal from the sequence.
- `getBalance`, `getAccountNumber` and `getAccounts` are plain field reads of the datatypes.
- The owner name of a customer and the administrator's name are carried but never used.

## Findings

| source | as written | input that shows it | evidently intended | confidence | as-written member | corrected member |
|---|---|---|---|---|---|---|
| Bank_management.cpp:167-172 | once both accounts resolve and amount > 0, `withdraw` on the source and `deposit` on the destination are both called, whatever the withdrawal did | savings "A" with balance 0 and savings "B" with balance 0; transfer 100 from "A" to "B" with A's password: A refuses, B is credited 100, and the total goes from 0 to 100 | credit the destination only when the debit happened, so the total is conserved (the refusal message itself says to check the balance) | high; not executed | Ledger.TransferRefusedStillCredits | Ledger.TransferFundsChecked |

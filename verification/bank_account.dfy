/**
 * `BankAccount` of `ExceptionPropagation2`: `withdraw` throws a checked
 * `InsufficientFundsException` when the amount exceeds the balance, and
 * `processWithdrawal` lets it propagate to `main`. The `double` balance is a
 * `real` here.
 */
module ExceptionPropagation {
  import opened Wrappers

  datatype InsufficientFundsException = InsufficientFundsException(message: string)

  datatype BankAccount = BankAccount(balance: real)

  const INSUFFICIENT_FUNDS: string := "Insufficient funds for withdrawal."

  /** `withdraw(amount)`: the account afterwards, and whether it returned or threw. */
  function Withdraw(account: BankAccount, amount: real): (r: (BankAccount, Outcome<InsufficientFundsException>))
    ensures r.1.Fail? <==> amount > account.balance
    ensures r.1.Fail? ==> r.0 == account && r.1.error.message == INSUFFICIENT_FUNDS
    ensures r.1.Pass? ==> r.0.balance + amount == account.balance
  {
    if amount > account.balance then (account, Fail(InsufficientFundsException(INSUFFICIENT_FUNDS)))
    else (BankAccount(account.balance - amount), Pass)
  }

  /**
   * `processWithdrawal(account, amount)`: the withdrawal, then the success line
   * with the remaining balance. A failure skips the line and reaches the caller
   * unchanged.
   */
  function ProcessWithdrawal(account: BankAccount, amount: real): (r: (BankAccount, Result<real, InsufficientFundsException>))
    ensures r.1.Err? <==> Withdraw(account, amount).1.Fail?
    ensures r.1.Err? ==> r.1.error == Withdraw(account, amount).1.error && r.0 == account
    ensures r.1.Ok? ==> r.1.value == r.0.balance == account.balance - amount
  {
    var (after, outcome) := Withdraw(account, amount);
    match outcome
    case Fail(e) => (after, Err(e))
    case Pass => (after, Ok(after.balance))
  }

  /** The guard is strict: withdrawing exactly the balance succeeds and leaves 0. */
  lemma WithdrawAll(account: BankAccount)
    ensures Withdraw(account, account.balance) == (BankAccount(0.0), Pass)
  {
  }

  /** There is no sign check: on an account in credit a negative amount passes and raises the balance. */
  lemma NegativeAmountDeposits(account: BankAccount, amount: real)
    requires account.balance >= 0.0 && amount < 0.0
    ensures Withdraw(account, amount).1.Pass?
    ensures Withdraw(account, amount).0.balance > account.balance
  {
  }

  /** A run of withdrawals, each attempted whether or not the previous one threw. */
  function WithdrawEach(account: BankAccount, amounts: seq<real>): (r: BankAccount)
    decreases |amounts|
  {
    if |amounts| == 0 then account
    else WithdrawEach(Withdraw(account, amounts[0]).0, amounts[1..])
  }

  /** From a non-negative balance, non-negative withdrawals never make it negative. */
  lemma {:induction false} NeverOverdrawn(account: BankAccount, amounts: seq<real>)
    requires account.balance >= 0.0
    requires forall i :: 0 <= i < |amounts| ==> amounts[i] >= 0.0
    ensures WithdrawEach(account, amounts).balance >= 0.0
    ensures WithdrawEach(account, amounts).balance <= account.balance
    decreases |amounts|
  {
    if |amounts| > 0 {
      var next := Withdraw(account, amounts[0]).0;
      assert forall i :: 0 <= i < |amounts[1..]| ==> amounts[1..][i] == amounts[i + 1];
      NeverOverdrawn(next, amounts[1..]);
    }
  }

  /** `main`: withdrawing 600 from 500 fails with the insufficient-funds message and the balance stays 500. */
  lemma Demo()
    ensures ProcessWithdrawal(BankAccount(500.0), 600.0)
            == (BankAccount(500.0), Err(InsufficientFundsException("Insufficient funds for withdrawal.")))
  {
  }
}

/** The account ledger (crates/storage/src/state.rs). */
module State {
  import opened Primitives
  import opened Crypto
  import opened Transactions
  import opened Blocks

  datatype Account = Account(balance: U64, nonce: U64)

  type Accounts = map<Address, Account>

  datatype LedgerError =
    | InvalidSignature
    | InvalidNonce(expected: U64, got: U64)
    | InsufficientBalance(have: U64, need: U64)
    | BalanceOverflow

  /** A missing account reads as the default one. */
  function Get(a: Accounts, who: Address): Account {
    if who in a then a[who] else Account(0, 0)
  }

  function Credited(a: Accounts, who: Address, amount: U64): Accounts {
    a[who := Account(Wrap(Get(a, who).balance + amount), Get(a, who).nonce)]
  }

  /** What an accepted transaction does; a transfer to oneself only uses up the nonce. */
  function Transferred(a: Accounts, tx: Transaction): Accounts
    requires tx.amount <= Get(a, tx.from).balance
    requires tx.from != tx.to ==> Get(a, tx.to).balance + tx.amount <= U64_MAX
  {
    var sender := Get(a, tx.from);
    var nonce := Wrap(sender.nonce + 1);
    if tx.from == tx.to then
      a[tx.from := Account(sender.balance, nonce)]
    else
      var receiver := Get(a, tx.to);
      a[tx.from := Account(sender.balance - tx.amount, nonce)]
       [tx.to := Account(receiver.balance + tx.amount, receiver.nonce)]
  }

  function ApplyTx(c: Primitive, a: Accounts, tx: Transaction): Result<Accounts, LedgerError> {
    var sender := Get(a, tx.from);
    if !SignatureValid(c, tx) then Err(InvalidSignature)
    else if sender.nonce != tx.nonce then Err(InvalidNonce(sender.nonce, tx.nonce))
    else if sender.balance < tx.amount then Err(InsufficientBalance(sender.balance, tx.amount))
    else if tx.from != tx.to && Get(a, tx.to).balance + tx.amount > U64_MAX then Err(BalanceOverflow)
    else Ok(Transferred(a, tx))
  }

  /** Apply a list in order; the first rejection is the result. */
  function ApplyAll(c: Primitive, a: Accounts, txs: seq<Transaction>): Result<Accounts, LedgerError> {
    if txs == [] then Ok(a) else
    match ApplyAll(c, a, txs[..|txs| - 1])
    case Ok(b) => ApplyTx(c, b, txs[|txs| - 1])
    case Err(e) => Err(e)
  }

  class StateStore {
    var accounts: Accounts

    constructor ()
      ensures accounts == map[]
    {
      accounts := map[];
    }

    constructor Clone(other: StateStore)
      ensures accounts == other.accounts
    {
      accounts := other.accounts;
    }

    function GetBalance(who: Address): (r: U64)
      reads this
      ensures r == Get(accounts, who).balance
    {
      if who in accounts then accounts[who].balance else 0
    }

    function GetNonce(who: Address): (r: U64)
      reads this
      ensures r == Get(accounts, who).nonce
    {
      if who in accounts then accounts[who].nonce else 0
    }

    /** `entry(who).or_default()`, then an update in place. */
    method SetEntry(who: Address, account: Account)
      modifies this
      ensures accounts == old(accounts)[who := account]
    {
      accounts := accounts[who := account];
    }

    method Credit(who: Address, amount: U64)
      modifies this
      ensures accounts == Credited(old(accounts), who, amount)
    {
      SetEntry(who, Account(Wrap(GetBalance(who) + amount), GetNonce(who)));
    }

    method ApplyTransaction(c: Primitive, tx: Transaction) returns (r: Result<(), LedgerError>)
      modifies this
      ensures match ApplyTx(c, old(accounts), tx)
        case Ok(a) => r == Ok(()) && accounts == a
        case Err(e) => r == Err(e) && accounts == old(accounts)
    {
      if !SignatureValid(c, tx) {
        return Err(InvalidSignature);
      }
      var expected: U64 := GetNonce(tx.from);
      if expected != tx.nonce {
        return Err(InvalidNonce(expected, tx.nonce));
      }
      var fromBalance: U64 := GetBalance(tx.from);
      if fromBalance < tx.amount {
        return Err(InsufficientBalance(fromBalance, tx.amount));
      }
      if tx.from != tx.to {
        var toBalance := GetBalance(tx.to);
        if toBalance + tx.amount > U64_MAX {
          return Err(BalanceOverflow);
        }
      }
      SetEntry(tx.from, Account(fromBalance - tx.amount, Wrap(expected + 1)));
      if tx.from != tx.to {
        SetEntry(tx.to, Account(GetBalance(tx.to) + tx.amount, GetNonce(tx.to)));
      } else {
        SetEntry(tx.from, Account(GetBalance(tx.from) + tx.amount, GetNonce(tx.from)));
      }
      r := Ok(());
    }

    method ApplyBlock(c: Primitive, block: Block) returns (r: Result<(), LedgerError>)
      modifies this
      ensures match ApplyAll(c, old(accounts), block.transactions)
        case Ok(a) => r == Ok(()) && accounts == a
        case Err(e) => r == Err(e) && accounts == old(accounts)
    {
      var snapshot := accounts;
      var txs := block.transactions;
      for i := 0 to |txs|
        invariant ApplyAll(c, snapshot, txs[..i]) == Ok(accounts)
      {
        assert txs[..i + 1][..i] == txs[..i];
        var applied := ApplyTransaction(c, txs[i]);
        if applied.Err? {
          accounts := snapshot;
          ApplyAllStopsAt(c, snapshot, txs, i + 1);
          return applied;
        }
      }
      assert txs[..|txs|] == txs;
      r := Ok(());
    }
  }

  lemma ApplyNothing(c: Primitive, a: Accounts)
    ensures ApplyAll(c, a, []) == Ok(a)
  {}

  /** Once a prefix is rejected, the whole list is, with the same error. */
  lemma {:induction false} ApplyAllStopsAt(c: Primitive, a: Accounts, txs: seq<Transaction>, n: nat)
    requires n <= |txs| && ApplyAll(c, a, txs[..n]).Err?
    ensures ApplyAll(c, a, txs) == ApplyAll(c, a, txs[..n])
    decreases |txs| - n
  {
    if n == |txs| {
      assert txs[..n] == txs;
    } else {
      assert txs[..n + 1][..n] == txs[..n];
      ApplyAllStopsAt(c, a, txs, n + 1);
    }
  }

  lemma {:induction false} ApplyAllAppend(c: Primitive, a: Accounts, xs: seq<Transaction>, ys: seq<Transaction>)
    ensures ApplyAll(c, a, xs + ys) ==
      match ApplyAll(c, a, xs) case Ok(b) => ApplyAll(c, b, ys) case Err(e) => Err(e)
  {
    if ys == [] {
      assert xs + ys == xs;
    } else {
      var front := ys[..|ys| - 1];
      assert (xs + ys)[..|xs + ys| - 1] == xs + front;
      ApplyAllAppend(c, a, xs, front);
    }
  }
}

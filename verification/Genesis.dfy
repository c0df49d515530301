/** The state a node starts from (crates/node/src/node.rs:55-68). */
module Genesis {
  import opened Primitives
  import opened Crypto
  import opened Transactions
  import opened Blocks
  import opened State
  import opened LedgerLaws
  import opened Pool
  import opened Mempools
  import opened BlockStores
  import opened Actor

  datatype Allocation = Allocation(who: Address, amount: U64)

  function CreditAll(allocations: seq<Allocation>): Accounts {
    if allocations == [] then map[] else
    var last := allocations[|allocations| - 1];
    Credited(CreditAll(allocations[..|allocations| - 1]), last.who, last.amount)
  }

  ghost function SeedPool(c: Primitive, txs: seq<Transaction>): Pending {
    if txs == [] then map[] else AfterInsert(c, SeedPool(c, txs[..|txs| - 1]), DEFAULT_CAPACITY, txs[|txs| - 1])
  }

  ghost function InitialState(c: Primitive, allocations: seq<Allocation>, seeds: seq<Transaction>): AppState {
    AppState(CreditAll(allocations), Stored(c, EmptyStore(), GenesisBlock()), SeedPool(c, seeds), map[])
  }

  method CreditGenesis(state: StateStore, allocations: seq<Allocation>)
    requires state.accounts == map[]
    modifies state
    ensures state.accounts == CreditAll(allocations)
  {
    hide Credited;
    for i := 0 to |allocations|
      invariant state.accounts == CreditAll(allocations[..i])
    {
      assert allocations[..i + 1][..i] == allocations[..i];
      state.Credit(allocations[i].who, allocations[i].amount);
    }
    assert allocations[..|allocations|] == allocations;
  }

  /** A rejected seed transaction is skipped. */
  method SeedMempool(c: Primitive, mempool: Mempool, seeds: seq<Transaction>)
    requires mempool.Valid(c) && mempool.contents == map[] && mempool.capacity == DEFAULT_CAPACITY
    modifies mempool
    ensures mempool.Valid(c) && mempool.contents == SeedPool(c, seeds)
  {
    hide PoolOk, IsHashIndex, SenderIndex, AfterInsert, InsertOutcome;
    for i := 0 to |seeds|
      invariant mempool.Valid(c) && mempool.contents == SeedPool(c, seeds[..i])
    {
      assert seeds[..i + 1][..i] == seeds[..i];
      var r := mempool.Insert(c, seeds[i]);
    }
    assert seeds[..|seeds|] == seeds;
  }

  method Boot(c: Primitive, signer: SigningKey, allocations: seq<Allocation>, seeds: seq<Transaction>)
      returns (app: Application)
    ensures fresh(app) && fresh(app.state) && fresh(app.blocks) && fresh(app.mempool)
    ensures app.Valid() && app.c == c && app.signer == signer && app.genesisDigest == BlockHash(c, GenesisBlock())
    ensures app.View() == InitialState(c, allocations, seeds)
  {
    hide BlockHash, PoolOk, IsHashIndex, SenderIndex, GenesisBlock, StoreOk, Stored;
    var state := new StateStore();
    CreditGenesis(state, allocations);
    var blocks := new BlockStore();
    EmptyStoreOk(c);
    StoredOk(c, EmptyStore(), GenesisBlock());
    blocks.Insert(c, GenesisBlock());
    var mempool := new Mempool.WithCapacity(c, DEFAULT_CAPACITY);
    SeedMempool(c, mempool, seeds);
    app := new Application(c, signer, GenesisBlock(), state, blocks, mempool);
  }

  lemma EmptyStoreOk(c: Primitive)
    ensures StoreOk(c, EmptyStore())
  {}

  lemma AfterInsertOk(c: Primitive, pool: Pending, capacity: nat, tx: Transaction)
    requires PoolOk(c, pool)
    ensures PoolOk(c, AfterInsert(c, pool, capacity, tx))
  {
    hide TxHash, SignatureValid;
  }

  lemma {:induction false} SeedPoolOk(c: Primitive, txs: seq<Transaction>)
    ensures PoolOk(c, SeedPool(c, txs)) && |SeedPool(c, txs)| <= DEFAULT_CAPACITY
  {
    hide PoolOk;
    if txs == [] {
      EmptyPoolOk(c);
    } else {
      SeedPoolOk(c, txs[..|txs| - 1]);
      AfterInsertOk(c, SeedPool(c, txs[..|txs| - 1]), DEFAULT_CAPACITY, txs[|txs| - 1]);
    }
  }

  // ----- which seeds are pending -----

  /** The i-th seed is kept: it is signed and positive, no earlier kept seed has its slot or its hash, and
      fewer than 1024 were kept before it. */
  ghost predicate KeptSeed(c: Primitive, txs: seq<Transaction>, i: nat)
    requires i < |txs|
    decreases i, 1
  {
    var tx := txs[i];
    && tx.signature.Some? && c.verifies(tx.from, PurePayload(tx), tx.signature.value)
    && tx.amount > 0
    && NoKeptClash(c, txs, i, tx)
    && KeptCount(c, txs, i) < 1024
  }

  /** No earlier kept seed has the slot or the hash of `tx`. */
  ghost predicate NoKeptClash(c: Primitive, txs: seq<Transaction>, i: nat, tx: Transaction)
    requires i <= |txs|
    decreases i, 0
  {
    forall j: nat :: j < i && KeptSeed(c, txs, j) ==>
      (txs[j].from != tx.from || txs[j].nonce != tx.nonce) && TxHash(c, txs[j]) != TxHash(c, tx)
  }

  ghost function KeptCount(c: Primitive, txs: seq<Transaction>, n: nat): nat
    requires n <= |txs|
    decreases n, 0
  {
    if n == 0 then 0 else KeptCount(c, txs, n - 1) + if KeptSeed(c, txs, n - 1) then 1 else 0
  }

  /** `tx` is a kept one among the first `n` seeds, and belongs in `slot`. */
  ghost predicate KeptAs(c: Primitive, txs: seq<Transaction>, n: nat, slot: Slot, tx: Transaction)
    requires n <= |txs|
  {
    exists j: nat :: j < n && KeptSeed(c, txs, j) && txs[j] == tx && SlotOf(tx) == slot
  }

  /** The pool holds the kept ones among the first `n` seeds. */
  ghost predicate HoldsKept(c: Primitive, txs: seq<Transaction>, n: nat, pool: Pending)
    requires n <= |txs|
  {
    && |pool| == KeptCount(c, txs, n)
    && (forall slot, tx :: slot in pool && pool[slot] == tx <==> KeptAs(c, txs, n, slot, tx))
  }

  lemma PoolClash(c: Primitive, txs: seq<Transaction>, i: nat, pool: Pending, s: Slot, tx: Transaction)
    requires i <= |txs| && HoldsKept(c, txs, i, pool) && s in pool
    requires s == SlotOf(tx) || TxHash(c, pool[s]) == TxHash(c, tx)
    ensures !NoKeptClash(c, txs, i, tx)
  {
    hide KeptSeed, TxHash, KeptCount;
    assert KeptAs(c, txs, i, s, pool[s]);
  }

  lemma KeptClash(c: Primitive, txs: seq<Transaction>, i: nat, pool: Pending, tx: Transaction)
    requires i <= |txs| && HoldsKept(c, txs, i, pool) && !NoKeptClash(c, txs, i, tx)
    ensures SlotOf(tx) in pool || HoldsHash(c, pool, TxHash(c, tx))
  {
    hide KeptSeed, TxHash, KeptCount;
    var j: nat :| j < i && KeptSeed(c, txs, j) &&
      ((txs[j].from == tx.from && txs[j].nonce == tx.nonce) || TxHash(c, txs[j]) == TxHash(c, tx));
    assert KeptAs(c, txs, i, SlotOf(txs[j]), txs[j]);
  }

  lemma KeptIffInserted(c: Primitive, txs: seq<Transaction>, i: nat, pool: Pending)
    requires i < |txs| && HoldsKept(c, txs, i, pool)
    ensures KeptSeed(c, txs, i) <==> InsertOutcome(c, pool, DEFAULT_CAPACITY, txs[i]).Ok?
  {
    hide TxHash, PurePayload, KeptCount, KeptAs, NoKeptClash, HoldsHash;
    var tx := txs[i];
    if !NoKeptClash(c, txs, i, tx) {
      KeptClash(c, txs, i, pool, tx);
    } else {
      if SlotOf(tx) in pool {
        PoolClash(c, txs, i, pool, SlotOf(tx), tx);
      }
      HashClash(c, txs, i, pool, tx);
    }
  }

  lemma HashClash(c: Primitive, txs: seq<Transaction>, i: nat, pool: Pending, tx: Transaction)
    requires i <= |txs| && HoldsKept(c, txs, i, pool) && NoKeptClash(c, txs, i, tx)
    ensures !HoldsHash(c, pool, TxHash(c, tx))
  {
    hide TxHash, KeptCount, KeptAs, NoKeptClash;
    forall s | s in pool ensures TxHash(c, pool[s]) != TxHash(c, tx) {
      if TxHash(c, pool[s]) == TxHash(c, tx) {
        PoolClash(c, txs, i, pool, s, tx);
      }
    }
  }

  lemma KeptCountStep(c: Primitive, txs: seq<Transaction>, n: nat)
    requires n < |txs|
    ensures KeptCount(c, txs, n + 1) == KeptCount(c, txs, n) + if KeptSeed(c, txs, n) then 1 else 0
  {
    hide KeptSeed;
  }

  lemma KeptAsStep(c: Primitive, txs: seq<Transaction>, n: nat, slot: Slot, tx: Transaction)
    requires n < |txs|
    ensures KeptAs(c, txs, n + 1, slot, tx) <==>
      KeptAs(c, txs, n, slot, tx) || (KeptSeed(c, txs, n) && txs[n] == tx && SlotOf(tx) == slot)
  {
    hide KeptSeed, SlotOf;
  }

  lemma KeepStep(c: Primitive, txs: seq<Transaction>, n: nat, pool: Pending)
    requires n < |txs| && HoldsKept(c, txs, n, pool) && (KeptSeed(c, txs, n) ==> SlotOf(txs[n]) !in pool)
    ensures HoldsKept(c, txs, n + 1, if KeptSeed(c, txs, n) then pool[SlotOf(txs[n]) := txs[n]] else pool)
  {
    hide KeptSeed, KeptCount, KeptAs, SlotOf;
    KeptCountStep(c, txs, n);
    var m, next := n + 1, if KeptSeed(c, txs, n) then pool[SlotOf(txs[n]) := txs[n]] else pool;
    forall slot, tx ensures slot in next && next[slot] == tx <==> KeptAs(c, txs, m, slot, tx) {
      KeptAsStep(c, txs, n, slot, tx);
    }
  }

  lemma {:induction false} SeedPoolHoldsKept(c: Primitive, txs: seq<Transaction>, n: nat)
    requires n <= |txs|
    ensures HoldsKept(c, txs, n, SeedPool(c, txs[..n]))
  {
    hide KeptSeed, TxHash, SignatureValid;
    if n > 0 {
      hide HoldsKept, HoldsHash;
      var pool := SeedPool(c, txs[..n - 1]);
      SeedPoolHoldsKept(c, txs, n - 1);
      KeptIffInserted(c, txs, n - 1, pool);
      assert txs[..n][..n - 1] == txs[..n - 1];
      KeepStep(c, txs, n - 1, pool);
    }
  }

  /** What a node starts with pending: exactly the kept seeds, each in its slot. */
  lemma SeedPoolExact(c: Primitive, txs: seq<Transaction>, slot: Slot, tx: Transaction)
    ensures slot in SeedPool(c, txs) && SeedPool(c, txs)[slot] == tx <==>
      SlotOf(tx) == slot && exists j: nat :: j < |txs| && KeptSeed(c, txs, j) && txs[j] == tx
  {
    hide KeptSeed, SeedPool;
    assert txs[..|txs|] == txs;
    SeedPoolHoldsKept(c, txs, |txs|);
    assert KeptAs(c, txs, |txs|, slot, tx) <==> slot in SeedPool(c, txs) && SeedPool(c, txs)[slot] == tx;
  }

  lemma {:induction false} KeptCountBounded(c: Primitive, txs: seq<Transaction>, n: nat)
    requires n <= |txs|
    ensures KeptCount(c, txs, n) <= n
  {
    hide KeptSeed;
    if n > 0 {
      KeptCountBounded(c, txs, n - 1);
    }
  }

  /** In particular, up to 1024 signed and positive seeds with different slots and hashes are all pending. */
  lemma AllSeedsPending(c: Primitive, txs: seq<Transaction>)
    requires |txs| <= 1024
    requires forall tx :: tx in txs ==>
      tx.amount > 0 && tx.signature.Some? && c.verifies(tx.from, PurePayload(tx), tx.signature.value)
    requires forall i, j :: 0 <= i < j < |txs| ==>
      SlotOf(txs[i]) != SlotOf(txs[j]) && TxHash(c, txs[i]) != TxHash(c, txs[j])
    ensures forall tx :: tx in txs ==> SlotOf(tx) in SeedPool(c, txs) && SeedPool(c, txs)[SlotOf(tx)] == tx
  {
    hide SeedPool, PurePayload, TxHash, KeptCount;
    forall i: nat | i < |txs| ensures KeptSeed(c, txs, i) {
      KeptCountBounded(c, txs, i);
      assert txs[i] in txs;
    }
    forall tx | tx in txs ensures SlotOf(tx) in SeedPool(c, txs) && SeedPool(c, txs)[SlotOf(tx)] == tx {
      SeedPoolExact(c, txs, SlotOf(tx), tx);
    }
  }

  lemma EmptyPoolOk(c: Primitive)
    ensures PoolOk(c, map[])
  {}

  lemma InitialOk(c: Primitive, allocations: seq<Allocation>, seeds: seq<Transaction>)
    ensures AppOk(c, InitialState(c, allocations, seeds))
    ensures HeightsOk(InitialState(c, allocations, seeds).store)
  {
    hide BlockHash;
    SeedPoolOk(c, seeds);
    StoredOk(c, EmptyStore(), GenesisBlock());
  }

  lemma {:induction false} CreditedNonces(allocations: seq<Allocation>, who: Address)
    ensures Get(CreditAll(allocations), who).nonce == 0
  {
    if allocations != [] {
      CreditedNonces(allocations[..|allocations| - 1], who);
    }
  }

  // ----- genesis supply -----

  function Allocated(allocations: seq<Allocation>, who: Address): nat {
    if allocations == [] then 0 else
    var last := allocations[|allocations| - 1];
    Allocated(allocations[..|allocations| - 1], who) + if last.who == who then last.amount else 0
  }

  function TotalAllocated(allocations: seq<Allocation>): nat {
    if allocations == [] then 0 else
    TotalAllocated(allocations[..|allocations| - 1]) + allocations[|allocations| - 1].amount
  }

  /** How often the unchecked `+=` of `credit` wraps. */
  function Wraps(allocations: seq<Allocation>): nat {
    if allocations == [] then 0 else
    var front, last := allocations[..|allocations| - 1], allocations[|allocations| - 1];
    Wraps(front) + if Get(CreditAll(front), last.who).balance + last.amount > U64_MAX then 1 else 0
  }

  lemma SupplyCredited(a: Accounts, who: Address, amount: U64)
    ensures Supply(Credited(a, who, amount)) + (if Get(a, who).balance + amount > U64_MAX then U64_LIMIT else 0)
      == Supply(a) + amount
  {
    hide Supply;
    var account := Get(a, who);
    SupplyUpdate(a, who, Account(Wrap(account.balance + amount), account.nonce));
  }

  lemma {:induction false} SupplyAfterCredits(allocations: seq<Allocation>)
    ensures Supply(CreditAll(allocations)) + U64_LIMIT * Wraps(allocations) == TotalAllocated(allocations)
  {
    if allocations == [] {
      assert CreditAll(allocations) == map[];
    } else {
      hide Supply, Get, Credited;
      var front, last := allocations[..|allocations| - 1], allocations[|allocations| - 1];
      SupplyAfterCredits(front);
      SupplyCredited(CreditAll(front), last.who, last.amount);
    }
  }

  lemma {:induction false} CreditsExact(allocations: seq<Allocation>, who: Address)
    requires Wraps(allocations) == 0
    ensures Get(CreditAll(allocations), who).balance == Allocated(allocations, who)
  {
    if allocations != [] {
      CreditsExact(allocations[..|allocations| - 1], who);
    }
  }

  /** Every account at genesis: what its address was allocated, wrapped, and nonce 0. */
  lemma {:induction false} GenesisAccounts(allocations: seq<Allocation>, who: Address)
    ensures Get(CreditAll(allocations), who) == Account(Wrap(Allocated(allocations, who)), 0)
    ensures who in CreditAll(allocations) <==> exists x :: x in allocations && x.who == who
  {
    if allocations != [] {
      var front, last := allocations[..|allocations| - 1], allocations[|allocations| - 1];
      assert allocations == front + [last];
      GenesisAccounts(front, who);
      WrapAdd(Allocated(front, who), last.amount);
    }
  }

  ghost predicate AllocationsFit(allocations: seq<Allocation>) {
    forall who :: Allocated(allocations, who) <= U64_MAX
  }

  lemma {:induction false} FittingNeverWraps(allocations: seq<Allocation>)
    requires AllocationsFit(allocations)
    ensures Wraps(allocations) == 0
  {
    if allocations != [] {
      var front, last := allocations[..|allocations| - 1], allocations[|allocations| - 1];
      forall who ensures Allocated(front, who) <= U64_MAX {
        assert Allocated(front, who) <= Allocated(allocations, who);
      }
      FittingNeverWraps(front);
      CreditsExact(front, last.who);
      assert Allocated(allocations, last.who) <= U64_MAX;
    }
  }

  /** Genesis creates exactly the allocated supply if and only if no address is allocated more than
      fits a balance. */
  lemma GenesisSupplyExact(allocations: seq<Allocation>)
    ensures Supply(CreditAll(allocations)) == TotalAllocated(allocations) <==> AllocationsFit(allocations)
  {
    SupplyAfterCredits(allocations);
    if AllocationsFit(allocations) {
      FittingNeverWraps(allocations);
    } else if Supply(CreditAll(allocations)) == TotalAllocated(allocations) {
      var who :| Allocated(allocations, who) > U64_MAX;
      CreditsExact(allocations, who);
    }
  }
}

/** Pending transactions whose nonce the ledger has already passed. `finalize` drops a transaction by its
    hash only (crates/consensus/src/app/actor.rs:195-197), so one whose slot was used by another
    transaction stays; and it is the first one the builder tries for its sender. */
module Stale {
  import opened Primitives
  import opened Crypto
  import opened Transactions
  import opened Blocks
  import opened State
  import opened LedgerLaws
  import opened Pool
  import opened Builder
  import opened Actor
  import opened Genesis
  import opened Runs
  import opened Replicas
  import opened Pipeline

  /** Everything hashed to tell `tx` from the transactions of a list. */
  ghost function TxPreimages(tx: Transaction, txs: seq<Transaction>): set<Bytes> {
    {EncodeTx(tx)} + set x | x in txs :: EncodeTx(x)
  }

  /** Dropping by hash drops only the transaction itself, or encodings collide. */
  lemma DroppedOccurs(c: Primitive, tx: Transaction, txs: seq<Transaction>)
    requires TxHash(c, tx) in Hashes(c, txs)
    ensures tx in txs || Collides(c, TxPreimages(tx, txs))
  {
    hide EncodeTx;
    var x :| x in txs && TxHash(c, x) == TxHash(c, tx);
    if x != tx {
      if EncodeTx(x) == EncodeTx(tx) {
        EncodeTxInjective(x, tx);
      }
      assert EncodeTx(x) in TxPreimages(tx, txs) && EncodeTx(tx) in TxPreimages(tx, txs);
    }
  }

  /** Which of its nonces a sender used in an accepted list, while they do not run round. */
  lemma UsedNonces(c: Primitive, a: Accounts, txs: seq<Transaction>, slot: Slot)
    requires ApplyAll(c, a, txs).Ok?
    requires Get(a, slot.sender).nonce + |OnlyFrom(txs, slot.sender)| < U64_LIMIT
    ensures var b := ApplyAll(c, a, txs).value;
      && Get(b, slot.sender).nonce == Get(a, slot.sender).nonce + |OnlyFrom(txs, slot.sender)|
      && ((exists tx :: tx in txs && SlotOf(tx) == slot) <==> !IsStale(a, slot) && IsStale(b, slot))
  {
    hide ApplyAll, OnlyFrom, Get;
    var who := slot.sender;
    var own, start := OnlyFrom(txs, who), Get(a, who).nonce;
    SenderNonces(c, a, txs, who);
    assert forall k :: 0 <= k < |own| ==> own[k].nonce == start + k;
    forall tx | tx in txs && SlotOf(tx) == slot ensures start <= slot.nonce < start + |own| {
      OnlyFromMember(txs, tx);
    }
    if start <= slot.nonce < start + |own| {
      var tx := own[slot.nonce - start];
      OnlyFromOwn(txs, who, slot.nonce - start);
      OnlyFromMember(txs, tx);
      assert tx in txs && SlotOf(tx) == slot;
    }
  }

  /** A transaction that a run leaves pending is stale afterwards if and only if it was stale before or the
      run executed another transaction with its sender and nonce. */
  lemma StaleIff(c: Primitive, key: SigningKey, s: AppState, events: seq<Event>, slot: Slot)
    requires var h := History(c, key, s, events);
      Get(s.accounts, slot.sender).nonce + |OnlyFrom(h, slot.sender)| < U64_LIMIT
    requires slot in Exec(c, key, s, events).pool
    ensures var h, t := History(c, key, s, events), Exec(c, key, s, events);
      && slot in s.pool && t.pool[slot] == s.pool[slot]
      && (IsStale(t.accounts, slot) <==>
        IsStale(s.accounts, slot) || exists tx :: tx in h && SlotOf(tx) == slot && tx != t.pool[slot])
  {
    hide ApplyAll, OnlyFrom, Get, History, Exec, TxHash;
    var h := History(c, key, s, events);
    LedgerIsReplay(c, key, s, events);
    PoolOverRun(c, key, s, events);
    UsedNonces(c, s.accounts, h, slot);
    forall tx | tx in h && SlotOf(tx) == slot ensures tx != s.pool[slot] {
      assert TxHash(c, tx) in Hashes(c, h);
    }
  }

  /** A stale transaction is there for good, and as long as it is, no proposal contains anything from its
      sender, whatever else that sender has pending. */
  lemma StaleStalls(c: Primitive, key: SigningKey, s: AppState, events: seq<Event>, slot: Slot, order: seq<Address>)
    requires AppOk(c, s) && slot in s.pool && IsStale(s.accounts, slot) && Distinct(order)
    requires var h := History(c, key, s, events);
      Get(s.accounts, slot.sender).nonce + |OnlyFrom(h, slot.sender)| < U64_LIMIT
    ensures var h, t := History(c, key, s, events), Exec(c, key, s, events);
      || Collides(c, TxPreimages(s.pool[slot], h))
      || (&& slot in t.pool && t.pool[slot] == s.pool[slot] && IsStale(t.accounts, slot)
          && OnlyFrom(Selected(c, t, order), slot.sender) == [])
  {
    hide ApplyAll, OnlyFrom, Get, History, Exec, TxHash, Hashes, Collides, PoolOk, PendingOk, Selection, TxPreimages;
    var h, t := History(c, key, s, events), Exec(c, key, s, events);
    LedgerIsReplay(c, key, s, events);
    PoolOverRun(c, key, s, events);
    RunKeepsOk(c, key, s, events);
    UsedNonces(c, s.accounts, h, slot);
    assert SlotOf(s.pool[slot]) == slot by {
      PoolSlots(c, s.pool, slot);
    }
    if slot in t.pool {
      StaleBlocksSender(c, t.accounts, t.pool, slot, order, MAX_TXS_PER_BLOCK);
      SelectedIs(c, t, order);
    } else {
      DroppedOccurs(c, s.pool[slot], h);
    }
  }

  lemma PoolSlots(c: Primitive, pool: Pending, slot: Slot)
    requires PoolOk(c, pool) && slot in pool
    ensures SlotOf(pool[slot]) == slot
  {
    hide TxHash, SignatureValid;
  }

  /** The builder meets the stale transaction first, and gives up on its sender. */
  lemma StaleBlocksSender(c: Primitive, a: Accounts, pool: Pending, slot: Slot, order: seq<Address>, maxTxs: nat)
    requires PoolOk(c, pool) && slot in pool && IsStale(a, slot) && Distinct(order)
    ensures OnlyFrom(Selection(c, a, pool, order, maxTxs), slot.sender) == []
  {
    hide PoolOk, OnlyFrom, Selection, PendingFrom, Get, Distinct;
    var own := OnlyFrom(Selection(c, a, pool, order, maxTxs), slot.sender);
    var pending := PendingFrom(pool, slot.sender);
    SelectionShape(c, a, pool, order, maxTxs, slot.sender);
    assert own != [] ==> own[0] == pending[0] && own[0].nonce == Get(a, slot.sender).nonce + 0;
    PendingFromSorted(c, pool, slot.sender);
    PoolSlots(c, pool, slot);
    assert pool[slot] in pool.Values;
    var j :| 0 <= j < |pending| && pending[j] == pool[slot];
  }

  /** It happens: from a genesis with one seeded transfer, a peer's block with another transfer in the same
      slot strands the seed, and from then on nothing its sender signs is proposed. */
  lemma StrandedSeed(c: Primitive, key: SigningKey, to: Address, more: seq<Event>, order: seq<Address>)
      returns (b: Block)
    requires SignaturesCorrect(c) && Distinct(order)
    ensures |b.transactions| <= MAX_DECODED_TXS
    ensures var who, tx := PublicKey(c, key), Signed(c, key, to, 1, 0);
      var s := Exec(c, key, InitialState(c, [Allocation(who, 1)], [tx]), StoreThenFinalize(c, b));
      var h, t := History(c, key, s, more), Exec(c, key, s, more);
      |OnlyFrom(h, who)| < U64_MAX ==>
        || Collides(c, TxPreimages(tx, b.transactions))
        || Collides(c, TxPreimages(tx, h))
        || (SlotOf(tx) in t.pool && t.pool[SlotOf(tx)] == tx && OnlyFrom(Selected(c, t, order), who) == [])
  {
    hide ApplyAll, OnlyFrom, Exec, TxHash, Collides, Selected, AppOk, Signed, TxPreimages, Distinct, CreditAll,
        SeedPool, History, GenesisBlock, StoreThenFinalize;
    var who, tx := PublicKey(c, key), Signed(c, key, to, 1, 0);
    var allocations := [Allocation(who, 1)];
    var s0 := InitialState(c, allocations, [tx]);
    var other := Signed(c, key, to, 0, 0);
    SignedFields(c, key, to);
    FirstTxAccepted(c, key, allocations, to);
    b := NewBlock(c, 1, BlockHash(c, GenesisBlock()), 0, who, [other]);
    var s := Exec(c, key, s0, StoreThenFinalize(c, b));
    SeededPool(c, tx);
    CreditedNonces(allocations, who);
    InitialOk(c, allocations, [tx]);
    ConflictStrands(c, key, s0, b, other);
    if !Collides(c, TxPreimages(tx, [other])) && |OnlyFrom(History(c, key, s, more), who)| < U64_MAX {
      StaleStalls(c, key, s, more, SlotOf(tx), order);
    }
  }

  /** Finalizing a block of one transaction that has the sender and nonce of another pending one leaves
      that one pending and stale, or the two encodings collide. */
  lemma ConflictStrands(c: Primitive, key: SigningKey, s: AppState, b: Block, other: Transaction)
    requires AppOk(c, s) && SlotOf(other) in s.pool && s.pool[SlotOf(other)] != other
    requires b.transactions == [other] && ApplyAll(c, s.accounts, [other]).Ok? && other.nonce < U64_MAX
    ensures var tx, t := s.pool[SlotOf(other)], Exec(c, key, s, StoreThenFinalize(c, b));
      && AppOk(c, t) && Get(t.accounts, other.from).nonce == other.nonce + 1
      && (|| Collides(c, TxPreimages(tx, [other]))
          || (SlotOf(other) in t.pool && t.pool[SlotOf(other)] == tx && IsStale(t.accounts, SlotOf(other))))
  {
    hide ApplyAll, Exec, TxHash, Collides, AppOk, TxPreimages, History, Hashes, StoreThenFinalize;
    var es := StoreThenFinalize(c, b);
    StoreThenFinalizeRuns(c, key, s, b);
    HistoryOfOne(c, key, s, es, b);
    RunKeepsOk(c, key, s, es);
    PoolOverRun(c, key, s, es);
    AppliedOne(c, s.accounts, other);
    if SlotOf(other) !in Exec(c, key, s, es).pool {
      DroppedOccurs(c, s.pool[SlotOf(other)], [other]);
    }
  }

  lemma AppliedOne(c: Primitive, a: Accounts, tx: Transaction)
    requires ApplyAll(c, a, [tx]).Ok? && tx.nonce < U64_MAX
    ensures Get(ApplyAll(c, a, [tx]).value, tx.from).nonce == tx.nonce + 1
  {
    hide SignatureValid;
    assert [tx][..0] == [];
  }

  lemma SignedFields(c: Primitive, key: SigningKey, to: Address)
    requires SignaturesCorrect(c)
    ensures var x, tx := Signed(c, key, to, 0, 0), Signed(c, key, to, 1, 0);
      && x != tx && SlotOf(x) == SlotOf(tx) == Slot(PublicKey(c, key), 0)
      && tx.amount == 1 && SignatureValid(c, tx)
  {
    hide PurePayload;
  }

  lemma HistoryOfOne(c: Primitive, key: SigningKey, s: AppState, events: seq<Event>, b: Block)
    requires Finalized(c, key, s, events) == [b]
    ensures History(c, key, s, events) == b.transactions
  {
    hide Finalized, Bodies;
    BodiesOfAtMostOne([b]);
  }
}

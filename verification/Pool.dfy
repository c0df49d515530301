/** The mempool (crates/mempool/src/pool.rs): one finite map from (sender, nonce) to transaction,
    kept as two indexes. */
module Pool {
  import opened Primitives
  import opened Crypto
  import opened Transactions

  datatype Slot = Slot(sender: Address, nonce: U64)

  type Pending = map<Slot, Transaction>

  datatype PoolError = InvalidSignature | ZeroAmount | Duplicate | NonceConflict(nonce: U64) | Full

  const DEFAULT_CAPACITY := 1024

  function SlotOf(tx: Transaction): Slot {
    Slot(tx.from, tx.nonce)
  }

  /** Every pending transaction sits in its own slot, is worth including, and has its own hash. */
  ghost predicate PoolOk(c: Primitive, pool: Pending) {
    && (forall s :: s in pool ==> SlotOf(pool[s]) == s && pool[s].amount > 0 && SignatureValid(c, pool[s]))
    && (forall s, t :: s in pool && t in pool && TxHash(c, pool[s]) == TxHash(c, pool[t]) ==> s == t)
  }

  ghost predicate HoldsHash(c: Primitive, pool: Pending, h: Digest) {
    exists s :: s in pool && TxHash(c, pool[s]) == h
  }

  ghost function InsertOutcome(c: Primitive, pool: Pending, capacity: nat, tx: Transaction): Result<Digest, PoolError> {
    if !SignatureValid(c, tx) then Err(InvalidSignature)
    else if tx.amount == 0 then Err(ZeroAmount)
    else if HoldsHash(c, pool, TxHash(c, tx)) then Err(Duplicate)
    else if SlotOf(tx) in pool then Err(NonceConflict(tx.nonce))
    else if |pool| >= capacity then Err(Full)
    else Ok(TxHash(c, tx))
  }

  ghost function AfterInsert(c: Primitive, pool: Pending, capacity: nat, tx: Transaction): Pending {
    if InsertOutcome(c, pool, capacity, tx).Ok? then pool[SlotOf(tx) := tx] else pool
  }

  /** The pool without every transaction whose hash is one of `hashes`. */
  function Without(c: Primitive, pool: Pending, hashes: set<Digest>): Pending {
    map s | s in pool && TxHash(c, pool[s]) !in hashes :: pool[s]
  }

  // ----- what one call undoes, and what a rejection means -----

  /** Removing what was just inserted gives back the pool as it was. */
  lemma InsertThenRemove(c: Primitive, pool: Pending, capacity: nat, tx: Transaction)
    requires InsertOutcome(c, pool, capacity, tx).Ok?
    ensures var h := InsertOutcome(c, pool, capacity, tx).value;
      HoldsHash(c, AfterInsert(c, pool, capacity, tx), h) && Without(c, AfterInsert(c, pool, capacity, tx), {h}) == pool
  {
    hide TxHash, SignatureValid;
    var next := AfterInsert(c, pool, capacity, tx);
    assert SlotOf(tx) in next && next[SlotOf(tx)] == tx;
    assert forall s :: s in pool ==> s in next && next[s] == pool[s] && TxHash(c, pool[s]) != TxHash(c, tx);
  }

  /** A transaction taken out of the pool can be put back, and the pool is as it was. */
  lemma RemoveThenInsert(c: Primitive, pool: Pending, capacity: nat, s: Slot)
    requires PoolOk(c, pool) && |pool| <= capacity && s in pool
    ensures var less := Without(c, pool, {TxHash(c, pool[s])});
      && InsertOutcome(c, less, capacity, pool[s]).Ok?
      && AfterInsert(c, less, capacity, pool[s]) == pool
  {
    hide TxHash, SignatureValid;
    var less := Without(c, pool, {TxHash(c, pool[s])});
    assert less == pool - {s};
    RemoveKeySize(pool, s);
  }

  /** A signed, positive transaction is refused as a duplicate if and only if that very transaction is
      pending, up to a collision with a pending one; it is refused for its nonce if and only if another
      transaction holds its slot. */
  lemma RefusalsExact(c: Primitive, pool: Pending, capacity: nat, tx: Transaction)
    requires PoolOk(c, pool) && SignatureValid(c, tx) && tx.amount > 0
    ensures tx in pool.Values ==> InsertOutcome(c, pool, capacity, tx) == Err(Duplicate)
    ensures InsertOutcome(c, pool, capacity, tx) == Err(Duplicate) ==>
      tx in pool.Values || Collides(c, {EncodeTx(tx)} + set s | s in pool :: EncodeTx(pool[s]))
    ensures InsertOutcome(c, pool, capacity, tx) == Err(NonceConflict(tx.nonce)) ==>
      SlotOf(tx) in pool && pool[SlotOf(tx)] != tx
    ensures SlotOf(tx) in pool && !Collides(c, {EncodeTx(tx)} + set s | s in pool :: EncodeTx(pool[s])) ==>
      InsertOutcome(c, pool, capacity, tx) == Err(if pool[SlotOf(tx)] == tx then Duplicate else NonceConflict(tx.nonce))
  {
    hide SignatureValid, EncodeTx;
    if s :| s in pool && TxHash(c, pool[s]) == TxHash(c, tx) {
      if EncodeTx(pool[s]) == EncodeTx(tx) {
        EncodeTxInjective(pool[s], tx);
      }
    }
  }

  /** The outcome of an insertion, from the pool and the transaction: the five refusals in their order. */
  lemma InsertExact(c: Primitive, pool: Pending, capacity: nat, tx: Transaction)
    ensures var signed := tx.signature.Some? && c.verifies(tx.from, PurePayload(tx), tx.signature.value);
      var known := exists s :: s in pool && c.sha256(EncodeTx(pool[s])) == c.sha256(EncodeTx(tx));
      match InsertOutcome(c, pool, capacity, tx)
      case Err(InvalidSignature) => !signed
      case Err(ZeroAmount) => signed && tx.amount == 0
      case Err(Duplicate) => signed && tx.amount > 0 && known
      case Err(NonceConflict(nonce)) =>
        signed && tx.amount > 0 && !known && Slot(tx.from, tx.nonce) in pool && nonce == tx.nonce
      case Err(Full) => signed && tx.amount > 0 && !known && Slot(tx.from, tx.nonce) !in pool && |pool| >= capacity
      case Ok(hash) =>
        && signed && tx.amount > 0 && !known && Slot(tx.from, tx.nonce) !in pool && |pool| < capacity
        && hash == c.sha256(EncodeTx(tx))
  {
    hide PurePayload, EncodeTx;
  }

  // ----- enumeration -----

  lemma {:induction false} FindLeast(s: set<U64>) returns (least: U64)
    requires s != {}
    ensures least in s && forall y :: y in s ==> least <= y
    decreases |s|
  {
    var x :| x in s;
    var rest := s - {x};
    assert forall y :: y in s ==> y == x || y in rest;
    if rest == {} {
      least := x;
    } else {
      var other := FindLeast(rest);
      least := if other < x then other else x;
    }
  }

  lemma LeastExists(s: set<U64>)
    requires s != {}
    ensures exists x :: x in s && forall y :: y in s ==> x <= y
  {
    var least := FindLeast(s);
  }

  function Least(s: set<U64>): (x: U64)
    requires s != {}
    ensures x in s && forall y :: y in s ==> x <= y
  {
    LeastExists(s);
    var x :| x in s && forall y :: y in s ==> x <= y;
    x
  }

  /** The key order of a `BTreeMap`. */
  function Ascending(s: set<U64>): (xs: seq<U64>)
    ensures forall x :: x in xs <==> x in s
    ensures forall i, j :: 0 <= i < j < |xs| ==> xs[i] < xs[j]
    decreases |s|
  {
    if s == {} then [] else [Least(s)] + Ascending(s - {Least(s)})
  }

  function NoncesOf(pool: Pending, sender: Address): set<U64> {
    set s | s in pool && s.sender == sender :: s.nonce
  }

  function SendersOf(pool: Pending): set<Address> {
    set s | s in pool :: s.sender
  }

  function AtNonces(pool: Pending, sender: Address, nonces: seq<U64>): (txs: seq<Transaction>)
    requires forall n :: n in nonces ==> Slot(sender, n) in pool
    ensures |txs| == |nonces|
    ensures forall i :: 0 <= i < |txs| ==> txs[i] == pool[Slot(sender, nonces[i])]
  {
    if nonces == [] then [] else
      assert nonces[0] in nonces;
      assert forall n :: n in nonces[1..] ==> n in nonces;
      [pool[Slot(sender, nonces[0])]] + AtNonces(pool, sender, nonces[1..])
  }

  function PendingFrom(pool: Pending, sender: Address): seq<Transaction> {
    AtNonces(pool, sender, Ascending(NoncesOf(pool, sender)))
  }

  /** An order in which a hash map's keys may be listed. */
  ghost predicate IsOrder(order: seq<Address>, keys: set<Address>) {
    Distinct(order) && forall a :: a in order <==> a in keys
  }

  /** Each pending transaction exactly once. */
  ghost predicate Lists(txs: seq<Transaction>, pool: Pending) {
    Distinct(txs) && forall tx :: tx in txs <==> tx in pool.Values
  }

  function AllFrom(pool: Pending, order: seq<Address>): seq<Transaction> {
    if order == [] then [] else AllFrom(pool, order[..|order| - 1]) + PendingFrom(pool, order[|order| - 1])
  }

  /** `pending_from` is strictly increasing in the nonce and complete for its sender. */
  lemma PendingFromSorted(c: Primitive, pool: Pending, sender: Address)
    requires PoolOk(c, pool)
    ensures var txs := PendingFrom(pool, sender);
      && (forall i, j :: 0 <= i < j < |txs| ==> txs[i].nonce < txs[j].nonce)
      && (forall tx :: tx in txs <==> tx in pool.Values && tx.from == sender)
  {
    var nonces := Ascending(NoncesOf(pool, sender));
    var txs := PendingFrom(pool, sender);
    forall i | 0 <= i < |txs| ensures txs[i].nonce == nonces[i] && txs[i].from == sender && txs[i] in pool.Values {
      assert nonces[i] in nonces && Slot(sender, nonces[i]) in pool;
    }
    forall tx | tx in pool.Values && tx.from == sender ensures tx in txs {
      var s :| s in pool && pool[s] == tx;
      assert s.nonce in nonces;
      var i :| 0 <= i < |nonces| && nonces[i] == s.nonce;
      assert txs[i] == tx;
    }
  }

  /** Its head carries the sender's lowest pending nonce. */
  lemma PendingFromHead(c: Primitive, pool: Pending, sender: Address)
    requires PoolOk(c, pool)
    ensures PendingFrom(pool, sender) == [] <==> sender !in SendersOf(pool)
    ensures PendingFrom(pool, sender) != [] ==>
      NoncesOf(pool, sender) != {} && PendingFrom(pool, sender)[0].nonce == Least(NoncesOf(pool, sender))
  {
    if sender in SendersOf(pool) {
      var s :| s in pool && s.sender == sender;
      assert s.nonce in NoncesOf(pool, sender);
    }
  }

  lemma {:induction false} AllFromLists(c: Primitive, pool: Pending, order: seq<Address>)
    requires PoolOk(c, pool) && Distinct(order)
    ensures Distinct(AllFrom(pool, order))
    ensures forall tx :: tx in AllFrom(pool, order) <==> tx in pool.Values && tx.from in order
  {
    if order != [] {
      var front, last := order[..|order| - 1], order[|order| - 1];
      AllFromLists(c, pool, front);
      PendingFromSorted(c, pool, last);
      assert order == front + [last];
      assert last !in front;
      var xs, ys := AllFrom(pool, front), PendingFrom(pool, last);
      forall i, j | 0 <= i < j < |xs + ys| ensures (xs + ys)[i] != (xs + ys)[j] {
        if i < |xs| <= j {
          assert (xs + ys)[i] in xs && (xs + ys)[j] in ys;
        }
      }
    }
  }

  lemma {:induction false} ListingsPermute(xs: seq<Transaction>, ys: seq<Transaction>)
    requires Distinct(xs) && Distinct(ys) && forall tx :: tx in xs <==> tx in ys
    ensures multiset(xs) == multiset(ys)
  {
    forall tx ensures multiset(xs)[tx] == multiset(ys)[tx] {
      DistinctMultiplicity(xs, tx);
      DistinctMultiplicity(ys, tx);
    }
  }

  lemma {:induction false} DistinctMultiplicity(xs: seq<Transaction>, tx: Transaction)
    requires Distinct(xs)
    ensures multiset(xs)[tx] == if tx in xs then 1 else 0
  {
    if xs != [] {
      var front, last := xs[..|xs| - 1], xs[|xs| - 1];
      assert xs == front + [last];
      DistinctMultiplicity(front, tx);
    }
  }

  /** Walking the senders in any order meets exactly the pending transactions, each once. */
  lemma EnumerationIsPermutation(c: Primitive, pool: Pending, order: seq<Address>, listing: seq<Transaction>)
    requires PoolOk(c, pool) && IsOrder(order, SendersOf(pool)) && Lists(listing, pool)
    ensures multiset(AllFrom(pool, order)) == multiset(listing)
  {
    AllFromLists(c, pool, order);
    forall tx ensures tx in AllFrom(pool, order) <==> tx in listing {
      if tx in pool.Values {
        var s :| s in pool && pool[s] == tx;
        assert s.sender in SendersOf(pool);
      }
    }
    ListingsPermute(AllFrom(pool, order), listing);
  }

  // ----- the two indexes -----

  type ByHash = map<Digest, Transaction>
  type BySender = map<Address, map<U64, Digest>>

  lemma NonceIn(pool: Pending, a: Address, n: U64)
    ensures n in NoncesOf(pool, a) <==> Slot(a, n) in pool
  {
    if n in NoncesOf(pool, a) {
      var s :| s in pool && s.sender == a && s.nonce == n;
      assert s == Slot(a, n);
    }
    if Slot(a, n) in pool {
      assert Slot(a, n).nonce in NoncesOf(pool, a);
    }
  }

  /** The hash index holds the transactions of the pool, each under its hash, and nothing else. */
  ghost predicate IsHashIndex(c: Primitive, txs: ByHash, pool: Pending) {
    && (forall s :: s in pool ==> TxHash(c, pool[s]) in txs && txs[TxHash(c, pool[s])] == pool[s])
    && (forall h :: h in txs ==> TxHash(c, txs[h]) == h && SlotOf(txs[h]) in pool && pool[SlotOf(txs[h])] == txs[h])
  }

  ghost function NonceIndex(c: Primitive, pool: Pending, a: Address): map<U64, Digest> {
    map n | n in NoncesOf(pool, a) && Slot(a, n) in pool :: TxHash(c, pool[Slot(a, n)])
  }

  /** Senders without a pending transaction have no entry at all. */
  ghost function SenderIndex(c: Primitive, pool: Pending): BySender {
    map a | a in SendersOf(pool) :: NonceIndex(c, pool, a)
  }

  lemma NonceIndexAt(c: Primitive, pool: Pending, a: Address, n: U64)
    ensures n in NonceIndex(c, pool, a) <==> Slot(a, n) in pool
    ensures Slot(a, n) in pool ==> a in SendersOf(pool) && NonceIndex(c, pool, a)[n] == TxHash(c, pool[Slot(a, n)])
  {
    NonceIn(pool, a, n);
  }

  lemma SenderIndexGet(c: Primitive, pool: Pending, a: Address)
    ensures a in SenderIndex(c, pool) <==> a in SendersOf(pool)
    ensures NonceIndex(c, pool, a) == if a in SenderIndex(c, pool) then SenderIndex(c, pool)[a] else map[]
  {
    hide TxHash;
    NonceIndexEmpty(c, pool, a);
  }

  lemma NonceIndexKeys(c: Primitive, pool: Pending, a: Address)
    ensures NonceIndex(c, pool, a).Keys == NoncesOf(pool, a)
  {
    hide TxHash;
    forall n ensures n in NonceIndex(c, pool, a) <==> n in NoncesOf(pool, a) {
      NonceIn(pool, a, n);
    }
  }

  lemma PendingFromAt(pool: Pending, sender: Address)
    ensures var nonces := Ascending(NoncesOf(pool, sender));
      && |PendingFrom(pool, sender)| == |nonces|
      && forall i :: 0 <= i < |nonces| ==>
        Slot(sender, nonces[i]) in pool && PendingFrom(pool, sender)[i] == pool[Slot(sender, nonces[i])]
  {
    var nonces := Ascending(NoncesOf(pool, sender));
    forall i | 0 <= i < |nonces| ensures Slot(sender, nonces[i]) in pool {
      assert nonces[i] in nonces;
    }
  }

  lemma RemoveKeySize<K, V>(m: map<K, V>, k: K)
    requires k in m
    ensures |m - {k}| == |m| - 1
  {
    assert (m - {k}).Keys == m.Keys - {k};
  }

  lemma NonceIndexEmpty(c: Primitive, pool: Pending, a: Address)
    ensures NonceIndex(c, pool, a) == map[] <==> a !in SendersOf(pool)
  {
    hide TxHash;
    if a in SendersOf(pool) {
      var s :| s in pool && s.sender == a;
      NonceIndexAt(c, pool, a, s.nonce);
    } else {
      forall n ensures n !in NonceIndex(c, pool, a) {
        NonceIndexAt(c, pool, a, n);
      }
    }
  }

  lemma NonceIndexInsert(c: Primitive, pool: Pending, tx: Transaction, a: Address)
    ensures NonceIndex(c, pool[SlotOf(tx) := tx], a) ==
      if a == tx.from then NonceIndex(c, pool, a)[tx.nonce := TxHash(c, tx)] else NonceIndex(c, pool, a)
  {
    hide TxHash;
    var next := pool[SlotOf(tx) := tx];
    forall n ensures n in NonceIndex(c, next, a) <==> n in NonceIndex(c, pool, a) || (a == tx.from && n == tx.nonce) {
      NonceIndexAt(c, pool, a, n);
      NonceIndexAt(c, next, a, n);
    }
    forall n | n in NonceIndex(c, next, a) ensures NonceIndex(c, next, a)[n] ==
      if a == tx.from && n == tx.nonce then TxHash(c, tx) else TxHash(c, pool[Slot(a, n)])
    {
      NonceIndexAt(c, next, a, n);
    }
  }

  lemma NonceIndexRemove(c: Primitive, pool: Pending, tx: Transaction, a: Address)
    ensures NonceIndex(c, pool - {SlotOf(tx)}, a) ==
      if a == tx.from then NonceIndex(c, pool, a) - {tx.nonce} else NonceIndex(c, pool, a)
  {
    hide TxHash;
    var next := pool - {SlotOf(tx)};
    forall n ensures n in NonceIndex(c, next, a) <==> n in NonceIndex(c, pool, a) && !(a == tx.from && n == tx.nonce) {
      NonceIndexAt(c, pool, a, n);
      NonceIndexAt(c, next, a, n);
    }
    forall n | n in NonceIndex(c, next, a) ensures NonceIndex(c, next, a)[n] == NonceIndex(c, pool, a)[n] {
      NonceIndexAt(c, next, a, n);
      NonceIndexAt(c, pool, a, n);
    }
  }

  lemma SendersInsert(pool: Pending, tx: Transaction)
    ensures SendersOf(pool[SlotOf(tx) := tx]) == SendersOf(pool) + {tx.from}
  {
    var next := pool[SlotOf(tx) := tx];
    assert SlotOf(tx) in next;
    forall a | a in SendersOf(pool) ensures a in SendersOf(next) {
      var s :| s in pool && s.sender == a;
      assert s in next;
    }
  }

  lemma SendersRemove(pool: Pending, tx: Transaction, a: Address)
    requires a != tx.from
    ensures a in SendersOf(pool - {SlotOf(tx)}) <==> a in SendersOf(pool)
  {
    if a in SendersOf(pool) {
      var s :| s in pool && s.sender == a;
      assert s in pool - {SlotOf(tx)};
    }
  }

  lemma SenderIndexInsert(c: Primitive, pool: Pending, tx: Transaction)
    ensures SenderIndex(c, pool[SlotOf(tx) := tx]) ==
      SenderIndex(c, pool)[tx.from := NonceIndex(c, pool, tx.from)[tx.nonce := TxHash(c, tx)]]
  {
    hide TxHash, NonceIndex, NoncesOf;
    SendersInsert(pool, tx);
    forall a ensures NonceIndex(c, pool[SlotOf(tx) := tx], a) ==
      if a == tx.from then NonceIndex(c, pool, a)[tx.nonce := TxHash(c, tx)] else NonceIndex(c, pool, a)
    {
      NonceIndexInsert(c, pool, tx, a);
    }
  }

  lemma SenderIndexRemove(c: Primitive, pool: Pending, tx: Transaction)
    ensures var left := NonceIndex(c, pool, tx.from) - {tx.nonce};
      SenderIndex(c, pool - {SlotOf(tx)}) ==
        if left == map[] then SenderIndex(c, pool) - {tx.from} else SenderIndex(c, pool)[tx.from := left]
  {
    hide TxHash, NonceIndex, NoncesOf;
    var next := pool - {SlotOf(tx)};
    NonceIndexRemove(c, pool, tx, tx.from);
    NonceIndexEmpty(c, next, tx.from);
    forall a | a != tx.from
      ensures (a in SendersOf(next) <==> a in SendersOf(pool)) && NonceIndex(c, next, a) == NonceIndex(c, pool, a)
    {
      SendersRemove(pool, tx, a);
      NonceIndexRemove(c, pool, tx, a);
    }
  }

  lemma HashIndexInsert(c: Primitive, txs: ByHash, pool: Pending, tx: Transaction)
    requires IsHashIndex(c, txs, pool) && PoolOk(c, pool)
    requires TxHash(c, tx) !in txs && SlotOf(tx) !in pool && tx.amount > 0 && SignatureValid(c, tx)
    ensures IsHashIndex(c, txs[TxHash(c, tx) := tx], pool[SlotOf(tx) := tx])
    ensures PoolOk(c, pool[SlotOf(tx) := tx])
  {
    hide TxHash, SignatureValid;
  }

  lemma HashIndexRemove(c: Primitive, txs: ByHash, pool: Pending, h: Digest)
    requires IsHashIndex(c, txs, pool) && PoolOk(c, pool) && h in txs
    ensures IsHashIndex(c, txs - {h}, pool - {SlotOf(txs[h])})
    ensures PoolOk(c, pool - {SlotOf(txs[h])})
    ensures pool - {SlotOf(txs[h])} == Without(c, pool, {h})
  {
    hide TxHash, SignatureValid;
  }

  lemma HashIndexHolds(c: Primitive, txs: ByHash, pool: Pending, h: Digest)
    requires IsHashIndex(c, txs, pool)
    ensures h in txs <==> HoldsHash(c, pool, h)
  {
    hide TxHash;
  }

  lemma HashIndexCovers(c: Primitive, txs: ByHash, pool: Pending, pool': Pending)
    requires IsHashIndex(c, txs, pool) && IsHashIndex(c, txs, pool') && PoolOk(c, pool)
    ensures forall s :: s in pool ==> s in pool' && pool'[s] == pool[s]
  {
    hide TxHash, SignatureValid;
    forall s | s in pool ensures s in pool' && pool'[s] == pool[s] {
      assert txs[TxHash(c, pool[s])] == pool[s] && SlotOf(pool[s]) == s;
    }
  }

  lemma PoolDeterminesHashIndex(c: Primitive, txs: ByHash, txs': ByHash, pool: Pending)
    requires IsHashIndex(c, txs, pool) && IsHashIndex(c, txs', pool)
    ensures forall h :: h in txs ==> h in txs' && txs'[h] == txs[h]
  {
    hide TxHash;
    forall h | h in txs ensures h in txs' && txs'[h] == txs[h] {
      assert pool[SlotOf(txs[h])] == txs[h];
    }
  }

  lemma SenderIndexCovers(c: Primitive, pool: Pending, pool': Pending)
    requires SenderIndex(c, pool) == SenderIndex(c, pool')
    ensures forall s :: s in pool ==> s in pool'
  {
    hide TxHash;
    forall s | s in pool ensures s in pool' {
      NonceIndexAt(c, pool, s.sender, s.nonce);
      NonceIndexAt(c, pool', s.sender, s.nonce);
      assert s == Slot(s.sender, s.nonce);
      assert s.sender in SenderIndex(c, pool);
      assert s.sender in SenderIndex(c, pool') && SenderIndex(c, pool)[s.sender] == SenderIndex(c, pool')[s.sender];
    }
  }

  /** The two indexes represent one map: equal hash indexes mean equal pools and equal sender indexes,
      equal sender indexes mean equal slots. */
  lemma IndexesDeterminePool(c: Primitive, txs: ByHash, pool: Pending, txs': ByHash, pool': Pending)
    requires PoolOk(c, pool) && PoolOk(c, pool') && IsHashIndex(c, txs, pool) && IsHashIndex(c, txs', pool')
    ensures txs == txs' <==> pool == pool'
    ensures txs == txs' ==> SenderIndex(c, pool) == SenderIndex(c, pool')
    ensures SenderIndex(c, pool) == SenderIndex(c, pool') ==> pool.Keys == pool'.Keys
  {
    hide TxHash, SignatureValid, SenderIndex, PoolOk, IsHashIndex;
    if txs == txs' {
      HashIndexCovers(c, txs, pool, pool');
      HashIndexCovers(c, txs, pool', pool);
      assert pool == pool';
    }
    if pool == pool' {
      PoolDeterminesHashIndex(c, txs, txs', pool);
      PoolDeterminesHashIndex(c, txs', txs, pool);
      assert txs == txs';
    }
    if SenderIndex(c, pool) == SenderIndex(c, pool') {
      SenderIndexCovers(c, pool, pool');
      SenderIndexCovers(c, pool', pool);
    }
  }
}

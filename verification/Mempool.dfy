/** The `Mempool` struct (crates/mempool/src/pool.rs): two indexes updated in place, proved to stay
    one map. */
module Mempools {
  import opened Primitives
  import opened Crypto
  import opened Transactions
  import opened Pool

  class Mempool {
    var txs: ByHash
    var bySender: BySender
    const capacity: nat
    /** The map that the two indexes represent. */
    ghost var contents: Pending

    ghost predicate Valid(c: Primitive)
      reads this
    {
      && PoolOk(c, contents)
      && IsHashIndex(c, txs, contents)
      && bySender == SenderIndex(c, contents)
      && |txs| == |contents| <= capacity
    }

    constructor WithCapacity(c: Primitive, capacity: nat)
      ensures Valid(c) && contents == map[] && this.capacity == capacity
    {
      this.capacity := capacity;
      txs, bySender, contents := map[], map[], map[];
    }

    method Insert(c: Primitive, tx: Transaction) returns (r: Result<Digest, PoolError>)
      requires Valid(c)
      modifies this
      ensures Valid(c)
      ensures r == InsertOutcome(c, old(contents), capacity, tx)
      ensures contents == AfterInsert(c, old(contents), capacity, tx)
      ensures r.Err? ==> txs == old(txs) && bySender == old(bySender)
    {
      hide TxHash, SignatureValid, SenderIndex, NonceIndex, PoolOk, IsHashIndex;
      if !SignatureValid(c, tx) {
        return Err(PoolError.InvalidSignature);
      }
      if tx.amount == 0 {
        return Err(ZeroAmount);
      }
      var hash := TxHash(c, tx);
      HashIndexHolds(c, txs, contents, hash);
      if hash in txs {
        return Err(Duplicate);
      }
      SenderIndexGet(c, contents, tx.from);
      NonceIndexAt(c, contents, tx.from, tx.nonce);
      if tx.from in bySender && tx.nonce in bySender[tx.from] {
        return Err(NonceConflict(tx.nonce));
      }
      if |txs| >= capacity {
        return Err(Full);
      }
      SenderIndexInsert(c, contents, tx);
      HashIndexInsert(c, txs, contents, tx);
      var byNonce: map<U64, Digest> := if tx.from in bySender then bySender[tx.from] else map[];
      bySender := bySender[tx.from := byNonce[tx.nonce := hash]];
      txs := txs[hash := tx];
      contents := contents[SlotOf(tx) := tx];
      r := Ok(hash);
    }

    method Remove(c: Primitive, hash: Digest) returns (r: Option<Transaction>)
      requires Valid(c)
      modifies this
      ensures Valid(c) && contents == Without(c, old(contents), {hash})
      ensures r.Some? <==> HoldsHash(c, old(contents), hash)
      ensures r.Some? ==> TxHash(c, r.value) == hash
      ensures r.Some? ==> SlotOf(r.value) in old(contents) && old(contents)[SlotOf(r.value)] == r.value
    {
      hide TxHash, SignatureValid, SenderIndex, NonceIndex, PoolOk, HoldsHash;
      HashIndexHolds(c, txs, contents, hash);
      if hash !in txs {
        assert Without(c, contents, {hash}) == contents;
        return None;
      }
      var tx := txs[hash];
      HashIndexRemove(c, txs, contents, hash);
      SenderIndexRemove(c, contents, tx);
      SenderIndexGet(c, contents, tx.from);
      NonceIndexAt(c, contents, tx.from, tx.nonce);
      RemoveKeySize(txs, hash);
      RemoveKeySize(contents, SlotOf(tx));
      txs := txs - {hash};
      if tx.from in bySender {
        var byNonce: map<U64, Digest> := bySender[tx.from] - {tx.nonce};
        if byNonce == map[] {
          bySender := bySender - {tx.from};
        } else {
          bySender := bySender[tx.from := byNonce];
        }
      }
      contents := contents - {SlotOf(tx)};
      r := Some(tx);
    }

    method PendingOf(c: Primitive, sender: Address) returns (r: seq<Transaction>)
      requires Valid(c)
      ensures r == PendingFrom(contents, sender)
    {
      hide TxHash, SignatureValid, SenderIndex, NonceIndex, PoolOk, PendingFrom, Ascending, NoncesOf;
      SenderIndexGet(c, contents, sender);
      PendingFromHead(c, contents, sender);
      if sender !in bySender {
        return [];
      }
      var byNonce: map<U64, Digest> := bySender[sender];
      NonceIndexKeys(c, contents, sender);
      PendingFromAt(contents, sender);
      var nonces := Ascending(byNonce.Keys);
      r := [];
      for i := 0 to |nonces|
        invariant |r| == i && forall j :: 0 <= j < i ==> r[j] == PendingFrom(contents, sender)[j]
      {
        NonceIndexAt(c, contents, sender, nonces[i]);
        var hash := byNonce[nonces[i]];
        if hash in txs {
          r := r + [txs[hash]];
        }
      }
    }

    method LowestNonce(c: Primitive, sender: Address) returns (r: Option<U64>)
      requires Valid(c)
      ensures r == var first := PendingFrom(contents, sender); if first == [] then None else Some(first[0].nonce)
    {
      hide TxHash, SignatureValid, SenderIndex, NonceIndex, PoolOk, PendingFrom, NoncesOf;
      SenderIndexGet(c, contents, sender);
      PendingFromHead(c, contents, sender);
      if sender !in bySender {
        return None;
      }
      var byNonce: map<U64, Digest> := bySender[sender];
      NonceIndexKeys(c, contents, sender);
      r := Some(Least(byNonce.Keys));
    }

    /** `HashMap::keys`: every sender once, in an order nobody promises. */
    method Senders(c: Primitive) returns (order: seq<Address>)
      requires Valid(c)
      ensures IsOrder(order, SendersOf(contents))
    {
      hide TxHash, SignatureValid, NonceIndex, PoolOk, IsHashIndex;
      order := [];
      var left := bySender.Keys;
      while left != {}
        invariant Distinct(order)
        invariant forall a :: a in bySender.Keys <==> a in order || a in left
        invariant forall a :: a in order ==> a !in left
        decreases |left|
      {
        var a :| a in left;
        left := left - {a};
        order := order + [a];
      }
    }

    method AllPending(c: Primitive) returns (r: seq<Transaction>)
      requires Valid(c)
      ensures Lists(r, contents)
    {
      hide TxHash, SignatureValid, SenderIndex;
      r := [];
      var left := txs.Keys;
      while left != {}
        invariant left <= txs.Keys && Distinct(r)
        invariant forall h :: h in txs && h !in left ==> txs[h] in r
        invariant forall tx :: tx in r ==> TxHash(c, tx) in txs && TxHash(c, tx) !in left && txs[TxHash(c, tx)] == tx
        decreases |left|
      {
        var h :| h in left;
        assert TxHash(c, txs[h]) == h;
        left := left - {h};
        r := r + [txs[h]];
      }
      forall tx ensures tx in r <==> tx in contents.Values {
        if tx in contents.Values {
          var s :| s in contents && contents[s] == tx;
          assert TxHash(c, tx) in txs;
        }
      }
    }
  }
}

/** Runs in which every finalization extends the tip, as the consensus engine is trusted to arrange:
    the block store is then a chain from genesis, and the chain alone reproduces the ledger. */
module Chain {
  import opened Primitives
  import opened Crypto
  import opened Transactions
  import opened Blocks
  import opened State
  import opened Pool
  import opened BlockStores
  import opened Actor
  import opened Genesis
  import opened Runs

  /** Every committed block is the child of the tip at that moment. */
  ghost predicate ChildOfTip(c: Primitive, key: SigningKey, s: AppState, events: seq<Event>) {
    events != [] ==>
      var front, e := events[..|events| - 1], events[|events| - 1];
      && ChildOfTip(c, key, s, front)
      && Extends(c, Tip(Exec(c, key, s, front).store), CommittedBy(c, Exec(c, key, s, front), e))
  }

  ghost predicate Extends(c: Primitive, tip: Option<Block>, committed: seq<Block>) {
    forall b :: b in committed ==>
      tip.Some? && b.header.parentHash == BlockHash(c, tip.value) && b.header.height == tip.value.header.height + 1
  }

  ghost predicate Linked(c: Primitive, chain: seq<Block>) {
    && chain != [] && chain[0] == GenesisBlock()
    && (forall i :: 0 <= i < |chain| ==> chain[i].header.height == i)
    && (forall i :: 0 < i < |chain| ==> chain[i].header.parentHash == BlockHash(c, chain[i - 1]))
  }

  /** The store holds the chain, by height and by digest, and nothing else. */
  ghost predicate StoreIsChain(c: Primitive, s: Store, chain: seq<Block>) {
    && (forall n: U64 :: n in s.heights <==> n < |chain|)
    && (forall i :: 0 <= i < |chain| ==> i in s.heights && s.heights[i] == BlockHash(c, chain[i]))
    && (forall i :: 0 <= i < |chain| ==>
      BlockHash(c, chain[i]) in s.blocks && s.blocks[BlockHash(c, chain[i])] == chain[i])
    && (forall d :: d in s.blocks ==> exists i :: 0 <= i < |chain| && BlockHash(c, chain[i]) == d)
  }

  ghost function HeaderPreimages(blocks: seq<Block>): set<Bytes> {
    set b | b in blocks :: EncodeHeader(b.header)
  }

  function ChainOf(c: Primitive, key: SigningKey, s: AppState, events: seq<Event>): seq<Block> {
    [GenesisBlock()] + Finalized(c, key, s, events)
  }

  /** A node that has just started: nothing stored but the genesis block. */
  ghost predicate AtGenesis(c: Primitive, s: AppState) {
    s.store == Stored(c, EmptyStore(), GenesisBlock())
  }

  lemma GenesisChain(c: Primitive, s: AppState)
    requires AtGenesis(c, s)
    ensures Linked(c, [GenesisBlock()]) && StoreIsChain(c, s.store, [GenesisBlock()])
  {
    hide BlockHash;
    var chain := [GenesisBlock()];
    forall d | d in s.store.blocks ensures exists i :: 0 <= i < |chain| && BlockHash(c, chain[i]) == d {
      assert BlockHash(c, chain[0]) == d;
    }
  }

  lemma ChainTip(c: Primitive, s: Store, chain: seq<Block>)
    requires Linked(c, chain) && StoreIsChain(c, s, chain)
    ensures Tip(s) == Some(chain[|chain| - 1])
  {
    hide BlockHash;
    var top := |chain| - 1;
    assert chain[top].header.height == top;
    assert s.heights[top] == BlockHash(c, chain[top]);
    assert top in s.heights.Keys;
    assert forall n :: n in s.heights.Keys ==> n in s.heights;
    assert Greatest(s.heights.Keys) == top;
  }

  lemma LinkedExtends(c: Primitive, chain: seq<Block>, b: Block)
    requires Linked(c, chain)
    requires b.header.parentHash == BlockHash(c, chain[|chain| - 1]) && b.header.height == |chain|
    ensures Linked(c, chain + [b])
  {
    hide BlockHash, GenesisBlock;
    var next := chain + [b];
    assert forall i :: 0 <= i < |chain| ==> next[i] == chain[i];
  }

  lemma ClashCollides(c: Primitive, chain: seq<Block>, b: Block, i: nat)
    requires Linked(c, chain) && i < |chain| && b.header.height == |chain|
    requires BlockHash(c, chain[i]) == BlockHash(c, b)
    ensures Collides(c, HeaderPreimages(chain + [b]))
  {
    hide BlockHash, EncodeHeader, Collides, GenesisBlock;
    var next := chain + [b];
    assert chain[i] in chain && chain[i] in next && b in next;
    assert chain[i].header.height == i;
    HeaderCollision(c, chain[i], b, HeaderPreimages(next));
  }

  lemma ChainDeterminesStore(c: Primitive, s: Store, s': Store, chain: seq<Block>)
    requires StoreIsChain(c, s, chain) && StoreIsChain(c, s', chain)
    ensures s == s'
  {
    hide BlockHash;
    StoreWithin(c, s, s', chain);
    StoreWithin(c, s', s, chain);
    assert s.heights == s'.heights && s.blocks == s'.blocks;
  }

  lemma StoreWithin(c: Primitive, s: Store, s': Store, chain: seq<Block>)
    requires StoreIsChain(c, s, chain) && StoreIsChain(c, s', chain)
    ensures forall n :: n in s.heights ==> n in s'.heights && s.heights[n] == s'.heights[n]
    ensures forall d :: d in s.blocks ==> d in s'.blocks && s.blocks[d] == s'.blocks[d]
  {
    hide BlockHash;
    forall d | d in s.blocks ensures d in s'.blocks && s.blocks[d] == s'.blocks[d] {
      var i :| 0 <= i < |chain| && BlockHash(c, chain[i]) == d;
    }
  }

  /** Storing a child of the tip extends the chain, unless its header collides with one in it. */
  lemma StoreExtends(c: Primitive, s: Store, chain: seq<Block>, b: Block)
    requires Linked(c, chain) && StoreIsChain(c, s, chain)
    requires chain != [] && b.header.parentHash == BlockHash(c, chain[|chain| - 1]) && b.header.height == |chain|
    ensures Linked(c, chain + [b])
    ensures StoreIsChain(c, Stored(c, s, b), chain + [b]) || Collides(c, HeaderPreimages(chain + [b]))
  {
    hide BlockHash, Collides, HeaderPreimages, StoreIsChain, Linked, Stored;
    LinkedExtends(c, chain, b);
    if i: nat :| i < |chain| && BlockHash(c, chain[i]) == BlockHash(c, b) {
      ClashCollides(c, chain, b, i);
    } else {
      NoClash(c, s, chain, b);
    }
  }

  lemma NoClash(c: Primitive, s: Store, chain: seq<Block>, b: Block)
    requires StoreIsChain(c, s, chain) && b.header.height == |chain|
    requires forall i :: 0 <= i < |chain| ==> BlockHash(c, chain[i]) != BlockHash(c, b)
    ensures StoreIsChain(c, Stored(c, s, b), chain + [b])
  {
    hide BlockHash;
    var next, t := chain + [b], Stored(c, s, b);
    forall i | 0 <= i < |next|
      ensures i in t.heights && t.heights[i] == BlockHash(c, next[i])
      ensures BlockHash(c, next[i]) in t.blocks && t.blocks[BlockHash(c, next[i])] == next[i]
    {
      if i < |chain| {
        assert next[i] == chain[i];
      }
    }
    forall d | d in t.blocks ensures exists i :: 0 <= i < |next| && BlockHash(c, next[i]) == d {
      if d == BlockHash(c, b) {
        assert next[|chain|] == b;
      } else {
        var i :| 0 <= i < |chain| && BlockHash(c, chain[i]) == d;
        assert next[i] == chain[i];
      }
    }
  }

  lemma StepStore(c: Primitive, key: SigningKey, s: AppState, e: Event)
    ensures var bs := CommittedBy(c, s, e);
      Step(c, key, s, e).store == if bs == [] then s.store else Stored(c, s.store, bs[0])
  {
    hide ApplyAll, DecodeBlock, Stored, Without, BlockHash, Proposed;
  }

  lemma PreimagesMonotone(blocks: seq<Block>, more: seq<Block>)
    ensures HeaderPreimages(blocks) <= HeaderPreimages(blocks + more)
  {
    hide EncodeHeader;
  }

  ghost predicate HoldsChain(c: Primitive, s: Store, chain: seq<Block>) {
    Linked(c, chain) && StoreIsChain(c, s, chain) && Tip(s) == Some(chain[|chain| - 1])
  }

  lemma CommitExtends(c: Primitive, s: Store, chain: seq<Block>, bs: seq<Block>)
    requires HoldsChain(c, s, chain) && |bs| <= 1 && Extends(c, Tip(s), bs)
    ensures var t := if bs == [] then s else Stored(c, s, bs[0]);
      HoldsChain(c, t, chain + bs) || Collides(c, HeaderPreimages(chain + bs))
  {
    hide StoreIsChain, Collides, HeaderPreimages, Tip, Linked, BlockHash;
    if bs == [] {
      assert chain + bs == chain;
    } else {
      assert bs == [bs[0]] && bs[0] in bs;
      TopHeight(c, chain);
      StoreExtends(c, s, chain, bs[0]);
      if !Collides(c, HeaderPreimages(chain + bs)) {
        ChainTip(c, Stored(c, s, bs[0]), chain + bs);
      }
    }
  }

  /** Under child-of-tip finalization the store is the chain of committed blocks on genesis, and the
      tip is its last block. */
  lemma {:induction false} StoreIsTheChain(c: Primitive, key: SigningKey, s: AppState, events: seq<Event>)
    requires AtGenesis(c, s) && ChildOfTip(c, key, s, events)
    ensures var chain := ChainOf(c, key, s, events);
      Collides(c, HeaderPreimages(chain)) || HoldsChain(c, Exec(c, key, s, events).store, chain)
  {
    hide HoldsChain, Collides, HeaderPreimages, Step, Tip, AtGenesis, CommittedBy, GenesisBlock, Stored;
    var chain := ChainOf(c, key, s, events);
    if events == [] {
      FirstChain(c, s);
      assert chain == [GenesisBlock()];
    } else {
      var front, e := events[..|events| - 1], events[|events| - 1];
      StoreIsTheChain(c, key, s, front);
      var mid := Exec(c, key, s, front);
      var before, bs := ChainOf(c, key, s, front), CommittedBy(c, mid, e);
      assert chain == before + bs;
      AtMostOneBlock(c, mid, e);
      StepStore(c, key, mid, e);
      PreimagesMonotone(before, bs);
      CollidesMonotone(c, HeaderPreimages(before), HeaderPreimages(chain));
      if !Collides(c, HeaderPreimages(chain)) {
        CommitExtends(c, mid.store, before, bs);
      }
    }
  }

  lemma FirstChain(c: Primitive, s: AppState)
    requires AtGenesis(c, s)
    ensures HoldsChain(c, s.store, [GenesisBlock()])
  {
    GenesisChain(c, s);
    ChainTip(c, s.store, [GenesisBlock()]);
  }

  lemma TopHeight(c: Primitive, chain: seq<Block>)
    requires Linked(c, chain)
    ensures chain != [] && chain[|chain| - 1].header.height == |chain| - 1
  {}

  /** Fold the ledger over the blocks stored at heights 1 to `n`. */
  function ReplayHeights(c: Primitive, s: Store, a: Accounts, n: U64): Option<Accounts> {
    if n == 0 then Some(a) else
    var before := ReplayHeights(c, s, a, n - 1);
    var b := ByHeight(s, n);
    if before.None? || b.None? then None else
    var after := ApplyAll(c, before.value, b.value.transactions);
    if after.Ok? then Some(after.value) else None
  }

  lemma ChainByHeight(c: Primitive, s: Store, chain: seq<Block>, n: U64)
    requires StoreIsChain(c, s, chain) && n < |chain|
    ensures ByHeight(s, n) == Some(chain[n])
  {
    hide BlockHash;
  }

  lemma {:induction false} ReplayHeightsIsBodies(c: Primitive, s: Store, chain: seq<Block>, a: Accounts, n: U64)
    requires StoreIsChain(c, s, chain) && n < |chain| && ApplyAll(c, a, Bodies(chain[1..n + 1])).Ok?
    ensures ReplayHeights(c, s, a, n) == Some(ApplyAll(c, a, Bodies(chain[1..n + 1])).value)
  {
    hide BlockHash, ApplyAll, StoreIsChain, ByHeight;
    if n == 0 {
      assert chain[1..1] == [];
      ApplyNothing(c, a);
    } else {
      var front := chain[1..n];
      assert chain[1..n + 1] == front + [chain[n]];
      BodiesAppend(front, chain[n]);
      ApplyAllAppend(c, a, Bodies(front), chain[n].transactions);
      ReplayHeightsIsBodies(c, s, chain, a, n - 1);
      ChainByHeight(c, s, chain, n);
    }
  }

  /** Chain replay: the ledger is reproduced from the stored blocks, height by height. */
  lemma LedgerFromStore(c: Primitive, key: SigningKey, s: AppState, events: seq<Event>)
    requires AtGenesis(c, s) && ChildOfTip(c, key, s, events)
    ensures var t := Exec(c, key, s, events);
      var chain := ChainOf(c, key, s, events);
      || Collides(c, HeaderPreimages(chain))
      || (&& Tip(t.store).Some? && Tip(t.store).value.header.height == |Finalized(c, key, s, events)|
          && ReplayHeights(c, t.store, s.accounts, Tip(t.store).value.header.height) == Some(t.accounts))
  {
    hide BlockHash, ApplyAll, Collides, HeaderPreimages, Tip, AtGenesis, ChildOfTip, Exec, Finalized, Bodies,
        ReplayHeights, StoreIsChain;
    var chain := ChainOf(c, key, s, events);
    StoreIsTheChain(c, key, s, events);
    if !Collides(c, HeaderPreimages(chain)) {
      TopHeight(c, chain);
      var n := |chain| - 1;
      assert chain[1..n + 1] == Finalized(c, key, s, events);
      LedgerIsReplay(c, key, s, events);
      ReplayHeightsIsBodies(c, Exec(c, key, s, events).store, chain, s.accounts, chain[n].header.height);
    }
  }

  /** In any run at all, the height index stays right up to a collision of stored headers. */
  lemma {:induction false} RunKeepsHeights(c: Primitive, key: SigningKey, s: AppState, events: seq<Event>)
    requires AppOk(c, s) && HeightsOk(s.store)
    ensures var all := StorePreimages(s.store) + HeaderPreimages(Finalized(c, key, s, events));
      && StorePreimages(Exec(c, key, s, events).store) <= all
      && (HeightsOk(Exec(c, key, s, events).store) || Collides(c, all))
  {
    if events != [] {
      hide AppOk, Step, CommittedBy, Collides, EncodeHeader, HeightsOk, BlockHash, Stored, StorePreimages,
          HeaderPreimages;
      var front, e := events[..|events| - 1], events[|events| - 1];
      var mid := Exec(c, key, s, front);
      var before, bs := Finalized(c, key, s, front), CommittedBy(c, mid, e);
      RunKeepsHeights(c, key, s, front);
      RunKeepsOk(c, key, s, front);
      StepStore(c, key, mid, e);
      AtMostOneBlock(c, mid, e);
      PreimagesMonotone(before, bs);
      var small := StorePreimages(s.store) + HeaderPreimages(before);
      var all := StorePreimages(s.store) + HeaderPreimages(before + bs);
      CollidesMonotone(c, small, all);
      if bs != [] {
        PreimageOf(before, bs[0]);
        assert before + bs == before + [bs[0]];
        StoredPreimages(c, mid.store, bs[0]);
        StoreOkOf(c, mid);
        if HeightsOk(mid.store) {
          StoredHeights(c, mid.store, bs[0]);
          CollidesMonotone(c, StorePreimages(mid.store) + {EncodeHeader(bs[0].header)}, all);
        }
      }
    }
  }

  /** What holds in every reachable state, whatever was finalized. */
  lemma ReachableInvariant(c: Primitive, key: SigningKey, allocations: seq<Allocation>, seeds: seq<Transaction>,
      events: seq<Event>)
    ensures var s := InitialState(c, allocations, seeds);
      var t := Exec(c, key, s, events);
      && AtGenesis(c, s) && AppOk(c, t)
      && (HeightsOk(t.store) || Collides(c, HeaderPreimages(ChainOf(c, key, s, events))))
  {
    hide AppOk, Collides, EncodeHeader, HeightsOk, BlockHash, Exec, Finalized;
    var s := InitialState(c, allocations, seeds);
    InitialOk(c, allocations, seeds);
    RunKeepsOk(c, key, s, events);
    RunKeepsHeights(c, key, s, events);
    var all := StorePreimages(s.store) + HeaderPreimages(Finalized(c, key, s, events));
    assert all <= HeaderPreimages(ChainOf(c, key, s, events)) by {
      assert GenesisBlock() in ChainOf(c, key, s, events);
      assert forall b :: b in Finalized(c, key, s, events) ==> b in ChainOf(c, key, s, events);
    }
    CollidesMonotone(c, all, HeaderPreimages(ChainOf(c, key, s, events)));
  }

  lemma PreimageOf(blocks: seq<Block>, b: Block)
    ensures EncodeHeader(b.header) in HeaderPreimages(blocks + [b])
  {
    assert b in blocks + [b];
  }

  lemma StoreOkOf(c: Primitive, s: AppState)
    requires AppOk(c, s)
    ensures StoreOk(c, s.store)
  {}
}

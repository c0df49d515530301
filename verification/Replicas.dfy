/** Two replicas: what an equal tip digest means, and what happens to a block sent from one to the other. */
module Replicas {
  import opened Primitives
  import opened Crypto
  import opened Transactions
  import opened Merkle
  import opened Blocks
  import opened State
  import opened LedgerLaws
  import opened Pool
  import opened Builder
  import opened BlockStores
  import opened Actor
  import opened Genesis
  import opened Runs
  import opened Chain

  // ----- equal tips -----

  /** Every string hashed for the headers and the transaction roots of `blocks`. */
  ghost function BlockPreimages(c: Primitive, blocks: seq<Block>): set<Bytes> {
    HeaderPreimages(blocks) + BodyPreimages(c, blocks)
  }

  ghost function BodyPreimages(c: Primitive, blocks: seq<Block>): set<Bytes> {
    set b, x | b in blocks && x in RootPreimages(c, b.transactions) :: x
  }

  ghost predicate RootsMatch(c: Primitive, blocks: seq<Block>) {
    forall b :: b in blocks ==> RootMatches(c, b)
  }

  lemma SameDigestSameHeader(c: Primitive, xs: seq<Block>, ys: seq<Block>, i: nat, all: set<Bytes>)
    requires i < |xs| && i < |ys| && BlockHash(c, xs[i]) == BlockHash(c, ys[i])
    requires HeaderPreimages(xs) <= all && HeaderPreimages(ys) <= all && !Collides(c, all)
    ensures xs[i].header == ys[i].header
  {
    hide BlockHash, EncodeHeader, Collides;
    assert xs[i] in xs && ys[i] in ys;
    if xs[i].header != ys[i].header {
      HeaderCollision(c, xs[i], ys[i], all);
    }
  }

  /** Parent links carry equality of headers down to genesis. */
  lemma {:induction false} HeadersDown(c: Primitive, xs: seq<Block>, ys: seq<Block>, top: nat, i: nat, all: set<Bytes>)
    requires Linked(c, xs) && Linked(c, ys) && i <= top < |xs| && top < |ys|
    requires BlockHash(c, xs[top]) == BlockHash(c, ys[top])
    requires HeaderPreimages(xs) <= all && HeaderPreimages(ys) <= all && !Collides(c, all)
    ensures BlockHash(c, xs[i]) == BlockHash(c, ys[i]) && xs[i].header == ys[i].header
    decreases top - i
  {
    hide BlockHash, EncodeHeader, Collides, HeaderPreimages, GenesisBlock;
    if i < top {
      HeadersDown(c, xs, ys, top, i + 1, all);
      assert xs[i + 1].header.parentHash == BlockHash(c, xs[i]);
      assert ys[i + 1].header.parentHash == BlockHash(c, ys[i]);
    }
    SameDigestSameHeader(c, xs, ys, i, all);
  }

  /** Chains with the same tip digest have the same length and the same header at every height. */
  lemma TipBindsHeaders(c: Primitive, xs: seq<Block>, ys: seq<Block>)
    requires Linked(c, xs) && Linked(c, ys)
    requires BlockHash(c, xs[|xs| - 1]) == BlockHash(c, ys[|ys| - 1])
    ensures || Collides(c, HeaderPreimages(xs) + HeaderPreimages(ys))
            || (|xs| == |ys| && forall i :: 0 <= i < |xs| ==> xs[i].header == ys[i].header)
  {
    hide BlockHash, EncodeHeader, Collides, GenesisBlock;
    var all := HeaderPreimages(xs) + HeaderPreimages(ys);
    if !Collides(c, all) {
      var x, y := xs[|xs| - 1], ys[|ys| - 1];
      assert x in xs && y in ys;
      if x.header != y.header {
        HeaderCollision(c, x, y, all);
      }
      assert |xs| - 1 == x.header.height == y.header.height == |ys| - 1;
      forall i | 0 <= i < |xs| ensures xs[i].header == ys[i].header {
        HeadersDown(c, xs, ys, |xs| - 1, i, all);
      }
    }
  }

  ghost predicate Accepted(c: Primitive, b: Block) {
    exists a :: ApplyAll(c, a, b.transactions).Ok?
  }

  lemma CommittedAccepted(c: Primitive, s: AppState, e: Event)
    ensures forall b :: b in CommittedBy(c, s, e) ==> Accepted(c, b)
  {
    hide ApplyAll;
  }

  lemma {:induction false} FinalizedAccepted(c: Primitive, key: SigningKey, s: AppState, events: seq<Event>)
    ensures forall b :: b in Finalized(c, key, s, events) ==> Accepted(c, b)
  {
    if events != [] {
      hide Accepted, CommittedBy, Exec;
      FinalizedAccepted(c, key, s, events[..|events| - 1]);
      CommittedAccepted(c, Exec(c, key, s, events[..|events| - 1]), events[|events| - 1]);
    }
  }

  lemma BodyBound(c: Primitive, x: Block, y: Block, all: set<Bytes>)
    requires x.header == y.header && Accepted(c, x) && Accepted(c, y)
    requires TxRoot(c, x.transactions) == TxRoot(c, y.transactions)
    requires RootPreimages(c, x.transactions) <= all && RootPreimages(c, y.transactions) <= all && !Broken(c, all)
    ensures x == y
  {
    hide ApplyAll, TxRoot, RootPreimages, Collides, HitsZero;
    var a :| ApplyAll(c, a, x.transactions).Ok?;
    var b :| ApplyAll(c, b, y.transactions).Ok?;
    AcceptedBodiesBound(c, a, x.transactions, b, y.transactions);
    var both := RootPreimages(c, x.transactions) + RootPreimages(c, y.transactions);
    CollidesMonotone(c, both, all);
  }

  lemma PreimagesOfBody(c: Primitive, blocks: seq<Block>, b: Block)
    requires b in blocks
    ensures RootPreimages(c, b.transactions) <= BodyPreimages(c, blocks)
  {
    hide RootPreimages;
  }

  /** At every height the two bodies have one transaction root, whatever the headers say it is. */
  ghost predicate SameRoots(c: Primitive, xs: seq<Block>, ys: seq<Block>) {
    |xs| == |ys| && forall i :: 0 <= i < |xs| ==> TxRoot(c, xs[i].transactions) == TxRoot(c, ys[i].transactions)
  }

  ghost predicate SameHeaders(xs: seq<Block>, ys: seq<Block>) {
    |xs| == |ys| && forall i :: 0 <= i < |xs| ==> xs[i].header == ys[i].header
  }

  /** Equal headers and bodies with equal roots give equal blocks. */
  lemma SameBlocks(c: Primitive, xs: seq<Block>, ys: seq<Block>)
    requires SameHeaders(xs, ys) && SameRoots(c, xs, ys)
    requires forall b :: b in xs || b in ys ==> Accepted(c, b)
    ensures xs == ys || Broken(c, BodyPreimages(c, xs) + BodyPreimages(c, ys))
  {
    hide Accepted, Broken, BodyPreimages, TxRoot, RootPreimages;
    var all := BodyPreimages(c, xs) + BodyPreimages(c, ys);
    if !Broken(c, all) {
      forall i | 0 <= i < |xs| ensures xs[i] == ys[i] {
        assert xs[i] in xs && ys[i] in ys;
        PreimagesOfBody(c, xs, xs[i]);
        PreimagesOfBody(c, ys, ys[i]);
        BodyBound(c, xs[i], ys[i], all);
      }
    }
  }

  lemma GenesisAccepted(c: Primitive)
    ensures Accepted(c, GenesisBlock())
  {
    ApplyNothing(c, map[]);
    assert ApplyAll(c, map[], GenesisBlock().transactions).Ok?;
  }

  lemma ChainAccepted(c: Primitive, key: SigningKey, s: AppState, es: seq<Event>)
    ensures forall b :: b in ChainOf(c, key, s, es) ==> Accepted(c, b)
  {
    hide Accepted, Finalized, GenesisBlock;
    GenesisAccepted(c);
    FinalizedAccepted(c, key, s, es);
  }

  /** The genesis block on both sides changes nothing about two lists of blocks. */
  lemma OnGenesis(c: Primitive, xs: seq<Block>, ys: seq<Block>)
    ensures var g := [GenesisBlock()];
      && (SameHeaders(g + xs, g + ys) <==> SameHeaders(xs, ys))
      && (SameRoots(c, g + xs, g + ys) <==> SameRoots(c, xs, ys))
      && (g + xs == g + ys <==> xs == ys)
  {
    hide TxRoot, GenesisBlock;
    var g := GenesisBlock();
    assert ([g] + xs)[1..] == xs && ([g] + ys)[1..] == ys;
    assert forall i :: 0 <= i < |xs| ==> xs[i] == ([g] + xs)[i + 1];
    assert forall i :: 0 <= i < |ys| ==> ys[i] == ([g] + ys)[i + 1];
  }

  lemma ChainsWithOneTip(c: Primitive, xs: seq<Block>, ys: seq<Block>)
    requires Linked(c, xs) && Linked(c, ys)
    requires BlockHash(c, xs[|xs| - 1]) == BlockHash(c, ys[|ys| - 1])
    requires forall b :: b in xs || b in ys ==> Accepted(c, b)
    ensures || Broken(c, BlockPreimages(c, xs) + BlockPreimages(c, ys))
            || (SameHeaders(xs, ys) && (xs == ys <==> SameRoots(c, xs, ys)))
  {
    hide Linked, BlockHash, Accepted, Collides, HitsZero, HeaderPreimages, BodyPreimages, TxRoot;
    var all := BlockPreimages(c, xs) + BlockPreimages(c, ys);
    if !Broken(c, all) {
      CollidesMonotone(c, HeaderPreimages(xs) + HeaderPreimages(ys), all);
      CollidesMonotone(c, BodyPreimages(c, xs) + BodyPreimages(c, ys), all);
      TipBindsHeaders(c, xs, ys);
      if SameRoots(c, xs, ys) {
        SameBlocks(c, xs, ys);
      }
    }
  }

  ghost predicate OneTip(c: Primitive, s: Store, t: Store) {
    Tip(s).Some? && Tip(t).Some? && BlockHash(c, Tip(s).value) == BlockHash(c, Tip(t).value)
  }

  /** The tip digest determines the ledger. Two replicas start from genesis with equal accounts and
      finalize only children of their tips; keys, pools, clocks, other messages and even the order of
      events may differ. If their tips have one digest, they committed the same headers, and the same
      blocks if and only if at every height the bodies have one root; and then both have the same
      history, ledger and store. The ledgers alone agree if and only if the two histories have the same
      effect. Otherwise two strings determined by the blocks collide, or one hashes to zero. */
  lemma TipDeterminesLedger(c: Primitive, key: SigningKey, s: AppState, es: seq<Event>,
                            key': SigningKey, s': AppState, es': seq<Event>)
    requires AtGenesis(c, s) && AtGenesis(c, s') && s.accounts == s'.accounts
    requires ChildOfTip(c, key, s, es) && ChildOfTip(c, key', s', es')
    requires OneTip(c, Exec(c, key, s, es).store, Exec(c, key', s', es').store)
    ensures var xs, ys := Finalized(c, key, s, es), Finalized(c, key', s', es');
      var t, t' := Exec(c, key, s, es), Exec(c, key', s', es');
      || Broken(c, BlockPreimages(c, ChainOf(c, key, s, es)) + BlockPreimages(c, ChainOf(c, key', s', es')))
      || (&& SameHeaders(xs, ys)
          && (xs == ys <==> SameRoots(c, xs, ys))
          && (xs == ys ==>
            t.accounts == t'.accounts && t.store == t'.store && History(c, key, s, es) == History(c, key', s', es'))
          && (t.accounts == t'.accounts <==>
            SameEffect(s.accounts, History(c, key, s, es), History(c, key', s', es'))))
  {
    hide AtGenesis, ChildOfTip, Exec, Finalized, Tip, BlockHash, Linked, StoreIsChain, Collides, HitsZero, GenesisBlock,
        Accepted, HeaderPreimages, BodyPreimages, ApplyAll, SameRoots, SameHeaders, SameEffect;
    var chain, chain' := ChainOf(c, key, s, es), ChainOf(c, key', s', es');
    var xs, ys := Finalized(c, key, s, es), Finalized(c, key', s', es');
    var all := BlockPreimages(c, chain) + BlockPreimages(c, chain');
    if !Broken(c, all) {
      StoreIsTheChain(c, key, s, es);
      StoreIsTheChain(c, key', s', es');
      CollidesMonotone(c, HeaderPreimages(chain), all);
      CollidesMonotone(c, HeaderPreimages(chain'), all);
      ChainAccepted(c, key, s, es);
      ChainAccepted(c, key', s', es');
      ChainsWithOneTip(c, chain, chain');
      OnGenesis(c, xs, ys);
      if xs == ys {
        ChainDeterminesStore(c, Exec(c, key, s, es).store, Exec(c, key', s', es').store, chain);
      }
      LedgerIsReplay(c, key, s, es);
      LedgerIsReplay(c, key', s', es');
      SameLedgerIff(c, s.accounts, History(c, key, s, es), History(c, key', s', es'));
    }
  }

  /** Where one chain's roots match its bodies, the condition on the other is that its roots match too. */
  lemma MatchingRootsAgree(c: Primitive, xs: seq<Block>, ys: seq<Block>)
    requires SameHeaders(xs, ys) && RootsMatch(c, xs)
    ensures SameRoots(c, xs, ys) <==> RootsMatch(c, ys)
  {
    hide TxRoot;
    assert forall i :: 0 <= i < |xs| ==> xs[i] in xs && RootMatches(c, xs[i]);
    if SameRoots(c, xs, ys) {
      forall b | b in ys ensures RootMatches(c, b) {
        var i :| 0 <= i < |ys| && ys[i] == b;
      }
    }
    if RootsMatch(c, ys) {
      assert forall i :: 0 <= i < |ys| ==> ys[i] in ys && RootMatches(c, ys[i]);
    }
  }

  /** So among replicas whose finalized roots match their bodies, equal tip digests mean equal ledgers. */
  lemma CheckedRootsDetermineLedger(c: Primitive, key: SigningKey, s: AppState, es: seq<Event>,
                                    key': SigningKey, s': AppState, es': seq<Event>)
    requires AtGenesis(c, s) && AtGenesis(c, s') && s.accounts == s'.accounts
    requires ChildOfTip(c, key, s, es) && ChildOfTip(c, key', s', es')
    requires OneTip(c, Exec(c, key, s, es).store, Exec(c, key', s', es').store)
    requires RootsMatch(c, Finalized(c, key, s, es)) && RootsMatch(c, Finalized(c, key', s', es'))
    ensures var t, t' := Exec(c, key, s, es), Exec(c, key', s', es');
      || Broken(c, BlockPreimages(c, ChainOf(c, key, s, es)) + BlockPreimages(c, ChainOf(c, key', s', es')))
      || (&& Finalized(c, key, s, es) == Finalized(c, key', s', es')
          && t.accounts == t'.accounts && t.store == t'.store)
  {
    hide AtGenesis, ChildOfTip, Exec, Finalized, OneTip, Broken, BlockPreimages, RootsMatch, SameRoots, SameHeaders;
    TipDeterminesLedger(c, key, s, es, key', s', es');
    var xs, ys := Finalized(c, key, s, es), Finalized(c, key', s', es');
    if SameHeaders(xs, ys) {
      MatchingRootsAgree(c, xs, ys);
    }
  }

  // ----- a pending entry replaced between verification and finalization -----

  /** Whatever replaces a pending entry during a run without finalizations has the same header. */
  lemma ReplacementKeepsHeader(c: Primitive, key: SigningKey, s: AppState, events: seq<Event>, d: Digest)
    requires AppOk(c, s) && Quiet(events) && d in s.pending
    ensures var t := Exec(c, key, s, events);
      && d in t.pending
      && (|| Collides(c, {EncodeHeader(s.pending[d].header), EncodeHeader(t.pending[d].header)})
          || t.pending[d].header == s.pending[d].header)
  {
    hide BlockHash, EncodeHeader, Collides, Exec, PoolOk, StoreOk;
    QuietRun(c, key, s, events);
    RunKeepsOk(c, key, s, events);
    var x, y := s.pending[d], Exec(c, key, s, events).pending[d];
    if x.header != y.header {
      HeaderCollision(c, x, y, {EncodeHeader(x.header), EncodeHeader(y.header)});
    }
  }

  /** So a replaced entry that commits is the very block that verified if and only if its body has the
      same root; then the ledger is the one verification computed. */
  lemma ReplacementCommitsVerified(c: Primitive, key: SigningKey, s: AppState, tip: Block, d: Digest,
      events: seq<Event>)
    requires AppOk(c, s) && Quiet(events) && Tip(s.store) == Some(tip) && Verdict(c, s, BlockHash(c, tip), d)
    requires Committed(c, Exec(c, key, s, events), d).Ok?
    ensures var t := Exec(c, key, s, events);
      d in t.pending &&
      (|| Broken(c, BlockPreimages(c, [s.pending[d], t.pending[d]]))
       || (&& (t.pending[d] == s.pending[d]
               <==> TxRoot(c, t.pending[d].transactions) == TxRoot(c, s.pending[d].transactions))
           && (t.pending[d] == s.pending[d] ==>
             ApplyAll(c, s.accounts, s.pending[d].transactions) == Ok(AfterFinalize(c, t, d).accounts))))
  {
    hide BlockHash, EncodeHeader, Collides, HitsZero, Exec, PoolOk, StoreOk, ApplyAll, TxRoot, Accepted,
        RootPreimages, Tip;
    QuietRun(c, key, s, events);
    ReplacementKeepsHeader(c, key, s, events, d);
    var x, y := s.pending[d], Exec(c, key, s, events).pending[d];
    var pair := [x, y];
    var all := BlockPreimages(c, pair);
    assert x in pair && y in pair;
    CollidesMonotone(c, {EncodeHeader(x.header), EncodeHeader(y.header)}, all);
    if !Broken(c, all) && TxRoot(c, x.transactions) == TxRoot(c, y.transactions) {
      PreimagesOfBody(c, pair, x);
      PreimagesOfBody(c, pair, y);
      AppliedAccepted(c, s.accounts, x);
      AppliedAccepted(c, s.accounts, y);
      BodyBound(c, x, y, all);
    }
  }

  lemma AppliedAccepted(c: Primitive, a: Accounts, b: Block)
    requires ApplyAll(c, a, b.transactions).Ok?
    ensures Accepted(c, b)
  {
    hide ApplyAll;
  }

  // ----- a block sent from one replica to another -----

  /** End to end: a block proposed on the finalized tip, encoded for broadcast and stored by a peer with
      the same ledger and tip, is pending there under the same digest and verifies, unless the two
      nodes look up different headers under the tip's digest, which is a collision. */
  lemma ProposalVerifiesAtPeer(c: Primitive, key: SigningKey, s: AppState, peer: AppState, tip: Block, e: Event)
    requires SignaturesCorrect(c) && AppOk(c, s) && AppOk(c, peer) && s.accounts == peer.accounts
    requires Tip(s.store) == Some(tip) && Tip(peer.store) == Some(tip)
    requires e.message == Propose(BlockHash(c, tip))
    ensures BlockByDigest(s, BlockHash(c, tip)).Some? && Proposed(c, key, s, BlockHash(c, tip), e).Ok?
    ensures var b := Proposed(c, key, s, BlockHash(c, tip), e).value;
      var d := BlockHash(c, b);
      var sent := ReplyTo(c, key, ZeroDigest(), Step(c, key, s, e), Event(Broadcast(d), 0, []));
      var received := Step(c, key, peer, Event(StoreBlock(EncodeBlock(b)), 0, []));
      && sent == Outbound(EncodeBlock(b))
      && |EncodeBlock(b)| <= 1024 * 1024
      && d in received.pending && received.pending[d] == b
      && BlockByDigest(received, BlockHash(c, tip)).Some?
      && (|| Verdict(c, received, BlockHash(c, tip), d)
          || Collides(c, {EncodeHeader(BlockByDigest(s, BlockHash(c, tip)).value.header),
                          EncodeHeader(BlockByDigest(received, BlockHash(c, tip)).value.header)}))
  {
    hide ApplyAll, EncodeBlock, DecodeBlock, AppOk, Tip, Collides, EncodeHeader, BlockHash, SignedBlockValid,
        BuiltBlock, Selected, Verdict;
    var h := BlockHash(c, tip);
    TipKnown(c, s, tip);
    ProposeSucceeds(c, key, s, h, e);
    var b := Proposed(c, key, s, h, e).value;
    ProposalFacts(c, key, s, BlockByDigest(s, h).value, e);
    var store := Event(StoreBlock(EncodeBlock(b)), 0, []);
    StepKeepsOk(c, key, peer, store);
    PeerVerdict(c, s, Step(c, key, peer, store), tip, b);
  }

  /** A child of what one node finds under the tip's digest, accepted by a ledger, verifies at a node with
      that ledger and tip, unless the two find different headers there. */
  lemma PeerVerdict(c: Primitive, s: AppState, r: AppState, tip: Block, b: Block)
    requires AppOk(c, s) && AppOk(c, r) && s.accounts == r.accounts
    requires Tip(s.store) == Some(tip) && Tip(r.store) == Some(tip) && BlockByDigest(s, BlockHash(c, tip)).Some?
    requires BlockHash(c, b) in r.pending && r.pending[BlockHash(c, b)] == b
    requires var p := BlockByDigest(s, BlockHash(c, tip)).value;
      && b.header.parentHash == BlockHash(c, p) && b.header.height == Wrap(p.header.height + 1)
      && ApplyAll(c, s.accounts, b.transactions).Ok?
    ensures BlockByDigest(r, BlockHash(c, tip)).Some?
    ensures || Verdict(c, r, BlockHash(c, tip), BlockHash(c, b))
            || Collides(c, {EncodeHeader(BlockByDigest(s, BlockHash(c, tip)).value.header),
                            EncodeHeader(BlockByDigest(r, BlockHash(c, tip)).value.header)})
  {
    hide ApplyAll, AppOk, Tip, Collides, EncodeHeader, BlockHash;
    var h := BlockHash(c, tip);
    TipKnown(c, r, tip);
    LookupHashes(c, s, h);
    LookupHashes(c, r, h);
    var p, q := BlockByDigest(s, h).value, BlockByDigest(r, h).value;
    if p.header.height != q.header.height {
      HeaderCollision(c, p, q, {EncodeHeader(p.header), EncodeHeader(q.header)});
    }
  }

  lemma TipKnown(c: Primitive, s: AppState, tip: Block)
    requires AppOk(c, s) && Tip(s.store) == Some(tip)
    ensures BlockByDigest(s, BlockHash(c, tip)).Some?
  {
    hide BlockHash;
    TipStored(c, s.store, tip);
  }

  /** What any node can recompute about an honest proposal. */
  lemma ProposalFacts(c: Primitive, key: SigningKey, s: AppState, p: Block, e: Event)
    ensures var b := BuiltBlock(c, p, e.timestamp, key, Selected(c, s, e.order));
      && b.header.parentHash == BlockHash(c, p)
      && b.header.height == Wrap(p.header.height + 1)
      && b.header.timestamp == e.timestamp && b.header.proposer == c.publicKey(key)
      && RootMatches(c, b)
      && |b.transactions| <= 1024
      && ApplyAll(c, s.accounts, b.transactions).Ok?
      && DecodeBlock(EncodeBlock(b)) == Some(b)
      && |EncodeBlock(b)| <= 1024 * 1024
  {
    hide ApplyAll, BlockHash, TxRoot, DecodeBlock, EncodeBlock;
    var b := BuiltBlock(c, p, e.timestamp, key, Selected(c, s, e.order));
    BuilderSound(c, s.accounts, s.pool, e.order, MAX_TXS_PER_BLOCK);
    BlockRoundTrip(b);
    BlockSizeExact(b);
  }

  // ----- what the hypotheses rule out -----

  /** Store a block and finalize it at once. */
  function StoreThenFinalize(c: Primitive, b: Block): seq<Event> {
    [Event(StoreBlock(EncodeBlock(b)), 0, []), Event(Finalize(BlockHash(c, b)), 0, [])]
  }

  lemma StoreThenFinalizeRuns(c: Primitive, key: SigningKey, s: AppState, b: Block)
    requires |b.transactions| <= MAX_DECODED_TXS && ApplyAll(c, s.accounts, b.transactions).Ok?
    ensures var es := StoreThenFinalize(c, b);
      && Finalized(c, key, s, es) == [b]
      && Exec(c, key, s, es).accounts == ApplyAll(c, s.accounts, b.transactions).value
      && Exec(c, key, s, es).store == Stored(c, s.store, b)
      && Exec(c, key, s, es[..1]) == WithPending(c, s, b)
  {
    hide ApplyAll, EncodeBlock, DecodeBlock, BlockHash, Stored, Without, Hashes;
    BlockRoundTrip(b);
    var es := StoreThenFinalize(c, b);
    assert es[..1][..0] == [] && es[..2] == es && es[..1] == [es[0]];
    assert Exec(c, key, s, []) == s && Finalized(c, key, s, []) == [];
    assert Exec(c, key, s, es[..1]) == Step(c, key, s, es[0]);
    assert Finalized(c, key, s, es[..1]) == [];
  }

  /** Signing and sending nothing is accepted from any genesis, and uses up a nonce. */
  lemma FirstTxAccepted(c: Primitive, key: SigningKey, allocations: seq<Allocation>, to: Address)
    requires SignaturesCorrect(c)
    ensures var a := CreditAll(allocations);
      var after := ApplyAll(c, a, [Signed(c, key, to, 0, 0)]);
      after.Ok? && after.value != a
  {
    hide EncodeTx, PurePayload;
    var a, who := CreditAll(allocations), PublicKey(c, key);
    var tx := Signed(c, key, to, 0, 0);
    CreditedNonces(allocations, who);
    assert [tx][..0] == [];
    ApplyNothing(c, a);
    assert ApplyTx(c, a, tx).Ok?;
    assert Get(Transferred(a, tx), who).nonce == 1;
  }

  /** The tip digest alone does not determine the ledger. From any genesis there are two child-of-tip
      runs that end with the same tip header and different ledgers: one body was replaced by the empty
      one under the same header. Each of the two blocks verifies on the tip before it is finalized,
      unless its header collides with the genesis header. */
  lemma UncheckedRootDiverges(c: Primitive, key: SigningKey, allocations: seq<Allocation>, seeds: seq<Transaction>,
      to: Address)
      returns (b: Block, b': Block)
    requires SignaturesCorrect(c)
    ensures |b.transactions| <= MAX_DECODED_TXS && b.header == b'.header && RootMatches(c, b)
    ensures var s := InitialState(c, allocations, seeds);
      var es, es' := StoreThenFinalize(c, b), StoreThenFinalize(c, b');
      var t, t' := Exec(c, key, s, es), Exec(c, key, s, es');
      && AtGenesis(c, s) && ChildOfTip(c, key, s, es) && ChildOfTip(c, key, s, es')
      && Tip(t.store) == Some(b) && Tip(t'.store) == Some(b')
      && t.accounts != t'.accounts
      && (|| Collides(c, {EncodeHeader(GenesisBlock().header), EncodeHeader(b.header)})
          || (&& Verdict(c, Exec(c, key, s, es[..1]), BlockHash(c, GenesisBlock()), BlockHash(c, b))
              && Verdict(c, Exec(c, key, s, es'[..1]), BlockHash(c, GenesisBlock()), BlockHash(c, b'))))
  {
    hide ApplyAll, BlockHash, CreditAll, Signed, EncodeHeader, Verdict, Exec, TxRoot, Tip, ChildOfTip,
        Collides, GenesisBlock;
    var s := InitialState(c, allocations, seeds);
    FirstTxAccepted(c, key, allocations, to);
    ApplyNothing(c, s.accounts);
    b := NewBlock(c, 1, BlockHash(c, GenesisBlock()), 0, PublicKey(c, key), [Signed(c, key, to, 0, 0)]);
    b' := Block(b.header, []);
    OneBlockRun(c, key, s, b);
    OneBlockRun(c, key, s, b');
  }

  lemma OneBlockRun(c: Primitive, key: SigningKey, s: AppState, b: Block)
    requires AtGenesis(c, s) && s.pending == map[]
    requires |b.transactions| <= MAX_DECODED_TXS && ApplyAll(c, s.accounts, b.transactions).Ok?
    requires b.header.height == 1 && b.header.parentHash == BlockHash(c, GenesisBlock())
    ensures var es := StoreThenFinalize(c, b);
      && ChildOfTip(c, key, s, es)
      && Finalized(c, key, s, es) == [b]
      && Tip(Exec(c, key, s, es).store) == Some(b)
      && Exec(c, key, s, es).accounts == ApplyAll(c, s.accounts, b.transactions).value
      && (|| Collides(c, {EncodeHeader(GenesisBlock().header), EncodeHeader(b.header)})
          || Verdict(c, Exec(c, key, s, es[..1]), BlockHash(c, GenesisBlock()), BlockHash(c, b)))
  {
    hide ApplyAll, EncodeBlock, DecodeBlock, BlockHash, Stored, Without, Hashes, Linked, StoreIsChain,
        EncodeHeader, Collides, Verdict;
    var es := StoreThenFinalize(c, b);
    StoreThenFinalizeRuns(c, key, s, b);
    GenesisChain(c, s);
    ChainTip(c, s.store, [GenesisBlock()]);
    GenesisHeights(c, s);
    NewTip(c, s.store, b);
    assert es[..1][..0] == [] && es[..1] == [es[0]];
    assert CommittedBy(c, s, es[0]) == [];
    assert ChildOfTip(c, key, s, []);
    assert ChildOfTip(c, key, s, es[..1]);
    FirstVerdict(c, s, b);
  }

  lemma FirstVerdict(c: Primitive, s: AppState, b: Block)
    requires AtGenesis(c, s) && s.pending == map[] && Tip(s.store) == Some(GenesisBlock())
    requires ApplyAll(c, s.accounts, b.transactions).Ok?
    requires b.header.height == 1 && b.header.parentHash == BlockHash(c, GenesisBlock())
    ensures || Collides(c, {EncodeHeader(GenesisBlock().header), EncodeHeader(b.header)})
            || Verdict(c, WithPending(c, s, b), BlockHash(c, GenesisBlock()), BlockHash(c, b))
  {
    hide ApplyAll, BlockHash, EncodeHeader, Collides, Tip, Verdict;
    if BlockHash(c, b) == BlockHash(c, GenesisBlock()) {
      HeaderCollision(c, GenesisBlock(), b, {EncodeHeader(GenesisBlock().header), EncodeHeader(b.header)});
    } else {
      GenesisVerdict(c, WithPending(c, s, b), BlockHash(c, b));
    }
  }

  lemma GenesisVerdict(c: Primitive, s: AppState, d: Digest)
    requires AtGenesis(c, s) && Tip(s.store) == Some(GenesisBlock())
    requires d in s.pending && BlockHash(c, GenesisBlock()) !in s.pending
    requires var b := s.pending[d];
      && ApplyAll(c, s.accounts, b.transactions).Ok?
      && b.header.height == 1 && b.header.parentHash == BlockHash(c, GenesisBlock())
    ensures Verdict(c, s, BlockHash(c, GenesisBlock()), d)
  {
    hide ApplyAll, BlockHash, Tip;
  }

  /** A verified block can become impossible to finalize with its entry untouched. From any genesis, two
      blocks with one body and different timestamps both verify on the tip; once either is finalized, the
      other is still pending and is rejected. The only other outcome is a collision of headers. */
  lemma SiblingStalls(c: Primitive, key: SigningKey, allocations: seq<Allocation>, seeds: seq<Transaction>,
      to: Address)
      returns (b: Block, b': Block)
    requires SignaturesCorrect(c)
    ensures |b.transactions| <= MAX_DECODED_TXS && |b'.transactions| <= MAX_DECODED_TXS
    ensures var g, d, d' := BlockHash(c, GenesisBlock()), BlockHash(c, b), BlockHash(c, b');
      var t := Exec(c, key, InitialState(c, allocations, seeds), StoreBoth(b, b'));
      var u := AfterFinalize(c, t, d);
      || Collides(c, {EncodeHeader(GenesisBlock().header), EncodeHeader(b.header), EncodeHeader(b'.header)})
      || (&& Tip(t.store) == Some(GenesisBlock()) && Verdict(c, t, g, d) && Verdict(c, t, g, d')
          && Committed(c, t, d) == Ok(b) && d' in u.pending && u.pending[d'] == b' && Committed(c, u, d').Err?)
  {
    hide ApplyAll, BlockHash, CreditAll, Signed, EncodeHeader, Verdict, Exec, TxRoot, Tip, AfterFinalize, Committed,
        Collides, GenesisBlock, ShareSender, AppOk, RoomAfter, Supply;
    var s, g := InitialState(c, allocations, seeds), BlockHash(c, GenesisBlock());
    var body := [Signed(c, key, to, 0, 0)];
    FirstTxAccepted(c, key, allocations, to);
    b := NewBlock(c, 1, g, 0, PublicKey(c, key), body);
    b' := NewBlock(c, 1, g, 1, PublicKey(c, key), body);
    var all := {EncodeHeader(GenesisBlock().header), EncodeHeader(b.header), EncodeHeader(b'.header)};
    if !Collides(c, all) {
      if BlockHash(c, b) == BlockHash(c, b') {
        HeaderCollision(c, b, b', all);
      }
      BothStored(c, key, s, b, b', all);
      InitialOk(c, allocations, seeds);
      RunKeepsOk(c, key, s, StoreBoth(b, b'));
      var t := Exec(c, key, s, StoreBoth(b, b'));
      GenesisVerdict(c, t, BlockHash(c, b));
      GenesisVerdict(c, t, BlockHash(c, b'));
      SiblingsIff(c, t, GenesisBlock(), BlockHash(c, b), BlockHash(c, b'));
      RepeatShares(body);
    }
  }

  function StoreBoth(b: Block, b': Block): seq<Event> {
    [Event(StoreBlock(EncodeBlock(b)), 0, []), Event(StoreBlock(EncodeBlock(b')), 0, [])]
  }

  lemma BothStored(c: Primitive, key: SigningKey, s: AppState, b: Block, b': Block, all: set<Bytes>)
    requires AtGenesis(c, s) && s.pending == map[] && BlockHash(c, b) != BlockHash(c, b')
    requires |b.transactions| <= MAX_DECODED_TXS && |b'.transactions| <= MAX_DECODED_TXS
    requires b.header.height == 1 && b'.header.height == 1 && !Collides(c, all)
    requires EncodeHeader(GenesisBlock().header) in all
    requires EncodeHeader(b.header) in all && EncodeHeader(b'.header) in all
    ensures var t := Exec(c, key, s, StoreBoth(b, b'));
      && AtGenesis(c, t) && t.accounts == s.accounts && Tip(t.store) == Some(GenesisBlock())
      && t.pending == map[BlockHash(c, b) := b, BlockHash(c, b') := b']
      && BlockHash(c, GenesisBlock()) !in t.pending
  {
    hide EncodeBlock, DecodeBlock, BlockHash, EncodeHeader, Collides, Stored, Tip, StoreIsChain, Linked;
    var es := StoreBoth(b, b');
    BlockRoundTrip(b);
    BlockRoundTrip(b');
    assert es[..1][..0] == [] && es[..2] == es && es[..1] == [es[0]];
    assert Exec(c, key, s, es[..1]) == Step(c, key, s, es[0]);
    GenesisChain(c, s);
    ChainTip(c, s.store, [GenesisBlock()]);
    if BlockHash(c, GenesisBlock()) == BlockHash(c, b) {
      HeaderCollision(c, GenesisBlock(), b, all);
    }
    if BlockHash(c, GenesisBlock()) == BlockHash(c, b') {
      HeaderCollision(c, GenesisBlock(), b', all);
    }
  }

  lemma GenesisHeights(c: Primitive, s: AppState)
    requires AtGenesis(c, s)
    ensures forall n :: n in s.store.heights ==> n == 0
  {
    hide BlockHash;
  }
}

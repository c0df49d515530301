/** Proposals on a parent that is only pending. `propose` still builds on the finalized ledger, and
    `verify` then checks structure only, so such a block may verify and yet be rejected later. */
module Pipeline {
  import opened Primitives
  import opened Crypto
  import opened Transactions
  import opened Blocks
  import opened State
  import opened LedgerLaws
  import opened Pool
  import opened Builder
  import opened BlockStores
  import opened Actor
  import opened Genesis
  import opened Runs

  /** What the builder selects against the finalized ledger survives a pending parent if and only if no
      sender occurs in both bodies and every receiver still has room, as it does whenever the supply fits
      a machine word. */
  lemma PipelinedSelectionIff(c: Primitive, a: Accounts, pool: Pending, order: seq<Address>, maxTxs: nat, p: TxList)
    requires ApplyAll(c, a, p).Ok?
    ensures var selected := Selection(c, a, pool, order, maxTxs);
      var survives := ApplyAll(c, ApplyAll(c, a, p).value, selected).Ok?;
      && (survives <==> !ShareSender(selected, p) && RoomAfter(a, p, selected))
      && (Supply(a) <= U64_MAX ==> (survives <==> !ShareSender(selected, p)))
  {
    hide ApplyAll, Supply, ShareSender, WalkSenders, RoomAfter, NoncesLeft;
    var selected := Selection(c, a, pool, order, maxTxs);
    BuilderSound(c, a, pool, order, maxTxs);
    BodyLeavesNonces(p, selected);
    BothCommitIff(c, a, p, selected);
    if Supply(a) <= U64_MAX {
      BothCommitWithinSupply(c, a, p, selected);
    }
  }

  /** What a proposal on a pending parent leaves behind: both blocks pending, the parent still committable,
      the child accepted by verification; or their headers collide. */
  lemma PipelinedVerifies(c: Primitive, key: SigningKey, s: AppState, h: Digest, e: Event)
    requires AppOk(c, s) && h in s.pending && Committed(c, s, h).Ok?
    requires e.message == Propose(h) && Proposed(c, key, s, h, e).Ok?
    ensures var p, b := s.pending[h], Proposed(c, key, s, h, e).value;
      var t, d := Step(c, key, s, e), BlockHash(c, b);
      || Collides(c, {EncodeHeader(p.header), EncodeHeader(b.header)})
      || (&& d != h && b == BuiltBlock(c, p, e.timestamp, key, Selected(c, s, e.order))
          && t == s.(pending := s.pending[d := b]) && Committed(c, t, h) == Ok(p)
          && (Tip(s.store).Some? && BlockHash(c, Tip(s.store).value) != h ==> Verdict(c, t, h, d)))
  {
    hide ApplyAll, Tip, Collides, EncodeHeader, BlockHash, SignedBlockValid, BuiltBlock, Selected, AppOk;
    var p, b := s.pending[h], Proposed(c, key, s, h, e).value;
    assert BlockByDigest(s, h) == Some(p);
    LookupHashes(c, s, h);
    BuiltHeader(c, p, e.timestamp, key, Selected(c, s, e.order));
    if BlockHash(c, b) == h {
      HeaderCollision(c, p, b, {EncodeHeader(p.header), EncodeHeader(b.header)});
    }
  }

  lemma BuiltHeader(c: Primitive, p: Block, timestamp: U64, key: SigningKey, selected: TxList)
    ensures var b := BuiltBlock(c, p, timestamp, key, selected);
      && b.header.parentHash == BlockHash(c, p) && b.transactions == selected
      && b.header.height == Wrap(p.header.height + 1) && b.header.height != p.header.height
  {
    hide BlockHash;
  }

  /** The child of a pending parent verifies, and once the parent is finalized the child can be finalized
      if and only if no sender occurs in both and every receiver has room; the only other outcome is a
      collision of the two headers. */
  lemma PipelinedCommitsIff(c: Primitive, key: SigningKey, s: AppState, h: Digest, e: Event)
    requires AppOk(c, s) && h in s.pending && Committed(c, s, h).Ok?
    requires Tip(s.store).Some? && BlockHash(c, Tip(s.store).value) != h
    requires e.message == Propose(h) && Proposed(c, key, s, h, e).Ok?
    ensures var p, b := s.pending[h], Proposed(c, key, s, h, e).value;
      var t, d := Step(c, key, s, e), BlockHash(c, b);
      var shared := ShareSender(b.transactions, p.transactions);
      var commits := Committed(c, AfterFinalize(c, t, h), d).Ok?;
      || Collides(c, {EncodeHeader(p.header), EncodeHeader(b.header)})
      || (&& Verdict(c, t, h, d) && Committed(c, t, h).Ok?
          && (commits <==> !shared && RoomAfter(s.accounts, p.transactions, b.transactions))
          && (Supply(s.accounts) <= U64_MAX ==> (commits <==> !shared)))
  {
    hide ApplyAll, Tip, Collides, EncodeHeader, BlockHash, AppOk, Supply, ShareSender, RoomAfter, WalkSenders, Stored,
        Without, Hashes, BuiltBlock, Proposed, Verdict, Step;
    PipelinedVerifies(c, key, s, h, e);
    var p, b := s.pending[h], Proposed(c, key, s, h, e).value;
    BuiltHeader(c, p, e.timestamp, key, Selected(c, s, e.order));
    SelectedIs(c, s, e.order);
    PipelinedSelectionIff(c, s.accounts, s.pool, e.order, MAX_TXS_PER_BLOCK, p.transactions);
  }

  /** Proposing twice in a row over a non-empty selection always stalls the second block: it repeats the
      first one's transactions, verifies on it, and is rejected once the first is finalized. */
  lemma ProposingTwiceStalls(c: Primitive, key: SigningKey, s: AppState, parent: Digest, e: Event)
    requires AppOk(c, s) && e.message == Propose(parent) && Proposed(c, key, s, parent, e).Ok?
    requires SignaturesCorrect(c) && Selected(c, s, e.order) != []
    requires var h := BlockHash(c, Proposed(c, key, s, parent, e).value);
      Tip(s.store).Some? && BlockHash(c, Tip(s.store).value) != h
    ensures var p := Proposed(c, key, s, parent, e).value;
      var h, again := BlockHash(c, p), e.(message := Propose(BlockHash(c, p)));
      var t := Step(c, key, s, e);
      Proposed(c, key, t, h, again).Ok? &&
      var b, u := Proposed(c, key, t, h, again).value, Step(c, key, t, again);
      || Collides(c, {EncodeHeader(p.header), EncodeHeader(b.header)})
      || (&& Verdict(c, u, h, BlockHash(c, b)) && Committed(c, u, h).Ok?
          && Committed(c, AfterFinalize(c, u, h), BlockHash(c, b)).Err?)
  {
    hide ApplyAll, Tip, Collides, EncodeHeader, BlockHash, AppOk, ShareSender, WalkSenders, Stored, Without,
        Hashes, BuiltBlock, Verdict, SignedBlockValid;
    var p := Proposed(c, key, s, parent, e).value;
    var h, again := BlockHash(c, p), e.(message := Propose(BlockHash(c, p)));
    var t := Step(c, key, s, e);
    StepKeepsOk(c, key, s, e);
    SelectedIs(c, s, e.order);
    SelectedIs(c, t, e.order);
    BuilderSound(c, s.accounts, s.pool, e.order, MAX_TXS_PER_BLOCK);
    BuiltHeader(c, BlockByDigest(s, parent).value, e.timestamp, key, Selected(c, s, e.order));
    ProposeSucceeds(c, key, t, h, again);
    PipelinedVerifies(c, key, t, h, again);
    BuiltHeader(c, p, e.timestamp, key, Selected(c, t, e.order));
    RepeatShares(p.transactions);
    BodyLeavesNonces(p.transactions, p.transactions);
    SharedSenderRejected(c, s.accounts, p.transactions, p.transactions);
  }

  /** A proposal is pending at once, so the same node can propose on it. */
  lemma PendingProposal(c: Primitive, key: SigningKey, s: AppState, parent: Digest, e: Event)
    requires SignaturesCorrect(c) && e.message == Propose(parent) && Proposed(c, key, s, parent, e).Ok?
    ensures var p := Proposed(c, key, s, parent, e).value;
      var h, again := BlockHash(c, p), e.(message := Propose(BlockHash(c, p)));
      var t := Step(c, key, s, e);
      h in t.pending && t.pending[h] == p && Proposed(c, key, t, h, again).Ok?
  {
    hide BlockHash, SignedBlockValid, BuiltBlock, Selected;
    var h := BlockHash(c, Proposed(c, key, s, parent, e).value);
    ProposeSucceeds(c, key, Step(c, key, s, e), h, e.(message := Propose(h)));
  }

  /** A concrete case: one funded account with one pending transfer. */
  lemma SeededSelection(c: Primitive, key: SigningKey, to: Address, order: seq<Address>)
    requires SignaturesCorrect(c)
    requires IsOrder(order, SendersOf(SeedPool(c, [Signed(c, key, to, 1, 0)])))
    ensures var s := InitialState(c, [Allocation(PublicKey(c, key), 1)], [Signed(c, key, to, 1, 0)]);
      Selected(c, s, order) != []
  {
    hide EncodeTx, PurePayload, WalkSenders;
    var who, tx := PublicKey(c, key), Signed(c, key, to, 1, 0);
    var s := InitialState(c, [Allocation(who, 1)], [tx]);
    SeededPool(c, tx);
    FundedAccount(who);
    assert s.pool == map[SlotOf(tx) := tx];
    SeedPoolOk(c, [tx]);
    assert SlotOf(tx) in s.pool && who in SendersOf(s.pool);
    PendingFromSorted(c, s.pool, who);
    PendingFromHead(c, s.pool, who);
    var pending := PendingFrom(s.pool, who);
    assert pending[0] in pending;
    assert pending[0] == tx;
    assert ApplyTx(c, s.accounts, tx).Ok?;
    assert !HeadRejected(c, s.accounts, s.pool, who);
    EmptyExactly(c, s.accounts, s.pool, order, MAX_TXS_PER_BLOCK);
    SelectedIs(c, s, order);
  }

  lemma SeededPool(c: Primitive, tx: Transaction)
    requires SignatureValid(c, tx) && tx.amount > 0
    ensures SeedPool(c, [tx]) == map[SlotOf(tx) := tx]
  {
    hide TxHash, SignatureValid;
    assert [tx][..0] == [];
    assert SeedPool(c, []) == map[];
    assert InsertOutcome(c, map[], DEFAULT_CAPACITY, tx).Ok?;
  }

  lemma FundedAccount(who: Address)
    ensures CreditAll([Allocation(who, 1)]) == map[who := Account(1, 0)]
  {
    assert [Allocation(who, 1)][..0] == [];
  }

  /** Verification off the tip does not imply that a block can be finalized: from a genesis with one
      funded account and its one pending transfer, the second of two proposals verifies on the first and
      is rejected after it. */
  lemma StalledPipeline(c: Primitive, key: SigningKey, to: Address, now: U64, order: seq<Address>)
    requires SignaturesCorrect(c)
    requires IsOrder(order, SendersOf(SeedPool(c, [Signed(c, key, to, 1, 0)])))
    ensures var s := InitialState(c, [Allocation(PublicKey(c, key), 1)], [Signed(c, key, to, 1, 0)]);
      var e := Event(Propose(BlockHash(c, GenesisBlock())), now, order);
      Proposed(c, key, s, BlockHash(c, GenesisBlock()), e).Ok? &&
      var p := Proposed(c, key, s, BlockHash(c, GenesisBlock()), e).value;
      var h, again := BlockHash(c, p), Event(Propose(BlockHash(c, p)), now, order);
      var t := Step(c, key, s, e);
      Proposed(c, key, t, h, again).Ok? &&
      var b, u := Proposed(c, key, t, h, again).value, Step(c, key, t, again);
      || Collides(c, {EncodeHeader(GenesisBlock().header), EncodeHeader(p.header)})
      || Collides(c, {EncodeHeader(p.header), EncodeHeader(b.header)})
      || (&& Verdict(c, u, h, BlockHash(c, b)) && Committed(c, u, h).Ok?
          && Committed(c, AfterFinalize(c, u, h), BlockHash(c, b)).Err?)
  {
    hide ApplyAll, Collides, EncodeHeader, BlockHash, AppOk, WalkSenders, Without, SeedPool, CreditAll,
        Hashes, BuiltBlock, Verdict, SignedBlockValid, Selected, AfterFinalize, Committed, IsOrder, SendersOf, Signed,
        GenesisBlock;
    var allocations, seeds := [Allocation(PublicKey(c, key), 1)], [Signed(c, key, to, 1, 0)];
    var s := InitialState(c, allocations, seeds);
    var g := BlockHash(c, GenesisBlock());
    var e := Event(Propose(g), now, order);
    InitialOk(c, allocations, seeds);
    GenesisTip(c, s);
    SeededSelection(c, key, to, order);
    ProposeSucceeds(c, key, s, g, e);
    var p := Proposed(c, key, s, g, e).value;
    BuiltHeader(c, GenesisBlock(), now, key, Selected(c, s, order));
    PendingProposal(c, key, s, g, e);
    if BlockHash(c, p) == g {
      HeaderCollision(c, GenesisBlock(), p, {EncodeHeader(GenesisBlock().header), EncodeHeader(p.header)});
    } else {
      ProposingTwiceStalls(c, key, s, g, e);
    }
  }

  lemma GenesisTip(c: Primitive, s: AppState)
    requires s.store == Stored(c, EmptyStore(), GenesisBlock()) && s.pending == map[]
    ensures Tip(s.store) == Some(GenesisBlock())
    ensures BlockByDigest(s, BlockHash(c, GenesisBlock())) == Some(GenesisBlock())
  {
    hide BlockHash;
    NewTip(c, EmptyStore(), GenesisBlock());
  }
}

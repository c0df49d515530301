/** The application actor (crates/consensus/src/app/actor.rs): what each message does to the ledger,
    the mempool, the block store and the pending blocks. */
module Actor {
  import opened Primitives
  import opened Crypto
  import opened Transactions
  import opened Blocks
  import Codec
  import opened Merkle
  import opened State
  import opened LedgerLaws
  import opened Pool
  import opened Mempools
  import opened Builder
  import opened BlockStores

  const MAX_TXS_PER_BLOCK: U64 := 1024

  type PendingBlocks = map<Digest, Block>

  datatype AppState = AppState(accounts: Accounts, store: Store, pool: Pending, pending: PendingBlocks)

  datatype Message =
    | Genesis
    | Propose(parent: Digest)
    | Verify(parent: Digest, digest: Digest)
    | Finalize(digest: Digest)
    | Broadcast(digest: Digest)
    | StoreBlock(bytes: Bytes)

  /** A message together with what the surroundings decide: the clock, and the order in which the
      hash map of senders happens to be walked. */
  datatype Event = Event(message: Message, timestamp: U64, order: seq<Address>)

  ghost predicate Legal(s: AppState, e: Event) {
    e.message.Propose? ==> IsOrder(e.order, SendersOf(s.pool))
  }

  datatype ProposeError = ParentUnknown | BadBlockSignature

  datatype FinalizeError = BlockMissing | Rejected(reason: LedgerError)

  function BlockByDigest(s: AppState, d: Digest): Option<Block> {
    if d in s.pending then Some(s.pending[d])
    else if d in s.store.blocks then Some(s.store.blocks[d])
    else None
  }

  function Selected(c: Primitive, s: AppState, order: seq<Address>): (txs: TxList)
    ensures |txs| <= MAX_TXS_PER_BLOCK
  {
    BuilderSound(c, s.accounts, s.pool, order, MAX_TXS_PER_BLOCK);
    Selection(c, s.accounts, s.pool, order, MAX_TXS_PER_BLOCK)
  }

  function ProposedOn(c: Primitive, key: SigningKey, s: AppState, parent: Block, e: Event): Result<Block,
      ProposeError> {
    var b := BuiltBlock(c, parent, e.timestamp, key, Selected(c, s, e.order));
    if SignedBlockValid(c, SignedBlock(b, Sign(c, key, BlockHash(c, b)))) then Ok(b) else Err(BadBlockSignature)
  }

  function Proposed(c: Primitive, key: SigningKey, s: AppState, parent: Digest, e: Event): Result<Block, ProposeError> {
    match BlockByDigest(s, parent)
    case None => Err(ParentUnknown)
    case Some(p) => ProposedOn(c, key, s, p, e)
  }

  function Verdict(c: Primitive, s: AppState, parent: Digest, digest: Digest): bool {
    if digest !in s.pending then false else
    var block := s.pending[digest];
    var parentBlock := BlockByDigest(s, parent);
    if block.header.parentHash != parent then false
    else if parentBlock.Some? && block.header.height != Wrap(parentBlock.value.header.height + 1) then false
    else
      match Tip(s.store)
      case None => true
      case Some(tip) =>
        BlockHash(c, tip) == parent ==> ApplyAll(c, s.accounts, block.transactions).Ok?
  }

  /** The block a finalization would commit, if it succeeds. */
  function Committed(c: Primitive, s: AppState, digest: Digest): Result<Block, FinalizeError> {
    if digest !in s.pending then Err(BlockMissing) else
    match ApplyAll(c, s.accounts, s.pending[digest].transactions)
    case Ok(_) => Ok(s.pending[digest])
    case Err(e) => Err(Rejected(e))
  }

  function WithPending(c: Primitive, s: AppState, b: Block): AppState {
    s.(pending := s.pending[BlockHash(c, b) := b])
  }

  function AfterCommit(c: Primitive, s: AppState, digest: Digest): AppState
    requires Committed(c, s, digest).Ok?
  {
    var b := s.pending[digest];
    AppState(
      ApplyAll(c, s.accounts, b.transactions).value,
      Stored(c, s.store, b),
      Without(c, s.pool, Hashes(c, b.transactions)),
      s.pending - {digest})
  }

  function AfterFinalize(c: Primitive, s: AppState, digest: Digest): AppState {
    if Committed(c, s, digest).Ok? then AfterCommit(c, s, digest) else s.(pending := s.pending - {digest})
  }

  function Step(c: Primitive, key: SigningKey, s: AppState, e: Event): AppState {
    match e.message
    case Propose(parent) =>
      var b := Proposed(c, key, s, parent, e);
      if b.Ok? then WithPending(c, s, b.value) else s
    case Finalize(digest) => AfterFinalize(c, s, digest)
    case StoreBlock(bytes) =>
      var b := DecodeBlock(bytes);
      if b.Some? then WithPending(c, s, b.value) else s
    case _ => s
  }

  datatype Reply =
    | NoReply
    | GenesisDigest(digest: Digest)
    | ProposedDigest(digest: Digest)
    | Answer(valid: bool)
    | Outbound(bytes: Bytes)

  function ReplyTo(c: Primitive, key: SigningKey, genesis: Digest, s: AppState, e: Event): Reply {
    match e.message
    case Genesis => GenesisDigest(genesis)
    case Propose(parent) =>
      var b := Proposed(c, key, s, parent, e);
      if b.Ok? then ProposedDigest(BlockHash(c, b.value)) else NoReply
    case Verify(parent, digest) => Answer(Verdict(c, s, parent, digest))
    case Finalize(_) => NoReply
    case Broadcast(digest) => if digest in s.pending then Outbound(EncodeBlock(s.pending[digest])) else NoReply
    case StoreBlock(_) => NoReply
  }

  ghost predicate PendingOk(c: Primitive, pending: PendingBlocks) {
    forall d :: d in pending ==> BlockHash(c, pending[d]) == d && |pending[d].transactions| <= MAX_DECODED_TXS
  }

  /** What every step keeps. */
  ghost predicate AppOk(c: Primitive, s: AppState) {
    PoolOk(c, s.pool) && StoreOk(c, s.store) && PendingOk(c, s.pending)
  }

  // ----- what verification and proposing come to -----

  /** The verdict, condition by condition: the block is pending, names the parent, stands one above the
      pending block under the parent's digest, or else above the finalized one, if either exists; and if the
      parent is the finalized block at the greatest height, the ledger accepts every transaction. */
  lemma VerdictIff(c: Primitive, s: AppState, parent: Digest, digest: Digest)
    requires StoreOk(c, s.store)
    ensures Verdict(c, s, parent, digest) <==>
      && digest in s.pending
      && s.pending[digest].header.parentHash == parent
      && (parent in s.pending ==>
        s.pending[digest].header.height == Wrap(s.pending[parent].header.height + 1))
      && (parent !in s.pending && parent in s.store.blocks ==>
        s.pending[digest].header.height == Wrap(s.store.blocks[parent].header.height + 1))
      && (AtTip(s, parent) ==>
        forall i: nat :: i < |s.pending[digest].transactions| ==>
          AcceptableAt(c, s.accounts, s.pending[digest].transactions, i))
  {
    hide ApplyAll, BlockHash, AcceptableAt;
    if digest in s.pending {
      AcceptedIff(c, s.accounts, s.pending[digest].transactions);
    }
    if s.store.heights != map[] {
      assert forall n :: n in s.store.heights <==> n in s.store.heights.Keys;
    }
  }

  /** `d` is what the greatest stored height is filed under. */
  ghost predicate AtTip(s: AppState, d: Digest) {
    exists n :: n in s.store.heights && s.store.heights[n] == d && forall m :: m in s.store.heights ==> m <= n
  }

  /** When proposing succeeds, and what is pending then: a block under its own digest that links to the
      parent, carries the clock reading and the node's key, and holds at most 1024 transactions, all
      acceptable to the ledger. */
  lemma ProposedExact(c: Primitive, key: SigningKey, s: AppState, parent: Digest, e: Event)
    requires AppOk(c, s)
    ensures Proposed(c, key, s, parent, e) == Err(ParentUnknown) <==>
      parent !in s.pending && parent !in s.store.blocks
    ensures parent in s.pending || parent in s.store.blocks ==>
      var p := if parent in s.pending then s.pending[parent] else s.store.blocks[parent];
      var txs := Selected(c, s, e.order);
      var header := Header(Wrap(p.header.height + 1), parent, TxRoot(c, txs), e.timestamp, c.publicKey(key));
      var digest := c.sha256(EncodeHeader(header));
      && |txs| <= 1024
      && ApplyAll(c, s.accounts, txs).Ok?
      && Proposed(c, key, s, parent, e) ==
        if c.verifies(c.publicKey(key), digest, c.sign(key, digest)) then Ok(Block(header, txs))
        else Err(BadBlockSignature)
    ensures SignaturesCorrect(c) && (parent in s.pending || parent in s.store.blocks) ==>
      Proposed(c, key, s, parent, e).Ok?
  {
    hide ApplyAll, EncodeHeader, TxRoot, PoolOk, WalkSenders;
    BuilderSound(c, s.accounts, s.pool, e.order, MAX_TXS_PER_BLOCK);
    SelectedIs(c, s, e.order);
  }

  /** A proposal takes what it can: for each sender either nothing is left, or the next transaction is
      rejected by the ledger as it stood when the sender was left, or the block holds 1024. */
  lemma ProposalMaximal(c: Primitive, s: AppState, order: seq<Address>, i: nat) returns (n: nat)
    requires AppOk(c, s) && Distinct(order) && i < |order|
    ensures var all := Selected(c, s, order);
      var own, pending := OnlyFrom(all, order[i]), PendingFrom(s.pool, order[i]);
      && n <= |all| <= 1024
      && (forall tx :: tx in all[..n] ==> tx.from in order[..i + 1])
      && (forall tx :: tx in all[n..] ==> tx.from in order[i + 1..])
      && ApplyAll(c, s.accounts, all[..n]).Ok?
      && own <= pending
      && (|own| < |pending| && |all| < 1024 ==>
        ApplyTx(c, ApplyAll(c, s.accounts, all[..n]).value, pending[|own|]).Err?)
  {
    hide ApplyAll, ApplyTx, OnlyFrom, PendingFrom, Selection, PoolOk, Distinct;
    n := BuilderMaximal(c, s.accounts, s.pool, order, i, MAX_TXS_PER_BLOCK);
    SelectedIs(c, s, order);
  }

  /** If the ledger accepts the whole pool in the order in which it is walked, and the pool holds at most
      1024 transactions, the proposal is all of it. */
  lemma ProposalTakesAll(c: Primitive, s: AppState, order: seq<Address>)
    requires ApplyAll(c, s.accounts, AllFrom(s.pool, order)).Ok? && |AllFrom(s.pool, order)| <= 1024
    ensures Selected(c, s, order) == AllFrom(s.pool, order)
  {
    hide ApplyAll, AllFrom, WalkSenders;
    BuilderTakesAll(c, s.accounts, s.pool, order, MAX_TXS_PER_BLOCK);
    SelectedIs(c, s, order);
  }

  /** What a peer's bytes do: the block they encode becomes pending under the hash of its header, whatever
      was there before; bytes that encode no block of at most 16384 transactions do nothing. */
  lemma StoreBlockExact(c: Primitive, key: SigningKey, s: AppState, bytes: Bytes, e: Event)
    requires e.message == StoreBlock(bytes)
    ensures forall b :: bytes == EncodeBlock(b) && |b.transactions| <= 16_384 ==>
      Step(c, key, s, e) == s.(pending := s.pending[c.sha256(EncodeHeader(b.header)) := b])
    ensures (forall b: Block :: |b.transactions| <= 16_384 ==> bytes != EncodeBlock(b)) ==> Step(c, key, s, e) == s
  {
    hide EncodeBlock, DecodeBlock, EncodeHeader;
    forall b ensures DecodeBlock(bytes) == Some(b) <==> bytes == EncodeBlock(b) && |b.transactions| <= 16_384 {
      DecodeBlockExact(bytes, b);
    }
  }

  lemma WithoutOk(c: Primitive, pool: Pending, hashes: set<Digest>)
    requires PoolOk(c, pool)
    ensures PoolOk(c, Without(c, pool, hashes))
  {
    hide TxHash, SignatureValid;
  }

  lemma WithPendingOk(c: Primitive, s: AppState, b: Block)
    requires PendingOk(c, s.pending) && |b.transactions| <= MAX_DECODED_TXS
    ensures PendingOk(c, WithPending(c, s, b).pending)
  {
    hide BlockHash;
  }

  lemma StepKeepsOk(c: Primitive, key: SigningKey, s: AppState, e: Event)
    requires AppOk(c, s)
    ensures AppOk(c, Step(c, key, s, e))
  {
    hide PoolOk, StoreOk, PendingOk, DecodeBlock, WithPending, Without, Stored, ApplyAll;
    match e.message
    case Propose(parent) =>
      var b := Proposed(c, key, s, parent, e);
      if b.Ok? {
        WithPendingOk(c, s, b.value);
        WithPendingKeeps(c, s, b.value);
      }
    case Finalize(digest) =>
      FewerPendingOk(c, s, digest);
      if Committed(c, s, digest).Ok? {
        WithoutOk(c, s.pool, Hashes(c, s.pending[digest].transactions));
        StoredOk(c, s.store, s.pending[digest]);
      }
    case StoreBlock(bytes) =>
      var b := DecodeBlock(bytes);
      if b.Some? {
        DecodeBlockExact(bytes, b.value);
        WithPendingOk(c, s, b.value);
        WithPendingKeeps(c, s, b.value);
      }
    case _ =>
  }

  lemma WithPendingKeeps(c: Primitive, s: AppState, b: Block)
    ensures var r := WithPending(c, s, b); r.accounts == s.accounts && r.store == s.store && r.pool == s.pool
  {}

  lemma FewerPendingOk(c: Primitive, s: AppState, digest: Digest)
    requires PendingOk(c, s.pending)
    ensures PendingOk(c, s.pending - {digest})
  {
    hide BlockHash;
  }

  class Application {
    const c: Primitive
    const signer: SigningKey
    const genesisDigest: Digest
    const state: StateStore
    const blocks: BlockStore
    const mempool: Mempool
    var pending: PendingBlocks

    ghost predicate Valid()
      reads this, state, blocks, mempool
    {
      mempool.Valid(c) && AppOk(c, View())
    }

    ghost function View(): AppState
      reads this, state, blocks, mempool
    {
      AppState(state.accounts, blocks.View(), mempool.contents, pending)
    }

    constructor (c: Primitive, signer: SigningKey, genesis: Block, state: StateStore, blocks: BlockStore,
        mempool: Mempool)
      requires mempool.Valid(c) && StoreOk(c, blocks.View())
      ensures Valid() && View() == AppState(state.accounts, blocks.View(), mempool.contents, map[])
      ensures this.c == c && this.signer == signer && this.genesisDigest == BlockHash(c, genesis)
      ensures this.state == state && this.blocks == blocks && this.mempool == mempool
    {
      hide BlockHash, PoolOk, StoreOk, IsHashIndex, SenderIndex;
      this.c, this.signer, this.genesisDigest := c, signer, BlockHash(c, genesis);
      this.state, this.blocks, this.mempool := state, blocks, mempool;
      this.pending := map[];
    }

    method GetByDigest(digest: Digest) returns (r: Option<Block>)
      ensures r == BlockByDigest(View(), digest)
    {
      if digest in pending {
        return Some(pending[digest]);
      }
      r := blocks.GetByHash(digest);
    }

    method ProposeBlock(parent: Digest, now: U64) returns (r: Result<Digest, ProposeError>, ghost e: Event)
      requires Valid()
      modifies this
      ensures Valid() && e.message == Propose(parent) && e.timestamp == now && Legal(old(View()), e)
      ensures View() == Step(c, signer, old(View()), e)
      ensures match Proposed(c, signer, old(View()), parent, e)
        case Ok(b) => r == Ok(BlockHash(c, b))
        case Err(x) => r == Err(x)
    {
      hide AppOk, BlockHash, Selected, BuiltBlock, Sign, Verifies, IsOrder, Selection, SendersOf;
      ghost var before := View();
      var known := GetByDigest(parent);
      if known.None? {
        e := AnyOrder(Propose(parent), now);
        return Err(ParentUnknown), e;
      }
      var sb;
      ghost var order;
      sb, order := BuildBlock(c, known.value, now, signer, MAX_TXS_PER_BLOCK, mempool, state);
      e := Event(Propose(parent), now, order);
      assert Selected(c, before, order) == Selection(c, state.accounts, mempool.contents, order, MAX_TXS_PER_BLOCK) by {
        SelectedIs(c, before, order);
      }
      StepKeepsOk(c, signer, before, e);
      if !SignedBlockValid(c, sb) {
        return Err(BadBlockSignature), e;
      }
      var digest := BlockHash(c, sb.block);
      pending := pending[digest := sb.block];
      r := Ok(digest);
    }

    /** A legal event for a proposal that never gets to walk the senders. */
    ghost method AnyOrder(message: Message, now: U64) returns (e: Event)
      requires Valid()
      ensures e.message == message && e.timestamp == now && IsOrder(e.order, SendersOf(mempool.contents))
    {
      OrderExists(SendersOf(mempool.contents));
      var order :| IsOrder(order, SendersOf(mempool.contents));
      e := Event(message, now, order);
    }

    method VerifyBlock(parent: Digest, digest: Digest) returns (valid: bool)
      requires Valid()
      ensures valid == Verdict(c, View(), parent, digest)
    {
      hide AppOk, BlockHash, ApplyAll, Tip, PoolOk, IsHashIndex, SenderIndex;
      if digest !in pending {
        return false;
      }
      var block := pending[digest];
      if block.header.parentHash != parent {
        return false;
      }
      var parentBlock := GetByDigest(parent);
      if parentBlock.Some? {
        if block.header.height != Wrap(parentBlock.value.header.height + 1) {
          return false;
        }
      }
      var tip := blocks.GetTip();
      if tip.Some? && BlockHash(c, tip.value) == parent {
        var shadow := new StateStore.Clone(state);
        var applied := shadow.ApplyBlock(c, block);
        return applied.Ok?;
      }
      return true;
    }

    method FinalizeBlock(digest: Digest) returns (r: Result<(), FinalizeError>)
      requires Valid()
      modifies this, state, blocks, mempool
      ensures Valid() && View() == AfterFinalize(c, old(View()), digest)
      ensures match Committed(c, old(View()), digest)
        case Ok(_) => r == Ok(())
        case Err(x) => r == Err(x)
    {
      hide AppOk, BlockHash, TxHash, ApplyAll, Without, PoolOk, IsHashIndex, SenderIndex, Stored, HoldsHash, Hashes;
      ghost var before := View();
      StepKeepsOk(c, signer, before, Event(Finalize(digest), 0, []));
      if digest !in pending {
        assert pending - {digest} == pending;
        return Err(BlockMissing);
      }
      var block := pending[digest];
      pending := pending - {digest};
      var applied := state.ApplyBlock(c, block);
      if applied.Err? {
        return Err(Rejected(applied.error));
      }
      var txs := block.transactions;
      WithoutNothing(c, before.pool);
      for i := 0 to |txs|
        invariant mempool.Valid(c) && mempool.contents == Without(c, before.pool, Hashes(c, txs[..i]))
        invariant pending == before.pending - {digest} && blocks.View() == before.store
        invariant ApplyAll(c, before.accounts, txs) == Ok(state.accounts)
      {
        var removed := mempool.Remove(c, TxHash(c, txs[i]));
        WithoutOneMore(c, before.pool, txs, i);
      }
      assert txs[..|txs|] == txs;
      blocks.Insert(c, block);
      r := Ok(());
    }

    /** What is handed to the outbound queue. */
    method BroadcastBlock(digest: Digest) returns (sent: Option<Bytes>)
      ensures sent == if digest in View().pending then Some(EncodeBlock(View().pending[digest])) else None
    {
      if digest !in pending {
        return None;
      }
      var bytes := Codec.Encode(pending[digest]);
      sent := Some(bytes);
    }

    method StorePeerBlock(bytes: Bytes)
      requires Valid()
      modifies this
      ensures Valid()
      ensures View() == match DecodeBlock(bytes) case Some(b) => WithPending(c, old(View()), b) case None => old(View())
    {
      hide AppOk, BlockHash, DecodeBlock, PoolOk, IsHashIndex, SenderIndex;
      StepKeepsOk(c, signer, View(), Event(StoreBlock(bytes), 0, []));
      var block := Codec.Decode(bytes);
      if block.Some? {
        pending := pending[BlockHash(c, block.value) := block.value];
      }
    }

    /** The dispatch of `run`: each message is one legal step of the specification. */
    method Handle(message: Message, now: U64) returns (reply: Reply, ghost e: Event)
      requires Valid()
      modifies this, state, blocks, mempool
      ensures Valid() && e.message == message && Legal(old(View()), e)
      ensures View() == Step(c, signer, old(View()), e)
      ensures reply == ReplyTo(c, signer, genesisDigest, old(View()), e)
    {
      hide AppOk, BlockHash, AfterFinalize, WithPending, Verdict, Proposed, EncodeBlock;
      e := Event(message, now, []);
      reply := NoReply;
      match message {
        case Genesis =>
          reply := GenesisDigest(genesisDigest);
        case Propose(parent) =>
          var r;
          r, e := ProposeBlock(parent, now);
          reply := if r.Ok? then ProposedDigest(r.value) else NoReply;
        case Verify(parent, digest) =>
          var valid := VerifyBlock(parent, digest);
          reply := Answer(valid);
        case Finalize(digest) =>
          var r := FinalizeBlock(digest);
        case Broadcast(digest) =>
          var sent := BroadcastBlock(digest);
          reply := if sent.Some? then Outbound(sent.value) else NoReply;
        case StoreBlock(bytes) =>
          StorePeerBlock(bytes);
      }
    }
  }

  lemma SelectedIs(c: Primitive, s: AppState, order: seq<Address>)
    ensures Selected(c, s, order) == Selection(c, s.accounts, s.pool, order, MAX_TXS_PER_BLOCK)
  {}

  lemma {:induction false} OrderExists(keys: set<Address>)
    ensures exists order :: IsOrder(order, keys)
    decreases |keys|
  {
    if keys == {} {
      assert IsOrder([], keys);
    } else {
      var a :| a in keys;
      OrderExists(keys - {a});
      var rest :| IsOrder(rest, keys - {a});
      assert IsOrder(rest + [a], keys);
    }
  }

  lemma WithoutNothing(c: Primitive, pool: Pending)
    ensures Without(c, pool, Hashes(c, [])) == pool
  {}

  lemma WithoutOneMore(c: Primitive, pool: Pending, txs: seq<Transaction>, i: nat)
    requires i < |txs|
    ensures Without(c, Without(c, pool, Hashes(c, txs[..i])), {TxHash(c, txs[i])})
      == Without(c, pool, Hashes(c, txs[..i + 1]))
  {
    hide TxHash;
    assert txs[..i + 1] == txs[..i] + [txs[i]];
    assert Hashes(c, txs[..i + 1]) == Hashes(c, txs[..i]) + {TxHash(c, txs[i])};
  }
}

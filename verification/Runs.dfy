/** Whole runs of the actor: any messages, in any order, whatever the clock and the map orders do. */
module Runs {
  import opened Primitives
  import opened Crypto
  import opened Transactions
  import opened Merkle
  import opened Blocks
  import opened State
  import opened LedgerLaws
  import opened Pool
  import opened Builder
  import opened BlockStores
  import opened Actor
  import opened Genesis

  function Exec(c: Primitive, key: SigningKey, s: AppState, events: seq<Event>): AppState {
    if events == [] then s else
    Step(c, key, Exec(c, key, s, events[..|events| - 1]), events[|events| - 1])
  }

  ghost predicate LegalRun(c: Primitive, key: SigningKey, s: AppState, events: seq<Event>) {
    events != [] ==>
      var front := events[..|events| - 1];
      LegalRun(c, key, s, front) && Legal(Exec(c, key, s, front), events[|events| - 1])
  }

  ghost predicate Answers(c: Primitive, key: SigningKey, genesis: Digest, s: AppState, events: seq<Event>,
      replies: seq<Reply>) {
    |replies| == |events| && forall i :: 0 <= i < |events| ==>
      replies[i] == ReplyTo(c, key, genesis, Exec(c, key, s, events[..i]), events[i])
  }

  lemma AnswersMore(c: Primitive, key: SigningKey, genesis: Digest, s: AppState, events: seq<Event>,
      replies: seq<Reply>, e: Event)
    requires Answers(c, key, genesis, s, events, replies)
    ensures Answers(c, key, genesis, s, events + [e],
      replies + [ReplyTo(c, key, genesis, Exec(c, key, s, events), e)])
  {
    hide Exec, Step, ReplyTo;
    var more := events + [e];
    var answers := replies + [ReplyTo(c, key, genesis, Exec(c, key, s, events), e)];
    forall i | 0 <= i < |more|
      ensures answers[i] == ReplyTo(c, key, genesis, Exec(c, key, s, more[..i]), more[i])
    {
      if i < |events| {
        assert more[..i] == events[..i];
      } else {
        assert more[..i] == events;
      }
    }
  }

  lemma RunOneMore(c: Primitive, key: SigningKey, s: AppState, events: seq<Event>, e: Event)
    requires LegalRun(c, key, s, events) && Legal(Exec(c, key, s, events), e)
    ensures Exec(c, key, s, events + [e]) == Step(c, key, Exec(c, key, s, events), e)
    ensures LegalRun(c, key, s, events + [e])
  {
    hide Step, Legal;
    assert (events + [e])[..|events|] == events;
  }

  /** The actor's mailbox loop: what it leaves behind is a legal run of the specification, answered
      message by message. */
  method Serve(app: Application, inbox: seq<Message>, clock: seq<U64>)
      returns (replies: seq<Reply>, ghost events: seq<Event>)
    requires app.Valid() && |clock| == |inbox|
    modifies app, app.state, app.blocks, app.mempool
    ensures app.Valid() && |events| == |inbox|
    ensures forall i :: 0 <= i < |events| ==> events[i].message == inbox[i]
    ensures LegalRun(app.c, app.signer, old(app.View()), events)
    ensures app.View() == Exec(app.c, app.signer, old(app.View()), events)
    ensures Answers(app.c, app.signer, app.genesisDigest, old(app.View()), events, replies)
  {
    hide Step, ReplyTo, Legal, Exec, LegalRun, Answers, AppOk, PoolOk, IsHashIndex, SenderIndex;
    replies, events := [], [];
    ghost var c, key, genesis, start := app.c, app.signer, app.genesisDigest, app.View();
    EmptyRun(c, key, genesis, start);
    for n := 0 to |inbox|
      invariant app.Valid() && |events| == n
      invariant forall i :: 0 <= i < n ==> events[i].message == inbox[i]
      invariant LegalRun(c, key, start, events) && app.View() == Exec(c, key, start, events)
      invariant Answers(c, key, genesis, start, events, replies)
    {
      ghost var e;
      var reply;
      reply, e := app.Handle(inbox[n], clock[n]);
      RunOneMore(c, key, start, events, e);
      AnswersMore(c, key, genesis, start, events, replies, e);
      replies, events := replies + [reply], events + [e];
    }
  }

  lemma EmptyRun(c: Primitive, key: SigningKey, genesis: Digest, s: AppState)
    ensures Exec(c, key, s, []) == s && LegalRun(c, key, s, []) && Answers(c, key, genesis, s, [], [])
  {}

  /** The block that `e` commits, if it commits one. */
  function CommittedBy(c: Primitive, s: AppState, e: Event): seq<Block> {
    if e.message.Finalize? && Committed(c, s, e.message.digest).Ok?
    then [Committed(c, s, e.message.digest).value] else []
  }

  /** The blocks committed by a run, in order. */
  function Finalized(c: Primitive, key: SigningKey, s: AppState, events: seq<Event>): seq<Block> {
    if events == [] then [] else
    var front := events[..|events| - 1];
    Finalized(c, key, s, front) + CommittedBy(c, Exec(c, key, s, front), events[|events| - 1])
  }

  function Bodies(blocks: seq<Block>): seq<Transaction> {
    if blocks == [] then [] else Bodies(blocks[..|blocks| - 1]) + blocks[|blocks| - 1].transactions
  }

  /** Every transaction that took effect in a run, in order. */
  function History(c: Primitive, key: SigningKey, s: AppState, events: seq<Event>): seq<Transaction> {
    Bodies(Finalized(c, key, s, events))
  }

  lemma BodiesOfAtMostOne(blocks: seq<Block>)
    requires |blocks| <= 1
    ensures Bodies(blocks) == if blocks == [] then [] else blocks[0].transactions
  {
    if blocks != [] {
      assert blocks[..0] == [];
      assert [] + blocks[0].transactions == blocks[0].transactions;
    }
  }

  lemma BodiesAppend(blocks: seq<Block>, b: Block)
    ensures Bodies(blocks + [b]) == Bodies(blocks) + b.transactions
  {
    assert (blocks + [b])[..|blocks|] == blocks;
  }

  lemma {:induction false} RunKeepsOk(c: Primitive, key: SigningKey, s: AppState, events: seq<Event>)
    requires AppOk(c, s)
    ensures AppOk(c, Exec(c, key, s, events))
  {
    hide AppOk, Step;
    if events != [] {
      RunKeepsOk(c, key, s, events[..|events| - 1]);
      StepKeepsOk(c, key, Exec(c, key, s, events[..|events| - 1]), events[|events| - 1]);
    }
  }

  /** One step's effect on the ledger: it applies the body it commits, or changes nothing. */
  lemma StepAccounts(c: Primitive, key: SigningKey, s: AppState, e: Event)
    ensures ApplyAll(c, s.accounts, Bodies(CommittedBy(c, s, e))) == Ok(Step(c, key, s, e).accounts)
  {
    hide ApplyAll, DecodeBlock, Stored, Without, BlockHash, Proposed, Bodies, Hashes;
    BodiesOfAtMostOne(CommittedBy(c, s, e));
    ApplyNothing(c, s.accounts);
  }

  lemma BodiesConcat(xs: seq<Block>, ys: seq<Block>)
    requires |ys| <= 1
    ensures Bodies(xs + ys) == Bodies(xs) + Bodies(ys)
  {
    hide Bodies;
    BodiesOfAtMostOne(ys);
    if ys == [] {
      assert xs + ys == xs;
    } else {
      BodiesAppend(xs, ys[0]);
      assert [ys[0]] == ys;
    }
  }

  /** The ledger is always the replay of the history from where the run started. */
  lemma {:induction false} LedgerIsReplay(c: Primitive, key: SigningKey, s: AppState, events: seq<Event>)
    ensures ApplyAll(c, s.accounts, History(c, key, s, events)) == Ok(Exec(c, key, s, events).accounts)
  {
    if events != [] {
      hide ApplyTx, Step, CommittedBy, ApplyAll;
      var front, last := events[..|events| - 1], events[|events| - 1];
      var mid := Exec(c, key, s, front);
      LedgerIsReplay(c, key, s, front);
      StepAccounts(c, key, mid, last);
      assert |CommittedBy(c, mid, last)| <= 1 by {
        AtMostOneBlock(c, mid, last);
      }
      BodiesConcat(Finalized(c, key, s, front), CommittedBy(c, mid, last));
      ApplyAllAppend(c, s.accounts, History(c, key, s, front), Bodies(CommittedBy(c, mid, last)));
    }
  }

  lemma AtMostOneBlock(c: Primitive, s: AppState, e: Event)
    ensures |CommittedBy(c, s, e)| <= 1
  {}

  // ----- at most once -----

  /** From genesis, the transactions that took effect for a sender carry the nonces 0, 1, 2, ... in
      order, and the ledger's nonce is their number. */
  lemma NoncesInOrder(c: Primitive, key: SigningKey, allocations: seq<Allocation>, seeds: seq<Transaction>,
                      events: seq<Event>, who: Address)
    ensures var s := InitialState(c, allocations, seeds);
      var own := OnlyFrom(History(c, key, s, events), who);
      && (forall k :: 0 <= k < |own| ==> own[k].nonce == Wrap(k))
      && Get(Exec(c, key, s, events).accounts, who).nonce == Wrap(|own|)
  {
    hide ApplyAll, Get, OnlyFrom, History, Exec, CreditAll, SeedPool, Stored;
    var s := InitialState(c, allocations, seeds);
    LedgerIsReplay(c, key, s, events);
    SenderNonces(c, s.accounts, History(c, key, s, events), who);
    CreditedNonces(allocations, who);
  }

  /** Whatever is finalized, stored again or finalized again: no (sender, nonce) takes effect twice, if
      and only if no sender gets more transactions executed than there are nonces. */
  lemma AtMostOnce(c: Primitive, key: SigningKey, s: AppState, events: seq<Event>)
    ensures var h := History(c, key, s, events);
      NoReuse(h) <==> forall who :: |OnlyFrom(h, who)| <= U64_LIMIT
  {
    hide ApplyAll, History, Exec, NoReuse, OnlyFrom;
    LedgerIsReplay(c, key, s, events);
    NoReuseIff(c, s.accounts, History(c, key, s, events));
  }

  /** A block that contains anything already executed is rejected whole, in every reachable state. Only
      the sender's own count matters: what it has executed, and what the block holds of it so far. */
  lemma ExecutedRejected(c: Primitive, key: SigningKey, s: AppState, events: seq<Event>,
                         txs: seq<Transaction>, n: nat, i: nat)
    requires var h := History(c, key, s, events);
      && n < |h| && i < |txs| && SlotOf(h[n]) == SlotOf(txs[i])
      && |OnlyFrom(h, txs[i].from)| + |OnlyFrom(txs[..i + 1], txs[i].from)| <= U64_LIMIT
    ensures ApplyAll(c, Exec(c, key, s, events).accounts, txs).Err?
  {
    hide ApplyAll, OnlyFrom, History, Exec;
    LedgerIsReplay(c, key, s, events);
    ReuseRejected(c, s.accounts, History(c, key, s, events), txs, n, i);
  }

  lemma {:induction false} BodyInHistory(blocks: seq<Block>, b: Block, tx: Transaction)
    requires b in blocks && tx in b.transactions
    ensures tx in Bodies(blocks)
  {
    var front, last := blocks[..|blocks| - 1], blocks[|blocks| - 1];
    assert blocks == front + [last];
    if b in front {
      BodyInHistory(front, b, tx);
    }
  }

  lemma PastBodyRejected(c: Primitive, key: SigningKey, s: AppState, events: seq<Event>, past: Block)
    requires past in Finalized(c, key, s, events) && past.transactions != []
    requires |OnlyFrom(History(c, key, s, events), past.transactions[0].from)| < U64_LIMIT
    ensures ApplyAll(c, Exec(c, key, s, events).accounts, past.transactions).Err?
  {
    hide ApplyAll, Exec, Finalized, Bodies, OnlyFrom;
    var txs := past.transactions;
    var h := History(c, key, s, events);
    BodyInHistory(Finalized(c, key, s, events), past, txs[0]);
    var n: nat :| n < |h| && h[n] == txs[0];
    OnlyFromCounts(txs[..1], txs[0].from);
    CountBounded(txs[..1], txs[0].from);
    ExecutedRejected(c, key, s, events, txs, n, 0);
  }

  /** Finalizing the body of a past block again never changes an account, as long as the sender of its
      first transaction still has a nonce left. */
  lemma RefinalizeChangesNothing(c: Primitive, key: SigningKey, s: AppState, events: seq<Event>,
                                 past: Block, digest: Digest)
    requires past in Finalized(c, key, s, events)
    requires var t := Exec(c, key, s, events);
      digest in t.pending && t.pending[digest].transactions == past.transactions
    requires past.transactions != [] ==>
      |OnlyFrom(History(c, key, s, events), past.transactions[0].from)| < U64_LIMIT
    ensures var t := Exec(c, key, s, events);
      AfterFinalize(c, t, digest).accounts == t.accounts
  {
    hide ApplyAll, Exec, Finalized, History, OnlyFrom, Stored, Without, Hashes;
    if past.transactions == [] {
      ApplyNothing(c, Exec(c, key, s, events).accounts);
    } else {
      PastBodyRejected(c, key, s, events, past);
    }
  }

  // ----- supply -----

  /** No run creates or destroys money. */
  lemma RunConservesSupply(c: Primitive, key: SigningKey, s: AppState, events: seq<Event>)
    ensures Supply(Exec(c, key, s, events).accounts) == Supply(s.accounts)
  {
    hide ApplyAll, Exec, History, Supply;
    LedgerIsReplay(c, key, s, events);
    SupplyConserved(c, s.accounts, History(c, key, s, events));
  }

  /** In every reachable state the supply is what genesis allocated, if and only if no address was
      allocated more than fits a balance. */
  lemma GenesisSupplyForever(c: Primitive, key: SigningKey, allocations: seq<Allocation>, seeds: seq<Transaction>,
                             events: seq<Event>)
    ensures var t := Exec(c, key, InitialState(c, allocations, seeds), events);
      Supply(t.accounts) == TotalAllocated(allocations) <==> AllocationsFit(allocations)
  {
    hide Exec, Supply, AllocationsFit;
    GenesisSupplyExact(allocations);
    RunConservesSupply(c, key, InitialState(c, allocations, seeds), events);
  }

  /** From a supply that fits a machine word, no list is ever rejected for overflow. */
  lemma RunNeverOverflows(c: Primitive, key: SigningKey, s: AppState, events: seq<Event>, txs: seq<Transaction>)
    requires Supply(s.accounts) <= U64_MAX
    ensures ApplyAll(c, Exec(c, key, s, events).accounts, txs) != Err(BalanceOverflow)
  {
    hide ApplyAll, Exec, Supply;
    RunConservesSupply(c, key, s, events);
    NeverOverflows(c, Exec(c, key, s, events).accounts, txs);
  }

  // ----- the mempool over a run -----

  lemma WithoutBoth(c: Primitive, pool: Pending, xs: seq<Transaction>, ys: seq<Transaction>)
    ensures Without(c, Without(c, pool, Hashes(c, xs)), Hashes(c, ys)) == Without(c, pool, Hashes(c, xs + ys))
  {
    hide TxHash;
    assert Hashes(c, xs + ys) == Hashes(c, xs) + Hashes(c, ys);
  }

  lemma StepPool(c: Primitive, key: SigningKey, s: AppState, e: Event)
    ensures Step(c, key, s, e).pool == Without(c, s.pool, Hashes(c, Bodies(CommittedBy(c, s, e))))
  {
    hide ApplyAll, DecodeBlock, Stored, BlockHash, Proposed, Without, Hashes, Bodies;
    BodiesOfAtMostOne(CommittedBy(c, s, e));
    WithoutNothing(c, s.pool);
  }

  /** A run drops exactly the pending transactions whose hash occurs in its history. */
  lemma {:induction false} PoolOverRun(c: Primitive, key: SigningKey, s: AppState, events: seq<Event>)
    ensures Exec(c, key, s, events).pool == Without(c, s.pool, Hashes(c, History(c, key, s, events)))
  {
    if events == [] {
      WithoutNothing(c, s.pool);
    } else {
      hide Step, CommittedBy, Without, Hashes;
      var front, last := events[..|events| - 1], events[|events| - 1];
      var mid := Exec(c, key, s, front);
      PoolOverRun(c, key, s, front);
      StepPool(c, key, mid, last);
      AtMostOneBlock(c, mid, last);
      BodiesConcat(Finalized(c, key, s, front), CommittedBy(c, mid, last));
      WithoutBoth(c, s.pool, History(c, key, s, front), Bodies(CommittedBy(c, mid, last)));
    }
  }

  // ----- verified blocks -----

  ghost predicate Quiet(events: seq<Event>) {
    forall e :: e in events ==> !e.message.Finalize?
  }

  lemma QuietStep(c: Primitive, key: SigningKey, s: AppState, e: Event)
    requires !e.message.Finalize?
    ensures var t := Step(c, key, s, e);
      t.accounts == s.accounts && t.store == s.store && t.pool == s.pool && s.pending.Keys <= t.pending.Keys
  {
    hide DecodeBlock, BlockHash, Proposed, AfterFinalize;
  }

  /** Only finalization touches the ledger, the store or the pool. */
  lemma {:induction false} QuietRun(c: Primitive, key: SigningKey, s: AppState, events: seq<Event>)
    requires Quiet(events)
    ensures var t := Exec(c, key, s, events);
      t.accounts == s.accounts && t.store == s.store && t.pool == s.pool && s.pending.Keys <= t.pending.Keys
  {
    if events != [] {
      hide Step;
      var front, e := events[..|events| - 1], events[|events| - 1];
      assert events == front + [e];
      QuietRun(c, key, s, front);
      QuietStep(c, key, Exec(c, key, s, front), e);
    }
  }

  lemma TipStored(c: Primitive, s: Store, tip: Block)
    requires StoreOk(c, s) && Tip(s) == Some(tip)
    ensures BlockHash(c, tip) in s.blocks && s.heights != map[]
    ensures BlockHash(c, tip) == s.heights[Greatest(s.heights.Keys)]
    ensures HeightsOk(s) ==> tip.header.height == Greatest(s.heights.Keys)
  {
    hide BlockHash;
  }

  /** Looking a digest up finds a block with that digest. */
  lemma LookupHashes(c: Primitive, s: AppState, d: Digest)
    requires AppOk(c, s) && BlockByDigest(s, d).Some?
    ensures BlockHash(c, BlockByDigest(s, d).value) == d
  {
    hide BlockHash, PoolOk;
  }

  /** What verification on the tip says about the block: it is the child of the tip, and storing it
      makes it the new tip exactly when the old height had a successor. The only other outcome is a
      collision among three headers. */
  lemma VerifiedExtendsTip(c: Primitive, s: AppState, tip: Block, d: Digest)
    requires AppOk(c, s) && HeightsOk(s.store) && Tip(s.store) == Some(tip) && Verdict(c, s, BlockHash(c, tip), d)
    ensures BlockByDigest(s, BlockHash(c, tip)).Some?
    ensures var b := s.pending[d];
      var parent := BlockByDigest(s, BlockHash(c, tip)).value;
      || Collides(c, {EncodeHeader(tip.header), EncodeHeader(parent.header), EncodeHeader(b.header)})
      || (&& b.header.parentHash == BlockHash(c, tip)
          && b.header.height == Wrap(tip.header.height + 1)
          && (Tip(Stored(c, s.store, b)) == Some(b) <==> tip.header.height < U64_MAX))
  {
    hide BlockHash, ApplyAll, Tip, EncodeHeader, Collides, Stored, PoolOk, PendingOk;
    var h := BlockHash(c, tip);
    var b := s.pending[d];
    TipStored(c, s.store, tip);
    LookupHashes(c, s, h);
    var parent := BlockByDigest(s, h).value;
    var all := {EncodeHeader(tip.header), EncodeHeader(parent.header), EncodeHeader(b.header)};
    if !Collides(c, all) {
      if parent.header != tip.header {
        HeaderCollision(c, parent, tip, all);
      }
      TipAfterChild(c, s.store, tip, b, all);
    }
  }

  lemma TipAfterChild(c: Primitive, s: Store, tip: Block, b: Block, all: set<Bytes>)
    requires StoreOk(c, s) && HeightsOk(s) && Tip(s) == Some(tip) && b.header.height == Wrap(tip.header.height + 1)
    requires EncodeHeader(tip.header) in all && EncodeHeader(b.header) in all && !Collides(c, all)
    ensures Tip(Stored(c, s, b)) == Some(b) <==> tip.header.height < U64_MAX
  {
    hide BlockHash, Tip, EncodeHeader, Collides, Stored, StoreOk;
    TipStored(c, s, tip);
    assert forall n :: n in s.heights ==> n in s.heights.Keys;
    if tip.header.height < U64_MAX {
      NewTip(c, s, b);
    } else {
      if BlockHash(c, b) == BlockHash(c, tip) {
        HeaderCollision(c, b, tip, all);
      }
      SameTip(c, s, b);
    }
  }

  lemma {:induction false} QuietHistory(c: Primitive, key: SigningKey, s: AppState, events: seq<Event>)
    requires Quiet(events)
    ensures History(c, key, s, events) == [] && Finalized(c, key, s, events) == []
  {
    if events != [] {
      hide Exec;
      assert events == events[..|events| - 1] + [events[|events| - 1]];
      QuietHistory(c, key, s, events[..|events| - 1]);
    }
  }

  /** When a body that `s` accepts can be finalized later, after any run. */
  lemma AcceptedLater(c: Primitive, key: SigningKey, s: AppState, events: seq<Event>, txs: seq<Transaction>)
    requires ApplyAll(c, s.accounts, txs).Ok? && NoncesLeft(History(c, key, s, events), txs)
    ensures var h, later := History(c, key, s, events), ApplyAll(c, Exec(c, key, s, events).accounts, txs);
      && (later.Ok? <==> !ShareSender(txs, h) && RoomAfter(s.accounts, h, txs))
      && (Supply(s.accounts) <= U64_MAX ==> (later.Ok? <==> !ShareSender(txs, h)))
      && later == ApplyAll(c, s.accounts, h + txs)
  {
    hide ApplyAll, Exec, History, ShareSender, RoomAfter, NoncesLeft, Supply;
    var h := History(c, key, s, events);
    LedgerIsReplay(c, key, s, events);
    ApplyAllAppend(c, s.accounts, h, txs);
    BothCommitIff(c, s.accounts, h, txs);
    if Supply(s.accounts) <= U64_MAX {
      BothCommitWithinSupply(c, s.accounts, h, txs);
    }
  }

  /** When a verified block is finalizable. After any run, as long as its pending entry has not been
      replaced, a block that verified on the tip can be finalized if and only if it is still pending, no
      sender of it occurs in what was finalized since, and every receiver has room, as it does whenever
      the supply fits a machine word. The ledger is then that history followed by the block. */
  lemma VerifiedMeansFinalizable(c: Primitive, key: SigningKey, s: AppState, tip: Block, d: Digest, events: seq<Event>)
    requires Tip(s.store) == Some(tip) && Verdict(c, s, BlockHash(c, tip), d)
    requires var t := Exec(c, key, s, events); d in t.pending ==> t.pending[d] == s.pending[d]
    requires NoncesLeft(History(c, key, s, events), s.pending[d].transactions)
    ensures var b, h := s.pending[d], History(c, key, s, events);
      var t := Exec(c, key, s, events);
      var commits, u := Committed(c, t, d).Ok?, AfterFinalize(c, t, d);
      var shared := ShareSender(b.transactions, h);
      && (commits <==> d in t.pending && !shared && RoomAfter(s.accounts, h, b.transactions))
      && (Supply(s.accounts) <= U64_MAX ==> (commits <==> d in t.pending && !shared))
      && (commits ==> ApplyAll(c, s.accounts, h + b.transactions) == Ok(u.accounts) && u.store == Stored(c, t.store, b))
  {
    hide BlockHash, ApplyAll, Exec, Tip, Stored, Without, Hashes, History, ShareSender, RoomAfter, NoncesLeft, Supply;
    AcceptedLater(c, key, s, events, s.pending[d].transactions);
  }

  /** In particular it always can when nothing was finalized since; the ledger becomes the one that
      verification computed, and the block is the new tip unless the height was exhausted or headers
      collide. */
  lemma VerifiedThenFinalized(c: Primitive, key: SigningKey, s: AppState, tip: Block, d: Digest, events: seq<Event>)
    requires AppOk(c, s) && HeightsOk(s.store) && Tip(s.store) == Some(tip) && Verdict(c, s, BlockHash(c, tip), d)
    requires Quiet(events)
    requires var t := Exec(c, key, s, events); d in t.pending ==> t.pending[d] == s.pending[d]
    ensures BlockByDigest(s, BlockHash(c, tip)).Some?
    ensures var b := s.pending[d];
      var parent := BlockByDigest(s, BlockHash(c, tip)).value;
      var t := Exec(c, key, s, events);
      var u := AfterFinalize(c, t, d);
      && Committed(c, t, d) == Ok(b)
      && ApplyAll(c, s.accounts, b.transactions) == Ok(u.accounts)
      && u.store == Stored(c, s.store, b)
      && (|| Collides(c, {EncodeHeader(tip.header), EncodeHeader(parent.header), EncodeHeader(b.header)})
          || (&& b.header.height == Wrap(tip.header.height + 1)
              && (Tip(u.store) == Some(b) <==> tip.header.height < U64_MAX)))
  {
    hide BlockHash, ApplyAll, Exec, Tip, Stored, Without, Hashes, AppOk, Collides, EncodeHeader;
    QuietRun(c, key, s, events);
    VerifiedExtendsTip(c, s, tip, d);
    assert d in Exec(c, key, s, events).pending;
  }

  /** Two blocks that verified on one tip. Finalizing the first leaves the entry of the second alone, and
      the second can be finalized too if and only if they share no sender and receivers have room. If it
      is, it takes over the height of the first, though the ledger keeps both. */
  lemma SiblingsIff(c: Primitive, s: AppState, tip: Block, d: Digest, d': Digest)
    requires AppOk(c, s) && Tip(s.store) == Some(tip) && d != d'
    requires Verdict(c, s, BlockHash(c, tip), d) && Verdict(c, s, BlockHash(c, tip), d')
    ensures var x, y := s.pending[d], s.pending[d'];
      var t := AfterFinalize(c, s, d);
      var both, u := Committed(c, t, d').Ok?, AfterFinalize(c, t, d');
      var shared := ShareSender(y.transactions, x.transactions);
      && Committed(c, s, d) == Ok(x) && d' in t.pending && t.pending[d'] == y
      && (both <==> !shared && RoomAfter(s.accounts, x.transactions, y.transactions))
      && (Supply(s.accounts) <= U64_MAX ==> (both <==> !shared))
      && (both ==>
        && ApplyAll(c, s.accounts, x.transactions + y.transactions) == Ok(u.accounts)
        && ByHeight(u.store, x.header.height) == Some(y))
  {
    hide BlockHash, ApplyAll, Tip, ShareSender, RoomAfter, Supply, NoncesLeft, Without, Hashes, PoolOk;
    var x, y := s.pending[d], s.pending[d'];
    BodyLeavesNonces(x.transactions, y.transactions);
    BothCommitIff(c, s.accounts, x.transactions, y.transactions);
    if Supply(s.accounts) <= U64_MAX {
      BothCommitWithinSupply(c, s.accounts, x.transactions, y.transactions);
    }
    ApplyAllAppend(c, s.accounts, x.transactions, y.transactions);
    TipStored(c, s.store, tip);
    assert x.header.height == y.header.height;
  }

  // ----- the builder inside the actor -----

  /** A node that can check its own signatures never fails to propose on a known parent. */
  lemma ProposeSucceeds(c: Primitive, key: SigningKey, s: AppState, parent: Digest, e: Event)
    requires SignaturesCorrect(c) && BlockByDigest(s, parent).Some?
    ensures Proposed(c, key, s, parent, e) ==
      Ok(BuiltBlock(c, BlockByDigest(s, parent).value, e.timestamp, key, Selected(c, s, e.order)))
  {
    hide Selected, BlockHash, TxRoot;
  }

  /** Proposing and then finalizing the proposal succeeds and keeps the pool fresh. */
  lemma ProposeFinalizeKeepsFresh(c: Primitive, key: SigningKey, s: AppState, e: Event)
    requires AppOk(c, s) && Legal(s, e) && e.message.Propose? && Proposed(c, key, s, e.message.parent, e).Ok?
    requires Fresh(s.pool, s.accounts)
    ensures var b := Proposed(c, key, s, e.message.parent, e).value;
      var t := Step(c, key, s, e);
      && Committed(c, t, BlockHash(c, b)) == Ok(b)
      && Fresh(AfterFinalize(c, t, BlockHash(c, b)).pool, AfterFinalize(c, t, BlockHash(c, b)).accounts)
  {
    hide PoolOk, StoreOk, PendingOk, BlockHash, TxRoot, ApplyAll, WalkSenders, Without, Hashes, Fresh,
        SendersOf, SignedBlockValid;
    BuilderSound(c, s.accounts, s.pool, e.order, MAX_TXS_PER_BLOCK);
    BuildingKeepsFresh(c, s.accounts, s.pool, e.order, MAX_TXS_PER_BLOCK);
  }

  /** Finalization is all or nothing. On success the pool loses exactly the transactions whose hash
      occurs in the block, everyone's balance and nonce follow from the body, and no other pending
      block goes; on failure only the pending entry goes. */
  lemma FinalizeExact(c: Primitive, s: AppState, d: Digest, slot: Slot, who: Address)
    ensures var t := AfterFinalize(c, s, d);
      && t.pending == s.pending - {d}
      && (Committed(c, s, d).Err? ==> t == s.(pending := s.pending - {d}))
      && (Committed(c, s, d) == Err(BlockMissing) <==> d !in s.pending)
      && (forall reason :: Committed(c, s, d) == Err(Rejected(reason)) <==>
        d in s.pending && ApplyAll(c, s.accounts, s.pending[d].transactions) == Err(reason))
      && (Committed(c, s, d).Ok? ==>
        var txs := s.pending[d].transactions;
        && InClosedForm(s.accounts, t.accounts, txs, who)
        && (slot in t.pool <==> slot in s.pool && forall tx :: tx in txs ==> TxHash(c, tx) != TxHash(c, s.pool[slot]))
        && (slot in t.pool ==> t.pool[slot] == s.pool[slot])
        && ByHeight(t.store, s.pending[d].header.height) == Some(s.pending[d]))
  {
    hide ApplyAll, TxHash, BlockHash, InClosedForm;
    if Committed(c, s, d).Ok? {
      ClosedFormAt(c, s.accounts, s.pending[d].transactions, who);
    }
  }
}

/** What the consensus engine is told: the meaning of each reply of the mailbox loop
    (crates/consensus/src/app/actor.rs:76-105), over the replies that `Runs.Serve` returns. */
module Replies {
  import opened Primitives
  import opened Crypto
  import opened Blocks
  import opened State
  import opened LedgerLaws
  import opened Pool
  import opened BlockStores
  import opened Actor
  import opened Runs

  /** One message of an answered run: the state it met, and the state it left. */
  lemma OneReply(c: Primitive, key: SigningKey, genesis: Digest, s: AppState, events: seq<Event>,
      replies: seq<Reply>, i: nat)
    requires AppOk(c, s) && Answers(c, key, genesis, s, events, replies) && i < |events|
    ensures var t := Exec(c, key, s, events[..i]);
      && |replies| == |events| && replies[i] == ReplyTo(c, key, genesis, t, events[i])
      && Exec(c, key, s, events[..i + 1]) == Step(c, key, t, events[i])
      && AppOk(c, t)
  {
    hide ReplyTo, Step, AppOk;
    assert events[..i + 1][..i] == events[..i];
    RunKeepsOk(c, key, s, events[..i]);
  }

  /** Verification is answered, and answered yes if and only if the block is pending, names the parent,
      stands one above it wherever it is known, and is acceptable if the parent is the finalized tip. */
  lemma VerifyAnswered(c: Primitive, key: SigningKey, genesis: Digest, s: AppState, events: seq<Event>,
      replies: seq<Reply>, i: nat, parent: Digest, digest: Digest)
    requires AppOk(c, s) && Answers(c, key, genesis, s, events, replies) && i < |events| == |replies|
    requires events[i].message == Verify(parent, digest)
    ensures var t := Exec(c, key, s, events[..i]);
      && Exec(c, key, s, events[..i + 1]) == t
      && replies[i].Answer?
      && (replies[i].valid <==>
        && digest in t.pending
        && t.pending[digest].header.parentHash == parent
        && (parent in t.pending ==> t.pending[digest].header.height == Wrap(t.pending[parent].header.height + 1))
        && (parent !in t.pending && parent in t.store.blocks ==>
          t.pending[digest].header.height == Wrap(t.store.blocks[parent].header.height + 1))
        && (AtTip(t, parent) ==>
          forall k: nat :: k < |t.pending[digest].transactions| ==>
            AcceptableAt(c, t.accounts, t.pending[digest].transactions, k)))
  {
    hide Answers, Exec, AcceptableAt, AtTip, Verdict;
    OneReply(c, key, genesis, s, events, replies, i);
    VerdictIff(c, Exec(c, key, s, events[..i]), parent, digest);
  }

  lemma ProposeStep(c: Primitive, key: SigningKey, genesis: Digest, t: AppState, e: Event, parent: Digest)
    requires e.message == Propose(parent)
    ensures match Proposed(c, key, t, parent, e)
      case Ok(b) =>
        && ReplyTo(c, key, genesis, t, e) == ProposedDigest(c.sha256(EncodeHeader(b.header)))
        && Step(c, key, t, e) == t.(pending := t.pending[c.sha256(EncodeHeader(b.header)) := b])
      case Err(_) => ReplyTo(c, key, genesis, t, e) == NoReply && Step(c, key, t, e) == t
  {
    hide Proposed, EncodeHeader;
  }

  /** A proposal is answered with a digest if and only if the parent is known and the node's own signature
      verifies. The digest is then the hash of a pending header, one above the parent and naming it, stamped
      with the clock and the node's key; otherwise nothing changes and nothing is sent. */
  lemma ProposeAnswered(c: Primitive, key: SigningKey, genesis: Digest, s: AppState, events: seq<Event>,
      replies: seq<Reply>, i: nat, parent: Digest)
    requires AppOk(c, s) && Answers(c, key, genesis, s, events, replies) && i < |events| == |replies|
    requires events[i].message == Propose(parent)
    ensures var t, u := Exec(c, key, s, events[..i]), Exec(c, key, s, events[..i + 1]);
      && (replies[i].ProposedDigest? ==>
        var d := replies[i].digest;
        && (parent in t.pending || parent in t.store.blocks)
        && d in u.pending && u == t.(pending := t.pending[d := u.pending[d]])
        && c.sha256(EncodeHeader(u.pending[d].header)) == d
        && c.verifies(c.publicKey(key), d, c.sign(key, d))
        && u.pending[d].header.parentHash == parent
        && u.pending[d].header.height ==
          Wrap((if parent in t.pending then t.pending[parent] else t.store.blocks[parent]).header.height + 1)
        && u.pending[d].header.timestamp == events[i].timestamp
        && u.pending[d].header.proposer == c.publicKey(key)
        && |u.pending[d].transactions| <= 1024
        && ApplyAll(c, t.accounts, u.pending[d].transactions).Ok?)
      && (!replies[i].ProposedDigest? ==> replies[i] == NoReply && u == t)
      && (SignaturesCorrect(c) ==>
        (replies[i].ProposedDigest? <==> parent in t.pending || parent in t.store.blocks))
  {
    hide Answers, Exec, Proposed, EncodeHeader, ApplyAll, AppOk, Selected, SignaturesCorrect, Step, ReplyTo;
    OneReply(c, key, genesis, s, events, replies, i);
    ProposeStep(c, key, genesis, Exec(c, key, s, events[..i]), events[i], parent);
    ProposedExact(c, key, Exec(c, key, s, events[..i]), parent, events[i]);
  }

  lemma {:induction false} LegalAt(c: Primitive, key: SigningKey, s: AppState, events: seq<Event>, i: nat)
    requires LegalRun(c, key, s, events) && i < |events|
    ensures Legal(Exec(c, key, s, events[..i]), events[i])
  {
    hide Legal, Exec;
    var front := events[..|events| - 1];
    if i < |front| {
      LegalAt(c, key, s, front, i);
      assert front[..i] == events[..i];
    }
  }

  lemma ProposedBody(c: Primitive, key: SigningKey, genesis: Digest, s: AppState, events: seq<Event>,
      replies: seq<Reply>, i: nat, parent: Digest)
    requires AppOk(c, s) && Answers(c, key, genesis, s, events, replies)
    requires i < |events| == |replies| && events[i].message == Propose(parent) && replies[i].ProposedDigest?
    ensures var t, u := Exec(c, key, s, events[..i]), Exec(c, key, s, events[..i + 1]);
      replies[i].digest in u.pending && u.pending[replies[i].digest].transactions == Selected(c, t, events[i].order)
  {
    hide Answers, Exec, Proposed, EncodeHeader, ApplyAll, AppOk, Selected, Step, ReplyTo;
    OneReply(c, key, genesis, s, events, replies, i);
    ProposeStep(c, key, genesis, Exec(c, key, s, events[..i]), events[i], parent);
    ProposedExact(c, key, Exec(c, key, s, events[..i]), parent, events[i]);
  }

  /** What the node proposes leaves nothing it could take. Whoever has something pending: unless the block
      holds 1024 transactions, the sender's next one is rejected by the ledger after the first `n`
      transactions of the block, which is where the sender was left: no sender stands on both sides. */
  lemma ProposalLeavesNothing(c: Primitive, key: SigningKey, genesis: Digest, s: AppState, events: seq<Event>,
      replies: seq<Reply>, i: nat, parent: Digest, who: Address)
      returns (n: nat)
    requires AppOk(c, s) && Answers(c, key, genesis, s, events, replies) && LegalRun(c, key, s, events)
    requires i < |events| == |replies| && events[i].message == Propose(parent) && replies[i].ProposedDigest?
    requires exists slot :: slot in Exec(c, key, s, events[..i]).pool && slot.sender == who
    ensures replies[i].digest in Exec(c, key, s, events[..i + 1]).pending
    ensures var t := Exec(c, key, s, events[..i]);
      var txs := Exec(c, key, s, events[..i + 1]).pending[replies[i].digest].transactions;
      var own, pending := OnlyFrom(txs, who), PendingFrom(t.pool, who);
      && n <= |txs| <= 1024
      && (forall x, y :: x in txs[..n] && y in txs[n..] ==> x.from != y.from && y.from != who)
      && ApplyAll(c, t.accounts, txs[..n]).Ok?
      && own <= pending
      && (|own| < |pending| && |txs| < 1024 ==>
        ApplyTx(c, ApplyAll(c, t.accounts, txs[..n]).value, pending[|own|]).Err?)
  {
    hide Answers, Exec, Step, ReplyTo, ApplyAll, ApplyTx, OnlyFrom, PendingFrom, AppOk, LegalRun, Distinct, Selected;
    var t := Exec(c, key, s, events[..i]);
    OneReply(c, key, genesis, s, events, replies, i);
    ProposedBody(c, key, genesis, s, events, replies, i, parent);
    LegalAt(c, key, s, events, i);
    var order := events[i].order;
    assert who in SendersOf(t.pool);
    var k: nat :| k < |order| && order[k] == who;
    n := ProposalMaximal(c, t, order, k);
    SplitOrder(order, k + 1);
    assert order[k] in order[..k + 1] by {
      assert order[..k + 1][k] == order[k];
    }
  }

  lemma SplitOrder(order: seq<Address>, k: nat)
    requires Distinct(order) && k <= |order|
    ensures forall a :: a in order[..k] ==> a !in order[k..]
  {}

  /** On a node that started from the genesis block, the genesis message is answered with the hash of 112
      zero bytes, which are the encoding of the genesis header. */
  lemma GenesisAnswered(c: Primitive, key: SigningKey, s: AppState, events: seq<Event>, replies: seq<Reply>, i: nat)
    requires AppOk(c, s) && i < |events| == |replies|
    requires Answers(c, key, BlockHash(c, GenesisBlock()), s, events, replies)
    requires events[i].message == Message.Genesis
    ensures var header := EncodeHeader(GenesisBlock().header);
      && replies[i] == GenesisDigest(c.sha256(header))
      && |header| == 112 && (forall k :: 0 <= k < 112 ==> header[k] == 0)
      && Exec(c, key, s, events[..i + 1]) == Exec(c, key, s, events[..i])
  {
    hide Answers, Exec, AppOk, EncodeHeader, GenesisBlock;
    OneReply(c, key, BlockHash(c, GenesisBlock()), s, events, replies, i);
    GenesisIsZero();
  }

  /** A broadcast sends bytes that decode to the pending block, if there is one, and changes nothing. */
  lemma BroadcastAnswered(c: Primitive, key: SigningKey, genesis: Digest, s: AppState, events: seq<Event>,
      replies: seq<Reply>, i: nat, digest: Digest)
    requires AppOk(c, s) && Answers(c, key, genesis, s, events, replies) && i < |events| == |replies|
    requires events[i].message == Broadcast(digest)
    ensures var t := Exec(c, key, s, events[..i]);
      && Exec(c, key, s, events[..i + 1]) == t
      && (digest in t.pending ==> replies[i].Outbound? && DecodeBlock(replies[i].bytes) == Some(t.pending[digest]))
      && (digest !in t.pending ==> replies[i] == NoReply)
  {
    hide Answers, Exec, StoreOk, EncodeBlock, DecodeBlock, BlockHash;
    OneReply(c, key, genesis, s, events, replies, i);
    var t := Exec(c, key, s, events[..i]);
    if digest in t.pending {
      BlockRoundTrip(t.pending[digest]);
    }
  }

  /** Finalizing and storing are not answered, whatever comes of them. */
  lemma NotAnswered(c: Primitive, key: SigningKey, genesis: Digest, s: AppState, events: seq<Event>,
      replies: seq<Reply>, i: nat)
    requires AppOk(c, s) && Answers(c, key, genesis, s, events, replies) && i < |events| == |replies|
    requires events[i].message.Finalize? || events[i].message.StoreBlock?
    ensures replies[i] == NoReply
  {
    hide Answers, Exec, AppOk;
    OneReply(c, key, genesis, s, events, replies, i);
  }
}

/** Greedy block building (crates/consensus/src/builder.rs). */
module Builder {
  import opened Primitives
  import opened Crypto
  import opened Transactions
  import opened Merkle
  import opened Blocks
  import opened State
  import opened LedgerLaws
  import opened Pool
  import opened Mempools

  datatype SignedBlock = SignedBlock(block: Block, signature: Signature)

  predicate SignedBlockValid(c: Primitive, sb: SignedBlock) {
    Verifies(c, sb.block.header.proposer, BlockHash(c, sb.block), sb.signature)
  }

  /** What the nested loops carry: the shadow ledger, the selection, and whether the cap was met. */
  datatype Walk = Walk(shadow: Accounts, selected: seq<Transaction>, full: bool)

  /** One sender: stop at the first rejected transaction, or for good at the cap. */
  function TakeFrom(c: Primitive, w: Walk, pending: seq<Transaction>, maxTxs: nat): Walk
    decreases |pending|
  {
    if pending == [] then w
    else if |w.selected| >= maxTxs then w.(full := true)
    else match ApplyTx(c, w.shadow, pending[0])
      case Ok(a) => TakeFrom(c, w.(shadow := a, selected := w.selected + [pending[0]]), pending[1..], maxTxs)
      case Err(_) => w
  }

  function WalkSenders(c: Primitive, a: Accounts, pool: Pending, order: seq<Address>, maxTxs: nat): Walk {
    if order == [] then Walk(a, [], false) else
    var w := WalkSenders(c, a, pool, order[..|order| - 1], maxTxs);
    if w.full then w else TakeFrom(c, w, PendingFrom(pool, order[|order| - 1]), maxTxs)
  }

  function Selection(c: Primitive, a: Accounts, pool: Pending, order: seq<Address>, maxTxs: nat): seq<Transaction> {
    WalkSenders(c, a, pool, order, maxTxs).selected
  }

  ghost predicate Sound(c: Primitive, a: Accounts, w: Walk, maxTxs: nat) {
    ApplyAll(c, a, w.selected) == Ok(w.shadow) && |w.selected| <= maxTxs
  }

  /** One turn of the inner loop. */
  lemma TakeOne(c: Primitive, w: Walk, pending: seq<Transaction>, j: nat, maxTxs: nat)
    requires j < |pending|
    ensures TakeFrom(c, w, pending[j..], maxTxs) ==
      if |w.selected| >= maxTxs then w.(full := true)
      else match ApplyTx(c, w.shadow, pending[j])
        case Ok(a) => TakeFrom(c, w.(shadow := a, selected := w.selected + [pending[j]]), pending[j + 1..], maxTxs)
        case Err(_) => w
  {
    hide ApplyTx;
    assert pending[j..][0] == pending[j] && pending[j..][1..] == pending[j + 1..];
  }

  lemma TakeNothing(c: Primitive, w: Walk, maxTxs: nat)
    ensures TakeFrom(c, w, [], maxTxs) == w
  {}

  lemma SoundStep(c: Primitive, a: Accounts, w: Walk, tx: Transaction, maxTxs: nat)
    requires Sound(c, a, w, maxTxs) && |w.selected| < maxTxs && ApplyTx(c, w.shadow, tx).Ok?
    ensures Sound(c, a, Walk(ApplyTx(c, w.shadow, tx).value, w.selected + [tx], false), maxTxs)
  {
    hide ApplyTx;
    assert (w.selected + [tx])[..|w.selected|] == w.selected;
  }

  /** What one sender contributes: a prefix of its pending list, ended by the cap or by a rejection. */
  lemma {:induction false} TakeFromPrefix(c: Primitive, a: Accounts, w: Walk, pending: seq<Transaction>, maxTxs: nat)
      returns (k: nat)
    requires Sound(c, a, w, maxTxs) && !w.full
    ensures var r := TakeFrom(c, w, pending, maxTxs);
      && Sound(c, a, r, maxTxs)
      && k <= |pending| && r.selected == w.selected + pending[..k]
      && (r.full ==> |r.selected| == maxTxs && k < |pending|)
      && (k < |pending| && !r.full ==> ApplyTx(c, r.shadow, pending[k]).Err?)
    decreases |pending|
  {
    hide ApplyTx, ApplyAll, TakeFrom;
    k := 0;
    assert w.selected + pending[..0] == w.selected;
    if pending == [] {
      TakeNothing(c, w, maxTxs);
    } else {
      TakeOne(c, w, pending, 0, maxTxs);
      assert pending[0..] == pending;
      if |w.selected| < maxTxs && ApplyTx(c, w.shadow, pending[0]).Ok? {
        SoundStep(c, a, w, pending[0], maxTxs);
        var next := Walk(ApplyTx(c, w.shadow, pending[0]).value, w.selected + [pending[0]], false);
        var j := TakeFromPrefix(c, a, next, pending[1..], maxTxs);
        k := j + 1;
        assert next.selected + pending[1..][..j] == w.selected + pending[..k];
      }
    }
  }

  /** The selection is within the cap and replays on the original ledger to exactly the shadow. */
  lemma {:induction false} BuilderSound(c: Primitive, a: Accounts, pool: Pending, order: seq<Address>, maxTxs: nat)
    ensures var w := WalkSenders(c, a, pool, order, maxTxs);
      && |w.selected| <= maxTxs
      && ApplyAll(c, a, w.selected) == Ok(w.shadow)
      && (w.full ==> |w.selected| == maxTxs)
  {
    if order != [] {
      var w := WalkSenders(c, a, pool, order[..|order| - 1], maxTxs);
      BuilderSound(c, a, pool, order[..|order| - 1], maxTxs);
      if !w.full {
        var k := TakeFromPrefix(c, a, w, PendingFrom(pool, order[|order| - 1]), maxTxs);
      }
    }
  }

  lemma ShareExtends(selected: seq<Transaction>, share: seq<Transaction>, sender: Address, who: Address)
    requires forall tx :: tx in share ==> tx.from == sender
    ensures OnlyFrom(selected + share, who) == OnlyFrom(selected, who) + if who == sender then share else []
  {
    OnlyFromAppend(selected, share, who);
    OnlyFromSame(share, sender, who);
  }

  lemma WalkOne(c: Primitive, a: Accounts, pool: Pending, order: seq<Address>, i: nat, maxTxs: nat)
    requires i < |order|
    ensures WalkSenders(c, a, pool, order[..i + 1], maxTxs) ==
      var w := WalkSenders(c, a, pool, order[..i], maxTxs);
      if w.full then w else TakeFrom(c, w, PendingFrom(pool, order[i]), maxTxs)
  {
    hide PendingFrom, TakeFrom;
    assert order[..i + 1][..i] == order[..i];
  }

  lemma WalkNothing(c: Primitive, a: Accounts, pool: Pending, maxTxs: nat)
    ensures WalkSenders(c, a, pool, [], maxTxs) == Walk(a, [], false)
  {}

  lemma DistinctSplit(order: seq<Address>)
    requires order != [] && Distinct(order)
    ensures Distinct(order[..|order| - 1])
    ensures forall who :: who in order <==> who in order[..|order| - 1] || who == order[|order| - 1]
    ensures order[|order| - 1] !in order[..|order| - 1]
  {
    assert order == order[..|order| - 1] + [order[|order| - 1]];
  }

  lemma {:induction false} SelectionBySender(c: Primitive, a: Accounts, pool: Pending, order: seq<Address>,
      maxTxs: nat, who: Address)
    requires PoolOk(c, pool) && Distinct(order)
    ensures var own := OnlyFrom(Selection(c, a, pool, order, maxTxs), who);
      own <= PendingFrom(pool, who) && (who !in order ==> own == [])
  {
    hide PendingFrom, PoolOk, ApplyTx, ApplyAll, TakeFrom, WalkSenders, Distinct;
    if order == [] {
      WalkNothing(c, a, pool, maxTxs);
      assert OnlyFrom([], who) == [];
    } else {
      hide OnlyFrom;
      var n := |order| - 1;
      var last := order[n];
      DistinctSplit(order);
      SelectionBySender(c, a, pool, order[..n], maxTxs, who);
      WalkOne(c, a, pool, order, n, maxTxs);
      assert order[..n + 1] == order;
      var w := WalkSenders(c, a, pool, order[..n], maxTxs);
      if !w.full {
        BuilderSound(c, a, pool, order[..n], maxTxs);
        var pending := PendingFrom(pool, last);
        var k := TakeFromPrefix(c, a, w, pending, maxTxs);
        PendingFromOwn(c, pool, last);
        ShareExtends(w.selected, pending[..k], last, who);
      }
    }
  }

  lemma PendingFromOwn(c: Primitive, pool: Pending, sender: Address)
    requires PoolOk(c, pool)
    ensures forall tx :: tx in PendingFrom(pool, sender) ==> tx.from == sender
  {
    hide PendingFrom, PoolOk;
    PendingFromSorted(c, pool, sender);
  }

  /** Each sender's share is a prefix of its pending list, with consecutive nonces from the ledger's. */
  lemma SelectionShape(c: Primitive, a: Accounts, pool: Pending, order: seq<Address>, maxTxs: nat, who: Address)
    requires PoolOk(c, pool) && Distinct(order)
    ensures var own := OnlyFrom(Selection(c, a, pool, order, maxTxs), who);
      && own <= PendingFrom(pool, who)
      && (forall k :: 0 <= k < |own| ==> own[k].nonce == Get(a, who).nonce + k)
  {
    hide PendingFrom, PoolOk, ApplyAll, OnlyFrom, WalkSenders;
    var selected := Selection(c, a, pool, order, maxTxs);
    var own := OnlyFrom(selected, who);
    BuilderSound(c, a, pool, order, maxTxs);
    SelectionBySender(c, a, pool, order, maxTxs, who);
    SenderNonces(c, a, selected, who);
    PendingFromSorted(c, pool, who);
    var pending := PendingFrom(pool, who);
    assert forall k :: 0 <= k < |own| ==> own[k] == pending[k];
    IncreasingNeverWraps(own, Get(a, who).nonce, |own|);
  }

  lemma {:induction false} IncreasingNeverWraps(own: seq<Transaction>, start: U64, n: nat)
    requires n <= |own|
    requires forall k :: 0 <= k < |own| ==> own[k].nonce == Wrap(start + k)
    requires forall i, j :: 0 <= i < j < |own| ==> own[i].nonce < own[j].nonce
    ensures forall k :: 0 <= k < n ==> own[k].nonce == start + k
  {
    if n > 0 {
      IncreasingNeverWraps(own, start, n - 1);
      if n > 1 {
        assert own[n - 2].nonce == start + (n - 2) && own[n - 2].nonce < own[n - 1].nonce;
      }
    }
  }

  ghost predicate HeadRejected(c: Primitive, a: Accounts, pool: Pending, who: Address) {
    var pending := PendingFrom(pool, who);
    pending != [] ==> ApplyTx(c, a, pending[0]).Err?
  }

  lemma EmptyTake(c: Primitive, a: Accounts, pending: seq<Transaction>, maxTxs: nat)
    requires maxTxs > 0
    ensures var r := TakeFrom(c, Walk(a, [], false), pending, maxTxs);
      && (r.selected == [] ==> r == Walk(a, [], false))
      && (r.selected == [] <==> pending == [] || ApplyTx(c, a, pending[0]).Err?)
  {
    hide ApplyTx;
    if pending != [] && ApplyTx(c, a, pending[0]).Ok? {
      var next := Walk(ApplyTx(c, a, pending[0]).value, [pending[0]], false);
      assert [] + [pending[0]] == [pending[0]];
      assert [pending[0]][..0] == [];
      assert ApplyAll(c, a, []) == Ok(a);
      var k := TakeFromPrefix(c, a, next, pending[1..], maxTxs);
    }
  }

  lemma {:induction false} EmptyWalk(c: Primitive, a: Accounts, pool: Pending, order: seq<Address>, maxTxs: nat)
    requires maxTxs > 0
    ensures var w := WalkSenders(c, a, pool, order, maxTxs);
      && (w.selected == [] ==> w == Walk(a, [], false))
      && (w.selected == [] <==> forall who :: who in order ==> HeadRejected(c, a, pool, who))
  {
    hide ApplyTx, ApplyAll, PendingFrom, TakeFrom;
    if order != [] {
      var front, last := order[..|order| - 1], order[|order| - 1];
      assert order == front + [last];
      var w := WalkSenders(c, a, pool, front, maxTxs);
      EmptyWalk(c, a, pool, front, maxTxs);
      EmptyTake(c, a, PendingFrom(pool, last), maxTxs);
      assert forall who :: who in order <==> who in front || who == last;
      var pending := PendingFrom(pool, last);
      assert HeadRejected(c, a, pool, last) <==> pending == [] || ApplyTx(c, a, pending[0]).Err?;
      if w.selected != [] {
        var who :| who in front && !HeadRejected(c, a, pool, who);
        assert who in order;
        BuilderSound(c, a, pool, front, maxTxs);
        if !w.full {
          var k := TakeFromPrefix(c, a, w, PendingFrom(pool, last), maxTxs);
        }
      }
    }
  }

  /** With room for a transaction, nothing is selected exactly when the ledger rejects the first
      pending transaction of every sender; the order of the senders plays no part. */
  lemma EmptyExactly(c: Primitive, a: Accounts, pool: Pending, order: seq<Address>, maxTxs: nat)
    requires maxTxs > 0 && IsOrder(order, SendersOf(pool))
    ensures Selection(c, a, pool, order, maxTxs) == [] <==>
      forall who :: who in SendersOf(pool) ==> HeadRejected(c, a, pool, who)
  {
    EmptyWalk(c, a, pool, order, maxTxs);
  }

  // ----- the builder takes what it can -----

  /** The selection is built up sender by sender. */
  lemma {:induction false} WalkGrows(c: Primitive, a: Accounts, pool: Pending, order: seq<Address>, i: nat, maxTxs: nat)
    requires PoolOk(c, pool) && i <= |order|
    ensures var first, all := Selection(c, a, pool, order[..i], maxTxs), Selection(c, a, pool, order, maxTxs);
      first <= all && forall tx :: tx in all[|first|..] ==> tx.from in order[i..]
    decreases |order|
  {
    hide PoolOk, PendingFrom, TakeFrom, ApplyAll, ApplyTx, WalkSenders;
    if i == |order| {
      assert order[..i] == order;
    } else {
      var n := |order| - 1;
      var first, all := Selection(c, a, pool, order[..i], maxTxs), Selection(c, a, pool, order, maxTxs);
      WalkGrows(c, a, pool, order[..n], i, maxTxs);
      assert order[..n][..i] == order[..i] && order[..n + 1] == order;
      WalkOne(c, a, pool, order, n, maxTxs);
      var w := WalkSenders(c, a, pool, order[..n], maxTxs);
      forall x | x in order[..n][i..] ensures x in order[i..] {
        var k :| 0 <= k < n - i && order[..n][i..][k] == x;
        assert order[i..][k] == x;
      }
      if !w.full {
        BuilderSound(c, a, pool, order[..n], maxTxs);
        var pending := PendingFrom(pool, order[n]);
        var k := TakeFromPrefix(c, a, w, pending, maxTxs);
        PendingFromOwn(c, pool, order[n]);
        assert order[n] == order[i..][n - i];
        assert all[|first|..] == w.selected[|first|..] + pending[..k];
      }
    }
  }

  /** Where one sender's share stands, and what ended it. */
  lemma ShareOf(c: Primitive, a: Accounts, pool: Pending, order: seq<Address>, i: nat, maxTxs: nat)
    requires PoolOk(c, pool) && Distinct(order) && i < |order|
    ensures var upto := WalkSenders(c, a, pool, order[..i + 1], maxTxs);
      var own, pending := OnlyFrom(Selection(c, a, pool, order, maxTxs), order[i]), PendingFrom(pool, order[i]);
      && own <= pending
      && (upto.full ==> Selection(c, a, pool, order, maxTxs) == upto.selected)
      && (|own| < |pending| && !upto.full ==> ApplyTx(c, upto.shadow, pending[|own|]).Err?)
  {
    hide PoolOk, PendingFrom, TakeFrom, ApplyAll, ApplyTx, WalkSenders, OnlyFrom, Distinct;
    var who, all := order[i], Selection(c, a, pool, order, maxTxs);
    var before, upto := WalkSenders(c, a, pool, order[..i], maxTxs), WalkSenders(c, a, pool, order[..i + 1], maxTxs);
    SelectionBySender(c, a, pool, order, maxTxs, who);
    WalkOne(c, a, pool, order, i, maxTxs);
    if upto.full {
      FullStays(c, a, pool, order, maxTxs, i + 1);
    } else {
      var pending := PendingFrom(pool, who);
      BuilderSound(c, a, pool, order[..i], maxTxs);
      var k := TakeFromPrefix(c, a, before, pending, maxTxs);
      WalkGrows(c, a, pool, order, i + 1, maxTxs);
      var rest := all[|upto.selected|..];
      assert all == (before.selected + pending[..k]) + rest;
      OrderAround(order, i);
      OnlyFromAppend(before.selected + pending[..k], rest, who);
      OnlyFromNone(rest, who);
      PendingFromOwn(c, pool, who);
      ShareExtends(before.selected, pending[..k], who, who);
      SelectionBySender(c, a, pool, order[..i], maxTxs, who);
    }
  }

  lemma OrderAround(order: seq<Address>, i: nat)
    requires Distinct(order) && i < |order|
    ensures order[i] !in order[..i] && order[i] !in order[i + 1..] && Distinct(order[..i])
  {}

  lemma {:induction false} OnlyFromNone(txs: seq<Transaction>, who: Address)
    requires forall tx :: tx in txs ==> tx.from != who
    ensures OnlyFrom(txs, who) == []
  {
    if txs != [] {
      assert txs == txs[..|txs| - 1] + [txs[|txs| - 1]];
      OnlyFromNone(txs[..|txs| - 1], who);
    }
  }

  /** The builder leaves nothing it could take. For each sender the selection splits where that sender was
      left: before come only transactions of the senders walked so far, after only those of later ones. The
      sender's next transaction, if there is one, is rejected by the ledger as it stood then, unless the
      selection is at its cap. */
  lemma BuilderMaximal(c: Primitive, a: Accounts, pool: Pending, order: seq<Address>, i: nat, maxTxs: nat)
      returns (n: nat)
    requires PoolOk(c, pool) && Distinct(order) && i < |order|
    ensures var all := Selection(c, a, pool, order, maxTxs);
      var own, pending := OnlyFrom(all, order[i]), PendingFrom(pool, order[i]);
      && n <= |all|
      && (forall tx :: tx in all[..n] ==> tx.from in order[..i + 1])
      && (forall tx :: tx in all[n..] ==> tx.from in order[i + 1..])
      && ApplyAll(c, a, all[..n]).Ok?
      && own <= pending
      && (|own| < |pending| && |all| < maxTxs ==> ApplyTx(c, ApplyAll(c, a, all[..n]).value, pending[|own|]).Err?)
  {
    hide PoolOk, PendingFrom, TakeFrom, ApplyAll, ApplyTx, WalkSenders, OnlyFrom, Distinct;
    var all, upto := Selection(c, a, pool, order, maxTxs), WalkSenders(c, a, pool, order[..i + 1], maxTxs);
    n := |upto.selected|;
    ShareOf(c, a, pool, order, i, maxTxs);
    WalkGrows(c, a, pool, order, i + 1, maxTxs);
    WalkGrows(c, a, pool, order[..i + 1], 0, maxTxs);
    assert order[..i + 1][..0] == [] && order[..i + 1][0..] == order[..i + 1];
    WalkNothing(c, a, pool, maxTxs);
    assert all[..n] == upto.selected && upto.selected[0..] == upto.selected;
    BuilderSound(c, a, pool, order[..i + 1], maxTxs);
  }

  /** If the whole pool is acceptable in the order in which it is walked, and fits, the builder takes all of
      it. */
  lemma {:induction false} BuilderTakesAll(c: Primitive, a: Accounts, pool: Pending, order: seq<Address>, maxTxs: nat)
    requires ApplyAll(c, a, AllFrom(pool, order)).Ok? && |AllFrom(pool, order)| <= maxTxs
    ensures WalkSenders(c, a, pool, order, maxTxs)
      == Walk(ApplyAll(c, a, AllFrom(pool, order)).value, AllFrom(pool, order), false)
  {
    hide PendingFrom, TakeFrom, ApplyAll, ApplyTx;
    if order == [] {
      ApplyNothing(c, a);
    } else {
      hide WalkSenders;
      var n := |order| - 1;
      var front, pending := AllFrom(pool, order[..n]), PendingFrom(pool, order[n]);
      if ApplyAll(c, a, front).Err? {
        assert (front + pending)[..|front|] == front;
        ApplyAllStopsAt(c, a, front + pending, |front|);
      }
      BuilderTakesAll(c, a, pool, order[..n], maxTxs);
      WalkOne(c, a, pool, order, n, maxTxs);
      assert order[..n + 1] == order;
      TakesAllOf(c, a, WalkSenders(c, a, pool, order[..n], maxTxs), pending, maxTxs);
    }
  }

  lemma TakesAllOf(c: Primitive, a: Accounts, w: Walk, pending: seq<Transaction>, maxTxs: nat)
    requires Sound(c, a, w, maxTxs) && !w.full
    requires ApplyAll(c, a, w.selected + pending).Ok? && |w.selected + pending| <= maxTxs
    ensures TakeFrom(c, w, pending, maxTxs)
      == Walk(ApplyAll(c, a, w.selected + pending).value, w.selected + pending, false)
  {
    hide TakeFrom, ApplyTx;
    var all := w.selected + pending;
    var k := TakeFromPrefix(c, a, w, pending, maxTxs);
    if k < |pending| {
      var m := |w.selected| + k;
      assert all[..m] == w.selected + pending[..k];
      assert all[..m + 1][..m] == all[..m] && all[..m + 1][m] == pending[k];
      var met := TakeFrom(c, w, pending, maxTxs).shadow;
      assert ApplyAll(c, a, all[..m]) == Ok(met) && ApplyTx(c, met, all[..m + 1][m]).Err?;
      assert ApplyAll(c, a, all[..m + 1]).Err?;
      ApplyAllStopsAt(c, a, all, m + 1);
    } else {
      assert pending[..k] == pending;
    }
  }

  /** The ledger has already passed this nonce. */
  ghost predicate IsStale(a: Accounts, s: Slot) {
    s.nonce < Get(a, s.sender).nonce
  }

  /** No pending transaction is behind its sender's nonce. */
  ghost predicate Fresh(pool: Pending, a: Accounts) {
    forall s :: s in pool ==> !IsStale(a, s)
  }

  function Hashes(c: Primitive, txs: seq<Transaction>): set<Digest> {
    set tx | tx in txs :: TxHash(c, tx)
  }

  /** Applying what the builder selected, and dropping it from the pool, keeps the pool fresh. */
  lemma BuildingKeepsFresh(c: Primitive, a: Accounts, pool: Pending, order: seq<Address>, maxTxs: nat)
    requires PoolOk(c, pool) && Distinct(order) && Fresh(pool, a)
    ensures var w := WalkSenders(c, a, pool, order, maxTxs);
      Fresh(Without(c, pool, Hashes(c, w.selected)), w.shadow)
  {
    var w := WalkSenders(c, a, pool, order, maxTxs);
    var left := Without(c, pool, Hashes(c, w.selected));
    forall s | s in left ensures !IsStale(w.shadow, s) {
      RemainingIsFresh(c, a, pool, order, maxTxs, s);
    }
  }

  lemma NotSelectedIsBeyond(c: Primitive, selected: seq<Transaction>, pool: Pending, s: Slot) returns (j: nat)
    requires PoolOk(c, pool) && s in pool && TxHash(c, pool[s]) !in Hashes(c, selected)
    requires OnlyFrom(selected, s.sender) <= PendingFrom(pool, s.sender)
    ensures |OnlyFrom(selected, s.sender)| <= j < |PendingFrom(pool, s.sender)|
    ensures PendingFrom(pool, s.sender)[j] == pool[s]
  {
    hide TxHash, SignatureValid, PendingFrom, OnlyFrom;
    var tx := pool[s];
    PendingFromSorted(c, pool, s.sender);
    assert tx in pool.Values && tx.from == s.sender;
    j :| 0 <= j < |PendingFrom(pool, s.sender)| && PendingFrom(pool, s.sender)[j] == tx;
    if j < |OnlyFrom(selected, s.sender)| {
      assert tx == OnlyFrom(selected, s.sender)[j];
      OnlyFromMember(selected, tx);
      assert false;
    }
  }

  lemma RemainingIsFresh(c: Primitive, a: Accounts, pool: Pending, order: seq<Address>, maxTxs: nat, s: Slot)
    requires PoolOk(c, pool) && Distinct(order) && Fresh(pool, a)
    requires s in pool && TxHash(c, pool[s]) !in Hashes(c, Selection(c, a, pool, order, maxTxs))
    ensures !IsStale(WalkSenders(c, a, pool, order, maxTxs).shadow, s)
  {
    hide TxHash, SignatureValid, PendingFrom, ApplyAll, WalkSenders, OnlyFrom, Hashes;
    var selected := Selection(c, a, pool, order, maxTxs);
    var own, pending := OnlyFrom(selected, s.sender), PendingFrom(pool, s.sender);
    BuilderSound(c, a, pool, order, maxTxs);
    SenderNonces(c, a, selected, s.sender);
    SelectionShape(c, a, pool, order, maxTxs, s.sender);
    var j := NotSelectedIsBeyond(c, selected, pool, s);
    if |own| > 0 {
      PendingFromSorted(c, pool, s.sender);
      assert own[|own| - 1] == pending[|own| - 1];
      assert pending[|own| - 1].nonce < pending[j].nonce;
    }
  }

  lemma {:induction false} FullStays(c: Primitive, a: Accounts, pool: Pending, order: seq<Address>, maxTxs: nat, n: nat)
    requires n <= |order| && WalkSenders(c, a, pool, order[..n], maxTxs).full
    ensures WalkSenders(c, a, pool, order, maxTxs) == WalkSenders(c, a, pool, order[..n], maxTxs)
    decreases |order| - n
  {
    if n == |order| {
      assert order[..n] == order;
    } else {
      assert order[..n + 1][..n] == order[..n];
      FullStays(c, a, pool, order, maxTxs, n + 1);
    }
  }

  function BuiltBlock(c: Primitive, parent: Block, timestamp: U64, key: SigningKey, selected: TxList): Block {
    NewBlock(c, Wrap(parent.header.height + 1), BlockHash(c, parent), timestamp, PublicKey(c, key), selected)
  }

  /** The nested loops. */
  method SelectTxs(c: Primitive, maxTxs: U64, mempool: Mempool, state: StateStore)
      returns (selected: TxList, ghost order: seq<Address>)
    requires mempool.Valid(c)
    ensures IsOrder(order, SendersOf(mempool.contents))
    ensures selected == Selection(c, state.accounts, mempool.contents, order, maxTxs)
  {
    hide IsOrder, PendingFrom, TakeFrom, WalkSenders, ApplyTx, SendersOf, PoolOk, IsHashIndex, SenderIndex;
    var shadow := new StateStore.Clone(state);
    var picked: seq<Transaction> := [];
    var senders := mempool.Senders(c);
    order := senders;
    ghost var a, pool := state.accounts, mempool.contents;
    var i := 0;
    assert senders[..0] == [];
    WalkNothing(c, a, pool, maxTxs);
    label outer:
    while i < |senders|
      invariant 0 <= i <= |senders| && fresh(shadow) && |picked| <= maxTxs
      invariant WalkSenders(c, a, pool, senders[..i], maxTxs) == Walk(shadow.accounts, picked, false)
      decreases |senders| - i
    {
      WalkOne(c, a, pool, senders, i, maxTxs);
      var pending := mempool.PendingOf(c, senders[i]);
      ghost var goal := WalkSenders(c, a, pool, senders[..i + 1], maxTxs);
      assert pending[0..] == pending;
      var j := 0;
      while j < |pending|
        invariant 0 <= j <= |pending| && fresh(shadow) && |picked| <= maxTxs
        invariant TakeFrom(c, Walk(shadow.accounts, picked, false), pending[j..], maxTxs) == goal
      {
        TakeOne(c, Walk(shadow.accounts, picked, false), pending, j, maxTxs);
        if |picked| >= maxTxs {
          FullStays(c, a, pool, senders, maxTxs, i + 1);
          assert picked == Selection(c, a, pool, senders, maxTxs);
          break outer;
        }
        var applied := shadow.ApplyTransaction(c, pending[j]);
        if applied.Err? {
          assert goal == Walk(shadow.accounts, picked, false);
          break;
        }
        picked := picked + [pending[j]];
        j := j + 1;
      }
      assert j == |pending| ==> pending[j..] == [];
      TakeNothing(c, Walk(shadow.accounts, picked, false), maxTxs);
      i := i + 1;
    }
    assert i == |senders| ==> senders[..i] == senders;
    selected := picked;
  }

  method BuildBlock(c: Primitive, parent: Block, timestamp: U64, key: SigningKey, maxTxs: U64,
      mempool: Mempool, state: StateStore)
      returns (sb: SignedBlock, ghost order: seq<Address>)
    requires mempool.Valid(c)
    ensures IsOrder(order, SendersOf(mempool.contents))
    ensures var selected := Selection(c, state.accounts, mempool.contents, order, maxTxs);
      |selected| <= maxTxs && sb.block == BuiltBlock(c, parent, timestamp, key, selected)
    ensures sb.signature == Sign(c, key, BlockHash(c, sb.block))
  {
    hide IsOrder, TxRoot, BlockHash, WalkSenders, SendersOf, Sign, PublicKey, PoolOk, IsHashIndex, SenderIndex;
    var selected: TxList;
    selected, order := SelectTxs(c, maxTxs, mempool, state);
    BuilderSound(c, state.accounts, mempool.contents, order, maxTxs);
    var root := ComputeTxRoot(c, selected);
    var header := Header(Wrap(parent.header.height + 1), BlockHash(c, parent), root, timestamp, PublicKey(c, key));
    var block := Block(header, selected);
    sb := SignedBlock(block, Sign(c, key, BlockHash(c, block)));
  }
}

/** Who can move funds: only the holder of an address's key, in every run. Validity is spelled out here in
    terms of the signature scheme itself (crates/types/src/transaction.rs:82-93). */
module Authority {
  import opened Primitives
  import opened Crypto
  import opened Transactions
  import opened State
  import opened LedgerLaws
  import opened Pool
  import opened Actor
  import opened Runs

  /** Everything that took effect carries a signature that verifies under the sender's address. */
  lemma ExecutedAreSigned(c: Primitive, key: SigningKey, s: AppState, events: seq<Event>, tx: Transaction)
    requires tx in History(c, key, s, events)
    ensures tx.signature.Some? && c.verifies(tx.from, PurePayload(tx), tx.signature.value)
  {
    hide ApplyAll, History, Exec, Sum, Get, PurePayload;
    var h := History(c, key, s, events);
    LedgerIsReplay(c, key, s, events);
    AcceptedIff(c, s.accounts, h);
    var i: nat :| i < |h| && h[i] == tx;
    assert AcceptableAt(c, s.accounts, h, i);
  }

  /** So does everything pending, in the slot of its own sender and nonce, and it moves something. */
  lemma PendingAreSigned(c: Primitive, key: SigningKey, s: AppState, events: seq<Event>, slot: Slot)
    requires AppOk(c, s) && slot in Exec(c, key, s, events).pool
    ensures var tx := Exec(c, key, s, events).pool[slot];
      && tx.from == slot.sender && tx.nonce == slot.nonce && tx.amount > 0
      && tx.signature.Some? && c.verifies(tx.from, PurePayload(tx), tx.signature.value)
  {
    hide Exec, PendingOk, TxHash, PurePayload;
    RunKeepsOk(c, key, s, events);
  }

  /** A body with a transaction that its sender's address does not verify is never committed, wherever the
      transaction stands in it. */
  lemma ForgedBodyRejected(c: Primitive, s: AppState, d: Digest, tx: Transaction)
    requires d in s.pending && tx in s.pending[d].transactions
    requires tx.signature.Some? ==> !c.verifies(tx.from, PurePayload(tx), tx.signature.value)
    ensures Committed(c, s, d).Err? && AfterFinalize(c, s, d) == s.(pending := s.pending - {d})
  {
    hide ApplyAll, Sum, Get, PurePayload;
    var txs := s.pending[d].transactions;
    AcceptedIff(c, s.accounts, txs);
    var i: nat :| i < |txs| && txs[i] == tx;
    assert !AcceptableAt(c, s.accounts, txs, i);
  }

  /** An address under which nothing verifies is safe: in every run its nonce stays, its balance never
      falls, nothing of it takes effect, and nothing of it is pending. */
  lemma UnspendableAccount(c: Primitive, key: SigningKey, s: AppState, events: seq<Event>, who: Address)
    requires forall message, signature :: !c.verifies(who, message, signature)
    ensures var t := Exec(c, key, s, events);
      && Get(t.accounts, who).nonce == Get(s.accounts, who).nonce
      && Get(t.accounts, who).balance >= Get(s.accounts, who).balance
      && (forall tx :: tx in History(c, key, s, events) ==> tx.from != who)
      && (AppOk(c, s) ==> forall slot :: slot in t.pool ==> slot.sender != who)
  {
    hide ApplyAll, History, Exec, Get, PurePayload, AppOk;
    forall tx | tx in History(c, key, s, events) ensures tx.from != who {
      ExecutedAreSigned(c, key, s, events, tx);
    }
    LedgerIsReplay(c, key, s, events);
    BystanderGains(c, s.accounts, History(c, key, s, events), who);
    if AppOk(c, s) {
      forall slot | slot in Exec(c, key, s, events).pool ensures slot.sender != who {
        PendingAreSigned(c, key, s, events, slot);
      }
    }
  }
}

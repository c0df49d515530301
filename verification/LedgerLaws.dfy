/** What holds of every accepted list of transactions (crates/storage/src/state.rs:43-97). */
module LedgerLaws {
  import opened Primitives
  import opened Crypto
  import opened Transactions
  import opened Merkle
  import opened State

  /** A quantity to add up over a list of transactions. */
  datatype Tally = Sent(who: Address) | Received(who: Address) | Count(who: Address)

  function Weight(t: Tally, tx: Transaction): nat {
    match t
    case Sent(who) => if tx.from == who then tx.amount else 0
    case Received(who) => if tx.to == who then tx.amount else 0
    case Count(who) => if tx.from == who then 1 else 0
  }

  function Sum(t: Tally, txs: seq<Transaction>): nat {
    if txs == [] then 0 else Sum(t, txs[..|txs| - 1]) + Weight(t, txs[|txs| - 1])
  }

  function Touched(txs: seq<Transaction>): set<Address> {
    (set tx | tx in txs :: tx.from) + (set tx | tx in txs :: tx.to)
  }

  ghost predicate InClosedForm(a: Accounts, b: Accounts, txs: seq<Transaction>, who: Address) {
    && Get(b, who).balance == Get(a, who).balance + Sum(Received(who), txs) - Sum(Sent(who), txs)
    && Get(b, who).nonce == Wrap(Get(a, who).nonce + Sum(Count(who), txs))
  }

  /** One accepted transaction, in the same terms. */
  lemma StepClosedForm(c: Primitive, a: Accounts, tx: Transaction, who: Address)
    requires ApplyTx(c, a, tx).Ok?
    ensures InClosedForm(a, ApplyTx(c, a, tx).value, [tx], who)
    ensures ApplyTx(c, a, tx).value.Keys == a.Keys + {tx.from, tx.to}
  {
    hide SignatureValid;
    SumOne(Sent(who), tx);
    SumOne(Received(who), tx);
    SumOne(Count(who), tx);
  }

  lemma WrapAdd(m: nat, n: nat)
    ensures Wrap(Wrap(m) + n) == Wrap(m + n)
  {}

  lemma ClosedFormStep(a: Accounts, mid: Accounts, b: Accounts, txs: seq<Transaction>, who: Address)
    requires txs != [] && InClosedForm(a, mid, txs[..|txs| - 1], who)
    requires InClosedForm(mid, b, [txs[|txs| - 1]], who)
    ensures InClosedForm(a, b, txs, who)
  {
    var tx := txs[|txs| - 1];
    SumOne(Sent(who), tx);
    SumOne(Received(who), tx);
    SumOne(Count(who), tx);
    WrapAdd(Get(a, who).nonce + Sum(Count(who), txs[..|txs| - 1]), Weight(Count(who), tx));
  }

  lemma SumOne(t: Tally, tx: Transaction)
    ensures Sum(t, [tx]) == Weight(t, tx)
  {
    assert [tx][..0] == [];
  }

  lemma {:induction false} SumAppend(t: Tally, xs: seq<Transaction>, ys: seq<Transaction>)
    ensures Sum(t, xs + ys) == Sum(t, xs) + Sum(t, ys)
  {
    hide Weight;
    if ys == [] {
      assert xs + ys == xs;
    } else {
      assert (xs + ys)[..|xs + ys| - 1] == xs + ys[..|ys| - 1];
      SumAppend(t, xs, ys[..|ys| - 1]);
    }
  }

  lemma {:induction false} ClosedFormAt(c: Primitive, a: Accounts, txs: seq<Transaction>, who: Address)
    requires ApplyAll(c, a, txs).Ok?
    ensures InClosedForm(a, ApplyAll(c, a, txs).value, txs, who)
  {
    if txs != [] {
      var mid := ApplyAll(c, a, txs[..|txs| - 1]).value;
      ClosedFormAt(c, a, txs[..|txs| - 1], who);
      StepClosedForm(c, mid, txs[|txs| - 1], who);
      ClosedFormStep(a, mid, ApplyAll(c, a, txs).value, txs, who);
    }
  }

  lemma TouchedAppend(txs: seq<Transaction>)
    requires txs != []
    ensures var last := txs[|txs| - 1]; Touched(txs) == Touched(txs[..|txs| - 1]) + {last.from, last.to}
  {
    assert txs == txs[..|txs| - 1] + [txs[|txs| - 1]];
  }

  lemma {:induction false} AccountsTouched(c: Primitive, a: Accounts, txs: seq<Transaction>)
    requires ApplyAll(c, a, txs).Ok?
    ensures ApplyAll(c, a, txs).value.Keys == a.Keys + Touched(txs)
  {
    if txs != [] {
      var last := txs[|txs| - 1];
      AccountsTouched(c, a, txs[..|txs| - 1]);
      TouchedAppend(txs);
      StepClosedForm(c, ApplyAll(c, a, txs[..|txs| - 1]).value, last, last.from);
    }
  }

  /** Every balance and nonce after an accepted list, and which accounts exist. */
  lemma ClosedForm(c: Primitive, a: Accounts, txs: seq<Transaction>)
    requires ApplyAll(c, a, txs).Ok?
    ensures forall who :: InClosedForm(a, ApplyAll(c, a, txs).value, txs, who)
    ensures ApplyAll(c, a, txs).value.Keys == a.Keys + Touched(txs)
  {
    AccountsTouched(c, a, txs);
    forall who ensures InClosedForm(a, ApplyAll(c, a, txs).value, txs, who) {
      ClosedFormAt(c, a, txs, who);
    }
  }

  /** When transaction `i` of a list is acceptable, in terms of the initial accounts alone. */
  ghost predicate AcceptableAt(c: Primitive, a: Accounts, txs: seq<Transaction>, i: nat)
    requires i < |txs|
  {
    var tx, before := txs[i], txs[..i];
    && tx.signature.Some? && c.verifies(tx.from, PurePayload(tx), tx.signature.value)
    && tx.nonce == Wrap(Get(a, tx.from).nonce + Sum(Count(tx.from), before))
    && tx.amount + Sum(Sent(tx.from), before) <= Get(a, tx.from).balance + Sum(Received(tx.from), before)
    && (tx.from != tx.to ==>
      Get(a, tx.to).balance + Sum(Received(tx.to), before) + tx.amount <= U64_MAX + Sum(Sent(tx.to), before))
  }

  lemma AcceptableIffApplies(c: Primitive, a: Accounts, txs: seq<Transaction>, i: nat)
    requires i < |txs| && ApplyAll(c, a, txs[..i]).Ok?
    ensures AcceptableAt(c, a, txs, i) <==> ApplyTx(c, ApplyAll(c, a, txs[..i]).value, txs[i]).Ok?
  {
    var b := ApplyAll(c, a, txs[..i]).value;
    ClosedFormAt(c, a, txs[..i], txs[i].from);
    ClosedFormAt(c, a, txs[..i], txs[i].to);
  }

  lemma AcceptableInPrefix(c: Primitive, a: Accounts, txs: seq<Transaction>, n: nat, i: nat)
    requires i < n <= |txs|
    ensures AcceptableAt(c, a, txs[..n], i) <==> AcceptableAt(c, a, txs, i)
  {
    assert txs[..n][..i] == txs[..i];
  }

  /** A list is accepted exactly when each of its transactions is signed, carries the sender's next
      nonce, is covered by what the sender holds by then and does not overflow the receiver. */
  lemma {:induction false} AcceptedIff(c: Primitive, a: Accounts, txs: seq<Transaction>)
    ensures ApplyAll(c, a, txs).Ok? <==> forall i: nat :: i < |txs| ==> AcceptableAt(c, a, txs, i)
  {
    hide ApplyTx, AcceptableAt;
    if txs != [] {
      var n := |txs| - 1;
      var front := txs[..n];
      AcceptedIff(c, a, front);
      forall i: nat | i < n ensures AcceptableAt(c, a, front, i) <==> AcceptableAt(c, a, txs, i) {
        AcceptableInPrefix(c, a, txs, n, i);
      }
      if ApplyAll(c, a, front).Ok? {
        AcceptableIffApplies(c, a, txs, n);
      } else {
        var i: nat :| i < n && !AcceptableAt(c, a, front, i);
        assert !AcceptableAt(c, a, txs, i);
      }
    }
  }

  /** Which transaction a rejected list fails on, and with which error, in terms of the initial accounts:
      the first unacceptable one, for the first of its four conditions that fails. */
  lemma RejectedWith(c: Primitive, a: Accounts, txs: seq<Transaction>) returns (i: nat)
    requires ApplyAll(c, a, txs).Err?
    ensures i < |txs| && !AcceptableAt(c, a, txs, i) && forall j: nat :: j < i ==> AcceptableAt(c, a, txs, j)
    ensures var tx, before := txs[i], txs[..i];
      var nonce := Wrap(Get(a, tx.from).nonce + Sum(Count(tx.from), before));
      var funds := Get(a, tx.from).balance + Sum(Received(tx.from), before) - Sum(Sent(tx.from), before);
      var signed := tx.signature.Some? && c.verifies(tx.from, PurePayload(tx), tx.signature.value);
      match ApplyAll(c, a, txs).error
      case InvalidSignature => !signed
      case InvalidNonce(expected, got) => signed && expected == nonce && got == tx.nonce && nonce != tx.nonce
      case InsufficientBalance(have, need) =>
        signed && nonce == tx.nonce && have == funds && need == tx.amount && funds < tx.amount
      case BalanceOverflow => signed && nonce == tx.nonce && funds >= tx.amount && tx.from != tx.to
  {
    hide AcceptableAt, ApplyTx, PurePayload, Get, Sum;
    assert txs[..|txs|] == txs;
    i := FirstRejected(c, a, txs, |txs|);
    assert txs[..i + 1][..i] == txs[..i];
    AcceptedIff(c, a, txs[..i]);
    forall j: nat | j < i ensures AcceptableAt(c, a, txs, j) {
      AcceptableInPrefix(c, a, txs, i, j);
    }
    AcceptableIffApplies(c, a, txs, i);
    ApplyAllStopsAt(c, a, txs, i + 1);
    ClosedFormAt(c, a, txs[..i], txs[i].from);
    RejectedTx(c, ApplyAll(c, a, txs[..i]).value, txs[i]);
  }

  lemma {:induction false} FirstRejected(c: Primitive, a: Accounts, txs: seq<Transaction>, n: nat) returns (i: nat)
    requires n <= |txs| && ApplyAll(c, a, txs[..n]).Err?
    ensures i < n && ApplyAll(c, a, txs[..i]).Ok? && ApplyAll(c, a, txs[..i + 1]).Err?
  {
    hide ApplyTx;
    assert txs[..n][..|txs[..n]| - 1] == txs[..n - 1];
    if ApplyAll(c, a, txs[..n - 1]).Ok? {
      i := n - 1;
    } else {
      i := FirstRejected(c, a, txs, n - 1);
    }
  }

  /** The error of one rejected transaction, from the accounts it meets. */
  lemma RejectedTx(c: Primitive, a: Accounts, tx: Transaction)
    requires ApplyTx(c, a, tx).Err?
    ensures var sender := Get(a, tx.from);
      var signed := tx.signature.Some? && c.verifies(tx.from, PurePayload(tx), tx.signature.value);
      match ApplyTx(c, a, tx).error
      case InvalidSignature => !signed
      case InvalidNonce(expected, got) =>
        signed && expected == sender.nonce && got == tx.nonce && sender.nonce != tx.nonce
      case InsufficientBalance(have, need) =>
        signed && sender.nonce == tx.nonce && have == sender.balance && need == tx.amount && sender.balance < tx.amount
      case BalanceOverflow =>
        signed && sender.nonce == tx.nonce && sender.balance >= tx.amount && tx.from != tx.to
  {
    hide PurePayload;
  }

  /** What a holder of a key can do: a transfer it signs is accepted if and only if it carries the account's
      nonce, is covered and does not overflow the receiver; then it moves the amount. */
  lemma SignedTransfer(c: Primitive, a: Accounts, key: SigningKey, to: Address, amount: U64, nonce: U64)
    requires SignaturesCorrect(c)
    ensures var who, r := c.publicKey(key), ApplyTx(c, a, Signed(c, key, to, amount, nonce));
      && (r.Ok? <==> && nonce == Get(a, who).nonce && amount <= Get(a, who).balance
                     && (to != who ==> Get(a, to).balance + amount <= U64_MAX))
      && (r.Ok? && to != who ==>
        && Get(r.value, who) == Account(Get(a, who).balance - amount, Wrap(nonce + 1))
        && Get(r.value, to) == Account(Get(a, to).balance + amount, Get(a, to).nonce))
      && (r.Ok? && to == who ==> Get(r.value, who) == Account(Get(a, who).balance, Wrap(nonce + 1)))
  {
    hide PurePayload, SignatureValid;
  }

  // ----- missing accounts -----

  /** The getters cannot tell `a` and `b` apart: they differ at most in default entries. */
  ghost predicate ReadAlike(a: Accounts, b: Accounts) {
    forall who :: Get(a, who) == Get(b, who)
  }

  /** A missing account is a default account: ledgers that read alike accept the same lists, reject the
      others with the same error, and go on reading alike. */
  lemma {:induction false} MissingIsDefault(c: Primitive, a: Accounts, b: Accounts, txs: seq<Transaction>)
    requires ReadAlike(a, b)
    ensures match ApplyAll(c, a, txs)
      case Ok(a') => ApplyAll(c, b, txs).Ok? && ReadAlike(a', ApplyAll(c, b, txs).value)
      case Err(e) => ApplyAll(c, b, txs) == Err(e)
  {
    if txs != [] {
      hide ApplyTx, ReadAlike;
      var front, last := txs[..|txs| - 1], txs[|txs| - 1];
      MissingIsDefault(c, a, b, front);
      if ApplyAll(c, a, front).Ok? {
        ReadAlikeStep(c, ApplyAll(c, a, front).value, ApplyAll(c, b, front).value, last);
      }
    }
  }

  lemma ReadAlikeStep(c: Primitive, a: Accounts, b: Accounts, tx: Transaction)
    requires ReadAlike(a, b)
    ensures match ApplyTx(c, a, tx)
      case Ok(a') => ApplyTx(c, b, tx).Ok? && ReadAlike(a', ApplyTx(c, b, tx).value)
      case Err(e) => ApplyTx(c, b, tx) == Err(e)
  {
    hide SignatureValid;
    assert Get(a, tx.from) == Get(b, tx.from) && Get(a, tx.to) == Get(b, tx.to);
    if ApplyTx(c, a, tx).Ok? {
      var a', b' := ApplyTx(c, a, tx).value, ApplyTx(c, b, tx).value;
      forall who ensures Get(a', who) == Get(b', who) {
        assert Get(a, who) == Get(b, who);
      }
    }
  }

  // ----- equal ledgers -----

  /** The two lists move the same net amount for `who` and use the same number of its nonces, modulo
      the width of a nonce. */
  ghost predicate SameEffectOn(xs: seq<Transaction>, ys: seq<Transaction>, who: Address) {
    && Sum(Received(who), xs) - Sum(Sent(who), xs) == Sum(Received(who), ys) - Sum(Sent(who), ys)
    && Wrap(Sum(Count(who), xs)) == Wrap(Sum(Count(who), ys))
  }

  ghost predicate SameEffect(a: Accounts, xs: seq<Transaction>, ys: seq<Transaction>) {
    && a.Keys + Touched(xs) == a.Keys + Touched(ys)
    && forall who :: SameEffectOn(xs, ys, who)
  }

  lemma WrapCancels(start: nat, m: nat, n: nat)
    ensures Wrap(start + m) == Wrap(start + n) <==> Wrap(m) == Wrap(n)
  {}

  lemma SameAccountIff(c: Primitive, a: Accounts, xs: seq<Transaction>, ys: seq<Transaction>, who: Address)
    requires ApplyAll(c, a, xs).Ok? && ApplyAll(c, a, ys).Ok?
    ensures Get(ApplyAll(c, a, xs).value, who) == Get(ApplyAll(c, a, ys).value, who) <==> SameEffectOn(xs, ys, who)
  {
    hide ApplyAll, Sum, Get;
    ClosedFormAt(c, a, xs, who);
    ClosedFormAt(c, a, ys, who);
    WrapCancels(Get(a, who).nonce, Sum(Count(who), xs), Sum(Count(who), ys));
  }

  /** Two accepted lists lead to the same account map if and only if they touch the same new accounts
      and have the same effect on every address. */
  lemma SameLedgerIff(c: Primitive, a: Accounts, xs: seq<Transaction>, ys: seq<Transaction>)
    requires ApplyAll(c, a, xs).Ok? && ApplyAll(c, a, ys).Ok?
    ensures ApplyAll(c, a, xs) == ApplyAll(c, a, ys) <==> SameEffect(a, xs, ys)
  {
    hide ApplyAll, SameEffectOn, Touched;
    var b, d := ApplyAll(c, a, xs).value, ApplyAll(c, a, ys).value;
    AccountsTouched(c, a, xs);
    AccountsTouched(c, a, ys);
    forall who ensures Get(b, who) == Get(d, who) <==> SameEffectOn(xs, ys, who) {
      SameAccountIff(c, a, xs, ys, who);
    }
    if SameEffect(a, xs, ys) {
      forall who | who in b ensures b[who] == d[who] {
        assert SameEffectOn(xs, ys, who);
      }
      assert b == d;
    }
  }

  // ----- order independence -----

  lemma {:induction false} SumRemove(t: Tally, txs: seq<Transaction>, i: nat)
    requires i < |txs|
    ensures Sum(t, txs) == Sum(t, txs[..i] + txs[i + 1..]) + Weight(t, txs[i])
  {
    hide Weight;
    var n := |txs| - 1;
    if i == n {
      assert txs[..i] + txs[i + 1..] == txs[..n];
    } else {
      var rest := txs[..i] + txs[i + 1..];
      SumRemove(t, txs[..n], i);
      assert rest[..n - 1] == txs[..n][..i] + txs[..n][i + 1..];
      assert rest[n - 1] == txs[n];
    }
  }

  lemma RemoveOne(xs: seq<Transaction>, ys: seq<Transaction>) returns (i: nat)
    requires xs != [] && multiset(xs) == multiset(ys)
    ensures i < |ys| && ys[i] == xs[|xs| - 1]
    ensures multiset(xs[..|xs| - 1]) == multiset(ys[..i] + ys[i + 1..])
  {
    var last := xs[|xs| - 1];
    assert xs == xs[..|xs| - 1] + [last];
    assert last in multiset(ys);
    i :| i < |ys| && ys[i] == last;
    assert ys == ys[..i] + [last] + ys[i + 1..];
    assert multiset(ys[..i] + ys[i + 1..]) == multiset(ys[..i]) + multiset(ys[i + 1..]);
    var A, B, C := multiset(xs[..|xs| - 1]), multiset(ys[..i]), multiset(ys[i + 1..]);
    assert A + multiset{last} == multiset(xs) == multiset(ys) == B + multiset{last} + C;
    assert A == (A + multiset{last}) - multiset{last};
    assert B + C == (B + multiset{last} + C) - multiset{last};
  }

  lemma {:induction false} SumPermutation(t: Tally, xs: seq<Transaction>, ys: seq<Transaction>)
    requires multiset(xs) == multiset(ys)
    ensures Sum(t, xs) == Sum(t, ys)
  {
    hide Weight;
    if xs == [] {
      assert |multiset(xs)| == |xs| && |multiset(ys)| == |ys|;
    } else {
      var i := RemoveOne(xs, ys);
      SumRemove(t, ys, i);
      SumPermutation(t, xs[..|xs| - 1], ys[..i] + ys[i + 1..]);
    }
  }

  lemma TouchedPermutation(xs: seq<Transaction>, ys: seq<Transaction>)
    requires multiset(xs) == multiset(ys)
    ensures Touched(xs) == Touched(ys)
  {
    forall tx ensures tx in xs <==> tx in ys {
      assert tx in xs <==> tx in multiset(xs);
      assert tx in ys <==> tx in multiset(ys);
    }
  }

  /** Two accepted orders of the same transactions lead to the same account map. */
  lemma OrderIndependence(c: Primitive, a: Accounts, xs: seq<Transaction>, ys: seq<Transaction>)
    requires multiset(xs) == multiset(ys)
    requires ApplyAll(c, a, xs).Ok? && ApplyAll(c, a, ys).Ok?
    ensures ApplyAll(c, a, xs) == ApplyAll(c, a, ys)
  {
    hide ApplyAll, Sum, Touched;
    TouchedPermutation(xs, ys);
    forall who ensures SameEffectOn(xs, ys, who) {
      SumPermutation(Sent(who), xs, ys);
      SumPermutation(Received(who), xs, ys);
      SumPermutation(Count(who), xs, ys);
    }
    SameLedgerIff(c, a, xs, ys);
  }

  // ----- nonces -----

  lemma {:induction false} SumBounds(t: Tally, txs: seq<Transaction>, i: nat, j: nat)
    requires i <= j <= |txs|
    ensures Sum(t, txs[..i]) <= Sum(t, txs[..j])
    ensures t.Count? ==> Sum(t, txs[..j]) - Sum(t, txs[..i]) <= j - i
    decreases j - i
  {
    if i < j {
      SumBounds(t, txs, i, j - 1);
      assert txs[..j][..j - 1] == txs[..j - 1];
    }
  }

  /** The next nonce rule over a whole list: the sender's transactions use consecutive nonces, in order. */
  lemma NonceAt(c: Primitive, a: Accounts, txs: seq<Transaction>, i: nat)
    requires ApplyAll(c, a, txs).Ok? && i < |txs|
    ensures txs[i].nonce == Wrap(Get(a, txs[i].from).nonce + Sum(Count(txs[i].from), txs[..i]))
  {
    hide ApplyAll;
    AcceptedIff(c, a, txs);
    assert AcceptableAt(c, a, txs, i);
  }

  lemma WrapInjective(start: nat, m: nat, n: nat)
    requires m < n < m + U64_LIMIT
    ensures Wrap(start + m) != Wrap(start + n)
  {}

  lemma CountGrows(txs: seq<Transaction>, i: nat, j: nat)
    requires i < j < |txs| && txs[i].from == txs[j].from
    ensures var t := Count(txs[i].from);
      Sum(t, txs[..i]) < Sum(t, txs[..j]) <= Sum(t, txs[..i]) + (j - i)
  {
    assert txs[..i + 1][..i] == txs[..i];
    SumBounds(Count(txs[i].from), txs, i + 1, j);
    SumBounds(Count(txs[i].from), txs, i, j);
  }

  /** No sender uses a nonce twice in an accepted list, as long as it does not exhaust the nonces. */
  lemma NoncesDistinct(c: Primitive, a: Accounts, txs: seq<Transaction>, i: nat, j: nat)
    requires ApplyAll(c, a, txs).Ok? && i < j < |txs|
    requires Sum(Count(txs[i].from), txs) <= U64_LIMIT
    ensures txs[i].from == txs[j].from ==> txs[i].nonce != txs[j].nonce
  {
    hide ApplyAll, Sum, Get;
    if txs[i].from == txs[j].from {
      var t := Count(txs[i].from);
      NonceAt(c, a, txs, i);
      NonceAt(c, a, txs, j);
      CountGrows(txs, i, j);
      CountStays(txs, j);
      WrapInjective(Get(a, txs[i].from).nonce, Sum(t, txs[..i]), Sum(t, txs[..j]));
    }
  }

  lemma CountStays(txs: seq<Transaction>, j: nat)
    requires j < |txs|
    ensures Sum(Count(txs[j].from), txs[..j]) < Sum(Count(txs[j].from), txs)
  {
    assert txs[..j + 1][..j] == txs[..j];
    assert txs[..|txs|] == txs;
    SumBounds(Count(txs[j].from), txs, j + 1, |txs|);
  }

  lemma CountBounded(txs: seq<Transaction>, who: Address)
    ensures Sum(Count(who), txs) <= |txs|
  {
    assert txs[..|txs|] == txs;
    SumBounds(Count(who), txs, 0, |txs|);
  }

  lemma AcceptedDistinct(c: Primitive, a: Accounts, txs: TxList)
    requires ApplyAll(c, a, txs).Ok?
    ensures Distinct(txs)
  {
    forall i, j | 0 <= i < j < |txs| ensures txs[i] != txs[j] {
      CountBounded(txs, txs[i].from);
      NoncesDistinct(c, a, txs, i, j);
    }
  }

  /** Merkle binding on accepted bodies: each list was accepted from some state, nothing else is known. */
  lemma AcceptedBodiesBound(c: Primitive, a: Accounts, xs: TxList, b: Accounts, ys: TxList)
    requires ApplyAll(c, a, xs).Ok? && ApplyAll(c, b, ys).Ok?
    requires TxRoot(c, xs) == TxRoot(c, ys)
    ensures xs == ys || Broken(c, RootPreimages(c, xs) + RootPreimages(c, ys))
  {
    AcceptedDistinct(c, a, xs);
    AcceptedDistinct(c, b, ys);
    RootBindsDistinct(c, xs, ys);
  }

  /** The transactions of one sender, in the order of the list. */
  function OnlyFrom(txs: seq<Transaction>, who: Address): seq<Transaction> {
    if txs == [] then [] else
    var rest := OnlyFrom(txs[..|txs| - 1], who);
    if txs[|txs| - 1].from == who then rest + [txs[|txs| - 1]] else rest
  }

  lemma {:induction false} OnlyFromAppend(xs: seq<Transaction>, ys: seq<Transaction>, who: Address)
    ensures OnlyFrom(xs + ys, who) == OnlyFrom(xs, who) + OnlyFrom(ys, who)
  {
    if ys == [] {
      assert xs + ys == xs;
    } else {
      assert (xs + ys)[..|xs + ys| - 1] == xs + ys[..|ys| - 1];
      OnlyFromAppend(xs, ys[..|ys| - 1], who);
    }
  }

  lemma {:induction false} OnlyFromSame(txs: seq<Transaction>, sender: Address, who: Address)
    requires forall tx :: tx in txs ==> tx.from == sender
    ensures OnlyFrom(txs, who) == if sender == who then txs else []
  {
    if txs != [] {
      assert txs == txs[..|txs| - 1] + [txs[|txs| - 1]];
      OnlyFromSame(txs[..|txs| - 1], sender, who);
    }
  }

  lemma {:induction false} OnlyFromMember(txs: seq<Transaction>, tx: Transaction)
    ensures tx in OnlyFrom(txs, tx.from) <==> tx in txs
  {
    if txs != [] {
      assert txs == txs[..|txs| - 1] + [txs[|txs| - 1]];
      OnlyFromMember(txs[..|txs| - 1], tx);
    }
  }

  /** The k-th transaction a sender gets accepted carries the k-th nonce after its starting one. */
  lemma {:induction false} SenderNonces(c: Primitive, a: Accounts, txs: seq<Transaction>, who: Address)
    requires ApplyAll(c, a, txs).Ok?
    ensures var own := OnlyFrom(txs, who);
      && |own| == Sum(Count(who), txs)
      && (forall k :: 0 <= k < |own| ==> own[k].nonce == Wrap(Get(a, who).nonce + k))
      && Get(ApplyAll(c, a, txs).value, who).nonce == Wrap(Get(a, who).nonce + |own|)
  {
    hide Get, ApplyTx;
    if txs == [] {
      WrapAdd(Get(a, who).nonce, 0);
    } else {
      var n := |txs| - 1;
      SenderNonces(c, a, txs[..n], who);
      ClosedFormAt(c, a, txs, who);
      NonceAt(c, a, txs, n);
    }
  }

  /** No (sender, nonce) occurs twice. */
  ghost predicate NoReuse(txs: seq<Transaction>) {
    forall i, j :: 0 <= i < j < |txs| ==> txs[i].from != txs[j].from || txs[i].nonce != txs[j].nonce
  }

  /** Where two of a sender's transactions stand in the whole list. */
  lemma {:induction false} OnlyFromPositions(txs: seq<Transaction>, who: Address, k: nat, l: nat)
      returns (i: nat, j: nat)
    requires k < l < |OnlyFrom(txs, who)|
    ensures i < j < |txs| && txs[i] == OnlyFrom(txs, who)[k] && txs[j] == OnlyFrom(txs, who)[l]
  {
    var front := txs[..|txs| - 1];
    if l < |OnlyFrom(front, who)| {
      i, j := OnlyFromPositions(front, who, k, l);
    } else {
      i := OnlyFromPosition(front, who, k);
      j := |txs| - 1;
    }
  }

  lemma {:induction false} OnlyFromPosition(txs: seq<Transaction>, who: Address, k: nat) returns (i: nat)
    requires k < |OnlyFrom(txs, who)|
    ensures i < |txs| && txs[i] == OnlyFrom(txs, who)[k]
  {
    var front := txs[..|txs| - 1];
    if k < |OnlyFrom(front, who)| {
      i := OnlyFromPosition(front, who, k);
    } else {
      i := |txs| - 1;
    }
  }

  lemma {:induction false} OnlyFromCounts(txs: seq<Transaction>, who: Address)
    ensures |OnlyFrom(txs, who)| == Sum(Count(who), txs)
  {
    if txs != [] {
      OnlyFromCounts(txs[..|txs| - 1], who);
    }
  }

  lemma OnlyFromOwn(txs: seq<Transaction>, who: Address, k: nat)
    requires k < |OnlyFrom(txs, who)|
    ensures OnlyFrom(txs, who)[k].from == who
  {
    OnlyFromAllOwn(txs, who);
  }

  lemma {:induction false} OnlyFromAllOwn(txs: seq<Transaction>, who: Address)
    ensures forall tx :: tx in OnlyFrom(txs, who) ==> tx.from == who
  {
    if txs != [] {
      OnlyFromAllOwn(txs[..|txs| - 1], who);
    }
  }

  /** A sender past the nonce space reuses one: its first and its 2^64-th further nonce agree. */
  lemma ExhaustedReuses(c: Primitive, a: Accounts, txs: seq<Transaction>, who: Address)
    requires ApplyAll(c, a, txs).Ok? && |OnlyFrom(txs, who)| > U64_LIMIT
    ensures !NoReuse(txs)
  {
    hide ApplyAll, OnlyFrom, Get;
    SenderNonces(c, a, txs, who);
    OnlyFromOwn(txs, who, 0);
    OnlyFromOwn(txs, who, U64_LIMIT);
    var i, j := OnlyFromPositions(txs, who, 0, U64_LIMIT);
    assert txs[i].nonce == Wrap(Get(a, who).nonce) && txs[j].nonce == Wrap(Get(a, who).nonce + U64_LIMIT);
  }

  /** An accepted list uses no (sender, nonce) twice if and only if no sender exhausts the nonces. */
  lemma NoReuseIff(c: Primitive, a: Accounts, txs: seq<Transaction>)
    requires ApplyAll(c, a, txs).Ok?
    ensures NoReuse(txs) <==> forall who :: |OnlyFrom(txs, who)| <= U64_LIMIT
  {
    hide ApplyAll, OnlyFrom;
    if who :| |OnlyFrom(txs, who)| > U64_LIMIT {
      ExhaustedReuses(c, a, txs, who);
    } else {
      forall i, j | 0 <= i < j < |txs| ensures txs[i].from != txs[j].from || txs[i].nonce != txs[j].nonce {
        OnlyFromCounts(txs, txs[i].from);
        NoncesDistinct(c, a, txs, i, j);
      }
    }
  }

  /** After an accepted list `h`, a list whose i-th transaction reuses a (sender, nonce) of `h` is
      rejected, as long as that sender has nonces left for both. */
  lemma ReuseRejected(c: Primitive, a: Accounts, h: seq<Transaction>, txs: seq<Transaction>, n: nat, i: nat)
    requires ApplyAll(c, a, h).Ok? && n < |h| && i < |txs|
    requires h[n].from == txs[i].from && h[n].nonce == txs[i].nonce
    requires |OnlyFrom(h, txs[i].from)| + |OnlyFrom(txs[..i + 1], txs[i].from)| <= U64_LIMIT
    ensures ApplyAll(c, ApplyAll(c, a, h).value, txs).Err?
  {
    hide ApplyAll, OnlyFrom, Sum;
    var b := ApplyAll(c, a, h).value;
    var upto := txs[..i + 1];
    var who := txs[i].from;
    if ApplyAll(c, b, upto).Ok? {
      ApplyAllAppend(c, a, h, upto);
      OnlyFromAppend(h, upto, who);
      OnlyFromCounts(h + upto, who);
      assert (h + upto)[n] == h[n] && (h + upto)[|h| + i] == txs[i];
      NoncesDistinct(c, a, h + upto, n, |h| + i);
    } else {
      ApplyAllStopsAt(c, b, txs, i + 1);
    }
  }

  /** A list with a nonce below its sender's is rejected wherever that transaction stands, as long as
      the sender's nonces before it do not run all the way round. */
  lemma StaleRejected(c: Primitive, a: Accounts, txs: seq<Transaction>, i: nat)
    requires i < |txs| && txs[i].nonce < Get(a, txs[i].from).nonce
    requires Get(a, txs[i].from).nonce + Sum(Count(txs[i].from), txs[..i]) < U64_LIMIT + txs[i].nonce
    ensures ApplyAll(c, a, txs).Err?
  {
    hide ApplyAll, Get;
    if ApplyAll(c, a, txs).Ok? {
      NonceAt(c, a, txs, i);
    }
  }

  // ----- supply -----

  ghost function Supply(a: Accounts): nat {
    if a == map[] then 0 else
    var who :| who in a;
    a[who].balance + Supply(a - {who})
  }

  /** The choice in `Supply` does not matter. */
  lemma {:induction false} SupplyPick(a: Accounts, who: Address)
    requires who in a
    ensures Supply(a) == a[who].balance + Supply(a - {who})
    decreases |a|
  {
    var pick :| pick in a && Supply(a) == a[pick].balance + Supply(a - {pick});
    if pick != who {
      SupplyPick(a - {pick}, who);
      SupplyPick(a - {who}, pick);
      assert a - {pick} - {who} == a - {who} - {pick};
    }
  }

  lemma SupplyUpdate(a: Accounts, who: Address, account: Account)
    ensures Supply(a[who := account]) == Supply(a) - Get(a, who).balance + account.balance
  {
    var b := a[who := account];
    SupplyPick(b, who);
    if who in a {
      SupplyPick(a, who);
      assert b - {who} == a - {who};
    } else {
      assert b - {who} == a;
    }
  }

  lemma BalanceWithinSupply(a: Accounts, who: Address, other: Address)
    requires who != other
    ensures Get(a, who).balance + Get(a, other).balance <= Supply(a)
  {
    SupplyUpdate(a, who, Account(0, 0));
    SupplyUpdate(a[who := Account(0, 0)], other, Account(0, 0));
  }

  lemma StepConservesSupply(c: Primitive, a: Accounts, tx: Transaction)
    requires ApplyTx(c, a, tx).Ok?
    ensures Supply(ApplyTx(c, a, tx).value) == Supply(a)
  {
    var sender := Get(a, tx.from);
    var nonce := Wrap(sender.nonce + 1);
    if tx.from == tx.to {
      SupplyUpdate(a, tx.from, Account(sender.balance, nonce));
    } else {
      var mid := a[tx.from := Account(sender.balance - tx.amount, nonce)];
      SupplyUpdate(a, tx.from, Account(sender.balance - tx.amount, nonce));
      SupplyUpdate(mid, tx.to, Account(Get(a, tx.to).balance + tx.amount, Get(a, tx.to).nonce));
    }
  }

  lemma {:induction false} SupplyConserved(c: Primitive, a: Accounts, txs: seq<Transaction>)
    requires ApplyAll(c, a, txs).Ok?
    ensures Supply(ApplyAll(c, a, txs).value) == Supply(a)
  {
    if txs != [] {
      SupplyConserved(c, a, txs[..|txs| - 1]);
      StepConservesSupply(c, ApplyAll(c, a, txs[..|txs| - 1]).value, txs[|txs| - 1]);
    }
  }

  /** With a supply that fits a machine word, no list is ever rejected for overflow. */
  lemma {:induction false} NeverOverflows(c: Primitive, a: Accounts, txs: seq<Transaction>)
    requires Supply(a) <= U64_MAX
    ensures ApplyAll(c, a, txs) != Err(BalanceOverflow)
  {
    if txs != [] {
      var front, last := txs[..|txs| - 1], txs[|txs| - 1];
      NeverOverflows(c, a, front);
      if ApplyAll(c, a, front).Ok? {
        SupplyConserved(c, a, front);
        if last.from != last.to {
          BalanceWithinSupply(ApplyAll(c, a, front).value, last.from, last.to);
        }
      }
    }
  }

  // ----- two lists accepted from one ledger -----

  ghost predicate ShareSender(xs: seq<Transaction>, ys: seq<Transaction>) {
    exists x, y :: x in xs && y in ys && x.from == y.from
  }

  lemma RepeatShares(txs: seq<Transaction>)
    requires txs != []
    ensures ShareSender(txs, txs)
  {
    assert txs[0] in txs && txs[0].from == txs[0].from;
  }

  lemma {:induction false} NotASender(txs: seq<Transaction>, who: Address)
    requires forall tx :: tx in txs ==> tx.from != who
    ensures Sum(Sent(who), txs) == 0 && Sum(Count(who), txs) == 0
  {
    if txs != [] {
      assert txs == txs[..|txs| - 1] + [txs[|txs| - 1]];
      NotASender(txs[..|txs| - 1], who);
    }
  }

  /** A ledger on which a bystander's account has only gained funds. */
  lemma BystanderGains(c: Primitive, a: Accounts, p: seq<Transaction>, who: Address)
    requires ApplyAll(c, a, p).Ok? && forall tx :: tx in p ==> tx.from != who
    ensures var b := ApplyAll(c, a, p).value;
      Get(b, who).nonce == Get(a, who).nonce && Get(b, who).balance >= Get(a, who).balance
  {
    hide ApplyAll, Sum, Get;
    ClosedFormAt(c, a, p, who);
    NotASender(p, who);
  }

  /** One more transaction of a list that stood on its own, after bystanders moved first. */
  lemma BystanderStep(c: Primitive, a: Accounts, b: Accounts, txs: seq<Transaction>, i: nat)
    requires i < |txs| && ApplyAll(c, a, txs).Ok? && ApplyAll(c, b, txs[..i]).Ok? && Supply(b) <= U64_MAX
    requires var who := txs[i].from;
      Get(b, who).nonce == Get(a, who).nonce && Get(b, who).balance >= Get(a, who).balance
    ensures ApplyTx(c, ApplyAll(c, b, txs[..i]).value, txs[i]).Ok?
  {
    hide ApplyAll, Supply, Sum, PurePayload;
    var d := ApplyAll(c, b, txs[..i]).value;
    var tx := txs[i];
    AcceptedIff(c, a, txs);
    assert AcceptableAt(c, a, txs, i);
    ClosedFormAt(c, b, txs[..i], tx.from);
    SupplyConserved(c, b, txs[..i]);
    if tx.from != tx.to {
      BalanceWithinSupply(d, tx.from, tx.to);
    }
  }

  lemma {:induction false} BystandersDoNotMatter(c: Primitive, a: Accounts, b: Accounts, txs: seq<Transaction>, n: nat)
    requires n <= |txs| && ApplyAll(c, a, txs).Ok? && Supply(b) <= U64_MAX
    requires forall tx :: tx in txs ==>
      Get(b, tx.from).nonce == Get(a, tx.from).nonce && Get(b, tx.from).balance >= Get(a, tx.from).balance
    ensures ApplyAll(c, b, txs[..n]).Ok?
  {
    if n > 0 {
      hide ApplyTx, Get, Supply;
      BystandersDoNotMatter(c, a, b, txs, n - 1);
      assert txs[..n][..n - 1] == txs[..n - 1] && txs[n - 1] in txs;
      BystanderStep(c, a, b, txs, n - 1);
    }
  }

  lemma SharedSenderRejected(c: Primitive, a: Accounts, p: seq<Transaction>, txs: seq<Transaction>)
    requires ApplyAll(c, a, p).Ok? && ApplyAll(c, a, txs).Ok? && ShareSender(txs, p)
    requires NoncesLeft(p, txs)
    ensures ApplyAll(c, ApplyAll(c, a, p).value, txs).Err?
  {
    hide ApplyAll, OnlyFrom, Get, Sum;
    var x, y :| x in txs && y in p && x.from == y.from;
    var who, b := x.from, ApplyAll(c, a, p).value;
    SenderNonces(c, a, p, who);
    SenderNonces(c, a, txs, who);
    OnlyFromMember(txs, x);
    OnlyFromMember(p, y);
    WrapInjective(Get(a, who).nonce, 0, |OnlyFrom(p, who)|);
    WrapAdd(Get(a, who).nonce + |OnlyFrom(p, who)|, 0);
    var first := OnlyFrom(txs, who)[0];
    assert first.nonce == Wrap(Get(a, who).nonce + 0) != Wrap(Get(b, who).nonce + 0);
    if ApplyAll(c, b, txs).Ok? {
      SenderNonces(c, b, txs, who);
    }
  }

  /** No sender of `txs` has used up all its nonces in `p`. */
  ghost predicate NoncesLeft(p: seq<Transaction>, txs: seq<Transaction>) {
    forall tx :: tx in txs ==> |OnlyFrom(p, tx.from)| < U64_LIMIT
  }

  lemma BodyLeavesNonces(p: TxList, txs: seq<Transaction>)
    ensures NoncesLeft(p, txs)
  {
    hide OnlyFrom;
    forall tx | tx in txs ensures |OnlyFrom(p, tx.from)| < U64_LIMIT {
      OnlyFromCounts(p, tx.from);
      CountBounded(p, tx.from);
    }
  }

  /** The receiver of `txs[i]` can take its amount when `p` and the transactions before it went first. */
  ghost predicate RoomAt(a: Accounts, p: seq<Transaction>, txs: seq<Transaction>, i: nat)
    requires i < |txs|
  {
    var tx, before := txs[i], p + txs[..i];
    tx.from != tx.to ==>
      Get(a, tx.to).balance + Sum(Received(tx.to), before) + tx.amount <= U64_MAX + Sum(Sent(tx.to), before)
  }

  ghost predicate RoomAfter(a: Accounts, p: seq<Transaction>, txs: seq<Transaction>) {
    forall i: nat :: i < |txs| ==> RoomAt(a, p, txs, i)
  }

  /** What bystanders can change for an acceptable transaction is only the room at its receiver. */
  lemma BystanderRoom(c: Primitive, a: Accounts, p: seq<Transaction>, txs: seq<Transaction>, i: nat)
    requires ApplyAll(c, a, p).Ok? && i < |txs| && AcceptableAt(c, a, txs, i)
    requires forall tx :: tx in p ==> tx.from != txs[i].from
    ensures AcceptableAt(c, ApplyAll(c, a, p).value, txs, i) <==> RoomAt(a, p, txs, i)
  {
    hide ApplyAll, Sum, Get, PurePayload;
    BystanderGains(c, a, p, txs[i].from);
    ClosedFormAt(c, a, p, txs[i].to);
    SumAppend(Received(txs[i].to), p, txs[..i]);
    SumAppend(Sent(txs[i].to), p, txs[..i]);
  }

  /** Of two lists that one ledger accepts, the second is still accepted after the first if and only if
      no sender occurs in both and every receiver has room, in terms of the initial accounts. */
  lemma BothCommitIff(c: Primitive, a: Accounts, p: seq<Transaction>, txs: seq<Transaction>)
    requires ApplyAll(c, a, p).Ok? && ApplyAll(c, a, txs).Ok? && NoncesLeft(p, txs)
    ensures ApplyAll(c, ApplyAll(c, a, p).value, txs).Ok? <==> !ShareSender(txs, p) && RoomAfter(a, p, txs)
  {
    hide ApplyAll, AcceptableAt, RoomAt, NoncesLeft;
    if ShareSender(txs, p) {
      SharedSenderRejected(c, a, p, txs);
    } else {
      var b := ApplyAll(c, a, p).value;
      AcceptedIff(c, a, txs);
      AcceptedIff(c, b, txs);
      forall i: nat | i < |txs| ensures AcceptableAt(c, b, txs, i) <==> RoomAt(a, p, txs, i) {
        assert AcceptableAt(c, a, txs, i);
        BystanderRoom(c, a, p, txs, i);
      }
    }
  }

  /** With a supply that fits a machine word there is always room. */
  lemma BothCommitWithinSupply(c: Primitive, a: Accounts, p: seq<Transaction>, txs: seq<Transaction>)
    requires ApplyAll(c, a, p).Ok? && ApplyAll(c, a, txs).Ok? && NoncesLeft(p, txs) && Supply(a) <= U64_MAX
    ensures ApplyAll(c, ApplyAll(c, a, p).value, txs).Ok? <==> !ShareSender(txs, p)
  {
    hide ApplyAll, Get, Supply, NoncesLeft;
    if ShareSender(txs, p) {
      SharedSenderRejected(c, a, p, txs);
    } else {
      var b := ApplyAll(c, a, p).value;
      SupplyConserved(c, a, p);
      forall tx | tx in txs
        ensures Get(b, tx.from).nonce == Get(a, tx.from).nonce && Get(b, tx.from).balance >= Get(a, tx.from).balance
      {
        BystanderGains(c, a, p, tx.from);
      }
      BystandersDoNotMatter(c, a, b, txs, |txs|);
      assert txs[..|txs|] == txs;
    }
  }
}

/** crates/types/src/transaction.rs */
module Transactions {
  import opened Primitives
  import opened Crypto

  datatype Transaction = Transaction(
    from: Address,
    to: Address,
    amount: U64,
    nonce: U64,
    signature: Option<Signature>)

  /** A `Vec<Transaction>`: its length is a machine word. */
  type TxList = txs: seq<Transaction> | |txs| < U64_LIMIT

  function PurePayload(tx: Transaction): (bs: Bytes)
    ensures |bs| == 80
  {
    tx.from + tx.to + LittleEndian(tx.amount, 8) + LittleEndian(tx.nonce, 8)
  }

  predicate SignatureValid(c: Primitive, tx: Transaction) {
    tx.signature.Some? && Verifies(c, tx.from, PurePayload(tx), tx.signature.value)
  }

  function Signed(c: Primitive, key: SigningKey, to: Address, amount: U64, nonce: U64): (tx: Transaction)
    ensures SignaturesCorrect(c) ==> SignatureValid(c, tx)
  {
    var from := PublicKey(c, key);
    var payload := PurePayload(Transaction(from, to, amount, nonce, None));
    Transaction(from, to, amount, nonce, Some(Sign(c, key, payload)))
  }

  /** The bytes that get signed, field by field. */
  lemma PayloadLayout(tx: Transaction)
    ensures var p := PurePayload(tx);
      && p[..32] == tx.from && p[32..64] == tx.to
      && LittleWord(p[64..72]) == tx.amount && LittleWord(p[72..]) == tx.nonce
  {
    hide LittleWord, LittleEndian;
    var p := PurePayload(tx);
    assert p[..32] == tx.from && p[32..64] == tx.to;
    assert p[64..72] == LittleEndian(tx.amount, 8) && p[72..] == LittleEndian(tx.nonce, 8);
    LittleEndianWord(tx.amount);
    LittleEndianWord(tx.nonce);
  }

  /** What a signature covers: every field except the signature itself. */
  lemma PayloadBindsFields(s: Transaction, t: Transaction)
    ensures PurePayload(s) == PurePayload(t) <==> s.(signature := None) == t.(signature := None)
  {
    hide LittleWord, LittleEndian;
    PayloadLayout(s);
    PayloadLayout(t);
  }

  function EncodeSignature(signature: Option<Signature>): (bs: Bytes) {
    match signature
    case None => [0]
    case Some(s) => [1] + s
  }

  function ReadSignature(bs: Bytes): Parse<Option<Signature>> {
    if bs == [] then Failed
    else if bs[0] == 0 then Read(None, bs[1..])
    else if bs[0] == 1 && |bs| >= 65 then Read(Some(bs[1..65]), bs[65..])
    else Failed
  }

  function EncodeTx(tx: Transaction): (bs: Bytes)
    ensures |bs| == if tx.signature.Some? then 145 else 81
  {
    tx.from + (tx.to + (EncodeU64(tx.amount) + (EncodeU64(tx.nonce) + EncodeSignature(tx.signature))))
  }

  function ReadTx(bs: Bytes): Parse<Transaction> {
    var from := Take(bs, 32);
    if from.Failed? then Failed else
    var to := Take(from.rest, 32);
    if to.Failed? then Failed else
    var amount := ReadU64(to.rest);
    if amount.Failed? then Failed else
    var nonce := ReadU64(amount.rest);
    if nonce.Failed? then Failed else
    var signature := ReadSignature(nonce.rest);
    if signature.Failed? then Failed else
    Read(Transaction(from.value, to.value, amount.value, nonce.value, signature.value), signature.rest)
  }

  lemma TxPieces(tx: Transaction)
    ensures var bs := EncodeTx(tx);
      && bs[..32] == tx.from && bs[32..64] == tx.to
      && bs[64..72] == EncodeU64(tx.amount) && bs[72..80] == EncodeU64(tx.nonce)
      && bs[80..] == EncodeSignature(tx.signature) && (tx.signature.Some? ==> bs[81..] == bs[80..][1..])
  {
    hide EncodeU64, EncodeSignature;
  }

  lemma SignatureLayout(signature: Option<Signature>)
    ensures var bs := EncodeSignature(signature);
      && bs != []
      && (signature == None ==> bs == [0])
      && (signature.Some? ==> bs[0] == 1 && bs[1..] == signature.value)
  {}

  /** The bytes on the wire, field by field. */
  lemma TxLayout(tx: Transaction)
    ensures var bs := EncodeTx(tx);
      && bs[..32] == tx.from && bs[32..64] == tx.to
      && BigWord(bs[64..72]) == tx.amount && BigWord(bs[72..80]) == tx.nonce
      && (tx.signature == None ==> bs[80..] == [0])
      && (tx.signature.Some? ==> bs[80] == 1 && bs[81..] == tx.signature.value)
  {
    hide BigWord, EncodeU64, EncodeSignature;
    TxPieces(tx);
    EncodeU64Word(tx.amount);
    EncodeU64Word(tx.nonce);
    SignatureLayout(tx.signature);
  }

  function TxHash(c: Primitive, tx: Transaction): Digest {
    Sha256(c, EncodeTx(tx))
  }

  lemma ReadSignatureExact(bs: Bytes, signature: Option<Signature>, rest: Bytes)
    ensures ReadSignature(bs) == Read(signature, rest) <==> bs == EncodeSignature(signature) + rest
  {
    if bs != [] {
      assert bs == [bs[0]] + bs[1..];
      if |bs| >= 65 {
        assert bs == [bs[0]] + bs[1..65] + bs[65..];
      }
    }
    if bs == EncodeSignature(signature) + rest {
      match signature
      case None => assert bs[1..] == rest;
      case Some(s) => assert bs[1..65] == s && bs[65..] == rest;
    }
  }

  /** Reading and writing a transaction are exact inverses on the front of any buffer. */
  lemma ReadTxExact(bs: Bytes, tx: Transaction, rest: Bytes)
    ensures ReadTx(bs) == Read(tx, rest) <==> bs == EncodeTx(tx) + rest
  {
    var e4 := EncodeSignature(tx.signature);
    var e3 := EncodeU64(tx.nonce) + e4;
    var e2 := EncodeU64(tx.amount) + e3;
    var e1 := tx.to + e2;
    assert EncodeTx(tx) + rest == tx.from + (e1 + rest);
    assert e1 + rest == tx.to + (e2 + rest);
    assert e2 + rest == EncodeU64(tx.amount) + (e3 + rest);
    assert e3 + rest == EncodeU64(tx.nonce) + (e4 + rest);
    if bs == EncodeTx(tx) + rest {
      TakeExact(bs, tx.from, e1 + rest);
      TakeExact(e1 + rest, tx.to, e2 + rest);
      ReadU64Exact(e2 + rest, tx.amount, e3 + rest);
      ReadU64Exact(e3 + rest, tx.nonce, e4 + rest);
      ReadSignatureExact(e4 + rest, tx.signature, rest);
    }
    if ReadTx(bs) == Read(tx, rest) {
      var bs1 := bs[32..];
      var bs2 := bs1[32..];
      var bs3 := ReadU64(bs2).rest;
      var bs4 := ReadU64(bs3).rest;
      TakeExact(bs, tx.from, bs1);
      TakeExact(bs1, tx.to, bs2);
      ReadU64Exact(bs2, tx.amount, bs3);
      ReadU64Exact(bs3, tx.nonce, bs4);
      ReadSignatureExact(bs4, tx.signature, rest);
    }
  }

  lemma EncodeTxInjective(s: Transaction, t: Transaction)
    requires EncodeTx(s) == EncodeTx(t)
    ensures s == t
  {
    var bs := EncodeTx(s);
    assert bs == EncodeTx(s) + [] == EncodeTx(t) + [];
    ReadTxExact(bs, s, []);
    ReadTxExact(bs, t, []);
  }
}

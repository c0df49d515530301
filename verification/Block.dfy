/** Blocks, their digest and their wire format (crates/types/src/block.rs). */
module Blocks {
  import opened Primitives
  import opened Crypto
  import opened Transactions
  import opened Merkle

  /** The decoder's cap on transactions per block. */
  const MAX_DECODED_TXS := 16_384

  datatype Header = Header(
    height: U64,
    parentHash: Digest,
    txRoot: Digest,
    timestamp: U64,
    proposer: Address)

  datatype Block = Block(header: Header, transactions: TxList)

  function EncodeHeader(h: Header): (bs: Bytes)
    ensures |bs| == 112
  {
    EncodeU64(h.height) + (h.parentHash + (h.txRoot + (EncodeU64(h.timestamp) + h.proposer)))
  }

  function ReadHeader(bs: Bytes): Parse<Header> {
    var height := ReadU64(bs);
    if height.Failed? then Failed else
    var parentHash := Take(height.rest, 32);
    if parentHash.Failed? then Failed else
    var txRoot := Take(parentHash.rest, 32);
    if txRoot.Failed? then Failed else
    var timestamp := ReadU64(txRoot.rest);
    if timestamp.Failed? then Failed else
    var proposer := Take(timestamp.rest, 32);
    if proposer.Failed? then Failed else
    Read(Header(height.value, parentHash.value, txRoot.value, timestamp.value, proposer.value), proposer.rest)
  }

  function EncodeTxs(txs: seq<Transaction>): Bytes {
    if txs == [] then [] else EncodeTx(txs[0]) + EncodeTxs(txs[1..])
  }

  function ReadTxs(bs: Bytes, n: nat): Parse<seq<Transaction>> {
    if n == 0 then Read([], bs) else
    var first := ReadTx(bs);
    if first.Failed? then Failed else
    var more := ReadTxs(first.rest, n - 1);
    if more.Failed? then Failed else
    Read([first.value] + more.value, more.rest)
  }

  function EncodeBlock(b: Block): Bytes {
    EncodeHeader(b.header) + (EncodeU64(|b.transactions|) + EncodeTxs(b.transactions))
  }

  function ReadBlock(bs: Bytes): Parse<Block> {
    var header := ReadHeader(bs);
    if header.Failed? then Failed else
    var count := ReadU64(header.rest);
    if count.Failed? || count.value > MAX_DECODED_TXS then Failed else
    ReadTxsCount(count.rest, count.value);
    var txs := ReadTxs(count.rest, count.value);
    if txs.Failed? then Failed else
    Read(Block(header.value, txs.value), txs.rest)
  }

  /** `Block::decode`: one block and nothing after it. */
  function DecodeBlock(bs: Bytes): Option<Block> {
    var b := ReadBlock(bs);
    if b.Failed? || b.rest != [] then None else Some(b.value)
  }

  function BlockHash(c: Primitive, b: Block): Digest {
    Sha256(c, EncodeHeader(b.header))
  }

  function GenesisBlock(): Block {
    Block(Header(0, ZeroDigest(), ZeroDigest(), 0, Zeros(32)), [])
  }

  function NewBlock(c: Primitive, height: U64, parentHash: Digest, timestamp: U64, proposer: Address,
      txs: TxList): Block {
    Block(Header(height, parentHash, TxRoot(c, txs), timestamp, proposer), txs)
  }

  /** The header commits to the body. `NewBlock` guarantees it; decoding does not check it. */
  predicate RootMatches(c: Primitive, b: Block) {
    b.header.txRoot == TxRoot(c, b.transactions)
  }

  function SignatureSize(signature: Option<Signature>): nat {
    1 + if signature.Some? then 64 else 0
  }

  function TxSize(tx: Transaction): nat {
    32 + 32 + 8 + 8 + SignatureSize(tx.signature)
  }

  function TxsSize(txs: seq<Transaction>): nat {
    if txs == [] then 0 else TxSize(txs[0]) + TxsSize(txs[1..])
  }

  function BlockSize(b: Block): nat {
    112 + 8 + TxsSize(b.transactions)
  }

  lemma {:induction false} ReadTxsCount(bs: Bytes, n: nat)
    ensures ReadTxs(bs, n).Read? ==> |ReadTxs(bs, n).value| == n
    decreases n
  {
    hide ReadTx;
    if n > 0 && ReadTx(bs).Read? {
      ReadTxsCount(ReadTx(bs).rest, n - 1);
    }
  }

  lemma ReadHeaderExact(bs: Bytes, h: Header, rest: Bytes)
    ensures ReadHeader(bs) == Read(h, rest) <==> bs == EncodeHeader(h) + rest
  {
    var e4 := h.proposer;
    var e3 := EncodeU64(h.timestamp) + e4;
    var e2 := h.txRoot + e3;
    var e1 := h.parentHash + e2;
    assert EncodeHeader(h) + rest == EncodeU64(h.height) + (e1 + rest);
    assert e1 + rest == h.parentHash + (e2 + rest);
    assert e2 + rest == h.txRoot + (e3 + rest);
    assert e3 + rest == EncodeU64(h.timestamp) + (e4 + rest);
    if bs == EncodeHeader(h) + rest {
      ReadU64Exact(bs, h.height, e1 + rest);
      TakeExact(e1 + rest, h.parentHash, e2 + rest);
      TakeExact(e2 + rest, h.txRoot, e3 + rest);
      ReadU64Exact(e3 + rest, h.timestamp, e4 + rest);
      TakeExact(e4 + rest, h.proposer, rest);
    }
    if ReadHeader(bs) == Read(h, rest) {
      var bs1 := ReadU64(bs).rest;
      var bs2 := bs1[32..];
      var bs3 := bs2[32..];
      var bs4 := ReadU64(bs3).rest;
      ReadU64Exact(bs, h.height, bs1);
      TakeExact(bs1, h.parentHash, bs2);
      TakeExact(bs2, h.txRoot, bs3);
      ReadU64Exact(bs3, h.timestamp, bs4);
      TakeExact(bs4, h.proposer, rest);
    }
  }

  lemma {:induction false} ReadTxsExact(bs: Bytes, txs: seq<Transaction>, rest: Bytes)
    ensures ReadTxs(bs, |txs|) == Read(txs, rest) <==> bs == EncodeTxs(txs) + rest
    decreases |txs|
  {
    hide ReadTx, EncodeTx;
    if txs == [] {
      assert EncodeTxs(txs) + rest == rest;
    } else {
      var tail := EncodeTxs(txs[1..]) + rest;
      assert EncodeTxs(txs) + rest == EncodeTx(txs[0]) + tail;
      ReadTxExact(bs, txs[0], tail);
      ReadTxsExact(tail, txs[1..], rest);
      if bs == EncodeTxs(txs) + rest {
        assert ReadTxs(tail, |txs| - 1) == Read(txs[1..], rest);
        assert [txs[0]] + txs[1..] == txs;
      }
      if ReadTxs(bs, |txs|) == Read(txs, rest) {
        var first := ReadTx(bs);
        var more := ReadTxs(first.rest, |txs| - 1);
        assert txs[0] == ([first.value] + more.value)[0] == first.value;
        assert txs[1..] == ([first.value] + more.value)[1..] == more.value;
        ReadTxExact(bs, txs[0], first.rest);
        ReadTxsExact(first.rest, txs[1..], rest);
      }
    }
  }

  lemma ReadBlockExact(bs: Bytes, b: Block, rest: Bytes)
    ensures ReadBlock(bs) == Read(b, rest) <==>
      bs == EncodeBlock(b) + rest && |b.transactions| <= MAX_DECODED_TXS
  {
    var e2 := EncodeTxs(b.transactions);
    var e1 := EncodeU64(|b.transactions|) + e2;
    assert EncodeBlock(b) + rest == EncodeHeader(b.header) + (e1 + rest);
    assert e1 + rest == EncodeU64(|b.transactions|) + (e2 + rest);
    if bs == EncodeBlock(b) + rest {
      ReadHeaderExact(bs, b.header, e1 + rest);
      ReadU64Exact(e1 + rest, |b.transactions|, e2 + rest);
      ReadTxsExact(e2 + rest, b.transactions, rest);
    }
    if ReadBlock(bs) == Read(b, rest) {
      var header := ReadHeader(bs);
      var count := ReadU64(header.rest);
      ReadTxsCount(count.rest, count.value);
      ReadHeaderExact(bs, b.header, header.rest);
      ReadU64Exact(header.rest, |b.transactions|, count.rest);
      ReadTxsExact(count.rest, b.transactions, rest);
    }
  }

  /** The decoder accepts exactly the encodings of blocks within the cap, and returns that block. */
  lemma DecodeBlockExact(bs: Bytes, b: Block)
    ensures DecodeBlock(bs) == Some(b) <==> bs == EncodeBlock(b) && |b.transactions| <= 16_384
  {
    assert EncodeBlock(b) + [] == EncodeBlock(b);
    ReadBlockExact(bs, b, []);
  }

  /** The round trip, for every block: the block comes back if and only if it is within the cap. */
  lemma BlockRoundTrip(b: Block)
    ensures DecodeBlock(EncodeBlock(b)) == if |b.transactions| <= 16_384 then Some(b) else None
  {
    var bs := EncodeBlock(b);
    DecodeBlockExact(bs, b);
    match DecodeBlock(bs)
    case None =>
    case Some(d) =>
      DecodeBlockExact(bs, d);
      assert bs == EncodeBlock(b) + [] == EncodeBlock(d) + [];
      BlockEncodingBinds(b, d);
  }

  lemma BlockEncodingBinds(b: Block, d: Block)
    requires EncodeBlock(b) == EncodeBlock(d)
    ensures b == d
  {
    var bs := EncodeBlock(b);
    var e1 := EncodeU64(|b.transactions|) + EncodeTxs(b.transactions);
    var f1 := EncodeU64(|d.transactions|) + EncodeTxs(d.transactions);
    ReadHeaderExact(bs, b.header, e1);
    ReadHeaderExact(bs, d.header, f1);
    ReadU64Exact(e1, |b.transactions|, EncodeTxs(b.transactions));
    ReadU64Exact(e1, |d.transactions|, EncodeTxs(d.transactions));
    var e2 := EncodeTxs(b.transactions);
    assert e2 + [] == e2;
    ReadTxsExact(e2, b.transactions, []);
    ReadTxsExact(e2, d.transactions, []);
  }

  lemma HeaderEncodingBinds(g: Header, h: Header)
    requires EncodeHeader(g) == EncodeHeader(h)
    ensures g == h
  {
    assert EncodeHeader(g) == EncodeHeader(g) + [] == EncodeHeader(h) + [];
    ReadHeaderExact(EncodeHeader(g), g, []);
    ReadHeaderExact(EncodeHeader(g), h, []);
  }

  /** Equal digests mean equal headers, or the two header encodings collide. */
  lemma BlockHashBinds(c: Primitive, b: Block, d: Block)
    requires BlockHash(c, b) == BlockHash(c, d)
    ensures b.header == d.header || Collides(c, {EncodeHeader(b.header), EncodeHeader(d.header)})
  {
    if EncodeHeader(b.header) == EncodeHeader(d.header) {
      HeaderEncodingBinds(b.header, d.header);
    } else {
      var all := {EncodeHeader(b.header), EncodeHeader(d.header)};
      assert EncodeHeader(b.header) in all && EncodeHeader(d.header) in all;
    }
  }

  lemma {:induction false} TxsSizeExact(txs: seq<Transaction>)
    ensures |EncodeTxs(txs)| == TxsSize(txs) <= 145 * |txs|
  {
    if txs != [] {
      TxsSizeExact(txs[1..]);
    }
  }

  /** The header's bytes, field by field. */
  lemma HeaderLayout(h: Header)
    ensures var bs := EncodeHeader(h);
      && BigWord(bs[..8]) == h.height && bs[8..40] == h.parentHash && bs[40..72] == h.txRoot
      && BigWord(bs[72..80]) == h.timestamp && bs[80..] == h.proposer
  {
    hide BigWord, EncodeU64;
    var bs := EncodeHeader(h);
    assert bs[..8] == EncodeU64(h.height) && bs[8..40] == h.parentHash && bs[40..72] == h.txRoot;
    assert bs[72..80] == EncodeU64(h.timestamp) && bs[80..] == h.proposer;
    EncodeU64Word(h.height);
    EncodeU64Word(h.timestamp);
  }

  lemma {:induction false} TxsLayout(txs: seq<Transaction>, i: nat)
    requires i < |txs|
    ensures TxsSize(txs[..i]) + |EncodeTx(txs[i])| <= |EncodeTxs(txs)|
    ensures EncodeTxs(txs)[TxsSize(txs[..i])..][..|EncodeTx(txs[i])|] == EncodeTx(txs[i])
  {
    hide EncodeTx;
    var head, tail := EncodeTx(txs[0]), EncodeTxs(txs[1..]);
    if i > 0 {
      TxsLayout(txs[1..], i - 1);
      assert txs[..i][0] == txs[0] && txs[..i][1..] == txs[1..][..i - 1];
      assert |head| == TxSize(txs[0]) by {
        assert |EncodeTx(txs[0])| == if txs[0].signature.Some? then 145 else 81;
      }
      assert (head + tail)[TxsSize(txs[..i])..] == tail[TxsSize(txs[1..][..i - 1])..];
    }
  }

  /** The block's bytes: the header, the count, and then each transaction where the sizes of those before
      it say. */
  lemma BlockLayout(b: Block, i: nat)
    ensures var bs := EncodeBlock(b);
      && |bs| >= 120 && bs[..112] == EncodeHeader(b.header) && BigWord(bs[112..120]) == |b.transactions|
      && (i < |b.transactions| ==>
        var start, code := 120 + TxsSize(b.transactions[..i]), EncodeTx(b.transactions[i]);
        start + |code| <= |bs| && bs[start..][..|code|] == code)
  {
    hide BigWord, EncodeU64, EncodeTx, TxsSize;
    var bs := EncodeBlock(b);
    assert bs[..112] == EncodeHeader(b.header) && bs[112..120] == EncodeU64(|b.transactions|);
    assert bs[120..] == EncodeTxs(b.transactions);
    EncodeU64Word(|b.transactions|);
    if i < |b.transactions| {
      TxsLayout(b.transactions, i);
      assert bs[120 + TxsSize(b.transactions[..i])..] == bs[120..][TxsSize(b.transactions[..i])..];
    }
  }

  lemma {:induction false} BigEndianOfZero(width: nat)
    ensures forall i :: 0 <= i < width ==> BigEndian(0, width)[i] == 0
  {
    if width > 0 {
      BigEndianOfZero(width - 1);
    }
  }

  /** The genesis block is empty, and its header is 112 zero bytes. */
  lemma GenesisIsZero()
    ensures GenesisBlock().transactions == []
    ensures forall i :: 0 <= i < 112 ==> EncodeHeader(GenesisBlock().header)[i] == 0
  {
    BigEndianOfZero(8);
    ZerosAreZero(32);
  }

  /** `encode_size` is the length actually written, at most 145 bytes a transaction. */
  lemma BlockSizeExact(b: Block)
    ensures |EncodeBlock(b)| == BlockSize(b) <= 120 + 145 * |b.transactions|
  {
    TxsSizeExact(b.transactions);
  }
}

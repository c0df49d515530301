/** The buffer-advancing `write` / `read_cfg` functions of crates/types/src/{transaction,block}.rs,
    proved against the encodings. */
module Codec {
  import opened Primitives
  import opened Transactions
  import opened Blocks

  class Buffer {
    var data: Bytes

    constructor (bytes: Bytes)
      ensures data == bytes
    {
      data := bytes;
    }

    method Put(bytes: Bytes)
      modifies this
      ensures data == old(data) + bytes
    {
      data := data + bytes;
    }

    method Advance(n: nat) returns (r: Option<Bytes>)
      modifies this
      ensures match Take(old(data), n)
        case Failed => r == None
        case Read(piece, rest) => r == Some(piece) && data == rest
    {
      if |data| < n {
        return None;
      }
      r := Some(data[..n]);
      data := data[n..];
    }

    method GetU64() returns (r: Option<U64>)
      modifies this
      ensures match ReadU64(old(data))
        case Failed => r == None
        case Read(n, rest) => r == Some(n) && data == rest
    {
      var start := data;
      var piece := Advance(8);
      r := if piece.None? then None else Some(ReadU64(start).value);
    }

    method GetSignature() returns (r: Option<Option<Signature>>)
      modifies this
      ensures match ReadSignature(old(data))
        case Failed => r == None
        case Read(signature, rest) => r == Some(signature) && data == rest
    {
      ghost var start := data;
      var tag := Advance(1);
      if tag.None? { return None; }
      if tag.value[0] == 0 { return Some(None); }
      if tag.value[0] != 1 { return None; }
      var bytes := Advance(64);
      if bytes.None? { return None; }
      assert start[1..][..64] == start[1..65] && start[1..][64..] == start[65..];
      r := Some(Some(bytes.value));
    }
  }

  method WriteTx(buf: Buffer, tx: Transaction)
    modifies buf
    ensures buf.data == old(buf.data) + EncodeTx(tx)
  {
    ghost var start := buf.data;
    buf.Put(tx.from);
    buf.Put(tx.to);
    buf.Put(EncodeU64(tx.amount));
    buf.Put(EncodeU64(tx.nonce));
    match tx.signature {
      case None => buf.Put([0]);
      case Some(s) =>
        buf.Put([1]);
        buf.Put(s);
    }
    assert buf.data == start + EncodeTx(tx);
  }

  method GetTx(buf: Buffer) returns (r: Option<Transaction>)
    modifies buf
    ensures match ReadTx(old(buf.data))
      case Failed => r == None
      case Read(tx, rest) => r == Some(tx) && buf.data == rest
  {
    var from := buf.Advance(32);
    if from.None? { return None; }
    var to := buf.Advance(32);
    if to.None? { return None; }
    var amount := buf.GetU64();
    if amount.None? { return None; }
    var nonce := buf.GetU64();
    if nonce.None? { return None; }
    var signature := buf.GetSignature();
    if signature.None? { return None; }
    r := Some(Transaction(from.value, to.value, amount.value, nonce.value, signature.value));
  }

  method WriteHeader(buf: Buffer, h: Header)
    modifies buf
    ensures buf.data == old(buf.data) + EncodeHeader(h)
  {
    buf.Put(EncodeU64(h.height));
    buf.Put(h.parentHash);
    buf.Put(h.txRoot);
    buf.Put(EncodeU64(h.timestamp));
    buf.Put(h.proposer);
  }

  method GetHeader(buf: Buffer) returns (r: Option<Header>)
    modifies buf
    ensures match ReadHeader(old(buf.data))
      case Failed => r == None
      case Read(h, rest) => r == Some(h) && buf.data == rest
  {
    var height := buf.GetU64();
    if height.None? { return None; }
    var parentHash := buf.Advance(32);
    if parentHash.None? { return None; }
    var txRoot := buf.Advance(32);
    if txRoot.None? { return None; }
    var timestamp := buf.GetU64();
    if timestamp.None? { return None; }
    var proposer := buf.Advance(32);
    if proposer.None? { return None; }
    r := Some(Header(height.value, parentHash.value, txRoot.value, timestamp.value, proposer.value));
  }

  method WriteTxs(buf: Buffer, txs: TxList)
    modifies buf
    ensures buf.data == old(buf.data) + EncodeU64(|txs|) + EncodeTxs(txs)
  {
    hide EncodeTx, EncodeU64;
    buf.Put(EncodeU64(|txs|));
    ghost var whole := buf.data + EncodeTxs(txs);
    for i := 0 to |txs|
      invariant buf.data + EncodeTxs(txs[i..]) == whole
    {
      assert txs[i..][0] == txs[i] && txs[i..][1..] == txs[i + 1..];
      WriteTx(buf, txs[i]);
    }
    assert txs[|txs|..] == [];
  }

  method GetElements(buf: Buffer, n: nat) returns (r: Option<seq<Transaction>>)
    modifies buf
    ensures match ReadTxs(old(buf.data), n)
      case Failed => r == None
      case Read(txs, rest) => r == Some(txs) && buf.data == rest
  {
    hide ReadTx;
    ghost var whole := ReadTxs(buf.data, n);
    var txs := [];
    assert whole.Read? ==> [] + whole.value == whole.value;
    for i := 0 to n
      invariant whole.Failed? == ReadTxs(buf.data, n - i).Failed?
      invariant whole.Read? ==>
        var more := ReadTxs(buf.data, n - i); whole == Read(txs + more.value, more.rest)
    {
      var tx := GetTx(buf);
      if tx.None? { return None; }
      ghost var more := ReadTxs(buf.data, n - i - 1);
      assert more.Read? ==> txs + ([tx.value] + more.value) == txs + [tx.value] + more.value;
      txs := txs + [tx.value];
    }
    assert txs + [] == txs;
    r := Some(txs);
  }

  /** The length prefix is checked against the cap before any element is read. */
  method GetTxs(buf: Buffer) returns (r: Option<TxList>)
    modifies buf
    ensures var count := ReadU64(old(buf.data));
      if count.Failed? || count.value > MAX_DECODED_TXS then r == None else
      match ReadTxs(count.rest, count.value)
      case Failed => r == None
      case Read(txs, rest) => r == Some(txs) && buf.data == rest
  {
    var count := buf.GetU64();
    if count.None? || count.value > MAX_DECODED_TXS { return None; }
    ReadTxsCount(buf.data, count.value);
    var txs := GetElements(buf, count.value);
    r := if txs.None? then None else Some(txs.value);
  }

  method Encode(b: Block) returns (bytes: Bytes)
    ensures bytes == EncodeBlock(b)
  {
    hide EncodeHeader, EncodeTxs, EncodeU64;
    var buf := new Buffer([]);
    WriteHeader(buf, b.header);
    WriteTxs(buf, b.transactions);
    bytes := buf.data;
  }

  method Decode(bytes: Bytes) returns (r: Option<Block>)
    ensures r == DecodeBlock(bytes)
  {
    var buf := new Buffer(bytes);
    var header := GetHeader(buf);
    if header.None? { return None; }
    var txs := GetTxs(buf);
    if txs.None? || buf.data != [] { return None; }
    r := Some(Block(header.value, txs.value));
  }
}

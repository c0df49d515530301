/** Finalized blocks by digest and by height (crates/storage/src/block_store.rs). */
module BlockStores {
  import opened Primitives
  import opened Crypto
  import opened Blocks

  datatype Store = Store(blocks: map<Digest, Block>, heights: map<U64, Digest>)

  function EmptyStore(): Store {
    Store(map[], map[])
  }

  function Stored(c: Primitive, s: Store, b: Block): Store {
    Store(s.blocks[BlockHash(c, b) := b], s.heights[b.header.height := BlockHash(c, b)])
  }

  function ByHeight(s: Store, n: U64): Option<Block> {
    if n in s.heights && s.heights[n] in s.blocks then Some(s.blocks[s.heights[n]]) else None
  }

  lemma {:induction false} FindGreatest(s: set<U64>) returns (greatest: U64)
    requires s != {}
    ensures greatest in s && forall y :: y in s ==> y <= greatest
    decreases |s|
  {
    var x :| x in s;
    var rest := s - {x};
    assert forall y :: y in s ==> y == x || y in rest;
    if rest == {} {
      greatest := x;
    } else {
      var other := FindGreatest(rest);
      greatest := if other > x then other else x;
    }
  }

  lemma GreatestExists(s: set<U64>)
    requires s != {}
    ensures exists x :: x in s && forall y :: y in s ==> y <= x
  {
    var greatest := FindGreatest(s);
  }

  function Greatest(s: set<U64>): (x: U64)
    requires s != {}
    ensures x in s && forall y :: y in s ==> y <= x
  {
    GreatestExists(s);
    var x :| x in s && forall y :: y in s ==> y <= x;
    x
  }

  /** The block at the greatest stored height. */
  function Tip(s: Store): Option<Block> {
    if s.heights == map[] then None else ByHeight(s, Greatest(s.heights.Keys))
  }

  ghost predicate StoreOk(c: Primitive, s: Store) {
    && (forall d :: d in s.blocks ==> BlockHash(c, s.blocks[d]) == d)
    && (forall n :: n in s.heights ==> s.heights[n] in s.blocks)
  }

  /** The height index files every block under its own height. */
  ghost predicate HeightsOk(s: Store) {
    forall n :: n in s.heights ==> s.heights[n] in s.blocks && s.blocks[s.heights[n]].header.height == n
  }

  ghost function StorePreimages(s: Store): set<Bytes> {
    set d | d in s.blocks :: EncodeHeader(s.blocks[d].header)
  }

  lemma StoredPreimages(c: Primitive, s: Store, b: Block)
    ensures StorePreimages(Stored(c, s, b)) <= StorePreimages(s) + {EncodeHeader(b.header)}
  {
    hide BlockHash, EncodeHeader;
  }

  lemma StoredOk(c: Primitive, s: Store, b: Block)
    requires StoreOk(c, s)
    ensures StoreOk(c, Stored(c, s, b))
  {
    hide BlockHash;
  }

  /** Inserting keeps the height index right unless the new header collides with a stored one. */
  lemma StoredHeights(c: Primitive, s: Store, b: Block)
    requires StoreOk(c, s) && HeightsOk(s)
    ensures HeightsOk(Stored(c, s, b)) || Collides(c, StorePreimages(s) + {EncodeHeader(b.header)})
  {
    var d := BlockHash(c, b);
    var all := StorePreimages(s) + {EncodeHeader(b.header)};
    if d in s.blocks && s.blocks[d].header != b.header {
      HeaderCollision(c, s.blocks[d], b, all) by {
        hide EncodeHeader, BlockHash;
      }
    } else {
      hide BlockHash, EncodeHeader;
      assert HeightsOk(Stored(c, s, b));
    }
  }

  lemma HeaderCollision(c: Primitive, b: Block, d: Block, all: set<Bytes>)
    requires BlockHash(c, b) == BlockHash(c, d) && b.header != d.header
    requires EncodeHeader(b.header) in all && EncodeHeader(d.header) in all
    ensures Collides(c, all)
  {
    BlockHashBinds(c, b, d);
    assert Collides(c, {EncodeHeader(b.header), EncodeHeader(d.header)});
  }

  /** What lookups find after an insertion: the new block under its digest and its height; at any other
      height and digest, what was there before. */
  lemma StoredLookups(c: Primitive, s: Store, b: Block, n: U64, d: Digest)
    ensures var t := Stored(c, s, b);
      && ByHeight(t, b.header.height) == Some(b)
      && BlockHash(c, b) in t.blocks && t.blocks[BlockHash(c, b)] == b
      && (n != b.header.height && !(n in s.heights && s.heights[n] == BlockHash(c, b)) ==>
        ByHeight(t, n) == ByHeight(s, n))
      && (d != BlockHash(c, b) ==> (d in t.blocks <==> d in s.blocks) && (d in s.blocks ==> t.blocks[d] == s.blocks[d]))
  {
    hide BlockHash;
  }

  /** In a consistent store the two lookups agree: the block found at a height is the block found under
      its own digest, and that is the digest filed at the height. */
  lemma LookupsAgree(c: Primitive, s: Store, n: U64)
    requires StoreOk(c, s)
    ensures ByHeight(s, n).Some? <==> n in s.heights
    ensures ByHeight(s, n).Some? ==>
      var b := ByHeight(s, n).value;
      BlockHash(c, b) == s.heights[n] && BlockHash(c, b) in s.blocks && s.blocks[BlockHash(c, b)] == b
  {
    hide BlockHash;
  }

  /** A block above everything stored becomes the tip. */
  lemma NewTip(c: Primitive, s: Store, b: Block)
    requires forall n :: n in s.heights ==> n <= b.header.height
    ensures Tip(Stored(c, s, b)) == Some(b)
  {
    hide BlockHash;
    var next := Stored(c, s, b);
    assert b.header.height in next.heights.Keys;
    assert Greatest(next.heights.Keys) == b.header.height;
  }

  /** Any other block leaves the tip where it was, unless it replaces that very block. */
  lemma SameTip(c: Primitive, s: Store, b: Block)
    requires s.heights != map[] && Tip(s).Some?
    requires b.header.height < Greatest(s.heights.Keys) && BlockHash(c, b) != s.heights[Greatest(s.heights.Keys)]
    ensures Tip(Stored(c, s, b)) == Tip(s)
  {
    hide BlockHash;
    var next := Stored(c, s, b);
    assert Greatest(s.heights.Keys) in next.heights.Keys;
    assert Greatest(next.heights.Keys) == Greatest(s.heights.Keys);
  }

  class BlockStore {
    var blocks: map<Digest, Block>
    var heightIndex: map<U64, Digest>

    function View(): Store
      reads this
    {
      Store(blocks, heightIndex)
    }

    constructor ()
      ensures View() == EmptyStore()
    {
      blocks, heightIndex := map[], map[];
    }

    method Insert(c: Primitive, block: Block)
      modifies this
      ensures View() == Stored(c, old(View()), block)
    {
      var hash := BlockHash(c, block);
      heightIndex := heightIndex[block.header.height := hash];
      blocks := blocks[hash := block];
    }

    function GetByHash(hash: Digest): (r: Option<Block>)
      reads this
      ensures r.Some? <==> hash in View().blocks
      ensures r.Some? ==> r.value == View().blocks[hash]
    {
      if hash in blocks then Some(blocks[hash]) else None
    }

    function GetByHeight(height: U64): (r: Option<Block>)
      reads this
      ensures r == ByHeight(View(), height)
    {
      if height !in heightIndex then None else GetByHash(heightIndex[height])
    }

    /** `keys().max()`, then a lookup. */
    method GetTip() returns (r: Option<Block>)
      ensures r == Tip(View())
    {
      if heightIndex == map[] {
        return None;
      }
      var left := heightIndex.Keys;
      var max :| max in left;
      while left != {}
        invariant left <= heightIndex.Keys && max in heightIndex.Keys
        invariant forall n :: n in heightIndex.Keys ==> n in left || n <= max
        decreases |left|
      {
        var n :| n in left;
        left := left - {n};
        if n > max {
          max := n;
        }
      }
      assert max == Greatest(heightIndex.Keys);
      r := GetByHeight(max);
    }
  }
}

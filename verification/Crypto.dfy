/** The primitives the ledger takes from libraries, as a parameter of everything below: each result
    holds for every hash function and every signature scheme. */
module Crypto {
  import opened Primitives

  type SigningKey = Bytes

  datatype Primitive = Primitive(
    sha256: Bytes -> Digest,
    publicKey: SigningKey -> Address,
    sign: (SigningKey, Bytes) -> Signature,
    verifies: (Address, Bytes, Signature) -> bool)

  function Sha256(c: Primitive, preimage: Bytes): Digest {
    c.sha256(preimage)
  }

  function PublicKey(c: Primitive, key: SigningKey): Address {
    c.publicKey(key)
  }

  function Sign(c: Primitive, key: SigningKey, message: Bytes): Signature {
    c.sign(key, message)
  }

  predicate Verifies(c: Primitive, signer: Address, message: Bytes, signature: Signature) {
    c.verifies(signer, message, signature)
  }

  /** A signature made with a key is accepted under that key's address. */
  ghost predicate SignaturesCorrect(c: Primitive) {
    forall key, message :: Verifies(c, PublicKey(c, key), message, Sign(c, key, message))
  }

  /** Two different members of `preimages` have the same hash. */
  ghost predicate Collides(c: Primitive, preimages: set<Bytes>) {
    exists x, y :: x in preimages && y in preimages && x != y && Sha256(c, x) == Sha256(c, y)
  }

  /** Some member of `preimages` hashes to the all-zero digest. */
  ghost predicate HitsZero(c: Primitive, preimages: set<Bytes>) {
    exists x :: x in preimages && Sha256(c, x) == ZeroDigest()
  }

  /** What an adversary would have to exhibit, always among strings determined by the blocks at hand. */
  ghost predicate Broken(c: Primitive, preimages: set<Bytes>) {
    Collides(c, preimages) || HitsZero(c, preimages)
  }

  /** A break can be shown: a string whose hash is all zero bytes, or two different ones with one hash. */
  lemma BreakExhibited(c: Primitive, preimages: set<Bytes>) returns (x: Bytes, y: Bytes)
    requires Broken(c, preimages)
    ensures x in preimages && y in preimages
    ensures (forall i :: 0 <= i < 32 ==> c.sha256(x)[i] == 0) || (x != y && c.sha256(x) == c.sha256(y))
  {
    if Collides(c, preimages) {
      x, y :| x in preimages && y in preimages && x != y && Sha256(c, x) == Sha256(c, y);
    } else {
      x :| x in preimages && Sha256(c, x) == ZeroDigest();
      y := x;
      ZerosAreZero(32);
    }
  }

  lemma CollidesMonotone(c: Primitive, small: set<Bytes>, large: set<Bytes>)
    requires small <= large
    ensures Collides(c, small) ==> Collides(c, large)
    ensures HitsZero(c, small) ==> HitsZero(c, large)
  {}
}

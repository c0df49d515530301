/** Machine integers, byte strings and the fixed-width integer codec everything else is built on. */
module Primitives {

  datatype Option<+T> = None | Some(value: T)

  datatype Result<+T, +E> = Ok(value: T) | Err(error: E)

  const U64_LIMIT := 0x1_0000_0000_0000_0000
  const U64_MAX := U64_LIMIT - 1

  type U64 = n: int | 0 <= n < 0x1_0000_0000_0000_0000

  /** Unchecked `+` on u64 as an optimised build performs it: the sum wraps. */
  function Wrap(n: int): U64 {
    n % U64_LIMIT
  }

  type Byte = b: int | 0 <= b < 256
  type Bytes = seq<Byte>

  /** A public key, which doubles as the account address. */
  type Address = a: Bytes | |a| == 32 witness seq(32, _ => 0)

  type Digest = d: Bytes | |d| == 32 witness seq(32, _ => 0)

  type Signature = s: Bytes | |s| == 64 witness seq(64, _ => 0)

  function Zeros(n: nat): (bs: Bytes)
    ensures |bs| == n
  {
    if n == 0 then [] else [0] + Zeros(n - 1)
  }

  function ZeroDigest(): Digest {
    Zeros(32)
  }

  ghost predicate Distinct<T>(xs: seq<T>) {
    forall i, j :: 0 <= i < j < |xs| ==> xs[i] != xs[j]
  }

  /** Reading consumes a prefix and hands back what is left. */
  datatype Parse<+T> = Failed | Read(value: T, rest: Bytes)

  function Take(bs: Bytes, n: nat): Parse<Bytes> {
    if |bs| < n then Failed else Read(bs[..n], bs[n..])
  }

  function Pow256(width: nat): nat {
    if width == 0 then 1 else 256 * Pow256(width - 1)
  }

  function BigEndian(n: nat, width: nat): (bs: Bytes)
    ensures |bs| == width
  {
    if width == 0 then [] else BigEndian(n / 256, width - 1) + [n % 256]
  }

  function FromBigEndian(bs: Bytes): nat {
    if bs == [] then 0 else 256 * FromBigEndian(bs[..|bs| - 1]) + bs[|bs| - 1]
  }

  lemma {:induction false} BigEndianRoundTrip(n: nat, width: nat)
    requires n < Pow256(width)
    ensures FromBigEndian(BigEndian(n, width)) == n
  {
    if width > 0 {
      BigEndianRoundTrip(n / 256, width - 1);
      assert BigEndian(n, width)[..width - 1] == BigEndian(n / 256, width - 1);
    }
  }

  lemma {:induction false} FromBigEndianRoundTrip(bs: Bytes)
    ensures FromBigEndian(bs) < Pow256(|bs|)
    ensures BigEndian(FromBigEndian(bs), |bs|) == bs
  {
    if bs != [] {
      FromBigEndianRoundTrip(bs[..|bs| - 1]);
      assert bs == bs[..|bs| - 1] + [bs[|bs| - 1]];
    }
  }

  lemma Pow256Of8()
    ensures Pow256(8) == U64_LIMIT
  {
    assert Pow256(4) == 0x1_0000_0000;
  }

  function EncodeU64(n: U64): (bs: Bytes)
    ensures |bs| == 8
  {
    BigEndian(n, 8)
  }

  function ReadU64(bs: Bytes): Parse<U64> {
    if |bs| < 8 then Failed else
    Pow256Of8();
    FromBigEndianRoundTrip(bs[..8]);
    Read(FromBigEndian(bs[..8]), bs[8..])
  }

  /** `u64::to_le_bytes`, used only for the bytes that get signed. */
  function LittleEndian(n: nat, width: nat): (bs: Bytes)
    ensures |bs| == width
  {
    if width == 0 then [] else [n % 256] + LittleEndian(n / 256, width - 1)
  }

  /** What eight bytes are worth, the first one least. */
  function LittleWord(b: seq<int>): int
    requires |b| == 8
  {
    b[0] + 0x100 * b[1] + 0x1_0000 * b[2] + 0x100_0000 * b[3] + 0x1_0000_0000 * b[4] + 0x100_0000_0000 * b[5]
    + 0x1_0000_0000_0000 * b[6] + 0x100_0000_0000_0000 * b[7]
  }

  /** What eight bytes are worth, the first one most. */
  function BigWord(b: seq<int>): int
    requires |b| == 8
  {
    LittleWord([b[7], b[6], b[5], b[4], b[3], b[2], b[1], b[0]])
  }

  lemma {:induction false} LittleEndianAt(n: nat, width: nat, i: nat)
    requires i < width
    ensures LittleEndian(n, width)[i] == if i == 0 then n % 256 else LittleEndian(n / 256, width - 1)[i - 1]
  {}

  lemma {:induction false} BigEndianAt(n: nat, width: nat, i: nat)
    requires i < width
    ensures BigEndian(n, width)[i] == LittleEndian(n, width)[width - 1 - i]
  {
    LittleEndianAt(n, width, width - 1 - i);
    if i < width - 1 {
      BigEndianAt(n / 256, width - 1, i);
    }
  }

  /** Eight digits of a machine word in base 256. */
  lemma LittleEndianWord(n: U64)
    ensures LittleWord(LittleEndian(n, 8)) == n
  {
    hide LittleEndian, LittleWord;
    var q1 := n / 256;
    var q2 := q1 / 256;
    var q3 := q2 / 256;
    var q4 := q3 / 256;
    var q5 := q4 / 256;
    var q6 := q5 / 256;
    var q7 := q6 / 256;
    LittleDigits(n, [n, q1, q2, q3, q4, q5, q6, q7]);
    var low := n % 256 + 0x100 * (q1 % 256) + 0x1_0000 * (q2 % 256) + 0x100_0000 * (q3 % 256);
    var high := q4 % 256 + 0x100 * (q5 % 256) + 0x1_0000 * (q6 % 256) + 0x100_0000 * q7;
    assert n == low + 0x1_0000_0000 * q4 && q4 == high;
    assert q7 == q7 % 256;
    assert LittleWord(LittleEndian(n, 8)) == low + 0x1_0000_0000 * high by {
      WordOfHalves(LittleEndian(n, 8));
    }
  }

  lemma WordOfHalves(b: seq<int>)
    requires |b| == 8
    ensures LittleWord(b) == b[0] + 0x100 * b[1] + 0x1_0000 * b[2] + 0x100_0000 * b[3]
      + 0x1_0000_0000 * (b[4] + 0x100 * b[5] + 0x1_0000 * b[6] + 0x100_0000 * b[7])
  {}

  /** The digits are the remainders of repeated division. */
  lemma LittleDigits(n: nat, quotients: seq<nat>)
    requires |quotients| == 8 && quotients[0] == n
    requires forall i :: 0 < i < 8 ==> quotients[i] == quotients[i - 1] / 256
    ensures forall i :: 0 <= i < 8 ==> LittleEndian(n, 8)[i] == quotients[i] % 256
  {
    hide LittleEndian;
    forall i | 0 <= i < 8 ensures LittleEndian(n, 8)[i] == quotients[i] % 256 {
      DigitOf(n, quotients, 8, i);
    }
  }

  lemma {:induction false} DigitOf(n: nat, quotients: seq<nat>, width: nat, i: nat)
    requires i < width == |quotients| && quotients[0] == n
    requires forall k :: 0 < k < width ==> quotients[k] == quotients[k - 1] / 256
    ensures LittleEndian(n, width)[i] == quotients[i] % 256
  {
    LittleEndianAt(n, width, i);
    if i > 0 {
      DigitOf(n / 256, quotients[1..], width - 1, i - 1);
    }
  }

  lemma EncodeU64Word(n: U64)
    ensures BigWord(EncodeU64(n)) == n
  {
    hide LittleEndian, BigEndian, LittleWord;
    var b := EncodeU64(n);
    forall i | 0 <= i < 8 ensures b[i] == LittleEndian(n, 8)[7 - i] {
      BigEndianAt(n, 8, i);
    }
    assert [b[7], b[6], b[5], b[4], b[3], b[2], b[1], b[0]] == LittleEndian(n, 8);
    LittleEndianWord(n);
  }

  lemma {:induction false} ZerosAreZero(n: nat)
    ensures forall i :: 0 <= i < n ==> Zeros(n)[i] == 0
  {
    if n > 0 {
      ZerosAreZero(n - 1);
    }
  }

  lemma ReadU64Exact(bs: Bytes, n: U64, rest: Bytes)
    ensures ReadU64(bs) == Read(n, rest) <==> bs == EncodeU64(n) + rest
  {
    Pow256Of8();
    BigEndianRoundTrip(n, 8);
    if |bs| >= 8 {
      FromBigEndianRoundTrip(bs[..8]);
      assert bs == bs[..8] + bs[8..];
    }
    if bs == EncodeU64(n) + rest {
      assert bs[..8] == EncodeU64(n) && bs[8..] == rest;
    }
  }

  lemma TakeExact(bs: Bytes, piece: Bytes, rest: Bytes)
    ensures Take(bs, |piece|) == Read(piece, rest) <==> bs == piece + rest
  {
    if |bs| >= |piece| {
      assert bs == bs[..|piece|] + bs[|piece|..];
    }
    if bs == piece + rest {
      assert bs[..|piece|] == piece && bs[|piece|..] == rest;
    }
  }
}

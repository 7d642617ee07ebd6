// Bytes and the exclusive-or checksums computed over them.
module Bytes {
  import opened Arith

  type Byte = x: int | 0 <= x < 256

  // A number as k bytes, most significant first.
  function ToBytes(x: nat, k: nat): (s: seq<Byte>)
    ensures |s| == k
  {
    if k == 0 then [] else ToBytes(x / 256, k - 1) + [x % 256]
  }

  // Exclusive or of two naturals, bit by bit.
  function XorNat(x: nat, y: nat): nat {
    if x == 0 && y == 0 then 0
    else 2 * XorNat(x / 2, y / 2) + (if x % 2 == y % 2 then 0 else 1)
  }

  lemma {:induction false} XorBound(x: nat, y: nat, k: nat)
    requires x < Pow(2, k) && y < Pow(2, k)
    ensures XorNat(x, y) < Pow(2, k)
  {
    if k > 0 {
      XorBound(x / 2, y / 2, k - 1);
    }
  }

  function Xor(x: Byte, y: Byte): Byte {
    assert Pow(2, 8) == 256 by { assert Pow(2, 4) == 16; }
    XorBound(x, y, 8);
    XorNat(x, y)
  }

  lemma {:induction false} XorCommutes(x: nat, y: nat)
    ensures XorNat(x, y) == XorNat(y, x)
  {
    if x != 0 || y != 0 {
      XorCommutes(x / 2, y / 2);
    }
  }

  lemma {:induction false} XorNeutral(x: nat)
    ensures XorNat(x, 0) == x == XorNat(0, x)
  {
    if x != 0 {
      XorNeutral(x / 2);
    }
  }

  lemma {:induction false} XorZero(x: nat, y: nat)
    ensures XorNat(x, y) == 0 <==> x == y
  {
    if x != 0 || y != 0 {
      XorZero(x / 2, y / 2);
    }
  }

  lemma {:induction false} XorAssociates(x: nat, y: nat, z: nat)
    ensures XorNat(XorNat(x, y), z) == XorNat(x, XorNat(y, z))
    decreases x + y + z
  {
    if x != 0 || y != 0 || z != 0 {
      XorAssociates(x / 2, y / 2, z / 2);
      XorHalf(x, y);
      XorHalf(y, z);
      XorHalf(XorNat(x, y), z);
      XorHalf(x, XorNat(y, z));
    }
  }

  lemma XorHalf(x: nat, y: nat)
    ensures XorNat(x, y) / 2 == XorNat(x / 2, y / 2)
    ensures XorNat(x, y) % 2 == (if x % 2 == y % 2 then 0 else 1)
  {
  }

  // Inclusive or of two naturals, bit by bit.
  function OrNat(x: nat, y: nat): nat {
    if x == 0 && y == 0 then 0
    else 2 * OrNat(x / 2, y / 2) + (if x % 2 == 1 || y % 2 == 1 then 1 else 0)
  }

  lemma {:induction false} OrBound(x: nat, y: nat, k: nat)
    requires x < Pow(2, k) && y < Pow(2, k)
    ensures OrNat(x, y) < Pow(2, k)
  {
    if k > 0 {
      OrBound(x / 2, y / 2, k - 1);
    }
  }

  lemma {:induction false} OrNeutral(x: nat)
    ensures OrNat(x, 0) == x
  {
    if x != 0 {
      OrNeutral(x / 2);
    }
  }

  // The xor of all bytes of s, starting from seed.
  function XorFold(seed: Byte, s: seq<Byte>): Byte {
    if |s| == 0 then seed else Xor(XorFold(seed, s[..|s| - 1]), s[|s| - 1])
  }

  lemma {:induction false} XorFoldAppend(seed: Byte, s: seq<Byte>, t: seq<Byte>)
    ensures XorFold(seed, s + t) == XorFold(XorFold(seed, s), t)
  {
    if t == [] {
      assert s + t == s;
    } else {
      var u := t[..|t| - 1];
      assert (s + t)[..|s + t| - 1] == s + u;
      XorFoldAppend(seed, s, u);
    }
  }

  lemma {:induction false} XorFoldSeed(seed: Byte, s: seq<Byte>)
    ensures XorFold(seed, s) == Xor(seed, XorFold(0, s))
  {
    if s != [] {
      XorFoldSeed(seed, s[..|s| - 1]);
      XorAssociates(seed, XorFold(0, s[..|s| - 1]), s[|s| - 1]);
    } else {
      XorNeutral(seed);
    }
  }

  function Zeros(n: nat): (z: seq<Byte>)
    ensures |z| == n
  {
    seq(n, _ => 0)
  }

  function Concat(chunks: seq<seq<Byte>>): seq<Byte> {
    if chunks == [] then [] else Concat(chunks[..|chunks| - 1]) + chunks[|chunks| - 1]
  }
}

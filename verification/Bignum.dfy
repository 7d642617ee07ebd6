// Numbers as little-endian arrays of 32-bit words and as big-endian byte strings.
module Bignum {
  import opened Arith
  import opened Bytes

  type Word = x: int | 0 <= x < U32
  // A 64-bit accumulator; assigning to it proves that no 64-bit operation wraps.
  type DoubleWord = x: int | 0 <= x < 0x1_0000_0000_0000_0000

  function Val(s: seq<Word>): (v: nat) {
    if |s| == 0 then 0 else Val(s[..|s| - 1]) + s[|s| - 1] * Radix(|s| - 1)
  }

  // The weight of word i.
  function Radix(i: nat): (r: nat)
    ensures r > 0
  {
    PowPositive(U32, i);
    Pow(U32, i)
  }

  // One more digit d of weight r keeps a number below the next weight.
  lemma DigitBound(low: int, d: int, r: int, base: int)
    requires low < r && d < base && r > 0
    ensures low + d * r < base * r
  {
    assert (base - 1 - d) * r >= 0;
    assert base * r == d * r + (base - 1 - d) * r + r;
  }

  // Two digits over the same weight are equal when the numbers are.
  lemma SameDigit(a: int, b: int, x: int, y: int, p: int)
    requires 0 <= a < p && 0 <= b < p && x * p + a == y * p + b
    ensures x == y && a == b
  {
    assert p * (x - y) == b - a;
    NoSmallMultiple(p, x - y);
  }

  lemma ValPrefix(s: seq<Word>, i: nat)
    requires i < |s|
    ensures Val(s[..i + 1]) == Val(s[..i]) + s[i] * Radix(i)
  {
    assert s[..i + 1][..i] == s[..i];
  }

  lemma {:induction false} ValBound(s: seq<Word>)
    ensures Val(s) < Radix(|s|)
  {
    if s != [] {
      var r := Radix(|s| - 1);
      ValBound(s[..|s| - 1]);
      DigitBound(Val(s[..|s| - 1]), s[|s| - 1], r, U32);
    }
  }

  lemma {:induction false} ValZero(s: seq<Word>)
    requires forall i :: 0 <= i < |s| ==> s[i] == 0
    ensures Val(s) == 0
  {
    if s != [] {
      ValZero(s[..|s| - 1]);
    }
  }

  // Words above position i decide a comparison when they agree and word i differs.
  lemma {:induction false} ValCompare(s: seq<Word>, t: seq<Word>, i: nat)
    requires |s| == |t| && i < |s|
    requires s[i + 1..] == t[i + 1..] && s[i] < t[i]
    ensures Val(s) < Val(t)
  {
    hide Radix;
    var k := |s| - 1;
    if i == k {
      ValBound(s[..k]);
      NextDigit(Val(s[..k]), s[k], t[k], Radix(k));
    } else {
      assert s[k] == s[i + 1..][k - i - 1] == t[i + 1..][k - i - 1] == t[k];
      assert s[..k][i + 1..] == s[i + 1..][..k - i - 1] == t[..k][i + 1..];
      ValCompare(s[..k], t[..k], i);
    }
  }

  lemma NextDigit(low: int, d: int, e: int, r: int)
    requires low < r && d < e && r > 0
    ensures low + d * r < e * r
  {
    assert (e - d - 1) * r >= 0;
    assert e * r == d * r + (e - d - 1) * r + r;
  }

  // Big-endian value of a byte string.
  function BE(s: seq<Byte>): (v: nat) {
    if |s| == 0 then 0
    else
      PowPositive(256, |s| - 1);
      s[0] * Pow(256, |s| - 1) + BE(s[1..])
  }

  lemma {:induction false} BEBound(s: seq<Byte>)
    ensures BE(s) < Pow(256, |s|)
  {
    if s != [] {
      PowPositive(256, |s| - 1);
      BEBound(s[1..]);
      DigitBound(BE(s[1..]), s[0], Pow(256, |s| - 1), 256);
    }
  }

  lemma {:induction false} BEInjective(s: seq<Byte>, t: seq<Byte>)
    requires |s| == |t| && BE(s) == BE(t)
    ensures s == t
  {
    if s != [] {
      BEBound(s[1..]);
      BEBound(t[1..]);
      SameDigit(BE(s[1..]), BE(t[1..]), s[0], t[0], Pow(256, |s| - 1));
      BEInjective(s[1..], t[1..]);
      assert s == [s[0]] + s[1..] && t == [t[0]] + t[1..];
    }
  }

  lemma {:induction false} LastDigit(s: seq<Byte>, b: Byte)
    ensures BE(s + [b]) == 256 * BE(s) + b
  {
    if s == [] {
      assert ([] + [b])[1..] == [];
    } else {
      var t := s[1..];
      LeadingDigit(s);
      LeadingDigit(s + [b]);
      assert (s + [b])[1..] == t + [b];
      LastDigit(t, b);
      Associate(s[0], 256, Pow(256, |t|));
    }
  }

  lemma {:induction false} ToBytesValue(v: nat, k: nat)
    requires v < Pow(256, k)
    ensures BE(ToBytes(v, k)) == v
  {
    if k > 0 {
      ToBytesValue(v / 256, k - 1);
      LastDigit(ToBytes(v / 256, k - 1), v % 256);
    }
  }

  // The word stored in the four bytes of s at position p, most significant byte first.
  function WordAt(s: seq<Byte>, p: nat): Word
    requires p + 4 <= |s|
  {
    var b0: int, b1: int, b2: int := s[p], s[p + 1], s[p + 2];
    b0 * 0x100_0000 + b1 * 0x1_0000 + b2 * 0x100 + s[p + 3]
  }

  // s holds the words w, most significant word first.
  ghost predicate Encodes(s: seq<Byte>, w: seq<Word>) {
    && |s| == 4 * |w|
    && forall j :: 0 <= j < |w| ==> w[j] == WordAt(s, 4 * (|w| - 1 - j))
  }

  lemma {:induction false} EncodedValue(s: seq<Byte>, w: seq<Word>)
    requires Encodes(s, w)
    ensures BE(s) == Val(w)
  {
    if w != [] {
      var k := |w| - 1;
      var v := w[..k];
      var t := s[4..];
      forall j | 0 <= j < |v| ensures v[j] == WordAt(t, 4 * (|v| - 1 - j)) {
        var p := 4 * (|v| - 1 - j);
        assert w[j] == WordAt(s, p + 4);
        assert t[p] == s[p + 4] && t[p + 1] == s[p + 5] && t[p + 2] == s[p + 6] && t[p + 3] == s[p + 7];
      }
      EncodedValue(t, v);
      LeadingWord(s);
      PowBytesWords(k);
      assert w[k] == WordAt(s, 0);
      assert |s| - 4 == 4 * k;
    }
  }

  lemma LeadingWord(s: seq<Byte>)
    requires |s| >= 4
    ensures BE(s) == WordAt(s, 0) * Pow(256, |s| - 4) + BE(s[4..])
  {
    hide BE;
    var p := Pow(256, |s| - 4);
    assert s[1..][1..] == s[2..] && s[2..][1..] == s[3..] && s[3..][1..] == s[4..];
    LeadingDigit(s);
    LeadingDigit(s[1..]);
    LeadingDigit(s[2..]);
    LeadingDigit(s[3..]);
    PowThree(256, |s| - 4);
    hide Pow;
    FourDigits(s[0], s[1], s[2], s[3], p);
  }

  lemma LeadingDigit(s: seq<Byte>)
    requires s != []
    ensures BE(s) == s[0] * Pow(256, |s| - 1) + BE(s[1..])
  {
  }

  lemma PowThree(b: int, k: nat)
    ensures Pow(b, k + 1) == b * Pow(b, k) && Pow(b, k + 2) == (b * b) * Pow(b, k)
    ensures Pow(b, k + 3) == (b * b * b) * Pow(b, k)
  {
    var p := Pow(b, k);
    Associate(b, b, p);
    Associate(b * b, b, p);
    Associate(b, b * b, p);
  }

  lemma FourDigits(a: int, b: int, c: int, d: int, p: int)
    ensures a * (0x100_0000 * p) + (b * (0x1_0000 * p) + (c * (256 * p) + d * p))
         == (a * 0x100_0000 + b * 0x1_0000 + c * 0x100 + d) * p
  {
  }
}

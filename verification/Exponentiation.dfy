// Public RSA exponentiation by Montgomery multiplication (crypto/rsa.c).
module Exponentiation {
  import opened Arith
  import opened Bytes
  import opened Bignum
  import opened Montgomery

  // The k low words of v.
  function ToWords(v: nat, k: nat): (s: seq<Word>)
    requires v < Radix(k)
    ensures |s| == k && Val(s) == v
  {
    if k == 0 then []
    else
      TopWord(v, k - 1);
      var s := ToWords(v % Radix(k - 1), k - 1);
      AppendWord(s, v / Radix(k - 1));
      s + [v / Radix(k - 1)]
  }

  lemma TopWord(v: nat, k: nat)
    requires v < Radix(k + 1)
    ensures 0 <= v / Radix(k) < U32 && 0 <= v % Radix(k) < Radix(k) && v == v % Radix(k) + (v / Radix(k)) * Radix(k)
  {
    TopDigit(v, Radix(k));
  }

  lemma AppendWord(s: seq<Word>, w: Word)
    ensures Val(s + [w]) == Val(s) + w * Radix(|s|)
  {
    assert (s + [w])[..|s|] == s;
  }

  lemma TopDigit(v: nat, r: nat)
    requires r > 0 && v < U32 * r
    ensures 0 <= v / r < U32 && v % r < r && v == v % r + (v / r) * r
  {
    var q := v / r;
    assert v == v % r + q * r;
    DigitBelow(q, r, v);
  }

  lemma DigitBelow(q: int, r: int, v: int)
    requires r > 0 && q * r <= v < U32 * r
    ensures q < U32
  {
  }

  lemma {:induction false} ToWordsUnique(s: seq<Word>, v: nat)
    requires Val(s) == v
    ensures v < Radix(|s|) && ToWords(v, |s|) == s
  {
    ValBound(s);
    ValInjective(s, ToWords(v, |s|));
  }

  lemma {:induction false} ValInjective(s: seq<Word>, t: seq<Word>)
    requires |s| == |t| && Val(s) == Val(t)
    ensures s == t
  {
    if s != [] {
      var k := |s| - 1;
      ValBound(s[..k]);
      ValBound(t[..k]);
      SameDigit(Val(s[..k]), Val(t[..k]), s[k], t[k], Radix(k));
      ValInjective(s[..k], t[..k]);
      assert s == s[..k] + [s[k]] && t == t[..k] + [t[k]];
    }
  }

  // The Montgomery product of two numbers below R.
  function Mont(key: PublicKey, x: nat, y: nat): (m: nat)
    requires key.WellFormed() && x < key.R() && y < key.R()
    ensures m < key.R()
  {
    MontProdCorrect(key, ToWords(x, |key.n|), y);
    MontProd(key, ToWords(x, |key.n|), y)
  }

  lemma MontCorrect(key: PublicKey, x: nat, y: nat)
    requires key.WellFormed() && x < key.R() && y < key.R()
    ensures Mont(key, x, y) < y + key.N()
    ensures Cong(Mont(key, x, y) * key.R(), x * y, key.N())
  {
    MontProdCorrect(key, ToWords(x, |key.n|), y);
  }

  // k Montgomery squarings in a row.
  function Squared(key: PublicKey, v: nat, k: nat): (m: nat)
    requires key.WellFormed() && v < key.R()
    ensures m < key.R()
  {
    if k == 0 then v
    else
      var w := Squared(key, v, k - 1);
      Mont(key, w, w)
  }

  // How many squarings the exponent asks for: 65537 is 2^16 + 1 and 3 is 2^1 + 1.
  function Squarings(key: PublicKey): nat {
    if key.exponent == 65537 then 16 else 1
  }

  predicate SupportedExponent(key: PublicKey) {
    key.exponent == 3 || key.exponent == 65537
  }

  // The value before the last conditional subtraction.
  function Unreduced(key: PublicKey, x: nat): (v: nat)
    requires key.WellFormed() && x < key.R()
    ensures v < key.R()
  {
    ValBound(key.rr);
    Mont(key, Squared(key, Mont(key, x, Val(key.rr)), Squarings(key)), x)
  }

  function Reduce(key: PublicKey, v: nat): nat {
    if v >= key.N() then v - key.N() else v
  }

  // R has an inverse modulo N, because n0inv makes 2^32 invertible.
  lemma RInverse(key: PublicKey) returns (s: int)
    requires key.WellFormed()
    ensures Cong(key.R() * s, 1, key.N())
  {
    ValAtLeastFirst(key.n);
    var u := (key.n0inv * key.n[0] + 1) / U32;
    var k := key.N() / U32;
    var w := u + key.n0inv * k;
    BaseInverse(key.n0inv, key.n[0], key.N(), u, k);
    CongFrom(U32 * w, 1, key.N(), key.n0inv);
    CongPow(U32 * w, 1, |key.n|, key.N());
    PowOne(|key.n|);
    PowMul(U32, w, |key.n|);
    s := Pow(w, |key.n|);
  }

  lemma BaseInverse(inv: int, n0: int, n: int, u: int, k: int)
    requires inv * n0 + 1 == U32 * u && n == n0 + U32 * k
    ensures U32 * (u + inv * k) - 1 == inv * n
  {
    assert inv * (n0 + U32 * k) == inv * n0 + U32 * (inv * k);
  }

  lemma CancelR(key: PublicKey, u: int, v: int)
    requires key.WellFormed() && Cong(u * key.R(), v * key.R(), key.N())
    ensures Cong(u, v, key.N())
  {
    var n, r := key.N(), key.R();
    var s := RInverse(key);
    CongRefl(s, n);
    CongMul(u * r, v * r, s, s, n);
    InverseApplied(u, r, s, n);
    InverseApplied(v, r, s, n);
    CongSym(u * r * s, u, n);
    CongTrans(u, u * r * s, v * r * s, n);
    CongTrans(u, v * r * s, v, n);
  }

  lemma InverseApplied(u: int, r: int, s: int, n: int)
    requires n > 0 && Cong(r * s, 1, n)
    ensures Cong(u * r * s, u, n)
  {
    CongRefl(u, n);
    CongMul(u, u, r * s, 1, n);
    Associate(u, r, s);
  }

  // Squaring in Montgomery form: from x * R to x^(2^k) * R.
  lemma {:induction false} SquaredCorrect(key: PublicKey, v: nat, x: int, k: nat)
    requires key.WellFormed() && v < key.R() && Cong(v, x * key.R(), key.N())
    ensures Pow(2, k) > 0
    ensures Cong(Squared(key, v, k), Pow(x, Pow(2, k)) * key.R(), key.N())
  {
    PowPositive(2, k);
    var n, r := key.N(), key.R();
    if k == 0 {
      assert Pow(x, 1) == x * Pow(x, 0) == x;
    } else {
      SquaredCorrect(key, v, x, k - 1);
      var e := Pow(2, k - 1);
      var w, y := Squared(key, v, k - 1), Pow(x, e);
      MontCorrect(key, w, w);
      CongMul(w, y * r, w, y * r, n);
      CongTrans(Mont(key, w, w) * r, w * w, (y * r) * (y * r), n);
      Regroup(y, r);
      CancelR(key, Mont(key, w, w), y * y * r);
      PowAdd(x, e, e);
    }
  }

  lemma Regroup(y: int, r: int)
    ensures (y * r) * (y * r) == (y * y * r) * r
  {
    Associate(y, r, y * r);
    Associate(r, y, r);
    Associate(y, y * r, r);
    Associate(y, y, r);
  }

  // What the final subtraction achieves: the chain is congruent to x^e and less than x + N, and one
  // conditional subtraction gives the true power iff the chain is below 2 N.
  lemma ModPowCorrect(key: PublicKey, x: nat)
    requires key.WellFormed() && SupportedExponent(key) && x < key.R()
    ensures Cong(Reduce(key, Unreduced(key, x)), Pow(x, key.exponent), key.N())
    ensures Unreduced(key, x) < x + key.N()
    ensures Reduce(key, Unreduced(key, x)) == Pow(x, key.exponent) % key.N()
       <==> Unreduced(key, x) < 2 * key.N()
  {
    var n, r := key.N(), key.R();
    var k := Squarings(key);
    ValBound(key.rr);
    var rr := Val(key.rr);
    var v := Mont(key, x, rr);
    MontCorrect(key, x, rr);
    CongRefl(x, n);
    CongMul(x, x, rr, r * r, n);
    CongTrans(v * r, x * rr, x * (r * r), n);
    Associate(x, r, r);
    CancelR(key, v, x * r);
    SquaredCorrect(key, v, x, k);
    var e := Pow(2, k);
    var w, y := Squared(key, v, k), Pow(x, e);
    var u := Mont(key, w, x);
    MontCorrect(key, w, x);
    CongMul(w, y * r, x, x, n);
    CongTrans(u * r, w * x, y * r * x, n);
    assert y * r * x == (x * y) * r by { Associate(y, r, x); Associate(x, y, r); Associate(y, x, r); }
    CancelR(key, u, x * y);
    ExponentSplit(key);
    assert Pow(x, key.exponent) == x * y;
    ReducedCongruent(u, x * y, n);
  }

  lemma ExponentSplit(key: PublicKey)
    requires SupportedExponent(key)
    ensures key.exponent == Pow(2, Squarings(key)) + 1
  {
    assert Pow(2, 1) == 2;
    assert Pow(2, 4) == 16;
    PowAdd(2, 4, 4);
    PowAdd(2, 8, 8);
  }

  lemma ReducedCongruent(u: nat, p: int, n: nat)
    requires n > 0 && Cong(u, p, n)
    ensures var z := if u >= n then u - n else u;
            Cong(z, p, n) && (z == p % n <==> u < 2 * n)
  {
    var z := if u >= n then u - n else u;
    CongFrom(z, u, n, if u >= n then -1 else 0);
    CongTrans(z, u, p, n);
    CongRemainder(z, p, n);
    SelfRemainder(z, n);
  }

  lemma SelfRemainder(z: nat, n: nat)
    requires n > 0
    ensures z % n == z <==> z < n
  {
  }

  // A modulus that uses its top bit, or an input below the modulus, is enough.
  lemma FullWidthModulus(key: PublicKey, x: nat)
    requires key.WellFormed() && SupportedExponent(key) && x < key.R()
    requires 2 * key.N() >= key.R() || x < key.N()
    ensures Reduce(key, Unreduced(key, x)) == Pow(x, key.exponent) % key.N()
  {
    ModPowCorrect(key, x);
  }

  // ---- A key and an input for which the last subtraction is not enough ----

  // While b + N fits the words, no quotient ever has to be reduced: the product is the exact
  // quotient of a * b plus some multiple of N.
  lemma {:induction false} ProdQuotient(key: PublicKey, a: seq<Word>, b: nat) returns (d: nat)
    requires key.WellFormed() && b + key.N() <= key.R()
    ensures d < Radix(|a|)
    ensures MontProd(key, a, b) * Radix(|a|) == Val(a) * b + d * key.N()
    ensures 0 <= MontProd(key, a, b) < b + key.N()
  {
    hide PublicKey.WellFormed, MontStep;
    MontProdCorrect(key, a, b);
    if a == [] {
      d := 0;
    } else {
      var k := |a| - 1;
      var x, m := a[k], MontProd(key, a[..k], b);
      var e := ProdQuotient(key, a[..k], b);
      MontProdCorrect(key, a[..k], b);
      var f := StepQuotient(key, m, x, b);
      d := e + f * Radix(k);
      DigitBound(e, f, Radix(k), U32);
      NextQuotient(m, MontStep(key, m, x, b), x, b, e, f, Val(a[..k]), Radix(k), key.N());
    }
  }

  lemma StepQuotient(key: PublicKey, m: nat, x: Word, b: nat) returns (f: Word)
    requires key.WellFormed() && b + key.N() <= key.R() && m < b + key.N()
    ensures MontStep(key, m, x, b) * U32 == m + x * b + f * key.N()
  {
    hide PublicKey.WellFormed, Multiplier;
    f := Multiplier(key, (m + x * b) % U32);
    StepExact(key, m, x, b);
    QuotientBound(m, x, b, f, key.N(), (m + x * b + f * key.N()) / U32);
  }

  lemma NextQuotient(m: int, t: int, x: int, b: int, e: int, f: int, v: int, r: int, n: int)
    requires m * r == v * b + e * n && t * U32 == m + x * b + f * n
    ensures t * (U32 * r) == (v + x * r) * b + (e + f * r) * n
  {
    calc {
      t * (U32 * r);
      { Associate(t, U32, r); }
      (m + x * b + f * n) * r;
      m * r + (x * b) * r + (f * n) * r;
      { assert (x * b) * r == (x * r) * b; assert (f * n) * r == (f * r) * n; }
      v * b + e * n + (x * r) * b + (f * r) * n;
    }
  }

  // A number that solves the quotient equation is the Montgomery product, when i inverts N modulo R.
  lemma ProductIs(key: PublicKey, x: nat, y: nat, t: nat, d: nat, i: int, j: int)
    requires key.WellFormed() && x < key.R() && y + key.N() <= key.R()
    requires t * key.R() == x * y + d * key.N() && d < key.R()
    requires key.N() * i == 1 + key.R() * j
    ensures y < key.R() && Mont(key, x, y) == t
  {
    hide PublicKey.WellFormed, MontProd, ToWords;
    var a := ToWords(x, |key.n|);
    var e := ProdQuotient(key, a, y);
    SameQuotient(MontProd(key, a, y), t, x * y, e, d, key.N(), key.R(), i, j);
  }

  lemma SameQuotient(m: int, t: int, p: int, e: int, d: int, n: int, r: int, i: int, j: int)
    requires r > 0 && 0 <= e < r && 0 <= d < r
    requires m * r == p + e * n && t * r == p + d * n && n * i == 1 + r * j
    ensures m == t
  {
    var u, z := m - t, e - d;
    assert u * r == z * n;
    QuotientOfZero(u, z, n, r, i, j);
    NoSmallMultiple(r, u);
  }

  lemma QuotientOfZero(u: int, z: int, n: int, r: int, i: int, j: int)
    requires r > 0 && -r < z < r && u * r == z * n && n * i == 1 + r * j
    ensures z == 0
  {
    calc {
      r * (u * i - z * j);
      { Associate(u, r, i); Associate(r, u, i); Associate(z, r, j); Associate(r, z, j); }
      (u * r) * i - z * (r * j);
      (z * n) * i - z * (n * i - 1);
      { Associate(z, n, i); }
      z;
    }
    NoSmallMultiple(r, u * i - z * j);
  }

  const BASE_252 := 0x1000000000000000000000000000000000000000000000000000000000000000

  // Numbers written in base 2^252, with signed digits.
  function InBase252(c0: int, c1: int, c2: int, c3: int, c4: int): int {
    c0 + BASE_252 * (c1 + BASE_252 * (c2 + BASE_252 * (c3 + BASE_252 * c4)))
  }

  // The modulus 2^1022 - 2^509 + 1, its n0inv and rr, and the input 3 * 2^1022 - 2^257.
  const NARROW_N := InBase252(1, 0, -32, 0, 16384)
  const NARROW_RR := InBase252(16, 0, -1024, 0, 16384)
  const WIDE_INPUT := InBase252(0, -32, 0, 0, 49152)

  lemma ThirtyTwoWords()
    ensures Radix(32) == InBase252(0, 0, 0, 0, 65536)
  {
    assert Pow(U32, 2) == 0x1_0000_0000_0000_0000;
    PowAdd(U32, 2, 2);
    PowAdd(U32, 4, 4);
    PowAdd(U32, 8, 8);
    PowAdd(U32, 16, 16);
  }

  lemma NarrowSizes()
    ensures 0 < NARROW_RR < NARROW_N < WIDE_INPUT && WIDE_INPUT + NARROW_N <= Radix(32)
  {
    ThirtyTwoWords();
  }

  // A key with 32 words, as RSA_verify demands, for a modulus that is 1 modulo 2^32.
  function PlainKey(n: nat, rr: nat): (key: PublicKey)
    requires n < Radix(32) && rr < Radix(32)
    ensures |key.n| == |key.rr| == 32 && key.N() == n && Val(key.rr) == rr
    ensures key.n0inv == 0xFFFF_FFFF && key.exponent == 3
  {
    PublicKey(0xFFFF_FFFF, ToWords(n, 32), ToWords(rr, 32), 3)
  }

  // rr is R^2 less k times n.
  predicate SquareLess(n: int, rr: int, k: int) {
    rr == Radix(32) * Radix(32) - k * n
  }

  lemma PlainKeyWellFormed(n: nat, rr: nat, k: int)
    requires n < Radix(32) && rr < Radix(32) && n % U32 == 1 && SquareLess(n, rr, k)
    ensures PlainKey(n, rr).WellFormed() && PlainKey(n, rr).R() == Radix(32)
  {
    hide Radix, ToWords, Val;
    var key := PlainKey(n, rr);
    ValAtLeastFirst(key.n);
    ModulusPositive(key);
    assert rr - Radix(32) * Radix(32) == -k * n;
    CongFrom(rr, Radix(32) * Radix(32), n, -k);
  }

  // The modulus of this one leaves the two top bits unused.
  function NarrowKey(): (key: PublicKey)
    ensures |key.n| == |key.rr| == 32 && key.N() == NARROW_N && Val(key.rr) == NARROW_RR
    ensures key.n0inv == 0xFFFF_FFFF && key.exponent == 3
  {
    NarrowSizes();
    PlainKey(NARROW_N, NARROW_RR)
  }

  lemma NarrowKeyWellFormed()
    ensures NarrowKey().WellFormed() && NarrowKey().R() == InBase252(0, 0, 0, 0, 65536)
    ensures Val(NarrowKey().rr) == NARROW_RR
  {
    hide Radix, PlainKey, InBase252, NARROW_N, NARROW_RR, SquareLess;
    NarrowSizes();
    ThirtyTwoWords();
    NarrowConstants();
    PlainKeyWellFormed(NARROW_N, NARROW_RR, InBase252(-16, 0, 512, 0, 262144));
  }

  lemma NarrowConstants()
    ensures NARROW_N % U32 == 1 && SquareLess(NARROW_N, NARROW_RR, InBase252(-16, 0, 512, 0, 262144))
  {
    ThirtyTwoWords();
  }

  // The three products of the chain, by their quotient equations.
  lemma NarrowChain()
    requires NarrowKey().WellFormed() && WIDE_INPUT < NarrowKey().R()
    ensures Unreduced(NarrowKey(), WIDE_INPUT) == InBase252(-38, -810, -6326, 20800, 33472)
  {
    hide Mont, Squared, PublicKey.WellFormed, Val, Radix, NarrowKey;
    NarrowKeyWellFormed();
    NarrowSizes();
    var key, x := NarrowKey(), WIDE_INPUT;
    var v := InBase252(13, 128, -800, -4096, 28672);
    var w := InBase252(-36, -720, -712, 47616, 22784);
    var u := InBase252(-38, -810, -6326, 20800, 33472);
    var i := InBase252(1, 0, 32, 0, -15360);
    var j := InBase252(0, 0, 16, 0, -3840) - BASE_252 * (BASE_252 / 2);
    ProductIs(key, x, NARROW_RR, v, InBase252(0, 512, 0, -16384, 65536), i, j);
    ProductIs(key, v, v, w, InBase252(-169, -3328, -992, 204800, 40960), i, j);
    ProductIs(key, w, x, u, InBase252(0, -1152, -23040, -59648, 65536), i, j);
    OneSquaring(key, v);
  }

  lemma OneSquaring(key: PublicKey, v: nat)
    requires key.WellFormed() && v < key.R()
    ensures Squared(key, v, 1) == Mont(key, v, v)
  {
    hide Mont;
    assert Squared(key, v, 0) == v;
  }

  // The key and the input pass every check made before, and the result is not reduced.
  lemma NarrowModulusFails()
    ensures var key := NarrowKey();
      && |key.n| == 32 && key.WellFormed() && SupportedExponent(key)
      && Val(key.rr) < key.N() && WIDE_INPUT < key.R()
      && Reduce(key, Unreduced(key, WIDE_INPUT)) >= key.N()
  {
    hide Unreduced, PublicKey.WellFormed;
    NarrowKeyWellFormed();
    NarrowSizes();
    NarrowChain();
  }

  // Word i is made of the four bytes that start 4 (i + 1) before the end of the buffer.
  method ReadWords(bytes: array<Byte>, a: array<Word>)
    requires bytes.Length == 4 * a.Length
    modifies a
    ensures Val(a[..]) == BE(bytes[..])
  {
    var i := 0;
    while i < a.Length
      invariant 0 <= i <= a.Length
      invariant forall j :: 0 <= j < i ==> a[j] == WordAt(bytes[..], 4 * (a.Length - 1 - j))
    {
      var p := 4 * (a.Length - 1 - i);
      var b0: int, b1: int, b2: int := bytes[p], bytes[p + 1], bytes[p + 2];
      a[i] := b0 * 0x100_0000 + b1 * 0x1_0000 + b2 * 0x100 + bytes[p + 3];
      i := i + 1;
    }
    EncodedValue(bytes[..], a[..]);
  }

  // The words go out from the most significant one, each with its highest byte first.
  method WriteWords(a: array<Word>, bytes: array<Byte>)
    requires bytes.Length == 4 * a.Length
    modifies bytes
    ensures BE(bytes[..]) == Val(a[..])
  {
    var i, p := a.Length, 0;
    while i > 0
      invariant 0 <= i <= a.Length && p == 4 * (a.Length - i)
      invariant forall j :: i <= j < a.Length ==> a[j] == WordAt(bytes[..], 4 * (a.Length - 1 - j))
    {
      i := i - 1;
      WriteWord(bytes, p, a[i]);
      p := p + 4;
    }
    EncodedValue(bytes[..], a[..]);
  }

  method WriteWord(bytes: array<Byte>, p: nat, tmp: Word)
    requires p + 4 <= bytes.Length
    modifies bytes
    ensures WordAt(bytes[..], p) == tmp
    ensures forall k :: 0 <= k < p ==> bytes[k] == old(bytes[k])
  {
    var b0: Byte, b1: Byte := tmp / 0x100_0000, (tmp / 0x1_0000) % 0x100;
    var b2: Byte, b3: Byte := (tmp / 0x100) % 0x100, tmp % 0x100;
    BytesOfWord(tmp);
    bytes[p] := b0;
    bytes[p + 1] := b1;
    bytes[p + 2] := b2;
    bytes[p + 3] := b3;
  }

  lemma BytesOfWord(tmp: int)
    ensures (tmp / 0x100_0000) * 0x100_0000 + ((tmp / 0x1_0000) % 0x100) * 0x1_0000
            + ((tmp / 0x100) % 0x100) * 0x100 + tmp % 0x100 == tmp
  {
    assert tmp / 0x1_0000 == (tmp / 0x100) / 0x100;
    assert tmp / 0x100_0000 == (tmp / 0x1_0000) / 0x100;
  }

  // One squaring of the chain, from array b into array c.
  method MontSquare(key: PublicKey, c: array<Word>, b: array<Word>, ghost v: nat, ghost k: nat)
    requires key.WellFormed() && c.Length == b.Length == |key.n| && c != b
    requires v < key.R() && Val(b[..]) == Squared(key, v, k)
    modifies c
    ensures Val(c[..]) == Squared(key, v, k + 1)
  {
    ToWordsUnique(b[..], Squared(key, v, k));
    MontMul(key, c, b, b);
  }

  method MontgomeryConstant(key: PublicKey) returns (rr: array<Word>)
    requires key.WellFormed()
    ensures fresh(rr) && rr.Length == |key.n| && rr[..] == key.rr
  {
    hide Cong;
    rr := new Word[|key.rr|](i requires 0 <= i < |key.rr| => key.rr[i]);
    assert rr[..] == key.rr;
  }

  // The chain of Montgomery products for a supported exponent.
  method Exponentiate(key: PublicKey, a: array<Word>) returns (aaa: array<Word>)
    requires key.WellFormed() && SupportedExponent(key) && a.Length == |key.n|
    ensures fresh(aaa) && aaa.Length == |key.n|
    ensures Val(a[..]) < key.R() && Val(aaa[..]) == Unreduced(key, Val(a[..]))
  {
    hide Val, Cong, Mont, MontProd, Radix, Pow, PublicKey.WellFormed;
    var len := |key.n|;
    var aR, aaR := new Word[len], new Word[len];
    var rr := MontgomeryConstant(key);
    ghost var x := Val(a[..]);
    ValBound(a[..]);
    ValBound(key.rr);
    ghost var v := Mont(key, x, Val(key.rr));
    MontMulValues(key, aR, a, rr);
    if key.exponent == 65537 {
      aaa := aaR;
      var i := 0;
      while i < 16
        invariant 0 <= i <= 16 && i % 2 == 0
        invariant Val(a[..]) == x
        invariant Val(aR[..]) == Squared(key, v, i)
      {
        MontSquare(key, aaR, aR, v, i);
        MontSquare(key, aR, aaR, v, i + 1);
        i := i + 2;
      }
      MontMulValues(key, aaa, aR, a);
    } else {
      aaa := aR;
      MontSquare(key, aaR, aR, v, 0);
      MontMulValues(key, aaa, aaR, a);
    }
  }

  method MontMulValues(key: PublicKey, c: array<Word>, a: array<Word>, b: array<Word>)
    requires key.WellFormed() && c.Length == a.Length == b.Length == |key.n| && c != a && c != b
    modifies c
    ensures Val(a[..]) < key.R() && Val(b[..]) < key.R()
    ensures Val(c[..]) == Mont(key, Val(a[..]), Val(b[..]))
  {
    ValBound(b[..]);
    ToWordsUnique(a[..], Val(a[..]));
    MontMul(key, c, a, b);
  }

  // The buffer is overwritten with its own power, both as big-endian numbers.
  method ModPow(key: PublicKey, inout: array<Byte>)
    requires key.WellFormed() && SupportedExponent(key)
    requires inout.Length == 4 * |key.n|
    modifies inout
    ensures BE(old(inout[..])) < key.R()
    ensures BE(inout[..]) == Reduce(key, Unreduced(key, BE(old(inout[..]))))
  {
    hide Val, BE, Cong, Unreduced, PublicKey.WellFormed;
    var a := new Word[|key.n|];
    ReadWords(inout, a);
    var aaa := Exponentiate(key, a);
    var ge := GeM(key, aaa);
    if ge {
      SubM(key, aaa);
    }
    WriteWords(aaa, inout);
  }
}

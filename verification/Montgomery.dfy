// Montgomery multiplication on arrays of 32-bit words (crypto/rsa.c).
module Montgomery {
  import opened Arith
  import opened Bignum

  // The modulus length `len` of the key structure is |n|.
  datatype PublicKey = PublicKey(n0inv: Word, n: seq<Word>, rr: seq<Word>, exponent: int)
  {
    function N(): nat { Val(n) }
    function R(): nat { Radix(|n|) }

    // n0inv is -1 / n[0], which is all that multiplication needs.
    ghost predicate Invertible()
      ensures Invertible() ==> N() > 0
    {
      && |n| > 0
      && (n0inv * n[0] + 1) % U32 == 0
      && (ModulusPositive(this); N() > 0)
    }

    // What the key structure's field comments promise: beside that, rr is R^2.
    ghost predicate WellFormed()
      ensures WellFormed() ==> Invertible() && N() > 0
    {
      Invertible() && |rr| == |n| && Cong(Val(rr), R() * R(), N())
    }
  }

  lemma {:induction false} ValAtLeastFirst(s: seq<Word>)
    requires |s| > 0
    ensures Val(s) >= s[0] && Val(s) % U32 == s[0]
  {
    var k := |s| - 1;
    if k == 0 {
      assert s[..0] == [];
    } else {
      ValAtLeastFirst(s[..k]);
      assert s[..k][0] == s[0];
      assert Radix(k) == U32 * Radix(k - 1);
      assert s[k] * Radix(k) == (s[k] * Radix(k - 1)) * U32;
      AddMultiple(Val(s[..k]), s[k] * Radix(k - 1), U32);
    }
  }

  lemma AddMultiple(x: int, k: int, n: int)
    requires n > 0
    ensures (x + k * n) % n == x % n
  {
    CongFrom(x + k * n, x, n, k);
    CongRemainder(x + k * n, x, n);
  }

  lemma ModulusPositive(key: PublicKey)
    requires |key.n| > 0 && (key.n0inv * key.n[0] + 1) % U32 == 0
    ensures key.N() > 0
  {
    ValAtLeastFirst(key.n);
  }

  // The multiple of the modulus that clears a low word.
  function Multiplier(key: PublicKey, low: Word): Word {
    (low * key.n0inv) % U32
  }

  // One Montgomery step on numbers: add a * b, add the multiple of N that clears the low word,
  // drop that word, and subtract N once if the quotient does not fit in the words of c. The words
  // keep only what is below R; MontStepCorrect shows that nothing is lost there.
  function MontStep(key: PublicKey, c: nat, a: Word, b: nat): int {
    var d := Multiplier(key, (c + a * b) % U32);
    var t := (c + a * b + d * key.N()) / U32;
    Fit(t, key.N(), key.R())
  }

  function Fit(t: int, n: int, r: int): int {
    if t < r then t else if t - n < r then t - n else t - n - r
  }

  // The Montgomery product of the number with words a by b.
  function MontProd(key: PublicKey, a: seq<Word>, b: nat): int {
    if a == [] then 0
    else
      var m := MontProd(key, a[..|a| - 1], b);
      if m < 0 then 0 else MontStep(key, m, a[|a| - 1], b)
  }

  lemma LowWordCancels(low: nat, n0inv: nat, n0: nat)
    requires (n0inv * n0 + 1) % U32 == 0
    ensures (((low * n0inv) % U32) * n0 + low) % U32 == 0
  {
    var d, q := (low * n0inv) % U32, (low * n0inv) / U32;
    var u := (n0inv * n0 + 1) / U32;
    calc {
      d * n0 + low;
      (low * n0inv - U32 * q) * n0 + low;
      { Associate(low, n0inv, n0); Associate(U32, q, n0); }
      low * (n0inv * n0) - U32 * (q * n0) + low;
      { assert low * (n0inv * n0 + 1) == low * (n0inv * n0) + low; }
      low * (U32 * u) - U32 * (q * n0);
      { Associate(low, u, U32); }
      (low * u - q * n0) * U32;
    }
    MultipleMod(low * u - q * n0, U32);
  }

  // The low word of c + a * b + d * N vanishes, so the division in MontStep is exact.
  lemma StepExact(key: PublicKey, c: nat, a: Word, b: nat)
    requires key.Invertible()
    ensures var d := Multiplier(key, (c + a * b) % U32);
            (c + a * b + d * key.N()) % U32 == 0
  {
    var s := c + a * b;
    var low := s % U32;
    var d := (low * key.n0inv) % U32;
    LowWordCancels(low, key.n0inv, key.n[0]);
    ValAtLeastFirst(key.n);
    var k := key.N() / U32;
    assert d * key.N() == d * key.n[0] + (d * k) * U32 by {
      assert key.N() == key.n[0] + k * U32;
      Associate(d, k, U32);
    }
    AddMultiple(d * key.n[0] + low, d * k + s / U32, U32);
    assert s + d * key.N() == d * key.n[0] + low + (d * k + s / U32) * U32;
  }

  lemma QuotientBound(c: int, a: int, b: int, d: int, n: int, t: int)
    requires t * U32 == c + a * b + d * n
    requires 0 <= a < U32 && 0 <= d < U32 && b >= 0 && n > 0 && 0 <= c < b + n
    ensures 0 <= t < b + n
  {
    Monotone(a, U32 - 1, b);
    Monotone(d, U32 - 1, n);
    Monotone(0, a, b);
    Monotone(0, d, n);
  }

  lemma Monotone(x: int, y: int, p: int)
    requires x <= y && p >= 0
    ensures x * p <= y * p
  {
    assert (y - x) * p >= 0;
  }

  // One step keeps the running value below b + N and below R, so subtracting N once on overflow is
  // enough, and it multiplies by 1 / 2^32 modulo N.
  lemma MontStepCorrect(key: PublicKey, c: nat, a: Word, b: nat)
    requires key.Invertible() && c < b + key.N() && c < key.R() && b < key.R()
    ensures var m := MontStep(key, c, a, b);
            && 0 <= m < b + key.N() && m < key.R()
            && Cong(m * U32, c + a * b, key.N())
  {
    var n, r := key.N(), key.R();
    var d := Multiplier(key, (c + a * b) % U32);
    var t := (c + a * b + d * n) / U32;
    StepExact(key, c, a, b);
    ValBound(key.n);
    assert t * U32 == c + a * b + d * n;
    QuotientBound(c, a, b, d, n, t);
    if t >= r {
      Distribute(1, t * U32, -n, U32);
      assert (t - n) * U32 - (c + a * b) == (d - U32) * n;
      CongFrom((t - n) * U32, c + a * b, n, d - U32);
    } else {
      CongFrom(t * U32, c + a * b, n, d);
    }
  }

  // Whole product: MontProd * 2^(32 |a|) is congruent to a * b, with the bounds that make lazy
  // reduction safe.
  lemma {:induction false} MontProdCorrect(key: PublicKey, a: seq<Word>, b: nat)
    requires key.Invertible() && b < key.R()
    ensures 0 <= MontProd(key, a, b) < b + key.N() && MontProd(key, a, b) < key.R()
    ensures Cong(MontProd(key, a, b) * Radix(|a|), Val(a) * b, key.N())
  {
    var n := key.N();
    if a == [] {
      CongFrom(0, 0, n, 0);
    } else {
      var k := |a| - 1;
      var x, p := a[k], Radix(k);
      MontProdCorrect(key, a[..k], b);
      var m := MontProd(key, a[..k], b);
      MontStepCorrect(key, m, x, b);
      var m' := MontStep(key, m, x, b);
      var u := CongWitness(m * p, Val(a[..k]) * b, n);
      var v := CongWitness(m' * U32, m + x * b, n);
      assert Radix(|a|) == U32 * p;
      StepCompose(m, m', x, b, p, Val(a[..k]), u, v, n);
      CongFrom(m' * Radix(|a|), Val(a) * b, n, u + v * p);
    }
  }

  lemma StepCompose(m: int, m': int, x: int, b: int, p: int, low: int, u: int, v: int, n: int)
    requires m * p - low * b == u * n
    requires m' * U32 - (m + x * b) == v * n
    ensures m' * (U32 * p) - (low + x * p) * b == (u + v * p) * n
  {
    calc {
      m' * (U32 * p);
      { Associate(m', U32, p); }
      (m' * U32) * p;
      (m + x * b + v * n) * p;
      m * p + (x * b) * p + (v * n) * p;
      { assert (x * b) * p == (x * p) * b; assert (v * n) * p == (v * p) * n; }
      low * b + u * n + (x * p) * b + (v * p) * n;
    }
  }

  // The low i words of c hold x - n so far, up to the borrow.
  ghost predicate Subtracted(x: seq<Word>, n: seq<Word>, c: seq<Word>, i: nat, borrow: int)
    requires i <= |x| == |n| == |c|
  {
    && c[i..] == x[i..]
    && Val(x[..i]) - Val(n[..i]) == Val(c[..i]) + borrow * Radix(i)
  }

  lemma SubtractWord(x: seq<Word>, n: seq<Word>, c: seq<Word>, i: nat, borrow: int)
    requires i < |x| == |n| == |c| && Subtracted(x, n, c, i, borrow)
    ensures c[i] == x[i]
    ensures var s := borrow + x[i] - n[i];
            Subtracted(x, n, c[i := s % U32], i + 1, s / U32)
  {
    var s := borrow + x[i] - n[i];
    var c' := c[i := s % U32];
    assert c[i] == c[i..][0] == x[i..][0] == x[i];
    assert c'[i + 1..] == c[i..][1..] && x[i + 1..] == x[i..][1..];
    assert c'[..i] == c[..i];
    ValPrefix(x, i);
    ValPrefix(n, i);
    ValPrefix(c', i);
    assert Radix(i + 1) == U32 * Radix(i);
    SubtractSums(Val(x[..i]), Val(n[..i]), Val(c[..i]), borrow, x[i], n[i], Radix(i));
  }

  lemma SubtractSums(v: int, w: int, z: int, borrow: int, x: int, y: int, p: int)
    requires v - w == z + borrow * p
    ensures var s := borrow + x - y;
            (v + x * p) - (w + y * p) == (z + (s % U32) * p) + (s / U32) * (U32 * p)
  {
    var s := borrow + x - y;
    SubtractDigit(s, p);
    assert s * p == borrow * p + x * p - y * p;
  }

  lemma SubtractedAll(x: seq<Word>, n: seq<Word>, c: seq<Word>, borrow: int)
    requires |x| == |n| == |c| && Subtracted(x, n, c, |x|, borrow) && -1 <= borrow <= 0
    ensures Val(c) == Val(x) - Val(n) + (if Val(x) < Val(n) then Radix(|n|) else 0)
  {
    assert x[..|x|] == x && n[..|x|] == n && c[..|x|] == c;
    ValBound(c);
    ValBound(x);
    ValBound(n);
    BorrowOut(Val(x), Val(n), Val(c), borrow, Radix(|n|));
  }

  lemma BorrowOut(x: int, n: int, c: int, borrow: int, r: int)
    requires 0 <= x < r && 0 <= n < r && 0 <= c < r && -1 <= borrow <= 0
    requires x - n == c + borrow * r
    ensures c == x - n + (if x < n then r else 0)
  {
  }

  lemma CarryTimes(carry: int, r: int)
    requires 0 <= carry <= 1
    ensures carry * r == if carry == 0 then 0 else r
  {
  }

  // a[] -= n, modulo R.
  method SubM(key: PublicKey, a: array<Word>)
    requires a.Length == |key.n|
    modifies a
    ensures var x := Val(old(a[..]));
            Val(a[..]) == x - key.N() + (if x < key.N() then key.R() else 0)
  {
    ghost var x := a[..];
    var borrow := 0;
    var i := 0;
    assert Val(x[..0]) == 0 && Val(key.n[..0]) == 0 && Val(a[..][..0]) == 0;
    while i < a.Length
      invariant 0 <= i <= a.Length
      invariant -1 <= borrow <= 0
      invariant Subtracted(x, key.n, a[..], i, borrow)
    {
      ghost var c := a[..];
      SubtractWord(x, key.n, c, i, borrow);
      borrow := borrow + a[i] - key.n[i];
      a[i] := borrow % U32;
      borrow := borrow / U32;
      assert a[..] == c[i := a[i]];
      i := i + 1;
    }
    SubtractedAll(x, key.n, a[..], borrow);
  }

  lemma SubtractDigit(s: int, p: int)
    ensures (s % U32) * p + (s / U32) * (U32 * p) == s * p
  {
    assert s == s % U32 + (s / U32) * U32;
    Associate(s / U32, U32, p);
  }

  // a[] >= n
  method GeM(key: PublicKey, a: array<Word>) returns (r: bool)
    requires a.Length == |key.n|
    ensures r <==> Val(a[..]) >= key.N()
  {
    var i := a.Length;
    while i > 0
      invariant 0 <= i <= a.Length
      invariant a[i..] == key.n[i..]
    {
      i := i - 1;
      if a[i] < key.n[i] {
        ValCompare(a[..], key.n, i);
        return false;
      }
      if a[i] > key.n[i] {
        ValCompare(key.n, a[..], i);
        return true;
      }
      assert a[i..] == [a[i]] + a[i + 1..] && key.n[i..] == [key.n[i]] + key.n[i + 1..];
    }
    assert a[..] == key.n;
    return true;
  }

  // One more word of the interleaved sums A = c + a * b and B = A + d0 * n.
  lemma AccumulateWord(low: int, v: int, acc: int, accB: int, acc': int, accB': int,
                       ci: int, ab: int, dn: int, q: int)
    requires low == U32 * v + (acc / U32 + accB / U32) * (U32 * q)
    requires acc' == acc / U32 + ab + ci && accB' == accB / U32 + dn + acc' % U32
    ensures low + (ci + ab + dn) * (U32 * q)
         == U32 * (v + (accB' % U32) * q) + (acc' / U32 + accB' / U32) * (U32 * (U32 * q))
  {
    var p := U32 * q;
    var x, y := acc' / U32, accB' / U32;
    assert acc / U32 + accB / U32 + ci + ab + dn == accB' % U32 + (x + y) * U32;
    calc {
      low + (ci + ab + dn) * p;
      U32 * v + (acc / U32 + accB / U32) * p + (ci + ab + dn) * p;
      U32 * v + (acc / U32 + accB / U32 + ci + ab + dn) * p;
      U32 * v + (accB' % U32 + (x + y) * U32) * p;
      { assert (accB' % U32 + (x + y) * U32) * p == (accB' % U32) * p + ((x + y) * U32) * p;
        Associate(x + y, U32, p); Associate(U32, accB' % U32, q); }
      U32 * v + U32 * ((accB' % U32) * q) + (x + y) * (U32 * p);
    }
  }

  lemma SumOfPrefixes(c: seq<Word>, b: seq<Word>, n: seq<Word>, a: int, d: int, i: nat)
    requires i < |c| == |b| == |n|
    ensures Val(c[..i + 1]) + a * Val(b[..i + 1]) + d * Val(n[..i + 1])
         == Val(c[..i]) + a * Val(b[..i]) + d * Val(n[..i]) + (c[i] + a * b[i] + d * n[i]) * Radix(i)
  {
    ValPrefix(c, i);
    ValPrefix(b, i);
    ValPrefix(n, i);
    Distribute(a, Val(b[..i]), b[i], Radix(i));
    Distribute(d, Val(n[..i]), n[i], Radix(i));
  }

  lemma Distribute(a: int, v: int, x: int, p: int)
    ensures a * (v + x * p) == a * v + (a * x) * p
  {
    Associate(a, x, p);
  }

  // One multiply-accumulate; its result type says that it never wraps a 64-bit word.
  function MulAdd(carry: Word, x: Word, y: Word, z: Word): DoubleWord {
    Monotone(0, x, y);
    Monotone(x, 0xFFFF_FFFF, y);
    carry + x * y + z
  }

  // After i words of the interleaved sums A = c + a * b and B = A + d * n, the words of c below
  // i - 1 hold all but the two carries of (x + a * b + d * n) / 2^32.
  ghost predicate Accumulated(x: seq<Word>, b: seq<Word>, n: seq<Word>, a: int, d: int,
                              c: seq<Word>, i: nat, A: int, B: int)
    requires 0 < i <= |x| == |b| == |n| == |c|
  {
    && c[i..] == x[i..]
    && Val(x[..i]) + a * Val(b[..i]) + d * Val(n[..i])
       == U32 * Val(c[..i - 1]) + (A / U32 + B / U32) * (U32 * Radix(i - 1))
  }

  lemma FirstWord(key: PublicKey, x: seq<Word>, b: seq<Word>, a: Word)
    requires key.Invertible() && |x| == |b| == |key.n|
    ensures var A := MulAdd(0, a, b[0], x[0]);
            var d := Multiplier(key, A % U32);
            var B := MulAdd(0, d, key.n[0], A % U32);
            Accumulated(x, b, key.n, a, d, x, 1, A, B)
  {
    var A := MulAdd(0, a, b[0], x[0]);
    var d := Multiplier(key, A % U32);
    LowWordCancels(A % U32, key.n0inv, key.n[0]);
    SumOfPrefixes(x, b, key.n, a, d, 0);
    assert x[..0] == [] && b[..0] == [] && key.n[..0] == [];
    assert x[..1 - 1] == [];
    assert Radix(0) == 1;
  }

  lemma NextWord(x: seq<Word>, b: seq<Word>, n: seq<Word>, a: Word, d: Word,
                 c: seq<Word>, i: nat, A: DoubleWord, B: DoubleWord)
    requires 0 < i < |x| == |b| == |n| == |c| && Accumulated(x, b, n, a, d, c, i, A, B)
    ensures c[i] == x[i]
    ensures var A' := MulAdd(A / U32, a, b[i], c[i]);
            var B' := MulAdd(B / U32, d, n[i], A' % U32);
            Accumulated(x, b, n, a, d, c[i - 1 := B' % U32], i + 1, A', B')
  {
    var A' := MulAdd(A / U32, a, b[i], x[i]);
    var B' := MulAdd(B / U32, d, n[i], A' % U32);
    assert c[i] == c[i..][0] == x[i..][0] == x[i];
    var c' := c[i - 1 := B' % U32];
    assert c'[i + 1..] == c[i..][1..] && x[i + 1..] == x[i..][1..];
    assert c'[..i - 1] == c[..i - 1];
    ValPrefix(c', i - 1);
    assert Radix(i) == U32 * Radix(i - 1);
    SumOfPrefixes(x, b, n, a, d, i);
    AccumulateWord(Val(x[..i]) + a * Val(b[..i]) + d * Val(n[..i]), Val(c[..i - 1]), A, B, A', B',
                   x[i], a * b[i], d * n[i], Radix(i - 1));
  }

  // The last word and the carry out.
  lemma LastWord(x: seq<Word>, b: seq<Word>, n: seq<Word>, a: int, d: int,
                 c: seq<Word>, A: int, B: int)
    requires 0 < |x| == |b| == |n| == |c| && Accumulated(x, b, n, a, d, c, |c|, A, B)
    ensures var T := A / U32 + B / U32;
            var c' := c[|c| - 1 := T % U32];
            Val(x) + a * Val(b) + d * Val(n) == U32 * (Val(c') + (T / U32) * Radix(|c|))
  {
    var k := |c| - 1;
    var T := A / U32 + B / U32;
    var c' := c[k := T % U32];
    assert c'[..k] == c[..k] && c'[..k + 1] == c';
    assert x[..k + 1] == x && b[..k + 1] == b && n[..k + 1] == n;
    ValPrefix(c', k);
    assert Radix(|c|) == U32 * Radix(k);
    CarryOut(Val(c[..k]), T, Radix(k));
  }

  // c[] += a * b[] / 2^32, modulo n.
  method MontMulAdd(key: PublicKey, c: array<Word>, a: Word, b: array<Word>)
    requires key.Invertible() && c.Length == b.Length == |key.n| && c != b
    modifies c
    ensures Val(c[..]) == MontStep(key, Val(old(c[..])), a, Val(b[..]))
  {
    hide MulAdd, Multiplier, MontStep, Accumulated, Val, PublicKey.N, PublicKey.R;
    ghost var x, y := c[..], b[..];
    var A: DoubleWord := MulAdd(0, a, b[0], c[0]);
    var d0 := Multiplier(key, A % U32);
    var B: DoubleWord := MulAdd(0, d0, key.n[0], A % U32);
    FirstWord(key, x, y, a);
    var i := 1;
    while i < c.Length
      invariant 1 <= i <= c.Length
      invariant b[..] == y
      invariant Accumulated(x, y, key.n, a, d0, c[..], i, A, B)
    {
      ghost var before := c[..];
      NextWord(x, y, key.n, a, d0, before, i, A, B);
      A := MulAdd(A / U32, a, b[i], c[i]);
      B := MulAdd(B / U32, d0, key.n[i], A % U32);
      c[i - 1] := B % U32;
      assert c[..] == before[i - 1 := c[i - 1]];
      i := i + 1;
    }
    Finish(key, x, a, y, c[..], A, B);
    ghost var before := c[..];
    A := A / U32 + B / U32;
    c[i - 1] := A % U32;
    assert c[..] == before[i - 1 := c[i - 1]];
    if A / U32 != 0 {
      SubM(key, c);
    }
  }

  lemma Finish(key: PublicKey, x: seq<Word>, a: Word, b: seq<Word>, c: seq<Word>, A: DoubleWord, B: DoubleWord)
    requires key.Invertible() && |x| == |b| == |c| == |key.n|
    requires Accumulated(x, b, key.n, a, Multiplier(key, MulAdd(0, a, b[0], x[0]) % U32), c, |c|, A, B)
    ensures var T := A / U32 + B / U32;
            var v := Val(c[|c| - 1 := T % U32]);
            && T / U32 <= 1
            && MontStep(key, Val(x), a, Val(b))
               == if T / U32 == 0 then v else v - key.N() + (if v < key.N() then key.R() else 0)
  {
    hide MulAdd, Multiplier, MontStep, Accumulated, Val, Radix, Pow;
    var d := Multiplier(key, MulAdd(0, a, b[0], x[0]) % U32);
    var T := A / U32 + B / U32;
    var c' := c[|c| - 1 := T % U32];
    LastWord(x, b, key.n, a, d, c, A, B);
    ValBound(c');
    StepResult(key, x, a, b, d, Val(c'), T / U32);
  }

  // Subtracting n once when there is a carry gives what MontStep says.
  lemma StepResult(key: PublicKey, c: seq<Word>, a: Word, b: seq<Word>, d0: Word, v: nat, carry: nat)
    requires key.Invertible() && |c| == |b| == |key.n|
    requires d0 == Multiplier(key, MulAdd(0, a, b[0], c[0]) % U32)
    requires Val(c) + a * Val(b) + d0 * key.N() == U32 * (v + carry * key.R())
    requires carry <= 1 && v < key.R()
    ensures MontStep(key, Val(c), a, Val(b))
         == if carry == 0 then v else v - key.N() + (if v < key.N() then key.R() else 0)
  {
    var t := v + carry * key.R();
    CarryTimes(carry, key.R());
    FirstDigit(key, c, a, b, t, d0);
    ValBound(key.n);
    assert MontStep(key, Val(c), a, Val(b)) == Fit(t, key.N(), key.R());
  }

  lemma CarryOut(v: int, acc: int, q: int)
    ensures U32 * v + acc * (U32 * q) == U32 * (v + (acc % U32) * q + (acc / U32) * (U32 * q))
  {
    SubtractDigit(acc, q);
    assert acc * (U32 * q) == U32 * (acc * q);
  }

  // The d0 read off the first words is the multiplier of MontStep, and t its quotient.
  lemma FirstDigit(key: PublicKey, c: seq<Word>, a: Word, b: seq<Word>, t: int, d0: Word)
    requires key.Invertible() && |c| == |b| == |key.n|
    requires d0 == Multiplier(key, MulAdd(0, a, b[0], c[0]) % U32)
    requires Val(c) + a * Val(b) + d0 * key.N() == U32 * t
    ensures d0 == Multiplier(key, (Val(c) + a * Val(b)) % U32)
    ensures t == (Val(c) + a * Val(b) + d0 * key.N()) / U32
  {
    ValAtLeastFirst(c);
    ValAtLeastFirst(b);
    SameLowWord(Val(c), c[0], a, Val(b), b[0]);
  }

  lemma SameLowWord(c: int, c0: int, a: int, b: int, b0: int)
    requires c % U32 == c0 && b % U32 == b0
    ensures (c + a * b) % U32 == (a * b0 + c0) % U32
  {
    var j, k := c / U32, b / U32;
    Associate(a, k, U32);
    assert a * b == a * b0 + a * (k * U32);
    AddMultiple(a * b0 + c0, j + a * k, U32);
  }

  // One word of a after the other, over a result that starts at zero.
  method MontMul(key: PublicKey, c: array<Word>, a: array<Word>, b: array<Word>)
    requires key.Invertible() && c.Length == a.Length == b.Length == |key.n| && c != a && c != b
    modifies c
    ensures Val(c[..]) == MontProd(key, a[..], Val(b[..]))
  {
    var i := 0;
    while i < c.Length
      invariant 0 <= i <= c.Length
      invariant forall j :: 0 <= j < i ==> c[j] == 0
    {
      c[i] := 0;
      i := i + 1;
    }
    ValZero(c[..]);
    ghost var x, y := a[..], b[..];
    ValBound(y);
    assert x[..0] == [];
    i := 0;
    while i < c.Length
      invariant 0 <= i <= c.Length
      invariant a[..] == x && b[..] == y
      invariant Val(c[..]) == MontProd(key, x[..i], Val(y))
    {
      assert x[..i + 1][..i] == x[..i];
      MontProdCorrect(key, x[..i], Val(y));
      MontStepCorrect(key, Val(c[..]), x[i], Val(y));
      MontMulAdd(key, c, a[i], b);
      i := i + 1;
    }
    assert x[..i] == x;
  }
}

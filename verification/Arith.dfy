// Integer powers and congruences, the arithmetic the bignum code rests on.
module Arith {
  // The number of values of a 32-bit word.
  const U32 := 0x1_0000_0000

  function Min(a: int, b: int): int { if a < b then a else b }
  function Max(a: int, b: int): int { if a > b then a else b }

  function Pow(b: int, e: nat): int {
    if e == 0 then 1 else b * Pow(b, e - 1)
  }

  lemma {:induction false} PowPositive(b: int, e: nat)
    requires b > 0
    ensures Pow(b, e) > 0
  {
    if e > 0 {
      PowPositive(b, e - 1);
    }
  }

  lemma {:induction false} PowAdd(b: int, e: nat, f: nat)
    ensures Pow(b, e + f) == Pow(b, e) * Pow(b, f)
  {
    if e > 0 {
      PowAdd(b, e - 1, f);
      Associate(b, Pow(b, e - 1), Pow(b, f));
    }
  }

  lemma {:induction false} PowMul(a: int, b: int, e: nat)
    ensures Pow(a * b, e) == Pow(a, e) * Pow(b, e)
  {
    if e > 0 {
      PowMul(a, b, e - 1);
      var x, y := Pow(a, e - 1), Pow(b, e - 1);
      calc {
        (a * b) * (x * y);
        { Associate(a * b, x, y); Associate(a, b, x); }
        (a * (b * x)) * y;
        { Associate(a, x, b); }
        ((a * x) * b) * y;
        { Associate(a * x, b, y); }
        (a * x) * (b * y);
      }
    }
  }

  lemma {:induction false} PowOne(e: nat)
    ensures Pow(1, e) == 1
  {
    if e > 0 {
      PowOne(e - 1);
    }
  }

  // Four base-256 digits make one base-2^32 digit.
  lemma {:induction false} PowBytesWords(k: nat)
    ensures Pow(256, 4 * k) == Pow(U32, k)
  {
    if k > 0 {
      PowBytesWords(k - 1);
      var p := Pow(256, 4 * k - 4);
      assert Pow(256, 4 * k - 3) == 256 * p;
      assert Pow(256, 4 * k - 2) == 0x1_0000 * p;
      assert Pow(256, 4 * k - 1) == 0x100_0000 * p;
    }
  }

  lemma Associate(a: int, b: int, c: int)
    ensures (a * b) * c == a * (b * c)
  {
  }

  lemma NoSmallMultiple(n: int, d: int)
    requires n > 0
    ensures d == 0 || n * d >= n || n * d <= -n
  {
    if d >= 1 {
      assert n * d >= n * 1;
    } else if d <= -1 {
      assert n * d <= n * -1;
    }
  }

  lemma MultipleMod(k: int, n: int)
    requires n > 0
    ensures (k * n) % n == 0
  {
    var q, r := (k * n) / n, (k * n) % n;
    assert n * (k - q) == r;
    NoSmallMultiple(n, k - q);
  }

  // a and b leave the same remainder modulo n.
  ghost predicate Cong(a: int, b: int, n: int)
    requires n > 0
  {
    (a - b) % n == 0
  }

  lemma CongFrom(a: int, b: int, n: int, k: int)
    requires n > 0 && a - b == k * n
    ensures Cong(a, b, n)
  {
    MultipleMod(k, n);
  }

  lemma CongWitness(a: int, b: int, n: int) returns (k: int)
    requires n > 0 && Cong(a, b, n)
    ensures a - b == k * n
  {
    k := (a - b) / n;
  }

  lemma CongSym(a: int, b: int, n: int)
    requires n > 0 && Cong(a, b, n)
    ensures Cong(b, a, n)
  {
    var k := CongWitness(a, b, n);
    assert b - a == (-k) * n;
    CongFrom(b, a, n, -k);
  }

  lemma CongTrans(a: int, b: int, c: int, n: int)
    requires n > 0 && Cong(a, b, n) && Cong(b, c, n)
    ensures Cong(a, c, n)
  {
    var j := CongWitness(a, b, n);
    var k := CongWitness(b, c, n);
    assert a - c == (j + k) * n;
    CongFrom(a, c, n, j + k);
  }

  lemma CongMul(a: int, b: int, c: int, d: int, n: int)
    requires n > 0 && Cong(a, b, n) && Cong(c, d, n)
    ensures Cong(a * c, b * d, n)
  {
    var j := CongWitness(a, b, n);
    var k := CongWitness(c, d, n);
    calc {
      a * c - b * d;
      (a - b) * c + b * (c - d);
      (j * n) * c + b * (k * n);
      { assert (j * n) * c == (j * c) * n; assert b * (k * n) == (b * k) * n; }
      (j * c + b * k) * n;
    }
    CongFrom(a * c, b * d, n, j * c + b * k);
  }

  lemma {:induction false} CongPow(a: int, b: int, e: nat, n: int)
    requires n > 0 && Cong(a, b, n)
    ensures Cong(Pow(a, e), Pow(b, e), n)
  {
    if e == 0 {
      CongFrom(1, 1, n, 0);
    } else {
      CongPow(a, b, e - 1, n);
      CongMul(a, b, Pow(a, e - 1), Pow(b, e - 1), n);
    }
  }

  lemma CongRefl(a: int, n: int)
    requires n > 0
    ensures Cong(a, a, n)
  {
    CongFrom(a, a, n, 0);
  }

  // Congruent numbers have equal remainders, and the remainder is congruent.
  lemma CongRemainder(a: int, b: int, n: int)
    requires n > 0 && Cong(a, b, n)
    ensures a % n == b % n
  {
    var k := CongWitness(a, b, n);
    var d := a / n - k - b / n;
    assert b % n - a % n == n * d;
    NoSmallMultiple(n, d);
  }

  lemma CongReduced(a: int, n: int)
    requires n > 0
    ensures Cong(a, a % n, n)
  {
    CongFrom(a, a % n, n, a / n);
  }
}

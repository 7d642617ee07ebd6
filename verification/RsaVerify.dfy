// The signature check of the bootstub (crypto/rsa.c) and the signer's encoding (crypto/sign.py).
module RsaVerify {
  import opened Arith
  import opened Bytes
  import opened Bignum
  import opened Montgomery
  import opened Exponentiation

  const RSANUMBYTES := 128
  const RSANUMWORDS := 32
  const SHA_DIGEST_SIZE := 20

  function Repeat(b: Byte, n: nat): (s: seq<Byte>)
    ensures |s| == n
  {
    seq(n, _ => b)
  }

  // 00 01, 105 bytes FF, 00, and room for the hash: the table sha_padding_1024.
  function Padding(): (s: seq<Byte>)
    ensures |s| == RSANUMBYTES
  {
    [0, 1] + Repeat(0xff, 105) + [0] + Zeros(SHA_DIGEST_SIZE)
  }

  // The encoded message the signer raises to its private exponent.
  function Encoding(hash: seq<Byte>): (s: seq<Byte>)
    requires |hash| == SHA_DIGEST_SIZE
    ensures |s| == RSANUMBYTES
  {
    [0, 1] + Repeat(0xff, 105) + [0] + hash
  }

  // Xor-ing the hash into the tail and comparing with the padding is comparing with the encoding.
  lemma XorTailMatches(buf: seq<Byte>, hash: seq<Byte>, mixed: seq<Byte>)
    requires |buf| == |mixed| == RSANUMBYTES && |hash| == SHA_DIGEST_SIZE
    requires mixed[..108] == buf[..108]
    requires forall j :: 0 <= j < 20 ==> mixed[108 + j] == Xor(buf[108 + j], hash[j])
    ensures mixed == Padding() <==> buf == Encoding(hash)
  {
    forall j | 0 <= j < 20 ensures mixed[108..][j] == 0 <==> buf[108..][j] == hash[j] {
      XorZero(buf[108 + j], hash[j]);
    }
    var head := [0, 1] + Repeat(0xff, 105) + [0];
    assert mixed == mixed[..108] + mixed[108..] && buf == buf[..108] + buf[108..];
    SplitEqual(buf[..108], mixed[108..], head, Zeros(20));
    SplitEqual(buf[..108], buf[108..], head, hash);
  }

  lemma SplitEqual(a: seq<Byte>, b: seq<Byte>, c: seq<Byte>, d: seq<Byte>)
    requires |a| == |c| && |b| == |d|
    ensures a + b == c + d <==> a == c && forall j :: 0 <= j < |b| ==> b[j] == d[j]
  {
    if a + b == c + d {
      assert (a + b)[..|a|] == a && (c + d)[..|a|] == c;
      assert (a + b)[|a|..] == b && (c + d)[|a|..] == d;
    } else if a == c {
      assert b != d;
    }
  }

  predicate Supported(key: PublicKey, signature: seq<Byte>, hash: seq<Byte>) {
    && |key.n| == RSANUMWORDS && |signature| == RSANUMBYTES
    && |hash| == SHA_DIGEST_SIZE && SupportedExponent(key)
  }

  // signature^e mod n is the encoding of the hash.
  predicate IsVerified(key: PublicKey, signature: seq<Byte>, hash: seq<Byte>)
    requires key.N() > 0
  {
    Supported(key, signature, hash) && BE(Encoding(hash)) == Pow(BE(signature), key.exponent) % key.N()
  }

  // RSA_verify accepts only when the lengths and the exponent are supported and signature^e is the
  // encoding of the hash modulo n; with a modulus that uses its top bit, or a signature below the
  // modulus, it accepts exactly when signature^e mod n is that encoding.
  method RSAVerify(key: PublicKey, signature: seq<Byte>, hash: seq<Byte>) returns (ok: bool)
    requires key.WellFormed()
    ensures ok ==> Supported(key, signature, hash)
    ensures ok ==> Cong(BE(Encoding(hash)), Pow(BE(signature), key.exponent), key.N())
    ensures 2 * key.N() >= key.R() || BE(signature) < key.N() ==> (ok <==> IsVerified(key, signature, hash))
  {
    hide Val, BE, Cong, PublicKey.WellFormed, Padding, Encoding, Unreduced, Reduce, Radix, Xor;
    if |key.n| != RSANUMWORDS {
      return false;
    }
    if |signature| != RSANUMBYTES {
      return false;
    }
    if |hash| != SHA_DIGEST_SIZE {
      return false;
    }
    if key.exponent != 3 && key.exponent != 65537 {
      return false;
    }
    var buf := new Byte[RSANUMBYTES](i requires 0 <= i < |signature| => signature[i]);
    assert buf[..] == signature;
    ModPow(key, buf);
    ghost var raised := buf[..];
    ModPowCorrect(key, BE(signature));
    if 2 * key.N() >= key.R() || BE(signature) < key.N() {
      FullWidthModulus(key, BE(signature));
    }

    // a matching tail turns into zeros
    var i := RSANUMBYTES - SHA_DIGEST_SIZE;
    while i < RSANUMBYTES
      invariant 108 <= i <= RSANUMBYTES
      invariant forall k :: 0 <= k < 108 || i <= k < RSANUMBYTES ==> buf[k] == raised[k]
      invariant forall j :: 0 <= j < i - 108 ==> buf[108 + j] == Xor(raised[108 + j], hash[j])
    {
      buf[i] := Xor(buf[i], hash[i - 108]);
      i := i + 1;
    }
    XorTailMatches(raised, hash, buf[..]);
    SameValueSameBytes(raised, Encoding(hash));

    var padding := Padding();
    i := 0;
    while i < RSANUMBYTES
      invariant 0 <= i <= RSANUMBYTES
      invariant buf[..i] == padding[..i]
    {
      if buf[i] != padding[i] {
        assert buf[..][i] != padding[i];
        return false;
      }
      i := i + 1;
    }
    assert buf[..] == padding;
    return true;
  }

  // ---- The range of signatures ----

  // RSAVP1 rejects a signature that is not below the modulus; RSA_verify does not look. With a
  // full-width modulus it accepts a signature t at or above the modulus exactly when it accepts the
  // signature t - n, which is the one RSAVP1 would have to be given.
  lemma RangeUnchecked(key: PublicKey, t: seq<Byte>, hash: seq<Byte>)
    requires key.WellFormed() && 2 * key.N() >= key.R() && |key.n| == RSANUMWORDS
    requires |t| == RSANUMBYTES && key.N() <= BE(t)
    ensures BE(t) - key.N() < Pow(256, RSANUMBYTES) && BE(t) - key.N() < key.N()
    ensures IsVerified(key, t, hash) <==> IsVerified(key, ToBytes(BE(t) - key.N(), RSANUMBYTES), hash)
  {
    hide ToBytes, Pow, BE, Encoding, PublicKey.WellFormed;
    BEBound(t);
    PowBytesWords(32);
    var v, n := BE(t), key.N();
    var s := ToBytes(v - n, RSANUMBYTES);
    ToBytesValue(v - n, RSANUMBYTES);
    CongFrom(v, v - n, n, 1);
    if SupportedExponent(key) {
      CongPow(v, v - n, key.exponent, n);
      CongRemainder(Pow(v, key.exponent), Pow(v - n, key.exponent), n);
    }
  }

  // So every accepted signature below R - n has an accepted twin outside the range.
  lemma OutOfRangeTwin(key: PublicKey, s: seq<Byte>, hash: seq<Byte>)
    requires key.WellFormed() && 2 * key.N() >= key.R()
    requires IsVerified(key, s, hash) && BE(s) + key.N() < key.R()
    ensures var t := ToBytes(BE(s) + key.N(), RSANUMBYTES);
      BE(t) == BE(s) + key.N() && IsVerified(key, t, hash)
  {
    hide ToBytes, Pow, BE, Encoding, PublicKey.WellFormed;
    PowBytesWords(32);
    var t := ToBytes(BE(s) + key.N(), RSANUMBYTES);
    ToBytesValue(BE(s) + key.N(), RSANUMBYTES);
    RangeUnchecked(key, t, hash);
    ToBytesValue(BE(s), RSANUMBYTES);
    BEInjective(ToBytes(BE(t) - key.N(), RSANUMBYTES), s);
  }

  // ---- A key with such a signature ----

  // The cube of 5 * 2^339 + 1 exceeds the encoding of the zero hash by a number that uses the top
  // bit of 1024; with that number as modulus, it signs the zero hash.
  const ZERO_HASH := Zeros(SHA_DIGEST_SIZE)
  const CUBE_ROOT: nat := InBase252(1, 0x280_0000_0000_0000_0000_0000, 0, 0, 0)
  const ENCODED := InBase252(-0x100_0000_0000_0000_0000_0000_0000_0000_0000_0000_0000, 0, 0, 0, 2)
  const WIDE_N: nat := InBase252(
    0x100_0000_0000_0000_0000_0000_0000_0000_0000_0000_0001, 0x780_0000_0000_0000_0000_0000,
    0x12_c000_0000_0000_0000_0000_0000_0000_0000_0000_0000_0000, 0, 0xf9fe)

  // R^2 modulo WIDE_N, and the quotient.
  const WIDE_RR: nat := InBase252(
    0x4aa1d50940fcb0a45c4b9213c546dcd7571ea66b5f2da43987799c30e102f3e,
    0xd88c08ce1a299a103f9c0e2d65cc8866390af0e4babb14d28883d8fc15242ca,
    0x4c8e001efe20eb900b23d637b9e451e00fdc7c8a584ddc4c92f1bae5229da9f,
    0xe181ef9159cf07d87ba120d643cd4a99e409b10762f8165fd971fd1e55469bb, 0xc1f9)
  const WIDE_QUOTIENT := InBase252(
    0xe302647e389f803ca6a84dec3ab92328a8e15994a0d25bc6788663cf1efd0c2,
    0x559408c4eb4755faa32479f22363a4233d88dad5d0662781e5499c75d542894,
    0x38bcdeb1e8d8e71c77d4b646b757b7560704663d95a9e26208414d25e196147,
    0xf6125a424210e99b78071aae4b1f522baa5554a690b1491929294a0eedaffb4, 0x10626)

  lemma WideConstants()
    ensures WIDE_N % U32 == 1 && 0 < ENCODED < WIDE_N && 0 < WIDE_RR < WIDE_N < Radix(RSANUMWORDS) <= 2 * WIDE_N
    ensures CUBE_ROOT < WIDE_N && CUBE_ROOT + WIDE_N < Radix(RSANUMWORDS)
  {
    ThirtyTwoWords();
  }

  lemma WideCube()
    ensures CUBE_ROOT * (CUBE_ROOT * CUBE_ROOT) == WIDE_N + ENCODED
  {
  }

  lemma WideReduced()
    ensures SquareLess(WIDE_N, WIDE_RR, WIDE_QUOTIENT)
  {
    ThirtyTwoWords();
  }

  lemma {:induction false} RepeatedDigits(k: nat, t: seq<Byte>)
    ensures BE(Repeat(0xff, k) + t) == (Pow(256, k) - 1) * Pow(256, |t|) + BE(t)
  {
    if k == 0 {
      assert Repeat(0xff, 0) + t == t;
    } else {
      var s := Repeat(0xff, k) + t;
      assert s[1..] == Repeat(0xff, k - 1) + t;
      RepeatedDigits(k - 1, t);
      LeadingDigit(s);
      PowAdd(256, k - 1, |t|);
      AddDigit(Pow(256, k - 1), Pow(256, |t|));
    }
  }

  lemma AddDigit(p: int, q: int)
    ensures 0xff * (p * q) + (p - 1) * q == (256 * p - 1) * q
  {
  }

  lemma {:induction false} ZeroDigits(k: nat)
    ensures BE(Zeros(k)) == 0
  {
    if k > 0 {
      assert Zeros(k)[1..] == Zeros(k - 1);
      ZeroDigits(k - 1);
    }
  }

  lemma EncodedZeroHash()
    ensures BE(Encoding(ZERO_HASH)) == 2 * Pow(256, 126) - Pow(256, 21)
  {
    hide BE, Pow;
    var e, t := Encoding(ZERO_HASH), [0] + ZERO_HASH;
    assert t == Zeros(21);
    ZeroDigits(21);
    assert e[1..][1..] == Repeat(0xff, 105) + t;
    LeadingDigit(e);
    LeadingDigit(e[1..]);
    RepeatedDigits(105, t);
    PowAdd(256, 105, 21);
    FirstTwoDigits(Pow(256, 105), Pow(256, 21));
  }

  lemma FirstTwoDigits(p: int, q: int)
    ensures p * q + (p - 1) * q == 2 * (p * q) - q
  {
  }

  lemma EncodedValues()
    ensures 2 * Pow(256, 126) - Pow(256, 21) == ENCODED
  {
    hide Pow;
    TwentyOneBytes();
    PowAdd(256, 21, 21);
    PowAdd(256, 42, 21);
    PowAdd(256, 63, 63);
  }

  lemma TwentyOneBytes()
    ensures Pow(256, 21) == 0x100_0000_0000_0000_0000_0000_0000_0000_0000_0000_0000
  {
    assert Pow(256, 1) == 256 && Pow(256, 2) == 0x1_0000;
    hide Pow;
    PowAdd(256, 2, 2);
    PowAdd(256, 4, 4);
    PowAdd(256, 8, 8);
    PowAdd(256, 16, 4);
    PowAdd(256, 20, 1);
  }

  // A signature below the modulus and another at or above it, both accepted.
  predicate AcceptsTwin(key: PublicKey, s: seq<Byte>, t: seq<Byte>, hash: seq<Byte>)
    requires key.N() > 0
  {
    && BE(s) < key.N() && BE(t) == BE(s) + key.N()
    && IsVerified(key, s, hash) && IsVerified(key, t, hash)
  }

  lemma WideKey() returns (key: PublicKey)
    ensures |key.n| == RSANUMWORDS && key.N() == WIDE_N && key.exponent == 3 && key.WellFormed()
    ensures 2 * key.N() >= key.R() == Pow(256, RSANUMBYTES) && CUBE_ROOT + WIDE_N < key.R()
  {
    hide PublicKey.N, PublicKey.R, PublicKey.WellFormed, Val, Pow, Radix, ToWords, PlainKey, SquareLess, InBase252,
      WIDE_N, WIDE_RR, WIDE_QUOTIENT, CUBE_ROOT, ENCODED;
    WideConstants();
    WideReduced();
    key := PlainKey(WIDE_N, WIDE_RR);
    PlainKeyWellFormed(WIDE_N, WIDE_RR, WIDE_QUOTIENT);
    SignatureSize();
  }

  lemma SignatureSize()
    ensures Pow(256, RSANUMBYTES) == Radix(RSANUMWORDS)
  {
    PowBytesWords(RSANUMWORDS);
  }

  // RSA_verify accepts the cube root for the zero hash, and its twin at or above the modulus.
  lemma AcceptedOutOfRange() returns (key: PublicKey, s: seq<Byte>, t: seq<Byte>)
    ensures |key.n| == RSANUMWORDS && key.N() == WIDE_N && key.exponent == 3 && key.WellFormed()
    ensures BE(s) == CUBE_ROOT && AcceptsTwin(key, s, t, ZERO_HASH)
  {
    hide Radix, ToBytes, BE, Pow, Val, Encoding, InBase252, PublicKey.WellFormed, IsVerified,
      WIDE_N, CUBE_ROOT, ENCODED;
    key := WideKey();
    s := ToBytes(CUBE_ROOT, RSANUMBYTES);
    t := ToBytes(CUBE_ROOT + WIDE_N, RSANUMBYTES);
    WideConstants();
    ToBytesValue(CUBE_ROOT, RSANUMBYTES);
    EncodedZeroHash();
    EncodedValues();
    WideCube();
    CubeIsVerified(key, s);
    OutOfRangeTwin(key, s, ZERO_HASH);
  }

  lemma CubeIsVerified(key: PublicKey, s: seq<Byte>)
    requires |key.n| == RSANUMWORDS && |s| == RSANUMBYTES && key.exponent == 3
    requires var (x, e) := (BE(s), BE(Encoding(ZERO_HASH))); e < key.N() && x * (x * x) == key.N() + e
    ensures IsVerified(key, s, ZERO_HASH)
  {
    hide BE, Encoding, Pow, Val;
    var x := BE(s);
    Cubed(x);
    SmallRemainder(BE(Encoding(ZERO_HASH)), key.N());
  }

  lemma SmallRemainder(e: nat, n: nat)
    requires e < n
    ensures (n + e) % n == e
  {
    AddMultiple(e, 1, n);
  }

  lemma Cubed(x: int)
    ensures Pow(x, 3) == x * (x * x)
  {
    assert Pow(x, 1) == x && Pow(x, 2) == x * x;
  }

  lemma SameValueSameBytes(s: seq<Byte>, t: seq<Byte>)
    requires |s| == |t|
    ensures s == t <==> BE(s) == BE(t)
  {
    if BE(s) == BE(t) {
      BEInjective(s, t);
    }
  }

  // The number the signer writes after the image: encoding^d mod n, on 128 bytes.
  ghost predicate IsSignature(key: PublicKey, d: nat, hash: seq<Byte>, signature: seq<Byte>)
    requires key.N() > 0 && |hash| == SHA_DIGEST_SIZE
  {
    |signature| == RSANUMBYTES && BE(signature) == Pow(BE(Encoding(hash)), d) % key.N()
  }

  // For exponents that undo each other below n, what the signer writes satisfies what RSA_verify
  // tests, and no other hash of the same signature does.
  lemma SignedImagesVerify(key: PublicKey, d: nat, hash: seq<Byte>, other: seq<Byte>, signature: seq<Byte>)
    requires key.WellFormed() && 2 * key.N() >= key.R() && |key.n| == RSANUMWORDS && SupportedExponent(key)
    requires forall m: nat :: m < key.N() ==> Pow(Pow(m, d), key.exponent) % key.N() == m
    requires |hash| == SHA_DIGEST_SIZE && |other| == SHA_DIGEST_SIZE
    requires IsSignature(key, d, hash, signature)
    ensures IsVerified(key, signature, other) <==> other == hash
  {
    var n := key.N();
    var m, o := BE(Encoding(hash)), BE(Encoding(other));
    var p := Pow(m, d);
    EncodingBelowModulus(key, hash);
    CongReduced(p, n);
    CongPow(p, p % n, key.exponent, n);
    CongRemainder(Pow(p, key.exponent), Pow(p % n, key.exponent), n);
    assert Pow(BE(signature), key.exponent) % n == m;
    SameValueSameBytes(Encoding(other), Encoding(hash));
    if other != hash {
      assert Encoding(other)[108..] == other && Encoding(hash)[108..] == hash;
    }
  }

  lemma EncodingBelowModulus(key: PublicKey, hash: seq<Byte>)
    requires key.WellFormed() && 2 * key.N() >= key.R() && |key.n| == RSANUMWORDS
    requires |hash| == SHA_DIGEST_SIZE
    ensures BE(Encoding(hash)) < key.N()
  {
    var e := Encoding(hash);
    assert e[0] == 0;
    BEBound(e[1..]);
    assert BE(e) == BE(e[1..]) < Pow(256, 127);
    PowBytesWords(32);
    assert Pow(256, 128) == 256 * Pow(256, 127);
  }
}

// Streaming SHA-1 (crypto/sha.c) against the one-shot definition of FIPS 180-4.
module Sha1 {
  import opened Bytes

  // ---- FIPS 180-4, sections 3.2, 4.1.1, 4.2.1 and 6.1.2 ----

  function Rol(bits: bv32, x: bv32): bv32
    requires 0 < bits < 32
  {
    (x << bits) | (x >> (32 - bits))
  }

  // Rotation as arithmetic modulo 2^32, for the amounts that occur: what is shifted out at the top
  // comes back at the bottom.
  lemma RotationValue(x: bv32)
    ensures Rol(1, x) == x * 0x2 + x / 0x8000_0000
    ensures Rol(5, x) == x * 0x20 + x / 0x800_0000
    ensures Rol(30, x) == x * 0x4000_0000 + x / 0x4
  {
    RotationOne(x);
    RotationFive(x);
    RotationThirty(x);
    hide Rol;
  }

  lemma RotationOne(x: bv32)
    ensures Rol(1, x) == x * 0x2 + x / 0x8000_0000
  {
  }

  lemma RotationFive(x: bv32)
    ensures Rol(5, x) == x * 0x20 + x / 0x800_0000
  {
  }

  lemma RotationThirty(x: bv32)
    ensures Rol(30, x) == x * 0x4000_0000 + x / 0x4
  {
  }

  function Ch(x: bv32, y: bv32, z: bv32): bv32 { (x & y) ^ (!x & z) }
  function Parity(x: bv32, y: bv32, z: bv32): bv32 { x ^ y ^ z }
  function Maj(x: bv32, y: bv32, z: bv32): bv32 { (x & y) ^ (x & z) ^ (y & z) }

  function F(t: nat, x: bv32, y: bv32, z: bv32): bv32 {
    if t < 20 then Ch(x, y, z)
    else if t < 40 then Parity(x, y, z)
    else if t < 60 then Maj(x, y, z)
    else Parity(x, y, z)
  }

  function K(t: nat): bv32 {
    if t < 20 then 0x5A827999
    else if t < 40 then 0x6ED9EBA1
    else if t < 60 then 0x8F1BBCDC
    else 0xCA62C1D6
  }

  datatype Hash = Hash(a: bv32, b: bv32, c: bv32, d: bv32, e: bv32)

  const INITIAL := Hash(0x67452301, 0xEFCDAB89, 0x98BADCFE, 0x10325476, 0xC3D2E1F0)

  type Block = s: seq<Byte> | |s| == 64 witness Zeros(64)

  function BigEndianWord(b0: Byte, b1: Byte, b2: Byte, b3: Byte): bv32 {
    ((b0 as bv32) << 24) | ((b1 as bv32) << 16) | ((b2 as bv32) << 8) | (b3 as bv32)
  }

  // The value of four bytes, most significant first.
  lemma WordValue(b0: Byte, b1: Byte, b2: Byte, b3: Byte)
    ensures BigEndianWord(b0, b1, b2, b3)
         == (b0 as bv32) * 0x100_0000 + (b1 as bv32) * 0x1_0000 + (b2 as bv32) * 0x100 + (b3 as bv32)
  {
    SmallWord(b0);
    SmallWord(b1);
    SmallWord(b2);
    SmallWord(b3);
    JoinOctets(b0 as bv32, b1 as bv32, b2 as bv32, b3 as bv32);
  }

  lemma SmallWord(b: Byte)
    ensures (b as bv32) < 0x100
  {
  }

  lemma JoinOctets(w: bv32, x: bv32, y: bv32, z: bv32)
    requires w < 0x100 && x < 0x100 && y < 0x100 && z < 0x100
    ensures (w << 24) | (x << 16) | (y << 8) | z == w * 0x100_0000 + x * 0x1_0000 + y * 0x100 + z
  {
  }

  // The message schedule.
  function W(m: Block, t: nat): bv32 {
    if t < 16 then BigEndianWord(m[4 * t], m[4 * t + 1], m[4 * t + 2], m[4 * t + 3])
    else Rol(1, Xor4(W(m, t - 3), W(m, t - 8), W(m, t - 14), W(m, t - 16)))
  }

  function Xor4(w: bv32, x: bv32, y: bv32, z: bv32): bv32 { w ^ x ^ y ^ z }

  function Add(x: bv32, y: bv32): bv32 { x + y }

  function Sum5(v: bv32, w: bv32, x: bv32, y: bv32, z: bv32): bv32 { v + w + x + y + z }

  function Round(v: Hash, t: nat, w: bv32): Hash {
    Hash(Sum5(Rol(5, v.a), F(t, v.b, v.c, v.d), v.e, K(t), w), v.a, Rol(30, v.b), v.c, v.d)
  }

  function Rounds(v: Hash, m: Block, t: nat): Hash {
    if t == 0 then v else Round(Rounds(v, m, t - 1), t - 1, W(m, t - 1))
  }

  function Transform(h: Hash, m: Block): Hash {
    var v := Rounds(h, m, 80);
    Hash(Add(h.a, v.a), Add(h.b, v.b), Add(h.c, v.c), Add(h.d, v.d), Add(h.e, v.e))
  }

  // The hash value after the first n blocks of a message.
  function AfterBlocks(msg: seq<Byte>, n: nat): Hash
    requires 64 * n <= |msg|
  {
    if n == 0 then INITIAL else Transform(AfterBlocks(msg, n - 1), msg[64 * (n - 1)..64 * n])
  }

  // ---- Padding, section 5.1.1 ----

  // The least number of zeros that leaves room for the length at the end of a block.
  function ZeroCount(len: nat): (k: nat)
    ensures k < 64 && (len + 1 + k) % 64 == 56
  {
    var r := len % 64;
    if r < 56 then 55 - r else 119 - r
  }

  lemma WholeBlocks(n: nat)
    requires n % 64 == 56
    ensures (n + 8) % 64 == 0
  {
  }

  function Pad(msg: seq<Byte>): (p: seq<Byte>)
    ensures |p| % 64 == 0
  {
    WholeBlocks(|msg| + 1 + ZeroCount(|msg|));
    msg + [0x80] + Zeros(ZeroCount(|msg|)) + ToBytes((8 * |msg|) % 0x1_0000_0000_0000_0000, 8)
  }

  lemma ZeroCountLeast(len: nat, k: nat)
    requires (len + 1 + k) % 64 == 56
    ensures k >= ZeroCount(len)
  {
  }

  function OctetAt(x: bv32, shift: nat): Byte
    requires shift <= 24
  {
    LowOctet(x >> shift);
    ((x >> shift) & 0xff) as int
  }

  lemma LowOctet(y: bv32)
    ensures (y & 0xff) as int < 256
  {
    assert y & 0xff <= 0xff;
  }

  function WordBytes(x: bv32): (s: seq<Byte>)
    ensures |s| == 4
  {
    [OctetAt(x, 24), OctetAt(x, 16), OctetAt(x, 8), OctetAt(x, 0)]
  }

  function Digest(h: Hash): (s: seq<Byte>)
    ensures |s| == 20
  {
    WordBytes(h.a) + WordBytes(h.b) + WordBytes(h.c) + WordBytes(h.d) + WordBytes(h.e)
  }

  // SHA-1 of a whole message.
  function Sha1(msg: seq<Byte>): (s: seq<Byte>)
    ensures |s| == 20
  {
    Digest(AfterBlocks(Pad(msg), |Pad(msg)| / 64))
  }

  // ---- The round functions of the implementation ----

  // Ch with three operations, and Maj with an or.
  function FastCh(b: bv32, c: bv32, d: bv32): bv32 { d ^ (b & (c ^ d)) }
  function FastMaj(b: bv32, c: bv32, d: bv32): bv32 { (b & c) | (d & (b | c)) }

  lemma BitTricks(b: bv32, c: bv32, d: bv32)
    ensures FastCh(b, c, d) == Ch(b, c, d)
    ensures FastMaj(b, c, d) == Maj(b, c, d)
  {
    ChTrick(b, c, d);
    MajTrick(b, c, d);
  }

  lemma ChTrick(b: bv32, c: bv32, d: bv32)
    ensures d ^ (b & (c ^ d)) == (b & c) ^ (!b & d)
  {
  }

  lemma MajTrick(b: bv32, c: bv32, d: bv32)
    ensures (b & c) | (d & (b | c)) == (b & c) ^ (b & d) ^ (c & d)
  {
  }

  // The order in which the implementation adds the five terms.
  function SumInCode(r: bv32, e: bv32, w: bv32, f: bv32, k: bv32): bv32 { ((r + e) + w) + (f + k) }

  lemma SumOrder(r: bv32, f: bv32, e: bv32, k: bv32, w: bv32)
    ensures SumInCode(r, e, w, f, k) == Sum5(r, f, e, k, w)
  {
  }

  // The value tmp of one round.
  function RoundSum(v: Hash, t: nat, w: bv32): bv32 {
    var r := Rol(5, v.a);
    if t < 20 then SumInCode(r, v.e, w, FastCh(v.b, v.c, v.d), 0x5A827999)
    else if t < 40 then SumInCode(r, v.e, w, Parity(v.b, v.c, v.d), 0x6ED9EBA1)
    else if t < 60 then SumInCode(r, v.e, w, FastMaj(v.b, v.c, v.d), 0x8F1BBCDC)
    else SumInCode(r, v.e, w, Parity(v.b, v.c, v.d), 0xCA62C1D6)
  }

  lemma RoundSumIsT(v: Hash, t: nat, w: bv32)
    ensures RoundSum(v, t, w) == Round(v, t, w).a
  {
    hide Rol, Ch, Maj, FastCh, FastMaj, Parity, Sum5, SumInCode;
    BitTricks(v.b, v.c, v.d);
    SumOrder(Rol(5, v.a), F(t, v.b, v.c, v.d), v.e, K(t), w);
  }

  // ---- More bytes do not change the blocks already there ----

  lemma {:induction false} BlocksExtend(msg: seq<Byte>, more: seq<Byte>, n: nat)
    requires 64 * n <= |msg|
    ensures AfterBlocks(msg + more, n) == AfterBlocks(msg, n)
  {
    hide Transform;
    if n > 0 {
      BlocksExtend(msg, more, n - 1);
      assert (msg + more)[64 * (n - 1)..64 * n] == msg[64 * (n - 1)..64 * n];
    }
  }

  // One more byte that does not complete a block.
  lemma BlockGrows(msg: seq<Byte>, b: Byte)
    requires |msg| % 64 < 63
    ensures var n, full := |msg| / 64, msg + [b];
      |full| / 64 == n && |full| % 64 == |msg| % 64 + 1
      && full[64 * n..] == msg[64 * n..] + [b] && AfterBlocks(full, n) == AfterBlocks(msg, n)
  {
    hide AfterBlocks;
    BlocksExtend(msg, [b], |msg| / 64);
  }

  // One more byte that does.
  lemma BlockFull(msg: seq<Byte>, b: Byte)
    requires |msg| % 64 == 63
    ensures var n, full := |msg| / 64, msg + [b];
      |full| / 64 == n + 1 && |full| % 64 == 0 && full[64 * (n + 1)..] == [] && |msg[64 * n..]| == 63
      && AfterBlocks(full, n + 1) == Transform(AfterBlocks(msg, n), msg[64 * n..] + [b])
  {
    hide Transform;
    var n, full := |msg| / 64, msg + [b];
    BlocksExtend(msg, [b], n);
    assert full[64 * n..64 * (n + 1)] == msg[64 * n..] + [b];
  }

  // ---- The 64-bit byte counter ----

  lemma Remainder(x: nat, q: nat, r: nat)
    requires x == 0x1_0000_0000_0000_0000 * q + r && r < 0x1_0000_0000_0000_0000
    ensures x % 0x1_0000_0000_0000_0000 == r
  {
  }

  lemma BitsWrap(n: nat)
    ensures (8 * n) % 0x1_0000_0000_0000_0000 == ((n % 0x1_0000_0000_0000_0000) * 8) % 0x1_0000_0000_0000_0000
  {
    var q, c := n / 0x1_0000_0000_0000_0000, n % 0x1_0000_0000_0000_0000;
    var p, r := (c * 8) / 0x1_0000_0000_0000_0000, (c * 8) % 0x1_0000_0000_0000_0000;
    Remainder(8 * n, 8 * q + p, r);
  }

  lemma BlockOffset(n: nat)
    ensures (n % 0x1_0000_0000_0000_0000) % 64 == n % 64
  {
  }

  lemma CountAdds(n: nat, k: nat)
    ensures (n % 0x1_0000_0000_0000_0000 + k) % 0x1_0000_0000_0000_0000 == (n + k) % 0x1_0000_0000_0000_0000
  {
    var q, r := (n + k) / 0x1_0000_0000_0000_0000, (n + k) % 0x1_0000_0000_0000_0000;
    Remainder(n % 0x1_0000_0000_0000_0000 + k, q - n / 0x1_0000_0000_0000_0000, r);
  }

  // ---- The streaming context ----

  class ShaCtx {
    var count: nat
    const buf: array<Byte>
    const state: array<bv32>
    ghost var absorbed: seq<Byte>

    ghost predicate Structure()
    {
      buf.Length == 64 && state.Length == 8
    }

    function HashValue(): Hash
      requires Structure()
      reads state
    {
      Hash(state[0], state[1], state[2], state[3], state[4])
    }

    // All complete blocks of msg are in the state, the rest is in the buffer.
    ghost predicate Holds(msg: seq<Byte>)
      requires Structure()
      reads buf, state
    {
      && HashValue() == AfterBlocks(msg, |msg| / 64)
      && buf[..|msg| % 64] == msg[64 * (|msg| / 64)..]
    }

    ghost predicate Valid()
      reads this, buf, state
    {
      Structure() && count == |absorbed| % 0x1_0000_0000_0000_0000 && Holds(absorbed)
    }

    constructor ()
      ensures Valid() && absorbed == [] && fresh(buf) && fresh(state)
    {
      buf := new Byte[64];
      state := new bv32[8];
      count := 0;
      absorbed := [];
      new;
      state[0] := 0x67452301;
      state[1] := 0xEFCDAB89;
      state[2] := 0x98BADCFE;
      state[3] := 0x10325476;
      state[4] := 0xC3D2E1F0;
    }

    // The message schedule of the buffered block.
    method Schedule() returns (w: array<bv32>)
      requires Structure()
      ensures fresh(w) && w.Length == 80
      ensures forall k :: 0 <= k < 80 ==> w[k] == W(buf[..], k)
    {
      hide Rol, Xor4, BigEndianWord;
      w := new bv32[80];
      var t := 0;
      while t < 16
        invariant 0 <= t <= 16
        invariant forall k :: 0 <= k < t ==> w[k] == W(buf[..], k)
      {
        w[t] := BigEndianWord(buf[4 * t], buf[4 * t + 1], buf[4 * t + 2], buf[4 * t + 3]);
        t := t + 1;
      }
      while t < 80
        invariant 16 <= t <= 80
        invariant forall k :: 0 <= k < t ==> w[k] == W(buf[..], k)
      {
        w[t] := Rol(1, Xor4(w[t - 3], w[t - 8], w[t - 14], w[t - 16]));
        t := t + 1;
      }
    }

    // One block.
    method Sha1Transform()
      requires Structure()
      modifies state
      ensures HashValue() == Transform(old(HashValue()), old(buf[..]))
    {
      hide Rol, F, K, Sum5, RoundSum, Add, W, BigEndianWord;
      var w := Schedule();
      ghost var m: Block := buf[..];
      var A, B, C, D, E := state[0], state[1], state[2], state[3], state[4];
      var t := 0;
      while t < 80
        modifies {}
        invariant 0 <= t <= 80
        invariant Hash(A, B, C, D, E) == Rounds(HashValue(), m, t)
      {
        assert w[t] == W(m, t);
        RoundSumIsT(Hash(A, B, C, D, E), t, w[t]);
        var tmp := RoundSum(Hash(A, B, C, D, E), t, w[t]);
        E := D;
        D := C;
        C := Rol(30, B);
        B := A;
        A := tmp;
        t := t + 1;
      }
      state[0] := Add(state[0], A);
      state[1] := Add(state[1], B);
      state[2] := Add(state[2], C);
      state[3] := Add(state[3], D);
      state[4] := Add(state[4], E);
    }

    // Take in more bytes; any split of the input has the same effect.
    method Update(data: seq<Byte>)
      requires Valid()
      modifies this`count, this`absorbed, buf, state
      ensures Valid() && absorbed == old(absorbed) + data
    {
      hide Transform, AfterBlocks, Holds;
      assert absorbed + data[..0] == absorbed;
      assert Holds(absorbed + data[..0]);
      CountAdds(|absorbed|, |data|);
      BlockOffset(|absorbed|);
      var i := count % 64;
      count := (count + |data|) % 0x1_0000_0000_0000_0000;
      var p := 0;
      while p < |data|
        modifies buf, state
        invariant 0 <= p <= |data|
        invariant i == |absorbed + data[..p]| % 64
        invariant Holds(absorbed + data[..p])
      {
        assert absorbed + data[..p + 1] == (absorbed + data[..p]) + [data[p]];
        i := AbsorbByte(absorbed + data[..p], i, data[p]);
        p := p + 1;
      }
      assert data[..p] == data;
      absorbed := absorbed + data;
    }

    method AbsorbByte(ghost msg: seq<Byte>, i: nat, b: Byte) returns (i': nat)
      requires Structure() && Holds(msg) && i == |msg| % 64
      modifies buf, state
      ensures Holds(msg + [b]) && i' == |msg + [b]| % 64
    {
      hide Transform, AfterBlocks;
      ghost var tail := buf[..i];
      buf[i] := b;
      i' := i + 1;
      assert buf[..i'] == tail + [b];
      if i' == 64 {
        BlockFull(msg, b);
        assert buf[..] == buf[..i'];
        Sha1Transform();
        i' := 0;
      } else {
        BlockGrows(msg, b);
      }
    }

    // Finish: the digest of everything absorbed ends up in the first 20 bytes of the buffer.
    method Final()
      requires Valid()
      modifies this`count, this`absorbed, buf, state
      ensures buf[..20] == Sha1(old(absorbed))
    {
      hide AfterBlocks, ToBytes, Digest, Holds, ZeroCount;
      ghost var msg := absorbed;
      var cnt := TotalBits();
      AppendPadding();
      AppendLength(cnt);
      assert absorbed == Pad(msg);
      FullBlocks();
      WriteDigest();
    }

    method TotalBits() returns (cnt: nat)
      requires Valid()
      ensures cnt == (8 * |absorbed|) % 0x1_0000_0000_0000_0000
    {
      hide Holds;
      BitsWrap(|absorbed|);
      cnt := (count * 8) % 0x1_0000_0000_0000_0000;
    }

    // Nothing is left in the buffer when the message ends on a block boundary.
    lemma FullBlocks()
      requires Valid() && |absorbed| % 64 == 0
      ensures HashValue() == AfterBlocks(absorbed, |absorbed| / 64)
    {
      hide AfterBlocks;
    }

    method AppendPadding()
      requires Valid()
      modifies this`count, this`absorbed, buf, state
      ensures Valid() && absorbed == old(absorbed) + [0x80] + Zeros(ZeroCount(|old(absorbed)|))
    {
      hide Holds, ZeroCount, AfterBlocks;
      ghost var start, len := absorbed + [0x80], |absorbed|;
      Update([0x80]);
      ghost var zeros := 0;
      assert start + Zeros(0) == start;
      BlockOffset(|absorbed|);
      while count % 64 != 56
        invariant Valid() && absorbed == start + Zeros(zeros)
        invariant count % 64 == (len + 1 + zeros) % 64
        invariant zeros <= ZeroCount(len)
        decreases ZeroCount(len) - zeros
      {
        assert start + Zeros(zeros) + [0] == start + Zeros(zeros + 1);
        Update([0]);
        zeros := zeros + 1;
        BlockOffset(|absorbed|);
      }
      ZeroCountLeast(len, zeros);
    }

    method AppendLength(cnt: nat)
      requires Valid() && cnt < 0x1_0000_0000_0000_0000
      modifies this`count, this`absorbed, buf, state
      ensures Valid() && absorbed == old(absorbed) + ToBytes(cnt, 8)
    {
      hide Holds;
      Update([cnt / 0x100_0000_0000_0000]);
      Update([(cnt / 0x1_0000_0000_0000) % 256]);
      Update([(cnt / 0x100_0000_0000) % 256]);
      Update([(cnt / 0x1_0000_0000) % 256]);
      Update([(cnt / 0x100_0000) % 256]);
      Update([(cnt / 0x1_0000) % 256]);
      Update([(cnt / 0x100) % 256]);
      Update([cnt % 256]);
      EightBytes(cnt);
    }

    method WriteDigest()
      requires Structure()
      modifies buf
      ensures buf[..20] == Digest(HashValue())
    {
      hide WordBytes;
      var i := 0;
      while i < 5
        invariant 0 <= i <= 5
        invariant forall k :: 0 <= k < i ==> buf[4 * k..4 * k + 4] == WordBytes(state[k])
      {
        WriteWord(i);
        i := i + 1;
      }
      assert buf[..20] == buf[0..4] + buf[4..8] + buf[8..12] + buf[12..16] + buf[16..20];
    }

    method WriteWord(i: nat)
      requires Structure() && i < 5
      modifies buf
      ensures buf[4 * i..4 * i + 4] == WordBytes(state[i])
      ensures forall k :: 0 <= k < i ==> buf[4 * k..4 * k + 4] == old(buf[4 * k..4 * k + 4])
    {
      hide OctetAt;
      var tmp := state[i];
      buf[4 * i] := OctetAt(tmp, 24);
      buf[4 * i + 1] := OctetAt(tmp, 16);
      buf[4 * i + 2] := OctetAt(tmp, 8);
      buf[4 * i + 3] := OctetAt(tmp, 0);
    }
  }

  lemma EightBytes(x: nat)
    requires x < 0x1_0000_0000_0000_0000
    ensures ToBytes(x, 8) ==
      [x / 0x100_0000_0000_0000, (x / 0x1_0000_0000_0000) % 256, (x / 0x100_0000_0000) % 256,
       (x / 0x1_0000_0000) % 256, (x / 0x100_0000) % 256, (x / 0x1_0000) % 256, (x / 0x100) % 256, x % 256]
  {
    var x1, x2, x3 := x / 0x100, x / 0x1_0000, x / 0x100_0000;
    var x4, x5, x6 := x / 0x1_0000_0000, x / 0x100_0000_0000, x / 0x1_0000_0000_0000;
    var x7 := x / 0x100_0000_0000_0000;
    assert x1 / 256 == x2 && x2 / 256 == x3 && x3 / 256 == x4;
    assert x4 / 256 == x5 && x5 / 256 == x6 && x6 / 256 == x7;
    assert ToBytes(x7, 1) == [x7];
    assert ToBytes(x6, 2) == [x7, x6 % 256];
    assert ToBytes(x5, 3) == [x7, x6 % 256, x5 % 256];
    assert ToBytes(x4, 4) == [x7, x6 % 256, x5 % 256, x4 % 256];
    assert ToBytes(x3, 5) == [x7, x6 % 256, x5 % 256, x4 % 256, x3 % 256];
    assert ToBytes(x2, 6) == [x7, x6 % 256, x5 % 256, x4 % 256, x3 % 256, x2 % 256];
    assert ToBytes(x1, 7) == [x7, x6 % 256, x5 % 256, x4 % 256, x3 % 256, x2 % 256, x1 % 256];
  }

  // One context, one update, one digest.
  method ShaHash(data: seq<Byte>) returns (digest: seq<Byte>)
    ensures digest == Sha1(data)
  {
    var ctx := new ShaCtx();
    ctx.Update(data);
    assert [] + data == data;
    ctx.Final();
    digest := ctx.buf[..20];
  }

  // However the input is cut into pieces, the digest is that of the whole.
  method HashPieces(pieces: seq<seq<Byte>>) returns (digest: seq<Byte>)
    ensures digest == Sha1(Concat(pieces))
  {
    hide Sha1, ShaCtx.Holds;
    var ctx := new ShaCtx();
    for i := 0 to |pieces|
      invariant ctx.Valid() && fresh(ctx) && fresh(ctx.buf) && fresh(ctx.state)
      invariant ctx.absorbed == Concat(pieces[..i])
    {
      assert pieces[..i + 1][..i] == pieces[..i];
      ctx.Update(pieces[i]);
    }
    assert pieces[..|pieces|] == pieces;
    ctx.Final();
    digest := ctx.buf[..20];
  }
}

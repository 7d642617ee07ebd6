// The first test of section 7.3 of RFC 3174: the SHA-1 of "abc", computed from the definition.
module Sha1Example {
  import opened Bytes
  import opened Sha1

  const ABC: seq<Byte> := [0x61, 0x62, 0x63]

  // The one block of the padded message: the message, a bit, zeros, and the length of 24 bits.
  predicate IsPadded(m: Block) {
    && m[0] == 0x61 && m[1] == 0x62 && m[2] == 0x63 && m[3] == 0x80 && m[63] == 24
    && forall i :: 4 <= i < 63 ==> m[i] == 0
  }

  lemma PaddedAbc()
    ensures |Pad(ABC)| == 64 && IsPadded(Pad(ABC))
  {
    EightBytes(24);
  }

  // ---- The message schedule ----

  const WORDS_0: seq<bv32> := [
    0x61626380, 0, 0, 0, 0, 0, 0, 0]
  const WORDS_8: seq<bv32> := [
    0, 0, 0, 0, 0, 0, 0, 0x00000018]
  const WORDS_16: seq<bv32> := [
    0xC2C4C700, 0, 0x00000030, 0x85898E01, 0, 0x00000060, 0x0B131C03, 0x00000030]
  const WORDS_24: seq<bv32> := [
    0x85898EC1, 0x16263806, 0, 0x00000180, 0x2C4C700C, 0x000000F0, 0x93AFB507, 0x5898E048]
  const WORDS_32: seq<bv32> := [
    0x8E9A9202, 0x00000600, 0xB131C0F0, 0x16263BC6, 0x4EBED41E, 0x626380A1, 0x16263806, 0x000018C0]
  const WORDS_40: seq<bv32> := [
    0xD2E138C4, 0x00000F00, 0x3AFB5079, 0x898E04E5, 0xE2BA3C2B, 0x000060C0, 0x053A37CD, 0x74458547]
  const WORDS_48: seq<bv32> := [
    0xDA9415ED, 0x26380A16, 0x626383A1, 0x4EBF54DE, 0x3835B44B, 0x0000F600, 0x1E84C7A3, 0x98E04D98]
  const WORDS_56: seq<bv32> := [
    0x651D16A0, 0x62658CA1, 0x458544D6, 0x44584CB7, 0x7BA06619, 0x6380AEA2, 0x0AE55269, 0x627B49A1]
  const WORDS_64: seq<bv32> := [
    0x7CD45C9D, 0x000F0000, 0xFB50753A, 0xEC6765E8, 0xBA3C2BE2, 0x0060C000, 0x3A37CD05, 0x458546F4]
  const WORDS_72: seq<bv32> := [
    0xB8599DD6, 0x380A1A26, 0x01E02203, 0xE7CC3456, 0xE6E60B69, 0x00F60A00, 0x5795EF4F, 0x822E0879]

  // These are the words from number t on.
  ghost predicate Words(m: Block, t: nat, ws: seq<bv32>) {
    && |ws| == 8
    && W(m, t) == ws[0] && W(m, t + 1) == ws[1] && W(m, t + 2) == ws[2] && W(m, t + 3) == ws[3]
    && W(m, t + 4) == ws[4] && W(m, t + 5) == ws[5] && W(m, t + 6) == ws[6] && W(m, t + 7) == ws[7]
  }

  lemma EarlyWord(m: Block, t: nat)
    requires t < 16
    ensures W(m, t) == BigEndianWord(m[4 * t], m[4 * t + 1], m[4 * t + 2], m[4 * t + 3])
  {
  }

  lemma PaddedWords()
    ensures BigEndianWord(0x61, 0x62, 0x63, 0x80) == 0x61626380
    ensures BigEndianWord(0, 0, 0, 0) == 0 && BigEndianWord(0, 0, 0, 24) == 0x18
  {
  }

  lemma FirstWords(m: Block)
    requires IsPadded(m)
    ensures Words(m, 0, WORDS_0) && Words(m, 8, WORDS_8)
  {
    hide W, BigEndianWord;
    PaddedWords();
    EarlyWord(m, 0); EarlyWord(m, 1); EarlyWord(m, 2); EarlyWord(m, 3);
    EarlyWord(m, 4); EarlyWord(m, 5); EarlyWord(m, 6); EarlyWord(m, 7);
    EarlyWord(m, 8); EarlyWord(m, 9); EarlyWord(m, 10); EarlyWord(m, 11);
    EarlyWord(m, 12); EarlyWord(m, 13); EarlyWord(m, 14); EarlyWord(m, 15);
  }

  // Word t from the words before it, all of them known.
  lemma NextWord(m: Block, t: nat, w3: bv32, w8: bv32, w14: bv32, w16: bv32)
    requires t >= 16 && W(m, t - 3) == w3 && W(m, t - 8) == w8 && W(m, t - 14) == w14 && W(m, t - 16) == w16
    ensures W(m, t) == Rol(1, Xor4(w3, w8, w14, w16))
  {
  }

  lemma NextWords16(m: Block)
    requires Words(m, 0, WORDS_0) && Words(m, 8, WORDS_8)
    ensures Words(m, 16, WORDS_16)
  {
    hide W;
    NextWord(m, 16, 0, 0, 0, 0x61626380);
    NextWord(m, 17, 0, 0, 0, 0);
    NextWord(m, 18, 0x00000018, 0, 0, 0);
    NextWord(m, 19, 0xC2C4C700, 0, 0, 0);
    NextWord(m, 20, 0, 0, 0, 0);
    NextWord(m, 21, 0x00000030, 0, 0, 0);
    NextWord(m, 22, 0x85898E01, 0, 0, 0);
    NextWord(m, 23, 0, 0x00000018, 0, 0);
  }

  lemma NextWords24(m: Block)
    requires Words(m, 8, WORDS_8) && Words(m, 16, WORDS_16)
    ensures Words(m, 24, WORDS_24)
  {
    hide W;
    NextWord(m, 24, 0x00000060, 0xC2C4C700, 0, 0);
    NextWord(m, 25, 0x0B131C03, 0, 0, 0);
    NextWord(m, 26, 0x00000030, 0x00000030, 0, 0);
    NextWord(m, 27, 0x85898EC1, 0x85898E01, 0, 0);
    NextWord(m, 28, 0x16263806, 0, 0, 0);
    NextWord(m, 29, 0, 0x00000060, 0x00000018, 0);
    NextWord(m, 30, 0x00000180, 0x0B131C03, 0xC2C4C700, 0);
    NextWord(m, 31, 0x2C4C700C, 0x00000030, 0, 0x00000018);
  }

  lemma NextWords32(m: Block)
    requires Words(m, 16, WORDS_16) && Words(m, 24, WORDS_24)
    ensures Words(m, 32, WORDS_32)
  {
    hide W;
    NextWord(m, 32, 0x000000F0, 0x85898EC1, 0x00000030, 0xC2C4C700);
    NextWord(m, 33, 0x93AFB507, 0x16263806, 0x85898E01, 0);
    NextWord(m, 34, 0x5898E048, 0, 0, 0x00000030);
    NextWord(m, 35, 0x8E9A9202, 0x00000180, 0x00000060, 0x85898E01);
    NextWord(m, 36, 0x00000600, 0x2C4C700C, 0x0B131C03, 0);
    NextWord(m, 37, 0xB131C0F0, 0x000000F0, 0x00000030, 0x00000060);
    NextWord(m, 38, 0x16263BC6, 0x93AFB507, 0x85898EC1, 0x0B131C03);
    NextWord(m, 39, 0x4EBED41E, 0x5898E048, 0x16263806, 0x00000030);
  }

  lemma NextWords40(m: Block)
    requires Words(m, 24, WORDS_24) && Words(m, 32, WORDS_32)
    ensures Words(m, 40, WORDS_40)
  {
    hide W;
    NextWord(m, 40, 0x626380A1, 0x8E9A9202, 0, 0x85898EC1);
    NextWord(m, 41, 0x16263806, 0x00000600, 0x00000180, 0x16263806);
    NextWord(m, 42, 0x000018C0, 0xB131C0F0, 0x2C4C700C, 0);
    NextWord(m, 43, 0xD2E138C4, 0x16263BC6, 0x000000F0, 0x00000180);
    NextWord(m, 44, 0x00000F00, 0x4EBED41E, 0x93AFB507, 0x2C4C700C);
    NextWord(m, 45, 0x3AFB5079, 0x626380A1, 0x5898E048, 0x000000F0);
    NextWord(m, 46, 0x898E04E5, 0x16263806, 0x8E9A9202, 0x93AFB507);
    NextWord(m, 47, 0xE2BA3C2B, 0x000018C0, 0x00000600, 0x5898E048);
  }

  lemma NextWords48(m: Block)
    requires Words(m, 32, WORDS_32) && Words(m, 40, WORDS_40)
    ensures Words(m, 48, WORDS_48)
  {
    hide W;
    NextWord(m, 48, 0x000060C0, 0xD2E138C4, 0xB131C0F0, 0x8E9A9202);
    NextWord(m, 49, 0x053A37CD, 0x00000F00, 0x16263BC6, 0x00000600);
    NextWord(m, 50, 0x74458547, 0x3AFB5079, 0x4EBED41E, 0xB131C0F0);
    NextWord(m, 51, 0xDA9415ED, 0x898E04E5, 0x626380A1, 0x16263BC6);
    NextWord(m, 52, 0x26380A16, 0xE2BA3C2B, 0x16263806, 0x4EBED41E);
    NextWord(m, 53, 0x626383A1, 0x000060C0, 0x000018C0, 0x626380A1);
    NextWord(m, 54, 0x4EBF54DE, 0x053A37CD, 0xD2E138C4, 0x16263806);
    NextWord(m, 55, 0x3835B44B, 0x74458547, 0x00000F00, 0x000018C0);
  }

  lemma NextWords56(m: Block)
    requires Words(m, 40, WORDS_40) && Words(m, 48, WORDS_48)
    ensures Words(m, 56, WORDS_56)
  {
    hide W;
    NextWord(m, 56, 0x0000F600, 0xDA9415ED, 0x3AFB5079, 0xD2E138C4);
    NextWord(m, 57, 0x1E84C7A3, 0x26380A16, 0x898E04E5, 0x00000F00);
    NextWord(m, 58, 0x98E04D98, 0x626383A1, 0xE2BA3C2B, 0x3AFB5079);
    NextWord(m, 59, 0x651D16A0, 0x4EBF54DE, 0x000060C0, 0x898E04E5);
    NextWord(m, 60, 0x62658CA1, 0x3835B44B, 0x053A37CD, 0xE2BA3C2B);
    NextWord(m, 61, 0x458544D6, 0x0000F600, 0x74458547, 0x000060C0);
    NextWord(m, 62, 0x44584CB7, 0x1E84C7A3, 0xDA9415ED, 0x053A37CD);
    NextWord(m, 63, 0x7BA06619, 0x98E04D98, 0x26380A16, 0x74458547);
  }

  lemma NextWords64(m: Block)
    requires Words(m, 48, WORDS_48) && Words(m, 56, WORDS_56)
    ensures Words(m, 64, WORDS_64)
  {
    hide W;
    NextWord(m, 64, 0x6380AEA2, 0x651D16A0, 0x626383A1, 0xDA9415ED);
    NextWord(m, 65, 0x0AE55269, 0x62658CA1, 0x4EBF54DE, 0x26380A16);
    NextWord(m, 66, 0x627B49A1, 0x458544D6, 0x3835B44B, 0x626383A1);
    NextWord(m, 67, 0x7CD45C9D, 0x44584CB7, 0x0000F600, 0x4EBF54DE);
    NextWord(m, 68, 0x000F0000, 0x7BA06619, 0x1E84C7A3, 0x3835B44B);
    NextWord(m, 69, 0xFB50753A, 0x6380AEA2, 0x98E04D98, 0x0000F600);
    NextWord(m, 70, 0xEC6765E8, 0x0AE55269, 0x651D16A0, 0x1E84C7A3);
    NextWord(m, 71, 0xBA3C2BE2, 0x627B49A1, 0x62658CA1, 0x98E04D98);
  }

  lemma NextWords72(m: Block)
    requires Words(m, 56, WORDS_56) && Words(m, 64, WORDS_64)
    ensures Words(m, 72, WORDS_72)
  {
    hide W;
    NextWord(m, 72, 0x0060C000, 0x7CD45C9D, 0x458544D6, 0x651D16A0);
    NextWord(m, 73, 0x3A37CD05, 0x000F0000, 0x44584CB7, 0x62658CA1);
    NextWord(m, 74, 0x458546F4, 0xFB50753A, 0x7BA06619, 0x458544D6);
    NextWord(m, 75, 0xB8599DD6, 0xEC6765E8, 0x6380AEA2, 0x44584CB7);
    NextWord(m, 76, 0x380A1A26, 0xBA3C2BE2, 0x0AE55269, 0x7BA06619);
    NextWord(m, 77, 0x01E02203, 0x0060C000, 0x627B49A1, 0x6380AEA2);
    NextWord(m, 78, 0xE7CC3456, 0x3A37CD05, 0x7CD45C9D, 0x0AE55269);
    NextWord(m, 79, 0xE6E60B69, 0x458546F4, 0x000F0000, 0x627B49A1);
  }

  // ---- The rounds ----

  lemma NextRound(m: Block, t: nat, w: bv32, v: Hash) returns (next: Hash)
    requires Rounds(INITIAL, m, t) == v && W(m, t) == w
    ensures next == Round(v, t, w) && Rounds(INITIAL, m, t + 1) == next
  {
    next := Round(v, t, w);
  }

  lemma Rounds8(m: Block)
    requires Words(m, 0, WORDS_0)
    requires Rounds(INITIAL, m, 0) == Hash(0x67452301, 0xEFCDAB89, 0x98BADCFE, 0x10325476, 0xC3D2E1F0)
    ensures Rounds(INITIAL, m, 8) == Hash(0x9E8C07D4, 0x993E30C1, 0x0FF1F290, 0xB3F52677, 0xF3763846)
  {
    hide W, Rounds, INITIAL;
    var v := Hash(0x67452301, 0xEFCDAB89, 0x98BADCFE, 0x10325476, 0xC3D2E1F0);
    v := NextRound(m, 0, 0x61626380, v);
    v := NextRound(m, 1, 0, v);
    v := NextRound(m, 2, 0, v);
    v := NextRound(m, 3, 0, v);
    v := NextRound(m, 4, 0, v);
    v := NextRound(m, 5, 0, v);
    v := NextRound(m, 6, 0, v);
    v := NextRound(m, 7, 0, v);
  }

  lemma Rounds16(m: Block)
    requires Words(m, 8, WORDS_8)
    requires Rounds(INITIAL, m, 8) == Hash(0x9E8C07D4, 0x993E30C1, 0x0FF1F290, 0xB3F52677, 0xF3763846)
    ensures Rounds(INITIAL, m, 16) == Hash(0x20BDD62F, 0x196BEE77, 0x644A3DA5, 0x1181ED99, 0x18C623F9)
  {
    hide W, Rounds, INITIAL;
    var v := Hash(0x9E8C07D4, 0x993E30C1, 0x0FF1F290, 0xB3F52677, 0xF3763846);
    v := NextRound(m, 8, 0, v);
    v := NextRound(m, 9, 0, v);
    v := NextRound(m, 10, 0, v);
    v := NextRound(m, 11, 0, v);
    v := NextRound(m, 12, 0, v);
    v := NextRound(m, 13, 0, v);
    v := NextRound(m, 14, 0, v);
    v := NextRound(m, 15, 0x00000018, v);
  }

  lemma Rounds24(m: Block)
    requires Words(m, 16, WORDS_16)
    requires Rounds(INITIAL, m, 16) == Hash(0x20BDD62F, 0x196BEE77, 0x644A3DA5, 0x1181ED99, 0x18C623F9)
    ensures Rounds(INITIAL, m, 24) == Hash(0xD541F12D, 0x21283486, 0x0CE88EFF, 0x868DEC32, 0x7F67875F)
  {
    hide W, Rounds, INITIAL;
    var v := Hash(0x20BDD62F, 0x196BEE77, 0x644A3DA5, 0x1181ED99, 0x18C623F9);
    v := NextRound(m, 16, 0xC2C4C700, v);
    v := NextRound(m, 17, 0, v);
    v := NextRound(m, 18, 0x00000030, v);
    v := NextRound(m, 19, 0x85898E01, v);
    v := NextRound(m, 20, 0, v);
    v := NextRound(m, 21, 0x00000060, v);
    v := NextRound(m, 22, 0x0B131C03, v);
    v := NextRound(m, 23, 0x00000030, v);
  }

  lemma Rounds32(m: Block)
    requires Words(m, 24, WORDS_24)
    requires Rounds(INITIAL, m, 24) == Hash(0xD541F12D, 0x21283486, 0x0CE88EFF, 0x868DEC32, 0x7F67875F)
    ensures Rounds(INITIAL, m, 32) == Hash(0x3B845D33, 0x1267B407, 0x717EEBD7, 0xA0DC2D4B, 0xD2AA1365)
  {
    hide W, Rounds, INITIAL;
    var v := Hash(0xD541F12D, 0x21283486, 0x0CE88EFF, 0x868DEC32, 0x7F67875F);
    v := NextRound(m, 24, 0x85898EC1, v);
    v := NextRound(m, 25, 0x16263806, v);
    v := NextRound(m, 26, 0, v);
    v := NextRound(m, 27, 0x00000180, v);
    v := NextRound(m, 28, 0x2C4C700C, v);
    v := NextRound(m, 29, 0x000000F0, v);
    v := NextRound(m, 30, 0x93AFB507, v);
    v := NextRound(m, 31, 0x5898E048, v);
  }

  lemma Rounds40(m: Block)
    requires Words(m, 32, WORDS_32)
    requires Rounds(INITIAL, m, 32) == Hash(0x3B845D33, 0x1267B407, 0x717EEBD7, 0xA0DC2D4B, 0xD2AA1365)
    ensures Rounds(INITIAL, m, 40) == Hash(0x32DE1CBA, 0x4C986405, 0xF718E5CF, 0x03D447F6, 0xF72EEC32)
  {
    hide W, Rounds, INITIAL;
    var v := Hash(0x3B845D33, 0x1267B407, 0x717EEBD7, 0xA0DC2D4B, 0xD2AA1365);
    v := NextRound(m, 32, 0x8E9A9202, v);
    v := NextRound(m, 33, 0x00000600, v);
    v := NextRound(m, 34, 0xB131C0F0, v);
    v := NextRound(m, 35, 0x16263BC6, v);
    v := NextRound(m, 36, 0x4EBED41E, v);
    v := NextRound(m, 37, 0x626380A1, v);
    v := NextRound(m, 38, 0x16263806, v);
    v := NextRound(m, 39, 0x000018C0, v);
  }

  lemma Rounds48(m: Block)
    requires Words(m, 40, WORDS_40)
    requires Rounds(INITIAL, m, 40) == Hash(0x32DE1CBA, 0x4C986405, 0xF718E5CF, 0x03D447F6, 0xF72EEC32)
    ensures Rounds(INITIAL, m, 48) == Hash(0xBEAD02CA, 0xA01B846C, 0x8714787C, 0x503CA382, 0xFB86C6AB)
  {
    hide W, Rounds, INITIAL;
    var v := Hash(0x32DE1CBA, 0x4C986405, 0xF718E5CF, 0x03D447F6, 0xF72EEC32);
    v := NextRound(m, 40, 0xD2E138C4, v);
    v := NextRound(m, 41, 0x00000F00, v);
    v := NextRound(m, 42, 0x3AFB5079, v);
    v := NextRound(m, 43, 0x898E04E5, v);
    v := NextRound(m, 44, 0xE2BA3C2B, v);
    v := NextRound(m, 45, 0x000060C0, v);
    v := NextRound(m, 46, 0x053A37CD, v);
    v := NextRound(m, 47, 0x74458547, v);
  }

  lemma Rounds56(m: Block)
    requires Words(m, 48, WORDS_48)
    requires Rounds(INITIAL, m, 48) == Hash(0xBEAD02CA, 0xA01B846C, 0x8714787C, 0x503CA382, 0xFB86C6AB)
    ensures Rounds(INITIAL, m, 56) == Hash(0x5E6456AF, 0x7B71F76D, 0x09FA7C76, 0x792410DB, 0x8E11EB59)
  {
    hide W, Rounds, INITIAL;
    var v := Hash(0xBEAD02CA, 0xA01B846C, 0x8714787C, 0x503CA382, 0xFB86C6AB);
    v := NextRound(m, 48, 0xDA9415ED, v);
    v := NextRound(m, 49, 0x26380A16, v);
    v := NextRound(m, 50, 0x626383A1, v);
    v := NextRound(m, 51, 0x4EBF54DE, v);
    v := NextRound(m, 52, 0x3835B44B, v);
    v := NextRound(m, 53, 0x0000F600, v);
    v := NextRound(m, 54, 0x1E84C7A3, v);
    v := NextRound(m, 55, 0x98E04D98, v);
  }

  lemma Rounds64(m: Block)
    requires Words(m, 56, WORDS_56)
    requires Rounds(INITIAL, m, 56) == Hash(0x5E6456AF, 0x7B71F76D, 0x09FA7C76, 0x792410DB, 0x8E11EB59)
    ensures Rounds(INITIAL, m, 64) == Hash(0x6B61C9E1, 0xB66C020B, 0x9523272C, 0xF5D5B051, 0x8FD4B796)
  {
    hide W, Rounds, INITIAL;
    var v := Hash(0x5E6456AF, 0x7B71F76D, 0x09FA7C76, 0x792410DB, 0x8E11EB59);
    v := NextRound(m, 56, 0x651D16A0, v);
    v := NextRound(m, 57, 0x62658CA1, v);
    v := NextRound(m, 58, 0x458544D6, v);
    v := NextRound(m, 59, 0x44584CB7, v);
    v := NextRound(m, 60, 0x7BA06619, v);
    v := NextRound(m, 61, 0x6380AEA2, v);
    v := NextRound(m, 62, 0x0AE55269, v);
    v := NextRound(m, 63, 0x627B49A1, v);
  }

  lemma Rounds72(m: Block)
    requires Words(m, 64, WORDS_64)
    requires Rounds(INITIAL, m, 64) == Hash(0x6B61C9E1, 0xB66C020B, 0x9523272C, 0xF5D5B051, 0x8FD4B796)
    ensures Rounds(INITIAL, m, 72) == Hash(0x39859DE7, 0xC199F8C7, 0x8FC96230, 0x125C24F0, 0xDE37534A)
  {
    hide W, Rounds, INITIAL;
    var v := Hash(0x6B61C9E1, 0xB66C020B, 0x9523272C, 0xF5D5B051, 0x8FD4B796);
    v := NextRound(m, 64, 0x7CD45C9D, v);
    v := NextRound(m, 65, 0x000F0000, v);
    v := NextRound(m, 66, 0xFB50753A, v);
    v := NextRound(m, 67, 0xEC6765E8, v);
    v := NextRound(m, 68, 0xBA3C2BE2, v);
    v := NextRound(m, 69, 0x0060C000, v);
    v := NextRound(m, 70, 0x3A37CD05, v);
    v := NextRound(m, 71, 0x458546F4, v);
  }

  lemma Rounds80(m: Block)
    requires Words(m, 72, WORDS_72)
    requires Rounds(INITIAL, m, 72) == Hash(0x39859DE7, 0xC199F8C7, 0x8FC96230, 0x125C24F0, 0xDE37534A)
    ensures Rounds(INITIAL, m, 80) == Hash(0x42541B35, 0x5738D5E1, 0x21834873, 0x681E6DF6, 0xD8FDF6AD)
  {
    hide W, Rounds, INITIAL;
    var v := Hash(0x39859DE7, 0xC199F8C7, 0x8FC96230, 0x125C24F0, 0xDE37534A);
    v := NextRound(m, 72, 0xB8599DD6, v);
    v := NextRound(m, 73, 0x380A1A26, v);
    v := NextRound(m, 74, 0x01E02203, v);
    v := NextRound(m, 75, 0xE7CC3456, v);
    v := NextRound(m, 76, 0xE6E60B69, v);
    v := NextRound(m, 77, 0x00F60A00, v);
    v := NextRound(m, 78, 0x5795EF4F, v);
    v := NextRound(m, 79, 0x822E0879, v);
  }

  const DIGEST := Hash(0xA9993E36, 0x4706816A, 0xBA3E2571, 0x7850C26C, 0x9CD0D89D)

  lemma AllWords(m: Block)
    requires IsPadded(m)
    ensures Words(m, 0, WORDS_0) && Words(m, 8, WORDS_8)
    ensures Words(m, 16, WORDS_16) && Words(m, 24, WORDS_24)
    ensures Words(m, 32, WORDS_32) && Words(m, 40, WORDS_40)
    ensures Words(m, 48, WORDS_48) && Words(m, 56, WORDS_56)
    ensures Words(m, 64, WORDS_64) && Words(m, 72, WORDS_72)
  {
    hide Words, IsPadded;
    FirstWords(m);
    NextWords16(m);
    NextWords24(m);
    NextWords32(m);
    NextWords40(m);
    NextWords48(m);
    NextWords56(m);
    NextWords64(m);
    NextWords72(m);
  }

  lemma AbcBlock(m: Block)
    requires IsPadded(m)
    ensures Transform(INITIAL, m) == DIGEST
  {
    hide Words, IsPadded, Rounds;
    AllWords(m);
    NoRounds(m);
    Rounds8(m);
    Rounds16(m);
    Rounds24(m);
    Rounds32(m);
    Rounds40(m);
    Rounds48(m);
    Rounds56(m);
    Rounds64(m);
    Rounds72(m);
    Rounds80(m);
  }

  lemma NoRounds(m: Block)
    ensures Rounds(INITIAL, m, 0) == INITIAL
  {
  }

  lemma AbcDigest()
    ensures Sha1.Sha1(ABC) == [
      0xA9, 0x99, 0x3E, 0x36, 0x47, 0x06, 0x81, 0x6A, 0xBA, 0x3E, 0x25, 0x71,
      0x78, 0x50, 0xC2, 0x6C, 0x9C, 0xD0, 0xD8, 0x9D]
  {
    hide Pad, Transform, WordBytes;
    PaddedAbc();
    OneBlock(Pad(ABC));
    AbcBlock(Pad(ABC));
    DigestOctets();
  }

  lemma OneBlock(m: Block)
    ensures AfterBlocks(m, 1) == Transform(INITIAL, m)
  {
    hide Transform;
    assert AfterBlocks(m, 0) == INITIAL && m[0..64] == m;
  }

  lemma DigestOctets()
    ensures WordBytes(0xA9993E36) == [0xA9, 0x99, 0x3E, 0x36]
    ensures WordBytes(0x4706816A) == [0x47, 0x06, 0x81, 0x6A]
    ensures WordBytes(0xBA3E2571) == [0xBA, 0x3E, 0x25, 0x71]
    ensures WordBytes(0x7850C26C) == [0x78, 0x50, 0xC2, 0x6C]
    ensures WordBytes(0x9CD0D89D) == [0x9C, 0xD0, 0xD8, 0x9D]
  {
  }
}

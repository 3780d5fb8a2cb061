/** The compound FNV-1a hash of src/jes_hash_table.c and why, for 16-bit parent ids,
    it keeps equal keywords of different objects apart. */
module Fnv {
  const PRIME: nat := 16777619
  const BASIS: nat := 2166136261
  const WORD: nat := 0x1_0000_0000

  type uint8 = n: nat | n < 256
  type uint32 = n: nat | n < WORD

  function Pow2(n: nat): nat { if n == 0 then 1 else 2 * Pow2(n - 1) }

  /** Exclusive or, bit by bit, of the `n` low bits. */
  function XorBits(a: nat, b: nat, n: nat): (r: nat)
    ensures r < Pow2(n)
  {
    if n == 0 then 0 else (a + b) % 2 + 2 * XorBits(a / 2, b / 2, n - 1)
  }

  function Xor8(a: uint8, b: uint8): uint8 {
    assert Pow2(8) == 256;
    XorBits(a, b, 8)
  }

  /** `hash ^= byte` on a 32-bit accumulator. */
  function XorByte(h: uint32, b: uint8): uint32 { h - h % 256 + Xor8(h % 256, b) }

  /** One FNV-1a round, with the wrap-around of uint32_t. */
  function Round(h: uint32, b: uint8): uint32 { XorByte(h, b) * PRIME % WORD }

  /** Feed a byte sequence to an accumulator. */
  function Fold(step: (uint32, uint8) -> uint32, h: uint32, bytes: seq<uint8>): uint32
    decreases |bytes|
  {
    if bytes == [] then h else Fold(step, step(h, bytes[0]), bytes[1..])
  }

  function Rounds(h: uint32, bytes: seq<uint8>): uint32 { Fold(Round, h, bytes) }

  /** The in-memory bytes of a uint32_t that holds a 16-bit parent id. */
  function IdBytes(id: nat, bigEndian: bool): seq<uint8>
    requires id < 0x1_0000
  {
    if bigEndian then [0, 0, id / 256, id % 256] else [id % 256, id / 256, 0, 0]
  }

  function TextBytes(text: string): (r: seq<uint8>)
    ensures |r| == |text|
  {
    seq(|text|, i requires 0 <= i < |text| => text[i] as int % 256)
  }

  /** jes_fnv1a_compound_hash */
  function Hash(id: nat, text: string, bigEndian: bool): uint32
    requires id < 0x1_0000
  {
    Rounds(Rounds(BASIS, IdBytes(id, bigEndian)), TextBytes(text))
  }

  // ----- one round is a bijection of the accumulator -----

  lemma SameBit(a: nat, a': nat, b: nat, r: nat, r': nat)
    requires (a + b) % 2 + 2 * r == (a' + b) % 2 + 2 * r'
    ensures r == r' && (a / 2 == a' / 2 ==> a == a')
  {
  }

  lemma {:induction false} XorBitsInjective(a: nat, a': nat, b: nat, n: nat)
    requires a < Pow2(n) && a' < Pow2(n) && XorBits(a, b, n) == XorBits(a', b, n)
    ensures a == a'
  {
    if n != 0 {
      var r, r' := XorBits(a / 2, b / 2, n - 1), XorBits(a' / 2, b / 2, n - 1);
      SameBit(a, a', b, r, r');
      XorBitsInjective(a / 2, a' / 2, b / 2, n - 1);
    }
  }

  lemma {:induction false} XorBitsCommutes(a: nat, b: nat, n: nat)
    ensures XorBits(a, b, n) == XorBits(b, a, n)
  {
    if n != 0 {
      XorBitsCommutes(a / 2, b / 2, n - 1);
    }
  }

  lemma Xor8Injective(a: uint8, a': uint8, b: uint8)
    ensures Xor8(a, b) == Xor8(a', b) ==> a == a'
    ensures Xor8(b, a) == Xor8(b, a') ==> a == a'
  {
    assert Pow2(8) == 256;
    XorBitsCommutes(a, b, 8);
    XorBitsCommutes(a', b, 8);
    if XorBits(a, b, 8) == XorBits(a', b, 8) {
      XorBitsInjective(a, a', b, 8);
    }
  }

  lemma TimesPrimeInjective(x: uint32, y: uint32)
    requires x * PRIME % WORD == y * PRIME % WORD
    ensures x == y
  {
    // 899433627 is the inverse of PRIME modulo 2^32.
    var q, q' := x * PRIME / WORD, y * PRIME / WORD;
    var m := 899433627 * (q - q') - 3513497 * (x - y);
    assert 899433627 * PRIME == 3513497 * WORD + 1;
    assert (x - y) * PRIME == (q - q') * WORD;
    assert x - y == m * WORD;
  }

  lemma RoundInjective(h: uint32, h': uint32, b: uint8)
    requires Round(h, b) == Round(h', b)
    ensures h == h'
  {
    TimesPrimeInjective(XorByte(h, b), XorByte(h', b));
    assert XorByte(h, b) / 256 == h / 256 && XorByte(h', b) / 256 == h' / 256;
    assert XorByte(h, b) % 256 == Xor8(h % 256, b) && XorByte(h', b) % 256 == Xor8(h' % 256, b);
    Xor8Injective(h % 256, h' % 256, b);
  }

  lemma {:induction false} FoldInjective(step: (uint32, uint8) -> uint32, h: uint32, h': uint32, bytes: seq<uint8>)
    requires forall x: uint32, y: uint32, b: uint8 :: step(x, b) == step(y, b) ==> x == y
    requires Fold(step, h, bytes) == Fold(step, h', bytes)
    ensures h == h'
    decreases |bytes|
  {
    if bytes != [] {
      FoldInjective(step, step(h, bytes[0]), step(h', bytes[0]), bytes[1..]);
    }
  }

  lemma RoundsInjective(h: uint32, h': uint32, bytes: seq<uint8>)
    requires Rounds(h, bytes) == Rounds(h', bytes)
    ensures h == h'
  {
    forall x: uint32, y: uint32, b: uint8 | Round(x, b) == Round(y, b) ensures x == y {
      RoundInjective(x, y, b);
    }
    FoldInjective(Round, h, h', bytes);
  }

  // ----- two rounds are injective in the two bytes they absorb -----

  /** Two accumulators that differ in the low byte only stay more than a byte apart. */
  lemma PrimeSpreads(x: uint32, y: uint32)
    requires x / 256 == y / 256
    requires x * PRIME % WORD / 256 == y * PRIME % WORD / 256
    ensures x == y
  {
    var q, q' := x * PRIME / WORD, y * PRIME / WORD;
    var d := x - y;
    assert -256 < d < 256;
    assert -256 < d * PRIME - (q - q') * WORD < 256;
    assert -256 <= q - q' <= 256;
  }

  lemma TwoRoundsInjective(h: uint32, a: uint8, b: uint8, a': uint8, b': uint8)
    requires Round(Round(h, a), b) == Round(Round(h, a'), b')
    ensures a == a' && b == b'
  {
    var x, x' := XorByte(h, a), XorByte(h, a');
    var r, r' := Round(h, a), Round(h, a');
    TimesPrimeInjective(XorByte(r, b), XorByte(r', b'));
    assert XorByte(r, b) / 256 == r / 256 && XorByte(r', b') / 256 == r' / 256;
    assert x / 256 == h / 256 && x' / 256 == h / 256;
    PrimeSpreads(x, x');
    Xor8Injective(a, a', h % 256);
    Xor8Injective(b, b', r % 256);
  }

  /** For a fixed keyword the hash determines the 16-bit parent id, on either byte order. */
  lemma HashDeterminesParent(id: nat, id': nat, text: string, bigEndian: bool)
    requires id < 0x1_0000 && id' < 0x1_0000
    requires Hash(id, text, bigEndian) == Hash(id', text, bigEndian)
    ensures id == id'
  {
    var s, s' := IdBytes(id, bigEndian), IdBytes(id', bigEndian);
    RoundsInjective(Rounds(BASIS, s), Rounds(BASIS, s'), TextBytes(text));
    FourSteps(Round, BASIS, s);
    FourSteps(Round, BASIS, s');
    if bigEndian {
      TwoRoundsInjective(Round(Round(BASIS, 0), 0), s[2], s[3], s'[2], s'[3]);
    } else {
      var h, h' := Round(Round(BASIS, s[0]), s[1]), Round(Round(BASIS, s'[0]), s'[1]);
      RoundInjective(Round(h, 0), Round(h', 0), 0);
      RoundInjective(h, h', 0);
      TwoRoundsInjective(BASIS, s[0], s[1], s'[0], s'[1]);
    }
  }

  lemma FourSteps(step: (uint32, uint8) -> uint32, h: uint32, s: seq<uint8>)
    requires |s| == 4
    ensures Fold(step, h, s) == step(step(step(step(h, s[0]), s[1]), s[2]), s[3])
  {
    assert s[1..][1..] == s[2..] && s[2..][1..] == s[3..] && s[3..][1..] == [];
    var h1 := step(h, s[0]);
    var h2 := step(h1, s[1]);
    var h3 := step(h2, s[2]);
    assert Fold(step, h, s) == Fold(step, h1, s[1..]) == Fold(step, h2, s[2..]) == Fold(step, h3, s[3..]);
    assert Fold(step, h3, s[3..]) == Fold(step, step(h3, s[3]), []);
  }

  lemma OneRound(h: uint32, b: uint8, rest: seq<uint8>, r: uint32)
    requires Round(h, b) == r
    ensures Rounds(h, [b] + rest) == Rounds(r, rest)
    ensures rest == [] ==> Rounds(h, [b] + rest) == r
  {
    assert ([b] + rest)[1..] == rest;
  }

  lemma TwoBits(a: nat, b: nat, n: nat)
    ensures XorBits(a, b, n + 2) == (a + b) % 2 + 2 * ((a / 2 + b / 2) % 2) + 4 * XorBits(a / 4, b / 4, n)
  {
    assert a / 2 / 2 == a / 4 && b / 2 / 2 == b / 4;
    assert XorBits(a, b, n + 2) == (a + b) % 2 + 2 * XorBits(a / 2, b / 2, n + 1);
    assert XorBits(a / 2, b / 2, n + 1) == (a / 2 + b / 2) % 2 + 2 * XorBits(a / 4, b / 4, n);
  }

  lemma FourBits(a: nat, b: nat, n: nat)
    ensures XorBits(a, b, n + 4) == (a + b) % 2 + 2 * ((a / 2 + b / 2) % 2) + 4 * ((a / 4 + b / 4) % 2)
        + 8 * ((a / 8 + b / 8) % 2)
      + 16 * XorBits(a / 16, b / 16, n)
    ensures n == 0 ==> XorBits(a / 16, b / 16, n) == 0
  {
    hide XorBits;
    TwoBits(a, b, n + 2);
    TwoBits(a / 4, b / 4, n);
    assert a / 4 / 2 == a / 8 && b / 4 / 2 == b / 8 && a / 4 / 4 == a / 16 && b / 4 / 4 == b / 16;
    NoBits(a / 16, b / 16);
  }

  lemma NoBits(a: nat, b: nat)
    ensures XorBits(a, b, 0) == 0
  {
  }

  /** Half a byte at a time. */
  lemma Halves(a: uint8, b: uint8, low: nat, high: nat)
    requires low == (a + b) % 2 + 2 * ((a / 2 + b / 2) % 2) + 4 * ((a / 4 + b / 4) % 2) + 8 * ((a / 8 + b / 8) % 2)
    requires var c, d := a / 16, b / 16;
      high == (c + d) % 2 + 2 * ((c / 2 + d / 2) % 2) + 4 * ((c / 4 + d / 4) % 2) + 8 * ((c / 8 + d / 8) % 2)
    ensures Xor8(a, b) == low + 16 * high
  {
    hide XorBits;
    FourBits(a, b, 4);
    FourBits(a / 16, b / 16, 0);
  }

  lemma ParentIdBytes()
    ensures Xor8(197, 0) == 197
    ensures Xor8(31, 0) == 31
    ensures Xor8(205, 0) == 205
    ensures Xor8(183, 0) == 183
    ensures IdBytes(0, false) == [0] + ([0] + ([0] + ([0] + [])))
  {
    hide Xor8, XorBits;
    Halves(197, 0, 5, 12);
    Halves(31, 0, 15, 1);
    Halves(205, 0, 13, 12);
    Halves(183, 0, 7, 11);
  }

  lemma ParentIdRounds()
    ensures Round(2166136261, 0) == 84696351
    ensures Round(84696351, 0) == 292984781
    ensures Round(292984781, 0) == 1253111735
    ensures Round(1253111735, 0) == 1268118805
  {
    hide Xor8;
    ParentIdBytes();
  }

  lemma ParentHashed()
    ensures Rounds(BASIS, IdBytes(0, false)) == 1268118805
  {
    hide Round, Rounds, Fold, TextBytes, IdBytes;
    ParentIdBytes();
    ParentIdRounds();
    OneRound(2166136261, 0, [0] + ([0] + ([0] + [])), 84696351);
    OneRound(84696351, 0, [0] + ([0] + []), 292984781);
    OneRound(292984781, 0, [0] + [], 1253111735);
    OneRound(1253111735, 0, [], 1268118805);
  }

  lemma ThreeLettersBytes()
    ensures Xor8(21, 117) == 96
    ensures Xor8(32, 97) == 65
    ensures Xor8(83, 104) == 59
    ensures TextBytes("uah") == [117] + ([97] + ([104] + []))
  {
    hide Xor8, XorBits;
    Halves(21, 117, 0, 6);
    Halves(32, 97, 1, 4);
    Halves(83, 104, 11, 3);
  }

  /** One round, with its exclusive or known. */
  lemma RoundIs(h: uint32, b: uint8, x: uint8, r: uint32)
    requires Xor8(h % 256, b) == x && (h - h % 256 + x) * PRIME % WORD == r
    ensures Round(h, b) == r
  {
    hide Xor8;
  }

  lemma ThreeLettersRounds()
    ensures Round(1268118805, 117) == 1561413152
    ensures Round(1561413152, 97) == 3274807379
    ensures Round(3274807379, 104) == 2182259937
  {
    hide Xor8, Round;
    ThreeLettersBytes();
    RoundIs(1268118805, 117, 96, 1561413152);
    RoundIs(1561413152, 97, 65, 3274807379);
    RoundIs(3274807379, 104, 59, 2182259937);
  }

  lemma ThreeLetters()
    ensures Rounds(1268118805, TextBytes("uah")) == 2182259937
  {
    hide Round, Rounds, Fold, TextBytes, IdBytes;
    ThreeLettersBytes();
    ThreeLettersRounds();
    OneRound(1268118805, 117, [97] + ([104] + []), 1561413152);
    OneRound(1561413152, 97, [104] + [], 3274807379);
    OneRound(3274807379, 104, [], 2182259937);
  }

  lemma FirstThreeBytes()
    ensures Xor8(21, 99) == 118
    ensures Xor8(194, 107) == 169
    ensures Xor8(11, 113) == 122
  {
    hide Xor8, XorBits;
    Halves(21, 99, 6, 7);
    Halves(194, 107, 9, 10);
    Halves(11, 113, 10, 7);
  }

  lemma LastTwoBytes()
    ensures Xor8(14, 112) == 126
    ensures Xor8(90, 97) == 59
  {
    hide Xor8, XorBits;
    Halves(14, 112, 14, 7);
    Halves(90, 97, 11, 3);
  }

  lemma FiveLettersText()
    ensures TextBytes("ckqpa") == [99] + ([107] + ([113] + ([112] + ([97] + []))))
  {
  }

  lemma FiveLettersRounds()
    ensures Round(1268118805, 99) == 1930520770
    ensures Round(1930520770, 107) == 3446129163
    ensures Round(3446129163, 113) == 3562481166
    ensures Round(3562481166, 112) == 3274807386
    ensures Round(3274807386, 97) == 2182259937
  {
    hide Xor8, Round;
    FirstThreeBytes();
    LastTwoBytes();
    RoundIs(1268118805, 99, 118, 1930520770);
    RoundIs(1930520770, 107, 169, 3446129163);
    RoundIs(3446129163, 113, 122, 3562481166);
    RoundIs(3562481166, 112, 126, 3274807386);
    RoundIs(3274807386, 97, 59, 2182259937);
  }

  lemma FiveLetters()
    ensures Rounds(1268118805, TextBytes("ckqpa")) == 2182259937
  {
    hide Round, Rounds, Fold, TextBytes, IdBytes;
    FiveLettersText();
    FiveLettersRounds();
    OneRound(1268118805, 99, [107] + ([113] + ([112] + ([97] + []))), 1930520770);
    OneRound(1930520770, 107, [113] + ([112] + ([97] + [])), 3446129163);
    OneRound(3446129163, 113, [112] + ([97] + []), 3562481166);
    OneRound(3562481166, 112, [97] + [], 3274807386);
    OneRound(3274807386, 97, [], 2182259937);
  }

  /** Below one parent, different keywords can have the same hash. */
  lemma HashCollides()
    ensures Hash(0, "uah", false) == Hash(0, "ckqpa", false)
  {
    hide Rounds, IdBytes, TextBytes;
    ParentHashed();
    ThreeLetters();
    FiveLetters();
  }

  /** jes_fnv1a_compound_hash as it runs: one accumulator, two loops. */
  method CompoundHash(id: nat, text: string, bigEndian: bool) returns (hash: uint32)
    requires id < 0x1_0000
    ensures hash == Hash(id, text, bigEndian)
  {
    var idBytes := IdBytes(id, bigEndian);
    hash := BASIS;
    var index := 0;
    while index < 4
      invariant 0 <= index <= 4
      invariant Rounds(hash, idBytes[index..]) == Rounds(BASIS, idBytes)
    {
      hash := XorByte(hash, idBytes[index]);
      hash := hash * PRIME % WORD;
      index := index + 1;
    }
    ghost var keyword := TextBytes(text);
    ghost var start := hash;
    index := 0;
    while index < |text|
      invariant 0 <= index <= |text|
      invariant Rounds(hash, keyword[index..]) == Rounds(start, keyword)
    {
      hash := XorByte(hash, text[index] as int % 256);
      hash := hash * PRIME % WORD;
      index := index + 1;
    }
  }

  type KeyHasher = (nat, string) -> nat

  /** hash_fn as the key index uses it: a parent index and a name to a hash. */
  function KeyHash(bigEndian: bool): KeyHasher {
    (p: nat, text: string) => if p < 0x1_0000 then Hash(p, text, bigEndian) else 0
  }

  /** The hasher tells 16-bit parents apart whenever the name is the same. */
  ghost predicate SeparatesParents(h: KeyHasher) {
    forall p, q, text | p < 0x1_0000 && q < 0x1_0000 && h(p, text) == h(q, text) :: p == q
  }

  lemma KeyHashSeparates(h: KeyHasher, bigEndian: bool)
    requires forall p: nat, text :: p < 0x1_0000 ==> h(p, text) == Hash(p, text, bigEndian)
    ensures SeparatesParents(h)
  {
    forall p, q, text | p < 0x1_0000 && q < 0x1_0000 && h(p, text) == h(q, text) ensures p == q {
      HashDeterminesParent(p, q, text, bigEndian);
    }
  }

  method ParentHash(parent: nat, text: string, bigEndian: bool) returns (hash: nat)
    requires parent < 0x1_0000
    ensures hash == KeyHash(bigEndian)(parent, text)
  {
    hash := CompoundHash(parent, text, bigEndian);
  }
}

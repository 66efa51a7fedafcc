/** The 64-bit FNV-1a hash (section 2 of draft-eastlake-fnv) used by both binary formats.
    Each step is a bijection of the state, because the prime is odd, and injective in the byte
    it absorbs; so two inputs that differ in exactly one byte never collide. */
module Fnv {
  import opened Words

  const OFFSET_BASIS: U64 := 0xcbf29ce484222325
  const PRIME: U64 := 0x100000001b3

  /** The multiplicative inverses of the prime modulo 2^64 and of its low word modulo 2^32. */
  const PRIME_INVERSE: U64 := 0xce965057aff6957b
  const LOW_PRIME: U32 := 0x1b3
  const LOW_PRIME_INVERSE: U32 := 0xaff6957b

  /** Absorbs one byte: exclusive or, then multiply, both in 64-bit arithmetic. */
  function Step(h: U64, b: U8): U64 {
    (Xor(h, b) * PRIME) % TWO_64
  }

  function HashFrom(h: U64, data: Bytes): U64
    decreases data
  {
    if data == [] then h else HashFrom(Step(h, data[0]), data[1..])
  }

  function Hash(data: Bytes): U64 {
    HashFrom(OFFSET_BASIS, data)
  }

  /** The running-hash loop of both source files. */
  method ComputeHash(data: Bytes) returns (h: U64)
    ensures h == Hash(data)
  {
    h := OFFSET_BASIS;
    for i := 0 to |data|
      invariant HashFrom(h, data[i..]) == Hash(data)
    {
      assert data[i..][1..] == data[i + 1..];
      h := Step(h, data[i]);
    }
  }

  // ---------------------------------------------------------------- published values

  /** The bit of weight w in the exclusive or. */
  function XorBit(a: nat, b: nat, w: nat): nat
    requires w > 0
  {
    if a / w % 2 == b / w % 2 then 0 else w
  }

  lemma XorTwoBits(a: nat, b: nat)
    ensures Xor(a, b) == XorBit(a, b, 1) + XorBit(a, b, 2) + 4 * Xor(a / 4, b / 4)
  {
    hide Xor;
    XorStep(a, b);
    XorStep(a / 2, b / 2);
    assert a / 2 / 2 == a / 4 && b / 2 / 2 == b / 4;
  }

  lemma XorFourBits(a: nat, b: nat)
    ensures Xor(a, b) == XorBit(a, b, 1) + XorBit(a, b, 2) + XorBit(a, b, 4) + XorBit(a, b, 8) + 16 * Xor(a / 16, b / 16)
  {
    hide Xor;
    XorTwoBits(a, b);
    XorTwoBits(a / 4, b / 4);
    assert a / 4 / 2 == a / 8 && b / 4 / 2 == b / 8;
    assert a / 4 / 4 == a / 16 && b / 4 / 4 == b / 16;
    assert XorBit(a, b, 4) == 4 * XorBit(a / 4, b / 4, 1);
    assert XorBit(a, b, 8) == 4 * XorBit(a / 4, b / 4, 2);
  }

  /** The exclusive or of two bytes, bit by bit. */
  lemma XorOfBytes(a: U8, b: U8)
    ensures Xor(a, b) == XorBit(a, b, 1) + XorBit(a, b, 2) + XorBit(a, b, 4) + XorBit(a, b, 8)
                         + XorBit(a, b, 16) + XorBit(a, b, 32) + XorBit(a, b, 64) + XorBit(a, b, 128)
  {
    hide Xor;
    XorFourBits(a, b);
    XorFourBits(a / 16, b / 16);
    assert a / 16 / 16 == 0 && b / 16 / 16 == 0;
    XorZero(0);
    UpperBits(a, b);
    hide XorBit;
  }

  lemma UpperBits(a: nat, b: nat)
    ensures XorBit(a, b, 16) == 16 * XorBit(a / 16, b / 16, 1) && XorBit(a, b, 32) == 16 * XorBit(a / 16, b / 16, 2)
    ensures XorBit(a, b, 64) == 16 * XorBit(a / 16, b / 16, 4) && XorBit(a, b, 128) == 16 * XorBit(a / 16, b / 16, 8)
  {
    assert a / 16 / 2 == a / 32 && b / 16 / 2 == b / 32;
    assert a / 16 / 4 == a / 64 && b / 16 / 4 == b / 64;
    assert a / 16 / 8 == a / 128 && b / 16 / 8 == b / 128;
  }

  /** One step on a state given by its lowest byte and the rest. */
  lemma StepIs(h: U64, b: U8, high: nat, low: nat, mixed: nat, next: U64)
    requires h == high * 0x100 + low && low < 0x100
    requires mixed == XorBit(low, b, 1) + XorBit(low, b, 2) + XorBit(low, b, 4) + XorBit(low, b, 8)
                      + XorBit(low, b, 16) + XorBit(low, b, 32) + XorBit(low, b, 64) + XorBit(low, b, 128)
    requires ((high * 0x100 + mixed) * PRIME) % TWO_64 == next
    ensures Step(h, b) == next
  {
    hide Xor, XorBit;
    Pow2Values();
    XorOfBytes(low, b);
    XorLow(high, low, b, 8);
  }

  lemma HashOfOne(a: U8)
    ensures Hash([a]) == Step(OFFSET_BASIS, a)
  {
    assert [a][1..] == [];
    assert HashFrom(Step(OFFSET_BASIS, a), []) == Step(OFFSET_BASIS, a);
  }

  lemma HashExtends(h: U64, data: Bytes, b: U8)
    ensures HashFrom(h, data + [b]) == Step(HashFrom(h, data), b)
    decreases data
  {
    if data == [] {
      assert [] + [b] == [b] && [b][1..] == [];
    } else {
      assert (data + [b])[1..] == data[1..] + [b];
      HashExtends(Step(h, data[0]), data[1..], b);
    }
  }

  lemma FoobarSteps()
    ensures Step(Step(Step(Step(Step(Step(OFFSET_BASIS, 0x66), 0x6f), 0x6f), 0x62), 0x61), 0x72) == 0x85944171f73967e8
    ensures Step(OFFSET_BASIS, 0x61) == 0xaf63dc4c8601ec8c
  {
    hide Step;
    StepIs(0xcbf29ce484222325, 0x61, 0xcbf29ce4842223, 0x25, 0x44, 0xaf63dc4c8601ec8c);
    StepIs(0xcbf29ce484222325, 0x66, 0xcbf29ce4842223, 0x25, 0x43, 0xaf63db4c8601ead9);
    StepIs(0xaf63db4c8601ead9, 0x6f, 0xaf63db4c8601ea, 0xd9, 0xb6, 0x8985907b541d342);
    StepIs(0x8985907b541d342, 0x6f, 0x8985907b541d3, 0x42, 0x2d, 0xdcb27518fed9d577);
    StepIs(0xdcb27518fed9d577, 0x62, 0xdcb27518fed9d5, 0x77, 0x15, 0xdd120e790c2512af);
    StepIs(0xdd120e790c2512af, 0x61, 0xdd120e790c2512, 0xaf, 0xce, 0xcac165afa2fef40a);
    StepIs(0xcac165afa2fef40a, 0x72, 0xcac165afa2fef4, 0xa, 0x78, 0x85944171f73967e8);
  }

  /** The hashes of the empty text, of "a" and of "foobar" are the published ones. */
  lemma PublishedHashes()
    ensures Hash([]) == 0xcbf29ce484222325
    ensures Hash([0x61]) == 0xaf63dc4c8601ec8c
    ensures Hash([0x66, 0x6f, 0x6f, 0x62, 0x61, 0x72]) == 0x85944171f73967e8
  {
    hide Step;
    FoobarSteps();
    HashOfOne(0x61);
    HashOfOne(0x66);
    HashExtends(OFFSET_BASIS, [0x66], 0x6f);
    HashExtends(OFFSET_BASIS, [0x66, 0x6f], 0x6f);
    HashExtends(OFFSET_BASIS, [0x66, 0x6f, 0x6f], 0x62);
    HashExtends(OFFSET_BASIS, [0x66, 0x6f, 0x6f, 0x62], 0x61);
    HashExtends(OFFSET_BASIS, [0x66, 0x6f, 0x6f, 0x62, 0x61], 0x72);
    assert [0x66, 0x6f, 0x6f, 0x62, 0x61] + [0x72] == [0x66, 0x6f, 0x6f, 0x62, 0x61, 0x72];
    assert [0x66, 0x6f, 0x6f, 0x62] + [0x61] == [0x66, 0x6f, 0x6f, 0x62, 0x61];
    assert [0x66, 0x6f, 0x6f] + [0x62] == [0x66, 0x6f, 0x6f, 0x62];
    assert [0x66, 0x6f] + [0x6f] == [0x66, 0x6f, 0x6f];
    assert [0x66] + [0x6f] == [0x66, 0x6f];
  }

  // ---------------------------------------------------------------- bijectivity of one step

  /** Multiplication by a number with an inverse modulo m is injective modulo m. */
  lemma MulInjective(x: nat, y: nat, c: nat, inverse: nat, k: nat, m: nat)
    requires x < m && y < m
    requires c * inverse == 1 + k * m
    requires (x * c) % m == (y * c) % m
    ensures x == y
  {
    var d := x - y;
    var t := (x * c) / m - (y * c) / m;
    assert d * c == t * m by {
      assert x * c == ((x * c) / m) * m + (x * c) % m;
      assert y * c == ((y * c) / m) * m + (y * c) % m;
    }
    var q := t * inverse - k * d;
    assert d == q * m by {
      assert d * (c * inverse) == (t * m) * inverse;
      assert d * (1 + k * m) == d + (k * d) * m;
      assert (t * m) * inverse == (t * inverse) * m;
    }
    assert q >= 1 ==> q * m >= m;
    assert q <= -1 ==> q * m + m <= 0;
  }

  lemma XorFits(h: U64, b: U8)
    ensures Xor(h, b) < TWO_64
  {
    Pow2Values();
    XorBound(h, b, 64);
  }

  lemma PrimeInvertible()
    ensures exists k: nat :: PRIME * PRIME_INVERSE == 1 + k * TWO_64
    ensures exists k: nat :: LOW_PRIME * LOW_PRIME_INVERSE == 1 + k * TWO_32
  {
    assert PRIME * PRIME_INVERSE == 1 + ((PRIME * PRIME_INVERSE) / TWO_64) * TWO_64;
    assert LOW_PRIME * LOW_PRIME_INVERSE == 1 + ((LOW_PRIME * LOW_PRIME_INVERSE) / TWO_32) * TWO_32;
  }

  /** No two states lead to the same state by absorbing the same byte. */
  lemma StepInjectiveInState(g: U64, h: U64, b: U8)
    requires Step(g, b) == Step(h, b)
    ensures g == h
  {
    XorFits(g, b);
    XorFits(h, b);
    PrimeInvertible();
    var k: nat :| PRIME * PRIME_INVERSE == 1 + k * TWO_64;
    MulInjective(Xor(g, b), Xor(h, b), PRIME, PRIME_INVERSE, k, TWO_64);
    XorUndo(g, b);
    XorUndo(h, b);
  }

  /** No two bytes lead from one state to the same state. */
  lemma StepInjectiveInByte(h: U64, a: U8, b: U8)
    requires Step(h, a) == Step(h, b)
    ensures a == b
  {
    XorFits(h, a);
    XorFits(h, b);
    PrimeInvertible();
    var k: nat :| PRIME * PRIME_INVERSE == 1 + k * TWO_64;
    MulInjective(Xor(h, a), Xor(h, b), PRIME, PRIME_INVERSE, k, TWO_64);
    XorCommutes(h, a);
    XorCommutes(h, b);
    XorUndo(a, h);
    XorUndo(b, h);
  }

  // ---------------------------------------------------------------- whole inputs

  lemma {:induction false} HashFromInjective(g: U64, h: U64, data: Bytes)
    requires HashFrom(g, data) == HashFrom(h, data)
    ensures g == h
    decreases data
  {
    if data != [] {
      HashFromInjective(Step(g, data[0]), Step(h, data[0]), data[1..]);
      StepInjectiveInState(g, h, data[0]);
    }
  }

  lemma {:induction false} HashFromDetects(h: U64, data: Bytes, i: nat, b: U8)
    requires i < |data| && b != data[i]
    ensures HashFrom(h, data[i := b]) != HashFrom(h, data)
    decreases i
  {
    var changed := data[i := b];
    if i == 0 {
      assert changed[1..] == data[1..];
      if HashFrom(h, changed) == HashFrom(h, data) {
        HashFromInjective(Step(h, b), Step(h, data[0]), data[1..]);
        StepInjectiveInByte(h, b, data[0]);
      }
    } else {
      assert changed[1..] == data[1..][i - 1 := b];
      HashFromDetects(Step(h, data[0]), data[1..], i - 1, b);
    }
  }

  /** Every substitution of one byte, in an input of any length, changes the hash. */
  lemma HashDetectsOneByte(data: Bytes, i: nat, b: U8)
    requires i < |data| && b != data[i]
    ensures Hash(data[i := b]) != Hash(data)
  {
    HashFromDetects(OFFSET_BASIS, data, i, b);
  }

  // ---------------------------------------------------------------- the low 32 bits

  /** The 32-bit hash whose states are the low words of the 64-bit one. */
  function LowStep(h: U32, b: U8): U32 {
    (Xor(h, b) * LOW_PRIME) % TWO_32
  }

  function LowHashFrom(h: U32, data: Bytes): U32
    decreases data
  {
    if data == [] then h else LowHashFrom(LowStep(h, data[0]), data[1..])
  }

  function LowHash(data: Bytes): U32 {
    Hash(data) % TWO_32
  }

  lemma XorLowWord(h: U64, b: U8)
    ensures Xor(h, b) % TWO_32 == Xor(h % TWO_32, b)
  {
    hide Xor, Pow2;
    Pow2Values();
    assert Pow2(8) <= Pow2(32);
    XorLow(h / TWO_32, h % TWO_32, b, 32);
    XorBound(h % TWO_32, b, 32);
  }

  /** The low word evolves on its own: the high word never flows back into it. */
  lemma LowStepAgrees(h: U64, b: U8)
    ensures Step(h, b) % TWO_32 == LowStep(h % TWO_32, b)
  {
    XorLowWord(h, b);
    XorFits(h, b);
    var x := Xor(h, b);
    var high, low := x / TWO_32, x % TWO_32;
    assert x * PRIME == (high * PRIME + low * 0x100) * TWO_32 + low * LOW_PRIME;
    ModOfSum(low * LOW_PRIME, high * PRIME + low * 0x100);
    var y := x * PRIME;
    assert y == (y / TWO_64) * TWO_64 + y % TWO_64;
    assert y % TWO_64 == y + (-(y / TWO_64) * TWO_32) * TWO_32;
    ModOfSum(y, -(y / TWO_64) * TWO_32);
  }

  lemma ModOfSum(r: int, q: int)
    ensures (r + q * TWO_32) % TWO_32 == r % TWO_32
  {
  }

  lemma {:induction false} LowHashAgrees(h: U64, data: Bytes)
    ensures HashFrom(h, data) % TWO_32 == LowHashFrom(h % TWO_32, data)
    decreases data
  {
    if data != [] {
      LowStepAgrees(h, data[0]);
      LowHashAgrees(Step(h, data[0]), data[1..]);
    }
  }

  lemma LowXorFits(h: U32, b: U8)
    ensures Xor(h, b) < TWO_32
  {
    Pow2Values();
    XorBound(h, b, 32);
  }

  lemma LowStepInjectiveInState(g: U32, h: U32, b: U8)
    requires LowStep(g, b) == LowStep(h, b)
    ensures g == h
  {
    LowXorFits(g, b);
    LowXorFits(h, b);
    PrimeInvertible();
    var k: nat :| LOW_PRIME * LOW_PRIME_INVERSE == 1 + k * TWO_32;
    MulInjective(Xor(g, b), Xor(h, b), LOW_PRIME, LOW_PRIME_INVERSE, k, TWO_32);
    XorUndo(g, b);
    XorUndo(h, b);
  }

  lemma LowStepInjectiveInByte(h: U32, a: U8, b: U8)
    requires LowStep(h, a) == LowStep(h, b)
    ensures a == b
  {
    LowXorFits(h, a);
    LowXorFits(h, b);
    PrimeInvertible();
    var k: nat :| LOW_PRIME * LOW_PRIME_INVERSE == 1 + k * TWO_32;
    MulInjective(Xor(h, a), Xor(h, b), LOW_PRIME, LOW_PRIME_INVERSE, k, TWO_32);
    XorCommutes(h, a);
    XorCommutes(h, b);
    XorUndo(a, h);
    XorUndo(b, h);
  }

  lemma {:induction false} LowHashFromInjective(g: U32, h: U32, data: Bytes)
    requires LowHashFrom(g, data) == LowHashFrom(h, data)
    ensures g == h
    decreases data
  {
    if data != [] {
      LowHashFromInjective(LowStep(g, data[0]), LowStep(h, data[0]), data[1..]);
      LowStepInjectiveInState(g, h, data[0]);
    }
  }

  lemma {:induction false} LowHashFromDetects(h: U32, data: Bytes, i: nat, b: U8)
    requires i < |data| && b != data[i]
    ensures LowHashFrom(h, data[i := b]) != LowHashFrom(h, data)
    decreases i
  {
    var changed := data[i := b];
    if i == 0 {
      assert changed[1..] == data[1..];
      if LowHashFrom(h, changed) == LowHashFrom(h, data) {
        LowHashFromInjective(LowStep(h, b), LowStep(h, data[0]), data[1..]);
        LowStepInjectiveInByte(h, b, data[0]);
      }
    } else {
      assert changed[1..] == data[1..][i - 1 := b];
      LowHashFromDetects(LowStep(h, data[0]), data[1..], i - 1, b);
    }
  }

  /** Even the truncated checksum of the wire format changes under every one-byte substitution. */
  lemma LowHashDetectsOneByte(data: Bytes, i: nat, b: U8)
    requires i < |data| && b != data[i]
    ensures LowHash(data[i := b]) != LowHash(data)
  {
    LowHashAgrees(OFFSET_BASIS, data);
    LowHashAgrees(OFFSET_BASIS, data[i := b]);
    LowHashFromDetects(OFFSET_BASIS % TWO_32, data, i, b);
  }
}

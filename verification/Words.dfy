/** Fixed-width unsigned integers, their bitwise operators on mathematical integers,
    and the little-endian byte layout shared by the persistence and wire formats. */
module Words {

  const TWO_32: int := 0x1_0000_0000
  const TWO_64: int := 0x1_0000_0000_0000_0000

  type U8 = x: int | 0 <= x < 0x100
  type U16 = x: int | 0 <= x < 0x1_0000
  type U32 = x: int | 0 <= x < TWO_32
  type U64 = x: int | 0 <= x < TWO_64

  type Bytes = seq<U8>

  // ---------------------------------------------------------------- powers

  function Pow2(n: nat): (p: nat)
    ensures p > 0
  {
    if n == 0 then 1 else 2 * Pow2(n - 1)
  }

  function Pow256(n: nat): (p: nat)
    ensures p > 0
  {
    if n == 0 then 1 else 256 * Pow256(n - 1)
  }

  lemma Pow2Values()
    ensures Pow2(3) == 8 && Pow2(8) == 0x100 && Pow2(16) == 0x1_0000
    ensures Pow2(32) == TWO_32 && Pow2(64) == TWO_64
  {
    assert Pow2(4) == 16;
    assert Pow2(8) == 16 * Pow2(4);
    assert Pow2(12) == 16 * Pow2(8);
    assert Pow2(16) == 16 * Pow2(12);
    Pow2Sum(16, 16);
    Pow2Sum(32, 32);
  }

  lemma {:induction false} Pow2Sum(m: nat, n: nat)
    ensures Pow2(m + n) == Pow2(m) * Pow2(n)
  {
    if m > 0 {
      Pow2Sum(m - 1, n);
    }
  }

  lemma Pow256Values()
    ensures Pow256(1) == 0x100 && Pow256(2) == 0x1_0000
    ensures Pow256(4) == TWO_32 && Pow256(8) == TWO_64
  {
    assert Pow256(3) == 0x100_0000;
    assert Pow256(5) == 0x100 * TWO_32;
    assert Pow256(6) == 0x1_0000 * TWO_32;
    assert Pow256(7) == 0x100_0000 * TWO_32;
  }

  // ---------------------------------------------------------------- bitwise operators

  /** Exclusive or, bit by bit. */
  function Xor(a: nat, b: nat): nat
    decreases a + b
  {
    if a + b == 0 then 0
    else (if a % 2 == b % 2 then 0 else 1) + 2 * Xor(a / 2, b / 2)
  }

  /** Inclusive or, bit by bit. */
  function Or(a: nat, b: nat): nat
    decreases a + b
  {
    if a + b == 0 then 0
    else (if a % 2 == 1 || b % 2 == 1 then 1 else 0) + 2 * Or(a / 2, b / 2)
  }

  lemma {:induction false} XorUndo(a: nat, b: nat)
    ensures Xor(Xor(a, b), b) == a
    decreases a + b
  {
    if a + b > 0 {
      var d := if a % 2 == b % 2 then 0 else 1;
      var h := Xor(a / 2, b / 2);
      XorUndo(a / 2, b / 2);
      assert Xor(a, b) == d + 2 * h;
      assert (d + 2 * h) / 2 == h && (d + 2 * h) % 2 == d;
    }
  }

  lemma {:induction false} XorCommutes(a: nat, b: nat)
    ensures Xor(a, b) == Xor(b, a)
    decreases a + b
  {
    if a + b > 0 {
      XorCommutes(a / 2, b / 2);
    }
  }

  lemma {:induction false} XorBound(a: nat, b: nat, n: nat)
    requires a < Pow2(n) && b < Pow2(n)
    ensures Xor(a, b) < Pow2(n)
  {
    if a + b > 0 {
      XorBound(a / 2, b / 2, n - 1);
    }
  }

  lemma XorStep(a: nat, b: nat)
    ensures Xor(a, b) == (if a % 2 == b % 2 then 0 else 1) + 2 * Xor(a / 2, b / 2)
  {
  }

  /** Exclusive or with a number of at most n bits leaves everything above bit n alone. */
  lemma {:induction false} XorLow(high: nat, low: nat, b: nat, n: nat)
    requires low < Pow2(n) && b < Pow2(n)
    ensures Xor(high * Pow2(n) + low, b) == high * Pow2(n) + Xor(low, b)
    decreases n
  {
    hide Xor;
    if n == 0 {
      XorZero(high);
      XorZero(0);
    } else {
      var p := high * Pow2(n - 1);
      assert high * Pow2(n) == 2 * p by {
        assert Pow2(n) == 2 * Pow2(n - 1);
      }
      assert (2 * p + low) / 2 == p + low / 2 && (2 * p + low) % 2 == low % 2;
      XorStep(2 * p + low, b);
      XorStep(low, b);
      XorLow(high, low / 2, b / 2, n - 1);
    }
  }

  lemma {:induction false} XorZero(a: nat)
    ensures Xor(a, 0) == a
  {
    if a > 0 {
      XorZero(a / 2);
    }
  }

  lemma {:induction false} OrBound(a: nat, b: nat, n: nat)
    requires a < Pow2(n) && b < Pow2(n)
    ensures Or(a, b) < Pow2(n)
  {
    if a + b > 0 {
      OrBound(a / 2, b / 2, n - 1);
    }
  }

  lemma {:induction false} OrZero(a: nat)
    ensures Or(0, a) == a && Or(a, 0) == a
  {
    if a > 0 {
      OrZero(a / 2);
    }
  }

  /** Or of numbers whose bits do not meet is their sum. */
  lemma {:induction false} OrDisjoint(high: nat, low: nat, n: nat)
    requires low < Pow2(n)
    ensures Or(high * Pow2(n), low) == high * Pow2(n) + low
    decreases n
  {
    if n == 0 {
      OrZero(high);
    } else {
      var a := high * Pow2(n);
      var p := high * Pow2(n - 1);
      assert a == 2 * p by {
        assert Pow2(n) == 2 * Pow2(n - 1);
      }
      OrDisjoint(high, low / 2, n - 1);
      assert Or(p, low / 2) == p + low / 2;
    }
  }

  // ---------------------------------------------------------------- little-endian bytes

  /** The low n bytes of v, least significant first. */
  function LittleEndian(v: nat, n: nat): (s: Bytes)
    ensures |s| == n
  {
    if n == 0 then [] else [v % 256] + LittleEndian(v / 256, n - 1)
  }

  function FromLittleEndian(s: Bytes): (v: nat)
    ensures v < Pow256(|s|)
  {
    if s == [] then 0 else s[0] + 256 * FromLittleEndian(s[1..])
  }

  lemma {:induction false} LittleEndianDecodes(v: nat, n: nat)
    requires v < Pow256(n)
    ensures FromLittleEndian(LittleEndian(v, n)) == v
  {
    if n > 0 {
      LittleEndianDecodes(v / 256, n - 1);
      assert LittleEndian(v, n)[1..] == LittleEndian(v / 256, n - 1);
    }
  }

  lemma {:induction false} LittleEndianEncodes(s: Bytes)
    ensures LittleEndian(FromLittleEndian(s), |s|) == s
  {
    if s != [] {
      LittleEndianEncodes(s[1..]);
      var v := FromLittleEndian(s);
      assert v % 256 == s[0] && v / 256 == FromLittleEndian(s[1..]);
      assert s == [s[0]] + s[1..];
    }
  }

  lemma {:induction false} FromLittleEndianAppend(s: Bytes, b: U8)
    ensures FromLittleEndian(s + [b]) == FromLittleEndian(s) + b * Pow256(|s|)
  {
    if s == [] {
      assert [b][1..] == [];
    } else {
      assert (s + [b])[1..] == s[1..] + [b];
      FromLittleEndianAppend(s[1..], b);
      var p := Pow256(|s| - 1);
      assert 256 * (b * p) == b * (256 * p);
    }
  }

  /** The number that four bytes spell, least significant first. */
  function WordOf(w: Bytes): U32
    requires |w| == 4
  {
    var a: int, b: int, c: int, d: int := w[0], w[1], w[2], w[3];
    a + 0x100 * b + 0x1_0000 * c + 0x100_0000 * d
  }

  lemma WordOfIs(w: Bytes)
    requires |w| == 4
    ensures FromLittleEndian(w) == WordOf(w)
  {
    var one: Bytes, two: Bytes, three: Bytes := w[3..], w[2..], w[1..];
    assert one[1..] == [] && two[1..] == one && three[1..] == two;
    assert FromLittleEndian(one) == w[3];
    assert FromLittleEndian(two) == w[2] + 0x100 * FromLittleEndian(one);
    assert FromLittleEndian(three) == w[1] + 0x100 * FromLittleEndian(two);
    assert FromLittleEndian(w) == w[0] + 0x100 * FromLittleEndian(three);
  }

  /** The byte loop of every writer: appends the low n bytes of v, least significant first. */
  method AppendLittleEndian(s: Bytes, v: nat, n: nat) returns (r: Bytes)
    ensures r == s + LittleEndian(v, n)
  {
    r := s;
    var left := v;
    for i := 0 to n
      invariant r + LittleEndian(left, n - i) == s + LittleEndian(v, n)
    {
      assert LittleEndian(left, n - i) == [left % 256] + LittleEndian(left / 256, n - i - 1);
      assert r + ([left % 256] + LittleEndian(left / 256, n - i - 1)) == (r + [left % 256]) + LittleEndian(left / 256, n - i - 1);
      r := r + [left % 256];
      left := left / 256;
    }
    assert r + [] == r;
  }

  /** The byte loop of every reader: accumulates the n bytes at pos, least significant first. */
  method ReadLittleEndian(s: Bytes, pos: nat, n: nat) returns (v: nat)
    requires pos + n <= |s|
    ensures v == FromLittleEndian(s[pos..pos + n]) < Pow256(n)
  {
    v := 0;
    var place: nat := 1;
    for i := 0 to n
      invariant place == Pow256(i)
      invariant v == FromLittleEndian(s[pos..pos + i])
    {
      assert s[pos..pos + i + 1] == s[pos..pos + i] + [s[pos + i]];
      FromLittleEndianAppend(s[pos..pos + i], s[pos + i]);
      v := v + s[pos + i] * place;
      place := 256 * place;
    }
  }

  // ---------------------------------------------------------------- flag words

  /** The word whose bit i is set exactly when flags[i] holds. */
  function FlagWord(flags: seq<bool>): (w: nat)
    ensures w < Pow2(|flags|)
  {
    if flags == [] then 0 else (if flags[0] then 1 else 0) + 2 * FlagWord(flags[1..])
  }

  predicate FlagBit(word: nat, i: nat) {
    (word / Pow2(i)) % 2 == 1
  }

  lemma {:induction false} FlagBitReads(flags: seq<bool>, i: nat)
    requires i < |flags|
    ensures FlagBit(FlagWord(flags), i) == flags[i]
  {
    var w, rest := FlagWord(flags), FlagWord(flags[1..]);
    if i > 0 {
      FlagBitReads(flags[1..], i - 1);
      var p := Pow2(i - 1);
      assert w / 2 == rest;
      DivDiv(w, p);
    }
  }

  lemma DivDiv(w: nat, p: nat)
    requires p > 0
    ensures w / (2 * p) == (w / 2) / p
  {
    var q := (w / 2) / p;
    var r := (w / 2) % p;
    assert w / 2 == q * p + r;
    var rem := 2 * r + w % 2;
    assert w == q * (2 * p) + rem by {
      assert w == 2 * (w / 2) + w % 2;
      assert 2 * (q * p) == q * (2 * p);
    }
    assert 0 <= rem < 2 * p;
    QuotientUnique(w, 2 * p, q, rem);
  }

  lemma QuotientUnique(w: nat, d: nat, q: int, r: int)
    requires d > 0 && w == q * d + r && 0 <= r < d
    ensures w / d == q && w % d == r
  {
    var e := w / d - q;
    assert w == (w / d) * d + w % d;
    assert e * d == r - w % d by {
      assert e * d == (w / d) * d - q * d;
    }
    assert e >= 1 ==> e * d >= d;
    assert e <= -1 ==> e * d + d <= 0;
  }
}

/** Machine words and the numbers they stand for.

    Val is the unsigned value of a 64-bit word, defined bit by bit, so that facts about shifting,
    masking and smearing can be carried over to numbers by induction. */
module Words64 {
  type Word = bv64

  const WORDS: nat := 0x1_0000_0000_0000_0000
  const HALF: nat := 0x8000_0000_0000_0000
  const ALL: Word := 0xffff_ffff_ffff_ffff

  // ----- operations by name: larger proofs need not look inside them -----------------------------

  function And(a: Word, b: Word): Word {
    a & b
  }

  function Or(a: Word, b: Word): Word {
    a | b
  }

  function Xor(a: Word, b: Word): Word {
    a ^ b
  }

  function Not(a: Word): Word {
    !a
  }

  /** The bits of a that are not in b. */
  function Drop(a: Word, b: Word): Word {
    And(a, Not(b))
  }

  /** The bits of b are among those of m. */
  predicate Within(b: Word, m: Word) {
    Drop(b, m) == 0
  }

  /** 1 << i. */
  function Bit(i: nat): Word {
    if i == 0 then 1 else Bit(i - 1) << 1
  }

  function Half(w: Word): Word {
    w >> 1
  }

  function Low(w: Word): (r: nat)
    ensures r <= 1
  {
    if w & 1 == 1 then 1 else 0
  }

  function Val(w: Word): nat {
    if w == 0 then 0 else 2 * Val(Half(w)) + Low(w)
  }

  function Pow2(n: nat): (r: nat)
    ensures r >= 1
  {
    if n == 0 then 1 else 2 * Pow2(n - 1)
  }

  ghost predicate IsPow2(n: nat) {
    n == 1 || (n > 1 && n % 2 == 0 && IsPow2(n / 2))
  }

  /** r is the smallest power of two that is at least v. */
  ghost predicate LeastPow2(r: nat, v: nat) {
    IsPow2(r) && v <= r && forall p: nat :: IsPow2(p) && v <= p ==> r <= p
  }

  // ----- values of words ------------------------------------------------------------------------

  lemma ValUnfold(w: Word)
    ensures Val(w) == 2 * Val(Half(w)) + Low(w)
  {
  }

  lemma {:induction false} ValZero(w: Word)
    ensures Val(w) == 0 <==> w == 0
    decreases w
  {
    if w != 0 {
      NonZero(w);
      ValZero(Half(w));
    }
  }

  lemma NonZero(w: Word)
    requires w != 0
    ensures Half(w) < w && (Half(w) != 0 || Low(w) == 1)
  {
  }

  function Inc(w: Word): Word {
    w + 1
  }

  function Dec(w: Word): Word {
    w - 1
  }

  lemma IncEven(w: Word)
    requires Low(w) == 0
    ensures Half(Inc(w)) == Half(w) && Low(Inc(w)) == 1
  {
  }

  lemma IncOdd(w: Word)
    requires w != ALL && Low(w) == 1
    ensures Half(Inc(w)) == Inc(Half(w)) && Low(Inc(w)) == 0 && Half(w) != ALL
  {
  }

  lemma {:induction false} ValInc(w: Word)
    requires w != ALL
    ensures Val(Inc(w)) == Val(w) + 1
    decreases Val(w)
  {
    hide Val, Half, Low, Inc;
    ValUnfold(w);
    ValUnfold(Inc(w));
    if Low(w) == 0 {
      IncEven(w);
    } else {
      IncOdd(w);
      ValInc(Half(w));
    }
  }

  /** Four more one bits behind a word. */
  lemma ValOnes(w: Word, v: nat)
    requires Val(w) == v && w & 0xf000_0000_0000_0000 == 0
    ensures Val((w << 4) | 0xf) == 16 * v + 15
  {
    var o := (w << 4) | 0xf;
    OnesLow(w);
    OnesHigh(w);
    hide Val, Half, Low;
    ValUnfold(o);
    ValUnfold(Half(o));
    ValUnfold(Half(Half(o)));
    ValUnfold(Half(Half(Half(o))));
  }

  lemma OnesLow(w: Word)
    ensures var o := (w << 4) | 0xf;
            Low(o) == 1 && Low(Half(o)) == 1 && Low(Half(Half(o))) == 1 && Low(Half(Half(Half(o)))) == 1
  {
  }

  lemma OnesHigh(w: Word)
    requires w & 0xf000_0000_0000_0000 == 0
    ensures Half(Half(Half(Half((w << 4) | 0xf)))) == w
  {
  }

  lemma ValAll()
    ensures Val(ALL) == WORDS - 1
  {
    ValOnes(0, 0);
    ValOnes(0xf, 0xf);
    ValOnes(0xff, 0xff);
    ValOnes(0xfff, 0xfff);
    ValOnes(0xffff, 0xffff);
    ValOnes(0xfffff, 0xfffff);
    ValOnes(0xffffff, 0xffffff);
    ValOnes(0xfffffff, 0xfffffff);
    ValOnes(0xffffffff, 0xffffffff);
    ValOnes(0xfffffffff, 0xfffffffff);
    ValOnes(0xffffffffff, 0xffffffffff);
    ValOnes(0xfffffffffff, 0xfffffffffff);
    ValOnes(0xffffffffffff, 0xffffffffffff);
    ValOnes(0xfffffffffffff, 0xfffffffffffff);
    ValOnes(0xffffffffffffff, 0xffffffffffffff);
    ValOnes(0xfffffffffffffff, 0xfffffffffffffff);
  }

  /** The word of a number, as a size_t variable holds it. */
  function ToWord(n: nat): Word {
    if n == 0 then 0 else Inc(ToWord(n - 1))
  }

  lemma NotAll(w: Word)
    requires Val(w) < WORDS - 1
    ensures w != ALL
  {
    ValAll();
  }

  lemma {:induction false} ValToWord(n: nat)
    requires n < WORDS
    ensures Val(ToWord(n)) == n
  {
    if n > 0 {
      hide Val, Inc;
      ValToWord(n - 1);
      NotAll(ToWord(n - 1));
      ValInc(ToWord(n - 1));
    }
  }

  // ----- bits and numbers -------------------------------------------------------------------------

  lemma WithinHalves(a: Word, b: Word)
    requires Drop(a, b) == 0
    ensures Drop(Half(a), Half(b)) == 0 && Low(a) <= Low(b)
  {
  }

  /** Fewer bits, smaller number. */
  lemma {:induction false} WithinVal(a: Word, b: Word)
    requires Drop(a, b) == 0
    ensures Val(a) <= Val(b)
    decreases Val(a)
  {
    hide Val, Half, Low, Drop;
    ValZero(a);
    if a != 0 {
      WithinHalves(a, b);
      ValUnfold(a);
      ValUnfold(b);
      WithinVal(Half(a), Half(b));
    }
  }

  lemma DisjointHalves(a: Word, b: Word)
    requires And(a, b) == 0
    ensures And(Half(a), Half(b)) == 0 && Half(Or(a, b)) == Or(Half(a), Half(b))
    ensures Low(Or(a, b)) == Low(a) + Low(b)
  {
  }

  lemma OrZero(b: Word)
    ensures Or(0, b) == b
  {
  }

  /** Disjoint bits add up. */
  lemma {:induction false} DisjointVal(a: Word, b: Word)
    requires And(a, b) == 0
    ensures Val(Or(a, b)) == Val(a) + Val(b)
    decreases Val(a)
  {
    hide Val, Half, Low, And, Or;
    ValZero(a);
    if a == 0 {
      OrZero(b);
    } else {
      DisjointHalves(a, b);
      ValUnfold(a);
      ValUnfold(b);
      ValUnfold(Or(a, b));
      DisjointVal(Half(a), Half(b));
    }
  }

  // ----- masking ------------------------------------------------------------------------------------

  /** v & (s - 1). */
  function Masked(v: Word, s: Word): Word {
    And(v, Dec(s))
  }

  lemma MaskHalf(v: Word, s: Word)
    requires Low(s) == 0 && s != 0
    ensures Half(Masked(v, s)) == Masked(Half(v), Half(s))
  {
    hide Half, Low, And, Dec;
    HalfAnd(v, Dec(s));
    HalfDec(s);
  }

  lemma HalfAnd(a: Word, b: Word)
    ensures Half(And(a, b)) == And(Half(a), Half(b))
  {
  }

  lemma HalfDec(s: Word)
    requires Low(s) == 0 && s != 0
    ensures Half(Dec(s)) == Dec(Half(s))
  {
  }

  lemma MaskLow(v: Word, s: Word)
    requires Low(s) == 0 && s != 0
    ensures Low(Masked(v, s)) == Low(v)
  {
  }

  lemma MaskOne(v: Word, s: Word)
    requires Low(s) == 1 && Half(s) == 0
    ensures Masked(v, s) == 0
  {
  }

  lemma HalfMod(a: nat, b: nat, m: nat)
    requires m > 0 && b < 2
    ensures (2 * a + b) % (2 * m) == 2 * (a % m) + b
  {
    var q, r := a / m, a % m;
    assert 2 * a + b == (2 * m) * q + (2 * r + b) by {
      assert a == m * q + r;
      assert 2 * (m * q) == (2 * m) * q;
    }
    ModUnique(2 * a + b, 2 * m, q, 2 * r + b);
  }

  lemma ModUnique(x: nat, m: nat, q: nat, r: nat)
    requires m > 0 && x == m * q + r && r < m
    ensures x % m == r
  {
    var d := x / m - q;
    assert x == m * (x / m) + x % m;
    assert m * d == m * (x / m) - m * q;
    assert d >= 1 ==> m * d >= m;
    assert d <= -1 ==> m * d + m <= 0;
  }

  lemma HalvesMod(v: nat, vh: nat, low: nat, s: nat, sh: nat, m: nat)
    requires v == 2 * vh + low && low < 2 && s == 2 * sh && sh > 0 && m == 2 * (vh % sh) + low
    ensures m == v % s
  {
    HalfMod(vh, low, sh);
  }

  /** RING_MASK and hash_bucket: and-ing with a power of two minus one is taking the remainder. */
  lemma {:induction false} MaskIsMod(v: Word, s: Word)
    requires IsPow2(Val(s))
    ensures Val(Masked(v, s)) == Val(v) % Val(s)
    decreases Val(s)
  {
    hide Val, Half, Low, Masked;
    ValUnfold(s);
    ValZero(s);
    ValZero(Half(s));
    if Low(s) == 1 {
      MaskOne(v, s);
      ValZero(Masked(v, s));
    } else {
      MaskHalf(v, s);
      MaskLow(v, s);
      MaskIsMod(Half(v), Half(s));
      ValUnfold(v);
      ValUnfold(Masked(v, s));
      HalvesMod(Val(v), Val(Half(v)), Low(v), Val(s), Val(Half(s)), Val(Masked(v, s)));
    }
  }

  // ----- smearing -------------------------------------------------------------------------------------

  /** Zero iff the bits set in s are the lowest ones. */
  function Gaps(s: Word): Word {
    Drop(Half(s), s)
  }

  lemma ClosedHalves(s: Word)
    requires Gaps(s) == 0
    ensures Gaps(Half(s)) == 0 && (s != 0 ==> Low(s) == 1)
  {
  }

  lemma {:induction false} ClosedVal(s: Word)
    requires Gaps(s) == 0
    ensures IsPow2(Val(s) + 1)
    decreases Val(s)
  {
    hide Val, Half, Low, Gaps;
    ValZero(s);
    if s != 0 {
      ClosedHalves(s);
      ValUnfold(s);
      ClosedVal(Half(s));
    }
  }

  /** v | v >> i for the shift amounts the smearing loop uses. */
  function ShiftOr(v: Word, i: nat): Word {
    if i == 1 then v | (v >> 1)
    else if i == 2 then v | (v >> 2)
    else if i == 4 then v | (v >> 4)
    else if i == 8 then v | (v >> 8)
    else if i == 16 then v | (v >> 16)
    else v | (v >> 32)
  }

  /** Every bit copied to all lower positions. */
  function Smear(v: Word): Word {
    ShiftOr(ShiftOr(ShiftOr(ShiftOr(ShiftOr(ShiftOr(v, 1), 2), 4), 8), 16), 32)
  }

  /** What is left of the smearing when the shift amount has reached i. */
  ghost function SmearFrom(v: Word, i: nat): Word {
    if i == 1 then Smear(v)
    else if i == 2 then ShiftOr(ShiftOr(ShiftOr(ShiftOr(ShiftOr(v, 2), 4), 8), 16), 32)
    else if i == 4 then ShiftOr(ShiftOr(ShiftOr(ShiftOr(v, 4), 8), 16), 32)
    else if i == 8 then ShiftOr(ShiftOr(ShiftOr(v, 8), 16), 32)
    else if i == 16 then ShiftOr(ShiftOr(v, 16), 32)
    else if i == 32 then ShiftOr(v, 32)
    else v
  }

  lemma SmearStep(v: Word, i: nat)
    requires i == 1 || i == 2 || i == 4 || i == 8 || i == 16 || i == 32
    ensures SmearFrom(v, i) == SmearFrom(ShiftOr(v, i), 2 * i)
  {
    hide ShiftOr;
  }

  lemma SmearEnd(v: Word)
    ensures SmearFrom(v, 64) == v
  {
  }

  lemma SmearClosed(v: Word)
    ensures Gaps(Smear(v)) == 0
  {
  }

  lemma SmearCovers(v: Word)
    ensures Drop(v, Smear(v)) == 0
  {
  }

  /** The highest bit of a word without gaps. */
  function Top(s: Word): Word {
    s & !(s >> 1)
  }

  /** The highest bit of the smeared word is a bit of v. */
  lemma SmearTop(v: Word)
    ensures Drop(Top(Smear(v)), v) == 0
  {
  }

  lemma TopSplits(s: Word)
    requires Gaps(s) == 0
    ensures And(Top(s), Half(s)) == 0 && Or(Top(s), Half(s)) == s
  {
  }

  lemma {:induction false} PowersApart(p: nat, r: nat)
    requires IsPow2(p) && IsPow2(r) && p < r
    ensures 2 * p <= r
  {
    if p > 1 {
      PowersApart(p / 2, r / 2);
    }
  }

  lemma SmearHalf(x: Word)
    requires x != 0
    ensures Val(Smear(x)) + 1 <= 2 * Val(x)
  {
    var s := Smear(x);
    hide Smear, Val, Half, Low, Gaps, Drop, And, Or, Top;
    SmearClosed(x);
    SmearCovers(x);
    SmearTop(x);
    TopSplits(s);
    WithinVal(x, s);
    WithinVal(Top(s), x);
    DisjointVal(Top(s), Half(s));
    ClosedHalves(s);
    ValUnfold(s);
    ValZero(x);
    ValZero(s);
  }

  /** A power of two below twice v is the least one that reaches v. */
  lemma LeastFromBound(r: nat, v: nat)
    requires IsPow2(r) && v <= r && r < 2 * v
    ensures LeastPow2(r, v)
  {
    forall p: nat | IsPow2(p) && v <= p ensures r <= p {
      if p < r { PowersApart(p, r); }
    }
  }

  /** Smearing v - 1 and adding one gives the least power of two that is at least v. */
  lemma SmearIsLeast(v: nat)
    requires 1 <= v < WORDS
    ensures LeastPow2(Val(Smear(ToWord(v - 1))) + 1, v)
  {
    hide Smear, ToWord, Val, Gaps, Drop;
    var x := ToWord(v - 1);
    var s := Smear(x);
    ValToWord(v - 1);
    SmearClosed(x);
    SmearCovers(x);
    ClosedVal(s);
    WithinVal(x, s);
    ValZero(x);
    if x != 0 {
      SmearHalf(x);
    } else {
      SmearZero();
      ValZero(s);
    }
    LeastFromBound(Val(s) + 1, v);
  }

  lemma SmearZero()
    ensures Smear(0) == 0
  {
  }

  lemma ValBound(w: Word)
    ensures Val(w) < WORDS
  {
    assert Drop(w, ALL) == 0;
    WithinVal(w, ALL);
    ValAll();
  }

  lemma HalfIsPow2()
    ensures IsPow2(HALF)
  {
    assert IsPow2(0x10);
    Times16(0x10); Times16(0x100); Times16(0x1000); Times16(0x1_0000); Times16(0x10_0000); Times16(0x100_0000);
    Times16(0x1000_0000); Times16(0x1_0000_0000); Times16(0x10_0000_0000); Times16(0x100_0000_0000);
    Times16(0x1000_0000_0000); Times16(0x1_0000_0000_0000); Times16(0x10_0000_0000_0000); Times16(0x100_0000_0000_0000);
    assert IsPow2(0x1000_0000_0000_0000);
    Double(0x1000_0000_0000_0000); Double(0x2000_0000_0000_0000); Double(0x4000_0000_0000_0000);
  }

  lemma Double(n: nat)
    requires IsPow2(n)
    ensures IsPow2(2 * n)
  {
  }

  lemma Times16(n: nat)
    requires IsPow2(n)
    ensures IsPow2(16 * n)
  {
    hide IsPow2;
    Double(n); Double(2 * n); Double(4 * n); Double(8 * n);
  }

  /** The first of p, 2p, 4p, ... that is at least v. */
  function PowerAbove(p: nat, v: nat): nat
    requires p >= 1
    decreases v - p
  {
    if p >= v then p else PowerAbove(2 * p, v)
  }

  lemma {:induction false} PowerAboveIsLeast(p: nat, v: nat)
    requires IsPow2(p)
    ensures LeastPow2(PowerAbove(p, v), if v < p then p else v)
    decreases v - p
  {
    if p < v {
      Double(p);
      PowerAboveIsLeast(2 * p, v);
      hide IsPow2;
      forall q: nat | IsPow2(q) && v <= q ensures 2 * p <= q { PowersApart(p, q); }
    }
  }

  lemma LeastPow2Unique(a: nat, b: nat, v: nat)
    requires LeastPow2(a, v) && LeastPow2(b, v)
    ensures a == b
  {
    hide IsPow2;
  }

  /** The least power of two fits a word exactly up to 2^63; beyond that it wraps to zero. */
  lemma LeastPow2Range(r: nat, v: nat)
    requires LeastPow2(r, v) && v < WORDS && r <= WORDS
    ensures if v <= HALF then r <= HALF else r == WORDS
  {
    HalfIsPow2();
    if v > HALF {
      PowersApart(HALF, r);
    }
  }

  lemma {:induction false} PowersOfTwo(n: nat)
    ensures IsPow2(Pow2(n))
  {
    if n > 0 { PowersOfTwo(n - 1); }
  }

  // ----- leading zeros ----------------------------------------------------------------------------------

  /** The number of binary digits. */
  function BitLength(n: nat): nat {
    if n == 0 then 0 else 1 + BitLength(n / 2)
  }

  lemma {:induction false} BitLengthBounds(n: nat)
    requires n >= 1
    ensures n < Pow2(BitLength(n)) <= 2 * n
  {
    if n >= 2 { BitLengthBounds(n / 2); }
  }

  /** __builtin_clzll: undefined for 0. */
  function LeadingZeros(w: Word): int
    requires w != 0
  {
    64 - WordLength(w)
  }

  /** The position behind the highest set bit. */
  function WordLength(w: Word): nat {
    if w == 0 then 0 else 1 + WordLength(Half(w))
  }

  lemma {:induction false} WordLengthIs(w: Word)
    ensures WordLength(w) == BitLength(Val(w))
    decreases w
  {
    if w != 0 {
      NonZero(w);
      ValZero(w);
      WordLengthIs(Half(w));
      HalfOf(Val(w), Val(Half(w)), Low(w));
    }
  }

  lemma HalfOf(n: nat, h: nat, low: nat)
    requires n == 2 * h + low && low <= 1
    ensures n / 2 == h
  {
  }

  lemma {:induction false} PowerGrows(a: nat, b: nat)
    requires a <= b
    ensures Pow2(a) <= Pow2(b)
    decreases b - a
  {
    if a < b { PowerGrows(a, b - 1); }
  }

  lemma PowerBy4(n: nat)
    ensures Pow2(n + 4) == 16 * Pow2(n)
  {
    assert Pow2(n + 1) == 2 * Pow2(n) && Pow2(n + 2) == 2 * Pow2(n + 1);
    assert Pow2(n + 3) == 2 * Pow2(n + 2) && Pow2(n + 4) == 2 * Pow2(n + 3);
  }

  lemma PowerBy8(n: nat)
    ensures Pow2(n + 8) == 256 * Pow2(n)
  {
    PowerBy4(n);
    PowerBy4(n + 4);
  }

  lemma Power63()
    ensures Pow2(63) == HALF
  {
    assert Pow2(7) == 128;
    hide Pow2;
    PowerBy8(7); PowerBy8(15); PowerBy8(23); PowerBy8(31); PowerBy8(39); PowerBy8(47); PowerBy8(55);
  }

  lemma ShiftParts(w: Word)
    requires w & 0x8000_0000_0000_0000 == 0
    ensures Half(w << 1) == w && Low(w << 1) == 0
  {
  }

  lemma TopSet(w: Word)
    requires w & 0x8000_0000_0000_0000 != 0
    ensures Drop(0x8000_0000_0000_0000, w) == 0
  {
  }

  lemma TopWord()
    ensures Val(0x8000_0000_0000_0000) == HALF
  {
    var w: Word := 0x7fff_ffff_ffff_ffff;
    assert Half(ALL) == w && Low(ALL) == 1 && Inc(w) == 0x8000_0000_0000_0000 && w != ALL;
    ValAll();
    hide Val, Half, Low, Inc;
    ValUnfold(ALL);
    ValInc(w);
  }

  /** A small word doubles when it is shifted. */
  lemma ValShift(w: Word)
    requires Val(w) < HALF
    ensures Val(w << 1) == 2 * Val(w)
  {
    hide Val, Half, Low, Drop;
    if w & 0x8000_0000_0000_0000 != 0 {
      TopSet(w);
      TopWord();
      WithinVal(0x8000_0000_0000_0000, w);
    } else {
      ShiftParts(w);
      ValUnfold(w << 1);
    }
  }

  lemma {:induction false} ValBit(k: nat)
    requires k < 64
    ensures Val(Bit(k)) == Pow2(k)
  {
    if k == 0 {
      assert Half(1) == 0 && Low(1) == 1;
    } else {
      hide Val;
      ValBit(k - 1);
      PowerBelowHalf(k - 1);
      ValShift(Bit(k - 1));
    }
  }

  lemma PowerBelowHalf(k: nat)
    requires k < 63
    ensures Pow2(k) < HALF
  {
    Power63();
    PowerGrows(k + 1, 63);
  }

  /** How far SHL_ALIGN_POWER2 shifts a one: at most 63 places, so that the shift is defined. */
  lemma AlignShift(n: nat)
    requires 1 <= n < HALF
    ensures BitLength(n) <= 63
  {
    Power63();
    BitLengthBounds(n);
    if BitLength(n) >= 64 {
      PowerGrows(64, BitLength(n));
    }
  }

  /** 1ULL << (64 - clzll(u - 1)) is the least power of two that is at least u. */
  lemma AlignIsLeast(u: Word)
    requires 2 <= Val(u) <= HALF
    ensures u - 1 != 0 && 1 <= 64 - LeadingZeros(u - 1) <= 63
    ensures LeastPow2(Val(Bit(64 - LeadingZeros(u - 1))), Val(u))
  {
    var w := Before(u);
    hide Val, Bit, WordLength, BitLength, Pow2;
    var n := BitLength(Val(w));
    WordLengthIs(w);
    AlignShift(Val(w));
    BitLengthBounds(Val(w));
    PowersOfTwo(n);
    ValBit(n);
    LeastFromBound(Pow2(n), Val(u));
  }

  /** The word before a word that is not zero. */
  lemma Before(u: Word) returns (w: Word)
    requires Val(u) >= 2
    ensures w == u - 1 && w != 0 && Val(w) == Val(u) - 1
  {
    ValZero(u);
    w := u - 1;
    assert w != ALL && Inc(w) == u;
    hide Val;
    ValInc(w);
    ValZero(w);
  }
}

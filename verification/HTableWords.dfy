/** Table words: a pointer whose common bits have been replaced by metadata.

    Every stored address agrees with `common` on the bits of `mask`.  Those bits of a table word hold
    folded hash bits, and the bit `perfect` (zero if there is none) says that the element sits in its
    home bucket.  The words 0 and 1 mean empty and deleted. */
module HTableWords {
  import opened Words64

  const DELETED: Word := 1

  datatype Kind = EmptyWord | DeletedWord | ElementWord

  function KindOf(e: Word): Kind {
    if e > DELETED then ElementWord else if e == 0 then EmptyWord else DeletedWord
  }

  predicate IsValid(e: Word) {
    KindOf(e) == ElementWord
  }

  lemma KindByValue(e: Word)
    ensures KindOf(e) == EmptyWord <==> e == 0
    ensures KindOf(e) == DeletedWord <==> e == DELETED
  {
  }

  function RawPtr(mask: Word, common: Word, e: Word): Word {
    Or(Drop(e, mask), common)
  }

  function MakeVal(mask: Word, p: Word, bits: Word): Word {
    Or(Drop(p, mask), bits)
  }

  function ExtraBits(mask: Word, e: Word): Word {
    And(e, mask)
  }

  function Fold(hash: Word, bits: nat): Word
    requires bits <= 64
  {
    hash ^ (hash >> bits)
  }

  /** Folding adds the bits above the bucket number to the lowest ones. */
  lemma FoldMeans(hash: Word, bits: nat)
    requires bits <= 64
    ensures Xor(Fold(hash, bits), hash) == hash >> bits
  {
  }

  function HashBits(mask: Word, perfect: Word, fold: Word): Word {
    Drop(And(fold, mask), perfect)
  }

  /** The metadata of a word: hash bits, and the perfect bit exactly for an element at home. */
  function Meta(mask: Word, perfect: Word, fold: Word, atHome: bool): Word {
    Or(HashBits(mask, perfect, fold), if atHome then perfect else 0)
  }

  // ----- laws of the bitwise operations ------------------------------------------------------------

  lemma WithinAnd(b: Word, m: Word)
    requires Within(b, m)
    ensures And(b, m) == b
  {
  }

  lemma SplitWord(p: Word, m: Word)
    ensures Or(Drop(p, m), And(p, m)) == p
  {
  }

  lemma OrNothing(x: Word)
    ensures Or(x, 0) == x && Or(0, x) == x
  {
  }

  lemma DropNothing(a: Word)
    ensures Drop(a, 0) == a && Drop(0, a) == 0 && And(a, ALL) == a && And(0, a) == 0
  {
  }

  lemma Dropped(x: Word, d: Word)
    ensures And(Drop(x, d), d) == 0 && Drop(Drop(x, d), d) == Drop(x, d)
  {
  }

  lemma Selected(x: Word, m: Word)
    ensures Drop(And(x, m), m) == 0 && And(And(x, m), m) == And(x, m)
  {
  }

  lemma PureAndOr(a: Word, b: Word, m: Word)
    ensures (a | b) & m == (a & m) | (b & m)
  {
  }

  lemma AndOr(a: Word, b: Word, m: Word)
    ensures And(Or(a, b), m) == Or(And(a, m), And(b, m))
  {
    calc {
      And(Or(a, b), m);
      (a | b) & m;
      { PureAndOr(a, b, m); }
      (a & m) | (b & m);
    }
  }

  lemma DropOr(a: Word, b: Word, d: Word)
    ensures Drop(Or(a, b), d) == Or(Drop(a, d), Drop(b, d))
  {
    hide And, Or, Not;
    AndOr(a, b, Not(d));
  }

  lemma PureAndAnd(a: Word, b: Word, c: Word)
    ensures (a & b) & c == a & (b & c) && (a & b) & c == (a & c) & b
  {
  }

  lemma AndAnd(a: Word, b: Word, c: Word)
    ensures And(And(a, b), c) == And(a, And(b, c)) == And(And(a, c), b)
  {
    PureAndAnd(a, b, c);
  }

  lemma AndDrop(f: Word, m: Word, d: Word)
    ensures And(f, Drop(m, d)) == Drop(And(f, m), d)
  {
    hide And, Not;
    AndAnd(f, m, Not(d));
  }

  lemma DropSwap(x: Word, q: Word, d: Word)
    ensures Drop(Drop(x, d), q) == Drop(Drop(x, q), d)
  {
    hide And, Not;
    AndAnd(x, Not(d), Not(q));
  }

  lemma NotDrop(q: Word, d: Word)
    ensures Not(Drop(q, d)) == Or(Not(q), d)
  {
  }

  lemma AndCommutes(a: Word, b: Word)
    ensures And(a, b) == And(b, a)
  {
  }

  /** Dropping fewer bits. */
  lemma DropLess(y: Word, q: Word, d: Word)
    ensures Drop(y, Drop(q, d)) == Or(Drop(y, q), And(y, d))
  {
    NotDrop(q, d);
    hide And, Or, Not;
    AndCommutes(y, Or(Not(q), d));
    AndOr(Not(q), d, y);
    AndCommutes(Not(q), y);
    AndCommutes(d, y);
  }

  lemma DropDrop(x: Word, q: Word, d: Word)
    ensures Drop(Drop(x, d), Drop(q, d)) == Drop(Drop(x, q), d)
  {
    hide And, Or, Drop;
    DropLess(Drop(x, d), q, d);
    DropSwap(x, q, d);
    Dropped(x, d);
    OrNothing(Drop(Drop(x, q), d));
  }

  lemma DropTwice(e: Word, m: Word, d: Word)
    requires Within(d, m)
    ensures Drop(Drop(e, m), d) == Drop(e, m)
  {
    OrWithin(d, m);
    hide And, Or, Not;
    AndAnd(e, Not(m), Not(d));
  }

  lemma OrWithin(d: Word, m: Word)
    requires Within(d, m)
    ensures And(Not(m), Not(d)) == Not(m)
  {
  }

  lemma PureSelectedStay(c: Word, m: Word, d: Word)
    ensures (c & d) & !(m & !d) == c & d
  {
  }

  lemma SelectedStay(c: Word, m: Word, d: Word)
    ensures Drop(And(c, d), Drop(m, d)) == And(c, d)
  {
    PureSelectedStay(c, m, d);
  }

  lemma OrOr(a: Word, b: Word, c: Word)
    ensures Or(Or(a, b), c) == Or(a, Or(b, c)) == Or(a, Or(c, b))
  {
  }

  lemma OrSplit(x: Word, c: Word, d: Word)
    ensures Or(Or(x, And(c, d)), Drop(c, d)) == Or(x, c)
  {
    SplitWord(c, d);
    hide And, Or, Drop;
    OrOr(x, And(c, d), Drop(c, d));
  }

  lemma ValidOr(a: Word, b: Word)
    requires IsValid(a)
    ensures IsValid(Or(a, b))
  {
  }

  lemma ValidDrop(e: Word, m: Word)
    requires IsValid(Drop(e, m))
    ensures IsValid(e)
  {
  }

  // ----- storing and reading back -------------------------------------------------------------

  lemma HashBitsWithin(mask: Word, perfect: Word, fold: Word)
    ensures And(HashBits(mask, perfect, fold), mask) == HashBits(mask, perfect, fold)
  {
    hide And, Or, Not, Drop;
    AndDrop(mask, And(fold, mask), perfect);
    AndCommutes(mask, And(fold, mask));
    AndCommutes(mask, Drop(And(fold, mask), perfect));
    Selected(fold, mask);
  }

  lemma MetaWithin(mask: Word, perfect: Word, fold: Word, atHome: bool)
    requires And(perfect, mask) == perfect
    ensures And(Meta(mask, perfect, fold, atHome), mask) == Meta(mask, perfect, fold, atHome)
  {
    DropNothing(mask);
    hide HashBits, Or, And;
    HashBitsWithin(mask, perfect, fold);
    AndOr(HashBits(mask, perfect, fold), if atHome then perfect else 0, mask);
  }

  lemma ExtraOfMade(mask: Word, p: Word, x: Word)
    ensures ExtraBits(mask, MakeVal(mask, p, x)) == And(x, mask)
  {
    hide And, Or, Drop;
    AndOr(Drop(p, mask), x, mask);
    Dropped(p, mask);
    OrNothing(And(x, mask));
  }

  /** Metadata covers nothing of what an address shows outside the mask. */
  lemma ShownOfMade(mask: Word, p: Word, x: Word)
    ensures Drop(MakeVal(mask, p, And(x, mask)), mask) == Drop(p, mask)
  {
    hide And, Or, Drop;
    DropOr(Drop(p, mask), And(x, mask), mask);
    Dropped(p, mask);
    Selected(x, mask);
    OrNothing(Drop(p, mask));
  }

  lemma StoredDecodes(mask: Word, common: Word, perfect: Word, p: Word, fold: Word, atHome: bool)
    requires Within(perfect, mask) && And(p, mask) == common
    ensures RawPtr(mask, common, MakeVal(mask, p, Meta(mask, perfect, fold, atHome))) == p
  {
    hide MakeVal, Meta, And, Or, Drop;
    WithinAnd(perfect, mask);
    MetaWithin(mask, perfect, fold, atHome);
    ShownOfMade(mask, p, Meta(mask, perfect, fold, atHome));
    SplitWord(p, mask);
  }

  lemma StoredMeta(mask: Word, perfect: Word, p: Word, fold: Word, atHome: bool)
    requires Within(perfect, mask)
    ensures ExtraBits(mask, MakeVal(mask, p, Meta(mask, perfect, fold, atHome)))
            == Meta(mask, perfect, fold, atHome)
  {
    hide ExtraBits, MakeVal, Meta, And, Or, Drop;
    WithinAnd(perfect, mask);
    MetaWithin(mask, perfect, fold, atHome);
    ExtraOfMade(mask, p, Meta(mask, perfect, fold, atHome));
  }

  /** A word that shows more than bit 0 of its address is a valid entry, whatever the metadata. */
  lemma StoredShown(mask: Word, perfect: Word, p: Word, fold: Word, atHome: bool)
    requires Within(perfect, mask) && IsValid(Drop(p, mask))
    ensures var e := MakeVal(mask, p, Meta(mask, perfect, fold, atHome)); IsValid(e) && IsValid(Drop(e, mask))
  {
    hide MakeVal, Meta, And, Or, Drop, KindOf;
    WithinAnd(perfect, mask);
    MetaWithin(mask, perfect, fold, atHome);
    ShownOfMade(mask, p, Meta(mask, perfect, fold, atHome));
    ValidDrop(MakeVal(mask, p, Meta(mask, perfect, fold, atHome)), mask);
  }

  // ----- giving bits back -----------------------------------------------------------------------

  function MaskDiff(mask: Word, common: Word, p: Word): Word {
    Xor(common, And(p, mask))
  }

  /** update_common's change of one table word. */
  function Recode(common: Word, diff: Word, e: Word): Word {
    Or(Drop(e, diff), And(common, diff))
  }

  lemma DiffWithin(mask: Word, common: Word, p: Word)
    requires Within(common, mask)
    ensures Within(MaskDiff(mask, common, p), mask)
  {
  }

  lemma ShrinkWithin(b: Word, mask: Word, diff: Word)
    requires Within(b, mask)
    ensures Within(Drop(b, diff), Drop(mask, diff))
  {
    hide Drop;
    DropDrop(b, mask, diff);
    DropNothing(diff);
  }

  lemma ShrinkFits(mask: Word, common: Word, p: Word)
    requires Within(common, mask)
    ensures var d := MaskDiff(mask, common, p); And(p, Drop(mask, d)) == Drop(common, d)
  {
  }

  /** What a recoded word shows outside the smaller mask. */
  lemma ShownOfRecoded(mask: Word, common: Word, diff: Word, e: Word)
    requires Within(diff, mask)
    ensures Drop(Recode(common, diff, e), Drop(mask, diff)) == Or(Drop(e, mask), And(common, diff))
  {
    DropTwice(e, mask, diff);
    hide And, Or, Drop;
    DropOr(Drop(e, diff), And(common, diff), Drop(mask, diff));
    DropDrop(e, mask, diff);
    SelectedStay(common, mask, diff);
  }

  /** Recoding keeps the pointer. */
  lemma RecodeKeepsPtr(mask: Word, common: Word, diff: Word, e: Word)
    requires Within(diff, mask)
    ensures RawPtr(Drop(mask, diff), Drop(common, diff), Recode(common, diff, e)) == RawPtr(mask, common, e)
  {
    ShownOfRecoded(mask, common, diff, e);
    hide And, Or, Drop, Recode;
    OrSplit(Drop(e, mask), common, diff);
  }

  /** A word that shows enough still does when it is recoded. */
  lemma RecodeKeepsShown(mask: Word, common: Word, diff: Word, e: Word)
    requires Within(diff, mask) && IsValid(Drop(e, mask))
    ensures var e' := Recode(common, diff, e); IsValid(e') && IsValid(Drop(e', Drop(mask, diff)))
  {
    ShownOfRecoded(mask, common, diff, e);
    hide And, Or, Drop, Recode, KindOf;
    ValidOr(Drop(e, mask), And(common, diff));
    ValidDrop(Recode(common, diff, e), Drop(mask, diff));
  }

  lemma ExtraRecode(mask: Word, common: Word, diff: Word, e: Word)
    ensures ExtraBits(Drop(mask, diff), Recode(common, diff, e)) == Drop(ExtraBits(mask, e), diff)
  {
    hide And, Or, Drop;
    var rest := Drop(mask, diff);
    AndOr(Drop(e, diff), And(common, diff), rest);
    AndAnd(common, diff, rest);
    AndCommutes(diff, rest);
    Dropped(mask, diff);
    DropNothing(common);
    AndCommutes(common, 0);
    OrNothing(And(Drop(e, diff), rest));
    AndDrop(Drop(e, diff), mask, diff);
    AndCommutes(Drop(e, diff), mask);
    AndDrop(mask, e, diff);
    AndCommutes(mask, e);
    Dropped(And(e, mask), diff);
  }

  lemma HashBitsShrink(mask: Word, perfect: Word, diff: Word, fold: Word)
    ensures HashBits(Drop(mask, diff), Drop(perfect, diff), fold) == Drop(HashBits(mask, perfect, fold), diff)
  {
    hide And, Drop;
    AndDrop(fold, mask, diff);
    DropDrop(And(fold, mask), perfect, diff);
  }

  lemma MetaShrink(mask: Word, perfect: Word, diff: Word, fold: Word, atHome: bool)
    ensures Meta(Drop(mask, diff), Drop(perfect, diff), fold, atHome)
            == Drop(Meta(mask, perfect, fold, atHome), diff)
  {
    hide HashBits, Drop, Or, And;
    DropNothing(diff);
    HashBitsShrink(mask, perfect, diff, fold);
    DropOr(HashBits(mask, perfect, fold), if atHome then perfect else 0, diff);
  }

  /** The metadata becomes what the smaller mask asks for; a lost perfect bit disappears with it. */
  lemma RecodeKeepsMeta(mask: Word, common: Word, perfect: Word, diff: Word, e: Word, fold: Word, atHome: bool)
    requires ExtraBits(mask, e) == Meta(mask, perfect, fold, atHome)
    ensures ExtraBits(Drop(mask, diff), Recode(common, diff, e))
            == Meta(Drop(mask, diff), Drop(perfect, diff), fold, atHome)
  {
    hide ExtraBits, Meta, Recode, Drop;
    ExtraRecode(mask, common, diff, e);
    MetaShrink(mask, perfect, diff, fold, atHome);
  }

  // ----- what a word says about its pointer -----------------------------------------------------------

  lemma RawFits(mask: Word, common: Word, e: Word)
    requires Within(common, mask)
    ensures And(RawPtr(mask, common, e), mask) == common
  {
    WithinAnd(common, mask);
    hide And, Or, Drop;
    AndOr(Drop(e, mask), common, mask);
    Dropped(e, mask);
    OrNothing(common);
  }

  lemma RawShown(mask: Word, common: Word, e: Word)
    requires Within(common, mask)
    ensures Drop(RawPtr(mask, common, e), mask) == Drop(e, mask)
  {
    hide And, Or, Drop;
    DropOr(Drop(e, mask), common, mask);
    Dropped(e, mask);
    OrNothing(Drop(e, mask));
  }

  /** Only elements at home carry the perfect bit. */
  lemma PerfectMeansHome(mask: Word, perfect: Word, e: Word, fold: Word, atHome: bool)
    requires Within(perfect, mask) && ExtraBits(mask, e) == Meta(mask, perfect, fold, atHome)
    requires And(e, perfect) != 0
    ensures atHome
  {
    PerfectOfExtra(mask, perfect, e);
    hide And, Or, Drop;
    OrNothing(HashBits(mask, perfect, fold));
    Dropped(And(fold, mask), perfect);
  }

  lemma PerfectOfExtra(mask: Word, perfect: Word, e: Word)
    requires Within(perfect, mask)
    ensures And(And(e, mask), perfect) == And(e, perfect)
  {
    WithinAnd(perfect, mask);
    hide And;
    AndAnd(e, mask, perfect);
    AndCommutes(mask, perfect);
  }

  /** Conversely every element at home carries it, while there is a perfect bit. */
  lemma HomeMeansPerfect(mask: Word, perfect: Word, e: Word, fold: Word)
    requires Within(perfect, mask) && ExtraBits(mask, e) == Meta(mask, perfect, fold, true)
    ensures And(e, perfect) == perfect
  {
    PerfectOfExtra(mask, perfect, e);
    AndItself(perfect);
    hide And, Or, Drop;
    AndOr(HashBits(mask, perfect, fold), perfect, perfect);
    Dropped(And(fold, mask), perfect);
    OrNothing(perfect);
  }

  lemma AndItself(a: Word)
    ensures And(a, a) == a && Drop(a, a) == 0
  {
  }

  /** htable_val clears the perfect bit from the wanted metadata after the home bucket. */
  lemma ClearPerfect(mask: Word, perfect: Word, fold: Word, atHome: bool)
    ensures Drop(Meta(mask, perfect, fold, atHome), perfect) == Meta(mask, perfect, fold, false)
  {
    AndItself(perfect);
    DropNothing(perfect);
    hide Drop, Or, And;
    Dropped(And(fold, mask), perfect);
    DropOr(HashBits(mask, perfect, fold), if atHome then perfect else 0, perfect);
  }

  // ----- single bits ---------------------------------------------------------------------------------

  lemma EvenBit(k: nat)
    requires 1 <= k
    ensures And(Bit(k), 1) == 0
  {
  }

  lemma {:induction false} BitIsPower(i: nat)
    ensures Bit(i) & (Bit(i) - 1) == 0
  {
    if i > 0 {
      BitIsPower(i - 1);
      DoublePower(Bit(i - 1));
    }
  }

  lemma DoublePower(b: Word)
    requires b & (b - 1) == 0
    ensures (b << 1) & ((b << 1) - 1) == 0
    ensures (b << 1) - 1 == b | (b - 1)
  {
  }

  lemma PowerWithin(b: Word, m: Word)
    requires b & (b - 1) == 0 && m & b != 0
    ensures b & !m == 0
  {
  }

  lemma BitWithin(m: Word, i: nat)
    requires And(m, Bit(i)) != 0
    ensures Within(Bit(i), m) && Bit(i) != 0 && m != 0
  {
    BitIsPower(i);
    hide Bit;
    PowerWithin(Bit(i), m);
  }

  /** The bits of m below position i. */
  function Below(m: Word, i: nat): Word {
    m & (Bit(i) - 1)
  }

  lemma BelowZero(m: Word)
    ensures Below(m, 0) == 0 && Within(0, m)
  {
  }

  /** No bit below position i + 1 is set if none below i is and bit i is not. */
  lemma LowBitsClear(m: Word, i: nat)
    requires Below(m, i) == 0 && And(m, Bit(i)) == 0
    ensures Below(m, i + 1) == 0
  {
    BitIsPower(i);
    BitStep(i);
    hide Bit;
    DoublePower(Bit(i));
    OrClear(m, Bit(i), Bit(i) - 1);
  }

  lemma OrClear(m: Word, a: Word, b: Word)
    requires m & a == 0 && m & b == 0
    ensures m & (a | b) == 0
  {
  }

  lemma AllBitsClear(m: Word)
    requires Below(m, 64) == 0
    ensures m == 0
  {
    Bit64();
  }

  lemma Bit64()
    ensures Bit(64) == 0
  {
    assert Bit(0) == 1;
    hide Bit;
    BitBy4(0); BitBy4(4); BitBy4(8); BitBy4(12); BitBy4(16); BitBy4(20); BitBy4(24); BitBy4(28);
    BitBy4(32); BitBy4(36); BitBy4(40); BitBy4(44); BitBy4(48); BitBy4(52); BitBy4(56); BitBy4(60);
  }

  lemma BitStep(i: nat)
    ensures Bit(i + 1) == Bit(i) << 1
  {
  }

  lemma BitBy4(i: nat)
    ensures Bit(i + 4) == Bit(i) << 4
  {
    hide Bit;
    BitStep(i); BitStep(i + 1); BitStep(i + 2); BitStep(i + 3);
  }

  /** b is the least significant set bit of m. */
  ghost predicate LowestOf(b: Word, m: Word) {
    exists i: nat :: i < 64 && b == Bit(i) && And(m, Bit(i)) != 0 && forall j: nat :: j < i ==> And(m, Bit(j)) == 0
  }

  // ----- which addresses can be stored together --------------------------------------------------------

  /** The position of the most significant set bit at or below i; 0 if there is none above. */
  function TopFrom(p: Word, i: nat): (k: nat)
    ensures k <= i
  {
    if i == 0 || And(p, Bit(i)) != 0 then i else TopFrom(p, i - 1)
  }

  /** The bit that update_common reveals when p is the first address. */
  function TopOf(p: Word): Word {
    Bit(TopFrom(p, 63))
  }

  lemma {:induction false} TopFromIsHighest(p: Word, i: nat, j: nat)
    requires TopFrom(p, i) < j <= i
    ensures And(p, Bit(j)) == 0
  {
    if j < i { TopFromIsHighest(p, i - 1, j); }
  }

  lemma {:induction false} NoHighBits(m: Word, i: nat)
    requires And(m, Bit(0)) == 0 && forall j: nat :: 1 <= j < i ==> And(m, Bit(j)) == 0
    ensures i >= 1 ==> Below(m, i) == 0
  {
    hide Bit, And, Below;
    if i >= 1 {
      NoHighBits(m, i - 1);
      BelowZero(m);
      LowBitsClear(m, i - 1);
    }
  }

  lemma DropLowest(p: Word, j: nat)
    ensures And(Drop(p, 1), Bit(0)) == 0
    ensures And(p, Bit(j)) == 0 ==> And(Drop(p, 1), Bit(j)) == 0
  {
    hide Bit;
    assert Bit(0) == 1 by { BitZero(); }
    AndDropZero(p, Bit(j));
  }

  lemma BitZero()
    ensures Bit(0) == 1
  {
  }

  lemma AndDropZero(p: Word, b: Word)
    ensures And(Drop(p, 1), 1) == 0 && (And(p, b) == 0 ==> And(Drop(p, 1), b) == 0)
  {
  }

  lemma OnlyLowest(p: Word)
    requires Drop(p, 1) == 0
    ensures !IsValid(p)
  {
  }

  /** An address above 1 has its top bit above bit 0. */
  lemma TopIsSet(p: Word)
    requires IsValid(p)
    ensures And(p, TopOf(p)) != 0 && And(TopOf(p), 1) == 0 && TopOf(p) != 0
  {
    hide KindOf, And, Bit, Drop, Below;
    var k := TopFrom(p, 63);
    if k == 0 {
      var m := Drop(p, 1);
      forall j: nat | 1 <= j < 64 ensures And(m, Bit(j)) == 0 {
        TopFromIsHighest(p, 63, j);
        DropLowest(p, j);
      }
      DropLowest(p, 0);
      NoHighBits(m, 64);
      AllBitsClear(m);
      OnlyLowest(p);
    } else {
      TopFromSet(p, 63);
      EvenBit(k);
      AndZeroRight(p);
    }
  }

  lemma AndZeroRight(p: Word)
    ensures And(p, 0) == 0
  {
  }

  lemma {:induction false} TopFromSet(p: Word, i: nat)
    requires TopFrom(p, i) > 0
    ensures And(p, Bit(TopFrom(p, i))) != 0
  {
    if i > 0 && And(p, Bit(i)) == 0 { TopFromSet(p, i - 1); }
  }

  /** Next to f the address p shows a bit above bit 0: the top bit of f, or one that f does not have. */
  predicate Visible(f: Word, p: Word) {
    And(p, TopOf(f)) != 0 || Drop(Drop(p, 1), f) != 0
  }

  lemma ShowsTop(p: Word, t: Word, mask: Word)
    requires And(p, t) != 0 && And(mask, t) == 0 && And(t, 1) == 0
    ensures IsValid(Drop(p, mask))
  {
  }

  lemma ShowsOther(f: Word, p: Word, mask: Word)
    requires And(p, mask) == And(f, mask) && Drop(Drop(p, 1), f) != 0
    ensures IsValid(Drop(p, mask))
  {
  }

  /** A visible address shows enough under every mask that is clear at the top bit of f and fits both. */
  lemma VisibleIsShown(f: Word, p: Word, mask: Word)
    requires IsValid(f) && Visible(f, p) && And(mask, TopOf(f)) == 0 && And(p, mask) == And(f, mask)
    ensures IsValid(Drop(p, mask))
  {
    hide Bit, And, Drop, KindOf;
    TopIsSet(f);
    if And(p, TopOf(f)) != 0 {
      ShowsTop(p, TopOf(f), mask);
    } else {
      ShowsOther(f, p, mask);
    }
  }

  /** Giving back the bits in which p differs from f shows no bit of p that f has. */
  lemma DiffShows(f: Word, p: Word, mask: Word)
    requires Drop(Drop(p, 1), f) == 0
    ensures Within(And(p, MaskDiff(mask, And(f, mask), p)), 1)
  {
  }

  lemma DropNot(p: Word, t: Word)
    ensures Drop(p, Not(t)) == And(p, t)
  {
  }

  lemma DropWithin(x: Word, y: Word, d: Word)
    requires Within(x, y)
    ensures Within(Drop(x, d), y)
  {
    hide Drop;
    DropSwap(x, y, d);
    DropNothing(d);
  }

  lemma AtMostOne(x: Word, y: Word)
    requires Within(x, 1) && Within(y, 1)
    ensures !IsValid(Or(x, y))
  {
  }

  lemma WithinItself(x: Word)
    ensures Within(x, x)
  {
  }

  /** The bits p shows after f: none above bit 0. */
  lemma HiddenShows(f: Word, p: Word, t: Word)
    requires And(p, t) == 0 && Drop(Drop(p, 1), f) == 0
    ensures var d := MaskDiff(Not(t), And(f, Not(t)), p); !IsValid(Or(Drop(p, Drop(Not(t), d)), Drop(1, d)))
  {
    hide And, Or, Not, Drop, MaskDiff, KindOf;
    var d := MaskDiff(Not(t), And(f, Not(t)), p);
    DropLess(p, Not(t), d);
    DropNot(p, t);
    DiffShows(f, p, Not(t));
    OrNothing(And(p, d));
    WithinItself(1);
    DropWithin(1, 1, d);
    AtMostOne(And(p, d), Drop(1, d));
  }

  lemma SmallerOr(a: Word, b: Word)
    requires !IsValid(Or(a, b))
    ensures !IsValid(a) && !IsValid(Or(a, 0))
  {
  }

  /** An address that is not visible next to f is lost when it comes second: its word means empty or deleted. */
  lemma HiddenIsLost(f: Word, p: Word, atHome: bool)
    requires !Visible(f, p)
    ensures var mask := Not(TopOf(f));
            var d := MaskDiff(mask, And(f, mask), p);
            !IsValid(MakeVal(Drop(mask, d), p, Meta(Drop(mask, d), Drop(1, d), 0, atHome)))
  {
    hide And, Or, Not, Drop, MaskDiff, TopOf, KindOf, MakeVal, Meta;
    var t := TopOf(f);
    HiddenShows(f, p, t);
    HiddenWord(f, p, t, atHome);
    var d := MaskDiff(Not(t), And(f, Not(t)), p);
    SmallerOr(Drop(p, Drop(Not(t), d)), Drop(1, d));
  }

  lemma HiddenWord(f: Word, p: Word, t: Word, atHome: bool)
    ensures var d := MaskDiff(Not(t), And(f, Not(t)), p);
            var m := Drop(Not(t), d);
            MakeVal(m, p, Meta(m, Drop(1, d), 0, atHome)) == Or(Drop(p, m), if atHome then Drop(1, d) else 0)
  {
    var d := MaskDiff(Not(t), And(f, Not(t)), p);
    var m := Drop(Not(t), d);
    hide And, Or, Drop, Not, MaskDiff;
    DropNothing(m);
    DropNothing(Drop(1, d));
    OrNothing(if atHome then Drop(1, d) else 0);
  }
}

/** A table of words read as a table of cells. */
module HTableModel {
  import opened HTableCells
  import opened HTableWords
  import opened Words64

  /** How words are to be read: the user's hash, the table size and the pointer bits in use. */
  datatype Coding = Coding(rehash: Word -> Word, bits: nat, mask: Word, common: Word, perfect: Word)

  /** The number of elements for which an array of 2^bits buckets has room; there is none for 0. */
  function Room(bits: nat): nat {
    if bits == 0 then 0 else 3 * Pow2(bits) / 4
  }

  /** h & ((1 << bits) - 1). */
  function Bucket(h: Word, bits: nat): (r: nat)
    ensures r < Pow2(bits)
  {
    Val(h) % Pow2(bits)
  }

  /** The bucket is what masking with the table size minus one gives. */
  lemma BucketIsMask(h: Word, bits: nat, size: Word)
    requires Val(size) == Pow2(bits)
    ensures Bucket(h, bits) == Val(And(h, Dec(size)))
  {
    PowersOfTwo(bits);
    MaskIsMod(h, size);
  }

  ghost predicate CodingOk(r: Coding) {
    r.bits <= 30 && Within(r.common, r.mask) && Within(r.perfect, r.mask)
  }

  ghost function HomeOf(r: Coding, p: Word): nat {
    Bucket(r.rehash(p), r.bits)
  }

  ghost function Home(rehash: Word -> Word, bits: nat): Word -> nat {
    p => Bucket(rehash(p), bits)
  }

  ghost function FoldOf(r: Coding, p: Word): Word
    requires r.bits <= 30
  {
    Fold(r.rehash(p), r.bits)
  }

  ghost function Decode(r: Coding, e: Word): Cell<Word> {
    match KindOf(e)
    case EmptyWord => Empty
    case DeletedWord => Tomb
    case ElementWord => Full(RawPtr(r.mask, r.common, e))
  }

  ghost function Cells(r: Coding, w: seq<Word>): (c: seq<Cell<Word>>)
    ensures |c| == |w| && forall i :: 0 <= i < |w| ==> c[i] == Decode(r, w[i])
  {
    seq(|w|, i requires 0 <= i < |w| => Decode(r, w[i]))
  }

  /** The metadata is right: hash bits, and the perfect bit exactly at home.  What the word shows of the
      address outside the mask makes it a valid entry by itself. */
  ghost predicate WordOk(r: Coding, i: nat, e: Word)
    requires r.bits <= 30
  {
    IsValid(e) ==>
      var p := RawPtr(r.mask, r.common, e);
      && ExtraBits(r.mask, e) == Meta(r.mask, r.perfect, FoldOf(r, p), i == HomeOf(r, p))
      && IsValid(Drop(e, r.mask))
  }

  ghost predicate WordsOk(r: Coding, w: seq<Word>)
    requires r.bits <= 30
  {
    forall i :: 0 <= i < |w| ==> WordOk(r, i, w[i])
  }

  /** From bucket i on every word is right, and every element is reachable from its home. */
  ghost predicate SoundFrom(r: Coding, w: seq<Word>, i: nat)
    requires r.bits <= 30 && |w| == Pow2(r.bits)
    decreases |w| - i
  {
    i < |w| ==>
      && WordOk(r, i, w[i])
      && (IsValid(w[i]) ==> Reach(Cells(r, w), HomeOf(r, RawPtr(r.mask, r.common, w[i])), i))
      && SoundFrom(r, w, i + 1)
  }

  /** A table whose words make sense. */
  ghost predicate SoundTable(r: Coding, w: seq<Word>) {
    CodingOk(r) && |w| == Pow2(r.bits) && SoundFrom(r, w, 0)
  }

  lemma {:induction false} SoundAt(r: Coding, w: seq<Word>, i: nat, j: nat)
    requires r.bits <= 30 && |w| == Pow2(r.bits) && SoundFrom(r, w, i) && i <= j < |w|
    ensures WordOk(r, j, w[j])
    ensures IsValid(w[j]) ==> Reach(Cells(r, w), HomeOf(r, RawPtr(r.mask, r.common, w[j])), j)
    decreases j
  {
    hide KindOf, RawPtr, ExtraBits, Meta, FoldOf, Bucket, Drop, Pow2, Cells;
    if i < j { SoundAfter(r, w, i, j); }
  }

  lemma {:induction false} SoundAfter(r: Coding, w: seq<Word>, i: nat, j: nat)
    requires r.bits <= 30 && |w| == Pow2(r.bits) && SoundFrom(r, w, i) && i <= j <= |w|
    ensures SoundFrom(r, w, j)
    decreases j - i
  {
    hide KindOf, RawPtr, ExtraBits, Meta, FoldOf, Bucket, Drop, Pow2, Cells, HomeOf;
    if i < j { SoundAfter(r, w, i + 1, j); }
  }

  lemma SoundMeans(r: Coding, w: seq<Word>)
    requires SoundTable(r, w)
    ensures WordsOk(r, w) && Probed(Cells(r, w), Home(r.rehash, r.bits))
  {
    hide KindOf, RawPtr, ExtraBits, Meta, FoldOf, Bucket, Drop, Pow2, SoundFrom;
    forall i | 0 <= i < |w| ensures WordOk(r, i, w[i]) { SoundAt(r, w, 0, i); }
    var c := Cells(r, w);
    forall i | 0 <= i < |c| && c[i].Full?
      ensures Home(r.rehash, r.bits)(c[i].elem) < |c| && Reach(c, Home(r.rehash, r.bits)(c[i].elem), i)
    {
      SoundAt(r, w, 0, i);
      assert c[i] == Decode(r, w[i]);
    }
  }

  lemma {:induction false} SoundBy(r: Coding, w: seq<Word>, i: nat)
    requires CodingOk(r) && |w| == Pow2(r.bits) && WordsOk(r, w) && Probed(Cells(r, w), Home(r.rehash, r.bits))
    ensures SoundFrom(r, w, i)
    decreases |w| - i
  {
    hide KindOf, RawPtr, ExtraBits, Meta, FoldOf, Bucket, Drop, Pow2;
    if i < |w| {
      SoundBy(r, w, i + 1);
      assert Cells(r, w)[i] == Decode(r, w[i]);
    }
  }

  /** The address can be stored under every hash: its common bits match and it shows enough of itself. */
  ghost predicate Storable(r: Coding, p: Word) {
    And(p, r.mask) == r.common && IsValid(Drop(p, r.mask))
  }

  /** The word ht_add writes for p in bucket i. */
  ghost function WordFor(r: Coding, p: Word, i: nat): Word
    requires r.bits <= 30
  {
    MakeVal(r.mask, p, Meta(r.mask, r.perfect, FoldOf(r, p), i == HomeOf(r, p)))
  }

  lemma WordForValid(r: Coding, p: Word, i: nat)
    requires CodingOk(r) && Storable(r, p)
    ensures IsValid(WordFor(r, p, i)) && IsValid(Drop(WordFor(r, p, i), r.mask))
  {
    hide KindOf, Meta, MakeVal, FoldOf, HomeOf, And, Drop;
    StoredShown(r.mask, r.perfect, p, FoldOf(r, p), i == HomeOf(r, p));
  }

  lemma WordForDecodes(r: Coding, p: Word, i: nat)
    requires CodingOk(r) && Storable(r, p)
    ensures RawPtr(r.mask, r.common, WordFor(r, p, i)) == p
  {
    hide Meta, MakeVal, RawPtr, FoldOf, HomeOf, And, Drop;
    StoredDecodes(r.mask, r.common, r.perfect, p, FoldOf(r, p), i == HomeOf(r, p));
  }

  lemma WordForMeta(r: Coding, p: Word, i: nat)
    requires CodingOk(r)
    ensures ExtraBits(r.mask, WordFor(r, p, i)) == Meta(r.mask, r.perfect, FoldOf(r, p), i == HomeOf(r, p))
  {
    hide Meta, MakeVal, ExtraBits, FoldOf, HomeOf, And, Drop;
    StoredMeta(r.mask, r.perfect, p, FoldOf(r, p), i == HomeOf(r, p));
  }

  lemma WordForOk(r: Coding, p: Word, i: nat)
    requires CodingOk(r) && Storable(r, p)
    ensures var e := WordFor(r, p, i); IsValid(e) && Decode(r, e) == Full(p) && WordOk(r, i, e)
  {
    hide KindOf, Meta, MakeVal, RawPtr, ExtraBits, FoldOf, HomeOf, And, Drop, WordFor;
    WordForValid(r, p, i);
    WordForDecodes(r, p, i);
    WordForMeta(r, p, i);
  }

  lemma CellsUpdate(r: Coding, w: seq<Word>, i: nat, e: Word)
    requires i < |w|
    ensures Cells(r, w[i := e]) == Cells(r, w)[i := Decode(r, e)]
  {
  }

  lemma WordsUpdate(r: Coding, w: seq<Word>, i: nat, e: Word)
    requires r.bits <= 30 && i < |w| && WordsOk(r, w) && WordOk(r, i, e)
    ensures WordsOk(r, w[i := e])
  {
    hide KindOf, Meta, RawPtr, ExtraBits, FoldOf, HomeOf, And;
  }

  lemma NoElementAnyCoding(r: Coding, r': Coding, i: nat, e: Word)
    requires !IsValid(e) && r'.bits <= 30
    ensures Decode(r', e) == Decode(r, e) && WordOk(r', i, e)
  {
  }

  /** Without elements the words read the same under every coding. */
  lemma NoElementsAnyCoding(r: Coding, r': Coding, w: seq<Word>)
    requires Contents(Cells(r, w)) == multiset{} && r'.bits <= 30
    ensures Cells(r', w) == Cells(r, w) && WordsOk(r', w)
  {
    hide KindOf, RawPtr;
    NoElements(Cells(r, w));
    forall i | 0 <= i < |w| ensures KindOf(w[i]) != ElementWord {
      assert Cells(r, w)[i] == Decode(r, w[i]);
    }
  }

  // ----- giving bits back -------------------------------------------------------------------------

  ghost function Shrunk(r: Coding, diff: Word): Coding {
    r.(mask := Drop(r.mask, diff), common := Drop(r.common, diff), perfect := Drop(r.perfect, diff))
  }

  lemma RecodeDecodes(r: Coding, diff: Word, e: Word)
    requires CodingOk(r) && Within(diff, r.mask)
    ensures var r' := Shrunk(r, diff);
            RawPtr(r'.mask, r'.common, Recode(r.common, diff, e)) == RawPtr(r.mask, r.common, e)
  {
    hide RawPtr, Recode, And, Drop;
    RecodeKeepsPtr(r.mask, r.common, diff, e);
  }

  lemma RecodeMeta(r: Coding, diff: Word, e: Word, fold: Word, atHome: bool)
    requires ExtraBits(r.mask, e) == Meta(r.mask, r.perfect, fold, atHome)
    ensures var r' := Shrunk(r, diff);
            ExtraBits(r'.mask, Recode(r.common, diff, e)) == Meta(r'.mask, r'.perfect, fold, atHome)
  {
    hide ExtraBits, Meta, Recode, Drop;
    RecodeKeepsMeta(r.mask, r.common, r.perfect, diff, e, fold, atHome);
  }

  lemma ShrunkKeepsHash(r: Coding, diff: Word, p: Word)
    requires r.bits <= 30
    ensures FoldOf(Shrunk(r, diff), p) == FoldOf(r, p) && HomeOf(Shrunk(r, diff), p) == HomeOf(r, p)
  {
    hide Fold, Bucket;
  }

  /** update_common keeps every word's meaning under the smaller mask. */
  lemma RecodeWord(r: Coding, diff: Word, i: nat, e: Word)
    requires CodingOk(r) && Within(diff, r.mask)
    requires WordOk(r, i, e) && IsValid(e)
    ensures var e' := Recode(r.common, diff, e);
            IsValid(e') && Decode(Shrunk(r, diff), e') == Decode(r, e) && WordOk(Shrunk(r, diff), i, e')
  {
    var p := RawPtr(r.mask, r.common, e);
    hide KindOf, Meta, RawPtr, ExtraBits, FoldOf, HomeOf, Recode, And, Drop;
    ShrunkKeepsHash(r, diff, p);
    RecodeKeepsShown(r.mask, r.common, diff, e);
    RecodeDecodes(r, diff, e);
    RecodeMeta(r, diff, e, FoldOf(r, p), i == HomeOf(r, p));
  }

  /** update_common's new mask is one that p fits. */
  lemma ShrunkFits(r: Coding, p: Word)
    requires CodingOk(r)
    ensures var d := MaskDiff(r.mask, r.common, p);
            Within(d, r.mask) && CodingOk(Shrunk(r, d)) && And(p, Shrunk(r, d).mask) == Shrunk(r, d).common
  {
    var d := MaskDiff(r.mask, r.common, p);
    hide MaskDiff, And, Drop;
    DiffWithin(r.mask, r.common, p);
    ShrinkWithin(r.common, r.mask, d);
    ShrinkWithin(r.perfect, r.mask, d);
    ShrinkFits(r.mask, r.common, p);
  }

  /** The layout after htable_add has made p fit: the old one, a new one for the first element, or a smaller mask. */
  ghost function Fitted(r: Coding, elems: nat, p: Word): Coding {
    if And(p, r.mask) == r.common then r
    else if elems == 0 then
      r.(mask := Not(TopOf(p)), common := And(p, Not(TopOf(p))), perfect := 1)
    else Shrunk(r, MaskDiff(r.mask, r.common, p))
  }

  /** The mask hides all bits (and nothing is stored), or not the top bit of f, with which it agrees. */
  ghost predicate LaidOut(mask: Word, common: Word, f: Word) {
    if mask == ALL then common == 0
    else IsValid(f) && And(mask, TopOf(f)) == 0 && common == And(f, mask)
  }

  lemma NotAllOnes(m: Word, b: Word)
    requires b != 0 && And(m, b) == 0
    ensures m != ALL
  {
  }

  /** Before the first element has come the mask hides everything, and no address fits it. */
  lemma AllHidden(p: Word)
    requires IsValid(p)
    ensures And(p, ALL) != 0
  {
  }

  /** The layout for a first element. */
  lemma FirstFits(r: Coding, p: Word)
    requires CodingOk(r) && IsValid(p) && And(p, r.mask) != r.common
    ensures var r' := Fitted(r, 0, p);
            CodingOk(r') && LaidOut(r'.mask, r'.common, p) && r'.mask != ALL && Storable(r', p)
  {
    TopIsSet(p);
    hide KindOf, And, Not, Bit, TopOf, Drop;
    var t := TopOf(p);
    FirstLayout(t, p);
    NotAllOnes(Not(t), t);
    ShowsTop(p, t, Not(t));
  }

  /** Without elements the table may be laid out anew. */
  lemma FirstSound(r: Coding, w: seq<Word>, p: Word)
    requires SoundTable(r, w) && Contents(Cells(r, w)) == multiset{}
    requires IsValid(p) && And(p, r.mask) != r.common
    ensures var r' := Fitted(r, 0, p);
            && CodingOk(r') && LaidOut(r'.mask, r'.common, p) && r'.mask != ALL && Storable(r', p)
            && Cells(r', w) == Cells(r, w) && SoundTable(r', w)
  {
    hide KindOf, FoldOf, HomeOf, Bucket, RawPtr, ExtraBits, Meta, And, Drop, Contents, Pow2, TopOf, Home, SoundFrom;
    SoundMeans(r, w);
    FirstFits(r, p);
    NoElementsAnyCoding(r, Fitted(r, 0, p), w);
    SoundBy(Fitted(r, 0, p), w, 0);
  }

  /** Doubling keeps what the new element makes of the layout. */
  lemma FittedAgain(r: Coding, r': Coding, elems: nat, p: Word)
    requires r'.mask == r.mask && r'.common == r.common && (r.perfect != 0 ==> r'.perfect == r.perfect)
    ensures var (f, f') := (Fitted(r, elems, p), Fitted(r', elems, p));
            && f'.mask == f.mask && f'.common == f.common
            && (r.perfect != 0 || f.perfect != 0 ==> f'.perfect == f.perfect)
  {
    DropNothing(MaskDiff(r.mask, r.common, p));
    hide And, Not, TopOf, Drop, MaskDiff;
  }

  lemma NoDiff(mask: Word, common: Word, p: Word)
    requires And(p, mask) == common
    ensures MaskDiff(mask, common, p) == 0
  {
  }

  lemma FoldZero(bits: nat)
    requires bits <= 64
    ensures Fold(0, bits) == 0
  {
  }

  /** An address that is not visible next to the first one is lost if its hash is 0: its word is no entry. */
  lemma LostWord(r: Coding, f: Word, p: Word, r': Coding, i: nat)
    requires r.mask == Not(TopOf(f)) && r.common == And(f, r.mask) && r.perfect == 1 && !Visible(f, p)
    requires var n := Fitted(r, 1, p); r'.mask == n.mask && r'.common == n.common && r'.perfect == n.perfect
    requires r'.bits <= 30 && r'.rehash(p) == 0
    ensures !IsValid(WordFor(r', p, i))
  {
    hide And, Not, TopOf, Drop, MaskDiff, KindOf, Meta, MakeVal, Fold, Bucket;
    var d := MaskDiff(r.mask, r.common, p);
    if And(p, r.mask) == r.common {
      NoDiff(r.mask, r.common, p);
      DropNothing(r.mask);
      DropNothing(1);
    }
    FoldZero(r'.bits);
    HiddenIsLost(f, p, i == HomeOf(r', p));
  }

  lemma FirstLayout(b: Word, p: Word)
    requires And(b, 1) == 0
    ensures Within(1, Not(b)) && And(Not(b), b) == 0 && Within(And(p, Not(b)), Not(b))
  {
  }

  lemma ShrunkLayout(mask: Word, common: Word, f: Word, d: Word)
    requires IsValid(f) && And(mask, TopOf(f)) == 0 && common == And(f, mask)
    ensures LaidOut(Drop(mask, d), Drop(common, d), f) && Drop(mask, d) != ALL
  {
    TopIsSet(f);
    hide KindOf, And, Not, Bit, TopOf, Drop;
    AndDrop(f, mask, d);
    AndCommutes(mask, TopOf(f));
    AndDrop(TopOf(f), mask, d);
    AndCommutes(TopOf(f), Drop(mask, d));
    DropNothing(d);
    NotAllOnes(Drop(mask, d), TopOf(f));
  }

  /** The layout for a further element; an address visible next to the first one can be stored. */
  lemma FurtherFits(r: Coding, elems: nat, f: Word, p: Word)
    requires CodingOk(r) && IsValid(p) && LaidOut(r.mask, r.common, f) && r.mask != ALL
    requires elems > 0 || And(p, r.mask) == r.common
    ensures var r' := Fitted(r, elems, p);
            && CodingOk(r') && LaidOut(r'.mask, r'.common, f) && r'.mask != ALL && And(p, r'.mask) == r'.common
            && (Visible(f, p) ==> Storable(r', p)) && (And(p, r.mask) == r.common ==> r' == r)
  {
    hide KindOf, And, Not, Bit, TopOf, Drop, MaskDiff;
    var r' := Fitted(r, elems, p);
    if And(p, r.mask) != r.common {
      ShrunkFits(r, p);
      ShrunkLayout(r.mask, r.common, f, MaskDiff(r.mask, r.common, p));
    }
    if Visible(f, p) {
      VisibleIsShown(f, p, r'.mask);
    }
  }

  // ----- moving elements ------------------------------------------------------------------------

  /** A stored pointer can be stored again under any coding that uses the same common bits. */
  lemma StoredIsStorable(r: Coding, r': Coding, i: nat, e: Word)
    requires CodingOk(r) && WordOk(r, i, e) && IsValid(e) && r'.mask == r.mask && r'.common == r.common
    ensures Storable(r', RawPtr(r.mask, r.common, e))
  {
    hide KindOf, Meta, ExtraBits, RawPtr, FoldOf, HomeOf, And, Drop;
    RawFits(r.mask, r.common, e);
    RawShown(r.mask, r.common, e);
  }

  /** What a table gains when ht_add writes a word into a bucket that holds no element. */
  lemma WrittenContents(r: Coding, w: seq<Word>, j: nat, e: Word)
    requires j < |w| && !IsValid(w[j])
    ensures Contents(Cells(r, w[j := e])) == Contents(Cells(r, w)) + CellElems(Decode(r, e))
  {
    hide KindOf, RawPtr;
    CellsUpdate(r, w, j, e);
    ContentsUpdate(Cells(r, w), j, Decode(r, e));
  }

  /** Storing an element in the first bucket from its home on that holds none. */
  lemma StoredElement(r: Coding, w: seq<Word>, p: Word, j: nat)
    requires SoundTable(r, w) && Storable(r, p) && j < |w| && !IsValid(w[j])
    requires var h := HomeOf(r, p);
             forall x :: 0 <= x < |w| && Rank(|w|, h, x) < Rank(|w|, h, j) ==> IsValid(w[x])
    ensures var w' := w[j := WordFor(r, p, j)];
            && SoundTable(r, w') && Contents(Cells(r, w')) == Contents(Cells(r, w)) + multiset{p}
            && Tombs(Cells(r, w')) <= Tombs(Cells(r, w))
  {
    hide KindOf, Meta, MakeVal, RawPtr, ExtraBits, FoldOf, Bucket, And, Drop, WordFor, Contents, Tombs, Pow2, SoundFrom;
    SoundMeans(r, w);
    WordForOk(r, p, j);
    CellsUpdate(r, w, j, WordFor(r, p, j));
    WordsUpdate(r, w, j, WordFor(r, p, j));
    var c := Cells(r, w);
    assert forall x :: 0 <= x < |w| ==> (c[x].Full? <==> IsValid(w[x]));
    AddKeepsProbed(c, Home(r.rehash, r.bits), p, j);
    AddContents(c, p, j);
    SoundBy(r, w[j := WordFor(r, p, j)], 0);
  }

  /** Putting a tombstone in the place of an element. */
  lemma DeletedElement(r: Coding, w: seq<Word>, j: nat)
    requires SoundTable(r, w) && j < |w| && IsValid(w[j])
    ensures var c, c', p := Cells(r, w), Cells(r, w[j := DELETED]), RawPtr(r.mask, r.common, w[j]);
            && SoundTable(r, w[j := DELETED]) && c[j] == Full(p) && p in Contents(c)
            && Contents(c') == Contents(c) - multiset{p} && Tombs(c') == Tombs(c) + 1
  {
    hide KindOf, Meta, RawPtr, ExtraBits, FoldOf, HomeOf, Bucket, And, Drop, Contents, Tombs, Pow2, SoundFrom;
    SoundMeans(r, w);
    EmptyWordOk(r, j);
    CellsUpdate(r, w, j, DELETED);
    WordsUpdate(r, w, j, DELETED);
    assert Cells(r, w)[j] == Decode(r, w[j]);
    RemoveKeepsProbed(Cells(r, w), Home(r.rehash, r.bits), j);
    ContentsHas(Cells(r, w), j);
    SoundBy(r, w[j := DELETED], 0);
  }

  /** A table of empty buckets under any layout. */
  lemma AllEmpty(r: Coding, w: seq<Word>)
    requires CodingOk(r) && |w| == Pow2(r.bits) && forall i :: 0 <= i < |w| ==> w[i] == 0
    ensures SoundTable(r, w) && Contents(Cells(r, w)) == multiset{} && Tombs(Cells(r, w)) == 0
  {
    hide RawPtr, ExtraBits, Meta, And, FoldOf, HomeOf, Bucket, Contents, Tombs, Home, Pow2, SoundFrom;
    EmptyTable(Cells(r, w));
    SoundBy(r, w, 0);
  }

  lemma NoLayout()
    ensures Within(0, ALL) && Pow2(0) == 1
  {
  }

  /** Words that decode alike stand for the same buckets. */
  lemma SameCells(r: Coding, r': Coding, w: seq<Word>, w': seq<Word>)
    requires |w| == |w'| && r'.bits <= 30
    requires forall j :: 0 <= j < |w| ==> WordOk(r', j, w'[j]) && Decode(r', w'[j]) == Decode(r, w[j])
    ensures WordsOk(r', w') && Cells(r', w') == Cells(r, w)
  {
    hide RawPtr, ExtraBits, Meta, And, FoldOf, HomeOf, KindOf;
  }

  /** A recoded table. */
  lemma RecodedSound(r: Coding, diff: Word, w: seq<Word>, w': seq<Word>)
    requires SoundTable(r, w) && CodingOk(Shrunk(r, diff)) && |w| == |w'|
    requires WordsOk(Shrunk(r, diff), w') && Cells(Shrunk(r, diff), w') == Cells(r, w)
    ensures SoundTable(Shrunk(r, diff), w')
  {
    hide KindOf, FoldOf, HomeOf, Bucket, RawPtr, ExtraBits, Meta, And, Drop, Pow2, SoundFrom, Cells, Home;
    SoundMeans(r, w);
    SoundBy(Shrunk(r, diff), w', 0);
  }

  lemma CellsPrefix(r: Coding, w: seq<Word>, i: nat)
    requires i < |w|
    ensures Contents(Cells(r, w[..i + 1])) == Contents(Cells(r, w[..i])) + CellElems(Decode(r, w[i]))
    ensures |Contents(Cells(r, w[..i]))| <= i
  {
    assert Cells(r, w[..i + 1])[..i] == Cells(r, w[..i]);
    CountBound(Cells(r, w[..i]));
  }

  /** A word carrying the perfect bit sits in its home bucket. */
  lemma PerfectWordAtHome(r: Coding, i: nat, e: Word)
    requires CodingOk(r) && WordOk(r, i, e) && IsValid(e) && And(e, r.perfect) != 0
    ensures i == HomeOf(r, RawPtr(r.mask, r.common, e))
  {
    hide KindOf, Meta, ExtraBits, RawPtr, FoldOf, HomeOf, And, Drop;
    var p := RawPtr(r.mask, r.common, e);
    PerfectMeansHome(r.mask, r.perfect, e, FoldOf(r, p), i == HomeOf(r, p));
  }

  /** While there is a perfect bit, it marks exactly the elements in their home bucket. */
  lemma PerfectMarksHome(r: Coding, i: nat, e: Word)
    requires CodingOk(r) && WordOk(r, i, e) && IsValid(e) && r.perfect != 0
    ensures And(e, r.perfect) != 0 <==> i == HomeOf(r, RawPtr(r.mask, r.common, e))
  {
    hide KindOf, Meta, ExtraBits, RawPtr, FoldOf, HomeOf, And, Drop;
    var p := RawPtr(r.mask, r.common, e);
    if i == HomeOf(r, p) {
      HomeMeansPerfect(r.mask, r.perfect, e, FoldOf(r, p));
    }
    if And(e, r.perfect) != 0 {
      PerfectWordAtHome(r, i, e);
    }
  }

  lemma EmptyWordOk(r: Coding, i: nat)
    requires r.bits <= 30
    ensures WordOk(r, i, 0) && Decode(r, 0) == Empty && !IsValid(0)
    ensures WordOk(r, i, DELETED) && Decode(r, DELETED) == Tomb
  {
    hide Meta, ExtraBits, RawPtr, FoldOf, HomeOf, And;
  }

  // ----- in-place rehash ----------------------------------------------------------------------------

  /** The rehash of table w0 has turned it into w and comes to bucket number i, counted from the
      empty bucket `start`. */
  ghost predicate Rehashing(r: Coding, w0: seq<Word>, w: seq<Word>, start: nat, i: nat)
    requires r.bits <= 30
  {
    && |w| == |w0| == Pow2(r.bits) && start < |w0| && i <= |w0|
    && CodingOk(r) && WordsOk(r, w) && WordsOk(r, w0)
    && Probed(Cells(r, w0), Home(r.rehash, r.bits)) && Cells(r, w0)[start].Empty?
    && Rehashed(Cells(r, w), Home(r.rehash, r.bits), start, i)
    && (forall x :: 0 <= x < |w0| && Rank(|w0|, start, x) >= i ==> w[x] == w0[x])
    && (forall x :: 0 <= x < |w0| && IsValid(w0[x]) && And(w0[x], r.perfect) != 0 ==> w[x] == w0[x])
    && Contents(Cells(r, w)) == Contents(Cells(r, w0))
  }

  /** Bucket x is empty, or its element carries the perfect bit. */
  lemma RehashKeep(r: Coding, w0: seq<Word>, w: seq<Word>, start: nat, x: nat)
    requires r.bits <= 30 && start < |w| && x < |w| && Rehashing(r, w0, w, start, Rank(|w|, start, x))
    requires KindOf(w[x]) == EmptyWord || (IsValid(w[x]) && And(w[x], r.perfect) != 0)
    ensures Rehashing(r, w0, w, start, Rank(|w|, start, x) + 1)
  {
    hide KindOf, Bucket, Fold, RawPtr, ExtraBits, Meta, And, Drop, Contents, Pow2;
    if IsValid(w[x]) {
      PerfectWordAtHome(r, x, w[x]);
    }
    assert Cells(r, w)[x] == Decode(r, w[x]);
    KeepBucket(Cells(r, w), Home(r.rehash, r.bits), start, x);
  }

  /** Bucket x holds a tombstone. */
  lemma RehashDrop(r: Coding, w0: seq<Word>, w: seq<Word>, start: nat, x: nat)
    requires r.bits <= 30 && start < |w| && x < |w| && Rehashing(r, w0, w, start, Rank(|w|, start, x))
    requires KindOf(w[x]) == DeletedWord
    ensures Rehashing(r, w0, w[x := 0], start, Rank(|w|, start, x) + 1)
  {
    hide KindOf, FoldOf, HomeOf, Bucket, RawPtr, ExtraBits, Meta, And, Drop, Contents, Pow2;
    EmptyWordOk(r, x);
    var c := Cells(r, w);
    assert c[x] == Decode(r, w[x]) && w[x] == w0[x];
    CellsUpdate(r, w, x, 0);
    WordsUpdate(r, w, x, 0);
    ClearBucket(c, Home(r.rehash, r.bits), start, x);
    ClearContents(c, x);
  }

  /** Bucket x held an element without the perfect bit, which ht_add has put into the first bucket j from its
      home on that holds none. */
  lemma RehashMove(r: Coding, w0: seq<Word>, w: seq<Word>, start: nat, x: nat, j: nat)
    requires r.bits <= 30 && start < |w| && x < |w| && Rehashing(r, w0, w, start, Rank(|w|, start, x))
    requires IsValid(w[x]) && And(w[x], r.perfect) == 0 && j < |w| && !IsValid(w[x := 0][j])
    requires var h := HomeOf(r, RawPtr(r.mask, r.common, w[x]));
             forall y :: 0 <= y < |w| && Rank(|w|, h, y) < Rank(|w|, h, j) ==> IsValid(w[x := 0][y])
    ensures var p := RawPtr(r.mask, r.common, w[x]);
            Rehashing(r, w0, w[x := 0][j := WordFor(r, p, j)], start, Rank(|w|, start, x) + 1)
  {
    hide KindOf, FoldOf, Bucket, RawPtr, ExtraBits, Meta, And, Drop, Contents, Pow2, Rank, WordFor;
    MovedWords(r, w, x, j);
    var v, p := w[x := 0], RawPtr(r.mask, r.common, w[x]);
    assert forall y :: 0 <= y < |v| ==> Cells(r, v)[y] == Decode(r, v[y]);
    RehashMoveCells(r, w0, w, v[j := WordFor(r, p, j)], start, x, j);
  }

  lemma RehashMoveCells(r: Coding, w0: seq<Word>, w: seq<Word>, w': seq<Word>, start: nat, x: nat, j: nat)
    requires r.bits <= 30 && start < |w| && x < |w| && Rehashing(r, w0, w, start, Rank(|w|, start, x))
    requires IsValid(w[x]) && And(w[x], r.perfect) == 0
    requires |w'| == |w| && WordsOk(r, w') && j < |w| && !Cells(r, w[x := 0])[j].Full?
    requires Cells(r, w') == Cells(r, w[x := 0])[j := Cells(r, w)[x]]
    requires forall y :: 0 <= y < |w| && y != x && y != j ==> w'[y] == w[y]
    requires var h := Bucket(r.rehash(RawPtr(r.mask, r.common, w[x])), r.bits);
             h < |w| && forall y :: 0 <= y < |w| && Rank(|w|, h, y) < Rank(|w|, h, j) ==> Cells(r, w[x := 0])[y].Full?
    ensures Rehashing(r, w0, w', start, Rank(|w|, start, x) + 1)
  {
    hide KindOf, FoldOf, HomeOf, Bucket, RawPtr, ExtraBits, Meta, And, Drop, Contents, Pow2;
    EmptyWordOk(r, x);
    var c := Cells(r, w);
    assert c[x] == Decode(r, w[x]) && w[x] == w0[x];
    CellsUpdate(r, w, x, 0);
    MoveElement(Cells(r, w0), c, Home(r.rehash, r.bits), start, x, j);
    RehashMoveWords(r, w0, w, w', start, x, j);
  }

  /** The words after an element was taken out of bucket x and added again in bucket j. */
  lemma MovedWords(r: Coding, w: seq<Word>, x: nat, j: nat)
    requires CodingOk(r) && WordsOk(r, w) && x < |w| && j < |w| && IsValid(w[x])
    ensures var p := RawPtr(r.mask, r.common, w[x]);
            var w' := w[x := 0][j := WordFor(r, p, j)];
            WordsOk(r, w') && Cells(r, w') == Cells(r, w[x := 0])[j := Cells(r, w)[x]]
  {
    hide KindOf, Meta, MakeVal, RawPtr, ExtraBits, FoldOf, HomeOf, Bucket, And, Drop, WordFor;
    var p := RawPtr(r.mask, r.common, w[x]);
    EmptyWordOk(r, x);
    StoredIsStorable(r, r, x, w[x]);
    WordForOk(r, p, j);
    WordsUpdate(r, w, x, 0);
    WordsUpdate(r, w[x := 0], j, WordFor(r, p, j));
    CellsUpdate(r, w[x := 0], j, WordFor(r, p, j));
    assert Cells(r, w)[x] == Decode(r, w[x]);
  }

  lemma RehashMoveWords(r: Coding, w0: seq<Word>, w: seq<Word>, w': seq<Word>, start: nat, x: nat, j: nat)
    requires start < |w| && |w'| == |w| == |w0| && x < |w| && j < |w| && IsValid(w[x]) && And(w[x], r.perfect) == 0
    requires w[x] == w0[x] && Rank(|w|, start, j) <= Rank(|w|, start, x) && !Cells(r, w)[x := Empty][j].Full?
    requires forall y :: 0 <= y < |w| && y != x && y != j ==> w'[y] == w[y]
    requires forall y :: 0 <= y < |w| && Rank(|w|, start, y) >= Rank(|w|, start, x) ==> w[y] == w0[y]
    requires forall y :: 0 <= y < |w| && IsValid(w0[y]) && And(w0[y], r.perfect) != 0 ==> w[y] == w0[y]
    ensures forall y :: 0 <= y < |w| && Rank(|w|, start, y) >= Rank(|w|, start, x) + 1 ==> w'[y] == w0[y]
    ensures forall y :: 0 <= y < |w| && IsValid(w0[y]) && And(w0[y], r.perfect) != 0 ==> w'[y] == w0[y]
  {
    hide KindOf, RawPtr, And;
    forall y | 0 <= y < |w| && IsValid(w0[y]) && And(w0[y], r.perfect) != 0 ensures w'[y] == w0[y] {
      assert Cells(r, w)[y] == Decode(r, w[y]);
    }
  }

  lemma RehashStarts(r: Coding, w: seq<Word>, start: nat)
    requires SoundTable(r, w) && start < |w| && Cells(r, w)[start].Empty?
    ensures Rehashing(r, w, w, start, 0)
  {
    hide KindOf, FoldOf, HomeOf, Bucket, RawPtr, ExtraBits, Meta, And, Drop, Contents, Pow2, SoundFrom;
    SoundMeans(r, w);
  }

  lemma RehashEnds(r: Coding, w0: seq<Word>, w: seq<Word>, start: nat)
    requires r.bits <= 30 && Rehashing(r, w0, w, start, |w0|)
    ensures SoundTable(r, w) && Tombs(Cells(r, w)) == 0
  {
    hide KindOf, FoldOf, HomeOf, Bucket, RawPtr, ExtraBits, Meta, And, Drop, Contents, Pow2, SoundFrom;
    RehashedAll(Cells(r, w), Home(r.rehash, r.bits), start);
    SoundBy(r, w, 0);
  }

  // ----- lookup ---------------------------------------------------------------------------------------

  ghost function HasHash(r: Coding, hash: Word): Word -> bool {
    p => r.rehash(p) == hash
  }

  ghost function Equal(compare: (Word, Word) -> bool, obj: Word): Word -> bool {
    p => compare(obj, p)
  }

  /** Elements equal to obj have the hash the caller passes in. */
  ghost predicate HashFits(rehash: Word -> Word, m: multiset<Word>, compare: (Word, Word) -> bool, obj: Word,
                           hash: Word)
  {
    forall p :: p in m && compare(obj, p) ==> rehash(p) == hash
  }

  /** The metadata htable_val looks for in bucket `off`. */
  ghost function Wanted(r: Coding, hash: Word, off: nat): Word
    requires r.bits <= 30
  {
    Meta(r.mask, r.perfect, Fold(hash, r.bits), off == Bucket(hash, r.bits))
  }

  /** The tests htable_val applies to one bucket. */
  lemma ExamineBucket(r: Coding, w: seq<Word>, off: nat, hash: Word)
    requires CodingOk(r) && WordsOk(r, w) && off < |w|
    ensures var e, c := w[off], Cells(r, w)[off];
            && (e == 0 <==> c.Empty?)
            && (e != 0 && e != DELETED ==> c == Full(RawPtr(r.mask, r.common, e)))
            && (e == DELETED || ExtraBits(r.mask, e) != Wanted(r, hash, off) ==> c.Full? ==> r.rehash(c.elem) != hash)
  {
    hide KindOf, RawPtr, ExtraBits, Meta, And, Drop, Fold, Bucket;
    var e := w[off];
    KindByValue(e);
    assert Cells(r, w)[off] == Decode(r, e) && WordOk(r, off, e);
  }

  /** The probe started at off0 and has come to `off`; z is an empty bucket ahead. */
  ghost predicate Probing(r: Coding, w: seq<Word>, hash: Word, off0: nat, off: nat, z: nat) {
    var n, home := |w|, Bucket(hash, r.bits);
    && off0 < n && off < n && z < n && home < n && Cells(r, w)[z].Empty?
    && Rank(n, home, off0) <= Rank(n, home, off) <= Rank(n, home, z)
    && Passed(Cells(r, w), home, off0, off, HasHash(r, hash))
    && (off != off0 ==> off != home)
  }

  /** Going to the next bucket; from the second one on the perfect bit is not wanted. */
  lemma AdvanceProbe(r: Coding, w: seq<Word>, hash: Word, off0: nat, off: nat, z: nat, extra: Word)
    requires r.bits <= 30 && Probing(r, w, hash, off0, off, z)
    requires extra == if off0 == Bucket(hash, r.bits) then r.perfect else 0
    requires !Cells(r, w)[off].Empty? && (Cells(r, w)[off].Full? ==> r.rehash(Cells(r, w)[off].elem) != hash)
    ensures var next := Next(|w|, off);
            && Probing(r, w, hash, off0, next, z)
            && Rank(|w|, Bucket(hash, r.bits), next) == Rank(|w|, Bucket(hash, r.bits), off) + 1
            && Wanted(r, hash, next) == Drop(Wanted(r, hash, off), extra)
  {
    hide Meta, Drop, Fold, Bucket, Cells, Rank;
    PassOne(Cells(r, w), Bucket(hash, r.bits), off0, off, z, HasHash(r, hash));
    var fold := Fold(hash, r.bits);
    ClearPerfect(r.mask, r.perfect, fold, true);
    ClearPerfect(r.mask, r.perfect, fold, false);
    DropNothing(Wanted(r, hash, off));
  }

  /** The search has come to bucket `off`, which holds the candidate v or ends the probe. */
  ghost predicate Searching(r: Coding, w: seq<Word>, wanted: Word -> bool, hash: Word, z: nat,
                            v: Cell<Word>, off: nat)
  {
    var n, home := |w|, Bucket(hash, r.bits);
    && home < n && off < n && z < n && Cells(r, w)[z].Empty?
    && Rank(n, home, off) <= Rank(n, home, z)
    && Cells(r, w)[off] == v
    && Passed(Cells(r, w), home, home, off, wanted)
  }

  /** Skipping elements with another hash skips no element equal to obj. */
  lemma CandidateStep(r: Coding, c: seq<Cell<Word>>, compare: (Word, Word) -> bool, obj: Word, hash: Word,
                      home: nat, from: nat, off: nat)
    requires HashFits(r.rehash, Contents(c), compare, obj, hash) && home < |c| && from < |c| && off < |c|
    requires Passed(c, home, home, from, Equal(compare, obj)) && Passed(c, home, from, off, HasHash(r, hash))
    ensures Passed(c, home, home, off, Equal(compare, obj))
  {
    forall x | 0 <= x < |c| && Rank(|c|, home, home) <= Rank(|c|, home, x) < Rank(|c|, home, off)
      ensures !c[x].Empty? && (c[x].Full? ==> !compare(obj, c[x].elem))
    {
      if c[x].Full? {
        var p: Word := c[x].elem;
        assert c[x] == Full(p);
        ContentsHas(c, x);
        assert p in Contents(c);
        if Rank(|c|, home, x) < Rank(|c|, home, from) {
          assert !Equal(compare, obj)(p);
        } else {
          assert !HasHash(r, hash)(p);
          assert r.rehash(p) != hash;
          assert !compare(obj, p);
        }
      }
    }
  }

  lemma SearchEnds(r: Coding, w: seq<Word>, compare: (Word, Word) -> bool, obj: Word, hash: Word, z: nat, off: nat)
    requires Probed(Cells(r, w), Home(r.rehash, r.bits))
    requires HashFits(r.rehash, Contents(Cells(r, w)), compare, obj, hash)
    requires Searching(r, w, Equal(compare, obj), hash, z, Empty, off)
    ensures forall p :: p in Contents(Cells(r, w)) ==> !compare(obj, p)
  {
    hide Bucket, Cells, Rank;
    var c, wanted := Cells(r, w), Equal(compare, obj);
    var home := Home(r.rehash, r.bits);
    forall i | 0 <= i < |c| && c[i].Full? && wanted(c[i].elem) ensures home(c[i].elem) == Bucket(hash, r.bits) {
      var p: Word := c[i].elem;
      ContentsHas(c, i);
      assert p in Contents(c) && compare(obj, p);
    }
    PassedAll(c, home, Bucket(hash, r.bits), off, wanted);
    forall p | p in Contents(c) ensures !compare(obj, p) {
      var i := ContentsIndex(c, p);
      assert !wanted(c[i].elem);
    }
  }
}

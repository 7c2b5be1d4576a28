/** The dynamic hash table. */
module HTable {
  import opened Options
  import opened Words64
  import opened HTableCells
  import opened HTableWords
  import opened HTableModel

  class Table {
    const rehash: Word -> Word
    const compare: (Word, Word) -> bool
    var bits: nat
    var elems: nat
    var deleted: nat
    var max: nat
    var maxWithDeleted: nat
    var mask: Word
    var common: Word
    var perfect: Word
    var table: array?<Word>  // null: the table is the field `perfect` itself, a single empty bucket
    ghost var first: Word    // the address for which the mask was last laid out, once there was one

    ghost function C(): Coding
      reads `bits, `mask, `common, `perfect
    {
      Coding(rehash, bits, mask, common, perfect)
    }

    ghost function Words(): seq<Word>
      reads `table, `perfect, table
    {
      if table == null then [perfect] else table[..]
    }

    ghost function Buckets(): seq<Cell<Word>>
      reads `bits, `mask, `common, `perfect, `table, table
    {
      Cells(C(), Words())
    }

    /** The elements stored, with multiplicities. */
    ghost function Elements(): multiset<Word>
      reads `bits, `mask, `common, `perfect, `table, table
    {
      Contents(Buckets())
    }

    /** The words make sense and every element is reachable. */
    ghost predicate Sound()
      reads `bits, `mask, `common, `perfect, `table, table
    {
      SoundTable(C(), Words())
    }

    ghost predicate Counted()
      reads this, table
    {
      && elems == |Elements()| && Tombs(Buckets()) <= deleted
      && elems <= max && elems + deleted <= maxWithDeleted < Pow2(bits)
    }

    ghost predicate Sized()
      reads this
    {
      && LaidOut(mask, common, first) && (mask == ALL ==> elems == 0)
      && if table == null then
           bits == 0 && max == 0 && maxWithDeleted == 0 && mask == ALL && common == 0 && perfect == 0
         else
           1 <= bits && max == Room(bits) && maxWithDeleted == 9 * Pow2(bits) / 10
    }

    ghost predicate Valid()
      reads this, table
    {
      Sound() && Counted() && Sized()
    }

    /** The address can join the table: it shows a bit above bit 0 next to the first one. */
    ghost predicate Admits(p: Word)
      reads `mask, `first
    {
      mask == ALL || Visible(first, p)
    }

    constructor (rehash: Word -> Word, compare: (Word, Word) -> bool)
      ensures Valid() && Elements() == multiset{} && table == null && mask == ALL && common == 0
      ensures this.rehash == rehash && this.compare == compare
    {
      this.rehash := rehash;
      this.compare := compare;
      bits, elems, deleted, max, maxWithDeleted := 0, 0, 0, 0, 0;
      mask, common, perfect := ALL, 0, 0;
      table := null;
      new;
      NoLayout();
      hide Bucket, And, RawPtr, ExtraBits, Meta, FoldOf, HomeOf, Home, Contents, Tombs, Cells, KindOf, Pow2, Drop;
      hide TopOf, SoundFrom;
      AllEmpty(C(), Words());
    }

    // ----- adding to the array -------------------------------------------------------------------

    /** The first bucket from home on that holds no element, and the perfect bit if it is home. */
    method FindFree(h: Word, ghost room: nat) returns (i: nat, extra: Word)
      requires table != null && table.Length == Pow2(bits)
      requires room < table.Length && !IsValid(table[room])
      ensures i < table.Length && !IsValid(table[i])
      ensures var home := Bucket(h, bits);
              && extra == (if i == home then perfect else 0)
              && forall x :: 0 <= x < table.Length && Rank(table.Length, home, x) < Rank(table.Length, home, i)
                          ==> IsValid(table[x])
    {
      hide Bucket, KindOf, SoundFrom;
      i := Bucket(h, bits);
      ghost var home: nat := i;
      ghost var n := table.Length;
      extra := perfect;
      while IsValid(table[i])
        invariant i < n
        invariant extra == if i == home then perfect else 0
        invariant forall x :: 0 <= x < n && Rank(n, home, x) < Rank(n, home, i) ==> IsValid(table[x])
        decreases n - Rank(n, home, i)
      {
        assert Rank(n, home, i) <= Rank(n, home, room);
        NextRank(n, home, i, room);
        extra := 0;
        i := if i + 1 == table.Length then 0 else i + 1;
      }
    }

    /** ht_add. */
    method AddWord(p: Word, h: Word, ghost room: nat) returns (ghost j: nat)
      requires table != null && table.Length == Pow2(bits) && CodingOk(C()) && h == rehash(p)
      requires room < table.Length && !IsValid(table[room])
      modifies table
      ensures j < table.Length && !old(IsValid(table[j]))
      ensures var n, home := table.Length, HomeOf(C(), p);
              forall x :: 0 <= x < n && Rank(n, home, x) < Rank(n, home, j) ==> old(IsValid(table[x]))
      ensures table[..] == old(table[..])[j := WordFor(C(), p, j)]
    {
      hide KindOf, Bucket, Fold, MakeVal, HashBits, And, Or, Drop, Pow2, SoundFrom;
      var i, extra := FindFree(h, room);
      j := i;
      table[i] := MakeVal(mask, p, Or(HashBits(mask, perfect, Fold(h, bits)), extra));
    }

    // ----- giving pointer bits back --------------------------------------------------------------

    /** The search for the most significant set bit. */
    static method HighestBit(p: Word) returns (i: nat)
      ensures i == TopFrom(p, 63)
    {
      hide And, Bit;
      i := 63;
      while i > 0
        invariant TopFrom(p, i) == TopFrom(p, 63)
      {
        if And(p, Bit(i)) != 0 {
          break;
        }
        i := i - 1;
      }
    }

    /** update_common: afterwards p agrees with the common bits and no element has changed. */
    method UpdateCommon(p: Word)
      requires table != null && Sound() && Sized() && elems == |Elements()| && IsValid(p) && And(p, mask) != common
      modifies this`mask, this`common, this`perfect, this`first, table
      ensures C() == Fitted(old(C()), elems, p) && first == (if elems == 0 then p else old(first))
      ensures Sound() && Sized() && mask != ALL && And(p, mask) == common && Buckets() == old(Buckets())
      ensures elems == 0 || old(Admits(p)) ==> Storable(C(), p)
    {
      if elems == 0 {
        FirstCommon(p);
      } else {
        ShrinkCommon(p);
      }
    }

    method FirstCommon(p: Word)
      requires table != null && Sound() && Sized() && elems == 0 && Elements() == multiset{}
      requires IsValid(p) && And(p, mask) != common
      modifies this`mask, this`common, this`perfect, this`first
      ensures C() == Fitted(old(C()), 0, p) && first == p
      ensures Sound() && Sized() && mask != ALL && Storable(C(), p) && Buckets() == old(Buckets())
    {
      hide KindOf, Bucket, RawPtr, ExtraBits, Meta, And, Not, Drop, Bit, Contents, Tombs, Pow2, Cells, FoldOf, HomeOf;
      hide Home, SoundFrom;
      ghost var r, w := Fitted(C(), 0, p), Words();
      FirstSound(C(), w, p);
      var i := HighestBit(p);
      assert Bit(i) == TopOf(p);
      hide TopOf, TopFrom;
      mask := Not(Bit(i));
      common := And(p, mask);
      perfect := 1;
      first := p;
      assert C() == r && Words() == w;
      hide Fitted, Words, C;
    }

    method ShrinkCommon(p: Word)
      requires table != null && Sound() && Sized() && elems > 0 && IsValid(p) && And(p, mask) != common
      modifies this`mask, this`common, this`perfect, table
      ensures C() == Fitted(old(C()), elems, p)
      ensures Sound() && Sized() && mask != ALL && And(p, mask) == common && Buckets() == old(Buckets())
      ensures old(Admits(p)) ==> Storable(C(), p)
    {
      hide KindOf, Bucket, Fold, RawPtr, MakeVal, ExtraBits, Meta, And, Or, Drop, Bit, MaskDiff, Recode, SoundFrom;
      hide Contents, Tombs, Pow2, TopOf, Not, Cells;
      FurtherFits(C(), elems, first, p);
      var maskdiff := MaskDiff(mask, common, p);
      ShrunkFits(C(), p);
      ghost var r, w := C(), table[..];
      SoundMeans(r, w);
      RecodeAll(maskdiff);
      RecodedSound(r, maskdiff, w, table[..]);
      mask := Drop(mask, maskdiff);
      common := Drop(common, maskdiff);
      perfect := Drop(perfect, maskdiff);
    }

    method RecodeAll(maskdiff: Word)
      requires table != null && CodingOk(C()) && WordsOk(C(), table[..])
      requires Within(maskdiff, mask)
      modifies table
      ensures WordsOk(Shrunk(C(), maskdiff), table[..])
      ensures Cells(Shrunk(C(), maskdiff), table[..]) == old(Buckets())
    {
      hide KindOf, Bucket, RawPtr, ExtraBits, Meta, And, Or, Drop, Recode, Pow2, Cells, FoldOf, HomeOf, Decode;
      hide SoundFrom;
      ghost var w := table[..];
      ghost var r, r' := C(), Shrunk(C(), maskdiff);
      for i := 0 to table.Length
        invariant table.Length == |w|
        invariant forall j :: i <= j < |w| ==> table[j] == w[j]
        invariant forall j :: 0 <= j < i ==> WordOk(r', j, table[j]) && Decode(r', table[j]) == Decode(r, w[j])
      {
        if IsValid(table[i]) {
          RecodeWord(r, maskdiff, i, table[i]);
          table[i] := Recode(common, maskdiff, table[i]);
        } else {
          NoElementAnyCoding(r, r', i, table[i]);
        }
      }
      SameCells(r, r', w, table[..]);
    }

    // ----- doubling ---------------------------------------------------------------------------------

    /** Write the word of an address into a table that has room.  A storable address becomes an element. */
    method AddElement(p: Word, h: Word) returns (ghost at: nat)
      requires table != null && Sound() && h == rehash(p) && |Elements()| < table.Length
      modifies table
      ensures at < table.Length && table[at] == WordFor(C(), p, at)
      ensures Elements() == old(Elements()) + CellElems(Decode(C(), table[at]))
      ensures Storable(C(), p) ==> Sound() && Elements() == old(Elements()) + multiset{p}
                                   && Tombs(Buckets()) <= old(Tombs(Buckets()))
    {
      hide KindOf, Bucket, RawPtr, ExtraBits, Meta, And, Or, Not, Drop, Contents, Tombs, Pow2, WordFor, HomeOf, Rank;
      hide SoundFrom;
      ghost var r, w := C(), table[..];
      ghost var room := HasRoom(Buckets());
      assert !IsValid(w[room]) by { assert Buckets()[room] == Decode(r, w[room]); }
      at := AddWord(p, h, room);
      WrittenContents(r, w, at, WordFor(r, p, at));
      if Storable(r, p) {
        StoredElement(r, w, p, at);
      }
    }

    /** The least significant bit of the mask. */
    static method LowestBit(mask: Word) returns (b: Word)
      ensures Within(b, mask) && (b != 0 <==> mask != 0) && (mask != 0 ==> LowestOf(b, mask))
    {
      hide Drop, And, Bit, Below;
      BelowZero(mask);
      for i := 0 to 64
        invariant Below(mask, i) == 0
        invariant forall j: nat :: j < i ==> And(mask, Bit(j)) == 0
      {
        if And(mask, Bit(i)) != 0 {
          BitWithin(mask, i);
          return Bit(i);
        }
        LowBitsClear(mask, i);
      }
      AllBitsClear(mask);
      b := 0;
    }

    /** The elements of the first i words of the old array w, read as r says, have been added. */
    ghost predicate Moved(r: Coding, w: seq<Word>, i: nat)
      requires i <= |w|
      reads `bits, `mask, `common, `perfect, `table, table
    {
      Sound() && Elements() == Contents(Cells(r, w[..i])) && Tombs(Buckets()) == 0
    }

    /** Re-add the element of one word of the old array. */
    method MoveOne(e: Word, ghost r: Coding, ghost w: seq<Word>, ghost i: nat)
      requires table != null && i < |w| < table.Length && e == w[i] && Moved(r, w, i)
      requires SoundTable(r, w) && r.mask == mask && r.common == common
      modifies table
      ensures Moved(r, w, i + 1)
    {
      hide KindOf, Bucket, RawPtr, ExtraBits, Meta, And, Drop, Contents, Tombs, Pow2, Cells, FoldOf, HomeOf, SoundFrom;
      hide Words, Buckets;
      CellsPrefix(r, w, i);
      if IsValid(e) {
        SoundAt(r, w, 0, i);
        StoredIsStorable(r, C(), i, e);
        var p := RawPtr(mask, common, e);
        ghost var _ := AddElement(p, rehash(p));
      }
    }

    /** Re-add every element of the old array. */
    method MoveAll(oldtable: array<Word>, ghost r: Coding)
      requires table != null && table != oldtable && Sound() && Elements() == multiset{} && Tombs(Buckets()) == 0
      requires SoundTable(r, oldtable[..]) && oldtable.Length < table.Length
      requires r.mask == mask && r.common == common
      modifies table
      ensures Sound() && Elements() == Contents(Cells(r, oldtable[..])) && Tombs(Buckets()) == 0
    {
      hide KindOf, Bucket, Fold, RawPtr, ExtraBits, Meta, And, Or, Not, Drop, Contents, Tombs, Pow2, Cells, FoldOf;
      hide HomeOf, SoundFrom;
      ghost var w := oldtable[..];
      EmptyTable(Cells(r, w[..0]));
      for i := 0 to oldtable.Length
        invariant oldtable[..] == w && Moved(r, w, i)
      {
        MoveOne(oldtable[i], r, w, i);
      }
      assert w[..oldtable.Length] == w;
    }

    /** A new, empty array of twice the size; a lost perfect bit is taken back. */
    method Grow()
      requires bits < 30 && CodingOk(C())
      modifies this`table, this`bits, this`max, this`maxWithDeleted, this`perfect
      ensures fresh(table) && table.Length == Pow2(bits) && bits == old(bits) + 1
      ensures Sound() && Elements() == multiset{} && Tombs(Buckets()) == 0
      ensures max == Room(bits) && maxWithDeleted == 9 * Pow2(bits) / 10
      ensures (mask != 0 ==> perfect != 0) && (old(perfect) != 0 ==> perfect == old(perfect))
      ensures old(perfect) == 0 && mask != 0 ==> LowestOf(perfect, mask)
    {
      hide KindOf, Bucket, Fold, RawPtr, ExtraBits, Meta, And, Or, Not, Drop, Bit, Contents, Tombs, Cells, Pow2;
      hide SoundFrom;
      table := new Word[Pow2(bits + 1)](_ => 0);
      bits := bits + 1;
      max := 3 * Pow2(bits) / 4;
      maxWithDeleted := 9 * Pow2(bits) / 10;
      if perfect == 0 && mask != 0 {
        perfect := LowestBit(mask);
      }
      NewTableSound();
    }

    /** What Valid says of the array, or of the table that has none. */
    lemma InArray()
      requires Valid()
      ensures table == null ==> Elements() == multiset{}
      ensures table != null ==> SoundTable(C(), table[..]) && Elements() == Contents(Cells(C(), table[..]))
    {
      hide KindOf, Bucket, RawPtr, ExtraBits, Meta, And, Drop, Contents, Tombs, Cells, TopOf, Pow2, FoldOf, HomeOf;
      hide SoundFrom;
    }

    static lemma DoubledSizes(bits: nat, elems: nat)
      requires elems <= Room(bits)
      ensures Pow2(bits) < Pow2(bits + 1) && elems + 1 <= Room(bits + 1) <= 9 * Pow2(bits + 1) / 10 < Pow2(bits + 1)
    {
    }

    /** double_table. */
    method Double(allocOk: bool) returns (ok: bool)
      requires Valid() && bits < 30
      modifies this
      ensures Valid() && ok == allocOk
      ensures !ok ==> unchanged(this)
      ensures ok ==> fresh(table) && Elements() == old(Elements()) && bits == old(bits) + 1
                     && elems == old(elems) && elems + 1 <= max && deleted == 0
      ensures ok ==> mask == old(mask) && common == old(common) && first == old(first)
      ensures ok ==> (mask != 0 ==> perfect != 0) && (old(perfect) != 0 ==> perfect == old(perfect))
      ensures ok && old(perfect) == 0 && mask != 0 ==> LowestOf(perfect, mask)
    {
      hide KindOf, Bucket, RawPtr, ExtraBits, Meta, And, Drop, Bit, Contents, Tombs, Cells, Pow2, C, Words, Home;
      hide TopOf, SoundFrom;
      if allocOk {
        DoubleTable();
        ok := true;
      } else {
        ok := false;
      }
    }

    method DoubleTable()
      requires Valid() && bits < 30
      modifies this`table, this`bits, this`max, this`maxWithDeleted, this`perfect, this`deleted
      ensures Valid() && fresh(table) && Elements() == old(Elements()) && bits == old(bits) + 1
      ensures elems + 1 <= max && deleted == 0
      ensures (mask != 0 ==> perfect != 0) && (old(perfect) != 0 ==> perfect == old(perfect))
      ensures old(perfect) == 0 && mask != 0 ==> LowestOf(perfect, mask)
    {
      hide KindOf, Bucket, RawPtr, ExtraBits, Meta, And, Drop, Contents, Tombs, Cells, TopOf, Pow2, FoldOf, HomeOf;
      hide SoundFrom;
      hide Words, Buckets;
      DoubledSizes(bits, elems);
      InArray();
      ghost var r, m := C(), Elements();
      var oldtable := table;
      deleted := 0;
      Grow();
      Refill(oldtable, r, m);
    }

    /** Move the elements over, if there was an array. */
    method Refill(oldtable: array?<Word>, ghost r: Coding, ghost m: multiset<Word>)
      requires table != null && table != oldtable && Sound() && Elements() == multiset{} && Tombs(Buckets()) == 0
      requires oldtable == null ==> m == multiset{}
      requires oldtable != null ==> SoundTable(r, oldtable[..]) && oldtable.Length < table.Length
                                    && r.mask == mask && r.common == common && m == Contents(Cells(r, oldtable[..]))
      modifies table
      ensures Sound() && Elements() == m && Tombs(Buckets()) == 0
    {
      hide KindOf, Bucket, RawPtr, ExtraBits, Meta, And, Drop, Contents, Tombs, Pow2, Cells, FoldOf, HomeOf, Words;
      hide Buckets, SoundFrom;
      if oldtable != null {
        MoveAll(oldtable, r);
      }
    }

    lemma NewTableSound()
      requires table != null && CodingOk(C()) && table.Length == Pow2(bits)
      requires forall i :: 0 <= i < table.Length ==> table[i] == 0
      ensures Sound() && Elements() == multiset{} && Tombs(Buckets()) == 0
    {
      hide Bucket, Fold, RawPtr, ExtraBits, Meta, And, Bit, Contents, Tombs, Pow2, Cells, KindOf, Home, SoundFrom;
      AllEmpty(C(), Words());
    }

    // ----- in-place rehash --------------------------------------------------------------------------

    /** Take the element out of bucket x and add it again. */
    method MoveWord(x: nat) returns (ghost j: nat)
      requires table != null && x < table.Length == Pow2(bits) && CodingOk(C()) && IsValid(table[x])
      modifies table
      ensures j < table.Length
      ensures var w, p := old(table[..])[x := 0], RawPtr(mask, common, old(table[x]));
              && table[..] == w[j := WordFor(C(), p, j)] && !IsValid(w[j])
              && forall y :: 0 <= y < |w| && Rank(|w|, HomeOf(C(), p), y) < Rank(|w|, HomeOf(C(), p), j)
                             ==> IsValid(w[y])
    {
      hide Bucket, RawPtr, ExtraBits, Meta, And, Drop, Pow2, MakeVal, WordFor, HomeOf, Rank, SoundFrom;
      var p := RawPtr(mask, common, table[x]);
      ghost var w := table[..];
      table[x] := 0;
      assert table[..] == w[x := 0];
      j := AddWord(p, rehash(p), x);
    }

    /** rehash_table: no tombstone is left, and elements with the perfect bit stay where they are. */
    method Rehash()
      requires table != null && Valid()
      modifies this`deleted, table
      ensures Sound() && Elements() == old(Elements()) && Tombs(Buckets()) == 0 && deleted == 0
      ensures forall x :: 0 <= x < table.Length && old(IsValid(table[x]) && And(table[x], perfect) != 0)
                          ==> table[x] == old(table[x])
    {
      hide KindOf, FoldOf, HomeOf, Bucket, RawPtr, ExtraBits, Meta, And, Drop, Contents, Tombs, Pow2, Bit, Home;
      hide SoundFrom;
      ghost var w0 := table[..];
      var start := FirstEmpty();
      RehashStarts(C(), w0, start);
      RehashFrom(start, w0);
      RehashEnds(C(), w0, table[..], start);
      deleted := 0;
    }

    /** Every bucket in turn, beginning with the empty one. */
    method RehashFrom(start: nat, ghost w0: seq<Word>)
      requires table != null && start < table.Length && CodingOk(C()) && Rehashing(C(), w0, table[..], start, 0)
      modifies table
      ensures Rehashing(C(), w0, table[..], start, table.Length)
    {
      hide KindOf, FoldOf, HomeOf, Bucket, RawPtr, ExtraBits, Meta, And, Drop, Contents, Tombs, Pow2, Bit, Home;
      hide Cells, SoundFrom;
      var n := table.Length;
      for i := 0 to n
        invariant Rehashing(C(), w0, table[..], start, i)
      {
        var h := if i + start < n then i + start else i + start - n;
        assert Rank(n, start, h) == i;
        RehashBucket(start, h, w0);
      }
    }

    method FirstEmpty() returns (start: nat)
      requires table != null && Valid()
      ensures start < table.Length && Buckets()[start].Empty?
    {
      hide KindOf, RawPtr, Contents, Tombs, Pow2, And, Bit, SoundFrom;
      ghost var z := HasEmpty(Buckets());
      assert Buckets()[z] == Decode(C(), table[z]);
      start := 0;
      KindByValue(table[z]);
      while table[start] != 0
        invariant start <= z
        decreases z - start
      {
        start := start + 1;
      }
      KindByValue(table[start]);
      assert Buckets()[start] == Decode(C(), table[start]);
    }

    /** An element away from home is taken out and added again. */
    method RehashElement(start: nat, h: nat, ghost w0: seq<Word>)
      requires table != null && start < table.Length && h < table.Length && CodingOk(C())
      requires Rehashing(C(), w0, table[..], start, Rank(table.Length, start, h))
      requires IsValid(table[h]) && And(table[h], perfect) == 0
      modifies table
      ensures Rehashing(C(), w0, table[..], start, Rank(table.Length, start, h) + 1)
    {
      hide KindOf, FoldOf, HomeOf, Bucket, RawPtr, ExtraBits, Meta, And, Drop, Contents, Tombs, Pow2, Cells, Rank;
      hide WordFor, SoundFrom;
      ghost var r, w := C(), table[..];
      ghost var j := MoveWord(h);
      RehashMove(r, w0, w, start, h, j);
    }

    method RehashBucket(start: nat, h: nat, ghost w0: seq<Word>)
      requires table != null && start < table.Length && h < table.Length && CodingOk(C())
      requires Rehashing(C(), w0, table[..], start, Rank(table.Length, start, h))
      modifies table
      ensures Rehashing(C(), w0, table[..], start, Rank(table.Length, start, h) + 1)
    {
      hide KindOf, FoldOf, HomeOf, Bucket, RawPtr, ExtraBits, Meta, And, Drop, Contents, Tombs, Pow2, Bit, Cells;
      hide Rank, SoundFrom;
      var e := table[h];
      ghost var w := table[..];
      KindByValue(e);
      if e == 0 {
        RehashKeep(C(), w0, w, start, h);
      } else if e == DELETED {
        RehashDrop(C(), w0, w, start, h);
        table[h] := 0;
        assert table[..] == w[h := 0];
      } else if And(e, perfect) == 0 {
        RehashElement(start, h, w0);
      } else {
        RehashKeep(C(), w0, w, start, h);
      }
    }

    // ----- insert --------------------------------------------------------------------------------------

    /** Everything htable_add does before the element is stored. */
    method Prepare(p: Word)
      requires Valid() && table != null && IsValid(p) && elems + 1 <= max
      modifies this`deleted, this`mask, this`common, this`perfect, this`first, table
      ensures Valid() && mask != ALL && elems + 1 + deleted <= maxWithDeleted && Elements() == old(Elements())
      ensures C() == Fitted(old(C()), elems, p) && And(p, mask) == common
      ensures first == if elems == 0 && And(p, old(mask)) != old(common) then p else old(first)
      ensures old(Admits(p)) ==> Storable(C(), p)
    {
      hide KindOf, FoldOf, HomeOf, Bucket, RawPtr, ExtraBits, Meta, And, Drop, Contents, Tombs, Pow2, Bit, Home;
      hide SoundFrom;
      hide Cells, Words, TopOf, Fitted;
      if elems + 1 + deleted > maxWithDeleted {
        Rehash();
      }
      assert Valid();
      MakeFit(p);
    }

    method MakeFit(p: Word)
      requires Valid() && table != null && IsValid(p)
      modifies this`mask, this`common, this`perfect, this`first, table
      ensures Valid() && mask != ALL && Elements() == old(Elements())
      ensures C() == Fitted(old(C()), elems, p) && And(p, mask) == common
      ensures first == if elems == 0 && And(p, old(mask)) != old(common) then p else old(first)
      ensures old(Admits(p)) ==> Storable(C(), p)
    {
      hide KindOf, FoldOf, HomeOf, Bucket, RawPtr, ExtraBits, Meta, And, Drop, Contents, Tombs, Pow2, Bit, Home;
      hide Cells, SoundFrom, TopOf, Fitted, Words, Buckets, Room;
      AllHidden(p);
      if And(p, mask) != common {
        UpdateCommon(p);
      } else {
        FurtherFits(C(), elems, first, p);
      }
    }

    /** htable_add, for any address above 1: what it reports, what it writes and how it lays out the bits.
        If the table admits the address, exactly that element is added. */
    method Insert(p: Word, hash: Word, allocOk: bool) returns (ok: bool, ghost at: nat)
      requires Valid() && hash == rehash(p) && IsValid(p) && (elems + 1 > Room(bits) ==> bits < 30)
      modifies this, table
      ensures ok <==> old(elems) + 1 <= Room(old(bits)) || allocOk
      ensures !ok ==> unchanged(this) && Words() == old(Words()) && Valid() && Elements() == old(Elements())
      ensures ok ==> CodingOk(C()) && table != null && at < table.Length && table[at] == WordFor(C(), p, at)
                     && Elements() == old(Elements()) + CellElems(Decode(C(), table[at]))
      ensures ok ==> var r := Fitted(old(C()), old(elems), p);
                     && mask == r.mask && common == r.common && elems == old(elems) + 1
                     && (old(perfect) != 0 || r.perfect != 0 ==> perfect == r.perfect)
      ensures ok ==> first == if old(elems) == 0 && And(p, old(mask)) != old(common) then p else old(first)
      ensures ok && old(Admits(p)) ==> Valid() && Elements() == old(Elements()) + multiset{p} && mask != ALL
      ensures table == old(table) || fresh(table)
      ensures ok ==> bits == old(bits) + if old(elems) + 1 <= Room(old(bits)) then 0 else 1
    {
      hide KindOf, FoldOf, HomeOf, Bucket, RawPtr, ExtraBits, Meta, And, Drop, Contents, Tombs, Pow2, Bit, Home;
      hide Cells, SoundFrom;
      hide TopOf, WordFor, Fitted, Words, Buckets, Elements;
      if elems + 1 > max {
        ok, at := InsertDoubled(p, hash, allocOk);
      } else {
        at := InsertRoom(p, hash);
        ok := true;
      }
    }

    /** The table is full: double it first. */
    method InsertDoubled(p: Word, hash: Word, allocOk: bool) returns (ok: bool, ghost at: nat)
      requires Valid() && hash == rehash(p) && IsValid(p) && bits < 30
      modifies this, table
      ensures ok == allocOk
      ensures !ok ==> unchanged(this) && Words() == old(Words()) && Valid() && Elements() == old(Elements())
      ensures ok ==> CodingOk(C()) && table != null && at < table.Length && table[at] == WordFor(C(), p, at)
                     && Elements() == old(Elements()) + CellElems(Decode(C(), table[at]))
      ensures ok ==> var r := Fitted(old(C()), old(elems), p);
                     && mask == r.mask && common == r.common && elems == old(elems) + 1
                     && (old(perfect) != 0 || r.perfect != 0 ==> perfect == r.perfect)
      ensures ok ==> first == if old(elems) == 0 && And(p, old(mask)) != old(common) then p else old(first)
      ensures ok && old(Admits(p)) ==> Valid() && Elements() == old(Elements()) + multiset{p} && mask != ALL
      ensures ok ==> fresh(table) && bits == old(bits) + 1
    {
      hide KindOf, FoldOf, HomeOf, Bucket, RawPtr, ExtraBits, Meta, And, Drop, Contents, Tombs, Pow2, Bit, Home;
      hide Cells, SoundFrom;
      hide TopOf, WordFor, Fitted, Words, Buckets, Elements;
      ghost var r := C();
      at := 0;
      ok := Double(allocOk);
      if ok {
        FittedAgain(r, C(), elems, p);
        at := InsertRoom(p, hash);
      }
    }

    method InsertRoom(p: Word, hash: Word) returns (ghost at: nat)
      requires Valid() && table != null && hash == rehash(p) && IsValid(p) && elems + 1 <= max
      modifies this`elems, this`deleted, this`mask, this`common, this`perfect, this`first, table
      ensures CodingOk(C()) && at < table.Length && table[at] == WordFor(C(), p, at)
      ensures Elements() == old(Elements()) + CellElems(Decode(C(), table[at]))
      ensures C() == Fitted(old(C()), old(elems), p) && elems == old(elems) + 1
      ensures first == if old(elems) == 0 && And(p, old(mask)) != old(common) then p else old(first)
      ensures old(Admits(p)) ==> Valid() && Elements() == old(Elements()) + multiset{p} && mask != ALL
    {
      hide KindOf, FoldOf, HomeOf, Bucket, RawPtr, ExtraBits, Meta, And, Drop, Contents, Tombs, Pow2, Bit, Home;
      hide Cells, SoundFrom;
      hide TopOf, WordFor, Rank, Fitted;
      Prepare(p);
      at := Place(p, hash);
    }

    /** Write the word and count it. */
    method Place(p: Word, hash: Word) returns (ghost at: nat)
      requires Valid() && table != null && mask != ALL && hash == rehash(p)
      requires elems + 1 <= max && elems + 1 + deleted <= maxWithDeleted
      modifies this`elems, table
      ensures CodingOk(C()) && at < table.Length && table[at] == WordFor(C(), p, at) && elems == old(elems) + 1
      ensures Elements() == old(Elements()) + CellElems(Decode(C(), table[at]))
      ensures Storable(C(), p) ==> Valid() && Elements() == old(Elements()) + multiset{p}
    {
      hide KindOf, HomeOf, Bucket, RawPtr, ExtraBits, Meta, And, Drop, Contents, Tombs, Pow2, Cells, SoundFrom;
      hide TopOf, WordFor, FoldOf, Home;
      at := AddElement(p, hash);
      elems := elems + 1;
    }

    // ----- lookup --------------------------------------------------------------------------------------

    /** ht->table[i], which is the field `perfect` while no array has been allocated. */
    function ReadWord(i: nat): Word
      requires i < |Words()|
      reads `table, `perfect, table
    {
      if table == null then perfect else table[i]
    }

    /** The table is made of the words w, to be read as r says. */
    ghost predicate Is(r: Coding, w: seq<Word>)
      reads `bits, `mask, `common, `perfect, `table, table
    {
      C() == r && Words() == w
    }

    /** htable_val: the next bucket whose metadata fits the hash; z is an empty bucket ahead. */
    method Val(off0: nat, hash: Word, extra: Word, ghost r: Coding, ghost w: seq<Word>, ghost z: nat)
      returns (v: Option<Word>, off: nat)
      requires Is(r, w) && CodingOk(r) && WordsOk(r, w) && |w| == Pow2(bits)
      requires Probing(r, w, hash, off0, off0, z) && extra == if off0 == Bucket(hash, bits) then perfect else 0
      ensures Probing(r, w, hash, off0, off, z)
      ensures Cells(r, w)[off] == if v.Some? then Full(v.value) else Empty
    {
      hide HashBits, And, Or, Drop, Fold, Bucket, Bit, Cells, Contents, Pow2, Rank, RawPtr, ExtraBits, KindOf, FoldOf;
      hide HomeOf;
      off := off0;
      var h2 := Or(HashBits(mask, perfect, Fold(hash, bits)), extra);
      assert h2 == Wanted(r, hash, off);
      hide Meta;
      while ReadWord(off) != 0
        invariant Probing(r, w, hash, off0, off, z) && h2 == Wanted(r, hash, off)
        decreases Rank(|w|, Bucket(hash, bits), z) - Rank(|w|, Bucket(hash, bits), off)
      {
        ExamineBucket(r, w, off, hash);
        if ReadWord(off) != DELETED {
          if ExtraBits(mask, ReadWord(off)) == h2 {
            return Some(RawPtr(mask, common, ReadWord(off))), off;
          }
        }
        AdvanceProbe(r, w, hash, off0, off, z, extra);
        off := if off + 1 == Pow2(bits) then 0 else off + 1;
        h2 := Drop(h2, extra);
      }
      ExamineBucket(r, w, off, hash);
      return None, off;
    }

    static ghost function CellOf(v: Option<Word>): Cell<Word> {
      if v.Some? then Full(v.value) else Empty
    }

    /** htable_firstval. */
    method FirstVal(obj: Word, hash: Word, ghost r: Coding, ghost w: seq<Word>, ghost z: nat)
      returns (v: Option<Word>, off: nat)
      requires Is(r, w) && CodingOk(r) && WordsOk(r, w) && |w| == Pow2(bits)
      requires HashFits(rehash, Contents(Cells(r, w)), compare, obj, hash) && z < |w| && Cells(r, w)[z].Empty?
      ensures Searching(r, w, Equal(compare, obj), hash, z, CellOf(v), off)
    {
      hide Bucket, Cells, Contents, Pow2, And, Drop, Bit, KindOf, RawPtr, ExtraBits, Meta, FoldOf, HomeOf, SoundFrom;
      off := Bucket(hash, bits);
      ghost var home := off;
      v, off := Val(off, hash, perfect, r, w, z);
      CandidateStep(r, Cells(r, w), compare, obj, hash, home, home, off);
    }

    /** htable_nextval. */
    method NextVal(obj: Word, hash: Word, off0: nat, ghost v0: Word, ghost r: Coding, ghost w: seq<Word>, ghost z: nat)
      returns (v: Option<Word>, off: nat)
      requires Is(r, w) && CodingOk(r) && WordsOk(r, w) && |w| == Pow2(bits)
      requires HashFits(rehash, Contents(Cells(r, w)), compare, obj, hash)
      requires Searching(r, w, Equal(compare, obj), hash, z, Full(v0), off0) && !compare(obj, v0)
      ensures Searching(r, w, Equal(compare, obj), hash, z, CellOf(v), off)
      ensures Rank(|w|, Bucket(hash, bits), off0) < Rank(|w|, Bucket(hash, bits), off)
    {
      hide Bucket, Cells, Contents, Pow2, And, Drop, Bit, KindOf, RawPtr, ExtraBits, Meta, FoldOf, HomeOf, SoundFrom;
      ghost var home: nat := Bucket(hash, bits);
      PassOne(Cells(r, w), home, home, off0, z, Equal(compare, obj));
      var next := if off0 + 1 == Pow2(bits) then 0 else off0 + 1;
      v, off := Val(next, hash, 0, r, w, z);
      CandidateStep(r, Cells(r, w), compare, obj, hash, home, next, off);
    }

    /** The loop shared by lookup and remove. */
    method Find(obj: Word, hash: Word) returns (v: Option<Word>, off: nat)
      requires Valid() && HashFits(rehash, Elements(), compare, obj, hash)
      ensures off < |Words()|
      ensures v.Some? ==> Buckets()[off] == Full(v.value) && compare(obj, v.value)
      ensures v.None? ==> forall p :: p in Elements() ==> !compare(obj, p)
    {
      hide Bucket, Cells, Contents, Tombs, Pow2, And, Drop, Bit, KindOf, RawPtr, ExtraBits, Meta, FoldOf, HomeOf;
      hide Rank, SoundFrom;
      ghost var r, w := C(), Words();
      ghost var z := HasEmpty(Cells(r, w));
      SoundMeans(r, w);
      v, off := FirstVal(obj, hash, r, w, z);
      while v.Some?
        invariant Is(r, w) && Searching(r, w, Equal(compare, obj), hash, z, CellOf(v), off)
        decreases Rank(|w|, Bucket(hash, bits), z) - Rank(|w|, Bucket(hash, bits), off)
      {
        if compare(obj, v.value) {
          return;
        }
        v, off := NextVal(obj, hash, off, v.value, r, w, z);
      }
      SearchEnds(r, w, compare, obj, hash, z, off);
    }

    /** shl_htable_lookup. */
    method Lookup(obj: Word, hash: Word) returns (r: Option<Word>)
      requires Valid() && HashFits(rehash, Elements(), compare, obj, hash)
      ensures r.Some? <==> exists p :: p in Elements() && compare(obj, p)
      ensures r.Some? ==> r.value in Elements() && compare(obj, r.value)
    {
      hide Bucket, Cells, Contents, Tombs, Pow2, And, Drop, Bit, KindOf, RawPtr, ExtraBits, Meta, FoldOf, HomeOf;
      hide Rank, C, Words, Home, SoundFrom;
      var off;
      r, off := Find(obj, hash);
      if r.Some? {
        ContentsHas(Buckets(), off);
      }
    }

    /** htable_delval. */
    method DeleteAt(off: nat)
      requires Valid() && table != null && off < table.Length && Buckets()[off].Full?
      modifies this`elems, this`deleted, table
      ensures Valid() && Elements() == old(Elements()) - multiset{old(Buckets())[off].elem}
    {
      hide Bucket, Cells, Contents, Tombs, Pow2, And, Drop, Bit, KindOf, RawPtr, ExtraBits, Meta, FoldOf, HomeOf;
      hide SoundFrom, TopOf;
      ghost var w := table[..];
      assert Buckets()[off] == Decode(C(), w[off]);
      DeletedElement(C(), w, off);
      elems := elems - 1;
      table[off] := DELETED;
      deleted := deleted + 1;
      assert Words() == w[off := DELETED];
      hide Words, Decode;
    }

    /** shl_htable_remove. */
    method Remove(obj: Word, hash: Word) returns (r: Option<Word>)
      requires Valid() && HashFits(rehash, Elements(), compare, obj, hash)
      modifies this`elems, this`deleted, table
      ensures Valid()
      ensures r.Some? <==> exists p :: p in old(Elements()) && compare(obj, p)
      ensures r.Some? ==> r.value in old(Elements()) && compare(obj, r.value)
                          && Elements() == old(Elements()) - multiset{r.value}
      ensures r.None? ==> Elements() == old(Elements())
    {
      hide Bucket, Contents, Tombs, Pow2, And, Drop, Bit, RawPtr, ExtraBits, Meta, FoldOf, HomeOf, Rank, Home;
      hide SoundFrom;
      var off;
      r, off := Find(obj, hash);
      if r.Some? {
        ContentsHas(Buckets(), off);
        DeleteAt(off);
      }
    }

    // ----- iteration --------------------------------------------------------------------------------------

    /** htable_visit: every stored element is called back as often as it is stored. */
    method Visit() returns (calls: seq<Word>)
      requires Valid()
      ensures multiset(calls) == Elements()
    {
      hide Bucket, Cells, Contents, Tombs, Pow2, And, Drop, Bit, KindOf, RawPtr, ExtraBits, Meta, FoldOf, HomeOf;
      hide SoundFrom;
      if table == null {
        calls := [];
      } else {
        calls := VisitArray();
      }
    }

    method VisitArray() returns (calls: seq<Word>)
      requires table != null
      ensures multiset(calls) == Contents(Cells(C(), table[..]))
    {
      hide Cells, Contents, KindOf, RawPtr, Bit;
      calls := [];
      ghost var r, w := C(), table[..];
      assert Contents(Cells(r, w[..0])) == multiset{} by { EmptyTable(Cells(r, w[..0])); }
      for i := 0 to table.Length
        invariant multiset(calls) == Contents(Cells(r, w[..i]))
      {
        CellsPrefix(r, w, i);
        if IsValid(table[i]) {
          calls := calls + [RawPtr(mask, common, table[i])];
        }
      }
      assert w[..table.Length] == w;
    }

    /** shl_htable_this_or_next: the first bucket from i on that holds an element. */
    method ThisOrNext(i: nat) returns (k: Option<nat>)
      requires Valid()
      ensures k.Some? ==> i <= k.value < |Words()| && Buckets()[k.value].Full?
      ensures forall x :: i <= x < (if k.Some? then k.value else |Words()|) ==> !Buckets()[x].Full?
    {
      hide Bucket, Contents, Tombs, Pow2, And, Drop, Bit, RawPtr, ExtraBits, Meta, FoldOf, HomeOf, SoundFrom;
      if table == null {
        NoElements(Buckets());
        return None;
      }
      hide KindOf, SoundFrom;
      var j := i;
      while j < table.Length
        invariant i <= j && (j <= table.Length || j == i)
        invariant forall x :: i <= x < j && x < table.Length ==> !IsValid(table[x])
      {
        if IsValid(table[j]) {
          return Some(j);
        }
        j := j + 1;
      }
      return None;
    }

    /** htable_clear. */
    method Clear() returns (calls: seq<Word>)
      requires Valid()
      modifies this
      ensures Valid() && Elements() == multiset{} && table == null && mask == ALL && multiset(calls) == old(Elements())
    {
      hide Bucket, Pow2, And, Drop, Bit, RawPtr, ExtraBits, Meta, FoldOf, HomeOf, Contents, Tombs, Cells, KindOf;
      hide Home, SoundFrom;
      calls := Visit();
      Reset();
    }

    method Reset()
      modifies this
      ensures Valid() && Elements() == multiset{} && table == null && mask == ALL
    {
      NoLayout();
      hide Bucket, And, Bit, RawPtr, ExtraBits, Meta, FoldOf, HomeOf, Home, Contents, Tombs, Cells, KindOf, Pow2;
      hide Drop, SoundFrom;
      bits, elems, deleted, max, maxWithDeleted := 0, 0, 0, 0, 0;
      mask, common, perfect := ALL, 0, 0;
      table := null;
      AllEmpty(C(), Words());
    }
  }
}

/** Whole runs of hash-table operations. */
module HTableRun {
  import opened Options
  import opened Words64
  import opened HTableCells
  import opened HTableWords
  import opened HTableModel
  import opened HTable

  /** One caller step.  allocOk says whether an array can be allocated during it. */
  datatype Op =
    | Put(p: Word, allocOk: bool)
    | Delete(obj: Word, hash: Word)
    | Find(obj: Word, hash: Word)
    | Walk
    | Wipe

  /** What the caller sees. */
  datatype Event = Stored | Refused | Removed(p: Word) | Found(p: Word) | Missing | Visited(calls: seq<Word>)

  /** The specification: the elements with their multiplicities, and the size of the array as a power of two, 0 if
      there is none. */
  datatype Model = Model(elems: multiset<Word>, bits: nat)

  /** One step: the state before, the step, what was seen, the state after. */
  ghost predicate Explains(compare: (Word, Word) -> bool, s: Model, op: Op, ev: Event, s': Model) {
    match op
    case Put(p, allocOk) =>
      if |s.elems| + 1 <= Room(s.bits) then ev == Stored && s' == Model(s.elems + multiset{p}, s.bits)
      else if allocOk then ev == Stored && s' == Model(s.elems + multiset{p}, s.bits + 1)
      else ev == Refused && s' == s
    case Delete(obj, _) =>
      if ev.Removed? then ev.p in s.elems && compare(obj, ev.p) && s' == s.(elems := s.elems - multiset{ev.p})
      else ev == Missing && s' == s && forall p :: p in s.elems ==> !compare(obj, p)
    case Find(obj, _) =>
      && s' == s
      && if ev.Found? then ev.p in s.elems && compare(obj, ev.p)
         else ev == Missing && forall p :: p in s.elems ==> !compare(obj, p)
    case Walk => ev.Visited? && multiset(ev.calls) == s.elems && s' == s
    case Wipe => ev.Visited? && multiset(ev.calls) == s.elems && s' == Model(multiset{}, 0)
  }

  ghost function StateOf(t: Table): Model
    reads t, t.table
  {
    Model(t.Elements(), t.bits)
  }

  /** Addresses that can be kept in one table: above 1, and each showing a bit above bit 0 next to every other,
      the other's most significant bit or one that the other does not have. */
  ghost predicate Compatible(addresses: iset<Word>) {
    forall f, p :: f in addresses && p in addresses ==> IsValid(p) && Visible(f, p)
  }

  /** Addresses with a common most significant bit are compatible; others may be as well. */
  lemma SameTopIsCompatible(addresses: iset<Word>)
    requires forall f, p :: f in addresses && p in addresses ==> IsValid(p) && TopOf(f) == TopOf(p)
    ensures Compatible(addresses)
  {
    forall f, p | f in addresses && p in addresses ensures IsValid(p) && Visible(f, p) {
      TopIsSet(p);
    }
  }

  /** The caller's side: compatible addresses, and hashes that respect equality. */
  ghost predicate FairOp(t: Table, addresses: iset<Word>, op: Op) {
    match op
    case Put(p, _) => p in addresses
    case Delete(obj, hash) => forall p :: t.compare(obj, p) ==> t.rehash(p) == hash
    case Find(obj, hash) => forall p :: t.compare(obj, p) ==> t.rehash(p) == hash
    case _ => true
  }

  /** A table that has been used with these addresses only. */
  ghost predicate Ready(t: Table, addresses: iset<Word>)
    reads t, t.table
  {
    t.Valid() && (t.mask == ALL || t.first in addresses)
  }

  /** The room in the largest array whose buckets the code can address: 1 << bits is an int. */
  lemma LargestRoom()
    ensures Room(30) == 805_306_368
  {
    assert Pow2(6) == 64;
    hide Pow2;
    PowerBy8(6);
    PowerBy8(14);
    PowerBy8(22);
  }

  method Store(t: Table, ghost addresses: iset<Word>, p: Word, allocOk: bool) returns (ev: Event)
    requires Ready(t, addresses) && Compatible(addresses) && p in addresses && |t.Elements()| < 805_306_368
    modifies t, t.table
    ensures Ready(t, addresses) && (t.table == null || t.table == old(t.table) || fresh(t.table))
    ensures Explains(t.compare, old(StateOf(t)), Put(p, allocOk), ev, StateOf(t))
  {
    hide Contents, Tombs, Pow2, Bit, Cells, Bucket, And, KindOf, Meta, ExtraBits, RawPtr, FoldOf, HomeOf, Home;
    hide SoundFrom;
    hide TopOf, Drop, WordFor, Fitted, Table.Words, Table.Buckets, Table.Elements;
    assert IsValid(p) && t.Admits(p);
    AllHidden(p);
    LargestRoom();
    var ok, _ := t.Insert(p, t.rehash(p), allocOk);
    ev := if ok then Stored else Refused;
  }

  method Erase(t: Table, ghost addresses: iset<Word>, obj: Word, hash: Word) returns (ev: Event)
    requires Ready(t, addresses) && FairOp(t, addresses, Delete(obj, hash))
    modifies t`elems, t`deleted, t.table
    ensures Ready(t, addresses)
    ensures Explains(t.compare, old(StateOf(t)), Delete(obj, hash), ev, StateOf(t))
  {
    hide Contents, Tombs, Pow2, Bit, Cells, Bucket, And, KindOf, Meta, ExtraBits, RawPtr, FoldOf, HomeOf, Home;
    hide SoundFrom;
    hide TopOf, Drop, Table.Words, Table.Buckets, Table.C;
    ghost var s := StateOf(t);
    assert HashFits(t.rehash, s.elems, t.compare, obj, hash);
    hide Table.Elements, Room;
    var r := t.Remove(obj, hash);
    ev := if r.Some? then Removed(r.value) else Missing;
    RemovalExplained(t.compare, s, obj, hash, r, StateOf(t));
  }

  lemma RemovalExplained(compare: (Word, Word) -> bool, s: Model, obj: Word, hash: Word, r: Option<Word>, s': Model)
    requires s'.bits == s.bits && (r.Some? <==> exists p :: p in s.elems && compare(obj, p))
    requires r.Some? ==> r.value in s.elems && compare(obj, r.value) && s'.elems == s.elems - multiset{r.value}
    requires r.None? ==> s'.elems == s.elems
    ensures Explains(compare, s, Delete(obj, hash), if r.Some? then Removed(r.value) else Missing, s')
  {
  }

  method Seek(t: Table, ghost addresses: iset<Word>, obj: Word, hash: Word) returns (ev: Event)
    requires Ready(t, addresses) && FairOp(t, addresses, Find(obj, hash))
    ensures Explains(t.compare, StateOf(t), Find(obj, hash), ev, StateOf(t))
  {
    hide Contents, Tombs, Pow2, Bit, Cells, Bucket, And, KindOf, Meta, ExtraBits, RawPtr, FoldOf, HomeOf, Home;
    hide SoundFrom;
    hide TopOf, Drop, Table.Words, Table.Buckets, Table.C;
    assert HashFits(t.rehash, t.Elements(), t.compare, obj, hash);
    hide Table.Elements, Room;
    var r := t.Lookup(obj, hash);
    ev := if r.Some? then Found(r.value) else Missing;
  }

  method Sweep(t: Table, ghost addresses: iset<Word>) returns (ev: Event)
    requires Ready(t, addresses)
    modifies t
    ensures Ready(t, addresses) && t.table == null
    ensures Explains(t.compare, old(StateOf(t)), Wipe, ev, StateOf(t))
  {
    hide Contents, Tombs, Pow2, Bit, Cells, Bucket, And, KindOf, Meta, ExtraBits, RawPtr, FoldOf, HomeOf, Home;
    hide SoundFrom;
    hide TopOf, Drop, Table.Words, Table.Buckets, Table.C;
    var calls := t.Clear();
    ev := Visited(calls);
  }

  method Perform(t: Table, ghost addresses: iset<Word>, op: Op) returns (ev: Event)
    requires Ready(t, addresses) && Compatible(addresses) && FairOp(t, addresses, op)
    requires op.Put? ==> |t.Elements()| < 805_306_368
    modifies t, t.table
    ensures Ready(t, addresses) && (t.table == null || t.table == old(t.table) || fresh(t.table))
    ensures Explains(t.compare, old(StateOf(t)), op, ev, StateOf(t))
  {
    hide Contents, Tombs, Pow2, Bit, Cells, Bucket, And, KindOf, Meta, ExtraBits, RawPtr, FoldOf, HomeOf, Home;
    hide SoundFrom;
    hide TopOf, Drop, Table.Words, Table.Buckets, Table.C;
    match op
    case Put(p, allocOk) =>
      ev := Store(t, addresses, p, allocOk);
    case Delete(obj, hash) =>
      ev := Erase(t, addresses, obj, hash);
    case Find(obj, hash) =>
      ev := Seek(t, addresses, obj, hash);
    case Walk =>
      var calls := t.Visit();
      ev := Visited(calls);
    case Wipe =>
      ev := Sweep(t, addresses);
  }

  /** The events of a run are explained step by step by the multiset specification. */
  ghost predicate History(compare: (Word, Word) -> bool, m: Model, ops: seq<Op>, evs: seq<Event>, m': Model)
    requires |ops| == |evs|
  {
    if ops == [] then m' == m
    else
      var n := |ops| - 1;
      exists mid :: History(compare, m, ops[..n], evs[..n], mid) && Explains(compare, mid, ops[n], evs[n], m')
  }

  /** Whatever the run has seen so far, an insertion finds the table below its capacity. */
  ghost predicate Manageable(compare: (Word, Word) -> bool, m: Model, ops: seq<Op>) {
    forall i, evs, mid :: 0 <= i < |ops| && ops[i].Put? && |evs| == i && History(compare, m, ops[..i], evs, mid)
                          ==> |mid.elems| < 805_306_368
  }

  lemma HistorySnoc(compare: (Word, Word) -> bool, m: Model, ops: seq<Op>, evs: seq<Event>,
                    mid: Model, ev: Event, m': Model)
    requires |evs| < |ops| && History(compare, m, ops[..|evs|], evs, mid) && Explains(compare, mid, ops[|evs|], ev, m')
    ensures History(compare, m, ops[..|evs| + 1], evs + [ev], m')
  {
    var i := |evs|;
    assert ops[..i + 1][..i] == ops[..i] && (evs + [ev])[..i] == evs;
  }

  lemma StillManageable(compare: (Word, Word) -> bool, m: Model, ops: seq<Op>, evs: seq<Event>,
                        mid: Model)
    requires Manageable(compare, m, ops) && |evs| < |ops| && History(compare, m, ops[..|evs|], evs, mid)
    ensures ops[|evs|].Put? ==> |mid.elems| < 805_306_368
  {
  }

  /** One more step of a run that began with the elements m. */
  method Advance(t: Table, ghost addresses: iset<Word>, ghost m: Model, ops: seq<Op>, evs: seq<Event>)
    returns (evs': seq<Event>)
    requires Ready(t, addresses) && Compatible(addresses) && forall i :: 0 <= i < |ops| ==> FairOp(t, addresses, ops[i])
    requires Manageable(t.compare, m, ops)
    requires |evs| < |ops| && History(t.compare, m, ops[..|evs|], evs, StateOf(t))
    modifies t, t.table
    ensures Ready(t, addresses) && (t.table == null || t.table == old(t.table) || fresh(t.table))
    ensures |evs'| == |evs| + 1 && History(t.compare, m, ops[..|evs'|], evs', StateOf(t))
  {
    hide Contents, Tombs, Bit, Cells, Bucket, And, KindOf, Meta, ExtraBits, RawPtr, FoldOf, HomeOf, Home, Pow2, TopOf;
    hide SoundFrom;
    hide History, Table.Words, Table.Buckets, Table.Elements, Table.C;
    ghost var mid := StateOf(t);
    StillManageable(t.compare, m, ops, evs, mid);
    var ev := Perform(t, addresses, ops[|evs|]);
    HistorySnoc(t.compare, m, ops, evs, mid, ev, StateOf(t));
    evs' := evs + [ev];
  }

  /** Every run on compatible addresses, whatever allocations fail, is a run of the multiset specification. */
  method Run(t: Table, ghost addresses: iset<Word>, ops: seq<Op>) returns (evs: seq<Event>)
    requires Ready(t, addresses) && Compatible(addresses) && forall i :: 0 <= i < |ops| ==> FairOp(t, addresses, ops[i])
    requires Manageable(t.compare, StateOf(t), ops)
    modifies t, t.table
    ensures Ready(t, addresses) && |evs| == |ops|
    ensures History(t.compare, old(StateOf(t)), ops, evs, StateOf(t))
  {
    evs := [];
    ghost var m := StateOf(t);
    assert History(t.compare, m, ops[..0], evs, m);
    hide Contents, Tombs, Bit, Cells, Bucket, And, KindOf, Meta, ExtraBits, RawPtr, FoldOf, HomeOf, Home, Pow2, TopOf;
    hide SoundFrom;
    hide History, Table.Words, Table.Buckets, Table.Elements, Table.C;
    while |evs| < |ops|
      invariant Ready(t, addresses) && (t.table == null || t.table == old(t.table) || fresh(t.table))
      invariant |evs| <= |ops| && History(t.compare, m, ops[..|evs|], evs, StateOf(t))
    {
      evs := Advance(t, addresses, m, ops, evs);
    }
    assert ops[..|ops|] == ops;
  }

  // ----- other addresses ----------------------------------------------------------------------------------

  const NEW: Model := Model(multiset{}, 0)

  lemma HistoryOfOne(compare: (Word, Word) -> bool, f: Word, m: Model)
    ensures History(compare, NEW, [Put(f, true)], [Stored], m) <==> m == Model(multiset{f}, 1)
  {
    var ops, evs := [Put(f, true)], [Stored];
    assert ops[..0] == [] && evs[..0] == [];
    assert History(compare, NEW, [], [], NEW);
    assert multiset{} + multiset{f} == multiset{f};
    if m == Model(multiset{f}, 1) {
      assert History(compare, NEW, ops[..0], evs[..0], NEW) && Explains(compare, NEW, ops[0], evs[0], m);
    }
  }

  lemma HistoryOfTwo(compare: (Word, Word) -> bool, f: Word, p: Word, m: Model)
    ensures History(compare, NEW, [Put(f, true), Put(p, true)], [Stored, Stored], m)
            <==> m == Model(multiset{f} + multiset{p}, 2)
  {
    var ops, evs := [Put(f, true), Put(p, true)], [Stored, Stored];
    assert ops[..1] == [Put(f, true)] && evs[..1] == [Stored];
    var one := Model(multiset{f}, 1);
    assert Room(1) == 1;
    HistoryOfOne(compare, f, one);
    if m == Model(multiset{f} + multiset{p}, 2) {
      assert History(compare, NEW, ops[..1], evs[..1], one) && Explains(compare, one, ops[1], evs[1], m);
    }
    if History(compare, NEW, ops, evs, m) {
      var mid :| History(compare, NEW, ops[..1], evs[..1], mid) && Explains(compare, mid, ops[1], evs[1], m);
      HistoryOfOne(compare, f, mid);
    }
  }

  /** A new table in which all hashes are 0, with one element: the layout is made for it. */
  method PutFirst(f: Word) returns (t: Table)
    requires IsValid(f)
    ensures t.Valid() && t.Elements() == multiset{f} && t.elems == 1 && t.bits == 1
    ensures t.mask == Not(TopOf(f)) && t.common == And(f, t.mask) && t.perfect == 1 && t.first == f && t.mask != ALL
    ensures forall p :: t.rehash(p) == 0
    ensures fresh(t) && fresh(t.table)
  {
    t := new Table(_ => 0, (a, b) => a == b);
    AllHidden(f);
    hide Contents, Tombs, Pow2, Bit, Cells, Bucket, And, KindOf, Meta, ExtraBits, RawPtr, FoldOf, HomeOf, Home;
    hide SoundFrom;
    hide TopOf, Drop, WordFor, Not;
    var ok, _ := t.Insert(f, 0, true);
    assert multiset{} + multiset{f} == multiset{f};
  }

  lemma NothingDecoded(r: Coding, e: Word)
    requires !IsValid(e)
    ensures CellElems(Decode(r, e)) == multiset{}
  {
  }

  lemma SmallRoom()
    ensures Room(1) == 1
  {
  }

  /** The condition on the addresses is exact: with hash 0 for all elements, the run that stores f and then p is
      explained by the multiset specification iff p is visible next to f.  Otherwise both insertions are
      reported as successful and p is not in the table. */
  method PutTwo(f: Word, p: Word) returns (t: Table, evs: seq<Event>)
    requires IsValid(f) && IsValid(p)
    ensures evs == [Stored, Stored]
    ensures t.Elements() == if Visible(f, p) then multiset{f} + multiset{p} else multiset{f}
    ensures History(t.compare, NEW, [Put(f, true), Put(p, true)], evs, StateOf(t)) <==> Visible(f, p)
  {
    SmallRoom();
    hide Contents, Tombs, Pow2, Bit, Cells, Bucket, And, KindOf, Meta, ExtraBits, RawPtr, FoldOf, HomeOf, Home;
    hide SoundFrom;
    hide TopOf, Drop, WordFor, Not, History, Fitted, Room;
    t := PutFirst(f);
    ghost var r := t.C();
    var ok, at := t.Insert(p, 0, true);
    evs := [Stored, if ok then Stored else Refused];
    if !Visible(f, p) {
      LostWord(r, f, p, t.C(), at);
      NothingDecoded(t.C(), t.table[at]);
    }
    HistoryOfTwo(t.compare, f, p, StateOf(t));
  }
}

/** Whole runs of trie operations. */
module TrieRun {
  import opened Options
  import opened TrieKeys
  import opened CritBitTree
  import opened TrieShape
  import opened TrieHeap
  import opened TrieTraverse

  /** One caller step; allocOk says whether a node can be allocated during it. */
  datatype Op = Put(entry: Entry, allocOk: bool) | Delete(key: Key) | Find(key: Key) | Walk(prefix: Key) | Wipe

  /** What the caller sees. */
  datatype Event =
    | Inserted(status: Status, out: Option<Entry>)
    | Looked(found: Option<Entry>)
    | Visited(calls: seq<Entry>)

  ghost predicate WellFormedOp(t: Trie, op: Op) {
    match op
    case Put(e, _) => NulFree(e.key) && e != t.head
    case Delete(k) => NulFree(k)
    case Find(k) => NulFree(k)
    case Walk(p) => NulFree(p)
    case Wipe => true
  }

  ghost function KeysOf(m: set<Entry>): set<Key> {
    set e | e in m :: e.key
  }

  /** The entry with a key, if there is one. */
  ghost predicate Answers(m: set<Entry>, k: Key, found: Option<Entry>) {
    if found.Some? then found.value in m && found.value.key == k else k !in KeysOf(m)
  }

  ghost function InsertStatus(m: set<Entry>, e: Entry, allocOk: bool): Status {
    if !e.aligned then Fault
    else if e.key in KeysOf(m) then Already
    else if m != {} && !allocOk then NoMem
    else Ok
  }

  /** The set specification of one step: what the caller may see, given the entries before it.
      The head is what a visit without a prefix calls back instead of the entries. */
  ghost predicate Explains(head: Entry, m: set<Entry>, op: Op, ev: Event) {
    match op
    case Put(e, allocOk) =>
      && ev.Inserted? && ev.status == InsertStatus(m, e, allocOk)
      && (ev.status == Ok ==> ev.out == if m == {} then None else Some(e))
      && (ev.status == Already ==> ev.out.Some? && Answers(m, e.key, ev.out))
    case Delete(k) => ev.Looked? && Answers(m, k, ev.found)
    case Find(k) => ev.Looked? && Answers(m, k, ev.found)
    case Walk(p) => ev.Visited? && if p == [] && m != {} then ev.calls == [head] else VisitsMatches(ev.calls, m, p)
    case Wipe => ev.Visited? && VisitsMatches(ev.calls, m, [])
  }

  /** The entries after the step. */
  ghost function After(m: set<Entry>, op: Op, ev: Event): set<Entry> {
    match op
    case Put(e, _) => if ev.Inserted? && ev.status == Ok then m + {e} else m
    case Delete(_) => if ev.Looked? && ev.found.Some? then m - {ev.found.value} else m
    case Wipe => {}
    case _ => m
  }

  /** The keys of a trie are the keys of its entries. */
  lemma KeysAreStored(t: Trie)
    ensures t.KeySet() == KeysOf(t.Stored()) && (t.Stored() == {} <==> t.shape.None?)
  {
    if t.shape.Some? {
      var s := t.shape.value;
      EntrySetKeys(s);
      forall k | k in Keys(Abs(s)) ensures k in KeysOf(EntrySet(s)) {
        var e := EntryOfKey(s, k);
      }
      KeysNonEmpty(Abs(s));
      var k :| k in Keys(Abs(s));
      var e := EntryOfKey(s, k);
    }
  }

  method Insertion(t: Trie, e: Entry, allocOk: bool) returns (ev: Event)
    requires t.Valid() && NulFree(e.key) && e != t.head
    modifies t, t.live
    ensures t.Valid() && fresh(t.live - old(t.live))
    ensures Explains(t.head, old(t.Stored()), Put(e, allocOk), ev)
    ensures t.Stored() == After(old(t.Stored()), Put(e, allocOk), ev)
  {
    KeysAreStored(t);
    hide Keys, CritBit, Linked, Distinct, Nodes, EntrySet, Abs, SlotOf, KeysOf;
    KeysEmpty(t.Stored());
    var status, out := t.Insert(e, allocOk);
    ev := Inserted(status, out);
    if status == Already { KeyIn(t.Stored(), out.value); }
  }

  lemma KeysEmpty(m: set<Entry>)
    ensures KeysOf(m) == {} <==> m == {}
  {
    if e :| e in m { assert e.key in KeysOf(m); }
  }

  lemma KeyIn(m: set<Entry>, e: Entry)
    requires e in m
    ensures e.key in KeysOf(m)
  {
  }

  method Removal(t: Trie, k: Key) returns (ev: Event)
    requires t.Valid() && NulFree(k)
    modifies t, t.live
    ensures t.Valid() && t.live <= old(t.live)
    ensures Explains(t.head, old(t.Stored()), Delete(k), ev) && t.Stored() == After(old(t.Stored()), Delete(k), ev)
  {
    KeysAreStored(t);
    hide Keys, CritBit, Linked, Distinct, Nodes, EntrySet, Abs, SlotOf, KeysOf;
    var found, out := t.Remove(k);
    ev := Looked(if found then out else None);
  }

  method Clearing(t: Trie) returns (ev: Event)
    requires t.Valid()
    modifies t, t.live
    ensures t.Valid() && t.live == {}
    ensures Explains(t.head, old(t.Stored()), Wipe, ev) && t.Stored() == After(old(t.Stored()), Wipe, ev)
  {
    hide Keys, CritBit, Linked, Distinct, Nodes, Abs, SlotOf;
    ghost var m := t.Stored();
    var calls := Clear(t);
    ev := Visited(calls);
    forall i, j | 0 <= i < j < |calls| ensures Lex(calls[i].key, calls[j].key) {
      assert Lex(EntryKeys(calls)[i], EntryKeys(calls)[j]);
    }
    assert forall i :: 0 <= i < |calls| ==> calls[i] in m;
  }

  method Perform(t: Trie, op: Op) returns (ev: Event)
    requires t.Valid() && WellFormedOp(t, op)
    modifies t, t.live
    ensures t.Valid() && fresh(t.live - old(t.live))
    ensures Explains(t.head, old(t.Stored()), op, ev) && t.Stored() == After(old(t.Stored()), op, ev)
  {
    KeysAreStored(t);
    hide Keys, CritBit, Linked, Distinct, Nodes, EntrySet, Abs, SlotOf, KeysOf;
    match op
    case Put(e, allocOk) =>
      ev := Insertion(t, e, allocOk);
    case Delete(k) =>
      ev := Removal(t, k);
    case Find(k) =>
      var found, out := t.Lookup(k);
      ev := Looked(out);
    case Walk(p) =>
      var calls := Visit(t, p);
      ev := Visited(calls);
    case Wipe =>
      ev := Clearing(t);
  }

  /** The entries after a run. */
  ghost function Replay(m: set<Entry>, ops: seq<Op>, evs: seq<Event>): set<Entry>
    requires |evs| <= |ops|
  {
    if evs == [] then m
    else
      var n := |evs| - 1;
      After(Replay(m, ops, evs[..n]), ops[n], evs[n])
  }

  /** The events of a run are explained step by step by the set specification. */
  ghost predicate History(head: Entry, m: set<Entry>, ops: seq<Op>, evs: seq<Event>)
    requires |evs| <= |ops|
  {
    evs == [] ||
    var n := |evs| - 1;
    History(head, m, ops, evs[..n]) && Explains(head, Replay(m, ops, evs[..n]), ops[n], evs[n])
  }

  lemma HistorySnoc(head: Entry, m: set<Entry>, ops: seq<Op>, evs: seq<Event>, ev: Event)
    requires |evs| < |ops| && History(head, m, ops, evs) && Explains(head, Replay(m, ops, evs), ops[|evs|], ev)
    ensures History(head, m, ops, evs + [ev])
    ensures Replay(m, ops, evs + [ev]) == After(Replay(m, ops, evs), ops[|evs|], ev)
  {
    assert (evs + [ev])[..|evs|] == evs;
  }

  /** Every run, whatever allocations fail, is a run of the set specification: every status, every entry handed
      out and every callback is explained by the set of entries stored at that moment. */
  method Run(t: Trie, ops: seq<Op>) returns (evs: seq<Event>)
    requires t.Valid() && forall i :: 0 <= i < |ops| ==> WellFormedOp(t, ops[i])
    modifies t, t.live
    ensures t.Valid() && fresh(t.live - old(t.live)) && |evs| == |ops|
    ensures History(t.head, old(t.Stored()), ops, evs) && t.Stored() == Replay(old(t.Stored()), ops, evs)
  {
    evs := [];
    ghost var m := t.Stored();
    assert History(t.head, m, ops, evs) && Replay(m, ops, evs) == m;
    hide Keys, CritBit, Linked, Distinct, Nodes, EntrySet, Abs, SlotOf, KeysOf, History, Replay;
    for i := 0 to |ops|
      invariant t.Valid() && fresh(t.live - old(t.live)) && |evs| == i
      invariant History(t.head, m, ops, evs) && t.Stored() == Replay(m, ops, evs)
    {
      var ev := Perform(t, ops[i]);
      HistorySnoc(t.head, m, ops, evs, ev);
      evs := evs + [ev];
    }
  }

  /** The structure is a function of the key set alone, so no run leaves a trace in it. */
  lemma StructureFromKeys(t: Trie, u: Trie)
    requires t.Valid() && u.Valid() && t.KeySet() == u.KeySet()
    ensures t.Tree() == u.Tree()
  {
    CanonicalTrie(t.Tree(), u.Tree());
  }

  /** Inserting a new key and removing it again restores the original structure. */
  method InsertRemove(t: Trie, entry: Entry, allocOk: bool)
    requires t.Valid() && NulFree(entry.key) && entry != t.head && entry.key !in t.KeySet()
    modifies t, t.live
    ensures t.Valid() && t.Tree() == old(t.Tree())
  {
    ghost var before := t.Tree();
    assert CritBitTrie(before);
    hide Keys, CritBit, Linked, Distinct, Nodes, EntrySet, Abs, SlotOf;
    var status, _ := t.Insert(entry, allocOk);
    var _, _ := t.Remove(entry.key);
    assert TrieKeySet(t.Tree()) == TrieKeySet(before);
    CanonicalTrie(t.Tree(), before);
  }
}

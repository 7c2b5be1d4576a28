/** Heap nodes of the trie and the vocabulary for describing them.

    A child slot is a tagged pointer: null, a node or an entry, plus the visited mark that only
    exists during a traversal.  A Shape says which heap objects make up a sub-trie; a Context is a
    path from the root down to one slot, with the sub-tries left behind at every step. */
module TrieShape {
  import opened TrieKeys
  import opened CritBitTree

  type Otherbits = o: bv8 | IsOtherbits(o) witness 0x7f

  /** The user's storage of a key pointer; it must not move or change while it is stored. */
  class Entry {
    const key: Key
    const aligned: bool

    constructor (key: Key, aligned: bool)
      ensures this.key == key && this.aligned == aligned
    {
      this.key := key;
      this.aligned := aligned;
    }
  }

  datatype Target = Null | ToNode(node: Node) | ToEntry(entry: Entry)

  datatype Slot = Slot(target: Target, visited: bool)

  const EMPTY: Slot := Slot(Null, false)

  class Node {
    var child0: Slot
    var child1: Slot
    const byte: nat
    const otherbits: Otherbits

    constructor (byte: nat, otherbits: Otherbits)
      ensures this.byte == byte && this.otherbits == otherbits
    {
      this.byte := byte;
      this.otherbits := otherbits;
      child0, child1 := EMPTY, EMPTY;
    }
  }

  function PosOf(n: Node): nat {
    Position(n.byte, n.otherbits)
  }

  // ----- shapes -----------------------------------------------------------------------------

  datatype Shape = SLeaf(entry: Entry) | SNode(node: Node, zero: Shape, one: Shape)

  ghost function SlotOf(s: Shape): Slot {
    match s
    case SLeaf(e) => Slot(ToEntry(e), false)
    case SNode(n, _, _) => Slot(ToNode(n), false)
  }

  ghost function Abs(s: Shape): Tree {
    match s
    case SLeaf(e) => Leaf(e.key)
    case SNode(n, z, o) => Branch(PosOf(n), Abs(z), Abs(o))
  }

  ghost function Nodes(s: Shape): set<Node> {
    match s
    case SLeaf(_) => {}
    case SNode(n, z, o) => {n} + Nodes(z) + Nodes(o)
  }

  ghost function Entries(s: Shape): seq<Entry> {
    match s
    case SLeaf(e) => [e]
    case SNode(_, z, o) => Entries(z) + Entries(o)
  }

  ghost function EntryKeys(es: seq<Entry>): seq<Key> {
    seq(|es|, i requires 0 <= i < |es| => es[i].key)
  }

  lemma {:induction false} EntriesAreLeaves(s: Shape)
    ensures EntryKeys(Entries(s)) == Leaves(Abs(s))
  {
    match s
    case SLeaf(_) =>
    case SNode(_, z, o) =>
      EntriesAreLeaves(z); EntriesAreLeaves(o);
      assert EntryKeys(Entries(z) + Entries(o)) == EntryKeys(Entries(z)) + EntryKeys(Entries(o));
  }

  /** No node occurs twice. */
  ghost predicate Distinct(s: Shape) {
    match s
    case SLeaf(_) => true
    case SNode(n, z, o) =>
      n !in Nodes(z) && n !in Nodes(o) && Nodes(z) !! Nodes(o) && Distinct(z) && Distinct(o)
  }

  /** The heap links the nodes as the shape says, with no visited mark anywhere. */
  ghost predicate Linked(s: Shape)
    reads Nodes(s)
  {
    match s
    case SLeaf(_) => true
    case SNode(n, z, o) => n.child0 == SlotOf(z) && n.child1 == SlotOf(o) && Linked(z) && Linked(o)
  }

  ghost function LinkOf(s: Shape, n: Node): (Slot, Slot)
    requires n in Nodes(s)
  {
    if s.node == n then (SlotOf(s.zero), SlotOf(s.one))
    else if n in Nodes(s.zero) then LinkOf(s.zero, n)
    else LinkOf(s.one, n)
  }

  /** A linked shape fixes the contents of every child slot. */
  lemma {:induction false} LinkedFixesSlots(s: Shape, n: Node)
    requires Linked(s) && n in Nodes(s)
    ensures (n.child0, n.child1) == LinkOf(s, n)
  {
    if s.node != n {
      LinkedFixesSlots(if n in Nodes(s.zero) then s.zero else s.one, n);
    }
  }

  // ----- contexts -----------------------------------------------------------------------------

  datatype Context =
    | Hole
    | InZero(node: Node, one: Shape, up: Context)
    | InOne(node: Node, zero: Shape, up: Context)

  ghost function Plug(c: Context, s: Shape): Shape {
    match c
    case Hole => s
    case InZero(n, o, up) => Plug(up, SNode(n, s, o))
    case InOne(n, z, up) => Plug(up, SNode(n, z, s))
  }

  ghost function PlugTree(c: Context, t: Tree): Tree {
    match c
    case Hole => t
    case InZero(n, o, up) => PlugTree(up, Branch(PosOf(n), t, Abs(o)))
    case InOne(n, z, up) => PlugTree(up, Branch(PosOf(n), Abs(z), t))
  }

  lemma {:induction false} PlugAbs(c: Context, s: Shape)
    ensures Abs(Plug(c, s)) == PlugTree(c, Abs(s))
    decreases c
  {
    match c
    case Hole =>
    case InZero(n, o, up) => PlugAbs(up, SNode(n, s, o));
    case InOne(n, z, up) => PlugAbs(up, SNode(n, z, s));
  }

  ghost function ContextNodes(c: Context): set<Node> {
    match c
    case Hole => {}
    case InZero(n, o, up) => {n} + Nodes(o) + ContextNodes(up)
    case InOne(n, z, up) => {n} + Nodes(z) + ContextNodes(up)
  }

  ghost predicate DistinctContext(c: Context) {
    match c
    case Hole => true
    case InZero(n, s, up) =>
      n !in Nodes(s) && n !in ContextNodes(up) && Nodes(s) !! ContextNodes(up) && Distinct(s) && DistinctContext(up)
    case InOne(n, s, up) =>
      n !in Nodes(s) && n !in ContextNodes(up) && Nodes(s) !! ContextNodes(up) && Distinct(s) && DistinctContext(up)
  }

  /** A sub-trie fits a context when the two share no node. */
  ghost predicate Fits(c: Context, s: Shape) {
    Distinct(s) && DistinctContext(c) && Nodes(s) !! ContextNodes(c)
  }

  lemma {:induction false} PlugDistinct(c: Context, s: Shape)
    ensures Nodes(Plug(c, s)) == Nodes(s) + ContextNodes(c)
    ensures Distinct(Plug(c, s)) <==> Fits(c, s)
    decreases c
  {
    match c
    case Hole =>
    case InZero(n, o, up) =>
      PlugDistinct(up, SNode(n, s, o));
      assert Distinct(SNode(n, s, o)) && DistinctContext(up) && Nodes(SNode(n, s, o)) !! ContextNodes(up)
        <==> Fits(c, s);
    case InOne(n, z, up) =>
      PlugDistinct(up, SNode(n, z, s));
      assert Distinct(SNode(n, z, s)) && DistinctContext(up) && Nodes(SNode(n, z, s)) !! ContextNodes(up)
        <==> Fits(c, s);
  }

  /** The heap links the path nodes as the context says, with `hole` in the open slot. */
  ghost predicate LinkedContext(c: Context, hole: Slot)
    reads ContextNodes(c)
  {
    match c
    case Hole => true
    case InZero(n, o, up) =>
      n.child0 == hole && n.child1 == SlotOf(o) && Linked(o) && LinkedContext(up, Slot(ToNode(n), false))
    case InOne(n, z, up) =>
      n.child1 == hole && n.child0 == SlotOf(z) && Linked(z) && LinkedContext(up, Slot(ToNode(n), false))
  }

  lemma {:induction false} PlugLinked(c: Context, s: Shape)
    ensures Linked(Plug(c, s)) <==> Linked(s) && LinkedContext(c, SlotOf(s))
    decreases c
  {
    match c
    case Hole =>
    case InZero(n, o, up) => PlugLinked(up, SNode(n, s, o));
    case InOne(n, z, up) => PlugLinked(up, SNode(n, z, s));
  }

  /** What the root slot holds once s sits in the hole. */
  ghost function RootSlot(c: Context, hole: Slot): Slot {
    match c
    case Hole => hole
    case InZero(n, _, up) => RootSlot(up, Slot(ToNode(n), false))
    case InOne(n, _, up) => RootSlot(up, Slot(ToNode(n), false))
  }

  lemma {:induction false} PlugRoot(c: Context, s: Shape)
    ensures SlotOf(Plug(c, s)) == RootSlot(c, SlotOf(s))
    decreases c
  {
    match c
    case Hole =>
    case InZero(n, o, up) => PlugRoot(up, SNode(n, s, o));
    case InOne(n, z, up) => PlugRoot(up, SNode(n, z, s));
  }

  // ----- entries ---------------------------------------------------------------------------------

  ghost function EntrySet(s: Shape): set<Entry> {
    match s
    case SLeaf(e) => {e}
    case SNode(_, z, o) => EntrySet(z) + EntrySet(o)
  }

  ghost function ContextEntries(c: Context): set<Entry> {
    match c
    case Hole => {}
    case InZero(_, o, up) => EntrySet(o) + ContextEntries(up)
    case InOne(_, z, up) => EntrySet(z) + ContextEntries(up)
  }

  lemma {:induction false} PlugEntries(c: Context, s: Shape)
    ensures EntrySet(Plug(c, s)) == EntrySet(s) + ContextEntries(c)
    decreases c
  {
    match c
    case Hole =>
    case InZero(n, o, up) => PlugEntries(up, SNode(n, s, o));
    case InOne(n, z, up) => PlugEntries(up, SNode(n, z, s));
  }

  lemma {:induction false} EntrySetKeys(s: Shape)
    ensures forall e :: e in EntrySet(s) ==> e.key in Keys(Abs(s))
    ensures EntrySet(s) == set e | e in Entries(s)
  {
    match s
    case SLeaf(_) =>
    case SNode(_, z, o) => EntrySetKeys(z); EntrySetKeys(o);
  }

  /** Every key has its entry. */
  lemma {:induction false} EntryOfKey(s: Shape, k: Key) returns (e: Entry)
    requires k in Keys(Abs(s))
    ensures e in EntrySet(s) && e.key == k
  {
    match s
    case SLeaf(x) => e := x;
    case SNode(_, z, o) =>
      if k in Keys(Abs(z)) { e := EntryOfKey(z, k); } else { e := EntryOfKey(o, k); }
  }

  /** Different stored entries have different keys. */
  lemma {:induction false} EntryKeysInjective(s: Shape, a: Entry, b: Entry)
    requires CritBit(Abs(s)) && a in EntrySet(s) && b in EntrySet(s) && a.key == b.key
    ensures a == b
  {
    match s
    case SLeaf(_) =>
    case SNode(n, z, o) =>
      EntrySetKeys(z); EntrySetKeys(o);
      if a in EntrySet(z) {
        assert b in EntrySet(z);
        EntryKeysInjective(z, a, b);
      } else {
        assert b in EntrySet(o);
        EntryKeysInjective(o, a, b);
      }
  }

  // ----- walking down -----------------------------------------------------------------------------

  /** The path c leads from the slot `root` of the trie `whole` to its sub-trie s. */
  ghost predicate OnPath(whole: Shape, root: Slot, c: Context, s: Shape)
    reads Nodes(s), ContextNodes(c)
  {
    && Plug(c, s) == whole && Nodes(s) + ContextNodes(c) == Nodes(whole) && Fits(c, s)
    && Linked(s) && LinkedContext(c, SlotOf(s)) && root == RootSlot(c, SlotOf(s))
  }

  ghost function Below(c: Context, s: Shape, one: bool): Context
    requires s.SNode?
  {
    if one then InOne(s.node, s.zero, c) else InZero(s.node, s.one, c)
  }

  ghost function ChildOf(s: Shape, one: bool): Shape
    requires s.SNode?
  {
    if one then s.one else s.zero
  }

  lemma PathStart(whole: Shape)
    requires Distinct(whole) && Linked(whole)
    ensures OnPath(whole, SlotOf(whole), Hole, whole)
  {
  }

  lemma PathStep(whole: Shape, root: Slot, c: Context, s: Shape, one: bool)
    requires OnPath(whole, root, c, s) && s.SNode?
    ensures OnPath(whole, root, Below(c, s, one), ChildOf(s, one))
    ensures SlotOf(ChildOf(s, one)) == if one then s.node.child1 else s.node.child0
  {
  }

  /** Everything about the whole trie follows from the path and the sub-trie at its end. */
  lemma Reassemble(c: Context, s: Shape)
    requires Fits(c, s) && Linked(s) && LinkedContext(c, SlotOf(s))
    ensures var whole := Plug(c, s);
            && Distinct(whole) && Linked(whole) && Nodes(whole) == Nodes(s) + ContextNodes(c)
            && SlotOf(whole) == RootSlot(c, SlotOf(s)) && Abs(whole) == PlugTree(c, Abs(s))
            && EntrySet(whole) == EntrySet(s) + ContextEntries(c)
  {
    PlugAbs(c, s);
    PlugDistinct(c, s);
    PlugLinked(c, s);
    PlugRoot(c, s);
    PlugEntries(c, s);
  }
}

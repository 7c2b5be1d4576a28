/** The crit-bit trie on the heap: lookup, insert and remove. */
module TrieHeap {
  import opened Options
  import opened TrieKeys
  import opened CritBitTree
  import opened TrieShape

  datatype Status = Ok | Already | NoMem | Fault

  /** A `void **`: the address of the root slot or of a child slot. */
  datatype Where = AtRoot | AtChild(node: Node, one: bool)

  ghost function WhereOf(c: Context): Where {
    match c
    case Hole => AtRoot
    case InZero(n, _, _) => AtChild(n, false)
    case InOne(n, _, _) => AtChild(n, true)
  }

  class Trie {
    const head: Entry  // the trie's own address, as one reads it who takes it for an entry
    var root: Slot
    ghost var shape: Option<Shape>
    ghost var live: set<Node>  // nodes allocated and not freed

    ghost predicate Valid()
      reads this, live
    {
      match shape
      case None => root == EMPTY && live == {}
      case Some(s) =>
        && root == SlotOf(s) && live == Nodes(s) && Distinct(s) && Linked(s)
        && CritBit(Abs(s))
        && (forall e :: e in EntrySet(s) ==> e.aligned && e != head)
    }

    ghost function Tree(): Option<CritBitTree.Tree>
      reads this
    {
      if shape.Some? then Some(Abs(shape.value)) else None
    }

    ghost function KeySet(): set<Key>
      reads this
    {
      TrieKeySet(Tree())
    }

    ghost function Stored(): set<Entry>
      reads this
    {
      if shape.Some? then EntrySet(shape.value) else {}
    }

    constructor ()
      ensures Valid() && KeySet() == {} && fresh(live)
    {
      head := new Entry([], true);
      root := EMPTY;
      shape := None;
      live := {};
    }

    // ----- memory accesses: only nodes that have not been freed may be touched -----------------

    method Load(n: Node, one: bool) returns (s: Slot)
      requires n in live
      ensures s == if one then n.child1 else n.child0
    {
      s := if one then n.child1 else n.child0;
    }

    method Store(n: Node, one: bool, s: Slot)
      requires n in live
      modifies n`child0, n`child1
      ensures !one ==> n.child0 == s && n.child1 == old(n.child1)
      ensures one ==> n.child1 == s && n.child0 == old(n.child0)
    {
      if one { n.child1 := s; } else { n.child0 := s; }
    }

    method Free(n: Node)
      requires n in live
      modifies this`live
      ensures live == old(live) - {n}
    {
      live := live - {n};
    }

    method LoadAt(w: Where) returns (s: Slot)
      requires w.AtChild? ==> w.node in live
      ensures s == match w
                   case AtRoot => root
                   case AtChild(n, d) => if d then n.child1 else n.child0
    {
      if w.AtRoot? { s := root; } else { s := Load(w.node, w.one); }
    }

    /** Read through a path: the slot holds the sub-trie the context leaves open. */
    method StoreAt(w: Where, s: Slot, ghost c: Context, ghost hole: Slot)
      requires w == WhereOf(c) && DistinctContext(c) && ContextNodes(c) <= live
      requires LinkedContext(c, hole) && root == RootSlot(c, hole)
      modifies this`root, ContextNodes(c)
      ensures LinkedContext(c, s) && root == RootSlot(c, s)
    {
      if w.AtRoot? { root := s; } else { Store(w.node, w.one, s); }
    }

    // ----- lookup --------------------------------------------------------------------------------

    /** The branch a key takes at a node. */
    static method DirectionOf(node: Node, key: Key) returns (one: bool)
      ensures one == KBit(key, PosOf(node))
    {
      var c := if node.byte < |key| then key[node.byte] else 0;
      DirectionAtPosition(key, node.byte, node.otherbits);
      one := Direction(node.otherbits, c) == 1;
    }

    /** Follow single bits of the key until an entry is reached. */
    method Closest(key: Key) returns (entry: Entry)
      requires Valid() && shape.Some?
      ensures entry in Stored() && entry.key == Walk(Tree().value, key)
    {
      var iter := root;
      ghost var sub := shape.value;
      while iter.target.ToNode?
        invariant iter == SlotOf(sub) && Linked(sub) && Nodes(sub) <= live
        invariant EntrySet(sub) <= Stored()
        invariant Walk(Abs(sub), key) == Walk(Tree().value, key)
        decreases sub
      {
        var node := iter.target.node;
        var direction := DirectionOf(node, key);
        iter := Load(node, direction);
        sub := if direction then sub.one else sub.zero;
      }
      entry := iter.target.entry;
    }

    method Lookup(key: Key) returns (found: bool, out: Option<Entry>)
      requires Valid() && NulFree(key)
      ensures found <==> key in KeySet()
      ensures found <==> out.Some?
      ensures found ==> out.value in Stored() && out.value.key == key
    {
      if root.target.Null? {
        return false, None;
      }
      var entry := Closest(key);
      LookupIsMembership(Tree().value, key);
      if entry.key != key {
        return false, None;
      }
      return true, Some(entry);
    }

    // ----- insert --------------------------------------------------------------------------------

    /** First byte in which the closest match differs from the key, or None if they are equal. */
    static method FirstByte(found: Key, key: Key) returns (r: Option<nat>)
      requires NulFree(found) && NulFree(key)
      ensures r.None? <==> found == key
      ensures r.Some? ==> (forall i: nat :: i < r.value ==> At(found, i) == At(key, i))
                          && At(found, r.value) != At(key, r.value)
    {
      var b: nat := 0;
      while b < |key|
        invariant b <= |key|
        invariant forall i: nat :: i < b ==> At(found, i) == At(key, i)
      {
        if At(found, b) != key[b] {
          return Some(b);
        }
        b := b + 1;
      }
      if At(found, b) != 0 {
        return Some(b);
      }
      SameBytesSameKey(key, found);
      return None;
    }

    /** The position of the new node and the side on which the existing sub-trie goes. */
    static method NewPosition(found: Key, key: Key, newbyte: nat) returns (newotherbits: Otherbits, newdirection: bool)
      requires forall i: nat :: i < newbyte ==> At(found, i) == At(key, i)
      requires At(found, newbyte) != At(key, newbyte)
      ensures var d := Position(newbyte, newotherbits);
              Agree(found, key, d) && KBit(found, d) != KBit(key, d) && newdirection == KBit(found, d)
    {
      FirstDifference(found, key, newbyte);
      newotherbits := Smear(At(found, newbyte) ^ At(key, newbyte));
      DirectionAtPosition(found, newbyte, newotherbits);
      newdirection := Direction(newotherbits, At(found, newbyte)) == 1;
    }

    /** Compare the key with its closest match: where the new node goes, or None for a stored key. */
    method FindPosition(key: Key) returns (found: Entry, at: Option<(nat, Otherbits, bool)>)
      requires Valid() && shape.Some? && NulFree(key)
      ensures found in Stored()
      ensures at.None? <==> key in KeySet()
      ensures at.None? ==> found.key == key
      ensures at.Some? ==> var d := Position(at.value.0, at.value.1);
                           && at.value.2 == !KBit(key, d)
                           && CritBit(InsertAt(Tree().value, key, d))
                           && Keys(InsertAt(Tree().value, key, d)) == KeySet() + {key}
    {
      hide CritBit, Keys, Walk, KBit, InsertAt;
      ghost var t := Tree().value;
      found := Closest(key);
      WalkStored(t, key);
      StoredKeysNulFree(t, found.key);
      LookupIsMembership(t, key);
      var r := FirstByte(found.key, key);
      if r.None? {
        return found, None;
      }
      var newotherbits, newdirection := NewPosition(found.key, key, r.value);
      InsertKeepsCritBit(t, key, Position(r.value, newotherbits));
      InsertKeys(t, key, Position(r.value, newotherbits));
      return found, Some((r.value, newotherbits, newdirection));
    }

    method Insert(entry: Entry, allocOk: bool) returns (status: Status, out: Option<Entry>)
      requires Valid() && NulFree(entry.key) && entry != head
      modifies this, live
      ensures Valid() && fresh(live - old(live))
      ensures status == (if !entry.aligned then Fault
                         else if entry.key in old(KeySet()) then Already
                         else if old(KeySet()) != {} && !allocOk then NoMem
                         else Ok)
      ensures status == Ok ==> KeySet() == old(KeySet()) + {entry.key} && Stored() == old(Stored()) + {entry}
      ensures status == Ok && old(KeySet()) != {} ==> |live| == |old(live)| + 1
      ensures status == Ok ==> out == if old(KeySet()) == {} then None else Some(entry)
      ensures status != Ok ==> shape == old(shape) && live == old(live)
      ensures status == Already ==> out.Some? && out.value in Stored() && out.value.key == entry.key
    {
      if !entry.aligned {
        return Fault, None;
      }
      if root.target.Null? {
        root := Slot(ToEntry(entry), false);
        shape := Some(SLeaf(entry));
        return Ok, None;
      }
      KeysNonEmpty(Tree().value);
      status, out := InsertNext(entry, allocOk);
    }

    /** Insert into a trie that holds at least one entry. */
    method InsertNext(entry: Entry, allocOk: bool) returns (status: Status, out: Option<Entry>)
      requires Valid() && shape.Some? && NulFree(entry.key) && entry.aligned && entry != head
      modifies this, live
      ensures Valid() && fresh(live - old(live)) && old(KeySet()) != {}
      ensures status == if entry.key in old(KeySet()) then Already else if !allocOk then NoMem else Ok
      ensures status == Ok ==> KeySet() == old(KeySet()) + {entry.key} && Stored() == old(Stored()) + {entry}
      ensures status == Ok ==> |live| == |old(live)| + 1 && out == Some(entry)
      ensures status != Ok ==> shape == old(shape) && live == old(live)
      ensures status == Already ==> out.Some? && out.value in Stored() && out.value.key == entry.key
    {
      KeysNonEmpty(Tree().value);
      hide CritBit, Keys, KBit, InsertAt, EntrySet, Nodes, SlotOf, Linked, Distinct, Abs, Position;
      var found, at := FindPosition(entry.key);
      if at.None? {
        return Already, Some(found);
      }
      if !allocOk {
        return NoMem, None;
      }
      var new_ := new Node(at.value.0, at.value.1);
      LinkNew(entry, new_, at.value.2);
      return Ok, Some(entry);
    }

    /** The node does not share the prefix that ends at the new position. */
    static method LiesBehind(node: Node, newbyte: nat, newotherbits: Otherbits) returns (behind: bool)
      ensures behind <==> PosOf(node) > Position(newbyte, newotherbits)
    {
      PositionOrder(node.byte, node.otherbits, newbyte, newotherbits);
      behind := node.byte > newbyte || (node.byte == newbyte && node.otherbits > newotherbits);
    }

    /** The second walk: the slot in front of which a node at the new position belongs. */
    method FindSlot(key: Key, newbyte: nat, newotherbits: Otherbits)
      returns (where: Where, at: Slot, ghost ctx: Context, ghost sub: Shape)
      requires Valid() && shape.Some?
      ensures OnPath(shape.value, root, ctx, sub) && where == WhereOf(ctx) && at == SlotOf(sub)
      ensures var d := Position(newbyte, newotherbits);
              PlugTree(ctx, Graft(Abs(sub), key, d)) == InsertAt(Tree().value, key, d)
    {
      hide CritBit, Keys, KBit, Distinct, Linked, Position, Plug, Graft;
      ghost var d := Position(newbyte, newotherbits);
      ghost var t := Tree().value;
      where := AtRoot;
      ctx, sub := Hole, shape.value;
      PathStart(sub);
      at := LoadAt(where);
      while at.target.ToNode?
        invariant OnPath(shape.value, root, ctx, sub) && where == WhereOf(ctx) && at == SlotOf(sub)
        invariant Nodes(sub) <= live
        invariant PlugTree(ctx, InsertAt(Abs(sub), key, d)) == InsertAt(t, key, d)
        decreases sub
      {
        var node := at.target.node;
        var behind := LiesBehind(node, newbyte, newotherbits);
        if behind { break; }
        var direction := DirectionOf(node, key);
        where := AtChild(node, direction);
        PathStep(shape.value, root, ctx, sub, direction);
        ctx, sub := Below(ctx, sub, direction), ChildOf(sub, direction);
        at := LoadAt(where);
      }
    }

    /** The new node with the entry on one side and the existing sub-trie on the other. */
    static ghost function Grafted(new_: Node, entry: Entry, sub: Shape, newdirection: bool): Shape {
      if newdirection then SNode(new_, SLeaf(entry), sub) else SNode(new_, sub, SLeaf(entry))
    }

    static lemma GraftedShape(new_: Node, entry: Entry, sub: Shape, newdirection: bool)
      requires newdirection == !KBit(entry.key, PosOf(new_))
      ensures var g := Grafted(new_, entry, sub, newdirection);
              && Nodes(g) == {new_} + Nodes(sub) && EntrySet(g) == {entry} + EntrySet(sub)
              && Abs(g) == Graft(Abs(sub), entry.key, PosOf(new_))
    {
    }

    /** Fill in the new node and store it in the slot. */
    method Splice(entry: Entry, new_: Node, newdirection: bool, where: Where, at: Slot,
                  ghost ctx: Context, ghost sub: Shape)
      requires new_ in live && new_ !in Nodes(sub) && new_ !in ContextNodes(ctx)
      requires ContextNodes(ctx) <= live && Nodes(sub) <= live
      requires where == WhereOf(ctx) && at == SlotOf(sub)
      requires Fits(ctx, sub) && Linked(sub) && LinkedContext(ctx, at) && root == RootSlot(ctx, at)
      modifies this`root, ContextNodes(ctx), new_
      ensures var g := Grafted(new_, entry, sub, newdirection);
              Fits(ctx, g) && Linked(g) && LinkedContext(ctx, SlotOf(g)) && root == RootSlot(ctx, SlotOf(g))
    {
      hide RootSlot, LinkedContext, DistinctContext, WhereOf, ContextNodes;
      Store(new_, !newdirection, Slot(ToEntry(entry), false));
      Store(new_, newdirection, at);
      StoreAt(where, Slot(ToNode(new_), false), ctx, at);
      var leaf := SLeaf(entry);
      assert Nodes(leaf) == {} && Distinct(leaf) && Linked(leaf);
    }

    /** Splice the new node in front of the slot the second walk found. */
    method LinkNew(entry: Entry, new_: Node, newdirection: bool)
      requires Valid() && shape.Some? && entry.aligned && entry != head && new_ !in live
      requires newdirection == !KBit(entry.key, PosOf(new_))
      requires CritBit(InsertAt(Tree().value, entry.key, PosOf(new_)))
      modifies this, live, new_
      ensures Valid() && live == old(live) + {new_}
      ensures Tree() == Some(InsertAt(old(Tree().value), entry.key, PosOf(new_)))
      ensures Stored() == old(Stored()) + {entry}
    {
      hide Plug, PlugTree, RootSlot, LinkedContext, ContextNodes, ContextEntries, DistinctContext, CritBit, Keys;
      hide InsertAt, WhereOf, KBit, Position, Linked, Distinct, Nodes, EntrySet, SlotOf, Abs, Grafted, Graft;
      var where, at, ctx, sub := FindSlot(entry.key, new_.byte, new_.otherbits);
      PlugEntries(ctx, sub);
      GraftedShape(new_, entry, sub, newdirection);
      live := live + {new_};
      Splice(entry, new_, newdirection, where, at, ctx, sub);
      ghost var grafted := Grafted(new_, entry, sub, newdirection);
      Reassemble(ctx, grafted);
      shape := Some(Plug(ctx, grafted));
    }

    // ----- remove --------------------------------------------------------------------------------

    /** The sub-trie hanging off the last node of a non-empty path. */
    static ghost function ParentShape(ctx: Context, sub: Shape): Shape
      requires !ctx.Hole?
    {
      if ctx.InOne? then SNode(ctx.node, ctx.zero, sub) else SNode(ctx.node, sub, ctx.one)
    }

    static ghost function SiblingShape(ctx: Context): Shape
      requires !ctx.Hole?
    {
      if ctx.InOne? then ctx.zero else ctx.one
    }

    /** The removal so far: only the sub-trie of the last node on the path remains to be changed. */
    static ghost predicate Removing(t: CritBitTree.Tree, key: Key, ctx: Context, sub: Shape) {
      if ctx.Hole? then t == Abs(sub)
      else
        && ctx.InOne? == KBit(key, PosOf(ctx.node))
        && RemoveFrom(t, key) == Some(PlugTree(ctx.up, RemoveFrom(Abs(ParentShape(ctx, sub)), key).value))
    }

    static lemma RemovingStart(key: Key, sub: Shape)
      ensures Removing(Abs(sub), key, Hole, sub)
    {
    }

    static lemma RemovingStep(t: CritBitTree.Tree, key: Key, ctx: Context, sub: Shape)
      requires Removing(t, key, ctx, sub) && sub.SNode?
      ensures var one := KBit(key, PosOf(sub.node)); Removing(t, key, Below(ctx, sub, one), ChildOf(sub, one))
    {
      hide KBit, Position;
      if !ctx.Hole? {
        var rest := RemoveFrom(Abs(sub), key).value;
        assert RemoveFrom(Abs(ParentShape(ctx, sub)), key).value
            == if ctx.InOne? then Branch(PosOf(ctx.node), Abs(ctx.zero), rest)
               else Branch(PosOf(ctx.node), rest, Abs(ctx.one));
      }
    }

    static lemma RemovingEnd(t: CritBitTree.Tree, key: Key, ctx: Context, sub: Shape)
      requires Removing(t, key, ctx, sub) && sub.SLeaf?
      ensures !ctx.Hole? ==> RemoveFrom(t, key) == Some(PlugTree(ctx.up, Abs(SiblingShape(ctx))))
    {
      if !ctx.Hole? {
        assert Abs(sub).Leaf?;
        assert RemoveFrom(Abs(ParentShape(ctx, sub)), key) == Some(Abs(SiblingShape(ctx)));
      }
    }

    /** Walk to the closest entry, remembering the slot that holds its parent node. */
    method FindParent(key: Key) returns (entry: Entry, parent: Option<(Where, Node, bool)>, ghost ctx: Context)
      requires Valid() && shape.Some?
      ensures OnPath(shape.value, root, ctx, SLeaf(entry)) && entry.key == Walk(Tree().value, key)
      ensures parent.None? <==> ctx.Hole?
      ensures parent.Some? ==> parent.value == (WhereOf(ctx.up), ctx.node, ctx.InOne?)
      ensures parent.Some? ==> RemoveFrom(Tree().value, key) == Some(PlugTree(ctx.up, Abs(SiblingShape(ctx))))
    {
      hide CritBit, Keys, KBit, Distinct, Linked, Position, Plug, RemoveFrom, PlugTree;
      ghost var t := Tree().value;
      parent := None;
      ctx := Hole;
      ghost var sub := shape.value;
      PathStart(sub);
      var where := AtRoot;
      var at := LoadAt(where);
      RemovingStart(key, sub);
      while at.target.ToNode?
        invariant OnPath(shape.value, root, ctx, sub) && where == WhereOf(ctx) && at == SlotOf(sub)
        invariant Nodes(sub) <= live && Walk(Abs(sub), key) == Walk(t, key)
        invariant parent.None? <==> ctx.Hole?
        invariant parent.Some? ==> parent.value == (WhereOf(ctx.up), ctx.node, ctx.InOne?)
        invariant Removing(t, key, ctx, sub)
        decreases sub
      {
        var node := at.target.node;
        var direction := DirectionOf(node, key);
        parent := Some((where, node, direction));
        where := AtChild(node, direction);
        PathStep(shape.value, root, ctx, sub, direction);
        RemovingStep(t, key, ctx, sub);
        ctx, sub := Below(ctx, sub, direction), ChildOf(sub, direction);
        at := LoadAt(where);
      }
      RemovingEnd(t, key, ctx, sub);
      entry := at.target.entry;
    }

    /** Overwrite the parent's slot with the sibling. */
    method Unlink(w: Where, node: Node, direction: bool, ghost ctx: Context, ghost entry: Entry)
      requires !ctx.Hole? && w == WhereOf(ctx.up) && node == ctx.node && direction == ctx.InOne?
      requires shape.Some? && live == Nodes(shape.value) && OnPath(shape.value, root, ctx, SLeaf(entry))
      modifies this`root, live
      ensures var sib := SiblingShape(ctx);
              && Fits(ctx.up, sib) && Linked(sib) && LinkedContext(ctx.up, SlotOf(sib))
              && root == RootSlot(ctx.up, SlotOf(sib))
              && Nodes(sib) + ContextNodes(ctx.up) == live - {node} && node in live
    {
      var sibling := Load(node, !direction);
      StoreAt(w, sibling, ctx.up, Slot(ToNode(node), false));
    }

    method Remove(key: Key) returns (found: bool, out: Option<Entry>)
      requires Valid() && NulFree(key)
      modifies this, live
      ensures Valid() && live <= old(live)
      ensures found <==> key in old(KeySet())
      ensures found ==> out.Some? && out.value in old(Stored()) && out.value.key == key
      ensures found ==> KeySet() == old(KeySet()) - {key} && Stored() == old(Stored()) - {out.value}
      ensures found && shape.Some? ==> |live| == |old(live)| - 1
      ensures !found ==> out.None? && shape == old(shape) && live == old(live)
    {
      if root.target.Null? {
        return false, None;
      }
      found, out := RemoveNext(key);
    }

    method RemoveNext(key: Key) returns (found: bool, out: Option<Entry>)
      requires Valid() && NulFree(key) && shape.Some?
      modifies this, live
      ensures Valid() && live <= old(live)
      ensures found <==> key in old(KeySet())
      ensures found ==> out.Some? && out.value in old(Stored()) && out.value.key == key
      ensures found ==> Tree() == RemoveFrom(old(Tree()).value, key)
      ensures found ==> KeySet() == old(KeySet()) - {key} && Stored() == old(Stored()) - {out.value}
      ensures found && shape.Some? ==> |live| == |old(live)| - 1
      ensures !found ==> out.None? && shape == old(shape) && live == old(live)
    {
      hide CritBit, Keys, Walk, RemoveFrom, PlugTree, Linked, Distinct, Nodes, SlotOf, EntrySet;
      ghost var t := Tree().value;
      var entry, parent, ctx := FindParent(key);
      LookupIsMembership(t, key);
      if entry.key != key {
        return false, None;
      }
      RemoveDeletesKey(t, key);
      if parent.None? {
        RemoveLast(ctx, entry);
      } else {
        RemoveBelow(parent.value.0, parent.value.1, parent.value.2, ctx, entry);
      }
      return true, Some(entry);
    }

    /** The trie holds a single entry: it becomes empty. */
    method RemoveLast(ghost ctx: Context, ghost entry: Entry)
      requires Valid() && shape.Some? && ctx.Hole? && OnPath(shape.value, root, ctx, SLeaf(entry))
      modifies this
      ensures Valid() && shape == None && live == {} && old(live) == {}
      ensures old(Tree()) == Some(Leaf(entry.key)) && old(Stored()) == {entry}
    {
      root := EMPTY;
      shape := None;
    }

    static lemma SplitEntries(whole: Shape, root: Slot, ctx: Context, entry: Entry)
      requires !ctx.Hole? && OnPath(whole, root, ctx, SLeaf(entry))
      ensures EntrySet(whole) == {entry} + EntrySet(SiblingShape(ctx)) + ContextEntries(ctx.up)
    {
      PlugEntries(ctx, SLeaf(entry));
    }

    /** Replace the parent node by the sibling of the entry and free it. */
    method RemoveBelow(w: Where, node: Node, direction: bool, ghost ctx: Context, ghost entry: Entry)
      requires !ctx.Hole? && w == WhereOf(ctx.up) && node == ctx.node && direction == ctx.InOne?
      requires Valid() && shape.Some? && OnPath(shape.value, root, ctx, SLeaf(entry))
      requires var t := PlugTree(ctx.up, Abs(SiblingShape(ctx))); CritBit(t) && entry.key !in Keys(t)
      modifies this, live
      ensures Valid() && live == old(live) - {node} && node in old(live)
      ensures Tree() == Some(PlugTree(ctx.up, Abs(SiblingShape(ctx))))
      ensures entry in old(Stored()) && Stored() == old(Stored()) - {entry}
    {
      hide CritBit, Keys, PlugTree, LinkedContext, RootSlot, Plug, DistinctContext, WhereOf,
        Linked, Distinct, ContextNodes, ContextEntries, EntrySet, Nodes, Abs, SlotOf;
      ghost var sib := SiblingShape(ctx);
      SplitEntries(shape.value, root, ctx, entry);
      Unlink(w, node, direction, ctx, entry);
      Free(node);
      Reassemble(ctx.up, sib);
      shape := Some(Plug(ctx.up, sib));
      EntrySetKeys(shape.value);
    }
  }
}

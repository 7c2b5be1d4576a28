/** Stackless traversal by pointer reversal, and what is built on it: clear and prefix visit. */
module TrieTraverse {
  import opened Options
  import opened TrieKeys
  import opened CritBitTree
  import opened TrieShape
  import opened TrieHeap

  // ----- what the heap looks like in the middle of a traversal ---------------------------------

  /** The parent pointer of the sub-trie in the hole of c. */
  ghost function ParentOf(c: Context): Target {
    match c
    case Hole => Null
    case InZero(n, _, _) => ToNode(n)
    case InOne(n, _, _) => ToNode(n)
  }

  /** Nodes of the context that are still allocated. */
  ghost function Pending(c: Context, free: bool): set<Node> {
    match c
    case Hole => {}
    case InZero(n, o, up) => {n} + Nodes(o) + Pending(up, free)
    case InOne(n, z, up) => {n} + (if free then {} else Nodes(z)) + Pending(up, free)
  }

  /** Nodes on the path hold their parent, marked as visited, in the slot they descended through.
      A finished left sub-trie is intact unless it has been freed. */
  ghost predicate Reversed(c: Context, free: bool)
    reads Pending(c, free)
  {
    match c
    case Hole => true
    case InZero(n, o, up) =>
      n.child0 == Slot(ParentOf(up), true) && n.child1 == SlotOf(o) && Linked(o) && Reversed(up, free)
    case InOne(n, z, up) =>
      n.child1 == Slot(ParentOf(up), true) && n.child0 == SlotOf(z) && (free || Linked(z)) && Reversed(up, free)
  }

  /** Entries still to be visited after the hole is done. */
  ghost function Rest(c: Context): seq<Entry> {
    match c
    case Hole => []
    case InZero(_, o, up) => Entries(o) + Rest(up)
    case InOne(_, _, up) => Rest(up)
  }

  ghost function Cost(s: Shape): nat {
    match s
    case SLeaf(_) => 1
    case SNode(_, z, o) => 3 + Cost(z) + Cost(o)
  }

  ghost function Work(c: Context): nat {
    match c
    case Hole => 0
    case InZero(_, o, up) => 2 + Cost(o) + Work(up)
    case InOne(_, _, up) => 1 + Work(up)
  }

  lemma {:induction false} PendingInContext(c: Context, free: bool)
    ensures Pending(c, free) <= ContextNodes(c)
    ensures !free ==> Pending(c, free) == ContextNodes(c)
  {
    match c
    case Hole =>
    case InZero(_, _, up) => PendingInContext(up, free);
    case InOne(_, _, up) => PendingInContext(up, free);
  }

  /** The traversal is about to enter (down) or has just left the sub-trie cur. */
  ghost predicate Going(t: Trie, free: bool, others: set<Node>, ctx: Context, cur: Shape, down: bool,
                        iter: Slot, parent: Slot)
    reads t, Nodes(cur), Pending(ctx, free)
  {
    && Fits(ctx, cur) && Reversed(ctx, free) && (down || !free ==> Linked(cur))
    && iter == (if down then SlotOf(cur) else Slot(ParentOf(ctx), false))
    && parent == (if down then Slot(ParentOf(ctx), false) else SlotOf(cur))
    && !iter.visited && !parent.visited
    && Pending(ctx, free) <= t.live && (down || !free ==> Nodes(cur) <= t.live)
    && t.live == others + Pending(ctx, free) + (if down || !free then Nodes(cur) else {})
    && others !! Nodes(cur) + ContextNodes(ctx)
  }

  /** Entering a node: store the parent, marked, in the left slot. */
  method EnterLeft(t: Trie, free: bool, node: Node, child0: Slot, parent: Slot,
                   ghost others: set<Node>, ghost ctx: Context, ghost cur: Shape)
    returns (iter: Slot)
    requires cur.SNode? && node == cur.node && child0 == node.child0
    requires Going(t, free, others, ctx, cur, true, Slot(ToNode(node), false), parent)
    modifies node`child0, node`child1
    ensures Going(t, free, others, InZero(node, cur.one, ctx), cur.zero, true, iter, Slot(ToNode(node), false))
  {
    PendingInContext(ctx, free);
    iter := child0;
    t.Store(node, false, Slot(parent.target, true));
  }

  /** Back from the left: restore the left slot and move the marked parent to the right one. */
  method TurnRight(t: Trie, free: bool, node: Node, child0: Slot, child1: Slot, parent: Slot,
                   ghost others: set<Node>, ghost ctx: Context, ghost cur: Shape)
    returns (iter: Slot)
    requires ctx.InZero? && node == ctx.node && child0 == node.child0 && child1 == node.child1
    requires Going(t, free, others, ctx, cur, false, Slot(ToNode(node), false), parent)
    modifies node`child0, node`child1
    ensures Going(t, free, others, InOne(node, cur, ctx.up), ctx.one, true, iter, Slot(ToNode(node), false))
  {
    PendingInContext(ctx.up, free);
    iter := child1;
    t.Store(node, true, child0);
    t.Store(node, false, Slot(parent.target, false));
  }

  /** Back from the right: the node is done; free it or restore its right slot. */
  method Leave(t: Trie, free: bool, node: Node, child1: Slot, parent: Slot,
               ghost others: set<Node>, ghost ctx: Context, ghost cur: Shape)
    returns (iter: Slot)
    requires ctx.InOne? && node == ctx.node && child1 == node.child1
    requires Going(t, free, others, ctx, cur, false, Slot(ToNode(node), false), parent)
    modifies node`child0, node`child1, t`live
    ensures Going(t, free, others, ctx.up, SNode(node, ctx.zero, cur), false, iter, Slot(ToNode(node), false))
  {
    PendingInContext(ctx.up, free);
    iter := Slot(child1.target, false);
    if free {
      t.Free(node);
    } else {
      t.Store(node, true, Slot(parent.target, false));
    }
  }

  /** Entries the traversal still has to call back. */
  ghost function Todo(ctx: Context, cur: Shape, down: bool): seq<Entry> {
    (if down then Entries(cur) else []) + Rest(ctx)
  }

  ghost function Measure(ctx: Context, cur: Shape, down: bool): nat {
    Work(ctx) + if down then Cost(cur) else 0
  }

  lemma EnterKeepsTodo(ctx: Context, cur: Shape)
    requires cur.SNode?
    ensures var c := InZero(cur.node, cur.one, ctx);
            && Todo(c, cur.zero, true) == Todo(ctx, cur, true) && Plug(c, cur.zero) == Plug(ctx, cur)
            && Measure(c, cur.zero, true) < Measure(ctx, cur, true)
            && Nodes(cur.zero) + ContextNodes(c) == Nodes(cur) + ContextNodes(ctx)
  {
  }

  lemma TurnKeepsTodo(ctx: Context, cur: Shape)
    requires ctx.InZero?
    ensures var c := InOne(ctx.node, cur, ctx.up);
            && Todo(c, ctx.one, true) == Todo(ctx, cur, false) && Plug(c, ctx.one) == Plug(ctx, cur)
            && Measure(c, ctx.one, true) < Measure(ctx, cur, false)
            && Nodes(ctx.one) + ContextNodes(c) == Nodes(cur) + ContextNodes(ctx)
  {
  }

  lemma LeaveKeepsTodo(ctx: Context, cur: Shape)
    requires ctx.InOne?
    ensures var s := SNode(ctx.node, ctx.zero, cur);
            && Todo(ctx.up, s, false) == Todo(ctx, cur, false) && Plug(ctx.up, s) == Plug(ctx, cur)
            && Measure(ctx.up, s, false) < Measure(ctx, cur, false)
            && Nodes(s) + ContextNodes(ctx.up) == Nodes(cur) + ContextNodes(ctx)
  {
  }

  /** One step at a node; the two visited marks tell which of the three steps it is. */
  method NodeStep(t: Trie, free: bool, node: Node, parent: Slot,
                  ghost others: set<Node>, ghost ctx: Context, ghost cur: Shape, ghost down: bool)
    returns (iter: Slot, ghost ctx': Context, ghost cur': Shape, ghost down': bool)
    requires Going(t, free, others, ctx, cur, down, Slot(ToNode(node), false), parent)
    modifies node`child0, node`child1, t`live
    ensures Going(t, free, others, ctx', cur', down', iter, Slot(ToNode(node), false))
    ensures Plug(ctx', cur') == Plug(ctx, cur) && Nodes(cur') + ContextNodes(ctx') == Nodes(cur) + ContextNodes(ctx)
    ensures Todo(ctx', cur', down') == Todo(ctx, cur, down)
    ensures Measure(ctx', cur', down') < Measure(ctx, cur, down)
  {
    if cur.SNode? { EnterKeepsTodo(ctx, cur); }
    if ctx.InZero? { TurnKeepsTodo(ctx, cur); }
    if ctx.InOne? { LeaveKeepsTodo(ctx, cur); }
    assert node in t.live;
    var child1 := t.Load(node, true);
    var child0 := t.Load(node, false);
    hide Plug, Todo, Measure, ContextNodes, DistinctContext, Distinct, Nodes, Entries, Rest;
    if child1.visited {
      iter := Leave(t, free, node, child1, parent, others, ctx, cur);
      ctx', cur', down' := ctx.up, SNode(node, ctx.zero, cur), false;
    } else if child0.visited {
      iter := TurnRight(t, free, node, child0, child1, parent, others, ctx, cur);
      ctx', cur', down' := InOne(node, cur, ctx.up), ctx.one, true;
    } else {
      iter := EnterLeft(t, free, node, child0, parent, others, ctx, cur);
      ctx', cur', down' := InZero(node, cur.one, ctx), cur.zero, true;
    }
  }

  lemma StartStep(t: Trie, free: bool, sub: Shape)
    requires Linked(sub) && Distinct(sub) && Nodes(sub) <= t.live
    ensures Going(t, free, t.live - Nodes(sub), Hole, sub, true, SlotOf(sub), EMPTY)
    ensures Plug(Hole, sub) == sub && Nodes(sub) + ContextNodes(Hole) == Nodes(sub)
    ensures Todo(Hole, sub, true) == Entries(sub)
  {
  }

  lemma LeafStep(t: Trie, free: bool, others: set<Node>, ctx: Context, cur: Shape, down: bool, iter: Slot, parent: Slot)
    requires Going(t, free, others, ctx, cur, down, iter, parent) && iter.target.ToEntry?
    ensures down && cur == SLeaf(iter.target.entry)
    ensures Going(t, free, others, ctx, cur, false, parent, Slot(ToEntry(iter.target.entry), false))
    ensures Todo(ctx, cur, true) == [iter.target.entry] + Todo(ctx, cur, false)
    ensures Measure(ctx, cur, false) < Measure(ctx, cur, true)
  {
  }

  lemma LastStep(t: Trie, free: bool, others: set<Node>, ctx: Context, cur: Shape, down: bool, parent: Slot)
    requires Going(t, free, others, ctx, cur, down, EMPTY, parent)
    ensures Plug(ctx, cur) == cur && Todo(ctx, cur, down) == []
    ensures !free ==> Linked(cur) && t.live == others + Nodes(cur)
    ensures free ==> t.live == others
  {
  }

  /** shl_trie_traverse: iter and parent are the only state besides the trie itself.  Without the
      free flag every slot ends as it was; with it exactly the nodes of the sub-trie are freed. */
  method Traverse(t: Trie, subTrie: Slot, free: bool, ghost sub: Shape) returns (calls: seq<Entry>)
    requires subTrie == SlotOf(sub) && Linked(sub) && Distinct(sub) && Nodes(sub) <= t.live
    modifies t`live, Nodes(sub)`child0, Nodes(sub)`child1
    ensures calls == Entries(sub)
    ensures !free ==> Linked(sub) && t.live == old(t.live)
    ensures !free ==> forall n :: n in Nodes(sub) ==> n.child0 == old(n.child0) && n.child1 == old(n.child1)
    ensures free ==> t.live == old(t.live) - Nodes(sub)
  {
    forall n | n in Nodes(sub) ensures (n.child0, n.child1) == LinkOf(sub, n) { LinkedFixesSlots(sub, n); }
    calls := [];
    var parent := EMPTY;
    var iter := subTrie;
    ghost var ctx, cur, down := Hole, sub, true;
    ghost var others := t.live - Nodes(sub);
    StartStep(t, free, sub);
    hide Plug, Measure, DistinctContext, Distinct, Nodes, Linked, Entries, Rest, Todo, Pending, Reversed;
    hide ContextNodes, SlotOf;
    while !iter.target.Null?
      invariant Plug(ctx, cur) == sub && Nodes(cur) + ContextNodes(ctx) == Nodes(sub)
      invariant Going(t, free, others, ctx, cur, down, iter, parent)
      invariant calls + Todo(ctx, cur, down) == Entries(sub)
      decreases Measure(ctx, cur, down)
    {
      if !iter.target.ToNode? {
        var entry := iter.target.entry;
        LeafStep(t, free, others, ctx, cur, down, iter, parent);
        calls := calls + [entry];
        iter := parent;
        parent := Slot(ToEntry(entry), false);
        down := false;
      } else {
        var node := iter.target.node;
        iter, ctx, cur, down := NodeStep(t, free, node, parent, others, ctx, cur, down);
        parent := Slot(ToNode(node), false);
      }
    }
    LastStep(t, free, others, ctx, cur, down, parent);
    if !free {
      forall n | n in Nodes(sub) ensures (n.child0, n.child1) == LinkOf(sub, n) { LinkedFixesSlots(sub, n); }
    }
  }

  /** shl_trie_clear: every entry is called back once, in order, and no node stays allocated. */
  method Clear(t: Trie) returns (calls: seq<Entry>)
    requires t.Valid()
    modifies t, t.live
    ensures t.Valid() && t.shape.None? && t.live == {}
    ensures (set e | e in calls) == old(t.Stored())
    ensures StrictlyAscending(EntryKeys(calls))
  {
    calls := [];
    if !t.root.target.Null? {
      ghost var s := t.shape.value;
      EntrySetKeys(s);
      EntriesAreLeaves(s);
      LeavesAscend(Abs(s));
      calls := Traverse(t, t.root, true, s);
    }
    t.root := EMPTY;
    t.shape := None;
  }

  // ----- prefix visit -------------------------------------------------------------------------------

  /** The documented result: exactly the stored entries with the prefix, each once, in order. */
  ghost predicate VisitsMatches(calls: seq<Entry>, stored: set<Entry>, prefix: Key) {
    && (forall i :: 0 <= i < |calls| ==> calls[i] in stored && HasPrefix(calls[i].key, prefix))
    && (forall e :: e in stored && HasPrefix(e.key, prefix) ==> e in calls)
    && (forall i, j :: 0 <= i < j < |calls| ==> Lex(calls[i].key, calls[j].key))
  }

  method MatchesPrefix(key: Key, prefix: Key) returns (b: bool)
    requires NulFree(prefix)
    ensures b <==> HasPrefix(key, prefix)
  {
    AgreeBytes(key, prefix, |prefix|);
    PrefixBits(key, prefix);
    for i := 0 to |prefix|
      invariant forall j: nat :: j < i ==> At(key, j) == At(prefix, j)
    {
      if prefix[i] != At(key, i) {
        return false;
      }
    }
    return true;
  }

  /** The walk that remembers the last sub-trie reached inside the prefix. */
  method FindTop(t: Trie, prefix: Key) returns (top: Slot, entry: Entry, ghost topShape: Shape)
    requires t.Valid() && t.shape.Some?
    ensures top == SlotOf(topShape) && Linked(topShape) && Distinct(topShape) && Nodes(topShape) <= t.live
    ensures EntrySet(topShape) <= t.Stored()
    ensures Abs(topShape) == Top(t.Tree().value, prefix) && entry.key == Walk(t.Tree().value, prefix)
  {
    hide Keys, KBit, Position, Plug, ContextNodes;
    ghost var whole := t.Tree().value;
    var iter := t.root;
    top := iter;
    ghost var sub := t.shape.value;
    topShape := sub;
    while iter.target.ToNode?
      invariant iter == SlotOf(sub) && Linked(sub) && Distinct(sub)
      invariant Nodes(sub) <= t.live && EntrySet(sub) <= t.Stored()
      invariant top == SlotOf(topShape) && Linked(topShape) && Distinct(topShape) && Nodes(topShape) <= t.live
      invariant EntrySet(topShape) <= t.Stored() && CritBit(Abs(sub))
      invariant Walk(Abs(sub), prefix) == Walk(whole, prefix)
      invariant if topShape == sub then Top(Abs(sub), prefix) == Top(whole, prefix)
                else Abs(topShape) == Top(whole, prefix) && (sub.SNode? ==> sub.node.byte >= |prefix|)
      decreases sub
    {
      var node := iter.target.node;
      var direction := Trie.DirectionOf(node, prefix);
      InsidePrefix(node, prefix);
      if node.byte >= |prefix| { TopStays(Abs(sub), prefix); }
      sub := ChildOf(sub, direction);
      iter := t.Load(node, direction);
      if node.byte < |prefix| {
        top := iter;
        topShape := sub;
      } else if sub.SNode? {
        InsidePrefix(sub.node, prefix);
      }
    }
    entry := iter.target.entry;
  }

  lemma InsidePrefix(node: Node, prefix: Key)
    ensures PosOf(node) / 8 == node.byte
  {
  }

  /** shl_trie_visit.  Without a prefix the head is traversed in place of its root: untagged, it passes for an entry. */
  method Visit(t: Trie, prefix: Key) returns (calls: seq<Entry>)
    requires t.Valid() && NulFree(prefix)
    modifies t`live, t.live
    ensures t.Valid() && t.live == old(t.live)
    ensures forall n :: n in t.live ==> n.child0 == old(n.child0) && n.child1 == old(n.child1)
    ensures t.shape.Some? && prefix == [] ==> calls == [t.head]
    ensures VisitsMatches(calls, t.Stored(), prefix) <==> prefix != [] || t.shape.None?
  {
    calls := [];
    if t.root.target.Null? {
      return;
    }
    if prefix == [] {
      calls := Traverse(t, Slot(ToEntry(t.head), false), false, SLeaf(t.head));
      assert calls == [t.head] && calls[0] !in t.Stored();
      return;
    }
    calls := VisitPrefix(t, prefix);
  }

  method VisitPrefix(t: Trie, prefix: Key) returns (calls: seq<Entry>)
    requires t.Valid() && t.shape.Some? && NulFree(prefix) && prefix != []
    modifies t`live, t.live
    ensures t.Valid() && t.live == old(t.live)
    ensures forall n :: n in t.live ==> n.child0 == old(n.child0) && n.child1 == old(n.child1)
    ensures VisitsMatches(calls, t.Stored(), prefix)
  {
    hide Keys, CritBit, Linked, Distinct, Nodes, EntrySet, Entries, Abs, Walk, Top, SlotOf;
    ghost var tree := t.Tree().value;
    var top, entry, topShape := FindTop(t, prefix);
    var matches := MatchesPrefix(entry.key, prefix);
    if !matches {
      NoMatchNowhere(tree, prefix);
      EntrySetKeys(t.shape.value);
      return [];
    }
    TopHoldsMatches(tree, prefix);
    calls := Traverse(t, top, false, topShape);
    VisitResult(t.shape.value, topShape, prefix, calls);
  }

  lemma VisitResult(whole: Shape, topShape: Shape, prefix: Key, calls: seq<Entry>)
    requires CritBit(Abs(whole)) && CritBit(Abs(topShape)) && EntrySet(topShape) <= EntrySet(whole)
    requires Keys(Abs(topShape)) == set x | x in Keys(Abs(whole)) && HasPrefix(x, prefix)
    requires calls == Entries(topShape)
    ensures VisitsMatches(calls, EntrySet(whole), prefix)
  {
    hide Keys, CritBit, EntrySet, Entries, Abs, Leaves;
    EntrySetKeys(whole);
    EntrySetKeys(topShape);
    EntriesAreLeaves(topShape);
    LeavesAscend(Abs(topShape));
    LeavesAreKeys(Abs(topShape));
    var ks := EntryKeys(calls);
    forall e | e in EntrySet(whole) && HasPrefix(e.key, prefix) ensures e in calls {
      assert e.key in Keys(Abs(topShape));
      assert e.key in ks;
      var i :| 0 <= i < |ks| && ks[i] == e.key;
      assert calls[i] in EntrySet(topShape);
      EntryKeysInjective(whole, calls[i], e);
    }
    forall i | 0 <= i < |calls| ensures calls[i] in EntrySet(whole) && HasPrefix(calls[i].key, prefix) {
      assert calls[i] in EntrySet(topShape);
    }
    forall i, j | 0 <= i < j < |calls| ensures Lex(calls[i].key, calls[j].key) {
      assert Lex(ks[i], ks[j]);
    }
  }
}

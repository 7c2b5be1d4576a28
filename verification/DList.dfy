/** The intrusive circular list: a head node and the nodes linked behind it. */
module DList {

  class Node {
    var next: Node?
    var prev: Node?

    /** shl_dlist_init. */
    constructor Head()
      ensures List(this, [])
    {
      next, prev := this, this;
    }

    /** A node in no list. */
    constructor Loose()
      ensures next == null && prev == null
    {
      next, prev := null, null;
    }

    /** shl_dlist_linked. */
    predicate Linked() reads this {
      next != null && prev != null
    }
  }

  // ----- circles -------------------------------------------------------------------------------------

  function Succ(n: nat, i: nat): nat requires i < n {
    if i + 1 == n then 0 else i + 1
  }

  function Pred(n: nat, i: nat): nat requires i < n {
    if i == 0 then n - 1 else i - 1
  }

  ghost predicate Distinct(c: seq<Node>) {
    forall i, j :: 0 <= i < j < |c| ==> c[i] != c[j]
  }

  /** The nodes of c, each once, are chained in this order, the last one to the first. */
  ghost predicate Circle(c: seq<Node>)
    reads c
  {
    && Distinct(c)
    && (forall i :: 0 <= i < |c| ==> c[i].next == c[Succ(|c|, i)])
    && (forall i :: 0 <= i < |c| ==> c[i].prev == c[Pred(|c|, i)])
  }

  ghost predicate List(head: Node, elems: seq<Node>)
    reads head, elems
  {
    Circle([head] + elems)
  }

  /** In a circle next and prev undo each other. */
  lemma MutualInverse(c: seq<Node>, x: Node)
    requires Circle(c) && x in c
    ensures x.Linked() && x.next.prev == x && x.prev.next == x
  {
    var i :| 0 <= i < |c| && c[i] == x;
    assert Pred(|c|, Succ(|c|, i)) == i && Succ(|c|, Pred(|c|, i)) == i;
  }

  function Rotate<T>(c: seq<T>, k: nat): seq<T> requires k <= |c| {
    c[k..] + c[..k]
  }

  /** Where position i of the rotated circle comes from. */
  function Origin(n: nat, k: nat, i: nat): nat requires i < n && k <= n {
    if i + k < n then i + k else i + k - n
  }

  lemma RotateAt<T>(c: seq<T>, k: nat, i: nat)
    requires k <= |c| && i < |c|
    ensures |Rotate(c, k)| == |c| && Rotate(c, k)[i] == c[Origin(|c|, k, i)]
  {
  }

  lemma RotateDistinct(c: seq<Node>, k: nat)
    requires Distinct(c) && k <= |c|
    ensures Distinct(Rotate(c, k))
  {
    forall i, j | 0 <= i < j < |c| ensures Rotate(c, k)[i] != Rotate(c, k)[j] {
      RotateAt(c, k, i);
      RotateAt(c, k, j);
    }
  }

  /** A circle has no distinguished first node. */
  lemma RotateCircle(c: seq<Node>, k: nat)
    requires Circle(c) && k <= |c|
    ensures Circle(Rotate(c, k))
  {
    RotateDistinct(c, k);
    var n, r := |c|, Rotate(c, k);
    hide Rotate;
    assert |r| == n;
    forall i | 0 <= i < n ensures r[i].next == r[Succ(n, i)] { RotateLinks(c, k, i); }
    forall i | 0 <= i < n ensures r[i].prev == r[Pred(n, i)] { RotateLinks(c, k, i); }
  }

  lemma RotateLinks(c: seq<Node>, k: nat, i: nat)
    requires Circle(c) && k <= |c| && i < |c|
    ensures var r := Rotate(c, k);
            |r| == |c| && r[i].next == r[Succ(|c|, i)] && r[i].prev == r[Pred(|c|, i)]
  {
    hide Rotate;
    RotateAt(c, k, i);
    RotateAt(c, k, Succ(|c|, i));
    RotateAt(c, k, Pred(|c|, i));
  }

  /** The pointers determine the order: one head heads one list. */
  lemma {:induction false} OrderIsUnique(c: seq<Node>, d: seq<Node>, k: nat)
    requires Circle(c) && Circle(d) && 0 < k <= |c| && k <= |d| && c[0] == d[0]
    ensures c[..k] == d[..k]
  {
    if k > 1 {
      OrderIsUnique(c, d, k - 1);
      assert c[k - 2] == c[..k - 1][k - 2] == d[..k - 1][k - 2] == d[k - 2];
      assert c[k - 1] == c[k - 2].next && d[k - 1] == d[k - 2].next;
    }
  }

  lemma NoLonger(c: seq<Node>, d: seq<Node>)
    requires Circle(c) && Circle(d) && c != [] && d != [] && c[0] == d[0]
    ensures |d| <= |c|
  {
    var last := |c| - 1;
    OrderIsUnique(c, d, if |c| <= |d| then |c| else |d|);
    assert |c| <= |d| ==> d[..|c|][last] == c[last];
    assert c[last].next == c[Succ(|c|, last)];
  }

  /** One head heads one list. */
  lemma ListIsUnique(head: Node, a: seq<Node>, b: seq<Node>)
    requires List(head, a) && List(head, b)
    ensures a == b
  {
    var c, d := [head] + a, [head] + b;
    NoLonger(c, d);
    NoLonger(d, c);
    OrderIsUnique(c, d, |c|);
    assert a == c[..|c|][1..] && b == d[..|c|][1..];
  }

  // ----- link and unlink ---------------------------------------------------------------------------------

  /** shl_dlist__link between the last and the first node of a circle. */
  method LinkBetween(prev: Node, next: Node, n: Node, ghost c: seq<Node>)
    requires Circle(c) && c != [] && prev == c[|c| - 1] && next == c[0] && n !in c
    modifies prev, next, n
    ensures Circle(c + [n])
  {
    next.prev := n;
    n.next := next;
    n.prev := prev;
    prev.next := n;
  }

  /** A list read from its first element on: the head comes last. */
  lemma HeadLast(head: Node, elems: seq<Node>)
    ensures List(head, elems) <==> Circle(elems + [head])
  {
    var c, d := [head] + elems, elems + [head];
    if Circle(c) { RotateCircle(c, 1); assert Rotate(c, 1) == d; }
    if Circle(d) { RotateCircle(d, |elems|); assert Rotate(d, |elems|) == c; }
  }

  /** shl_dlist_link. */
  method Link(head: Node, n: Node, ghost elems: seq<Node>)
    requires List(head, elems) && n != head && n !in elems
    modifies head, head.next, n
    ensures List(head, [n] + elems)
  {
    HeadLast(head, elems);
    Ends(head, elems);
    LinkBetween(head, head.next, n, elems + [head]);
    TurnedTwice(head, n, elems);
  }

  lemma TurnedTwice(head: Node, n: Node, elems: seq<Node>)
    requires Circle(elems + [head] + [n])
    ensures List(head, [n] + elems)
  {
    HeadLast(n, elems + [head]);
    assert [n] + (elems + [head]) == ([n] + elems) + [head];
    HeadLast(head, [n] + elems);
  }

  /** shl_dlist_link_tail. */
  method LinkTail(head: Node, n: Node, ghost elems: seq<Node>)
    requires List(head, elems) && n != head && n !in elems
    modifies head, head.prev, n
    ensures List(head, elems + [n])
  {
    ghost var c := [head] + elems;
    Ends(head, elems);
    LinkBetween(head.prev, head, n, c);
    assert c + [n] == [head] + (elems + [n]);
  }

  /** shl_dlist_unlink of the last node of a circle; a node that is not linked is left alone. */
  method Unlink(e: Node, ghost c: seq<Node>)
    requires e.Linked() ==> Circle(c + [e])
    modifies if e.Linked() then {e, e.prev, e.next} else {}
    ensures old(e.Linked()) ==> Circle(c) && e.next == null && e.prev == null
  {
    if e.prev != null && e.next != null {
      ghost var d := c + [e];
      assert d[|c|] == e && e.next == d[Succ(|d|, |c|)] && e.prev == d[Pred(|d|, |c|)];
      assert forall i :: 0 <= i < |c| ==> c[i] == d[i];
      var prev, next := e.prev, e.next;
      next.prev := prev;
      prev.next := next;
      e.prev := null;
      e.next := null;
    }
  }

  function Without<T>(s: seq<T>, k: nat): seq<T> requires k < |s| {
    s[..k] + s[k + 1..]
  }

  /** The circle of a list, turned so that element k comes last. */
  function TurnedTo(head: Node, elems: seq<Node>, k: nat): seq<Node> requires k < |elems| {
    elems[k + 1..] + ([head] + elems[..k])
  }

  lemma TurnTo(head: Node, elems: seq<Node>, k: nat)
    requires List(head, elems) && k < |elems|
    ensures Circle(TurnedTo(head, elems, k) + [elems[k]])
  {
    var c := [head] + elems;
    RotateCircle(c, k + 2);
    assert Rotate(c, k + 2) == TurnedTo(head, elems, k) + [elems[k]];
  }

  lemma TurnBack(head: Node, elems: seq<Node>, k: nat)
    requires k < |elems| && Circle(TurnedTo(head, elems, k))
    ensures List(head, Without(elems, k))
  {
    var c := TurnedTo(head, elems, k);
    RotateCircle(c, |elems| - k - 1);
    assert Rotate(c, |elems| - k - 1) == [head] + Without(elems, k);
  }

  /** shl_dlist_unlink of an element of a list. */
  method Delete(head: Node, ghost elems: seq<Node>, e: Node, ghost k: nat)
    requires List(head, elems) && k < |elems| && e == elems[k]
    modifies e, e.prev, e.next
    ensures List(head, Without(elems, k)) && e.next == null && e.prev == null
  {
    MutualInverse([head] + elems, e);
    TurnTo(head, elems, k);
    Unlink(e, TurnedTo(head, elems, k));
    TurnBack(head, elems, k);
  }

  /** shl_dlist_empty, shl_dlist_first, shl_dlist_last. */
  lemma Ends(head: Node, elems: seq<Node>)
    requires List(head, elems)
    ensures head.next == head <==> elems == []
    ensures head.next == if elems == [] then head else elems[0]
    ensures head.prev == if elems == [] then head else elems[|elems| - 1]
  {
    var c := [head] + elems;
    assert c[0].next == c[Succ(|c|, 0)] && c[0].prev == c[Pred(|c|, 0)];
  }

  // ----- iteration -------------------------------------------------------------------------------------------

  /** The node at position j of a list, the head behind the last element and before the first. */
  function At(head: Node, elems: seq<Node>, j: int): Node {
    if 0 <= j < |elems| then elems[j] else head
  }

  lemma Neighbours(head: Node, elems: seq<Node>, j: int)
    requires List(head, elems) && -1 <= j <= |elems|
    ensures j < |elems| ==> At(head, elems, j).next == At(head, elems, j + 1)
    ensures 0 <= j ==> At(head, elems, j).prev == At(head, elems, j - 1)
  {
    var c := [head] + elems;
    var i := if j == |elems| then 0 else j + 1;
    assert c[i].next == c[Succ(|c|, i)] && c[i].prev == c[Pred(|c|, i)];
  }

  lemma HeadApart(head: Node, elems: seq<Node>)
    requires List(head, elems)
    ensures head !in elems && Distinct(elems)
  {
    var c := [head] + elems;
    assert forall i :: 0 <= i < |elems| ==> elems[i] == c[i + 1] != c[0];
  }

  function Reversed<T>(s: seq<T>): seq<T> {
    if s == [] then [] else Reversed(s[1..]) + [s[0]]
  }

  lemma {:induction false} ReversedAt<T>(s: seq<T>, i: nat)
    requires i < |s|
    ensures |Reversed(s)| == |s| && Reversed(s)[i] == s[|s| - 1 - i]
  {
    if |s| > 1 { ReversedAt(s[1..], if i < |s| - 1 then i else 0); }
  }

  /** What an unlinking iteration leaves: the nodes that are not dropped, in their order. */
  lemma KeptIs(s: seq<Node>, x: Node, t: seq<Node>, drop: set<Node>)
    ensures Kept([], drop) == [] && Kept([x] + t, drop) == (if x in drop then [] else [x]) + Kept(t, drop)
    ensures forall y :: y in Kept(s, drop) <==> y in s && y !in drop
  {
    KeptCons(x, t, drop);
    KeptAre(s, drop);
  }

  /** shl_dlist_for_each. */
  method ForEach(head: Node, ghost elems: seq<Node>) returns (visited: seq<Node>)
    requires List(head, elems)
    ensures visited == elems
  {
    HeadApart(head, elems);
    Neighbours(head, elems, -1);
    visited := [];
    var iter := head.next;
    while iter != head
      invariant |visited| <= |elems| && visited == elems[..|visited|] && iter == At(head, elems, |visited|)
      decreases |elems| - |visited|
    {
      Neighbours(head, elems, |visited|);
      visited := visited + [iter];
      iter := iter.next;
    }
  }

  /** shl_dlist_for_each_reverse. */
  method ForEachReverse(head: Node, ghost elems: seq<Node>) returns (visited: seq<Node>)
    requires List(head, elems)
    ensures visited == Reversed(elems)
  {
    HeadApart(head, elems);
    Neighbours(head, elems, |elems|);
    visited := [];
    var iter := head.prev;
    ghost var j := |elems|;
    while iter != head
      invariant 0 <= j <= |elems| && visited == Reversed(elems[j..]) && iter == At(head, elems, j - 1)
      decreases j
    {
      j := j - 1;
      Neighbours(head, elems, j);
      assert elems[j..][1..] == elems[j + 1..];
      visited := visited + [iter];
      iter := iter.prev;
    }
    assert elems[0..] == elems;
  }

  // ----- iteration around one element ----------------------------------------------------------------------

  /** Everything but the head and the start, in cyclic order from the start on; position -1 is the head's. */
  function Others<T>(elems: seq<T>, k: int): seq<T> requires -1 <= k < |elems| {
    if k < 0 then elems else elems[k + 1..] + elems[..k]
  }

  lemma OthersAt<T>(elems: seq<T>, k: nat, i: nat)
    requires k < |elems| && i < |elems| - 1
    ensures |Others(elems, k)| == |elems| - 1
    ensures Others(elems, k)[i] == elems[if k + 1 + i < |elems| then k + 1 + i else k + 1 + i - |elems|]
  {
  }

  /** Every element but the start occurs among the others, and exactly once. */
  lemma OthersCover(elems: seq<Node>, k: nat)
    requires k < |elems| && Distinct(elems)
    ensures Distinct(Others(elems, k))
    ensures forall x :: x in Others(elems, k) <==> x in elems && x != elems[k]
  {
    var o := Others(elems, k);
    forall i, j | 0 <= i < j < |o| ensures o[i] != o[j] {
      OthersAt(elems, k, i);
      OthersAt(elems, k, j);
    }
    assert elems == elems[..k] + [elems[k]] + elems[k + 1..];
    assert forall x :: x in elems <==> x in elems[..k] || x == elems[k] || x in elems[k + 1..];
  }

  /** The others, with the start before the first and behind the last. */
  function Around(head: Node, elems: seq<Node>, k: int, i: int): Node requires -1 <= k < |elems| {
    At(At(head, elems, k), Others(elems, k), i)
  }

  /** Stepping over the head when it is not the start leads from each of the others to the next. */
  lemma StepForward(head: Node, elems: seq<Node>, k: int, i: int)
    requires List(head, elems) && -1 <= k < |elems| && -1 <= i < |Others(elems, k)|
    ensures var iter, start := Around(head, elems, k, i), At(head, elems, k);
            && iter.next != null && head.next != null
            && Around(head, elems, k, i + 1) ==
                 if iter.next == head && (start != head || i == -1) then head.next else iter.next
  {
    HeadApart(head, elems);
    Neighbours(head, elems, -1);
    if k < 0 {
      Neighbours(head, elems, i);
    } else {
      var n := |elems|;
      var j := if k + 1 + i < n then k + 1 + i else k + 1 + i - n;
      if i >= 0 { OthersAt(elems, k, i); }
      if i + 1 < n - 1 { OthersAt(elems, k, i + 1); }
      Neighbours(head, elems, j);
    }
  }

  lemma StepBackward(head: Node, elems: seq<Node>, k: int, i: int)
    requires List(head, elems) && -1 <= k < |elems| && 0 <= i <= |Others(elems, k)|
    ensures var iter, start := Around(head, elems, k, i), At(head, elems, k);
            && iter.prev != null && head.prev != null
            && Around(head, elems, k, i - 1) ==
                 if iter.prev == head && (start != head || i == |Others(elems, k)|) then head.prev else iter.prev
  {
    HeadApart(head, elems);
    Neighbours(head, elems, |elems|);
    if k < 0 {
      Neighbours(head, elems, i);
    } else {
      var n := |elems|;
      var j := if k + 1 + i < n then k + 1 + i else k + 1 + i - n;
      if i < n - 1 { OthersAt(elems, k, i); }
      if i - 1 >= 0 { OthersAt(elems, k, i - 1); }
      Neighbours(head, elems, j);
    }
  }

  lemma StartApart(head: Node, elems: seq<Node>, k: int)
    requires List(head, elems) && -1 <= k < |elems|
    ensures At(head, elems, k) !in Others(elems, k)
  {
    HeadApart(head, elems);
    if k >= 0 { OthersCover(elems, k); }
  }

  lemma BackAtStart(head: Node, elems: seq<Node>, k: int, i: int)
    requires List(head, elems) && -1 <= k < |elems|
    ensures var o := Others(elems, k);
            if 0 <= i < |o| then Around(head, elems, k, i) == o[i] != At(head, elems, k)
            else Around(head, elems, k, i) == At(head, elems, k)
  {
    StartApart(head, elems, k);
  }

  /** shl_dlist_for_each_but_one; the start is element k, or the head. */
  method ForEachButOne(start: Node, head: Node, ghost elems: seq<Node>, ghost k: int) returns (visited: seq<Node>)
    requires List(head, elems) && -1 <= k < |elems| && start == At(head, elems, k)
    ensures visited == Others(elems, k)
  {
    hide Others, Around;
    ghost var o := Others(elems, k);
    StepForward(head, elems, k, -1);
    BackAtStart(head, elems, k, -1);
    BackAtStart(head, elems, k, 0);
    visited := [];
    var iter := if start.next == head then start.next.next else start.next;
    while iter != start
      invariant |visited| <= |o| && visited == o[..|visited|] && iter == Around(head, elems, k, |visited|)
      invariant iter == start <==> |visited| == |o|
      decreases |o| - |visited|
    {
      StepForward(head, elems, k, |visited|);
      BackAtStart(head, elems, k, |visited|);
      BackAtStart(head, elems, k, |visited| + 1);
      visited := visited + [iter];
      iter := if iter.next == head && start != head then iter.next.next else iter.next;
    }
  }

  /** shl_dlist_for_each_reverse_but_one. */
  method ForEachReverseButOne(start: Node, head: Node, ghost elems: seq<Node>, ghost k: int)
    returns (visited: seq<Node>)
    requires List(head, elems) && -1 <= k < |elems| && start == At(head, elems, k)
    ensures visited == Reversed(Others(elems, k))
  {
    hide Others, Around;
    ghost var o := Others(elems, k);
    StepBackward(head, elems, k, |o|);
    BackAtStart(head, elems, k, |o|);
    BackAtStart(head, elems, k, |o| - 1);
    visited := [];
    var iter := if start.prev == head then start.prev.prev else start.prev;
    ghost var j := |o|;
    assert Reversed(o[j..]) == [];
    hide Reversed;
    while iter != start
      invariant 0 <= j <= |o| && visited == Reversed(o[j..]) && iter == Around(head, elems, k, j - 1)
      invariant iter == start <==> j == 0
      decreases j
    {
      j := j - 1;
      StepBackward(head, elems, k, j);
      BackAtStart(head, elems, k, j);
      BackAtStart(head, elems, k, j - 1);
      ReversedCons(o, j);
      visited := visited + [iter];
      iter := if iter.prev == head && start != head then iter.prev.prev else iter.prev;
    }
    assert o[0..] == o;
  }

  // ----- iteration that unlinks ---------------------------------------------------------------------------------

  function Kept(s: seq<Node>, drop: set<Node>): seq<Node> {
    if s == [] then [] else Kept(s[..|s| - 1], drop) + if s[|s| - 1] in drop then [] else [s[|s| - 1]]
  }

  lemma {:induction false} KeptAre(s: seq<Node>, drop: set<Node>)
    ensures forall x :: x in Kept(s, drop) <==> x in s && x !in drop
  {
    if s != [] {
      KeptAre(s[..|s| - 1], drop);
      assert s == s[..|s| - 1] + [s[|s| - 1]];
    }
  }

  /** The list in mid-iteration: what was kept of the first j elements, then the rest. */
  ghost function Partial(elems: seq<Node>, drop: set<Node>, j: nat): seq<Node> requires j <= |elems| {
    Kept(elems[..j], drop) + elems[j..]
  }

  /** The dropped ones of the first j elements are in no list. */
  ghost predicate Released(elems: seq<Node>, drop: set<Node>, j: nat)
    requires j <= |elems|
    reads elems
  {
    forall i :: 0 <= i < j && elems[i] in drop ==> elems[i].next == null && elems[i].prev == null
  }

  /** The neighbours of the current node, and no dropped node is among them. */
  lemma Current(head: Node, elems: seq<Node>, drop: set<Node>, j: nat)
    requires j < |elems| && Distinct(elems) && head !in elems && List(head, Partial(elems, drop, j))
    ensures elems[j].next == At(head, elems, j + 1)
    ensures (elems[j].prev == head || elems[j].prev in elems) && (elems[j].next == head || elems[j].next in elems)
    ensures forall i :: 0 <= i < j && elems[i] in drop ==>
              elems[i] != elems[j] && elems[i] != elems[j].next && elems[i] != elems[j].prev
  {
    var kept := Kept(elems[..j], drop);
    KeptAre(elems[..j], drop);
    Neighbours(head, Partial(elems, drop, j), |kept|);
    assert kept != [] ==> kept[|kept| - 1] in elems[..j];
    assert forall x :: x in elems[..j] ==> x in elems;
  }

  lemma PartialSplits(elems: seq<Node>, drop: set<Node>, j: nat)
    requires j < |elems|
    ensures Partial(elems, drop, j) == Kept(elems[..j], drop) + [elems[j]] + elems[j + 1..]
    ensures Partial(elems, drop, j + 1) ==
              Kept(elems[..j], drop) + (if elems[j] in drop then [] else [elems[j]]) + elems[j + 1..]
  {
    assert elems[..j + 1][..j] == elems[..j];
  }

  lemma OneMore<T>(s: seq<T>, j: nat)
    requires j < |s|
    ensures s[..j + 1] == s[..j] + [s[j]] && s[j] in s
  {
  }

  lemma PartialEnds(elems: seq<Node>, drop: set<Node>)
    ensures Partial(elems, drop, 0) == elems && Partial(elems, drop, |elems|) == Kept(elems, drop)
  {
    assert elems[..|elems|] == elems && elems[|elems|..] == [];
  }

  /** One iteration's body: it unlinks the current node if that is to be dropped. */
  method Visit(head: Node, iter: Node, drop: set<Node>, ghost elems: seq<Node>, ghost j: nat)
    requires j < |elems| && iter == elems[j] && Distinct(elems) && head !in elems
    requires List(head, Partial(elems, drop, j)) && Released(elems, drop, j)
    modifies if iter in drop then {iter, iter.prev, iter.next} else {}
    ensures List(head, Partial(elems, drop, j + 1)) && Released(elems, drop, j + 1)
  {
    PartialSplits(elems, drop, j);
    if iter in drop {
      Current(head, elems, drop, j);
      ghost var kept := Kept(elems[..j], drop);
      Delete(head, Partial(elems, drop, j), iter, |kept|);
      assert Without(kept + [iter] + elems[j + 1..], |kept|) == kept + [] + elems[j + 1..];
    }
  }

  /** shl_dlist_for_each_safe around a body that unlinks the nodes in drop. */
  method ForEachSafe(head: Node, drop: set<Node>, ghost elems: seq<Node>) returns (visited: seq<Node>)
    requires List(head, elems)
    modifies head, elems
    ensures visited == elems && List(head, Kept(elems, drop))
    ensures forall x :: x in elems && x in drop ==> x.next == null && x.prev == null
  {
    hide Partial, Kept;
    HeadApart(head, elems);
    Neighbours(head, elems, -1);
    Neighbours(head, elems, 0);
    PartialEnds(elems, drop);
    visited := [];
    var iter: Node := head.next;
    var tmp := iter.next;
    while iter != head
      invariant |visited| <= |elems| && visited == elems[..|visited|] && iter == At(head, elems, |visited|)
      invariant List(head, Partial(elems, drop, |visited|)) && Released(elems, drop, |visited|)
      invariant tmp == iter.next
      decreases |elems| - |visited|
    {
      ghost var j := |visited|;
      Current(head, elems, drop, j);
      OneMore(elems, j);
      visited := visited + [iter];
      Visit(head, iter, drop, elems, j);
      iter := tmp;
      tmp := iter.next;
    }
  }

  /** The list in a backward iteration: the first j elements, then what was kept of the rest. */
  ghost function Remaining(elems: seq<Node>, drop: set<Node>, j: nat): seq<Node> requires j <= |elems| {
    elems[..j] + Kept(elems[j..], drop)
  }

  ghost predicate ReleasedFrom(elems: seq<Node>, drop: set<Node>, j: nat)
    reads elems
  {
    forall i :: j <= i < |elems| && elems[i] in drop ==> elems[i].next == null && elems[i].prev == null
  }

  lemma KeptSnoc(s: seq<Node>, y: Node, drop: set<Node>)
    ensures Kept(s + [y], drop) == Kept(s, drop) + if y in drop then [] else [y]
  {
    assert (s + [y])[..|s|] == s;
  }

  lemma Associative<T>(a: seq<T>, b: seq<T>, c: seq<T>)
    ensures (a + b) + c == a + (b + c)
  {
  }

  lemma {:induction false} KeptCons(x: Node, s: seq<Node>, drop: set<Node>)
    ensures Kept([x] + s, drop) == (if x in drop then [] else [x]) + Kept(s, drop)
    decreases |s|
  {
    if s == [] {
      assert [x] + s == [x];
    } else {
      var front, y := s[..|s| - 1], s[|s| - 1];
      assert s == front + [y];
      hide Kept;
      KeptCons(x, front, drop);
      Associative([x], front, [y]);
      KeptSnoc([x] + front, y, drop);
      KeptSnoc(front, y, drop);
      Associative(if x in drop then [] else [x], Kept(front, drop), if y in drop then [] else [y]);
    }
  }

  lemma RemainingSplits(elems: seq<Node>, drop: set<Node>, j: nat)
    requires j < |elems|
    ensures Remaining(elems, drop, j + 1) == elems[..j] + [elems[j]] + Kept(elems[j + 1..], drop)
    ensures Remaining(elems, drop, j) ==
              elems[..j] + (if elems[j] in drop then [] else [elems[j]]) + Kept(elems[j + 1..], drop)
  {
    KeptCons(elems[j], elems[j + 1..], drop);
    assert elems[j..] == [elems[j]] + elems[j + 1..];
  }

  lemma RemainingEnds(elems: seq<Node>, drop: set<Node>)
    ensures Remaining(elems, drop, 0) == Kept(elems, drop) && Remaining(elems, drop, |elems|) == elems
  {
    assert elems[0..] == elems && elems[..|elems|] == elems && elems[|elems|..] == [];
  }

  lemma CurrentBackward(head: Node, elems: seq<Node>, drop: set<Node>, j: nat)
    requires j < |elems| && Distinct(elems) && head !in elems && List(head, Remaining(elems, drop, j + 1))
    ensures elems[j].prev == At(head, elems, j - 1)
    ensures (elems[j].prev == head || elems[j].prev in elems) && (elems[j].next == head || elems[j].next in elems)
    ensures forall i :: j < i < |elems| && elems[i] in drop ==>
              elems[i] != elems[j] && elems[i] != elems[j].next && elems[i] != elems[j].prev
  {
    var kept := Kept(elems[j + 1..], drop);
    KeptAre(elems[j + 1..], drop);
    Neighbours(head, Remaining(elems, drop, j + 1), j);
    assert kept != [] ==> kept[0] in elems[j + 1..];
    assert forall x :: x in elems[j + 1..] ==> x in elems;
  }

  method VisitBackward(head: Node, iter: Node, drop: set<Node>, ghost elems: seq<Node>, ghost j: nat)
    requires j < |elems| && iter == elems[j] && Distinct(elems) && head !in elems
    requires List(head, Remaining(elems, drop, j + 1)) && ReleasedFrom(elems, drop, j + 1)
    modifies if iter in drop then {iter, iter.prev, iter.next} else {}
    ensures List(head, Remaining(elems, drop, j)) && ReleasedFrom(elems, drop, j)
  {
    RemainingSplits(elems, drop, j);
    if iter in drop {
      CurrentBackward(head, elems, drop, j);
      ghost var kept := Kept(elems[j + 1..], drop);
      Delete(head, Remaining(elems, drop, j + 1), iter, j);
      assert Without(elems[..j] + [iter] + kept, j) == elems[..j] + [] + kept;
    }
  }

  lemma ReversedCons<T>(s: seq<T>, j: nat)
    requires j < |s|
    ensures Reversed(s[j..]) == Reversed(s[j + 1..]) + [s[j]] && s[j] in s
  {
    assert s[j..][1..] == s[j + 1..];
  }

  /** shl_dlist_for_each_reverse_safe around a body that unlinks the nodes in drop. */
  method ForEachReverseSafe(head: Node, drop: set<Node>, ghost elems: seq<Node>) returns (visited: seq<Node>)
    requires List(head, elems)
    modifies head, elems
    ensures visited == Reversed(elems) && List(head, Kept(elems, drop))
    ensures forall x :: x in elems && x in drop ==> x.next == null && x.prev == null
  {
    hide Remaining, Kept;
    HeadApart(head, elems);
    Neighbours(head, elems, |elems|);
    Neighbours(head, elems, |elems| - 1);
    RemainingEnds(elems, drop);
    visited := [];
    var iter: Node := head.prev;
    var tmp := iter.prev;
    ghost var j := |elems|;
    assert Reversed(elems[j..]) == [];
    hide Reversed;
    while iter != head
      invariant 0 <= j <= |elems| && visited == Reversed(elems[j..]) && iter == At(head, elems, j - 1)
      invariant List(head, Remaining(elems, drop, j)) && ReleasedFrom(elems, drop, j)
      invariant tmp == iter.prev
      decreases j
    {
      j := j - 1;
      CurrentBackward(head, elems, drop, j);
      ReversedCons(elems, j);
      visited := visited + [iter];
      VisitBackward(head, iter, drop, elems, j);
      iter := tmp;
      tmp := iter.prev;
    }
    assert elems[0..] == elems;
  }

  // ----- whole runs -----------------------------------------------------------------------------------------------

  datatype Op = Prepend(node: Node) | Append(node: Node) | Remove(node: Node)

  /** What a caller may do: link only nodes that are not linked; unlinking is always allowed. */
  ghost predicate Legal(head: Node, ops: seq<Op>, elems: seq<Node>) {
    ops != [] ==>
      && ops[0].node != head
      && (ops[0].Remove? || ops[0].node !in elems)
      && Legal(head, ops[1..], Apply(ops[0], elems))
  }

  ghost function Apply(op: Op, elems: seq<Node>): seq<Node> {
    match op
    case Prepend(n) => [n] + elems
    case Append(n) => elems + [n]
    case Remove(n) => Kept(elems, {n})
  }

  ghost function ApplyAll(ops: seq<Op>, elems: seq<Node>): seq<Node> {
    if ops == [] then elems else ApplyAll(ops[1..], Apply(ops[0], elems))
  }

  /** The list holds elems, and every other node of the pool is loose. */
  ghost predicate World(head: Node, pool: set<Node>, elems: seq<Node>)
    reads head, pool, elems
  {
    && List(head, elems) && head !in pool && (forall i :: 0 <= i < |elems| ==> elems[i] in pool)
    && forall x :: x in pool && x !in elems ==> x.next == null && x.prev == null
  }

  lemma {:induction false} KeptWithout(s: seq<Node>, k: nat)
    requires Distinct(s) && k < |s|
    ensures Kept(s, {s[k]}) == Without(s, k)
    decreases |s|
  {
    var n := |s| - 1;
    if k == n {
      KeptAll(s[..n], s[n]);
    } else {
      KeptWithout(s[..n], k);
    }
  }

  lemma {:induction false} KeptAll(s: seq<Node>, x: Node)
    requires x !in s
    ensures Kept(s, {x}) == s
  {
    if s != [] { KeptAll(s[..|s| - 1], x); }
  }

  /** shl_dlist_unlink of a node that is in the list or in none. */
  method UnlinkAny(head: Node, n: Node, ghost elems: seq<Node>)
    requires List(head, elems) && n != head && (n !in elems ==> !n.Linked())
    modifies if n.Linked() then {n, n.prev, n.next} else {}
    ensures List(head, Kept(elems, {n}))
    ensures n in elems ==> n.next == null && n.prev == null
  {
    HeadApart(head, elems);
    ghost var k, c := 0, [];
    if n in elems {
      k :| 0 <= k < |elems| && elems[k] == n;
      c := TurnedTo(head, elems, k);
      TurnTo(head, elems, k);
      MutualInverse([head] + elems, n);
      KeptWithout(elems, k);
    } else {
      KeptAll(elems, n);
    }
    Unlink(n, c);
    if n in elems { TurnBack(head, elems, k); }
  }

  lemma {:induction false} KeptInside(s: seq<Node>, drop: set<Node>, pool: set<Node>)
    requires forall i :: 0 <= i < |s| ==> s[i] in pool
    ensures forall i :: 0 <= i < |Kept(s, drop)| ==> Kept(s, drop)[i] in pool
  {
    if s != [] { KeptInside(s[..|s| - 1], drop, pool); }
  }

  lemma NeighboursInside(head: Node, elems: seq<Node>, n: Node)
    requires List(head, elems) && n in elems
    ensures (n.prev == head || n.prev in elems) && (n.next == head || n.next in elems)
  {
    var k :| 0 <= k < |elems| && elems[k] == n;
    Neighbours(head, elems, k);
  }

  method Perform(head: Node, op: Op, ghost pool: set<Node>, ghost elems: seq<Node>)
    requires World(head, pool, elems) && op.node in pool && (op.Remove? || op.node !in elems)
    modifies head, pool
    ensures World(head, pool, Apply(op, elems))
  {
    HeadApart(head, elems);
    Ends(head, elems);
    match op
    case Prepend(n) => Link(head, n, elems);
    case Append(n) => LinkTail(head, n, elems);
    case Remove(n) =>
      KeptInside(elems, {n}, pool);
      forall x: Node ensures x in elems && x != n ==> x in Kept(elems, {n}) { KeptAre(elems, {n}); }
      if n in elems { NeighboursInside(head, elems, n); }
      UnlinkAny(head, n, elems);
  }

  /** Every legal run of link, link_tail and unlink acts on the abstract sequence. */
  method Run(head: Node, ops: seq<Op>, ghost pool: set<Node>, ghost elems: seq<Node>) returns (visited: seq<Node>)
    requires World(head, pool, elems) && Legal(head, ops, elems) && forall i :: 0 <= i < |ops| ==> ops[i].node in pool
    modifies head, pool
    ensures World(head, pool, ApplyAll(ops, elems))
    ensures visited == ApplyAll(ops, elems)
  {
    ghost var now := elems;
    for i := 0 to |ops|
      invariant World(head, pool, now) && Legal(head, ops[i..], now)
      invariant ApplyAll(ops[i..], now) == ApplyAll(ops, elems)
    {
      assert ops[i..][1..] == ops[i + 1..];
      Perform(head, ops[i], pool, now);
      now := Apply(ops[i], now);
    }
    visited := ForEach(head, now);
  }
}

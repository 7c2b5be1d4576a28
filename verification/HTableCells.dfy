/** Open addressing with tombstones on a table of cells.

    Buckets are probed cyclically.  Distances are measured with Rank, the number of steps from a
    bucket to another one, so that nothing here needs modular arithmetic. */
module HTableCells {
  datatype Cell<T> = Empty | Tomb | Full(elem: T)

  function Rank(n: nat, start: nat, x: nat): nat
    requires start < n && x < n
  {
    if x >= start then x - start else x + n - start
  }

  /** (i + 1) & (n - 1) for a table of n = 2^bits buckets. */
  function Next(n: nat, i: nat): (r: nat)
    requires i < n
    ensures r < n
  {
    if i + 1 == n then 0 else i + 1
  }

  /** Probing from `home` gets to bucket i without meeting an empty bucket before it. */
  ghost predicate Reach<T>(c: seq<Cell<T>>, home: nat, i: nat)
    requires home < |c| && i < |c|
  {
    forall x :: 0 <= x < |c| && Rank(|c|, home, x) < Rank(|c|, home, i) ==> !c[x].Empty?
  }

  /** Every element can be reached from its home bucket. */
  ghost predicate Probed<T>(c: seq<Cell<T>>, home: T -> nat) {
    forall i :: 0 <= i < |c| && c[i].Full? ==> home(c[i].elem) < |c| && Reach(c, home(c[i].elem), i)
  }

  ghost function CellElems<T>(x: Cell<T>): multiset<T> {
    if x.Full? then multiset{x.elem} else multiset{}
  }

  ghost function Contents<T>(c: seq<Cell<T>>): multiset<T> {
    if c == [] then multiset{} else Contents(c[..|c| - 1]) + CellElems(c[|c| - 1])
  }

  ghost function Tombs<T>(c: seq<Cell<T>>): nat {
    if c == [] then 0 else Tombs(c[..|c| - 1]) + if c[|c| - 1].Tomb? then 1 else 0
  }

  // ----- counting ---------------------------------------------------------------------------

  lemma {:induction false} ContentsUpdate<T>(c: seq<Cell<T>>, i: nat, x: Cell<T>)
    requires i < |c|
    ensures Contents(c[i := x]) + CellElems(c[i]) == Contents(c) + CellElems(x)
  {
    hide CellElems;
    var n := |c| - 1;
    var d := c[i := x];
    var a, b := Contents(d[..n]), Contents(c[..n]);
    if i == n {
      assert d[..n] == c[..n];
      assert a + CellElems(x) + CellElems(c[i]) == b + CellElems(c[i]) + CellElems(x);
    } else {
      assert d[..n] == c[..n][i := x];
      ContentsUpdate(c[..n], i, x);
      var l := CellElems(c[n]);
      calc {
        a + l + CellElems(c[i]);
        a + CellElems(c[i]) + l;
        b + CellElems(x) + l;
        b + l + CellElems(x);
      }
    }
  }

  lemma {:induction false} TombsUpdate<T>(c: seq<Cell<T>>, i: nat, x: Cell<T>)
    requires i < |c|
    ensures Tombs(c[i := x]) + (if c[i].Tomb? then 1 else 0) == Tombs(c) + (if x.Tomb? then 1 else 0)
  {
    var n := |c| - 1;
    var d := c[i := x];
    if i == n {
      assert d[..n] == c[..n];
    } else {
      assert d[..n] == c[..n][i := x];
      TombsUpdate(c[..n], i, x);
    }
  }

  lemma {:induction false} ContentsHas<T>(c: seq<Cell<T>>, i: nat)
    requires i < |c| && c[i].Full?
    ensures c[i].elem in Contents(c)
  {
    if i < |c| - 1 {
      assert c[..|c| - 1][i] == c[i];
      ContentsHas(c[..|c| - 1], i);
    }
  }

  lemma {:induction false} ContentsIndex<T>(c: seq<Cell<T>>, p: T) returns (i: nat)
    requires p in Contents(c)
    ensures i < |c| && c[i] == Full(p)
  {
    var n := |c| - 1;
    if p in CellElems(c[n]) {
      i := n;
    } else {
      i := ContentsIndex(c[..n], p);
    }
  }

  /** Without an empty bucket the elements and tombstones fill the table. */
  lemma {:induction false} FullTable<T>(c: seq<Cell<T>>)
    requires forall i :: 0 <= i < |c| ==> !c[i].Empty?
    ensures |Contents(c)| + Tombs(c) == |c|
  {
    if c != [] {
      var n := |c| - 1;
      assert forall i :: 0 <= i < n ==> c[..n][i] == c[i];
      FullTable(c[..n]);
    }
  }

  lemma {:induction false} CountBound<T>(c: seq<Cell<T>>)
    ensures |Contents(c)| + Tombs(c) <= |c|
  {
    if c != [] { CountBound(c[..|c| - 1]); }
  }

  /** If elements and tombstones leave room, some bucket is empty: probing terminates. */
  lemma HasEmpty<T>(c: seq<Cell<T>>) returns (z: nat)
    requires |Contents(c)| + Tombs(c) < |c|
    ensures z < |c| && c[z].Empty?
  {
    if forall i :: 0 <= i < |c| ==> !c[i].Empty? {
      FullTable(c);
    }
    z :| 0 <= z < |c| && c[z].Empty?;
  }

  lemma {:induction false} AllFullContents<T>(c: seq<Cell<T>>)
    requires forall i :: 0 <= i < |c| ==> c[i].Full?
    ensures |Contents(c)| == |c|
  {
    if c != [] {
      var n := |c| - 1;
      assert forall i :: 0 <= i < n ==> c[..n][i] == c[i];
      AllFullContents(c[..n]);
    }
  }

  lemma HasRoom<T>(c: seq<Cell<T>>) returns (z: nat)
    requires |Contents(c)| < |c|
    ensures z < |c| && !c[z].Full?
  {
    if forall i :: 0 <= i < |c| ==> c[i].Full? {
      AllFullContents(c);
    }
    z :| 0 <= z < |c| && !c[z].Full?;
  }

  lemma {:induction false} NoElements<T>(c: seq<Cell<T>>)
    requires Contents(c) == multiset{}
    ensures forall i :: 0 <= i < |c| ==> !c[i].Full?
  {
    forall i | 0 <= i < |c| ensures !c[i].Full? {
      if c[i].Full? { ContentsHas(c, i); }
    }
  }

  lemma {:induction false} EmptyTable<T>(c: seq<Cell<T>>)
    requires forall i :: 0 <= i < |c| ==> c[i].Empty?
    ensures Contents(c) == multiset{} && Tombs(c) == 0
  {
    if c != [] {
      var n := |c| - 1;
      assert forall i :: 0 <= i < n ==> c[..n][i] == c[i];
      EmptyTable(c[..n]);
    }
  }

  // ----- single updates ----------------------------------------------------------------------

  /** Storing p in the first free bucket behind its home keeps everything reachable. */
  lemma AddKeepsProbed<T>(c: seq<Cell<T>>, home: T -> nat, p: T, i: nat)
    requires Probed(c, home) && i < |c| && home(p) < |c| && Reach(c, home(p), i)
    ensures Probed(c[i := Full(p)], home)
  {
    var d := c[i := Full(p)];
    forall j | 0 <= j < |d| && d[j].Full?
      ensures home(d[j].elem) < |d| && Reach(d, home(d[j].elem), j)
    {
      if j != i {
        assert Reach(c, home(c[j].elem), j);
      }
    }
  }

  lemma AddContents<T>(c: seq<Cell<T>>, p: T, i: nat)
    requires i < |c| && !c[i].Full?
    ensures Contents(c[i := Full(p)]) == Contents(c) + multiset{p}
    ensures Tombs(c[i := Full(p)]) <= Tombs(c)
  {
    ContentsUpdate(c, i, Full(p));
    TombsUpdate(c, i, Full(p));
    assert Contents(c[i := Full(p)]) + CellElems(c[i]) == Contents(c[i := Full(p)]);
  }

  /** A tombstone keeps the probe sequences that pass through its bucket alive. */
  lemma RemoveKeepsProbed<T>(c: seq<Cell<T>>, home: T -> nat, i: nat)
    requires Probed(c, home) && i < |c| && c[i].Full?
    ensures Probed(c[i := Tomb], home)
    ensures Contents(c[i := Tomb]) == Contents(c) - multiset{c[i].elem}
    ensures Tombs(c[i := Tomb]) == Tombs(c) + 1
  {
    ContentsUpdate(c, i, Tomb);
    TombsUpdate(c, i, Tomb);
    assert Contents(c[i := Tomb]) == Contents(c[i := Tomb]) + CellElems(c[i]) - CellElems(c[i]);
    var d := c[i := Tomb];
    forall j | 0 <= j < |d| && d[j].Full?
      ensures home(d[j].elem) < |d| && Reach(d, home(d[j].elem), j)
    {
      assert Reach(c, home(c[j].elem), j);
    }
  }

  /** One probing step does not wrap around while an empty bucket lies ahead. */
  lemma NextRank(n: nat, home: nat, i: nat, z: nat)
    requires home < n && i < n && z < n && Rank(n, home, i) < Rank(n, home, z)
    ensures Rank(n, home, Next(n, i)) == Rank(n, home, i) + 1
    ensures forall x :: 0 <= x < n && Rank(n, home, x) == Rank(n, home, i) ==> x == i
  {
  }

  // ----- in-place rehash ------------------------------------------------------------------------

  /** The i buckets from `start` on hold no tombstone, and their elements are reachable on a path
      that does not leave this region. */
  ghost predicate Rehashed<T>(c: seq<Cell<T>>, home: T -> nat, start: nat, i: nat)
    requires start < |c|
  {
    forall x :: 0 <= x < |c| && Rank(|c|, start, x) < i ==> Settled(c, home, start, x)
  }

  ghost predicate Settled<T>(c: seq<Cell<T>>, home: T -> nat, start: nat, x: nat)
    requires start < |c| && x < |c|
  {
    && !c[x].Tomb?
    && (c[x].Full? ==>
          var h := home(c[x].elem);
          h < |c| && Rank(|c|, start, h) <= Rank(|c|, start, x) && Reach(c, h, x))
  }

  /** No probe sequence crosses an empty bucket, so seen from it every home lies before its element. */
  lemma HomeBeforeElement<T>(c: seq<Cell<T>>, home: T -> nat, start: nat, x: nat)
    requires Probed(c, home) && start < |c| && c[start].Empty? && x < |c| && c[x].Full?
    ensures var h := home(c[x].elem); h < |c| && Rank(|c|, start, h) <= Rank(|c|, start, x)
  {
    assert Reach(c, home(c[x].elem), x);
  }

  /** Bucket number i: an empty one or an element at home stays as it is. */
  lemma KeepBucket<T>(c: seq<Cell<T>>, home: T -> nat, start: nat, x: nat)
    requires start < |c| && x < |c| && Rehashed(c, home, start, Rank(|c|, start, x))
    requires c[x].Empty? || (c[x].Full? && home(c[x].elem) == x)
    ensures Rehashed(c, home, start, Rank(|c|, start, x) + 1)
  {
    forall y | 0 <= y < |c| && Rank(|c|, start, y) <= Rank(|c|, start, x)
      ensures Settled(c, home, start, y)
    {
      if Rank(|c|, start, y) == Rank(|c|, start, x) { assert y == x; }
    }
  }

  /** Emptying bucket number i cuts no path of the region before it. */
  lemma ClearBucket<T>(c: seq<Cell<T>>, home: T -> nat, start: nat, x: nat)
    requires start < |c| && x < |c| && Rehashed(c, home, start, Rank(|c|, start, x))
    ensures Rehashed(c[x := Empty], home, start, Rank(|c|, start, x) + 1)
  {
    var d := c[x := Empty];
    forall y | 0 <= y < |c| && Rank(|c|, start, y) <= Rank(|c|, start, x)
      ensures Settled(d, home, start, y)
    {
      if y != x && c[y].Full? {
        assert Settled(c, home, start, y);
        assert Reach(c, home(c[y].elem), y);
      } else if y != x {
        assert Settled(c, home, start, y);
      }
    }
  }

  /** Putting an element into the first free bucket behind its home, inside the region. */
  lemma PlaceElement<T>(c: seq<Cell<T>>, home: T -> nat, start: nat, i: nat, p: T, j: nat)
    requires start < |c| && j < |c| && Rehashed(c, home, start, i)
    requires home(p) < |c| && Rank(|c|, start, home(p)) <= Rank(|c|, start, j) < i
    requires Reach(c, home(p), j)
    ensures Rehashed(c[j := Full(p)], home, start, i)
  {
    var d := c[j := Full(p)];
    forall y | 0 <= y < |c| && Rank(|c|, start, y) < i
      ensures Settled(d, home, start, y)
    {
      if y != j && c[y].Full? {
        assert Settled(c, home, start, y);
        assert Reach(c, home(c[y].elem), y);
      } else if y != j {
        assert Settled(c, home, start, y);
      }
    }
  }

  lemma RehashedAll<T>(c: seq<Cell<T>>, home: T -> nat, start: nat)
    requires start < |c| && Rehashed(c, home, start, |c|)
    ensures Probed(c, home) && Tombs(c) == 0
  {
    forall x | 0 <= x < |c|
      ensures !c[x].Tomb? && (c[x].Full? ==> home(c[x].elem) < |c| && Reach(c, home(c[x].elem), x))
    {
      assert Settled(c, home, start, x);
    }
    NoTombs(c);
  }

  lemma {:induction false} NoTombs<T>(c: seq<Cell<T>>)
    requires forall i :: 0 <= i < |c| ==> !c[i].Tomb?
    ensures Tombs(c) == 0
  {
    if c != [] {
      var n := |c| - 1;
      assert forall i :: 0 <= i < n ==> c[..n][i] == c[i];
      NoTombs(c[..n]);
    }
  }

  /** A bucket on the way from home to x lies, seen from start, between the two. */
  lemma BetweenRanks(n: nat, start: nat, home: nat, j: nat, x: nat)
    requires start < n && home < n && j < n && x < n
    requires Rank(n, start, home) <= Rank(n, start, x) && Rank(n, home, j) <= Rank(n, home, x)
    ensures Rank(n, start, home) <= Rank(n, start, j) <= Rank(n, start, x)
  {
  }

  lemma ClearContents<T>(c: seq<Cell<T>>, x: nat)
    requires x < |c|
    ensures Contents(c[x := Empty]) + CellElems(c[x]) == Contents(c)
  {
    ContentsUpdate(c, x, Empty);
    assert Contents(c) + CellElems<T>(Empty) == Contents(c);
  }

  /** Bucket number i held a movable element: empty it and put the element into bucket j. */
  lemma MoveElement<T>(c0: seq<Cell<T>>, c: seq<Cell<T>>, home: T -> nat, start: nat, x: nat, j: nat)
    requires |c| == |c0| && start < |c| && x < |c| && j < |c| && c[x].Full? && c0[x] == c[x]
    requires Probed(c0, home) && c0[start].Empty? && Rehashed(c, home, start, Rank(|c|, start, x))
    requires home(c[x].elem) < |c| && !c[x := Empty][j].Full?
    requires forall y :: 0 <= y < |c| && Rank(|c|, home(c[x].elem), y) < Rank(|c|, home(c[x].elem), j)
                         ==> c[x := Empty][y].Full?
    ensures Rank(|c|, start, j) <= Rank(|c|, start, x)
    ensures var d := c[x := Empty][j := c[x]];
            Rehashed(d, home, start, Rank(|c|, start, x) + 1) && Contents(d) == Contents(c)
  {
    var p, h := c[x].elem, home(c[x].elem);
    var c1 := c[x := Empty];
    HomeBeforeElement(c0, home, start, x);
    assert Rank(|c|, h, j) <= Rank(|c|, h, x);
    BetweenRanks(|c|, start, h, j, x);
    ClearBucket(c, home, start, x);
    PlaceElement(c1, home, start, Rank(|c|, start, x) + 1, p, j);
    ClearContents(c, x);
    AddContents(c1, p, j);
  }

  // ----- probing ------------------------------------------------------------------------------------

  /** The buckets from `from` up to but not including `to`, counted from home, are in use and hold
      none of the wanted elements. */
  ghost predicate Passed<T>(c: seq<Cell<T>>, home: nat, from: nat, to: nat, wanted: T -> bool)
    requires home < |c| && from < |c| && to < |c|
  {
    forall x :: 0 <= x < |c| && Rank(|c|, home, from) <= Rank(|c|, home, x) < Rank(|c|, home, to)
                ==> !c[x].Empty? && (c[x].Full? ==> !wanted(c[x].elem))
  }

  /** One step over a used bucket; an empty bucket z ahead keeps it from wrapping around. */
  lemma PassOne<T>(c: seq<Cell<T>>, home: nat, from: nat, i: nat, z: nat, wanted: T -> bool)
    requires home < |c| && from < |c| && i < |c| && z < |c| && c[z].Empty?
    requires Rank(|c|, home, from) <= Rank(|c|, home, i) <= Rank(|c|, home, z)
    requires Passed(c, home, from, i, wanted) && !c[i].Empty? && (c[i].Full? ==> !wanted(c[i].elem))
    ensures Rank(|c|, home, Next(|c|, i)) == Rank(|c|, home, i) + 1 <= Rank(|c|, home, z)
    ensures Passed(c, home, from, Next(|c|, i), wanted)
    ensures Next(|c|, i) != home
  {
    assert i != z;
    NextRank(|c|, home, i, z);
  }

  /** Probing from home up to an empty bucket meets every element that lives at this home. */
  lemma PassedAll<T>(c: seq<Cell<T>>, homeOf: T -> nat, home: nat, end: nat, wanted: T -> bool)
    requires Probed(c, homeOf) && home < |c| && end < |c| && c[end].Empty? && Passed(c, home, home, end, wanted)
    requires forall i :: 0 <= i < |c| && c[i].Full? && wanted(c[i].elem) ==> homeOf(c[i].elem) == home
    ensures forall i :: 0 <= i < |c| && c[i].Full? ==> !wanted(c[i].elem)
  {
    forall i | 0 <= i < |c| && c[i].Full? ensures !wanted(c[i].elem) {
      if wanted(c[i].elem) {
        assert false;
      }
    }
  }
}

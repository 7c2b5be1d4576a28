/** The crit-bit trie as a value: a binary tree whose inner nodes hold bit positions.

    This is the specification the heap trie is proved against.  The walks are the ones the
    C code performs, the theorems say what they amount to. */
module CritBitTree {
  import opened Options
  import opened TrieKeys

  datatype Tree = Leaf(key: Key) | Branch(pos: nat, zero: Tree, one: Tree)

  ghost function Keys(t: Tree): set<Key> {
    match t
    case Leaf(k) => {k}
    case Branch(_, z, o) => Keys(z) + Keys(o)
  }

  /** Leaves from left to right. */
  function Leaves(t: Tree): seq<Key> {
    match t
    case Leaf(k) => [k]
    case Branch(_, z, o) => Leaves(z) + Leaves(o)
  }

  /** The crit-bit invariant: below a branch all keys share the bits before its position, and the
      bit at its position separates the two sides. */
  ghost predicate CritBit(t: Tree) {
    match t
    case Leaf(k) => NulFree(k)
    case Branch(p, z, o) =>
      && CritBit(z) && CritBit(o)
      && (forall x, y :: x in Keys(t) && y in Keys(t) ==> Agree(x, y, p))
      && (forall x :: x in Keys(z) ==> !KBit(x, p))
      && (forall x :: x in Keys(o) ==> KBit(x, p))
  }

  ghost predicate CritBitTrie(t: Option<Tree>) {
    t.Some? ==> CritBit(t.value)
  }

  ghost function TrieKeySet(t: Option<Tree>): set<Key> {
    if t.Some? then Keys(t.value) else {}
  }

  // ----- structure ----------------------------------------------------------------------

  lemma {:induction false} KeysNonEmpty(t: Tree)
    ensures Keys(t) != {}
  {
    match t
    case Leaf(k) => assert k in Keys(t);
    case Branch(_, z, _) =>
      KeysNonEmpty(z);
      var x :| x in Keys(z);
      assert x in Keys(t);
  }

  lemma {:induction false} StoredKeysNulFree(t: Tree, k: Key)
    requires CritBit(t) && k in Keys(t)
    ensures NulFree(k)
  {
    match t
    case Leaf(_) =>
    case Branch(_, z, o) =>
      if k in Keys(z) { StoredKeysNulFree(z, k); } else { StoredKeysNulFree(o, k); }
  }

  /** Two stored keys that differ at a branch position. */
  lemma BranchSplits(t: Tree) returns (x: Key, y: Key)
    requires CritBit(t) && t.Branch?
    ensures x in Keys(t) && y in Keys(t) && !KBit(x, t.pos) && KBit(y, t.pos)
  {
    KeysNonEmpty(t.zero);
    KeysNonEmpty(t.one);
    x :| x in Keys(t.zero);
    y :| y in Keys(t.one);
  }

  /** Positions strictly increase along every path. */
  lemma PositionsIncrease(t: Tree)
    requires CritBit(t) && t.Branch?
    ensures t.zero.Branch? ==> t.pos < t.zero.pos
    ensures t.one.Branch? ==> t.pos < t.one.pos
  {
    if t.zero.Branch? {
      var x, y := BranchSplits(t.zero);
      assert x in Keys(t) && y in Keys(t);
      assert Agree(x, y, t.pos);
    }
    if t.one.Branch? {
      var x, y := BranchSplits(t.one);
      assert x in Keys(t) && y in Keys(t);
      assert Agree(x, y, t.pos);
    }
  }

  // ----- lookup: the blind walk -----------------------------------------------------------

  function Walk(t: Tree, k: Key): Key {
    match t
    case Leaf(e) => e
    case Branch(p, z, o) => if KBit(k, p) then Walk(o, k) else Walk(z, k)
  }

  lemma {:induction false} WalkStored(t: Tree, k: Key)
    ensures Walk(t, k) in Keys(t)
  {
    match t
    case Leaf(_) =>
    case Branch(p, z, o) => if KBit(k, p) { WalkStored(o, k); } else { WalkStored(z, k); }
  }

  /** The walk tests single bits only, yet no stored key shares more leading bits with k than the
      key it reaches. */
  lemma {:induction false} WalkIsBestMatch(t: Tree, k: Key, x: Key, p: nat)
    requires CritBit(t) && x in Keys(t)
    requires Agree(x, k, p)
    ensures Agree(Walk(t, k), k, p)
  {
    match t
    case Leaf(_) =>
    case Branch(q, z, o) =>
      if q < p {
        assert KBit(x, q) == KBit(k, q);
        if KBit(k, q) { WalkIsBestMatch(o, k, x, p); } else { WalkIsBestMatch(z, k, x, p); }
      } else {
        WalkStored(t, k);
        assert Agree(Walk(t, k), x, q);
      }
  }

  /** Lookup is membership: the final comparison succeeds exactly for stored keys. */
  lemma {:induction false} LookupIsMembership(t: Tree, k: Key)
    requires CritBit(t) && NulFree(k)
    ensures k in Keys(t) <==> Walk(t, k) == k
  {
    WalkStored(t, k);
    if k in Keys(t) {
      WalkIsBestMatch(t, k, k, 8 * (|k| + 1));
      StoredKeysNulFree(t, Walk(t, k));
      assert Agree(k, Walk(t, k), 8 * (|k| + 1));
      AgreeingKeysEqual(k, Walk(t, k));
    }
  }

  // ----- insert: the second walk ------------------------------------------------------------

  /** A new branch at position d with the existing sub-trie t and a leaf for k. */
  function Graft(t: Tree, k: Key, d: nat): Tree {
    if KBit(k, d) then Branch(d, t, Leaf(k)) else Branch(d, Leaf(k), t)
  }

  /** The second walk stops at the first node whose position lies behind d. */
  function InsertAt(t: Tree, k: Key, d: nat): Tree {
    match t
    case Leaf(_) => Graft(t, k, d)
    case Branch(p, z, o) =>
      if p > d then Graft(t, k, d)
      else if KBit(k, p) then Branch(p, z, InsertAt(o, k, d))
      else Branch(p, InsertAt(z, k, d), o)
  }

  /** The walk never meets a node at position d itself. */
  ghost predicate NeverMeets(t: Tree, k: Key, d: nat) {
    match t
    case Leaf(_) => true
    case Branch(p, z, o) => p > d || (p != d && NeverMeets(if KBit(k, p) then o else z, k, d))
  }

  lemma {:induction false} InsertKeys(t: Tree, k: Key, d: nat)
    ensures Keys(InsertAt(t, k, d)) == Keys(t) + {k}
  {
    match t
    case Leaf(_) =>
    case Branch(p, z, o) =>
      if p <= d {
        if KBit(k, p) { InsertKeys(o, k, d); } else { InsertKeys(z, k, d); }
      }
  }

  /** Inserting at the first difference to the best match keeps the crit-bit invariant. */
  lemma {:induction false} InsertKeepsCritBit(t: Tree, k: Key, d: nat)
    requires CritBit(t) && NulFree(k)
    requires Agree(Walk(t, k), k, d) && KBit(Walk(t, k), d) != KBit(k, d)
    ensures CritBit(InsertAt(t, k, d))
    ensures NeverMeets(t, k, d)
  {
    var e := Walk(t, k);
    WalkStored(t, k);
    match t
    case Leaf(_) =>
      GraftKeepsCritBit(t, k, d, e);
    case Branch(p, z, o) =>
      if p > d {
        GraftKeepsCritBit(t, k, d, e);
      } else {
        var c := if KBit(k, p) then o else z;
        assert Walk(c, k) == e;
        WalkStored(c, k);
        assert p != d;
        InsertKeepsCritBit(c, k, d);
        InsertKeys(c, k, d);
        InsertKeys(t, k, d);
        forall x, y | x in Keys(t) + {k} && y in Keys(t) + {k}
          ensures Agree(x, y, p)
        {
          assert x != k ==> Agree(x, e, p);
          assert y != k ==> Agree(e, y, p);
        }
      }
  }

  lemma GraftKeepsCritBit(t: Tree, k: Key, d: nat, e: Key)
    requires CritBit(t) && NulFree(k)
    requires t.Branch? ==> t.pos > d
    requires e in Keys(t) && Agree(e, k, d) && KBit(e, d) != KBit(k, d)
    ensures CritBit(Graft(t, k, d))
  {
    var g := Graft(t, k, d);
    forall x | x in Keys(t)
      ensures Agree(x, e, d) && KBit(x, d) == KBit(e, d)
    {
      assert t.Branch? ==> Agree(x, e, t.pos);
    }
    assert Keys(g) == Keys(t) + {k};
    forall x, y | x in Keys(g) && y in Keys(g)
      ensures Agree(x, y, d)
    {
      assert x != k ==> Agree(x, e, d);
      assert y != k ==> Agree(y, e, d);
    }
  }

  // ----- remove: splicing the sibling up ------------------------------------------------------

  function RemoveFrom(t: Tree, k: Key): (r: Option<Tree>)
    ensures r.None? <==> t.Leaf?
  {
    match t
    case Leaf(_) => None
    case Branch(p, z, o) =>
      if KBit(k, p) then
        if o.Leaf? then Some(z) else Some(Branch(p, z, RemoveFrom(o, k).value))
      else
        if z.Leaf? then Some(o) else Some(Branch(p, RemoveFrom(z, k).value, o))
  }

  lemma {:induction false} RemoveDeletesKey(t: Tree, k: Key)
    requires CritBit(t) && k in Keys(t)
    ensures CritBitTrie(RemoveFrom(t, k))
    ensures TrieKeySet(RemoveFrom(t, k)) == Keys(t) - {k}
  {
    match t
    case Leaf(_) =>
    case Branch(p, z, o) =>
      if KBit(k, p) {
        assert k in Keys(o) && k !in Keys(z);
        RemoveDeletesKey(o, k);
      } else {
        assert k in Keys(z) && k !in Keys(o);
        RemoveDeletesKey(z, k);
      }
      var r := RemoveFrom(t, k).value;
      assert Keys(r) == Keys(t) - {k};
      assert forall x, y :: x in Keys(r) && y in Keys(r) ==> Agree(x, y, p);
  }

  // ----- canonical shape ---------------------------------------------------------------------

  lemma SingletonIsLeaf(t: Tree, k: Key)
    requires CritBit(t) && Keys(t) == {k}
    ensures t == Leaf(k)
  {
    if t.Branch? {
      var x, y := BranchSplits(t);
      assert false;
    } else {
      assert t.key in Keys(t);
    }
  }

  lemma SameRootPosition(t: Tree, u: Tree)
    requires CritBit(t) && CritBit(u) && t.Branch? && u.Branch? && Keys(t) == Keys(u)
    ensures t.pos <= u.pos
  {
    var x, y := BranchSplits(u);
    assert Agree(x, y, t.pos);
  }

  /** The key set determines the whole structure. */
  lemma {:induction false} Canonical(t: Tree, u: Tree)
    requires CritBit(t) && CritBit(u) && Keys(t) == Keys(u)
    ensures t == u
  {
    if t.Leaf? {
      SingletonIsLeaf(u, t.key);
    } else if u.Leaf? {
      SingletonIsLeaf(t, u.key);
    } else {
      SameRootPosition(t, u);
      SameRootPosition(u, t);
      HalvesMatch(t, u);
      Canonical(t.zero, u.zero);
      Canonical(t.one, u.one);
    }
  }

  lemma HalvesMatch(t: Tree, u: Tree)
    requires CritBit(t) && CritBit(u) && t.Branch? && u.Branch? && t.pos == u.pos && Keys(t) == Keys(u)
    ensures Keys(t.zero) == Keys(u.zero) && Keys(t.one) == Keys(u.one)
  {
    forall x ensures x in Keys(t.zero) <==> x in Keys(u.zero) {
      if x in Keys(t.zero) { assert x in Keys(u); }
      if x in Keys(u.zero) { assert x in Keys(t); }
    }
    forall x ensures x in Keys(t.one) <==> x in Keys(u.one) {
      if x in Keys(t.one) { assert x in Keys(u); }
      if x in Keys(u.one) { assert x in Keys(t); }
    }
  }

  lemma CanonicalTrie(t: Option<Tree>, u: Option<Tree>)
    requires CritBitTrie(t) && CritBitTrie(u) && TrieKeySet(t) == TrieKeySet(u)
    ensures t == u
  {
    if t.Some? { KeysNonEmpty(t.value); }
    if u.Some? { KeysNonEmpty(u.value); }
    if t.Some? && u.Some? { Canonical(t.value, u.value); }
  }

  // ----- order of the leaves ---------------------------------------------------------------------

  ghost predicate StrictlyAscending(ks: seq<Key>) {
    forall i, j :: 0 <= i < j < |ks| ==> Lex(ks[i], ks[j])
  }

  lemma {:induction false} LeavesAreKeys(t: Tree)
    ensures forall k :: k in Leaves(t) <==> k in Keys(t)
  {
    match t
    case Leaf(_) =>
    case Branch(_, z, o) => LeavesAreKeys(z); LeavesAreKeys(o);
  }

  /** Left-to-right order is strict lexicographic order, so every key occurs once. */
  lemma {:induction false} LeavesAscend(t: Tree)
    requires CritBit(t)
    ensures StrictlyAscending(Leaves(t))
  {
    match t
    case Leaf(_) =>
    case Branch(p, z, o) =>
      LeavesAscend(z); LeavesAscend(o);
      LeavesAreKeys(z); LeavesAreKeys(o);
      var a, b := Leaves(z), Leaves(o);
      forall i, j | 0 <= i < j < |a + b| ensures Lex((a + b)[i], (a + b)[j]) {
        if i < |a| <= j {
          var x, y := a[i], b[j - |a|];
          assert x in Keys(z) && y in Keys(o);
          assert BitLess(x, y, p);
          StoredKeysNulFree(z, x); StoredKeysNulFree(o, y);
          BitLessIsLex(x, y, p);
        } else if j < |a| {
          assert Lex(a[i], a[j]);
        } else {
          assert Lex(b[i - |a|], b[j - |a|]);
        }
      }
  }

  // ----- prefix search -----------------------------------------------------------------------------

  /** The sub-trie the visit loop remembers: it follows the prefix while positions lie inside it. */
  function Top(t: Tree, prefix: Key): Tree {
    match t
    case Leaf(_) => t
    case Branch(p, z, o) =>
      if p / 8 < |prefix| then Top(if KBit(prefix, p) then o else z, prefix) else t
  }

  lemma {:induction false} TopHoldsMatches(t: Tree, prefix: Key)
    requires CritBit(t) && NulFree(prefix)
    requires HasPrefix(Walk(t, prefix), prefix)
    ensures CritBit(Top(t, prefix))
    ensures Keys(Top(t, prefix)) == set x | x in Keys(t) && HasPrefix(x, prefix)
  {
    var e := Walk(t, prefix);
    WalkStored(t, prefix);
    PrefixBits(e, prefix);
    match t
    case Leaf(_) =>
    case Branch(p, z, o) =>
      if p / 8 < |prefix| {
        var c := if KBit(prefix, p) then o else z;
        TopHoldsMatches(c, prefix);
        forall x | x in Keys(t) && HasPrefix(x, prefix) ensures x in Keys(c) {
          PrefixBits(x, prefix);
          assert KBit(x, p) == KBit(prefix, p);
        }
      } else {
        forall x | x in Keys(t) ensures HasPrefix(x, prefix) {
          PrefixBits(x, prefix);
          assert Agree(x, e, p);
        }
      }
  }

  /** If the best match lacks the prefix, every stored key does. */
  lemma NoMatchNowhere(t: Tree, prefix: Key)
    requires CritBit(t) && NulFree(prefix)
    requires !HasPrefix(Walk(t, prefix), prefix)
    ensures forall x :: x in Keys(t) ==> !HasPrefix(x, prefix)
  {
    forall x | x in Keys(t) ensures !HasPrefix(x, prefix) {
      if HasPrefix(x, prefix) {
        PrefixBits(x, prefix);
        WalkIsBestMatch(t, prefix, x, 8 * |prefix|);
        PrefixBits(Walk(t, prefix), prefix);
        assert false;
      }
    }
  }

  /** Once the position has left the prefix it never comes back: Top stays where it is. */
  lemma TopStays(t: Tree, prefix: Key)
    requires CritBit(t) && t.Branch? && t.pos / 8 >= |prefix|
    ensures forall c :: c == t.zero || c == t.one ==> Top(c, prefix) == c
    ensures forall c :: (c == t.zero || c == t.one) && c.Branch? ==> c.pos / 8 >= |prefix|
  {
    PositionsIncrease(t);
  }
}

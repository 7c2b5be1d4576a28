/** Keys of the crit-bit trie, read bit by bit.

    A key is a zero-terminated byte string; the trie reads it as if the terminator were
    followed by infinitely many zero bytes.  A bit position counts bits from the most
    significant bit of byte 0.  A trie node stores a position as the pair (byte, otherbits),
    where otherbits is an 8-bit mask with only the critical bit cleared. */
module TrieKeys {
  type Key = seq<bv8>

  /** What strlen promises: no zero byte inside the string. */
  predicate NulFree(k: Key) {
    forall i :: 0 <= i < |k| ==> k[i] != 0
  }

  /** The byte read at index i, zero from the terminator on. */
  function At(k: Key, i: nat): bv8 {
    if i < |k| then k[i] else 0
  }

  function Mask(i: nat): bv8
    requires i < 8
  {
    match i
    case 0 => 0x80
    case 1 => 0x40
    case 2 => 0x20
    case 3 => 0x10
    case 4 => 0x08
    case 5 => 0x04
    case 6 => 0x02
    case 7 => 0x01
  }

  predicate ByteBit(c: bv8, i: nat)
    requires i < 8
  {
    c & Mask(i) != 0
  }

  /** Bit `pos` of the key followed by infinitely many zeros. */
  predicate KBit(k: Key, pos: nat) {
    ByteBit(At(k, pos / 8), pos % 8)
  }

  /** a and b have the same first p bits. */
  ghost predicate Agree(a: Key, b: Key, p: nat) {
    forall q: nat :: q < p ==> KBit(a, q) == KBit(b, q)
  }

  // ----- node positions ------------------------------------------------------------

  predicate IsOtherbits(o: bv8) {
    o == 0x7f || o == 0xbf || o == 0xdf || o == 0xef || o == 0xf7 || o == 0xfb || o == 0xfd || o == 0xfe
  }

  /** Index, from the most significant bit, of the bit that otherbits leaves cleared. */
  function BitIndex(o: bv8): (i: nat)
    requires IsOtherbits(o)
    ensures i < 8 && o == 0xff ^ Mask(i)
  {
    if o == 0x7f then 0 else if o == 0xbf then 1 else if o == 0xdf then 2 else if o == 0xef then 3
    else if o == 0xf7 then 4 else if o == 0xfb then 5 else if o == 0xfd then 6 else 7
  }

  function Position(byte: nat, otherbits: bv8): nat
    requires IsOtherbits(otherbits)
  {
    8 * byte + BitIndex(otherbits)
  }

  /** The branch taken at a node for byte c: (1 + (uint16_t)(otherbits | c)) >> 8. */
  function Direction(otherbits: bv8, c: bv8): bv16 {
    (1 + ((otherbits | c) as bv16)) >> 8
  }

  /** The bit trick selects exactly the critical bit, and never anything but 0 or 1. */
  lemma DirectionIsBit(otherbits: bv8, c: bv8)
    requires IsOtherbits(otherbits)
    ensures Direction(otherbits, c) == if ByteBit(c, BitIndex(otherbits)) then 1 else 0
  {
  }

  lemma DirectionAtPosition(k: Key, byte: nat, otherbits: bv8)
    requires IsOtherbits(otherbits)
    ensures Direction(otherbits, At(k, byte)) == if KBit(k, Position(byte, otherbits)) then 1 else 0
  {
    DirectionIsBit(otherbits, At(k, byte));
    assert Position(byte, otherbits) / 8 == byte && Position(byte, otherbits) % 8 == BitIndex(otherbits);
  }

  /** The C comparison of (byte, otherbits) pairs is the order of bit positions. */
  lemma PositionOrder(b1: nat, o1: bv8, b2: nat, o2: bv8)
    requires IsOtherbits(o1) && IsOtherbits(o2)
    ensures (b1 > b2 || (b1 == b2 && o1 > o2)) <==> Position(b1, o1) > Position(b2, o2)
  {
    assert o1 > o2 <==> BitIndex(o1) > BitIndex(o2);
  }

  // ----- first differing bit ---------------------------------------------------------

  /** The four assignments that turn the XOR of two bytes into an otherbits mask. */
  function Smear(x0: bv8): bv8 {
    var x1 := x0 | (x0 >> 1);
    var x2 := x1 | (x1 >> 2);
    var x3 := x2 | (x2 >> 4);
    (x3 & (0xff ^ (x3 >> 1))) ^ 0xff
  }

  lemma SmearIsFirstBit(a: bv8, b: bv8)
    requires a != b
    ensures IsOtherbits(Smear(a ^ b))
    ensures var i := BitIndex(Smear(a ^ b)); ByteBit(a, i) != ByteBit(b, i)
    ensures forall j: nat :: j < BitIndex(Smear(a ^ b)) ==> ByteBit(a, j) == ByteBit(b, j)
  {
    var x := a ^ b;
    SmearMask(x);
    var i := BitIndex(Smear(x));
    assert ByteBit(x, i);
    XorBit(a, b, i);
    forall j: nat | j < i ensures ByteBit(a, j) == ByteBit(b, j) { XorBit(a, b, j); }
  }

  lemma XorBit(a: bv8, b: bv8, i: nat)
    requires i < 8
    ensures ByteBit(a ^ b, i) <==> ByteBit(a, i) != ByteBit(b, i)
  {
    if
    case i == 0 =>
    case i == 1 =>
    case i == 2 =>
    case i == 3 =>
    case i == 4 =>
    case i == 5 =>
    case i == 6 =>
    case i == 7 =>
  }

  lemma SmearMask(x: bv8)
    requires x != 0
    ensures IsOtherbits(Smear(x))
    ensures ByteBit(x, BitIndex(Smear(x)))
    ensures forall j: nat :: j < BitIndex(Smear(x)) ==> !ByteBit(x, j)
  {
  }

  /** Where the bytes first differ, (byte, Smear(xor)) is the first position at which the bits differ. */
  lemma FirstDifference(a: Key, b: Key, byte: nat)
    requires forall i: nat :: i < byte ==> At(a, i) == At(b, i)
    requires At(a, byte) != At(b, byte)
    ensures IsOtherbits(Smear(At(a, byte) ^ At(b, byte)))
    ensures var p := Position(byte, Smear(At(a, byte) ^ At(b, byte)));
            Agree(a, b, p) && KBit(a, p) != KBit(b, p)
  {
    SmearIsFirstBit(At(a, byte), At(b, byte));
    var i := BitIndex(Smear(At(a, byte) ^ At(b, byte)));
    var p := Position(byte, Smear(At(a, byte) ^ At(b, byte)));
    assert p / 8 == byte && p % 8 == i;
    forall q: nat | q < p ensures KBit(a, q) == KBit(b, q) {
      if q / 8 == byte {
        assert q % 8 < i;
      }
    }
  }

  lemma BytesFromBits(a: bv8, b: bv8)
    requires forall i: nat :: i < 8 ==> ByteBit(a, i) == ByteBit(b, i)
    ensures a == b
  {
    if a != b {
      SmearIsFirstBit(a, b);
      assert false;
    }
  }

  /** Sharing the first 8*n bits is sharing the first n bytes. */
  lemma AgreeBytes(a: Key, b: Key, n: nat)
    ensures Agree(a, b, 8 * n) <==> forall i: nat :: i < n ==> At(a, i) == At(b, i)
  {
    if Agree(a, b, 8 * n) {
      forall i: nat | i < n ensures At(a, i) == At(b, i) {
        forall j: nat | j < 8 ensures ByteBit(At(a, i), j) == ByteBit(At(b, i), j) {
          var q := 8 * i + j;
          assert q / 8 == i && q % 8 == j && q < 8 * n;
          assert KBit(a, q) == KBit(b, q);
        }
        BytesFromBits(At(a, i), At(b, i));
      }
    }
  }

  /** strcmp() == 0: NUL-free keys with equal bytes, terminators included, are equal. */
  lemma SameBytesSameKey(a: Key, b: Key)
    requires NulFree(a) && NulFree(b)
    requires forall i: nat :: i <= |a| ==> At(a, i) == At(b, i)
    ensures a == b
  {
    assert At(a, |a|) == At(b, |a|);
    assert |b| < |a| ==> At(a, |b|) == At(b, |b|);
    forall i | 0 <= i < |a| ensures a[i] == b[i] { assert At(a, i) == At(b, i); }
  }

  lemma AgreeingKeysEqual(a: Key, b: Key)
    requires NulFree(a) && NulFree(b)
    requires Agree(a, b, 8 * (|a| + 1))
    ensures a == b
  {
    AgreeBytes(a, b, |a| + 1);
    SameBytesSameKey(a, b);
  }

  // ----- prefixes and order ------------------------------------------------------------

  predicate HasPrefix(k: Key, prefix: Key) {
    prefix <= k
  }

  /** A stored key starts with the prefix iff it shares the prefix's 8*plen bits. */
  lemma PrefixBits(k: Key, prefix: Key)
    requires NulFree(prefix)
    ensures HasPrefix(k, prefix) <==> Agree(k, prefix, 8 * |prefix|)
  {
    AgreeBytes(k, prefix, |prefix|);
    if Agree(k, prefix, 8 * |prefix|) {
      assert |k| < |prefix| ==> At(k, |k|) == At(prefix, |k|);
      forall i | 0 <= i < |prefix| ensures k[i] == prefix[i] { assert At(k, i) == At(prefix, i); }
    }
  }

  /** Lexicographic order of byte strings, a proper prefix coming first. */
  predicate Lex(a: Key, b: Key) {
    b != [] && (a == [] || a[0] < b[0] || (a[0] == b[0] && Lex(a[1..], b[1..])))
  }

  lemma {:induction false} LexBehind(p: Key, a: Key, b: Key)
    ensures Lex(p + a, p + b) <==> Lex(a, b)
    decreases p
  {
    if p == [] {
      assert p + a == a && p + b == b;
    } else {
      LexBehind(p[1..], a, b);
      assert (p + a)[1..] == p[1..] + a && (p + b)[1..] == p[1..] + b;
    }
  }

  /** The first byte in which two keys differ decides; a key comes before its extensions and not before itself. */
  lemma LexMeans(p: Key, x: bv8, a: Key, y: bv8, b: Key)
    requires x != y
    ensures Lex(p + ([x] + a), p + ([y] + b)) <==> x < y
    ensures Lex(p, p + ([x] + a)) && !Lex(p + ([x] + a), p) && !Lex(p, p)
  {
    LexBehind(p, [x] + a, [y] + b);
    LexBehind(p, [], [x] + a);
    LexBehind(p, [x] + a, []);
    LexBehind(p, [], []);
    assert p + [] == p;
  }

  /** a and b first differ at bit p, where a has a zero. */
  ghost predicate BitLess(a: Key, b: Key, p: nat) {
    Agree(a, b, p) && !KBit(a, p) && KBit(b, p)
  }

  lemma ByteOrder(a: bv8, b: bv8, i: nat)
    requires i < 8 && !ByteBit(a, i) && ByteBit(b, i)
    requires forall j: nat :: j < i ==> ByteBit(a, j) == ByteBit(b, j)
    ensures a < b
  {
    assert i > 0 ==> ByteBit(a, 0) == ByteBit(b, 0);
    assert i > 1 ==> ByteBit(a, 1) == ByteBit(b, 1);
    assert i > 2 ==> ByteBit(a, 2) == ByteBit(b, 2);
    assert i > 3 ==> ByteBit(a, 3) == ByteBit(b, 3);
    assert i > 4 ==> ByteBit(a, 4) == ByteBit(b, 4);
    assert i > 5 ==> ByteBit(a, 5) == ByteBit(b, 5);
    assert i > 6 ==> ByteBit(a, 6) == ByteBit(b, 6);
  }

  lemma {:induction false} LexFromBytes(a: Key, b: Key, n: nat)
    requires NulFree(a) && NulFree(b)
    requires forall i: nat :: i < n ==> At(a, i) == At(b, i)
    requires At(a, n) < At(b, n)
    ensures Lex(a, b)
    decreases n
  {
    if n > 0 && a != [] {
      assert At(a, 0) == At(b, 0);
      forall i: nat | i < n - 1 ensures At(a[1..], i) == At(b[1..], i) {
        assert At(a, i + 1) == At(b, i + 1);
      }
      assert At(a[1..], n - 1) == At(a, n) && At(b[1..], n - 1) == At(b, n);
      LexFromBytes(a[1..], b[1..], n - 1);
    }
  }

  /** Trie order is lexicographic order. */
  lemma BitLessIsLex(a: Key, b: Key, p: nat)
    requires NulFree(a) && NulFree(b)
    requires BitLess(a, b, p)
    ensures Lex(a, b)
  {
    var n := p / 8;
    AgreeBytes(a, b, n);
    forall j: nat | j < p % 8 ensures ByteBit(At(a, n), j) == ByteBit(At(b, n), j) {
      var q := 8 * n + j;
      assert q / 8 == n && q % 8 == j && q < p;
      assert KBit(a, q) == KBit(b, q);
    }
    ByteOrder(At(a, n), At(b, n), p % 8);
    LexFromBytes(a, b, n);
  }
}

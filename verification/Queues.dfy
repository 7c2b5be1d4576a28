/** Byte queues: the ring buffer and the linear buffer, both refining a byte sequence.

    memcpy and memmove are parallel assignments; an allocation is a flag the environment chooses. */
module Queues {
  import opened Words64

  type Byte = bv8

  function Min(a: nat, b: nat): nat {
    if a < b then a else b
  }

  /** SHL_ALIGN_POWER2 on a 64-bit size_t: the next power of two, 0 for 0 and on overflow. */
  ghost predicate AlignPower2(u: nat, r: nat) {
    if u == 0 || u > HALF then r == 0 else LeastPow2(r, u)
  }

  /** The loop of ring_pow2: every bit of v - 1 is copied to all lower positions, then one is added.
      The result is exact; as a size_t it wraps to zero when v exceeds 2^63. */
  method SmearUp(v: nat) returns (r: nat)
    requires 1 <= v < WORDS
    ensures LeastPow2(r, v) && if v <= HALF then r <= HALF else r == WORDS
  {
    var x := ToWord(v - 1);
    ghost var x0 := x;
    SmearIsLeast(v);
    assert SmearFrom(x, 1) == Smear(x0);
    hide ShiftOr, ToWord, Val, IsPow2, Smear, SmearFrom;
    var i := 1;
    while i < 64
      invariant i == 1 || i == 2 || i == 4 || i == 8 || i == 16 || i == 32 || i == 64
      invariant SmearFrom(x, i) == Smear(x0)
    {
      SmearStep(x, i);
      x := ShiftOr(x, i);
      i := i * 2;
    }
    SmearEnd(x);
    ValBound(x);
    r := Val(x) + 1;
    LeastPow2Range(r, v);
  }

  /** SHL_ALIGN_POWER2: 1ULL << (64 - clzll(u - 1)) where that is defined; all callers pass at least 64.
      Beyond 2^63 the shift is undefined, and the result is the one the comment promises. */
  method AlignUp(u: nat) returns (r: nat)
    requires 64 <= u < WORDS
    ensures AlignPower2(u, r) && r <= HALF
  {
    if u > HALF {
      return 0;
    }
    var w := ToWord(u);
    ValToWord(u);
    AlignIsLeast(w);
    hide Val, Bit, ToWord, WordLength, IsPow2;
    r := Val(Bit(64 - LeadingZeros(w - 1)));
    ValBound(Bit(64 - LeadingZeros(w - 1)));
    LeastPow2Range(r, u);
  }

  /** The size of a buffer that has to hold `need` bytes: a power of two, not below a floor. */
  function GrownTo(floor: nat, size: nat, need: nat): nat
    requires floor >= 1
  {
    if need <= size then size else PowerAbove(floor, need)
  }

  lemma GrownIsLeast(floor: nat, need: nat, r: nat)
    requires floor == 64 || floor == 4096
    requires LeastPow2(r, if need < floor then floor else need)
    ensures r == PowerAbove(floor, need)
  {
    assert IsPow2(64);
    Times16(64);
    Double(1024);
    Double(2048);
    hide IsPow2, PowerAbove;
    PowerAboveIsLeast(floor, need);
    LeastPow2Unique(r, PowerAbove(floor, need), if need < floor then floor else need);
  }

  // ----- windows into a circular buffer -------------------------------------------------------------

  /** RING_MASK for an index that is at most one turn ahead. */
  function Wrap(n: nat, i: nat): nat {
    if i < n then i else i - n
  }

  /** RING_MASK(r, v) is v & (size - 1); an empty ring has the mask of all ones. */
  function RingMask(size: nat, v: nat): nat {
    if size == 0 then v else v % size
  }

  /** On words the mask is v & (size - 1), whether the ring is empty or its size a power of two. */
  lemma RingMaskIsAnd(size: Word, v: Word)
    requires size == 0 || IsPow2(Val(size))
    ensures Val(And(v, Dec(size))) == RingMask(Val(size), Val(v))
  {
    if size == 0 {
      assert Dec(0) == ALL && And(v, ALL) == v;
    } else {
      ValZero(size);
      hide And, Dec, Val, IsPow2;
      MaskIsMod(v, size);
    }
  }

  /** The bytes of a circular buffer from `start` on. */
  ghost function Window(b: seq<Byte>, start: nat, used: nat): (s: seq<Byte>)
    requires used <= |b| && (start < |b| || start == 0)
    ensures |s| == used
  {
    if start + used <= |b| then b[start..start + used] else b[start..] + b[..start + used - |b|]
  }

  lemma WindowAt(b: seq<Byte>, start: nat, used: nat, k: nat)
    requires used <= |b| && (start < |b| || start == 0) && k < used
    ensures Window(b, start, used)[k] == b[Wrap(|b|, start + k)]
  {
  }

  lemma WrapIsMask(n: nat, i: nat)
    requires n > 0 && i < 2 * n
    ensures RingMask(n, i) == Wrap(n, i)
  {
    if i >= n {
      ModUnique(i, n, 1, i - n);
    }
  }

  /** x lies among the l buckets from pos on. */
  predicate Written(n: nat, pos: nat, l: nat, x: nat) {
    if pos + l <= n then pos <= x < pos + l else x >= pos || x < pos + l - n
  }

  /** Writing d right behind a window appends it. */
  lemma WindowAppend(b: seq<Byte>, b': seq<Byte>, start: nat, used: nat, d: seq<Byte>)
    requires |b'| == |b| && start < |b| && used + |d| <= |b|
    requires forall x :: 0 <= x < |b| && !Written(|b|, Wrap(|b|, start + used), |d|, x) ==> b'[x] == b[x]
    requires forall k :: 0 <= k < |d| && Wrap(|b|, start + used) < |b|
                         ==> b'[Wrap(|b|, Wrap(|b|, start + used) + k)] == d[k]
    ensures Window(b', start, used + |d|) == Window(b, start, used) + d
  {
    hide Window;
    var n, w := |b|, Window(b', start, used + |d|);
    forall k | 0 <= k < used + |d| ensures w[k] == (Window(b, start, used) + d)[k] {
      WindowAt(b', start, used + |d|, k);
      if k < used {
        WindowAt(b, start, used, k);
        assert b'[Wrap(n, start + k)] == b[Wrap(n, start + k)];
      } else if |d| > 0 {
        assert b'[Wrap(n, Wrap(n, start + used) + (k - used))] == d[k - used];
      }
    }
  }

  lemma WindowTake(b: seq<Byte>, start: nat, used: nat, n: nat)
    requires used <= |b| && (start < |b| || start == 0) && n <= used
    ensures Window(b, start, used)[..n] ==
              if start + n <= |b| then b[start..start + n] else b[start..|b|] + b[..start + n - |b|]
  {
  }

  lemma WindowDrop(b: seq<Byte>, start: nat, used: nat, l: nat)
    requires used <= |b| && (start < |b| || start == 0) && l <= used
    ensures var s := if |b| == 0 then 0 else Wrap(|b|, start + l);
            (s < |b| || s == 0) && Window(b, s, used - l) == Window(b, start, used)[l..]
  {
    hide Window;
    var s := if |b| == 0 then 0 else Wrap(|b|, start + l);
    forall k | 0 <= k < used - l ensures Window(b, s, used - l)[k] == Window(b, start, used)[l..][k] {
      WindowAt(b, s, used - l, k);
      WindowAt(b, start, used, l + k);
    }
  }

  /** A new array of n bytes that starts with the window, copied in one or two pieces. */
  method CopyOut(buf: array<Byte>, start: nat, used: nat, n: nat) returns (nbuf: array<Byte>)
    requires used <= buf.Length && (start < buf.Length || start == 0) && used <= n
    ensures fresh(nbuf) && nbuf.Length == n && nbuf[..used] == Window(buf[..], start, used)
  {
    nbuf := new Byte[n];
    if used > 0 {
      var l := buf.Length - start;
      if used <= l {
        forall i | 0 <= i < used { nbuf[i] := buf[start + i]; }
      } else {
        forall i | 0 <= i < l { nbuf[i] := buf[start + i]; }
        forall i | 0 <= i < used - l { nbuf[l + i] := buf[i]; }
      }
    }
  }

  /** The bytes written from pos on, in two pieces if they pass the end of the buffer. */
  method CopyIn(buf: array<Byte>, pos: nat, d: seq<Byte>)
    requires pos < buf.Length && |d| <= buf.Length
    modifies buf
    ensures forall x :: 0 <= x < buf.Length && !Written(buf.Length, pos, |d|, x) ==> buf[x] == old(buf[x])
    ensures forall k :: 0 <= k < |d| ==> buf[Wrap(buf.Length, pos + k)] == d[k]
  {
    var l := buf.Length - pos;
    if l >= |d| {
      forall i | 0 <= i < |d| { buf[pos + i] := d[i]; }
    } else {
      forall i | 0 <= i < l { buf[pos + i] := d[i]; }
      forall i | 0 <= i < |d| - l { buf[i] := d[l + i]; }
    }
  }

  // ----- the ring buffer ------------------------------------------------------------------------------

  class Ring {
    var buf: array<Byte>
    var size: nat
    var start: nat
    var used: nat

    ghost predicate Valid()
      reads this
    {
      && buf.Length == size && used <= size <= HALF
      && (size == 0 ==> start == 0) && (size > 0 ==> start < size && IsPow2(size))
    }

    ghost function Contents(): seq<Byte>
      requires Valid()
      reads this, buf
    {
      Window(buf[..], start, used)
    }

    ghost function State(): Queue
      requires Valid()
      reads this, buf
    {
      Queue(Contents(), size)
    }

    constructor ()
      ensures Valid() && Contents() == [] && fresh(buf)
    {
      buf := new Byte[0];
      size, start, used := 0, 0, 0;
    }

    method Flush()
      requires Valid()
      modifies this
      ensures Valid() && Contents() == [] && buf == old(buf) && size == old(size)
    {
      start, used := 0, 0;
    }

    /** The segments handed out for reading: one range of the buffer, or two if the contents pass its end. */
    method Peek() returns (n: nat, first: seq<Byte>, second: seq<Byte>)
      requires Valid()
      ensures first + second == Contents()
      ensures first == buf[start..if start + used <= size then start + used else size]
      ensures second == if start + used <= size then [] else buf[..start + used - size]
      ensures n == if used == 0 then 0 else if start + used <= size then 1 else 2
    {
      WindowTake(buf[..], start, used, used);
      hide IsPow2, Window;
      if used == 0 {
        return 0, [], [];
      } else if start + used <= size {
        return 1, buf[start..start + used], [];
      } else {
        return 2, buf[start..size], buf[..used - (size - start)];
      }
    }

    method Copy(limit: nat) returns (out: seq<Byte>)
      requires Valid()
      ensures out == Contents()[..Min(limit, |Contents()|)]
    {
      var n := if limit > used then used else limit;
      if n == 0 {
        return [];
      }
      var l := size - start;
      WindowTake(buf[..], start, used, n);
      hide IsPow2, Window;
      if n <= l {
        out := buf[start..start + n];
      } else {
        out := buf[start..start + l] + buf[..n - l];
      }
    }

    method Resize(nsize: nat, allocOk: bool) returns (ok: bool)
      requires Valid() && used <= nsize <= HALF && IsPow2(nsize)
      modifies this
      ensures Valid() && ok == allocOk && Contents() == old(Contents()) && used == old(used)
      ensures ok ==> fresh(buf) && size == nsize && start == 0
      ensures !ok ==> unchanged(this)
    {
      hide IsPow2;
      if !allocOk {
        return false;
      }
      var nbuf := CopyOut(buf, start, used, nsize);
      ghost var was := Contents();
      buf, size, start := nbuf, nsize, 0;
      assert Contents() == nbuf[..used] == was;
      return true;
    }

    /** Make room for `add` bytes; the only failures are overflow beyond 2^63 and a failed allocation. */
    method Grow(add: nat, allocOk: bool) returns (ok: bool)
      requires Valid() && 0 < add < WORDS
      modifies this
      ensures Valid() && Contents() == old(Contents()) && used == old(used)
      ensures buf == old(buf) || fresh(buf)
      ensures ok ==> used + add <= size
      ensures ok <==> used + add <= old(size) || (used + add <= HALF && allocOk)
      ensures !ok ==> unchanged(this)
      ensures used + add > old(size) && ok ==> LeastPow2(size, if used + add < 4096 then 4096 else used + add)
      ensures ok ==> size == GrownTo(4096, old(size), used + add)
    {
      hide IsPow2, PowerAbove;
      if size - used >= add {
        return true;
      }
      var need := (used + add) % WORDS;
      if need <= used {
        return false;
      } else if need < 4096 {
        need := 4096;
      }
      need := AlignUp(need);
      if need == 0 {
        return false;
      }
      LeastPow2Range(need, if used + add < 4096 then 4096 else used + add);
      GrownIsLeast(4096, used + add, need);
      ok := Resize(need, allocOk);
    }

    /** Copy the bytes behind the contents. */
    method Append(u8: seq<Byte>)
      requires Valid() && used + |u8| <= size && size > 0
      modifies this`used, buf
      ensures Valid() && Contents() == old(Contents()) + u8
    {
      hide IsPow2, Window;
      ghost var b := buf[..];
      WrapIsMask(size, start + used);
      var pos := RingMask(size, start + used);
      CopyIn(buf, pos, u8);
      WindowAppend(b, buf[..], start, used, u8);
      used := used + |u8|;
    }

    method Push(u8: seq<Byte>, allocOk: bool) returns (ok: bool)
      requires Valid() && |u8| < WORDS
      modifies this, buf
      ensures Valid() && (buf == old(buf) || fresh(buf))
      ensures ok <==> old(used) + |u8| <= old(size) || (old(used) + |u8| <= HALF && allocOk)
      ensures Contents() == old(Contents()) + if ok then u8 else []
      ensures ok ==> size == GrownTo(4096, old(size), old(used) + |u8|)
      ensures !ok ==> unchanged(this)
    {
      hide IsPow2, Window, PowerAbove;
      if |u8| == 0 {
        return true;
      }
      ok := Grow(|u8|, allocOk);
      if ok {
        Append(u8);
      }
    }

    /** Removing more bytes than there are empties the ring. */
    method Pull(l: nat)
      requires Valid()
      modifies this
      ensures Valid() && buf == old(buf) && size == old(size)
      ensures Contents() == old(Contents())[Min(l, |old(Contents())|)..]
    {
      hide IsPow2, Window;
      var n := if l > used then used else l;
      WindowDrop(buf[..], start, used, n);
      if size > 0 { WrapIsMask(size, start + n); }
      start := RingMask(size, start + n);
      used := used - n;
    }
  }

  // ----- the linear buffer --------------------------------------------------------------------------------

  class Buffer {
    var buf: array<Byte>
    var size: nat
    var used: nat

    ghost predicate Valid()
      reads this
    {
      buf.Length == size && used <= size <= HALF
    }

    ghost function Contents(): seq<Byte>
      requires Valid()
      reads this, buf
    {
      buf[..used]
    }

    ghost function State(): Queue
      requires Valid()
      reads this, buf
    {
      Queue(Contents(), size)
    }

    constructor ()
      ensures Valid() && Contents() == [] && fresh(buf)
    {
      buf := new Byte[0];
      size, used := 0, 0;
    }

    method Flush()
      requires Valid()
      modifies this
      ensures Valid() && Contents() == [] && buf == old(buf) && size == old(size)
    {
      used := 0;
    }

    /** shl_greedy_realloc: at least 64 bytes, always a power of two. */
    method GreedyRealloc(need: nat, allocOk: bool) returns (ok: bool)
      requires Valid() && need < WORDS
      modifies this
      ensures Valid() && Contents() == old(Contents()) && used == old(used) && (buf == old(buf) || fresh(buf))
      ensures ok <==> need <= old(size) || (need <= HALF && allocOk)
      ensures ok ==> need <= size
      ensures ok && need > old(size) ==> LeastPow2(size, if need < 64 then 64 else need)
      ensures ok ==> size == GrownTo(64, old(size), need)
      ensures !ok ==> unchanged(this)
    {
      hide IsPow2, PowerAbove;
      if size >= need {
        return true;
      }
      var nsize := AlignUp(if need < 64 then 64 else need);
      if nsize == 0 || !allocOk {
        return false;
      }
      LeastPow2Range(nsize, if need < 64 then 64 else need);
      GrownIsLeast(64, need, nsize);
      var p := new Byte[nsize];
      forall i | 0 <= i < used { p[i] := buf[i]; }
      buf, size := p, nsize;
      return true;
    }

    method Push(d: seq<Byte>, allocOk: bool) returns (ok: bool)
      requires Valid() && |d| < WORDS
      modifies this, buf
      ensures Valid() && (buf == old(buf) || fresh(buf))
      ensures ok <==> old(used) + |d| <= old(size) || (old(used) + |d| <= HALF && allocOk)
      ensures Contents() == old(Contents()) + if ok then d else []
      ensures size == if ok then GrownTo(64, old(size), old(used) + |d|) else old(size)
    {
      hide IsPow2, PowerAbove;
      if |d| == 0 {
        return true;
      }
      var nlen := (used + |d|) % WORDS;
      if nlen <= used {
        return false;
      }
      ok := GreedyRealloc(nlen, allocOk);
      if ok {
        ghost var was := Contents();
        forall i | 0 <= i < |d| { buf[used + i] := d[i]; }
        used := used + |d|;
        assert buf[..used] == was + d;
      }
    }

    method Pop(l: nat)
      requires Valid()
      modifies this
      ensures Valid() && buf == old(buf) && size == old(size)
      ensures Contents() == old(Contents())[..|old(Contents())| - Min(|old(Contents())|, l)]
    {
      used := used - Min(used, l);
    }

    method Pull(l: nat)
      requires Valid()
      modifies this, buf
      ensures Valid() && buf == old(buf) && size == old(size)
      ensures Contents() == old(Contents())[Min(l, |old(Contents())|)..]
    {
      var n := Min(used, l);
      forall i | 0 <= i < used - n { buf[i] := buf[n + i]; }
      used := used - n;
    }
  }

  // ----- whole runs -------------------------------------------------------------------------------------

  datatype Op = Push(bytes: seq<Byte>, allocOk: bool) | Pull(n: nat) | Flush

  /** The byte-sequence specification of an operation that succeeds. */
  ghost function Apply(s: seq<Byte>, op: Op): seq<Byte> {
    match op
    case Push(d, _) => s + d
    case Pull(n) => s[Min(n, |s|)..]
    case Flush => []
  }

  /** The specification of both queues: the bytes, and the size of their buffer, which grows to powers of two. */
  datatype Queue = Queue(bytes: seq<Byte>, size: nat)

  /** There is room, or a larger buffer can be had. */
  ghost predicate Succeeds(q: Queue, op: Op) {
    op.Push? ==> |q.bytes| + |op.bytes| <= q.size || (|q.bytes| + |op.bytes| <= HALF && op.allocOk)
  }

  ghost function Next(floor: nat, q: Queue, op: Op): Queue
    requires floor >= 1
  {
    if !Succeeds(q, op) then q
    else Queue(Apply(q.bytes, op), if op.Push? then GrownTo(floor, q.size, |q.bytes| + |op.bytes|) else q.size)
  }

  ghost function Final(floor: nat, q: Queue, ops: seq<Op>): Queue
    requires floor >= 1
  {
    if ops == [] then q else Next(floor, Final(floor, q, ops[..|ops| - 1]), ops[|ops| - 1])
  }

  /** Which operations of a run succeed. */
  ghost function Answers(floor: nat, q: Queue, ops: seq<Op>): (oks: seq<bool>)
    requires floor >= 1
    ensures |oks| == |ops|
  {
    if ops == [] then []
    else
      var n := |ops| - 1;
      Answers(floor, q, ops[..n]) + [Succeeds(Final(floor, q, ops[..n]), ops[n])]
  }

  lemma Snoc(floor: nat, q: Queue, ops: seq<Op>, i: nat)
    requires floor >= 1 && i < |ops|
    ensures var before := Final(floor, q, ops[..i]);
            && Final(floor, q, ops[..i + 1]) == Next(floor, before, ops[i])
            && Answers(floor, q, ops[..i + 1]) == Answers(floor, q, ops[..i]) + [Succeeds(before, ops[i])]
  {
    assert ops[..i + 1][..i] == ops[..i];
  }

  lemma NoOps(floor: nat, q: Queue, ops: seq<Op>)
    requires floor >= 1
    ensures Final(floor, q, ops[..0]) == q && Answers(floor, q, ops[..0]) == []
  {
  }

  /** The bytes left are those of the successful operations, in order. */
  ghost function Replay(s: seq<Byte>, ops: seq<Op>, oks: seq<bool>): seq<Byte>
    requires |oks| == |ops|
  {
    if ops == [] then s
    else
      var n := |ops| - 1;
      var t := Replay(s, ops[..n], oks[..n]);
      if oks[n] then Apply(t, ops[n]) else t
  }

  lemma {:induction false} FinalIsReplay(floor: nat, q: Queue, ops: seq<Op>)
    requires floor >= 1
    ensures Final(floor, q, ops).bytes == Replay(q.bytes, ops, Answers(floor, q, ops))
  {
    if ops != [] {
      var n := |ops| - 1;
      FinalIsReplay(floor, q, ops[..n]);
      assert Answers(floor, q, ops)[..n] == Answers(floor, q, ops[..n]);
    }
  }

  /** Memory is there, and the queue never holds more than 2^63 bytes. */
  ghost predicate Ample(s: seq<Byte>, ops: seq<Op>)
    decreases |ops|
  {
    ops != [] ==>
      && (ops[0].Push? ==> ops[0].allocOk && |s| + |ops[0].bytes| <= 0x8000_0000_0000_0000)
      && Ample(Apply(s, ops[0]), ops[1..])
  }

  function TotalBytes(ops: seq<Op>): nat {
    if ops == [] then 0 else (if ops[0].Push? then |ops[0].bytes| else 0) + TotalBytes(ops[1..])
  }

  /** Memory is ample when every allocation succeeds and the bytes of all pushes fit 2^63. */
  lemma {:induction false} EnoughIsAmple(s: seq<Byte>, ops: seq<Op>)
    requires forall i :: 0 <= i < |ops| && ops[i].Push? ==> ops[i].allocOk
    requires |s| + TotalBytes(ops) <= 0x8000_0000_0000_0000
    ensures Ample(s, ops)
    decreases |ops|
  {
    if ops != [] { EnoughIsAmple(Apply(s, ops[0]), ops[1..]); }
  }

  ghost function ApplyAll(s: seq<Byte>, ops: seq<Op>): seq<Byte>
    decreases |ops|
  {
    if ops == [] then s else ApplyAll(Apply(s, ops[0]), ops[1..])
  }

  lemma {:induction false} FinalCons(floor: nat, q: Queue, ops: seq<Op>)
    requires floor >= 1 && ops != []
    ensures Final(floor, q, ops) == Final(floor, Next(floor, q, ops[0]), ops[1..])
    ensures Answers(floor, q, ops) == [Succeeds(q, ops[0])] + Answers(floor, Next(floor, q, ops[0]), ops[1..])
    decreases |ops|
  {
    var n := |ops| - 1;
    if n == 0 {
      assert ops[..0] == [] && ops[1..] == [];
    } else {
      FinalCons(floor, q, ops[..n]);
      assert ops[..n][1..] == ops[1..][..n - 1];
    }
  }

  /** With ample memory every operation succeeds. */
  lemma {:induction false} AllSucceed(floor: nat, q: Queue, ops: seq<Op>)
    requires floor >= 1 && Ample(q.bytes, ops)
    ensures Final(floor, q, ops).bytes == ApplyAll(q.bytes, ops)
    ensures forall i :: 0 <= i < |ops| ==> Answers(floor, q, ops)[i]
    decreases |ops|
  {
    if ops != [] {
      FinalCons(floor, q, ops);
      AllSucceed(floor, Next(floor, q, ops[0]), ops[1..]);
    }
  }

  method RingStep(r: Ring, op: Op) returns (ok: bool)
    requires r.Valid() && (op.Push? ==> |op.bytes| < WORDS)
    modifies r, r.buf
    ensures r.Valid() && (r.buf == old(r.buf) || fresh(r.buf))
    ensures ok == Succeeds(old(r.State()), op) && r.State() == Next(4096, old(r.State()), op)
  {
    hide Window, IsPow2, PowerAbove;
    ok := true;
    match op
    case Push(d, allocOk) => ok := r.Push(d, allocOk);
    case Pull(n) => r.Pull(n);
    case Flush => r.Flush();
  }

  method BufferStep(b: Buffer, op: Op) returns (ok: bool)
    requires b.Valid() && (op.Push? ==> |op.bytes| < WORDS)
    modifies b, b.buf
    ensures b.Valid() && (b.buf == old(b.buf) || fresh(b.buf))
    ensures ok == Succeeds(old(b.State()), op) && b.State() == Next(64, old(b.State()), op)
  {
    hide PowerAbove;
    ok := true;
    match op
    case Push(d, allocOk) => ok := b.Push(d, allocOk);
    case Pull(n) => b.Pull(n);
    case Flush => b.Flush();
  }

  ghost predicate SizedOps(ops: seq<Op>) {
    forall i :: 0 <= i < |ops| && ops[i].Push? ==> |ops[i].bytes| < WORDS
  }

  /** Every run of the ring answers and ends as the specification does. */
  method RunRing(r: Ring, ops: seq<Op>) returns (oks: seq<bool>)
    requires r.Valid() && SizedOps(ops)
    modifies r, r.buf
    ensures r.Valid() && (r.buf == old(r.buf) || fresh(r.buf))
    ensures oks == Answers(4096, old(r.State()), ops) && r.State() == Final(4096, old(r.State()), ops)
    ensures |oks| == |ops| && r.Contents() == Replay(old(r.Contents()), ops, oks)
  {
    ghost var was := r.State();
    NoOps(4096, was, ops);
    FinalIsReplay(4096, was, ops);
    hide Final, Answers, Replay, Next, Window, IsPow2, PowerAbove;
    oks := [];
    for i := 0 to |ops|
      invariant r.Valid() && (r.buf == old(r.buf) || fresh(r.buf))
      invariant oks == Answers(4096, was, ops[..i]) && r.State() == Final(4096, was, ops[..i])
    {
      Snoc(4096, was, ops, i);
      var ok := RingStep(r, ops[i]);
      oks := oks + [ok];
    }
    assert ops[..|ops|] == ops;
  }

  method RunBuffer(b: Buffer, ops: seq<Op>) returns (oks: seq<bool>)
    requires b.Valid() && SizedOps(ops)
    modifies b, b.buf
    ensures b.Valid() && (b.buf == old(b.buf) || fresh(b.buf))
    ensures oks == Answers(64, old(b.State()), ops) && b.State() == Final(64, old(b.State()), ops)
    ensures |oks| == |ops| && b.Contents() == Replay(old(b.Contents()), ops, oks)
  {
    ghost var was := b.State();
    NoOps(64, was, ops);
    FinalIsReplay(64, was, ops);
    hide Final, Answers, Replay, Next, PowerAbove;
    oks := [];
    for i := 0 to |ops|
      invariant b.Valid() && (b.buf == old(b.buf) || fresh(b.buf))
      invariant oks == Answers(64, was, ops[..i]) && b.State() == Final(64, was, ops[..i])
    {
      Snoc(64, was, ops, i);
      var ok := BufferStep(b, ops[i]);
      oks := oks + [ok];
    }
    assert ops[..|ops|] == ops;
  }

  /** The circular and the linear queue hold the same bytes after the same successful operations, and with ample
      memory all operations succeed on both. */
  method RunBoth(r: Ring, b: Buffer, ops: seq<Op>) returns (oksRing: seq<bool>, oksBuffer: seq<bool>)
    requires r.Valid() && b.Valid() && r.buf != b.buf && r.Contents() == b.Contents() && SizedOps(ops)
    modifies r, r.buf, b, b.buf
    ensures r.Valid() && b.Valid()
    ensures oksRing == oksBuffer ==> r.Contents() == b.Contents()
    ensures Ample(old(r.Contents()), ops) ==> r.Contents() == b.Contents() == ApplyAll(old(r.Contents()), ops)
  {
    ghost var ring, linear := r.State(), b.State();
    hide Final, Answers, Replay, Next, Apply, ApplyAll, Window, IsPow2, PowerAbove;
    oksRing := RunRing(r, ops);
    oksBuffer := RunBuffer(b, ops);
    if Ample(ring.bytes, ops) {
      AllSucceed(4096, ring, ops);
      AllSucceed(64, linear, ops);
    }
  }
}

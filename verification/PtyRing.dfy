/** The output queue of a pty: a ring with one slot always free, drained by partial writes. */
module PtyRing {
  import opened Words64
  import opened Queues

  /** The size of a ring that has to hold `need` bytes and a free slot. */
  function RoomFor(size: nat, need: nat): nat {
    if need < size then size else PowerAbove(1, need + 1)
  }

  lemma LeastRoom(need: nat)
    ensures LeastPow2(PowerAbove(1, need + 1), need + 1)
  {
    assert IsPow2(1);
    PowerAboveIsLeast(1, need + 1);
  }

  class Ring {
    var buf: array<Byte>
    var size: nat
    var start: nat
    var end: nat

    ghost predicate Valid()
      reads this
    {
      && buf.Length == size <= HALF
      && (size == 0 ==> start == 0 && end == 0) && (size > 0 ==> start < size && end < size && IsPow2(size))
    }

    /** Bytes in use; equal cursors mean empty, never full. */
    ghost function Used(): (n: nat)
      requires Valid()
      reads this
      ensures n == 0 <==> start == end
      ensures size > 0 ==> n < size
    {
      if start <= end then end - start else end + size - start
    }

    ghost function Contents(): seq<Byte>
      requires Valid()
      reads this, buf
    {
      Window(buf[..], start, Used())
    }

    constructor ()
      ensures Valid() && Contents() == [] && size == 0 && fresh(buf)
    {
      buf := new Byte[0];
      size, start, end := 0, 0, 0;
    }

    /** The arithmetic of ring_resize moves the contents to the front. */
    method Resize(nsize: nat, allocOk: bool) returns (ok: bool)
      requires Valid() && Used() < nsize <= HALF && IsPow2(nsize)
      modifies this
      ensures Valid() && ok == allocOk && Contents() == old(Contents()) && Used() == old(Used())
      ensures ok ==> fresh(buf) && size == nsize && start == 0
      ensures !ok ==> unchanged(this)
    {
      hide IsPow2;
      if !allocOk {
        return false;
      }
      ghost var was := Contents();
      var nbuf := CopyOut(buf, start, if start <= end then end - start else end + (size - start), nsize);
      if end == start {
        start, end := 0, 0;
      } else if end > start {
        start, end := 0, end - start;
      } else {
        start, end := 0, end + (size - start);
      }
      buf, size := nbuf, nsize;
      assert Contents() == nbuf[..Used()] == was;
      return true;
    }

    /** ring_pow2: as a size_t, 4096 for 0. */
    static method RingPow2(v: nat) returns (r: nat)
      requires v < WORDS
      ensures v == 0 ==> r == 4096
      ensures 1 <= v <= HALF ==> LeastPow2(r, v) && r <= HALF
      ensures v > HALF ==> r == 0
    {
      if v == 0 {
        return 4096;
      }
      r := SmearUp(v);
      if r == WORDS {
        r := 0;
      }
    }

    /** Room for `add` bytes and the free slot. */
    method Grow(add: nat, allocOk: bool) returns (ok: bool)
      requires Valid() && add < HALF
      modifies this
      ensures Valid() && Contents() == old(Contents()) && Used() == old(Used()) && (buf == old(buf) || fresh(buf))
      ensures ok ==> Used() + add < size
      ensures ok <==> Used() + add < old(size) || (Used() + add < HALF && allocOk)
      ensures ok && Used() + add >= old(size) ==> LeastPow2(size, Used() + add + 1)
      ensures ok ==> size == RoomFor(old(size), Used() + add)
      ensures !ok ==> unchanged(this)
    {
      hide IsPow2, PowerAbove;
      LeastRoom(Used() + add);
      var len := if end < start then start - end else start + size - end;
      if len > add {
        return true;
      }
      len := (size + add - len + 1) % WORDS;
      assert len == Used() + add + 1;
      len := RingPow2(len);
      if len <= size {
        return false;
      }
      LeastPow2Unique(len, PowerAbove(1, Used() + add + 1), Used() + add + 1);
      ok := Resize(len, allocOk);
    }

    /** One memcpy at the end cursor. */
    method AppendPiece(d: seq<Byte>)
      requires Valid() && Used() + |d| < size && end + |d| <= size
      modifies this`end, buf
      ensures Valid() && Contents() == old(Contents()) + d && end == Wrap(size, old(end) + |d|)
    {
      hide IsPow2, Window;
      ghost var b, used := buf[..], Used();
      assert end == Wrap(size, start + used);
      forall i | 0 <= i < |d| { buf[end + i] := d[i]; }
      WindowAppend(b, buf[..], start, used, d);
      WrapIsMask(size, end + |d|);
      end := RingMask(size, end + |d|);
    }

    /** Copy up to the end of the buffer, then from its beginning. */
    method Append(u8: seq<Byte>)
      requires Valid() && Used() + |u8| < size
      modifies this`end, buf
      ensures Valid() && Contents() == old(Contents()) + u8
    {
      hide IsPow2, Window;
      var l := 0;
      if start <= end {
        l := size - end;
        if l > |u8| {
          l := |u8|;
        }
        AppendPiece(u8[..l]);
      }
      if l < |u8| {
        AppendPiece(u8[l..]);
      }
    }

    method Push(u8: seq<Byte>, allocOk: bool) returns (ok: bool)
      requires Valid() && |u8| < HALF
      modifies this, buf
      ensures Valid() && (buf == old(buf) || fresh(buf))
      ensures ok <==> old(Used()) + |u8| < old(size) || (old(Used()) + |u8| < HALF && allocOk)
      ensures Contents() == old(Contents()) + if ok then u8 else []
      ensures ok ==> size == RoomFor(old(size), old(Used()) + |u8|)
      ensures !ok ==> unchanged(this)
    {
      hide IsPow2, Window, PowerAbove;
      ok := Grow(|u8|, allocOk);
      if ok {
        Append(u8);
      }
    }

    /** The segments handed out for reading: up to the end cursor or the end of the buffer, then from its start. */
    method Peek() returns (n: nat, first: seq<Byte>, second: seq<Byte>)
      requires Valid()
      ensures first + second == Contents()
      ensures first == if start <= end then buf[start..end] else buf[start..size]
      ensures second == if start <= end then [] else buf[..end]
      ensures n == if start == end then 0 else if start > end > 0 then 2 else 1
    {
      if end > start {
        return 1, buf[start..end], [];
      } else if end < start {
        return if end > 0 then 2 else 1, buf[start..size], buf[..end];
      } else {
        return 0, [], [];
      }
    }

    /** One move of the start cursor. */
    method PopPiece(l: nat)
      requires Valid() && l <= Used() && start + l <= size
      modifies this`start
      ensures Valid() && Contents() == old(Contents())[l..]
      ensures start == if size == 0 then 0 else Wrap(size, old(start) + l)
      ensures Used() == old(Used()) - l
    {
      hide IsPow2, Window;
      WindowDrop(buf[..], start, Used(), l);
      if size > 0 { WrapIsMask(size, start + l); }
      start := RingMask(size, start + l);
    }

    /** ring_pop: at most what is there, in at most two moves. */
    method Pop(len: nat)
      requires Valid()
      modifies this`start
      ensures Valid() && Contents() == old(Contents())[Min(len, |old(Contents())|)..]
    {
      hide IsPow2, Window;
      var rest := len;
      if start > end {
        var l := size - start;
        if l > rest {
          l := rest;
        }
        PopPiece(l);
        rest := rest - l;
      }
      if rest == 0 {
        return;
      }
      var l := end - start;
      if l > rest {
        l := rest;
      }
      PopPiece(l);
    }
  }

  // ----- the pty's writer -----------------------------------------------------------------------------

  datatype WriteResult = Done | NoDevice | NoMemory

  class Pty {
    var out: Ring
    var open: bool
    ghost var accepted: seq<Byte>  // all bytes of writes that were accepted
    ghost var sent: seq<Byte>      // all bytes handed to the descriptor

    /** Nothing is lost, duplicated or reordered between the callers and the descriptor. */
    ghost predicate Valid()
      reads this, out, out.buf
    {
      out.Valid() && sent + out.Contents() == accepted
    }

    ghost function State(): Model
      requires out.Valid()
      reads this, out, out.buf
    {
      Model(open, out.Contents(), out.size)
    }

    constructor ()
      ensures Valid() && fresh(out) && fresh(out.buf) && accepted == [] && sent == []
      ensures State() == Model(true, [], 0)
    {
      out := new Ring();
      open, accepted, sent := true, [], [];
    }

    /** shl_pty_write. */
    method Write(u8: seq<Byte>, allocOk: bool) returns (r: WriteResult)
      requires Valid() && |u8| < HALF
      modifies this`accepted, out, out.buf
      ensures Valid() && (out.buf == old(out.buf) || fresh(out.buf))
      ensures r == NoDevice <==> !open
      ensures r == Done <==>
                open && var need := old(out.Used()) + |u8|; need < old(out.size) || (need < HALF && allocOk)
      ensures accepted == old(accepted) + (if r == Done then u8 else [])
      ensures State() == Respond(old(State()), Step.Write(u8, allocOk)).0
    {
      hide IsPow2, Window, PowerAbove;
      if !open {
        return NoDevice;
      }
      var ok := out.Push(u8, allocOk);
      if ok {
        accepted := accepted + u8;
      }
      r := if ok then Done else NoMemory;
    }

    /** pty_write; writev takes r of the peeked bytes, or fails with a negative result. */
    method Drain(r: int)
      requires Valid() && r <= |out.Contents()|
      modifies this`sent, out`start
      ensures Valid() && out.Contents() == old(out.Contents())[if r > 0 then r else 0..]
      ensures sent == old(sent) + old(out.Contents())[..if r > 0 then r else 0]
    {
      hide IsPow2, Window;
      var num, first, second := out.Peek();
      if num == 0 {
        return;
      }
      if r >= 0 {
        sent := sent + (first + second)[..r];
        out.Pop(r);
      }
    }

    /** shl_pty_close. */
    method Close()
      modifies this`open
      ensures !open
    {
      if !open {
        return;
      }
      open := false;
    }
  }

  // ----- whole runs ----------------------------------------------------------------------------------------

  /** What happens to a pty: a write; a drain of which the descriptor would take some bytes, or fails; a close. */
  datatype Step = Write(bytes: seq<Byte>, allocOk: bool) | Drain(taken: nat, fails: bool) | Close

  /** What the caller and the descriptor see of it. */
  datatype Event = Written(result: WriteResult) | Sent(bytes: seq<Byte>) | Closed

  /** The specification: a flag, the bytes queued and the size of their buffer. */
  datatype Model = Model(open: bool, queue: seq<Byte>, size: nat)

  function Respond(m: Model, step: Step): (Model, Event) {
    match step
    case Write(d, allocOk) =>
      var need := |m.queue| + |d|;
      if !m.open then (m, Written(NoDevice))
      else if need < m.size || (need < HALF && allocOk) then
        (Model(true, m.queue + d, RoomFor(m.size, need)), Written(Done))
      else (m, Written(NoMemory))
    case Drain(taken, fails) =>
      var n := if fails || !m.open then 0 else Min(taken, |m.queue|);
      (m.(queue := m.queue[n..]), Sent(m.queue[..n]))
    case Close => (m.(open := false), Closed)
  }

  function StateAfter(m: Model, steps: seq<Step>): Model {
    if steps == [] then m else Respond(StateAfter(m, steps[..|steps| - 1]), steps[|steps| - 1]).0
  }

  function Events(m: Model, steps: seq<Step>): (evs: seq<Event>)
    ensures |evs| == |steps|
  {
    if steps == [] then []
    else
      var n := |steps| - 1;
      Events(m, steps[..n]) + [Respond(StateAfter(m, steps[..n]), steps[n]).1]
  }

  /** The bytes handed to the descriptor. */
  function SentBytes(evs: seq<Event>): seq<Byte> {
    if evs == [] then []
    else
      var n := |evs| - 1;
      SentBytes(evs[..n]) + if evs[n].Sent? then evs[n].bytes else []
  }

  /** The bytes of the writes that were accepted. */
  function AcceptedBytes(steps: seq<Step>, evs: seq<Event>): seq<Byte>
    requires |evs| == |steps|
  {
    if steps == [] then []
    else
      var n := |steps| - 1;
      AcceptedBytes(steps[..n], evs[..n]) + if steps[n].Write? && evs[n] == Written(Done) then steps[n].bytes else []
  }

  lemma OneStepMore(m: Model, steps: seq<Step>, i: nat)
    requires i < |steps|
    ensures var before := StateAfter(m, steps[..i]);
            && StateAfter(m, steps[..i + 1]) == Respond(before, steps[i]).0
            && Events(m, steps[..i + 1]) == Events(m, steps[..i]) + [Respond(before, steps[i]).1]
  {
    assert steps[..i + 1][..i] == steps[..i];
  }

  lemma SentSnoc(evs: seq<Event>, ev: Event)
    ensures SentBytes(evs + [ev]) == SentBytes(evs) + if ev.Sent? then ev.bytes else []
  {
    assert (evs + [ev])[..|evs|] == evs;
  }

  /** What was sent, followed by what is queued, is what was queued before followed by the accepted writes. */
  lemma {:induction false} Conservation(m: Model, steps: seq<Step>)
    ensures var evs := Events(m, steps);
            SentBytes(evs) + StateAfter(m, steps).queue == m.queue + AcceptedBytes(steps, evs)
  {
    if steps != [] {
      var n := |steps| - 1;
      var front, last := steps[..n], steps[n];
      Conservation(m, front);
      var q, ev := StateAfter(m, front).queue, Respond(StateAfter(m, front), last).1;
      var evs := Events(m, front);
      assert Events(m, steps)[..n] == evs;
      SentSnoc(evs, ev);
      QueueStep(StateAfter(m, front), last, SentBytes(evs));
    }
  }

  /** An open pty whose descriptor takes everything is emptied, whatever it holds. */
  lemma FullDrain(m: Model, taken: nat)
    requires m.open && taken >= |m.queue|
    ensures Respond(m, Drain(taken, false)) == (m.(queue := []), Sent(m.queue))
  {
    assert m.queue[..|m.queue|] == m.queue && m.queue[|m.queue|..] == [];
  }

  /** Behind a close nothing is accepted and nothing is sent. */
  lemma {:induction false} ClosedForGood(m: Model, steps: seq<Step>, i: nat)
    requires !m.open && i < |steps|
    ensures StateAfter(m, steps) == m
    ensures Events(m, steps)[i] == match steps[i]
                                   case Write(_, _) => Written(NoDevice)
                                   case Drain(_, _) => Sent([])
                                   case Close => Closed
    decreases |steps|
  {
    var n := |steps| - 1;
    if n > 0 { ClosedForGood(m, steps[..n], if i < n then i else 0); }
  }

  /** One step moves bytes from the queue to the descriptor, or appends accepted ones. */
  lemma QueueStep(m: Model, step: Step, sent: seq<Byte>)
    ensures var (m', ev) := Respond(m, step);
            (sent + if ev.Sent? then ev.bytes else []) + m'.queue
            == (sent + m.queue) + if step.Write? && ev == Written(Done) then step.bytes else []
  {
    if step.Drain? {
      var n := if step.fails || !m.open then 0 else Min(step.taken, |m.queue|);
      assert m.queue[..n] + m.queue[n..] == m.queue;
    }
  }

  method Perform(p: Pty, step: Step) returns (ev: Event)
    requires p.Valid() && (step.Write? ==> |step.bytes| < HALF)
    modifies p, p.out, p.out.buf
    ensures p.out == old(p.out) && p.Valid() && (p.out.buf == old(p.out.buf) || fresh(p.out.buf))
    ensures (p.State(), ev) == Respond(old(p.State()), step)
    ensures p.sent == old(p.sent) + if ev.Sent? then ev.bytes else []
  {
    hide IsPow2, Window, PowerAbove;
    match step
    case Write(d, allocOk) =>
      var r := p.Write(d, allocOk);
      ev := Written(r);
    case Drain(taken, fails) =>
      var n, first, second := p.out.Peek();
      ghost var sent := p.sent;
      var r := if fails || !p.open then -1 else Min(taken, |first| + |second|);
      p.Drain(r);
      ev := Sent((first + second)[..if r > 0 then r else 0]);
    case Close =>
      p.Close();
      ev := Closed;
  }

  /** One more step of a run that began in the state m. */
  method Advance(p: Pty, ghost m: Model, ghost sent: seq<Byte>, steps: seq<Step>, evs: seq<Event>)
    returns (evs': seq<Event>)
    requires p.Valid() && |evs| < |steps| && (steps[|evs|].Write? ==> |steps[|evs|].bytes| < HALF)
    requires p.State() == StateAfter(m, steps[..|evs|]) && evs == Events(m, steps[..|evs|])
    requires p.sent == sent + SentBytes(evs)
    modifies p, p.out, p.out.buf
    ensures p.out == old(p.out) && p.Valid() && (p.out.buf == old(p.out.buf) || fresh(p.out.buf))
    ensures |evs'| == |evs| + 1 && p.State() == StateAfter(m, steps[..|evs'|]) && evs' == Events(m, steps[..|evs'|])
    ensures p.sent == sent + SentBytes(evs')
  {
    hide IsPow2, Window, PowerAbove, StateAfter, Events, SentBytes, Respond;
    OneStepMore(m, steps, |evs|);
    var ev := Perform(p, steps[|evs|]);
    SentSnoc(evs, ev);
    evs' := evs + [ev];
  }

  /** Any interleaving of writes, partial or failing drains and a close follows the specification step by step, and
      keeps the stream intact. */
  method Run(p: Pty, steps: seq<Step>) returns (evs: seq<Event>)
    requires p.Valid() && forall i :: 0 <= i < |steps| && steps[i].Write? ==> |steps[i].bytes| < HALF
    modifies p, p.out, p.out.buf
    ensures p.out == old(p.out) && p.Valid()
    ensures p.State() == StateAfter(old(p.State()), steps) && evs == Events(old(p.State()), steps)
    ensures p.sent == old(p.sent) + SentBytes(evs)
    ensures |evs| == |steps|
            && p.sent + p.out.Contents() == old(p.sent + p.out.Contents()) + AcceptedBytes(steps, evs)
  {
    evs := [];
    ghost var m, sent := p.State(), p.sent;
    NoSteps(m, steps);
    hide IsPow2, Window, PowerAbove, StateAfter, Events, SentBytes, AcceptedBytes, Respond;
    while |evs| < |steps|
      invariant p.out == old(p.out) && p.Valid() && (p.out.buf == old(p.out.buf) || fresh(p.out.buf))
      invariant |evs| <= |steps| && p.State() == StateAfter(m, steps[..|evs|]) && evs == Events(m, steps[..|evs|])
      invariant p.sent == sent + SentBytes(evs)
    {
      evs := Advance(p, m, sent, steps, evs);
    }
    assert steps[..|steps|] == steps;
    WholeStream(m, steps, sent);
  }

  lemma NoSteps(m: Model, steps: seq<Step>)
    ensures StateAfter(m, steps[..0]) == m && Events(m, steps[..0]) == [] && SentBytes([]) == []
  {
  }

  lemma WholeStream(m: Model, steps: seq<Step>, sent: seq<Byte>)
    ensures var evs := Events(m, steps);
            (sent + SentBytes(evs)) + StateAfter(m, steps).queue == (sent + m.queue) + AcceptedBytes(steps, evs)
  {
    Conservation(m, steps);
    hide StateAfter, Events, SentBytes, AcceptedBytes;
    var evs := Events(m, steps);
    assert (sent + SentBytes(evs)) + StateAfter(m, steps).queue == sent + (SentBytes(evs) + StateAfter(m, steps).queue);
  }
}

/** The rate limiter: a window opens with the first call after the previous one expired, and admits burst calls. */
module RateLimit {
  import opened Words64

  type Time = t: nat | t < WORDS

  datatype Limit = Limit(interval: Time, begin: Time, burst: nat, num: nat)

  /** SHL_RATELIMIT_INIT. */
  function Fresh(interval: Time, burst: nat): Limit {
    Limit(interval, 0, burst, 0)
  }

  /** The window is over, or none was opened; the sum is one of 64-bit unsigned numbers. */
  predicate Expired(l: Limit, ts: Time) {
    l.begin == 0 || (l.begin + l.interval) % WORDS < ts
  }

  predicate Active(l: Limit) {
    l.interval > 0 && l.burst > 0
  }

  /** One call of shl_ratelimit_test at time ts. */
  function Step(l: Limit, ts: Time): (Limit, bool) {
    if !Active(l) then (l, true)
    else if Expired(l, ts) then (l.(begin := ts, num := 1), true)
    else if l.num < l.burst then (l.(num := l.num + 1), true)
    else (l, false)
  }

  /** The answers of a whole run. */
  function Answers(l: Limit, tss: seq<Time>): (r: seq<bool>)
    ensures |r| == |tss|
    decreases |tss|
  {
    if tss == [] then [] else [Step(l, tss[0]).1] + Answers(Step(l, tss[0]).0, tss[1..])
  }

  /** The number of accepted calls in the closed span [lo, hi]. */
  function Accepted(tss: seq<Time>, ok: seq<bool>, lo: nat, hi: nat): nat
    requires |ok| == |tss|
  {
    if tss == [] then 0
    else (if ok[0] && lo <= tss[0] <= hi then 1 else 0) + Accepted(tss[1..], ok[1..], lo, hi)
  }

  // ----- the reference: cut the run into windows ---------------------------------------------------------

  /** The number of calls at the front that come no later than the deadline. */
  function WindowLength(tss: seq<Time>, deadline: nat): (k: nat)
    ensures k <= |tss| && (k < |tss| ==> tss[k] > deadline)
  {
    if tss == [] || tss[0] > deadline then 0 else 1 + WindowLength(tss[1..], deadline)
  }

  lemma {:induction false} WindowHolds(tss: seq<Time>, deadline: nat, i: nat)
    requires i < WindowLength(tss, deadline)
    ensures tss[i] <= deadline
  {
    if i > 0 { WindowHolds(tss[1..], deadline, i - 1); }
  }

  /** A row of k answers, yes to the first ones while there is room, and what follows it. */
  function Row(k: nat, room: nat, rest: seq<bool>): (r: seq<bool>)
    ensures |r| == k + |rest|
  {
    if k == 0 then rest else [room > 0] + Row(k - 1, if room > 0 then room - 1 else 0, rest)
  }

  lemma {:induction false} RowAt(k: nat, room: nat, rest: seq<bool>, i: nat)
    requires i < k + |rest|
    ensures Row(k, room, rest)[i] == if i < k then i < room else rest[i - k]
  {
    if i > 0 && k > 0 { RowAt(k - 1, if room > 0 then room - 1 else 0, rest, i - 1); }
  }

  /** Each window spans the calls up to interval after its first one, and accepts its first burst calls. */
  function Windows(tss: seq<Time>, interval: nat, burst: nat): (r: seq<bool>)
    ensures |r| == |tss|
    decreases |tss|
  {
    if tss == [] then [] else
      var k := WindowLength(tss, tss[0] + interval);
      Row(k, burst, Windows(tss[k..], interval, burst))
  }

  ghost predicate Plausible(tss: seq<Time>, interval: nat) {
    forall i :: 0 <= i < |tss| ==> 0 < tss[i] && tss[i] + interval < WORDS
  }

  ghost predicate Monotone(tss: seq<Time>) {
    forall i, j :: 0 <= i < j < |tss| ==> tss[i] <= tss[j]
  }

  lemma WindowUnfolds(tss: seq<Time>, interval: nat, burst: nat, k: nat)
    requires tss != [] && k == WindowLength(tss[1..], tss[0] + interval)
    ensures Windows(tss, interval, burst) == Row(1 + k, burst, Windows(tss[1 + k..], interval, burst))
  {
    hide Row;
  }

  /** The first call of a window, then the window it opened. */
  lemma WindowOpens(tss: seq<Time>, interval: Time, burst: nat)
    requires tss != [] && burst > 0
    ensures Windows(tss, interval, burst) == [true] + Rest(Limit(interval, tss[0], burst, 1), tss[1..])
  {
    hide Windows, WindowLength, Row;
    var k := WindowLength(tss[1..], tss[0] + interval);
    WindowUnfolds(tss, interval, burst, k);
    RowOpens(k, burst, Windows(tss[1 + k..], interval, burst));
    SliceOfSlice(tss, k);
  }

  lemma SliceOfSlice<T>(s: seq<T>, k: nat)
    requires 1 + k <= |s|
    ensures s[1..][k..] == s[1 + k..]
  {
  }

  lemma RowOpens(k: nat, room: nat, rest: seq<bool>)
    requires room > 0
    ensures Row(1 + k, room, rest) == [true] + Row(k, room - 1, rest)
  {
  }

  /** What the windows say of the calls that follow, given the window now open. */
  ghost function Rest(l: Limit, tss: seq<Time>): seq<bool>
    requires l.num <= l.burst
  {
    var k := WindowLength(tss, l.begin + l.interval);
    Row(k, l.burst - l.num, Windows(tss[k..], l.interval, l.burst))
  }

  lemma RestEmpty(l: Limit)
    requires l.num <= l.burst
    ensures Rest(l, []) == []
  {
  }

  lemma RestExpired(l: Limit, tss: seq<Time>)
    requires tss != [] && l.num <= l.burst && l.burst > 0 && tss[0] > l.begin + l.interval
    ensures Rest(l, tss) == [true] + Rest(l.(begin := tss[0], num := 1), tss[1..])
  {
    WindowOpens(tss, l.interval, l.burst);
    assert tss[0..] == tss;
  }

  lemma RestOpen(l: Limit, tss: seq<Time>)
    requires tss != [] && l.num <= l.burst && tss[0] <= l.begin + l.interval
    ensures var l' := if l.num < l.burst then l.(num := l.num + 1) else l;
            Rest(l, tss) == [l.num < l.burst] + Rest(l', tss[1..])
  {
    var k := WindowLength(tss[1..], l.begin + l.interval);
    assert tss[1..][k..] == tss[k + 1..];
  }

  /** Within an open window the limiter answers true until the burst is used up, then starts afresh. */
  lemma {:induction false} OpenWindow(l: Limit, tss: seq<Time>)
    requires Active(l) && l.num <= l.burst && 0 < l.begin && l.begin + l.interval < WORDS && Plausible(tss, l.interval)
    ensures Answers(l, tss) == Rest(l, tss)
    decreases |tss|
  {
    hide Rest, Windows, WindowLength, Row;
    if tss == [] {
      RestEmpty(l);
    } else {
      OpenWindow(Step(l, tss[0]).0, tss[1..]);
      if Expired(l, tss[0]) { RestExpired(l, tss); } else { RestOpen(l, tss); }
    }
  }

  /** A whole run answers as the windows do: exactly the first burst calls of each. */
  lemma RunIsWindows(tss: seq<Time>, interval: Time, burst: nat)
    requires interval > 0 && burst > 0 && Plausible(tss, interval)
    ensures Answers(Fresh(interval, burst), tss) == Windows(tss, interval, burst)
  {
    if tss != [] {
      WindowOpens(tss, interval, burst);
      hide Rest, Windows, WindowLength, Row;
      OpenWindow(Step(Fresh(interval, burst), tss[0]).0, tss[1..]);
    }
  }

  /** The number of accepted calls. */
  function Yes(ok: seq<bool>): nat {
    if ok == [] then 0 else (if ok[0] then 1 else 0) + Yes(ok[1..])
  }

  lemma {:induction false} RowYes(k: nat, room: nat, rest: seq<bool>)
    ensures Yes(Row(k, room, rest)[..k]) == (if k < room then k else room)
  {
    if k > 0 {
      var room' := if room > 0 then room - 1 else 0;
      RowYes(k - 1, room', rest);
      var row := Row(k, room, rest);
      assert row[1..] == Row(k - 1, room', rest) && row[..k][1..] == row[1..][..k - 1];
    }
  }

  lemma {:induction false} RowRest(k: nat, room: nat, rest: seq<bool>)
    ensures Row(k, room, rest)[k..] == rest
  {
    if k > 0 {
      var room' := if room > 0 then room - 1 else 0;
      RowRest(k - 1, room', rest);
      var row := Row(k, room, rest);
      assert row[1..] == Row(k - 1, room', rest) && row[k..] == row[1..][k - 1..];
    }
  }

  /** The first window's row of answers. */
  lemma FirstRow(tss: seq<Time>, interval: Time, burst: nat)
    requires tss != [] && interval > 0 && burst > 0 && Plausible(tss, interval)
    ensures var l, k := Fresh(interval, burst), WindowLength(tss, tss[0] + interval);
            Answers(l, tss) == Row(k, burst, Answers(l, tss[k..]))
  {
    var k := WindowLength(tss, tss[0] + interval);
    RunIsWindows(tss, interval, burst);
    RunIsWindows(tss[k..], interval, burst);
    hide Row, Answers, WindowLength;
  }

  /** A window holds the calls up to one interval after its first one. */
  lemma WindowCalls(tss: seq<Time>, interval: nat)
    requires tss != []
    ensures var k := WindowLength(tss, tss[0] + interval);
            && (forall i :: 0 <= i < k ==> tss[i] <= tss[0] + interval) && (k < |tss| ==> tss[k] > tss[0] + interval)
  {
    var k := WindowLength(tss, tss[0] + interval);
    forall i | 0 <= i < k ensures tss[i] <= tss[0] + interval { WindowHolds(tss, tss[0] + interval, i); }
  }

  /** It accepts exactly its first burst calls, and the run goes on behind it like a new one. */
  lemma WindowByWindow(tss: seq<Time>, interval: Time, burst: nat)
    requires tss != [] && interval > 0 && burst > 0 && Plausible(tss, interval)
    ensures var ok, k := Answers(Fresh(interval, burst), tss), WindowLength(tss, tss[0] + interval);
            && (forall i :: 0 <= i < k ==> (ok[i] <==> i < burst)) && Yes(ok[..k]) == (if k < burst then k else burst)
            && ok[k..] == Answers(Fresh(interval, burst), tss[k..])
  {
    FirstRow(tss, interval, burst);
    var k := WindowLength(tss, tss[0] + interval);
    RowFacts(k, burst, Answers(Fresh(interval, burst), tss[k..]));
    hide Row, Answers, WindowLength, Yes;
  }

  lemma RowFacts(k: nat, room: nat, rest: seq<bool>)
    ensures var row := Row(k, room, rest);
            && (forall i :: 0 <= i < k ==> (row[i] <==> i < room))
            && Yes(row[..k]) == (if k < room then k else room) && row[k..] == rest
  {
    hide Row, Yes;
    forall i | 0 <= i < k ensures Row(k, room, rest)[i] <==> i < room { RowAt(k, room, rest, i); }
    RowYes(k, room, rest);
    RowRest(k, room, rest);
  }

  // ----- how many calls any span accepts -------------------------------------------------------------------

  lemma TailPlausible(tss: seq<Time>, interval: nat)
    requires tss != [] && Plausible(tss, interval) && Monotone(tss)
    ensures Plausible(tss[1..], interval) && Monotone(tss[1..])
  {
  }

  /** Until its deadline an open window accepts no more than it has left. */
  lemma {:induction false} RestOfWindow(l: Limit, tss: seq<Time>, lo: nat, hi: nat)
    requires Active(l) && l.num <= l.burst && 0 < l.begin && l.begin + l.interval < WORDS
    requires Plausible(tss, l.interval) && Monotone(tss) && hi <= l.begin + l.interval
    ensures Accepted(tss, Answers(l, tss), lo, hi) <= l.burst - l.num
    decreases |tss|
  {
    if tss != [] {
      TailPlausible(tss, l.interval);
      var l' := Step(l, tss[0]).0;
      if tss[0] <= hi {
        RestOfWindow(l', tss[1..], lo, hi);
      } else {
        Late(tss, Answers(l, tss), lo, hi);
      }
    }
  }

  lemma {:induction false} Late(tss: seq<Time>, ok: seq<bool>, lo: nat, hi: nat)
    requires |ok| == |tss| && forall i :: 0 <= i < |tss| ==> tss[i] > hi
    ensures Accepted(tss, ok, lo, hi) == 0
  {
    if tss != [] { Late(tss[1..], ok[1..], lo, hi); }
  }

  /** Once the span has begun, it meets what is left of the open window and at most one later window. */
  lemma {:induction false} SpanBegun(l: Limit, tss: seq<Time>, lo: nat, hi: nat)
    requires Active(l) && l.num <= l.burst && 0 < l.begin && l.begin + l.interval < WORDS
    requires Plausible(tss, l.interval) && Monotone(tss) && hi <= lo + l.interval && (tss != [] ==> lo <= tss[0])
    ensures Accepted(tss, Answers(l, tss), lo, hi) <= 2 * l.burst - l.num
    decreases |tss|
  {
    if tss != [] {
      TailPlausible(tss, l.interval);
      var l' := Step(l, tss[0]).0;
      if Expired(l, tss[0]) {
        RestOfWindow(l', tss[1..], lo, hi);
      } else {
        SpanBegun(l', tss[1..], lo, hi);
      }
    }
  }

  /** A window that is open when the span begins has already spent its first call. */
  lemma {:induction false} SpanAhead(l: Limit, tss: seq<Time>, lo: nat, hi: nat)
    requires Active(l) && 1 <= l.num <= l.burst && 0 < l.begin && l.begin + l.interval < WORDS
    requires Plausible(tss, l.interval) && Monotone(tss) && hi <= lo + l.interval
    ensures Accepted(tss, Answers(l, tss), lo, hi) <= 2 * l.burst - 1
    decreases |tss|
  {
    if tss != [] && tss[0] < lo {
      TailPlausible(tss, l.interval);
      SpanAhead(Step(l, tss[0]).0, tss[1..], lo, hi);
    } else {
      SpanBegun(l, tss, lo, hi);
    }
  }

  /** In every run any closed span of one interval holds fewer than two bursts of accepted calls. */
  lemma SpanBound(tss: seq<Time>, interval: Time, burst: nat, lo: nat, hi: nat)
    requires interval > 0 && burst > 0 && Plausible(tss, interval) && Monotone(tss) && hi <= lo + interval
    ensures Accepted(tss, Answers(Fresh(interval, burst), tss), lo, hi) <= 2 * burst - 1
  {
    if tss != [] {
      TailPlausible(tss, interval);
      var l := Step(Fresh(interval, burst), tss[0]).0;
      if lo <= tss[0] {
        RestOfWindow(l, tss[1..], lo, hi);
      } else {
        SpanAhead(l, tss[1..], lo, hi);
      }
    }
  }

  // ----- the bound is sharp, and fails exactly where the sum wraps ----------------------------------------

  function Calls(n: nat, t: Time): (r: seq<Time>)
    ensures |r| == n && forall i :: 0 <= i < n ==> r[i] == t
  {
    seq(n, i => t)
  }

  /** Calls at one time within an open window that has room for all of them. */
  lemma {:induction false} AllAccepted(l: Limit, n: nat, t: Time, rest: seq<Time>, lo: nat, hi: nat)
    requires Active(l) && !Expired(l, t) && l.num + n <= l.burst && lo <= t <= hi
    ensures var tss := Calls(n, t) + rest;
            var l' := l.(num := l.num + n);
            Accepted(tss, Answers(l, tss), lo, hi) == n + Accepted(rest, Answers(l', rest), lo, hi)
    decreases n
  {
    var tss := Calls(n, t) + rest;
    if n == 0 {
      assert tss == rest;
    } else {
      assert tss[1..] == Calls(n - 1, t) + rest;
      AllAccepted(l.(num := l.num + 1), n - 1, t, rest, lo, hi);
    }
  }

  /** A run that reaches the bound: late calls of one window, then a full burst of the next. */
  function Busy(interval: Time, burst: nat): seq<Time>
    requires 0 < interval && interval + interval + 2 < WORDS && burst > 0
  {
    [1] + (Calls(burst - 1, 1 + interval) + ([2 + interval] + Calls(burst - 1, 2 + interval)))
  }

  lemma BusyIsPlausible(interval: Time, burst: nat)
    requires 0 < interval && interval + interval + 2 < WORDS && burst > 0
    ensures Plausible(Busy(interval, burst), interval) && Monotone(Busy(interval, burst))
  {
    var tss := Busy(interval, burst);
    assert forall i :: 0 <= i < |tss| ==>
        tss[i] == if i == 0 then 1 else if i < burst then 1 + interval else 2 + interval;
  }

  /** The first window closes full, and the second opens. */
  lemma SecondBurst(interval: Time, burst: nat)
    requires 0 < interval && interval + interval + 2 < WORDS && burst > 0
    ensures var second := [2 + interval] + Calls(burst - 1, 2 + interval);
            Accepted(second, Answers(Limit(interval, 1, burst, burst), second), 2, 2 + interval) == burst
  {
    var last := Calls(burst - 1, 2 + interval);
    AllAccepted(Limit(interval, 2 + interval, burst, 1), burst - 1, 2 + interval, [], 2, 2 + interval);
    assert last + [] == last;
    assert ([2 + interval] + last)[1..] == last;
  }

  lemma BusyReachesBound(interval: Time, burst: nat)
    requires 0 < interval && interval + interval + 2 < WORDS && burst > 0
    ensures Accepted(Busy(interval, burst), Answers(Fresh(interval, burst), Busy(interval, burst)), 2, 2 + interval)
            == 2 * burst - 1
  {
    var tss := Busy(interval, burst);
    var second := [2 + interval] + Calls(burst - 1, 2 + interval);
    SecondBurst(interval, burst);
    AllAccepted(Limit(interval, 1, burst, 1), burst - 1, 1 + interval, second, 2, 2 + interval);
    assert tss[1..] == Calls(burst - 1, 1 + interval) + second;
    var ok := Answers(Fresh(interval, burst), tss);
    hide Calls;
    assert ok[1..] == Answers(Limit(interval, 1, burst, 1), tss[1..]);
  }

  /** One full window. */
  lemma OneBurst(interval: Time, burst: nat)
    requires 0 < interval && 1 + interval < WORDS && burst > 0
    ensures Accepted(Calls(burst, 1), Answers(Fresh(interval, burst), Calls(burst, 1)), 1, 1 + interval) == burst
  {
    var l, tss, rest := Limit(interval, 1, burst, 1), Calls(burst, 1), Calls(burst - 1, 1);
    assert tss[1..] == rest && rest + [] == rest;
    AllAccepted(l, burst - 1, 1, [], 1, 1 + interval);
    assert Step(Fresh(interval, burst), 1) == (l, true);
    assert tss == [1] + rest;
    hide Calls, Expired;
    assert Answers(Fresh(interval, burst), tss) == [true] + Answers(l, rest);
  }

  lemma {:induction false} NothingLater(tss: seq<Time>, ok: seq<bool>, lo: nat, hi: nat, last: nat)
    requires |ok| == |tss| && forall i :: 0 <= i < |tss| ==> tss[i] <= last
    ensures Accepted(tss, ok, lo, hi) <= Accepted(tss, ok, lo, last)
  {
    if tss != [] { NothingLater(tss[1..], ok[1..], lo, hi, last); }
  }

  /** With an interval so long that no second window can open, a run accepts at most one burst. */
  lemma OneWindowOnly(tss: seq<Time>, interval: Time, burst: nat, lo: nat, hi: nat)
    requires interval > 0 && burst > 0 && Plausible(tss, interval) && Monotone(tss) && interval + interval + 2 >= WORDS
    ensures Accepted(tss, Answers(Fresh(interval, burst), tss), lo, hi) <= burst
  {
    if tss != [] {
      TailPlausible(tss, interval);
      var l := Step(Fresh(interval, burst), tss[0]).0;
      var last := l.begin + interval;
      assert forall i :: 0 <= i < |tss[1..]| ==> tss[1..][i] <= last;
      NothingLater(tss[1..], Answers(l, tss[1..]), lo, hi, last);
      RestOfWindow(l, tss[1..], lo, last);
    }
  }

  /** The most calls that any span of one interval accepts, in any run. */
  function Maximum(interval: Time, burst: nat): nat
    requires burst > 0
  {
    if 1 + interval >= WORDS then 0
    else if interval + interval + 2 >= WORDS then burst
    else 2 * burst - 1
  }

  ghost predicate Admissible(tss: seq<Time>, interval: nat, lo: nat, hi: nat) {
    Plausible(tss, interval) && Monotone(tss) && hi <= lo + interval
  }

  /** No span accepts more, and some run reaches it. */
  lemma BoundIsSharp(interval: Time, burst: nat)
    requires interval > 0 && burst > 0
    ensures forall tss, lo, hi :: Admissible(tss, interval, lo, hi) ==>
              Accepted(tss, Answers(Fresh(interval, burst), tss), lo, hi) <= Maximum(interval, burst)
    ensures exists tss, lo, hi :: Admissible(tss, interval, lo, hi)
              && Accepted(tss, Answers(Fresh(interval, burst), tss), lo, hi) == Maximum(interval, burst)
  {
    forall tss: seq<Time>, lo: nat, hi: nat | Admissible(tss, interval, lo, hi)
      ensures Accepted(tss, Answers(Fresh(interval, burst), tss), lo, hi) <= Maximum(interval, burst)
    {
      if 1 + interval >= WORDS {
        NoCalls(tss, interval, burst, lo, hi);
      } else if interval + interval + 2 >= WORDS {
        OneWindowOnly(tss, interval, burst, lo, hi);
      } else {
        SpanBound(tss, interval, burst, lo, hi);
      }
    }
    if 1 + interval >= WORDS {
      NoCalls([], interval, burst, 0, 0);
      assert Admissible([], interval, 0, 0);
    } else if interval + interval + 2 >= WORDS {
      OneBurst(interval, burst);
      assert Admissible(Calls(burst, 1), interval, 1, 1 + interval);
    } else {
      BusyReachesBound(interval, burst);
      BusyIsPlausible(interval, burst);
      assert Admissible(Busy(interval, burst), interval, 2, 2 + interval);
    }
  }

  lemma NoCalls(tss: seq<Time>, interval: Time, burst: nat, lo: nat, hi: nat)
    requires Plausible(tss, interval) && 1 + interval >= WORDS
    ensures Accepted(tss, Answers(Fresh(interval, burst), tss), lo, hi) == 0
  {
    if tss != [] {
      ShortInterval(tss, interval);
      assert false;
    }
  }

  lemma ShortInterval(tss: seq<Time>, interval: nat)
    requires tss != [] && Plausible(tss, interval)
    ensures 1 + interval < WORDS
  {
    assert 0 < tss[0] && tss[0] + interval < WORDS;
  }

  /** At time zero, or where the window's end leaves 64 bits, every call opens a window. */
  lemma {:induction false} NeverLimited(l: Limit, n: nat, t: Time)
    requires Active(l) && (l.begin == 0 || l.begin == t) && (t == 0 || t + l.interval >= WORDS)
    ensures Accepted(Calls(n, t), Answers(l, Calls(n, t)), t, t + l.interval) == n
    decreases n
  {
    if n > 0 {
      assert Calls(n, t)[1..] == Calls(n - 1, t);
      assert Expired(l, t) by {
        if l.begin == t != 0 { assert (t + l.interval) % WORDS == t + l.interval - WORDS; }
      }
      NeverLimited(Step(l, t).0, n - 1, t);
    }
  }

  /** No closed span of one interval holds two bursts of accepted calls. */
  ghost predicate Bounded(interval: nat, burst: nat, tss: seq<Time>, ok: seq<bool>)
    requires |ok| == |tss|
  {
    forall lo: nat, hi: nat | hi <= lo + interval :: Accepted(tss, ok, lo, hi) <= 2 * burst - 1
  }

  lemma AlwaysBounded(interval: Time, burst: nat, tss: seq<Time>)
    requires interval > 0 && burst > 0 && Plausible(tss, interval) && Monotone(tss)
    ensures Bounded(interval, burst, tss, Answers(Fresh(interval, burst), tss))
  {
    forall lo: nat, hi: nat | hi <= lo + interval
      ensures Accepted(tss, Answers(Fresh(interval, burst), tss), lo, hi) <= 2 * burst - 1
    {
      SpanBound(tss, interval, burst, lo, hi);
    }
  }

  /** Runs that stay between time 1 and a horizon. */
  ghost predicate RunUpTo(tss: seq<Time>, horizon: Time) {
    Monotone(tss) && forall i :: 0 <= i < |tss| ==> 0 < tss[i] <= horizon
  }

  /** The limiter limits all runs up to a horizon iff a window opened there ends within 64 bits. */
  lemma LimitsExactly(interval: Time, burst: nat, horizon: Time)
    requires interval > 0 && burst > 0 && horizon > 0
    ensures (forall tss | RunUpTo(tss, horizon) :: Bounded(interval, burst, tss, Answers(Fresh(interval, burst), tss)))
            <==> horizon + interval < WORDS
  {
    if horizon + interval < WORDS {
      forall tss: seq<Time> | RunUpTo(tss, horizon)
        ensures Bounded(interval, burst, tss, Answers(Fresh(interval, burst), tss))
      {
        AlwaysBounded(interval, burst, tss);
      }
    } else {
      var tss := Calls(2 * burst, horizon);
      assert RunUpTo(tss, horizon);
      NeverLimited(Fresh(interval, burst), 2 * burst, horizon);
      assert !Bounded(interval, burst, tss, Answers(Fresh(interval, burst), tss));
    }
  }

  // ----- the object -----------------------------------------------------------------------------------------

  class Limiter {
    const interval: Time
    const burst: nat
    var begin: Time
    var num: nat

    ghost function State(): Limit reads this {
      Limit(interval, begin, burst, num)
    }

    constructor (interval: Time, burst: nat)
      ensures State() == Fresh(interval, burst)
    {
      this.interval, this.burst, begin, num := interval, burst, 0, 0;
    }

    /** SHL_RATELIMIT_RESET. */
    method Reset()
      modifies this
      ensures State() == Fresh(interval, burst)
    {
      num := 0;
      begin := 0;
    }

    /** shl_ratelimit_test, the clock read given as ts. */
    method Test(ts: Time) returns (good: bool)
      modifies this
      ensures (State(), good) == Step(old(State()), ts)
    {
      if interval <= 0 || burst <= 0 {
        return true;
      }
      if begin <= 0 || (begin + interval) % WORDS < ts {
        begin := ts;
        num := 0;
      } else if num >= burst {
        return false;
      }
      num := num + 1;
      good := true;
    }
  }

  lemma {:induction false} AnswersSnoc(l: Limit, tss: seq<Time>, ts: Time)
    ensures Answers(l, tss + [ts]) == Answers(l, tss) + [Step(After(l, tss), ts).1]
    ensures After(l, tss + [ts]) == Step(After(l, tss), ts).0
    decreases |tss|
  {
    if tss == [] {
      assert [ts][1..] == [] && tss + [ts] == [ts];
    } else {
      AnswersSnoc(Step(l, tss[0]).0, tss[1..], ts);
      assert (tss + [ts])[1..] == tss[1..] + [ts];
    }
  }

  function After(l: Limit, tss: seq<Time>): Limit
    decreases |tss|
  {
    if tss == [] then l else After(Step(l, tss[0]).0, tss[1..])
  }

  /** A limiter's whole life: one call per clock reading. */
  method Run(interval: Time, burst: nat, clock: seq<Time>) returns (ok: seq<bool>)
    ensures ok == Answers(Fresh(interval, burst), clock)
    ensures interval == 0 || burst == 0 ==> forall i :: 0 <= i < |clock| ==> ok[i]
    ensures interval > 0 && burst > 0 && Plausible(clock, interval) ==> ok == Windows(clock, interval, burst)
    ensures interval > 0 && burst > 0 && Plausible(clock, interval) && Monotone(clock) ==>
              Bounded(interval, burst, clock, ok)
  {
    var limiter := new Limiter(interval, burst);
    ok := [];
    for i := 0 to |clock|
      invariant ok == Answers(Fresh(interval, burst), clock[..i])
      invariant limiter.State() == After(Fresh(interval, burst), clock[..i])
      invariant limiter.interval == interval && limiter.burst == burst
      invariant interval == 0 || burst == 0 ==> forall j :: 0 <= j < i ==> ok[j]
    {
      AnswersSnoc(Fresh(interval, burst), clock[..i], clock[i]);
      assert clock[..i + 1] == clock[..i] + [clock[i]];
      var good := limiter.Test(clock[i]);
      ok := ok + [good];
    }
    assert clock[..|clock|] == clock;
    if interval > 0 && burst > 0 && Plausible(clock, interval) {
      RunIsWindows(clock, interval, burst);
      if Monotone(clock) {
        AlwaysBounded(interval, burst, clock);
      }
    }
  }
}

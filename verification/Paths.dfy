/** Component-wise comparison of paths. */
module Paths {
  import opened Options
  import opened Text

  const SLASH: Ch := 47

  predicate Absolute(path: Str) {
    path != [] && path[0] == SLASH
  }

  /** strspn(s, "/"): the slashes at the front. */
  function Slashes(s: Str): (k: nat)
    ensures k <= |s| && (k < |s| ==> s[k] != SLASH)
  {
    if s == [] || s[0] != SLASH then 0 else 1 + Slashes(s[1..])
  }

  /** strcspn(s, "/"): the length of the component at the front. */
  function Span(s: Str): (k: nat)
    ensures k <= |s| && (k < |s| ==> s[k] == SLASH)
    ensures SLASH !in s[..k]
  {
    if s == [] || s[0] == SLASH then 0
    else
      assert s[..1 + Span(s[1..])] == [s[0]] + s[1..][..Span(s[1..])];
      1 + Span(s[1..])
  }

  /** The components of a path; empty ones do not count. */
  function Components(s: Str): seq<Str>
    decreases |s|
  {
    if s == [] then []
    else if s[0] == SLASH then Components(s[1..])
    else [s[..Span(s)]] + Components(s[Span(s)..])
  }

  lemma {:induction false} ComponentsAreProper(s: Str, i: nat)
    requires i < |Components(s)|
    ensures Components(s)[i] != [] && 47 !in Components(s)[i]
    decreases |s|
  {
    if s[0] == SLASH {
      ComponentsAreProper(s[1..], i);
    } else if i > 0 {
      ComponentsAreProper(s[Span(s)..], i - 1);
    }
  }

  lemma {:induction false} SkipSlashes(s: Str)
    ensures Components(s[Slashes(s)..]) == Components(s)
  {
    if s != [] && s[0] == SLASH {
      SkipSlashes(s[1..]);
      assert s[1..][Slashes(s[1..])..] == s[Slashes(s)..];
    } else {
      assert s[0..] == s;
    }
  }

  lemma SkipOneMore(s: Str, p: nat)
    requires p <= |s|
    ensures var q := p + Slashes(s[p..]); q <= |s| && Components(s[q..]) == Components(s[p..])
  {
    SkipSlashes(s[p..]);
    assert s[p..][Slashes(s[p..])..] == s[p + Slashes(s[p..])..];
  }

  lemma TakeComponent(s: Str, p: nat)
    requires p < |s| && s[p] != SLASH
    ensures var q := p + Span(s[p..]); p < q <= |s| && Components(s[p..]) == [s[p..q]] + Components(s[q..])
  {
    var t := s[p..];
    assert t[..Span(t)] == s[p..p + Span(t)] && t[Span(t)..] == s[p + Span(t)..];
  }

  /** A slash separates: the components of a joined path are those of its parts. */
  lemma {:induction false} JoinedPath(a: Str, b: Str)
    ensures Components(a + [47] + b) == Components(a) + Components(b)
    decreases |a|
  {
    var s := a + [SLASH] + b;
    if a == [] {
      assert s[1..] == b;
    } else if a[0] == SLASH {
      JoinedPath(a[1..], b);
      assert s[1..] == a[1..] + [SLASH] + b;
    } else {
      var k := Span(a);
      SpanOfJoined(a, b);
      hide Span;
      JoinedPath(a[k..], b);
      assert s[..k] == a[..k] && s[k..] == a[k..] + [SLASH] + b;
      assert Components(s) == [a[..k]] + (Components(a[k..]) + Components(b));
    }
  }

  lemma {:induction false} SpanOfJoined(a: Str, b: Str)
    ensures Span(a + [SLASH] + b) == Span(a)
  {
    var s := a + [SLASH] + b;
    if a != [] && a[0] != SLASH {
      assert s[1..] == a[1..] + [SLASH] + b;
      SpanOfJoined(a[1..], b);
    }
  }

  /** Without a byte 47 a path is one component; with the lemma above this determines the components. */
  lemma OneComponent(s: Str)
    requires 47 !in s
    ensures Components(s) == if s == [] then [] else [s]
  {
    if s != [] {
      WholeSpan(s);
      assert s[..|s|] == s && s[|s|..] == [] && s[0] in s;
    }
  }

  lemma {:induction false} WholeSpan(s: Str)
    requires 47 !in s
    ensures Span(s) == |s|
  {
    if s != [] {
      assert s[0] in s;
      WholeSpan(s[1..]);
    }
  }

  lemma FirstDiffers(done: seq<Str>, a: seq<Str>, b: seq<Str>)
    requires b != [] && (a == [] || a[0] != b[0])
    ensures !(done + b <= done + a)
  {
    assert (done + b)[|done|] == b[0] && (a != [] ==> (done + a)[|done|] == a[0]);
  }

  lemma AtEnd(s: Str)
    ensures Components(s[|s|..]) == []
  {
  }

  /** What is left of the path and the prefix once the same components were passed in both. */
  ghost predicate Passed(s: Str, t: Str, p: nat, q: nat, done: seq<Str>) {
    && p <= |s| && q <= |t|
    && Components(s) == done + Components(s[p..]) && Components(t) == done + Components(t[q..])
  }

  /** Both go on with the same component. */
  lemma PassOne(s: Str, t: Str, p: nat, q: nat, done: seq<Str>, k: nat)
    requires Passed(s, t, p, q, done) && p < |s| && q < |t| && s[p] != SLASH && t[q] != SLASH
    requires k == Span(s[p..]) == Span(t[q..]) && s[p..p + k] == t[q..q + k]
    ensures k > 0 && Passed(s, t, p + k, q + k, done + [s[p..p + k]])
  {
    hide Components, Span;
    TakeComponent(s, p);
    TakeComponent(t, q);
    assert done + ([s[p..p + k]] + Components(s[p + k..])) == done + [s[p..p + k]] + Components(s[p + k..]);
  }

  /** The path ends, or goes on with another component. */
  lemma Differs(s: Str, t: Str, p: nat, q: nat, done: seq<Str>)
    requires Passed(s, t, p, q, done) && q < |t| && t[q] != SLASH
    requires p == |s| || (s[p] != SLASH && s[p..p + Span(s[p..])] != t[q..q + Span(t[q..])])
    ensures !(Components(t) <= Components(s))
  {
    TakeComponent(t, q);
    if p == |s| { AtEnd(s); } else { TakeComponent(s, p); }
    FirstDiffers(done, Components(s[p..]), Components(t[q..]));
  }

  lemma SkipBoth(s: Str, t: Str, p: nat, q: nat, done: seq<Str>)
    requires Passed(s, t, p, q, done)
    ensures Passed(s, t, p + Slashes(s[p..]), q + Slashes(t[q..]), done)
  {
    SkipOneMore(s, p);
    SkipOneMore(t, q);
  }

  lemma Found(s: Str, t: Str, p: nat, done: seq<Str>)
    requires Passed(s, t, p, |t|, done)
    ensures Components(t) <= Components(s) && Components(s[p..]) == Components(s)[|Components(t)|..]
  {
    AtEnd(t);
  }

  /** The loop: where in s the part behind the components of t begins. */
  method Behind(s: Str, t: Str) returns (r: Option<nat>)
    ensures r.Some? <==> Components(t) <= Components(s)
    ensures r.Some? ==> r.value <= |s| && Components(s[r.value..]) == Components(s)[|Components(t)|..]
                        && !Absolute(s[r.value..])
  {
    hide Components, Span, Slashes;
    var p: nat, q: nat := 0, 0;
    ghost var done: seq<Str> := [];
    assert s[0..] == s && t[0..] == t;
    while true
      invariant Passed(s, t, p, q, done)
      decreases |t| - q
    {
      SkipBoth(s, t, p, q, done);
      p, q := p + Slashes(s[p..]), q + Slashes(t[q..]);
      if q == |t| {
        Found(s, t, p, done);
        return Some(p);
      }
      if p == |s| {
        Differs(s, t, p, q, done);
        return None;
      }
      var pathl, prefixl := Span(s[p..]), Span(t[q..]);
      if pathl != prefixl || s[p..p + pathl] != t[q..q + pathl] {
        Differs(s, t, p, q, done);
        return None;
      }
      PassOne(s, t, p, q, done, pathl);
      done := done + [s[p..p + pathl]];
      p, q := p + pathl, q + prefixl;
    }
  }

  /** shl__path_startswith; a missing argument is a NULL pointer. */
  method StartsWith(path: Option<Str>, prefix: Option<Str>) returns (r: Option<nat>)
    ensures path.None? ==> r.None?
    ensures path.Some? && prefix.None? ==> r == Some(0)
    ensures path.Some? && prefix.Some? ==>
              var (all, part) := (Components(path.value), Components(prefix.value));
              && (r.Some? <==>
                    && (path.value != [] && path.value[0] == 47) == (prefix.value != [] && prefix.value[0] == 47)
                    && part <= all)
              && (r.Some? ==> r.value <= |path.value| && Components(path.value[r.value..]) == all[|part|..]
                              && (r.value < |path.value| ==> path.value[r.value] != 47))
  {
    hide Components;
    if path.None? {
      return None;
    }
    if prefix.None? {
      return Some(0);
    }
    if Absolute(path.value) != Absolute(prefix.value) {
      return None;
    }
    r := Behind(path.value, prefix.value);
  }

  /** Whatever is appended behind byte 47, a path starts with what stands before it. */
  method Below(dir: Str, name: Str) returns (r: Option<nat>)
    requires dir != []
    ensures r.Some? && r.value <= |dir + [47] + name|
    ensures Components((dir + [47] + name)[r.value..]) == Components(name)
  {
    hide Components;
    JoinedPath(dir, name);
    r := StartsWith(Some(dir + [47] + name), Some(dir));
  }

  /** An absolute path never starts with a relative prefix, nor the other way round. */
  method Mixed(path: Str, prefix: Str) returns (r: Option<nat>)
    requires path != [] && prefix != [] && (path[0] == 47) != (prefix[0] == 47)
    ensures r.None?
  {
    r := StartsWith(Some(path), Some(prefix));
  }
}

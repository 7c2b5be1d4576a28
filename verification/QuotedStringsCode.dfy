/** The loops of the quoted-string helpers, on buffers. */
module QuotedStringsCode {
  import opened QuotedStrings
  import opened Options
  import opened Text
  import opened Words64
  import Queues

  const INT_MAX: nat := 0x7fff_ffff

  /** NullWrite: the code writes through a null pointer, because it does not test an allocation. */
  datatype Result<+T> = Ok(value: T) | NoMem | NullWrite

  /** One round of the decoder: byte i is read, at most two bytes are written up to and including i. */
  method DecodeByte(str: array<Ch>, pos0: nat, i: nat, quoted0: Ch, escaped0: bool)
    returns (pos: nat, quoted: Ch, escaped: bool)
    requires i < str.Length && pos0 + (if escaped0 then 1 else 0) <= i
    modifies str
    ensures pos + (if escaped then 1 else 0) <= i + 1
    ensures State(quoted, escaped) == Step(State(quoted0, escaped0), old(str[i])).0
    ensures str[..pos] == old(str[..pos0]) + Step(State(quoted0, escaped0), old(str[i])).1
    ensures forall k :: i < k < str.Length ==> str[k] == old(str[k])
  {
    pos, quoted, escaped := pos0, quoted0, escaped0;
    var c := str[i];
    if escaped {
      escaped := false;
      var u := Unescape(c);
      if u != 0 {
        str[pos] := u;
        pos := pos + 1;
      } else if c == NUL {
        // ignore binary 0
      } else {
        str[pos] := BACKSLASH;
        pos := pos + 1;
        str[pos] := str[i];
        pos := pos + 1;
      }
    } else if quoted != 0 {
      if c == BACKSLASH {
        escaped := true;
      } else if c == DQUOTE && quoted == DQUOTE {
        quoted := 0;
      } else if c == SQUOTE && quoted == SQUOTE {
        quoted := 0;
      } else if c == NUL {
        // ignore binary 0
      } else {
        str[pos] := c;
        pos := pos + 1;
      }
    } else {
      if c == BACKSLASH {
        escaped := true;
      } else if c == DQUOTE || c == SQUOTE {
        quoted := c;
      } else if c == NUL {
        // ignore binary 0
      } else {
        str[pos] := c;
        pos := pos + 1;
      }
    }
  }

  /** shl_qstr_decode_n decodes the first n bytes of str in place; str has room for a terminator.  The
      write cursor stays behind the read cursor, even where an unknown escape writes two bytes. */
  method DecodeInPlace(str: array<Ch>, n: nat) returns (ghost len: nat)
    requires n < str.Length
    modifies str
    ensures len <= n && str[..len] == Decode(old(str[..n])) && str[len] == NUL
    ensures forall k :: n < k < str.Length ==> str[k] == old(str[k])
  {
    ghost var input := str[..n];
    var quoted: Ch := 0;
    var escaped := false;
    var pos: nat := 0;
    assert input[0..] == input;
    for i := 0 to n
      invariant pos + (if escaped then 1 else 0) <= i
      invariant forall k :: i <= k < str.Length ==> str[k] == old(str[k])
      invariant str[..pos] + DecodeFrom(State(quoted, escaped), input[i..]) == Decode(input)
    {
      assert str[i] == input[i];
      ghost var (next, out) := Step(State(quoted, escaped), input[i]);
      ghost var rest := DecodeFrom(next, input[i + 1..]);
      DecodeOne(State(quoted, escaped), input, i);
      assert str[..pos] + out + rest == str[..pos] + (out + rest);
      hide Step, DecodeFrom;
      pos, quoted, escaped := DecodeByte(str, pos, i, quoted, escaped);
    }
    if escaped {
      str[pos] := BACKSLASH;
      pos := pos + 1;
    }
    str[pos] := NUL;
    len := pos;
  }

  lemma DecodeOne(st: State, s: Str, i: nat)
    requires i < |s|
    ensures DecodeFrom(st, s[i..]) == Step(st, s[i]).1 + DecodeFrom(Step(st, s[i]).0, s[i + 1..])
  {
    assert s[i..][1..] == s[i + 1..];
  }

  /** shl__qstr_push: reserve room in the list, copy a raw token, terminate it and decode it in place.
      Of the reservations the first `room` succeed, of the allocations of tokens, which the code does not
      test, the first `tokens`. */
  method PushToken(strv: seq<Str>, raw: Str, room: nat, tokens: nat) returns (r: Result<seq<Str>>)
    ensures r == if |strv| >= room then NoMem else if |strv| >= tokens then NullWrite else Ok(strv + [Decode(raw)])
  {
    if |strv| >= room {
      return NoMem;
    }
    if |strv| >= tokens {
      return NullWrite;
    }
    var ns := new Ch[|raw| + 1];
    forall i | 0 <= i < |raw| { ns[i] := raw[i]; }
    ns[|raw|] := NUL;
    assert ns[..|raw|] == raw;
    ghost var len := DecodeInPlace(ns, |raw|);
    DecodeShrinks(State(0, false), raw);
    var token := CString(ns, len);
    return Ok(strv + [token]);
  }

  /** The string a C caller reads: everything before the first terminator. */
  method CString(a: array<Ch>, ghost len: nat) returns (s: Str)
    requires len < a.Length && a[len] == NUL && NulFree(a[..len])
    ensures s == a[..len]
  {
    var i := 0;
    while a[i] != NUL
      invariant i <= len
      decreases len - i
    {
      i := i + 1;
    }
    assert forall k :: 0 <= k < len ==> a[..len][k] != NUL;
    s := a[..i];
  }

  // ----- tokenizer ---------------------------------------------------------------------------------

  /** One byte of the scanner, as the raw tokens see it. */
  lemma ScanOne(escaped: bool, s: Str, pos: nat, i: nat)
    requires pos <= i < |s|
    ensures escaped || s[i] != SPACE ==>
              RawFrom(escaped, s[pos..i], s[i..]) == RawFrom(!escaped && s[i] == BACKSLASH, s[pos..i + 1], s[i + 1..])
    ensures !escaped && s[i] == SPACE ==>
              RawFrom(escaped, s[pos..i], s[i..]) == Token(s[pos..i]) + RawFrom(false, s[i + 1..i + 1], s[i + 1..])
  {
    assert s[i..][1..] == s[i + 1..] && s[pos..i] + [s[i]] == s[pos..i + 1];
    assert s[i + 1..i + 1] == [];
  }

  /** The scanner's quote: a matching quote closes it; the tests that should open one ask for a quote
      that is open already. */
  function ScanQuote(quoted: Ch, c: Ch): (q: Ch)
    ensures quoted == 0 ==> q == 0
  {
    if quoted != 0 then
      if (c == DQUOTE || c == SQUOTE) && quoted == c then 0 else quoted
    else
      if (c == DQUOTE || c == SQUOTE) && quoted == c then c else quoted
  }

  /** shl_qstr_tokenize_n; listOk: the list can be allocated.  The documented result, the tokens or the error,
      is delivered unless a token cannot be allocated while there is room for it in the list. */
  method Tokenize(str: Str, listOk: bool, room: nat, tokens: nat) returns (r: Result<seq<Str>>)
    ensures var n := |RawFrom(false, [], str)|;
            r == if !listOk || (n > room && room <= tokens) then NoMem
                 else if n > tokens then NullWrite
                 else if n > 0x7fff_ffff then NoMem
                 else Ok(Tokens(str))
    ensures r == NullWrite <==> listOk && tokens < room && tokens < |RawFrom(false, [], str)|
  {
    if !listOk {
      return NoMem;
    }
    var strv: seq<Str> := [];
    ghost var raw: seq<Str> := [];
    var quoted: Ch := 0;
    var escaped := false;
    var pos := 0;
    assert str[0..0] == [] && str[0..] == str;
    hide Decode, DecodeAll, RawFrom;
    for i := 0 to |str|
      invariant pos <= i && quoted == 0 && strv == DecodeAll(raw) && |strv| <= room && |strv| <= tokens
      invariant raw + RawFrom(escaped, str[pos..i], str[i..]) == RawFrom(false, [], str)
    {
      ScanOne(escaped, str, pos, i);
      if escaped {
        escaped := false;
      } else if str[i] == BACKSLASH {
        escaped := true;
      } else {
        var inQuote := quoted;
        quoted := ScanQuote(quoted, str[i]);
        if inQuote == 0 && str[i] == SPACE {
          if pos != i {
            r := PushToken(strv, str[pos..i], room, tokens);
            if !r.Ok? {
              return;
            }
            strv := r.value;
            DecodeAllSnoc(raw, str[pos..i]);
            raw := raw + [str[pos..i]];
          }
          pos := i + 1;
        }
      }
    }
    assert str[pos..|str|] == str[pos..] && str[|str|..] == [];
    RawEnd(escaped, str[pos..]);
    if pos != |str| {
      r := PushToken(strv, str[pos..], room, tokens);
      if !r.Ok? {
        return;
      }
      strv := r.value;
      DecodeAllSnoc(raw, str[pos..]);
      raw := raw + [str[pos..]];
    } else {
      assert raw + Token(str[pos..]) == raw;
    }
    if |strv| > INT_MAX {
      return NoMem;
    }
    return Ok(strv);
  }

  lemma DecodeAllSnoc(raw: seq<Str>, s: Str)
    ensures DecodeAll(raw + [s]) == DecodeAll(raw) + [Decode(s)]
  {
  }

  lemma RawEnd(escaped: bool, cur: Str)
    ensures RawFrom(escaped, cur, []) == Token(cur)
  {
  }

  // ----- joiner ---------------------------------------------------------------------------------------

  /** shl__qstr_length. */
  method Length(str: Str) returns (l: nat, needQuote: bool)
    ensures l == |str| && needQuote == NeedsQuote(str)
    ensures needQuote <==> exists i :: 0 <= i < |str| && str[i] in {32, 9, 10, 11}
  {
    needQuote := false;
    l := 0;
    while l < |str|
      invariant l <= |str|
      invariant needQuote <==> exists i :: 0 <= i < l && IsBlank(str[i])
    {
      if IsBlank(str[l]) {
        needQuote := true;
      }
      l := l + 1;
    }
  }

  /** One character: a backslash in front of a backslash or a double quote. */
  method PutChar(dst: array<Ch>, p: nat, c: Ch) returns (q: nat)
    requires p + 2 <= dst.Length
    modifies dst
    ensures p < q <= p + 2 && dst[..q] == old(dst[..p]) + EscapeChar(c)
  {
    if c == BACKSLASH || c == DQUOTE {
      dst[p] := BACKSLASH;
      dst[p + 1] := c;
      q := p + 2;
    } else {
      dst[p] := c;
      q := p + 1;
    }
  }

  lemma {:induction false} EscapeSnoc(a: Str, c: Ch)
    ensures Escape(a + [c]) == Escape(a) + EscapeChar(c)
    decreases a
  {
    hide EscapeChar;
    if a == [] {
      assert a + [c] == [c] && [c][1..] == [];
      assert EscapeChar(c) + [] == EscapeChar(c);
    } else {
      EscapeSnoc(a[1..], c);
      assert (a + [c])[1..] == a[1..] + [c];
      assert EscapeChar(a[0]) + (Escape(a[1..]) + EscapeChar(c)) == EscapeChar(a[0]) + Escape(a[1..]) + EscapeChar(c);
    }
  }

  method EscapeInto(dst: array<Ch>, p: nat, src: Str) returns (q: nat)
    requires p + 2 * |src| <= dst.Length
    modifies dst
    ensures p <= q <= p + 2 * |src| && dst[..q] == old(dst[..p]) + Escape(src)
  {
    hide EscapeChar;
    q := p;
    ghost var before := dst[..p];
    assert before + Escape(src[..0]) == before;
    for i := 0 to |src|
      invariant p <= q <= p + 2 * i && dst[..q] == before + Escape(src[..i])
    {
      EscapeSnoc(src[..i], src[i]);
      assert src[..i + 1] == src[..i] + [src[i]];
      assert before + (Escape(src[..i]) + EscapeChar(src[i])) == before + Escape(src[..i]) + EscapeChar(src[i]);
      q := PutChar(dst, q, src[i]);
    }
    assert src[..|src|] == src;
  }

  /** shl__qstr_encode: at most two bytes per character and two quotes. */
  method EncodeInto(dst: array<Ch>, at: nat, src: Str, quote: bool) returns (l: nat)
    requires at + 2 * |src| + 2 <= dst.Length
    modifies dst
    ensures l <= 2 * |src| + 2 && dst[..at + l] == old(dst[..at]) + Encode(src, quote)
  {
    hide Escape;
    if quote {
      dst[at] := DQUOTE;
      assert dst[..at + 1] == old(dst[..at]) + [DQUOTE];
      var q := EscapeInto(dst, at + 1, src);
      dst[q] := DQUOTE;
      l := q + 1 - at;
      assert dst[..at + l] == old(dst[..at]) + [DQUOTE] + Escape(src) + [DQUOTE];
    } else {
      var q := EscapeInto(dst, at, src);
      l := q - at;
    }
  }

  /** The bytes a string of length l may need behind the first len, computed as size_t; None on overflow. */
  function BytesNeeded(l: nat, len: nat): Option<nat> {
    if l * 2 % WORDS < l then None
    else
      var need := l * 2 % WORDS;
      if (need + len) % WORDS < need then None
      else
        var need := (need + len) % WORDS;
        if (need + 4) % WORDS < len then None else Some((need + 4) % WORDS)
  }

  /** The overflow tests report exactly the sums that leave 64 bits unless the two constants alone make the
      first term leave them while the first two terms do not. */
  ghost predicate Detected(l: nat, len: nat) {
    2 * l + 4 < WORDS || 2 * l + len >= WORDS
  }

  lemma BytesNeededExact(l: nat, len: nat)
    requires l < HALF && len < HALF
    ensures BytesNeeded(l, len).Some? <==> 2 * l + len < WORDS && (2 * l + len + 4 < WORDS || 2 * l + 4 >= WORDS)
    ensures (BytesNeeded(l, len).Some? <==> 2 * l + len + 4 < WORDS) <==> Detected(l, len)
    ensures 2 * l + len + 4 < WORDS ==> BytesNeeded(l, len) == Some(2 * l + len + 4)
  {
  }

  /** The longest string a C object can hold, behind a line of at most three bytes: the sum wraps unnoticed. */
  lemma LongestIsMissed(len: nat)
    ensures !Detected(HALF - 2, len) <==> len <= 3
    ensures len <= 3 ==> BytesNeeded(HALF - 2, len) == Some(len)
  {
  }

  /** The body of the join loop: reserve, separate, encode.  ok: there is memory if the line must grow. */
  method AddString(line0: array<Ch>, len0: nat, s: Str, ok: bool) returns (line: array?<Ch>, len: nat)
    requires len0 < line0.Length <= HALF && |s| < HALF && Detected(|s|, len0)
    modifies line0
    ensures var need := len0 + 2 * |s| + 4;
            && (line == null <==> need > HALF || (need > line0.Length && !ok))
            && (line != null ==> len < line.Length == Queues.GrownTo(64, line0.Length, need) <= HALF && len < need)
    ensures line != null ==> (line == line0 || fresh(line)) && line[..len] == Extend(old(line0[..len0]), s)
    ensures line == null ==> line0[..] == old(line0[..])
  {
    len := len0;
    var l, needQuote := Length(s);
    BytesNeededExact(l, len);
    var need := BytesNeeded(l, len);
    if need.None? {
      return null, len;
    }
    line := Reserve(line0, len0, need.value, ok);
    if line != null {
      len := AppendEncoded(line, len, s, needQuote);
    }
  }

  /** SHL_GREEDY_REALLOC_T on the line: the first `keep` bytes survive; sizes beyond 2^63 are refused. */
  method Reserve(line: array<Ch>, keep: nat, need: nat, ok: bool) returns (bigger: array?<Ch>)
    requires keep <= line.Length <= HALF && keep <= need < WORDS
    ensures bigger == null <==> need > HALF || (need > line.Length && !ok)
    ensures bigger != null ==> need <= bigger.Length == Queues.GrownTo(64, line.Length, need) <= HALF
    ensures bigger != null ==> bigger[..keep] == line[..keep] && (bigger == line || fresh(bigger))
  {
    if line.Length >= need {
      return line;
    }
    var v := if need < 64 then 64 else need;
    var n := Queues.AlignUp(v);
    if n == 0 || !ok {
      return null;
    }
    hide IsPow2;
    Queues.GrownIsLeast(64, need, n);
    bigger := new Ch[n];
    forall i | 0 <= i < keep { bigger[i] := line[i]; }
  }

  /** Separate and encode, inside the reserved bytes. */
  method AppendEncoded(line: array<Ch>, len0: nat, s: Str, needQuote: bool) returns (len: nat)
    requires len0 + 2 * |s| + 4 <= line.Length && needQuote == NeedsQuote(s)
    modifies line
    ensures len <= len0 + 2 * |s| + 3 && line[..len] == Extend(old(line[..len0]), s)
  {
    ghost var before := line[..len0];
    len := len0;
    if len > 0 {
      line[len] := SPACE;
      len := len + 1;
    }
    ghost var sep := line[..len];
    assert sep == if before == [] then [] else before + [SPACE];
    hide Encode, NeedsQuote;
    var n := EncodeInto(line, len, s, needQuote);
    len := len + n;
  }

  /** The join of the strings behind a line fails: it needs more than 2^63 bytes, or memory that is not there, or
      the result is longer than an int can say. */
  ghost predicate JoinFails(line: Str, capacity: nat, strs: seq<Str>, oks: seq<bool>)
    requires |oks| == |strs|
    decreases |strs|
  {
    if strs == [] then |line| > INT_MAX
    else
      var need := |line| + 2 * |strs[0]| + 4;
      need > HALF || (need > capacity && !oks[0])
      || JoinFails(Extend(line, strs[0]), Queues.GrownTo(64, capacity, need), strs[1..], oks[1..])
  }

  lemma {:induction false} JoinGrows(line: Str, strs: seq<Str>)
    ensures |line| <= |JoinFrom(line, strs)|
    ensures strs != [] ==> |Extend(line, strs[0])| <= |JoinFrom(line, strs)| && |strs[0]| <= |JoinFrom(line, strs)|
    decreases |strs|
  {
    if strs != [] {
      EscapeLength(strs[0]);
      JoinGrows(Extend(line, strs[0]), strs[1..]);
    }
  }

  /** With memory for every string, only the length of the result matters. */
  lemma {:induction false} FailsOnlyByLength(line: Str, capacity: nat, strs: seq<Str>, oks: seq<bool>)
    requires |oks| == |strs| && forall i :: 0 <= i < |oks| ==> oks[i]
    ensures JoinFails(line, capacity, strs, oks) <==> |JoinFrom(line, strs)| > 0x7fff_ffff
    decreases |strs|
  {
    if strs != [] {
      JoinGrows(line, strs);
      hide Extend, PowerAbove;
      var need := |line| + 2 * |strs[0]| + 4;
      FailsOnlyByLength(Extend(line, strs[0]), Queues.GrownTo(64, capacity, need), strs[1..], oks[1..]);
    }
  }

  /** The strings are C strings, and whenever their sizes overflow the code notices. */
  ghost predicate Joinable(line: Str, strs: seq<Str>)
    decreases |strs|
  {
    strs != [] ==>
      |strs[0]| < HALF && Detected(|strs[0]|, |line|) && Joinable(Extend(line, strs[0]), strs[1..])
  }

  /** Strings of at most 2^63 - 3 bytes can always be handed to the join. */
  lemma {:induction false} ShortStringsJoin(line: Str, strs: seq<Str>)
    requires forall i :: 0 <= i < |strs| ==> |strs[i]| <= 0x7fff_ffff_ffff_fffd
    ensures Joinable(line, strs)
    decreases |strs|
  {
    if strs != [] { ShortStringsJoin(Extend(line, strs[0]), strs[1..]); }
  }

  /** The join goes on with string number i. */
  lemma JoinOneMore(line: Str, capacity: nat, strs: seq<Str>, oks: seq<bool>, i: nat)
    requires |oks| == |strs| && i < |strs| && Joinable(line, strs[i..])
    ensures var s, need := strs[i], |line| + 2 * |strs[i]| + 4;
            && |s| < HALF && Detected(|s|, |line|) && Joinable(Extend(line, s), strs[i + 1..])
            && JoinFrom(line, strs[i..]) == JoinFrom(Extend(line, s), strs[i + 1..])
            && (JoinFails(line, capacity, strs[i..], oks[i..]) <==>
                  need > HALF || (need > capacity && !oks[i])
                  || JoinFails(Extend(line, s), Queues.GrownTo(64, capacity, need), strs[i + 1..], oks[i + 1..]))
  {
    assert strs[i..][1..] == strs[i + 1..] && oks[i..][1..] == oks[i + 1..];
    hide Extend, PowerAbove;
  }

  lemma JoinEnds(line: Str, capacity: nat)
    ensures JoinFrom(line, []) == line && (JoinFails(line, capacity, [], []) <==> |line| > INT_MAX)
  {
  }

  /** shl_qstr_join; firstOk and oks say whether there is memory for the line and for growing it at each string.
      Every write stays inside the reserved bytes. */
  method JoinStrings(strs: seq<Str>, firstOk: bool, oks: seq<bool>) returns (r: Result<Str>)
    requires |oks| == |strs| && Joinable([], strs)
    ensures r == if !firstOk || JoinFails([], 64, strs, oks) then NoMem else Ok(Join(strs))
    ensures firstOk && (forall i :: 0 <= i < |oks| ==> oks[i]) ==>
              r == if |Join(strs)| <= 0x7fff_ffff then Ok(Join(strs)) else NoMem
  {
    hide JoinFrom, JoinFails, Joinable;
    r := JoinLine(strs, firstOk, oks);
    if forall i :: 0 <= i < |oks| ==> oks[i] { FailsOnlyByLength([], 64, strs, oks); }
  }

  method JoinLine(strs: seq<Str>, firstOk: bool, oks: seq<bool>) returns (r: Result<Str>)
    requires |oks| == |strs| && Joinable([], strs)
    ensures r == if !firstOk || JoinFails([], 64, strs, oks) then NoMem else Ok(Join(strs))
  {
    if !firstOk {
      return NoMem;
    }
    var line: array<Ch> := new Ch[64];
    line[0] := NUL;
    var len: nat := 0;
    assert strs[0..] == strs && oks[0..] == oks && line[..0] == [];
    hide Extend, NeedsQuote, PowerAbove, JoinFrom, JoinFails, Joinable;
    for i := 0 to |strs|
      invariant fresh(line) && len < line.Length <= HALF && Joinable(line[..len], strs[i..])
      invariant JoinFrom(line[..len], strs[i..]) == Join(strs)
      invariant JoinFails(line[..len], line.Length, strs[i..], oks[i..]) == JoinFails([], 64, strs, oks)
    {
      JoinOneMore(line[..len], line.Length, strs, oks, i);
      var bigger, n := AddString(line, len, strs[i], oks[i]);
      if bigger == null {
        return NoMem;
      }
      line, len := bigger, n;
    }
    JoinEnds(line[..len], line.Length);
    assert strs[|strs|..] == [] && oks[|strs|..] == [];
    if len > INT_MAX {
      return NoMem;
    }
    line[len] := NUL;
    return Ok(line[..len]);
  }

  lemma {:induction false} RawCount(escaped: bool, cur: Str, s: Str)
    ensures |RawFrom(escaped, cur, s)| <= |s| + if cur == [] then 0 else 1
    decreases s
  {
    if s != [] {
      RawCount(false, cur + [s[0]], s[1..]);
      RawCount(true, cur + [s[0]], s[1..]);
      RawCount(false, [], s[1..]);
    }
  }

  /** Joining and tokenizing, with all memory that is asked for: a line that an int can measure comes about and is
      taken apart again, and gives the list back iff every string survives. */
  method JoinThenTokenize(strs: seq<Str>) returns (line: Result<Str>, tokens: Result<seq<Str>>)
    requires Joinable([], strs) && forall i :: 0 <= i < |strs| ==> NulFree(strs[i])
    ensures |Join(strs)| <= 0x7fff_ffff ==> line == Ok(Join(strs)) && tokens.Ok?
    ensures |Join(strs)| > 0x7fff_ffff ==> line == NoMem
    ensures line.Ok? ==>
              (tokens == Ok(strs) <==>
                 forall i :: 0 <= i < |strs| ==>
                   && strs[i] != [] && 32 !in strs[i]
                   && (39 in strs[i] ==> 9 in strs[i] || 10 in strs[i] || 11 in strs[i]))
  {
    hide Join, Tokens, RawFrom, JoinFails;
    line := JoinStrings(strs, true, seq(|strs|, i => true));
    tokens := NoMem;
    if line.Ok? {
      RawCount(false, [], line.value);
      tokens := Tokenize(line.value, true, |line.value|, |line.value|);
      RoundTrip(strs);
    }
  }
}

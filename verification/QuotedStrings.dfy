/** Quoted strings: decoding, tokenizing and joining, as pure functions over bytes.

    These are the specifications of the loops in QuotedStringsCode; the round-trip theorem is stated
    and proved here. */
module QuotedStrings {
  import opened Text

  const BELL: Ch := 7
  const BACKSPACE: Ch := 8
  const TAB: Ch := 9
  const NEWLINE: Ch := 10
  const VTAB: Ch := 11
  const FORMFEED: Ch := 12
  const RETURN: Ch := 13
  const SPACE: Ch := 32
  const DQUOTE: Ch := 34
  const SQUOTE: Ch := 39
  const BACKSLASH: Ch := 92

  /** shl_qstr_unescape_char: 0 for characters that are no escapes. */
  function Unescape(c: Ch): Ch {
    if c == 97 then BELL
    else if c == 98 then BACKSPACE
    else if c == 102 then FORMFEED
    else if c == 110 then NEWLINE
    else if c == 114 then RETURN
    else if c == 116 then TAB
    else if c == 118 then VTAB
    else if c == DQUOTE then DQUOTE
    else if c == SQUOTE then SQUOTE
    else if c == BACKSLASH then BACKSLASH
    else 0
  }

  // ----- decoding -----------------------------------------------------------------------------------

  /** The decoder's state: the quote it is in (0 for none) and whether the last byte was a backslash. */
  datatype State = State(quoted: Ch, escaped: bool)

  /** One input byte: the new state and the bytes written. */
  function Step(st: State, c: Ch): (State, Str) {
    if st.escaped then
      (State(st.quoted, false),
       if Unescape(c) != 0 then [Unescape(c)] else if c == NUL then [] else [BACKSLASH, c])
    else if c == BACKSLASH then (State(st.quoted, true), [])
    else if st.quoted != 0 then
      if (c == DQUOTE && st.quoted == DQUOTE) || (c == SQUOTE && st.quoted == SQUOTE) then (State(0, false), [])
      else (st, if c == NUL then [] else [c])
    else if c == DQUOTE || c == SQUOTE then (State(c, false), [])
    else (st, if c == NUL then [] else [c])
  }

  function DecodeFrom(st: State, s: Str): Str
    decreases s
  {
    if s == [] then (if st.escaped then [BACKSLASH] else [])
    else var (st', out) := Step(st, s[0]); out + DecodeFrom(st', s[1..])
  }

  function Decode(s: Str): Str {
    DecodeFrom(State(0, false), s)
  }

  /** The output is never longer than the input and holds no terminator. */
  lemma {:induction false} DecodeShrinks(st: State, s: Str)
    ensures |DecodeFrom(st, s)| <= |s| + (if st.escaped then 1 else 0)
    ensures NulFree(DecodeFrom(st, s))
    decreases s
  {
    if s != [] {
      DecodeShrinks(Step(st, s[0]).0, s[1..]);
    }
  }

  // ----- what the bytes mean ---------------------------------------------------------------------------

  lemma EscapedByte(q: Ch, c: Ch, rest: Str)
    ensures DecodeFrom(State(q, false), [92, c] + rest)
            == (if Unescape(c) != 0 then [Unescape(c)] else if c == 0 then [] else [92, c])
               + DecodeFrom(State(q, false), rest)
  {
    var s: Str := [92, c] + rest;
    assert s[1..] == [c] + rest && s[1..][1..] == rest;
  }

  /** The ten escapes, in every quoting state. */
  lemma EscapeRules(q: Ch, rest: Str)
    ensures DecodeFrom(State(q, false), ['\\' as int, 'a' as int] + rest) == [7] + DecodeFrom(State(q, false), rest)
    ensures DecodeFrom(State(q, false), ['\\' as int, 'b' as int] + rest) == [8] + DecodeFrom(State(q, false), rest)
    ensures DecodeFrom(State(q, false), ['\\' as int, 't' as int] + rest)
            == ['\t' as int] + DecodeFrom(State(q, false), rest)
    ensures DecodeFrom(State(q, false), ['\\' as int, 'n' as int] + rest)
            == ['\n' as int] + DecodeFrom(State(q, false), rest)
    ensures DecodeFrom(State(q, false), ['\\' as int, 'v' as int] + rest) == [11] + DecodeFrom(State(q, false), rest)
    ensures DecodeFrom(State(q, false), ['\\' as int, 'f' as int] + rest) == [12] + DecodeFrom(State(q, false), rest)
    ensures DecodeFrom(State(q, false), ['\\' as int, 'r' as int] + rest)
            == ['\r' as int] + DecodeFrom(State(q, false), rest)
    ensures DecodeFrom(State(q, false), ['\\' as int, '\"' as int] + rest)
            == ['\"' as int] + DecodeFrom(State(q, false), rest)
    ensures DecodeFrom(State(q, false), ['\\' as int, '\'' as int] + rest)
            == ['\'' as int] + DecodeFrom(State(q, false), rest)
    ensures DecodeFrom(State(q, false), ['\\' as int, '\\' as int] + rest)
            == ['\\' as int] + DecodeFrom(State(q, false), rest)
  {
    hide DecodeFrom;
    EscapedByte(q, 'a' as int, rest);
    EscapedByte(q, 'b' as int, rest);
    EscapedByte(q, 't' as int, rest);
    EscapedByte(q, 'n' as int, rest);
    EscapedByte(q, 'v' as int, rest);
    EscapedByte(q, 'f' as int, rest);
    EscapedByte(q, 'r' as int, rest);
    EscapedByte(q, '\"' as int, rest);
    EscapedByte(q, '\'' as int, rest);
    EscapedByte(q, '\\' as int, rest);
  }

  /** Any other byte keeps its backslash, a zero byte vanishes with it, and a trailing backslash stays. */
  lemma OtherEscapes(q: Ch, c: Ch, rest: Str)
    ensures c !in {0, 34, 39, 92, 97, 98, 102, 110, 114, 116, 118} ==>
              DecodeFrom(State(q, false), [92, c] + rest) == [92, c] + DecodeFrom(State(q, false), rest)
    ensures DecodeFrom(State(q, false), [92, 0] + rest) == DecodeFrom(State(q, false), rest)
    ensures DecodeFrom(State(q, false), [92]) == [92]
  {
    EscapedByte(q, c, rest);
    EscapedByte(q, 0, rest);
    var s: Str := [92];
    assert s[1..] == [];
  }

  lemma UnescapedByte(st: State, c: Ch, rest: Str)
    requires !st.escaped && c != 92
    ensures var (st', out) := Step(st, c); DecodeFrom(st, [c] + rest) == out + DecodeFrom(st', rest)
  {
    assert ([c] + rest)[1..] == rest;
  }

  /** Without a backslash: either quote opens a quotation that only the same quote closes; all other bytes but zero
      are kept as they are. */
  lemma PlainRules(q: Ch, c: Ch, rest: Str)
    requires q in {0, 34, 39} && c != 92
    ensures q == 0 && c in {34, 39} ==> DecodeFrom(State(q, false), [c] + rest) == DecodeFrom(State(c, false), rest)
    ensures q != 0 && c == q ==> DecodeFrom(State(q, false), [c] + rest) == DecodeFrom(State(0, false), rest)
    ensures c == 0 ==> DecodeFrom(State(q, false), [c] + rest) == DecodeFrom(State(q, false), rest)
    ensures c != 0 && c != q && (q == 0 ==> c !in {34, 39}) ==>
              DecodeFrom(State(q, false), [c] + rest) == [c] + DecodeFrom(State(q, false), rest)
    ensures DecodeFrom(State(q, false), []) == []
  {
    UnescapedByte(State(q, false), c, rest);
  }

  /** The tokenizer cuts at byte 32 unless byte 92 stands before it, and nowhere else. */
  lemma TokenRules(cur: Str, c: Ch, rest: Str)
    ensures RawFrom(false, cur, [32] + rest) == (if cur == [] then [] else [cur]) + RawFrom(false, [], rest)
    ensures RawFrom(false, cur, [92, c] + rest) == RawFrom(false, cur + [92, c], rest)
    ensures c != 32 && c != 92 ==> RawFrom(false, cur, [c] + rest) == RawFrom(false, cur + [c], rest)
    ensures RawFrom(false, cur, []) == if cur == [] then [] else [cur]
    ensures RawFrom(false, cur, [92]) == [cur + [92]]
  {
    assert ([32] + rest)[1..] == rest && ([c] + rest)[1..] == rest;
    var s: Str := [92, c] + rest;
    assert s[1..] == [c] + rest && s[1..][1..] == rest && cur + [92] + [c] == cur + [92, c];
    var b: Str := [92];
    assert b[1..] == [];
  }

  /** The encoder writes byte 92 before 92 and 34, and puts 34 around a string that holds 32, 9, 10 or 11. */
  lemma EncodeRules(s: Str, c: Ch)
    ensures NeedsQuote(s) <==> 32 in s || 9 in s || 10 in s || 11 in s
    ensures Encode(s, NeedsQuote(s)) == if NeedsQuote(s) then [34] + Escape(s) + [34] else Escape(s)
    ensures Escape([]) == [] && Escape([c] + s) == (if c == 92 || c == 34 then [92, c] else [c]) + Escape(s)
  {
    assert ([c] + s)[1..] == s;
  }

  /** Joined strings are separated by one byte 32. */
  lemma {:induction false} JoinRules(line: Str, strs: seq<Str>, s: Str)
    ensures JoinFrom(line, strs + [s])
            == (if JoinFrom(line, strs) == [] then [] else JoinFrom(line, strs) + [32]) + Encode(s, NeedsQuote(s))
    ensures Join([]) == []
    decreases |strs|
  {
    if strs == [] {
      assert strs + [s] == [s] && [s][1..] == [];
    } else {
      assert (strs + [s])[1..] == strs[1..] + [s];
      JoinRules(Extend(line, strs[0]), strs[1..], s);
    }
  }

  // ----- tokenizing ----------------------------------------------------------------------------------

  function Token(cur: Str): seq<Str> {
    if cur != [] then [cur] else []
  }

  /** Raw tokens: the pieces between spaces that no backslash protects.  Quotes do not protect
      spaces, because the scanner only opens a quote when it is already inside one. */
  function RawFrom(escaped: bool, cur: Str, s: Str): seq<Str>
    decreases s
  {
    if s == [] then Token(cur)
    else if escaped then RawFrom(false, cur + [s[0]], s[1..])
    else if s[0] == BACKSLASH then RawFrom(true, cur + [s[0]], s[1..])
    else if s[0] == SPACE then Token(cur) + RawFrom(false, [], s[1..])
    else RawFrom(false, cur + [s[0]], s[1..])
  }

  function DecodeAll(raw: seq<Str>): (r: seq<Str>)
    ensures |r| == |raw| && forall i :: 0 <= i < |raw| ==> r[i] == Decode(raw[i])
  {
    seq(|raw|, i requires 0 <= i < |raw| => Decode(raw[i]))
  }

  function Tokens(s: Str): seq<Str> {
    DecodeAll(RawFrom(false, [], s))
  }

  // ----- joining --------------------------------------------------------------------------------------

  predicate IsBlank(c: Ch) {
    c == SPACE || c == TAB || c == NEWLINE || c == VTAB
  }

  /** shl__qstr_length's flag. */
  predicate NeedsQuote(s: Str) {
    exists i :: 0 <= i < |s| && IsBlank(s[i])
  }

  function EscapeChar(c: Ch): Str {
    if c == BACKSLASH || c == DQUOTE then [BACKSLASH, c] else [c]
  }

  function Escape(s: Str): Str {
    if s == [] then [] else EscapeChar(s[0]) + Escape(s[1..])
  }

  function Encode(s: Str, quote: bool): Str {
    if quote then [DQUOTE] + Escape(s) + [DQUOTE] else Escape(s)
  }

  /** The line so far, extended by one string; a separator follows only a non-empty line. */
  function Extend(line: Str, s: Str): Str {
    (if line == [] then [] else line + [SPACE]) + Encode(s, NeedsQuote(s))
  }

  function JoinFrom(line: Str, strs: seq<Str>): Str
    decreases |strs|
  {
    if strs == [] then line else JoinFrom(Extend(line, strs[0]), strs[1..])
  }

  function Join(strs: seq<Str>): Str {
    JoinFrom([], strs)
  }

  lemma {:induction false} EscapeLength(s: Str)
    ensures |s| <= |Escape(s)| <= 2 * |s|
  {
    if s != [] { EscapeLength(s[1..]); }
  }

  // ----- decoding undoes encoding ------------------------------------------------------------------------

  /** Inside double quotes every byte comes back. */
  lemma {:induction false} DecodeQuoted(s: Str)
    requires NulFree(s)
    ensures DecodeFrom(State(DQUOTE, false), Escape(s) + [DQUOTE]) == s
  {
    var st := State(DQUOTE, false);
    if s == [] {
      assert Escape(s) + [DQUOTE] == [DQUOTE];
    } else {
      var e := Escape(s[1..]) + [DQUOTE];
      DecodeQuoted(s[1..]);
      if s[0] == BACKSLASH || s[0] == DQUOTE {
        TwoSteps(st, s[0], e);
        assert Escape(s) + [DQUOTE] == [BACKSLASH, s[0]] + e;
      } else {
        assert Escape(s) + [DQUOTE] == [s[0]] + e;
      }
    }
  }

  /** An escaped backslash or double quote decodes to itself in every quoting state. */
  lemma TwoSteps(st: State, c: Ch, rest: Str)
    requires !st.escaped && (c == BACKSLASH || c == DQUOTE)
    ensures DecodeFrom(st, [BACKSLASH, c] + rest) == [c] + DecodeFrom(st, rest)
  {
    var s := [BACKSLASH, c] + rest;
    assert s[1..] == [c] + rest && ([c] + rest)[1..] == rest;
    assert DecodeFrom(st, s) == DecodeFrom(State(st.quoted, true), [c] + rest);
  }

  function Strip(s: Str): Str {
    if s == [] then [] else (if s[0] == SQUOTE then [] else [s[0]]) + Strip(s[1..])
  }

  /** Outside double quotes single quotes are swallowed. */
  lemma {:induction false} DecodeUnquoted(q: Ch, s: Str)
    requires NulFree(s) && (q == 0 || q == SQUOTE)
    ensures DecodeFrom(State(q, false), Escape(s)) == Strip(s)
    decreases s
  {
    if s != [] {
      var c, e := s[0], Escape(s[1..]);
      if c == BACKSLASH || c == DQUOTE {
        DecodeUnquoted(q, s[1..]);
        TwoSteps(State(q, false), c, e);
      } else if c == SQUOTE {
        DecodeUnquoted(if q == 0 then SQUOTE else 0, s[1..]);
      } else {
        DecodeUnquoted(q, s[1..]);
      }
    }
  }

  lemma {:induction false} StripKeeps(s: Str)
    ensures |Strip(s)| <= |s|
    ensures Strip(s) == s <==> SQUOTE !in s
  {
    if s != [] {
      StripKeeps(s[1..]);
      if s[0] != SQUOTE {
        assert Strip(s) == [s[0]] + Strip(s[1..]);
        assert s == [s[0]] + s[1..];
        assert Strip(s)[1..] == Strip(s[1..]);
      }
    }
  }

  lemma DecodeEncode(s: Str)
    requires NulFree(s)
    ensures Decode(Encode(s, NeedsQuote(s))) == s <==> (SQUOTE in s ==> NeedsQuote(s))
  {
    if NeedsQuote(s) {
      DecodeQuoted(s);
      assert Encode(s, true)[1..] == Escape(s) + [DQUOTE];
    } else {
      DecodeUnquoted(0, s);
      StripKeeps(s);
    }
  }

  // ----- escapes in a joined line ---------------------------------------------------------------------------

  /** Whether the next byte is protected. */
  function EscEnd(escaped: bool, s: Str): bool
    decreases s
  {
    if s == [] then escaped else EscEnd(!escaped && s[0] == BACKSLASH, s[1..])
  }

  /** No space is protected by a backslash. */
  predicate EscSafe(escaped: bool, s: Str)
    decreases s
  {
    s == [] || ((escaped ==> s[0] != SPACE) && EscSafe(!escaped && s[0] == BACKSLASH, s[1..]))
  }

  lemma {:induction false} EscConcat(escaped: bool, a: Str, b: Str)
    ensures EscEnd(escaped, a + b) == EscEnd(EscEnd(escaped, a), b)
    ensures EscSafe(escaped, a + b) <==> EscSafe(escaped, a) && EscSafe(EscEnd(escaped, a), b)
    decreases a
  {
    if a == [] {
      assert a + b == b;
    } else {
      assert (a + b)[1..] == a[1..] + b;
      EscConcat(!escaped && a[0] == BACKSLASH, a[1..], b);
    }
  }

  lemma {:induction false} EscapeSafe(s: Str)
    ensures EscSafe(false, Escape(s)) && !EscEnd(false, Escape(s))
  {
    if s != [] {
      EscapeSafe(s[1..]);
      var c := s[0];
      HeadSafe(c);
      EscConcat(false, EscapeChar(c), Escape(s[1..]));
    }
  }

  lemma HeadSafe(c: Ch)
    ensures EscSafe(false, EscapeChar(c)) && !EscEnd(false, EscapeChar(c))
  {
    var t: Str := [c];
    assert t[1..] == [];
    assert !EscEnd(true, t) && (c != BACKSLASH ==> !EscEnd(false, t)) && (c != SPACE ==> EscSafe(true, t));
    var h: Str := [BACKSLASH, c];
    assert h[1..] == t;
  }

  lemma EncodeSafe(s: Str, quote: bool)
    ensures EscSafe(false, Encode(s, quote)) && !EscEnd(false, Encode(s, quote))
  {
    EscapeSafe(s);
    if quote {
      assert [DQUOTE][1..] == [];
      EscConcat(false, [DQUOTE], Escape(s));
      EscConcat(false, [DQUOTE] + Escape(s), [DQUOTE]);
    }
  }

  lemma ExtendSafe(line: Str, s: Str)
    requires EscSafe(false, line) && !EscEnd(false, line)
    ensures EscSafe(false, Extend(line, s)) && !EscEnd(false, Extend(line, s))
  {
    EncodeSafe(s, NeedsQuote(s));
    var e := Encode(s, NeedsQuote(s));
    if line == [] {
      assert Extend(line, s) == e;
    } else {
      assert [SPACE][1..] == [];
      EscConcat(false, line, [SPACE]);
      EscConcat(false, line + [SPACE], e);
    }
  }

  lemma {:induction false} JoinSafe(line: Str, strs: seq<Str>)
    requires EscSafe(false, line) && !EscEnd(false, line)
    ensures EscSafe(false, JoinFrom(line, strs))
    decreases |strs|
  {
    if strs != [] {
      ExtendSafe(line, strs[0]);
      JoinSafe(Extend(line, strs[0]), strs[1..]);
    }
  }

  // ----- tokens of a joined line --------------------------------------------------------------------------------

  lemma {:induction false} RawHasNoSpace(escaped: bool, cur: Str, s: Str)
    requires EscSafe(escaped, s) && SPACE !in cur
    ensures forall i :: 0 <= i < |RawFrom(escaped, cur, s)| ==> SPACE !in RawFrom(escaped, cur, s)[i]
    decreases s
  {
    if s != [] {
      if !escaped && s[0] == SPACE {
        RawHasNoSpace(false, [], s[1..]);
      } else {
        RawHasNoSpace(!escaped && s[0] == BACKSLASH, cur + [s[0]], s[1..]);
      }
    }
  }

  lemma {:induction false} DecodeHasNoSpace(st: State, s: Str)
    requires SPACE !in s
    ensures SPACE !in DecodeFrom(st, s)
    decreases s
  {
    if s != [] {
      assert s[0] in s;
      DecodeHasNoSpace(Step(st, s[0]).0, s[1..]);
    }
  }

  /** No token of a joined line contains a space. */
  lemma TokensHaveNoSpace(strs: seq<Str>)
    ensures forall i :: 0 <= i < |Tokens(Join(strs))| ==> SPACE !in Tokens(Join(strs))[i]
  {
    JoinSafe([], strs);
    var raw := RawFrom(false, [], Join(strs));
    RawHasNoSpace(false, [], Join(strs));
    forall i | 0 <= i < |raw| ensures SPACE !in Decode(raw[i]) {
      DecodeHasNoSpace(State(0, false), raw[i]);
    }
  }

  /** A space behind an unprotected end separates tokens. */
  lemma {:induction false} RawSplit(escaped: bool, cur: Str, a: Str, b: Str)
    requires !EscEnd(escaped, a)
    ensures RawFrom(escaped, cur, a + [SPACE] + b) == RawFrom(escaped, cur, a) + RawFrom(false, [], b)
    decreases a
  {
    var s := a + [SPACE] + b;
    if a == [] {
      assert s[1..] == b;
    } else {
      assert s[1..] == a[1..] + [SPACE] + b;
      if !escaped && a[0] == SPACE {
        RawSplit(false, [], a[1..], b);
      } else {
        RawSplit(!escaped && a[0] == BACKSLASH, cur + [a[0]], a[1..], b);
      }
    }
  }

  /** A string without spaces is one token. */
  lemma {:induction false} RawWhole(escaped: bool, cur: Str, s: Str)
    requires SPACE !in s
    ensures RawFrom(escaped, cur, s) == Token(cur + s)
    decreases s
  {
    if s == [] {
      assert cur + s == cur;
    } else {
      assert s[0] in s;
      RawWhole(!escaped && s[0] == BACKSLASH, cur + [s[0]], s[1..]);
      assert cur + [s[0]] + s[1..] == cur + s;
    }
  }

  lemma {:induction false} EscapeNoSpace(s: Str)
    requires SPACE !in s
    ensures SPACE !in Escape(s)
  {
    if s != [] {
      assert s[0] in s;
      EscapeNoSpace(s[1..]);
    }
  }

  /** The encoded forms of the non-empty strings. */
  function EncodedForms(strs: seq<Str>): seq<Str> {
    if strs == [] then [] else Token(Encode(strs[0], NeedsQuote(strs[0]))) + EncodedForms(strs[1..])
  }

  lemma RawOfExtended(line: Str, s: Str)
    requires !EscEnd(false, line) && SPACE !in s
    ensures RawFrom(false, [], Extend(line, s)) == RawFrom(false, [], line) + Token(Encode(s, NeedsQuote(s)))
  {
    var e := Encode(s, NeedsQuote(s));
    EscapeNoSpace(s);
    RawWhole(false, [], e);
    assert [] + e == e;
    if line == [] {
      assert Extend(line, s) == e;
    } else {
      RawSplit(false, [], line, e);
    }
  }

  lemma {:induction false} RawOfJoin(line: Str, strs: seq<Str>)
    requires EscSafe(false, line) && !EscEnd(false, line)
    requires forall i :: 0 <= i < |strs| ==> SPACE !in strs[i]
    ensures RawFrom(false, [], JoinFrom(line, strs)) == RawFrom(false, [], line) + EncodedForms(strs)
    decreases |strs|
  {
    if strs != [] {
      ExtendSafe(line, strs[0]);
      RawOfExtended(line, strs[0]);
      RawOfJoin(Extend(line, strs[0]), strs[1..]);
      hide Extend, Encode, RawFrom, Token;
      var a, b, c := RawFrom(false, [], line), Token(Encode(strs[0], NeedsQuote(strs[0]))), EncodedForms(strs[1..]);
      assert a + b + c == a + (b + c);
    }
  }

  // ----- the round trip --------------------------------------------------------------------------------------------

  /** A string survives: it is not empty, holds no space, and holds a single quote only together with
      a tab, newline or vertical tab. */
  predicate Survives(s: Str) {
    s != [] && SPACE !in s && (SQUOTE in s ==> NeedsQuote(s))
  }

  lemma EncodeNonEmpty(s: Str)
    ensures Encode(s, NeedsQuote(s)) != [] <==> s != []
  {
    EscapeLength(s);
  }

  lemma {:induction false} FormsCount(strs: seq<Str>)
    ensures |EncodedForms(strs)| <= |strs|
    ensures |EncodedForms(strs)| == |strs| <==> forall i :: 0 <= i < |strs| ==> strs[i] != []
    ensures |EncodedForms(strs)| == |strs| ==>
              forall i :: 0 <= i < |strs| ==> EncodedForms(strs)[i] == Encode(strs[i], NeedsQuote(strs[i]))
  {
    if strs != [] {
      FormsCount(strs[1..]);
      EncodeNonEmpty(strs[0]);
      var f := EncodedForms(strs);
      if |f| == |strs| {
        forall i | 0 <= i < |strs| ensures f[i] == Encode(strs[i], NeedsQuote(strs[i])) {
          if i > 0 { assert f[i] == EncodedForms(strs[1..])[i - 1]; }
        }
      }
    }
  }

  /** Tokenizing a joined line gives the list back exactly when every string survives. */
  lemma RoundTrip(strs: seq<Str>)
    requires forall i :: 0 <= i < |strs| ==> NulFree(strs[i])
    ensures Tokens(Join(strs)) == strs <==> forall i :: 0 <= i < |strs| ==> Survives(strs[i])
    ensures Tokens(Join(strs)) == strs <==>
              forall i :: 0 <= i < |strs| ==>
                strs[i] != [] && 32 !in strs[i] && (39 in strs[i] ==> 9 in strs[i] || 10 in strs[i] || 11 in strs[i])
  {
    var tokens := Tokens(Join(strs));
    TokensHaveNoSpace(strs);
    if forall i :: 0 <= i < |strs| ==> SPACE !in strs[i] {
      RawOfJoin([], strs);
      var raw := RawFrom(false, [], Join(strs));
      assert raw == EncodedForms(strs);
      FormsCount(strs);
      forall i | 0 <= i < |strs| && |raw| == |strs|
        ensures tokens[i] == strs[i] <==> (SQUOTE in strs[i] ==> NeedsQuote(strs[i]))
      {
        DecodeEncode(strs[i]);
      }
    }
  }

  /** Spaces are lost: the list with the single string "a b" comes back as two strings. */
  lemma SpaceIsLost()
    ensures Tokens(Join([[97, 32, 98]])) != [[97, 32, 98]]
  {
    var s: Str := [97, 32, 98];
    assert s[1] == 32 && 32 in s;
    assert [s][0] == s && !Survives(s);
    RoundTrip([s]);
  }
}

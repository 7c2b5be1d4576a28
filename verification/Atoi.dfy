/** The strict integer parser: 32-bit accumulation first, 64-bit accumulation after the first overflow. */
module Atoi {
  import opened Options
  import opened Text
  import opened Words64

  const U32_MAX: nat := 0xffff_ffff
  const ULL_MAX: nat := WORDS - 1

  datatype Status = Success | Range | Invalid

  const ZERO: Ch := 48
  const LOWER_X: Ch := 120

  /** shl_ctoi. */
  function Digit(ch: Ch, base: nat): (r: Option<nat>)
    ensures r.Some? ==> r.value < base
  {
    var v := if 48 <= ch <= 57 then ch - 48
             else if 97 <= ch <= 122 then ch - 97 + 10
             else if 65 <= ch <= 90 then ch - 65 + 10
             else base;
    if v >= base then None else Some(v)
  }

  /** shl__skip_base: the base and the length of its prefix.  A prefix counts only before a digit. */
  function SkipBase(str: Str): (nat, nat) {
    if |str| > 1 && str[0] == ZERO && Digit(str[1], 8).Some? then (8, 1)
    else if |str| > 2 && str[0] == ZERO && str[1] == LOWER_X && Digit(str[2], 16).Some? then (16, 2)
    else (10, 0)
  }

  lemma DecimalDigits(d: nat, base: nat)
    requires d < 10
    ensures Digit("0123456789"[d] as int, base) == if d < base then Some(d) else None
  {
  }

  /** Letters of both cases spell the digits from ten on. */
  lemma LowerCaseDigits(d: nat, base: nat)
    requires d < 26
    ensures Digit("abcdefghijklmnopqrstuvwxyz"[d] as int, base) == if 10 + d < base then Some(10 + d) else None
  {
  }

  lemma UpperCaseDigits(d: nat, base: nat)
    requires d < 26
    ensures Digit("ABCDEFGHIJKLMNOPQRSTUVWXYZ"[d] as int, base) == if 10 + d < base then Some(10 + d) else None
  {
  }

  /** No other byte is a digit in any base up to 36. */
  lemma NoOtherDigits(ch: Ch, base: nat)
    requires Digit(ch, base).Some?
    ensures '0' as int <= ch <= '9' as int || 'a' as int <= ch <= 'z' as int || 'A' as int <= ch <= 'Z' as int
  {
  }

  // ----- specification -----------------------------------------------------------------------------

  /** The digits at the front of a string. */
  function Digits(s: Str, base: nat): seq<nat> {
    if s == [] || Digit(s[0], base).None? then [] else [Digit(s[0], base).value] + Digits(s[1..], base)
  }

  /** The positional value of a digit string. */
  function Value(ds: seq<nat>, base: nat): nat {
    if ds == [] then 0 else Value(ds[..|ds| - 1], base) * base + ds[|ds| - 1]
  }

  /** The value exceeds 64 bits, but without the last digit's addition it would not. */
  predicate LastWraps(ds: seq<nat>, base: nat) {
    ds != [] && Value(ds, base) > ULL_MAX && Value(ds[..|ds| - 1], base) * base <= ULL_MAX
  }

  /** The digit run is longest: what follows it is no digit. */
  lemma {:induction false} DigitsAre(s: Str, base: nat, k: nat)
    requires k <= |s| && (forall i :: 0 <= i < k ==> Digit(s[i], base).Some?)
    requires k < |s| ==> Digit(s[k], base).None?
    ensures |Digits(s, base)| == k && forall i :: 0 <= i < k ==> Digits(s, base)[i] == Digit(s[i], base).value
    decreases k
  {
    if k > 0 {
      DigitsAre(s[1..], base, k - 1);
    }
  }

  // ----- safe multiplications ------------------------------------------------------------------------

  /** shl_mult_u32: the product is formed in 64 bits and stored only if it fits. */
  function MultU32(val: nat, factor: nat): Option<nat> {
    if val * factor <= U32_MAX then Some(val * factor) else None
  }

  /** shl_mult_ull: tested by a division. */
  function MultUll(val: nat, factor: nat): Option<nat> {
    if factor == 0 || val <= ULL_MAX / factor then Some(val * factor) else None
  }

  lemma DivisionTest(max: nat, val: nat, factor: nat)
    requires factor > 0
    ensures val <= max / factor <==> val * factor <= max
  {
    var q := max / factor;
    assert q * factor <= max < (q + 1) * factor;
    assert val <= q ==> val * factor <= q * factor;
    assert val >= q + 1 ==> val * factor >= (q + 1) * factor;
  }

  lemma MultUllExact(val: nat, factor: nat)
    ensures MultUll(val, factor) == if val * factor <= ULL_MAX then Some(val * factor) else None
  {
    if factor != 0 {
      DivisionTest(ULL_MAX, val, factor);
    }
  }

  // ----- the accumulator ---------------------------------------------------------------------------------

  datatype Acc = Acc(failed: bool, huge: bool, val1: nat, val2: nat)

  /** The 64-bit branch of the loop body. */
  function AddHuge(a: Acc, base: nat, c: nat): Acc {
    match MultUll(a.val2, base)
    case None => a.(failed := true)
    case Some(m) => a.(val2 := if m + c <= ULL_MAX then m + c else m)
  }

  /** The whole loop body for a digit c. */
  function AddDigit(a: Acc, base: nat, c: nat): Acc {
    if a.failed then a
    else if a.huge then AddHuge(a, base, c)
    else
      match MultU32(a.val1, base)
      case None => AddHuge(Acc(false, true, a.val1, a.val1), base, c)
      case Some(m) =>
        if m + c <= U32_MAX then Acc(false, false, m + c, a.val1)
        else AddHuge(Acc(false, true, m, a.val1), base, c)
  }

  /** What the accumulator says about the value of the digits read. */
  ghost predicate Represents(a: Acc, ds: seq<nat>, base: nat) {
    var v := Value(ds, base);
    if a.failed then v > ULL_MAX && !LastWraps(ds, base)
    else if !a.huge then a.val1 == v <= U32_MAX
    else a.val2 <= ULL_MAX && if LastWraps(ds, base) then a.val2 == v - ds[|ds| - 1] else a.val2 == v
  }

  lemma HugeStep(a: Acc, v: nat, base: nat, c: nat)
    requires !a.failed && a.val2 == v <= ULL_MAX
    ensures var n := AddHuge(a, base, c);
            if v * base > ULL_MAX then n == a.(failed := true)
            else n == a.(val2 := if v * base + c > ULL_MAX then v * base else v * base + c)
  {
    MultUllExact(v, base);
  }

  lemma MonotoneProduct(a: nat, b: nat, m: nat)
    requires a <= b
    ensures a * m <= b * m
  {
  }

  lemma SmallTimesBase(v: nat, base: nat, c: nat)
    requires v <= U32_MAX && c < base <= 36
    ensures v * base + c <= ULL_MAX
  {
    MonotoneProduct(v, U32_MAX, base);
    MonotoneProduct(base, 36, U32_MAX);
  }

  lemma GrowsPast(v: nat, base: nat)
    requires v > ULL_MAX && base >= 1
    ensures v * base > ULL_MAX
  {
  }

  lemma NearMaxDoubles(m: nat, base: nat, c: nat)
    requires m <= ULL_MAX < m + c && c < base <= 36
    ensures m * base > ULL_MAX
  {
    assert m * base >= m * 2;
  }

  /** After a wrapped addition the next digit always fails. */
  lemma WrappedThenFails(ds: seq<nat>, base: nat)
    requires LastWraps(ds, base) && 1 <= base <= 36 && forall i :: 0 <= i < |ds| ==> ds[i] < base
    ensures (Value(ds, base) - ds[|ds| - 1]) * base > ULL_MAX
  {
    NearMaxDoubles(Value(ds[..|ds| - 1], base) * base, base, ds[|ds| - 1]);
  }

  /** Every digit keeps the accumulator in step with the positional value. */
  lemma DigitKeeps(a: Acc, ds: seq<nat>, base: nat, c: nat)
    requires Represents(a, ds, base) && 1 <= base <= 36 && c < base && forall i :: 0 <= i < |ds| ==> ds[i] < base
    ensures Represents(AddDigit(a, base, c), ds + [c], base)
  {
    var v, ds' := Value(ds, base), ds + [c];
    assert ds'[..|ds|] == ds && ds'[|ds|] == c;
    assert Value(ds', base) == v * base + c;
    assert LastWraps(ds', base) <==> v * base + c > ULL_MAX && v * base <= ULL_MAX;
    hide Value;
    if a.failed {
      GrowsPast(v, base);
    } else if a.huge {
      if LastWraps(ds, base) {
        WrappedThenFails(ds, base);
        HugeStep(a, v - ds[|ds| - 1], base, c);
        GrowsPast(v, base);
      } else {
        HugeStep(a, v, base, c);
      }
    } else {
      SmallTimesBase(v, base, c);
      HugeStep(Acc(false, true, v, v), v, base, c);
      HugeStep(Acc(false, true, v * base, v), v, base, c);
    }
  }

  // ----- the parser -------------------------------------------------------------------------------------------

  /** What the parser makes of the digits of a base from position skip on. */
  ghost predicate Reads(str: Str, base: nat, skip: nat, r: Status, next: nat, out: nat)
    requires skip <= |str|
  {
    var ds := Digits(str[skip..], base);
    var v := Value(ds, base);
    && next == skip + |ds|
    && (v <= 0xffff_ffff_ffff_ffff ==> r == Success && out == v)
    && (v > 0xffff_ffff_ffff_ffff && !LastWraps(ds, base) ==> r == Range && out == 0xffff_ffff_ffff_ffff)
    && (LastWraps(ds, base) ==> r == Success && out == v - ds[|ds| - 1])
  }

  /** "0" and an octal digit. */
  predicate OctalPrefix(str: Str) {
    |str| > 1 && str[0] == '0' as int && '0' as int <= str[1] <= '7' as int
  }

  /** "0x" and a hexadecimal digit. */
  predicate HexPrefix(str: Str) {
    && |str| > 2 && str[0] == '0' as int && str[1] == 'x' as int
    && ('0' as int <= str[2] <= '9' as int || 'a' as int <= str[2] <= 'f' as int || 'A' as int <= str[2] <= 'F' as int)
  }

  /** The prefix decides the base, and only a digit behind it makes it a prefix. */
  lemma SkipBaseIs(str: Str)
    ensures SkipBase(str) == if OctalPrefix(str) then (8, 1) else if HexPrefix(str) then (16, 2) else (10, 0)
  {
  }

  /** shl_atoi_ulln: status, number of bytes consumed, value. */
  method Parse(str: Str, base0: nat) returns (r: Status, next: nat, out: nat)
    ensures base0 > 36 ==> r == Invalid && next == 0 && out == 0
    ensures 1 <= base0 <= 36 ==> Reads(str, base0, 0, r, next, out)
    ensures base0 == 0 && OctalPrefix(str) ==> Reads(str, 8, 1, r, next, out)
    ensures base0 == 0 && HexPrefix(str) ==> Reads(str, 16, 2, r, next, out)
    ensures base0 == 0 && !OctalPrefix(str) && !HexPrefix(str) ==> Reads(str, 10, 0, r, next, out)
  {
    if base0 > 36 {
      return Invalid, 0, 0;
    }
    var (base, skip) := if base0 == 0 then SkipBase(str) else (base0, 0);
    SkipBaseIs(str);
    hide SkipBase, Digits, Value;
    var n;
    r, n, out := ReadDigits(str[skip..], base);
    next := skip + n;
    assert str[skip..][0..] == str[skip..];
  }

  /** The loop over the digits. */
  method ReadDigits(s: Str, base: nat) returns (r: Status, pos: nat, out: nat)
    requires 1 <= base <= 36
    ensures Reads(s, base, 0, r, pos, out)
  {
    var a := Acc(false, false, 0, 0);
    ghost var ds: seq<nat> := [];
    pos := 0;
    while pos < |s|
      invariant pos <= |s| && |ds| == pos
      invariant forall i :: 0 <= i < pos ==> Digit(s[i], base) == Some(ds[i])
      invariant Represents(a, ds, base)
    {
      var c := Digit(s[pos], base);
      if c.None? {
        break;
      }
      DigitKeeps(a, ds, base, c.value);
      a := AddDigit(a, base, c.value);
      ds := ds + [c.value];
      pos := pos + 1;
    }
    DigitsAre(s, base, pos);
    assert ds == Digits(s, base) && s[0..] == s;
    if a.failed {
      r, out := Range, ULL_MAX;
    } else {
      r, out := Success, if a.huge then a.val2 else a.val1;
    }
  }

  // ----- when the result is right --------------------------------------------------------------------------------

  lemma {:induction false} DigitsBounded(s: Str, base: nat)
    ensures forall i :: 0 <= i < |Digits(s, base)| ==> Digits(s, base)[i] < base
  {
    if s != [] && Digit(s[0], base).Some? { DigitsBounded(s[1..], base); }
  }

  lemma MultipleBelow(v: nat, base: nat, k: nat, c: nat)
    requires base * k == ULL_MAX + 1 && v * base <= ULL_MAX && c < base
    ensures v * base + c <= ULL_MAX
  {
    assert v >= k ==> v * base >= k * base;
    assert v < k ==> (v + 1) * base <= k * base;
  }

  /** In a base that divides 2^64, above all in bases 8 and 16, no last digit wraps. */
  lemma DividingBaseNeverWraps(s: Str, base: nat)
    requires base >= 1 && (ULL_MAX + 1) % base == 0
    ensures !LastWraps(Digits(s, base), base)
  {
    var ds := Digits(s, base);
    DigitsBounded(s, base);
    if ds != [] && Value(ds[..|ds| - 1], base) * base <= ULL_MAX {
      MultipleBelow(Value(ds[..|ds| - 1], base), base, (ULL_MAX + 1) / base, ds[|ds| - 1]);
    }
  }

  lemma Quotient(n: nat, base: nat)
    requires base >= 2 && n > 0
    ensures n / base < n && n / base * base + n % base == n && n % base < base
  {
    assert n == base * (n / base) + n % base;
    assert n / base * base >= n / base * 2;
  }

  /** The numeral of a number, as digits. */
  function Numeral(n: nat, base: nat): seq<nat>
    requires base >= 2
  {
    if n == 0 then [] else
      Quotient(n, base);
      Numeral(n / base, base) + [n % base]
  }

  lemma {:induction false} NumeralValue(n: nat, base: nat)
    requires base >= 2
    ensures var ds := Numeral(n, base); Value(ds, base) == n && forall i :: 0 <= i < |ds| ==> ds[i] < base
  {
    if n > 0 {
      Quotient(n, base);
      NumeralValue(n / base, base);
      var front := Numeral(n / base, base);
      assert (front + [n % base])[..|front|] == front;
    }
  }

  function Spell(d: nat): Ch requires d < 36 {
    if d < 10 then 48 + d else 87 + d
  }

  lemma {:induction false} SpellingReads(ds: seq<nat>, base: nat)
    requires base <= 36 && forall i :: 0 <= i < |ds| ==> ds[i] < base
    ensures Digits(seq(|ds|, i requires 0 <= i < |ds| => Spell(ds[i])), base) == ds
  {
    var s: Str := seq(|ds|, i requires 0 <= i < |ds| => Spell(ds[i]));
    DigitsAre(s, base, |ds|);
  }

  /** 2^64 in a base that does not divide it: read without an error as a smaller number. */
  lemma OtherBaseWraps(base: nat) returns (s: Str)
    requires 2 <= base <= 36 && (ULL_MAX + 1) % base != 0
    ensures Value(Digits(s, base), base) == ULL_MAX + 1 && LastWraps(Digits(s, base), base)
  {
    var ds := Numeral(ULL_MAX + 1, base);
    NumeralValue(ULL_MAX + 1, base);
    NumeralValue((ULL_MAX + 1) / base, base);
    s := seq(|ds|, i requires 0 <= i < |ds| => Spell(ds[i]));
    SpellingReads(ds, base);
    assert ds == Numeral((ULL_MAX + 1) / base, base) + [(ULL_MAX + 1) % base];
  }

  /** The silent wrap exists exactly in the bases that do not divide 2^64. */
  lemma WrapsExactly(base: nat)
    requires 1 <= base <= 36
    ensures (exists s: Str :: LastWraps(Digits(s, base), base)) <==> (ULL_MAX + 1) % base != 0
  {
    if (ULL_MAX + 1) % base == 0 {
      forall s: Str ensures !LastWraps(Digits(s, base), base) { DividingBaseNeverWraps(s, base); }
    } else {
      var s := OtherBaseWraps(base);
    }
  }
}

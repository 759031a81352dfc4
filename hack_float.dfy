/** `HackFloat`: a temperature kept as two integers, the part before the decimal
    point (`digit`, an `isize`) and the single digit after it (`decimal`, a
    `usize`).  Its hand-written `Ord` and its derived `PartialOrd` both compare the
    pair lexicographically; `from_str` cuts the text two characters from the end.

    `isize` and `usize` are taken to be 64 bits wide. */
module HackFloats {
  import opened Wrappers

  const IsizeMin: int := -0x8000_0000_0000_0000
  const IsizeMax: int := 0x7FFF_FFFF_FFFF_FFFF
  const UsizeMax: int := 0xFFFF_FFFF_FFFF_FFFF

  type Isize = x: int | IsizeMin <= x <= IsizeMax
  type Usize = x: int | 0 <= x <= UsizeMax

  datatype HackFloat = HackFloat(digit: Isize, decimal: Usize)

  datatype Ordering = Less | Equal | Greater

  /** The ordering seen from the other side. */
  function Reverse(o: Ordering): Ordering
  {
    match o
    case Less => Greater
    case Equal => Equal
    case Greater => Less
  }

  /** `partial_cmp` of one integer field. */
  function CmpField(x: int, y: int): Ordering
  {
    if x < y then Less else if x == y then Equal else Greater
  }

  /** The derived `PartialOrd`: fields in declaration order, the first unequal
      field decides. */
  function DerivedPartialCmp(a: HackFloat, b: HackFloat): Option<Ordering>
  {
    match CmpField(a.digit, b.digit)
    case Equal => Some(CmpField(a.decimal, b.decimal))
    case other => Some(other)
  }

  /** `a < b` and `a > b` as the derived `PartialOrd` answers them. */
  predicate Lt(a: HackFloat, b: HackFloat)
  {
    DerivedPartialCmp(a, b) == Some(Less)
  }

  predicate Gt(a: HackFloat, b: HackFloat)
  {
    DerivedPartialCmp(a, b) == Some(Greater)
  }

  /** The hand-written `Ord::cmp`: it answers Equal exactly for equal values,
      and otherwise agrees with the derived `<`. */
  function Cmp(a: HackFloat, b: HackFloat): (o: Ordering)
    ensures o == Equal <==> a == b
    ensures o == Less <==> Lt(a, b)
    ensures o == Greater <==> Gt(a, b)
  {
    if a.digit == b.digit then
      if a.decimal == b.decimal then Equal
      else if a.decimal < b.decimal then Less
      else Greater
    else if a.digit < b.digit then Less
    else Greater
  }

  /** `Ord::cmp` and the derived `partial_cmp` always give the same answer. */
  lemma CmpAgreesWithDerived(a: HackFloat, b: HackFloat)
    ensures DerivedPartialCmp(a, b) == Some(Cmp(a, b))
  {
  }

  /** Comparing the other way round reverses the answer. */
  lemma CmpAntisymmetric(a: HackFloat, b: HackFloat)
    ensures Cmp(b, a) == Reverse(Cmp(a, b))
    ensures Gt(a, b) <==> Lt(b, a)
  {
  }

  /** `Cmp` is a total order: `<` is irreflexive and transitive, and any two
      values are related one way or the other. */
  lemma CmpTotalOrder(a: HackFloat, b: HackFloat, c: HackFloat)
    ensures !Lt(a, a)
    ensures Lt(a, b) && Lt(b, c) ==> Lt(a, c)
    ensures Lt(a, b) || a == b || Lt(b, a)
  {
  }

  // ---------------------------------------------------------------------------
  // Parsing integers as `str::parse::<isize>` and `str::parse::<usize>` do.

  predicate IsDigit(c: char)
  {
    '0' <= c <= '9'
  }

  predicate AllDigits(s: string)
  {
    forall i | 0 <= i < |s| :: IsDigit(s[i])
  }

  function DigitValue(c: char): nat
    requires IsDigit(c)
  {
    c as int - '0' as int
  }

  function DigitChar(d: nat): (c: char)
    requires d < 10
    ensures IsDigit(c) && DigitValue(c) == d
  {
    ('0' as int + d) as char
  }

  /** The value of decimal digits, most significant first. */
  function DigitsValue(s: string): nat
    requires AllDigits(s)
  {
    if s == [] then 0 else DigitsValue(s[..|s| - 1]) * 10 + DigitValue(s[|s| - 1])
  }

  /** The sign handling shared by both parses: a lone sign is an error, a
      leading `+` is dropped, and a leading `-` is a sign only for a signed
      type (for an unsigned one it stays and is then an invalid digit).
      Gives whether the value is negated, and the digits. */
  function SplitSign(s: string, signed: bool): Option<(bool, string)>
  {
    if s == [] then None
    else if (s[0] == '+' || s[0] == '-') && |s| == 1 then None
    else if s[0] == '+' then Some((false, s[1..]))
    else if s[0] == '-' && signed then Some((true, s[1..]))
    else Some((false, s))
  }

  /** Text of a signed integer: one or more digits, after an optional `+` or `-`. */
  predicate SignedDigits(s: string)
  {
    (s != [] && AllDigits(s)) || (|s| >= 2 && (s[0] == '+' || s[0] == '-') && AllDigits(s[1..]))
  }

  /** The integer such a text denotes. */
  function SignedValue(s: string): int
    requires SignedDigits(s)
  {
    if AllDigits(s) then DigitsValue(s)
    else if s[0] == '-' then -(DigitsValue(s[1..]) as int)
    else DigitsValue(s[1..])
  }

  /** Text of an unsigned integer: one or more digits, after an optional `+`. */
  predicate UnsignedDigits(s: string)
  {
    (s != [] && AllDigits(s)) || (|s| >= 2 && s[0] == '+' && AllDigits(s[1..]))
  }

  /** `parse::<isize>`: an optional sign, then one or more ASCII digits, and a
      value within range. */
  function ParseIsize(s: string): (r: Option<Isize>)
    ensures r.Some? <==> SignedDigits(s) && IsizeMin <= SignedValue(s) <= IsizeMax
    ensures r.Some? ==> r.value == SignedValue(s)
    ensures r.Some? && AllDigits(s) ==> r.value == DigitsValue(s)
  {
    match SplitSign(s, true)
    case None => None
    case Some((negative, ds)) =>
      if !AllDigits(ds) then None
      else
        var magnitude: int := DigitsValue(ds);
        var v := if negative then -magnitude else magnitude;
        if IsizeMin <= v <= IsizeMax then Some(v) else None
  }

  /** `parse::<usize>`: an optional `+`, then one or more ASCII digits, and a
      value within range. */
  function ParseUsize(s: string): (r: Option<Usize>)
    ensures r.Some? <==> UnsignedDigits(s) && (if AllDigits(s) then DigitsValue(s) else DigitsValue(s[1..])) <= UsizeMax
    ensures r.Some? && AllDigits(s) ==> r.value == DigitsValue(s)
    ensures r.Some? && !AllDigits(s) ==> r.value == DigitsValue(s[1..])
  {
    match SplitSign(s, false)
    case None => None
    case Some((_, ds)) =>
      if !AllDigits(ds) then None
      else
        var v := DigitsValue(ds);
        if v <= UsizeMax then Some(v) else None
  }

  /** A single character parses as a `usize` exactly when it is a digit. */
  lemma ParseUsizeOneChar(c: char)
    ensures ParseUsize([c]).Some? <==> IsDigit(c)
    ensures IsDigit(c) ==> ParseUsize([c]) == Some(DigitValue(c))
  {
    assert [c][..0] == [];
    if IsDigit(c) {
      assert DigitsValue([c]) == DigitsValue([]) * 10 + DigitValue(c);
    } else if c != '+' && c != '-' {
      assert !IsDigit([c][0]);
    }
  }

  // ---------------------------------------------------------------------------
  // `HackFloat::from_str`.

  predicate IsAscii(s: string)
  {
    forall i | 0 <= i < |s| :: s[i] as int < 128
  }

  /** `from_str`: everything but the last two characters is the `digit`, the last
      character is the `decimal`, and the one between is skipped.  The source
      unwraps, so every `None` here is a panic there: a string shorter than two,
      either parse failing, or a non-ASCII character (`split_at` and the `[1..]`
      cut count bytes, and any non-ASCII character either falls on a cut, which
      panics, or lands in the integer part, which then fails to parse). */
  function FromStr(s: string): (r: Option<HackFloat>)
    ensures r.Some? ==> |s| >= 2 && IsAscii(s)
    ensures r.Some? ==> ParseIsize(s[..|s| - 2]) == Some(r.value.digit)
    ensures r.Some? ==> IsDigit(s[|s| - 1]) && r.value.decimal == DigitValue(s[|s| - 1]) < 10
    ensures |s| >= 2 && IsAscii(s) && ParseIsize(s[..|s| - 2]).Some? && IsDigit(s[|s| - 1]) ==> r.Some?
  {
    if |s| < 2 || !IsAscii(s) then None
    else
      var digit := ParseIsize(s[..|s| - 2]);
      var decimal := ParseUsize(s[|s| - 1..]);
      ParseUsizeOneChar(s[|s| - 1]);
      assert s[|s| - 1..] == [s[|s| - 1]];
      if digit.None? || decimal.None? then None
      else Some(HackFloat(digit.value, decimal.value))
  }

  /** The character before the last is never looked at. */
  lemma FromStrSkipsSeparator(front: string, sep: char, last: char)
    requires sep as int < 128
    ensures FromStr(front + [sep, last]) == FromStr(front + ['.', last])
  {
    var s, t := front + [sep, last], front + ['.', last];
    assert s[..|s| - 2] == front == t[..|t| - 2];
    assert s[|s| - 1..] == [last] == t[|t| - 1..];
    assert IsAscii(s) <==> IsAscii(t) by {
      assert forall i | 0 <= i < |s| :: (s[i] as int < 128) == (t[i] as int < 128);
    }
  }

  // ---------------------------------------------------------------------------
  // Printing, and the round trip through `from_str`.

  /** Decimal digits of `n`, most significant first, with no leading zero. */
  function ShowNat(n: nat): (s: string)
    ensures s != [] && AllDigits(s) && IsAscii(s)
  {
    if n < 10 then [DigitChar(n)] else ShowNat(n / 10) + [DigitChar(n % 10)]
  }

  /** An integer as `Display` writes it: a `-` for negatives, no `+`. */
  function ShowInt(x: int): (s: string)
    ensures s != [] && IsAscii(s)
  {
    if x < 0 then ['-'] + ShowNat(-x) else ShowNat(x)
  }

  /** A value written with one decimal digit, as the measurements file has them. */
  function Show(h: HackFloat): (s: string)
    requires h.decimal < 10
    ensures |s| >= 3 && IsAscii(s)
  {
    ShowInt(h.digit) + ['.', DigitChar(h.decimal)]
  }

  lemma {:induction false} DigitsValueShowNat(n: nat)
    ensures DigitsValue(ShowNat(n)) == n
  {
    var s := ShowNat(n);
    if n >= 10 {
      DigitsValueShowNat(n / 10);
      assert s[..|s| - 1] == ShowNat(n / 10);
    }
  }

  /** `parse::<isize>` reads back what `Display` wrote. */
  lemma ParseShowInt(x: Isize)
    ensures ParseIsize(ShowInt(x)) == Some(x)
  {
    if x < 0 {
      ParseShowNegative(x);
    } else {
      ParseShowNat(x);
    }
  }

  /** A non-negative value reads back from its digits. */
  lemma ParseShowNat(n: nat)
    requires n <= IsizeMax
    ensures ParseIsize(ShowNat(n)) == Some(n)
  {
    var s := ShowNat(n);
    assert SplitSign(s, true) == Some((false, s)) by {
      assert IsDigit(s[0]);
    }
    DigitsValueShowNat(n);
  }

  /** A negative value reads back from `-` and the digits of its magnitude. */
  lemma ParseShowNegative(x: Isize)
    requires x < 0
    ensures ParseIsize(ShowInt(x)) == Some(x)
  {
    var m: nat := -(x as int);
    var ds := ShowNat(m);
    var s := ShowInt(x);
    assert s == ['-'] + ds;
    assert SplitSign(s, true) == Some((true, ds)) by {
      assert s[1..] == ds;
    }
    DigitsValueShowNat(m);
  }

  /** `from_str` reads back every value written with one decimal digit. */
  lemma FromStrShow(h: HackFloat)
    requires h.decimal < 10
    ensures FromStr(Show(h)) == Some(h)
  {
    var s := Show(h);
    assert s[..|s| - 2] == ShowInt(h.digit);
    ParseShowInt(h.digit);
    ParseUsizeOneChar(DigitChar(h.decimal));
    assert s[|s| - 1] == DigitChar(h.decimal);
  }

  /** The order is on the pair, not on the number: `-0.5` reads as `0.5`, and
      `-1.7` compares above `-1.2`. */
  lemma NotNumericOrder()
    ensures FromStr("-0.5") == Some(HackFloat(0, 5)) == FromStr("0.5")
    ensures FromStr("-1.7") == Some(HackFloat(-1, 7))
    ensures FromStr("-1.2") == Some(HackFloat(-1, 2))
    ensures Cmp(HackFloat(-1, 7), HackFloat(-1, 2)) == Greater
  {
    NegativeZeroReadsAsZero();
    MinusOneReads('7');
    MinusOneReads('2');
  }

  /** The sign of `-0` is lost: `-0.5` reads as `0.5`. */
  lemma NegativeZeroReadsAsZero()
    ensures FromStr("-0.5") == Some(HackFloat(0, 5)) == FromStr("0.5")
  {
    var a, b := "-0.5", "0.5";
    assert a[..|a| - 2] == "-0" && a[|a| - 1..] == "5";
    assert b[..|b| - 2] == "0" && b[|b| - 1..] == "5";
    assert SplitSign("-0", true) == Some((true, "0"));
    assert "0"[..0] == [];
    assert DigitsValue("0") == 0;
    ParseUsizeOneChar('5');
    assert "5" == ['5'];
  }

  /** `-1.d` reads as the pair `(-1, d)`. */
  lemma MinusOneReads(d: char)
    requires IsDigit(d)
    ensures FromStr(['-', '1', '.', d]) == Some(HackFloat(-1, DigitValue(d)))
  {
    var c := ['-', '1', '.', d];
    assert c[..|c| - 2] == "-1" && c[|c| - 1..] == [d];
    assert SplitSign("-1", true) == Some((true, "1"));
    assert "1"[..0] == [];
    assert DigitsValue("1") == 1;
    ParseUsizeOneChar(d);
  }
}

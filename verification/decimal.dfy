/** Decimal text as the C library renders it: the `%d` conversion of snprintf
    and the fixed-point output periods of the rover commands. */
module Decimal {
  import opened BitField

  predicate IsDigit(c: char) {
    '0' <= c <= '9'
  }

  predicate AllDigits(s: string) {
    forall i :: 0 <= i < |s| ==> IsDigit(s[i])
  }

  function DigitValue(c: char): (d: nat)
    requires IsDigit(c)
    ensures d < 10
  {
    c as int - '0' as int
  }

  function DigitChar(d: nat): (c: char)
    requires d < 10
    ensures IsDigit(c) && DigitValue(c) == d
  {
    ('0' as int + d) as char
  }

  /** A numeral as printf writes one: at least one digit and no leading
      zero, except for the numeral 0 itself. */
  predicate Canonical(s: string) {
    |s| >= 1 && AllDigits(s) && (s[0] == '0' ==> |s| == 1)
  }

  /** The digits of n, most significant first. */
  function Digits(n: nat): (s: string)
    ensures Canonical(s)
    ensures s[0] == '0' <==> n == 0
    decreases n
  {
    if n < 10 then [DigitChar(n)] else Digits(n / 10) + [DigitChar(n % 10)]
  }

  /** The number a string of decimal digits denotes. */
  function ValueOf(s: string): nat
    requires AllDigits(s)
    decreases |s|
  {
    if s == [] then 0 else 10 * ValueOf(s[..|s| - 1]) + DigitValue(s[|s| - 1])
  }

  /** Reading back the digits of n gives n. */
  lemma {:induction false} ValueOfDigits(n: nat)
    ensures ValueOf(Digits(n)) == n
    decreases n
  {
    if n >= 10 {
      var s := Digits(n);
      assert s[..|s| - 1] == Digits(n / 10);
      ValueOfDigits(n / 10);
    }
  }

  /** A numeral that does not start with 0 denotes a positive number. */
  lemma {:induction false} LeadingDigitPositive(s: string)
    requires |s| >= 1 && AllDigits(s) && s[0] != '0'
    ensures ValueOf(s) > 0
    decreases |s|
  {
    if |s| > 1 {
      LeadingDigitPositive(s[..|s| - 1]);
    }
  }

  /** Writing out the number a numeral denotes gives the numeral back. */
  lemma {:induction false} DigitsOfValue(s: string)
    requires Canonical(s)
    ensures Digits(ValueOf(s)) == s
    decreases |s|
  {
    var last := s[|s| - 1];
    if |s| == 1 {
      assert DigitChar(DigitValue(last)) == last;
    } else {
      var p := s[..|s| - 1];
      LeadingDigitPositive(p);
      DigitsOfValue(p);
      var n := ValueOf(s);
      assert n / 10 == ValueOf(p) && n % 10 == DigitValue(last);
      assert DigitChar(DigitValue(last)) == last;
      assert s == p + [last];
    }
  }

  /** The `%d` conversion of an int: a numeral, with a minus sign exactly
      for a negative int. */
  function FormatInt(i: int): (s: string)
    ensures IsIntText(s)
    ensures s[0] == '-' <==> i < 0
  {
    if i < 0 then "-" + Digits(-i) else Digits(i)
  }

  /** The texts `%d` can produce: a numeral, or a minus sign before a
      numeral other than 0. */
  predicate IsIntText(s: string) {
    Canonical(s) || (|s| >= 2 && s[0] == '-' && Canonical(s[1..]) && s[1] != '0')
  }

  /** The int an optionally signed numeral denotes. */
  function ParseInt(s: string): int
    requires IsIntText(s)
  {
    if s[0] == '-' then -(ValueOf(s[1..]) as int) else ValueOf(s)
  }

  /** `%d` followed by reading the text back is the identity ... */
  lemma FormatThenParse(i: int)
    ensures ParseInt(FormatInt(i)) == i
  {
    if i < 0 {
      assert FormatInt(i)[1..] == Digits(-i);
      ValueOfDigits(-i);
    } else {
      ValueOfDigits(i);
    }
  }

  /** ... and so is reading a text and formatting the number again. */
  lemma ParseThenFormat(s: string)
    requires IsIntText(s)
    ensures FormatInt(ParseInt(s)) == s
  {
    if s[0] == '-' {
      DigitsOfValue(s[1..]);
      LeadingDigitPositive(s[1..]);
      assert s == "-" + s[1..];
    } else {
      DigitsOfValue(s);
    }
  }

  /** The int32 that an unsigned int's bits denote when `%d` reads them as a
      signed int (two's complement, as on the ARM target). */
  function Int32Of(u: UInt32): (i: int)
    ensures -0x8000_0000 <= i < 0x8000_0000
    ensures i % UInt32Modulus == u
    ensures i < 0 <==> u >= 0x8000_0000
  {
    if u < 0x8000_0000 then u else u - UInt32Modulus
  }

  /** 10^k. */
  function Pow10(k: nat): (p: nat)
    ensures p >= 1
  {
    if k == 0 then 1 else 10 * Pow10(k - 1)
  }

  /** A fixed-point numeral split at its decimal point: the digits before
      and the digits after it (none when there is no point). */
  function SplitAtPoint(s: string): (wf: (string, string))
    ensures '.' !in wf.0
    ensures '.' in s ==> s == wf.0 + "." + wf.1
    ensures '.' !in s ==> wf == (s, "")
  {
    if s == [] then ("", "")
    else if s[0] == '.' then
      assert s == "" + "." + s[1..];
      ("", s[1..])
    else
      var wf := SplitAtPoint(s[1..]);
      assert s == [s[0]] + s[1..];
      ([s[0]] + wf.0, wf.1)
  }

  /** A fixed-point numeral such as "0.05": digits, at most one point. */
  predicate IsFixedText(s: string) {
    var wf := SplitAtPoint(s);
    |wf.0| >= 1 && AllDigits(wf.0 + wf.1)
  }

  /** The value of a fixed-point numeral as the fraction num / den with
      den a power of ten. */
  function FixedValue(s: string): (v: (nat, nat))
    requires IsFixedText(s)
    ensures v.1 >= 1
  {
    var wf := SplitAtPoint(s);
    (ValueOf(wf.0 + wf.1), Pow10(|wf.1|))
  }

  /** A numeral with its point at the given place splits there. */
  lemma {:induction false} SplitAtPointOf(w: string, f: string)
    requires '.' !in w
    ensures SplitAtPoint(w + "." + f) == (w, f)
    decreases |w|
  {
    if w == [] {
      assert (w + "." + f)[1..] == f;
    } else {
      assert (w + "." + f)[1..] == w[1..] + "." + f;
      SplitAtPointOf(w[1..], f);
      assert [w[0]] + w[1..] == w;
    }
  }

  /** The value of a numeral with a point is its digits' value over the
      power of ten of its fraction length. */
  lemma FixedValueOf(w: string, f: string)
    requires '.' !in w && |w| >= 1 && AllDigits(w + f)
    ensures IsFixedText(w + "." + f)
    ensures FixedValue(w + "." + f) == (ValueOf(w + f), Pow10(|f|))
  {
    SplitAtPointOf(w, f);
  }
}

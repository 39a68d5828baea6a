/** The string primitives the program leans on: decimal text, `i64` parsing, `split_once`,
    `strip_suffix` and zero padding. */
module Text {
  import opened Wrappers
  import opened MachineInt

  predicate IsDigit(c: char) {
    '0' <= c <= '9'
  }

  predicate AllDigits(s: string) {
    forall i :: 0 <= i < |s| ==> IsDigit(s[i])
  }

  function DigitChar(d: nat): (c: char)
    requires d < 10
    ensures IsDigit(c) && DigitValue(c) == d
  {
    '0' + d as char
  }

  function DigitValue(c: char): (d: nat)
    requires IsDigit(c)
    ensures d < 10
  {
    c as int - '0' as int
  }

  /** Decimal text of a natural number, without leading zeros. */
  function Decimal(n: nat): (s: string)
    ensures s != [] && AllDigits(s)
  {
    if n < 10 then [DigitChar(n)] else Decimal(n / 10) + [DigitChar(n % 10)]
  }

  /** The number a digit string denotes; leading zeros are allowed. */
  function DigitsValue(s: string): nat
    requires AllDigits(s)
  {
    if s == [] then 0 else 10 * DigitsValue(s[..|s| - 1]) + DigitValue(s[|s| - 1])
  }

  function SignedDecimal(n: int): string {
    if n < 0 then "-" + Decimal(-n) else Decimal(n)
  }

  /** Rust's `str::parse::<i64>`: one optional sign, at least one digit, nothing else, and a
      value that fits. */
  function ParseI64(s: string): (r: Option<I64>) {
    var negative := s != [] && s[0] == '-';
    var digits := if s != [] && (s[0] == '-' || s[0] == '+') then s[1..] else s;
    if digits == [] || !AllDigits(digits) then
      None
    else
      var magnitude: int := DigitsValue(digits);
      var value := if negative then -magnitude else magnitude;
      if I64_MIN <= value <= I64_MAX then Some(value) else None
  }

  function Zeros(n: nat): (s: string)
    ensures |s| == n && AllDigits(s)
  {
    seq(n, _ => '0')
  }

  /** Rust's `{n:0width}`: zero padding goes between the sign and the digits. */
  function Padded(n: int, width: nat): string {
    var sign := if n < 0 then "-" else "";
    var digits := Decimal(if n < 0 then -n else n);
    sign + Zeros(Max(0, width - |sign| - |digits|)) + digits
  }

  /** Splits at the first occurrence of `c`, which is dropped. */
  function SplitOnce(s: string, c: char): (r: Option<(string, string)>)
    ensures r.None? ==> c !in s
    ensures r.Some? ==> s == r.value.0 + [c] + r.value.1 && c !in r.value.0
  {
    if s == [] then None
    else if s[0] == c then Some(("", s[1..]))
    else
      match SplitOnce(s[1..], c)
      case None => None
      case Some(parts) => Some(([s[0]] + parts.0, parts.1))
  }

  predicate HasSuffix(s: string, suffix: string) {
    |suffix| <= |s| && s[|s| - |suffix|..] == suffix
  }

  function StripSuffix(s: string, suffix: string): (r: Option<string>)
    ensures r.Some? <==> HasSuffix(s, suffix)
    ensures r.Some? ==> s == r.value + suffix
  {
    if HasSuffix(s, suffix) then Some(s[..|s| - |suffix|]) else None
  }

  // ---------- facts ----------

  lemma {:induction false} SplitOnceAt(a: string, c: char, b: string)
    requires c !in a
    ensures SplitOnce(a + [c] + b, c) == Some((a, b))
  {
    var whole := a + [c] + b;
    if a == [] {
      assert whole[1..] == b;
    } else {
      assert whole[1..] == a[1..] + [c] + b;
      SplitOnceAt(a[1..], c, b);
      assert a == [a[0]] + a[1..];
    }
  }

  lemma StripSuffixAt(a: string, suffix: string)
    ensures StripSuffix(a + suffix, suffix) == Some(a)
  {
  }

  lemma {:induction false} DecimalValue(n: nat)
    ensures DigitsValue(Decimal(n)) == n
  {
    var s := Decimal(n);
    if n >= 10 {
      DecimalValue(n / 10);
      assert s[..|s| - 1] == Decimal(n / 10);
    } else {
      assert s[..|s| - 1] == [];
    }
  }

  lemma {:induction false} LeadingZeros(k: nat, s: string)
    requires AllDigits(s)
    ensures AllDigits(Zeros(k) + s)
    ensures DigitsValue(Zeros(k) + s) == DigitsValue(s)
  {
    var padded := Zeros(k) + s;
    if s != [] {
      LeadingZeros(k, s[..|s| - 1]);
      assert padded[..|padded| - 1] == Zeros(k) + s[..|s| - 1];
    } else if k > 0 {
      LeadingZeros(k - 1, []);
      assert padded[..|padded| - 1] == Zeros(k - 1) + [];
    }
  }

  /** Signed numbers print differently, and without any character but digits and the sign. */
  lemma SignedDecimalFaithful(m: int, n: int)
    ensures forall c :: c in SignedDecimal(n) ==> c == '-' || IsDigit(c)
    ensures SignedDecimal(m) == SignedDecimal(n) ==> m == n
  {
    DecimalValue(if m < 0 then -m else m);
    DecimalValue(if n < 0 then -n else n);
    var s, t := SignedDecimal(m), SignedDecimal(n);
    assert (s[0] == '-') == (m < 0) && (t[0] == '-') == (n < 0);
    assert m < 0 ==> s[1..] == Decimal(-m);
    assert n < 0 ==> t[1..] == Decimal(-n);
  }

  /** A digit string denotes what `ParseI64` reads, if that fits. */
  lemma DigitsReadBack(s: string)
    requires AllDigits(s) && s != []
    ensures ParseI64(s) == if DigitsValue(s) <= I64_MAX then Some(DigitsValue(s)) else None
  {
    assert IsDigit(s[0]);
  }

  /** Every number that fits reads back from its decimal text, and no other does. */
  lemma SignedReadBack(n: int)
    ensures ParseI64(SignedDecimal(n)) == if I64_MIN <= n <= I64_MAX then Some(n) else None
  {
    if n < 0 {
      DecimalValue(-n);
      assert SignedDecimal(n)[1..] == Decimal(-n);
    } else {
      DecimalValue(n);
      DigitsReadBack(Decimal(n));
    }
  }

  lemma PaddedValue(n: nat, width: nat)
    ensures Padded(n, width) != [] && AllDigits(Padded(n, width))
    ensures DigitsValue(Padded(n, width)) == n
  {
    DecimalValue(n);
    LeadingZeros(Max(0, width - |Decimal(n)|), Decimal(n));
    assert Padded(n, width) == Zeros(Max(0, width - |Decimal(n)|)) + Decimal(n);
  }

  /** What is printed with zero padding reads back as the same number when it fits. */
  lemma PaddedParses(n: nat, width: nat)
    ensures Padded(n, width) != [] && AllDigits(Padded(n, width))
    ensures DigitsValue(Padded(n, width)) == n
    ensures ParseI64(Padded(n, width)) == if n <= I64_MAX then Some(n) else None
  {
    hide Padded, ParseI64;
    PaddedValue(n, width);
    DigitsReadBack(Padded(n, width));
  }

  lemma PaddedDigits(n: nat, width: nat)
    ensures AllDigits(Padded(n, width))
  {
  }

  lemma PaddedNegative(n: int, width: nat)
    requires n > 0
    ensures Padded(-n, width + 1) == "-" + Padded(n, width)
  {
  }

  /** Padding to `width` gives exactly `width` characters when the number fits. */
  lemma PaddedLength(n: nat, width: nat)
    requires 0 < width && n < Pow10(width)
    ensures |Padded(n, width)| == width
  {
    DecimalLength(n, width);
  }

  lemma {:induction false} DecimalLength(n: nat, width: nat)
    requires 0 < width && n < Pow10(width)
    ensures |Decimal(n)| <= width
  {
    if n >= 10 {
      assert width > 1;
      DecimalLength(n / 10, width - 1);
    }
  }

  /** Digits before others count that many powers of ten. */
  lemma {:induction false} DigitsConcat(a: string, b: string)
    requires AllDigits(a) && AllDigits(b)
    ensures AllDigits(a + b)
    ensures DigitsValue(a + b) == DigitsValue(a) * Pow10(|b|) + DigitsValue(b)
  {
    if b == [] {
      assert a + b == a;
    } else {
      var front := b[..|b| - 1];
      DigitsConcat(a, front);
      assert (a + b)[..|a + b| - 1] == a + front;
      TenTimes(DigitsValue(a), Pow10(|front|));
    }
  }

  lemma TenTimes(x: nat, p: nat)
    ensures x * (10 * p) == 10 * (x * p)
  {
  }

  function Pow10(k: nat): (p: nat)
    ensures p > 0
  {
    if k == 0 then 1 else 10 * Pow10(k - 1)
  }

  lemma {:induction false} DigitsBound(s: string)
    requires AllDigits(s)
    ensures DigitsValue(s) < Pow10(|s|)
  {
    if s != [] {
      DigitsBound(s[..|s| - 1]);
    }
  }

  /** Fixed-width digit strings are determined by their value. */
  lemma {:induction false} SameValueSameDigits(s: string, t: string)
    requires AllDigits(s) && AllDigits(t) && |s| == |t|
    requires DigitsValue(s) == DigitsValue(t)
    ensures s == t
  {
    if s != [] {
      SameValueSameDigits(s[..|s| - 1], t[..|t| - 1]);
      assert s == s[..|s| - 1] + [s[|s| - 1]];
      assert t == t[..|t| - 1] + [t[|t| - 1]];
    }
  }
}

/** Kubernetes quantities to milli-CPUs and bytes. */
module Quantity {
  import opened Wrappers
  import opened MachineInt
  import opened Text

  datatype ResourceType = Cpu | Memory

  /** A (CPU milli, memory bytes) pair. */
  datatype Figures = Figures(cpu: I64, memory: I64) {
    function Of(resource: ResourceType): I64 {
      match resource
      case Cpu => cpu
      case Memory => memory
    }
  }

  datatype QuantityParseError = Invalid(input: string, reason: string)

  type Parsed<T> = Result<T, QuantityParseError>

  // ---------- quantity text ----------

  function MemorySuffixes(): seq<string> {
    ["Ki", "Mi", "Gi", "Ti", "Pi", "k", "M", "G", "T", "P"]
  }

  function Multiplier(suffix: string): Option<nat> {
    match suffix
    case "" => Some(1)
    case "Ki" => Some(1024)
    case "Mi" => Some(0x10_0000)
    case "Gi" => Some(0x4000_0000)
    case "Ti" => Some(0x100_0000_0000)
    case "Pi" => Some(0x4_0000_0000_0000)
    case "k" => Some(1_000)
    case "M" => Some(1_000_000)
    case "G" => Some(1_000_000_000)
    case "T" => Some(1_000_000_000_000)
    case "P" => Some(1_000_000_000_000_000)
    case _ => None
  }

  /** The first suffix of the list that ends the input, and what stands before it. */
  function SplitSuffix(input: string, suffixes: seq<string>): (r: (string, string))
    ensures input == r.0 + r.1
  {
    if suffixes == [] then (input, "")
    else
      match StripSuffix(input, suffixes[0])
      case Some(number) => (number, suffixes[0])
      case None => SplitSuffix(input, suffixes[1..])
  }

  function Scale(k: int): real
    decreases if k < 0 then -k else k
  {
    if k == 0 then 1.0 else if k > 0 then 10.0 * Scale(k - 1) else Scale(k + 1) / 10.0
  }

  /** Digits with an optional point; at least one digit. */
  function ParseMantissa(s: string): Option<real> {
    var (whole, fraction) := match SplitOnce(s, '.')
      case Some((w, f)) => (w, f)
      case None => (s, "");
    if AllDigits(whole + fraction) && whole + fraction != "" then
      Some(DigitsValue(whole + fraction) as real * Scale(-|fraction|))
    else
      None
  }

  /** Index of the exponent mark, or the length when there is none. */
  function ExponentMark(s: string): (i: nat)
    ensures i <= |s|
  {
    if s == [] || s[0] == 'e' || s[0] == 'E' then 0 else 1 + ExponentMark(s[1..])
  }

  /** Rust's `str::parse::<f64>` over exact numbers: sign, digits, point, exponent. The words
      `inf` and `nan` are not part of this model. */
  function ParseDecimal(s: string): Option<real> {
    var signed := s != [] && (s[0] == '-' || s[0] == '+');
    var body := if signed then s[1..] else s;
    var mark := ExponentMark(body);
    var exponent := if mark == |body| then Some(0) else ParseExponent(body[mark + 1..]);
    match (ParseMantissa(body[..mark]), exponent)
    case (Some(mantissa), Some(e)) =>
      var magnitude := mantissa * Scale(e);
      Some(if signed && s[0] == '-' then -magnitude else magnitude)
    case _ => None
  }

  function ParseExponent(s: string): Option<int> {
    var signed := s != [] && (s[0] == '-' || s[0] == '+');
    var digits := if signed then s[1..] else s;
    if digits == [] || !AllDigits(digits) then None
    else
      var magnitude: int := DigitsValue(digits);
      Some(if signed && s[0] == '-' then -magnitude else magnitude)
  }

  function ParseNumber(number: string): (r: Parsed<real>)
    ensures r.Ok? ==> r.value >= 0.0
  {
    if number == "" then Err(Invalid(number, "missing numeric value"))
    else
      match ParseDecimal(number)
      case None => Err(Invalid(number, "not a valid number"))
      case Some(value) =>
        if value < 0.0 then Err(Invalid(number, "negative quantities are not allowed")) else Ok(value)
  }

  /** Rounds half away from zero and saturates. */
  function ToI64(value: real): I64 {
    var rounded := if value >= 0.0 then (value + 0.5).Floor else -(0.5 - value).Floor;
    Clamp(rounded, I64_MIN, I64_MAX)
  }

  /** A parsed number times the unit it is written in. */
  function Scaled(value: real, unit: nat): (r: I64)
    requires value >= 0.0
    ensures r >= 0
  {
    var product := value * unit as real;
    assert product >= 0.0;
    ToI64(product)
  }

  function ParseCpu(input: string): (r: Parsed<I64>)
    ensures r.Ok? ==> r.value >= 0
  {
    if input == "" then Err(Invalid(input, "empty quantity"))
    else
      var (number, suffix) := SplitSuffix(input, ["m"]);
      match ParseNumber(number)
      case Err(e) => Err(e)
      case Ok(value) => Ok(Scaled(value, if suffix == "m" then 1 else 1000))
  }

  function ParseMemory(input: string): (r: Parsed<I64>)
    ensures r.Ok? ==> r.value >= 0
  {
    if input == "" then Err(Invalid(input, "empty quantity"))
    else
      var (number, suffix) := SplitSuffix(input, MemorySuffixes());
      if suffix == "" && '.' !in number && 'e' !in number && 'E' !in number then
        match ParseI64(number)
        case None => Err(Invalid(input, "not a valid integer"))
        case Some(value) =>
          if value < 0 then Err(Invalid(input, "negative quantities are not allowed")) else Ok(value)
      else
        match Multiplier(suffix)
        case None => Err(Invalid(input, "unknown resource suffix"))
        case Some(multiplier) =>
          match ParseNumber(number)
          case Err(e) => Err(e)
          case Ok(value) => Ok(Scaled(value, multiplier))
  }

  function ParseQuantity(resource: ResourceType, input: string): (r: Parsed<I64>)
    ensures r.Ok? ==> r.value >= 0
  {
    match resource
    case Cpu => ParseCpu(input)
    case Memory => ParseMemory(input)
  }

  // ---------- suffixes ----------

  /** No two memory suffixes can end the same text, so the order of the list does not matter
      and the first match is also the longest. */
  lemma OneSuffixMatches(input: string, s: string, t: string)
    requires s in MemorySuffixes() && t in MemorySuffixes()
    requires HasSuffix(input, s) && HasSuffix(input, t)
    ensures s == t
  {
    LastChars(input, s);
    LastChars(input, t);
  }

  lemma LastChars(input: string, s: string)
    requires s in MemorySuffixes() && HasSuffix(input, s)
    ensures input[|input| - 1] == s[|s| - 1]
    ensures |s| == 2 ==> |input| >= 2 && input[|input| - 2] == s[0]
    ensures |s| <= 2 && (|s| == 2 <==> s[|s| - 1] == 'i')
  {
  }

  lemma {:induction false} SplitFindsTheMatch(input: string, s: string, order: seq<string>)
    requires s in order && HasSuffix(input, s)
    requires forall t :: t in order && HasSuffix(input, t) ==> t == s
    ensures SplitSuffix(input, order).1 == s
  {
    if order[0] != s {
      SplitFindsTheMatch(input, s, order[1..]);
    }
  }

  lemma {:induction false} SplitWithoutMatch(input: string, order: seq<string>)
    requires forall t :: t in order ==> !HasSuffix(input, t)
    ensures SplitSuffix(input, order) == (input, "")
  {
    if order != [] {
      SplitWithoutMatch(input, order[1..]);
    }
  }

  lemma SuffixOrderIrrelevant(input: string, order: seq<string>)
    requires forall t :: t in order <==> t in MemorySuffixes()
    ensures SplitSuffix(input, order) == SplitSuffix(input, MemorySuffixes())
  {
    hide MemorySuffixes;
    if s :| s in MemorySuffixes() && HasSuffix(input, s) {
      forall t | t in order && HasSuffix(input, t) ensures t == s {
        OneSuffixMatches(input, s, t);
      }
      SplitFindsTheMatch(input, s, order);
      SplitFindsTheMatch(input, s, MemorySuffixes());
      var a, b := SplitSuffix(input, order), SplitSuffix(input, MemorySuffixes());
      assert a.0 == input[..|input| - |s|] && b.0 == input[..|input| - |s|];
    } else {
      SplitWithoutMatch(input, order);
      SplitWithoutMatch(input, MemorySuffixes());
    }
  }

  // ---------- reading back decimal text ----------

  lemma OnlyDigits(s: string)
    requires AllDigits(s)
    ensures '.' !in s && 'e' !in s && 'E' !in s
  {
  }

  lemma DigitsEndInDigit(s: string, suffix: string)
    requires AllDigits(s) && s != []
    requires suffix in MemorySuffixes() || suffix == "m"
    ensures !HasSuffix(s, suffix)
  {
    LastChar(s, suffix);
    assert !IsDigit(suffix[|suffix| - 1]);
  }

  lemma LastChar(s: string, suffix: string)
    ensures HasSuffix(s, suffix) && suffix != "" ==> s[|s| - 1] == suffix[|suffix| - 1]
  {
  }

  lemma DigitsHaveNoSuffix(s: string)
    requires AllDigits(s) && s != []
    ensures SplitSuffix(s, MemorySuffixes()) == (s, "")
    ensures SplitSuffix(s, ["m"]) == (s, "")
  {
    hide MemorySuffixes;
    forall t | t in MemorySuffixes() ensures !HasSuffix(s, t) {
      DigitsEndInDigit(s, t);
    }
    SplitWithoutMatch(s, MemorySuffixes());
    DigitsEndInDigit(s, "m");
    SplitWithoutMatch(s, ["m"]);
  }

  lemma {:induction false} NoExponentMark(s: string)
    requires 'e' !in s && 'E' !in s
    ensures ExponentMark(s) == |s|
  {
    if s != [] {
      NoExponentMark(s[1..]);
    }
  }

  lemma MantissaOfDigits(s: string)
    requires AllDigits(s) && s != []
    ensures ParseMantissa(s) == Some(DigitsValue(s) as real)
  {
    OnlyDigits(s);
    assert SplitOnce(s, '.').None?;
    assert s + "" == s;
    assert Scale(-|""|) == 1.0;
  }

  lemma DecimalIsNumber(n: nat)
    ensures ParseNumber(Decimal(n)) == Ok(n as real)
  {
    hide ParseMantissa;
    var s := Decimal(n);
    DecimalValue(n);
    OnlyDigits(s);
    NoExponentMark(s);
    MantissaOfDigits(s);
    assert IsDigit(s[0]) && s[..|s|] == s;
    assert Scale(0) == 1.0;
  }

  /** Plain bytes are exact over the whole non-negative 64-bit range; anything larger and
      anything negative is refused. */
  lemma PlainBytes(n: int)
    ensures 0 <= n <= I64_MAX ==> ParseMemory(SignedDecimal(n)) == Ok(n)
    ensures !(0 <= n <= I64_MAX) ==> ParseMemory(SignedDecimal(n)).Err?
  {
    hide ParseI64, Decimal;
    var digits := Decimal(if n < 0 then -n else n);
    SignedReadBack(n);
    OnlyDigits(digits);
    SignedHasNoSuffix(n);
  }

  lemma SignedHasNoSuffix(n: int)
    ensures SplitSuffix(SignedDecimal(n), MemorySuffixes()) == (SignedDecimal(n), "")
  {
    hide MemorySuffixes, Decimal;
    var s, digits := SignedDecimal(n), Decimal(if n < 0 then -n else n);
    assert s[|s| - 1] == digits[|digits| - 1];
    forall t | t in MemorySuffixes() ensures !HasSuffix(s, t) {
      LastChar(s, t);
      SuffixEndsInLetter(t);
    }
    SplitWithoutMatch(s, MemorySuffixes());
  }

  lemma SuffixEndsInLetter(t: string)
    requires t in MemorySuffixes()
    ensures t != "" && !IsDigit(t[|t| - 1])
  {
  }

  /** A whole number with any suffix means that many units, capped at the largest `i64`. */
  lemma SuffixedBytes(n: nat, suffix: string)
    requires suffix in MemorySuffixes()
    ensures Multiplier(suffix).Some?
    ensures ParseMemory(Decimal(n) + suffix) == Ok(Min(n * Multiplier(suffix).value, I64_MAX))
  {
    var input := Decimal(n) + suffix;
    KnownSuffix(suffix);
    StripSuffixAt(Decimal(n), suffix);
    hide Multiplier, Scaled, ParseNumber;
    forall t | t in MemorySuffixes() && HasSuffix(input, t) ensures t == suffix {
      OneSuffixMatches(input, suffix, t);
    }
    hide MemorySuffixes;
    SplitFindsTheMatch(input, suffix, MemorySuffixes());
    assert SplitSuffix(input, MemorySuffixes()).0 == input[..|Decimal(n)|] == Decimal(n);
    DecimalIsNumber(n);
    ScaledWhole(n, Multiplier(suffix).value);
  }

  /** Binary units step by 1024 and decimal units by 1000. */
  lemma UnitLadder(k: nat)
    requires k < 5
    ensures var binary, decimal := ["", "Ki", "Mi", "Gi", "Ti", "Pi"], ["", "k", "M", "G", "T", "P"];
      && Multiplier(binary[k]).Some? && Multiplier(binary[k + 1]) == Some(1024 * Multiplier(binary[k]).value)
      && Multiplier(decimal[k]).Some? && Multiplier(decimal[k + 1]) == Some(1000 * Multiplier(decimal[k]).value)
  {
    assert k == 0 || k == 1 || k == 2 || k == 3 || k == 4;
  }

  lemma KnownSuffix(suffix: string)
    requires suffix in MemorySuffixes()
    ensures suffix != "" && Multiplier(suffix).Some?
  {
  }

  lemma ScaledWhole(n: nat, unit: nat)
    ensures Scaled(n as real, unit) == Min(n * unit, I64_MAX)
  {
    WholeProduct(n, unit);
    var product := n * unit;
    assert product >= 0 && (product as real + 0.5).Floor == product;
  }

  /** Whole cores and whole milli-CPUs. */
  lemma WholeCpu(n: nat)
    ensures ParseCpu(Decimal(n)) == Ok(Min(n * 1000, I64_MAX))
    ensures ParseCpu(Decimal(n) + "m") == Ok(Min(n, I64_MAX))
  {
    DigitsHaveNoSuffix(Decimal(n));
    StripSuffixAt(Decimal(n), "m");
    DecimalIsNumber(n);
    ScaledWhole(n, 1000);
    ScaledWhole(n, 1);
  }

  /** The whole number nearest to a quotient, the upper one on a tie. */
  function RoundedQuotient(a: nat, b: nat): nat
    requires b > 0
  {
    (2 * a + b) / (2 * b)
  }

  /** Decimal byte quantities with any suffix or none and a fraction of any length: the nearest
      whole number of bytes, capped at the largest `i64`. */
  lemma DecimalBytes(whole: string, fraction: string, suffix: string)
    requires AllDigits(whole) && AllDigits(fraction) && AllDigits(whole + fraction) && whole + fraction != ""
    requires suffix == "" || suffix in MemorySuffixes()
    ensures Multiplier(suffix).Some?
    ensures var n, p := DigitsValue(whole + fraction), Pow10(|fraction|);
      ParseMemory(whole + "." + fraction + suffix)
        == Ok(Min(RoundedQuotient(n * Multiplier(suffix).value, p), I64_MAX))
  {
    hide Multiplier, Scaled, ParseNumber, RoundedQuotient, DigitsValue;
    var number := whole + "." + fraction;
    assert Multiplier(suffix).Some? by { KnownSuffixOrNone(suffix); }
    EndsInPointOrDigit(whole, fraction);
    SplitMemory(number, suffix);
    PointedNumber(whole, fraction);
    ScaledQuotient(DigitsValue(whole + fraction), Pow10(|fraction|), Multiplier(suffix).value);
    hide MemorySuffixes;
  }

  /** Decimal cores and decimal milli-CPUs in the same way. */
  lemma DecimalCpus(whole: string, fraction: string)
    requires AllDigits(whole) && AllDigits(fraction) && AllDigits(whole + fraction) && whole + fraction != ""
    ensures var n, p := DigitsValue(whole + fraction), Pow10(|fraction|);
      && ParseCpu(whole + "." + fraction) == Ok(Min(RoundedQuotient(n * 1000, p), I64_MAX))
      && ParseCpu(whole + "." + fraction + "m") == Ok(Min(RoundedQuotient(n * 1, p), I64_MAX))
  {
    hide Scaled, ParseNumber, RoundedQuotient, DigitsValue;
    var number := whole + "." + fraction;
    EndsInPointOrDigit(whole, fraction);
    SplitCpu(number);
    PointedNumber(whole, fraction);
    ScaledQuotient(DigitsValue(whole + fraction), Pow10(|fraction|), 1000);
    ScaledQuotient(DigitsValue(whole + fraction), Pow10(|fraction|), 1);
  }

  /** Exponents scale by powers of ten, in either case and either direction. */
  lemma ExponentBytes(n: nat, k: nat, mark: char)
    requires mark == 'e' || mark == 'E'
    ensures ParseMemory(Decimal(n) + [mark] + ("" + Decimal(k))) == Ok(Min(n * Pow10(k), I64_MAX))
    ensures ParseMemory(Decimal(n) + [mark] + ("+" + Decimal(k))) == Ok(Min(n * Pow10(k), I64_MAX))
    ensures ParseMemory(Decimal(n) + [mark] + ("-" + Decimal(k))) == Ok(Min(RoundedQuotient(n, Pow10(k)), I64_MAX))
  {
    hide Scaled, ParseMemory, RoundedQuotient, Decimal;
    ExponentText(n, k, mark, "");
    ExponentText(n, k, mark, "+");
    ExponentText(n, k, mark, "-");
    ScaledWhole(n * Pow10(k), 1);
    ScaledQuotient(n, Pow10(k), 1);
  }

  lemma ExponentText(n: nat, k: nat, mark: char, sign: string)
    requires (mark == 'e' || mark == 'E') && sign in ["", "+", "-"]
    ensures var value := if sign == "-" then n as real / Pow10(k) as real else (n * Pow10(k)) as real;
      && value >= 0.0
      && ParseMemory(Decimal(n) + [mark] + (sign + Decimal(k))) == Ok(Scaled(value, 1))
  {
    hide ParseNumber, Decimal, Scaled;
    var number := Decimal(n) + [mark] + (sign + Decimal(k));
    assert number[|number| - 1] == Decimal(k)[|Decimal(k)| - 1] && number[|Decimal(n)|] == mark;
    SplitMemory(number, "");
    assert number + "" == number && Multiplier("") == Some(1);
    ExponentNumber(n, k, mark, sign);
    hide Multiplier, MemorySuffixes;
  }

  /** An explicit plus sign changes nothing, whether the text is read as an integer or as a
      decimal. */
  lemma ExplicitPlus(n: nat)
    ensures n <= I64_MAX ==> ParseMemory("+" + Decimal(n)) == ParseMemory(Decimal(n)) == Ok(n)
    ensures n > I64_MAX ==> ParseMemory("+" + Decimal(n)).Err? && ParseMemory(Decimal(n)).Err?
    ensures ParseCpu("+" + Decimal(n)) == ParseCpu(Decimal(n))
  {
    PlusSplits(n);
    PlusIsNumber(n);
    PlusIsInteger(n);
    PlainBytes(n);
    DecimalIsNumber(n);
    hide ParseI64, ParseNumber, Decimal, SplitSuffix, Scaled;
    assert SignedDecimal(n) == Decimal(n);
  }

  lemma PlusSplits(n: nat)
    ensures var s := "+" + Decimal(n);
      && SplitSuffix(s, MemorySuffixes()) == (s, "") && SplitSuffix(s, ["m"]) == (s, "")
      && SplitSuffix(Decimal(n), ["m"]) == (Decimal(n), "")
      && '.' !in s && 'e' !in s && 'E' !in s
  {
    hide Decimal, MemorySuffixes;
    var s, digits := "+" + Decimal(n), Decimal(n);
    assert s[|s| - 1] == digits[|digits| - 1];
    OnlyDigits(digits);
    SplitCpu(s);
    SplitCpu(digits);
    SplitMemory(s, "");
    assert s + "" == s;
  }

  lemma PlusIsInteger(n: nat)
    ensures ParseI64("+" + Decimal(n)) == if n <= I64_MAX then Some(n) else None
  {
    DecimalValue(n);
    assert ("+" + Decimal(n))[1..] == Decimal(n);
    hide Decimal, DigitsValue;
  }

  lemma PlusIsNumber(n: nat)
    ensures ParseNumber("+" + Decimal(n)) == Ok(n as real)
  {
    var s := "+" + Decimal(n);
    DecimalValue(n);
    OnlyDigits(Decimal(n));
    NoExponentMark(Decimal(n));
    MantissaOfDigits(Decimal(n));
    hide ParseMantissa, Decimal, DigitsValue;
    assert s[1..] == Decimal(n) && Decimal(n)[..|Decimal(n)|] == Decimal(n);
    assert Scale(0) == 1.0;
  }

  /** The empty text is no quantity, and neither is a number behind which any single character
      stands that is no digit, point or unit. */
  lemma GarbageRefused(n: nat, c: char)
    requires !IsDigit(c) && c != '.' && c !in {'k', 'M', 'G', 'T', 'P'}
    ensures ParseMemory("").Err? && ParseCpu("").Err?
    ensures ParseMemory(Decimal(n) + [c]).Err?
    ensures c != 'm' ==> ParseCpu(Decimal(n) + [c]).Err?
  {
    GarbageSplits(n, c);
    GarbageIsNoInteger(n, c);
    GarbageIsNoNumber(n, c);
    hide ParseI64, ParseNumber, Decimal, SplitSuffix, Scaled;
  }

  lemma GarbageSplits(n: nat, c: char)
    requires !IsDigit(c) && c !in {'k', 'M', 'G', 'T', 'P'}
    ensures var s := Decimal(n) + [c];
      SplitSuffix(s, MemorySuffixes()) == (s, "") && (c != 'm' ==> SplitSuffix(s, ["m"]) == (s, ""))
  {
    hide Decimal;
    var s := Decimal(n) + [c];
    assert s[|s| - 1] == c && IsDigit(s[|s| - 2]);
    forall t | t in MemorySuffixes() ensures !HasSuffix(s, t) {
      if HasSuffix(s, t) {
        LastChars(s, t);
      }
    }
    SplitWithoutMatch(s, MemorySuffixes());
    LastChar(s, "m");
    if c != 'm' {
      SplitWithoutMatch(s, ["m"]);
    }
  }

  lemma GarbageIsNoInteger(n: nat, c: char)
    requires !IsDigit(c)
    ensures ParseI64(Decimal(n) + [c]) == None
  {
    var s := Decimal(n) + [c];
    assert IsDigit(Decimal(n)[0]) && s[0] == Decimal(n)[0];
    hide Decimal;
    assert !IsDigit(s[|s| - 1]);
  }

  lemma GarbageIsNoNumber(n: nat, c: char)
    requires !IsDigit(c) && c != '.'
    ensures ParseNumber(Decimal(n) + [c]).Err?
  {
    var digits, s := Decimal(n), Decimal(n) + [c];
    OnlyDigits(digits);
    assert IsDigit(s[0]);
    hide Decimal, ParseMantissa, ParseExponent, ExponentMark;
    if c == 'e' || c == 'E' {
      MarkAt(digits, c, "");
      assert digits + [c] + "" == s && s[|digits| + 1..] == "";
      assert ParseExponent("").None? by { NoExponent(); }
    } else {
      NoExponentMark(s);
      assert s[..|s|] == s && s[|s| - 1] == c;
      NoMantissa(s);
    }
  }

  lemma NoExponent()
    ensures ParseExponent("") == None
  {
  }

  lemma NoMantissa(s: string)
    requires s != "" && '.' !in s && !IsDigit(s[|s| - 1])
    ensures ParseMantissa(s) == None
  {
    assert s + "" == s;
  }

  /** The units there are. */
  lemma TenUnits(suffix: string)
    ensures suffix in MemorySuffixes()
       <==> suffix in {"Ki", "Mi", "Gi", "Ti", "Pi", "k", "M", "G", "T", "P"}
  {
  }

  lemma KnownSuffixOrNone(suffix: string)
    requires suffix == "" || suffix in MemorySuffixes()
    ensures Multiplier(suffix).Some?
  {
  }

  predicate EndsLikeNumber(s: string) {
    s != "" && (IsDigit(s[|s| - 1]) || s[|s| - 1] == '.')
  }

  lemma EndsInPointOrDigit(whole: string, fraction: string)
    requires AllDigits(whole) && AllDigits(fraction)
    ensures EndsLikeNumber(whole + "." + fraction) && '.' in whole + "." + fraction
  {
    var number := whole + "." + fraction;
    assert number[|whole|] == '.';
    if fraction != "" {
      assert number[|number| - 1] == fraction[|fraction| - 1];
    }
  }

  lemma SplitMemory(number: string, suffix: string)
    requires EndsLikeNumber(number) && (suffix == "" || suffix in MemorySuffixes())
    ensures SplitSuffix(number + suffix, MemorySuffixes()) == (number, suffix)
  {
    var input := number + suffix;
    if suffix == "" {
      assert input == number;
      forall t | t in MemorySuffixes() ensures !HasSuffix(input, t) {
        LastChar(input, t);
        SuffixEndsInLetter(t);
        SuffixIsNoPoint(t);
      }
      SplitWithoutMatch(input, MemorySuffixes());
    } else {
      StripSuffixAt(number, suffix);
      forall t | t in MemorySuffixes() && HasSuffix(input, t) ensures t == suffix {
        OneSuffixMatches(input, suffix, t);
      }
      SplitFindsTheMatch(input, suffix, MemorySuffixes());
      hide MemorySuffixes;
      assert SplitSuffix(input, MemorySuffixes()).0 == input[..|number|] == number;
    }
  }

  lemma SuffixIsNoPoint(t: string)
    requires t in MemorySuffixes()
    ensures t != "" && t[|t| - 1] != '.'
  {
  }

  lemma SplitCpu(number: string)
    requires EndsLikeNumber(number)
    ensures SplitSuffix(number, ["m"]) == (number, "") && SplitSuffix(number + "m", ["m"]) == (number, "m")
  {
    LastChar(number, "m");
    SplitWithoutMatch(number, ["m"]);
    StripSuffixAt(number, "m");
  }

  lemma {:induction false} ScaleDown(k: int)
    requires k >= 0
    ensures Scale(-k) == 1.0 / Pow10(k) as real
  {
    if k > 0 {
      ScaleDown(k - 1);
      assert -k + 1 == -(k - 1);
      TenthOf(Pow10(k - 1));
    }
  }

  lemma TenthOf(p: nat)
    requires p > 0
    ensures 1.0 / p as real / 10.0 == 1.0 / (10 * p) as real
  {
  }

  lemma {:induction false} ScaleUp(k: nat)
    ensures Scale(k) == Pow10(k) as real
  {
    if k > 0 {
      ScaleUp(k - 1);
    }
  }

  lemma PointedNumber(whole: string, fraction: string)
    requires AllDigits(whole) && AllDigits(fraction) && AllDigits(whole + fraction) && whole + fraction != ""
    ensures ParseNumber(whole + "." + fraction)
         == Ok(DigitsValue(whole + fraction) as real / Pow10(|fraction|) as real)
  {
    hide DigitsValue, ParseMantissa;
    var input := whole + "." + fraction;
    PointedMantissa(whole, fraction);
    OnlyDigits(whole);
    OnlyDigits(fraction);
    NoExponentMark(input);
    assert input[..|input|] == input;
    assert input[0] == '.' || IsDigit(input[0]);
    assert Scale(0) == 1.0;
    hide Scale, Pow10;
    QuotientTimes(DigitsValue(whole + fraction) as real, Pow10(|fraction|) as real, 1.0);
  }

  lemma PointedMantissa(whole: string, fraction: string)
    requires AllDigits(whole) && AllDigits(fraction) && AllDigits(whole + fraction) && whole + fraction != ""
    ensures ParseMantissa(whole + "." + fraction)
         == Some(DigitsValue(whole + fraction) as real / Pow10(|fraction|) as real)
  {
    hide DigitsValue, Scale, Pow10, SplitOnce, AllDigits, ParseMantissa;
    OnlyDigits(whole);
    SplitOnceAt(whole, '.', fraction);
    MantissaParts(whole + "." + fraction, whole, fraction);
    ScaleDown(|fraction|);
    DivideBy(DigitsValue(whole + fraction) as real, Pow10(|fraction|) as real, Scale(-|fraction|));
    var v := DigitsValue(whole + fraction) as real / Pow10(|fraction|) as real;
    assert ParseMantissa(whole + "." + fraction).value == v;
  }

  lemma DivideBy(x: real, y: real, inverse: real)
    requires y > 0.0 && inverse == 1.0 / y
    ensures x * inverse == x / y
  {
    TimesInverse(x, y);
  }

  lemma MantissaParts(s: string, whole: string, fraction: string)
    requires SplitOnce(s, '.') == Some((whole, fraction)) && AllDigits(whole + fraction) && whole + fraction != ""
    ensures ParseMantissa(s) == Some(DigitsValue(whole + fraction) as real * Scale(-|fraction|))
  {
    hide DigitsValue, Scale, SplitOnce, AllDigits;
    assert ParseMantissa(s).Some?;
    var v := ParseMantissa(s).value;
    assert v == DigitsValue(whole + fraction) as real * Scale(-|fraction|);
  }

  lemma TimesInverse(x: real, y: real)
    requires y > 0.0
    ensures x * (1.0 / y) == x / y
  {
  }

  lemma {:induction false} MarkAt(a: string, mark: char, b: string)
    requires 'e' !in a && 'E' !in a && (mark == 'e' || mark == 'E')
    ensures ExponentMark(a + [mark] + b) == |a|
  {
    if a != [] {
      assert (a + [mark] + b)[1..] == a[1..] + [mark] + b;
      MarkAt(a[1..], mark, b);
    }
  }

  lemma ExponentNumber(n: nat, k: nat, mark: char, sign: string)
    requires (mark == 'e' || mark == 'E') && sign in ["", "+", "-"]
    ensures ParseNumber(Decimal(n) + [mark] + (sign + Decimal(k)))
         == Ok(if sign == "-" then n as real / Pow10(k) as real else (n * Pow10(k)) as real)
  {
    hide ParseDecimal, Scale, Pow10, Decimal, DigitsValue;
    ExponentDecimal(n, k, mark, sign);
    ExponentScale(n, k, sign);
    QuotientTimes(n as real, Pow10(k) as real, 1.0);
    var v := if sign == "-" then n as real / Pow10(k) as real else (n * Pow10(k)) as real;
    assert v >= 0.0;
    assert ParseDecimal(Decimal(n) + [mark] + (sign + Decimal(k))).value == v;
  }

  lemma ExponentDecimal(n: nat, k: int, mark: char, sign: string)
    requires k >= 0 && (mark == 'e' || mark == 'E') && sign in ["", "+", "-"]
    ensures var e: int := if sign == "-" then -k else k;
      var parsed := ParseDecimal(Decimal(n) + [mark] + (sign + Decimal(k)));
      parsed.Some? && parsed.value == n as real * Scale(e)
  {
    hide ParseDecimal, ParseMantissa, ParseExponent, Scale, Pow10, Decimal, DigitsValue;
    var digits, exponent := Decimal(n), sign + Decimal(k);
    var input := digits + [mark] + exponent;
    DecimalValue(n);
    OnlyDigits(digits);
    MarkAt(digits, mark, exponent);
    MantissaOfDigits(digits);
    assert IsDigit(input[0]) && input[..|digits|] == digits && input[|digits| + 1..] == exponent;
    SignedExponent(k, sign);
    var e: int := if sign == "-" then -k else k;
    DecimalParts(input, |digits|, n as real, e);
  }

  lemma DecimalParts(s: string, mark: nat, mantissa: real, e: int)
    requires s != [] && IsDigit(s[0]) && ExponentMark(s) == mark < |s|
    requires ParseMantissa(s[..mark]) == Some(mantissa) && ParseExponent(s[mark + 1..]) == Some(e)
    ensures ParseDecimal(s).Some? && ParseDecimal(s).value == mantissa * Scale(e)
  {
    hide ParseMantissa, ParseExponent, Scale, ExponentMark;
    var r := ParseDecimal(s);
    assert r.Some?;
    var v := r.value;
    assert v == mantissa * Scale(e);
  }

  lemma ExponentScale(n: nat, k: int, sign: string)
    requires k >= 0
    ensures n as real * Scale(if sign == "-" then -k else k)
         == if sign == "-" then n as real / Pow10(k) as real else (n * Pow10(k)) as real
  {
    ScaleUp(k);
    ScaleDown(k);
    hide Scale, Pow10;
    WholeProduct(n, Pow10(k));
    TimesInverse(n as real, Pow10(k) as real);
  }

  lemma SignedExponent(k: int, sign: string)
    requires k >= 0 && sign in ["", "+", "-"]
    ensures ParseExponent(sign + Decimal(k)) == Some(if sign == "-" then -k else k)
  {
    hide Decimal, DigitsValue, AllDigits, ParseExponent;
    var digits := Decimal(k);
    DecimalValue(k);
    if sign == "" {
      assert sign + digits == digits;
      ExponentOfDigits(digits);
    } else if sign == "+" {
      assert sign + digits == ['+'] + digits;
      ExponentAfterSign('+', digits);
    } else {
      assert sign + digits == ['-'] + digits;
      ExponentAfterSign('-', digits);
    }
  }

  lemma ExponentOfDigits(digits: string)
    requires AllDigits(digits) && digits != []
    ensures ParseExponent(digits) == Some(DigitsValue(digits))
  {
    assert IsDigit(digits[0]);
    hide DigitsValue;
  }

  lemma ExponentAfterSign(sign: char, digits: string)
    requires (sign == '+' || sign == '-') && AllDigits(digits) && digits != []
    ensures ParseExponent([sign] + digits)
         == Some(if sign == '-' then -(DigitsValue(digits) as int) else DigitsValue(digits))
  {
    assert ([sign] + digits)[0] == sign && ([sign] + digits)[1..] == digits;
    hide DigitsValue, AllDigits;
  }

  lemma ScaledQuotient(n: nat, p: nat, unit: nat)
    requires p > 0
    ensures n as real / p as real >= 0.0
    ensures Scaled(n as real / p as real, unit) == Min(RoundedQuotient(n * unit, p), I64_MAX)
  {
    WholeProduct(n, unit);
    QuotientTimes(n as real, p as real, unit as real);
    var a := n * unit;
    HalfMore(a, p);
    FloorOfQuotient(2 * a + p, 2 * p);
  }

  lemma QuotientTimes(x: real, y: real, z: real)
    requires y > 0.0 && x >= 0.0 && z >= 0.0
    ensures x / y >= 0.0 && x / y * z == x * z / y && x / y * z >= 0.0
  {
  }

  lemma HalfMore(a: nat, p: nat)
    requires p > 0
    ensures a as real / p as real + 0.5 == (2 * a + p) as real / (2 * p) as real
  {
    var x, y := a as real, p as real;
    assert (2 * a + p) as real == 2.0 * x + y && (2 * p) as real == 2.0 * y;
    DoubledQuotient(x, y);
  }

  lemma DoubledQuotient(x: real, y: real)
    requires y > 0.0
    ensures x / y + 0.5 == (2.0 * x + y) / (2.0 * y)
  {
    var q := x / y;
    assert q * y == x;
    assert (q + 0.5) * (2.0 * y) == 2.0 * (q * y) + y;
    QuotientIs(2.0 * x + y, 2.0 * y, q + 0.5);
  }

  lemma QuotientIs(x: real, y: real, q: real)
    requires y > 0.0 && q * y == x
    ensures x / y == q
  {
  }

  lemma FloorOfQuotient(a: nat, b: nat)
    requires b > 0
    ensures (a as real / b as real).Floor == a / b
  {
    var q, m := a / b, a % b;
    assert a == q * b + m;
    WholeProduct(q, b);
    RealQuotient(a as real, b as real, q as real, m as real);
  }

  lemma RealQuotient(a: real, b: real, q: real, m: real)
    requires b > 0.0 && a == q * b + m && 0.0 <= m < b
    ensures q <= a / b < q + 1.0
  {
    var x := a / b;
    assert x * b == a;
    FractionOfOne(x - q, b, m);
  }

  lemma FractionOfOne(y: real, b: real, m: real)
    requires b > 0.0 && y * b == m && 0.0 <= m < b
    ensures 0.0 <= y < 1.0
  {
  }

  /** Cores written with three decimals are exact milli-CPUs. */
  lemma DecimalCores(cores: nat, milli: nat)
    requires milli < 1000
    ensures ParseCpu(Decimal(cores) + "." + Padded(milli, 3)) == Ok(Min(1000 * cores + milli, I64_MAX))
  {
    hide Decimal, Padded, ParseCpu, DigitsValue;
    CoresDigits(cores, milli);
    DecimalCpus(Decimal(cores), Padded(milli, 3));
    assert Pow10(1) == 10 && Pow10(2) == 100 && Pow10(3) == 1000;
  }

  lemma CoresDigits(cores: nat, milli: nat)
    requires milli < 1000
    ensures |Padded(milli, 3)| == 3 && AllDigits(Padded(milli, 3)) && AllDigits(Decimal(cores) + Padded(milli, 3))
    ensures DigitsValue(Decimal(cores) + Padded(milli, 3)) == 1000 * cores + milli
  {
    hide Decimal, Padded;
    assert Pow10(1) == 10 && Pow10(2) == 100 && Pow10(3) == 1000;
    PaddedParses(milli, 3);
    PaddedLength(milli, 3);
    DigitsConcat(Decimal(cores), Padded(milli, 3));
    DecimalValue(cores);
  }

  /** A minus sign is refused, except in front of zero. */
  lemma NegativeRefused(n: nat)
    ensures ParseNumber("-" + Decimal(n)).Err? <==> n > 0
  {
    var s := "-" + Decimal(n);
    DecimalValue(n);
    OnlyDigits(Decimal(n));
    NoExponentMark(Decimal(n));
    MantissaOfDigits(Decimal(n));
    hide ParseMantissa;
    assert s[1..] == Decimal(n) && Decimal(n)[..|Decimal(n)|] == Decimal(n);
    assert Scale(0) == 1.0;
  }

  /** Rounding goes to the nearest whole figure, and up on a tie. */
  lemma RoundsToNearest(value: real)
    requires 0.0 <= value <= I64_MAX as real
    ensures -0.5 < ToI64(value) as real - value <= 0.5
  {
  }
}

/**
 * The string formats the handlers rely on: Go's `%d` rendering of integers,
 * `strconv.ParseUint(s, 10, 32)` for path ids, `strconv.Atoi` with its error
 * ignored for paging parameters, and splitting a string at the first
 * occurrence of a separator (used to read keys and file names back).
 */
module Text {
  import opened Wrappers

  const MaxUint32: nat := 0xFFFF_FFFF
  const MinInt64: int := -0x8000_0000_0000_0000
  const MaxInt64: int := 0x7FFF_FFFF_FFFF_FFFF
  const MaxUint64: nat := 0xFFFF_FFFF_FFFF_FFFF

  predicate IsDigit(c: char) {
    '0' <= c <= '9'
  }

  predicate AllDigits(s: string) {
    forall i :: 0 <= i < |s| ==> IsDigit(s[i])
  }

  function DigitVal(c: char): nat
    requires IsDigit(c)
  {
    c as int - '0' as int
  }

  function DigitChar(d: nat): (c: char)
    requires d < 10
    ensures IsDigit(c) && DigitVal(c) == d
  {
    ('0' as int + d) as char
  }

  /** The value of a string of decimal digits, most significant first (leading zeros allowed). */
  function DigitsValue(s: string): nat
    requires AllDigits(s)
  {
    if |s| == 0 then 0 else DigitsValue(s[..|s| - 1]) * 10 + DigitVal(s[|s| - 1])
  }

  /** A canonical decimal numeral: non-empty digits, and no leading zero unless it is "0". */
  predicate Canonical(s: string) {
    |s| > 0 && AllDigits(s) && (s[0] == '0' ==> |s| == 1)
  }

  /** Go's `%d` for a non-negative integer. */
  function Decimal(n: nat): (s: string)
    ensures Canonical(s)
    ensures s[0] == '0' <==> n == 0
    decreases n
  {
    if n < 10 then [DigitChar(n)] else Decimal(n / 10) + [DigitChar(n % 10)]
  }

  /** Go's `%d` for a signed integer: a minus sign, then the magnitude. */
  function DecimalInt(i: int): (s: string)
    ensures |s| > 0
    ensures i >= 0 ==> s == Decimal(i)
    ensures i < 0 ==> s == "-" + Decimal(-i)
  {
    if i < 0 then "-" + Decimal(-i) else Decimal(i)
  }

  /** Reading a numeral back gives the number it was written from. */
  lemma {:induction false} DecimalValue(n: nat)
    ensures DigitsValue(Decimal(n)) == n
  {
    if n >= 10 {
      var p := Decimal(n / 10);
      var s := Decimal(n);
      assert s == p + [DigitChar(n % 10)];
      assert s[..|s| - 1] == p;
      DecimalValue(n / 10);
    }
  }

  lemma {:induction false} LeadingNonZeroPositive(s: string)
    requires |s| > 0 && AllDigits(s) && s[0] != '0'
    ensures DigitsValue(s) >= 1
  {
    if |s| > 1 {
      LeadingNonZeroPositive(s[..|s| - 1]);
    }
  }

  /** Every canonical numeral is the `%d` rendering of its value: `Decimal` is onto the canonical numerals. */
  lemma {:induction false} CanonicalIsDecimal(s: string)
    requires Canonical(s)
    ensures Decimal(DigitsValue(s)) == s
  {
    if |s| > 1 {
      var p := s[..|s| - 1];
      assert Canonical(p);
      LeadingNonZeroPositive(p);
      CanonicalIsDecimal(p);
      var v := DigitsValue(s);
      assert v / 10 == DigitsValue(p) && v % 10 == DigitVal(s[|s| - 1]);
      assert v >= 10;
      assert DigitChar(v % 10) == s[|s| - 1];
      assert s == p + [s[|s| - 1]];
    }
  }

  /** Distinct numbers are written differently. */
  lemma DecimalInjective(m: nat, n: nat)
    ensures Decimal(m) == Decimal(n) <==> m == n
  {
    if Decimal(m) == Decimal(n) {
      DecimalValue(m);
      DecimalValue(n);
    }
  }

  /** A numeral of any length (leading zeros allowed), as when reading a key back. */
  function ParseDecimal(s: string): (r: Option<nat>)
    ensures r.Some? <==> |s| > 0 && AllDigits(s)
    ensures r.Some? ==> r.value == DigitsValue(s)
  {
    if |s| > 0 && AllDigits(s) then Some(DigitsValue(s)) else None
  }

  lemma ParseDecimalOfDecimal(n: nat)
    ensures ParseDecimal(Decimal(n)) == Some(n)
  {
    DecimalValue(n);
  }

  /**
   * `strconv.ParseUint(s, 10, 32)` with both its syntax and its range error
   * read as `None`. The contract says which strings are accepted: exactly the
   * non-empty all-digit strings (no sign, no underscore with an explicit base)
   * whose value fits in 32 bits.
   */
  function ParseUint32(s: string): (r: Option<nat>)
    ensures r.Some? <==> |s| > 0 && AllDigits(s) && DigitsValue(s) <= MaxUint32
    ensures r.Some? ==> r.value == DigitsValue(s)
  {
    ScanMeaning([], s, MaxUint32);
    assert [] + s[..LeadingDigits(s)] == s[..LeadingDigits(s)];
    assert AllDigits(s) ==> LeadingDigits(s) == |s|;
    assert s[..|s|] == s;
    match ParseUintBits(s, MaxUint32)
    case UintValue(n) => Some(n)
    case _ => None
  }

  /** Every 32-bit id survives being printed and parsed again. */
  lemma ParseUint32OfDecimal(n: nat)
    requires n <= MaxUint32
    ensures ParseUint32(Decimal(n)) == Some(n)
  {
    DecimalValue(n);
  }

  /** A canonical numeral that parses is exactly the `%d` rendering of the parsed id. */
  lemma ParseUint32Canonical(s: string)
    requires Canonical(s)
    ensures ParseUint32(s).Some? ==> Decimal(ParseUint32(s).value) == s
  {
    CanonicalIsDecimal(s);
  }

  /** Values outside Go's `int64` saturate, as `ParseInt` does on a range error. */
  function Clamp64(x: int): (r: int)
    ensures MinInt64 <= r <= MaxInt64
    ensures MinInt64 <= x <= MaxInt64 ==> r == x
    ensures x > MaxInt64 ==> r == MaxInt64
    ensures x < MinInt64 ==> r == MinInt64
  {
    if x > MaxInt64 then MaxInt64 else if x < MinInt64 then MinInt64 else x
  }

  /** Two's-complement wrap-around of Go's 64-bit `int` arithmetic. */
  function Wrap64(x: int): (r: int)
    ensures MinInt64 <= r <= MaxInt64
    ensures (r - x) % 0x1_0000_0000_0000_0000 == 0
    ensures MinInt64 <= x <= MaxInt64 ==> r == x
  {
    if MinInt64 <= x <= MaxInt64 then x else (x - MinInt64) % 0x1_0000_0000_0000_0000 + MinInt64
  }

  /** `Wrap64(x)` is the only value in 64-bit range congruent to `x` modulo 2^64. */
  lemma WrapUnique(x: int, r: int)
    requires MinInt64 <= r <= MaxInt64 && (r - x) % 0x1_0000_0000_0000_0000 == 0
    ensures r == Wrap64(x)
  {
    var w := Wrap64(x);
    var q1 := (r - x) / 0x1_0000_0000_0000_0000;
    var q2 := (w - x) / 0x1_0000_0000_0000_0000;
    assert r - x == 0x1_0000_0000_0000_0000 * q1;
    assert w - x == 0x1_0000_0000_0000_0000 * q2;
    assert r - w == 0x1_0000_0000_0000_0000 * (q1 - q2);
  }

  /** A multiple of 2^64 times any factor is a multiple of 2^64. */
  lemma MulDiff(w: int, a: int, b: int, q: int)
    requires w - a == 0x1_0000_0000_0000_0000 * q
    ensures w * b - a * b == 0x1_0000_0000_0000_0000 * (q * b)
  {
    assert w * b - a * b == (w - a) * b;
  }

  /** Wrapping a factor first gives the same 64-bit product as wrapping only the exact product. */
  lemma WrapMul(a: int, b: int)
    ensures Wrap64(Wrap64(a) * b) == Wrap64(a * b)
  {
    var w := Wrap64(a);
    var q := (w - a) / 0x1_0000_0000_0000_0000;
    assert w - a == 0x1_0000_0000_0000_0000 * q;
    MulDiff(w, a, b, q);
    var wb, ab, qb := w * b, a * b, q * b;
    var t := Wrap64(wb);
    var k := (t - wb) / 0x1_0000_0000_0000_0000;
    assert t - wb == 0x1_0000_0000_0000_0000 * k;
    assert t - ab == 0x1_0000_0000_0000_0000 * (k + qb);
    WrapUnique(ab, t);
  }

  lemma InRangeWraps(x: int)
    requires MinInt64 <= x <= MaxInt64
    ensures Wrap64(x) == x
  {
  }

  /** `(page-1)*size` in 64-bit arithmetic is the exact product when that fits. */
  lemma OffsetFits(page: nat, size: nat)
    requires 1 <= page <= MaxInt64 && size <= MaxInt64 && (page - 1) * size <= MaxInt64
    ensures Wrap64(Wrap64(page - 1) * size) == (page - 1) * size
  {
    var prev: int := page - 1;
    InRangeWraps(prev);
    MulNonneg(prev, size);
    var product: int := prev * size;
    InRangeWraps(product);
  }

  lemma MulNonneg(a: nat, b: nat)
    ensures a * b >= 0
  {
  }

  /** How `strconv.ParseUint(s, 10, bits)` ends. */
  datatype UintScan = UintValue(n: nat) | SyntaxError | RangeError

  /**
   * The digit loop of `ParseUint`, with `n` the value read so far and `max`
   * the largest value of the requested bit size. Bytes are read left to
   * right: a non-digit is a syntax error at once, and a digit that would take
   * the value past `max` is a range error at once, before any later byte is
   * looked at. (Go tests `n*10` against a 64-bit cutoff first and then the
   * sum against `max`; for `max` at most 2^64-1 the two tests together fail
   * exactly when `n*10 + d > max`.)
   */
  function ScanDigits(s: string, n: nat, max: nat): UintScan
    requires n <= max
    decreases |s|
  {
    if |s| == 0 then UintValue(n)
    else if !IsDigit(s[0]) then SyntaxError
    else
      var next := n * 10 + DigitVal(s[0]);
      if next > max then RangeError else ScanDigits(s[1..], next, max)
  }

  /** `strconv.ParseUint(s, 10, bits)` with `max` = 2^bits-1: an empty string is a syntax error. */
  function ParseUintBits(s: string, max: nat): UintScan {
    if |s| == 0 then SyntaxError else ScanDigits(s, 0, max)
  }

  /** The number of digits at the front of `s`. */
  function LeadingDigits(s: string): (k: nat)
    ensures k <= |s| && AllDigits(s[..k])
    ensures k < |s| ==> !IsDigit(s[k])
    decreases |s|
  {
    if |s| == 0 || !IsDigit(s[0]) then 0
    else
      var k := 1 + LeadingDigits(s[1..]);
      assert s[..k] == [s[0]] + s[1..][..k - 1];
      k
  }

  /** Appending digits never makes a numeral smaller. */
  lemma {:induction false} DigitsValueGrows(a: string, b: string)
    requires AllDigits(a) && AllDigits(b)
    ensures AllDigits(a + b)
    ensures DigitsValue(a + b) >= DigitsValue(a)
  {
    assert forall i :: 0 <= i < |a + b| ==> (a + b)[i] == if i < |a| then a[i] else b[i - |a|];
    if |b| > 0 {
      var c := a + b;
      assert c[..|c| - 1] == a + b[..|b| - 1];
      DigitsValueGrows(a, b[..|b| - 1]);
      assert DigitsValue(c) == DigitsValue(c[..|c| - 1]) * 10 + DigitVal(c[|c| - 1]);
    } else {
      assert a + b == a;
    }
  }

  /**
   * What the digit loop returns, stated by the leading digit run instead of
   * the loop: with `p` the digits already read, the run's value decides a
   * range error; below the bound, a byte after the run is a syntax error.
   */
  lemma {:induction false} ScanMeaning(p: string, s: string, max: nat)
    requires AllDigits(p) && DigitsValue(p) <= max
    ensures AllDigits(s[..LeadingDigits(s)]) && AllDigits(p + s[..LeadingDigits(s)])
    ensures var k := LeadingDigits(s);
            var v := DigitsValue(p + s[..k]);
            ScanDigits(s, DigitsValue(p), max) ==
              if v > max then RangeError else if k < |s| then SyntaxError else UintValue(v)
    decreases |s|
  {
    var k := LeadingDigits(s);
    DigitsValueGrows(p, s[..k]);
    if |s| == 0 || !IsDigit(s[0]) {
      assert p + s[..k] == p;
    } else {
      var p' := p + [s[0]];
      assert p'[..|p'| - 1] == p;
      var next := DigitsValue(p');
      assert next == DigitsValue(p) * 10 + DigitVal(s[0]);
      assert LeadingDigits(s[1..]) == k - 1;
      assert p + s[..k] == p' + s[1..][..k - 1];
      DigitsValueGrows(p', s[1..][..k - 1]);
      if next <= max {
        assert ScanDigits(s, DigitsValue(p), max) == ScanDigits(s[1..], next, max);
        ScanMeaning(p', s[1..], max);
      } else {
        assert ScanDigits(s, DigitsValue(p), max) == RangeError;
      }
    }
  }

  /** The text `ParseInt` hands to `ParseUint`: `s` without one leading sign. */
  function Unsigned(s: string): string {
    if |s| > 0 && (s[0] == '+' || s[0] == '-') then s[1..] else s
  }

  predicate Negative(s: string) {
    |s| > 0 && s[0] == '-'
  }

  /**
   * `n, _ := strconv.Atoi(s)` on a 64-bit platform. `Atoi` hands strings of
   * 19 bytes or more to `ParseInt(s, 10, 0)`, which takes one optional sign,
   * reads the rest with 64-bit `ParseUint`, and saturates to the `int64` range on a
   * range error; the error is dropped, so a syntax error reads as 0. Shorter
   * strings take a fast path that gives the same results, since 18 digits
   * never overflow.
   */
  function AtoiIgnoringError(s: string): (r: int)
    ensures MinInt64 <= r <= MaxInt64
    ensures var body := Unsigned(s);
            var k := LeadingDigits(body);
            var v := DigitsValue(body[..k]);
            && (v > MaxUint64 ==> r == if Negative(s) then MinInt64 else MaxInt64)
            && (v <= MaxUint64 && (k == 0 || k < |body|) ==> r == 0)
            && (v <= MaxUint64 && 0 < k == |body| ==> r == Clamp64(if Negative(s) then -(v as int) else v as int))
  {
    var body := Unsigned(s);
    ScanMeaning([], body, MaxUint64);
    assert [] + body[..LeadingDigits(body)] == body[..LeadingDigits(body)];
    match ParseUintBits(body, MaxUint64)
    case SyntaxError => 0
    case RangeError => if Negative(s) then MinInt64 else MaxInt64
    case UintValue(u) => Clamp64(if Negative(s) then -(u as int) else u as int)
  }

  lemma {:induction false} LeadingDigitsAppend(d: string, t: string)
    requires AllDigits(d)
    ensures LeadingDigits(d + t) == |d| + LeadingDigits(t)
    decreases |d|
  {
    if |d| > 0 {
      assert (d + t)[1..] == d[1..] + t;
      LeadingDigitsAppend(d[1..], t);
    } else {
      assert d + t == t;
    }
  }

  /**
   * A digit run past 2^64-1 saturates by its sign whatever text follows it:
   * the range error comes before the loop reaches the first non-digit.
   */
  lemma OverflowBeforeText(d: string, t: string)
    requires AllDigits(d) && DigitsValue(d) > MaxUint64
    ensures AtoiIgnoringError(d + t) == MaxInt64
    ensures AtoiIgnoringError("-" + (d + t)) == MinInt64
  {
    RunOverflows(d, t);
    var p := d + t;
    assert |d| > 0 && IsDigit(p[0]);
    assert Unsigned(p) == p && !Negative(p);
    SaturatesOnOverflow(p);
    var m := "-" + p;
    assert m[1..] == p;
    assert Unsigned(m) == p && Negative(m);
    SaturatesOnOverflow(m);
  }

  lemma SaturatesOnOverflow(s: string)
    requires DigitsValue(Unsigned(s)[..LeadingDigits(Unsigned(s))]) > MaxUint64
    ensures AtoiIgnoringError(s) == if Negative(s) then MinInt64 else MaxInt64
  {
  }

  /** The leading digit run of `d + t` holds all of `d`, so its value is past the bound too. */
  lemma RunOverflows(d: string, t: string)
    requires AllDigits(d) && DigitsValue(d) > MaxUint64
    ensures DigitsValue((d + t)[..LeadingDigits(d + t)]) > MaxUint64
  {
    var k := LeadingDigits(t);
    LeadingDigitsAppend(d, t);
    assert (d + t)[..|d| + k] == d + t[..k];
    DigitsValueGrows(d, t[..k]);
  }

  /** Text that starts with neither a sign nor a digit reads as 0. */
  lemma AtoiNonNumeric(s: string)
    requires |s| > 0 && !IsDigit(s[0]) && s[0] != '+' && s[0] != '-'
    ensures AtoiIgnoringError(s) == 0
  {
    assert Unsigned(s) == s;
    assert LeadingDigits(s) == 0;
    assert s[..0] == [];
  }

  lemma AtoiOfDecimal(n: nat)
    requires n <= MaxInt64
    ensures AtoiIgnoringError(Decimal(n)) == n
  {
    DecimalValue(n);
    var d := Decimal(n);
    assert Unsigned(d) == d;
    assert LeadingDigits(d) == |d|;
    assert d[..|d|] == d;
  }

  /**
   * The text before and after the first `sep` in `s`, or `None` when `sep`
   * does not occur.
   */
  function SplitFirst(s: string, sep: char): (r: Option<(string, string)>)
    ensures r.None? <==> sep !in s
    ensures r.Some? ==> s == r.value.0 + [sep] + r.value.1 && sep !in r.value.0
  {
    if |s| == 0 then None
    else if s[0] == sep then Some(([], s[1..]))
    else
      match SplitFirst(s[1..], sep)
      case None => None
      case Some((a, b)) => Some(([s[0]] + a, b))
  }

  /** Splitting a joined string at a separator the head does not contain recovers both parts. */
  lemma {:induction false} SplitFirstJoin(a: string, sep: char, b: string)
    requires sep !in a
    ensures SplitFirst(a + [sep] + b, sep) == Some((a, b))
  {
    var s := a + [sep] + b;
    assert s[|a|] == sep;
    var r := SplitFirst(s, sep);
    var a', b' := r.value.0, r.value.1;
    assert s == a' + [sep] + b';
    assert s[|a'|] == sep;
    assert forall i | 0 <= i < |a| :: s[i] == a[i];
    assert forall i | 0 <= i < |a'| :: s[i] == a'[i];
    assert |a'| == |a|;
    assert a' == s[..|a|] == a;
    assert b' == s[|a| + 1..] == b;
  }

  lemma DecimalHasNo(n: nat, c: char)
    requires !IsDigit(c)
    ensures c !in Decimal(n)
  {
  }

  /** A signed `%d` rendering holds no character other than digits and '-'. */
  lemma DecimalIntHasNo(i: int, c: char)
    requires !IsDigit(c) && c != '-'
    ensures c !in DecimalInt(i)
  {
    if i < 0 {
      DecimalHasNo(-i, c);
      assert DecimalInt(i) == "-" + Decimal(-i);
    } else {
      DecimalHasNo(i, c);
    }
  }
}

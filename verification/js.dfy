/**
 * The parts of the JavaScript runtime that the habit tracker's client-side derivations
 * rely on, stated over Dafny's unbounded integers and strings: `Math.round` of a ratio,
 * `String.prototype.trim`, `length` in UTF-16 code units, `parseInt` without a radix and
 * `Array.prototype.filter`.
 */
module Js {
  import opened Wrappers

  // ---------------------------------------------------------------- Math.round

  /** `Math.round(n / d)` for a positive divisor: the nearest integer, a half rounded up. */
  function Round(n: int, d: int): (r: int)
    requires d > 0
    ensures 2 * d * r - d <= 2 * n < 2 * d * r + d
  {
    (2 * n + d) / (2 * d)
  }

  lemma DivMonotone(x: int, y: int, k: int)
    requires k > 0 && x <= y
    ensures x / k <= y / k
  {
    var qx, qy := x / k, y / k;
    assert k * qx <= x && y < k * qy + k;
    MulNonNegative(k, qx - qy - 1);
    assert k * (qx - qy - 1) == k * qx - k * qy - k;
  }

  lemma MulMonotone(k: int, a: int, b: int)
    requires k >= 0 && a <= b
    ensures k * a <= k * b
  {
    MulNonNegative(k, b - a);
    assert k * (b - a) == k * b - k * a;
  }

  /** A product with a non-negative factor is non-negative when the other factor is. */
  lemma MulNonNegative(k: int, m: int)
    requires k >= 0
    ensures m >= 0 ==> k * m >= 0
  {
  }

  lemma RoundMonotone(n1: int, n2: int, d: int)
    requires d > 0 && n1 <= n2
    ensures Round(n1, d) <= Round(n2, d)
  {
    DivMonotone(2 * n1 + d, 2 * n2 + d, 2 * d);
  }

  /** Rounding an exact multiple gives the multiplier back. */
  lemma RoundExact(q: int, d: int)
    requires d > 0
    ensures Round(q * d, d) == q
  {
    var m := Round(q * d, d) - q;
    assert 2 * d * m - d <= 0 < 2 * d * m + d by {
      assert 2 * d * Round(q * d, d) == 2 * d * m + 2 * (q * d);
    }
    MulNonNegative(2 * d, m - 1);
    MulNonNegative(2 * d, -m - 1);
    assert 2 * d * (m - 1) == 2 * d * m - 2 * d;
    assert 2 * d * (-m - 1) == -(2 * d * m) - 2 * d;
  }

  /** `Math.round(a / b * 100)` for `0 <= a <= b` is a percentage in [0, 100]. */
  lemma RoundPercentBounds(a: int, b: int)
    requires 0 <= a <= b && b > 0
    ensures 0 <= Round(100 * a, b) <= 100
  {
    RoundExact(0, b);
    RoundExact(100, b);
    RoundMonotone(0, 100 * a, b);
    RoundMonotone(100 * a, 100 * b, b);
  }

  /** A rounded mean of values that each lie in [0, 100] lies in [0, 100]. */
  lemma RoundMeanBounds(sum: int, n: int)
    requires n > 0 && 0 <= sum <= 100 * n
    ensures 0 <= Round(sum, n) <= 100
  {
    RoundExact(0, n);
    RoundExact(100, n);
    RoundMonotone(0, sum, n);
    RoundMonotone(sum, 100 * n, n);
  }

  // ---------------------------------------------------------------- strings

  /** WhiteSpace and LineTerminator code points of ECMAScript (section 12.2 and 12.3 of ECMA-262). */
  predicate IsWhiteSpace(c: char) {
    || c == '\t' || c == '\n' || c == '\U{000B}' || c == '\U{000C}' || c == '\r'
    || c == ' ' || c == '\U{00A0}' || c == '\U{1680}' || ('\U{2000}' <= c <= '\U{200A}')
    || c == '\U{2028}' || c == '\U{2029}' || c == '\U{202F}' || c == '\U{205F}'
    || c == '\U{3000}' || c == '\U{FEFF}'
  }

  predicate AllWhiteSpace(s: string) {
    forall i :: 0 <= i < |s| ==> IsWhiteSpace(s[i])
  }

  /** `s.trimStart()`: the suffix left after dropping leading white space. */
  function TrimStart(s: string): (r: string)
    ensures |r| <= |s| && r == s[|s| - |r|..]
    ensures r == [] || !IsWhiteSpace(r[0])
  {
    if s == [] || !IsWhiteSpace(s[0]) then s else TrimStart(s[1..])
  }

  /** What `trimStart` drops is white space. */
  lemma {:induction false} TrimStartDropsWhiteSpace(s: string)
    ensures AllWhiteSpace(s[..|s| - |TrimStart(s)|])
  {
    if s != [] && IsWhiteSpace(s[0]) {
      var r := TrimStart(s[1..]);
      TrimStartDropsWhiteSpace(s[1..]);
      assert s[..|s| - |r|] == [s[0]] + s[1..][..|s| - 1 - |r|];
    }
  }

  /** `s.trimEnd()`: the prefix left after dropping trailing white space. */
  function TrimEnd(s: string): (r: string)
    ensures |r| <= |s| && r == s[..|r|]
    ensures r == [] || !IsWhiteSpace(r[|r| - 1])
  {
    if s == [] || !IsWhiteSpace(s[|s| - 1]) then s else TrimEnd(s[..|s| - 1])
  }

  /** What `trimEnd` drops is white space. */
  lemma {:induction false} TrimEndDropsWhiteSpace(s: string)
    ensures AllWhiteSpace(s[|TrimEnd(s)|..])
  {
    if s != [] && IsWhiteSpace(s[|s| - 1]) {
      var r := TrimEnd(s[..|s| - 1]);
      TrimEndDropsWhiteSpace(s[..|s| - 1]);
      assert s[|r|..] == s[..|s| - 1][|r|..] + [s[|s| - 1]];
    }
  }

  /** `s.trim()`: white space dropped at both ends. */
  function Trim(s: string): (r: string)
    ensures |r| <= |s|
  {
    TrimEnd(TrimStart(s))
  }

  /** `trim` leaves a slice of `s` with no white space at either end. */
  lemma TrimShape(s: string)
    ensures exists i, j :: 0 <= i <= j <= |s| && Trim(s) == s[i..j]
    ensures Trim(s) == [] || (!IsWhiteSpace(Trim(s)[0]) && !IsWhiteSpace(Trim(s)[|Trim(s)| - 1]))
  {
    var t := TrimStart(s);
    var r := TrimEnd(t);
    var i := |s| - |t|;
    assert r == s[i..][..|r|];
    assert s[i..][..|r|] == s[i..i + |r|];
    assert r != [] ==> r[0] == t[0];
  }

  /** A string trims to the empty string exactly when every character of it is white space. */
  lemma TrimEmptyIff(s: string)
    ensures Trim(s) == [] <==> AllWhiteSpace(s)
  {
    var t := TrimStart(s);
    TrimStartDropsWhiteSpace(s);
    TrimEndDropsWhiteSpace(t);
    if Trim(s) == [] {
      assert AllWhiteSpace(t) by {
        assert t[0..] == t;
      }
      assert t == [];
      assert s[..|s|] == s;
    }
  }

  /** Trimming is idempotent. */
  lemma TrimIdempotent(s: string)
    ensures Trim(Trim(s)) == Trim(s)
  {
    var r := Trim(s);
    if r != [] {
      assert TrimStart(r) == r;
      assert TrimEnd(r) == r;
    }
  }

  /** `s.length`: the number of UTF-16 code units, two for a code point above U+FFFF. */
  function Utf16Length(s: string): (n: nat)
    ensures |s| <= n <= 2 * |s|
  {
    if s == [] then 0
    else (if s[0] as int > 0xFFFF then 2 else 1) + Utf16Length(s[1..])
  }

  // ---------------------------------------------------------------- parseInt

  /** The digit value of a character in radix up to 36, or 36 when it is no digit at all. */
  function DigitValue(c: char): (v: nat)
    ensures v <= 36
    ensures '0' <= c <= '9' ==> v == c as int - '0' as int
  {
    if '0' <= c <= '9' then c as int - '0' as int
    else if 'a' <= c <= 'z' then c as int - 'a' as int + 10
    else if 'A' <= c <= 'Z' then c as int - 'A' as int + 10
    else 36
  }

  /** The longest prefix of `s` made of digits of `radix`. */
  function DigitPrefix(s: string, radix: nat): (r: string)
    ensures |r| <= |s| && r == s[..|r|]
    ensures forall i :: 0 <= i < |r| ==> DigitValue(r[i]) < radix
    ensures |r| < |s| ==> DigitValue(s[|r|]) >= radix
  {
    if s == [] || DigitValue(s[0]) >= radix then []
    else [s[0]] + DigitPrefix(s[1..], radix)
  }

  /** The value of a digit string, most significant digit first. */
  function DigitsValue(ds: string, radix: nat): nat
  {
    if ds == [] then 0
    else DigitsValue(ds[..|ds| - 1], radix) * radix + DigitValue(ds[|ds| - 1])
  }

  function Pow(b: nat, e: nat): nat
  {
    if e == 0 then 1 else b * Pow(b, e - 1)
  }

  /** `v * radix + d < radix * p` for a digit `d` and `v < p`. */
  lemma AppendDigitBound(v: nat, d: nat, p: nat, radix: nat)
    requires v < p && d < radix
    ensures v * radix + d < radix * p
  {
    MulMonotone(radix, v + 1, p);
    assert radix * (v + 1) == v * radix + radix;
  }

  /** Appending a digit multiplies the value so far by the radix and adds the digit. */
  lemma DigitsValueSnoc(ds: string, radix: nat)
    requires ds != []
    ensures DigitsValue(ds, radix) == DigitsValue(ds[..|ds| - 1], radix) * radix + DigitValue(ds[|ds| - 1])
  {
  }

  /** A string of `k` digits in `radix` denotes a number below `radix` to the `k`. */
  lemma {:induction false} DigitsValueBound(ds: string, radix: nat)
    requires forall i :: 0 <= i < |ds| ==> DigitValue(ds[i]) < radix
    ensures DigitsValue(ds, radix) < Pow(radix, |ds|)
  {
    if ds == [] {
      assert Pow(radix, 0) == 1;
    } else {
      var init := ds[..|ds| - 1];
      assert forall i :: 0 <= i < |init| ==> init[i] == ds[i];
      DigitsValueBound(init, radix);
      var v, d, p := DigitsValue(init, radix), DigitValue(ds[|ds| - 1]), Pow(radix, |init|);
      DigitsValueSnoc(ds, radix);
      assert Pow(radix, |ds|) == radix * p;
      AppendDigitBound(v, d, p, radix);
    }
  }

  /** The rest of `t` after one optional sign. */
  function Unsigned(t: string): string {
    if t != [] && (t[0] == '+' || t[0] == '-') then t[1..] else t
  }

  /** `u` starts with `0x` or `0X`. */
  predicate HexPrefixed(u: string) {
    |u| >= 2 && u[0] == '0' && (u[1] == 'x' || u[1] == 'X')
  }

  function Radix(u: string): nat {
    if HexPrefixed(u) then 16 else 10
  }

  /** The part of `u` where the digits start. */
  function DigitsPart(u: string): string {
    if HexPrefixed(u) then u[2..] else u
  }

  /**
   * `parseInt(s)` with no radix: leading white space is skipped, then one optional sign,
   * then a `0x`/`0X` prefix switches to radix 16; the value is that of the longest run of
   * digits that follows, and NaN (here `None`) when that run is empty.
   */
  function ParseInt(s: string): (r: Option<int>)
    ensures r.None? <==>
      var u := Unsigned(TrimStart(s));
      DigitsPart(u) == [] || DigitValue(DigitsPart(u)[0]) >= Radix(u)
  {
    var t := TrimStart(s);
    var u := Unsigned(t);
    var digits := DigitPrefix(DigitsPart(u), Radix(u));
    if digits == [] then None
    else if t != [] && t[0] == '-' then Some(0 - DigitsValue(digits, Radix(u)))
    else Some(DigitsValue(digits, Radix(u)))
  }

  /** The decimal numeral of a natural number, as `String(n)` writes it. */
  function Decimal(n: nat): (s: string)
    ensures s != [] && forall i :: 0 <= i < |s| ==> '0' <= s[i] <= '9'
  {
    var d := ['0', '1', '2', '3', '4', '5', '6', '7', '8', '9'];
    if n < 10 then [d[n]] else Decimal(n / 10) + [d[n % 10]]
  }

  lemma {:induction false} DecimalValue(n: nat)
    ensures DigitsValue(Decimal(n), 10) == n
  {
    if n >= 10 {
      DecimalValue(n / 10);
      assert Decimal(n)[..|Decimal(n)| - 1] == Decimal(n / 10);
    }
  }

  lemma {:induction false} DigitPrefixOfDigits(s: string)
    requires forall i :: 0 <= i < |s| ==> '0' <= s[i] <= '9'
    ensures DigitPrefix(s, 10) == s
  {
    if s != [] {
      DigitPrefixOfDigits(s[1..]);
    }
  }

  lemma DigitsHaveNoPrefix(s: string)
    requires s != [] && forall i :: 0 <= i < |s| ==> '0' <= s[i] <= '9'
    ensures TrimStart(s) == s
    ensures s[0] != '+' && s[0] != '-'
    ensures !(|s| >= 2 && s[0] == '0' && (s[1] == 'x' || s[1] == 'X'))
  {
    assert !IsWhiteSpace(s[0]);
    if |s| >= 2 {
      assert '0' <= s[1] <= '9';
    }
  }

  /** A non-empty run of decimal digits parses to the number it denotes. */
  lemma ParseIntDigits(s: string)
    requires s != [] && forall i :: 0 <= i < |s| ==> '0' <= s[i] <= '9'
    ensures ParseInt(s) == Some(DigitsValue(s, 10))
  {
    DigitsHaveNoPrefix(s);
    assert Unsigned(s) == s && !HexPrefixed(s);
    DigitPrefixOfDigits(s);
  }

  /** `parseInt` reads back every decimal numeral `String(n)` writes. */
  lemma {:induction false} ParseIntDecimal(n: nat)
    ensures ParseInt(Decimal(n)) == Some(n)
  {
    ParseIntDigits(Decimal(n));
    DecimalValue(n);
  }

  // ---------------------------------------------------------------- Array.prototype.filter

  /** `s.filter(p)`: the elements satisfying `p`, in their original order. */
  function Filter<T>(s: seq<T>, p: T -> bool): (r: seq<T>)
    ensures |r| <= |s|
  {
    if s == [] then []
    else if p(s[0]) then [s[0]] + Filter(s[1..], p)
    else Filter(s[1..], p)
  }

  /** Only elements of `s` that satisfy `p` are kept. */
  lemma {:induction false} FilterSound<T>(s: seq<T>, p: T -> bool)
    ensures forall x :: x in Filter(s, p) ==> x in s && p(x)
  {
    if s != [] {
      FilterSound(s[1..], p);
    }
  }

  /** Every element of `s` that satisfies `p` is kept. */
  lemma {:induction false} FilterComplete<T>(s: seq<T>, p: T -> bool, x: T)
    requires x in s && p(x)
    ensures x in Filter(s, p)
  {
    if s[0] != x {
      FilterComplete(s[1..], p, x);
    }
  }

  /** Filtering distributes over concatenation, so the kept elements keep their order. */
  lemma {:induction false} FilterAppend<T>(a: seq<T>, b: seq<T>, p: T -> bool)
    ensures Filter(a + b, p) == Filter(a, p) + Filter(b, p)
  {
    if a != [] {
      assert (a + b)[0] == a[0];
      assert (a + b)[1..] == a[1..] + b;
      FilterAppend(a[1..], b, p);
      if p(a[0]) {
        calc {
          Filter(a + b, p);
          [a[0]] + Filter(a[1..] + b, p);
          [a[0]] + (Filter(a[1..], p) + Filter(b, p));
          ([a[0]] + Filter(a[1..], p)) + Filter(b, p);
        }
      }
    } else {
      assert a + b == b;
    }
  }

  /** Nothing is kept when no element satisfies `p`. */
  lemma {:induction false} FilterNone<T>(s: seq<T>, p: T -> bool)
    requires forall i :: 0 <= i < |s| ==> !p(s[i])
    ensures Filter(s, p) == []
  {
    if s != [] {
      FilterNone(s[1..], p);
    }
  }

  /**
   * Moving `x` out of the middle of a list, past a part `hi` holding nothing `p` keeps
   * whenever `p` keeps `x`, moves it to the end of the filtered list.
   */
  lemma {:induction false} FilterMoveToEnd<T>(lo: seq<T>, x: T, hi: seq<T>, p: T -> bool)
    requires p(x) ==> forall i :: 0 <= i < |hi| ==> !p(hi[i])
    ensures Filter(lo + [x] + hi, p) == Filter(lo + hi, p) + Filter([x], p)
  {
    FilterAppend(lo + [x], hi, p);
    FilterAppend(lo, [x], p);
    FilterAppend(lo, hi, p);
    if p(x) {
      FilterNone(hi, p);
      assert Filter(hi, p) == [];
    } else {
      assert Filter([x], p) == [];
    }
  }

  /** Counting by a predicate that is the disjoint union of two others adds the two counts. */
  lemma {:induction false} FilterDisjointUnion<T>(s: seq<T>, p: T -> bool, q: T -> bool, r: T -> bool)
    requires forall x :: r(x) == (p(x) || q(x))
    requires forall x :: !(p(x) && q(x))
    ensures |Filter(s, r)| == |Filter(s, p)| + |Filter(s, q)|
  {
    if s != [] {
      FilterDisjointUnion(s[1..], p, q, r);
    }
  }

  /** A weaker predicate keeps at least as many elements. */
  lemma {:induction false} FilterImplies<T>(s: seq<T>, p: T -> bool, q: T -> bool)
    requires forall x :: p(x) ==> q(x)
    ensures |Filter(s, p)| <= |Filter(s, q)|
  {
    if s != [] {
      FilterImplies(s[1..], p, q);
    }
  }

  /** Filtering by `p` and by its negation splits `s` into two parts that together hold it all. */
  lemma {:induction false} FilterPartition<T>(s: seq<T>, p: T -> bool, q: T -> bool)
    requires forall x :: q(x) == !p(x)
    ensures |Filter(s, p)| + |Filter(s, q)| == |s|
    ensures multiset(Filter(s, p)) + multiset(Filter(s, q)) == multiset(s)
  {
    if s != [] {
      FilterPartition(s[1..], p, q);
      assert s == [s[0]] + s[1..];
    }
  }
}

/**
 * The few pieces of Java integer and string semantics that the batch
 * decompiler relies on, written out over Dafny's unbounded integers and
 * `seq<char>` strings: truncating division, the `(int)` narrowing of a
 * `long`, the `%02d` format, `String.lastIndexOf`, `String.contains` and the
 * natural order of strings used by a `TreeSet<String>`.
 */
module JavaText {

  // ---------------------------------------------------------------------
  // Integer arithmetic
  // ---------------------------------------------------------------------

  /** Java's `/` on integers for a positive divisor: rounds toward zero. */
  function Quot(a: int, b: int): (q: int)
    requires b > 0
    ensures a >= 0 ==> q >= 0 && b * q <= a < b * q + b
    ensures a < 0 ==> q <= 0 && b * q - b < a <= b * q
  {
    if a >= 0 then a / b else -((-a) / b)
  }

  /** Java's `%` on integers for a positive divisor: takes the sign of `a`. */
  function Rem(a: int, b: int): (r: int)
    requires b > 0
    ensures a == b * Quot(a, b) + r
    ensures a >= 0 ==> 0 <= r < b
    ensures a < 0 ==> -b < r <= 0
  {
    a - b * Quot(a, b)
  }

  /** On non-negative operands Java's and Dafny's operators agree. */
  lemma QuotRemNonNegative(a: int, b: int)
    requires a >= 0 && b > 0
    ensures Quot(a, b) == a / b && Rem(a, b) == a % b
  {
  }

  lemma {:induction false} MulAtLeast(d: int, k: int)
    requires d > 0 && k >= 1
    ensures d * k >= d
    decreases k
  {
    if k > 1 {
      MulAtLeast(d, k - 1);
      assert d * k == d * (k - 1) + d;
    }
  }

  /** If `a == d * q + r` with `0 <= r < d` then `q` and `r` are the quotient and remainder. */
  lemma {:induction false} DivUnique(a: int, d: int, q: int, r: int)
    requires d > 0 && 0 <= r < d && a == d * q + r
    ensures a / d == q && a % d == r
  {
    var q', r' := a / d, a % d;
    assert a == d * q' + r';
    var k := q - q';
    assert d * k == d * q - d * q';
    assert d * k == r' - r;
    if k > 0 {
      MulAtLeast(d, k);
    } else if k < 0 {
      MulAtLeast(d, -k);
    }
  }

  /** Multiplying by a positive number keeps the order. */
  lemma MulMonotone(b: int, x: int, y: int)
    requires b > 0 && x <= y
    ensures b * x <= b * y
  {
    if x < y {
      MulAtLeast(b, y - x);
      assert b * y - b * x == b * (y - x);
    }
  }

  /** Dividing twice is dividing by the product. */
  lemma {:induction false} DivDiv(a: int, b: int, c: int)
    requires a >= 0 && b > 0 && c > 0
    ensures a / b / c == a / (b * c)
    ensures a / b == c * (a / (b * c)) + (a / b) % c
  {
    var q, r := a / b, a % b;
    var q2, r2 := q / c, q % c;
    assert a == b * q + r;
    assert q == c * q2 + r2;
    assert b * q == b * (c * q2) + b * r2;
    assert b * (c * q2) == (b * c) * q2;
    MulMonotone(b, r2, c - 1);
    assert b * (c - 1) == b * c - b;
    DivUnique(a, b * c, q2, b * r2 + r);
  }

  const TWO_TO_31: int := 0x8000_0000
  const TWO_TO_32: int := 0x1_0000_0000

  /** Java's narrowing cast `(int) x` of a `long`: keeps the low 32 bits, two's complement. */
  function ToInt(x: int): (r: int)
    ensures -TWO_TO_31 <= r < TWO_TO_31
    ensures (x - r) % TWO_TO_32 == 0
    ensures -TWO_TO_31 <= x < TWO_TO_31 ==> r == x
  {
    var low := x % TWO_TO_32;
    if low >= TWO_TO_31 then low - TWO_TO_32 else low
  }

  function Max(a: int, b: int): int { if a >= b then a else b }

  function Min(a: int, b: int): int { if a <= b then a else b }

  // ---------------------------------------------------------------------
  // Decimal text
  // ---------------------------------------------------------------------

  predicate IsDigit(c: char) { '0' <= c <= '9' }

  predicate IsDigits(s: string) { forall i :: 0 <= i < |s| ==> IsDigit(s[i]) }

  function DigitChar(d: int): (c: char)
    requires 0 <= d < 10
    ensures IsDigit(c) && c as int - '0' as int == d
  {
    ('0' as int + d) as char
  }

  /** The shortest decimal spelling of `n`, as `Long.toString` writes it. */
  function DecimalDigits(n: nat): (s: string)
    ensures IsDigits(s) && |s| >= 1
    ensures n < 10 ==> |s| == 1
    ensures 10 <= n < 100 ==> |s| == 2
    decreases n
  {
    if n < 10 then [DigitChar(n)] else DecimalDigits(n / 10) + [DigitChar(n % 10)]
  }

  /** The value of a run of decimal digits (leading zeros allowed). */
  function ParseDecimal(s: string): nat
    requires IsDigits(s)
    decreases |s|
  {
    if s == [] then 0 else 10 * ParseDecimal(s[..|s| - 1]) + (s[|s| - 1] as int - '0' as int)
  }

  /** Reading back what `DecimalDigits` wrote gives the number. */
  lemma {:induction false} ParseDecimalDigits(n: nat)
    ensures ParseDecimal(DecimalDigits(n)) == n
    decreases n
  {
    if n >= 10 {
      var s := DecimalDigits(n);
      assert s[..|s| - 1] == DecimalDigits(n / 10);
      ParseDecimalDigits(n / 10);
    }
  }

  /**
   * `String.format("%02d", n)`: at least two characters; a non-negative value
   * is padded with a leading zero, a negative one is a minus sign followed by
   * its digits (the sign counts toward the width, so no zero is inserted).
   */
  function FormatD02(n: int): string
  {
    if n < 0 then "-" + DecimalDigits(-n)
    else if n < 10 then "0" + DecimalDigits(n)
    else DecimalDigits(n)
  }

  /** `%02d` of a non-negative value is all digits, at least two of them, and reads back as the value. */
  lemma FormatD02NonNegative(n: int)
    requires n >= 0
    ensures var s := FormatD02(n); IsDigits(s) && |s| >= 2 && ParseDecimal(s) == n
    ensures n < 100 ==> |FormatD02(n)| == 2
  {
    var s := FormatD02(n);
    ParseDecimalDigits(n);
    if n < 10 {
      assert s == ['0', DigitChar(n)];
      assert s[..1] == "0";
    }
  }

  /** `%02d` of a negative value starts with the minus sign. */
  lemma FormatD02Negative(n: int)
    requires n < 0
    ensures var s := FormatD02(n); |s| >= 2 && s[0] == '-' && IsDigits(s[1..]) && ParseDecimal(s[1..]) == -n
  {
    var d := DecimalDigits(-n);
    var s := FormatD02(n);
    assert s == "-" + d;
    assert s[1..] == d;
    ParseDecimalDigits(-n);
    assert ParseDecimal(s[1..]) == -n;
  }

  // ---------------------------------------------------------------------
  // Searching in strings
  // ---------------------------------------------------------------------

  /** `s.lastIndexOf(c)`: the last position holding `c`, or -1. */
  function LastIndexOf(s: string, c: char): (r: int)
    ensures -1 <= r < |s|
    ensures r >= 0 ==> s[r] == c
    ensures forall j :: r < j < |s| ==> s[j] != c
    decreases |s|
  {
    if s == [] then -1
    else if s[|s| - 1] == c then |s| - 1
    else LastIndexOf(s[..|s| - 1], c)
  }

  /** `p` occurs in `s` starting at position `i`. */
  predicate OccursAt(p: string, s: string, i: int)
  {
    0 <= i && i + |p| <= |s| && s[i..i + |p|] == p
  }

  /** `s.contains(p)`. */
  predicate Contains(s: string, p: string)
  {
    exists i | 0 <= i <= |s| :: OccursAt(p, s, i)
  }

  /** Every character of an occurrence is the matching character of `p`. */
  lemma OccursAtChar(p: string, s: string, i: int, j: int)
    requires OccursAt(p, s, i) && i <= j < i + |p|
    ensures s[j] == p[j - i]
  {
    assert s[i..i + |p|][j - i] == s[j];
  }

  /** The two halves of a concatenation. */
  lemma ConcatHead(x: string, y: string)
    ensures (x + y)[..|x|] == x
    ensures (x + y)[|x|..] == y && (x + y)[|x|..|x| + |y|] == y
  {
  }

  /** A slice lying in the first half of a concatenation is a slice of that half. */
  lemma ConcatPrefixSlice(x: string, y: string, i: int, j: int)
    requires 0 <= i <= j <= |x|
    ensures (x + y)[i..j] == x[i..j]
  {
  }

  /** Where each of six concatenated parts sits in the whole. */
  lemma Layout6(a: string, b: string, c: string, d: string, e: string, g: string)
    ensures var f, i1, i2, i3, i4, i5 := a + b + c + d + e + g, |a|, |a| + |b|, |a| + |b| + |c|,
                                         |a| + |b| + |c| + |d|, |a| + |b| + |c| + |d| + |e|;
      && |f| == i5 + |g|
      && f[..i1] == a && f[i1..i2] == b && f[i2..i3] == c
      && f[i3..i4] == d && f[i4..i5] == e && f[i5..] == g
  {
    var a2 := a + b;
    var a3 := a2 + c;
    var a4 := a3 + d;
    var a5 := a4 + e;
    var f := a5 + g;
    ConcatHead(a, b);
    ConcatHead(a2, c);
    ConcatHead(a3, d);
    ConcatHead(a4, e);
    ConcatHead(a5, g);
    ConcatPrefixSlice(a5, g, 0, |a|);
    ConcatPrefixSlice(a4, e, 0, |a|);
    ConcatPrefixSlice(a3, d, 0, |a|);
    ConcatPrefixSlice(a2, c, 0, |a|);
    ConcatPrefixSlice(a5, g, |a|, |a2|);
    ConcatPrefixSlice(a4, e, |a|, |a2|);
    ConcatPrefixSlice(a3, d, |a|, |a2|);
    ConcatPrefixSlice(a2, c, |a|, |a2|);
    ConcatPrefixSlice(a5, g, |a2|, |a3|);
    ConcatPrefixSlice(a4, e, |a2|, |a3|);
    ConcatPrefixSlice(a3, d, |a2|, |a3|);
    ConcatPrefixSlice(a5, g, |a3|, |a4|);
    ConcatPrefixSlice(a4, e, |a3|, |a4|);
    ConcatPrefixSlice(a5, g, |a4|, |a5|);
  }

  /** A character of a slice that equals `part` is the matching character of `part`. */
  lemma SliceChar(f: string, start: int, part: string, k: int)
    requires 0 <= start && start + |part| <= |f| && f[start..start + |part|] == part
    requires 0 <= k < |part|
    ensures f[start + k] == part[k]
  {
    assert f[start..start + |part|][k] == f[start + k];
  }

  /** An occurrence lying inside a slice of `f` that equals `part` is an occurrence in `part`. */
  lemma OccursInSlice(p: string, f: string, start: int, part: string, i: int)
    requires 0 <= start && start + |part| <= |f| && f[start..start + |part|] == part
    requires OccursAt(p, f, i) && start <= i && i + |p| <= start + |part|
    ensures OccursAt(p, part, i - start)
  {
    forall k | 0 <= k < |p|
      ensures part[i - start + k] == p[k]
    {
      OccursAtChar(p, f, i, i + k);
      SliceChar(f, start, part, i - start + k);
    }
    assert part[i - start..i - start + |p|] == p;
  }

  /** An occurrence in `part`, a slice of `f`, is an occurrence in `f`. */
  lemma OccursFromSlice(p: string, f: string, start: int, part: string, j: int)
    requires 0 <= start && start + |part| <= |f| && f[start..start + |part|] == part
    requires OccursAt(p, part, j)
    ensures OccursAt(p, f, start + j)
  {
    forall k | 0 <= k < |p|
      ensures f[start + j + k] == p[k]
    {
      OccursAtChar(p, part, j, j + k);
      SliceChar(f, start, part, j + k);
    }
    assert f[start + j..start + j + |p|] == p;
  }

  /** An occurrence in a part is an occurrence in the whole. */
  lemma OccursInside(p: string, a: string, s: string, b: string, i: int)
    requires OccursAt(p, s, i)
    ensures OccursAt(p, a + s + b, |a| + i)
  {
    var w := a + s + b;
    assert w[|a| + i..|a| + i + |p|] == s[i..i + |p|];
  }

  /** An occurrence that lies wholly inside a part is an occurrence in that part. */
  lemma OccursWithin(p: string, a: string, s: string, b: string, i: int)
    requires OccursAt(p, a + s + b, i) && |a| <= i && i + |p| <= |a| + |s|
    ensures OccursAt(p, s, i - |a|)
  {
    var w := a + s + b;
    assert w[i..i + |p|] == s[i - |a|..i - |a| + |p|];
  }

  // ---------------------------------------------------------------------
  // The natural order of strings
  // ---------------------------------------------------------------------

  /**
   * `a.compareTo(b) < 0`: the first differing character decides, and a proper
   * prefix comes first.
   */
  predicate Below(a: string, b: string)
    decreases |a|
  {
    if a == [] then b != []
    else if b == [] then false
    else if a[0] != b[0] then a[0] < b[0]
    else Below(a[1..], b[1..])
  }

  lemma {:induction false} BelowIrreflexive(a: string)
    ensures !Below(a, a)
    decreases |a|
  {
    if a != [] {
      BelowIrreflexive(a[1..]);
    }
  }

  lemma {:induction false} BelowTransitive(a: string, b: string, c: string)
    requires Below(a, b) && Below(b, c)
    ensures Below(a, c)
    decreases |a|
  {
    if a != [] && a[0] == b[0] && b[0] == c[0] {
      BelowTransitive(a[1..], b[1..], c[1..]);
    }
  }

  lemma {:induction false} BelowTotal(a: string, b: string)
    requires a != b
    ensures Below(a, b) || Below(b, a)
    decreases |a|
  {
    if a != [] && b != [] && a[0] == b[0] {
      assert a == [a[0]] + a[1..] && b == [b[0]] + b[1..];
      BelowTotal(a[1..], b[1..]);
    }
  }

  /** Every non-empty finite set of strings has a least element. */
  lemma {:induction false} LeastExists(s: set<string>)
    requires s != {}
    ensures exists m :: m in s && forall y :: y in s && y != m ==> Below(m, y)
    decreases |s|
  {
    var x :| x in s;
    var rest := s - {x};
    if rest == {} {
      assert s == {x};
    } else {
      LeastExists(rest);
      var m :| m in rest && forall y :: y in rest && y != m ==> Below(m, y);
      if Below(m, x) {
        assert forall y :: y in s && y != m ==> Below(m, y);
      } else {
        BelowTotal(m, x);
        forall y | y in s && y != x
          ensures Below(x, y)
        {
          if y != m {
            BelowTransitive(x, m, y);
          }
        }
      }
    }
  }

  /** Strictly ascending in the natural order, hence free of duplicates. */
  predicate Ascending(s: seq<string>)
  {
    forall i, j :: 0 <= i < j < |s| ==> Below(s[i], s[j])
  }

  lemma AscendingDistinct(s: seq<string>, i: int, j: int)
    requires Ascending(s) && 0 <= i < |s| && 0 <= j < |s| && i != j
    ensures s[i] != s[j]
  {
    if i < j {
      if s[i] == s[j] { BelowIrreflexive(s[i]); }
    } else {
      if s[i] == s[j] { BelowIrreflexive(s[j]); }
    }
  }
}

/**
  Decimal text as `printf("%d")` / `printf("%0Nd")` produce it for
  non-negative values, and the value a run of decimal digits denotes.
 */
module Text {

  predicate IsDigit(c: char) { '0' <= c <= '9' }

  predicate AllDigits(s: string) { forall k :: 0 <= k < |s| ==> IsDigit(s[k]) }

  function DigitChar(d: nat): (c: char)
    requires d < 10
    ensures IsDigit(c)
  {
    ['0', '1', '2', '3', '4', '5', '6', '7', '8', '9'][d]
  }

  function DigitValue(c: char): (d: nat)
    requires IsDigit(c)
    ensures d < 10 && DigitChar(d) == c
  {
    (c as int) - ('0' as int)
  }

  /** The number a string of decimal digits denotes (most significant first). */
  function ValueOf(s: string): nat
    requires AllDigits(s)
  {
    if |s| == 0 then 0 else 10 * ValueOf(s[..|s| - 1]) + DigitValue(s[|s| - 1])
  }

  /** `%d` of a non-negative value: no leading zero except for 0 itself. */
  function Decimal(n: nat): (r: string)
    ensures 1 <= |r| && AllDigits(r)
    ensures ValueOf(r) == n
    ensures r[0] == '0' ==> n == 0
  {
    if n < 10 then [DigitChar(n)]
    else
      var r := Decimal(n / 10) + [DigitChar(n % 10)];
      assert r[..|r| - 1] == Decimal(n / 10);
      r
  }

  function Zeros(k: nat): (r: string)
    ensures |r| == k && AllDigits(r) && ValueOf(r) == 0
  {
    if k == 0 then []
    else
      var r := Zeros(k - 1) + ['0'];
      assert r[..|r| - 1] == Zeros(k - 1);
      r
  }

  /** `%0<width>d` of a non-negative value: left-padded with zeros, never truncated. */
  function Padded(n: nat, width: nat): (r: string)
    ensures |r| == if |Decimal(n)| < width then width else |Decimal(n)|
    ensures AllDigits(r) && ValueOf(r) == n
  {
    var d := Decimal(n);
    var z := if |d| < width then width - |d| else 0;
    LeadingZeros(z, d);
    Zeros(z) + d
  }

  /** Zeros in front of a digit string do not change the value it denotes. */
  lemma {:induction false} LeadingZeros(k: nat, d: string)
    requires AllDigits(d)
    ensures AllDigits(Zeros(k) + d)
    ensures ValueOf(Zeros(k) + d) == ValueOf(d)
  {
    if |d| == 0 {
      assert Zeros(k) + d == Zeros(k);
    } else {
      var init := d[..|d| - 1];
      LeadingZeros(k, init);
      assert (Zeros(k) + d)[..|Zeros(k) + d| - 1] == Zeros(k) + init;
    }
  }

  /** Concatenating digit strings: the left part is shifted by the length of the right. */
  lemma {:induction false} ValueOfAppend(a: string, b: string)
    requires AllDigits(a) && AllDigits(b)
    ensures AllDigits(a + b)
    ensures ValueOf(a + b) == ValueOf(a) * Pow10(|b|) + ValueOf(b)
  {
    if |b| == 0 {
      assert a + b == a;
    } else {
      var init := b[..|b| - 1];
      var last := DigitValue(b[|b| - 1]);
      ValueOfAppend(a, init);
      assert (a + b)[..|a + b| - 1] == a + init;
      calc {
        ValueOf(a + b);
        10 * ValueOf(a + init) + last;
        10 * (ValueOf(a) * Pow10(|init|) + ValueOf(init)) + last;
        { MulShift(ValueOf(a), Pow10(|init|)); }
        ValueOf(a) * Pow10(|b|) + (10 * ValueOf(init) + last);
        ValueOf(a) * Pow10(|b|) + ValueOf(b);
      }
    }
  }

  lemma MulShift(x: int, y: int)
    ensures 10 * (x * y) == x * (10 * y)
  {
  }

  function Pow10(k: nat): (r: nat)
    ensures r >= 1
  {
    if k == 0 then 1 else 10 * Pow10(k - 1)
  }

  /** A value below 10^k has at most k decimal digits. */
  lemma {:induction false} DecimalLength(n: nat, k: nat)
    requires n < Pow10(k)
    ensures |Decimal(n)| <= k || (n == 0 && k == 0)
  {
    if n >= 10 {
      DecimalLength(n / 10, k - 1);
    }
  }

  /** The width of a zero-padded value that fits in the width is exactly that width. */
  lemma PaddedWidth(n: nat, width: nat)
    requires 1 <= width && n < Pow10(width)
    ensures |Padded(n, width)| == width
  {
    DecimalLength(n, width);
  }

  /** `t` occurs in `s` starting at index `i`. */
  predicate OccursAt(s: string, t: string, i: nat)
  {
    i + |t| <= |s| && s[i..i + |t|] == t
  }

  /** `strstr(s, t) != NULL`: `t` occurs somewhere in `s`. */
  predicate Contains(s: string, t: string)
  {
    exists i: nat | i <= |s| :: OccursAt(s, t, i)
  }

  /** An occurrence survives putting text on either side. */
  lemma ContainsWithin(s: string, t: string, pre: string, post: string)
    requires Contains(s, t)
    ensures Contains(pre + s + post, t)
  {
    var i: nat :| i <= |s| && OccursAt(s, t, i);
    var w := pre + s + post;
    assert w[|pre| + i .. |pre| + i + |t|] == s[i..i + |t|];
    assert OccursAt(w, t, |pre| + i);
  }

  /** The three parts of a concatenation sit at their offsets. */
  lemma PartsOf3(a: string, b: string, c: string)
    ensures (a + b + c)[..|a|] == a && (a + b + c)[|a|..|a| + |b|] == b && (a + b + c)[|a| + |b|..] == c
  {
  }
}

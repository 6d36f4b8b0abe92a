/**
 * Character and string helpers the two core files rely on through the .NET
 * base library: ordinal case-insensitive comparison, decimal formatting
 * ("D" and "D12" format strings), ordinal string order and the
 * ordering performed by LINQ's OrderBy.
 */
module Text {

  /** Simple upper-casing used by ordinal case-insensitive comparison (ASCII letters only). */
  function Upper(c: char): char {
    if 'a' <= c <= 'z' then (c as int - 32) as char else c
  }

  /** StringComparison.OrdinalIgnoreCase equality. */
  predicate EqualsIgnoreCase(a: string, b: string) {
    |a| == |b| && forall i :: 0 <= i < |a| ==> Upper(a[i]) == Upper(b[i])
  }

  // ---------------------------------------------------------------------------
  // Decimal formatting

  predicate IsDigit(c: char) {
    '0' <= c <= '9'
  }

  predicate AllDigits(s: string) {
    forall i :: 0 <= i < |s| ==> IsDigit(s[i])
  }

  function DigitChar(d: nat): (c: char)
    requires d < 10
    ensures IsDigit(c)
  {
    ('0' as int + d) as char
  }

  function DigitValue(c: char): (d: nat)
    requires IsDigit(c)
    ensures d < 10 && DigitChar(d) == c
  {
    c as int - '0' as int
  }

  function Pow10(k: nat): (r: nat)
    ensures r >= 1
  {
    if k == 0 then 1 else 10 * Pow10(k - 1)
  }

  /** The shortest decimal rendering of n, without sign. */
  function DecimalString(n: nat): (s: string)
    ensures |s| >= 1 && AllDigits(s)
  {
    if n < 10 then [DigitChar(n)] else DecimalString(n / 10) + [DigitChar(n % 10)]
  }

  /** The number a string of decimal digits denotes. */
  function DecimalValue(s: string): nat
    requires AllDigits(s)
  {
    if s == [] then 0 else DecimalValue(s[..|s| - 1]) * 10 + DigitValue(s[|s| - 1])
  }

  lemma {:induction false} DecimalRoundTrip(n: nat)
    ensures DecimalValue(DecimalString(n)) == n
  {
    if n >= 10 {
      DecimalRoundTrip(n / 10);
      var s := DecimalString(n);
      assert s[..|s| - 1] == DecimalString(n / 10);
    }
  }

  lemma {:induction false} DecimalStringLength(n: nat, k: nat)
    requires n < Pow10(k)
    ensures |DecimalString(n)| <= k || (k == 0 && |DecimalString(n)| == 1)
  {
    if n >= 10 {
      assert Pow10(0) == 1 && Pow10(1) == 10;
      DecimalStringLength(n / 10, k - 1);
    }
  }

  /** Left-pads s with '0' to at least width characters. */
  function ZeroPad(s: string, width: nat): (r: string)
    ensures |r| == if |s| >= width then |s| else width
    ensures r[|r| - |s|..] == s
    ensures forall i :: 0 <= i < |r| - |s| ==> r[i] == '0'
  {
    if |s| >= width then s else seq(width - |s|, _ => '0') + s
  }

  lemma {:induction false} LeadingZerosValue(z: nat, s: string)
    requires AllDigits(s)
    ensures AllDigits(seq(z, _ => '0') + s)
    ensures DecimalValue(seq(z, _ => '0') + s) == DecimalValue(s)
  {
    var t := seq(z, _ => '0') + s;
    assert AllDigits(t) by {
      forall i | 0 <= i < |t| ensures IsDigit(t[i]) {
        if i >= z { assert t[i] == s[i - z]; }
      }
    }
    if s == [] {
      if z > 0 {
        LeadingZerosValue(z - 1, []);
        assert t[..|t| - 1] == seq(z - 1, _ => '0') + [];
      }
    } else {
      LeadingZerosValue(z, s[..|s| - 1]);
      assert t[..|t| - 1] == seq(z, _ => '0') + s[..|s| - 1];
    }
  }

  /** Int32.ToString("D" + width): a leading '-' for negatives, then at least width digits. */
  function FormatD(value: int, width: nat): (s: string)
    ensures value >= 0 ==> AllDigits(s) && DecimalValue(s) == value
    ensures value >= 0 && value < Pow10(width) ==> |s| == width || (width == 0 && |s| == 1)
    ensures value < 0 ==> |s| >= width + 1 && s[0] == '-'
  {
    var digits := ZeroPad(DecimalString(if value < 0 then -value else value), width);
    if value >= 0 then
      PaddedDecimal(value, width);
      digits
    else
      "-" + digits
  }

  lemma PaddedDecimal(n: nat, width: nat)
    ensures AllDigits(ZeroPad(DecimalString(n), width))
    ensures DecimalValue(ZeroPad(DecimalString(n), width)) == n
    ensures n < Pow10(width) ==> |ZeroPad(DecimalString(n), width)| == width || (width == 0 && |DecimalString(n)| == 1)
  {
    var d := DecimalString(n);
    DecimalRoundTrip(n);
    if n < Pow10(width) {
      DecimalStringLength(n, width);
    }
    var z := ZeroPad(d, width);
    if |d| < width {
      LeadingZerosValue(width - |d|, d);
      assert z == seq(width - |d|, _ => '0') + d;
    } else {
      assert z == d;
    }
    assert AllDigits(z);
    assert DecimalValue(z) == n;
  }

  // ---------------------------------------------------------------------------
  // Ordinal string order

  /** Ordinal (code-unit by code-unit) lexicographic order on strings. */
  predicate StrLe(a: string, b: string) {
    a == [] || (b != [] && (a[0] < b[0] || (a[0] == b[0] && StrLe(a[1..], b[1..]))))
  }

  lemma {:induction false} StrLeTotal(a: string, b: string)
    ensures StrLe(a, b) || StrLe(b, a)
  {
    if a != [] && b != [] && a[0] == b[0] {
      StrLeTotal(a[1..], b[1..]);
    }
  }

  lemma {:induction false} StrLeTransitive(a: string, b: string, c: string)
    requires StrLe(a, b) && StrLe(b, c)
    ensures StrLe(a, c)
  {
    if a != [] && b != [] && c != [] && a[0] == b[0] && b[0] == c[0] {
      StrLeTransitive(a[1..], b[1..], c[1..]);
    }
  }

  lemma {:induction false} StrLeAntisymmetric(a: string, b: string)
    requires StrLe(a, b) && StrLe(b, a)
    ensures a == b
  {
    if a != [] && b != [] {
      StrLeAntisymmetric(a[1..], b[1..]);
      assert a == [a[0]] + a[1..] && b == [b[0]] + b[1..];
    }
  }

  // ---------------------------------------------------------------------------
  // Ordering (Enumerable.OrderBy with the ordinal comparer)

  ghost predicate SortedBy<T>(s: seq<T>, key: T -> string) {
    forall i, j :: 0 <= i < j < |s| ==> StrLe(key(s[i]), key(s[j]))
  }

  /** Inserts x before the first element whose key is not below x's key. */
  function InsertBy<T>(x: T, s: seq<T>, key: T -> string): (r: seq<T>)
    ensures multiset(r) == multiset(s) + multiset{x}
    ensures SortedBy(s, key) ==> SortedBy(r, key)
  {
    if s == [] then [x]
    else if StrLe(key(x), key(s[0])) then
      InsertBeforeSorted(x, s, key);
      [x] + s
    else
      var t := InsertBy(x, s[1..], key);
      assert s == [s[0]] + s[1..];
      InsertAfterHead(x, s, t, key);
      [s[0]] + t
  }

  lemma InsertBeforeSorted<T>(x: T, s: seq<T>, key: T -> string)
    requires s != [] && StrLe(key(x), key(s[0]))
    ensures SortedBy(s, key) ==> SortedBy([x] + s, key)
  {
    if SortedBy(s, key) {
      var r := [x] + s;
      forall i, j | 0 <= i < j < |r| ensures StrLe(key(r[i]), key(r[j])) {
        if i == 0 && j > 1 {
          StrLeTransitive(key(x), key(s[0]), key(s[j - 1]));
        }
      }
    }
  }

  lemma InsertAfterHead<T>(x: T, s: seq<T>, t: seq<T>, key: T -> string)
    requires s != [] && !StrLe(key(x), key(s[0]))
    requires multiset(t) == multiset(s[1..]) + multiset{x}
    requires SortedBy(s[1..], key) ==> SortedBy(t, key)
    ensures SortedBy(s, key) ==> SortedBy([s[0]] + t, key)
  {
    if SortedBy(s, key) {
      StrLeTotal(key(x), key(s[0]));
      var r := [s[0]] + t;
      forall j | 0 <= j < |t| ensures StrLe(key(s[0]), key(t[j])) {
        assert t[j] in multiset(t);
        if t[j] == x {
        } else {
          assert t[j] in multiset(s[1..]);
          var k :| 0 <= k < |s[1..]| && s[1..][k] == t[j];
          assert s[k + 1] == t[j];
        }
      }
      forall i, j | 0 <= i < j < |r| ensures StrLe(key(r[i]), key(r[j])) {
        if i > 0 {
          assert r[i] == t[i - 1] && r[j] == t[j - 1];
        }
      }
    }
  }

  /** An insertion sort of s by key: the model of OrderBy(key) with the ordinal comparer. */
  function SortBy<T>(s: seq<T>, key: T -> string): (r: seq<T>)
    ensures multiset(r) == multiset(s)
    ensures |r| == |s|
    ensures SortedBy(r, key)
  {
    if s == [] then []
    else
      assert s == [s[0]] + s[1..];
      var t := SortBy(s[1..], key);
      var r := InsertBy(s[0], t, key);
      assert |r| == |multiset(r)|;
      r
  }
}

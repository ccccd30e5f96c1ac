/** Small helpers shared by every game model. */
module Util {

  /** The conventional Some/None datatype, standing in for JavaScript's `null`/`undefined`. */
  datatype Option<T> = None | Some(value: T)

  /** Decimal digits of `n`, most significant first, as JavaScript's `Number.prototype.toString()` prints a non-negative integer. */
  function DecimalString(n: nat): (s: string)
    ensures |s| >= 1
    ensures forall i :: 0 <= i < |s| ==> '0' <= s[i] <= '9'
    ensures ParseDecimal(s) == n
    decreases n
  {
    if n < 10 then [DigitChar(n)]
    else
      var prefix := DecimalString(n / 10);
      ParsePrefixLemma(prefix, DigitChar(n % 10));
      prefix + [DigitChar(n % 10)]
  }

  function DigitChar(d: nat): (c: char)
    requires d < 10
    ensures '0' <= c <= '9'
    ensures c as int - '0' as int == d
  {
    (d + '0' as int) as char
  }

  /** Reads a string of decimal digits back into a number. */
  function ParseDecimal(s: string): nat
    requires forall i :: 0 <= i < |s| ==> '0' <= s[i] <= '9'
  {
    if |s| == 0 then 0
    else ParseDecimal(s[..|s| - 1]) * 10 + (s[|s| - 1] as int - '0' as int)
  }

  lemma ParsePrefixLemma(prefix: string, c: char)
    requires forall i :: 0 <= i < |prefix| ==> '0' <= prefix[i] <= '9'
    requires '0' <= c <= '9'
    ensures ParseDecimal(prefix + [c]) == ParseDecimal(prefix) * 10 + (c as int - '0' as int)
  {
    assert (prefix + [c])[..|prefix + [c]| - 1] == prefix;
  }

  /** A number in [10^(k-1), 10^k) prints with exactly k digits; here k = 5. */
  lemma FiveDigitLength(n: nat)
    requires 10000 <= n <= 99999
    ensures |DecimalString(n)| == 5
  {
    var a, b, c, d := n / 10, n / 100, n / 1000, n / 10000;
    assert a / 10 == b && b / 10 == c && c / 10 == d;
    assert |DecimalString(d)| == 1;
    assert |DecimalString(c)| == |DecimalString(d)| + 1;
    assert |DecimalString(b)| == |DecimalString(c)| + 1;
    assert |DecimalString(a)| == |DecimalString(b)| + 1;
    assert |DecimalString(n)| == |DecimalString(a)| + 1;
  }

  /** Removes the first occurrence of `x` from `s`; on a duplicate-free list this is deleting a key from an insertion-ordered JavaScript `Map`. */
  function RemoveValue<T(==)>(s: seq<T>, x: T): (r: seq<T>)
    ensures x !in s ==> r == s
    ensures forall y :: y in r ==> y in s
    ensures forall y :: y in s && y != x ==> y in r
    ensures |r| == if x in s then |s| - 1 else |s|
    ensures Distinct(s) ==> Distinct(r) && x !in r
  {
    if |s| == 0 then []
    else if s[0] == x then s[1..]
    else
      var rest := RemoveValue(s[1..], x);
      if Distinct(s) then
        assert s[0] !in s[1..] by {
          forall i | 1 <= i < |s| ensures s[i] != s[0] { }
        }
        DistinctCons(s[0], rest);
        [s[0]] + rest
      else [s[0]] + rest
  }

  lemma DistinctCons<T>(a: T, rest: seq<T>)
    requires Distinct(rest) && a !in rest
    ensures Distinct([a] + rest)
  {
    var t := [a] + rest;
    forall i, j | 0 <= i < j < |t| ensures t[i] != t[j] {
      if i == 0 {
        assert t[j] == rest[j - 1];
      } else {
        assert t[i] == rest[i - 1] && t[j] == rest[j - 1];
      }
    }
  }

  /** No element occurs twice. */
  predicate Distinct<T(==)>(s: seq<T>)
  {
    forall i, j :: 0 <= i < j < |s| ==> s[i] != s[j]
  }

  /** A subset is no larger than the set holding it. */
  lemma SubsetSize<T>(a: set<T>, b: set<T>)
    requires a <= b
    ensures |a| <= |b|
  {
    assert b == a + (b - a);
  }
}

/**
 * String and integer helpers from Go's standard library that the core relies on:
 * `strings.Contains`, the case-insensitive `ILIKE '%x%'` match, `strconv.Atoi`,
 * `strconv.Itoa` (and `%d`), and the `uint(...)` conversion of a 64-bit int.
 */
module Text {
  import opened Wrappers

  const MinInt64: int := -0x8000_0000_0000_0000
  const MaxInt64: int := 0x7FFF_FFFF_FFFF_FFFF
  const TwoTo64: int := 0x1_0000_0000_0000_0000

  /** Go's `int` on a 64-bit platform. */
  predicate InInt64(n: int) {
    MinInt64 <= n <= MaxInt64
  }

  // ---------------------------------------------------------------------------
  // Substrings

  /** `strings.Contains(s, k)`: `k` starts at some offset of `s`; "" occurs everywhere. */
  predicate Contains(s: string, k: string) {
    exists i :: 0 <= i <= |s| && k <= s[i..]
  }

  /** Text around an occurrence does not hide it. */
  lemma ContainsInfix(a: string, s: string, b: string, k: string)
    requires Contains(s, k)
    ensures Contains(a + s + b, k)
  {
    var i :| 0 <= i <= |s| && k <= s[i..];
    var t := a + s + b;
    assert t[|a| + i..] == s[i..] + b;
    assert k <= t[|a| + i..];
  }

  /** A string contains each of its parts. */
  lemma ContainsPart(a: string, k: string, b: string)
    ensures Contains(a + k + b, k)
  {
    assert (a + k + b)[|a|..] == k + b;
  }

  /** A string that lacks one of the characters of `k` cannot contain `k`. */
  lemma MissingCharNotContained(s: string, k: string, c: char)
    requires c in k && c !in s
    ensures !Contains(s, k)
  {
  }

  /**
   * A character `c` that occurs once in `a + [c] + b` pins where `k` could start: if
   * `k` has `c` at offset `m`, the only candidate offset is `|a| - m`.
   */
  lemma PinnedByUniqueChar(a: string, c: char, b: string, k: string, m: nat)
    requires c !in a && c !in b
    requires m < |k| && k[m] == c
    requires m > |a| || !(k <= (a + [c] + b)[|a| - m..])
    ensures !Contains(a + [c] + b, k)
  {
  }

  // ---------------------------------------------------------------------------
  // Case-insensitive pattern match

  /** ASCII lower-casing of one character. */
  function LowerChar(c: char): char {
    if 'A' <= c <= 'Z' then (c as int - 'A' as int + 'a' as int) as char else c
  }

  function Lower(s: string): (r: string)
    ensures |r| == |s|
  {
    seq(|s|, i requires 0 <= i < |s| => LowerChar(s[i]))
  }

  /** `value ILIKE '%needle%'`: `needle` occurs in `value`, ignoring letter case. */
  predicate ILike(value: string, needle: string) {
    Contains(Lower(value), Lower(needle))
  }

  /** Lower-casing twice is lower-casing once. */
  lemma LowerTwice(s: string)
    ensures Lower(Lower(s)) == Lower(s)
  {
    forall i | 0 <= i < |s| ensures Lower(Lower(s))[i] == Lower(s)[i] {
      assert Lower(s)[i] == LowerChar(s[i]);
    }
  }

  /** The search ignores the case of the needle, and the empty needle matches every value. */
  lemma ILikeCases(value: string, needle: string)
    ensures ILike(value, needle) <==> ILike(value, Lower(needle))
    ensures ILike(value, "")
  {
    LowerTwice(needle);
    assert [] <= Lower(value)[0..];
  }

  // ---------------------------------------------------------------------------
  // Decimal integers

  predicate IsDigit(c: char) {
    '0' <= c <= '9'
  }

  predicate AllDigits(s: string) {
    forall i :: 0 <= i < |s| ==> IsDigit(s[i])
  }

  /** The value of a string of decimal digits, most significant first. */
  function DigitsValue(ds: string): nat
    requires AllDigits(ds)
    decreases |ds|
  {
    if |ds| == 0 then 0
    else DigitsValue(ds[..|ds| - 1]) * 10 + (ds[|ds| - 1] as int - '0' as int)
  }

  /**
   * `strconv.Atoi`: an optional `+` or `-`, then at least one decimal digit and
   * nothing else, denoting a value that fits in a 64-bit int; anything else is an error.
   */
  function Atoi(s: string): (r: Option<int>)
    ensures r.Some? ==> InInt64(r.value)
    ensures r.Some? ==> |s| > 0 && (IsDigit(s[0]) || s[0] == '+' || s[0] == '-')
    ensures r.Some? ==> forall i :: 0 < i < |s| ==> IsDigit(s[i])
    ensures r.Some? && r.value < 0 ==> s[0] == '-'
  {
    if |s| == 0 then None
    else
      var digits := if s[0] == '-' || s[0] == '+' then s[1..] else s;
      if |digits| == 0 || !AllDigits(digits) then None
      else
        var v: int := if s[0] == '-' then -(DigitsValue(digits) as int) else DigitsValue(digits);
        if InInt64(v) then Some(v) else None
  }

  function Digit(d: nat): (c: char)
    requires d < 10
    ensures IsDigit(c) && c as int - '0' as int == d
  {
    ('0' as int + d) as char
  }

  /** The shortest decimal rendering of a natural number. */
  function NatDigits(n: nat): (r: string)
    ensures |r| > 0 && AllDigits(r)
    ensures DigitsValue(r) == n
    decreases n
  {
    if n < 10 then [Digit(n)]
    else
      var front := NatDigits(n / 10);
      var r := front + [Digit(n % 10)];
      assert r[..|r| - 1] == front;
      r
  }

  /** `strconv.Itoa` and the `%d` verb: a `-` for negative values, then the digits. */
  function Itoa(n: int): (r: string)
    ensures |r| > 0
    ensures forall i :: 0 <= i < |r| ==> IsDigit(r[i]) || (i == 0 && r[i] == '-')
  {
    if n < 0 then "-" + NatDigits(-n) else NatDigits(n)
  }

  /** Atoi reads back every 64-bit int that Itoa writes. */
  lemma AtoiItoa(n: int)
    requires InInt64(n)
    ensures Atoi(Itoa(n)) == Some(n)
  {
    var s := Itoa(n);
    if n < 0 {
      assert s[1..] == NatDigits(-n);
    } else {
      assert IsDigit(s[0]);
    }
  }

  // ---------------------------------------------------------------------------
  // Go's uint(...) conversion of a 64-bit int

  /** `uint(n)`: the two's-complement bit pattern of `n`, read as unsigned. */
  function ToUint(n: int): (u: nat)
    requires InInt64(n)
    ensures u < TwoTo64
    ensures n >= 0 ==> u == n
    ensures n < 0 ==> u == n + TwoTo64
  {
    n % TwoTo64
  }

  /** `int(u)`: the reverse reinterpretation of a 64-bit unsigned value. */
  function ToInt(u: nat): (n: int)
    requires u < TwoTo64
    ensures InInt64(n)
  {
    if u > MaxInt64 then u - TwoTo64 else u
  }

  /** Go's 64-bit signed arithmetic: the result of an int operation, wrapped into int64. */
  function Wrap64(n: int): (r: int)
    ensures InInt64(r)
    ensures (r - n) % TwoTo64 == 0
    ensures InInt64(n) ==> r == n
  {
    (n - MinInt64) % TwoTo64 + MinInt64
  }

  /** The conversion loses no information: converting back gives the original int. */
  lemma UintRoundTrip(n: int)
    requires InInt64(n)
    ensures ToInt(ToUint(n)) == n
  {
  }

  // ---------------------------------------------------------------------------
  // Splitting at a separator

  /** The text before the first occurrence of character `c` (all of `s` if there is none). */
  function Before(s: string, c: char): (r: string)
    ensures r <= s
    ensures c !in r
    decreases |s|
  {
    if |s| == 0 || s[0] == c then "" else [s[0]] + Before(s[1..], c)
  }

  /** Cutting at the first `c` recovers a prefix that has no `c` in it. */
  lemma {:induction false} BeforeOfConcat(a: string, b: string, c: char)
    requires c !in a
    requires |b| > 0 && b[0] == c
    ensures Before(a + b, c) == a
    decreases |a|
  {
    if |a| == 0 {
      assert a + b == b;
    } else {
      assert (a + b)[1..] == a[1..] + b;
      BeforeOfConcat(a[1..], b, c);
      assert [a[0]] + a[1..] == a;
    }
  }
}

/** Unsigned 64-bit decimal numbers: the digit loop of a base-10, 64-bit parse, the
    printer, and the proof that they are inverse to each other. */
module Decimal {

  import opened Basics

  const MAX_UINT64: nat := TWO_64 - 1

  predicate IsDigit(c: char) { '0' <= c <= '9' }

  predicate AllDigits(s: string) { forall i :: 0 <= i < |s| ==> IsDigit(s[i]) }

  function DigitValue(c: char): nat
    requires IsDigit(c)
  {
    (c as int) - ('0' as int)
  }

  /** The ten digits in order. */
  lemma DigitsInOrder(c: char)
    requires IsDigit(c)
    ensures DigitValue(c) < 10 && "0123456789"[DigitValue(c)] == c
  {
    assert c in "0123456789";
  }

  function DigitChar(d: nat): (c: char)
    requires d < 10
    ensures IsDigit(c) && DigitValue(c) == d
  {
    (d + '0' as int) as char
  }

  /** The number a digit string denotes, without any bound. */
  function Value(s: string): nat
    requires AllDigits(s)
  {
    if |s| == 0 then 0 else 10 * Value(s[..|s| - 1]) + DigitValue(s[|s| - 1])
  }

  /** Reference meaning of a successful parse. */
  predicate Denotes(s: string, n: nat) {
    s != "" && AllDigits(s) && Value(s) == n
  }

  lemma {:induction false} LongerIsLarger(s: string, k: nat)
    requires AllDigits(s) && k <= |s|
    ensures AllDigits(s[..k]) && Value(s[..k]) <= Value(s)
  {
    if k == |s| {
      assert s[..k] == s;
    } else {
      LongerIsLarger(s[..|s| - 1], k);
      assert s[..|s| - 1][..k] == s[..k];
    }
  }

  /** Sums wrap at most once. */
  function Wrapped(x: nat): (r: uint64)
    requires x < 2 * TWO_64
    ensures r == if x < TWO_64 then x else x - TWO_64
  {
    x % TWO_64
  }

  /** The parse loop.  Arithmetic wraps at 2^64, as the machine's does; the two
      overflow tests are what makes the result exact. */
  method ParseUint(s: string) returns (r: Option<uint64>)
    ensures r.Some? <==> s != "" && AllDigits(s) && Value(s) < 0x1_0000_0000_0000_0000
    ensures r.Some? ==> Denotes(s, r.value)
  {
    if s == "" {
      return None;
    }
    var cutoff := MAX_UINT64 / 10 + 1;
    var n: uint64 := 0;
    for i := 0 to |s|
      invariant AllDigits(s[..i]) && n == Value(s[..i])
    {
      var c := s[i];
      if !IsDigit(c) {
        return None;
      }
      var d := DigitValue(c);
      assert s[..i + 1][..i] == s[..i];
      assert Value(s[..i + 1]) == 10 * n + d;
      if n >= cutoff {
        if AllDigits(s) { LongerIsLarger(s, i + 1); }
        return None;
      }
      n := Wrapped(n * 10);
      var n1 := Wrapped(n + d);
      if n1 < n || n1 > MAX_UINT64 {
        if AllDigits(s) { LongerIsLarger(s, i + 1); }
        return None;
      }
      n := n1;
    }
    assert s[..|s|] == s;
    r := Some(n);
  }

  /** ParseUint as a function of its input. */
  function Parsed(s: string): (r: Option<uint64>)
  {
    if s != "" && AllDigits(s) && Value(s) < TWO_64 then Some(Value(s)) else None
  }

  function Print(n: nat): string {
    if n < 10 then [DigitChar(n)] else Print(n / 10) + [DigitChar(n % 10)]
  }

  /** Printing and parsing back is the identity on every number. */
  lemma {:induction false} PrintParses(n: nat)
    ensures Denotes(Print(n), n)
    ensures n < TWO_64 ==> Parsed(Print(n)) == Some(n)
  {
    var s := Print(n);
    if n >= 10 {
      PrintParses(n / 10);
      assert s[..|s| - 1] == Print(n / 10);
    } else {
      assert s[..0] == "";
      assert Value(s[..0]) == 0;
    }
  }

  /** Parsing and printing back only strips leading zeros. */
  lemma {:induction false} ParsePrints(s: string)
    requires s != "" && AllDigits(s) && (s[0] != '0' || |s| == 1)
    ensures Print(Value(s)) == s
    ensures |s| > 1 ==> Value(s) >= 10
  {
    var n := |s| - 1;
    if n == 0 {
      assert s[..0] == "" && Value(s[..0]) == 0;
      assert s == [DigitChar(Value(s))];
    } else {
      ParsePrints(s[..n]);
      if n == 1 {
        assert s[..1][..0] == "" && Value(s[..1][..0]) == 0;
        assert Value(s[..1]) == DigitValue(s[0]);
      }
      assert Value(s) / 10 == Value(s[..n]) && Value(s) % 10 == DigitValue(s[n]);
      assert s == s[..n] + [DigitChar(DigitValue(s[n]))];
    }
  }

  lemma PrintInjective(m: nat, n: nat)
    requires Print(m) == Print(n)
    ensures m == n
  {
    PrintParses(m);
    PrintParses(n);
  }
}

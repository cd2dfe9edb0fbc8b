/**
 * Decimal text of unsigned integers: the rendering `format!("{}", n)` gives
 * a `usize` in src/main.rs, and the reader that takes such text back.
 */
module Decimal {

  import opened Wrappers

  predicate IsDigit(c: char) {
    '0' <= c <= '9'
  }

  predicate AllDigits(s: string) {
    forall i :: 0 <= i < |s| ==> IsDigit(s[i])
  }

  function DigitValue(c: char): (d: nat)
    requires IsDigit(c)
    ensures d < 10
  {
    c as int - '0' as int
  }

  function DigitChar(d: nat): (c: char)
    requires d < 10
    ensures IsDigit(c) && DigitValue(c) == d
  {
    ('0' as int + d) as char
  }

  /**
   * The decimal rendering of n: only digits, never empty, and with no
   * leading zero unless n is zero itself.
   */
  function Format(n: nat): (s: string)
    ensures |s| >= 1 && AllDigits(s)
    ensures s[0] == '0' ==> n == 0
    decreases n
  {
    if n < 10 then [DigitChar(n)] else Format(n / 10) + [DigitChar(n % 10)]
  }

  /** The number a string of digits denotes, most significant digit first. */
  function Value(s: string): nat
    requires AllDigits(s)
  {
    if s == [] then 0 else Value(s[..|s| - 1]) * 10 + DigitValue(s[|s| - 1])
  }

  /** Reading back what Format writes gives the number that was written. */
  lemma {:induction false} ValueOfFormat(n: nat)
    ensures Value(Format(n)) == n
    decreases n
  {
    if n >= 10 {
      var s := Format(n);
      assert s[..|s| - 1] == Format(n / 10);
      ValueOfFormat(n / 10);
    }
  }

  /** Distinct numbers are rendered as distinct texts. */
  lemma FormatInjective(m: nat, n: nat)
    requires m != n
    ensures Format(m) != Format(n)
  {
    ValueOfFormat(m);
    ValueOfFormat(n);
  }

  /** A digit string that starts with a non-zero digit denotes a positive number. */
  lemma {:induction false} ValuePositive(s: string)
    requires |s| >= 1 && AllDigits(s) && s[0] != '0'
    ensures Value(s) >= 1
    decreases |s|
  {
    if |s| > 1 {
      ValuePositive(s[..|s| - 1]);
    }
  }

  /**
   * Conversely, every canonical digit string (no leading zero except "0"
   * itself) is exactly the rendering of the number it denotes.
   */
  lemma {:induction false} FormatOfValue(s: string)
    requires |s| >= 1 && AllDigits(s)
    requires s[0] == '0' ==> |s| == 1
    ensures Format(Value(s)) == s
    decreases |s|
  {
    var n := Value(s);
    if |s| == 1 {
      assert s[..0] == [];
    } else {
      var p := s[..|s| - 1];
      ValuePositive(p);
      FormatOfValue(p);
      assert n / 10 == Value(p) && n % 10 == DigitValue(s[|s| - 1]);
      assert s == p + [s[|s| - 1]];
    }
  }

  /** The length of the run of digits that s starts with. */
  function DigitRun(s: string): (k: nat)
    ensures k <= |s| && AllDigits(s[..k])
    ensures k < |s| ==> !IsDigit(s[k])
    decreases |s|
  {
    if s != [] && IsDigit(s[0]) then 1 + DigitRun(s[1..]) else 0
  }

  /**
   * Reads one field: a non-empty run of digits immediately followed by the
   * separator sep. Gives the number and the text after the separator.
   */
  function ReadField(s: string, sep: char): (r: Option<(nat, string)>)
    ensures r.Some? ==> |r.value.1| < |s|
  {
    var k := DigitRun(s);
    if 0 < k < |s| && s[k] == sep then Some((Value(s[..k]), s[k + 1..])) else None
  }

  lemma {:induction false} DigitRunOfDigitsThen(ds: string, t: string)
    requires AllDigits(ds)
    requires t == [] || !IsDigit(t[0])
    ensures DigitRun(ds + t) == |ds|
    decreases |ds|
  {
    if ds != [] {
      assert (ds + t)[1..] == ds[1..] + t;
      DigitRunOfDigitsThen(ds[1..], t);
    }
  }

  /** A field written as Format(n) then sep reads back as n and the rest. */
  lemma ReadFieldOfFormat(n: nat, sep: char, rest: string)
    requires !IsDigit(sep)
    ensures ReadField(Format(n) + [sep] + rest, sep) == Some((n, rest))
  {
    var ds := Format(n);
    var s := ds + [sep] + rest;
    assert s == ds + ([sep] + rest);
    DigitRunOfDigitsThen(ds, [sep] + rest);
    assert s[..|ds|] == ds;
    assert s[|ds| + 1..] == rest;
    ValueOfFormat(n);
  }
}

/** String helpers standing in for the Rust standard library calls the glob
    matcher relies on: `str::split`, `str::ends_with`, ASCII case folding
    (for `UniCase` and `str::to_lowercase`) and `i32::from_str`. */
module Text {

  datatype Option<T> = None | Some(value: T)

  /** Rust's `i32`. */
  type Int32 = x: int | -0x8000_0000 <= x < 0x8000_0000

  // ---------------------------------------------------------------------
  // Splitting on a separator (`str::split(':')`)
  // ---------------------------------------------------------------------

  /** Glues fields back together with `sep` between neighbours. */
  function Join(fields: seq<string>, sep: char): string
  {
    if |fields| == 0 then []
    else if |fields| == 1 then fields[0]
    else fields[0] + [sep] + Join(fields[1..], sep)
  }

  /** The fields of `s` between occurrences of `sep`, as `str::split`
      yields them: the empty string gives one empty field and a trailing
      separator gives a trailing empty field. */
  function Split(s: string, sep: char): (r: seq<string>)
    ensures |r| >= 1
    ensures |r| == 1 <==> sep !in s
    ensures forall k :: 0 <= k < |r| ==> sep !in r[k]
    ensures Join(r, sep) == s
  {
    if s == [] then [[]]
    else
      var rest := Split(s[1..], sep);
      if s[0] == sep then
        assert s == [sep] + s[1..];
        [[]] + rest
      else
        var r := [[s[0]] + rest[0]] + rest[1..];
        assert |rest| > 1 ==> Join(rest, sep) == rest[0] + [sep] + Join(rest[1..], sep);
        assert |rest| > 1 ==> r[1..] == rest[1..];
        assert s == [s[0]] + s[1..];
        r
  }

  /** A field without the separator, followed by the separator, is split
      off as the first field. */
  lemma {:induction false} SplitFirst(a: string, sep: char, rest: string)
    requires sep !in a
    ensures Split(a + [sep] + rest, sep) == [a] + Split(rest, sep)
  {
    var s := a + [sep] + rest;
    if a == [] {
      assert s[0] == sep && s[1..] == rest;
    } else {
      assert s[0] == a[0] && s[1..] == a[1..] + [sep] + rest;
      SplitFirst(a[1..], sep, rest);
      assert [a[0]] + a[1..] == a;
    }
  }

  /** A string without the separator is a single field. */
  lemma SplitWhole(a: string, sep: char)
    requires sep !in a
    ensures Split(a, sep) == [a]
  {
    var r := Split(a, sep);
    assert |r| == 1;
    assert Join(r, sep) == r[0];
  }

  // ---------------------------------------------------------------------
  // Suffixes and case folding
  // ---------------------------------------------------------------------

  /** `str::ends_with`. */
  predicate EndsWith(s: string, suffix: string)
  {
    |suffix| <= |s| && s[|s| - |suffix|..] == suffix
  }

  predicate IsAsciiUpper(c: char)
  {
    'A' <= c <= 'Z'
  }

  /** ASCII lower-casing of one character. */
  function AsciiLower(c: char): (r: char)
    ensures !IsAsciiUpper(r)
    ensures IsAsciiUpper(c) ==> r as int == c as int + 32
    ensures !IsAsciiUpper(c) ==> r == c
  {
    if IsAsciiUpper(c) then (c as int + 32) as char else c
  }

  /** `str::to_lowercase`, restricted to ASCII letters. */
  function LowerStr(s: string): (r: string)
    ensures |r| == |s|
    ensures forall k :: 0 <= k < |s| ==> r[k] == AsciiLower(s[k])
  {
    seq(|s|, k requires 0 <= k < |s| => AsciiLower(s[k]))
  }

  /** `UniCase` equality: the two strings agree once case is folded. */
  predicate FoldEq(a: string, b: string)
  {
    LowerStr(a) == LowerStr(b)
  }

  /** Every string is case-insensitively equal to itself and to its
      lower-cased form (lower-casing is idempotent). */
  lemma FoldEqLower(a: string)
    ensures FoldEq(a, a)
    ensures FoldEq(a, LowerStr(a))
  {
    var l := LowerStr(a);
    assert LowerStr(l) == l by {
      forall k | 0 <= k < |l| ensures LowerStr(l)[k] == l[k] {
        assert !IsAsciiUpper(l[k]);
      }
    }
  }

  // ---------------------------------------------------------------------
  // Decimal integers (`i32::from_str` and its inverse)
  // ---------------------------------------------------------------------

  predicate IsDigit(c: char)
  {
    '0' <= c <= '9'
  }

  predicate AllDigits(s: string)
  {
    forall k :: 0 <= k < |s| ==> IsDigit(s[k])
  }

  /** The value of a string of decimal digits, most significant first. */
  function DecimalValue(ds: string): nat
    requires AllDigits(ds)
  {
    if ds == [] then 0
    else DecimalValue(ds[..|ds| - 1]) * 10 + (ds[|ds| - 1] as int - '0' as int)
  }

  /** The shortest decimal spelling of `n`. */
  function NatToDecimal(n: nat): (r: string)
    ensures |r| >= 1 && AllDigits(r)
    ensures DecimalValue(r) == n
    ensures |r| > 1 ==> r[0] != '0'
  {
    var d := ['0' + (n % 10) as char];
    if n < 10 then d
    else
      var r := NatToDecimal(n / 10) + d;
      assert r[..|r| - 1] == NatToDecimal(n / 10);
      r
  }

  /** `s.parse::<i32>()`: an optional `+` or `-`, then one or more decimal
      digits whose signed value fits in 32 bits; None otherwise. */
  function ParseI32(s: string): (r: Option<Int32>)
    ensures r.Some? ==> |s| >= 1
    ensures r.Some? && r.value < 0 ==> s[0] == '-'
    ensures r.Some? && s[0] != '-' && s[0] != '+' ==> AllDigits(s) && r.value == DecimalValue(s)
  {
    if s == [] then None
    else
      var negative := s[0] == '-';
      var digits := if s[0] == '-' || s[0] == '+' then s[1..] else s;
      if digits == [] || !AllDigits(digits) then None
      else
        var magnitude: int := DecimalValue(digits);
        var v := if negative then -magnitude else magnitude;
        if -0x8000_0000 <= v < 0x8000_0000 then Some(v) else None
  }

  /** `i32::from_str` also accepts a `+` sign, leading zeros and `-0`, and
      rejects a bare sign. */
  lemma ParseI32Examples()
    ensures ParseI32("80") == Some(80)
    ensures ParseI32("+80") == Some(80)
    ensures ParseI32("080") == Some(80)
    ensures ParseI32("-0") == Some(0)
    ensures ParseI32("+") == None && ParseI32("-") == None
  {
    assert DecimalValue("8") == 8;
    assert DecimalValue("80") == 80 by { assert "80"[..1] == "8"; }
    assert DecimalValue("08") == 8 by { assert "08"[..1] == "0"; }
    assert DecimalValue("080") == 80 by { assert "080"[..2] == "08"; }
    assert "+80"[1..] == "80";
    assert "-0"[1..] == "0";
  }

  /** Printing a non-negative `i32` in decimal and parsing it back gives
      the same number. */
  lemma ParsePrintedI32(n: nat)
    requires n < 0x8000_0000
    ensures ParseI32(NatToDecimal(n)) == Some(n)
  {
    var s := NatToDecimal(n);
    assert IsDigit(s[0]);
  }
}

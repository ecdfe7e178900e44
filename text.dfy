/**
 * The few string operations of Python the report relies on: `str(n)` of a
 * natural number and its last two characters, `str.split(' ')`, the
 * substring test `t in s`, `str.strip(c)` and `float(s)` for plain decimals.
 */
module Text {
  import opened Wrappers
  import opened Frames

  predicate IsDigit(c: char) {
    '0' <= c <= '9'
  }

  predicate AllDigits(s: string) {
    forall i :: 0 <= i < |s| ==> IsDigit(s[i])
  }

  function DigitChar(n: int): (c: char)
    requires 0 <= n <= 9
    ensures IsDigit(c)
  {
    ('0' as int + n) as char
  }

  function DigitValue(c: char): (n: nat)
    requires IsDigit(c)
    ensures n <= 9 && DigitChar(n) == c
  {
    c as int - '0' as int
  }

  /** `str(n)` for a natural number: its decimal digits, no leading zero. */
  function DecimalString(n: nat): (s: string)
    ensures |s| >= 1 && AllDigits(s)
  {
    if n < 10 then [DigitChar(n)] else DecimalString(n / 10) + [DigitChar(n % 10)]
  }

  lemma DecimalStringLastDigit(n: nat)
    ensures var s := DecimalString(n); s[|s| - 1] == DigitChar(n % 10)
  {
  }

  /** The value of a string of decimal digits (the empty string reads as 0). */
  function DigitsValue(s: string): nat
    requires AllDigits(s)
  {
    if s == [] then 0 else DigitsValue(s[..|s| - 1]) * 10 + DigitValue(s[|s| - 1])
  }

  /** Reading back `str(n)` gives n. */
  lemma {:induction false} DecimalStringRoundTrip(n: nat)
    ensures DigitsValue(DecimalString(n)) == n
    decreases n
  {
    var s := DecimalString(n);
    if n >= 10 {
      DecimalStringRoundTrip(n / 10);
      assert s[..|s| - 1] == DecimalString(n / 10);
    } else {
      assert s[..|s| - 1] == [];
    }
  }

  /** Python's `s[-2:]`: the last two characters, or all of a shorter string. */
  function LastTwo(s: string): string {
    if |s| <= 2 then s else s[|s| - 2..]
  }

  /** A number below 100 written with exactly two digits. */
  function Pad2(k: nat): (s: string)
    requires k < 100
    ensures |s| == 2 && AllDigits(s)
  {
    [DigitChar(k / 10), DigitChar(k % 10)]
  }

  /** For n >= 10, the last two characters of `str(n)` are n % 100 zero-padded. */
  lemma LastTwoDigits(n: nat)
    requires n >= 10
    ensures LastTwo(DecimalString(n)) == Pad2(n % 100)
  {
    var s := DecimalString(n);
    var head := DecimalString(n / 10);
    assert s == head + [DigitChar(n % 10)];
    assert s[|s| - 2] == head[|head| - 1];
    DecimalStringLastDigit(n / 10);
    LowDigits(n);
  }

  /** Dividing by ten: the quotient and remainder are the only such pair. */
  lemma DivMod10(n: int, q: int, r: int)
    requires n == 10 * q + r && 0 <= r < 10
    ensures n / 10 == q && n % 10 == r
  {
  }

  /** Dividing by a hundred: the quotient and remainder are the only such pair. */
  lemma DivMod100(n: int, q: int, r: int)
    requires n == 100 * q + r && 0 <= r < 100
    ensures n / 100 == q && n % 100 == r
  {
  }

  /** The tens and units digits of n are those of n % 100. */
  lemma LowDigits(n: nat)
    ensures (n % 100) / 10 == (n / 10) % 10 && (n % 100) % 10 == n % 10
  {
    var b, m := n % 10, n / 10;
    var a, q := m % 10, m / 10;
    DivMod100(n, q, 10 * a + b);
    DivMod10(10 * a + b, a, b);
  }

  // ----- str.split(sep) -----

  /** `s.split(sep)` with an explicit one-character separator: empty tokens are kept. */
  function Split(s: string, sep: char): (r: seq<string>)
    ensures |r| >= 1
    ensures forall k :: 0 <= k < |r| ==> sep !in r[k]
  {
    if s == [] then [""]
    else
      var rest := Split(s[1..], sep);
      if s[0] == sep then [""] + rest
      else [[s[0]] + rest[0]] + rest[1..]
  }

  /** `sep.join(tokens)`. */
  function Join(tokens: seq<string>, sep: char): string
    requires |tokens| >= 1
  {
    if |tokens| == 1 then tokens[0] else tokens[0] + [sep] + Join(tokens[1..], sep)
  }

  /** Joining the tokens of a split gives the text back. */
  lemma {:induction false} JoinSplit(s: string, sep: char)
    ensures Join(Split(s, sep), sep) == s
  {
    if s != [] {
      var rest := Split(s[1..], sep);
      JoinSplit(s[1..], sep);
      if s[0] == sep {
        assert Split(s, sep)[1..] == rest;
      } else {
        var r := Split(s, sep);
        assert r[1..] == rest[1..];
        if |rest| == 1 {
          assert r == [[s[0]] + rest[0]];
        } else {
          assert Join(rest, sep) == rest[0] + [sep] + Join(rest[1..], sep);
        }
      }
    }
  }

  lemma {:induction false} SplitNoSeparator(a: string, sep: char)
    requires sep !in a
    ensures Split(a, sep) == [a]
  {
    if a != [] {
      assert a[0] != sep;
      SplitNoSeparator(a[1..], sep);
      assert [a[0]] + a[1..] == a;
    }
  }

  /** A separator-free token followed by the separator splits off as the first token. */
  lemma {:induction false} SplitFirstToken(a: string, sep: char, rest: string)
    requires sep !in a
    ensures Split(a + [sep] + rest, sep) == [a] + Split(rest, sep)
  {
    var s := a + [sep] + rest;
    if a == [] {
      assert s[1..] == rest;
    } else {
      assert a[0] != sep;
      assert s[1..] == a[1..] + [sep] + rest;
      SplitFirstToken(a[1..], sep, rest);
      assert [a[0]] + a[1..] == a;
    }
  }

  /** Splitting a join of separator-free tokens gives the tokens back. */
  lemma {:induction false} SplitJoin(tokens: seq<string>, sep: char)
    requires |tokens| >= 1
    requires forall k :: 0 <= k < |tokens| ==> sep !in tokens[k]
    ensures Split(Join(tokens, sep), sep) == tokens
  {
    if |tokens| == 1 {
      SplitNoSeparator(tokens[0], sep);
    } else {
      SplitJoin(tokens[1..], sep);
      SplitFirstToken(tokens[0], sep, Join(tokens[1..], sep));
      assert [tokens[0]] + tokens[1..] == tokens;
    }
  }

  // ----- substring test -----

  /** Python's `t in s` on strings. */
  predicate Contains(s: string, t: string) {
    exists i :: 0 <= i <= |s| && OccursAt(s, t, i)
  }

  predicate OccursAt(s: string, t: string, i: int) {
    0 <= i && i + |t| <= |s| && s[i..i + |t|] == t
  }

  // ----- str.strip(c) -----

  /** `s.lstrip(c)`. */
  function StripLeft(s: string, c: char): (r: string)
    ensures |r| <= |s| && r == s[|s| - |r|..]
    ensures forall i :: 0 <= i < |s| - |r| ==> s[i] == c
    ensures r != [] ==> r[0] != c
  {
    if s != [] && s[0] == c then StripLeft(s[1..], c) else s
  }

  /** `s.rstrip(c)`. */
  function StripRight(s: string, c: char): (r: string)
    ensures |r| <= |s| && r == s[..|r|]
    ensures forall i :: |r| <= i < |s| ==> s[i] == c
    ensures r != [] ==> r[|r| - 1] != c
  {
    if s != [] && s[|s| - 1] == c then StripRight(s[..|s| - 1], c) else s
  }

  /** `s.strip(c)`: every leading and trailing c removed, the middle kept. */
  function Strip(s: string, c: char): (r: string)
    ensures |r| <= |s|
    ensures r != [] ==> r[0] != c && r[|r| - 1] != c
  {
    StripRight(StripLeft(s, c), c)
  }

  lemma {:induction false} StripWithout(s: string, c: char)
    requires c !in s
    ensures Strip(s, c) == s
  {
    if s != [] {
      assert s[0] in s && s[|s| - 1] in s;
    }
  }

  /** Stripping c from a text that only ends with one c removes that c. */
  lemma StripTrailing(w: string, c: char)
    requires c !in w
    ensures Strip(w + [c], c) == w
  {
    var s := w + [c];
    if w == [] {
      assert StripLeft(s, c) == StripLeft([], c);
    } else {
      assert s[0] == w[0] && w[0] in w;
      assert StripLeft(s, c) == s;
      assert s[..|s| - 1] == w;
      assert w[|w| - 1] in w;
    }
  }

  // ----- float(s) for plain decimals -----

  function Pow10(n: nat): (p: nat)
    ensures p >= 1
  {
    if n == 0 then 1 else 10 * Pow10(n - 1)
  }

  /** An unsigned decimal: digits, optionally a point and more digits, at least one digit. */
  function ParseUnsigned(s: string): (r: Option<real>)
    ensures r.Some? ==> r.value >= 0.0
  {
    if '.' !in s then
      if s != [] && AllDigits(s) then Some(DigitsValue(s) as real) else None
    else
      var k := FirstIndex(s, '.');
      var whole, frac := s[..k], s[k + 1..];
      if AllDigits(whole) && AllDigits(frac) && |whole| + |frac| > 0 then Some(PointedValue(whole, frac))
      else None
  }

  /** The value of "whole.frac": the whole part plus the fraction scaled by its length. */
  function PointedValue(whole: string, frac: string): (x: real)
    requires AllDigits(whole) && AllDigits(frac)
    ensures x >= 0.0
  {
    DigitsValue(whole) as real + DigitsValue(frac) as real / Pow10(|frac|) as real
  }

  /** `float(s)` gives NaN: "nan" in any letter case, optionally signed. */
  predicate IsNanText(s: string) {
    var t := if s != [] && (s[0] == '+' || s[0] == '-') then s[1..] else s;
    |t| == 3 && (t[0] == 'n' || t[0] == 'N') && (t[1] == 'a' || t[1] == 'A') && (t[2] == 'n' || t[2] == 'N')
  }

  /** A NaN text is not a plain decimal. */
  lemma NanTextIsNotDecimal(s: string)
    requires IsNanText(s)
    ensures ParseDecimal(s).None?
  {
    var t := if s != [] && (s[0] == '+' || s[0] == '-') then s[1..] else s;
    assert !IsDigit(t[0]) && '.' !in t;
  }

  /** `float(s)` for an optionally signed plain decimal; None where Python raises. */
  function ParseDecimal(s: string): (r: Option<real>)
    ensures r.Some? ==> s != []
    ensures r.Some? ==> (s[0] == '-' ==> r.value <= 0.0) && (s[0] != '-' ==> r.value >= 0.0)
  {
    if s != [] && (s[0] == '-' || s[0] == '+') then
      match ParseUnsigned(s[1..])
      case None => None
      case Some(x) => Some(if s[0] == '-' then -x else x)
    else ParseUnsigned(s)
  }

  /** Digits, a point, digits read as the value of the two digit runs. */
  lemma ParsePointed(whole: string, frac: string)
    requires AllDigits(whole) && AllDigits(frac) && |whole| + |frac| > 0
    ensures ParseUnsigned(whole + "." + frac) == Some(PointedValue(whole, frac))
  {
    var s := whole + "." + frac;
    assert s[|whole|] == '.';
    assert '.' !in whole by {
      forall i | 0 <= i < |whole| ensures whole[i] != '.' { assert IsDigit(whole[i]); }
    }
    var k := FirstIndex(s, '.');
    assert k == |whole| by {
      FirstIndexAfter(whole, '.', "." + frac);
    }
    assert s[..k] == whole && s[k + 1..] == frac;
  }

  /** A number written with one decimal, as `'{:.1f}'` writes a non-negative value, reads back exactly. */
  lemma OneDecimalRoundTrip(n: nat, d: nat)
    requires d <= 9
    ensures ParseDecimal(DecimalString(n) + "." + [DigitChar(d)])
            == Some(n as real + d as real / 10.0)
  {
    var w, f := DecimalString(n), [DigitChar(d)];
    assert IsDigit(w[0]);
    assert ParseDecimal(w + "." + f) == ParseUnsigned(w + "." + f);
    ParsePointed(w, f);
    DecimalStringRoundTrip(n);
    assert DigitsValue(f) == d by {
      assert f[..0] == [];
    }
    assert Pow10(|f|) == 10;
  }

}

/**
 * The parts of the Java standard library that the short-code generator and the
 * URL validator rely on, with Java's exact semantics: 32-bit wrap-around in
 * `String.hashCode` and `Math.abs`, unsigned lower-case `Integer.toHexString`,
 * `String.length` counted in UTF-16 code units, and `String.trim`.
 */
module JavaLang {

  const TwoTo31: int := 0x8000_0000
  const TwoTo32: int := 0x1_0000_0000

  /** A Java `int`. */
  type Int32 = x: int | -0x8000_0000 <= x < 0x8000_0000

  const MinInt32: Int32 := -0x8000_0000

  /** Reinterprets a 32-bit pattern (an unsigned value) as a Java `int`. */
  function ToInt32(bits: nat): (r: Int32)
    requires bits < TwoTo32
    ensures r == bits || r == bits - TwoTo32
  {
    if bits < TwoTo31 then bits else bits - TwoTo32
  }

  /** The 32-bit pattern of a Java `int`, read as unsigned. */
  function Unsigned(x: Int32): (r: nat)
    ensures r < TwoTo32 && ToInt32(r) == x
  {
    if x < 0 then x + TwoTo32 else x
  }

  /** Java `int` arithmetic: the result of an operation, wrapped into 32 bits. */
  function Wrap(n: int): (r: Int32)
    ensures (r - n) % TwoTo32 == 0
  {
    ToInt32(n % TwoTo32)
  }

  /** `Math.abs(int)`: `(a < 0) ? -a : a` with a wrapping negation. */
  function MathAbs(x: Int32): Int32
  {
    if x < 0 then Wrap(-(x as int)) else x
  }

  /** `Math.abs` is the mathematical absolute value except on `Integer.MIN_VALUE`,
      which it returns unchanged; so its result is negative only there. */
  lemma MathAbsValue(x: Int32)
    ensures x != MinInt32 ==> MathAbs(x) == (if x < 0 then -x else x)
    ensures x == MinInt32 ==> MathAbs(x) == MinInt32
    ensures MathAbs(x) < 0 <==> x == MinInt32
  {
  }

  // ---------------------------------------------------------------------------
  // UTF-16: Java strings are sequences of 16-bit code units.

  /** The UTF-16 code units of one Unicode scalar value. */
  function Utf16Units(c: char): (u: seq<int>)
    ensures 1 <= |u| <= 2
    ensures forall k :: 0 <= k < |u| ==> 0 <= u[k] < 0x1_0000
  {
    var v := c as int;
    if v < 0x1_0000 then [v]
    else [0xD800 + (v - 0x1_0000) / 0x400, 0xDC00 + (v - 0x1_0000) % 0x400]
  }

  /** The UTF-16 encoding of a string, the units `String.charAt` indexes. */
  function Utf16(s: string): (u: seq<int>)
    ensures |s| <= |u| <= 2 * |s|
    ensures forall k :: 0 <= k < |u| ==> 0 <= u[k] < 0x1_0000
  {
    if s == [] then [] else Utf16(s[..|s| - 1]) + Utf16Units(s[|s| - 1])
  }

  /** `String.length()`: the number of UTF-16 code units. */
  function Length(s: string): nat
  {
    |Utf16(s)|
  }

  /** A string of characters from the Basic Multilingual Plane has as many
      code units as characters, and those units are its characters. */
  lemma {:induction false} Utf16OfBmp(s: string)
    requires forall k :: 0 <= k < |s| ==> (s[k] as int) < 0x1_0000
    ensures Utf16(s) == seq(|s|, k requires 0 <= k < |s| => s[k] as int)
    ensures Length(s) == |s|
  {
    if s != [] {
      Utf16OfBmp(s[..|s| - 1]);
    }
  }

  // ---------------------------------------------------------------------------
  // String.hashCode

  /** `String.hashCode` as Java computes it, `h = 31 * h + c` for every code
      unit, kept as an unsigned 32-bit pattern. */
  function HashBits(units: seq<int>): (h: nat)
    ensures h < TwoTo32
  {
    if units == [] then 0
    else (31 * HashBits(units[..|units| - 1]) + units[|units| - 1]) % TwoTo32
  }

  /** `String.hashCode()`. */
  function HashCode(s: string): Int32
  {
    ToInt32(HashBits(Utf16(s)))
  }

  function Pow31(k: nat): nat
  {
    if k == 0 then 1 else 31 * Pow31(k - 1)
  }

  /** The documented definition of `String.hashCode`:
      s[0]*31^(n-1) + s[1]*31^(n-2) + ... + s[n-1], in unbounded integers. */
  function PowerSum(units: seq<int>): int
  {
    if units == [] then 0 else units[0] * Pow31(|units| - 1) + PowerSum(units[1..])
  }

  lemma {:induction false} PowerSumSnoc(units: seq<int>, c: int)
    ensures PowerSum(units + [c]) == 31 * PowerSum(units) + c
  {
    if units == [] {
      assert [c][1..] == [];
    } else {
      var w := units[1..];
      assert (units + [c])[1..] == w + [c];
      PowerSumSnoc(w, c);
      var a := units[0];
      assert a * Pow31(|w| + 1) == 31 * (a * Pow31(|w|));
    }
  }

  lemma ReduceStep(x: int, c: int)
    ensures (31 * (x % TwoTo32) + c) % TwoTo32 == (31 * x + c) % TwoTo32
  {
    var q := x / TwoTo32;
    assert x == q * TwoTo32 + x % TwoTo32;
    assert 31 * x + c == (31 * (x % TwoTo32) + c) + (31 * q) * TwoTo32;
  }

  /** Java's incremental hash is the documented polynomial taken modulo 2^32:
      the wrap-around at every step loses nothing. */
  lemma {:induction false} HashBitsIsPowerSum(units: seq<int>)
    ensures HashBits(units) == PowerSum(units) % TwoTo32
  {
    if units != [] {
      var init := units[..|units| - 1];
      var c := units[|units| - 1];
      assert units == init + [c];
      HashBitsIsPowerSum(init);
      PowerSumSnoc(init, c);
      ReduceStep(PowerSum(init), c);
    }
  }

  // ---------------------------------------------------------------------------
  // Integer.toHexString and Integer.toString: numerals without leading zeros.

  /** The digit character of value d, lower case as Java writes it. */
  function DigitChar(d: nat): char
    requires d < 16
  {
    if d < 10 then ('0' as int + d) as char else ('a' as int + d - 10) as char
  }

  predicate IsDigitChar(c: char)
  {
    '0' <= c <= '9' || 'a' <= c <= 'f'
  }

  function DigitValue(c: char): nat
    requires IsDigitChar(c)
  {
    if c <= '9' then c as int - '0' as int else c as int - 'a' as int + 10
  }

  predicate IsDigit(c: char, radix: nat)
  {
    IsDigitChar(c) && DigitValue(c) < radix
  }

  /** The numeral of n in the given radix, with no leading zero: what
      `Integer.toString(n, radix)` gives for a non-negative n. */
  function Numeral(n: nat, radix: nat): (r: string)
    requires 2 <= radix <= 16
    ensures 1 <= |r|
    ensures forall k :: 0 <= k < |r| ==> IsDigit(r[k], radix)
    ensures r[0] == '0' ==> n == 0 && r == "0"
    decreases n
  {
    if n < radix then [DigitChar(n)]
    else
      DivideByRadix(n, radix);
      Numeral(n / radix, radix) + [DigitChar(n % radix)]
  }

  lemma DivideByRadix(n: nat, radix: nat)
    requires 2 <= radix <= n
    ensures 1 <= n / radix < n && n % radix < radix
    ensures n == n / radix * radix + n % radix
  {
  }

  /** The value a numeral denotes. */
  function NumeralValue(s: string, radix: nat): nat
    requires forall k :: 0 <= k < |s| ==> IsDigit(s[k], radix)
  {
    if s == [] then 0
    else
      assert IsDigit(s[|s| - 1], radix);
      NumeralValue(s[..|s| - 1], radix) * radix + DigitValue(s[|s| - 1])
  }

  /** Reading back a numeral gives the number it was written for; so distinct
      numbers have distinct numerals. */
  lemma {:induction false} NumeralRoundTrip(n: nat, radix: nat)
    requires 2 <= radix <= 16
    ensures NumeralValue(Numeral(n, radix), radix) == n
    decreases n
  {
    var r := Numeral(n, radix);
    if n >= radix {
      DivideByRadix(n, radix);
      NumeralRoundTrip(n / radix, radix);
      assert r[..|r| - 1] == Numeral(n / radix, radix);
    }
  }

  lemma NumeralInjective(m: nat, n: nat, radix: nat)
    requires 2 <= radix <= 16
    requires Numeral(m, radix) == Numeral(n, radix)
    ensures m == n
  {
    NumeralRoundTrip(m, radix);
    NumeralRoundTrip(n, radix);
  }

  /** `Integer.toHexString(int)`: the unsigned 32-bit value in lower-case
      hexadecimal, without leading zeros. */
  function ToHexString(i: Int32): string
  {
    Numeral(Unsigned(i), 16)
  }

  /** `Integer.toString(int)` for the non-negative values it is used on. */
  function ToDecimalString(n: nat): string
  {
    Numeral(n, 10)
  }

  // ---------------------------------------------------------------------------
  // String.trim and String.toLowerCase

  /** `String.trim` strips every character from U+0000 to U+0020. */
  predicate IsTrimmable(c: char)
  {
    c <= ' '
  }

  predicate AllTrimmable(s: string)
  {
    forall k :: 0 <= k < |s| ==> IsTrimmable(s[k])
  }

  /** `s` without its leading trimmable characters. */
  function TrimStart(s: string): string
  {
    if s != [] && IsTrimmable(s[0]) then TrimStart(s[1..]) else s
  }

  /** `s` without its trailing trimmable characters. */
  function TrimEnd(s: string): string
  {
    if s != [] && IsTrimmable(s[|s| - 1]) then TrimEnd(s[..|s| - 1]) else s
  }

  /** TrimStart drops a prefix of trimmable characters and stops at the first
      character that is not. */
  lemma {:induction false} TrimStartShape(s: string)
    ensures |TrimStart(s)| <= |s| && TrimStart(s) == s[|s| - |TrimStart(s)|..]
    ensures TrimStart(s) == [] || !IsTrimmable(TrimStart(s)[0])
    ensures AllTrimmable(s[..|s| - |TrimStart(s)|])
  {
    if s != [] && IsTrimmable(s[0]) {
      TrimStartShape(s[1..]);
      var r := TrimStart(s[1..]);
      assert s[1..][..|s| - 1 - |r|] == s[1..|s| - |r|];
      assert s[..|s| - |r|] == [s[0]] + s[1..|s| - |r|];
    }
  }

  /** TrimEnd drops a suffix of trimmable characters and stops at the last
      character that is not. */
  lemma {:induction false} TrimEndShape(s: string)
    ensures |TrimEnd(s)| <= |s| && TrimEnd(s) == s[..|TrimEnd(s)|]
    ensures TrimEnd(s) == [] || !IsTrimmable(TrimEnd(s)[|TrimEnd(s)| - 1])
    ensures AllTrimmable(s[|TrimEnd(s)|..])
  {
    if s != [] && IsTrimmable(s[|s| - 1]) {
      var t := s[..|s| - 1];
      TrimEndShape(t);
      var r := TrimEnd(t);
      assert t[|r|..] + [s[|s| - 1]] == s[|r|..];
    }
  }

  /** `String.trim()`. */
  function Trim(s: string): string
  {
    TrimEnd(TrimStart(s))
  }

  /** A string with nothing trimmable at either end. */
  predicate IsTrimmed(s: string)
  {
    s == [] || (!IsTrimmable(s[0]) && !IsTrimmable(s[|s| - 1]))
  }

  lemma {:induction false} TrimStartOf(p: string, s: string)
    requires AllTrimmable(p)
    requires s == [] || !IsTrimmable(s[0])
    ensures TrimStart(p + s) == s
    decreases |p|
  {
    if p != [] {
      assert (p + s)[1..] == p[1..] + s;
      TrimStartOf(p[1..], s);
    }
  }

  lemma {:induction false} TrimEndOf(s: string, q: string)
    requires AllTrimmable(q)
    requires s == [] || !IsTrimmable(s[|s| - 1])
    ensures TrimEnd(s + q) == s
    decreases |q|
  {
    if q != [] {
      assert (s + q)[..|s + q| - 1] == s + q[..|q| - 1];
      TrimEndOf(s, q[..|q| - 1]);
    }
  }

  /** Trimming removes exactly the surrounding run of trimmable characters:
      the result is trimmed and is the input with trimmable ends dropped. */
  lemma TrimShape(s: string)
    ensures IsTrimmed(Trim(s))
    ensures exists i, j :: 0 <= i <= j <= |s| && Trim(s) == s[i..j]
                           && AllTrimmable(s[..i]) && AllTrimmable(s[j..])
  {
    TrimStartShape(s);
    var t := TrimStart(s);
    TrimEndShape(t);
    var i := |s| - |t|;
    var r := TrimEnd(t);
    assert t == s[i..];
    assert r == s[i..i + |r|];
    assert s[i + |r|..] == t[|r|..];
    if r != [] {
      assert r[0] == t[0];
    }
  }

  /** Padding a trimmed string with trimmable characters and trimming again
      gives the string back; in particular trimming is idempotent. */
  lemma TrimOfPadded(p: string, s: string, q: string)
    requires AllTrimmable(p) && AllTrimmable(q) && IsTrimmed(s)
    ensures Trim(p + s + q) == s
  {
    if s == [] {
      assert p + s + q == p + q == (p + q) + [];
      TrimStartOf(p + q, []);
      assert TrimStart(p + q) == [];
    } else {
      assert p + s + q == p + (s + q);
      TrimStartOf(p, s + q);
      TrimEndOf(s, q);
    }
  }

  lemma TrimIdempotent(s: string)
    ensures Trim(Trim(s)) == Trim(s)
  {
    TrimShape(s);
    var t := Trim(s);
    assert [] + t + [] == t;
    TrimOfPadded([], t, []);
  }

  /** `s.trim().isEmpty()` holds exactly of the strings made of trimmable
      characters only. */
  lemma TrimEmpty(s: string)
    ensures Trim(s) == [] <==> AllTrimmable(s)
  {
    TrimShape(s);
    if AllTrimmable(s) {
      assert s + [] + [] == s;
      TrimOfPadded(s, [], []);
    }
  }

  predicate IsUpperAscii(c: char)
  {
    'A' <= c <= 'Z'
  }

  /** Two characters that are equal, or the same ASCII letter in different case. */
  predicate SameIgnoringAsciiCase(c: char, d: char)
  {
    || c == d
    || (IsUpperAscii(c) && d as int == c as int + 32)
    || (IsUpperAscii(d) && c as int == d as int + 32)
  }

  /** Equality up to the case of ASCII letters, position by position. */
  predicate EqualsIgnoreAsciiCase(a: string, b: string)
  {
    |a| == |b| && forall k :: 0 <= k < |a| ==> SameIgnoringAsciiCase(a[k], b[k])
  }

  function LowerChar(c: char): char
  {
    if IsUpperAscii(c) then (c as int - 'A' as int + 'a' as int) as char else c
  }

  /** `String.toLowerCase()` on ASCII letters: the same string up to case,
      with no upper-case ASCII letter left. */
  function ToLowerCase(s: string): (r: string)
    ensures |r| == |s|
    ensures EqualsIgnoreAsciiCase(r, s)
    ensures forall k :: 0 <= k < |r| ==> !IsUpperAscii(r[k])
  {
    seq(|s|, k requires 0 <= k < |s| => LowerChar(s[k]))
  }

  /** A character lower-cases to a given lower-case letter exactly when it is
      that letter up to case. */
  lemma LowerCharIs(c: char, x: char)
    requires 'a' <= x <= 'z'
    ensures LowerChar(c) == x <==> SameIgnoringAsciiCase(c, x)
  {
  }

  /** Lower-casing gives a string of lower-case letters exactly when the input
      equals that string up to case. */
  lemma {:induction false} ToLowerCaseIs(s: string, t: string)
    requires forall k :: 0 <= k < |t| ==> 'a' <= t[k] <= 'z'
    ensures ToLowerCase(s) == t <==> EqualsIgnoreAsciiCase(s, t)
  {
    if |s| == |t| {
      forall k | 0 <= k < |s|
        ensures ToLowerCase(s)[k] == t[k] <==> SameIgnoringAsciiCase(s[k], t[k])
      {
        LowerCharIs(s[k], t[k]);
      }
      if EqualsIgnoreAsciiCase(s, t) {
        assert forall k :: 0 <= k < |s| ==> ToLowerCase(s)[k] == t[k];
      }
    }
  }
}

/**
 * Character classes and string operations shared by the backend (Java `String`)
 * and the frontend (JavaScript strings).  Strings are sequences of Unicode
 * scalar values; only the ASCII part of case mapping is modelled.
 */
module Text {

  predicate IsDigit(c: char) { '0' <= c <= '9' }
  predicate IsUpper(c: char) { 'A' <= c <= 'Z' }
  predicate IsLower(c: char) { 'a' <= c <= 'z' }
  predicate IsAlnum(c: char) { IsDigit(c) || IsUpper(c) || IsLower(c) }

  predicate AllDigits(s: string) { forall i :: 0 <= i < |s| ==> IsDigit(s[i]) }

  /** Characters removed by Java's `String.trim()`: everything up to U+0020. */
  predicate IsJavaTrimmed(c: char) { c <= ' ' }

  /** The JavaScript WhiteSpace and LineTerminator characters (what `trim()` and `\s` match). */
  predicate IsJsSpace(c: char)
  {
    c == ' ' || ('\t' <= c <= '\r') || c == '\U{00A0}' || c == '\U{1680}'
    || ('\U{2000}' <= c <= '\U{200A}') || c == '\U{2028}' || c == '\U{2029}'
    || c == '\U{202F}' || c == '\U{205F}' || c == '\U{3000}' || c == '\U{FEFF}'
  }

  /** JavaScript `s.trim() === ''`. */
  predicate IsJsBlank(s: string) { forall i :: 0 <= i < |s| ==> IsJsSpace(s[i]) }

  /** Java `s.trim().isEmpty()`. */
  predicate IsJavaBlank(s: string) { forall i :: 0 <= i < |s| ==> IsJavaTrimmed(s[i]) }

  function TrimStart(s: string): (t: string)
    ensures |t| <= |s| && t == s[|s| - |t|..]
    ensures |t| > 0 ==> !IsJavaTrimmed(t[0])
    ensures forall i :: 0 <= i < |s| - |t| ==> IsJavaTrimmed(s[i])
  {
    if |s| > 0 && IsJavaTrimmed(s[0]) then TrimStart(s[1..]) else s
  }

  function TrimEnd(s: string): (t: string)
    ensures |t| <= |s| && t == s[..|t|]
    ensures |t| > 0 ==> !IsJavaTrimmed(t[|t| - 1])
    ensures forall i :: |t| <= i < |s| ==> IsJavaTrimmed(s[i])
  {
    if |s| > 0 && IsJavaTrimmed(s[|s| - 1]) then TrimEnd(s[..|s| - 1]) else s
  }

  /** `sub` occurs in `s` starting at index `k`. */
  predicate OccursAt(s: string, sub: string, k: int)
  {
    0 <= k && k + |sub| <= |s| && s[k..k + |sub|] == sub
  }

  /** Java's `String.trim()`. */
  function JavaTrim(s: string): (t: string)
    ensures exists k :: OccursAt(s, t, k)
    ensures |t| > 0 ==> !IsJavaTrimmed(t[0]) && !IsJavaTrimmed(t[|t| - 1])
  {
    var a := TrimStart(s);
    var t := TrimEnd(a);
    assert OccursAt(s, t, |s| - |a|);
    t
  }

  /** `s.trim().isEmpty()` holds exactly when every character of `s` is one that `trim()` removes. */
  lemma JavaTrimEmpty(s: string)
    ensures JavaTrim(s) == [] <==> IsJavaBlank(s)
  {
    var a := TrimStart(s);
    if TrimEnd(a) == [] {
      assert a == [];
    }
  }

  /** ASCII part of JavaScript's `toLowerCase()`. */
  function LowerChar(c: char): (d: char)
    ensures IsUpper(c) ==> d as int == c as int + 32
    ensures !IsUpper(c) ==> d == c
  {
    if IsUpper(c) then (c as int + 32) as char else c
  }

  function ToLower(s: string): (t: string)
    ensures |t| == |s|
    ensures forall i :: 0 <= i < |s| ==> t[i] == LowerChar(s[i])
  {
    if s == [] then [] else [LowerChar(s[0])] + ToLower(s[1..])
  }

  /** JavaScript `s.includes(sub)` and SQL `s LIKE '%sub%'` (without wildcards in `sub`). */
  predicate Includes(s: string, sub: string)
  {
    exists k | 0 <= k <= |s| - |sub| :: OccursAt(s, sub, k)
  }

  /** Removes every character satisfying `drop`, as `replace(/…/g, '')` does. */
  function Remove(s: string, drop: char -> bool): (t: string)
    ensures |t| <= |s|
    ensures forall i :: 0 <= i < |t| ==> !drop(t[i])
    ensures s == [] ==> t == []
  {
    if s == [] then [] else (if drop(s[0]) then [] else [s[0]]) + Remove(s[1..], drop)
  }

  function DigitChar(d: nat): (c: char)
    requires d < 10
    ensures IsDigit(c) && c as int - '0' as int == d
  {
    ('0' as int + d) as char
  }

  /** Decimal text of a non-negative integer, as `toString()` in Java and JavaScript writes it. */
  function Decimal(n: nat): (s: string)
    ensures |s| > 0 && AllDigits(s)
    ensures n >= 10 ==> s[0] != '0'
  {
    if n < 10 then [DigitChar(n)] else Decimal(n / 10) + [DigitChar(n % 10)]
  }

  /** Value of a string of decimal digits. */
  function DigitsValue(s: string): nat
    requires AllDigits(s)
  {
    if s == [] then 0 else 10 * DigitsValue(s[..|s| - 1]) + (s[|s| - 1] as int - '0' as int)
  }

  function Pow10(k: nat): nat
  {
    if k == 0 then 1 else 10 * Pow10(k - 1)
  }

  /** Reading back the decimal text of `n` gives `n`. */
  lemma {:induction false} DecimalValue(n: nat)
    ensures DigitsValue(Decimal(n)) == n
  {
    if n >= 10 {
      var s := Decimal(n);
      assert s[..|s| - 1] == Decimal(n / 10);
      DecimalValue(n / 10);
    }
  }

  /** The decimal text of `n` has exactly `k` digits when `10^(k-1) <= n < 10^k`. */
  lemma {:induction false} DecimalLength(n: nat, k: nat)
    requires k >= 1 && Pow10(k - 1) <= n < Pow10(k)
    ensures |Decimal(n)| == k
  {
    if n >= 10 {
      DecimalLength(n / 10, k - 1);
    } else if k > 1 {
      Pow10AtLeastTen(k - 1);
    }
  }

  lemma {:induction false} Pow10AtLeastTen(k: nat)
    requires k >= 1
    ensures Pow10(k) >= 10
  {
    if k > 1 { Pow10AtLeastTen(k - 1); }
  }

  /** JavaScript `s.padStart(width, c)` and Java `String.format("%0<width>d", …)` on digit strings. */
  function PadStart(s: string, width: nat, c: char): (t: string)
    ensures |t| == if |s| >= width then |s| else width
    ensures t[|t| - |s|..] == s
    ensures forall i :: 0 <= i < |t| - |s| ==> t[i] == c
  {
    if |s| >= width then s else seq(width - |s|, _ => c) + s
  }

  /** Removing characters distributes over concatenation. */
  lemma {:induction false} RemoveConcat(a: string, b: string, drop: char -> bool)
    ensures Remove(a + b, drop) == Remove(a, drop) + Remove(b, drop)
  {
    if a != [] {
      assert (a + b)[1..] == a[1..] + b;
      RemoveConcat(a[1..], b, drop);
    } else {
      assert a + b == b;
    }
  }

  /** Removing characters a string does not contain leaves it unchanged. */
  lemma {:induction false} RemoveNothing(a: string, drop: char -> bool)
    requires forall i :: 0 <= i < |a| ==> !drop(a[i])
    ensures Remove(a, drop) == a
  {
    if a != [] {
      RemoveNothing(a[1..], drop);
    }
  }

  /** A leading zero does not change the value of a digit string. */
  lemma {:induction false} LeadingZeroValue(s: string)
    requires AllDigits(s)
    ensures AllDigits("0" + s) && DigitsValue("0" + s) == DigitsValue(s)
  {
    if s != [] {
      assert ("0" + s)[..|s|] == "0" + s[..|s| - 1];
      LeadingZeroValue(s[..|s| - 1]);
    }
  }

  /** Zero-padding keeps a digit string's value. */
  lemma ZeroPadValue(s: string, width: nat)
    requires AllDigits(s)
    ensures AllDigits(PadStart(s, width, '0'))
    ensures DigitsValue(PadStart(s, width, '0')) == DigitsValue(s)
  {
    if |s| < width {
      LeadingZerosValue(width - |s|, s);
    }
  }

  /** Any number of leading zeros leaves the value of a digit string as it is. */
  lemma {:induction false} LeadingZerosValue(k: nat, s: string)
    requires AllDigits(s)
    ensures AllDigits(seq(k, _ => '0') + s)
    ensures DigitsValue(seq(k, _ => '0') + s) == DigitsValue(s)
  {
    if k > 0 {
      var t := seq(k - 1, _ => '0') + s;
      LeadingZerosValue(k - 1, s);
      assert seq(k, _ => '0') + s == "0" + t;
      LeadingZeroValue(t);
    } else {
      assert seq(k, _ => '0') + s == s;
    }
  }
}

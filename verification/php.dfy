/**
 * The slice of the PHP runtime the library relies on: the scalar values that
 * fill the value table and the property maps, the casts between them, and the
 * string functions the library calls (`trim`, `explode`, `strpos`, `substr`,
 * `strtolower`). Strings are sequences of characters, one character per byte.
 */
module Php {
  import opened Wrappers

  /** A PHP scalar: what the value table, a property map or a parsed cookie holds. */
  datatype Value = Null | Bool(b: bool) | Int(i: int) | Str(s: string)

  // ----------------------------------------------------------------------------
  // Decimal digits

  predicate IsDigit(c: char) {
    48 <= c as int <= 57
  }

  predicate AllDigits(s: string) {
    forall k :: 0 <= k < |s| ==> IsDigit(s[k])
  }

  function DigitChar(d: nat): (c: char)
    requires d < 10
    ensures IsDigit(c)
  {
    (48 + d) as char
  }

  function DigitValue(c: char): (d: nat)
    requires IsDigit(c)
    ensures d < 10
  {
    c as int - 48
  }

  /** Decimal rendering of a natural number, most significant digit first. */
  function NatToString(n: nat): (r: string)
    ensures |r| >= 1 && AllDigits(r)
  {
    if n < 10 then [DigitChar(n)] else NatToString(n / 10) + [DigitChar(n % 10)]
  }

  /** `(string) $i` for an integer. */
  function IntToString(i: int): (r: string)
    ensures |r| >= 1
    ensures i >= 0 ==> AllDigits(r)
    ensures i < 0 ==> r[0] == '-' && AllDigits(r[1..])
  {
    if i < 0 then "-" + NatToString(-i) else NatToString(i)
  }

  /** The value of a string of decimal digits. */
  function DigitsValue(ds: string): nat
    requires AllDigits(ds)
  {
    if |ds| == 0 then 0 else 10 * DigitsValue(ds[..|ds| - 1]) + DigitValue(ds[|ds| - 1])
  }

  /** The longest prefix of `s` made of decimal digits. */
  function DigitPrefix(s: string): (r: string)
    ensures r <= s && AllDigits(r)
    ensures |r| < |s| ==> !IsDigit(s[|r|])
  {
    if |s| > 0 && IsDigit(s[0]) then [s[0]] + DigitPrefix(s[1..]) else ""
  }

  /** The characters C's `isspace` accepts, which PHP's string-to-integer cast skips. */
  predicate IsSpace(c: char) {
    c == ' ' || c == '\t' || c == '\n' || c == '\r' || c as int == 11 || c as int == 12
  }

  function SkipSpaces(s: string): (r: string)
    ensures |r| <= |s| && r == s[|s| - |r|..]
    ensures |r| > 0 ==> !IsSpace(r[0])
  {
    if |s| > 0 && IsSpace(s[0]) then SkipSpaces(s[1..]) else s
  }

  /**
   * `(int) $s`: leading white space, an optional sign and the longest run of
   * digits that follows; anything else reads as 0. The saturation of PHP's
   * 64-bit integers is not modelled.
   */
  function StringToInt(s: string): int {
    var t := SkipSpaces(s);
    if |t| > 0 && t[0] == '-' then 0 - DigitsValue(DigitPrefix(t[1..]))
    else if |t| > 0 && t[0] == '+' then DigitsValue(DigitPrefix(t[1..]))
    else DigitsValue(DigitPrefix(t))
  }

  lemma {:induction false} DigitPrefixOfDigits(ds: string)
    requires AllDigits(ds)
    ensures DigitPrefix(ds) == ds
  {
    if |ds| > 0 {
      DigitPrefixOfDigits(ds[1..]);
      assert [ds[0]] + ds[1..] == ds;
    }
  }

  lemma {:induction false} DigitsValueOfNatToString(n: nat)
    ensures DigitsValue(NatToString(n)) == n
  {
    if n >= 10 {
      DigitsValueOfNatToString(n / 10);
      var r := NatToString(n);
      assert r[..|r| - 1] == NatToString(n / 10);
    }
  }

  lemma StringToIntOfDigits(ds: string)
    requires |ds| > 0 && AllDigits(ds)
    ensures StringToInt(ds) == DigitsValue(ds)
  {
    assert IsDigit(ds[0]);
    assert !IsSpace(ds[0]) && ds[0] != '-' && ds[0] != '+';
    assert SkipSpaces(ds) == ds;
    DigitPrefixOfDigits(ds);
  }

  lemma StringToIntOfNegDigits(ds: string)
    requires |ds| > 0 && AllDigits(ds)
    ensures StringToInt("-" + ds) == 0 - DigitsValue(ds)
  {
    var t := "-" + ds;
    assert SkipSpaces(t) == t;
    assert t[1..] == ds;
    DigitPrefixOfDigits(ds);
  }

  /** Printing an integer and casting the text back gives the integer again. */
  lemma {:induction false} StringToIntOfIntToString(i: int)
    ensures StringToInt(IntToString(i)) == i
  {
    if i < 0 {
      var n: nat := -i;
      var ds := NatToString(n);
      assert IntToString(i) == "-" + ds;
      StringToIntOfNegDigits(ds);
      DigitsValueOfNatToString(n);
      assert StringToInt("-" + ds) == 0 - n;
    } else {
      var n: nat := i;
      var ds := NatToString(n);
      assert IntToString(i) == ds;
      StringToIntOfDigits(ds);
      DigitsValueOfNatToString(n);
      assert StringToInt(ds) == n;
    }
  }

  // ----------------------------------------------------------------------------
  // Casts between scalars

  /** `(bool) $v`; `empty($v)` is its negation. */
  function ToBool(v: Value): bool {
    match v
    case Null => false
    case Bool(b) => b
    case Int(i) => i != 0
    case Str(s) => s != "" && s != "0"
  }

  /** `(string) $v`. */
  function ToStr(v: Value): string {
    match v
    case Null => ""
    case Bool(b) => if b then "1" else ""
    case Int(i) => IntToString(i)
    case Str(s) => s
  }

  /** `(int) $v`. */
  function ToInt(v: Value): int {
    match v
    case Null => 0
    case Bool(b) => if b then 1 else 0
    case Int(i) => i
    case Str(s) => StringToInt(s)
  }

  /** `empty($s)` for a string that may be null: true of null, `""` and `"0"`. */
  predicate EmptyString(s: Option<string>) {
    s.None? || s.value == "" || s.value == "0"
  }

  /**
   * PHP 5's loose `==` between two scalars. Two strings are compared exactly:
   * the numeric comparison of two numeric strings is not modelled.
   */
  function LooseEquals(a: Value, b: Value): bool {
    match (a, b)
    case (Str(x), Str(y)) => x == y
    case (Null, Str(y)) => y == ""
    case (Str(x), Null) => x == ""
    case (Int(x), Int(y)) => x == y
    case (Int(x), Str(y)) => x == StringToInt(y)
    case (Str(x), Int(y)) => StringToInt(x) == y
    case _ => ToBool(a) == ToBool(b)
  }

  // ----------------------------------------------------------------------------
  // String functions

  function LowerChar(c: char): char {
    if 'A' <= c <= 'Z' then (c as int + 32) as char else c
  }

  /** `strtolower`, on ASCII letters. */
  function ToLower(s: string): (r: string)
    ensures |r| == |s|
    ensures forall k :: 0 <= k < |s| ==> r[k] == LowerChar(s[k])
  {
    seq(|s|, k requires 0 <= k < |s| => LowerChar(s[k]))
  }

  /** `substr($s, $n)` for `$n >= 0`; PHP 5's `false` past the end reads as `""`. */
  function Drop(s: string, n: nat): (r: string)
    ensures n <= |s| ==> s == s[..n] + r
    ensures n >= |s| ==> r == ""
  {
    if n <= |s| then s[n..] else ""
  }

  /** `substr($s, 0, $n)` for `$n >= 0`. */
  function Take(s: string, n: nat): (r: string)
    ensures r <= s && |r| == if n <= |s| then n else |s|
  {
    if n <= |s| then s[..n] else s
  }

  /** How many leading characters of `s` `drop` accepts. */
  function LeadCount(s: string, drop: char -> bool): (n: nat)
    ensures n <= |s|
    ensures forall k :: 0 <= k < n ==> drop(s[k])
    ensures n < |s| ==> !drop(s[n])
  {
    if |s| > 0 && drop(s[0]) then 1 + LeadCount(s[1..], drop) else 0
  }

  /** How many trailing characters of `s` `drop` accepts. */
  function TrailCount(s: string, drop: char -> bool): (n: nat)
    ensures n <= |s|
    ensures forall k :: |s| - n <= k < |s| ==> drop(s[k])
    ensures n < |s| ==> !drop(s[|s| - n - 1])
  {
    if |s| > 0 && drop(s[|s| - 1]) then 1 + TrailCount(s[..|s| - 1], drop) else 0
  }

  /** `trim($s, $chars)`: the longest infix of `s` that neither starts nor ends with a dropped character. */
  function TrimWith(s: string, drop: char -> bool): (r: string)
    ensures |r| <= |s| && OccursIn(r, s)
    ensures |r| > 0 ==> !drop(r[0]) && !drop(r[|r| - 1])
    ensures (forall k :: 0 <= k < |s| ==> !drop(s[k])) ==> r == s
  {
    var a := LeadCount(s, drop);
    var b := |s| - TrailCount(s[a..], drop);
    assert OccursAt(s[a..b], s, a);
    s[a..b]
  }

  /** The characters PHP's `trim` removes by default. */
  predicate IsTrimSpace(c: char) {
    c == ' ' || c == '\t' || c == '\n' || c == '\r' || c == '\0' || c as int == 11
  }

  /** `trim($s)`. */
  function Trim(s: string): (r: string)
    ensures |r| <= |s|
    ensures |r| > 0 ==> !IsTrimSpace(r[0]) && !IsTrimSpace(r[|r| - 1])
  {
    TrimWith(s, IsTrimSpace)
  }

  /** `trim($s, $c)` for a single character `c`. */
  function TrimChar(s: string, c: char): (r: string)
    ensures |r| <= |s|
    ensures |r| > 0 ==> r[0] != c && r[|r| - 1] != c
  {
    TrimWith(s, x => x == c)
  }

  /** A string that neither starts nor ends with `c` is left alone by `trim($s, $c)`. */
  lemma TrimCharKeeps(s: string, c: char)
    requires |s| > 0 && s[0] != c && s[|s| - 1] != c
    ensures TrimChar(s, c) == s
  {
    var drop := x => x == c;
    assert LeadCount(s, drop) == 0;
    assert TrailCount(s, drop) == 0;
  }

  /** `str_replace($c, "", $s)` for a single character `c`. */
  function RemoveChar(s: string, c: char): (r: string)
    ensures c !in r
    ensures |r| <= |s|
  {
    if |s| == 0 then "" else (if s[0] == c then "" else [s[0]]) + RemoveChar(s[1..], c)
  }

  /** `explode($sep, $s)` for a one-character separator. */
  function Explode(s: string, sep: char): (r: seq<string>)
    ensures |r| >= 1
    ensures forall k :: 0 <= k < |r| ==> sep !in r[k]
  {
    if |s| == 0 then [""]
    else
      var rest := Explode(s[1..], sep);
      if s[0] == sep then [""] + rest else [[s[0]] + rest[0]] + rest[1..]
  }

  /** `implode($sep, $parts)`: the inverse of `Explode`. */
  function Implode(parts: seq<string>, sep: char): string
    requires |parts| >= 1
  {
    if |parts| == 1 then parts[0] else parts[0] + [sep] + Implode(parts[1..], sep)
  }

  lemma {:induction false} ExplodeNoSeparator(a: string, sep: char)
    requires sep !in a
    ensures Explode(a, sep) == [a]
  {
    if |a| > 0 {
      ExplodeNoSeparator(a[1..], sep);
      assert [a[0]] + a[1..] == a;
    }
  }

  lemma {:induction false} ExplodeAfterPart(a: string, sep: char, b: string)
    requires sep !in a
    ensures Explode(a + [sep] + b, sep) == [a] + Explode(b, sep)
  {
    if |a| == 0 {
      assert a + [sep] + b == [sep] + b;
      assert ([sep] + b)[1..] == b;
    } else {
      var s := a + [sep] + b;
      assert s[1..] == a[1..] + [sep] + b;
      ExplodeAfterPart(a[1..], sep, b);
      assert [a[0]] + a[1..] == a;
    }
  }

  /** Splitting the joined parts gives the parts back when none contains the separator. */
  lemma {:induction false} ExplodeImplode(parts: seq<string>, sep: char)
    requires |parts| >= 1
    requires forall k :: 0 <= k < |parts| ==> sep !in parts[k]
    ensures Explode(Implode(parts, sep), sep) == parts
  {
    if |parts| == 1 {
      ExplodeNoSeparator(parts[0], sep);
    } else {
      ExplodeImplode(parts[1..], sep);
      ExplodeAfterPart(parts[0], sep, Implode(parts[1..], sep));
      assert [parts[0]] + parts[1..] == parts;
    }
  }

  /** Joining the pieces of a split gives the string back. */
  lemma {:induction false} ImplodeExplode(s: string, sep: char)
    ensures Implode(Explode(s, sep), sep) == s
  {
    if |s| > 0 {
      ImplodeExplode(s[1..], sep);
      var rest := Explode(s[1..], sep);
      if s[0] != sep {
        if |rest| > 1 {
          assert Implode(rest, sep) == rest[0] + [sep] + Implode(rest[1..], sep);
          assert ([[s[0]] + rest[0]] + rest[1..])[1..] == rest[1..];
        }
      } else {
        assert ([""] + rest)[1..] == rest;
      }
    }
  }

  /** `explode($sep, $s, 2)`: the text before the first separator and, if there is one, the rest. */
  function SplitFirst(s: string, sep: char): (r: (string, Option<string>))
    ensures sep !in r.0
    ensures r.1.None? <==> sep !in s
    ensures r.1.None? ==> r.0 == s
    ensures r.1.Some? ==> s == r.0 + [sep] + r.1.value
  {
    if |s| == 0 then ("", None)
    else if s[0] == sep then ("", Some(s[1..]))
    else
      var t := SplitFirst(s[1..], sep);
      assert s == [s[0]] + s[1..];
      ([s[0]] + t.0, t.1)
  }

  /** `needle` occurs in `hay` starting at position `i`. */
  ghost predicate OccursAt(needle: string, hay: string, i: int) {
    0 <= i <= |hay| - |needle| && hay[i..i + |needle|] == needle
  }

  /** `needle` occurs in `hay` at some position. */
  ghost predicate OccursIn(needle: string, hay: string) {
    exists i :: OccursAt(needle, hay, i)
  }

  /** `strpos($hay, $needle) !== false`; PHP 5 answers false for an empty needle. */
  function StrContains(hay: string, needle: string): (r: bool)
    ensures r <==> |needle| > 0 && OccursIn(needle, hay)
  {
    if |needle| == 0 then false
    else if |hay| < |needle| then
      assert forall i :: !OccursAt(needle, hay, i);
      false
    else if needle <= hay then
      assert OccursAt(needle, hay, 0);
      true
    else
      var r := StrContains(hay[1..], needle);
      assert r ==> OccursIn(needle, hay) by {
        if r {
          var i :| OccursAt(needle, hay[1..], i);
          assert OccursAt(needle, hay, i + 1);
        }
      }
      assert OccursIn(needle, hay) ==> r by {
        if OccursIn(needle, hay) {
          var i :| OccursAt(needle, hay, i);
          assert i != 0;
          assert OccursAt(needle, hay[1..], i - 1);
        }
      }
      r
  }
}

/**
 * The JavaScript string built-ins the application relies on, written out:
 * `trim`, `toLowerCase`/`toUpperCase` (on the scripts of the app's three
 * languages), `split` on one character, `join`, `includes`, `startsWith`,
 * `indexOf`, `String(n)` for integers, `parseInt(s, 10)`, the radix-less
 * `parseInt(s)` and a global literal `replace`. Strings are sequences of
 * Dafny characters (Unicode scalar values), which are the UTF-16 code units
 * for every character below U+10000.
 */
module Strings {
  import opened Wrappers

  // ---------------------------------------------------------------------------
  // Whitespace and trimming
  // ---------------------------------------------------------------------------

  /** The WhiteSpace and LineTerminator code points that `String.prototype.trim` removes. */
  predicate IsWhitespace(c: char)
  {
    || c == ' ' || c == '\t' || c == '\n' || c == '\r'
    || c == '\U{000B}' || c == '\U{000C}' || c == '\U{00A0}' || c == '\U{1680}'
    || ('\U{2000}' <= c <= '\U{200A}')
    || c == '\U{2028}' || c == '\U{2029}' || c == '\U{202F}' || c == '\U{205F}'
    || c == '\U{3000}' || c == '\U{FEFF}'
  }

  predicate AllWhitespace(s: string)
  {
    forall i :: 0 <= i < |s| ==> IsWhitespace(s[i])
  }

  /** `trimStart`: the longest suffix of `s` that does not start with whitespace. */
  function TrimStart(s: string): (r: string)
    ensures |r| <= |s|
    ensures AllWhitespace(s[..|s| - |r|])
    ensures r == [] || !IsWhitespace(r[0])
  {
    if |s| > 0 && IsWhitespace(s[0]) then
      var tail := s[1..];
      var r := TrimStart(tail);
      assert s[..|s| - |r|] == [s[0]] + tail[..|tail| - |r|];
      r
    else s
  }

  /**
   * What `trimStart` keeps is the rest of `s` after the removed whitespace.
   * (Stated apart from `TrimStart`: a string equal to a slice of itself sends
   * the solver's slice axioms round in circles.)
   */
  lemma {:induction false} TrimStartSuffix(s: string)
    ensures TrimStart(s) == s[|s| - |TrimStart(s)|..]
  {
    if |s| > 0 && IsWhitespace(s[0]) {
      var tail := s[1..];
      TrimStartSuffix(tail);
      assert tail[|tail| - |TrimStart(tail)|..] == s[|s| - |TrimStart(tail)|..];
    }
  }

  /** `trimEnd`: the longest prefix of `s` that does not end with whitespace. */
  function TrimEnd(s: string): (r: string)
    ensures |r| <= |s| && r == s[..|r|]
    ensures AllWhitespace(s[|r|..])
    ensures r == [] || !IsWhitespace(r[|r| - 1])
  {
    if |s| > 0 && IsWhitespace(s[|s| - 1]) then
      var init := s[..|s| - 1];
      var r := TrimEnd(init);
      assert s[|r|..] == init[|r|..] + [s[|s| - 1]];
      r
    else s
  }

  /** `trim`: `s` without its leading and trailing whitespace. */
  function Trim(s: string): (r: string)
    ensures |r| <= |s|
    ensures r == [] || (!IsWhitespace(r[0]) && !IsWhitespace(r[|r| - 1]))
  {
    TrimEnd(TrimStart(s))
  }

  /** A string trims to "" exactly when it is all whitespace (the source's "blank" test). */
  lemma TrimEmptyIffBlank(s: string)
    ensures Trim(s) == [] <==> AllWhitespace(s)
  {
    var t := TrimStart(s);
    TrimStartSuffix(s);
    if Trim(s) == [] {
      assert t[|TrimEnd(t)|..] == t;
      assert t == [];
      assert s[..|s|] == s;
    }
  }

  /** Trimming twice is trimming once. */
  lemma TrimIdempotent(s: string)
    ensures Trim(Trim(s)) == Trim(s)
  {
    var r := Trim(s);
    assert TrimStart(r) == r;
    assert TrimEnd(r) == r;
  }

  // ---------------------------------------------------------------------------
  // Case mapping
  // ---------------------------------------------------------------------------

  /**
   * `toLowerCase` on one code unit, for Basic Latin, Latin-1, Latin Extended-A
   * and the Cyrillic block: the scripts of Latvian, English and Ukrainian.
   */
  function LowerChar(c: char): char
  {
    var n := c as int;
    if 'A' <= c <= 'Z' then (n + 32) as char
    else if 0xC0 <= n <= 0xDE && n != 0xD7 then (n + 32) as char
    else if 0x100 <= n <= 0x12F && n % 2 == 0 then (n + 1) as char
    else if 0x132 <= n <= 0x137 && n % 2 == 0 then (n + 1) as char
    else if 0x139 <= n <= 0x148 && n % 2 == 1 then (n + 1) as char
    else if 0x14A <= n <= 0x177 && n % 2 == 0 then (n + 1) as char
    else if n == 0x178 then 0xFF as char
    else if 0x179 <= n <= 0x17E && n % 2 == 1 then (n + 1) as char
    else if 0x400 <= n <= 0x40F then (n + 80) as char
    else if 0x410 <= n <= 0x42F then (n + 32) as char
    else if n == 0x490 then 0x491 as char
    else c
  }

  /** `toUpperCase` on one code unit, over the same scripts as `LowerChar`. */
  function UpperChar(c: char): char
  {
    var n := c as int;
    if 'a' <= c <= 'z' then (n - 32) as char
    else if 0xE0 <= n <= 0xFE && n != 0xF7 then (n - 32) as char
    else if n == 0xFF then 0x178 as char
    else if 0x101 <= n <= 0x12F && n % 2 == 1 then (n - 1) as char
    else if n == 0x131 then 'I'
    else if 0x133 <= n <= 0x137 && n % 2 == 1 then (n - 1) as char
    else if 0x13A <= n <= 0x148 && n % 2 == 0 then (n - 1) as char
    else if 0x14B <= n <= 0x177 && n % 2 == 1 then (n - 1) as char
    else if 0x17A <= n <= 0x17E && n % 2 == 0 then (n - 1) as char
    else if n == 0x17F then 'S'
    else if 0x430 <= n <= 0x44F then (n - 32) as char
    else if 0x450 <= n <= 0x45F then (n - 80) as char
    else if n == 0x491 then 0x490 as char
    else c
  }

  function ToLower(s: string): (r: string)
    ensures |r| == |s|
    ensures forall i :: 0 <= i < |s| ==> r[i] == LowerChar(s[i])
  {
    if s == [] then [] else [LowerChar(s[0])] + ToLower(s[1..])
  }

  function ToUpper(s: string): (r: string)
    ensures |r| == |s|
    ensures forall i :: 0 <= i < |s| ==> r[i] == UpperChar(s[i])
  {
    if s == [] then [] else [UpperChar(s[0])] + ToUpper(s[1..])
  }

  /** Lower-casing is a projection: a lower-cased string lower-cases to itself. */
  lemma LowerCharIdempotent(c: char)
    ensures LowerChar(LowerChar(c)) == LowerChar(c)
  {
  }

  lemma ToLowerIdempotent(s: string)
    ensures ToLower(ToLower(s)) == ToLower(s)
  {
    forall i | 0 <= i < |s| ensures ToLower(ToLower(s))[i] == ToLower(s)[i] {
      LowerCharIdempotent(s[i]);
    }
  }

  /** Two code units are equal ignoring case (as far as `LowerChar` goes) when they lower-case alike. */
  predicate EqualsIgnoreCase(a: string, b: string)
  {
    ToLower(a) == ToLower(b)
  }

  // ---------------------------------------------------------------------------
  // Searching
  // ---------------------------------------------------------------------------

  /** `startsWith`. */
  predicate StartsWith(s: string, p: string)
  {
    |p| <= |s| && s[..|p|] == p
  }

  /** `includes`: `sub` occurs somewhere in `s` (the empty string occurs everywhere). */
  predicate Contains(s: string, sub: string)
    decreases |s|
  {
    StartsWith(s, sub) || (|s| > 0 && Contains(s[1..], sub))
  }

  /** `sub` occurs in `s` starting at position `i`. */
  predicate OccursAt(s: string, sub: string, i: int)
  {
    0 <= i <= |s| - |sub| && s[i..i + |sub|] == sub
  }

  lemma OccursAtShift(s: string, sub: string, i: int)
    requires |s| > 0 && i > 0
    ensures OccursAt(s, sub, i) <==> OccursAt(s[1..], sub, i - 1)
  {
    if 0 <= i - 1 <= |s[1..]| - |sub| {
      assert s[1..][i - 1..i - 1 + |sub|] == s[i..i + |sub|];
    }
  }

  /** `includes` agrees with the positional definition of a substring. */
  lemma {:induction false} ContainsIff(s: string, sub: string)
    ensures Contains(s, sub) <==> exists i :: OccursAt(s, sub, i)
    decreases |s|
  {
    if StartsWith(s, sub) {
      assert OccursAt(s, sub, 0);
    } else if |s| > 0 {
      ContainsIff(s[1..], sub);
      forall i | i > 0 ensures OccursAt(s, sub, i) <==> OccursAt(s[1..], sub, i - 1) {
        OccursAtShift(s, sub, i);
      }
      if Contains(s[1..], sub) {
        var i :| OccursAt(s[1..], sub, i);
        assert OccursAt(s, sub, i + 1);
      }
    }
  }

  /** `indexOf` over any sequence: the first position of `x`, or -1. */
  function IndexOf<T(==)>(s: seq<T>, x: T): (r: int)
    ensures -1 <= r < |s|
    ensures r == -1 <==> x !in s
    ensures r >= 0 ==> s[r] == x && x !in s[..r]
  {
    if |s| == 0 then -1
    else if s[0] == x then 0
    else
      var k := IndexOf(s[1..], x);
      assert s[1..] == s[1..];
      if k == -1 then
        assert x !in s by {
          assert s == [s[0]] + s[1..];
        }
        -1
      else
        assert s[..k + 1] == [s[0]] + s[1..][..k];
        k + 1
  }

  // ---------------------------------------------------------------------------
  // split / join on a single separator character
  // ---------------------------------------------------------------------------

  /** `s.split(sep)` for a one-character separator: always at least one part. */
  function Split(s: string, sep: char): (parts: seq<string>)
    ensures |parts| >= 1
    ensures forall i :: 0 <= i < |parts| ==> sep !in parts[i]
  {
    if s == [] then [""]
    else
      var rest := Split(s[1..], sep);
      if s[0] == sep then [""] + rest
      else [[s[0]] + rest[0]] + rest[1..]
  }

  /** `parts.join(sep)`. */
  function Join(parts: seq<string>, sep: char): string
  {
    if |parts| == 0 then ""
    else if |parts| == 1 then parts[0]
    else parts[0] + [sep] + Join(parts[1..], sep)
  }

  /** Joining the parts of a split gives back the string. */
  lemma {:induction false} JoinSplit(s: string, sep: char)
    ensures Join(Split(s, sep), sep) == s
  {
    if s != [] {
      var rest := Split(s[1..], sep);
      JoinSplit(s[1..], sep);
      if s[0] == sep {
        assert Split(s, sep)[1..] == rest;
      } else {
        var parts := Split(s, sep);
        assert parts[0] == [s[0]] + rest[0];
        if |rest| == 1 {
          assert Join(parts, sep) == [s[0]] + rest[0];
        } else {
          assert parts[1..] == rest[1..];
          assert Join(rest, sep) == rest[0] + [sep] + Join(rest[1..], sep);
        }
      }
    }
  }

  /** Splitting a join of separator-free parts gives back the parts. */
  lemma {:induction false} SplitJoin(parts: seq<string>, sep: char)
    requires |parts| >= 1
    requires forall i :: 0 <= i < |parts| ==> sep !in parts[i]
    ensures Split(Join(parts, sep), sep) == parts
    decreases |parts|, |parts[0]|
  {
    var p := parts[0];
    if |parts| == 1 {
      SplitNoSep(p, sep);
    } else if p == [] {
      var tail := Join(parts[1..], sep);
      assert Join(parts, sep) == [sep] + tail;
      SplitJoin(parts[1..], sep);
      assert [""] + parts[1..] == parts;
    } else {
      var shorter := [p[1..]] + parts[1..];
      assert shorter[1..] == parts[1..];
      assert sep !in p[1..] by {
        assert forall k :: 0 <= k < |p[1..]| ==> p[1..][k] == p[k + 1];
      }
      SplitJoin(shorter, sep);
      var j := Join(parts, sep);
      assert j == [p[0]] + Join(shorter, sep);
      assert j[1..] == Join(shorter, sep);
      assert p[0] != sep by { assert p[0] == parts[0][0]; }
      assert [p[0]] + p[1..] == p;
    }
  }

  lemma {:induction false} SplitNoSep(s: string, sep: char)
    requires sep !in s
    ensures Split(s, sep) == [s]
  {
    if s != [] {
      assert sep !in s[1..] by {
        assert forall k :: 0 <= k < |s[1..]| ==> s[1..][k] == s[k + 1];
      }
      SplitNoSep(s[1..], sep);
      assert [s[0]] + s[1..] == s;
    }
  }

  /** The last element of `split` (what `pop()` returns). */
  function LastPart(s: string, sep: char): (r: string)
    ensures sep !in r
  {
    var parts := Split(s, sep);
    parts[|parts| - 1]
  }

  /** A string that ends with the separator splits into a last part that is empty. */
  lemma {:induction false} LastPartAfterTrailingSep(s: string, sep: char)
    requires s != [] && s[|s| - 1] == sep
    ensures |Split(s, sep)| >= 2
    ensures LastPart(s, sep) == ""
    decreases |s|
  {
    if |s| > 1 {
      LastPartAfterTrailingSep(s[1..], sep);
    } else {
      assert s[1..] == [];
    }
  }

  /** A string whose last separator is followed by separator-free text `b` splits with `b` last. */
  lemma {:induction false} LastPartAfterSep(a: string, b: string, sep: char)
    requires a != [] && a[|a| - 1] == sep && sep !in b
    ensures |Split(a + b, sep)| >= 2
    ensures LastPart(a + b, sep) == b
    decreases |a|
  {
    var s := a + b;
    if |a| > 1 {
      assert s[1..] == a[1..] + b;
      LastPartAfterSep(a[1..], b, sep);
    } else {
      assert s[1..] == b;
      SplitNoSep(b, sep);
    }
  }

  // ---------------------------------------------------------------------------
  // Decimal integers: String(n) and parseInt(s, 10)
  // ---------------------------------------------------------------------------

  predicate IsDigit(c: char)
  {
    '0' <= c <= '9'
  }

  predicate AllDigits(s: string)
  {
    forall i :: 0 <= i < |s| ==> IsDigit(s[i])
  }

  function DigitChar(d: nat): (c: char)
    requires d < 10
    ensures IsDigit(c)
  {
    ('0' as int + d) as char
  }

  function DigitValue(c: char): nat
    requires IsDigit(c)
  {
    (c as int) - ('0' as int)
  }

  /** Decimal rendering of a natural number, without leading zeros. */
  function NatToString(n: nat): (r: string)
    ensures |r| >= 1 && AllDigits(r)
    ensures |r| > 1 ==> r[0] != '0'
  {
    if n < 10 then [DigitChar(n)] else NatToString(n / 10) + [DigitChar(n % 10)]
  }

  /** `String(n)` for an integer (the app's numbers are far below the exponent range). */
  function IntToString(n: int): (r: string)
    ensures |r| >= 1
    ensures n < 0 <==> r[0] == '-'
  {
    if n < 0 then "-" + NatToString(-n) else NatToString(n)
  }

  /** The value of a string of decimal digits. */
  function DigitsValue(s: string): nat
    requires AllDigits(s)
  {
    if s == [] then 0 else DigitsValue(s[..|s| - 1]) * 10 + DigitValue(s[|s| - 1])
  }

  /** Length of the longest all-digit prefix. */
  function DigitPrefixLength(s: string): (k: nat)
    ensures k <= |s| && AllDigits(s[..k])
    ensures k < |s| ==> !IsDigit(s[k])
  {
    if s != [] && IsDigit(s[0]) then
      var k := 1 + DigitPrefixLength(s[1..]);
      assert s[..k] == [s[0]] + s[1..][..k - 1];
      k
    else 0
  }

  /** The value of the longest leading run of digits of `u`; `None` when `u` does not start with a digit. */
  function ParseDigits(u: string): Option<nat>
  {
    var k := DigitPrefixLength(u);
    if k == 0 then None else Some(DigitsValue(u[..k]))
  }

  /**
   * `parseInt(s, 10)`: skip leading whitespace, read an optional sign, then the
   * longest run of decimal digits; `None` (NaN) when there is no digit.
   */
  function ParseInt(s: string): Option<int>
  {
    var t := TrimStart(s);
    var negative := |t| > 0 && t[0] == '-';
    var u := if |t| > 0 && (t[0] == '+' || t[0] == '-') then t[1..] else t;
    match ParseDigits(u)
    case None => None
    case Some(v) => Some(if negative then -(v as int) else v)
  }

  lemma {:induction false} DigitsValueOfNatToString(n: nat)
    ensures DigitsValue(NatToString(n)) == n
  {
    if n >= 10 {
      var r := NatToString(n);
      DigitsValueOfNatToString(n / 10);
      assert r[..|r| - 1] == NatToString(n / 10);
    }
  }

  lemma DigitPrefixOfDigits(s: string)
    requires AllDigits(s)
    ensures DigitPrefixLength(s) == |s|
  {
    if s != [] {
      DigitPrefixOfDigits(s[1..]);
    }
  }

  lemma ParseDigitsOfDigits(d: string)
    requires |d| >= 1 && AllDigits(d)
    ensures ParseDigits(d) == Some(DigitsValue(d))
  {
    DigitPrefixOfDigits(d);
    assert d[..|d|] == d;
  }

  lemma ParseIntOfUnsigned(d: string)
    requires |d| >= 1 && AllDigits(d)
    ensures ParseInt(d) == Some(DigitsValue(d))
  {
    assert IsDigit(d[0]);
    assert TrimStart(d) == d;
    assert !(d[0] == '+' || d[0] == '-');
    ParseDigitsOfDigits(d);
  }

  /** A leading minus sign negates whatever the digits after it are worth. */
  lemma ParseIntAfterMinus(s: string)
    requires |s| >= 1 && s[0] == '-'
    ensures ParseInt(s) == match ParseDigits(s[1..]) case None => None case Some(v) => Some(-(v as int))
  {
    assert TrimStart(s) == s;
  }

  lemma ParseIntOfNegative(s: string)
    requires |s| >= 2 && s[0] == '-' && AllDigits(s[1..])
    ensures ParseInt(s) == Some(-(DigitsValue(s[1..]) as int))
  {
    ParseIntAfterMinus(s);
    ParseDigitsOfDigits(s[1..]);
  }

  lemma ParseIntOfMinusNat(m: nat)
    ensures ParseInt("-" + NatToString(m)) == Some(-(m as int))
  {
    var d := NatToString(m);
    var s := "-" + d;
    assert s[1..] == d;
    ParseIntOfNegative(s);
    DigitsValueOfNatToString(m);
  }

  /** The digit run stops at the first non-digit. */
  lemma {:induction false} DigitPrefixBeforeNonDigit(d: string, rest: string)
    requires AllDigits(d) && rest != [] && !IsDigit(rest[0])
    ensures DigitPrefixLength(d + rest) == |d|
    decreases |d|
  {
    var s := d + rest;
    if d != [] {
      assert s[0] == d[0] && IsDigit(d[0]);
      assert s[1..] == d[1..] + rest;
      assert AllDigits(d[1..]) by {
        forall i | 0 <= i < |d[1..]| ensures IsDigit(d[1..][i]) {
          assert d[1..][i] == d[i + 1];
        }
      }
      DigitPrefixBeforeNonDigit(d[1..], rest);
      assert DigitPrefixLength(s) == 1 + DigitPrefixLength(s[1..]);
    } else {
      assert s == rest;
      assert DigitPrefixLength(s) == 0;
    }
  }

  /** `parseInt` reads a run of digits up to the first character after it that is not a digit. */
  lemma ParseIntOfDigitsThen(d: string, rest: string)
    requires |d| >= 1 && AllDigits(d) && rest != [] && !IsDigit(rest[0])
    ensures ParseInt(d + rest) == Some(DigitsValue(d))
  {
    var s := d + rest;
    assert s[0] == d[0];
    ParseIntOfDigitStart(s);
    DigitPrefixBeforeNonDigit(d, rest);
    assert s[..|d|] == d;
  }

  /** A string that starts with a digit is read by its digit run alone. */
  lemma ParseIntOfDigitStart(s: string)
    requires s != [] && IsDigit(s[0])
    ensures ParseInt(s) == match ParseDigits(s) case None => None case Some(v) => Some(v as int)
  {
    assert !IsWhitespace(s[0]);
    assert TrimStart(s) == s;
  }

  /** `parseInt(String(n), 10) == n` for every integer `n`. */
  lemma ParseIntOfIntToString(n: int)
    ensures ParseInt(IntToString(n)) == Some(n)
  {
    if n < 0 {
      ParseIntOfMinusNat(-n);
    } else {
      DigitsValueOfNatToString(n);
      ParseIntOfUnsigned(NatToString(n));
    }
  }

  // ---------------------------------------------------------------------------
  // parseInt(s) without a radix: decimal, or hexadecimal after "0x"/"0X"
  // ---------------------------------------------------------------------------

  predicate IsHexDigit(c: char)
  {
    IsDigit(c) || 'a' <= c <= 'f' || 'A' <= c <= 'F'
  }

  predicate AllHexDigits(s: string)
  {
    forall i :: 0 <= i < |s| ==> IsHexDigit(s[i])
  }

  function HexDigitValue(c: char): (v: nat)
    requires IsHexDigit(c)
    ensures v < 16
    ensures IsDigit(c) ==> v == DigitValue(c)
  {
    if IsDigit(c) then DigitValue(c)
    else if 'a' <= c <= 'f' then (c as int) - ('a' as int) + 10
    else (c as int) - ('A' as int) + 10
  }

  /** The value of a string of hexadecimal digits. */
  function HexValue(s: string): nat
    requires AllHexDigits(s)
  {
    if s == [] then 0 else HexValue(s[..|s| - 1]) * 16 + HexDigitValue(s[|s| - 1])
  }

  /** Length of the longest all-hex-digit prefix. */
  function HexPrefixLength(s: string): (k: nat)
    ensures k <= |s| && AllHexDigits(s[..k])
    ensures k < |s| ==> !IsHexDigit(s[k])
  {
    if s != [] && IsHexDigit(s[0]) then
      var k := 1 + HexPrefixLength(s[1..]);
      assert s[..k] == [s[0]] + s[1..][..k - 1];
      k
    else 0
  }

  /** The value of the longest leading run of hex digits of `u`; `None` when there is none. */
  function ParseHexDigits(u: string): Option<nat>
  {
    var k := HexPrefixLength(u);
    if k == 0 then None else Some(HexValue(u[..k]))
  }

  /** `u` starts with the prefix that switches a radix-less `parseInt` to base 16. */
  predicate HasHexPrefix(u: string)
  {
    |u| >= 2 && u[0] == '0' && (u[1] == 'x' || u[1] == 'X')
  }

  /** What follows an optional leading sign. */
  function AfterSign(t: string): (u: string)
    ensures u == t || (t != [] && u == t[1..] && (t[0] == '+' || t[0] == '-'))
  {
    if |t| > 0 && (t[0] == '+' || t[0] == '-') then t[1..] else t
  }

  /**
   * `parseInt(s)` with no radix argument: skip leading whitespace, read an
   * optional sign; then "0x" or "0X" selects base 16 and anything else base
   * 10, and the longest run of digits of that base is read. `None` (NaN)
   * when the run is empty, so "0x" alone is NaN.
   */
  function ParseIntAnyRadix(s: string): Option<int>
  {
    var t := TrimStart(s);
    var negative := |t| > 0 && t[0] == '-';
    var u := AfterSign(t);
    match if HasHexPrefix(u) then ParseHexDigits(u[2..]) else ParseDigits(u)
    case None => None
    case Some(v) => Some(if negative then -(v as int) else v)
  }

  /** Without the hexadecimal prefix, the radix-less `parseInt` is `parseInt(s, 10)`. */
  lemma ParseIntAnyRadixDecimal(s: string)
    requires !HasHexPrefix(AfterSign(TrimStart(s)))
    ensures ParseIntAnyRadix(s) == ParseInt(s)
  {
    var t := TrimStart(s);
    var u := AfterSign(t);
    assert u == if |t| > 0 && (t[0] == '+' || t[0] == '-') then t[1..] else t;
    var negative := |t| > 0 && t[0] == '-';
    var r := match ParseDigits(u) case None => None case Some(v) => Some(if negative then -(v as int) else v);
    assert ParseInt(s) == r;
    assert ParseIntAnyRadix(s) == r;
  }

  lemma {:induction false} HexPrefixOfHexDigits(s: string)
    requires AllHexDigits(s)
    ensures HexPrefixLength(s) == |s|
    decreases |s|
  {
    if s != [] {
      assert AllHexDigits(s[1..]) by {
        forall i | 0 <= i < |s[1..]| ensures IsHexDigit(s[1..][i]) {
          assert s[1..][i] == s[i + 1];
        }
      }
      HexPrefixOfHexDigits(s[1..]);
    }
  }

  lemma ParseHexDigitsOfHex(h: string)
    requires |h| >= 1 && AllHexDigits(h)
    ensures ParseHexDigits(h) == Some(HexValue(h))
  {
    HexPrefixOfHexDigits(h);
    assert h[..|h|] == h;
  }

  /** "0x" followed by hex digits reads as their base-16 value. */
  lemma ParseIntAnyRadixOfHex(h: string)
    requires |h| >= 1 && AllHexDigits(h)
    ensures ParseIntAnyRadix("0x" + h) == Some(HexValue(h))
  {
    var s := "0x" + h;
    assert !IsWhitespace(s[0]);
    assert TrimStart(s) == s;
    assert AfterSign(s) == s;
    assert HasHexPrefix(s) && s[2..] == h;
    ParseHexDigitsOfHex(h);
  }

  /**
   * The two readings part on "0x" and hex digits: base 10 stops at the 'x'
   * and gives 0, the radix-less one reads the digits in base 16.
   */
  lemma RadixlessReadsHex(h: string)
    requires |h| >= 1 && AllHexDigits(h)
    ensures ParseIntAnyRadix("0x" + h) == Some(HexValue(h))
    ensures ParseInt("0x" + h) == Some(0)
  {
    ParseIntAnyRadixOfHex(h);
    DecimalStopsAtX(h);
  }

  lemma DecimalStopsAtX(h: string)
    ensures ParseInt("0x" + h) == Some(0)
  {
    var zero := "0";
    var rest := "x" + h;
    assert "0x" + h == zero + rest;
    assert AllDigits(zero) && !IsDigit(rest[0]);
    ParseIntOfDigitsThen(zero, rest);
    assert DigitsValue(zero) == 0 by {
      assert zero[..0] == [];
    }
  }

  lemma HexValueOfOneDigit(c: char)
    requires IsHexDigit(c)
    ensures AllHexDigits([c]) && HexValue([c]) == HexDigitValue(c)
  {
    assert [c][..0] == [];
  }

  /** `parseInt(String(n)) == n`: a decimal rendering never starts with "0x". */
  lemma ParseIntAnyRadixOfIntToString(n: int)
    ensures ParseIntAnyRadix(IntToString(n)) == Some(n)
  {
    var s := IntToString(n);
    var d := NatToString(if n < 0 then -n else n);
    assert AfterSign(TrimStart(s)) == d by {
      assert !IsWhitespace(s[0]);
      assert TrimStart(s) == s;
      if n < 0 {
        assert s[1..] == d;
      } else {
        assert !(s[0] == '+' || s[0] == '-');
      }
    }
    assert !HasHexPrefix(d);
    ParseIntAnyRadixDecimal(s);
    ParseIntOfIntToString(n);
  }

  // ---------------------------------------------------------------------------
  // Global literal replacement
  // ---------------------------------------------------------------------------

  /**
   * `s.replace(new RegExp(escaped(p), 'g'), v)`: every occurrence of `p`,
   * scanning left to right without overlap, replaced by `v`.
   */
  function ReplaceAll(s: string, p: string, v: string): (r: string)
    requires |p| > 0
    decreases |s|
  {
    if |s| < |p| then s
    else if s[..|p|] == p then v + ReplaceAll(s[|p|..], p, v)
    else [s[0]] + ReplaceAll(s[1..], p, v)
  }

  /** Replacement leaves a string alone when the pattern does not occur in it. */
  lemma {:induction false} ReplaceAllAbsent(s: string, p: string, v: string)
    requires |p| > 0 && !Contains(s, p)
    ensures ReplaceAll(s, p, v) == s
    decreases |s|
  {
    if |s| >= |p| {
      assert s[..|p|] != p;
      ReplaceAllAbsent(s[1..], p, v);
      assert [s[0]] + s[1..] == s;
    }
  }

  /**
   * A prefix that cannot start an occurrence (it has no copy of the pattern's
   * first character) passes through replacement unchanged.
   */
  lemma {:induction false} ReplaceAllSkipsPrefix(a: string, b: string, p: string, v: string)
    requires |p| > 0 && p[0] !in a
    ensures ReplaceAll(a + b, p, v) == a + ReplaceAll(b, p, v)
    decreases |a|
  {
    if a == [] {
      assert a + b == b;
    } else {
      var s := a + b;
      if |s| >= |p| {
        assert s[..|p|] != p by {
          assert s[..|p|][0] == a[0];
          assert a[0] != p[0];
        }
        assert p[0] !in a[1..] by {
          assert forall k :: 0 <= k < |a[1..]| ==> a[1..][k] == a[k + 1];
        }
        calc {
          ReplaceAll(s, p, v);
          [s[0]] + ReplaceAll(s[1..], p, v);
          { assert s[0] == a[0] && s[1..] == a[1..] + b; }
          [a[0]] + ReplaceAll(a[1..] + b, p, v);
          { ReplaceAllSkipsPrefix(a[1..], b, p, v); }
          [a[0]] + (a[1..] + ReplaceAll(b, p, v));
          a + ReplaceAll(b, p, v);
        }
      } else {
        assert ReplaceAll(s, p, v) == s;
        assert ReplaceAll(b, p, v) == b;
      }
    }
  }
}

/**
  The string primitives the core relies on from .NET, written out: integer formatting
  and `int.TryParse`, `Split`/`string.Join` on one separator character, `Trim`,
  ASCII `ToLowerInvariant`, single-character `Replace`, and an ordinal string order.
 */
module Strings {
  import opened Wrappers

  const MinInt32: int := -0x8000_0000
  const MaxInt32: int := 0x7FFF_FFFF

  predicate IsDigit(c: char) {
    '0' <= c <= '9'
  }

  predicate AllDigits(s: string) {
    forall k :: 0 <= k < |s| ==> IsDigit(s[k])
  }

  function DigitChar(d: nat): (c: char)
    requires d < 10
    ensures IsDigit(c) && c as int - '0' as int == d
  {
    (d + '0' as int) as char
  }

  /** Decimal digits of `n`, most significant first, without leading zeros. */
  function FormatNat(n: nat): (s: string)
    ensures 1 <= |s| && AllDigits(s)
    ensures (s[0] == '0') == (n == 0)
    decreases n
  {
    if n < 10 then [DigitChar(n)] else FormatNat(n / 10) + [DigitChar(n % 10)]
  }

  /** `int.ToString()` in the invariant culture. */
  function FormatInt(n: int): (s: string)
    ensures 1 <= |s| && (s[0] == '-') == (n < 0)
    ensures IsDigit(s[|s| - 1])
  {
    if n < 0 then "-" + FormatNat(-n) else FormatNat(n)
  }

  /** The number a run of decimal digits denotes. */
  function DigitsValue(s: string): nat
    requires AllDigits(s)
    decreases |s|
  {
    if |s| == 0 then 0 else DigitsValue(s[..|s| - 1]) * 10 + (s[|s| - 1] as int - '0' as int)
  }

  lemma {:induction false} DigitsValueOfFormat(n: nat)
    ensures DigitsValue(FormatNat(n)) == n
    decreases n
  {
    if n >= 10 {
      var s := FormatNat(n / 10);
      DigitsValueOfFormat(n / 10);
      assert FormatNat(n) == s + [DigitChar(n % 10)];
      assert (s + [DigitChar(n % 10)])[..|s|] == s;
    }
  }

  /** The characters `NumberStyles.AllowLeadingWhite`/`AllowTrailingWhite` accept: U+0009 to U+000D and U+0020. */
  predicate IsWhite(c: char) {
    c == ' ' || '\t' <= c <= '\r'
  }

  /** `TrimStart`: drops the leading characters satisfying `drop`. */
  function TrimStart(s: string, drop: char -> bool): (r: string)
    ensures |r| <= |s| && r == s[|s| - |r|..]
    ensures forall k :: 0 <= k < |s| - |r| ==> drop(s[k])
    ensures |r| > 0 ==> !drop(r[0])
    decreases |s|
  {
    if |s| > 0 && drop(s[0]) then TrimStart(s[1..], drop) else s
  }

  /** `TrimEnd`: drops the trailing characters satisfying `drop`. */
  function TrimEnd(s: string, drop: char -> bool): (r: string)
    ensures |r| <= |s| && r == s[..|r|]
    ensures forall k :: |r| <= k < |s| ==> drop(s[k])
    ensures |r| > 0 ==> !drop(r[|r| - 1])
    decreases |s|
  {
    if |s| > 0 && drop(s[|s| - 1]) then TrimEnd(s[..|s| - 1], drop) else s
  }

  /**
    `Trim`: `s` without its leading and trailing characters satisfying `drop`; `TrimInfix`
    states that the result is the middle of `s`.
   */
  function Trim(s: string, drop: char -> bool): (r: string)
    ensures |r| <= |s|
    ensures |r| == 0 || (!drop(r[0]) && !drop(r[|r| - 1]))
    ensures (forall k :: 0 <= k < |s| ==> drop(s[k])) ==> r == []
  {
    TrimEnd(TrimStart(s, drop), drop)
  }

  /**
    What `Trim` keeps is the contiguous middle of `s`: everything before it and everything
    after it satisfies `drop`.
   */
  lemma TrimInfix(s: string, drop: char -> bool)
    ensures var i := |s| - |TrimStart(s, drop)|;
            var r := Trim(s, drop);
            && i + |r| <= |s| && (forall k :: 0 <= k < |r| ==> r[k] == s[i + k])
            && (forall k :: 0 <= k < i ==> drop(s[k]))
            && (forall k :: i + |r| <= k < |s| ==> drop(s[k]))
  {
    var t := TrimStart(s, drop);
    var r := TrimEnd(t, drop);
    assert Trim(s, drop) == r;
    TwoTrims(s, t, r, drop);
  }

  /** A prefix trimmed off, then a suffix: what is left is the middle. */
  lemma TwoTrims(s: string, t: string, r: string, drop: char -> bool)
    requires |t| <= |s| && t == s[|s| - |t|..] && forall k :: 0 <= k < |s| - |t| ==> drop(s[k])
    requires |r| <= |t| && r == t[..|r|] && forall k :: |r| <= k < |t| ==> drop(t[k])
    ensures var i := |s| - |t|;
            && i + |r| <= |s| && (forall k :: 0 <= k < |r| ==> r[k] == s[i + k])
            && (forall k :: 0 <= k < i ==> drop(s[k]))
            && (forall k :: i + |r| <= k < |s| ==> drop(s[k]))
  {
    var i := |s| - |t|;
    forall k | 0 <= k < |r| ensures r[k] == s[i + k] {
      assert r[k] == t[k];
    }
    forall k | i + |r| <= k < |s| ensures drop(s[k]) {
      assert s[k] == t[k - i];
    }
  }

  lemma TrimUntouched(s: string, drop: char -> bool)
    requires |s| > 0 && !drop(s[0]) && !drop(s[|s| - 1])
    ensures Trim(s, drop) == s
  {
  }

  /**
    `int.TryParse(s, out n)` with `NumberStyles.Integer`: optional surrounding white space,
    an optional `+` or `-`, at least one decimal digit, and a value that fits in 32 bits.
   */
  function ParseInt(s: string): (r: Option<int>)
    ensures r.Some? ==> MinInt32 <= r.value <= MaxInt32
    ensures (forall k :: 0 <= k < |s| ==> !IsDigit(s[k])) ==> r.None?
  {
    TrimInfix(s, IsWhite);
    ParseSigned(Trim(s, IsWhite))
  }

  /** The sign-and-digits part of `ParseInt`, after the white space is trimmed. */
  function ParseSigned(t: string): (r: Option<int>)
    ensures r.Some? ==> MinInt32 <= r.value <= MaxInt32
    ensures r.Some? ==> |t| > 0 && IsDigit(t[|t| - 1])
  {
    var negative := |t| > 0 && t[0] == '-';
    var digits := if |t| > 0 && (t[0] == '-' || t[0] == '+') then t[1..] else t;
    if |digits| == 0 || !AllDigits(digits) then None
    else
      var value: int := DigitsValue(digits);
      var v := if negative then -value else value;
      if MinInt32 <= v <= MaxInt32 then Some(v) else None
  }

  /** Parsing what `FormatInt` prints gives the number back, for every 32-bit value. */
  lemma ParseFormatInt(n: int)
    requires MinInt32 <= n <= MaxInt32
    ensures ParseInt(FormatInt(n)) == Some(n)
  {
    var s := FormatInt(n);
    TrimUntouched(s, IsWhite);
    assert ParseInt(s) == ParseSigned(s);
    if n < 0 {
      ParseNegative(-n);
    } else {
      ParseNonNegative(n);
    }
  }

  lemma ParseNonNegative(n: nat)
    requires n <= MaxInt32
    ensures ParseSigned(FormatNat(n)) == Some(n)
  {
    DigitsValueOfFormat(n);
  }

  lemma ParseNegative(n: nat)
    requires 0 < n <= -MinInt32
    ensures ParseSigned("-" + FormatNat(n)) == Some(-(n as int))
  {
    var t := "-" + FormatNat(n);
    assert t[1..] == FormatNat(n);
    DigitsValueOfFormat(n);
  }

  /** `string.Join(sep, parts)`. */
  function Join(parts: seq<string>, sep: char): string
    decreases |parts|
  {
    if |parts| == 0 then ""
    else if |parts| == 1 then parts[0]
    else parts[0] + [sep] + Join(parts[1..], sep)
  }

  /** `s.Split(sep)`: the pieces between separators, empty pieces included; never an empty list. */
  function Split(s: string, sep: char): (parts: seq<string>)
    ensures |parts| >= 1
    ensures forall k :: 0 <= k < |parts| ==> sep !in parts[k]
    ensures Join(parts, sep) == s
    decreases |s|
  {
    if |s| == 0 then [""]
    else
      var rest := Split(s[1..], sep);
      if s[0] == sep then
        assert s == [sep] + s[1..];
        [""] + rest
      else
        var parts := [[s[0]] + rest[0]] + rest[1..];
        assert parts[1..] == rest[1..];
        assert s == [s[0]] + s[1..];
        parts
  }

  lemma {:induction false} SplitWithoutSeparator(p: string, sep: char)
    requires sep !in p
    ensures Split(p, sep) == [p]
    decreases |p|
  {
    if |p| > 0 {
      SplitWithoutSeparator(p[1..], sep);
      assert [p[0]] + p[1..] == p;
    }
  }

  lemma {:induction false} SplitAfterFirst(p: string, t: string, sep: char)
    requires sep !in p
    ensures Split(p + [sep] + t, sep) == [p] + Split(t, sep)
    decreases |p|
  {
    var s := p + [sep] + t;
    if |p| == 0 {
      assert s[1..] == t;
    } else {
      assert s[1..] == p[1..] + [sep] + t;
      SplitAfterFirst(p[1..], t, sep);
      assert [p[0]] + p[1..] == p;
    }
  }

  /** Splitting a join of separator-free pieces gives the pieces back: `Split` and `Join` are inverse. */
  lemma {:induction false} SplitJoin(parts: seq<string>, sep: char)
    requires |parts| >= 1
    requires forall k :: 0 <= k < |parts| ==> sep !in parts[k]
    ensures Split(Join(parts, sep), sep) == parts
    decreases |parts|
  {
    if |parts| == 1 {
      SplitWithoutSeparator(parts[0], sep);
    } else {
      SplitJoin(parts[1..], sep);
      SplitAfterFirst(parts[0], Join(parts[1..], sep), sep);
    }
  }

  /** `char.ToLowerInvariant` on ASCII letters; every other character is left as it is. */
  function LowerChar(c: char): char {
    if 'A' <= c <= 'Z' then (c as int + 32) as char else c
  }

  function ToLower(s: string): (r: string)
    ensures |r| == |s| && forall k :: 0 <= k < |s| ==> r[k] == LowerChar(s[k])
  {
    seq(|s|, k requires 0 <= k < |s| => LowerChar(s[k]))
  }

  /** `s.Replace(from, to)` for single characters. */
  function ReplaceChar(s: string, from: char, to: char): (r: string)
    ensures |r| == |s| && forall k :: 0 <= k < |s| ==> r[k] == (if s[k] == from then to else s[k])
  {
    seq(|s|, k requires 0 <= k < |s| => if s[k] == from then to else s[k])
  }

  /** Lexicographic order on characters: a proper prefix comes first. */
  predicate StringLe(a: string, b: string)
    decreases |a|
  {
    |a| == 0 || (|b| > 0 && (a[0] < b[0] || (a[0] == b[0] && StringLe(a[1..], b[1..]))))
  }

  /** A string is strictly after each of its proper prefixes. */
  lemma {:induction false} PrefixBefore(a: string, b: string)
    requires |b| < |a| && b == a[..|b|]
    ensures StringLe(b, a) && !StringLe(a, b)
    decreases |b|
  {
    if |b| > 0 {
      assert a[1..][..|b| - 1] == b[1..];
      PrefixBefore(a[1..], b[1..]);
    }
  }

  lemma {:induction false} StringLeTotal(a: string, b: string)
    ensures StringLe(a, b) || StringLe(b, a)
    decreases |a|
  {
    if |a| > 0 && |b| > 0 && a[0] == b[0] {
      StringLeTotal(a[1..], b[1..]);
    }
  }

  lemma {:induction false} StringLeTransitive(a: string, b: string, c: string)
    requires StringLe(a, b) && StringLe(b, c)
    ensures StringLe(a, c)
    decreases |a|
  {
    if |a| > 0 && a[0] == b[0] && b[0] == c[0] {
      StringLeTransitive(a[1..], b[1..], c[1..]);
    }
  }
}

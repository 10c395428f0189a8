/** The JavaScript string operations the core relies on, over `seq<char>`. */
module Strings {

  function Min(a: int, b: int): int
  {
    if a <= b then a else b
  }

  predicate IsPrefix<T(==)>(p: seq<T>, s: seq<T>)
  {
    |p| <= |s| && s[..|p|] == p
  }

  /** `s.startsWith(p)`: an exact, case-sensitive prefix test. */
  predicate StartsWith(s: string, p: string)
  {
    IsPrefix(p, s)
  }

  /** True when `s` ends with `suffix`, i.e. a regular expression `suffix$` matches `s`. */
  predicate EndsWith(s: string, suffix: string)
  {
    |suffix| <= |s| && s[|s| - |suffix|..] == suffix
  }

  /** `s.substring(0, n)` for `n >= 0`: the end index is clamped to the length. */
  function Prefix(s: string, n: nat): (r: string)
    ensures IsPrefix(r, s)
    ensures |r| == Min(|s|, n)
    ensures |s| <= n ==> r == s
  {
    s[..Min(|s|, n)]
  }

  predicate IsUpperAscii(c: char)
  {
    'A' <= c <= 'Z'
  }

  function LowerChar(c: char): (d: char)
    ensures !IsUpperAscii(d)
    ensures IsUpperAscii(c) ==> d as int == c as int + 32
    ensures !IsUpperAscii(c) ==> d == c
  {
    if IsUpperAscii(c) then (c as int + 32) as char else c
  }

  /** `s.toLowerCase()`, restricted to the ASCII letters. */
  function ToLower(s: string): (r: string)
    ensures |r| == |s|
    ensures forall i :: 0 <= i < |r| ==> !IsUpperAscii(r[i])
    ensures forall i :: 0 <= i < |s| && IsUpperAscii(s[i]) ==> r[i] as int == s[i] as int + 32
    ensures forall i :: 0 <= i < |s| && !IsUpperAscii(s[i]) ==> r[i] == s[i]
  {
    seq(|s|, i requires 0 <= i < |s| => LowerChar(s[i]))
  }

  /** Lower-casing twice is lower-casing once. */
  lemma ToLowerIdempotent(s: string)
    ensures ToLower(ToLower(s)) == ToLower(s)
  {
  }

  /**
   * The characters `String.prototype.trim` removes: the ECMAScript WhiteSpace
   * set (tab, vertical tab, form feed, space, no-break space, byte order mark
   * and the Space_Separator category) and the LineTerminator set.
   */
  predicate IsJsWhitespace(c: char)
  {
    || c == '\t' || c == '\U{0B}' || c == '\U{0C}' || c == ' '
    || c == '\U{A0}' || c == '\U{FEFF}'
    || c == '\U{1680}' || ('\U{2000}' <= c <= '\U{200A}')
    || c == '\U{202F}' || c == '\U{205F}' || c == '\U{3000}'
    || c == '\n' || c == '\r' || c == '\U{2028}' || c == '\U{2029}'
  }

  predicate AllWhitespace(s: string)
  {
    forall i :: 0 <= i < |s| ==> IsJsWhitespace(s[i])
  }

  /** Prepending a whitespace character keeps a string all whitespace. */
  lemma AllWhitespaceCons(c: char, s: string)
    requires IsJsWhitespace(c) && AllWhitespace(s)
    ensures AllWhitespace([c] + s)
  {
    forall i | 0 <= i < |[c] + s|
      ensures IsJsWhitespace(([c] + s)[i])
    {
      if i > 0 {
        assert ([c] + s)[i] == s[i - 1];
      }
    }
  }

  /** Appending a whitespace character keeps a string all whitespace. */
  lemma AllWhitespaceSnoc(s: string, c: char)
    requires AllWhitespace(s) && IsJsWhitespace(c)
    ensures AllWhitespace(s + [c])
  {
    forall i | 0 <= i < |s + [c]|
      ensures IsJsWhitespace((s + [c])[i])
    {
      if i < |s| {
        assert (s + [c])[i] == s[i];
      }
    }
  }

  /** Drops the longest whitespace prefix. */
  function TrimStart(s: string): string
    decreases |s|
  {
    if |s| > 0 && IsJsWhitespace(s[0]) then TrimStart(s[1..]) else s
  }

  /** `TrimStart` cuts only whitespace off the front, and stops at the first other character. */
  lemma {:induction false} TrimStartCuts(s: string)
    ensures var r := TrimStart(s);
      && |r| <= |s| && r == s[|s| - |r|..]
      && AllWhitespace(s[..|s| - |r|])
      && (r == [] || !IsJsWhitespace(r[0]))
    decreases |s|
  {
    if |s| > 0 && IsJsWhitespace(s[0]) {
      TrimStartCuts(s[1..]);
      var r := TrimStart(s[1..]);
      assert TrimStart(s) == r;
      var k := |s| - 1 - |r|;
      assert s[1..][k..] == s[k + 1..];
      assert s[..k + 1] == [s[0]] + s[1..][..k];
      AllWhitespaceCons(s[0], s[1..][..k]);
    } else {
      assert s[..0] == [];
    }
  }

  /** Drops the longest whitespace suffix. */
  function TrimEnd(s: string): string
    decreases |s|
  {
    if |s| > 0 && IsJsWhitespace(s[|s| - 1]) then TrimEnd(s[..|s| - 1]) else s
  }

  /** `TrimEnd` cuts only whitespace off the back, and stops at the last other character. */
  lemma {:induction false} TrimEndCuts(s: string)
    ensures var r := TrimEnd(s);
      && |r| <= |s| && r == s[..|r|]
      && AllWhitespace(s[|r|..])
      && (r == [] || !IsJsWhitespace(r[|r| - 1]))
    decreases |s|
  {
    if |s| > 0 && IsJsWhitespace(s[|s| - 1]) {
      var init := s[..|s| - 1];
      TrimEndCuts(init);
      var r := TrimEnd(init);
      assert TrimEnd(s) == r;
      assert init[..|r|] == s[..|r|];
      assert s[|r|..] == init[|r|..] + [s[|s| - 1]];
      AllWhitespaceSnoc(init[|r|..], s[|s| - 1]);
    } else {
      assert s[|s|..] == [];
    }
  }

  /** `s.trim()`: `s` with its leading and trailing whitespace removed. */
  function Trim(s: string): (r: string)
  {
    TrimEnd(TrimStart(s))
  }

  /**
   * The trimmed string is a contiguous slice of `s` with only whitespace
   * cut on either side, and it neither starts nor ends with whitespace.
   */
  lemma TrimIsSlice(s: string) returns (i: nat, j: nat)
    ensures i <= j <= |s|
    ensures Trim(s) == s[i..j]
    ensures AllWhitespace(s[..i]) && AllWhitespace(s[j..])
    ensures Trim(s) == [] || (!IsJsWhitespace(Trim(s)[0]) && !IsJsWhitespace(Trim(s)[|Trim(s)| - 1]))
  {
    var t := TrimStart(s);
    TrimStartCuts(s);
    TrimEndCuts(t);
    i := |s| - |t|;
    j := i + |TrimEnd(t)|;
    var r := TrimEnd(t);
    assert t == s[i..];
    assert r == t[..|r|];
    assert s[j..] == t[|r|..];
    if r != [] {
      assert r[0] == t[0];
    }
  }

  /** Trimming yields the empty string exactly when `s` is all whitespace. */
  lemma TrimEmptyIff(s: string)
    ensures Trim(s) == [] <==> AllWhitespace(s)
  {
    var i, j := TrimIsSlice(s);
    if Trim(s) == [] {
      forall k | 0 <= k < |s|
        ensures IsJsWhitespace(s[k])
      {
        if k < i {
          assert s[k] == s[..i][k];
        } else {
          assert s[k] == s[j..][k - j];
        }
      }
    } else {
      assert s[i] == Trim(s)[0];
    }
  }

  /** Trimming is idempotent. */
  lemma TrimIdempotent(s: string)
    ensures Trim(Trim(s)) == Trim(s)
  {
    var i, j := TrimIsSlice(s);
    var t := Trim(s);
    if t != [] {
      assert TrimStart(t) == t;
      assert TrimEnd(t) == t;
    }
  }

  predicate IsDigit(c: char)
  {
    '0' <= c <= '9'
  }

  function DigitChar(d: nat): (c: char)
    requires d < 10
    ensures IsDigit(c)
  {
    "0123456789"[d]
  }

  function DigitValue(c: char): (d: nat)
    requires IsDigit(c)
    ensures d < 10 && DigitChar(d) == c
  {
    c as int - '0' as int
  }

  predicate AllDigits(s: string)
  {
    forall i :: 0 <= i < |s| ==> IsDigit(s[i])
  }

  /** The decimal rendering of a non-negative integer, as a template literal `${n}` prints it. */
  function DecimalString(n: nat): (r: string)
    ensures |r| >= 1 && AllDigits(r)
    ensures r[0] == '0' ==> r == "0"
  {
    if n < 10 then [DigitChar(n)] else DecimalString(n / 10) + [DigitChar(n % 10)]
  }

  /** Reads a string of decimal digits back as a number. */
  function DecimalValue(s: string): nat
    requires AllDigits(s)
  {
    if s == [] then 0 else 10 * DecimalValue(s[..|s| - 1]) + DigitValue(s[|s| - 1])
  }

  /** The decimal rendering loses nothing: reading it back gives the number. */
  lemma {:induction false} DecimalRoundTrip(n: nat)
    ensures DecimalValue(DecimalString(n)) == n
  {
    var r := DecimalString(n);
    if n < 10 {
      assert r[..0] == [];
      assert DigitValue(r[0]) == n;
    } else {
      var q, d := n / 10, n % 10;
      assert n == 10 * q + d;
      assert r == DecimalString(q) + [DigitChar(d)];
      assert r[..|r| - 1] == DecimalString(q);
      assert DigitValue(r[|r| - 1]) == d;
      DecimalRoundTrip(q);
    }
  }
}

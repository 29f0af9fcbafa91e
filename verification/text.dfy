/** Character classes and the `String.prototype` operations the components use:
    ASCII case mapping, `trim`, `includes`, and decimal rendering of integers. */
module Text {

  predicate IsDigit(c: char) { '0' <= c <= '9' }

  /** `[0-9A-Fa-f]` */
  predicate IsHexDigit(c: char) { IsDigit(c) || ('A' <= c <= 'F') || ('a' <= c <= 'f') }

  /** `[0-9A-F]` */
  predicate IsUpperHexDigit(c: char) { IsDigit(c) || ('A' <= c <= 'F') }

  /** `[a-zA-Z0-9]` */
  predicate IsAlphanumeric(c: char) { IsDigit(c) || ('A' <= c <= 'Z') || ('a' <= c <= 'z') }

  /** `toUpperCase` on one character, restricted to ASCII letters. */
  function UpperChar(c: char): char
  {
    if 'a' <= c <= 'z' then (c as int - 32) as char else c
  }

  /** `toLowerCase` on one character, restricted to ASCII letters. */
  function LowerChar(c: char): char
  {
    if 'A' <= c <= 'Z' then (c as int + 32) as char else c
  }

  function ToUpper(s: string): string
  {
    seq(|s|, i requires 0 <= i < |s| => UpperChar(s[i]))
  }

  function ToLower(s: string): string
  {
    seq(|s|, i requires 0 <= i < |s| => LowerChar(s[i]))
  }

  lemma ToUpperAppend(a: string, b: string)
    ensures ToUpper(a + b) == ToUpper(a) + ToUpper(b)
  {
  }

  lemma ToUpperIdempotent(s: string)
    ensures ToUpper(ToUpper(s)) == ToUpper(s)
  {
  }

  // ---------------------------------------------------------------- trim

  /** The characters `String.prototype.trim` removes: ECMAScript WhiteSpace
      and LineTerminator code points. */
  predicate IsJsWhitespace(c: char)
  {
    c == '\t' || c == '\n' || c == '\U{B}' || c == '\U{C}' || c == '\r' || c == ' '
    || c == '\U{A0}' || c == '\U{1680}' || ('\U{2000}' <= c <= '\U{200A}')
    || c == '\U{2028}' || c == '\U{2029}' || c == '\U{202F}' || c == '\U{205F}'
    || c == '\U{3000}' || c == '\U{FEFF}'
  }

  /** Drops leading whitespace: the result is a suffix of `s` whose removed
      prefix is all whitespace and whose first character is not. */
  function TrimStart(s: string): (r: string)
    ensures |r| <= |s| && r == s[|s| - |r|..]
    ensures forall i :: 0 <= i < |s| - |r| ==> IsJsWhitespace(s[i])
    ensures |r| == 0 || !IsJsWhitespace(r[0])
    decreases |s|
  {
    if |s| > 0 && IsJsWhitespace(s[0]) then TrimStart(s[1..]) else s
  }

  /** Drops trailing whitespace: the result is a prefix of `s` whose removed
      suffix is all whitespace and whose last character is not. */
  function TrimEnd(s: string): (r: string)
    ensures |r| <= |s| && r == s[..|r|]
    ensures forall i :: |r| <= i < |s| ==> IsJsWhitespace(s[i])
    ensures |r| == 0 || !IsJsWhitespace(r[|r| - 1])
    decreases |s|
  {
    if |s| > 0 && IsJsWhitespace(s[|s| - 1]) then TrimEnd(s[..|s| - 1]) else s
  }

  /** `s.trim()`. It is empty exactly when every character of `s` is whitespace. */
  function Trim(s: string): (r: string)
    ensures |r| == 0 || (!IsJsWhitespace(r[0]) && !IsJsWhitespace(r[|r| - 1]))
    ensures |r| == 0 <==> forall i :: 0 <= i < |s| ==> IsJsWhitespace(s[i])
  {
    TrimEmptyIffBlank(s);
    TrimEnd(TrimStart(s))
  }

  /** The trimmed text is a slice of `s`, starting where the leading
      whitespace ends. */
  lemma TrimIsSlice(s: string)
    ensures var a, r := |s| - |TrimStart(s)|, Trim(s); a + |r| <= |s| && r == s[a..a + |r|]
  {
    var t := TrimStart(s);
    var a, r := |s| - |t|, TrimEnd(t);
    assert r == t[..|r|] == s[a..][..|r|];
    assert s[a..][..|r|] == s[a..a + |r|];
  }

  /** Only whitespace lies before and after that slice. */
  lemma TrimDropsOnlyWhitespace(s: string)
    ensures var a, r := |s| - |TrimStart(s)|, Trim(s);
      (forall i :: 0 <= i < a ==> IsJsWhitespace(s[i]))
      && (forall i :: a + |r| <= i < |s| ==> IsJsWhitespace(s[i]))
  {
    var t := TrimStart(s);
    var a, r := |s| - |t|, TrimEnd(t);
    TailWhitespace(s, a, |r|);
  }

  /** Whitespace after position `n` of the suffix `s[a..]` is whitespace
      after position `a + n` of `s`. */
  lemma TailWhitespace(s: string, a: nat, n: nat)
    requires a + n <= |s|
    requires forall i :: n <= i < |s[a..]| ==> IsJsWhitespace(s[a..][i])
    ensures forall i :: a + n <= i < |s| ==> IsJsWhitespace(s[i])
  {
    forall i | a + n <= i < |s|
      ensures IsJsWhitespace(s[i])
    {
      assert s[i] == s[a..][i - a];
    }
  }

  lemma TrimEmptyIffBlank(s: string)
    ensures |TrimEnd(TrimStart(s))| == 0 <==> forall i :: 0 <= i < |s| ==> IsJsWhitespace(s[i])
    ensures |TrimEnd(TrimStart(s))| > 0 ==> TrimEnd(TrimStart(s))[0] == TrimStart(s)[0]
  {
    var t := TrimStart(s);
    var k := |s| - |t|;
    if |TrimEnd(t)| == 0 {
      assert |t| == 0;
    }
    if |t| > 0 {
      assert t[0] == s[k];
    }
  }

  // ---------------------------------------------------------------- includes

  /** `t` occurs in `s` starting at index `i`. */
  predicate OccursAt(s: string, t: string, i: nat)
  {
    i + |t| <= |s| && s[i..i + |t|] == t
  }

  /** `s.includes(t)`, scanning start positions left to right. The scan finds
      `t` exactly when some start position holds it. */
  function Includes(s: string, t: string): (b: bool)
    ensures b <==> exists i: nat :: OccursAt(s, t, i)
    decreases |s|
  {
    OccursShift(s, t);
    OccursAt(s, t, 0) || (|s| > 0 && Includes(s[1..], t))
  }

  /** An occurrence is at the start or, shifted by one, an occurrence in the
      tail; an empty string has no other start position than 0. */
  lemma OccursShift(s: string, t: string)
    ensures |s| == 0 ==> ((exists i: nat :: OccursAt(s, t, i)) <==> OccursAt(s, t, 0))
    ensures |s| > 0 ==> ((exists i: nat :: OccursAt(s, t, i))
                         <==> OccursAt(s, t, 0) || exists i: nat :: OccursAt(s[1..], t, i))
  {
    if |s| == 0 {
      if exists i: nat :: OccursAt(s, t, i) {
        var i: nat :| OccursAt(s, t, i);
        assert i == 0;
      }
    } else {
      forall i: nat
        ensures OccursAt(s[1..], t, i) <==> OccursAt(s, t, i + 1)
      {
        if i + 1 + |t| <= |s| {
          assert s[1..][i..i + |t|] == s[i + 1..i + 1 + |t|];
        }
      }
      if exists i: nat :: OccursAt(s, t, i) {
        var i: nat :| OccursAt(s, t, i);
        if i > 0 {
          assert OccursAt(s[1..], t, i - 1);
        }
      }
    }
  }

  /** Every string includes the empty string. */
  lemma IncludesEmpty(s: string)
    ensures Includes(s, "")
  {
    assert OccursAt(s, "", 0);
  }

  // ---------------------------------------------------------------- decimal numbers

  function DigitChar(d: nat): (c: char)
    requires d < 10
    ensures IsDigit(c)
  {
    ('0' as int + d) as char
  }

  /** `n.toString()` for a non-negative integer: decimal digits, most
      significant first, with no leading zero. */
  function NatToDecimal(n: nat): (s: string)
    ensures |s| >= 1
    ensures forall i :: 0 <= i < |s| ==> IsDigit(s[i])
    ensures s[0] == '0' ==> n == 0
    decreases n
  {
    if n < 10 then [DigitChar(n)] else NatToDecimal(n / 10) + [DigitChar(n % 10)]
  }

  /** The number a string of decimal digits denotes. */
  function DecimalValue(s: string): nat
    requires forall i :: 0 <= i < |s| ==> IsDigit(s[i])
    decreases |s|
  {
    if |s| == 0 then 0
    else
      assert IsDigit(s[|s| - 1]);
      DecimalValue(s[..|s| - 1]) * 10 + (s[|s| - 1] as int - '0' as int)
  }

  /** Reading back a rendered number gives the number. */
  lemma {:induction false} DecimalRoundTrip(n: nat)
    ensures DecimalValue(NatToDecimal(n)) == n
    decreases n
  {
    var s := NatToDecimal(n);
    if n >= 10 {
      DecimalRoundTrip(n / 10);
      assert s[..|s| - 1] == NatToDecimal(n / 10);
    }
  }

  /** Distinct numbers render as distinct strings. */
  lemma NatToDecimalInjective(a: nat, b: nat)
    ensures NatToDecimal(a) == NatToDecimal(b) ==> a == b
  {
    DecimalRoundTrip(a);
    DecimalRoundTrip(b);
  }

  /** Template-literal rendering `${i}` of an integer: decimal digits, with a
      leading `-` exactly for a negative number, reading back to the number. */
  function IntToDecimal(i: int): (s: string)
    ensures |s| >= 1
    ensures s[0] == '-' <==> i < 0
    ensures s[0] == '0' ==> i == 0
    ensures i < 0 ==> |s| >= 2 && s[1] != '0'
    ensures forall k :: (if i < 0 then 1 else 0) <= k < |s| ==> IsDigit(s[k])
    ensures i >= 0 ==> DecimalValue(s) == i
    ensures i < 0 ==> DecimalValue(s[1..]) == -i
  {
    DecimalRoundTrip(if i < 0 then -i else i);
    if i < 0 then "-" + NatToDecimal(-i) else NatToDecimal(i)
  }

  /** Distinct integers render as distinct strings. */
  lemma IntToDecimalInjective(a: int, b: int)
    ensures IntToDecimal(a) == IntToDecimal(b) ==> a == b
  {
    if IntToDecimal(a) == IntToDecimal(b) {
      if a < 0 && b < 0 {
        assert NatToDecimal(-a) == IntToDecimal(a)[1..];
        NatToDecimalInjective(-a, -b);
      } else if a >= 0 && b >= 0 {
        NatToDecimalInjective(a, b);
      }
    }
  }
}

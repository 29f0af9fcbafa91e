/** MAC address entry in the add-device form: the validator used at
    submission and the formatter applied to every keystroke. */
module MacAddress {
  import opened Seqs
  import opened Text

  predicate IsSeparator(c: char) { c == ':' || c == '-' }

  /** The characters a MAC address in either accepted notation is made of. */
  predicate IsMacCharacter(c: char) { IsHexDigit(c) || IsSeparator(c) }

  // ---------------------------------------------------------------- validation

  /** `s` matches `([0-9A-Fa-f]{2}[:-]){groups}[0-9A-Fa-f]{2}` in full: the
      pattern is read group by group, as the regular expression engine does. */
  predicate MatchesGroups(s: string, groups: nat)
    decreases groups
  {
    if groups == 0 then |s| == 2 && IsHexDigit(s[0]) && IsHexDigit(s[1])
    else
      |s| >= 3 && IsHexDigit(s[0]) && IsHexDigit(s[1]) && IsSeparator(s[2])
      && MatchesGroups(s[3..], groups - 1)
  }

  /** `validateMacAddress`: the anchored pattern `^([0-9A-Fa-f]{2}[:-]){5}[0-9A-Fa-f]{2}$`. */
  predicate ValidateMacAddress(mac: string)
  {
    MatchesGroups(mac, 5)
  }

  /** Every third character, from index 2, is a separator; all others are hex digits. */
  predicate HasMacLayout(s: string)
  {
    forall i :: 0 <= i < |s| ==> if i % 3 == 2 then IsSeparator(s[i]) else IsHexDigit(s[i])
  }

  /** Reference reading of a valid address, position by position: seventeen
      characters, separators at 2, 5, 8, 11 and 14 (mixed `:` and `-`
      allowed), hex digits of either case elsewhere. */
  predicate IsMacLayout(s: string)
  {
    |s| == 17 && HasMacLayout(s)
  }

  lemma LayoutShift(s: string)
    requires |s| >= 3
    ensures HasMacLayout(s) <==>
      IsHexDigit(s[0]) && IsHexDigit(s[1]) && IsSeparator(s[2]) && HasMacLayout(s[3..])
  {
    if HasMacLayout(s) {
      forall i | 0 <= i < |s| - 3
        ensures if i % 3 == 2 then IsSeparator(s[3..][i]) else IsHexDigit(s[3..][i])
      {
        assert s[3..][i] == s[i + 3] && (i + 3) % 3 == i % 3;
      }
    }
    if IsHexDigit(s[0]) && IsHexDigit(s[1]) && IsSeparator(s[2]) && HasMacLayout(s[3..]) {
      forall i | 3 <= i < |s|
        ensures if i % 3 == 2 then IsSeparator(s[i]) else IsHexDigit(s[i])
      {
        assert s[i] == s[3..][i - 3] && (i - 3) % 3 == i % 3;
      }
    }
  }

  /** The group-by-group match accepts exactly the strings of length
      `3 * groups + 2` with the positional layout. */
  lemma {:induction false} MatchesGroupsIff(s: string, groups: nat)
    ensures MatchesGroups(s, groups) <==> |s| == 3 * groups + 2 && HasMacLayout(s)
    decreases groups
  {
    if groups > 0 && |s| >= 3 {
      MatchesGroupsIff(s[3..], groups - 1);
      LayoutShift(s);
    }
  }

  /** `validateMacAddress` accepts a string iff it has the positional layout. */
  lemma ValidateMacAddressIff(mac: string)
    ensures ValidateMacAddress(mac) <==> IsMacLayout(mac)
  {
    MatchesGroupsIff(mac, 5);
  }

  // ---------------------------------------------------------------- formatting

  /** `value.replace(/[^0-9A-Fa-f]/g, '')`: the hex digits of `value`, in order.
      `HexOnlyKeepsExactlyHex` states that each is kept as often as it occurs. */
  function HexOnly(value: string): (r: string)
    ensures |r| <= |value|
    ensures forall i :: 0 <= i < |r| ==> IsHexDigit(r[i])
    ensures |r| == |value| <==> forall i :: 0 <= i < |value| ==> IsHexDigit(value[i])
  {
    HexOnlyFull(value);
    Keep(value, IsHexDigit)
  }

  /** Stripping removes a character exactly when some character is not a hex digit. */
  lemma {:induction false} HexOnlyFull(value: string)
    ensures |Keep(value, IsHexDigit)| == |value| <==> forall i :: 0 <= i < |value| ==> IsHexDigit(value[i])
    decreases |value|
  {
    if |value| > 0 {
      HexOnlyFull(value[1..]);
      if !IsHexDigit(value[0]) {
        assert |Keep(value, IsHexDigit)| <= |value[1..]|;
      }
    }
  }

  /** Stripping keeps the hex digits of `value` in their order, each as often
      as it occurs there, and nothing else. */
  lemma HexOnlyKeepsExactlyHex(value: string)
    ensures IsSubsequence(HexOnly(value), value)
    ensures forall c :: multiset(HexOnly(value))[c] == if IsHexDigit(c) then multiset(value)[c] else 0
  {
    KeepSubsequence(value, IsHexDigit);
    KeepMultiplicity(value, IsHexDigit);
  }

  /** `cleaned.match(/.{1,2}/g)?.join(':') || cleaned`: consecutive pairs joined
      by `:`, the last chunk possibly a single character. For empty `cleaned`
      the match is `null` and the fallback is the empty string as well. */
  function Pairs(c: string): (r: string)
    ensures |c| == 0 ==> |r| == 0
    ensures |c| > 0 ==> |r| == |c| + (|c| - 1) / 2
    ensures forall i :: 0 <= i < |r| ==> r[i] == ':' || r[i] in c
    decreases |c|
  {
    if |c| <= 2 then c else c[..2] + ":" + Pairs(c[2..])
  }

  /** `formatMacAddress`: strip non-hex characters, pair the rest with `:`,
      and cut at 17 characters. The result is at most 17 characters of hex
      digits and `:`, a `:` at every third position and never at the end; its
      hex digits are the first twelve of the input, and it is empty exactly
      when the input holds no hex digit. */
  function FormatMacAddress(value: string): (r: string)
    ensures |r| <= 17
    ensures forall i :: 0 <= i < |r| ==> IsHexDigit(r[i]) || r[i] == ':'
    ensures forall i :: 0 <= i < |r| ==> (r[i] == ':' <==> i % 3 == 2)
    ensures HexOnly(r) == Take(HexOnly(value), 12)
    ensures |r| == 0 <==> |HexOnly(value)| == 0
    ensures |r| == 0 || r[|r| - 1] != ':'
    ensures var d := Take(HexOnly(value), 12); |d| > 0 ==> |r| == |d| + (|d| - 1) / 2
  {
    var c := HexOnly(value);
    TakePairs(c, 6);
    HexOnlyOfPairs(Take(c, 12));
    PairsColons(c);
    PairsLast(Take(c, 12));
    Take(Pairs(c), 17)
  }

  /** Pairing ends with the last character paired, never with a separator. */
  lemma {:induction false} PairsLast(c: string)
    ensures |c| > 0 ==> Pairs(c)[|Pairs(c)| - 1] == c[|c| - 1]
    decreases |c|
  {
    if |c| > 2 {
      PairsStep(c);
      PairsLast(c[2..]);
    }
  }

  /** One step of the pairing: the first two characters, a colon, then the rest paired. */
  lemma PairsStep(c: string)
    requires |c| > 2
    ensures Pairs(c) == c[..2] + ":" + Pairs(c[2..])
  {
  }

  /** Cutting `c` at `2 * k` characters keeps its first pair and cuts the rest
      at `2 * (k - 1)`. */
  lemma TakeStep(c: string, k: nat)
    requires |c| > 2 && k >= 2
    ensures |Take(c, 2 * k)| > 2
    ensures Take(c, 2 * k)[..2] == c[..2]
    ensures Take(c, 2 * k)[2..] == Take(c[2..], 2 * (k - 1))
  {
  }

  /** Cutting the paired text after `k` pairs is pairing the first `2k` characters. */
  lemma {:induction false} TakePairs(c: string, k: nat)
    requires k >= 1
    ensures Take(Pairs(c), 3 * k - 1) == Pairs(Take(c, 2 * k))
    decreases k
  {
    if |c| > 2 {
      PairsStep(c);
      if k == 1 {
        assert Pairs(c)[..2] == c[..2];
      } else {
        var head, rest := c[..2] + ":", c[2..];
        TakeAppend(head, Pairs(rest), 3 * k - 1);
        TakePairs(rest, k - 1);
        var t := Take(c, 2 * k);
        TakeStep(c, k);
        PairsStep(t);
      }
    }
  }

  /** In pairs of hex digits the separators sit exactly at every third
      position. */
  lemma {:induction false} PairsColons(c: string)
    requires forall i :: 0 <= i < |c| ==> IsHexDigit(c[i])
    ensures forall i :: 0 <= i < |Pairs(c)| ==> (Pairs(c)[i] == ':' <==> i % 3 == 2)
    decreases |c|
  {
    var r := Pairs(c);
    if |c| <= 2 {
      assert r == c;
    } else {
      var rest := Pairs(c[2..]);
      PairsColons(c[2..]);
      PairsStep(c);
      forall i | 0 <= i < |r|
        ensures r[i] == ':' <==> i % 3 == 2
      {
        if i >= 3 {
          assert r[i] == rest[i - 3];
          assert (i - 3) % 3 == i % 3;
        } else if i < 2 {
          assert r[i] == c[i];
        }
      }
    }
  }

  /** Pairing only inserts separators: stripping them gives the hex digits back. */
  lemma {:induction false} HexOnlyOfPairs(c: string)
    requires forall i :: 0 <= i < |c| ==> IsHexDigit(c[i])
    ensures HexOnly(Pairs(c)) == c
    decreases |c|
  {
    if |c| <= 2 {
      KeepAll(c, IsHexDigit);
    } else {
      var p := Pairs(c);
      assert p == c[..2] + ":" + Pairs(c[2..]);
      KeepAppend(c[..2] + ":", Pairs(c[2..]), IsHexDigit);
      KeepAppend(c[..2], ":", IsHexDigit);
      KeepAll(c[..2], IsHexDigit);
      assert Keep(":", IsHexDigit) == [];
      HexOnlyOfPairs(c[2..]);
      assert Keep(p, IsHexDigit) == c[..2] + [] + c[2..];
      assert c[..2] + [] + c[2..] == c;
    }
  }

  /** Pairing `2 * groups + 2` hex digits produces a string the validator's
      pattern accepts with `groups` separated groups. */
  lemma {:induction false} PairsMatchGroups(c: string, groups: nat)
    requires |c| == 2 * groups + 2
    requires forall i :: 0 <= i < |c| ==> IsHexDigit(c[i])
    ensures MatchesGroups(Pairs(c), groups)
    decreases groups
  {
    if groups > 0 {
      PairsMatchGroups(c[2..], groups - 1);
      assert (c[..2] + ":" + Pairs(c[2..]))[3..] == Pairs(c[2..]);
    }
  }

  /** Upper-casing commutes with pairing. */
  lemma {:induction false} ToUpperPairs(c: string)
    ensures ToUpper(Pairs(c)) == Pairs(ToUpper(c))
    decreases |c|
  {
    if |c| > 2 {
      ToUpperPairs(c[2..]);
      ToUpperAppend(c[..2] + ":", Pairs(c[2..]));
      ToUpperAppend(c[..2], ":");
      assert ToUpper(c)[..2] == ToUpper(c[..2]) && ToUpper(c)[2..] == ToUpper(c[2..]);
    }
  }

  /** Upper-casing keeps hex digits hex and everything else non-hex, so it
      commutes with stripping non-hex characters. */
  lemma {:induction false} HexOnlyToUpper(s: string)
    ensures HexOnly(ToUpper(s)) == ToUpper(HexOnly(s))
    decreases |s|
  {
    if |s| > 0 {
      var u := ToUpper(s);
      assert u[0] == UpperChar(s[0]) && u[1..] == ToUpper(s[1..]);
      assert IsHexDigit(u[0]) <==> IsHexDigit(s[0]);
      HexOnlyToUpper(s[1..]);
      if IsHexDigit(s[0]) {
        ToUpperAppend([s[0]], HexOnly(s[1..]));
      }
    }
  }

  /** The formatted text is the pairing of the first twelve hex digits. */
  lemma FormatIsPairsOfFirstTwelve(value: string)
    ensures FormatMacAddress(value) == Pairs(Take(HexOnly(value), 12))
  {
    TakePairs(HexOnly(value), 6);
  }

  /** Formatting an already formatted address returns it unchanged. */
  lemma FormatIdempotent(value: string)
    ensures FormatMacAddress(FormatMacAddress(value)) == FormatMacAddress(value)
  {
    var r := FormatMacAddress(value);
    FormatIsPairsOfFirstTwelve(value);
    FormatIsPairsOfFirstTwelve(r);
  }

  /** The formatted text (and its upper-cased form, which the form stores)
      passes validation exactly when the input holds at least twelve hex digits. */
  lemma FormatValidatesIff(value: string)
    ensures ValidateMacAddress(FormatMacAddress(value)) <==> |HexOnly(value)| >= 12
    ensures ValidateMacAddress(ToUpper(FormatMacAddress(value))) <==> |HexOnly(value)| >= 12
  {
    var c := Take(HexOnly(value), 12);
    FormatIsPairsOfFirstTwelve(value);
    PairsValidatesIff(c);
  }

  /** Up to twelve hex digits, paired, pass validation (upper-cased or not)
      exactly when there are twelve of them. */
  lemma PairsValidatesIff(c: string)
    requires |c| <= 12 && forall i :: 0 <= i < |c| ==> IsHexDigit(c[i])
    ensures ValidateMacAddress(Pairs(c)) <==> |c| == 12
    ensures ValidateMacAddress(ToUpper(Pairs(c))) <==> |c| == 12
  {
    if |c| == 12 {
      PairsMatchGroups(c, 5);
      ToUpperPairs(c);
      ToUpperKeepsHex(c);
      PairsMatchGroups(ToUpper(c), 5);
    } else {
      ShortPairsInvalid(c);
    }
  }

  /** Upper-casing moves no separator: `:` stays where it was and appears
      nowhere else; a hex digit becomes an upper-case hex digit. */
  lemma ToUpperColons(r: string)
    ensures |ToUpper(r)| == |r|
    ensures forall i :: 0 <= i < |r| ==> (ToUpper(r)[i] == ':' <==> r[i] == ':')
    ensures forall i :: 0 <= i < |r| && IsHexDigit(r[i]) ==> IsUpperHexDigit(ToUpper(r)[i])
  {
    forall i | 0 <= i < |r|
      ensures ToUpper(r)[i] == ':' <==> r[i] == ':'
      ensures IsHexDigit(r[i]) ==> IsUpperHexDigit(ToUpper(r)[i])
    {
      assert ToUpper(r)[i] == UpperChar(r[i]);
    }
  }

  /** Upper-casing hex digits gives hex digits. */
  lemma ToUpperKeepsHex(c: string)
    requires forall i :: 0 <= i < |c| ==> IsHexDigit(c[i])
    ensures |ToUpper(c)| == |c| && forall i :: 0 <= i < |c| ==> IsHexDigit(ToUpper(c)[i])
  {
    forall i | 0 <= i < |c|
      ensures IsHexDigit(ToUpper(c)[i])
    {
      assert ToUpper(c)[i] == UpperChar(c[i]);
    }
  }

  /** Fewer than twelve digits pair up to fewer than seventeen characters,
      too short for the validator. */
  lemma ShortPairsInvalid(c: string)
    requires |c| < 12
    ensures !ValidateMacAddress(Pairs(c)) && !ValidateMacAddress(ToUpper(Pairs(c)))
  {
    var r := Pairs(c);
    assert |r| < 17;
    MatchesGroupsIff(r, 5);
    MatchesGroupsIff(ToUpper(r), 5);
  }

  /** An address in the canonical colon notation consists of its hex digits paired. */
  lemma {:induction false} ColonLayoutIsPairs(s: string, groups: nat)
    requires |s| == 3 * groups + 2 && HasMacLayout(s)
    requires forall i :: 0 <= i < |s| && i % 3 == 2 ==> s[i] == ':'
    ensures |HexOnly(s)| == 2 * groups + 2 && Pairs(HexOnly(s)) == s
    decreases groups
  {
    if groups == 0 {
      KeepAll(s, IsHexDigit);
    } else {
      LayoutShift(s);
      var rest := s[3..];
      forall i | 0 <= i < |rest| && i % 3 == 2 ensures rest[i] == ':' {
        assert rest[i] == s[i + 3] && (i + 3) % 3 == i % 3;
      }
      ColonLayoutIsPairs(rest, groups - 1);
      assert s == s[..2] + ":" + rest;
      KeepAll(s[..2], IsHexDigit);
      KeepAppend(s[..2], ":", IsHexDigit);
      KeepAppend(s[..2] + ":", rest, IsHexDigit);
      var h := HexOnly(s);
      assert h == s[..2] + HexOnly(rest);
      assert h[..2] == s[..2] && h[2..] == HexOnly(rest);
    }
  }

  /** Formatting leaves an address in canonical colon notation unchanged. */
  lemma CanonicalIsFormatted(mac: string)
    requires IsMacLayout(mac)
    requires forall i :: 0 <= i < |mac| && i % 3 == 2 ==> mac[i] == ':'
    ensures FormatMacAddress(mac) == mac
  {
    ColonLayoutIsPairs(mac, 5);
    FormatIsPairsOfFirstTwelve(mac);
  }
}

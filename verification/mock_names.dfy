/** The display names given to sample devices. */
module MockNames {
  import opened Text

  /** `s.replace(a, b)` with a one-character string pattern: at most one
      character changes, and only an `a` can become a `b`. */
  function ReplaceFirst(s: string, a: char, b: char): (r: string)
    ensures |r| == |s|
    ensures forall j :: 0 <= j < |s| ==> r[j] == s[j] || (s[j] == a && r[j] == b)
    ensures a !in s ==> r == s
  {
    if |s| == 0 then s
    else if s[0] == a then [b] + s[1..]
    else [s[0]] + ReplaceFirst(s[1..], a, b)
  }

  /** The character replaced is the first occurrence of `a`. */
  lemma {:induction false} ReplaceFirstAt(s: string, a: char, b: char, k: nat)
    requires k < |s| && s[k] == a && a !in s[..k]
    ensures ReplaceFirst(s, a, b) == s[k := b]
    decreases k
  {
    if k == 0 {
      assert s[k := b] == [b] + s[1..];
    } else {
      assert s[0] in s[..k];
      assert s[1..][..k - 1] == s[1..k];
      ReplaceFirstAt(s[1..], a, b, k - 1);
      UpdateAfterHead(s, k, b);
    }
  }

  /** Updating past the head updates the tail. */
  lemma UpdateAfterHead(s: string, k: nat, b: char)
    requires 0 < k < |s|
    ensures s[k := b] == [s[0]] + s[1..][k - 1 := b]
  {
    var u, v := s[k := b], [s[0]] + s[1..][k - 1 := b];
    assert |u| == |v|;
    forall j | 0 <= j < |u| ensures u[j] == v[j] {
      if j > 0 {
        assert v[j] == s[1..][k - 1 := b][j - 1];
      }
    }
  }

  /** The first occurrence of `a` is always replaced. */
  lemma ReplaceFirstHitsFirst(s: string, a: char, b: char)
    ensures forall k :: 0 <= k < |s| && s[k] == a && a !in s[..k] ==> ReplaceFirst(s, a, b)[k] == b
  {
    forall k | 0 <= k < |s| && s[k] == a && a !in s[..k]
      ensures ReplaceFirst(s, a, b)[k] == b
    {
      ReplaceFirstAt(s, a, b, k);
    }
  }

  /** No other character changes: a changed position holds the first `a`. */
  lemma {:induction false} ReplaceFirstOnlyFirst(s: string, a: char, b: char)
    ensures forall j :: 0 <= j < |s| && ReplaceFirst(s, a, b)[j] != s[j] ==> s[j] == a && a !in s[..j]
    decreases |s|
  {
    if |s| > 0 && s[0] != a {
      var r, r' := ReplaceFirst(s, a, b), ReplaceFirst(s[1..], a, b);
      assert r == [s[0]] + r';
      ReplaceFirstOnlyFirst(s[1..], a, b);
      forall j | 0 < j < |s| && r[j] != s[j]
        ensures s[j] == a && a !in s[..j]
      {
        assert r[j] == r'[j - 1] && s[j] == s[1..][j - 1];
        assert s[..j] == [s[0]] + s[1..][..j - 1];
      }
    }
  }

  /** `type.charAt(0).toUpperCase() + type.slice(1).replace('-', ' ')`: the
      first character upper-cased, the first `-` after it turned into a
      space, every other character kept. */
  function TypeHeading(t: string): (h: string)
    ensures |h| == |t|
    ensures |t| > 0 ==> h[0] == UpperChar(t[0])
    ensures forall j :: 1 <= j < |t| ==> h[j] == t[j] || (t[j] == '-' && h[j] == ' ')
    ensures forall k :: 1 <= k < |t| && t[k] == '-' && '-' !in t[1..k] ==> h[k] == ' '
    ensures forall j :: 1 <= j < |t| && h[j] != t[j] ==> t[j] == '-' && '-' !in t[1..j]
  {
    if |t| == 0 then ""
    else
      HeadingReplacesFirstDash(t);
      [UpperChar(t[0])] + ReplaceFirst(t[1..], '-', ' ')
  }

  /** The replacement in the tail, read at positions of the whole type. */
  lemma HeadingReplacesFirstDash(t: string)
    requires |t| > 0
    ensures var h := [UpperChar(t[0])] + ReplaceFirst(t[1..], '-', ' ');
      (forall k :: 1 <= k < |t| && t[k] == '-' && '-' !in t[1..k] ==> h[k] == ' ')
      && (forall j :: 1 <= j < |t| && h[j] != t[j] ==> t[j] == '-' && '-' !in t[1..j])
  {
    var tail := t[1..];
    var r := ReplaceFirst(tail, '-', ' ');
    var h := [UpperChar(t[0])] + r;
    ReplaceFirstHitsFirst(tail, '-', ' ');
    ReplaceFirstOnlyFirst(tail, '-', ' ');
    forall k | 1 <= k < |t|
      ensures h[k] == r[k - 1] && t[k] == tail[k - 1] && t[1..k] == tail[..k - 1]
    {
    }
  }

  /** The sample name: the type with its first letter upper-cased and its
      first `-` turned into a space, a space, and the device's number. */
  function DisplayName(t: string, i: nat): (name: string)
    ensures |name| == |t| + 1 + |NatToDecimal(i)|
    ensures name[..|t|] == TypeHeading(t)
    ensures name[|t|..] == " " + NatToDecimal(i)
  {
    var h := TypeHeading(t);
    assert (h + " " + NatToDecimal(i))[..|t|] == h;
    h + " " + NatToDecimal(i)
  }

  /** The trailing number reads back: names of devices with different
      numbers differ, whatever their types. */
  lemma DisplayNameNumberInjective(t1: string, t2: string, i: nat, j: nat)
    ensures DisplayName(t1, i) == DisplayName(t2, j) ==> i == j
  {
    var n := DisplayName(t1, i);
    var d1, d2 := NatToDecimal(i), NatToDecimal(j);
    if n == DisplayName(t2, j) {
      assert n[|n| - |d1| - 1] == ' ' by { assert n[|t1|..][0] == ' '; }
      assert n[|n| - |d2| - 1] == ' ' by { assert DisplayName(t2, j)[|t2|..][0] == ' '; }
      if |d1| != |d2| {
        assert false;
      }
      assert d1 == n[|n| - |d1|..] by { assert n[|t1|..][1..] == d1; }
      assert d2 == n[|n| - |d2|..] by { assert n[|t2|..][1..] == d2; }
      NatToDecimalInjective(i, j);
    }
  }
}

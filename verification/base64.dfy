/** The base64 encoding of section 4 of RFC 4648, as performed by `btoa`,
    together with a decoder that serves as its reference inverse. */
module Base64 {
  import opened Wrappers
  import opened Text

  type Byte = x: int | 0 <= x < 256
  type Sextet = x: int | 0 <= x < 64

  const Pad: char := '='

  /** The 64-character alphabet of table 1 in section 4 of RFC 4648. Only
      the values 62 and 63 map outside `[A-Za-z0-9]`. */
  function Symbol(v: Sextet): (c: char)
    ensures IsAlphanumeric(c) <==> v < 62
    ensures c != Pad
  {
    if v < 26 then ('A' as int + v) as char
    else if v < 52 then ('a' as int + (v - 26)) as char
    else if v < 62 then ('0' as int + (v - 52)) as char
    else if v == 62 then '+'
    else '/'
  }

  /** Inverse of `Symbol`; `None` for characters outside the alphabet. */
  function SymbolValue(c: char): Option<Sextet>
  {
    if 'A' <= c <= 'Z' then Some(c as int - 'A' as int)
    else if 'a' <= c <= 'z' then Some(c as int - 'a' as int + 26)
    else if '0' <= c <= '9' then Some(c as int - '0' as int + 52)
    else if c == '+' then Some(62)
    else if c == '/' then Some(63)
    else None
  }

  lemma SymbolRoundTrip(v: Sextet)
    ensures SymbolValue(Symbol(v)) == Some(v)
  {
  }

  /** Three octets become four characters, six bits each, most significant first. */
  function Quantum(b0: Byte, b1: Byte, b2: Byte): string
  {
    [Symbol(b0 / 4), Symbol(b0 % 4 * 16 + b1 / 16), Symbol(b1 % 16 * 4 + b2 / 64), Symbol(b2 % 64)]
  }

  /** Encodes octets; a final group of one or two octets is zero-filled and
      padded with two or one `=`. */
  function Encode(bs: seq<Byte>): (r: string)
    ensures |r| == 4 * ((|bs| + 2) / 3)
    decreases |bs|
  {
    if |bs| == 0 then []
    else if |bs| == 1 then [Symbol(bs[0] / 4), Symbol(bs[0] % 4 * 16), Pad, Pad]
    else if |bs| == 2 then [Symbol(bs[0] / 4), Symbol(bs[0] % 4 * 16 + bs[1] / 16), Symbol(bs[1] % 16 * 4), Pad]
    else Quantum(bs[0], bs[1], bs[2]) + Encode(bs[3..])
  }

  /** Decodes padded base64; `None` for text that is not of that form,
      including a final group whose unused bits before the padding are not
      zero (section 3.5 of RFC 4648), so each byte string has one encoding. */
  function Decode(s: string): Option<seq<Byte>>
    decreases |s|
  {
    if |s| == 0 then Some([])
    else if |s| < 4 then None
    else
      var v0, v1, v2, v3 := SymbolValue(s[0]), SymbolValue(s[1]), SymbolValue(s[2]), SymbolValue(s[3]);
      if v0.None? || v1.None? then None
      else if |s| == 4 && s[2] == Pad && s[3] == Pad then
        if v1.value % 16 == 0 then Some([v0.value * 4 + v1.value / 16]) else None
      else if v2.None? then None
      else if |s| == 4 && s[3] == Pad then
        if v2.value % 4 == 0 then Some([v0.value * 4 + v1.value / 16, v1.value % 16 * 16 + v2.value / 4])
        else None
      else if v3.None? then None
      else
        match Decode(s[4..])
        case None => None
        case Some(rest) =>
          Some([v0.value * 4 + v1.value / 16, v1.value % 16 * 16 + v2.value / 4, v2.value % 4 * 64 + v3.value] + rest)
  }

  /** The bit regrouping of one quantum loses nothing. */
  lemma QuantumArithmetic(b0: Byte, b1: Byte, b2: Byte)
    ensures (b0 / 4) * 4 + (b0 % 4 * 16 + b1 / 16) / 16 == b0
    ensures (b0 % 4 * 16 + b1 / 16) % 16 * 16 + (b1 % 16 * 4 + b2 / 64) / 4 == b1
    ensures (b1 % 16 * 4 + b2 / 64) % 4 * 64 + b2 % 64 == b2
  {
    assert (b0 % 4 * 16 + b1 / 16) / 16 == b0 % 4;
    assert (b0 % 4 * 16 + b1 / 16) % 16 == b1 / 16;
    assert (b1 % 16 * 4 + b2 / 64) / 4 == b1 % 16;
    assert (b1 % 16 * 4 + b2 / 64) % 4 == b2 / 64;
  }

  lemma DecodeSingle(b0: Byte)
    ensures Decode(Encode([b0])) == Some([b0])
  {
    var s := Encode([b0]);
    assert s == [Symbol(b0 / 4), Symbol(b0 % 4 * 16), Pad, Pad];
    SymbolRoundTrip(b0 / 4);
    SymbolRoundTrip(b0 % 4 * 16);
    QuantumArithmetic(b0, 0, 0);
  }

  lemma DecodePair(b0: Byte, b1: Byte)
    ensures Decode(Encode([b0, b1])) == Some([b0, b1])
  {
    var s := Encode([b0, b1]);
    assert s == [Symbol(b0 / 4), Symbol(b0 % 4 * 16 + b1 / 16), Symbol(b1 % 16 * 4), Pad];
    SymbolRoundTrip(b0 / 4);
    SymbolRoundTrip(b0 % 4 * 16 + b1 / 16);
    SymbolRoundTrip(b1 % 16 * 4);
    QuantumArithmetic(b0, b1, 0);
  }

  /** A full quantum in front of decodable text decodes to its three octets. */
  lemma DecodeQuantum(b0: Byte, b1: Byte, b2: Byte, rest: string, tail: seq<Byte>)
    requires Decode(rest) == Some(tail)
    ensures Decode(Quantum(b0, b1, b2) + rest) == Some([b0, b1, b2] + tail)
  {
    var s := Quantum(b0, b1, b2) + rest;
    assert s[4..] == rest;
    SymbolRoundTrip(b0 / 4);
    SymbolRoundTrip(b0 % 4 * 16 + b1 / 16);
    SymbolRoundTrip(b1 % 16 * 4 + b2 / 64);
    SymbolRoundTrip(b2 % 64);
    QuantumArithmetic(b0, b1, b2);
  }

  lemma DecodeEncodeShort(bs: seq<Byte>)
    requires |bs| < 3
    ensures Decode(Encode(bs)) == Some(bs)
  {
    if |bs| == 1 {
      assert bs == [bs[0]];
      DecodeSingle(bs[0]);
    } else if |bs| == 2 {
      assert bs == [bs[0], bs[1]];
      DecodePair(bs[0], bs[1]);
    }
  }

  lemma EncodeStep(bs: seq<Byte>)
    requires |bs| >= 3
    ensures Encode(bs) == Quantum(bs[0], bs[1], bs[2]) + Encode(bs[3..])
  {
  }

  /** Decoding undoes encoding, so `Encode` is injective. */
  lemma {:induction false} DecodeEncode(bs: seq<Byte>)
    ensures Decode(Encode(bs)) == Some(bs)
    decreases |bs|
  {
    if |bs| < 3 {
      DecodeEncodeShort(bs);
    } else {
      var head, rest := [bs[0], bs[1], bs[2]], bs[3..];
      assert head + rest == bs;
      EncodeStep(bs);
      DecodeEncode(rest);
      DecodeQuantum(bs[0], bs[1], bs[2], Encode(rest), rest);
    }
  }

  /** `Symbol` undoes `SymbolValue`. */
  lemma SymbolOfValue(c: char)
    ensures SymbolValue(c).Some? ==> Symbol(SymbolValue(c).value) == c
  {
  }

  /** Regrouping four sextets into three octets loses nothing. */
  lemma OctetArithmetic(v0: Sextet, v1: Sextet, v2: Sextet, v3: Sextet)
    ensures (v0 * 4 + v1 / 16) / 4 == v0
    ensures (v0 * 4 + v1 / 16) % 4 * 16 + (v1 % 16 * 16 + v2 / 4) / 16 == v1
    ensures (v1 % 16 * 16 + v2 / 4) % 16 * 4 + (v2 % 4 * 64 + v3) / 64 == v2
    ensures (v2 % 4 * 64 + v3) % 64 == v3
  {
  }

  /** The octets four sextets decode to encode back to those sextets. */
  lemma QuantumOfSextets(v0: Sextet, v1: Sextet, v2: Sextet, v3: Sextet)
    ensures Quantum(v0 * 4 + v1 / 16, v1 % 16 * 16 + v2 / 4, v2 % 4 * 64 + v3)
      == [Symbol(v0), Symbol(v1), Symbol(v2), Symbol(v3)]
  {
    OctetArithmetic(v0, v1, v2, v3);
  }

  /** A final group with two `=` is the encoding of its one octet. */
  lemma EncodeDecodeDoublePad(s: string)
    requires |s| == 4 && s[2] == Pad && s[3] == Pad && Decode(s).Some?
    ensures Encode(Decode(s).value) == s
  {
    var v0, v1 := SymbolValue(s[0]).value, SymbolValue(s[1]).value;
    var b0: Byte := v0 as int * 4 + v1 as int / 16;
    assert Decode(s).value == [b0];
    SymbolOfValue(s[0]);
    SymbolOfValue(s[1]);
    OctetArithmetic(v0, v1, 0, 0);
    assert Encode([b0]) == [Symbol(b0 / 4), Symbol(b0 % 4 * 16), Pad, Pad];
  }

  /** A final group with one `=` is the encoding of its two octets. */
  lemma EncodeDecodeSinglePad(s: string)
    requires |s| == 4 && s[2] != Pad && s[3] == Pad && Decode(s).Some?
    ensures Encode(Decode(s).value) == s
  {
    var v0, v1, v2 := SymbolValue(s[0]).value, SymbolValue(s[1]).value, SymbolValue(s[2]).value;
    var b0: Byte, b1: Byte := v0 as int * 4 + v1 as int / 16, v1 as int % 16 * 16 + v2 as int / 4;
    assert Decode(s).value == [b0, b1];
    SymbolOfValue(s[0]);
    SymbolOfValue(s[1]);
    SymbolOfValue(s[2]);
    OctetArithmetic(v0, v1, v2, 0);
    assert Encode([b0, b1]) == [Symbol(b0 / 4), Symbol(b0 % 4 * 16 + b1 / 16), Symbol(b1 % 16 * 4), Pad];
  }

  /** What the decoder reads from a leading group without padding. */
  lemma DecodeFullGroup(s: string)
    requires |s| >= 4 && s[3] != Pad && Decode(s).Some?
    ensures SymbolValue(s[0]).Some? && SymbolValue(s[1]).Some?
    ensures SymbolValue(s[2]).Some? && SymbolValue(s[3]).Some?
    ensures Decode(s[4..]).Some?
    ensures var v0, v1 := SymbolValue(s[0]).value as int, SymbolValue(s[1]).value as int;
      var v2, v3 := SymbolValue(s[2]).value as int, SymbolValue(s[3]).value as int;
      Decode(s).value == [v0 * 4 + v1 / 16, v1 % 16 * 16 + v2 / 4, v2 % 4 * 64 + v3] + Decode(s[4..]).value
  {
  }

  /** The octets of a leading group of four symbols, followed by octets
      that encode to the rest of the text, encode to the whole text. */
  lemma EncodeGroup(s: string, rest: seq<Byte>)
    requires |s| >= 4
    requires SymbolValue(s[0]).Some? && SymbolValue(s[1]).Some?
    requires SymbolValue(s[2]).Some? && SymbolValue(s[3]).Some?
    requires Encode(rest) == s[4..]
    ensures var v0, v1 := SymbolValue(s[0]).value as int, SymbolValue(s[1]).value as int;
      var v2, v3 := SymbolValue(s[2]).value as int, SymbolValue(s[3]).value as int;
      Encode([v0 * 4 + v1 / 16, v1 % 16 * 16 + v2 / 4, v2 % 4 * 64 + v3] + rest) == s
  {
    var v0, v1 := SymbolValue(s[0]).value, SymbolValue(s[1]).value;
    var v2, v3 := SymbolValue(s[2]).value, SymbolValue(s[3]).value;
    var b0: Byte, b1: Byte, b2: Byte := v0 as int * 4 + v1 as int / 16,
      v1 as int % 16 * 16 + v2 as int / 4, v2 as int % 4 * 64 + v3 as int;
    var bs := [b0, b1, b2] + rest;
    QuantumOfSextets(v0, v1, v2, v3);
    SymbolOfValue(s[0]);
    SymbolOfValue(s[1]);
    SymbolOfValue(s[2]);
    SymbolOfValue(s[3]);
    assert bs[3..] == rest;
    EncodeStep(bs);
    assert s == s[..4] + s[4..];
  }

  /** Text the decoder accepts is exactly the encoding of what it yields:
      the encoding is the only text that decodes to those octets. */
  lemma {:induction false} EncodeDecode(s: string)
    ensures Decode(s).Some? ==> Encode(Decode(s).value) == s
    decreases |s|
  {
    if |s| >= 4 && Decode(s).Some? {
      if |s| == 4 && s[2] == Pad && s[3] == Pad {
        EncodeDecodeDoublePad(s);
      } else if |s| == 4 && s[3] == Pad {
        EncodeDecodeSinglePad(s);
      } else {
        DecodeFullGroup(s);
        EncodeDecode(s[4..]);
        EncodeGroup(s, Decode(s[4..]).value);
      }
    }
  }

  /** `btoa`'s output is pinned by its decoding: any text that decodes to
      the same octets is that output. */
  lemma BtoaUnique(s: string, t: string)
    requires Btoa(s).Success? && Decode(t) == Some(Latin1Bytes(s))
    ensures t == Btoa(s).value
  {
    EncodeDecode(t);
  }

  lemma EncodeInjective(a: seq<Byte>, b: seq<Byte>)
    ensures Encode(a) == Encode(b) ==> a == b
  {
    DecodeEncode(a);
    DecodeEncode(b);
  }

  /** Encoding splits at any boundary that is a multiple of three octets. */
  lemma {:induction false} EncodeAppend(a: seq<Byte>, b: seq<Byte>)
    requires |a| % 3 == 0
    ensures Encode(a + b) == Encode(a) + Encode(b)
    decreases |a|
  {
    if |a| == 0 {
      assert a + b == b;
    } else {
      assert (a + b)[3..] == a[3..] + b;
      EncodeAppend(a[3..], b);
    }
  }

  /** `btoa` throws `InvalidCharacterError` on a code unit above 0xFF. */
  datatype DomException = InvalidCharacterError

  predicate IsLatin1(s: string)
  {
    forall i :: 0 <= i < |s| ==> s[i] as int < 256
  }

  /** The octets `btoa` encodes: one per character of a Latin-1 string. */
  function Latin1Bytes(s: string): seq<Byte>
    requires IsLatin1(s)
  {
    seq(|s|, i requires 0 <= i < |s| => s[i] as int)
  }

  /** `btoa(s)`: fails exactly on non-Latin-1 text; otherwise its output
      decodes back to the characters of `s`. */
  function Btoa(s: string): (r: Result<string, DomException>)
    ensures r.Success? <==> IsLatin1(s)
    ensures r.Success? ==> Decode(r.value) == Some(Latin1Bytes(s))
  {
    if IsLatin1(s) then
      DecodeEncode(Latin1Bytes(s));
      Success(Encode(Latin1Bytes(s)))
    else Failure(InvalidCharacterError)
  }
}

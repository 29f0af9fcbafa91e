/** The QR hash of a device: `btoa(mac).replace(/[^a-zA-Z0-9]/g, '').substring(0, 12)`,
    computed identically when a device is added on the dashboard and when
    mock devices are generated. */
module QrHash {
  import opened Wrappers
  import opened Seqs
  import opened Text
  import opened Base64
  import opened MacAddress
  import opened Devices

  /** The hash of a MAC string. It fails exactly when `btoa` throws; otherwise
      it is at most twelve alphanumeric characters. */
  function DeriveQrHash(mac: string): (r: Result<string, DomException>)
    ensures r.Success? <==> IsLatin1(mac)
    ensures r.Success? ==> |r.value| <= 12
    ensures r.Success? ==> forall i :: 0 <= i < |r.value| ==> IsAlphanumeric(r.value[i])
  {
    match Btoa(mac)
    case Failure(e) => Failure(e)
    case Success(encoded) => Success(Take(Keep(encoded, IsAlphanumeric), 12))
  }

  /** Every device's `qrHash` is the one derived from its MAC address, as
      both places that create devices compute it. */
  predicate HashesDerived(devices: seq<Device>)
  {
    forall i :: 0 <= i < |devices| ==> DeriveQrHash(devices[i].macAddress) == Success(devices[i].qrHash)
  }

  /** Text made only of hex digits and the separators `:` and `-`. */
  predicate IsMacText(s: string)
  {
    forall i :: 0 <= i < |s| ==> IsMacCharacter(s[i])
  }

  /** The octet values of `0-9`, `:`, `A-F`, `a-f` and `-`. */
  predicate IsMacByte(b: Byte)
  {
    b == 45 || 48 <= b <= 58 || 65 <= b <= 70 || 97 <= b <= 102
  }

  predicate AllMacBytes(bs: seq<Byte>)
  {
    forall i :: 0 <= i < |bs| ==> IsMacByte(bs[i])
  }

  lemma MacTextBytes(s: string)
    requires IsMacText(s)
    ensures IsLatin1(s)
    ensures AllMacBytes(Latin1Bytes(s))
  {
  }

  /** A valid address is MAC text of seventeen characters. */
  lemma ValidAddressIsMacText(mac: string)
    requires ValidateMacAddress(mac)
    ensures |mac| == 17 && IsMacText(mac)
  {
    ValidateMacAddressIff(mac);
  }

  /** The low bits of a MAC octet that the six-bit groups look at. */
  lemma MacByteBits(b: Byte)
    requires IsMacByte(b)
    ensures b / 64 <= 1 && b % 16 <= 13 && b % 64 < 62
  {
    if b == 45 {
      assert b % 16 == 13 && b % 64 == 45;
    } else if b <= 58 {
      assert b % 16 == b - 48 && b % 64 == b;
    } else if b <= 70 {
      assert b % 16 == b - 64 && b % 64 == b - 64;
    } else {
      assert b % 16 == b - 96 && b % 64 == b - 64;
    }
  }

  /** No six-bit group of MAC octets reaches 62, so `+` and `/` never appear. */
  lemma QuantumAlphanumeric(b0: Byte, b1: Byte, b2: Byte)
    requires IsMacByte(b0) && IsMacByte(b1) && IsMacByte(b2)
    ensures forall i :: 0 <= i < 4 ==> IsAlphanumeric(Quantum(b0, b1, b2)[i])
  {
    MacByteBits(b0);
    MacByteBits(b1);
    MacByteBits(b2);
    var q := Quantum(b0, b1, b2);
    assert IsAlphanumeric(q[0]) by { assert b0 / 4 < 62; }
    assert IsAlphanumeric(q[1]) by { assert b0 % 4 * 16 + b1 / 16 < 62; }
    assert IsAlphanumeric(q[2]) by { assert b1 % 16 * 4 + b2 / 64 < 62; }
    assert IsAlphanumeric(q[3]) by { assert b2 % 64 < 62; }
  }

  /** The number of `=` that pad the encoding of `n` octets. */
  function PadCount(n: nat): nat
  {
    (3 - n % 3) % 3
  }

  /** `e` is alphanumeric except for `p` trailing `=`. */
  predicate PaddedAlphanumeric(e: string, p: nat)
  {
    p <= |e|
    && (forall i :: 0 <= i < |e| - p ==> IsAlphanumeric(e[i]))
    && (forall i :: |e| - p <= i < |e| ==> e[i] == Pad)
  }

  /** One MAC octet encodes to two alphanumerics and two `=`. */
  lemma EncodeOneMacByte(bs: seq<Byte>)
    requires |bs| == 1 && IsMacByte(bs[0])
    ensures PaddedAlphanumeric(Encode(bs), 2)
  {
    var e := [Symbol(bs[0] / 4), Symbol(bs[0] % 4 * 16), Pad, Pad];
    assert Encode(bs) == e;
    assert IsAlphanumeric(e[0]) && IsAlphanumeric(e[1]);
  }

  /** Two MAC octets encode to three alphanumerics and one `=`. */
  lemma EncodeTwoMacBytes(bs: seq<Byte>)
    requires |bs| == 2 && IsMacByte(bs[0]) && IsMacByte(bs[1])
    ensures PaddedAlphanumeric(Encode(bs), 1)
  {
    MacByteBits(bs[1]);
    var e := [Symbol(bs[0] / 4), Symbol(bs[0] % 4 * 16 + bs[1] / 16), Symbol(bs[1] % 16 * 4), Pad];
    assert Encode(bs) == e;
    assert IsAlphanumeric(e[0]) && IsAlphanumeric(e[1]) && IsAlphanumeric(e[2]);
  }

  /** The encoding of fewer than three MAC octets. */
  lemma EncodeShortMacBytes(bs: seq<Byte>)
    requires |bs| < 3 && AllMacBytes(bs)
    ensures PaddedAlphanumeric(Encode(bs), PadCount(|bs|))
  {
    if |bs| == 1 {
      assert IsMacByte(bs[0]);
      EncodeOneMacByte(bs);
    } else if |bs| == 2 {
      assert IsMacByte(bs[0]) && IsMacByte(bs[1]);
      EncodeTwoMacBytes(bs);
    }
  }

  lemma PadCountStep(n: nat)
    requires n >= 3
    ensures PadCount(n) == PadCount(n - 3)
  {
    assert n % 3 == (n - 3) % 3;
  }

  /** Four alphanumerics in front keep the shape. */
  lemma PrependAlphanumerics(q: string, e: string, p: nat)
    requires |q| == 4 && forall i :: 0 <= i < 4 ==> IsAlphanumeric(q[i])
    requires PaddedAlphanumeric(e, p)
    ensures PaddedAlphanumeric(q + e, p)
  {
    forall i | 4 <= i < |q + e| ensures (q + e)[i] == e[i - 4] {
    }
  }

  /** The encoding of MAC octets is alphanumeric except for its `=` padding. */
  lemma {:induction false} EncodeMacBytes(bs: seq<Byte>)
    requires AllMacBytes(bs)
    ensures PaddedAlphanumeric(Encode(bs), PadCount(|bs|))
    decreases |bs|
  {
    if |bs| < 3 {
      EncodeShortMacBytes(bs);
    } else {
      assert AllMacBytes(bs[3..]);
      EncodeMacBytes(bs[3..]);
      assert IsMacByte(bs[0]) && IsMacByte(bs[1]) && IsMacByte(bs[2]);
      QuantumAlphanumeric(bs[0], bs[1], bs[2]);
      EncodeStep(bs);
      PrependAlphanumerics(Quantum(bs[0], bs[1], bs[2]), Encode(bs[3..]), PadCount(|bs| - 3));
      PadCountStep(|bs|);
    }
  }

  /** Dropping the non-alphanumerics of such an encoding removes exactly its padding. */
  lemma StripPadding(bs: seq<Byte>)
    requires AllMacBytes(bs)
    ensures PadCount(|bs|) <= |Encode(bs)|
    ensures Keep(Encode(bs), IsAlphanumeric) == Encode(bs)[..|Encode(bs)| - PadCount(|bs|)]
  {
    var e := Encode(bs);
    EncodeMacBytes(bs);
    var m := |e| - PadCount(|bs|);
    assert e == e[..m] + e[m..];
    KeepAppend(e[..m], e[m..], IsAlphanumeric);
    KeepAll(e[..m], IsAlphanumeric);
    KeepNone(e[m..], IsAlphanumeric);
  }

  lemma DeriveOfLatin1(mac: string)
    requires IsLatin1(mac)
    ensures DeriveQrHash(mac) == Success(Take(Keep(Encode(Latin1Bytes(mac)), IsAlphanumeric), 12))
  {
  }

  /** Twelve alphanumerics in front survive stripping and truncation intact. */
  lemma TruncateAfterTwelve(e: string, rest: string)
    requires |e| == 12 && Keep(e, IsAlphanumeric) == e
    ensures Take(Keep(e + rest, IsAlphanumeric), 12) == e
  {
    KeepAppend(e, rest, IsAlphanumeric);
    TakeAppend(e, Keep(rest, IsAlphanumeric), 12);
  }

  /** The octets of MAC text split at its ninth character. */
  lemma SplitMacBytes(mac: string)
    requires IsMacText(mac) && |mac| >= 9
    ensures IsLatin1(mac) && IsLatin1(mac[..9]) && IsLatin1(mac[9..])
    ensures AllMacBytes(Latin1Bytes(mac[..9]))
    ensures Latin1Bytes(mac) == Latin1Bytes(mac[..9]) + Latin1Bytes(mac[9..])
  {
    MacTextBytes(mac);
    MacTextBytes(mac[..9]);
    MacTextBytes(mac[9..]);
  }

  /** Whole groups of three MAC octets encode without padding, so nothing
      is stripped. */
  lemma EncodeWholeGroups(bs: seq<Byte>)
    requires |bs| % 3 == 0 && AllMacBytes(bs)
    ensures Keep(Encode(bs), IsAlphanumeric) == Encode(bs)
  {
    var e := Encode(bs);
    StripPadding(bs);
    PadCountWhole(|bs|);
    assert e[..|e|] == e;
  }

  lemma PadCountWhole(n: nat)
    requires n % 3 == 0
    ensures PadCount(n) == 0
  {
  }

  /** Nine MAC octets encode to twelve alphanumerics, none stripped. */
  lemma EncodeNineMacBytes(head: seq<Byte>)
    requires |head| == 9 && AllMacBytes(head)
    ensures |Encode(head)| == 12 && Keep(Encode(head), IsAlphanumeric) == Encode(head)
  {
    EncodeWholeGroups(head);
  }

  /** For MAC text of at least nine characters the hash is exactly the
      base64 of the first nine: twelve alphanumerics with nothing stripped
      but padding, decided by the first three octets and their separators. */
  lemma QrHashIsEncodedPrefix(mac: string)
    requires IsMacText(mac) && |mac| >= 9
    ensures IsLatin1(mac[..9])
    ensures DeriveQrHash(mac) == Success(Encode(Latin1Bytes(mac[..9])))
    ensures |Encode(Latin1Bytes(mac[..9]))| == 12
  {
    SplitMacBytes(mac);
    var head, tail := Latin1Bytes(mac[..9]), Latin1Bytes(mac[9..]);
    EncodeAppend(head, tail);
    EncodeNineMacBytes(head);
    TruncateAfterTwelve(Encode(head), Encode(tail));
    DeriveOfLatin1(mac);
  }

  /** Fewer than nine octets encode to at most twelve characters. */
  lemma EncodeShortLength(bs: seq<Byte>)
    requires |bs| < 9
    ensures |Encode(bs)| <= 12
  {
    assert (|bs| + 2) / 3 <= 3;
  }

  /** When stripping leaves at most twelve characters, nothing is truncated. */
  lemma HashOfShortStripped(mac: string, stripped: string)
    requires IsLatin1(mac) && |stripped| <= 12
    requires Keep(Encode(Latin1Bytes(mac)), IsAlphanumeric) == stripped
    ensures DeriveQrHash(mac) == Success(stripped)
  {
    DeriveOfLatin1(mac);
    assert Take(stripped, 12) == stripped;
  }

  /** For MAC text shorter than nine characters the hash is the whole
      encoding without its `=` padding. */
  lemma QrHashOfShortMac(mac: string)
    requires IsMacText(mac) && |mac| < 9
    ensures IsLatin1(mac)
    ensures PadCount(|mac|) <= |Encode(Latin1Bytes(mac))|
    ensures var e := Encode(Latin1Bytes(mac));
      DeriveQrHash(mac) == Success(e[..|e| - PadCount(|mac|)])
  {
    MacTextBytes(mac);
    var bs := Latin1Bytes(mac);
    assert |bs| == |mac|;
    var e := Encode(bs);
    StripPadding(bs);
    EncodeShortLength(bs);
    HashOfShortStripped(mac, e[..|e| - PadCount(|mac|)]);
  }

  /** Two MAC texts of at least nine characters share a hash iff their first
      nine characters agree: every device of one vendor prefix collides. */
  lemma QrHashCollisionIff(m1: string, m2: string)
    requires IsMacText(m1) && |m1| >= 9
    requires IsMacText(m2) && |m2| >= 9
    ensures DeriveQrHash(m1) == DeriveQrHash(m2) <==> m1[..9] == m2[..9]
  {
    QrHashIsEncodedPrefix(m1);
    QrHashIsEncodedPrefix(m2);
    var b1, b2 := Latin1Bytes(m1[..9]), Latin1Bytes(m2[..9]);
    EncodeInjective(b1, b2);
    if b1 == b2 {
      forall i | 0 <= i < 9 ensures m1[i] == m2[i] {
        assert b1[i] == b2[i];
      }
    }
  }

  lemma EncodeNine(b: seq<Byte>)
    requires |b| == 9
    ensures Encode(b) == Quantum(b[0], b[1], b[2]) + Quantum(b[3], b[4], b[5]) + Quantum(b[6], b[7], b[8])
  {
    EncodeStep(b);
    EncodeStep(b[3..]);
    assert b[3..][3..] == b[6..];
    EncodeStep(b[6..]);
    assert b[6..][3..] == [];
  }

  lemma QuantumValues()
    ensures Quantum(48, 48, 58) == "MDA6"
    ensures Quantum(49, 66, 58) == "MUI6"
    ensures Quantum(52, 52, 58) == "NDQ6"
  {
    assert Symbol(12) == 'M' && Symbol(3) == 'D' && Symbol(0) == 'A' && Symbol(58) == '6';
    assert Symbol(20) == 'U' && Symbol(8) == 'I';
    assert Symbol(13) == 'N' && Symbol(16) == 'Q';
  }

  /** The base64 of `00:1B:44:`. */
  lemma EncodeVendorPrefix001B44()
    ensures Encode([48, 48, 58, 49, 66, 58, 52, 52, 58]) == "MDA6MUI6NDQ6"
  {
    EncodeNine([48, 48, 58, 49, 66, 58, 52, 52, 58]);
    QuantumValues();
  }

  lemma VendorPrefixBytes001B44(mac: string)
    requires |mac| >= 9 && mac[..9] == "00:1B:44:"
    ensures IsLatin1(mac[..9])
    ensures Latin1Bytes(mac[..9]) == [48, 48, 58, 49, 66, 58, 52, 52, 58]
  {
  }

  /** Every MAC text starting `00:1B:44:` hashes to `MDA6MUI6NDQ6`. */
  lemma HashOfVendorPrefix001B44(mac: string)
    requires IsMacText(mac) && |mac| >= 9 && mac[..9] == "00:1B:44:"
    ensures DeriveQrHash(mac) == Success("MDA6MUI6NDQ6")
  {
    QrHashIsEncodedPrefix(mac);
    VendorPrefixBytes001B44(mac);
    EncodeVendorPrefix001B44();
  }

  /** Two addresses of the same vendor get the same hash, `MDA6MUI6NDQ6`. */
  lemma SameVendorSameHash()
    ensures DeriveQrHash("00:1B:44:11:3A:B7") == Success("MDA6MUI6NDQ6")
    ensures DeriveQrHash("00:1B:44:AA:BB:CC") == Success("MDA6MUI6NDQ6")
  {
    var m1, m2 := "00:1B:44:11:3A:B7", "00:1B:44:AA:BB:CC";
    assert IsMacText(m1);
    assert IsMacText(m2);
    assert m1[..9] == "00:1B:44:";
    assert m2[..9] == "00:1B:44:";
    HashOfVendorPrefix001B44(m1);
    HashOfVendorPrefix001B44(m2);
  }
}

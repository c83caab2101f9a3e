/**
 * The Base64urlUInt encoding of a non-negative integer, as `int_to_base64`
 * computes it for the `n` and `e` members of a JWK (section 6.3.1 of RFC 7518):
 * lowercase hexadecimal digits, left-padded with '0' to an even count,
 * read as big-endian bytes, encoded with the URL- and filename-safe alphabet
 * of section 5 of RFC 4648, and stripped of its '=' padding.
 *
 * The module also holds the decoder that the round trip is stated with.
 */
module Base64Url {
  import opened Wrappers

  type Byte = b: int | 0 <= b < 256
  type Sextet = s: int | 0 <= s < 64

  // ---------------------------------------------------------------------------
  // Hexadecimal digits, as `format(value, 'x')` writes them
  // ---------------------------------------------------------------------------

  predicate IsHexChar(c: char)
  {
    '0' <= c <= '9' || 'a' <= c <= 'f'
  }

  predicate AllHex(s: string)
  {
    forall i :: 0 <= i < |s| ==> IsHexChar(s[i])
  }

  function HexDigitValue(c: char): (d: int)
    requires IsHexChar(c)
    ensures 0 <= d < 16
  {
    if c <= '9' then c as int - '0' as int else c as int - 'a' as int + 10
  }

  /** The lowercase digit for `d`; the two functions are inverse. */
  function HexChar(d: int): (c: char)
    requires 0 <= d < 16
    ensures IsHexChar(c) && HexDigitValue(c) == d
  {
    if d < 10 then ('0' as int + d) as char else ('a' as int + d - 10) as char
  }

  /** The value of a string of hex digits, most significant digit first. */
  function HexValue(s: string): nat
    requires AllHex(s)
  {
    if s == [] then 0 else HexValue(s[..|s| - 1]) * 16 + HexDigitValue(s[|s| - 1])
  }

  /**
   * `format(v, 'x')`: the shortest lowercase hex numeral of `v`, which has a
   * leading '0' only when it is the numeral "0" of zero.
   */
  function HexDigits(v: nat): (s: string)
    ensures |s| >= 1 && AllHex(s)
    ensures s[0] == '0' <==> v == 0
    ensures v == 0 ==> s == "0"
  {
    if v < 16 then [HexChar(v)] else HexDigits(v / 16) + [HexChar(v % 16)]
  }

  /** main.py:33-34: an odd number of digits gets one '0' in front. */
  function PadHex(s: string): (r: string)
    ensures |r| % 2 == 0 && |r| / 2 == (|s| + 1) / 2
    ensures AllHex(s) ==> AllHex(r)
  {
    if |s| % 2 == 1 then "0" + s else s
  }

  /** `bytes.fromhex` on an even-length string of lowercase hex digits. */
  function FromHex(s: string): (bs: seq<Byte>)
    requires |s| % 2 == 0 && AllHex(s)
    ensures |bs| == |s| / 2
  {
    if s == [] then []
    else FromHex(s[..|s| - 2]) + [HexDigitValue(s[|s| - 2]) * 16 + HexDigitValue(s[|s| - 1])]
  }

  /** The unsigned integer that `bs` denotes, most significant byte first. */
  function BytesValue(bs: seq<Byte>): nat
  {
    if bs == [] then 0 else BytesValue(bs[..|bs| - 1]) * 256 + bs[|bs| - 1]
  }

  /** main.py:32-35: the big-endian bytes that `int_to_base64` encodes. */
  function IntToBytes(v: nat): seq<Byte>
  {
    FromHex(PadHex(HexDigits(v)))
  }

  lemma {:induction false} HexDigitsValue(v: nat)
    ensures HexValue(HexDigits(v)) == v
  {
    if v >= 16 {
      var p := HexDigits(v / 16);
      var s := p + [HexChar(v % 16)];
      assert s[..|s| - 1] == p;
      HexDigitsValue(v / 16);
    }
  }

  lemma {:induction false} HexValueLeadingZero(s: string)
    requires AllHex(s)
    ensures AllHex("0" + s) && HexValue("0" + s) == HexValue(s)
  {
    var z := "0" + s;
    assert AllHex(z) by {
      forall i | 0 <= i < |z| ensures IsHexChar(z[i]) {
        if i > 0 { assert z[i] == s[i - 1]; }
      }
    }
    if s == [] {
      assert z[..0] == [];
    } else {
      assert z[..|z| - 1] == "0" + s[..|s| - 1];
      HexValueLeadingZero(s[..|s| - 1]);
    }
  }

  lemma {:induction false} FromHexValue(s: string)
    requires |s| % 2 == 0 && AllHex(s)
    ensures BytesValue(FromHex(s)) == HexValue(s)
  {
    if s != [] {
      var n := |s|;
      var init := s[..n - 2];
      var bs := FromHex(s);
      assert bs[..|bs| - 1] == FromHex(init);
      assert s[..n - 1][..n - 2] == init;
      FromHexValue(init);
    }
  }

  lemma {:induction false} FromHexFirst(s: string)
    requires |s| % 2 == 0 && |s| >= 2 && AllHex(s)
    ensures FromHex(s)[0] == HexDigitValue(s[0]) * 16 + HexDigitValue(s[1])
  {
    if |s| > 2 {
      var init := s[..|s| - 2];
      FromHexFirst(init);
    }
  }

  /** main.py:33-34: padding keeps the value of the numeral. */
  lemma PadHexValue(h: string)
    requires AllHex(h)
    ensures HexValue(PadHex(h)) == HexValue(h)
  {
    if |h| % 2 == 1 {
      HexValueLeadingZero(h);
    }
  }

  lemma LeadingByte(h: string)
    requires AllHex(h) && |h| >= 1 && h[0] != '0'
    ensures FromHex(PadHex(h))[0] != 0
  {
    var p := PadHex(h);
    PadHexValue(h);
    FromHexFirst(p);
    if |h| % 2 == 1 {
      assert p[0] == '0' && p[1] == h[0];
    } else {
      assert p[0] == h[0];
    }
  }

  /**
   * main.py:32-35: the bytes are the big-endian representation of `v`, one
   * byte per pair of padded hex digits, with no leading zero byte except
   * that zero is the single byte 0x00.
   */
  lemma IntToBytesCanonical(v: nat)
    ensures BytesValue(IntToBytes(v)) == v
    ensures |IntToBytes(v)| == (|HexDigits(v)| + 1) / 2
    ensures v == 0 ==> IntToBytes(v) == [0]
    ensures v > 0 ==> IntToBytes(v)[0] != 0
  {
    var h := HexDigits(v);
    HexDigitsValue(v);
    PadHexValue(h);
    FromHexValue(PadHex(h));
    if v == 0 {
      var p := PadHex(h);
      assert p == "00";
      assert FromHex(p) == FromHex(p[..0]) + [0];
    } else {
      LeadingByte(h);
    }
  }

  // ---------------------------------------------------------------------------
  // Minimality: no shorter byte string has the same value
  // ---------------------------------------------------------------------------

  function Pow256(k: nat): (p: nat)
    ensures p >= 1
  {
    if k == 0 then 1 else 256 * Pow256(k - 1)
  }

  lemma {:induction false} BytesValueBound(bs: seq<Byte>)
    ensures BytesValue(bs) < Pow256(|bs|)
  {
    if bs != [] {
      var init := bs[..|bs| - 1];
      BytesValueBound(init);
      assert BytesValue(init) + 1 <= Pow256(|init|);
      assert BytesValue(bs) == BytesValue(init) * 256 + bs[|bs| - 1];
      assert BytesValue(bs) < (BytesValue(init) + 1) * 256;
      assert (BytesValue(init) + 1) * 256 <= Pow256(|init|) * 256;
    }
  }

  lemma {:induction false} BytesValueLeading(bs: seq<Byte>)
    requires |bs| >= 1 && bs[0] != 0
    ensures BytesValue(bs) >= Pow256(|bs| - 1)
  {
    if |bs| == 1 {
      assert bs[..0] == [];
    } else {
      var init := bs[..|bs| - 1];
      assert init[0] == bs[0];
      BytesValueLeading(init);
      var p := Pow256(|init| - 1);
      var x := BytesValue(init);
      assert x >= p;
      assert x * 256 >= p * 256;
      assert Pow256(|bs| - 1) == 256 * p;
    }
  }

  lemma {:induction false} Pow256Monotone(i: nat, j: nat)
    requires i <= j
    ensures Pow256(i) <= Pow256(j)
  {
    if i < j {
      Pow256Monotone(i, j - 1);
    }
  }

  /** main.py:32-35: the encoded byte string is a shortest one of value `v`. */
  lemma IntToBytesShortest(v: nat, bs: seq<Byte>)
    requires |bs| >= 1 && BytesValue(bs) == v
    ensures |IntToBytes(v)| <= |bs|
  {
    IntToBytesCanonical(v);
    var r := IntToBytes(v);
    if v > 0 && |r| > |bs| {
      BytesValueLeading(r);
      BytesValueBound(bs);
      Pow256Monotone(|bs|, |r| - 1);
      assert false;
    }
  }

  // ---------------------------------------------------------------------------
  // The base64url alphabet (section 5 of RFC 4648)
  // ---------------------------------------------------------------------------

  predicate IsBase64UrlChar(c: char)
  {
    'A' <= c <= 'Z' || 'a' <= c <= 'z' || '0' <= c <= '9' || c == '-' || c == '_'
  }

  predicate AllBase64Url(s: string)
  {
    forall i :: 0 <= i < |s| ==> IsBase64UrlChar(s[i])
  }

  function SextetChar(i: Sextet): (c: char)
    ensures IsBase64UrlChar(c)
  {
    if i < 26 then ('A' as int + i) as char
    else if i < 52 then ('a' as int + i - 26) as char
    else if i < 62 then ('0' as int + i - 52) as char
    else if i == 62 then '-'
    else '_'
  }

  /** The value of an alphabet character; `None` for any other character. */
  function CharSextet(c: char): (r: Option<Sextet>)
    ensures r.Some? <==> IsBase64UrlChar(c)
    ensures r.Some? ==> SextetChar(r.value) == c
  {
    if 'A' <= c <= 'Z' then Some(c as int - 'A' as int)
    else if 'a' <= c <= 'z' then Some(c as int - 'a' as int + 26)
    else if '0' <= c <= '9' then Some(c as int - '0' as int + 52)
    else if c == '-' then Some(62)
    else if c == '_' then Some(63)
    else None
  }

  lemma SextetRoundTrip(i: Sextet)
    ensures CharSextet(SextetChar(i)) == Some(i)
  {
  }

  // ---------------------------------------------------------------------------
  // Encoding: `base64.urlsafe_b64encode(...)` and `.rstrip(b'=')`
  // ---------------------------------------------------------------------------

  function Encode3(b0: Byte, b1: Byte, b2: Byte): string
  {
    [SextetChar(b0 / 4), SextetChar(b0 % 4 * 16 + b1 / 16),
     SextetChar(b1 % 16 * 4 + b2 / 64), SextetChar(b2 % 64)]
  }

  function Encode2(b0: Byte, b1: Byte): string
  {
    [SextetChar(b0 / 4), SextetChar(b0 % 4 * 16 + b1 / 16), SextetChar(b1 % 16 * 4)]
  }

  function Encode1(b0: Byte): string
  {
    [SextetChar(b0 / 4), SextetChar(b0 % 4 * 16)]
  }

  /** Padded encoding, as `base64.urlsafe_b64encode` produces it. */
  function EncodePadded(bs: seq<Byte>): (s: string)
    ensures |s| == 4 * ((|bs| + 2) / 3)
  {
    if |bs| >= 3 then
      assert (|bs[3..]| + 2) / 3 == (|bs| + 2) / 3 - 1;
      Encode3(bs[0], bs[1], bs[2]) + EncodePadded(bs[3..])
    else if |bs| == 2 then Encode2(bs[0], bs[1]) + "="
    else if |bs| == 1 then Encode1(bs[0]) + "=="
    else []
  }

  /** `rstrip(b'=')`: drop every trailing '='. */
  function StripPadding(s: string): (r: string)
    ensures |r| <= |s| && r == s[..|r|]
    ensures r == [] || r[|r| - 1] != '='
    ensures forall i :: |r| <= i < |s| ==> s[i] == '='
  {
    if s != [] && s[|s| - 1] == '=' then StripPadding(s[..|s| - 1]) else s
  }

  /**
   * Unpadded encoding (section 3.2 of RFC 4648): a full group of 4 characters
   * per 3 bytes, and 2 or 3 characters for a final group of 1 or 2 bytes.
   */
  function EncodeUnpadded(bs: seq<Byte>): (s: string)
    ensures AllBase64Url(s)
    ensures |s| == (8 * |bs| + 5) / 6
  {
    if |bs| >= 3 then Encode3(bs[0], bs[1], bs[2]) + EncodeUnpadded(bs[3..])
    else if |bs| == 2 then Encode2(bs[0], bs[1])
    else if |bs| == 1 then Encode1(bs[0])
    else []
  }

  /** main.py:30-37, with the UTF-8 decoding of the ASCII result as identity. */
  function IntToBase64(v: nat): string
  {
    StripPadding(EncodePadded(IntToBytes(v)))
  }

  lemma {:induction false} StripAfterUnpaddedPrefix(a: string, b: string)
    requires AllBase64Url(a)
    ensures StripPadding(a + b) == a + StripPadding(b)
  {
    if b != [] && b[|b| - 1] == '=' {
      assert (a + b)[..|a + b| - 1] == a + b[..|b| - 1];
      StripAfterUnpaddedPrefix(a, b[..|b| - 1]);
    } else if b == [] {
      assert a + b == a;
      if a != [] {
        assert IsBase64UrlChar(a[|a| - 1]);
      }
    } else {
      assert (a + b)[|a + b| - 1] == b[|b| - 1];
    }
  }

  /** Stripping the padding of the padded encoding gives the unpadded one. */
  lemma {:induction false} StripPaddedIsUnpadded(bs: seq<Byte>)
    ensures StripPadding(EncodePadded(bs)) == EncodeUnpadded(bs)
  {
    if |bs| >= 3 {
      var g := Encode3(bs[0], bs[1], bs[2]);
      assert AllBase64Url(g);
      StripAfterUnpaddedPrefix(g, EncodePadded(bs[3..]));
      StripPaddedIsUnpadded(bs[3..]);
    } else if |bs| == 2 {
      var g := Encode2(bs[0], bs[1]);
      var s := g + "=";
      assert s[..|s| - 1] == g;
      assert IsBase64UrlChar(g[2]);
    } else if |bs| == 1 {
      var g := Encode1(bs[0]);
      var s := g + "==";
      assert s[..|s| - 1] == g + "=";
      assert (g + "=")[..2] == g;
      assert IsBase64UrlChar(g[1]);
    }
  }

  // ---------------------------------------------------------------------------
  // Decoding unpadded base64url
  // ---------------------------------------------------------------------------

  function Decode4(c0: Sextet, c1: Sextet, c2: Sextet, c3: Sextet): seq<Byte>
  {
    [c0 * 4 + c1 / 16, c1 % 16 * 16 + c2 / 4, c2 % 4 * 64 + c3]
  }

  function Decode3(c0: Sextet, c1: Sextet, c2: Sextet): seq<Byte>
  {
    [c0 * 4 + c1 / 16, c1 % 16 * 16 + c2 / 4]
  }

  function Decode2(c0: Sextet, c1: Sextet): seq<Byte>
  {
    [c0 * 4 + c1 / 16]
  }

  /** The sextets of `s`, or `None` if some character is outside the alphabet. */
  function Sextets(s: string): (r: Option<seq<Sextet>>)
    ensures r.Some? <==> AllBase64Url(s)
    ensures r.Some? ==> |r.value| == |s|
    ensures r.Some? ==> forall i :: 0 <= i < |s| ==> SextetChar(r.value[i]) == s[i]
  {
    if AllBase64Url(s) then Some(seq(|s|, i requires 0 <= i < |s| => CharSextet(s[i]).value))
    else None
  }

  function DecodeSextets(cs: seq<Sextet>): Option<seq<Byte>>
  {
    if |cs| >= 4 then
      match DecodeSextets(cs[4..])
      case Some(rest) => Some(Decode4(cs[0], cs[1], cs[2], cs[3]) + rest)
      case None => None
    else if |cs| == 3 then
      if cs[2] % 4 == 0 then Some(Decode3(cs[0], cs[1], cs[2])) else None
    else if |cs| == 2 then
      if cs[1] % 16 == 0 then Some(Decode2(cs[0], cs[1])) else None
    else if |cs| == 1 then None
    else Some([])
  }

  /**
   * Unpadded base64url to bytes: `None` for a character outside the alphabet
   * (the '=' of padding included), a length of the form 4k+1, or a final
   * group whose unused low bits are not zero (section 3.5 of RFC 4648).
   */
  function Decode(s: string): Option<seq<Byte>>
  {
    match Sextets(s)
    case Some(cs) => DecodeSextets(cs)
    case None => None
  }

  /** A Base64urlUInt value back to the integer it denotes. */
  function DecodeUInt(s: string): Option<nat>
  {
    match Decode(s)
    case Some(bs) => Some(BytesValue(bs))
    case None => None
  }

  /** A string whose characters are the images of `cs` has exactly the sextets `cs`. */
  lemma SextetsFromChars(s: string, cs: seq<Sextet>)
    requires |cs| == |s|
    requires forall i :: 0 <= i < |s| ==> SextetChar(cs[i]) == s[i]
    ensures Sextets(s) == Some(cs)
  {
    forall i | 0 <= i < |s| ensures IsBase64UrlChar(s[i]) && CharSextet(s[i]) == Some(cs[i]) {
      SextetRoundTrip(cs[i]);
    }
    assert AllBase64Url(s);
    assert Sextets(s).value == cs;
  }

  lemma GroupRoundTrip3(b0: Byte, b1: Byte, b2: Byte)
    ensures Sextets(Encode3(b0, b1, b2)) ==
            Some([b0 / 4, b0 % 4 * 16 + b1 / 16, b1 % 16 * 4 + b2 / 64, b2 % 64])
    ensures Decode4(b0 / 4, b0 % 4 * 16 + b1 / 16, b1 % 16 * 4 + b2 / 64, b2 % 64) == [b0, b1, b2]
  {
    var c1 := b0 % 4 * 16 + b1 / 16;
    var c2 := b1 % 16 * 4 + b2 / 64;
    SextetsFromChars(Encode3(b0, b1, b2), [b0 / 4, c1, c2, b2 % 64]);
    assert c1 / 16 == b0 % 4 && c1 % 16 == b1 / 16;
    assert c2 / 4 == b1 % 16 && c2 % 4 == b2 / 64;
  }

  /** A final group of two bytes, three characters, decodes back. */
  lemma GroupRoundTrip2(b0: Byte, b1: Byte)
    ensures Decode(Encode2(b0, b1)) == Some([b0, b1])
  {
    var c1 := b0 % 4 * 16 + b1 / 16;
    var c2 := b1 % 16 * 4;
    var cs: seq<Sextet> := [b0 / 4, c1, c2];
    SextetsFromChars(Encode2(b0, b1), cs);
    assert c1 / 16 == b0 % 4 && c1 % 16 == b1 / 16;
    assert c2 / 4 == b1 % 16;
    assert DecodeSextets(cs) == Some(Decode3(b0 / 4, c1, c2));
  }

  /** A final group of one byte, two characters, decodes back. */
  lemma GroupRoundTrip1(b0: Byte)
    ensures Decode(Encode1(b0)) == Some([b0])
  {
    var c1 := b0 % 4 * 16;
    var cs: seq<Sextet> := [b0 / 4, c1];
    SextetsFromChars(Encode1(b0), cs);
    assert c1 / 16 == b0 % 4;
    assert DecodeSextets(cs) == Some(Decode2(b0 / 4, c1));
  }

  lemma SextetsAppend(a: string, b: string)
    requires AllBase64Url(a) && AllBase64Url(b)
    ensures Sextets(a + b) == Some(Sextets(a).value + Sextets(b).value)
  {
    var cs := Sextets(a).value + Sextets(b).value;
    forall i | 0 <= i < |a + b| ensures SextetChar(cs[i]) == (a + b)[i] {
      if i < |a| { assert cs[i] == Sextets(a).value[i]; }
      else { assert cs[i] == Sextets(b).value[i - |a|]; }
    }
    SextetsFromChars(a + b, cs);
  }

  lemma DecodeSextetsAfterGroup(d: seq<Sextet>, rc: seq<Sextet>, rest: seq<Byte>)
    requires |d| == 4 && DecodeSextets(rc) == Some(rest)
    ensures DecodeSextets(d + rc) == Some(Decode4(d[0], d[1], d[2], d[3]) + rest)
  {
    assert (d + rc)[4..] == rc;
  }

  /** One full group in front of an encoding that decodes correctly. */
  lemma DecodeGroupThenRest(b0: Byte, b1: Byte, b2: Byte, tail: seq<Byte>)
    requires Decode(EncodeUnpadded(tail)) == Some(tail)
    ensures Decode(Encode3(b0, b1, b2) + EncodeUnpadded(tail)) == Some([b0, b1, b2] + tail)
  {
    var g := Encode3(b0, b1, b2);
    var rest := EncodeUnpadded(tail);
    GroupRoundTrip3(b0, b1, b2);
    SextetsAppend(g, rest);
    DecodeSextetsAfterGroup(Sextets(g).value, Sextets(rest).value, tail);
  }

  /** Decoding undoes the unpadded encoding. */
  lemma {:induction false} DecodeEncode(bs: seq<Byte>)
    ensures Decode(EncodeUnpadded(bs)) == Some(bs)
  {
    if |bs| >= 3 {
      assert bs == [bs[0], bs[1], bs[2]] + bs[3..];
      DecodeEncode(bs[3..]);
      DecodeGroupThenRest(bs[0], bs[1], bs[2], bs[3..]);
    } else if |bs| == 2 {
      assert bs == [bs[0], bs[1]];
      GroupRoundTrip2(bs[0], bs[1]);
    } else if |bs| == 1 {
      assert bs == [bs[0]];
      GroupRoundTrip1(bs[0]);
    }
  }

  /** The characters that stand for `cs`, one per sextet. */
  function SextetString(cs: seq<Sextet>): (s: string)
    ensures |s| == |cs| && forall i :: 0 <= i < |cs| ==> s[i] == SextetChar(cs[i])
  {
    seq(|cs|, i requires 0 <= i < |cs| => SextetChar(cs[i]))
  }

  /** Re-encoding the bytes of a full group of four sextets gives the same four characters. */
  lemma GroupInverse4(c0: Sextet, c1: Sextet, c2: Sextet, c3: Sextet)
    ensures var b := Decode4(c0, c1, c2, c3);
            Encode3(b[0], b[1], b[2]) == SextetString([c0, c1, c2, c3])
  {
    var b := Decode4(c0, c1, c2, c3);
    assert b[0] / 4 == c0 && b[0] % 4 == c1 / 16;
    assert b[1] / 16 == c1 % 16 && b[1] % 16 == c2 / 4;
    assert b[2] / 64 == c2 % 4 && b[2] % 64 == c3;
  }

  /** The same for a final group of three sextets whose low two bits are zero. */
  lemma GroupInverse3(c0: Sextet, c1: Sextet, c2: Sextet)
    requires c2 % 4 == 0
    ensures var b := Decode3(c0, c1, c2);
            Encode2(b[0], b[1]) == SextetString([c0, c1, c2])
  {
    var b := Decode3(c0, c1, c2);
    assert b[0] / 4 == c0 && b[0] % 4 == c1 / 16;
    assert b[1] / 16 == c1 % 16 && b[1] % 16 == c2 / 4;
  }

  /** The same for a final group of two sextets whose low four bits are zero. */
  lemma GroupInverse2(c0: Sextet, c1: Sextet)
    requires c1 % 16 == 0
    ensures var b := Decode2(c0, c1);
            Encode1(b[0]) == SextetString([c0, c1])
  {
    var b := Decode2(c0, c1);
    assert b[0] / 4 == c0 && b[0] % 4 == c1 / 16;
  }

  lemma {:induction false} EncodeDecodeSextets(cs: seq<Sextet>, bs: seq<Byte>)
    requires DecodeSextets(cs) == Some(bs)
    ensures EncodeUnpadded(bs) == SextetString(cs)
  {
    if |cs| >= 4 {
      var g := cs[..4];
      var tail := cs[4..];
      assert cs == g + tail;
      assert SextetString(cs) == SextetString(g) + SextetString(tail);
      assert g == [cs[0], cs[1], cs[2], cs[3]];
      var rest := DecodeSextets(tail).value;
      var d := Decode4(cs[0], cs[1], cs[2], cs[3]);
      assert bs == d + rest;
      assert bs[3..] == rest;
      EncodeDecodeSextets(tail, rest);
      GroupInverse4(cs[0], cs[1], cs[2], cs[3]);
    } else if |cs| == 3 {
      assert cs == [cs[0], cs[1], cs[2]];
      GroupInverse3(cs[0], cs[1], cs[2]);
    } else if |cs| == 2 {
      assert cs == [cs[0], cs[1]];
      GroupInverse2(cs[0], cs[1]);
    }
  }

  /**
   * Encoding undoes decoding: a string is accepted only if it is the unpadded
   * encoding of the bytes it decodes to, so each byte string has one encoding.
   */
  lemma EncodeDecode(s: string)
    ensures Decode(s).Some? ==> EncodeUnpadded(Decode(s).value) == s
  {
    if Decode(s).Some? {
      var cs := Sextets(s).value;
      EncodeDecodeSextets(cs, Decode(s).value);
      assert SextetString(cs) == s;
    }
  }

  // ---------------------------------------------------------------------------
  // Properties of int_to_base64
  // ---------------------------------------------------------------------------

  /** main.py:36: only `A-Z a-z 0-9 - _`, and so never '='. */
  lemma IntToBase64Alphabet(v: nat)
    ensures AllBase64Url(IntToBase64(v))
    ensures '=' !in IntToBase64(v)
  {
    StripPaddedIsUnpadded(IntToBytes(v));
  }

  /** main.py:30-37: decoding the output gives back the bytes, and their value is `v`. */
  lemma IntToBase64RoundTrip(v: nat)
    ensures Decode(IntToBase64(v)) == Some(IntToBytes(v))
    ensures DecodeUInt(IntToBase64(v)) == Some(v)
  {
    StripPaddedIsUnpadded(IntToBytes(v));
    DecodeEncode(IntToBytes(v));
    IntToBytesCanonical(v);
  }

  /**
   * main.py:33-36: `ceil(hexDigits / 2)` bytes, and `ceil(8 * bytes / 6)`
   * characters once the padding is stripped.
   */
  lemma IntToBase64Length(v: nat)
    ensures |IntToBytes(v)| == (|HexDigits(v)| + 1) / 2
    ensures |IntToBase64(v)| == (8 * |IntToBytes(v)| + 5) / 6
  {
    IntToBytesCanonical(v);
    StripPaddedIsUnpadded(IntToBytes(v));
  }

  /** Distinct integers have distinct encodings. */
  lemma IntToBase64Injective(v: nat, w: nat)
    ensures v != w ==> IntToBase64(v) != IntToBase64(w)
  {
    IntToBase64RoundTrip(v);
    IntToBase64RoundTrip(w);
  }

  /** Zero is the single byte 0x00, "AA" (section 2 of RFC 7518). */
  lemma ZeroEncoding()
    ensures IntToBytes(0) == [0]
    ensures IntToBase64(0) == "AA"
  {
    IntToBytesCanonical(0);
    StripPaddedIsUnpadded([0]);
    assert EncodeUnpadded([0]) == Encode1(0);
  }

  /** The RSA public exponent 65537 is the bytes 01 00 01, "AQAB". */
  lemma ExponentEncoding()
    ensures IntToBytes(65537) == [1, 0, 1]
    ensures IntToBase64(65537) == "AQAB"
  {
    var bs: seq<Byte> := [1, 0, 1];
    assert bs[3..] == [];
    ExponentGroup();
    assert EncodeUnpadded(bs) == Encode3(1, 0, 1) + EncodeUnpadded([]);
    ExponentBytes();
    StripPaddedIsUnpadded(IntToBytes(65537));
    // The facts above suffice; hiding the definitions only keeps the
    // postcondition check from re-evaluating the whole encoder on 65537.
    hide IntToBytes, StripPadding, EncodePadded, EncodeUnpadded, Encode3;
  }

  lemma ExponentGroup()
    ensures Encode3(1, 0, 1) == "AQAB"
  {
    assert SextetChar(0) == 'A' && SextetChar(16) == 'Q' && SextetChar(1) == 'B';
  }

  lemma ExponentBytes()
    ensures IntToBytes(65537) == [1, 0, 1]
  {
    ExponentHexDigits();
    // Only the numeral just established is needed; hiding the definition
    // keeps the solver from evaluating it again.
    hide HexDigits;
    var p := PadHex("10001");
    assert p == "010001";
    assert p[..4] == "0100" && p[..4][..2] == "01" && p[..4][..2][..0] == [];
    assert FromHex(p) == [1, 0, 1];
  }

  lemma ExponentHexDigits()
    ensures HexDigits(65537) == "10001"
  {
    assert HexDigits(1) == "1";
    assert HexDigits(16) == "10";
    assert HexDigits(256) == "100";
    assert HexDigits(4096) == "1000";
  }
}

/** The paste identifier: a 128-bit UUID held as 16 bytes, its lowercase
    "simple" text form (32 hex digits, no separators) used as the storage
    key, and a model of `Uuid::parse_str` (uuid 0.8), which accepts the
    simple form, the hyphenated 8-4-4-4-12 form and the `urn:uuid:` form,
    with hex digits in either case. */
module Uuid {
  import opened Outcomes

  type Byte = b: int | 0 <= b < 256

  type Bytes16 = s: seq<Byte> | |s| == 16 witness seq(16, i => 0)

  datatype Uuid = Uuid(bytes: Bytes16)

  predicate IsLowerHexDigit(c: char) {
    '0' <= c <= '9' || 'a' <= c <= 'f'
  }

  predicate IsLowerHex(s: string) {
    forall i :: 0 <= i < |s| ==> IsLowerHexDigit(s[i])
  }

  /** The lowercase hex digit for a nibble. */
  function LowerDigit(n: int): (c: char)
    requires 0 <= n < 16
    ensures IsLowerHexDigit(c)
  {
    if n < 10 then ('0' as int + n) as char else ('a' as int + n - 10) as char
  }

  /** The value of a hex digit of either case; `None` for any other char. */
  function HexValue(c: char): (r: Option<int>)
    ensures r.Some? ==> 0 <= r.value < 16
  {
    if '0' <= c <= '9' then Some(c as int - '0' as int)
    else if 'a' <= c <= 'f' then Some(c as int - 'a' as int + 10)
    else if 'A' <= c <= 'F' then Some(c as int - 'A' as int + 10)
    else None
  }

  lemma HexValueOfLowerDigit(n: int)
    requires 0 <= n < 16
    ensures HexValue(LowerDigit(n)) == Some(n)
  {
  }

  /** A lowercase hex digit is the rendering of its own value. */
  lemma LowerDigitOfHexValue(c: char)
    requires IsLowerHexDigit(c)
    ensures HexValue(c).Some? && LowerDigit(HexValue(c).value) == c
  {
  }

  /** Two lowercase digits per byte, high nibble first. */
  function EncodeBytes(bs: seq<Byte>): (s: string)
    ensures |s| == 2 * |bs|
    ensures IsLowerHex(s)
  {
    if bs == [] then []
    else [LowerDigit(bs[0] / 16), LowerDigit(bs[0] % 16)] + EncodeBytes(bs[1..])
  }

  /** Reads pairs of hex digits (either case) back into bytes. */
  function DecodeHex(s: string): (r: Option<seq<Byte>>)
    requires |s| % 2 == 0
    ensures r.Some? ==> 2 * |r.value| == |s|
  {
    if s == [] then Some([])
    else
      var hi :- HexValue(s[0]);
      var lo :- HexValue(s[1]);
      var rest :- DecodeHex(s[2..]);
      Some([hi * 16 + lo] + rest)
  }

  lemma {:induction false} DecodeEncodeBytes(bs: seq<Byte>)
    ensures DecodeHex(EncodeBytes(bs)) == Some(bs)
  {
    if bs != [] {
      var s := EncodeBytes(bs);
      HexValueOfLowerDigit(bs[0] / 16);
      HexValueOfLowerDigit(bs[0] % 16);
      assert s[2..] == EncodeBytes(bs[1..]);
      DecodeEncodeBytes(bs[1..]);
      assert [bs[0]] + bs[1..] == bs;
    }
  }

  /** A lowercase hex string that decodes is the encoding of what it decodes to. */
  lemma {:induction false} EncodeDecodeHex(s: string)
    requires |s| % 2 == 0 && IsLowerHex(s) && DecodeHex(s).Some?
    ensures EncodeBytes(DecodeHex(s).value) == s
  {
    if s != [] {
      var bs := DecodeHex(s).value;
      var hi := HexValue(s[0]).value;
      var lo := HexValue(s[1]).value;
      LowerDigitOfHexValue(s[0]);
      LowerDigitOfHexValue(s[1]);
      assert IsLowerHex(s[2..]);
      EncodeDecodeHex(s[2..]);
      assert bs[0] == hi * 16 + lo && bs[1..] == DecodeHex(s[2..]).value;
      assert bs[0] / 16 == hi && bs[0] % 16 == lo;
      assert s == [s[0], s[1]] + s[2..];
    }
  }

  /** `to_simple_ref().encode_lower`: the 32-digit lowercase storage key. */
  function EncodeLower(u: Uuid): (s: string)
    ensures |s| == 32 && IsLowerHex(s)
  {
    EncodeBytes(u.bytes)
  }

  /** `to_hyphenated_ref().encode_lower`: the 8-4-4-4-12 form. */
  function EncodeHyphenated(u: Uuid): (s: string)
    ensures |s| == 36
    ensures s[8] == '-' && s[13] == '-' && s[18] == '-' && s[23] == '-'
  {
    var k := EncodeLower(u);
    k[..8] + "-" + k[8..12] + "-" + k[12..16] + "-" + k[16..20] + "-" + k[20..]
  }

  // ------------------------------------------------------- accepted forms

  /** A hex digit of either case. */
  predicate IsHexDigit(c: char) {
    '0' <= c <= '9' || 'a' <= c <= 'f' || 'A' <= c <= 'F'
  }

  /** Where the hyphens of the 8-4-4-4-12 form sit. */
  predicate IsHyphenPos(i: int) {
    i == 8 || i == 13 || i == 18 || i == 23
  }

  predicate IsSimpleForm(s: string) {
    |s| == 32 && forall i :: 0 <= i < |s| ==> IsHexDigit(s[i])
  }

  predicate IsHyphenatedForm(s: string) {
    && |s| == 36
    && forall i :: 0 <= i < |s| ==> if IsHyphenPos(i) then s[i] == '-' else IsHexDigit(s[i])
  }

  predicate IsUrnForm(s: string) {
    |s| == 45 && "urn:uuid:" <= s && IsHyphenatedForm(s[9..])
  }

  /** The strings `Uuid::parse_str` accepts. */
  predicate WellFormed(s: string) {
    IsSimpleForm(s) || IsHyphenatedForm(s) || IsUrnForm(s)
  }

  lemma {:induction false} DecodeHexAccepts(s: string)
    requires |s| % 2 == 0
    ensures DecodeHex(s).Some? <==> forall i :: 0 <= i < |s| ==> IsHexDigit(s[i])
  {
    if s != [] {
      DecodeHexAccepts(s[2..]);
      assert forall i :: 2 <= i < |s| ==> s[i] == s[2..][i - 2];
    }
  }

  // ----------------------------------------------------------------- parsing

  function ParseSimple(s: string): (r: Option<Uuid>)
    requires |s| == 32
    ensures r.Some? <==> IsSimpleForm(s)
  {
    DecodeHexAccepts(s);
    var bs :- DecodeHex(s);
    Some(Uuid(bs))
  }

  /** The 32 digits of a 36-character string with its four hyphen positions removed. */
  function Compact(s: string): (t: string)
    requires |s| == 36
    ensures |t| == 32
  {
    s[..8] + s[9..13] + s[14..18] + s[19..23] + s[24..]
  }

  /** The position in the hyphenated string of the `j`-th digit. */
  function DigitPos(j: int): int {
    if j < 8 then j else if j < 12 then j + 1 else if j < 16 then j + 2
    else if j < 20 then j + 3 else j + 4
  }

  lemma CompactDigits(s: string)
    requires |s| == 36
    ensures forall j :: 0 <= j < 32 ==> Compact(s)[j] == s[DigitPos(j)]
  {
    var t := Compact(s);
    assert t[..8] == s[..8] && t[8..12] == s[9..13] && t[12..16] == s[14..18];
    assert t[16..20] == s[19..23] && t[20..] == s[24..];
    forall j | 0 <= j < 32
      ensures t[j] == s[DigitPos(j)]
    {
      if j < 8 { assert t[j] == t[..8][j]; }
      else if j < 12 { assert t[j] == t[8..12][j - 8]; }
      else if j < 16 { assert t[j] == t[12..16][j - 12]; }
      else if j < 20 { assert t[j] == t[16..20][j - 16]; }
      else { assert t[j] == t[20..][j - 20]; }
    }
  }

  /** The hyphenated form, provided the hyphens sit between the groups of
      8, 4, 4, 4 and 12 digits. */
  function ParseHyphenated(s: string): (r: Option<Uuid>)
    requires |s| == 36
    ensures r.Some? <==> IsHyphenatedForm(s)
  {
    if s[8] == '-' && s[13] == '-' && s[18] == '-' && s[23] == '-' then
      CompactDigits(s);
      assert IsSimpleForm(Compact(s)) <==> IsHyphenatedForm(s) by {
        if IsHyphenatedForm(s) {
          assert forall j :: 0 <= j < 32 ==> !IsHyphenPos(DigitPos(j));
        }
        if IsSimpleForm(Compact(s)) {
          forall i | 0 <= i < 36 && !IsHyphenPos(i)
            ensures IsHexDigit(s[i])
          {
            var j := if i < 8 then i else if i < 13 then i - 1 else if i < 18 then i - 2
                     else if i < 23 then i - 3 else i - 4;
            assert DigitPos(j) == i;
          }
        }
      }
      ParseSimple(Compact(s))
    else None
  }

  /** `Uuid::parse_str`: accepts exactly the simple, hyphenated and
      `urn:uuid:` forms. Only success or failure is used by the paste
      lookup, so the error kind is not modelled. */
  function ParseStr(s: string): (r: Option<Uuid>)
    ensures r.Some? <==> WellFormed(s)
    ensures r.Some? ==> |s| == 32 || |s| == 36 || |s| == 45
  {
    if |s| == 45 && s[..9] == "urn:uuid:" then ParseHyphenated(s[9..])
    else if |s| == 36 then ParseHyphenated(s)
    else if |s| == 32 then ParseSimple(s)
    else None
  }

  /** The storage key parses back to the identifier it was made from. */
  lemma ParseEncodeLower(u: Uuid)
    ensures ParseStr(EncodeLower(u)) == Some(u)
  {
    DecodeEncodeBytes(u.bytes);
  }

  /** The hyphenated rendering names the same identifier. */
  lemma ParseEncodeHyphenated(u: Uuid)
    ensures ParseStr(EncodeHyphenated(u)) == Some(u)
  {
    var k := EncodeLower(u);
    var h := EncodeHyphenated(u);
    assert h[..8] == k[..8] && h[9..13] == k[8..12] && h[14..18] == k[12..16];
    assert h[19..23] == k[16..20] && h[24..] == k[20..];
    assert k[..8] + k[8..12] + k[12..16] + k[16..20] + k[20..] == k;
    ParseEncodeLower(u);
  }

  /** The storage key is injective: distinct identifiers never share a key. */
  lemma EncodeLowerInjective(u: Uuid, v: Uuid)
    ensures EncodeLower(u) == EncodeLower(v) <==> u == v
  {
    ParseEncodeLower(u);
    ParseEncodeLower(v);
  }

  /** A 32-digit lowercase string that parses is already the storage key of
      the identifier it parses to; upper-case and hyphenated strings parse to
      the same identifier but their key is a different string. */
  lemma ParsedSimpleIsKey(s: string)
    requires |s| == 32 && IsLowerHex(s) && ParseStr(s).Some?
    ensures EncodeLower(ParseStr(s).value) == s
  {
    EncodeDecodeHex(s);
  }
}

/**
 Percent encoding (StringUtil::UrlEncode and UrlDecode in Helens/util.cc, after section 2.1 of
 RFC 3986): the byte-by-byte meaning, the scanning loops with their lazily made copy, the round trip.
 */
module Url {
  import opened Chunks

  const SPACE: Byte := 32
  const PERCENT: Byte := 37
  const PLUS: Byte := 43

  /** The table of bytes left alone: - . digits = letters _ ~ */
  predicate Unreserved(b: Byte) {
    b == 45 || b == 46 || 48 <= b <= 57 || b == 61 || 65 <= b <= 90 || b == 95 || 97 <= b <= 122 || b == 126
  }

  function HexDigit(n: nat): Byte
    requires n < 16
  {
    if n < 10 then 48 + n else 55 + n
  }

  predicate IsHex(b: Byte) { 48 <= b <= 57 || 65 <= b <= 70 || 97 <= b <= 102 }

  /** The table of digit values; other bytes count 0. */
  function HexValue(b: Byte): (n: nat)
    ensures n < 16
  {
    if 48 <= b <= 57 then b - 48 else if 65 <= b <= 70 then b - 55 else if 97 <= b <= 102 then b - 87 else 0
  }

  const MARKS: string := "-.=_~"
  const DECIMALS: string := "0123456789"
  const UPPER: string := "ABCDEFGHIJKLMNOPQRSTUVWXYZ"
  const LOWER: string := "abcdefghijklmnopqrstuvwxyz"
  const CAPITALS: string := "0123456789ABCDEF"
  const SMALL: string := "0123456789abcdef"

  /** The bytes left alone, one by one. */
  predicate LeftAlone(c: char) { c in MARKS || c in DECIMALS || c in UPPER || c in LOWER }

  lemma UnreservedExactly(b: Byte)
    ensures Unreserved(b) <==> LeftAlone(b as char)
  {
    hide *;
    InMarks(b);
    InDecimals(b);
    InUpper(b);
    InLower(b);
    ByTable(b);
  }

  lemma ByTable(b: Byte)
    requires (b as char) in MARKS <==> b == 45 || b == 46 || b == 61 || b == 95 || b == 126
    requires (b as char) in DECIMALS <==> 48 <= b <= 57
    requires (b as char) in UPPER <==> 65 <= b <= 90
    requires (b as char) in LOWER <==> 97 <= b <= 122
    ensures Unreserved(b) <==> LeftAlone(b as char)
  {
    var c := b as char;
    assert LeftAlone(c) <==> c in MARKS || c in DECIMALS || c in UPPER || c in LOWER;
  }

  lemma InMarks(b: Byte)
    ensures (b as char) in MARKS <==> b == 45 || b == 46 || b == 61 || b == 95 || b == 126
  {
    assert MARKS[0] == '-' && MARKS[1] == '.' && MARKS[2] == '=' && MARKS[3] == '_' && MARKS[4] == '~';
  }

  lemma InDecimals(b: Byte)
    ensures (b as char) in DECIMALS <==> 48 <= b <= 57
  {
    if 48 <= b <= 57 { assert DECIMALS[b - 48] == b as char; }
  }

  lemma InUpper(b: Byte)
    ensures (b as char) in UPPER <==> 65 <= b <= 90
  {
    if 65 <= b <= 90 { assert UPPER[b - 65] == b as char; }
  }

  lemma InLower(b: Byte)
    ensures (b as char) in LOWER <==> 97 <= b <= 122
  {
    if 97 <= b <= 122 { assert LOWER[b - 97] == b as char; }
  }

  /** The digits: capitals are written, both are read. */
  lemma Digits(n: nat)
    requires n < 16
    ensures HexDigit(n) as char == CAPITALS[n]
    ensures IsHex(CAPITALS[n] as Byte) && HexValue(CAPITALS[n] as Byte) == n
    ensures IsHex(SMALL[n] as Byte) && HexValue(SMALL[n] as Byte) == n
  {}

  lemma OnlyDigits(b: Byte)
    ensures IsHex(b) <==> (b as char) in CAPITALS || (b as char) in SMALL
  {
    if 48 <= b <= 57 { assert CAPITALS[b - 48] == b as char; }
    if 65 <= b <= 70 { assert CAPITALS[b - 55] == b as char; }
    if 97 <= b <= 102 { assert SMALL[b - 87] == b as char; }
  }

  // ----- meaning -----

  function EncodeByte(b: Byte, plus: bool): seq<Byte> {
    if Unreserved(b) then [b]
    else if b == SPACE && plus then [PLUS]
    else [PERCENT, HexDigit(b / 16), HexDigit(b % 16)]
  }

  function Encode(s: seq<Byte>, plus: bool): seq<Byte> {
    if s == [] then [] else EncodeByte(s[0], plus) + Encode(s[1..], plus)
  }

  /** What one byte becomes, in characters. */
  lemma EncodedAs(b: Byte, plus: bool)
    ensures var e := EncodeByte(b, plus);
      if LeftAlone(b as char) then e == [b]
      else if plus && b as char == ' ' then |e| == 1 && e[0] as char == '+'
      else |e| == 3 && e[0] as char == '%' && e[1] as char == CAPITALS[b / 16] && e[2] as char == CAPITALS[b % 16]
  {
    hide Unreserved, HexDigit, LeftAlone;
    UnreservedExactly(b);
    Digits(b / 16);
    Digits(b % 16);
  }

  /** An escape that is complete and made of hexadecimal digits. */
  predicate Escape(s: seq<Byte>) { |s| > 2 && s[0] == PERCENT && IsHex(s[1]) && IsHex(s[2]) }

  function Decode(s: seq<Byte>, plus: bool): seq<Byte> {
    if s == [] then []
    else if s[0] == PLUS && plus then [SPACE] + Decode(s[1..], plus)
    else if Escape(s) then [16 * HexValue(s[1]) + HexValue(s[2])] + Decode(s[3..], plus)
    else [s[0]] + Decode(s[1..], plus)
  }

  /** A percent sign with two digits, of either case, becomes the byte they spell. */
  lemma DecodedEscape(high: nat, low: nat, smallHigh: bool, smallLow: bool, rest: seq<Byte>, plus: bool)
    requires high < 16 && low < 16
    ensures var x, y := (if smallHigh then SMALL else CAPITALS)[high] as Byte, (if smallLow then SMALL else CAPITALS)[low] as Byte;
      Decode(['%' as Byte, x, y] + rest, plus) == [16 * high + low] + Decode(rest, plus)
  {
    hide HexValue, IsHex, Decode;
    Digits(high);
    Digits(low);
    AnEscape((if smallHigh then SMALL else CAPITALS)[high] as Byte, (if smallLow then SMALL else CAPITALS)[low] as Byte, rest, plus);
  }

  lemma AnEscape(x: Byte, y: Byte, rest: seq<Byte>, plus: bool)
    requires IsHex(x) && IsHex(y)
    ensures Decode([PERCENT, x, y] + rest, plus) == [16 * HexValue(x) + HexValue(y)] + Decode(rest, plus)
  {
    hide HexValue, IsHex;
    var s := [PERCENT, x, y] + rest;
    assert s[0] == PERCENT && s[1] == x && s[2] == y && s[3..] == rest;
  }

  /** Everything else stays, except a plus sign that stands for a space. */
  lemma DecodedOther(b: Byte, rest: seq<Byte>, plus: bool)
    requires !(b as char == '%' && |rest| >= 2 &&
               ((rest[0] as char) in CAPITALS || (rest[0] as char) in SMALL) &&
               ((rest[1] as char) in CAPITALS || (rest[1] as char) in SMALL))
    ensures Decode([b] + rest, plus) == [if plus && b as char == '+' then ' ' as Byte else b] + Decode(rest, plus)
  {
    hide HexValue, IsHex;
    var s := [b] + rest;
    assert s[1..] == rest;
    if |rest| >= 2 {
      assert s[1] == rest[0] && s[2] == rest[1];
      OnlyDigits(s[1]);
      OnlyDigits(s[2]);
    }
  }

  // ----- the loops -----

  datatype Copy = NoCopy | Copied(text: seq<Byte>)

  /** What has been produced: the copy, or as long as there is none the input itself. */
  function Text(copy: Copy, s: seq<Byte>, i: nat): seq<Byte>
    requires i <= |s|
  {
    if copy.NoCopy? then s[..i] else copy.text
  }

  method UrlEncode(str: seq<Byte>, plus: bool) returns (r: seq<Byte>)
    ensures r == Encode(str, plus)
  {
    hide Encode, Unreserved, HexDigit;
    var copy := NoCopy;
    var i := 0;
    EncodeNothing(str, plus);
    while i < |str|
      invariant i <= |str| && Text(copy, str, i) == Encode(str[..i], plus)
    {
      var c := str[i];
      EncodeSnoc(str, i, plus);
      if !Unreserved(c) {
        copy := Start(copy, str, i);
        if c == SPACE && plus {
          copy := Copied(copy.text + [PLUS]);
        } else {
          copy := Copied(copy.text + [PERCENT, HexDigit(c / 16), HexDigit(c % 16)]);
        }
      } else if copy.Copied? {
        copy := Copied(copy.text + [c]);
      }
      i := i + 1;
    }
    assert str[..i] == str;
    r := if copy.NoCopy? then str else copy.text;
  }

  /** The copy is made when the first byte has to change. */
  function Start(copy: Copy, s: seq<Byte>, i: nat): Copy
    requires i <= |s|
  {
    if copy.NoCopy? then Copied(s[..i]) else copy
  }

  lemma EncodeNothing(s: seq<Byte>, plus: bool)
    ensures Encode(s[..0], plus) == []
  {}

  lemma {:induction false} EncodeAppend(a: seq<Byte>, b: seq<Byte>, plus: bool)
    ensures Encode(a + b, plus) == Encode(a, plus) + Encode(b, plus)
  {
    if a == [] {
      assert a + b == b;
    } else {
      assert (a + b)[0] == a[0] && (a + b)[1..] == a[1..] + b;
      EncodeAppend(a[1..], b, plus);
    }
  }

  lemma EncodeSnoc(s: seq<Byte>, i: nat, plus: bool)
    requires i < |s|
    ensures Encode(s[..i + 1], plus) == Encode(s[..i], plus) + EncodeByte(s[i], plus)
    ensures s[..i + 1] == s[..i] + [s[i]]
  {
    assert s[..i + 1] == s[..i] + [s[i]];
    EncodeAppend(s[..i], [s[i]], plus);
    assert [s[i]][1..] == [];
  }

  method UrlDecode(str: seq<Byte>, plus: bool) returns (r: seq<Byte>)
    ensures r == Decode(str, plus)
  {
    hide Decode, HexValue, IsHex, Text;
    var copy := NoCopy;
    var i := 0;
    DecodeStarts(str, plus);
    while i < |str|
      invariant i <= |str| && Text(copy, str, i) + Decode(str[i..], plus) == Decode(str, plus)
    {
      var c := str[i];
      ghost var done, was := Text(copy, str, i), i;
      DecodeStep(str, i, plus);
      TextStep(copy, str, i);
      if c == PLUS && plus {
        copy := Copied(Start(copy, str, i).text + [SPACE]);
      } else if c == PERCENT && i + 2 < |str| && IsHex(str[i + 1]) && IsHex(str[i + 2]) {
        copy := Copied(Start(copy, str, i).text + [16 * HexValue(str[i + 1]) + HexValue(str[i + 2])]);
        i := i + 2;
      } else if copy.Copied? {
        copy := Copied(copy.text + [c]);
      }
      i := i + 1;
      TextOf(copy, str, i);
      Regroup(done, Decode(str[was..], plus), Text(copy, str, i), Decode(str[i..], plus));
    }
    TextOf(copy, str, i);
    DecodeEnds(str, Text(copy, str, i), plus);
    r := if copy.NoCopy? then str else copy.text;
  }

  lemma DecodeStarts(s: seq<Byte>, plus: bool)
    ensures Text(NoCopy, s, 0) + Decode(s[0..], plus) == Decode(s, plus)
  {
    assert s[0..] == s;
  }

  lemma DecodeEnds(s: seq<Byte>, done: seq<Byte>, plus: bool)
    ensures done + Decode(s[|s|..], plus) == done
  {}

  lemma TextOf(copy: Copy, s: seq<Byte>, i: nat)
    requires i <= |s|
    ensures copy.Copied? ==> Text(copy, s, i) == copy.text
    ensures copy.NoCopy? && i == |s| ==> Text(copy, s, i) == s
  {}

  lemma TextStep(copy: Copy, s: seq<Byte>, i: nat)
    requires i < |s|
    ensures Start(copy, s, i).text == Text(copy, s, i)
    ensures copy.NoCopy? ==> Text(copy, s, i + 1) == Text(copy, s, i) + [s[i]]
  {}

  /** Moving the head of what is left to the end of what is done. */
  lemma Regroup(done: seq<Byte>, left: seq<Byte>, done': seq<Byte>, left': seq<Byte>)
    requires |left| > 0 && left == [left[0]] + left' && done' == done + [left[0]]
    ensures done' + left' == done + left
  {}

  lemma DecodeStep(s: seq<Byte>, i: nat, plus: bool)
    requires i < |s|
    ensures Decode(s[i..], plus) ==
      if s[i] == PLUS && plus then [SPACE] + Decode(s[i + 1..], plus)
      else if i + 2 < |s| && s[i] == PERCENT && IsHex(s[i + 1]) && IsHex(s[i + 2])
      then [16 * HexValue(s[i + 1]) + HexValue(s[i + 2])] + Decode(s[i + 3..], plus)
      else [s[i]] + Decode(s[i + 1..], plus)
  {
    var t := s[i..];
    assert t[0] == s[i] && t[1..] == s[i + 1..];
    if |t| > 2 { assert t[1] == s[i + 1] && t[2] == s[i + 2] && t[3..] == s[i + 3..]; }
  }

  // ----- round trip -----

  lemma HexRoundTrip(b: Byte)
    ensures IsHex(HexDigit(b / 16)) && IsHex(HexDigit(b % 16))
    ensures 16 * HexValue(HexDigit(b / 16)) + HexValue(HexDigit(b % 16)) == b
  {}

  /** What comes back for one byte: itself, but a space written as plus and not read so stays a plus. */
  function Back(b: Byte, written: bool, read: bool): Byte {
    if b == SPACE && written && !read then PLUS else b
  }

  lemma DecodeEncoded(b: Byte, rest: seq<Byte>, written: bool, read: bool)
    ensures Decode(EncodeByte(b, written) + rest, read) == [Back(b, written, read)] + Decode(rest, read)
  {
    hide HexDigit, HexValue, IsHex;
    HexRoundTrip(b);
    var e := EncodeByte(b, written) + rest;
    if |EncodeByte(b, written)| == 3 {
      assert e[0] == PERCENT && e[1] == HexDigit(b / 16) && e[2] == HexDigit(b % 16) && e[3..] == rest;
    } else {
      assert e[1..] == rest;
    }
  }

  /** Decoding the encoding gives the bytes back, each through `Back`. */
  lemma {:induction false} RoundTripBytes(s: seq<Byte>, written: bool, read: bool)
    ensures var d := Decode(Encode(s, written), read);
      |d| == |s| && forall i :: 0 <= i < |s| ==> d[i] == Back(s[i], written, read)
  {
    hide EncodeByte;
    if s != [] {
      DecodeEncoded(s[0], Encode(s[1..], written), written, read);
      RoundTripBytes(s[1..], written, read);
    }
  }

  /**
   The round trip is exact with the same flag, with any flag for the decoder if spaces were escaped,
   and otherwise exactly for the strings without spaces.
   */
  lemma RoundTripExact(s: seq<Byte>, written: bool, read: bool)
    ensures Decode(Encode(s, written), read) == s <==> !written || read || SPACE !in s
  {
    hide Encode, Decode;
    RoundTripBytes(s, written, read);
    if written && !read && SPACE in s {
      var i :| 0 <= i < |s| && s[i] == SPACE;
      assert Decode(Encode(s, written), read)[i] != s[i];
    }
  }

  /** Different strings have different encodings. */
  lemma EncodeOneToOne(s: seq<Byte>, t: seq<Byte>, plus: bool)
    requires Encode(s, plus) == Encode(t, plus)
    ensures s == t
  {
    RoundTripExact(s, plus, plus);
    RoundTripExact(t, plus, plus);
  }

  // ----- the output alphabet -----

  /** Unreserved bytes, escapes with capital digits, and plus signs where allowed. */
  predicate Escaped(s: seq<Byte>, plus: bool) {
    || s == []
    || (Unreserved(s[0]) && Escaped(s[1..], plus))
    || (plus && s[0] == PLUS && Escaped(s[1..], plus))
    || (Escape(s) && s[1] < 97 && s[2] < 97 && Escaped(s[3..], plus))
  }

  lemma {:induction false} EncodeEscapes(s: seq<Byte>, plus: bool)
    ensures Escaped(Encode(s, plus), plus)
  {
    if s != [] {
      EncodeEscapes(s[1..], plus);
      var rest := Encode(s[1..], plus);
      HexRoundTrip(s[0]);
      if |EncodeByte(s[0], plus)| == 3 {
        assert Encode(s, plus)[3..] == rest;
      } else {
        assert Encode(s, plus)[1..] == rest;
      }
    }
  }
}

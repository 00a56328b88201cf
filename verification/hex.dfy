/**
 * The byte/hex codec of NostrEvent.swift: `hexchar` and `hex_encode`, together with
 * a nibble decoder that serves as the encoder's inverse.
 */
module Hex {
  import opened Results

  /** Swift's `UInt8`. */
  newtype byte = x: int | 0 <= x < 256

  /** `c >> 4`: the high nibble, as an integer division. */
  function High(c: byte): (v: byte)
    ensures v < 16
  {
    c / 16
  }

  /** `c & 0xF`: the low nibble, as a remainder. */
  function Low(c: byte): (v: byte)
    ensures v < 16
  {
    c % 16
  }

  /** The byte whose high nibble is `hi` and low nibble is `lo`: `(hi << 4) | lo`. */
  function Join(hi: byte, lo: byte): (c: byte)
    requires hi < 16 && lo < 16
  {
    hi * 16 + lo
  }

  /** The sixteen lowercase hex digits, indexed by nibble value. */
  const LowerDigits: string := "0123456789abcdef"

  predicate IsLowerHexChar(ch: char) {
    '0' <= ch <= '9' || 'a' <= ch <= 'f'
  }

  predicate IsLowerHex(s: string) {
    forall i :: 0 <= i < |s| ==> IsLowerHexChar(s[i])
  }

  /** The character whose code point is the byte `b` (`Character(Unicode.Scalar(b))`). */
  function ToChar(b: byte): char {
    (b as int) as char
  }

  /**
   * `hexchar`: the ASCII code of the lowercase digit for a nibble. A value of 16 or
   * more reaches `assertionFailure`, after which an optimised build returns 0.
   */
  function HexChar(val: byte): (r: byte)
    ensures val < 16 ==> ToChar(r) == LowerDigits[val as int]
    ensures val >= 16 ==> r == 0
  {
    if val < 10 then 48 + val
    else if val < 16 then 97 + val - 10
    else 0
  }

  /** The two characters `hex_encode` appends for one byte: high nibble, then low nibble. */
  function ByteHex(c: byte): (s: string)
    ensures |s| == 2 && IsLowerHexChar(s[0]) && IsLowerHexChar(s[1])
    ensures s[0] == LowerDigits[High(c) as int] && s[1] == LowerDigits[Low(c) as int]
  {
    [ToChar(HexChar(High(c))), ToChar(HexChar(Low(c)))]
  }

  /** `hex_encode`: every byte in order, as two lowercase hex digits, no separators. */
  function HexEncode(data: seq<byte>): (str: string)
    ensures |str| == 2 * |data|
    ensures IsLowerHex(str)
  {
    if |data| == 0 then ""
    else HexEncode(data[..|data| - 1]) + ByteHex(data[|data| - 1])
  }

  /** `hex_encode` as the source writes it: one loop appending two characters per byte. */
  method HexEncodeLoop(data: seq<byte>) returns (str: string)
    ensures str == HexEncode(data)
    ensures |str| == 2 * |data| && IsLowerHex(str)
  {
    str := "";
    for i := 0 to |data|
      invariant str == HexEncode(data[..i])
    {
      var c := data[i];
      var c1 := HexChar(High(c));
      var c2 := HexChar(Low(c));
      assert data[..i + 1][..i] == data[..i];
      str := str + [ToChar(c1)];
      str := str + [ToChar(c2)];
    }
    assert data[..|data|] == data;
  }

  /** Characters `2i` and `2i+1` of the encoding are the digits of `data[i]`'s high and low nibble. */
  lemma {:induction false} HexEncodeAt(data: seq<byte>, i: nat)
    requires i < |data|
    ensures HexEncode(data)[2 * i] == ToChar(HexChar(High(data[i])))
    ensures HexEncode(data)[2 * i + 1] == ToChar(HexChar(Low(data[i])))
  {
    var n := |data| - 1;
    if i < n {
      HexEncodeAt(data[..n], i);
    }
  }

  /** The encoding of a concatenation is the concatenation of the encodings. */
  lemma {:induction false} HexEncodeAppend(a: seq<byte>, b: seq<byte>)
    ensures HexEncode(a + b) == HexEncode(a) + HexEncode(b)
    decreases |b|
  {
    if |b| == 0 {
      assert a + b == a;
    } else {
      var n := |b| - 1;
      var ab := a + b;
      assert ab[..|ab| - 1] == a + b[..n] && ab[|ab| - 1] == b[n];
      HexEncodeLast(ab);
      HexEncodeLast(b);
      HexEncodeAppend(a, b[..n]);
    }
  }

  /** The last byte's two digits end the encoding. */
  lemma HexEncodeLast(d: seq<byte>)
    requires |d| > 0
    ensures HexEncode(d) == HexEncode(d[..|d| - 1]) + ByteHex(d[|d| - 1])
  {
  }

  // ---------------------------------------------------------------------------
  // Decoding: the inverse the identifier's consumers rely on.

  datatype DecodeError = OddLength | NotHexDigit

  /** The value of one hex digit, either case. */
  function NibbleValue(ch: char): (r: Option<byte>)
    ensures r.Some? <==> ('0' <= ch <= '9' || 'a' <= ch <= 'f' || 'A' <= ch <= 'F')
    ensures r.Some? ==> r.value < 16
  {
    if '0' <= ch <= '9' then Some((ch as int - '0' as int) as byte)
    else if 'a' <= ch <= 'f' then Some((ch as int - 'a' as int + 10) as byte)
    else if 'A' <= ch <= 'F' then Some((ch as int - 'A' as int + 10) as byte)
    else None
  }

  predicate IsHexDigit(ch: char) {
    NibbleValue(ch).Some?
  }

  /** Every character is a hex digit of either case. */
  predicate IsHex(s: string) {
    forall i :: 0 <= i < |s| ==> IsHexDigit(s[i])
  }

  /** Decodes a string of even length, two digits per byte, from the back. */
  function DecodePairs(s: string): (r: Result<seq<byte>, DecodeError>)
    requires |s| % 2 == 0
    ensures r.Ok? <==> IsHex(s)
    ensures r.Ok? ==> 2 * |r.value| == |s|
    ensures r.Err? ==> r.error == NotHexDigit
  {
    if |s| == 0 then Ok([])
    else
      var n := |s| - 2;
      var hi := NibbleValue(s[n]);
      var lo := NibbleValue(s[n + 1]);
      var front := DecodePairs(s[..n]);
      IsHexSplit(s);
      if front.Err? then
        Err(NotHexDigit)
      else if hi.None? || lo.None? then
        Err(NotHexDigit)
      else
        Ok(front.value + [Join(hi.value, lo.value)])
  }

  lemma IsHexSplit(s: string)
    requires |s| >= 2
    ensures IsHex(s) <==> IsHex(s[..|s| - 2]) && IsHexDigit(s[|s| - 2]) && IsHexDigit(s[|s| - 1])
  {
    var front := s[..|s| - 2];
    if IsHex(front) && IsHexDigit(s[|s| - 2]) && IsHexDigit(s[|s| - 1]) {
      forall i | 0 <= i < |s|
        ensures IsHexDigit(s[i])
      {
        if i < |s| - 2 {
          assert s[i] == front[i];
        }
      }
    }
  }

  /** Hex to bytes: fails on odd length or on any character outside `[0-9a-fA-F]`. */
  function HexDecode(s: string): (r: Result<seq<byte>, DecodeError>)
    ensures r.Ok? <==> |s| % 2 == 0 && IsHex(s)
    ensures r.Err? && |s| % 2 == 1 ==> r.error == OddLength
    ensures r.Ok? ==> 2 * |r.value| == |s|
  {
    if |s| % 2 == 1 then Err(OddLength) else DecodePairs(s)
  }

  /** A hex digit to its lowercase form; any other character unchanged. */
  function LowerChar(ch: char): char {
    if 'A' <= ch <= 'F' then (ch as int - 'A' as int + 'a' as int) as char else ch
  }

  function ToLower(s: string): (t: string)
    ensures |t| == |s|
    ensures forall i :: 0 <= i < |s| ==> t[i] == LowerChar(s[i])
  {
    seq(|s|, i requires 0 <= i < |s| => LowerChar(s[i]))
  }

  lemma NibbleOfHexChar(v: byte)
    requires v < 16
    ensures NibbleValue(ToChar(HexChar(v))) == Some(v)
  {
    if v < 10 {
      assert ToChar(HexChar(v)) as int == 48 + v as int;
    } else {
      assert ToChar(HexChar(v)) as int == 87 + v as int;
    }
  }

  lemma HexCharOfNibble(ch: char)
    requires IsHexDigit(ch)
    ensures ToChar(HexChar(NibbleValue(ch).value)) == LowerChar(ch)
  {
    if '0' <= ch <= '9' {
      DigitRoundTrip(ch);
    } else if 'a' <= ch <= 'f' {
      LetterRoundTrip(ch, 'a');
    } else {
      LetterRoundTrip(ch, 'A');
    }
  }

  lemma DigitRoundTrip(ch: char)
    requires '0' <= ch <= '9'
    ensures ToChar(HexChar(NibbleValue(ch).value)) == ch
  {
    var v: byte := (ch as int - '0' as int) as byte;
    assert v as int == ch as int - 48 && v < 10;
    assert (48 + v) as int == ch as int;
  }

  lemma LetterRoundTrip(ch: char, base: char)
    requires base == 'a' || base == 'A'
    requires base <= ch <= (base as int + 5) as char
    ensures NibbleValue(ch) == Some((ch as int - base as int + 10) as byte)
    ensures ToChar(HexChar(NibbleValue(ch).value)) == LowerChar(ch)
  {
    var v: byte := (ch as int - base as int + 10) as byte;
    assert v as int == ch as int - base as int + 10 && 10 <= v < 16;
    assert (97 + v - 10) as int == ch as int - base as int + 97;
  }

  lemma JoinNibbles(c: byte)
    ensures Join(High(c), Low(c)) == c
  {
  }

  lemma SplitNibbles(hi: byte, lo: byte)
    requires hi < 16 && lo < 16
    ensures High(Join(hi, lo)) == hi
    ensures Low(Join(hi, lo)) == lo
  {
  }

  /** Round trip: decoding an encoding gives back the bytes. */
  lemma {:induction false} DecodeEncode(data: seq<byte>)
    ensures HexDecode(HexEncode(data)) == Ok(data)
  {
    if |data| > 0 {
      var n := |data| - 1;
      DecodeEncode(data[..n]);
      assert HexEncode(data) == HexEncode(data[..n]) + ByteHex(data[n]);
      DecodeAppendByte(HexEncode(data[..n]), data[..n], data[n]);
      assert data[..n] + [data[n]] == data;
    }
  }

  /** Two more digits of one byte's encoding decode to one more byte. */
  lemma DecodeAppendByte(s: string, d: seq<byte>, c: byte)
    requires HexDecode(s) == Ok(d)
    ensures HexDecode(s + ByteHex(c)) == Ok(d + [c])
  {
    var x, y := ByteHex(c)[0], ByteHex(c)[1];
    assert ByteHex(c) == [x, y];
    NibbleOfHexChar(High(c));
    NibbleOfHexChar(Low(c));
    DecodeSnoc(s, d, x, y, High(c), Low(c));
    JoinNibbles(c);
  }

  /** Two more hex digits decode to one more byte, the join of their nibbles. */
  lemma DecodeSnoc(s: string, d: seq<byte>, x: char, y: char, hi: byte, lo: byte)
    requires HexDecode(s) == Ok(d)
    requires NibbleValue(x) == Some(hi) && NibbleValue(y) == Some(lo)
    ensures HexDecode(s + [x, y]) == Ok(d + [Join(hi, lo)])
  {
    var t := s + [x, y];
    assert t[..|t| - 2] == s;
    assert t[|t| - 2] == x && t[|t| - 1] == y;
  }

  /** Encoding is injective: distinct byte strings have distinct hex forms. */
  lemma HexEncodeInjective(a: seq<byte>, b: seq<byte>)
    requires HexEncode(a) == HexEncode(b)
    ensures a == b
  {
    DecodeEncode(a);
    DecodeEncode(b);
  }

  /** Round trip the other way: re-encoding decoded hex gives its lowercase form. */
  lemma {:induction false} EncodeDecode(s: string)
    requires HexDecode(s).Ok?
    ensures HexEncode(HexDecode(s).value) == ToLower(s)
  {
    if |s| > 0 {
      DecodeLast(s);
      EncodeDecode(s[..|s| - 2]);
      EncodeLastPair(s, HexDecode(s[..|s| - 2]).value);
    }
  }

  /** Appending the byte the last two digits denote appends their lowercase forms to the encoding. */
  lemma EncodeLastPair(s: string, df: seq<byte>)
    requires |s| >= 2 && IsHexDigit(s[|s| - 2]) && IsHexDigit(s[|s| - 1])
    requires HexEncode(df) == ToLower(s[..|s| - 2])
    ensures HexEncode(df + [Join(NibbleValue(s[|s| - 2]).value, NibbleValue(s[|s| - 1]).value)]) == ToLower(s)
  {
    var x, y := s[|s| - 2], s[|s| - 1];
    EncodeAppendByte(df, Join(NibbleValue(x).value, NibbleValue(y).value));
    ByteHexOfDigits(x, y);
    LowerSplit(s);
  }

  lemma EncodeAppendByte(d: seq<byte>, c: byte)
    ensures HexEncode(d + [c]) == HexEncode(d) + ByteHex(c)
  {
    assert (d + [c])[..|d|] == d;
  }

  /** The last byte decoded comes from the last two digits; the rest from the digits before them. */
  lemma DecodeLast(s: string)
    requires HexDecode(s).Ok? && |s| > 0
    ensures |s| >= 2 && HexDecode(s[..|s| - 2]).Ok?
    ensures IsHexDigit(s[|s| - 2]) && IsHexDigit(s[|s| - 1])
    ensures HexDecode(s).value
         == HexDecode(s[..|s| - 2]).value + [Join(NibbleValue(s[|s| - 2]).value, NibbleValue(s[|s| - 1]).value)]
  {
  }

  lemma ByteHexOfDigits(x: char, y: char)
    requires IsHexDigit(x) && IsHexDigit(y)
    ensures ByteHex(Join(NibbleValue(x).value, NibbleValue(y).value)) == [LowerChar(x), LowerChar(y)]
  {
    SplitNibbles(NibbleValue(x).value, NibbleValue(y).value);
    HexCharOfNibble(x);
    HexCharOfNibble(y);
  }

  lemma LowerSplit(s: string)
    requires |s| >= 2
    ensures ToLower(s) == ToLower(s[..|s| - 2]) + [LowerChar(s[|s| - 2]), LowerChar(s[|s| - 1])]
  {
  }
}

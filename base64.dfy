/** `btoa`: base64 (section 4 of RFC 4648) over Latin-1 code units, with the decoder the click
    endpoint applies to the `url` parameter. */
module Base64 {
  import opened Results

  /** Every character is a Latin-1 code unit, so `btoa` accepts the string. */
  predicate IsLatin1(s: string) {
    forall k :: 0 <= k < |s| ==> s[k] as int < 256
  }

  /** The character of the base64 alphabet for a 6-bit value. */
  function SextetChar(v: int): (c: char)
    requires 0 <= v < 64
    ensures IsAlphabetChar(c)
  {
    if v < 26 then ('A' as int + v) as char
    else if v < 52 then ('a' as int + v - 26) as char
    else if v < 62 then ('0' as int + v - 52) as char
    else if v == 62 then '+'
    else '/'
  }

  predicate IsAlphabetChar(c: char) {
    ('A' <= c <= 'Z') || ('a' <= c <= 'z') || ('0' <= c <= '9') || c == '+' || c == '/'
  }

  /** The 6-bit value of an alphabet character; None for `=` and anything else. */
  function SextetValue(c: char): (r: Option<int>)
    ensures r.Some? ==> 0 <= r.value < 64
    ensures r.Some? <==> IsAlphabetChar(c)
  {
    if 'A' <= c <= 'Z' then Some(c as int - 'A' as int)
    else if 'a' <= c <= 'z' then Some(c as int - 'a' as int + 26)
    else if '0' <= c <= '9' then Some(c as int - '0' as int + 52)
    else if c == '+' then Some(62)
    else if c == '/' then Some(63)
    else None
  }

  lemma SextetRoundTrip(v: int)
    requires 0 <= v < 64
    ensures SextetValue(SextetChar(v)) == Some(v)
  {
  }

  predicate IsBase64Char(c: char) {
    IsAlphabetChar(c) || c == '='
  }

  /** Base64 of a Latin-1 string: each group of three code units becomes four characters;
      a final group of one or two is padded with `=`. */
  function Encode(s: string): (r: string)
    requires IsLatin1(s)
    ensures forall k :: 0 <= k < |r| ==> IsBase64Char(r[k])
    decreases |s|
  {
    if |s| == 0 then []
    else if |s| == 1 then
      var b0 := s[0] as int;
      [SextetChar(b0 / 4), SextetChar(b0 % 4 * 16), '=', '=']
    else if |s| == 2 then
      var b0, b1 := s[0] as int, s[1] as int;
      [SextetChar(b0 / 4), SextetChar(b0 % 4 * 16 + b1 / 16), SextetChar(b1 % 16 * 4), '=']
    else
      var b0, b1, b2 := s[0] as int, s[1] as int, s[2] as int;
      Group(b0, b1, b2) + Encode(s[3..])
  }

  /** `btoa`: fails with InvalidCharacterError on a character above U+00FF. */
  function Btoa(s: string): (r: Result<string>)
    ensures r.Ok? <==> IsLatin1(s)
    ensures r.Failure? ==> r.error == InvalidCharacterError
    ensures r.Ok? ==> forall k :: 0 <= k < |r.value| ==> IsBase64Char(r.value[k])
  {
    if IsLatin1(s) then Ok(Encode(s)) else Failure(InvalidCharacterError)
  }

  /** The output of `btoa` never holds a double quote, so it fits in an attribute value. */
  lemma EncodedHasNoQuote(s: string)
    requires IsLatin1(s)
    ensures '"' !in Encode(s)
  {
    var r := Encode(s);
    forall k | 0 <= k < |r|
      ensures r[k] != '"'
    {
      assert IsBase64Char(r[k]);
    }
  }

  /** The Latin-1 character of a byte value. */
  function ByteChar(v: int): char
    requires 0 <= v < 256
  {
    v as char
  }

  /** Four characters back to their bytes; `=` padding is accepted only in the last group. */
  function DecodeQuad(q: string, last: bool): Option<string>
    requires |q| == 4
  {
    var a, b, c, d := SextetValue(q[0]), SextetValue(q[1]), SextetValue(q[2]), SextetValue(q[3]);
    if a.None? || b.None? then None
    else if last && q[2] == '=' && q[3] == '=' then
      Some([ByteChar(a.value * 4 + b.value / 16)])
    else if c.None? then None
    else if last && q[3] == '=' then
      Some([ByteChar(a.value * 4 + b.value / 16), ByteChar(b.value % 16 * 16 + c.value / 4)])
    else if d.None? then None
    else
      Some([ByteChar(a.value * 4 + b.value / 16), ByteChar(b.value % 16 * 16 + c.value / 4),
            ByteChar(c.value % 4 * 64 + d.value)])
  }

  /** Base64 decoding; None for text that is not well-formed base64. */
  function Decode(t: string): Option<string>
    decreases |t|
  {
    if |t| == 0 then Some([])
    else if |t| < 4 then None
    else
      match DecodeQuad(t[..4], |t| == 4)
      case None => None
      case Some(bytes) =>
        match Decode(t[4..])
        case None => None
        case Some(rest) => Some(bytes + rest)
  }

  /** The bit shuffling of one group is undone by decoding it. */
  lemma GroupRoundTrip(b0: int, b1: int, b2: int)
    requires 0 <= b0 < 256 && 0 <= b1 < 256 && 0 <= b2 < 256
    ensures b0 / 4 * 4 + (b0 % 4 * 16 + b1 / 16) / 16 == b0
    ensures (b0 % 4 * 16 + b1 / 16) % 16 * 16 + (b1 % 16 * 4 + b2 / 64) / 4 == b1
    ensures (b1 % 16 * 4 + b2 / 64) % 4 * 64 + b2 % 64 == b2
    ensures (b0 % 4 * 16) / 16 == b0 % 4 && (b1 % 16 * 4) / 4 == b1 % 16
  {
  }

  /** The four characters of a full group. */
  function Group(b0: int, b1: int, b2: int): (q: string)
    requires 0 <= b0 < 256 && 0 <= b1 < 256 && 0 <= b2 < 256
    ensures |q| == 4
  {
    [SextetChar(b0 / 4), SextetChar(b0 % 4 * 16 + b1 / 16),
     SextetChar(b1 % 16 * 4 + b2 / 64), SextetChar(b2 % 64)]
  }

  lemma FullGroupDecodes(b0: int, b1: int, b2: int, last: bool)
    requires 0 <= b0 < 256 && 0 <= b1 < 256 && 0 <= b2 < 256
    ensures DecodeQuad(Group(b0, b1, b2), last) == Some([ByteChar(b0), ByteChar(b1), ByteChar(b2)])
  {
    GroupRoundTrip(b0, b1, b2);
    SextetRoundTrip(b0 / 4);
    SextetRoundTrip(b0 % 4 * 16 + b1 / 16);
    SextetRoundTrip(b1 % 16 * 4 + b2 / 64);
    SextetRoundTrip(b2 % 64);
  }

  lemma OnePaddedGroupDecodes(b0: int)
    requires 0 <= b0 < 256
    ensures DecodeQuad([SextetChar(b0 / 4), SextetChar(b0 % 4 * 16), '=', '='], true)
         == Some([ByteChar(b0)])
  {
    GroupRoundTrip(b0, 0, 0);
    SextetRoundTrip(b0 / 4);
    SextetRoundTrip(b0 % 4 * 16);
  }

  lemma TwoPaddedGroupDecodes(b0: int, b1: int)
    requires 0 <= b0 < 256 && 0 <= b1 < 256
    ensures DecodeQuad([SextetChar(b0 / 4), SextetChar(b0 % 4 * 16 + b1 / 16), SextetChar(b1 % 16 * 4), '='], true)
         == Some([ByteChar(b0), ByteChar(b1)])
  {
    GroupRoundTrip(b0, b1, 0);
    SextetRoundTrip(b0 / 4);
    SextetRoundTrip(b0 % 4 * 16 + b1 / 16);
    SextetRoundTrip(b1 % 16 * 4);
  }

  /** Decoding what `btoa` produced gives back the original string. */
  lemma {:induction false} DecodeEncode(s: string)
    requires IsLatin1(s)
    ensures Decode(Encode(s)) == Some(s)
    decreases |s|
  {
    if |s| == 0 {
    } else if |s| == 1 {
      DecodeOne(s);
    } else if |s| == 2 {
      DecodeTwo(s);
    } else {
      DecodeEncode(s[3..]);
      DecodeMore(s);
    }
  }

  /** Decoding a text that is one last group followed by nothing. */
  lemma DecodeLastGroup(q: string, bytes: string)
    requires |q| == 4 && DecodeQuad(q, true) == Some(bytes)
    ensures Decode(q) == Some(bytes)
  {
    assert q[..4] == q;
    assert Decode(q[4..]) == Some([]);
    assert bytes + [] == bytes;
  }

  lemma EncodeOne(s: string)
    requires IsLatin1(s) && |s| == 1
    ensures Encode(s) == [SextetChar(s[0] as int / 4), SextetChar(s[0] as int % 4 * 16), '=', '=']
    ensures [ByteChar(s[0] as int)] == s
  {
  }

  lemma DecodeOne(s: string)
    requires IsLatin1(s) && |s| == 1
    ensures Decode(Encode(s)) == Some(s)
  {
    var b0 := s[0] as int;
    EncodeOne(s);
    OnePaddedGroupDecodes(b0);
    DecodeLastGroup(Encode(s), [ByteChar(b0)]);
  }

  lemma EncodeTwo(s: string)
    requires IsLatin1(s) && |s| == 2
    ensures Encode(s) == [SextetChar(s[0] as int / 4), SextetChar(s[0] as int % 4 * 16 + s[1] as int / 16),
                          SextetChar(s[1] as int % 16 * 4), '=']
    ensures [ByteChar(s[0] as int), ByteChar(s[1] as int)] == s
  {
  }

  lemma DecodeTwo(s: string)
    requires IsLatin1(s) && |s| == 2
    ensures Decode(Encode(s)) == Some(s)
  {
    var b0, b1 := s[0] as int, s[1] as int;
    EncodeTwo(s);
    TwoPaddedGroupDecodes(b0, b1);
    DecodeLastGroup(Encode(s), [ByteChar(b0), ByteChar(b1)]);
  }

  /** Decoding a full group followed by more text. */
  lemma DecodeGroupThen(q: string, rest: string, bytes: string, tail: string)
    requires |q| == 4 && DecodeQuad(q, rest == []) == Some(bytes) && Decode(rest) == Some(tail)
    ensures Decode(q + rest) == Some(bytes + tail)
  {
    assert (q + rest)[..4] == q && (q + rest)[4..] == rest;
  }

  lemma EncodeFirstGroup(s: string)
    requires IsLatin1(s) && |s| >= 3
    ensures Encode(s) == Group(s[0] as int, s[1] as int, s[2] as int) + Encode(s[3..])
  {
  }

  lemma FirstGroupChars(s: string)
    requires IsLatin1(s) && |s| >= 3
    ensures [ByteChar(s[0] as int), ByteChar(s[1] as int), ByteChar(s[2] as int)] + s[3..] == s
  {
  }

  lemma DecodeMore(s: string)
    requires IsLatin1(s) && |s| >= 3
    requires Decode(Encode(s[3..])) == Some(s[3..])
    ensures Decode(Encode(s)) == Some(s)
  {
    var b0, b1, b2 := s[0] as int, s[1] as int, s[2] as int;
    var rest := Encode(s[3..]);
    EncodeFirstGroup(s);
    FirstGroupChars(s);
    FullGroupDecodes(b0, b1, b2, rest == []);
    DecodeGroupThen(Group(b0, b1, b2), rest, [ByteChar(b0), ByteChar(b1), ByteChar(b2)], s[3..]);
  }
}

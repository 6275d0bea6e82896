/**
 * Base 64 encoding with the standard alphabet and `=` padding, as defined in
 * section 4 of RFC 4648 (Python's `base64.b64encode`), with a decoder that
 * undoes it.
 */
module Base64 {
  import opened Wrappers
  import opened Bytes

  /** The character for a 6-bit value (Table 1 of RFC 4648). */
  function Sextet(i: int): (c: char)
    requires 0 <= i < 64
  {
    if i < 26 then ('A' as int + i) as char
    else if i < 52 then ('a' as int + i - 26) as char
    else if i < 62 then ('0' as int + i - 52) as char
    else if i == 62 then '+'
    else '/'
  }

  /** The 6-bit value of an alphabet character, or -1 for any other character. */
  function IndexOf(c: char): (i: int)
    ensures -1 <= i < 64
    ensures i >= 0 ==> Sextet(i) == c
  {
    if 'A' <= c <= 'Z' then c as int - 'A' as int
    else if 'a' <= c <= 'z' then c as int - 'a' as int + 26
    else if '0' <= c <= '9' then c as int - '0' as int + 52
    else if c == '+' then 62
    else if c == '/' then 63
    else -1
  }

  lemma IndexOfSextet(i: int)
    requires 0 <= i < 64
    ensures IndexOf(Sextet(i)) == i
  {
  }

  predicate IsAlphabetChar(c: char) {
    IndexOf(c) >= 0
  }

  /** The four characters for three bytes. */
  function EncodeGroup(b0: byte, b1: byte, b2: byte): (r: string)
    ensures |r| == 4
    ensures forall i :: 0 <= i < 4 ==> IsAlphabetChar(r[i])
  {
    IndexOfSextet(b0 / 4);
    IndexOfSextet((b0 % 4) * 16 + b1 / 16);
    IndexOfSextet((b1 % 16) * 4 + b2 / 64);
    IndexOfSextet(b2 % 64);
    [Sextet(b0 / 4), Sextet((b0 % 4) * 16 + b1 / 16), Sextet((b1 % 16) * 4 + b2 / 64), Sextet(b2 % 64)]
  }

  /** The last group, for one or two remaining bytes, padded with `=` to four characters. */
  function EncodeFinal(bs: seq<byte>): (r: string)
    requires 1 <= |bs| <= 2
    ensures |r| == 4
    ensures forall i :: 0 <= i < 4 ==> IsAlphabetChar(r[i]) || r[i] == '='
  {
    IndexOfSextet(bs[0] / 4);
    if |bs| == 1 then
      IndexOfSextet((bs[0] % 4) * 16);
      [Sextet(bs[0] / 4), Sextet((bs[0] % 4) * 16), '=', '=']
    else
      IndexOfSextet((bs[0] % 4) * 16 + bs[1] / 16);
      IndexOfSextet((bs[1] % 16) * 4);
      [Sextet(bs[0] / 4), Sextet((bs[0] % 4) * 16 + bs[1] / 16), Sextet((bs[1] % 16) * 4), '=']
  }

  /** Python's `base64.b64encode`. */
  function Encode(bs: seq<byte>): (r: string)
    ensures |r| == 4 * ((|bs| + 2) / 3)
    ensures forall i :: 0 <= i < |r| ==> IsAlphabetChar(r[i]) || r[i] == '='
  {
    if |bs| == 0 then ""
    else if |bs| < 3 then EncodeFinal(bs)
    else
      var group, rest := EncodeGroup(bs[0], bs[1], bs[2]), Encode(bs[3..]);
      assert forall i :: 4 <= i < |group + rest| ==> (group + rest)[i] == rest[i - 4];
      group + rest
  }

  /** The three bytes carried by four 6-bit values. */
  function DecodeGroup(i0: int, i1: int, i2: int, i3: int): (r: seq<byte>)
    requires 0 <= i0 < 64 && 0 <= i1 < 64 && 0 <= i2 < 64 && 0 <= i3 < 64
    ensures |r| == 3
  {
    [i0 * 4 + i1 / 16, (i1 % 16) * 16 + i2 / 4, (i2 % 4) * 64 + i3]
  }

  /** Decodes padded base 64; `None` when the text is not a canonical encoding. */
  function Decode(s: string): (r: Option<seq<byte>>)
    decreases |s|
  {
    if |s| == 0 then Some([])
    else if |s| < 4 then None
    else
      var i0, i1, i2, i3 := IndexOf(s[0]), IndexOf(s[1]), IndexOf(s[2]), IndexOf(s[3]);
      if i0 < 0 || i1 < 0 then None
      else if i2 >= 0 && i3 >= 0 then
        match Decode(s[4..])
        case None => None
        case Some(rest) => Some(DecodeGroup(i0, i1, i2, i3) + rest)
      else if |s| == 4 && s[2] == '=' && s[3] == '=' && i1 % 16 == 0 then
        Some([i0 * 4 + i1 / 16])
      else if |s| == 4 && i2 >= 0 && s[3] == '=' && i2 % 4 == 0 then
        Some([i0 * 4 + i1 / 16, (i1 % 16) * 16 + i2 / 4])
      else None
  }

  lemma DecodeEncodeGroup(b0: byte, b1: byte, b2: byte)
    ensures DecodeGroup(b0 / 4, (b0 % 4) * 16 + b1 / 16, (b1 % 16) * 4 + b2 / 64, b2 % 64) == [b0, b1, b2]
  {
  }

  /** The final group of one byte, padded with `==`. */
  lemma DecodeEncodeOne(b0: byte)
    ensures Decode(Encode([b0])) == Some([b0])
  {
    IndexOfSextet(b0 / 4);
    IndexOfSextet((b0 % 4) * 16);
  }

  /** The final group of two bytes, padded with `=`. */
  lemma DecodeEncodeTwo(b0: byte, b1: byte)
    ensures Decode(Encode([b0, b1])) == Some([b0, b1])
  {
    var i0, i1, i2 := b0 / 4, (b0 % 4) * 16 + b1 / 16, (b1 % 16) * 4;
    IndexOfSextet(i0);
    IndexOfSextet(i1);
    IndexOfSextet(i2);
    assert i1 / 16 == b0 % 4 && i1 % 16 == b1 / 16;
    assert i2 % 4 == 0 && i2 / 4 == b1 % 16;
    var s := Encode([b0, b1]);
    assert s == [Sextet(i0), Sextet(i1), Sextet(i2), '='];
    assert IndexOf(s[3]) == -1;
  }

  /** A full group in front of text that decodes. */
  lemma DecodeGroupThen(b0: byte, b1: byte, b2: byte, rest: string, tail: seq<byte>)
    requires Decode(rest) == Some(tail)
    ensures Decode(EncodeGroup(b0, b1, b2) + rest) == Some([b0, b1, b2] + tail)
  {
    var s := EncodeGroup(b0, b1, b2) + rest;
    IndexOfSextet(b0 / 4);
    IndexOfSextet((b0 % 4) * 16 + b1 / 16);
    IndexOfSextet((b1 % 16) * 4 + b2 / 64);
    IndexOfSextet(b2 % 64);
    DecodeEncodeGroup(b0, b1, b2);
    assert s[4..] == rest;
  }

  /** Three or more bytes are encoded as a full group followed by the encoding of the rest. */
  lemma EncodeFront(bs: seq<byte>)
    requires |bs| >= 3
    ensures Encode(bs) == EncodeGroup(bs[0], bs[1], bs[2]) + Encode(bs[3..])
  {
  }

  /** A full group in front of an encoding that decodes gives back the longer input. */
  lemma DecodeEncodeStep(bs: seq<byte>, rest: string)
    requires |bs| >= 3 && Decode(rest) == Some(bs[3..])
    requires Encode(bs) == EncodeGroup(bs[0], bs[1], bs[2]) + rest
    ensures Decode(Encode(bs)) == Some(bs)
  {
    DecodeGroupThen(bs[0], bs[1], bs[2], rest, bs[3..]);
    assert [bs[0], bs[1], bs[2]] + bs[3..] == bs;
  }

  /** Decoding an encoding gives back the bytes. */
  lemma {:induction false} DecodeEncode(bs: seq<byte>)
    ensures Decode(Encode(bs)) == Some(bs)
    decreases |bs|
  {
    if |bs| == 1 {
      DecodeEncodeOne(bs[0]);
      assert [bs[0]] == bs;
    } else if |bs| == 2 {
      DecodeEncodeTwo(bs[0], bs[1]);
      assert [bs[0], bs[1]] == bs;
    } else if |bs| >= 3 {
      DecodeEncode(bs[3..]);
      EncodeFront(bs);
      DecodeEncodeStep(bs, Encode(bs[3..]));
    }
  }

  /** The dot never appears in an encoding. */
  lemma EncodeHasNoDot(bs: seq<byte>)
    ensures forall i :: 0 <= i < |Encode(bs)| ==> Encode(bs)[i] != '.'
  {
  }
}

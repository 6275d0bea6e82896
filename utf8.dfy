/**
 * UTF-8, the encoding Python's `str.encode()` applies by default. A Dafny
 * `char` is a Unicode scalar value, so every string has an encoding.
 */
module Utf8 {
  import opened Wrappers
  import opened Bytes

  /** A continuation byte, `10xxxxxx`. */
  predicate IsContinuation(b: byte) {
    0x80 <= b < 0xC0
  }

  /** How many bytes the sequence introduced by `lead` has; 0 when `lead` cannot start one. */
  function SequenceLength(lead: byte): nat {
    if lead < 0x80 then 1
    else if 0xC0 <= lead < 0xE0 then 2
    else if 0xE0 <= lead < 0xF0 then 3
    else if 0xF0 <= lead < 0xF8 then 4
    else 0
  }

  /** The encoding of one scalar value. */
  function EncodeChar(c: char): (r: seq<byte>)
    ensures 1 <= |r| <= 4
    ensures SequenceLength(r[0]) == |r|
    ensures forall i :: 1 <= i < |r| ==> IsContinuation(r[i])
    ensures |r| == 1 <==> c as int < 0x80
  {
    var n := c as int;
    if n < 0x80 then [n]
    else if n < 0x800 then [0xC0 + n / 64, 0x80 + n % 64]
    else if n < 0x10000 then [0xE0 + n / 4096, 0x80 + (n / 64) % 64, 0x80 + n % 64]
    else [0xF0 + n / 262144, 0x80 + (n / 4096) % 64, 0x80 + (n / 64) % 64, 0x80 + n % 64]
  }

  predicate IsScalarValue(n: int) {
    (0 <= n < 0xD800) || (0xE000 <= n < 0x110000)
  }

  /** The value carried by a sequence whose lead byte announces its length. */
  function Assemble(bs: seq<byte>): int
    requires 1 <= |bs| <= 4
  {
    var b: seq<int> := bs;
    if |b| == 1 then b[0]
    else if |b| == 2 then (b[0] - 0xC0) * 64 + (b[1] - 0x80)
    else if |b| == 3 then (b[0] - 0xE0) * 4096 + (b[1] - 0x80) * 64 + (b[2] - 0x80)
    else (b[0] - 0xF0) * 262144 + (b[1] - 0x80) * 4096 + (b[2] - 0x80) * 64 + (b[3] - 0x80)
  }

  /** The least value a sequence of `n` bytes may carry; anything smaller is over-long. */
  function Least(n: nat): int {
    if n <= 1 then 0 else if n == 2 then 0x80 else if n == 3 then 0x800 else 0x10000
  }

  /**
   * Decodes one complete sequence, rejecting bad continuation bytes,
   * over-long forms, surrogates and values beyond U+10FFFF.
   */
  function DecodeChar(bs: seq<byte>): (r: Option<char>)
    requires 1 <= |bs| <= 4
    ensures r.Some? ==> EncodeChar(r.value) == bs
  {
    if SequenceLength(bs[0]) != |bs| then None
    else if exists i :: 1 <= i < |bs| && !IsContinuation(bs[i]) then None
    else
      var n := Assemble(bs);
      if n < Least(|bs|) || !IsScalarValue(n) then None
      else
        EncodeAssemble(bs);
        Some(n as char)
  }

  /** Splitting a value into 6-bit groups and putting them together again. */
  lemma Digits(n: int)
    requires 0 <= n < 0x110000
    ensures n == (n / 64) * 64 + n % 64
    ensures n / 64 == (n / 4096) * 64 + (n / 64) % 64
    ensures n / 4096 == (n / 262144) * 64 + (n / 4096) % 64
  {
  }

  /** Euclidean division by a power of 64, from a known quotient and remainder. */
  lemma DivideBy(n: int, q: int, r: int, d: int)
    requires d == 64 || d == 4096 || d == 262144
    requires 0 <= r < d && n == q * d + r
    ensures n / d == q && n % d == r
  {
  }

  /** A well-formed two-byte sequence is the encoding of the value it carries. */
  lemma EncodeAssembleTwo(bs: seq<byte>)
    requires |bs| == 2 && SequenceLength(bs[0]) == 2 && IsContinuation(bs[1])
    requires Least(2) <= Assemble(bs)
    ensures Assemble(bs) < 0x800 && EncodeChar(Assemble(bs) as char) == bs
  {
    var n := Assemble(bs);
    DivideBy(n, bs[0] - 0xC0, bs[1] - 0x80, 64);
  }

  /** A well-formed three-byte sequence is the encoding of the value it carries. */
  lemma EncodeAssembleThree(bs: seq<byte>)
    requires |bs| == 3 && SequenceLength(bs[0]) == 3 && IsContinuation(bs[1]) && IsContinuation(bs[2])
    requires Least(3) <= Assemble(bs) && IsScalarValue(Assemble(bs))
    ensures EncodeChar(Assemble(bs) as char) == bs
  {
    var n := Assemble(bs);
    var c0: int, c1: int, c2: int := bs[0] - 0xE0, bs[1] - 0x80, bs[2] - 0x80;
    DivideBy(n, c0, c1 * 64 + c2, 4096);
    DivideBy(n, c0 * 64 + c1, c2, 64);
    DivideBy(n / 64, c0, c1, 64);
    assert EncodeChar(n as char) == [bs[0], bs[1], bs[2]];
  }

  /** A well-formed four-byte sequence is the encoding of the value it carries. */
  lemma EncodeAssembleFour(bs: seq<byte>)
    requires |bs| == 4 && SequenceLength(bs[0]) == 4
    requires IsContinuation(bs[1]) && IsContinuation(bs[2]) && IsContinuation(bs[3])
    requires Least(4) <= Assemble(bs) && IsScalarValue(Assemble(bs))
    ensures EncodeChar(Assemble(bs) as char) == bs
  {
    var n := Assemble(bs);
    var c0: int, c1: int, c2: int, c3: int := bs[0] - 0xF0, bs[1] - 0x80, bs[2] - 0x80, bs[3] - 0x80;
    DivideBy(n, c0, c1 * 4096 + c2 * 64 + c3, 262144);
    DivideBy(n, c0 * 64 + c1, c2 * 64 + c3, 4096);
    DivideBy(n, c0 * 4096 + c1 * 64 + c2, c3, 64);
    DivideBy(n / 4096, c0, c1, 64);
    DivideBy(n / 64, c0 * 64 + c1, c2, 64);
    assert EncodeChar(n as char) == [bs[0], bs[1], bs[2], bs[3]];
  }

  /** A well-formed sequence is the encoding of the value it carries. */
  lemma EncodeAssemble(bs: seq<byte>)
    requires 1 <= |bs| <= 4 && SequenceLength(bs[0]) == |bs|
    requires forall i :: 1 <= i < |bs| ==> IsContinuation(bs[i])
    requires Least(|bs|) <= Assemble(bs) && IsScalarValue(Assemble(bs))
    ensures EncodeChar(Assemble(bs) as char) == bs
  {
    if |bs| == 1 {
      assert EncodeChar(Assemble(bs) as char) == [bs[0]];
    } else if |bs| == 2 {
      EncodeAssembleTwo(bs);
    } else if |bs| == 3 {
      EncodeAssembleThree(bs);
    } else {
      EncodeAssembleFour(bs);
    }
  }

  lemma DecodeEncodeChar(c: char)
    ensures DecodeChar(EncodeChar(c)) == Some(c)
  {
    var n := c as int;
    var bs := EncodeChar(c);
    Digits(n);
    assert Assemble(bs) == n;
  }

  /** Python's `s.encode()`. */
  function Encode(s: string): (r: seq<byte>)
    ensures |s| <= |r| <= 4 * |s|
  {
    if s == [] then [] else EncodeChar(s[0]) + Encode(s[1..])
  }

  /** Python's `bs.decode()`, with `None` for malformed input. */
  function Decode(bs: seq<byte>): (r: Option<string>)
    decreases |bs|
  {
    if bs == [] then Some([])
    else
      var n := SequenceLength(bs[0]);
      if n == 0 || n > |bs| then None
      else match DecodeChar(bs[..n])
        case None => None
        case Some(c) =>
          match Decode(bs[n..])
          case None => None
          case Some(rest) => Some([c] + rest)
  }

  /** Decoding an encoding gives back the string. */
  lemma {:induction false} DecodeEncode(s: string)
    ensures Decode(Encode(s)) == Some(s)
  {
    if s != [] {
      var head := EncodeChar(s[0]);
      var bs := Encode(s);
      assert bs == head + Encode(s[1..]);
      assert bs[..|head|] == head;
      assert bs[|head|..] == Encode(s[1..]);
      DecodeEncodeChar(s[0]);
      DecodeEncode(s[1..]);
      assert [s[0]] + s[1..] == s;
    }
  }

  /** An ASCII string encodes to its own code points, one byte each. */
  lemma {:induction false} EncodeAscii(s: string)
    requires forall i :: 0 <= i < |s| ==> s[i] as int < 0x80
    ensures |Encode(s)| == |s|
    ensures forall i :: 0 <= i < |s| ==> Encode(s)[i] == s[i] as int
  {
    if s != [] {
      EncodeAscii(s[1..]);
    }
  }
}

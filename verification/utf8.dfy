/** UTF-8, as Rust's `str::as_bytes` produces it and `String::from_utf8`
    validates it: shortest-form sequences of one to four bytes for each
    Unicode scalar value, with surrogates and values above U+10FFFF refused. */
module Utf8 {
  import opened Bytes
  import opened Seqs
  import opened Results

  predicate IsContinuation(b: byte) {
    0x80 <= b < 0xC0
  }

  /** Splitting off six low-order bits is unique. */
  lemma SixBits(n: int, q: int, r: int)
    requires 0 <= r < 64 && n == 64 * q + r
    ensures n / 64 == q && n % 64 == r
  {
  }

  /** The bytes that encode one scalar value: a lead byte carrying the
      high-order bits, then one continuation byte per further six bits. */
  function EncodeChar(c: char): (bs: seq<byte>)
    ensures 1 <= |bs| <= 4
    ensures DecodeFirst(bs) == Some((c, |bs|))
  {
    var n := c as int;
    var d0, n1 := n % 64, n / 64;
    var d1, n2 := n1 % 64, n1 / 64;
    var d2, n3 := n2 % 64, n2 / 64;
    if n < 0x80 then
      [n]
    else if n < 0x800 then
      [0xC0 + n1, 0x80 + d0]
    else if n < 0x1_0000 then
      [0xE0 + n2, 0x80 + d1, 0x80 + d0]
    else
      [0xF0 + n3, 0x80 + d2, 0x80 + d1, 0x80 + d0]
  }

  /** The scalar value at the head of `bs` and the number of bytes it
      occupies, or `None` when the head is not a well-formed sequence. */
  function DecodeFirst(bs: seq<byte>): (r: Option<(char, nat)>)
    ensures r.Some? ==> 1 <= r.value.1 <= |bs|
  {
    if |bs| == 0 then None
    else
      var b0 := bs[0] as int;
      if b0 < 0x80 then
        Some((b0 as char, 1))
      else if b0 < 0xC0 then
        None
      else if b0 < 0xE0 then
        if |bs| < 2 || !IsContinuation(bs[1]) then None
        else
          var n := (b0 - 0xC0) * 64 + (bs[1] as int - 0x80);
          if n < 0x80 then None else Some((n as char, 2))
      else if b0 < 0xF0 then
        if |bs| < 3 || !IsContinuation(bs[1]) || !IsContinuation(bs[2]) then None
        else
          var n := ((b0 - 0xE0) * 64 + (bs[1] as int - 0x80)) * 64 + (bs[2] as int - 0x80);
          if n < 0x800 || (0xD800 <= n < 0xE000) then None else Some((n as char, 3))
      else if b0 < 0xF8 then
        if |bs| < 4 || !IsContinuation(bs[1]) || !IsContinuation(bs[2]) || !IsContinuation(bs[3]) then None
        else
          var n := (((b0 - 0xF0) * 64 + (bs[1] as int - 0x80)) * 64 + (bs[2] as int - 0x80)) * 64 + (bs[3] as int - 0x80);
          if n < 0x1_0000 || n >= 0x11_0000 then None else Some((n as char, 4))
      else
        None
  }

  /** Decoding a sequence looks only at the bytes it occupies. */
  lemma DecodeFirstPrefix(bs: seq<byte>, rest: seq<byte>)
    requires DecodeFirst(bs).Some? && DecodeFirst(bs).value.1 == |bs|
    ensures DecodeFirst(bs + rest) == DecodeFirst(bs)
  {
    var ext := bs + rest;
    assert ext[..|bs|] == bs;
  }

  /** A well-formed sequence is the encoding of the value it decodes to. */
  lemma DecodeFirstCanonical(bs: seq<byte>)
    requires DecodeFirst(bs).Some?
    ensures EncodeChar(DecodeFirst(bs).value.0) == bs[..DecodeFirst(bs).value.1]
  {
    var width := DecodeFirst(bs).value.1;
    if width == 2 {
      CanonicalTwo(bs);
    } else if width == 3 {
      CanonicalThree(bs);
    } else if width == 4 {
      CanonicalFour(bs);
    }
  }

  lemma CanonicalTwo(bs: seq<byte>)
    requires DecodeFirst(bs).Some? && DecodeFirst(bs).value.1 == 2
    ensures EncodeChar(DecodeFirst(bs).value.0) == bs[..2]
  {
    var n := DecodeFirst(bs).value.0 as int;
    SixBits(n, bs[0] as int - 0xC0, bs[1] - 0x80);
  }

  lemma CanonicalThree(bs: seq<byte>)
    requires DecodeFirst(bs).Some? && DecodeFirst(bs).value.1 == 3
    ensures EncodeChar(DecodeFirst(bs).value.0) == bs[..3]
  {
    var n := DecodeFirst(bs).value.0 as int;
    var n1 := (bs[0] as int - 0xE0) * 64 + (bs[1] - 0x80);
    SixBits(n, n1, bs[2] - 0x80);
    SixBits(n1, bs[0] as int - 0xE0, bs[1] - 0x80);
  }

  lemma CanonicalFour(bs: seq<byte>)
    requires DecodeFirst(bs).Some? && DecodeFirst(bs).value.1 == 4
    ensures EncodeChar(DecodeFirst(bs).value.0) == bs[..4]
  {
    var n := DecodeFirst(bs).value.0 as int;
    var n2 := (bs[0] as int - 0xF0) * 64 + (bs[1] - 0x80);
    var n1 := n2 * 64 + (bs[2] - 0x80);
    SixBits(n, n1, bs[3] - 0x80);
    SixBits(n1, n2, bs[2] - 0x80);
    SixBits(n2, bs[0] as int - 0xF0, bs[1] - 0x80);
  }

  function Encode(s: string): (bs: seq<byte>)
    ensures |bs| >= |s|
  {
    if |s| == 0 then [] else EncodeChar(s[0]) + Encode(s[1..])
  }

  /** The text `bs` spells out, or `None` when it is not valid UTF-8. */
  function Decode(bs: seq<byte>): Option<string>
    decreases |bs|
  {
    if |bs| == 0 then Some([])
    else
      var (c, width) :- DecodeFirst(bs);
      var tail :- Decode(bs[width..]);
      Some([c] + tail)
  }

  lemma {:induction false} DecodeEncode(s: string)
    ensures Decode(Encode(s)) == Some(s)
  {
    if |s| > 0 {
      var head := EncodeChar(s[0]);
      var bs := Encode(s);
      assert bs == head + Encode(s[1..]);
      DecodeFirstPrefix(head, Encode(s[1..]));
      assert bs[|head|..] == Encode(s[1..]);
      DecodeEncode(s[1..]);
      assert [s[0]] + s[1..] == s;
    }
  }

  /** A decodable sequence is its first character followed by a decodable
      rest. */
  lemma DecodeCons(bs: seq<byte>)
    requires |bs| > 0 && Decode(bs).Some?
    ensures DecodeFirst(bs).Some?
    ensures Decode(bs[DecodeFirst(bs).value.1..]).Some?
    ensures Decode(bs).value == [DecodeFirst(bs).value.0] + Decode(bs[DecodeFirst(bs).value.1..]).value
  {
  }

  lemma EncodeCons(c: char, t: string)
    ensures Encode([c] + t) == EncodeChar(c) + Encode(t)
  {
    assert ([c] + t)[1..] == t;
  }

  lemma {:induction false} EncodeDecode(bs: seq<byte>)
    requires Decode(bs).Some?
    ensures Encode(Decode(bs).value) == bs
    decreases |bs|
  {
    if |bs| > 0 {
      DecodeCons(bs);
      var (c, width) := DecodeFirst(bs).value;
      var t := Decode(bs[width..]).value;
      DecodeFirstCanonical(bs);
      EncodeDecode(bs[width..]);
      EncodeCons(c, t);
      SplitAt(bs, width);
    }
  }
}

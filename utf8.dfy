/**
 * `bytes.decode("utf-8")` with Python's default strict error handling
 * (RFC 3629 well-formed UTF-8 only: no overlong forms, no surrogates, nothing
 * above U+10FFFF), and the matching encoder.
 */
module Utf8 {
  import opened Results
  import opened PyBytes

  predicate IsCont(b: byte) {
    0x80 <= b <= 0xBF
  }

  /** The scalar value `c` as UTF-8: a lead byte, then 6 bits per continuation byte. */
  function EncodeChar(c: char): (e: seq<byte>)
    ensures 1 <= |e| <= 4
  {
    var x := c as int;
    if x < 0x80 then [x as byte]
    else if x < 0x800 then [(0xC0 + x / 64) as byte, (0x80 + x % 64) as byte]
    else if x < 0x10000 then
      [(0xE0 + x / 64 / 64) as byte, (0x80 + x / 64 % 64) as byte, (0x80 + x % 64) as byte]
    else
      [(0xF0 + x / 64 / 64 / 64) as byte, (0x80 + x / 64 / 64 % 64) as byte,
       (0x80 + x / 64 % 64) as byte, (0x80 + x % 64) as byte]
  }

  function Encode(s: string): seq<byte> {
    if s == [] then [] else EncodeChar(s[0]) + Encode(s[1..])
  }

  /** Appends the 6 payload bits of a continuation byte. */
  function Shift(acc: int, b: byte): int {
    acc * 64 + (b as int - 0x80)
  }

  /** Decodes the character at the start of `bs`, with the number of bytes it takes. */
  function DecodeChar(bs: seq<byte>): (r: Option<(char, nat)>)
    requires bs != []
    ensures r.Some? ==> 1 <= r.value.1 <= |bs|
  {
    var b0 := bs[0] as int;
    if b0 < 0x80 then Some((b0 as char, 1))
    else if 0xC2 <= b0 <= 0xDF && |bs| >= 2 && IsCont(bs[1]) then
      Some((Shift(b0 - 0xC0, bs[1]) as char, 2))
    else if 0xE0 <= b0 <= 0xEF && |bs| >= 3 && IsCont(bs[1]) && IsCont(bs[2])
      && (b0 == 0xE0 ==> bs[1] >= 0xA0) && (b0 == 0xED ==> bs[1] <= 0x9F) then
      Some((Shift(Shift(b0 - 0xE0, bs[1]), bs[2]) as char, 3))
    else if 0xF0 <= b0 <= 0xF4 && |bs| >= 4 && IsCont(bs[1]) && IsCont(bs[2]) && IsCont(bs[3])
      && (b0 == 0xF0 ==> bs[1] >= 0x90) && (b0 == 0xF4 ==> bs[1] <= 0x8F) then
      Some((Shift(Shift(Shift(b0 - 0xF0, bs[1]), bs[2]), bs[3]) as char, 4))
    else None
  }

  /** Euclidean division by 64 is fixed by quotient and remainder. */
  lemma DivMod64(y: int, q: int, r: int)
    requires 0 <= r < 64 && y == q * 64 + r
    ensures y / 64 == q && y % 64 == r
  {
  }

  /** Decoding the encoding of one character gives it back, whatever follows. */
  lemma DecodeEncodedChar(c: char, tail: seq<byte>)
    ensures DecodeChar(EncodeChar(c) + tail) == Some((c, |EncodeChar(c)|))
  {
  }

  /** The bytes of one decoded character are its encoding. */
  lemma EncodeDecodedChar(bs: seq<byte>)
    requires bs != [] && DecodeChar(bs).Some?
    ensures EncodeChar(DecodeChar(bs).value.0) == bs[..DecodeChar(bs).value.1]
  {
    var b0 := bs[0] as int;
    var n := DecodeChar(bs).value.1;
    if n == 2 {
      DivMod64(Shift(b0 - 0xC0, bs[1]), b0 - 0xC0, bs[1] as int - 0x80);
    } else if n == 3 {
      var y := Shift(b0 - 0xE0, bs[1]);
      DivMod64(Shift(y, bs[2]), y, bs[2] as int - 0x80);
      DivMod64(y, b0 - 0xE0, bs[1] as int - 0x80);
    } else if n == 4 {
      var y := Shift(b0 - 0xF0, bs[1]);
      var z := Shift(y, bs[2]);
      DivMod64(Shift(z, bs[3]), z, bs[3] as int - 0x80);
      DivMod64(z, y, bs[2] as int - 0x80);
      DivMod64(y, b0 - 0xF0, bs[1] as int - 0x80);
    }
  }

  /** Round trip: every string decodes from its encoding. */
  lemma {:induction false} DecodeEncode(s: string)
    ensures Decode(Encode(s)) == Some(s)
  {
    if s != [] {
      var e := EncodeChar(s[0]);
      DecodeEncodedChar(s[0], Encode(s[1..]));
      assert (e + Encode(s[1..]))[|e|..] == Encode(s[1..]);
      DecodeEncode(s[1..]);
      assert [s[0]] + s[1..] == s;
    }
  }

  /**
   * `bs.decode("utf-8")`; `None` where Python raises `UnicodeDecodeError`.
   * Bytes that decode are exactly the encoding of the text they decode to.
   */
  function Decode(bs: seq<byte>): (r: Option<string>)
    ensures r.Some? ==> Encode(r.value) == bs
    decreases |bs|
  {
    if bs == [] then Some([])
    else
      match DecodeChar(bs)
      case None => None
      case Some((c, n)) =>
        match Decode(bs[n..])
        case None => None
        case Some(s) =>
          EncodeDecodedChar(bs);
          assert bs[..n] + bs[n..] == bs;
          Some([c] + s)
  }
}

/**
 * Python `bytes` values and their `repr` (what an f-string prints for a
 * `bytes` object): `b'...'` with escapes, together with a reader that
 * recovers the bytes from such a literal.
 */
module PyBytes {
  import opened Results

  newtype byte = x: int | 0 <= x < 256

  const Backslash: char := '\\'
  const SingleQuote: char := '\''
  const DoubleQuote: char := '"'

  /**
   * The quote `repr` uses: double quotes only when the bytes hold a single
   * quote and no double quote. Whichever it picks, no byte is written as text
   * that starts with that quote, so the literal ends at its closing quote.
   */
  function QuoteFor(bs: seq<byte>): (q: char)
    ensures q == SingleQuote || q == DoubleQuote
    ensures q == DoubleQuote <==> (39 in bs && 34 !in bs)
    ensures forall i :: 0 <= i < |bs| ==> EscapeByte(bs[i], q) != [] && EscapeByte(bs[i], q)[0] != q
  {
    if 39 in bs && 34 !in bs then DoubleQuote else SingleQuote
  }

  function HexDigit(d: int): char
    requires 0 <= d < 16
  {
    if d < 10 then ('0' as int + d) as char else ('a' as int + d - 10) as char
  }

  /** Inverse of HexDigit on lower-case hexadecimal digits. */
  function HexValue(c: char): (r: Option<int>)
    ensures r.Some? ==> 0 <= r.value < 16 && HexDigit(r.value) == c
  {
    if '0' <= c <= '9' then Some(c as int - '0' as int)
    else if 'a' <= c <= 'f' then Some(c as int - 'a' as int + 10)
    else None
  }

  /** How `repr` writes one byte inside a literal quoted with `q`. */
  function EscapeByte(b: byte, q: char): string {
    if b as int == q as int || b as int == Backslash as int then [Backslash, b as int as char]
    else if b == 9 then "\\t"
    else if b == 10 then "\\n"
    else if b == 13 then "\\r"
    else if b < 32 || b >= 127 then [Backslash, 'x', HexDigit(b as int / 16), HexDigit(b as int % 16)]
    else [b as int as char]
  }

  function Escape(bs: seq<byte>, q: char): string {
    if bs == [] then [] else EscapeByte(bs[0], q) + Escape(bs[1..], q)
  }

  /** `repr(bs)`: reading the literal back gives `bs`, whatever text follows it. */
  function Repr(bs: seq<byte>): (r: string)
    ensures forall rest :: ReadRepr(r + rest) == Some((bs, rest))
  {
    var q := QuoteFor(bs);
    var r := "b" + [q] + Escape(bs, q) + [q];
    assert forall rest :: ReadRepr(r + rest) == Some((bs, rest)) by {
      forall rest ensures ReadRepr(r + rest) == Some((bs, rest)) {
        assert (r + rest)[2..] == Escape(bs, q) + [q] + rest;
        ReadEscaped(bs, q, rest);
      }
    }
    r
  }

  /** Reads one escaped byte at the start of `s`; returns it and the number of characters it took. */
  function ReadByte(s: string, q: char): (r: Option<(byte, nat)>)
    requires s != [] && s[0] != q
    ensures r.Some? ==> 1 <= r.value.1 <= |s|
  {
    if s[0] == Backslash then
      if |s| < 2 then None
      else if s[1] == Backslash || s[1] == q then
        if s[1] as int < 256 then Some((s[1] as int as byte, 2)) else None
      else if s[1] == 't' then Some((9, 2))
      else if s[1] == 'n' then Some((10, 2))
      else if s[1] == 'r' then Some((13, 2))
      else if s[1] == 'x' && |s| >= 4 && HexValue(s[2]).Some? && HexValue(s[3]).Some? then
        Some(((HexValue(s[2]).value * 16 + HexValue(s[3]).value) as byte, 4))
      else None
    else if ' ' <= s[0] <= '~' then Some((s[0] as int as byte, 1))
    else None
  }

  /** Reads escaped bytes up to the closing quote `q`; returns them and what follows the quote. */
  function ReadBody(s: string, q: char): Option<(seq<byte>, string)>
    decreases |s|
  {
    if s == [] then None
    else if s[0] == q then Some(([], s[1..]))
    else
      match ReadByte(s, q)
      case None => None
      case Some((b, n)) =>
        match ReadBody(s[n..], q)
        case None => None
        case Some((bs, rest)) => Some(([b] + bs, rest))
  }

  /** Reads a bytes literal `b'...'` or `b"..."` at the start of `s`; returns its bytes and what follows it. */
  function ReadRepr(s: string): Option<(seq<byte>, string)> {
    if |s| >= 2 && s[0] == 'b' && (s[1] == SingleQuote || s[1] == DoubleQuote) then ReadBody(s[2..], s[1])
    else None
  }

  /** Reading back one escaped byte gives that byte, whatever follows it. */
  lemma ReadEscapedByte(b: byte, q: char, tail: string)
    requires q == SingleQuote || q == DoubleQuote
    ensures EscapeByte(b, q) != [] && EscapeByte(b, q)[0] != q
    ensures ReadByte(EscapeByte(b, q) + tail, q) == Some((b, |EscapeByte(b, q)|))
  {
  }

  /** The escaped body followed by the closing quote reads back as the original bytes. */
  lemma {:induction false} ReadEscaped(bs: seq<byte>, q: char, rest: string)
    requires q == SingleQuote || q == DoubleQuote
    ensures ReadBody(Escape(bs, q) + [q] + rest, q) == Some((bs, rest))
  {
    if bs == [] {
      assert Escape(bs, q) + [q] + rest == [q] + rest;
    } else {
      var e := EscapeByte(bs[0], q);
      var tail := Escape(bs[1..], q) + [q] + rest;
      assert Escape(bs, q) + [q] + rest == e + tail;
      ReadEscapedByte(bs[0], q, tail);
      assert (e + tail)[|e|..] == tail;
      ReadEscaped(bs[1..], q, rest);
      assert [bs[0]] + bs[1..] == bs;
    }
  }
}

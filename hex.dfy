/** Lowercase hexadecimal rendering of bytes, as Node's `Buffer.toString('hex')`
    produces it, and the PostgreSQL `bytea` hex input format built on it: the
    two characters `\x` followed by two hex digits per byte. */
module Hex {
  import opened Wrappers

  newtype byte = x: int | 0 <= x < 256

  /** One of `0`-`9` or `a`-`f`. */
  predicate IsLowerHex(c: char)
  {
    '0' <= c <= '9' || 'a' <= c <= 'f'
  }

  /** The digit for a nibble. */
  function HexDigit(n: int): (c: char)
    requires 0 <= n < 16
    ensures IsLowerHex(c)
    ensures DigitValue(c) == Some(n)
  {
    if n < 10 then ('0' as int + n) as char else ('a' as int + n - 10) as char
  }

  /** The nibble a lowercase digit stands for; `None` for any other character. */
  function DigitValue(c: char): (v: Option<int>)
    ensures v.Some? <==> IsLowerHex(c)
    ensures v.Some? ==> 0 <= v.value < 16
  {
    if '0' <= c <= '9' then Some(c as int - '0' as int)
    else if 'a' <= c <= 'f' then Some(c as int - 'a' as int + 10)
    else None
  }

  /** A lowercase digit is the digit of its own value. */
  lemma DigitOf(c: char)
    requires IsLowerHex(c)
    ensures HexDigit(DigitValue(c).value) == c
  {
  }

  /** Two digits per byte, high nibble first. */
  function Encode(bytes: seq<byte>): (s: string)
    ensures |s| == 2 * |bytes|
    ensures forall k :: 0 <= k < |s| ==> IsLowerHex(s[k])
  {
    if bytes == [] then ""
    else [HexDigit(bytes[0] as int / 16), HexDigit(bytes[0] as int % 16)] + Encode(bytes[1..])
  }

  /** The inverse of `Encode`: `None` for an odd length or a character that is
      not a lowercase hex digit. */
  function Decode(s: string): (r: Option<seq<byte>>)
    ensures r.Some? ==> 2 * |r.value| == |s|
  {
    if s == [] then Some([])
    else if |s| == 1 then None
    else match (DigitValue(s[0]), DigitValue(s[1]), Decode(s[2..]))
      case (Some(hi), Some(lo), Some(rest)) => Some([(hi * 16 + lo) as byte] + rest)
      case _ => None
  }

  /** The `bytea` literal for a byte string: `\x` and its hex digits. */
  function Bytea(bytes: seq<byte>): string
  {
    "\\x" + Encode(bytes)
  }

  /** Reads back exactly what `Bytea` writes: `\x` and lowercase digit pairs.
      PostgreSQL itself also takes uppercase digits and whitespace between pairs. */
  function ParseBytea(s: string): Option<seq<byte>>
  {
    if |s| >= 2 && s[..2] == "\\x" then Decode(s[2..]) else None
  }

  /** A byte is its high nibble times sixteen plus its low nibble. */
  lemma Nibbles(b: byte)
    ensures 0 <= b as int / 16 < 16 && 0 <= b as int % 16 < 16
    ensures (b as int / 16) * 16 + b as int % 16 == b as int
  {
  }

  lemma {:induction false} DecodeEncode(bytes: seq<byte>)
    ensures Decode(Encode(bytes)) == Some(bytes)
  {
    if bytes != [] {
      var b := bytes[0];
      Nibbles(b);
      var hi, lo := b as int / 16, b as int % 16;
      var s := Encode(bytes);
      assert s == [HexDigit(hi), HexDigit(lo)] + Encode(bytes[1..]);
      assert s[2..] == Encode(bytes[1..]);
      DecodeEncode(bytes[1..]);
      assert (hi * 16 + lo) as byte == b;
      assert [b] + bytes[1..] == bytes;
    }
  }

  /** Only an encoding decodes: `Decode(s) == Some(b)` exactly when `s == Encode(b)`. */
  lemma EncodeDecode(s: string, bytes: seq<byte>)
    ensures Decode(s) == Some(bytes) <==> s == Encode(bytes)
  {
    if s == Encode(bytes) {
      DecodeEncode(bytes);
    }
    if Decode(s) == Some(bytes) {
      DecodedIsEncoding(s, bytes);
    }
  }

  /** What decodes to some bytes is their encoding. */
  lemma {:induction false} DecodedIsEncoding(s: string, bytes: seq<byte>)
    requires Decode(s) == Some(bytes)
    ensures s == Encode(bytes)
  {
    if s != [] {
      var hi := DigitValue(s[0]).value;
      var lo := DigitValue(s[1]).value;
      DecodedIsEncoding(s[2..], bytes[1..]);
      assert bytes[0] as int / 16 == hi && bytes[0] as int % 16 == lo;
      DigitOf(s[0]);
      DigitOf(s[1]);
      assert [s[0], s[1]] + s[2..] == s;
    }
  }

  /** The `bytea` literal has its two-character prefix and two digits per byte. */
  lemma ByteaShape(bytes: seq<byte>)
    ensures |Bytea(bytes)| == 2 + 2 * |bytes|
    ensures Bytea(bytes)[..2] == "\\x"
    ensures forall k :: 2 <= k < |Bytea(bytes)| ==> IsLowerHex(Bytea(bytes)[k])
  {
    var e := Encode(bytes);
    assert forall k :: 2 <= k < |Bytea(bytes)| ==> Bytea(bytes)[k] == e[k - 2];
  }

  /** Reading the literal back gives the original bytes, and only a literal
      of those bytes reads back to them. */
  lemma ByteaRoundTrip(s: string, bytes: seq<byte>)
    ensures ParseBytea(s) == Some(bytes) <==> s == Bytea(bytes)
  {
    var lit := Bytea(bytes);
    assert lit[..2] == "\\x" && lit[2..] == Encode(bytes);
    EncodeDecode(lit[2..], bytes);
    if |s| >= 2 && s[..2] == "\\x" {
      EncodeDecode(s[2..], bytes);
      assert s == s[..2] + s[2..];
    }
  }

  /** The `bytea` literal of the asset `index.html` holding `<h1>hi</h1>`. */
  lemma IndexHtmlLiteral(b: seq<byte>)
    requires b == [0x3c, 0x68, 0x31, 0x3e, 0x68, 0x69, 0x3c, 0x2f, 0x68, 0x31, 0x3e]
    ensures Bytea(b) == "\\x3c68313e68693c2f68313e"
  {
    var h1, hi, end := b[..4], b[4..6], b[6..];   // <h1>, hi, </h1>
    EncodeTag(h1);
    EncodeHi(hi);
    EncodeEnd(end);
    assert h1 + hi + end == b;
    EncodeAppend(h1, hi);
    EncodeAppend(h1 + hi, end);
    DigitsConcat(Encode(h1), Encode(hi), Encode(end));
  }

  /** The three pieces' digits, side by side. */
  lemma DigitsConcat(x: string, y: string, z: string)
    requires x == "3c68313e" && y == "6869" && z == "3c2f68313e"
    ensures "\\x" + (x + y + z) == "\\x3c68313e68693c2f68313e"
  {
  }

  lemma EncodeTag(b: seq<byte>)
    requires b == [0x3c, 0x68, 0x31, 0x3e]
    ensures Encode(b) == "3c68313e"
  {
    assert HexDigit(1) == '1' && HexDigit(3) == '3' && HexDigit(6) == '6';
    assert HexDigit(8) == '8' && HexDigit(12) == 'c' && HexDigit(14) == 'e';
    assert Encode(b[3..]) == "3e";
    assert Encode(b[2..]) == "31" + Encode(b[3..]);
    assert Encode(b[1..]) == "68" + Encode(b[2..]);
  }

  lemma EncodeHi(b: seq<byte>)
    requires b == [0x68, 0x69]
    ensures Encode(b) == "6869"
  {
    assert HexDigit(6) == '6' && HexDigit(8) == '8' && HexDigit(9) == '9';
    assert Encode(b[1..]) == "69";
  }

  lemma EncodeEnd(b: seq<byte>)
    requires b == [0x3c, 0x2f, 0x68, 0x31, 0x3e]
    ensures Encode(b) == "3c2f68313e"
  {
    assert HexDigit(1) == '1' && HexDigit(2) == '2' && HexDigit(3) == '3' && HexDigit(6) == '6';
    assert HexDigit(8) == '8' && HexDigit(12) == 'c' && HexDigit(14) == 'e' && HexDigit(15) == 'f';
    assert Encode(b[4..]) == "3e";
    assert Encode(b[3..]) == "31" + Encode(b[4..]);
    assert Encode(b[2..]) == "68" + Encode(b[3..]);
    assert Encode(b[1..]) == "2f" + Encode(b[2..]);
  }

  /** Encoding is done byte by byte, so it distributes over concatenation. */
  lemma {:induction false} EncodeAppend(a: seq<byte>, b: seq<byte>)
    ensures Encode(a + b) == Encode(a) + Encode(b)
  {
    if a != [] {
      assert (a + b)[1..] == a[1..] + b;
      EncodeAppend(a[1..], b);
    } else {
      assert a + b == b;
    }
  }
}

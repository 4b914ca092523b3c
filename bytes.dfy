/** Bytes and the lowercase hexadecimal rendering that hexdigest() produces. */
module Bytes {
  import opened Wrappers

  newtype byte = b: int | 0 <= b < 256

  /** The digit for a value below 16: '0'..'9' then 'a'..'f'. */
  function HexDigit(v: int): (c: char)
    requires 0 <= v < 16
    ensures IsLowerHexDigit(c)
  {
    if v < 10 then ('0' as int + v) as char else ('a' as int + v - 10) as char
  }

  predicate IsLowerHexDigit(c: char) {
    ('0' <= c <= '9') || ('a' <= c <= 'f')
  }

  /** The value of one lowercase hex digit, None for any other character. */
  function HexValue(c: char): (v: Option<int>)
    ensures v.Some? <==> IsLowerHexDigit(c)
    ensures v.Some? ==> 0 <= v.value < 16 && HexDigit(v.value) == c
  {
    if '0' <= c <= '9' then Some(c as int - '0' as int)
    else if 'a' <= c <= 'f' then Some(c as int - 'a' as int + 10)
    else None
  }

  /** bytes.hex() / hexdigest(): two lowercase digits per byte, high nibble first. */
  function Hex(b: seq<byte>): (r: string)
    ensures |r| == 2 * |b|
    ensures forall i :: 0 <= i < |r| ==> IsLowerHexDigit(r[i])
  {
    if b == [] then []
    else
      var v := b[0] as int;
      [HexDigit(v / 16), HexDigit(v % 16)] + Hex(b[1..])
  }

  /** bytes.fromhex() restricted to lowercase digit pairs: the inverse of Hex. */
  function UnHex(s: string): (r: Option<seq<byte>>)
    ensures r.Some? ==> |s| == 2 * |r.value|
  {
    if s == [] then Some([])
    else if |s| < 2 then None
    else
      match (HexValue(s[0]), HexValue(s[1]), UnHex(s[2..]))
      case (Some(hi), Some(lo), Some(rest)) => Some([(hi * 16 + lo) as byte] + rest)
      case _ => None
  }

  /** Hex loses nothing: distinct digests give distinct hex strings. */
  lemma {:induction false} UnHexHex(b: seq<byte>)
    ensures UnHex(Hex(b)) == Some(b)
  {
    if b != [] {
      var v := b[0] as int;
      var s := Hex(b);
      assert s[2..] == Hex(b[1..]);
      assert HexValue(HexDigit(v / 16)) == Some(v / 16);
      assert HexValue(HexDigit(v % 16)) == Some(v % 16);
      UnHexHex(b[1..]);
      assert b == [b[0]] + b[1..];
    }
  }
}

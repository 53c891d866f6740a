/** Lower-case hexadecimal text of byte strings (`hex.EncodeToString`, the `%x` verb). */
module Hex {
  import opened Ints

  predicate IsHexDigit(c: char) {
    '0' <= c <= '9' || 'a' <= c <= 'f'
  }

  function Digit(n: int): (c: char)
    requires 0 <= n < 16
    ensures IsHexDigit(c) && c == "0123456789abcdef"[n]
  {
    if n < 10 then '0' + n as char else 'a' + (n - 10) as char
  }

  /** The reader that inverts `Digit`; other characters read as 0. */
  function Value(c: char): (n: int)
    ensures 0 <= n < 16
  {
    if '0' <= c <= '9' then (c - '0') as int
    else if 'a' <= c <= 'f' then (c - 'a') as int + 10
    else 0
  }

  function Encode(bytes: seq<u8>): string {
    if bytes == [] then ""
    else [Digit(bytes[0] / 16), Digit(bytes[0] % 16)] + Encode(bytes[1..])
  }

  function Decode(text: string): seq<u8> {
    if |text| < 2 then []
    else [Value(text[0]) * 16 + Value(text[1])] + Decode(text[2..])
  }

  lemma {:induction false} DecodeEncode(bytes: seq<u8>)
    ensures Decode(Encode(bytes)) == bytes
  {
    if bytes != [] {
      var text := Encode(bytes);
      assert text[2..] == Encode(bytes[1..]);
      DecodeEncode(bytes[1..]);
    }
  }

  /** Distinct raw ids never share a hexadecimal id. */
  lemma EncodeInjective(a: seq<u8>, b: seq<u8>)
    requires Encode(a) == Encode(b)
    ensures a == b
  {
    DecodeEncode(a);
    DecodeEncode(b);
  }

  /** Byte i stands at characters 2i and 2i + 1, high digit first. */
  lemma {:induction false} EncodeAt(bytes: seq<u8>, i: nat)
    requires i < |bytes|
    ensures |Encode(bytes)| == 2 * |bytes|
    ensures Encode(bytes)[2 * i] == "0123456789abcdef"[bytes[i] / 16]
    ensures Encode(bytes)[2 * i + 1] == "0123456789abcdef"[bytes[i] % 16]
  {
    EncodeShape(bytes);
    if i > 0 {
      EncodeAt(bytes[1..], i - 1);
    }
  }

  lemma {:induction false} EncodeShape(bytes: seq<u8>)
    ensures |Encode(bytes)| == 2 * |bytes|
    ensures forall c :: c in Encode(bytes) ==> IsHexDigit(c)
  {
    if bytes != [] {
      EncodeShape(bytes[1..]);
    }
  }
}

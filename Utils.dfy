/** `Utils.byteArray2Hex`: lower-case base16 (the alphabet of section 8 of RFC 4648, lower-cased). */
module Utils {

  /** A Java `byte`, signed. */
  newtype JByte = x: int | -128 <= x < 128

  const HEX: string := "0123456789abcdef"

  /** The byte as the low eight bits of its sign-extended `int`. */
  function Unsigned(b: JByte): (u: nat)
    ensures u < 256
    ensures u == if b < 0 then b as int + 256 else b as int
  {
    (b as int) % 256
  }

  /** `(b & 0xF0) >> 4` */
  function HighNibble(b: JByte): (n: nat)
    ensures n < 16
  {
    Unsigned(b) / 16
  }

  /** `b & 0x0F` */
  function LowNibble(b: JByte): (n: nat)
    ensures n < 16
  {
    Unsigned(b) % 16
  }

  /** The two characters appended for one byte. */
  function HexOfByte(b: JByte): string {
    [HEX[HighNibble(b)], HEX[LowNibble(b)]]
  }

  /** The string the loop builds from `bytes`. */
  function Hex(bytes: seq<JByte>): string {
    if |bytes| == 0 then "" else Hex(bytes[..|bytes| - 1]) + HexOfByte(bytes[|bytes| - 1])
  }

  /** `Utils.byteArray2Hex` */
  method ByteArray2Hex(bytes: array<JByte>) returns (s: string)
    ensures s == Hex(bytes[..])
  {
    s := "";
    for i := 0 to bytes.Length
      invariant s == Hex(bytes[..i])
    {
      assert bytes[..i + 1][..i] == bytes[..i];
      s := s + [HEX[(Unsigned(bytes[i])) / 16]];
      s := s + [HEX[Unsigned(bytes[i]) % 16]];
    }
    assert bytes[..bytes.Length] == bytes[..];
  }

  /** The value of a lower-case hex digit. */
  function DigitValue(c: char): (v: nat)
    ensures v < 16
  {
    if '0' <= c <= '9' then c as int - '0' as int
    else if 'a' <= c <= 'f' then c as int - 'a' as int + 10
    else 0
  }

  /** Reads two characters back as a byte. */
  function ByteOfPair(hi: char, lo: char): JByte {
    var v := DigitValue(hi) * 16 + DigitValue(lo);
    if v >= 128 then (v - 256) as JByte else v as JByte
  }

  /** Decodes a string of even length pair by pair. */
  function Unhex(s: string): seq<JByte>
    requires |s| % 2 == 0
  {
    if |s| == 0 then [] else Unhex(s[..|s| - 2]) + [ByteOfPair(s[|s| - 2], s[|s| - 1])]
  }

  // ---------------------------------------------------------------------------
  // Properties

  /** Two characters per byte. */
  lemma {:induction false} HexLength(bytes: seq<JByte>)
    ensures |Hex(bytes)| == 2 * |bytes|
    ensures |Hex(bytes)| % 2 == 0
  {
    if |bytes| > 0 {
      HexLength(bytes[..|bytes| - 1]);
    }
  }

  /** Every character is one of `0-9a-f`. */
  lemma {:induction false} HexAlphabet(bytes: seq<JByte>)
    ensures forall i :: 0 <= i < |Hex(bytes)| ==> Hex(bytes)[i] in HEX
  {
    if |bytes| > 0 {
      HexAlphabet(bytes[..|bytes| - 1]);
    }
  }

  /** Characters `2i` and `2i+1` are the high and low nibbles of byte `i`. */
  lemma {:induction false} HexAt(bytes: seq<JByte>, i: nat)
    requires i < |bytes|
    ensures |Hex(bytes)| == 2 * |bytes|
    ensures Hex(bytes)[2 * i] == HEX[HighNibble(bytes[i])]
    ensures Hex(bytes)[2 * i + 1] == HEX[LowNibble(bytes[i])]
  {
    HexLength(bytes);
    var n := |bytes| - 1;
    if i < n {
      HexAt(bytes[..n], i);
      HexLength(bytes[..n]);
    } else {
      HexLength(bytes[..n]);
    }
  }

  /** Encoding distributes over concatenation. */
  lemma {:induction false} HexConcat(a: seq<JByte>, b: seq<JByte>)
    ensures Hex(a + b) == Hex(a) + Hex(b)
    decreases |b|
  {
    if |b| > 0 {
      var n := |b| - 1;
      assert (a + b)[..|a + b| - 1] == a + b[..n];
      HexConcat(a, b[..n]);
    } else {
      assert a + b == a;
    }
  }

  lemma ByteOfPairInverts(b: JByte)
    ensures ByteOfPair(HEX[HighNibble(b)], HEX[LowNibble(b)]) == b
  {
    var hi, lo := HighNibble(b), LowNibble(b);
    assert DigitValue(HEX[hi]) == hi;
    assert DigitValue(HEX[lo]) == lo;
  }

  /** Decoding the encoding gives back the bytes, so the encoding is injective. */
  lemma UnhexSnoc(front: string, hi: char, lo: char)
    requires |front| % 2 == 0
    ensures Unhex(front + [hi, lo]) == Unhex(front) + [ByteOfPair(hi, lo)]
  {
    var s := front + [hi, lo];
    assert s[..|s| - 2] == front;
  }

  lemma {:induction false} UnhexHex(bytes: seq<JByte>)
    ensures |Hex(bytes)| % 2 == 0
    ensures Unhex(Hex(bytes)) == bytes
  {
    HexLength(bytes);
    if |bytes| > 0 {
      var n := |bytes| - 1;
      var b := bytes[n];
      var front := Hex(bytes[..n]);
      HexLength(bytes[..n]);
      assert Hex(bytes) == front + [HEX[HighNibble(b)], HEX[LowNibble(b)]];
      UnhexHex(bytes[..n]);
      assert Unhex(front) == bytes[..n];
      UnhexSnoc(front, HEX[HighNibble(b)], HEX[LowNibble(b)]);
      ByteOfPairInverts(b);
      assert Unhex(Hex(bytes)) == bytes[..n] + [b];
      assert bytes == bytes[..n] + [b];
    }
  }

  lemma HexInjective(a: seq<JByte>, b: seq<JByte>)
    requires Hex(a) == Hex(b)
    ensures a == b
  {
    UnhexHex(a);
    UnhexHex(b);
  }
}

/**
 * ErrorCodeGenerator.generateHexCode: the diagnostic code shown with a
 * generic 500 answer. SecureRandom is replaced by the bytes it would draw,
 * passed in as a parameter.
 */
module ErrorCodes {
  import opened Hex

  const ERROR_CODE_LENGTH: nat := 8

  /** A Java byte: signed, eight bits. */
  type JavaByte = b: int | -128 <= b < 128

  /** The unsigned value of a Java byte (two's complement). */
  function Unsigned(b: JavaByte): Byte {
    if b < 0 then b + 256 else b
  }

  function UnsignedAll(bs: seq<JavaByte>): (r: seq<Byte>)
    ensures |r| == |bs|
    ensures forall i :: 0 <= i < |bs| ==> r[i] == Unsigned(bs[i])
  {
    if bs == [] then [] else [Unsigned(bs[0])] + UnsignedAll(bs[1..])
  }

  /** String.format("%02x", b) on a byte: a negative byte is first widened by
      2^8, so the result is always two lower-case digits. */
  function Format02x(b: JavaByte): string {
    ByteHex(Unsigned(b))
  }

  /** Fills a buffer of ERROR_CODE_LENGTH / 2 bytes with the drawn bytes and
      appends each, in order, as two hex digits. */
  method GenerateHexCode(drawn: seq<JavaByte>) returns (code: string)
    requires |drawn| == ERROR_CODE_LENGTH / 2
    ensures code == HexEncode(UnsignedAll(drawn))
    ensures |code| == ERROR_CODE_LENGTH
    ensures IsLowerHex(code)
  {
    var bytes := new JavaByte[ERROR_CODE_LENGTH / 2];
    forall i | 0 <= i < bytes.Length {
      bytes[i] := drawn[i];
    }
    assert bytes[..] == drawn;
    var sb := "";
    for i := 0 to bytes.Length
      invariant bytes[..] == drawn
      invariant sb == HexEncode(UnsignedAll(bytes[..i]))
    {
      ghost var done := UnsignedAll(bytes[..i]);
      ghost var next := [Unsigned(bytes[i])];
      assert UnsignedAll(bytes[..i + 1]) == done + next by {
        assert bytes[..i + 1] == bytes[..i] + [bytes[i]];
        UnsignedAppend(bytes[..i], bytes[i]);
      }
      HexEncodeConcat(done, next);
      assert HexEncode(next) == Format02x(bytes[i]);
      sb := sb + Format02x(bytes[i]);
    }
    assert bytes[..bytes.Length] == drawn;
    code := sb;
  }

  lemma UnsignedAppend(bs: seq<JavaByte>, b: JavaByte)
    ensures UnsignedAll(bs + [b]) == UnsignedAll(bs) + [Unsigned(b)]
  {
  }

  /** Reading the code back two digits at a time recovers the drawn bytes, so
      distinct draws give distinct codes. */
  lemma CodeDeterminesBytes(drawn: seq<JavaByte>, code: string)
    requires code == HexEncode(UnsignedAll(drawn))
    ensures HexDecode(code) == UnsignedAll(drawn)
  {
    HexRoundTrip(UnsignedAll(drawn));
  }

  lemma {:induction false} UnsignedAllInjective(a: seq<JavaByte>, b: seq<JavaByte>)
    requires UnsignedAll(a) == UnsignedAll(b)
    ensures a == b
  {
    assert |a| == |b|;
    forall i | 0 <= i < |a| ensures a[i] == b[i] {
      assert Unsigned(a[i]) == UnsignedAll(a)[i];
    }
  }

  /** Distinct draws of bytes give distinct error codes. */
  lemma CodesAreInjective(a: seq<JavaByte>, b: seq<JavaByte>)
    requires HexEncode(UnsignedAll(a)) == HexEncode(UnsignedAll(b))
    ensures a == b
  {
    HexEncodeInjective(UnsignedAll(a), UnsignedAll(b));
    UnsignedAllInjective(a, b);
  }

  /** A byte of -1 is rendered "ff", 0x0A as "0a", -128 as "80". */
  lemma FormatExamples()
    ensures Format02x(-1) == "ff" && Format02x(10) == "0a" && Format02x(-128) == "80"
  {
  }
}

/** The hex codec of src/utils.rs: `encode_hex` and `decode_hex`. */
module Utils {
  import opened Results

  /** Rust's `u8`. */
  type Byte = bv8

  /** The single failure kind `u8::from_str_radix` can report on a two-character chunk. */
  datatype ParseIntError = InvalidDigit

  predicate IsAscii(s: string)
  {
    forall i :: 0 <= i < |s| ==> s[i] < 128 as char
  }

  predicate IsLowerHexDigit(c: char)
  {
    '0' <= c <= '9' || 'a' <= c <= 'f'
  }

  /** `char::to_digit(16)`: digits and letters of either case. */
  function DigitValue(c: char): (d: Option<nat>)
    ensures d.Some? ==> d.value < 16
  {
    if '0' <= c <= '9' then Some(c as int - '0' as int)
    else if 'a' <= c <= 'f' then Some(c as int - 'a' as int + 10)
    else if 'A' <= c <= 'F' then Some(c as int - 'A' as int + 10)
    else None
  }

  function LowerDigit(d: nat): (c: char)
    requires d < 16
    ensures IsLowerHexDigit(c) && DigitValue(c) == Some(d)
  {
    if d < 10 then ('0' as int + d) as char else ('a' as int + d - 10) as char
  }

  /**
   * `u8::from_str_radix(chunk, 16)` on a chunk of two characters: a leading
   * '+' is dropped (a leading '-' is not, since `u8` is unsigned), and what is
   * left must be base-16 digits. Two digits never overflow a `u8`.
   */
  function ParseChunk(c0: char, c1: char): (r: Result<Byte, ParseIntError>)
    ensures r.Ok? <==> (c0 == '+' || DigitValue(c0).Some?) && DigitValue(c1).Some?
    ensures r.Ok? && c0 == '+' ==> r.value == DigitValue(c1).value as Byte
    ensures r.Ok? && c0 != '+' ==>
      r.value == (16 * DigitValue(c0).value + DigitValue(c1).value) as Byte
  {
    if c0 == '+' then
      match DigitValue(c1)
      case None => Err(InvalidDigit)
      case Some(lo) => Ok(lo as Byte)
    else
      match (DigitValue(c0), DigitValue(c1))
      case (Some(hi), Some(lo)) => Ok((16 * hi + lo) as Byte)
      case _ => Err(InvalidDigit)
  }

  /** The `i`-th two-character chunk `s[2i..2i+2]`, parsed. */
  function ChunkAt(s: string, i: nat): Result<Byte, ParseIntError>
    requires 2 * i + 1 < |s|
  {
    ParseChunk(s[2 * i], s[2 * i + 1])
  }

  /**
   * `decode_hex`: parses the input two characters at a time and stops at the
   * first chunk that does not parse. On an odd length the source panics
   * (`s[i..i + 2]` is out of range) once every earlier chunk has parsed; an
   * earlier bad chunk returns its `Err` first. The first precondition leaves
   * out both outcomes of an odd length.
   */
  function DecodeHex(s: string): (r: Result<seq<Byte>, ParseIntError>)
    requires |s| % 2 == 0
    requires IsAscii(s)
    ensures r.Ok? ==> |r.value| == |s| / 2
  {
    if |s| == 0 then Ok([])
    else
      match ParseChunk(s[0], s[1])
      case Err(e) => Err(e)
      case Ok(b) =>
        match DecodeHex(s[2..])
        case Err(e) => Err(e)
        case Ok(rest) => Ok([b] + rest)
  }

  /**
   * What `decode_hex` computes, chunk by chunk: it succeeds exactly when every
   * chunk parses, and then byte `i` is chunk `s[2i..2i+2]` read in base 16.
   */
  lemma {:induction false} DecodeHexChunks(s: string)
    requires |s| % 2 == 0
    requires IsAscii(s)
    ensures DecodeHex(s).Ok? <==> forall i :: 0 <= i < |s| / 2 ==> ChunkAt(s, i).Ok?
    ensures DecodeHex(s).Ok? ==>
      forall i :: 0 <= i < |s| / 2 ==> DecodeHex(s).value[i] == ChunkAt(s, i).value
  {
    if |s| > 0 {
      var tail := s[2..];
      assert |tail| / 2 == |s| / 2 - 1;
      forall i | 0 <= i < |tail| / 2 ensures ChunkAt(tail, i) == ChunkAt(s, i + 1) {
        assert tail[2 * i] == s[2 * (i + 1)] && tail[2 * i + 1] == s[2 * (i + 1) + 1];
      }
      DecodeHexChunks(tail);
      var first := ChunkAt(s, 0);
      if first.Ok? && DecodeHex(tail).Ok? {
        var r := DecodeHex(s).value;
        assert r == [first.value] + DecodeHex(tail).value;
        forall i | 0 <= i < |s| / 2 ensures r[i] == ChunkAt(s, i).value {
          if i > 0 {
            assert r[i] == DecodeHex(tail).value[i - 1];
          }
        }
      }
    }
  }

  /** `write!(&mut s, "{:02x}", b)`: two lower-case digits, zero-padded. */
  function ByteHex(b: Byte): (s: string)
    ensures |s| == 2 && IsLowerHexDigit(s[0]) && IsLowerHexDigit(s[1])
    ensures ParseChunk(s[0], s[1]) == Ok(b)
  {
    var hi, lo := b as int / 16, b as int % 16;
    assert 16 * hi + lo == b as int;
    [LowerDigit(hi), LowerDigit(lo)]
  }

  /** The string `encode_hex` builds: the bytes' two-digit forms, in input order. */
  function Hex(bytes: seq<Byte>): (s: string)
    ensures |s| == 2 * |bytes|
    ensures forall j :: 0 <= j < |s| ==> IsLowerHexDigit(s[j])
    ensures forall i :: 0 <= i < |bytes| ==> s[2 * i..2 * i + 2] == ByteHex(bytes[i])
  {
    if |bytes| == 0 then ""
    else
      var prefix, last := Hex(bytes[..|bytes| - 1]), ByteHex(bytes[|bytes| - 1]);
      assert forall i :: 0 <= i < |bytes| - 1 ==> bytes[..|bytes| - 1][i] == bytes[i];
      prefix + last
  }

  /** `encode_hex`: a loop that appends each byte's two digits to a growing string. */
  method EncodeHex(bytes: seq<Byte>) returns (s: string)
    ensures s == Hex(bytes)
    ensures IsAscii(s) && DecodeHex(s) == Ok(bytes)
  {
    s := "";
    for i := 0 to |bytes|
      invariant s == Hex(bytes[..i])
    {
      assert bytes[..i + 1][..i] == bytes[..i];
      s := s + ByteHex(bytes[i]);
    }
    assert bytes[..|bytes|] == bytes;
    HexRoundTrip(bytes);
  }

  /** Decoding what `encode_hex` produced gives back the bytes. */
  lemma HexRoundTrip(bytes: seq<Byte>)
    ensures IsAscii(Hex(bytes))
    ensures DecodeHex(Hex(bytes)) == Ok(bytes)
  {
    var s := Hex(bytes);
    forall i | 0 <= i < |bytes| ensures ChunkAt(s, i) == Ok(bytes[i]) {
      assert s[2 * i..2 * i + 2] == ByteHex(bytes[i]);
      assert s[2 * i] == ByteHex(bytes[i])[0] && s[2 * i + 1] == ByteHex(bytes[i])[1];
    }
    DecodeHexChunks(s);
    var r := DecodeHex(s);
    assert r.value == bytes;
  }

  lemma EmptyCases()
    ensures Hex([]) == ""
    ensures DecodeHex("") == Ok([])
  {
  }

  /** What `from_str_radix` lets through besides lower-case pairs. */
  lemma LenientChunks()
    ensures ParseChunk('F', 'f') == Ok(0xff)
    ensures ParseChunk('+', 'f') == Ok(0x0f)
    ensures ParseChunk('-', 'f') == Err(InvalidDigit)
    ensures ParseChunk('+', '+') == Err(InvalidDigit)
    ensures ParseChunk('0', 'g') == Err(InvalidDigit)
  {
  }
}

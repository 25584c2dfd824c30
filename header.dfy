/**
 * The header codec (src/header.rs): two fixed-width big-endian structs, laid
 * out byte by byte as `#[byte_struct_be]` writes them, and their checked
 * decoders.
 */
module Headers {
  import opened Results
  import opened Errors
  import opened Utils
  import opened Versions

  const MAGIC: string := "rs_file_cipher"
  /** `b"rs_file_cipher"`: the name's ASCII codes. */
  const MAGIC_BYTES: seq<Byte> :=
    [0x72, 0x73, 0x5f, 0x66, 0x69, 0x6c, 0x65, 0x5f, 0x63, 0x69, 0x70, 0x68, 0x65, 0x72]
  const MAGIC_BYTES_LEN: nat := 14
  const HEADER_LEN: nat := MAGIC_BYTES_LEN + 2
  const ECC_PUBLIC_KEY_LEN: nat := 64
  const ECC_PRIVATE_KEY_LEN: nat := 32  // the crate's constant; only the hybrid cipher, outside this model, uses it
  const IV_LEN: nat := 16

  /** `XorHeader::BYTE_LEN`: magic and a u16. */
  const XOR_HEADER_BYTE_LEN: nat := HEADER_LEN
  /** `AesECCHeader::BYTE_LEN`: magic, a u16, the public key and the IV. */
  const AES_ECC_HEADER_BYTE_LEN: nat := HEADER_LEN + ECC_PUBLIC_KEY_LEN + IV_LEN

  const NOT_OUR_FILE: string := "The input file is not a file encrypted by file_cipher"

  /** The format code the hybrid cipher writes: `V2`, absent from this snapshot's `Version`. */
  const V2_CODE: U16 := 0x0002

  /** The fixed arrays `[u8; 14]`, `[u8; 64]` and `[u8; 16]`. */
  type MagicArray = s: seq<Byte> | |s| == MAGIC_BYTES_LEN witness MAGIC_BYTES
  type KeyArray = s: seq<Byte> | |s| == ECC_PUBLIC_KEY_LEN witness seq(ECC_PUBLIC_KEY_LEN, _ => 0)
  type IvArray = s: seq<Byte> | |s| == IV_LEN witness seq(IV_LEN, _ => 0)

  /** The magic is 14 bytes long, byte `i` being the code of character `i` of the name. */
  lemma MagicSpellsName()
    ensures |MAGIC_BYTES| == |MAGIC| == MAGIC_BYTES_LEN
    ensures forall i :: 0 <= i < |MAGIC| ==> MAGIC_BYTES[i] as int == MAGIC[i] as int
  {
  }

  /** A u16 as `byte_struct_be` stores it: high byte first. */
  function U16Be(x: U16): (b: seq<Byte>)
    ensures |b| == 2 && ReadU16Be(b[0], b[1]) == x
  {
    [(x >> 8) as Byte, (x & 0xff) as Byte]
  }

  function ReadU16Be(hi: Byte, lo: Byte): U16
  {
    ((hi as U16) << 8) | (lo as U16)
  }

  lemma U16BeOfRead(hi: Byte, lo: Byte)
    ensures U16Be(ReadU16Be(hi, lo)) == [hi, lo]
  {
  }

  /**
   * `zip(..).position(|(a, b)| a != b)`: the first index where the two
   * sequences differ, looking no further than the shorter one.
   */
  function FirstMismatch(a: seq<Byte>, b: seq<Byte>): (r: Option<nat>)
    ensures r.None? <==> forall i :: 0 <= i < |a| && i < |b| ==> a[i] == b[i]
    ensures r.Some? ==> r.value < |a| && r.value < |b| && a[r.value] != b[r.value]
    ensures r.Some? ==> forall i :: 0 <= i < r.value ==> a[i] == b[i]
  {
    if |a| == 0 || |b| == 0 then None
    else if a[0] != b[0] then Some(0)
    else
      match FirstMismatch(a[1..], b[1..])
      case None => None
      case Some(k) => Some(k + 1)
  }

  /**
   * The magic test both decoders run on their first 14 bytes: no position
   * where they differ from the magic.
   */
  predicate HasMagic(bytes: seq<Byte>): (ok: bool)
    requires |bytes| >= MAGIC_BYTES_LEN
    ensures ok <==> forall i :: 0 <= i < MAGIC_BYTES_LEN ==> bytes[i] == MAGIC_BYTES[i]
  {
    FirstMismatch(MAGIC_BYTES, bytes[..MAGIC_BYTES_LEN]).None?
  }

  // ---------------------------------------------------------------- XorHeader

  datatype XorHeader = XorHeader(magic: MagicArray, format: U16)
  {
    function Format(): (f: U16)
      ensures WriteBytes()[MAGIC_BYTES_LEN..] == U16Be(f)
    {
      format
    }

    /** `write_bytes`: magic then the format, big-endian. */
    function WriteBytes(): (b: seq<Byte>)
      ensures |b| == XOR_HEADER_BYTE_LEN
      ensures ReadXorHeader(b) == this
    {
      magic + U16Be(format)
    }
  }

  /** `XorHeader::read_bytes`: the raw layout, read without any check. */
  function ReadXorHeader(b: seq<Byte>): (h: XorHeader)
    requires |b| == XOR_HEADER_BYTE_LEN
    ensures h.magic == b[..MAGIC_BYTES_LEN]
    ensures U16Be(h.format) == b[MAGIC_BYTES_LEN..]
  {
    U16BeOfRead(b[14], b[15]);
    XorHeader(b[..MAGIC_BYTES_LEN], ReadU16Be(b[14], b[15]))
  }

  /** `XorHeader::new`: the magic and the V1 code. */
  function XorHeaderNew(): (h: XorHeader)
    ensures h.magic == MAGIC_BYTES
    ensures Versions.TryFrom(h.Format()) == Ok(V1)
  {
    XorHeader(MAGIC_BYTES, ToU16(V1))
  }

  /**
   * `TryFrom<&[u8]> for XorHeader`: the length must be exact, then the magic
   * must match, then the version must be known, checked in that order.
   */
  function XorTryFrom(bytes: seq<Byte>): (r: Result<XorHeader, FileCipherError>)
    ensures |bytes| != XOR_HEADER_BYTE_LEN ==> r == Err(NotLongEnough(XOR_HEADER_BYTE_LEN))
    ensures |bytes| == XOR_HEADER_BYTE_LEN && bytes[..MAGIC_BYTES_LEN] != MAGIC_BYTES ==>
      r == Err(Other(NOT_OUR_FILE))
    ensures |bytes| == XOR_HEADER_BYTE_LEN && bytes[..MAGIC_BYTES_LEN] == MAGIC_BYTES ==>
      (Versions.TryFrom(ReadU16Be(bytes[14], bytes[15])).Err? ==> r == Err(Other(UNSUPPORTED_FORMAT)))
    ensures r.Ok? ==> r.value.WriteBytes() == bytes && r.value.magic == MAGIC_BYTES
    ensures r.Ok? ==> Versions.TryFrom(r.value.Format()).Ok?
  {
    if |bytes| != XOR_HEADER_BYTE_LEN then
      Err(NotLongEnough(XOR_HEADER_BYTE_LEN))
    else if !HasMagic(bytes) then
      Err(Other(NOT_OUR_FILE))
    else
      var header := ReadXorHeader(bytes);
      assert header.WriteBytes() == bytes by {
        assert bytes == bytes[..MAGIC_BYTES_LEN] + bytes[MAGIC_BYTES_LEN..];
      }
      match Versions.TryFrom(header.format)
      case Err(msg) => Err(Other(msg))
      case Ok(_) => Ok(header)
  }

  /** The header `encrypt` writes: the 14 magic bytes, then 0x00 0x01. */
  lemma XorHeaderNewBytes()
    ensures XorHeaderNew().WriteBytes() == MAGIC_BYTES + [0x00, 0x01]
    ensures |XorHeaderNew().WriteBytes()| == 16
  {
  }

  /** Every header with the magic and a known version decodes to itself. */
  lemma XorHeaderRoundTrip(h: XorHeader)
    requires h.magic == MAGIC_BYTES && Versions.TryFrom(h.format).Ok?
    ensures XorTryFrom(h.WriteBytes()) == Ok(h)
  {
    var b := h.WriteBytes();
    assert b[..MAGIC_BYTES_LEN] == MAGIC_BYTES;
    assert ReadU16Be(b[14], b[15]) == h.format;
  }

  /** While `V1` is the only version, the header `encrypt` writes is the only one accepted. */
  lemma XorTryFromOnlyNew(bytes: seq<Byte>)
    ensures XorTryFrom(bytes).Ok? ==> XorTryFrom(bytes) == Ok(XorHeaderNew())
    ensures XorTryFrom(bytes).Ok? <==> bytes == XorHeaderNew().WriteBytes()
  {
    if XorTryFrom(bytes).Ok? {
      var h := XorTryFrom(bytes).value;
      var v := Versions.TryFrom(h.Format()).value;
      Versions.DecodeExact(h.format, v);
      assert h == XorHeaderNew();
    }
    if bytes == XorHeaderNew().WriteBytes() {
      XorHeaderRoundTrip(XorHeaderNew());
    }
  }

  // ------------------------------------------------------------- AesECCHeader

  datatype AesEccHeader = AesEccHeader(magic: MagicArray, format: U16, key: KeyArray, iv: IvArray)
  {
    function Format(): (f: U16)
      ensures WriteBytes()[MAGIC_BYTES_LEN..HEADER_LEN] == U16Be(f)
    {
      format
    }

    /** `key_bytes`: the 64 bytes after magic and format. */
    function KeyBytes(): (k: seq<Byte>)
      ensures |k| == ECC_PUBLIC_KEY_LEN
      ensures k == WriteBytes()[HEADER_LEN..HEADER_LEN + ECC_PUBLIC_KEY_LEN]
    {
      key
    }

    /** `iv_bytes`: the last 16 bytes. */
    function IvBytes(): (v: seq<Byte>)
      ensures |v| == IV_LEN
      ensures v == WriteBytes()[HEADER_LEN + ECC_PUBLIC_KEY_LEN..]
    {
      iv
    }

    /** `write_bytes`: magic[0..14], format[14..16] big-endian, key[16..80], iv[80..96]. */
    function WriteBytes(): (b: seq<Byte>)
      ensures |b| == AES_ECC_HEADER_BYTE_LEN
      ensures ReadAesEccHeader(b) == this
    {
      magic + U16Be(format) + key + iv
    }
  }

  /** `AesECCHeader::read_bytes`: the raw layout, read without any check. */
  function ReadAesEccHeader(b: seq<Byte>): (h: AesEccHeader)
    requires |b| == AES_ECC_HEADER_BYTE_LEN
    ensures h.magic == b[..MAGIC_BYTES_LEN]
    ensures U16Be(h.format) == b[MAGIC_BYTES_LEN..HEADER_LEN]
    ensures h.key == b[HEADER_LEN..HEADER_LEN + ECC_PUBLIC_KEY_LEN]
    ensures h.iv == b[HEADER_LEN + ECC_PUBLIC_KEY_LEN..]
  {
    U16BeOfRead(b[14], b[15]);
    AesEccHeader(b[..MAGIC_BYTES_LEN], ReadU16Be(b[14], b[15]), b[HEADER_LEN..80], b[80..])
  }

  /**
   * `AesECCHeader::new(publickey, iv)`: the magic, the format code, the
   * decoded public key and the IV, verbatim. The source panics unless the key
   * is 128 hex characters (`unwrap` and `copy_from_slice`). It writes
   * `Version::V2`, which this snapshot does not define, so the code is a
   * parameter here.
   */
  function AesEccHeaderNew(publickey: string, iv: IvArray, format: U16): (h: AesEccHeader)
    requires |publickey| == 2 * ECC_PUBLIC_KEY_LEN && IsAscii(publickey)
    requires DecodeHex(publickey).Ok?
    ensures h.magic == MAGIC_BYTES && h.Format() == format
    ensures h.KeyBytes() == DecodeHex(publickey).value
    ensures h.IvBytes() == iv
  {
    AesEccHeader(MAGIC_BYTES, format, DecodeHex(publickey).value, iv)
  }

  /** `TryFrom<&[u8]> for AesECCHeader`: the same three checks, in the same order. */
  function AesEccTryFrom(bytes: seq<Byte>): (r: Result<AesEccHeader, FileCipherError>)
    ensures |bytes| != AES_ECC_HEADER_BYTE_LEN ==> r == Err(NotLongEnough(AES_ECC_HEADER_BYTE_LEN))
    ensures |bytes| == AES_ECC_HEADER_BYTE_LEN && bytes[..MAGIC_BYTES_LEN] != MAGIC_BYTES ==>
      r == Err(Other(NOT_OUR_FILE))
    ensures |bytes| == AES_ECC_HEADER_BYTE_LEN && bytes[..MAGIC_BYTES_LEN] == MAGIC_BYTES ==>
      (Versions.TryFrom(ReadU16Be(bytes[14], bytes[15])).Err? ==> r == Err(Other(UNSUPPORTED_FORMAT)))
    ensures r.Ok? ==> r.value.WriteBytes() == bytes && r.value.magic == MAGIC_BYTES
    ensures r.Ok? ==> Versions.TryFrom(r.value.Format()).Ok?
  {
    if |bytes| != AES_ECC_HEADER_BYTE_LEN then
      Err(NotLongEnough(AES_ECC_HEADER_BYTE_LEN))
    else if !HasMagic(bytes) then
      Err(Other(NOT_OUR_FILE))
    else
      var header := ReadAesEccHeader(bytes);
      assert bytes == bytes[..14] + bytes[14..16] + bytes[16..80] + bytes[80..];
      match Versions.TryFrom(header.format)
      case Err(msg) => Err(Other(msg))
      case Ok(_) => Ok(header)
  }

  /** A hybrid header decodes to itself exactly when its format code is known. */
  lemma AesEccHeaderRoundTrip(h: AesEccHeader)
    requires h.magic == MAGIC_BYTES
    ensures Versions.TryFrom(h.format).Ok? ==> AesEccTryFrom(h.WriteBytes()) == Ok(h)
    ensures Versions.TryFrom(h.format).Err? ==>
      AesEccTryFrom(h.WriteBytes()) == Err(Other(UNSUPPORTED_FORMAT))
  {
    var b := h.WriteBytes();
    assert b[..MAGIC_BYTES_LEN] == MAGIC_BYTES;
    assert ReadU16Be(b[14], b[15]) == h.format;
  }

  /** With `V1` the only version, the decoder accepts format 0x0001 and nothing else. */
  lemma AesEccAcceptsV1Only(bytes: seq<Byte>)
    ensures AesEccTryFrom(bytes).Ok? ==> AesEccTryFrom(bytes).value.format == 0x0001
  {
    if AesEccTryFrom(bytes).Ok? {
      var h := AesEccTryFrom(bytes).value;
      Versions.RejectsOthers(h.format);
    }
  }

  /** A header made with the hybrid cipher's V2 code cannot be read back by this snapshot. */
  lemma V2HeaderRejected(publickey: string, iv: IvArray)
    requires |publickey| == 2 * ECC_PUBLIC_KEY_LEN && IsAscii(publickey)
    requires DecodeHex(publickey).Ok?
    ensures AesEccTryFrom(AesEccHeaderNew(publickey, iv, V2_CODE).WriteBytes())
      == Err(Other(UNSUPPORTED_FORMAT))
  {
    AesEccHeaderRoundTrip(AesEccHeaderNew(publickey, iv, V2_CODE));
  }

  /** A key given as `encode_hex` text lands in the header as the original bytes. */
  lemma AesEccHeaderNewFromHex(key: KeyArray, iv: IvArray, format: U16)
    ensures |Hex(key)| == 2 * ECC_PUBLIC_KEY_LEN && IsAscii(Hex(key)) && DecodeHex(Hex(key)).Ok?
    ensures AesEccHeaderNew(Hex(key), iv, format).KeyBytes() == key
  {
    HexRoundTrip(key);
  }
}

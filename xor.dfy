/**
 * The XOR stream cipher (src/xor.rs): `encrypt` writes the XOR header and then
 * every input byte XORed with the key, reading the source in chunks of at
 * most 1024 bytes; `decrypt` reads and checks one header and then applies the
 * same per-byte XOR to the rest.
 */
module Xor {
  import opened Results
  import opened Errors
  import opened Utils
  import opened Versions
  import opened Headers
  import opened Io

  /** Size of the buffer both loops read into. */
  const BUFFER_SIZE: nat := 1024

  /** Why `decrypt` stops; I/O failures of the source and sink are not modelled. */
  datatype DecryptError =
    | UnexpectedEof                    // `read_exact` could not fill the header
    | Header(error: FileCipherError)   // `XorHeader::try_from` refused the header
    | UnknownVersion(message: string)  // `Version::try_from` on the decoded format
    | OnlyV1Supported                  // "Only v1 is supported"

  /** `iter().map(|v| v ^ self.xor)`: every byte XORed with the key, in order. */
  function XorBytes(s: seq<Byte>, k: Byte): (r: seq<Byte>)
    ensures |r| == |s|
  {
    if |s| == 0 then [] else [s[0] ^ k] + XorBytes(s[1..], k)
  }

  lemma {:induction false} XorBytesAt(s: seq<Byte>, k: Byte, i: nat)
    requires i < |s|
    ensures XorBytes(s, k)[i] == s[i] ^ k
  {
    if i > 0 {
      XorBytesAt(s[1..], k, i - 1);
    }
  }

  /** XOR with the same key undoes itself. */
  lemma {:induction false} XorBytesInvolution(s: seq<Byte>, k: Byte)
    ensures XorBytes(XorBytes(s, k), k) == s
  {
    if |s| > 0 {
      var t := XorBytes(s, k);
      assert t[1..] == XorBytes(s[1..], k);
      XorBytesInvolution(s[1..], k);
      assert (s[0] ^ k) ^ k == s[0];
      assert s == [s[0]] + s[1..];
    }
  }

  /** Splitting the input anywhere splits the output at the same place. */
  lemma {:induction false} XorBytesAppend(a: seq<Byte>, b: seq<Byte>, k: Byte)
    ensures XorBytes(a + b, k) == XorBytes(a, k) + XorBytes(b, k)
  {
    if |a| > 0 {
      assert (a + b)[0] == a[0] && (a + b)[1..] == a[1..] + b;
      XorBytesAppend(a[1..], b, k);
    } else {
      assert a + b == b;
    }
  }

  /** A zero key passes every byte through unchanged. */
  lemma {:induction false} XorBytesZeroKey(s: seq<Byte>)
    ensures XorBytes(s, 0) == s
  {
    if |s| > 0 {
      XorBytesZeroKey(s[1..]);
      assert s == [s[0]] + s[1..];
    }
  }

  /** The chunks, one after the other. */
  function Concat(chunks: seq<seq<Byte>>): seq<Byte>
  {
    if |chunks| == 0 then [] else Concat(chunks[..|chunks| - 1]) + chunks[|chunks| - 1]
  }

  /** Each chunk transformed on its own, as each turn of the loop does. */
  function XorEach(chunks: seq<seq<Byte>>, k: Byte): (r: seq<seq<Byte>>)
    ensures |r| == |chunks|
  {
    seq(|chunks|, i requires 0 <= i < |chunks| => XorBytes(chunks[i], k))
  }

  /** However the input is cut into chunks, the transformed body is the same. */
  lemma {:induction false} ChunkIndependence(chunks: seq<seq<Byte>>, k: Byte)
    ensures Concat(XorEach(chunks, k)) == XorBytes(Concat(chunks), k)
  {
    if |chunks| > 0 {
      var init, last := chunks[..|chunks| - 1], chunks[|chunks| - 1];
      ChunkIndependence(init, k);
      assert XorEach(chunks, k)[..|chunks| - 1] == XorEach(init, k);
      XorBytesAppend(Concat(init), last, k);
    }
  }

  /** Everything `encrypt` writes for the input `plain`: a V1 header, then the transformed body. */
  function EncryptedFile(plain: seq<Byte>, k: Byte): (file: seq<Byte>)
    ensures |file| == XOR_HEADER_BYTE_LEN + |plain|
    ensures XorTryFrom(file[..XOR_HEADER_BYTE_LEN]) == Ok(XorHeaderNew())
    ensures file[XOR_HEADER_BYTE_LEN..] == XorBytes(plain, k)
  {
    var header := XorHeaderNew().WriteBytes();
    XorHeaderRoundTrip(XorHeaderNew());
    var file := header + XorBytes(plain, k);
    assert file[..XOR_HEADER_BYTE_LEN] == header;
    file
  }

  /** What `decrypt` writes for the source content `file`, or why it stops. */
  function DecryptedFile(file: seq<Byte>, k: Byte): (r: Result<seq<Byte>, DecryptError>)
    ensures |file| < XOR_HEADER_BYTE_LEN ==> r == Err(UnexpectedEof)
    ensures |file| >= XOR_HEADER_BYTE_LEN && XorTryFrom(file[..XOR_HEADER_BYTE_LEN]).Err? ==>
      r == Err(Header(XorTryFrom(file[..XOR_HEADER_BYTE_LEN]).error))
    ensures r.Ok? <==> |file| >= XOR_HEADER_BYTE_LEN && XorTryFrom(file[..XOR_HEADER_BYTE_LEN]).Ok?
    ensures r.Ok? ==> r.value == XorBytes(file[XOR_HEADER_BYTE_LEN..], k)
  {
    if |file| < XOR_HEADER_BYTE_LEN then Err(UnexpectedEof)
    else
      match XorTryFrom(file[..XOR_HEADER_BYTE_LEN])
      case Err(e) => Err(Header(e))
      case Ok(header) =>
        match Versions.TryFrom(header.Format())
        case Err(msg) => Err(UnknownVersion(msg))
        case Ok(version) =>
          if version != V1 then Err(OnlyV1Supported)
          else Ok(XorBytes(file[XOR_HEADER_BYTE_LEN..], k))
  }

  /**
   * The re-check of the version after `XorHeader::try_from` and the
   * "Only v1 is supported" branch can never fire.
   */
  lemma DecryptDeadBranches(file: seq<Byte>, k: Byte)
    ensures DecryptedFile(file, k).Err? ==>
      DecryptedFile(file, k).error.UnexpectedEof? || DecryptedFile(file, k).error.Header?
  {
    if |file| >= XOR_HEADER_BYTE_LEN && XorTryFrom(file[..XOR_HEADER_BYTE_LEN]).Ok? {
      var header := XorTryFrom(file[..XOR_HEADER_BYTE_LEN]).value;
      assert Versions.TryFrom(header.Format()).Ok?;
      Versions.OnlyV1(Versions.TryFrom(header.Format()).value);
    }
  }

  /** Decrypting what encrypt wrote, with the same key, gives back the input; any key, 0 included. */
  lemma {:induction false} RoundTrip(plain: seq<Byte>, k: Byte)
    ensures DecryptedFile(EncryptedFile(plain, k), k) == Ok(plain)
  {
    var file := EncryptedFile(plain, k);
    var header := XorTryFrom(file[..XOR_HEADER_BYTE_LEN]).value;
    assert header == XorHeaderNew();
    assert file[XOR_HEADER_BYTE_LEN..] == XorBytes(plain, k);
    XorBytesInvolution(plain, k);
  }

  /** An empty input encrypts to the bare header, and decrypts back to nothing. */
  lemma EmptyInput()
    ensures EncryptedFile([], 0x2a) == MAGIC_BYTES + [0x00, 0x01]
    ensures DecryptedFile(MAGIC_BYTES + [0x00, 0x01], 0x2a) == Ok([])
  {
    XorHeaderNewBytes();
    RoundTrip([], 0x2a);
  }

  /** `XorCipher::new` accepts a zero key, and then the body is the input itself. */
  lemma ZeroKeyPassThrough(plain: seq<Byte>)
    ensures EncryptedFile(plain, 0) == XorHeaderNew().WriteBytes() + plain
  {
    XorBytesZeroKey(plain);
  }

  class XorCipher {
    const xor: Byte

    /** `XorCipher::new`: the key is kept as given, with no zero check. */
    constructor (xor: Byte)
      ensures this.xor == xor
    {
      this.xor := xor;
    }

    /**
     * The loop both directions share: read chunks into a reused buffer until
     * `read` returns 0, writing each chunk XORed with the key.
     */
    method XorStream(src: Reader, dst: Writer)
      requires src.Valid()
      modifies src, dst
      ensures src.Valid() && src.pos == |src.data|
      ensures dst.written == old(dst.written) + XorBytes(old(src.Remaining()), xor)
    {
      var buffer := new Byte[BUFFER_SIZE];
      ghost var start := src.pos;
      while true
        invariant src.Valid() && start <= src.pos
        invariant dst.written == old(dst.written) + XorBytes(src.data[start..src.pos], xor)
        decreases |src.data| - src.pos
      {
        ghost var before := src.pos;
        var readLen := src.Read(buffer);
        if readLen == 0 {
          break;
        }
        var chunk := buffer[..readLen];
        assert chunk == src.data[before..src.pos];
        var out := XorBytes(chunk, xor);
        dst.WriteAll(out);
        assert start <= before <= src.pos <= |src.data|;
        assert src.data[start..src.pos] == src.data[start..before] + src.data[before..src.pos];
        XorBytesAppend(src.data[start..before], chunk, xor);
      }
      assert src.pos == |src.data|;
      assert src.data[start..src.pos] == old(src.Remaining());
    }

    /** `encrypt`: the V1 header, then the transformed body, then a flush. */
    method Encrypt(src: Reader, dst: Writer)
      requires src.Valid()
      modifies src, dst
      ensures src.Valid() && src.pos == |src.data|
      ensures dst.written == old(dst.written) + EncryptedFile(old(src.Remaining()), xor)
      ensures dst.flushed
    {
      ghost var plain, before := src.Remaining(), dst.written;
      var headerBytes := XorHeaderNew().WriteBytes();
      dst.WriteAll(headerBytes);
      XorStream(src, dst);
      dst.Flush();
      assert dst.written == before + (headerBytes + XorBytes(plain, xor));
    }

    /**
     * `decrypt`: exactly one header is read and checked, then the rest of the
     * source is transformed. Nothing reaches the sink on any failure.
     */
    method Decrypt(src: Reader, dst: Writer) returns (r: Result<(), DecryptError>)
      requires src.Valid()
      modifies src, dst
      ensures src.Valid()
      ensures r.Err? <==> DecryptedFile(old(src.Remaining()), xor).Err?
      ensures r.Err? ==>
        r.error == DecryptedFile(old(src.Remaining()), xor).error &&
        dst.written == old(dst.written) && dst.flushed == old(dst.flushed)
      ensures r.Ok? ==>
        dst.written == old(dst.written) + DecryptedFile(old(src.Remaining()), xor).value &&
        dst.flushed && src.pos == |src.data|
    {
      ghost var file := src.Remaining();
      ghost var expected := DecryptedFile(file, xor);
      var headerBytes := new Byte[XOR_HEADER_BYTE_LEN];
      var ok := src.ReadExact(headerBytes);
      if !ok {
        assert expected == Err(UnexpectedEof);
        return Err(UnexpectedEof);
      }
      assert headerBytes[..] == file[..XOR_HEADER_BYTE_LEN];
      var header := XorTryFrom(headerBytes[..]);
      if header.Err? {
        assert expected == Err(Header(header.error));
        return Err(Header(header.error));
      }
      var version := Versions.TryFrom(header.value.Format());
      if version.Err? {
        return Err(UnknownVersion(version.error));
      }
      if version.value != V1 {
        return Err(OnlyV1Supported);
      }
      assert expected == Ok(XorBytes(file[XOR_HEADER_BYTE_LEN..], xor));
      assert src.Remaining() == file[XOR_HEADER_BYTE_LEN..];
      XorStream(src, dst);
      dst.Flush();
      r := Ok(());
    }
  }

  /** Encrypting into a sink and decrypting what it holds gives back the input. */
  method EncryptThenDecrypt(plain: seq<Byte>, k: Byte) returns (recovered: Result<seq<Byte>, DecryptError>)
    ensures recovered == Ok(plain)
  {
    var cipher := new XorCipher(k);
    var src := new Reader(plain);
    var sink := new Writer();
    cipher.Encrypt(src, sink);
    ghost var file := EncryptedFile(plain, k);
    assert sink.written == file;
    var encrypted := new Reader(sink.written);
    var out := new Writer();
    var r := cipher.Decrypt(encrypted, out);
    recovered := match r case Ok(_) => Ok(out.written) case Err(e) => Err(e);
    RoundTrip(plain, k);
    assert r.Ok? && out.written == plain;
  }
}

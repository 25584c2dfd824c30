# file_cipher: file format and XOR cipher, modelled in Dafny

This project models the file-format layer of the `file_cipher` crate and its XOR stream cipher:

- the version registry, `Version` with its u16 wire code;
- the lower-case hex codec, `encode_hex` and `decode_hex`;
- the two fixed-width big-endian headers, `XorHeader` (16 bytes) and `AesECCHeader` (96 bytes), with their checked decoders;
- `XorCipher`, which writes a header and then XORs every body byte with a one-byte key, reading its source in chunks of at most 1024 bytes.

Modules follow the source files:

| file | module | source |
|---|---|---|
| results.dfy | `Results` | Rust's `Option`, `Result` |
| errors.dfy | `Errors` | src/error.rs |
| version.dfy | `Versions` | src/version.rs |
| utils.dfy | `Utils` | src/utils.rs |
| header.dfy | `Headers` | src/header.rs |
| io.dfy | `Io` | the `Read`/`Write` streams the cipher is given |
| xor.dfy | `Xor` | src/xor.rs |

Bytes are `bv8` and the u16 format code is `bv16`.
The `#[byte_struct_be]` layout is written out as explicit byte slicing, with the u16 stored high byte first.

Pure code (the registry, `decode_hex`, the header decoders) is written as functions.
The loops are methods with invariants:
- `encode_hex` is `Utils.EncodeHex`;
- the read/XOR/write loop of `encrypt` and `decrypt` is `Xor.XorCipher.XorStream`.

Each method is proved against a specification function (`Utils.Hex`, `Xor.EncryptedFile`, `Xor.DecryptedFile`), and the lemmas are stated about those functions.

The source is a `Read` that may return short reads: any positive count up to the buffer size, and 0 only at end of stream.
The sink is a `Write` whose content only grows.
For `Read`, the chunk size is chosen nondeterministically, so `Encrypt`'s contract holds for every way the source can split its data.

Some behaviours of the code may surprise a reader. The model keeps them:
- On an odd length, `decode_hex` panics once every earlier chunk has parsed; an earlier bad chunk returns its `Err` first. Even length is therefore a precondition, which also leaves out that `Err` case. Every caller passes an even length.
- Header errors are `NotLongEnough(n)`, returned also for inputs that are too long, and `Other(message)`. There are no separate kinds for bad magic or for an unsupported version.
- `XorCipher::new` accepts a zero key. Only the command line refuses zero (src/main.rs:98-101).
- `AesECCHeader::new` writes `Version::V2`, which src/version.rs does not define (lines 4, 11 and 21 are commented out). The model therefore takes the format code as a parameter.
  - `Headers.V2HeaderRejected` shows that a header written with code 0x0002 is refused by this snapshot's decoder.
  - `Headers.AesEccAcceptsV1Only` shows that only 0x0001 is accepted.

## Model

| member | source | states |
|---|---|---|
| `Versions.TryFrom` | src/version.rs:16-25 | an accepted code is exactly the code of the version it yields; every refusal carries "Unsupported format" |
| `Versions.ToU16` | src/version.rs:7-13 | a version's wire code is never 0x0000 |
| `Versions.V1Code` | src/version.rs:7-13 | `V1` is written as 0x0001 |
| `Versions.RoundTrip` | src/version.rs:7-25 | every version decodes back from its own code |
| `Versions.DecodeExact` | src/version.rs:16-21 | if a code decodes to `v`, then `v`'s code is that code |
| `Versions.RejectsOthers` | src/version.rs:19-23 | a code is refused if and only if it is not 0x0001, always with "Unsupported format"; there is no fallback |
| `Versions.OneAcceptedCode` | src/version.rs:1-25 | of the 65536 u16 values, the set of accepted ones is exactly {0x0001} |
| `Versions.OnlyV1` | src/version.rs:2-5 | every `Version` value is `V1` |
| `Utils.ByteHex` | src/utils.rs:14 | one byte gives two lower-case hex digits, and parsing them as a chunk gives the byte back |
| `Utils.Hex` | src/utils.rs:11-17 | the encoding has length 2·n, uses only 0-9a-f, and chunk i is the two-digit form of byte i, in input order |
| `Utils.EncodeHex` | src/utils.rs:11-17 | the append loop builds exactly `Hex(bytes)`, which is ASCII and decodes back to `bytes` |
| `Utils.DecodeHex` | src/utils.rs:4-9 | on an even-length ASCII string, a success holds one byte per two characters |
| `Utils.DecodeHexChunks` | src/utils.rs:4-9 | decoding succeeds if and only if every 2-character chunk parses, and byte i is then chunk s[2i..2i+2] read in base 16 |
| `Utils.HexRoundTrip` | src/utils.rs:4-17 | `decode_hex(encode_hex(b)) == Ok(b)` for every byte sequence b |
| `Utils.EmptyCases` | src/utils.rs:4-17 | the empty byte sequence encodes to "", and "" decodes to no bytes |
| `Utils.ParseChunk` | src/utils.rs:7 | a chunk parses if and only if its second character is a hex digit and its first is one or is '+'; the value is the base-16 reading of the digits |
| `Utils.LenientChunks` | src/utils.rs:7 | `from_str_radix` accepts upper-case digits and a leading '+' ("+f" is 15); it refuses "-f", "++" and non-digits |
| `Headers.MagicSpellsName` | src/header.rs:7-8 | the magic is the 14 ASCII bytes of "rs_file_cipher" |
| `Headers.U16Be` | src/header.rs:14-19 | a u16 is stored as two bytes, and reading them back high byte first gives the value |
| `Headers.U16BeOfRead` | src/header.rs:14-19 | reading two bytes as a big-endian u16 and writing it back gives the same two bytes |
| `Headers.FirstMismatch` | src/header.rs:43-46 | the position search finds nothing if and only if the two sequences agree on their common length; a position it finds is the first difference |
| `Headers.HasMagic` | src/header.rs:43-52 | the magic test passes if and only if each of the first 14 bytes equals the magic byte at its position |
| `Headers.ReadXorHeader` | src/header.rs:54 | reading the raw layout takes bytes 0-13 as the magic and bytes 14-15 as the big-endian format |
| `Headers.XorHeader.Format` | src/header.rs:31-33 | the format read from a header is the value stored big-endian in bytes 14-15 of its encoding |
| `Headers.XorHeader.WriteBytes` | src/header.rs:14-19 | the encoding is 16 bytes, and reading the raw layout back gives the same header |
| `Headers.XorHeaderNew` | src/header.rs:22-29 | the new header carries the magic and a format that decodes to `V1` |
| `Headers.XorTryFrom` | src/header.rs:36-60 | checks in order: a wrong length gives `NotLongEnough(16)`, including too-long input; a magic mismatch gives `Other` before the version is read; an unknown code gives `Other("Unsupported format")`; success returns the header whose encoding is the input |
| `Headers.XorHeaderNewBytes` | src/header.rs:22-29 | the header encrypt writes is the 14 magic bytes followed by 0x00 0x01, 16 bytes in all |
| `Headers.XorHeaderRoundTrip` | src/header.rs:36-60 | every header with the magic and a known format decodes from its own encoding to itself |
| `Headers.XorTryFromOnlyNew` | src/header.rs:54-58 | while `V1` is the only version, the decoder accepts an input if and only if it is the encoding of `XorHeader::new()`, and then yields that header |
| `Headers.AesEccHeader.Format` | src/header.rs:86-88 | the format is the big-endian value in bytes 14-15 of the encoding |
| `Headers.AesEccHeader.KeyBytes` | src/header.rs:90-92 | the key is exactly bytes 16..80 of the encoding |
| `Headers.AesEccHeader.IvBytes` | src/header.rs:94-96 | the IV is exactly bytes 80..96 of the encoding |
| `Headers.AesEccHeader.WriteBytes` | src/header.rs:62-69 | the encoding is 96 bytes, and reading the raw layout back gives the same header |
| `Headers.ReadAesEccHeader` | src/header.rs:117 | reading the raw layout takes bytes 0-13 as the magic, 14-15 as the big-endian format, 16-79 as the key and 80-95 as the IV |
| `Headers.AesEccHeaderNew` | src/header.rs:72-84 | for a 128-character valid hex key, the header holds the magic, the given format, `decode_hex(publickey)` as key and the IV verbatim |
| `Headers.AesEccTryFrom` | src/header.rs:99-124 | the same ordered checks with `NotLongEnough(96)`; success returns the header whose encoding is the input |
| `Headers.AesEccHeaderRoundTrip` | src/header.rs:99-124 | a header with the magic decodes to itself if its format is known, and is refused with "Unsupported format" otherwise |
| `Headers.AesEccAcceptsV1Only` | src/header.rs:117-120 | every hybrid header the decoder accepts has format 0x0001 |
| `Headers.V2HeaderRejected` | src/header.rs:75 | a hybrid header written with the V2 code 0x0002 is refused by this snapshot's decoder |
| `Headers.AesEccHeaderNewFromHex` | src/header.rs:80-81 | a key passed as its `encode_hex` text ends up in the header as the original 64 bytes |
| `Io.Reader.Read` | src/xor.rs:32 | a read returns at most the buffer's length, returns 0 only at end of stream (or for an empty buffer), and delivers the next bytes of the source in order |
| `Io.Reader.ReadExact` | src/xor.rs:51 | succeeds if and only if enough bytes remain, and then fills the buffer with exactly the next bytes |
| `Io.Writer.WriteAll` | src/xor.rs:37 | the sink's content is its old content followed by the given bytes, and it is no longer flushed |
| `Io.Writer.Flush` | src/xor.rs:40 | flushing leaves the content unchanged and marks the sink flushed |
| `Xor.XorBytes` | src/xor.rs:36 | the transformed body has the length of the input |
| `Xor.XorBytesAt` | src/xor.rs:36 | byte i of the transformed body is input byte i XOR the key |
| `Xor.XorBytesInvolution` | src/xor.rs:36 | applying the transform twice with the same key gives the input back |
| `Xor.XorBytesAppend` | src/xor.rs:30-38 | the transform of a concatenation is the concatenation of the transforms |
| `Xor.ChunkIndependence` | src/xor.rs:30-38 | however the input is cut into chunks, transforming chunk by chunk gives the transform of the whole |
| `Xor.XorBytesZeroKey` | src/xor.rs:14-16 | with key 0 the body is the input unchanged |
| `Xor.EncryptedFile` | src/xor.rs:20-43 | encrypt output has length 16 + n, its first 16 bytes decode to `XorHeader::new()`, and the rest is the transformed input |
| `Xor.DecryptedFile` | src/xor.rs:45-71 | decrypt fails with an end-of-file error below 16 bytes and passes on the header's error; it succeeds exactly when the header is accepted, and then yields the transformed rest |
| `Xor.DecryptDeadBranches` | src/xor.rs:53-57 | the second version check and the "Only v1 is supported" branch never fire |
| `Xor.RoundTrip` | src/xor.rs:20-71 | decrypting the output of encrypt with the same key yields the input, for every key including 0 |
| `Xor.EmptyInput` | src/xor.rs:20-43 | the empty input with key 0x2A encrypts to the bare header (magic, 0x00, 0x01) and decrypts back to nothing |
| `Xor.ZeroKeyPassThrough` | src/xor.rs:14-16 | with key 0, encrypt writes the header followed by the input unchanged |
| `Xor.XorCipher.constructor` | src/xor.rs:14-16 | the key is stored as given; zero is not refused |
| `Xor.XorCipher.XorStream` | src/xor.rs:30-38 | the loop drains the source, whatever chunk sizes `read` returns, and appends the transform of everything it read |
| `Xor.XorCipher.Encrypt` | src/xor.rs:20-43 | the sink gains exactly `EncryptedFile` of the source's content, the source is drained and the sink is flushed |
| `Xor.XorCipher.Decrypt` | src/xor.rs:45-71 | the result and the appended bytes are those of `DecryptedFile`; on every failure nothing is written to the sink |
| `Xor.EncryptThenDecrypt` | src/xor.rs:20-71 | encrypting into a sink and decrypting what the sink holds recovers the input |

## Left out

- I/O errors of the source and sink (`?` on `read`, `write`, `write_all`, `flush`) are not modelled: reads and writes always succeed. `Encrypt` therefore returns no result.
- `dst.write(&header_bytes)` (src/xor.rs:28) may write only part of the header in Rust. The sink takes every write in full.
- Utils.DecodeHex: odd-length input is not modelled. In Rust, "zz1" returns `Err` at its first chunk while "001" panics on the last, out-of-range slice; the model covers neither. The input is also required to be ASCII. For non-ASCII text, Rust slices the UTF-8 bytes, and depending on where a multi-byte character falls this either panics or returns an error. The model does not capture which.
- `generate_random_iv` (src/utils.rs:19-24) draws from a random source and is not part of this model. In `AesECCHeader::new` the IV is a parameter.
- The hybrid cipher src/aes_ecc.rs is not part of this model. It consists of OpenSSL AES-256-ECB and the micro-ecc ECDH binding (micro-uecc-safe/src/lib.rs). Its header is covered through `Headers`.
- The command line, file-system and directory handling, and logging of src/main.rs are not part of this model. This includes the zero-key refusal at src/main.rs:98-101.
- The `Display` text of `FileCipherError` (src/error.rs:10-19) is not modelled. Neither is the conversion of errors into `anyhow` values: `Xor.DecryptError` keeps their kinds apart instead.
- The `Cipher` trait (src/cipher.rs) and the module list (src/lib.rs) have no behaviour to model.

/** The version registry (src/version.rs): a closed set of on-disk format codes. */
module Versions {
  import opened Results

  /** Rust's `u16`. */
  type U16 = bv16

  /** The format versions of this snapshot: only `V1` (the XOR format) exists. */
  datatype Version = V1

  const UNSUPPORTED_FORMAT: string := "Unsupported format"

  /**
   * `From<Version> for u16`: the wire code of a version. No version is coded
   * 0, the format field of a zero-filled header.
   */
  function ToU16(v: Version): (code: U16)
    ensures code != 0x0000
  {
    match v
    case V1 => 0x0001
  }

  /** `TryFrom<u16> for Version`: an unknown code is a hard failure, never a fallback. */
  function TryFrom(code: U16): (r: Result<Version, string>)
    ensures r.Ok? ==> ToU16(r.value) == code
    ensures r.Err? ==> r.error == UNSUPPORTED_FORMAT
  {
    if code == 0x0001 then Ok(V1)
    else Err(UNSUPPORTED_FORMAT)
  }

  lemma V1Code()
    ensures ToU16(V1) == 0x0001
  {
  }

  /** Every version survives the trip through its wire code. */
  lemma RoundTrip(v: Version)
    ensures TryFrom(ToU16(v)) == Ok(v)
  {
  }

  /** Decoding is exact: an accepted code is the code of the version it yields. */
  lemma DecodeExact(code: U16, v: Version)
    requires TryFrom(code) == Ok(v)
    ensures ToU16(v) == code
  {
  }

  /** Every code but 0x0001 is refused with the same message. */
  lemma RejectsOthers(code: U16)
    ensures TryFrom(code).Err? <==> code != 0x0001
    ensures code != 0x0001 ==> TryFrom(code) == Err(UNSUPPORTED_FORMAT)
  {
  }

  /** `n` is a u16 value that the registry decodes. */
  predicate IsAcceptedCode(n: int)
  {
    0 <= n < 0x1_0000 && TryFrom(n as U16).Ok?
  }

  /** With one variant, exactly one of the 65536 codes is accepted. */
  lemma OneAcceptedCode()
    ensures (set n: int | 0 <= n < 0x1_0000 && IsAcceptedCode(n)) == {0x0001}
  {
    var accepted := set n: int | 0 <= n < 0x1_0000 && IsAcceptedCode(n);
    forall n | n in accepted ensures n == 0x0001 {
      RejectsOthers(n as U16);
    }
    assert TryFrom(0x0001).Ok?;
  }

  /** Every value of the enum is `V1`, so a test `version != V1` can never succeed. */
  lemma OnlyV1(v: Version)
    ensures v == V1
  {
  }
}

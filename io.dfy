/**
 * The `std::io::Read` source and `std::io::Write` sink the ciphers stream
 * through, reduced to what the ciphers rely on.
 */
module Io {
  import opened Utils

  /**
   * A readable byte source over a fixed content. `pos` counts the bytes
   * consumed so far. A `read` may return any positive number of bytes that
   * fits the buffer (short reads), and 0 only at end of stream.
   */
  class Reader {
    const data: seq<Byte>
    var pos: nat

    ghost predicate Valid()
      reads this
    {
      pos <= |data|
    }

    /** What is still to be read. */
    ghost function Remaining(): seq<Byte>
      reads this
      requires Valid()
    {
      data[pos..]
    }

    constructor (data: seq<Byte>)
      ensures Valid() && this.data == data && pos == 0
    {
      this.data := data;
      pos := 0;
    }

    /** `read(&mut buf)`: the chunk size is up to the source, not the caller. */
    method Read(buf: array<Byte>) returns (n: nat)
      requires Valid()
      modifies this, buf
      ensures Valid()
      ensures n <= buf.Length && pos == old(pos) + n
      ensures n == 0 <==> old(pos) == |data| || buf.Length == 0
      ensures buf[..n] == data[old(pos)..pos]
    {
      var available := |data| - pos;
      var most := if buf.Length < available then buf.Length else available;
      if most == 0 {
        return 0;
      }
      n :| 0 < n <= most;
      forall i | 0 <= i < n {
        buf[i] := data[pos + i];
      }
      pos := pos + n;
    }

    /**
     * `read_exact(&mut buf)`: fills the whole buffer or fails with
     * `UnexpectedEof`, having consumed the rest of the stream.
     */
    method ReadExact(buf: array<Byte>) returns (ok: bool)
      requires Valid()
      modifies this, buf
      ensures Valid()
      ensures ok <==> buf.Length <= old(|data| - pos)
      ensures ok ==> pos == old(pos) + buf.Length && buf[..] == data[old(pos)..pos]
      ensures !ok ==> pos == |data|
    {
      if |data| - pos < buf.Length {
        pos := |data|;
        return false;
      }
      forall i | 0 <= i < buf.Length {
        buf[i] := data[pos + i];
      }
      pos := pos + buf.Length;
      ok := true;
    }
  }

  /**
   * A writable byte sink. Every write is taken in full; `flushed` says
   * whether a `flush` came after the last write.
   */
  class Writer {
    var written: seq<Byte>
    var flushed: bool

    constructor ()
      ensures written == [] && flushed
    {
      written := [];
      flushed := true;
    }

    /** `write_all(bytes)` (and `write`, taken as writing everything). */
    method WriteAll(bytes: seq<Byte>)
      modifies this
      ensures written == old(written) + bytes && !flushed
    {
      written := written + bytes;
      flushed := false;
    }

    method Flush()
      modifies this
      ensures written == old(written) && flushed
    {
      flushed := true;
    }
  }
}

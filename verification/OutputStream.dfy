/** pb_ostream_t: a stream that writes into a memory buffer, or one that only counts. */
module OutputStream {
  import opened Words

  class OStream {
    /** Null callback (PB_OSTREAM_SIZING) or buf_write. */
    const writing: bool
    const buf: array<byte>
    const maxSize: nat
    var state: nat
    var bytesWritten: nat
    ghost const base: nat
    ghost var content: seq<byte>

    /** A writing stream has put its content in the buffer from base on, and never past base + maxSize. */
    ghost predicate Valid()
      reads this, buf
    {
      writing ==>
        && base + maxSize <= buf.Length && bytesWritten <= maxSize && state == base + bytesWritten
        && buf[base..state] == content
    }

    /** What an encoder does to the stream: it succeeds exactly when the value has an encoding s and, if
        writing, s fits; then s is appended. It never touches the buffer outside the stream's range. */
    twostate predicate Emitted(new s: Option<seq<byte>>, ok: bool)
      reads this, buf
    {
      && Valid()
      && (ok <==> s.Some? && (writing ==> old(bytesWritten) + |s.value| <= maxSize))
      && (ok ==> bytesWritten == old(bytesWritten) + |s.value|)
      && (ok && writing ==> content == old(content) + s.value)
      && (writing ==> buf[..base] == old(buf[..base]) && buf[base + maxSize..] == old(buf[base + maxSize..]))
    }

    /** PB_OSTREAM_SIZING */
    constructor Sizing()
      ensures Valid() && !writing && bytesWritten == 0 && fresh(buf)
    {
      writing := false;
      buf := new byte[0];
      maxSize := 0;
      state := 0;
      bytesWritten := 0;
      base := 0;
      content := [];
    }

    /** pb_ostream_from_buffer, also the substream of pb_encode_submessage. */
    constructor FromBuffer(buffer: array<byte>, start: nat, size: nat)
      requires start + size <= buffer.Length
      ensures Valid() && writing && bytesWritten == 0 && buf == buffer && base == start && maxSize == size
      ensures state == start && content == []
    {
      writing := true;
      buf := buffer;
      maxSize := size;
      state := start;
      bytesWritten := 0;
      base := start;
      content := [];
    }

    /** pb_write, with buf_write's copy loop. */
    method Write(data: seq<byte>) returns (ok: bool)
      requires Valid()
      modifies this, buf
      ensures Emitted(Some(data), ok)
      ensures !ok ==> unchanged(this)
    {
      if writing {
        if bytesWritten + |data| > maxSize {
          return false;
        }
        var dest := state;
        ghost var before := buf[..];
        for i := 0 to |data|
          invariant state == dest && bytesWritten == old(bytesWritten) && content == old(content)
          invariant buf[..dest] == before[..dest] && buf[dest..dest + i] == data[..i]
          invariant buf[dest + i..] == before[dest + i..]
        {
          buf[dest + i] := data[i];
        }
        state := dest + |data|;
        content := content + data;
        assert buf[base..state] == buf[base..dest] + buf[dest..state];
        assert buf[base..dest] == buf[..dest][base..] == before[base..dest];
      }
      bytesWritten := bytesWritten + |data|;
      return true;
    }

    /** pb_write of a null buffer, on a stream that only counts. */
    method Count(size: nat)
      requires Valid() && !writing
      modifies this
      ensures Valid() && bytesWritten == old(bytesWritten) + size
    {
      bytesWritten := bytesWritten + size;
    }
  }
}

/** pb_istream_t over a memory buffer, and the primitive readers that advance it. */
module InputStream {
  import opened Words
  import opened Schema
  import opened WireDecoding
  import Varints

  class IStream {
    const buf: seq<byte>
    var state: nat
    var bytesLeft: nat

    ghost predicate Valid()
      reads this
    {
      state + bytesLeft <= |buf|
    }

    /** The bytes still to be read. */
    ghost function Window(): (s: seq<byte>)
      requires Valid()
      reads this
      ensures |s| == bytesLeft
    {
      buf[state..state + bytesLeft]
    }

    /** The position just past the stream: no successful read moves it. */
    ghost function End(): (n: nat)
      reads this
    {
      state + bytesLeft
    }

    /** pb_istream_from_buffer */
    constructor FromBuffer(bytes: seq<byte>)
      ensures Valid() && Window() == bytes && buf == bytes && state == 0
    {
      buf := bytes;
      state := 0;
      bytesLeft := |bytes|;
    }

    /** A copy of `parent` limited to its next size bytes. */
    constructor Substream(parent: IStream, size: nat)
      requires parent.Valid() && size <= parent.bytesLeft
      ensures Valid() && buf == parent.buf && state == parent.state && bytesLeft == size
      ensures Window() == parent.Window()[..size]
    {
      buf := parent.buf;
      state := parent.state;
      bytesLeft := size;
    }

    /** pb_read of a buffer stream, whose copy loop is buf_read's. */
    method Read(count: nat) returns (ok: bool, data: seq<byte>)
      requires Valid()
      modifies this
      ensures Valid()
      ensures ok <==> Take(old(Window()), count).Ok?
      ensures ok ==> data == Take(old(Window()), count).value && Window() == Take(old(Window()), count).rest
      ensures ok ==> End() == old(End())
      ensures !ok ==> unchanged(this)
    {
      data := [];
      if bytesLeft < count {
        return false, data;
      }
      var source := state;
      state := state + count;
      for i := 0 to count
        invariant data == buf[source..source + i]
      {
        data := data + [buf[source + i]];
      }
      bytesLeft := bytesLeft - count;
      return true, data;
    }

    /** pb_read into a null buffer: skip. */
    method SkipBytes(count: nat) returns (ok: bool)
      requires Valid()
      modifies this
      ensures Valid()
      ensures ok <==> Take(old(Window()), count).Ok?
      ensures ok ==> Window() == Take(old(Window()), count).rest && End() == old(End())
      ensures !ok ==> unchanged(this)
    {
      if bytesLeft < count {
        return false;
      }
      state := state + count;
      bytesLeft := bytesLeft - count;
      return true;
    }

    /** pb_readbyte */
    method ReadByte() returns (ok: bool, b: byte)
      requires Valid()
      modifies this
      ensures Valid()
      ensures ok <==> old(bytesLeft) > 0
      ensures ok ==> b == old(Window())[0] && Window() == old(Window())[1..] && End() == old(End())
      ensures !ok ==> unchanged(this)
    {
      if bytesLeft == 0 {
        return false, 0;
      }
      b := buf[state];
      state := state + 1;
      bytesLeft := bytesLeft - 1;
      return true, b;
    }

    /** pb_decode_varint32_eof. eof reports that there was no byte at all. */
    method DecodeVarint32() returns (ok: bool, dest: nat, eof: bool)
      requires Valid()
      modifies this
      ensures Valid() && End() <= old(End()) && bytesLeft <= old(bytesLeft)
      ensures ok <==> Varints.Decode32(old(Window())).Ok?
      ensures ok ==> Varints.Decode32(old(Window())) == Ok(dest, Window())
      ensures ok ==> End() == old(End())
      ensures eof <==> old(bytesLeft) == 0
    {
      var read, b := ReadByte();
      if !read {
        return false, 0, true;
      }
      var result: nat := b;
      if b >= 128 {
        var bitpos: nat := 7;
        result := b % 128;
        while true
          invariant Valid() && End() == old(End()) && bytesLeft <= old(bytesLeft) && result < TWO_32
          invariant old(bytesLeft) > 0
          invariant Varints.Decode32(old(Window())) == Varints.Decode32Loop(Window(), bitpos, result)
          decreases bytesLeft
        {
          read, b := ReadByte();
          if !read {
            return false, 0, false;
          }
          if bitpos >= 32 {
            if Varints.Overflows(b, bitpos, result) {
              return false, 0, false;
            }
          } else {
            result := Varints.OrGroup(result, b % 128, bitpos);
          }
          bitpos := (bitpos + 7) % 256;
          if b < 128 {
            break;
          }
        }
        if bitpos == 35 && b / 16 % 8 != 0 {
          return false, 0, false;
        }
      }
      return true, result, false;
    }

    /** pb_decode_varint */
    method DecodeVarint() returns (ok: bool, dest: nat)
      requires Valid()
      modifies this
      ensures Valid() && End() <= old(End()) && bytesLeft <= old(bytesLeft)
      ensures ok <==> Varints.Decode(old(Window())).Ok?
      ensures ok ==> Varints.Decode(old(Window())) == Ok(dest, Window()) && End() == old(End())
    {
      var bitpos: nat := 0;
      dest := 0;
      ghost var s, read := Window(), [];
      while true
        invariant Valid() && End() == old(End()) && bytesLeft <= old(bytesLeft)
        invariant s == read + Window() && bitpos == 7 * |read| && |read| <= 10
        invariant forall i | 0 <= i < |read| :: read[i] >= 128
        invariant dest == Varints.Groups(read) % TWO_64
        decreases bytesLeft
      {
        Varints.LoopTurn64(read, Window());
        if bitpos >= 64 {
          return false, 0;
        }
        var got, b := ReadByte();
        if !got {
          return false, 0;
        }
        dest := Varints.OrGroup64(dest, b % 128, bitpos);
        bitpos := bitpos + 7;
        read := read + [b];
        if b < 128 {
          return true, dest;
        }
      }
    }

    /** pb_skip_varint */
    method SkipVarint() returns (ok: bool)
      requires Valid()
      modifies this
      ensures Valid() && End() <= old(End()) && bytesLeft <= old(bytesLeft)
      ensures ok <==> Varints.Skip(old(Window())).Ok?
      ensures ok ==> Window() == Varints.Skip(old(Window())).rest && End() == old(End())
    {
      ghost var s, read := Window(), [];
      while true
        invariant Valid() && End() == old(End()) && bytesLeft <= old(bytesLeft)
        invariant s == read + Window() && forall i | 0 <= i < |read| :: read[i] >= 128
        decreases bytesLeft
      {
        Varints.SkipTurn(read, Window());
        var got, b := ReadByte();
        if !got {
          return false;
        }
        read := read + [b];
        if b < 128 {
          return true;
        }
      }
    }

    /** pb_skip_string */
    method SkipString() returns (ok: bool)
      requires Valid()
      modifies this
      ensures Valid() && End() <= old(End()) && bytesLeft <= old(bytesLeft)
      ensures ok <==> TakeDelimited(old(Window())).Ok?
      ensures ok ==> Window() == TakeDelimited(old(Window())).rest && End() == old(End())
    {
      var got, length, _ := DecodeVarint32();
      if !got {
        return false;
      }
      ok := SkipBytes(length);
    }

    /** pb_decode_tag. eof also reports a zero tag. */
    method DecodeTag() returns (ok: bool, wire: nat, tag: nat, eof: bool)
      requires Valid()
      modifies this
      ensures Valid() && End() <= old(End()) && bytesLeft <= old(bytesLeft)
      ensures match ParseTag(old(Window()))
              case BadTag => !ok && (eof <==> old(bytesLeft) == 0)
              case ZeroTag(rest) => !ok && eof && Window() == rest && End() == old(End())
              case Tagged(t, w, rest) => ok && tag == t && wire == w && Window() == rest && End() == old(End())
    {
      var got, temp, none := DecodeVarint32();
      if !got {
        return false, 0, 0, none;
      }
      if temp == 0 {
        return false, 0, 0, true;
      }
      return true, temp % 8, temp / 8, false;
    }

    /** pb_skip_field */
    method SkipField(wire: nat) returns (ok: bool)
      requires Valid()
      modifies this
      ensures Valid() && End() <= old(End()) && bytesLeft <= old(bytesLeft)
      ensures ok <==> Skip(wire, old(Window())).Ok?
      ensures ok ==> Window() == Skip(wire, old(Window())).rest && End() == old(End())
    {
      if wire == WT_VARINT {
        ok := SkipVarint();
      } else if wire == WT_64BIT {
        ok := SkipBytes(8);
      } else if wire == WT_STRING {
        ok := SkipString();
      } else if wire == WT_32BIT {
        ok := SkipBytes(4);
      } else {
        ok := false;
      }
    }

    /** pb_make_string_substream: the substream gets the payload, this stream only gives up its count. */
    method MakeSubstream() returns (ok: bool, sub: IStream)
      requires Valid()
      modifies this
      ensures Valid() && End() <= old(End()) && bytesLeft <= old(bytesLeft)
      ensures fresh(sub) && sub.Valid()
      ensures ok <==> TakeDelimited(old(Window())).Ok?
      ensures ok ==>
        && sub.buf == buf && sub.state == state && sub.End() + bytesLeft == old(End())
        && sub.Window() == TakeDelimited(old(Window())).value
        && buf[sub.End()..old(End())] == TakeDelimited(old(Window())).rest
    {
      var got, size, _ := DecodeVarint32();
      if !got || bytesLeft < size {
        sub := new IStream.Substream(this, 0);
        return false, sub;
      }
      sub := new IStream.Substream(this, size);
      bytesLeft := bytesLeft - size;
      return true, sub;
    }

    /** pb_close_string_substream: whatever was read inside, this stream resumes just past the payload. */
    method CloseSubstream(sub: IStream) returns (ok: bool)
      requires Valid() && sub.Valid() && sub != this && sub.buf == buf
      requires sub.End() + bytesLeft <= |buf|
      modifies this`state, sub
      ensures Valid() && ok
      ensures state == old(sub.End()) && bytesLeft == old(bytesLeft)
    {
      if sub.bytesLeft > 0 {
        ok := sub.SkipBytes(sub.bytesLeft);
        if !ok {
          return false;
        }
      }
      state := sub.state;
      return true;
    }
  }
}

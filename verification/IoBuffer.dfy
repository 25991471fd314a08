/** The memory buffer behind the byte interface, open for writing: buf_write, buf_seek and buf_position of
    src/util/io_buffer.c. */
module IoBuffer {
  import opened Samples

  /** s with b put over what stands at offset o. */
  function Overwrite(s: seq<Byte>, o: nat, b: seq<Byte>): seq<Byte>
    requires o <= |s|
  {
    s[..o] + b + if o + |b| <= |s| then s[o + |b|..] else []
  }

  datatype Origin = SeekSet | SeekCur | SeekEnd

  class Buffer {
    var buf: array<Byte>
    var dataSize: nat
    var opOffset: nat
    const growable: bool

    ghost predicate Valid()
      reads this
    {
      dataSize <= buf.Length && opOffset <= buf.Length
    }

    ghost function Contents(): seq<Byte>
      requires Valid()
      reads this, buf
    {
      buf[..dataSize]
    }

    /** The contents, and the stale bytes up to the position when it is further on. */
    ghost function Reach(): (r: seq<Byte>)
      requires Valid()
      reads this, buf
    {
      if dataSize < opOffset then buf[..opOffset] else buf[..dataSize]
    }

    /** buf_set_buffer without a buffer of the caller's. */
    constructor (size: nat, growable: bool)
      ensures Valid() && fresh(buf) && buf.Length == size && this.growable == growable
      ensures dataSize == opOffset == 0 && Contents() == []
    {
      buf := new Byte[size];
      dataSize, opOffset := 0, 0;
      this.growable := growable;
    }

    /** buf_seek: an offset from the start, the position or the end of the data; refused beyond the buffer. */
    method Seek(offset: int, origin: Origin) returns (ok: bool)
      requires Valid()
      modifies `opOffset
      ensures Valid()
      ensures var from := match origin case SeekSet => 0 case SeekCur => old(opOffset) case SeekEnd => dataSize;
        var target := from + offset;
        (ok <==> 0 <= target <= buf.Length) && opOffset == if ok then target else old(opOffset)
    {
      var target := offset;
      if origin == SeekCur {
        target := target + opOffset;
      } else if origin == SeekEnd {
        target := target + dataSize;
      }
      if target < 0 || target > buf.Length { return false; }
      opOffset := target;
      return true;
    }

    /** The reallocation of buf_write: the buffer grows by half until `needed` bytes fit. */
    method Grow(needed: nat)
      requires Valid() && buf.Length < needed
      modifies `buf
      ensures Valid() && fresh(buf) && needed <= buf.Length && old(buf).Length <= buf.Length
      ensures buf[..old(buf).Length] == old(buf[..])
    {
      var size := buf.Length + 4;
      size := size + size / 2;
      while size < needed
        invariant size >= buf.Length + 4
        decreases needed - size
      {
        size := size + size / 2;
      }
      var bigger := new Byte[size];
      forall i | 0 <= i < buf.Length {
        bigger[i] := buf[i];
      }
      assert bigger[..buf.Length] == buf[..];
      buf := bigger;
    }

    /** buf_write: the bytes overwrite what stands at the position and extend the contents beyond the
        end; a buffer that cannot grow takes all or nothing. */
    method Write(bytes: seq<Byte>) returns (written: nat)
      requires Valid()
      modifies this, buf
      ensures Valid() && (buf == old(buf) || fresh(buf))
      ensures written == if growable || old(opOffset) + |bytes| <= old(buf.Length) then |bytes| else 0
      ensures written == |bytes| ==> opOffset == old(opOffset) + |bytes|
      ensures written == |bytes| && bytes != [] ==> Contents() == Overwrite(old(Reach()), old(opOffset), bytes)
      ensures written != |bytes| ==> opOffset == old(opOffset) && Contents() == old(Contents())
    {
      var next := opOffset + |bytes|;
      ghost var reach := Reach();
      if buf.Length < next {
        if !growable { return 0; }
        Grow(next);
        assert buf[..|reach|] == reach;
      }
      forall i | 0 <= i < |bytes| {
        buf[opOffset + i] := bytes[i];
      }
      ghost var o := opOffset;
      opOffset := next;
      if dataSize < opOffset { dataSize := opOffset; }
      if bytes != [] { assert Contents() == Overwrite(reach, o, bytes); }
      return |bytes|;
    }
  }
}

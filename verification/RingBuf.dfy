/** The circular byte buffer (ringbuf.c): two wrapping pointers and a fill count. */
module RingBuf {
  import opened Bytes

  class Ring {
    const data: array<byte>  // the byte array between p_o and p_o + size
    var r: nat               // p_r - p_o
    var w: nat               // p_w - p_o
    var fill: nat            // fill_cnt

    /** The stored bytes, oldest first. */
    ghost var contents: seq<byte>

    ghost predicate Valid()
      reads this, data
    {
      && 2 <= data.Length
      && r < data.Length
      && w < data.Length
      && fill == |contents| <= data.Length
      && w == (if r + fill < data.Length then r + fill else r + fill - data.Length)
      && forall i :: 0 <= i < fill ==>
           contents[i] == data[if r + i < data.Length then r + i else r + i - data.Length]
    }

    constructor (buf: array<byte>)
      requires 2 <= buf.Length
      ensures data == buf && Valid() && fill == 0 && contents == []
    {
      data := buf;
      r, w, fill, contents := 0, 0, 0, [];
    }

    /** A missing buffer or a size below 2 is refused. */
    static method Init(buf: array?<byte>) returns (ring: Ring?)
      ensures ring == null <==> buf == null || buf.Length < 2
      ensures ring != null ==> fresh(ring) && ring.data == buf && ring.Valid() && ring.contents == []
    {
      if buf == null || buf.Length < 2 {
        return null;
      }
      ring := new Ring(buf);
    }

    method Put(c: byte) returns (rc: int)
      requires Valid()
      modifies this, data
      ensures Valid()
      ensures rc == if old(fill) < data.Length then 0 else -1
      ensures contents == if rc == 0 then old(contents) + [c] else old(contents)
    {
      if fill >= data.Length {
        return -1;
      }
      fill := fill + 1;
      data[w] := c;
      contents := contents + [c];
      w := w + 1;
      if w >= data.Length {
        w := 0;
      }
      return 0;
    }

    method Get() returns (rc: int, c: byte)
      requires Valid()
      modifies this
      ensures Valid()
      ensures rc == if old(fill) > 0 then 0 else -1
      ensures rc == 0 ==> old(contents) == [c] + contents
      ensures rc != 0 ==> contents == old(contents) == []
    {
      if fill <= 0 {
        return -1, 0;
      }
      assert contents[0] == data[r];
      fill := fill - 1;
      c := data[r];
      contents := contents[1..];
      r := r + 1;
      if r >= data.Length {
        r := 0;
      }
      return 0, c;
    }
  }
}

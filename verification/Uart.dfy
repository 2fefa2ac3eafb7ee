/** The UART's software rings (uart.c): byte FIFOs filled and emptied in chunks that may wrap around. */
module Uart {
  import opened Bytes

  const UART_FIFO_LEN := 128

  /** A position past the end of a buffer of `size` bytes, taken back once. */
  function Wrap(i: nat, size: nat): nat {
    if i < size then i else i - size
  }

  /** `buf` holds `contents` from `out` on, around the end if need be. */
  ghost predicate Stored(buf: seq<byte>, out: nat, contents: seq<byte>) {
    && out < |buf| && |contents| <= |buf|
    && forall i :: 0 <= i < |contents| ==> contents[i] == buf[Wrap(out + i, |buf|)]
  }

  /** What a memcpy of `data` to `at` makes of a buffer. */
  ghost predicate Copied(before: seq<byte>, after: seq<byte>, at: nat, data: seq<byte>) {
    && |after| == |before| && at + |data| <= |before|
    && forall i :: 0 <= i < |before| ==> after[i] == if at <= i < at + |data| then data[i - at] else before[i]
  }

  /** Copying behind the contents without wrapping appends. */
  lemma CopyAppends(before: seq<byte>, after: seq<byte>, out: nat, contents: seq<byte>, data: seq<byte>)
    requires Stored(before, out, contents) && |contents| + |data| <= |before|
    requires Copied(before, after, Wrap(out + |contents|, |before|), data)
    ensures Stored(after, out, contents + data)
  {
    var size, at := |before|, Wrap(out + |contents|, |before|);
    forall i | 0 <= i < |contents + data|
      ensures (contents + data)[i] == after[Wrap(out + i, size)]
    {
      if i >= |contents| {
        assert Wrap(out + i, size) == at + (i - |contents|);
      }
    }
  }

  lemma TakeFront(buf: seq<byte>, out: nat, contents: seq<byte>, n: nat)
    requires Stored(buf, out, contents) && n <= |contents|
    ensures Stored(buf, Wrap(out + n, |buf|), contents[n..])
  {
    forall i | 0 <= i < |contents[n..]|
      ensures contents[n..][i] == buf[Wrap(Wrap(out + n, |buf|) + i, |buf|)]
    {
      assert contents[n..][i] == contents[n + i];
    }
  }

  /** A position taken modulo the size, as after every chunk. */
  method Modulo(i: nat, size: nat) returns (r: nat)
    requires i <= size && 0 < size
    ensures r == Wrap(i, size)
  {
    if i == size {
      assert size == 1 * size + 0;
    }
    r := i % size;
  }

  class UartBuffer {
    const buf: array<byte>  // pUartBuff; its length is UartBuffSize
    var inPos: nat
    var outPos: nat
    var space: nat
    ghost var contents: seq<byte>

    ghost predicate Valid()
      reads this, buf
    {
      && 0 < buf.Length < 0x1_0000
      && space + |contents| == buf.Length
      && outPos < buf.Length && inPos == Wrap(outPos + |contents|, buf.Length)
      && Stored(buf[..], outPos, contents)
    }

    /** Uart_Buf_Init, when there is memory. */
    constructor (size: nat)
      requires 0 < size < 0x1_0000
      ensures Valid() && contents == [] && space == size && buf.Length == size && fresh(buf)
    {
      buf := new byte[size];
      inPos, outPos, space, contents := 0, 0, size, [];
    }

    method MemCpyIn(at: nat, data: seq<byte>)
      requires at + |data| <= buf.Length
      modifies buf
      ensures Copied(old(buf[..]), buf[..], at, data)
    {
      forall i | 0 <= i < |data| {
        buf[at + i] := data[i];
      }
    }

    /** One chunk, which does not wrap: the copy, the write position taken modulo the size, and the space. */
    method CopyChunk(data: seq<byte>)
      requires Valid() && |data| <= space && inPos + |data| <= buf.Length
      modifies this`inPos, this`space, this`contents, buf
      ensures Valid() && contents == old(contents) + data
    {
      MemCpyIn(inPos, data);
      CopyAppends(old(buf[..]), buf[..], outPos, contents, data);
      inPos := inPos + |data|;
      inPos := Modulo(inPos, buf.Length);
      space := space - |data|;
      contents := contents + data;
    }

    /** Uart_Buf_Cpy: in one chunk or two, the data go behind what is there. */
    method Cpy(data: seq<byte>)
      requires Valid() && |data| <= space
      modifies this`inPos, this`space, this`contents, buf
      ensures Valid() && contents == old(contents) + data
    {
      if |data| == 0 {
        return;
      }
      var tailLen := buf.Length - inPos;
      if tailLen >= |data| {
        CopyChunk(data);
      } else {
        CopyChunk(data[..tailLen]);
        CopyChunk(data[tailLen..]);
        assert data[..tailLen] + data[tailLen..] == data;
      }
    }

    /** A chunk read out from the read position, without wrapping; the position is taken modulo the size if asked. */
    method ReadChunk(n: nat, modulo: bool) returns (out: seq<byte>)
      requires Valid() && n <= |contents| && outPos + n <= buf.Length
      requires !modulo ==> outPos + n < buf.Length
      modifies this`outPos, this`space, this`contents
      ensures Valid() && out == old(contents)[..n] && contents == old(contents)[n..]
    {
      TakeFront(buf[..], outPos, contents, n);
      out := buf[outPos..outPos + n];
      assert out == contents[..n];
      outPos := outPos + n;
      if modulo {
        outPos := Modulo(outPos, buf.Length);
      }
      space := space + n;
      contents := contents[n..];
    }

    /**
     * rx_buff_deq: the oldest bytes, as many as asked for or as there are. That the ring is never full, so that equal
     * positions mean empty, is what makes the first branch right.
     */
    method Deq(dataLen: nat) returns (pdata: seq<byte>)
      requires Valid() && space >= 1
      modifies this`outPos, this`space, this`contents
      ensures Valid() && space >= 1
      ensures pdata == Cut(old(contents), dataLen) && contents == old(contents)[|pdata|..]
    {
      var bufLen := buf.Length - space;
      var tailLen := buf.Length - outPos;
      var len := if dataLen > bufLen then bufLen else dataLen;
      assert len <= |contents| < buf.Length;
      if outPos <= inPos {
        assert outPos + |contents| == inPos;
        pdata := ReadChunk(len, false);
      } else if len > tailLen {
        pdata := ReadChunk(tailLen, true);
        var rest := ReadChunk(len - tailLen, true);
        pdata := pdata + rest;
      } else {
        pdata := ReadChunk(len, true);
      }
    }

    /** One byte in at the write position, which wraps at the end; the space is settled by the caller. */
    method PutByte(c: byte)
      requires Valid() && space >= 1
      modifies this`inPos, this`space, this`contents, buf
      ensures Valid() && contents == old(contents) + [c]
    {
      MemCpyIn(inPos, [c]);
      CopyAppends(old(buf[..]), buf[..], outPos, contents, [c]);
      inPos := inPos + 1;
      if inPos == buf.Length {
        inPos := 0;
      }
      space := space - 1;
      contents := contents + [c];
    }

    /** Uart_rx_buff_enq: the whole hardware FIFO if that leaves the ring short of full, else nothing. */
    method RxEnq(fifo: seq<byte>)
      requires Valid() && space >= 1
      modifies this`inPos, this`space, this`contents, buf
      ensures Valid() && space >= 1
      ensures contents == if |fifo| < old(space) then old(contents) + fifo else old(contents)
    {
      if |fifo| >= space {
        return;
      }
      var idx := 0;
      while idx < |fifo|
        invariant 0 <= idx <= |fifo| && Valid() && space + idx == old(space)
        invariant contents == old(contents) + fifo[..idx]
      {
        idx := idx + 1;
        assert fifo[..idx] == fifo[..idx - 1] + [fifo[idx - 1]];
        PutByte(fifo[idx - 1]);
      }
      assert fifo[..idx] == fifo;
    }
  }

  /** What happens on the transmit side: data are offered, an interrupt comes, or the hardware sends `n` bytes. */
  datatype TxEvent = Offered(data: seq<byte>) | Interrupt | Sends(n: nat)

  /** The transmit side: the ring, and how many bytes the hardware FIFO still holds. */
  class Transmitter {
    const ring: UartBuffer
    var fifoLen: nat
    ghost var enqueued: seq<byte>  // everything accepted so far
    ghost var moved: seq<byte>     // everything written to the hardware FIFO so far
    ghost var sent: seq<byte>      // everything the hardware has sent so far

    /** No byte is lost, repeated or reordered, and the hardware FIFO is never overrun. */
    ghost predicate Valid()
      reads this, ring, ring.buf
    {
      && ring.Valid() && fifoLen <= UART_FIFO_LEN
      && enqueued == moved + ring.contents && sent <= moved && |moved| == |sent| + fifoLen
    }

    constructor (size: nat)
      requires 0 < size < 0x1_0000
      ensures Valid() && enqueued == sent == [] && fresh(ring) && fresh(ring.buf) && ring.space == size
    {
      ring := new UartBuffer(size);
      fifoLen, enqueued, moved, sent := 0, [], [], [];
    }

    /** tx_buff_enq, once the ring exists: all of the data or none. */
    method Enq(data: seq<byte>)
      requires Valid()
      modifies this`enqueued, ring, ring.buf
      ensures Valid()
      ensures enqueued == if |data| <= old(ring.space) then old(enqueued) + data else old(enqueued)
    {
      if |data| <= ring.space {
        Assoc(moved, ring.contents, data);
        ring.Cpy(data);
        enqueued := enqueued + data;
      }
    }

    /** The oldest byte goes from the ring to the hardware. */
    method MoveByte()
      requires Valid() && ring.contents != [] && fifoLen < UART_FIFO_LEN
      modifies this`fifoLen, this`moved, ring
      ensures Valid()
      ensures |ring.contents| == |old(ring.contents)| - 1 && fifoLen == old(fifoLen) + 1
    {
      ghost var before := ring.contents;
      var c := ring.ReadChunk(1, true);
      assert before == c + ring.contents;
      Assoc(moved, c, ring.contents);
      moved := moved + c;
      fifoLen := fifoLen + 1;
    }

    /** tx_fifo_insert: byte by byte, the read position wrapping at the end. */
    method FifoInsert(n: nat)
      requires Valid() && n <= |ring.contents| && fifoLen + n <= UART_FIFO_LEN
      modifies this`fifoLen, this`moved, ring
      ensures Valid()
      ensures |ring.contents| == |old(ring.contents)| - n && fifoLen == old(fifoLen) + n
    {
      var i := 0;
      while i < n
        invariant 0 <= i <= n && Valid()
        invariant |ring.contents| == |old(ring.contents)| - i && fifoLen == old(fifoLen) + i
      {
        MoveByte();
        i := i + 1;
      }
    }

    /** tx_start_uart_buffer: fills the hardware FIFO as far as the ring allows. */
    method Start()
      requires Valid()
      modifies this`fifoLen, this`moved, ring
      ensures Valid()
      ensures fifoLen - old(fifoLen) == |old(ring.contents)| - |ring.contents|
      ensures old(fifoLen) <= fifoLen <= 128
      ensures fifoLen == 128 || ring.contents == []
    {
      var remain := UART_FIFO_LEN - fifoLen;
      var dataLen := ring.buf.Length - ring.space;
      FifoInsert(if dataLen > remain then remain else dataLen);
    }

    /** The hardware sends the oldest bytes of its FIFO, at most `n`. */
    method HardwareSends(n: nat)
      requires Valid()
      modifies this`fifoLen, this`sent
      ensures Valid()
      ensures fifoLen == if n < old(fifoLen) then old(fifoLen) - n else 0
    {
      var len := if n < fifoLen then n else fifoLen;
      sent := moved[..|sent| + len];
      fifoLen := fifoLen - len;
    }

    /**
     * Whatever happens: what was sent is always the beginning of what was accepted, and no more than a hardware FIFO
     * and a ring behind.
     */
    method Run(events: seq<TxEvent>)
      requires Valid()
      modifies this`enqueued, this`fifoLen, this`moved, this`sent, ring, ring.buf
      ensures Valid()
      ensures old(enqueued) <= enqueued && old(sent) <= sent <= enqueued
      ensures |enqueued| - |sent| <= 128 + ring.buf.Length
    {
      for k := 0 to |events|
        invariant Valid() && old(enqueued) <= enqueued && old(sent) <= sent
      {
        match events[k]
        case Offered(data) => Enq(data);
        case Interrupt => Start();
        case Sends(n) => HardwareSends(n);
      }
    }

    /** With an interrupt each time the hardware FIFO has been emptied, everything accepted is sent in the end. */
    method Drain()
      requires Valid()
      modifies this`fifoLen, this`moved, this`sent, ring
      ensures Valid()
      ensures sent == enqueued && ring.contents == [] && fifoLen == 0
    {
      HardwareSends(fifoLen);
      while ring.space < ring.buf.Length
        invariant Valid() && fifoLen == 0
        decreases |ring.contents|
      {
        Start();
        HardwareSends(fifoLen);
      }
    }
  }
}

/** Byte-stuffed framing over the ring (proto.c). */
module Proto {
  import opened Bytes
  import RingBuf

  const BEGIN: byte := 0x7E
  const END: byte := 0x7F
  const ESC: byte := 0x7D

  /** `b ^ 0x20`: toggles bit 5. */
  function Toggle(b: byte): byte {
    if b / 32 % 2 == 1 then b - 32 else b + 32
  }

  /** Bit 5 and no other. */
  lemma ToggleIs(b: byte)
    ensures Toggle(b) / 64 == b / 64 && Toggle(b) % 32 == b % 32 && Toggle(b) / 32 % 2 == 1 - b / 32 % 2
  {
    if b / 32 % 2 == 1 {
      assert b == 32 * (b / 32) + b % 32;
    }
  }

  // ---------- What a frame is ----------

  function Escaped(b: byte): seq<byte> {
    if b == ESC || b == BEGIN || b == END then [ESC, Toggle(b)] else [b]
  }

  function Stuff(packet: seq<byte>): seq<byte> {
    if packet == [] then [] else Stuff(packet[..|packet| - 1]) + Escaped(packet[|packet| - 1])
  }

  function Frame(packet: seq<byte>): (f: seq<byte>)
    ensures |f| >= 2
  {
    [BEGIN] + Stuff(packet) + [END]
  }

  /** A put that runs out of room leaves a prefix of a frame: a begin mark, then neither mark. */
  ghost predicate IsFragment(bytes: seq<byte>) {
    && bytes != []
    && bytes[0] == BEGIN
    && forall i :: 1 <= i < |bytes| ==> bytes[i] != BEGIN && bytes[i] != END
  }

  /** The marks and the three escapes, byte for byte. */
  lemma FrameBytes(packet: seq<byte>, b: byte)
    ensures Frame(packet)[0] == 0x7E && Frame(packet)[|Frame(packet)| - 1] == 0x7F
    ensures Stuff([]) == []
    ensures Stuff(packet + [b])
         == Stuff(packet) + if b == 0x7D then [0x7D, 0x5D] else if b == 0x7E then [0x7D, 0x5E]
                            else if b == 0x7F then [0x7D, 0x5F] else [b]
  {
    assert (packet + [b])[..|packet|] == packet;
  }

  lemma {:induction false} StuffHasNoMarks(packet: seq<byte>)
    ensures BEGIN !in Stuff(packet) && END !in Stuff(packet)
    ensures |packet| <= |Stuff(packet)| <= 2 * |packet|
  {
    if packet != [] {
      StuffHasNoMarks(packet[..|packet| - 1]);
    }
  }

  /** The stuffed form of a prefix is a prefix of the stuffed form. */
  lemma {:induction false} StuffPrefix(packet: seq<byte>, k: nat)
    requires k <= |packet|
    ensures Stuff(packet[..k]) <= Stuff(packet)
    decreases |packet| - k
  {
    if k == |packet| {
      assert packet[..k] == packet;
    } else {
      StuffPrefix(packet, k + 1);
      assert packet[..k + 1][..k] == packet[..k];
    }
  }

  lemma FramePrefixIsFragment(packet: seq<byte>, n: nat)
    requires 0 < n < |Frame(packet)|
    ensures IsFragment(Frame(packet)[..n])
  {
    StuffHasNoMarks(packet);
    var f := Frame(packet);
    forall i | 1 <= i < n
      ensures f[i] != BEGIN && f[i] != END
    {
      assert f[i] == Stuff(packet)[i - 1];
      assert f[i] in Stuff(packet);
    }
  }

  // ---------- The parser as a function of the bytes it was fed ----------

  datatype ParserState = ParserState(out: seq<byte>, isEsc: bool, isBegin: bool)

  function Step(s: ParserState, value: byte, bufSize: nat): ParserState {
    if value == ESC then s.(isEsc := true)
    else if value == BEGIN then ParserState([], false, true)
    else if value == END then s.(isBegin := false)
    else if !s.isBegin then s
    else
      var v := if s.isEsc then Toggle(value) else value;
      ParserState(if |s.out| < bufSize then s.out + [v] else s.out, false, true)
  }

  function Feed(s: ParserState, bytes: seq<byte>, bufSize: nat): ParserState {
    if bytes == [] then s
    else Step(Feed(s, bytes[..|bytes| - 1], bufSize), bytes[|bytes| - 1], bufSize)
  }

  lemma {:induction false} FeedConcat(s: ParserState, a: seq<byte>, b: seq<byte>, bufSize: nat)
    ensures Feed(s, a + b, bufSize) == Feed(Feed(s, a, bufSize), b, bufSize)
  {
    if b == [] {
      assert a + b == a;
    } else {
      FeedConcat(s, a, b[..|b| - 1], bufSize);
      assert (a + b)[..|a + b| - 1] == a + b[..|b| - 1];
    }
  }

  /** Unstuffing undoes stuffing, up to the size of the caller's buffer. */
  lemma {:induction false} FeedStuff(packet: seq<byte>, bufSize: nat)
    ensures Feed(ParserState([], false, true), Stuff(packet), bufSize)
         == ParserState(Cut(packet, bufSize), false, true)
  {
    if packet != [] {
      var n := |packet| - 1;
      FeedStuff(packet[..n], bufSize);
      FeedConcat(ParserState([], false, true), Stuff(packet[..n]), Escaped(packet[n]), bufSize);
      FeedEscaped(ParserState(Cut(packet[..n], bufSize), false, true), packet[n], bufSize);
      CutLast(packet, bufSize);
    }
  }

  lemma CutLast(packet: seq<byte>, size: nat)
    requires packet != []
    ensures
      var n := |packet| - 1;
      var c := Cut(packet[..n], size);
      Cut(packet, size) == if |c| < size then c + [packet[n]] else c
  {
  }

  lemma FeedEscaped(s: ParserState, b: byte, bufSize: nat)
    requires s.isBegin && !s.isEsc
    ensures Feed(s, Escaped(b), bufSize) == s.(out := if |s.out| < bufSize then s.out + [b] else s.out)
  {
    var e := Escaped(b);
    if |e| == 2 {
      assert e[..1] == [ESC];
      assert [ESC][..0] == [];
      assert Feed(s, [ESC], bufSize) == s.(isEsc := true);
    } else {
      assert e[..0] == [];
    }
  }

  /** Whatever came before, a begin mark starts afresh: the bytes up to the end mark are the packet. */
  lemma FeedFrame(s: ParserState, before: seq<byte>, packet: seq<byte>, bufSize: nat)
    ensures Feed(s, before + [BEGIN] + Stuff(packet), bufSize) == ParserState(Cut(packet, bufSize), false, true)
  {
    FeedConcat(s, before + [BEGIN], Stuff(packet), bufSize);
    assert (before + [BEGIN])[..|before|] == before;
    FeedStuff(packet, bufSize);
  }

  // ---------- The code ----------

  class Parser {
    const buf: array<byte>
    const bufSize: nat
    var dataLen: nat
    var isEsc: bool
    var isBegin: bool

    ghost predicate Valid()
      reads this
    {
      bufSize <= buf.Length && dataLen <= bufSize
    }

    ghost function State(): ParserState
      requires Valid()
      reads this, buf
    {
      ParserState(buf[..dataLen], isEsc, isBegin)
    }

    /** PROTO_Init: `isBegin` is left as it is found, so nothing is known of it here. */
    constructor (buf: array<byte>, bufSize: nat)
      requires bufSize <= buf.Length
      ensures Valid() && this.buf == buf && this.bufSize == bufSize
      ensures State().out == [] && !State().isEsc
    {
      this.buf := buf;
      this.bufSize := bufSize;
      dataLen := 0;
      isEsc := false;
    }

    /** PROTO_ParseByte with no callback: 0 exactly on an end mark. */
    method ParseByte(value: byte) returns (rc: int)
      requires Valid()
      modifies this, buf
      ensures Valid()
      ensures State() == Step(old(State()), value, bufSize)
      ensures rc == if value == END then 0 else -1
    {
      var v := value;
      if v == ESC {
        isEsc := true;
      } else if v == BEGIN {
        dataLen := 0;
        isEsc := false;
        isBegin := true;
      } else if v == END {
        isBegin := false;
        return 0;
      } else if isBegin {
        if isEsc {
          v := Toggle(v);
          isEsc := false;
        }
        if dataLen < bufSize {
          buf[dataLen] := v;
          dataLen := dataLen + 1;
        }
      }
      return -1;
    }
  }

  /** One turn of the switch in PROTO_AddRb. */
  method PutEscaped(rb: RingBuf.Ring, c: byte) returns (rc: int, added: nat)
    requires rb.Valid()
    modifies rb, rb.data
    ensures rb.Valid()
    ensures rc == if |old(rb.contents) + Escaped(c)| <= rb.data.Length then 0 else -1
    ensures rc == 0 ==> added == |Escaped(c)|
    ensures rb.contents == Cut(old(rb.contents) + Escaped(c), rb.data.Length)
  {
    if c == ESC || c == BEGIN || c == END {
      rc := rb.Put(ESC);
      if rc == -1 {
        return -1, 0;
      }
      rc := rb.Put(Toggle(c));
      added := 2;
    } else {
      rc := rb.Put(c);
      added := 1;
    }
  }

  lemma StuffStep(before: seq<byte>, packet: seq<byte>, k: nat)
    requires k < |packet|
    ensures before + Stuff(packet[..k]) + Escaped(packet[k]) == before + Stuff(packet[..k + 1])
    ensures |Stuff(packet[..k + 1])| == |Stuff(packet[..k])| + |Escaped(packet[k])|
    ensures Stuff(packet[..k + 1]) <= Stuff(packet)
  {
    assert packet[..k + 1][..k] == packet[..k];
    Assoc(before, Stuff(packet[..k]), Escaped(packet[k]));
    StuffPrefix(packet, k + 1);
  }

  /** A put stopped early has stored as much of the frame as fits. */
  lemma CutShort(before: seq<byte>, part: seq<byte>, whole: seq<byte>, size: nat)
    requires part <= whole
    requires |before| + |part| > size >= |before|
    ensures Cut(before + part, size) == Cut(before + whole, size)
  {
  }

  /** The loop of PROTO_AddRb: the packet stuffed, or as much of it as there is room for. */
  method AddStuffed(rb: RingBuf.Ring, packet: seq<byte>) returns (rc: int, added: nat)
    requires rb.Valid()
    modifies rb, rb.data
    ensures rb.Valid()
    ensures rb.contents == Cut(old(rb.contents) + Stuff(packet), rb.data.Length)
    ensures rc == if |old(rb.contents)| + |Stuff(packet)| <= rb.data.Length then 0 else -1
    ensures rc == 0 ==> added == |Stuff(packet)|
  {
    ghost var before := rb.contents;
    var k := 0;
    added := 0;
    while k < |packet|
      invariant 0 <= k <= |packet|
      invariant rb.Valid()
      invariant added == |Stuff(packet[..k])|
      invariant rb.contents == before + Stuff(packet[..k])
    {
      StuffStep(before, packet, k);
      var more;
      rc, more := PutEscaped(rb, packet[k]);
      if rc == -1 {
        CutShort(before, Stuff(packet[..k + 1]), Stuff(packet), rb.data.Length);
        return -1, 0;
      }
      added := added + more;
      k := k + 1;
    }
    assert packet[..|packet|] == packet;
    rc := 0;
  }

  lemma FrameParts(before: seq<byte>, packet: seq<byte>)
    ensures before + [BEGIN] + Stuff(packet) == before + ([BEGIN] + Stuff(packet))
    ensures before + [BEGIN] + Stuff(packet) + [END] == before + Frame(packet)
    ensures |Frame(packet)| == |Stuff(packet)| + 2
  {
    Assoc(before, [BEGIN], Stuff(packet));
    Assoc(before, [BEGIN] + Stuff(packet), [END]);
  }

  /**
   * PROTO_AddRb: all of the frame, or as much of it as there is room for.
   * The count is kept in a U16 and returned as an I16.
   */
  method AddRb(rb: RingBuf.Ring, packet: seq<byte>) returns (rc: int)
    requires rb.Valid()
    requires |packet| < 0x8000
    modifies rb, rb.data
    ensures rb.Valid()
    ensures rb.contents == Cut(old(rb.contents) + Frame(packet), rb.data.Length)
    ensures rc == if |old(rb.contents)| + |Frame(packet)| <= rb.data.Length then AsI16(|Frame(packet)|) else -1
  {
    ghost var before := rb.contents;
    FrameParts(before, packet);
    var i := 2;
    rc := rb.Put(BEGIN);
    if rc == -1 {
      CutShort(before, [BEGIN], Frame(packet), rb.data.Length);
      return -1;
    }
    var added;
    rc, added := AddStuffed(rb, packet);
    if rc == -1 {
      CutShort(before, [BEGIN] + Stuff(packet), Frame(packet), rb.data.Length);
      return -1;
    }
    i := i + added;
    rc := rb.Put(END);
    if rc == -1 {
      return -1;
    }
    return AsI16(i);
  }

  /** The position of the first end mark, or the length if there is none. */
  function FirstEnd(bytes: seq<byte>): (k: nat)
    ensures k <= |bytes|
    ensures forall i :: 0 <= i < k ==> bytes[i] != END
    ensures k < |bytes| ==> bytes[k] == END
  {
    if bytes == [] || bytes[0] == END then 0 else 1 + FirstEnd(bytes[1..])
  }

  /**
   * PROTO_ParseRb: reads up to and including the first end mark; -1 and an empty ring if there is none.
   * `isBegin` is whatever the fresh parser happened to hold.
   */
  method ParseRb(rb: RingBuf.Ring, bufOut: array<byte>, maxBufLen: nat) returns (rc: int, len: nat, ghost isBegin: bool)
    requires rb.Valid() && rb.data != bufOut && maxBufLen <= bufOut.Length
    modifies rb, bufOut
    ensures rb.Valid()
    ensures rc == if END in old(rb.contents) then 0 else -1
    ensures rc == -1 ==> rb.contents == []
    ensures rc == 0 ==>
      var k := FirstEnd(old(rb.contents));
      && rb.contents == old(rb.contents)[k + 1..]
      && len <= maxBufLen
      && bufOut[..len] == Feed(ParserState([], false, isBegin), old(rb.contents)[..k], maxBufLen).out
  {
    ghost var before := rb.contents;
    var proto := new Parser(bufOut, maxBufLen);
    ghost var s0 := proto.State();
    isBegin := s0.isBegin;
    len := 0;
    ghost var n := 0;
    while true
      invariant rb.Valid() && proto.Valid()
      invariant 0 <= n <= |before| && rb.contents == before[n..]
      invariant END !in before[..n]
      invariant proto.State() == Feed(s0, before[..n], maxBufLen)
      decreases |rb.contents|
    {
      var got, c := rb.Get();
      if got != 0 {
        assert before[..n] == before;
        return -1, 0, isBegin;
      }
      NextByte(s0, before, n, maxBufLen);
      var done := proto.ParseByte(c);
      if done == 0 {
        len := proto.dataLen;
        return 0, len, isBegin;
      }
      n := n + 1;
    }
  }

  lemma NextByte(s0: ParserState, bytes: seq<byte>, n: nat, bufSize: nat)
    requires n < |bytes| && END !in bytes[..n]
    ensures bytes[n..][0] == bytes[n] && bytes[n..][1..] == bytes[n + 1..]
    ensures Feed(s0, bytes[..n + 1], bufSize) == Step(Feed(s0, bytes[..n], bufSize), bytes[n], bufSize)
    ensures bytes[n] != END ==> END !in bytes[..n + 1]
    ensures bytes[n] == END ==> END in bytes && FirstEnd(bytes) == n
  {
    assert bytes[..n + 1] == bytes[..n] + [bytes[n]];
    FirstEndAt(bytes, n);
  }

  lemma {:induction false} FirstEndAt(bytes: seq<byte>, n: nat)
    requires n < |bytes| && END !in bytes[..n]
    ensures bytes[n] == END ==> FirstEnd(bytes) == n
  {
    if n > 0 {
      assert bytes[..n][0] == bytes[0];
      assert bytes[1..][..n - 1] == bytes[..n][1..];
      FirstEndAt(bytes[1..], n - 1);
    }
  }
}

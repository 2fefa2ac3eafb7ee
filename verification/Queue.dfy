/**
 * The outbound message queue (queue.c) and the "put; if full, drop the oldest and retry" loop that
 * mqtt.c runs over it. The ring is seen as a sequence of segments: complete frames, and the fragments
 * that failed puts leave behind.
 */
module Queue {
  import opened Bytes
  import RingBuf
  import Proto

  // ---------- Segments ----------

  datatype Segment = Message(payload: seq<byte>) | Fragment(bytes: seq<byte>)
  {
    function Bytes(): seq<byte> {
      match this
      case Message(m) => Proto.Frame(m)
      case Fragment(b) => b
    }

    ghost predicate Ok() {
      Fragment? ==> Proto.IsFragment(bytes)
    }
  }

  ghost predicate AllOk(segs: seq<Segment>) {
    forall i :: 0 <= i < |segs| ==> segs[i].Ok()
  }

  function RingBytes(segs: seq<Segment>): seq<byte> {
    if segs == [] then [] else segs[0].Bytes() + RingBytes(segs[1..])
  }

  /** The queued messages, oldest first. */
  function Messages(segs: seq<Segment>): seq<seq<byte>> {
    if segs == [] then []
    else (if segs[0].Message? then [segs[0].payload] else []) + Messages(segs[1..])
  }

  /** What is left once everything up to and including the oldest message has gone. */
  function Rest(segs: seq<Segment>): (r: seq<Segment>)
    ensures |r| <= |segs|
    ensures segs != [] ==> |r| < |segs|
  {
    if segs == [] then []
    else if segs[0].Message? then segs[1..]
    else Rest(segs[1..])
  }

  /** The fragments in front of the oldest message. */
  function Lead(segs: seq<Segment>): seq<byte> {
    if segs == [] || segs[0].Message? then [] else segs[0].Bytes() + Lead(segs[1..])
  }

  /** For each message, the bytes it frees when it is taken: its frame and the fragments in front of it. */
  function Groups(segs: seq<Segment>): seq<nat>
    decreases |segs|
  {
    if Messages(segs) == [] then []
    else [|Lead(segs)| + |Proto.Frame(Messages(segs)[0])|] + Groups(Rest(segs))
  }

  lemma Append(a: seq<Segment>, b: seq<Segment>)
    ensures RingBytes(a + b) == RingBytes(a) + RingBytes(b)
    ensures Messages(a + b) == Messages(a) + Messages(b)
  {
    AppendBytes(a, b);
    AppendMessages(a, b);
  }

  lemma {:induction false} AppendBytes(a: seq<Segment>, b: seq<Segment>)
    ensures RingBytes(a + b) == RingBytes(a) + RingBytes(b)
  {
    if a == [] {
      assert a + b == b;
    } else {
      AppendBytes(a[1..], b);
      assert (a + b)[1..] == a[1..] + b;
      Assoc(a[0].Bytes(), RingBytes(a[1..]), RingBytes(b));
    }
  }

  lemma {:induction false} AppendMessages(a: seq<Segment>, b: seq<Segment>)
    ensures Messages(a + b) == Messages(a) + Messages(b)
  {
    if a == [] {
      assert a + b == b;
    } else {
      AppendMessages(a[1..], b);
      assert (a + b)[1..] == a[1..] + b;
      Assoc(Messages(a[..1]), Messages(a[1..]), Messages(b));
      Single(a[0]);
      assert a[..1] == [a[0]];
    }
  }

  lemma Single(s: Segment)
    ensures RingBytes([s]) == s.Bytes()
    ensures Messages([s]) == if s.Message? then [s.payload] else []
  {
    assert [s][1..] == [];
  }

  // ---------- Putting ----------

  function Used(segs: seq<Segment>): nat {
    |RingBytes(segs)|
  }

  predicate Fits(segs: seq<Segment>, size: nat, packet: seq<byte>) {
    Used(segs) + |Proto.Frame(packet)| <= size
  }

  /** One QUEUE_Puts: the whole frame, or a fragment that fills the ring. */
  function AfterPut(segs: seq<Segment>, size: nat, packet: seq<byte>): seq<Segment>
    requires Used(segs) <= size
  {
    if Fits(segs, size, packet) then segs + [Message(packet)]
    else if Used(segs) == size then segs
    else segs + [Fragment(Proto.Frame(packet)[..size - Used(segs)])]
  }

  lemma AfterPutOk(segs: seq<Segment>, size: nat, packet: seq<byte>)
    requires Used(segs) <= size && AllOk(segs)
    ensures AllOk(AfterPut(segs, size, packet))
  {
    var free := size - Used(segs);
    if free > 0 && !Fits(segs, size, packet) {
      Proto.FramePrefixIsFragment(packet, free);
    }
  }

  lemma AfterPutBytes(segs: seq<Segment>, size: nat, packet: seq<byte>)
    requires Used(segs) <= size
    ensures RingBytes(AfterPut(segs, size, packet)) == Cut(RingBytes(segs) + Proto.Frame(packet), size)
    ensures Messages(AfterPut(segs, size, packet))
         == if Fits(segs, size, packet) then Messages(segs) + [packet] else Messages(segs)
  {
    var free := size - Used(segs);
    if Fits(segs, size, packet) {
      Append(segs, [Message(packet)]);
      Single(Message(packet));
    } else {
      CutConcat(RingBytes(segs), Proto.Frame(packet), size);
      if free > 0 {
        var part := Fragment(Proto.Frame(packet)[..free]);
        Append(segs, [part]);
        Single(part);
      }
    }
  }

  lemma CutConcat(a: seq<byte>, b: seq<byte>, size: nat)
    requires |a| <= size < |a| + |b|
    ensures Cut(a + b, size) == a + b[..size - |a|]
  {
  }

  // ---------- Getting ----------

  lemma {:induction false} NoEndMark(segs: seq<Segment>)
    requires AllOk(segs) && Messages(segs) == []
    ensures Proto.END !in RingBytes(segs)
  {
    if segs != [] {
      NoEndMark(segs[1..]);
      assert segs[0].Ok();
    }
  }

  lemma {:induction false} LeadHasNoEnd(segs: seq<Segment>)
    requires AllOk(segs)
    ensures Proto.END !in Lead(segs)
  {
    if segs != [] && segs[0].Fragment? {
      LeadHasNoEnd(segs[1..]);
      assert segs[0].Ok();
    }
  }

  /** The first frame in the ring. */
  function FirstFrame(segs: seq<Segment>): seq<byte>
    requires Messages(segs) != []
  {
    if segs[0].Fragment? then FirstFrame(segs[1..]) else segs[0].Bytes()
  }

  lemma {:induction false} FirstFrameIs(segs: seq<Segment>)
    requires Messages(segs) != []
    ensures FirstFrame(segs) == Proto.Frame(Messages(segs)[0])
  {
    if segs[0].Fragment? {
      FirstFrameIs(segs[1..]);
      assert Messages(segs) == Messages(segs[1..]);
    }
  }

  lemma {:induction false} LeadAndRest(segs: seq<Segment>)
    requires Messages(segs) != []
    ensures RingBytes(segs) == Lead(segs) + FirstFrame(segs) + RingBytes(Rest(segs))
  {
    if segs[0].Fragment? {
      var tail := segs[1..];
      LeadAndRest(tail);
      FourAssoc(segs[0].bytes, Lead(tail), FirstFrame(tail), RingBytes(Rest(tail)));
    }
  }

  /** The ring up to the first end mark is: fragments, a begin mark, and the oldest message stuffed. */
  lemma OldestBytes(segs: seq<Segment>)
    requires AllOk(segs) && Messages(segs) != []
    ensures Proto.END !in Lead(segs)
    ensures RingBytes(segs) == Lead(segs) + Proto.Frame(Messages(segs)[0]) + RingBytes(Rest(segs))
  {
    LeadHasNoEnd(segs);
    LeadAndRest(segs);
    FirstFrameIs(segs);
  }

  lemma FourAssoc(a: seq<byte>, b: seq<byte>, c: seq<byte>, d: seq<byte>)
    ensures a + (b + c + d) == a + b + c + d
  {
  }

  /** A message is queued exactly when the ring holds an end mark. */
  lemma OnlyFragments(segs: seq<Segment>)
    requires AllOk(segs)
    ensures Messages(segs) == [] <==> Proto.END !in RingBytes(segs)
  {
    if Messages(segs) == [] {
      NoEndMark(segs);
    } else {
      OldestBytes(segs);
      FirstEndOfOldest(Lead(segs), Messages(segs)[0], RingBytes(Rest(segs)));
    }
  }

  lemma {:induction false} RestMessages(segs: seq<Segment>)
    ensures Messages(segs) != [] ==> Messages(Rest(segs)) == Messages(segs)[1..]
    ensures Messages(segs) == [] ==> Rest(segs) == []
  {
    if segs == [] {
    } else if segs[0].Fragment? {
      RestMessages(segs[1..]);
      assert [] + Messages(segs[1..]) == Messages(segs[1..]);
    } else {
      assert ([segs[0].payload] + Messages(segs[1..]))[1..] == Messages(segs[1..]);
    }
  }

  lemma {:induction false} RestOk(segs: seq<Segment>)
    requires AllOk(segs)
    ensures AllOk(Rest(segs))
  {
    if segs != [] && segs[0].Fragment? {
      RestOk(segs[1..]);
    }
  }

  lemma FrameParts(before: seq<byte>, stuffed: seq<byte>, rest: seq<byte>)
    ensures before + ([Proto.BEGIN] + stuffed + [Proto.END]) + rest
         == before + [Proto.BEGIN] + stuffed + [Proto.END] + rest
  {
  }

  lemma FirstEndBehind(head: seq<byte>, rest: seq<byte>)
    requires Proto.END !in head
    ensures
      var bytes := head + [Proto.END] + rest;
      && Proto.END in bytes && Proto.FirstEnd(bytes) == |head|
      && bytes[..|head|] == head && bytes[|head| + 1..] == rest
  {
    var bytes := head + [Proto.END] + rest;
    assert bytes[|head|] == Proto.END;
    Proto.FirstEndAt(bytes, |head|);
  }

  lemma FirstEndOfOldest(before: seq<byte>, packet: seq<byte>, rest: seq<byte>)
    requires Proto.END !in before
    ensures
      var bytes := before + Proto.Frame(packet) + rest;
      var k := Proto.FirstEnd(bytes);
      && Proto.END in bytes
      && bytes[..k] == before + [Proto.BEGIN] + Proto.Stuff(packet)
      && bytes[k + 1..] == rest
  {
    Proto.StuffHasNoMarks(packet);
    FrameParts(before, Proto.Stuff(packet), rest);
    FirstEndBehind(before + [Proto.BEGIN] + Proto.Stuff(packet), rest);
  }

  /** What the parser makes of the ring, for either value of its uninitialised flag. */
  lemma ParsedBytes(segs: seq<Segment>, isBegin: bool, maxLen: nat)
    requires AllOk(segs)
    ensures AllOk(Rest(segs))
    ensures
      var bytes := RingBytes(segs);
      var k := Proto.FirstEnd(bytes);
      var s0 := Proto.ParserState([], false, isBegin);
      if Messages(segs) == [] then
        Proto.END !in bytes && Rest(segs) == []
      else
        && Proto.END in bytes
        && Messages(Rest(segs)) == Messages(segs)[1..]
        && RingBytes(Rest(segs)) == bytes[k + 1..]
        && Proto.Feed(s0, bytes[..k], maxLen).out == Cut(Messages(segs)[0], maxLen)
  {
    RestMessages(segs);
    RestOk(segs);
    if Messages(segs) == [] {
      OnlyFragments(segs);
    } else {
      var oldest := Messages(segs)[0];
      OldestBytes(segs);
      FirstEndOfOldest(Lead(segs), oldest, RingBytes(Rest(segs)));
      Proto.FeedFrame(Proto.ParserState([], false, isBegin), Lead(segs), oldest, maxLen);
    }
  }

  /** The count of a frame that was put is its length up to 32767, and reads as the failure only at 65535. */
  lemma CountReadBack(packet: seq<byte>)
    requires |packet| < 0x8000
    ensures |Proto.Frame(packet)| < 0x8000 ==> AsI16(|Proto.Frame(packet)|) == |Proto.Frame(packet)|
    ensures AsI16(|Proto.Frame(packet)|) == -1 <==> |Proto.Frame(packet)| == 0xFFFF
  {
    Proto.StuffHasNoMarks(packet);
    assert |Proto.Frame(packet)| == |Proto.Stuff(packet)| + 2;
  }

  /** The segments are a way of speaking: the bytes in the ring alone determine the queued messages. */
  lemma {:induction false} BytesDetermineMessages(a: seq<Segment>, b: seq<Segment>)
    requires AllOk(a) && AllOk(b)
    requires RingBytes(a) == RingBytes(b)
    ensures Messages(a) == Messages(b)
    decreases |a|
  {
    if a != [] && Messages(a) != [] && Messages(b) != [] {
      var size := |Messages(a)[0]| + |Messages(b)[0]|;
      ParsedBytes(a, false, size);
      ParsedBytes(b, false, size);
      BytesDetermineMessages(Rest(a), Rest(b));
    } else {
      ParsedBytes(a, false, 0);
      ParsedBytes(b, false, 0);
    }
  }

  // ---------- The queue ----------

  class MsgQueue {
    const rb: RingBuf.Ring
    ghost var segs: seq<Segment>

    ghost predicate Valid()
      reads this, rb, rb.data
    {
      rb.Valid() && AllOk(segs) && rb.contents == RingBytes(segs)
    }

    /** QUEUE_Init, for the sizes RINGBUF_Init accepts. */
    constructor (bufferSize: nat)
      requires bufferSize >= 2
      ensures Valid() && fresh(rb) && fresh(rb.data)
      ensures segs == [] && rb.data.Length == bufferSize
    {
      var buf := new byte[bufferSize];
      rb := new RingBuf.Ring(buf);
      segs := [];
    }

    /** QUEUE_Puts: queues the message exactly, or leaves the messages alone and the ring full. */
    method Puts(packet: seq<byte>) returns (rc: int)
      requires Valid() && |packet| < 0x8000
      modifies this, rb, rb.data
      ensures Valid()
      ensures segs == AfterPut(old(segs), rb.data.Length, packet)
      ensures Fits(old(segs), rb.data.Length, packet)
          ==> rc == AsI16(|Proto.Frame(packet)|) && Messages(segs) == old(Messages(segs)) + [packet]
      ensures !Fits(old(segs), rb.data.Length, packet)
          ==> rc == -1 && Messages(segs) == old(Messages(segs)) && rb.fill == rb.data.Length
      ensures Fits(old(segs), rb.data.Length, packet) && |Proto.Frame(packet)| < 0x8000
          ==> rc == |Proto.Frame(packet)|
    {
      AfterPutOk(segs, rb.data.Length, packet);
      AfterPutBytes(segs, rb.data.Length, packet);
      CountReadBack(packet);
      rc := Proto.AddRb(rb, packet);
      segs := AfterPut(segs, rb.data.Length, packet);
    }

    /**
     * QUEUE_Gets: the oldest message, cut to `maxLen`, whenever there is one; otherwise -1 and an empty ring.
     * The parser's uninitialised flag has no say in it.
     */
    method Gets(buffer: array<byte>, maxLen: nat) returns (rc: int, len: nat)
      requires Valid() && buffer != rb.data && maxLen <= buffer.Length
      modifies this, rb, buffer
      ensures Valid()
      ensures segs == Rest(old(segs))
      ensures old(Messages(segs)) != [] ==>
        && rc == 0 && len <= maxLen
        && buffer[..len] == Cut(old(Messages(segs))[0], maxLen)
        && Messages(segs) == old(Messages(segs))[1..]
      ensures old(Messages(segs)) == [] ==> rc == -1 && segs == [] && rb.fill == 0
    {
      ghost var isBegin;
      ghost var before := rb.contents;
      rc, len, isBegin := Proto.ParseRb(rb, buffer, maxLen);
      ParsedBytes(segs, isBegin, maxLen);
      segs := Rest(segs);
    }

    method IsEmpty() returns (empty: bool)
      requires Valid()
      ensures empty <==> segs == []
    {
      BytesOfNothing(segs);
      return rb.fill <= 0;
    }
  }

  lemma BytesOfNothing(segs: seq<Segment>)
    requires AllOk(segs)
    ensures RingBytes(segs) == [] <==> segs == []
  {
    if segs != [] {
      assert segs[0].Ok();
    }
  }
}

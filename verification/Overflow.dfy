/**
 * What runs of the queue amount to: puts and gets are those of a message FIFO, and the
 * "put; if full, drop the oldest and retry" loop of mqtt.c has an exact outcome.
 */
module Overflow {
  import opened Bytes
  import opened Queue
  import Proto

  // ---------- Any run of puts and gets refines a FIFO ----------

  datatype Op = Put(packet: seq<byte>) | Get(maxLen: nat)
  datatype Reply = Stored | Refused | Took(bytes: seq<byte>) | Nothing

  /** What QUEUE_Puts and QUEUE_Gets do to the ring, and what the caller sees. */
  function Act(segs: seq<Segment>, size: nat, op: Op): (seq<Segment>, Reply)
    requires Used(segs) <= size
  {
    match op
    case Put(p) => (AfterPut(segs, size, p), if Fits(segs, size, p) then Stored else Refused)
    case Get(max) =>
      (Rest(segs), if Messages(segs) == [] then Nothing else Took(Cut(Messages(segs)[0], max)))
  }

  lemma ActKeeps(segs: seq<Segment>, size: nat, op: Op)
    requires Used(segs) <= size && AllOk(segs)
    ensures AllOk(Act(segs, size, op).0)
    ensures Used(Act(segs, size, op).0) <= size
  {
    if op.Put? {
      AfterPutOk(segs, size, op.packet);
      AfterPutBytes(segs, size, op.packet);
    } else {
      RestOk(segs);
      RestShrinks(segs);
    }
  }

  lemma RestShrinks(segs: seq<Segment>)
    requires AllOk(segs)
    ensures Used(Rest(segs)) == if Messages(segs) == [] then 0 else Used(segs) - Groups(segs)[0]
  {
    RestMessages(segs);
    if Messages(segs) != [] {
      OldestBytes(segs);
    }
  }

  /** The ring after a run from `segs`, and the replies in order. */
  ghost function Run(segs: seq<Segment>, size: nat, ops: seq<Op>): (seq<Segment>, seq<Reply>)
    requires Used(segs) <= size && AllOk(segs)
    decreases |ops|
  {
    if ops == [] then (segs, [])
    else
      ActKeeps(segs, size, ops[0]);
      var (next, reply) := Act(segs, size, ops[0]);
      var (end, replies) := Run(next, size, ops[1..]);
      (end, [reply] + replies)
  }

  /** A FIFO of messages that may refuse a put but is otherwise exact could have given these replies. */
  ghost predicate FifoAllows(q: seq<seq<byte>>, ops: seq<Op>, replies: seq<Reply>, q': seq<seq<byte>>)
    decreases |ops|
  {
    if ops == [] || replies == [] then ops == [] && replies == [] && q' == q
    else
      match (ops[0], replies[0])
      case (Put(p), Stored) => FifoAllows(q + [p], ops[1..], replies[1..], q')
      case (Put(_), Refused) => FifoAllows(q, ops[1..], replies[1..], q')
      case (Get(max), Took(b)) =>
        q != [] && b == Cut(q[0], max) && FifoAllows(q[1..], ops[1..], replies[1..], q')
      case (Get(_), Nothing) => q == [] && FifoAllows(q, ops[1..], replies[1..], q')
      case _ => false
  }

  lemma {:induction false} RingRefinesFifo(segs: seq<Segment>, size: nat, ops: seq<Op>)
    requires Used(segs) <= size && AllOk(segs)
    ensures
      var (end, replies) := Run(segs, size, ops);
      FifoAllows(Messages(segs), ops, replies, Messages(end))
    decreases |ops|
  {
    if ops != [] {
      ActKeeps(segs, size, ops[0]);
      var (next, reply) := Act(segs, size, ops[0]);
      RingRefinesFifo(next, size, ops[1..]);
      var (end, replies) := Run(next, size, ops[1..]);
      assert ([reply] + replies)[1..] == replies;
      match ops[0] {
        case Put(p) => AfterPutBytes(segs, size, p);
        case Get(_) => RestMessages(segs);
      }
    }
  }

  /** A put is refused only for want of room, and then the ring is full; nothing is ever half stored. */
  lemma RefusedMeansFull(segs: seq<Segment>, size: nat, packet: seq<byte>)
    requires Used(segs) <= size && AllOk(segs)
    ensures var (next, reply) := Act(segs, size, Put(packet));
      && reply == (if Used(segs) + |Proto.Frame(packet)| <= size then Stored else Refused)
      && (reply == Refused ==> Used(next) == size && Messages(next) == Messages(segs))
      && (reply == Stored ==> Used(next) == Used(segs) + |Proto.Frame(packet)|)
  {
    AfterPutBytes(segs, size, packet);
  }

  // ---------- The overflow loop ----------

  /** Put; while that fails, drop the oldest message and retry, giving up when there is none. */
  ghost function PutDropping(segs: seq<Segment>, size: nat, packet: seq<byte>): (seq<Segment>, bool)
    requires Used(segs) <= size && AllOk(segs)
    decreases |Messages(segs)|
  {
    var tried := AfterPut(segs, size, packet);
    if Fits(segs, size, packet) then (tried, true)
    else if Messages(tried) == [] then ([], false)
    else
      AfterPutOk(segs, size, packet);
      AfterPutBytes(segs, size, packet);
      RestMessages(tried);
      ActKeeps(tried, size, Get(0));
      PutDropping(Rest(tried), size, packet)
  }

  /** The least position whose group is at least `e`, or the length if there is none. */
  function FirstFit(groups: seq<nat>, e: nat): (i: nat)
    ensures i <= |groups|
    ensures forall j :: 0 <= j < i ==> groups[j] < e
    ensures i < |groups| ==> e <= groups[i]
  {
    if groups == [] || e <= groups[0] then 0 else 1 + FirstFit(groups[1..], e)
  }

  lemma {:induction false} TrailingFragment(segs: seq<Segment>, f: Segment)
    requires f.Fragment? && Messages(segs) != []
    ensures Messages(segs + [f]) == Messages(segs)
    ensures Rest(segs + [f]) == Rest(segs) + [f]
    ensures Lead(segs + [f]) == Lead(segs)
  {
    assert (segs + [f])[1..] == segs[1..] + [f];
    Single(f);
    Append(segs, [f]);
    if segs[0].Fragment? {
      TrailingFragment(segs[1..], f);
    }
  }

  lemma {:induction false} TrailingGroups(segs: seq<Segment>, f: Segment)
    requires f.Fragment?
    ensures Groups(segs + [f]) == Groups(segs)
    decreases |segs|
  {
    if Messages(segs) == [] {
      Single(f);
      Append(segs, [f]);
    } else {
      TrailingFragment(segs, f);
      TrailingGroups(Rest(segs), f);
    }
  }

  /** A failed put changes no group; taking the oldest message then frees exactly its group. */
  lemma FailedPutThenGet(segs: seq<Segment>, size: nat, packet: seq<byte>)
    requires Used(segs) <= size && AllOk(segs) && !Fits(segs, size, packet)
    requires Messages(segs) != []
    ensures
      var next := Rest(AfterPut(segs, size, packet));
      && AllOk(next)
      && Used(next) == size - Groups(segs)[0]
      && Messages(next) == Messages(segs)[1..]
      && Groups(next) == Groups(segs)[1..]
  {
    var tried := AfterPut(segs, size, packet);
    AfterPutOk(segs, size, packet);
    AfterPutBytes(segs, size, packet);
    RestMessages(tried);
    RestShrinks(tried);
    RestOk(tried);
    if Used(segs) < size {
      TrailingGroups(segs, tried[|segs|]);
    }
  }

  /** One turn of the loop. */
  lemma PutDroppingStep(segs: seq<Segment>, size: nat, packet: seq<byte>)
    requires Used(segs) <= size && AllOk(segs)
    ensures Fits(segs, size, packet) ==> PutDropping(segs, size, packet) == (AfterPut(segs, size, packet), true)
    ensures !Fits(segs, size, packet) ==>
      var tried := AfterPut(segs, size, packet);
      && Messages(tried) == Messages(segs)
      && Used(Rest(tried)) <= size && AllOk(Rest(tried))
      && (Messages(segs) == [] ==> PutDropping(segs, size, packet) == ([], false))
      && (Messages(segs) != [] ==>
            && Messages(Rest(tried)) == Messages(segs)[1..]
            && PutDropping(segs, size, packet) == PutDropping(Rest(tried), size, packet))
  {
    var tried := AfterPut(segs, size, packet);
    AfterPutOk(segs, size, packet);
    AfterPutBytes(segs, size, packet);
    RestMessages(tried);
    ActKeeps(tried, size, Get(0));
  }

  /** Does a frame of `e` bytes get in, given the free space and the groups? */
  predicate GetsIn(free: int, groups: seq<nat>, e: nat) {
    e <= free || FirstFit(groups, e) < |groups|
  }

  /**
   * The messages that survive a frame of `e` bytes: all if it fits the free space; otherwise all but the first
   * i + 1, for the least i whose group is at least `e`; otherwise none.
   */
  function Survivors(msgs: seq<seq<byte>>, free: int, groups: seq<nat>, e: nat): seq<seq<byte>>
    requires |groups| == |msgs|
  {
    if e <= free then msgs
    else
      var i := FirstFit(groups, e);
      if i < |groups| then msgs[i + 1..] else []
  }

  lemma DropOne(msgs: seq<seq<byte>>, free: int, groups: seq<nat>, e: nat)
    requires |groups| == |msgs| > 0 && e > free
    ensures GetsIn(free, groups, e) == GetsIn(groups[0], groups[1..], e)
    ensures Survivors(msgs, free, groups, e) == Survivors(msgs[1..], groups[0], groups[1..], e)
  {
  }

  /**
   * The exact outcome of the loop; what is not a survivor has been dropped, and when even that does not make
   * room the ring ends empty and the new message is lost with the rest.
   */
  lemma {:induction false} OverflowOutcome(segs: seq<Segment>, size: nat, packet: seq<byte>)
    requires Used(segs) <= size && AllOk(segs)
    ensures |Groups(segs)| == |Messages(segs)|
    ensures
      var (end, ok) := PutDropping(segs, size, packet);
      var e := |Proto.Frame(packet)|;
      && ok == GetsIn(size - Used(segs), Groups(segs), e)
      && (ok ==> Messages(end) == Survivors(Messages(segs), size - Used(segs), Groups(segs), e) + [packet])
      && (!ok ==> end == [])
    decreases |Messages(segs)|
  {
    GroupPerMessage(segs);
    PutDroppingStep(segs, size, packet);
    if Fits(segs, size, packet) {
      AfterPutBytes(segs, size, packet);
    } else if Messages(segs) != [] {
      FailedPutThenGet(segs, size, packet);
      DropOne(Messages(segs), size - Used(segs), Groups(segs), |Proto.Frame(packet)|);
      OverflowOutcome(Rest(AfterPut(segs, size, packet)), size, packet);
    }
  }

  /** The ring stays well formed and within its size. */
  lemma {:induction false} PutDroppingKeeps(segs: seq<Segment>, size: nat, packet: seq<byte>)
    requires Used(segs) <= size && AllOk(segs)
    ensures AllOk(PutDropping(segs, size, packet).0)
    ensures Used(PutDropping(segs, size, packet).0) <= size
    decreases |Messages(segs)|
  {
    PutDroppingStep(segs, size, packet);
    AfterPutOk(segs, size, packet);
    AfterPutBytes(segs, size, packet);
    if !Fits(segs, size, packet) && Messages(segs) != [] {
      PutDroppingKeeps(Rest(AfterPut(segs, size, packet)), size, packet);
    }
  }

  lemma {:induction false} GroupPerMessage(segs: seq<Segment>)
    ensures |Groups(segs)| == |Messages(segs)|
    decreases |segs|
  {
    RestMessages(segs);
    if Messages(segs) != [] {
      GroupPerMessage(Rest(segs));
    }
  }

  /** The loop's test and, if that failed, its body: `over` says that the loop ends, with `ok`. */
  method PutOrDrop(q: MsgQueue, packet: seq<byte>, dataBuffer: array<byte>) returns (over: bool, ok: bool)
    requires q.Valid() && q.rb.data != dataBuffer && |packet| < 0x7FFF
    modifies q, q.rb, q.rb.data, dataBuffer
    ensures q.Valid()
    ensures ok == Fits(old(q.segs), q.rb.data.Length, packet)
    ensures over == (ok || old(Messages(q.segs)) == [])
    ensures q.segs == if ok then AfterPut(old(q.segs), q.rb.data.Length, packet)
                      else Rest(AfterPut(old(q.segs), q.rb.data.Length, packet))
    ensures over && !ok ==> q.segs == []
  {
    Proto.StuffHasNoMarks(packet);
    var rc := q.Puts(packet);
    if rc != -1 {
      return true, true;
    }
    var len;
    rc, len := q.Gets(dataBuffer, dataBuffer.Length);
    return rc == -1, false;
  }

  /**
   * The loop as mqtt.c runs it. The evident intent, that a message which fits an empty queue is queued, fails
   * exactly when it fits neither the free space nor any one group (OverflowOutcome).
   */
  method PutDroppingOldest(q: MsgQueue, packet: seq<byte>, dataBuffer: array<byte>) returns (ok: bool)
    requires q.Valid() && q.rb.data != dataBuffer && |packet| < 0x7FFF
    modifies q, q.rb, q.rb.data, dataBuffer
    ensures q.Valid()
    ensures (q.segs, ok) == PutDropping(old(q.segs), q.rb.data.Length, packet)
  {
    ghost var size := q.rb.data.Length;
    ghost var outcome := PutDropping(q.segs, size, packet);
    var over := false;
    ok := false;
    while !over
      invariant q.Valid()
      invariant if over then (q.segs, ok) == outcome else PutDropping(q.segs, size, packet) == outcome
      decreases !over, |Messages(q.segs)|
    {
      PutDroppingStep(q.segs, size, packet);
      over, ok := PutOrDrop(q, packet, dataBuffer);
    }
  }

  /** A message of four frame bytes that fits an empty ring of five, lost together with the queued one. */
  lemma LostAlthoughItFitsAnEmptyRing()
    ensures
      var segs := [Message([0x41])];
      var packet := [0x42, 0x43];
      && AllOk(segs) && Used(segs) <= 5
      && Fits([], 5, packet)
      && PutDropping(segs, 5, packet) == ([], false)
  {
    var segs := [Message([0x41])];
    var packet: seq<byte> := [0x42, 0x43];
    Single(segs[0]);
    FrameOfPlain([0x41]);
    FrameOfPlain(packet);
    OverflowOutcome(segs, 5, packet);
    GroupPerMessage(segs);
    assert Groups(segs)[0] == 3;
  }

  lemma {:induction false} FrameOfPlain(packet: seq<byte>)
    requires forall i :: 0 <= i < |packet| ==> packet[i] < Proto.ESC
    ensures Proto.Stuff(packet) == packet
  {
    if packet != [] {
      FrameOfPlain(packet[..|packet| - 1]);
      assert packet[|packet| - 1] < Proto.ESC;
    }
  }
}

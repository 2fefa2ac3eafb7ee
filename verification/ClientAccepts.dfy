/** Which messages the client's queue accepts over a run: packets, but for the calls that build none. */
module ClientAccepts {
  import opened Bytes
  import opened Packets
  import opened Queue
  import opened ClientSpec
  import opened ClientRuns
  import Overflow

  /** A packet of a type the client sends, as long as its remaining length says. */
  predicate Delimited(m: seq<byte>) {
    && m != []
    && TypeOf(m) in {PUBLISH, PUBACK, PUBREC, PUBREL, PUBCOMP, SUBSCRIBE, UNSUBSCRIBE, PINGREQ, PINGRESP}
    && TotalLength(m, |m|) == |m|
  }

  predicate AllDelimited(log: seq<Entry>) {
    forall i :: 0 <= i < |log| && log[i].Accepted? ==> log[i].message == [] || Delimited(log[i].message)
  }

  /** How many empty messages were accepted. */
  function EmptiesOf(log: seq<Entry>): nat {
    if log == [] then 0 else EmptiesOf(log[..|log| - 1]) + if log[|log| - 1] == Accepted([]) then 1 else 0
  }

  /** A subscribe or unsubscribe whose topic is missing or does not fit. */
  predicate FailsToBuild(cfg: Config, e: Event) {
    match e
    case UserSubscribe(topic, _) => !Given(topic) || 8 + |topic.value| > cfg.bufSize
    case UserUnsubscribe(topic) => !Given(topic) || 7 + |topic.value| > cfg.bufSize
    case _ => false
  }

  predicate GoodSizes(cfg: Config) {
    5 <= cfg.bufSize <= 16386
  }

  lemma FinishDelimited(size: nat, counter: nat, typ: int, qos: int, retain: int, body: seq<byte>)
    requires size <= 16386
    requires typ in {PUBLISH, PUBACK, PUBREC, PUBREL, PUBCOMP, SUBSCRIBE, UNSUBSCRIBE}
    ensures var p := Finish(size, counter, typ, qos, retain, body).packet;
            if 3 + |body| <= size then Delimited(p) else p == []
  {
    if 3 + |body| <= size {
      var p := Packet(typ, 0, qos, retain, body);
      assert p + [] == p;
      FixedHeader(p, typ, 0, qos, retain, body, [], |p|);
    }
  }

  lemma EmptyDelimited(counter: nat, typ: int)
    requires typ in {PINGREQ, PINGRESP}
    ensures Delimited(BuildEmpty(counter, typ).packet)
  {
    var p := Packet(typ, 0, 0, 0, []);
    assert p + [] == p;
    FixedHeader(p, typ, 0, 0, 0, [], [], |p|);
  }

  lemma OneAccepted(log: seq<Entry>, e: Entry)
    requires AllDelimited(log) && (e.Accepted? ==> e.message == [] || Delimited(e.message))
    ensures AllDelimited(log + [e])
    ensures EmptiesOf(log + [e]) == EmptiesOf(log) + if e == Accepted([]) then 1 else 0
  {
    assert (log + [e])[..|log|] == log;
  }

  lemma {:induction false} DropsAcceptNothing(log: seq<Entry>, ms: seq<seq<byte>>)
    requires AllDelimited(log)
    ensures AllDelimited(log + DroppedAll(ms))
    ensures EmptiesOf(log + DroppedAll(ms)) == EmptiesOf(log)
    decreases ms
  {
    if ms == [] {
      assert log + DroppedAll(ms) == log;
    } else {
      OneAccepted(log, Dropped(ms[0]));
      DropsAcceptNothing(log + [Dropped(ms[0])], ms[1..]);
      Assoc(log, [Dropped(ms[0])], DroppedAll(ms[1..]));
    }
  }

  lemma EnqueueAccepts(cfg: Config, s: State, packet: seq<byte>)
    requires Sound(cfg, s) && AllDelimited(s.log) && (packet == [] || Delimited(packet))
    ensures AllDelimited(Enqueue(cfg, s, packet).log)
    ensures EmptiesOf(Enqueue(cfg, s, packet).log)
         == EmptiesOf(s.log) + if packet == [] && Overflow.PutDropping(s.segs, cfg.queueSize, packet).1 then 1 else 0
  {
    var drops := DroppedAll(Messages(s.segs)[..DropCount(s.segs, cfg.queueSize, packet)]);
    DropsAcceptNothing(s.log, Messages(s.segs)[..DropCount(s.segs, cfg.queueSize, packet)]);
    if Overflow.PutDropping(s.segs, cfg.queueSize, packet).1 {
      OneAccepted(s.log + drops, Accepted(packet));
    } else {
      assert s.log + drops + [] == s.log + drops;
    }
  }

  /** What a step adds to the record: well-formed packets, and `empties` empty messages. */
  ghost predicate Adds(s: State, t: State, empties: nat) {
    AllDelimited(t.log) && EmptiesOf(t.log) == EmptiesOf(s.log) + empties
  }

  /** The step queues nothing and yet reports success. */
  ghost predicate QueuesNothing(cfg: Config, s: State, e: Event)
    requires Sound(cfg, s)
  {
    Queues(e) && FailsToBuild(cfg, e) && Succeeds(cfg, s, e)
  }

  lemma PublishAdds(cfg: Config, s: State, topic: Option<seq<byte>>, data: seq<byte>, qos: int, retain: int)
    requires Sound(cfg, s) && AllDelimited(s.log) && GoodSizes(cfg)
    ensures Adds(s, OnPublish(cfg, s, topic, data, qos, retain), 0)
  {
    var built := BuildPublish(cfg.bufSize, s.counter, topic, data, qos, retain);
    if built.packet != [] {
      FinishDelimited(cfg.bufSize, built.counter, PUBLISH, qos, retain,
                      PublishBody(topic.value, qos, built.counter, data));
      EnqueueAccepts(cfg, s.(counter := built.counter), built.packet);
    }
  }

  lemma SubscribeBuilds(cfg: Config, counter: nat, topic: Option<seq<byte>>, qos: int)
    requires GoodSizes(cfg)
    ensures var p := BuildSubscribe(cfg.bufSize, counter, topic, qos).packet;
            if FailsToBuild(cfg, UserSubscribe(topic, qos)) then p == [] else Delimited(p)
  {
    if Given(topic) {
      var c := NextId(counter);
      FinishDelimited(cfg.bufSize, c, SUBSCRIBE, 1, 0, Be16(c) + Str(topic.value) + [qos % 256]);
    }
  }

  lemma UnsubscribeBuilds(cfg: Config, counter: nat, topic: Option<seq<byte>>)
    requires GoodSizes(cfg)
    ensures var p := BuildUnsubscribe(cfg.bufSize, counter, topic).packet;
            if FailsToBuild(cfg, UserUnsubscribe(topic)) then p == [] else Delimited(p)
  {
    if Given(topic) {
      var c := NextId(counter);
      FinishDelimited(cfg.bufSize, c, UNSUBSCRIBE, 1, 0, Be16(c) + Str(topic.value));
    }
  }

  lemma SubscribeAdds(cfg: Config, s: State, topic: Option<seq<byte>>, qos: int)
    requires Sound(cfg, s) && AllDelimited(s.log) && GoodSizes(cfg)
    ensures var e := UserSubscribe(topic, qos);
            Adds(s, OnSubscribe(cfg, s, topic, qos), if QueuesNothing(cfg, s, e) then 1 else 0)
  {
    var built := BuildSubscribe(cfg.bufSize, s.counter, topic, qos);
    SubscribeBuilds(cfg, s.counter, topic, qos);
    EnqueueAccepts(cfg, s.(counter := built.counter), built.packet);
  }

  lemma UnsubscribeAdds(cfg: Config, s: State, topic: Option<seq<byte>>)
    requires Sound(cfg, s) && AllDelimited(s.log) && GoodSizes(cfg)
    ensures var e := UserUnsubscribe(topic);
            Adds(s, OnUnsubscribe(cfg, s, topic), if QueuesNothing(cfg, s, e) then 1 else 0)
  {
    var built := BuildUnsubscribe(cfg.bufSize, s.counter, topic);
    UnsubscribeBuilds(cfg, s.counter, topic);
    EnqueueAccepts(cfg, s.(counter := built.counter), built.packet);
  }

  lemma PingAdds(cfg: Config, s: State)
    requires Sound(cfg, s) && AllDelimited(s.log)
    ensures Adds(s, OnPing(cfg, s), 0)
  {
    EmptyDelimited(s.counter, PINGREQ);
    EnqueueAccepts(cfg, s, BuildEmpty(s.counter, PINGREQ).packet);
  }

  lemma OfferAdds(cfg: Config, s: State, packet: seq<byte>)
    requires Sound(cfg, s) && AllDelimited(s.log) && Delimited(packet)
    ensures Adds(s, Offer(cfg, s, packet), 0)
  {
    OneAccepted(s.log, if Fits(s.segs, cfg.queueSize, packet) then Accepted(packet) else Refused(packet));
  }

  lemma AnswerAdds(cfg: Config, s: State, typ: int, qos: int, id: nat)
    requires Sound(cfg, s) && AllDelimited(s.log) && GoodSizes(cfg)
    requires typ in {PUBACK, PUBREC, PUBREL, PUBCOMP}
    ensures Adds(s, Answer(cfg, s, typ, qos, id), 0)
  {
    var built := BuildAck(cfg.bufSize, s.counter, typ, qos, id);
    FinishDelimited(cfg.bufSize, built.counter, typ, qos, 0, Be16(if id == 0 then built.counter else id));
    OfferAdds(cfg, s.(counter := built.counter), built.packet);
  }

  lemma OnPacketAdds(cfg: Config, s: State, p: Inbound)
    requires Sound(cfg, s) && AllDelimited(s.log) && GoodSizes(cfg) && p.WellFormed()
    ensures Adds(s, OnPacket(cfg, s, p), 0)
  {
    match p
    case InPublish(_, qos, _, topic, id, data) =>
      if qos == 1 {
        AnswerAdds(cfg, s, PUBACK, 0, id);
        OneAccepted(Answer(cfg, s, PUBACK, 0, id).log, Delivered(topic, data));
      } else if qos == 2 {
        AnswerAdds(cfg, s, PUBREC, 0, id);
        OneAccepted(Answer(cfg, s, PUBREC, 0, id).log, Delivered(topic, data));
      } else {
        OneAccepted(s.log, Delivered(topic, data));
      }
    case InOther(typ, _, _) =>
      if typ == PUBREC {
        AnswerAdds(cfg, s, PUBREL, 1, p.AckId());
      } else if typ == PUBREL {
        AnswerAdds(cfg, s, PUBCOMP, 0, p.AckId());
      } else if typ == PINGREQ {
        EmptyDelimited(s.counter, PINGRESP);
        OfferAdds(cfg, s, BuildEmpty(s.counter, PINGRESP).packet);
      }
  }

  lemma {:induction false} EachPacketAdds(cfg: Config, s: State, ps: seq<Inbound>)
    requires Sound(cfg, s) && AllDelimited(s.log) && GoodSizes(cfg) && AllWellFormed(ps)
    ensures Adds(s, EachPacket(cfg, s, ps), 0)
    decreases |ps|
  {
    if ps != [] {
      OnPacketSound(cfg, s, ps[0]);
      OnPacketAdds(cfg, s, ps[0]);
      EachPacketAdds(cfg, OnPacket(cfg, s, ps[0]), ps[1..]);
    }
  }

  lemma OnReceiveAdds(cfg: Config, s: State, ps: seq<Inbound>)
    requires Sound(cfg, s) && AllDelimited(s.log) && GoodSizes(cfg) && AllWellFormed(ps)
    ensures Adds(s, OnReceive(cfg, s, ps), 0)
  {
    HandledWellFormed(ps);
    EachPacketAdds(cfg, s.(keepAliveTick := 0), Handled(ps));
  }

  lemma OnTaskAdds(cfg: Config, s: State, sendOk: bool, stale: nat)
    requires AllDelimited(s.log)
    ensures Adds(s, OnTask(cfg, s, sendOk, stale), 0)
  {
    if Sending(s) {
      OneAccepted(s.log, Handed(Cut(Messages(s.segs)[0], cfg.bufSize)));
    }
  }

  lemma CallAdds(cfg: Config, s: State, e: Event)
    requires Sound(cfg, s) && AllDelimited(s.log) && GoodSizes(cfg) && Queues(e)
    ensures Adds(s, OnCall(cfg, s, e), if QueuesNothing(cfg, s, e) then 1 else 0)
  {
    match e
    case UserPublish(topic, data, qos, retain) => PublishAdds(cfg, s, topic, data, qos, retain);
    case UserSubscribe(topic, qos) => SubscribeAdds(cfg, s, topic, qos);
    case UserUnsubscribe(topic) => UnsubscribeAdds(cfg, s, topic);
    case UserPing => PingAdds(cfg, s);
  }

  lemma ControlAdds(cfg: Config, s: State, e: Event)
    requires AllDelimited(s.log) && Controls(e)
    ensures Adds(s, OnControl(cfg, s, e), 0)
  {
    assert OnControl(cfg, s, e).log == s.log;
  }

  lemma HandleAdds(cfg: Config, s: State, e: Event)
    requires Sound(cfg, s) && AllDelimited(s.log) && GoodSizes(cfg) && Possible(e)
    ensures Adds(s, Handle(cfg, s, e), if QueuesNothing(cfg, s, e) then 1 else 0)
  {
    if Queues(e) {
      CallAdds(cfg, s, e);
    } else if e.Receive? {
      OnReceiveAdds(cfg, s, e.packets);
    } else if e.Task? {
      OnTaskAdds(cfg, s, e.sendOk, e.stale);
    } else {
      ControlAdds(cfg, s, e);
    }
  }

  /** How many calls of a run report success having built nothing. */
  ghost function Hollow(cfg: Config, evs: seq<Event>): nat
    requires AllPossible(evs) && cfg.bufSize >= 3
  {
    if evs == [] then 0
    else
      var n := |evs| - 1;
      Hollow(cfg, evs[..n]) + if QueuesNothing(cfg, Run(cfg, evs[..n]), evs[n]) then 1 else 0
  }

  lemma LastAdds(cfg: Config, evs: seq<Event>, s: State, t: State)
    requires AllPossible(evs) && GoodSizes(cfg) && evs != []
    requires s == Run(cfg, evs[..|evs| - 1]) && t == Run(cfg, evs) && AllDelimited(s.log)
    ensures Adds(s, t, if QueuesNothing(cfg, s, evs[|evs| - 1]) then 1 else 0)
  {
    HandleAdds(cfg, s, evs[|evs| - 1]);
  }

  /**
   * Every message accepted in a run is a packet as long as it says, except that each subscribe or unsubscribe whose
   * packet could not be built, and that reports success all the same, leaves an empty message.
   */
  lemma {:induction false} AcceptedIsWellFormed(cfg: Config, evs: seq<Event>)
    requires AllPossible(evs) && GoodSizes(cfg)
    ensures AllDelimited(Run(cfg, evs).log)
    ensures EmptiesOf(Run(cfg, evs).log) == Hollow(cfg, evs)
    decreases |evs|
  {
    if evs != [] {
      AcceptedIsWellFormed(cfg, evs[..|evs| - 1]);
      LastAdds(cfg, evs, Run(cfg, evs[..|evs| - 1]), Run(cfg, evs));
    }
  }
}

/** What the four user calls ask of the queue, and the answers to the server, as a strict reader takes them. */
module ClientCalls {
  import opened Bytes
  import opened Packets
  import opened Queue
  import opened ClientSpec
  import opened ClientRuns
  import Mqtt311
  import Wire

  // ---------- The id counter ----------

  /** The counter is a 16-bit value in every run. */
  lemma CounterStays(cfg: Config, s: State, e: Event)
    requires QueueInv(cfg, s) && Possible(e) && cfg.bufSize >= 3 && s.counter < 0x1_0000
    ensures Handle(cfg, s, e).counter < 0x1_0000
  {
    if Queues(e) {
      CallCounter(cfg, s, e);
    } else if e.Receive? {
      ChunkCounter(cfg, s, e.packets);
    }
  }

  lemma BuiltCounter(
    size: nat, counter: nat, topic: Option<seq<byte>>, data: seq<byte>, typ: int, qos: int, retain: int, id: nat)
    requires counter < 0x1_0000
    ensures BuildPublish(size, counter, topic, data, qos, retain).counter < 0x1_0000
    ensures BuildSubscribe(size, counter, topic, qos).counter < 0x1_0000
    ensures BuildUnsubscribe(size, counter, topic).counter < 0x1_0000
    ensures BuildAck(size, counter, typ, qos, id).counter < 0x1_0000
  {
    Wire.NextIsFresh(counter);
  }

  lemma CallCounter(cfg: Config, s: State, e: Event)
    requires Sound(cfg, s) && Queues(e) && s.counter < 0x1_0000
    ensures OnCall(cfg, s, e).counter < 0x1_0000
  {
    match e
    case UserPublish(topic, data, qos, retain) =>
      BuiltCounter(cfg.bufSize, s.counter, topic, data, PUBLISH, qos, retain, 0);
    case UserSubscribe(topic, qos) => BuiltCounter(cfg.bufSize, s.counter, topic, [], SUBSCRIBE, qos, 0, 0);
    case UserUnsubscribe(topic) => BuiltCounter(cfg.bufSize, s.counter, topic, [], UNSUBSCRIBE, 0, 0, 0);
    case UserPing =>
  }

  lemma PacketCounter(cfg: Config, s: State, p: Inbound)
    requires Sound(cfg, s) && p.WellFormed() && s.counter < 0x1_0000
    ensures OnPacket(cfg, s, p).counter < 0x1_0000
  {
    match p
    case InPublish(_, _, _, _, id, _) =>
      BuiltCounter(cfg.bufSize, s.counter, None, [], PUBACK, 0, 0, id);
      BuiltCounter(cfg.bufSize, s.counter, None, [], PUBREC, 0, 0, id);
    case InOther(typ, _, _) =>
      if typ in {PUBREC, PUBREL} {
        BuiltCounter(cfg.bufSize, s.counter, None, [], PUBREL, 1, 0, p.AckId());
        BuiltCounter(cfg.bufSize, s.counter, None, [], PUBCOMP, 0, 0, p.AckId());
      }
  }

  lemma ChunkCounter(cfg: Config, s: State, ps: seq<Inbound>)
    requires Sound(cfg, s) && AllWellFormed(ps) && s.counter < 0x1_0000
    ensures OnReceive(cfg, s, ps).counter < 0x1_0000
  {
    HandledWellFormed(ps);
    PacketsCounter(cfg, s.(keepAliveTick := 0), Handled(ps));
  }

  lemma {:induction false} PacketsCounter(cfg: Config, s: State, ps: seq<Inbound>)
    requires Sound(cfg, s) && AllWellFormed(ps) && s.counter < 0x1_0000
    ensures EachPacket(cfg, s, ps).counter < 0x1_0000
    decreases |ps|
  {
    if ps != [] {
      OnPacketSound(cfg, s, ps[0]);
      PacketCounter(cfg, s, ps[0]);
      PacketsCounter(cfg, OnPacket(cfg, s, ps[0]), ps[1..]);
    }
  }

  lemma {:induction false} RunCounter(cfg: Config, evs: seq<Event>)
    requires AllPossible(evs) && cfg.bufSize >= 3
    ensures Run(cfg, evs).counter < 0x1_0000
    decreases |evs|
  {
    if evs != [] {
      var n := |evs| - 1;
      RunCounter(cfg, evs[..n]);
      CounterStays(cfg, Run(cfg, evs[..n]), evs[n]);
    }
  }

  // ---------- The calls ----------

  /** Just this one more accepted, and it is the last in the queue; or nothing at all. */
  ghost predicate Adds(s: State, t: State, ok: bool, m: seq<byte>) {
    if ok then AcceptedOf(t.log) == AcceptedOf(s.log) + [m] && Messages(t.segs) != [] && LastOf(t) == m
    else AcceptedOf(t.log) == AcceptedOf(s.log)
  }

  function LastOf(t: State): seq<byte>
    requires Messages(t.segs) != []
  {
    Messages(t.segs)[|Messages(t.segs)| - 1]
  }

  lemma EnqueueAdds(cfg: Config, s: State, packet: seq<byte>)
    requires Sound(cfg, s)
    ensures Adds(s, Enqueue(cfg, s, packet), Queued(cfg, s, packet), packet)
  {
    var dropped := Messages(s.segs)[..DropCount(s.segs, cfg.queueSize, packet)];
    LoggedDrops(s.log, dropped);
    LoopOutcome(s.segs, cfg.queueSize, packet);
    if Queued(cfg, s, packet) {
      Logged(s.log + DroppedAll(dropped), Accepted(packet));
    } else {
      assert s.log + DroppedAll(dropped) + [] == s.log + DroppedAll(dropped);
    }
  }

  /** The same for a packet that reads as `c`, with the counter its builder leaves. */
  lemma EnqueueReads(cfg: Config, s: State, counter: nat, packet: seq<byte>, c: Option<Mqtt311.Control>)
    requires Sound(cfg, s) && Mqtt311.Read(packet) == c
    ensures
      var t := Enqueue(cfg, s.(counter := counter), packet);
      && t.counter == counter
      && if Queued(cfg, s, packet) then
           Messages(t.segs) != [] && Adds(s, t, true, LastOf(t)) && Mqtt311.Read(LastOf(t)) == c
         else AcceptedOf(t.log) == AcceptedOf(s.log)
  {
    EnqueueAdds(cfg, s.(counter := counter), packet);
  }

  ghost predicate Good(cfg: Config, evs: seq<Event>) {
    AllPossible(evs) && 16 <= cfg.bufSize <= 16386
  }

  /**
   * MQTT_Publish, at any point of any run: if and only if it returns TRUE one message is accepted, and that is a
   * first attempt at publishing just this, for every QoS there is.
   */
  lemma PublishAsked(cfg: Config, evs: seq<Event>, topic: Option<seq<byte>>, data: seq<byte>, qos: int, retain: int)
    requires Good(cfg, evs) && 0 <= qos <= 2
    ensures
      var s := Run(cfg, evs);
      var t := Handle(cfg, s, UserPublish(topic, data, qos, retain));
      if Succeeds(cfg, s, UserPublish(topic, data, qos, retain)) then
        && Given(topic) && Messages(t.segs) != [] && Adds(s, t, true, LastOf(t))
        && Wire.Says(Mqtt311.Read(LastOf(t)), topic.value, data, qos, retain, if qos > 0 then t.counter else 0)
        && t.counter == if qos > 0 then Wire.FreshId(s.counter) else s.counter
      else AcceptedOf(t.log) == AcceptedOf(s.log)
  {
    var s := Run(cfg, evs);
    RunCounter(cfg, evs);
    PublishAdds(cfg, s, topic, data, qos, retain);
  }

  lemma PublishAdds(cfg: Config, s: State, topic: Option<seq<byte>>, data: seq<byte>, qos: int, retain: int)
    requires Sound(cfg, s) && 0 <= qos <= 2 && s.counter < 0x1_0000 && cfg.bufSize <= 16386
    ensures
      var t := OnPublish(cfg, s, topic, data, qos, retain);
      if PublishSucceeds(cfg, s, topic, data, qos, retain) then
        && Given(topic) && Messages(t.segs) != [] && Adds(s, t, true, LastOf(t))
        && Wire.Says(Mqtt311.Read(LastOf(t)), topic.value, data, qos, retain, if qos > 0 then t.counter else 0)
        && t.counter == if qos > 0 then Wire.FreshId(s.counter) else s.counter
      else AcceptedOf(t.log) == AcceptedOf(s.log)
  {
    var built := BuildPublish(cfg.bufSize, s.counter, topic, data, qos, retain);
    Wire.PublishOnTheWire(cfg.bufSize, s.counter, topic, data, qos, retain);
    EnqueueReads(cfg, s, built.counter, built.packet, Mqtt311.Read(built.packet));
  }

  lemma OneByte(n: byte)
    ensures n % 256 == n
  {
  }

  lemma SubscribePacket(size: nat, counter: nat, topic: seq<byte>, qos: byte) returns (p: seq<byte>)
    requires qos <= 2 && counter < 0x1_0000 && topic != [] && 8 + |topic| <= size <= 16386
    ensures BuildSubscribe(size, counter, Some(topic), qos) == Built(p, Wire.FreshId(counter))
    ensures Mqtt311.Read(p) == Some(Mqtt311.Subscribe(Wire.FreshId(counter), topic, qos))
  {
    var id := Wire.FreshId(counter);
    OneByte(qos);
    p := Packet(SUBSCRIBE, 0, 1, 0, Be16(id) + Str(topic) + [qos]);
    Wire.SubscribeBuilt(size, counter, topic, qos, qos);
    Wire.SubscribeRead(id, topic, qos);
  }

  lemma UnsubscribePacket(size: nat, counter: nat, topic: seq<byte>) returns (p: seq<byte>)
    requires counter < 0x1_0000 && topic != [] && 7 + |topic| <= size <= 16386
    ensures BuildUnsubscribe(size, counter, Some(topic)) == Built(p, Wire.FreshId(counter))
    ensures Mqtt311.Read(p) == Some(Mqtt311.Unsubscribe(Wire.FreshId(counter), topic))
  {
    var id := Wire.FreshId(counter);
    p := Packet(UNSUBSCRIBE, 0, 1, 0, Be16(id) + Str(topic));
    Wire.UnsubscribeBuilt(size, counter, topic);
    Wire.UnsubscribeRead(id, topic);
  }

  /** MQTT_Subscribe, if there is a topic and it fits. */
  lemma SubscribeAsked(cfg: Config, evs: seq<Event>, topic: seq<byte>, qos: int)
    requires Good(cfg, evs) && 0 <= qos <= 2 && topic != [] && 8 + |topic| <= cfg.bufSize
    ensures
      var s := Run(cfg, evs);
      var t := Handle(cfg, s, UserSubscribe(Some(topic), qos));
      && t.counter == Wire.FreshId(s.counter)
      && if Succeeds(cfg, s, UserSubscribe(Some(topic), qos)) then
           && Messages(t.segs) != [] && Adds(s, t, true, LastOf(t))
           && Mqtt311.Read(LastOf(t)) == Some(Mqtt311.Subscribe(t.counter, topic, qos))
         else AcceptedOf(t.log) == AcceptedOf(s.log)
  {
    RunCounter(cfg, evs);
    SubscribeAdds(cfg, Run(cfg, evs), topic, qos);
  }

  lemma SubscribeAdds(cfg: Config, s: State, topic: seq<byte>, qos: int)
    requires Sound(cfg, s) && 0 <= qos <= 2 && s.counter < 0x1_0000
    requires topic != [] && 8 + |topic| <= cfg.bufSize <= 16386
    ensures
      var t := OnSubscribe(cfg, s, Some(topic), qos);
      && t.counter == Wire.FreshId(s.counter)
      && if SubscribeSucceeds(cfg, s, Some(topic), qos) then
           && Messages(t.segs) != [] && Adds(s, t, true, LastOf(t))
           && Mqtt311.Read(LastOf(t)) == Some(Mqtt311.Subscribe(t.counter, topic, qos))
         else AcceptedOf(t.log) == AcceptedOf(s.log)
  {
    var id := Wire.FreshId(s.counter);
    var p := SubscribePacket(cfg.bufSize, s.counter, topic, qos);
    EnqueueReads(cfg, s, id, p, Some(Mqtt311.Subscribe(id, topic, qos)));
  }

  /** MQTT_UnSubscribe, likewise. */
  lemma UnsubscribeAsked(cfg: Config, evs: seq<Event>, topic: seq<byte>)
    requires Good(cfg, evs) && topic != [] && 7 + |topic| <= cfg.bufSize
    ensures
      var s := Run(cfg, evs);
      var t := Handle(cfg, s, UserUnsubscribe(Some(topic)));
      && t.counter == Wire.FreshId(s.counter)
      && if Succeeds(cfg, s, UserUnsubscribe(Some(topic))) then
           && Messages(t.segs) != [] && Adds(s, t, true, LastOf(t))
           && Mqtt311.Read(LastOf(t)) == Some(Mqtt311.Unsubscribe(t.counter, topic))
         else AcceptedOf(t.log) == AcceptedOf(s.log)
  {
    RunCounter(cfg, evs);
    UnsubscribeAdds(cfg, Run(cfg, evs), topic);
  }

  lemma UnsubscribeAdds(cfg: Config, s: State, topic: seq<byte>)
    requires Sound(cfg, s) && s.counter < 0x1_0000 && topic != [] && 7 + |topic| <= cfg.bufSize <= 16386
    ensures
      var t := OnUnsubscribe(cfg, s, Some(topic));
      && t.counter == Wire.FreshId(s.counter)
      && if UnsubscribeSucceeds(cfg, s, Some(topic)) then
           && Messages(t.segs) != [] && Adds(s, t, true, LastOf(t))
           && Mqtt311.Read(LastOf(t)) == Some(Mqtt311.Unsubscribe(t.counter, topic))
         else AcceptedOf(t.log) == AcceptedOf(s.log)
  {
    var id := Wire.FreshId(s.counter);
    var p := UnsubscribePacket(cfg.bufSize, s.counter, topic);
    EnqueueReads(cfg, s, id, p, Some(Mqtt311.Unsubscribe(id, topic)));
  }

  /** MQTT_Ping. */
  lemma PingAsked(cfg: Config, evs: seq<Event>)
    requires Good(cfg, evs)
    ensures
      var s := Run(cfg, evs);
      var t := Handle(cfg, s, UserPing);
      if Succeeds(cfg, s, UserPing) then
        Messages(t.segs) != [] && Adds(s, t, true, LastOf(t)) && Mqtt311.Read(LastOf(t)) == Some(Mqtt311.Pingreq)
      else AcceptedOf(t.log) == AcceptedOf(s.log)
  {
    PingAdds(cfg, Run(cfg, evs));
  }

  lemma PingAdds(cfg: Config, s: State)
    requires Sound(cfg, s)
    ensures
      var t := OnPing(cfg, s);
      if PingSucceeds(cfg, s) then
        Messages(t.segs) != [] && Adds(s, t, true, LastOf(t)) && Mqtt311.Read(LastOf(t)) == Some(Mqtt311.Pingreq)
      else AcceptedOf(t.log) == AcceptedOf(s.log)
  {
    Wire.EmptyOnTheWire(s.counter);
    EnqueueReads(cfg, s, s.counter, BuildEmpty(s.counter, PINGREQ).packet, Some(Mqtt311.Pingreq));
  }

  // ---------- The answers ----------

  /** Each answer to the server is read as the acknowledgement of section 4.3, with the id to acknowledge. */
  lemma AnswersRead(p: Inbound)
    requires p.WellFormed()
    ensures p.InPublish? && p.qos == 0 ==> AnswerTo(p) == []
    ensures p.InPublish? && p.qos == 1
        ==> |AnswerTo(p)| == 1 && Mqtt311.Read(AnswerTo(p)[0]) == Some(Mqtt311.Puback(p.id))
    ensures p.InPublish? && p.qos == 2
        ==> |AnswerTo(p)| == 1 && Mqtt311.Read(AnswerTo(p)[0]) == Some(Mqtt311.Pubrec(p.id))
    ensures p.InOther? && p.typ == 5
        ==> |AnswerTo(p)| == 1 && Mqtt311.Read(AnswerTo(p)[0]) == Some(Mqtt311.Pubrel(Mqtt311.U16(p.body, 0)))
    ensures p.InOther? && p.typ == 6
        ==> |AnswerTo(p)| == 1 && Mqtt311.Read(AnswerTo(p)[0]) == Some(Mqtt311.Pubcomp(Mqtt311.U16(p.body, 0)))
    ensures p.InOther? && p.typ == 12
        ==> |AnswerTo(p)| == 1 && Mqtt311.Read(AnswerTo(p)[0]) == Some(Mqtt311.Pingresp)
    ensures p.InOther? && p.typ !in {5, 6, 12} ==> AnswerTo(p) == []
  {
    match p
    case InPublish(_, qos, _, _, id, _) =>
      if qos == 1 {
        Wire.AckRead(PUBACK, 0, id);
      } else if qos == 2 {
        Wire.AckRead(PUBREC, 0, id);
      }
    case InOther(typ, _, _) =>
      Wire.EmptyOnTheWire(0);
      if typ == PUBREC {
        Wire.AckRead(PUBREL, 1, p.AckId());
      } else if typ == PUBREL {
        Wire.AckRead(PUBCOMP, 0, p.AckId());
      }
  }
}

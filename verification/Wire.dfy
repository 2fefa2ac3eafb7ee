/** What the builders of mqtt_msg.c put on the wire, as a strict reader of MQTT 3.1.1 takes it. */
module Wire {
  import opened Bytes
  import opened Packets
  import opened Mqtt311

  // ---------- The pieces ----------

  lemma U16Back(n: nat, rest: seq<byte>)
    requires n < 0x1_0000
    ensures U16(Be16(n) + rest, 0) == n && (Be16(n) + rest)[2..] == rest
  {
  }

  lemma StrBack(s: seq<byte>, rest: seq<byte>)
    requires |s| < 0x1_0000
    ensures TakeStr(Str(s) + rest) == Some((s, rest))
  {
    var b := Str(s) + rest;
    Assoc(Be16(|s|), s, rest);
    U16Back(|s|, s + rest);
    assert b[2..2 + |s|] == s;
    assert b[2 + |s|..] == rest;
  }

  lemma IdBack(id: nat, rest: seq<byte>)
    requires 0 < id < 0x1_0000
    ensures TakeId(Be16(id) + rest) == Some((id, rest))
  {
    U16Back(id, rest);
  }

  /** The length field is read back, and exactly the body follows. */
  lemma LengthRead(typ: int, dup: int, qos: int, retain: int, body: seq<byte>)
    requires |body| <= 16383
    ensures
      var p := Packet(typ, dup, qos, retain, body);
      && |body| < |p| && p[0] == FirstByte(typ, dup, qos, retain)
      && Remaining(p, 1) == Some((|body|, |p| - |body|)) && p[|p| - |body|..] == body
  {
    var p, r := Packet(typ, dup, qos, retain, body), RemLen(|body|);
    assert p[1] == r[0];
    if |body| > 127 {
      assert p[2] == r[1];
      assert Remaining(p, 2) == Some((|body| / 128, 3));
    }
    assert p[1 + |r|..] == body;
  }

  lemma PacketRead(typ: int, dup: int, qos: int, retain: int, body: seq<byte>)
    requires |body| <= 16383
    ensures Read(Packet(typ, dup, qos, retain, body)) == ReadBody(FirstByte(typ, dup, qos, retain), body)
  {
    LengthRead(typ, dup, qos, retain, body);
  }

  /** The first bytes of the packets whose flags are fixed. */
  lemma FirstBytes()
    ensures FirstByte(PUBACK, 0, 0, 0) == 0x40 && FirstByte(PUBREC, 0, 0, 0) == 0x50
    ensures FirstByte(PUBREL, 0, 1, 0) == 0x62 && FirstByte(PUBCOMP, 0, 0, 0) == 0x70
    ensures FirstByte(SUBSCRIBE, 0, 1, 0) == 0x82 && FirstByte(UNSUBSCRIBE, 0, 1, 0) == 0xA2
    ensures FirstByte(PINGREQ, 0, 0, 0) == 0xC0 && FirstByte(PINGRESP, 0, 0, 0) == 0xD0
    ensures FirstByte(DISCONNECT, 0, 0, 0) == 0xE0
  {
  }

  // ---------- Each builder ----------

  /** A first attempt at publishing this, no bit of it different. */
  predicate Says(c: Option<Control>, topic: seq<byte>, data: seq<byte>, qos: int, retain: int, id: nat) {
    match c
    case Some(Publish(dup, q, r, t, i, payload)) =>
      !dup && q == qos && r == (retain % 2 == 1) && t == topic && i == id && payload == data
    case _ => false
  }

  lemma PublishBodyRead(retain: bool, topic: seq<byte>, qos: nat, id: nat, data: seq<byte>)
    requires topic != [] && |topic| < 0x1_0000 && qos <= 2 && (qos > 0 ==> 0 < id < 0x1_0000)
    ensures ReadPublish(false, qos, retain, PublishBody(topic, qos, id, data))
         == Some(Publish(false, qos, retain, topic, if qos > 0 then id else 0, data))
  {
    var rest := (if qos > 0 then Be16(id) else []) + data;
    Assoc(Str(topic), if qos > 0 then Be16(id) else [], data);
    StrBack(topic, rest);
    if qos > 0 {
      IdBack(id, data);
    } else {
      assert rest == data;
    }
  }

  lemma PublishFirst(first: byte, qos: int, retain: int, b: seq<byte>)
    requires first / 16 == 3 && first / 8 % 2 == 0 && first / 2 % 4 == qos % 4 && first % 2 == retain % 2
    ensures ReadBody(first, b) == ReadPublish(false, qos % 4, retain % 2 == 1, b)
  {
  }

  lemma PublishByte(qos: int, retain: int) returns (first: byte)
    ensures first == FirstByte(PUBLISH, 0, qos, retain)
    ensures first / 16 == 3 && first / 8 % 2 == 0 && first / 2 % 4 == qos % 4 && first % 2 == retain % 2
  {
    first := FirstByte(PUBLISH, 0, qos, retain);
    FirstByteBits(PUBLISH, 0, qos, retain);
  }

  lemma PublishPacketRead(qos: int, retain: int, body: seq<byte>)
    requires |body| <= 16383
    ensures Read(Packet(PUBLISH, 0, qos, retain, body)) == ReadPublish(false, qos % 4, retain % 2 == 1, body)
  {
    var first := PublishByte(qos, retain);
    PublishFirst(first, qos, retain, body);
    PacketRead(PUBLISH, 0, qos, retain, body);
  }

  lemma PublishRead(topic: seq<byte>, data: seq<byte>, qos: int, retain: int, id: nat)
    requires topic != [] && |topic| < 0x1_0000 && (qos > 0 ==> 0 < id < 0x1_0000)
    ensures Says(ReadPublish(false, qos % 4, retain % 2 == 1, PublishBody(topic, qos, id, data)),
                 topic, data, qos, retain, if qos > 0 then id else 0)
       <==> 0 <= qos <= 2
  {
    if 0 <= qos <= 2 {
      PublishBodyRead(retain % 2 == 1, topic, qos, id, data);
    } else {
      OnlyQos(retain % 2 == 1, qos % 4, PublishBody(topic, qos, id, data));
    }
  }

  lemma OnlyQos(retain: bool, qos: nat, b: seq<byte>)
    requires qos < 4
    ensures match ReadPublish(false, qos, retain, b)
            case None => true
            case Some(c) => c.Publish? && c.qos == qos <= 2
  {
  }

  /** The id a builder uses up: the next of 1, 2, .., 65535, 1, .. */
  function FreshId(counter: nat): nat {
    if counter == 65535 then 1 else counter + 1
  }

  lemma PublishBuilt(
    size: nat, counter: nat, topic: seq<byte>, data: seq<byte>, qos: int, retain: int, id: nat)
    requires counter < 0x1_0000 && topic != [] && id == if qos > 0 then FreshId(counter) else counter
    ensures |PublishBody(topic, qos, id, data)| == 2 + |topic| + (if qos > 0 then 2 else 0) + |data|
    ensures
      var built := BuildPublish(size, counter, Some(topic), data, qos, retain);
      && built.packet == (if 5 + |topic| + (if qos > 0 then 2 else 0) + |data| <= size
                            then Packet(PUBLISH, 0, qos, retain, PublishBody(topic, qos, id, data)) else [])
      && (built.packet != [] ==> built.counter == id)
  {
    NextIsFresh(counter);
  }

  /**
   * mqtt_msg_publish: a packet is built exactly when there is a topic and everything fits, and it says what the
   * caller asked for exactly when the QoS is one there is.
   */
  lemma PublishOnTheWire(size: nat, counter: nat, topic: Option<seq<byte>>, data: seq<byte>, qos: int, retain: int)
    requires size <= 16386 && counter < 0x1_0000
    ensures
      var built := BuildPublish(size, counter, topic, data, qos, retain);
      && (built.packet != [] <==>
            Given(topic) && 5 + |topic.value| + (if qos > 0 then 2 else 0) + |data| <= size)
      && (built.packet != [] ==>
            && built.counter == (if qos > 0 then FreshId(counter) else counter)
            && (Says(Read(built.packet), topic.value, data, qos, retain, if qos > 0 then built.counter else 0)
                <==> 0 <= qos <= 2))
  {
    if Given(topic) {
      var id := if qos > 0 then FreshId(counter) else counter;
      PublishBuilt(size, counter, topic.value, data, qos, retain, id);
      if 5 + |topic.value| + (if qos > 0 then 2 else 0) + |data| <= size {
        PublishPacketRead(qos, retain, PublishBody(topic.value, qos, id, data));
        PublishRead(topic.value, data, qos, retain, id);
      }
    }
  }

  lemma AckRead(typ: int, qos: int, id: nat)
    requires (typ, qos) in {(PUBACK, 0), (PUBREC, 0), (PUBREL, 1), (PUBCOMP, 0)} && 0 < id < 0x1_0000
    ensures Read(Packet(typ, 0, qos, 0, Be16(id)))
         == Some(if typ == PUBACK then Puback(id) else if typ == PUBREC then Pubrec(id)
                 else if typ == PUBREL then Pubrel(id) else Pubcomp(id))
  {
    FirstBytes();
    PacketRead(typ, 0, qos, 0, Be16(id));
    assert Be16(id) + [] == Be16(id);
    IdBack(id, []);
  }

  /** The acknowledgements, with the id to acknowledge, or a fresh one in place of zero. */
  lemma AckOnTheWire(size: nat, counter: nat, id: nat)
    requires 5 <= size && counter < 0x1_0000 && id < 0x1_0000
    ensures
      var used := if id != 0 then id else FreshId(counter);
      && Read(BuildAck(size, counter, PUBACK, 0, id).packet) == Some(Puback(used))
      && Read(BuildAck(size, counter, PUBREC, 0, id).packet) == Some(Pubrec(used))
      && Read(BuildAck(size, counter, PUBREL, 1, id).packet) == Some(Pubrel(used))
      && Read(BuildAck(size, counter, PUBCOMP, 0, id).packet) == Some(Pubcomp(used))
  {
    AckBuilt(size, counter, PUBACK, 0, id);
    AckBuilt(size, counter, PUBREC, 0, id);
    AckBuilt(size, counter, PUBREL, 1, id);
    AckBuilt(size, counter, PUBCOMP, 0, id);
    var used := if id != 0 then id else FreshId(counter);
    AckRead(PUBACK, 0, used);
    AckRead(PUBREC, 0, used);
    AckRead(PUBREL, 1, used);
    AckRead(PUBCOMP, 0, used);
  }

  lemma AckBuilt(size: nat, counter: nat, typ: int, qos: int, id: nat)
    requires 5 <= size && counter < 0x1_0000
    ensures BuildAck(size, counter, typ, qos, id).packet
         == Packet(typ, 0, qos, 0, Be16(if id != 0 then id else FreshId(counter)))
  {
    NextIsFresh(counter);
  }

  lemma NextIsFresh(counter: nat)
    requires counter < 0x1_0000
    ensures NextId(counter) == FreshId(counter)
  {
  }

  lemma SubscribeRead(id: nat, topic: seq<byte>, qos: byte)
    requires 0 < id < 0x1_0000 && topic != [] && |topic| <= 16378
    ensures Read(Packet(SUBSCRIBE, 0, 1, 0, Be16(id) + Str(topic) + [qos]))
         == if qos <= 2 then Some(Subscribe(id, topic, qos)) else None
  {
    var body := Be16(id) + Str(topic) + [qos];
    FirstBytes();
    PacketRead(SUBSCRIBE, 0, 1, 0, body);
    SubscribeBodyRead(id, topic, qos);
    SubscribeFirst(body);
  }

  lemma SubscribeFirst(b: seq<byte>)
    ensures ReadBody(0x82, b) == ReadSubscribe(b) && ReadBody(0xA2, b) == ReadUnsubscribe(b)
  {
  }

  lemma SubscribeBodyRead(id: nat, topic: seq<byte>, qos: byte)
    requires 0 < id < 0x1_0000 && topic != [] && |topic| < 0x1_0000
    ensures ReadSubscribe(Be16(id) + Str(topic) + [qos])
         == if qos <= 2 then Some(Subscribe(id, topic, qos)) else None
  {
    Assoc(Be16(id), Str(topic), [qos]);
    IdBack(id, Str(topic) + [qos]);
    StrBack(topic, [qos]);
  }

  lemma SubscribeBuilt(size: nat, counter: nat, topic: seq<byte>, qos: int, asked: byte)
    requires counter < 0x1_0000 && topic != [] && asked == qos % 256
    ensures BuildSubscribe(size, counter, Some(topic), qos)
         == Built(if 8 + |topic| <= size
                    then Packet(SUBSCRIBE, 0, 1, 0, Be16(FreshId(counter)) + Str(topic) + [asked]) else [],
                  FreshId(counter))
  {
    NextIsFresh(counter);
  }

  /** mqtt_msg_subscribe: the id, the topic and the requested QoS, which a server takes exactly when it is one. */
  lemma SubscribeOnTheWire(size: nat, counter: nat, topic: Option<seq<byte>>, qos: int)
    requires size <= 16386 && counter < 0x1_0000
    ensures
      var built := BuildSubscribe(size, counter, topic, qos);
      && (built.packet != [] <==> Given(topic) && 8 + |topic.value| <= size)
      && (built.packet != [] ==>
            Read(built.packet)
            == if qos % 256 <= 2 then Some(Subscribe(FreshId(counter), topic.value, qos % 256)) else None)
      && (Given(topic) ==> built.counter == FreshId(counter))
  {
    if Given(topic) {
      SubscribeBuilt(size, counter, topic.value, qos, qos % 256);
      if 8 + |topic.value| <= size {
        SubscribeRead(FreshId(counter), topic.value, qos % 256);
      }
    }
  }

  lemma UnsubscribeRead(id: nat, topic: seq<byte>)
    requires 0 < id < 0x1_0000 && topic != [] && |topic| <= 16379
    ensures Read(Packet(UNSUBSCRIBE, 0, 1, 0, Be16(id) + Str(topic))) == Some(Unsubscribe(id, topic))
  {
    var body := Be16(id) + Str(topic);
    FirstBytes();
    PacketRead(UNSUBSCRIBE, 0, 1, 0, body);
    SubscribeFirst(body);
    UnsubscribeBodyRead(id, topic);
  }

  lemma UnsubscribeBodyRead(id: nat, topic: seq<byte>)
    requires 0 < id < 0x1_0000 && topic != [] && |topic| < 0x1_0000
    ensures ReadUnsubscribe(Be16(id) + Str(topic)) == Some(Unsubscribe(id, topic))
  {
    IdBack(id, Str(topic));
    assert Str(topic) + [] == Str(topic);
    StrBack(topic, []);
  }

  lemma UnsubscribeBuilt(size: nat, counter: nat, topic: seq<byte>)
    requires counter < 0x1_0000 && topic != []
    ensures BuildUnsubscribe(size, counter, Some(topic))
         == Built(if 7 + |topic| <= size
                    then Packet(UNSUBSCRIBE, 0, 1, 0, Be16(FreshId(counter)) + Str(topic)) else [],
                  FreshId(counter))
  {
    NextIsFresh(counter);
  }

  /** mqtt_msg_unsubscribe: the id and the topic. */
  lemma UnsubscribeOnTheWire(size: nat, counter: nat, topic: Option<seq<byte>>)
    requires size <= 16386 && counter < 0x1_0000
    ensures
      var built := BuildUnsubscribe(size, counter, topic);
      && (built.packet != [] <==> Given(topic) && 7 + |topic.value| <= size)
      && (built.packet != [] ==> Read(built.packet) == Some(Unsubscribe(FreshId(counter), topic.value)))
      && (Given(topic) ==> built.counter == FreshId(counter))
  {
    if Given(topic) {
      UnsubscribeBuilt(size, counter, topic.value);
      if 7 + |topic.value| <= size {
        UnsubscribeRead(FreshId(counter), topic.value);
      }
    }
  }

  /** PINGREQ, PINGRESP and DISCONNECT. */
  lemma EmptyOnTheWire(counter: nat)
    ensures Read(BuildEmpty(counter, PINGREQ).packet) == Some(Pingreq)
    ensures Read(BuildEmpty(counter, PINGRESP).packet) == Some(Pingresp)
    ensures Read(BuildEmpty(counter, DISCONNECT).packet) == Some(Disconnect)
  {
    FirstBytes();
    PacketRead(PINGREQ, 0, 0, 0, []);
    PacketRead(PINGRESP, 0, 0, 0, []);
    PacketRead(DISCONNECT, 0, 0, 0, []);
  }
}

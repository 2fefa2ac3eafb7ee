/**
 * The MQTT client of mqtt.c. Each method is one callback, timer tick, task activation or user call, and takes
 * the step of ClientSpec; the network, the clock and the task queue are the events themselves.
 */
module Client {
  import opened Bytes
  import opened Packets
  import opened ClientSpec
  import opened ClientRuns
  import Connect
  import Msg
  import Overflow
  import Queue

  class MqttClient {
    const bufSize: nat                // MQTT_BUF_SIZE
    const info: Connect.Info
    const connection: Msg.Connection  // with the output buffer
    const inBuffer: array<byte>
    const msgQueue: Queue.MsgQueue
    var connState: ConnState
    var keepAliveTick: nat
    var reconnectTick: nat
    var sendTimeout: nat
    var pendingMsgType: nat
    ghost var log: seq<Entry>

    ghost predicate Valid()
      reads this, connection, msgQueue, msgQueue.rb, msgQueue.rb.data
    {
      && 16 <= bufSize <= 16386
      && connection.buffer.Length == bufSize && inBuffer.Length == bufSize
      && connection.buffer != inBuffer
      && msgQueue.rb.data != connection.buffer && msgQueue.rb.data != inBuffer
      && connection.Valid() && msgQueue.Valid()
    }

    ghost function Cfg(): Config
      reads msgQueue, msgQueue.rb
    {
      Config(bufSize, msgQueue.rb.data.Length, info)
    }

    ghost function State(): ClientSpec.State
      reads this, connection, msgQueue
    {
      ClientSpec.State(connState, keepAliveTick, reconnectTick, sendTimeout, pendingMsgType,
                       connection.messageId, msgQueue.segs, log)
    }

    /** MQTT_InitConnection and MQTT_InitClient */
    constructor (bufSize: nat, queueSize: nat, info: Connect.Info)
      requires 16 <= bufSize <= 16386 && queueSize >= 2
      ensures Valid() && Cfg() == Config(bufSize, queueSize, info) && State() == INITIAL
      ensures fresh(connection) && fresh(connection.buffer) && fresh(inBuffer)
      ensures fresh(msgQueue) && fresh(msgQueue.rb) && fresh(msgQueue.rb.data)
    {
      this.bufSize, this.info := bufSize, info;
      inBuffer := new byte[bufSize];
      var outBuffer := new byte[bufSize];
      connection := new Msg.Connection(outBuffer);
      msgQueue := new Queue.MsgQueue(queueSize);
      connState, keepAliveTick, reconnectTick, sendTimeout, pendingMsgType := WifiInit, 0, 0, 0, 0;
      log := [];
    }

    /** What the queue's validity says in the terms of the specification. */
    lemma QueueSound()
      requires Valid()
      ensures Sound(Cfg(), State())
    {
    }

    // ---------- User calls ----------

    /** MQTT_Connect; the timer it disarms is armed elsewhere and appears as Tick. */
    method UserConnect()
      requires Valid()
      modifies this
      ensures Valid() && State() == OnConnect(old(State()))
    {
      keepAliveTick := 0;
      reconnectTick := 0;
      connState := TcpConnecting;
    }

    /** MQTT_Disconnect */
    method UserDisconnect()
      requires Valid()
      modifies this
      ensures Valid() && State() == old(State()).(conn := TcpDisconnecting)
    {
      connState := TcpDisconnecting;
    }

    /** MQTT_DeleteClient */
    method UserDelete()
      requires Valid()
      modifies this
      ensures Valid() && State() == old(State()).(conn := MqttDeleting)
    {
      connState := MqttDeleting;
    }

    /** The loop itself. */
    method StoreMessage(message: seq<byte>) returns (ok: bool)
      requires Valid() && |message| <= bufSize
      modifies msgQueue, msgQueue.rb, msgQueue.rb.data
      ensures Valid() && Sound(Cfg(), old(State()))
      ensures var (segs, done) := Overflow.PutDropping(old(msgQueue.segs), Cfg().queueSize, message);
              ok == done && State() == old(State()).(segs := segs)
    {
      QueueSound();
      var dataBuffer := new byte[bufSize];
      ok := Overflow.PutDroppingOldest(msgQueue, message, dataBuffer);
    }

    /** The loop of the four calls below, over the message just built, and what it does for the record. */
    method EnqueueMessage(ghost packet: seq<byte>) returns (ok: bool)
      requires Valid() && connection.Holds(packet)
      modifies this, msgQueue, msgQueue.rb, msgQueue.rb.data
      ensures Valid()
      ensures var s := old(State());
        && Sound(Cfg(), s) && State() == Enqueue(Cfg(), s, packet)
        && (ok <==> Queued(Cfg(), s, packet))
    {
      ghost var dropped := Queue.Messages(msgQueue.segs)[..DropCount(msgQueue.segs, Cfg().queueSize, packet)];
      ok := StoreMessage(connection.buffer[connection.start..connection.start + connection.length]);
      log := log + DroppedAll(dropped) + if ok then [Accepted(packet)] else [];
    }

    /** MQTT_Publish */
    method UserPublish(topic: Option<seq<byte>>, data: seq<byte>, qos: int, retain: int) returns (ok: bool)
      requires Valid()
      modifies this, connection, connection.buffer, msgQueue, msgQueue.rb, msgQueue.rb.data
      ensures Valid()
      ensures Sound(Cfg(), old(State())) && State() == OnPublish(Cfg(), old(State()), topic, data, qos, retain)
      ensures ok <==> PublishSucceeds(Cfg(), old(State()), topic, data, qos, retain)
    {
      QueueSound();
      ghost var built := BuildPublish(bufSize, connection.messageId, topic, data, qos, retain);
      var _ := connection.Publish(topic, data, qos, retain);
      if connection.length == 0 {
        return false;
      }
      ok := EnqueueMessage(built.packet);
    }

    /** MQTT_Subscribe: a packet that could not be built is queued as an empty message. */
    method UserSubscribe(topic: Option<seq<byte>>, qos: int) returns (ok: bool)
      requires Valid()
      modifies this, connection, connection.buffer, msgQueue, msgQueue.rb, msgQueue.rb.data
      ensures Valid()
      ensures Sound(Cfg(), old(State())) && State() == OnSubscribe(Cfg(), old(State()), topic, qos)
      ensures ok <==> SubscribeSucceeds(Cfg(), old(State()), topic, qos)
    {
      QueueSound();
      ghost var built := BuildSubscribe(bufSize, connection.messageId, topic, qos);
      var _ := connection.Subscribe(topic, qos);
      ok := EnqueueMessage(built.packet);
    }

    /** MQTT_UnSubscribe */
    method UserUnsubscribe(topic: Option<seq<byte>>) returns (ok: bool)
      requires Valid()
      modifies this, connection, connection.buffer, msgQueue, msgQueue.rb, msgQueue.rb.data
      ensures Valid()
      ensures Sound(Cfg(), old(State())) && State() == OnUnsubscribe(Cfg(), old(State()), topic)
      ensures ok <==> UnsubscribeSucceeds(Cfg(), old(State()), topic)
    {
      QueueSound();
      ghost var built := BuildUnsubscribe(bufSize, connection.messageId, topic);
      var _ := connection.Unsubscribe(topic);
      ok := EnqueueMessage(built.packet);
    }

    /** MQTT_Ping */
    method UserPing() returns (ok: bool)
      requires Valid()
      modifies this, connection, connection.buffer, msgQueue, msgQueue.rb, msgQueue.rb.data
      ensures Valid()
      ensures Sound(Cfg(), old(State())) && State() == OnPing(Cfg(), old(State()))
      ensures ok <==> PingSucceeds(Cfg(), old(State()))
    {
      QueueSound();
      BuildPing();
      if connection.length == 0 {
        return false;
      }
      ok := EnqueueMessage(BuildEmpty(connection.messageId, PINGREQ).packet);
    }

    /** mqtt_msg_pingreq on the client's connection. */
    method BuildPing()
      requires Valid()
      modifies connection, connection.buffer
      ensures Valid() && State() == old(State())
      ensures connection.Holds(BuildEmpty(connection.messageId, PINGREQ).packet) && connection.length == 2
    {
      connection.Empty(PINGREQ);
      assert |connection.buffer[connection.start..connection.start + connection.length]| == 2;
    }

    // ---------- Callbacks ----------

    /** mqtt_dns_found: `found` is false for a null address, `connects` says that espconn_connect is called. */
    method DnsFound(found: bool, connects: bool)
      requires Valid()
      modifies this
      ensures Valid()
      ensures State() == if !found then old(State()).(conn := TcpReconnectReq)
                         else if connects then old(State()).(conn := TcpConnecting)
                         else old(State())
    {
      if !found {
        connState := TcpReconnectReq;
        return;
      }
      if connects {
        connState := TcpConnecting;
      }
    }

    /** The CONNECT in the output buffer, its bytes, and the type bits read there; stale ones when it does not fit. */
    method BuildConnect() returns (sent: seq<byte>, typ: nat)
      requires Valid()
      modifies connection, connection.buffer
      ensures Valid() && State() == old(State()).(counter := 0)
      ensures if Cfg().ConnectFits() then Connect.IsConnect(sent, info) && typ == CONNECT else sent == []
    {
      connection.Reset();
      ghost var p := connection.ConnectMessage(info);
      sent := connection.buffer[connection.start..connection.start + connection.length];
      typ := connection.buffer[connection.start] / 16;
      if Cfg().ConnectFits() {
        ConnectType(p, info);
        assert sent[0] == connection.buffer[connection.start];
      }
    }

    /** mqtt_tcpclient_connect_cb; `sent` is what goes to espconn_send. */
    method TcpConnected() returns (ghost stale: nat, sent: seq<byte>)
      requires Valid()
      modifies this, connection, connection.buffer
      ensures Valid() && State() == OnTcpConnected(Cfg(), old(State()), stale)
      ensures if Cfg().ConnectFits() then Connect.IsConnect(sent, info) else sent == []
    {
      sent, pendingMsgType := BuildConnect();
      stale := pendingMsgType;
      sendTimeout := MQTT_SEND_TIMEOUT;
      connState := MqttConnectSending;
    }

    static lemma ConnectType(p: seq<byte>, info: Connect.Info)
      requires Connect.IsConnect(p, info)
      ensures p != [] && TypeOf(p) == CONNECT
    {
      var f: byte :| Connect.FlagsSay(f, info) && p == Packet(CONNECT, 0, 0, 0, Connect.Body(f, info));
      TypeByte(CONNECT, 0, 0, 0, Connect.Body(f, info));
    }

    /** mqtt_tcpclient_discon_cb */
    method TcpDisconnected()
      requires Valid()
      modifies this
      ensures Valid() && State() == OnTcpDisconnected(old(State()))
    {
      if connState == TcpDisconnecting {
        connState := ConnState.TcpDisconnected;
      } else if connState == MqttDeleting {
        connState := MqttDeleted;
      } else {
        connState := TcpReconnectReq;
      }
    }

    /** mqtt_tcpclient_recon_cb */
    method TcpReconnect()
      requires Valid()
      modifies this
      ensures Valid() && State() == old(State()).(conn := TcpReconnectReq)
    {
      connState := TcpReconnectReq;
    }

    /** mqtt_tcpclient_sent_cb */
    method Sent()
      requires Valid()
      modifies this
      ensures Valid() && State() == OnSent(old(State()))
    {
      sendTimeout := 0;
      keepAliveTick := 0;
    }

    /** mqtt_timer */
    method Timer()
      requires Valid()
      modifies this
      ensures Valid() && State() == OnTick(Cfg(), old(State()))
    {
      if connState == MqttData {
        keepAliveTick := (keepAliveTick + 1) % 0x1_0000_0000;
        if keepAliveTick > info.keepalive % 0x1_0000_0000 {
          connState := MqttKeepaliveSend;
        }
      } else if connState == TcpReconnectReq {
        reconnectTick := reconnectTick + 1;
        if reconnectTick > MQTT_RECONNECT_TIMEOUT {
          reconnectTick := 0;
          connState := ConnState.TcpReconnect;
        }
      }
      if sendTimeout > 0 {
        sendTimeout := sendTimeout - 1;
      }
    }

    // ---------- The task ----------

    /** mqtt_send_keepalive; `sendOk` is what espconn_send makes of it. */
    method SendKeepalive(sendOk: bool) returns (sent: seq<byte>)
      requires Valid()
      modifies this, connection, connection.buffer
      ensures Valid() && State() == OnKeepalive(old(State()), sendOk)
      ensures sent == [0xC0, 0]
    {
      BuildPing();
      sent := connection.buffer[connection.start..connection.start + connection.length];
      pendingMsgType := sent[0] / 16;
      sendTimeout := MQTT_SEND_TIMEOUT;
      if sendOk {
        keepAliveTick := 0;
        connState := MqttData;
      } else {
        connState := TcpReconnectDisconnecting;
      }
    }

    /** QUEUE_Gets, in the terms of the specification. */
    method TakeOldest(dataBuffer: array<byte>) returns (got: bool, dataLen: nat)
      requires Valid() && dataBuffer.Length == bufSize
      requires dataBuffer != msgQueue.rb.data && dataBuffer != inBuffer && dataBuffer != connection.buffer
      modifies msgQueue, msgQueue.rb, msgQueue.rb.data, dataBuffer
      ensures Valid() && dataLen <= bufSize
      ensures got == (old(Queue.Messages(msgQueue.segs)) != [])
      ensures State() == old(State()).(segs := Queue.Rest(old(msgQueue.segs)))
      ensures got ==> dataBuffer[..dataLen] == Cut(old(Queue.Messages(msgQueue.segs))[0], bufSize)
      ensures !got ==> msgQueue.segs == []
    {
      var rc;
      rc, dataLen := msgQueue.Gets(dataBuffer, bufSize);
      got := rc == 0;
      if !got {
        dataLen := 0;
      }
    }

    /** The oldest message, if there is one, leaves the queue for the network. */
    method SendOldest() returns (ghost stale: nat, sent: seq<seq<byte>>)
      requires Valid() && connState == MqttData && sendTimeout == 0 && msgQueue.segs != []
      modifies this, msgQueue, msgQueue.rb, msgQueue.rb.data
      ensures Valid() && State() == OnTask(Cfg(), old(State()), true, stale)
      ensures var queued := old(Queue.Messages(msgQueue.segs));
              sent == if queued == [] then [] else [Cut(queued[0], bufSize)]
    {
      var dataBuffer := new byte[bufSize];
      var got, dataLen := TakeOldest(dataBuffer);
      stale, sent := 0, [];
      if got {
        stale, sent := dataBuffer[0] / 16, [dataBuffer[..dataLen]];
        Send(dataBuffer[..dataLen], dataBuffer, dataLen);
      }
    }

    /** What the task does with a message it has got. */
    method Send(ghost m: seq<byte>, dataBuffer: array<byte>, dataLen: nat)
      requires Valid() && dataLen <= dataBuffer.Length == bufSize && m == dataBuffer[..dataLen]
      modifies this
      ensures Valid()
      ensures State() == old(State()).(sendTimeout := MQTT_SEND_TIMEOUT, log := old(log) + [Handed(m)],
                                       pendingType := if m == [] then dataBuffer[0] / 16 else TypeOf(m))
    {
      pendingMsgType := dataBuffer[0] / 16;
      sendTimeout := MQTT_SEND_TIMEOUT;
      log := log + [Handed(m)];
    }

    /** The MQTT_DATA case of MQTT_Task; `sent` is what goes to espconn_send. */
    method SendFromQueue() returns (ghost stale: nat, sent: seq<seq<byte>>)
      requires Valid() && connState == MqttData
      modifies this, msgQueue, msgQueue.rb, msgQueue.rb.data
      ensures Valid() && State() == OnTask(Cfg(), old(State()), true, stale)
      ensures var queued := old(Queue.Messages(msgQueue.segs));
              sent == if old(sendTimeout) > 0 || queued == [] then [] else [Cut(queued[0], bufSize)]
    {
      stale, sent := 0, [];
      var empty := msgQueue.IsEmpty();
      if !empty && sendTimeout == 0 {
        stale, sent := SendOldest();
      }
    }

    /** MQTT_Task: a PINGREQ or the oldest message goes to espconn_send, or nothing. */
    method TaskStep(sendOk: bool) returns (ghost stale: nat, sent: seq<seq<byte>>)
      requires Valid()
      modifies this, connection, connection.buffer, msgQueue, msgQueue.rb, msgQueue.rb.data
      ensures Valid() && State() == OnTask(Cfg(), old(State()), sendOk, stale)
      ensures var queued := old(Queue.Messages(msgQueue.segs));
              sent == if old(connState) == MqttKeepaliveSend then [[0xC0, 0]]
                      else if old(connState) == MqttData && old(sendTimeout) == 0 && queued != []
                      then [Cut(queued[0], bufSize)] else []
    {
      stale, sent := 0, [];
      match connState {
        case TcpReconnect =>
          UserConnect();
          connState := TcpConnecting;
        case MqttKeepaliveSend =>
          var ping := SendKeepalive(sendOk);
          sent := [ping];
        case MqttData =>
          stale, sent := SendFromQueue();
        case _ =>
      }
    }

    // ---------- Receiving ----------

    /** A put of the message just built, whose failure is only logged. */
    method OfferMessage(ghost packet: seq<byte>)
      requires Valid() && connection.Holds(packet)
      modifies this, msgQueue, msgQueue.rb, msgQueue.rb.data
      ensures Valid()
      ensures Sound(Cfg(), old(State())) && State() == Offer(Cfg(), old(State()), packet)
    {
      QueueSound();
      ghost var s := State();
      var message := connection.buffer[connection.start..connection.start + connection.length];
      var _ := msgQueue.Puts(message);
      log := log + [if Queue.Fits(s.segs, Cfg().queueSize, packet) then Accepted(packet) else Refused(packet)];
    }

    method SendAnswer(typ: int, qos: int, id: nat)
      requires Valid() && id < 0x1_0000
      modifies this, connection, connection.buffer, msgQueue, msgQueue.rb, msgQueue.rb.data
      ensures Valid()
      ensures Sound(Cfg(), old(State())) && State() == Answer(Cfg(), old(State()), typ, qos, id)
    {
      QueueSound();
      ghost var built := BuildAck(bufSize, connection.messageId, typ, qos, id);
      connection.Ack(typ, qos, id);
      OfferMessage(built.packet);
    }

    method ReadTopic(len: nat) returns (topic: Option<seq<byte>>)
      requires Valid() && len <= bufSize
      ensures topic == PublishTopic(inBuffer[..], len)
    {
      var t := Msg.GetPublishTopic(inBuffer, len);
      topic := if t.Some? then Some(inBuffer[t.value.0..t.value.0 + t.value.1]) else None;
    }

    /** NULL comes with length 0. */
    method ReadData(len: nat) returns (data: seq<byte>)
      requires Valid() && 0 < len <= bufSize
      ensures PublishData(inBuffer[..], len) == Some(data) || (PublishData(inBuffer[..], len) == None && data == [])
    {
      var d := Msg.GetPublishData(inBuffer, len);
      data := if d.Some? then inBuffer[d.value.0..d.value.0 + d.value.1] else [];
    }

    /** deliver_publish; `len` is what is left of the chunk. */
    method DeliverPublish(len: nat, ghost topic: seq<byte>, ghost data: seq<byte>)
      requires Valid() && 0 < len <= bufSize
      requires PublishTopic(inBuffer[..], len) == Some(topic)
      requires PublishData(inBuffer[..], len) == Some(data) || (PublishData(inBuffer[..], len) == None && data == [])
      modifies this
      ensures Valid() && State() == old(State()).(log := old(log) + [Delivered(topic, data)])
    {
      var t := ReadTopic(len);
      var d := ReadData(len);
      if t.Some? {
        log := log + [Delivered(t.value, d)];
      }
    }

    /** What is read off the front of the input buffer, with `len` bytes of chunk in it. */
    method ReadFront(ghost p: Inbound, len: nat, ghost tail: seq<byte>)
      returns (msgType: nat, msgQos: nat, msgId: nat, messageLength: nat)
      requires Valid() && p.WellFormed()
      requires inBuffer[..] == p.Encode() + tail && |p.Encode()| <= len < bufSize
      ensures msgType == p.Type()
      ensures p.InPublish? ==> messageLength == |p.Encode()| && msgQos == p.qos && (p.qos > 0 ==> msgId == p.id)
      ensures p.InOther? && p.typ in {PUBREC, PUBREL} ==> msgId == p.AckId()
    {
      ReadInbound(p, inBuffer[..], tail, len, bufSize);
      msgType := inBuffer[0] / 16;
      msgQos := inBuffer[0] / 2 % 4;
      msgId := Msg.ReadId(inBuffer, bufSize);
      messageLength := Msg.GetTotalLength(inBuffer, len);
    }

    /** The case of a PUBLISH. */
    method HandlePublish(ghost p: Inbound, msgQos: nat, msgId: nat, len: nat)
      requires Valid() && p.InPublish? && p.WellFormed() && msgQos == p.qos && (p.qos > 0 ==> msgId == p.id)
      requires 0 < len <= bufSize && PublishTopic(inBuffer[..], len) == Some(p.topic)
      requires || PublishData(inBuffer[..], len) == Some(p.data)
               || (PublishData(inBuffer[..], len) == None && p.data == [])
      modifies this, connection, connection.buffer, msgQueue, msgQueue.rb, msgQueue.rb.data
      ensures Valid()
      ensures Sound(Cfg(), old(State())) && State() == OnPacket(Cfg(), old(State()), p)
    {
      QueueSound();
      if msgQos == 1 {
        SendAnswer(PUBACK, 0, msgId);
      } else if msgQos == 2 {
        SendAnswer(PUBREC, 0, msgId);
      }
      DeliverPublish(len, p.topic, p.data);
    }

    /** The other cases that answer. */
    method HandleOther(ghost p: Inbound, msgType: nat, msgId: nat)
      requires Valid() && p.InOther? && p.WellFormed() && msgType == p.typ
      requires p.typ in {PUBREC, PUBREL} ==> msgId == p.AckId()
      modifies this, connection, connection.buffer, msgQueue, msgQueue.rb, msgQueue.rb.data
      ensures Valid()
      ensures Sound(Cfg(), old(State())) && State() == OnPacket(Cfg(), old(State()), p)
    {
      QueueSound();
      if msgType == PUBREC {
        SendAnswer(PUBREL, 1, msgId);
      } else if msgType == PUBREL {
        SendAnswer(PUBCOMP, 0, msgId);
      } else if msgType == PINGREQ {
        connection.Empty(PINGRESP);
        OfferMessage(BuildEmpty(connection.messageId, PINGRESP).packet);
      }
    }

    /** The switch on the packet type. */
    method HandlePacket(ghost p: Inbound, len: nat, ghost tail: seq<byte>) returns (msgType: nat, messageLength: nat)
      requires Valid() && p.WellFormed()
      requires inBuffer[..] == p.Encode() + tail && |p.Encode()| <= len < bufSize
      modifies this, connection, connection.buffer, msgQueue, msgQueue.rb, msgQueue.rb.data
      ensures Valid()
      ensures Sound(Cfg(), old(State())) && State() == OnPacket(Cfg(), old(State()), p)
      ensures msgType == p.Type()
      ensures p.InPublish? ==> messageLength == |p.Encode()|
    {
      var msgQos, msgId;
      msgType, msgQos, msgId, messageLength := ReadFront(p, len, tail);
      if msgType == PUBLISH {
        ReadInbound(p, inBuffer[..], tail, len, bufSize);
        HandlePublish(p, msgQos, msgId, len);
      } else {
        HandleOther(p, msgType, msgId);
      }
    }

    /** The memcpy into the input buffer; what was behind the chunk stays there. */
    method CopyIn(pdata: seq<byte>) returns (ghost stale: seq<byte>)
      requires Valid() && |pdata| <= bufSize
      modifies inBuffer
      ensures Valid() && inBuffer[..] == pdata + stale
    {
      stale := inBuffer[|pdata|..];
      forall i | 0 <= i < |pdata| {
        inBuffer[i] := pdata[i];
      }
    }

    /** One turn from the label READPACKET: 0 when it is the last, else how many bytes it has used up. */
    method ReadPacket(pdata: seq<byte>, ghost ps: seq<Inbound>) returns (used: nat)
      requires Valid() && AllWellFormed(ps) && ps != [] && pdata == EncodeAll(ps) && |pdata| < bufSize
      modifies this, connection, connection.buffer, inBuffer, msgQueue, msgQueue.rb, msgQueue.rb.data
      ensures Valid() && Cfg() == old(Cfg()) && Sound(Cfg(), old(State())) && Sound(Cfg(), State())
      ensures used == 0 ==> State() == ReadPackets(Cfg(), old(State()), ps)
      ensures used != 0 ==>
        && used == |ps[0].Encode()| < |pdata|
        && ReadPackets(Cfg(), State(), ps[1..]) == ReadPackets(Cfg(), old(State()), ps)
    {
      QueueSound();
      used := 0;
      ghost var stale := CopyIn(pdata);
      if connState == MqttConnectSending {
        EncodedType(ps[0]);
        if inBuffer[0] / 16 == CONNACK && pendingMsgType == CONNECT {
          connState := MqttData;
        }
      } else if connState == MqttData || connState == MqttKeepaliveSend {
        Assoc(ps[0].Encode(), EncodeAll(ps[1..]), stale);
        ReadPacketsStep(Cfg(), State(), ps);
        var msgType, messageLength := HandlePacket(ps[0], |pdata|, EncodeAll(ps[1..]) + stale);
        if msgType == PUBLISH && messageLength < |pdata| {
          used := messageLength;
        }
      }
    }

    /** mqtt_tcpclient_recv, for a chunk made of whole packets. */
    method Receive(chunk: seq<byte>, ghost packets: seq<Inbound>)
      requires Valid() && AllWellFormed(packets) && chunk == EncodeAll(packets)
      modifies this, connection, connection.buffer, inBuffer, msgQueue, msgQueue.rb, msgQueue.rb.data
      ensures Valid()
      ensures Sound(Cfg(), old(State())) && State() == OnReceive(Cfg(), old(State()), packets)
    {
      QueueSound();
      keepAliveTick := 0;
      var pdata := chunk;
      ghost var ps, cfg := packets, Cfg();
      ghost var outcome := ReadPackets(cfg, State(), packets);
      while 0 < |pdata| < bufSize
        invariant Valid() && Cfg() == cfg && Sound(cfg, State())
        invariant AllWellFormed(ps) && pdata == EncodeAll(ps)
        invariant ReadPackets(cfg, State(), ps) == outcome
        decreases |pdata|
      {
        var used := ReadPacket(pdata, ps);
        if used == 0 {
          return;
        }
        pdata := pdata[used..];
        ps := ps[1..];
      }
    }

    // ---------- Runs ----------

    /** The events that only touch the connection state. */
    method Control(e: Event) returns (ghost taken: Event)
      requires Valid() && Controls(e) && !e.TcpConnectedCb?
      modifies this
      ensures Valid() && taken == e && State() == OnControl(Cfg(), old(State()), e)
    {
      taken := e;
      match e {
        case UserConnect => UserConnect();
        case UserDisconnect => UserDisconnect();
        case UserDelete => UserDelete();
        case DnsFailed => DnsFound(false, false);
        case DnsFound(connects) => DnsFound(true, connects);
        case TcpDisconnectedCb => TcpDisconnected();
        case TcpReconnectCb => TcpReconnect();
        case SentCb => Sent();
        case Tick => Timer();
      }
    }

    /** The calls that queue a message. */
    method Call(e: Event) returns (ok: bool)
      requires Valid() && Queues(e)
      modifies this, connection, connection.buffer, msgQueue, msgQueue.rb, msgQueue.rb.data
      ensures Valid()
      ensures Sound(Cfg(), old(State())) && State() == OnCall(Cfg(), old(State()), e)
      ensures ok <==> Succeeds(Cfg(), old(State()), e)
    {
      match e {
        case UserPublish(topic, data, qos, retain) => ok := UserPublish(topic, data, qos, retain);
        case UserSubscribe(topic, qos) => ok := UserSubscribe(topic, qos);
        case UserUnsubscribe(topic) => ok := UserUnsubscribe(topic);
        case UserPing => ok := UserPing();
      }
    }

    /** The same event, but for the stale bits that only the step itself can tell. */
    static predicate SameEvent(e: Event, taken: Event) {
      || taken == e
      || (e.TcpConnectedCb? && taken.TcpConnectedCb?)
      || (e.Task? && taken.Task? && taken.sendOk == e.sendOk)
    }

    static predicate SameEvents(evs: seq<Event>, taken: seq<Event>) {
      |taken| == |evs| && forall i :: 0 <= i < |evs| ==> SameEvent(evs[i], taken[i])
    }

    /** Any event; `taken` is that event with the stale bits, if any, that the step met. */
    method Dispatch(e: Event) returns (ghost taken: Event)
      requires Valid() && Possible(e)
      modifies this, connection, connection.buffer, inBuffer, msgQueue, msgQueue.rb, msgQueue.rb.data
      ensures Valid() && Possible(taken)
      ensures SameEvent(e, taken)
      ensures Sound(Cfg(), old(State())) && State() == Handle(Cfg(), old(State()), taken)
    {
      QueueSound();
      if Queues(e) {
        var _ := Call(e);
        taken := e;
      } else if e.Receive? {
        Receive(EncodeAll(e.packets), e.packets);
        taken := e;
      } else if e.Task? {
        var stale, _ := TaskStep(e.sendOk);
        taken := Task(e.sendOk, stale);
      } else if e.TcpConnectedCb? {
        var stale, _ := TcpConnected();
        taken := TcpConnectedCb(stale);
      } else {
        taken := Control(e);
      }
    }

    /** One more event of a run. */
    method Continue(e: Event, ghost past: seq<Event>) returns (ghost taken: Event)
      requires Valid() && Possible(e) && AllPossible(past) && State() == Run(Cfg(), past)
      modifies this, connection, connection.buffer, inBuffer, msgQueue, msgQueue.rb, msgQueue.rb.data
      ensures Valid() && SameEvent(e, taken) && Cfg() == old(Cfg())
      ensures AllPossible(past + [taken]) && State() == Run(Cfg(), past + [taken])
    {
      taken := Dispatch(e);
      RunExtends(Cfg(), past, taken);
    }

    /** Any number of further events. */
    method ContinueAll(evs: seq<Event>, ghost past: seq<Event>) returns (ghost taken: seq<Event>)
      requires Valid() && AllPossible(evs) && AllPossible(past) && State() == Run(Cfg(), past)
      modifies this, connection, connection.buffer, inBuffer, msgQueue, msgQueue.rb, msgQueue.rb.data
      ensures Valid() && Cfg() == old(Cfg()) && SameEvents(evs, taken)
      ensures AllPossible(past + taken) && State() == Run(Cfg(), past + taken)
    {
      taken := [];
      assert past + [] == past;
      for i := 0 to |evs|
        invariant Valid() && Cfg() == old(Cfg())
        invariant SameEvents(evs[..i], taken) && AllPossible(past + taken)
        invariant State() == Run(Cfg(), past + taken)
      {
        ghost var e := Continue(evs[i], past + taken);
        Assoc(past, taken, [e]);
        OneMoreEvent(evs, i, taken, e);
        taken := taken + [e];
      }
      assert evs[..|evs|] == evs;
    }

    static lemma OneMoreEvent(evs: seq<Event>, i: nat, taken: seq<Event>, e: Event)
      requires i < |evs| && SameEvents(evs[..i], taken) && SameEvent(evs[i], e)
      ensures SameEvents(evs[..i + 1], taken + [e])
    {
      assert forall k :: 0 <= k < i ==> evs[..i + 1][k] == evs[..i][k];
    }

    /** A new client driven by any events is, after each of them, in the state that ClientRuns reasons about. */
    static method Drive(bufSize: nat, queueSize: nat, info: Connect.Info, evs: seq<Event>)
      returns (client: MqttClient, ghost taken: seq<Event>)
      requires 16 <= bufSize <= 16386 && queueSize >= 2 && AllPossible(evs)
      ensures client.Valid() && client.Cfg() == Config(bufSize, queueSize, info)
      ensures SameEvents(evs, taken)
      ensures AllPossible(taken) && client.State() == Run(client.Cfg(), taken)
    {
      client := new MqttClient(bufSize, queueSize, info);
      taken := client.ContinueAll(evs, []);
      assert [] + taken == taken;
    }

    // ---------- Sleeping ----------

    /** goToSleep of sleep.c, as far as the queue goes: light sleep, or awake and asking again. */
    method GoToSleep() returns (lightSleep: bool)
      requires Valid()
      ensures lightSleep <==> Queue.Used(msgQueue.segs) == 0
    {
      return !(msgQueue.rb.fill > 0);
    }
  }
}

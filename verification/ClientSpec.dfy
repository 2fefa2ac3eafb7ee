/**
 * The MQTT client of mqtt.c as a state machine: each callback, timer tick, task and user call is one atomic step.
 * The class in Client.dfy is proved to take exactly these steps; what they amount to over whole runs is in
 * ClientRuns.dfy.
 */
module ClientSpec {
  import opened Bytes
  import opened Packets
  import opened Queue
  import Overflow
  import Connect
  import Proto

  const MQTT_RECONNECT_TIMEOUT := 5
  const MQTT_SEND_TIMEOUT := 5

  datatype ConnState =
    | WifiInit | TcpDisconnecting | TcpDisconnected | TcpReconnectDisconnecting | TcpReconnectReq | TcpReconnect
    | TcpConnecting | MqttConnectSending | MqttData | MqttKeepaliveSend | MqttDeleting | MqttDeleted

  /** What happens to messages, in the order in which it happens. */
  datatype Entry =
    | Accepted(message: seq<byte>)   // queued
    | Refused(message: seq<byte>)    // an answer for which the queue had no room
    | Dropped(message: seq<byte>)    // taken out by an overflow loop and discarded
    | Handed(message: seq<byte>)     // taken out by the task and handed to espconn_send
    | Delivered(topic: seq<byte>, data: seq<byte>)  // passed to the data callback

  /** MQTT_BUF_SIZE, QUEUE_BUFFER_SIZE and the connect settings. */
  datatype Config = Config(bufSize: nat, queueSize: nat, info: Connect.Info)
  {
    /** The signed setting as the unsigned tick counter sees it. */
    function Keepalive(): nat {
      info.keepalive % 0x1_0000_0000
    }

    predicate ConnectFits() {
      Given(info.clientId) && 15 + |Connect.Payload(info)| <= bufSize
    }
  }

  datatype State = State(
    conn: ConnState,
    keepAliveTick: nat,
    reconnectTick: nat,
    sendTimeout: nat,
    pendingType: nat,
    counter: nat,           // the message id counter of the connection
    segs: seq<Segment>,     // what the queue's ring holds
    log: seq<Entry>)

  const INITIAL := State(WifiInit, 0, 0, 0, 0, 0, [], [])

  /** A packet from the server. */
  datatype Inbound =
    | InPublish(dup: int, qos: nat, retain: int, topic: seq<byte>, id: nat, data: seq<byte>)
    | InOther(typ: nat, flags: nat, body: seq<byte>)
  {
    function Encode(): seq<byte> {
      match this
      case InPublish(dup, qos, retain, topic, id, data) =>
        Packet(PUBLISH, dup, qos, retain, PublishBody(topic, qos, id, data))
      case InOther(typ, flags, body) => Packet(typ, flags / 8, flags / 2, flags, body)
    }

    /** Well formed as far as sections 2.2 and 3 of MQTT 3.1.1 go, with a topic that is not empty. */
    ghost predicate WellFormed() {
      match this
      case InPublish(_, qos, _, topic, id, data) =>
        && 0 < |topic| < 0x1_0000 && qos <= 2 && id < 0x1_0000 && (qos > 0 ==> id != 0)
      case InOther(typ, flags, body) =>
        && 0 < typ < 16 && typ != PUBLISH && flags < 16
        && (typ in {PUBREC, PUBREL} ==> 2 <= |body| <= 127 && AckId() != 0)
    }

    function Type(): nat {
      if InPublish? then PUBLISH else typ
    }

    /** The packet id of an acknowledgement. */
    function AckId(): nat
      requires InOther? && |body| >= 2
    {
      Word(body, 0)
    }
  }

  function EncodeAll(ps: seq<Inbound>): seq<byte> {
    if ps == [] then [] else ps[0].Encode() + EncodeAll(ps[1..])
  }

  ghost predicate AllWellFormed(ps: seq<Inbound>) {
    forall i :: 0 <= i < |ps| ==> ps[i].WellFormed()
  }

  datatype Event =
    | UserConnect | UserDisconnect | UserDelete
    | DnsFailed | DnsFound(connects: bool)
    | TcpConnectedCb(stale: nat)   // `stale`: type bits left in the output buffer, in case the CONNECT does not fit
    | TcpDisconnectedCb | TcpReconnectCb
    | SentCb
    | Tick
    | Task(sendOk: bool, stale: nat)  // `sendOk`: espconn's verdict; `stale`: bits of an uninitialised buffer
    | Receive(packets: seq<Inbound>)
    | UserPublish(topic: Option<seq<byte>>, data: seq<byte>, qos: int, retain: int)
    | UserSubscribe(topic: Option<seq<byte>>, subQos: int)
    | UserUnsubscribe(topic: Option<seq<byte>>)
    | UserPing

  /** The ring is well formed and within its size. */
  ghost predicate Sound(cfg: Config, s: State) {
    AllOk(s.segs) && Used(s.segs) <= cfg.queueSize
  }

  // ---------- Queueing ----------

  function DroppedAll(ms: seq<seq<byte>>): seq<Entry> {
    if ms == [] then [] else [Dropped(ms[0])] + DroppedAll(ms[1..])
  }

  /** How many messages the overflow loop takes out. */
  function DropCount(segs: seq<Segment>, size: nat, packet: seq<byte>): (n: nat)
    ensures n <= |Messages(segs)|
  {
    if Fits(segs, size, packet) then 0
    else
      var i := Overflow.FirstFit(Groups(segs), |Proto.Frame(packet)|);
      if i < |Messages(segs)| then i + 1 else |Messages(segs)|
  }

  /** The overflow loop, in the bookkeeping of the client. */
  ghost function Enqueue(cfg: Config, s: State, packet: seq<byte>): State
    requires Sound(cfg, s)
  {
    var (segs, ok) := Overflow.PutDropping(s.segs, cfg.queueSize, packet);
    var n := DropCount(s.segs, cfg.queueSize, packet);
    s.(segs := segs, log := s.log + DroppedAll(Messages(s.segs)[..n]) + if ok then [Accepted(packet)] else [])
  }

  /** A single put, as on the receive path. */
  ghost function Offer(cfg: Config, s: State, packet: seq<byte>): State
    requires Sound(cfg, s)
  {
    s.(segs := AfterPut(s.segs, cfg.queueSize, packet),
       log := s.log + [if Fits(s.segs, cfg.queueSize, packet) then Accepted(packet) else Refused(packet)])
  }

  // ---------- User calls ----------

  ghost function OnPublish(
    cfg: Config, s: State, topic: Option<seq<byte>>, data: seq<byte>, qos: int, retain: int): State
    requires Sound(cfg, s)
  {
    var built := BuildPublish(cfg.bufSize, s.counter, topic, data, qos, retain);
    var s1 := s.(counter := built.counter);
    if built.packet == [] then s1 else Enqueue(cfg, s1, built.packet)
  }

  /** Subscribing does not look at whether the packet could be built. */
  ghost function OnSubscribe(cfg: Config, s: State, topic: Option<seq<byte>>, qos: int): State
    requires Sound(cfg, s)
  {
    var built := BuildSubscribe(cfg.bufSize, s.counter, topic, qos);
    Enqueue(cfg, s.(counter := built.counter), built.packet)
  }

  ghost function OnUnsubscribe(cfg: Config, s: State, topic: Option<seq<byte>>): State
    requires Sound(cfg, s)
  {
    var built := BuildUnsubscribe(cfg.bufSize, s.counter, topic);
    Enqueue(cfg, s.(counter := built.counter), built.packet)
  }

  ghost function OnPing(cfg: Config, s: State): State
    requires Sound(cfg, s)
  {
    Enqueue(cfg, s, BuildEmpty(s.counter, PINGREQ).packet)
  }

  /** What the four calls above return: TRUE if the message was queued. */
  ghost predicate Queued(cfg: Config, s: State, packet: seq<byte>)
    requires Sound(cfg, s)
  {
    Overflow.PutDropping(s.segs, cfg.queueSize, packet).1
  }

  ghost predicate PublishSucceeds(
    cfg: Config, s: State, topic: Option<seq<byte>>, data: seq<byte>, qos: int, retain: int)
    requires Sound(cfg, s)
  {
    var packet := BuildPublish(cfg.bufSize, s.counter, topic, data, qos, retain).packet;
    packet != [] && Queued(cfg, s, packet)
  }

  ghost predicate SubscribeSucceeds(cfg: Config, s: State, topic: Option<seq<byte>>, qos: int)
    requires Sound(cfg, s)
  {
    Queued(cfg, s, BuildSubscribe(cfg.bufSize, s.counter, topic, qos).packet)
  }

  ghost predicate UnsubscribeSucceeds(cfg: Config, s: State, topic: Option<seq<byte>>)
    requires Sound(cfg, s)
  {
    Queued(cfg, s, BuildUnsubscribe(cfg.bufSize, s.counter, topic).packet)
  }

  ghost predicate PingSucceeds(cfg: Config, s: State)
    requires Sound(cfg, s)
  {
    Queued(cfg, s, BuildEmpty(s.counter, PINGREQ).packet)
  }

  function OnConnect(s: State): State {
    s.(conn := TcpConnecting, keepAliveTick := 0, reconnectTick := 0)
  }

  // ---------- Callbacks ----------

  function OnTcpConnected(cfg: Config, s: State, stale: nat): State {
    s.(conn := MqttConnectSending, counter := 0, sendTimeout := MQTT_SEND_TIMEOUT,
       pendingType := if cfg.ConnectFits() then CONNECT else stale)
  }

  function OnTcpDisconnected(s: State): State {
    s.(conn := if s.conn == TcpDisconnecting then TcpDisconnected
               else if s.conn == MqttDeleting then MqttDeleted
               else TcpReconnectReq)
  }

  function OnSent(s: State): State {
    s.(sendTimeout := 0, keepAliveTick := 0)
  }

  function OnTick(cfg: Config, s: State): State {
    var s1 :=
      if s.conn == MqttData then
        var tick := (s.keepAliveTick + 1) % 0x1_0000_0000;
        s.(keepAliveTick := tick, conn := if tick > cfg.Keepalive() then MqttKeepaliveSend else s.conn)
      else if s.conn == TcpReconnectReq then
        if s.reconnectTick + 1 > MQTT_RECONNECT_TIMEOUT then s.(reconnectTick := 0, conn := TcpReconnect)
        else s.(reconnectTick := s.reconnectTick + 1)
      else s;
    if s1.sendTimeout > 0 then s1.(sendTimeout := s1.sendTimeout - 1) else s1
  }

  // ---------- The task ----------

  function OnKeepalive(s: State, sendOk: bool): State {
    var s1 := s.(pendingType := PINGREQ, sendTimeout := MQTT_SEND_TIMEOUT);
    if sendOk then s1.(keepAliveTick := 0, conn := MqttData) else s1.(conn := TcpReconnectDisconnecting)
  }

  /** The task sends from the queue. */
  predicate Sending(s: State) {
    s.conn == MqttData && s.sendTimeout == 0 && Messages(s.segs) != []
  }

  function OnTask(cfg: Config, s: State, sendOk: bool, stale: nat): State {
    match s.conn
    case TcpReconnect => OnConnect(s)
    case MqttKeepaliveSend => OnKeepalive(s, sendOk)
    case MqttData =>
      if s.segs == [] || s.sendTimeout != 0 then s
      else if Messages(s.segs) == [] then s.(segs := [])
      else
        var m := Cut(Messages(s.segs)[0], cfg.bufSize);
        s.(segs := Rest(s.segs), sendTimeout := MQTT_SEND_TIMEOUT, log := s.log + [Handed(m)],
           pendingType := if m == [] then stale else TypeOf(m))
    case _ => s
  }

  // ---------- Receiving ----------

  /** One inbound packet in the data state, and the answer it calls for. */
  ghost function OnPacket(cfg: Config, s: State, p: Inbound): State
    requires Sound(cfg, s) && p.WellFormed()
  {
    if p.InPublish? then
      var s1 := if p.qos == 1 then Answer(cfg, s, PUBACK, 0, p.id)
                else if p.qos == 2 then Answer(cfg, s, PUBREC, 0, p.id)
                else s;
      s1.(log := s1.log + [Delivered(p.topic, p.data)])
    else if p.typ == PUBREC then Answer(cfg, s, PUBREL, 1, p.AckId())
    else if p.typ == PUBREL then Answer(cfg, s, PUBCOMP, 0, p.AckId())
    else if p.typ == PINGREQ then Offer(cfg, s, BuildEmpty(s.counter, PINGRESP).packet)
    else s
  }

  ghost function Answer(cfg: Config, s: State, typ: int, qos: int, id: nat): State
    requires Sound(cfg, s)
  {
    var built := BuildAck(cfg.bufSize, s.counter, typ, qos, id);
    Offer(cfg, s.(counter := built.counter), built.packet)
  }

  /** Packets are handled up to and including the first that is not a PUBLISH; the rest of the chunk is lost. */
  function Handled(ps: seq<Inbound>): seq<Inbound> {
    if ps == [] then []
    else if ps[0].InPublish? then [ps[0]] + Handled(ps[1..])
    else [ps[0]]
  }

  lemma OfferSound(cfg: Config, s: State, packet: seq<byte>)
    requires Sound(cfg, s)
    ensures Sound(cfg, Offer(cfg, s, packet))
  {
    AfterPutOk(s.segs, cfg.queueSize, packet);
    AfterPutBytes(s.segs, cfg.queueSize, packet);
  }

  lemma AnswerSound(cfg: Config, s: State, typ: int, qos: int, id: nat)
    requires Sound(cfg, s)
    ensures Sound(cfg, Answer(cfg, s, typ, qos, id))
  {
    var built := BuildAck(cfg.bufSize, s.counter, typ, qos, id);
    OfferSound(cfg, s.(counter := built.counter), built.packet);
  }

  lemma OnPacketSound(cfg: Config, s: State, p: Inbound)
    requires Sound(cfg, s) && p.WellFormed()
    ensures Sound(cfg, OnPacket(cfg, s, p))
  {
    if p.InPublish? {
      if p.qos == 1 {
        AnswerSound(cfg, s, PUBACK, 0, p.id);
      } else if p.qos == 2 {
        AnswerSound(cfg, s, PUBREC, 0, p.id);
      }
    } else if p.typ == PUBREC {
      AnswerSound(cfg, s, PUBREL, 1, p.AckId());
    } else if p.typ == PUBREL {
      AnswerSound(cfg, s, PUBCOMP, 0, p.AckId());
    } else if p.typ == PINGREQ {
      OfferSound(cfg, s, BuildEmpty(s.counter, PINGRESP).packet);
    }
  }

  ghost function EachPacket(cfg: Config, s: State, ps: seq<Inbound>): State
    requires Sound(cfg, s) && AllWellFormed(ps)
    decreases |ps|
  {
    if ps == [] then s
    else
      OnPacketSound(cfg, s, ps[0]);
      EachPacket(cfg, OnPacket(cfg, s, ps[0]), ps[1..])
  }

  /** A chunk of packets; one that is empty or fills the buffer is refused as too long. */
  ghost function OnReceive(cfg: Config, s: State, ps: seq<Inbound>): State
    requires Sound(cfg, s) && AllWellFormed(ps)
  {
    ReadPackets(cfg, s.(keepAliveTick := 0), ps)
  }

  /** What is still to do at the label READPACKET. */
  ghost function ReadPackets(cfg: Config, s: State, ps: seq<Inbound>): State
    requires Sound(cfg, s) && AllWellFormed(ps)
  {
    if ps == [] || |EncodeAll(ps)| >= cfg.bufSize then s
    else if s.conn == MqttConnectSending then
      if ps[0].Type() == CONNACK && s.pendingType == CONNECT then s.(conn := MqttData) else s
    else if s.conn == MqttData || s.conn == MqttKeepaliveSend then
      HandledWellFormed(ps);
      EachPacket(cfg, s, Handled(ps))
    else s
  }

  lemma {:induction false} HandledWellFormed(ps: seq<Inbound>)
    requires AllWellFormed(ps)
    ensures AllWellFormed(Handled(ps))
  {
    if ps != [] && ps[0].InPublish? {
      HandledWellFormed(ps[1..]);
    }
  }

  lemma OnPacketConn(cfg: Config, s: State, p: Inbound)
    requires Sound(cfg, s) && p.WellFormed()
    ensures OnPacket(cfg, s, p).conn == s.conn
  {
  }

  lemma EncodeSplit(ps: seq<Inbound>)
    requires ps != []
    ensures |EncodeAll(ps)| == |ps[0].Encode()| + |EncodeAll(ps[1..])|
    ensures EncodeAll(ps) != []
  {
  }

  lemma EachPacketStep(cfg: Config, s: State, ps: seq<Inbound>)
    requires Sound(cfg, s) && AllWellFormed(ps) && ps != []
    ensures AllWellFormed(Handled(ps)) && AllWellFormed(Handled(ps[1..]))
    ensures
      var s1 := OnPacket(cfg, s, ps[0]);
      && Sound(cfg, s1)
      && EachPacket(cfg, s, Handled(ps)) == if ps[0].InPublish? then EachPacket(cfg, s1, Handled(ps[1..])) else s1
  {
    OnPacketSound(cfg, s, ps[0]);
    HandledWellFormed(ps);
    HandledWellFormed(ps[1..]);
    if ps[0].InPublish? {
      assert Handled(ps)[1..] == Handled(ps[1..]);
    } else {
      assert Handled(ps)[1..] == [];
    }
  }

  /** One turn of the READPACKET loop in the data state. */
  lemma ReadPacketsStep(cfg: Config, s: State, ps: seq<Inbound>)
    requires Sound(cfg, s) && AllWellFormed(ps) && ps != [] && |EncodeAll(ps)| < cfg.bufSize
    requires s.conn == MqttData || s.conn == MqttKeepaliveSend
    ensures
      var s1 := OnPacket(cfg, s, ps[0]);
      && Sound(cfg, s1)
      && |EncodeAll(ps)| == |ps[0].Encode()| + |EncodeAll(ps[1..])|
      && (EncodeAll(ps[1..]) == [] <==> ps[1..] == [])
      && ReadPackets(cfg, s, ps) ==
           if ps[0].InPublish? && ps[1..] != [] then ReadPackets(cfg, s1, ps[1..]) else s1
  {
    var s1 := OnPacket(cfg, s, ps[0]);
    OnPacketConn(cfg, s, ps[0]);
    EncodeSplit(ps);
    EachPacketStep(cfg, s, ps);
    if ps[1..] != [] {
      EncodeSplit(ps[1..]);
    }
  }

  // ---------- What the readers make of an inbound packet ----------

  lemma EncodedType(p: Inbound)
    requires p.WellFormed()
    ensures p.Encode() != [] && TypeOf(p.Encode()) == p.Type()
  {
    match p
    case InPublish(dup, qos, retain, topic, id, data) =>
      TypeByte(PUBLISH, dup, qos, retain, PublishBody(topic, qos, id, data));
    case InOther(typ, flags, body) =>
      TypeByte(typ, flags / 8, flags / 2, flags, body);
  }

  /**
   * The packet at the front of the input buffer, with `len` bytes of chunk and stale bytes behind that. The id is
   * looked up in the whole buffer, which is longer than the chunk, so an empty payload does not hide it.
   */
  lemma ReadInbound(p: Inbound, b: seq<byte>, tail: seq<byte>, len: nat, bufSize: nat)
    requires p.WellFormed() && b == p.Encode() + tail
    requires |p.Encode()| <= len < bufSize == |b| <= 16386
    ensures TypeOf(b) == p.Type()
    ensures p.InPublish? ==>
      && QosOf(b) == p.qos
      && TotalLength(b, len) == |p.Encode()|
      && PublishTopic(b, len) == Some(p.topic)
      && (PublishData(b, len) == Some(p.data) || (PublishData(b, len) == None && p.data == []))
      && (p.qos > 0 ==> GetId(b, bufSize) == p.id)
    ensures p.InOther? && p.typ in {PUBREC, PUBREL} ==> GetId(b, bufSize) == p.AckId()
  {
    EncodedType(p);
    match p
    case InPublish(dup, qos, retain, topic, id, data) =>
      PublishReadBack(topic, dup, qos, retain, id, data, tail, len);
      PublishReadBack(topic, dup, qos, retain, id, data, tail, bufSize);
    case InOther(typ, flags, body) =>
      if typ in {PUBREC, PUBREL} {
        assert b[1] == RemLen(|body|)[0];
        assert b[2] == body[0] && b[3] == body[1];
      }
  }

  // ---------- Every step ----------

  ghost predicate Possible(e: Event) {
    e.Receive? ==> AllWellFormed(e.packets)
  }

  /** The user calls that queue something. */
  predicate Queues(e: Event) {
    e.UserPublish? || e.UserSubscribe? || e.UserUnsubscribe? || e.UserPing?
  }

  ghost function OnCall(cfg: Config, s: State, e: Event): State
    requires Sound(cfg, s) && Queues(e)
  {
    match e
    case UserPublish(topic, data, qos, retain) => OnPublish(cfg, s, topic, data, qos, retain)
    case UserSubscribe(topic, qos) => OnSubscribe(cfg, s, topic, qos)
    case UserUnsubscribe(topic) => OnUnsubscribe(cfg, s, topic)
    case UserPing => OnPing(cfg, s)
  }

  ghost predicate Succeeds(cfg: Config, s: State, e: Event)
    requires Sound(cfg, s) && Queues(e)
  {
    match e
    case UserPublish(topic, data, qos, retain) => PublishSucceeds(cfg, s, topic, data, qos, retain)
    case UserSubscribe(topic, qos) => SubscribeSucceeds(cfg, s, topic, qos)
    case UserUnsubscribe(topic) => UnsubscribeSucceeds(cfg, s, topic)
    case UserPing => PingSucceeds(cfg, s)
  }

  /** The events that leave the queue alone. */
  predicate Controls(e: Event) {
    !Queues(e) && !e.Receive? && !e.Task?
  }

  function OnControl(cfg: Config, s: State, e: Event): State
    requires Controls(e)
  {
    match e
    case UserConnect => OnConnect(s)
    case UserDisconnect => s.(conn := TcpDisconnecting)
    case UserDelete => s.(conn := MqttDeleting)
    case DnsFailed => s.(conn := TcpReconnectReq)
    case DnsFound(connects) => if connects then s.(conn := TcpConnecting) else s
    case TcpConnectedCb(stale) => OnTcpConnected(cfg, s, stale)
    case TcpDisconnectedCb => OnTcpDisconnected(s)
    case TcpReconnectCb => s.(conn := TcpReconnectReq)
    case SentCb => OnSent(s)
    case Tick => OnTick(cfg, s)
  }

  ghost function Handle(cfg: Config, s: State, e: Event): State
    requires Sound(cfg, s) && Possible(e)
  {
    if Queues(e) then OnCall(cfg, s, e)
    else if e.Receive? then OnReceive(cfg, s, e.packets)
    else if e.Task? then OnTask(cfg, s, e.sendOk, e.stale)
    else OnControl(cfg, s, e)
  }
}

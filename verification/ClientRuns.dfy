/** What holds of the client after any run of events whatever, starting from a cleared client. */
module ClientRuns {
  import opened Bytes
  import opened Packets
  import opened Queue
  import opened ClientSpec
  import Overflow

  // ---------- The history of messages ----------

  function AcceptedOf(log: seq<Entry>): seq<seq<byte>> {
    if log == [] then []
    else
      var last := log[|log| - 1];
      AcceptedOf(log[..|log| - 1]) + if last.Accepted? then [last.message] else []
  }

  /** The messages that left the queue, handed to send or dropped, in that order. */
  function RemovedOf(log: seq<Entry>): seq<seq<byte>> {
    if log == [] then []
    else
      var last := log[|log| - 1];
      RemovedOf(log[..|log| - 1]) + if last.Dropped? || last.Handed? then [last.message] else []
  }

  lemma Logged(log: seq<Entry>, e: Entry)
    ensures AcceptedOf(log + [e]) == AcceptedOf(log) + if e.Accepted? then [e.message] else []
    ensures RemovedOf(log + [e]) == RemovedOf(log) + if e.Dropped? || e.Handed? then [e.message] else []
  {
    assert (log + [e])[..|log|] == log;
  }

  lemma {:induction false} LoggedDrops(log: seq<Entry>, ms: seq<seq<byte>>)
    ensures AcceptedOf(log + DroppedAll(ms)) == AcceptedOf(log)
    ensures RemovedOf(log + DroppedAll(ms)) == RemovedOf(log) + ms
    decreases ms
  {
    if ms == [] {
      assert log + DroppedAll(ms) == log;
    } else {
      Logged(log, Dropped(ms[0]));
      LoggedDrops(log + [Dropped(ms[0])], ms[1..]);
      Assoc(log, [Dropped(ms[0])], DroppedAll(ms[1..]));
      Assoc(RemovedOf(log), [ms[0]], ms[1..]);
      assert [ms[0]] + ms[1..] == ms;
    }
  }

  /** Each accepted message is, in order of acceptance, one that left the queue or one still in it, and fits. */
  ghost predicate Accounted(log: seq<Entry>, msgs: seq<seq<byte>>, bufSize: nat) {
    && AcceptedOf(log) == RemovedOf(log) + msgs
    && forall i :: 0 <= i < |msgs| ==> |msgs[i]| <= bufSize
  }

  lemma AccountedPut(log: seq<Entry>, msgs: seq<seq<byte>>, bufSize: nat, packet: seq<byte>)
    requires Accounted(log, msgs, bufSize) && |packet| <= bufSize
    ensures Accounted(log + [Accepted(packet)], msgs + [packet], bufSize)
  {
    Logged(log, Accepted(packet));
    Assoc(RemovedOf(log), msgs, [packet]);
  }

  lemma AccountedDrop(log: seq<Entry>, msgs: seq<seq<byte>>, bufSize: nat, n: nat)
    requires Accounted(log, msgs, bufSize) && n <= |msgs|
    ensures Accounted(log + DroppedAll(msgs[..n]), msgs[n..], bufSize)
  {
    LoggedDrops(log, msgs[..n]);
    Assoc(RemovedOf(log), msgs[..n], msgs[n..]);
    assert msgs[..n] + msgs[n..] == msgs;
  }

  lemma AccountedSend(log: seq<Entry>, msgs: seq<seq<byte>>, bufSize: nat)
    requires Accounted(log, msgs, bufSize) && msgs != []
    ensures Cut(msgs[0], bufSize) == msgs[0]
    ensures Accounted(log + [Handed(msgs[0])], msgs[1..], bufSize)
  {
    Logged(log, Handed(msgs[0]));
    Assoc(RemovedOf(log), [msgs[0]], msgs[1..]);
    assert [msgs[0]] + msgs[1..] == msgs;
  }

  // ---------- The invariant ----------

  ghost predicate QueueInv(cfg: Config, s: State) {
    Sound(cfg, s) && Accounted(s.log, Messages(s.segs), cfg.bufSize)
  }

  ghost predicate TimerInv(cfg: Config, s: State) {
    && s.sendTimeout <= MQTT_SEND_TIMEOUT
    && s.reconnectTick <= MQTT_RECONNECT_TIMEOUT
    && (s.conn == MqttData ==> s.keepAliveTick <= cfg.Keepalive())
    && (s.conn == MqttConnectSending && cfg.ConnectFits() ==> s.pendingType == CONNECT)
  }

  /** What the overflow loop leaves, in terms of how many messages it drops. */
  lemma LoopOutcome(segs: seq<Segment>, size: nat, packet: seq<byte>)
    requires AllOk(segs) && Used(segs) <= size
    ensures
      var (end, ok) := Overflow.PutDropping(segs, size, packet);
      && AllOk(end) && Used(end) <= size
      && Messages(end) == Messages(segs)[DropCount(segs, size, packet)..] + if ok then [packet] else []
  {
    Overflow.PutDroppingKeeps(segs, size, packet);
    Overflow.OverflowOutcome(segs, size, packet);
    var (end, ok) := Overflow.PutDropping(segs, size, packet);
    var left := Messages(segs)[DropCount(segs, size, packet)..];
    if ok {
      assert Messages(end) == left + [packet];
    } else {
      assert Messages(end) == [] == left;
    }
  }

  lemma AccountedLoop(log: seq<Entry>, msgs: seq<seq<byte>>, bufSize: nat, n: nat, packet: seq<byte>, ok: bool)
    requires Accounted(log, msgs, bufSize) && n <= |msgs| && |packet| <= bufSize
    ensures Accounted(log + DroppedAll(msgs[..n]) + (if ok then [Accepted(packet)] else []),
                      msgs[n..] + (if ok then [packet] else []), bufSize)
  {
    var after := log + DroppedAll(msgs[..n]);
    AccountedDrop(log, msgs, bufSize, n);
    if ok {
      AccountedPut(after, msgs[n..], bufSize, packet);
    } else {
      assert after + [] == after && msgs[n..] + [] == msgs[n..];
    }
  }

  lemma EnqueueKeeps(cfg: Config, s: State, packet: seq<byte>)
    requires QueueInv(cfg, s) && |packet| <= cfg.bufSize
    ensures QueueInv(cfg, Enqueue(cfg, s, packet))
  {
    LoopOutcome(s.segs, cfg.queueSize, packet);
    AccountedLoop(s.log, Messages(s.segs), cfg.bufSize, DropCount(s.segs, cfg.queueSize, packet), packet,
                  Overflow.PutDropping(s.segs, cfg.queueSize, packet).1);
  }

  lemma AccountedRefusal(log: seq<Entry>, msgs: seq<seq<byte>>, bufSize: nat, packet: seq<byte>)
    requires Accounted(log, msgs, bufSize)
    ensures Accounted(log + [Refused(packet)], msgs, bufSize)
  {
    Logged(log, Refused(packet));
  }

  lemma OfferKeeps(cfg: Config, s: State, packet: seq<byte>)
    requires QueueInv(cfg, s) && |packet| <= cfg.bufSize
    ensures QueueInv(cfg, Offer(cfg, s, packet))
  {
    OfferSound(cfg, s, packet);
    AfterPutBytes(s.segs, cfg.queueSize, packet);
    if Fits(s.segs, cfg.queueSize, packet) {
      AccountedPut(s.log, Messages(s.segs), cfg.bufSize, packet);
    } else {
      AccountedRefusal(s.log, Messages(s.segs), cfg.bufSize, packet);
    }
  }

  /** Everything but the queue, the log and the id counter is the same. */
  ghost predicate SameControl(s: State, t: State) {
    && s.conn == t.conn && s.keepAliveTick == t.keepAliveTick && s.reconnectTick == t.reconnectTick
    && s.sendTimeout == t.sendTimeout && s.pendingType == t.pendingType
  }

  lemma AnswerKeeps(cfg: Config, s: State, typ: int, qos: int, id: nat)
    requires QueueInv(cfg, s)
    ensures QueueInv(cfg, Answer(cfg, s, typ, qos, id))
    ensures SameControl(s, Answer(cfg, s, typ, qos, id))
  {
    var built := BuildAck(cfg.bufSize, s.counter, typ, qos, id);
    OfferKeeps(cfg, s.(counter := built.counter), built.packet);
  }

  lemma DeliverKeeps(cfg: Config, s: State, topic: seq<byte>, data: seq<byte>)
    requires QueueInv(cfg, s)
    ensures QueueInv(cfg, s.(log := s.log + [Delivered(topic, data)]))
  {
    Logged(s.log, Delivered(topic, data));
  }

  /** Handling a packet in the data state touches only the queue. */
  lemma OnPacketKeeps(cfg: Config, s: State, p: Inbound)
    requires QueueInv(cfg, s) && p.WellFormed() && cfg.bufSize >= 3
    ensures QueueInv(cfg, OnPacket(cfg, s, p))
    ensures SameControl(s, OnPacket(cfg, s, p))
  {
    match p
    case InPublish(_, qos, _, topic, id, data) =>
      if qos == 1 {
        AnswerKeeps(cfg, s, PUBACK, 0, id);
        DeliverKeeps(cfg, Answer(cfg, s, PUBACK, 0, id), topic, data);
      } else if qos == 2 {
        AnswerKeeps(cfg, s, PUBREC, 0, id);
        DeliverKeeps(cfg, Answer(cfg, s, PUBREC, 0, id), topic, data);
      } else {
        DeliverKeeps(cfg, s, topic, data);
      }
    case InOther(typ, _, _) =>
      if typ == PUBREC {
        AnswerKeeps(cfg, s, PUBREL, 1, p.AckId());
      } else if typ == PUBREL {
        AnswerKeeps(cfg, s, PUBCOMP, 0, p.AckId());
      } else if typ == PINGREQ {
        OfferKeeps(cfg, s, BuildEmpty(s.counter, PINGRESP).packet);
      }
  }

  lemma {:induction false} EachPacketKeeps(cfg: Config, s: State, ps: seq<Inbound>)
    requires QueueInv(cfg, s) && AllWellFormed(ps) && cfg.bufSize >= 3
    ensures QueueInv(cfg, EachPacket(cfg, s, ps))
    ensures SameControl(s, EachPacket(cfg, s, ps))
    decreases |ps|
  {
    if ps != [] {
      OnPacketKeeps(cfg, s, ps[0]);
      EachPacketKeeps(cfg, OnPacket(cfg, s, ps[0]), ps[1..]);
    }
  }

  /** A chunk resets the keepalive counter and may end the wait for a CONNACK; the rest is queueing. */
  lemma OnReceiveKeeps(cfg: Config, s: State, ps: seq<Inbound>)
    requires QueueInv(cfg, s) && AllWellFormed(ps) && cfg.bufSize >= 3
    ensures QueueInv(cfg, OnReceive(cfg, s, ps))
    ensures
      var s1 := s.(keepAliveTick := 0);
      || SameControl(s1, OnReceive(cfg, s, ps))
      || (s.conn == MqttConnectSending && Connack(Receive(ps))
          && SameControl(s1.(conn := MqttData), OnReceive(cfg, s, ps)))
  {
    if (s.conn == MqttData || s.conn == MqttKeepaliveSend) && ps != [] && |EncodeAll(ps)| < cfg.bufSize {
      HandledWellFormed(ps);
      EachPacketKeeps(cfg, s.(keepAliveTick := 0), Handled(ps));
    }
  }

  lemma OnTaskKeeps(cfg: Config, s: State, sendOk: bool, stale: nat)
    requires QueueInv(cfg, s) && TimerInv(cfg, s)
    ensures QueueInv(cfg, OnTask(cfg, s, sendOk, stale))
    ensures TimerInv(cfg, OnTask(cfg, s, sendOk, stale))
  {
    if Sending(s) {
      AccountedSend(s.log, Messages(s.segs), cfg.bufSize);
      RestMessages(s.segs);
      Overflow.ActKeeps(s.segs, cfg.queueSize, Overflow.Get(0));
    }
  }

  lemma EnqueueControl(cfg: Config, s: State, packet: seq<byte>)
    requires Sound(cfg, s)
    ensures SameControl(s, Enqueue(cfg, s, packet))
  {
  }

  lemma PublishKeeps(cfg: Config, s: State, topic: Option<seq<byte>>, data: seq<byte>, qos: int, retain: int)
    requires QueueInv(cfg, s)
    ensures QueueInv(cfg, OnPublish(cfg, s, topic, data, qos, retain))
    ensures SameControl(s, OnPublish(cfg, s, topic, data, qos, retain))
  {
    var built := BuildPublish(cfg.bufSize, s.counter, topic, data, qos, retain);
    EnqueueKeeps(cfg, s.(counter := built.counter), built.packet);
    EnqueueControl(cfg, s.(counter := built.counter), built.packet);
  }

  lemma SubscribeKeeps(cfg: Config, s: State, topic: Option<seq<byte>>, qos: int)
    requires QueueInv(cfg, s)
    ensures QueueInv(cfg, OnSubscribe(cfg, s, topic, qos))
    ensures SameControl(s, OnSubscribe(cfg, s, topic, qos))
  {
    var built := BuildSubscribe(cfg.bufSize, s.counter, topic, qos);
    EnqueueKeeps(cfg, s.(counter := built.counter), built.packet);
    EnqueueControl(cfg, s.(counter := built.counter), built.packet);
  }

  lemma UnsubscribeKeeps(cfg: Config, s: State, topic: Option<seq<byte>>)
    requires QueueInv(cfg, s)
    ensures QueueInv(cfg, OnUnsubscribe(cfg, s, topic))
    ensures SameControl(s, OnUnsubscribe(cfg, s, topic))
  {
    var built := BuildUnsubscribe(cfg.bufSize, s.counter, topic);
    EnqueueKeeps(cfg, s.(counter := built.counter), built.packet);
    EnqueueControl(cfg, s.(counter := built.counter), built.packet);
  }

  lemma PingKeeps(cfg: Config, s: State)
    requires QueueInv(cfg, s) && cfg.bufSize >= 3
    ensures QueueInv(cfg, OnPing(cfg, s)) && SameControl(s, OnPing(cfg, s))
  {
    EnqueueKeeps(cfg, s, BuildEmpty(s.counter, PINGREQ).packet);
    EnqueueControl(cfg, s, BuildEmpty(s.counter, PINGREQ).packet);
  }

  lemma UserCallKeeps(cfg: Config, s: State, e: Event)
    requires QueueInv(cfg, s) && Queues(e) && cfg.bufSize >= 3
    ensures QueueInv(cfg, OnCall(cfg, s, e)) && SameControl(s, OnCall(cfg, s, e))
  {
    match e
    case UserPublish(topic, data, qos, retain) => PublishKeeps(cfg, s, topic, data, qos, retain);
    case UserSubscribe(topic, qos) => SubscribeKeeps(cfg, s, topic, qos);
    case UserUnsubscribe(topic) => UnsubscribeKeeps(cfg, s, topic);
    case UserPing => PingKeeps(cfg, s);
  }

  lemma ControlKeeps(cfg: Config, s: State, e: Event)
    requires TimerInv(cfg, s) && Controls(e)
    ensures TimerInv(cfg, OnControl(cfg, s, e))
    ensures OnControl(cfg, s, e).segs == s.segs && OnControl(cfg, s, e).log == s.log
  {
  }

  lemma ReceiveKeepsTimers(cfg: Config, s: State, ps: seq<Inbound>)
    requires QueueInv(cfg, s) && TimerInv(cfg, s) && AllWellFormed(ps) && cfg.bufSize >= 3
    ensures TimerInv(cfg, OnReceive(cfg, s, ps))
  {
    OnReceiveKeeps(cfg, s, ps);
  }

  /** Every step keeps the invariant. */
  lemma HandleKeeps(cfg: Config, s: State, e: Event)
    requires QueueInv(cfg, s) && TimerInv(cfg, s) && Possible(e) && cfg.bufSize >= 3
    ensures QueueInv(cfg, Handle(cfg, s, e))
    ensures TimerInv(cfg, Handle(cfg, s, e))
  {
    if Queues(e) {
      UserCallKeeps(cfg, s, e);
    } else if e.Receive? {
      OnReceiveKeeps(cfg, s, e.packets);
      ReceiveKeepsTimers(cfg, s, e.packets);
    } else if e.Task? {
      OnTaskKeeps(cfg, s, e.sendOk, e.stale);
    } else {
      ControlKeeps(cfg, s, e);
    }
  }

  // ---------- Runs ----------

  ghost predicate AllPossible(evs: seq<Event>) {
    forall i :: 0 <= i < |evs| ==> Possible(evs[i])
  }

  /**
   * The client after a run. Conservation, order and the timer bounds hold of every run: the accepted messages are
   * exactly, and in this order, those that left the queue followed by those still in it.
   */
  ghost function Run(cfg: Config, evs: seq<Event>): (s: State)
    requires AllPossible(evs) && cfg.bufSize >= 3
    ensures QueueInv(cfg, s) && TimerInv(cfg, s)
  {
    if evs == [] then INITIAL
    else
      var s := Run(cfg, evs[..|evs| - 1]);
      HandleKeeps(cfg, s, evs[|evs| - 1]);
      Handle(cfg, s, evs[|evs| - 1])
  }

  lemma RunExtends(cfg: Config, past: seq<Event>, e: Event)
    requires AllPossible(past) && Possible(e) && cfg.bufSize >= 3
    ensures AllPossible(past + [e])
    ensures Run(cfg, past + [e]) == Handle(cfg, Run(cfg, past), e)
  {
    assert (past + [e])[..|past|] == past;
  }

  lemma RunStep(cfg: Config, evs: seq<Event>, k: nat)
    requires AllPossible(evs) && cfg.bufSize >= 3 && k < |evs|
    ensures AllPossible(evs[..k]) && AllPossible(evs[..k + 1])
    ensures Run(cfg, evs[..k + 1]) == Handle(cfg, Run(cfg, evs[..k]), evs[k])
  {
    assert evs[..k + 1][..k] == evs[..k];
  }

  // ---------- Sessions ----------

  predicate Teardown(e: Event) {
    e.UserConnect? || e.UserDisconnect? || e.UserDelete? || e.DnsFailed? || (e.DnsFound? && e.connects)
    || e.TcpDisconnectedCb? || e.TcpReconnectCb? || e.TcpConnectedCb?
  }

  predicate Connack(e: Event) {
    e.Receive? && e.packets != [] && e.packets[0].Type() == CONNACK
  }

  /** The step ends a session: a teardown, or a keepalive that cannot be sent. */
  predicate Ends(s: State, e: Event) {
    Teardown(e) || (s.conn == MqttKeepaliveSend && e.Task? && !e.sendOk)
  }

  /** A TCP connect at `i`, and no step since then that ends a session. */
  ghost predicate ConnectedSince(cfg: Config, evs: seq<Event>, i: nat)
    requires AllPossible(evs) && cfg.bufSize >= 3
  {
    i < |evs| &&
    var n := |evs| - 1;
    if i == n then evs[n].TcpConnectedCb?
    else ConnectedSince(cfg, evs[..n], i) && !Ends(Run(cfg, evs[..n]), evs[n])
  }

  ghost predicate TcpUp(cfg: Config, evs: seq<Event>)
    requires AllPossible(evs) && cfg.bufSize >= 3
  {
    exists i: nat :: ConnectedSince(cfg, evs, i)
  }

  /** A TCP connect, then a CONNACK, and nothing since the connect that ends a session. */
  ghost predicate SessionUp(cfg: Config, evs: seq<Event>)
    requires AllPossible(evs) && cfg.bufSize >= 3
  {
    exists i: nat, j: nat :: ConnectedSince(cfg, evs, i) && i < j < |evs| && Connack(evs[j])
  }

  lemma UpStays(cfg: Config, evs: seq<Event>)
    requires AllPossible(evs) && cfg.bufSize >= 3 && evs != []
    requires !Ends(Run(cfg, evs[..|evs| - 1]), evs[|evs| - 1])
    ensures TcpUp(cfg, evs[..|evs| - 1]) ==> TcpUp(cfg, evs)
    ensures TcpUp(cfg, evs[..|evs| - 1]) && Connack(evs[|evs| - 1]) ==> SessionUp(cfg, evs)
    ensures SessionUp(cfg, evs[..|evs| - 1]) ==> SessionUp(cfg, evs)
  {
    var n := |evs| - 1;
    var before := evs[..n];
    if i: nat :| ConnectedSince(cfg, before, i) {
      assert ConnectedSince(cfg, evs, i);
      if Connack(evs[n]) {
        assert i < n < |evs|;
      }
    }
    if i: nat, j: nat :| ConnectedSince(cfg, before, i) && i < j < n && Connack(before[j]) {
      assert ConnectedSince(cfg, evs, i) && Connack(evs[j]);
    }
  }

  /** The client takes itself to be in a session, or to be waiting for its CONNACK, only when it is. */
  lemma {:induction false} SessionSafety(cfg: Config, evs: seq<Event>)
    requires AllPossible(evs) && cfg.bufSize >= 3
    ensures
      var conn := Run(cfg, evs).conn;
      && (conn == MqttConnectSending ==> TcpUp(cfg, evs))
      && (conn == MqttData || conn == MqttKeepaliveSend ==> SessionUp(cfg, evs))
    decreases |evs|
  {
    if evs != [] {
      var n := |evs| - 1;
      SessionSafety(cfg, evs[..n]);
      ConnAfter(cfg, Run(cfg, evs[..n]), evs[n]);
      if evs[n].TcpConnectedCb? {
        assert ConnectedSince(cfg, evs, n);
      } else if !Ends(Run(cfg, evs[..n]), evs[n]) {
        UpStays(cfg, evs);
      }
    }
  }

  predicate InSession(conn: ConnState) {
    conn == MqttData || conn == MqttKeepaliveSend
  }

  /** How a step can leave the client in, or let it enter, the three connected states. */
  ghost predicate Entered(s: State, e: Event, conn: ConnState) {
    && (e.TcpConnectedCb? ==> conn == MqttConnectSending)
    && (conn == MqttConnectSending && !e.TcpConnectedCb? ==> s.conn == MqttConnectSending && !Ends(s, e))
    && (InSession(conn) ==> !Ends(s, e) && (InSession(s.conn) || (s.conn == MqttConnectSending && Connack(e))))
  }

  lemma ConnAfterControl(cfg: Config, s: State, e: Event)
    requires Controls(e)
    ensures Entered(s, e, OnControl(cfg, s, e).conn)
  {
  }

  lemma ConnAfterTask(cfg: Config, s: State, e: Event)
    requires e.Task?
    ensures Entered(s, e, OnTask(cfg, s, e.sendOk, e.stale).conn)
  {
  }

  lemma ConnAfterCall(cfg: Config, s: State, e: Event)
    requires QueueInv(cfg, s) && Queues(e) && cfg.bufSize >= 3
    ensures Entered(s, e, OnCall(cfg, s, e).conn)
  {
    var t := OnCall(cfg, s, e);
    UserCallKeeps(cfg, s, e);
    assert t.conn == s.conn;
    CallEnters(s, e);
  }

  lemma CallEnters(s: State, e: Event)
    requires Queues(e)
    ensures Entered(s, e, s.conn)
  {
  }

  lemma ConnAfterReceive(cfg: Config, s: State, e: Event)
    requires QueueInv(cfg, s) && e.Receive? && Possible(e) && cfg.bufSize >= 3
    ensures Entered(s, e, OnReceive(cfg, s, e.packets).conn)
  {
    OnReceiveKeeps(cfg, s, e.packets);
  }

  lemma ConnAfter(cfg: Config, s: State, e: Event)
    requires QueueInv(cfg, s) && Possible(e) && cfg.bufSize >= 3
    ensures Entered(s, e, Handle(cfg, s, e).conn)
  {
    if Queues(e) {
      ConnAfterCall(cfg, s, e);
    } else if e.Receive? {
      ConnAfterReceive(cfg, s, e);
    } else if e.Task? {
      ConnAfterTask(cfg, s, e);
    } else {
      ConnAfterControl(cfg, s, e);
    }
  }

  /** While a CONNACK is awaited the pending type is CONNECT, so a CONNACK is never an invalid packet. */
  lemma NoInvalidPacket(cfg: Config, evs: seq<Event>, ps: seq<Inbound>)
    requires AllPossible(evs) && cfg.bufSize >= 3 && cfg.ConnectFits()
    requires Run(cfg, evs).conn == MqttConnectSending
    requires AllWellFormed(ps) && ps != [] && |EncodeAll(ps)| < cfg.bufSize && ps[0].Type() == CONNACK
    ensures OnReceive(cfg, Run(cfg, evs), ps).conn == MqttData
  {
  }

  // ---------- What is sent ----------

  /** The messages handed to espconn_send out of the queue. */
  function HandedOf(log: seq<Entry>): seq<seq<byte>> {
    if log == [] then []
    else
      var last := log[|log| - 1];
      HandedOf(log[..|log| - 1]) + if last.Handed? then [last.message] else []
  }

  lemma LoggedHanded(log: seq<Entry>, e: Entry)
    ensures HandedOf(log + [e]) == HandedOf(log) + if e.Handed? then [e.message] else []
  {
    assert (log + [e])[..|log|] == log;
  }

  lemma {:induction false} DropsHandNothing(log: seq<Entry>, ms: seq<seq<byte>>)
    ensures HandedOf(log + DroppedAll(ms)) == HandedOf(log)
    decreases ms
  {
    if ms == [] {
      assert log + DroppedAll(ms) == log;
    } else {
      LoggedHanded(log, Dropped(ms[0]));
      DropsHandNothing(log + [Dropped(ms[0])], ms[1..]);
      Assoc(log, [Dropped(ms[0])], DroppedAll(ms[1..]));
    }
  }

  lemma EnqueueHandsNothing(cfg: Config, s: State, packet: seq<byte>)
    requires Sound(cfg, s)
    ensures HandedOf(Enqueue(cfg, s, packet).log) == HandedOf(s.log)
  {
    var dropped := Messages(s.segs)[..DropCount(s.segs, cfg.queueSize, packet)];
    DropsHandNothing(s.log, dropped);
    LoggedHanded(s.log + DroppedAll(dropped), Accepted(packet));
    assert s.log + DroppedAll(dropped) + [] == s.log + DroppedAll(dropped);
  }

  lemma CallHandsNothing(cfg: Config, s: State, e: Event)
    requires Sound(cfg, s) && Queues(e)
    ensures HandedOf(OnCall(cfg, s, e).log) == HandedOf(s.log)
  {
    match e
    case UserPublish(topic, data, qos, retain) =>
      var built := BuildPublish(cfg.bufSize, s.counter, topic, data, qos, retain);
      EnqueueHandsNothing(cfg, s.(counter := built.counter), built.packet);
    case UserSubscribe(topic, qos) =>
      var built := BuildSubscribe(cfg.bufSize, s.counter, topic, qos);
      EnqueueHandsNothing(cfg, s.(counter := built.counter), built.packet);
    case UserUnsubscribe(topic) =>
      var built := BuildUnsubscribe(cfg.bufSize, s.counter, topic);
      EnqueueHandsNothing(cfg, s.(counter := built.counter), built.packet);
    case UserPing => EnqueueHandsNothing(cfg, s, BuildEmpty(s.counter, PINGREQ).packet);
  }

  lemma OfferHandsNothing(cfg: Config, s: State, packet: seq<byte>)
    requires Sound(cfg, s)
    ensures HandedOf(Offer(cfg, s, packet).log) == HandedOf(s.log)
  {
    LoggedHanded(s.log, if Fits(s.segs, cfg.queueSize, packet) then Accepted(packet) else Refused(packet));
  }

  lemma AnswerHandsNothing(cfg: Config, s: State, typ: int, qos: int, id: nat)
    requires Sound(cfg, s)
    ensures HandedOf(Answer(cfg, s, typ, qos, id).log) == HandedOf(s.log)
  {
    var built := BuildAck(cfg.bufSize, s.counter, typ, qos, id);
    OfferHandsNothing(cfg, s.(counter := built.counter), built.packet);
  }

  lemma PacketHandsNothing(cfg: Config, s: State, p: Inbound)
    requires Sound(cfg, s) && p.WellFormed()
    ensures HandedOf(OnPacket(cfg, s, p).log) == HandedOf(s.log)
  {
    match p
    case InPublish(_, qos, _, topic, id, data) =>
      AnswerHandsNothing(cfg, s, PUBACK, 0, id);
      AnswerHandsNothing(cfg, s, PUBREC, 0, id);
      var s1 := if qos == 1 then Answer(cfg, s, PUBACK, 0, id)
                else if qos == 2 then Answer(cfg, s, PUBREC, 0, id) else s;
      LoggedHanded(s1.log, Delivered(topic, data));
    case InOther(typ, _, _) =>
      if typ == PUBREC {
        AnswerHandsNothing(cfg, s, PUBREL, 1, p.AckId());
      } else if typ == PUBREL {
        AnswerHandsNothing(cfg, s, PUBCOMP, 0, p.AckId());
      } else if typ == PINGREQ {
        OfferHandsNothing(cfg, s, BuildEmpty(s.counter, PINGRESP).packet);
      }
  }

  lemma {:induction false} PacketsHandNothing(cfg: Config, s: State, ps: seq<Inbound>)
    requires Sound(cfg, s) && AllWellFormed(ps)
    ensures HandedOf(EachPacket(cfg, s, ps).log) == HandedOf(s.log)
    decreases |ps|
  {
    if ps != [] {
      OnPacketSound(cfg, s, ps[0]);
      PacketHandsNothing(cfg, s, ps[0]);
      PacketsHandNothing(cfg, OnPacket(cfg, s, ps[0]), ps[1..]);
    }
  }

  lemma ChunkHandsNothing(cfg: Config, s: State, ps: seq<Inbound>)
    requires Sound(cfg, s) && AllWellFormed(ps)
    ensures HandedOf(OnReceive(cfg, s, ps).log) == HandedOf(s.log)
  {
    if InSession(s.conn) && ps != [] && |EncodeAll(ps)| < cfg.bufSize {
      HandledWellFormed(ps);
      PacketsHandNothing(cfg, s.(keepAliveTick := 0), Handled(ps));
    }
  }

  /**
   * The task hands over the oldest message, whole, exactly when it is in MQTT_DATA, the send timeout is over and
   * there is one, and then starts the timeout again.
   */
  lemma TaskHands(cfg: Config, s: State, sendOk: bool, stale: nat)
    requires QueueInv(cfg, s)
    ensures
      var t := OnTask(cfg, s, sendOk, stale);
      var sends := s.conn == MqttData && s.sendTimeout == 0 && Messages(s.segs) != [];
      && HandedOf(t.log) == HandedOf(s.log) + (if sends then [Messages(s.segs)[0]] else [])
      && (sends ==> t.sendTimeout == 5 && Messages(t.segs) == Messages(s.segs)[1..])
      && (sends && Messages(s.segs)[0] != [] ==> t.pendingType == Messages(s.segs)[0][0] / 16)
  {
    if s.conn == MqttData && s.sendTimeout == 0 && Messages(s.segs) != [] {
      var m := Messages(s.segs)[0];
      AccountedSend(s.log, Messages(s.segs), cfg.bufSize);
      assert OnTask(cfg, s, sendOk, stale).log == s.log + [Handed(m)];
      LoggedHanded(s.log, Handed(m));
      RestMessages(s.segs);
    }
  }

  /** No other event hands anything over. */
  lemma HandleHands(cfg: Config, s: State, e: Event)
    requires QueueInv(cfg, s) && Possible(e)
    ensures
      var t := Handle(cfg, s, e);
      var sends := e.Task? && s.conn == MqttData && s.sendTimeout == 0 && Messages(s.segs) != [];
      && HandedOf(t.log) == HandedOf(s.log) + (if sends then [Messages(s.segs)[0]] else [])
      && (sends ==> t.sendTimeout == 5)
  {
    if Queues(e) {
      CallHandsNothing(cfg, s, e);
    } else if e.Receive? {
      ChunkHandsNothing(cfg, s, e.packets);
    } else if e.Task? {
      TaskHands(cfg, s, e.sendOk, e.stale);
    } else {
      ControlHandsNothing(cfg, s, e);
    }
  }

  lemma ControlHandsNothing(cfg: Config, s: State, e: Event)
    requires Controls(e)
    ensures OnControl(cfg, s, e).log == s.log
  {
  }

  // ---------- Pacing ----------

  function Ticks(evs: seq<Event>): nat {
    if evs == [] then 0
    else Ticks(evs[..|evs| - 1]) + if evs[|evs| - 1].Tick? then 1 else 0
  }

  /** What was handed to espconn_send out of the queue before position `k` of the run. */
  ghost function HandedAt(cfg: Config, evs: seq<Event>, k: nat): seq<seq<byte>>
    requires AllPossible(evs) && cfg.bufSize >= 3 && k <= |evs|
  {
    assert AllPossible(evs[..k]);
    HandedOf(Run(cfg, evs[..k]).log)
  }

  /** The step at position `k` hands something over. */
  ghost predicate SendsAt(cfg: Config, evs: seq<Event>, k: nat)
    requires AllPossible(evs) && cfg.bufSize >= 3 && k < |evs|
  {
    HandedAt(cfg, evs, k + 1) != HandedAt(cfg, evs, k)
  }

  lemma TicksStep(evs: seq<Event>, i: nat, m: nat)
    requires i < m < |evs|
    ensures Ticks(evs[i + 1..m + 1]) == Ticks(evs[i + 1..m]) + if evs[m].Tick? then 1 else 0
  {
    assert evs[i + 1..m + 1][..m - i - 1] == evs[i + 1..m];
  }

  ghost function TimeoutAt(cfg: Config, evs: seq<Event>, m: nat): nat
    requires AllPossible(evs) && cfg.bufSize >= 3 && m <= |evs|
  {
    assert AllPossible(evs[..m]);
    Run(cfg, evs[..m]).sendTimeout
  }

  /** A step that sends is one of the task, with the timeout at 0 before and at 5 after it. */
  lemma SendStep(cfg: Config, evs: seq<Event>, k: nat)
    requires AllPossible(evs) && cfg.bufSize >= 3 && k < |evs| && SendsAt(cfg, evs, k)
    ensures evs[k].Task? && TimeoutAt(cfg, evs, k) == 0 && TimeoutAt(cfg, evs, k + 1) == 5
  {
    RunStep(cfg, evs, k);
    HandleHands(cfg, Run(cfg, evs[..k]), evs[k]);
  }

  lemma TimeoutStep(cfg: Config, evs: seq<Event>, m: nat)
    requires AllPossible(evs) && cfg.bufSize >= 3 && m < |evs| && !evs[m].SentCb?
    ensures TimeoutAt(cfg, evs, m + 1) + (if evs[m].Tick? then 1 else 0) >= TimeoutAt(cfg, evs, m)
  {
    RunStep(cfg, evs, m);
    TimeoutAfter(cfg, Run(cfg, evs[..m]), evs[m]);
  }

  /** A counter that only ticks take down, and only by one, outlasts as many ticks as it was set to. */
  lemma {:induction false} CountDown(evs: seq<Event>, timeouts: seq<nat>, i: nat, m: nat)
    requires i < m <= |evs| < |timeouts|
    requires forall k :: i < k < m ==> timeouts[k + 1] + (if evs[k].Tick? then 1 else 0) >= timeouts[k]
    ensures timeouts[m] + Ticks(evs[i + 1..m]) >= timeouts[i + 1]
    decreases m - i
  {
    if m > i + 1 {
      CountDown(evs, timeouts, i, m - 1);
      TicksStep(evs, i, m - 1);
    }
  }

  /** The timeout before each event of the run and after the last. */
  lemma Timeouts(cfg: Config, evs: seq<Event>) returns (t: seq<nat>)
    requires AllPossible(evs) && cfg.bufSize >= 3
    ensures |t| == |evs| + 1
    ensures forall m :: 0 <= m <= |evs| ==> t[m] == TimeoutAt(cfg, evs, m)
    ensures forall k :: 0 <= k < |evs| && !evs[k].SentCb? ==> t[k + 1] + (if evs[k].Tick? then 1 else 0) >= t[k]
  {
    t := seq(|evs| + 1, m requires 0 <= m <= |evs| => TimeoutAt(cfg, evs, m));
    forall k | 0 <= k < |evs| && !evs[k].SentCb?
      ensures t[k + 1] + (if evs[k].Tick? then 1 else 0) >= t[k]
    {
      TimeoutStep(cfg, evs, k);
    }
  }

  lemma TimeoutAfter(cfg: Config, s: State, e: Event)
    requires QueueInv(cfg, s) && TimerInv(cfg, s) && Possible(e) && cfg.bufSize >= 3
    requires !e.SentCb?
    ensures Handle(cfg, s, e).sendTimeout + (if e.Tick? then 1 else 0) >= s.sendTimeout
  {
    if Queues(e) {
      UserCallKeeps(cfg, s, e);
    } else if e.Receive? {
      OnReceiveKeeps(cfg, s, e.packets);
    }
  }

  /**
   * Between any two sends from the queue there is a sent callback or there are at least five ticks, whatever
   * keepalives, reconnects and user calls happen in between.
   */
  lemma SendPacing(cfg: Config, evs: seq<Event>, i: nat, j: nat)
    requires AllPossible(evs) && cfg.bufSize >= 3
    requires i < j < |evs| && SendsAt(cfg, evs, i) && SendsAt(cfg, evs, j)
    ensures (exists k :: i < k < j && evs[k].SentCb?) || Ticks(evs[i + 1..j]) >= 5
  {
    var timeouts := Timeouts(cfg, evs);
    SendStep(cfg, evs, i);
    SendStep(cfg, evs, j);
    if forall k :: i < k < j ==> !evs[k].SentCb? {
      CountDown(evs, timeouts, i, j);
    }
  }

  // ---------- A coalesced chunk ----------

  /** The messages offered to the queue, whether or not it had room. */
  function OfferedOf(log: seq<Entry>): seq<seq<byte>> {
    if log == [] then []
    else
      var last := log[|log| - 1];
      OfferedOf(log[..|log| - 1]) + if last.Accepted? || last.Refused? then [last.message] else []
  }

  function DeliveredOf(log: seq<Entry>): seq<(seq<byte>, seq<byte>)> {
    if log == [] then []
    else
      var last := log[|log| - 1];
      DeliveredOf(log[..|log| - 1]) + if last.Delivered? then [(last.topic, last.data)] else []
  }

  lemma LoggedToo(log: seq<Entry>, e: Entry)
    ensures OfferedOf(log + [e]) == OfferedOf(log) + if e.Accepted? || e.Refused? then [e.message] else []
    ensures DeliveredOf(log + [e]) == DeliveredOf(log) + if e.Delivered? then [(e.topic, e.data)] else []
  {
    assert (log + [e])[..|log|] == log;
  }

  /** The answer section 4.3 of MQTT 3.1.1 asks for, with the id of the packet answered. */
  function AnswerTo(p: Inbound): seq<seq<byte>>
    requires p.InOther? && p.typ in {PUBREC, PUBREL} ==> |p.body| >= 2
  {
    match p
    case InPublish(_, qos, _, _, id, _) =>
      if qos == 1 then [Packet(PUBACK, 0, 0, 0, Be16(id))]
      else if qos == 2 then [Packet(PUBREC, 0, 0, 0, Be16(id))]
      else []
    case InOther(typ, _, _) =>
      if typ == PUBREC then [Packet(PUBREL, 0, 1, 0, Be16(p.AckId()))]
      else if typ == PUBREL then [Packet(PUBCOMP, 0, 0, 0, Be16(p.AckId()))]
      else if typ == PINGREQ then [Packet(PINGRESP, 0, 0, 0, [])]
      else []
  }

  ghost function Answers(ps: seq<Inbound>): seq<seq<byte>>
    requires AllWellFormed(ps)
  {
    if ps == [] then [] else AnswerTo(ps[0]) + Answers(ps[1..])
  }

  function Deliveries(ps: seq<Inbound>): seq<(seq<byte>, seq<byte>)> {
    if ps == [] then []
    else (if ps[0].InPublish? then [(ps[0].topic, ps[0].data)] else []) + Deliveries(ps[1..])
  }

  lemma OfferLogs(cfg: Config, s: State, packet: seq<byte>)
    requires Sound(cfg, s)
    ensures OfferedOf(Offer(cfg, s, packet).log) == OfferedOf(s.log) + [packet]
    ensures DeliveredOf(Offer(cfg, s, packet).log) == DeliveredOf(s.log)
  {
    LoggedToo(s.log, if Fits(s.segs, cfg.queueSize, packet) then Accepted(packet) else Refused(packet));
  }

  lemma AnswerLogs(cfg: Config, s: State, typ: int, qos: int, id: nat)
    requires Sound(cfg, s) && cfg.bufSize >= 5 && id != 0
    ensures
      var t := Answer(cfg, s, typ, qos, id);
      && OfferedOf(t.log) == OfferedOf(s.log) + [Packet(typ, 0, qos, 0, Be16(id))]
      && DeliveredOf(t.log) == DeliveredOf(s.log)
  {
    var built := BuildAck(cfg.bufSize, s.counter, typ, qos, id);
    OfferLogs(cfg, s.(counter := built.counter), built.packet);
  }

  lemma OnPacketLogs(cfg: Config, s: State, p: Inbound)
    requires Sound(cfg, s) && p.WellFormed() && cfg.bufSize >= 5
    ensures
      var t := OnPacket(cfg, s, p);
      && OfferedOf(t.log) == OfferedOf(s.log) + AnswerTo(p)
      && DeliveredOf(t.log) == DeliveredOf(s.log) + if p.InPublish? then [(p.topic, p.data)] else []
  {
    match p
    case InPublish(_, qos, _, topic, id, data) =>
      if qos == 1 {
        AnswerLogs(cfg, s, PUBACK, 0, id);
        LoggedToo(Answer(cfg, s, PUBACK, 0, id).log, Delivered(topic, data));
      } else if qos == 2 {
        AnswerLogs(cfg, s, PUBREC, 0, id);
        LoggedToo(Answer(cfg, s, PUBREC, 0, id).log, Delivered(topic, data));
      } else {
        LoggedToo(s.log, Delivered(topic, data));
      }
    case InOther(typ, _, _) =>
      if typ == PUBREC {
        AnswerLogs(cfg, s, PUBREL, 1, p.AckId());
      } else if typ == PUBREL {
        AnswerLogs(cfg, s, PUBCOMP, 0, p.AckId());
      } else if typ == PINGREQ {
        OfferLogs(cfg, s, BuildEmpty(s.counter, PINGRESP).packet);
      }
  }

  /** The answer to a PUBLISH is offered before the message is delivered. */
  lemma AnswerFirst(cfg: Config, s: State, p: Inbound)
    requires Sound(cfg, s) && p.WellFormed() && p.InPublish? && cfg.bufSize >= 5
    ensures
      var t := OnPacket(cfg, s, p);
      && |t.log| == |s.log| + |AnswerTo(p)| + 1 && s.log <= t.log
      && t.log[|t.log| - 1] == Delivered(p.topic, p.data)
      && (AnswerTo(p) != [] ==> t.log[|s.log|] in {Accepted(AnswerTo(p)[0]), Refused(AnswerTo(p)[0])})
  {
  }

  /**
   * Each packet handled is handled once and in order: each PUBLISH is delivered with its own topic and payload, and
   * each packet that calls for an answer has exactly that answer, with its own id, offered to the queue.
   */
  lemma {:induction false} ChunkLogs(cfg: Config, s: State, ps: seq<Inbound>)
    requires Sound(cfg, s) && AllWellFormed(ps) && cfg.bufSize >= 5
    ensures
      var t := EachPacket(cfg, s, ps);
      && OfferedOf(t.log) == OfferedOf(s.log) + Answers(ps)
      && DeliveredOf(t.log) == DeliveredOf(s.log) + Deliveries(ps)
    decreases |ps|
  {
    if ps != [] {
      var s1 := OnPacket(cfg, s, ps[0]);
      OnPacketSound(cfg, s, ps[0]);
      OnPacketLogs(cfg, s, ps[0]);
      ChunkLogs(cfg, s1, ps[1..]);
      Assoc(OfferedOf(s.log), AnswerTo(ps[0]), Answers(ps[1..]));
      Assoc(DeliveredOf(s.log), Deliveries([ps[0]]), Deliveries(ps[1..]));
      assert Deliveries([ps[0]]) == if ps[0].InPublish? then [(ps[0].topic, ps[0].data)] else [];
    }
  }

  /** The packets handled are those up to and including the first that is not a PUBLISH. */
  lemma {:induction false} HandledIs(ps: seq<Inbound>)
    ensures Handled(ps) <= ps
    ensures forall i :: 0 <= i < |Handled(ps)| - 1 ==> ps[i].InPublish?
    ensures |Handled(ps)| < |ps| ==> Handled(ps) != [] && !ps[|Handled(ps)| - 1].InPublish?
  {
    if ps != [] && ps[0].InPublish? {
      HandledIs(ps[1..]);
      var n := |Handled(ps)|;
      assert Handled(ps) == [ps[0]] + Handled(ps[1..]);
      assert forall i :: 1 <= i < n ==> ps[i] == ps[1..][i - 1];
    }
  }

  /** What a chunk does to a client in a session. */
  lemma ReceiveLogs(cfg: Config, s: State, ps: seq<Inbound>)
    requires Sound(cfg, s) && AllWellFormed(ps) && cfg.bufSize >= 5
    requires (s.conn == MqttData || s.conn == MqttKeepaliveSend) && ps != [] && |EncodeAll(ps)| < cfg.bufSize
    ensures AllWellFormed(Handled(ps))
    ensures
      var t := OnReceive(cfg, s, ps);
      && OfferedOf(t.log) == OfferedOf(s.log) + Answers(Handled(ps))
      && DeliveredOf(t.log) == DeliveredOf(s.log) + Deliveries(Handled(ps))
  {
    HandledWellFormed(ps);
    ChunkLogs(cfg, s.(keepAliveTick := 0), Handled(ps));
  }

  // ---------- Sleeping ----------

  lemma TaskClears(cfg: Config, s: State, sendOk: bool, stale: nat)
    requires Messages(s.segs) == [] && s.conn == MqttData && s.sendTimeout == 0
    ensures OnTask(cfg, s, sendOk, stale).segs == []
  {
  }

  lemma AwakeOrAsleep(segs: seq<Segment>)
    requires AllOk(segs)
    ensures Used(segs) == 0 <==> segs == []
    ensures Messages(segs) == [] <==> forall i :: 0 <= i < |segs| ==> segs[i].Fragment?
  {
    BytesOfNothing(segs);
    AllFragments(segs);
  }

  /**
   * goToSleep selects light sleep exactly when the ring is empty. Then no accepted message is waiting: each has been
   * handed to send or dropped. The device stays awake with no message queued exactly when the ring holds fragments
   * alone, and then only until the task next looks at the queue.
   */
  lemma LightSleepIsSafe(cfg: Config, evs: seq<Event>, sendOk: bool, stale: nat)
    requires AllPossible(evs) && cfg.bufSize >= 3
    ensures
      var s := Run(cfg, evs);
      && (Used(s.segs) == 0 ==> Messages(s.segs) == [] && AcceptedOf(s.log) == RemovedOf(s.log))
      && (Used(s.segs) > 0 && Messages(s.segs) == [] <==>
            s.segs != [] && forall i :: 0 <= i < |s.segs| ==> s.segs[i].Fragment?)
      && (Messages(s.segs) == [] && s.conn == MqttData && s.sendTimeout == 0 ==>
            OnTask(cfg, s, sendOk, stale).segs == [])
  {
    var s := Run(cfg, evs);
    AwakeOrAsleep(s.segs);
    if Messages(s.segs) == [] && s.conn == MqttData && s.sendTimeout == 0 {
      TaskClears(cfg, s, sendOk, stale);
    }
  }

  lemma {:induction false} AllFragments(segs: seq<Segment>)
    ensures Messages(segs) == [] <==> forall i :: 0 <= i < |segs| ==> segs[i].Fragment?
  {
    if segs != [] {
      AllFragments(segs[1..]);
      assert forall i :: 1 <= i < |segs| ==> segs[i] == segs[1..][i - 1];
    }
  }
}

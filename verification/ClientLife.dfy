/** How the client's connection goes on by itself: disconnecting, reconnecting, keeping alive, sending again. */
module ClientLife {
  import opened Queue
  import opened ClientSpec
  import opened ClientRuns

  // ---------- Going on from any state ----------

  ghost predicate Inv(cfg: Config, s: State) {
    QueueInv(cfg, s) && TimerInv(cfg, s) && cfg.bufSize >= 3
  }

  ghost function After(cfg: Config, s: State, evs: seq<Event>): (t: State)
    requires Inv(cfg, s) && AllPossible(evs)
    ensures Inv(cfg, t)
    decreases |evs|
  {
    if evs == [] then s
    else
      var t := After(cfg, s, evs[..|evs| - 1]);
      HandleKeeps(cfg, t, evs[|evs| - 1]);
      Handle(cfg, t, evs[|evs| - 1])
  }

  lemma LastStep(cfg: Config, s: State, evs: seq<Event>, n: nat)
    requires Inv(cfg, s) && AllPossible(evs) && |evs| == n + 1
    ensures AllPossible(evs[..n]) && After(cfg, s, evs) == Handle(cfg, After(cfg, s, evs[..n]), evs[n])
  {
  }

  lemma LastOfBoth(past: seq<Event>, evs: seq<Event>, n: nat)
    requires AllPossible(past) && AllPossible(evs) && |evs| == n + 1
    ensures AllPossible(evs[..n]) && past + evs == past + evs[..n] + [evs[n]]
  {
  }

  /** What is said of going on from a state holds of every run that reaches it. */
  lemma {:induction false} RunAfter(cfg: Config, past: seq<Event>, evs: seq<Event>)
    requires AllPossible(past) && AllPossible(evs) && cfg.bufSize >= 3
    ensures AllPossible(past + evs) && Run(cfg, past + evs) == After(cfg, Run(cfg, past), evs)
    decreases |evs|
  {
    if evs == [] {
      assert past + evs == past;
    } else {
      var n := |evs| - 1;
      LastOfBoth(past, evs, n);
      RunAfter(cfg, past, evs[..n]);
      RunExtends(cfg, past + evs[..n], evs[n]);
      LastStep(cfg, Run(cfg, past), evs, n);
    }
  }

  predicate NoTeardown(evs: seq<Event>) {
    forall i :: 0 <= i < |evs| ==> !Teardown(evs[i])
  }

  predicate NoTask(evs: seq<Event>) {
    forall i :: 0 <= i < |evs| ==> !evs[i].Task?
  }

  // ---------- Disconnecting ----------

  /** Where nothing but a teardown leads out. */
  predicate Settled(conn: ConnState) {
    conn in {TcpDisconnecting, TcpDisconnected, MqttDeleting, MqttDeleted, TcpReconnectDisconnecting, TcpConnecting}
  }

  lemma SettledStep(cfg: Config, s: State, e: Event)
    requires Inv(cfg, s) && Possible(e) && Settled(s.conn) && !Teardown(e)
    ensures Handle(cfg, s, e).conn == s.conn
  {
    if Queues(e) {
      UserCallKeeps(cfg, s, e);
    } else if e.Receive? {
      OnReceiveKeeps(cfg, s, e.packets);
    }
  }

  lemma {:induction false} StaysSettled(cfg: Config, s: State, evs: seq<Event>)
    requires Inv(cfg, s) && AllPossible(evs) && Settled(s.conn) && NoTeardown(evs)
    ensures After(cfg, s, evs).conn == s.conn
    decreases |evs|
  {
    if evs != [] {
      var n := |evs| - 1;
      StaysSettled(cfg, s, evs[..n]);
      SettledStep(cfg, After(cfg, s, evs[..n]), evs[n]);
    }
  }

  /** The state after `e`, whatever else then happens short of a teardown, and the disconnect callback. */
  ghost function Disconnected(cfg: Config, s: State, e: Event, mid: seq<Event>): State
    requires Inv(cfg, s) && Possible(e) && AllPossible(mid)
  {
    HandleKeeps(cfg, s, e);
    Handle(cfg, After(cfg, Handle(cfg, s, e), mid), TcpDisconnectedCb)
  }

  lemma AskedLeads(cfg: Config, s: State, mid: seq<Event>)
    requires Inv(cfg, s) && (s.conn == TcpDisconnecting || s.conn == MqttDeleting)
    requires AllPossible(mid) && NoTeardown(mid)
    ensures Handle(cfg, After(cfg, s, mid), TcpDisconnectedCb).conn
         == if s.conn == TcpDisconnecting then TcpDisconnected else MqttDeleted
  {
    StaysSettled(cfg, s, mid);
    CallbackEnds(cfg, After(cfg, s, mid));
  }

  lemma CallbackEnds(cfg: Config, s: State)
    requires Inv(cfg, s) && (s.conn == TcpDisconnecting || s.conn == MqttDeleting)
    ensures Handle(cfg, s, TcpDisconnectedCb).conn
         == if s.conn == TcpDisconnecting then TcpDisconnected else MqttDeleted
  {
  }

  lemma Asked(cfg: Config, s: State)
    requires Inv(cfg, s)
    ensures Inv(cfg, Handle(cfg, s, UserDisconnect)) && Handle(cfg, s, UserDisconnect).conn == TcpDisconnecting
    ensures Inv(cfg, Handle(cfg, s, UserDelete)) && Handle(cfg, s, UserDelete).conn == MqttDeleting
  {
    HandleKeeps(cfg, s, UserDisconnect);
    HandleKeeps(cfg, s, UserDelete);
  }

  /** A disconnect that was asked for ends the connection for good. */
  lemma DisconnectLeads(cfg: Config, s: State, mid: seq<Event>)
    requires Inv(cfg, s) && AllPossible(mid) && NoTeardown(mid)
    ensures Disconnected(cfg, s, UserDisconnect, mid).conn == TcpDisconnected
  {
    Asked(cfg, s);
    AskedLeads(cfg, Handle(cfg, s, UserDisconnect), mid);
  }

  /** A deletion deletes the client. */
  lemma DeleteLeads(cfg: Config, s: State, mid: seq<Event>)
    requires Inv(cfg, s) && AllPossible(mid) && NoTeardown(mid)
    ensures Disconnected(cfg, s, UserDelete, mid).conn == MqttDeleted
  {
    Asked(cfg, s);
    AskedLeads(cfg, Handle(cfg, s, UserDelete), mid);
  }

  /** Any other disconnect is made good. */
  lemma LossLeads(cfg: Config, s: State)
    requires Inv(cfg, s) && s.conn != TcpDisconnecting && s.conn != MqttDeleting
    ensures Handle(cfg, s, TcpDisconnectedCb).conn == TcpReconnectReq
  {
  }

  // ---------- Reconnecting ----------

  lemma WaitingStep(cfg: Config, s: State, e: Event)
    requires Inv(cfg, s) && Possible(e) && s.conn == TcpReconnectReq && !Teardown(e)
    ensures
      var t := Handle(cfg, s, e);
      if e.Tick? && s.reconnectTick == 5 then t.conn == TcpReconnect && t.reconnectTick == 0
      else t.conn == TcpReconnectReq && t.reconnectTick == s.reconnectTick + if e.Tick? then 1 else 0
  {
    if Queues(e) {
      UserCallKeeps(cfg, s, e);
    } else if e.Receive? {
      OnReceiveKeeps(cfg, s, e.packets);
    }
  }

  /** Before the sixth tick nothing but a teardown ends the wait. */
  lemma {:induction false} Waits(cfg: Config, s: State, evs: seq<Event>)
    requires Inv(cfg, s) && AllPossible(evs) && s.conn == TcpReconnectReq && NoTeardown(evs)
    requires s.reconnectTick + Ticks(evs) <= 5
    ensures
      var t := After(cfg, s, evs);
      t.conn == TcpReconnectReq && t.reconnectTick == s.reconnectTick + Ticks(evs)
    decreases |evs|
  {
    if evs != [] {
      var n := |evs| - 1;
      Waits(cfg, s, evs[..n]);
      LastStep(cfg, s, evs, n);
      WaitingStep(cfg, After(cfg, s, evs[..n]), evs[n]);
    }
  }

  lemma DueStep(cfg: Config, s: State, e: Event)
    requires Inv(cfg, s) && Possible(e) && s.conn == TcpReconnect && !Teardown(e) && !e.Task?
    ensures Handle(cfg, s, e).conn == TcpReconnect
  {
    if Queues(e) {
      UserCallKeeps(cfg, s, e);
    } else if e.Receive? {
      OnReceiveKeeps(cfg, s, e.packets);
    }
  }

  lemma {:induction false} StaysDue(cfg: Config, s: State, evs: seq<Event>)
    requires Inv(cfg, s) && AllPossible(evs) && s.conn == TcpReconnect && NoTeardown(evs) && NoTask(evs)
    ensures After(cfg, s, evs).conn == TcpReconnect
    decreases |evs|
  {
    if evs != [] {
      var n := |evs| - 1;
      StaysDue(cfg, s, evs[..n]);
      DueStep(cfg, After(cfg, s, evs[..n]), evs[n]);
    }
  }

  /**
   * A client that wants to reconnect does so at the sixth tick, whatever else happens short of a teardown: the next
   * activation of the task after that connects, with both tick counters at 0.
   */
  lemma Reconnects(cfg: Config, s: State, mid: seq<Event>, rest: seq<Event>, sendOk: bool, stale: nat)
    requires Inv(cfg, s) && s.conn == TcpReconnectReq
    requires AllPossible(mid) && NoTeardown(mid) && s.reconnectTick + Ticks(mid) == 5
    requires AllPossible(rest) && NoTeardown(rest) && NoTask(rest)
    ensures
      var due := Handle(cfg, After(cfg, s, mid), Tick);
      && Inv(cfg, due)
      && var t := Handle(cfg, After(cfg, due, rest), Task(sendOk, stale));
         t.conn == TcpConnecting && t.reconnectTick == 0 && t.keepAliveTick == 0
  {
    var waiting := After(cfg, s, mid);
    Waits(cfg, s, mid);
    WaitingStep(cfg, waiting, Tick);
    HandleKeeps(cfg, waiting, Tick);
    StaysDue(cfg, Handle(cfg, waiting, Tick), rest);
  }

  // ---------- Keeping alive ----------

  /** Nothing heard from the server, and nothing that was sent confirmed. */
  predicate Silent(evs: seq<Event>) {
    forall i :: 0 <= i < |evs| ==> !Teardown(evs[i]) && !evs[i].Receive? && !evs[i].SentCb?
  }

  lemma SilentStep(cfg: Config, s: State, e: Event)
    requires Inv(cfg, s) && Possible(e) && s.conn == MqttData
    requires !Teardown(e) && !e.Receive? && !e.SentCb?
    ensures
      var t := Handle(cfg, s, e);
      && (!e.Tick? ==> t.conn == MqttData && t.keepAliveTick == s.keepAliveTick)
      && (e.Tick? && s.keepAliveTick < cfg.Keepalive() ==>
            t.conn == MqttData && t.keepAliveTick == s.keepAliveTick + 1)
      && (e.Tick? && s.keepAliveTick == cfg.Keepalive() < 0xFFFF_FFFF ==> t.conn == MqttKeepaliveSend)
  {
    if Queues(e) {
      UserCallKeeps(cfg, s, e);
    }
  }

  /** In a silent session the client leaves MQTT_DATA no earlier than with the tick after its keepalive time. */
  lemma {:induction false} KeepsCounting(cfg: Config, s: State, evs: seq<Event>)
    requires Inv(cfg, s) && AllPossible(evs) && s.conn == MqttData && Silent(evs)
    requires s.keepAliveTick + Ticks(evs) <= cfg.Keepalive()
    ensures
      var t := After(cfg, s, evs);
      t.conn == MqttData && t.keepAliveTick == s.keepAliveTick + Ticks(evs)
    decreases |evs|
  {
    if evs != [] {
      var n := |evs| - 1;
      KeepsCounting(cfg, s, evs[..n]);
      LastStep(cfg, s, evs, n);
      SilentStep(cfg, After(cfg, s, evs[..n]), evs[n]);
    }
  }

  /** And exactly then it does: a PINGREQ is due. */
  lemma KeepaliveFires(cfg: Config, s: State, evs: seq<Event>)
    requires Inv(cfg, s) && AllPossible(evs) && s.conn == MqttData && Silent(evs)
    requires s.keepAliveTick + Ticks(evs) == cfg.Keepalive() < 0xFFFF_FFFF
    ensures Handle(cfg, After(cfg, s, evs), Tick).conn == MqttKeepaliveSend
  {
    KeepsCounting(cfg, s, evs);
    SilentStep(cfg, After(cfg, s, evs), Tick);
  }

  /** The task sends it, and the session goes on. */
  lemma KeepaliveSent(cfg: Config, s: State, stale: nat)
    requires Inv(cfg, s) && s.conn == MqttKeepaliveSend
    ensures
      var t := Handle(cfg, s, Task(true, stale));
      t.conn == MqttData && t.keepAliveTick == 0 && t.sendTimeout == 5 && t.pendingType == 12
  {
  }

  /** If that fails, the client asks for a disconnect, and reconnects behind it. */
  lemma KeepaliveFails(cfg: Config, s: State, stale: nat)
    requires Inv(cfg, s) && s.conn == MqttKeepaliveSend
    ensures
      var t := Handle(cfg, s, Task(false, stale));
      && t.conn == TcpReconnectDisconnecting && t.sendTimeout == 5 && t.pendingType == 12
      && Inv(cfg, t) && Handle(cfg, t, TcpDisconnectedCb).conn == TcpReconnectReq
  {
    HandleKeeps(cfg, s, Task(false, stale));
  }

  // ---------- Connecting ----------

  /** What the callbacks and calls around connecting lead to. */
  lemma ConnectLeads(cfg: Config, s: State, stale: nat)
    requires Inv(cfg, s)
    ensures
      var t := Handle(cfg, s, UserConnect);
      t.conn == TcpConnecting && t.keepAliveTick == 0 && t.reconnectTick == 0
    ensures Handle(cfg, s, DnsFailed).conn == TcpReconnectReq
    ensures Handle(cfg, s, ClientSpec.DnsFound(true)).conn == TcpConnecting
    ensures Handle(cfg, s, ClientSpec.DnsFound(false)) == s
    ensures Handle(cfg, s, TcpReconnectCb).conn == TcpReconnectReq
    ensures
      var t := Handle(cfg, s, TcpConnectedCb(stale));
      && t.conn == MqttConnectSending && t.counter == 0 && t.sendTimeout == 5
      && t.pendingType == if cfg.ConnectFits() then 1 else stale
  {
  }

  /** What a chunk cannot do: too long or empty, or out of place, it only resets the keepalive counter. */
  lemma ChunkIgnored(cfg: Config, s: State, ps: seq<Inbound>)
    requires Inv(cfg, s) && AllWellFormed(ps)
    requires
      || ps == [] || |EncodeAll(ps)| >= cfg.bufSize
      || !(InSession(s.conn) || (s.conn == MqttConnectSending && ps[0].Type() == 2 && s.pendingType == 1))
    ensures Handle(cfg, s, Receive(ps)) == s.(keepAliveTick := 0)
  {
  }

  // ---------- Sending again ----------

  /** With nothing to set it again, the send timeout is over after five ticks. */
  lemma {:induction false} TimeoutRunsOut(cfg: Config, s: State, evs: seq<Event>)
    requires Inv(cfg, s) && AllPossible(evs) && NoTask(evs)
    requires forall i :: 0 <= i < |evs| ==> !evs[i].TcpConnectedCb?
    ensures After(cfg, s, evs).sendTimeout + Ticks(evs) <= s.sendTimeout || After(cfg, s, evs).sendTimeout == 0
    ensures Ticks(evs) >= 5 ==> After(cfg, s, evs).sendTimeout == 0
    decreases |evs|
  {
    if evs != [] {
      var n := |evs| - 1;
      TimeoutRunsOut(cfg, s, evs[..n]);
      TimeoutLowers(cfg, After(cfg, s, evs[..n]), evs[n]);
    }
  }

  lemma TimeoutLowers(cfg: Config, s: State, e: Event)
    requires Inv(cfg, s) && Possible(e) && !e.Task? && !e.TcpConnectedCb?
    ensures
      var t := Handle(cfg, s, e).sendTimeout;
      t <= s.sendTimeout && (e.Tick? && s.sendTimeout > 0 ==> t + 1 == s.sendTimeout)
  {
    if Queues(e) {
      UserCallKeeps(cfg, s, e);
    } else if e.Receive? {
      OnReceiveKeeps(cfg, s, e.packets);
    }
  }

  /** A sent callback ends it at once: the next activation of the task hands over the oldest message. */
  lemma SentEndsTimeout(cfg: Config, s: State, sendOk: bool, stale: nat)
    requires Inv(cfg, s)
    ensures
      var t := Handle(cfg, s, SentCb);
      && Inv(cfg, t) && t == s.(sendTimeout := 0, keepAliveTick := 0)
      && (s.conn == MqttData && Messages(s.segs) != [] ==>
            HandedOf(Handle(cfg, t, Task(sendOk, stale)).log) == HandedOf(s.log) + [Messages(s.segs)[0]])
  {
    HandleKeeps(cfg, s, SentCb);
    HandleHands(cfg, Handle(cfg, s, SentCb), Task(sendOk, stale));
  }
}

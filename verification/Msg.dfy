/** The packet builders and readers of mqtt_msg.c, working on one shared output buffer. */
module Msg {
  import opened Bytes
  import opened Packets
  import Connect

  const HEADER := 3  // MQTT_MAX_FIXED_HEADER_SIZE

  lemma SplitAt(s: seq<byte>, i: nat, j: nat)
    requires i <= j <= |s|
    ensures s[i..] == s[i..j] + s[j..]
  {
  }

  class Connection {
    const buffer: array<byte>
    var start: nat      // message.data - buffer
    var length: nat     // message.length
    var messageId: nat  // message_id

    ghost predicate Valid()
      reads this
    {
      && HEADER <= buffer.Length < 0x1_0000
      && length <= buffer.Length
      && messageId < 0x1_0000
    }

    /** The message is `packet`; a failed builder leaves an empty one. */
    ghost predicate Holds(packet: seq<byte>)
      reads this, buffer
    {
      start <= 1 && start + length <= buffer.Length && buffer[start..start + length] == packet
    }

    /** What has been appended behind the space for the fixed header. */
    ghost predicate Building(body: seq<byte>)
      reads this, buffer
    {
      HEADER <= length <= buffer.Length && buffer[HEADER..length] == body
    }

    /** mqtt_msg_init */
    constructor (buffer: array<byte>)
      requires HEADER <= buffer.Length < 0x1_0000
      ensures Valid() && this.buffer == buffer && messageId == 0
    {
      this.buffer := buffer;
      start, length, messageId := 0, 0, 0;
    }

    /** mqtt_msg_init on a connection in use: the id counter starts again. */
    method Reset()
      requires Valid()
      modifies this
      ensures Valid() && messageId == 0
    {
      start, length, messageId := 0, 0, 0;
    }

    /** The memcpy of a payload. */
    method AppendBytes(data: seq<byte>, ghost body: seq<byte>)
      requires Valid() && Building(body) && length + |data| <= buffer.Length
      modifies this`length, buffer
      ensures Valid() && Building(body + data)
    {
      ghost var at := length;
      forall i | 0 <= i < |data| {
        buffer[length + i] := data[i];
      }
      length := length + |data|;
      assert buffer[HEADER..at] == body;
      assert buffer[at..length] == data;
      SplitAt(buffer[..length], HEADER, at);
    }

    method AppendWord(n: nat, ghost body: seq<byte>)
      requires Valid() && Building(body) && length + 2 <= buffer.Length && n < 0x1_0000
      modifies this`length, buffer
      ensures Valid() && Building(body + Be16(n)) && length == old(length) + 2
    {
      ghost var at := length;
      buffer[length] := n / 256;
      length := length + 1;
      buffer[length] := n % 256;
      length := length + 1;
      assert buffer[HEADER..at] == body;
      assert buffer[at..length] == Be16(n);
      SplitAt(buffer[..length], HEADER, at);
    }

    method AppendString(s: seq<byte>, ghost body: seq<byte>) returns (rc: int)
      requires Valid() && Building(body)
      modifies this`length, buffer
      ensures Valid()
      ensures rc < 0 <==> HEADER + |body + Str(s)| > buffer.Length
      ensures if rc < 0 then Building(body) else Building(body + Str(s))
    {
      if length + |s| + 2 > buffer.Length {
        return -1;
      }
      AppendWord(|s|, body);
      AppendBytes(s, body + Be16(|s|));
      Assoc(body, Be16(|s|), s);
      return |s| + 2;
    }

    /** Returns the id written, or 0 if there was no room for it. */
    method AppendMessageId(id: nat, ghost body: seq<byte>) returns (used: nat)
      requires Valid() && Building(body) && id < 0x1_0000
      modifies this`length, this`messageId, buffer
      ensures Valid()
      ensures messageId == if id == 0 then NextId(old(messageId)) else old(messageId)
      ensures used == 0 <==> HEADER + |body| + 2 > buffer.Length
      ensures used != 0 ==> used == (if id == 0 then messageId else id) && Building(body + Be16(used))
    {
      var m := id;
      while m == 0
        invariant m == 0 ==> id == 0 && messageId in {old(messageId), 0}
        invariant m == 0 && messageId != old(messageId) ==> Bump(old(messageId)) == 0
        invariant m != 0 ==> m == (if id == 0 then messageId else id) < 0x1_0000
        invariant m != 0 ==> messageId == if id == 0 then NextId(old(messageId)) else old(messageId)
        invariant messageId < 0x1_0000 && length == old(length) && buffer[..] == old(buffer[..])
        decreases if m == 0 then 0xFFFF - messageId + (if messageId == 0 then 0 else 0x1_0000) else -1
      {
        messageId := (messageId + 1) % 0x1_0000;
        m := messageId;
      }
      if length + 2 > buffer.Length {
        return 0;
      }
      AppendWord(m, body);
      return m;
    }

    /** init_message */
    method Begin()
      requires Valid()
      modifies this`length
      ensures Valid() && Building([])
    {
      length := HEADER;
    }

    /** fail_message */
    method Fail()
      requires Valid()
      modifies this`start, this`length
      ensures Valid() && Holds([])
    {
      start, length := 0, 0;
    }

    /** fini_message with dup 0: the fixed header goes right in front of the body, in three bytes or two. */
    method Finish(typ: int, qos: int, retain: int, ghost body: seq<byte>)
      requires Valid() && Building(body)
      modifies this`start, this`length, buffer
      ensures Valid() && Holds(Packet(typ, 0, qos, retain, body))
    {
      var remaining := length - HEADER;
      if remaining > 127 {
        buffer[0] := FirstByte(typ, 0, qos, retain);
        buffer[1] := 128 + remaining % 128;
        buffer[2] := remaining / 128 % 256;
        length := remaining + 3;
        start := 0;
      } else {
        buffer[1] := FirstByte(typ, 0, qos, retain);
        buffer[2] := remaining;
        length := remaining + 2;
        start := 1;
      }
      assert buffer[HEADER..HEADER + remaining] == body;
      assert buffer[start..start + length] == buffer[start..HEADER] + buffer[HEADER..HEADER + remaining];
    }

    // ---------- Builders ----------

    /** mqtt_msg_publish; `id` is what ends up in *message_id, None if it is not written. */
    method Publish(topic: Option<seq<byte>>, data: seq<byte>, qos: int, retain: int) returns (id: Option<nat>)
      requires Valid()
      modifies this, buffer
      ensures Valid()
      ensures var built := BuildPublish(buffer.Length, old(messageId), topic, data, qos, retain);
        && Holds(built.packet) && messageId == built.counter
        && (built.packet != [] ==> id == Some(if qos > 0 then messageId else 0))
    {
      Begin();
      if !Given(topic) {
        Fail();
        return None;
      }
      assert [] + Str(topic.value) == Str(topic.value);
      var rc := AppendString(topic.value, []);
      if rc < 0 {
        Fail();
        return None;
      }
      ghost var body := Str(topic.value);
      if qos > 0 {
        var used := AppendMessageId(0, body);
        id := Some(used);
        if used == 0 {
          Fail();
          return;
        }
        body := body + Be16(used);
      } else {
        id := Some(0);
        body := body + [];
      }
      if length + |data| > buffer.Length {
        Fail();
        return;
      }
      AppendBytes(data, body);
      Finish(PUBLISH, qos, retain, body + data);
    }

    /** mqtt_msg_puback, _pubrec, _pubrel (with QoS 1 in its header) and _pubcomp. */
    method Ack(typ: int, qos: int, id: nat)
      requires Valid() && id < 0x1_0000
      modifies this, buffer
      ensures Valid()
      ensures var built := BuildAck(buffer.Length, old(messageId), typ, qos, id);
        Holds(built.packet) && messageId == built.counter
    {
      Begin();
      var used := AppendMessageId(id, []);
      if used == 0 {
        Fail();
        return;
      }
      assert [] + Be16(used) == Be16(used);
      Finish(typ, qos, 0, Be16(used));
    }

    /** mqtt_msg_subscribe */
    method Subscribe(topic: Option<seq<byte>>, qos: int) returns (id: Option<nat>)
      requires Valid()
      modifies this, buffer
      ensures Valid()
      ensures var built := BuildSubscribe(buffer.Length, old(messageId), topic, qos);
        && Holds(built.packet) && messageId == built.counter
        && (built.packet != [] ==> id == Some(messageId))
    {
      Begin();
      if !Given(topic) {
        Fail();
        return None;
      }
      var used := AppendMessageId(0, []);
      id := Some(used);
      if used == 0 {
        Fail();
        return;
      }
      assert [] + Be16(used) == Be16(used);
      var rc := AppendString(topic.value, Be16(used));
      if rc < 0 {
        Fail();
        return;
      }
      if length + 1 > buffer.Length {
        Fail();
        return;
      }
      AppendBytes([qos % 256], Be16(used) + Str(topic.value));
      Finish(SUBSCRIBE, 1, 0, Be16(used) + Str(topic.value) + [qos % 256]);
    }

    /** mqtt_msg_unsubscribe */
    method Unsubscribe(topic: Option<seq<byte>>) returns (id: Option<nat>)
      requires Valid()
      modifies this, buffer
      ensures Valid()
      ensures var built := BuildUnsubscribe(buffer.Length, old(messageId), topic);
        && Holds(built.packet) && messageId == built.counter
        && (built.packet != [] ==> id == Some(messageId))
    {
      Begin();
      if !Given(topic) {
        Fail();
        return None;
      }
      var used := AppendMessageId(0, []);
      id := Some(used);
      if used == 0 {
        Fail();
        return;
      }
      assert [] + Be16(used) == Be16(used);
      var rc := AppendString(topic.value, Be16(used));
      if rc < 0 {
        Fail();
        return;
      }
      Finish(UNSUBSCRIBE, 1, 0, Be16(used) + Str(topic.value));
    }

    /** mqtt_msg_pingreq, _pingresp and _disconnect */
    method Empty(typ: int)
      requires Valid()
      modifies this, buffer
      ensures Valid() && messageId == old(messageId)
      ensures Holds(BuildEmpty(messageId, typ).packet)
    {
      Begin();
      Finish(typ, 0, 0, []);
    }

    // ---------- CONNECT ----------

    /** The fixed part of the variable header, with no flags yet. */
    method VariableHeader(keepalive: int)
      requires Valid() && Building([]) && HEADER + 12 <= buffer.Length
      modifies this`length, buffer
      ensures Valid() && Building(Connect.Header(0, keepalive))
    {
      var v := length;
      length := length + 12;
      buffer[v] := 0;
      buffer[v + 1] := 6;
      forall i | 0 <= i < 6 {
        buffer[v + 2 + i] := Connect.NAME[i];
      }
      buffer[v + 8] := 3;
      buffer[v + 9] := 0;
      buffer[v + 10] := keepalive / 256 % 256;
      buffer[v + 11] := keepalive % 256;
      assert buffer[HEADER..length] == Connect.Header(0, keepalive);
    }

    /** `flags |= bits`, for bits that are still clear. */
    method SetFlags(ghost f: byte, bits: byte, ghost keepalive: int, ghost rest: seq<byte>)
      requires Valid() && f + bits < 256
      requires Building(Connect.Header(f, keepalive) + rest)
      modifies buffer
      ensures Valid()
      ensures Building(Connect.Header(f + bits, keepalive) + rest)
    {
      HeaderAt(f, keepalive, rest);
      HeaderAt(f + bits, keepalive, rest);
      assert buffer[HEADER..length][9] == f;
      buffer[HEADER + 9] := buffer[HEADER + 9] + bits;
      assert buffer[HEADER..length] == (Connect.Header(f, keepalive) + rest)[9 := f + bits];
    }

    static lemma HeaderAt(f: byte, keepalive: int, rest: seq<byte>)
      ensures var b := Connect.Header(f, keepalive) + rest;
        |b| >= 12 && b[9] == f && forall g: byte :: b[9 := g] == Connect.Header(g, keepalive) + rest
    {
    }

    /** The string behind what is there, if it is given, and then its flag. */
    method AppendOptional(s: Option<seq<byte>>, bit: byte, ghost f: byte, ghost keepalive: int, ghost rest: seq<byte>)
      returns (rc: int)
      requires Valid() && f + bit < 256
      requires Building(Connect.Header(f, keepalive) + rest)
      modifies this`length, buffer
      ensures Valid()
      ensures rc < 0 <==> HEADER + 12 + |rest + Connect.OptStr(s)| > buffer.Length
      ensures rc >= 0 ==>
        Building(Connect.Header(f + if Given(s) then bit else 0, keepalive) + (rest + Connect.OptStr(s)))
    {
      if Given(s) {
        rc := AppendString(s.value, Connect.Header(f, keepalive) + rest);
        if rc < 0 {
          return;
        }
        Assoc(Connect.Header(f, keepalive), rest, Str(s.value));
        SetFlags(f, bit, keepalive, rest + Str(s.value));
      } else {
        assert rest + Connect.OptStr(s) == rest;
        rc := 0;
      }
    }

    /** The will topic and message and the three will flags, if a topic is given. */
    method AppendWill(info: Connect.Info, ghost f: byte, ghost rest: seq<byte>) returns (rc: int)
      requires Valid() && f < 4
      requires Building(Connect.Header(f, info.keepalive) + rest)
      modifies this`length, buffer
      ensures Valid()
      ensures rc < 0 <==> HEADER + 12 + |rest + Connect.WillPart(info)| > buffer.Length
      ensures rc >= 0 ==>
        Building(Connect.Header(f + Connect.WillBits(info), info.keepalive) + (rest + Connect.WillPart(info)))
    {
      if !Given(info.willTopic) {
        assert rest + Connect.WillPart(info) == rest;
        return 0;
      }
      ghost var head := Connect.Header(f, info.keepalive);
      rc := AppendString(info.willTopic.value, head + rest);
      if rc < 0 {
        return;
      }
      rc := AppendString(info.willMessage, head + rest + Str(info.willTopic.value));
      if rc < 0 {
        return;
      }
      ghost var all := rest + Connect.WillPart(info);
      assert head + rest + Str(info.willTopic.value) + Str(info.willMessage) == head + all;
      SetWillFlags(info, f, all);
      return 0;
    }

    method SetWillFlags(info: Connect.Info, ghost f: byte, ghost all: seq<byte>)
      requires Valid() && f < 4 && Given(info.willTopic)
      requires Building(Connect.Header(f, info.keepalive) + all)
      modifies buffer
      ensures Valid() && Building(Connect.Header(f + Connect.WillBits(info), info.keepalive) + all)
    {
      SetFlags(f, 4, info.keepalive, all);
      if info.willRetain {
        SetFlags(f + 4, 32, info.keepalive, all);
      }
      SetFlags(f + 4 + if info.willRetain then 32 else 0, info.willQos % 4 * 8, info.keepalive, all);
    }

    /** User name and password, each with its flag. */
    method AppendLogin(info: Connect.Info, ghost f: byte, ghost rest: seq<byte>) returns (rc: int)
      requires Valid() && f < 64
      requires Building(Connect.Header(f, info.keepalive) + rest)
      modifies this`length, buffer
      ensures Valid()
      ensures rc < 0 <==>
        HEADER + 12 + |rest + Connect.OptStr(info.username) + Connect.OptStr(info.password)| > buffer.Length
      ensures rc >= 0 ==>
        Building(Connect.Header(f + Connect.LoginBits(info), info.keepalive)
                 + (rest + Connect.OptStr(info.username) + Connect.OptStr(info.password)))
    {
      rc := AppendOptional(info.username, 128, f, info.keepalive, rest);
      if rc < 0 {
        return;
      }
      rc := AppendOptional(info.password, 64, f + (if Given(info.username) then 128 else 0), info.keepalive,
                           rest + Connect.OptStr(info.username));
    }

    /** Client id, will, user name and password in the order of section 3.1.3, each with its flags. */
    method AppendPayload(info: Connect.Info, ghost f: byte) returns (rc: int)
      requires Valid() && f < 4
      requires Building(Connect.Header(f, info.keepalive) + [])
      modifies this`length, buffer
      ensures Valid()
      ensures rc < 0 <==> HEADER + 12 + |Connect.Payload(info)| > buffer.Length
      ensures rc >= 0 ==>
        Building(Connect.Header(f + Connect.WillBits(info) + Connect.LoginBits(info), info.keepalive)
                 + Connect.Payload(info))
    {
      rc := AppendOptional(info.clientId, 0, f, info.keepalive, []);
      if rc < 0 {
        return;
      }
      ghost var rest := Connect.OptStr(info.clientId);
      assert [] + rest == rest;
      rc := AppendWill(info, f, rest);
      if rc < 0 {
        return;
      }
      rc := AppendLogin(info, f + Connect.WillBits(info), rest + Connect.WillPart(info));
    }

    /** The variable header with the clean session flag, if there is room for it. */
    method BeginConnect(info: Connect.Info) returns (ok: bool)
      requires Valid()
      modifies this`length, buffer
      ensures Valid()
      ensures ok <==> HEADER + 12 <= buffer.Length
      ensures ok ==> Building(Connect.Header(Connect.Bit(info.cleanSession) * 2, info.keepalive) + [])
    {
      Begin();
      if length + 12 > buffer.Length {
        return false;
      }
      VariableHeader(info.keepalive);
      assert Connect.Header(0, info.keepalive) == Connect.Header(0, info.keepalive) + [];
      if info.cleanSession {
        SetFlags(0, 2, info.keepalive, []);
      }
      return true;
    }

    /** mqtt_msg_connect: the packet `p` if there is a client id and everything fits, else a failure. */
    method ConnectMessage(info: Connect.Info) returns (ghost p: seq<byte>)
      requires Valid()
      modifies this`start, this`length, buffer
      ensures Valid() && Holds(p)
      ensures if Given(info.clientId) && HEADER + 12 + |Connect.Payload(info)| <= buffer.Length
              then Connect.IsConnect(p, info) else p == []
    {
      p := [];
      var ok := BeginConnect(info);
      if !ok {
        Fail();
        return;
      }
      if !Given(info.clientId) {
        Fail();
        return;
      }
      var rc := AppendPayload(info, Connect.Bit(info.cleanSession) * 2);
      if rc < 0 {
        Fail();
        return;
      }
      ghost var f: byte := Connect.Bit(info.cleanSession) * 2 + Connect.WillBits(info) + Connect.LoginBits(info);
      Connect.ConnectIs(f, info);
      p := Packet(CONNECT, 0, 0, 0, Connect.Body(f, info));
      Finish(CONNECT, 0, 0, Connect.Body(f, info));
    }
  }

  // ---------- Readers ----------

  /** The same sum as VarVal, taken as the loop takes it: the group at `i` counts `scale`. */
  ghost function Sum(b: seq<byte>, i: nat, n: nat, scale: nat): nat
    requires n <= |b|
    decreases n - i
  {
    if i >= n then 0
    else scale * (b[i] as int % 128) + if b[i] < 128 then 0 else Sum(b, i + 1, n, scale * 128)
  }

  lemma {:induction false} SumIs(b: seq<byte>, i: nat, n: nat, scale: nat)
    requires n <= |b|
    ensures Sum(b, i, n, scale) == scale * VarVal(b, i, n)
    decreases n - i
  {
    if i < n && b[i] >= 128 {
      SumIs(b, i + 1, n, scale * 128);
      Distribute(scale, b[i] - 128, VarVal(b, i + 1, n));
    }
  }

  lemma SumStep(b: seq<byte>, i: nat, n: nat, scale: nat, low: nat)
    requires i < n <= |b| && low == b[i] as int % 128
    ensures Sum(b, i, n, scale) == scale * low + if b[i] < 128 then 0 else Sum(b, i + 1, n, scale * 128)
    ensures VarEnd(b, i, n) == if b[i] < 128 then i + 1 else VarEnd(b, i + 1, n)
  {
  }

  lemma Distribute(scale: nat, low: nat, rest: nat)
    ensures scale * (low + 128 * rest) == scale * low + scale * 128 * rest
  {
  }

  /** One turn of the loop below, which has summed up `so` of `total`. */
  lemma ScanTurn(b: seq<byte>, i: nat, n: nat, scale: nat, so: nat, total: nat)
    requires i < n <= |b| && so + Sum(b, i, n, scale) == total
    ensures
      var sum := so + scale * (b[i] as int % 128);
      if b[i] < 128 then sum == total && VarEnd(b, i, n) == i + 1
      else sum + Sum(b, i + 1, n, scale * 128) == total && VarEnd(b, i, n) == VarEnd(b, i + 1, n)
  {
    SumStep(b, i, n, scale, b[i] as int % 128);
  }

  /** The loop over the remaining-length field that every reader starts with. */
  method ScanLength(buffer: array<byte>, length: nat) returns (i: nat, totlen: nat)
    requires length <= buffer.Length
    ensures i == VarEnd(buffer[..], 1, length)
    ensures totlen == VarVal(buffer[..], 1, length)
  {
    ghost var b := buffer[..];
    i, totlen := 1, 0;
    SumIs(b, 1, length, 1);
    var scale: nat := 1;  // 1 << 7 * (i - 1)
    while i < length
      invariant 1 <= i && VarEnd(b, i, length) == VarEnd(b, 1, length)
      invariant totlen + Sum(b, i, length, scale) == VarVal(b, 1, length)
    {
      ScanTurn(b, i, length, scale, totlen, VarVal(b, 1, length));
      totlen := totlen + scale * (buffer[i] as int % 128);
      if buffer[i] < 128 {
        i := i + 1;
        return;
      }
      scale := scale * 128;
      i := i + 1;
    }
  }

  method GetTotalLength(buffer: array<byte>, length: nat) returns (total: nat)
    requires length <= buffer.Length
    ensures total == TotalLength(buffer[..], length)
  {
    var i;
    i, total := ScanLength(buffer, length);
    total := total + i;
  }

  /** The topic as an offset and a length; None for NULL. */
  method GetPublishTopic(buffer: array<byte>, length: nat) returns (topic: Option<(nat, nat)>)
    requires length <= buffer.Length
    ensures topic == None ==> PublishTopic(buffer[..], length) == None
    ensures topic.Some? ==>
      var (at, len) := topic.value;
      at + len <= length && PublishTopic(buffer[..], length) == Some(buffer[at..at + len])
  {
    var i, _ := ScanLength(buffer, length);
    if i + 2 >= length {
      return None;
    }
    var topiclen := (buffer[i] as int) * 256;
    i := i + 1;
    topiclen := topiclen + buffer[i];
    i := i + 1;
    if i + topiclen > length {
      return None;
    }
    assert buffer[..][i..i + topiclen] == buffer[i..i + topiclen];
    return Some((i, topiclen));
  }

  /** The payload as an offset and a length; None for NULL, whose length is 0. */
  method GetPublishData(buffer: array<byte>, length: nat) returns (data: Option<(nat, nat)>)
    requires 0 < length <= buffer.Length
    ensures data == None ==> PublishData(buffer[..], length) == None
    ensures data.Some? ==>
      var (at, len) := data.value;
      at + len <= length && PublishData(buffer[..], length) == Some(buffer[at..at + len])
  {
    var i, totlen := ScanLength(buffer, length);
    totlen := totlen + i;
    if i + 2 >= length {
      return None;
    }
    var topiclen := (buffer[i] as int) * 256;
    i := i + 1;
    topiclen := topiclen + buffer[i];
    i := i + 1;
    if i + topiclen >= length {
      return None;
    }
    i := i + topiclen;
    if buffer[0] / 2 % 4 > 0 {
      if i + 2 >= length {
        return None;
      }
      i := i + 2;
    }
    if totlen < i {
      return None;
    }
    var len := if totlen <= length then totlen - i else length - i;
    assert buffer[..][i..i + len] == buffer[i..i + len];
    return Some((i, len));
  }

  /** mqtt_get_id */
  method ReadId(buffer: array<byte>, length: nat) returns (id: nat)
    requires length <= buffer.Length
    ensures id == GetId(buffer[..], length)
  {
    if length < 1 {
      return 0;
    }
    var typ := buffer[0] / 16;
    if typ == PUBLISH {
      var i, _ := ScanLength(buffer, length);
      if i + 2 >= length {
        return 0;
      }
      var topiclen := (buffer[i] as int) * 256;
      i := i + 1;
      topiclen := topiclen + buffer[i];
      i := i + 1;
      if i + topiclen >= length {
        return 0;
      }
      i := i + topiclen;
      if buffer[0] / 2 % 4 > 0 {
        if i + 2 >= length {
          return 0;
        }
      } else {
        return 0;
      }
      return (buffer[i] as int) * 256 + buffer[i + 1];
    } else if typ in {PUBACK, PUBREC, PUBREL, PUBCOMP, SUBACK, UNSUBACK, SUBSCRIBE} {
      if length >= 4 && buffer[1] < 128 {
        return (buffer[2] as int) * 256 + buffer[3];
      }
      return 0;
    }
    return 0;
  }
}

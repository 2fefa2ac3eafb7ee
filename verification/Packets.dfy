/**
 * The MQTT packets as byte sequences: what the builders of mqtt_msg.c must produce and what its readers
 * are functions of. Nothing here mentions a buffer.
 */
module Packets {
  import opened Bytes

  const CONNECT := 1
  const CONNACK := 2
  const PUBLISH := 3
  const PUBACK := 4
  const PUBREC := 5
  const PUBREL := 6
  const PUBCOMP := 7
  const SUBSCRIBE := 8
  const SUBACK := 9
  const UNSUBSCRIBE := 10
  const UNSUBACK := 11
  const PINGREQ := 12
  const PINGRESP := 13
  const DISCONNECT := 14

  // ---------- Layout ----------

  /** The two low bytes of `n`, most significant first. */
  function Be16(n: int): seq<byte> {
    [n / 256 % 256, n % 256]
  }

  /** A length-prefixed string. */
  function Str(s: seq<byte>): seq<byte> {
    Be16(|s|) + s
  }

  /** The packed first byte: type, dup, qos and retain masked to 4, 1, 2 and 1 bits. */
  function FirstByte(typ: int, dup: int, qos: int, retain: int): byte {
    typ % 16 * 16 + dup % 2 * 8 + qos % 4 * 2 + retain % 2
  }

  /** The remaining length as the builders write it: two bytes at most, the second truncated to 8 bits. */
  function RemLen(n: nat): seq<byte> {
    if n > 127 then [128 + n % 128, n / 128 % 256] else [n]
  }

  function Packet(typ: int, dup: int, qos: int, retain: int, body: seq<byte>): (p: seq<byte>)
    ensures p != []
  {
    [FirstByte(typ, dup, qos, retain)] + RemLen(|body|) + body
  }

  function PublishBody(topic: seq<byte>, qos: int, id: int, data: seq<byte>): seq<byte> {
    Str(topic) + (if qos > 0 then Be16(id) else []) + data
  }

  /** A C string argument that is neither NULL nor empty. */
  predicate Given(s: Option<seq<byte>>) {
    s.Some? && s.value != []
  }

  // ---------- Message ids ----------

  /** One round of `message_id = ++connection->message_id`, in 16 bits. */
  function Bump(counter: nat): nat {
    (counter + 1) % 0x1_0000
  }

  /** The counter, and the id used, once append_message_id has made sure that the id is not zero. */
  function NextId(counter: nat): nat {
    if Bump(counter) == 0 then Bump(0) else Bump(counter)
  }

  /** The `n`-th id generated on a connection whose counter stands at `counter`. */
  function NthId(counter: nat, n: nat): nat
    decreases n
  {
    if n == 0 then NextId(counter) else NthId(NextId(counter), n - 1)
  }

  lemma AddModulus(n: nat)
    ensures (n + 0xFFFF) % 0xFFFF == n % 0xFFFF
  {
  }

  /** Ids cycle through 1 .. 65535. */
  lemma {:induction false} NthIdIs(counter: nat, n: nat)
    requires counter < 0x1_0000
    ensures NthId(counter, n) == (counter + n) % 0xFFFF + 1
    decreases n
  {
    if n > 0 {
      NthIdIs(NextId(counter), n - 1);
      if counter == 0xFFFF {
        AddModulus(n);
      }
    }
  }

  /** No id is zero, and 65535 consecutive ids on one connection are pairwise distinct, across the 16-bit wrap. */
  lemma IdsAreDistinct(counter: nat, i: nat, j: nat)
    requires counter < 0x1_0000
    requires i < j < i + 0xFFFF
    ensures 0 < NthId(counter, i) < 0x1_0000
    ensures NthId(counter, i) != NthId(counter, j)
  {
    NthIdIs(counter, i);
    NthIdIs(counter, j);
  }

  /** And 65535 is as far as it goes. */
  lemma IdsRepeat(counter: nat, i: nat)
    requires counter < 0x1_0000
    ensures NthId(counter, i + 0xFFFF) == NthId(counter, i)
  {
    NthIdIs(counter, i);
    NthIdIs(counter, i + 0xFFFF);
    AddModulus(counter + i);
  }

  // ---------- What each builder makes, in a buffer of `size` bytes ----------

  /** The packet, or no bytes for a failure, and the id counter afterwards. */
  datatype Built = Built(packet: seq<byte>, counter: nat)

  /** Three bytes are set aside in front of the body for the fixed header. */
  function Finish(size: nat, counter: nat, typ: int, qos: int, retain: int, body: seq<byte>): Built {
    Built(if 3 + |body| <= size then Packet(typ, 0, qos, retain, body) else [], counter)
  }

  function BuildPublish(
    size: nat, counter: nat, topic: Option<seq<byte>>, data: seq<byte>, qos: int, retain: int): Built
  {
    if !Given(topic) || 5 + |topic.value| > size then Built([], counter)
    else
      var c := if qos > 0 then NextId(counter) else counter;
      Finish(size, c, PUBLISH, qos, retain, PublishBody(topic.value, qos, c, data))
  }

  /** PUBACK, PUBREC, PUBREL and PUBCOMP: an id of zero is replaced by a fresh one. */
  function BuildAck(size: nat, counter: nat, typ: int, qos: int, id: nat): Built {
    var c := if id == 0 then NextId(counter) else counter;
    Finish(size, c, typ, qos, 0, Be16(if id == 0 then c else id))
  }

  function BuildSubscribe(size: nat, counter: nat, topic: Option<seq<byte>>, qos: int): Built {
    if !Given(topic) then Built([], counter)
    else
      var c := NextId(counter);
      Finish(size, c, SUBSCRIBE, 1, 0, Be16(c) + Str(topic.value) + [qos % 256])
  }

  function BuildUnsubscribe(size: nat, counter: nat, topic: Option<seq<byte>>): Built {
    if !Given(topic) then Built([], counter)
    else
      var c := NextId(counter);
      Finish(size, c, UNSUBSCRIBE, 1, 0, Be16(c) + Str(topic.value))
  }

  /** PINGREQ, PINGRESP and DISCONNECT. */
  function BuildEmpty(counter: nat, typ: int): Built {
    Built(Packet(typ, 0, 0, 0, []), counter)
  }

  // ---------- The readers ----------

  function TypeOf(b: seq<byte>): nat
    requires b != []
  {
    b[0] / 16
  }

  function QosOf(b: seq<byte>): nat
    requires b != []
  {
    b[0] / 2 % 4
  }

  /** Where the remaining-length field that goes on at `i` stops, looking no further than `n`. */
  function VarEnd(b: seq<byte>, i: nat, n: nat): (e: nat)
    requires n <= |b|
    ensures i <= e && (i <= n ==> e <= n) && (i < n ==> i < e)
    decreases n - i
  {
    if i >= n then i
    else if b[i] < 128 then i + 1
    else VarEnd(b, i + 1, n)
  }

  /** Its value, low group of seven bits first. */
  function VarVal(b: seq<byte>, i: nat, n: nat): nat
    requires n <= |b|
    decreases n - i
  {
    if i >= n then 0
    else if b[i] < 128 then b[i]
    else b[i] - 128 + 128 * VarVal(b, i + 1, n)
  }

  function TotalLength(b: seq<byte>, n: nat): nat
    requires n <= |b|
  {
    VarVal(b, 1, n) + VarEnd(b, 1, n)
  }

  function Word(b: seq<byte>, i: nat): nat
    requires i + 1 < |b|
  {
    (b[i] as int) * 256 + b[i + 1]
  }

  /** mqtt_get_publish_topic: None stands for NULL. */
  function PublishTopic(b: seq<byte>, n: nat): Option<seq<byte>>
    requires n <= |b|
  {
    var i := VarEnd(b, 1, n);
    if i + 2 >= n then None
    else
      var len := Word(b, i);
      if i + 2 + len > n then None else Some(b[i + 2..i + 2 + len])
  }

  /** mqtt_get_publish_data: None stands for NULL with length 0. */
  function PublishData(b: seq<byte>, n: nat): Option<seq<byte>>
    requires 0 < n <= |b|
  {
    var v := VarEnd(b, 1, n);
    var total := TotalLength(b, n);
    if v + 2 >= n then None
    else
      var i := v + 2 + Word(b, v);
      if i >= n || (QosOf(b) > 0 && i + 2 >= n) then None
      else
        var start := if QosOf(b) > 0 then i + 2 else i;
        if total < start then None
        else Some(b[start..if total <= n then total else n])
  }

  /** mqtt_get_id. UNSUBSCRIBE is not among its cases. */
  function GetId(b: seq<byte>, n: nat): nat
    requires n <= |b|
  {
    if n < 1 then 0
    else if TypeOf(b) == PUBLISH then
      var v := VarEnd(b, 1, n);
      if v + 2 >= n then 0
      else
        var i := v + 2 + Word(b, v);
        if i >= n || QosOf(b) == 0 || i + 2 >= n then 0 else Word(b, i)
    else if TypeOf(b) in {PUBACK, PUBREC, PUBREL, PUBCOMP, SUBACK, UNSUBACK, SUBSCRIBE} then
      if n >= 4 && b[1] < 128 then Word(b, 2) else 0
    else 0
  }

  // ---------- The readers invert the builders ----------

  /** The remaining length comes back if it fits two groups of seven bits. */
  lemma RemLenBack(b: seq<byte>, len: nat, n: nat)
    requires len <= 16383
    requires 1 + |RemLen(len)| <= n <= |b|
    requires b[1..1 + |RemLen(len)|] == RemLen(len)
    ensures VarEnd(b, 1, n) == 1 + |RemLen(len)|
    ensures VarVal(b, 1, n) == len
  {
    assert b[1] == RemLen(len)[0];
    if len > 127 {
      assert b[2] == RemLen(len)[1];
      assert VarEnd(b, 2, n) == 3;
      assert VarVal(b, 2, n) == len / 128;
    }
  }

  lemma FourFields(a: nat, d: nat, q: nat, r: nat)
    requires d < 2 && q < 4 && r < 2
    ensures
      var b := a * 16 + d * 8 + q * 2 + r;
      b / 16 == a && b / 8 % 2 == d && b / 2 % 4 == q && b % 2 == r
  {
    var b := a * 16 + d * 8 + q * 2 + r;
    DivBy2(b, 8 * a + 4 * d + q, r);
    DivBy4(b / 2, 2 * a + d, q);
    DivBy8(b, 2 * a + d, 2 * q + r);
    DivBy2(2 * a + d, a, d);
    DivBy16(b, a, 8 * d + 2 * q + r);
  }

  lemma DivBy2(n: nat, q: nat, r: nat)
    requires n == 2 * q + r && r < 2
    ensures n / 2 == q && n % 2 == r
  {
  }

  lemma DivBy4(n: nat, q: nat, r: nat)
    requires n == 4 * q + r && r < 4
    ensures n / 4 == q && n % 4 == r
  {
  }

  lemma DivBy8(n: nat, q: nat, r: nat)
    requires n == 8 * q + r && r < 8
    ensures n / 8 == q && n % 8 == r
  {
  }

  lemma DivBy16(n: nat, q: nat, r: nat)
    requires n == 16 * q + r && r < 16
    ensures n / 16 == q && n % 16 == r
  {
  }

  /** The bits of the first byte are where section 2.2 of MQTT 3.1.1 has them. */
  lemma FirstByteBits(typ: int, dup: int, qos: int, retain: int)
    ensures
      var b := FirstByte(typ, dup, qos, retain);
      b / 16 == typ % 16 && b / 8 % 2 == dup % 2 && b / 2 % 4 == qos % 4 && b % 2 == retain % 2
  {
    FourFields(typ % 16, dup % 2, qos % 4, retain % 2);
  }

  /** The fixed header of any packet the two-byte remaining length can describe, whatever follows it. */
  lemma FixedHeader(b: seq<byte>, typ: int, dup: int, qos: int, retain: int, body: seq<byte>, tail: seq<byte>, n: nat)
    requires |body| <= 16383
    requires b == Packet(typ, dup, qos, retain, body) + tail
    requires |Packet(typ, dup, qos, retain, body)| <= n <= |b|
    ensures
      var v := 1 + |RemLen(|body|)|;
      && TypeOf(b) == typ % 16
      && b[0] / 8 % 2 == dup % 2
      && QosOf(b) == qos % 4
      && b[0] % 2 == retain % 2
      && VarEnd(b, 1, n) == v
      && TotalLength(b, n) == |Packet(typ, dup, qos, retain, body)| == v + |body|
      && b[v..] == body + tail
      && b == b[..v] + body + tail
  {
    assert b[1..1 + |RemLen(|body|)|] == RemLen(|body|);
    FirstByteBits(typ, dup, qos, retain);
    RemLenBack(b, |body|, n);
  }

  lemma WordAt(b: seq<byte>, i: nat, v: nat)
    requires i + 2 <= |b| && v < 0x1_0000
    requires b[i..i + 2] == Be16(v)
    ensures Word(b, i) == v
  {
    assert b[i] == b[i..i + 2][0] && b[i + 1] == b[i..i + 2][1];
  }

  /** Where the parts of a PUBLISH are, after a fixed header of `v` bytes. */
  ghost predicate PartsAt(b: seq<byte>, v: nat, topic: seq<byte>, qos: int, id: nat, data: seq<byte>) {
    var i := v + 2 + |topic|;
    var d := i + if qos > 0 then 2 else 0;
    && d + |data| <= |b|
    && Word(b, v) == |topic|
    && b[v + 2..i] == topic
    && b[d..d + |data|] == data
    && (qos > 0 ==> Word(b, i) == id)
  }

  lemma Slices(a: seq<byte>, b: seq<byte>, c: seq<byte>, d: seq<byte>, e: seq<byte>, f: seq<byte>)
    ensures
      var s := a + (b + c + d + e) + f;
      var j := |a| + |b|;
      var k := j + |c|;
      var l := k + |d|;
      s[|a|..j] == b && s[j..k] == c && s[k..l] == d && s[l..l + |e|] == e
  {
  }

  lemma PublishParts(head: seq<byte>, topic: seq<byte>, qos: int, id: nat, data: seq<byte>, tail: seq<byte>)
    requires |topic| < 0x1_0000 && id < 0x1_0000
    ensures PartsAt(head + PublishBody(topic, qos, id, data) + tail, |head|, topic, qos, id, data)
    ensures |PublishBody(topic, qos, id, data)| == 2 + |topic| + (if qos > 0 then 2 else 0) + |data|
  {
    var b := head + PublishBody(topic, qos, id, data) + tail;
    Slices(head, Be16(|topic|), topic, if qos > 0 then Be16(id) else [], data, tail);
    WordAt(b, |head|, |topic|);
    if qos > 0 {
      WordAt(b, |head| + 2 + |topic|, id);
    }
  }

  /** The readers, once it is known where each part is. */
  lemma ReadersAt(b: seq<byte>, n: nat, v: nat, topic: seq<byte>, id: nat, data: seq<byte>)
    requires n <= |b| && topic != [] && b != [] && TypeOf(b) == PUBLISH
    requires VarEnd(b, 1, n) == v
    requires PartsAt(b, v, topic, QosOf(b), id, data)
    requires TotalLength(b, n) == v + 2 + |topic| + (if QosOf(b) > 0 then 2 else 0) + |data| <= n
    ensures PublishTopic(b, n) == Some(topic)
    ensures PublishData(b, n) == if data == [] && n == TotalLength(b, n) then None else Some(data)
    ensures GetId(b, n) == if QosOf(b) == 0 || (data == [] && n == TotalLength(b, n)) then 0 else id
  {
  }

  /** The whole PUBLISH after its fixed header `head`, as far as the readers can tell. */
  lemma ReadFrom(head: seq<byte>, topic: seq<byte>, qos: int, id: nat, data: seq<byte>, tail: seq<byte>, n: nat)
    requires topic != [] && |topic| < 0x1_0000 && id < 0x1_0000
    requires
      var b := head + PublishBody(topic, qos, id, data) + tail;
      && head != [] && n <= |b|
      && TypeOf(b) == PUBLISH && QosOf(b) == qos && VarEnd(b, 1, n) == |head|
      && TotalLength(b, n) == |head| + |PublishBody(topic, qos, id, data)| <= n
    ensures
      var b := head + PublishBody(topic, qos, id, data) + tail;
      var blind := data == [] && n == TotalLength(b, n);
      && PublishTopic(b, n) == Some(topic)
      && PublishData(b, n) == (if blind then None else Some(data))
      && GetId(b, n) == (if qos == 0 || blind then 0 else id)
  {
    PublishParts(head, topic, qos, id, data, tail);
    ReadersAt(head + PublishBody(topic, qos, id, data) + tail, n, |head|, topic, id, data);
  }

  /** Cut off right behind the length of its topic, or before, a PUBLISH has neither topic nor payload nor id. */
  lemma CutBeforeTopic(b: seq<byte>, n: nat)
    requires 0 < n <= |b| && TypeOf(b) == PUBLISH && n <= VarEnd(b, 1, n) + 2
    ensures PublishTopic(b, n) == None && PublishData(b, n) == None && GetId(b, n) == 0
  {
  }

  /**
   * The PUBLISH round trip, for a packet followed by anything: type, QoS, length, topic and payload come back,
   * and the id does unless the payload is empty and the reader was told exactly where the packet ends.
   */
  lemma PublishReadBack(
    topic: seq<byte>, dup: int, qos: int, retain: int, id: nat, data: seq<byte>, tail: seq<byte>, n: nat)
    requires topic != [] && |topic| < 0x1_0000 && id < 0x1_0000 && 0 <= qos <= 3
    requires |PublishBody(topic, qos, id, data)| <= 16383
    requires
      var p := Packet(PUBLISH, dup, qos, retain, PublishBody(topic, qos, id, data));
      |p| <= n <= |p + tail|
    ensures
      var p := Packet(PUBLISH, dup, qos, retain, PublishBody(topic, qos, id, data));
      var b := p + tail;
      && TypeOf(b) == PUBLISH && QosOf(b) == qos
      && TotalLength(b, n) == |p|
      && PublishTopic(b, n) == Some(topic)
      && PublishData(b, n) == (if data == [] && n == |p| then None else Some(data))
      && GetId(b, n) == (if qos == 0 || (data == [] && n == |p|) then 0 else id)
  {
    var body := PublishBody(topic, qos, id, data);
    var p := Packet(PUBLISH, dup, qos, retain, body);
    var b := p + tail;
    FixedHeader(b, PUBLISH, dup, qos, retain, body, tail, n);
    var head := b[..1 + |RemLen(|body|)|];
    ReadFrom(head, topic, qos, id, data, tail, n);
  }

  /** What mqtt_msg_publish builds is read back, with the id that was assigned. */
  lemma BuiltPublishReadBack(
    size: nat, counter: nat, topic: Option<seq<byte>>, data: seq<byte>, qos: int, retain: int)
    requires size <= 16386 && counter < 0x1_0000 && 0 <= qos <= 3
    ensures
      var built := BuildPublish(size, counter, topic, data, qos, retain);
      var p := built.packet;
      p != [] ==>
        && TypeOf(p) == PUBLISH && QosOf(p) == qos && TotalLength(p, |p|) == |p|
        && p[0] / 8 % 2 == 0 && p[0] % 2 == retain % 2
        && PublishTopic(p, |p|) == topic
        && PublishData(p, |p|) == (if data == [] then None else Some(data))
        && GetId(p, |p|) == (if qos == 0 || data == [] then 0 else built.counter)
  {
    var built := BuildPublish(size, counter, topic, data, qos, retain);
    var p := built.packet;
    if p != [] {
      assert p + [] == p;
      FirstByteBits(PUBLISH, 0, qos, retain);
      PublishReadBack(topic.value, 0, qos, retain, built.counter, data, [], |p|);
    }
  }

  lemma TypeByte(typ: nat, dup: int, qos: int, retain: int, body: seq<byte>)
    requires typ < 16
    ensures TypeOf(Packet(typ, dup, qos, retain, body)) == typ
  {
  }

  /** mqtt_get_id inverts the acknowledgement builders, whatever follows the packet. */
  lemma AckReadBack(typ: int, qos: int, id: nat, tail: seq<byte>, n: nat)
    requires typ in {PUBACK, PUBREC, PUBREL, PUBCOMP} && id < 0x1_0000
    requires 4 <= n <= 4 + |tail|
    ensures
      var b := Packet(typ, 0, qos, 0, Be16(id)) + tail;
      TypeOf(b) == typ && GetId(b, n) == id
  {
    var b := Packet(typ, 0, qos, 0, Be16(id)) + tail;
    assert b[2..4] == Be16(id);
    WordAt(b, 2, id);
  }

  /** And it reads the id of the server's SUBACK and UNSUBACK, whatever return codes follow. */
  lemma ServerAckReadBack(typ: int, id: nat, codes: seq<byte>, tail: seq<byte>, n: nat)
    requires typ in {SUBACK, UNSUBACK} && id < 0x1_0000 && |codes| <= 125
    requires 4 + |codes| <= n <= 4 + |codes| + |tail|
    ensures GetId(Packet(typ, 0, 0, 0, Be16(id) + codes) + tail, n) == id
  {
    var b := Packet(typ, 0, 0, 0, Be16(id) + codes) + tail;
    FirstByteBits(typ, 0, 0, 0);
    assert b[1] == RemLen(2 + |codes|)[0];
    assert b[2..4] == Be16(id);
    WordAt(b, 2, id);
  }

  /** It inverts SUBSCRIBE exactly when the topic has at most 122 bytes: then the remaining length is one byte. */
  lemma SubscribeReadBack(id: nat, topic: seq<byte>, qos: int)
    requires 0 < id < 0x1_0000
    ensures
      var p := Packet(SUBSCRIBE, 0, 1, 0, Be16(id) + Str(topic) + [qos % 256]);
      GetId(p, |p|) == id <==> |topic| <= 122
  {
    var body := Be16(id) + Str(topic) + [qos % 256];
    var p := Packet(SUBSCRIBE, 0, 1, 0, body);
    assert p[1] == RemLen(|body|)[0];
    if |topic| <= 122 {
      assert p[2..4] == Be16(id);
      WordAt(p, 2, id);
    }
  }

  /** UNSUBSCRIBE is missing from its switch. */
  lemma UnsubscribeReadsZero(id: nat, topic: seq<byte>)
    ensures
      var p := Packet(UNSUBSCRIBE, 0, 1, 0, Be16(id) + Str(topic));
      GetId(p, |p|) == 0
  {
    assert TypeOf(Packet(UNSUBSCRIBE, 0, 1, 0, Be16(id) + Str(topic))) == UNSUBSCRIBE;
  }

  /** No packet is longer than the buffer it was built in (for CONNECT see Connect.ConnectFits). */
  lemma BuiltFits(
    size: nat, counter: nat, topic: Option<seq<byte>>, data: seq<byte>, typ: int, qos: int, retain: int, id: nat)
    requires 3 <= size
    ensures |BuildPublish(size, counter, topic, data, qos, retain).packet| <= size
    ensures |BuildAck(size, counter, typ, qos, id).packet| <= size
    ensures |BuildSubscribe(size, counter, topic, qos).packet| <= size
    ensures |BuildUnsubscribe(size, counter, topic).packet| <= size
    ensures |BuildEmpty(counter, typ).packet| <= size
  {
  }
}

/**
 * A strict reader of the control packets a client sends, straight from sections 1.5, 2 and 3 of MQTT 3.1.1 (for
 * CONNECT see Connect.dfy). It shares nothing with the builders and readers of the firmware.
 */
module Mqtt311 {
  import opened Bytes

  /** Of a SUBSCRIBE or UNSUBSCRIBE, those with one topic filter. */
  datatype Control =
    | Publish(dup: bool, qos: nat, retain: bool, topic: seq<byte>, id: nat, payload: seq<byte>)
    | Puback(id: nat) | Pubrec(id: nat) | Pubrel(id: nat) | Pubcomp(id: nat)
    | Subscribe(id: nat, topic: seq<byte>, qos: nat)
    | Unsubscribe(id: nat, topic: seq<byte>)
    | Pingreq | Pingresp | Disconnect

  /** Section 1.5.2: two bytes, the most significant first. */
  function U16(b: seq<byte>, i: nat): nat
    requires i + 2 <= |b|
  {
    256 * b[i] as int + b[i + 1] as int
  }

  /** Section 1.5.3: a length-prefixed string off the front, and the rest. */
  function TakeStr(b: seq<byte>): Option<(seq<byte>, seq<byte>)> {
    if |b| < 2 || |b| < 2 + U16(b, 0) then None
    else Some((b[2..2 + U16(b, 0)], b[2 + U16(b, 0)..]))
  }

  /**
   * Section 2.2.3: the value of the remaining-length field from `i` on, seven bits a byte and the lowest first, and
   * where it ends; a set bit 7 says that another byte follows, up to the fourth.
   */
  function Remaining(b: seq<byte>, i: nat): Option<(nat, nat)>
    decreases |b| - i
  {
    if i >= |b| || i > 4 then None
    else if b[i] < 128 then Some((b[i] as int, i + 1))
    else
      match Remaining(b, i + 1)
      case None => None
      case Some((high, end)) => Some((b[i] as int - 128 + 128 * high, end))
  }

  /** A packet identifier and what follows it; section 2.3.1 forbids zero. */
  function TakeId(b: seq<byte>): Option<(nat, seq<byte>)> {
    if |b| < 2 || U16(b, 0) == 0 then None else Some((U16(b, 0), b[2..]))
  }

  /** Section 3.3. */
  function ReadPublish(dup: bool, qos: nat, retain: bool, b: seq<byte>): Option<Control> {
    if qos == 3 || (qos == 0 && dup) then None
    else
      match TakeStr(b)
      case None => None
      case Some((topic, rest)) =>
        if topic == [] then None
        else if qos == 0 then Some(Publish(dup, qos, retain, topic, 0, rest))
        else
          match TakeId(rest)
          case None => None
          case Some((id, payload)) => Some(Publish(dup, qos, retain, topic, id, payload))
  }

  /** Section 3.8. */
  function ReadSubscribe(b: seq<byte>): Option<Control> {
    match TakeId(b)
    case None => None
    case Some((id, rest)) =>
      match TakeStr(rest)
      case None => None
      case Some((topic, end)) =>
        if topic != [] && |end| == 1 && end[0] <= 2 then Some(Subscribe(id, topic, end[0])) else None
  }

  /** Section 3.10. */
  function ReadUnsubscribe(b: seq<byte>): Option<Control> {
    match TakeId(b)
    case None => None
    case Some((id, rest)) =>
      match TakeStr(rest)
      case None => None
      case Some((topic, end)) => if topic != [] && end == [] then Some(Unsubscribe(id, topic)) else None
  }

  /** Sections 3.4 to 3.7: nothing but an identifier. */
  function OnlyId(b: seq<byte>): Option<nat> {
    match TakeId(b)
    case None => None
    case Some((id, rest)) => if rest == [] then Some(id) else None
  }

  /** What follows the fixed header, by its first byte; reserved bits as section 2.2.2 has them. */
  function ReadBody(first: byte, b: seq<byte>): Option<Control> {
    if first / 16 == 3 then ReadPublish(first / 8 % 2 == 1, first / 2 % 4, first % 2 == 1, b)
    else if first == 0x40 && OnlyId(b).Some? then Some(Puback(OnlyId(b).value))
    else if first == 0x50 && OnlyId(b).Some? then Some(Pubrec(OnlyId(b).value))
    else if first == 0x62 && OnlyId(b).Some? then Some(Pubrel(OnlyId(b).value))
    else if first == 0x70 && OnlyId(b).Some? then Some(Pubcomp(OnlyId(b).value))
    else if first == 0x82 then ReadSubscribe(b)
    else if first == 0xA2 then ReadUnsubscribe(b)
    else if first == 0xC0 && b == [] then Some(Pingreq)
    else if first == 0xD0 && b == [] then Some(Pingresp)
    else if first == 0xE0 && b == [] then Some(Disconnect)
    else None
  }

  /** A packet, no byte more and no byte less. */
  function Read(p: seq<byte>): Option<Control> {
    match Remaining(p, 1)
    case None => None
    case Some((len, end)) => if end + len != |p| then None else ReadBody(p[0], p[end..])
  }
}

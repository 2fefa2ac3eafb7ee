/**
 * The CONNECT packet of mqtt_msg_connect, with the protocol name and level the build selects (MQTT 3.1),
 * against a reference decoder for sections 3.1.1 to 3.1.3 of MQTT 3.1.1.
 */
module Connect {
  import opened Bytes
  import opened Packets
  import opened Mqtt311
  import Wire

  /** The caller's settings; None stands for a null pointer. */
  datatype Info = Info(
    clientId: Option<seq<byte>>,
    willTopic: Option<seq<byte>>,
    willMessage: seq<byte>,
    username: Option<seq<byte>>,
    password: Option<seq<byte>>,
    keepalive: int,
    willQos: int,
    willRetain: bool,
    cleanSession: bool)

  const NAME: seq<byte> := [0x4D, 0x51, 0x49, 0x73, 0x64, 0x70]  // "MQIsdp"
  const LEVEL: byte := 3

  function Bit(b: bool): nat {
    if b then 1 else 0
  }

  /** Bits 7 to 1: user name, password, will retain, will QoS (two bits), will, clean session. */
  function FlagByte(u: nat, p: nat, r: nat, q: nat, w: nat, c: nat): byte
    requires u <= 1 && p <= 1 && r <= 1 && q <= 3 && w <= 1 && c <= 1
  {
    128 * u + 64 * p + 32 * r + 8 * q + 4 * w + 2 * c
  }

  /** What the bits of the flag byte `f` say is what the settings are. */
  ghost predicate FlagsSay(f: byte, info: Info) {
    && f % 2 == 0
    && f / 2 % 2 == Bit(info.cleanSession)
    && f / 4 % 2 == Bit(Given(info.willTopic))
    && f / 8 % 4 == (if Given(info.willTopic) then info.willQos % 4 else 0)
    && f / 32 % 2 == Bit(Given(info.willTopic) && info.willRetain)
    && f / 64 % 2 == Bit(Given(info.password))
    && f / 128 == Bit(Given(info.username))
  }

  function Header(flags: byte, keepalive: int): seq<byte> {
    Str(NAME) + [LEVEL, flags] + Be16(keepalive)
  }

  function OptStr(s: Option<seq<byte>>): seq<byte> {
    if Given(s) then Str(s.value) else []
  }

  function WillPart(info: Info): seq<byte> {
    if Given(info.willTopic) then Str(info.willTopic.value) + Str(info.willMessage) else []
  }

  function Payload(info: Info): seq<byte> {
    OptStr(info.clientId) + WillPart(info) + OptStr(info.username) + OptStr(info.password)
  }

  function Body(f: byte, info: Info): seq<byte> {
    Header(f, info.keepalive) + Payload(info)
  }

  /** `p` is the CONNECT packet for these settings: some flag byte that says them, in the layout of section 3.1. */
  ghost predicate IsConnect(p: seq<byte>, info: Info) {
    exists f: byte :: FlagsSay(f, info) && p == Packet(CONNECT, 0, 0, 0, Body(f, info))
  }

  /** The will flags as the builder adds them up. */
  function WillBits(info: Info): byte {
    if Given(info.willTopic) then 4 + (if info.willRetain then 32 else 0) + info.willQos % 4 * 8 else 0
  }

  function LoginBits(info: Info): byte {
    (if Given(info.username) then 128 else 0) + (if Given(info.password) then 64 else 0)
  }

  // ---------- The reference decoder ----------

  datatype Will = Will(topic: seq<byte>, message: seq<byte>, qos: nat, retain: bool)
  datatype Decoded = Decoded(
    clientId: seq<byte>, will: Option<Will>, username: Option<seq<byte>>, password: Option<seq<byte>>,
    cleanSession: bool, keepalive: nat)

  /** A string, if the flag says that it is there. */
  function TakeIf(flag: bool, b: seq<byte>): Option<(Option<seq<byte>>, seq<byte>)> {
    if !flag then Some((None, b))
    else match TakeStr(b)
      case None => None
      case Some((s, rest)) => Some((Some(s), rest))
  }

  /** Section 3.1.2.3: reserved bit clear, will bits consistent, no password without a user name. */
  predicate LegalFlags(f: byte) {
    && f % 2 == 0
    && (f / 4 % 2 == 0 ==> f / 8 % 4 == 0 && f / 32 % 2 == 0)
    && f / 8 % 4 != 3
    && (f / 128 == 0 ==> f / 64 % 2 == 0)
  }

  /** Will topic and will message, if the will flag is set. */
  function TakeWill(f: byte, b: seq<byte>): Option<(Option<Will>, seq<byte>)> {
    if f / 4 % 2 == 0 then Some((None, b))
    else
      match TakeStr(b)
      case None => None
      case Some((topic, b1)) =>
        match TakeStr(b1)
        case None => None
        case Some((message, b2)) => Some((Some(Will(topic, message, f / 8 % 4, f / 32 % 2 == 1)), b2))
  }

  /** User name and password, each if its flag is set. */
  function TakeLogin(f: byte, b: seq<byte>): Option<(Option<seq<byte>>, Option<seq<byte>>, seq<byte>)> {
    match TakeIf(f / 128 == 1, b)
    case None => None
    case Some((user, b1)) =>
      match TakeIf(f / 64 % 2 == 1, b1)
      case None => None
      case Some((password, b2)) => Some((user, password, b2))
  }

  /** Section 3.1.3: client id, will topic, will message, user name, password, and then nothing. */
  function DecodePayload(f: byte, keepalive: nat, b: seq<byte>): Option<Decoded> {
    match TakeStr(b)
    case None => None
    case Some((id, b1)) =>
      match TakeWill(f, b1)
      case None => None
      case Some((will, b2)) =>
        match TakeLogin(f, b2)
        case None => None
        case Some((user, password, b3)) =>
          if b3 != [] then None else Some(Decoded(id, will, user, password, f / 2 % 2 == 1, keepalive))
  }

  /** "MQIsdp" with its length, and protocol level 3. */
  const PROTOCOL: seq<byte> := [0, 6, 0x4D, 0x51, 0x49, 0x73, 0x64, 0x70, 3]

  /** Behind the fixed header: protocol name and level, flags, keep alive, payload. */
  function DecodeBody(b: seq<byte>): Option<Decoded> {
    if |b| < 12 || b[..9] != PROTOCOL || !LegalFlags(b[9]) then None
    else DecodePayload(b[9], U16(b, 10), b[12..])
  }

  /** The whole packet. */
  function Decode(b: seq<byte>): Option<Decoded> {
    if b == [] || b[0] != 0x10 then None
    else
      match Remaining(b, 1)
      case None => None
      case Some((len, end)) => if end + len != |b| then None else DecodeBody(b[end..])
  }

  /** What a server should understand from `info`. */
  function Meant(info: Info): Decoded
    requires Given(info.clientId)
  {
    Decoded(
      info.clientId.value,
      if Given(info.willTopic)
        then Some(Will(info.willTopic.value, info.willMessage, info.willQos % 4, info.willRetain)) else None,
      if Given(info.username) then info.username else None,
      if Given(info.password) then info.password else None,
      info.cleanSession,
      info.keepalive % 0x1_0000)
  }

  // ---------- Round trip ----------

  lemma TakeOptBack(s: Option<seq<byte>>, rest: seq<byte>)
    requires Given(s) ==> |s.value| < 0x1_0000
    ensures TakeIf(Given(s), OptStr(s) + rest) == Some((if Given(s) then s else None, rest))
  {
    if Given(s) {
      Wire.StrBack(s.value, rest);
    } else {
      assert OptStr(s) + rest == rest;
    }
  }

  /** Each flag comes back out of the byte. */
  lemma FlagByteBits(u: nat, p: nat, r: nat, q: nat, w: nat, c: nat)
    requires u <= 1 && p <= 1 && r <= 1 && q <= 3 && w <= 1 && c <= 1
    ensures
      var f := FlagByte(u, p, r, q, w, c);
      && f % 2 == 0 && f / 2 % 2 == c && f / 4 % 2 == w && f / 8 % 4 == q
      && f / 32 % 2 == r && f / 64 % 2 == p && f / 128 == u
  {
    var f := FlagByte(u, p, r, q, w, c);
    assert f / 64 == 2 * u + p;
    assert f / 32 == 4 * u + 2 * p + r;
    assert f / 8 == 16 * u + 8 * p + 4 * r + q;
    assert f / 4 == 32 * u + 16 * p + 8 * r + 2 * q + w;
    assert f / 2 == 64 * u + 32 * p + 16 * r + 4 * q + 2 * w + c;
  }

  lemma FlagsFromBits(f: byte, info: Info, u: nat, p: nat, r: nat, q: nat, w: nat, c: nat)
    requires u == Bit(Given(info.username)) && p == Bit(Given(info.password))
    requires r == Bit(Given(info.willTopic) && info.willRetain)
    requires q == if Given(info.willTopic) then info.willQos % 4 else 0
    requires w == Bit(Given(info.willTopic)) && c == Bit(info.cleanSession)
    requires f == FlagByte(u, p, r, q, w, c)
    ensures FlagsSay(f, info)
  {
    FlagByteBits(u, p, r, q, w, c);
  }

  /** The flag byte as a sum of the settings. */
  function FlagSum(info: Info): byte {
    var will := Given(info.willTopic);
    FlagByte(Bit(Given(info.username)), Bit(Given(info.password)), Bit(will && info.willRetain),
             if will then info.willQos % 4 else 0, Bit(will), Bit(info.cleanSession))
  }

  lemma FlagsAdded(info: Info)
    ensures Bit(info.cleanSession) * 2 + WillBits(info) + LoginBits(info) == FlagSum(info)
  {
  }

  lemma FlagSumSays(f: byte, info: Info)
    requires f == FlagSum(info)
    ensures FlagsSay(f, info)
  {
    var will := Given(info.willTopic);
    FlagsFromBits(f, info, Bit(Given(info.username)), Bit(Given(info.password)), Bit(will && info.willRetain),
                  if will then info.willQos % 4 else 0, Bit(will), Bit(info.cleanSession));
  }

  lemma ConnectIs(f: byte, info: Info)
    requires f == Bit(info.cleanSession) * 2 + WillBits(info) + LoginBits(info)
    ensures IsConnect(Packet(CONNECT, 0, 0, 0, Body(f, info)), info)
  {
    FlagsAdded(info);
    FlagSumSays(f, info);
  }

  /** The length of every string that is written fits 16 bits. */
  predicate Short(info: Info) {
    && (Given(info.clientId) ==> |info.clientId.value| < 0x1_0000)
    && (Given(info.willTopic) ==> |info.willTopic.value| < 0x1_0000 && |info.willMessage| < 0x1_0000)
    && (Given(info.username) ==> |info.username.value| < 0x1_0000)
    && (Given(info.password) ==> |info.password.value| < 0x1_0000)
  }

  lemma WrittenIsShort(info: Info)
    requires |Payload(info)| < 0x1_0000
    ensures Short(info)
  {
    assert |Payload(info)| == |OptStr(info.clientId)| + |WillPart(info)| + |OptStr(info.username)|
                              + |OptStr(info.password)|;
  }

  lemma WillBack(f: byte, info: Info, rest: seq<byte>)
    requires Short(info) && FlagsSay(f, info)
    ensures TakeWill(f, WillPart(info) + rest)
         == Some((if Given(info.willTopic)
                    then Some(Will(info.willTopic.value, info.willMessage, info.willQos % 4, info.willRetain))
                    else None,
                  rest))
  {
    if Given(info.willTopic) {
      Wire.StrBack(info.willMessage, rest);
      Wire.StrBack(info.willTopic.value, Str(info.willMessage) + rest);
      Assoc(Str(info.willTopic.value), Str(info.willMessage), rest);
    } else {
      assert WillPart(info) + rest == rest;
    }
  }

  lemma LoginBack(f: byte, info: Info)
    requires Short(info) && FlagsSay(f, info)
    ensures TakeLogin(f, OptStr(info.username) + OptStr(info.password))
         == Some((if Given(info.username) then info.username else None,
                  if Given(info.password) then info.password else None, []))
  {
    TakeOptBack(info.username, OptStr(info.password));
    TakeOptBack(info.password, []);
    assert OptStr(info.password) + [] == OptStr(info.password);
  }

  lemma PayloadBack(f: byte, info: Info, keepalive: nat)
    requires Given(info.clientId) && Short(info) && FlagsSay(f, info)
    ensures DecodePayload(f, keepalive, Payload(info)) == Some(Meant(info).(keepalive := keepalive))
  {
    var login := OptStr(info.username) + OptStr(info.password);
    LoginBack(f, info);
    WillBack(f, info, login);
    Wire.StrBack(info.clientId.value, WillPart(info) + login);
    PayloadAssoc(OptStr(info.clientId), WillPart(info), OptStr(info.username), OptStr(info.password));
  }

  lemma PayloadAssoc(a: seq<byte>, b: seq<byte>, c: seq<byte>, d: seq<byte>)
    ensures a + b + c + d == a + (b + (c + d))
  {
  }

  lemma LegalWhen(f: byte, info: Info)
    requires FlagsSay(f, info)
    ensures LegalFlags(f)
       <==> (Given(info.password) ==> Given(info.username)) && (Given(info.willTopic) ==> info.willQos % 4 != 3)
  {
  }

  /** The twelve bytes in front of the payload. */
  lemma HeaderBack(f: byte, keepalive: int, payload: seq<byte>)
    ensures
      var b := Header(f, keepalive) + payload;
      && |b| >= 12 && b[..9] == PROTOCOL && b[9] == f
      && U16(b, 10) == keepalive % 0x1_0000
      && b[12..] == payload
  {
    var b := Header(f, keepalive) + payload;
    assert Header(f, keepalive) == PROTOCOL + [f] + Be16(keepalive);
    assert b[10] == keepalive / 256 % 256 && b[11] == keepalive % 256;
    TwoBytes(keepalive);
  }

  lemma TwoBytes(n: int)
    ensures 256 * (n / 256 % 256) + n % 256 == n % 0x1_0000
  {
  }

  lemma BodyBack(f: byte, info: Info)
    requires Given(info.clientId) && Short(info) && FlagsSay(f, info)
    ensures DecodeBody(Body(f, info)) == if LegalFlags(f) then Some(Meant(info)) else None
  {
    HeaderBack(f, info.keepalive, Payload(info));
    PayloadBack(f, info, info.keepalive % 0x1_0000);
  }

  lemma PacketBack(f: byte, info: Info, body: seq<byte>)
    requires Given(info.clientId) && Short(info) && FlagsSay(f, info)
    requires body == Body(f, info) && |body| <= 16383
    ensures Decode(Packet(CONNECT, 0, 0, 0, body)) == if LegalFlags(f) then Some(Meant(info)) else None
  {
    Wire.LengthRead(CONNECT, 0, 0, 0, body);
    BodyBack(f, info);
  }

  /** A CONNECT built in a buffer of `size` bytes stays in it. */
  lemma ConnectFits(p: seq<byte>, info: Info, size: nat)
    requires IsConnect(p, info) && 15 + |Payload(info)| <= size
    ensures |p| <= size
  {
    var f: byte :| FlagsSay(f, info) && p == Packet(CONNECT, 0, 0, 0, Body(f, info));
    assert |Body(f, info)| == 12 + |Payload(info)|;
  }

  /**
   * The CONNECT round trip: a strict server recovers every setting and consumes the packet exactly,
   * if and only if the caller gave no password without a user name and no will QoS of 3.
   */
  lemma ConnectReadBack(p: seq<byte>, info: Info)
    requires Given(info.clientId) && |p| <= 16386 && IsConnect(p, info)
    ensures
      var acceptable := (Given(info.password) ==> Given(info.username))
                        && (Given(info.willTopic) ==> info.willQos % 4 != 3);
      Decode(p) == if acceptable then Some(Meant(info)) else None
  {
    var f: byte :| FlagsSay(f, info) && p == Packet(CONNECT, 0, 0, 0, Body(f, info));
    assert |Body(f, info)| == 12 + |Payload(info)|;
    WrittenIsShort(info);
    LegalWhen(f, info);
    PacketBack(f, info, Body(f, info));
  }
}

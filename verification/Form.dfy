/** The settings form of the web server (http_config.c): cutting the body into fields and decoding their values. */
module Form {
  import opened Bytes

  // ---------- Encoded values ----------

  predicate IsHex(c: char) {
    '0' <= c <= '9' || 'a' <= c <= 'f' || 'A' <= c <= 'F'
  }

  function HexDigit(c: char): (d: nat)
    requires IsHex(c)
    ensures d < 16
  {
    if c <= '9' then c as int - '0' as int
    else if c <= 'F' then c as int - 'A' as int + 10
    else c as int - 'a' as int + 10
  }

  /** The hexadecimal digits are these, in either case. */
  lemma HexDigitsAre(c: char, d: nat)
    requires d < 16
    ensures IsHex(c) <==> c in "0123456789abcdef" || c in "0123456789ABCDEF"
    ensures IsHex(c) ==> (HexDigit(c) == d <==> c == "0123456789abcdef"[d] || c == "0123456789ABCDEF"[d])
  {
    var lower, upper := "0123456789abcdef", "0123456789ABCDEF";
    assert lower[d] == (if d < 10 then ('0' as int + d) as char else ('a' as int + d - 10) as char);
    assert upper[d] == (if d < 10 then ('0' as int + d) as char else ('A' as int + d - 10) as char);
    if IsHex(c) {
      assert c == lower[HexDigit(c)] || c == upper[HexDigit(c)];
    }
  }

  /** The hexadecimal number at the head of `s`, after `acc`. */
  function Hex(s: string, acc: nat): nat {
    if s == "" || !IsHex(s[0]) then acc else Hex(s[1..], 16 * acc + HexDigit(s[0]))
  }

  predicate IsSpace(c: char) {
    c == ' ' || 9 <= c as int <= 13
  }

  /** strtol in base 16. Two characters leave no room for a digit after a "0x". */
  function Strtol(s: string): int
    requires |s| <= 2
  {
    if s == "" then 0
    else if IsSpace(s[0]) then Strtol(s[1..])
    else if s[0] == '-' then 0 - Hex(s[1..], 0)
    else if s[0] == '+' then Hex(s[1..], 0)
    else Hex(s, 0)
  }

  /** Stored in a char. */
  function AsChar(n: int): char {
    (n % 256) as char
  }

  /** Where the decoder goes on after the `%` at `p`: past the end when the text is cut short. */
  function From(s: string, p: nat): (r: string)
    ensures |r| == if p < |s| then |s| - p else 0
  {
    if p < |s| then s[p..] else ""
  }

  function Decode(s: string): (r: string)
    ensures |r| <= |s|
    decreases |s|
  {
    if s == "" then ""
    else if s[0] == '+' then " " + Decode(s[1..])
    else if s[0] == '%' then [AsChar(Strtol(Cut(s[1..], 2)))] + Decode(From(s, 3))
    else [s[0]] + Decode(s[1..])
  }

  /** Percent signs that no browser sends, with one digit: a space or a sign is as strtol takes it. */
  lemma MalformedPercent(c: char, rest: string)
    requires IsHex(c)
    ensures Decode(['%', c, 'x'] + rest) == [HexDigit(c) as char] + Decode(rest)
    ensures Decode(['%', ' ', c] + rest) == [HexDigit(c) as char] + Decode(rest)
    ensures Decode(['%', '+', c] + rest) == [HexDigit(c) as char] + Decode(rest)
    ensures Decode(['%', '-', c] + rest)
         == [(if HexDigit(c) == 0 then 0 else 256 - HexDigit(c)) as char] + Decode(rest)
  {
    OnePercent(c, 'x', rest);
    OnePercent(' ', c, rest);
    OnePercent('+', c, rest);
    OnePercent('-', c, rest);
    SmallChar(HexDigit(c));
  }

  lemma SmallChar(d: nat)
    requires d < 16
    ensures AsChar(d) == d as char && AsChar(0 - d) == (if d == 0 then 0 else 256 - d) as char
  {
  }

  lemma OnePercent(a: char, b: char, rest: string)
    ensures Decode(['%', a, b] + rest) == [AsChar(Strtol([a, b]))] + Decode(rest)
    ensures IsHex(a) && !IsHex(b) ==> Strtol([a, b]) == HexDigit(a)
    ensures !IsHex(a) && !IsSpace(a) && a != '-' && a != '+' ==> Strtol([a, b]) == 0 && AsChar(0) == '\0'
    ensures a == ' ' && IsHex(b) ==> Strtol([a, b]) == HexDigit(b)
    ensures a == '+' && IsHex(b) ==> Strtol([a, b]) == HexDigit(b)
    ensures a == '-' && IsHex(b) ==> Strtol([a, b]) == 0 - HexDigit(b)
  {
    var s := ['%', a, b] + rest;
    assert s[1..] == [a, b] + rest;
    assert Cut(s[1..], 2) == [a, b];
    assert From(s, 3) == rest;
    assert [a, b][1..] == [b] && [b][1..] == "";
    assert Hex([b], 0) == if IsHex(b) then HexDigit(b) else 0;
    if IsHex(a) {
      assert Hex([a, b], 0) == Hex([b], HexDigit(a));
    }
  }

  /** What C sees of a buffer: up to the first NUL. */
  function CString(s: string): string {
    if s == "" || s[0] == '\0' then "" else [s[0]] + CString(s[1..])
  }

  lemma {:induction false} CStringEnds(s: string, rest: string)
    ensures CString(s + ['\0'] + rest) == CString(s)
  {
    if s != "" {
      var t := s + ['\0'] + rest;
      assert t[1..] == s[1..] + ['\0'] + rest;
      CStringEnds(s[1..], rest);
    }
  }

  lemma {:induction false} CStringOfText(s: string)
    requires '\0' !in s
    ensures CString(s) == s
  {
    if s != "" {
      CStringOfText(s[1..]);
    }
  }

  /** The character that the text at `p` stands for, and where the text goes on. */
  function CharAt(s: string, p: nat): (char, nat)
    requires p < |s|
  {
    if s[p] == '+' then (' ', p + 1)
    else if s[p] == '%' then (AsChar(Strtol(Cut(s[p + 1..], 2))), p + 3)
    else (s[p], p + 1)
  }

  lemma DecodeAt(s: string, p: nat)
    requires p < |s|
    ensures var (c, next) := CharAt(s, p);
            Decode(From(s, p)) == [c] + Decode(From(s, next))
  {
    var left := From(s, p);
    assert left[1..] == From(s, p + 1) == s[p + 1..];
    assert From(left, 3) == From(s, p + 3);
  }

  lemma DecodeOn(done: string, s: string, p: nat)
    requires p < |s| && done + Decode(From(s, p)) == Decode(s)
    ensures var (c, next) := CharAt(s, p);
            done + [c] + Decode(From(s, next)) == Decode(s)
  {
    var (c, next) := CharAt(s, p);
    DecodeAt(s, p);
    Assoc(done, [c], Decode(From(s, next)));
  }

  /** One turn of the loop below. */
  method DecodeOne(encoded: string, position: nat) returns (c: char, next: nat)
    requires position < |encoded|
    ensures (c, next) == CharAt(encoded, position)
  {
    if encoded[position] == '+' {
      return ' ', position + 1;
    } else if encoded[position] == '%' {
      var tmp := Cut(encoded[position + 1..], 2);
      return AsChar(Strtol(tmp)), position + 3;
    } else {
      return encoded[position], position + 1;
    }
  }

  /** HTTPConfig_HTMLEntityDecode: the 64-byte buffer it returns, with its terminator. */
  method HTMLEntityDecode(encoded: string) returns (decoded: array<char>)
    requires |encoded| < 64
    ensures fresh(decoded) && decoded.Length == 64
    ensures CString(decoded[..]) == CString(Decode(encoded))
  {
    decoded := new char[64];
    var encodedPosition, decodedPosition := 0, 0;
    ghost var done := "";
    while encodedPosition < |encoded|
      invariant decodedPosition <= encodedPosition && decodedPosition <= |encoded|
      invariant decoded[..decodedPosition] == done
      invariant done + Decode(From(encoded, encodedPosition)) == Decode(encoded)
    {
      DecodeOn(done, encoded, encodedPosition);
      var c;
      c, encodedPosition := DecodeOne(encoded, encodedPosition);
      decoded[decodedPosition] := c;
      decodedPosition := decodedPosition + 1;
      done := done + [c];
    }
    decoded[decodedPosition] := '\0';
    Finished(decoded, decodedPosition, encoded);
  }

  lemma Finished(decoded: array<char>, n: nat, encoded: string)
    requires n < decoded.Length && decoded[n] == '\0'
    requires decoded[..n] + "" == Decode(encoded)
    ensures CString(decoded[..]) == CString(Decode(encoded))
  {
    CStringEnds(decoded[..n], decoded[n + 1..]);
    assert decoded[..] == decoded[..n] + ['\0'] + decoded[n + 1..];
    assert decoded[..n] == Decode(encoded);
  }

  // ---------- What browsers send (section 17.13.4.1 of HTML 4.01) ----------

  /** One character of a value: itself, a plus for a space, or two hexadecimal digits. */
  datatype Piece = Plain(c: char) | Plus | Percent(hi: char, lo: char)

  predicate Legal(p: Piece) {
    match p
    case Plain(c) => c != '+' && c != '%' && c != '&' && c != '\0'
    case Plus => true
    case Percent(hi, lo) => IsHex(hi) && IsHex(lo)
  }

  function Sent(p: Piece): (s: string)
    ensures |s| > 0
  {
    match p
    case Plain(c) => [c]
    case Plus => "+"
    case Percent(hi, lo) => ['%', hi, lo]
  }

  function Meant(p: Piece): char
    requires Legal(p)
  {
    match p
    case Plain(c) => c
    case Plus => ' '
    case Percent(hi, lo) => (16 * HexDigit(hi) + HexDigit(lo)) as char
  }

  function SentAll(ps: seq<Piece>): string {
    if ps == [] then "" else Sent(ps[0]) + SentAll(ps[1..])
  }

  predicate AllLegal(ps: seq<Piece>) {
    forall i :: 0 <= i < |ps| ==> Legal(ps[i])
  }

  function MeantAll(ps: seq<Piece>): string
    requires AllLegal(ps)
  {
    if ps == [] then "" else [Meant(ps[0])] + MeantAll(ps[1..])
  }

  lemma StrtolOfDigits(hi: char, lo: char)
    requires IsHex(hi) && IsHex(lo)
    ensures Strtol([hi, lo]) == 16 * HexDigit(hi) + HexDigit(lo)
  {
    var s := [hi, lo];
    assert s[1..] == [lo];
    assert [lo][1..] == "";
    assert Hex([lo], HexDigit(hi)) == Hex("", 16 * HexDigit(hi) + HexDigit(lo));
  }

  /** Whatever legal way a value is written, it decodes to the value. */
  lemma {:induction false} DecodeSent(ps: seq<Piece>)
    requires AllLegal(ps)
    ensures Decode(SentAll(ps)) == MeantAll(ps)
  {
    if ps != [] {
      DecodeSent(ps[1..]);
      DecodeHead(ps[0], SentAll(ps[1..]));
    }
  }

  lemma DecodeHead(p: Piece, rest: string)
    requires Legal(p)
    ensures Decode(Sent(p) + rest) == [Meant(p)] + Decode(rest)
  {
    var s := Sent(p) + rest;
    match p
    case Plain(c) => assert s[1..] == rest;
    case Plus => assert s[1..] == rest;
    case Percent(hi, lo) =>
      StrtolOfDigits(hi, lo);
      assert s[1..] == [hi, lo] + rest;
      assert Cut(s[1..], 2) == [hi, lo];
      assert From(s, 3) == rest;
  }

  function Digit(d: nat): (c: char)
    requires d < 16
    ensures IsHex(c) && HexDigit(c) == d
  {
    if d < 10 then ('0' as int + d) as char else ('A' as int + d - 10) as char
  }

  /** The usual encoder: letters, digits and `*-._` stay, a space becomes a plus, the rest is written in hexadecimal. */
  function Written(c: char): (p: Piece)
    requires 0 < c as int < 256
    ensures Legal(p) && Meant(p) == c
  {
    if 'a' <= c <= 'z' || 'A' <= c <= 'Z' || '0' <= c <= '9' || c in "*-._" then Plain(c)
    else if c == ' ' then Plus
    else Percent(Digit(c as int / 16), Digit(c as int % 16))
  }

  /** A text of bytes other than NUL. */
  predicate IsText(s: string) {
    forall i :: 0 <= i < |s| ==> 0 < s[i] as int < 256
  }

  function WrittenAll(s: string): (ps: seq<Piece>)
    requires IsText(s)
    ensures AllLegal(ps) && MeantAll(ps) == s
  {
    if s == "" then [] else [Written(s[0])] + WrittenAll(s[1..])
  }

  // ---------- The body of the request ----------

  /** The first `c` (strstr with one character), or the length where there is none. */
  function Find(s: string, c: char): (n: nat)
    ensures n <= |s| && (n < |s| ==> s[n] == c)
    ensures forall i :: 0 <= i < n ==> s[i] != c
  {
    if s == "" || s[0] == c then 0 else 1 + Find(s[1..], c)
  }

  lemma FindAt(a: string, c: char, b: string)
    requires c !in a
    ensures var s := a + [c] + b;
            Find(s, c) == |a| && s[..|a|] == a && s[|a| + 1..] == b
  {
    var s := a + [c] + b;
    assert s[|a|] == c;
    assert s[..|a|] == a;
    assert Find(s, c) == |a|;
  }

  /** The names and raw values the loop meets; text after the last `&` without a `=` ends it. */
  function Pairs(s: string): seq<(string, string)> {
    var e := Find(s, '=');
    if e == |s| then []
    else
      var rest := s[e + 1..];
      var a := Find(rest, '&');
      [(s[..e], rest[..a])] + if a == |rest| then [] else Pairs(rest[a + 1..])
  }

  lemma PairsFrom(s: string, e: nat, rest: string, a: nat)
    requires e == Find(s, '=') < |s| && rest == s[e + 1..] && a == Find(rest, '&')
    ensures Pairs(s) == [(s[..e], rest[..a])] + if a == |rest| then [] else Pairs(rest[a + 1..])
  {
  }

  /** A form as sent: names in the clear, values encoded. */
  datatype Input = Input(key: string, value: seq<Piece>)

  predicate LegalInput(i: Input) {
    '=' !in i.key && '&' !in i.key && AllLegal(i.value)
  }

  function Body(form: seq<Input>): string
    requires |form| > 0
  {
    var value := SentAll(form[0].value);
    form[0].key + "=" + if |form| == 1 then value else value + "&" + Body(form[1..])
  }

  function RawPairs(form: seq<Input>): seq<(string, string)> {
    if form == [] then [] else [(form[0].key, SentAll(form[0].value))] + RawPairs(form[1..])
  }

  lemma {:induction false} NoAmpersand(ps: seq<Piece>)
    requires AllLegal(ps)
    ensures '&' !in SentAll(ps)
  {
    if ps != [] {
      NoAmpersand(ps[1..]);
      assert '&' !in Sent(ps[0]);
    }
  }

  lemma LastField(key: string, value: string)
    requires '=' !in key && '&' !in value
    ensures Pairs(key + "=" + value) == [(key, value)]
  {
    FindAt(key, '=', value);
    assert Find(value, '&') == |value|;
    assert value[..|value|] == value;
  }

  lemma NextField(key: string, value: string, more: string)
    requires '=' !in key && '&' !in value
    ensures Pairs(key + "=" + (value + "&" + more)) == [(key, value)] + Pairs(more)
  {
    FindAt(key, '=', value + "&" + more);
    FindAt(value, '&', more);
  }

  /** The body is cut into exactly the fields that were sent. */
  lemma {:induction false} PairsOfBody(form: seq<Input>)
    requires |form| > 0 && forall i :: 0 <= i < |form| ==> LegalInput(form[i])
    ensures Pairs(Body(form)) == RawPairs(form)
  {
    var key, value := form[0].key, SentAll(form[0].value);
    NoAmpersand(form[0].value);
    if |form| == 1 {
      LastField(key, value);
      assert RawPairs(form[1..]) == [];
    } else {
      PairsOfBody(form[1..]);
      NextField(key, value, Body(form[1..]));
    }
  }

  // ---------- The settings ----------

  predicate IsDecimal(c: char) {
    '0' <= c <= '9'
  }

  function Digits(s: string, acc: nat): nat {
    if s == "" || !IsDecimal(s[0]) then acc else Digits(s[1..], 10 * acc + (s[0] as int - '0' as int))
  }

  function Atoi(s: string): int {
    if s == "" then 0
    else if IsSpace(s[0]) then Atoi(s[1..])
    else if s[0] == '-' then 0 - Digits(s[1..], 0)
    else if s[0] == '+' then Digits(s[1..], 0)
    else Digits(s, 0)
  }

  /** A number as a browser writes it. */
  function Decimal(n: nat): (s: string)
    ensures s != "" && forall i :: 0 <= i < |s| ==> IsDecimal(s[i])
  {
    (if n < 10 then "" else Decimal(n / 10)) + [('0' as int + n % 10) as char]
  }

  lemma {:induction false} DigitsGrow(s: string, d: char, acc: nat)
    requires IsDecimal(d) && forall i :: 0 <= i < |s| ==> IsDecimal(s[i])
    ensures Digits(s + [d], acc) == 10 * Digits(s, acc) + (d as int - '0' as int)
  {
    if s == "" {
      assert ("" + [d])[1..] == "";
    } else {
      assert (s + [d])[1..] == s[1..] + [d];
      DigitsGrow(s[1..], d, 10 * acc + (s[0] as int - '0' as int));
    }
  }

  lemma {:induction false} DigitsOfDecimal(n: nat)
    ensures Digits(Decimal(n), 0) == n
  {
    var d := ('0' as int + n % 10) as char;
    if n < 10 {
      DigitsGrow("", d, 0);
    } else {
      DigitsOfDecimal(n / 10);
      DigitsGrow(Decimal(n / 10), d, 0);
    }
  }

  lemma {:induction false} DigitsStop(s: string, rest: string, acc: nat)
    requires forall i :: 0 <= i < |s| ==> IsDecimal(s[i])
    requires rest == "" || !IsDecimal(rest[0])
    ensures Digits(s + rest, acc) == Digits(s, acc)
  {
    if s == "" {
      assert s + rest == rest;
    } else {
      assert (s + rest)[1..] == s[1..] + rest;
      DigitsStop(s[1..], rest, 10 * acc + (s[0] as int - '0' as int));
    }
  }

  /** The number at the head, whatever follows it; a space or a sign may come first. */
  lemma AtoiOfDecimal(n: nat, rest: string)
    requires rest == "" || !IsDecimal(rest[0])
    ensures Atoi(Decimal(n) + rest) == n
    ensures Atoi("-" + (Decimal(n) + rest)) == 0 - n && Atoi("+" + (Decimal(n) + rest)) == n
    ensures Atoi(" " + (Decimal(n) + rest)) == n
  {
    var s := Decimal(n) + rest;
    DigitsOfDecimal(n);
    DigitsStop(Decimal(n), rest, 0);
    assert IsDecimal(Decimal(n)[0]) && s[0] == Decimal(n)[0];
    assert ("-" + s)[1..] == s && ("+" + s)[1..] == s && (" " + s)[1..] == s;
  }

  /** The fields of SYSCFG the form can name; a scale is whatever os_atof makes of its text. */
  datatype Setting = Text(s: string) | Number(n: int) | Scale(s: string)

  type Settings = map<string, Setting>

  /** The text fields and the room each has, terminator included. */
  const ROOM: map<string, nat> := map[
    "sta_ssid" := 64, "sta_pwd" := 64, "mqtt_host" := 64, "mqtt_user" := 32, "mqtt_pass" := 32,
    "mqtt_topicroot" := 64, "mqtt_topicadc0" := 32, "mqtt_topicadc1" := 32, "mqtt_topicadc2" := 32,
    "mqtt_topicadc3" := 32]

  const NUMBERS: set<string> := {"mqtt_port", "mqtt_keepalive"}

  const SCALES: set<string> := {"mqtt_muladc0", "mqtt_muladc1", "mqtt_muladc2", "mqtt_muladc3"}

  predicate Known(key: string) {
    key in ROOM || key in NUMBERS || key in SCALES
  }

  function Converted(key: string, value: string): Setting {
    if key in NUMBERS then Number(Atoi(value)) else if key in SCALES then Scale(value) else Text(value)
  }

  function Assigned(cfg: Settings, key: string, value: string): Settings {
    if Known(key) then cfg[key := Converted(key, value)] else cfg
  }

  function AssignedAll(cfg: Settings, pairs: seq<(string, string)>): Settings
    decreases |pairs|
  {
    if pairs == [] then cfg
    else AssignedAll(Assigned(cfg, pairs[0].0, CString(Decode(pairs[0].1))), pairs[1..])
  }

  /** Names and raw values fit the 64-byte buffers, and decoded texts fit their fields. */
  predicate FitsBuffers(pair: (string, string)) {
    && |pair.0| < 64 && |pair.1| < 64
    && (pair.0 in ROOM ==> |CString(Decode(pair.1))| < ROOM[pair.0])
  }

  class HttpConfig {
    var sysCfg: Settings

    constructor (cfg: Settings)
      ensures sysCfg == cfg
    {
      sysCfg := cfg;
    }

    /** HTTPConfig_SetData: `loaded` is what CFG_Load finds, `saved` what CFG_Save stores. */
    method SetData(body: string, loaded: Settings) returns (saved: Settings)
      requires '\0' !in body
      requires forall i :: 0 <= i < |Pairs(body)| ==> FitsBuffers(Pairs(body)[i])
      modifies this
      ensures sysCfg == AssignedAll(loaded, Pairs(body)) && saved == sysCfg
    {
      sysCfg := loaded;
      var httpData, loop := body, true;
      ghost var left := Pairs(body);
      while loop
        invariant left == if loop then Pairs(httpData) else []
        invariant forall i :: 0 <= i < |left| ==> FitsBuffers(left[i])
        invariant AssignedAll(sysCfg, left) == AssignedAll(loaded, Pairs(body))
        decreases loop, |httpData|
      {
        var end := Find(httpData, '=');
        if end == |httpData| {
          break;
        }
        var key, raw;
        key, raw, httpData, loop := CutField(httpData, end);
        assert FitsBuffers(left[0]);
        var decoded := HTMLEntityDecode(raw);
        Assign(key, CString(decoded[..]));
        left := left[1..];
      }
      saved := sysCfg;
    }

    /** Around the `=` at `equals`: the name, the raw value, what follows its `&`, and whether there is one. */
    static method CutField(httpData: string, equals: nat) returns (key: string, raw: string, rest: string, more: bool)
      requires equals == Find(httpData, '=') < |httpData|
      ensures Pairs(httpData) == [(key, raw)] + if more then Pairs(rest) else []
      ensures |rest| < |httpData|
    {
      key, rest := httpData[..equals], httpData[equals + 1..];
      var end := Find(rest, '&');
      PairsFrom(httpData, equals, rest, end);
      more := end < |rest|;
      raw := rest[..end];
      rest := if more then rest[end + 1..] else "";
    }

    /** The chain of comparisons. */
    method Assign(key: string, value: string)
      requires key in ROOM ==> |value| < ROOM[key]
      modifies this
      ensures sysCfg == Assigned(old(sysCfg), key, value)
    {
      if key in ROOM {
        sysCfg := sysCfg[key := Text(value)];
      } else if key in NUMBERS {
        sysCfg := sysCfg[key := Number(Atoi(value))];
      } else if key in SCALES {
        sysCfg := sysCfg[key := Scale(value)];
      }
    }
  }

  // ---------- The round trip ----------

  function Lookup(cfg: Settings, name: string): Option<Setting> {
    if name in cfg then Some(cfg[name]) else None
  }

  /** What the form says a field should be: its last value, if it has one. */
  function Asked(form: seq<Input>, name: string): Option<string>
    requires forall i :: 0 <= i < |form| ==> LegalInput(form[i])
  {
    if form == [] then None
    else
      var last := form[|form| - 1];
      assert LegalInput(last);
      if last.key == name then Some(CString(MeantAll(last.value))) else Asked(form[..|form| - 1], name)
  }

  lemma {:induction false} AssignedAllSplits(cfg: Settings, a: seq<(string, string)>, p: (string, string))
    ensures AssignedAll(cfg, a + [p]) == Assigned(AssignedAll(cfg, a), p.0, CString(Decode(p.1)))
    decreases |a|
  {
    if a == [] {
      assert AssignedAll(Assigned(cfg, p.0, CString(Decode(p.1))), (a + [p])[1..])
          == Assigned(cfg, p.0, CString(Decode(p.1)));
    } else {
      assert (a + [p])[1..] == a[1..] + [p];
      AssignedAllSplits(Assigned(cfg, a[0].0, CString(Decode(a[0].1))), a[1..], p);
    }
  }

  lemma {:induction false} RawPairsSplits(form: seq<Input>)
    requires |form| > 0
    ensures var n := |form| - 1;
            RawPairs(form) == RawPairs(form[..n]) + [(form[n].key, SentAll(form[n].value))]
  {
    var n := |form| - 1;
    if n > 0 {
      RawPairsSplits(form[1..]);
      assert form[1..][..n - 1] == form[..n][1..];
    }
  }

  lemma LookupAssigned(cfg: Settings, key: string, value: string, name: string)
    ensures Lookup(Assigned(cfg, key, value), name)
         == if Known(name) && key == name then Some(Converted(name, value)) else Lookup(cfg, name)
  {
  }

  lemma {:induction false} AskedIsAssigned(form: seq<Input>, loaded: Settings, name: string)
    requires forall i :: 0 <= i < |form| ==> LegalInput(form[i])
    ensures Lookup(AssignedAll(loaded, RawPairs(form)), name)
         == if Known(name) && Asked(form, name).Some? then Some(Converted(name, Asked(form, name).value))
            else Lookup(loaded, name)
  {
    if form != [] {
      var n := |form| - 1;
      var last, before := form[n], RawPairs(form[..n]);
      AskedIsAssigned(form[..n], loaded, name);
      RawPairsSplits(form);
      assert LegalInput(last);
      DecodeSent(last.value);
      AssignedAllSplits(loaded, before, (last.key, SentAll(last.value)));
      LookupAssigned(AssignedAll(loaded, before), last.key, CString(MeantAll(last.value)), name);
    }
  }

  /**
   * A form sent in any legal encoding sets each field it names to the last value given for it, and leaves every
   * other setting, those it cannot name included, as it was loaded.
   */
  lemma FormRoundTrip(form: seq<Input>, loaded: Settings, name: string)
    requires |form| > 0 && forall i :: 0 <= i < |form| ==> LegalInput(form[i])
    ensures Lookup(AssignedAll(loaded, Pairs(Body(form))), name)
         == if Known(name) && Asked(form, name).Some? then Some(Converted(name, Asked(form, name).value))
            else Lookup(loaded, name)
  {
    PairsOfBody(form);
    AskedIsAssigned(form, loaded, name);
  }

  // ---------- Each setting by its name ----------

  /** The setting `name` after this form was submitted to a device whose settings were `loaded`. */
  function Submitted(form: seq<Input>, loaded: Settings, name: string): Option<Setting>
    requires |form| > 0
  {
    Lookup(AssignedAll(loaded, Pairs(Body(form))), name)
  }

  /** The form asks for this value, in whatever encoding: it is the last given for the name, and has no NUL. */
  predicate Asks(form: seq<Input>, name: string, value: string)
    requires forall i :: 0 <= i < |form| ==> LegalInput(form[i])
  {
    Asked(form, name) == Some(value)
  }

  /** The port and the keepalive time are the number sent. */
  lemma NumbersArrive(form: seq<Input>, loaded: Settings, n: nat)
    requires |form| > 0 && forall i :: 0 <= i < |form| ==> LegalInput(form[i])
    ensures Asks(form, "mqtt_port", Decimal(n)) ==> Submitted(form, loaded, "mqtt_port") == Some(Number(n))
    ensures Asks(form, "mqtt_keepalive", Decimal(n)) ==> Submitted(form, loaded, "mqtt_keepalive") == Some(Number(n))
  {
    assert Decimal(n) + "" == Decimal(n);
    AtoiOfDecimal(n, "");
    FormRoundTrip(form, loaded, "mqtt_port");
    FormRoundTrip(form, loaded, "mqtt_keepalive");
  }

  lemma TextName(name: string, value: string)
    requires name in {"sta_ssid", "sta_pwd", "mqtt_host", "mqtt_user", "mqtt_pass", "mqtt_topicroot",
                      "mqtt_topicadc0", "mqtt_topicadc1", "mqtt_topicadc2", "mqtt_topicadc3"}
    ensures Known(name) && Converted(name, value) == Text(value)
  {
    assert "mqtt_port"[6] == 'o' && "mqtt_keepalive"[6] == 'e' && |"mqtt_port"| == 9 && |"mqtt_keepalive"| == 14;
    assert "mqtt_muladc0"[6] == "mqtt_muladc1"[6] == "mqtt_muladc2"[6] == "mqtt_muladc3"[6] == 'u';
  }

  /** The texts are the text sent. */
  lemma TextsArrive(form: seq<Input>, loaded: Settings, name: string, value: string)
    requires |form| > 0 && forall i :: 0 <= i < |form| ==> LegalInput(form[i])
    requires name in {"sta_ssid", "sta_pwd", "mqtt_host", "mqtt_user", "mqtt_pass", "mqtt_topicroot",
                      "mqtt_topicadc0", "mqtt_topicadc1", "mqtt_topicadc2", "mqtt_topicadc3"}
    requires Asks(form, name, value)
    ensures Submitted(form, loaded, name) == Some(Text(value))
  {
    TextName(name, value);
    FormRoundTrip(form, loaded, name);
  }

  lemma ScaleName(name: string, value: string)
    requires name in {"mqtt_muladc0", "mqtt_muladc1", "mqtt_muladc2", "mqtt_muladc3"}
    ensures Known(name) && Converted(name, value) == Scale(value)
  {
    assert "mqtt_port"[6] == 'o' && "mqtt_keepalive"[6] == 'e';
    assert name[6] == 'u';
  }

  /** The factors are what os_atof makes of the text sent. */
  lemma ScalesArrive(form: seq<Input>, loaded: Settings, name: string, value: string)
    requires |form| > 0 && forall i :: 0 <= i < |form| ==> LegalInput(form[i])
    requires name in {"mqtt_muladc0", "mqtt_muladc1", "mqtt_muladc2", "mqtt_muladc3"} && Asks(form, name, value)
    ensures Submitted(form, loaded, name) == Some(Scale(value))
  {
    ScaleName(name, value);
    FormRoundTrip(form, loaded, name);
  }

  lemma OtherName(name: string)
    requires name !in {"sta_ssid", "sta_pwd", "mqtt_host", "mqtt_port", "mqtt_user", "mqtt_pass", "mqtt_keepalive",
                       "mqtt_topicroot", "mqtt_topicadc0", "mqtt_muladc0", "mqtt_topicadc1", "mqtt_muladc1",
                       "mqtt_topicadc2", "mqtt_muladc2", "mqtt_topicadc3", "mqtt_muladc3"}
    ensures !Known(name)
  {
  }

  /** A setting that the form does not name, or cannot name, is as it was loaded. */
  lemma OthersStay(form: seq<Input>, loaded: Settings, name: string)
    requires |form| > 0 && forall i :: 0 <= i < |form| ==> LegalInput(form[i])
    requires
      || Asked(form, name) == None
      || name !in {"sta_ssid", "sta_pwd", "mqtt_host", "mqtt_port", "mqtt_user", "mqtt_pass", "mqtt_keepalive",
                   "mqtt_topicroot", "mqtt_topicadc0", "mqtt_muladc0", "mqtt_topicadc1", "mqtt_muladc1",
                   "mqtt_topicadc2", "mqtt_muladc2", "mqtt_topicadc3", "mqtt_muladc3"}
    ensures Submitted(form, loaded, name) == if name in loaded then Some(loaded[name]) else None
  {
    if Asked(form, name) != None {
      OtherName(name);
    }
    FormRoundTrip(form, loaded, name);
  }

  /** What is asked for is the meaning of the last input of that name, up to a NUL. */
  lemma AskedIs(form: seq<Input>, i: nat)
    requires i < |form| && forall k :: 0 <= k < |form| ==> LegalInput(form[k])
    requires LegalInput(form[i]) && '\0' !in MeantAll(form[i].value)
    requires forall k :: i < k < |form| ==> form[k].key != form[i].key
    ensures Asks(form, form[i].key, MeantAll(form[i].value))
    decreases |form|
  {
    var n := |form| - 1;
    assert LegalInput(form[i]);
    if i == n {
      CStringOfText(MeantAll(form[i].value));
    } else {
      AskedIs(form[..n], i);
    }
  }
}

/** The bit-banged I2C master (i2c_master.c), read back by a reference bus decoder after UM10204. */
module I2c {
  import opened Bytes

  // ---------- The bus as a listener sees it (sections 3.1.3 to 3.1.6 of UM10204) ----------

  datatype Symbol = Start | Stop | Bit(level: bool) | Glitch

  /** The two lines, whether SDA has kept its level since SCL last rose, and what was heard so far. */
  datatype Listener = Listener(sda: bool, scl: bool, stable: bool, heard: seq<Symbol>)

  /**
   * One new pair of levels. While SCL is high an edge of SDA is a START or a STOP; a bit counts when SCL falls, if
   * SDA was stable. Both lines changing at once is a glitch.
   */
  function Hear(l: Listener, sda: bool, scl: bool): Listener {
    if l.scl == scl then
      if l.sda == sda then l
      else if scl then Listener(sda, scl, false, l.heard + [if sda then Stop else Start])
      else l.(sda := sda)
    else if l.sda != sda then Listener(sda, scl, false, l.heard + [Glitch])
    else if scl then Listener(sda, scl, true, l.heard)
    else if l.stable then Listener(sda, scl, false, l.heard + [Bit(sda)])
    else l.(scl := scl)
  }

  /** A listener on a free bus, after a sequence of levels (SDA, SCL). */
  function HearAll(trace: seq<(bool, bool)>): Listener {
    if trace == [] then Listener(true, true, false, [])
    else
      var n := |trace| - 1;
      Hear(HearAll(trace[..n]), trace[n].0, trace[n].1)
  }

  // ---------- Bytes as bits ----------

  /** `b >> i` */
  function Shifted(b: byte, i: nat): (r: nat)
    requires i <= 8
    ensures r < PowerOf2(8 - i)
  {
    if i == 0 then ByteSize(); b else Shifted(b, i - 1) / 2
  }

  /** Bit `i` of a byte: shifted right by `i`, masked with 1. */
  function BitOf(b: byte, i: nat): bool
    requires i < 8
  {
    Shifted(b, i) % 2 == 1
  }

  /** The bits of a byte, most significant first. */
  function BitsOf(b: byte): (bits: seq<Symbol>)
    ensures |bits| == 8
  {
    seq(8, i requires 0 <= i < 8 => Bit(BitOf(b, 7 - i)))
  }

  function Value(bits: seq<Symbol>): nat {
    if bits == [] then 0
    else 2 * Value(bits[..|bits| - 1]) + if bits[|bits| - 1] == Bit(true) then 1 else 0
  }

  lemma {:induction false} ValueOfPrefix(b: byte, n: nat)
    requires n <= 8
    ensures Value(BitsOf(b)[..n]) == Shifted(b, 8 - n)
  {
    if n > 0 {
      ValueOfPrefix(b, n - 1);
      var bits := BitsOf(b);
      assert bits[..n][..n - 1] == bits[..n - 1];
      assert bits[n - 1] == Bit(BitOf(b, 8 - n));
    }
  }

  lemma ByteValue(b: byte)
    ensures Value(BitsOf(b)) == b
  {
    ValueOfPrefix(b, 8);
    assert BitsOf(b)[..8] == BitsOf(b);
  }

  // ---------- Whole transactions ----------

  /** What a listener should hear: START, each byte and its acknowledge bit, STOP. */
  function Expected(data: seq<(byte, bool)>): seq<Symbol> {
    if data == [] then [Start]
    else
      var n := |data| - 1;
      Expected(data[..n]) + BitsOf(data[n].0) + [Bit(data[n].1)]
  }

  /** A listener that puts the bits of each byte together again; the acknowledge bit is the ninth. */
  function Assemble(symbols: seq<Symbol>): Option<seq<(byte, bool)>> {
    if |symbols| == 0 then None
    else if |symbols| == 1 then if symbols[0] == Start then Some([]) else None
    else if |symbols| < 10 then None
    else
      var n := |symbols| - 9;
      var bits, ack := symbols[n..n + 8], symbols[n + 8];
      match Assemble(symbols[..n])
      case None => None
      case Some(front) =>
        if ack.Bit? && Value(bits) < 256 then Some(front + [(Value(bits), ack.level)]) else None
  }

  lemma {:induction false} AssembleExpected(data: seq<(byte, bool)>)
    ensures |Expected(data)| == 1 + 9 * |data|
    ensures Assemble(Expected(data)) == Some(data)
  {
    if data != [] {
      var n := |data| - 1;
      AssembleExpected(data[..n]);
      var front, s := Expected(data[..n]), Expected(data);
      ByteValue(data[n].0);
      assert s[..|front|] == front;
      assert s[|front|..|front| + 8] == BitsOf(data[n].0);
      assert data[..n] + [data[n]] == data;
    }
  }

  /** The part of a byte below bit `i`. */
  function Low(b: byte, i: nat): nat
    requires i <= 8
  {
    if i == 0 then 0 else Low(b, i - 1) + if BitOf(b, i - 1) then PowerOf2(i - 1) else 0
  }

  lemma {:induction false} HighAndLow(b: byte, i: nat)
    requires i <= 8
    ensures b as int == Shifted(b, i) * PowerOf2(i) + Low(b, i)
  {
    if i > 0 {
      HighAndLow(b, i - 1);
      Carry(Shifted(b, i - 1), PowerOf2(i - 1));
    }
  }

  lemma AllLow(b: byte)
    ensures Low(b, 8) == b as int
  {
    HighAndLow(b, 8);
    assert Shifted(b, 8) == 0;
  }

  lemma NextBit(b: byte, i: nat)
    requires i < 8
    ensures BitsOf(b)[..i] + [Bit(BitOf(b, 7 - i))] == BitsOf(b)[..i + 1]
    ensures Low(b, 8 - i) == Low(b, 7 - i) + if BitOf(b, 7 - i) then PowerOf2(7 - i) else 0
  {
    assert BitsOf(b)[..i + 1] == BitsOf(b)[..i] + [BitsOf(b)[i]];
  }

  lemma Carry(x: nat, w: nat)
    ensures x * w == x / 2 * (2 * w) + if x % 2 == 1 then w else 0
  {
    var h := x / 2;
    if x % 2 == 1 {
      assert x == 2 * h + 1;
    } else {
      assert x == 2 * h;
    }
  }

  // ---------- The master ----------

  /** A byte of a transaction, whichever side sends it, and the acknowledge bit the other side answers. */
  datatype Transfer = Written(data: byte, ack: bool) | Read(data: byte, ack: bool)

  function OnTheBus(transfers: seq<Transfer>): seq<(byte, bool)> {
    seq(|transfers|, i requires 0 <= i < |transfers| => (transfers[i].data, transfers[i].ack))
  }

  class Master {
    var lastSDA: bool
    var lastSCL: bool
    var slave: bool  // what the slave does to SDA: false pulls it low, true lets go
    ghost var trace: seq<(bool, bool)>
    ghost var bus: Listener

    ghost predicate Valid()
      reads this
    {
      && HearAll(trace) == bus
      && bus.sda == (lastSDA && slave) && bus.scl == lastSCL && (bus.stable ==> lastSCL)
    }

    /** Between operations: the slave has let go, and no bit is half sent. */
    ghost predicate Ready()
      reads this
    {
      Valid() && slave && !bus.stable
    }

    /** What was heard, and the bit that counts as soon as SCL falls. */
    ghost function Sampled(): seq<Symbol>
      reads this
    {
      bus.heard + if bus.scl && bus.stable then [Bit(bus.sda)] else []
    }

    /** i2c_master_gpio_init lets both lines go; then i2c_master_init clocks out whatever a slave was saying. */
    constructor ()
      ensures Ready() && lastSDA && lastSCL
      ensures bus.heard == seq(27, _ => Bit(true)) + [Symbol.Start, Symbol.Stop]
    {
      lastSDA, lastSCL, slave, trace, bus := true, true, true, [], HearAll([]);
      new;
      SetDC(true, false);
      SetDC(false, false);
      SetDC(true, false);
      for i := 0 to 28
        invariant Valid() && slave && lastSDA && (bus.stable <==> i > 0) && bus.scl == (i > 0)
        invariant Sampled() == seq(i, _ => Bit(true))
      {
        SetDC(true, false);
        SetDC(true, true);
      }
      assert Sampled()[..27] == bus.heard;
      Stop();
    }

    /** i2c_master_setDC: both lines, each an open drain with the slave's behind it. */
    method SetDC(sda: bool, scl: bool)
      requires Valid()
      modifies this`lastSDA, this`lastSCL, this`trace, this`bus
      ensures Valid() && lastSDA == sda && lastSCL == scl
      ensures bus == Hear(old(bus), sda && slave, scl)
    {
      lastSDA := sda;
      lastSCL := scl;
      Record();
    }

    /** The new levels, seen by the listener. */
    ghost method Record()
      requires HearAll(trace) == bus && (bus.stable ==> bus.scl)
      modifies this`trace, this`bus
      ensures Valid()
      ensures bus == Hear(old(bus), lastSDA && slave, lastSCL)
    {
      var levels := (lastSDA && slave, lastSCL);
      assert (trace + [levels])[..|trace|] == trace;
      trace := trace + [levels];
      bus := Hear(bus, levels.0, levels.1);
    }

    /** The slave changes what it does to SDA, as it may while SCL is low. */
    method SlaveDrives(level: bool)
      requires Valid() && !lastSCL
      modifies this`slave, this`trace, this`bus
      ensures Valid() && slave == level && bus.heard == old(bus.heard) && !bus.stable
    {
      slave := level;
      Record();
    }

    /** i2c_master_getDC */
    method GetDC() returns (sda: bool)
      requires Valid()
      ensures sda == bus.sda
    {
      return lastSDA && slave;
    }

    /** i2c_master_start. On a bus that is held (SCL high, SDA low) the release before it reads as a STOP. */
    method Start()
      requires Ready()
      modifies this
      ensures Ready() && !lastSDA && lastSCL
      ensures bus.heard == old(bus.heard) + (if old(lastSCL && !lastSDA) then [Symbol.Stop] else []) + [Symbol.Start]
    {
      SetDC(true, lastSCL);
      SetDC(true, true);
      SetDC(false, true);
    }

    /** i2c_master_stop. On a free bus pulling SDA low before it reads as a START. */
    method Stop()
      requires Valid() && slave
      modifies this
      ensures Ready() && lastSDA && lastSCL
      ensures bus.heard == old(bus.heard) + (if old(lastSCL && lastSDA) then [Symbol.Start] else []) + [Symbol.Stop]
    {
      SetDC(false, lastSCL);
      SetDC(false, true);
      SetDC(true, true);
    }

    /** i2c_master_setAck */
    method SetAck(level: bool)
      requires Ready()
      modifies this
      ensures Ready() && lastSDA && !lastSCL && bus.heard == old(bus.heard) + [Bit(level)]
    {
      SetDC(lastSDA, false);
      SetDC(level, false);
      SetDC(level, true);
      SetDC(level, false);
      SetDC(true, false);
    }

    /** i2c_master_getAck, while the slave answers `ack` once SCL is low. */
    method GetAck(ack: bool) returns (level: bool)
      requires Ready()
      modifies this
      ensures Ready() && lastSDA && !lastSCL && bus.heard == old(bus.heard) + [Bit(ack)]
      ensures level == ack
    {
      SetDC(lastSDA, false);
      SlaveDrives(ack);
      SetDC(true, false);
      SetDC(true, true);
      level := GetDC();
      SetDC(true, false);
      SlaveDrives(true);
    }

    method WriteBit(dat: bool)
      requires Ready() && !lastSCL
      modifies this
      ensures Ready() && !lastSCL && bus.heard == old(bus.heard) + [Bit(dat)]
    {
      SetDC(dat, false);
      SetDC(dat, true);
      SetDC(dat, false);
    }

    /** i2c_master_writeByte */
    method WriteByte(b: byte)
      requires Ready()
      modifies this
      ensures Ready() && !lastSCL && bus.heard == old(bus.heard) + BitsOf(b)
    {
      SetDC(lastSDA, false);
      var i: int := 7;
      while i >= 0
        invariant -1 <= i <= 7 && Ready() && !lastSCL
        invariant bus.heard == old(bus.heard) + BitsOf(b)[..7 - i]
      {
        WriteBit(BitOf(b, i));
        NextBit(b, 7 - i);
        i := i - 1;
      }
    }

    /** One round of the loop of i2c_master_readByte, while the slave shows `level` once SCL is low. */
    method ReadBit(level: bool) returns (k: bool)
      requires Valid() && (bus.scl ==> lastSDA && bus.stable)
      modifies this
      ensures Valid() && lastSDA && bus.stable && bus.scl
      ensures Sampled() == old(Sampled()) + [Bit(level)] && k == level
    {
      SetDC(true, false);
      SlaveDrives(level);
      SetDC(true, true);
      k := GetDC();
    }

    /** The loop of i2c_master_readByte: the last bit is still on the line when it ends. */
    method ReadBits(b: byte) returns (retVal: nat)
      requires Ready() && !lastSCL
      modifies this
      ensures Valid() && lastSDA && lastSCL && bus.stable
      ensures Sampled() == old(bus.heard) + BitsOf(b)
      ensures retVal == b
    {
      retVal := 0;
      AllLow(b);
      for i := 0 to 8
        invariant Valid() && (i > 0 ==> lastSDA && bus.stable) && (bus.scl <==> i > 0)
        invariant Sampled() == old(bus.heard) + BitsOf(b)[..i]
        invariant retVal + Low(b, 8 - i) == b as int
      {
        NextBit(b, i);
        var k := ReadBit(BitOf(b, 7 - i));
        retVal := retVal + if k then PowerOf2(7 - i) else 0;
      }
    }

    /** i2c_master_readByte, while the slave shows the bits of `b`. */
    method ReadByte(b: byte) returns (retVal: nat)
      requires Ready()
      modifies this
      ensures Ready() && lastSDA && !lastSCL && bus.heard == old(bus.heard) + BitsOf(b)
      ensures retVal == b
    {
      SetDC(lastSDA, false);
      retVal := ReadBits(b);
      SetDC(true, false);
      SlaveDrives(true);
    }

    /** One byte and its acknowledge, either way; `got` is what the master learns from the slave. */
    method Exchange(t: Transfer) returns (got: Transfer)
      requires Ready()
      modifies this
      ensures Ready() && lastSDA && !lastSCL && bus.heard == old(bus.heard) + BitsOf(t.data) + [Bit(t.ack)]
      ensures got == t
    {
      match t
      case Written(b, ack) =>
        WriteByte(b);
        var level := GetAck(ack);
        got := Written(b, level);
      case Read(b, ack) =>
        var data := ReadByte(b);
        SetAck(ack);
        got := Read(data, ack);
    }

    /** START, any bytes either way with their acknowledges, STOP: the listener hears exactly that. */
    method Transaction(transfers: seq<Transfer>) returns (got: seq<Transfer>)
      requires Ready() && (lastSCL ==> lastSDA)
      modifies this
      ensures Ready() && lastSDA && lastSCL
      ensures bus.heard == old(bus.heard) + Expected(OnTheBus(transfers)) + [Symbol.Stop]
      ensures got == transfers
    {
      Start();
      got := [];
      ghost var all := OnTheBus(transfers);
      for i := 0 to |transfers|
        invariant Ready() && !(lastSDA && lastSCL)
        invariant bus.heard == old(bus.heard) + Expected(all[..i])
        invariant got == transfers[..i]
      {
        var t := Exchange(transfers[i]);
        got := got + [t];
        assert all[..i + 1][..i] == all[..i];
      }
      assert all[..|transfers|] == all;
      Stop();
    }
  }
}

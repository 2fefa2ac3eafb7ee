/**
 * The bus switch (spi_overlap.c): one SPI controller shared by a device on its own pins, two devices on the flash
 * bus and the flash itself. What the controller looks like after a selection must not depend on what was selected
 * before.
 */
module SpiOverlap {

  const HSPI_CS_DEV: nat := 0
  const SPI_CS1_DEV: nat := 1
  const SPI_CS2_DEV: nat := 2
  const SPI_CS0_FLASH: nat := 3
  const HSPI_IDLE: nat := 4

  // ---------- Registers, as the bits the driver touches and the rest ----------

  /** SPI_USER: SPI_USR_COMMAND, SPI_CK_OUT_EDGE, SPI_CS_SETUP (or BIT(5)), SPI_CS_HOLD and SPI_FLASH_MODE. */
  datatype User = User(command: bool, outEdge: bool, csSetup: bool, csHold: bool, flashMode: bool, rest: nat)

  /** SPI_PIN: the chip selects that are switched off. */
  datatype Pin = Pin(cs0Dis: bool, cs1Dis: bool, cs2Dis: bool, rest: nat)

  /** SPI_CLOCK: SPI_CLK_EQU_SYSCLK, which overrides the divider, and the divider word. */
  datatype Clock = Clock(equSysclk: bool, word: nat)

  /** SPI_CTRL: the flash read mode, and the rest. */
  datatype Ctrl = Ctrl(readMode: nat, rest: nat)

  /** The registers of HSPI that a backup holds. */
  datatype Registers = Registers(user: User, ctrl: Ctrl, clock: Clock, user1: nat, user2: nat, cmd: nat, pin: Pin)

  /** HOST_INF_SEL's overlap bit, the priority bits of SPI_EXT3 of both controllers. */
  datatype Host = Host(overlap: bool, spiPriority: bool, hspiPriority: nat)

  /** What the pin of HSPI's own chip select is used for. */
  datatype PinFunc = DeviceSelect | Gpio15 | Other

  datatype Config = Config(active: bool, clkPolar: bool, clkDiv: nat)

  // ---------- The clock ----------

  /** CONF_HSPI_CLK_DIV: `(((div<<1)+1)<<12)+(div<<6)+(div<<1)+1` */
  function DividerWord(div: nat): nat {
    (2 * div + 1) * 4096 + div * 64 + 2 * div + 1
  }

  /** The fields N, H and L of the divider word are 2d+1, d and 2d+1 exactly for the divisors the driver accepts. */
  lemma DividerFields(div: nat)
    ensures div <= 0x1f
       <==> DividerWord(div) / 4096 == 2 * div + 1 && DividerWord(div) / 64 % 64 == div
            && DividerWord(div) % 64 == 2 * div + 1
  {
    if div <= 0x1f {
      assert DividerWord(div) / 64 == (2 * div + 1) * 64 + div;
    }
  }

  lemma DividerWordsDiffer(d: nat, e: nat)
    ensures DividerWord(d) == DividerWord(e) <==> d == e
  {
  }

  // ---------- What a selection must leave behind ----------

  /** Only the chip select of `dev` is on; the flash and HSPI_CS_DEV share the first. */
  predicate OnlySelects(p: Pin, dev: nat) {
    && p.cs1Dis == (dev != SPI_CS1_DEV) && p.cs2Dis == (dev != SPI_CS2_DEV)
    && p.cs0Dis == (dev == SPI_CS1_DEV || dev == SPI_CS2_DEV)
  }

  /** spi_master_init */
  function MasterInit(r: Registers): Registers {
    r.(user := r.user.(csSetup := true, csHold := true, command := true, flashMode := false),
       clock := Clock(false, 3 * 4096 + 64 + 3))
  }

  /**
   * What spi_master_init sets: command phase, chip select set-up and hold on, flash mode off, and a clock of a quarter
   * of the system's (the fields N, H and L of its register are 3, 1 and 3).
   */
  predicate MasterSet(r: Registers) {
    && r.user.command && r.user.csSetup && r.user.csHold && !r.user.flashMode
    && !r.clock.equSysclk && r.clock.word == 0x3043
  }

  /** A device's registers: command phase and chip select hold on, flash mode off, its edge and its divider. */
  predicate DeviceSet(r: Registers, c: Config, sysclk: bool) {
    && r.user.command && r.user.csHold && !r.user.flashMode && r.user.outEdge == c.clkPolar
    && if sysclk then r.clock.equSysclk
       else
         && !r.clock.equSysclk && r.clock.word / 4096 == 2 * c.clkDiv + 1
         && r.clock.word / 64 % 64 == c.clkDiv && r.clock.word % 64 == 2 * c.clkDiv + 1
  }

  class Switch {
    // The peripherals.
    var hspi: Registers
    var host: Host
    var mtdo: PinFunc
    var gpio15: bool
    // hspi_dev_reg
    var flashBackup: Registers
    var devBackup: Registers
    var conf: seq<Config>
    var selected: nat
    var io80m: bool
    var backupFlag: bool

    /** Which bus the controller is on, and with what priority. */
    ghost predicate OnFlashBus(overlap: bool)
      reads this
    {
      && host == Host(overlap, overlap, if overlap then 3 else 0)
      && mtdo == (if overlap then Gpio15 else DeviceSelect)
      && (overlap ==> gpio15)
    }

    ghost predicate ClockFor(dev: nat)
      requires dev < |conf|
      reads this
    {
      if dev == SPI_CS0_FLASH then hspi.clock == flashBackup.clock
      else if dev == HSPI_CS_DEV || !io80m then hspi.clock == Clock(false, DividerWord(conf[dev].clkDiv))
      else hspi.clock.equSysclk
    }

    /** The registers of `dev`, but for the clock and the set-up bit. */
    ghost predicate RegistersFor(dev: nat)
      requires dev < 4 == |conf|
      reads this
    {
      var backup := if dev == SPI_CS0_FLASH then flashBackup else devBackup;
      var edge := dev != SPI_CS0_FLASH && conf[dev].clkPolar;
      && hspi == backup.(user := backup.user.(outEdge := edge, csSetup := hspi.user.csSetup),
                         clock := hspi.clock, pin := hspi.pin)
      && hspi.pin.rest == backup.pin.rest && OnlySelects(hspi.pin, dev)
    }

    /** Everything about the controller that `dev` alone decides. */
    ghost predicate SetUpFor(dev: nat)
      requires dev < 4 == |conf|
      reads this
    {
      OnFlashBus(dev != HSPI_CS_DEV) && ClockFor(dev) && RegistersFor(dev)
    }

    /** The flash keeps its own set-up bit; the devices on the flash bus have it on. HSPI_CS_DEV may have either. */
    ghost predicate SetupBitFor(dev: nat)
      reads this
    {
      && (dev == SPI_CS0_FLASH ==> hspi.user.csSetup == flashBackup.user.csSetup)
      && (dev == SPI_CS1_DEV || dev == SPI_CS2_DEV ==> hspi.user.csSetup)
    }

    /** The backups belong together, and nothing is active before they are taken. */
    ghost predicate Backups()
      reads this
    {
      && |conf| == 4
      && (forall i :: 0 <= i < 4 ==> conf[i].clkDiv <= 0x1f && (conf[i].active ==> backupFlag))
      && (backupFlag ==>
            && devBackup == MasterInit(flashBackup)
            && io80m == flashBackup.clock.equSysclk)
    }

    ghost predicate Valid()
      reads this
    {
      && Backups() && selected <= HSPI_IDLE
      && (backupFlag && selected != HSPI_IDLE ==> SetUpFor(selected) && SetupBitFor(selected))
    }

    constructor (hspi: Registers, host: Host, mtdo: PinFunc, gpio15: bool)
      ensures Valid() && !backupFlag && selected == HSPI_CS_DEV
    {
      this.hspi, this.host, this.mtdo, this.gpio15 := hspi, host, mtdo, gpio15;
      flashBackup, devBackup := hspi, hspi;
      conf := seq(4, _ => Config(false, false, 0));
      selected, io80m, backupFlag := HSPI_CS_DEV, false, false;
    }

    /** hspi_overlap_init */
    method OverlapInit()
      modifies this`host, this`hspi
      ensures host == Host(true, true, 3) && hspi == old(hspi).(user := old(hspi.user).(csSetup := true))
    {
      host := Host(true, true, 3);
      hspi := hspi.(user := hspi.user.(csSetup := true));
    }

    /** hspi_overlap_deinit */
    method OverlapDeinit()
      modifies this`host, this`hspi
      ensures host == Host(false, false, 0) && hspi == old(hspi).(user := old(hspi.user).(csSetup := false))
    {
      host := Host(false, false, 0);
      hspi := hspi.(user := hspi.user.(csSetup := false));
    }

    /** ENABLE_HSPI_DEV_CS */
    method EnableDevCs()
      modifies this`mtdo
      ensures mtdo == DeviceSelect
    {
      mtdo := DeviceSelect;
    }

    /** DISABLE_HSPI_DEV_CS: the device's select stays high. */
    method DisableDevCs()
      modifies this`mtdo, this`gpio15
      ensures mtdo == Gpio15 && gpio15
    {
      gpio15 := true;
      mtdo := Gpio15;
    }

    /** HSPI_FALLING_EDGE_SAMPLE and HSPI_RISING_EDGE_SAMPLE */
    method SampleEdge(falling: bool)
      modifies this`hspi
      ensures hspi == old(hspi).(user := old(hspi.user).(outEdge := falling))
    {
      hspi := hspi.(user := hspi.user.(outEdge := falling));
    }

    /** ACTIVE_HSPI_CS0, ACTIVE_HSPI_CS1 and ACTIVE_HSPI_CS2 */
    method ActivateCs(dev: nat)
      modifies this`hspi
      ensures hspi == old(hspi).(pin := hspi.pin)
      ensures hspi.pin.rest == old(hspi.pin.rest) && OnlySelects(hspi.pin, dev)
    {
      if dev == SPI_CS1_DEV {
        hspi := hspi.(pin := hspi.pin.(cs1Dis := false));
        hspi := hspi.(pin := hspi.pin.(cs0Dis := true, cs2Dis := true));
      } else if dev == SPI_CS2_DEV {
        hspi := hspi.(pin := hspi.pin.(cs2Dis := false));
        hspi := hspi.(pin := hspi.pin.(cs0Dis := true, cs1Dis := true));
      } else {
        hspi := hspi.(pin := hspi.pin.(cs0Dis := false));
        hspi := hspi.(pin := hspi.pin.(cs1Dis := true, cs2Dis := true));
      }
    }

    /** CONF_HSPI_CLK_DIV writes the whole register. */
    method ConfClkDiv(div: nat)
      modifies this`hspi
      ensures hspi == old(hspi).(clock := Clock(false, DividerWord(div)))
    {
      hspi := hspi.(clock := Clock(false, DividerWord(div)));
    }

    /** SET_PERI_REG_MASK of SPI_CLK_EQU_SYSCLK */
    method ClockSys()
      modifies this`hspi
      ensures hspi == old(hspi).(clock := old(hspi.clock).(equSysclk := true))
    {
      hspi := hspi.(clock := hspi.clock.(equSysclk := true));
    }

    /** The clock of a device on the flash bus. */
    method ClockOverlap(dev: nat)
      requires dev < |conf|
      modifies this`hspi
      ensures hspi == old(hspi).(clock := hspi.clock)
      ensures if io80m then hspi.clock.equSysclk else hspi.clock == Clock(false, DividerWord(conf[dev].clkDiv))
    {
      if io80m {
        ClockSys();
      } else {
        ConfClkDiv(conf[dev].clkDiv);
      }
    }

    /** spi_reg_recover; the pin mux and the slave register are not restored. */
    method Recover(backup: Registers)
      modifies this`hspi
      ensures hspi == backup
    {
      hspi := backup;
    }

    /** The flash's registers, edge and chip select. */
    method TakeFlash()
      requires Backups() && backupFlag
      modifies this`hspi
      ensures ClockFor(SPI_CS0_FLASH) && RegistersFor(SPI_CS0_FLASH) && SetupBitFor(SPI_CS0_FLASH)
    {
      Recover(flashBackup);
      if io80m {
        ClockSys();
      }
      SampleEdge(false);
      ActivateCs(SPI_CS0_FLASH);
    }

    /** The clock, edge and chip select of a device, when the other registers are the devices' already. */
    method TakeDevice(dev: nat)
      requires Backups() && dev < 3
      requires hspi == devBackup.(user := hspi.user, clock := hspi.clock, pin := hspi.pin)
      requires hspi.user == devBackup.user.(outEdge := hspi.user.outEdge, csSetup := hspi.user.csSetup)
      requires hspi.pin.rest == devBackup.pin.rest
      modifies this`hspi
      ensures ClockFor(dev) && RegistersFor(dev)
      ensures hspi.user.csSetup == old(hspi.user.csSetup)
    {
      if dev == HSPI_CS_DEV {
        ConfClkDiv(conf[dev].clkDiv);
      } else {
        ClockOverlap(dev);
      }
      SampleEdge(conf[dev].clkPolar);
      ActivateCs(dev);
    }

    /** hspi_dev_sel, case HSPI_CS_DEV */
    method LeaveDevice(dev: nat)
      requires Valid() && backupFlag && selected == HSPI_CS_DEV && dev < 4
      modifies this`hspi, this`host, this`mtdo, this`gpio15
      ensures SetUpFor(dev) && SetupBitFor(dev)
      ensures dev == HSPI_CS_DEV ==> hspi == old(hspi)
    {
      if dev == SPI_CS1_DEV || dev == SPI_CS2_DEV {
        DisableDevCs();
        OverlapInit();
        TakeDevice(dev);
      } else if dev == SPI_CS0_FLASH {
        DisableDevCs();
        OverlapInit();
        TakeFlash();
      }
    }

    /** hspi_dev_sel, cases SPI_CS1_DEV and SPI_CS2_DEV */
    method LeaveOverlap(dev: nat)
      requires Valid() && backupFlag && (selected == SPI_CS1_DEV || selected == SPI_CS2_DEV) && dev < 4
      modifies this`hspi, this`host, this`mtdo, this`gpio15
      ensures SetUpFor(dev) && SetupBitFor(dev)
      ensures dev == HSPI_CS_DEV ==> !hspi.user.csSetup
      ensures dev == selected ==> hspi == old(hspi)
    {
      if dev != selected && (dev == SPI_CS1_DEV || dev == SPI_CS2_DEV) {
        if !io80m {
          ConfClkDiv(conf[dev].clkDiv);
        }
        SampleEdge(conf[dev].clkPolar);
        ActivateCs(dev);
      } else if dev == SPI_CS0_FLASH {
        Recover(flashBackup);
        SampleEdge(false);
        ActivateCs(dev);
      } else if dev == HSPI_CS_DEV {
        EnableDevCs();
        OverlapDeinit();
        TakeDevice(dev);
      }
    }

    /** hspi_dev_sel, case SPI_CS0_FLASH */
    method LeaveFlash(dev: nat)
      requires Valid() && backupFlag && selected == SPI_CS0_FLASH && dev < 4
      modifies this`hspi, this`host, this`mtdo, this`gpio15
      ensures SetUpFor(dev) && SetupBitFor(dev)
      ensures dev == HSPI_CS_DEV ==> hspi.user.csSetup
      ensures dev == selected ==> hspi == old(hspi)
    {
      if dev == SPI_CS1_DEV || dev == SPI_CS2_DEV {
        Recover(devBackup);
        TakeDevice(dev);
      } else if dev == HSPI_CS_DEV {
        EnableDevCs();
        OverlapDeinit();
        Recover(devBackup);
        TakeDevice(dev);
      }
    }

    /** hspi_dev_sel, the default case: nothing is selected yet. */
    method LeaveIdle(dev: nat)
      requires Valid() && backupFlag && dev < 4
      modifies this`hspi, this`host, this`mtdo, this`gpio15
      ensures SetUpFor(dev) && SetupBitFor(dev)
      ensures dev == HSPI_CS_DEV ==> hspi.user.csSetup
    {
      if dev == SPI_CS1_DEV || dev == SPI_CS2_DEV {
        DisableDevCs();
        OverlapInit();
        Recover(devBackup);
        TakeDevice(dev);
      } else if dev == SPI_CS0_FLASH {
        DisableDevCs();
        OverlapInit();
        TakeFlash();
      } else {
        EnableDevCs();
        OverlapDeinit();
        Recover(devBackup);
        TakeDevice(dev);
      }
    }

    /**
     * hspi_dev_sel. Selecting an initialised device leaves the controller set up for it, whatever was selected
     * before; only the set-up bit of HSPI_CS_DEV tells whether it comes from the flash bus.
     */
    method Select(dev: nat)
      requires Valid()
      modifies this`hspi, this`host, this`mtdo, this`gpio15, this`selected
      ensures Valid()
      ensures !(dev < 4 && conf[dev].active) ==> selected == old(selected) && hspi == old(hspi)
      ensures dev < 4 && conf[dev].active ==> selected == dev && SetUpFor(dev)
      ensures dev < 4 && conf[dev].active ==>
        && host == (if dev == 0 then Host(false, false, 0) else Host(true, true, 3))
        && mtdo == (if dev == 0 then DeviceSelect else Gpio15)
        && hspi.pin.cs0Dis == (dev == 1 || dev == 2) && hspi.pin.cs1Dis == (dev != 1) && hspi.pin.cs2Dis == (dev != 2)
      ensures dev == 3 && conf[dev].active ==>
        && hspi.user == flashBackup.user.(outEdge := false)
        && hspi.ctrl == flashBackup.ctrl && hspi.clock == flashBackup.clock
      ensures dev < 3 && conf[dev].active ==>
        DeviceSet(hspi, conf[dev], dev != HSPI_CS_DEV && io80m)
      ensures dev == HSPI_CS_DEV && conf[dev].active && old(selected) != HSPI_CS_DEV ==>
        (!hspi.user.csSetup <==> old(selected) == SPI_CS1_DEV || old(selected) == SPI_CS2_DEV)
      ensures old(selected) == dev ==> hspi == old(hspi)
    {
      if dev > 3 || !conf[dev].active {
        return;
      }
      Leave(dev);
      if dev < 3 {
        DeviceIsSet(dev);
      }
    }

    /** The switch on what is selected, and the new selection. */
    method Leave(dev: nat)
      requires Valid() && dev < 4 && conf[dev].active
      modifies this`hspi, this`host, this`mtdo, this`gpio15, this`selected
      ensures Valid() && selected == dev && SetUpFor(dev)
      ensures dev == HSPI_CS_DEV && old(selected) != HSPI_CS_DEV ==>
        (!hspi.user.csSetup <==> old(selected) == SPI_CS1_DEV || old(selected) == SPI_CS2_DEV)
      ensures old(selected) == dev ==> hspi == old(hspi)
    {
      if selected == HSPI_CS_DEV {
        LeaveDevice(dev);
      } else if selected == SPI_CS1_DEV || selected == SPI_CS2_DEV {
        LeaveOverlap(dev);
      } else if selected == SPI_CS0_FLASH {
        LeaveFlash(dev);
      } else {
        LeaveIdle(dev);
      }
      selected := dev;
    }

    lemma DeviceIsSet(dev: nat)
      requires dev < 3 && Backups() && backupFlag && SetUpFor(dev)
      ensures DeviceSet(hspi, conf[dev], dev != HSPI_CS_DEV && io80m)
    {
      DividerFields(conf[dev].clkDiv);
    }

    /** The arguments that hspi_master_dev_init accepts. */
    static predicate Accepted(dev: nat, clkPolar: nat, clkDiv: nat) {
      dev < 4 && clkPolar <= 1 && clkDiv <= 0x1f
    }

    /**
     * Initialising `dev` leaves the selected device's set-up in force: the pin of HSPI_CS_DEV must not be taken
     * back from the others, and the selected device must not get another edge or a divider that it uses.
     */
    ghost predicate Harmless(dev: nat, clkPolar: nat, clkDiv: nat)
      requires |conf| == 4
      reads this
    {
      && (dev == HSPI_CS_DEV ==> selected == HSPI_CS_DEV)
      && (dev == selected && dev < SPI_CS0_FLASH ==>
            && conf[dev].clkPolar == (clkPolar == 1)
            && ((dev != HSPI_CS_DEV && io80m) || conf[dev].clkDiv == clkDiv))
    }

    /**
     * hspi_master_dev_init; `flashAt80m` is bit 8 of the pin mux, `spiReadMode` the read mode of SPI. The controller
     * stays set up for what is selected if and only if that is harmless, refused, or comes before any selection.
     */
    method DevInit(dev: nat, clkPolar: nat, clkDiv: nat, flashAt80m: bool, spiReadMode: nat)
      requires Valid()
      modifies this
      ensures Backups()
      ensures var ok := Accepted(dev, clkPolar, clkDiv);
              && conf == (if ok then old(conf)[dev := Config(true, clkPolar == 1, clkDiv)] else old(conf))
              && backupFlag == (old(backupFlag) || ok)
              && mtdo == (if ok && dev == HSPI_CS_DEV then DeviceSelect else old(mtdo))
      ensures old(backupFlag) ==> selected == old(selected) && hspi == old(hspi)
      ensures !old(backupFlag) && backupFlag ==>
        && selected == HSPI_IDLE && io80m == flashAt80m && hspi == devBackup
        && flashBackup == old(hspi).(clock := old(hspi.clock).(equSysclk := flashAt80m),
                                     ctrl := old(hspi.ctrl).(readMode := spiReadMode))
        && MasterSet(hspi)
      ensures old(backupFlag) || !backupFlag ==>
        io80m == old(io80m) && flashBackup == old(flashBackup) && devBackup == old(devBackup)
      ensures old(backupFlag) && selected < 4 && Accepted(dev, clkPolar, clkDiv) ==>
                (SetUpFor(selected) <==> old(Harmless(dev, clkPolar, clkDiv)))
      ensures Valid() <==> || !old(backupFlag) || old(selected) == HSPI_IDLE || !Accepted(dev, clkPolar, clkDiv)
                           || old(Harmless(dev, clkPolar, clkDiv))
    {
      if dev > 3 || clkPolar > 1 || clkDiv > 0x1f {
        return;
      }
      if !backupFlag {
        TakeBackups(flashAt80m, spiReadMode);
      }
      Record(dev, clkPolar, clkDiv);
    }

    /** The part of hspi_master_dev_init that runs every time. */
    method Record(dev: nat, clkPolar: nat, clkDiv: nat)
      requires Valid() && backupFlag && Accepted(dev, clkPolar, clkDiv)
      modifies this`conf, this`mtdo
      ensures Backups() && conf == old(conf)[dev := Config(true, clkPolar == 1, clkDiv)]
      ensures mtdo == if dev == HSPI_CS_DEV then DeviceSelect else old(mtdo)
      ensures selected < 4 ==> (SetUpFor(selected) <==> old(Harmless(dev, clkPolar, clkDiv)))
      ensures Valid() <==> selected == HSPI_IDLE || old(Harmless(dev, clkPolar, clkDiv))
    {
      DividerWordsDiffer(conf[dev].clkDiv, clkDiv);
      conf := conf[dev := Config(true, clkPolar == 1, clkDiv)];
      if dev == HSPI_CS_DEV {
        mtdo := DeviceSelect;
      }
    }

    /** The part of hspi_master_dev_init that runs once. */
    method TakeBackups(flashAt80m: bool, spiReadMode: nat)
      requires |conf| == 4
      modifies this`hspi, this`flashBackup, this`devBackup, this`io80m, this`backupFlag, this`selected
      ensures backupFlag && selected == HSPI_IDLE
      ensures devBackup == MasterInit(flashBackup) && io80m == flashBackup.clock.equSysclk
      ensures io80m == flashAt80m && hspi == devBackup
      ensures flashBackup == old(hspi).(clock := old(hspi.clock).(equSysclk := flashAt80m),
                                        ctrl := old(hspi.ctrl).(readMode := spiReadMode))
    {
      io80m := flashAt80m;
      hspi := hspi.(clock := hspi.clock.(equSysclk := flashAt80m));
      hspi := hspi.(ctrl := hspi.ctrl.(readMode := spiReadMode));
      flashBackup := hspi;
      hspi := MasterInit(hspi);
      devBackup := hspi;
      backupFlag := true;
      selected := HSPI_IDLE;
    }

    /** Any run of selections. */
    method SelectAll(devs: seq<nat>)
      requires Valid() && backupFlag
      modifies this`hspi, this`host, this`mtdo, this`gpio15, this`selected
      ensures Valid() && selected == LastActive(conf, old(selected), devs)
      ensures selected != HSPI_IDLE ==> SetUpFor(selected)
    {
      for i := 0 to |devs|
        invariant Valid() && selected == LastActive(conf, old(selected), devs[..i])
      {
        Select(devs[i]);
        assert devs[..i + 1][..i] == devs[..i];
      }
      assert devs[..|devs|] == devs;
    }

    /** What a transfer depends on; a divider word counts only where the clock uses it. */
    function Seen(): View
      reads this
    {
      View(host, mtdo, hspi.(user := hspi.user.(csSetup := false),
                             clock := if hspi.clock.equSysclk then Clock(true, 0) else hspi.clock))
    }
  }

  datatype View = View(host: Host, mtdo: PinFunc, registers: Registers)

  function LastActive(conf: seq<Config>, before: nat, devs: seq<nat>): nat
    requires |conf| == 4
  {
    if devs == [] then before
    else
      var dev := devs[|devs| - 1];
      if dev < 4 && conf[dev].active then dev else LastActive(conf, before, devs[..|devs| - 1])
  }

  /** The same driver data, whatever each has selected before. */
  ghost predicate SameDriver(a: Switch, b: Switch)
    reads a, b
  {
    a.flashBackup == b.flashBackup && a.devBackup == b.devBackup && a.conf == b.conf && a.io80m == b.io80m
  }

  lemma HistoryIndependence(a: Switch, b: Switch, dev: nat)
    requires dev < 4 == |a.conf| && SameDriver(a, b)
    requires a.SetUpFor(dev) && a.SetupBitFor(dev) && b.SetUpFor(dev) && b.SetupBitFor(dev)
    ensures a.Seen() == b.Seen()
    ensures dev != HSPI_CS_DEV ==> a.hspi.user.csSetup == b.hspi.user.csSetup
  {
  }

  /** Two controllers with the same driver data, after any two runs of selections that end on the same device. */
  method RunsAgree(a: Switch, b: Switch, xs: seq<nat>, ys: seq<nat>)
    requires a != b && a.Valid() && b.Valid() && a.backupFlag && b.backupFlag && SameDriver(a, b)
    modifies a, b
    ensures a.Valid() && b.Valid()
    ensures a.selected == LastActive(a.conf, old(a.selected), xs)
    ensures b.selected == LastActive(b.conf, old(b.selected), ys)
    ensures a.selected == b.selected != HSPI_IDLE ==>
              && a.Seen() == b.Seen()
              && (a.selected != HSPI_CS_DEV ==> a.hspi.user.csSetup == b.hspi.user.csSetup)
  {
    a.SelectAll(xs);
    b.SelectAll(ys);
    if a.selected == b.selected != HSPI_IDLE {
      HistoryIndependence(a, b, a.selected);
    }
  }

  /** The one exception: HSPI_CS_DEV reached directly and from the flash bus differ in the set-up bit. */
  method SetupBitTellsHistory(a: Switch, b: Switch)
    requires a != b && a.Valid() && b.Valid() && a.backupFlag && b.backupFlag && SameDriver(a, b)
    requires a.selected == HSPI_IDLE && b.selected == HSPI_IDLE && a.conf[0].active && a.conf[1].active
    modifies a, b
    ensures a.selected == b.selected == HSPI_CS_DEV
    ensures a.Seen() == b.Seen() && a.hspi.user != b.hspi.user
  {
    a.Select(HSPI_CS_DEV);
    b.Select(SPI_CS1_DEV);
    b.Select(HSPI_CS_DEV);
    HistoryIndependence(a, b, HSPI_CS_DEV);
  }

  /** A failing input: another divider for HSPI_CS_DEV while it is selected leaves the old clock in force. */
  method StaleAfterInit(s: Switch, clkDiv: nat)
    requires s.Valid() && s.backupFlag && s.selected == HSPI_CS_DEV
    requires s.conf[0].clkDiv != clkDiv <= 0x1f
    modifies s
    ensures |s.conf| == 4 && s.conf[0].clkDiv == clkDiv && !s.ClockFor(HSPI_CS_DEV) && !s.Valid()
  {
    DividerWordsDiffer(s.conf[0].clkDiv, clkDiv);
    s.DevInit(HSPI_CS_DEV, 0, clkDiv, false, 0);
  }

  /** Another: initialising HSPI_CS_DEV while something on the flash bus is selected gives its pin back to it. */
  method PinTakenByInit(s: Switch, clkPolar: nat, clkDiv: nat)
    requires s.Valid() && s.backupFlag && s.selected in {SPI_CS1_DEV, SPI_CS2_DEV, SPI_CS0_FLASH}
    requires clkPolar <= 1 && clkDiv <= 0x1f
    modifies s
    ensures s.selected == old(s.selected) && !s.OnFlashBus(true) && !s.Valid()
  {
    s.DevInit(HSPI_CS_DEV, clkPolar, clkDiv, false, 0);
  }
}

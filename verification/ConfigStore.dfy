/**
 * The configuration in flash (config.c): two slots and a flag that names the current one. Erasing a sector makes
 * its bits rise to 1, programming makes bits fall to 0, and power may fail in the middle of either.
 */
module ConfigStore {

  type bits = bv8
  type Sector = seq<bits>

  /** The sectors at CFG_LOCATION, CFG_LOCATION + 1 and CFG_LOCATION + 3. */
  datatype Flash = Flash(slot0: Sector, slot1: Sector, flag: Sector)

  datatype Place = Slot0 | Slot1 | FlagSector

  datatype Op = Erase(place: Place) | Program(place: Place, data: Sector)

  function At(f: Flash, p: Place): Sector {
    match p
    case Slot0 => f.slot0
    case Slot1 => f.slot1
    case FlagSector => f.flag
  }

  function With(f: Flash, p: Place, s: Sector): Flash {
    match p
    case Slot0 => f.(slot0 := s)
    case Slot1 => f.(slot1 := s)
    case FlagSector => f.(flag := s)
  }

  /** Each sector has room for `size` bytes, and the flag for its four. */
  predicate Sized(f: Flash, size: nat) {
    |f.slot0| >= size && |f.slot1| >= size && |f.flag| >= 4
  }

  // ---------- What the operations do, completed or torn ----------

  function Erased(s: Sector): (r: Sector)
    ensures |r| == |s| && forall i :: 0 <= i < |r| ==> r[i] == 0xFF
  {
    seq(|s|, _ => 0xFF)
  }

  /** Programming can only clear bits. */
  function Programmed(s: Sector, data: Sector): (r: Sector)
    requires |data| <= |s|
    ensures |r| == |s|
    ensures forall i :: 0 <= i < |s| ==> r[i] == if i < |data| then s[i] & data[i] else s[i]
  {
    seq(|s|, i requires 0 <= i < |s| => if i < |data| then s[i] & data[i] else s[i])
  }

  predicate Fits(f: Flash, op: Op) {
    op.Program? ==> |op.data| <= |At(f, op.place)|
  }

  function Completed(f: Flash, op: Op): Flash
    requires Fits(f, op)
  {
    match op
    case Erase(p) => With(f, p, Erased(At(f, p)))
    case Program(p, data) => With(f, p, Programmed(At(f, p), data))
  }

  /** Power failed during `op`: bits of its sector have risen, or fallen as far as the data lets them. */
  ghost predicate Torn(f: Flash, op: Op, f': Flash)
    requires Fits(f, op)
  {
    var s, s' := At(f, op.place), At(f', op.place);
    && f' == With(f, op.place, s')
    && |s'| == |s|
    && match op
       case Erase(_) => forall i :: 0 <= i < |s| ==> s'[i] & s[i] == s[i]
       case Program(_, data) =>
         && (forall i :: 0 <= i < |data| ==> s'[i] & s[i] == s'[i] && s'[i] & (s[i] & data[i]) == s[i] & data[i])
         && (forall i :: |data| <= i < |s| ==> s'[i] == s[i])
  }

  // ---------- Saving and loading ----------

  function Flag(f: Flash): bits
    requires |f.flag| >= 4
  {
    f.flag[0]
  }

  /** The configuration the next load selects. */
  function Current(f: Flash, size: nat): Sector
    requires Sized(f, size)
  {
    if Flag(f) == 0 then f.slot0[..size] else f.slot1[..size]
  }

  /** What CFG_Save does, in order: the other slot, then the flag with the padding that was read with it. */
  function SaveOps(f: Flash, cfg: Sector): seq<Op>
    requires |f.flag| >= 4
  {
    if Flag(f) == 0 then
      [Erase(Slot1), Program(Slot1, cfg), Erase(FlagSector), Program(FlagSector, [1] + f.flag[1..4])]
    else
      [Erase(Slot0), Program(Slot0, cfg), Erase(FlagSector), Program(FlagSector, [0] + f.flag[1..4])]
  }

  /** The flash after the first `k` operations of a save. */
  function After(f: Flash, cfg: Sector, k: nat): (g: Flash)
    requires Sized(f, |cfg|) && k <= 4
    ensures Sized(g, |cfg|) && |g.flag| == |f.flag|
    ensures |g.slot0| == |f.slot0| && |g.slot1| == |f.slot1|
  {
    if k == 0 then f else Completed(After(f, cfg, k - 1), SaveOps(f, cfg)[k - 1])
  }

  lemma Steps(f: Flash, cfg: Sector)
    requires Sized(f, |cfg|)
    ensures After(f, cfg, 1) == Completed(f, SaveOps(f, cfg)[0])
    ensures After(f, cfg, 2) == Completed(After(f, cfg, 1), SaveOps(f, cfg)[1])
    ensures After(f, cfg, 3) == Completed(After(f, cfg, 2), SaveOps(f, cfg)[2])
    ensures After(f, cfg, 4) == Completed(After(f, cfg, 3), SaveOps(f, cfg)[3])
  {
  }

  /** Power failed at some point of a save, between two operations or in the middle of one. */
  ghost predicate Interrupted(f: Flash, cfg: Sector, f': Flash)
    requires Sized(f, |cfg|)
  {
    exists k :: 0 <= k < 4 && (f' == After(f, cfg, k) || Torn(After(f, cfg, k), SaveOps(f, cfg)[k], f'))
  }

  /** The slot just programmed holds the configuration. */
  lemma SlotWritten(f: Flash, cfg: Sector, k: nat)
    requires Sized(f, |cfg|) && 2 <= k <= 4
    ensures
      var g := After(f, cfg, k);
      if Flag(f) == 0 then g.slot1[..|cfg|] == cfg && g.slot0 == f.slot0
      else g.slot0[..|cfg|] == cfg && g.slot1 == f.slot1
  {
    var g1 := After(f, cfg, 1);
    var g2 := After(f, cfg, 2);
    Steps(f, cfg);
    var before := if Flag(f) == 0 then g1.slot1 else g1.slot0;
    forall i | 0 <= i < |cfg|
      ensures before[i] & cfg[i] == cfg[i]
    {
      assert before[i] == 0xFF;
    }
  }

  /** Until the flag sector is touched, the current configuration is untouched as well. */
  lemma OldWhileSlot(f: Flash, cfg: Sector, k: nat, f': Flash)
    requires Sized(f, |cfg|) && k <= 2
    requires f' == After(f, cfg, k) || (k < 2 && Torn(After(f, cfg, k), SaveOps(f, cfg)[k], f'))
    ensures Sized(f', |cfg|) && f'.flag == f.flag
    ensures Current(f', |cfg|) == Current(f, |cfg|)
  {
    var g1 := After(f, cfg, 1);
    Steps(f, cfg);
  }

  /** While the flag sector changes, both slots are complete: whatever the flag reads as, it names one of the two. */
  lemma EitherWhileFlag(f: Flash, cfg: Sector, f': Flash)
    requires Sized(f, |cfg|)
    requires f'.slot0 == After(f, cfg, 2).slot0 && f'.slot1 == After(f, cfg, 2).slot1
    requires |f'.flag| == |f.flag|
    ensures Sized(f', |cfg|)
    ensures Current(f', |cfg|) == if (Flag(f') == 0) == (Flag(f) == 0) then Current(f, |cfg|) else cfg
  {
    SlotWritten(f, cfg, 2);
  }

  lemma SlotsKept(f: Flash, cfg: Sector, k: nat)
    requires Sized(f, |cfg|) && 2 <= k <= 4
    ensures After(f, cfg, k).slot0 == After(f, cfg, 2).slot0
    ensures After(f, cfg, k).slot1 == After(f, cfg, 2).slot1
  {
    Steps(f, cfg);
  }

  /** A save that completes makes its configuration the current one. */
  lemma SaveCompletes(f: Flash, cfg: Sector)
    requires Sized(f, |cfg|)
    ensures Current(After(f, cfg, 4), |cfg|) == cfg
    ensures After(f, cfg, 4).flag[0] == if f.flag[0] == 0 then 1 else 0
  {
    var g3, g4 := After(f, cfg, 3), After(f, cfg, 4);
    SlotsKept(f, cfg, 4);
    Steps(f, cfg);
    assert g3.flag[0] == 0xFF;
    assert g4.flag[0] == g3.flag[0] & SaveOps(f, cfg)[3].data[0];
    EitherWhileFlag(f, cfg, g4);
  }

  lemma TouchesFlag(f: Flash, cfg: Sector, k: nat, f': Flash)
    requires Sized(f, |cfg|) && 2 <= k < 4
    requires f' == After(f, cfg, k) || Torn(After(f, cfg, k), SaveOps(f, cfg)[k], f')
    ensures f'.slot0 == After(f, cfg, 2).slot0 && f'.slot1 == After(f, cfg, 2).slot1 && |f'.flag| == |f.flag|
  {
    SlotsKept(f, cfg, k);
  }

  /** An interrupted save leaves a complete configuration: the one before, or the new one. */
  lemma CrashAtomic(f: Flash, cfg: Sector, f': Flash)
    requires Sized(f, |cfg|) && Interrupted(f, cfg, f')
    ensures Sized(f', |cfg|)
    ensures Current(f', |cfg|) == Current(f, |cfg|) || Current(f', |cfg|) == cfg
  {
    var k :| 0 <= k < 4 && (f' == After(f, cfg, k) || Torn(After(f, cfg, k), SaveOps(f, cfg)[k], f'));
    if k < 2 {
      OldWhileSlot(f, cfg, k, f');
    } else {
      TouchesFlag(f, cfg, k, f');
      EitherWhileFlag(f, cfg, f');
    }
  }

  /**
   * Which of the two it is before the flag is programmed: an erase can only turn the flag from 0 to something else,
   * so from slot 1 the old configuration survives it, and from slot 0 it may already select the new one.
   */
  lemma TornErase(f: Flash, cfg: Sector, f': Flash)
    requires Sized(f, |cfg|) && Torn(After(f, cfg, 2), SaveOps(f, cfg)[2], f')
    ensures Sized(f', |cfg|)
    ensures Flag(f) != 0 ==> Current(f', |cfg|) == Current(f, |cfg|)
    ensures Flag(f) == 0 ==> Current(f', |cfg|) == if Flag(f') == 0 then Current(f, |cfg|) else cfg
  {
    OldWhileSlot(f, cfg, 2, After(f, cfg, 2));
    EitherWhileFlag(f, cfg, f');
  }

  // ---------- Runs of saves ----------

  datatype Attempt = Attempt(cfg: Sector, completed: bool)

  /** `states` is a possible history of the flash under these attempts. */
  ghost predicate History(states: seq<Flash>, attempts: seq<Attempt>, size: nat) {
    && |states| == |attempts| + 1
    && (forall i :: 0 <= i < |states| ==> Sized(states[i], size))
    && (forall i :: 0 <= i < |attempts| ==> |attempts[i].cfg| == size)
    && (forall i :: 0 <= i < |attempts| ==>
          if attempts[i].completed then states[i + 1] == After(states[i], attempts[i].cfg, 4)
          else Interrupted(states[i], attempts[i].cfg, states[i + 1]))
  }

  /** What may be current: the last completed save, or any interrupted one since. */
  function Candidates(initial: Sector, attempts: seq<Attempt>): set<Sector> {
    if attempts == [] then {initial}
    else
      var last := attempts[|attempts| - 1];
      if last.completed then {last.cfg} else Candidates(initial, attempts[..|attempts| - 1]) + {last.cfg}
  }

  lemma {:induction false} NeverLost(states: seq<Flash>, attempts: seq<Attempt>, size: nat)
    requires History(states, attempts, size)
    ensures Current(states[|attempts|], size) in Candidates(Current(states[0], size), attempts)
    decreases |attempts|
  {
    if attempts != [] {
      var n := |attempts| - 1;
      var last := attempts[n];
      NeverLost(states[..n + 1], attempts[..n], size);
      if last.completed {
        SaveCompletes(states[n], last.cfg);
      } else {
        CrashAtomic(states[n], last.cfg, states[n + 1]);
      }
    }
  }

  // ---------- The code ----------

  class Store {
    var flash: Flash
    var sysCfg: Sector
    var saveFlag: Sector
    ghost var ops: seq<Op>  // every flash operation issued

    method EraseSector(p: Place)
      modifies this`flash, this`ops
      ensures flash == Completed(old(flash), Erase(p)) && ops == old(ops) + [Erase(p)]
    {
      flash := Completed(flash, Erase(p));
      ops := ops + [Erase(p)];
    }

    method Write(p: Place, data: Sector)
      requires Fits(flash, Program(p, data))
      modifies this`flash, this`ops
      ensures flash == Completed(old(flash), Program(p, data)) && ops == old(ops) + [Program(p, data)]
    {
      flash := Completed(flash, Program(p, data));
      ops := ops + [Program(p, data)];
    }

    /** CFG_Save: exactly these operations, in this order. */
    method Save()
      requires Sized(flash, |sysCfg|)
      modifies this`flash, this`ops, this`saveFlag
      ensures ops == old(ops) + SaveOps(old(flash), sysCfg)
      ensures flash == After(old(flash), sysCfg, 4)
      ensures Sized(flash, |sysCfg|) && Current(flash, |sysCfg|) == sysCfg
    {
      ghost var f := flash;
      Steps(f, sysCfg);
      SaveCompletes(f, sysCfg);
      saveFlag := flash.flag[..4];
      assert saveFlag[1..4] == f.flag[1..4];
      if saveFlag[0] == 0 {
        EraseSector(Slot1);
        Write(Slot1, sysCfg);
        saveFlag := [1] + saveFlag[1..4];
      } else {
        EraseSector(Slot0);
        Write(Slot0, sysCfg);
        saveFlag := [0] + saveFlag[1..4];
      }
      EraseSector(FlagSector);
      Write(FlagSector, saveFlag);
    }

    /** CFG_Load: the selected slot, or, if that does not carry the holder, the defaults, saved at once. */
    method Load(defaults: Sector, holder: Sector)
      requires |holder| <= |defaults| && Sized(flash, |defaults|)
      modifies this
      ensures Sized(flash, |defaults|)
      ensures var read := Current(old(flash), |defaults|);
        if holder <= read then sysCfg == read && flash == old(flash)
        else sysCfg == defaults && flash == After(old(flash), defaults, 4)
      ensures Current(flash, |defaults|) == sysCfg
    {
      saveFlag := flash.flag[..4];
      if saveFlag[0] == 0 {
        sysCfg := flash.slot0[..|defaults|];
      } else {
        sysCfg := flash.slot1[..|defaults|];
      }
      if !(holder <= sysCfg) {
        sysCfg := defaults;
        Save();
      }
    }
  }
}

/** Nested save and restore of the x86 vector registers in the Linux kernel:
    what each call does to the per-CPU table and to the nesting counters. */
module VecRegs {

  const COUNT_MASK := 0x3fff_ffff
  const INHIBITED_FLAG := 0x4000_0000

  /** One per CPU; pid 0 marks a free slot. The word is a 30-bit count, a flag, and one unused bit. */
  datatype Slot = Slot(pid: nat, fpuState: nat)

  const FREE := Slot(0, 0)

  datatype Flags = NONE | INHIBIT

  datatype Code = Ok | AccelInhibit | BadState | Interrupted

  /** Kernel nesting on one CPU: preemption, bottom halves, migration, and kernel FPU sections. */
  datatype Nest = Nest(preempt: int, bh: int, migrate: int, fpu: int)

  /** Build options: whether migration is disabled explicitly, whether preemption is (PREEMPT_RT),
      whether bottom-half nesting shows in the preemption count, and FIPS builds. */
  datatype Config = Config(migrate: bool, rt: bool, bhCounts: bool, fips: bool)

  /** What a call finds out from the kernel around it. */
  datatype Env = Env(hardIrq: bool, simd: bool, signal: bool, allocOk: bool, dead: set<nat>)

  datatype Table = Unallocated | Allocated(slots: seq<Slot>)

  datatype View = View(table: Table, nest: Nest)

  function PreemptCount(cfg: Config, nest: Nest): int {
    nest.preempt + if cfg.bhCounts then nest.bh else 0
  }

  predicate Inhibited(word: nat) { (word / 0x4000_0000) % 2 == 1 }

  function Count(word: nat): nat { word % 0x4000_0000 }

  // ----- Finding a slot -----

  /** How a slot was looked for. */
  datatype Path =
    | Own          // the CPU's slot is already the caller's
    | Absent       // quick check: no recursion
    | Claimed      // the free slot became the caller's
    | NoTable
    | Redundant    // asked to create a slot it already has
    | Orphan       // took over the slot of a dead process
    | Occupied     // the slot belongs to another live process
    | Moved        // the slot was found on another CPU and moved here
    | Nowhere

  predicate Finds(p: Path) { p in {Own, Claimed, Redundant, Orphan, Moved} }

  /** First slot at or after `i` owned by `pid`, or the number of slots. */
  function SlotOf(slots: seq<Slot>, pid: nat, i: nat): (k: nat)
    requires i <= |slots|
    ensures i <= k <= |slots|
    ensures k < |slots| ==> slots[k].pid == pid
    ensures forall j :: i <= j < k ==> slots[j].pid != pid
    decreases |slots| - i
  {
    if i == |slots| || slots[i].pid == pid then i else SlotOf(slots, pid, i + 1)
  }

  function AssocUnlikely(cfg: Config, env: Env, cpus: nat, cpu: nat, pid: nat, table: Table,
                         create: bool): (r: (Table, Path))
    requires cpu < cpus && (table.Allocated? ==> |table.slots| == cpus)
    ensures r.0.Allocated? ==> |r.0.slots| == cpus
    ensures Finds(r.1) ==> r.0.Allocated? && r.0.slots[cpu].pid == pid
  {
    if table.Unallocated? && !(cfg.fips && env.allocOk) then (table, NoTable)
    else
      var slots := if table.Unallocated? then seq(cpus, i => FREE) else table.slots;
      var owner := slots[cpu].pid;
      if owner == pid then (Allocated(slots), if create then Redundant else Own)
      else if create then
        if owner == 0 then (Allocated(slots[cpu := slots[cpu].(pid := pid)]), Claimed)
        else if owner in env.dead then (Allocated(slots[cpu := slots[cpu].(pid := pid)]), Orphan)
        else (Allocated(slots), Occupied)
      else
        var k := SlotOf(slots, pid, 0);
        if k < cpus then (Allocated(slots[cpu := slots[k]][k := FREE]), Moved)
        else (Allocated(slots), Nowhere)
  }

  function Assoc(cfg: Config, env: Env, cpus: nat, cpu: nat, pid: nat, table: Table, create: bool,
                 began: bool): (r: (Table, Path))
    requires cpu < cpus && (table.Allocated? ==> |table.slots| == cpus)
    ensures r.0.Allocated? ==> |r.0.slots| == cpus
    ensures Finds(r.1) ==> r.0.Allocated? && r.0.slots[cpu].pid == pid
    ensures !create && !began ==> r.0 == table
  {
    if table.Unallocated? then
      if !began then (table, Absent) else AssocUnlikely(cfg, env, cpus, cpu, pid, table, create)
    else
      var owner := table.slots[cpu].pid;
      if owner == pid then
        if create then AssocUnlikely(cfg, env, cpus, cpu, pid, table, create) else (table, Own)
      else if !began then (table, Absent)
      else if create && owner == 0 then
        (Allocated(table.slots[cpu := table.slots[cpu].(pid := pid)]), Claimed)
      else AssocUnlikely(cfg, env, cpus, cpu, pid, table, create)
  }

  function SetWord(table: Table, cpu: nat, word: nat): Table
    requires table.Allocated? && cpu < |table.slots|
  {
    Allocated(table.slots[cpu := table.slots[cpu].(fpuState := word)])
  }

  function Release(table: Table, cpu: nat): Table
    requires table.Allocated? && cpu < |table.slots|
  {
    Allocated(table.slots[cpu := FREE])
  }

  // ----- The calls -----

  predicate Fits(cpus: nat, cpu: nat, v: View) {
    cpu < cpus && (v.table.Allocated? ==> |v.table.slots| == cpus)
  }

  function CanSave(cfg: Config, env: Env, cpus: nat, cpu: nat, pid: nat, v: View): bool
    requires Fits(cpus, cpu, v)
  {
    !env.hardIrq && pid != 0 &&
    var (table, path) := Assoc(cfg, env, cpus, cpu, pid, v.table, false, false);
    if Finds(path) && table.slots[cpu].fpuState != 0 then
      !Inhibited(table.slots[cpu].fpuState) && Count(table.slots[cpu].fpuState) != COUNT_MASK
    else
      PreemptCount(cfg, v.nest) == 0 || env.simd
  }

  /** A save up to the point where it may sleep: either it is done, or it goes on. */
  datatype Begun = Done(code: Code, view: View) | Slow

  function SaveBegin(cfg: Config, env: Env, cpus: nat, cpu: nat, pid: nat, v: View, flags: Flags): (r: Begun)
    requires Fits(cpus, cpu, v)
    ensures r.Done? ==> Fits(cpus, cpu, r.view)
  {
    if env.hardIrq || pid == 0 then Done(AccelInhibit, v)
    else
      var (table, path) := Assoc(cfg, env, cpus, cpu, pid, v.table, false, false);
      if Finds(path) && table.slots[cpu].fpuState != 0 then
        var word := table.slots[cpu].fpuState;
        if Inhibited(word) then Done(AccelInhibit, v)
        else if Count(word) == COUNT_MASK then Done(BadState, v)
        else
          var next := (word + 1) % 0x1_0000_0000;
          Done(Ok, v.(table := SetWord(table, cpu,
            if flags == INHIBIT && !Inhibited(next) then next + INHIBITED_FLAG else next)))
      else if env.signal then Done(Interrupted, v)
      else Slow
  }

  function Bump(n: Nest, dPreempt: int, dBh: int, dMigrate: int, dFpu: int): Nest {
    Nest(n.preempt + dPreempt, n.bh + dBh, n.migrate + dMigrate, n.fpu + dFpu)
  }

  function One(b: bool): int { if b then 1 else 0 }

  /** The rest of the save, once no recursion was found. */
  function SaveFinish(cfg: Config, env: Env, cpus: nat, cpu: nat, pid: nat, v: View, flags: Flags): (r: (Code, View))
    requires Fits(cpus, cpu, v)
    ensures Fits(cpus, cpu, r.1)
  {
    if PreemptCount(cfg, v.nest) != 0 && !env.simd then (AccelInhibit, v)
    else if flags == INHIBIT then
      var locked := Bump(v.nest, 0, 1, One(cfg.migrate), 0);
      if PreemptCount(cfg, locked) == 0 then (AccelInhibit, v.(nest := Bump(locked, 0, -1, -One(cfg.migrate), 0)))
      else
        var (table, path) := Assoc(cfg, env, cpus, cpu, pid, v.table, true, true);
        if !Finds(path) then (BadState, View(table, Bump(locked, 0, -1, -One(cfg.migrate), 0)))
        else (Ok, View(SetWord(table, cpu, INHIBITED_FLAG + 1), locked))
    else
      var locked := Bump(v.nest, One(cfg.rt), 1, One(cfg.migrate), 1);
      var (table, path) := Assoc(cfg, env, cpus, cpu, pid, v.table, true, true);
      if !Finds(path) then (BadState, View(table, Bump(locked, -One(cfg.rt), -1, -One(cfg.migrate), -1)))
      else (Ok, View(SetWord(table, cpu, 1), locked))
  }

  /** A save that is not interrupted between its two parts. */
  function Save(cfg: Config, env: Env, cpus: nat, cpu: nat, pid: nat, v: View, flags: Flags): (r: (Code, View))
    requires Fits(cpus, cpu, v)
    ensures Fits(cpus, cpu, r.1)
  {
    match SaveBegin(cfg, env, cpus, cpu, pid, v, flags)
    case Done(code, view) => (code, view)
    case Slow => SaveFinish(cfg, env, cpus, cpu, pid, v, flags)
  }

  function Restore(cfg: Config, env: Env, cpus: nat, cpu: nat, pid: nat, v: View, flags: Flags): (r: View)
    requires Fits(cpus, cpu, v)
    ensures Fits(cpus, cpu, r)
  {
    if env.hardIrq || pid == 0 then v
    else
      var (table, path) := Assoc(cfg, env, cpus, cpu, pid, v.table, false, true);
      if !Finds(path) then v.(table := table)
      else
        var word := (table.slots[cpu].fpuState - 1) % 0x1_0000_0000;
        if Count(word) > 0 then
          v.(table := SetWord(table, cpu, if flags == INHIBIT && Inhibited(word) then word - INHIBITED_FLAG else word))
        else if word == 0 then
          View(Release(table, cpu), Bump(v.nest, -One(cfg.rt), -1, -One(cfg.migrate), -1))
        else if Inhibited(word) then
          View(Release(table, cpu), Bump(v.nest, 0, -1, -One(cfg.migrate), 0))
        else
          View(SetWord(table, cpu, word), Bump(v.nest, 0, 0, -One(cfg.migrate), 0))
  }

  // ----- The calls as the source writes them -----

  /** The global table and the nesting counters of the executing CPU. */
  class FpuTracker {
    const cfg: Config
    const cpus: nat
    var slots: array?<Slot>
    var nest: Nest

    constructor (cfg: Config, cpus: nat, nest: Nest)
      ensures this.cfg == cfg && this.cpus == cpus && this.nest == nest && slots == null
    {
      this.cfg, this.cpus, this.nest, this.slots := cfg, cpus, nest, null;
    }

    predicate Valid()
      reads this
    {
      slots != null ==> slots.Length == cpus
    }

    ghost function Value(): View
      reads this, slots
    {
      View(if slots == null then Unallocated else Allocated(slots[..]), nest)
    }

    method FindUnlikely(env: Env, cpu: nat, pid: nat, create: bool) returns (path: Path)
      requires Valid() && cpu < cpus
      modifies this`slots, slots
      ensures Valid() && (old(slots) != null ==> slots == old(slots))
      ensures old(slots) == null && slots != null ==> fresh(slots)
      ensures (Value().table, path) == AssocUnlikely(cfg, env, cpus, cpu, pid, old(Value()).table, create)
    {
      if slots == null {
        if !(cfg.fips && env.allocOk) {
          return NoTable;
        }
        slots := new Slot[cpus](_ => FREE);
        assert slots[..] == seq(cpus, i => FREE);
      }
      ghost var found := slots[..];
      var owner := slots[cpu].pid;
      if owner == pid {
        return if create then Redundant else Own;
      }
      if create {
        if owner == 0 {
          slots[cpu] := slots[cpu].(pid := pid);
          return Claimed;
        }
        if owner in env.dead {
          slots[cpu] := slots[cpu].(pid := pid);
          return Orphan;
        }
        return Occupied;
      }
      var i := 0;
      while i < cpus
        invariant 0 <= i <= cpus && slots[..] == found
        invariant SlotOf(found, pid, 0) == SlotOf(found, pid, i)
      {
        if slots[i].pid == pid {
          slots[cpu] := slots[i];
          slots[i] := FREE;
          return Moved;
        }
        i := i + 1;
      }
      return Nowhere;
    }

    method Find(env: Env, cpu: nat, pid: nat, create: bool, began: bool) returns (path: Path)
      requires Valid() && cpu < cpus
      modifies this`slots, slots
      ensures Valid() && (old(slots) != null ==> slots == old(slots))
      ensures old(slots) == null && slots != null ==> fresh(slots)
      ensures (Value().table, path) == Assoc(cfg, env, cpus, cpu, pid, old(Value()).table, create, began)
    {
      if slots == null {
        if !began {
          return Absent;
        }
        path := FindUnlikely(env, cpu, pid, create);
        return;
      }
      var owner := slots[cpu].pid;
      if owner == pid {
        if !create {
          return Own;
        }
        path := FindUnlikely(env, cpu, pid, create);
        return;
      }
      if !began {
        return Absent;
      }
      if create && owner == 0 {
        slots[cpu] := slots[cpu].(pid := pid);
        return Claimed;
      }
      path := FindUnlikely(env, cpu, pid, create);
    }

    method Store(cpu: nat, slot: Slot)
      requires Valid() && slots != null && cpu < cpus
      modifies slots
      ensures slots[..] == old(slots[..])[cpu := slot]
    {
      slots[cpu] := slot;
    }

    method CanSaveNow(env: Env, cpu: nat, pid: nat) returns (yes: bool)
      requires Valid() && cpu < cpus
      modifies this`slots, slots
      ensures Valid() && Value() == old(Value())
      ensures yes == CanSave(cfg, env, cpus, cpu, pid, old(Value()))
    {
      hide Assoc, AssocUnlikely;
      if env.hardIrq || pid == 0 {
        return false;
      }
      var path := Find(env, cpu, pid, false, false);
      if Finds(path) && slots[cpu].fpuState != 0 {
        return !Inhibited(slots[cpu].fpuState) && Count(slots[cpu].fpuState) != COUNT_MASK;
      }
      return PreemptCount(cfg, nest) == 0 || env.simd;
    }

    method SaveVectorRegisters(env: Env, cpu: nat, pid: nat, flags: Flags) returns (code: Code)
      requires Valid() && cpu < cpus
      modifies this, slots
      ensures Valid() && (code, Value()) == Save(cfg, env, cpus, cpu, pid, old(Value()), flags)
    {
      hide Assoc, AssocUnlikely;
      if env.hardIrq || pid == 0 {
        return AccelInhibit;
      }
      var path := Find(env, cpu, pid, false, false);
      if Finds(path) && slots[cpu].fpuState != 0 {
        var word := slots[cpu].fpuState;
        if Inhibited(word) {
          return AccelInhibit;
        }
        if Count(word) == COUNT_MASK {
          return BadState;
        }
        word := (word + 1) % 0x1_0000_0000;
        if flags == INHIBIT && !Inhibited(word) {
          word := word + INHIBITED_FLAG;
        }
        Store(cpu, slots[cpu].(fpuState := word));
        return Ok;
      }
      if env.signal {
        return Interrupted;
      }
      code := SaveFresh(env, cpu, pid, flags);
    }

    /** Disables migration and bottom halves. */
    method Lock()
      modifies this`nest
      ensures nest == Bump(old(nest), 0, 1, One(cfg.migrate), 0)
    {
      if cfg.migrate { nest := nest.(migrate := nest.migrate + 1); }
      nest := nest.(bh := nest.bh + 1);
    }

    method Unlock()
      modifies this`nest
      ensures nest == Bump(old(nest), 0, -1, -One(cfg.migrate), 0)
    {
      nest := nest.(bh := nest.bh - 1);
      if cfg.migrate { nest := nest.(migrate := nest.migrate - 1); }
    }

    /** Opens the kernel FPU section under an already taken lock. */
    method BeginFpu()
      modifies this`nest
      ensures nest == Bump(old(nest), One(cfg.rt), 0, 0, 1)
    {
      if cfg.rt { nest := nest.(preempt := nest.preempt + 1); }
      nest := nest.(fpu := nest.fpu + 1);
    }

    method EndFpu()
      modifies this`nest
      ensures nest == Bump(old(nest), -One(cfg.rt), 0, 0, -1)
    {
      nest := nest.(fpu := nest.fpu - 1);
      if cfg.rt { nest := nest.(preempt := nest.preempt - 1); }
    }

    /** The part of a save that takes a new slot. */
    method SaveFresh(env: Env, cpu: nat, pid: nat, flags: Flags) returns (code: Code)
      requires Valid() && cpu < cpus
      modifies this, slots
      ensures Valid() && (code, Value()) == SaveFinish(cfg, env, cpus, cpu, pid, old(Value()), flags)
    {
      hide Assoc, AssocUnlikely;
      if PreemptCount(cfg, nest) != 0 && !env.simd {
        return AccelInhibit;
      }
      Lock();
      if flags == INHIBIT {
        if PreemptCount(cfg, nest) == 0 {
          Unlock();
          return AccelInhibit;
        }
        var path := Find(env, cpu, pid, true, true);
        if !Finds(path) {
          Unlock();
          return BadState;
        }
        Store(cpu, slots[cpu].(fpuState := INHIBITED_FLAG + 1));
        return Ok;
      }
      BeginFpu();
      var path := Find(env, cpu, pid, true, true);
      if !Finds(path) {
        EndFpu();
        Unlock();
        return BadState;
      }
      Store(cpu, slots[cpu].(fpuState := 1));
      return Ok;
    }

    method RestoreVectorRegisters(env: Env, cpu: nat, pid: nat, flags: Flags)
      requires Valid() && cpu < cpus
      modifies this, slots
      ensures Valid() && Value() == Restore(cfg, env, cpus, cpu, pid, old(Value()), flags)
    {
      hide Assoc, AssocUnlikely;
      if env.hardIrq || pid == 0 {
        return;
      }
      var path := Find(env, cpu, pid, false, true);
      if !Finds(path) {
        return;
      }
      ghost var found := slots[..];
      var word := (slots[cpu].fpuState - 1) % 0x1_0000_0000;
      Store(cpu, slots[cpu].(fpuState := word));
      if Count(word) > 0 {
        if flags == INHIBIT && Inhibited(word) {
          Store(cpu, slots[cpu].(fpuState := word - INHIBITED_FLAG));
          assert slots[..] == found[cpu := found[cpu].(fpuState := word - INHIBITED_FLAG)];
        }
        return;
      }
      if word == 0 {
        Store(cpu, FREE);
        assert slots[..] == found[cpu := FREE];
        EndFpu();
        Unlock();
      } else if Inhibited(word) {
        Store(cpu, FREE);
        assert slots[..] == found[cpu := FREE];
        Unlock();
      } else if cfg.migrate {
        nest := nest.(migrate := nest.migrate - 1);
      }
    }
  }
}

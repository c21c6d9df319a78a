/** The FreeBSD twin: a nesting count and a thread id per CPU. */
module BsdVecRegs {

  datatype Slot = Slot(tid: nat, nest: nat)

  /** A thread's FPU view on its CPU: a dedicated kernel FPU thread, or not; the kernel-FPU flag of its
      control block; and how often it entered a kernel FPU section. */
  datatype Thread = Thread(tid: nat, fpuThread: bool, kernFpu: bool, entered: int)

  datatype Outcome = Ok | EInval

  /** What a save does to the CPU's slot and to the running thread. Entering the section
      sets the control block's flag. */
  function SaveSpec(s: Slot, t: Thread): (Outcome, Slot, Thread) {
    if t.fpuThread then (Ok, s, t)
    else if t.kernFpu then
      if s.tid != t.tid then (EInval, s, t)
      else (Ok, s.(nest := (s.nest + 1) % 0x1_0000_0000), t)
    else
      var u := t.(kernFpu := true, entered := t.entered + 1);
      if s.nest != 0 || s.tid != 0 then (EInval, s, u)
      else (Ok, Slot(t.tid, 1), u)
  }

  function RestoreSpec(s: Slot, t: Thread): (Slot, Thread) {
    if t.fpuThread || !t.kernFpu || s.tid != t.tid then (s, t)
    else
      var nest := if s.nest > 0 then s.nest - 1 else s.nest;
      if nest == 0 then (Slot(0, 0), t.(kernFpu := false, entered := t.entered - 1))
      else (s.(nest := nest), t)
  }

  class Tracker {
    var states: array<Slot>
    var running: array<Thread>

    constructor (states: array<Slot>, running: array<Thread>)
      ensures this.states == states && this.running == running
    {
      this.states, this.running := states, running;
    }

    method SaveVecRegs(cpu: nat) returns (outcome: Outcome)
      requires cpu < states.Length && cpu < running.Length
      modifies states, running
      ensures var (o, s, t) := SaveSpec(old(states[cpu]), old(running[cpu]));
        outcome == o && states[..] == old(states[..])[cpu := s] && running[..] == old(running[..])[cpu := t]
    {
      if running[cpu].fpuThread {
        return Ok;
      }
      if running[cpu].kernFpu {
        if states[cpu].tid != running[cpu].tid {
          return EInval;
        }
        states[cpu] := states[cpu].(nest := (states[cpu].nest + 1) % 0x1_0000_0000);
      } else {
        running[cpu] := running[cpu].(kernFpu := true, entered := running[cpu].entered + 1);
        if states[cpu].nest != 0 || states[cpu].tid != 0 {
          return EInval;
        }
        states[cpu] := Slot(running[cpu].tid, states[cpu].nest + 1);
      }
      return Ok;
    }

    method RestoreVecRegs(cpu: nat)
      requires cpu < states.Length && cpu < running.Length
      modifies states, running
      ensures var (s, t) := RestoreSpec(old(states[cpu]), old(running[cpu]));
        states[..] == old(states[..])[cpu := s] && running[..] == old(running[..])[cpu := t]
    {
      if running[cpu].fpuThread || !running[cpu].kernFpu || states[cpu].tid != running[cpu].tid {
        return;
      }
      ghost var was := states[..];
      if states[cpu].nest > 0 {
        states[cpu] := states[cpu].(nest := states[cpu].nest - 1);
      }
      if states[cpu].nest == 0 {
        states[cpu] := Slot(0, 0);
        running[cpu] := running[cpu].(kernFpu := false, entered := running[cpu].entered - 1);
      }
      assert states[..] == was[cpu := states[cpu]];
    }
  }

  // ----- Runs -----

  /** `depth` counts the saves outstanding on each CPU; `foreign` says that other kernel code
      opened the running thread's FPU section. Such a section may be preemptible: a thread takes it along. */
  datatype Machine = Machine(slots: seq<Slot>, threads: seq<Thread>, depth: seq<nat>, foreign: seq<bool>)

  datatype Step =
    | Save(cpu: nat)
    | Restore(cpu: nat)
    | ForeignEnter(cpu: nat)
    | ForeignLeave(cpu: nat)
    | Switch(cpu: nat, thread: Thread, foreign: bool)

  ghost predicate Shape(cpus: nat, m: Machine) {
    |m.slots| == |m.threads| == |m.depth| == |m.foreign| == cpus
  }

  /** The kernel holds a thread on its CPU while this module has its FPU section open; callers restore only what they
      saved, and keep their nesting below the width of the counter. A thread switched to may be in another code's
      section, but not in one of this module's. */
  ghost predicate Enabled(cpus: nat, m: Machine, s: Step)
    requires Shape(cpus, m)
  {
    && s.cpu < cpus
    && match s
       case Save(cpu) => m.depth[cpu] < 0xffff_ffff
       case Restore(cpu) => m.depth[cpu] > 0 || m.threads[cpu].fpuThread
       case ForeignEnter(cpu) => !m.threads[cpu].kernFpu && !m.threads[cpu].fpuThread
       case ForeignLeave(cpu) => m.foreign[cpu]
       case Switch(cpu, thread, foreign) =>
         && (!m.threads[cpu].kernFpu || m.foreign[cpu])
         && thread.tid != 0 && (thread.kernFpu <==> foreign) && thread.entered == (if foreign then 1 else 0)
         && (thread.fpuThread ==> !foreign)
         && forall c :: 0 <= c < cpus && c != cpu ==> m.threads[c].tid != thread.tid
  }

  ghost function Apply(cpus: nat, m: Machine, s: Step): Machine
    requires Shape(cpus, m) && Enabled(cpus, m, s)
  {
    match s
    case Save(cpu) =>
      var (o, slot, t) := SaveSpec(m.slots[cpu], m.threads[cpu]);
      Machine(m.slots[cpu := slot], m.threads[cpu := t],
              m.depth[cpu := if o == Ok && !t.fpuThread then m.depth[cpu] + 1 else m.depth[cpu]], m.foreign)
    case Restore(cpu) =>
      var (slot, t) := RestoreSpec(m.slots[cpu], m.threads[cpu]);
      Machine(m.slots[cpu := slot], m.threads[cpu := t],
              m.depth[cpu := if !t.fpuThread && m.depth[cpu] > 0 then m.depth[cpu] - 1 else m.depth[cpu]], m.foreign)
    case ForeignEnter(cpu) =>
      m.(threads := m.threads[cpu := m.threads[cpu].(kernFpu := true, entered := m.threads[cpu].entered + 1)],
         foreign := m.foreign[cpu := true])
    case ForeignLeave(cpu) =>
      m.(threads := m.threads[cpu := m.threads[cpu].(kernFpu := false, entered := m.threads[cpu].entered - 1)],
         foreign := m.foreign[cpu := false])
    case Switch(cpu, thread, foreign) => m.(threads := m.threads[cpu := thread], foreign := m.foreign[cpu := foreign])
  }

  ghost predicate CpuOk(slot: Slot, t: Thread, depth: nat, foreign: bool) {
    && t.tid != 0
    && slot == (if depth == 0 then Slot(0, 0) else Slot(t.tid, depth))
    && (t.fpuThread ==> depth == 0 && !foreign)
    && (foreign ==> depth == 0)
    && (t.kernFpu <==> depth > 0 || foreign)
    && t.entered == (if t.kernFpu then 1 else 0)
    && depth <= 0xffff_ffff
  }

  ghost predicate Inv(cpus: nat, m: Machine) {
    && Shape(cpus, m)
    && (forall c :: 0 <= c < cpus ==> CpuOk(m.slots[c], m.threads[c], m.depth[c], m.foreign[c]))
    && (forall c, d :: 0 <= c < d < cpus ==> m.threads[c].tid != m.threads[d].tid)
  }

  /** A save in any state: when it succeeds, and what it does to slot and thread. Where it fails on entering the
      section, the section stays entered. */
  lemma SaveExactly(s: Slot, t: Thread)
    ensures var (o, s', t') := SaveSpec(s, t);
      && (o == Ok <==> t.fpuThread || (if t.kernFpu then s.tid == t.tid else s == Slot(0, 0)))
      && s' == (if o == EInval || t.fpuThread then s
                else Slot(t.tid, if t.kernFpu then (s.nest + 1) % 0x1_0000_0000 else 1))
      && t' == (if t.fpuThread || t.kernFpu then t else Thread(t.tid, false, true, t.entered + 1))
  {
  }

  /** A restore in any state: it does something only for the thread that owns the slot, in its section; the last one
      frees the slot and leaves the section. */
  lemma RestoreExactly(s: Slot, t: Thread)
    ensures RestoreSpec(s, t) ==
      if !t.fpuThread && t.kernFpu && s.tid == t.tid then
        if s.nest > 1 then (Slot(t.tid, s.nest - 1), t)
        else (Slot(0, 0), Thread(t.tid, false, false, t.entered - 1))
      else (s, t)
  {
  }

  /** A save under the invariant: refused, with nothing changed, exactly when other code holds the thread's
      FPU section; otherwise one level deeper. In particular the half-done failure after entering
      the section never happens. */
  lemma SaveUnderInvariant(s: Slot, t: Thread, depth: nat, foreign: bool)
    requires CpuOk(s, t, depth, foreign) && depth < 0xffff_ffff
    ensures var (o, s', t') := SaveSpec(s, t);
      && (o == EInval <==> foreign)
      && (o == EInval ==> s' == s && t' == t)
      && (o == Ok ==> CpuOk(s', t', if t.fpuThread then depth else depth + 1, foreign))
  {
  }

  /** Restoring undoes the save, flags, counters and all. */
  lemma RestoreUndoesSave(s: Slot, t: Thread, depth: nat, foreign: bool)
    requires CpuOk(s, t, depth, foreign) && depth < 0xffff_ffff && !foreign
    ensures var (o, s', t') := SaveSpec(s, t); RestoreSpec(s', t') == (s, t)
  {
  }

  /** The step as seen by its own CPU; it renames no thread unless it switches. */
  lemma CpuStep(cpus: nat, m: Machine, s: Step)
    requires Shape(cpus, m) && Enabled(cpus, m, s)
    requires CpuOk(m.slots[s.cpu], m.threads[s.cpu], m.depth[s.cpu], m.foreign[s.cpu])
    ensures var m', c := Apply(cpus, m, s), s.cpu;
      && CpuOk(m'.slots[c], m'.threads[c], m'.depth[c], m'.foreign[c])
      && (!s.Switch? ==> m'.threads[c].tid == m.threads[c].tid)
      && (s.Switch? ==> m.depth[c] == 0)
  {
  }

  lemma StepKeepsInv(cpus: nat, m: Machine, s: Step)
    requires Inv(cpus, m) && Enabled(cpus, m, s)
    ensures Inv(cpus, Apply(cpus, m, s))
  {
    hide CpuOk, SaveSpec, RestoreSpec;
    assert CpuOk(m.slots[s.cpu], m.threads[s.cpu], m.depth[s.cpu], m.foreign[s.cpu]);
    CpuStep(cpus, m, s);
  }

  ghost predicate Run(cpus: nat, m: Machine, steps: seq<Step>, end: Machine)
    decreases |steps|
  {
    if steps == [] then end == m
    else Shape(cpus, m) && Enabled(cpus, m, steps[0]) && Run(cpus, Apply(cpus, m, steps[0]), steps[1..], end)
  }

  /** In every interleaving an occupied slot belongs to the thread running on its CPU, its nesting is the
      number of outstanding saves, and the section is open exactly while some are outstanding. */
  lemma {:induction false} RunsKeepInv(cpus: nat, m: Machine, steps: seq<Step>, end: Machine)
    requires Inv(cpus, m) && Run(cpus, m, steps, end)
    ensures Inv(cpus, end)
    decreases |steps|
  {
    hide Inv, Apply, Enabled;
    if steps != [] {
      StepKeepsInv(cpus, m, steps[0]);
      RunsKeepInv(cpus, Apply(cpus, m, steps[0]), steps[1..], end);
    }
  }

  /** The bound on the depth is exact: a save keeps the correspondence if and only if the counter does not wrap. */
  lemma SaveKeepsExactlyBelowWrap(s: Slot, t: Thread, depth: nat)
    requires CpuOk(s, t, depth, false) && !t.fpuThread
    ensures var (o, s', t') := SaveSpec(s, t);
      CpuOk(s', t', depth + 1, false) <==> depth < 0xffff_ffff
  {
  }

  /** At the wrap, one save and one restore close the section although every earlier save is still outstanding. */
  lemma WrapClosesSection(t: Thread)
    requires CpuOk(Slot(t.tid, 0xffff_ffff), t, 0xffff_ffff, false)
    ensures var (o, s', t') := SaveSpec(Slot(t.tid, 0xffff_ffff), t);
      o == Ok && RestoreSpec(s', t') == (Slot(0, 0), t.(kernFpu := false, entered := 0))
  {
  }
}

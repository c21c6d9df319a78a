/** Threads saving and restoring vector registers on several CPUs, in every interleaving the
    scheduler allows. Each CPU's slot is shown to be a stack of frames owned by the running thread. */
module VecRegsRuns {
  import opened VecRegs

  /** A softirq runs as the thread it interrupted, perhaps in the middle of that thread's save. */
  datatype SoftIrq = NoSoftIrq | Serving | ServingOver(flags: Flags)

  /** The kernel as a whole. `frames` and `ambient` are bookkeeping: the saves outstanding on a CPU,
      oldest first, and the nesting other code holds there. `pending` are the threads that slept or were
      interrupted in the middle of a save. */
  datatype Machine = Machine(
    table: Table, nests: seq<Nest>, current: seq<nat>,
    frames: seq<seq<Flags>>, ambient: seq<Nest>, pending: map<nat, Flags>, softIrqs: seq<SoftIrq>)

  datatype Step =
    | Begin(cpu: nat, flags: Flags, env: Env)
    | Finish(cpu: nat, env: Env)
    | Pop(cpu: nat, env: Env)                     // restore with the flags of the newest frame
    | Ambient(cpu: nat, preempt: nat, bh: nat)    // other code changes its nesting
    | Switch(cpu: nat, pid: nat)
    | EnterSoftIrq(cpu: nat)
    | LeaveSoftIrq(cpu: nat)

  // ----- What the word and the counters stand for -----

  /** Saves are nested plainly; an inhibiting one can only be the newest. */
  ghost predicate StackOk(frames: seq<Flags>) {
    && |frames| <= COUNT_MASK
    && forall i :: 0 <= i < |frames| - 1 ==> frames[i] == NONE
  }

  function Top(frames: seq<Flags>): Flags {
    if frames == [] then NONE else frames[|frames| - 1]
  }

  function WordOf(frames: seq<Flags>): nat {
    |frames| + if Top(frames) == INHIBIT then INHIBITED_FLAG else 0
  }

  function SlotFor(frames: seq<Flags>, pid: nat): Slot {
    if frames == [] then FREE else Slot(pid, WordOf(frames))
  }

  /** The nesting the outstanding saves hold. */
  function Held(cfg: Config, frames: seq<Flags>): Nest {
    if frames == [] then Nest(0, 0, 0, 0)
    else if frames[0] == NONE then Nest(One(cfg.rt), 1, One(cfg.migrate), 1)
    else Nest(0, 1, One(cfg.migrate), 0)
  }

  function Plus(a: Nest, b: Nest): Nest { Bump(a, b.preempt, b.bh, b.migrate, b.fpu) }

  // ----- Runs -----

  ghost predicate Shape(cpus: nat, m: Machine) {
    && |m.nests| == |m.current| == |m.frames| == |m.ambient| == |m.softIrqs| == cpus
    && (m.table.Allocated? ==> |m.table.slots| == cpus)
  }

  function ViewOf(m: Machine, cpu: nat): View
    requires cpu < |m.nests|
  {
    View(m.table, m.nests[cpu])
  }

  function Put(m: Machine, cpu: nat, v: View, frames: seq<Flags>): Machine
    requires cpu < |m.nests| && cpu < |m.frames|
  {
    m.(table := v.table, nests := m.nests[cpu := v.nest], frames := m.frames[cpu := frames])
  }

  function Without(pending: map<nat, Flags>, pid: nat): map<nat, Flags> {
    map p | p in pending && p != pid :: pending[p]
  }

  /** When a step may happen: callers restore what they saved, a thread in the middle of a save only goes on
      with it, a CPU changes threads only when its preemption and bottom-half nesting is zero, and a softirq
      comes only when bottom halves are not held, holds them, and leaves nothing behind. */
  ghost predicate Enabled(cpus: nat, m: Machine, s: Step)
    requires Shape(cpus, m)
  {
    && s.cpu < cpus
    && match s
       case Begin(cpu, flags, env) => env.hardIrq || m.current[cpu] !in m.pending
       case Finish(cpu, env) => !env.hardIrq && m.current[cpu] in m.pending
       case Pop(cpu, env) => !env.hardIrq && m.frames[cpu] != [] && m.current[cpu] !in m.pending
       case Ambient(cpu, preempt, bh) => m.softIrqs[cpu] != NoSoftIrq ==> bh >= 1
       case Switch(cpu, pid) =>
         && m.nests[cpu].preempt == 0 && m.nests[cpu].bh == 0
         && (pid != 0 ==> forall c :: 0 <= c < cpus && c != cpu ==> m.current[c] != pid)
       case EnterSoftIrq(cpu) => m.softIrqs[cpu] == NoSoftIrq && m.nests[cpu].bh == 0
       case LeaveSoftIrq(cpu) =>
         m.softIrqs[cpu] != NoSoftIrq && m.frames[cpu] == [] && m.current[cpu] !in m.pending
  }

  /** Other code on the CPU changes its bottom-half nesting. */
  function Hold(m: Machine, cpu: nat, bh: int): Machine
    requires cpu < |m.nests| && cpu < |m.ambient|
  {
    m.(ambient := m.ambient[cpu := Bump(m.ambient[cpu], 0, bh, 0, 0)],
       nests := m.nests[cpu := Bump(m.nests[cpu], 0, bh, 0, 0)])
  }

  ghost function Apply(cfg: Config, cpus: nat, m: Machine, s: Step): Machine
    requires Shape(cpus, m) && Enabled(cpus, m, s)
  {
    match s
    case Begin(cpu, flags, env) =>
      (match SaveBegin(cfg, env, cpus, cpu, m.current[cpu], ViewOf(m, cpu), flags)
       case Done(code, v) => Put(m, cpu, v, if code == Ok then m.frames[cpu] + [flags] else m.frames[cpu])
       case Slow => m.(pending := m.pending[m.current[cpu] := flags]))
    case Finish(cpu, env) =>
      var flags := m.pending[m.current[cpu]];
      var (code, v) := SaveFinish(cfg, env, cpus, cpu, m.current[cpu], ViewOf(m, cpu), flags);
      Put(m, cpu, v, if code == Ok then m.frames[cpu] + [flags] else m.frames[cpu])
        .(pending := Without(m.pending, m.current[cpu]))
    case Pop(cpu, env) =>
      var frames := m.frames[cpu];
      var v := Restore(cfg, env, cpus, cpu, m.current[cpu], ViewOf(m, cpu), Top(frames));
      Put(m, cpu, v, frames[..|frames| - 1])
    case Ambient(cpu, preempt, bh) =>
      var was := m.ambient[cpu];
      m.(ambient := m.ambient[cpu := Nest(preempt, bh, 0, 0)],
         nests := m.nests[cpu := Bump(m.nests[cpu], preempt - was.preempt, bh - was.bh, 0, 0)])
    case Switch(cpu, pid) => m.(current := m.current[cpu := pid])
    case EnterSoftIrq(cpu) =>
      var pid := m.current[cpu];
      Hold(m, cpu, 1).(
        softIrqs := m.softIrqs[cpu := if pid in m.pending then ServingOver(m.pending[pid]) else Serving],
        pending := Without(m.pending, pid))
    case LeaveSoftIrq(cpu) =>
      Hold(m, cpu, -1).(
        softIrqs := m.softIrqs[cpu := NoSoftIrq],
        pending := match m.softIrqs[cpu]
                   case ServingOver(flags) => m.pending[m.current[cpu] := flags]
                   case _ => m.pending)
  }

  /** At boot: every CPU idle, the table not yet or just allocated. */
  ghost predicate Initial(cpus: nat, m: Machine) {
    && Shape(cpus, m)
    && (m.table.Allocated? ==> forall c :: 0 <= c < cpus ==> m.table.slots[c] == FREE)
    && (forall c :: 0 <= c < cpus ==> m.frames[c] == [] && m.nests[c] == Nest(0, 0, 0, 0) == m.ambient[c])
    && (forall c :: 0 <= c < cpus ==> m.current[c] == 0 && m.softIrqs[c] == NoSoftIrq)
    && m.pending == map[]
  }

  // ----- The invariant -----

  ghost predicate CpuOk(cfg: Config, m: Machine, c: nat)
    requires c < |m.nests| == |m.current| == |m.frames| == |m.ambient| == |m.softIrqs|
    requires m.table.Allocated? ==> |m.table.slots| == |m.nests|
  {
    && StackOk(m.frames[c])
    && (m.frames[c] != [] ==> m.table.Allocated? && m.current[c] != 0)
    && (m.table.Allocated? ==> m.table.slots[c] == SlotFor(m.frames[c], m.current[c]))
    && (m.current[c] in m.pending ==> m.frames[c] == [])
    && m.ambient[c].preempt >= 0 && m.ambient[c].bh >= 0 && m.ambient[c].migrate == 0 && m.ambient[c].fpu == 0
    && m.nests[c] == Plus(Held(cfg, m.frames[c]), m.ambient[c])
    && (m.softIrqs[c] != NoSoftIrq ==> m.ambient[c].bh >= 1)
    && (m.softIrqs[c].ServingOver? ==> m.current[c] != 0)
  }

  ghost predicate Inv(cfg: Config, cpus: nat, m: Machine) {
    && Shape(cpus, m)
    && (forall c :: 0 <= c < cpus ==> CpuOk(cfg, m, c))
    && (forall c, d :: 0 <= c < d < cpus && m.current[c] != 0 ==> m.current[c] != m.current[d])
    && 0 !in m.pending
  }

  lemma InitialOk(cfg: Config, cpus: nat, m: Machine)
    requires Initial(cpus, m)
    ensures Inv(cfg, cpus, m)
  {
  }

  // ----- One CPU: the word is the stack -----

  /** What the table shows on the CPU of a thread with these frames. */
  ghost predicate Shows(table: Table, cpus: nat, cpu: nat, pid: nat, frames: seq<Flags>) {
    && cpu < cpus && pid != 0 && StackOk(frames)
    && (table.Allocated? ==> |table.slots| == cpus && table.slots[cpu] == SlotFor(frames, pid))
    && (table.Unallocated? ==> frames == [])
  }

  /** No slot but that of `cpu` changes; a table allocated on demand starts out free. */
  ghost predicate Others(t: Table, t': Table, cpus: nat, cpu: nat) {
    && (t.Allocated? ==> t'.Allocated? && |t.slots| == cpus)
    && (t'.Allocated? ==> |t'.slots| == cpus)
    && (t'.Allocated? ==>
          forall c :: 0 <= c < cpus && c != cpu ==> t'.slots[c] == if t.Allocated? then t.slots[c] else FREE)
  }

  lemma WordBits(frames: seq<Flags>)
    requires StackOk(frames)
    ensures Count(WordOf(frames)) == |frames|
    ensures Inhibited(WordOf(frames)) <==> Top(frames) == INHIBIT
  {
  }

  /** The quick lookup finds the caller's slot exactly if it holds frames. */
  lemma QuickLookup(cfg: Config, env: Env, cpus: nat, cpu: nat, pid: nat, table: Table, frames: seq<Flags>)
    requires Shows(table, cpus, cpu, pid, frames)
    ensures Assoc(cfg, env, cpus, cpu, pid, table, false, false) == (table, if frames == [] then Absent else Own)
  {
  }

  /** Adding one stays below the flag, so the count never carries into it. */
  lemma NextWord(frames: seq<Flags>, flags: Flags)
    requires StackOk(frames) && frames != [] && Top(frames) == NONE && |frames| < COUNT_MASK
    ensures StackOk(frames + [flags])
    ensures var next := (WordOf(frames) + 1) % 0x1_0000_0000;
      !Inhibited(next) && Count(next) == |frames| + 1
      && WordOf(frames + [flags]) == (if flags == INHIBIT then next + INHIBITED_FLAG else next)
  {
  }

  /** The kernel nesting of a save that succeeds or fails. */
  lemma BeginIsPush(cfg: Config, env: Env, cpus: nat, cpu: nat, pid: nat, v: View, flags: Flags, frames: seq<Flags>)
    requires Shows(v.table, cpus, cpu, pid, frames) && !env.hardIrq
    ensures var r := SaveBegin(cfg, env, cpus, cpu, pid, v, flags);
      if frames == [] then r == (if env.signal then Done(Interrupted, v) else Slow)
      else if Top(frames) == INHIBIT then r == Done(AccelInhibit, v)
      else if |frames| == COUNT_MASK then r == Done(BadState, v)
      else r == Done(Ok, v.(table := SetWord(v.table, cpu, WordOf(frames + [flags])))) && StackOk(frames + [flags])
  {
    QuickLookup(cfg, env, cpus, cpu, pid, v.table, frames);
    WordBits(frames);
    hide Assoc;
    if frames != [] && Top(frames) != INHIBIT && |frames| < COUNT_MASK {
      NextWord(frames, flags);
    }
  }

  lemma FinishIsPush(cfg: Config, env: Env, cpus: nat, cpu: nat, pid: nat, v: View, flags: Flags)
    requires Shows(v.table, cpus, cpu, pid, [])
    ensures var (code, w) := SaveFinish(cfg, env, cpus, cpu, pid, v, flags);
      if code == Ok then
        w.table.Allocated? && w.table.slots[cpu] == SlotFor([flags], pid)
        && w.nest == Plus(v.nest, Held(cfg, [flags]))
      else w.nest == v.nest && Shows(w.table, cpus, cpu, pid, [])
    ensures Others(v.table, SaveFinish(cfg, env, cpus, cpu, pid, v, flags).1.table, cpus, cpu)
  {
  }

  lemma PopIsPop(cfg: Config, env: Env, cpus: nat, cpu: nat, pid: nat, v: View, frames: seq<Flags>)
    requires Shows(v.table, cpus, cpu, pid, frames) && !env.hardIrq && frames != []
    ensures var w := Restore(cfg, env, cpus, cpu, pid, v, Top(frames));
      var rest := frames[..|frames| - 1];
      && StackOk(rest)
      && w.table == Allocated(v.table.slots[cpu := SlotFor(rest, pid)])
      && Plus(w.nest, Held(cfg, frames)) == Plus(v.nest, Held(cfg, rest))
  {
  }

  // ----- Every step keeps the invariant -----

  /** A call on one CPU keeps the invariant of the whole machine if it keeps that of its CPU. */
  lemma PutKeeps(cfg: Config, cpus: nat, m: Machine, cpu: nat, v: View, frames: seq<Flags>, pending: map<nat, Flags>)
    requires Inv(cfg, cpus, m) && cpu < cpus && Others(m.table, v.table, cpus, cpu)
    requires CpuOk(cfg, Put(m, cpu, v, frames).(pending := pending), cpu)
    requires forall p :: p in pending ==> p in m.pending
    ensures Inv(cfg, cpus, Put(m, cpu, v, frames).(pending := pending))
  {
    var m' := Put(m, cpu, v, frames).(pending := pending);
    forall c | 0 <= c < cpus ensures CpuOk(cfg, m', c) {
      assert CpuOk(cfg, m, c);
    }
  }

  lemma ShowsHere(cfg: Config, cpus: nat, m: Machine, cpu: nat)
    requires Inv(cfg, cpus, m) && cpu < cpus && m.current[cpu] != 0
    ensures Shows(m.table, cpus, cpu, m.current[cpu], m.frames[cpu])
  {
    assert CpuOk(cfg, m, cpu);
  }

  lemma HeldPush(cfg: Config, frames: seq<Flags>, flags: Flags)
    requires frames != []
    ensures Held(cfg, frames + [flags]) == Held(cfg, frames)
  {
  }

  lemma Unchanged(m: Machine, cpu: nat)
    requires cpu < |m.nests| && cpu < |m.frames|
    ensures Put(m, cpu, ViewOf(m, cpu), m.frames[cpu]) == m
  {
  }

  lemma BeginKeeps(cfg: Config, cpus: nat, m: Machine, cpu: nat, flags: Flags, env: Env)
    requires Inv(cfg, cpus, m) && Enabled(cpus, m, Begin(cpu, flags, env))
    ensures Inv(cfg, cpus, Apply(cfg, cpus, m, Begin(cpu, flags, env)))
  {
    hide Assoc, Held, Plus;
    var pid, frames := m.current[cpu], m.frames[cpu];
    assert CpuOk(cfg, m, cpu);
    if env.hardIrq || pid == 0 {
      Unchanged(m, cpu);
    } else {
      ShowsHere(cfg, cpus, m, cpu);
      BeginIsPush(cfg, env, cpus, cpu, pid, ViewOf(m, cpu), flags, frames);
      var r := SaveBegin(cfg, env, cpus, cpu, pid, ViewOf(m, cpu), flags);
      if r.Slow? {
        var m' := m.(pending := m.pending[pid := flags]);
        forall c | 0 <= c < cpus ensures CpuOk(cfg, m', c) {
          assert CpuOk(cfg, m, c);
        }
      } else if r.code == Ok {
        HeldPush(cfg, frames, flags);
        PutKeeps(cfg, cpus, m, cpu, r.view, frames + [flags], m.pending);
      } else {
        Unchanged(m, cpu);
      }
    }
  }

  lemma FinishKeeps(cfg: Config, cpus: nat, m: Machine, cpu: nat, env: Env)
    requires Inv(cfg, cpus, m) && Enabled(cpus, m, Finish(cpu, env))
    ensures Inv(cfg, cpus, Apply(cfg, cpus, m, Finish(cpu, env)))
  {
    hide Assoc, SaveFinish;
    var pid := m.current[cpu];
    var flags := m.pending[pid];
    assert CpuOk(cfg, m, cpu);
    ShowsHere(cfg, cpus, m, cpu);
    FinishIsPush(cfg, env, cpus, cpu, pid, ViewOf(m, cpu), flags);
    var (code, v) := SaveFinish(cfg, env, cpus, cpu, pid, ViewOf(m, cpu), flags);
    var frames := if code == Ok then m.frames[cpu] + [flags] else m.frames[cpu];
    PutKeeps(cfg, cpus, m, cpu, v, frames, Without(m.pending, pid));
  }

  lemma PopKeeps(cfg: Config, cpus: nat, m: Machine, cpu: nat, env: Env)
    requires Inv(cfg, cpus, m) && Enabled(cpus, m, Pop(cpu, env))
    ensures Inv(cfg, cpus, Apply(cfg, cpus, m, Pop(cpu, env)))
  {
    hide Assoc, Restore;
    var pid, frames := m.current[cpu], m.frames[cpu];
    assert CpuOk(cfg, m, cpu);
    ShowsHere(cfg, cpus, m, cpu);
    PopIsPop(cfg, env, cpus, cpu, pid, ViewOf(m, cpu), frames);
    var v := Restore(cfg, env, cpus, cpu, pid, ViewOf(m, cpu), Top(frames));
    PutKeeps(cfg, cpus, m, cpu, v, frames[..|frames| - 1], m.pending);
  }

  lemma AmbientKeeps(cfg: Config, cpus: nat, m: Machine, cpu: nat, preempt: nat, bh: nat)
    requires Inv(cfg, cpus, m) && Enabled(cpus, m, Ambient(cpu, preempt, bh))
    ensures Inv(cfg, cpus, Apply(cfg, cpus, m, Ambient(cpu, preempt, bh)))
  {
    var m' := Apply(cfg, cpus, m, Ambient(cpu, preempt, bh));
    forall c | 0 <= c < cpus ensures CpuOk(cfg, m', c) {
      assert CpuOk(cfg, m, c);
    }
  }

  /** The scheduler never takes a CPU away from a thread holding frames: they hold bottom-half nesting. */
  lemma SwitchKeeps(cfg: Config, cpus: nat, m: Machine, cpu: nat, pid: nat)
    requires Inv(cfg, cpus, m) && Enabled(cpus, m, Switch(cpu, pid))
    ensures m.frames[cpu] == []
    ensures Inv(cfg, cpus, Apply(cfg, cpus, m, Switch(cpu, pid)))
  {
    var m' := Apply(cfg, cpus, m, Switch(cpu, pid));
    assert CpuOk(cfg, m, cpu);
    forall c | 0 <= c < cpus ensures CpuOk(cfg, m', c) {
      assert CpuOk(cfg, m, c);
    }
  }

  /** A softirq never comes while saves are outstanding: they hold bottom halves. What it saves and restores is its
      own, even in the middle of the interrupted thread's save. */
  lemma EnterKeeps(cfg: Config, cpus: nat, m: Machine, cpu: nat)
    requires Inv(cfg, cpus, m) && Enabled(cpus, m, EnterSoftIrq(cpu))
    ensures m.frames[cpu] == []
    ensures Inv(cfg, cpus, Apply(cfg, cpus, m, EnterSoftIrq(cpu)))
  {
    var m' := Apply(cfg, cpus, m, EnterSoftIrq(cpu));
    assert CpuOk(cfg, m, cpu);
    forall c | 0 <= c < cpus ensures CpuOk(cfg, m', c) {
      assert CpuOk(cfg, m, c);
    }
  }

  lemma LeaveKeeps(cfg: Config, cpus: nat, m: Machine, cpu: nat)
    requires Inv(cfg, cpus, m) && Enabled(cpus, m, LeaveSoftIrq(cpu))
    ensures Inv(cfg, cpus, Apply(cfg, cpus, m, LeaveSoftIrq(cpu)))
  {
    var m' := Apply(cfg, cpus, m, LeaveSoftIrq(cpu));
    assert CpuOk(cfg, m, cpu);
    forall c | 0 <= c < cpus ensures CpuOk(cfg, m', c) {
      assert CpuOk(cfg, m, c);
    }
  }

  lemma StepKeepsInv(cfg: Config, cpus: nat, m: Machine, s: Step)
    requires Inv(cfg, cpus, m) && Enabled(cpus, m, s)
    ensures Inv(cfg, cpus, Apply(cfg, cpus, m, s))
  {
    hide Apply, CpuOk, Enabled;
    match s
    case Begin(cpu, flags, env) => BeginKeeps(cfg, cpus, m, cpu, flags, env);
    case Finish(cpu, env) => FinishKeeps(cfg, cpus, m, cpu, env);
    case Pop(cpu, env) => PopKeeps(cfg, cpus, m, cpu, env);
    case Ambient(cpu, preempt, bh) => AmbientKeeps(cfg, cpus, m, cpu, preempt, bh);
    case EnterSoftIrq(cpu) => EnterKeeps(cfg, cpus, m, cpu);
    case LeaveSoftIrq(cpu) => LeaveKeeps(cfg, cpus, m, cpu);
    case Switch(cpu, pid) => SwitchKeeps(cfg, cpus, m, cpu, pid);
  }

  /** The states of a run: each step enabled where it is taken. */
  ghost predicate Run(cfg: Config, cpus: nat, m: Machine, steps: seq<Step>, end: Machine)
    decreases |steps|
  {
    if steps == [] then end == m
    else Shape(cpus, m) && Enabled(cpus, m, steps[0]) && Run(cfg, cpus, Apply(cfg, cpus, m, steps[0]), steps[1..], end)
  }

  /** Whatever the interleaving, every reachable state satisfies the invariant. */
  lemma {:induction false} RunsKeepInv(cfg: Config, cpus: nat, m: Machine, steps: seq<Step>, end: Machine)
    requires Inv(cfg, cpus, m) && Run(cfg, cpus, m, steps, end)
    ensures Inv(cfg, cpus, end)
    decreases |steps|
  {
    hide Inv, Apply, Enabled;
    if steps != [] {
      StepKeepsInv(cfg, cpus, m, steps[0]);
      RunsKeepInv(cfg, cpus, Apply(cfg, cpus, m, steps[0]), steps[1..], end);
    }
  }

  // ----- What holds in every reachable state -----

  lemma Reachable(cfg: Config, cpus: nat, boot: Machine, steps: seq<Step>, m: Machine)
    requires Initial(cpus, boot) && Run(cfg, cpus, boot, steps, m)
    ensures Inv(cfg, cpus, m)
  {
    hide Initial, Inv, Run;
    InitialOk(cfg, cpus, boot);
    RunsKeepInv(cfg, cpus, boot, steps, m);
  }

  /** The word is the stack of outstanding saves: its count is the depth, its flag is set exactly
      if the newest save inhibits, and the FPU section is open exactly if the oldest does not. */
  lemma WordIsStack(cfg: Config, cpus: nat, boot: Machine, steps: seq<Step>, m: Machine, c: nat)
    requires Initial(cpus, boot) && Run(cfg, cpus, boot, steps, m) && c < cpus
    ensures |m.nests| == |m.frames| == |m.current| == |m.ambient| == cpus
    ensures m.table.Allocated? ==> |m.table.slots| == cpus
    ensures m.nests[c].fpu == One(m.frames[c] != [] && m.frames[c][0] == NONE)
    ensures m.nests[c].bh == m.ambient[c].bh + One(m.frames[c] != [])
    ensures forall i :: 0 <= i < |m.frames[c]| - 1 ==> m.frames[c][i] == NONE
    ensures m.frames[c] == [] && m.table.Allocated? ==> m.table.slots[c] == FREE
    ensures m.frames[c] != [] ==>
      && m.table.Allocated? && m.table.slots[c].pid == m.current[c]
      && Count(m.table.slots[c].fpuState) == |m.frames[c]|
      && (Inhibited(m.table.slots[c].fpuState) <==> Top(m.frames[c]) == INHIBIT)
  {
    Reachable(cfg, cpus, boot, steps, m);
    assert CpuOk(cfg, m, c);
    WordBits(m.frames[c]);
  }

  /** An occupied slot belongs to the thread running on its CPU, and no thread owns two. */
  lemma SlotsAreOwned(cfg: Config, cpus: nat, boot: Machine, steps: seq<Step>, m: Machine)
    requires Initial(cpus, boot) && Run(cfg, cpus, boot, steps, m) && m.table.Allocated?
    ensures |m.table.slots| == |m.current| == cpus
    ensures forall c :: 0 <= c < cpus && m.table.slots[c].pid != 0 ==> m.table.slots[c].pid == m.current[c]
    ensures forall c, d :: 0 <= c < d < cpus && m.table.slots[c].pid != 0 ==>
      m.table.slots[c].pid != m.table.slots[d].pid
  {
    Reachable(cfg, cpus, boot, steps, m);
    forall c | 0 <= c < cpus ensures m.table.slots[c].pid != 0 ==> m.table.slots[c].pid == m.current[c] {
      assert CpuOk(cfg, m, c);
    }
  }

  /** How a step looks its slot up; steps that do not look report the quick answer. */
  ghost function PathOf(cfg: Config, cpus: nat, m: Machine, s: Step): Path
    requires Shape(cpus, m) && Enabled(cpus, m, s)
  {
    match s
    case Begin(cpu, flags, env) => Assoc(cfg, env, cpus, cpu, m.current[cpu], m.table, false, false).1
    case Finish(cpu, env) => Assoc(cfg, env, cpus, cpu, m.current[cpu], m.table, true, true).1
    case Pop(cpu, env) => Assoc(cfg, env, cpus, cpu, m.current[cpu], m.table, false, true).1
    case Ambient(cpu, preempt, bh) => Absent
    case Switch(cpu, pid) => Absent
    case EnterSoftIrq(cpu) => Absent
    case LeaveSoftIrq(cpu) => Absent
  }

  /** The fix-ups for redundant creation, orphaned or occupied slots and migrated threads are never needed. */
  lemma FixupsUnreachable(cfg: Config, cpus: nat, boot: Machine, steps: seq<Step>, m: Machine, s: Step)
    requires Initial(cpus, boot) && Run(cfg, cpus, boot, steps, m) && Shape(cpus, m) && Enabled(cpus, m, s)
    ensures PathOf(cfg, cpus, m, s) in {Own, Absent, Claimed, NoTable}
    ensures s.Pop? ==> PathOf(cfg, cpus, m, s) == Own
    ensures s.Finish? && m.table.Allocated? ==> PathOf(cfg, cpus, m, s) == Claimed
  {
    Reachable(cfg, cpus, boot, steps, m);
    assert CpuOk(cfg, m, s.cpu);
  }

  // ----- Single calls -----

  /** A failed save leaves table and nesting exactly as they were, in any state whatever. */
  lemma FailedSaveChangesNothing(cfg: Config, env: Env, cpus: nat, cpu: nat, pid: nat, v: View, flags: Flags)
    requires Fits(cpus, cpu, v)
    ensures Save(cfg, env, cpus, cpu, pid, v, flags).0 != Ok ==> Save(cfg, env, cpus, cpu, pid, v, flags).1 == v
  {
    if v.table.Allocated? && cpu < |v.table.slots| {
      assert v.table == Allocated(v.table.slots);
    }
  }

  /** Looking a slot up: a quick lookup only tells whether the CPU's slot is the caller's; one that creates takes a free
      or orphaned slot of the CPU and touches no other. */
  lemma LookupExactly(cfg: Config, env: Env, cpus: nat, cpu: nat, pid: nat, slots: seq<Slot>)
    requires cpu < cpus == |slots|
    ensures var owner := slots[cpu].pid;
      var taken := Allocated(slots[cpu := slots[cpu].(pid := pid)]);
      && Assoc(cfg, env, cpus, cpu, pid, Allocated(slots), false, false)
           == (Allocated(slots), if owner == pid then Own else Absent)
      && Assoc(cfg, env, cpus, cpu, pid, Allocated(slots), true, true)
           == if owner == pid then (Allocated(slots), Redundant)
              else if owner == 0 then (taken, Claimed)
              else if owner in env.dead then (taken, Orphan)
              else (Allocated(slots), Occupied)
  {
    assert slots == slots[cpu := slots[cpu]];
  }

  /** Looking a slot up to restore: where the CPU's slot is not the caller's, the first one that is moves here, and the
      place it leaves is free. */
  lemma LookupMoves(cfg: Config, env: Env, cpus: nat, cpu: nat, pid: nat, slots: seq<Slot>, c: nat)
    requires cpu < cpus == |slots| && c <= cpus
    requires forall d :: 0 <= d < c ==> slots[d].pid != pid
    requires c < cpus ==> slots[c].pid == pid
    ensures Assoc(cfg, env, cpus, cpu, pid, Allocated(slots), false, true) ==
      if slots[cpu].pid == pid then (Allocated(slots), Own)
      else if c < cpus then (Allocated(slots[cpu := slots[c]][c := Slot(0, 0)]), Moved)
      else (Allocated(slots), Nowhere)
  {
  }

  /** Without a table a quick lookup finds nothing; any other allocates one, all free, if this is a FIPS build and there
      is memory. */
  lemma LookupAllocates(cfg: Config, env: Env, cpus: nat, cpu: nat, pid: nat)
    requires cpu < cpus && pid != 0
    ensures var free := seq(cpus, c => Slot(0, 0));
      && Assoc(cfg, env, cpus, cpu, pid, Unallocated, false, false) == (Unallocated, Absent)
      && Assoc(cfg, env, cpus, cpu, pid, Unallocated, true, true)
           == (if cfg.fips && env.allocOk then (Allocated(free[cpu := Slot(pid, 0)]), Claimed)
               else (Unallocated, NoTable))
      && Assoc(cfg, env, cpus, cpu, pid, Unallocated, false, true)
           == if cfg.fips && env.allocOk then (Allocated(free), Nowhere) else (Unallocated, NoTable)
  {
    assert seq(cpus, c => FREE) == seq(cpus, c => Slot(0, 0));
  }

  /** The caller has no save outstanding on its CPU. */
  ghost predicate Idle(cpus: nat, cpu: nat, pid: nat, v: View) {
    Fits(cpus, cpu, v) && (v.table.Allocated? && v.table.slots[cpu].pid == pid ==> v.table.slots[cpu].fpuState == 0)
  }

  /** The code of a first save: by whether a signal is pending, the preemption count (with the bottom-half nesting where
      that shows) is 0 or the FPU usable all the same, and a slot is to be had. */
  lemma FirstSaveExactly(cfg: Config, env: Env, cpus: nat, cpu: nat, pid: nat, v: View, flags: Flags)
    requires Idle(cpus, cpu, pid, v) && pid != 0 && !env.hardIrq
    ensures var count := v.nest.preempt + if cfg.bhCounts then v.nest.bh else 0;
      var slot :=
        if v.table.Allocated? then v.table.slots[cpu].pid in {0, pid} + env.dead else cfg.fips && env.allocOk;
      Save(cfg, env, cpus, cpu, pid, v, flags).0 ==
        if env.signal then Interrupted
        else if count != 0 && !env.simd then AccelInhibit
        else if flags == INHIBIT && (if cfg.bhCounts then count + 1 else count) == 0 then AccelInhibit
        else if !slot then BadState
        else Ok
  {
    if v.table.Allocated? {
      LookupExactly(cfg, env, cpus, cpu, pid, v.table.slots);
    } else {
      LookupAllocates(cfg, env, cpus, cpu, pid);
    }
    hide Assoc;
  }

  /** What a successful first save leaves: the slot of its CPU, and one more of each nesting it takes. */
  lemma FirstSaveTakes(cfg: Config, env: Env, cpus: nat, cpu: nat, pid: nat, v: View, flags: Flags)
    requires Idle(cpus, cpu, pid, v) && Save(cfg, env, cpus, cpu, pid, v, flags).0 == Ok
    ensures var (n, w) := (v.nest, Save(cfg, env, cpus, cpu, pid, v, flags).1);
      var migrate := n.migrate + if cfg.migrate then 1 else 0;
      && w.table.Allocated?
      && w.table.slots ==
           (if v.table.Allocated? then v.table.slots else seq(cpus, c => Slot(0, 0)))
           [cpu := Slot(pid, if flags == INHIBIT then 0x4000_0001 else 1)]
      && w.nest == if flags == INHIBIT then Nest(n.preempt, n.bh + 1, migrate, n.fpu)
                   else Nest(n.preempt + if cfg.rt then 1 else 0, n.bh + 1, migrate, n.fpu + 1)
  {
    if v.table.Allocated? {
      LookupExactly(cfg, env, cpus, cpu, pid, v.table.slots);
    } else if pid != 0 {
      LookupAllocates(cfg, env, cpus, cpu, pid);
    }
    hide Assoc;
  }

  /** A save on top of others, by the word of the caller's slot: refused with the flag or a full count, or else one
      more, with the flag if asked for. Nothing else changes. */
  lemma NestedSaveByWord(cfg: Config, env: Env, cpus: nat, cpu: nat, pid: nat, v: View, flags: Flags)
    requires Fits(cpus, cpu, v) && v.table.Allocated? && v.table.slots[cpu].pid == pid
    requires 0 < v.table.slots[cpu].fpuState < 0x1_0000_0000
    ensures var word := v.table.slots[cpu].fpuState;
      var saved := (word + 1) + if flags == INHIBIT then 0x4000_0000 else 0;
      Save(cfg, env, cpus, cpu, pid, v, flags) ==
        if env.hardIrq || pid == 0 || 0x4000_0000 <= word % 0x8000_0000 then (AccelInhibit, v)
        else if word % 0x4000_0000 == 0x3fff_ffff then (BadState, v)
        else (Ok, v.(table := Allocated(v.table.slots[cpu := Slot(pid, saved)])))
  {
    LookupExactly(cfg, env, cpus, cpu, pid, v.table.slots);
    hide Assoc;
  }

  /** A restore by the word of the caller's slot, whatever it is: one less; at 0 the slot is free, and all nesting given
      back that the first save took; with only the flag left the slot is free, and bottom halves given back. */
  lemma RestoreByWord(cfg: Config, env: Env, cpus: nat, cpu: nat, pid: nat, v: View, flags: Flags)
    requires Fits(cpus, cpu, v) && v.table.Allocated? && v.table.slots[cpu].pid == pid
    requires v.table.slots[cpu].fpuState < 0x1_0000_0000
    ensures var was := v.table.slots[cpu].fpuState;
      var word := if was == 0 then 0xffff_ffff else was - 1;
      var flagged := 0x4000_0000 <= word % 0x8000_0000;
      var migrate := v.nest.migrate - if cfg.migrate then 1 else 0;
      var free := Allocated(v.table.slots[cpu := Slot(0, 0)]);
      Restore(cfg, env, cpus, cpu, pid, v, flags) ==
        if env.hardIrq || pid == 0 then v
        else if word % 0x4000_0000 > 0 then
          View(Allocated(v.table.slots[cpu :=
                 Slot(pid, if flags == INHIBIT && flagged then word - 0x4000_0000 else word)]), v.nest)
        else if word == 0 then
          View(free, Nest(v.nest.preempt - if cfg.rt then 1 else 0, v.nest.bh - 1, migrate, v.nest.fpu - 1))
        else if flagged then View(free, Nest(v.nest.preempt, v.nest.bh - 1, migrate, v.nest.fpu))
        else
          View(Allocated(v.table.slots[cpu := Slot(pid, word)]), Nest(v.nest.preempt, v.nest.bh, migrate, v.nest.fpu))
  {
    LookupMoves(cfg, env, cpus, cpu, pid, v.table.slots, SlotOf(v.table.slots, pid, 0));
    hide Assoc;
  }

  /** A restore on a CPU whose slot is not the caller's: as if made with the slot moved here, or, with no slot anywhere,
      of no effect but that a table may be allocated. */
  lemma RestoreElsewhere(cfg: Config, env: Env, cpus: nat, cpu: nat, pid: nat, v: View, flags: Flags, c: nat)
    requires Fits(cpus, cpu, v) && !env.hardIrq && pid != 0 && c <= cpus
    requires v.table.Allocated? ==>
      && v.table.slots[cpu].pid != pid && (forall d :: 0 <= d < c ==> v.table.slots[d].pid != pid)
      && (c < cpus ==> v.table.slots[c].pid == pid)
    ensures v.table.Allocated? && c < cpus ==>
      var moved := v.table.slots[cpu := v.table.slots[c]][c := Slot(0, 0)];
      Restore(cfg, env, cpus, cpu, pid, v, flags) ==
        Restore(cfg, env, cpus, cpu, pid, View(Allocated(moved), v.nest), flags)
    ensures v.table.Allocated? && c == cpus ==> Restore(cfg, env, cpus, cpu, pid, v, flags) == v
    ensures v.table.Unallocated? ==>
      Restore(cfg, env, cpus, cpu, pid, v, flags) ==
        View(if cfg.fips && env.allocOk then Allocated(seq(cpus, i => Slot(0, 0))) else Unallocated, v.nest)
  {
    if v.table.Allocated? {
      LookupMoves(cfg, env, cpus, cpu, pid, v.table.slots, c);
      if c < cpus {
        var moved := v.table.slots[cpu := v.table.slots[c]][c := Slot(0, 0)];
        LookupMoves(cfg, env, cpus, cpu, pid, moved, SlotOf(moved, pid, 0));
      }
    } else {
      LookupAllocates(cfg, env, cpus, cpu, pid);
    }
    hide Assoc;
  }

  /** A nested save by the saves outstanding, and a save where none is possible. */
  lemma NestedSaveExactly(cfg: Config, env: Env, cpus: nat, cpu: nat, pid: nat, v: View, flags: Flags,
                          frames: seq<Flags>)
    requires Fits(cpus, cpu, v) && (pid != 0 ==> Shows(v.table, cpus, cpu, pid, frames) && frames != [])
    ensures Save(cfg, env, cpus, cpu, pid, v, flags).0 ==
      if env.hardIrq || pid == 0 || frames[|frames| - 1] == INHIBIT then AccelInhibit
      else if |frames| == 0x3fff_ffff then BadState
      else Ok
  {
    if pid != 0 && !env.hardIrq {
      hide SaveFinish, SaveBegin;
      BeginIsPush(cfg, env, cpus, cpu, pid, v, flags, frames);
    }
  }

  /** What the question "can I save?" is answered, by the word of the CPU's slot if that is the caller's; no other slot
      matters. */
  lemma CanSaveByWord(cfg: Config, env: Env, cpus: nat, cpu: nat, pid: nat, v: View)
    requires Fits(cpus, cpu, v)
    ensures var word :=
        if v.table.Allocated? && v.table.slots[cpu].pid == pid then v.table.slots[cpu].fpuState else 0;
      CanSave(cfg, env, cpus, cpu, pid, v) <==>
        && !env.hardIrq && pid != 0
        && if word != 0 then word % 0x8000_0000 < 0x3fff_ffff
           else env.simd || v.nest.preempt + (if cfg.bhCounts then v.nest.bh else 0) == 0
  {
    if v.table.Allocated? {
      LookupExactly(cfg, env, cpus, cpu, pid, v.table.slots);
    }
    hide Assoc;
  }

  /** What the question "can I save?" is answered: in a thread outside hard interrupts, with saves outstanding whether
      another fits on top, and else whether the FPU is free. */
  lemma CanSaveExactly(cfg: Config, env: Env, cpus: nat, cpu: nat, pid: nat, v: View, frames: seq<Flags>)
    requires Fits(cpus, cpu, v) && (pid != 0 ==> Shows(v.table, cpus, cpu, pid, frames))
    ensures CanSave(cfg, env, cpus, cpu, pid, v) <==>
      && !env.hardIrq && pid != 0
      && if frames != [] then frames[|frames| - 1] == NONE && |frames| < 0x3fff_ffff
         else env.simd || v.nest.preempt + (if cfg.bhCounts then v.nest.bh else 0) == 0
  {
    if pid != 0 {
      QuickLookup(cfg, env, cpus, cpu, pid, v.table, frames);
      WordBits(frames);
      hide Assoc, Inhibited, Count;
    }
  }

  lemma SavePushes(cfg: Config, env: Env, cpus: nat, cpu: nat, pid: nat, v: View, flags: Flags, frames: seq<Flags>)
    requires Shows(v.table, cpus, cpu, pid, frames) && !env.hardIrq
    requires Save(cfg, env, cpus, cpu, pid, v, flags).0 == Ok
    ensures var u := Save(cfg, env, cpus, cpu, pid, v, flags).1;
      Shows(u.table, cpus, cpu, pid, frames + [flags]) && u.table.Allocated? && Others(v.table, u.table, cpus, cpu)
      && Plus(v.nest, Held(cfg, frames + [flags])) == Plus(u.nest, Held(cfg, frames))
  {
    hide Assoc, SaveFinish, SaveBegin;
    BeginIsPush(cfg, env, cpus, cpu, pid, v, flags, frames);
    if frames == [] {
      FinishIsPush(cfg, env, cpus, cpu, pid, v, flags);
    } else {
      HeldPush(cfg, frames, flags);
    }
  }

  lemma SlotRestored(t: Table, t': Table, cpus: nat, cpu: nat, pid: nat, frames: seq<Flags>)
    requires Shows(t, cpus, cpu, pid, frames) && Others(t, t', cpus, cpu) && t'.Allocated?
    ensures t.Allocated? ==> t'.slots[cpu := SlotFor(frames, pid)] == t.slots
    ensures t.Unallocated? ==> t'.slots[cpu := SlotFor(frames, pid)] == seq(cpus, i => FREE)
  {
  }

  /** A save followed by the matching restore gives back the table and every nesting counter. */
  lemma RestoreUndoesSave(cfg: Config, env: Env, env': Env, cpus: nat, cpu: nat, pid: nat, v: View,
                          flags: Flags, frames: seq<Flags>)
    requires Shows(v.table, cpus, cpu, pid, frames) && !env.hardIrq && !env'.hardIrq
    requires Save(cfg, env, cpus, cpu, pid, v, flags).0 == Ok
    ensures var w := Restore(cfg, env', cpus, cpu, pid, Save(cfg, env, cpus, cpu, pid, v, flags).1, flags);
      w.nest == v.nest && (v.table.Allocated? ==> w.table == v.table)
      && (v.table.Unallocated? ==> w.table == Allocated(seq(cpus, i => FREE)))
  {
    hide Assoc, SaveBegin, SaveFinish, Restore, StackOk;
    var u := Save(cfg, env, cpus, cpu, pid, v, flags).1;
    SavePushes(cfg, env, cpus, cpu, pid, v, flags, frames);
    PopIsPop(cfg, env', cpus, cpu, pid, u, frames + [flags]);
    var w := Restore(cfg, env', cpus, cpu, pid, u, flags);
    assert (frames + [flags])[..|frames + [flags]| - 1] == frames;
    assert w.table == Allocated(u.table.slots[cpu := SlotFor(frames, pid)]);
    SlotRestored(v.table, u.table, cpus, cpu, pid, frames);
  }

  /** The flags of a restore matter only for an inhibiting save inside another one. */
  lemma OnlyNestedInhibitMatters(cfg: Config, env: Env, cpus: nat, cpu: nat, pid: nat, v: View, flags: Flags,
                                 frames: seq<Flags>)
    requires Shows(v.table, cpus, cpu, pid, frames) && !env.hardIrq && frames != []
    ensures var w, x := Restore(cfg, env, cpus, cpu, pid, v, flags), Restore(cfg, env, cpus, cpu, pid, v, Top(frames));
      if flags == NONE && Top(frames) == INHIBIT && |frames| > 1 then
        w.table.Allocated? && w.table.slots[cpu].fpuState == |frames| - 1 + INHIBITED_FLAG
      else w == x
  {
  }

  lemma SavedWord(cfg: Config, env: Env, cpus: nat, cpu: nat, pid: nat, v: View, flags: Flags, frames: seq<Flags>)
    requires Shows(v.table, cpus, cpu, pid, frames) && !env.hardIrq && v.table.Allocated? && frames != []
    requires Save(cfg, env, cpus, cpu, pid, v, flags).0 == Ok
    ensures v.table.slots[cpu].fpuState == |frames|
  {
    hide SaveBegin;
    BeginIsPush(cfg, env, cpus, cpu, pid, v, flags, frames);
  }

  /** Restoring with the wrong flag still undoes the save, unless an inhibiting save inside another one
      is restored plainly: the flag then stays set on the outer save. */
  lemma WrongFlagRestore(cfg: Config, env: Env, env': Env, cpus: nat, cpu: nat, pid: nat, v: View,
                         flags: Flags, flags': Flags, frames: seq<Flags>)
    requires Shows(v.table, cpus, cpu, pid, frames) && !env.hardIrq && !env'.hardIrq && v.table.Allocated?
    requires Save(cfg, env, cpus, cpu, pid, v, flags).0 == Ok
    ensures Restore(cfg, env', cpus, cpu, pid, Save(cfg, env, cpus, cpu, pid, v, flags).1, flags') == v
       <==> !(flags == INHIBIT && flags' == NONE && frames != [])
  {
    hide SaveBegin, SaveFinish;
    var u := Save(cfg, env, cpus, cpu, pid, v, flags).1;
    RestoreUndoesSave(cfg, env, env', cpus, cpu, pid, v, flags, frames);
    SavePushes(cfg, env, cpus, cpu, pid, v, flags, frames);
    OnlyNestedInhibitMatters(cfg, env', cpus, cpu, pid, u, flags', frames + [flags]);
    if frames != [] {
      SavedWord(cfg, env, cpus, cpu, pid, v, flags, frames);
    }
  }

  lemma WordPositive(frames: seq<Flags>)
    requires frames != []
    ensures WordOf(frames) > 0
  {
  }

  /** In any state of outstanding saves, a plain save succeeds exactly if the question "can I save?" is answered
      yes and, for a first save, no signal is pending and there is a table. */
  lemma CanSaveIsExact(cfg: Config, env: Env, cpus: nat, cpu: nat, pid: nat, v: View, frames: seq<Flags>)
    requires Fits(cpus, cpu, v) && (pid != 0 ==> Shows(v.table, cpus, cpu, pid, frames))
    ensures Save(cfg, env, cpus, cpu, pid, v, NONE).0 == Ok
       <==> CanSave(cfg, env, cpus, cpu, pid, v)
            && (frames == [] ==> !env.signal && (v.table.Allocated? || (cfg.fips && env.allocOk)))
  {
    if pid != 0 && !env.hardIrq {
      BeginIsPush(cfg, env, cpus, cpu, pid, v, NONE, frames);
      QuickLookup(cfg, env, cpus, cpu, pid, v.table, frames);
      WordBits(frames);
      hide WordOf, Inhibited, Count, SaveBegin;
      if frames != [] {
        WordPositive(frames);
      }
    }
  }
}

/**
 The task table and its round-robin scheduler (kernel/src/proc/task.rs, kernel/src/proc/scheduler.rs).  The step relation says
 what each call does to the table and the processor; the class does it the way the kernel does.
 */
module Tasks {
  import opened Physical
  import opened KernelStacks

  const MAX_TASKS: nat := 8
  const STACK_BYTES: nat := 4 * PAGE_SIZE

  datatype TaskState = Ready | Running | Dead

  /** `stack` is the words on the task's kernel stack from `rsp` up, as they were when it was last switched away from. */
  datatype Task = Task(rsp: nat, stackBase: nat, state: TaskState, id: nat, rspValid: bool, pml4: nat, stack: Stack)

  /** What the last switch loaded into the processor; `rsp0` is the stack that system calls start on. */
  datatype Loaded = Loaded(rsp: nat, pml4: nat, rsp0: nat)

  datatype Sched = Sched(tasks: seq<Option<Task>>, cur: nat, nextId: nat, loaded: Loaded)

  /** The running task as it calls switch_to. */
  datatype Context = Context(regs: Regs, rsp: nat, stack: Stack)

  /** What spawning gives a new task. */
  datatype NewTask = NewTask(rsp: nat, stackBase: nat, pml4: nat, stack: Stack)

  ghost predicate Shape(s: Sched) {
    |s.tasks| == MAX_TASKS && s.cur < MAX_TASKS
  }

  /** Exactly the current slot may hold a running task; it always holds a task, and its tables are loaded. */
  ghost predicate Inv(s: Sched) {
    && Shape(s)
    && s.tasks[s.cur].Some? && !s.tasks[s.cur].value.state.Ready? && s.tasks[s.cur].value.pml4 == s.loaded.pml4
    && (forall i :: 0 <= i < MAX_TASKS && s.tasks[i].Some? && s.tasks[i].value.state.Running? ==> i == s.cur)
    && (forall i :: 0 <= i < MAX_TASKS && s.tasks[i].Some? ==> s.tasks[i].value.rspValid && s.tasks[i].value.id < s.nextId)
    && (forall i, j :: 0 <= i < j < MAX_TASKS && s.tasks[i].Some? && s.tasks[j].Some? ==> s.tasks[i].value.id != s.tasks[j].value.id)
  }

  predicate CanRun(t: Option<Task>) { t.Some? && t.value.state.Ready? && t.value.rspValid }

  /** How far ahead slot `b` is of slot `a`, going round: 1 to 8. */
  function Dist(a: nat, b: nat): (d: nat)
    requires a < MAX_TASKS && b < MAX_TASKS
    ensures 1 <= d <= MAX_TASKS && (d == MAX_TASKS <==> a == b)
  {
    if b > a then b - a else b + MAX_TASKS - a
  }

  // ----- Steps -----

  /** `next` is the first slot after the current one, going round, whose task can run. */
  predicate IsNext(s: Sched, next: nat)
    requires Shape(s)
  {
    next < MAX_TASKS && CanRun(s.tasks[next]) &&
    forall k: nat :: k < MAX_TASKS && CanRun(s.tasks[k]) ==> Dist(s.cur, next) <= Dist(s.cur, k)
  }

  ghost predicate CanSwitch(ctx: Context) { Full(ctx.regs) && ctx.stack != [] && ctx.rsp >= 48 }

  /** The task that is switched away from: back to ready with what it saved, or gone if it was killed. */
  ghost function Yielded(t: Option<Task>, ctx: Context): Option<Task>
    requires CanSwitch(ctx)
  {
    if t.None? || t.value.state.Dead? then None
    else Some(t.value.(rsp := ctx.rsp - 48, state := Ready, rspValid := true, stack := Suspend(ctx.stack, ctx.regs)))
  }

  ghost predicate SwitchStep(s: Sched, ctx: Context, s': Sched) {
    && Shape(s) && Shape(s') && CanSwitch(ctx)
    && if exists next: nat :: IsNext(s, next)
       then exists next: nat :: IsNext(s, next) && next != s.cur && s' == SwitchTo(s, ctx, next)
       else s' == s
  }

  ghost function SwitchTo(s: Sched, ctx: Context, next: nat): Sched
    requires Shape(s) && next < MAX_TASKS && s.tasks[next].Some? && CanSwitch(ctx)
  {
    var t := s.tasks[next].value;
    Sched(s.tasks[s.cur := Yielded(s.tasks[s.cur], ctx)][next := Some(t.(state := Running))], next, s.nextId,
          Loaded(t.rsp, t.pml4, t.stackBase + STACK_BYTES))
  }

  ghost predicate KillStep(s: Sched, slot: nat, s': Sched) {
    && Shape(s) && Shape(s')
    && s' == if slot < MAX_TASKS && s.tasks[slot].Some? then s.(tasks := s.tasks[slot := Some(s.tasks[slot].value.(state := Dead))]) else s
  }

  /** A new task goes into the lowest empty slot, or nowhere. */
  ghost predicate SpawnStep(s: Sched, given: NewTask, s': Sched) {
    && Shape(s) && Shape(s')
    && (s' == s ||
        exists slot: nat ::
          && slot < MAX_TASKS && s.tasks[slot].None? && (forall k :: 0 <= k < slot ==> s.tasks[k].Some?)
          && s' == WithTask(s, slot, given))
  }

  function WithTask(s: Sched, slot: nat, given: NewTask): Sched
    requires slot < |s.tasks|
  {
    var t := Task(given.rsp, given.stackBase, Ready, s.nextId, true, given.pml4, given.stack);
    s.(tasks := s.tasks[slot := Some(t)], nextId := s.nextId + 1)
  }

  datatype Event = Switch(ctx: Context) | Kill(slot: nat) | Spawn(task: NewTask)

  ghost predicate Step(s: Sched, e: Event, s': Sched) {
    match e
    case Switch(ctx) => SwitchStep(s, ctx, s')
    case Kill(slot) => KillStep(s, slot, s')
    case Spawn(given) => SpawnStep(s, given, s')
  }

  // ----- Runs -----

  ghost predicate Trace(ss: seq<Sched>, es: seq<Event>) {
    |ss| == |es| + 1 && forall i :: 0 <= i < |es| ==> Step(ss[i], es[i], ss[i + 1])
  }

  function Switches(es: seq<Event>): nat {
    if es == [] then 0 else (if es[0].Switch? then 1 else 0) + Switches(es[1..])
  }

  /** Every step keeps the invariant. */
  lemma StepInv(s: Sched, e: Event, s': Sched)
    requires Inv(s) && Step(s, e, s')
    ensures Inv(s')
  {
  }

  /** At most one task runs, it is the current one and its tables are loaded, in every state of every run. */
  lemma {:induction false} AlwaysInv(ss: seq<Sched>, es: seq<Event>)
    requires Trace(ss, es) && Inv(ss[0])
    ensures forall i :: 0 <= i < |ss| ==> Inv(ss[i])
    ensures forall i, j :: 0 <= i < |ss| && 0 <= j < |ss[i].tasks| && ss[i].tasks[j].Some? && ss[i].tasks[j].value.state.Running? ==>
              j == ss[i].cur && ss[i].tasks[j].value.pml4 == ss[i].loaded.pml4
    decreases |es|
  {
    if es != [] {
      StepInv(ss[0], es[0], ss[1]);
      AlwaysInv(ss[1..], es[1..]);
      assert forall i :: 1 <= i < |ss| ==> ss[i] == ss[1..][i - 1];
    }
  }

  ghost predicate Waiting(s: Sched, j: nat, id: nat) {
    Shape(s) && j < MAX_TASKS && j != s.cur && CanRun(s.tasks[j]) && s.tasks[j].value.id == id
  }

  ghost predicate Runs(s: Sched, j: nat, id: nat) {
    Shape(s) && s.cur == j && s.tasks[j].Some? && s.tasks[j].value.id == id && s.tasks[j].value.state.Running?
  }

  /** A waiting task runs at the next switch, or the switch brings the scheduler nearer to it. */
  lemma StepCloser(s: Sched, e: Event, s': Sched, j: nat, id: nat)
    requires Inv(s) && Step(s, e, s') && Waiting(s, j, id) && e != Kill(j)
    ensures Waiting(s', j, id) || (e.Switch? && Runs(s', j, id))
    ensures Waiting(s', j, id) ==> Dist(s'.cur, j) + (if e.Switch? then 1 else 0) <= Dist(s.cur, j)
  {
    if e.Switch? { assert exists next: nat :: IsNext(s, next) by { NextExists(s, j); } }
  }

  /** If some task can run, one of them is the nearest. */
  lemma NextExists(s: Sched, j: nat)
    requires Shape(s) && j < MAX_TASKS && CanRun(s.tasks[j])
    ensures exists next: nat :: IsNext(s, next)
  {
    var best: nat := j;
    for k := 0 to MAX_TASKS
      invariant best < MAX_TASKS && CanRun(s.tasks[best])
      invariant forall i: nat :: i < k && CanRun(s.tasks[i]) ==> Dist(s.cur, best) <= Dist(s.cur, i)
    {
      if CanRun(s.tasks[k]) && Dist(s.cur, k) < Dist(s.cur, best) { best := k; }
    }
    assert IsNext(s, best);
  }

  /**
   A task that can run and is not killed runs after at most 7 calls to next_task_switch,
   whatever tasks are spawned and whichever others are killed in between.
   */
  lemma {:induction false} Fairness(ss: seq<Sched>, es: seq<Event>, j: nat, id: nat) returns (k: nat)
    requires Trace(ss, es) && Inv(ss[0]) && Waiting(ss[0], j, id) && Kill(j) !in es
    requires Switches(es) >= Dist(ss[0].cur, j)
    ensures k < |ss| && Runs(ss[k], j, id) && Switches(es[..k]) <= Dist(ss[0].cur, j) <= 7
    decreases |es|
  {
    hide Inv, Step, Dist;
    StepInv(ss[0], es[0], ss[1]);
    StepCloser(ss[0], es[0], ss[1], j, id);
    if Runs(ss[1], j, id) {
      assert es[..1] == [es[0]];
      return 1;
    }
    k := Fairness(ss[1..], es[1..], j, id);
    assert es[..k + 1] == [es[0]] + es[1..][..k];
    k := k + 1;
  }

  ghost predicate DeadId(s: Sched, id: nat) {
    && id < s.nextId
    && forall i :: 0 <= i < |s.tasks| && s.tasks[i].Some? && s.tasks[i].value.id == id ==> s.tasks[i].value.state.Dead?
  }

  lemma StepDead(s: Sched, e: Event, s': Sched, id: nat)
    requires Inv(s) && Step(s, e, s') && DeadId(s, id)
    ensures DeadId(s', id)
  {
  }

  /** A task that has been killed is never selected again. */
  lemma {:induction false} DeadForever(ss: seq<Sched>, es: seq<Event>, id: nat)
    requires Trace(ss, es) && Inv(ss[0]) && DeadId(ss[0], id)
    ensures forall i, j: nat :: 0 <= i < |ss| ==> !Runs(ss[i], j, id)
    decreases |es|
  {
    if es != [] {
      StepInv(ss[0], es[0], ss[1]);
      StepDead(ss[0], es[0], ss[1], id);
      DeadForever(ss[1..], es[1..], id);
      assert forall i :: 1 <= i < |ss| ==> ss[i] == ss[1..][i - 1];
    }
  }

  // ----- A task goes on where it was -----

  /** All that a task needs to go on, besides the memory its tables show it. */
  datatype Saved = Saved(id: nat, stackBase: nat, pml4: nat, rsp: nat, stack: Stack)

  ghost predicate Parked(s: Sched, j: nat, p: Saved) {
    && Waiting(s, j, p.id)
    && var t := s.tasks[j].value;
       t.stackBase == p.stackBase && t.pml4 == p.pml4 && t.rsp == p.rsp && t.stack == p.stack
  }

  /** The processor has just been given the task's stack pointer, tables and system call stack. */
  ghost predicate Loads(s: Sched, j: nat, p: Saved) {
    && Runs(s, j, p.id) && s.loaded == Loaded(p.rsp, p.pml4, p.stackBase + STACK_BYTES) && s.tasks[j].value.stack == p.stack
  }

  /** A task that is switched away from waits in its slot, with the registers it saved on its stack, its tables and its stack. */
  lemma StepParks(s: Sched, ctx: Context, s': Sched, j: nat, id: nat)
    requires Inv(s) && SwitchStep(s, ctx, s') && Runs(s, j, id) && s'.cur != j
    ensures var t := s.tasks[j].value; Parked(s', j, Saved(id, t.stackBase, t.pml4, ctx.rsp - 48, Suspend(ctx.stack, ctx.regs)))
  {
  }

  /** A task that was spawned waits in an empty slot, under a new id, with what it was given. */
  lemma StepSpawns(s: Sched, given: NewTask, s': Sched) returns (j: nat)
    requires Inv(s) && SpawnStep(s, given, s') && s' != s
    ensures j < MAX_TASKS && s.tasks[j].None? && (forall k :: 0 <= k < j ==> s.tasks[k].Some?)
    ensures Parked(s', j, Saved(s.nextId, given.stackBase, given.pml4, given.rsp, given.stack))
  {
    var slot: nat :| slot < MAX_TASKS && s.tasks[slot].None? && (forall k :: 0 <= k < slot ==> s.tasks[k].Some?) && s' == WithTask(s, slot, given);
    assert WithTask(s, slot, given).tasks[slot].Some?;
    return slot;
  }

  /** A parked task stays as it is until the processor is given exactly what was parked. */
  lemma StepParked(s: Sched, e: Event, s': Sched, j: nat, p: Saved)
    requires Inv(s) && Step(s, e, s') && Parked(s, j, p) && e != Kill(j)
    ensures Parked(s', j, p) || (e.Switch? && Loads(s', j, p))
  {
  }

  /** `k` is the first state in which the task runs. */
  ghost predicate FirstRun(ss: seq<Sched>, j: nat, id: nat, k: nat) {
    k < |ss| && Runs(ss[k], j, id) && forall i :: 0 <= i < k ==> !Runs(ss[i], j, id)
  }

  /** Whatever happens while it waits, a parked task is next run with exactly what was parked. */
  lemma {:induction false} Resumes(ss: seq<Sched>, es: seq<Event>, j: nat, p: Saved, k: nat)
    requires Trace(ss, es) && Inv(ss[0]) && Parked(ss[0], j, p) && FirstRun(ss, j, p.id, k)
    ensures Loads(ss[k], j, p)
    decreases |es|
  {
    StepInv(ss[0], es[0], ss[1]);
    if es[0] == Kill(j) {
      assert ss[k] == ss[1..][k - 1];
      DeadForever(ss[1..], es[1..], p.id);
      assert false;
    } else {
      StepParked(ss[0], es[0], ss[1], j, p);
      if Parked(ss[1], j, p) {
        assert forall i :: 0 <= i < k - 1 ==> ss[1..][i] == ss[i + 1];
        Resumes(ss[1..], es[1..], j, p, k - 1);
      }
    }
  }

  /**
   A running task that gives up the processor goes on, whenever it is next run, where it left off: at
   the return address and with the stack and the preserved registers it had, in its own tables.
   */
  lemma GoesOnWhereItWas(ss: seq<Sched>, es: seq<Event>, j: nat, id: nat, k: nat, junk: Regs)
    requires Trace(ss, es) && Inv(ss[0]) && es != [] && es[0].Switch? && Runs(ss[0], j, id) && ss[1].cur != j
    requires FirstRun(ss[1..], j, id, k)
    ensures var ctx, t, t' := es[0].ctx, ss[0].tasks[j].value, ss[1 + k].tasks[j].value;
            && ss[1 + k].loaded == Loaded(ctx.rsp - 48, t.pml4, t.stackBase + STACK_BYTES) && 7 <= |t'.stack|
            && var (regs, rip, stack) := Resume(t'.stack, junk);
               && rip == ctx.stack[0] && stack == ctx.stack[1..]
               && forall r: Reg :: CalleeSaved(r) ==> r in regs && regs[r] == ctx.regs[r]
  {
    hide Suspend, Resume, PushAll, PopAll;
    var ctx, t := es[0].ctx, ss[0].tasks[j].value;
    StepInv(ss[0], es[0], ss[1]);
    StepParks(ss[0], ctx, ss[1], j, id);
    Resumes(ss[1..], es[1..], j, Saved(id, t.stackBase, t.pml4, ctx.rsp - 48, Suspend(ctx.stack, ctx.regs)), k);
    SwitchRoundTrip(ctx.stack, ctx.regs, junk);
  }

  /** A spawned task first runs with the stack pointer, the tables and the stack it was given. */
  lemma FirstRunOfSpawned(ss: seq<Sched>, es: seq<Event>, j: nat, k: nat)
    requires Trace(ss, es) && Inv(ss[0]) && es != [] && es[0].Spawn? && ss[1] != ss[0] && FirstRun(ss[1..], j, ss[0].nextId, k)
    ensures var given := es[0].task; Loads(ss[1 + k], j, Saved(ss[0].nextId, given.stackBase, given.pml4, given.rsp, given.stack))
  {
    var given, id := es[0].task, ss[0].nextId;
    var slot := StepSpawns(ss[0], given, ss[1]);
    StepInv(ss[0], es[0], ss[1]);
    Keeps(ss[1..], es[1..], slot, id, given.stackBase, given.pml4);
    assert ss[1..][k] == ss[1 + k];
    Resumes(ss[1..], es[1..], j, Saved(id, given.stackBase, given.pml4, given.rsp, given.stack), k);
  }

  /** A child spawned by fork returns from the parent's system call, with 0 in rax, in its own tables. */
  lemma ForkedChildGoesOn(ss: seq<Sched>, es: seq<Event>, j: nat, k: nat, code: Code, u: User, rsp: nat, junk: Regs)
    requires Trace(ss, es) && Inv(ss[0]) && es != [] && es[0].Spawn? && ss[1] != ss[0] && FirstRun(ss[1..], j, ss[0].nextId, k)
    requires ForkOf(code, es[0].task.stack, u, rsp)
    ensures ss[1 + k].loaded.pml4 == es[0].task.pml4
    ensures var t := ss[1 + k].tasks[j].value;
            7 <= |t.stack| && Land(code, t.stack, junk).Returns? && GoesOn(u, 0, rsp, Land(code, t.stack, junk).user)
  {
    hide Land, GoesOn;
    FirstRunOfSpawned(ss, es, j, k);
  }

  // ----- A task keeps its tables -----

  /** Wherever the id is in the table, it is in slot `j`, with this stack and these tables. */
  ghost predicate Keeping(s: Sched, j: nat, id: nat, stackBase: nat, pml4: nat) {
    && id < s.nextId
    && forall i :: 0 <= i < |s.tasks| && s.tasks[i].Some? && s.tasks[i].value.id == id ==>
         i == j && s.tasks[i].value.stackBase == stackBase && s.tasks[i].value.pml4 == pml4
  }

  lemma StepKeeps(s: Sched, e: Event, s': Sched, j: nat, id: nat, stackBase: nat, pml4: nat)
    requires Inv(s) && Step(s, e, s') && Keeping(s, j, id, stackBase, pml4)
    ensures Keeping(s', j, id, stackBase, pml4)
  {
  }

  /** A task stays in its slot with the stack and the tables it has, in every state of every run. */
  lemma {:induction false} Keeps(ss: seq<Sched>, es: seq<Event>, j: nat, id: nat, stackBase: nat, pml4: nat)
    requires Trace(ss, es) && Inv(ss[0]) && j < MAX_TASKS && ss[0].tasks[j].Some?
    requires ss[0].tasks[j].value.id == id && ss[0].tasks[j].value.stackBase == stackBase && ss[0].tasks[j].value.pml4 == pml4
    ensures forall i :: 0 <= i < |ss| ==> Keeping(ss[i], j, id, stackBase, pml4)
  {
    KeepsOn(ss, es, j, id, stackBase, pml4);
  }

  lemma {:induction false} KeepsOn(ss: seq<Sched>, es: seq<Event>, j: nat, id: nat, stackBase: nat, pml4: nat)
    requires Trace(ss, es) && Inv(ss[0]) && Keeping(ss[0], j, id, stackBase, pml4)
    ensures forall i :: 0 <= i < |ss| ==> Keeping(ss[i], j, id, stackBase, pml4)
  {
    hide Inv, Step, Keeping;
    for i := 0 to |es|
      invariant forall k :: 0 <= k <= i ==> Inv(ss[k]) && Keeping(ss[k], j, id, stackBase, pml4)
    {
      StepInv(ss[i], es[i], ss[i + 1]);
      StepKeeps(ss[i], es[i], ss[i + 1], j, id, stackBase, pml4);
    }
  }

  // ----- The kernel's table -----

  /** What next_task_switch hands to switch_to: the slot whose rsp is saved, if any, and what to load. */
  datatype Chosen = Chosen(save: Option<nat>, rsp: nat, pml4: nat)

  /** The table with the chosen task running and the old one ready, or gone if it was killed; its rsp is saved later. */
  ghost predicate Picked(s: Sched, s': Sched, c: Chosen) {
    && Shape(s) && Shape(s') && s.tasks[s.cur].Some? && s.tasks[s'.cur].Some?
    && var was, next, killed := s.tasks[s.cur].value, s.tasks[s'.cur].value, s.tasks[s.cur].value.state.Dead?;
       && s'.tasks == s.tasks[s.cur := if killed then None else Some(was.(state := Ready, rspValid := true))][s'.cur := Some(next.(state := Running))]
       && s'.nextId == s.nextId && s'.loaded == s.loaded.(rsp0 := next.stackBase + STACK_BYTES)
       && c == Chosen(if killed then None else Some(s.cur), next.rsp, next.pml4)
  }

  class Scheduler {
    var tasks: seq<Option<Task>>
    var current: nat
    var nextId: nat
    var loaded: Loaded

    ghost function Now(): Sched
      reads this
    {
      Sched(tasks, current, nextId, loaded)
    }

    constructor (boot: Loaded)
      ensures |tasks| == MAX_TASKS && current == 0 && nextId == 1 && loaded == boot
      ensures forall i :: 0 <= i < MAX_TASKS ==> tasks[i].None?
    {
      tasks := seq(MAX_TASKS, _ => None);
      current, nextId, loaded := 0, 1, boot;
    }

    /** init_main_task: the boot thread becomes task 0, in the kernel's tables, which are loaded. */
    method InitMainTask(stackBase: nat)
      requires |tasks| == MAX_TASKS && nextId == 1 && forall i :: 0 <= i < MAX_TASKS ==> tasks[i].None?
      modifies this
      ensures Inv(Now()) && Runs(Now(), 0, 0) && loaded == old(loaded)
      ensures tasks[0].value.stackBase == stackBase && tasks[0].value.pml4 == loaded.pml4
    {
      tasks := tasks[0 := Some(Task(0, stackBase, Running, 0, true, loaded.pml4, []))];
      current := 0;
    }

    /** current_pml4: the tables that are loaded. */
    method CurrentPml4() returns (pml4: nat)
      requires Inv(Now())
      ensures pml4 == loaded.pml4
    {
      return tasks[current].value.pml4;
    }

    /** The search loop: slots cur + 1, ..., cur + 8, going round. */
    method FindNext() returns (next: Option<nat>)
      requires Inv(Now())
      ensures next.Some? ==> IsNext(Now(), next.value) && next.value != current
      ensures next.None? ==> forall k :: 0 <= k < MAX_TASKS ==> !CanRun(tasks[k])
    {
      for i := 1 to MAX_TASKS + 1
        invariant forall k: nat :: k < MAX_TASKS && CanRun(tasks[k]) ==> Dist(current, k) >= i
      {
        var idx := (current + i) % MAX_TASKS;
        assert Dist(current, idx) == i;
        if CanRun(tasks[idx]) { return Some(idx); }
      }
      return None;
    }

    /** next_task_switch, up to the switch itself: the table is updated, and the new task's system call stack is loaded. */
    method NextTaskSwitch() returns (r: Option<Chosen>)
      requires Inv(Now())
      modifies this
      ensures r.None? ==> Now() == old(Now()) && forall k :: 0 <= k < MAX_TASKS ==> !CanRun(tasks[k])
      ensures r.Some? ==> IsNext(old(Now()), current) && current != old(current) && Picked(old(Now()), Now(), r.value)
    {
      var cur := current;
      var next := FindNext();
      if next.None? { return None; }
      var n := next.value;
      var save := None;
      if tasks[cur].Some? {
        var t := tasks[cur].value;
        if t.state.Running? { t := t.(state := Ready); }
        if t.state.Dead? {
          tasks := tasks[cur := None];
        } else {
          tasks := tasks[cur := Some(t.(rspValid := true))];
          save := Some(cur);
        }
      }
      tasks := tasks[n := Some(tasks[n].value.(state := Running))];
      var t := tasks[n].value;
      current := n;
      loaded := loaded.(rsp0 := t.stackBase + STACK_BYTES);
      r := Some(Chosen(save, t.rsp, t.pml4));
    }

    /** try_switch: no switch inside a system call; otherwise the registers are saved and the chosen task's loaded. */
    method TrySwitch(inSyscall: bool, ctx: Context)
      requires Inv(Now()) && CanSwitch(ctx)
      modifies this
      ensures Inv(Now())
      ensures if inSyscall then Now() == old(Now()) else SwitchStep(old(Now()), ctx, Now())
    {
      if inSyscall { return; }
      ghost var s := Now();
      var chosen := NextTaskSwitch();
      if chosen.None? { return; }
      var stack := Suspend(ctx.stack, ctx.regs);
      if chosen.value.save.Some? {
        var slot := chosen.value.save.value;
        tasks := tasks[slot := Some(tasks[slot].value.(rsp := ctx.rsp - 48, stack := stack))];
      }
      loaded := loaded.(rsp := chosen.value.rsp, pml4 := chosen.value.pml4);
      assert Now() == SwitchTo(s, ctx, current);
      StepInv(s, Switch(ctx), Now());
    }

    method KillTask(slot: nat)
      requires Inv(Now()) && slot < MAX_TASKS
      modifies this`tasks
      ensures Inv(Now()) && KillStep(old(Now()), slot, Now())
    {
      if tasks[slot].Some? { tasks := tasks[slot := Some(tasks[slot].value.(state := Dead))]; }
    }

    method FreeSlot() returns (slot: Option<nat>)
      requires Shape(Now())
      ensures slot.Some? ==> slot.value < MAX_TASKS && tasks[slot.value].None? && forall k :: 0 <= k < slot.value ==> tasks[k].Some?
      ensures slot.None? ==> forall k :: 0 <= k < MAX_TASKS ==> tasks[k].Some?
    {
      for k := 0 to MAX_TASKS
        invariant forall i :: 0 <= i < k ==> tasks[i].Some?
      {
        if tasks[k].None? { return Some(k); }
      }
      return None;
    }

    /** The end of all three spawn routines: the task is in the table. */
    method AddTask(slot: nat, given: NewTask)
      requires Inv(Now()) && slot < MAX_TASKS && tasks[slot].None? && forall k :: 0 <= k < slot ==> tasks[k].Some?
      modifies this
      ensures Inv(Now()) && SpawnStep(old(Now()), given, Now()) && current == old(current)
      ensures Parked(Now(), slot, Saved(old(nextId), given.stackBase, given.pml4, given.rsp, given.stack))
    {
      ghost var s := Now();
      tasks := tasks[slot := Some(Task(given.rsp, given.stackBase, Ready, nextId, true, given.pml4, given.stack))];
      nextId := nextId + 1;
      assert Now() == WithTask(s, slot, given);
    }

    /**
     spawn_user_task, with the stack at `base` whose words are `memory`, or none if there are no frames.
     The first switch to the task enters user mode at `entry`.
     */
    method SpawnUserTask(base: Option<nat>, memory: array<nat>, code: Code, entry: nat, userTop: nat, pml4: nat)
      returns (slot: Option<nat>, ghost given: NewTask)
      requires Inv(Now()) && memory.Length == STACK_WORDS
      modifies this, memory
      ensures Inv(Now()) && SpawnStep(old(Now()), given, Now())
      ensures slot.None? <==> base.None? || forall k :: 0 <= k < MAX_TASKS ==> old(tasks)[k].Some?
      ensures slot.None? ==> Now() == old(Now())
      ensures slot.Some? ==> Parked(Now(), slot.value, Saved(old(nextId), given.stackBase, given.pml4, given.rsp, given.stack))
      ensures slot.Some? ==> given.stackBase == base.value && given.pml4 == pml4 && given.rsp == base.value + STACK_BYTES - 80
      ensures slot.Some? ==> |given.stack| == 10 && forall junk: Regs :: Land(code, given.stack, junk) == Enters(entry, userTop, pml4)
    {
      given := NewTask(0, 0, 0, []);
      slot := FreeSlot();
      if slot.None? || base.None? { return None, given; }
      var sp := UserStack(memory, code, entry, userTop, pml4);
      var task := NewTask(base.value + 8 * sp, base.value, pml4, memory[sp..]);
      given := task;
      AddTask(slot.value, task);
    }

    /** spawn_forked_task: the first switch to the task returns from the system call whose frame this is, with 0. */
    method SpawnForkedTask(base: Option<nat>, memory: array<nat>, code: Code, frame: seq<nat>, pml4: nat, ghost u: User)
      returns (slot: Option<nat>, ghost given: NewTask)
      requires Inv(Now()) && memory.Length == STACK_WORDS && code.user != code.fork && Full(u.regs)
      requires |frame| == FRAME_WORDS && FrameOf(frame, u, u.regs[Rax], u.rsp)
      modifies this, memory
      ensures Inv(Now()) && SpawnStep(old(Now()), given, Now())
      ensures slot.None? <==> base.None? || forall k :: 0 <= k < MAX_TASKS ==> old(tasks)[k].Some?
      ensures slot.None? ==> Now() == old(Now())
      ensures slot.Some? ==> Parked(Now(), slot.value, Saved(old(nextId), given.stackBase, given.pml4, given.rsp, given.stack))
      ensures slot.Some? ==> given.stackBase == base.value && given.pml4 == pml4 && given.rsp == base.value + STACK_BYTES - 184
      ensures slot.Some? ==> ForkOf(code, given.stack, u, u.rsp)
    {
      hide FrameOf, ForkOf;
      given := NewTask(0, 0, 0, []);
      slot := FreeSlot();
      if slot.None? || base.None? { return None, given; }
      var sp := ForkStack(memory, code, frame, u);
      var task := NewTask(base.value + 8 * sp, base.value, pml4, memory[sp..]);
      given := task;
      AddTask(slot.value, task);
    }
  }
}

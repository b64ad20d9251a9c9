/**
 Signal delivery, signal return and signal masks (kernel/src/syscall/process.rs), over the thread
 and process tables of kernel/src/proc/state.rs.  `Apply` says what each call means; the class
 does it the way the kernel does.
 */
module Signals {
  import opened Physical
  import opened FlatMemory
  import opened SignalSets
  import LE = LittleEndian

  const TABLE: nat := 8
  const SIGKILL: nat := 9
  const SIGCHLD: nat := 17
  const FRAME_BYTES: nat := 120

  datatype SyscallFrame = SyscallFrame(rbp: u64, r15: u64, r14: u64, r13: u64, r12: u64, r9: u64, r8: u64, rsi: u64,
                                       rdi: u64, rdx: u64, rbx: u64, rax: u64, rcx: u64, r11: u64, r10: u64)

  datatype SigAction = SigAction(handler: u64, onStack: bool, restorer: u64, mask: SigSet)

  datatype Thread = Thread(tid: nat, groupSlot: nat, zombie: bool, pending: SigSet, mask: SigSet, savedMask: SigSet,
                           altSp: u64, altSize: u64, altDisabled: bool, inHandler: bool, onAlt: bool)

  datatype Process = Process(pid: nat, parentPid: nat, zombie: bool, exitCode: int, threadCount: nat,
                             handlers: seq<SigAction>, pending: SigSet)

  datatype Kernel = Kernel(threads: seq<Option<Thread>>, procs: seq<Option<Process>>, frames: seq<SyscallFrame>,
                           mems: seq<Flat>, current: nat)

  ghost predicate Shape(k: Kernel) {
    && |k.threads| == |k.procs| == |k.frames| == |k.mems| == TABLE && k.current < TABLE
    && (forall i :: 0 <= i < TABLE && k.threads[i].Some? ==> k.threads[i].value.groupSlot < TABLE)
    && (forall i :: 0 <= i < TABLE && k.procs[i].Some? ==> |k.procs[i].value.handlers| == 65)
  }

  // ----- Frames in user memory -----

  function Regs(f: SyscallFrame): seq<u64> {
    [f.rbp, f.r15, f.r14, f.r13, f.r12, f.r9, f.r8, f.rsi, f.rdi, f.rdx, f.rbx, f.rax, f.rcx, f.r11, f.r10]
  }

  function FromRegs(r: seq<u64>): SyscallFrame
    requires |r| == 15
  {
    SyscallFrame(r[0], r[1], r[2], r[3], r[4], r[5], r[6], r[7], r[8], r[9], r[10], r[11], r[12], r[13], r[14])
  }

  function EncodeWords(r: seq<u64>): (b: seq<byte>)
    ensures |b| == 8 * |r|
  {
    if r == [] then [] else LE.ToLe(r[0], 8) + EncodeWords(r[1..])
  }

  function DecodeWords(b: seq<byte>, n: nat): (r: seq<u64>)
    requires |b| == 8 * n
    ensures |r| == n
  {
    if n == 0 then [] else [DecodeWord(b[..8])] + DecodeWords(b[8..], n - 1)
  }

  /** What is stored is what is read back. */
  lemma {:induction false} WordsRoundTrip(r: seq<u64>)
    ensures DecodeWords(EncodeWords(r), |r|) == r
  {
    if r != [] {
      var b := EncodeWords(r);
      assert b[..8] == LE.ToLe(r[0], 8);
      assert b[8..] == EncodeWords(r[1..]);
      LE.U64Range();
      LE.DecodeEncode(r[0], 8);
      WordsRoundTrip(r[1..]);
    }
  }

  // ----- Choosing a signal -----

  predicate Deliverable(t: Thread, p: Process, sig: nat) {
    1 <= sig <= 64 && (Contains(t.pending, sig) || Contains(p.pending, sig)) && !Contains(t.mask, sig)
  }

  predicate IsLowest(t: Thread, p: Process, sig: nat) {
    Deliverable(t, p, sig) && forall s: nat :: s < sig ==> !Deliverable(t, p, s)
  }

  /** The signal a delivery takes: the lowest that is pending for the thread or its process and not blocked. */
  ghost function Chosen(t: Thread, p: Process): Option<nat> {
    if exists sig: nat :: IsLowest(t, p, sig) then
      var sig: nat :| IsLowest(t, p, sig);
      Some(sig)
    else None
  }

  lemma ChosenIs(t: Thread, p: Process, sig: nat)
    requires IsLowest(t, p, sig)
    ensures Chosen(t, p) == Some(sig)
  {
  }

  // ----- What calls do -----

  ghost function Cur(k: Kernel): Option<Thread>
    requires Shape(k)
  {
    k.threads[k.current]
  }

  ghost function CurProc(k: Kernel): Option<Process>
    requires Shape(k)
  {
    if Cur(k).None? then None else k.procs[Cur(k).value.groupSlot]
  }

  ghost function WithThread(k: Kernel, t: Thread): Kernel
    requires k.current < |k.threads|
  {
    k.(threads := k.threads[k.current := Some(t)])
  }

  /** Exactly one pending bit goes: the thread's own if it has one. */
  ghost function Consume(k: Kernel, sig: nat): Kernel
    requires Shape(k) && CurProc(k).Some? && IsSignal(sig)
  {
    var t, p := Cur(k).value, CurProc(k).value;
    if Contains(t.pending, sig) then WithThread(k, t.(pending := Remove(t.pending, sig)))
    else k.(procs := k.procs[t.groupSlot := Some(p.(pending := Remove(p.pending, sig)))])
  }

  function FindPid(procs: seq<Option<Process>>, pid: nat, i: nat): (r: Option<nat>)
    requires i <= |procs|
    ensures r.Some? ==> i <= r.value < |procs| && procs[r.value].Some? && procs[r.value].value.pid == pid
    ensures forall j :: i <= j < (if r.Some? then r.value else |procs|) ==> !(procs[j].Some? && procs[j].value.pid == pid)
    decreases |procs| - i
  {
    if i == |procs| then None
    else if procs[i].Some? && procs[i].value.pid == pid then Some(i)
    else FindPid(procs, pid, i + 1)
  }

  function FindTid(threads: seq<Option<Thread>>, tid: nat, i: nat): (r: Option<nat>)
    requires i <= |threads|
    ensures r.Some? ==> i <= r.value < |threads| && threads[r.value].Some? && threads[r.value].value.tid == tid
    ensures forall j :: i <= j < (if r.Some? then r.value else |threads|) ==> !(threads[j].Some? && threads[j].value.tid == tid)
    decreases |threads| - i
  {
    if i == |threads| then None
    else if threads[i].Some? && threads[i].value.tid == tid then Some(i)
    else FindTid(threads, tid, i + 1)
  }

  function Queue(procs: seq<Option<Process>>, slot: nat, sig: nat): seq<Option<Process>>
    requires slot < |procs| && IsSignal(sig)
  {
    if procs[slot].None? then procs
    else procs[slot := Some(procs[slot].value.(pending := Add(procs[slot].value.pending, sig)))]
  }

  /** A parent that exists learns of the exit. */
  function Notify(procs: seq<Option<Process>>, parentPid: nat): seq<Option<Process>> {
    if parentPid == 0 then procs
    else match FindPid(procs, parentPid, 0)
      case Some(slot) => Queue(procs, slot, SIGCHLD)
      case None => procs
  }

  function Buried(t: Option<Thread>, g: nat): Option<Thread> {
    if t.Some? && t.value.groupSlot == g then Some(t.value.(zombie := true)) else t
  }

  function BuryGroup(threads: seq<Option<Thread>>, g: nat): (r: seq<Option<Thread>>)
    ensures |r| == |threads| && forall i :: 0 <= i < |r| ==> r[i] == Buried(threads[i], g)
  {
    seq(|threads|, i requires 0 <= i < |threads| => Buried(threads[i], g))
  }

  ghost function Terminate(k: Kernel, g: nat, sig: nat): Kernel
    requires Shape(k) && g < TABLE
  {
    var parent := if k.procs[g].Some? then k.procs[g].value.parentPid else 0;
    var procs := if k.procs[g].Some?
                 then k.procs[g := Some(k.procs[g].value.(zombie := true, exitCode := 128 + sig, threadCount := 0))] else k.procs;
    k.(procs := Notify(procs, parent), threads := BuryGroup(k.threads, g))
  }

  /** The mask while the handler runs. */
  function HandlerMask(t: Thread, act: SigAction, sig: nat): SigSet
    requires IsSignal(sig)
  {
    Remove(Union(Add(t.mask, sig), act.mask), SIGKILL)
  }

  /** Where the signal frame goes, if its stack does not overflow. */
  function StackTop(t: Thread, act: SigAction, f: SyscallFrame): Option<u64> {
    if !(act.onStack && !t.altDisabled) then Some(f.r10)
    else if t.altSp + t.altSize < U64 then Some(t.altSp + t.altSize)
    else None
  }

  /** Sets up the handler: the return address and the whole frame go to the user stack. */
  ghost function Enter(k: Kernel, sig: nat, act: SigAction): Kernel
    requires Shape(k) && Cur(k).Some? && 1 <= sig <= 64
  {
    var t, f := Cur(k).value, k.frames[k.current];
    match StackTop(t, act, f)
    case None => k
    case Some(top) =>
      var t1 := t.(onAlt := act.onStack && !t.altDisabled);
      if top < 8 + FRAME_BYTES || !UserRange(top - 8 - FRAME_BYTES, 8 + FRAME_BYTES) then WithThread(k, t1)
      else
        var a := top - 8 - FRAME_BYTES;
        var mem := WriteMem(WriteMem(k.mems[t.groupSlot], a, LE.ToLe(act.restorer, 8)), a + 8, EncodeWords(Regs(f)));
        WithThread(k, t1.(savedMask := t.mask, mask := HandlerMask(t, act, sig), inHandler := true))
          .(mems := k.mems[t.groupSlot := mem], frames := k.frames[k.current := f.(rdi := sig, rcx := act.handler, r10 := a)])
  }

  ghost function Deliver(k: Kernel): Kernel
    requires Shape(k)
  {
    if CurProc(k).None? || Cur(k).value.inHandler then k
    else match Chosen(Cur(k).value, CurProc(k).value)
      case None => k
      case Some(sig) =>
        if !(1 <= sig <= 64) then k
        else
          var act := CurProc(k).value.handlers[sig];
          if act.handler == 0 then
            if sig == SIGCHLD then Consume(k, sig) else Terminate(Consume(k, sig), Cur(k).value.groupSlot, sig)
          else if act.restorer == 0 then Consume(k, sig)
          else Enter(Consume(k, sig), sig, act)
  }

  ghost function Finish(k: Kernel, ret: u64): Kernel
    requires Shape(k)
  {
    Deliver(k.(frames := k.frames[k.current := k.frames[k.current].(rax := ret)]))
  }

  /** The code an error becomes in rax. */
  function Errno(code: nat): u64
    requires 0 < code < 200
  {
    U64 - code
  }

  /** The address space the current thread runs in. */
  ghost function Space(k: Kernel): nat
    requires Shape(k)
  {
    if Cur(k).Some? then Cur(k).value.groupSlot else k.current
  }

  /** rt_sigreturn and the end of its system call. */
  ghost function SigReturn(k: Kernel): Kernel
    requires Shape(k)
  {
    var f := k.frames[k.current];
    if !UserRange(f.r10, FRAME_BYTES) then k.(frames := k.frames[k.current := f.(rax := Errno(14))])
    else
      var saved := FromRegs(DecodeWords(ReadMem(k.mems[Space(k)], f.r10, FRAME_BYTES), 15));
      if Cur(k).None? then k.(frames := k.frames[k.current := saved.(rax := Errno(22))])
      else
        WithThread(k, Cur(k).value.(mask := Cur(k).value.savedMask, inHandler := false, onAlt := false))
          .(frames := k.frames[k.current := saved])
  }

  datatype How = Block | Unblock | SetMask

  function NewMask(mask: SigSet, how: How, given: SigSet): SigSet {
    var clean := Remove(given, SIGKILL);
    match how
    case Block => Remove(Union(mask, clean), SIGKILL)
    case Unblock => Remove(Minus(mask, clean), SIGKILL)
    case SetMask => Remove(clean, SIGKILL)
  }

  ghost function ProcMask(k: Kernel, how: Option<How>, given: Option<SigSet>): Kernel
    requires Shape(k)
  {
    if how.None? || Cur(k).None? || given.None? then k
    else WithThread(k, Cur(k).value.(mask := NewMask(Cur(k).value.mask, how.value, given.value)))
  }

  ghost function Kill(k: Kernel, pid: nat, sig: nat): Kernel
    requires Shape(k)
  {
    match FindPid(k.procs, pid, 0)
    case None => k
    case Some(slot) =>
      if sig == 0 || sig >= 65 then k
      else if sig == SIGKILL then Terminate(k, slot, SIGKILL)
      else k.(procs := Queue(k.procs, slot, sig))
  }

  ghost function Tkill(k: Kernel, tid: nat, sig: nat): Kernel
    requires Shape(k)
  {
    if tid == 0 || sig >= 65 then k
    else match FindTid(k.threads, tid, 0)
      case None => k
      case Some(slot) =>
        var t := k.threads[slot].value;
        if sig == 0 then k
        else if sig == SIGKILL then Terminate(k, t.groupSlot, SIGKILL)
        else k.(threads := k.threads[slot := Some(t.(pending := Add(t.pending, sig)))])
  }

  ghost function SetAction(k: Kernel, sig: nat, act: SigAction): Kernel
    requires Shape(k)
  {
    if !(0 < sig < 65) || CurProc(k).None? || (act.handler != 0 && act.restorer == 0) then k
    else
      var p := CurProc(k).value;
      k.(procs := k.procs[Cur(k).value.groupSlot := Some(p.(handlers := p.handlers[sig := act]))])
  }

  ghost function SetAltStack(k: Kernel, sp: u64, size: u64, disabled: bool): Kernel
    requires Shape(k)
  {
    if Cur(k).None? || (!disabled && (sp == 0 || size == 0)) then k
    else WithThread(k, if disabled then Cur(k).value.(altSp := 0, altSize := 0, altDisabled := true)
                       else Cur(k).value.(altSp := sp, altSize := size, altDisabled := false))
  }

  /** A thread that joins a group: it inherits the mask and nothing else. */
  function NewMember(tid: nat, g: nat, mask: SigSet): Thread {
    Thread(tid, g, false, EmptySet(), mask, EmptySet(), 0, 0, true, false, false)
  }

  ghost function Fork(k: Kernel, slot: nat, pid: nat): Kernel
    requires Shape(k) && slot < TABLE
  {
    if CurProc(k).None? then k
    else
      var p, t := CurProc(k).value, Cur(k).value;
      k.(procs := k.procs[slot := Some(Process(pid, p.pid, false, 0, 1, p.handlers, EmptySet()))],
         threads := k.threads[slot := Some(NewMember(pid, slot, t.mask))],
         frames := k.frames[slot := k.frames[k.current].(rax := 0)],
         mems := k.mems[slot := k.mems[t.groupSlot]])
  }

  ghost function Clone(k: Kernel, slot: nat, tid: nat): Kernel
    requires Shape(k) && slot < TABLE
  {
    if CurProc(k).None? then k
    else
      var p, t := CurProc(k).value, Cur(k).value;
      k.(procs := k.procs[t.groupSlot := Some(p.(threadCount := p.threadCount + 1))],
         threads := k.threads[slot := Some(NewMember(tid, t.groupSlot, t.mask))],
         frames := k.frames[slot := k.frames[k.current].(rax := 0)])
  }

  const NO_ACTION := SigAction(0, false, 0, EmptySet())

  function NoActions(): (s: seq<SigAction>)
    ensures |s| == 65
  {
    seq(65, _ => NO_ACTION)
  }

  ghost function Spawn(k: Kernel, slot: nat, pid: nat, parentPid: nat, mem: Flat): Kernel
    requires Shape(k) && slot < TABLE
  {
    k.(procs := k.procs[slot := Some(Process(pid, parentPid, false, 0, 1, NoActions(), EmptySet()))],
       threads := k.threads[slot := Some(NewMember(pid, slot, EmptySet()))],
       mems := k.mems[slot := mem])
  }

  ghost function NotifyParent(k: Kernel, parentPid: nat): Kernel { k.(procs := Notify(k.procs, parentPid)) }

  ghost function Reap(k: Kernel, slot: nat): Kernel
    requires Shape(k)
  {
    if slot < TABLE then k.(procs := k.procs[slot := None], threads := k.threads[slot := None]) else k
  }

  ghost function Drop(k: Kernel, slot: nat): Kernel
    requires Shape(k)
  {
    if slot < TABLE then k.(threads := k.threads[slot := None]) else k
  }

  ghost function Switch(k: Kernel, slot: nat): Kernel { if slot < TABLE then k.(current := slot) else k }

  ghost function UserDoes(k: Kernel, frame: SyscallFrame, mem: Flat): Kernel
    requires Shape(k)
  {
    k.(frames := k.frames[k.current := frame], mems := k.mems[Space(k) := mem])
  }

  /** Everything that touches signal state; `UserStep` is anything user code does in between. */
  datatype Call =
    | FinishCall(ret: u64)
    | SigReturnCall
    | ProcMaskCall(how: Option<How>, given: Option<SigSet>)
    | KillCall(pid: nat, sig: nat)
    | TkillCall(tid: nat, sig: nat)
    | ActionCall(sig: nat, act: SigAction)
    | AltStackCall(sp: u64, size: u64, disabled: bool)
    | ForkCall(slot: nat, pid: nat)
    | CloneCall(slot: nat, tid: nat)
    | SpawnCall(slot: nat, pid: nat, parentPid: nat, mem: Flat)
    | ChildExit(parentPid: nat)
    | ReapCall(slot: nat)
    | DropThread(slot: nat)
    | SwitchTo(slot: nat)
    | UserStep(frame: SyscallFrame, mem: Flat)

  ghost function Apply(k: Kernel, c: Call): Kernel
    requires Shape(k)
  {
    match c
    case FinishCall(ret) => Finish(k, ret)
    case SigReturnCall => SigReturn(k)
    case ProcMaskCall(how, given) => ProcMask(k, how, given)
    case KillCall(pid, sig) => Kill(k, pid, sig)
    case TkillCall(tid, sig) => Tkill(k, tid, sig)
    case ActionCall(sig, act) => SetAction(k, sig, act)
    case AltStackCall(sp, size, disabled) => SetAltStack(k, sp, size, disabled)
    case ForkCall(slot, pid) => if slot < TABLE then Fork(k, slot, pid) else k
    case CloneCall(slot, tid) => if slot < TABLE then Clone(k, slot, tid) else k
    case SpawnCall(slot, pid, ppid, mem) => if slot < TABLE then Spawn(k, slot, pid, ppid, mem) else k
    case ChildExit(ppid) => NotifyParent(k, ppid)
    case ReapCall(slot) => Reap(k, slot)
    case DropThread(slot) => Drop(k, slot)
    case SwitchTo(slot) => Switch(k, slot)
    case UserStep(frame, mem) => UserDoes(k, frame, mem)
  }

  // ----- SIGKILL -----

  predicate ThreadClean(t: Option<Thread>) {
    t.Some? ==> !Contains(t.value.mask, SIGKILL) && !Contains(t.value.savedMask, SIGKILL) && !Contains(t.value.pending, SIGKILL)
  }

  predicate ProcessClean(p: Option<Process>) { p.Some? ==> !Contains(p.value.pending, SIGKILL) }

  /** SIGKILL is blocked by no thread, saved in no mask and never pending. */
  ghost predicate NoKill(k: Kernel)
    requires Shape(k)
  {
    && (forall i :: 0 <= i < TABLE ==> ThreadClean(k.threads[i]))
    && (forall i :: 0 <= i < TABLE ==> ProcessClean(k.procs[i]))
  }

  ghost predicate Good(k: Kernel) { Shape(k) && NoKill(k) }

  lemma RemoveClean(s: SigSet, sig: nat)
    requires IsSignal(sig)
    ensures !Contains(Remove(s, SIGKILL), SIGKILL)
    ensures !Contains(s, SIGKILL) ==> !Contains(Remove(s, sig), SIGKILL)
    ensures !Contains(s, SIGKILL) && sig != SIGKILL ==> !Contains(Add(s, sig), SIGKILL)
    ensures !Contains(EmptySet(), SIGKILL)
  {
    RemoveMeaning(s, SIGKILL, SIGKILL);
    RemoveMeaning(s, sig, SIGKILL);
    AddMeaning(s, sig, SIGKILL);
    EmptyMeaning(SIGKILL);
  }

  lemma NotifyGood(k: Kernel, ppid: nat)
    requires Good(k)
    ensures Good(k.(procs := Notify(k.procs, ppid)))
  {
    hide Contains, Add;
    var f := FindPid(k.procs, ppid, 0);
    if f.Some? { RemoveClean(k.procs[f.value].value.pending, SIGCHLD); }
  }

  lemma TerminateGood(k: Kernel, g: nat, sig: nat)
    requires Good(k) && g < TABLE
    ensures Good(Terminate(k, g, sig))
  {
    hide Contains, Notify;
    var parent := if k.procs[g].Some? then k.procs[g].value.parentPid else 0;
    var procs := if k.procs[g].Some?
                 then k.procs[g := Some(k.procs[g].value.(zombie := true, exitCode := 128 + sig, threadCount := 0))] else k.procs;
    var k1 := k.(procs := procs, threads := BuryGroup(k.threads, g));
    assert Good(k1);
    NotifyGood(k1, parent);
  }

  lemma ConsumeGood(k: Kernel, sig: nat)
    requires Good(k) && CurProc(k).Some? && IsSignal(sig)
    ensures Good(Consume(k, sig)) && Cur(Consume(k, sig)).Some?
  {
    hide Contains, Remove;
    RemoveClean(Cur(k).value.pending, sig);
    RemoveClean(CurProc(k).value.pending, sig);
  }

  lemma EnterGood(k: Kernel, sig: nat, act: SigAction)
    requires Good(k) && Cur(k).Some? && 1 <= sig <= 64
    ensures Good(Enter(k, sig, act))
  {
    hide Contains, Remove, Union, Add, EncodeWords, Regs, WriteMem;
    RemoveClean(Union(Add(Cur(k).value.mask, sig), act.mask), sig);
  }

  lemma DeliverGood(k: Kernel)
    requires Good(k)
    ensures Good(Deliver(k))
  {
    hide Good, Consume, Terminate, Enter, Contains;
    ShapeOfGood(k);
    if CurProc(k).Some? && !Cur(k).value.inHandler && Chosen(Cur(k).value, CurProc(k).value).Some? {
      var sig := Chosen(Cur(k).value, CurProc(k).value).value;
      if 1 <= sig <= 64 {
        ConsumeGood(k, sig);
        ShapeOfGood(Consume(k, sig));
        if CurProc(k).value.handlers[sig].handler == 0 { TerminateGood(Consume(k, sig), Cur(k).value.groupSlot, sig); }
        EnterGood(Consume(k, sig), sig, CurProc(k).value.handlers[sig]);
      }
    }
  }

  lemma ShapeOfGood(k: Kernel)
    requires Good(k)
    ensures Shape(k)
  {
  }

  /** Every call keeps SIGKILL out of every set. */
  lemma ApplyGood(k: Kernel, c: Call)
    requires Good(k)
    ensures Good(Apply(k, c))
  {
    hide Contains, Add, Remove, Union, Minus, Deliver, Terminate, Notify, DecodeWords, ReadMem, FindPid, FindTid, EmptySet;
    match c
    case FinishCall(ret) => DeliverGood(k.(frames := k.frames[k.current := k.frames[k.current].(rax := ret)]));
    case ProcMaskCall(how, given) =>
      if how.Some? && Cur(k).Some? && given.Some? {
        var clean := Remove(given.value, SIGKILL);
        var mask := Cur(k).value.mask;
        RemoveClean(if how.value.Block? then Union(mask, clean) else if how.value.Unblock? then Minus(mask, clean) else clean, 1);
      }
    case KillCall(pid, sig) =>
      var f := FindPid(k.procs, pid, 0);
      if f.Some? && 0 < sig < 65 {
        TerminateGood(k, f.value, SIGKILL);
        RemoveClean(k.procs[f.value].value.pending, sig);
      }
    case TkillCall(tid, sig) =>
      var f := FindTid(k.threads, tid, 0);
      if f.Some? && 0 < sig < 65 {
        TerminateGood(k, k.threads[f.value].value.groupSlot, SIGKILL);
        RemoveClean(k.threads[f.value].value.pending, sig);
      }
    case ChildExit(ppid) => NotifyGood(k, ppid);
    case _ => EmptyMeaning(SIGKILL);
  }

  ghost predicate Trace(ks: seq<Kernel>, cs: seq<Call>) {
    && |ks| == |cs| + 1 && Good(ks[0])
    && forall i :: 0 <= i < |cs| ==> Shape(ks[i]) && ks[i + 1] == Apply(ks[i], cs[i])
  }

  /** Over every run no thread can block, save or be left with a pending SIGKILL. */
  lemma {:induction false} NeverKill(ks: seq<Kernel>, cs: seq<Call>, n: nat)
    requires Trace(ks, cs) && n <= |cs|
    ensures Good(ks[n])
    decreases n
  {
    hide Apply, Good;
    if n > 0 {
      NeverKill(ks, cs, n - 1);
      ApplyGood(ks[n - 1], cs[n - 1]);
    }
  }

  // ----- Which signal is delivered -----

  /**
   A delivery takes the lowest signal that is pending for the thread or its process and not
   blocked, from the thread if it is pending there, and exactly that one pending bit disappears.
   */
  lemma DeliverTakesOne(k: Kernel, sig: nat)
    requires Shape(k) && CurProc(k).Some? && !Cur(k).value.inHandler && IsLowest(Cur(k).value, CurProc(k).value, sig)
    requires CurProc(k).value.handlers[sig].handler != 0 || sig == SIGCHLD
    ensures var k' := Deliver(k);
            && Shape(k') && Cur(k').Some? && CurProc(k').Some? && k'.current == k.current
            && (forall s: nat :: 1 <= s <= 64 ==>
                  (Contains(Cur(k').value.pending, s) <==> Contains(Cur(k).value.pending, s) && s != sig))
            && (forall s: nat :: 1 <= s <= 64 ==>
                  (Contains(CurProc(k').value.pending, s) <==>
                   Contains(CurProc(k).value.pending, s) && !(s == sig && !Contains(Cur(k).value.pending, sig))))
  {
    hide Contains, Remove, Consume, Enter;
    ChosenIs(Cur(k).value, CurProc(k).value, sig);
    ConsumeTakes(k, sig);
    EnterKeepsPending(Consume(k, sig), sig, CurProc(k).value.handlers[sig]);
  }

  lemma ConsumeTakes(k: Kernel, sig: nat)
    requires Shape(k) && CurProc(k).Some? && IsLowest(Cur(k).value, CurProc(k).value, sig)
    ensures var k' := Consume(k, sig);
            && Shape(k') && Cur(k').Some? && CurProc(k').Some? && k'.current == k.current
            && (forall s: nat :: 1 <= s <= 64 ==>
                  (Contains(Cur(k').value.pending, s) <==> Contains(Cur(k).value.pending, s) && s != sig))
            && (forall s: nat :: 1 <= s <= 64 ==>
                  (Contains(CurProc(k').value.pending, s) <==>
                   Contains(CurProc(k).value.pending, s) && !(s == sig && !Contains(Cur(k).value.pending, sig))))
  {
    hide Contains, Remove;
    forall s: nat | 1 <= s <= 64
      ensures Contains(Remove(Cur(k).value.pending, sig), s) <==> s != sig && Contains(Cur(k).value.pending, s)
      ensures Contains(Remove(CurProc(k).value.pending, sig), s) <==> s != sig && Contains(CurProc(k).value.pending, s)
    {
      RemoveMeaning(Cur(k).value.pending, sig, s);
      RemoveMeaning(CurProc(k).value.pending, sig, s);
    }
  }

  lemma EnterKeepsPending(k: Kernel, sig: nat, act: SigAction)
    requires Shape(k) && Cur(k).Some? && CurProc(k).Some? && 1 <= sig <= 64
    ensures var k' := Enter(k, sig, act);
            && Shape(k') && Cur(k').Some? && k'.current == k.current && Cur(k').value.pending == Cur(k).value.pending
            && CurProc(k') == CurProc(k)
  {
    hide EncodeWords, Regs, WriteMem, HandlerMask;
  }

  /** A signal without handler, other than SIGCHLD, ends the whole process and no other thread; it too takes one bit. */
  lemma DeliverTerminates(k: Kernel, sig: nat)
    requires Shape(k) && CurProc(k).Some? && !Cur(k).value.inHandler && IsLowest(Cur(k).value, CurProc(k).value, sig)
    requires CurProc(k).value.handlers[sig].handler == 0 && sig != SIGCHLD
    ensures var k', g := Deliver(k), Cur(k).value.groupSlot;
            && |k'.procs| == |k'.threads| == TABLE && k'.procs[g].Some?
            && k'.procs[g].value.zombie && k'.procs[g].value.exitCode == 128 + sig
            && (forall i :: 0 <= i < TABLE && k'.threads[i].Some? && k'.threads[i].value.groupSlot == g ==> k'.threads[i].value.zombie)
            && (forall i :: 0 <= i < TABLE && k.threads[i].Some? && k.threads[i].value.groupSlot != g ==> k'.threads[i] == k.threads[i])
            && k'.frames == k.frames && k'.mems == k.mems
            && k'.threads[k.current].Some?
            && (forall s: nat :: 1 <= s <= 64 ==>
                  (Contains(k'.threads[k.current].value.pending, s) <==> Contains(Cur(k).value.pending, s) && s != sig))
            && (forall s: nat :: 1 <= s <= 64 && s != SIGCHLD ==>
                  (Contains(k'.procs[g].value.pending, s) <==>
                   Contains(CurProc(k).value.pending, s) && !(s == sig && !Contains(Cur(k).value.pending, sig))))
  {
    hide Contains, Remove, Consume, Notify;
    ChosenIs(Cur(k).value, CurProc(k).value, sig);
    ConsumeTakes(k, sig);
    ConsumeOthers(k, sig);
    var k1, g := Consume(k, sig), Cur(k).value.groupSlot;
    var dead := k1.procs[g := Some(k1.procs[g].value.(zombie := true, exitCode := 128 + sig, threadCount := 0))];
    NotifyKeeps(dead, k1.procs[g].value.parentPid, g);
  }

  lemma ConsumeOthers(k: Kernel, sig: nat)
    requires Shape(k) && CurProc(k).Some? && IsSignal(sig)
    ensures var k' := Consume(k, sig);
            && |k'.threads| == TABLE && |k'.procs| == TABLE && k'.frames == k.frames && k'.mems == k.mems
            && (forall i :: 0 <= i < TABLE && i != k.current ==> k'.threads[i] == k.threads[i])
            && k'.threads[k.current].Some? && k'.threads[k.current].value.groupSlot == Cur(k).value.groupSlot
            && k'.procs[Cur(k).value.groupSlot].Some?
            && k'.procs[Cur(k).value.groupSlot].value.parentPid == CurProc(k).value.parentPid
  {
    hide Remove;
  }

  lemma NotifyKeeps(procs: seq<Option<Process>>, parentPid: nat, g: nat)
    requires g < |procs| && procs[g].Some?
    ensures |Notify(procs, parentPid)| == |procs| && Notify(procs, parentPid)[g].Some?
    ensures Notify(procs, parentPid)[g].value.zombie == procs[g].value.zombie
    ensures Notify(procs, parentPid)[g].value.exitCode == procs[g].value.exitCode
    ensures forall s: nat :: 1 <= s <= 64 && s != SIGCHLD ==>
              (Contains(Notify(procs, parentPid)[g].value.pending, s) <==> Contains(procs[g].value.pending, s))
  {
    hide Add, Contains;
    forall s: nat | 1 <= s <= 64
      ensures Contains(Add(procs[g].value.pending, SIGCHLD), s) <==> s == SIGCHLD || Contains(procs[g].value.pending, s)
    {
      AddMeaning(procs[g].value.pending, SIGCHLD, s);
    }
  }

  /** Some process with this pid has SIGCHLD pending. */
  ghost predicate Told(procs: seq<Option<Process>>, pid: nat) {
    exists i :: 0 <= i < |procs| && procs[i].Some? && procs[i].value.pid == pid && Contains(procs[i].value.pending, SIGCHLD)
  }

  /** When a process is terminated its parent, if it is there, has SIGCHLD pending. */
  lemma ParentTold(k: Kernel, g: nat, sig: nat, i: nat)
    requires Shape(k) && g < TABLE && k.procs[g].Some? && k.procs[g].value.parentPid != 0
    requires i < TABLE && k.procs[i].Some? && k.procs[i].value.pid == k.procs[g].value.parentPid
    ensures Told(Terminate(k, g, sig).procs, k.procs[g].value.parentPid)
  {
    hide Contains, Add;
    var parent := k.procs[g].value.parentPid;
    var procs := k.procs[g := Some(k.procs[g].value.(zombie := true, exitCode := 128 + sig, threadCount := 0))];
    assert procs[i].value.pid == parent;
    var slot := FindPid(procs, parent, 0).value;
    AddMeaning(procs[slot].value.pending, SIGCHLD, SIGCHLD);
    assert Notify(procs, parent)[slot].value.pid == parent;
  }

  /** kill and tkill make exactly one signal pending, for exactly one process or thread: the first with that number. */
  lemma KillQueues(k: Kernel, pid: nat, slot: nat, sig: nat)
    requires Shape(k) && 0 < sig < 65 && sig != SIGKILL && FindPid(k.procs, pid, 0) == Some(slot)
    ensures var k' := Kill(k, pid, sig);
            && k' == k.(procs := k'.procs) && |k'.procs| == TABLE && k'.procs[slot].Some?
            && (forall i :: 0 <= i < TABLE && i != slot ==> k'.procs[i] == k.procs[i])
            && k'.procs[slot].value == k.procs[slot].value.(pending := k'.procs[slot].value.pending)
            && forall s: nat :: IsSignal(s) ==>
                 (Contains(k'.procs[slot].value.pending, s) <==> s == sig || Contains(k.procs[slot].value.pending, s))
  {
    hide Contains, Add;
    forall s: nat | IsSignal(s)
      ensures Contains(Add(k.procs[slot].value.pending, sig), s) <==> s == sig || Contains(k.procs[slot].value.pending, s)
    {
      AddMeaning(k.procs[slot].value.pending, sig, s);
    }
  }

  lemma TkillQueues(k: Kernel, tid: nat, slot: nat, sig: nat)
    requires Shape(k) && tid != 0 && 0 < sig < 65 && sig != SIGKILL && FindTid(k.threads, tid, 0) == Some(slot)
    ensures var k' := Tkill(k, tid, sig);
            && k' == k.(threads := k'.threads) && |k'.threads| == TABLE && k'.threads[slot].Some?
            && (forall i :: 0 <= i < TABLE && i != slot ==> k'.threads[i] == k.threads[i])
            && k'.threads[slot].value == k.threads[slot].value.(pending := k'.threads[slot].value.pending)
            && forall s: nat :: IsSignal(s) ==>
                 (Contains(k'.threads[slot].value.pending, s) <==> s == sig || Contains(k.threads[slot].value.pending, s))
  {
    hide Contains, Add;
    forall s: nat | IsSignal(s)
      ensures Contains(Add(k.threads[slot].value.pending, sig), s) <==> s == sig || Contains(k.threads[slot].value.pending, s)
    {
      AddMeaning(k.threads[slot].value.pending, sig, s);
    }
  }

  /** A forked child has its parent's mask, actions, memory and registers but for a rax of 0, and nothing to deliver. */
  lemma ForkInherits(k: Kernel, slot: nat, pid: nat, sig: nat)
    requires Shape(k) && CurProc(k).Some? && slot < TABLE && slot != k.current && slot != Cur(k).value.groupSlot
    ensures var k' := Apply(k, ForkCall(slot, pid));
            && Shape(k') && k'.threads[slot].Some? && k'.procs[slot].Some? && Cur(k') == Cur(k) && CurProc(k') == CurProc(k)
            && k'.frames == k.frames[slot := k.frames[k.current].(rax := 0)] && k'.mems == k.mems[slot := k.mems[Cur(k).value.groupSlot]]
            && var t, p := k'.threads[slot].value, k'.procs[slot].value;
               && t.tid == p.pid == pid && p.parentPid == CurProc(k).value.pid && t.groupSlot == slot && p.threadCount == 1
               && t.mask == Cur(k).value.mask && p.handlers == CurProc(k).value.handlers
               && !t.inHandler && !t.zombie && !p.zombie && t.altDisabled && !Deliverable(t, p, sig)
  {
    hide Contains;
    if 1 <= sig <= 64 { EmptyMeaning(sig); }
  }

  /** A thread that clone adds to the process has the caller's mask and registers but for a rax of 0, and is counted. */
  lemma CloneInherits(k: Kernel, slot: nat, tid: nat, sig: nat)
    requires Shape(k) && CurProc(k).Some? && slot < TABLE && slot != k.current && 1 <= sig <= 64
    ensures var k' := Apply(k, CloneCall(slot, tid));
            && Shape(k') && k'.threads[slot].Some? && Cur(k') == Cur(k) && CurProc(k').Some? && k'.mems == k.mems
            && k'.frames == k.frames[slot := k.frames[k.current].(rax := 0)]
            && CurProc(k').value == CurProc(k).value.(threadCount := CurProc(k).value.threadCount + 1)
            && var t := k'.threads[slot].value;
               && t.tid == tid && t.groupSlot == Cur(k).value.groupSlot && t.mask == Cur(k).value.mask
               && !t.inHandler && !t.zombie && t.altDisabled && !Contains(t.pending, sig)
  {
    hide Contains;
    EmptyMeaning(sig);
  }

  /** Nothing deliverable, or already in a handler: nothing happens. */
  lemma DeliverNothing(k: Kernel)
    requires Shape(k) && CurProc(k).Some?
    requires Cur(k).value.inHandler || forall sig: nat :: !Deliverable(Cur(k).value, CurProc(k).value, sig)
    ensures Deliver(k) == k
  {
  }

  /** If something is deliverable, something is lowest. */
  lemma {:induction false} LowestExists(t: Thread, p: Process, sig: nat) returns (low: nat)
    requires Deliverable(t, p, sig)
    ensures IsLowest(t, p, low) && low <= sig
    decreases sig
  {
    if s: nat :| s < sig && Deliverable(t, p, s) { low := LowestExists(t, p, s); } else { low := sig; }
  }

  // ----- The round trip -----

  /** The handler of `t` has been entered by this delivery. */
  ghost predicate Entered(k: Kernel, k': Kernel) {
    && Shape(k) && Shape(k') && k'.current == k.current
    && Cur(k).Some? && !Cur(k).value.inHandler && Cur(k').Some? && Cur(k').value.inHandler
  }

  /** The signal frame: the restorer's address where `ret` finds it, and every register above it. */
  ghost predicate FrameSaved(k: Kernel, k': Kernel, f: SyscallFrame)
    requires Shape(k) && Shape(k') && Cur(k).Some? && Cur(k').Some?
  {
    var a, g := k'.frames[k'.current].r10, Cur(k').value.groupSlot;
    && UserRange(a, 8 + FRAME_BYTES)
    && ReadMem(k'.mems[g], a + 8, FRAME_BYTES) == EncodeWords(Regs(f))
    && Cur(k').value.savedMask == Cur(k).value.mask && g == Cur(k).value.groupSlot
  }

  /** The alternate stack is used if the action asks for it and the thread has one. */
  predicate UsesAlt(t: Thread, act: SigAction) { act.onStack && !t.altDisabled }

  /** The end of the stack the handler runs on: that of the alternate stack, or where the user's stack is. */
  function StackEnd(t: Thread, act: SigAction, f: SyscallFrame): nat {
    if UsesAlt(t, act) then t.altSp + t.altSize else f.r10
  }

  /** That stack has room for the signal frame, inside user space and without wrapping round. */
  predicate HasRoom(t: Thread, act: SigAction, f: SyscallFrame) {
    var end := StackEnd(t, act, f);
    end < U64 && end >= 8 + FRAME_BYTES && UserRange(end - 8 - FRAME_BYTES, 8 + FRAME_BYTES)
  }

  /** After sigaltstack handlers that ask for it run on the new stack, unless it is disabled; a bad stack changes nothing. */
  lemma AltStackMeaning(k: Kernel, sp: u64, size: u64, disabled: bool, act: SigAction, f: SyscallFrame)
    requires Shape(k) && Cur(k).Some?
    ensures var k' := Apply(k, AltStackCall(sp, size, disabled));
            && Shape(k') && Cur(k').Some?
            && StackEnd(Cur(k').value, act, f) ==
               if disabled then f.r10
               else if sp == 0 || size == 0 then StackEnd(Cur(k).value, act, f)
               else if act.onStack then sp + size else f.r10
  {
  }

  /** After sigaction exactly this signal has the new action, unless the action has a handler without restorer. */
  lemma ActionMeaning(k: Kernel, sig: nat, act: SigAction, s: nat)
    requires Shape(k) && CurProc(k).Some? && 0 < sig < 65 && s < 65
    ensures var k' := Apply(k, ActionCall(sig, act));
            && Shape(k') && CurProc(k').Some? && k'.threads == k.threads
            && CurProc(k').value.handlers[s] ==
               if s == sig && (act.handler == 0 || act.restorer != 0) then act else CurProc(k).value.handlers[s]
  {
  }

  /** While the handler runs its own signal and those of its action are blocked too, SIGKILL never. */
  lemma HandlerMaskMeaning(t: Thread, act: SigAction, sig: nat, s: nat)
    requires IsSignal(sig) && IsSignal(s)
    ensures Contains(HandlerMask(t, act, sig), s) <==> s != SIGKILL && (s == sig || Contains(t.mask, s) || Contains(act.mask, s))
  {
    hide Contains, Add, Union, Remove;
    var added := Add(t.mask, sig);
    AddMeaning(t.mask, sig, s);
    UnionMeaning(added, act.mask, s);
    RemoveMeaning(Union(added, act.mask), SIGKILL, s);
  }

  /** What each of the three changes leaves blocked, signal by signal. */
  lemma NewMaskMeaning(mask: SigSet, how: How, given: SigSet, s: nat)
    requires IsSignal(s)
    ensures how.Block? ==> (Contains(NewMask(mask, how, given), s) <==> s != SIGKILL && (Contains(mask, s) || Contains(given, s)))
    ensures how.Unblock? ==> (Contains(NewMask(mask, how, given), s) <==> s != SIGKILL && Contains(mask, s) && !Contains(given, s))
    ensures how.SetMask? ==> (Contains(NewMask(mask, how, given), s) <==> s != SIGKILL && Contains(given, s))
  {
    hide Contains, Union, Minus, Remove;
    var clean := Remove(given, SIGKILL);
    RemoveMeaning(given, SIGKILL, s);
    UnionMeaning(mask, clean, s);
    MinusMeaning(mask, clean, s);
    RemoveMeaning(Union(mask, clean), SIGKILL, s);
    RemoveMeaning(Minus(mask, clean), SIGKILL, s);
    RemoveMeaning(clean, SIGKILL, s);
  }

  /**
   The handler is entered if and only if there is room for the frame.  Then the frame lies at the
   top of the chosen stack, with the return address and every register, and the thread goes on in
   the handler with the signal as argument.
   */
  lemma EnterSaves(k: Kernel, sig: nat, act: SigAction)
    requires Shape(k) && Cur(k).Some? && !Cur(k).value.inHandler && 1 <= sig <= 64
    ensures Entered(k, Enter(k, sig, act)) <==> HasRoom(Cur(k).value, act, k.frames[k.current])
    ensures HasRoom(Cur(k).value, act, k.frames[k.current]) ==>
              var k', f := Enter(k, sig, act), k.frames[k.current];
              && k'.frames[k.current] == f.(rdi := sig, rcx := act.handler, r10 := StackEnd(Cur(k).value, act, f) - 8 - FRAME_BYTES)
              && (Cur(k').value.onAlt <==> UsesAlt(Cur(k).value, act))
              && forall s: nat :: IsSignal(s) ==>
                   (Contains(Cur(k').value.mask, s) <==>
                    s != SIGKILL && (s == sig || Contains(Cur(k).value.mask, s) || Contains(act.mask, s)))
    ensures Shape(Enter(k, sig, act)) && Cur(Enter(k, sig, act)).Some? && Enter(k, sig, act).current == k.current
    ensures Entered(k, Enter(k, sig, act)) ==> FrameSaved(k, Enter(k, sig, act), k.frames[k.current])
    ensures Entered(k, Enter(k, sig, act)) ==>
              ReadMem(Enter(k, sig, act).mems[Cur(k).value.groupSlot], Enter(k, sig, act).frames[k.current].r10, 8) == LE.ToLe(act.restorer, 8)
  {
    hide Contains, HandlerMask, EncodeWords, Regs, LE.ToLe, WriteMem, ReadMem;
    var k', f, g := Enter(k, sig, act), k.frames[k.current], Cur(k).value.groupSlot;
    forall s: nat | IsSignal(s)
      ensures Contains(HandlerMask(Cur(k).value, act, sig), s) <==>
              s != SIGKILL && (s == sig || Contains(Cur(k).value.mask, s) || Contains(act.mask, s))
    {
      HandlerMaskMeaning(Cur(k).value, act, sig, s);
    }
    if Entered(k, k') {
      var a := k'.frames[k.current].r10;
      var bytes := EncodeWords(Regs(f));
      var mem := WriteMem(k.mems[g], a, LE.ToLe(act.restorer, 8));
      RegCount(f);
      WriteRead(mem, a + 8, bytes);
      WriteRead(k.mems[g], a, LE.ToLe(act.restorer, 8));
      WriteApart(mem, a + 8, bytes, a, 8);
    }
  }

  lemma RegCount(f: SyscallFrame)
    ensures |Regs(f)| == 15 && |EncodeWords(Regs(f))| == FRAME_BYTES
    ensures FromRegs(Regs(f)) == f
  {
  }

  lemma DeliverSaves(k: Kernel)
    requires Good(k) && Entered(k, Deliver(k))
    ensures FrameSaved(k, Deliver(k), k.frames[k.current])
  {
    hide Contains, Remove, Enter, Terminate, IsLowest, Deliverable;
    if CurProc(k).Some? && Chosen(Cur(k).value, CurProc(k).value).Some? {
      var sig := Chosen(Cur(k).value, CurProc(k).value).value;
      if 1 <= sig <= 64 {
        ConsumeGood(k, sig);
        TerminateKeeps(Consume(k, sig), Cur(k).value.groupSlot, sig);
        EnterSaves(Consume(k, sig), sig, CurProc(k).value.handlers[sig]);
      }
    }
  }

  lemma TerminateKeeps(k: Kernel, g: nat, sig: nat)
    requires Shape(k) && g < TABLE
    ensures var k' := Terminate(k, g, sig);
            && |k'.threads| == TABLE && k'.current == k.current && k'.frames == k.frames && k'.mems == k.mems
            && forall i :: 0 <= i < TABLE ==> k'.threads[i] == Buried(k.threads[i], g)
  {
  }

  /** The call replaces the thread in slot `t`, or is that thread's own sigreturn. */
  ghost predicate Touches(k: Kernel, c: Call, t: nat) {
    match c
    case SigReturnCall => k.current == t
    case ForkCall(slot, _) => slot == t
    case CloneCall(slot, _) => slot == t
    case SpawnCall(slot, _, _, _) => slot == t
    case ReapCall(slot) => slot == t
    case DropThread(slot) => slot == t
    case _ => false
  }

  /** Slot `t` holds a thread of group `g` inside a handler, with this saved mask. */
  ghost predicate InHandler(k: Kernel, t: nat, g: nat, saved: SigSet) {
    && Shape(k) && t < TABLE && k.threads[t].Some?
    && k.threads[t].value.inHandler && k.threads[t].value.savedMask == saved && k.threads[t].value.groupSlot == g
  }

  lemma ApplyKeepsHandler(k: Kernel, c: Call, t: nat, g: nat, saved: SigSet)
    requires Good(k) && InHandler(k, t, g, saved) && !Touches(k, c, t)
    ensures InHandler(Apply(k, c), t, g, saved)
  {
    hide Contains, Add, Remove, Union, Minus, Terminate, Notify, DecodeWords, ReadMem, Deliver, NoKill, NewMask;
    ApplyGood(k, c);
    match c
    case FinishCall(ret) =>
      FrameGood(k, k.frames[k.current].(rax := ret));
      DeliverKeepsHandler(k.(frames := k.frames[k.current := k.frames[k.current].(rax := ret)]), t, g, saved);
    case KillCall(pid, sig) =>
      var f := FindPid(k.procs, pid, 0);
      if f.Some? { TerminateKeeps(k, f.value, SIGKILL); }
    case TkillCall(tid, sig) =>
      var f := FindTid(k.threads, tid, 0);
      if f.Some? { TerminateKeeps(k, k.threads[f.value].value.groupSlot, SIGKILL); }
    case _ =>
  }

  lemma FrameGood(k: Kernel, f: SyscallFrame)
    requires Good(k)
    ensures Good(k.(frames := k.frames[k.current := f]))
  {
  }

  lemma DeliverKeepsHandler(k: Kernel, t: nat, g: nat, saved: SigSet)
    requires Good(k) && InHandler(k, t, g, saved)
    ensures InHandler(Deliver(k), t, g, saved)
  {
    hide Contains, Add, Remove, Union, Terminate, EncodeWords, Regs, WriteMem, HandlerMask, StackTop, NoKill, Chosen;
    DeliverGood(k);
    if CurProc(k).Some? && !Cur(k).value.inHandler && Chosen(Cur(k).value, CurProc(k).value).Some? {
      var sig := Chosen(Cur(k).value, CurProc(k).value).value;
      if 1 <= sig <= 64 {
        ConsumeGood(k, sig);
        TerminateKeeps(Consume(k, sig), Cur(k).value.groupSlot, sig);
      }
    }
  }

  /** Inside a handler nothing but the thread's own sigreturn touches what it will return to. */
  lemma {:induction false} HandlerKept(ks: seq<Kernel>, cs: seq<Call>, first: nat, last: nat, t: nat, g: nat, saved: SigSet)
    requires Trace(ks, cs) && first <= last <= |cs| && InHandler(ks[first], t, g, saved)
    requires forall i :: first <= i < last ==> !Touches(ks[i], cs[i], t)
    ensures InHandler(ks[last], t, g, saved)
    decreases last
  {
    if first < last {
      HandlerKept(ks, cs, first, last - 1, t, g, saved);
      NeverKill(ks, cs, last - 1);
      ApplyKeepsHandler(ks[last - 1], cs[last - 1], t, g, saved);
    }
  }

  /**
   The round trip: a system call ends by entering a handler; then anything happens, by any
   threads, except that the saved frame stays as it is; then the handler returns through the
   restorer, which calls sigreturn.  Every register is as it was when the signal arrived, rax
   included, and so is the mask.
   */
  lemma RoundTrip(ks: seq<Kernel>, cs: seq<Call>, ret: u64)
    requires Trace(ks, cs) && |cs| >= 2 && cs[0] == FinishCall(ret) && Entered(ks[0], ks[1])
    requires var n, t := |cs| - 1, ks[0].current;
             && cs[n] == SigReturnCall && ks[n].current == t
             && (forall i :: 1 <= i < n ==> !Touches(ks[i], cs[i], t))
             && ks[n].frames[t].r10 == ks[1].frames[t].r10 + 8
             && var g := Cur(ks[0]).value.groupSlot;
             ReadMem(ks[n].mems[g], ks[n].frames[t].r10, FRAME_BYTES) == ReadMem(ks[1].mems[g], ks[n].frames[t].r10, FRAME_BYTES)
    ensures var k, k', t := ks[0], ks[|cs|], ks[0].current;
            && Shape(k') && k'.threads[t].Some?
            && k'.frames[t] == k.frames[t].(rax := ret)
            && k'.threads[t].value.mask == k.threads[t].value.mask
            && !k'.threads[t].value.inHandler && !k'.threads[t].value.onAlt
  {
    hide Deliver, Contains, NoKill, ReadMem, EncodeWords, Regs, FromRegs, DecodeWords;
    var n, t := |cs| - 1, ks[0].current;
    var f := ks[0].frames[t].(rax := ret);
    var k0 := ks[0].(frames := ks[0].frames[t := f]);
    FrameGood(ks[0], f);
    DeliverSaves(k0);
    var g, saved := Cur(ks[0]).value.groupSlot, ks[0].threads[t].value.mask;
    HandlerKept(ks, cs, 1, n, t, g, saved);
    NeverKill(ks, cs, n + 1);
    RegCount(f);
    WordsRoundTrip(Regs(f));
  }

  // ----- When a handler is entered -----

  /** Every handler comes with a restorer. */
  ghost predicate Restorable(k: Kernel) {
    forall i, sig :: 0 <= i < |k.procs| && k.procs[i].Some? && 0 <= sig < |k.procs[i].value.handlers| ==>
      k.procs[i].value.handlers[sig].handler != 0 ==> k.procs[i].value.handlers[sig].restorer != 0
  }

  /** `procs'` has no handler that `procs` does not have. */
  ghost predicate SameActions(procs: seq<Option<Process>>, procs': seq<Option<Process>>) {
    |procs'| == |procs| && forall i :: 0 <= i < |procs| && procs'[i].Some? ==> procs[i].Some? && procs'[i].value.handlers == procs[i].value.handlers
  }

  lemma ActionsKept(k: Kernel, k': Kernel)
    requires Restorable(k) && SameActions(k.procs, k'.procs)
    ensures Restorable(k')
  {
  }

  lemma NotifyActions(procs: seq<Option<Process>>, parentPid: nat)
    ensures SameActions(procs, Notify(procs, parentPid))
  {
    hide Add;
  }

  lemma TerminateActions(k: Kernel, g: nat, sig: nat)
    requires Shape(k) && g < TABLE
    ensures SameActions(k.procs, Terminate(k, g, sig).procs)
  {
    hide Notify;
    var parent := if k.procs[g].Some? then k.procs[g].value.parentPid else 0;
    var procs := if k.procs[g].Some?
                 then k.procs[g := Some(k.procs[g].value.(zombie := true, exitCode := 128 + sig, threadCount := 0))] else k.procs;
    NotifyActions(procs, parent);
  }

  lemma DeliverActions(k: Kernel)
    requires Shape(k)
    ensures SameActions(k.procs, Deliver(k).procs)
  {
    hide Contains, Remove, Terminate, Chosen, EncodeWords, Regs, WriteMem, HandlerMask, StackTop;
    if CurProc(k).Some? && !Cur(k).value.inHandler && Chosen(Cur(k).value, CurProc(k).value).Some? {
      var sig := Chosen(Cur(k).value, CurProc(k).value).value;
      if 1 <= sig <= 64 { TerminateActions(Consume(k, sig), Cur(k).value.groupSlot, sig); }
    }
  }

  lemma ApplyRestorable(k: Kernel, c: Call)
    requires Shape(k) && Restorable(k)
    ensures Restorable(Apply(k, c))
  {
    hide Contains, Add, Remove, Union, Minus, Deliver, Terminate, Notify, DecodeWords, ReadMem, NewMask;
    match c
    case FinishCall(ret) =>
      var k1 := k.(frames := k.frames[k.current := k.frames[k.current].(rax := ret)]);
      DeliverActions(k1);
      ActionsKept(k1, Deliver(k1));
    case KillCall(pid, sig) =>
      var f := FindPid(k.procs, pid, 0);
      if f.Some? {
        TerminateActions(k, f.value, SIGKILL);
        ActionsKept(k, Apply(k, c));
      }
    case TkillCall(tid, sig) =>
      var f := FindTid(k.threads, tid, 0);
      if f.Some? {
        TerminateActions(k, k.threads[f.value].value.groupSlot, SIGKILL);
        ActionsKept(k, Apply(k, c));
      }
    case ChildExit(ppid) =>
      NotifyActions(k.procs, ppid);
      ActionsKept(k, Apply(k, c));
    case _ =>
  }

  /** Over every run a handler without restorer is never installed. */
  lemma {:induction false} AlwaysRestorable(ks: seq<Kernel>, cs: seq<Call>, n: nat)
    requires Trace(ks, cs) && Restorable(ks[0]) && n <= |cs|
    ensures Restorable(ks[n])
    decreases n
  {
    hide Apply, Good, Restorable;
    if n > 0 {
      AlwaysRestorable(ks, cs, n - 1);
      ApplyRestorable(ks[n - 1], cs[n - 1]);
    }
  }

  /**
   A signal with a handler reaches it if and only if its stack has room for the frame; otherwise
   its pending bit is gone and nothing else has changed but the alternate-stack flag.
   */
  lemma DeliverEnters(k: Kernel, sig: nat)
    requires Shape(k) && Restorable(k) && CurProc(k).Some? && !Cur(k).value.inHandler
    requires IsLowest(Cur(k).value, CurProc(k).value, sig) && CurProc(k).value.handlers[sig].handler != 0
    ensures var act, f := CurProc(k).value.handlers[sig], k.frames[k.current];
            && (Entered(k, Deliver(k)) <==> HasRoom(Cur(k).value, act, f))
            && (!HasRoom(Cur(k).value, act, f) ==>
                  var k1 := Consume(k, sig);
                  && Cur(k1).Some?
                  && Deliver(k) == if StackEnd(Cur(k).value, act, f) >= U64 then k1
                                   else WithThread(k1, Cur(k1).value.(onAlt := UsesAlt(Cur(k).value, act))))
  {
    hide Contains, Remove, HandlerMask, EncodeWords, Regs, WriteMem, IsLowest;
    LowestRange(Cur(k).value, CurProc(k).value, sig);
    ChosenIs(Cur(k).value, CurProc(k).value, sig);
    assert CurProc(k).value.handlers[sig].restorer != 0;
    EnterSaves(Consume(k, sig), sig, CurProc(k).value.handlers[sig]);
  }

  const ZERO_FRAME := SyscallFrame(0, 0, 0, 0, 0, 0, 0, 0, 0, 0, 0, 0, 0, 0, 0)

  /** Empty tables. */
  function Boot(mem: Flat): (k: Kernel)
    ensures Good(k) && Restorable(k)
  {
    Kernel(seq(TABLE, _ => None), seq(TABLE, _ => None), seq(TABLE, _ => ZERO_FRAME), [mem, mem, mem, mem, mem, mem, mem, mem], 0)
  }

  /** A process installs a handler for signal 10 and is sent it while its stack pointer is 0. */
  ghost function LostCalls(mem: Flat): seq<Call> {
    [SpawnCall(0, 1, 0, mem), ActionCall(10, SigAction(0x1000, false, 0x2000, EmptySet())), KillCall(1, 10), FinishCall(0)]
  }

  /** The signal is deliverable and has a handler, and after the next system call it is gone and was not handled. */
  lemma LostSignal(mem: Flat) returns (ks: seq<Kernel>)
    ensures Trace(ks, LostCalls(mem)) && ks[0] == Boot(mem) && Shape(ks[3]) && Shape(ks[4])
    ensures CurProc(ks[3]).Some? && Deliverable(Cur(ks[3]).value, CurProc(ks[3]).value, 10) && CurProc(ks[3]).value.handlers[10].handler != 0
    ensures CurProc(ks[4]).Some? && !Deliverable(Cur(ks[4]).value, CurProc(ks[4]).value, 10) && !Cur(ks[4]).value.inHandler
  {
    hide Contains, Add, Remove, Deliver, Good, Restorable;
    var cs := LostCalls(mem);
    var k0 := Boot(mem);
    ShapeOfGood(k0);
    var k1 := Apply(k0, cs[0]);
    assert k1.threads[0] == Some(NewMember(1, 0, EmptySet()));
    var k2 := Apply(k1, cs[1]);
    assert FindPid(k2.procs, 1, 0) == Some(0);
    var k3 := Apply(k2, cs[2]);
    OnlyTen(Cur(k3).value, CurProc(k3).value);
    var k := k3.(frames := k3.frames[0 := k3.frames[0].(rax := 0)]);
    LostAt(k);
    ks := [k0, k1, k2, k3, Apply(k3, cs[3])];
  }

  /** Delivery of a signal that only the process has pending, on a stack pointer of 0. */
  lemma LostAt(k: Kernel)
    requires Shape(k) && CurProc(k).Some? && !Cur(k).value.inHandler && k.frames[k.current].r10 == 0
    requires IsLowest(Cur(k).value, CurProc(k).value, 10) && !Contains(Cur(k).value.pending, 10)
    requires CurProc(k).value.handlers[10] == SigAction(0x1000, false, 0x2000, EmptySet())
    ensures Shape(Deliver(k)) && CurProc(Deliver(k)).Some? && !Cur(Deliver(k)).value.inHandler
    ensures !Deliverable(Cur(Deliver(k)).value, CurProc(Deliver(k)).value, 10)
  {
    hide Contains, Remove, HandlerMask, EncodeWords, Regs, WriteMem, IsLowest;
    LowestRange(Cur(k).value, CurProc(k).value, 10);
    ChosenIs(Cur(k).value, CurProc(k).value, 10);
    DeliverTakesOne(k, 10);
  }

  /** Signal 10 is the only one pending. */
  lemma OnlyTen(t: Thread, p: Process)
    requires t.pending == EmptySet() && t.mask == EmptySet() && p.pending == Add(EmptySet(), 10)
    ensures IsLowest(t, p, 10) && !Contains(t.pending, 10)
  {
    hide Contains, Add;
    forall s: nat | 1 <= s <= 10
      ensures Deliverable(t, p, s) <==> s == 10
    {
      EmptyMeaning(s);
      AddMeaning(EmptySet(), 10, s);
    }
  }

  // ----- The kernel's tables -----

  class SignalTables {
    var threads: seq<Option<Thread>>
    var procs: seq<Option<Process>>
    var frames: seq<SyscallFrame>
    var mems: seq<Flat>
    var current: nat

    ghost function Now(): Kernel
      reads this
    {
      Kernel(threads, procs, frames, mems, current)
    }

    method FindSlotByPid(pid: nat) returns (slot: Option<nat>)
      ensures slot == FindPid(procs, pid, 0)
    {
      var i := 0;
      while i < |procs|
        invariant i <= |procs| && FindPid(procs, pid, 0) == FindPid(procs, pid, i)
      {
        if procs[i].Some? && procs[i].value.pid == pid { return Some(i); }
        i := i + 1;
      }
      return None;
    }

    method FindThreadByTid(tid: nat) returns (slot: Option<nat>)
      ensures slot == FindTid(threads, tid, 0)
    {
      var i := 0;
      while i < |threads|
        invariant i <= |threads| && FindTid(threads, tid, 0) == FindTid(threads, tid, i)
      {
        if threads[i].Some? && threads[i].value.tid == tid { return Some(i); }
        i := i + 1;
      }
      return None;
    }

    method NotifyParentExit(parentPid: nat)
      modifies this`procs
      ensures procs == Notify(old(procs), parentPid)
    {
      if parentPid == 0 { return; }
      var slot := FindSlotByPid(parentPid);
      if slot.Some? { procs := Queue(procs, slot.value, SIGCHLD); }
    }

    /** terminate_process_group: the process and all its threads become zombies. */
    method TerminateGroup(g: nat, sig: nat)
      requires Shape(Now()) && g < TABLE
      modifies this`procs, this`threads
      ensures Now() == Terminate(old(Now()), g, sig)
    {
      var parent := if procs[g].Some? then procs[g].value.parentPid else 0;
      if procs[g].Some? {
        procs := procs[g := Some(procs[g].value.(zombie := true, exitCode := 128 + sig, threadCount := 0))];
      }
      ghost var dead := procs;
      for i := 0 to TABLE
        invariant |threads| == TABLE && procs == dead
        invariant forall j :: 0 <= j < i ==> threads[j] == Buried(old(threads)[j], g)
        invariant forall j :: i <= j < TABLE ==> threads[j] == old(threads)[j]
      {
        if threads[i].Some? && threads[i].value.groupSlot == g {
          threads := threads[i := Some(threads[i].value.(zombie := true))];
        }
      }
      assert threads == BuryGroup(old(threads), g);
      NotifyParentExit(parent);
    }

    /** The search of deliver_pending_signal; `own` says the thread's own bit was found first. */
    method ChooseSignal(t: Thread, p: Process) returns (sig: Option<nat>, own: bool)
      ensures sig == Chosen(t, p)
      ensures sig.Some? ==> IsLowest(t, p, sig.value) && own == Contains(t.pending, sig.value)
    {
      hide Contains;
      for s := 1 to 65
        invariant forall r: nat :: r < s ==> !Deliverable(t, p, r)
      {
        if Contains(t.pending, s) && !Contains(t.mask, s) {
          ChosenIs(t, p, s);
          return Some(s), true;
        }
        if Contains(p.pending, s) && !Contains(t.mask, s) {
          ChosenIs(t, p, s);
          return Some(s), false;
        }
      }
      return None, false;
    }

    /** Writes the signal frame and redirects the thread to its handler. */
    method EnterHandler(sig: nat, act: SigAction)
      requires Shape(Now()) && threads[current].Some? && 1 <= sig <= 64
      modifies this
      ensures Now() == Enter(old(Now()), sig, act)
    {
      hide Contains, Remove, Union, Add, EncodeWords, WriteMem, Regs, LE.ToLe;
      var t, f := threads[current].value, frames[current];
      var userRsp: nat := f.r10;
      if act.onStack && !t.altDisabled {
        userRsp := t.altSp + t.altSize;
        if userRsp >= U64 { return; }
        threads := threads[current := Some(t.(onAlt := true))];
      } else {
        threads := threads[current := Some(t.(onAlt := false))];
      }
      if userRsp < 8 + FRAME_BYTES { return; }
      var a := userRsp - (8 + FRAME_BYTES);
      if !UserRange(a, 8 + FRAME_BYTES) { return; }
      var g := t.groupSlot;
      var mem := WriteMem(mems[g], a, LE.ToLe(act.restorer, 8));
      mem := WriteMem(mem, a + 8, EncodeWords(Regs(f)));
      mems := mems[g := mem];
      var combined := Remove(Union(Add(t.mask, sig), act.mask), SIGKILL);
      threads := threads[current := Some(t.(onAlt := act.onStack && !t.altDisabled, savedMask := t.mask, mask := combined, inHandler := true))];
      frames := frames[current := f.(rdi := sig, rcx := act.handler, r10 := a)];
    }

    method DeliverPendingSignal()
      requires Shape(Now())
      modifies this
      ensures Now() == Deliver(old(Now()))
    {
      hide Contains, Remove, Enter, Terminate, IsLowest;
      ghost var k := Now();
      if threads[current].None? || procs[threads[current].value.groupSlot].None? { return; }
      var t := threads[current].value;
      var g := t.groupSlot;
      var p := procs[g].value;
      if t.inHandler { return; }
      var sig, own := ChooseSignal(t, p);
      if sig.None? { return; }
      var s := sig.value;
      LowestRange(t, p, s);
      if own {
        threads := threads[current := Some(t.(pending := Remove(t.pending, s)))];
      } else {
        procs := procs[g := Some(p.(pending := Remove(p.pending, s)))];
      }
      assert Now() == Consume(k, s);
      var act := p.handlers[s];
      if act.handler == 0 {
        if s == SIGCHLD { return; }
        TerminateGroup(g, s);
        return;
      }
      if act.restorer == 0 { return; }
      EnterHandler(s, act);
    }

    /** finish_syscall for any call but sigreturn. */
    method FinishSyscall(ret: u64) returns (rax: u64)
      requires Shape(Now())
      modifies this
      ensures Now() == Finish(old(Now()), ret)
      ensures |frames| == TABLE && current < TABLE && rax == frames[current].rax
    {
      hide Deliver, Contains;
      frames := frames[current := frames[current].(rax := ret)];
      DeliverShape(Now());
      DeliverPendingSignal();
      rax := frames[current].rax;
    }

    /** rt_sigreturn with its finish_syscall. */
    method RtSigreturn() returns (rax: u64)
      requires Shape(Now())
      modifies this
      ensures Now() == SigReturn(old(Now()))
      ensures |frames| == TABLE && current < TABLE && rax == frames[current].rax
    {
      hide ReadMem, DecodeWords, FromRegs, Contains;
      var f := frames[current];
      rax := Errno(14);
      if UserRange(f.r10, FRAME_BYTES) {
        var space := if threads[current].Some? then threads[current].value.groupSlot else current;
        var saved := FromRegs(DecodeWords(ReadMem(mems[space], f.r10, FRAME_BYTES), 15));
        frames := frames[current := saved];
        if threads[current].Some? {
          var t := threads[current].value;
          threads := threads[current := Some(t.(mask := t.savedMask, inHandler := false, onAlt := false))];
          rax := saved.rax;
        } else {
          rax := Errno(22);
        }
      }
      frames := frames[current := frames[current].(rax := rax)];
    }

    method RtSigprocmask(how: Option<How>, given: Option<SigSet>) returns (ok: bool)
      requires Shape(Now())
      modifies this`threads
      ensures Now() == ProcMask(old(Now()), how, given)
      ensures ok == (how.Some? && threads[current].Some?)
    {
      hide Contains, Remove, Union, Minus;
      if how.None? || threads[current].None? { return false; }
      if given.Some? {
        var t := threads[current].value;
        var clean := Remove(given.value, SIGKILL);
        var mask := match how.value
          case Block => Union(t.mask, clean)
          case Unblock => Minus(t.mask, clean)
          case SetMask => clean;
        threads := threads[current := Some(t.(mask := Remove(mask, SIGKILL)))];
      }
      return true;
    }

    method KillProcess(pid: nat, sig: nat) returns (ok: bool)
      requires Shape(Now())
      modifies this`procs, this`threads
      ensures Now() == Kill(old(Now()), pid, sig)
      ensures ok == (FindPid(old(procs), pid, 0).Some? && sig < 65)
    {
      hide Contains, Terminate;
      var slot := FindSlotByPid(pid);
      if slot.None? { return false; }
      if sig == 0 { return true; }
      if sig >= 65 { return false; }
      if sig == SIGKILL {
        TerminateGroup(slot.value, SIGKILL);
        return true;
      }
      procs := Queue(procs, slot.value, sig);
      return true;
    }

    method KillThread(tid: nat, sig: nat) returns (ok: bool)
      requires Shape(Now())
      modifies this`procs, this`threads
      ensures Now() == Tkill(old(Now()), tid, sig)
      ensures ok == (tid != 0 && sig < 65 && FindTid(old(threads), tid, 0).Some?)
    {
      hide Contains, Terminate, Add;
      if tid == 0 || sig >= 65 { return false; }
      var slot := FindThreadByTid(tid);
      if slot.None? { return false; }
      if sig == 0 { return true; }
      var t := threads[slot.value].value;
      if sig == SIGKILL {
        TerminateGroup(t.groupSlot, SIGKILL);
        return true;
      }
      threads := threads[slot.value := Some(t.(pending := Add(t.pending, sig)))];
      return true;
    }
  }

  lemma LowestRange(t: Thread, p: Process, sig: nat)
    requires IsLowest(t, p, sig)
    ensures 1 <= sig <= 64
  {
  }

  lemma DeliverShape(k: Kernel)
    requires Shape(k)
    ensures |Deliver(k).frames| == TABLE && Deliver(k).current < TABLE
  {
    hide Contains, Remove, EncodeWords, WriteMem, Chosen;
  }
}

/**
 What lies on a kernel stack: the context switch (kernel/src/proc/scheduler.rs), the system call
 entry (kernel/src/syscall/mod.rs) and the stacks that spawning prepares (kernel/src/proc/task.rs).
 A stack is the words in use, the one at the stack pointer first.
 */
module KernelStacks {
  const STACK_WORDS: nat := 2048
  const FRAME_WORDS: nat := 16

  datatype Reg = Rax | Rbx | Rcx | Rdx | Rsi | Rdi | Rbp | R8 | R9 | R10 | R11 | R12 | R13 | R14 | R15

  type Regs = map<Reg, nat>

  type Stack = seq<nat>

  /** A program in user mode. */
  datatype User = User(regs: Regs, rip: nat, rsp: nat, rflags: nat)

  /** Where the two trampolines are. */
  datatype Code = Code(user: nat, fork: nat)

  /** Where a task is after a switch to it: in kernel code, or in user mode by iretq or sysretq. */
  datatype Landing = InKernel(rip: nat, stack: Stack) | Enters(rip: nat, rsp: nat, pml4: nat) | Returns(user: User)

  const SWITCH_PUSHES: seq<Reg> := [Rbp, Rbx, R12, R13, R14, R15]
  const SWITCH_POPS: seq<Reg> := [R15, R14, R13, R12, Rbx, Rbp]
  const SYSCALL_PUSHES: seq<Reg> := [R10, R10, R11, Rcx, Rax, Rbx, Rdx, Rdi, Rsi, R8, R9, R12, R13, R14, R15, Rbp]
  const SYSCALL_POPS: seq<Reg> := [Rbp, R15, R14, R13, R12, R9, R8, Rsi, Rdi, Rdx, Rbx, Rax, Rcx, R11, R10]

  ghost predicate Full(regs: Regs) { forall r: Reg :: r in regs }

  ghost predicate Distinct(order: seq<Reg>) {
    forall i, j :: 0 <= i < j < |order| ==> order[i] != order[j]
  }

  function PushAll(s: Stack, regs: Regs, order: seq<Reg>): Stack
    requires Full(regs)
    decreases |order|
  {
    if order == [] then s else PushAll([regs[order[0]]] + s, regs, order[1..])
  }

  function PopAll(s: Stack, regs: Regs, order: seq<Reg>): Regs
    requires |order| <= |s|
    decreases |order|
  {
    if order == [] then regs else PopAll(s[1..], regs[order[0] := s[0]], order[1..])
  }

  /** The registers pushed lie before what was there, the last one first. */
  lemma {:induction false} Pushed(s: Stack, regs: Regs, order: seq<Reg>)
    requires Full(regs)
    ensures var t := PushAll(s, regs, order);
            && |t| == |order| + |s| && t[|order|..] == s
            && forall i :: 0 <= i < |order| ==> t[i] == regs[order[|order| - 1 - i]]
    decreases |order|
  {
    if order != [] {
      var rest := order[1..];
      Pushed([regs[order[0]]] + s, regs, rest);
      var t := PushAll(s, regs, order);
      assert t[|order| - 1] == t[|rest|..][0] && t[|order|..] == t[|rest|..][1..];
    }
  }

  /** Each register named takes the word at its place, and no other register changes. */
  lemma {:induction false} Popped(s: Stack, regs: Regs, order: seq<Reg>)
    requires |order| <= |s| && Distinct(order)
    ensures var to := PopAll(s, regs, order);
            && (forall i :: 0 <= i < |order| ==> order[i] in to && to[order[i]] == s[i])
            && (forall r: Reg :: r !in order ==> (r in to <==> r in regs) && (r in to ==> to[r] == regs[r]))
    decreases |order|
  {
    if order != [] {
      var rest, regs1 := order[1..], regs[order[0] := s[0]];
      Popped(s[1..], regs1, rest);
      var to := PopAll(s[1..], regs1, rest);
      assert order[0] !in rest;
      forall i | 0 <= i < |order|
        ensures order[i] in to && to[order[i]] == s[i]
      {
        if i > 0 { assert order[i] == rest[i - 1] && s[1..][i - 1] == s[i]; }
      }
      assert forall r: Reg :: r !in order ==> r !in rest && r != order[0];
    }
  }

  // ----- The context switch -----

  /** The first half of switch_to: the registers it saves. */
  function Suspend(s: Stack, regs: Regs): Stack
    requires Full(regs)
  {
    PushAll(s, regs, SWITCH_PUSHES)
  }

  /** The second half of switch_to: registers, return address and stack. */
  function Resume(s: Stack, regs: Regs): (Regs, nat, Stack)
    requires 7 <= |s|
  {
    (PopAll(s, regs, SWITCH_POPS), s[6], s[7..])
  }

  /** The registers a callee must preserve. */
  predicate CalleeSaved(r: Reg) { r in {Rbx, Rbp, R12, R13, R14, R15} }

  /**
   A stack that was switched away from and is switched to again: the task returns to its caller with
   its stack and the registers a callee must preserve, whatever was left in the registers in between.
   */
  lemma SwitchRoundTrip(s: Stack, regs: Regs, junk: Regs)
    requires s != [] && Full(regs)
    ensures var t := Suspend(s, regs);
            && |t| == |s| + 6
            && var (to, rip, rest) := Resume(t, junk);
               rip == s[0] && rest == s[1..] && forall r: Reg :: CalleeSaved(r) ==> r in to && to[r] == regs[r]
  {
    hide PushAll, PopAll, Distinct;
    PopsDistinct();
    Pushed(s, regs, SWITCH_PUSHES);
    var t := Suspend(s, regs);
    Popped(t, junk, SWITCH_POPS);
    assert t[6] == t[6..][0] && t[7..] == t[6..][1..];
    assert SWITCH_POPS[0] == R15 && SWITCH_POPS[1] == R14 && SWITCH_POPS[2] == R13;
    assert SWITCH_POPS[3] == R12 && SWITCH_POPS[4] == Rbx && SWITCH_POPS[5] == Rbp;
  }

  // ----- System calls -----

  /** syscall_entry: the instruction puts rip and rflags in rcx and r11; the user's rsp goes through r10. */
  function EnterKernel(u: User): Stack
    requires Full(u.regs)
  {
    PushAll([], u.regs[Rcx := u.rip][R11 := u.rflags][R10 := u.rsp], SYSCALL_PUSHES)
  }

  /** Which of the pops fills a register. */
  function Place(r: Reg): (i: nat)
    ensures i < 15
  {
    match r
    case Rbp => 0 case R15 => 1 case R14 => 2 case R13 => 3 case R12 => 4 case R9 => 5 case R8 => 6 case Rsi => 7
    case Rdi => 8 case Rdx => 9 case Rbx => 10 case Rax => 11 case Rcx => 12 case R11 => 13 case R10 => 14
  }

  ghost predicate Filled(s: Stack, regs: Regs)
    requires FRAME_WORDS <= |s|
  {
    forall r: Reg :: r in regs && regs[r] == s[Place(r)]
  }

  lemma PopsDistinct()
    ensures Distinct(SYSCALL_POPS) && Distinct(SWITCH_POPS)
  {
    assert forall i :: 0 <= i < |SYSCALL_POPS| ==> Place(SYSCALL_POPS[i]) == i;
  }

  lemma PlaceOf(r: Reg)
    ensures SYSCALL_POPS[Place(r)] == r
  {
  }

  lemma EachPopped(s: Stack, regs: Regs)
    requires FRAME_WORDS <= |s|
    ensures Filled(s, PopAll(s, regs, SYSCALL_POPS))
  {
    hide PopAll, Distinct, Place;
    PopsDistinct();
    Popped(s, regs, SYSCALL_POPS);
    var to := PopAll(s, regs, SYSCALL_POPS);
    forall r: Reg
      ensures r in to && to[r] == s[Place(r)]
    {
      PlaceOf(r);
    }
  }

  /** The 15 pops, the padding and sysretq. */
  function ReturnToUser(s: Stack, regs: Regs): User
    requires FRAME_WORDS <= |s|
  {
    EachPopped(s, regs);
    var to := PopAll(s, regs, SYSCALL_POPS);
    User(to, to[Rcx], to[R10], to[R11])
  }

  /** The frame struct, field by field, for a user with `rax` and `rsp`. */
  ghost predicate FrameOf(s: Stack, u: User, rax: nat, rsp: nat)
    requires Full(u.regs)
  {
    && FRAME_WORDS <= |s|
    && s[0] == u.regs[Rbp] && s[1] == u.regs[R15] && s[2] == u.regs[R14] && s[3] == u.regs[R13] && s[4] == u.regs[R12]
    && s[5] == u.regs[R9] && s[6] == u.regs[R8] && s[7] == u.regs[Rsi] && s[8] == u.regs[Rdi] && s[9] == u.regs[Rdx]
    && s[10] == u.regs[Rbx] && s[11] == rax && s[12] == u.rip && s[13] == u.rflags && s[14] == rsp
  }

  /** The program goes on after its system call: only rax and the three registers the entry uses differ. */
  ghost predicate GoesOn(u: User, rax: nat, rsp: nat, u': User) {
    && Full(u.regs) && Full(u'.regs)
    && u'.rip == u.rip && u'.rflags == u.rflags && u'.rsp == rsp && u'.regs[Rax] == rax
    && forall r: Reg :: r !in {Rax, Rcx, R11, R10} ==> u'.regs[r] == u.regs[r]
  }

  /** The pushes of the entry make the frame struct. */
  lemma EntryPushesFrame(u: User)
    requires Full(u.regs)
    ensures |EnterKernel(u)| == FRAME_WORDS && FrameOf(EnterKernel(u), u, u.regs[Rax], u.rsp)
  {
    hide PushAll;
    Pushed([], u.regs[Rcx := u.rip][R11 := u.rflags][R10 := u.rsp], SYSCALL_PUSHES);
  }

  /** A return through the frame struct goes on where the user was. */
  lemma FrameReturns(s: Stack, junk: Regs, u: User, rax: nat, rsp: nat)
    requires Full(u.regs) && FrameOf(s, u, rax, rsp)
    ensures GoesOn(u, rax, rsp, ReturnToUser(s, junk))
  {
    hide PopAll;
    EachPopped(s, junk);
  }

  /** A system call whose handler leaves the frame alone: the program goes on with the result in rax. */
  lemma SyscallRoundTrip(u: User, result: nat, junk: Regs)
    requires Full(u.regs)
    ensures var s := EnterKernel(u);
            |s| == FRAME_WORDS && GoesOn(u, result, u.rsp, ReturnToUser(s[11 := result], junk))
  {
    hide PushAll, PopAll, ReturnToUser, GoesOn, EnterKernel;
    EntryPushesFrame(u);
    FrameReturns(EnterKernel(u)[11 := result], junk, u, result, u.rsp);
  }

  // ----- The stacks of new tasks -----

  /** A switch to a task: switch_to, and the trampoline it may return to. */
  function Land(code: Code, s: Stack, regs: Regs): Landing
    requires 7 <= |s|
  {
    var (to, rip, t) := Resume(s, regs);
    if rip == code.user && 3 <= |t| then Enters(t[0], t[1], t[2])
    else if rip == code.fork && FRAME_WORDS <= |t| then Returns(ReturnToUser(t, to))
    else InKernel(rip, t)
  }

  /** After a switch to this stack, a child goes on where the user was, with 0 in rax. */
  ghost predicate ForkOf(code: Code, s: Stack, u: User, rsp: nat) {
    && 7 <= |s|
    && forall junk: Regs :: Land(code, s, junk).Returns? && GoesOn(u, 0, rsp, Land(code, s, junk).user)
  }

  lemma ForkedFrame(code: Code, s: Stack, u: User, rsp: nat)
    requires code.user != code.fork && 7 <= |s| && s[6] == code.fork && Full(u.regs) && FrameOf(s[7..], u, 0, rsp)
    ensures ForkOf(code, s, u, rsp)
  {
    hide PopAll, ReturnToUser, GoesOn;
    forall junk: Regs
      ensures Land(code, s, junk).Returns? && GoesOn(u, 0, rsp, Land(code, s, junk).user)
    {
      FrameReturns(s[7..], PopAll(s, junk, SWITCH_POPS), u, 0, rsp);
    }
  }

  /** The end of all three spawn routines: a return address, and registers of zero below it. */
  method PushContext(stack: array<nat>, sp: nat, rip: nat) returns (top: nat)
    requires stack.Length == STACK_WORDS && 7 <= sp <= STACK_WORDS
    modifies stack
    ensures top == sp - 7 && stack[top..] == [0, 0, 0, 0, 0, 0, rip] + old(stack[sp..])
  {
    top := sp - 1;
    stack[top] := rip;
    for k := 0 to 6
      invariant top == sp - 1 - k && stack[sp - 1] == rip && stack[sp..] == old(stack[sp..])
      invariant forall i :: top <= i < sp - 1 ==> stack[i] == 0
    {
      top := top - 1;
      stack[top] := 0;
    }
    assert stack[top..sp] == [0, 0, 0, 0, 0, 0, rip] && stack[top..] == stack[top..sp] + stack[sp..];
  }

  /** The stack of spawn_user_task: a switch to it enters user mode at `entry` with the given stack and tables. */
  method UserStack(stack: array<nat>, code: Code, entry: nat, userTop: nat, pml4: nat) returns (sp: nat)
    requires stack.Length == STACK_WORDS
    modifies stack
    ensures sp == STACK_WORDS - 10
    ensures forall junk: Regs :: Land(code, stack[sp..], junk) == Enters(entry, userTop, pml4)
  {
    sp := STACK_WORDS;
    sp := sp - 1;
    stack[sp] := pml4;
    sp := sp - 1;
    stack[sp] := userTop;
    sp := sp - 1;
    stack[sp] := entry;
    sp := PushContext(stack, sp, code.user);
  }

  /** The stack of add_task: a switch to it goes to `entry` in the kernel, with an empty stack. */
  method KernelTaskStack(stack: array<nat>, code: Code, entry: nat) returns (sp: nat)
    requires stack.Length == STACK_WORDS && entry != code.user && entry != code.fork
    modifies stack
    ensures sp == STACK_WORDS - 7
    ensures forall junk: Regs :: Land(code, stack[sp..], junk) == InKernel(entry, [])
  {
    sp := PushContext(stack, STACK_WORDS, entry);
  }

  /**
   The stack of spawn_forked_task, from the parent's frame: the child returns from the system call
   the parent made, with the same registers, and 0 in rax.
   */
  method ForkStack(stack: array<nat>, code: Code, frame: seq<nat>, ghost u: User) returns (sp: nat)
    requires stack.Length == STACK_WORDS && code.user != code.fork && Full(u.regs)
    requires |frame| == FRAME_WORDS && FrameOf(frame, u, u.regs[Rax], u.rsp)
    modifies stack
    ensures sp == STACK_WORDS - 23 && ForkOf(code, stack[sp..], u, u.rsp)
    ensures stack[sp + 6] == code.fork && FrameOf(stack[sp + 7..], u, 0, u.rsp)
  {
    hide ForkOf;
    var start := STACK_WORDS - FRAME_WORDS;
    for i := 0 to FRAME_WORDS
      invariant stack[start..start + i] == frame[..i]
    {
      stack[start + i] := frame[i];
    }
    stack[start + 11] := 0;
    assert stack[start..] == frame[11 := 0];
    sp := PushContext(stack, start, code.fork);
    assert stack[sp..][7..] == stack[sp + 7..] == frame[11 := 0];
    ForkedFrame(code, stack[sp..], u, u.rsp);
  }

  /** clone with a stack of its own: task_frame_mut finds the child's frame, and its r10 is the new stack. */
  method SetChildStack(stack: array<nat>, code: Code, sp: nat, childStack: nat, ghost u: User)
    requires stack.Length == STACK_WORDS && code.user != code.fork && Full(u.regs) && sp == STACK_WORDS - 23
    requires stack[sp + 6] == code.fork && FrameOf(stack[sp + 7..], u, 0, u.rsp)
    modifies stack
    ensures ForkOf(code, stack[sp..], u, childStack)
  {
    hide ForkOf;
    ghost var was := stack[sp + 7..];
    var frame := sp + 7;
    stack[frame + 14] := childStack;
    assert stack[sp..][7..] == was[14 := childStack];
    ForkedFrame(code, stack[sp..], u, childStack);
  }
}

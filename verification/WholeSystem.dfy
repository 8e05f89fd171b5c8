/**
 The whole kernel: the scheduler and the address spaces in one machine. Only the current process takes
 a step, and its memory is reached through the table in satp.
 */
module WholeSystem {
  import opened Base
  import opened Sv39
  import PhysMem
  import opened FrameBytes
  import opened TableCount
  import opened AddressSpace
  import opened KernelHeap
  import opened ElfLoad
  import opened UserRead
  import opened Sched
  import opened SchedRuns
  import Bypass
  import opened UserStack
  import opened Exec
  import UserStore
  import Spaces

  const BRK: Word := 214
  const MMAP: Word := 222

  /** What happens next: a store of the current process, a call of it with the registers at that point, or a
      write of the kernel to its heap in the course of a call. The file that execve finds under its path, the
      bytes that mmap reads and the result of a call that concerns neither memory nor the process table come
      with the call. */
  datatype Act =
    | Stores(va: Word, data: seq<Byte>)
    | Calls(tf: TrapFrame, file: File, bytes: seq<Byte>, value: Word)
    | Keeps(at: nat, data: seq<Byte>)

  predicate HasBit(w: Word, bit: nat)
    requires bit > 0
  {
    w / bit % 2 == 1
  }

  /** The string starts with PATH=. */
  predicate IsPath(s: Str) {
    |s| >= 5 && s[..5] == [0x50, 0x41, 0x54, 0x48, 0x3d]
  }

  /** `sys_execve` adds a PATH to an environment without one. */
  function WithPath(envp: seq<Str>): seq<Str> {
    if exists s | s in envp :: IsPath(s) then envp else envp + Spaces.FIRST_ENVP
  }

  /** The argument lists that `sys_execve` reads from the caller's memory. */
  function ArgvOf(k: Kernel, m: Memory, tf: TrapFrame): seq<Str> {
    VectorFrom(ViewOf(m, k.satp), tf.regs[11], 0, [])
  }

  function EnvpOf(k: Kernel, m: Memory, tf: TrapFrame): seq<Str> {
    WithPath(VectorFrom(ViewOf(m, k.satp), tf.regs[12], 0, []))
  }

  /** The path can be read. */
  predicate HasName(k: Kernel, m: Memory, tf: TrapFrame) {
    StrFrom(ViewOf(m, k.satp), tf.regs[10], 0, []).Some?
  }

  /** What a step is for memory. */
  function OpOf(k: Kernel, m: Memory, act: Act): Spaces.Op {
    match act
    case Stores(va, data) => Spaces.Op.Store(va, data)
    case Keeps(at, data) => Spaces.Op.Heap(at, data)
    case Calls(tf, file, bytes, _) =>
      var regs, num := tf.regs, tf.regs[17];
      if num == CLONE then Spaces.Op.Fork
      else if num == EXECVE then
        Spaces.Op.Exec(if HasName(k, m, tf) then file else Missing, ArgvOf(k, m, tf), EnvpOf(k, m, tf))
      else if num == BRK then Spaces.Op.Brk(regs[10])
      else if num == MMAP then
        Spaces.Op.Mmap(regs[10], regs[11], HasBit(regs[12], 1), HasBit(regs[12], 2), HasBit(regs[12], 4),
                       HasBit(regs[13], 16), bytes)
      else if num == WAIT4 then
        match FindZombie(k.table, k.current, Signed(regs[10]), 0, k.nextPid)
        case Some(z) => Spaces.Op.Wait4(z, regs[11], k.table[z].exitCode)
        case None => Spaces.Op.Other
      else Spaces.Op.Other
  }

  /** The result of a call, as far as it does not follow from the step of memory: for an execve that fails, 2 if
      there is no such file. */
  function ValueOf(k: Kernel, m: Memory, act: Act): Word
    requires act.Calls?
  {
    if act.tf.regs[17] == EXECVE then (if HasName(k, m, act.tf) && act.file.Missing? then 2 else 1) else act.value
  }

  function Minus(x: nat, y: nat): nat {
    if x < y then 0 else x - y
  }

  /** What the scheduler needs to know of the step: the frames it took, whether it went through, its result. */
  function AnswerOf(op: Spaces.Op, pid: nat, procs: map<nat, Spaces.Space>, cursor: nat, procs': map<nat, Spaces.Space>,
                    cursor': nat, base: Word, value: Word): Answer
  {
    match op
    case Fork =>
      if procs' == procs then Answer(Minus(cursor', cursor), false, 0)
      else Answer(Minus(cursor', cursor + 3), true, 0)
    case Exec(file, _, _) =>
      if procs' == procs || !file.Elf? then Answer(Minus(cursor', cursor), false, value)
      else Answer(Minus(cursor', cursor + 1), true, file.image.entry)
    case Brk(_) => Answer(Minus(cursor', cursor), true, if pid in procs' then procs'[pid].brk else 0)
    case Mmap(addr, _, _, _, _, fixed, _) => Answer(Minus(cursor', cursor), true, UserStore.MmapAt(base, addr, fixed))
    case _ => Answer(Minus(cursor', cursor), true, value)
  }

  // ---- The two halves agree ----

  predicate SamePlace(p: Proc, s: Spaces.Space) {
    p.root == s.root && p.kstack == s.kstack
  }

  /** Both halves have the same processes, at the same frames, and the same free frames. */
  ghost predicate Agree(k: Kernel, procs: map<nat, Spaces.Space>, nextPid: nat, top: nat) {
    && k.table.Keys == procs.Keys && k.nextPid == nextPid && k.cursor == top
    && forall p | p in k.table && p in procs :: SamePlace(k.table[p], procs[p])
  }

  lemma ExitAgrees(k: Kernel, procs: map<nat, Spaces.Space>, nextPid: nat, top: nat, code: int)
    requires k.current in k.table && Agree(k, procs, nextPid, top)
    ensures Agree(k.(table := Exit(k.table, k.current, code)), procs, nextPid, top)
  {
  }

  lemma Wait4Agrees(k: Kernel, tf: TrapFrame, procs: map<nat, Spaces.Space>, nextPid: nat, top: nat)
    requires k.current in k.table && Agree(k, procs, nextPid, top)
    ensures match FindZombie(k.table, k.current, Signed(tf.regs[10]), 0, k.nextPid)
            case Some(z) => Agree(HandleWait4(k, tf), procs - {z}, nextPid, top)
            case None => Agree(HandleWait4(k, tf), procs, nextPid, top)
  {
    hide Returned, Repeated, FindZombie;
  }

  lemma CloneAgrees(k: Kernel, tf: TrapFrame, procs: map<nat, Spaces.Space>, nextPid: nat, top: nat,
                    procs': map<nat, Spaces.Space>, nextPid': nat, top': nat)
    requires k.current in procs && Agree(k, procs, nextPid, top) && top' <= RAM_PAGES
    requires Spaces.Moved(Spaces.Op.Fork, k.current, procs, nextPid, top, procs', nextPid', top') && nextPid !in procs
    ensures var a := AnswerOf(Spaces.Op.Fork, k.current, procs, top, procs', top', 0, 0);
            Agree(HandleClone(k, tf, a), procs', nextPid', top')
  {
    hide Returned, ChildFrame;
    if procs' != procs {
      assert procs' == procs[nextPid := Spaces.Space(top, top' - 2, procs[k.current].brk)];
    }
  }

  lemma ExecveAgrees(k: Kernel, tf: TrapFrame, op: Spaces.Op, procs: map<nat, Spaces.Space>, nextPid: nat, top: nat,
                     procs': map<nat, Spaces.Space>, nextPid': nat, top': nat, value: Word)
    requires k.current in k.table && k.current in procs && Agree(k, procs, nextPid, top) && top' <= RAM_PAGES && op.Exec?
    requires Spaces.Moved(op, k.current, procs, nextPid, top, procs', nextPid', top')
    ensures var a := AnswerOf(op, k.current, procs, top, procs', top', 0, value);
            Agree(HandleExecve(k, tf, a), procs', nextPid', top')
  {
    hide Returned, Replaced;
  }

  lemma OtherAgrees(k: Kernel, tf: TrapFrame, procs: map<nat, Spaces.Space>, nextPid: nat, top: nat, top': nat, value: Word)
    requires Agree(k, procs, nextPid, top) && top <= top' <= RAM_PAGES
    ensures Agree(k.(frame := Returned(tf, value), cursor := Taken(k.cursor, Minus(top', top))), procs, nextPid, top')
  {
  }

  /** The handler keeps the two halves in agreement, given what the memory side did. */
  lemma HandleAgrees(k: Kernel, m: Memory, act: Act, procs: map<nat, Spaces.Space>, nextPid: nat, top: nat,
                     procs': map<nat, Spaces.Space>, nextPid': nat, top': nat, base: Word)
    requires act.Calls? && k.current in k.table && k.current in procs && nextPid !in procs
    requires Agree(k, procs, nextPid, top) && top' <= RAM_PAGES
    requires Spaces.Moved(OpOf(k, m, act), k.current, procs, nextPid, top, procs', nextPid', top')
    ensures var a := AnswerOf(OpOf(k, m, act), k.current, procs, top, procs', top', base, ValueOf(k, m, act));
            Agree(Handle(k, act.tf, a), procs', nextPid', top')
  {
    hide HandleClone, HandleExecve, HandleWait4, Exit, Returned, FindZombie, ArgvOf, EnvpOf, HasName;
    var k0, tf := k.(stored := None), act.tf;
    if IsExit(tf) {
      ExitAgrees(k0, procs, nextPid, top, Signed(tf.regs[10]));
    } else if tf.regs[17] == CLONE {
      CloneAgrees(k0, tf, procs, nextPid, top, procs', nextPid', top');
    } else if tf.regs[17] == EXECVE {
      ExecveAgrees(k0, tf, OpOf(k, m, act), procs, nextPid, top, procs', nextPid', top', ValueOf(k, m, act));
    } else if tf.regs[17] == WAIT4 {
      Wait4Agrees(k0, tf, procs, nextPid, top);
    } else {
      OtherAgrees(k0, tf, procs, nextPid, top, top', ValueOf(k, m, act));
    }
  }

  /** The scheduler moves no process to other frames. */
  lemma ScheduleAgrees(k: Kernel, procs: map<nat, Spaces.Space>, nextPid: nat, top: nat)
    requires k.current in k.table && Agree(k, procs, nextPid, top) && Schedule(k).Going?
    ensures Agree(Schedule(k).k, procs, nextPid, top)
  {
    hide NextReady;
  }

  /** Processes other than `but` keep their registers. */
  ghost predicate RegsKept(k: Kernel, k': Kernel, but: nat) {
    forall q | q in k.table && q in k'.table && q != but :: Context(k', q) == Context(k, q)
  }

  /** Processes that took none of the steps keep their registers. */
  ghost predicate IdleRegsKept(k: Kernel, k': Kernel, steps: seq<(nat, Spaces.Op)>) {
    forall q | q in k.table && q in k'.table && Spaces.Idle(steps, q) :: Context(k', q) == Context(k, q)
  }

  lemma CurrentIsThere(k: Kernel, procs: map<nat, Spaces.Space>, nextPid: nat, top: nat)
    requires Inv(k) && Agree(k, procs, nextPid, top)
    ensures k.current in k.table && k.current in procs && k.nextPid !in procs && k.nextPid == nextPid && k.cursor == top
    ensures k.satp == procs[k.current].root
  {
    hide StacksOk;
    assert k.nextPid !in k.table;
  }

  lemma SameKeys(k: Kernel, procs: map<nat, Spaces.Space>, nextPid: nat, top: nat)
    requires Agree(k, procs, nextPid, top)
    ensures k.table.Keys == procs.Keys
  {
  }

  lemma HandledIsThere(k: Kernel)
    requires Handled(k)
    ensures k.current in k.table
  {
  }

  /** A whole trap, from the agreement before it to the one after it. */
  lemma CallAgrees(k: Kernel, m: Memory, act: Act, a: Answer, procs: map<nat, Spaces.Space>, nextPid: nat, top: nat,
                   procs': map<nat, Spaces.Space>, nextPid': nat, top': nat, base: Word)
    requires Inv(k) && act.Calls? && k.current in procs && Agree(k, procs, nextPid, top) && top' <= RAM_PAGES
    requires Spaces.Moved(OpOf(k, m, act), k.current, procs, nextPid, top, procs', nextPid', top')
    requires a == AnswerOf(OpOf(k, m, act), k.current, procs, top, procs', top', base, ValueOf(k, m, act))
    ensures Step(k, Ecall(act.tf, a)).Going? ==>
              && Inv(Step(k, Ecall(act.tf, a)).k) && Agree(Step(k, Ecall(act.tf, a)).k, procs', nextPid', top')
              && RegsKept(k, Step(k, Ecall(act.tf, a)).k, k.current)
  {
    hide StacksOk, Handle, Schedule, OpOf, ValueOf, AnswerOf, Spaces.Moved, Agree, Context;
    CurrentIsThere(k, procs, nextPid, top);
    if Step(k, Ecall(act.tf, a)).Going? {
      StepKeeps(k, Ecall(act.tf, a));
      StepContext(k, Ecall(act.tf, a));
      HandleKeeps(k, act.tf, a);
      HandledIsThere(Handle(k, act.tf, a));
      HandleAgrees(k, m, act, procs, nextPid, top, procs', nextPid', top', base);
      ScheduleAgrees(Handle(k, act.tf, a), procs', nextPid', top');
    }
  }

  // ---- What a call answers ----

  /** The environment of the new program: the caller's, with PATH=/bin behind it if no string starts with PATH=. */
  ghost predicate PathAdded(e: seq<Str>, e': seq<Str>) {
    && e <= e'
    && (if HasPath(e) then e' == e
        else |e'| == |e| + 1 && e'[|e|] == [0x50, 0x41, 0x54, 0x48, 0x3d, 0x2f, 0x62, 0x69, 0x6e])
  }

  /** Some string starts with PATH=. */
  ghost predicate HasPath(e: seq<Str>) {
    exists s | s in e :: |s| >= 5 && s[..5] == [0x50, 0x41, 0x54, 0x48, 0x3d]
  }

  lemma WithPathAdds(e: seq<Str>)
    ensures PathAdded(e, WithPath(e))
  {
  }

  /** What the caller finds when its call is done, by number: exit (93, 94), brk (214), clone (220), execve (221; for the new
      address space see `Exec.Ready`), mmap (222), wait4 (260) and all others. `base` is where the next mapping without
      MAP_FIXED was to go. */
  ghost predicate Answered(k: Kernel, m: Memory, procs: map<nat, Spaces.Space>, base: Word, act: Act,
                           k': Kernel, m': Memory, procs': map<nat, Spaces.Space>)
    requires act.Calls? && k.current in procs
  {
    var pid, regs, num := k.current, act.tf.regs, act.tf.regs[17];
    pid in k'.table &&
    var f := Context(k', pid);
    if num == 93 || num == 94 then 
      k'.table[pid].state == Zombie && k'.table[pid].exitCode == Signed(regs[10])
    else if num == 214 then
      && pid in procs' && f.regs[10] == procs'[pid].brk
      && procs'[pid].brk ==
           if regs[10] != 0 then regs[10] else if procs[pid].brk == 0 then 0x1_0000 else procs[pid].brk
    else if num == 220 then
      if procs' == procs then f.regs[10] == WORD_LIMIT - 1
      else f.regs[10] == k.nextPid % WORD_LIMIT && k.nextPid in k'.table && k'.table[k.nextPid].ppid == pid
    else if num == 221 then
      if procs' != procs then
        && StrFrom(ViewOf(m, k.satp), regs[10], 0, []).Some? && act.file.Elf?
        && f.sepc == act.file.image.entry && f.regs[2] == 0x3f_ffff_f000 && f.regs[10] == 0
      else if StrFrom(ViewOf(m, k.satp), regs[10], 0, []).Some? && act.file.Missing? then f.regs[10] == WORD_LIMIT - 2
      else f.regs[10] == WORD_LIMIT - 1
    else if num == 222 then
      && UserStore.Mmapped(m, m', procs[pid].root, f.regs[10], RoundUp(regs[11]), regs[12] % 2 == 1, regs[12] / 2 % 2 == 1,
                           regs[12] / 4 % 2 == 1, act.bytes)
      && f.regs[10] == if regs[13] / 16 % 2 == 1 then regs[10] else if base == 0 then 0x5000_0000 else base
    else if num == 260 then
      && (forall z: nat | FirstZombieFor(k.table, pid, regs[10], z) ::
            f.regs[10] == z % WORD_LIMIT && k'.table.Keys == k.table.Keys - {z})
      && ((forall c: nat :: !ZombieFor(k.table, pid, regs[10], c)) ==>
            f.regs[10] == (if regs[12] % 2 == 1 then 0 else WORD_LIMIT - 11) && k'.table.Keys == k.table.Keys)
    else f.regs[10] == act.value
  }

  /** What the step does to memory: a store of the program writes its bytes, brk adds usable zero pages up to the new break,
      clone gives the child a copy, wait4 writes the exit code of the child into the second byte of the status, and
      other calls but execve and mmap change nothing. */
  ghost predicate Performed(k: Kernel, m: Memory, procs: map<nat, Spaces.Space>, act: Act, m': Memory,
                            procs': map<nat, Spaces.Space>)
    requires k.current in procs
  {
    var pid, root := k.current, procs[k.current].root;
    match act
    case Stores(va, data) => UserStore.Written(m, m', root, va, data)
    case Keeps(_, _) => true
    case Calls(tf, _, _, _) =>
      var regs, num := tf.regs, tf.regs[17];
      if num == 214 then
        UserStore.HeapGrown(m, m', root, if procs[pid].brk == 0 then 0x1_0000 else procs[pid].brk, regs[10])
      else if num == 220 then
        procs' != procs ==> k.nextPid in procs' && Spaces.CopyOf(m, root, m', procs'[k.nextPid].root)
      else if num == 260 then
        && (forall z: nat | FirstZombieFor(k.table, pid, regs[10], z) ::
              UserStore.Written(m, m', root, regs[11],
                                if regs[11] == 0 then [] else [0, k.table[z].exitCode % 256, 0, 0, 0, 0, 0, 0]))
        && ((forall c: nat :: !ZombieFor(k.table, pid, regs[10], c)) ==> m' == m)
      else num != 221 && num != 222 ==> m' == m
  }

  lemma ActPerforms(k: Kernel, m: Memory, act: Act, procs: map<nat, Spaces.Space>, base: Word, m': Memory,
                    procs': map<nat, Spaces.Space>)
    requires Inv(k) && k.current in procs
    requires Spaces.Did(OpOf(k, m, act), k.current, m, procs, k.nextPid, base, m', procs')
    ensures Performed(k, m, procs, act, m', procs')
  {
    hide Inv, ArgvOf, EnvpOf, FindZombie, HasName, LowBytes, UserStore.Mmapped, UserStore.Written, UserStore.HeapGrown,
      Spaces.CopyOf, Spaces.StatusBytes;
    if act.Calls? && act.tf.regs[17] == 260 {
      InvIsWellFormed(k);
      FoundIsFirst(k, act.tf.regs[10]);
      match OpOf(k, m, act)
      case Wait4(_, wstatus, code) => StatusAsBytes(wstatus, code);
      case _ =>
    }
  }

  /** The scheduler changes neither parents nor exits. */
  lemma ScheduleKeepsEntries(k: Kernel)
    requires k.current in k.table && Schedule(k).Going?
    ensures var t, t' := k.table, Schedule(k).k.table;
            && t'.Keys == t.Keys
            && (forall p | p in t :: t'[p].ppid == t[p].ppid && t'[p].exitCode == t[p].exitCode)
            && (forall p | p in t && t[p].state == Zombie :: t'[p].state == Zombie)
  {
    hide FirstReady;
  }

  lemma InvIsWellFormed(k: Kernel)
    requires Inv(k)
    ensures WellFormed(k)
  {
    hide StacksOk;
  }

  lemma StatusAsBytes(wstatus: Word, code: int)
    ensures Spaces.StatusBytes(wstatus, code) == if wstatus == 0 then [] else [0, code % 256, 0, 0, 0, 0, 0, 0]
  {
    var w := Sched.Status(code);
    assert w / 256 == code % 256 && w / 256 / 256 == 0;
    assert LowBytes(w, 8) == [0] + LowBytes(w / 256, 7) == [0] + ([code % 256] + LowBytes(0, 6));
    assert LowBytes(0, 6) == [0, 0] + LowBytes(0, 4) && LowBytes(0, 4) == [0, 0] + LowBytes(0, 2);
  }

  lemma DidMap(op: Spaces.Op, pid: nat, m: Memory, procs: map<nat, Spaces.Space>, nextPid: nat, base: Word, m': Memory,
               procs': map<nat, Spaces.Space>)
    requires pid in procs && Spaces.Did(op, pid, m, procs, nextPid, base, m', procs') && op.Mmap?
    ensures UserStore.Mmapped(m, m', procs[pid].root, UserStore.MmapAt(base, op.addr, op.fixed), RoundUp(op.len),
                              op.r, op.w, op.x, op.bytes)
  {
  }

  /** What the caller finds after the handler `h` and the scheduler: the frame and the table are those of the handler. */
  ghost predicate Left(pid: nat, h: Kernel, k': Kernel) {
    && pid in k'.table && Context(k', pid) == h.frame && k'.table.Keys == h.table.Keys
    && (forall p | p in h.table :: k'.table[p].ppid == h.table[p].ppid && k'.table[p].exitCode == h.table[p].exitCode)
    && (forall p | p in h.table && h.table[p].state == Zombie :: k'.table[p].state == Zombie)
  }

  lemma CallLeaves(k: Kernel, tf: TrapFrame, a: Answer)
    requires Inv(k) && Step(k, Ecall(tf, a)).Going?
    ensures k.current in k.table && Left(k.current, Handle(k, tf, a), Step(k, Ecall(tf, a)).k)
    ensures Answers(k, tf, a, Handle(k, tf, a))
  {
    hide StacksOk, Handle, Context, Answers;
    HandleKeeps(k, tf, a);
    HandledIsThere(Handle(k, tf, a));
    StepContext(k, Ecall(tf, a));
    Results(k, tf, a);
    ScheduleKeepsEntries(Handle(k, tf, a));
  }

  /** What is answered follows from what memory did. */
  lemma CallAnswers(k: Kernel, m: Memory, act: Act, a: Answer, procs: map<nat, Spaces.Space>, nextPid: nat, top: nat,
                    m': Memory, procs': map<nat, Spaces.Space>, nextPid': nat, top': nat, base: Word)
    requires Inv(k) && act.Calls? && k.current in procs && Agree(k, procs, nextPid, top) && top' <= RAM_PAGES
    requires Spaces.Moved(OpOf(k, m, act), k.current, procs, nextPid, top, procs', nextPid', top')
    requires a == AnswerOf(OpOf(k, m, act), k.current, procs, top, procs', top', base, ValueOf(k, m, act))
    requires Spaces.Did(OpOf(k, m, act), k.current, m, procs, nextPid, base, m', procs')
    requires Step(k, Ecall(act.tf, a)).Going?
    ensures Answered(k, m, procs, base, act, Step(k, Ecall(act.tf, a)).k, m', procs')
  {
    hide Inv, Agree, Handle, Schedule, Step, Answered, Spaces.Did, Spaces.Moved, OpOf, AnswerOf, ValueOf, Left, Answers;
    InvIsWellFormed(k);
    CurrentIsThere(k, procs, nextPid, top);
    CallLeaves(k, act.tf, a);
    LeftAnswers(k, m, act, a, procs, nextPid, top, m', procs', nextPid', top', base, Handle(k, act.tf, a),
                Step(k, Ecall(act.tf, a)).k);
  }

  lemma LeftAnswers(k: Kernel, m: Memory, act: Act, a: Answer, procs: map<nat, Spaces.Space>, nextPid: nat, top: nat,
                    m': Memory, procs': map<nat, Spaces.Space>, nextPid': nat, top': nat, base: Word, h: Kernel, k': Kernel)
    requires act.Calls? && k.current in procs && k.nextPid == nextPid && nextPid !in procs
    requires k.cursor == top && top' <= RAM_PAGES
    requires Spaces.Moved(OpOf(k, m, act), k.current, procs, nextPid, top, procs', nextPid', top')
    requires a == AnswerOf(OpOf(k, m, act), k.current, procs, top, procs', top', base, ValueOf(k, m, act))
    requires Spaces.Did(OpOf(k, m, act), k.current, m, procs, nextPid, base, m', procs')
    requires Answers(k, act.tf, a, h) && Left(k.current, h, k')
    ensures Answered(k, m, procs, base, act, k', m', procs')
  {
    hide UserStore.Mmapped, ArgvOf, EnvpOf, FindZombie, Context, StrFrom, ViewOf, Spaces.Did, RoundUp;
    if OpOf(k, m, act).Mmap? {
      DidMap(OpOf(k, m, act), k.current, m, procs, nextPid, base, m', procs');
    }
  }

  lemma StoreAgrees(k: Kernel, m: Memory, act: Act, procs: map<nat, Spaces.Space>, nextPid: nat, top: nat,
                    procs': map<nat, Spaces.Space>, nextPid': nat, top': nat)
    requires !act.Calls? && k.current in procs && Agree(k, procs, nextPid, top)
    requires Spaces.Moved(OpOf(k, m, act), k.current, procs, nextPid, top, procs', nextPid', top')
    ensures Agree(k, procs', nextPid', top') && RegsKept(k, k, k.current)
  {
    hide Context;
  }

  lemma Frames(ph: PhysMem.Phys)
    requires ph.Valid()
    ensures ph.top <= RAM_PAGES && ph.current / PAGE_SIZE == ph.top
    ensures forall p | p in ph.own :: p < ph.top
  {
    hide TreesOk;
  }

  lemma FirstProcess(m: Spaces.Machine)
    requires m.Valid() && 1 in m.procs
    ensures m.procs[1].root < m.ph.top <= RAM_PAGES && m.procs[1].kstack + 2 <= m.ph.top
    ensures m.ph.current / PAGE_SIZE == m.ph.top
  {
    hide PhysMem.Phys.Valid, Private, Standard;
    Frames(m.ph);
    Spaces.SpaceIsOk(m.ph.mem, m.ph.own, m.procs, 1);
  }

  class Whole {
    const mem: Spaces.Machine
    var k: Kernel

    ghost predicate Valid()
      reads this, mem, mem.ph, mem.heap
    {
      mem.Valid() && Inv(k) && Agree(k, mem.procs, mem.nextPid, mem.ph.top)
    }

    /** The first process, before anything ran. */
    constructor (m: Spaces.Machine, tf: TrapFrame)
      requires m.Valid() && m.procs.Keys == {1} && m.nextPid == 2
      ensures Valid() && mem == m && Initial(k)
    {
      mem := m;
      var s := m.procs[1];
      var first := Proc(0, Running, s.root, tf, s.kstack, 0);
      k := Kernel.Kernel(map[1 := first], 1, 2, s.root, first.StackTop() - FRAME_BYTES, tf, m.ph.current / PAGE_SIZE, None);
      new;
      FirstProcess(m);
    }

    /** One step, through to the return to user mode; false if the kernel panics, hangs or shuts down in it. With frames
        below the heap and the rules of `Spaces.Guarded` kept, an execve that succeeds leaves an address space
        that is ready to run with the arguments that the caller had in memory. */
    method Step(act: Act) returns (ok: bool)
      requires Valid() && Spaces.Possible(mem.procs, k.current, OpOf(k, mem.ph.mem, act))
      modifies this, mem, mem.ph, mem.heap
      ensures ok && old(Spaces.Guarded(OpOf(k, mem.ph.mem, act), mem.mmapBase)) && mem.ph.current <= HEAP_START ==>
                && Valid() && RegsKept(old(k), k, old(k.current))
                && Spaces.Steps(old(mem.ph.mem), old(mem.ph.own), old(mem.procs),
                                mem.ph.mem, mem.ph.own, mem.procs, old(k.current))
                && mem.nextPid >= old(mem.nextPid)
                && (forall q | q in mem.procs && q !in old(mem.procs) :: q >= old(mem.nextPid))
                && (act.Calls? && act.tf.regs[17] == EXECVE && mem.procs != old(mem.procs) ==>
                      && old(k.current) in mem.procs && act.file.Elf?
                      && AllInBounds(act.file.image.phdrs, act.file.image.data)
                      && BreakBehind(mem.procs[old(k.current)].brk, act.file.image.phdrs)
                      && Exec.Ready(mem.ph.mem, mem.ph.own, mem.procs[old(k.current)].root, act.file.image,
                                    old(ArgvOf(k, mem.ph.mem, act.tf)), old(EnvpOf(k, mem.ph.mem, act.tf))))
                && Performed(old(k), old(mem.ph.mem), old(mem.procs), act, mem.ph.mem, mem.procs)
                && (act.Calls? ==>
                      Answered(old(k), old(mem.ph.mem), old(mem.procs), old(mem.mmapBase), act, k, mem.ph.mem, mem.procs))
    {
      hide Inv, Spaces.Steps, Spaces.Guarded, Spaces.TableOk, Spaces.Moved, PhysMem.Phys.Valid, Handle, Schedule, ValueOf,
        Private, Agree, AnswerOf, Context, Exec.Ready, ArgvOf, EnvpOf, HasName, AllInBounds, FindZombie, Answered,
        Performed, Spaces.Did, BreakBehind;
      ghost var m := mem.ph.mem;
      var op, base, procs, cursor := OpOf(k, mem.ph.mem, act), mem.mmapBase, mem.procs, k.cursor;
      var value := if act.Calls? then ValueOf(k, mem.ph.mem, act) else 0;
      CurrentIsThere(k, procs, mem.nextPid, mem.ph.top);
      ok := mem.Step(k.current, op);
      if ok && Spaces.Guarded(op, base) && mem.ph.current <= HEAP_START {
        ActPerforms(k, m, act, procs, base, mem.ph.mem, mem.procs);
      }
      if act.Calls? {
        var a := AnswerOf(op, k.current, procs, cursor, mem.procs, mem.ph.current / PAGE_SIZE, base, value);
        HandleKeeps(k, act.tf, a);
        HandledIsThere(Handle(k, act.tf, a));
        var r := Schedule(Handle(k, act.tf, a));
        if !r.Going? {
          return false;
        }
        k := r.k;
        if ok && Spaces.Guarded(op, base) && mem.ph.current <= HEAP_START {
          Frames(mem.ph);
          CallAgrees(old(k), m, act, a, procs, old(mem.nextPid), old(mem.ph.top), mem.procs, mem.nextPid, mem.ph.top, base);
          CallAnswers(old(k), m, act, a, procs, old(mem.nextPid), old(mem.ph.top), mem.ph.mem, mem.procs, mem.nextPid,
                      mem.ph.top, base);
        }
      } else if ok && Spaces.Guarded(op, base) && mem.ph.current <= HEAP_START {
        StoreAgrees(k, m, act, procs, old(mem.nextPid), old(mem.ph.top), mem.procs, mem.nextPid, mem.ph.top);
      }
    }

    /** Isolation over every run of the whole kernel: a process that was never the current one has, at the end, its
        registers, every translation and every byte of its pages as at the start. `ran` lists who was current and
        what was done. The run ends where the kernel panics, hangs or shuts down, at a step that breaks the rules of
        `Spaces.Guarded`, and when the frames reach the kernel's heap. */
    method Run(acts: seq<Act>) returns (ok: bool, ran: seq<(nat, Spaces.Op)>)
      requires Valid()
      modifies this, mem, mem.ph, mem.heap
      ensures ok ==> Valid() && |ran| == |acts|
      ensures ok && acts != [] ==> ran[0] == (old(k.current), old(OpOf(k, mem.ph.mem, acts[0])))
      ensures ok ==> Spaces.Undisturbed(old(mem.ph.mem), old(mem.procs), mem.ph.mem, mem.procs, ran)
      ensures ok ==> IdleRegsKept(old(k), k, ran)
    {
      hide Inv, TreesOk, Private, Agree, PhysMem.Phys.Valid, Spaces.Steps, Spaces.Undisturbed, Spaces.Guarded,
        Spaces.TableOk, OpOf, IdleRegsKept, RegsKept, Spaces.Possible, Exec.Ready, AllInBounds,
        Answered, Performed, BreakBehind;
      ok, ran := true, [];
      Start(this);
      SameKeys(k, mem.procs, mem.nextPid, mem.ph.top);
      var i := 0;
      while i < |acts|
        invariant i <= |acts| && |ran| == i && Valid()
        invariant if i == 0 then k == old(k) && mem.ph.mem == old(mem.ph.mem)
                  else ran[0] == (old(k.current), old(OpOf(k, mem.ph.mem, acts[0])))
        invariant mem.nextPid >= old(mem.nextPid) && forall q | q in old(mem.procs) :: q < old(mem.nextPid)
        invariant Spaces.Undisturbed(old(mem.ph.mem), old(mem.procs), mem.ph.mem, mem.procs, ran)
        invariant IdleRegsKept(old(k), k, ran)
      {
        CurrentIsThere(k, mem.procs, mem.nextPid, mem.ph.top);
        SameKeys(k, mem.procs, mem.nextPid, mem.ph.top);
        var pid, op := k.current, OpOf(k, mem.ph.mem, acts[i]);
        ghost var m, o, p, k0 := mem.ph.mem, mem.ph.own, mem.procs, k;
        if !Spaces.Possible(mem.procs, pid, op) || !Spaces.Guarded(op, mem.mmapBase) {
          return false, ran;
        }
        ok := Step(acts[i]);
        if !ok || mem.ph.current > HEAP_START {
          return false, ran;
        }
        var steps := ran + [(pid, op)];
        assert steps[..i] == ran && steps[..i + 1] == steps;
        SameKeys(k, mem.procs, mem.nextPid, mem.ph.top);
        Spaces.UndisturbedNext(old(mem.ph.mem), old(mem.procs), m, o, p, mem.ph.mem, mem.ph.own, mem.procs, steps, i);
        RegsKeptNext(old(k), k0, k, ran, pid, op);
        ran, i := steps, i + 1;
      }
    }
  }

  lemma Start(w: Whole)
    requires w.Valid()
    ensures Spaces.Undisturbed(w.mem.ph.mem, w.mem.procs, w.mem.ph.mem, w.mem.procs, []) && IdleRegsKept(w.k, w.k, [])
  {
    hide Inv, TreesOk, Private, Agree, PhysMem.Phys.Valid, Spaces.Undisturbed, Spaces.TableOk, Context;
    PhysMem.ValidTrees(w.mem.ph);
    Spaces.UndisturbedNothing(w.mem.ph.mem, w.mem.ph.own, w.mem.procs);
  }

  lemma RegsKeptNext(k: Kernel, k1: Kernel, k2: Kernel, ran: seq<(nat, Spaces.Op)>, pid: nat, op: Spaces.Op)
    requires IdleRegsKept(k, k1, ran) && RegsKept(k1, k2, pid)
    requires forall q | q in k.table && q in k2.table :: q in k1.table
    ensures IdleRegsKept(k, k2, ran + [(pid, op)])
  {
    hide Context;
    var steps := ran + [(pid, op)];
    forall q | q in k.table && q in k2.table && Spaces.Idle(steps, q) ensures Context(k2, q) == Context(k, q) {
      assert steps[|ran|].0 != q;
      assert forall i | 0 <= i < |ran| :: steps[i] == ran[i];
      assert Spaces.Idle(ran, q);
    }
  }

  /** satp holds the root of the current process, so its loads and stores go through its own table. */
  lemma ThroughSatp(w: Whole)
    requires w.Valid()
    ensures w.k.current in w.mem.procs && w.k.satp == w.mem.procs[w.k.current].root
  {
    hide Inv, Agree, PhysMem.Phys.Valid, Private, Spaces.TableOk;
    CurrentIsThere(w.k, w.mem.procs, w.mem.nextPid, w.mem.ph.top);
  }

  /** No process has a mapping of its own to the frame that holds the trap frame the kernel will return with. */
  lemma TrapFrameIsSafe(w: Whole, q: nat, v: Vpn)
    requires w.Valid() && q in w.mem.procs && UserLeaf(w.mem.ph.mem, w.mem.procs[q].root, v)
    ensures Lookup(w.mem.ph.mem, w.mem.procs[q].root, v).value.ppn != w.k.sp / PAGE_SIZE
  {
    hide StacksOk, PhysMem.Phys.Valid, Private, Spaces.TableOk, Lookup;
    var p := w.k.current;
    assert SamePlace(w.k.table[p], w.mem.procs[p]);
    FrameAddress(w.mem.procs[p].kstack);
    Spaces.NoKernelFrame(w.mem.ph.mem, w.mem.ph.own, w.mem.procs, q, v, p);
  }

  lemma FrameAddress(kstack: nat)
    ensures ((kstack + 2) * PAGE_SIZE - FRAME_BYTES) / PAGE_SIZE == kstack + 1
  {
  }

  /** The status that the transition system hands out is the one that is stored in memory. */
  lemma StoredIsWritten(k: Kernel, m: Memory, act: Act, a: Answer)
    requires k.current in k.table && act.Calls? && OpOf(k, m, act).Wait4?
    ensures var op := OpOf(k, m, act);
            Spaces.StatusBytes(op.wstatus, op.code) ==
              match Handle(k, act.tf, a).stored
              case None => []
              case Some(s) => if s.at == op.wstatus then LowBytes(s.word, 8) else []
  {
    hide LowBytes, Returned;
  }

  /** Every clone that succeeds takes the tables of the kernel's pages: the bound of `Bypass.NoStarvation` holds of the
      whole kernel with 68 frames besides root and kernel stack. */
  lemma CloneTakes(k: Kernel, m: Memory, act: Act, procs: map<nat, Spaces.Space>, nextPid: nat, top: nat,
                   procs': map<nat, Spaces.Space>, nextPid': nat, top': nat, base: Word)
    requires act.Calls? && k.current in procs
    requires Spaces.Moved(OpOf(k, m, act), k.current, procs, nextPid, top, procs', nextPid', top')
    ensures var a := AnswerOf(OpOf(k, m, act), k.current, procs, top, procs', top', base, ValueOf(k, m, act));
            Bypass.Takes(Ecall(act.tf, a), TABLES - 1)
  {
    hide ArgvOf, EnvpOf, HasName, FindZombie;
  }

  lemma PathIsText()
    ensures forall s | s in Spaces.FIRST_ENVP :: NulFree(s)
  {
  }

  /** Only one environment is the caller's with a PATH added. */
  lemma OnePathAdded(e: seq<Str>, e': seq<Str>)
    ensures PathAdded(e, e') <==> e' == WithPath(e)
  {
    hide WithPath, HasPath;
    WithPathAdds(e);
    if PathAdded(e, e') {
      assert e' == e + e'[|e|..] && WithPath(e) == e + WithPath(e)[|e|..];
    }
  }

  lemma WithPathArrives(m: Memory, own: Owners, root: nat, image: Image, argv: seq<Str>, e: seq<Str>)
    requires AllInBounds(image.phdrs, image.data) && Exec.Ready(m, own, root, image, argv, WithPath(e))
    requires InPage(argv + WithPath(e)) && forall s | s in argv + WithPath(e) :: Ascii(s)
    requires forall s | s in argv || s in e :: NulFree(s)
    ensures (&& VectorFrom(ViewOf(m, root), STACK_TOP + 8, 0, []) == argv
             && PathAdded(e, VectorFrom(ViewOf(m, root), STACK_TOP + 8 * (|argv| + 2), 0, []))) <==>
              Joined(argv + WithPath(e))
  {
    hide AllInBounds, Exec.Ready, InPage, VectorFrom, ViewOf, Joined, NulFree, Ascii, PathAdded;
    PathIsText();
    ArgumentsArrive(m, own, root, image, argv, WithPath(e));
    OnePathAdded(e, VectorFrom(ViewOf(m, root), STACK_TOP + 8 * (|argv| + 2), 0, []));
  }

  /** End to end: what a program reads from the stack that execve gave it is what the caller had in memory, argv as it was
      and envp with PATH=/bin added if there was no PATH, exactly if the strings fit their slots or go on with
      the next. */
  lemma ExecveEndToEnd(k: Kernel, m: Memory, tf: TrapFrame, m': Memory, own': Owners, root: nat, image: Image)
    requires AllInBounds(image.phdrs, image.data) && Exec.Ready(m', own', root, image, ArgvOf(k, m, tf), EnvpOf(k, m, tf))
    requires InPage(ArgvOf(k, m, tf) + EnvpOf(k, m, tf))
    requires forall s | s in ArgvOf(k, m, tf) + EnvpOf(k, m, tf) :: Ascii(s)
    ensures var argv := VectorFrom(ViewOf(m, k.satp), tf.regs[11], 0, []);
            (&& VectorFrom(ViewOf(m', root), STACK_TOP + 8, 0, []) == argv
             && PathAdded(VectorFrom(ViewOf(m, k.satp), tf.regs[12], 0, []),
                          VectorFrom(ViewOf(m', root), STACK_TOP + 8 * (|argv| + 2), 0, []))) <==>
              Joined(ArgvOf(k, m, tf) + EnvpOf(k, m, tf))
  {
    hide AllInBounds, Exec.Ready, InPage, VectorFrom, ViewOf, Joined, NulFree, Ascii, PathAdded, WithPath;
    VectorFromIsText(ViewOf(m, k.satp), tf.regs[11], 0, []);
    VectorFromIsText(ViewOf(m, k.satp), tf.regs[12], 0, []);
    WithPathArrives(m', own', root, image, VectorFrom(ViewOf(m, k.satp), tf.regs[11], 0, []),
                    VectorFrom(ViewOf(m, k.satp), tf.regs[12], 0, []));
  }
}

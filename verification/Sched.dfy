/**
 The process table, the trap handler and the round-robin scheduler (src/proc.rs, src/trap.rs,
 and sys_clone, sys_execve, sys_wait4 and sys_exit in src/syscall.rs), as a transition system.

 One step is one trap from user mode up to the return to user mode. What the process does in user
 mode before the trap is not restricted: the registers at the trap are part of the event. How many
 frames a call takes, and the result of a call that does not concern the process table, come with
 the event too.
 */
module Sched {
  import opened Base

  datatype State = Ready | Running | Waiting | Zombie

  type Regs = r: seq<Word> | |r| == 32 witness seq(32, _ => 0)

  /** The saved registers; regs[2] is the user's stack pointer. */
  datatype TrapFrame = TrapFrame(regs: Regs, sepc: Word, sstatus: Word)

  /** `kstack` is the first of the two frames of the kernel stack. */
  datatype Proc = Proc(ppid: nat, state: State, root: nat, tf: TrapFrame, kstack: nat, exitCode: int)
  {
    /** `kernel_stack` */
    function StackTop(): nat {
      (kstack + 2) * PAGE_SIZE
    }
  }

  type Table = map<nat, Proc>

  const FRAME_BYTES: nat := 288

  /** The word that wait4 stores through the caller's pointer. */
  datatype StatusStore = StatusStore(at: Word, word: Word)

  /** The kernel between two traps: `sp` is where the trap frame `frame` lies that the return to user
      mode restores, `cursor` is the next free physical frame, and `stored` what the last trap stored
      for its caller. */
  datatype Kernel = Kernel(table: Table, current: nat, nextPid: nat, satp: nat, sp: nat, frame: TrapFrame,
                           cursor: nat, stored: Option<StatusStore>)

  /** What a call does besides the process table: the frames it takes, whether it succeeds, and the
      value it returns (for execve, the entry point). */
  datatype Answer = Answer(frames: nat, ok: bool, value: Word)

  /** A trap: an ecall with the registers at that point, or anything else. */
  datatype Event = Ecall(tf: TrapFrame, answer: Answer) | Fault

  const CLONE: Word := 220
  const EXECVE: Word := 221
  const WAIT4: Word := 260

  predicate IsExit(tf: TrapFrame) {
    tf.regs[17] == 93 || tf.regs[17] == 94
  }

  /** -x as a register value. */
  function Neg(x: nat): Word
    requires 0 < x <= WORD_LIMIT
  {
    WORD_LIMIT - x
  }

  /** A register as `isize`. */
  function Signed(w: Word): int {
    if w < 0x8000_0000_0000_0000 then w else w - WORD_LIMIT
  }

  // ---- The effect of a call on the caller's registers ----

  /** The call returns `ret` behind the ecall instruction. */
  function Returned(tf: TrapFrame, ret: Word): TrapFrame {
    tf.(regs := tf.regs[10 := ret], sepc := (tf.sepc + 4) % WORD_LIMIT)
  }

  /** The call is to be executed again. */
  function Repeated(tf: TrapFrame): TrapFrame {
    tf.(regs := tf.regs[10 := Neg(11)])
  }

  function Replaced(tf: TrapFrame, entry: Word): TrapFrame {
    TrapFrame(tf.regs[2 := STACK_TOP][10 := 0], entry, tf.sstatus)
  }

  /** The registers of a fork child. */
  function ChildFrame(tf: TrapFrame, stack: Word): TrapFrame {
    var f := Returned(tf, 0);
    if stack == 0 then f else f.(regs := f.regs[2 := stack])
  }

  // ---- The calls ----

  /** `exit_process`: the current process becomes a zombie and a waiting parent becomes ready. */
  function Exit(t: Table, current: nat, code: int): Table
    requires current in t
  {
    var t' := t[current := t[current].(state := Zombie, exitCode := code)];
    var ppid := t[current].ppid;
    if ppid in t' && t'[ppid].state == Waiting then t'[ppid := t'[ppid].(state := Ready)] else t'
  }

  /** Process `c` is a zombie child of `parent` that a wait4 for `want` takes. */
  predicate Reapable(t: Table, parent: nat, want: int, c: nat) {
    c in t && t[c].ppid == parent && t[c].state == Zombie && (want > 0 ==> c == want)
  }

  /** The first such child, in the order of pids, from `lo` up to `hi`. */
  function FindZombie(t: Table, parent: nat, want: int, lo: nat, hi: nat): (r: Option<nat>)
    ensures r.Some? ==> lo <= r.value < hi && Reapable(t, parent, want, r.value)
    ensures r.Some? ==> forall c | lo <= c < r.value :: !Reapable(t, parent, want, c)
    ensures r.None? ==> forall c | lo <= c < hi :: !Reapable(t, parent, want, c)
    decreases hi - lo
  {
    if lo >= hi then None
    else if Reapable(t, parent, want, lo) then Some(lo)
    else FindZombie(t, parent, want, lo + 1, hi)
  }

  /** The status word: `(code & 0xff) << 8`. */
  function Status(code: int): Word {
    code % 256 * 256
  }

  /** The cursor after a call that takes up to `n` frames; there are none past the end of memory. */
  function Taken(cursor: nat, n: nat): nat {
    if cursor + n <= RAM_PAGES then cursor + n else RAM_PAGES
  }

  /** `rust_trap_handler` for an ecall, with the call it dispatches to. */
  function Handle(k: Kernel, tf: TrapFrame, a: Answer): Kernel
    requires k.current in k.table
  {
    var num := tf.regs[17];
    var k0 := k.(stored := None);
    if IsExit(tf) then
      k0.(table := Exit(k.table, k.current, Signed(tf.regs[10])), frame := Returned(tf, 0))
    else if num == CLONE then HandleClone(k0, tf, a)
    else if num == EXECVE then HandleExecve(k0, tf, a)
    else if num == WAIT4 then HandleWait4(k0, tf)
    else k0.(frame := Returned(tf, a.value), cursor := Taken(k.cursor, a.frames))
  }

  /** `sys_clone` and `fork_process`: the page tables and pages come first, then the kernel stack. It
      fails when the frames it needs are not there. */
  function HandleClone(k: Kernel, tf: TrapFrame, a: Answer): Kernel {
    if !a.ok || k.cursor + a.frames + 3 > RAM_PAGES then
      k.(frame := Returned(tf, Neg(1)), cursor := Taken(k.cursor, a.frames))
    else
      var child := Proc(k.current, Ready, k.cursor, ChildFrame(tf, tf.regs[11]), k.cursor + a.frames + 1, 0);
      k.(table := k.table[k.nextPid := child], nextPid := k.nextPid + 1, frame := Returned(tf, k.nextPid % WORD_LIMIT),
         cursor := k.cursor + a.frames + 3)
  }

  /** `sys_execve`: satp moves to the new table at once. */
  function HandleExecve(k: Kernel, tf: TrapFrame, a: Answer): Kernel
    requires k.current in k.table
  {
    if !a.ok || k.cursor + a.frames + 1 > RAM_PAGES then
      k.(frame := Returned(tf, Neg(if a.value == 2 then 2 else 1)), cursor := Taken(k.cursor, a.frames))
    else
      k.(table := k.table[k.current := k.table[k.current].(root := k.cursor)], satp := k.cursor,
         frame := Replaced(tf, a.value), cursor := k.cursor + a.frames + 1)
  }

  /** `sys_wait4`, and the handler's part in blocking. */
  function HandleWait4(k: Kernel, tf: TrapFrame): Kernel
    requires k.current in k.table
  {
    match FindZombie(k.table, k.current, Signed(tf.regs[10]), 0, k.nextPid)
    case Some(z) =>
      k.(table := k.table - {z}, frame := Returned(tf, z % WORD_LIMIT),
         stored := if tf.regs[11] == 0 then None else Some(StatusStore(tf.regs[11], Status(k.table[z].exitCode))))
    case None =>
      if tf.regs[12] % 2 == 1 then k.(frame := Returned(tf, 0))
      else k.(table := k.table[k.current := k.table[k.current].(state := Waiting)], frame := Repeated(tf))
  }

  // ---- The scheduler ----

  predicate IsReady(t: Table, p: nat) {
    p in t && t[p].state == Ready
  }

  /** The first ready process from `lo` up to `hi`. */
  function FirstReady(t: Table, lo: nat, hi: nat): (r: Option<nat>)
    ensures r.Some? ==> lo <= r.value < hi && IsReady(t, r.value)
    ensures r.Some? ==> forall p | lo <= p < r.value :: !IsReady(t, p)
    ensures r.None? ==> forall p | lo <= p < hi :: !IsReady(t, p)
    decreases hi - lo
  {
    if lo >= hi then None else if IsReady(t, lo) then Some(lo) else FirstReady(t, lo + 1, hi)
  }

  /** Round robin: the first ready process behind the current one, or else the first of all. */
  function NextReady(t: Table, current: nat, nextPid: nat): (r: Option<nat>)
    ensures r.Some? ==> IsReady(t, r.value)
  {
    match FirstReady(t, current + 1, nextPid)
    case Some(p) => Some(p)
    case None => FirstReady(t, 0, nextPid)
  }

  /** Step 1 of `do_schedule`: the current process's registers are saved, and it is no longer running. */
  function Saved(k: Kernel): Table
    requires k.current in k.table
  {
    var p := k.table[k.current];
    k.table[k.current := p.(tf := k.frame, state := if p.state == Running then Ready else p.state)]
  }

  datatype Result = Going(k: Kernel) | Shutdown | Hang

  /** `do_schedule` */
  function Schedule(k: Kernel): Result
    requires k.current in k.table
  {
    var t := Saved(k);
    match NextReady(t, k.current, k.nextPid)
    case None =>
      if t[k.current].state == Zombie then Shutdown
      else Going(k.(table := t[k.current := t[k.current].(state := Running)]))
    case Some(next) =>
      if next == k.current then Going(k.(table := t))
      else
        Going(k.(table := t[next := t[next].(state := Running)], current := next, satp := t[next].root,
                 sp := t[next].StackTop() - FRAME_BYTES, frame := t[next].tf))
  }

  /** The current process exists, and every process was forked by one with a smaller pid. */
  ghost predicate WellFormed(k: Kernel) {
    && k.current in k.table
    && forall p | p in k.table :: k.table[p].ppid < p < k.nextPid
  }

  /** One trap. */
  function Step(k: Kernel, e: Event): Result
    requires WellFormed(k)
  {
    match e
    case Fault => Hang
    case Ecall(tf, a) => Schedule(Handle(k, tf, a))
  }
}

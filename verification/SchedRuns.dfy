/**
 Every run of the scheduler: the invariant on return to user mode, and what a step does to the
 processes that are not running.
 */
module SchedRuns {
  import opened Base
  import opened Sched

  // ---- The invariant ----

  predicate Apart(p: Proc, q: Proc) {
    PlacesApart(p.root, p.kstack, q.root, q.kstack)
  }

  /** Tables and kernel stacks lie below the frame cursor, and no two processes share any. */
  ghost predicate StacksOk(t: Table, cursor: nat) {
    && cursor <= RAM_PAGES
    && (forall p | p in t :: t[p].root < cursor && t[p].kstack + 2 <= cursor)
    && (forall p, q | p in t && q in t && p != q :: Apart(t[p], t[q]))
  }

  /** What holds whenever a process runs in user mode. */
  ghost predicate Inv(k: Kernel) {
    && WellFormed(k)
    && (k.table[k.current].state == Running || k.table[k.current].state == Ready)
    && (forall p | p in k.table && p != k.current :: k.table[p].state != Running)
    && k.satp == k.table[k.current].root
    && k.sp == k.table[k.current].StackTop() - FRAME_BYTES
    && StacksOk(k.table, k.cursor)
  }

  /** What the trap handler leaves for the scheduler. */
  ghost predicate Handled(k: Kernel) {
    && WellFormed(k)
    && (forall p | p in k.table && p != k.current :: k.table[p].state != Running)
    && k.satp == k.table[k.current].root
    && k.sp == k.table[k.current].StackTop() - FRAME_BYTES
    && StacksOk(k.table, k.cursor)
  }

  /** No process moved to other frames. */
  ghost predicate SamePlaces(t: Table, t': Table) {
    forall p | p in t' :: p in t && t'[p].root == t[p].root && t'[p].kstack == t[p].kstack
  }

  lemma PlacesKept(t: Table, t': Table, cursor: nat, cursor': nat)
    requires StacksOk(t, cursor) && SamePlaces(t, t') && (cursor' == cursor || cursor <= cursor' <= RAM_PAGES)
    ensures StacksOk(t', cursor')
  {
    forall p, q | p in t' && q in t' && p != q ensures Apart(t'[p], t'[q]) {
      assert Apart(t[p], t[q]);
    }
  }

  lemma ExitKeeps(k: Kernel, tf: TrapFrame, code: int)
    requires Inv(k)
    ensures Handled(k.(table := Exit(k.table, k.current, code), frame := tf))
  {
    hide StacksOk, SamePlaces;
    ExitPlaces(k.table, k.current, code);
    PlacesKept(k.table, Exit(k.table, k.current, code), k.cursor, k.cursor);
  }

  lemma ExitPlaces(t: Table, current: nat, code: int)
    requires current in t
    ensures SamePlaces(t, Exit(t, current, code))
  {
  }

  lemma CloneKeeps(k: Kernel, tf: TrapFrame, a: Answer)
    requires Inv(k)
    ensures Handled(HandleClone(k, tf, a))
  {
    hide StacksOk, ChildFrame, Returned;
    ClonePlaces(k, tf, a);
  }

  /** The child's table and kernel stack come from above the cursor. */
  lemma ClonePlaces(k: Kernel, tf: TrapFrame, a: Answer)
    requires StacksOk(k.table, k.cursor)
    ensures StacksOk(HandleClone(k, tf, a).table, HandleClone(k, tf, a).cursor)
  {
    hide ChildFrame, Returned;
    var t, t' := k.table, HandleClone(k, tf, a).table;
    forall p, q | p in t' && q in t' && p != q ensures Apart(t'[p], t'[q]) {
      if p != k.nextPid && q != k.nextPid {
        assert Apart(t[p], t[q]);
      }
    }
  }

  lemma ExecveKeeps(k: Kernel, tf: TrapFrame, a: Answer)
    requires Inv(k)
    ensures Handled(HandleExecve(k, tf, a))
  {
    hide StacksOk, Replaced, Returned;
    ExecvePlaces(k, tf, a);
  }

  lemma ExecvePlaces(k: Kernel, tf: TrapFrame, a: Answer)
    requires k.current in k.table && StacksOk(k.table, k.cursor)
    ensures StacksOk(HandleExecve(k, tf, a).table, HandleExecve(k, tf, a).cursor)
  {
    hide Replaced, Returned;
    var t, t' := k.table, HandleExecve(k, tf, a).table;
    forall p, q | p in t' && q in t' && p != q ensures Apart(t'[p], t'[q]) {
      assert Apart(t[p], t[q]);
    }
  }

  lemma Wait4Keeps(k: Kernel, tf: TrapFrame)
    requires Inv(k)
    ensures Handled(HandleWait4(k, tf))
  {
    hide StacksOk, SamePlaces, FindZombie, Returned, Repeated;
    Wait4Places(k, tf);
    PlacesKept(k.table, HandleWait4(k, tf).table, k.cursor, k.cursor);
  }

  lemma Wait4Places(k: Kernel, tf: TrapFrame)
    requires k.current in k.table
    ensures SamePlaces(k.table, HandleWait4(k, tf).table)
  {
    hide FindZombie, Returned, Repeated;
  }

  lemma PlainKeeps(k: Kernel, tf: TrapFrame, frames: nat)
    requires Inv(k)
    ensures Handled(k.(frame := tf, cursor := Taken(k.cursor, frames)))
  {
    PlacesKept(k.table, k.table, k.cursor, Taken(k.cursor, frames));
  }

  lemma HandleKeeps(k: Kernel, tf: TrapFrame, a: Answer)
    requires Inv(k)
    ensures k.current in k.table && Handled(Handle(k, tf, a)) && Handle(k, tf, a).current == k.current
  {
    hide Inv, Handled, HandleClone, HandleExecve, HandleWait4, Exit, Returned;
    HandleCurrent(k, tf, a);
    StoredIsFree(k);
    var k0 := k.(stored := None);
    ExitKeeps(k0, Returned(tf, 0), Signed(tf.regs[10]));
    CloneKeeps(k0, tf, a);
    ExecveKeeps(k0, tf, a);
    Wait4Keeps(k0, tf);
    PlainKeeps(k0, Returned(tf, a.value), a.frames);
  }

  /** What the last trap stored does not matter to the invariant. */
  lemma StoredIsFree(k: Kernel)
    requires Inv(k)
    ensures Inv(k.(stored := None))
  {
    hide StacksOk;
  }

  lemma HandleCurrent(k: Kernel, tf: TrapFrame, a: Answer)
    requires Inv(k)
    ensures k.current in k.table && Handle(k, tf, a).current == k.current
  {
    hide Exit, Returned, Repeated, Replaced, FindZombie, ChildFrame;
  }

  lemma ScheduleKeeps(k: Kernel)
    requires Handled(k)
    ensures Schedule(k).Going? ==> Inv(Schedule(k).k)
  {
    hide StacksOk, SamePlaces, FirstReady, NextReady;
    SchedulePlaces(k);
  }

  lemma SchedulePlaces(k: Kernel)
    requires k.current in k.table && StacksOk(k.table, k.cursor)
    ensures Schedule(k).Going? ==> StacksOk(Schedule(k).k.table, k.cursor) && Schedule(k).k.cursor == k.cursor
  {
    var r := Schedule(k);
    if r.Going? {
      assert SamePlaces(k.table, r.k.table);
      PlacesKept(k.table, r.k.table, k.cursor, k.cursor);
    }
  }

  /** Every return to user mode finds the invariant. */
  lemma {:induction false} StepKeeps(k: Kernel, e: Event)
    requires Inv(k)
    ensures Step(k, e).Going? ==> Inv(Step(k, e).k)
  {
    if e.Ecall? {
      HandleKeeps(k, e.tf, e.answer);
      ScheduleKeeps(Handle(k, e.tf, e.answer));
    }
  }

  // ---- Runs ----

  /** The kernel after a sequence of traps, if it is still going. */
  ghost function Run(k: Kernel, es: seq<Event>): Result
    requires Inv(k)
    decreases |es|
  {
    hide Handle, Schedule, StacksOk;
    if es == [] then Going(k)
    else
      StepKeeps(k, es[0]);
      match Step(k, es[0])
      case Going(k') => Run(k', es[1..])
      case r => r
  }

  /** The first process, before anything ran. */
  ghost predicate Initial(k: Kernel) {
    && k.table.Keys == {1} && k.current == 1 && k.nextPid == 2
    && k.table[1].ppid == 0 && k.table[1].state == Running
    && k.satp == k.table[1].root && k.sp == k.table[1].StackTop() - FRAME_BYTES
    && k.table[1].root < k.cursor && k.table[1].kstack + 2 <= k.cursor <= RAM_PAGES
  }

  /** The invariant holds in every state of every run. */
  lemma {:induction false} RunKeeps(k: Kernel, es: seq<Event>)
    requires Inv(k)
    ensures Run(k, es).Going? ==> Inv(Run(k, es).k)
    decreases |es|
  {
    if es != [] {
      StepKeeps(k, es[0]);
      var r := Step(k, es[0]);
      if r.Going? {
        RunKeeps(r.k, es[1..]);
      }
    }
  }

  lemma {:induction false} EveryRun(k: Kernel, es: seq<Event>)
    requires Initial(k)
    ensures Inv(k) && (Run(k, es).Going? ==> Inv(Run(k, es).k))
  {
    RunKeeps(k, es);
  }

  // ---- Context switches ----

  /** The registers a process will have when it next runs in user mode. */
  function Context(k: Kernel, p: nat): TrapFrame
    requires p in k.table
  {
    if p == k.current then k.frame else k.table[p].tf
  }

  /** Saving and switching moves registers but changes none. */
  lemma ScheduleContext(k: Kernel)
    requires k.current in k.table && Schedule(k).Going?
    ensures Schedule(k).k.table.Keys == k.table.Keys && Schedule(k).k.nextPid == k.nextPid
    ensures forall p | p in k.table :: Context(Schedule(k).k, p) == Context(k, p)
  {
    hide FirstReady;
  }

  /** A call changes the caller's registers only, and gives a new child its own. */
  lemma HandleContext(k: Kernel, tf: TrapFrame, a: Answer)
    requires Inv(k)
    ensures k.current in k.table
    ensures var h := Handle(k, tf, a);
            && h.current == k.current && h.current in h.table && k.nextPid <= h.nextPid
            && (forall p | p in h.table && p != k.current && p in k.table :: Context(h, p) == Context(k, p))
            && (forall p | p in h.table && p !in k.table ::
                  && p == k.nextPid && h.nextPid == p + 1 && tf.regs[17] == CLONE && a.ok
                  && Context(h, p) == ChildFrame(tf, tf.regs[11]))
  {
    hide StacksOk, FindZombie, Returned, Replaced, Repeated, ChildFrame;
  }

  /** Everything but a0 is as at the trap, except that the program counter moves past the ecall; a
      blocked wait4 stays in front of it, and execve sets the entry point and the stack pointer. */
  lemma OwnEffect(k: Kernel, tf: TrapFrame, a: Answer)
    requires Inv(k)
    ensures var f := Handle(k, tf, a).frame;
            && f.sstatus == tf.sstatus
            && (forall i | 0 <= i < 32 && i != 10 && i != 2 :: f.regs[i] == tf.regs[i])
            && (f.regs[2] != tf.regs[2] ==> tf.regs[17] == EXECVE && a.ok)
            && (f.sepc != (tf.sepc + 4) % WORD_LIMIT ==>
                  || (tf.regs[17] == EXECVE && a.ok && f.sepc == a.value)
                  || (tf.regs[17] == WAIT4 && f.sepc == tf.sepc && f.regs[10] == Neg(11)))
  {
    hide StacksOk, FindZombie, Exit;
  }

  /** The trap is a clone that succeeds. */
  predicate Forks(k: Kernel, tf: TrapFrame, a: Answer) {
    !IsExit(tf) && tf.regs[17] == CLONE && a.ok && k.cursor + a.frames + 3 <= RAM_PAGES
  }

  /** A fork child differs from its parent in a0, and in the stack pointer if one was given. */
  lemma ChildDiffers(k: Kernel, tf: TrapFrame, a: Answer)
    requires Inv(k) && Forks(k, tf, a)
    ensures var h := Handle(k, tf, a);
            && k.nextPid in h.table && h.table[k.nextPid].ppid == k.current
            && var c := h.table[k.nextPid].tf;
            && c.sepc == h.frame.sepc && c.sstatus == h.frame.sstatus
            && c.regs[10] == 0 && h.frame.regs[10] == k.nextPid % WORD_LIMIT
            && c.regs[2] == (if tf.regs[11] == 0 then h.frame.regs[2] else tf.regs[11])
            && forall i | 0 <= i < 32 && i != 10 && i != 2 :: c.regs[i] == h.frame.regs[i]
  {
    hide StacksOk;
  }

  /** Process `c` is an exited child of `p` that a wait4 with `asked` in a0 may take: any if that is zero or negative as a
      signed number. */
  predicate ZombieFor(t: Table, p: nat, asked: Word, c: nat) {
    c in t && t[c].ppid == p && t[c].state == Zombie && (0 < asked < 0x8000_0000_0000_0000 ==> c == asked)
  }

  /** The one of them with the smallest pid. */
  ghost predicate FirstZombieFor(t: Table, p: nat, asked: Word, z: nat) {
    ZombieFor(t, p, asked, z) && forall c: nat | ZombieFor(t, p, asked, c) :: z <= c
  }

  /** What a call returns in a0 and does to the table, by number: exit (93, 94), clone (220), execve (221), wait4 (260),
      and all others, whose result comes with the event. */
  ghost predicate Answers(k: Kernel, tf: TrapFrame, a: Answer, h: Kernel) {
    var num, a0 := tf.regs[17], h.frame.regs[10];
    if num == 93 || num == 94 then
      k.current in h.table && h.table[k.current].state == Zombie && h.table[k.current].exitCode == Signed(tf.regs[10])
    else if num == 220 then
      if a.ok && k.cursor + a.frames + 3 <= RAM_PAGES then
        a0 == k.nextPid % WORD_LIMIT && k.nextPid in h.table && h.table[k.nextPid].ppid == k.current
      else a0 == WORD_LIMIT - 1 && h.table == k.table
    else if num == 221 then
      if a.ok && k.cursor + a.frames + 1 <= RAM_PAGES then
        a0 == 0 && h.frame.sepc == a.value && h.frame.regs[2] == 0x3f_ffff_f000
      else a0 == WORD_LIMIT - (if a.value == 2 then 2 else 1) && h.table == k.table
    else if num == 260 then
      && (forall z: nat | FirstZombieFor(k.table, k.current, tf.regs[10], z) ::
            a0 == z % WORD_LIMIT && h.table == k.table - {z})
      && ((forall c: nat :: !ZombieFor(k.table, k.current, tf.regs[10], c)) ==>
            a0 == (if tf.regs[12] % 2 == 1 then 0 else WORD_LIMIT - 11) && h.table.Keys == k.table.Keys)
    else a0 == a.value && h.table == k.table
  }

  lemma Results(k: Kernel, tf: TrapFrame, a: Answer)
    requires WellFormed(k)
    ensures Answers(k, tf, a, Handle(k, tf, a))
  {
    hide StacksOk, FindZombie;
    if tf.regs[17] == 260 {
      FoundIsFirst(k, tf.regs[10]);
    }
  }

  /** The child that the scan finds is the smallest there is. */
  lemma FoundIsFirst(k: Kernel, asked: Word)
    requires WellFormed(k)
    ensures match FindZombie(k.table, k.current, Signed(asked), 0, k.nextPid)
            case None => forall c: nat :: !ZombieFor(k.table, k.current, asked, c)
            case Some(z) => FirstZombieFor(k.table, k.current, asked, z)
  {
    forall c: nat ensures ZombieFor(k.table, k.current, asked, c) <==> Reapable(k.table, k.current, Signed(asked), c) {
    }
  }

  /** One trap: the others keep their registers, the caller has those its call left. */
  lemma StepContext(k: Kernel, e: Event)
    requires Inv(k) && Step(k, e).Going?
    ensures var k' := Step(k, e).k;
            && e.Ecall? && k.current in k'.table && Context(k', k.current) == Handle(k, e.tf, e.answer).frame
            && k.nextPid <= k'.nextPid
            && (forall p | p in k'.table && p in k.table && p != k.current :: Context(k', p) == Context(k, p))
            && (forall p | p in k'.table && p !in k.table :: k.nextPid <= p)
  {
    hide Inv, Handle, Schedule;
    HandleContext(k, e.tf, e.answer);
    ScheduleContext(Handle(k, e.tf, e.answer));
  }

  /** Process `p` is not the one that traps, in any step of the run. */
  ghost predicate Inactive(k: Kernel, es: seq<Event>, p: nat)
    requires Inv(k)
    decreases |es|
  {
    es != [] ==>
      && p != k.current
      && (Step(k, es[0]).Going? ==> (StepKeeps(k, es[0]); Inactive(Step(k, es[0]).k, es[1..], p)))
  }

  /** A pid that is gone does not come back. */
  lemma {:induction false} GoneForGood(k: Kernel, es: seq<Event>, p: nat)
    requires Inv(k) && p < k.nextPid && p !in k.table
    ensures Run(k, es).Going? ==> p !in Run(k, es).k.table
    decreases |es|
  {
    if es != [] {
      StepKeeps(k, es[0]);
      var r := Step(k, es[0]);
      if r.Going? {
        StepContext(k, es[0]);
        GoneForGood(r.k, es[1..], p);
      }
    }
  }

  /** Whatever runs in between, a process that does not run keeps its registers. */
  lemma {:induction false} RunContext(k: Kernel, es: seq<Event>, p: nat)
    requires Inv(k) && p in k.table && Inactive(k, es, p)
    ensures Run(k, es).Going? && p in Run(k, es).k.table ==> Context(Run(k, es).k, p) == Context(k, p)
    decreases |es|
  {
    if es != [] {
      StepKeeps(k, es[0]);
      var r := Step(k, es[0]);
      if r.Going? {
        StepContext(k, es[0]);
        if p in r.k.table {
          RunContext(r.k, es[1..], p);
        } else {
          GoneForGood(r.k, es[1..], p);
        }
      }
    }
  }

  /** Transparency: when a process resumes, its registers are those its last trap left. */
  lemma {:induction false} ResumesAsLeft(k: Kernel, e: Event, es: seq<Event>)
    requires Inv(k) && Step(k, e).Going? && Inv(Step(k, e).k) && Inactive(Step(k, e).k, es, k.current)
    ensures var r := Run(Step(k, e).k, es);
            r.Going? && r.k.current == k.current ==> r.k.frame == Handle(k, e.tf, e.answer).frame
  {
    StepContext(k, e);
    RunContext(Step(k, e).k, es, k.current);
    RunKeeps(Step(k, e).k, es);
  }
}

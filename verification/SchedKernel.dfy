/**
 The kernel's globals and the code that updates them in place (src/trap.rs, src/proc.rs,
 src/syscall.rs), proved against the transition system of module Sched.
 */
module SchedKernel {
  import opened Base
  import opened Sched
  import opened SchedRuns

  /** `pids` holds the ready processes below `hi`, in the order of pids. */
  ghost predicate ReadyList(t: Table, hi: nat, pids: seq<nat>) {
    && (forall i | 0 <= i < |pids| :: pids[i] < hi && IsReady(t, pids[i]))
    && (forall i, j | 0 <= i < j < |pids| :: pids[i] < pids[j])
    && (forall p | 0 <= p < hi && IsReady(t, p) :: p in pids)
  }

  /** The first element above `current`, or else the first of all. */
  method Pick(pids: seq<nat>, current: nat) returns (next: nat)
    requires |pids| > 0
    ensures next in pids
    ensures if exists i :: 0 <= i < |pids| && pids[i] > current
            then next > current && exists i | 0 <= i < |pids| :: next == pids[i] && forall j | 0 <= j < i :: pids[j] <= current
            else next == pids[0]
  {
    var pos := 0;
    while pos < |pids| && pids[pos] <= current
      invariant pos <= |pids|
      invariant forall j | 0 <= j < pos :: pids[j] <= current
    {
      pos := pos + 1;
    }
    if pos == |pids| {
      pos := 0;
    }
    return pids[pos];
  }

  /** Picking from the list of ready processes is the round robin of `NextReady`. */
  lemma PickIsNext(t: Table, current: nat, hi: nat, pids: seq<nat>, next: nat)
    requires ReadyList(t, hi, pids) && |pids| > 0 && next in pids
    requires if exists i :: 0 <= i < |pids| && pids[i] > current
             then next > current && exists i | 0 <= i < |pids| :: next == pids[i] && forall j | 0 <= j < i :: pids[j] <= current
             else next == pids[0]
    ensures NextReady(t, current, hi) == Some(next)
  {
    assert IsReady(t, pids[0]);
    match FirstReady(t, current + 1, hi)
    case Some(p) =>
      assert p in pids;
      var i :| 0 <= i < |pids| && next == pids[i] && forall j | 0 <= j < i :: pids[j] <= current;
      var j :| 0 <= j < |pids| && pids[j] == p;
      assert i <= j;
    case None =>
      var p := FirstReady(t, 0, hi).value;
      assert p in pids;
  }

  lemma NoneReady(t: Table, current: nat, hi: nat, pids: seq<nat>)
    requires ReadyList(t, hi, pids)
    ensures pids == [] ==> NextReady(t, current, hi) == None
  {
  }

  /** The handler takes this result for a wait4 that blocks. */
  predicate Waits(tf: TrapFrame, ret: Word) {
    tf.regs[17] == WAIT4 && ret == Neg(11)
  }

  /** The trap frame that the handler makes of a result. */
  function Left(tf: TrapFrame, ret: Word, synced: TrapFrame): TrapFrame {
    if Waits(tf, ret) then Repeated(tf)
    else if tf.regs[17] == EXECVE && ret == 0 then
      TrapFrame(tf.regs[2 := synced.regs[2]][10 := 0], synced.sepc, tf.sstatus)
    else Returned(tf, ret)
  }

  /** The table that the transition system's exit makes is the only one with these entries. */
  lemma ExitIs(t: Table, t': Table, current: nat, code: int)
    requires current in t && t[current].ppid != current && t'.Keys == t.Keys
    requires t'[current] == t[current].(state := Zombie, exitCode := code)
    requires forall p | p in t && p != current ::
               t'[p] == if p == t[current].ppid && t[p].state == Waiting then t[p].(state := Ready) else t[p]
    ensures t' == Exit(t, current, code)
  {
  }

  /** What the last trap left in the frame does not matter. */
  lemma HandleIgnoresFrame(k: Kernel, f: TrapFrame, tf: TrapFrame, a: Answer)
    requires k.current in k.table
    ensures Handle(k.(frame := f), tf, a) == Handle(k, tf, a)
  {
    hide Exit, FindZombie, Returned, Replaced, Repeated, ChildFrame;
  }

  lemma HandleKeepsCurrent(k: Kernel, tf: TrapFrame, a: Answer)
    requires WellFormed(k)
    ensures var h := Handle(k, tf, a); h.current == k.current && h.sp == k.sp && h.current in h.table
  {
    hide Returned, Replaced, Repeated, ChildFrame;
  }

  class System {
    var table: Table
    var current: nat
    var nextPid: nat
    var satp: nat
    var sp: nat
    var frame: TrapFrame
    var cursor: nat
    /** The word that the current trap stored through a pointer of its caller. */
    var stored: Option<StatusStore>

    /** The globals as one value. */
    function View(): Kernel
      reads this
    {
      Kernel(table, current, nextPid, satp, sp, frame, cursor, stored)
    }

    constructor (k: Kernel)
      ensures View() == k
    {
      table, current, nextPid, satp := k.table, k.current, k.nextPid, k.satp;
      sp, frame, cursor, stored := k.sp, k.frame, k.cursor, k.stored;
    }

    /** The scan of `sys_wait4`. */
    method ScanZombie(want: int) returns (z: Option<nat>)
      ensures z == FindZombie(table, current, want, 0, nextPid)
    {
      var pid := 0;
      while pid < nextPid
        invariant pid <= nextPid
        invariant FindZombie(table, current, want, 0, nextPid) == FindZombie(table, current, want, pid, nextPid)
      {
        if pid in table && table[pid].ppid == current && table[pid].state == Zombie && !(want > 0 && pid != want) {
          return Some(pid);
        }
        pid := pid + 1;
      }
      return None;
    }

    /** The ready processes, as `do_schedule` collects them. */
    method ReadyPids() returns (pids: seq<nat>)
      ensures ReadyList(table, nextPid, pids)
    {
      pids := [];
      var pid := 0;
      while pid < nextPid
        invariant pid <= nextPid
        invariant ReadyList(table, pid, pids)
      {
        if pid in table && table[pid].state == Ready {
          pids := pids + [pid];
        }
        pid := pid + 1;
      }
    }

    /** `exit_process`: the current process becomes a zombie with its code, a waiting parent becomes
        ready, and nothing else changes. */
    method ExitProcess(code: int)
      requires current in table && table[current].ppid != current
      modifies this`table
      ensures table.Keys == old(table.Keys)
      ensures table[current] == old(table[current]).(state := Zombie, exitCode := code)
      ensures forall p | p in table && p != current ::
                table[p] == if p == old(table[current]).ppid && old(table[p]).state == Waiting
                            then old(table[p]).(state := Ready) else old(table[p])
    {
      var ppid := table[current].ppid;
      table := table[current := table[current].(state := Zombie, exitCode := code)];
      if ppid in table && table[ppid].state == Waiting {
        table := table[ppid := table[ppid].(state := Ready)];
      }
    }

    /** `sys_clone`: -1, or the pid of the child. */
    method SysClone(ctf: TrapFrame, a: Answer) returns (ret: Word)
      modifies this`table, this`nextPid, this`cursor
      ensures var k := HandleClone(old(View()), ctf, a);
              table == k.table && nextPid == k.nextPid && cursor == k.cursor && Returned(ctf, ret) == k.frame
    {
      if !a.ok || cursor + a.frames + 3 > RAM_PAGES {
        cursor := Taken(cursor, a.frames);
        return Neg(1);
      }
      var root := cursor;
      var kstack := cursor + a.frames + 1;
      cursor := kstack + 2;
      var childTf := ctf.(regs := ctf.regs[10 := 0], sepc := (ctf.sepc + 4) % WORD_LIMIT);
      var pid := nextPid;
      nextPid := nextPid + 1;
      table := table[pid := Proc(current, Ready, root, childTf, kstack, 0)];
      if ctf.regs[11] != 0 {
        table := table[pid := table[pid].(tf := table[pid].tf.(regs := table[pid].tf.regs[2 := ctf.regs[11]]))];
      }
      return pid % WORD_LIMIT;
    }

    /** `sys_wait4`: the pid of the reaped child, 0, or -11. */
    method SysWait4(ctf: TrapFrame) returns (ret: Word)
      requires WellFormed(View()) && stored == None
      modifies this`table, this`stored
      ensures match FindZombie(old(table), current, Signed(ctf.regs[10]), 0, nextPid)
              case Some(z) =>
                && ret == z % WORD_LIMIT && table == old(table) - {z}
                && stored == if ctf.regs[11] == 0 then None
                             else Some(StatusStore(ctf.regs[11], Status(old(table)[z].exitCode)))
              case None => table == old(table) && stored == None && ret == if ctf.regs[12] % 2 == 1 then 0 else Neg(11)
    {
      var z := ScanZombie(Signed(ctf.regs[10]));
      if z.Some? {
        if ctf.regs[11] != 0 {
          stored := Some(StatusStore(ctf.regs[11], Status(table[z.value].exitCode)));
        }
        table := table - {z.value};
        return z.value % WORD_LIMIT;
      }
      return if ctf.regs[12] % 2 == 1 then 0 else Neg(11);
    }

    /** `sys_execve`: -1 or -2, or 0 with the new table in place. */
    method SysExecve(ctf: TrapFrame, a: Answer) returns (ret: Word, synced: TrapFrame)
      requires current in table
      modifies this`table, this`satp, this`cursor
      ensures ret == if a.ok && old(cursor) + a.frames + 1 <= RAM_PAGES then 0 else Neg(if a.value == 2 then 2 else 1)
      ensures ret == 0 ==> synced.sepc == a.value && synced.regs[2] == STACK_TOP
      ensures var k := HandleExecve(old(View()), ctf, a); table == k.table && satp == k.satp && cursor == k.cursor
    {
      if !a.ok || cursor + a.frames + 1 > RAM_PAGES {
        cursor := Taken(cursor, a.frames);
        return Neg(if a.value == 2 then 2 else 1), ctf;
      }
      var root := cursor;
      cursor := cursor + a.frames + 1;
      table := table[current := table[current].(root := root)];
      satp := root;
      return 0, TrapFrame(ctf.regs[2 := STACK_TOP], a.value, ctf.sstatus);
    }

    /** `dispatch`, for the calls that concern the process table; `synced` is the trap frame that
        execve leaves for the handler. */
    method Dispatch(tf: TrapFrame, a: Answer) returns (ret: Word, synced: TrapFrame)
      requires WellFormed(View()) && nextPid <= 0x8000_0000_0000_0000
      modifies this`table, this`nextPid, this`satp, this`cursor, this`stored
      ensures var k := Handle(old(View()), tf, a);
              && stored == k.stored && nextPid == k.nextPid && satp == k.satp && cursor == k.cursor && Left(tf, ret, synced) == k.frame
              && table.Keys == k.table.Keys
              && k.table == if Waits(tf, ret) then table[current := table[current].(state := Waiting)] else table
    {
      hide FindZombie, Exit, ChildFrame;
      var num := tf.regs[17];
      stored := None;
      synced := tf;
      if num == 93 || num == 94 {
        ExitProcess(Signed(tf.regs[10]));
        ExitIs(old(table), table, current, Signed(tf.regs[10]));
        ret := 0;
      } else if num == CLONE {
        ret := SysClone(tf, a);
      } else if num == EXECVE {
        ret, synced := SysExecve(tf, a);
      } else if num == WAIT4 {
        ret := SysWait4(tf);
      } else {
        cursor := Taken(cursor, a.frames);
        ret := a.value;
      }
    }

    /** The ecall branch of `rust_trap_handler`. */
    method TrapHandler(tf: TrapFrame, a: Answer)
      requires WellFormed(View()) && nextPid <= 0x8000_0000_0000_0000
      modifies this
      ensures View() == Handle(old(View()), tf, a) && Answers(old(View()), tf, a, View())
    {
      hide Handle, Answers;
      Results(View(), tf, a);
      HandleKeepsCurrent(View(), tf, a);
      var num := tf.regs[17];
      frame := tf;
      if num != EXECVE {
        frame := frame.(sepc := (frame.sepc + 4) % WORD_LIMIT);
      }
      HandleIgnoresFrame(old(View()), frame, tf, a);
      var ret, synced := Dispatch(tf, a);
      if num == WAIT4 && ret == Neg(11) {
        frame := frame.(sepc := (frame.sepc + WORD_LIMIT - 4) % WORD_LIMIT);
        table := table[current := table[current].(state := Waiting)];
      } else if num == EXECVE && ret == 0 {
        frame := frame.(sepc := synced.sepc, regs := frame.regs[2 := synced.regs[2]]);
      } else if num == EXECVE {
        frame := frame.(sepc := (frame.sepc + 4) % WORD_LIMIT);
      }
      frame := frame.(regs := frame.regs[10 := ret]);
    }

    /** Step 1 of `do_schedule`. */
    method SaveCurrent()
      requires current in table
      modifies this`table
      ensures table == Saved(old(View())) && table.Keys == old(table.Keys)
    {
      if table[current].state == Running {
        table := table[current := table[current].(state := Ready)];
      }
      table := table[current := table[current].(tf := frame)];
    }

    /** Step 3 of `do_schedule`. */
    method SwitchTo(next: nat)
      requires next in table
      modifies this
      ensures View() == old(View()).(table := table, current := next, satp := old(table[next].root),
                                     sp := old(table[next].StackTop()) - FRAME_BYTES, frame := old(table[next].tf))
      ensures table == old(table[next := table[next].(state := Running)])
    {
      table := table[next := table[next].(state := Running)];
      current := next;
      satp := table[next].root;
      sp := table[next].StackTop() - FRAME_BYTES;
      frame := table[next].tf;
    }

    /** `do_schedule`; false if it shuts the machine down. */
    method DoSchedule() returns (going: bool)
      requires current in table
      modifies this
      ensures Schedule(old(View())) == if going then Going(View()) else Shutdown
    {
      hide Saved, FirstReady, Proc.StackTop;
      SaveCurrent();
      var pids := ReadyPids();
      NoneReady(table, current, nextPid, pids);
      if pids == [] {
        if table[current].state == Zombie {
          return false;
        }
        table := table[current := table[current].(state := Running)];
        return true;
      }
      var next := Pick(pids, current);
      PickIsNext(table, current, nextPid, pids, next);
      if next != current {
        SwitchTo(next);
      }
      return true;
    }

    /** One trap from user mode: the handler, then the scheduler. */
    method Trap(e: Event) returns (r: Result)
      requires Inv(View()) && nextPid <= 0x8000_0000_0000_0000
      modifies this
      ensures r == Step(old(View()), e)
      ensures r.Going? ==> r.k == View() && Inv(View())
    {
      if e.Fault? {
        return Hang;
      }
      HandleKeeps(View(), e.tf, e.answer);
      StepKeeps(View(), e);
      hide StacksOk, Handle, Schedule;
      TrapHandler(e.tf, e.answer);
      var going := DoSchedule();
      return if going then Going(View()) else Shutdown;
    }
  }
}

/**
 Blocking wait4 over every run: no wakeup is lost, and if nobody waits without a child the system
 neither deadlocks nor shuts down early.
 */
module Wakeup {
  import opened Base
  import opened Sched
  import opened SchedRuns

  /** The pid each blocked wait4 asked for, and the processes that a child's exit has woken and that
      have not run since. */
  datatype Waits = Waits(asked: map<nat, int>, woken: set<nat>)

  /** The trap is a wait4 that blocks. */
  predicate Blocks(k: Kernel, tf: TrapFrame) {
    && !IsExit(tf) && tf.regs[17] == WAIT4 && tf.regs[12] % 2 == 0
    && FindZombie(k.table, k.current, Signed(tf.regs[10]), 0, k.nextPid).None?
  }

  /** The trap is an exit that wakes the parent. */
  predicate Wakes(k: Kernel, tf: TrapFrame)
    requires k.current in k.table
  {
    var parent := k.table[k.current].ppid;
    IsExit(tf) && parent in k.table && k.table[parent].state == Waiting
  }

  function Note(k: Kernel, tf: TrapFrame, w: Waits): Waits
    requires k.current in k.table
  {
    var rest := Waits(w.asked, w.woken - {k.current});
    if Wakes(k, tf) then rest.(woken := rest.woken + {k.table[k.current].ppid})
    else if Blocks(k, tf) then rest.(asked := rest.asked[k.current := Signed(tf.regs[10])])
    else rest
  }

  /** The registers of a process that is about to repeat a blocking wait4, for any child. */
  predicate Suspended(f: TrapFrame) {
    f.regs[17] == WAIT4 && f.regs[10] == Neg(11) && f.regs[12] % 2 == 0
  }

  ghost predicate NoneToReap(t: Table, p: nat, want: int) {
    forall c :: !Reapable(t, p, want, c)
  }

  ghost predicate SomeToReap(t: Table, p: nat) {
    exists c :: Reapable(t, p, -11, c)
  }

  ghost predicate ProcWaits(k: Kernel, w: Waits, p: nat)
    requires p in k.table
  {
    && (k.table[p].state == Waiting ==>
          p in w.asked && NoneToReap(k.table, p, w.asked[p]) && Suspended(Context(k, p)))
    && (p in w.woken ==>
          && (k.table[p].state == Ready || k.table[p].state == Running)
          && SomeToReap(k.table, p) && Suspended(Context(k, p)))
  }

  /** No lost wakeup: a waiting process has no zombie child that its blocked call asked for, and a woken
      one has a zombie child and is about to repeat its call. */
  ghost predicate WakeOk(k: Kernel, w: Waits) {
    && (forall p | p in k.table :: ProcWaits(k, w, p))
    && (forall p | p in w.woken :: p in k.table)
  }

  // ---- The calls ----

  /** After an exit there is one more zombie. */
  lemma ExitReapable(t: Table, cur: nat, code: int, p: nat, want: int, c: nat)
    requires cur in t && t[cur].state != Zombie
    ensures Reapable(Exit(t, cur, code), p, want, c) <==>
              Reapable(t, p, want, c) || (c == cur && t[cur].ppid == p && (want > 0 ==> c == want))
  {
  }

  lemma ExitWakes(k: Kernel, tf: TrapFrame, a: Answer, w: Waits)
    requires Inv(k) && WakeOk(k, w) && IsExit(tf)
    ensures WakeOk(Handle(k, tf, a), Note(k, tf, w))
  {
    var k', w' := Handle(k, tf, a), Note(k, tf, w);
    forall p | p in k'.table ensures ProcWaits(k', w', p) {
      ExitWakesOne(k, tf, a, w, p);
    }
  }

  lemma ExitWakesOne(k: Kernel, tf: TrapFrame, a: Answer, w: Waits, p: nat)
    requires Inv(k) && IsExit(tf) && p in k.table && ProcWaits(k, w, p)
    ensures ProcWaits(Handle(k, tf, a), Note(k, tf, w), p)
  {
    hide StacksOk, Returned, Suspended, Reapable;
    var t, cur, code := k.table, k.current, Signed(tf.regs[10]);
    var t', w' := Exit(t, cur, code), Note(k, tf, w);
    if t'[p].state == Waiting {
      forall c ensures !Reapable(t', p, w'.asked[p], c) {
        ExitReapable(t, cur, code, p, w'.asked[p], c);
      }
    }
    if p in w'.woken {
      if p in w.woken {
        var c :| Reapable(t, p, -11, c);
        ExitReapable(t, cur, code, p, -11, c);
      } else {
        ExitReapable(t, cur, code, p, -11, cur);
      }
    }
  }

  /** The same zombies, with the same parents. */
  ghost predicate SameZombies(t: Table, t': Table) {
    forall c, p :: Reapable(t', p, 0, c) <==> Reapable(t, p, 0, c)
  }

  lemma SameToReap(t: Table, t': Table, p: nat, want: int)
    requires SameZombies(t, t')
    ensures NoneToReap(t, p, want) ==> NoneToReap(t', p, want)
    ensures SomeToReap(t, p) ==> SomeToReap(t', p)
  {
    forall c ensures Reapable(t', p, want, c) <==> Reapable(t, p, want, c)
             ensures Reapable(t', p, -11, c) <==> Reapable(t, p, -11, c) {
      assert Reapable(t', p, 0, c) <==> Reapable(t, p, 0, c);
    }
  }

  /** A process whose own condition did not change, while the zombies stayed the same. */
  lemma WaitsKept(k: Kernel, k': Kernel, w: Waits, w': Waits, p: nat)
    requires p in k.table && p in k'.table && SameZombies(k.table, k'.table) && ProcWaits(k, w, p)
    requires k'.table[p].state == Waiting ==>
               k.table[p].state == Waiting && p in w'.asked && p in w.asked && w'.asked[p] == w.asked[p]
    requires p in w'.woken ==> p in w.woken && (k'.table[p].state == Ready || k'.table[p].state == Running)
    requires Context(k', p) == Context(k, p)
    ensures ProcWaits(k', w', p)
  {
    hide SameZombies, NoneToReap, SomeToReap, Suspended, Context;
    SameToReap(k.table, k'.table, p, if p in w.asked then w.asked[p] else 0);
  }

  /** Clone, execve, and the calls that do not concern the table. */
  lemma OtherWakes(k: Kernel, tf: TrapFrame, a: Answer, w: Waits)
    requires Inv(k) && WakeOk(k, w) && !IsExit(tf) && tf.regs[17] != WAIT4
    ensures WakeOk(Handle(k, tf, a), Note(k, tf, w))
  {
    hide StacksOk, Returned, Replaced, ChildFrame, NoneToReap, SomeToReap, Suspended, FindZombie;
    var k', w' := Handle(k, tf, a), Note(k, tf, w);
    assert SameZombies(k.table, k'.table);
    forall p | p in k'.table ensures ProcWaits(k', w', p) {
      if p in k.table && p != k.current {
        WaitsKept(k, k', w, w', p);
      } else {
        assert p !in w'.woken;
        assert k'.table[p].state != Waiting;
      }
    }
  }

  /** A wait4 that blocks or returns at once. */
  lemma IdleWaitWakes(k: Kernel, tf: TrapFrame, a: Answer, w: Waits)
    requires Inv(k) && WakeOk(k, w) && !IsExit(tf) && tf.regs[17] == WAIT4
    requires FindZombie(k.table, k.current, Signed(tf.regs[10]), 0, k.nextPid).None?
    ensures WakeOk(Handle(k, tf, a), Note(k, tf, w))
  {
    hide StacksOk, Returned, SomeToReap;
    var k', w' := Handle(k, tf, a), Note(k, tf, w);
    assert SameZombies(k.table, k'.table);
    forall p | p in k'.table ensures ProcWaits(k', w', p) {
      if p != k.current {
        WaitsKept(k, k', w, w', p);
      } else {
        forall c ensures !Reapable(k'.table, p, Signed(tf.regs[10]), c) {
          assert !Reapable(k.table, p, Signed(tf.regs[10]), c);
        }
      }
    }
  }

  /** A wait4 that reaps: the zombie children of the others are still there. */
  lemma ReapWakes(k: Kernel, tf: TrapFrame, a: Answer, w: Waits)
    requires Inv(k) && WakeOk(k, w) && !IsExit(tf) && tf.regs[17] == WAIT4
    requires FindZombie(k.table, k.current, Signed(tf.regs[10]), 0, k.nextPid).Some?
    ensures WakeOk(Handle(k, tf, a), Note(k, tf, w))
  {
    hide StacksOk, Returned, Suspended;
    var k', w' := Handle(k, tf, a), Note(k, tf, w);
    forall p | p in k'.table ensures ProcWaits(k', w', p) {
      assert ProcWaits(k, w, p);
      if k'.table[p].state == Waiting {
        forall c ensures !Reapable(k'.table, p, w'.asked[p], c) {
          assert !Reapable(k.table, p, w.asked[p], c);
        }
      }
      if p in w'.woken {
        var c :| Reapable(k.table, p, -11, c);
        assert Reapable(k'.table, p, -11, c);
      }
    }
  }

  lemma HandleWakes(k: Kernel, tf: TrapFrame, a: Answer, w: Waits)
    requires Inv(k) && WakeOk(k, w)
    ensures k.current in k.table && WakeOk(Handle(k, tf, a), Note(k, tf, w))
  {
    HandleCurrent(k, tf, a);
    hide Inv, WakeOk, Handle, Note;
    if IsExit(tf) {
      ExitWakes(k, tf, a, w);
    } else if tf.regs[17] != WAIT4 {
      OtherWakes(k, tf, a, w);
    } else if FindZombie(k.table, k.current, Signed(tf.regs[10]), 0, k.nextPid).None? {
      IdleWaitWakes(k, tf, a, w);
    } else {
      ReapWakes(k, tf, a, w);
    }
  }

  /** The scheduler makes nobody wait and no zombie. */
  lemma ScheduleStates(k: Kernel)
    requires k.current in k.table && Schedule(k).Going?
    ensures var t' := Schedule(k).k.table;
            && SameZombies(k.table, t')
            && forall p | p in k.table ::
                 && p in t' && (t'[p].state == Waiting ==> k.table[p].state == Waiting)
                 && (k.table[p].state == Ready || k.table[p].state == Running ==> t'[p].state == Ready || t'[p].state == Running)
  {
    hide FirstReady;
  }

  lemma ScheduleWakes(k: Kernel, w: Waits)
    requires k.current in k.table && Schedule(k).Going? && WakeOk(k, w)
    ensures WakeOk(Schedule(k).k, w)
  {
    hide Schedule, SameZombies, NoneToReap, SomeToReap, Suspended;
    var k' := Schedule(k).k;
    ScheduleContext(k);
    ScheduleStates(k);
    forall p | p in k'.table ensures ProcWaits(k', w, p) {
      WaitsKept(k, k', w, w, p);
    }
  }

  lemma {:induction false} StepWakes(k: Kernel, e: Event, w: Waits)
    requires Inv(k) && WakeOk(k, w) && Step(k, e).Going?
    ensures e.Ecall? && k.current in k.table && WakeOk(Step(k, e).k, Note(k, e.tf, w))
  {
    HandleKeeps(k, e.tf, e.answer);
    hide Inv, WakeOk, Handle, Schedule, Note;
    HandleWakes(k, e.tf, e.answer, w);
    ScheduleWakes(Handle(k, e.tf, e.answer), Note(k, e.tf, w));
  }

  /** A woken process that repeats its wait4 finds a child to reap. */
  lemma WokenReaps(k: Kernel, w: Waits)
    requires Inv(k) && WakeOk(k, w) && k.current in w.woken
    ensures k.frame.regs[17] == WAIT4 && !Blocks(k, k.frame)
    ensures FindZombie(k.table, k.current, Signed(k.frame.regs[10]), 0, k.nextPid).Some?
  {
    assert ProcWaits(k, w, k.current);
    var c :| Reapable(k.table, k.current, -11, c);
    assert Reapable(k.table, k.current, Signed(k.frame.regs[10]), c);
  }

  // ---- Deadlock freedom ----

  /** Process `c` is a child of `p` that has not exited. */
  predicate Live(t: Table, p: nat, c: nat) {
    c in t && t[c].ppid == p && t[c].state != Zombie
  }

  /** A blocking wait4 is issued only by a process that has a live child, whichever it asks for. */
  ghost predicate Careful(k: Kernel, e: Event) {
    e.Ecall? && Blocks(k, e.tf) ==> exists c :: Live(k.table, k.current, c)
  }

  ghost predicate AwaitsLive(t: Table, p: nat)
    requires p in t
  {
    t[p].state == Waiting ==> exists c :: Live(t, p, c)
  }

  /** Every waiting process has a child that has not exited. */
  ghost predicate Awaited(t: Table) {
    forall p | p in t :: AwaitsLive(t, p)
  }

  lemma HandleAwaits(k: Kernel, tf: TrapFrame, a: Answer)
    requires Inv(k) && Awaited(k.table) && Careful(k, Ecall(tf, a))
    ensures Awaited(Handle(k, tf, a).table)
  {
    var t' := Handle(k, tf, a).table;
    forall p | p in t' ensures AwaitsLive(t', p) {
      HandleAwaitsOne(k, tf, a, p);
    }
  }

  /** A call leaves the other live processes alone, except that an exit wakes a waiting parent. */
  lemma OthersKept(k: Kernel, tf: TrapFrame, a: Answer, q: nat)
    requires Inv(k) && q in k.table && q != k.current && k.table[q].state != Zombie
    ensures var t, t' := k.table, Handle(k, tf, a).table;
            && q in t' && t'[q].ppid == t[q].ppid && t'[q].state != Zombie
            && (if IsExit(tf) && t[k.current].ppid == q && t[q].state == Waiting then t'[q].state == Ready
                else t'[q].state == t[q].state)
  {
    hide StacksOk, FindZombie, Returned, Replaced, Repeated, ChildFrame;
  }

  /** What becomes of the caller and of new processes. */
  lemma CallerKept(k: Kernel, tf: TrapFrame, a: Answer)
    requires Inv(k)
    ensures var t, t' := k.table, Handle(k, tf, a).table;
            && k.current in t' && t'[k.current].ppid == t[k.current].ppid
            && (t'[k.current].state == Zombie <==> IsExit(tf)) && (t'[k.current].state == Waiting <==> Blocks(k, tf))
            && (forall p | p in t' && p !in t :: t'[p].state == Ready && t'[p].ppid == k.current)
            && (forall p | p in t' && p in t && p != k.current && t[p].state == Zombie ::
                  t'[p].state == Zombie && t'[p].ppid == t[p].ppid)
  {
    hide StacksOk, FindZombie, Returned, Replaced, Repeated, ChildFrame;
  }

  lemma HandleAwaitsOne(k: Kernel, tf: TrapFrame, a: Answer, p: nat)
    requires Inv(k) && Awaited(k.table) && Careful(k, Ecall(tf, a)) && p in Handle(k, tf, a).table
    ensures AwaitsLive(Handle(k, tf, a).table, p)
  {
    hide StacksOk, Handle;
    var t, t' := k.table, Handle(k, tf, a).table;
    CallerKept(k, tf, a);
    if t'[p].state == Waiting {
      if p != k.current {
        OthersKept(k, tf, a, p);
        assert AwaitsLive(t, p);
      }
      var c :| Live(t, p, c);
      if c != k.current {
        OthersKept(k, tf, a, c);
      }
      assert Live(t', p, c);
    }
  }

  lemma ScheduleAwaits(k: Kernel)
    requires k.current in k.table && Schedule(k).Going? && Awaited(k.table)
    ensures Awaited(Schedule(k).k.table)
  {
    hide FirstReady;
    var t, t' := k.table, Schedule(k).k.table;
    forall p | p in t' ensures AwaitsLive(t', p) {
      assert AwaitsLive(t, p);
      if t'[p].state == Waiting {
        var c :| Live(t, p, c);
        assert Live(t', p, c);
      }
    }
  }

  /** If nobody is ready or running, nobody is waiting either: the child of a waiting process would be
      waiting too, and it has a larger pid. */
  lemma {:induction false} NobodyWaits(t: Table, nextPid: nat, p: nat)
    requires Awaited(t) && (forall q | q in t :: t[q].ppid < q < nextPid)
    requires forall q | q in t :: t[q].state != Ready && t[q].state != Running
    requires p in t
    ensures t[p].state == Zombie
    decreases nextPid - p
  {
    assert AwaitsLive(t, p);
    if t[p].state == Waiting {
      var c :| Live(t, p, c);
      NobodyWaits(t, nextPid, c);
    }
  }

  ghost predicate AllZombie(t: Table) {
    forall p | p in t :: t[p].state == Zombie
  }

  /** The scheduler finds nobody ready after the call. */
  predicate NobodyReady(k: Kernel, e: Event)
    requires k.current in k.table && e.Ecall?
  {
    var h := Handle(k, e.tf, e.answer);
    h.current in h.table && NextReady(Saved(h), h.current, h.nextPid).None?
  }

  /** The scheduler falls back on a process that is waiting. */
  predicate FallsBack(k: Kernel, e: Event)
    requires k.current in k.table
  {
    e.Ecall? && NobodyReady(k, e) && k.current in Handle(k, e.tf, e.answer).table
    && Handle(k, e.tf, e.answer).table[k.current].state == Waiting
  }

  /** The step neither falls back nor shuts down with unfinished processes. */
  ghost predicate SafeStep(k: Kernel, e: Event)
    requires WellFormed(k)
  {
    && !FallsBack(k, e)
    && (Step(k, e).Shutdown? ==> e.Ecall? && AllZombie(Handle(k, e.tf, e.answer).table))
  }

  lemma NobodyReadyAllZombie(h: Kernel)
    requires Handled(h) && Awaited(h.table) && NextReady(Saved(h), h.current, h.nextPid).None?
    ensures AllZombie(h.table)
  {
    hide StacksOk;
    forall q | q in h.table ensures h.table[q].state != Ready && h.table[q].state != Running {
      assert !IsReady(Saved(h), q);
    }
    forall p | p in h.table ensures h.table[p].state == Zombie {
      NobodyWaits(h.table, h.nextPid, p);
    }
  }

  lemma {:induction false} StepSafe(k: Kernel, e: Event)
    requires Inv(k) && Awaited(k.table) && Careful(k, e)
    ensures SafeStep(k, e)
    ensures Step(k, e).Going? ==> e.Ecall? && Awaited(Step(k, e).k.table)
  {
    if e.Ecall? {
      HandleKeeps(k, e.tf, e.answer);
      HandleAwaits(k, e.tf, e.answer);
      var h := Handle(k, e.tf, e.answer);
      if NextReady(Saved(h), h.current, h.nextPid).None? {
        NobodyReadyAllZombie(h);
      }
      if Schedule(h).Going? {
        ScheduleAwaits(h);
      }
    }
  }

  // ---- Over every run ----

  ghost function WaitsAfter(k: Kernel, es: seq<Event>, w: Waits): Waits
    requires Inv(k)
    decreases |es|
  {
    hide Handle, Schedule, StacksOk;
    if es == [] || es[0].Fault? || !Step(k, es[0]).Going? then w
    else
      StepKeeps(k, es[0]);
      WaitsAfter(Step(k, es[0]).k, es[1..], Note(k, es[0].tf, w))
  }

  lemma {:induction false} RunWakes(k: Kernel, es: seq<Event>, w: Waits)
    requires Inv(k) && WakeOk(k, w) && Run(k, es).Going?
    ensures WakeOk(Run(k, es).k, WaitsAfter(k, es, w))
    decreases |es|
  {
    hide Handle, Schedule, StacksOk, WakeOk, Note;
    if es != [] {
      StepKeeps(k, es[0]);
      StepWakes(k, es[0], w);
      RunWakes(Step(k, es[0]).k, es[1..], Note(k, es[0].tf, w));
    }
  }

  /** No wakeup is ever lost, in any run of the system. */
  lemma {:induction false} NoLostWakeup(k: Kernel, es: seq<Event>)
    requires Initial(k) && Inv(k) && Run(k, es).Going?
    ensures WakeOk(Run(k, es).k, WaitsAfter(k, es, Waits(map[], {})))
  {
    hide Run, WaitsAfter;
    RunWakes(k, es, Waits(map[], {}));
  }

  /** Every blocking wait4 of the run is issued by a process with a live child. */
  ghost predicate CarefulRun(k: Kernel, es: seq<Event>)
    requires Inv(k)
    decreases |es|
  {
    hide Handle, Schedule, StacksOk, Careful;
    es != [] ==>
      && Careful(k, es[0])
      && (Step(k, es[0]).Going? ==> (StepKeeps(k, es[0]); CarefulRun(Step(k, es[0]).k, es[1..])))
  }

  ghost predicate SafeRun(k: Kernel, es: seq<Event>)
    requires Inv(k)
    decreases |es|
  {
    hide Handle, Schedule, StacksOk, SafeStep;
    es != [] ==>
      && SafeStep(k, es[0])
      && (Step(k, es[0]).Going? ==> (StepKeeps(k, es[0]); SafeRun(Step(k, es[0]).k, es[1..])))
  }

  lemma {:induction false} RunSafe(k: Kernel, es: seq<Event>)
    requires Inv(k) && Awaited(k.table) && CarefulRun(k, es)
    ensures SafeRun(k, es)
    decreases |es|
  {
    hide Handle, Schedule, StacksOk, Awaited, Careful, SafeStep;
    if es != [] {
      StepSafe(k, es[0]);
      if Step(k, es[0]).Going? {
        StepKeeps(k, es[0]);
        RunSafe(Step(k, es[0]).k, es[1..]);
      }
    }
  }

  /** Deadlock freedom: if nobody waits without a live child, the scheduler never falls back on a
      waiting process, and the system shuts down only when every process has exited. */
  lemma {:induction false} DeadlockFree(k: Kernel, es: seq<Event>)
    requires Initial(k) && Inv(k) && CarefulRun(k, es)
    ensures SafeRun(k, es)
  {
    hide SafeRun, CarefulRun;
    RunSafe(k, es);
  }

  /** The hypothesis matters: a lone process that waits without a child is run again at once, with the
      same registers, and repeats its call for ever. */
  lemma ChildlessWaitSpins(k: Kernel, tf: TrapFrame, a: Answer)
    requires Initial(k) && Inv(k) && tf.regs[17] == WAIT4 && tf.regs[12] % 2 == 0
    ensures FallsBack(k, Ecall(tf, a)) && Step(k, Ecall(tf, a)).Going?
    ensures var k' := Step(k, Ecall(tf, a)).k;
            Inv(k') && k'.frame == Repeated(tf) && Step(k', Ecall(k'.frame, a)) == Going(k')
  {
    var h := Handle(k, tf, a);
    assert h.table.Keys == {1};
    assert h.table[1].state == Waiting;
    StepKeeps(k, Ecall(tf, a));
    var k' := Step(k, Ecall(tf, a)).k;
    assert k'.table.Keys == {1};
    assert Repeated(k'.frame) == k'.frame;
  }

  /** Process `p` waits and all its children have exited. */
  ghost predicate Stranded(t: Table, p: nat) {
    p in t && t[p].state == Waiting && forall c :: !Live(t, p, c)
  }

  lemma HandleStrands(k: Kernel, tf: TrapFrame, a: Answer, p: nat)
    requires Inv(k) && Stranded(k.table, p)
    ensures Stranded(Handle(k, tf, a).table, p)
  {
    hide StacksOk, Handle;
    var t, t' := k.table, Handle(k, tf, a).table;
    CallerKept(k, tf, a);
    OthersKept(k, tf, a, p);
    assert !Live(t, p, k.current);
    forall c ensures !Live(t', p, c) {
      assert !Live(t, p, c);
      if c in t && c != k.current && t[c].state != Zombie {
        OthersKept(k, tf, a, c);
      }
    }
  }

  lemma ScheduleStrands(k: Kernel, p: nat)
    requires k.current in k.table && k.current != p && Schedule(k).Going? && Stranded(k.table, p)
    ensures Stranded(Schedule(k).k.table, p)
  {
    hide FirstReady;
    forall c ensures !Live(Schedule(k).k.table, p, c) {
      assert !Live(k.table, p, c);
    }
  }

  /** The hypothesis cannot be weakened: a process that waits while it has no live child is never woken
      and never runs again, in any run. */
  lemma {:induction false} StrandedForGood(k: Kernel, es: seq<Event>, p: nat)
    requires Inv(k) && Stranded(k.table, p)
    ensures Run(k, es).Going? ==> Stranded(Run(k, es).k.table, p) && Run(k, es).k.current != p
    decreases |es|
  {
    hide Handle, Schedule, StacksOk, Stranded;
    StrandedIsNotCurrent(k, p);
    if es != [] && Step(k, es[0]).Going? {
      HandleKeeps(k, es[0].tf, es[0].answer);
      HandleStrands(k, es[0].tf, es[0].answer, p);
      ScheduleStrands(Handle(k, es[0].tf, es[0].answer), p);
      StepKeeps(k, es[0]);
      StrandedForGood(Step(k, es[0]).k, es[1..], p);
    }
  }

  lemma StrandedIsNotCurrent(k: Kernel, p: nat)
    requires Inv(k) && Stranded(k.table, p)
    ensures k.current != p
  {
  }

  // ---- The hypothesis is exact ----

  /** A waiting process has a live child exactly if it is not stranded. */
  lemma AwaitedIsNotStranded(t: Table)
    ensures Awaited(t) <==> forall p :: !Stranded(t, p)
  {
    if forall p :: !Stranded(t, p) {
      forall p | p in t ensures AwaitsLive(t, p) {
        assert !Stranded(t, p);
      }
    }
    forall p | Stranded(t, p) ensures !Awaited(t) {
      assert !AwaitsLive(t, p);
    }
  }

  /** A call made while nobody is stranded leaves nobody stranded exactly if it is careful. */
  lemma CarefulExactly(k: Kernel, tf: TrapFrame, a: Answer)
    requires Inv(k) && Awaited(k.table)
    ensures Careful(k, Ecall(tf, a)) <==> Awaited(Handle(k, tf, a).table)
  {
    hide StacksOk, Handle, Blocks;
    if Careful(k, Ecall(tf, a)) {
      HandleAwaits(k, tf, a);
    } else {
      CarelessStrands(k, tf, a);
      assert !AwaitsLive(Handle(k, tf, a).table, k.current);
    }
  }

  lemma CarelessStrands(k: Kernel, tf: TrapFrame, a: Answer)
    requires Inv(k) && !Careful(k, Ecall(tf, a))
    ensures Stranded(Handle(k, tf, a).table, k.current)
  {
    hide StacksOk, Handle, Blocks;
    CallerKept(k, tf, a);
    var t, t' := k.table, Handle(k, tf, a).table;
    BlocksKeeps(k, tf, a);
    forall c ensures !Live(t', k.current, c) {
      assert !Live(t, k.current, c);
    }
  }

  lemma BlocksKeeps(k: Kernel, tf: TrapFrame, a: Answer)
    requires Inv(k) && Blocks(k, tf)
    ensures var h := Handle(k, tf, a);
            && h == k.(table := k.table[k.current := k.table[k.current].(state := Waiting)], frame := Repeated(tf),
                       stored := None)
            && h.table.Keys == k.table.Keys
  {
    hide StacksOk, FindZombie, Repeated;
  }

  /** After no call of the run is a process stranded. */
  ghost predicate NobodyStranded(k: Kernel, es: seq<Event>)
    requires Inv(k)
    decreases |es|
  {
    hide Handle, Schedule, StacksOk;
    es != [] ==>
      && (es[0].Ecall? ==> forall p :: !Stranded(Handle(k, es[0].tf, es[0].answer).table, p))
      && (Step(k, es[0]).Going? ==> (StepKeeps(k, es[0]); NobodyStranded(Step(k, es[0]).k, es[1..])))
  }

  lemma {:induction false} RunExactly(k: Kernel, es: seq<Event>)
    requires Inv(k) && Awaited(k.table)
    ensures CarefulRun(k, es) <==> NobodyStranded(k, es)
    decreases |es|
  {
    hide Handle, Schedule, StacksOk, Awaited, Stranded, Blocks;
    if es != [] && es[0].Ecall? {
      var h := Handle(k, es[0].tf, es[0].answer);
      CarefulExactly(k, es[0].tf, es[0].answer);
      AwaitedIsNotStranded(h.table);
      if Careful(k, es[0]) && Step(k, es[0]).Going? {
        HandleKeeps(k, es[0].tf, es[0].answer);
        ScheduleAwaits(h);
        StepKeeps(k, es[0]);
        RunExactly(Step(k, es[0]).k, es[1..]);
      }
    }
  }

  /** From the first process on, nobody is ever left waiting without a live child if and only if every blocking
      wait4 is issued by a process that has one. */
  lemma {:induction false} CarefulRunExactly(k: Kernel, es: seq<Event>)
    requires Initial(k) && Inv(k)
    ensures CarefulRun(k, es) <==> NobodyStranded(k, es)
  {
    hide NobodyStranded, CarefulRun;
    RunExactly(k, es);
  }

  /** What a careless call comes to. If another process is ready, the caller never runs again, whatever the rest of the
      run is. If not, it repeats its call at once; with an exited child that it had not asked for it now
      takes that one, and with none it repeats the call for ever. */
  lemma {:induction false} CarelessForGood(k: Kernel, tf: TrapFrame, a: Answer, es: seq<Event>)
    requires Inv(k) && !Careful(k, Ecall(tf, a))
    ensures Step(k, Ecall(tf, a)).Going? && Inv(Step(k, Ecall(tf, a)).k)
    ensures var k' := Step(k, Ecall(tf, a)).k;
            if k'.current != k.current then
              Run(k', es).Going? ==> Stranded(Run(k', es).k.table, k.current) && Run(k', es).k.current != k.current
            else
              && k'.frame == Repeated(tf)
              && (if SomeToReap(k.table, k.current) then
                    FindZombie(k'.table, k'.current, Signed(k'.frame.regs[10]), 0, k'.nextPid).Some?
                  else Step(k', Ecall(k'.frame, a)) == Going(k'))
  {
    hide StacksOk, Handle, Schedule, Blocks, FindZombie, Repeated, Live;
    var e := Ecall(tf, a);
    CarelessStrands(k, tf, a);
    BlocksKeeps(k, tf, a);
    HandleKeeps(k, tf, a);
    StepKeeps(k, e);
    WaitingGoesOn(Handle(k, tf, a));
    var k' := Step(k, e).k;
    if k'.current != k.current {
      StrandedStays(Handle(k, tf, a));
      StrandedForGood(k', es, k.current);
    } else {
      FallsBackTo(Handle(k, tf, a));
      RepeatsForAny(tf);
      ZombiesStay(k.table, k'.table, k.current, k'.nextPid);
      if !SomeToReap(k.table, k.current) {
        BlocksAgain(k, k', tf);
        SpinsAgain(k', tf, a);
      }
    }
  }

  /** The scheduler goes on from a process that waits. */
  lemma WaitingGoesOn(h: Kernel)
    requires h.current in h.table && h.table[h.current].state == Waiting
    ensures Schedule(h).Going?
  {
    hide FirstReady;
  }

  lemma StrandedStays(h: Kernel)
    requires h.current in h.table && Stranded(h.table, h.current)
    requires Schedule(h).Going? && Schedule(h).k.current != h.current
    ensures Stranded(Schedule(h).k.table, h.current)
  {
    hide FirstReady;
    forall c ensures !Live(Schedule(h).k.table, h.current, c) {
      assert !Live(h.table, h.current, c);
    }
  }

  /** The scheduler comes back to a waiting process only if nobody is ready. */
  lemma FallsBackTo(h: Kernel)
    requires h.current in h.table && h.table[h.current].state == Waiting
    requires Schedule(h).Going? && Schedule(h).k.current == h.current
    requires WellFormed(h)
    ensures forall q | q in h.table && q != h.current :: h.table[q].state != Ready
    ensures Schedule(h).k ==
              h.(table := h.table[h.current := h.table[h.current].(tf := h.frame, state := Running)])
  {
    assert NextReady(Saved(h), h.current, h.nextPid).None?;
    forall q | q in h.table && q != h.current ensures h.table[q].state != Ready {
      assert !IsReady(Saved(h), q);
    }
  }

  lemma BlocksAgain(k: Kernel, k': Kernel, tf: TrapFrame)
    requires Blocks(k, tf) && FindZombie(k'.table, k'.current, -11, 0, k'.nextPid).None?
    ensures Blocks(k', Repeated(tf))
  {
    hide FindZombie;
    RepeatsForAny(tf);
  }

  lemma RepeatsForAny(tf: TrapFrame)
    ensures Signed(Repeated(tf).regs[10]) == -11 && Repeated(Repeated(tf)) == Repeated(tf)
    ensures Repeated(tf).regs[12] == tf.regs[12] && Repeated(tf).regs[17] == tf.regs[17]
  {
  }

  lemma ZombiesStay(t: Table, t': Table, p: nat, nextPid: nat)
    requires p in t && t[p].state != Zombie && (forall q | q in t :: t[q].ppid < q < nextPid)
    requires t'.Keys == t.Keys && t'[p].state != Zombie && (forall q | q in t && q != p :: t'[q] == t[q])
    ensures SomeToReap(t, p) <==> FindZombie(t', p, -11, 0, nextPid).Some?
  {
    if SomeToReap(t, p) {
      var c :| Reapable(t, p, -11, c);
      assert Reapable(t', p, -11, c);
    }
    var r := FindZombie(t', p, -11, 0, nextPid);
    if r.Some? {
      assert Reapable(t, p, -11, r.value);
    }
  }

  lemma SpinsAgain(k: Kernel, tf: TrapFrame, a: Answer)
    requires Inv(k) && k.frame == Repeated(tf) && Blocks(k, k.frame) && k.stored.None?
    requires k.table[k.current].state == Running && k.table[k.current].tf == k.frame
    requires forall q | q in k.table && q != k.current :: k.table[q].state != Ready
    ensures Step(k, Ecall(k.frame, a)) == Going(k)
  {
    hide StacksOk, FindZombie, Handle, Repeated;
    RepeatsForAny(tf);
    BlocksKeeps(k, k.frame, a);
    var h := Handle(k, k.frame, a);
    assert forall q :: !IsReady(Saved(h), q);
  }
}

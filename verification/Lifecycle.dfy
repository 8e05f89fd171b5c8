/**
 Lifecycle of processes over every run: pids are never reused, a zombie stays one, and wait4
 returns each exited child of the caller once, with its own exit status.
 */
module Lifecycle {
  import opened Base
  import opened Sched
  import opened SchedRuns

  /** What has happened so far: the parent of every forked pid, the code of every exited pid, and
      who reaped it. */
  datatype History = History(forked: map<nat, nat>, exited: map<nat, int>, reaped: map<nat, nat>)

  const NO_HISTORY := History(map[], map[], map[])

  /** The child a wait4 trap finds. */
  function Found(k: Kernel, tf: TrapFrame): Option<nat> {
    if tf.regs[17] == WAIT4 then FindZombie(k.table, k.current, Signed(tf.regs[10]), 0, k.nextPid) else None
  }

  /** The history after a trap of the current process. */
  function Record(k: Kernel, tf: TrapFrame, a: Answer, h: History): History {
    if IsExit(tf) then h.(exited := h.exited[k.current := Signed(tf.regs[10])])
    else if Forks(k, tf, a) then h.(forked := h.forked[k.nextPid := k.current])
    else if Found(k, tf).Some? then h.(reaped := h.reaped[Found(k, tf).value := k.current])
    else h
  }

  /** Every pid that was ever given out. */
  predicate Created(h: History, p: nat) {
    p == 1 || p in h.forked
  }

  ghost predicate ProcOk(t: Table, h: History, p: nat)
    requires p in t
  {
    && (t[p].state == Zombie <==> p in h.exited)
    && (p in h.exited ==> t[p].exitCode == h.exited[p])
    && t[p].ppid == if p in h.forked then h.forked[p] else 0
  }

  ghost predicate ReapOk(h: History, p: nat) {
    p in h.exited && p in h.forked && p in h.reaped && h.reaped[p] == h.forked[p]
  }

  ghost predicate HistoryOk(t: Table, nextPid: nat, h: History) {
    && (forall p :: p in t <==> Created(h, p) && p !in h.reaped)
    && (forall p | p in h.forked :: 1 < p < nextPid) && nextPid > 1
    && (forall p | p in h.exited :: Created(h, p))
    && (forall p | p in h.reaped :: ReapOk(h, p))
    && (forall p | p in t :: ProcOk(t, h, p))
  }

  /** The same processes, and as far as the history goes in the same condition. */
  ghost predicate SameLives(t: Table, t': Table) {
    && (forall p :: p in t' <==> p in t)
    && (forall p | p in t && p in t' ::
          && (t'[p].state == Zombie <==> t[p].state == Zombie)
          && t'[p].exitCode == t[p].exitCode && t'[p].ppid == t[p].ppid)
  }

  lemma LivesKept(t: Table, t': Table, nextPid: nat, h: History)
    requires HistoryOk(t, nextPid, h) && SameLives(t, t')
    ensures HistoryOk(t', nextPid, h)
  {
    hide ReapOk;
    forall p | p in t' ensures ProcOk(t', h, p) {
      assert ProcOk(t, h, p);
    }
  }

  lemma ExitHistory(t: Table, nextPid: nat, h: History, current: nat, code: int)
    requires HistoryOk(t, nextPid, h) && current in t && t[current].state != Zombie
    ensures HistoryOk(Exit(t, current, code), nextPid, h.(exited := h.exited[current := code]))
  {
    var t', h' := Exit(t, current, code), h.(exited := h.exited[current := code]);
    forall p | p in t' ensures ProcOk(t', h', p) {
      assert ProcOk(t, h, p);
    }
    forall p | p in h'.reaped ensures ReapOk(h', p) {
      assert ReapOk(h, p);
    }
  }

  lemma ForkHistory(t: Table, nextPid: nat, h: History, current: nat, child: Proc)
    requires HistoryOk(t, nextPid, h) && current in t && child.ppid == current && child.state == Ready
    ensures HistoryOk(t[nextPid := child], nextPid + 1, h.(forked := h.forked[nextPid := current]))
  {
    var t', h' := t[nextPid := child], h.(forked := h.forked[nextPid := current]);
    assert nextPid !in h.forked && nextPid != 1;
    forall p | p in t' ensures ProcOk(t', h', p) {
      assert p != nextPid ==> ProcOk(t, h, p);
    }
    forall p | p in h'.reaped ensures ReapOk(h', p) {
      assert ReapOk(h, p);
    }
  }

  lemma ReapHistory(t: Table, nextPid: nat, h: History, current: nat, z: nat)
    requires HistoryOk(t, nextPid, h) && z in t && t[z].state == Zombie && t[z].ppid == current && current > 0
    ensures HistoryOk(t - {z}, nextPid, h.(reaped := h.reaped[z := current]))
  {
    var t', h' := t - {z}, h.(reaped := h.reaped[z := current]);
    assert ProcOk(t, h, z);
    forall p | p in t' ensures ProcOk(t', h', p) {
      assert ProcOk(t, h, p);
    }
    forall p | p in h'.reaped ensures ReapOk(h', p) {
      assert p != z ==> ReapOk(h, p);
    }
  }

  lemma HandleHistory(k: Kernel, tf: TrapFrame, a: Answer, h: History)
    requires Inv(k) && HistoryOk(k.table, k.nextPid, h)
    ensures HistoryOk(Handle(k, tf, a).table, Handle(k, tf, a).nextPid, Record(k, tf, a, h))
  {
    hide HistoryOk, StacksOk, Returned, Replaced, Repeated, ChildFrame, Exit;
    var t := k.table;
    var h' := Handle(k, tf, a);
    ExitHistory(t, k.nextPid, h, k.current, Signed(tf.regs[10]));
    if Forks(k, tf, a) {
      ForkHistory(t, k.nextPid, h, k.current, h'.table[k.nextPid]);
    } else if Found(k, tf).Some? && !IsExit(tf) {
      ReapHistory(t, k.nextPid, h, k.current, Found(k, tf).value);
    } else if !IsExit(tf) {
      assert SameLives(t, h'.table);
      LivesKept(t, h'.table, k.nextPid, h);
    }
  }

  lemma ScheduleHistory(k: Kernel, h: History)
    requires k.current in k.table && Schedule(k).Going? && HistoryOk(k.table, k.nextPid, h)
    ensures HistoryOk(Schedule(k).k.table, Schedule(k).k.nextPid, h)
  {
    hide FirstReady, NextReady, HistoryOk;
    assert SameLives(k.table, Schedule(k).k.table);
    LivesKept(k.table, Schedule(k).k.table, k.nextPid, h);
  }

  /** A trap keeps the history true. */
  lemma {:induction false} StepHistory(k: Kernel, e: Event, h: History)
    requires Inv(k) && HistoryOk(k.table, k.nextPid, h) && Step(k, e).Going?
    ensures e.Ecall?
    ensures HistoryOk(Step(k, e).k.table, Step(k, e).k.nextPid, Record(k, e.tf, e.answer, h))
  {
    HandleKeeps(k, e.tf, e.answer);
    hide Inv, Handle, Schedule, HistoryOk;
    HandleHistory(k, e.tf, e.answer, h);
    ScheduleHistory(Handle(k, e.tf, e.answer), Record(k, e.tf, e.answer, h));
  }

  // ---- Over every run ----

  /** The history after a run. */
  ghost function HistoryAfter(k: Kernel, es: seq<Event>, h: History): History
    requires Inv(k)
    decreases |es|
  {
    hide Handle, Schedule, StacksOk;
    if es == [] || es[0].Fault? || !Step(k, es[0]).Going? then h
    else
      StepKeeps(k, es[0]);
      HistoryAfter(Step(k, es[0]).k, es[1..], Record(k, es[0].tf, es[0].answer, h))
  }

  lemma {:induction false} RunHistory(k: Kernel, es: seq<Event>, h: History)
    requires Inv(k) && HistoryOk(k.table, k.nextPid, h) && Run(k, es).Going?
    ensures HistoryOk(Run(k, es).k.table, Run(k, es).k.nextPid, HistoryAfter(k, es, h))
    decreases |es|
  {
    hide Handle, Schedule, StacksOk, HistoryOk, Record;
    if es != [] {
      StepKeeps(k, es[0]);
      StepHistory(k, es[0], h);
      RunHistory(Step(k, es[0]).k, es[1..], Record(k, es[0].tf, es[0].answer, h));
    }
  }

  /** Every run of the system keeps a true history from its start. */
  lemma {:induction false} EveryHistory(k: Kernel, es: seq<Event>)
    requires Initial(k) && Inv(k) && Run(k, es).Going?
    ensures HistoryOk(Run(k, es).k.table, Run(k, es).k.nextPid, HistoryAfter(k, es, NO_HISTORY))
  {
    hide Run, HistoryAfter;
    assert ProcOk(k.table, NO_HISTORY, 1);
    RunHistory(k, es, NO_HISTORY);
  }

  /** A pid was created exactly if it is present or reaped, and never both. */
  lemma PresentOrReaped(t: Table, nextPid: nat, h: History, p: nat)
    requires HistoryOk(t, nextPid, h)
    ensures Created(h, p) <==> p in t || p in h.reaped
    ensures !(p in t && p in h.reaped) && 1 !in h.forked
  {
    assert p in h.reaped ==> ReapOk(h, p);
  }

  lemma CreatedSets(t: Table, nextPid: nat, h: History)
    requires HistoryOk(t, nextPid, h)
    ensures 1 !in h.forked.Keys && h.forked.Keys + {1} == t.Keys + h.reaped.Keys && t.Keys * h.reaped.Keys == {}
  {
    hide HistoryOk;
    PresentOrReaped(t, nextPid, h, 1);
    forall p
      ensures p in h.forked.Keys + {1} <==> p in t.Keys + h.reaped.Keys
      ensures p !in t.Keys * h.reaped.Keys
    {
      PresentOrReaped(t, nextPid, h, p);
    }
  }

  /** Created = present + reaped. */
  lemma Conservation(t: Table, nextPid: nat, h: History)
    requires HistoryOk(t, nextPid, h)
    ensures |h.forked.Keys| + 1 == |t.Keys| + |h.reaped.Keys|
  {
    hide HistoryOk;
    CreatedSets(t, nextPid, h);
    CountBoth(h.forked.Keys, t.Keys, h.reaped.Keys);
  }

  lemma CountBoth(forked: set<nat>, present: set<nat>, reaped: set<nat>)
    requires 1 !in forked && forked + {1} == present + reaped && present * reaped == {}
    ensures |forked| + 1 == |present| + |reaped|
  {
    assert |forked + {1}| == |present + reaped|;
  }

  /** The pid of the next child was never given out. */
  lemma FreshPid(k: Kernel, h: History)
    requires HistoryOk(k.table, k.nextPid, h)
    ensures !Created(h, k.nextPid) && k.nextPid !in k.table
  {
  }

  /** What wait4 returns was forked by the caller, has exited, was not returned before, and the word it
      stores for the caller holds the low eight bits of the child's own exit code. */
  lemma ReapsOnce(k: Kernel, tf: TrapFrame, a: Answer, h: History)
    requires Inv(k) && HistoryOk(k.table, k.nextPid, h) && Found(k, tf).Some?
    ensures var z, k' := Found(k, tf).value, Handle(k, tf, a);
            && z in h.forked && h.forked[z] == k.current && z in h.exited && z !in h.reaped
            && k'.frame == Returned(tf, z % WORD_LIMIT) && z !in k'.table
            && k'.stored == if tf.regs[11] == 0 then None else Some(StatusStore(tf.regs[11], h.exited[z] % 256 * 256))
  {
    assert ProcOk(k.table, h, Found(k, tf).value);
    hide StacksOk;
  }

  /** No other call stores a status. */
  lemma StoresOnlyWhenReaping(k: Kernel, tf: TrapFrame, a: Answer)
    requires Inv(k) && Handle(k, tf, a).stored.Some?
    ensures Found(k, tf).Some? && !IsExit(tf) && tf.regs[11] != 0
  {
    hide StacksOk, FindZombie, Returned, Replaced, Repeated, ChildFrame, Exit;
  }

  /** A process exits once. */
  lemma ExitsOnce(k: Kernel, h: History)
    requires Inv(k) && HistoryOk(k.table, k.nextPid, h)
    ensures k.current !in h.exited
  {
    assert ProcOk(k.table, h, k.current);
  }

  /** A pid that has exited is a zombie for as long as it is in the table. */
  lemma {:induction false} ZombieForGood(k: Kernel, es: seq<Event>, h: History, p: nat)
    requires Inv(k) && HistoryOk(k.table, k.nextPid, h) && Run(k, es).Going? && p in h.exited
    ensures p in Run(k, es).k.table ==> Run(k, es).k.table[p].state == Zombie
  {
    hide Run, HistoryAfter;
    RunHistory(k, es, h);
    ExitedStays(k, es, h, p);
    var k' := Run(k, es).k;
    if p in k'.table {
      assert ProcOk(k'.table, HistoryAfter(k, es, h), p);
    }
  }

  lemma {:induction false} ExitedStays(k: Kernel, es: seq<Event>, h: History, p: nat)
    requires Inv(k) && p in h.exited
    ensures p in HistoryAfter(k, es, h).exited
    decreases |es|
  {
    hide Handle, Schedule, StacksOk;
    if es != [] && es[0].Ecall? && Step(k, es[0]).Going? {
      StepKeeps(k, es[0]);
      ExitedStays(Step(k, es[0]).k, es[1..], Record(k, es[0].tf, es[0].answer, h), p);
    }
  }
}

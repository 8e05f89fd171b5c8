/**
 Fairness of the round-robin scheduler: how many traps a ready process can be bypassed by.
 */
module Bypass {
  import opened Base
  import opened Sched
  import opened SchedRuns

  /** The traps other than forks that may come before `q` runs. */
  function Distance(k: Kernel, q: nat): int {
    if k.current < q then q - k.current else k.nextPid - k.current + q
  }

  /** The forks that memory still has room for, if each takes a root, at least `least` more frames for tables and
      pages, and two frames of kernel stack. */
  function ForksLeft(k: Kernel, least: nat): int {
    (RAM_PAGES - k.cursor) / (least + 3)
  }

  /** A successful clone takes at least `least` frames besides the root and the kernel stack. */
  predicate Takes(e: Event, least: nat) {
    e.Ecall? && (e.tf.regs[17] == CLONE && e.answer.ok ==> e.answer.frames >= least)
  }

  lemma OneLess(x: int, y: int, d: int)
    requires d > 0 && y <= x - d
    ensures y / d <= x / d - 1
  {
    Quotient(x, d);
    Quotient(y, d);
    Monotone(x / d, y / d, d);
  }

  lemma NoMore(x: int, y: int, d: int)
    requires d > 0 && y <= x
    ensures y / d <= x / d
  {
    Quotient(x, d);
    Quotient(y, d);
    Monotone(x / d + 1, y / d, d);
  }

  lemma Monotone(a: int, b: int, d: int)
    requires d > 0
    ensures a <= b ==> d * a <= d * b
  {
    if a <= b {
      assert d * (b - a) >= 0;
    }
  }

  lemma Quotient(x: int, d: int)
    requires d > 0
    ensures d * (x / d) <= x < d * (x / d) + d
  {
  }

  /** Ready, and not the one that is running. */
  predicate Queued(k: Kernel, q: nat) {
    q != k.current && IsReady(k.table, q)
  }

  /** No call of another process makes a ready process anything else, and no call gives frames back. */
  lemma HandleKeepsQueued(k: Kernel, tf: TrapFrame, a: Answer, q: nat)
    requires Inv(k) && Queued(k, q)
    ensures var h := Handle(k, tf, a);
            && h.current == k.current && k.current in h.table && Queued(h, q)
            && (if Forks(k, tf, a)
                then h.nextPid == k.nextPid + 1 && Queued(h, k.nextPid) && h.cursor == k.cursor + a.frames + 3
                else h.nextPid == k.nextPid && h.cursor >= k.cursor)
  {
    hide StacksOk, Returned, Replaced, Repeated, ChildFrame;
    CursorInMemory(k);
  }

  lemma CursorInMemory(k: Kernel)
    requires Inv(k)
    ensures k.cursor <= RAM_PAGES
  {
  }

  /** The scheduler switches to a process on the way from the current one to `q`, or to `q`. */
  lemma SchedulePicks(k: Kernel, q: nat)
    requires k.current in k.table && Queued(k, q) && q < k.nextPid
    ensures Schedule(k).Going? && Schedule(k).k.nextPid == k.nextPid && Schedule(k).k.cursor == k.cursor
    ensures var k' := Schedule(k).k;
            && (k'.current == q || Queued(k', q))
            && (if k.current < q then k.current < k'.current <= q
                else k'.current > k.current || k'.current <= q)
  {
    assert IsReady(Saved(k), q);
  }

  /** A fork does not add to the distance and uses up a fork, and every other trap takes something
      off the distance. */
  lemma {:induction false} StepCloser(k: Kernel, e: Event, q: nat, least: nat)
    requires Inv(k) && Queued(k, q) && Takes(e, least)
    ensures Step(k, e).Going?
    ensures var k' := Step(k, e).k;
            && ForksLeft(k', least) <= ForksLeft(k, least) - (if Forks(k, e.tf, e.answer) then 1 else 0)
            && (k'.current == q ||
                (Queued(k', q) && Distance(k', q) <= Distance(k, q) - if Forks(k, e.tf, e.answer) then 0 else 1))
  {
    HandleKeepsQueued(k, e.tf, e.answer, q);
    hide StacksOk, Handle, Schedule, ForksLeft;
    var h := Handle(k, e.tf, e.answer);
    SchedulePicks(h, q);
    ForksUsed(k, Schedule(h).k, least);
  }

  lemma ForksUsed(k: Kernel, k': Kernel, least: nat)
    ensures k.cursor <= k'.cursor ==> ForksLeft(k', least) <= ForksLeft(k, least)
    ensures k.cursor + least + 3 <= k'.cursor ==> ForksLeft(k', least) <= ForksLeft(k, least) - 1
  {
    if k.cursor <= k'.cursor {
      NoMore(RAM_PAGES - k.cursor, RAM_PAGES - k'.cursor, least + 3);
    }
    if k.cursor + least + 3 <= k'.cursor {
      OneLess(RAM_PAGES - k.cursor, RAM_PAGES - k'.cursor, least + 3);
    }
  }

  /** The traps of a run that are not forks. */
  ghost function NonForks(k: Kernel, es: seq<Event>): nat
    requires Inv(k)
    decreases |es|
  {
    hide Handle, Schedule, StacksOk;
    if es == [] then 0
    else
      (if es[0].Ecall? && Forks(k, es[0].tf, es[0].answer) then 0 else 1) +
      if Step(k, es[0]).Going? then StepKeeps(k, es[0]); NonForks(Step(k, es[0]).k, es[1..]) else 0
  }

  /** After `n` traps, process `q` runs. */
  ghost predicate RunsAfter(k: Kernel, es: seq<Event>, q: nat, n: nat)
    requires Inv(k)
  {
    n <= |es| && Run(k, es[..n]).Going? && Run(k, es[..n]).k.current == q
  }

  lemma RunStarts(k: Kernel, e: Event, es: seq<Event>)
    requires Inv(k) && Step(k, e).Going? && Inv(Step(k, e).k)
    ensures Run(k, [e] + es) == Run(Step(k, e).k, es)
  {
    hide Handle, Schedule, StacksOk;
    assert ([e] + es)[1..] == es;
  }

  lemma RunsOneLater(k: Kernel, es: seq<Event>, q: nat, n: nat)
    requires Inv(k) && es != [] && Step(k, es[0]).Going? && Inv(Step(k, es[0]).k)
    requires RunsAfter(Step(k, es[0]).k, es[1..], q, n)
    ensures RunsAfter(k, es, q, n + 1)
  {
    hide Run, Inv, Step;
    assert es[..n + 1] == [es[0]] + es[1..][..n];
    RunStarts(k, es[0], es[1..][..n]);
  }

  /** Bounded bypass: a ready process runs before more traps other than forks have happened than its
      distance from the current process in the cyclic order of pids. */
  lemma {:induction false} BoundedBypass(k: Kernel, es: seq<Event>, q: nat)
    requires Inv(k) && Queued(k, q) && NonForks(k, es) >= Distance(k, q)
    requires forall i | 0 <= i < |es| :: es[i].Ecall?
    ensures exists n: nat :: RunsAfter(k, es, q, n)
    decreases |es|
  {
    hide Handle, Schedule, StacksOk, ForksLeft;
    StepCloser(k, es[0], q, 0);
    StepKeeps(k, es[0]);
    var k' := Step(k, es[0]).k;
    if k'.current == q {
      assert RunsAfter(k', es[1..], q, 0);
      RunsOneLater(k, es, q, 0);
    } else {
      BoundedBypass(k', es[1..], q);
      var n: nat :| RunsAfter(k', es[1..], q, n);
      RunsOneLater(k, es, q, n);
    }
  }

  /** Counting all traps: frames are never given back, so a ready process runs before its distance
      and the forks that memory has room for are used up. */
  lemma {:induction false} NoStarvation(k: Kernel, es: seq<Event>, q: nat, least: nat)
    requires Inv(k) && Queued(k, q) && |es| >= Distance(k, q) + ForksLeft(k, least)
    requires forall i | 0 <= i < |es| :: Takes(es[i], least)
    ensures exists n: nat :: RunsAfter(k, es, q, n)
    decreases |es|
  {
    hide Handle, Schedule, StacksOk, ForksLeft, Takes;
    SomeLeft(k, q, least);
    StepCloser(k, es[0], q, least);
    StepKeeps(k, es[0]);
    var k' := Step(k, es[0]).k;
    if k'.current == q {
      assert RunsAfter(k', es[1..], q, 0);
      RunsOneLater(k, es, q, 0);
    } else {
      NoStarvation(k', es[1..], q, least);
      var n: nat :| RunsAfter(k', es[1..], q, n);
      RunsOneLater(k, es, q, n);
    }
  }

  lemma SomeLeft(k: Kernel, q: nat, least: nat)
    requires Inv(k) && Queued(k, q)
    ensures Distance(k, q) >= 1 && ForksLeft(k, least) >= 0
  {
    CursorInMemory(k);
    Quotient(RAM_PAGES - k.cursor, least + 3);
    Monotone(ForksLeft(k, least), -1, least + 3);
  }

  function Copies(e: Event, n: nat): seq<Event> {
    if n == 0 then [] else [e] + Copies(e, n - 1)
  }

  /** The forks in the bound are needed: while each new child forks in turn, a ready process with a
      smaller pid does not run for as many forks as memory allows. */
  lemma {:induction false} ForksStarve(k: Kernel, e: Event, q: nat, n: nat)
    requires Inv(k) && Queued(k, q) && q < k.current == k.nextPid - 1
    requires e.Ecall? && !IsExit(e.tf) && e.tf.regs[17] == CLONE && e.answer.ok
    requires k.cursor + n * (e.answer.frames + 3) <= RAM_PAGES
    ensures Run(k, Copies(e, n)).Going? && Run(k, Copies(e, n)).k.current != q
    decreases n
  {
    hide Handle, Schedule, StacksOk;
    if n > 0 {
      var each := e.answer.frames + 3;
      assert n * each == each + (n - 1) * each && (n - 1) * each >= 0;
      ForkGoesOn(k, e, q);
      StepKeeps(k, e);
      ForksStarve(Step(k, e).k, e, q, n - 1);
      assert Copies(e, n)[1..] == Copies(e, n - 1);
    }
  }

  lemma ForkGoesOn(k: Kernel, e: Event, q: nat)
    requires Inv(k) && Queued(k, q) && q < k.current == k.nextPid - 1 && e.Ecall? && Forks(k, e.tf, e.answer)
    ensures Step(k, e).Going?
    ensures var k' := Step(k, e).k;
            Queued(k', q) && q < k'.current == k'.nextPid - 1 && k'.cursor == k.cursor + e.answer.frames + 3
  {
    HandleKeepsQueued(k, e.tf, e.answer, q);
    hide StacksOk, Handle;
    var h := Handle(k, e.tf, e.answer);
    assert IsReady(Saved(h), k.nextPid);
  }
}

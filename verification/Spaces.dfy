/**
 The address spaces of all processes: what fork, exec, brk, mmap, stores, exit and wait4 do to
 memory, and the isolation they keep over every run.
 */
module Spaces {
  import opened Base
  import opened Pte
  import opened Sv39
  import opened FrameBytes
  import opened PhysMem
  import opened AddressSpace
  import opened TableCount
  import opened CloneSpace
  import opened KernelHeap
  import opened HeapStore
  import opened ElfLoad
  import opened UserStack
  import opened UserRead
  import UserHeap
  import opened UserStore
  import opened KernelStore
  import opened Exec
  import Sched

  // ---- What one step leaves alone ----

  /** Every address space other than `but` is kept whole, and so is every kernel stack. */
  ghost predicate Spares(m: Memory, own: Owners, m': Memory, own': Owners, but: nat) {
    && (forall r | IsRoot(own, r) :: IsRoot(own', r) && (r != but ==> Unchanged(m, m', r)))
    && (forall p | p in own && own[p].Kernel? :: p in own' && own'[p].Kernel? && (p in m ==> p in m' && m'[p] == m[p]))
  }

  lemma ConfinedSpares(m: Memory, own: Owners, m': Memory, own': Owners, root: nat)
    requires TreesOk(m, own) && Private(m, own) && Confined(m, own, m', own', root)
    ensures Spares(m, own, m', own', root)
  {
    forall r | IsRoot(own, r) && r != root ensures Unchanged(m, m', r) {
      ExtendsKeepsSpace(m, own, m', own', root, r);
    }
  }

  lemma AsideSpares(m: Memory, own: Owners, m': Memory, own': Owners, but: nat)
    requires TreesOk(m, own) && Private(m, own) && Aside(m, own, m', own')
    ensures Spares(m, own, m', own', but)
    ensures forall r | IsRoot(own, r) :: Unchanged(m, m', r)
  {
    var n :| n !in own && Extends(m, own, m', own', n);
    ConfinedSpares(m, own, m', own', n);
  }

  // ---- The process table, as far as memory goes ----

  /** `kstack` is the first of the two frames of the kernel stack. */
  datatype Space = Space(root: nat, kstack: nat, brk: Word)

  ghost predicate SpaceOk(m: Memory, own: Owners, s: Space) {
    && IsRoot(own, s.root) && Standard(m, s.root)
    && KernelStackAt(own, s.kstack)
  }

  predicate Apart(s: Space, t: Space) {
    PlacesApart(s.root, s.kstack, t.root, t.kstack)
  }

  ghost predicate TableOk(m: Memory, own: Owners, procs: map<nat, Space>) {
    && (forall p | p in procs :: SpaceOk(m, own, procs[p]))
    && (forall p, q | p in procs && q in procs && p != q :: Apart(procs[p], procs[q]))
  }

  lemma SpaceIsOk(m: Memory, own: Owners, procs: map<nat, Space>, p: nat)
    requires TableOk(m, own, procs) && p in procs
    ensures SpaceOk(m, own, procs[p])
  {
  }

  lemma StandardUnchanged(m: Memory, m': Memory, root: nat)
    requires Standard(m, root) && Unchanged(m, m', root)
    ensures Standard(m', root)
  {
    forall v ensures StandardAt(m', root, v) {
      assert StandardAt(m, root, v);
      assert Lookup(m', root, v) == Lookup(m, root, v);
    }
  }

  /** A step that spares the others keeps the table, once its own process is in order. */
  lemma TableKept(m: Memory, own: Owners, m': Memory, own': Owners, procs: map<nat, Space>, but: nat)
    requires TableOk(m, own, procs) && Spares(m, own, m', own', but)
    requires Standard(m', but)
    ensures TableOk(m', own', procs)
  {
    forall p | p in procs ensures SpaceOk(m', own', procs[p]) {
      assert SpaceOk(m, own, procs[p]);
      if procs[p].root != but {
        StandardUnchanged(m, m', procs[p].root);
      }
    }
  }

  // ---- Isolation ----

  /** Each user-mapped frame belongs to one process and one page number of it. */
  lemma OneOwner(m: Memory, own: Owners, procs: map<nat, Space>, p: nat, v: Vpn, q: nat, w: Vpn)
    requires Private(m, own) && TableOk(m, own, procs) && p in procs && q in procs
    requires UserLeaf(m, procs[p].root, v) && UserLeaf(m, procs[q].root, w)
    ensures Lookup(m, procs[p].root, v).value.ppn == Lookup(m, procs[q].root, w).value.ppn ==> p == q && v == w
  {
    assert SpaceOk(m, own, procs[p]) && SpaceOk(m, own, procs[q]);
    PathDecidesPage(v, w);
    if p != q {
      assert Apart(procs[p], procs[q]);
    }
  }

  /** No page-table frame and no kernel stack is user-mapped. */
  lemma NoKernelFrame(m: Memory, own: Owners, procs: map<nat, Space>, p: nat, v: Vpn, q: nat)
    requires Private(m, own) && TableOk(m, own, procs) && p in procs && q in procs
    requires UserLeaf(m, procs[p].root, v)
    ensures var f := Lookup(m, procs[p].root, v).value.ppn;
            f in own && !own[f].Table? && f != procs[q].kstack && f != procs[q].kstack + 1
  {
    assert SpaceOk(m, own, procs[p]) && SpaceOk(m, own, procs[q]);
  }

  /** What an undisturbed process reads from its pages stays the same. */
  lemma SameReads(m: Memory, m': Memory, root: nat, va: nat)
    requires Unchanged(m, m', root) && UserLeaf(m, root, Indices(va / PAGE_SIZE))
    ensures ReadByte(m', root, va) == ReadByte(m, root, va)
  {
    var p := Lookup(m, root, Indices(va / PAGE_SIZE)).value.ppn;
    var pa := p * PAGE_SIZE + va % PAGE_SIZE;
    assert pa / PAGE_SIZE == p;
  }

  // ---- The running system ----

  /** One system call or store of process `pid`. `Wait4` has found the zombie `child`, which exited with `code`;
      `Heap` is a write of the kernel to its heap in the course of a call, other than exec's copy of the file;
      `Other` stands for exit and for calls that leave memory alone. */
  datatype Op =
    | Fork
    | Exec(file: File, argv: seq<Str>, envp: seq<Str>)
    | Brk(addr: Word)
    | Mmap(addr: Word, len: Word, r: bool, w: bool, x: bool, fixed: bool, bytes: seq<Byte>)
    | Store(va: Word, data: seq<Byte>)
    | Other
    | Wait4(child: nat, wstatus: Word, code: int)
    | Heap(at: nat, data: seq<Byte>)

  /** What the kernel does not check and programs must keep to: arguments that fit the stack page, and mappings
      and status pointers off the kernel's pages. */
  predicate Guarded(op: Op, base: Word) {
    match op
    case Exec(_, argv, envp) => InPage(argv + envp)
    case Mmap(addr, len, _, _, _, fixed, _) => AllOff(MmapAt(base, addr, fixed), RoundUp(len))
    case Wait4(_, wstatus, _) => wstatus == 0 || AllOff(wstatus, 8)
    case _ => true
  }

  /** The bytes of the status word, or none for a null pointer. */
  function StatusBytes(wstatus: Word, code: int): seq<Byte> {
    if wstatus == 0 then [] else LowBytes(Sched.Status(code), 8)
  }

  /** Nothing but process `pid` changed: the other processes keep their tables, translations and
      page contents. */
  ghost predicate Steps(m: Memory, own: Owners, procs: map<nat, Space>,
                        m': Memory, own': Owners, procs': map<nat, Space>, pid: nat)
    requires pid in procs
  {
    && Spares(m, own, m', own', procs[pid].root)
    && forall q | q in procs && q in procs' && q != pid :: procs'[q] == procs[q]
  }

  /** Where the processes of the table are after a step that keeps the rules: a fork puts the child's table at the
      next free frame and its kernel stack into the last two taken, exec moves to the next free frame, and
      frames are only ever taken. */
  ghost predicate Moved(op: Op, pid: nat, procs: map<nat, Space>, nextPid: nat, top: nat,
                        procs': map<nat, Space>, nextPid': nat, top': nat)
    requires pid in procs
  {
    && top <= top'
    && match op
       case Fork =>
         || (procs' == procs && nextPid' == nextPid)
         || (&& top + TABLES + 2 <= top' && nextPid' == nextPid + 1
             && procs' == procs[nextPid := Space(top, top' - 2, procs[pid].brk)])
       case Exec(file, _, _) =>
         && nextPid' == nextPid
         && (|| procs' == procs
             || (&& file.Elf? && top < top' && pid in procs'
                 && procs' == procs[pid := procs[pid].(root := top, brk := procs'[pid].brk)]))
       case Brk(addr) =>
         nextPid' == nextPid && procs' == procs[pid := procs[pid].(brk := UserHeap.NextBreak(procs[pid].brk, addr))]
       case Mmap(_, _, _, _, _, _, _) => nextPid' == nextPid && procs' == procs
       case Wait4(child, _, _) => nextPid' == nextPid && procs' == procs - {child} && top' == top
       case _ => nextPid' == nextPid && procs' == procs && top' == top
  }

  /** The process at `root'` has the pages of the one at `root`: readable with the same bytes, with the same permissions. */
  ghost predicate CopyOf(m: Memory, root: nat, m': Memory, root': nat) {
    forall va: Word :: CopiedAt(m, root, m', root', va)
  }

  ghost predicate CopiedAt(m: Memory, root: nat, m': Memory, root': nat, va: Word) {
    && (UserAt(m', root', va) <==> UserAt(m, root, va))
    && (UserAt(m, root, va) ==>
          && ReadByte(m', root', va) == ReadByte(m, root, va)
          && Lookup(m', root', Indices(va / PAGE_SIZE)).value.flags == Lookup(m, root, Indices(va / PAGE_SIZE)).value.flags)
  }

  /** What a step that keeps the rules does to memory; for exec see `Ready`. */
  ghost predicate Did(op: Op, pid: nat, m: Memory, procs: map<nat, Space>, nextPid: nat, base: Word,
                      m': Memory, procs': map<nat, Space>)
    requires pid in procs
  {
    var root := procs[pid].root;
    match op
    case Fork => procs' != procs ==> nextPid in procs' && CopyOf(m, root, m', procs'[nextPid].root)
    case Brk(addr) => HeapGrown(m, m', root, UserHeap.Start(procs[pid].brk), addr)
    case Mmap(addr, len, r, w, x, fixed, file) =>
      Mmapped(m, m', root, MmapAt(base, addr, fixed), RoundUp(len), r, w, x, file)
    case Store(va, data) => Written(m, m', root, va, data)
    case Wait4(_, wstatus, code) => Written(m, m', root, wstatus, StatusBytes(wstatus, code))
    case Other => m' == m
    case _ => true
  }

  lemma ForkedHasChild(m: Memory, own: Owners, procs: map<nat, Space>, m': Memory, own': Owners, procs': map<nat, Space>,
                       pid: nat, child: nat)
    requires pid in procs && Forked(m, own, procs, m', own', procs', pid, child)
    ensures child in procs'
  {
  }

  lemma KernelIsNotUser(n: nat)
    ensures KernelLeaf(n).Some? ==> !KernelLeaf(n).value.flags.u
  {
  }

  lemma ForkedCopies(m: Memory, own: Owners, procs: map<nat, Space>, m': Memory, own': Owners, procs': map<nat, Space>,
                     pid: nat, child: nat)
    requires pid in procs && Forked(m, own, procs, m', own', procs', pid, child)
    ensures CopyOf(m, procs[pid].root, m', procs'[child].root)
  {
    hide Lookup, Indices, KernelLeaf, Number, PhysByte;
    var root, root' := procs[pid].root, procs'[child].root;
    forall va: Word ensures CopiedAt(m, root, m', root', va) {
      var v := Indices(va / PAGE_SIZE);
      assert Cloned(m, own, root, m', own', root', v);
      KernelIsNotUser(Number(v));
      if UserLeaf(m, root, v) {
        var mine, theirs := Lookup(m', root', v).value.ppn, Lookup(m, root, v).value.ppn;
        PhysByteInPage(m', mine, BytesOf(m'[mine]), va % PAGE_SIZE);
        PhysByteInPage(m, theirs, BytesOf(m[theirs]), va % PAGE_SIZE);
      }
    }
  }

  lemma AsideKeepsOwned(m: Memory, own: Owners, m': Memory, own': Owners)
    requires Aside(m, own, m', own')
    ensures forall p | p in own :: p in own'
  {
    var n :| n !in own && Extends(m, own, m', own', n);
  }

  /** A parent that gives wait4 the physical address of another process's page has the exit status
      written there: the other process reads it back. */
  lemma StatusHitsNeighbour(m: Memory, own: Owners, procs: map<nat, Space>, pid: nat, other: nat, v: Vpn, code: int, i: nat)
    requires TreesOk(m, own) && Private(m, own) && TableOk(m, own, procs) && pid in procs && other in procs && i < 8
    requires UserLeaf(m, procs[other].root, v) && 0x8_0000 <= Lookup(m, procs[other].root, v).value.ppn < RAM_PAGES
    ensures var wstatus := Lookup(m, procs[other].root, v).value.ppn * PAGE_SIZE;
            var (m', ok) := StoreAll(m, procs[pid].root, wstatus, StatusBytes(wstatus, code), Supervisor);
            ok && ReadByte(m', procs[other].root, Number(v) * PAGE_SIZE + i) == Some(LowBytes(Sched.Status(code), 8)[i])
  {
    hide TreesOk, Private, Standard, StoreAll, ReadByte, Lookup, LowBytes, Number;
    SpaceIsOk(m, own, procs, pid);
    SpaceIsOk(m, own, procs, other);
    HitsOtherProcess(m, own, procs[pid].root, procs[other].root, v, LowBytes(Sched.Status(code), 8), i);
  }

  /** For instance a wait4 with the pointer 0x85000000, where frame 0x85000 is another process's page. */
  lemma StatusAtConcretePointer(m: Memory, own: Owners, procs: map<nat, Space>, pid: nat, other: nat, v: Vpn, code: int)
    requires TreesOk(m, own) && Private(m, own) && TableOk(m, own, procs) && pid in procs && other in procs && pid != other
    requires UserLeaf(m, procs[other].root, v) && Lookup(m, procs[other].root, v).value.ppn == 0x8_5000
    ensures var (m', ok) := StoreAll(m, procs[pid].root, 0x8500_0000, StatusBytes(0x8500_0000, code), Supervisor);
            ok && ReadByte(m', procs[other].root, Number(v) * PAGE_SIZE + 1) == Some(code % 256)
  {
    hide TreesOk, Private, Standard, TableOk, StoreAll, ReadByte, Lookup, Number;
    StatusHitsNeighbour(m, own, procs, pid, other, v, code, 1);
    var w := Sched.Status(code);
    assert LowBytes(w, 8)[1] == LowBytes(w / 256, 7)[0] == code % 256;
  }

  /** The copy that exec makes meets the page of another process once frames have reached the heap: with the first
      frame of the heap that process's page, a file copied to the first block is what it reads. */
  lemma CopyHitsNeighbour(m: Memory, own: Owners, procs: map<nat, Space>, other: nat, v: Vpn, data: seq<Byte>, o: nat)
    requires TreesOk(m, own) && Private(m, own) && TableOk(m, own, procs) && other in procs
    requires UserLeaf(m, procs[other].root, v) && Lookup(m, procs[other].root, v).value.ppn == HEAP_START / PAGE_SIZE
    requires o < |data| <= PAGE_SIZE
    ensures ReadByte(WithCopy(m, HEAP_START, data), procs[other].root, Number(v) * PAGE_SIZE + o) == Some(data[o])
  {
    hide TreesOk, Standard, Poked, ReadByte, Lookup, Number;
    SpaceIsOk(m, own, procs, other);
    assert FileBlock(HEAP_START, |data|) == Some(HEAP_START) by {
      assert AlignUp(HEAP_START, 16) == HEAP_START;
    }
    HeapWriteReaches(m, own, procs[other].root, v, HEAP_START, data, o);
  }

  /** So an exec that finds the frames in the heap changes what that process reads, from memory before it (`m`) to
      memory after the copy (`m'`). */
  lemma ExecHitsNeighbour(m: Memory, own: Owners, procs: map<nat, Space>, loaded: Memory, own': Owners, m': Memory,
                          pid: nat, other: nat, v: Vpn, data: seq<Byte>, o: nat)
    requires TreesOk(m, own) && Private(m, own) && TableOk(m, own, procs) && pid in procs && other in procs
    requires CopiedAside(m, own, loaded, own', m', HEAP_START, data)
    requires UserLeaf(m, procs[other].root, v) && Lookup(m, procs[other].root, v).value.ppn == HEAP_START / PAGE_SIZE
    requires o < |data| <= PAGE_SIZE
    ensures ReadByte(m', procs[other].root, Number(v) * PAGE_SIZE + o) == Some(data[o])
  {
    hide TreesOk, Private, TableOk, Steps, Aside, ReadByte, WithCopy, Number;
    TableAside(m, own, loaded, own', procs, pid);
    SpaceIsOk(m, own, procs, other);
    AsideSpares(m, own, loaded, own', procs[pid].root);
    assert Lookup(loaded, procs[other].root, v) == Lookup(m, procs[other].root, v);
    CopyHitsNeighbour(loaded, own', procs, other, v, data, o);
  }

  /** A write to the heap with all frames below it is no step for any process. */
  lemma HeapWriteSpares(m: Memory, own: Owners, procs: map<nat, Space>, pid: nat, m': Memory)
    requires TreesOk(m, own) && Private(m, own) && TableOk(m, own, procs) && pid in procs && KeepsOwned(m, m', own)
    ensures TreesOk(m', own) && Private(m', own) && TableOk(m', own, procs)
    ensures Steps(m, own, procs, m', own, procs, pid)
  {
    hide TreesOk, Private, Standard, Unchanged, Lookup;
    KeptOwned(m, m', own);
    forall p | p in procs ensures SpaceOk(m', own, procs[p]) {
      assert SpaceOk(m, own, procs[p]);
      StandardUnchanged(m, m', procs[p].root);
    }
  }

  /** The copy of the file, as the start of a step. */
  lemma CopySpares(m: Memory, own: Owners, procs: map<nat, Space>, pid: nat, start: Memory, current: nat, data: seq<Byte>)
    requires TreesOk(m, own) && Private(m, own) && TableOk(m, own, procs) && pid in procs && BelowHeap(own)
    requires HEAP_START <= current && (start == m || start == WithCopy(m, current, data))
    ensures TreesOk(start, own) && Private(start, own) && TableOk(start, own, procs)
    ensures Steps(m, own, procs, start, own, procs, pid)
  {
    hide TreesOk, Private, TableOk, Steps, Poked, BelowHeap;
    if start != m {
      HeapWriteKeeps(m, own, FileBlock(current, |data|).value, data);
    }
    HeapWriteSpares(m, own, procs, pid, start);
  }

  lemma StepsThen(m: Memory, own: Owners, procs: map<nat, Space>, m1: Memory, m2: Memory, own2: Owners,
                  procs2: map<nat, Space>, pid: nat)
    requires pid in procs && Steps(m, own, procs, m1, own, procs, pid) && Steps(m1, own, procs, m2, own2, procs2, pid)
    requires forall p | p in own :: p in m
    ensures Steps(m, own, procs, m2, own2, procs2, pid)
  {
    hide Unchanged;
    forall r | IsRoot(own, r) && r != procs[pid].root ensures Unchanged(m, m2, r) {
      UnchangedTransitive(m, m1, m2, r);
    }
  }

  lemma StandardFromCloned(m0: Memory, own0: Owners, root: nat, m: Memory, own: Owners, n: nat)
    requires forall v :: Cloned(m0, own0, root, m, own, n, v)
    requires Standard(m0, root)
    ensures Standard(m, n)
  {
    forall v ensures StandardAt(m, n, v) {
      assert Cloned(m0, own0, root, m, own, n, v);
      if UserLeaf(m0, root, v) {
        assert UserLeaf(m, n, v);
      }
    }
  }

  lemma StandardIsBelowKernel(m: Memory, root: nat)
    requires Standard(m, root)
    ensures UserBelowKernel(m, root)
  {
    forall v | UserLeaf(m, root, v) ensures KernelLeaf(Number(v)) == None {
      assert StandardAt(m, root, v);
    }
  }

  /** Taking the kernel stack after the copy leaves the copy as it is. */
  lemma ClonedThenStack(m0: Memory, own0: Owners, root: nat, m: Memory, own: Owners, n: nat,
                        m': Memory, own': Owners, k: nat)
    requires TreesOk(m, own) && IsRoot(own, n) && StackTaken(m, own, m', own', k, 2)
    requires forall v :: Cloned(m0, own0, root, m, own, n, v)
    ensures forall v :: Cloned(m0, own0, root, m', own', n, v)
  {
    StackTakenExtends(m, own, m', own', k, 2, n);
    forall v ensures Cloned(m0, own0, root, m', own', n, v) {
      assert Cloned(m0, own0, root, m, own, n, v);
      assert Lookup(m', n, v) == Lookup(m, n, v);
    }
  }

  /** A process on a fresh table and a fresh kernel stack joins the table. */
  lemma Joins(m0: Memory, own0: Owners, own1: Owners, m: Memory, own: Owners, procs: map<nat, Space>, pid: nat, s: Space)
    requires TableOk(m0, own0, procs) && TableOk(m, own, procs) && SpaceOk(m, own, s)
    requires s.root !in own0 && forall p | p in own0 :: p in own1
    requires s.kstack !in own1 && s.kstack + 1 !in own1
    ensures TableOk(m, own, procs[pid := s])
  {
    forall p | p in procs ensures Apart(procs[p], s) && Apart(s, procs[p]) {
      assert SpaceOk(m0, own0, procs[p]);
    }
  }

  /** An unchanged process table survives whatever happens aside. */
  lemma TableAside(m: Memory, own: Owners, m': Memory, own': Owners, procs: map<nat, Space>, pid: nat)
    requires TreesOk(m, own) && Private(m, own) && TableOk(m, own, procs) && pid in procs
    requires Aside(m, own, m', own')
    ensures TableOk(m', own', procs) && Steps(m, own, procs, m', own', procs, pid)
    ensures Unchanged(m, m', procs[pid].root)
  {
    var but := procs[pid].root;
    AsideSpares(m, own, m', own', but);
    assert SpaceOk(m, own, procs[pid]);
    StandardUnchanged(m, m', but);
    TableKept(m, own, m', own', procs, but);
  }

  /** The table after a successful fork: one more process, with an exact copy of the parent's pages. */
  ghost predicate Forked(m: Memory, own: Owners, procs: map<nat, Space>,
                         m': Memory, own': Owners, procs': map<nat, Space>, pid: nat, child: nat)
    requires pid in procs
  {
    && child !in procs && child in procs' && procs' == procs[child := procs'[child]]
    && procs'[child].brk == procs[pid].brk
    && forall v :: Cloned(m, own, procs[pid].root, m', own', procs'[child].root, v)
  }

  lemma ForkTable(m: Memory, own: Owners, procs: map<nat, Space>, m1: Memory, own1: Owners,
                  m2: Memory, own2: Owners, pid: nat, child: nat, s: Space)
    requires TreesOk(m, own) && Private(m, own) && TableOk(m, own, procs) && pid in procs && child !in procs
    requires TreesOk(m1, own1) && Private(m1, own1) && Extends(m, own, m1, own1, s.root)
    requires s.root !in own && IsRoot(own1, s.root) && s.brk == procs[pid].brk
    requires forall v :: Cloned(m, own, procs[pid].root, m1, own1, s.root, v)
    requires StackTaken(m1, own1, m2, own2, s.kstack, 2)
    ensures Private(m2, own2) && TableOk(m2, own2, procs[child := s])
    ensures Steps(m, own, procs, m2, own2, procs[child := s], pid)
    ensures Unchanged(m, m2, procs[pid].root)
    ensures Forked(m, own, procs, m2, own2, procs[child := s], pid, child)
  {
    hide TreesOk, Private, Standard, Cloned, Unchanged, Extends, StackTaken, TableOk, Spares;
    var parent := procs[pid].root;
    SpaceIsOk(m, own, procs, pid);
    ClonedThenStack(m, own, parent, m1, own1, s.root, m2, own2, s.kstack);
    StandardFromCloned(m, own, parent, m2, own2, s.root);
    StackTakenExtends(m1, own1, m2, own2, s.kstack, 2, s.root);
    StackTakenAt(m1, own1, m2, own2, s.kstack, s.root);
    ExtendsTransitive(m, own, m1, own1, m2, own2, s.root);
    ExtendsAside(m, own, m2, own2, s.root);
    TableAside(m, own, m2, own2, procs, pid);
    ExtendsKeepsOwned(m, own, m1, own1, s.root);
    Joins(m, own, own1, m2, own2, procs, child, s);
  }

  /** The environment of the first process: PATH=/bin. */
  const FIRST_ENVP: seq<Str> := [[0x50, 0x41, 0x54, 0x48, 0x3d, 0x2f, 0x62, 0x69, 0x6e]]

  class Machine {
    const ph: Phys
    const heap: Bump
    var procs: map<nat, Space>
    var nextPid: nat
    var mmapBase: Word

    ghost predicate Valid()
      reads this, ph, heap
    {
      && heap.Valid()
      && ph.Valid() && Private(ph.mem, ph.own) && TableOk(ph.mem, ph.own, procs)
      && forall p | p in procs :: p < nextPid
    }

    constructor (k: Phys, h: Bump)
      requires k.Valid() && Private(k.mem, k.own) && h.Valid()
      ensures Valid() && ph == k && heap == h && procs == map[]
    {
      ph, heap := k, h;
      procs := map[];
      nextPid := 1;
      mmapBase := 0;
    }

    /** `init_user_proc`: process 1, alone in the table. */
    method Init(file: File, argv: seq<Str>) returns (ok: bool)
      requires Valid() && procs == map[] && !file.Missing? && file.Loadable()
      modifies this, ph, heap
      ensures ok ==> procs.Keys == {1} && nextPid == 2
      ensures ok && InPage(argv + FIRST_ENVP) && ph.current <= HEAP_START ==>
                Valid() && file.Elf? && Ready(ph.mem, ph.own, procs[1].root, file.image, argv, FIRST_ENVP)
    {
      hide Phys.Valid, Private, Standard, Ready, InPage, Loaded, ImageWritten;
      var r, _, _, _ := InitUserProc(ph, heap, file, argv, FIRST_ENVP);
      if !r.Done? {
        return false;
      }
      var (started, kstack) := r.value;
      if InPage(argv + FIRST_ENVP) && ph.current <= HEAP_START {
        ReadyIsStandard(ph.mem, ph.own, started.root, file.image, argv, FIRST_ENVP);
      }
      procs := map[1 := Space(started.root, kstack, started.brk)];
      nextPid := 2;
      return true;
    }

    /** `fork_process` */
    method Fork(pid: nat) returns (ok: bool)
      requires Valid() && pid in procs
      modifies this, ph
      ensures ok ==> Valid() && Steps(old(ph.mem), old(ph.own), old(procs), ph.mem, ph.own, procs, pid)
      ensures mmapBase == old(mmapBase) && pid in procs
      ensures forall q | q in procs :: q in old(procs) || q == old(nextPid)
      ensures ok ==> Unchanged(old(ph.mem), ph.mem, procs[pid].root)
      ensures !ok ==> ph.current + 2 * PAGE_SIZE > ph.end
      ensures ok ==> Moved(Op.Fork, pid, old(procs), old(nextPid), old(ph.top), procs, nextPid, ph.top)
      ensures if procs == old(procs) then nextPid == old(nextPid) && ph.current + 2 * PAGE_SIZE > ph.end
              else && nextPid == old(nextPid) + 1
                   && Forked(old(ph.mem), old(ph.own), old(procs), ph.mem, ph.own, procs, pid, old(nextPid))
    {
      hide Phys.Valid, Private, Unchanged, TableOk, Steps, Forked;
      var child := ForkSpace(ph, procs, pid, nextPid);
      if child.Panics? {
        return false;
      }
      if child.Done? {
        procs := procs[nextPid := child.value];
        nextPid := nextPid + 1;
      }
      return true;
    }

    /** `sys_execve` from the lookup of the file on: a missing file changes nothing. Otherwise `exec_process`: with
        frames below the heap the process gets a fresh address space, with the stack image written over `loaded` from frame
        `top` on, or keeps its own; the new one is fully built, and all else untouched, if the arguments fit.
        If frames have reached the heap, the copy of the file is the last that is described. */
    method Exec(pid: nat, file: File, argv: seq<Str>, envp: seq<Str>)
      returns (ok: bool, stopped: bool, ghost start: Memory, ghost loaded: Memory, ghost top: nat)
      requires Valid() && Possible(procs, pid, Op.Exec(file, argv, envp))
      modifies this, ph, heap
      ensures heap.Valid() && mmapBase == old(mmapBase) && nextPid == old(nextPid) && procs.Keys == old(procs.Keys)
      ensures file.Missing? ==> ok && !stopped && ph.mem == old(ph.mem) && ph.own == old(ph.own) && procs == old(procs)
      ensures stopped ==>
                && ph.current > HEAP_START
                && CopiedAside(old(ph.mem), old(ph.own), loaded, ph.own, ph.mem, old(heap.current), file.Data())
      ensures ok && ph.current <= HEAP_START && (procs == old(procs) || InPage(argv + envp)) ==>
                && Valid() && Steps(old(ph.mem), old(ph.own), old(procs), ph.mem, ph.own, procs, pid)
                && Moved(Op.Exec(file, argv, envp), pid, old(procs), old(nextPid), old(ph.top), procs, nextPid, ph.top)
      ensures ok && ph.current <= HEAP_START && procs != old(procs) ==>
                && (start == old(ph.mem) || start == WithCopy(old(ph.mem), old(heap.current), file.Data())) && file.Elf?
                && Executed(start, old(ph.own), loaded, ph.mem, ph.own,
                            Started(procs[pid].root, procs[pid].brk, STACK_TOP), top, file.image, argv, envp)
      ensures ph.current <= HEAP_START && ok && procs == old(procs) ==> file.Missing? || Unusable(file, old(heap.current))
      ensures ph.current <= HEAP_START && !ok ==> file.Elf? && !Placeable(file.image)
    {
      hide Phys.Valid, Private, TableOk, Steps, Placeable, InPage, Executed, WithCopy, CopiedAside;
      start, loaded, top := ph.mem, ph.mem, 0;
      if file.Missing? {
        ValidTrees(ph);
        StepsNothing(ph.mem, ph.own, procs, pid);
        return true, false, ph.mem, ph.mem, 0;
      }
      var s;
      s, stopped, start, loaded, top := ExecSpace(ph, heap, procs, pid, file, argv, envp);
      if s.Done? {
        procs := procs[pid := s.value];
      }
      ok := !s.Panics?;
    }

    /** `sys_brk` */
    method Brk(pid: nat, addr: Word) returns (ok: bool)
      requires Valid() && pid in procs
      modifies this, ph
      ensures ok ==> Valid() && Steps(old(ph.mem), old(ph.own), old(procs), ph.mem, ph.own, procs, pid)
      ensures mmapBase == old(mmapBase) && nextPid == old(nextPid) && procs.Keys == old(procs.Keys)
      ensures Grows(old(ph.mem), old(ph.own), ph.mem, ph.own, old(procs[pid].root))
      ensures ok ==> procs[pid].brk == UserHeap.NextBreak(old(procs[pid].brk), addr)
      ensures ok ==> Moved(Op.Brk(addr), pid, old(procs), old(nextPid), old(ph.top), procs, nextPid, ph.top)
      ensures ok && ph.current <= HEAP_START ==>
                HeapGrown(old(ph.mem), ph.mem, old(procs[pid].root), UserHeap.Start(old(procs[pid].brk)), addr)
      ensures !ok ==> ph.current + PAGE_SIZE > ph.end
    {
      hide Phys.Valid, Private, TableOk, Steps, Grows, HeapGrown;
      var s := BrkSpace(ph, procs, pid, addr);
      if s.Done? {
        procs := procs[pid := s.value];
      }
      return s.Done?;
    }

    /** `sys_mmap`. Off the kernel's pages it changes the caller's address space only, alters no translation, and
        goes through exactly if every byte of the range can be stored. */
    method Mmap(pid: nat, addr: Word, len: Word, r: bool, w: bool, x: bool, fixed: bool, file: seq<Byte>)
      returns (ok: bool, ghost grown: Memory)
      requires Valid() && Possible(procs, pid, Op.Mmap(addr, len, r, w, x, fixed, file))
      modifies this, ph
      ensures nextPid == old(nextPid) && procs == old(procs)
      ensures ok ==> (ph.mem, true) == FillAll(grown, procs[pid].root, MmapAt(old(mmapBase), addr, fixed), RoundUp(len), file)
      ensures ok ==> mmapBase == NextBase(old(mmapBase), RoundUp(len), fixed)
      ensures AllOff(MmapAt(old(mmapBase), addr, fixed), RoundUp(len)) ==>
                && Valid() && Steps(old(ph.mem), old(ph.own), procs, ph.mem, ph.own, procs, pid)
                && (forall v | old(Lookup(ph.mem, procs[pid].root, v)).Some? ::
                      Lookup(ph.mem, procs[pid].root, v) == old(Lookup(ph.mem, procs[pid].root, v)))
                && (ok ==> Mmapped(old(ph.mem), ph.mem, procs[pid].root, MmapAt(old(mmapBase), addr, fixed), RoundUp(len),
                                   r, w, x, file))
                && old(ph.top) <= ph.top
    {
      hide Phys.Valid, Private, TableOk, Steps, Lookup, AllOff, FillAll, Mmapped, RoundUp;
      var e;
      e, grown := MmapSpace(ph, procs, pid, mmapBase, addr, len, r, w, x, fixed, file);
      if e.Mapped? {
        mmapBase := e.base;
      }
      ok := e.Mapped?;
    }

    /** A store of the process through its own mapping; false if it faults. */
    method Store(pid: nat, va: Word, data: seq<Byte>) returns (ok: bool)
      requires Valid() && Possible(procs, pid, Op.Store(va, data))
      modifies ph
      ensures Valid() && Steps(old(ph.mem), old(ph.own), procs, ph.mem, ph.own, procs, pid)
      ensures Stored(old(ph.mem), ph.mem, ph.own, procs[pid].root) && ph.own == old(ph.own) && ph.top == old(ph.top)
      ensures ok <==> AllCanStore(old(ph.mem), procs[pid].root, va, |data|, User)
      ensures ok ==> Written(old(ph.mem), ph.mem, procs[pid].root, va, data)
    {
      hide Phys.Valid, Private, TableOk, Steps, Stored, Written, AllCanStore, StoreAll;
      ok := StoreSpace(ph, procs, pid, va, data, User);
    }

    /** `sys_wait4` that found the zombie `child`: the kernel stores the status, then drops the child. */
    method Wait4(pid: nat, child: nat, wstatus: Word, code: int) returns (ok: bool)
      requires Valid() && Possible(procs, pid, Op.Wait4(child, wstatus, code))
      modifies this, ph
      ensures mmapBase == old(mmapBase) && nextPid == old(nextPid) && ph.own == old(ph.own) && ph.top == old(ph.top)
      ensures (ph.mem, ok) == StoreAll(old(ph.mem), old(procs[pid].root), wstatus, StatusBytes(wstatus, code), Supervisor)
      ensures procs == if ok then old(procs) - {child} else old(procs)
      ensures wstatus == 0 || AllOff(wstatus, 8) ==>
                && Valid() && Steps(old(ph.mem), old(ph.own), old(procs), ph.mem, ph.own, procs, pid)
                && (ok ==> Written(old(ph.mem), ph.mem, old(procs[pid].root), wstatus, StatusBytes(wstatus, code)))
    {
      hide Phys.Valid, Private, TableOk, Steps, Stored, StoreAll, Written, AllCanStore, AllOff, LowBytes;
      NothingIsOff(wstatus);
      ok := StoreSpace(ph, procs, pid, wstatus, StatusBytes(wstatus, code), Supervisor);
      if ok {
        if wstatus == 0 || AllOff(wstatus, 8) {
          Leaves(old(ph.mem), old(ph.own), ph.mem, ph.own, procs, pid, child);
        }
        procs := procs - {child};
      }
    }

    /** A write of the kernel to its heap. */
    method HeapWrite(pid: nat, addr: nat, data: seq<Byte>)
      requires Valid() && Possible(procs, pid, Op.Heap(addr, data))
      modifies ph
      ensures ph.mem == Poked(old(ph.mem), addr, data) && ph.own == old(ph.own) && ph.top == old(ph.top)
      ensures ph.current <= HEAP_START ==>
                Valid() && Steps(old(ph.mem), old(ph.own), procs, ph.mem, ph.own, procs, pid)
    {
      hide TreesOk, Private, TableOk, Steps, Poked, BelowHeap, KeepsOwned;
      ghost var m := ph.mem;
      ValidTaken(ph);
      ph.mem := Poked(ph.mem, addr, data);
      if ph.current <= HEAP_START {
        TakenBelowHeap(ph.base, ph.top, ph.own);
        HeapWriteKeeps(m, ph.own, addr, data);
        HeapWriteSpares(m, ph.own, procs, pid, ph.mem);
      }
    }

    /** One step of process `pid`; false if the kernel panics or hangs in it. */
    method Step(pid: nat, op: Op) returns (ok: bool)
      requires Valid() && Possible(procs, pid, op)
      modifies this, ph, heap
      ensures ok && Guarded(op, old(mmapBase)) && ph.current <= HEAP_START ==>
                && Valid() && Steps(old(ph.mem), old(ph.own), old(procs), ph.mem, ph.own, procs, pid)
                && Moved(op, pid, old(procs), old(nextPid), old(ph.top), procs, nextPid, ph.top)
                && (op.Exec? && procs != old(procs) ==>
                      && pid in procs && op.file.Elf? && AllInBounds(op.file.image.phdrs, op.file.image.data)
                      && Ready(ph.mem, ph.own, procs[pid].root, op.file.image, op.argv, op.envp)
                      && BreakBehind(procs[pid].brk, op.file.image.phdrs))
                && Did(op, pid, old(ph.mem), old(procs), old(nextPid), old(mmapBase), ph.mem, procs)
                && (op.Mmap? ==> mmapBase == NextBase(old(mmapBase), RoundUp(op.len), op.fixed))
      ensures ok ==> nextPid >= old(nextPid) && forall q | q in procs && q !in old(procs) :: q >= old(nextPid)
    {
      hide Phys.Valid, Private, TableOk, Steps, Stored, Forked, Ready, Grows, Unchanged, Written, AllCanStore, StoreAll,
        FillAll, Mmapped, AllOff, InPage, Loaded, Extends, ImageWritten, RoundUp, LowBytes, AllInBounds, Poked, WithCopy,
        CopiedAside, Placeable, BreakBehind, CopyOf, HeapGrown;
      match op
      case Fork => {
        ok := Fork(pid);
        if procs != old(procs) {
          ForkedCopies(old(ph.mem), old(ph.own), old(procs), ph.mem, ph.own, procs, pid, old(nextPid));
          ForkedHasChild(old(ph.mem), old(ph.own), old(procs), ph.mem, ph.own, procs, pid, old(nextPid));
        }
      }
      case Exec(file, argv, envp) => {
        var stopped;
        ghost var start, loaded, top;
        ok, stopped, start, loaded, top := Exec(pid, file, argv, envp);
      }
      case Brk(addr) => ok := Brk(pid, addr);
      case Mmap(addr, len, r, w, x, fixed, file) => {
        ghost var grown;
        ok, grown := Mmap(pid, addr, len, r, w, x, fixed, file);
      }
      case Store(va, data) => ok := Store(pid, va, data);
      case Other => {
        ValidTrees(ph);
        StepsNothing(ph.mem, ph.own, procs, pid);
        ok := true;
      }
      case Wait4(child, wstatus, code) => ok := Wait4(pid, child, wstatus, code);
      case Heap(addr, data) => {
        HeapWrite(pid, addr, data);
        ok := true;
      }
    }

    /** Isolation over every run, in any interleaving of the processes: a process that took no step
        itself has, at the end, every translation and every byte of its pages as at the start. The run ends
        where the kernel panics or hangs, after a step that breaks the rules of `Guarded`, and when the frames
        reach the kernel's heap. */
    method Run(steps: seq<(nat, Op)>) returns (ok: bool)
      requires Valid()
      modifies this, ph, heap
      ensures ok ==> Valid()
      ensures ok ==> Undisturbed(old(ph.mem), old(procs), ph.mem, procs, steps)
    {
      hide Phys.Valid, TreesOk, Private, TableOk, Steps, Unchanged, Undisturbed, Guarded;
      ValidTrees(ph);
      UndisturbedNothing(ph.mem, ph.own, procs);
      ok := true;
      var i := 0;
      assert steps[..0] == [];
      while ok && i < |steps|
        invariant i <= |steps|
        invariant ok ==> Valid() && nextPid >= old(nextPid) && forall q | q in old(procs) :: q < old(nextPid)
        invariant ok ==> Undisturbed(old(ph.mem), old(procs), ph.mem, procs, steps[..i])
      {
        var (pid, op) := steps[i];
        ghost var m, o, p := ph.mem, ph.own, procs;
        if Possible(procs, pid, op) {
          var guarded := Guarded(op, mmapBase);
          ok := Step(pid, op);
          ok := ok && guarded && ph.current <= HEAP_START;
          if ok {
            UndisturbedNext(old(ph.mem), old(procs), m, o, p, ph.mem, ph.own, procs, steps, i);
          }
        } else {
          UndisturbedSkip(old(ph.mem), old(procs), m, p, steps, i);
        }
        i := i + 1;
      }
      assert steps[..|steps|] == steps;
    }
  }

  /** Process `pid` exists and can take this step: the program headers lie within the file, what was read
      from a file fits its mapping, and a zombie that was found is another process. */
  predicate Possible(procs: map<nat, Space>, pid: nat, op: Op) {
    && pid in procs
    && match op
       case Exec(file, _, _) => file.Loadable()
       case Mmap(_, len, _, _, _, _, file) => |file| <= RoundUp(len)
       case Store(_, data) => |data| < WORD_LIMIT
       case Wait4(child, _, _) => child in procs && child != pid
       case Heap(addr, data) => InHeap(addr, |data|)
       case _ => true
  }

  lemma NothingIsOff(va: Word)
    ensures AllOff(va, 0)
  {
  }

  /** Process `q` takes none of the steps. */
  predicate Idle(steps: seq<(nat, Op)>, q: nat) {
    forall i | 0 <= i < |steps| :: steps[i].0 != q
  }

  /** Every process that exists before and after and took none of the steps still has its table, its
      translations and the contents of its pages. */
  ghost predicate Undisturbed(m: Memory, procs: map<nat, Space>, m': Memory, procs': map<nat, Space>, steps: seq<(nat, Op)>) {
    forall q | q in procs && q in procs' && Idle(steps, q) ::
      procs'[q] == procs[q] && Unchanged(m, m', procs[q].root)
  }

  lemma UndisturbedNothing(m: Memory, own: Owners, procs: map<nat, Space>)
    requires TreesOk(m, own) && Private(m, own) && TableOk(m, own, procs)
    ensures Undisturbed(m, procs, m, procs, [])
  {
    forall q | q in procs ensures Unchanged(m, m, procs[q].root) {
      assert SpaceOk(m, own, procs[q]);
    }
  }

  lemma UndisturbedSkip(m: Memory, procs: map<nat, Space>, m': Memory, procs': map<nat, Space>,
                        steps: seq<(nat, Op)>, i: nat)
    requires i < |steps| && Undisturbed(m, procs, m', procs', steps[..i])
    ensures Undisturbed(m, procs, m', procs', steps[..i + 1])
  {
  }

  lemma UndisturbedNext(m0: Memory, procs0: map<nat, Space>, m: Memory, own: Owners, procs: map<nat, Space>,
                        m': Memory, own': Owners, procs': map<nat, Space>, steps: seq<(nat, Op)>, i: nat)
    requires i < |steps| && steps[i].0 in procs && TableOk(m, own, procs)
    requires Undisturbed(m0, procs0, m, procs, steps[..i])
    requires Steps(m, own, procs, m', own', procs', steps[i].0)
    requires forall q | q in procs0 && q in procs' :: q in procs
    ensures Undisturbed(m0, procs0, m', procs', steps[..i + 1])
  {
    forall q | q in procs0 && q in procs' && Idle(steps[..i + 1], q)
      ensures procs'[q] == procs0[q] && Unchanged(m0, m', procs0[q].root)
    {
      assert steps[..i + 1][i].0 != q;
      assert Idle(steps[..i], q);
      assert SpaceOk(m, own, procs[q]) && Apart(procs[q], procs[steps[i].0]);
      UnchangedTransitive(m0, m, m', procs0[q].root);
    }
  }

  lemma UnchangedTransitive(m: Memory, m1: Memory, m2: Memory, root: nat)
    requires Unchanged(m, m1, root) && Unchanged(m1, m2, root)
    ensures Unchanged(m, m2, root)
  {
    forall v
      ensures Lookup(m2, root, v) == Lookup(m, root, v)
      ensures UserLeaf(m, root, v) ==> var p := Lookup(m, root, v).value.ppn; p in m && p in m2 && m2[p] == m[p]
    {
      assert Lookup(m1, root, v) == Lookup(m, root, v);
    }
  }

  lemma StepsNothing(m: Memory, own: Owners, procs: map<nat, Space>, pid: nat)
    requires TreesOk(m, own) && Private(m, own) && pid in procs
    ensures Steps(m, own, procs, m, own, procs, pid)
  {
    ConfinedSpares(m, own, m, own, procs[pid].root);
  }

  /** A reaped process leaves the table. */
  lemma Leaves(m: Memory, own: Owners, m': Memory, own': Owners, procs: map<nat, Space>, pid: nat, child: nat)
    requires pid in procs && TableOk(m', own', procs) && Steps(m, own, procs, m', own', procs, pid)
    ensures TableOk(m', own', procs - {child}) && Steps(m, own, procs, m', own', procs - {child}, pid)
  {
  }

  /** The memory part of `fork_process`: the child's table and kernel stack. */
  method ForkSpace(ph: Phys, procs: map<nat, Space>, pid: nat, child: nat) returns (r: Outcome<Space>)
    requires ph.Valid() && Private(ph.mem, ph.own) && TableOk(ph.mem, ph.own, procs)
    requires pid in procs && child !in procs
    modifies ph
    ensures ph.Valid() && Private(ph.mem, ph.own)
    ensures !r.Panics? ==>
              var procs' := if r.Done? then procs[child := r.value] else procs;
              && TableOk(ph.mem, ph.own, procs')
              && Steps(old(ph.mem), old(ph.own), procs, ph.mem, ph.own, procs', pid)
              && Unchanged(old(ph.mem), ph.mem, procs[pid].root)
              && (r.Done? ==> Forked(old(ph.mem), old(ph.own), procs, ph.mem, ph.own, procs', pid, child))
    ensures r.Done? ==> r.value.root == old(ph.top) && r.value.kstack + 2 == ph.top && old(ph.top) + TABLES + 2 <= ph.top
    ensures r.Done? ==> r.value.brk == procs[pid].brk
    ensures !r.Panics? ==> old(ph.top) <= ph.top
    ensures r != Panics(Remap)
    ensures !r.Done? ==> ph.current + 2 * PAGE_SIZE > ph.end
  {
    hide Phys.Valid, TakenUpTo, RootsTaken, TreesOk, Private, Standard, Cloned, Extends, Unchanged, TableOk, Steps,
      StackTaken, Forked, UserBelowKernel, Aside;
    ValidTrees(ph);
    ValidTaken(ph);
    SpaceIsOk(ph.mem, ph.own, procs, pid);
    StandardIsBelowKernel(ph.mem, procs[pid].root);
    var parent := procs[pid];
    ghost var m, o := ph.mem, ph.own;
    var cloned := CloneUserSpace(ph, parent.root);
    if cloned.Panics? {
      PanicCases(cloned);
      return Panics(cloned.why);
    }
    ValidTaken(ph);
    if cloned.Fails? {
      TableAside(m, o, ph.mem, ph.own, procs, pid);
      AsideKeepsOwned(m, o, ph.mem, ph.own);
      TopGrows(ph.base, old(ph.top), o, ph.top, ph.own);
      return Fails;
    }
    ghost var m1, o1 := ph.mem, ph.own;
    ExtendsAside(m, o, m1, o1, cloned.value);
    ValidTrees(ph);
    CopyCost(m, o, parent.root, m1, o1, cloned.value, ph.base, old(ph.top), ph.top);
    var kstack := ph.AllocPages(2);
    if kstack.None? {
      TableAside(m, o, ph.mem, ph.own, procs, pid);
      return Fails;
    }
    var s := Space(cloned.value, kstack.value / PAGE_SIZE, parent.brk);
    ForkTable(m, o, procs, m1, o1, ph.mem, ph.own, pid, child, s);
    return Done(s);
  }

  // ---- Steps of one process on its own address space ----

  /** A confined change of a process's own address space keeps the table. */
  lemma OwnStep(m: Memory, own: Owners, procs: map<nat, Space>, m': Memory, own': Owners, pid: nat, brk: Word)
    requires TreesOk(m, own) && Private(m, own) && TableOk(m, own, procs) && pid in procs
    requires Confined(m, own, m', own', procs[pid].root) && Standard(m', procs[pid].root)
    ensures TableOk(m', own', procs[pid := procs[pid].(brk := brk)])
    ensures Steps(m, own, procs, m', own', procs[pid := procs[pid].(brk := brk)], pid)
  {
    hide TreesOk, Private, Standard, Unchanged, Confined;
    var s := procs[pid].(brk := brk);
    ConfinedSpares(m, own, m', own', procs[pid].root);
    TableKept(m, own, m', own', procs, procs[pid].root);
    forall q | q in procs && q != pid ensures Apart(procs[q], s) && Apart(s, procs[q]) {
      assert Apart(procs[q], procs[pid]);
    }
  }

  /** `exec_process` moved the process to a fresh table. */
  lemma ExecTable(m: Memory, own: Owners, procs: map<nat, Space>, m': Memory, own': Owners, pid: nat, root: nat, brk: Word)
    requires TreesOk(m, own) && Private(m, own) && TableOk(m, own, procs) && pid in procs
    requires root !in own && IsRoot(own', root) && Extends(m, own, m', own', root) && Standard(m', root)
    ensures TableOk(m', own', procs[pid := procs[pid].(root := root, brk := brk)])
    ensures Steps(m, own, procs, m', own', procs[pid := procs[pid].(root := root, brk := brk)], pid)
  {
    hide TreesOk, Private, Standard, Unchanged, Extends;
    var s := procs[pid].(root := root, brk := brk);
    ExtendsAside(m, own, m', own', root);
    TableAside(m, own, m', own', procs, pid);
    forall q | q in procs && q != pid ensures Apart(procs[q], s) && Apart(s, procs[q]) {
      assert Apart(procs[q], procs[pid]) && SpaceOk(m, own, procs[q]);
    }
  }

  lemma ReadyIsStandard(m: Memory, own: Owners, root: nat, image: Image, argv: seq<Str>, envp: seq<Str>)
    requires AllInBounds(image.phdrs, image.data) && Ready(m, own, root, image, argv, envp)
    ensures Standard(m, root)
  {
    forall v ensures StandardAt(m, root, v) {
      assert ReadyAt(m, root, image, v);
    }
  }

  /** The memory part of `sys_execve` for a file that is there; the new table, or the old one if exec fails. */
  method ExecSpace(ph: Phys, heap: Bump, procs: map<nat, Space>, pid: nat, file: File, argv: seq<Str>, envp: seq<Str>)
    returns (r: Outcome<Space>, stopped: bool, ghost start: Memory, ghost loaded: Memory, ghost top: nat)
    requires ph.Valid() && Private(ph.mem, ph.own) && TableOk(ph.mem, ph.own, procs) && heap.Valid()
    requires Possible(procs, pid, Exec(file, argv, envp)) && !file.Missing?
    modifies ph, heap
    ensures heap.Valid()
    ensures stopped ==>
              && ph.current > HEAP_START
              && CopiedAside(old(ph.mem), old(ph.own), loaded, ph.own, ph.mem, old(heap.current), file.Data())
    ensures ph.current <= HEAP_START ==>
              && old(ph.top) <= ph.top
              && (!r.Done? || InPage(argv + envp) ==> ph.Valid() && Private(ph.mem, ph.own))
              && (r.Fails? || (r.Done? && InPage(argv + envp)) ==>
                    var procs' := if r.Done? then procs[pid := r.value] else procs;
                    && TableOk(ph.mem, ph.own, procs')
                    && Steps(old(ph.mem), old(ph.own), procs, ph.mem, ph.own, procs', pid))
              && (r.Fails? ==> Unusable(file, old(heap.current)))
              && (r.Panics? ==> file.Elf? && !Placeable(file.image))
              && (r.Done? ==>
                    && file.Elf? && old(ph.top) < ph.top && r.value.root != procs[pid].root
                    && r.value == procs[pid].(root := old(ph.top), brk := r.value.brk)
                    && (start == old(ph.mem) || start == WithCopy(old(ph.mem), old(heap.current), file.Data()))
                    && Executed(start, old(ph.own), loaded, ph.mem, ph.own,
                                Started(r.value.root, r.value.brk, STACK_TOP), top, file.image, argv, envp))
  {
    hide Phys.Valid, TakenUpTo, TreesOk, Private, Standard, Unchanged, TableOk, Steps, Extends, Ready, Aside, Placeable,
      Loaded, InPage, ImageWritten, BelowHeap, WithCopy;
    ValidTrees(ph);
    SpaceIsOk(ph.mem, ph.own, procs, pid);
    ghost var m, o := ph.mem, ph.own;
    var started;
    started, stopped, start, loaded, top := ExecProcess(ph, heap, file, argv, envp);
    if ph.current <= HEAP_START && !started.Panics? {
      CopySpares(m, o, procs, pid, start, old(heap.current), file.Data());
    }
    if started.Panics? {
      r := Panics(started.why);
      return;
    }
    if started.Fails? {
      if ph.current <= HEAP_START {
        TableAside(start, o, ph.mem, ph.own, procs, pid);
        OwnedAreThere(m, o);
        StepsThen(m, o, procs, start, ph.mem, ph.own, procs, pid);
      }
      r := Fails;
      return;
    }
    var Started(root, brk, _) := started.value;
    var s := procs[pid].(root := root, brk := brk);
    if ph.current <= HEAP_START && InPage(argv + envp) {
      ReadyIsStandard(ph.mem, ph.own, root, file.image, argv, envp);
      ExecTable(start, o, procs, ph.mem, ph.own, pid, root, brk);
      OwnedAreThere(m, o);
      StepsThen(m, o, procs, start, ph.mem, ph.own, procs[pid := s], pid);
    }
    r := Done(s);
  }

  lemma OwnedAreThere(m: Memory, own: Owners)
    requires TreesOk(m, own)
    ensures forall p | p in own :: p in m
  {
  }

  method BrkSpace(ph: Phys, procs: map<nat, Space>, pid: nat, addr: Word) returns (r: Outcome<Space>)
    requires ph.Valid() && Private(ph.mem, ph.own) && TableOk(ph.mem, ph.own, procs) && pid in procs
    modifies ph
    ensures ph.Valid() && Private(ph.mem, ph.own)
    ensures r.Done? ==>
              && TableOk(ph.mem, ph.own, procs[pid := r.value])
              && Steps(old(ph.mem), old(ph.own), procs, ph.mem, ph.own, procs[pid := r.value], pid)
    ensures Grows(old(ph.mem), old(ph.own), ph.mem, ph.own, procs[pid].root)
    ensures r.Done? ==> r.value == procs[pid].(brk := UserHeap.NextBreak(procs[pid].brk, addr)) && old(ph.top) <= ph.top
    ensures ph.current <= HEAP_START ==>
              HeapGrown(old(ph.mem), ph.mem, procs[pid].root, UserHeap.Start(procs[pid].brk), addr)
    ensures !r.Done? ==> ph.current + PAGE_SIZE > ph.end
  {
    hide Phys.Valid, TreesOk, Private, Standard, Unchanged, TableOk, Steps, Grows, Confined, UserHeap.AllMapped,
      UserHeap.ZeroPagesAdded, RoundUp, HeapGrown;
    SpaceIsOk(ph.mem, ph.own, procs, pid);
    ValidTrees(ph);
    ValidTaken(ph);
    ghost var m, o := ph.mem, ph.own;
    var s := procs[pid];
    var brk := UserHeap.Brk(ph, s.root, s.brk, addr);
    ValidTaken(ph);
    ghost var lo, hi := UserHeap.EndPage(s.brk), RoundUp(addr) / PAGE_SIZE;
    UserHeap.AddedGrows(m, o, ph.mem, ph.own, s.root, lo, hi, URW);
    ValidTrees(ph);
    OwnedBelowEnd(ph);
    if ph.current <= HEAP_START {
      AddedIsHeap(m, o, ph.mem, ph.own, s.root, UserHeap.Start(s.brk), addr);
    }
    if !brk.Done? {
      return Fails;
    }
    AddedIsStandard(m, o, ph.mem, ph.own, s.root, lo, hi, URW);
    OwnStep(m, o, procs, ph.mem, ph.own, pid, brk.value);
    return Done(s.(brk := brk.value));
  }

  method MmapSpace(ph: Phys, procs: map<nat, Space>, pid: nat, base: Word, addr: Word, len: Word,
                   r: bool, w: bool, x: bool, fixed: bool, file: seq<Byte>) returns (e: MmapEnd, ghost grown: Memory)
    requires ph.Valid() && Private(ph.mem, ph.own) && TableOk(ph.mem, ph.own, procs)
    requires Possible(procs, pid, Mmap(addr, len, r, w, x, fixed, file))
    modifies ph
    ensures e.Mapped? ==> e.base == NextBase(base, RoundUp(len), fixed)
    ensures !e.Panicked? ==>
              (ph.mem, e.Mapped?) == FillAll(grown, procs[pid].root, MmapAt(base, addr, fixed), RoundUp(len), file)
    ensures AllOff(MmapAt(base, addr, fixed), RoundUp(len)) ==>
              && ph.Valid() && Private(ph.mem, ph.own) && TableOk(ph.mem, ph.own, procs)
              && Steps(old(ph.mem), old(ph.own), procs, ph.mem, ph.own, procs, pid)
              && (forall v | old(Lookup(ph.mem, procs[pid].root, v)).Some? ::
                    Lookup(ph.mem, procs[pid].root, v) == old(Lookup(ph.mem, procs[pid].root, v)))
              && (e.Mapped? ==>
                    Mmapped(old(ph.mem), ph.mem, procs[pid].root, MmapAt(base, addr, fixed), RoundUp(len), r, w, x, file))
              && old(ph.top) <= ph.top
  {
    hide Phys.Valid, TreesOk, Private, Standard, Unchanged, TableOk, Steps, Confined, UserHeap.AllMapped,
      UserHeap.ZeroPagesAdded, Grows, FillAll, Filled, AllCanStore, AllOff, Lookup, Mmapped, KeptOutside, OwnRange;
    SpaceIsOk(ph.mem, ph.own, procs, pid);
    ValidTrees(ph);
    ValidTaken(ph);
    ghost var m, o := ph.mem, ph.own;
    var s := procs[pid];
    e, grown := UserStore.Mmap(ph, s.root, base, addr, len, r, w, x, fixed, file);
    ghost var lo := MmapAt(base, addr, fixed) / PAGE_SIZE;
    ghost var hi := lo + RoundUp(len) / PAGE_SIZE;
    AddedIsStandard(m, o, grown, ph.own, s.root, lo, hi, MmapFlags(r, w, x));
    UserHeap.AddedGrows(m, o, grown, ph.own, s.root, lo, hi, MmapFlags(r, w, x));
    GrowsKeepsRoot(m, o, grown, ph.own, s.root, s.root);
    if AllOff(MmapAt(base, addr, fixed), RoundUp(len)) {
      if !e.Panicked? {
        GrownThenFilled(m, o, grown, ph.own, s.root, MmapAt(base, addr, fixed), RoundUp(len), file);
      }
      if e.Mapped? {
        MmapMakes(m, o, grown, ph.own, ph.mem, s.root, MmapAt(base, addr, fixed), RoundUp(len), r, w, x, file);
      }
      SameKeys(m, o, ph.mem, ph.own, s.root);
      OwnStep(m, o, procs, ph.mem, ph.own, pid, s.brk);
      assert procs[pid := s.(brk := s.brk)] == procs;
      ValidTaken(ph);
    }
  }

  lemma SameKeys(m: Memory, own: Owners, m': Memory, own': Owners, root: nat)
    requires Confined(m, own, m', own', root)
    ensures m'.Keys == m.Keys
  {
  }

  /** A store through the table of process `pid`, by itself or by the kernel for it. */
  method StoreSpace(ph: Phys, procs: map<nat, Space>, pid: nat, va: Word, data: seq<Byte>, mode: Mode) returns (ok: bool)
    requires ph.Valid() && Private(ph.mem, ph.own) && TableOk(ph.mem, ph.own, procs) && pid in procs && |data| < WORD_LIMIT
    modifies ph`mem
    ensures (ph.mem, ok) == StoreAll(old(ph.mem), procs[pid].root, va, data, mode)
    ensures mode.User? || AllOff(va, |data|) ==>
              && ph.Valid() && Private(ph.mem, ph.own) && TableOk(ph.mem, ph.own, procs)
              && Steps(old(ph.mem), ph.own, procs, ph.mem, ph.own, procs, pid)
              && Stored(old(ph.mem), ph.mem, ph.own, procs[pid].root)
              && (ok <==> AllCanStore(old(ph.mem), procs[pid].root, va, |data|, mode))
              && (ok ==> Written(old(ph.mem), ph.mem, procs[pid].root, va, data))
  {
    hide TreesOk, Private, Standard, Unchanged, TableOk, Steps, Confined, Stored, StoreAll, AllCanStore, Written, AllOff;
    SpaceIsOk(ph.mem, ph.own, procs, pid);
    ghost var m := ph.mem;
    var s := procs[pid];
    ok := StoreRange(ph, s.root, va, data, mode);
    if mode.User? || AllOff(va, |data|) {
      StoreAllIsOwn(m, ph.own, s.root, va, data, mode);
      StoredStandard(m, ph.mem, ph.own, s.root);
      SameKeys(m, ph.own, ph.mem, ph.own, s.root);
      OwnStep(m, ph.own, procs, ph.mem, ph.own, pid, s.brk);
      assert procs[pid := s.(brk := s.brk)] == procs;
    }
  }
}

/**
 Stores through a table as the processor does them, and sys_mmap (src/syscall.rs).
 */
module UserStore {
  import opened Base
  import opened Pte
  import opened Sv39
  import opened FrameBytes
  import opened PhysMem
  import opened AddressSpace
  import opened HwWalk
  import opened UserRead
  import opened UserHeap

  /** Only user pages of `root` were written, and no translation changed. */
  ghost predicate Stored(m: Memory, m': Memory, own: Owners, root: nat) {
    && m'.Keys == m.Keys
    && (forall p | p in m && m'[p] != m[p] :: p in own && own[p].Page? && own[p].root == root)
    && (forall r, v | IsRoot(own, r) :: Lookup(m', r, v) == Lookup(m, r, v))
  }

  lemma StoredTransitive(m: Memory, m1: Memory, m2: Memory, own: Owners, root: nat)
    requires Stored(m, m1, own, root) && Stored(m1, m2, own, root)
    ensures Stored(m, m2, own, root)
  {
    forall p | p in m && m2[p] != m[p] ensures p in own && own[p].Page? && own[p].root == root {
      if m1[p] != m[p] {
      }
    }
    forall r, v | IsRoot(own, r) ensures Lookup(m2, r, v) == Lookup(m, r, v) {
      assert Lookup(m1, r, v) == Lookup(m, r, v);
    }
  }

  lemma StoredNothing(m: Memory, own: Owners, root: nat)
    ensures Stored(m, m, own, root)
  {
  }

  lemma StoredStandard(m: Memory, m': Memory, own: Owners, root: nat)
    requires Stored(m, m', own, root) && IsRoot(own, root) && Standard(m, root)
    ensures Standard(m', root) && Confined(m, own, m', own, root)
    ensures forall v :: Lookup(m', root, v) == Lookup(m, root, v)
  {
    forall v ensures StandardAt(m', root, v) {
      assert StandardAt(m, root, v);
      assert Lookup(m', root, v) == Lookup(m, root, v);
    }
  }

  // ---- One store ----

  /** Who stores: the program, or the kernel for it. The trap vector sets SUM, so the kernel may store to
      user pages too. */
  datatype Mode = User | Supervisor

  /** The frame that a store to `va` reaches, unless it faults. */
  function StoreFrame(m: Memory, root: nat, va: Word, mode: Mode): Option<nat> {
    match HwTranslate(m, root, va)
    case Translates(pa, f) => if f.w && (mode.User? ==> f.u) then Some(pa / PAGE_SIZE) else None
    case _ => None
  }

  predicate CanStore(m: Memory, root: nat, va: Word, mode: Mode) {
    StoreFrame(m, root, va, mode).Some?
  }

  /** What the leaf must be for the store to go through. */
  predicate Storable(leaf: Leaf, mode: Mode) {
    leaf.flags.r && leaf.flags.w && leaf.ppn < HW_PPN_LIMIT && (mode.User? ==> leaf.flags.u)
  }

  /** A store goes through exactly if the address is canonical and its leaf readable, writable and, for
      the program, a user leaf. */
  lemma StoreFrameIs(m: Memory, own: Owners, root: nat, va: Word, mode: Mode)
    requires TreesOk(m, own) && IsRoot(own, root)
    ensures StoreFrame(m, root, va, mode) ==
              match Lookup(m, root, Indices(va / PAGE_SIZE))
              case None => None
              case Some(leaf) => if Canonical(va) && Storable(leaf, mode) then Some(leaf.ppn) else None
  {
    hide HwStep, Lookup, Indices;
    SamePath(m, own, root, root, va / PAGE_SIZE, va % PAGE_SIZE, 0);
    match Lookup(m, root, Indices(va / PAGE_SIZE))
    case None =>
    case Some(leaf) => PageOffset(leaf.ppn, va % PAGE_SIZE);
  }

  /** Memory after a store of `data` at `va` that does not leave its page. */
  function ChunkStored(m: Memory, root: nat, va: Word, data: seq<Byte>, mode: Mode): Memory
    requires va % PAGE_SIZE + |data| <= PAGE_SIZE
  {
    match StoreFrame(m, root, va, mode)
    case None => m
    case Some(p) => Overwrite(m, p, va % PAGE_SIZE, data)
  }

  /** A store that does not leave its page, as an instruction does it; false if it faults. */
  method StoreChunk(k: Phys, root: nat, va: Word, data: seq<Byte>, mode: Mode) returns (ok: bool)
    requires va % PAGE_SIZE + |data| <= PAGE_SIZE
    modifies k`mem
    ensures ok <==> CanStore(old(k.mem), root, va, mode)
    ensures k.mem == ChunkStored(old(k.mem), root, va, data, mode)
  {
    var walked := HwTranslate(k.mem, root, va);
    if !walked.Translates? || !walked.flags.w || (mode.User? && !walked.flags.u) {
      return false;
    }
    var p := walked.pa / PAGE_SIZE;
    if p in k.mem {
      k.mem := k.mem[p := WithBytes(k.mem[p], va % PAGE_SIZE, data)];
    }
    return true;
  }

  // ---- What a store to a user page does ----

  /** The page at `va` is a user page. */
  predicate UserAt(m: Memory, root: nat, va: nat) {
    UserLeaf(m, root, Indices(va / PAGE_SIZE))
  }

  /** The address `i` above `va`; addresses wrap. */
  function Plus(va: Word, i: nat): Word {
    (va + i) % WORD_LIMIT
  }

  /** How far address `a` is above `va`, going round at the end of the address range. */
  function Above(va: Word, a: Word): Word {
    (a - va) % WORD_LIMIT
  }

  ghost predicate WrittenByte(m: Memory, m': Memory, root: nat, va: Word, data: seq<Byte>, a: Word) {
    ReadByte(m', root, a) == if Above(va, a) < |data| then Some(data[Above(va, a)]) else ReadByte(m, root, a)
  }

  /** The user pages hold `data` from `va` up, and everything else as before. */
  ghost predicate Written(m: Memory, m': Memory, root: nat, va: Word, data: seq<Byte>) {
    forall a: Word | Canonical(a) && UserAt(m, root, a) :: WrittenByte(m, m', root, va, data, a)
  }

  lemma AboveInPage(va: Word, a: Word, len: nat)
    requires va % PAGE_SIZE + len <= PAGE_SIZE
    ensures Above(va, a) < len <==> a / PAGE_SIZE == va / PAGE_SIZE && va % PAGE_SIZE <= a % PAGE_SIZE < va % PAGE_SIZE + len
    ensures Above(va, a) < len ==> Above(va, a) == a % PAGE_SIZE - va % PAGE_SIZE
  {
    if a < va {
      assert Above(va, a) == a - va + WORD_LIMIT;
    } else {
      assert Above(va, a) == a - va;
    }
  }

  lemma AboveShift(va: Word, a: Word, d: nat)
    requires d <= WORD_LIMIT
    ensures Above(Plus(va, d), a) == if Above(va, a) >= d then Above(va, a) - d else Above(va, a) - d + WORD_LIMIT
  {
  }

  /** On canonical addresses the three indices tell all pages apart. */
  lemma CanonicalPages(a: Word, b: Word)
    requires Canonical(a) && Canonical(b)
    ensures Indices(a / PAGE_SIZE) == Indices(b / PAGE_SIZE) ==> a / PAGE_SIZE == b / PAGE_SIZE
  {
    hide Indices, Number;
    NumberOfIndices(a / PAGE_SIZE);
    NumberOfIndices(b / PAGE_SIZE);
    CanonicalRemainder(a / PAGE_SIZE, b / PAGE_SIZE);
  }

  lemma CanonicalRemainder(x: nat, y: nat)
    requires x < 0x400_0000 || PPN_LIMIT - 0x400_0000 <= x < PPN_LIMIT
    requires y < 0x400_0000 || PPN_LIMIT - 0x400_0000 <= y < PPN_LIMIT
    ensures x % VPN_LIMIT == y % VPN_LIMIT ==> x == y
  {
    HighRemainder(x);
    HighRemainder(y);
  }

  lemma HighRemainder(x: nat)
    requires x < 0x400_0000 || PPN_LIMIT - 0x400_0000 <= x < PPN_LIMIT
    ensures x % VPN_LIMIT == if x < 0x400_0000 then x else x - (PPN_LIMIT - VPN_LIMIT)
  {
    if x >= 0x400_0000 {
      RemainderIs(x, PPN_LIMIT / VPN_LIMIT - 1, x - (PPN_LIMIT - VPN_LIMIT));
    }
  }

  lemma ChunkWritten(m: Memory, m': Memory, own: Owners, root: nat, va: Word, data: seq<Byte>, p: nat)
    requires Private(m, own) && IsRoot(own, root) && UserAt(m, root, va) && Canonical(va)
    requires va % PAGE_SIZE + |data| <= PAGE_SIZE
    requires p == Lookup(m, root, Indices(va / PAGE_SIZE)).value.ppn && p in m && p in m'
    requires OnlyFrame(m, m', own, p) && Copied(m[p], m'[p], va % PAGE_SIZE, data)
    ensures Written(m, m', root, va, data)
  {
    forall a: Word | Canonical(a) && UserAt(m, root, a) ensures WrittenByte(m, m', root, va, data, a) {
      ChunkWrittenByte(m, m', own, root, va, data, p, a);
    }
  }

  lemma ChunkWrittenByte(m: Memory, m': Memory, own: Owners, root: nat, va: Word, data: seq<Byte>, p: nat, a: Word)
    requires Private(m, own) && IsRoot(own, root) && UserAt(m, root, va) && UserAt(m, root, a)
    requires Canonical(va) && Canonical(a) && va % PAGE_SIZE + |data| <= PAGE_SIZE
    requires p == Lookup(m, root, Indices(va / PAGE_SIZE)).value.ppn && p in m && p in m'
    requires OnlyFrame(m, m', own, p) && Copied(m[p], m'[p], va % PAGE_SIZE, data)
    ensures WrittenByte(m, m', root, va, data, a)
  {
    hide Lookup, BytesOf, Indices;
    var n, o := a / PAGE_SIZE, a % PAGE_SIZE;
    var q := Lookup(m, root, Indices(n)).value.ppn;
    assert Lookup(m', root, Indices(n)) == Lookup(m, root, Indices(n));
    if n == va / PAGE_SIZE {
      AboveInPage(va, a, |data|);
      PhysByteInPage(m, p, BytesOf(m[p]), o);
      PhysByteInPage(m', p, BytesOf(m'[p]), o);
    } else {
      AboveInPage(va, a, |data|);
      CanonicalPages(va, a);
      PathDecidesPage(Indices(n), Indices(va / PAGE_SIZE));
      assert q != p;
      PageOffset(q, o);
    }
  }

  lemma WrittenThen(m: Memory, m1: Memory, m2: Memory, own: Owners, root: nat, va: Word, d: seq<Byte>, e: seq<Byte>)
    requires Written(m, m1, root, va, d) && Written(m1, m2, root, Plus(va, |d|), e) && Stored(m, m1, own, root)
    requires IsRoot(own, root) && |d| + |e| <= WORD_LIMIT
    ensures Written(m, m2, root, va, d + e)
  {
    hide ReadByte, Lookup, Indices, Above, Plus;
    forall a: Word | Canonical(a) && UserAt(m, root, a) ensures WrittenByte(m, m2, root, va, d + e, a) {
      assert WrittenByte(m, m1, root, va, d, a);
      assert UserAt(m1, root, a);
      assert WrittenByte(m1, m2, root, Plus(va, |d|), e, a);
      AboveShift(va, a, |d|);
    }
  }

  /** The page of `va` is not one of the kernel's. */
  predicate OffKernel(va: Word) {
    KernelLeaf(Number(Indices(va / PAGE_SIZE))) == None
  }

  /** A store that can only reach user pages: by the program, or by the kernel off its own pages. */
  ghost predicate ToUser(m: Memory, root: nat, va: Word, mode: Mode) {
    mode.User? || (Standard(m, root) && OffKernel(va))
  }

  /** Such a store reaches the frame of a user page of its own address space. */
  lemma ReachesOwnPage(m: Memory, own: Owners, root: nat, va: Word, mode: Mode)
    requires TreesOk(m, own) && Private(m, own) && IsRoot(own, root) && ToUser(m, root, va, mode)
    requires CanStore(m, root, va, mode)
    ensures UserAt(m, root, va) && Canonical(va)
    ensures var p := Lookup(m, root, Indices(va / PAGE_SIZE)).value.ppn;
            && StoreFrame(m, root, va, mode) == Some(p)
            && p in m && p in own && own[p] == Page(root, Indices(va / PAGE_SIZE).Path(3))
  {
    hide Lookup, Indices, Number, KernelLeaf;
    StoreFrameIs(m, own, root, va, mode);
    if mode.Supervisor? {
      assert StandardAt(m, root, Indices(va / PAGE_SIZE));
    }
  }

  lemma ChunkIsOwn(m: Memory, own: Owners, root: nat, va: Word, data: seq<Byte>, mode: Mode)
    requires TreesOk(m, own) && Private(m, own) && IsRoot(own, root) && ToUser(m, root, va, mode)
    requires va % PAGE_SIZE + |data| <= PAGE_SIZE
    ensures var m' := ChunkStored(m, root, va, data, mode);
            && TreesOk(m', own) && Private(m', own) && Stored(m, m', own, root)
            && (CanStore(m, root, va, mode) ==> Written(m, m', root, va, data))
  {
    hide TreesOk, Private, Written, Lookup, WithBytes, ToUser, Indices, Vpn.Path;
    if CanStore(m, root, va, mode) {
      ReachesOwnPage(m, own, root, va, mode);
      var p := StoreFrame(m, root, va, mode).value;
      var f := WithBytes(m[p], va % PAGE_SIZE, data);
      DataWriteOk(m, own, p, f);
      WithBytesCopies(m[p], va % PAGE_SIZE, data);
      ChunkWritten(m, m[p := f], own, root, va, data, p);
    }
  }

  // ---- A store of any length ----

  /** Memory after a store of `data` at `va` and up, page by page, and whether it went through. It stops
      at the first page that faults. Addresses wrap. */
  function StoreAll(m: Memory, root: nat, va: Word, data: seq<Byte>, mode: Mode): (Memory, bool)
    decreases |data|
  {
    if data == [] then (m, true)
    else if !CanStore(m, root, va, mode) then (m, false)
    else
      var len := Min(|data|, PAGE_SIZE - va % PAGE_SIZE);
      StoreAll(ChunkStored(m, root, va, data[..len], mode), root, Plus(va, len), data[len..], mode)
  }

  /** A store of `data` at `va` and up; false if it faults. */
  method StoreRange(k: Phys, root: nat, va: Word, data: seq<Byte>, mode: Mode) returns (ok: bool)
    modifies k`mem
    ensures (k.mem, ok) == StoreAll(old(k.mem), root, va, data, mode)
  {
    hide Overwrite, StoreFrame;
    ok := true;
    var at: Word, rest := va, data;
    while ok && rest != []
      invariant ok ==> StoreAll(old(k.mem), root, va, data, mode) == StoreAll(k.mem, root, at, rest, mode)
      invariant !ok ==> StoreAll(old(k.mem), root, va, data, mode) == (k.mem, false)
      decreases ok, |rest|
    {
      var len := Min(|rest|, PAGE_SIZE - at % PAGE_SIZE);
      var stored := StoreChunk(k, root, at, rest[..len], mode);
      if stored {
        at, rest := Plus(at, len), rest[len..];
      } else {
        ok := false;
      }
    }
  }

  /** The bytes from `va` up are at addresses where a store goes through. */
  ghost predicate AllCanStore(m: Memory, root: nat, va: Word, len: nat, mode: Mode) {
    forall i | 0 <= i < len :: CanStore(m, root, Plus(va, i), mode)
  }

  /** The bytes from `va` up are on pages that are not the kernel's. */
  predicate AllOff(va: Word, len: nat) {
    forall i | 0 <= i < len :: OffKernel(Plus(va, i))
  }

  /** A store of `len` bytes that can only reach user pages. */
  ghost predicate AllToUser(m: Memory, root: nat, va: Word, len: nat, mode: Mode) {
    mode.User? || (Standard(m, root) && AllOff(va, len))
  }

  /** Whether a store goes through depends only on its page and on the translation. */
  lemma SameCanStore(m: Memory, m': Memory, own: Owners, root: nat, a: Word, b: Word, mode: Mode)
    requires TreesOk(m, own) && TreesOk(m', own) && IsRoot(own, root) && Stored(m, m', own, root)
    requires a / PAGE_SIZE == b / PAGE_SIZE
    ensures CanStore(m, root, a, mode) <==> CanStore(m', root, b, mode)
  {
    hide Lookup, Indices, TreesOk, StoreFrame;
    StoreFrameIs(m, own, root, a, mode);
    StoreFrameIs(m', own, root, b, mode);
    assert Lookup(m', root, Indices(a / PAGE_SIZE)) == Lookup(m, root, Indices(a / PAGE_SIZE));
  }

  lemma WrapSum(va: Word, len: nat, i: nat)
    requires len + i < WORD_LIMIT
    ensures Plus(Plus(va, len), i) == Plus(va, len + i)
  {
  }

  lemma SamePageSum(va: Word, i: nat)
    requires va % PAGE_SIZE + i < PAGE_SIZE
    ensures va + i < WORD_LIMIT && (va + i) / PAGE_SIZE == va / PAGE_SIZE
  {
  }

  /** A store that can only reach user pages changes nothing but those of its own address space, goes
      through exactly if every byte of it does, and then leaves exactly its data there. */
  lemma {:induction false} StoreAllIsOwn(m: Memory, own: Owners, root: nat, va: Word, data: seq<Byte>, mode: Mode)
    requires TreesOk(m, own) && Private(m, own) && IsRoot(own, root)
    requires AllToUser(m, root, va, |data|, mode) && |data| < WORD_LIMIT
    ensures var (m', ok) := StoreAll(m, root, va, data, mode);
            && TreesOk(m', own) && Private(m', own) && Stored(m, m', own, root)
            && (ok <==> AllCanStore(m, root, va, |data|, mode))
            && (ok ==> Written(m, m', root, va, data))
    decreases |data|
  {
    hide TreesOk, Private, Stored, Written, Standard, ChunkStored, CanStore, OffKernel, Plus, AllCanStore, AllOff;
    if data == [] {
      NothingToStore(m, root, va, mode);
      StoredNothing(m, own, root);
      WrittenNothing(m, root, va);
    } else {
      AtStart(m, root, va, |data|, mode);
      var len := Min(|data|, PAGE_SIZE - va % PAGE_SIZE);
      var next: Word := Plus(va, len);
      ChunkIsOwn(m, own, root, va, data[..len], mode);
      if !CanStore(m, root, va, mode) {
        StoredNothing(m, own, root);
      } else {
        var m1 := ChunkStored(m, root, va, data[..len], mode);
        if mode.Supervisor? {
          StoredStandard(m, m1, own, root);
        }
        AllOffSplits(va, |data|, len);
        StoreAllIsOwn(m1, own, root, next, data[len..], mode);
        var (m2, ok) := StoreAll(m1, root, next, data[len..], mode);
        StoredTransitive(m, m1, m2, own, root);
        AllCanStoreSplits(m, m1, own, root, va, |data|, len, mode);
        if ok {
          WrittenThen(m, m1, m2, own, root, va, data[..len], data[len..]);
          assert data[..len] + data[len..] == data;
        }
      }
    }
  }

  lemma AtStart(m: Memory, root: nat, va: Word, len: nat, mode: Mode)
    requires len > 0
    ensures AllOff(va, len) ==> OffKernel(va)
    ensures AllCanStore(m, root, va, len, mode) ==> CanStore(m, root, va, mode)
  {
    hide OffKernel, CanStore;
    assert Plus(va, 0) == va;
  }

  lemma NothingToStore(m: Memory, root: nat, va: Word, mode: Mode)
    ensures AllCanStore(m, root, va, 0, mode)
  {
  }

  lemma WrittenNothing(m: Memory, root: nat, va: Word)
    ensures Written(m, m, root, va, [])
  {
    hide ReadByte, Above;
  }

  lemma AllOffSplits(va: Word, len: nat, n: nat)
    requires n <= len < WORD_LIMIT
    ensures AllOff(va, len) ==> AllOff(Plus(va, n), len - n)
  {
    hide OffKernel, Plus;
    if AllOff(va, len) {
      forall i | 0 <= i < len - n ensures OffKernel(Plus(Plus(va, n), i)) {
        WrapSum(va, n, i);
      }
    }
  }

  lemma AllCanStoreSplits(m: Memory, m1: Memory, own: Owners, root: nat, va: Word, len: nat, n: nat, mode: Mode)
    requires TreesOk(m, own) && TreesOk(m1, own) && IsRoot(own, root) && Stored(m, m1, own, root)
    requires n <= len < WORD_LIMIT && va % PAGE_SIZE + n <= PAGE_SIZE && CanStore(m, root, va, mode)
    ensures AllCanStore(m, root, va, len, mode) <==> AllCanStore(m1, root, Plus(va, n), len - n, mode)
  {
    hide CanStore, TreesOk, Stored, Plus;
    var next: Word := Plus(va, n);
    if AllCanStore(m1, root, next, len - n, mode) {
      forall i | 0 <= i < len ensures CanStore(m, root, Plus(va, i), mode) {
        CanStoreMoves(m, m1, own, root, va, n, i, mode);
      }
    }
    if AllCanStore(m, root, va, len, mode) {
      forall i | 0 <= i < len - n ensures CanStore(m1, root, Plus(next, i), mode) {
        CanStoreMoves(m, m1, own, root, va, n, n + i, mode);
      }
    }
  }

  /** Byte `i` of a store whose first `n` bytes, on one page, are done. */
  lemma CanStoreMoves(m: Memory, m1: Memory, own: Owners, root: nat, va: Word, n: nat, i: nat, mode: Mode)
    requires TreesOk(m, own) && TreesOk(m1, own) && IsRoot(own, root) && Stored(m, m1, own, root)
    requires n < WORD_LIMIT && i < WORD_LIMIT && va % PAGE_SIZE + n <= PAGE_SIZE && CanStore(m, root, va, mode)
    ensures CanStore(m, root, Plus(va, i), mode) <==> i < n || CanStore(m1, root, Plus(Plus(va, n), i - n), mode)
  {
    hide CanStore, TreesOk, Stored;
    if i < n {
      SamePageSum(va, i);
      StoredNothing(m, own, root);
      SameCanStore(m, m, own, root, va, va + i, mode);
    } else {
      WrapSum(va, n, i - n);
      SameCanStore(m, m1, own, root, Plus(va, i), Plus(va, i), mode);
    }
  }

  // ---- mmap ----

  /** How mmap ends: an address and the next free base, a panic, or a fault in the kernel's own
      stores, which the trap handler answers with an endless loop. */
  datatype MmapEnd = Mapped(addr: Word, base: Word) | Panicked | Hangs

  /** Where `sys_mmap` puts the mapping: at `addr` if MAP_FIXED is given, else at the base. */
  function MmapAt(base: Word, addr: Word, fixed: bool): Word {
    if fixed then addr else if base == 0 then 0x5000_0000 else base
  }

  /** The base after the call: it moves past a mapping that was put at the base. */
  function NextBase(base: Word, aligned: nat, fixed: bool): Word {
    var start := if base == 0 then 0x5000_0000 else base;
    if fixed then start else (start + aligned) % WORD_LIMIT
  }

  predicate FilledAt(m: Memory, root: nat, va: Word, file: seq<Byte>, i: nat) {
    ReadByte(m, root, Plus(va, i)) == Some(if i < |file| then file[i] else 0)
  }

  /** The `len` bytes from `va` up are the file's bytes, and zeros behind them. */
  ghost predicate Filled(m: Memory, root: nat, va: Word, len: nat, file: seq<Byte>) {
    forall i | 0 <= i < len :: FilledAt(m, root, va, file, i)
  }

  lemma PlusAbove(va: Word, i: nat)
    requires i < WORD_LIMIT
    ensures Above(va, Plus(va, i)) == i
  {
  }

  lemma ClearedThenCopied(m: Memory, m1: Memory, m2: Memory, own: Owners, root: nat, va: Word, len: nat, file: seq<Byte>)
    requires TreesOk(m, own) && Private(m, own) && IsRoot(own, root) && Standard(m, root) && AllOff(va, len)
    requires Stored(m, m1, own, root) && Written(m, m1, root, va, Zeros(len)) && Written(m1, m2, root, va, file)
    requires AllCanStore(m, root, va, len, Supervisor) && |file| <= len < WORD_LIMIT
    ensures Filled(m2, root, va, len, file)
  {
    hide ReadByte, Lookup, Indices, Plus, Above, TreesOk, Private, Standard, OffKernel, CanStore;
    forall i | 0 <= i < len ensures FilledAt(m2, root, va, file, i) {
      var a := Plus(va, i);
      assert CanStore(m, root, a, Supervisor) && OffKernel(a);
      ReachesOwnPage(m, own, root, a, Supervisor);
      PlusAbove(va, i);
      assert WrittenByte(m, m1, root, va, Zeros(len), a);
      assert UserAt(m1, root, a);
      assert WrittenByte(m1, m2, root, va, file, a);
    }
  }

  lemma CanStoreShorter(m: Memory, m1: Memory, own: Owners, root: nat, va: Word, len: nat, less: nat)
    requires TreesOk(m, own) && TreesOk(m1, own) && IsRoot(own, root) && Stored(m, m1, own, root)
    requires less <= len && AllCanStore(m, root, va, len, Supervisor)
    ensures AllCanStore(m1, root, va, less, Supervisor)
  {
    hide CanStore, TreesOk, Stored, Plus;
    forall i | 0 <= i < less ensures CanStore(m1, root, Plus(va, i), Supervisor) {
      SameCanStore(m, m1, own, root, Plus(va, i), Plus(va, i), Supervisor);
    }
  }

  /** The program's bytes outside the range are as before. */
  ghost predicate KeptOutside(m: Memory, m': Memory, root: nat, va: Word, len: nat) {
    forall a: Word | Canonical(a) && UserAt(m, root, a) :: SameOutsideAt(m, m', root, va, len, a)
  }

  ghost predicate SameOutsideAt(m: Memory, m': Memory, root: nat, va: Word, len: nat, a: Word) {
    Above(va, a) >= len ==> ReadByte(m', root, a) == ReadByte(m, root, a)
  }

  /** The bytes of the range are the program's own. */
  ghost predicate OwnRange(m: Memory, root: nat, va: Word, len: nat) {
    forall i | 0 <= i < len :: OwnByte(m, root, Plus(va, i))
  }

  predicate OwnByte(m: Memory, root: nat, a: Word) {
    Canonical(a) && UserAt(m, root, a)
  }

  lemma WrittenKeepsOutside(m: Memory, m1: Memory, m2: Memory, own: Owners, root: nat, va: Word, len: nat, file: seq<Byte>)
    requires IsRoot(own, root) && Stored(m, m1, own, root) && |file| <= len
    requires Written(m, m1, root, va, Zeros(len)) && Written(m1, m2, root, va, file)
    ensures KeptOutside(m, m2, root, va, len)
  {
    hide ReadByte, Lookup, Indices, Above;
    forall a: Word | Canonical(a) && UserAt(m, root, a) ensures SameOutsideAt(m, m2, root, va, len, a) {
      assert WrittenByte(m, m1, root, va, Zeros(len), a);
      assert UserAt(m1, root, a);
      assert WrittenByte(m1, m2, root, va, file, a);
    }
  }

  lemma StorableIsOwn(m: Memory, m': Memory, own: Owners, root: nat, va: Word, len: nat)
    requires TreesOk(m, own) && Private(m, own) && IsRoot(own, root) && Standard(m, root) && Stored(m, m', own, root)
    requires AllOff(va, len) && AllCanStore(m, root, va, len, Supervisor)
    ensures OwnRange(m', root, va, len)
  {
    hide TreesOk, Private, Standard, Lookup, Indices, Plus, OffKernel, CanStore;
    forall i | 0 <= i < len ensures OwnByte(m', root, Plus(va, i)) {
      ReachesOwnPage(m, own, root, Plus(va, i), Supervisor);
    }
  }

  /** Memory after the kernel zeroes `len` bytes from `va` up and copies `file` there, and whether both
      went through. */
  function FillAll(m: Memory, root: nat, va: Word, len: nat, file: seq<Byte>): (Memory, bool) {
    var (m1, ok) := StoreAll(m, root, va, Zeros(len), Supervisor);
    if ok then StoreAll(m1, root, va, file, Supervisor) else (m1, false)
  }

  /** Off the kernel's pages, filling changes nothing but user pages of its own address space, goes through
      exactly if every byte of the range can be stored, and then leaves the file there and zeros behind it. */
  lemma FillIsOwn(m: Memory, own: Owners, root: nat, va: Word, len: nat, file: seq<Byte>)
    requires TreesOk(m, own) && Private(m, own) && IsRoot(own, root) && Standard(m, root)
    requires AllOff(va, len) && |file| <= len < WORD_LIMIT
    ensures var (m', ok) := FillAll(m, root, va, len, file);
            && TreesOk(m', own) && Private(m', own) && Stored(m, m', own, root)
            && (ok <==> AllCanStore(m, root, va, len, Supervisor))
            && (ok ==> Filled(m', root, va, len, file) && KeptOutside(m, m', root, va, len) && OwnRange(m', root, va, len))
  {
    hide TreesOk, Private, Stored, Written, Standard, StoreAll, AllCanStore, AllOff, OffKernel, Filled, KeptOutside, OwnRange;
    AllOffShorter(va, len, |file|);
    StoreAllIsOwn(m, own, root, va, Zeros(len), Supervisor);
    var (m1, ok) := StoreAll(m, root, va, Zeros(len), Supervisor);
    if ok {
      StoredStandard(m, m1, own, root);
      StoreAllIsOwn(m1, own, root, va, file, Supervisor);
      CanStoreShorter(m, m1, own, root, va, len, |file|);
      var (m2, ok2) := StoreAll(m1, root, va, file, Supervisor);
      StoredTransitive(m, m1, m2, own, root);
      ClearedThenCopied(m, m1, m2, own, root, va, len, file);
      WrittenKeepsOutside(m, m1, m2, own, root, va, len, file);
      StorableIsOwn(m, m2, own, root, va, len);
    }
  }

  lemma AllOffShorter(va: Word, len: nat, less: nat)
    requires AllOff(va, len) && less <= len
    ensures AllOff(va, less)
  {
  }

  /** Added user pages keep the table standard and everything else as it was. */
  lemma AddedIsStandard(m: Memory, own: Owners, m': Memory, own': Owners, root: nat, lo: nat, hi: nat, flags: Flags)
    requires ZeroPagesAdded(m, own, m', own', root, lo, hi, flags) && flags.u && Standard(m, root)
    ensures Standard(m', root) && Confined(m, own, m', own', root)
    ensures forall v | Lookup(m, root, v).Some? :: Lookup(m', root, v) == Lookup(m, root, v)
  {
    hide Lookup, Confined, KernelLeaf;
    forall v | Lookup(m', root, v) != Lookup(m, root, v) ensures UserLeaf(m', root, v) {
      assert FreshZero(own, m', own', root, v, flags);
    }
    StandardKept(m, m', root);
  }

  /** Filling after the growth stays confined to the address space. */
  lemma GrownThenFilled(m: Memory, own: Owners, grown: Memory, own': Owners, root: nat, va: Word, len: nat, file: seq<Byte>)
    requires TreesOk(grown, own') && Private(grown, own') && IsRoot(own', root) && Standard(grown, root)
    requires Confined(m, own, grown, own', root) && AllOff(va, len) && |file| <= len < WORD_LIMIT
    ensures var (m', ok) := FillAll(grown, root, va, len, file);
            && TreesOk(m', own') && Private(m', own') && Standard(m', root) && Confined(m, own, m', own', root)
            && (forall v :: Lookup(m', root, v) == Lookup(grown, root, v))
            && (ok <==> AllCanStore(grown, root, va, len, Supervisor))
            && (ok ==>
                  Filled(m', root, va, len, file) && KeptOutside(grown, m', root, va, len) && OwnRange(m', root, va, len))
  {
    hide TreesOk, Private, Stored, Standard, FillAll, AllCanStore, Filled, Confined, Lookup, AllOff, KeptOutside, OwnRange;
    FillIsOwn(grown, own', root, va, len, file);
    var m' := FillAll(grown, root, va, len, file).0;
    StoredStandard(grown, m', own', root);
    ConfinedTransitive(m, own, grown, own', m', own', root);
  }

  /** Zeroes the range and copies the file bytes over it; false if a store faults. */
  method FillRange(k: Phys, root: nat, ret: Word, aligned: nat, file: seq<Byte>) returns (ok: bool)
    modifies k`mem
    ensures (k.mem, ok) == FillAll(old(k.mem), root, ret, aligned, file)
    ensures old(k.Valid()) && TreesOk(k.mem, k.own) && k.mem.Keys == old(k.mem).Keys ==> k.Valid()
  {
    hide StoreAll, TreesOk, RootsTaken;
    ok := StoreRange(k, root, ret, Zeros(aligned), Supervisor);
    if ok {
      ok := StoreRange(k, root, ret, file, Supervisor);
    }
  }

  lemma GrowsKeepsKeys(m: Memory, own: Owners, m': Memory, own': Owners, root: nat)
    requires Grows(m, own, m', own', root)
    ensures m'.Keys == m.Keys
  {
  }

  function MmapFlags(r: bool, w: bool, x: bool): Flags {
    NO_FLAGS.(u := true, r := r, w := w, x := x)
  }

  /** `sys_mmap`: maps the missing pages of the range with the given permissions, zeroes the range,
      and copies `file`, the bytes read for a file-backed mapping. `grown` is memory between the two:
      zeroed pages of the range, and nothing else, were added. Then the kernel's stores follow. */
  method Mmap(k: Phys, root: nat, base: Word, addr: Word, len: Word, r: bool, w: bool, x: bool, fixed: bool,
              file: seq<Byte>) returns (e: MmapEnd, ghost grown: Memory)
    requires k.Valid() && Private(k.mem, k.own) && IsRoot(k.own, root) && |file| <= RoundUp(len)
    modifies k
    ensures k.current >= old(k.current) && k.end == old(k.end)
    ensures TreesOk(grown, k.own) && Private(grown, k.own)
    ensures var lo := MmapAt(base, addr, fixed) / PAGE_SIZE;
            var hi := lo + RoundUp(len) / PAGE_SIZE;
            && ZeroPagesAdded(old(k.mem), old(k.own), grown, k.own, root, lo, hi, MmapFlags(r, w, x))
            && (AllMapped(grown, root, lo, hi) || k.current + PAGE_SIZE > k.end)
    ensures e.Mapped? ==> e.addr == MmapAt(base, addr, fixed) && e.base == NextBase(base, RoundUp(len), fixed)
    ensures e.Panicked? ==> k.mem == grown && k.current + PAGE_SIZE > k.end
    ensures !e.Panicked? ==> (k.mem, e.Mapped?) == FillAll(grown, root, MmapAt(base, addr, fixed), RoundUp(len), file)
    ensures TreesOk(k.mem, k.own) && k.mem.Keys == old(k.mem).Keys ==> k.Valid()
  {
    hide Phys.Valid, TreesOk, Private, ZeroPagesAdded, UserHeap.AllMapped, RoundUp, FillAll, Grows;
    var ret := MmapAt(base, addr, fixed);
    var aligned := RoundUp(len);
    var lo, count := ret / PAGE_SIZE, aligned / PAGE_SIZE;
    var more := EnsureRange(k, root, lo, lo + count, MmapFlags(r, w, x));
    AddedGrows(old(k.mem), old(k.own), k.mem, k.own, root, lo, lo + count, MmapFlags(r, w, x));
    GrowsKeepsKeys(old(k.mem), old(k.own), k.mem, k.own, root);
    ValidTrees(k);
    grown := k.mem;
    if !more.Done? {
      return Panicked, grown;
    }
    var filled := FillRange(k, root, ret, aligned, file);
    if !filled {
      return Hangs, grown;
    }
    return Mapped(ret, NextBase(base, aligned, fixed)), grown;
  }

  // ---- What one call and what many calls come to, off the kernel's pages ----

  lemma GrowsKeepsByte(m: Memory, own: Owners, m': Memory, own': Owners, root: nat, a: Word)
    requires TreesOk(m, own) && Private(m, own) && IsRoot(own, root) && Grows(m, own, m', own', root) && UserAt(m, root, a)
    ensures ReadByte(m', root, a) == ReadByte(m, root, a) && UserAt(m', root, a)
  {
    hide Lookup, Indices, BytesOf;
    var p := Lookup(m, root, Indices(a / PAGE_SIZE)).value.ppn;
    PageOffset(p, a % PAGE_SIZE);
  }

  /** A mapping was made: the range reads as the file followed by zeros and is the program's own; pages that were mapped are
      as they were, and the new ones lie in the range and have the asked permissions; and of what was the
      program's own, every byte outside the range is as it was. */
  ghost predicate Mmapped(m: Memory, m': Memory, root: nat, at: Word, len: nat, r: bool, w: bool, x: bool, file: seq<Byte>) {
    && Filled(m', root, at, len, file) && OwnRange(m', root, at, len) && KeptOutside(m, m', root, at, len)
    && (forall v :: MmappedAt(m, m', root, at, len, r, w, x, v))
  }

  ghost predicate MmappedAt(m: Memory, m': Memory, root: nat, at: Word, len: nat, r: bool, w: bool, x: bool, v: Vpn) {
    if Lookup(m', root, v) == Lookup(m, root, v) then true
    else
      && Lookup(m, root, v) == None && Lookup(m', root, v).Some?
      && Lookup(m', root, v).value.flags == Flags(true, r, w, x, true, false, true, true)
      && InPages(v, at / PAGE_SIZE, at / PAGE_SIZE + len / PAGE_SIZE)
  }

  lemma MmapMakes(m: Memory, own: Owners, grown: Memory, own': Owners, m': Memory, root: nat, at: Word, len: nat,
                  r: bool, w: bool, x: bool, file: seq<Byte>)
    requires TreesOk(m, own) && Private(m, own) && IsRoot(own, root)
    requires ZeroPagesAdded(m, own, grown, own', root, at / PAGE_SIZE, at / PAGE_SIZE + len / PAGE_SIZE, MmapFlags(r, w, x))
    requires (forall v :: Lookup(m', root, v) == Lookup(grown, root, v))
    requires Filled(m', root, at, len, file) && KeptOutside(grown, m', root, at, len) && OwnRange(m', root, at, len)
    ensures Mmapped(m, m', root, at, len, r, w, x, file)
  {
    hide Lookup, Filled, OwnRange, ReadByte, Above, TreesOk, Private, InPages, Grows;
    var lo, hi := at / PAGE_SIZE, at / PAGE_SIZE + len / PAGE_SIZE;
    AddedGrows(m, own, grown, own', root, lo, hi, MmapFlags(r, w, x));
    forall v ensures MmappedAt(m, m', root, at, len, r, w, x, v) {
      if Lookup(grown, root, v) != Lookup(m, root, v) {
        NewPageWasFree(m, own, grown, own', root, v);
        assert FreshZero(own, grown, own', root, v, MmapFlags(r, w, x));
      }
    }
    forall a: Word | Canonical(a) && UserAt(m, root, a) ensures SameOutsideAt(m, m', root, at, len, a) {
      GrowsKeepsByte(m, own, grown, own', root, a);
      assert SameOutsideAt(grown, m', root, at, len, a);
    }
  }

  lemma NewPageWasFree(m: Memory, own: Owners, m': Memory, own': Owners, root: nat, v: Vpn)
    requires Grows(m, own, m', own', root) && Lookup(m', root, v) != Lookup(m, root, v)
    ensures Lookup(m, root, v) == None
  {
    hide Lookup, Extends;
  }

  /** One call off the kernel's pages. */
  method MmapOff(k: Phys, root: nat, base: Word, addr: Word, len: Word, r: bool, w: bool, x: bool, fixed: bool,
                 file: seq<Byte>) returns (e: MmapEnd)
    requires k.Valid() && Private(k.mem, k.own) && IsRoot(k.own, root) && Standard(k.mem, root) && |file| <= RoundUp(len)
    requires AllOff(MmapAt(base, addr, fixed), RoundUp(len))
    modifies k
    ensures k.Valid() && Private(k.mem, k.own) && IsRoot(k.own, root) && Standard(k.mem, root)
    ensures Confined(old(k.mem), old(k.own), k.mem, k.own, root)
    ensures e.Panicked? ==> k.current + PAGE_SIZE > k.end
    ensures e.Mapped? ==>
              && e.addr == MmapAt(base, addr, fixed) && e.base == NextBase(base, RoundUp(len), fixed)
              && Mmapped(old(k.mem), k.mem, root, e.addr, RoundUp(len), r, w, x, file)
  {
    hide Phys.Valid, TreesOk, Private, Standard, Confined, UserHeap.AllMapped, ZeroPagesAdded, Grows, FillAll, AllCanStore,
      AllOff, Lookup, Mmapped, MmapAt, NextBase, Filled, KeptOutside, OwnRange;
    ValidTrees(k);
    ghost var m, o := k.mem, k.own;
    ghost var grown;
    e, grown := Mmap(k, root, base, addr, len, r, w, x, fixed, file);
    ghost var at := MmapAt(base, addr, fixed);
    ghost var lo, hi := at / PAGE_SIZE, at / PAGE_SIZE + RoundUp(len) / PAGE_SIZE;
    AddedIsStandard(m, o, grown, k.own, root, lo, hi, MmapFlags(r, w, x));
    AddedGrows(m, o, grown, k.own, root, lo, hi, MmapFlags(r, w, x));
    GrowsKeepsRoot(m, o, grown, k.own, root, root);
    if !e.Panicked? {
      GrownThenFilled(m, o, grown, k.own, root, at, RoundUp(len), file);
    }
    ConfinedKeepsKeys(m, o, k.mem, k.own, root);
    if e.Mapped? {
      MmapMakes(m, o, grown, k.own, k.mem, root, at, RoundUp(len), r, w, x, file);
    }
  }

  lemma ConfinedKeepsKeys(m: Memory, own: Owners, m': Memory, own': Owners, root: nat)
    requires Confined(m, own, m', own', root)
    ensures m'.Keys == m.Keys
  {
  }

  /** A call without MAP_FIXED. */
  datatype Request = Request(len: Word, r: bool, w: bool, x: bool, file: seq<Byte>)

  /** The bytes that the calls ask for, each rounded up to pages. */
  function Total(reqs: seq<Request>): nat {
    if reqs == [] then 0 else RoundUp(reqs[0].len) + Total(reqs[1..])
  }

  /** The ranges lie one behind the other from `start` on, up to `end`. */
  ghost predicate InOrder(reqs: seq<Request>, addrs: seq<Word>, start: nat, end: nat) {
    && |addrs| == |reqs|
    && (addrs != [] ==> addrs[0] == start)
    && (forall i | 0 <= i < |addrs| :: start <= addrs[i] && addrs[i] + RoundUp(reqs[i].len) <= end)
    && (forall i, j | 0 <= i < j < |addrs| :: addrs[i] + RoundUp(reqs[i].len) <= addrs[j])
  }

  ghost predicate AllFilled(m: Memory, root: nat, reqs: seq<Request>, addrs: seq<Word>) {
    |addrs| == |reqs| && forall i | 0 <= i < |reqs| :: Filled(m, root, addrs[i], RoundUp(reqs[i].len), reqs[i].file)
  }

  lemma InOrderNext(reqs: seq<Request>, addrs: seq<Word>, start: Word, end: nat)
    requires reqs != [] && start + RoundUp(reqs[0].len) <= end
    requires InOrder(reqs[1..], addrs, start + RoundUp(reqs[0].len), end)
    ensures InOrder(reqs, [start] + addrs, start, end)
  {
    hide RoundUp;
    var all := [start] + addrs;
    forall i | 0 < i < |all| ensures all[i] == addrs[i - 1] && reqs[i] == reqs[1..][i - 1] {
    }
    forall i, j | 0 <= i < j < |all| ensures all[i] + RoundUp(reqs[i].len) <= all[j] {
      if i > 0 {
        assert addrs[i - 1] + RoundUp(reqs[1..][i - 1].len) <= addrs[j - 1];
      }
    }
  }

  lemma AllFilledNext(m: Memory, root: nat, reqs: seq<Request>, addrs: seq<Word>, at: Word)
    requires reqs != [] && Filled(m, root, at, RoundUp(reqs[0].len), reqs[0].file) && AllFilled(m, root, reqs[1..], addrs)
    ensures AllFilled(m, root, reqs, [at] + addrs)
  {
    hide RoundUp, Filled;
    var all := [at] + addrs;
    forall i | 0 <= i < |reqs| ensures Filled(m, root, all[i], RoundUp(reqs[i].len), reqs[i].file) {
      if i > 0 {
        assert all[i] == addrs[i - 1] && reqs[i] == reqs[1..][i - 1];
      }
    }
  }

  /** A range that was filled stays so when only bytes behind it change. */
  lemma FilledStays(m: Memory, m': Memory, root: nat, at: Word, len: nat, file: seq<Byte>, next: Word, more: nat)
    requires Filled(m, root, at, len, file) && OwnRange(m, root, at, len) && KeptOutside(m, m', root, next, more)
    requires next == at + len && next + more <= WORD_LIMIT
    ensures Filled(m', root, at, len, file)
  {
    hide ReadByte, UserAt;
    forall i | 0 <= i < len ensures FilledAt(m', root, at, file, i) {
      assert FilledAt(m, root, at, file, i) && OwnByte(m, root, Plus(at, i));
      assert SameOutsideAt(m, m', root, next, more, Plus(at, i));
    }
  }

  /** What is kept outside a range and then outside the rest behind it is kept outside both. */
  lemma KeptOutsideThen(m: Memory, m1: Memory, m2: Memory, root: nat, at: Word, len: nat, more: nat)
    requires KeptOutside(m, m1, root, at, len) && at + len < WORD_LIMIT && at + len + more <= WORD_LIMIT
    requires KeptOutside(m1, m2, root, at + len, more)
    requires forall v | Lookup(m, root, v).Some? :: Lookup(m1, root, v) == Lookup(m, root, v)
    ensures KeptOutside(m, m2, root, at, len + more)
  {
    hide ReadByte, Lookup, Indices, Above, Plus, Canonical;
    PlainPlus(at, len);
    forall a: Word | Canonical(a) && UserAt(m, root, a) ensures SameOutsideAt(m, m2, root, at, len + more, a) {
      assert SameOutsideAt(m, m1, root, at, len, a);
      assert UserAt(m1, root, a);
      assert SameOutsideAt(m1, m2, root, at + len, more, a);
      AboveShift(at, a, len);
    }
  }

  lemma PlainPlus(va: Word, i: nat)
    requires va + i < WORD_LIMIT
    ensures Plus(va, i) == va + i
  {
  }

  lemma MmappedKeepsMapped(m: Memory, m': Memory, root: nat, at: Word, len: nat, r: bool, w: bool, x: bool, file: seq<Byte>)
    requires Mmapped(m, m', root, at, len, r, w, x, file)
    ensures forall v | Lookup(m, root, v).Some? :: Lookup(m', root, v) == Lookup(m, root, v)
  {
    hide Lookup;
    forall v | Lookup(m, root, v).Some? ensures Lookup(m', root, v) == Lookup(m, root, v) {
      assert MmappedAt(m, m', root, at, len, r, w, x, v);
    }
  }

  lemma NothingOutside(m: Memory, root: nat, va: Word)
    ensures KeptOutside(m, m, root, va, 0)
  {
  }

  lemma AllOffBehind(va: Word, len: nat, more: nat)
    requires AllOff(va, len + more) && va + len + more < WORD_LIMIT
    ensures AllOff(va, len) && AllOff(va + len, more)
  {
    hide OffKernel;
    AllOffSplits(va, len + more, len);
  }

  /** Any sequence of calls without MAP_FIXED that does not use up the address range: the first mapping is at 0x50000000
      if nothing was mapped before, each lies behind the one before it, and in the end all of them still read
      as their files followed by zeros: no call touches what an earlier one made. */
  method MmapRun(k: Phys, root: nat, base: Word, reqs: seq<Request>) returns (ok: bool, addrs: seq<Word>)
    requires k.Valid() && Private(k.mem, k.own) && IsRoot(k.own, root) && Standard(k.mem, root)
    requires forall i | 0 <= i < |reqs| :: |reqs[i].file| <= RoundUp(reqs[i].len)
    requires (if base == 0 then 0x5000_0000 else base) + Total(reqs) < WORD_LIMIT
    requires AllOff(if base == 0 then 0x5000_0000 else base, Total(reqs))
    modifies k
    ensures k.Valid() && Private(k.mem, k.own) && IsRoot(k.own, root) && Standard(k.mem, root)
    ensures ok ==>
              var start := if base == 0 then 0x5000_0000 else base;
              && InOrder(reqs, addrs, start, start + Total(reqs)) && AllFilled(k.mem, root, reqs, addrs)
              && KeptOutside(old(k.mem), k.mem, root, start, Total(reqs))
    decreases |reqs|
  {
    hide Phys.Valid, Private, Standard, Confined, AllOff, Filled, KeptOutside, OwnRange, AllFilled, InOrder, RoundUp,
      Above, MmappedAt, Lookup, TreesOk;
    var start: Word := if base == 0 then 0x5000_0000 else base;
    if reqs == [] {
      NothingOutside(k.mem, root, start);
      NoRequests(k.mem, root, start);
      return true, [];
    }
    var Request(len, r, w, x, file) := reqs[0];
    AllOffBehind(start, RoundUp(len), Total(reqs[1..]));
    var e := MmapOff(k, root, base, 0, len, r, w, x, false, file);
    if !e.Mapped? {
      return false, [];
    }
    ghost var m := k.mem;
    MmappedKeepsMapped(old(k.mem), m, root, start, RoundUp(len), r, w, x, file);
    ok, addrs := MmapRun(k, root, e.base, reqs[1..]);
    if ok {
      InOrderNext(reqs, addrs, start, start + Total(reqs));
      FilledStays(m, k.mem, root, start, RoundUp(len), file, e.base, Total(reqs[1..]));
      AllFilledNext(k.mem, root, reqs, addrs, start);
      KeptOutsideThen(old(k.mem), m, k.mem, root, start, RoundUp(len), Total(reqs[1..]));
    }
    addrs := [start] + addrs;
  }

  lemma NoRequests(m: Memory, root: nat, start: nat)
    ensures InOrder([], [], start, start) && AllFilled(m, root, [], [])
  {
  }

  // ---- The pages of the heap ----

  /** The program can store to the byte, and reads 0 there. */
  ghost predicate Blank(m: Memory, root: nat, va: Word) {
    CanStore(m, root, va, User) && ReadByte(m, root, va) == Some(0)
  }

  lemma AddedIsBlank(m: Memory, own: Owners, m': Memory, own': Owners, root: nat, lo: nat, hi: nat, va: Word)
    requires TreesOk(m', own') && IsRoot(own', root) && ZeroPagesAdded(m, own, m', own', root, lo, hi, URW)
    requires Canonical(va) && forall p | p in own' :: p < RAM_PAGES
    requires Lookup(m', root, Indices(va / PAGE_SIZE)) != Lookup(m, root, Indices(va / PAGE_SIZE))
    ensures Blank(m', root, va)
  {
    hide TreesOk, Lookup, Indices, Grows, Canonical, BytesOf, StoreFrame;
    StoreFrameIs(m', own', root, va, User);
    assert FreshZero(own, m', own', root, Indices(va / PAGE_SIZE), URW);
    var q := Lookup(m', root, Indices(va / PAGE_SIZE)).value.ppn;
    ZeroBytes(m'[q]);
    PhysByteInPage(m', q, BytesOf(m'[q]), va % PAGE_SIZE);
  }

  /** The page of `va` is mapped otherwise than before. */
  predicate Remapped(m: Memory, m': Memory, root: nat, va: Word) {
    Lookup(m', root, Indices(va / PAGE_SIZE)) != Lookup(m, root, Indices(va / PAGE_SIZE))
  }

  /** A heap that ended at `from` now reaches up to `addr`: the pages between the two roundings are mapped, and those that
      are new can be used by the program and are zero. */
  ghost predicate HeapGrown(m: Memory, m': Memory, root: nat, from: Word, addr: Word) {
    var lo, hi := RoundUp(from) / PAGE_SIZE, RoundUp(addr) / PAGE_SIZE;
    && (forall va: Word | Canonical(va) && Remapped(m, m', root, va) ::
          InPages(Indices(va / PAGE_SIZE), lo, hi) && Blank(m', root, va))
    && (addr > from ==> AllMapped(m', root, lo, hi))
  }

  lemma AddedIsHeap(m: Memory, own: Owners, m': Memory, own': Owners, root: nat, from: Word, addr: Word)
    requires TreesOk(m', own') && IsRoot(own, root) && forall p | p in own' :: p < RAM_PAGES
    requires ZeroPagesAdded(m, own, m', own', root, RoundUp(from) / PAGE_SIZE, RoundUp(addr) / PAGE_SIZE, URW)
    requires addr > from ==> AllMapped(m', root, RoundUp(from) / PAGE_SIZE, RoundUp(addr) / PAGE_SIZE)
    ensures HeapGrown(m, m', root, from, addr)
  {
    hide TreesOk, Lookup, Indices, Grows, Canonical, Blank, AllMapped, RoundUp, InPages, FreshZero;
    AddedKeepsRoot(m, own, m', own', root, RoundUp(from) / PAGE_SIZE, RoundUp(addr) / PAGE_SIZE);
    forall va: Word | Canonical(va) && Remapped(m, m', root, va)
      ensures InPages(Indices(va / PAGE_SIZE), RoundUp(from) / PAGE_SIZE, RoundUp(addr) / PAGE_SIZE) && Blank(m', root, va)
    {
      AddedIsBlank(m, own, m', own', root, RoundUp(from) / PAGE_SIZE, RoundUp(addr) / PAGE_SIZE, va);
    }
  }

  lemma AddedKeepsRoot(m: Memory, own: Owners, m': Memory, own': Owners, root: nat, lo: nat, hi: nat)
    requires ZeroPagesAdded(m, own, m', own', root, lo, hi, URW) && IsRoot(own, root)
    ensures IsRoot(own', root)
  {
  }

  lemma OwnedBelowEnd(k: Phys)
    requires k.Valid()
    ensures forall p | p in k.own :: p < RAM_PAGES
  {
  }

  /** A call and one with 0 after it, which returns the break that the first one set and changes nothing. */
  method BrkThenAsk(k: Phys, root: nat, brk: Word, addr: Word) returns (ok: bool, now: Word)
    requires k.Valid() && Private(k.mem, k.own) && IsRoot(k.own, root)
    modifies k
    ensures k.Valid() && Private(k.mem, k.own)
    ensures ok ==> now == if addr != 0 then addr else if brk != 0 then brk else 0x1_0000
    ensures !ok ==> k.current + PAGE_SIZE > k.end
    ensures k.current + PAGE_SIZE <= k.end ==>
              HeapGrown(old(k.mem), k.mem, root, if brk == 0 then 0x1_0000 else brk, addr)
  {
    hide Phys.Valid, Private, ZeroPagesAdded, AllMapped, RoundUp, TreesOk, HeapGrown;
    var r := Brk(k, root, brk, addr);
    ValidTrees(k);
    OwnedBelowEnd(k);
    if k.current + PAGE_SIZE <= k.end {
      AddedIsHeap(old(k.mem), old(k.own), k.mem, k.own, root, Start(brk), addr);
    }
    if r.Panics? {
      return false, 0;
    }
    AddedKeepsRoot(old(k.mem), old(k.own), k.mem, k.own, root, EndPage(brk), RoundUp(addr) / PAGE_SIZE);
    var r' := Brk(k, root, r.value, 0);
    return true, r'.value;
  }
}

/**
 Building address spaces: mapping single pages and the identity-mapped kernel regions that every
 table gets (src/mm.rs).
 */
module AddressSpace {
  import opened Base
  import opened Pte
  import opened Sv39
  import opened PhysMem

  /** The root's slot for the gigabyte that holds the user stack. */
  const STACK_SLOT: nat := 255

  /** The root's slot `i` leads nowhere yet. */
  predicate SlotFree(m: Memory, root: nat, i: Index) {
    root in m && !m[root][i].flags.v
  }

  /** `map` of the page at `va` to the frame `ppn`, for a leaf that keeps user pages private. */
  method MapPage(k: Phys, root: nat, va: Word, ppn: Ppn, flags: Flags) returns (r: Outcome<()>)
    requires k.Valid() && Private(k.mem, k.own) && IsRoot(k.own, root)
    requires flags.u ==> ppn in k.own && k.own[ppn] == Plain
    modifies k
    ensures k.Valid() && Private(k.mem, k.own)
    ensures Grows(old(k.mem), old(k.own), k.mem, k.own, root)
    ensures r.Done? ==>
              forall v :: Lookup(k.mem, root, v) ==
                if v == Indices(va / PAGE_SIZE) then Some(Leaf(ppn, flags.Or(VAD)))
                else old(Lookup(k.mem, root, v))
    ensures r.Done? || r == Panics(Remap) || (r == Panics(OutOfMemory) && k.current + PAGE_SIZE > k.end)
    ensures r.Panics? ==> forall v :: Lookup(k.mem, root, v) == old(Lookup(k.mem, root, v))
    ensures r == Panics(Remap) <==> old(Lookup(k.mem, root, Indices(va / PAGE_SIZE))).Some?
    ensures OtherSlots(old(k.mem), k.mem, root, Indices(va / PAGE_SIZE).i0)
    ensures r.Done? && root in old(k.mem) && !old(k.mem[root][Indices(va / PAGE_SIZE).i0]).flags.v ==>
              SecondTable(k.own, root, Indices(va / PAGE_SIZE).i0, old(k.top))
  {
    ghost var v := Indices(va / PAGE_SIZE);
    var pa: Word := ppn * PAGE_SIZE;
    assert pa / PAGE_SIZE == ppn;
    r := k.Map(root, va, pa, flags);
    if r.Done? {
      LeafSetKeepsPrivate(old(k.mem), old(k.own), k.mem, k.own, root, v, Some(Leaf(ppn, flags.Or(VAD))));
    } else {
      TablesAddedKeepsPrivate(old(k.mem), old(k.own), k.mem, k.own, root);
    }
  }

  /** What taking a fresh frame leaves for the `map` after it. */
  lemma FreshGrows(m: Memory, own: Owners, m': Memory, own': Owners, q: nat, root: nat)
    requires TreesOk(m, own) && Private(m, own) && IsRoot(own, root) && Allocated(m, own, m', own', q)
    ensures Grows(m, own, m', own', root) && Private(m', own') && IsRoot(own', root)
    ensures q in own' && own'[q] == Plain && q !in own && q in m' && IsZero(m'[q])
    ensures forall v :: Lookup(m', root, v) == Lookup(m, root, v)
    ensures forall i: Index :: SlotFree(m, root, i) ==> SlotFree(m', root, i)
  {
    AllocatedExtends(m, own, m', own', q, root);
  }

  lemma GrowsKeepsPage(m: Memory, own: Owners, m': Memory, own': Owners, root: nat, q: nat)
    requires Grows(m, own, m', own', root) && q in own && !own[q].Table? && q in m
    ensures q in own' && !own'[q].Table? && q in m' && m'[q] == m[q]
  {
  }

  /** `alloc_page` and then `map` of the new frame at `va`, as exec, brk and mmap do. */
  method MapFresh(k: Phys, root: nat, va: Word, flags: Flags) returns (r: Outcome<nat>)
    requires k.Valid() && Private(k.mem, k.own) && IsRoot(k.own, root) && flags.u
    modifies k
    ensures k.Valid() && Private(k.mem, k.own) && k.current >= old(k.current)
    ensures Grows(old(k.mem), old(k.own), k.mem, k.own, root)
    ensures r.Fails? <==> old(k.current) + PAGE_SIZE > k.end
    ensures r.Fails? ==> k.mem == old(k.mem) && k.own == old(k.own)
    ensures !r.Fails? ==> (r == Panics(Remap) <==> old(Lookup(k.mem, root, Indices(va / PAGE_SIZE))).Some?)
    ensures r.Panics? ==> r.why == Remap || (r.why == OutOfMemory && k.current + PAGE_SIZE > k.end)
    ensures r.Panics? ==> forall v :: Lookup(k.mem, root, v) == old(Lookup(k.mem, root, v))
    ensures r.Done? ==>
              && r.value !in old(k.own) && r.value in k.own && !k.own[r.value].Table?
              && IsZero(k.mem[r.value])
              && forall v :: Lookup(k.mem, root, v) ==
                   if v == Indices(va / PAGE_SIZE) then Some(Leaf(r.value, flags.Or(VAD)))
                   else old(Lookup(k.mem, root, v))
    ensures r.Done? && SlotFree(old(k.mem), root, Indices(va / PAGE_SIZE).i0) ==>
              SecondTable(k.own, root, Indices(va / PAGE_SIZE).i0, r.value + 1)
  {
    hide TreesOk, Private, Grows, Allocated, IsZero, Lookup;
    GrowsReflexive(k.mem, k.own, root);
    ValidTrees(k);
    var page := k.AllocPage();
    if page.None? {
      return Fails;
    }
    var q := page.value / PAGE_SIZE;
    FreshGrows(old(k.mem), old(k.own), k.mem, k.own, q, root);
    ghost var m, o := k.mem, k.own;
    var mapped := MapPage(k, root, va, q, flags);
    GrowsKeepsPage(m, o, k.mem, k.own, root, q);
    GrowsTransitive(old(k.mem), old(k.own), m, o, k.mem, k.own, root);
    if mapped.Panics? {
      return Panics(mapped.why);
    }
    return Done(q);
  }

  /** `MapFresh` by page number. */
  method MapFreshNumber(k: Phys, root: nat, n: Ppn, flags: Flags) returns (r: Outcome<nat>)
    requires k.Valid() && Private(k.mem, k.own) && IsRoot(k.own, root) && flags.u
    modifies k
    ensures k.Valid() && Private(k.mem, k.own)
    ensures Grows(old(k.mem), old(k.own), k.mem, k.own, root)
    ensures !r.Fails? ==> (r == Panics(Remap) <==> old(Lookup(k.mem, root, Indices(n))).Some?)
    ensures r.Done? || r == Panics(Remap) || ((r.Fails? || r == Panics(OutOfMemory)) && k.current + PAGE_SIZE > k.end)
    ensures r.Done? ==>
              && r.value !in old(k.own) && r.value in k.own && !k.own[r.value].Table?
              && IsZero(k.mem[r.value])
              && forall v :: Lookup(k.mem, root, v) ==
                   if v == Indices(n) then Some(Leaf(r.value, flags.Or(VAD))) else old(Lookup(k.mem, root, v))
    ensures r.Done? && SlotFree(old(k.mem), root, Indices(n).i0) ==> SecondTable(k.own, root, Indices(n).i0, r.value + 1)
  {
    var va: Word := n * PAGE_SIZE;
    assert va / PAGE_SIZE == n;
    r := MapFresh(k, root, va, flags);
  }

  /** `MapPage` by page number. */
  method MapNumber(k: Phys, root: nat, n: nat, ppn: Ppn, flags: Flags) returns (r: Outcome<()>)
    requires k.Valid() && Private(k.mem, k.own) && IsRoot(k.own, root) && n < VPN_LIMIT
    requires flags.u ==> ppn in k.own && k.own[ppn] == Plain
    modifies k
    ensures k.Valid() && Private(k.mem, k.own)
    ensures Extends(old(k.mem), old(k.own), k.mem, k.own, root)
    ensures r.Done? ==>
              forall v :: Lookup(k.mem, root, v) ==
                if Number(v) == n then Some(Leaf(ppn, flags.Or(VAD))) else old(Lookup(k.mem, root, v))
    ensures r.Done? || r == Panics(Remap) || (r == Panics(OutOfMemory) && k.current + PAGE_SIZE > k.end)
    ensures r == Panics(Remap) <==> exists v :: Number(v) == n && old(Lookup(k.mem, root, v)).Some?
    ensures Indices(n).i0 != STACK_SLOT && SlotFree(old(k.mem), root, STACK_SLOT) ==> SlotFree(k.mem, root, STACK_SLOT)
  {
    PageOfNumber(n);
    var va: Word := n * PAGE_SIZE;
    assert va / PAGE_SIZE == n;
    r := MapPage(k, root, va, ppn, flags);
    assert r == Panics(Remap) ==> Number(Indices(n)) == n && old(Lookup(k.mem, root, Indices(n))).Some?;
  }

  /** Identity-maps the unmapped pages [from, to), one `map` call per page. */
  method MapRange(k: Phys, root: nat, from: nat, to: nat, flags: Flags) returns (r: Outcome<()>)
    requires k.Valid() && Private(k.mem, k.own) && IsRoot(k.own, root) && !flags.u
    requires from <= to
    requires forall v | from <= Number(v) < to :: Lookup(k.mem, root, v) == None
    requires to <= STACK_SLOT * 0x4_0000 && SlotFree(k.mem, root, STACK_SLOT)
    modifies k
    ensures k.Valid() && Private(k.mem, k.own) && SlotFree(k.mem, root, STACK_SLOT)
    ensures Extends(old(k.mem), old(k.own), k.mem, k.own, root)
    ensures r.Done? || (r == Panics(OutOfMemory) && k.current + PAGE_SIZE > k.end)
    ensures r.Done? ==>
              forall v :: Lookup(k.mem, root, v) ==
                if from <= Number(v) < to then Some(Leaf(Number(v), flags.Or(VAD)))
                else old(Lookup(k.mem, root, v))
  {
    hide Phys.Valid, Private, Extends, Lookup, Number;
    ExtendsReflexive(k.mem, k.own, root);
    var n := from;
    while n < to
      invariant from <= n <= to
      invariant k.Valid() && Private(k.mem, k.own) && IsRoot(k.own, root) && SlotFree(k.mem, root, STACK_SLOT)
      invariant Extends(old(k.mem), old(k.own), k.mem, k.own, root)
      invariant forall v :: Lookup(k.mem, root, v) ==
                  if from <= Number(v) < n then Some(Leaf(Number(v), flags.Or(VAD)))
                  else old(Lookup(k.mem, root, v))
    {
      ghost var m, o := k.mem, k.own;
      BelowStackSlot(n);
      r := MapNumber(k, root, n, n, flags);
      ExtendsKeepsRoot(m, o, k.mem, k.own, root, root);
      ExtendsTransitive(old(k.mem), old(k.own), m, o, k.mem, k.own, root);
      if r.Panics? {
        return;
      }
      n := n + 1;
    }
    return Done(());
  }

  lemma BelowStackSlot(n: nat)
    requires n < STACK_SLOT * 0x4_0000
    ensures Indices(n).i0 != STACK_SLOT
  {
  }

  /** A region of identity-mapped pages. */
  datatype Region = Region(from: nat, to: nat, flags: Flags)

  /** Physical memory, the UART, the virtio devices and the PLIC, in the order they are mapped. */
  function KernelRegion(i: nat): Region
    requires i < 4
  {
    if i == 0 then Region(0x8_0000, 0x8_8000, RWX)
    else if i == 1 then Region(0x1_0000, 0x1_0001, RW)
    else if i == 2 then Region(0x1_0001, 0x1_0009, RW)
    else Region(0xc000, 0xc200, RW)
  }

  /** The leaf for page `n` once the first `count` regions are mapped. */
  function RegionLeaf(count: nat, n: nat): Option<Leaf>
    requires count <= 4
  {
    if count > 0 && 0x8_0000 <= n < 0x8_8000 then Some(Leaf(n, RWX.Or(VAD)))
    else if (count > 1 && n == 0x1_0000) || (count > 2 && 0x1_0001 <= n < 0x1_0009) || (count > 3 && 0xc000 <= n < 0xc200)
    then Some(Leaf(n, RW.Or(VAD)))
    else None
  }

  /** The leaf every table has for page `n`. */
  function KernelLeaf(n: nat): Option<Leaf> {
    RegionLeaf(4, n)
  }

  /** The identity maps of `clone_user_space`, `exec_process` and `Process::new`. */
  method MapKernel(k: Phys, root: nat) returns (r: Outcome<()>)
    requires k.Valid() && Private(k.mem, k.own) && IsRoot(k.own, root)
    requires forall v :: Lookup(k.mem, root, v) == None
    requires SlotFree(k.mem, root, STACK_SLOT)
    modifies k
    ensures k.Valid() && Private(k.mem, k.own) && SlotFree(k.mem, root, STACK_SLOT)
    ensures Extends(old(k.mem), old(k.own), k.mem, k.own, root)
    ensures r.Done? || (r == Panics(OutOfMemory) && k.current + PAGE_SIZE > k.end)
    ensures r.Done? ==> forall v :: Lookup(k.mem, root, v) == KernelLeaf(Number(v))
  {
    hide Phys.Valid, Private, Extends, Lookup, Number;
    ExtendsReflexive(k.mem, k.own, root);
    var i := 0;
    while i < 4
      invariant i <= 4
      invariant k.Valid() && Private(k.mem, k.own) && IsRoot(k.own, root) && SlotFree(k.mem, root, STACK_SLOT)
      invariant Extends(old(k.mem), old(k.own), k.mem, k.own, root)
      invariant forall v :: Lookup(k.mem, root, v) == RegionLeaf(i, Number(v))
    {
      ghost var m, o := k.mem, k.own;
      var region := KernelRegion(i);
      r := MapRange(k, root, region.from, region.to, region.flags);
      ExtendsKeepsRoot(m, o, k.mem, k.own, root, root);
      ExtendsTransitive(old(k.mem), old(k.own), m, o, k.mem, k.own, root);
      if r.Panics? {
        return;
      }
      i := i + 1;
    }
    return Done(());
  }

  /** `PageTable::new` followed by the identity maps. */
  method NewSpace(k: Phys) returns (r: Outcome<nat>)
    requires k.Valid() && Private(k.mem, k.own)
    modifies k
    ensures k.Valid() && Private(k.mem, k.own)
    ensures r.Fails? <==> old(k.current) + PAGE_SIZE > k.end
    ensures r.Fails? ==> k.mem == old(k.mem) && k.own == old(k.own) && k.current == old(k.current)
    ensures r.Fails? ==> Aside(old(k.mem), old(k.own), k.mem, k.own)
    ensures r.Panics? ==> r.why == OutOfMemory && k.current + PAGE_SIZE > k.end
    ensures r.Done? ==>
              && r.value !in old(k.own) && IsRoot(k.own, r.value)
              && Extends(old(k.mem), old(k.own), k.mem, k.own, r.value)
              && SlotFree(k.mem, r.value, STACK_SLOT) && r.value == old(k.top)
              && forall v :: Lookup(k.mem, r.value, v) == KernelLeaf(Number(v))
  {
    var root := k.NewTable();
    if root.None? {
      AsideNothing(k.mem, k.own, k.top);
      return Fails;
    }
    NewRootKeepsPrivate(old(k.mem), old(k.own), k.mem, k.own, root.value);
    ghost var m, o := k.mem, k.own;
    var mapped := MapKernel(k, root.value);
    if mapped.Panics? {
      return Panics(mapped.why);
    }
    ExtendsTransitive(old(k.mem), old(k.own), m, o, k.mem, k.own, root.value);
    return Done(root.value);
  }

  /** Page `v` is a kernel page, a user page, or not mapped. */
  ghost predicate StandardAt(m: Memory, root: nat, v: Vpn) {
    || Lookup(m, root, v) == KernelLeaf(Number(v))
    || (KernelLeaf(Number(v)) == None && UserLeaf(m, root, v))
  }

  /** Every table of a process has the kernel pages, user pages elsewhere, and nothing else. */
  ghost predicate Standard(m: Memory, root: nat) {
    forall v :: StandardAt(m, root, v)
  }

  /** A change that keeps translations and adds user pages only keeps the table standard. */
  lemma StandardKept(m: Memory, m': Memory, root: nat)
    requires Standard(m, root)
    requires forall v | Lookup(m, root, v).Some? :: Lookup(m', root, v) == Lookup(m, root, v)
    requires forall v | Lookup(m', root, v) != Lookup(m, root, v) :: UserLeaf(m', root, v)
    ensures Standard(m', root)
  {
    forall v ensures StandardAt(m', root, v) {
      assert StandardAt(m, root, v);
    }
  }
}

/**
 Physical memory with its bump frame allocator, and the page-table operations of
 src/mm.rs that allocate from it and overwrite it.
 */
module PhysMem {
  import opened Base
  import opened Pte
  import opened Sv39
  import opened FrameBytes

  /** The end of the memory the frame allocator hands out. */
  const RAM_END: nat := 0x8800_0000

  /** The first page of memory. */
  const RAM_START: nat := 0x8_0000

  /** Where the kernel's image is linked. */
  const KERNEL_BASE: nat := 0x8020_0000

  /** A pointer to a page-table entry. */
  datatype Slot = Slot(frame: nat, index: nat)

  datatype Fault = OutOfMemory | Remap

  /** How a kernel operation ends: it returns a value, returns `None`, or panics. */
  datatype Outcome<+T> = Done(value: T) | Fails | Panics(why: Fault)

  /** Every table belongs to a root that was handed out. */
  ghost predicate RootsTaken(own: Owners) {
    forall p | p in own && own[p].Table? :: own[p].root in own
  }

  lemma StackRoots(m: Memory, own: Owners, p: nat, n: nat)
    requires RootsTaken(own) && forall q | q in own :: q in m
    ensures RootsTaken(StackOwners(m, own, p, n))
  {
  }

  lemma AdoptedRoots(own: Owners, p: nat, idx: Index, q: nat)
    requires RootsTaken(own) && p in own && own[p].Table?
    ensures RootsTaken(Adopt(own, p, idx, q))
  {
  }

  class Phys {
    var mem: Memory
    var current: nat
    var end: nat
    /** The first frame the allocator may hand out. */
    const base: nat
    /** The frame at `current`. */
    ghost var top: nat
    /** The role of every frame handed out so far. */
    ghost var own: Owners

    ghost predicate Valid()
      reads this
    {
      && current == top * PAGE_SIZE && end == RAM_PAGES * PAGE_SIZE && RAM_START <= base <= top <= RAM_PAGES
      && (forall p :: p in own <==> base <= p < top)
      && (forall p | base <= p < RAM_PAGES :: p in mem)
      && TreesOk(mem, own) && RootsTaken(own)
    }

    /** `mm::init`: frames are handed out from the page after the kernel image. */
    constructor (memory: Memory, kernelEnd: nat)
      requires KERNEL_BASE <= kernelEnd <= RAM_END
      requires forall p | kernelEnd / PAGE_SIZE <= p < RAM_PAGES :: p in memory
      ensures Valid() && Private(mem, own) && own == map[] && mem == memory
      ensures current == RoundUp(kernelEnd)
    {
      mem := memory;
      current := RoundUp(kernelEnd);
      end := RAM_END;
      base := RoundUp(kernelEnd) / PAGE_SIZE;
      top := RoundUp(kernelEnd) / PAGE_SIZE;
      own := map[];
    }

    /** `alloc_page` */
    method AllocPage() returns (page: Option<nat>)
      requires Valid()
      modifies this
      ensures Valid()
      ensures page.Some? <==> old(current) + PAGE_SIZE <= end
      ensures page.None? ==> mem == old(mem) && own == old(own) && top == old(top)
      ensures page.Some? ==>
                && page.value == old(current) && current == old(current) + PAGE_SIZE
                && page.value / PAGE_SIZE == old(top) && top == old(top) + 1
                && Allocated(old(mem), old(own), mem, own, old(top))
    {
      if current + PAGE_SIZE <= end {
        var page := current;
        FreshFrameOk(mem, own, top);
        current := current + PAGE_SIZE;
        mem := mem[page / PAGE_SIZE := Zeroed(mem[page / PAGE_SIZE])];
        own := own[top := Plain];
        top := top + 1;
        return Some(page);
      }
      return None;
    }

    /** `alloc_pages`, which only kernel stacks are taken from. The sum that is compared does not wrap. */
    method AllocPages(n: nat) returns (page: Option<nat>)
      requires Valid() && (RAM_PAGES + n) * PAGE_SIZE < WORD_LIMIT
      modifies this
      ensures Valid()
      ensures page.Some? <==> old(current) + n * PAGE_SIZE <= end
      ensures page.None? ==> mem == old(mem) && own == old(own) && current == old(current) && top == old(top)
      ensures page.Some? ==>
                && page.value == old(current) && page.value / PAGE_SIZE == old(top)
                && StackTaken(old(mem), old(own), mem, own, old(top), n) && top == old(top) + n
    {
      hide TreesOk, RootsTaken, IsZero, ZeroRange, StackOwners;
      var size := n * PAGE_SIZE;
      if current + size <= end {
        var page := current;
        var first := page / PAGE_SIZE;
        current := current + size;
        mem := ZeroRange(mem, first, n);
        own := StackOwners(old(mem), own, top, n);
        TakeStack(old(mem), old(own), top, n);
        StackTakenOk(old(mem), old(own), mem, own, old(top), n);
        StackRoots(old(mem), old(own), old(top), n);
        top := top + n;
        return Some(page);
      }
      return None;
    }

    /** `PageTable::new` */
    method NewTable() returns (root: Option<nat>)
      requires Valid()
      modifies this
      ensures Valid()
      ensures root.Some? <==> old(current) + PAGE_SIZE <= end
      ensures root.None? ==> mem == old(mem) && own == old(own) && top == old(top)
      ensures root.Some? ==>
                && root.value == old(top) && top == old(top) + 1
                && IsRoot(own, root.value) && own == old(own)[root.value := Table(root.value, 0, Top)]
                && root.value in mem && IsZero(mem[root.value])
                && Extends(old(mem), old(own), mem, own, root.value)
                && forall v :: Lookup(mem, root.value, v) == None
    {
      var page := AllocPage();
      if page.None? {
        return None;
      }
      var p := page.value / PAGE_SIZE;
      EmptyTableOk(mem, own, p);
      own := own[p := Table(p, 0, Top)];
      return Some(p);
    }

    /** The branch of `find_pte_create` that makes a table and links it into an invalid slot. */
    method AddTable(root: nat, ppn: nat, v: Vpn, level: nat) returns (next: Option<nat>)
      requires Valid() && IsRoot(own, root) && level < 2
      requires Walk(mem, root, v, level) == Some(ppn) && !mem[ppn][v.At(level)].flags.v
      requires ppn in own && own[ppn] == Table(root, level, v.Path(level))
      modifies this
      ensures Valid()
      ensures TablesAdded(old(mem), old(own), mem, own, root)
      ensures next.Some? ==> Walk(mem, root, v, level + 1) == next
      ensures next.None? ==> current + PAGE_SIZE > end && Walk(mem, root, v, level + 1) == None
      ensures OtherSlots(old(mem), mem, root, v.i0)
      ensures next.Some? ==>
                && next.value == old(top) && next.value in own
                && own[next.value] == Table(root, level + 1, v.Path(level + 1))
    {
      hide TreesOk, RootsTaken, TablesAdded, Walk;
      RootInMemory(mem, own, root);
      TablesAddedNothing(mem, own, root);
      WalkStops(mem, root, v, level);
      var idx := v.At(level);
      var page := AllocPage();
      if page.None? {
        return None;
      }
      var p := page.value / PAGE_SIZE;
      var pte := NewPte(p, V);
      GrowOk(old(mem), old(own), ppn, p, pte, root, v, level);
      mem := WithEntry(mem, ppn, idx, pte);
      AdoptedRoots(own, ppn, idx, p);
      own := Adopt(own, ppn, idx, p);
      return Some(p);
    }

    /** One level of `find_pte_create`: the table that slot `v.At(level)` of `ppn` points at,
        made first if the slot is not valid. */
    method NextTable(root: nat, ppn: nat, v: Vpn, level: nat) returns (next: Option<nat>)
      requires Valid() && IsRoot(own, root) && level < 2
      requires Walk(mem, root, v, level) == Some(ppn)
      modifies this
      ensures Valid()
      ensures TablesAdded(old(mem), old(own), mem, own, root)
      ensures next.Some? ==> Walk(mem, root, v, level + 1) == next
      ensures next.None? ==> current + PAGE_SIZE > end && Walk(mem, root, v, level + 1) == None
      ensures OtherSlots(old(mem), mem, root, v.i0)
      ensures next.Some? && !old(mem[ppn][v.At(level)]).flags.v ==>
                next.value == old(top) && next.value in own && own[next.value] == Table(root, level + 1, v.Path(level + 1))
    {
      WalkStaysOwned(mem, own, root, v, level);
      var pte := mem[ppn][v.At(level)];
      if pte.flags.v {
        return Some(pte.ppn);
      }
      next := AddTable(root, ppn, v, level);
    }

    /** `find_pte_create`: the slot of the leaf entry for `vpn`, making the tables on the way. */
    method FindPteCreate(root: nat, vpn: nat) returns (slot: Option<Slot>)
      requires Valid() && IsRoot(own, root)
      modifies this
      ensures Valid()
      ensures TablesAdded(old(mem), old(own), mem, own, root)
      ensures slot.Some? ==>
                && slot.value.index == Indices(vpn).i2
                && Walk(mem, root, Indices(vpn), 2) == Some(slot.value.frame)
      ensures slot.None? ==> current + PAGE_SIZE > end && Walk(mem, root, Indices(vpn), 2) == None
      ensures OtherSlots(old(mem), mem, root, Indices(vpn).i0)
      ensures slot.Some? && !old(mem[root][Indices(vpn).i0]).flags.v ==> SecondTable(own, root, Indices(vpn).i0, old(top))
    {
      hide TreesOk, TablesAdded, Indices, OtherSlots;
      TablesAddedNothing(mem, own, root);
      RootInMemory(mem, own, root);
      OtherSlotsNothing(mem, root, Indices(vpn).i0);
      var v := Indices(vpn);
      var ppn := root;
      var level := 0;
      while level < 2
        invariant level <= 2
        invariant Valid() && IsRoot(own, root)
        invariant OtherSlots(old(mem), mem, root, v.i0)
        invariant level == 0 ==> mem == old(mem) && top == old(top)
        invariant level > 0 && !old(mem[root][v.i0]).flags.v ==> SecondTable(own, root, v.i0, old(top))
        invariant TablesAdded(old(mem), old(own), mem, own, root)
        invariant Walk(mem, root, v, level) == Some(ppn)
      {
        ghost var m, o := mem, own;
        var next := NextTable(root, ppn, v, level);
        TablesAddedKeepsRoot(m, o, mem, own, root);
        OtherSlotsTransitive(old(mem), m, mem, root, v.i0);
        if level > 0 && old(top) in o {
          TablesAddedKeepsRole(m, o, mem, own, root, old(top));
        }
        TablesAddedTransitive(old(mem), old(own), m, o, mem, own, root);
        if next.None? {
          WalkStaysStopped(mem, root, v, level);
          return None;
        }
        ppn := next.value;
        level := level + 1;
      }
      return Some(Slot(ppn, v.i2));
    }

    /** Overwrites the slot that `find_pte_create` returned with a leaf entry. */
    method WriteLeaf(root: nat, v: Vpn, slot: Slot, pte: Cell, ghost m0: Memory, ghost own0: Owners)
      requires Valid() && IsRoot(own0, root) && TablesAdded(m0, own0, mem, own, root)
      requires slot.index == v.i2 && Walk(mem, root, v, 2) == Some(slot.frame)
      requires pte.flags.v && pte.flags.a && pte.flags.d && pte.ppn < PPN_LIMIT
      modifies this
      ensures Valid()
      ensures LeafSet(m0, own0, mem, own, root, v, Some(LeafOf(pte)))
      ensures OtherSlots(old(mem), mem, root, v.i0)
      ensures forall p | p in old(own) && old(own)[p].Table? :: p in own && own[p] == old(own)[p]
    {
      hide TreesOk, TablesAdded, LeafSet, Walk, Vpn.Path;
      TablesAddedKeepsRoot(m0, own0, mem, own, root);
      RootInMemory(mem, own, root);
      LeafTableIsNotRoot(mem, own, root, v, slot.frame);
      LeafSetOk(m0, own0, mem, own, root, v, slot.frame, pte);
      mem := WithEntry(mem, slot.frame, slot.index, pte);
      own := Claim(own, root, v, LeafOf(pte));
      assert own.Keys == old(own.Keys);
    }

    /** `map`: panics when memory runs out or the page is already mapped, else adds one leaf. */
    method Map(root: nat, va: Word, pa: Word, flags: Flags) returns (r: Outcome<()>)
      requires Valid() && IsRoot(own, root)
      modifies this
      ensures Valid()
      ensures r == Panics(Remap) <==> old(Lookup(mem, root, Indices(va / PAGE_SIZE))).Some?
      ensures r.Done? || r == Panics(Remap) || (r == Panics(OutOfMemory) && current + PAGE_SIZE > end)
      ensures r.Panics? ==> TablesAdded(old(mem), old(own), mem, own, root)
      ensures r.Done? ==>
                LeafSet(old(mem), old(own), mem, own, root, Indices(va / PAGE_SIZE),
                        Some(Leaf(pa / PAGE_SIZE, flags.Or(VAD))))
      ensures OtherSlots(old(mem), mem, root, Indices(va / PAGE_SIZE).i0)
      ensures r.Done? && !old(mem[root][Indices(va / PAGE_SIZE).i0]).flags.v ==>
                SecondTable(own, root, Indices(va / PAGE_SIZE).i0, old(top))
    {
      hide OtherSlots, Valid;
      var vpn := va / PAGE_SIZE;
      ghost var v := Indices(vpn);
      var slot := FindPteCreate(root, vpn);
      assert Lookup(mem, root, v) == old(Lookup(mem, root, v));
      if slot.None? {
        return Panics(OutOfMemory);
      }
      if mem[slot.value.frame][slot.value.index].flags.v {
        return Panics(Remap);
      }
      ghost var m := mem;
      WriteLeaf(root, Indices(vpn), slot.value, NewPte(pa / PAGE_SIZE, flags.Or(VAD)), old(mem), old(own));
      OtherSlotsTransitive(old(mem), m, mem, root, v.i0);
      return Done(());
    }

    /** `find_pte`: the slot of the valid leaf entry for `vpn`. */
    method FindPte(root: nat, vpn: nat) returns (slot: Option<Slot>)
      requires Valid() && IsRoot(own, root)
      ensures slot.Some? <==> Lookup(mem, root, Indices(vpn)).Some?
      ensures slot.Some? ==>
                && slot.value.index == Indices(vpn).i2
                && Walk(mem, root, Indices(vpn), 2) == Some(slot.value.frame)
    {
      var v := Indices(vpn);
      var ppn := root;
      var level := 0;
      while level < 2
        invariant level <= 2
        invariant Walk(mem, root, v, level) == Some(ppn)
      {
        WalkStaysOwned(mem, own, root, v, level);
        var pte := mem[ppn][v.At(level)];
        if !pte.flags.v {
          assert Walk(mem, root, v, level + 1) == None;
          return None;
        }
        ppn := pte.ppn;
        level := level + 1;
      }
      if mem[ppn][v.i2].flags.v {
        return Some(Slot(ppn, v.i2));
      }
      return None;
    }

    /** `translate` */
    method Translate(root: nat, va: nat) returns (pa: Option<nat>)
      requires Valid() && IsRoot(own, root)
      ensures pa == match Lookup(mem, root, Indices(va / PAGE_SIZE))
                    case None => None
                    case Some(leaf) => Some(leaf.ppn * PAGE_SIZE + va % PAGE_SIZE)
    {
      var slot := FindPte(root, va / PAGE_SIZE);
      match slot
      case None => return None;
      case Some(s) => return Some(mem[s.frame][s.index].ppn * PAGE_SIZE + va % PAGE_SIZE);
    }

    /** `unmap` */
    method Unmap(root: nat, va: Word)
      requires Valid() && IsRoot(own, root)
      modifies this
      ensures Valid() && own == old(own)
      ensures LeafSet(old(mem), old(own), mem, own, root, Indices(va / PAGE_SIZE), None)
    {
      var vpn := va / PAGE_SIZE;
      var slot := FindPte(root, vpn);
      if slot.Some? {
        LeafClearedOk(mem, own, root, Indices(vpn), slot.value.frame, ZERO_CELL);
        mem := WithEntry(mem, slot.value.frame, slot.value.index, ZERO_CELL);
      }
    }

    /** `copy_nonoverlapping` into a frame that is no table, starting at offset `off`. */
    method WriteBytes(p: nat, off: nat, data: seq<Byte>)
      requires Valid() && p in own && !own[p].Table? && off + |data| <= PAGE_SIZE
      modifies this`mem
      ensures Valid() && OnlyFrame(old(mem), mem, own, p)
      ensures Copied(old(mem[p]), mem[p], off, data)
      ensures old(Private(mem, own)) ==> Private(mem, own)
    {
      WithBytesCopies(mem[p], off, data);
      DataWriteOk(mem, own, p, WithBytes(mem[p], off, data));
      mem := mem[p := WithBytes(mem[p], off, data)];
    }
  }

  /** The frames handed out are those from `base` up to `top`. */
  ghost predicate TakenUpTo(base: nat, top: nat, own: Owners) {
    base <= top && forall p :: p in own <==> base <= p < top
  }

  lemma ValidTaken(k: Phys)
    requires k.Valid()
    ensures TakenUpTo(k.base, k.top, k.own) && k.current == k.top * PAGE_SIZE && k.end == RAM_PAGES * PAGE_SIZE
    ensures RootsTaken(k.own)
  {
    hide TreesOk;
  }

  lemma TopGrows(base: nat, top: nat, own: Owners, top': nat, own': Owners)
    requires TakenUpTo(base, top, own) && TakenUpTo(base, top', own') && forall p | p in own :: p in own'
    ensures top <= top'
  {
    if base < top {
      assert top - 1 in own';
    }
  }

  lemma TakenBelow(base: nat, top: nat, own: Owners, p: nat)
    requires TakenUpTo(base, top, own) && p in own
    ensures p < top
  {
  }

  lemma ValidTrees(k: Phys)
    requires k.Valid()
    ensures TreesOk(k.mem, k.own)
  {
  }

  lemma OwnedInMemory(k: Phys, p: nat)
    requires k.Valid() && p in k.own
    ensures p in k.mem
  {
  }

  lemma PanicCases<T>(r: Outcome<T>)
    ensures r.Panics? ==> r == Panics(Remap) || r == Panics(OutOfMemory)
  {
    if r.Panics? {
      match r.why
      case OutOfMemory =>
      case Remap =>
    }
  }
}

/**
 `PageTable::clone_user_space` (src/mm.rs): fork's copy of an address space.
 */
module CloneSpace {
  import opened Base
  import opened Pte
  import opened Sv39
  import opened PhysMem
  import opened TableCount
  import opened AddressSpace

  /** Page `v` of the clone `n` is what fork promises: the kernel leaf, or a private copy of the
      user page of the parent, with its flags and its contents at the time (m0, own0). */
  ghost predicate Cloned(m0: Memory, own0: Owners, root: nat, m: Memory, own: Owners, n: nat, v: Vpn) {
    if UserLeaf(m0, root, v) then
      var theirs := Lookup(m0, root, v).value;
      && KernelLeaf(Number(v)) == None
      && Lookup(m, n, v).Some?
      && var mine := Lookup(m, n, v).value;
      && mine.flags == theirs.flags
      && mine.ppn in own && mine.ppn !in own0 && !own[mine.ppn].Table?
      && mine.ppn in m && theirs.ppn in m0 && m[mine.ppn] == m0[theirs.ppn]
    else
      Lookup(m, n, v) == KernelLeaf(Number(v))
  }

  /** `v` comes before (i, j, k) in the order of the three loops. */
  predicate Before(v: Vpn, i: nat, j: nat, k: nat) {
    v.i0 < i || (v.i0 == i && (v.i1 < j || (v.i1 == j && v.i2 < k)))
  }

  ghost predicate Progress(m0: Memory, own0: Owners, root: nat, m: Memory, own: Owners, n: nat,
                           i: nat, j: nat, k: nat)
  {
    forall v :: if Before(v, i, j, k) then Cloned(m0, own0, root, m, own, n, v)
                else Lookup(m, n, v) == KernelLeaf(Number(v))
  }

  /** What holds whenever the loops have got to (i, j, k). */
  ghost predicate Cloning(ph: Phys, m0: Memory, own0: Owners, root: nat, n: nat, i: nat, j: nat, k: nat)
    reads ph
  {
    && TreesOk(m0, own0) && Private(m0, own0) && IsRoot(own0, root) && n !in own0
    && ph.Valid() && Private(ph.mem, ph.own) && IsRoot(ph.own, n)
    && Extends(m0, own0, ph.mem, ph.own, n)
    && Progress(m0, own0, root, ph.mem, ph.own, n, i, j, k)
  }

  /** `alloc_page` and `copy_nonoverlapping`: a fresh frame with the contents of frame `src`. */
  method DuplicateFrame(ph: Phys, src: nat, ghost n: nat) returns (r: Option<nat>)
    requires ph.Valid() && Private(ph.mem, ph.own) && src in ph.own
    modifies ph
    ensures ph.Valid() && Private(ph.mem, ph.own)
    ensures Extends(old(ph.mem), old(ph.own), ph.mem, ph.own, n)
    ensures forall t, u | IsRoot(old(ph.own), t) :: Lookup(ph.mem, t, u) == old(Lookup(ph.mem, t, u))
    ensures r.None? ==> ph.current + PAGE_SIZE > ph.end
    ensures r.Some? ==>
              && r.value !in old(ph.own) && r.value in ph.own && ph.own[r.value] == Plain && r.value < RAM_PAGES
              && ph.mem[r.value] == old(ph.mem[src])
  {
    var page := ph.AllocPage();
    if page.None? {
      return None;
    }
    var q := page.value / PAGE_SIZE;
    AllocatedExtends(old(ph.mem), old(ph.own), ph.mem, ph.own, q, n);
    DataWriteOk(ph.mem, ph.own, q, ph.mem[src]);
    ph.mem := ph.mem[q := ph.mem[src]];
    return Some(q);
  }

  /** The loop body: a copy of the page and a leaf for it. */
  method CopyPage(ph: Phys, n: nat, v: Vpn, leaf: Leaf) returns (r: Outcome<nat>)
    requires ph.Valid() && Private(ph.mem, ph.own) && IsRoot(ph.own, n)
    requires leaf.ppn in ph.own && !ph.own[leaf.ppn].Table? && leaf.flags.u
    modifies ph
    ensures ph.Valid() && Private(ph.mem, ph.own)
    ensures Extends(old(ph.mem), old(ph.own), ph.mem, ph.own, n)
    ensures || r.Done?
            || (r == Panics(Remap) && old(Lookup(ph.mem, n, v)).Some?)
            || ((r.Fails? || r == Panics(OutOfMemory)) && ph.current + PAGE_SIZE > ph.end)
    ensures r.Done? ==>
              && old(Lookup(ph.mem, n, v)).None?
              && r.value !in old(ph.own) && r.value in ph.own && !ph.own[r.value].Table?
              && ph.mem[r.value] == old(ph.mem[leaf.ppn])
              && forall u :: Lookup(ph.mem, n, u) ==
                   if u == v then Some(Leaf(r.value, leaf.flags.Or(VAD))) else old(Lookup(ph.mem, n, u))
  {
    var q := DuplicateFrame(ph, leaf.ppn, n);
    if q.None? {
      return Fails;
    }
    ghost var m1, o1 := ph.mem, ph.own;
    PageOfNumber(Number(v));
    IndicesOfNumber(v);
    var mapped := MapNumber(ph, n, Number(v), q.value, leaf.flags);
    ExtendsTransitive(old(ph.mem), old(ph.own), m1, o1, ph.mem, ph.own, n);
    if mapped.Panics? {
      return Panics(mapped.why);
    }
    return Done(q.value);
  }

  /** Copying page (i, j, k) moves the progress on by one. */
  lemma ProgressStep(m0: Memory, own0: Owners, root: nat, m: Memory, own: Owners, m': Memory, own': Owners,
                     n: nat, v: Vpn, q: nat)
    requires TreesOk(m0, own0) && IsRoot(own0, root) && UserLeaf(m0, root, v)
    requires Progress(m0, own0, root, m, own, n, v.i0, v.i1, v.i2)
    requires Extends(m0, own0, m, own, n) && Extends(m, own, m', own', n)
    requires Lookup(m, n, v) == None && q !in own && q in own' && !own'[q].Table?
    requires q in m' && Lookup(m0, root, v).value.ppn in m0 && m'[q] == m0[Lookup(m0, root, v).value.ppn]
    requires forall u :: Lookup(m', n, u) ==
               if u == v then Some(Leaf(q, Lookup(m0, root, v).value.flags)) else Lookup(m, n, u)
    ensures Progress(m0, own0, root, m', own', n, v.i0, v.i1, v.i2 + 1)
  {
    forall u ensures if Before(u, v.i0, v.i1, v.i2 + 1) then Cloned(m0, own0, root, m', own', n, u)
                     else Lookup(m', n, u) == KernelLeaf(Number(u))
    {
      if u != v && Before(u, v.i0, v.i1, v.i2) {
        assert Cloned(m0, own0, root, m, own, n, u);
      }
    }
  }

  /** The outcomes of the loops: done, out of memory, or a remap that only a user page on a
      kernel page number can cause. */
  ghost predicate CloneEnds<T>(ph: Phys, r: Outcome<T>, m0: Memory, root: nat)
    reads ph
  {
    || r.Done?
    || (r == Panics(Remap) && exists v :: UserLeaf(m0, root, v) && KernelLeaf(Number(v)).Some?)
    || ((r.Fails? || r == Panics(OutOfMemory)) && ph.current + PAGE_SIZE > ph.end)
  }

  /** The parent's own tables are still what they were when the loops began. */
  lemma ParentUntouched(ph: Phys, m0: Memory, own0: Owners, root: nat, n: nat, i: nat, j: nat, k: nat, v: Vpn, level: nat)
    requires Cloning(ph, m0, own0, root, n, i, j, k) && level <= 2 && Walk(m0, root, v, level).Some?
    ensures var p := Walk(m0, root, v, level).value; p in ph.mem && p in m0 && ph.mem[p] == m0[p]
  {
    WalkStaysOwned(m0, own0, root, v, level);
  }

  /** The frame behind a user page of the parent is as it was when the loops began. */
  lemma SourceFrame(m0: Memory, own0: Owners, m: Memory, own: Owners, root: nat, n: nat, v: Vpn)
    requires TreesOk(m0, own0) && Private(m0, own0) && IsRoot(own0, root) && n !in own0
    requires UserLeaf(m0, root, v) && Extends(m0, own0, m, own, n)
    ensures var p := Lookup(m0, root, v).value.ppn;
            p in m0 && p in own && !own[p].Table? && p in m && m[p] == m0[p]
  {
    hide Lookup;
  }

  /** An entry that is no user page needs nothing, and one that is has a free place unless the
      kernel's pages are there. */
  lemma NextEntry(m0: Memory, own0: Owners, root: nat, m: Memory, own: Owners, n: nat, v: Vpn)
    requires Progress(m0, own0, root, m, own, n, v.i0, v.i1, v.i2)
    ensures !UserLeaf(m0, root, v) ==> Progress(m0, own0, root, m, own, n, v.i0, v.i1, v.i2 + 1)
    ensures Lookup(m, n, v) == KernelLeaf(Number(v))
  {
    hide Lookup, Number, KernelLeaf;
    assert !Before(v, v.i0, v.i1, v.i2);
  }

  /** One round of the innermost loop. */
  method CloneEntry(ph: Phys, root: nat, n: nat, v: Vpn, pte: Cell, ghost m0: Memory, ghost own0: Owners)
    returns (r: Outcome<()>)
    requires Cloning(ph, m0, own0, root, n, v.i0, v.i1, v.i2)
    requires Lookup(m0, root, v) == if pte.flags.v then Some(LeafOf(pte)) else None
    modifies ph
    ensures CloneEnds(ph, r, m0, root)
    ensures ph.Valid() && Private(ph.mem, ph.own) && Extends(m0, own0, ph.mem, ph.own, n)
    ensures r.Done? ==> Cloning(ph, m0, own0, root, n, v.i0, v.i1, v.i2 + 1)
  {
    hide Private, TreesOk, Extends, Progress, Lookup;
    ghost var m, o := ph.mem, ph.own;
    NextEntry(m0, own0, root, m, o, n, v);
    if !(pte.flags.v && pte.flags.u) {
      return Done(());
    }
    LookupFlags(m0, own0, root, v);
    SourceFrame(m0, own0, m, o, root, n, v);
    var q := CopyPage(ph, n, v, LeafOf(pte));
    ExtendsKeepsRoot(m, o, ph.mem, ph.own, n, n);
    ExtendsTransitive(m0, own0, m, o, ph.mem, ph.own, n);
    if !q.Done? {
      return if q.Fails? then Fails else Panics(q.why);
    }
    OwnedInMemory(ph, q.value);
    ProgressStep(m0, own0, root, m, o, ph.mem, ph.own, n, v, q.value);
    return Done(());
  }

  /** The innermost loop, over the entries of the lowest-level table `p`. */
  method CloneLow(ph: Phys, root: nat, n: nat, i: Index, j: Index, p: nat, ghost m0: Memory, ghost own0: Owners)
    returns (r: Outcome<()>)
    requires Cloning(ph, m0, own0, root, n, i, j, 0)
    requires forall k: Index :: Walk(m0, root, Vpn(i, j, k), 2) == Some(p)
    modifies ph
    ensures CloneEnds(ph, r, m0, root)
    ensures ph.Valid() && Private(ph.mem, ph.own) && Extends(m0, own0, ph.mem, ph.own, n)
    ensures r.Done? ==> Cloning(ph, m0, own0, root, n, i, j + 1, 0)
  {
    var k := 0;
    while k < 512
      invariant k <= 512
      invariant Cloning(ph, m0, own0, root, n, i, j, k)
    {
      var v := Vpn(i, j, k);
      ParentUntouched(ph, m0, own0, root, n, i, j, k, v, 2);
      r := CloneEntry(ph, root, n, v, ph.mem[p][k], m0, own0);
      if !r.Done? {
        return;
      }
      k := k + 1;
    }
    NextRow(m0, own0, root, ph.mem, ph.own, n, i, j);
    return Done(());
  }

  lemma NextRow(m0: Memory, own0: Owners, root: nat, m: Memory, own: Owners, n: nat, i: nat, j: nat)
    requires Progress(m0, own0, root, m, own, n, i, j, 512)
    ensures Progress(m0, own0, root, m, own, n, i, j + 1, 0)
  {
    forall v ensures Before(v, i, j + 1, 0) == Before(v, i, j, 512) {
    }
  }

  /** A skipped entry skips pages that map to nothing. */
  lemma SkipBlock(m0: Memory, own0: Owners, root: nat, m: Memory, own: Owners, n: nat, i: nat, j: nat)
    requires Progress(m0, own0, root, m, own, n, i, j, 0)
    requires forall v: Vpn | v.i0 == i && v.i1 == j :: Lookup(m0, root, v) == None
    ensures Progress(m0, own0, root, m, own, n, i, j + 1, 0)
  {
    NextRow(m0, own0, root, m, own, n, i, j);
  }

  /** The entry `j` of the middle table decides the walk of every page under it. */
  lemma WalkThrough(m0: Memory, own0: Owners, root: nat, i: Index, j: Index, p: nat)
    requires TreesOk(m0, own0) && IsRoot(own0, root)
    requires forall k: Index :: Walk(m0, root, Vpn(i, j, k), 1) == Some(p)
    ensures p in m0
    ensures m0[p][j].flags.v ==> forall k: Index :: Walk(m0, root, Vpn(i, j, k), 2) == Some(m0[p][j].ppn)
    ensures !m0[p][j].flags.v ==> forall v: Vpn | v.i0 == i && v.i1 == j :: Lookup(m0, root, v) == None
  {
    assert Walk(m0, root, Vpn(i, j, 0), 1) == Some(p);
    WalkStaysOwned(m0, own0, root, Vpn(i, j, 0), 1);
    assert EntryOk(own0, own0[p], j, m0[p][j]);
    forall v: Vpn | v.i0 == i && v.i1 == j && !m0[p][j].flags.v ensures Lookup(m0, root, v) == None {
      assert v == Vpn(i, j, v.i2);
    }
  }

  /** The middle loop, over the entries of the middle table `p`. */
  method CloneMiddle(ph: Phys, root: nat, n: nat, i: Index, p: nat, ghost m0: Memory, ghost own0: Owners)
    returns (r: Outcome<()>)
    requires Cloning(ph, m0, own0, root, n, i, 0, 0)
    requires forall j: Index, k: Index :: Walk(m0, root, Vpn(i, j, k), 1) == Some(p)
    modifies ph
    ensures CloneEnds(ph, r, m0, root)
    ensures ph.Valid() && Private(ph.mem, ph.own) && Extends(m0, own0, ph.mem, ph.own, n)
    ensures r.Done? ==> Cloning(ph, m0, own0, root, n, i, 512, 0)
  {
    var j := 0;
    while j < 512
      invariant j <= 512
      invariant Cloning(ph, m0, own0, root, n, i, j, 0)
    {
      ParentUntouched(ph, m0, own0, root, n, i, j, 0, Vpn(i, j, 0), 1);
      WalkThrough(m0, own0, root, i, j, p);
      var pte := ph.mem[p][j];
      if pte.flags.v {
        r := CloneLow(ph, root, n, i, j, pte.ppn, m0, own0);
        if !r.Done? {
          return;
        }
      } else {
        SkipBlock(m0, own0, root, ph.mem, ph.own, n, i, j);
      }
      j := j + 1;
    }
    return Done(());
  }

  lemma NextTop(m0: Memory, own0: Owners, root: nat, m: Memory, own: Owners, n: nat, i: nat)
    requires Progress(m0, own0, root, m, own, n, i, 512, 0)
    ensures Progress(m0, own0, root, m, own, n, i + 1, 0, 0)
  {
    forall v ensures Before(v, i + 1, 0, 0) == Before(v, i, 512, 0) {
    }
  }

  /** The entry `i` of the root decides the walk of every page under it. */
  lemma WalkFromRoot(m0: Memory, own0: Owners, root: nat, i: Index)
    requires TreesOk(m0, own0) && IsRoot(own0, root)
    ensures m0[root][i].flags.v ==>
              forall j: Index, k: Index :: Walk(m0, root, Vpn(i, j, k), 1) == Some(m0[root][i].ppn)
    ensures !m0[root][i].flags.v ==> forall v: Vpn | v.i0 == i :: Lookup(m0, root, v) == None
  {
    assert EntryOk(own0, own0[root], i, m0[root][i]);
    forall v: Vpn | v.i0 == i && !m0[root][i].flags.v ensures Lookup(m0, root, v) == None {
      assert Walk(m0, root, v, 1) == None;
    }
  }

  lemma SkipTop(m0: Memory, own0: Owners, root: nat, m: Memory, own: Owners, n: nat, i: nat)
    requires Progress(m0, own0, root, m, own, n, i, 0, 0)
    requires forall v: Vpn | v.i0 == i :: Lookup(m0, root, v) == None
    ensures Progress(m0, own0, root, m, own, n, i + 1, 0, 0)
  {
    NextTop(m0, own0, root, m, own, n, i);
  }

  /** The three loops of `clone_user_space`. */
  method CloneLoops(ph: Phys, root: nat, n: nat, ghost m0: Memory, ghost own0: Owners) returns (r: Outcome<()>)
    requires Cloning(ph, m0, own0, root, n, 0, 0, 0)
    modifies ph
    ensures CloneEnds(ph, r, m0, root)
    ensures ph.Valid() && Private(ph.mem, ph.own) && Extends(m0, own0, ph.mem, ph.own, n)
    ensures r.Done? ==> IsRoot(ph.own, n) && UserBelowKernel(m0, root)
    ensures r.Done? ==> forall v :: Cloned(m0, own0, root, ph.mem, ph.own, n, v)
  {
    var i := 0;
    while i < 512
      invariant i <= 512
      invariant Cloning(ph, m0, own0, root, n, i, 0, 0)
    {
      ParentUntouched(ph, m0, own0, root, n, i, 0, 0, Vpn(0, 0, 0), 0);
      WalkFromRoot(m0, own0, root, i);
      var pte := ph.mem[root][i];
      if pte.flags.v {
        r := CloneMiddle(ph, root, n, i, pte.ppn, m0, own0);
        if !r.Done? {
          return;
        }
        NextTop(m0, own0, root, ph.mem, ph.own, n, i);
      } else {
        SkipTop(m0, own0, root, ph.mem, ph.own, n, i);
      }
      i := i + 1;
    }
    assert forall v :: Before(v, 512, 0, 0);
    forall v | UserLeaf(m0, root, v) ensures KernelLeaf(Number(v)) == None {
      assert Cloned(m0, own0, root, ph.mem, ph.own, n, v);
    }
    return Done(());
  }

  /** The address space `root` kept every translation and the contents of every user page. */
  ghost predicate Unchanged(m: Memory, m': Memory, root: nat) {
    forall v ::
      && Lookup(m', root, v) == Lookup(m, root, v)
      && (UserLeaf(m, root, v) ==>
            var p := Lookup(m, root, v).value.ppn; p in m && p in m' && m'[p] == m[p])
  }

  lemma ExtendsKeepsSpace(m: Memory, own: Owners, m': Memory, own': Owners, n: nat, root: nat)
    requires TreesOk(m, own) && Private(m, own) && IsRoot(own, root) && n != root
    requires Confined(m, own, m', own', n)
    ensures Unchanged(m, m', root)
  {
    ConfinedKeepsOthers(m, own, m', own', n, root);
  }

  /** No user page sits on a page number of the kernel regions. */
  ghost predicate UserBelowKernel(m: Memory, root: nat) {
    forall v | UserLeaf(m, root, v) :: KernelLeaf(Number(v)) == None
  }

  /** A copy has the kernel's pages, and its tables are on frames that were not in use. */
  lemma CopyCost(m0: Memory, own0: Owners, root: nat, m: Memory, own: Owners, n: nat, base: nat, top: nat, top': nat)
    requires TreesOk(m, own) && IsRoot(own, n) && n !in own0 && RootsTaken(own0) && Extends(m0, own0, m, own, n)
    requires TakenUpTo(base, top, own0) && TakenUpTo(base, top', own) && n == top
    requires UserBelowKernel(m0, root) && forall v :: Cloned(m0, own0, root, m, own, n, v)
    ensures top + TABLES <= top'
  {
    hide TreesOk, Extends, TakenUpTo, RootsTaken, Lookup, Indices, Number;
    NewTablesAreNew(m0, own0, m, own, n, base, top, top');
    forall i | 0 <= i < TABLES ensures Lookup(m, n, Indices(TablePage(i))).Some? {
      NumberOfIndices(TablePage(i));
      assert Cloned(m0, own0, root, m, own, n, Indices(TablePage(i)));
    }
    TakenBelow(base, top', own, n);
    KernelPagesCost(m, own, n, top, top');
  }

  /** `clone_user_space`: an exact copy of the parent's user pages on fresh private frames; the
      parent keeps its translations and contents, and the remap panic happens only if the parent
      has a user page on a kernel page number. */
  method CloneUserSpace(ph: Phys, root: nat) returns (r: Outcome<nat>)
    requires ph.Valid() && Private(ph.mem, ph.own) && IsRoot(ph.own, root)
    modifies ph
    ensures ph.Valid() && Private(ph.mem, ph.own)
    ensures r == Panics(Remap) ==> !old(UserBelowKernel(ph.mem, root))
    ensures r.Fails? || r == Panics(OutOfMemory) ==> ph.current + PAGE_SIZE > ph.end
    ensures r.Fails? ==> Aside(old(ph.mem), old(ph.own), ph.mem, ph.own)
    ensures r.Done? ==>
              && r.value == old(ph.top) && r.value !in old(ph.own) && IsRoot(ph.own, r.value)
              && Extends(old(ph.mem), old(ph.own), ph.mem, ph.own, r.value)
              && old(UserBelowKernel(ph.mem, root))
              && (forall v :: Cloned(old(ph.mem), old(ph.own), root, ph.mem, ph.own, r.value, v))
              && Unchanged(old(ph.mem), ph.mem, root)
  {
    var space := NewSpace(ph);
    if !space.Done? {
      return space;
    }
    var n := space.value;
    var cloned := CloneLoops(ph, root, n, old(ph.mem), old(ph.own));
    if !cloned.Done? {
      return if cloned.Fails? then Fails else Panics(cloned.why);
    }
    ExtendsKeepsSpace(old(ph.mem), old(ph.own), ph.mem, ph.own, n, root);
    return Done(n);
  }
}

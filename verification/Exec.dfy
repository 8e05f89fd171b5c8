/**
 Replacing an address space (src/proc.rs, exec_process; init_user_proc builds the first one the
 same way).
 */
module Exec {
  import opened Base
  import opened Pte
  import opened Sv39
  import opened FrameBytes
  import opened PhysMem
  import opened AddressSpace
  import opened ElfLoad
  import UserHeap
  import opened KernelHeap
  import opened HeapStore
  import opened UserRead
  import opened UserStack

  /** The page number of STACK_TOP. */
  const TOP_PAGE: nat := 0x3ff_ffff

  /** The `count` pages from the top stack page down. */
  predicate StackPageIn(v: Vpn, count: nat) {
    TOP_PAGE < Number(v) + count && Number(v) <= TOP_PAGE
  }

  /** Exactly the first `count` stack pages were added, as writable user pages. */
  ghost predicate StackAdded(m: Memory, m': Memory, root: nat, count: nat) {
    forall v :: StackAddedAt(m, m', root, count, v)
  }

  ghost predicate StackAddedAt(m: Memory, m': Memory, root: nat, count: nat, v: Vpn) {
    if StackPageIn(v, count) then Lookup(m', root, v).Some? && Lookup(m', root, v).value.flags == URW.Or(VAD)
    else Lookup(m', root, v) == Lookup(m, root, v)
  }

  /** No stack page is mapped. */
  ghost predicate StackFree(m: Memory, root: nat) {
    forall v :: StackFreeAt(m, root, v)
  }

  ghost predicate StackFreeAt(m: Memory, root: nat, v: Vpn) {
    StackPageIn(v, 9) ==> Lookup(m, root, v) == None
  }

  lemma StackAddedNext(m: Memory, m1: Memory, m2: Memory, root: nat, i: nat, q: nat, key: Vpn)
    requires i <= 8 && StackAdded(m, m1, root, i)
    requires forall v :: Lookup(m2, root, v) ==
               if v == key then Some(Leaf(q, URW.Or(VAD))) else Lookup(m1, root, v)
    requires key == Indices(TOP_PAGE - i)
    ensures StackAdded(m, m2, root, i + 1)
  {
    var next := i + 1;
    forall v ensures StackAddedAt(m, m2, root, next, v) {
      assert StackAddedAt(m, m1, root, i, v);
      assert v == key <==> Number(v) == TOP_PAGE - i by {
        PageOfNumber(TOP_PAGE - i);
      }
    }
  }

  lemma StackPageFree(m: Memory, m1: Memory, root: nat, i: nat)
    requires i <= 8 && StackAdded(m, m1, root, i)
    requires StackFree(m, root)
    ensures Lookup(m1, root, Indices(TOP_PAGE - i)) == None
  {
    PageOfNumber(TOP_PAGE - i);
    assert StackAddedAt(m, m1, root, i, Indices(TOP_PAGE - i));
    assert StackFreeAt(m, root, Indices(TOP_PAGE - i));
    assert StackPageIn(Indices(TOP_PAGE - i), 9) && !StackPageIn(Indices(TOP_PAGE - i), i);
  }

  /** Frame `q` is the top stack page, and the frame behind it the second-level table above the stack. */
  ghost predicate TopIs(m: Memory, own: Owners, root: nat, q: nat) {
    && q in own && !own[q].Table? && SecondTable(own, root, STACK_SLOT, q + 1)
    && Lookup(m, root, Indices(TOP_PAGE)) == Some(Leaf(q, URW.Or(VAD)))
  }

  /** One round of the stack loop. */
  method MapStackPage(ph: Phys, root: nat, i: nat, ghost m0: Memory) returns (r: Outcome<nat>)
    requires ph.Valid() && Private(ph.mem, ph.own) && IsRoot(ph.own, root) && i <= 8
    requires StackAdded(m0, ph.mem, root, i) && StackFree(m0, root)
    modifies ph
    ensures ph.Valid() && Private(ph.mem, ph.own)
    ensures Grows(old(ph.mem), old(ph.own), ph.mem, ph.own, root)
    ensures r != Panics(Remap)
    ensures r.Fails? || r == Panics(OutOfMemory) ==> ph.current + PAGE_SIZE > ph.end
    ensures r.Done? ==> StackAdded(m0, ph.mem, root, i + 1)
    ensures r.Done? && i == 0 && SlotFree(old(ph.mem), root, STACK_SLOT) ==>
              TopIs(ph.mem, ph.own, root, r.value) && r.value !in old(ph.own)
  {
    assert Indices(TOP_PAGE).i0 == STACK_SLOT;
    StackPageFree(m0, ph.mem, root, i);
    r := MapFreshNumber(ph, root, TOP_PAGE - i, URW);
    if r.Done? {
      StackAddedNext(m0, old(ph.mem), ph.mem, root, i, r.value, Indices(TOP_PAGE - i));
    }
  }

  lemma TopKept(m: Memory, own: Owners, m': Memory, own': Owners, root: nat, q: nat)
    requires TopIs(m, own, root, q) && Grows(m, own, m', own', root)
    ensures TopIs(m', own', root, q)
  {
  }

  /** The stack loop after its first round. */
  method MapStackRest(ph: Phys, root: nat, top: nat, ghost m0: Memory) returns (r: Outcome<()>)
    requires ph.Valid() && Private(ph.mem, ph.own) && IsRoot(ph.own, root)
    requires StackFree(m0, root) && StackAdded(m0, ph.mem, root, 1) && TopIs(ph.mem, ph.own, root, top)
    modifies ph
    ensures ph.Valid() && Private(ph.mem, ph.own)
    ensures Grows(old(ph.mem), old(ph.own), ph.mem, ph.own, root)
    ensures r != Panics(Remap)
    ensures r.Fails? || r == Panics(OutOfMemory) ==> ph.current + PAGE_SIZE > ph.end
    ensures r.Done? ==> StackAdded(m0, ph.mem, root, 9)
    ensures TopIs(ph.mem, ph.own, root, top)
  {
    hide Phys.Valid, Private, Grows, StackAdded, TopIs;
    GrowsReflexive(ph.mem, ph.own, root);
    r := Done(());
    var i := 1;
    while r.Done? && i <= 8
      invariant 1 <= i <= 9 && r != Panics(Remap)
      invariant ph.Valid() && Private(ph.mem, ph.own)
      invariant Grows(old(ph.mem), old(ph.own), ph.mem, ph.own, root)
      invariant r.Done? ==> StackAdded(m0, ph.mem, root, i)
      invariant r.Fails? || r == Panics(OutOfMemory) ==> ph.current + PAGE_SIZE > ph.end
    {
      ghost var m, o := ph.mem, ph.own;
      GrowsKeepsRoot(old(ph.mem), old(ph.own), m, o, root, root);
      var page := MapStackPage(ph, root, i, m0);
      GrowsTransitive(old(ph.mem), old(ph.own), m, o, ph.mem, ph.own, root);
      if !page.Done? {
        r := if page.Fails? then Fails else Panics(page.why);
      }
      i := i + 1;
    }
    TopKept(old(ph.mem), old(ph.own), ph.mem, ph.own, root, top);
  }

  /** The stack loop, into a table without stack pages: returns the frame of the top page. */
  method MapStack(ph: Phys, root: nat) returns (r: Outcome<nat>)
    requires ph.Valid() && Private(ph.mem, ph.own) && IsRoot(ph.own, root)
    requires StackFree(ph.mem, root) && SlotFree(ph.mem, root, STACK_SLOT)
    modifies ph
    ensures ph.Valid() && Private(ph.mem, ph.own)
    ensures Grows(old(ph.mem), old(ph.own), ph.mem, ph.own, root)
    ensures r.Done? ==> StackAdded(old(ph.mem), ph.mem, root, 9) && TopIs(ph.mem, ph.own, root, r.value)
    ensures r.Done? ==> r.value !in old(ph.own)
    ensures r != Panics(Remap)
    ensures r.Fails? || r == Panics(OutOfMemory) ==> ph.current + PAGE_SIZE > ph.end
  {
    assert StackAdded(ph.mem, ph.mem, root, 0);
    r := MapStackPage(ph, root, 0, ph.mem);
    if r.Done? {
      ghost var m, o := ph.mem, ph.own;
      var rest := MapStackRest(ph, root, r.value, old(ph.mem));
      GrowsTransitive(old(ph.mem), old(ph.own), m, o, ph.mem, ph.own, root);
      if !rest.Done? {
        r := if rest.Fails? then Fails else Panics(rest.why);
      }
    }
  }

  /** What the ELF parser delivers: the file, its program headers and the numbers for the
      auxiliary vector. */
  datatype Image = Image(data: seq<Byte>, phdrs: seq<Phdr>, entry: Word, phdr: Word, phent: Word, phnum: Word)

  /** The file that execve names: it is not there, it is no ELF file, or it is. */
  datatype File = Missing | Unreadable(bytes: seq<Byte>) | Elf(image: Image)
  {
    function Data(): seq<Byte> {
      match this
      case Missing => []
      case Unreadable(bytes) => bytes
      case Elf(image) => image.data
    }

    predicate Loadable() {
      Elf? ==> AllInBounds(image.phdrs, image.data)
    }

    function Parsed(): Option<Image> {
      if Elf? then Some(image) else None
    }
  }

  /** A new address space is ready to run: the segments are loaded byte by byte, the top stack page
      holds the arguments, and the user pages are the segments' pages and the nine stack pages. */
  ghost predicate Ready(m: Memory, own: Owners, root: nat, image: Image, argv: seq<Str>, envp: seq<Str>)
    requires AllInBounds(image.phdrs, image.data)
  {
    && AllLoaded(m, own, root, image.data, image.phdrs, |image.phdrs|)
    && (exists q, b :: StackReady(m, root, q, b, image, argv, envp))
    && (forall v :: ReadyAt(m, root, image, v))
  }

  ghost predicate StackReady(m: Memory, root: nat, q: nat, b: seq<Byte>, image: Image, argv: seq<Str>, envp: seq<Str>) {
    && StackPage(m, root, q, b)
    && Built(b, Words(|argv|, |envp|, Auxv(image.phdr, image.phent, image.phnum, image.entry)), argv + envp, |argv + envp|)
    && |b| == PAGE_SIZE && b[0x200..0x210] == RANDOM_BYTES
  }

  ghost predicate ReadyAt(m: Memory, root: nat, image: Image, v: Vpn)
    requires AllInBounds(image.phdrs, image.data)
  {
    if StackPageIn(v, 9) || v in AllPages(image.phdrs, image.data, |image.phdrs|) then
      KernelLeaf(Number(v)) == None && UserLeaf(m, root, v)
    else Lookup(m, root, v) == KernelLeaf(Number(v))
  }

  /** The break after exec: the page-aligned end of the highest segment, or 0x10000. */
  function FirstBreak(maxEnd: nat): Word {
    if RoundUp(maxEnd) == 0 then 0x1_0000 else RoundUp(maxEnd)
  }

  /** The break is page-aligned, at or above the end of every segment, and less than a page above the end of one of them; it
      is 0x10000 if there is none. */
  ghost predicate BreakBehind(brk: Word, phdrs: seq<Phdr>) {
    && brk % 4096 == 0
    && (forall i | 0 <= i < |phdrs| && phdrs[i].Load? :: phdrs[i].seg.vaddr + phdrs[i].seg.memsz <= brk)
    && (if exists i | 0 <= i < |phdrs| :: phdrs[i].Load?
        then exists i | 0 <= i < |phdrs| && phdrs[i].Load? :: brk < phdrs[i].seg.vaddr + phdrs[i].seg.memsz + 4096
        else brk == 0x1_0000)
  }

  lemma {:induction false} MaxEndIs(phdrs: seq<Phdr>, data: seq<Byte>, count: nat)
    requires AllInBounds(phdrs, data) && count <= |phdrs|
    ensures forall i | 0 <= i < count && phdrs[i].Load? :: phdrs[i].seg.vaddr + phdrs[i].seg.memsz <= MaxEnd(phdrs, count)
    ensures MaxEnd(phdrs, count) == 0 || exists i | 0 <= i < count && phdrs[i].Load? ::
              phdrs[i].seg.vaddr + phdrs[i].seg.memsz == MaxEnd(phdrs, count) <= WORD_LIMIT - PAGE_SIZE
  {
    if count > 0 {
      MaxEndIs(phdrs, data, count - 1);
    }
  }

  lemma FirstBreakIsBehind(phdrs: seq<Phdr>, data: seq<Byte>)
    requires AllInBounds(phdrs, data)
    ensures BreakBehind(FirstBreak(MaxEnd(phdrs, |phdrs|)), phdrs)
  {
    hide MaxEnd;
    MaxEndIs(phdrs, data, |phdrs|);
    var end := MaxEnd(phdrs, |phdrs|);
    if i :| 0 <= i < |phdrs| && phdrs[i].Load? {
      assert 0 < phdrs[i].seg.vaddr + phdrs[i].seg.memsz <= end;
    }
  }

  /** No page of a segment is a page that brk maps when the break rises from there. */
  lemma HeapIsBehind(phdrs: seq<Phdr>, data: seq<Byte>, brk: Word, i: nat, n: nat)
    requires AllInBounds(phdrs, data) && BreakBehind(brk, phdrs) && i < |phdrs| && phdrs[i].Load?
    requires phdrs[i].seg.First() <= n <= phdrs[i].seg.Last()
    ensures n < UserHeap.EndPage(brk)
  {
    var seg := phdrs[i].seg;
    assert n * PAGE_SIZE < seg.vaddr + seg.memsz <= brk;
    assert RoundUp(brk) == brk;
  }

  /** Whatever the break, the pages that brk adds to an address space that exec built are no pages of the program or of
      its stack, and the program stays loaded. */
  lemma BrkSparesProgram(m: Memory, own: Owners, m': Memory, own': Owners, root: nat, image: Image, argv: seq<Str>,
                         envp: seq<Str>, lo: nat, hi: nat)
    requires AllInBounds(image.phdrs, image.data) && Ready(m, own, root, image, argv, envp)
    requires UserHeap.ZeroPagesAdded(m, own, m', own', root, lo, hi, URW)
    ensures AllLoaded(m', own', root, image.data, image.phdrs, |image.phdrs|)
    ensures forall v | Lookup(m', root, v) != Lookup(m, root, v) ::
              v !in AllPages(image.phdrs, image.data, |image.phdrs|) && !StackPageIn(v, 9) && UserHeap.InPages(v, lo, hi)
  {
    hide Lookup, AllPages, Number;
    UserHeap.AddedGrows(m, own, m', own', root, lo, hi, URW);
    AllLoadedKept(m, own, m', own', root, image.data, image.phdrs, |image.phdrs|);
    forall v | Lookup(m', root, v) != Lookup(m, root, v)
      ensures v !in AllPages(image.phdrs, image.data, |image.phdrs|) && !StackPageIn(v, 9)
    {
      assert ReadyAt(m, root, image, v);
    }
  }

  /** The stack pages are no kernel pages. */
  lemma StackAvoidsKernel(v: Vpn)
    requires StackPageIn(v, 9)
    ensures KernelLeaf(Number(v)) == None
  {
  }

  lemma KernelOnlyIsStackFree(m: Memory, root: nat)
    requires forall v :: Lookup(m, root, v) == KernelLeaf(Number(v))
    ensures StackFree(m, root)
  {
    forall v ensures StackFreeAt(m, root, v) {
      if StackPageIn(v, 9) {
        StackAvoidsKernel(v);
      }
    }
  }

  lemma ReadyPages(m: Memory, m1: Memory, m2: Memory, own: Owners, root: nat, top: nat, image: Image, pages: seq<Vpn>)
    requires AllInBounds(image.phdrs, image.data)
    requires WithStack(m, root) && Clean(m, root, pages) && Added(m, m1, root, pages)
    requires pages == AllPages(image.phdrs, image.data, |image.phdrs|)
    requires OnlyFrame(m1, m2, own, top) && IsRoot(own, root)
    ensures forall v :: ReadyAt(m2, root, image, v)
  {
    forall v ensures ReadyAt(m2, root, image, v) {
      assert WithStackAt(m, root, v);
      assert Lookup(m2, root, v) == Lookup(m1, root, v);
      if v in pages {
        var i :| 0 <= i < |pages| && pages[i] == v;
        assert Lookup(m, root, pages[i]) == None;
        assert UserLeaf(m1, root, v);
      }
    }
  }

  /** The segments' pages are among the pages that were clean before the load. */
  lemma {:induction false} InAllPages(phdrs: seq<Phdr>, data: seq<Byte>, count: nat, i: nat, n: nat)
    requires AllInBounds(phdrs, data) && i < count <= |phdrs| && phdrs[i].Load?
    requires phdrs[i].seg.First() <= n <= phdrs[i].seg.Last()
    ensures Indices(n) in AllPages(phdrs, data, count)
  {
    hide Indices, Range, Segment.First, Segment.Last;
    if i == count - 1 {
      InRange(phdrs[i].seg.First(), phdrs[i].seg.Last() + 1, n);
    } else {
      InAllPages(phdrs, data, count - 1, i, n);
    }
  }

  lemma {:induction false} InRange(lo: nat, hi: nat, n: nat)
    requires lo <= n < hi
    ensures Indices(n) in Range(lo, hi)
    decreases hi
  {
    hide Indices;
    if n < hi - 1 {
      InRange(lo, hi - 1, n);
    }
  }

  /** Building the stack image leaves the loaded pages alone. */
  lemma StackKeepsLoaded(m0: Memory, own0: Owners, m: Memory, m': Memory, own: Owners, root: nat, image: Image, top: nat)
    requires AllInBounds(image.phdrs, image.data)
    requires Private(m, own) && IsRoot(own, root) && TopIs(m, own, root, top)
    requires TopIs(m0, own0, root, top)
    requires Clean(m0, root, AllPages(image.phdrs, image.data, |image.phdrs|))
    requires AllLoaded(m, own, root, image.data, image.phdrs, |image.phdrs|)
    requires OnlyFrame(m, m', own, top)
    ensures AllLoaded(m', own, root, image.data, image.phdrs, |image.phdrs|)
  {
    var Image(data, phdrs, _, _, _, _) := image;
    forall i | 0 <= i < |phdrs| && phdrs[i].Load?
      ensures PagesLoaded(m', own, root, data, phdrs[i].seg, phdrs[i].seg.First(), phdrs[i].seg.Last() + 1)
    {
      var seg := phdrs[i].seg;
      forall n | seg.First() <= n < seg.Last() + 1 ensures PageLoaded(m', own, root, data, seg, n) {
        InAllPages(phdrs, data, |phdrs|, i, n);
        assert Indices(n) != Indices(TOP_PAGE);
        assert PageLoaded(m, own, root, data, seg, n);
        OtherPageKept(m, m', own, root, data, seg, n, top);
      }
    }
  }

  lemma OtherPageKept(m: Memory, m': Memory, own: Owners, root: nat, data: seq<Byte>, seg: Segment, n: nat, top: nat)
    requires seg.InBounds(data) && PageLoaded(m, own, root, data, seg, n)
    requires Private(m, own) && IsRoot(own, root) && TopIs(m, own, root, top) && Indices(n) != Indices(TOP_PAGE)
    requires OnlyFrame(m, m', own, top)
    ensures PageLoaded(m', own, root, data, seg, n)
  {
    var v, w := Indices(n), Indices(TOP_PAGE);
    assert UserLeaf(m, root, v) && UserLeaf(m, root, w);
    PathDecidesPage(v, w);
  }

  /** Writing a frame that was free at the start stays within the extension. */
  lemma ExtendsThenWrite(m: Memory, own: Owners, m1: Memory, own1: Owners, m2: Memory, root: nat, p: nat)
    requires Extends(m, own, m1, own1, root) && p !in own && p in own1
    requires OnlyFrame(m1, m2, own1, p)
    ensures Extends(m, own, m2, own1, root)
  {
  }

  lemma GrowsKeepsOwned(m: Memory, own: Owners, m': Memory, own': Owners, root: nat)
    requires Grows(m, own, m', own', root)
    ensures forall p | p in own :: p in own'
  {
  }

  lemma ExtendsKeepsOwned(m: Memory, own: Owners, m': Memory, own': Owners, root: nat)
    requires Extends(m, own, m', own', root)
    ensures forall p | p in own :: p in own'
  {
  }

  /** The result of exec: the new table, the break and the stack pointer. */
  datatype Started = Started(root: nat, brk: Word, sp: nat)

  /** The table with its kernel pages and its stack: returns the root and the top stack frame. */
  method NewSpaceWithStack(ph: Phys) returns (r: Outcome<(nat, nat)>)
    requires ph.Valid() && Private(ph.mem, ph.own)
    modifies ph
    ensures ph.Valid() && Private(ph.mem, ph.own)
    ensures r != Panics(Remap)
    ensures r.Fails? || r == Panics(OutOfMemory) ==> ph.current + PAGE_SIZE > ph.end
    ensures r.Fails? ==> Aside(old(ph.mem), old(ph.own), ph.mem, ph.own)
    ensures r.Done? ==>
              && r.value.0 == old(ph.top) && r.value.0 !in old(ph.own) && IsRoot(ph.own, r.value.0)
              && Extends(old(ph.mem), old(ph.own), ph.mem, ph.own, r.value.0)
              && WithStack(ph.mem, r.value.0) && TopIs(ph.mem, ph.own, r.value.0, r.value.1)
              && r.value.1 !in old(ph.own)
  {
    hide Phys.Valid, Private, StackAdded, TopIs, Extends;
    var space := NewSpace(ph);
    if !space.Done? {
      return if space.Fails? then Fails else Panics(space.why);
    }
    var root := space.value;
    ghost var m, o := ph.mem, ph.own;
    KernelOnlyIsStackFree(ph.mem, root);
    ExtendsKeepsOwned(old(ph.mem), old(ph.own), m, o, root);
    var stack := MapStack(ph, root);
    ExtendsTransitive(old(ph.mem), old(ph.own), m, o, ph.mem, ph.own, root);
    if !stack.Done? {
      return if stack.Fails? then Fails else Panics(stack.why);
    }
    GrowsKeepsRoot(m, o, ph.mem, ph.own, root, root);
    WithStackFrom(m, ph.mem, root);
    return Done((root, stack.value));
  }

  /** A table with the kernel pages and the nine stack pages. */
  ghost predicate WithStack(m: Memory, root: nat) {
    forall v :: WithStackAt(m, root, v)
  }

  ghost predicate WithStackAt(m: Memory, root: nat, v: Vpn) {
    if StackPageIn(v, 9) then KernelLeaf(Number(v)) == None && UserLeaf(m, root, v)
    else Lookup(m, root, v) == KernelLeaf(Number(v))
  }

  lemma WithStackFrom(m: Memory, m': Memory, root: nat)
    requires forall v :: Lookup(m, root, v) == KernelLeaf(Number(v))
    requires StackAdded(m, m', root, 9)
    ensures WithStack(m', root)
  {
    forall v ensures WithStackAt(m', root, v) {
      assert StackAddedAt(m, m', root, 9, v);
      if StackPageIn(v, 9) {
        StackAvoidsKernel(v);
      }
    }
  }

  /** The segments' pages are all different, and none is a kernel page or a stack page. */
  ghost predicate Placeable(image: Image)
    requires AllInBounds(image.phdrs, image.data)
  {
    var pages := AllPages(image.phdrs, image.data, |image.phdrs|);
    && (forall i | 0 <= i < |pages| :: KernelLeaf(Number(pages[i])) == None && !StackPageIn(pages[i], 9))
    && (forall i, j | 0 <= i < j < |pages| :: pages[i] != pages[j])
  }

  /** Loading over the kernel's pages and the stack works exactly if the segments are placeable. */
  lemma LoadsIfPlaceable(m: Memory, m': Memory, root: nat, image: Image, r: Outcome<nat>)
    requires AllInBounds(image.phdrs, image.data) && WithStack(m, root)
    requires LoadEnds(m, m', root, AllPages(image.phdrs, image.data, |image.phdrs|), r)
    ensures r.Done? ==> Placeable(image)
    ensures r == Panics(Remap) ==> !Placeable(image)
  {
    hide Lookup, KernelLeaf, Number, AllPages, StackPageIn, Added;
    var pages := AllPages(image.phdrs, image.data, |image.phdrs|);
    forall i | 0 <= i < |pages|
      ensures Lookup(m, root, pages[i]) == None <==> KernelLeaf(Number(pages[i])) == None && !StackPageIn(pages[i], 9)
    {
      assert WithStackAt(m, root, pages[i]);
    }
  }

  /** The words and the strings that `build_stack` writes. */
  function StackWords(image: Image, argv: seq<Str>, envp: seq<Str>): seq<nat> {
    Words(|argv|, |envp|, Auxv(image.phdr, image.phent, image.phnum, image.entry))
  }

  /** The address space before `build_stack`: the segments are loaded, and `top` is the top stack page. */
  ghost predicate Loaded(m: Memory, own: Owners, root: nat, top: nat, image: Image)
    requires AllInBounds(image.phdrs, image.data)
  {
    && TreesOk(m, own) && Private(m, own) && TopIs(m, own, root, top)
    && AllLoaded(m, own, root, image.data, image.phdrs, |image.phdrs|)
  }

  /** With frames left, a load comes to nothing only for one of these reasons. */
  predicate Unusable(file: File, current: nat) {
    !file.Elf? || BadType in file.image.phdrs || FileBlock(current, |file.Data()|).None?
  }

  /** Some frames were taken aside from what was in use, and then the file was copied to its block. */
  ghost predicate CopiedAside(m: Memory, own: Owners, loaded: Memory, own': Owners, m': Memory, current: nat,
                              data: seq<Byte>) {
    && Aside(m, own, loaded, own') && TreesOk(loaded, own') && Private(loaded, own')
    && FileBlock(current, |data|).Some? && m' == WithCopy(loaded, current, data)
  }

  /** A new address space, built over `start`: the memory of before, with the file in the heap. */
  ghost predicate Executed(start: Memory, own: Owners, loaded: Memory, m: Memory, own': Owners, s: Started, top: nat,
                           image: Image, argv: seq<Str>, envp: seq<Str>)
    requires AllInBounds(image.phdrs, image.data)
  {
    && s.sp == STACK_TOP && BreakBehind(s.brk, image.phdrs) && Placeable(image)
    && IsRoot(own', s.root)
    && Extends(start, own, loaded, own', s.root) && Loaded(loaded, own', s.root, top, image)
    && m == ImageWritten(loaded, top, StackWords(image, argv, envp), argv + envp)
    && (InPage(argv + envp) ==> Extends(start, own, m, own', s.root) && Ready(m, own', s.root, image, argv, envp))
  }

  /** `exec_process`. `start` is the memory of before, with the file copied to the heap if it got that far; `loaded` is
      memory before the stack image is written from frame `top` on. If the frames have reached the heap when
      the file is copied, `stopped` is set, `loaded` is memory before the copy, and nothing is said of what
      follows the copy. The other clauses are for frames that stay below the heap. */
  method ExecProcess(ph: Phys, heap: Bump, file: File, argv: seq<Str>, envp: seq<Str>)
    returns (r: Outcome<Started>, stopped: bool, ghost start: Memory, ghost loaded: Memory, ghost top: nat)
    requires ph.Valid() && Private(ph.mem, ph.own) && heap.Valid() && !file.Missing? && file.Loadable()
    modifies ph, heap
    ensures heap.Valid() && (start == old(ph.mem) || start == WithCopy(old(ph.mem), old(heap.current), file.Data()))
    ensures stopped ==>
              && ph.current > HEAP_START
              && CopiedAside(old(ph.mem), old(ph.own), loaded, ph.own, ph.mem, old(heap.current), file.Data())
    ensures ph.current <= HEAP_START ==>
              && old(ph.top) <= ph.top && BelowHeap(old(ph.own)) && !stopped
              && (!r.Done? || InPage(argv + envp) ==> ph.Valid() && Private(ph.mem, ph.own))
              && (r.Fails? ==> Unusable(file, old(heap.current)) && Aside(start, old(ph.own), ph.mem, ph.own))
              && (r.Panics? ==> r.why == Remap && file.Elf? && !Placeable(file.image))
              && (r.Done? ==>
                    && file.Elf? && r.value.root == old(ph.top) < ph.top && r.value.root !in old(ph.own)
                    && Executed(start, old(ph.own), loaded, ph.mem, ph.own, r.value, top, file.image, argv, envp))
  {
    hide Phys.Valid, Private, WithStack, TopIs, Extends, Ready, Placeable, Loaded, InPage, ImageWritten, TakenUpTo, Aside,
      WithCopy;
    start, loaded, top, stopped := ph.mem, ph.mem, 0, false;
    ValidTaken(ph);
    TakenUnder(ph.base, ph.top, ph.own);
    var space := NewSpaceWithStack(ph);
    ValidTaken(ph);
    PanicCases(space);
    if !space.Done? {
      r := if space.Fails? then Fails else Panics(space.why);
      return;
    }
    top := space.value.1;
    TakenBelow(ph.base, ph.top, ph.own, space.value.0);
    ExtendsAside(old(ph.mem), old(ph.own), ph.mem, ph.own, space.value.0);
    r, stopped, start, loaded :=
      CopyAndLoad(ph, heap, space.value.0, space.value.1, file, argv, envp, old(ph.mem), old(ph.own));
    if ph.current <= HEAP_START && r.Fails? {
      ExtendsAside(start, old(ph.own), ph.mem, ph.own, space.value.0);
    }
  }

  /** A write to the heap, with all frames below it, leaves a table and its stack as they are. */
  lemma HeapWriteKeepsStack(m: Memory, own: Owners, root: nat, top: nat, addr: nat, data: seq<Byte>)
    requires TreesOk(m, own) && Private(m, own) && IsRoot(own, root) && BelowHeap(own) && HEAP_START <= addr
    requires WithStack(m, root) && TopIs(m, own, root, top)
    ensures var m' := Poked(m, addr, data);
            && TreesOk(m', own) && Private(m', own) && WithStack(m', root) && TopIs(m', own, root, top)
  {
    hide TreesOk, Private, Poked, Lookup, BelowHeap, KeepsOwned;
    HeapWriteKeeps(m, own, addr, data);
    KeptOwned(m, Poked(m, addr, data), own);
    forall v ensures WithStackAt(Poked(m, addr, data), root, v) {
      assert WithStackAt(m, root, v);
    }
  }

  /** The part of `exec_process` and `init_user_proc` after the stack pages: the copy of the file to the heap, and the
      load. */
  method CopyAndLoad(ph: Phys, heap: Bump, root: nat, top: nat, file: File, argv: seq<Str>, envp: seq<Str>,
                     ghost m0: Memory, ghost own0: Owners)
    returns (r: Outcome<Started>, stopped: bool, ghost start: Memory, ghost loaded: Memory)
    requires ph.Valid() && Private(ph.mem, ph.own) && IsRoot(ph.own, root)
    requires heap.Valid() && !file.Missing? && file.Loadable()
    requires WithStack(ph.mem, root) && TopIs(ph.mem, ph.own, root, top)
    requires top !in own0 && Extends(m0, own0, ph.mem, ph.own, root)
    modifies ph, heap
    ensures heap.Valid() && (start == m0 || start == WithCopy(m0, old(heap.current), file.Data()))
    ensures IsRoot(ph.own, root) && old(ph.top) <= ph.top && ph.current == ph.top * PAGE_SIZE
    ensures stopped ==>
              && ph.current > HEAP_START && FileBlock(old(heap.current), |file.Data()|).Some?
              && loaded == old(ph.mem) && ph.own == old(ph.own) && TreesOk(loaded, ph.own) && Private(loaded, ph.own)
              && ph.mem == WithCopy(loaded, old(heap.current), file.Data())
    ensures ph.current <= HEAP_START ==>
              && BelowHeap(ph.own) && !stopped
              && (!r.Done? || InPage(argv + envp) ==> ph.Valid() && Private(ph.mem, ph.own))
              && (r.Fails? ==> Unusable(file, old(heap.current)) && Extends(start, own0, ph.mem, ph.own, root))
              && (r.Panics? ==> r.why == Remap && file.Elf? && !Placeable(file.image))
              && (r.Done? ==>
                    && file.Elf? && r.value.root == root
                    && Executed(start, own0, loaded, ph.mem, ph.own, r.value, top, file.image, argv, envp))
  {
    hide Phys.Valid, TreesOk, Private, WithStack, TopIs, Extends, Ready, Placeable, Loaded, InPage, ImageWritten, TakenUpTo,
      BelowHeap, Poked;
    start, loaded, stopped := m0, ph.mem, false;
    ValidTaken(ph);
    ValidTrees(ph);
    ghost var m := ph.mem;
    var block := CopyToHeap(ph, heap, file.Data());
    if block.None? {
      r := Fails;
      TakenUnder(ph.base, ph.top, ph.own);
      return;
    }
    if ph.current > HEAP_START {
      r, stopped := Fails, true;
      return;
    }
    start := WithCopy(m0, old(heap.current), file.Data());
    TakenBelowHeap(ph.base, ph.top, ph.own);
    HeapWriteKeepsStack(m, ph.own, root, top, block.value, file.Data());
    HeapWriteCommutes(m0, own0, m, ph.own, root, block.value, file.Data());
    r, loaded := LoadProgram(ph, root, top, file.Parsed(), argv, envp, start, own0);
    PanicCases(r);
    TakenUnder(ph.base, ph.top, ph.own);
  }

  lemma TakenUnder(base: nat, top: nat, own: Owners)
    requires TakenUpTo(base, top, own)
    ensures top * PAGE_SIZE <= HEAP_START ==> BelowHeap(own)
  {
    if top * PAGE_SIZE <= HEAP_START {
      TakenBelowHeap(base, top, own);
    }
  }

  /** The segments and the stack image, once the file is in the heap. */
  method LoadProgram(ph: Phys, root: nat, top: nat, image: Option<Image>, argv: seq<Str>, envp: seq<Str>,
                     ghost m0: Memory, ghost own0: Owners)
    returns (r: Outcome<Started>, ghost loaded: Memory)
    requires ph.Valid() && Private(ph.mem, ph.own) && IsRoot(ph.own, root)
    requires image.Some? ==> AllInBounds(image.value.phdrs, image.value.data)
    requires WithStack(ph.mem, root) && TopIs(ph.mem, ph.own, root, top)
    requires top !in own0 && Extends(m0, own0, ph.mem, ph.own, root)
    modifies ph
    ensures IsRoot(ph.own, root) && Extends(m0, own0, loaded, ph.own, root)
    ensures old(ph.top) <= ph.top && TakenUpTo(ph.base, ph.top, ph.own)
    ensures ph.current == ph.top * PAGE_SIZE && ph.end == old(ph.end)
    ensures !r.Done? || InPage(argv + envp) ==>
              ph.Valid() && Private(ph.mem, ph.own) && Extends(m0, own0, ph.mem, ph.own, root)
    ensures r.Done? ==>
              && image.Some? && r.value.sp == STACK_TOP && r.value.root == root && Placeable(image.value)
              && BreakBehind(r.value.brk, image.value.phdrs)
              && Loaded(loaded, ph.own, root, top, image.value)
              && ph.mem == ImageWritten(loaded, top, StackWords(image.value, argv, envp), argv + envp)
    ensures r.Done? && InPage(argv + envp) ==> Ready(ph.mem, ph.own, root, image.value, argv, envp)
    ensures r == Panics(Remap) ==> image.Some? && !Placeable(image.value)
    ensures r.Fails? ==> image.None? || BadType in image.value.phdrs || ph.current + PAGE_SIZE > ph.end
    ensures r == Panics(OutOfMemory) ==> ph.current + PAGE_SIZE > ph.end
  {
    hide Phys.Valid, TreesOk, Private, WithStack, TopIs, Extends, AllLoaded, LoadEnds, Ready, Placeable, InPage,
      ImageWritten, TakenUpTo, BreakBehind, FirstBreak;
    loaded := ph.mem;
    ValidTaken(ph);
    if image.None? {
      return Fails, loaded;
    }
    ghost var m, o := ph.mem, ph.own;
    var elf := LoadElf(ph, root, image.value.data, image.value.phdrs);
    loaded := ph.mem;
    ValidTaken(ph);
    GrowsKeepsOwned(m, o, ph.mem, ph.own, root);
    TopGrows(ph.base, old(ph.top), o, ph.top, ph.own);
    ExtendsTransitive(m0, own0, m, o, ph.mem, ph.own, root);
    GrowsKeepsRoot(m, o, ph.mem, ph.own, root, root);
    LoadsIfPlaceable(m, ph.mem, root, image.value, elf);
    if !elf.Done? {
      r := if elf.Fails? then Fails else Panics(elf.why);
      return;
    }
    TopKept(m, o, ph.mem, ph.own, root, top);
    ValidTrees(ph);
    var sp := FinishStack(ph, root, top, image.value, argv, envp, m, o, elf);
    if InPage(argv + envp) {
      ExtendsThenWrite(m0, own0, loaded, ph.own, ph.mem, root, top);
    }
    FirstBreakIsBehind(image.value.phdrs, image.value.data);
    r := Done(Started(root, FirstBreak(elf.value), sp));
  }

  lemma TopPageKept(m: Memory, m': Memory, own: Owners, root: nat, top: nat)
    requires IsRoot(own, root) && TopIs(m, own, root, top) && OnlyFrame(m, m', own, top) && top in m'
    ensures StackPage(m', root, top, BytesOf(m'[top]))
  {
    hide BytesOf;
    assert STACK_TOP / PAGE_SIZE == TOP_PAGE;
    assert Lookup(m', root, Indices(TOP_PAGE)) == Lookup(m, root, Indices(TOP_PAGE));
  }

  /** A stack image that stays in its page keeps the trees. */
  lemma ImageIsOwn(m: Memory, own: Owners, top: nat, words: seq<nat>, strs: seq<Str>)
    requires TreesOk(m, own) && Private(m, own) && top in own && !own[top].Table? && top in m
    requires InPage(strs) && |words| == |strs| + 19
    ensures var m' := ImageWritten(m, top, words, strs);
            TreesOk(m', own) && Private(m', own) && OnlyFrame(m, m', own, top)
  {
    hide TreesOk, Private, ImageWritten, BytesOf, Built, InPage;
    ImageFits(m, top, words, strs);
    DataWriteOk(m, own, top, ImageWritten(m, top, words, strs)[top]);
  }

  /** Arguments that fit the stack page complete the loaded address space. */
  lemma FinishedIsReady(m0: Memory, own0: Owners, m1: Memory, own: Owners, root: nat, top: nat, image: Image,
                        argv: seq<Str>, envp: seq<Str>, r: Outcome<nat>)
    requires AllInBounds(image.phdrs, image.data) && Loaded(m1, own, root, top, image) && IsRoot(own, root) && top in m1
    requires WithStack(m0, root) && TopIs(m0, own0, root, top) && InPage(argv + envp)
    requires r.Done? && LoadEnds(m0, m1, root, AllPages(image.phdrs, image.data, |image.phdrs|), r)
    ensures var m := ImageWritten(m1, top, StackWords(image, argv, envp), argv + envp);
            && TreesOk(m, own) && Private(m, own) && OnlyFrame(m1, m, own, top)
            && Ready(m, own, root, image, argv, envp)
  {
    hide TreesOk, Private, AllLoaded, WithStack, Clean, Added, Built, ReadyAt, OnlyFrame, Lookup, BytesOf, StackPage, InPage,
      ImageWritten;
    var words := StackWords(image, argv, envp);
    var m := ImageWritten(m1, top, words, argv + envp);
    ImageIsOwn(m1, own, top, words, argv + envp);
    ImageFits(m1, top, words, argv + envp);
    StackKeepsLoaded(m0, own0, m1, m, own, root, image, top);
    ReadyPages(m0, m1, m, own, root, top, image, AllPages(image.phdrs, image.data, |image.phdrs|));
    TopPageKept(m1, m, own, root, top);
    assert StackReady(m, root, top, BytesOf(m[top]), image, argv, envp);
  }

  /** `build_stack` on a loaded address space. */
  method FinishStack(ph: Phys, root: nat, top: nat, image: Image, argv: seq<Str>, envp: seq<Str>,
                     ghost m0: Memory, ghost own0: Owners, ghost r: Outcome<nat>)
    returns (sp: nat)
    requires ph.Valid() && IsRoot(ph.own, root)
    requires AllInBounds(image.phdrs, image.data) && Loaded(ph.mem, ph.own, root, top, image)
    requires WithStack(m0, root) && TopIs(m0, own0, root, top)
    requires r.Done? && LoadEnds(m0, ph.mem, root, AllPages(image.phdrs, image.data, |image.phdrs|), r)
    modifies ph`mem
    ensures sp == STACK_TOP
    ensures ph.mem == ImageWritten(old(ph.mem), top, StackWords(image, argv, envp), argv + envp)
    ensures InPage(argv + envp) ==>
              && ph.Valid() && Private(ph.mem, ph.own) && OnlyFrame(old(ph.mem), ph.mem, ph.own, top)
              && Ready(ph.mem, ph.own, root, image, argv, envp)
  {
    hide TreesOk, Private, AllLoaded, WithStack, LoadEnds, OnlyFrame, Ready, InPage, ImageWritten;
    sp := BuildStack(ph, top, argv, envp, image.phdr, image.phent, image.phnum, image.entry);
    if InPage(argv + envp) {
      FinishedIsReady(m0, own0, old(ph.mem), ph.own, root, top, image, argv, envp, r);
    }
  }

  /** Thirteen strings overwrite a page table: the thirteenth goes to the frame behind the stack page. */
  lemma ThirteenStringsHitTable(loaded: Memory, own: Owners, root: nat, top: nat, image: Image, words: seq<nat>,
                                strs: seq<Str>, i: nat)
    requires AllInBounds(image.phdrs, image.data) && Loaded(loaded, own, root, top, image)
    requires |strs| == 13 && i <= |strs[12]| && i < PAGE_SIZE
    ensures own[top + 1].Table? && BytesOf(ImageWritten(loaded, top, words, strs)[top + 1])[i] == (strs[12] + [0])[i]
  {
    hide ImageWritten, BytesOf;
    LastStringStands(loaded, top, words, strs, i);
    assert UserStack.Slot(12) + i == PAGE_SIZE + i && (PAGE_SIZE + i) / PAGE_SIZE == 1 && (PAGE_SIZE + i) % PAGE_SIZE == i;
  }

  /** `Process::new`: a table, a kernel stack, and the identity maps. */
  method NewProcess(ph: Phys) returns (r: Outcome<(nat, nat)>)
    requires ph.Valid() && Private(ph.mem, ph.own)
    modifies ph
    ensures ph.Valid() && Private(ph.mem, ph.own)
    ensures r.Done? ==>
              && var (root, kstack) := r.value;
              && root !in old(ph.own) && IsRoot(ph.own, root)
              && Extends(old(ph.mem), old(ph.own), ph.mem, ph.own, root)
              && KernelStackAt(ph.own, kstack)
              && SlotFree(ph.mem, root, STACK_SLOT)
              && forall v :: Lookup(ph.mem, root, v) == KernelLeaf(Number(v))
    ensures r != Panics(Remap)
    ensures !r.Done? ==> ph.current + 2 * PAGE_SIZE > ph.end
  {
    var table := ph.NewTable();
    if table.None? {
      return Fails;
    }
    var root := table.value;
    NewRootKeepsPrivate(old(ph.mem), old(ph.own), ph.mem, ph.own, root);
    ghost var m, o := ph.mem, ph.own;
    ValidTrees(ph);
    hide Phys.Valid, TreesOk, Private, Extends, Lookup, StackTaken;
    var pages := ph.AllocPages(2);
    if pages.None? {
      return Fails;
    }
    var kstack := pages.value / PAGE_SIZE;
    StackTakenExtends(m, o, ph.mem, ph.own, kstack, 2, root);
    StackTakenAt(m, o, ph.mem, ph.own, kstack, root);
    StackTakenKeepsSlot(m, o, ph.mem, ph.own, kstack, root);
    ExtendsTransitive(old(ph.mem), old(ph.own), m, o, ph.mem, ph.own, root);
    ghost var m1, o1 := ph.mem, ph.own;
    var mapped := MapKernel(ph, root);
    if mapped.Panics? {
      return Panics(mapped.why);
    }
    ExtendsTransitive(old(ph.mem), old(ph.own), m1, o1, ph.mem, ph.own, root);
    ExtendsKeepsStack(m1, o1, ph.mem, ph.own, root, kstack);
    return Done((root, kstack));
  }

  /** The two frames from `k` on are a kernel stack. */
  predicate KernelStackAt(own: Owners, k: nat) {
    k in own && own[k].Kernel? && k + 1 in own && own[k + 1].Kernel?
  }

  lemma StackTakenAt(m: Memory, own: Owners, m': Memory, own': Owners, k: nat, root: nat)
    requires StackTaken(m, own, m', own', k, 2) && IsRoot(own, root)
    ensures KernelStackAt(own', k) && IsRoot(own', root) && k !in own && k + 1 !in own
  {
  }

  lemma StackTakenKeepsSlot(m: Memory, own: Owners, m': Memory, own': Owners, k: nat, root: nat)
    requires StackTaken(m, own, m', own', k, 2) && IsRoot(own, root) && SlotFree(m, root, STACK_SLOT)
    ensures SlotFree(m', root, STACK_SLOT)
  {
  }

  lemma ExtendsKeepsStack(m: Memory, own: Owners, m': Memory, own': Owners, root: nat, k: nat)
    requires Extends(m, own, m', own', root) && KernelStackAt(own, k) && IsRoot(own, root)
    ensures KernelStackAt(own', k) && IsRoot(own', root)
  {
  }

  /** `init_user_proc`: the first process, with its kernel stack. */
  method InitUserProc(ph: Phys, heap: Bump, file: File, argv: seq<Str>, envp: seq<Str>)
    returns (r: Outcome<(Started, nat)>, ghost start: Memory, ghost loaded: Memory, ghost top: nat)
    requires ph.Valid() && Private(ph.mem, ph.own) && heap.Valid() && !file.Missing? && file.Loadable()
    modifies ph, heap
    ensures heap.Valid()
    ensures ph.current <= HEAP_START ==>
              && (!r.Done? || InPage(argv + envp) ==> ph.Valid() && Private(ph.mem, ph.own))
              && (r.Fails? ==> Unusable(file, old(heap.current)))
              && (r.Panics? ==> r.why == Remap && file.Elf? && !Placeable(file.image))
              && (r.Done? ==>
                    && file.Elf? && KernelStackAt(ph.own, r.value.1) && IsRoot(ph.own, r.value.0.root)
                    && Loaded(loaded, ph.own, r.value.0.root, top, file.image)
                    && ph.mem == ImageWritten(loaded, top, StackWords(file.image, argv, envp), argv + envp)
                    && r.value.0.sp == STACK_TOP && Placeable(file.image)
                    && BreakBehind(r.value.0.brk, file.image.phdrs)
                    && (InPage(argv + envp) ==> Ready(ph.mem, ph.own, r.value.0.root, file.image, argv, envp)))
  {
    hide Phys.Valid, Private, WithStack, StackAdded, TopIs, Extends, Ready, Lookup, Placeable, Loaded, InPage, ImageWritten,
      TakenUpTo, WithCopy;
    start, loaded, top := ph.mem, ph.mem, 0;
    var proc := NewProcess(ph);
    ValidTaken(ph);
    PanicCases(proc);
    if !proc.Done? {
      r := if proc.Fails? then Fails else Panics(proc.why);
      return;
    }
    var (root, kstack) := proc.value;
    ghost var m, o := ph.mem, ph.own;
    KernelOnlyIsStackFree(m, root);
    var stack := MapStack(ph, root);
    ValidTaken(ph);
    PanicCases(stack);
    if !stack.Done? {
      r := if stack.Fails? then Fails else Panics(stack.why);
      return;
    }
    top := stack.value;
    GrowsKeepsRoot(m, o, ph.mem, ph.own, root, root);
    WithStackFrom(m, ph.mem, root);
    var started, stopped;
    started, stopped, start, loaded := CopyAndLoad(ph, heap, root, stack.value, file, argv, envp, m, o);
    if !started.Done? {
      r := if started.Fails? then Fails else Panics(started.why);
      return;
    }
    if ph.current <= HEAP_START {
      ExtendsKeepsStack(start, o, loaded, ph.own, root, kstack);
    }
    r := Done((started.value, kstack));
  }

  /** What exec hands over arrives exactly if the strings fit their slots or go on with the next: then, and only then, the
      vectors read back from the new stack are the given ones. */
  lemma {:induction false} ArgumentsArrive(m: Memory, own: Owners, root: nat, image: Image, argv: seq<Str>, envp: seq<Str>)
    requires AllInBounds(image.phdrs, image.data) && Ready(m, own, root, image, argv, envp)
    requires InPage(argv + envp) && forall s | s in argv + envp :: NulFree(s) && Ascii(s)
    ensures ViewOf(m, root).word(STACK_TOP) == Some(|argv|)
    ensures (&& VectorFrom(ViewOf(m, root), STACK_TOP + 8, 0, []) == argv
             && VectorFrom(ViewOf(m, root), STACK_TOP + 8 * (|argv| + 2), 0, []) == envp) <==>
              Joined(argv + envp)
  {
    hide AllLoaded, ReadyAt, Built, StackPage, VectorFrom, ViewOf, InPage, Joined;
    var q, b :| StackReady(m, root, q, b, image, argv, envp);
    ArgumentsRoundTrip(m, root, q, b, argv, envp, Auxv(image.phdr, image.phent, image.phnum, image.entry));
  }

  /** Pair number `j` of the auxiliary vector that the new program finds at `base`. */
  ghost predicate PairAt(view: View, base: nat, j: nat, key: nat, value: nat) {
    view.word(base + 16 * j) == Some(key) && view.word(base + 16 * j + 8) == Some(value)
  }

  ghost predicate AuxvAt(view: View, base: nat, image: Image) {
    && PairAt(view, base, 0, 6, 4096)
    && PairAt(view, base, 1, 3, image.phdr)
    && PairAt(view, base, 2, 4, image.phent)
    && PairAt(view, base, 3, 5, image.phnum)
    && PairAt(view, base, 4, 9, image.entry)
    && PairAt(view, base, 5, 25, 0x3f_ffff_f200)
    && PairAt(view, base, 6, 17, 100)
    && PairAt(view, base, 7, 0, 0)
    && forall va | 0x3f_ffff_f200 <= va < 0x3f_ffff_f210 :: view.byte(va) == Some(0xab)
  }

  /** Behind the nulls of both vectors the program finds its auxiliary vector, and at the address given there 16 bytes
      0xab. */
  lemma AuxvArrives(m: Memory, own: Owners, root: nat, image: Image, argv: seq<Str>, envp: seq<Str>)
    requires AllInBounds(image.phdrs, image.data) && Ready(m, own, root, image, argv, envp)
    ensures AuxvAt(ViewOf(m, root), 0x3f_ffff_f000 + 8 * (|argv| + |envp| + 3), image)
  {
    hide Words, AllLoaded, ReadyAt, Built, StackPage, ViewOf, PairAt;
    var q, b :| StackReady(m, root, q, b, image, argv, envp);
    var auxv := Auxv(image.phdr, image.phent, image.phnum, image.entry);
    PairReadsBack(m, root, q, b, argv, envp, auxv, 0);
    PairReadsBack(m, root, q, b, argv, envp, auxv, 1);
    PairReadsBack(m, root, q, b, argv, envp, auxv, 2);
    PairReadsBack(m, root, q, b, argv, envp, auxv, 3);
    PairReadsBack(m, root, q, b, argv, envp, auxv, 4);
    PairReadsBack(m, root, q, b, argv, envp, auxv, 5);
    PairReadsBack(m, root, q, b, argv, envp, auxv, 6);
    PairReadsBack(m, root, q, b, argv, envp, auxv, 7);
    RandomBytesShow(m, root, q, b);
  }

  lemma RandomBytesShow(m: Memory, root: nat, q: nat, b: seq<Byte>)
    requires StackPage(m, root, q, b) && |b| == PAGE_SIZE && b[0x200..0x210] == RANDOM_BYTES
    ensures forall va | 0x3f_ffff_f200 <= va < 0x3f_ffff_f210 :: ViewOf(m, root).byte(va) == Some(0xab)
  {
    hide StackPage, ViewOf, Shows;
    StackPageShows(m, root, q, b);
    forall va | 0x3f_ffff_f200 <= va < 0x3f_ffff_f210 ensures ViewOf(m, root).byte(va) == Some(0xab) {
      assert b[va - STACK_TOP] == b[0x200..0x210][va - STACK_TOP - 0x200];
      ShownByte(ViewOf(m, root), b, va - STACK_TOP);
    }
  }

  lemma PairReadsBack(m: Memory, root: nat, q: nat, b: seq<Byte>, argv: seq<Str>, envp: seq<Str>, auxv: seq<nat>, j: nat)
    requires StackPage(m, root, q, b) && Built(b, Words(|argv|, |envp|, auxv), argv + envp, |argv + envp|)
    requires 2 * j + 1 < |auxv| && auxv[2 * j] < WORD_LIMIT && auxv[2 * j + 1] < WORD_LIMIT
    ensures PairAt(ViewOf(m, root), STACK_TOP + 8 * (|argv| + |envp| + 3), j, auxv[2 * j], auxv[2 * j + 1])
  {
    hide Built, StackPage, ViewOf, Words;
    AuxvWordReadsBack(m, root, q, b, argv, envp, auxv, 2 * j);
    AuxvWordReadsBack(m, root, q, b, argv, envp, auxv, 2 * j + 1);
  }

  lemma ShownByte(view: View, b: seq<Byte>, o: nat)
    requires Shows(view, b) && o < PAGE_SIZE
    ensures o < |b| && view.byte(STACK_TOP + o) == Some(b[o])
  {
    assert ShowsByteAt(view, b, o);
  }
}

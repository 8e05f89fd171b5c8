/**
 Loading PT_LOAD segments (src/proc.rs, load_elf_into).
 */
module ElfLoad {
  import opened Base
  import opened Pte
  import opened Sv39
  import opened PhysMem
  import opened AddressSpace
  import opened FrameBytes

  /** A program header as the loader sees it: one whose type is unreadable, one of another
      type, or a PT_LOAD segment. */
  datatype Phdr = BadType | OtherType | Load(seg: Segment)

  datatype Segment = Segment(vaddr: Word, offset: Word, filesz: Word, memsz: Word, r: bool, w: bool, x: bool)
  {
    function Flags(): Flags {
      NO_FLAGS.(u := true, r := r, w := w, x := x)
    }

    /** `vaddr.saturating_add(memsz)` */
    function MemEnd(): Word {
      Min(vaddr + memsz, WORD_LIMIT - 1)
    }

    function FileEnd(): Word {
      Min(vaddr + filesz, WORD_LIMIT - 1)
    }

    /** The segment ends above address 0 and below the last page, so that `seg_mem_end - 1` and
        `page + PAGE_SIZE` do not wrap, and its file range lies in the file: otherwise the copies
        read and write through pointers outside their buffers. */
    predicate InBounds(data: seq<Byte>) {
      0 < vaddr + memsz <= WORD_LIMIT - PAGE_SIZE && offset + filesz <= |data|
    }

    /** The page numbers of `first_page` and `last_page`. */
    function First(): Ppn {
      vaddr / PAGE_SIZE
    }

    function Last(): (n: Ppn)
      requires 0 < vaddr + memsz
      ensures n * PAGE_SIZE < MemEnd() <= (n + 1) * PAGE_SIZE
    {
      (MemEnd() - 1) / PAGE_SIZE
    }

    /** What address `va` of the segment's pages holds. */
    function ByteFor(data: seq<Byte>, va: nat): Byte
      requires InBounds(data)
    {
      if vaddr <= va < vaddr + filesz then data[offset + (va - vaddr)] else 0
    }
  }

  /** Page number `n` is mapped with the segment's flags to a frame with the segment's bytes. */
  ghost predicate PageLoaded(m: Memory, own: Owners, root: nat, data: seq<Byte>, seg: Segment, n: nat)
    requires seg.InBounds(data)
  {
    var found := Lookup(m, root, Indices(n));
    && found.Some?
    && found.value.flags == seg.Flags().Or(VAD)
    && found.value.ppn in m && found.value.ppn in own && !own[found.value.ppn].Table?
    && PageHolds(m[found.value.ppn], data, seg, n)
  }

  ghost predicate PageHolds(f: Frame, data: seq<Byte>, seg: Segment, n: nat)
    requires seg.InBounds(data)
  {
    forall o | 0 <= o < PAGE_SIZE :: BytesOf(f)[o] == seg.ByteFor(data, n * PAGE_SIZE + o)
  }

  ghost predicate PagesLoaded(m: Memory, own: Owners, root: nat, data: seq<Byte>, seg: Segment, lo: nat, hi: nat)
    requires seg.InBounds(data)
  {
    forall n | lo <= n < hi :: PageLoaded(m, own, root, data, seg, n)
  }

  lemma PagesLoadedNothing(m: Memory, own: Owners, root: nat, data: seq<Byte>, seg: Segment, lo: nat)
    requires seg.InBounds(data)
    ensures PagesLoaded(m, own, root, data, seg, lo, lo)
  {
  }

  lemma PagesLoadedNext(m: Memory, own: Owners, root: nat, data: seq<Byte>, seg: Segment, lo: nat, n: nat)
    requires seg.InBounds(data) && PagesLoaded(m, own, root, data, seg, lo, n) && PageLoaded(m, own, root, data, seg, n)
    ensures PagesLoaded(m, own, root, data, seg, lo, n + 1)
  {
  }

  lemma PagesLoadedKept(m: Memory, own: Owners, m': Memory, own': Owners, root: nat, data: seq<Byte>, seg: Segment, lo: nat, hi: nat)
    requires seg.InBounds(data) && PagesLoaded(m, own, root, data, seg, lo, hi) && Grows(m, own, m', own', root)
    ensures PagesLoaded(m', own', root, data, seg, lo, hi)
  {
    forall n | lo <= n < hi ensures PageLoaded(m', own', root, data, seg, n) {
      assert PageLoaded(m, own, root, data, seg, n);
    }
  }

  /** The copied chunk holds the file bytes of its addresses; the rest of the page stays zero. */
  lemma ChunkByte(data: seq<Byte>, seg: Segment, page: nat, start: nat, end: nat, o: nat)
    requires seg.InBounds(data) && page < seg.MemEnd() && o < PAGE_SIZE
    requires start == Max(page, seg.vaddr) && end == Min(page + PAGE_SIZE, seg.FileEnd()) && start < end
    ensures var from := seg.offset + (start - seg.vaddr);
            && from + (end - start) <= |data|
            && seg.ByteFor(data, page + o) ==
                 if start - page <= o < end - page then data[from..from + (end - start)][o - (start - page)] else 0
  {
  }

  /** `write_bytes(paddr, 0, zero_len)` on the fresh frame of a page. */
  method ClearPage(ph: Phys, seg: Segment, page: Word, q: nat)
    requires ph.Valid() && Private(ph.mem, ph.own) && page < seg.MemEnd()
    requires q in ph.own && !ph.own[q].Table? && IsZero(ph.mem[q])
    modifies ph`mem
    ensures ph.Valid() && Private(ph.mem, ph.own) && OnlyFrame(old(ph.mem), ph.mem, ph.own, q)
    ensures forall o | 0 <= o < PAGE_SIZE :: BytesOf(ph.mem[q])[o] == 0
  {
    ZeroBytes(ph.mem[q]);
    ph.WriteBytes(q, 0, Zeros(Min(page + PAGE_SIZE, seg.MemEnd()) - page));
  }

  /** The copy of the file range that falls into a page. */
  method CopyFile(ph: Phys, data: seq<Byte>, seg: Segment, n: Ppn, q: nat)
    requires ph.Valid() && Private(ph.mem, ph.own) && seg.InBounds(data) && n * PAGE_SIZE < seg.MemEnd()
    requires q in ph.own && !ph.own[q].Table?
    requires forall o | 0 <= o < PAGE_SIZE :: BytesOf(ph.mem[q])[o] == 0
    modifies ph`mem
    ensures ph.Valid() && Private(ph.mem, ph.own) && OnlyFrame(old(ph.mem), ph.mem, ph.own, q)
    ensures PageHolds(ph.mem[q], data, seg, n)
  {
    hide Phys.Valid, Private, Lookup, BytesOf;
    var page := n * PAGE_SIZE;
    var start := Max(page, seg.vaddr);
    var end := Min(page + PAGE_SIZE, seg.FileEnd());
    if end > start {
      var from := seg.offset + (start - seg.vaddr);
      ph.WriteBytes(q, start - page, data[from..from + (end - start)]);
      forall o | 0 <= o < PAGE_SIZE ensures BytesOf(ph.mem[q])[o] == seg.ByteFor(data, page + o) {
        ChunkByte(data, seg, page, start, end, o);
      }
    }
  }

  lemma GrowsThenWrite(m0: Memory, own0: Owners, m: Memory, own: Owners, m': Memory, root: nat, q: nat)
    requires Grows(m0, own0, m, own, root) && IsRoot(own, root) && q !in own0 && q in own
    requires OnlyFrame(m, m', own, q)
    ensures Grows(m0, own0, m', own, root)
  {
  }

  /** The bytes of a fresh frame: zeros, then the copy from the file. */
  method FillPage(ph: Phys, data: seq<Byte>, seg: Segment, n: Ppn, q: nat)
    requires ph.Valid() && Private(ph.mem, ph.own) && seg.InBounds(data) && n * PAGE_SIZE < seg.MemEnd()
    requires q in ph.own && !ph.own[q].Table? && q in ph.mem && IsZero(ph.mem[q])
    modifies ph`mem
    ensures ph.Valid() && Private(ph.mem, ph.own)
    ensures OnlyFrame(old(ph.mem), ph.mem, ph.own, q) && PageHolds(ph.mem[q], data, seg, n)
  {
    hide Phys.Valid, Private, BytesOf, PageHolds, IsZero, OnlyFrame;
    ClearPage(ph, seg, n * PAGE_SIZE, q);
    ghost var m := ph.mem;
    CopyFile(ph, data, seg, n, q);
    OnlyFrameTransitive(old(ph.mem), m, ph.mem, ph.own, q);
  }

  /** A page that was mapped at a free place and filled is loaded. */
  lemma PageIsLoaded(m0: Memory, m: Memory, m': Memory, own: Owners, root: nat, data: seq<Byte>, seg: Segment, n: nat, q: nat)
    requires seg.InBounds(data) && IsRoot(own, root) && q in m && q in own && !own[q].Table?
    requires Lookup(m0, root, Indices(n)) == None
    requires forall v :: Lookup(m, root, v) ==
               if v == Indices(n) then Some(Leaf(q, seg.Flags().Or(VAD))) else Lookup(m0, root, v)
    requires OnlyFrame(m, m', own, q) && PageHolds(m'[q], data, seg, n)
    ensures PageLoaded(m', own, root, data, seg, n) && LoadEnds(m0, m', root, [Indices(n)], Done(()))
  {
    hide PageHolds;
    var v := Indices(n);
    assert Lookup(m', root, v) == Lookup(m, root, v);
    forall u | u != v ensures Lookup(m', root, u) == Lookup(m0, root, u) {
      assert Lookup(m', root, u) == Lookup(m, root, u);
    }
    OnePageAdded(m0, m', root, v);
  }

  lemma OnePageAdded(m: Memory, m': Memory, root: nat, v: Vpn)
    requires Lookup(m, root, v) == None && UserLeaf(m', root, v)
    requires forall u | u != v :: Lookup(m', root, u) == Lookup(m, root, u)
    ensures Clean(m, root, [v]) && Added(m, m', root, [v])
  {
  }

  /** A load that stopped at the one page it is about. */
  lemma PageNotLoaded(m: Memory, m': Memory, root: nat, v: Vpn, r: Outcome<()>)
    requires !r.Done? && (r == Panics(Remap) ==> Lookup(m, root, v).Some?)
    ensures LoadEnds(m, m', root, [v], r)
  {
    assert [v][0] == v;
  }

  /** The body of the page loop: a fresh frame, its leaf, and its bytes. */
  method LoadPage(ph: Phys, root: nat, data: seq<Byte>, seg: Segment, n: Ppn) returns (r: Outcome<()>)
    requires ph.Valid() && Private(ph.mem, ph.own) && IsRoot(ph.own, root)
    requires seg.InBounds(data) && n * PAGE_SIZE < seg.MemEnd()
    modifies ph
    ensures ph.Valid() && Private(ph.mem, ph.own)
    ensures Grows(old(ph.mem), old(ph.own), ph.mem, ph.own, root)
    ensures r.Done? ==> PageLoaded(ph.mem, ph.own, root, data, seg, n)
    ensures LoadEnds(old(ph.mem), ph.mem, root, [Indices(n)], r)
    ensures r.Fails? || r == Panics(OutOfMemory) ==> ph.current + PAGE_SIZE > ph.end
  {
    hide Phys.Valid, Private, PageHolds, PageLoaded, LoadEnds, Grows, OnlyFrame, IsZero, Lookup;
    var mapped := MapFreshNumber(ph, root, n, seg.Flags());
    if !mapped.Done? {
      r := if mapped.Fails? then Fails else Panics(mapped.why);
      PageNotLoaded(old(ph.mem), ph.mem, root, Indices(n), r);
      return;
    }
    var q := mapped.value;
    ghost var m := ph.mem;
    GrowsKeepsRoot(old(ph.mem), old(ph.own), ph.mem, ph.own, root, root);
    OwnedInMemory(ph, q);
    FillPage(ph, data, seg, n, q);
    GrowsThenWrite(old(ph.mem), old(ph.own), m, ph.own, ph.mem, root, q);
    PageIsLoaded(old(ph.mem), m, ph.mem, ph.own, root, data, seg, n, q);
    return Done(());
  }

  // ---- Which pages a load maps, and when it can ----

  /** The pages with numbers [lo, hi), in order. */
  function Range(lo: nat, hi: nat): (pages: seq<Vpn>)
    decreases hi
  {
    if hi <= lo then [] else Range(lo, hi - 1) + [Indices(hi - 1)]
  }

  /** None of the pages is mapped yet, and none comes twice. */
  ghost predicate Clean(m: Memory, root: nat, pages: seq<Vpn>) {
    && (forall i | 0 <= i < |pages| :: Lookup(m, root, pages[i]) == None)
    && (forall i, j | 0 <= i < j < |pages| :: pages[i] != pages[j])
  }

  /** Exactly the given pages were added, as user pages. */
  ghost predicate Added(m: Memory, m': Memory, root: nat, pages: seq<Vpn>) {
    && (forall v {:trigger Lookup(m', root, v)} :: Lookup(m', root, v).Some? <==> Lookup(m, root, v).Some? || v in pages)
    && (forall v {:trigger Lookup(m', root, v)} | Lookup(m, root, v).Some? :: Lookup(m', root, v) == Lookup(m, root, v))
    && (forall v {:trigger UserLeaf(m', root, v)} | v in pages && Lookup(m, root, v) == None :: UserLeaf(m', root, v))
  }

  lemma AddedThen(m: Memory, m1: Memory, m2: Memory, root: nat, pages: seq<Vpn>, more: seq<Vpn>)
    requires Added(m, m1, root, pages) && Added(m1, m2, root, more)
    ensures Added(m, m2, root, pages + more)
  {
    forall v | v in pages + more && Lookup(m, root, v) == None ensures UserLeaf(m2, root, v) {
      if Lookup(m1, root, v).Some? {
        assert v in pages;
        assert UserLeaf(m1, root, v);
      }
    }
  }

  /** After the first pages are in, the rest is clean exactly when the whole was clean. */
  lemma CleanThen(m: Memory, m1: Memory, root: nat, pages: seq<Vpn>, more: seq<Vpn>)
    requires Added(m, m1, root, pages) && Clean(m, root, pages)
    ensures Clean(m, root, pages + more) <==> Clean(m1, root, more)
  {
    var all := pages + more;
    if Clean(m, root, all) {
      forall i | 0 <= i < |more| ensures Lookup(m1, root, more[i]) == None {
        assert all[|pages| + i] == more[i];
        assert forall j | 0 <= j < |pages| :: pages[j] == all[j] != all[|pages| + i];
      }
      forall i, j | 0 <= i < j < |more| ensures more[i] != more[j] {
        assert all[|pages| + i] == more[i] && all[|pages| + j] == more[j];
      }
    }
    if Clean(m1, root, more) {
      forall i | 0 <= i < |more| ensures Lookup(m, root, more[i]) == None && more[i] !in pages {
      }
    }
  }

  lemma CleanPrefix(m: Memory, root: nat, pages: seq<Vpn>, all: seq<Vpn>)
    requires pages <= all
    ensures Clean(m, root, all) ==> Clean(m, root, pages)
  {
    assert forall i | 0 <= i < |pages| :: pages[i] == all[i];
  }

  /** How a load of `pages` ended: all were clean and are in, or a page that was not clean was hit,
      or memory ran out or a header was bad. */
  ghost predicate LoadEnds<T>(m: Memory, m': Memory, root: nat, pages: seq<Vpn>, r: Outcome<T>) {
    && (r.Done? ==> Clean(m, root, pages) && Added(m, m', root, pages))
    && (r == Panics(Remap) ==> !Clean(m, root, pages))
  }

  lemma LoadEndsThen<S, T>(m: Memory, m1: Memory, m2: Memory, root: nat, pages: seq<Vpn>, more: seq<Vpn>,
                           r1: Outcome<S>, r2: Outcome<T>)
    requires LoadEnds(m, m1, root, pages, r1) && r1.Done? && LoadEnds(m1, m2, root, more, r2)
    ensures LoadEnds(m, m2, root, pages + more, r2)
  {
    CleanThen(m, m1, root, pages, more);
    if r2.Done? {
      AddedThen(m, m1, m2, root, pages, more);
    }
  }

  lemma LoadEndsNothing<T>(m: Memory, root: nat, r: Outcome<T>)
    requires r.Done?
    ensures LoadEnds(m, m, root, [], r)
  {
  }

  /** A load that ended early ended that way for the whole list of pages. */
  lemma LoadEndsWhole<T>(m: Memory, m': Memory, root: nat, done: seq<Vpn>, all: seq<Vpn>, r: Outcome<T>)
    requires LoadEnds(m, m', root, done, r) && done <= all && (r.Done? ==> done == all)
    ensures LoadEnds(m, m', root, all, r)
  {
    CleanPrefix(m, root, done, all);
  }

  /** The page loop over the page numbers [lo, hi). */
  method LoadPages(ph: Phys, root: nat, data: seq<Byte>, seg: Segment, lo: Ppn, hi: Ppn) returns (r: Outcome<()>)
    requires ph.Valid() && Private(ph.mem, ph.own) && IsRoot(ph.own, root) && seg.InBounds(data)
    requires lo <= hi && hi * PAGE_SIZE < seg.MemEnd() + PAGE_SIZE
    modifies ph
    ensures ph.Valid() && Private(ph.mem, ph.own)
    ensures Grows(old(ph.mem), old(ph.own), ph.mem, ph.own, root)
    ensures r.Done? ==> PagesLoaded(ph.mem, ph.own, root, data, seg, lo, hi)
    ensures LoadEnds(old(ph.mem), ph.mem, root, Range(lo, hi), r)
    ensures r.Fails? || r == Panics(OutOfMemory) ==> ph.current + PAGE_SIZE > ph.end
  {
    hide Phys.Valid, Private, PagesLoaded, PageLoaded, Grows, LoadEnds;
    PagesLoadedNothing(ph.mem, ph.own, root, data, seg, lo);
    var n := lo;
    r := Done(());
    ghost var done: seq<Vpn> := [];
    GrowsReflexive(ph.mem, ph.own, root);
    LoadEndsNothing(ph.mem, root, r);
    while r.Done? && n < hi
      invariant lo <= n <= hi && IsRoot(ph.own, root)
      invariant ph.Valid() && Private(ph.mem, ph.own)
      invariant Grows(old(ph.mem), old(ph.own), ph.mem, ph.own, root)
      invariant r.Done? ==> PagesLoaded(ph.mem, ph.own, root, data, seg, lo, n)
      invariant done == Range(lo, n) && LoadEnds(old(ph.mem), ph.mem, root, done, r)
      invariant r.Fails? || r == Panics(OutOfMemory) ==> ph.current + PAGE_SIZE > ph.end
    {
      ghost var m, o, r0 := ph.mem, ph.own, r;
      r := LoadPage(ph, root, data, seg, n);
      GrowsKeepsRoot(m, o, ph.mem, ph.own, root, root);
      GrowsTransitive(old(ph.mem), old(ph.own), m, o, ph.mem, ph.own, root);
      LoadEndsThen(old(ph.mem), m, ph.mem, root, done, [Indices(n)], r0, r);
      done := done + [Indices(n)];
      if r.Done? {
        PagesLoadedKept(m, o, ph.mem, ph.own, root, data, seg, lo, n);
        PagesLoadedNext(ph.mem, ph.own, root, data, seg, lo, n);
      }
      n := n + 1;
    }
    RangePrefix(lo, n, hi);
    LoadEndsWhole(old(ph.mem), ph.mem, root, done, Range(lo, hi), r);
  }

  lemma {:induction false} RangePrefix(lo: nat, n: nat, hi: nat)
    requires lo <= n <= hi
    ensures Range(lo, n) <= Range(lo, hi)
  {
    if n < hi {
      RangePrefix(lo, n, hi - 1);
    }
  }

  /** The page loop over one segment, from the page of its first byte to the page of its last. */
  method LoadSegment(ph: Phys, root: nat, data: seq<Byte>, seg: Segment) returns (r: Outcome<()>)
    requires ph.Valid() && Private(ph.mem, ph.own) && IsRoot(ph.own, root) && seg.InBounds(data)
    modifies ph
    ensures ph.Valid() && Private(ph.mem, ph.own)
    ensures Grows(old(ph.mem), old(ph.own), ph.mem, ph.own, root)
    ensures r.Done? ==> PagesLoaded(ph.mem, ph.own, root, data, seg, seg.First(), seg.Last() + 1)
    ensures LoadEnds(old(ph.mem), ph.mem, root, Range(seg.First(), seg.Last() + 1), r)
    ensures r.Fails? || r == Panics(OutOfMemory) ==> ph.current + PAGE_SIZE > ph.end
  {
    r := LoadPages(ph, root, data, seg, seg.First(), seg.Last() + 1);
  }

  /** The highest end of the first `count` segments, as `max_end` accumulates it. */
  function MaxEnd(phdrs: seq<Phdr>, count: nat): nat
    requires count <= |phdrs|
  {
    if count == 0 then 0
    else
      var rest := MaxEnd(phdrs, count - 1);
      var last := phdrs[count - 1];
      if last.Load? then Max(last.seg.MemEnd(), rest) else rest
  }

  predicate AllInBounds(phdrs: seq<Phdr>, data: seq<Byte>) {
    forall i | 0 <= i < |phdrs| :: phdrs[i].Load? ==> phdrs[i].seg.InBounds(data)
  }

  /** Every page of the first `count` headers is loaded. */
  ghost predicate AllLoaded(m: Memory, own: Owners, root: nat, data: seq<Byte>, phdrs: seq<Phdr>, count: nat)
    requires AllInBounds(phdrs, data) && count <= |phdrs|
  {
    forall i | 0 <= i < count && phdrs[i].Load? ::
      PagesLoaded(m, own, root, data, phdrs[i].seg, phdrs[i].seg.First(), phdrs[i].seg.Last() + 1)
  }

  lemma AllLoadedNothing(m: Memory, own: Owners, root: nat, data: seq<Byte>, phdrs: seq<Phdr>)
    requires AllInBounds(phdrs, data)
    ensures AllLoaded(m, own, root, data, phdrs, 0)
  {
  }

  lemma AllLoadedKept(m: Memory, own: Owners, m': Memory, own': Owners, root: nat, data: seq<Byte>, phdrs: seq<Phdr>, count: nat)
    requires AllInBounds(phdrs, data) && count <= |phdrs|
    requires AllLoaded(m, own, root, data, phdrs, count) && Grows(m, own, m', own', root)
    ensures AllLoaded(m', own', root, data, phdrs, count)
  {
    forall i | 0 <= i < count && phdrs[i].Load?
      ensures PagesLoaded(m', own', root, data, phdrs[i].seg, phdrs[i].seg.First(), phdrs[i].seg.Last() + 1)
    {
      PagesLoadedKept(m, own, m', own', root, data, phdrs[i].seg, phdrs[i].seg.First(), phdrs[i].seg.Last() + 1);
    }
  }

  lemma AllLoadedNext(m: Memory, own: Owners, root: nat, data: seq<Byte>, phdrs: seq<Phdr>, i: nat)
    requires AllInBounds(phdrs, data) && i < |phdrs| && AllLoaded(m, own, root, data, phdrs, i)
    requires phdrs[i].Load? ==>
               PagesLoaded(m, own, root, data, phdrs[i].seg, phdrs[i].seg.First(), phdrs[i].seg.Last() + 1)
    ensures AllLoaded(m, own, root, data, phdrs, i + 1)
  {
  }

  /** The pages a header asks for. */
  function HeaderPages(h: Phdr): seq<Vpn>
    requires h.Load? ==> 0 < h.seg.vaddr + h.seg.memsz
  {
    if h.Load? then Range(h.seg.First(), h.seg.Last() + 1) else []
  }

  /** The pages of all segments, in the order they are mapped. */
  ghost function AllPages(phdrs: seq<Phdr>, data: seq<Byte>, count: nat): seq<Vpn>
    requires AllInBounds(phdrs, data) && count <= |phdrs|
  {
    if count == 0 then [] else AllPages(phdrs, data, count - 1) + HeaderPages(phdrs[count - 1])
  }

  lemma {:induction false} AllPagesPrefix(phdrs: seq<Phdr>, data: seq<Byte>, i: nat, j: nat)
    requires AllInBounds(phdrs, data) && i <= j <= |phdrs|
    ensures AllPages(phdrs, data, i) <= AllPages(phdrs, data, j)
    decreases j
  {
    if i < j {
      AllPagesPrefix(phdrs, data, i, j - 1);
    }
  }

  /** What the loop over the headers has done once it got to header `i`. */
  ghost predicate Loading(ph: Phys, m0: Memory, own0: Owners, root: nat, data: seq<Byte>, phdrs: seq<Phdr>,
                          i: nat, done: seq<Vpn>, r: Outcome<nat>)
    reads ph
    requires AllInBounds(phdrs, data)
  {
    && i <= |phdrs|
    && ph.Valid() && Private(ph.mem, ph.own)
    && Grows(m0, own0, ph.mem, ph.own, root)
    && (r.Done? ==>
          && (forall j | 0 <= j < i :: !phdrs[j].BadType?)
          && r.value == MaxEnd(phdrs, i)
          && AllLoaded(ph.mem, ph.own, root, data, phdrs, i))
    && done == AllPages(phdrs, data, i) && LoadEnds(m0, ph.mem, root, done, r)
    && (r.Fails? ==> BadType in phdrs || ph.current + PAGE_SIZE > ph.end)
    && (r == Panics(OutOfMemory) ==> ph.current + PAGE_SIZE > ph.end)
  }

  /** One round of the loop over the program headers, with what it keeps. */
  method LoadNext(ph: Phys, root: nat, data: seq<Byte>, phdrs: seq<Phdr>, i: nat, maxEnd: nat,
                  ghost m0: Memory, ghost own0: Owners, ghost done: seq<Vpn>)
    returns (r: Outcome<nat>)
    requires AllInBounds(phdrs, data) && i < |phdrs| && IsRoot(own0, root)
    requires Loading(ph, m0, own0, root, data, phdrs, i, done, Done(maxEnd))
    modifies ph
    ensures Loading(ph, m0, own0, root, data, phdrs, i + 1, done + HeaderPages(phdrs[i]), r)
  {
    hide Phys.Valid, Private, AllLoaded, Grows, LoadEnds, PagesLoaded;
    ghost var m, o, more := ph.mem, ph.own, HeaderPages(phdrs[i]);
    GrowsKeepsRoot(m0, own0, m, o, root, root);
    r := LoadHeader(ph, root, data, phdrs[i], maxEnd);
    GrowsTransitive(m0, own0, m, o, ph.mem, ph.own, root);
    LoadEndsThen(m0, m, ph.mem, root, done, more, Done(maxEnd), r);
    if r.Done? {
      AllLoadedKept(m, o, ph.mem, ph.own, root, data, phdrs, i);
      AllLoadedNext(ph.mem, ph.own, root, data, phdrs, i);
    }
  }

  /** `load_elf_into`: on success every page of every segment is loaded, nothing mapped before
      changed, and exactly the segments' pages were added. It succeeds only if those pages were
      unmapped and all different, and panics with a remap only if they were not; otherwise it fails
      only for a bad header or for lack of frames. */
  method LoadElf(ph: Phys, root: nat, data: seq<Byte>, phdrs: seq<Phdr>) returns (r: Outcome<nat>)
    requires ph.Valid() && Private(ph.mem, ph.own) && IsRoot(ph.own, root) && AllInBounds(phdrs, data)
    modifies ph
    ensures ph.Valid() && Private(ph.mem, ph.own)
    ensures Grows(old(ph.mem), old(ph.own), ph.mem, ph.own, root)
    ensures r.Done? ==> BadType !in phdrs && r.value == MaxEnd(phdrs, |phdrs|)
    ensures r.Done? ==> AllLoaded(ph.mem, ph.own, root, data, phdrs, |phdrs|)
    ensures LoadEnds(old(ph.mem), ph.mem, root, AllPages(phdrs, data, |phdrs|), r)
    ensures r.Fails? ==> BadType in phdrs || ph.current + PAGE_SIZE > ph.end
    ensures r == Panics(OutOfMemory) ==> ph.current + PAGE_SIZE > ph.end
  {
    hide Phys.Valid, Private, AllLoaded, Grows, LoadEnds;
    AllLoadedNothing(ph.mem, ph.own, root, data, phdrs);
    r := Done(0);
    var i := 0;
    ghost var done: seq<Vpn> := [];
    GrowsReflexive(ph.mem, ph.own, root);
    LoadEndsNothing(ph.mem, root, r);
    while r.Done? && i < |phdrs|
      invariant Loading(ph, old(ph.mem), old(ph.own), root, data, phdrs, i, done, r)
    {
      ghost var more := HeaderPages(phdrs[i]);
      r := LoadNext(ph, root, data, phdrs, i, r.value, old(ph.mem), old(ph.own), done);
      done := done + more;
      i := i + 1;
    }
    AllPagesPrefix(phdrs, data, i, |phdrs|);
    LoadEndsWhole(old(ph.mem), ph.mem, root, done, AllPages(phdrs, data, |phdrs|), r);
  }

  /** One round of the loop over the program headers. */
  method LoadHeader(ph: Phys, root: nat, data: seq<Byte>, h: Phdr, maxEnd: nat) returns (r: Outcome<nat>)
    requires ph.Valid() && Private(ph.mem, ph.own) && IsRoot(ph.own, root)
    requires h.Load? ==> h.seg.InBounds(data)
    modifies ph
    ensures ph.Valid() && Private(ph.mem, ph.own)
    ensures Grows(old(ph.mem), old(ph.own), ph.mem, ph.own, root)
    ensures h.BadType? ==> !r.Done?
    ensures r.Done? ==> r.value == if h.Load? then Max(h.seg.MemEnd(), maxEnd) else maxEnd
    ensures r.Done? && h.Load? ==> PagesLoaded(ph.mem, ph.own, root, data, h.seg, h.seg.First(), h.seg.Last() + 1)
    ensures LoadEnds(old(ph.mem), ph.mem, root, HeaderPages(h), r)
    ensures r.Fails? ==> h.BadType? || ph.current + PAGE_SIZE > ph.end
    ensures r == Panics(OutOfMemory) ==> ph.current + PAGE_SIZE > ph.end
  {
    match h
    case BadType => r := Fails;
    case OtherType => r := Done(maxEnd);
    case Load(seg) =>
      var loaded := LoadSegment(ph, root, data, seg);
      r := if loaded.Done? then Done(if seg.MemEnd() > maxEnd then seg.MemEnd() else maxEnd)
           else if loaded.Fails? then Fails else Panics(loaded.why);
  }

  /** Reading `va` through the table gives the byte `b`. */
  ghost predicate Reads(m: Memory, root: nat, va: nat, flags: Flags, b: Byte) {
    var found := Lookup(m, root, Indices(va / PAGE_SIZE));
    && found.Some? && found.value.flags == flags && found.value.ppn in m
    && BytesOf(m[found.value.ppn])[va % PAGE_SIZE] == b
  }

  /** Load correctness byte by byte: below filesz the file's byte, from there to memsz zero, with
      the segment's permissions and the user bit. */
  lemma LoadedByte(m: Memory, own: Owners, root: nat, data: seq<Byte>, phdrs: seq<Phdr>, i: nat, k: nat)
    requires AllInBounds(phdrs, data) && AllLoaded(m, own, root, data, phdrs, |phdrs|)
    requires i < |phdrs| && phdrs[i].Load? && k < phdrs[i].seg.memsz
    ensures var seg := phdrs[i].seg;
            Reads(m, root, seg.vaddr + k, Flags(true, seg.r, seg.w, seg.x, true, false, true, true),
                  if k < seg.filesz then data[seg.offset + k] else 0)
  {
    hide BytesOf, Lookup;
    var seg := phdrs[i].seg;
    var va := seg.vaddr + k;
    var n, o := va / PAGE_SIZE, va % PAGE_SIZE;
    assert seg.First() <= n < seg.Last() + 1;
    assert PageLoaded(m, own, root, data, seg, n);
    assert n * PAGE_SIZE + o == va;
  }
}

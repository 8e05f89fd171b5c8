/**
 Growing an address space: sys_brk (src/syscall.rs).
 */
module UserHeap {
  import opened Base
  import opened Pte
  import opened Sv39
  import opened PhysMem
  import opened AddressSpace

  predicate Mapped(m: Memory, root: nat, n: nat) {
    Lookup(m, root, Indices(n)).Some?
  }

  /** Every page number in [lo, hi) is mapped. */
  ghost predicate AllMapped(m: Memory, root: nat, lo: nat, hi: nat) {
    forall n | lo <= n < hi :: Mapped(m, root, n)
  }

  lemma AllMappedKept(m: Memory, own: Owners, m': Memory, own': Owners, root: nat, lo: nat, hi: nat)
    requires AllMapped(m, root, lo, hi) && Grows(m, own, m', own', root)
    ensures AllMapped(m', root, lo, hi)
  {
    forall n | lo <= n < hi ensures Mapped(m', root, n) {
      assert Mapped(m, root, n);
    }
  }

  lemma AllMappedNext(m: Memory, root: nat, lo: nat, n: nat)
    requires AllMapped(m, root, lo, n) && Mapped(m, root, n)
    ensures AllMapped(m, root, lo, n + 1)
  {
  }

  // ---- Which pages were added ----

  /** Page `v` has a number in [lo, hi). */
  ghost predicate InPages(v: Vpn, lo: nat, hi: nat) {
    exists n :: lo <= n < hi && v == Indices(n)
  }

  /** Page `v` is mapped with the given permissions to a zeroed frame that was not in use in `own`. */
  predicate FreshZero(own: Owners, m: Memory, own': Owners, root: nat, v: Vpn, flags: Flags) {
    && Lookup(m, root, v).Some?
    && var leaf := Lookup(m, root, v).value;
    && leaf.flags == flags.Or(VAD) && leaf.ppn !in own && leaf.ppn in own' && !own'[leaf.ppn].Table?
    && leaf.ppn in m && IsZero(m[leaf.ppn])
  }

  /** What was mapped is unaltered, and every new page has a number in [lo, hi) and is fresh and zero. */
  ghost predicate ZeroPagesAdded(m: Memory, own: Owners, m': Memory, own': Owners, root: nat, lo: nat, hi: nat, flags: Flags) {
    && Grows(m, own, m', own', root)
    && forall v | Lookup(m', root, v) != Lookup(m, root, v) ::
         InPages(v, lo, hi) && FreshZero(own, m', own', root, v, flags)
  }

  lemma NothingAdded(m: Memory, own: Owners, root: nat, lo: nat, hi: nat, flags: Flags)
    ensures ZeroPagesAdded(m, own, m, own, root, lo, hi, flags)
  {
    GrowsReflexive(m, own, root);
  }

  lemma ZeroPagesThen(m: Memory, own: Owners, m1: Memory, own1: Owners, m2: Memory, own2: Owners, root: nat,
                      lo: nat, n: nat, flags: Flags)
    requires ZeroPagesAdded(m, own, m1, own1, root, lo, n, flags) && ZeroPagesAdded(m1, own1, m2, own2, root, n, n + 1, flags)
    requires lo <= n
    ensures ZeroPagesAdded(m, own, m2, own2, root, lo, n + 1, flags)
  {
    hide Lookup, Indices, IsZero;
    GrowsTransitive(m, own, m1, own1, m2, own2, root);
    forall v | Lookup(m2, root, v) != Lookup(m, root, v)
      ensures InPages(v, lo, n + 1) && FreshZero(own, m2, own2, root, v, flags)
    {
      if Lookup(m1, root, v) != Lookup(m, root, v) {
        var i :| lo <= i < n && v == Indices(i);
      } else {
        var i :| n <= i < n + 1 && v == Indices(i);
      }
    }
  }

  /** With every page of the range mapped, the mapped pages are those of before and those of the range. */
  lemma ExactlyAdded(m: Memory, own: Owners, m': Memory, own': Owners, root: nat, lo: nat, hi: nat, flags: Flags, v: Vpn)
    requires ZeroPagesAdded(m, own, m', own', root, lo, hi, flags) && AllMapped(m', root, lo, hi)
    ensures Lookup(m', root, v).Some? <==> Lookup(m, root, v).Some? || InPages(v, lo, hi)
  {
    hide Lookup, Indices, Extends;
    if InPages(v, lo, hi) {
      var n :| lo <= n < hi && v == Indices(n);
      assert Mapped(m', root, n);
    }
  }

  // ---- The calls ----

  /** `alloc_page` and `map` for a page that has no translation; a failed allocation is ignored. */
  method Ensure(k: Phys, root: nat, n: Ppn, flags: Flags) returns (r: Outcome<()>)
    requires k.Valid() && Private(k.mem, k.own) && IsRoot(k.own, root) && flags.u
    modifies k
    ensures k.Valid() && Private(k.mem, k.own) && k.current >= old(k.current) && k.end == old(k.end)
    ensures ZeroPagesAdded(old(k.mem), old(k.own), k.mem, k.own, root, n, n + 1, flags)
    ensures r.Done? || (r == Panics(OutOfMemory) && k.current + PAGE_SIZE > k.end)
    ensures Mapped(k.mem, root, n) || k.current + PAGE_SIZE > k.end
  {
    var va: Word := n * PAGE_SIZE;
    assert va / PAGE_SIZE == n;
    NothingAdded(k.mem, k.own, root, n, n + 1, flags);
    var pa := k.Translate(root, va);
    if pa.None? {
      var mapped := MapFresh(k, root, va, flags);
      assert InPages(Indices(n), n, n + 1);
      if mapped.Done? {
        OwnedInMemory(k, mapped.value);
      }
      if mapped.Panics? {
        return Panics(mapped.why);
      }
    }
    return Done(());
  }

  lemma IndicesWrap(n: nat)
    ensures Indices(n % PPN_LIMIT) == Indices(n)
  {
    hide Indices, Number;
    var q := n / PPN_LIMIT;
    RemainderIs(n, q * (PPN_LIMIT / VPN_LIMIT) + n % PPN_LIMIT / VPN_LIMIT, n % PPN_LIMIT % VPN_LIMIT);
    NumberOfIndices(n);
    NumberOfIndices(n % PPN_LIMIT);
    IndicesOfNumber(Indices(n));
    IndicesOfNumber(Indices(n % PPN_LIMIT));
  }

  /** Only the low bits of a page number choose the page. */
  lemma SamePage(m: Memory, own: Owners, m': Memory, own': Owners, root: nat, n: nat, flags: Flags)
    ensures Mapped(m', root, n % PPN_LIMIT) <==> Mapped(m', root, n)
    ensures ZeroPagesAdded(m, own, m', own', root, n % PPN_LIMIT, n % PPN_LIMIT + 1, flags) ==>
              ZeroPagesAdded(m, own, m', own', root, n, n + 1, flags)
  {
    hide Grows, Lookup, FreshZero;
    IndicesWrap(n);
    if ZeroPagesAdded(m, own, m', own', root, n % PPN_LIMIT, n % PPN_LIMIT + 1, flags) {
      forall v | Lookup(m', root, v) != Lookup(m, root, v) ensures InPages(v, n, n + 1) {
        var i :| n % PPN_LIMIT <= i < n % PPN_LIMIT + 1 && v == Indices(i);
        assert i == n % PPN_LIMIT;
      }
    }
  }

  /** The page loop of `sys_brk` and `sys_mmap`. Page numbers wrap. */
  method EnsureRange(k: Phys, root: nat, lo: nat, hi: nat, flags: Flags) returns (r: Outcome<()>)
    requires k.Valid() && Private(k.mem, k.own) && IsRoot(k.own, root) && flags.u
    modifies k
    ensures k.Valid() && Private(k.mem, k.own) && k.current >= old(k.current) && k.end == old(k.end)
    ensures ZeroPagesAdded(old(k.mem), old(k.own), k.mem, k.own, root, lo, hi, flags)
    ensures r.Done? || (r == Panics(OutOfMemory) && k.current + PAGE_SIZE > k.end)
    ensures AllMapped(k.mem, root, lo, hi) || k.current + PAGE_SIZE > k.end
    ensures hi <= lo ==> r.Done? && k.mem == old(k.mem) && k.own == old(k.own) && k.current == old(k.current)
  {
    hide Phys.Valid, Private, ZeroPagesAdded, Mapped;
    NothingAdded(k.mem, k.own, root, lo, lo, flags);
    var n := lo;
    r := Done(());
    while r.Done? && n < hi
      invariant lo <= n && (n <= hi || n == lo) && IsRoot(k.own, root)
      invariant k.Valid() && Private(k.mem, k.own) && k.current >= old(k.current) && k.end == old(k.end)
      invariant ZeroPagesAdded(old(k.mem), old(k.own), k.mem, k.own, root, lo, n, flags)
      invariant r.Done? || (r == Panics(OutOfMemory) && k.current + PAGE_SIZE > k.end)
      invariant AllMapped(k.mem, root, lo, n) || k.current + PAGE_SIZE > k.end
      invariant n == lo ==> r.Done? && k.mem == old(k.mem) && k.own == old(k.own) && k.current == old(k.current)
    {
      ghost var m, o := k.mem, k.own;
      r := Ensure(k, root, n % PPN_LIMIT, flags);
      SamePage(m, o, k.mem, k.own, root, n, flags);
      AddedGrows(m, o, k.mem, k.own, root, n, n + 1, flags);
      GrowsKeepsRoot(m, o, k.mem, k.own, root, root);
      ZeroPagesThen(old(k.mem), old(k.own), m, o, k.mem, k.own, root, lo, n, flags);
      if k.current + PAGE_SIZE <= k.end {
        AllMappedKept(m, o, k.mem, k.own, root, lo, n);
        AllMappedNext(k.mem, root, lo, n);
      }
      n := n + 1;
    }
    AddedWithin(old(k.mem), old(k.own), k.mem, k.own, root, lo, n, hi, flags);
  }

  lemma AddedGrows(m: Memory, own: Owners, m': Memory, own': Owners, root: nat, lo: nat, hi: nat, flags: Flags)
    requires ZeroPagesAdded(m, own, m', own', root, lo, hi, flags)
    ensures Grows(m, own, m', own', root)
  {
  }

  lemma AddedWithin(m: Memory, own: Owners, m': Memory, own': Owners, root: nat, lo: nat, n: nat, hi: nat, flags: Flags)
    requires ZeroPagesAdded(m, own, m', own', root, lo, n, flags) && (n <= hi || n == lo)
    ensures ZeroPagesAdded(m, own, m', own', root, lo, hi, flags)
  {
    hide Lookup, Indices, Grows, FreshZero;
    forall v | Lookup(m', root, v) != Lookup(m, root, v) ensures InPages(v, lo, hi) {
      var i :| lo <= i < n && v == Indices(i);
    }
  }

  function Start(brk: Word): Word {
    if brk == 0 then 0x1_0000 else brk
  }

  /** The page after the last one below a break. */
  function EndPage(brk: Word): nat {
    RoundUp(Start(brk)) / PAGE_SIZE
  }

  function NextBreak(brk: Word, addr: Word): Word {
    if addr == 0 then Start(brk) else addr
  }

  /** `sys_brk`: the new break. A break of zero counts as 0x10000. Only a growing break maps anything:
      zeroed pages between the two roundings, and nothing else. */
  method Brk(k: Phys, root: nat, brk: Word, addr: Word) returns (r: Outcome<Word>)
    requires k.Valid() && Private(k.mem, k.own) && IsRoot(k.own, root)
    modifies k
    ensures k.Valid() && Private(k.mem, k.own) && k.current >= old(k.current) && k.end == old(k.end)
    ensures r.Done? ==> r.value == NextBreak(brk, addr)
    ensures r.Done? || (r == Panics(OutOfMemory) && k.current + PAGE_SIZE > k.end)
    ensures ZeroPagesAdded(old(k.mem), old(k.own), k.mem, k.own, root, EndPage(brk), RoundUp(addr) / PAGE_SIZE, URW)
    ensures addr > Start(brk) && k.current + PAGE_SIZE <= k.end ==>
              AllMapped(k.mem, root, EndPage(brk), RoundUp(addr) / PAGE_SIZE)
    ensures addr <= Start(brk) || RoundUp(addr) <= RoundUp(Start(brk)) ==>
              r.Done? && k.mem == old(k.mem) && k.own == old(k.own) && k.current == old(k.current)
  {
    hide Phys.Valid, Private, ZeroPagesAdded, AllMapped, RoundUp;
    var b := if brk == 0 then 0x1_0000 else brk;
    NothingAdded(k.mem, k.own, root, EndPage(brk), RoundUp(addr) / PAGE_SIZE, URW);
    if addr == 0 {
      return Done(b);
    }
    if addr > b {
      RoundedInRange(addr);
      RoundedOrder(addr, b);
      var grown := EnsureRange(k, root, RoundUp(b) / PAGE_SIZE, RoundUp(addr) / PAGE_SIZE, URW);
      if grown.Panics? {
        return Panics(grown.why);
      }
    }
    return Done(addr);
  }

  lemma RoundedInRange(x: Word)
    ensures RoundUp(x) / PAGE_SIZE <= PPN_LIMIT
  {
  }

  lemma RoundedOrder(x: Word, y: Word)
    ensures RoundUp(x) <= RoundUp(y) <==> RoundUp(x) / PAGE_SIZE <= RoundUp(y) / PAGE_SIZE
  {
  }

  // ---- Any sequence of calls ----

  /** Page `v` lies in what one of the calls, starting from the break `brk`, maps. */
  ghost predicate Covers(brk: Word, addrs: seq<Word>, v: Vpn)
    decreases |addrs|
  {
    addrs != [] &&
    (CoversOne(brk, addrs[0], v) || Covers(NextBreak(brk, addrs[0]), addrs[1..], v))
  }

  ghost predicate CoversOne(brk: Word, addr: Word, v: Vpn) {
    addr > Start(brk) && InPages(v, EndPage(brk), RoundUp(addr) / PAGE_SIZE)
  }

  function FinalBreak(brk: Word, addrs: seq<Word>): Word
    decreases |addrs|
  {
    if addrs == [] then brk else FinalBreak(NextBreak(brk, addrs[0]), addrs[1..])
  }

  /** The mapped pages are those of `m` and those the calls map. */
  ghost predicate MappedBy(m: Memory, m': Memory, root: nat, brk: Word, addrs: seq<Word>) {
    forall v :: MappedByAt(m, m', root, brk, addrs, v)
  }

  ghost predicate MappedByAt(m: Memory, m': Memory, root: nat, brk: Word, addrs: seq<Word>, v: Vpn) {
    Lookup(m', root, v).Some? <==> Lookup(m, root, v).Some? || Covers(brk, addrs, v)
  }

  /** One call more at the front. */
  lemma MappedByNext(m: Memory, own: Owners, m1: Memory, own1: Owners, m': Memory, root: nat, brk: Word, addrs: seq<Word>)
    requires addrs != [] && MappedBy(m1, m', root, NextBreak(brk, addrs[0]), addrs[1..])
    requires ZeroPagesAdded(m, own, m1, own1, root, EndPage(brk), RoundUp(addrs[0]) / PAGE_SIZE, URW)
    requires addrs[0] > Start(brk) ==> AllMapped(m1, root, EndPage(brk), RoundUp(addrs[0]) / PAGE_SIZE)
    requires addrs[0] <= Start(brk) ==> m1 == m
    ensures MappedBy(m, m', root, brk, addrs)
  {
    hide Lookup, ZeroPagesAdded, AllMapped, InPages, RoundUp;
    forall v ensures MappedByAt(m, m', root, brk, addrs, v) {
      assert MappedByAt(m1, m', root, NextBreak(brk, addrs[0]), addrs[1..], v);
      if addrs[0] > Start(brk) {
        ExactlyAdded(m, own, m1, own1, root, EndPage(brk), RoundUp(addrs[0]) / PAGE_SIZE, URW, v);
      }
    }
  }

  /** Over any sequence of brk calls no translation is ever altered, and while a frame is left the
      mapped pages are exactly those of before and those that the calls cover. */
  method BrkRun(k: Phys, root: nat, brk: Word, addrs: seq<Word>) returns (r: Outcome<Word>)
    requires k.Valid() && Private(k.mem, k.own) && IsRoot(k.own, root)
    modifies k
    ensures k.Valid() && Private(k.mem, k.own) && k.current >= old(k.current) && k.end == old(k.end)
    ensures Grows(old(k.mem), old(k.own), k.mem, k.own, root)
    ensures r.Done? ==> r.value == FinalBreak(brk, addrs)
    ensures r.Done? || k.current + PAGE_SIZE > k.end
    ensures r.Done? && k.current + PAGE_SIZE <= k.end ==> MappedBy(old(k.mem), k.mem, root, brk, addrs)
    decreases |addrs|
  {
    hide Phys.Valid, Private, ZeroPagesAdded, AllMapped, Grows, MappedBy, RoundUp;
    if addrs == [] {
      GrowsReflexive(k.mem, k.own, root);
      MappedByNothing(k.mem, root, brk);
      return Done(brk);
    }
    r := Brk(k, root, brk, addrs[0]);
    ghost var m, o := k.mem, k.own;
    AddedGrows(old(k.mem), old(k.own), m, o, root, EndPage(brk), RoundUp(addrs[0]) / PAGE_SIZE, URW);
    if r.Done? {
      GrowsKeepsRoot(old(k.mem), old(k.own), m, o, root, root);
      r := BrkRun(k, root, r.value, addrs[1..]);
      GrowsTransitive(old(k.mem), old(k.own), m, o, k.mem, k.own, root);
      if r.Done? && k.current + PAGE_SIZE <= k.end {
        MappedByNext(old(k.mem), old(k.own), m, o, k.mem, root, brk, addrs);
      }
    }
  }

  lemma MappedByNothing(m: Memory, root: nat, brk: Word)
    ensures MappedBy(m, m, root, brk, [])
  {
  }

  // ---- Is the heap backed? ----

  /** Every page from the initial break up to the rounded current break is mapped. */
  ghost predicate HeapBacked(m: Memory, root: nat, init: nat, brk: Word) {
    AllMapped(m, root, init, EndPage(brk))
  }

  /** Exactly when a run of calls leaves the heap backed. */
  lemma BackedExactly(m: Memory, m': Memory, root: nat, init: nat, brk: Word, addrs: seq<Word>)
    requires MappedBy(m, m', root, brk, addrs)
    ensures HeapBacked(m', root, init, FinalBreak(brk, addrs)) <==>
              forall n | init <= n < EndPage(FinalBreak(brk, addrs)) :: Mapped(m, root, n) || Covers(brk, addrs, Indices(n))
  {
    hide Lookup, Covers, Indices;
    forall n | init <= n < EndPage(FinalBreak(brk, addrs))
      ensures Mapped(m', root, n) <==> Mapped(m, root, n) || Covers(brk, addrs, Indices(n))
    {
      assert MappedByAt(m, m', root, brk, addrs, Indices(n));
    }
  }

  /** The break rounds up without wrapping. */
  predicate Rounds(brk: Word) {
    Start(brk) + PAGE_SIZE <= WORD_LIMIT
  }

  /** Calls whose breaks all round without wrapping cover every page between the first break and the
      last. */
  lemma {:induction false} RoundingCovers(brk: Word, addrs: seq<Word>, n: nat)
    requires Rounds(brk) && forall i | 0 <= i < |addrs| :: Rounds(addrs[i])
    requires EndPage(brk) <= n < EndPage(FinalBreak(brk, addrs))
    ensures Covers(brk, addrs, Indices(n))
    decreases |addrs|
  {
    hide Indices;
    var next := NextBreak(brk, addrs[0]);
    if addrs[0] > Start(brk) && n < EndPage(addrs[0]) {
      assert InPages(Indices(n), EndPage(brk), RoundUp(addrs[0]) / PAGE_SIZE);
    } else {
      if addrs[0] <= Start(brk) {
        EndPageMonotone(next, Start(brk));
      }
      RoundingCovers(next, addrs[1..], n);
    }
  }

  lemma EndPageMonotone(x: Word, y: Word)
    requires Start(x) <= y && y + PAGE_SIZE <= WORD_LIMIT
    ensures EndPage(x) <= RoundUp(y) / PAGE_SIZE
  {
  }

  /** Breaks that do not wrap keep the heap backed. */
  lemma RoundingStaysBacked(m: Memory, m': Memory, root: nat, init: nat, brk: Word, addrs: seq<Word>)
    requires MappedBy(m, m', root, brk, addrs) && HeapBacked(m, root, init, brk)
    requires Rounds(brk) && forall i | 0 <= i < |addrs| :: Rounds(addrs[i])
    ensures HeapBacked(m', root, init, FinalBreak(brk, addrs))
  {
    hide MappedBy, Covers, EndPage;
    BackedExactly(m, m', root, init, brk, addrs);
    forall n | init <= n < EndPage(FinalBreak(brk, addrs)) ensures Mapped(m, root, n) || Covers(brk, addrs, Indices(n)) {
      if n >= EndPage(brk) {
        RoundingCovers(brk, addrs, n);
      }
    }
  }

  /** The condition matters: a break at the very end of the address space rounds to zero and maps nothing,
      and the lower break after it is accepted with its pages unmapped. */
  method WrappedBreakRun(k: Phys, root: nat, brk: Word, init: nat) returns (r: Outcome<Word>)
    requires k.Valid() && Private(k.mem, k.own) && IsRoot(k.own, root)
    requires 0 < init < VPN_LIMIT && !Mapped(k.mem, root, init)
    modifies k
    ensures r == Done(init * PAGE_SIZE + 1) && k.mem == old(k.mem) && k.own == old(k.own)
    ensures !HeapBacked(k.mem, root, init, r.value)
  {
    hide Phys.Valid, Private, ZeroPagesAdded, Mapped;
    assert RoundUp(WORD_LIMIT - 1) == 0;
    r := Brk(k, root, brk, WORD_LIMIT - 1);
    r := Brk(k, root, r.value, init * PAGE_SIZE + 1);
    assert RoundUp(init * PAGE_SIZE + 1) == (init + 1) * PAGE_SIZE;
  }
}

/**
 The Sv39 translation of the processor, sections 4.3.2 and 4.4.1 of the RISC-V Privileged
 Architecture, version 20211203, against the walk of find_pte and translate (src/mm.rs).
 */
module HwWalk {
  import opened Base
  import opened Pte
  import opened Sv39
  import opened AddressSpace

  /** The physical page number field of an entry has 44 bits; the ten bits above are reserved. */
  const HW_PPN_LIMIT: nat := 0x1000_0000_0000

  datatype Walked = PageFault | AccessFault | Translates(pa: nat, flags: Flags)

  /** Bits 63 to 39 of the address equal bit 38. */
  predicate Canonical(va: Word) {
    va < 0x40_0000_0000 || va >= WORD_LIMIT - 0x40_0000_0000
  }

  /** The pages that a leaf at the given depth covers. */
  function Span(level: nat): nat
    requires level <= 2
  {
    if level == 2 then 1 else if level == 1 then 0x200 else 0x4_0000
  }

  /** Steps 5 to 8 for a leaf found `level` tables below the root. */
  function HwLeaf(pte: Cell, n: nat, off: nat, level: nat): Walked
    requires level <= 2
  {
    if pte.ppn % Span(level) != 0 || !pte.flags.a || !pte.flags.d then PageFault
    else Translates((pte.ppn + n % Span(level)) * PAGE_SIZE + off, pte.flags)
  }

  /** Steps 2 to 4: `a` is the frame of the table for this level. */
  function HwStep(m: Memory, a: nat, n: nat, off: nat, level: nat): Walked
    requires level <= 2
    decreases 2 - level, n
  {
    if a !in m then AccessFault
    else
      var pte := m[a][Indices(n).At(level)];
      if !pte.flags.v || (!pte.flags.r && pte.flags.w) || pte.ppn >= HW_PPN_LIMIT then PageFault
      else if pte.flags.r || pte.flags.x then HwLeaf(pte, n, off, level)
      else if pte.flags.a || pte.flags.d || pte.flags.u || level == 2 then PageFault
      else HwStep(m, pte.ppn, n, off, level + 1)
  }

  /** What the processor does with `va` when satp names the table `root`. */
  function HwTranslate(m: Memory, root: nat, va: Word): Walked {
    if Canonical(va) then HwStep(m, root, va / PAGE_SIZE, va % PAGE_SIZE, 0) else PageFault
  }

  /** What the kernel's own walk takes it to be. */
  function SwTranslate(m: Memory, root: nat, va: Word): Walked {
    match Lookup(m, root, Indices(va / PAGE_SIZE))
    case None => PageFault
    case Some(leaf) => Translates(leaf.ppn * PAGE_SIZE + va % PAGE_SIZE, leaf.flags)
  }

  /** The leaf is one the processor accepts: readable or executable, not writable without being
      readable, and within the physical address space. */
  predicate HwLeafOk(leaf: Leaf) {
    (leaf.flags.r || leaf.flags.x) && (leaf.flags.r || !leaf.flags.w) && leaf.ppn < HW_PPN_LIMIT
  }

  /** In a tree that the kernel built, the processor follows the same path: interior entries are
      pure pointers, so there is no superpage. */
  lemma {:induction false} SamePath(m: Memory, own: Owners, root: nat, a: nat, n: nat, off: nat, level: nat)
    requires TreesOk(m, own) && IsRoot(own, root) && level <= 2
    requires Walk(m, root, Indices(n), level) == Some(a)
    ensures HwStep(m, a, n, off, level) ==
              match Lookup(m, root, Indices(n))
              case None => PageFault
              case Some(leaf) => if HwLeafOk(leaf) then Translates(leaf.ppn * PAGE_SIZE + off, leaf.flags) else PageFault
    decreases 2 - level
  {
    var v := Indices(n);
    WalkStaysOwned(m, own, root, v, level);
    var pte := m[a][v.At(level)];
    assert EntryOk(own, own[a], v.At(level), pte);
    if level < 2 {
      if pte.flags.v {
        SamePath(m, own, root, pte.ppn, n, off, level + 1);
      } else {
        WalkStops(m, root, v, level);
        WalkStaysStopped(m, root, v, level);
      }
    }
  }

  /** The software walk agrees with the hardware walk exactly on unmapped addresses and on
      canonical addresses whose leaf the processor accepts. */
  lemma WalksAgree(m: Memory, own: Owners, root: nat, va: Word)
    requires TreesOk(m, own) && IsRoot(own, root)
    ensures HwTranslate(m, root, va) == SwTranslate(m, root, va) <==>
              var leaf := Lookup(m, root, Indices(va / PAGE_SIZE));
              leaf.Some? ==> Canonical(va) && HwLeafOk(leaf.value)
    ensures HwTranslate(m, root, va) != SwTranslate(m, root, va) ==> HwTranslate(m, root, va) == PageFault
  {
    SamePath(m, own, root, root, va / PAGE_SIZE, va % PAGE_SIZE, 0);
  }

  /** In the table of a process every kernel page and every user page with usable permissions is
      seen alike. */
  lemma ProcessWalksAgree(m: Memory, own: Owners, root: nat, va: Word)
    requires TreesOk(m, own) && Private(m, own) && IsRoot(own, root) && Standard(m, root)
    requires forall p | p in own :: p < RAM_PAGES
    requires Canonical(va)
    ensures HwTranslate(m, root, va) == SwTranslate(m, root, va) <==>
              (UserLeaf(m, root, Indices(va / PAGE_SIZE)) ==>
                 var f := Lookup(m, root, Indices(va / PAGE_SIZE)).value.flags;
                 (f.r || f.x) && (f.r || !f.w))
  {
    WalksAgree(m, own, root, va);
    assert StandardAt(m, root, Indices(va / PAGE_SIZE));
  }
}

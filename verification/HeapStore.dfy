/**
 What the kernel writes to its heap: the copy of an ELF file that exec makes (src/proc.rs, align_elf), and any other.
 The heap is a range of physical memory that alloc_page hands out too, once it gets there.
 */
module HeapStore {
  import opened Base
  import opened Sv39
  import opened FrameBytes
  import opened PhysMem
  import opened KernelHeap
  import opened CloneSpace
  import opened UserRead

  /** Memory after `data` is written to the physical address `addr` and up. */
  function Poked(m: Memory, addr: nat, data: seq<Byte>): (r: Memory)
    ensures r.Keys == m.Keys
  {
    PhysWrite(m, 0, addr, data)
  }

  // ---- Which frames a write touches ----

  lemma {:induction false} PokedFrame(m: Memory, addr: nat, data: seq<Byte>, p: nat)
    requires p in m && !Overlap(Block(addr, |data|), p)
    ensures Poked(m, addr, data)[p] == m[p]
    decreases |data|
  {
    hide Overwrite, PhysWrite;
    PhysWriteStep(m, 0, addr, data);
    if data != [] {
      var len := Min(|data|, PAGE_SIZE - addr % PAGE_SIZE);
      assert Overlap(Block(addr, |data|), addr / PAGE_SIZE);
      assert !Overlap(Block(addr + len, |data| - len), p);
      PokedFrame(Overwrite(m, addr / PAGE_SIZE, addr % PAGE_SIZE, data[..len]), addr + len, data[len..], p);
    }
  }

  /** What a frame holds afterwards depends on what it held, and on no other frame. */
  lemma {:induction false} PokedLocal(m: Memory, m': Memory, addr: nat, data: seq<Byte>, p: nat)
    requires p in m && p in m' && m'[p] == m[p]
    ensures Poked(m', addr, data)[p] == Poked(m, addr, data)[p]
    decreases |data|
  {
    hide WithBytes, PhysWrite;
    PhysWriteStep(m, 0, addr, data);
    PhysWriteStep(m', 0, addr, data);
    if data != [] {
      var len := Min(|data|, PAGE_SIZE - addr % PAGE_SIZE);
      var q, o := addr / PAGE_SIZE, addr % PAGE_SIZE;
      PokedLocal(Overwrite(m, q, o, data[..len]), Overwrite(m', q, o, data[..len]), addr + len, data[len..], p);
    }
  }

  /** Every frame in use holds what it held. */
  ghost predicate KeepsOwned(m: Memory, m': Memory, own: Owners) {
    m'.Keys == m.Keys && forall p | p in own && p in m :: m'[p] == m[p]
  }

  /** Such a change is none for any address space. */
  lemma KeptOwned(m: Memory, m': Memory, own: Owners)
    requires TreesOk(m, own) && Private(m, own) && KeepsOwned(m, m', own)
    ensures TreesOk(m', own) && Private(m', own)
    ensures forall r, v | IsRoot(own, r) :: Lookup(m', r, v) == Lookup(m, r, v)
    ensures forall r | IsRoot(own, r) :: Unchanged(m, m', r)
  {
    hide Lookup;
    forall t, i | t in own && own[t].Table? && 0 <= i < 512 ensures EntryOk(own, own[t], i, m'[t][i]) {
      assert EntryOk(own, own[t], i, m[t][i]);
    }
    forall r, v: Vpn | IsRoot(own, r) ensures Lookup(m', r, v) == Lookup(m, r, v) {
      LookupFrame(m, m', own, r, v);
    }
  }

  // ---- Below the heap ----

  /** All frames handed out lie below the heap. */
  ghost predicate BelowHeap(own: Owners) {
    forall p | p in own :: p < HEAP_START / PAGE_SIZE
  }

  lemma TakenBelowHeap(base: nat, top: nat, own: Owners)
    requires TakenUpTo(base, top, own) && top * PAGE_SIZE <= HEAP_START
    ensures BelowHeap(own)
  {
  }

  lemma HeapWriteKeeps(m: Memory, own: Owners, addr: nat, data: seq<Byte>)
    requires BelowHeap(own) && HEAP_START <= addr
    ensures KeepsOwned(m, Poked(m, addr, data), own)
  {
    hide Poked;
    forall p | p in own && p in m ensures Poked(m, addr, data)[p] == m[p] {
      PokedFrame(m, addr, data, p);
    }
  }

  /** A write to the heap may as well have come first. */
  lemma HeapWriteCommutes(m: Memory, own: Owners, m': Memory, own': Owners, root: nat, addr: nat, data: seq<Byte>)
    requires Extends(m, own, m', own', root) && BelowHeap(own') && HEAP_START <= addr
    ensures Extends(Poked(m, addr, data), own, Poked(m', addr, data), own', root)
  {
    hide Poked;
    HeapWriteKeeps(m, own', addr, data);
    HeapWriteKeeps(m', own', addr, data);
    forall p | p in m && Poked(m', addr, data)[p] != Poked(m, addr, data)[p] ensures m'[p] != m[p] {
      if m'[p] == m[p] {
        PokedLocal(m, m', addr, data, p);
      }
    }
  }

  // ---- Exactly when the heap is safe to write to ----

  /** The bytes lie in the heap. */
  predicate InHeap(addr: nat, size: nat) {
    HEAP_START <= addr && addr + size <= HEAP_END
  }

  /** Whatever is written wherever in the heap, every frame in use keeps its contents. */
  ghost predicate HeapWritesSpare(m: Memory, own: Owners) {
    forall addr, data: seq<Byte> | InHeap(addr, |data|) :: KeepsOwned(m, Poked(m, addr, data), own)
  }

  lemma OneByteHits(m: Memory, own: Owners, p: nat)
    requires p in own && p in m && InHeap(p * PAGE_SIZE, 1)
    ensures !HeapWritesSpare(m, own)
  {
    hide BytesOf, PhysWrite;
    var b: Byte := if BytesOf(m[p])[0] == 0 then 1 else 0;
    PageOffset(p, 0);
    PhysWriteByte(m, 0, p * PAGE_SIZE, [b], p * PAGE_SIZE);
    assert BytesOf(Poked(m, p * PAGE_SIZE, [b])[p])[0] == b;
    assert |[b]| == 1;
    assert !KeepsOwned(m, Poked(m, p * PAGE_SIZE, [b]), own);
  }

  /** The kernel's heap writes leave all frames in use alone exactly as long as the frame cursor has not passed the
      start of the heap, unless frames start behind it or none was taken. */
  lemma HeapSafeExactly(k: Phys)
    requires k.Valid()
    ensures HeapWritesSpare(k.mem, k.own) <==>
              k.top <= HEAP_START / PAGE_SIZE || k.base >= HEAP_END / PAGE_SIZE || k.base == k.top
  {
    hide TreesOk, Poked;
    FramesAvoidHeap(k);
    if k.top <= HEAP_START / PAGE_SIZE || k.base >= HEAP_END / PAGE_SIZE || k.base == k.top {
      forall addr, data: seq<Byte> | InHeap(addr, |data|) ensures KeepsOwned(k.mem, Poked(k.mem, addr, data), k.own) {
        forall p | p in k.own && p in k.mem ensures Poked(k.mem, addr, data)[p] == k.mem[p] {
          assert !Overlap(Block(HEAP_START, HEAP_END - HEAP_START), p);
          PokedFrame(k.mem, addr, data, p);
        }
      }
    } else {
      var p :| p in k.own && Overlap(Block(HEAP_START, HEAP_END - HEAP_START), p);
      OneByteHits(k.mem, k.own, p);
    }
  }

  /** Past that, a write that meets the page of a process is what the process reads there, as long as it meets no table. */
  lemma HeapWriteReaches(m: Memory, own: Owners, root: nat, v: Vpn, addr: nat, data: seq<Byte>, o: nat)
    requires TreesOk(m, own) && Private(m, own) && IsRoot(own, root) && UserLeaf(m, root, v) && o < PAGE_SIZE
    requires forall f | f in own && own[f].Table? :: !Overlap(Block(addr, |data|), f)
    requires addr <= Lookup(m, root, v).value.ppn * PAGE_SIZE + o < addr + |data|
    ensures ReadByte(Poked(m, addr, data), root, Number(v) * PAGE_SIZE + o) ==
              Some(data[Lookup(m, root, v).value.ppn * PAGE_SIZE + o - addr])
  {
    hide BytesOf, PhysWrite, Indices, Number, Lookup;
    var p, m' := Lookup(m, root, v).value.ppn, Poked(m, addr, data);
    assert p in m;
    forall t | t in own && own[t].Table? ensures m'[t] == m[t] {
      PokedFrame(m, addr, data, t);
    }
    LookupFrame(m, m', own, root, v);
    PhysWriteByte(m, 0, addr, data, p * PAGE_SIZE + o);
    PageOffset(p, o);
    PageOffset(Number(v), o);
    IndicesOfNumber(v);
  }

  // ---- The copy of the file ----

  /** The block that `align_elf` gets for a file, if a layout of that size exists and the heap has room. */
  function FileBlock(current: nat, size: nat): Option<nat> {
    var addr := AlignUp(current, 16);
    if size + 16 <= 0x8000_0000_0000_0000 && addr + size <= HEAP_END then Some(addr) else None
  }

  /** Memory with the file in its block. */
  function WithCopy(m: Memory, current: nat, data: seq<Byte>): Memory {
    match FileBlock(current, |data|)
    case None => m
    case Some(addr) => Poked(m, addr, data)
  }

  /** `align_elf`: the block the file is copied to. */
  method CopyToHeap(ph: Phys, heap: Bump, data: seq<Byte>) returns (block: Option<nat>)
    requires heap.Valid()
    modifies ph`mem, heap
    ensures heap.Valid() && block == FileBlock(old(heap.current), |data|)
    ensures block.Some? ==> InHeap(block.value, |data|)
    ensures ph.mem == WithCopy(old(ph.mem), old(heap.current), data)
    ensures block.Some? ==> (Block(block.value, |data|), 16) in heap.blocks
    ensures old(ph.Valid()) && TreesOk(ph.mem, ph.own) ==> ph.Valid()
  {
    hide Poked, TreesOk;
    if |data| + 16 > 0x8000_0000_0000_0000 {
      return None;
    }
    block := heap.Alloc(|data|, 16);
    if block.Some? {
      ph.mem := Poked(ph.mem, block.value, data);
    }
  }

  /** While frames stay below the heap, the file in its block is read back as it was copied. */
  lemma FileStays(m: Memory, own: Owners, m': Memory, own': Owners, root: nat, addr: nat, data: seq<Byte>, i: nat)
    requires HEAP_START <= addr && i < |data| && (addr + i) / PAGE_SIZE in m
    requires Extends(Poked(m, addr, data), own, m', own', root) && BelowHeap(own')
    ensures PhysByte(m', addr + i) == data[i]
  {
    hide BytesOf, PhysWrite;
    PhysWriteByte(m, 0, addr, data, addr + i);
    assert (addr + i) / PAGE_SIZE !in own';
  }
}

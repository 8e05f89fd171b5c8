/**
 The kernel heap, a bump allocator over a fixed range, and its overlap with the frames that
 alloc_page hands out (src/mm.rs).
 */
module KernelHeap {
  import opened Base
  import opened PhysMem

  const HEAP_START: nat := 0x8600_0000
  const HEAP_END: nat := 0x8700_0000

  /** A block of the heap. */
  datatype Block = Block(addr: nat, size: nat)
  {
    function End(): nat {
      addr + size
    }
  }

  /** `(x + align - 1) & !(align - 1)` for a power of two: the next multiple of `align`. */
  function AlignUp(x: nat, align: nat): (r: nat)
    requires align > 0
    ensures x <= r < x + align && r % align == 0
  {
    var y := x + align - 1;
    MultipleOf(y / align, align);
    y / align * align
  }

  lemma MultipleOf(k: nat, a: nat)
    requires a > 0
    ensures k * a % a == 0
  {
    var q, r := k * a / a, k * a % a;
    Small(a, k - q, r);
  }

  lemma Small(a: int, d: int, r: int)
    requires a > 0 && a * d == r
    ensures 0 <= r < a ==> r == 0
  {
    if d >= 1 {
      assert a * d >= a;
    } else if d <= -1 {
      assert a * d + a <= 0;
    }
  }

  class Bump {
    var current: nat
    var end: nat
    /** The blocks handed out, in order, with the alignment asked for. */
    ghost var blocks: seq<(Block, nat)>

    ghost predicate Valid()
      reads this
    {
      && HEAP_START <= current <= end == HEAP_END
      && (forall i | 0 <= i < |blocks| ::
            && HEAP_START <= blocks[i].0.addr && blocks[i].0.End() <= current
            && blocks[i].1 > 0 && blocks[i].0.addr % blocks[i].1 == 0)
      && (forall i, j | 0 <= i < j < |blocks| :: blocks[i].0.End() <= blocks[j].0.addr)
    }

    /** `init_heap` */
    constructor ()
      ensures Valid() && blocks == []
    {
      current := HEAP_START;
      end := HEAP_END;
      blocks := [];
    }

    /** `BumpAlloc::alloc`: `None` is the null pointer. The bound on size and alignment is the one
        every layout keeps. */
    method Alloc(size: nat, align: nat) returns (p: Option<nat>)
      requires Valid() && align > 0 && size + align <= 0x8000_0000_0000_0000
      modifies this
      ensures Valid()
      ensures p.Some? <==> AlignUp(old(current), align) + size <= end
      ensures p.None? ==> blocks == old(blocks) && current == old(current)
      ensures p.Some? ==> p.value == AlignUp(old(current), align)
      ensures p.Some? ==> blocks == old(blocks) + [(Block(p.value, size), align)]
    {
      var addr := AlignUp(current, align);
      if addr + size <= end {
        current := addr + size;
        blocks := blocks + [(Block(addr, size), align)];
        return Some(addr);
      }
      return None;
    }
  }

  predicate Overlap(b: Block, p: nat) {
    b.addr < (p + 1) * PAGE_SIZE && p * PAGE_SIZE < b.End()
  }

  /** No frame that was handed out overlaps the heap's range exactly as long as the frame cursor has
      not passed the start of the heap, unless frames start behind it or none was taken. */
  lemma FramesAvoidHeap(k: Phys)
    requires k.Valid()
    ensures (forall p | p in k.own :: !Overlap(Block(HEAP_START, HEAP_END - HEAP_START), p)) <==>
              k.top <= HEAP_START / PAGE_SIZE || k.base >= HEAP_END / PAGE_SIZE || k.base == k.top
  {
    var range := Block(HEAP_START, HEAP_END - HEAP_START);
    var p := if k.base <= HEAP_START / PAGE_SIZE then HEAP_START / PAGE_SIZE else k.base;
    if !(k.top <= HEAP_START / PAGE_SIZE || k.base >= HEAP_END / PAGE_SIZE || k.base == k.top) {
      assert p in k.own && Overlap(range, p);
    }
  }

  /** While the cursor is in bounds, no block of the heap overlaps a frame. */
  lemma BlocksAvoidFrames(k: Phys, h: Bump, i: nat, p: nat)
    requires k.Valid() && h.Valid() && i < |h.blocks| && p in k.own
    requires k.current <= HEAP_START
    ensures !Overlap(h.blocks[i].0, p)
  {
  }

  /** The bound matters: with enough frames taken, a block and a frame share an address. */
  lemma HeapAndFramesMeet(k: Phys, h: Bump)
    requires k.Valid() && h.Valid() && k.base * PAGE_SIZE <= HEAP_START < k.current
    requires |h.blocks| > 0 && h.blocks[0].0.addr == HEAP_START && h.blocks[0].0.size > 0
    ensures HEAP_START / PAGE_SIZE in k.own && Overlap(h.blocks[0].0, HEAP_START / PAGE_SIZE)
  {
  }
}

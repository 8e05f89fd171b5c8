/**
 Types shared by the models: optional values, machine words, bytes and the
 page-size arithmetic of src/mm.rs.
 */
module Base {

  datatype Option<+T> = None | Some(value: T)

  const PAGE_SIZE: nat := 4096

  /** 2^64: `usize` arithmetic of a release build wraps at this bound. */
  const WORD_LIMIT: nat := 0x1_0000_0000_0000_0000

  type Word = w: nat | w < WORD_LIMIT

  /** A physical page number: a 64-bit address shifted right by twelve. */
  type Ppn = p: nat | p < PPN_LIMIT

  const PPN_LIMIT: nat := 0x10_0000_0000_0000

  type Byte = b: nat | b < 256

  /** Page numbers of the machine's memory end here (0x8800_0000). */
  const RAM_PAGES: nat := 0x8_8000

  /** Where the top page of every user stack begins. */
  const STACK_TOP: Word := 0x3f_ffff_f000

  /** `x & !(PAGE_SIZE - 1)` */
  function RoundDown(x: nat): (r: nat)
    ensures r % PAGE_SIZE == 0 && r <= x < r + PAGE_SIZE
  {
    x / PAGE_SIZE * PAGE_SIZE
  }

  /** `(x + PAGE_SIZE - 1) & !(PAGE_SIZE - 1)`, wrapping at 2^64. */
  function RoundUp(x: nat): (r: nat)
    ensures r % PAGE_SIZE == 0
    ensures x + PAGE_SIZE <= WORD_LIMIT ==> x <= r < x + PAGE_SIZE
  {
    RoundDown((x + PAGE_SIZE - 1) % WORD_LIMIT)
  }

  /** Two processes share neither the table nor a frame of their kernel stacks, of two frames each. */
  predicate PlacesApart(root: nat, kstack: nat, root': nat, kstack': nat) {
    root != root' && (kstack + 2 <= kstack' || kstack' + 2 <= kstack)
  }

  function Min(x: int, y: int): int {
    if x < y then x else y
  }

  function Max(x: int, y: int): int {
    if x < y then y else x
  }

  function Zeros(n: nat): (s: seq<Byte>)
    ensures |s| == n && forall i | 0 <= i < n :: s[i] == 0
  {
    seq(n, _ => 0)
  }
}

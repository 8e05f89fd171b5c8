/**
 Page-table entries (src/mm.rs, PTEFlags and PageTableEntry).

 A 64-bit word of memory is kept as the fields that the entry accessors read: the page
 number from bit 10 up, two software bits, and the eight flags in the low byte.
 `Encode` and `Decode` are the conversions from and to the number the word stands for.
 */
module Pte {
  import opened Base

  datatype Flags = Flags(v: bool, r: bool, w: bool, x: bool, u: bool, g: bool, a: bool, d: bool)
  {
    /** The bitwise or of two flag sets. */
    function Or(f: Flags): Flags {
      Flags(v || f.v, r || f.r, w || f.w, x || f.x, u || f.u, g || f.g, a || f.a, d || f.d)
    }
  }

  const NO_FLAGS := Flags(false, false, false, false, false, false, false, false)
  const V := NO_FLAGS.(v := true)
  const VAD := NO_FLAGS.(v := true, a := true, d := true)
  const RW := NO_FLAGS.(r := true, w := true)
  const RWX := RW.(x := true)
  const URW := RW.(u := true)

  type Bits54 = x: nat | x < 0x40_0000_0000_0000

  type Bits2 = x: nat | x < 4

  /** One word of memory. */
  datatype Cell = Cell(ppn: Bits54, soft: Bits2, flags: Flags)

  const ZERO_CELL := Cell(0, 0, NO_FLAGS)

  /** `PageTableEntry::new` */
  function NewPte(ppn: Ppn, f: Flags): Cell {
    Cell(ppn, 0, f)
  }

  // ---- The number a word stands for ----

  function Bit(b: bool): nat {
    if b then 1 else 0
  }

  /** A little-endian binary number with low bits `bits` and high part `rest`. */
  function Packed(bits: seq<bool>, rest: nat): nat {
    if bits == [] then rest else Bit(bits[0]) + 2 * Packed(bits[1..], rest)
  }

  /** The n lowest bits of w. */
  function LowBits(w: nat, n: nat): (bits: seq<bool>)
    ensures |bits| == n
  {
    if n == 0 then [] else [w % 2 == 1] + LowBits(w / 2, n - 1)
  }

  /** w shifted right by n. */
  function Shifted(w: nat, n: nat): nat {
    if n == 0 then w else Shifted(w / 2, n - 1)
  }

  lemma {:induction false} UnpackPacked(bits: seq<bool>, rest: nat)
    ensures LowBits(Packed(bits, rest), |bits|) == bits
    ensures Shifted(Packed(bits, rest), |bits|) == rest
  {
    if bits != [] {
      UnpackPacked(bits[1..], rest);
      assert Packed(bits, rest) / 2 == Packed(bits[1..], rest);
    }
  }

  lemma {:induction false} PackUnpacked(w: nat, n: nat)
    ensures Packed(LowBits(w, n), Shifted(w, n)) == w
  {
    if n > 0 {
      PackUnpacked(w / 2, n - 1);
      assert LowBits(w, n)[1..] == LowBits(w / 2, n - 1);
    }
  }

  function FlagSeq(f: Flags): seq<bool> {
    [f.v, f.r, f.w, f.x, f.u, f.g, f.a, f.d]
  }

  /** `PTEFlags::from_bits_truncate` on the low byte. */
  function SeqFlags(s: seq<bool>): Flags
    requires |s| == 8
  {
    Flags(s[0], s[1], s[2], s[3], s[4], s[5], s[6], s[7])
  }

  /** Shifting back what was shifted out gives no more. */
  lemma {:induction false} ShiftedBack(w: nat, n: nat)
    ensures Scaled(Shifted(w, n), n) <= w
  {
    if n > 0 {
      ShiftedBack(w / 2, n - 1);
    }
  }

  lemma ShiftedFits(w: Word)
    ensures Shifted(w, 8) < 0x100_0000_0000_0000
  {
    hide Shifted, Scaled;
    ShiftedBack(w, 8);
    ScaledByEight(Shifted(w, 8));
  }

  /** The word as a number: flags in bits 0 to 7, software bits 8 and 9, page number above. */
  function Encode(c: Cell): nat {
    Packed(FlagSeq(c.flags), c.soft + 4 * c.ppn)
  }

  function Decode(w: Word): Cell {
    ShiftedFits(w);
    Cell(Shifted(w, 8) / 4, Shifted(w, 8) % 4, SeqFlags(LowBits(w, 8)))
  }

  function Pow2(n: nat): nat {
    if n == 0 then 1 else 2 * Pow2(n - 1)
  }

  /** x shifted left by n. */
  function Scaled(x: nat, n: nat): nat {
    if n == 0 then x else 2 * Scaled(x, n - 1)
  }

  lemma {:induction false} PackedSum(bits: seq<bool>, rest: nat, n: nat)
    requires n == |bits|
    ensures Packed(bits, rest) == Packed(bits, 0) + Scaled(rest, n)
    ensures Packed(bits, 0) < Pow2(n)
    decreases n
  {
    if n > 0 {
      PackedSum(bits[1..], rest, n - 1);
    }
  }

  lemma ScaledByEight(x: nat)
    ensures Scaled(x, 8) == 256 * x
  {
    assert Scaled(x, 1) == 2 * Scaled(x, 0);
    assert Scaled(x, 2) == 2 * Scaled(x, 1);
    assert Scaled(x, 3) == 2 * Scaled(x, 2);
    assert Scaled(x, 4) == 2 * Scaled(x, 3);
    assert Scaled(x, 5) == 2 * Scaled(x, 4);
    assert Scaled(x, 6) == 2 * Scaled(x, 5);
    assert Scaled(x, 7) == 2 * Scaled(x, 6);
    assert Scaled(x, 8) == 2 * Scaled(x, 7);
  }

  /** A new entry is the number `(ppn << 10) | flags.bits()`: the shifted page number ends in
      ten zero bits, so the or is a sum, and nothing is lost at the top of the 64 bits. */
  lemma NewPteIsShiftOr(ppn: Ppn, f: Flags)
    ensures Encode(NewPte(ppn, f)) == ppn * 1024 + Packed(FlagSeq(f), 0) < WORD_LIMIT
    ensures Packed(FlagSeq(f), 0) < 256
  {
    var bits := FlagSeq(f);
    PackedSum(bits, 4 * ppn, 8);
    ScaledByEight(4 * ppn);
    assert Pow2(8) == 256;
  }

  lemma WordFits(c: Cell)
    ensures Encode(c) < WORD_LIMIT
  {
    var bits := FlagSeq(c.flags);
    PackedSum(bits, c.soft + 4 * c.ppn, 8);
    ScaledByEight(c.soft + 4 * c.ppn);
    assert Pow2(8) == 256;
  }

  /** A word is what its fields say it is. */
  lemma EncodeDecode(w: Word)
    ensures Encode(Decode(w)) == w
  {
    var bits := LowBits(w, 8);
    assert FlagSeq(SeqFlags(bits)) == bits;
    PackUnpacked(w, 8);
  }

  /** Encoding and decoding an entry are inverse. */
  lemma DecodeEncode(c: Cell)
    ensures Encode(c) < WORD_LIMIT && Decode(Encode(c)) == c
  {
    WordFits(c);
    var bits := FlagSeq(c.flags);
    UnpackPacked(bits, c.soft + 4 * c.ppn);
    assert SeqFlags(bits) == c.flags;
  }
}

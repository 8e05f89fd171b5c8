/**
 Frames as bytes: little-endian words, and byte ranges written with `copy_nonoverlapping`
 and `write_bytes`.
 */
module FrameBytes {
  import opened Base
  import opened Pte
  import opened Sv39

  /** The n low bytes of a little-endian word. */
  function LowBytes(w: nat, n: nat): (bytes: seq<Byte>)
    ensures |bytes| == n
  {
    if n == 0 then [] else [w % 256] + LowBytes(w / 256, n - 1)
  }

  /** The little-endian number with the given bytes. */
  function WordOf(bytes: seq<Byte>): nat {
    if bytes == [] then 0 else bytes[0] + 256 * WordOf(bytes[1..])
  }

  lemma {:induction false} LowBytesOfWord(bytes: seq<Byte>)
    ensures LowBytes(WordOf(bytes), |bytes|) == bytes
  {
    if bytes != [] {
      LowBytesOfWord(bytes[1..]);
      assert WordOf(bytes) / 256 == WordOf(bytes[1..]);
    }
  }

  function Pow256(n: nat): nat {
    if n == 0 then 1 else 256 * Pow256(n - 1)
  }

  lemma {:induction false} WordOfLowBytes(w: nat, n: nat)
    requires w < Pow256(n)
    ensures WordOf(LowBytes(w, n)) == w
  {
    if n > 0 {
      WordOfLowBytes(w / 256, n - 1);
      assert LowBytes(w, n)[1..] == LowBytes(w / 256, n - 1);
    }
  }

  lemma Pow256At()
    ensures Pow256(2) == 0x1_0000 && Pow256(8) == WORD_LIMIT
  {
    assert Pow256(4) == 0x1_0000_0000;
  }

  lemma {:induction false} WordOfBound(bytes: seq<Byte>)
    ensures WordOf(bytes) < Pow256(|bytes|)
  {
    if bytes != [] {
      WordOfBound(bytes[1..]);
    }
  }

  lemma WordOfFits(bytes: seq<Byte>)
    requires |bytes| == 8
    ensures WordOf(bytes) < WORD_LIMIT
  {
    WordOfBound(bytes);
    Pow256At();
  }

  /** The eight bytes of a word of memory. */
  function CellBytes(c: Cell): (bytes: seq<Byte>)
    ensures |bytes| == 8
  {
    LowBytes(Encode(c), 8)
  }

  /** Consecutive words as bytes. */
  function BytesOf(cells: seq<Cell>): (bytes: seq<Byte>)
    ensures |bytes| == 8 * |cells|
  {
    if cells == [] then [] else CellBytes(cells[0]) + BytesOf(cells[1..])
  }

  /** Bytes as consecutive words. */
  function CellsOf(bytes: seq<Byte>): (cells: seq<Cell>)
    requires |bytes| % 8 == 0
    ensures |bytes| == 8 * |cells|
  {
    if bytes == [] then []
    else
      WordOfFits(bytes[..8]);
      [Decode(WordOf(bytes[..8]))] + CellsOf(bytes[8..])
  }

  lemma {:induction false} BytesOfCellsOf(bytes: seq<Byte>)
    requires |bytes| % 8 == 0
    ensures BytesOf(CellsOf(bytes)) == bytes
  {
    if bytes != [] {
      BytesOfCellsOf(bytes[8..]);
      WordOfFits(bytes[..8]);
      EncodeDecode(WordOf(bytes[..8]));
      LowBytesOfWord(bytes[..8]);
      assert bytes == bytes[..8] + bytes[8..];
    }
  }

  lemma {:induction false} CellsOfBytesOf(cells: seq<Cell>)
    ensures CellsOf(BytesOf(cells)) == cells
  {
    hide Encode, Decode;
    if cells != [] {
      CellsOfBytesOf(cells[1..]);
      WordFits(cells[0]);
      Pow256At();
      WordOfLowBytes(Encode(cells[0]), 8);
      DecodeEncode(cells[0]);
      assert BytesOf(cells)[..8] == CellBytes(cells[0]) && BytesOf(cells)[8..] == BytesOf(cells[1..]);
    }
  }

  /** `bytes` with `data` copied over index `off` and up. */
  function Splice(bytes: seq<Byte>, off: nat, data: seq<Byte>): (r: seq<Byte>)
    requires off + |data| <= |bytes|
    ensures |r| == |bytes|
    ensures forall o | 0 <= o < |bytes| :: r[o] == if off <= o < off + |data| then data[o - off] else bytes[o]
  {
    bytes[..off] + data + bytes[off + |data|..]
  }

  /** The frame after `data` is copied to offset `off`. */
  function WithBytes(f: Frame, off: nat, data: seq<Byte>): Frame
    requires off + |data| <= PAGE_SIZE
  {
    CellsOf(Splice(BytesOf(f), off, data))
  }

  /** Frame `f'` is `f` with `data` copied to offset `off`: the bytes of that range and no others changed. */
  ghost predicate Copied(f: Frame, f': Frame, off: nat, data: seq<Byte>) {
    forall o | 0 <= o < PAGE_SIZE ::
      BytesOf(f')[o] == if off <= o < off + |data| then data[o - off] else BytesOf(f)[o]
  }

  lemma WithBytesCopies(f: Frame, off: nat, data: seq<Byte>)
    requires off + |data| <= PAGE_SIZE
    ensures Copied(f, WithBytes(f, off, data), off, data)
  {
    BytesOfCellsOf(Splice(BytesOf(f), off, data));
  }

  // ---- Writing to physical memory ----

  /** Memory after `data` is written to offset `off` of frame `p`. Where there is no frame, nothing is
      remembered. */
  function Overwrite(m: Memory, p: nat, off: nat, data: seq<Byte>): (r: Memory)
    requires off + |data| <= PAGE_SIZE
    ensures r.Keys == m.Keys && forall q | q in m && q != p :: r[q] == m[q]
  {
    if p in m then m[p := WithBytes(m[p], off, data)] else m
  }

  /** Memory after `data` is written from byte `off` of frame `q` on, running into the frames behind it
      where it does not end in time. */
  function PhysWrite(m: Memory, q: nat, off: nat, data: seq<Byte>): (r: Memory)
    ensures r.Keys == m.Keys
    decreases |data|
  {
    if data == [] then m
    else
      var o := off % PAGE_SIZE;
      var len := Min(|data|, PAGE_SIZE - o);
      PhysWrite(Overwrite(m, q + off / PAGE_SIZE, o, data[..len]), q, off + len, data[len..])
  }

  /** The byte at `off` from the start of frame `q`. */
  function ByteIn(m: Memory, q: nat, off: nat): Option<Byte> {
    var p := q + off / PAGE_SIZE;
    if p in m then Some(BytesOf(m[p])[off % PAGE_SIZE]) else None
  }

  lemma OverwriteByte(m: Memory, q: nat, off: nat, data: seq<Byte>, a: nat)
    requires off % PAGE_SIZE + |data| <= PAGE_SIZE
    ensures var m' := Overwrite(m, q + off / PAGE_SIZE, off % PAGE_SIZE, data);
            ByteIn(m', q, a) ==
              if ByteIn(m, q, a).Some? && off <= a < off + |data| then Some(data[a - off]) else ByteIn(m, q, a)
  {
    hide BytesOf, WithBytes;
    var p, o := q + off / PAGE_SIZE, off % PAGE_SIZE;
    if p in m {
      WithBytesCopies(m[p], o, data);
    }
    if a / PAGE_SIZE == off / PAGE_SIZE {
      assert a - off == a % PAGE_SIZE - o;
    }
  }

  lemma PhysWriteStep(m: Memory, q: nat, off: nat, data: seq<Byte>)
    ensures PhysWrite(m, q, off, data) ==
              if data == [] then m
              else var len := Min(|data|, PAGE_SIZE - off % PAGE_SIZE);
                   PhysWrite(Overwrite(m, q + off / PAGE_SIZE, off % PAGE_SIZE, data[..len]), q, off + len, data[len..])
  {
    hide Overwrite;
  }

  /** A physical write puts its bytes at their addresses and leaves every other byte. */
  lemma {:induction false} PhysWriteByte(m: Memory, q: nat, off: nat, data: seq<Byte>, a: nat)
    ensures ByteIn(PhysWrite(m, q, off, data), q, a) ==
              if ByteIn(m, q, a).Some? && off <= a < off + |data| then Some(data[a - off]) else ByteIn(m, q, a)
    decreases |data|
  {
    hide ByteIn, Overwrite, PhysWrite;
    PhysWriteStep(m, q, off, data);
    if data != [] {
      var len := Min(|data|, PAGE_SIZE - off % PAGE_SIZE);
      var d, e := data[..len], data[len..];
      var m1 := Overwrite(m, q + off / PAGE_SIZE, off % PAGE_SIZE, d);
      OverwriteByte(m, q, off, d, a);
      PhysWriteByte(m1, q, off + len, e, a);
      BothParts(ByteIn(m, q, a), ByteIn(m1, q, a), ByteIn(PhysWrite(m1, q, off + len, e), q, a), off, d, e, a);
      assert d + e == data;
    }
  }

  /** Two writes, one behind the other, are one. */
  lemma BothParts(x: Option<Byte>, y: Option<Byte>, z: Option<Byte>, off: nat, d: seq<Byte>, e: seq<Byte>, a: nat)
    requires y == if x.Some? && off <= a < off + |d| then Some(d[a - off]) else x
    requires z == if y.Some? && off + |d| <= a < off + |d| + |e| then Some(e[a - off - |d|]) else y
    ensures z == if x.Some? && off <= a < off + |d + e| then Some((d + e)[a - off]) else x
  {
  }

  /** A write that ends within frame `q` is one overwrite of that frame. */
  lemma PhysWriteInFrame(m: Memory, q: nat, off: nat, data: seq<Byte>)
    requires off + |data| <= PAGE_SIZE && data != []
    ensures PhysWrite(m, q, off, data) == Overwrite(m, q, off, data)
  {
    hide WithBytes;
    assert off / PAGE_SIZE == 0 && off % PAGE_SIZE == off;
    assert data[..|data|] == data && data[|data|..] == [];
  }

  /** Word `i` of a frame holds bytes 8 * i to 8 * i + 7. */
  lemma {:induction false} BytesOfWord(cells: seq<Cell>, i: nat)
    requires i < |cells|
    ensures BytesOf(cells)[8 * i..8 * i + 8] == CellBytes(cells[i])
  {
    hide CellBytes;
    if i > 0 {
      BytesOfWord(cells[1..], i - 1);
      var rest := BytesOf(cells[1..]);
      assert BytesOf(cells)[8 * i..8 * i + 8] == rest[8 * (i - 1)..8 * (i - 1) + 8];
    }
  }

  // ---- The zero frame ----

  lemma {:induction false} PackedFalse(bits: seq<bool>)
    requires forall i | 0 <= i < |bits| :: !bits[i]
    ensures Packed(bits, 0) == 0
  {
    if bits != [] {
      PackedFalse(bits[1..]);
    }
  }

  lemma {:induction false} LowBytesOfZero(n: nat)
    ensures forall k | 0 <= k < n :: LowBytes(0, n)[k] == 0
  {
    if n > 0 {
      LowBytesOfZero(n - 1);
    }
  }

  lemma ZeroCellBytes()
    ensures forall k | 0 <= k < 8 :: CellBytes(ZERO_CELL)[k] == 0
  {
    PackedFalse(FlagSeq(NO_FLAGS));
    LowBytesOfZero(8);
  }

  lemma {:induction false} ZeroBytes(cells: seq<Cell>)
    requires forall i | 0 <= i < |cells| :: cells[i] == ZERO_CELL
    ensures forall o | 0 <= o < 8 * |cells| :: BytesOf(cells)[o] == 0
  {
    if cells != [] {
      ZeroCellBytes();
      ZeroBytes(cells[1..]);
    }
  }
}

/**
 The initial user stack (src/proc.rs, build_stack): argc, the pointer vectors, the auxiliary
 vector, the strings and the random bytes, from the start of the top stack page on.
 */
module UserStack {
  import opened Base
  import opened Pte
  import opened Sv39
  import opened FrameBytes
  import opened PhysMem
  import opened UserRead

  type Str = seq<Byte>

  const SLOT: nat := 0x100

  /** Where string number `t` of argv followed by envp goes. */
  function Slot(t: nat): nat {
    0x400 + t * SLOT
  }

  /** The pointers to strings number `lo` up to `hi`. */
  function Pointers(lo: nat, hi: nat): (p: seq<nat>)
    requires lo <= hi
    ensures |p| == hi - lo
    ensures forall i | 0 <= i < |p| :: p[i] == STACK_TOP + Slot(lo + i)
    decreases hi - lo
  {
    if lo == hi then [] else [STACK_TOP + Slot(lo)] + Pointers(lo + 1, hi)
  }

  /** AT_PAGESZ, AT_PHDR, AT_PHENT, AT_PHNUM, AT_ENTRY, AT_RANDOM, AT_CLKTCK and AT_NULL. */
  function Auxv(phdr: Word, phent: Word, phnum: Word, entry: Word): seq<nat> {
    [6, 4096, 3, phdr, 4, phent, 5, phnum, 9, entry, 25, STACK_TOP + 0x200, 17, 100, 0, 0]
  }

  /** The words of the stack from `sp` up. */
  function Words(argc: nat, envc: nat, auxv: seq<nat>): seq<nat> {
    [argc] + Pointers(0, argc) + [0] + Pointers(argc, argc + envc) + [0] + auxv
  }

  /** Every string ends, with its NUL, inside the page. */
  predicate InPage(strs: seq<Str>) {
    forall t | 0 <= t < |strs| :: Slot(t) + |strs[t]| + 1 <= PAGE_SIZE
  }

  /** Every string but the last ends in its own slot, or goes on with exactly the string of the next slot. */
  predicate Joined(strs: seq<Str>) {
    forall t | 0 <= t < |strs| - 1 :: |strs[t]| < SLOT || strs[t][SLOT..] == strs[t + 1]
  }

  /** What is left at the slot of string `t`: a string that is too long for its slot has its end overwritten
      by the next one. */
  function Shown(strs: seq<Str>, t: nat): Str
    requires t < |strs|
    decreases |strs| - t
  {
    if t == |strs| - 1 || |strs[t]| < SLOT then strs[t] else strs[t][..SLOT] + Shown(strs, t + 1)
  }

  function AllShown(strs: seq<Str>): (shown: seq<Str>)
    ensures |shown| == |strs| && forall t | 0 <= t < |strs| :: shown[t] == Shown(strs, t)
  {
    seq(|strs|, t requires 0 <= t < |strs| => Shown(strs, t))
  }

  lemma {:induction false} JoinedIsShown(strs: seq<Str>, t: nat)
    requires Joined(strs) && t < |strs|
    ensures Shown(strs, t) == strs[t]
    decreases |strs| - t
  {
    if t < |strs| - 1 && |strs[t]| >= SLOT {
      JoinedIsShown(strs, t + 1);
      assert strs[t] == strs[t][..SLOT] + strs[t][SLOT..];
    }
  }

  /** Every slot is left with its own string exactly if the strings are joined so. */
  lemma ShownExactly(strs: seq<Str>)
    ensures AllShown(strs) == strs <==> Joined(strs)
  {
    if Joined(strs) {
      forall t | 0 <= t < |strs| ensures Shown(strs, t) == strs[t] {
        JoinedIsShown(strs, t);
      }
    }
    if AllShown(strs) == strs {
      forall t | 0 <= t < |strs| - 1 && |strs[t]| >= SLOT ensures strs[t][SLOT..] == strs[t + 1] {
        assert AllShown(strs)[t] == strs[t] && AllShown(strs)[t + 1] == strs[t + 1];
        assert (strs[t][..SLOT] + strs[t + 1])[SLOT..] == strs[t + 1];
      }
    }
  }

  /** Thirteen strings never fit. */
  lemma InPageCount(strs: seq<Str>)
    ensures InPage(strs) ==> |strs| <= 12
  {
    if |strs| > 12 {
      assert Slot(12) + |strs[12]| + 1 > PAGE_SIZE;
    }
  }

  /** The bytes hold `words` from offset 0 up. */
  ghost predicate WordsAt(bytes: seq<Byte>, words: seq<nat>, count: nat) {
    count <= |words| && forall j | 0 <= j < count :: WordAt(bytes, j, words[j])
  }

  ghost predicate WordAt(bytes: seq<Byte>, j: nat, w: nat) {
    8 * j + 8 <= |bytes| && bytes[8 * j..8 * j + 8] == LowBytes(w, 8)
  }

  /** The bytes hold `s` and a NUL at `off`. */
  ghost predicate StringAt(bytes: seq<Byte>, off: nat, s: Str) {
    off + |s| < |bytes| && bytes[off..off + |s|] == s && bytes[off + |s|] == 0
  }

  ghost predicate StringsAt(bytes: seq<Byte>, strs: seq<Str>, count: nat) {
    count <= |strs| && forall t | 0 <= t < count :: StringAt(bytes, Slot(t), strs[t])
  }

  /** Only bytes of [lo, hi) differ. */
  ghost predicate SameOutside(b: seq<Byte>, b': seq<Byte>, lo: nat, hi: nat) {
    |b'| == |b| && forall o | 0 <= o < |b| && !(lo <= o < hi) :: b'[o] == b[o]
  }

  lemma WordsKept(b: seq<Byte>, b': seq<Byte>, words: seq<nat>, count: nat, lo: nat, hi: nat)
    requires WordsAt(b, words, count) && SameOutside(b, b', lo, hi) && 8 * count <= lo
    ensures WordsAt(b', words, count)
  {
    forall j | 0 <= j < count ensures WordAt(b', j, words[j]) {
      assert WordAt(b, j, words[j]);
      assert b'[8 * j..8 * j + 8] == b[8 * j..8 * j + 8];
    }
  }

  /** The slot at `off` holds what fits of `s`. */
  ghost predicate HeadAt(bytes: seq<Byte>, off: nat, s: Str) {
    if |s| < SLOT then StringAt(bytes, off, s)
    else off + SLOT <= |bytes| && bytes[off..off + SLOT] == s[..SLOT]
  }

  ghost predicate HeadsAt(bytes: seq<Byte>, strs: seq<Str>, count: nat) {
    count <= |strs| && forall t | 0 <= t < count :: HeadAt(bytes, Slot(t), strs[t])
  }

  lemma StringKept(b: seq<Byte>, b': seq<Byte>, off: nat, s: Str, lo: nat, hi: nat)
    requires StringAt(b, off, s) && SameOutside(b, b', lo, hi) && (off + |s| < lo || hi <= off)
    ensures StringAt(b', off, s)
  {
    assert b'[off..off + |s|] == b[off..off + |s|];
  }

  lemma HeadsKept(b: seq<Byte>, b': seq<Byte>, strs: seq<Str>, count: nat, lo: nat, hi: nat)
    requires HeadsAt(b, strs, count) && SameOutside(b, b', lo, hi)
    requires Slot(count) <= lo || hi <= Slot(0)
    ensures HeadsAt(b', strs, count)
  {
    forall t | 0 <= t < count ensures HeadAt(b', Slot(t), strs[t]) {
      assert HeadAt(b, Slot(t), strs[t]);
      assert Slot(0) <= Slot(t) && Slot(t) + SLOT <= Slot(count);
      if |strs[t]| < SLOT {
        StringKept(b, b', Slot(t), strs[t], lo, hi);
      } else {
        assert b'[Slot(t)..Slot(t) + SLOT] == b[Slot(t)..Slot(t) + SLOT];
      }
    }
  }

  lemma StringHead(b: seq<Byte>, off: nat, s: Str)
    requires StringAt(b, off, s)
    ensures HeadAt(b, off, s)
  {
    if |s| >= SLOT {
      assert b[off..off + SLOT] == b[off..off + |s|][..SLOT];
    }
  }

  // ---- The image ----

  /** Memory after the first `count` words are written from the start of frame `q` on. */
  function WordsWritten(m: Memory, q: nat, words: seq<nat>, count: nat): (r: Memory)
    requires count <= |words|
    ensures r.Keys == m.Keys
  {
    if count == 0 then m
    else PhysWrite(WordsWritten(m, q, words, count - 1), q, 8 * (count - 1), LowBytes(words[count - 1], 8))
  }

  /** Memory after `s` and then its NUL are written to `off`. */
  function CStringWritten(m: Memory, q: nat, off: nat, s: Str): (r: Memory)
    ensures r.Keys == m.Keys
  {
    PhysWrite(PhysWrite(m, q, off, s), q, off + |s|, [0])
  }

  /** Memory after the first `count` strings are written to their slots, one after the other. */
  function StringsWritten(m: Memory, q: nat, strs: seq<Str>, count: nat): (r: Memory)
    requires count <= |strs|
    ensures r.Keys == m.Keys
  {
    if count == 0 then m
    else CStringWritten(StringsWritten(m, q, strs, count - 1), q, Slot(count - 1), strs[count - 1])
  }

  const RANDOM_BYTES: seq<Byte> :=
    [0xab, 0xab, 0xab, 0xab, 0xab, 0xab, 0xab, 0xab, 0xab, 0xab, 0xab, 0xab, 0xab, 0xab, 0xab, 0xab]

  /** Memory after `build_stack`: no write checks that it stays in the page. */
  function ImageWritten(m: Memory, q: nat, words: seq<nat>, strs: seq<Str>): (r: Memory)
    ensures r.Keys == m.Keys
  {
    PhysWrite(StringsWritten(WordsWritten(m, q, words, |words|), q, strs, |strs|), q, 0x200, RANDOM_BYTES)
  }

  /** A write of the kernel to `off` bytes from the start of frame `q`. */
  method Poke(ph: Phys, q: nat, off: nat, data: seq<Byte>)
    modifies ph`mem
    ensures ph.mem == PhysWrite(old(ph.mem), q, off, data)
  {
    ph.mem := PhysWrite(ph.mem, q, off, data);
  }

  /** The words: argc, both pointer vectors with their nulls, and the auxiliary vector. */
  method PokeWords(ph: Phys, q: nat, words: seq<nat>)
    modifies ph`mem
    ensures ph.mem == WordsWritten(old(ph.mem), q, words, |words|)
  {
    hide PhysWrite, LowBytes;
    var j := 0;
    while j < |words|
      invariant j <= |words| && ph.mem == WordsWritten(old(ph.mem), q, words, j)
    {
      Poke(ph, q, 8 * j, LowBytes(words[j], 8));
      j := j + 1;
    }
  }

  /** The string loops, over argv and then envp. */
  method PokeStrings(ph: Phys, q: nat, strs: seq<Str>)
    modifies ph`mem
    ensures ph.mem == StringsWritten(old(ph.mem), q, strs, |strs|)
  {
    hide PhysWrite;
    var t := 0;
    while t < |strs|
      invariant t <= |strs| && ph.mem == StringsWritten(old(ph.mem), q, strs, t)
    {
      Poke(ph, q, Slot(t), strs[t]);
      Poke(ph, q, Slot(t) + |strs[t]|, [0]);
      t := t + 1;
    }
  }

  /** `build_stack`: writes the whole image from frame `q` on and returns the stack pointer. */
  method BuildStack(ph: Phys, q: nat, argv: seq<Str>, envp: seq<Str>, phdr: Word, phent: Word, phnum: Word, entry: Word)
    returns (sp: nat)
    modifies ph`mem
    ensures sp == STACK_TOP
    ensures ph.mem == ImageWritten(old(ph.mem), q, Words(|argv|, |envp|, Auxv(phdr, phent, phnum, entry)), argv + envp)
  {
    var words := Words(|argv|, |envp|, Auxv(phdr, phent, phnum, entry));
    PokeWords(ph, q, words);
    PokeStrings(ph, q, argv + envp);
    Poke(ph, q, 0x200, RANDOM_BYTES);
    sp := STACK_TOP;
  }

  // ---- The image of arguments that fit ----

  /** `m'` is `m` with another frame `q`. */
  ghost predicate OnlyAt(m: Memory, m': Memory, q: nat) {
    q in m && q in m' && m' == m[q := m'[q]]
  }

  /** A write that stays in the page changes its own range of frame `q` and nothing else. */
  lemma PokedInPage(m: Memory, q: nat, off: nat, data: seq<Byte>)
    requires q in m && off + |data| <= PAGE_SIZE
    ensures var m' := PhysWrite(m, q, off, data);
            && OnlyAt(m, m', q)
            && SameOutside(BytesOf(m[q]), BytesOf(m'[q]), off, off + |data|)
            && BytesOf(m'[q])[off..off + |data|] == data
  {
    hide BytesOf, WithBytes, PhysWrite;
    if data == [] {
      PhysWriteStep(m, q, off, data);
    } else {
      PhysWriteInFrame(m, q, off, data);
      WithBytesCopies(m[q], off, data);
    }
  }

  lemma {:induction false} WordsFit(m: Memory, q: nat, words: seq<nat>, count: nat)
    requires q in m && count <= |words| && 8 * count <= PAGE_SIZE
    ensures var m' := WordsWritten(m, q, words, count); OnlyAt(m, m', q) && WordsAt(BytesOf(m'[q]), words, count)
  {
    hide BytesOf, PhysWrite, LowBytes, SameOutside;
    if count > 0 {
      WordsFit(m, q, words, count - 1);
      var j, m1 := count - 1, WordsWritten(m, q, words, count - 1);
      PokedInPage(m1, q, 8 * j, LowBytes(words[j], 8));
      var m2 := WordsWritten(m, q, words, count);
      WordsKept(BytesOf(m1[q]), BytesOf(m2[q]), words, j, 8 * j, 8 * j + 8);
      assert WordAt(BytesOf(m2[q]), j, words[j]);
    }
  }

  lemma StringWritten(b: seq<Byte>, b1: seq<Byte>, b2: seq<Byte>, off: nat, s: Str)
    requires |b| == |b1| == |b2| == PAGE_SIZE && off + |s| + 1 <= PAGE_SIZE
    requires SameOutside(b, b1, off, off + |s|) && b1[off..off + |s|] == s
    requires SameOutside(b1, b2, off + |s|, off + |s| + 1) && b2[off + |s|..off + |s| + 1] == [0]
    ensures SameOutside(b, b2, off, off + |s| + 1) && StringAt(b2, off, s)
  {
    assert b2[off..off + |s|] == b1[off..off + |s|];
    assert b2[off + |s|] == b2[off + |s|..off + |s| + 1][0];
  }

  lemma CStringFits(m: Memory, q: nat, off: nat, s: Str)
    requires q in m && off + |s| + 1 <= PAGE_SIZE
    ensures var m' := CStringWritten(m, q, off, s);
            && OnlyAt(m, m', q)
            && SameOutside(BytesOf(m[q]), BytesOf(m'[q]), off, off + |s| + 1) && StringAt(BytesOf(m'[q]), off, s)
  {
    hide BytesOf, PhysWrite, SameOutside, StringAt;
    PokedInPage(m, q, off, s);
    var m1 := PhysWrite(m, q, off, s);
    PokedInPage(m1, q, off + |s|, [0]);
    var m2 := PhysWrite(m1, q, off + |s|, [0]);
    StringWritten(BytesOf(m[q]), BytesOf(m1[q]), BytesOf(m2[q]), off, s);
  }

  /** The string loops have done the first `t` strings, the last of them stands whole, and the words are still
      there. */
  ghost predicate Built(bytes: seq<Byte>, words: seq<nat>, strs: seq<Str>, t: nat) {
    && WordsAt(bytes, words, |words|)
    && HeadsAt(bytes, strs, t)
    && (t > 0 ==> StringAt(bytes, Slot(t - 1), strs[t - 1]))
  }

  lemma BuiltNext(b: seq<Byte>, b': seq<Byte>, words: seq<nat>, strs: seq<Str>, t: nat)
    requires InPage(strs) && t < |strs| && 8 * |words| <= 0x400 && Built(b, words, strs, t)
    requires SameOutside(b, b', Slot(t), Slot(t) + |strs[t]| + 1) && StringAt(b', Slot(t), strs[t])
    ensures Built(b', words, strs, t + 1)
  {
    hide HeadAt, WordAt, StringAt, SameOutside;
    WordsKept(b, b', words, |words|, Slot(t), Slot(t) + |strs[t]| + 1);
    HeadsKept(b, b', strs, t, Slot(t), Slot(t) + |strs[t]| + 1);
    StringHead(b', Slot(t), strs[t]);
  }

  lemma {:induction false} StringsFit(m: Memory, q: nat, words: seq<nat>, strs: seq<Str>, count: nat)
    requires q in m && count <= |strs| && InPage(strs) && 8 * |words| <= 0x400 && WordsAt(BytesOf(m[q]), words, |words|)
    ensures var m' := StringsWritten(m, q, strs, count); OnlyAt(m, m', q) && Built(BytesOf(m'[q]), words, strs, count)
  {
    hide BytesOf, CStringWritten, SameOutside, StringAt, WordsAt;
    if count > 0 {
      StringsFit(m, q, words, strs, count - 1);
      var t, m1 := count - 1, StringsWritten(m, q, strs, count - 1);
      CStringFits(m1, q, Slot(t), strs[t]);
      BuiltNext(BytesOf(m1[q]), BytesOf(StringsWritten(m, q, strs, count)[q]), words, strs, t);
    }
  }

  lemma BuiltKept(b: seq<Byte>, b': seq<Byte>, words: seq<nat>, strs: seq<Str>)
    requires InPage(strs) && 8 * |words| <= 0x200 && Built(b, words, strs, |strs|)
    requires SameOutside(b, b', 0x200, 0x210)
    ensures Built(b', words, strs, |strs|)
  {
    hide HeadAt, WordAt, StringAt, SameOutside;
    WordsKept(b, b', words, |words|, 0x200, 0x210);
    HeadsKept(b, b', strs, |strs|, 0x200, 0x210);
    if strs != [] {
      StringKept(b, b', Slot(|strs| - 1), strs[|strs| - 1], 0x200, 0x210);
    }
  }

  /** Where every string ends in the page, frame `q` receives the words, of every string what fits its slot, the
      last string whole, and the random bytes; nothing else changes. */
  lemma ImageFits(m: Memory, q: nat, words: seq<nat>, strs: seq<Str>)
    requires q in m && InPage(strs) && |words| == |strs| + 19
    ensures var m' := ImageWritten(m, q, words, strs);
            && OnlyAt(m, m', q)
            && Built(BytesOf(m'[q]), words, strs, |strs|) && BytesOf(m'[q])[0x200..0x210] == RANDOM_BYTES
  {
    hide BytesOf, WordsWritten, StringsWritten, PhysWrite, Built, WordsAt, SameOutside, InPage;
    InPageCount(strs);
    WordsFit(m, q, words, |words|);
    var m1 := WordsWritten(m, q, words, |words|);
    StringsFit(m1, q, words, strs, |strs|);
    var m2 := StringsWritten(m1, q, strs, |strs|);
    PokedInPage(m2, q, 0x200, RANDOM_BYTES);
    BuiltKept(BytesOf(m2[q]), BytesOf(ImageWritten(m, q, words, strs)[q]), words, strs);
  }

  // ---- The image of arguments that do not ----

  /** The offset of the last NUL. */
  function LastEnd(strs: seq<Str>, count: nat): nat
    requires count <= |strs|
  {
    if count == 0 then 0
    else Max(LastEnd(strs, count - 1), Slot(count - 1) + |strs[count - 1]|)
  }

  lemma {:induction false} LastEndIs(strs: seq<Str>, count: nat, t: nat)
    requires t < count <= |strs|
    ensures Slot(t) + |strs[t]| <= LastEnd(strs, count)
  {
    if t < count - 1 {
      LastEndIs(strs, count - 1, t);
    }
  }

  lemma CStringByte(m: Memory, q: nat, off: nat, s: Str, a: nat)
    ensures ByteIn(CStringWritten(m, q, off, s), q, a) ==
              if ByteIn(m, q, a).Some? && off <= a <= off + |s| then Some((s + [0])[a - off]) else ByteIn(m, q, a)
  {
    hide ByteIn, PhysWrite;
    PhysWriteByte(m, q, off, s, a);
    PhysWriteByte(PhysWrite(m, q, off, s), q, off + |s|, [0], a);
  }

  /** Whatever the strings, the byte at the last NUL is zero afterwards. */
  lemma {:induction false} LastNulStands(m: Memory, q: nat, strs: seq<Str>, count: nat)
    requires 0 < count <= |strs| && ByteIn(m, q, LastEnd(strs, count)).Some?
    ensures ByteIn(StringsWritten(m, q, strs, count), q, LastEnd(strs, count)) == Some(0)
  {
    hide CStringWritten, ByteIn;
    var a, m1 := LastEnd(strs, count), StringsWritten(m, q, strs, count - 1);
    SameFrames(m, m1, q, a);
    CStringByte(m1, q, Slot(count - 1), strs[count - 1], a);
    if a > Slot(count - 1) + |strs[count - 1]| {
      LastNulStands(m, q, strs, count - 1);
    }
  }

  /** The last string stands as it was given. */
  lemma LastStringStands(m: Memory, q: nat, words: seq<nat>, strs: seq<Str>, i: nat)
    requires strs != [] && i <= |strs[|strs| - 1]|
    ensures var a := Slot(|strs| - 1) + i;
            ByteIn(m, q, a).Some? ==>
              ByteIn(ImageWritten(m, q, words, strs), q, a) == Some((strs[|strs| - 1] + [0])[i])
  {
    hide PhysWrite, CStringWritten, WordsWritten, ByteIn;
    var n := |strs|;
    var m1 := WordsWritten(m, q, words, |words|);
    SameFrames(m, StringsWritten(m1, q, strs, n - 1), q, Slot(n - 1) + i);
    CStringByte(StringsWritten(m1, q, strs, n - 1), q, Slot(n - 1), strs[n - 1], Slot(n - 1) + i);
    PhysWriteByte(StringsWritten(m1, q, strs, n), q, 0x200, RANDOM_BYTES, Slot(n - 1) + i);
  }

  /** A frame all of whose bytes are 0xff. */
  function Ones(): (f: Frame) {
    var bytes: seq<Byte> := seq(PAGE_SIZE, _ => 0xff);
    CellsOf(bytes)
  }

  lemma OnesByte(o: nat)
    requires o < PAGE_SIZE
    ensures BytesOf(Ones())[o] == 0xff
  {
    hide BytesOf, CellsOf;
    var bytes: seq<Byte> := seq(PAGE_SIZE, _ => 0xff);
    BytesOfCellsOf(bytes);
  }

  /** The image leaves every frame of `m` but `q` as it is. */
  ghost predicate StaysIn(m: Memory, q: nat, words: seq<nat>, strs: seq<Str>) {
    forall p | p in m && p != q :: ImageWritten(m, q, words, strs)[p] == m[p]
  }

  /** Writing the image is confined to the stack page, whatever memory holds, exactly if every string
      with its NUL ends inside the page. */
  lemma StaysInExactly(q: nat, words: seq<nat>, strs: seq<Str>)
    requires |words| == |strs| + 19
    ensures (forall m | q in m :: StaysIn(m, q, words, strs)) <==> InPage(strs)
  {
    hide ImageWritten, BytesOf, Ones, Built;
    if InPage(strs) {
      forall m | q in m ensures StaysIn(m, q, words, strs) {
        ImageFits(m, q, words, strs);
      }
    } else {
      var t :| 0 <= t < |strs| && Slot(t) + |strs[t]| + 1 > PAGE_SIZE;
      LastEndIs(strs, |strs|, t);
      var a := LastEnd(strs, |strs|);
      var p := q + a / PAGE_SIZE;
      var m: Memory := map[q := Ones(), p := Ones()];
      ImageSpills(m, q, words, strs);
      OnesByte(a % PAGE_SIZE);
      assert ImageWritten(m, q, words, strs)[p] != m[p];
      assert !StaysIn(m, q, words, strs);
    }
  }

  lemma SameFrames(m: Memory, m': Memory, q: nat, a: nat)
    requires m'.Keys == m.Keys
    ensures ByteIn(m', q, a).Some? <==> ByteIn(m, q, a).Some?
  {
  }

  lemma ImageSpills(m: Memory, q: nat, words: seq<nat>, strs: seq<Str>)
    requires strs != [] && ByteIn(m, q, LastEnd(strs, |strs|)).Some?
    ensures ByteIn(ImageWritten(m, q, words, strs), q, LastEnd(strs, |strs|)) == Some(0)
  {
    hide PhysWrite, StringsWritten, WordsWritten, ByteIn;
    var m1, a := WordsWritten(m, q, words, |words|), LastEnd(strs, |strs|);
    SameFrames(m, m1, q, a);
    LastEndIs(strs, |strs|, 0);
    LastNulStands(m1, q, strs, |strs|);
    PhysWriteByte(StringsWritten(m1, q, strs, |strs|), q, 0x200, RANDOM_BYTES, a);
  }

  // ---- Reading the stack back ----

  lemma {:induction false} PhysBytesInPage(m: Memory, q: nat, b: seq<Byte>, o: nat, n: nat)
    requires q in m && b == BytesOf(m[q]) && o + n <= PAGE_SIZE
    ensures PhysBytes(m, q * PAGE_SIZE + o, n) == b[o..o + n]
    decreases n
  {
    if n > 0 {
      assert PhysByte(m, q * PAGE_SIZE + o) == b[o] by {
        PhysByteInPage(m, q, b, o);
      }
      PhysBytesInPage(m, q, b, o + 1, n - 1);
      assert b[o..o + n] == [b[o]] + b[o + 1..o + n];
    }
  }

  /** The address STACK_TOP + o lies `o` bytes into the top stack page. */
  lemma StackAddress(m: Memory, root: nat, q: nat, flags: Flags, o: nat)
    requires Lookup(m, root, Indices(STACK_TOP / PAGE_SIZE)) == Some(Leaf(q, flags)) && o < PAGE_SIZE
    ensures Translated(m, root, STACK_TOP + o) == Some(q * PAGE_SIZE + o)
  {
    assert (STACK_TOP + o) / PAGE_SIZE == STACK_TOP / PAGE_SIZE && (STACK_TOP + o) % PAGE_SIZE == o;
  }

  /** The top stack page `b` as seen from `root`. */
  ghost predicate StackPage(m: Memory, root: nat, q: nat, b: seq<Byte>) {
    && Lookup(m, root, Indices(STACK_TOP / PAGE_SIZE)).Some?
    && Lookup(m, root, Indices(STACK_TOP / PAGE_SIZE)).value.ppn == q
    && q in m && b == BytesOf(m[q])
  }

  /** The bytes `b` are what a process reads from STACK_TOP up. */
  ghost predicate Shows(view: View, b: seq<Byte>) {
    && |b| == PAGE_SIZE
    && (forall o | 0 <= o < PAGE_SIZE :: ShowsByteAt(view, b, o))
    && (forall j | 0 <= j < 512 :: ShowsWordAt(view, b, j))
  }

  ghost predicate ShowsByteAt(view: View, b: seq<Byte>, o: nat)
    requires o < |b|
  {
    view.byte(STACK_TOP + o) == Some(b[o])
  }

  ghost predicate ShowsWordAt(view: View, b: seq<Byte>, j: nat)
    requires 8 * j + 8 <= |b|
  {
    view.word(STACK_TOP + 8 * j) == Some(WordOf(b[8 * j..8 * j + 8]))
  }

  lemma StackByte(m: Memory, root: nat, q: nat, b: seq<Byte>, o: nat)
    requires StackPage(m, root, q, b) && o < PAGE_SIZE
    ensures ReadByte(m, root, STACK_TOP + o) == Some(b[o])
  {
    StackAddress(m, root, q, Lookup(m, root, Indices(STACK_TOP / PAGE_SIZE)).value.flags, o);
    PhysByteInPage(m, q, b, o);
  }

  lemma StackWord(m: Memory, root: nat, q: nat, b: seq<Byte>, j: nat)
    requires StackPage(m, root, q, b) && j < 512
    ensures ReadWord(m, root, STACK_TOP + 8 * j) == Some(WordOf(b[8 * j..8 * j + 8]))
  {
    hide Lookup, WordOf, BytesOf, Indices, PhysByte;
    StackAddress(m, root, q, Lookup(m, root, Indices(STACK_TOP / PAGE_SIZE)).value.flags, 8 * j);
    PhysBytesInPage(m, q, b, 8 * j, 8);
  }

  /** A process reads its top stack page from STACK_TOP up. */
  lemma StackPageShows(m: Memory, root: nat, q: nat, b: seq<Byte>)
    requires StackPage(m, root, q, b)
    ensures Shows(ViewOf(m, root), b)
  {
    var view := ViewOf(m, root);
    assert forall va :: view.byte(va) == ReadByte(m, root, va);
    assert forall va :: view.word(va) == ReadWord(m, root, va);
    forall o | 0 <= o < PAGE_SIZE ensures ShowsByteAt(view, b, o) {
      StackByte(m, root, q, b, o);
    }
    forall j | 0 <= j < 512 ensures ShowsWordAt(view, b, j) {
      StackWord(m, root, q, b, j);
    }
  }

  lemma EightBytes(w: Word)
    ensures WordOf(LowBytes(w, 8)) == w
  {
    Pow256At();
    WordOfLowBytes(w, 8);
  }

  lemma ShowsWord(view: View, b: seq<Byte>, words: seq<nat>, j: nat)
    requires Shows(view, b) && WordsAt(b, words, |words|) && j < |words| && words[j] < WORD_LIMIT
    ensures view.word(STACK_TOP + 8 * j) == Some(words[j])
  {
    assert WordAt(b, j, words[j]);
    assert ShowsWordAt(view, b, j);
    EightBytes(words[j]);
  }

  lemma ShowsString(view: View, b: seq<Byte>, off: nat, s: Str)
    requires Shows(view, b) && StringAt(b, off, s)
    ensures StrAt(view, STACK_TOP + off, s)
  {
    forall k | 0 <= k < |s| ensures view.byte(STACK_TOP + off + k) == Some(s[k]) {
      assert b[off..off + |s|][k] == b[off + k];
      assert ShowsByteAt(view, b, off + k);
    }
    assert ShowsByteAt(view, b, off + |s|);
  }

  /** The words and, each at its slot, the strings. */
  ghost predicate Holds(b: seq<Byte>, words: seq<nat>, strs: seq<Str>) {
    WordsAt(b, words, |words|) && StringsAt(b, strs, |strs|)
  }

  lemma ShowsPointer(view: View, b: seq<Byte>, words: seq<nat>, strs: seq<Str>, j: nat, t: nat, addr: nat, s: Str)
    requires Shows(view, b) && Holds(b, words, strs)
    requires InPage(strs) && t < |strs| && j < |words| && words[j] == STACK_TOP + Slot(t)
    requires addr == STACK_TOP + 8 * j && s == strs[t]
    ensures PointerTo(view, addr, s)
  {
    InPageCount(strs);
    ShowsWord(view, b, words, j);
    assert StringAt(b, Slot(t), strs[t]);
    ShowsString(view, b, Slot(t), strs[t]);
  }

  /** The pointers from word `at` up to `n` strings from number `lo` on, and the null after them,
      read as the vector of those strings. */
  lemma ShowsVector(view: View, b: seq<Byte>, words: seq<nat>, strs: seq<Str>, at: nat, lo: nat, n: nat,
                    base: nat, part: seq<Str>)
    requires Shows(view, b) && Holds(b, words, strs)
    requires InPage(strs) && lo + n <= |strs| && at + n < |words|
    requires words[at + n] == 0 && words[at..at + n] == Pointers(lo, lo + n)
    requires base == STACK_TOP + 8 * at && part == strs[lo..lo + n]
    ensures VectorAt(view, base, part)
  {
    hide Shows, InPage, PointerTo, StringsAt, WordsAt;
    forall i | 0 <= i < n ensures PointerTo(view, base + i * 8, part[i]) {
      assert words[at + i] == words[at..at + n][i] == STACK_TOP + Slot(lo + i);
      ShowsPointer(view, b, words, strs, at + i, lo + i, base + i * 8, part[i]);
    }
    assert view.word(base + n * 8) == Some(0) by {
      assert base + n * 8 == STACK_TOP + 8 * (at + n);
      ShowsWord(view, b, words, at + n);
    }
  }

  /** Where the parts of the words are. */
  ghost predicate LaidOut(words: seq<nat>, argc: nat, envc: nat) {
    && |words| >= argc + envc + 3 && words[0] == argc
    && words[1..1 + argc] == Pointers(0, argc) && words[1 + argc] == 0
    && words[argc + 2..argc + 2 + envc] == Pointers(argc, argc + envc) && words[argc + 2 + envc] == 0
  }

  lemma WordsLaidOut(argc: nat, envc: nat, auxv: seq<nat>)
    ensures LaidOut(Words(argc, envc, auxv), argc, envc)
    ensures Words(argc, envc, auxv)[argc + envc + 3..] == auxv
  {
  }

  lemma ArgvComesBack(view: View, b: seq<Byte>, words: seq<nat>, argv: seq<Str>, envp: seq<Str>, strs: seq<Str>)
    requires Shows(view, b) && Holds(b, words, strs) && LaidOut(words, |argv|, |envp|)
    requires strs == argv + envp && InPage(strs)
    requires forall s | s in strs :: NulFree(s) && Ascii(s)
    ensures VectorFrom(view, STACK_TOP + 8, 0, []) == argv
  {
    hide Shows, Holds, InPage, VectorFrom, NulFree, Ascii, Pointers;
    assert strs[0..|argv|] == argv;
    PartComesBack(view, b, words, strs, 1, 0, |argv|, STACK_TOP + 8, argv);
  }

  lemma EnvpComesBack(view: View, b: seq<Byte>, words: seq<nat>, argv: seq<Str>, envp: seq<Str>, strs: seq<Str>)
    requires Shows(view, b) && Holds(b, words, strs) && LaidOut(words, |argv|, |envp|)
    requires strs == argv + envp && InPage(strs)
    requires forall s | s in strs :: NulFree(s) && Ascii(s)
    ensures VectorFrom(view, STACK_TOP + 8 * (|argv| + 2), 0, []) == envp
  {
    hide Shows, Holds, InPage, VectorFrom, NulFree, Ascii, Pointers;
    assert strs[|argv|..|argv| + |envp|] == envp;
    PartComesBack(view, b, words, strs, |argv| + 2, |argv|, |envp|, STACK_TOP + 8 * (|argv| + 2), envp);
  }

  lemma VectorsComeBack(view: View, b: seq<Byte>, words: seq<nat>, argv: seq<Str>, envp: seq<Str>, strs: seq<Str>)
    requires Shows(view, b) && Holds(b, words, strs) && LaidOut(words, |argv|, |envp|)
    requires strs == argv + envp && InPage(strs)
    requires forall s | s in strs :: NulFree(s) && Ascii(s)
    ensures view.word(STACK_TOP) == Some(|argv|)
    ensures VectorFrom(view, STACK_TOP + 8, 0, []) == argv
    ensures VectorFrom(view, STACK_TOP + 8 * (|argv| + 2), 0, []) == envp
  {
    hide Shows, WordsAt, StringsAt, InPage, VectorFrom, NulFree, Ascii, Pointers;
    InPageCount(strs);
    ShowsWord(view, b, words, 0);
    ArgvComesBack(view, b, words, argv, envp, strs);
    EnvpComesBack(view, b, words, argv, envp, strs);
  }

  lemma PartComesBack(view: View, b: seq<Byte>, words: seq<nat>, strs: seq<Str>, at: nat, lo: nat, n: nat,
                      base: nat, part: seq<Str>)
    requires Shows(view, b) && Holds(b, words, strs)
    requires InPage(strs) && lo + n <= |strs| && at + n < |words|
    requires words[at + n] == 0 && words[at..at + n] == Pointers(lo, lo + n)
    requires base == STACK_TOP + 8 * at && part == strs[lo..lo + n]
    requires forall s | s in strs :: NulFree(s) && Ascii(s)
    ensures VectorFrom(view, base, 0, []) == part
  {
    hide Shows, Holds, InPage, VectorFrom, NulFree, Ascii, Pointers;
    ShowsVector(view, b, words, strs, at, lo, n, base, part);
    VectorReadsBack(view, base, part, strs);
  }

  // ---- What comes back ----

  /** The strings left in the slots end where the last of their parts does. */
  lemma {:induction false} ShownAt(b: seq<Byte>, words: seq<nat>, strs: seq<Str>, t: nat)
    requires Built(b, words, strs, |strs|) && InPage(strs) && t < |strs|
    ensures StringAt(b, Slot(t), Shown(strs, t)) && Slot(t) + |Shown(strs, t)| + 1 <= PAGE_SIZE
    decreases |strs| - t
  {
    hide StringAt, WordsAt;
    assert HeadAt(b, Slot(t), strs[t]);
    if t < |strs| - 1 && |strs[t]| >= SLOT {
      ShownAt(b, words, strs, t + 1);
      assert Slot(t + 1) == Slot(t) + SLOT;
      GoesOn(b, Slot(t), strs[t], Shown(strs, t + 1));
    }
  }

  /** A slot that is full is read on into the next one. */
  lemma GoesOn(b: seq<Byte>, off: nat, s: Str, rest: Str)
    requires |s| >= SLOT && HeadAt(b, off, s) && StringAt(b, off + SLOT, rest)
    ensures StringAt(b, off, s[..SLOT] + rest)
  {
    assert b[off..off + SLOT + |rest|] == b[off..off + SLOT] + b[off + SLOT..off + SLOT + |rest|];
  }

  lemma {:induction false} ShownIsText(strs: seq<Str>, t: nat)
    requires t < |strs| && forall s | s in strs :: NulFree(s) && Ascii(s)
    ensures NulFree(Shown(strs, t)) && Ascii(Shown(strs, t))
    decreases |strs| - t
  {
    assert strs[t] in strs;
    if t < |strs| - 1 && |strs[t]| >= SLOT {
      ShownIsText(strs, t + 1);
    }
  }

  lemma BuiltHolds(b: seq<Byte>, words: seq<nat>, strs: seq<Str>)
    requires Built(b, words, strs, |strs|) && InPage(strs) && forall s | s in strs :: NulFree(s) && Ascii(s)
    ensures Holds(b, words, AllShown(strs)) && InPage(AllShown(strs))
    ensures forall s | s in AllShown(strs) :: NulFree(s) && Ascii(s)
  {
    hide StringAt, NulFree, Ascii, Shown, HeadsAt, WordAt;
    forall t | 0 <= t < |strs|
      ensures StringAt(b, Slot(t), AllShown(strs)[t]) && Slot(t) + |AllShown(strs)[t]| + 1 <= PAGE_SIZE
      ensures NulFree(AllShown(strs)[t]) && Ascii(AllShown(strs)[t])
    {
      ShownAt(b, words, strs, t);
      ShownIsText(strs, t);
    }
  }

  /** Reading from the stack pointer with the loops of `sys_execve` gives, for NUL-free ASCII strings that end in the
      page, the strings that were left in the slots. */
  lemma {:induction false} ArgumentsReadBack(m: Memory, root: nat, q: nat, b: seq<Byte>, argv: seq<Str>, envp: seq<Str>,
                                             auxv: seq<nat>)
    requires StackPage(m, root, q, b) && Built(b, Words(|argv|, |envp|, auxv), argv + envp, |argv + envp|)
    requires InPage(argv + envp) && forall s | s in argv + envp :: NulFree(s) && Ascii(s)
    ensures ViewOf(m, root).word(STACK_TOP) == Some(|argv|)
    ensures VectorFrom(ViewOf(m, root), STACK_TOP + 8, 0, []) == AllShown(argv + envp)[..|argv|]
    ensures VectorFrom(ViewOf(m, root), STACK_TOP + 8 * (|argv| + 2), 0, []) == AllShown(argv + envp)[|argv|..]
  {
    hide Built, Holds, Shows, LaidOut, InPage, NulFree, Ascii, VectorFrom, ViewOf, StackPage, Words;
    var shown := AllShown(argv + envp);
    StackPageShows(m, root, q, b);
    WordsLaidOut(|argv|, |envp|, auxv);
    BuiltHolds(b, Words(|argv|, |envp|, auxv), argv + envp);
    assert shown == shown[..|argv|] + shown[|argv|..];
    VectorsComeBack(ViewOf(m, root), b, Words(|argv|, |envp|, auxv), shown[..|argv|], shown[|argv|..], shown);
  }

  /** A word of the auxiliary vector is read behind both vectors, and the random bytes at their place. */
  lemma AuxvWordReadsBack(m: Memory, root: nat, q: nat, b: seq<Byte>, argv: seq<Str>, envp: seq<Str>, auxv: seq<nat>, i: nat)
    requires StackPage(m, root, q, b) && Built(b, Words(|argv|, |envp|, auxv), argv + envp, |argv + envp|)
    requires i < |auxv| && auxv[i] < WORD_LIMIT
    ensures ViewOf(m, root).word(STACK_TOP + 8 * (|argv| + |envp| + 3 + i)) == Some(auxv[i])
  {
    hide Shows, HeadsAt, StringAt, WordsAt, StackPage, ViewOf, Words;
    StackPageShows(m, root, q, b);
    WordsLaidOut(|argv|, |envp|, auxv);
    ShowsWord(ViewOf(m, root), b, Words(|argv|, |envp|, auxv), |argv| + |envp| + 3 + i);
  }

  /** argv and envp come back exactly if every string but the last fits its slot or goes on with the next one. */
  lemma {:induction false} ArgumentsRoundTrip(m: Memory, root: nat, q: nat, b: seq<Byte>, argv: seq<Str>, envp: seq<Str>,
                                              auxv: seq<nat>)
    requires StackPage(m, root, q, b) && Built(b, Words(|argv|, |envp|, auxv), argv + envp, |argv + envp|)
    requires InPage(argv + envp) && forall s | s in argv + envp :: NulFree(s) && Ascii(s)
    ensures ViewOf(m, root).word(STACK_TOP) == Some(|argv|)
    ensures (&& VectorFrom(ViewOf(m, root), STACK_TOP + 8, 0, []) == argv
             && VectorFrom(ViewOf(m, root), STACK_TOP + 8 * (|argv| + 2), 0, []) == envp) <==>
              Joined(argv + envp)
  {
    hide Built, InPage, NulFree, Ascii, VectorFrom, ViewOf, StackPage, Words, Joined;
    ArgumentsReadBack(m, root, q, b, argv, envp, auxv);
    ShownExactly(argv + envp);
    var strs, shown := argv + envp, AllShown(argv + envp);
    assert strs[..|argv|] == argv && strs[|argv|..] == envp;
    assert shown == shown[..|argv|] + shown[|argv|..];
  }

  /** An argument of 300 bytes comes back with its end replaced by the environment. */
  lemma LongArgumentIsCut(m: Memory, root: nat, q: nat, b: seq<Byte>, s: Str, auxv: seq<nat>)
    requires |s| == 300 && (forall k | 0 <= k < 300 :: s[k] == 0x61)
    requires StackPage(m, root, q, b) && Built(b, Words(1, 1, auxv), [s, [0x62]], 2)
    ensures VectorFrom(ViewOf(m, root), STACK_TOP + 8, 0, []) == [s[..SLOT] + [0x62]] != [s]
  {
    hide Built, VectorFrom, ViewOf, StackPage, Words;
    var strs: seq<Str> := [s] + [[0x62]];
    assert strs == [s, [0x62]] && InPage(strs) && forall x | x in strs :: NulFree(x) && Ascii(x);
    ArgumentsReadBack(m, root, q, b, [s], [[0x62]], auxv);
    assert Shown(strs, 1) == [0x62] && Shown(strs, 0) == s[..SLOT] + Shown(strs, 1);
    assert AllShown(strs)[..1] == [Shown(strs, 0)];
    assert |[s[..SLOT] + [0x62]][0]| != |[s][0]|;
  }

  lemma VectorReadsBack(view: View, base: nat, part: seq<Str>, strs: seq<Str>)
    requires VectorAt(view, base, part) && |part| <= |strs| && InPage(strs)
    requires forall s | s in part :: s in strs
    requires forall s | s in strs :: NulFree(s) && Ascii(s)
    ensures VectorFrom(view, base, 0, []) == part
  {
    InPageCount(strs);
    forall j | 0 <= j < |part| ensures NulFree(part[j]) && Ascii(part[j]) && |part[j]| <= 4096 {
      assert part[j] in strs;
      var t :| 0 <= t < |strs| && strs[t] == part[j];
      assert Slot(t) + |strs[t]| + 1 <= PAGE_SIZE;
    }
    assert part[..0] == [];
    VectorFromReads(view, base, part, 0);
  }
}

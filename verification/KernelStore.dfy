/**
 Stores of the kernel to an address that a program gave it, such as the status word of sys_wait4
 (src/syscall.rs). The kernel's own pages are mapped writable in every table, so these stores can
 reach any frame.
 */
module KernelStore {
  import opened Base
  import opened Sv39
  import opened FrameBytes
  import opened AddressSpace
  import opened UserRead
  import opened UserStore

  /** Through every table the kernel's store to an address of physical memory reaches that frame. */
  lemma ReachesAnyFrame(m: Memory, own: Owners, root: nat, va: Word)
    requires TreesOk(m, own) && IsRoot(own, root) && Standard(m, root)
    requires 0x8_0000 <= va / PAGE_SIZE < RAM_PAGES
    ensures StoreFrame(m, root, va, Supervisor) == Some(va / PAGE_SIZE)
  {
    hide Lookup, Indices, Number, TreesOk;
    var n := va / PAGE_SIZE;
    StoreFrameIs(m, own, root, va, Supervisor);
    NumberOfIndices(n);
    assert StandardAt(m, root, Indices(n));
  }

  /** Whoever gives the kernel the physical address of a page of another process makes it overwrite
      that page: the other process then reads the stored bytes. */
  lemma HitsOtherProcess(m: Memory, own: Owners, root: nat, other: nat, v: Vpn, data: seq<Byte>, i: nat)
    requires TreesOk(m, own) && Private(m, own) && IsRoot(own, root) && IsRoot(own, other) && Standard(m, root)
    requires UserLeaf(m, other, v) && 0x8_0000 <= Lookup(m, other, v).value.ppn < RAM_PAGES
    requires i < |data| <= PAGE_SIZE
    ensures var (m', ok) := StoreAll(m, root, Lookup(m, other, v).value.ppn * PAGE_SIZE, data, Supervisor);
            ok && ReadByte(m', other, Number(v) * PAGE_SIZE + i) == Some(data[i])
  {
    hide Lookup, Indices, Number, TreesOk, Standard, BytesOf, WithBytes, StoreFrame, StoreAll;
    var p := Lookup(m, other, v).value.ppn;
    var va: Word := p * PAGE_SIZE;
    PageOffset(p, 0);
    ReachesAnyFrame(m, own, root, va);
    StoreOnce(m, root, va, data, Supervisor);
    UserFrame(m, own, other, v);
    var m' := m[p := WithBytes(m[p], 0, data)];
    WithBytesCopies(m[p], 0, data);
    DataWriteOk(m, own, p, WithBytes(m[p], 0, data));
    PhysByteInPage(m', p, BytesOf(m'[p]), i);
    PageOffset(Number(v), i);
    IndicesOfNumber(v);
  }

  lemma UserFrame(m: Memory, own: Owners, root: nat, v: Vpn)
    requires TreesOk(m, own) && Private(m, own) && IsRoot(own, root) && UserLeaf(m, root, v)
    ensures var p := Lookup(m, root, v).value.ppn; p in m && p in own && own[p] == Page(root, v.Path(3))
  {
    hide Lookup;
  }

  /** A store that does not leave its page. */
  lemma StoreOnce(m: Memory, root: nat, va: Word, data: seq<Byte>, mode: Mode)
    requires data != [] && va % PAGE_SIZE + |data| <= PAGE_SIZE
    ensures StoreAll(m, root, va, data, mode) == (ChunkStored(m, root, va, data, mode), CanStore(m, root, va, mode))
  {
    hide StoreFrame, Overwrite;
    assert data[..|data|] == data && data[|data|..] == [];
  }

  // ---- Exactly when such a store spares everything else ----

  /** Nothing changed but user pages of `root`. */
  ghost predicate OnlyOwn(m: Memory, m': Memory, own: Owners, root: nat) {
    m'.Keys == m.Keys && forall p | p in m && m'[p] != m[p] :: p in own && own[p].Page? && own[p].root == root
  }

  /** The store of `data`, on one page, faults, or reaches no memory, or a user page of `root`, or bytes
      that are `data` already. */
  ghost predicate Harmless(m: Memory, own: Owners, root: nat, va: Word, data: seq<Byte>)
    requires va % PAGE_SIZE + |data| <= PAGE_SIZE
  {
    match StoreFrame(m, root, va, Supervisor)
    case None => true
    case Some(p) => HarmlessIn(m, own, root, p, va % PAGE_SIZE, data)
  }

  ghost predicate HarmlessIn(m: Memory, own: Owners, root: nat, p: nat, off: nat, data: seq<Byte>)
    requires off + |data| <= PAGE_SIZE
  {
    || p !in m
    || (p in own && own[p].Page? && own[p].root == root)
    || BytesOf(m[p])[off..off + |data|] == data
  }

  /** Overwriting bytes leaves the frame as it is exactly if they were there. */
  lemma SameBytes(f: Frame, off: nat, data: seq<Byte>)
    requires off + |data| <= PAGE_SIZE
    ensures WithBytes(f, off, data) == f <==> BytesOf(f)[off..off + |data|] == data
  {
    hide BytesOf, CellsOf;
    WithBytesCopies(f, off, data);
    if BytesOf(f)[off..off + |data|] == data {
      assert Splice(BytesOf(f), off, data) == BytesOf(f) by {
        forall o | 0 <= o < PAGE_SIZE ensures Splice(BytesOf(f), off, data)[o] == BytesOf(f)[o] {
          if off <= o < off + |data| {
            assert BytesOf(f)[off..off + |data|][o - off] == BytesOf(f)[o];
          }
        }
      }
      CellsOfBytesOf(f);
    }
    if WithBytes(f, off, data) == f {
      forall o | 0 <= o < |data| ensures BytesOf(f)[off..off + |data|][o] == data[o] {
        assert BytesOf(f)[off + o] == data[o];
      }
    }
  }

  lemma OverwriteSpares(m: Memory, own: Owners, root: nat, p: nat, off: nat, data: seq<Byte>)
    requires off + |data| <= PAGE_SIZE
    ensures OnlyOwn(m, Overwrite(m, p, off, data), own, root) <==> HarmlessIn(m, own, root, p, off, data)
  {
    hide BytesOf, WithBytes;
    if p in m && !(p in own && own[p].Page? && own[p].root == root) {
      SameBytes(m[p], off, data);
    }
  }

  /** Where the first part of a store spares all else, the second part meets the same translation, and
      is harmless exactly if it was before. */
  lemma SecondPart(m: Memory, own: Owners, root: nat, p: nat, off: nat, data: seq<Byte>, next: Word, rest: seq<Byte>)
    requires TreesOk(m, own) && IsRoot(own, root)
    requires off + |data| <= PAGE_SIZE && next % PAGE_SIZE + |rest| <= PAGE_SIZE
    requires HarmlessIn(m, own, root, p, off, data)
    ensures var m1 := Overwrite(m, p, off, data);
            && StoreFrame(m1, root, next, Supervisor) == StoreFrame(m, root, next, Supervisor)
            && (Harmless(m1, own, root, next, rest) <==> Harmless(m, own, root, next, rest))
  {
    hide BytesOf, WithBytes, StoreFrame, TreesOk, Lookup;
    var m1 := Overwrite(m, p, off, data);
    if p in m {
      SameBytes(m[p], off, data);
      if m1 != m {
        DataWriteOk(m, own, p, WithBytes(m[p], off, data));
        StoreFrameIs(m, own, root, next, Supervisor);
        StoreFrameIs(m1, own, root, next, Supervisor);
      }
    }
  }

  /** Bytes that the first part changed stay changed: the second part ends below them. */
  lemma StaysChanged(m: Memory, p: nat, off: nat, data: seq<Byte>, q: nat, rest: seq<Byte>)
    requires p in m && off + |data| <= PAGE_SIZE && BytesOf(m[p])[off..off + |data|] != data
    requires |rest| <= off
    ensures Overwrite(m, p, off, data)[p] != m[p]
    ensures Overwrite(Overwrite(m, p, off, data), q, 0, rest)[p] != m[p]
  {
    hide BytesOf, WithBytes;
    var m1 := Overwrite(m, p, off, data);
    var i :| 0 <= i < |data| && BytesOf(m[p])[off..off + |data|][i] != data[i];
    assert BytesOf(m[p])[off + i] != data[i];
    WithBytesCopies(m[p], off, data);
    assert BytesOf(m1[p])[off + i] == data[i];
    WithBytesCopies(m1[p], 0, rest);
  }

  /** Each of the two parts into which a store falls at a page boundary is harmless, or not reached. */
  ghost predicate Spared(m: Memory, own: Owners, root: nat, va: Word, data: seq<Byte>)
    requires |data| <= PAGE_SIZE
  {
    var len := Min(|data|, PAGE_SIZE - va % PAGE_SIZE);
    && Harmless(m, own, root, va, data[..len])
    && (len < |data| && CanStore(m, root, va, Supervisor) ==> HarmlessRest(m, own, root, Plus(va, len), data[len..]))
  }

  ghost predicate HarmlessRest(m: Memory, own: Owners, root: nat, next: Word, rest: seq<Byte>) {
    next % PAGE_SIZE + |rest| <= PAGE_SIZE && Harmless(m, own, root, next, rest)
  }

  /** A store of up to a page, at any address, leaves everything but user pages of its own address space
      alone exactly if both its parts are harmless before it. */
  lemma SparesExactly(m: Memory, own: Owners, root: nat, va: Word, data: seq<Byte>)
    requires TreesOk(m, own) && IsRoot(own, root) && 0 < |data| <= PAGE_SIZE
    ensures OnlyOwn(m, StoreAll(m, root, va, data, Supervisor).0, own, root) <==> Spared(m, own, root, va, data)
  {
    hide StoreFrame, Overwrite, TreesOk, BytesOf, OnlyOwn, HarmlessIn, Plus;
    var off := va % PAGE_SIZE;
    var len := Min(|data|, PAGE_SIZE - off);
    var d, rest := data[..len], data[len..];
    match StoreFrame(m, root, va, Supervisor)
    case None => OnlyOwnNothing(m, own, root);
    case Some(p) =>
      var m1 := Overwrite(m, p, off, d);
      assert StoreAll(m, root, va, data, Supervisor) == StoreAll(m1, root, Plus(va, len), rest, Supervisor);
      OverwriteSpares(m, own, root, p, off, d);
      if rest != [] {
        PageEnds(va, len);
        SparesAfter(m, own, root, p, off, d, Plus(va, len), rest);
      }
  }

  lemma OnlyOwnNothing(m: Memory, own: Owners, root: nat)
    ensures OnlyOwn(m, m, own, root)
  {
  }

  lemma PageEnds(va: Word, len: nat)
    requires len == PAGE_SIZE - va % PAGE_SIZE
    ensures Plus(va, len) % PAGE_SIZE == 0
  {
  }

  lemma SparesAfter(m: Memory, own: Owners, root: nat, p: nat, off: nat, d: seq<Byte>, next: Word, rest: seq<Byte>)
    requires TreesOk(m, own) && IsRoot(own, root)
    requires off + |d| <= PAGE_SIZE && next % PAGE_SIZE == 0 && 0 < |rest| <= off
    ensures var m2 := StoreAll(Overwrite(m, p, off, d), root, next, rest, Supervisor).0;
            OnlyOwn(m, m2, own, root) <==> HarmlessIn(m, own, root, p, off, d) && Harmless(m, own, root, next, rest)
  {
    hide StoreFrame, Overwrite, TreesOk, BytesOf, StoreAll;
    var m1 := Overwrite(m, p, off, d);
    StoreOnce(m1, root, next, rest, Supervisor);
    OverwriteSpares(m, own, root, p, off, d);
    var hit := StoreFrame(m1, root, next, Supervisor);
    if HarmlessIn(m, own, root, p, off, d) {
      SecondPart(m, own, root, p, off, d, next, rest);
      if hit.Some? {
        OverwriteSpares(m1, own, root, hit.value, 0, rest);
      }
    } else {
      StaysChanged(m, p, off, d, if hit.Some? then hit.value else 0, rest);
    }
  }

  // ---- Stores of any length ----

  /** At no page boundary of the store has anything but user pages of `root` changed since `m0`. */
  ghost predicate SparesAlong(m0: Memory, m: Memory, own: Owners, root: nat, va: Word, data: seq<Byte>)
    decreases |data|
  {
    data != [] && CanStore(m, root, va, Supervisor) ==>
      var len := Min(|data|, PAGE_SIZE - va % PAGE_SIZE);
      var m1 := ChunkStored(m, root, va, data[..len], Supervisor);
      OnlyOwn(m0, m1, own, root) && SparesAlong(m0, m1, own, root, Plus(va, len), data[len..])
  }

  /** Every part of the store that is reached is harmless. */
  ghost predicate AllHarmless(m: Memory, own: Owners, root: nat, va: Word, data: seq<Byte>)
    decreases |data|
  {
    data != [] ==>
      var len := Min(|data|, PAGE_SIZE - va % PAGE_SIZE);
      && Harmless(m, own, root, va, data[..len])
      && (CanStore(m, root, va, Supervisor) ==> AllHarmless(m, own, root, Plus(va, len), data[len..]))
  }

  /** A store of any length leaves everything but user pages of its own address space alone all along exactly if
      every part of it that is reached is harmless before it. */
  lemma SparesAllAlong(m: Memory, own: Owners, root: nat, va: Word, data: seq<Byte>)
    requires TreesOk(m, own) && IsRoot(own, root)
    ensures SparesAlong(m, m, own, root, va, data) <==> AllHarmless(m, own, root, va, data)
  {
    hide SparesAlong, AllHarmless;
    StoredNothing(m, own, root);
    AlongExactly(m, m, own, root, va, data);
  }

  lemma {:induction false} AlongExactly(m0: Memory, m: Memory, own: Owners, root: nat, va: Word, data: seq<Byte>)
    requires TreesOk(m0, own) && TreesOk(m, own) && IsRoot(own, root) && Stored(m0, m, own, root)
    ensures SparesAlong(m0, m, own, root, va, data) <==> AllHarmless(m0, own, root, va, data)
    decreases |data|
  {
    hide StoreFrame, Overwrite, TreesOk, OnlyOwn, HarmlessIn, Plus, Stored;
    if data != [] {
      var len, off := Min(|data|, PAGE_SIZE - va % PAGE_SIZE), va % PAGE_SIZE;
      SameReach(m0, m, own, root, va);
      match StoreFrame(m0, root, va, Supervisor)
      case None =>
      case Some(p) =>
        PartSpares(m0, m, own, root, p, off, data[..len]);
        if HarmlessIn(m0, own, root, p, off, data[..len]) {
          AlongExactly(m0, Overwrite(m, p, off, data[..len]), own, root, Plus(va, len), data[len..]);
        }
    }
  }

  lemma SameReach(m0: Memory, m: Memory, own: Owners, root: nat, va: Word)
    requires TreesOk(m0, own) && TreesOk(m, own) && IsRoot(own, root) && Stored(m0, m, own, root)
    ensures StoreFrame(m, root, va, Supervisor) == StoreFrame(m0, root, va, Supervisor)
  {
    hide TreesOk, Lookup, StoreFrame;
    StoreFrameIs(m0, own, root, va, Supervisor);
    StoreFrameIs(m, own, root, va, Supervisor);
    assert Lookup(m, root, Indices(va / PAGE_SIZE)) == Lookup(m0, root, Indices(va / PAGE_SIZE));
  }

  /** One part, after parts that spared all else. */
  lemma PartSpares(m0: Memory, m: Memory, own: Owners, root: nat, p: nat, off: nat, data: seq<Byte>)
    requires TreesOk(m, own) && IsRoot(own, root) && Stored(m0, m, own, root) && off + |data| <= PAGE_SIZE
    ensures var m1 := Overwrite(m, p, off, data);
            && (OnlyOwn(m0, m1, own, root) <==> HarmlessIn(m0, own, root, p, off, data))
            && (HarmlessIn(m0, own, root, p, off, data) ==> TreesOk(m1, own) && Stored(m0, m1, own, root))
  {
    hide BytesOf, WithBytes, TreesOk, Lookup;
    OverwriteSpares(m, own, root, p, off, data);
    if p in m {
      SameBytes(m[p], off, data);
      if HarmlessIn(m0, own, root, p, off, data) && Overwrite(m, p, off, data) != m {
        DataWriteOk(m, own, p, WithBytes(m[p], off, data));
      }
    }
  }

  /** In particular it does off the kernel's pages. */
  lemma OffKernelSpares(m: Memory, own: Owners, root: nat, va: Word, data: seq<Byte>)
    requires TreesOk(m, own) && Private(m, own) && IsRoot(own, root) && Standard(m, root) && AllOff(va, |data|)
    requires |data| < WORD_LIMIT
    ensures OnlyOwn(m, StoreAll(m, root, va, data, Supervisor).0, own, root)
  {
    hide StoreAll, TreesOk, Private, Standard, AllOff;
    StoreAllIsOwn(m, own, root, va, data, Supervisor);
  }
}

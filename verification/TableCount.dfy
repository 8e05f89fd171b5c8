/**
 How many frames the kernel's own pages cost a new table (src/mm.rs): the root, and the tables that the identity maps need.
 */
module TableCount {
  import opened Sv39
  import opened PhysMem

  /** Different numbers of a range are no more than it holds. */
  lemma {:induction false} DistinctFit(s: seq<nat>, lo: nat, hi: nat)
    requires lo <= hi && (forall i | 0 <= i < |s| :: lo <= s[i] < hi)
    requires forall i, j | 0 <= i < j < |s| :: s[i] != s[j]
    ensures |s| <= hi - lo
    decreases hi
  {
    if s != [] {
      assert lo <= s[0] < hi;
      if hi - 1 in s {
        var i :| 0 <= i < |s| && s[i] == hi - 1;
        DistinctFit(s[..i] + s[i + 1..], lo, hi - 1);
      } else {
        DistinctFit(s, lo, hi - 1);
      }
    }
  }

  const TABLES: nat := 69

  /** The tables above the kernel's pages: for each a level, and a page number that is reached through it. */
  function TableLevel(i: nat): nat
    requires i < TABLES
  {
    if i == 0 then 0 else if i < 3 then 1 else 2
  }

  function TablePage(i: nat): nat
    requires i < TABLES
  {
    if i < 2 then 0x8_0000
    else if i == 2 || i == 67 then 0x1_0000
    else if i == 68 then 0xc000
    else 0x8_0000 + 512 * (i - 3)
  }

  function TablePath(i: nat): Path
    requires i < TABLES
  {
    Indices(TablePage(i)).Path(TableLevel(i))
  }

  /** Different tables are on different paths. */
  lemma PathsDiffer(i: nat, j: nat)
    requires i < j < TABLES && TableLevel(i) == TableLevel(j)
    ensures TablePath(i) != TablePath(j)
  {
    var v, w := Indices(TablePage(i)), Indices(TablePage(j));
    assert v.Path(1) == Down(Top, v.i0) && w.Path(1) == Down(Top, w.i0);
    if TableLevel(i) == 2 {
      assert v.Path(2) == Down(v.Path(1), v.i1) && w.Path(2) == Down(w.Path(1), w.i1);
      SlotsDiffer(i, j);
    }
  }

  lemma SlotsDiffer(i: nat, j: nat)
    requires 3 <= i < j < TABLES
    ensures Indices(TablePage(i)).i0 != Indices(TablePage(j)).i0 || Indices(TablePage(i)).i1 != Indices(TablePage(j)).i1
  {
    if j < 67 {
      RegionSlot(i - 3);
      RegionSlot(j - 3);
    } else if i < 67 {
      RegionSlot(i - 3);
    }
  }

  lemma RegionSlot(k: nat)
    requires k < 64
    ensures Indices(0x8_0000 + 512 * k).i0 == 2 && Indices(0x8_0000 + 512 * k).i1 == k
  {
    assert (0x8_0000 + 512 * k) / 512 == 1024 + k;
    assert (0x8_0000 + 512 * k) / 0x4_0000 == 2;
  }

  /** The walk to a mapped page passes a table of its root on every level. */
  lemma TableOnTheWay(m: Memory, own: Owners, root: nat, v: Vpn, level: nat)
    requires TreesOk(m, own) && IsRoot(own, root) && Lookup(m, root, v).Some? && level <= 2
    ensures Walk(m, root, v, level).Some?
    ensures Walk(m, root, v, level).value in own && own[Walk(m, root, v, level).value] == Table(root, level, v.Path(level))
  {
    hide TreesOk;
    assert Walk(m, root, v, 2).Some?;
    assert Walk(m, root, v, 1).Some?;
    assert Walk(m, root, v, 0).Some?;
    WalkStaysOwned(m, own, root, v, level);
  }

  /** A table in which the kernel's pages are mapped took that many frames, if it took all of them from `lo` on. */
  lemma KernelPagesCost(m: Memory, own: Owners, root: nat, lo: nat, hi: nat)
    requires TreesOk(m, own) && IsRoot(own, root) && lo <= hi
    requires forall i | 0 <= i < TABLES :: Lookup(m, root, Indices(TablePage(i))).Some?
    requires forall p | p in own && own[p].Table? && own[p].root == root :: lo <= p < hi
    ensures lo + TABLES <= hi
  {
    hide TreesOk, Lookup, Walk, Indices, TablePage, TableLevel;
    var s: seq<nat> := [];
    var i := 0;
    while i < TABLES
      invariant i <= TABLES && |s| == i
      invariant forall j | 0 <= j < i :: s[j] in own && own[s[j]] == Table(root, TableLevel(j), TablePath(j))
    {
      LevelBound(i);
      TableOnTheWay(m, own, root, Indices(TablePage(i)), TableLevel(i));
      s := s + [Walk(m, root, Indices(TablePage(i)), TableLevel(i)).value];
      i := i + 1;
    }
    forall i, j | 0 <= i < j < |s| ensures s[i] != s[j] {
      if TableLevel(i) == TableLevel(j) {
        PathsDiffer(i, j);
      }
    }
    DistinctFit(s, lo, hi);
  }

  lemma LevelBound(i: nat)
    requires i < TABLES
    ensures TableLevel(i) <= 2
  {
  }

  /** Tables of a root that was not in use are on frames that were not in use. */
  lemma NewTablesAreNew(m: Memory, own: Owners, m': Memory, own': Owners, root: nat, base: nat, top: nat, top': nat)
    requires RootsTaken(own) && root !in own && Extends(m, own, m', own', root)
    requires TakenUpTo(base, top, own) && TakenUpTo(base, top', own')
    ensures forall p | p in own' && own'[p].Table? && own'[p].root == root :: top <= p < top'
  {
  }
}

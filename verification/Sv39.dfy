/**
 The three-level radix tree of src/mm.rs as it lies in physical memory, with the
 invariant that makes every table an unshared tree.

 Memory is a map from physical page number to a frame of 512 words. Each allocated
 frame has one role; because the role map is a function, two table slots can never
 point at the same frame.
 */
module Sv39 {
  import opened Base
  import opened Pte

  type Frame = f: seq<Cell> | |f| == 512 witness seq(512, _ => ZERO_CELL)

  type Memory = map<nat, Frame>

  predicate IsZero(f: Frame) {
    forall i | 0 <= i < 512 :: f[i] == ZERO_CELL
  }

  /** `write_bytes(page, 0, PAGE_SIZE)` */
  function Zeroed(f: Frame): (z: Frame)
    ensures IsZero(z)
  {
    seq(512, _ => ZERO_CELL)
  }

  type Index = i: nat | i < 512

  /** A virtual page number as the walk sees it: its three nine-bit indices. */
  datatype Vpn = Vpn(i0: Index, i1: Index, i2: Index)
  {
    function At(level: nat): Index
      requires level < 3
    {
      if level == 0 then i0 else if level == 1 then i1 else i2
    }

    /** The first `level` indices. */
    function Path(level: nat): Path
      requires level <= 3
    {
      if level == 0 then Top else Down(Path(level - 1), At(level - 1))
    }
  }

  /** The indices that lead from a root to a table or a page. */
  datatype Path = Top | Down(up: Path, idx: nat)

  /** What an allocated frame is used for: a page table reached by `path`, the user page at
      `vpn` of an address space, a kernel stack, or nothing yet. */
  datatype Role =
    | Table(root: nat, level: nat, path: Path)
    | Page(root: nat, vpn: Path)
    | Kernel
    | Plain

  type Owners = map<nat, Role>

  /** An entry of a table frame with the given role: interior entries are pure pointers
      to the one frame that holds the next path; a leaf has A and D set. */
  ghost predicate EntryOk(own: Owners, role: Role, idx: nat, w: Cell)
    requires role.Table?
  {
    w.flags.v ==>
      if role.level < 2 then
        && w.ppn in own && w.ppn < RAM_PAGES
        && w.flags == V
        && own[w.ppn] == Table(role.root, role.level + 1, Down(role.path, idx))
      else
        w.flags.a && w.flags.d && w.ppn < PPN_LIMIT
  }

  /** Every table frame is well formed: the tables in memory are unshared trees. */
  ghost predicate TreesOk(m: Memory, own: Owners) {
    && (forall p | p in own :: p in m)
    && (forall p | p in own && own[p].Table? :: own[p].level <= 2 && (own[p].level == 0 ==> own[p] == Table(p, 0, Top)))
    && (forall p, i | p in own && own[p].Table? && 0 <= i < 512 :: EntryOk(own, own[p], i, m[p][i]))
  }

  predicate IsRoot(own: Owners, root: nat) {
    root in own && own[root] == Table(root, 0, Top)
  }

  /** The table of the given level that serves `v`, if the walk from `root` gets that far. */
  function Walk(m: Memory, root: nat, v: Vpn, level: nat): (r: Option<nat>)
    requires level <= 2
    ensures r.Some? ==> r.value in m
  {
    if level == 0 then (if root in m then Some(root) else None)
    else
      match Walk(m, root, v, level - 1)
      case None => None
      case Some(p) =>
        var w := m[p][v.At(level - 1)];
        if w.flags.v && w.ppn in m then Some(w.ppn) else None
  }

  /** An invalid entry ends the walk. */
  lemma WalkStops(m: Memory, root: nat, v: Vpn, level: nat)
    requires level < 2 && Walk(m, root, v, level).Some? && !m[Walk(m, root, v, level).value][v.At(level)].flags.v
    ensures Walk(m, root, v, level + 1) == None
  {
  }

  lemma {:induction false} WalkStaysStopped(m: Memory, root: nat, v: Vpn, level: nat)
    requires level < 2 && Walk(m, root, v, level + 1) == None
    ensures Walk(m, root, v, 2) == None
  {
    assert level == 0 ==> Walk(m, root, v, level + 2) == None;
  }

  lemma LeafTableIsNotRoot(m: Memory, own: Owners, root: nat, v: Vpn, p: nat)
    requires TreesOk(m, own) && IsRoot(own, root) && Walk(m, root, v, 2) == Some(p)
    ensures p != root
  {
    WalkStaysOwned(m, own, root, v, 2);
  }

  lemma RootInMemory(m: Memory, own: Owners, root: nat)
    requires TreesOk(m, own) && IsRoot(own, root)
    ensures root in m
  {
  }

  /** A decoded leaf entry. */
  datatype Leaf = Leaf(ppn: nat, flags: Flags)

  function LeafOf(w: Cell): Leaf {
    Leaf(w.ppn, w.flags)
  }

  /** The valid leaf entry that the walk of `find_pte` reaches, if there is one. */
  function Lookup(m: Memory, root: nat, v: Vpn): Option<Leaf> {
    match Walk(m, root, v, 2)
    case None => None
    case Some(p) =>
      if m[p][v.i2].flags.v then Some(LeafOf(m[p][v.i2])) else None
  }

  /** A walk only ever visits table frames of its own root, on the path of its page number. */
  lemma {:induction false} WalkStaysOwned(m: Memory, own: Owners, root: nat, v: Vpn, level: nat)
    requires TreesOk(m, own) && IsRoot(own, root) && level <= 2
    ensures Walk(m, root, v, level).Some? ==>
              && Walk(m, root, v, level).value in own
              && own[Walk(m, root, v, level).value] == Table(root, level, v.Path(level))
  {
    if level > 0 {
      WalkStaysOwned(m, own, root, v, level - 1);
      match Walk(m, root, v, level - 1)
      case None =>
      case Some(p) =>
        assert EntryOk(own, own[p], v.At(level - 1), m[p][v.At(level - 1)]);
    }
  }

  /** A walk depends on the table frames of its own root only. */
  lemma {:induction false} WalkFrame(m: Memory, m': Memory, own: Owners, root: nat, v: Vpn, level: nat)
    requires TreesOk(m, own) && IsRoot(own, root) && level <= 2
    requires forall q | q in own && own[q].Table? && own[q].root == root :: q in m' && m'[q] == m[q]
    ensures Walk(m', root, v, level) == Walk(m, root, v, level)
  {
    if level > 0 {
      WalkFrame(m, m', own, root, v, level - 1);
      WalkStaysOwned(m, own, root, v, level - 1);
      match Walk(m, root, v, level - 1)
      case None =>
      case Some(p) =>
        assert EntryOk(own, own[p], v.At(level - 1), m[p][v.At(level - 1)]);
    }
  }

  lemma LookupFrame(m: Memory, m': Memory, own: Owners, root: nat, v: Vpn)
    requires TreesOk(m, own) && IsRoot(own, root)
    requires forall q | q in own && own[q].Table? && own[q].root == root :: q in m' && m'[q] == m[q]
    ensures Lookup(m', root, v) == Lookup(m, root, v)
  {
    WalkStaysOwned(m, own, root, v, 2);
    WalkFrame(m, m', own, root, v, 2);
  }

  // ---- Fresh frames ----

  /** Taking a fresh zeroed frame disturbs no table. */
  lemma FreshFrameOk(m: Memory, own: Owners, p: nat)
    requires TreesOk(m, own) && p in m && p !in own
    ensures TreesOk(m[p := Zeroed(m[p])], own[p := Plain])
  {
  }

  /** A zeroed frame is a table that maps nothing. */
  lemma EmptyTableOk(m: Memory, own: Owners, p: nat)
    requires TreesOk(m, own) && p in own && own[p] == Plain && IsZero(m[p])
    ensures TreesOk(m, own[p := Table(p, 0, Top)])
    ensures forall v :: Lookup(m, p, v) == None
  {
    var own' := own[p := Table(p, 0, Top)];
    forall q, i | q in own' && own'[q].Table? && 0 <= i < 512 ensures EntryOk(own', own'[q], i, m[q][i]) {
    }
    forall v ensures Lookup(m, p, v) == None {
      assert Walk(m, p, v, 1) == None;
    }
  }

  // ---- Linking a new table ----

  /** Of the root's slots only the one that serves the index `i0` may have changed. */
  ghost predicate OtherSlots(m: Memory, m': Memory, root: nat, i0: nat) {
    root in m && root in m' && forall i: Index | i != i0 :: m'[root][i] == m[root][i]
  }

  lemma OtherSlotsNothing(m: Memory, root: nat, i0: nat)
    requires root in m
    ensures OtherSlots(m, m, root, i0)
  {
  }

  lemma OtherSlotsTransitive(m: Memory, m1: Memory, m2: Memory, root: nat, i0: nat)
    requires OtherSlots(m, m1, root, i0) && OtherSlots(m1, m2, root, i0)
    ensures OtherSlots(m, m2, root, i0)
  {
  }

  /** Frame `p` is the second-level table behind the root's slot `i0`. */
  predicate SecondTable(own: Owners, root: nat, i0: nat, p: nat) {
    p in own && own[p] == Table(root, 1, Down(Top, i0))
  }

  /** Memory after slot `idx` of table `p` is overwritten with the entry `w`. */
  function WithEntry(m: Memory, p: nat, idx: Index, w: Cell): Memory
    requires p in m
  {
    m[p := m[p][idx := w]]
  }

  /** `w` is a pure pointer to the unused zero frame `q`, and slot `idx` of `p` is free for it. */
  ghost predicate CanLink(m: Memory, own: Owners, p: nat, idx: Index, q: nat, w: Cell) {
    && TreesOk(m, own)
    && p in own && own[p].Table? && own[p].level < 2 && !m[p][idx].flags.v
    && q in own && own[q] == Plain && IsZero(m[q]) && q < RAM_PAGES
    && w.ppn == q && w.flags == V
  }

  /** The role map after frame `q` is linked there. */
  function Adopt(own: Owners, p: nat, idx: Index, q: nat): Owners
    requires p in own && own[p].Table?
  {
    own[q := Table(own[p].root, own[p].level + 1, Down(own[p].path, idx))]
  }

  lemma LinkKeepsTrees(m: Memory, own: Owners, p: nat, idx: Index, q: nat, w: Cell)
    requires CanLink(m, own, p, idx, q, w)
    ensures TreesOk(WithEntry(m, p, idx, w), Adopt(own, p, idx, q))
  {
    var m', own' := WithEntry(m, p, idx, w), Adopt(own, p, idx, q);
    forall t, i | t in own' && own'[t].Table? && 0 <= i < 512 ensures EntryOk(own', own'[t], i, m'[t][i]) {
      if t != q {
        assert EntryOk(own, own[t], i, m[t][i]);
      }
    }
  }

  /** A new empty table only lengthens walks that ended at its slot. */
  lemma {:induction false} LinkKeepsWalks(m: Memory, own: Owners, p: nat, idx: Index, q: nat, w: Cell,
                                          root: nat, v: Vpn, level: nat)
    requires CanLink(m, own, p, idx, q, w) && IsRoot(own, root) && level <= 2
    ensures Walk(WithEntry(m, p, idx, w), root, v, level) != Walk(m, root, v, level) ==>
              && Walk(m, root, v, level) == None
              && Walk(WithEntry(m, p, idx, w), root, v, level) == Some(q)
    ensures level <= own[p].level ==>
              Walk(WithEntry(m, p, idx, w), root, v, level) == Walk(m, root, v, level)
  {
    if level > 0 {
      LinkKeepsWalks(m, own, p, idx, q, w, root, v, level - 1);
      WalkStaysOwned(m, own, root, v, level - 1);
    }
  }

  /** A new empty table changes what no page number maps to. */
  lemma LinkKeepsLookups(m: Memory, own: Owners, p: nat, idx: Index, q: nat, w: Cell)
    requires CanLink(m, own, p, idx, q, w)
    ensures forall r, v | IsRoot(own, r) :: Lookup(WithEntry(m, p, idx, w), r, v) == Lookup(m, r, v)
  {
    var m' := WithEntry(m, p, idx, w);
    forall r, v: Vpn | IsRoot(own, r) ensures Lookup(m', r, v) == Lookup(m, r, v) {
      LinkKeepsWalks(m, own, p, idx, q, w, r, v, 2);
      WalkStaysOwned(m, own, r, v, 2);
    }
  }

  // ---- Writing a leaf ----

  lemma LeafKeepsTrees(m: Memory, own: Owners, p: nat, idx: Index, w: Cell)
    requires TreesOk(m, own)
    requires p in own && own[p].Table? && own[p].level == 2
    requires EntryOk(own, own[p], idx, w)
    ensures TreesOk(WithEntry(m, p, idx, w), own)
  {
    var m' := WithEntry(m, p, idx, w);
    forall t, i | t in own && own[t].Table? && 0 <= i < 512 ensures EntryOk(own, own[t], i, m'[t][i]) {
      assert EntryOk(own, own[t], i, m[t][i]);
    }
  }

  lemma {:induction false} LeafKeepsWalks(m: Memory, own: Owners, p: nat, idx: Index, w: Cell,
                                          root: nat, v: Vpn, level: nat)
    requires TreesOk(m, own) && IsRoot(own, root) && level <= 2
    requires p in own && own[p].Table? && own[p].level == 2
    ensures Walk(WithEntry(m, p, idx, w), root, v, level) == Walk(m, root, v, level)
  {
    if level > 0 {
      LeafKeepsWalks(m, own, p, idx, w, root, v, level - 1);
      WalkStaysOwned(m, own, root, v, level - 1);
    }
  }

  /** Writing one leaf changes what exactly one page number of one address space maps to. */
  lemma LeafChangesOne(m: Memory, own: Owners, root: nat, p: nat, vpn: Vpn, w: Cell, r: nat, v: Vpn)
    requires TreesOk(m, own) && IsRoot(own, root) && IsRoot(own, r)
    requires Walk(m, root, vpn, 2) == Some(p)
    ensures Lookup(WithEntry(m, p, vpn.i2, w), r, v) ==
              if r == root && v == vpn then (if w.flags.v then Some(LeafOf(w)) else None)
              else Lookup(m, r, v)
  {
    var m' := WithEntry(m, p, vpn.i2, w);
    WalkStaysOwned(m, own, root, vpn, 2);
    WalkStaysOwned(m, own, r, v, 2);
    LeafKeepsWalks(m, own, p, vpn.i2, w, r, v, 2);
    assert Walk(m, r, v, 2) == Some(p) ==> v.Path(2) == vpn.Path(2);
  }

  /** A leaf that a lookup finds is an entry of a lowest-level table. */
  lemma LookupIsEntry(m: Memory, own: Owners, root: nat, v: Vpn) returns (p: nat)
    requires TreesOk(m, own) && IsRoot(own, root) && Lookup(m, root, v).Some?
    ensures p in own && own[p] == Table(root, 2, v.Path(2))
    ensures m[p][v.i2].flags.v && Lookup(m, root, v) == Some(LeafOf(m[p][v.i2]))
  {
    WalkStaysOwned(m, own, root, v, 2);
    p := Walk(m, root, v, 2).value;
  }

  /** Every leaf was written by `map`: it is valid, accessed and dirty. */
  lemma LookupFlags(m: Memory, own: Owners, root: nat, v: Vpn)
    requires TreesOk(m, own) && IsRoot(own, root) && Lookup(m, root, v).Some?
    ensures Lookup(m, root, v).value.flags.Or(VAD) == Lookup(m, root, v).value.flags
    ensures Lookup(m, root, v).value.ppn < PPN_LIMIT
  {
    var p := LookupIsEntry(m, own, root, v);
    assert EntryOk(own, own[p], v.i2, m[p][v.i2]);
  }

  predicate UserLeaf(m: Memory, root: nat, v: Vpn) {
    Lookup(m, root, v).Some? && Lookup(m, root, v).value.flags.u
  }

  /** Every user leaf of every address space points at the one frame that holds its page. */
  ghost predicate Private(m: Memory, own: Owners) {
    forall r, v | IsRoot(own, r) && UserLeaf(m, r, v) ::
      && Lookup(m, r, v).value.ppn in own
      && own[Lookup(m, r, v).value.ppn] == Page(r, v.Path(3))
  }

  lemma PathSteps(v: Vpn)
    ensures v.Path(3) == Down(Down(Down(Top, v.i0), v.i1), v.i2)
  {
    assert v.Path(1) == Down(v.Path(0), v.At(0));
    assert v.Path(2) == Down(v.Path(1), v.At(1));
    assert v.Path(3) == Down(v.Path(2), v.At(2));
  }

  lemma PathDecidesPage(v: Vpn, w: Vpn)
    ensures v.Path(3) == w.Path(3) ==> v == w
  {
    PathSteps(v);
    PathSteps(w);
  }

  // ---- What an operation on one address space may touch ----

  predicate Of(role: Role, root: nat) {
    (role.Table? || role.Page?) && role.root == root
  }

  /** Going from (m, own) to (m', own') only touched frames of address space `root`
      and frames that were free before. */
  ghost predicate Confined(m: Memory, own: Owners, m': Memory, own': Owners, root: nat) {
    && m'.Keys == m.Keys
    && (forall p | p in own ::
          && p in own'
          && (own'[p] == own[p] || (own[p] == Plain && own'[p].Page? && own'[p].root == root)))
    && (forall p | p in own' && p !in own :: Of(own'[p], root) || own'[p].Plain? || own'[p].Kernel?)
    && (forall p | p in m && m'[p] != m[p] :: p in own' && (Of(own'[p], root) || p !in own))
  }

  lemma ConfinedTransitive(m: Memory, own: Owners, m1: Memory, own1: Owners, m2: Memory, own2: Owners, root: nat)
    requires Confined(m, own, m1, own1, root) && Confined(m1, own1, m2, own2, root)
    ensures Confined(m, own, m2, own2, root)
  {
    forall p | p in m && m2[p] != m[p] ensures p in own2 && (Of(own2[p], root) || p !in own) {
      if m1[p] != m[p] {
        assert p in own1 && (Of(own1[p], root) || p !in own);
      }
    }
  }

  /** Other address spaces keep every translation and the contents of every page. */
  lemma ConfinedKeepsOthers(m: Memory, own: Owners, m': Memory, own': Owners, root: nat, r: nat)
    requires TreesOk(m, own) && Confined(m, own, m', own', root)
    requires IsRoot(own, r) && r != root
    ensures forall v :: Lookup(m', r, v) == Lookup(m, r, v)
    ensures forall p | p in own && Of(own[p], r) :: own'[p] == own[p] && m'[p] == m[p]
  {
    forall v: Vpn ensures Lookup(m', r, v) == Lookup(m, r, v) {
      LookupFrame(m, m', own, r, v);
    }
  }

  /** Confined, and besides: no other address space began, and no frame but a table of `root`
      that was in use before was written. */
  ghost predicate Extends(m: Memory, own: Owners, m': Memory, own': Owners, root: nat) {
    && Confined(m, own, m', own', root)
    && (forall p | p in own' && p !in own && own'[p].Table? :: own'[p].level > 0 || p == root)
    && (forall p | p in own && !own[p].Table? :: p in m ==> m'[p] == m[p])
  }

  lemma ExtendsTransitive(m: Memory, own: Owners, m1: Memory, own1: Owners, m2: Memory, own2: Owners, root: nat)
    requires Extends(m, own, m1, own1, root) && Extends(m1, own1, m2, own2, root)
    ensures Extends(m, own, m2, own2, root)
  {
    ConfinedTransitive(m, own, m1, own1, m2, own2, root);
  }

  lemma ExtendsReflexive(m: Memory, own: Owners, root: nat)
    ensures Extends(m, own, m, own, root)
  {
  }

  lemma ExtendsKeepsRoot(m: Memory, own: Owners, m': Memory, own': Owners, root: nat, r: nat)
    requires Extends(m, own, m', own', root) && IsRoot(own, r)
    ensures IsRoot(own', r)
  {
  }

  /** All that happened concerns an address space that did not exist before, if anything did. */
  ghost predicate Aside(m: Memory, own: Owners, m': Memory, own': Owners) {
    exists n :: n !in own && Extends(m, own, m', own', n)
  }

  lemma ExtendsAside(m: Memory, own: Owners, m': Memory, own': Owners, n: nat)
    requires n !in own && Extends(m, own, m', own', n)
    ensures Aside(m, own, m', own')
  {
  }

  lemma AsideNothing(m: Memory, own: Owners, n: nat)
    requires n !in own
    ensures Aside(m, own, m, own)
  {
    assert Extends(m, own, m, own, n);
  }

  /** Extends, and no translation of `root` was altered or removed. */
  ghost predicate Grows(m: Memory, own: Owners, m': Memory, own': Owners, root: nat) {
    && Extends(m, own, m', own', root)
    && forall v | Lookup(m, root, v).Some? :: Lookup(m', root, v) == Lookup(m, root, v)
  }

  lemma GrowsReflexive(m: Memory, own: Owners, root: nat)
    ensures Grows(m, own, m, own, root)
  {
  }

  /** Address spaces go on existing. */
  lemma GrowsKeepsRoot(m: Memory, own: Owners, m': Memory, own': Owners, root: nat, r: nat)
    requires Grows(m, own, m', own', root) && IsRoot(own, r)
    ensures IsRoot(own', r)
  {
  }

  lemma GrowsTransitive(m: Memory, own: Owners, m1: Memory, own1: Owners, m2: Memory, own2: Owners, root: nat)
    requires Grows(m, own, m1, own1, root) && Grows(m1, own1, m2, own2, root)
    ensures Grows(m, own, m2, own2, root)
  {
    ExtendsTransitive(m, own, m1, own1, m2, own2, root);
  }

  /** Only empty tables of `root` were added: no page number maps to anything else than before. */
  ghost predicate TablesAdded(m: Memory, own: Owners, m': Memory, own': Owners, root: nat) {
    && Extends(m, own, m', own', root)
    && (forall p | p in own :: own'[p] == own[p])
    && (forall p | p in own' && p !in own :: own'[p].Table? && own'[p].level > 0)
    && (forall r, v | IsRoot(own, r) :: Lookup(m', r, v) == Lookup(m, r, v))
  }

  lemma TablesAddedNothing(m: Memory, own: Owners, root: nat)
    ensures TablesAdded(m, own, m, own, root)
  {
  }

  lemma TablesAddedKeepsRoot(m: Memory, own: Owners, m': Memory, own': Owners, root: nat)
    requires TablesAdded(m, own, m', own', root) && IsRoot(own, root)
    ensures IsRoot(own', root)
  {
  }

  lemma TablesAddedKeepsRole(m: Memory, own: Owners, m': Memory, own': Owners, root: nat, p: nat)
    requires TablesAdded(m, own, m', own', root) && p in own
    ensures p in own' && own'[p] == own[p]
  {
  }

  lemma TablesAddedTransitive(m: Memory, own: Owners, m1: Memory, own1: Owners, m2: Memory, own2: Owners, root: nat)
    requires TablesAdded(m, own, m1, own1, root) && TablesAdded(m1, own1, m2, own2, root)
    ensures TablesAdded(m, own, m2, own2, root)
  {
    ExtendsTransitive(m, own, m1, own1, m2, own2, root);
    forall r, v | IsRoot(own, r) ensures Lookup(m2, r, v) == Lookup(m, r, v) {
      assert IsRoot(own1, r);
      assert Lookup(m1, r, v) == Lookup(m, r, v);
    }
  }

  // ---- Making the next table on the way to a leaf ----

  /** Memory after a fresh frame `q` is zeroed and `w`, a pointer to it, is put into slot `idx` of `p`. */
  function Grown(m: Memory, p: nat, idx: Index, q: nat, w: Cell): Memory
    requires p in m && q in m
  {
    WithEntry(m[q := Zeroed(m[q])], p, idx, w)
  }

  /** Roles after that. */
  function GrownOwners(own: Owners, p: nat, idx: Index, q: nat): Owners
    requires p in own && own[p].Table? && p != q
  {
    Adopt(own[q := Plain], p, idx, q)
  }

  ghost predicate CanGrow(m: Memory, own: Owners, p: nat, idx: Index, q: nat, w: Cell) {
    && TreesOk(m, own)
    && p in own && own[p].Table? && own[p].level < 2 && !m[p][idx].flags.v
    && q in m && q !in own && q < RAM_PAGES
    && w.ppn == q && w.flags == V
  }

  lemma GrowKeepsLookups(m: Memory, own: Owners, p: nat, idx: Index, q: nat, w: Cell)
    requires CanGrow(m, own, p, idx, q, w)
    ensures forall r, v | IsRoot(own, r) :: Lookup(Grown(m, p, idx, q, w), r, v) == Lookup(m, r, v)
  {
    var m1 := m[q := Zeroed(m[q])];
    FreshFrameOk(m, own, q);
    LinkKeepsLookups(m1, own[q := Plain], p, idx, q, w);
    forall r, v: Vpn | IsRoot(own, r) ensures Lookup(Grown(m, p, idx, q, w), r, v) == Lookup(m, r, v) {
      assert IsRoot(own[q := Plain], r);
      LookupFrame(m, m1, own, r, v);
    }
  }

  lemma GrowExtendsWalk(m: Memory, own: Owners, p: nat, q: nat, w: Cell, root: nat, v: Vpn, level: nat)
    requires level < 2 && CanGrow(m, own, p, v.At(level), q, w)
    requires IsRoot(own, root) && own[p].level == level && Walk(m, root, v, level) == Some(p)
    ensures Walk(Grown(m, p, v.At(level), q, w), root, v, level + 1) == Some(q)
  {
    var m1 := m[q := Zeroed(m[q])];
    FreshFrameOk(m, own, q);
    WalkFrame(m, m1, own, root, v, level);
    LinkKeepsWalks(m1, own[q := Plain], p, v.At(level), q, w, root, v, level);
  }

  /** Growing a tree at the slot a walk stopped at: the walk goes on into the new table, and
      no page number maps to anything else than before. */
  lemma GrowOk(m: Memory, own: Owners, p: nat, q: nat, w: Cell, root: nat, v: Vpn, level: nat)
    requires level < 2 && CanGrow(m, own, p, v.At(level), q, w)
    requires IsRoot(own, root) && Walk(m, root, v, level) == Some(p) && own[p] == Table(root, level, v.Path(level))
    ensures TreesOk(Grown(m, p, v.At(level), q, w), GrownOwners(own, p, v.At(level), q))
    ensures TablesAdded(m, own, Grown(m, p, v.At(level), q, w), GrownOwners(own, p, v.At(level), q), root)
    ensures Walk(Grown(m, p, v.At(level), q, w), root, v, level + 1) == Some(q)
  {
    var idx := v.At(level);
    GrowExtendsWalk(m, own, p, q, w, root, v, level);
    GrowKeepsLookups(m, own, p, idx, q, w);
    FreshFrameOk(m, own, q);
    LinkKeepsTrees(m[q := Zeroed(m[q])], own[q := Plain], p, idx, q, w);
  }

  // ---- Mapping and unmapping ----

  /** Exactly one page of one address space got a new leaf (or lost its leaf); tables may have been
      added, no page frame was written, and only a frame that a user leaf took got a new role. */
  ghost predicate LeafSet(m: Memory, own: Owners, m': Memory, own': Owners, root: nat, v: Vpn, leaf: Option<Leaf>) {
    && Extends(m, own, m', own', root)
    && (forall p | p in own' && p !in own :: own'[p].Table? && own'[p].level > 0)
    && (forall p | p in own && own'[p] != own[p] ::
          leaf.Some? && leaf.value.flags.u && p == leaf.value.ppn && own'[p] == Page(root, v.Path(3)))
    && (leaf.Some? && leaf.value.flags.u && leaf.value.ppn in own && own[leaf.value.ppn] == Plain ==>
          own'[leaf.value.ppn] == Page(root, v.Path(3)))
    && (forall r, u | IsRoot(own, r) ::
          Lookup(m', r, u) == if r == root && u == v then leaf else Lookup(m, r, u))
  }

  /** A frame with no role yet becomes the page that a user leaf maps. */
  function Claim(own: Owners, root: nat, v: Vpn, leaf: Leaf): Owners {
    if leaf.flags.u && leaf.ppn in own && own[leaf.ppn] == Plain
    then own[leaf.ppn := Page(root, v.Path(3))] else own
  }

  /** Taking the frame of a leaf disturbs no table. */
  lemma ClaimKeepsTrees(m: Memory, own: Owners, root: nat, v: Vpn, leaf: Leaf)
    requires TreesOk(m, own)
    ensures TreesOk(m, Claim(own, root, v, leaf))
  {
    var own' := Claim(own, root, v, leaf);
    forall t, i | t in own' && own'[t].Table? && 0 <= i < 512 ensures EntryOk(own', own'[t], i, m[t][i]) {
      assert EntryOk(own, own[t], i, m[t][i]);
    }
  }

  lemma LeafSetLookups(m: Memory, own: Owners, m1: Memory, own1: Owners, root: nat, v: Vpn, p: nat, w: Cell)
    requires TreesOk(m1, own1) && IsRoot(own, root) && TablesAdded(m, own, m1, own1, root)
    requires Walk(m1, root, v, 2) == Some(p)
    ensures forall r, u | IsRoot(own, r) ::
              Lookup(WithEntry(m1, p, v.i2, w), r, u) ==
                if r == root && u == v then (if w.flags.v then Some(LeafOf(w)) else None) else Lookup(m, r, u)
  {
    forall r, u: Vpn | IsRoot(own, r)
      ensures Lookup(WithEntry(m1, p, v.i2, w), r, u) ==
                if r == root && u == v then (if w.flags.v then Some(LeafOf(w)) else None) else Lookup(m, r, u)
    {
      assert IsRoot(own1, r) && Lookup(m1, r, u) == Lookup(m, r, u);
      LeafChangesOne(m1, own1, root, p, v, w, r, u);
    }
  }

  /** A leaf write touches a table of its own address space only. */
  lemma LeafSetExtends(m: Memory, own: Owners, m1: Memory, own1: Owners, root: nat, v: Vpn, p: nat, w: Cell)
    requires TablesAdded(m, own, m1, own1, root) && p in m1 && p in own1 && own1[p].Table? && own1[p].root == root
    ensures Extends(m, own, WithEntry(m1, p, v.i2, w), Claim(own1, root, v, LeafOf(w)), root)
  {
  }

  /** Writing a leaf entry after adding the tables that lead to it. */
  lemma LeafSetOk(m: Memory, own: Owners, m1: Memory, own1: Owners, root: nat, v: Vpn, p: nat, w: Cell)
    requires TreesOk(m1, own1) && IsRoot(own, root) && TablesAdded(m, own, m1, own1, root)
    requires Walk(m1, root, v, 2) == Some(p)
    requires w.flags.v && w.flags.a && w.flags.d && w.ppn < PPN_LIMIT
    ensures TreesOk(WithEntry(m1, p, v.i2, w), Claim(own1, root, v, LeafOf(w)))
    ensures LeafSet(m, own, WithEntry(m1, p, v.i2, w), Claim(own1, root, v, LeafOf(w)), root, v, Some(LeafOf(w)))
  {
    WalkStaysOwned(m1, own1, root, v, 2);
    LeafKeepsTrees(m1, own1, p, v.i2, w);
    ClaimKeepsTrees(WithEntry(m1, p, v.i2, w), own1, root, v, LeafOf(w));
    LeafSetExtends(m, own, m1, own1, root, v, p, w);
    LeafSetLookups(m, own, m1, own1, root, v, p, w);
  }

  /** Clearing a leaf entry. */
  lemma LeafClearedOk(m: Memory, own: Owners, root: nat, v: Vpn, p: nat, w: Cell)
    requires TreesOk(m, own) && IsRoot(own, root) && Walk(m, root, v, 2) == Some(p) && !w.flags.v
    ensures TreesOk(WithEntry(m, p, v.i2, w), own)
    ensures LeafSet(m, own, WithEntry(m, p, v.i2, w), own, root, v, None)
  {
    WalkStaysOwned(m, own, root, v, 2);
    LeafKeepsTrees(m, own, p, v.i2, w);
    LeafSetLookups(m, own, m, own, root, v, p, w);
  }

  /** A user leaf on a frame that had no role keeps every page private. */
  lemma LeafSetKeepsPrivate(m: Memory, own: Owners, m': Memory, own': Owners, root: nat, v: Vpn, leaf: Option<Leaf>)
    requires Private(m, own) && IsRoot(own, root) && LeafSet(m, own, m', own', root, v, leaf)
    requires leaf.Some? && leaf.value.flags.u ==> leaf.value.ppn in own && own[leaf.value.ppn] == Plain
    ensures Private(m', own')
  {
    forall r, u | IsRoot(own', r) && UserLeaf(m', r, u)
      ensures Lookup(m', r, u).value.ppn in own' && own'[Lookup(m', r, u).value.ppn] == Page(r, u.Path(3))
    {
      assert IsRoot(own, r);
      if !(r == root && u == v) {
        assert UserLeaf(m, r, u);
      }
    }
  }

  lemma TablesAddedKeepsPrivate(m: Memory, own: Owners, m': Memory, own': Owners, root: nat)
    requires Private(m, own) && TablesAdded(m, own, m', own', root)
    ensures Private(m', own')
  {
    forall r, u | IsRoot(own', r) && UserLeaf(m', r, u)
      ensures Lookup(m', r, u).value.ppn in own' && own'[Lookup(m', r, u).value.ppn] == Page(r, u.Path(3))
    {
      assert IsRoot(own, r) && UserLeaf(m, r, u);
    }
  }

  /** A new table that maps nothing keeps every page private. */
  lemma NewRootKeepsPrivate(m: Memory, own: Owners, m': Memory, own': Owners, root: nat)
    requires TreesOk(m, own) && Private(m, own) && Extends(m, own, m', own', root)
    requires root !in own && forall v :: Lookup(m', root, v) == None
    ensures Private(m', own')
  {
    forall r, u | IsRoot(own', r) && UserLeaf(m', r, u)
      ensures Lookup(m', r, u).value.ppn in own' && own'[Lookup(m', r, u).value.ppn] == Page(r, u.Path(3))
    {
      ConfinedKeepsOthers(m, own, m', own', root, r);
      assert UserLeaf(m, r, u);
    }
  }

  // ---- Taking and filling frames ----

  /** `alloc_page` took the frame `p` and zeroed it. */
  ghost predicate Allocated(m: Memory, own: Owners, m': Memory, own': Owners, p: nat) {
    && p in m && p !in own
    && m' == m[p := Zeroed(m[p])]
    && own' == own[p := Plain]
  }

  lemma AllocatedExtends(m: Memory, own: Owners, m': Memory, own': Owners, p: nat, root: nat)
    requires TreesOk(m, own) && Allocated(m, own, m', own', p)
    ensures Extends(m, own, m', own', root)
    ensures forall r, v | IsRoot(own, r) :: Lookup(m', r, v) == Lookup(m, r, v)
    ensures Private(m, own) ==> Private(m', own')
  {
    forall r, v: Vpn | IsRoot(own, r) ensures Lookup(m', r, v) == Lookup(m, r, v) {
      LookupFrame(m, m', own, r, v);
    }
    if Private(m, own) {
      forall r, v | IsRoot(own', r) && UserLeaf(m', r, v)
        ensures Lookup(m', r, v).value.ppn in own' && own'[Lookup(m', r, v).value.ppn] == Page(r, v.Path(3))
      {
        assert IsRoot(own, r) && UserLeaf(m, r, v);
      }
    }
  }

  /** `alloc_pages` took `n` frames from `p` on, for a kernel stack, and zeroed them. */
  ghost predicate StackTaken(m: Memory, own: Owners, m': Memory, own': Owners, p: nat, n: nat) {
    && m'.Keys == m.Keys
    && (forall q | q in m :: if p <= q < p + n then IsZero(m'[q]) else m'[q] == m[q])
    && (forall q :: q in own' <==> q in own || p <= q < p + n)
    && (forall q | p <= q < p + n :: q in m && q !in own && own'[q] == Kernel)
    && (forall q | q in own :: own'[q] == own[q])
  }

  function ZeroRange(m: Memory, p: nat, n: nat): Memory {
    map q | q in m :: if p <= q < p + n then Zeroed(m[q]) else m[q]
  }

  function StackOwners(m: Memory, own: Owners, p: nat, n: nat): Owners {
    map q | q in m && (q in own || p <= q < p + n) :: if q in own then own[q] else Kernel
  }

  lemma TakeStack(m: Memory, own: Owners, p: nat, n: nat)
    requires TreesOk(m, own) && forall q | p <= q < p + n :: q in m && q !in own
    ensures StackTaken(m, own, ZeroRange(m, p, n), StackOwners(m, own, p, n), p, n)
  {
  }

  lemma StackTakenOk(m: Memory, own: Owners, m': Memory, own': Owners, p: nat, n: nat)
    requires TreesOk(m, own) && StackTaken(m, own, m', own', p, n)
    ensures TreesOk(m', own')
  {
    forall t, i | t in own' && own'[t].Table? && 0 <= i < 512 ensures EntryOk(own', own'[t], i, m'[t][i]) {
      assert EntryOk(own, own[t], i, m[t][i]);
    }
  }

  lemma StackTakenExtends(m: Memory, own: Owners, m': Memory, own': Owners, p: nat, n: nat, root: nat)
    requires TreesOk(m, own) && StackTaken(m, own, m', own', p, n)
    ensures Extends(m, own, m', own', root)
    ensures forall r, v | IsRoot(own, r) :: Lookup(m', r, v) == Lookup(m, r, v)
    ensures Private(m, own) ==> Private(m', own')
  {
    forall r, v: Vpn | IsRoot(own, r) ensures Lookup(m', r, v) == Lookup(m, r, v) {
      LookupFrame(m, m', own, r, v);
    }
    if Private(m, own) {
      forall r, v | IsRoot(own', r) && UserLeaf(m', r, v)
        ensures Lookup(m', r, v).value.ppn in own' && own'[Lookup(m', r, v).value.ppn] == Page(r, v.Path(3))
      {
        assert IsRoot(own, r) && UserLeaf(m, r, v);
      }
    }
  }

  /** Writing into a frame that is no table changes no translation. */
  lemma DataWriteOk(m: Memory, own: Owners, p: nat, f: Frame)
    requires TreesOk(m, own) && p in own && !own[p].Table?
    ensures TreesOk(m[p := f], own)
    ensures forall r, v | IsRoot(own, r) :: Lookup(m[p := f], r, v) == Lookup(m, r, v)
    ensures Private(m, own) ==> Private(m[p := f], own)
  {
    var m' := m[p := f];
    forall t, i | t in own && own[t].Table? && 0 <= i < 512 ensures EntryOk(own, own[t], i, m'[t][i]) {
      assert EntryOk(own, own[t], i, m[t][i]);
    }
    forall r, v: Vpn | IsRoot(own, r) ensures Lookup(m', r, v) == Lookup(m, r, v) {
      LookupFrame(m, m', own, r, v);
    }
    if Private(m, own) {
      forall r, v | IsRoot(own, r) && UserLeaf(m', r, v)
        ensures Lookup(m', r, v).value.ppn in own && own[Lookup(m', r, v).value.ppn] == Page(r, v.Path(3))
      {
        assert UserLeaf(m, r, v);
      }
    }
  }

  /** Only the contents of frame `q` changed, and no translation. */
  ghost predicate OnlyFrame(m: Memory, m': Memory, own: Owners, q: nat) {
    && m'.Keys == m.Keys && (forall p | p in m && p != q :: m'[p] == m[p])
    && (forall r, v | IsRoot(own, r) :: Lookup(m', r, v) == Lookup(m, r, v))
  }

  lemma OnlyFrameTransitive(m: Memory, m1: Memory, m2: Memory, own: Owners, q: nat)
    requires OnlyFrame(m, m1, own, q) && OnlyFrame(m1, m2, own, q)
    ensures OnlyFrame(m, m2, own, q)
  {
    forall r, v | IsRoot(own, r) ensures Lookup(m2, r, v) == Lookup(m, r, v) {
      assert Lookup(m1, r, v) == Lookup(m, r, v);
    }
  }

  // ---- Page numbers ----

  /** Virtual page numbers are cut to 27 bits by the three index masks. */
  const VPN_LIMIT: nat := 0x800_0000

  /** `[(vpn >> 18) & 0x1ff, (vpn >> 9) & 0x1ff, vpn & 0x1ff]` */
  function Indices(vpn: nat): Vpn {
    Vpn(vpn / 0x4_0000 % 512, vpn / 512 % 512, vpn % 512)
  }

  /** `(i << 18) | (j << 9) | k` */
  function Number(v: Vpn): (n: nat)
    ensures n < VPN_LIMIT
  {
    v.i0 * 0x4_0000 + v.i1 * 512 + v.i2
  }

  lemma RemainderIs(x: nat, q: nat, r: nat)
    requires x == q * VPN_LIMIT + r && r < VPN_LIMIT
    ensures x % VPN_LIMIT == r
  {
  }

  /** The indices and the number of a page determine each other, up to 27 bits. */
  lemma NumberOfIndices(vpn: nat)
    ensures Number(Indices(vpn)) == vpn % VPN_LIMIT
  {
    var a := vpn / 512;
    var b := a / 512;
    var c := b / 512;
    assert vpn / 0x4_0000 == b;
    RemainderIs(vpn, c, Number(Indices(vpn)));
  }

  lemma IndicesOfNumber(v: Vpn)
    ensures Indices(Number(v)) == v
  {
    var n := Number(v);
    assert n / 0x4_0000 == v.i0;
    assert n / 512 == v.i0 * 512 + v.i1;
    assert n % 512 == v.i2;
  }

  /** Page `n` is the only one with its number. */
  lemma PageOfNumber(n: nat)
    requires n < VPN_LIMIT
    ensures Number(Indices(n)) == n
    ensures forall v :: v == Indices(n) <==> Number(v) == n
  {
    hide Indices, Number;
    NumberOfIndices(n);
    forall v ensures v == Indices(n) <==> Number(v) == n {
      SameNumber(v, Indices(n));
    }
  }

  /** The defined part of a lookup function, as a finite map. */
  ghost function Defined(f: nat -> Option<Leaf>): map<nat, Leaf> {
    map n | 0 <= n < VPN_LIMIT && f(n).Some? :: f(n).value
  }

  lemma DefinedChangesOne(f: nat -> Option<Leaf>, g: nat -> Option<Leaf>, key: nat)
    requires key < VPN_LIMIT && forall n | 0 <= n < VPN_LIMIT && n != key :: g(n) == f(n)
    ensures g(key).Some? ==> Defined(g) == Defined(f)[key := g(key).value]
    ensures g(key).None? ==> Defined(g) == Defined(f) - {key}
  {
  }

  ghost function ByNumber(m: Memory, root: nat): nat -> Option<Leaf> {
    (n: nat) => Lookup(m, root, Indices(n))
  }

  /** A table as the finite map it stands for: 27-bit page number to frame and flags. */
  ghost function View(m: Memory, root: nat): map<nat, Leaf> {
    Defined(ByNumber(m, root))
  }

  lemma SameNumber(u: Vpn, v: Vpn)
    ensures u == v <==> Number(u) == Number(v)
  {
    IndicesOfNumber(u);
    IndicesOfNumber(v);
  }

  lemma SameIndices(vpn: nat, n: nat)
    requires n < VPN_LIMIT
    ensures Indices(n) == Indices(vpn) <==> n == vpn % VPN_LIMIT
  {
    assert Number(Indices(n)) == n by {
      NumberOfIndices(n);
    }
    assert Number(Indices(vpn)) == vpn % VPN_LIMIT by {
      NumberOfIndices(vpn);
    }
    SameNumber(Indices(n), Indices(vpn));
  }

  /** Changing the lookup of one page changes one key of the finite map. */
  lemma ViewChangesOne(m: Memory, m': Memory, root: nat, vpn: nat)
    requires forall v | v != Indices(vpn) :: Lookup(m', root, v) == Lookup(m, root, v)
    ensures Lookup(m', root, Indices(vpn)).Some? ==>
              View(m', root) == View(m, root)[vpn % VPN_LIMIT := Lookup(m', root, Indices(vpn)).value]
    ensures Lookup(m', root, Indices(vpn)).None? ==> View(m', root) == View(m, root) - {vpn % VPN_LIMIT}
  {
    var key := vpn % VPN_LIMIT;
    SameIndices(vpn, key);
    forall n | 0 <= n < VPN_LIMIT && n != key
      ensures ByNumber(m', root)(n) == ByNumber(m, root)(n)
    {
      SameIndices(vpn, n);
    }
    DefinedChangesOne(ByNumber(m, root), ByNumber(m', root), key);
  }

  /** Setting or clearing one leaf is one update of the finite map of its table, and none of any other. */
  lemma {:induction false} LeafSetRefines(m: Memory, own: Owners, m': Memory, own': Owners, root: nat, vpn: nat, leaf: Option<Leaf>, r: nat)
    requires LeafSet(m, own, m', own', root, Indices(vpn), leaf) && IsRoot(own, root) && IsRoot(own, r)
    ensures r == root && leaf.Some? ==> View(m', r) == View(m, r)[vpn % VPN_LIMIT := leaf.value]
    ensures r == root && leaf.None? ==> View(m', r) == View(m, r) - {vpn % VPN_LIMIT}
    ensures r != root ==> View(m', r) == View(m, r)
  {
    hide Lookup, Indices, Extends;
    if r == root {
      ViewChangesOne(m, m', root, vpn);
    } else {
      forall n | 0 <= n < VPN_LIMIT ensures ByNumber(m', r)(n) == ByNumber(m, r)(n) {
        assert Lookup(m', r, Indices(n)) == Lookup(m, r, Indices(n));
      }
    }
  }
}

/**
 Directory listings: the records of getdents64 and their paging (src/fs.rs read_dir,
 src/syscall.rs sys_getdents64).
 */
module Directory {
  import opened Base
  import opened FrameBytes

  type Bytes = seq<Byte>

  // ---- Records ----

  /** A directory entry: a name, an inode number and a type. */
  datatype Entry = Entry(name: Bytes, ino: nat, kind: Byte)

  /** A decoded record: the entry and the index of the next one. */
  datatype Record = Record(entry: Entry, next: nat)

  const HEADER: nat := 19

  /** `(19 + name_len + 7) & !7`, with the terminating NUL counted. */
  function RecLen(e: Entry): (n: nat)
    ensures n % 8 == 0 && HEADER + |e.name| + 1 <= n < HEADER + |e.name| + 9
  {
    (HEADER + |e.name| + 1 + 7) / 8 * 8
  }

  /** The record of entry number `idx`; numbers are little-endian, and the length has 16 bits. */
  function Encode(e: Entry, idx: nat): (b: Bytes)
    ensures |b| == RecLen(e)
  {
    LowBytes(e.ino, 8) + LowBytes(idx + 1, 8) + LowBytes(RecLen(e), 2) + [e.kind] + e.name
    + seq(RecLen(e) - HEADER - |e.name|, _ => 0)
  }

  /** The bytes up to the first NUL. */
  function UpToNul(b: Bytes): (s: Bytes)
    ensures |s| <= |b|
  {
    if b == [] || b[0] == 0 then [] else [b[0]] + UpToNul(b[1..])
  }

  /** The records in a buffer, as a reader takes them apart. */
  function Decode(b: Bytes): seq<Record> {
    if |b| < HEADER then []
    else
      var len := WordOf(b[16..18]);
      if len < HEADER || len > |b| then []
      else [Record(Entry(UpToNul(b[HEADER..len]), WordOf(b[..8]), b[18]), WordOf(b[8..16]))] + Decode(b[len..])
  }

  lemma {:induction false} UpToNulStops(name: Bytes, pad: nat)
    requires 0 !in name && pad > 0
    ensures UpToNul(name + seq(pad, _ => 0)) == name
  {
    var z: Bytes := seq(pad, _ => 0);
    if name != [] {
      UpToNulStops(name[1..], pad);
      assert (name + z)[1..] == name[1..] + z;
    }
  }

  /** What fits the format: NUL-free, with a length that 16 bits hold. */
  predicate Fits(e: Entry) {
    0 !in e.name && RecLen(e) < 0x1_0000 && e.ino < WORD_LIMIT
  }

  lemma Slices(e: Entry, idx: nat, rest: Bytes, b: Bytes, n: nat)
    requires n == RecLen(e) && b == Encode(e, idx) + rest
    ensures |b| >= n >= HEADER
    ensures b[..8] == LowBytes(e.ino, 8) && b[8..16] == LowBytes(idx + 1, 8) && b[16..18] == LowBytes(n, 2)
    ensures b[18] == e.kind && b[HEADER..n] == e.name + seq(n - HEADER - |e.name|, _ => 0) && b[n..] == rest
  {
    hide LowBytes, RecLen;
  }

  /** A reader gets back the entry that was written. */
  lemma DecodeEncode(e: Entry, idx: nat, rest: Bytes)
    requires Fits(e) && idx + 1 < WORD_LIMIT
    ensures Decode(Encode(e, idx) + rest) == [Record(e, idx + 1)] + Decode(rest)
  {
    hide Encode, LowBytes, WordOf, UpToNul, Pow256, RecLen;
    var n, b := RecLen(e), Encode(e, idx) + rest;
    Slices(e, idx, rest, b, n);
    Pow256At();
    WordOfLowBytes(e.ino, 8);
    WordOfLowBytes(idx + 1, 8);
    WordOfLowBytes(n, 2);
    UpToNulStops(e.name, n - HEADER - |e.name|);
  }

  // ---- Paging ----

  /** One call: the records from `from` on that fit into `room` bytes, and the next index. */
  function Page(entries: seq<Entry>, from: nat, room: nat): (Bytes, nat)
    decreases |entries| - from
  {
    if from >= |entries| || RecLen(entries[from]) > room then ([], from)
    else
      var (b, next) := Page(entries, from + 1, room - RecLen(entries[from]));
      (Encode(entries[from], from) + b, next)
  }

  /** The records of the entries from `from` up to `upto`. */
  function Records(entries: seq<Entry>, from: nat, upto: nat): (r: seq<Record>)
    requires from <= upto <= |entries|
    ensures |r| == upto - from
    ensures forall i | 0 <= i < |r| :: r[i] == Record(entries[from + i], from + i + 1)
    decreases upto - from
  {
    if from == upto then [] else [Record(entries[from], from + 1)] + Records(entries, from + 1, upto)
  }

  lemma RecordsJoin(entries: seq<Entry>, a: nat, b: nat, c: nat)
    requires a <= b <= c <= |entries|
    ensures Records(entries, a, b) + Records(entries, b, c) == Records(entries, a, c)
  {
  }

  ghost predicate AllFit(entries: seq<Entry>) {
    |entries| < WORD_LIMIT && forall i | 0 <= i < |entries| :: Fits(entries[i])
  }

  /** One call returns whole records of consecutive entries, in as many bytes as fit. */
  lemma {:induction false} PageDecodes(entries: seq<Entry>, from: nat, room: nat, rest: Bytes)
    requires AllFit(entries) && from <= |entries|
    ensures var (b, next) := Page(entries, from, room);
            && from <= next <= |entries| && |b| <= room && |b| % 8 == 0
            && (next == from <==> b == []) && (b == [] <==> from == |entries| || RecLen(entries[from]) > room)
            && Decode(b + rest) == Records(entries, from, next) + Decode(rest)
    decreases |entries| - from
  {
    hide Decode, Encode, RecLen;
    if from >= |entries| || RecLen(entries[from]) > room {
      assert [] + rest == rest;
    } else {
      var e := entries[from];
      var (b, next) := Page(entries, from + 1, room - RecLen(e));
      PageDecodes(entries, from + 1, room - RecLen(e), rest);
      DecodeEncode(e, from, b + rest);
      assert Encode(e, from) + (b + rest) == Encode(e, from) + b + rest;
    }
  }

  /** Repeated calls with buffers of the given sizes: all bytes, and the index after the last. */
  function Calls(entries: seq<Entry>, from: nat, rooms: seq<nat>): (Bytes, nat)
    decreases |rooms|
  {
    if rooms == [] then ([], from)
    else
      var (b, next) := Page(entries, from, rooms[0]);
      var (c, last) := Calls(entries, next, rooms[1..]);
      (b + c, last)
  }

  lemma NothingDecodes(entries: seq<Entry>, from: nat)
    requires from <= |entries|
    ensures Decode([]) == Records(entries, from, from) == []
  {
  }

  /** However the calls are sized, together they return the entries in order, each once. */
  lemma {:induction false} CallsDecode(entries: seq<Entry>, from: nat, rooms: seq<nat>)
    requires AllFit(entries) && from <= |entries|
    ensures var (b, last) := Calls(entries, from, rooms);
            from <= last <= |entries| && Decode(b) == Records(entries, from, last)
    decreases |rooms|
  {
    hide Page, Decode, Records, AllFit;
    if rooms != [] {
      var (b, next) := Page(entries, from, rooms[0]);
      var (c, last) := Calls(entries, next, rooms[1..]);
      PageDecodes(entries, from, rooms[0], c);
      CallsDecode(entries, next, rooms[1..]);
      RecordsJoin(entries, from, next, last);
    } else {
      NothingDecodes(entries, from);
    }
  }

  /** Every buffer has room for the next record, as long as there is one. */
  ghost predicate RoomForNext(entries: seq<Entry>, from: nat, rooms: seq<nat>)
    decreases |rooms|
  {
    rooms != [] ==>
      && (from < |entries| ==> RecLen(entries[from]) <= rooms[0])
      && RoomForNext(entries, Page(entries, from, rooms[0]).1, rooms[1..])
  }

  /** With room for the next record, as many calls as there are entries return them all, and the
      call after that returns nothing. */
  lemma {:induction false} CallsFinish(entries: seq<Entry>, from: nat, rooms: seq<nat>)
    requires AllFit(entries) && from <= |entries| && RoomForNext(entries, from, rooms)
    requires |rooms| >= |entries| - from
    ensures Calls(entries, from, rooms).1 == |entries|
    ensures forall room :: Page(entries, |entries|, room) == ([], |entries|)
    decreases |rooms|
  {
    if rooms != [] {
      PageDecodes(entries, from, rooms[0], []);
      CallsFinish(entries, Page(entries, from, rooms[0]).1, rooms[1..]);
    }
  }

  // ---- What a directory lists ----

  const SLASH: Byte := 0x2f
  const DOT: Byte := 0x2e

  /** A file as a listing sees it: its path and its length. */
  datatype File = File(path: Bytes, len: nat)

  predicate StartsWith(p: Bytes, prefix: Bytes) {
    |prefix| <= |p| && p[..|prefix|] == prefix
  }

  /** Everything before the first slash. */
  function NameOf(rest: Bytes): (n: Bytes)
    ensures StartsWith(rest, n) && SLASH !in n
  {
    if rest == [] || rest[0] == SLASH then [] else [rest[0]] + NameOf(rest[1..])
  }

  /** The order of the file map. */
  predicate Less(a: Bytes, b: Bytes) {
    b != [] && (a == [] || a[0] < b[0] || (a[0] == b[0] && Less(a[1..], b[1..])))
  }

  ghost predicate Sorted(files: seq<File>) {
    forall i, j | 0 <= i < j < |files| :: Less(files[i].path, files[j].path)
  }

  /** `lookup`: the smallest inode of a path. */
  function Lookup(inodes: map<nat, Bytes>, path: Bytes, lo: nat, hi: nat): (r: Option<nat>)
    ensures r.Some? ==> lo <= r.value < hi && r.value in inodes && inodes[r.value] == path
    ensures r.Some? ==> forall i | lo <= i < r.value :: i in inodes ==> inodes[i] != path
    ensures r.None? ==> forall i | lo <= i < hi :: i in inodes ==> inodes[i] != path
    decreases hi - lo
  {
    if lo >= hi then None
    else if lo in inodes && inodes[lo] == path then Some(lo)
    else Lookup(inodes, path, lo + 1, hi)
  }

  /** The inode map and its bound. */
  datatype Inodes = Inodes(map_: map<nat, Bytes>, next: nat)

  function InoOf(inodes: Inodes, path: Bytes): nat {
    match Lookup(inodes.map_, path, 0, inodes.next)
    case Some(i) => i
    case None => 0
  }

  /** The path lies below the prefix, in its entry called `name`. */
  predicate Below(path: Bytes, prefix: Bytes, name: Bytes) {
    StartsWith(path, prefix) && path != prefix && NameOf(path[|prefix|..]) == name
  }

  predicate Has(entries: seq<Entry>, name: Bytes) {
    exists i | 0 <= i < |entries| :: entries[i].name == name
  }

  function KindOf(len: nat): Byte {
    if len == 0 then 4 else 8
  }

  /** The entries after the loop over the files. */
  function Collect(files: seq<File>, inodes: Inodes, prefix: Bytes, found: seq<Entry>): seq<Entry>
    decreases |files|
  {
    if files == [] then found
    else
      var File(path, len) := files[0];
      if !StartsWith(path, prefix) || path == prefix || Has(found, NameOf(path[|prefix|..]))
      then Collect(files[1..], inodes, prefix, found)
      else Collect(files[1..], inodes, prefix, found + [Entry(NameOf(path[|prefix|..]), InoOf(inodes, path), KindOf(len))])
  }

  lemma HasAppend(found: seq<Entry>, e: Entry, name: Bytes)
    ensures Has(found + [e], name) <==> Has(found, name) || e.name == name
  {
    if e.name == name {
      assert (found + [e])[|found|].name == name;
    }
    if i :| 0 <= i < |found| && found[i].name == name {
      assert (found + [e])[i].name == name;
    }
  }

  lemma {:induction false} LongerIsNotLess(p: Bytes, q: Bytes)
    requires StartsWith(p, q)
    ensures !Less(p, q)
  {
    if q != [] {
      assert p[1..][..|q| - 1] == q[1..];
      LongerIsNotLess(p[1..], q[1..]);
    }
  }

  lemma {:induction false} NameOfIs(rest: Bytes, name: Bytes)
    requires SLASH !in name
    ensures NameOf(rest) == name <==> rest == name || name + [SLASH] <= rest
  {
    if rest != [] && rest[0] != SLASH && name != [] {
      NameOfIs(rest[1..], name[1..]);
      assert rest == [rest[0]] + rest[1..] && name == [name[0]] + name[1..];
    }
  }

  // ---- read_dir ----

  /** The file system that `read_dir` looks at. */
  datatype Tree = Tree(files: seq<File>, inodes: Inodes)

  function IndexOf(files: seq<File>, path: Bytes): (r: Option<nat>)
    ensures r.Some? ==> r.value < |files| && files[r.value].path == path
    ensures r.None? ==> forall i | 0 <= i < |files| :: files[i].path != path
  {
    if files == [] then None
    else if files[0].path == path then Some(0)
    else
      match IndexOf(files[1..], path)
      case Some(i) => Some(i + 1)
      case None => assert forall i | 0 < i < |files| :: files[i].path == files[1..][i - 1].path; None
  }

  function PrefixOf(dir: Bytes): Bytes {
    if dir == [SLASH] then dir else dir + [SLASH]
  }

  function Dots(inode: nat): seq<Entry> {
    [Entry([DOT], inode, 4), Entry([DOT, DOT], inode, 4)]
  }

  /** The entries of a directory, or none if the inode is not one. */
  function Listing(t: Tree, inode: nat): Option<seq<Entry>> {
    if inode !in t.inodes.map_ then None
    else
      var dir := t.inodes.map_[inode];
      match IndexOf(t.files, dir)
      case None => None
      case Some(i) =>
        if t.files[i].len != 0 then None
        else Some(Collect(t.files, t.inodes, PrefixOf(dir), Dots(inode)))
  }

  // ---- What a listing says ----

  /** The path is that of the entry `name` of the directory, or lies below it. */
  ghost predicate InChild(dir: Bytes, name: Bytes, path: Bytes) {
    var child := if dir == [0x2f] then [0x2f] + name else dir + [0x2f] + name;
    (name != [] && path == child) || child + [0x2f] <= path
  }

  lemma InChildIsBelow(dir: Bytes, name: Bytes, path: Bytes)
    requires SLASH !in name
    ensures InChild(dir, name, path) <==> Below(path, PrefixOf(dir), name)
  {
    var prefix := PrefixOf(dir);
    if StartsWith(path, prefix) {
      NameOfIs(path[|prefix|..], name);
      assert path == prefix + path[|prefix|..];
      if prefix + name + [SLASH] <= path {
        assert path[|prefix|..][..|name| + 1] == path[..|prefix| + |name| + 1][|prefix|..] == name + [SLASH];
      }
    }
  }

  /** A name that a file can give a directory: not with a slash, and not one of the dots. */
  predicate Plain(name: Bytes) {
    0x2f !in name && name != [0x2e] && name != [0x2e, 0x2e]
  }

  /** In the order of the file map, the file at `i` is the first of the entry. */
  ghost predicate FirstIn(files: seq<File>, dir: Bytes, name: Bytes, i: nat) {
    i < |files| && InChild(dir, name, files[i].path) && forall j | 0 <= j < i :: !InChild(dir, name, files[j].path)
  }

  /** The record has the smallest inode whose path is the file's, or 0 if there is none, and type 4 exactly if the
      file is empty, else 8. */
  ghost predicate About(e: Entry, f: File, inodes: map<nat, Bytes>) {
    && e.kind == (if f.len == 0 then 4 else 8)
    && (if exists n | n in inodes :: inodes[n] == f.path then
          e.ino in inodes && inodes[e.ino] == f.path && forall n | n in inodes && inodes[n] == f.path :: e.ino <= n
        else e.ino == 0)
  }

  ghost predicate ListedAt(e: Entry, t: Tree, dir: Bytes, i: nat) {
    Plain(e.name) && FirstIn(t.files, dir, e.name, i) && About(e, t.files[i], t.inodes.map_)
  }

  /** The dots, then for each plain name that some file is in, in the order of the first such files, a record about
      that file. */
  ghost predicate Lists(entries: seq<Entry>, t: Tree, inode: nat, dir: Bytes, at: seq<nat>) {
    && |entries| == |at| + 2 && entries[0] == Entry([0x2e], inode, 4) && entries[1] == Entry([0x2e, 0x2e], inode, 4)
    && (forall i, j | 0 <= i < j < |at| :: at[i] < at[j])
    && (forall i | 0 <= i < |at| :: ListedAt(entries[i + 2], t, dir, at[i]))
    && (forall j, name | Plain(name) && FirstIn(t.files, dir, name, j) :: j in at)
  }

  /** What the loop found in the first `k` files, at the indices `at`. */
  ghost predicate Found(entries: seq<Entry>, t: Tree, inode: nat, prefix: Bytes, k: nat, at: seq<nat>) {
    && k <= |t.files| && |entries| == |at| + 2 && entries[..2] == Dots(inode)
    && (forall i, j | 0 <= i < j < |at| :: at[i] < at[j])
    && (forall i | 0 <= i < |at| :: at[i] < k && FoundAt(entries[i + 2], t, prefix, at[i]))
    && (forall j | 0 <= j < k && Under(t.files[j].path, prefix) :: Has(entries, NameOf(t.files[j].path[|prefix|..])))
  }

  predicate Under(path: Bytes, prefix: Bytes) {
    StartsWith(path, prefix) && path != prefix
  }

  ghost predicate FoundAt(e: Entry, t: Tree, prefix: Bytes, i: nat) {
    && i < |t.files| && Below(t.files[i].path, prefix, e.name) && e.name != [DOT] && e.name != [DOT, DOT]
    && e.ino == InoOf(t.inodes, t.files[i].path) && e.kind == KindOf(t.files[i].len)
    && forall j | 0 <= j < i :: !Below(t.files[j].path, prefix, e.name)
  }

  lemma HasDots(entries: seq<Entry>, inode: nat)
    requires |entries| >= 2 && entries[..2] == Dots(inode)
    ensures Has(entries, [DOT]) && Has(entries, [DOT, DOT])
    ensures entries[0] == Entry([DOT], inode, 4) && entries[1] == Entry([DOT, DOT], inode, 4)
  {
    assert entries[0] == entries[..2][0] && entries[1] == entries[..2][1];
  }

  lemma FoundNext(entries: seq<Entry>, t: Tree, inode: nat, prefix: Bytes, k: nat, at: seq<nat>)
    requires Found(entries, t, inode, prefix, k, at) && k < |t.files| && Under(t.files[k].path, prefix)
    requires !Has(entries, NameOf(t.files[k].path[|prefix|..]))
    ensures var f := t.files[k];
            var e := Entry(NameOf(f.path[|prefix|..]), InoOf(t.inodes, f.path), KindOf(f.len));
            Found(entries + [e], t, inode, prefix, k + 1, at + [k])
  {
    hide InoOf, NameOf, KindOf;
    var f := t.files[k];
    var e := Entry(NameOf(f.path[|prefix|..]), InoOf(t.inodes, f.path), KindOf(f.len));
    HasDots(entries, inode);
    assert (entries + [e])[..2] == entries[..2];
    forall j | 0 <= j < k && Under(t.files[j].path, prefix)
      ensures Has(entries + [e], NameOf(t.files[j].path[|prefix|..]))
    {
      HasAppend(entries, e, NameOf(t.files[j].path[|prefix|..]));
    }
    HasAppend(entries, e, e.name);
    assert FoundAt(e, t, prefix, k);
  }

  lemma {:induction false} CollectFinds(entries: seq<Entry>, t: Tree, inode: nat, prefix: Bytes, k: nat, at: seq<nat>)
    requires Found(entries, t, inode, prefix, k, at)
    ensures exists at' :: Found(Collect(t.files[k..], t.inodes, prefix, entries), t, inode, prefix, |t.files|, at')
    decreases |t.files| - k
  {
    hide InoOf, NameOf, KindOf, FoundAt;
    if k < |t.files| {
      assert t.files[k..][1..] == t.files[k + 1..];
      var f := t.files[k];
      if Under(f.path, prefix) && !Has(entries, NameOf(f.path[|prefix|..])) {
        FoundNext(entries, t, inode, prefix, k, at);
        var entries' := entries + [Entry(NameOf(f.path[|prefix|..]), InoOf(t.inodes, f.path), KindOf(f.len))];
        CollectFinds(entries', t, inode, prefix, k + 1, at + [k]);
        assert Collect(t.files[k..], t.inodes, prefix, entries) == Collect(t.files[k + 1..], t.inodes, prefix, entries');
      } else {
        CollectFinds(entries, t, inode, prefix, k + 1, at);
        assert Collect(t.files[k..], t.inodes, prefix, entries) == Collect(t.files[k + 1..], t.inodes, prefix, entries);
      }
    } else {
      assert t.files[k..] == [] && Found(Collect([], t.inodes, prefix, entries), t, inode, prefix, |t.files|, at);
    }
  }

  /** No inode is numbered from the counter on. */
  ghost predicate Bounded(inodes: Inodes) {
    forall n | n in inodes.map_ :: n < inodes.next
  }

  lemma FoundIsAbout(e: Entry, t: Tree, dir: Bytes, i: nat)
    requires Bounded(t.inodes) && FoundAt(e, t, PrefixOf(dir), i)
    ensures ListedAt(e, t, dir, i)
  {
    forall j | 0 <= j <= i ensures InChild(dir, e.name, t.files[j].path) <==> Below(t.files[j].path, PrefixOf(dir), e.name) {
      InChildIsBelow(dir, e.name, t.files[j].path);
    }
  }

  /** The first file of a plain name has been found. */
  lemma FirstIsFound(entries: seq<Entry>, t: Tree, inode: nat, dir: Bytes, at: seq<nat>, name: Bytes, j: nat)
    requires Found(entries, t, inode, PrefixOf(dir), |t.files|, at) && Plain(name) && FirstIn(t.files, dir, name, j)
    ensures j in at
  {
    hide PrefixOf, InChild, NameOf, StartsWith, InoOf, KindOf;
    var prefix := PrefixOf(dir);
    forall i | 0 <= i < |t.files| ensures InChild(dir, name, t.files[i].path) <==> Below(t.files[i].path, prefix, name) {
      InChildIsBelow(dir, name, t.files[i].path);
    }
    assert Under(t.files[j].path, prefix);
    HasDots(entries, inode);
    var i :| 0 <= i < |entries| && entries[i].name == name;
    assert FoundAt(entries[i - 2 + 2], t, prefix, at[i - 2]);
    assert at[i - 2] == j;
  }

  lemma FoundIsListed(entries: seq<Entry>, t: Tree, inode: nat, dir: Bytes, at: seq<nat>)
    requires Bounded(t.inodes) && Found(entries, t, inode, PrefixOf(dir), |t.files|, at)
    ensures Lists(entries, t, inode, dir, at)
  {
    hide PrefixOf, FoundAt, FirstIn, ListedAt, Plain, Bounded, Has;
    HasDots(entries, inode);
    forall i | 0 <= i < |at| ensures ListedAt(entries[i + 2], t, dir, at[i]) {
      FoundIsAbout(entries[i + 2], t, dir, at[i]);
    }
    forall j, name | Plain(name) && FirstIn(t.files, dir, name, j) ensures j in at {
      FirstIsFound(entries, t, inode, dir, at, name, j);
    }
  }

  lemma SamePath(files: seq<File>, i: nat, j: nat)
    requires Sorted(files) && i < |files| && j < |files| && files[i].path == files[j].path
    ensures i == j
  {
    LongerIsNotLess(files[i].path, files[j].path);
  }

  /** Some file has the path and length 0. */
  ghost predicate HoldsEmpty(files: seq<File>, path: Bytes) {
    exists i | 0 <= i < |files| :: files[i].path == path && files[i].len == 0
  }

  /** An inode has a listing exactly if its path is that of an empty file, and the listing is the dots and one record
      for each name in the directory. */
  lemma ListingIsExact(t: Tree, inode: nat)
    requires Sorted(t.files) && Bounded(t.inodes)
    ensures Listing(t, inode).Some? <==> inode in t.inodes.map_ && HoldsEmpty(t.files, t.inodes.map_[inode])
    ensures Listing(t, inode).Some? ==>
              exists at :: Lists(Listing(t, inode).value, t, inode, t.inodes.map_[inode], at)
  {
    hide Collect, Lists, Sorted, Bounded, Found, PrefixOf;
    if inode in t.inodes.map_ {
      var dir := t.inodes.map_[inode];
      if i :| 0 <= i < |t.files| && t.files[i].path == dir && t.files[i].len == 0 {
        SamePath(t.files, i, IndexOf(t.files, dir).value);
      }
      if Listing(t, inode).Some? {
        StartIsFound(t, inode, PrefixOf(dir));
        CollectFinds(Dots(inode), t, inode, PrefixOf(dir), 0, []);
        assert t.files[0..] == t.files;
        var at :| Found(Listing(t, inode).value, t, inode, PrefixOf(dir), |t.files|, at);
        FoundIsListed(Listing(t, inode).value, t, inode, dir, at);
      }
    }
  }

  lemma StartIsFound(t: Tree, inode: nat, prefix: Bytes)
    ensures Found(Dots(inode), t, inode, prefix, 0, [])
  {
  }

  /** A path that lies below another comes after it, so an entry whose own path is a file has that file first. */
  lemma OwnIsFirst(files: seq<File>, dir: Bytes, name: Bytes, j: nat)
    requires Sorted(files) && j < |files| && name != []
    requires files[j].path == if dir == [0x2f] then [0x2f] + name else dir + [0x2f] + name
    ensures FirstIn(files, dir, name, j)
  {
    forall i | 0 <= i < j ensures !InChild(dir, name, files[i].path) {
      assert Less(files[i].path, files[j].path);
      if InChild(dir, name, files[i].path) {
        assert files[i].path[..|files[j].path|] == files[j].path;
        LongerIsNotLess(files[i].path, files[j].path);
      }
    }
  }

  lemma {:induction false} FirstExists(files: seq<File>, dir: Bytes, name: Bytes, i: nat) returns (j: nat)
    requires i < |files| && InChild(dir, name, files[i].path)
    ensures FirstIn(files, dir, name, j)
  {
    if k: nat :| k < i && InChild(dir, name, files[k].path) {
      j := FirstExists(files, dir, name, k);
    } else {
      j := i;
    }
  }

  /** A path is in one entry only, so the record at the first file of a name has that name. */
  lemma FirstIsListed(entries: seq<Entry>, t: Tree, inode: nat, dir: Bytes, at: seq<nat>, name: Bytes, j: nat)
    requires Lists(entries, t, inode, dir, at) && Plain(name) && FirstIn(t.files, dir, name, j)
    ensures exists i | 0 <= i < |entries| :: entries[i].name == name && About(entries[i], t.files[j], t.inodes.map_)
  {
    hide InChild, About, PrefixOf, NameOf, StartsWith;
    var i :| 0 <= i < |at| && at[i] == j;
    InChildIsBelow(dir, name, t.files[j].path);
    InChildIsBelow(dir, entries[i + 2].name, t.files[j].path);
    assert entries[i + 2].name == name;
  }

  /** The names are distinct, a plain name is listed exactly if some file's path is the entry's or lies below it, and the
      record of an entry that is a file itself is about that file. */
  lemma ListedNames(t: Tree, inode: nat, name: Bytes)
    requires Sorted(t.files) && Bounded(t.inodes) && Listing(t, inode).Some? && Plain(name)
    ensures var entries, dir := Listing(t, inode).value, t.inodes.map_[inode];
            && (forall i, j | 0 <= i < j < |entries| :: entries[i].name != entries[j].name)
            && ((exists i | 0 <= i < |entries| :: entries[i].name == name) <==>
                  exists i | 0 <= i < |t.files| :: InChild(dir, name, t.files[i].path))
            && (name != [] ==>
                  forall j | 0 <= j < |t.files| &&
                             t.files[j].path == (if dir == [0x2f] then [0x2f] + name else dir + [0x2f] + name) ::
                    exists e | e in entries && e.name == name :: About(e, t.files[j], t.inodes.map_))
  {
    hide Listing, Sorted, Bounded, About, InChild;
    ListingIsExact(t, inode);
    var entries, dir := Listing(t, inode).value, t.inodes.map_[inode];
    var at :| Lists(entries, t, inode, dir, at);
    forall i, j | 0 <= i < j < |entries| ensures entries[i].name != entries[j].name {
      if 2 <= i {
        assert at[i - 2] < at[j - 2] && ListedAt(entries[i - 2 + 2], t, dir, at[i - 2]);
        assert ListedAt(entries[j - 2 + 2], t, dir, at[j - 2]);
      } else if 2 <= j {
        assert ListedAt(entries[j - 2 + 2], t, dir, at[j - 2]);
      }
    }
    if i :| 0 <= i < |entries| && entries[i].name == name {
      assert i >= 2 && ListedAt(entries[i - 2 + 2], t, dir, at[i - 2]);
    }
    forall i | 0 <= i < |t.files| && InChild(dir, name, t.files[i].path)
      ensures exists j | 0 <= j < |entries| :: entries[j].name == name
    {
      var j := FirstExists(t.files, dir, name, i);
      FirstIsListed(entries, t, inode, dir, at, name, j);
    }
    if name != [] {
      forall j | 0 <= j < |t.files| && t.files[j].path == (if dir == [0x2f] then [0x2f] + name else dir + [0x2f] + name)
        ensures exists e | e in entries && e.name == name :: About(e, t.files[j], t.inodes.map_)
      {
        OwnIsFirst(t.files, dir, name, j);
        FirstIsListed(entries, t, inode, dir, at, name, j);
      }
    }
  }

  /** The loop of `read_dir` that collects the entries. */
  method CollectEntries(t: Tree, prefix: Bytes, inode: nat) returns (entries: seq<Entry>)
    ensures entries == Collect(t.files, t.inodes, prefix, Dots(inode))
  {
    hide InoOf, NameOf, StartsWith;
    entries := Dots(inode);
    var seen: set<Bytes> := {[DOT], [DOT, DOT]};
    assert entries[0].name == [DOT] && entries[1].name == [DOT, DOT];
    var i := 0;
    assert t.files[0..] == t.files;
    while i < |t.files|
      invariant i <= |t.files|
      invariant forall n :: n in seen <==> Has(entries, n)
      invariant Collect(t.files[i..], t.inodes, prefix, entries) == Collect(t.files, t.inodes, prefix, Dots(inode))
    {
      assert t.files[i..][1..] == t.files[i + 1..];
      var File(path, len) := t.files[i];
      if StartsWith(path, prefix) && path != prefix {
        StartsWithLength(path, prefix);
        var name := NameOf(path[|prefix|..]);
        if name !in seen {
          var e := Entry(name, InoOf(t.inodes, path), KindOf(len));
          forall n ensures Has(entries + [e], n) <==> Has(entries, n) || n == name {
            HasAppend(entries, e, n);
          }
          seen := seen + {name};
          entries := entries + [e];
        }
      }
      i := i + 1;
    }
  }

  lemma StartsWithLength(p: Bytes, prefix: Bytes)
    requires StartsWith(p, prefix)
    ensures |prefix| <= |p|
  {
  }

  method CopyTo(buf: array<Byte>, at: nat, data: Bytes)
    requires at + |data| <= buf.Length
    modifies buf
    ensures buf[..] == Splice(old(buf[..]), at, data)
  {
    var i := 0;
    while i < |data|
      invariant i <= |data|
      invariant buf[..] == Splice(old(buf[..]), at, data[..i])
    {
      buf[at + i] := data[i];
      i := i + 1;
    }
    assert data[..|data|] == data;
  }

  /** The page from `from` on is `done` followed by the page from `next` on. */
  ghost predicate Filled(entries: seq<Entry>, from: nat, room: nat, done: Bytes, next: nat) {
    |done| <= room &&
    var (b, last) := Page(entries, next, room - |done|);
    Page(entries, from, room) == (done + b, last)
  }

  lemma FilledNext(entries: seq<Entry>, from: nat, room: nat, done: Bytes, next: nat)
    requires Filled(entries, from, room, done, next)
    requires next < |entries| && |done| + RecLen(entries[next]) <= room
    ensures Filled(entries, from, room, done + Encode(entries[next], next), next + 1)
  {
    hide Encode, RecLen;
    var rec := Encode(entries[next], next);
    var (b, last) := Page(entries, next + 1, room - |done| - |rec|);
    assert done + (rec + b) == done + rec + b;
  }

  lemma FilledEnds(entries: seq<Entry>, from: nat, room: nat, done: Bytes, next: nat)
    ensures Filled(entries, from, room, [], from)
    ensures Filled(entries, from, room, done, next) && (next >= |entries| || |done| + RecLen(entries[next]) > room) ==>
              Page(entries, from, room) == (done, next)
  {
    hide RecLen;
    assert [] + Page(entries, from, room).0 == Page(entries, from, room).0;
    assert done + [] == done;
  }

  /** The loop of `read_dir` that fills the buffer. */
  method FillBuffer(buf: array<Byte>, entries: seq<Entry>, offset: nat) returns (n: nat, next: nat)
    modifies buf
    ensures n <= buf.Length && (buf[..n], next) == Page(entries, offset, buf.Length)
  {
    hide Encode, RecLen, Page, Filled;
    n, next := 0, offset;
    FilledEnds(entries, offset, buf.Length, [], offset);
    assert buf[..0] == [];
    while next < |entries| && n + RecLen(entries[next]) <= buf.Length
      invariant n <= buf.Length && Filled(entries, offset, buf.Length, buf[..n], next)
      decreases |entries| - next
    {
      var rec := Encode(entries[next], next);
      ghost var done := buf[..n];
      FilledNext(entries, offset, buf.Length, done, next);
      CopyTo(buf, n, rec);
      assert buf[..n + |rec|] == done + rec;
      n := n + |rec|;
      next := next + 1;
    }
    FilledEnds(entries, offset, buf.Length, buf[..n], next);
  }

  /** `read_dir` */
  method ReadDir(t: Tree, inode: nat, buf: array<Byte>, offset: nat) returns (n: nat, next: nat)
    modifies buf
    ensures n <= buf.Length
    ensures match Listing(t, inode)
            case None => n == 0 && next == offset
            case Some(entries) => (buf[..n], next) == Page(entries, offset, buf.Length)
    ensures Sorted(t.files) && Bounded(t.inodes) ==>
              if inode in t.inodes.map_ && HoldsEmpty(t.files, t.inodes.map_[inode]) then
                exists entries, at ::
                  && Lists(entries, t, inode, t.inodes.map_[inode], at)
                  && (buf[..n], next) == Page(entries, offset, buf.Length)
              else n == 0 && next == offset
  {
    hide Page, Collect, Sorted, Bounded, Lists;
    if Sorted(t.files) && Bounded(t.inodes) {
      ListingIsExact(t, inode);
    }
    if inode !in t.inodes.map_ {
      return 0, offset;
    }
    var dir := t.inodes.map_[inode];
    var i := IndexOf(t.files, dir);
    if i.None? || t.files[i.value].len != 0 {
      return 0, offset;
    }
    var entries := CollectEntries(t, PrefixOf(dir), inode);
    n, next := FillBuffer(buf, entries, offset);
  }

  /** Repeated `sys_getdents64` calls on one descriptor, in buffers of the given sizes: together the bytes
      decode to the entries of the directory, in order and each once. */
  method GetdentsRun(t: Tree, inode: nat, rooms: seq<nat>) returns (out: Bytes, offset: nat)
    requires Listing(t, inode).Some? && AllFit(Listing(t, inode).value)
    ensures (out, offset) == Calls(Listing(t, inode).value, 0, rooms)
    ensures offset <= |Listing(t, inode).value| && Decode(out) == Records(Listing(t, inode).value, 0, offset)
  {
    hide Page, Listing, AllFit, Decode;
    out, offset := [], 0;
    ghost var entries := Listing(t, inode).value;
    var i := 0;
    assert rooms[0..] == rooms && [] + Calls(entries, 0, rooms).0 == Calls(entries, 0, rooms).0;
    while i < |rooms|
      invariant i <= |rooms|
      invariant var (b, last) := Calls(entries, offset, rooms[i..]); Calls(entries, 0, rooms) == (out + b, last)
    {
      assert rooms[i..][1..] == rooms[i + 1..];
      var buf := new Byte[rooms[i]](_ => 0);
      var n, next := ReadDir(t, inode, buf, offset);
      ghost var (b, last) := Calls(entries, next, rooms[i + 1..]);
      assert out + (buf[..n] + b) == out + buf[..n] + b;
      PageStays(entries, offset, rooms[i]);
      if n > 0 {
        out := out + buf[..n];
        offset := next;
      } else {
        assert out + buf[..n] == out;
      }
      i := i + 1;
    }
    assert out + [] == out;
    CallsDecode(entries, 0, rooms);
  }

  lemma PageStays(entries: seq<Entry>, from: nat, room: nat)
    ensures Page(entries, from, room).0 == [] ==> Page(entries, from, room).1 == from
  {
  }
}

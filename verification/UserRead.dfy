/**
 Reading user memory through a table (src/syscall.rs: read_user_u64, read_user_byte,
 read_user_str and the argument loops of sys_execve).
 */
module UserRead {
  import opened Base
  import opened Sv39
  import opened FrameBytes

  /** The byte at physical address `pa`; addresses outside memory read as zero. */
  function PhysByte(m: Memory, pa: nat): Byte {
    if pa / PAGE_SIZE in m then BytesOf(m[pa / PAGE_SIZE])[pa % PAGE_SIZE] else 0
  }

  /** The n bytes from `pa` up. */
  function PhysBytes(m: Memory, pa: nat, n: nat): seq<Byte>
    decreases n, pa
  {
    if n == 0 then [] else [PhysByte(m, pa)] + PhysBytes(m, pa + 1, n - 1)
  }

  /** The eight bytes from `pa` up, as a little-endian word. */
  function PhysWord(m: Memory, pa: nat): nat {
    WordOf(PhysBytes(m, pa, 8))
  }

  /** The physical address `va` translates to. */
  function Translated(m: Memory, root: nat, va: nat): Option<nat> {
    match Lookup(m, root, Indices(va / PAGE_SIZE))
    case None => None
    case Some(leaf) => Some(leaf.ppn * PAGE_SIZE + va % PAGE_SIZE)
  }

  /** `read_user_byte` */
  function ReadByte(m: Memory, root: nat, va: nat): Option<Byte> {
    match Translated(m, root, va)
    case None => None
    case Some(pa) => Some(PhysByte(m, pa))
  }

  /** `read_user_u64` */
  function ReadWord(m: Memory, root: nat, va: nat): Option<nat> {
    match Translated(m, root, va)
    case None => None
    case Some(pa) => Some(PhysWord(m, pa))
  }

  lemma PageOffset(q: nat, o: nat)
    requires o < PAGE_SIZE
    ensures (q * PAGE_SIZE + o) / PAGE_SIZE == q && (q * PAGE_SIZE + o) % PAGE_SIZE == o
  {
  }

  lemma PhysByteInPage(m: Memory, q: nat, b: seq<Byte>, o: nat)
    requires q in m && b == BytesOf(m[q]) && o < PAGE_SIZE
    ensures PhysByte(m, q * PAGE_SIZE + o) == b[o]
  {
    PageOffset(q, o);
  }

  /** `s.push(b as char)`: the character U+00b in UTF-8. */
  function PushChar(s: seq<Byte>, b: Byte): seq<Byte> {
    if b < 0x80 then s + [b] else s + [0xc0 + b / 64, 0x80 + b % 64]
  }

  /** User memory as the syscalls see it: `read_user_byte` and `read_user_u64`. */
  datatype View = View(byte: nat -> Option<Byte>, word: nat -> Option<nat>)

  function ViewOf(m: Memory, root: nat): View {
    View((va: nat) => ReadByte(m, root, va), (va: nat) => ReadWord(m, root, va))
  }

  /** The rest of `read_user_str` from offset `off`, with `s` read so far. */
  function StrFrom(view: View, addr: nat, off: nat, s: seq<Byte>): Option<seq<Byte>>
    requires off <= 4096
    decreases 4096 - off, s
  {
    match view.byte(addr + off)
    case None => None
    case Some(b) =>
      if b == 0 then Some(s)
      else if off + 1 > 4096 then None
      else StrFrom(view, addr, off + 1, PushChar(s, b))
  }

  /** `read_user_str` */
  method ReadStr(view: View, addr: nat) returns (r: Option<seq<Byte>>)
    ensures r == StrFrom(view, addr, 0, [])
  {
    var s: seq<Byte> := [];
    var off := 0;
    while true
      invariant off <= 4096
      invariant StrFrom(view, addr, 0, []) == StrFrom(view, addr, off, s)
      decreases 4096 - off
    {
      var b := view.byte(addr + off);
      if b.None? {
        return None;
      }
      if b.value == 0 {
        return Some(s);
      }
      s := PushChar(s, b.value);
      off := off + 1;
      if off > 4096 {
        return None;
      }
    }
  }

  /** The rest of an argument loop of `sys_execve` from index `i`, with `acc` read so far. */
  function VectorFrom(view: View, base: nat, i: nat, acc: seq<seq<Byte>>): seq<seq<Byte>>
    requires i <= 128
    decreases 128 - i, acc
  {
    match view.word(base + i * 8)
    case None => acc
    case Some(ptr) =>
      if ptr == 0 then acc
      else
        match StrFrom(view, ptr, 0, [])
        case None => acc
        case Some(s) =>
          if i + 1 > 128 then acc + [s] else VectorFrom(view, base, i + 1, acc + [s])
  }

  /** The argument loop: reads pointers until a null, an unmapped word or an unreadable string. */
  method ReadVector(view: View, base: nat) returns (r: seq<seq<Byte>>)
    ensures r == VectorFrom(view, base, 0, [])
  {
    r := [];
    var i := 0;
    while true
      invariant i <= 128
      invariant VectorFrom(view, base, 0, []) == VectorFrom(view, base, i, r)
      decreases 128 - i
    {
      var ptr := view.word(base + i * 8);
      if ptr.None? || ptr.value == 0 {
        return;
      }
      var s := ReadStr(view, ptr.value);
      if s.None? {
        return;
      }
      r := r + [s.value];
      i := i + 1;
      if i > 128 {
        return;
      }
    }
  }

  // ---- Reading back strings and vectors ----

  /** `s` and a NUL are readable at `addr`. */
  ghost predicate StrAt(view: View, addr: nat, s: seq<Byte>) {
    && (forall k | 0 <= k < |s| :: view.byte(addr + k) == Some(s[k]))
    && view.byte(addr + |s|) == Some(0)
  }

  ghost predicate Ascii(s: seq<Byte>) {
    forall k | 0 <= k < |s| :: s[k] < 0x80
  }

  ghost predicate NulFree(s: seq<Byte>) {
    forall k | 0 <= k < |s| :: s[k] != 0
  }

  /** The UTF-8 text of the characters U+00s[0], U+00s[1] and so on. */
  function Utf8(s: seq<Byte>): (r: seq<Byte>)
    ensures |r| >= |s|
  {
    if s == [] then [] else PushChar(Utf8(s[..|s| - 1]), s[|s| - 1])
  }

  lemma {:induction false} StrFromReads(view: View, addr: nat, s: seq<Byte>, off: nat)
    requires StrAt(view, addr, s) && NulFree(s) && off <= |s| <= 4096
    ensures StrFrom(view, addr, off, Utf8(s[..off])) == Some(Utf8(s))
    decreases |s| - off
  {
    if off < |s| {
      assert s[..off + 1][..off] == s[..off];
      StrFromReads(view, addr, s, off + 1);
    } else {
      assert s[..off] == s;
    }
  }

  /** The characters of a text in sequences of one and two octets (section 3 of RFC 3629), up to the first other one. */
  function Chars(u: seq<Byte>): seq<nat> {
    if u == [] then []
    else if u[0] < 0x80 then [u[0]] + Chars(u[1..])
    else if |u| >= 2 && u[0] / 32 == 6 && u[1] / 64 == 2 && u[0] >= 0xc2 then
      var c: nat := u[0] as nat % 32 * 64 + u[1] as nat % 64;
      [c] + Chars(u[2..])
    else []
  }

  lemma OneChar(b: Byte, rest: seq<Byte>)
    ensures Chars(PushChar([], b) + rest) == [b] + Chars(rest)
  {
    var enc := PushChar([], b);
    assert (enc + rest)[|enc|..] == rest;
  }

  /** Read as UTF-8, the string has one character for each byte of memory, with that byte's value. */
  lemma {:induction false} Utf8Decodes(s: seq<Byte>, rest: seq<Byte>)
    ensures Chars(Utf8(s) + rest) == s + Chars(rest)
    decreases |s|
  {
    hide Chars;
    if s == [] {
      assert [] + rest == rest && s + Chars(rest) == Chars(rest);
    } else {
      var t, b := s[..|s| - 1], s[|s| - 1];
      assert Utf8(s) + rest == Utf8(t) + (PushChar([], b) + rest);
      Utf8Decodes(t, PushChar([], b) + rest);
      OneChar(b, rest);
      assert t + ([b] + Chars(rest)) == s + Chars(rest);
    }
  }

  /** What is read back is the string itself exactly when it is ASCII. */
  lemma {:induction false} Utf8IsIdentity(s: seq<Byte>)
    ensures Utf8(s) == s <==> Ascii(s)
  {
    if s != [] {
      var t, b := s[..|s| - 1], s[|s| - 1];
      Utf8IsIdentity(t);
      if b < 0x80 {
        assert Utf8(s) == Utf8(t) + [b];
        if Utf8(s) == s {
          assert Utf8(t) == s[..|s| - 1];
        }
      } else {
        assert |Utf8(s)| == |Utf8(t)| + 2;
      }
    }
  }

  /** A null-terminated vector of pointers to the strings `strs` is readable at `base`. */
  ghost predicate VectorAt(view: View, base: nat, strs: seq<seq<Byte>>) {
    && (forall i | 0 <= i < |strs| :: PointerTo(view, base + i * 8, strs[i]))
    && view.word(base + |strs| * 8) == Some(0)
  }

  ghost predicate PointerTo(view: View, at: nat, s: seq<Byte>) {
    view.word(at).Some? && view.word(at).value != 0 && StrAt(view, view.word(at).value, s)
  }

  lemma AsciiReads(view: View, addr: nat, s: seq<Byte>)
    requires StrAt(view, addr, s) && NulFree(s) && Ascii(s) && |s| <= 4096
    ensures StrFrom(view, addr, 0, []) == Some(s)
  {
    assert s[..0] == [];
    StrFromReads(view, addr, s, 0);
    Utf8IsIdentity(s);
  }

  lemma {:induction false} VectorFromReads(view: View, base: nat, strs: seq<seq<Byte>>, i: nat)
    requires VectorAt(view, base, strs) && i <= |strs| <= 128
    requires forall j | 0 <= j < |strs| :: NulFree(strs[j]) && Ascii(strs[j]) && |strs[j]| <= 4096
    ensures VectorFrom(view, base, i, strs[..i]) == strs
    decreases |strs| - i
  {
    hide StrFrom, StrAt, NulFree, Ascii;
    if i < |strs| {
      assert PointerTo(view, base + i * 8, strs[i]);
      AsciiReads(view, view.word(base + i * 8).value, strs[i]);
      assert strs[..i] + [strs[i]] == strs[..i + 1];
      if i + 1 <= 128 {
        VectorFromReads(view, base, strs, i + 1);
      }
    } else {
      assert strs[..i] == strs;
    }
  }

  /** What `read_user_str` gives has no NUL in it. */
  lemma {:induction false} StrFromIsText(view: View, addr: nat, off: nat, s: seq<Byte>)
    requires off <= 4096 && NulFree(s)
    ensures StrFrom(view, addr, off, s).Some? ==> NulFree(StrFrom(view, addr, off, s).value)
    decreases 4096 - off
  {
    var b := view.byte(addr + off);
    if b.Some? && b.value != 0 && off + 1 <= 4096 {
      StrFromIsText(view, addr, off + 1, PushChar(s, b.value));
    }
  }

  /** Nor has any string that an argument loop gives. */
  lemma {:induction false} VectorFromIsText(view: View, base: nat, i: nat, acc: seq<seq<Byte>>)
    requires i <= 128 && forall s | s in acc :: NulFree(s)
    ensures forall s | s in VectorFrom(view, base, i, acc) :: NulFree(s)
    decreases 128 - i
  {
    hide StrFrom, NulFree;
    var ptr := view.word(base + i * 8);
    if ptr.Some? && ptr.value != 0 {
      NothingIsText();
      StrFromIsText(view, ptr.value, 0, []);
      var s := StrFrom(view, ptr.value, 0, []);
      if s.Some? && i + 1 <= 128 {
        VectorFromIsText(view, base, i + 1, acc + [s.value]);
      }
    }
  }

  lemma NothingIsText()
    ensures NulFree([])
  {
  }
}

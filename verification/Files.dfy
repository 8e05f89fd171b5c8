/**
 Regular files, the descriptor table, write and vectored write (src/fs.rs, src/syscall.rs).
 */
module Files {
  import opened Base
  import Pipe

  datatype Contents = Static(data: seq<Byte>) | Dynamic(data: seq<Byte>)

  datatype OpenFile = OpenFile(inode: nat, offset: nat, pipe: Option<nat>)

  /** A pipe as its users see it. */
  datatype PipeState = PipeState(queue: seq<Byte>, readClosed: bool)

  /** The globals that the calls on descriptors share; sizes are not bounded by memory. */
  datatype State = State(fds: seq<Option<OpenFile>>, inodes: map<nat, string>, files: map<string, Contents>,
                         pipes: map<nat, PipeState>)

  // ---- write_inode and read_inode ----

  /** The file after `data` is written at `off`: extended with zeros if it is too short. */
  function WrittenAt(file: seq<Byte>, off: nat, data: seq<Byte>): (r: seq<Byte>)
    ensures |r| == Max(|file|, off + |data|)
    ensures r[off..off + |data|] == data
    ensures forall i | 0 <= i < |r| && !(off <= i < off + |data|) :: r[i] == if i < |file| then file[i] else 0
  {
    var d := if off + |data| > |file| then file + Zeros(off + |data| - |file|) else file;
    d[..off] + data + d[off + |data|..]
  }

  /** The file an inode names, if it can be written. */
  function WritableIn(inodes: map<nat, string>, files: map<string, Contents>, inode: nat): Option<string> {
    if inode in inodes && inodes[inode] in files && files[inodes[inode]].Dynamic? then Some(inodes[inode]) else None
  }

  function Writable(s: State, inode: nat): Option<string> {
    WritableIn(s.inodes, s.files, inode)
  }

  /** `read_inode` for an offset within the file. */
  function ReadAt(file: seq<Byte>, off: nat, len: nat): (r: seq<Byte>)
    requires off <= |file|
    ensures |r| == Min(len, |file| - off)
  {
    file[off..off + Min(|file| - off, len)]
  }

  /** What was written at an offset is read back from there. */
  lemma ReadBack(file: seq<Byte>, off: nat, data: seq<Byte>)
    ensures ReadAt(WrittenAt(file, off, data), off, |data|) == data
  {
  }

  // ---- sys_write ----

  predicate Open(s: State, fd: int) {
    0 <= fd < |s.fds| && s.fds[fd].Some?
  }

  ghost predicate PipesOk(s: State) {
    forall i | i in s.pipes :: |s.pipes[i].queue| <= Pipe.CAPACITY - 1
  }

  /** Standard output and standard error, which print whatever the table says. */
  predicate Console(fd: int) {
    fd == 1 || fd == 2
  }

  /** A write to the descriptor is not an error. */
  predicate Served(s: State, fd: int) {
    Console(fd) || Open(s, fd)
  }

  /** `sys_write`: the new state and the result. What is printed is not part of the state. */
  function Write(s: State, fd: int, data: seq<Byte>): (State, int)
    requires PipesOk(s)
  {
    if Console(fd) then (s, |data|)
    else if !Open(s, fd) then (s, -1)
    else
      var of := s.fds[fd].value;
      match of.pipe
      case Some(id) =>
        if id !in s.pipes then (s, 0)
        else
          var p := s.pipes[id];
          var n := Pipe.Accepts(p.queue, data, p.readClosed);
          (s.(pipes := s.pipes[id := p.(queue := p.queue + data[..n])]), n)
      case None =>
        match Writable(s, of.inode)
        case None => (s, 0)
        case Some(path) =>
          (s.(files := s.files[path := Dynamic(WrittenAt(s.files[path].data, of.offset, data))],
              fds := s.fds[fd := Some(of.(offset := of.offset + |data|))]),
           |data|)
  }

  lemma WriteKeeps(s: State, fd: int, data: seq<Byte>)
    requires PipesOk(s)
    ensures PipesOk(Write(s, fd, data).0)
    ensures Served(s, fd) ==> Served(Write(s, fd, data).0, fd) && 0 <= Write(s, fd, data).1 <= |data|
  {
  }

  /** What a write does, by descriptor: 1 and 2 take all bytes and change nothing, a closed one gives -1, a pipe appends what
      fits into its 4095 bytes unless its reader is closed, a file has the bytes at the descriptor's position afterwards,
      zeros before them if it was shorter, and the position behind them. */
  lemma WriteResults(s: State, fd: int, data: seq<Byte>)
    requires PipesOk(s)
    ensures var (s', n) := Write(s, fd, data);
            if fd == 1 || fd == 2 then s' == s && n == |data|
            else if fd < 0 || fd >= |s.fds| || s.fds[fd].None? then s' == s && n == -1
            else
              var of := s.fds[fd].value;
              && s'.inodes == s.inodes && |s'.fds| == |s.fds| && s'.fds[fd].Some?
              && (forall i | 0 <= i < |s.fds| && i != fd :: s'.fds[i] == s.fds[i])
              && s'.files.Keys == s.files.Keys && s'.pipes.Keys == s.pipes.Keys
              && match of.pipe
                 case Some(id) =>
                   && s'.files == s.files && s'.fds[fd] == s.fds[fd] && 0 <= n <= |data|
                   && (forall i | i in s.pipes && i != id :: s'.pipes[i] == s.pipes[i])
                   && (if id !in s.pipes then n == 0
                       else
                         && s'.pipes[id].queue == s.pipes[id].queue + data[..n]
                         && s'.pipes[id].readClosed == s.pipes[id].readClosed
                         && n == if s.pipes[id].readClosed then 0
                                 else if |data| <= 4095 - |s.pipes[id].queue| then |data| else 4095 - |s.pipes[id].queue|)
                 case None =>
                   if of.inode in s.inodes && s.inodes[of.inode] in s.files && s.files[s.inodes[of.inode]].Dynamic? then
                     var path, at := s.inodes[of.inode], of.offset;
                     var file, file' := s.files[path].data, s'.files[path].data;
                     && n == |data| && s'.pipes == s.pipes && s'.fds[fd].value == of.(offset := at + |data|)
                     && (forall p | p in s.files && p != path :: s'.files[p] == s.files[p]) && s'.files[path].Dynamic?
                     && |file'| == (if |file| < at + |data| then at + |data| else |file|) && file'[at..at + |data|] == data
                     && forall i | 0 <= i < |file'| && !(at <= i < at + |data|) ::
                          file'[i] == if i < |file| then file[i] else 0
                   else s' == s && n == 0
  {
    hide WrittenAt;
  }

  // ---- sys_writev ----

  /** The rest of the loop of `sys_writev`, with `total` bytes written so far. */
  function WritevFrom(s: State, fd: int, bufs: seq<seq<Byte>>, total: int): (State, int)
    requires PipesOk(s)
    decreases |bufs|
  {
    if bufs == [] then (s, total)
    else if bufs[0] == [] then WritevFrom(s, fd, bufs[1..], total)
    else
      WriteKeeps(s, fd, bufs[0]);
      var (s', n) := Write(s, fd, bufs[0]);
      if n < 0 then (s', if total == 0 then n else total)
      else if n < |bufs[0]| then (s', total + n)
      else WritevFrom(s', fd, bufs[1..], total + n)
  }

  function Concat(bufs: seq<seq<Byte>>): seq<Byte> {
    if bufs == [] then [] else bufs[0] + Concat(bufs[1..])
  }

  /** Writing one piece after the other is writing both at once. */
  lemma WrittenTwice(file: seq<Byte>, off: nat, a: seq<Byte>, b: seq<Byte>)
    requires a != []
    ensures WrittenAt(WrittenAt(file, off, a), off + |a|, b) == WrittenAt(file, off, a + b)
  {
    var once := WrittenAt(file, off, a);
    var r, r' := WrittenAt(once, off + |a|, b), WrittenAt(file, off, a + b);
    forall i | 0 <= i < |r| ensures r[i] == r'[i] {
      if off + |a| <= i < off + |a| + |b| {
        assert r[i] == r[off + |a|..off + |a| + |b|][i - off - |a|];
        assert r'[i] == r'[off..off + |a| + |b|][i - off];
      } else if off <= i < off + |a| {
        assert once[i] == once[off..off + |a|][i - off];
        assert r'[i] == r'[off..off + |a| + |b|][i - off];
      }
    }
  }

  /** A short write stops at the same byte whatever follows. */
  lemma ShortWrite(s: State, fd: int, a: seq<Byte>, b: seq<Byte>)
    requires PipesOk(s) && Served(s, fd) && Write(s, fd, a).1 < |a|
    ensures Write(s, fd, a + b) == Write(s, fd, a)
  {
    if !Console(fd) && s.fds[fd].value.pipe.Some? && s.fds[fd].value.pipe.value in s.pipes {
      var n := Write(s, fd, a).1;
      assert (a + b)[..n] == a[..n];
    }
  }

  /** After a complete write of `a`, writing `b` gives what writing `a + b` at once gives. */
  lemma FullWrite(s: State, fd: int, a: seq<Byte>, b: seq<Byte>)
    requires PipesOk(s) && Served(s, fd) && a != [] && Write(s, fd, a).1 == |a|
    ensures PipesOk(Write(s, fd, a).0)
    ensures var (s', n) := Write(Write(s, fd, a).0, fd, b);
            Write(s, fd, a + b) == (s', |a| + n)
  {
    WriteKeeps(s, fd, a);
    if !Console(fd) {
      if s.fds[fd].value.pipe.Some? {
        FullPipeWrite(s, fd, a, b);
      } else {
        FullFileWrite(s, fd, a, b);
      }
    }
  }

  lemma FullPipeWrite(s: State, fd: int, a: seq<Byte>, b: seq<Byte>)
    requires PipesOk(s) && !Console(fd) && Open(s, fd) && s.fds[fd].value.pipe.Some? && a != [] && Write(s, fd, a).1 == |a|
    requires PipesOk(Write(s, fd, a).0)
    ensures var (s', n) := Write(Write(s, fd, a).0, fd, b);
            Write(s, fd, a + b) == (s', |a| + n)
  {
    var id := s.fds[fd].value.pipe.value;
    var (s', n) := Write(Write(s, fd, a).0, fd, b);
    var q := s.pipes[id].queue;
    assert a[..|a|] == a && (a + b)[..|a| + n] == a + b[..n];
    assert q + (a + b[..n]) == q + a + b[..n];
    assert s.pipes[id := s'.pipes[id]] == s'.pipes;
  }

  lemma FullFileWrite(s: State, fd: int, a: seq<Byte>, b: seq<Byte>)
    requires PipesOk(s) && !Console(fd) && Open(s, fd) && s.fds[fd].value.pipe.None? && a != [] && Write(s, fd, a).1 == |a|
    requires PipesOk(Write(s, fd, a).0)
    ensures var (s', n) := Write(Write(s, fd, a).0, fd, b);
            Write(s, fd, a + b) == (s', |a| + n)
  {
    hide WrittenAt;
    var of := s.fds[fd].value;
    var path := Writable(s, of.inode).value;
    WrittenTwice(s.files[path].data, of.offset, a, b);
    var s1 := Write(s, fd, a).0;
    assert Writable(s1, of.inode) == Some(path);
    var s2 := Write(s1, fd, b).0;
    assert s.files[path := s2.files[path]] == s2.files;
    assert s.fds[fd := s2.fds[fd]] == s2.fds;
  }

  /** What writev of the buffers comes to: one write of their concatenation, if there is any. */
  function AtOnce(s: State, fd: int, data: seq<Byte>, total: nat): (State, int)
    requires PipesOk(s)
  {
    if data == [] then (s, total) else (Write(s, fd, data).0, total + Write(s, fd, data).1)
  }

  lemma AtOnceSplits(s: State, fd: int, a: seq<Byte>, rest: seq<Byte>, total: nat)
    requires PipesOk(s) && Served(s, fd) && a != []
    ensures PipesOk(Write(s, fd, a).0) && 0 <= Write(s, fd, a).1 <= |a|
    ensures var (s', n) := Write(s, fd, a);
            AtOnce(s, fd, a + rest, total) == if n < |a| then (s', total + n) else AtOnce(s', fd, rest, total + n)
  {
    hide Write, PipesOk;
    WriteKeeps(s, fd, a);
    var (s', n) := Write(s, fd, a);
    if n < |a| {
      ShortWrite(s, fd, a, rest);
    } else if rest == [] {
      assert a + rest == a;
    } else {
      FullWrite(s, fd, a, rest);
    }
  }

  /** The loop of `sys_writev` on a descriptor that can be written to, for any buffers. */
  lemma {:induction false} WritevWrites(s: State, fd: int, bufs: seq<seq<Byte>>, total: nat)
    requires PipesOk(s) && Served(s, fd)
    ensures WritevFrom(s, fd, bufs, total) == AtOnce(s, fd, Concat(bufs), total)
    decreases |bufs|
  {
    hide Write, PipesOk, AtOnce, Served;
    if bufs == [] {
      NothingAtOnce(s, fd, total);
    } else if bufs[0] == [] {
      assert Concat(bufs) == Concat(bufs[1..]);
      WritevWrites(s, fd, bufs[1..], total);
    } else {
      AtOnceSplits(s, fd, bufs[0], Concat(bufs[1..]), total);
      WriteKeeps(s, fd, bufs[0]);
      var (s', n) := Write(s, fd, bufs[0]);
      if n >= |bufs[0]| {
        WritevWrites(s', fd, bufs[1..], total + n);
      }
    }
  }

  lemma NothingAtOnce(s: State, fd: int, total: nat)
    requires PipesOk(s)
    ensures AtOnce(s, fd, [], total) == (s, total)
  {
  }

  /** The descriptor is a writable file positioned behind its end. */
  predicate BehindEnd(s: State, fd: int)
    requires Served(s, fd)
  {
    !Console(fd) &&
    var of := s.fds[fd].value;
    of.pipe.None? && Writable(s, of.inode).Some? && of.offset > |s.files[Writable(s, of.inode).value].data|
  }

  /** Vectored write is one write of the concatenated buffers, on the console, a pipe or a file, with short writes,
      empty buffers and gaps, except that with nothing to write it does not extend a file whose
      position is behind its end, as a write of no bytes does. */
  lemma WritevIsWrite(s: State, fd: int, bufs: seq<seq<Byte>>)
    requires PipesOk(s) && Served(s, fd)
    ensures WritevFrom(s, fd, bufs, 0) == Write(s, fd, Concat(bufs)) <==> (Concat(bufs) != [] || !BehindEnd(s, fd))
  {
    hide WritevFrom;
    WritevWrites(s, fd, bufs, 0);
    if Concat(bufs) == [] {
      EmptyWrite(s, fd);
    }
  }

  /** A write of no bytes changes nothing unless the position is behind the end of a file. */
  lemma EmptyWrite(s: State, fd: int)
    requires PipesOk(s) && Served(s, fd)
    ensures Write(s, fd, []) == (s, 0) <==> !BehindEnd(s, fd)
  {
    if Console(fd) {
      return;
    }
    var of := s.fds[fd].value;
    if of.pipe.Some? {
      var id := of.pipe.value;
      if id in s.pipes {
        assert s.pipes[id].queue + [] == s.pipes[id].queue;
        assert s.pipes[id := s.pipes[id]] == s.pipes;
      }
    } else if Writable(s, of.inode).Some? {
      var path := Writable(s, of.inode).value;
      var d := s.files[path].data;
      assert s.fds[fd := s.fds[fd]] == s.fds;
      if of.offset <= |d| {
        assert WrittenAt(d, of.offset, []) == d;
        assert s.files[path := s.files[path]] == s.files;
      }
    }
  }

  // ---- The code that updates the globals ----

  class FileSystem {
    /** FD_TABLE, INODE_MAP, FS, PIPES and NEXT_PIPE_ID. */
    var fds: seq<Option<OpenFile>>
    var inodes: map<nat, string>
    var files: map<string, Contents>
    var pipes: map<nat, Pipe.PipeInner>
    var nextPipe: nat

    /** Every pipe is in order, and no two share their ring buffer. */
    ghost predicate Valid()
      reads this`pipes, this`nextPipe, set i | i in pipes :: pipes[i], set i | i in pipes :: pipes[i].buf
    {
      && (forall i | i in pipes :: i < nextPipe && pipes[i].Valid())
      && (forall i, j | i in pipes && j in pipes && i != j :: pipes[i] != pipes[j] && pipes[i].buf != pipes[j].buf)
    }

    ghost function PipeStates(): map<nat, PipeState>
      requires Valid()
      reads this`pipes, this`nextPipe, set i | i in pipes :: pipes[i], set i | i in pipes :: pipes[i].buf
    {
      map i | i in pipes :: PipeState(pipes[i].Queue(), pipes[i].readClosed)
    }

    ghost function View(): State
      requires Valid()
      reads this, set i | i in pipes :: pipes[i], set i | i in pipes :: pipes[i].buf
    {
      State(fds, inodes, files, PipeStates())
    }

    /** `FdTable::new`: the console's three descriptors. */
    constructor (inodes: map<nat, string>, files: map<string, Contents>)
      ensures Valid() && pipes == map[]
      ensures View() == State(seq(3, _ => Some(OpenFile(0, 0, None))), inodes, files, map[])
    {
      this.fds := seq(3, _ => Some(OpenFile(0, 0, None)));
      this.inodes, this.files := inodes, files;
      pipes, nextPipe := map[], 1;
    }

    /** The pipe that `sys_pipe2` makes. */
    method NewPipe() returns (id: nat)
      requires Valid()
      modifies this`pipes, this`nextPipe
      ensures Valid() && id == old(nextPipe) && id !in old(pipes)
      ensures PipeStates() == old(PipeStates())[id := PipeState([], false)]
    {
      hide Pipe.Queued, Pipe.Size, Pipe.PipeInner.Valid;
      var p := new Pipe.PipeInner();
      id := nextPipe;
      nextPipe := nextPipe + 1;
      pipes := pipes[id := p];
    }

    /** `write_inode` */
    method WriteInode(inode: nat, data: seq<Byte>, offset: nat) returns (n: nat)
      modifies this`files
      ensures match WritableIn(inodes, old(files), inode)
              case None => n == 0 && files == old(files)
              case Some(path) =>
                n == |data| && files == old(files)[path := Dynamic(WrittenAt(old(files)[path].data, offset, data))]
    {
      if inode !in inodes {
        return 0;
      }
      var path := inodes[inode];
      if path !in files || files[path].Static? {
        return 0;
      }
      var vec := files[path].data;
      if offset + |data| > |vec| {
        vec := vec + Zeros(offset + |data| - |vec|);
      }
      vec := vec[..offset] + data + vec[offset + |data|..];
      files := files[path := Dynamic(vec)];
      return |data|;
    }

    /** The pipe branch of `sys_write`: the bytes go into the ring buffer. */
    method WritePipe(id: nat, data: seq<Byte>) returns (n: nat)
      requires Valid() && id in pipes
      modifies pipes[id], pipes[id].buf
      ensures Valid()
      ensures var p: PipeState := old(PipeStates())[id];
              && n == Pipe.Accepts(p.queue, data, p.readClosed)
              && PipeStates() == old(PipeStates())[id := p.(queue := p.queue + data[..n])]
    {
      hide Pipe.PipeInner.Queue, Pipe.Accepts, Pipe.PipeInner.Valid;
      n := pipes[id].Write(data);
    }

    /** The file branch of `sys_write`. */
    method WriteFile(fd: nat, data: seq<Byte>) returns (n: nat)
      requires fd < |fds| && fds[fd].Some?
      modifies this`fds, this`files
      ensures var of := old(fds)[fd].value;
              match WritableIn(inodes, old(files), of.inode)
              case None => n == 0 && files == old(files) && fds == old(fds)
              case Some(path) =>
                && n == |data| && files == old(files)[path := Dynamic(WrittenAt(old(files)[path].data, of.offset, data))]
                && fds == old(fds)[fd := Some(of.(offset := of.offset + |data|))]
    {
      hide WrittenAt;
      var of := fds[fd].value;
      n := WriteInode(of.inode, data, of.offset);
      assert fds[fd := fds[fd]] == fds;
      fds := fds[fd := Some(of.(offset := of.offset + n))];
    }

    /** `sys_write` */
    method SysWrite(fd: int, data: seq<Byte>) returns (ret: int)
      requires Valid()
      modifies this`fds, this`files, set i | i in pipes :: pipes[i], set i | i in pipes :: pipes[i].buf
      ensures Valid() && PipesOk(old(View())) && (View(), ret) == Write(old(View()), fd, data)
    {
      hide WrittenAt, Pipe.Accepts, Pipe.PipeInner.Queue, Pipe.PipeInner.Valid;
      if fd == 1 || fd == 2 {
        return |data|;
      }
      if !(0 <= fd < |fds|) || fds[fd].None? {
        return -1;
      }
      var of := fds[fd].value;
      if of.pipe.Some? {
        var id := of.pipe.value;
        if id in pipes {
          ret := WritePipe(id, data);
          return;
        }
        return 0;
      }
      ret := WriteFile(fd, data);
    }

    /** `sys_writev` */
    method SysWritev(fd: int, bufs: seq<seq<Byte>>) returns (total: int)
      requires Valid()
      modifies this`fds, this`files, set i | i in pipes :: pipes[i], set i | i in pipes :: pipes[i].buf
      ensures Valid() && PipesOk(old(View())) && (View(), total) == WritevFrom(old(View()), fd, bufs, 0)
    {
      hide Write;
      total := 0;
      var i := 0;
      assert bufs[0..] == bufs;
      while i < |bufs|
        invariant i <= |bufs| && Valid() && PipesOk(View()) && PipesOk(old(View())) && total >= 0
        invariant WritevFrom(View(), fd, bufs[i..], total) == WritevFrom(old(View()), fd, bufs, 0)
      {
        assert bufs[i..][1..] == bufs[i + 1..];
        if bufs[i] != [] {
          WriteKeeps(View(), fd, bufs[i]);
          var n := SysWrite(fd, bufs[i]);
          if n < 0 {
            if total == 0 {
              return n;
            }
            return;
          }
          total := total + n;
          if n < |bufs[i]| {
            return;
          }
        }
        i := i + 1;
      }
    }

    /** `FdTable::alloc`: the lowest free descriptor. */
    method AllocFd(file: OpenFile) returns (fd: nat)
      modifies this`fds
      ensures fd < |fds| && fds[fd] == Some(file) && |fds| == Max(|old(fds)|, fd + 1)
      ensures fd <= |old(fds)| && (fd < |old(fds)| ==> old(fds)[fd].None?)
      ensures forall i | 0 <= i < |old(fds)| && i != fd :: fds[i] == old(fds)[i]
      ensures forall i | 0 <= i < fd :: fds[i].Some?
    {
      fd := 0;
      while fd < |fds| && fds[fd].Some?
        invariant fd <= |fds| && fds == old(fds)
        invariant forall i | 0 <= i < fd :: fds[i].Some?
      {
        fd := fd + 1;
      }
      if fd < |fds| {
        fds := fds[fd := Some(file)];
      } else {
        fds := fds + [Some(file)];
      }
    }
  }
}

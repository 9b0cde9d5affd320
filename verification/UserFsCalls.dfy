/**
  What each call of UFS promises, said about the state before it, the state after it and the reply. Nothing here says
  how a call gets there, and yet a promise leaves a call no choice.
 */
module UserFsCalls {
  import opened Options
  import opened UserFsSpec

  /** The call changes nothing but the error code. */
  predicate Refused(fs: Fs, e: ErrorCode, fs': Fs, reply: Reply) {
    reply == Reply(-1, []) && fs' == fs.(errno := e)
  }

  /** No slot but `fd` has changed, and neither has the error code. */
  ghost predicate OnlySlot(fs: Fs, fd: int, fs': Fs) {
    (forall j :: j != fd ==> Lookup(fs', j) == Lookup(fs, j)) && fs'.errno == fs.errno
  }

  predicate SameNames(fs: Fs, fs': Fs) {
    fs'.names == fs.names && fs'.nextId == fs.nextId
  }

  /** Somebody can still get at the file: by a name, or through a descriptor. */
  ghost predicate Reachable(fs: Fs, id: nat) {
    || (exists n :: n in fs.names && fs.names[n] == id)
    || (exists i :: Lookup(fs, i).Some? && Lookup(fs, i).value.file == id)
  }

  /** Exactly the files that can still be reached are left, as they were. */
  ghost predicate LeavesReachable(fs: Fs, fs': Fs) {
    && (forall id :: id in fs'.data <==> id in fs.data && Reachable(fs', id))
    && (forall id :: id in fs'.data ==> fs'.data[id] == fs.data[id])
  }

  /** Only the bytes of this file have changed. */
  ghost predicate OnlyBytesOf(fs: Fs, id: nat, fs': Fs) {
    SameNames(fs, fs') && fs'.data.Keys == fs.data.Keys
    && forall x :: x in fs.data && x != id ==> fs'.data[x] == fs.data[x]
  }

  // ----- the six promises

  /** An existing file is opened whatever the flags; a missing one only with the create bit, and then it is empty. */
  ghost predicate OpenPromise(fs: Fs, name: string, flags: bv32, fs': Fs, reply: Reply) {
    if name !in fs.names && flags & 1 == 0 then Refused(fs, NoFile, fs', reply)
    else
      var id := if name in fs.names then fs.names[name] else fs.nextId;
      && reply.bytes == [] && 0 <= reply.code
      && Lookup(fs, reply.code).None? && (forall j :: 0 <= j < reply.code ==> Lookup(fs, j).Some?)
      && Lookup(fs', reply.code) == Some(Fd(id, 0, flags)) && OnlySlot(fs, reply.code, fs')
      && |fs'.fds| == (if reply.code == |fs.fds| then |fs.fds| + 1 else |fs.fds|)
      && if name in fs.names then SameNames(fs, fs') && fs'.data == fs.data
         else && id !in fs.data && fs'.nextId == id + 1
              && fs'.names == fs.names[name := id] && fs'.data == fs.data[id := []]
  }

  /** Exactly the bytes of the buffer stand at the position of the descriptor, which moves behind them. */
  ghost predicate WritePromise(fs: Fs, fd: int, buf: seq<byte>, fs': Fs, reply: Reply)
    requires WellFormed(fs)
  {
    if Lookup(fs, fd).None? then Refused(fs, NoFile, fs', reply)
    else
      var d := fs.fds[fd].value;
      var p, n, was := d.pos, |buf|, fs.data[d.file];
      if d.flags & 2 != 0 then Refused(fs, NoPermission, fs', reply)
      else if p + n > MAX_FILE_SIZE then Refused(fs, NoMem, fs', reply)
      else
        && reply == Reply(n, [])
        && OnlyBytesOf(fs, d.file, fs') && |fs'.data[d.file]| == (if p + n > |was| then p + n else |was|)
        && (forall i :: 0 <= i < |fs'.data[d.file]| ==>
              fs'.data[d.file][i] == if p <= i < p + n then buf[i - p] else was[i])
        && Lookup(fs', fd) == Some(d.(pos := p + n)) && OnlySlot(fs, fd, fs') && |fs'.fds| == |fs.fds|
  }

  /** As many bytes as asked for, or all there are from the position on; the descriptor moves behind them. */
  ghost predicate ReadPromise(fs: Fs, fd: int, size: nat, fs': Fs, reply: Reply)
    requires WellFormed(fs)
  {
    if Lookup(fs, fd).None? then Refused(fs, NoFile, fs', reply)
    else
      var d := fs.fds[fd].value;
      var was, n := fs.data[d.file], reply.code;
      if d.flags & 4 != 0 then Refused(fs, NoPermission, fs', reply)
      else
        && 0 <= n == |reply.bytes| <= size && d.pos + n <= |was| && (n == size || d.pos + n == |was|)
        && (forall i :: 0 <= i < n ==> reply.bytes[i] == was[d.pos + i])
        && SameNames(fs, fs') && fs'.data == fs.data
        && Lookup(fs', fd) == Some(d.(pos := d.pos + n)) && OnlySlot(fs, fd, fs') && |fs'.fds| == |fs.fds|
  }

  /** The slot is free, and a file that nobody can reach any more is gone. */
  ghost predicate ClosePromise(fs: Fs, fd: int, fs': Fs, reply: Reply) {
    if Lookup(fs, fd).None? then Refused(fs, NoFile, fs', reply)
    else
      && reply == Reply(0, []) && SameNames(fs, fs') && LeavesReachable(fs, fs')
      && Lookup(fs', fd).None? && OnlySlot(fs, fd, fs') && |fs'.fds| == |fs.fds|
  }

  /** The name is gone at once, the file only when nobody can reach it. */
  ghost predicate DeletePromise(fs: Fs, name: string, fs': Fs, reply: Reply) {
    if name !in fs.names then Refused(fs, NoFile, fs', reply)
    else
      && reply == Reply(0, []) && LeavesReachable(fs, fs')
      && (forall n :: n in fs'.names <==> n in fs.names && n != name)
      && (forall n :: n in fs'.names ==> fs'.names[n] == fs.names[n])
      && fs'.fds == fs.fds && fs'.nextId == fs.nextId && fs'.errno == fs.errno
  }

  /** The file is cut to the size, and no descriptor of it stands behind its new end. */
  ghost predicate ResizePromise(fs: Fs, fd: int, newSize: nat, fs': Fs, reply: Reply)
    requires WellFormed(fs) && Supported(fs, Resize(fd, newSize))
  {
    if Lookup(fs, fd).None? then Refused(fs, NoFile, fs', reply)
    else if newSize >= MAX_FILE_SIZE then Refused(fs, NoMem, fs', reply)
    else
      var id := fs.fds[fd].value.file;
      && reply == Reply(0, []) && fs'.errno == fs.errno && |fs'.fds| == |fs.fds|
      && OnlyBytesOf(fs, id, fs') && |fs'.data[id]| == newSize
      && (forall i :: 0 <= i < newSize ==> fs'.data[id][i] == fs.data[id][i])
      && (forall j :: Lookup(fs, j).None? ==> Lookup(fs', j).None?)
      && (forall j :: Lookup(fs, j).Some? ==>
            var d := fs.fds[j].value;
            Lookup(fs', j) == Some(if d.file == id && d.pos > newSize then d.(pos := newSize) else d))
  }

  ghost predicate Promised(fs: Fs, call: Call, fs': Fs, reply: Reply)
    requires WellFormed(fs) && Supported(fs, call)
  {
    match call
    case Open(name, flags) => OpenPromise(fs, name, flags, fs', reply)
    case Write(fd, buf) => WritePromise(fs, fd, buf, fs', reply)
    case Read(fd, size) => ReadPromise(fs, fd, size, fs', reply)
    case Close(fd) => ClosePromise(fs, fd, fs', reply)
    case Delete(name) => DeletePromise(fs, name, fs', reply)
    case Resize(fd, newSize) => ResizePromise(fs, fd, newSize, fs', reply)
  }

  // ----- they are kept, and nothing else would keep them

  lemma OpenKept(fs: Fs, name: string, flags: bv32)
    requires WellFormed(fs)
    ensures var (fs', reply) := OpenStep(fs, name, flags); OpenPromise(fs, name, flags, fs', reply)
  {
  }

  lemma WriteKept(fs: Fs, fd: int, buf: seq<byte>)
    requires WellFormed(fs)
    ensures var (fs', reply) := WriteStep(fs, fd, buf); WritePromise(fs, fd, buf, fs', reply)
  {
  }

  lemma ReadKept(fs: Fs, fd: int, size: nat)
    requires WellFormed(fs)
    ensures var (fs', reply) := ReadStep(fs, fd, size); ReadPromise(fs, fd, size, fs', reply)
  {
  }

  lemma ReachableMeans(fs: Fs, id: nat)
    ensures Reachable(fs, id) <==> Named(fs, id) || Refs(fs.fds, id) > 0
  {
    RefsPositive(fs.fds, id);
    forall i | 0 <= i < |fs.fds| && fs.fds[i].Some? && fs.fds[i].value.file == id ensures Reachable(fs, id) {
      assert Lookup(fs, i).Some?;
    }
  }

  lemma LeftIsReachable(fs: Fs, fs': Fs)
    requires WellFormed(fs') && fs'.data.Keys <= fs.data.Keys
    requires forall id :: id in fs'.data ==> fs'.data[id] == fs.data[id]
    requires forall id :: id in fs.data && id !in fs'.data ==> !Named(fs', id) && Refs(fs'.fds, id) == 0
    ensures LeavesReachable(fs, fs')
  {
    forall id ensures id in fs'.data <==> id in fs.data && Reachable(fs', id) {
      if id in fs.data { ReachableMeans(fs', id); }
    }
  }

  lemma CloseKept(fs: Fs, fd: int)
    requires WellFormed(fs)
    ensures var (fs', reply) := CloseStep(fs, fd); ClosePromise(fs, fd, fs', reply)
  {
    CloseKeeps(fs, fd);
    if Lookup(fs, fd).Some? { LeftIsReachable(fs, CloseStep(fs, fd).0); }
  }

  lemma DeleteKept(fs: Fs, name: string)
    requires WellFormed(fs)
    ensures var (fs', reply) := DeleteStep(fs, name); DeletePromise(fs, name, fs', reply)
  {
    DeleteKeeps(fs, name);
    if name in fs.names { LeftIsReachable(fs, DeleteStep(fs, name).0); }
  }

  lemma ResizeKept(fs: Fs, fd: int, newSize: nat)
    requires WellFormed(fs) && Supported(fs, Resize(fd, newSize))
    ensures var (fs', reply) := ResizeStep(fs, fd, newSize); ResizePromise(fs, fd, newSize, fs', reply)
  {
  }

  lemma StepKept(fs: Fs, call: Call)
    requires WellFormed(fs) && Supported(fs, call)
    ensures Promised(fs, call, Step(fs, call).0, Step(fs, call).1)
  {
    match call
    case Open(name, flags) => OpenKept(fs, name, flags);
    case Write(fd, buf) => WriteKept(fs, fd, buf);
    case Read(fd, size) => ReadKept(fs, fd, size);
    case Close(fd) => CloseKept(fs, fd);
    case Delete(name) => DeleteKept(fs, name);
    case Resize(fd, newSize) => ResizeKept(fs, fd, newSize);
  }

  /** Two outcomes with the same table entries, names and bytes are one. */
  lemma SameOutcome(a: Fs, b: Fs)
    requires |a.fds| == |b.fds| && (forall j :: Lookup(a, j) == Lookup(b, j)) && SameNames(a, b) && a.errno == b.errno
    requires a.data.Keys == b.data.Keys && forall id :: id in a.data ==> a.data[id] == b.data[id]
    ensures a == b
  {
    forall j | 0 <= j < |a.fds| ensures a.fds[j] == b.fds[j] {
      assert Lookup(a, j) == Lookup(b, j);
    }
    assert a.data == b.data;
  }

  lemma SameLeft(fs: Fs, a: Fs, b: Fs)
    requires LeavesReachable(fs, a) && LeavesReachable(fs, b) && a.names == b.names && |a.fds| == |b.fds|
    requires forall j :: Lookup(a, j) == Lookup(b, j)
    ensures a.data.Keys == b.data.Keys && forall id :: id in a.data ==> a.data[id] == b.data[id]
  {
    forall id ensures Reachable(a, id) <==> Reachable(b, id) {
      if i :| Lookup(a, i).Some? && Lookup(a, i).value.file == id { assert Lookup(b, i).Some?; }
      if i :| Lookup(b, i).Some? && Lookup(b, i).value.file == id { assert Lookup(a, i).Some?; }
    }
  }

  lemma OneOpen(fs: Fs, name: string, flags: bv32, a: Fs, ra: Reply, b: Fs, rb: Reply)
    requires OpenPromise(fs, name, flags, a, ra) && OpenPromise(fs, name, flags, b, rb)
    ensures a == b && ra == rb
  {
    if name in fs.names || flags & 1 != 0 {
      assert ra.code == rb.code;
      SameOutcome(a, b);
    }
  }

  lemma OneWrite(fs: Fs, fd: int, buf: seq<byte>, a: Fs, ra: Reply, b: Fs, rb: Reply)
    requires WellFormed(fs) && WritePromise(fs, fd, buf, a, ra) && WritePromise(fs, fd, buf, b, rb)
    ensures a == b && ra == rb
  {
    if ra.code != -1 {
      assert a.data[fs.fds[fd].value.file] == b.data[fs.fds[fd].value.file];
      SameOutcome(a, b);
    }
  }

  lemma OneRead(fs: Fs, fd: int, size: nat, a: Fs, ra: Reply, b: Fs, rb: Reply)
    requires WellFormed(fs) && ReadPromise(fs, fd, size, a, ra) && ReadPromise(fs, fd, size, b, rb)
    ensures a == b && ra == rb
  {
    if Lookup(fs, fd).Some? && fs.fds[fd].value.flags & 4 == 0 {
      assert ra.code == rb.code && ra.bytes == rb.bytes;
      SameOutcome(a, b);
    }
  }

  lemma OneClose(fs: Fs, fd: int, a: Fs, ra: Reply, b: Fs, rb: Reply)
    requires ClosePromise(fs, fd, a, ra) && ClosePromise(fs, fd, b, rb)
    ensures a == b && ra == rb
  {
    if Lookup(fs, fd).Some? {
      SameLeft(fs, a, b);
      SameOutcome(a, b);
    }
  }

  lemma OneDelete(fs: Fs, name: string, a: Fs, ra: Reply, b: Fs, rb: Reply)
    requires DeletePromise(fs, name, a, ra) && DeletePromise(fs, name, b, rb)
    ensures a == b && ra == rb
  {
    if name in fs.names {
      assert a.names == b.names;
      SameLeft(fs, a, b);
      SameOutcome(a, b);
    }
  }

  lemma OneResize(fs: Fs, fd: int, newSize: nat, a: Fs, ra: Reply, b: Fs, rb: Reply)
    requires WellFormed(fs) && Supported(fs, Resize(fd, newSize))
    requires ResizePromise(fs, fd, newSize, a, ra) && ResizePromise(fs, fd, newSize, b, rb)
    ensures a == b && ra == rb
  {
    if Lookup(fs, fd).Some? && newSize < MAX_FILE_SIZE {
      assert a.data[fs.fds[fd].value.file] == b.data[fs.fds[fd].value.file];
      SameOutcome(a, b);
    }
  }

  /** A promise is kept by one outcome only. */
  lemma NoOtherOutcome(fs: Fs, call: Call, a: Fs, ra: Reply, b: Fs, rb: Reply)
    requires WellFormed(fs) && Supported(fs, call) && Promised(fs, call, a, ra) && Promised(fs, call, b, rb)
    ensures a == b && ra == rb
  {
    hide OpenPromise, WritePromise, ReadPromise, ClosePromise, DeletePromise, ResizePromise, WellFormed;
    match call
    case Open(name, flags) => OneOpen(fs, name, flags, a, ra, b, rb);
    case Write(fd, buf) => OneWrite(fs, fd, buf, a, ra, b, rb);
    case Read(fd, size) => OneRead(fs, fd, size, a, ra, b, rb);
    case Close(fd) => OneClose(fs, fd, a, ra, b, rb);
    case Delete(name) => OneDelete(fs, name, a, ra, b, rb);
    case Resize(fd, newSize) => OneResize(fs, fd, newSize, a, ra, b, rb);
  }

  /** The steps of the specification are exactly the outcomes that keep the promises. */
  lemma StepIsWhatIsPromised(fs: Fs, call: Call, fs': Fs, reply: Reply)
    requires WellFormed(fs) && Supported(fs, call)
    ensures (fs', reply) == Step(fs, call) <==> Promised(fs, call, fs', reply)
  {
    hide Step, Promised;
    StepKept(fs, call);
    if Promised(fs, call, fs', reply) {
      NoOtherOutcome(fs, call, fs', reply, Step(fs, call).0, Step(fs, call).1);
    }
  }

  // ----- flags

  lemma AndDistributes(a: bv32, b: bv32, c: bv32)
    ensures (a | b) & c == (a & c) | (b & c)
  {
  }

  lemma OrIsZero(a: bv32, b: bv32)
    ensures a | b == 0 <==> a == 0 && b == 0
  {
  }

  lemma AndWithItself(a: bv32)
    ensures a & a == a && 0 & a == 0
  {
  }

  /** Or-ing flags together adds up what they allow, and no flag contains another one. */
  lemma FlagsAddUp(a: bv32, b: bv32, flag: bv32)
    ensures HasFlag(a | b, flag) <==> HasFlag(a, flag) || HasFlag(b, flag)
    ensures !HasFlag(0, flag) && (flag != 0 ==> HasFlag(flag, flag))
    ensures !HasFlag(UFS_CREATE, UFS_READ_ONLY | UFS_WRITE_ONLY) && !HasFlag(UFS_READ_ONLY, UFS_WRITE_ONLY)
  {
    AndDistributes(a, b, flag);
    OrIsZero(a & flag, b & flag);
    AndWithItself(flag);
  }
}

/**
  UserFS as its callers see it: names lead to files, a file is a sequence of bytes, and a descriptor
  is a file, a position and the flags it was opened with. Nothing here knows about blocks.
 */
module UserFsSpec {
  import opened Options

  const BLOCK_SIZE := 512
  const MAX_FILE_SIZE := 1024 * 1024 * 100

  const UFS_CREATE: bv32 := 1
  const UFS_READ_ONLY: bv32 := 2
  const UFS_WRITE_ONLY: bv32 := 4

  newtype byte = b: int | 0 <= b < 256

  datatype ErrorCode = NoErr | NoFile | NoMem | NoPermission

  datatype Fd = Fd(file: nat, pos: nat, flags: bv32)

  datatype Fs = Fs(
    names: map<string, nat>,        // the files a name still leads to
    data: map<nat, seq<byte>>,      // every file that is alive, deleted ones included
    fds: seq<Option<Fd>>,           // the descriptor table
    nextId: nat,                    // file ids from here on are unused
    errno: ErrorCode)

  datatype Call =
    | Open(name: string, flags: bv32)
    | Write(fd: int, buf: seq<byte>)
    | Read(fd: int, size: nat)
    | Close(fd: int)
    | Delete(name: string)
    | Resize(fd: int, newSize: nat)

  /** What a call returns: the code, and for a read also the bytes put into the caller's buffer. */
  datatype Reply = Reply(code: int, bytes: seq<byte>)

  predicate HasFlag(flags: bv32, flag: bv32) {
    flags & flag != 0
  }

  function Min(a: int, b: int): int {
    if a < b then a else b
  }

  function PutAt(content: seq<byte>, p: int, b: byte): seq<byte>
    requires 0 <= p <= |content|
  {
    if p < |content| then content[p := b] else content + [b]
  }

  /** `content` with `bytes` laid over it from position p on, longer if they reach past its end. */
  function Overwrite(content: seq<byte>, p: int, bytes: seq<byte>): seq<byte>
    requires 0 <= p <= |content|
  {
    content[..p] + bytes + if p + |bytes| < |content| then content[p + |bytes|..] else []
  }

  /** How many descriptors are open on a file. */
  function Refs(fds: seq<Option<Fd>>, id: nat): nat {
    if fds == [] then 0
    else Refs(fds[..|fds| - 1], id) + if fds[|fds| - 1].Some? && fds[|fds| - 1].value.file == id then 1 else 0
  }

  /** The lowest free slot of the table; its length when every slot is taken. */
  function FreeSlot(fds: seq<Option<Fd>>): (slot: nat)
    ensures slot <= |fds| && (slot < |fds| ==> fds[slot].None?)
    ensures forall i :: 0 <= i < slot ==> fds[i].Some?
  {
    if fds == [] || fds[0].None? then 0 else 1 + FreeSlot(fds[1..])
  }

  function Place(fds: seq<Option<Fd>>, d: Fd): seq<Option<Fd>> {
    var slot := FreeSlot(fds);
    if slot < |fds| then fds[slot := Some(d)] else fds + [Some(d)]
  }

  function Lookup(fs: Fs, fd: int): Option<Fd> {
    if 0 <= fd < |fs.fds| then fs.fds[fd] else None
  }

  predicate Named(fs: Fs, id: nat) {
    exists n :: n in fs.names && fs.names[n] == id
  }

  /** A file nobody can reach any more is gone. */
  function Drop(fs: Fs, id: nat): (r: Fs)
    ensures r.names == fs.names && r.fds == fs.fds && r.nextId == fs.nextId && r.errno == fs.errno
  {
    if Named(fs, id) || Refs(fs.fds, id) > 0 then fs else fs.(data := fs.data - {id})
  }

  /** Shrinking a file pulls back the descriptors that stood behind its new end. */
  function Clamp(fds: seq<Option<Fd>>, id: nat, size: nat): (r: seq<Option<Fd>>)
    ensures |r| == |fds|
    ensures forall i :: 0 <= i < |fds| ==>
              r[i] == if fds[i].Some? && fds[i].value.file == id
                      then Some(fds[i].value.(pos := Min(fds[i].value.pos, size))) else fds[i]
  {
    seq(|fds|, i requires 0 <= i < |fds| =>
      if fds[i].Some? && fds[i].value.file == id
      then Some(fds[i].value.(pos := Min(fds[i].value.pos, size))) else fds[i])
  }

  // ----- what the file system keeps between calls

  /** Names lead to live files, different names to different files. */
  ghost predicate NamesOk(fs: Fs) {
    && (forall n :: n in fs.names ==> fs.names[n] in fs.data)
    && (forall m, n :: m in fs.names && n in fs.names && fs.names[m] == fs.names[n] ==> m == n)
  }

  /** Descriptors stand on live files, nowhere behind the end. */
  ghost predicate FdsOk(fs: Fs) {
    forall i :: 0 <= i < |fs.fds| && fs.fds[i].Some? ==>
      fs.fds[i].value.file in fs.data && fs.fds[i].value.pos <= |fs.data[fs.fds[i].value.file]|
  }

  /** No file is oversized, and none is alive that neither a name nor a descriptor reaches. */
  ghost predicate DataOk(fs: Fs) {
    forall id :: id in fs.data ==>
      id < fs.nextId && |fs.data[id]| <= MAX_FILE_SIZE && (Named(fs, id) || Refs(fs.fds, id) > 0)
  }

  ghost predicate WellFormed(fs: Fs) {
    NamesOk(fs) && FdsOk(fs) && DataOk(fs)
  }

  /** Growing a file is the one thing resize does not implement. */
  predicate Supported(fs: Fs, call: Call) {
    call.Resize? && Lookup(fs, call.fd).Some? ==>
      var id := Lookup(fs, call.fd).value.file;
      id in fs.data && (call.newSize <= |fs.data[id]| || call.newSize >= MAX_FILE_SIZE)
  }

  // ----- the calls

  function Fail(fs: Fs, e: ErrorCode): (Fs, Reply) {
    (fs.(errno := e), Reply(-1, []))
  }

  /** A new empty file under an unused name. */
  function Created(fs: Fs, name: string): Fs {
    fs.(names := fs.names[name := fs.nextId], data := fs.data[fs.nextId := []], nextId := fs.nextId + 1)
  }

  function OpenStep(fs: Fs, name: string, flags: bv32): (Fs, Reply) {
    if name in fs.names then
      (fs.(fds := Place(fs.fds, Fd(fs.names[name], 0, flags))), Reply(FreeSlot(fs.fds), []))
    else if !HasFlag(flags, UFS_CREATE) then
      Fail(fs, NoFile)
    else
      (Created(fs, name).(fds := Place(fs.fds, Fd(fs.nextId, 0, flags))), Reply(FreeSlot(fs.fds), []))
  }

  /** The state after a write that is allowed and fits. */
  function Written(fs: Fs, fd: int, buf: seq<byte>): Fs
    requires WellFormed(fs) && Lookup(fs, fd).Some?
  {
    var d := fs.fds[fd].value;
    fs.(data := fs.data[d.file := Overwrite(fs.data[d.file], d.pos, buf)],
        fds := fs.fds[fd := Some(d.(pos := d.pos + |buf|))])
  }

  function WriteStep(fs: Fs, fd: int, buf: seq<byte>): (Fs, Reply)
    requires WellFormed(fs)
  {
    if Lookup(fs, fd).None? then Fail(fs, NoFile)
    else
      var d := fs.fds[fd].value;
      if HasFlag(d.flags, UFS_READ_ONLY) then Fail(fs, NoPermission)
      else if d.pos + |buf| > MAX_FILE_SIZE then Fail(fs, NoMem)
      else (Written(fs, fd, buf), Reply(|buf|, []))
  }

  function ReadStep(fs: Fs, fd: int, size: nat): (Fs, Reply)
    requires WellFormed(fs)
  {
    if Lookup(fs, fd).None? then Fail(fs, NoFile)
    else
      var d := fs.fds[fd].value;
      if HasFlag(d.flags, UFS_WRITE_ONLY) then Fail(fs, NoPermission)
      else
        var n := Min(size, |fs.data[d.file]| - d.pos);
        (fs.(fds := fs.fds[fd := Some(d.(pos := d.pos + n))]),
         Reply(n, fs.data[d.file][d.pos..d.pos + n]))
  }

  function CloseStep(fs: Fs, fd: int): (Fs, Reply) {
    if Lookup(fs, fd).None? then Fail(fs, NoFile)
    else (Drop(fs.(fds := fs.fds[fd := None]), fs.fds[fd].value.file), Reply(0, []))
  }

  function DeleteStep(fs: Fs, name: string): (Fs, Reply) {
    if name !in fs.names then Fail(fs, NoFile)
    else (Drop(fs.(names := fs.names - {name}), fs.names[name]), Reply(0, []))
  }

  /** A file has got new contents of a new length, and no descriptor stands behind its end. */
  function Resized(fs: Fs, id: nat, content: seq<byte>): Fs {
    fs.(data := fs.data[id := content], fds := Clamp(fs.fds, id, |content|))
  }

  function ResizeStep(fs: Fs, fd: int, newSize: nat): (Fs, Reply)
    requires WellFormed(fs) && Supported(fs, Resize(fd, newSize))
  {
    if Lookup(fs, fd).None? then Fail(fs, NoFile)
    else if newSize >= MAX_FILE_SIZE then Fail(fs, NoMem)
    else
      var id := fs.fds[fd].value.file;
      (Resized(fs, id, fs.data[id][..newSize]), Reply(0, []))
  }

  function Step(fs: Fs, call: Call): (Fs, Reply)
    requires WellFormed(fs) && Supported(fs, call)
  {
    match call
    case Open(name, flags) => OpenStep(fs, name, flags)
    case Write(fd, buf) => WriteStep(fs, fd, buf)
    case Read(fd, size) => ReadStep(fs, fd, size)
    case Close(fd) => CloseStep(fs, fd)
    case Delete(name) => DeleteStep(fs, name)
    case Resize(fd, newSize) => ResizeStep(fs, fd, newSize)
  }

  const EMPTY := Fs(map[], map[], [], 0, NoErr)

  lemma OverwriteExtend(content: seq<byte>, p: int, bytes: seq<byte>, b: byte)
    requires 0 <= p <= |content|
    ensures Overwrite(content, p, bytes + [b]) == PutAt(Overwrite(content, p, bytes), p + |bytes|, b)
  {
  }

  // ----- counting descriptors

  function Hit(o: Option<Fd>, id: nat): nat {
    if o.Some? && o.value.file == id then 1 else 0
  }

  lemma {:induction false} RefsUpdate(fds: seq<Option<Fd>>, i: nat, o: Option<Fd>, id: nat)
    requires i < |fds|
    ensures Refs(fds[i := o], id) == Refs(fds, id) - Hit(fds[i], id) + Hit(o, id)
  {
    var n := |fds| - 1;
    if i < n {
      assert fds[i := o][..n] == fds[..n][i := o];
      RefsUpdate(fds[..n], i, o, id);
    } else {
      assert fds[i := o][..n] == fds[..n];
    }
  }

  lemma {:induction false} RefsPositive(fds: seq<Option<Fd>>, id: nat)
    ensures Refs(fds, id) > 0 <==> exists i :: 0 <= i < |fds| && fds[i].Some? && fds[i].value.file == id
  {
    if fds != [] {
      var n := |fds| - 1;
      RefsPositive(fds[..n], id);
      if Refs(fds[..n], id) > 0 {
        var i :| 0 <= i < n && fds[..n][i].Some? && fds[..n][i].value.file == id;
        assert fds[i].Some? && fds[i].value.file == id;
      }
      forall i | 0 <= i < |fds| && fds[i].Some? && fds[i].value.file == id
        ensures Refs(fds, id) > 0
      {
        if i < n {
          assert fds[..n][i].Some? && fds[..n][i].value.file == id;
        }
      }
    }
  }

  lemma RefsPlace(fds: seq<Option<Fd>>, d: Fd, id: nat)
    ensures Refs(Place(fds, d), id) == Refs(fds, id) + if d.file == id then 1 else 0
  {
    var slot := FreeSlot(fds);
    if slot < |fds| {
      RefsUpdate(fds, slot, Some(d), id);
    } else {
      assert (fds + [Some(d)])[..|fds|] == fds;
    }
  }

  lemma {:induction false} RefsSameFiles(a: seq<Option<Fd>>, b: seq<Option<Fd>>, id: nat)
    requires |a| == |b|
    requires forall i :: 0 <= i < |a| ==> Hit(a[i], id) == Hit(b[i], id)
    ensures Refs(a, id) == Refs(b, id)
  {
    if a != [] {
      RefsSameFiles(a[..|a| - 1], b[..|b| - 1], id);
    }
  }

  // ----- every call keeps the file system well formed

  lemma OpenKeeps(fs: Fs, name: string, flags: bv32)
    requires WellFormed(fs)
    ensures WellFormed(OpenStep(fs, name, flags).0)
  {
    var fs' := OpenStep(fs, name, flags).0;
    if name in fs.names || HasFlag(flags, UFS_CREATE) {
      var id0 := if name in fs.names then fs.names[name] else fs.nextId;
      assert NamesOk(fs');
      assert FdsOk(fs');
      forall id | id in fs'.data
        ensures Named(fs', id) || Refs(fs'.fds, id) > 0
      {
        RefsPlace(fs.fds, Fd(id0, 0, flags), id);
        if id in fs.data && Named(fs, id) {
          var n :| n in fs.names && fs.names[n] == id;
          assert n in fs'.names && fs'.names[n] == id;
        }
      }
    }
  }

  lemma CreateKeeps(fs: Fs, name: string)
    requires WellFormed(fs) && name !in fs.names
    ensures WellFormed(Created(fs, name))
  {
    var fs' := Created(fs, name);
    assert fs'.names[name] == fs.nextId;
    forall id | id in fs.data
      ensures Named(fs', id) || Refs(fs'.fds, id) > 0
    {
      if Named(fs, id) {
        var n :| n in fs.names && fs.names[n] == id;
        assert n in fs'.names && fs'.names[n] == id;
      }
    }
  }

  /** Every call but open and close leaves who refers to which file alone. */
  lemma SameReferences(fs: Fs, fs': Fs)
    requires WellFormed(fs) && fs'.names == fs.names && fs'.nextId == fs.nextId && fs'.data.Keys == fs.data.Keys
    requires |fs'.fds| == |fs.fds|
    requires forall i :: 0 <= i < |fs.fds| ==>
               fs'.fds[i].Some? == fs.fds[i].Some? &&
               (fs.fds[i].Some? ==> fs'.fds[i].value.file == fs.fds[i].value.file)
    requires forall id :: id in fs.data ==> |fs'.data[id]| <= MAX_FILE_SIZE
    ensures NamesOk(fs') && DataOk(fs')
  {
    forall id | id in fs'.data
      ensures Named(fs', id) || Refs(fs'.fds, id) > 0
    {
      RefsSameFiles(fs.fds, fs'.fds, id);
    }
  }

  lemma WriteKeeps(fs: Fs, fd: int, buf: seq<byte>)
    requires WellFormed(fs)
    ensures WellFormed(WriteStep(fs, fd, buf).0)
  {
    SameReferences(fs, WriteStep(fs, fd, buf).0);
  }

  lemma ReadKeeps(fs: Fs, fd: int, size: nat)
    requires WellFormed(fs)
    ensures WellFormed(ReadStep(fs, fd, size).0)
  {
    SameReferences(fs, ReadStep(fs, fd, size).0);
  }

  lemma ResizedKeeps(fs: Fs, id: nat, content: seq<byte>)
    requires WellFormed(fs) && id in fs.data && |content| <= MAX_FILE_SIZE
    ensures WellFormed(Resized(fs, id, content))
  {
    SameReferences(fs, Resized(fs, id, content));
  }

  lemma ResizeKeeps(fs: Fs, fd: int, newSize: nat)
    requires WellFormed(fs) && Supported(fs, Resize(fd, newSize))
    ensures WellFormed(ResizeStep(fs, fd, newSize).0)
  {
    if Lookup(fs, fd).Some? && newSize < MAX_FILE_SIZE {
      ResizedKeeps(fs, fs.fds[fd].value.file, fs.data[fs.fds[fd].value.file][..newSize]);
    }
  }

  /** Dropping one file is safe when every other file is still reachable. */
  lemma DropKeeps(fs: Fs, id: nat)
    requires NamesOk(fs) && FdsOk(fs)
    requires forall x :: x in fs.data && x != id ==> Named(fs, x) || Refs(fs.fds, x) > 0
    requires forall x :: x in fs.data ==> x < fs.nextId && |fs.data[x]| <= MAX_FILE_SIZE
    ensures WellFormed(Drop(fs, id))
  {
    RefsPositive(fs.fds, id);
    assert Drop(fs, id).names == fs.names && Drop(fs, id).fds == fs.fds;
    assert forall x :: Named(Drop(fs, id), x) == Named(fs, x);
  }

  lemma CloseKeeps(fs: Fs, fd: int)
    requires WellFormed(fs)
    ensures WellFormed(CloseStep(fs, fd).0)
  {
    if Lookup(fs, fd).Some? {
      var mid := fs.(fds := fs.fds[fd := None]);
      var id := fs.fds[fd].value.file;
      forall x | x in mid.data && x != id
        ensures Named(mid, x) || Refs(mid.fds, x) > 0
      {
        RefsUpdate(fs.fds, fd, None, x);
        assert Named(mid, x) == Named(fs, x);
      }
      DropKeeps(mid, id);
    }
  }

  lemma DeleteKeeps(fs: Fs, name: string)
    requires WellFormed(fs)
    ensures WellFormed(DeleteStep(fs, name).0)
  {
    if name in fs.names {
      var mid := fs.(names := fs.names - {name});
      var id := fs.names[name];
      forall x | x in mid.data && x != id
        ensures Named(mid, x) || Refs(mid.fds, x) > 0
      {
        if Named(fs, x) {
          var n :| n in fs.names && fs.names[n] == x;
          assert n in mid.names && mid.names[n] == x;
        }
      }
      DropKeeps(mid, id);
    }
  }

  lemma StepKeepsWellFormed(fs: Fs, call: Call)
    requires WellFormed(fs) && Supported(fs, call)
    ensures WellFormed(Step(fs, call).0)
  {
    match call
    case Open(name, flags) => OpenKeeps(fs, name, flags);
    case Write(fd, buf) => WriteKeeps(fs, fd, buf);
    case Read(fd, size) => ReadKeeps(fs, fd, size);
    case Close(fd) => CloseKeeps(fs, fd);
    case Delete(name) => DeleteKeeps(fs, name);
    case Resize(fd, newSize) => ResizeKeeps(fs, fd, newSize);
  }

  // ----- runs

  /** No call of the run grows a file by resizing it. */
  ghost predicate SupportedRun(fs: Fs, calls: seq<Call>)
    requires WellFormed(fs)
    decreases |calls|
  {
    calls == [] ||
    (Supported(fs, calls[0]) && (StepKeepsWellFormed(fs, calls[0]); SupportedRun(Step(fs, calls[0]).0, calls[1..])))
  }

  function Run(fs: Fs, calls: seq<Call>): (r: (Fs, seq<Reply>))
    requires WellFormed(fs) && SupportedRun(fs, calls)
    ensures WellFormed(r.0) && |r.1| == |calls|
    decreases |calls|
  {
    if calls == [] then (fs, [])
    else
      StepKeepsWellFormed(fs, calls[0]);
      var (mid, reply) := Step(fs, calls[0]);
      var (last, replies) := Run(mid, calls[1..]);
      (last, [reply] + replies)
  }

  lemma {:induction false} RunAppend(fs: Fs, calls: seq<Call>, call: Call)
    requires WellFormed(fs) && SupportedRun(fs, calls + [call])
    ensures SupportedRun(fs, calls)
    ensures var (mid, replies) := Run(fs, calls);
            Supported(mid, call) && Run(fs, calls + [call]) == (Step(mid, call).0, replies + [Step(mid, call).1])
    decreases |calls|
  {
    if calls == [] {
      assert calls + [call] == [call] && [call][1..] == [];
      StepKeepsWellFormed(fs, call);
      var (mid, reply) := Step(fs, call);
      assert Run(mid, []) == (mid, []) && [reply] + [] == [] + [reply];
    } else {
      assert (calls + [call])[1..] == calls[1..] + [call] && (calls + [call])[0] == calls[0];
      StepKeepsWellFormed(fs, calls[0]);
      var (mid, reply) := Step(fs, calls[0]);
      RunAppend(mid, calls[1..], call);
      var (last, replies) := Run(mid, calls[1..]);
      assert [reply] + (replies + [Step(last, call).1]) == ([reply] + replies) + [Step(last, call).1];
    }
  }

  lemma {:induction false} SupportedPrefix(fs: Fs, calls: seq<Call>, n: nat)
    requires WellFormed(fs) && SupportedRun(fs, calls) && n <= |calls|
    ensures SupportedRun(fs, calls[..n])
    decreases n
  {
    if n > 0 {
      assert calls[..n][1..] == calls[1..][..n - 1];
      StepKeepsWellFormed(fs, calls[0]);
      SupportedPrefix(Step(fs, calls[0]).0, calls[1..], n - 1);
    }
  }
}

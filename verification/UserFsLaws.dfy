/** What callers of UserFS can rely on, over single calls and over whole runs. */
module UserFsLaws {
  import opened Options
  import opened UserFsSpec
  import UserFs
  import UserFsBlocks

  // ----- one call

  lemma FailedCallsChangeNothing(fs: Fs, call: Call)
    requires WellFormed(fs) && Supported(fs, call) && Step(fs, call).1.code == -1
    ensures Step(fs, call).0 == fs.(errno := Step(fs, call).0.errno)
    ensures Step(fs, call).0.errno in {NoFile, NoMem, NoPermission}
  {
    if call.Read? && Lookup(fs, call.fd).Some? {
      var d := fs.fds[call.fd].value;
      assert Min(call.size, |fs.data[d.file]| - d.pos) >= 0;
    }
  }

  /** Byte for byte: a write replaces its range, extends the file if it must, and touches nothing else. */
  lemma OverwriteBytes(content: seq<byte>, p: int, buf: seq<byte>)
    requires 0 <= p <= |content|
    ensures |Overwrite(content, p, buf)| == if p + |buf| > |content| then p + |buf| else |content|
    ensures forall i :: 0 <= i < |Overwrite(content, p, buf)| ==>
              Overwrite(content, p, buf)[i] == if p <= i < p + |buf| then buf[i - p] else content[i]
  {
  }

  /** What was written at a position is what any descriptor at that position reads. */
  lemma WrittenBytesComeBack(fs: Fs, fd: int, buf: seq<byte>, other: int)
    requires WellFormed(fs) && WriteStep(fs, fd, buf).1.code != -1
    requires Lookup(fs, other).Some? && other != fd && !HasFlag(fs.fds[other].value.flags, UFS_WRITE_ONLY)
    requires fs.fds[other].value.file == fs.fds[fd].value.file && fs.fds[other].value.pos == fs.fds[fd].value.pos
    ensures WellFormed(WriteStep(fs, fd, buf).0)
    ensures ReadStep(WriteStep(fs, fd, buf).0, other, |buf|).1 == Reply(|buf|, buf)
  {
    WriteKeeps(fs, fd, buf);
    var d := fs.fds[fd].value;
    OverwriteBytes(fs.data[d.file], d.pos, buf);
  }

  /** Two writes through one descriptor are one write of both buffers. */
  lemma WritesJoin(fs: Fs, fd: int, a: seq<byte>, b: seq<byte>)
    requires WellFormed(fs) && WriteStep(fs, fd, a + b).1.code != -1
    ensures WellFormed(WriteStep(fs, fd, a).0) && WriteStep(fs, fd, a).1 == Reply(|a|, [])
    ensures WriteStep(WriteStep(fs, fd, a).0, fd, b) == (WriteStep(fs, fd, a + b).0, Reply(|b|, []))
  {
    WriteKeeps(fs, fd, a);
    var d := fs.fds[fd].value;
    var c := fs.data[d.file];
    OverwriteBytes(c, d.pos, a);
    OverwriteBytes(c, d.pos, a + b);
    OverwriteBytes(Overwrite(c, d.pos, a), d.pos + |a|, b);
    assert Overwrite(Overwrite(c, d.pos, a), d.pos + |a|, b) == Overwrite(c, d.pos, a + b);
    var one, two := Written(fs, fd, a + b), Written(Written(fs, fd, a), fd, b);
    assert one.data == two.data && one.fds == two.fds;
  }

  // ----- reading to the end

  /** One read after another through a descriptor. */
  function Reads(fd: int, sizes: seq<nat>): (calls: seq<Call>)
    ensures |calls| == |sizes|
  {
    if sizes == [] then [] else [Read(fd, sizes[0])] + Reads(fd, sizes[1..])
  }

  function Total(sizes: seq<nat>): nat {
    if sizes == [] then 0 else sizes[0] + Total(sizes[1..])
  }

  /** The bytes of all replies, one after the other. */
  function Bytes(replies: seq<Reply>): seq<byte> {
    if replies == [] then [] else replies[0].bytes + Bytes(replies[1..])
  }

  /** The bytes are those from the position of the descriptor on, `wanted` of them or all there are, and nothing has
      changed but that the descriptor stands behind them. */
  predicate ReadsTo(fs: Fs, fd: int, wanted: nat, bytes: seq<byte>, last: Fs) {
    && Lookup(fs, fd).Some?
    && var d := fs.fds[fd].value;
       && d.file in fs.data && d.pos <= |fs.data[d.file]|
       && var end := Min(d.pos + wanted, |fs.data[d.file]|);
          bytes == fs.data[d.file][d.pos..end] && last == fs.(fds := fs.fds[fd := Some(d.(pos := end))])
  }

  /** Whatever the sizes of the reads, their bytes join to the file from the position on, as far as they ask for it. */
  lemma {:induction false} ReadsJoin(fs: Fs, fd: int, sizes: seq<nat>)
    requires WellFormed(fs) && Lookup(fs, fd).Some? && !HasFlag(fs.fds[fd].value.flags, UFS_WRITE_ONLY)
    ensures SupportedRun(fs, Reads(fd, sizes))
    ensures var (last, replies) := Run(fs, Reads(fd, sizes));
            ReadsTo(fs, fd, Total(sizes), Bytes(replies), last)
    decreases |sizes|
  {
    hide WellFormed, HasFlag, Run, SupportedRun, Step, ReadsTo;
    if sizes == [] {
      NoCalls(fs);
      NothingRead(fs, fd);
    } else {
      ReadIs(fs, fd, sizes[0]);
      var call := Read(fd, sizes[0]);
      var mid, reply := Step(fs, call).0, Step(fs, call).1;
      StaysReadable(fs, fd, sizes[0], reply.bytes, mid);
      ReadsJoin(mid, fd, sizes[1..]);
      CallFirst(fs, call, Reads(fd, sizes[1..]));
      var (last, replies) := Run(mid, Reads(fd, sizes[1..]));
      OneMoreReply(reply, replies);
      ReadsOn(fs, fd, sizes[0], reply.bytes, mid, Total(sizes[1..]), Bytes(replies), last);
    }
  }

  lemma NothingRead(fs: Fs, fd: int)
    requires WellFormed(fs) && Lookup(fs, fd).Some?
    ensures ReadsTo(fs, fd, 0, [], fs)
  {
    OnTheFile(fs, fd);
    var d := fs.fds[fd].value;
    assert fs.fds[fd := Some(d.(pos := d.pos))] == fs.fds;
  }

  lemma OneMoreReply(reply: Reply, replies: seq<Reply>)
    ensures Bytes([reply] + replies) == reply.bytes + Bytes(replies)
  {
    assert ([reply] + replies)[1..] == replies;
  }

  lemma StaysReadable(fs: Fs, fd: int, wanted: nat, bytes: seq<byte>, last: Fs)
    requires ReadsTo(fs, fd, wanted, bytes, last)
    ensures Lookup(last, fd).Some? && last.fds[fd].value.flags == fs.fds[fd].value.flags
  {
  }

  lemma ReadsOn(fs: Fs, fd: int, a: nat, bytesA: seq<byte>, mid: Fs, b: nat, bytesB: seq<byte>, last: Fs)
    requires ReadsTo(fs, fd, a, bytesA, mid) && ReadsTo(mid, fd, b, bytesB, last)
    ensures ReadsTo(fs, fd, a + b, bytesA + bytesB, last)
  {
    var d := fs.fds[fd].value;
    var c, middle := fs.data[d.file], mid.fds[fd].value.pos;
    var end := Min(middle + b, |c|);
    assert c[d.pos..middle] + c[middle..end] == c[d.pos..end];
    assert last.fds == fs.fds[fd := Some(d.(pos := end))];
  }

  lemma ReadIs(fs: Fs, fd: int, size: nat)
    requires WellFormed(fs) && Lookup(fs, fd).Some? && !HasFlag(fs.fds[fd].value.flags, UFS_WRITE_ONLY)
    ensures WellFormed(Step(fs, Read(fd, size)).0) && Supported(fs, Read(fd, size))
    ensures var (fs', reply) := Step(fs, Read(fd, size));
            reply.code == |reply.bytes| && ReadsTo(fs, fd, size, reply.bytes, fs')
  {
    StepKeepsWellFormed(fs, Read(fd, size));
    OnTheFile(fs, fd);
  }

  lemma OnTheFile(fs: Fs, fd: int)
    requires WellFormed(fs) && Lookup(fs, fd).Some?
    ensures var d := fs.fds[fd].value; d.file in fs.data && d.pos <= |fs.data[d.file]|
  {
  }

  /** Reading on until a read returns nothing gives the file from the position to its end. */
  lemma ReadUntilNothingIsLeft(fs: Fs, fd: int, sizes: seq<nat>, size: nat)
    requires WellFormed(fs) && Lookup(fs, fd).Some? && !HasFlag(fs.fds[fd].value.flags, UFS_WRITE_ONLY) && size > 0
    ensures SupportedRun(fs, Reads(fd, sizes)) && SupportedRun(fs, Reads(fd, sizes + [size]))
    ensures fs.fds[fd].value.file in fs.data && fs.fds[fd].value.pos <= |fs.data[fs.fds[fd].value.file]|
    ensures var d := fs.fds[fd].value;
            var (_, replies) := Run(fs, Reads(fd, sizes + [size]));
            replies[|sizes|].code == 0 ==> Bytes(replies) == fs.data[d.file][d.pos..]
  {
    hide WellFormed, HasFlag, Run, SupportedRun, Step, ReadsTo, Total, Reads, Bytes;
    OnTheFile(fs, fd);
    var mid, before, bytes := AfterReads(fs, fd, sizes);
    var last, replies, all := AfterReads(fs, fd, sizes + [size]);
    ReadsSnoc(fd, sizes, size);
    RunAppend(fs, Reads(fd, sizes), Read(fd, size));
    EmptyRead(fs, fd, Total(sizes), bytes, mid, size, last, replies[|sizes|], Total(sizes + [size]), all);
  }

  /** A read that returns nothing was the last one that could return anything. */
  lemma EmptyRead(fs: Fs, fd: int, wanted: nat, bytes: seq<byte>, mid: Fs, size: nat, last: Fs, reply: Reply,
                  total: nat, all: seq<byte>)
    requires ReadsTo(fs, fd, wanted, bytes, mid) && ReadsTo(fs, fd, total, all, last) && total == wanted + size
    requires WellFormed(mid) && (last, reply) == Step(mid, Read(fd, size)) && size > 0
    requires Lookup(fs, fd).Some? && !HasFlag(fs.fds[fd].value.flags, UFS_WRITE_ONLY)
    ensures reply.code == 0 ==> all == fs.data[fs.fds[fd].value.file][fs.fds[fd].value.pos..]
  {
    hide WellFormed, HasFlag, Step;
    ReadIs(mid, fd, size);
    if reply.code == 0 {
      assert reply.bytes == [];
      NothingMore(fs, fd, wanted, bytes, mid, size, last, all);
    }
  }

  lemma AfterReads(fs: Fs, fd: int, sizes: seq<nat>) returns (last: Fs, replies: seq<Reply>, bytes: seq<byte>)
    requires WellFormed(fs) && Lookup(fs, fd).Some? && !HasFlag(fs.fds[fd].value.flags, UFS_WRITE_ONLY)
    ensures SupportedRun(fs, Reads(fd, sizes)) && (last, replies) == Run(fs, Reads(fd, sizes))
    ensures WellFormed(last) && |replies| == |sizes| && bytes == Bytes(replies)
    ensures ReadsTo(fs, fd, Total(sizes), bytes, last)
  {
    ReadsJoin(fs, fd, sizes);
    last, replies := Run(fs, Reads(fd, sizes)).0, Run(fs, Reads(fd, sizes)).1;
    bytes := Bytes(replies);
  }

  lemma NothingMore(fs: Fs, fd: int, wanted: nat, bytes: seq<byte>, mid: Fs, size: nat, last: Fs, all: seq<byte>)
    requires ReadsTo(fs, fd, wanted, bytes, mid) && ReadsTo(mid, fd, size, [], last) && size > 0
    requires ReadsTo(fs, fd, wanted + size, all, last)
    ensures all == fs.data[fs.fds[fd].value.file][fs.fds[fd].value.pos..]
  {
    var d, d' := fs.fds[fd].value, mid.fds[fd].value;
    assert |mid.data[d'.file][d'.pos..Min(d'.pos + size, |mid.data[d'.file]|)]| == 0;
  }

  lemma {:induction false} ReadsSnoc(fd: int, sizes: seq<nat>, size: nat)
    ensures Reads(fd, sizes + [size]) == Reads(fd, sizes) + [Read(fd, size)]
    ensures Total(sizes + [size]) == Total(sizes) + size
  {
    if sizes != [] {
      ReadsSnoc(fd, sizes[1..], size);
      assert (sizes + [size])[1..] == sizes[1..] + [size];
    }
  }

  // ----- what a call leaves alone

  /** The file a call writes to or resizes, if it does either. */
  function Target(fs: Fs, call: Call): Option<nat> {
    match call
    case Write(fd, _) => if Lookup(fs, fd).Some? then Some(fs.fds[fd].value.file) else None
    case Resize(fd, _) => if Lookup(fs, fd).Some? then Some(fs.fds[fd].value.file) else None
    case _ => None
  }

  /** The call does not go through slot i, and does not change the file slot i stands on. */
  predicate Spares(fs: Fs, call: Call, i: int) {
    && Lookup(fs, i).Some?
    && (call.Write? || call.Read? || call.Close? ==> call.fd != i)
    && Target(fs, call) != Some(fs.fds[i].value.file)
  }

  /** No call disturbs the bytes of another file. */
  lemma OtherFilesKeepTheirBytes(fs: Fs, call: Call, id: nat)
    requires WellFormed(fs) && Supported(fs, call) && id in fs.data && Target(fs, call) != Some(id)
    ensures id in Step(fs, call).0.data ==> Step(fs, call).0.data[id] == fs.data[id]
    ensures id !in Step(fs, call).0.data ==>
              !Named(Step(fs, call).0, id) && Refs(Step(fs, call).0.fds, id) == 0
  {
  }

  /**
    No call disturbs another descriptor, also when both stand on one file: only reading, writing and closing through a
    descriptor itself move it, and a resize moves it to the new end if it stands behind it.
   */
  lemma OtherDescriptorsStay(fs: Fs, call: Call, i: int)
    requires WellFormed(fs) && Supported(fs, call) && Lookup(fs, i).Some?
    requires call.Write? || call.Read? || call.Close? ==> call.fd != i
    ensures var d := fs.fds[i].value;
            Lookup(Step(fs, call).0, i) ==
            if call.Resize? && Step(fs, call).1.code == 0 && fs.fds[call.fd].value.file == d.file
            then Some(d.(pos := Min(d.pos, call.newSize))) else Some(d)
  {
  }

  /** A descriptor that is spared stays, and so do the bytes of its file. */
  lemma SparedDescriptorsStay(fs: Fs, call: Call, i: int)
    requires WellFormed(fs) && Supported(fs, call) && Spares(fs, call, i)
    ensures Lookup(Step(fs, call).0, i) == Lookup(fs, i)
    ensures var id := fs.fds[i].value.file;
            id in Step(fs, call).0.data && Step(fs, call).0.data[id] == fs.data[id]
  {
    var fs' := Step(fs, call).0;
    StepKeepsWellFormed(fs, call);
    assert Lookup(fs', i) == Lookup(fs, i);
    assert fs'.fds[i].value.file in fs'.data;
    OtherFilesKeepTheirBytes(fs, call, fs.fds[i].value.file);
  }

  /** Slot i and its file are spared by every call of a run. */
  ghost predicate SparedRun(fs: Fs, calls: seq<Call>, i: int)
    requires WellFormed(fs) && SupportedRun(fs, calls)
    decreases |calls|
  {
    calls == [] ||
    (Spares(fs, calls[0], i) &&
     (StepKeepsWellFormed(fs, calls[0]); SparedRun(Step(fs, calls[0]).0, calls[1..], i)))
  }

  /**
    A descriptor sees its file unchanged through any run that spares it: other descriptors may come and go,
    other files may be written, and its own file may be deleted and its name given to a new file.
   */
  lemma {:induction false} DescriptorKeepsItsFile(fs: Fs, calls: seq<Call>, i: int)
    requires WellFormed(fs) && SupportedRun(fs, calls) && SparedRun(fs, calls, i) && Lookup(fs, i).Some?
    ensures var last := Run(fs, calls).0;
            && Lookup(last, i) == Lookup(fs, i)
            && fs.fds[i].value.file in last.data
            && last.data[fs.fds[i].value.file] == fs.data[fs.fds[i].value.file]
    decreases |calls|
  {
    if calls != [] {
      StepKeepsWellFormed(fs, calls[0]);
      SparedDescriptorsStay(fs, calls[0], i);
      DescriptorKeepsItsFile(Step(fs, calls[0]).0, calls[1..], i);
    }
  }

  /** In particular a deleted file can be read to the end through a descriptor that was open. */
  lemma DeletedFileCanStillBeRead(fs: Fs, name: string, calls: seq<Call>, i: int, size: nat)
    requires WellFormed(fs) && Lookup(fs, i).Some? && name in fs.names && fs.names[name] == fs.fds[i].value.file
    requires SupportedRun(fs, [Delete(name)] + calls) && SparedRun(fs, [Delete(name)] + calls, i)
    ensures var last := Run(fs, [Delete(name)] + calls).0;
            ReadStep(last, i, size).1 == ReadStep(fs, i, size).1
  {
    DescriptorKeepsItsFile(fs, [Delete(name)] + calls, i);
  }

  /** A name given to a new file after a delete leads to an empty file that no open descriptor stands on. */
  lemma RecreatedFileStartsEmpty(fs: Fs, name: string, flags: bv32)
    requires WellFormed(fs) && name in fs.names && HasFlag(flags, UFS_CREATE)
    ensures WellFormed(DeleteStep(fs, name).0)
    ensures var (fs', reply) := OpenStep(DeleteStep(fs, name).0, name, flags);
            && name in fs'.names && fs'.names[name] != fs.names[name] && fs'.names[name] !in fs.data
            && fs'.names[name] in fs'.data && fs'.data[fs'.names[name]] == []
            && Lookup(fs', reply.code) == Some(Fd(fs'.names[name], 0, flags))
            && Refs(fs'.fds, fs'.names[name]) == 1
  {
    DeleteKeeps(fs, name);
    var mid := DeleteStep(fs, name).0;
    RefsPlace(mid.fds, Fd(mid.nextId, 0, flags), mid.nextId);
    RefsPositive(mid.fds, mid.nextId);
  }

  /** Once every name is deleted and every descriptor closed, no file is left. */
  lemma NothingLeaks(fs: Fs)
    requires WellFormed(fs) && fs.names == map[] && forall i :: 0 <= i < |fs.fds| ==> fs.fds[i].None?
    ensures fs.data == map[]
  {
    forall id | id in fs.data ensures false {
      RefsPositive(fs.fds, id);
    }
  }

  /** Open takes the lowest free slot and leaves the taken ones alone, also when the table grows. */
  lemma OpenTakesTheLowestFreeSlot(fs: Fs, name: string, flags: bv32)
    requires WellFormed(fs) && OpenStep(fs, name, flags).1.code != -1
    ensures var (fs', reply) := OpenStep(fs, name, flags);
            && 0 <= reply.code <= |fs.fds|
            && (forall j :: 0 <= j < reply.code ==> fs.fds[j].Some?)
            && (reply.code < |fs.fds| ==> fs.fds[reply.code].None?)
            && Lookup(fs', reply.code) == Some(Fd(fs'.names[name], 0, flags))
            && (forall j :: j != reply.code ==> Lookup(fs', j) == Lookup(fs, j))
  {
  }

  // ----- resizing

  /**
    A supported resize keeps exactly a prefix, and no descriptor of the file stands behind the new end;
    one that stood before it has not moved.
   */
  lemma ResizeTruncates(fs: Fs, fd: int, newSize: nat)
    requires WellFormed(fs) && Supported(fs, Resize(fd, newSize)) && ResizeStep(fs, fd, newSize).1.code == 0
    ensures var (fs', id) := (ResizeStep(fs, fd, newSize).0, fs.fds[fd].value.file);
            && |fs'.data[id]| == newSize && fs'.data[id] <= fs.data[id]
            && (forall i :: Lookup(fs, i).Some? && fs.fds[i].value.file == id ==>
                  Lookup(fs', i) == Some(fs.fds[i].value.(pos := Min(fs.fds[i].value.pos, newSize))))
            && (forall i :: Lookup(fs, i).Some? && fs.fds[i].value.file != id ==> Lookup(fs', i) == Lookup(fs, i))
  {
  }

  /**
    The header lets resize fail with "not enough memory" only when the file would grow. The code refuses every
    size from MAX_FILE_SIZE on, so the one request it refuses against the header is to keep a file of exactly
    the maximal size. FullFileCannotKeepItsSize is a run that gets there.
   */
  lemma ResizeRefusesOnlyGrowthUnlessFull(fs: Fs, fd: int, newSize: nat)
    requires WellFormed(fs) && Supported(fs, Resize(fd, newSize)) && Lookup(fs, fd).Some?
    ensures var size := |fs.data[fs.fds[fd].value.file]|;
            ResizeStep(fs, fd, newSize).1.code == -1 && newSize <= size <==> newSize == size == MAX_FILE_SIZE
  {
  }

  lemma ThreeCalls(fs: Fs, a: Call, b: Call, c: Call)
    requires WellFormed(fs) && Supported(fs, a)
    requires WellFormed(Step(fs, a).0) && Supported(Step(fs, a).0, b)
    requires WellFormed(Step(Step(fs, a).0, b).0) && Supported(Step(Step(fs, a).0, b).0, c)
    ensures SupportedRun(fs, [a, b, c])
    ensures var (fs1, r1) := Step(fs, a); var (fs2, r2) := Step(fs1, b); var (fs3, r3) := Step(fs2, c);
            Run(fs, [a, b, c]) == (fs3, [r1, r2, r3])
  {
    hide Step, WellFormed, Supported, SupportedRun;
    var fs1, r1 := Step(fs, a).0, Step(fs, a).1;
    var fs2, r2 := Step(fs1, b).0, Step(fs1, b).1;
    var fs3, r3 := Step(fs2, c).0, Step(fs2, c).1;
    StepKeepsWellFormed(fs2, c);
    NoCalls(fs3);
    CallFirst(fs2, c, []);
    assert [c] + [] == [c] && [r3] + [] == [r3];
    CallFirst(fs1, b, [c]);
    assert [b] + [c] == [b, c] && [r2] + [r3] == [r2, r3];
    CallFirst(fs, a, [b, c]);
    assert [a] + [b, c] == [a, b, c] && [r1] + [r2, r3] == [r1, r2, r3];
  }

  lemma NoCalls(fs: Fs)
    requires WellFormed(fs)
    ensures SupportedRun(fs, []) && Run(fs, []) == (fs, [])
  {
  }

  lemma CallFirst(fs: Fs, call: Call, rest: seq<Call>)
    requires WellFormed(fs) && Supported(fs, call)
    requires WellFormed(Step(fs, call).0) && SupportedRun(Step(fs, call).0, rest)
    ensures SupportedRun(fs, [call] + rest)
    ensures Run(fs, [call] + rest) ==
            (Run(Step(fs, call).0, rest).0, [Step(fs, call).1] + Run(Step(fs, call).0, rest).1)
  {
    hide Step, WellFormed, Supported;
    assert ([call] + rest)[1..] == rest && ([call] + rest)[0] == call;
  }

  /** One write makes a file of the maximal size, and then it cannot be resized to the size it has. */
  lemma FullFileCannotKeepItsSize(zeros: seq<byte>)
    requires |zeros| == MAX_FILE_SIZE
    ensures var calls := [Open("a", UFS_CREATE), Write(0, zeros), Resize(0, MAX_FILE_SIZE)];
            && WellFormed(EMPTY) && SupportedRun(EMPTY, calls)
            && Run(EMPTY, calls).1 == [Reply(0, []), Reply(MAX_FILE_SIZE, []), Reply(-1, [])]
            && Run(EMPTY, calls).0.data == map[0 := zeros]
  {
    hide WellFormed, SupportedRun, Run;
    OneEmptyFile();
    EmptyIsWellFormed();
    var open, write, resize := Open("a", UFS_CREATE), Write(0, zeros), Resize(0, MAX_FILE_SIZE);
    StepKeepsWellFormed(EMPTY, open);
    var fs1 := Step(EMPTY, open).0;
    StepKeepsWellFormed(fs1, write);
    FullWrite(fs1, zeros);
    ThreeCalls(EMPTY, open, write, resize);
  }

  lemma EmptyIsWellFormed()
    ensures WellFormed(EMPTY)
  {
  }

  lemma FullWrite(fs: Fs, zeros: seq<byte>)
    requires WellFormed(fs) && Lookup(fs, 0) == Some(Fd(0, 0, UFS_CREATE)) && fs.data == map[0 := []]
    requires |zeros| == MAX_FILE_SIZE
    ensures WriteStep(fs, 0, zeros).1 == Reply(MAX_FILE_SIZE, [])
    ensures var after := WriteStep(fs, 0, zeros).0; after.data == map[0 := zeros] && Lookup(after, 0).Some?
  {
    hide WellFormed;
    assert Overwrite([], 0, zeros) == zeros;
  }

  /**
    Growing past the blocks of a file: the header promises new blocks, the code only raises a counter past the size of
    a block. Through any descriptor of the file, a read that goes k bytes behind its old blocks is served; then the file
    ends where the last whole block before the position ends. The next read, whatever it asks for, reports the end of
    the file or a negative number of bytes. The new size is lost unless that first read took every byte of it and it is
    a whole number of blocks.
   */
  method GrowthIsLost(fs: UserFs.FileSystem, fd: int, other: int, newSize: nat, k: nat, size: nat)
      returns (first: int, second: int)
    requires fs.Valid() && fs.Overflows(fd, newSize) && k <= newSize - fs.Capacity(fd)
    requires 0 <= other < |fs.descs| && fs.descs[other] != null && fs.descs[other].file == fs.descs[fd].file
    modifies fs, fs.descs, fs.byId.Values, fs.allBlocks
    ensures first == old(fs.descs[other].ToEdge()) + k && second == -(k % BLOCK_SIZE)
    ensures old(fs.descs[other]).file.Size() == old(fs.Capacity(fd)) + k - k % BLOCK_SIZE
    ensures old(fs.descs[other]).file.Size() == newSize <==>
            k == newSize - old(fs.Capacity(fd)) && newSize % BLOCK_SIZE == 0
  {
    hide UserFs.FileSystem.World, UserFsBlocks.File.Valid, UserFsBlocks.FileDesc.On, UserFsBlocks.File.Spine;
    var d := fs.TryGetFileDescriptor(other);
    fs.InFootprint(other);
    fs.Opened(other);
    d.Chained();
    var toEdge := BLOCK_SIZE * (d.file.lastBlock.index + 1) - (BLOCK_SIZE * d.currentBlock.index + d.blockOffset);
    var code := fs.Resize(fd, newSize);
    first, second := d.ReadBehind(toEdge + k, size);
  }

  /** The smallest size that is lost: 513 bytes are read, and the next read returns -1. */
  method OneByteTooMany() returns (first: int, second: int)
    ensures first == BLOCK_SIZE + 1 && second == -1
  {
    hide OpenStep, WellFormed, UserFs.FileSystem.World, UserFs.FileSystem.TableOk, UserFsBlocks.File.Spine;
    var fs := new UserFs.FileSystem();
    var fd := fs.Open("a", UFS_CREATE);
    OneEmptyFile();
    fs.OneBlock(fd);
    first, second := GrowthIsLost(fs, fd, fd, BLOCK_SIZE + 1, 1, 1);
  }

  lemma OneEmptyFile()
    ensures var (fs, reply) := OpenStep(EMPTY, "a", UFS_CREATE);
            reply.code == 0 && Lookup(fs, 0) == Some(Fd(0, 0, UFS_CREATE)) && fs.data == map[0 := []]
  {
  }
}

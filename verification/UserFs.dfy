/** The file system itself: the file list, the descriptor table and the calls. */
module UserFs {
  import opened Options
  import opened UserFsSpec
  import opened UserFsCalls
  import opened UserFsBlocks

  class FileSystem {
    var errorCode: ErrorCode
    var fileList: File?
    var descriptors: array?<FileDesc?>
    var count: nat
    var capacity: nat

    ghost var files: seq<File>             // the list of named files, first to last
    ghost var byId: map<nat, File>         // every file alive, deleted ones included
    ghost var allBlocks: set<Block>
    ghost var allMems: set<array<byte>>
    ghost var descs: seq<FileDesc?>        // the used part of the descriptor table
    ghost var abs: Fs                      // what the callers see

    /** Whatever the file system holds now, it held before or has allocated since. */
    twostate predicate Grown()
      reads `byId, `allBlocks, `allMems, `descs, `descriptors
    {
      && (forall o: object :: o in byId.Values ==> o in old(byId.Values) || fresh(o))
      && (forall o: object :: o in allBlocks ==> o in old(allBlocks) || fresh(o))
      && (forall o: object :: o in allMems ==> o in old(allMems) || fresh(o))
      && (forall k :: 0 <= k < |descs| && descs[k] != null ==> descs[k] in old(descs) || fresh(descs[k]))
      && (descriptors != null ==> descriptors == old(descriptors) || fresh(descriptors))
    }

    ghost predicate TableOk()
      reads `descriptors, `count, `capacity, `descs, descriptors
    {
      && |descs| == count
      && (if descriptors == null then count == 0 && capacity == 0
          else descriptors.Length == capacity >= 1 && count <= capacity && descriptors[..count] == descs)
    }

    /** The files of `m` are canonical and share neither blocks nor buffers. */
    static ghost predicate FilesIn(m: map<nat, File>, blocks: set<Block>, mems: set<array<byte>>)
      reads m.Values`blocks, m.Values`mems, m.Values`content, m.Values`blockList, m.Values`lastBlock, m.Values`roomy
      reads blocks`occupied, blocks`next, blocks`prev, mems
    {
      && (forall id :: id in m ==> m[id].id == id && m[id].mems <= mems)
      && (forall id, k :: id in m && 0 <= k < |m[id].blocks| ==>
            m[id].blocks[k] in blocks && m[id].blocks[k].owner == id)
      && (forall id :: id in m ==> m[id].Valid())
      && (forall x, y :: x in m && y in m && x != y ==> m[x].mems !! m[y].mems)
    }

    ghost predicate FilesOk()
      reads `byId, `allBlocks, `allMems, allBlocks`occupied, allBlocks`next, allBlocks`prev, allMems
      reads byId.Values`blocks, byId.Values`mems, byId.Values`content, byId.Values`blockList, byId.Values`lastBlock
      reads byId.Values`roomy
    {
      FilesIn(byId, allBlocks, allMems)
    }

    ghost predicate Known(f: File)
      reads `byId
    {
      f.id in byId && byId[f.id] == f
    }

    /** Every open descriptor knows its slot and stands on a block of a living file. */
    static ghost predicate DescsIn(m: map<nat, File>, ds: seq<FileDesc?>)
      reads ds`index, ds`currentBlock, ds`blockOffset, m.Values`blocks, m.Values`content
    {
      forall i :: 0 <= i < |ds| && ds[i] != null ==>
        ds[i].index == i && ds[i].file.id in m && m[ds[i].file.id] == ds[i].file && ds[i].On()
    }

    static ghost function At(files: seq<File>, k: int): File? {
      if 0 <= k < |files| then files[k] else null
    }

    static ghost predicate Hooked(files: seq<File>, k: int)
      requires 0 <= k < |files|
      reads files`next, files`prev
    {
      files[k].next == At(files, k + 1) && files[k].prev == At(files, k - 1)
    }

    /** `list` is the doubly linked list that starts at `head`; the other files of `m` hang on nothing. */
    static ghost predicate LinksIn(m: map<nat, File>, list: seq<File>, head: File?)
      reads list`next, list`prev, m.Values`next, m.Values`prev
    {
      && (forall k :: 0 <= k < |list| ==> list[k].id in m && m[list[k].id] == list[k])
      && head == At(list, 0)
      && (forall k :: 0 <= k < |list| ==> Hooked(list, k))
      && (forall j, k :: 0 <= j < k < |list| ==> list[j] != list[k])
      && (forall id :: id in m && m[id] !in list ==> m[id].next == null && m[id].prev == null)
    }

    ghost predicate LinksOk()
      reads `fileList, `files, `byId, files`next, files`prev, byId.Values`next, byId.Values`prev
    {
      LinksIn(byId, files, fileList)
    }

    /** Deleted files are marked, listed files are not. */
    static ghost predicate MarksIn(m: map<nat, File>, list: seq<File>)
      reads m.Values`markedForDeletion
    {
      forall id :: id in m ==> (m[id].markedForDeletion <==> m[id] !in list)
    }

    static ghost predicate DataIn(m: map<nat, File>, data: map<nat, seq<byte>>)
      reads m.Values`content
    {
      data.Keys == m.Keys && forall id :: id in m ==> data[id] == m[id].content
    }

    static ghost predicate RefsIn(m: map<nat, File>, fds: seq<Option<Fd>>)
      reads m.Values`refs
    {
      forall id :: id in m ==> m[id].refs == Refs(fds, id)
    }

    static ghost predicate NamesIn(m: map<nat, File>, list: seq<File>, names: map<string, nat>)
    {
      && (forall f :: f in list ==> f.name in names && names[f.name] == f.id)
      && (forall n :: n in names ==> names[n] in m && m[names[n]] in list && m[names[n]].name == n)
    }

    static ghost predicate FdsIn(ds: seq<FileDesc?>, fds: seq<Option<Fd>>)
      reads ds`currentBlock, ds`blockOffset
    {
      && |fds| == |ds|
      && (forall i :: 0 <= i < |ds| ==>
            if ds[i] == null then fds[i] == None
            else ds[i].Pos() >= 0 && fds[i] == Some(Fd(ds[i].file.id, ds[i].Pos(), ds[i].flags)))
    }

    /** The files themselves, their list and their names. */
    static ghost predicate Store(m: map<nat, File>, list: seq<File>, head: File?, names: map<string, nat>,
                                 data: map<nat, seq<byte>>, blocks: set<Block>, mems: set<array<byte>>)
      reads m.Values`blocks, m.Values`mems, m.Values`content, m.Values`blockList, m.Values`lastBlock, m.Values`roomy
      reads m.Values`next, m.Values`prev, m.Values`markedForDeletion, list`next, list`prev
      reads blocks`occupied, blocks`next, blocks`prev, mems
    {
      FilesIn(m, blocks, mems) && LinksIn(m, list, head) && MarksIn(m, list) && DataIn(m, data) &&
      NamesIn(m, list, names)
    }

    /** Files, list, counters and the table entries `ds` are in order and stand for the callers' view `fs`. */
    static ghost predicate World(m: map<nat, File>, list: seq<File>, head: File?, ds: seq<FileDesc?>, fs: Fs,
                                 blocks: set<Block>, mems: set<array<byte>>)
      reads m.Values`blocks, m.Values`mems, m.Values`content, m.Values`blockList, m.Values`lastBlock, m.Values`roomy
      reads m.Values`next, m.Values`prev, m.Values`refs, m.Values`markedForDeletion, list`next, list`prev
      reads ds`index, ds`currentBlock, ds`blockOffset, blocks`occupied, blocks`next, blocks`prev, mems
    {
      && Store(m, list, head, fs.names, fs.data, blocks, mems)
      && RefsIn(m, fs.fds) && DescsIn(m, ds) && FdsIn(ds, fs.fds)
      && WellFormed(fs)
    }

    /** The invariant between calls. */
    ghost predicate Valid()
      reads this, descriptors, byId.Values, files, allBlocks, allMems, descs
    {
      TableOk() && abs.errno == errorCode && World(byId, files, fileList, descs, abs, allBlocks, allMems)
    }

    /** Every file has room in its last block. Only a resize that grows a file can end this. */
    ghost predicate Roomy()
      reads `byId, byId.Values`roomy
    {
      forall f: File :: f in byId.Values ==> f.roomy
    }

    /** What an open descriptor can rely on. */
    lemma Opened(fd: int)
      requires Valid() && 0 <= fd < |descs| && descs[fd] != null
      ensures var d := descs[fd];
              && d.On() && 0 <= d.Pos() <= |d.file.content| && d.file.Valid() && Known(d.file) && d.index == fd
              && Lookup(abs, fd) == Some(Fd(d.file.id, d.Pos(), d.flags))
              && d.file.id in abs.data && abs.data[d.file.id] == d.file.content
              && |abs.fds| == |descs|
    {
      hide TableOk, LinksIn, MarksIn, RefsIn, NamesIn, WellFormed, File.Valid, FileDesc.On, FileDesc.Pos;
      descs[fd].OnRange();
    }

    lemma Absent(fd: int)
      requires Valid() && !(0 <= fd < |descs| && descs[fd] != null)
      ensures Lookup(abs, fd).None?
    {
    }

    lemma RefsCarry(fds: seq<Option<Fd>>, fds': seq<Option<Fd>>)
      requires RefsIn(byId, fds) && |fds| == |fds'|
      requires forall i :: 0 <= i < |fds| ==>
                 fds[i].Some? == fds'[i].Some? && (fds[i].Some? ==> fds[i].value.file == fds'[i].value.file)
      ensures RefsIn(byId, fds')
    {
      forall id | id in byId ensures Refs(fds, id) == Refs(fds', id) {
        RefsSameFiles(fds, fds', id);
      }
    }

    /** One descriptor moved and files may have grown: all descriptors still stand where the table says. */
    twostate lemma DescsFollow(fd: int)
      requires old(DescsIn(byId, descs) && FdsIn(descs, abs.fds))
      requires descs == old(descs) && byId == old(byId) && 0 <= fd < |descs| && descs[fd] != null
      requires forall i :: 0 <= i < |descs| && descs[i] != null ==>
                 && descs[i].index == old(descs[i].index)
                 && (descs[i] != descs[fd] ==> descs[i].currentBlock == old(descs[i].currentBlock))
                 && (descs[i] != descs[fd] ==> descs[i].blockOffset == old(descs[i].blockOffset))
      requires forall id :: id in byId ==>
                 old(byId[id].blocks) <= byId[id].blocks && old(|byId[id].content|) <= |byId[id].content|
      requires descs[fd].On()
      ensures DescsIn(byId, descs)
      ensures FdsIn(descs, old(abs.fds)[fd := Some(Fd(descs[fd].file.id, descs[fd].Pos(), descs[fd].flags))])
    {
      forall i | 0 <= i < |descs| && descs[i] != null
        ensures descs[i].index == i && Known(descs[i].file) && descs[i].On()
      {
        assert descs[i].file == byId[descs[i].file.id];
      }
    }

    constructor ()
      ensures Valid() && Roomy() && abs == EMPTY
      ensures descriptors == null && descs == [] && byId == map[] && allBlocks == {} && allMems == {}
    {
      errorCode := NoErr;
      fileList := null;
      descriptors := null;
      count, capacity := 0, 0;
      files, byId, descs, allBlocks, allMems := [], map[], [], {}, {};
      abs := EMPTY;
    }

    function TryGetFileDescriptor(fd: int): (d: FileDesc?)
      requires TableOk()
      reads `descriptors, `count, `capacity, `descs, descriptors
      ensures d == if 0 <= fd < |descs| then descs[fd] else null
    {
      if fd < 0 || fd >= count then null else descriptors[fd]
    }

    method ThrowError(e: ErrorCode) returns (code: int)
      requires Valid()
      modifies `abs, `errorCode
      ensures Valid() && code == -1
      ensures abs == old(abs).(errno := e)
    {
      hide TableOk, World;
      ErrnoIsApart(e);
      errorCode := e;
      abs := abs.(errno := e);
      return -1;
    }

    lemma ErrnoIsApart(e: ErrorCode)
      requires Valid()
      ensures World(byId, files, fileList, descs, abs.(errno := e), allBlocks, allMems)
    {
      hide TableOk, FilesIn, LinksIn, MarksIn, DescsIn, DataIn, RefsIn, NamesIn, FdsIn;
    }

    method Read(fd: int, size: nat) returns (code: int, bytes: seq<byte>)
      requires Valid()
      modifies `abs, `errorCode, `allBlocks, `allMems, descs, allBlocks, allMems
      modifies byId.Values`blocks, byId.Values`mems, byId.Values`lastBlock, byId.Values`content
      ensures Valid() && Grown()
      ensures (abs, Reply(code, bytes)) == ReadStep(old(abs), fd, size)
      ensures WellFormed(old(abs)) && ReadPromise(old(abs), fd, size, abs, Reply(code, bytes))
    {
      hide TableOk, World, ReadPromise, WellFormed, Drop, FileDesc.On, FileDesc.Pos, File.Valid;
      FsOk();
      ReadKept(abs, fd, size);
      var d := TryGetFileDescriptor(fd);
      if d == null {
        Absent(fd);
        code := ThrowError(NoFile);
        return code, [];
      }
      Opened(fd);
      if HasFlag(d.flags, UFS_WRITE_ONLY) {
        code := ThrowError(NoPermission);
        return code, [];
      }
      InFootprint(fd);
      code, bytes := ReadOpened(fd, d, size);
    }

    method ReadOpened(ghost fd: int, d: FileDesc, size: nat) returns (code: int, bytes: seq<byte>)
      requires Valid() && 0 <= fd < |descs| && descs[fd] == d && !HasFlag(d.flags, UFS_WRITE_ONLY)
      modifies `abs, `allBlocks, `allMems, d`currentBlock, d`blockOffset
      modifies d.file`blocks, d.file`mems, d.file`lastBlock, d.file.blocks`next
      ensures Valid()
      ensures forall o: object :: o in allBlocks ==> o in old(allBlocks) || fresh(o)
      ensures forall o: object :: o in allMems ==> o in old(allMems) || fresh(o)
      ensures (abs, Reply(code, bytes)) == ReadStep(old(abs), fd, size)
    {
      hide TableOk, World, ReadStep;
      code, bytes := LoadOpened(fd, d, size);
      abs := ReadStep(abs, fd, size).0;
    }

    method LoadOpened(ghost fd: int, d: FileDesc, size: nat) returns (code: int, bytes: seq<byte>)
      requires Valid() && 0 <= fd < |descs| && descs[fd] == d && !HasFlag(d.flags, UFS_WRITE_ONLY)
      modifies `allBlocks, `allMems, d`currentBlock, d`blockOffset
      modifies d.file`blocks, d.file`mems, d.file`lastBlock, d.file.blocks`next
      ensures WellFormed(abs) && ReadStep(abs, fd, size).1 == Reply(code, bytes)
      ensures ReadStep(abs, fd, size).0.errno == abs.errno
      ensures forall o: object :: o in allBlocks ==> o in old(allBlocks) || fresh(o)
      ensures forall o: object :: o in allMems ==> o in old(allMems) || fresh(o)
      ensures World(byId, files, fileList, descs, ReadStep(abs, fd, size).0, allBlocks, allMems)
    {
      hide TableOk, FilesIn, LinksIn, MarksIn, DescsIn, DataIn, RefsIn, NamesIn, FdsIn, WellFormed;
      hide File.Valid, FileDesc.On, FileDesc.Pos, Known, File.BlockSet, At, Hooked;
      Opened(fd);
      Apart(d.file);
      ReadKeeps(abs, fd, size);
      ghost var post := ReadStep(abs, fd, size);
      RefsCarry(abs.fds, post.0.fds);
      code, bytes := LoadThrough(d, size);
      DescsFollow(fd);
      assert post == (abs.(fds := abs.fds[fd := Some(Fd(d.file.id, d.Pos(), d.flags))]), Reply(code, bytes));
    }

    method LoadThrough(d: FileDesc, size: nat) returns (code: int, bytes: seq<byte>)
      requires FilesOk() && Known(d.file) && d.file.Valid() && d.On()
      modifies `allBlocks, `allMems, d`currentBlock, d`blockOffset
      modifies d.file`blocks, d.file`mems, d.file`lastBlock, d.file.blocks`next
      ensures FilesOk() && d.On() && d.Pos() == old(d.Pos()) + |bytes| && 0 <= old(d.Pos())
      ensures code == |bytes| == Min(size, |d.file.content| - old(d.Pos()))
      ensures bytes == d.file.content[old(d.Pos())..d.Pos()]
      ensures old(d.file.blocks) <= d.file.blocks
      ensures forall o: object :: o in allBlocks ==> o in old(allBlocks) || fresh(o)
      ensures forall o: object :: o in allMems ==> o in old(allMems) || fresh(o)
    {
      hide FilesIn, File.Valid, FileDesc.On, FileDesc.Pos, FileDesc.OnBlock, File.Spine;
      Apart(d.file);
      d.Chained();
      code, bytes := d.ReadViaDescriptor(size);
      forall id | id in byId && byId[id] != d.file
        ensures byId[id].Valid()
      {
        var g := byId[id];
        assert forall k :: 0 <= k < |g.blocks| ==> g.blocks[k] !in old(d.file.blocks);
        assert old(g.Valid());
      }
      allBlocks := allBlocks + d.file.BlockSet();
      allMems := allMems + d.file.mems;
      FilesFollow(d.file);
    }

    method Write(fd: int, buf: seq<byte>) returns (code: int)
      requires Valid()
      modifies `abs, `errorCode, `allBlocks, `allMems, descs, allBlocks, allMems
      modifies byId.Values`blocks, byId.Values`mems, byId.Values`lastBlock, byId.Values`content
      ensures Valid() && Grown()
      ensures (abs, Reply(code, [])) == WriteStep(old(abs), fd, buf)
      ensures WellFormed(old(abs)) && WritePromise(old(abs), fd, buf, abs, Reply(code, []))
    {
      hide TableOk, World, WritePromise, WellFormed, Drop, FileDesc.On, FileDesc.Pos, File.Valid;
      FsOk();
      WriteKept(abs, fd, buf);
      var d := TryGetFileDescriptor(fd);
      if d == null {
        Absent(fd);
        code := ThrowError(NoFile);
        return;
      }
      Opened(fd);
      if HasFlag(d.flags, UFS_READ_ONLY) {
        code := ThrowError(NoPermission);
        return;
      }
      code := WriteViaDescriptor(fd, d, buf);
    }

    /** One file took new bytes and perhaps new blocks; the others kept theirs. */
    twostate lemma FilesFollow(f: File)
      requires old(FilesOk() && Known(f)) && byId == old(byId) && f.Valid()
      requires forall id :: id in byId && byId[id] != f ==> byId[id].Valid()
      requires forall id :: id in byId && byId[id] != f ==> byId[id].mems == old(byId[id].mems)
      requires forall id :: id in byId && byId[id] != f ==> byId[id].blocks == old(byId[id].blocks)
      requires forall o: object :: o in f.mems ==> o in old(f.mems) || fresh(o)
      requires allBlocks == old(allBlocks) + f.BlockSet() && allMems == old(allMems) + f.mems
      ensures FilesOk()
    {
    }

    method StoreThrough(d: FileDesc, buf: seq<byte>)
      requires FilesOk() && Known(d.file) && d.file.Valid() && d.On()
      modifies `allBlocks, `allMems, d`currentBlock, d`blockOffset
      modifies d.file`blocks, d.file`mems, d.file`lastBlock, d.file`content, d.file.blocks, d.file.mems
      ensures FilesOk() && d.On() && d.Pos() == old(d.Pos()) + |buf|
      ensures 0 <= old(d.Pos()) <= |old(d.file.content)|
      ensures d.file.content == Overwrite(old(d.file.content), old(d.Pos()), buf)
      ensures old(d.file.blocks) <= d.file.blocks && old(|d.file.content|) <= |d.file.content|
      ensures forall o: object :: o in allBlocks ==> o in old(allBlocks) || fresh(o)
      ensures forall o: object :: o in allMems ==> o in old(allMems) || fresh(o)
    {
      hide FilesIn, File.Valid, FileDesc.On, FileDesc.Pos;
      Apart(d.file);
      d.WriteBytes(buf);
      forall id | id in byId && byId[id] != d.file
        ensures byId[id].Valid()
      {
        var g := byId[id];
        assert forall k :: 0 <= k < |g.blocks| ==> g.blocks[k] !in old(d.file.blocks);
        assert g.mems !! old(d.file.mems) && old(g.Valid());
      }
      allBlocks := allBlocks + d.file.BlockSet();
      allMems := allMems + d.file.mems;
      FilesFollow(d.file);
    }

    /** Files share neither blocks nor buffers. */
    lemma Apart(f: File)
      requires FilesOk() && Known(f)
      ensures f.Valid()
      ensures forall id :: id in byId ==> byId[id].id == id
      ensures forall b :: b in f.blocks ==> b in allBlocks
      ensures f.mems <= allMems
      ensures forall id, k :: id in byId && byId[id] != f && 0 <= k < |byId[id].blocks| ==>
                byId[id].blocks[k] !in f.blocks
      ensures forall id :: id in byId && byId[id] != f ==> byId[id].mems !! f.mems && byId[id].Valid()
    {
      hide File.Valid;
    }

    /** The bytes go in; what the callers see is updated by WriteViaDescriptor. */
    method StoreOpened(ghost fd: int, d: FileDesc, buf: seq<byte>)
      requires Valid() && 0 <= fd < |descs| && descs[fd] == d
      requires !HasFlag(d.flags, UFS_READ_ONLY) && d.Pos() + |buf| <= MAX_FILE_SIZE
      modifies `allBlocks, `allMems, d`currentBlock, d`blockOffset
      modifies d.file`blocks, d.file`mems, d.file`lastBlock, d.file`content, d.file.blocks, d.file.mems
      ensures Lookup(abs, fd).Some? && WellFormed(abs)
      ensures forall o: object :: o in allBlocks ==> o in old(allBlocks) || fresh(o)
      ensures forall o: object :: o in allMems ==> o in old(allMems) || fresh(o)
      ensures World(byId, files, fileList, descs, Written(abs, fd, buf), allBlocks, allMems)
      ensures WriteStep(abs, fd, buf) == (Written(abs, fd, buf), Reply(|buf|, []))
      ensures Written(abs, fd, buf).errno == abs.errno
    {
      hide TableOk, FilesIn, LinksIn, MarksIn, DescsIn, DataIn, RefsIn, NamesIn, FdsIn, WellFormed;
      hide File.Valid, FileDesc.On, FileDesc.Pos, Written, WriteStep, Known, File.BlockSet, Overwrite, At, Hooked;
      Opened(fd);
      Apart(d.file);
      InFootprint(fd);
      WriteRefs(fd, buf);
      ghost var f := d.file;
      StoreThrough(d, buf);
      DescsFollow(fd);
      DataFollow(f);
    }

    method WriteViaDescriptor(ghost fd: int, d: FileDesc, buf: seq<byte>) returns (code: int)
      requires Valid() && 0 <= fd < |descs| && descs[fd] == d && !HasFlag(d.flags, UFS_READ_ONLY)
      modifies `abs, `errorCode, `allBlocks, `allMems, d`currentBlock, d`blockOffset, allBlocks, allMems
      modifies byId.Values`blocks, byId.Values`mems, byId.Values`lastBlock, byId.Values`content
      ensures Valid() && Grown()
      ensures (abs, Reply(code, [])) == WriteStep(old(abs), fd, buf)
    {
      hide TableOk, World, Written, FileDesc.On, File.Valid;
      Opened(fd);
      InFootprint(fd);
      var currentSize := d.currentBlock.index * BLOCK_SIZE + d.blockOffset;
      if currentSize + |buf| > MAX_FILE_SIZE {
        code := ThrowError(NoMem);
        return;
      }
      StoreOpened(fd, d, buf);
      abs := Written(abs, fd, buf);
      code := |buf|;
    }

    lemma InFootprint(fd: int)
      requires Valid() && 0 <= fd < |descs| && descs[fd] != null
      ensures var f := descs[fd].file;
              f in byId.Values && f.mems <= allMems && forall k :: 0 <= k < |f.blocks| ==> f.blocks[k] in allBlocks
    {
      hide TableOk, FilesIn, LinksIn, MarksIn, DescsIn, DataIn, RefsIn, NamesIn, FdsIn, WellFormed, File.Valid;
      Opened(fd);
      Apart(descs[fd].file);
    }

    twostate lemma DataFollow(f: File)
      requires old(DataIn(byId, abs.data) && Known(f)) && byId == old(byId)
      requires forall id :: id in byId ==> byId[id].id == id
      requires forall id :: id in byId && byId[id] != f ==> byId[id].content == old(byId[id].content)
      ensures DataIn(byId, old(abs.data)[f.id := f.content])
    {
    }

    lemma WriteRefs(fd: int, buf: seq<byte>)
      requires Valid() && Lookup(abs, fd).Some?
      requires var d := abs.fds[fd].value; d.pos + |buf| <= MAX_FILE_SIZE && !HasFlag(d.flags, UFS_READ_ONLY)
      ensures var post, d := Written(abs, fd, buf), abs.fds[fd].value;
              && RefsIn(byId, post.fds) && WellFormed(post)
              && post.fds == abs.fds[fd := Some(Fd(d.file, d.pos + |buf|, d.flags))]
              && post.data == abs.data[d.file := Overwrite(abs.data[d.file], d.pos, buf)]
              && post.names == abs.names && post.errno == abs.errno
              && WriteStep(abs, fd, buf) == (post, Reply(|buf|, []))
    {
      hide TableOk, FilesIn, LinksIn, MarksIn, DescsIn, DataIn, RefsIn, NamesIn, FdsIn;
      WriteKeeps(abs, fd, buf);
      RefsCarry(abs.fds, Written(abs, fd, buf).fds);
    }

    // ----- closing and deleting

    /** The k-th file of the list was bypassed by its neighbours. */
    twostate lemma Unlinked(k: int)
      requires old(LinksOk()) && byId == old(byId) && 0 <= k < |old(files)|
      requires files == old(files)[..k] + old(files)[k + 1..]
      requires fileList == if k == 0 then At(old(files), 1) else old(fileList)
      requires forall j :: 0 <= j < |old(files)| ==>
                 && old(files)[j].next ==
                    (if j == k then null else if j == k - 1 then old(files[k].next) else old(files[j].next))
                 && old(files)[j].prev ==
                    (if j == k then null else if j == k + 1 then old(files[k].prev) else old(files[j].prev))
      requires forall id :: id in byId && byId[id] !in old(files) ==>
                 byId[id].next == old(byId[id].next) && byId[id].prev == old(byId[id].prev)
      ensures LinksOk() && old(files)[k] !in files
      ensures forall g: File :: g != old(files)[k] ==> (g in files <==> g in old(files))
    {
      hide At;
      var was := old(files);
      Without(was, k, files);
      assert At(files, 0) == if k == 0 then At(was, 1) else At(was, 0) by {
        Head(was, k, files);
      }
      forall j | 0 <= j < |files|
        ensures Known(files[j]) && Hooked(files, j)
      {
        var i := if j < k then j else j + 1;
        Neighbours(was, k, files, j);
        assert files[j] == was[i] && old(Hooked(files, i)) && old(Hooked(files, k));
      }
      forall id | id in byId && byId[id] !in files
        ensures byId[id].next == null && byId[id].prev == null
      {
        assert byId[id] != was[k] ==> byId[id] !in was;
        assert was[k].next == null && was[k].prev == null;
      }
    }

    /** Cutting out position k changes the neighbours of the two positions beside it only. */
    static lemma Neighbours(was: seq<File>, k: int, now: seq<File>, j: int)
      requires 0 <= k < |was| && now == was[..k] + was[k + 1..] && 0 <= j < |now|
      ensures var i := if j < k then j else j + 1;
              && At(now, j + 1) == At(was, if j == k - 1 then k + 1 else i + 1)
              && At(now, j - 1) == At(was, if j == k then k - 1 else i - 1)
    {
    }

    static lemma Head(was: seq<File>, k: int, now: seq<File>)
      requires 0 <= k < |was| && now == was[..k] + was[k + 1..]
      ensures At(now, 0) == if k == 0 then At(was, 1) else At(was, 0)
    {
    }

    static lemma Without(was: seq<File>, k: int, now: seq<File>)
      requires 0 <= k < |was| && now == was[..k] + was[k + 1..]
      requires forall i, j :: 0 <= i < j < |was| ==> was[i] != was[j]
      ensures forall j :: 0 <= j < |now| ==> now[j] == was[if j < k then j else j + 1]
      ensures forall i, j :: 0 <= i < j < |now| ==> now[i] != now[j]
      ensures was[k] !in now
      ensures forall g: File :: g != was[k] ==> (g in now <==> g in was)
    {
      forall g: File | g != was[k] ensures g in now <==> g in was {
        if g in was {
          var j :| 0 <= j < |was| && was[j] == g;
          assert g == now[if j < k then j else j - 1];
        }
      }
    }

    method DisconnectFileFromFileList(file: File)
      requires LinksOk() && Known(file)
      modifies `fileList, `files, byId.Values`next, byId.Values`prev
      ensures LinksOk() && file !in files
      ensures forall g: File :: g != file ==> (g in files <==> g in old(files))
      ensures |files| == |old(files)| - if file in old(files) then 1 else 0
    {
      ghost var k: int := if file in files then var k :| 0 <= k < |files| && files[k] == file; k else -1;
      assert forall j :: 0 <= j < |files| ==> byId[files[j].id] in byId.Values;
      assert byId[file.id] == file;
      assert k >= 0 ==> Hooked(files, k);
      assert k > 0 ==> files[k - 1] in byId.Values && fileList != file;
      assert 0 <= k < |files| - 1 ==> files[k + 1] in byId.Values;
      if file == fileList {
        fileList := file.next;
      }
      if file.prev != null {
        file.prev.next := file.next;
      }
      if file.next != null {
        file.next.prev := file.prev;
      }
      file.prev := null;
      file.next := null;
      if k >= 0 {
        files := files[..k] + files[k + 1..];
        Unlinked(k);
      }
    }

    /** Frees a file nobody can reach: every block once, first to last. */
    method DeleteFile(file: File) returns (ghost freed: seq<Block>)
      requires FilesOk() && LinksOk() && Known(file)
      modifies `fileList, `files, `byId, byId.Values`next, byId.Values`prev
      ensures FilesOk() && LinksOk() && file !in files && byId == old(byId) - {file.id}
      ensures forall g: File :: g != file ==> (g in files <==> g in old(files))
      ensures |files| == |old(files)| - if file in old(files) then 1 else 0
      ensures freed == file.blocks
    {
      hide FilesIn, LinksIn;
      DisconnectFileFromFileList(file);
      Apart(file);
      freed := file.FreeBlocks();
      Forgettable(file);
      byId := byId - {file.id};
    }

    /** Without one unlisted file everything else is still in order. */
    lemma Forgettable(file: File)
      requires FilesOk() && LinksOk() && Known(file) && file !in files
      ensures FilesIn(byId - {file.id}, allBlocks, allMems)
      ensures LinksIn(byId - {file.id}, files, fileList)
    {
      hide File.Valid, At, Hooked;
    }

    /** One descriptor less on the file; the last one takes a deleted file with it. */
    method ReleaseFile(file: File, ghost fds: seq<Option<Fd>>)
      requires FilesOk() && LinksOk() && MarksIn(byId, files) && Known(file)
      requires forall id :: id in byId ==> byId[id].refs == Refs(fds, id) + if id == file.id then 1 else 0
      modifies `fileList, `files, `byId, byId.Values`refs, byId.Values`next, byId.Values`prev
      ensures FilesOk() && LinksOk() && MarksIn(byId, files) && RefsIn(byId, fds)
      ensures byId == if file !in old(files) && Refs(fds, file.id) == 0 then old(byId) - {file.id} else old(byId)
      ensures forall g: File :: g in files <==> g in old(files)
    {
      hide FilesIn, LinksIn, At, Hooked, File.Valid;
      assert file in byId.Values;
      Apart(file);
      file.refs := file.refs - 1;
      if file.markedForDeletion && file.refs == 0 {
        ghost var freed := DeleteFile(file);
      }
    }

    /** Emptying one slot keeps the others in order, if no other descriptor needs what went away. */
    static lemma SlotEmptied(m: map<nat, File>, m': map<nat, File>, ds: seq<FileDesc?>, fds: seq<Option<Fd>>, fd: int)
      requires DescsIn(m, ds) && FdsIn(ds, fds) && 0 <= fd < |ds|
      requires m' == m || (exists id: nat :: m' == m - {id} && Refs(fds[fd := None], id) == 0)
      ensures DescsIn(m', ds[fd := null]) && FdsIn(ds[fd := null], fds[fd := None])
    {
      hide FileDesc.On, FileDesc.Pos;
      if m' != m {
        var id: nat :| m' == m - {id} && Refs(fds[fd := None], id) == 0;
        RefsPositive(fds[fd := None], id);
        assert forall i :: 0 <= i < |ds| && i != fd && ds[i] != null ==> fds[fd := None][i] == fds[i];
      }
    }

    static lemma NamedMeansListed(m: map<nat, File>, list: seq<File>, names: map<string, nat>, f: File)
      requires NamesIn(m, list, names) && f.id in m && m[f.id] == f
      ensures (exists n :: n in names && names[n] == f.id) <==> f in list
    {
      if f in list {
        assert names[f.name] == f.id;
      }
    }

    /** Losing an unlisted file does not touch the names. */
    static lemma NamesKept(m: map<nat, File>, m': map<nat, File>, list: seq<File>, list': seq<File>,
                           names: map<string, nat>)
      requires NamesIn(m, list, names)
      requires m' == m || (exists id :: id in m && m[id] !in list && m' == m - {id})
      requires forall g: File :: g in list' <==> g in list
      ensures NamesIn(m', list', names)
    {
    }

    /** A file without descriptors can go without disturbing the table. */
    static lemma Unreferenced(m: map<nat, File>, ds: seq<FileDesc?>, fds: seq<Option<Fd>>, id: nat)
      requires DescsIn(m, ds) && FdsIn(ds, fds) && RefsIn(m, fds)
      ensures id in m ==> m[id].refs == Refs(fds, id)
      ensures Refs(fds, id) == 0 ==> DescsIn(m - {id}, ds) && RefsIn(m - {id}, fds)
    {
      RefsPositive(fds, id);
    }

    lemma Listed()
      requires LinksOk()
      ensures forall f: File :: f in files ==> Known(f)
    {
    }

    static lemma NamesDiffer(fs: Fs)
      requires WellFormed(fs)
      ensures forall a, b :: a in fs.names && b in fs.names && fs.names[a] == fs.names[b] ==> a == b
    {
    }

    static lemma NameRemoved(m: map<nat, File>, m': map<nat, File>, list: seq<File>, list': seq<File>,
                             names: map<string, nat>, name: string)
      requires NamesIn(m, list, names) && name in names && m[names[name]].id == names[name]
      requires forall f: File :: f in list ==> f.id in m && m[f.id] == f
      requires m' == m || m' == m - {names[name]}
      requires m[names[name]] !in list' && forall g: File :: g != m[names[name]] ==> (g in list' <==> g in list)
      requires forall a, b :: a in names && b in names && names[a] == names[b] ==> a == b
      ensures NamesIn(m', list', names - {name})
    {
    }

    method Close(fd: int) returns (code: int)
      requires Valid()
      modifies this, descriptors, byId.Values`refs, byId.Values`next, byId.Values`prev
      ensures Valid() && Grown() && forall f: File :: f in byId.Values ==> f in old(byId.Values)
      ensures (abs, Reply(code, [])) == CloseStep(old(abs), fd)
      ensures WellFormed(old(abs)) && ClosePromise(old(abs), fd, abs, Reply(code, []))
    {
      hide TableOk, World, ClosePromise, WellFormed, Drop, FileDesc.On, FileDesc.Pos, File.Valid;
      FsOk();
      CloseKept(abs, fd);
      var d := TryGetFileDescriptor(fd);
      if d == null {
        Absent(fd);
        code := ThrowError(NoFile);
        return;
      }
      Opened(fd);
      CloseFileDescriptor(d);
      return 0;
    }

    method ClearSlot(i: int)
      requires TableOk() && 0 <= i < |descs|
      modifies descriptors, `descs
      ensures TableOk() && descs == old(descs)[i := null]
    {
      descriptors[i] := null;
      descs := descs[i := null];
    }

    /** Everything a close does before it empties the slot. */
    method ReleaseDescriptor(file: File, ghost fd: int)
      requires Valid() && 0 <= fd < |descs| && descs[fd] != null && descs[fd].file == file
      modifies `fileList, `files, `byId, byId.Values`refs, byId.Values`next, byId.Values`prev
      ensures World(byId, files, fileList, descs[fd := null], CloseStep(abs, fd).0, allBlocks, allMems)
      ensures CloseStep(abs, fd).0.errno == abs.errno && CloseStep(abs, fd).1 == Reply(0, [])
      ensures forall f: File :: f in byId.Values ==> f in old(byId.Values)
    {
      hide TableOk, FilesIn, LinksIn, MarksIn, DescsIn, NamesIn, FdsIn, DataIn, RefsIn, WellFormed;
      hide File.Valid, FileDesc.On, FileDesc.Pos;
      Opened(fd);
      CloseKeeps(abs, fd);
      ghost var m, list, fds := byId, files, abs.fds[fd := None];
      RefsWithout(fd);
      NamedMeansListed(m, list, abs.names, file);
      ReleaseFile(file, fds);
      SlotEmptied(m, byId, descs, abs.fds, fd);
      NamesKept(m, byId, list, files, abs.names);
      DataDropped(m, abs.data, file.id);
    }

    lemma RefsWithout(fd: int)
      requires Valid() && 0 <= fd < |descs| && descs[fd] != null
      ensures |abs.fds| == |descs|
      ensures forall id :: id in byId ==>
                byId[id].refs == Refs(abs.fds[fd := None], id) + if id == descs[fd].file.id then 1 else 0
    {
      hide TableOk, FilesIn, LinksIn, MarksIn, DescsIn, NamesIn, FdsIn, DataIn, WellFormed;
      Opened(fd);
      forall id | id in byId
        ensures byId[id].refs == Refs(abs.fds[fd := None], id) + if id == descs[fd].file.id then 1 else 0
      {
        RefsUpdate(abs.fds, fd, None, id);
      }
    }

    static lemma DataDropped(m: map<nat, File>, data: map<nat, seq<byte>>, id: nat)
      requires DataIn(m, data)
      ensures DataIn(m - {id}, data - {id})
    {
    }

    method CloseFileDescriptor(d: FileDesc)
      requires Valid() && 0 <= d.index < |descs| && descs[d.index] == d
      modifies this, descriptors, byId.Values`refs, byId.Values`next, byId.Values`prev
      ensures Valid()
      ensures (abs, Reply(0, [])) == CloseStep(old(abs), d.index)
      ensures allBlocks == old(allBlocks) && allMems == old(allMems)
      ensures descriptors == old(descriptors) && count == old(count) && descs == old(descs)[d.index := null]
      ensures forall f: File :: f in byId.Values ==> f in old(byId.Values)
    {
      hide Valid, TableOk, World, CloseStep;
      hide File.Valid, FileDesc.On, FileDesc.Pos;
      InValid();
      Opened(d.index);
      ReleaseDescriptor(d.file, d.index);
      ClearSlot(d.index);
      BecomesValid(CloseStep(abs, d.index).0);
    }

    /** The lists and the table are those of the view `s`, which is what the callers see from now on. */
    ghost method BecomesValid(s: Fs)
      requires TableOk() && s.errno == errorCode && World(byId, files, fileList, descs, s, allBlocks, allMems)
      modifies `abs
      ensures Valid() && abs == s
    {
      hide TableOk, World;
      abs := s;
    }

    method TryGetFileByFilename(name: string) returns (file: File?)
      requires Valid()
      ensures if name in abs.names then file != null && file in files && Known(file) && file.id == abs.names[name]
              else file == null
    {
      hide TableOk, FilesIn, MarksIn, DescsIn, DataIn, RefsIn, FdsIn, WellFormed;
      file := fileList;
      ghost var k := 0;
      while file != null
        invariant 0 <= k <= |files| && file == At(files, k)
        invariant forall j :: 0 <= j < k ==> files[j].name != name
        decreases |files| - k
      {
        if file.name == name {
          return;
        }
        assert Hooked(files, k);
        file := file.next;
        k := k + 1;
      }
    }

    method Delete(name: string) returns (code: int)
      requires Valid()
      modifies this, byId.Values`next, byId.Values`prev, byId.Values`markedForDeletion
      ensures Valid() && Grown() && forall f: File :: f in byId.Values ==> f in old(byId.Values)
      ensures (abs, Reply(code, [])) == DeleteStep(old(abs), name)
      ensures WellFormed(old(abs)) && DeletePromise(old(abs), name, abs, Reply(code, []))
    {
      hide TableOk, World, DeletePromise, WellFormed, DeleteStep, FileDesc.On, FileDesc.Pos, File.Valid;
      FsOk();
      DeleteKept(abs, name);
      NoSuchName(name);
      var file := TryGetFileByFilename(name);
      if file == null {
        code := ThrowError(NoFile);
        return;
      }
      InValid();
      RemoveFile(file, name);
      BecomesValid(DeleteStep(abs, name).0);
      return 0;
    }

    lemma NoSuchName(name: string)
      requires Valid()
      ensures name !in abs.names ==> DeleteStep(abs, name) == Fail(abs, NoFile)
      ensures name in abs.names ==>
                DeleteStep(abs, name).0.errno == abs.errno && DeleteStep(abs, name).1 == Reply(0, [])
    {
    }

    /** Off the list; gone as well if no descriptor is left, otherwise marked. */
    method UnlinkFile(file: File)
      requires FilesOk() && LinksOk() && MarksIn(byId, files) && Known(file)
      modifies `fileList, `files, `byId, byId.Values`next, byId.Values`prev, byId.Values`markedForDeletion
      ensures FilesOk() && LinksOk() && MarksIn(byId, files)
      ensures byId == if file.refs == 0 then old(byId) - {file.id} else old(byId)
      ensures file !in files && forall g: File :: g != file ==> (g in files <==> g in old(files))
    {
      hide FilesIn, LinksIn, At, Hooked, File.Valid;
      assert file in byId.Values;
      Apart(file);
      DisconnectFileFromFileList(file);
      if file.refs == 0 {
        ghost var freed := DeleteFile(file);
      } else {
        file.markedForDeletion := true;
      }
    }

    method RemoveFile(file: File, ghost name: string)
      requires Valid() && Known(file) && file in files && name in abs.names && abs.names[name] == file.id
      modifies `fileList, `files, `byId, byId.Values`next, byId.Values`prev, byId.Values`markedForDeletion
      ensures World(byId, files, fileList, descs, DeleteStep(abs, name).0, allBlocks, allMems)
      ensures forall f: File :: f in byId.Values ==> f in old(byId.Values)
    {
      hide TableOk, FilesIn, LinksIn, MarksIn, DescsIn, NamesIn, FdsIn, DataIn, RefsIn, WellFormed;
      hide File.Valid, FileDesc.On, FileDesc.Pos;
      DeleteKeeps(abs, name);
      ghost var m, list := byId, files;
      Unreferenced(m, descs, abs.fds, file.id);
      NamesDiffer(abs);
      Listed();
      UnlinkFile(file);
      NameRemoved(m, byId, list, files, abs.names, name);
      DataDropped(m, abs.data, file.id);
      assert !Named(abs.(names := abs.names - {name}), file.id);
    }

    // ----- opening

    method PushFile(file: File)
      requires LinksOk() && file.id !in byId && file.next == fileList && file.prev == null && file !in byId.Values
      modifies `fileList, `files, byId.Values`prev
      ensures LinksIn(byId[file.id := file], files, fileList) && files == [file] + old(files)
    {
      if fileList != null {
        assert fileList == files[0] == byId[files[0].id] && fileList in byId.Values;
        fileList.prev := file;
      }
      fileList := file;
      files := [file] + files;
      forall k | 0 <= k < |files| ensures Hooked(files, k) {
        assert k > 0 ==> old(Hooked(files, k - 1));
      }
    }

    static lemma FileAdded(m: map<nat, File>, f: File, blocks: set<Block>, mems: set<array<byte>>)
      requires FilesIn(m, blocks, mems) && f.Valid() && f.id !in m && f.mems !! mems
      ensures FilesIn(m[f.id := f], blocks + f.BlockSet(), mems + f.mems)
    {
      hide File.Counted, File.Stores;
    }

    /** A new file under a new name: nothing refers to it yet and the others do not notice. */
    static lemma FileNamed(m: map<nat, File>, f: File, list: seq<File>, ds: seq<FileDesc?>, fs: Fs)
      requires f.id == fs.nextId && f.id !in m && f.name !in fs.names && f.refs == 0 && f.content == []
      requires DescsIn(m, ds) && FdsIn(ds, fs.fds) && NamesIn(m, list, fs.names)
      requires DataIn(m, fs.data) && RefsIn(m, fs.fds)
      ensures var m', fs' := m[f.id := f], Created(fs, f.name);
              DescsIn(m', ds) && FdsIn(ds, fs'.fds) && NamesIn(m', [f] + list, fs'.names) &&
              DataIn(m', fs'.data) && RefsIn(m', fs'.fds)
    {
      hide FileDesc.On, FileDesc.Pos;
      RefsPositive(fs.fds, f.id);
    }

    static lemma FileUnmarked(m: map<nat, File>, f: File, list: seq<File>)
      requires f.id !in m && !f.markedForDeletion && forall id :: id in m ==> m[id].id == id
      requires MarksIn(m, list)
      ensures MarksIn(m[f.id := f], [f] + list)
    {
    }

    /** Allocates a file under a new id and puts it at the head of the list. */
    method NewFile(name: string, ghost id: nat) returns (file: File)
      requires LinksOk() && id !in byId
      modifies `fileList, `files, byId.Values`prev
      ensures fresh(file) && fresh(file.blocks) && fresh(file.mems) && file.id == id && file.name == name
      ensures file.Valid() && file.content == [] && file.refs == 0 && !file.markedForDeletion
      ensures LinksIn(byId[file.id := file], files, fileList) && files == [file] + old(files)
      ensures file.roomy
    {
      hide LinksIn, File.Valid;
      file := new File(name, fileList, id);
      PushFile(file);
    }

    /** The new file is in the list; the callers' view does not hold it yet. */
    method HangFile(name: string) returns (file: File)
      requires Valid() && name !in abs.names
      modifies `fileList, `files, byId.Values`prev
      ensures fresh(file) && fresh(file.blocks) && fresh(file.mems) && file.id == abs.nextId && file.name == name
      ensures Created(abs, name).errno == abs.errno && abs.nextId == file.id
      ensures name in Created(abs, name).names && Created(abs, name).names[name] == file.id
      ensures file.roomy
      ensures World(byId[file.id := file], files, fileList, descs, Created(abs, name),
                    allBlocks + file.BlockSet(), allMems + file.mems)
    {
      hide TableOk, FilesIn, LinksIn, MarksIn, DescsIn, NamesIn, FdsIn, RefsIn, DataIn, WellFormed;
      hide File.Valid, File.BlockSet, FileDesc.On, FileDesc.Pos, At, Hooked, Known, FilesOk;
      CreateKeeps(abs, name);
      Unused();
      ghost var list := files;
      file := NewFile(name, abs.nextId);
      FileNamed(byId, file, list, descs, abs);
      FileUnmarked(byId, file, list);
      FileAdded(byId, file, allBlocks, allMems);
    }

    method CreateFile(name: string) returns (file: File)
      requires Valid() && name !in abs.names
      modifies `fileList, `files, `byId, `allBlocks, `allMems, `abs, byId.Values`prev
      ensures Valid() && Known(file) && fresh(file) && file.roomy && byId == old(byId)[file.id := file]
      ensures fresh(allBlocks - old(allBlocks)) && fresh(allMems - old(allMems))
      ensures abs == Created(old(abs), name) && abs.names[name] == file.id
    {
      hide Valid, TableOk, World, File.BlockSet, Created;
      InValid();
      file := HangFile(name);
      byId, allBlocks, allMems := byId[file.id := file], allBlocks + file.BlockSet(), allMems + file.mems;
      BecomesValid(Created(abs, name));
    }

    lemma InValid()
      requires Valid()
      ensures TableOk() && abs.errno == errorCode
    {
      hide World;
    }

    lemma Unused()
      requires Valid()
      ensures abs.nextId !in byId
      ensures forall id :: id in byId ==> byId[id].id == id
    {
      hide TableOk, LinksIn, MarksIn, DescsIn, NamesIn, FdsIn, RefsIn;
    }

    method TryGetEmptyFileDescriptorSlot() returns (slot: int)
      requires TableOk()
      ensures if slot == -1 then null !in descs
              else 0 <= slot < |descs| && descs[slot] == null && null !in descs[..slot]
    {
      for i := 0 to count
        invariant null !in descs[..i]
      {
        if descriptors[i] == null {
          return i;
        }
        assert descs[..i + 1] == descs[..i] + [descs[i]];
      }
      return -1;
    }

    method AddFileDescriptorAtTheEnd(d: FileDesc) returns (slot: int)
      requires TableOk()
      modifies `descriptors, `count, `capacity, `descs, descriptors, d`index
      ensures TableOk() && slot == |old(descs)| == d.index && descs == old(descs) + [d]
      ensures descriptors == old(descriptors) || fresh(descriptors)
    {
      if descriptors == null {
        capacity, count := 1, 0;
        descriptors := new FileDesc?[1];
      }
      if capacity == count {
        capacity := capacity * 2;
        var grown := new FileDesc?[capacity];
        for i := 0 to count
          invariant forall k :: 0 <= k < i ==> grown[k] == descriptors[k]
          modifies grown
        {
          grown[i] := descriptors[i];
        }
        descriptors := grown;
      }
      slot := count;
      descriptors[slot] := d;
      d.index := slot;
      count := count + 1;
      descs := descs + [d];
    }

    method AddFileDescriptor(d: FileDesc) returns (slot: int)
      requires TableOk()
      modifies `descriptors, `count, `capacity, `descs, descriptors, d`index
      ensures TableOk() && d.index == slot && 0 <= slot <= |old(descs)|
      ensures null !in old(descs)[..slot]
      ensures if slot < |old(descs)| then old(descs)[slot] == null && descs == old(descs)[slot := d]
              else descs == old(descs) + [d]
      ensures descriptors == old(descriptors) || fresh(descriptors)
    {
      slot := TryGetEmptyFileDescriptorSlot();
      if slot != -1 {
        d.index := slot;
        descriptors[slot] := d;
        descs := descs[slot := d];
        return;
      }
      slot := AddFileDescriptorAtTheEnd(d);
    }

    /** A slot of the table was taken by a descriptor at the start of a living file. */
    static lemma SlotTaken(m: map<nat, File>, ds: seq<FileDesc?>, fds: seq<Option<Fd>>, d: FileDesc, slot: int,
                           ds': seq<FileDesc?>)
      requires DescsIn(m, ds) && FdsIn(ds, fds)
      requires 0 <= slot <= |ds| && null !in ds[..slot] && d.index == slot
      requires if slot < |ds| then ds[slot] == null && ds' == ds[slot := d] else ds' == ds + [d]
      requires d.file.id in m && m[d.file.id] == d.file && d.On() && d.Pos() == 0
      ensures DescsIn(m, ds') && FdsIn(ds', Place(fds, Fd(d.file.id, 0, d.flags))) && slot == FreeSlot(fds)
    {
      hide FileDesc.On, FileDesc.Pos;
      assert forall i :: 0 <= i < slot ==> ds[..slot][i] != null && fds[i].Some?;
      assert slot < |ds| ==> fds[slot] == None;
    }

    /** One more reference on one file. */
    lemma RefsWith(file: File, d: Fd)
      requires World(byId, files, fileList, descs, abs, allBlocks, allMems) && Known(file) && d.file == file.id
      ensures forall id :: id in byId ==> byId[id].id == id
      ensures forall id :: id in byId ==>
                Refs(Place(abs.fds, d), id) == byId[id].refs + if byId[id] == file then 1 else 0
    {
      hide LinksIn, MarksIn, DescsIn, DataIn, NamesIn, FdsIn, WellFormed;
      forall id | id in byId
        ensures Refs(Place(abs.fds, d), id) == byId[id].refs + if byId[id] == file then 1 else 0
      {
        RefsPlace(abs.fds, d, id);
      }
    }

    lemma Reopened(name: string, flags: bv32)
      requires Valid() && name in abs.names
      ensures WellFormed(abs.(fds := Place(abs.fds, Fd(abs.names[name], 0, flags))))
    {
      hide TableOk, FilesIn, LinksIn, MarksIn, DescsIn, DataIn, NamesIn, FdsIn, RefsIn;
      OpenKeeps(abs, name, flags);
    }

    lemma Canonical(file: File)
      requires Valid() && Known(file)
      ensures file.Valid() && file in byId.Values
    {
      hide TableOk, LinksIn, MarksIn, DescsIn, DataIn, NamesIn, FdsIn, RefsIn, WellFormed, File.Valid;
    }

    /** Allocates a descriptor at the start of the file and puts it into the table. */
    method NewDescriptor(file: File, flags: bv32) returns (slot: int, d: FileDesc)
      requires TableOk() && file.Valid()
      modifies `descriptors, `count, `capacity, `descs, descriptors, file`refs
      ensures TableOk() && fresh(d) && d.file == file && d.flags == flags && d.On() && d.Pos() == 0
      ensures d.index == slot && 0 <= slot <= |old(descs)| && null !in old(descs)[..slot]
      ensures if slot < |old(descs)| then old(descs)[slot] == null && descs == old(descs)[slot := d]
              else descs == old(descs) + [d]
      ensures descriptors == old(descriptors) || fresh(descriptors)
      ensures file.refs == old(file.refs) + 1
    {
      hide File.Valid, FileDesc.On, FileDesc.Pos;
      d := new FileDesc(file, flags);
      d.AtStart();
      file.refs := file.refs + 1;
      slot := AddFileDescriptor(d);
    }

    method AttachDescriptor(file: File, ghost name: string, flags: bv32) returns (slot: int)
      requires Valid() && Known(file) && name in abs.names && abs.names[name] == file.id
      modifies `descriptors, `count, `capacity, `descs, descriptors, file`refs
      ensures TableOk() && slot == FreeSlot(abs.fds)
      ensures descriptors == old(descriptors) || fresh(descriptors)
      ensures forall k :: 0 <= k < |descs| && descs[k] != null ==> descs[k] in old(descs) || fresh(descs[k])
      ensures World(byId, files, fileList, descs, abs.(fds := Place(abs.fds, Fd(file.id, 0, flags))), allBlocks,
                    allMems)
    {
      hide TableOk, Store, DescsIn, FdsIn, WellFormed;
      hide File.Valid, FileDesc.On, FileDesc.Pos, Place, FreeSlot, At, Hooked, Refs, HasFlag;
      Reopened(name, flags);
      Canonical(file);
      RefsWith(file, Fd(file.id, 0, flags));
      ghost var was := descs;
      var d;
      slot, d := NewDescriptor(file, flags);
      SlotTaken(byId, was, abs.fds, d, slot, descs);
    }

    method OpenFile(file: File, ghost name: string, flags: bv32) returns (slot: int)
      requires Valid() && Known(file) && name in abs.names && abs.names[name] == file.id
      modifies `abs, `descriptors, `count, `capacity, `descs, descriptors, file`refs
      ensures Valid() && Grown() && slot == FreeSlot(old(abs).fds)
      ensures abs == old(abs).(fds := Place(old(abs).fds, Fd(file.id, 0, flags)))
    {
      hide TableOk, World, Place, FreeSlot;
      slot := AttachDescriptor(file, name, flags);
      abs := abs.(fds := Place(abs.fds, Fd(file.id, 0, flags)));
    }

    method Open(name: string, flags: bv32) returns (code: int)
      requires Valid()
      modifies this, descriptors, byId.Values`prev, byId.Values`refs
      ensures Valid() && Grown() && forall f: File :: f in byId.Values ==> f in old(byId.Values) || f.roomy
      ensures (abs, Reply(code, [])) == OpenStep(old(abs), name, flags)
      ensures WellFormed(old(abs)) && OpenPromise(old(abs), name, flags, abs, Reply(code, []))
    {
      hide Valid, TableOk, World, Place, FreeSlot, OpenPromise, WellFormed, OpenStep, Created, HasFlag;
      FsOk();
      OpenKept(abs, name, flags);
      OpensIn(abs, name, flags);
      var file := TryGetFileByFilename(name);
      if file == null {
        if !HasFlag(flags, UFS_CREATE) {
          code := ThrowError(NoFile);
          return;
        }
        file := CreateFile(name);
      }
      assert file in byId.Values;
      code := OpenFile(file, name, flags);
    }

    /** An open is the creation of the file, if it is needed and allowed, and then the entry of a descriptor. */
    static lemma OpensIn(fs: Fs, name: string, flags: bv32)
      ensures var mid := if name in fs.names then fs else Created(fs, name);
              && name in mid.names
              && OpenStep(fs, name, flags) ==
                 if name !in fs.names && !HasFlag(flags, UFS_CREATE) then Fail(fs, NoFile)
                 else (mid.(fds := Place(mid.fds, Fd(mid.names[name], 0, flags))), Reply(FreeSlot(mid.fds), []))
    {
    }

    // ----- resizing

    method RepairDescriptors(file: File, b: Block, occupied: int)
      requires TableOk() && forall i :: 0 <= i < |descs| && descs[i] != null ==> descs[i].index == i
      modifies descs`currentBlock, descs`blockOffset
      ensures forall i :: 0 <= i < |descs| && descs[i] != null && descs[i].file == file ==>
                descs[i].Repaired(b, occupied)
      ensures forall i :: 0 <= i < |descs| && descs[i] != null && descs[i].file != file ==>
                descs[i].currentBlock == old(descs[i].currentBlock) && descs[i].blockOffset == old(descs[i].blockOffset)
    {
      for i := 0 to count
        invariant forall j :: i <= j < |descs| && descs[j] != null ==>
                    descs[j].currentBlock == old(descs[j].currentBlock) &&
                    descs[j].blockOffset == old(descs[j].blockOffset)
        invariant forall j :: 0 <= j < i && descs[j] != null && descs[j].file == file ==> descs[j].Repaired(b, occupied)
        invariant forall j :: 0 <= j < i && descs[j] != null && descs[j].file != file ==>
                    descs[j].currentBlock == old(descs[j].currentBlock) &&
                    descs[j].blockOffset == old(descs[j].blockOffset)
      {
        var d := descriptors[i];
        assert d == descs[i];
        if d == null || d.file != file {
          continue;
        }
        if d.currentBlock.index < b.index {
          continue;
        }
        if d.currentBlock.index == b.index && d.blockOffset <= occupied {
          continue;
        }
        d.currentBlock := b;
        d.blockOffset := occupied;
      }
    }

    /** reduce_file_size without its view of the table: the chain is cut, the descriptors are repaired. */
    method CutFile(file: File, newSize: nat) returns (b: Block, ghost freed: seq<Block>)
      requires TableOk() && (forall i :: 0 <= i < |descs| && descs[i] != null ==> descs[i].index == i)
      requires file.Valid()
      modifies file`lastBlock, file`blocks, file`content, file`roomy, file.blocks`occupied, file.blocks`next
      modifies descs`currentBlock, descs`blockOffset
      ensures 0 <= b.index < |old(file.blocks)| && old(file.blocks)[b.index] == b && !fresh(b)
      ensures b.index == Min(|old(file.blocks)| - 1, newSize / 512)
      ensures file.blocks == old(file.blocks)[..b.index + 1] && freed == old(file.blocks)[b.index + 1..]
      ensures newSize <= 512 * |old(file.blocks)| ==>
                file.Valid() && file.content == old(file.CutContent(newSize))
      ensures newSize > 512 * |old(file.blocks)| ==> !file.Valid()
      ensures file.roomy == (old(file.roomy) && newSize < 512 * |old(file.blocks)|)
      ensures file.Spine() && file.lastBlock == b && b.occupied == newSize - 512 * b.index
      ensures forall i :: 0 <= i < |descs| && descs[i] != null && descs[i].file == file ==>
                descs[i].Repaired(b, newSize - 512 * b.index)
      ensures forall i :: 0 <= i < |descs| && descs[i] != null && descs[i].file != file ==>
                descs[i].currentBlock == old(descs[i].currentBlock) && descs[i].blockOffset == old(descs[i].blockOffset)
    {
      hide File.Marked, File.Valid, File.CutContent;
      var occupied;
      b, occupied := file.MarkEnd(newSize);
      RepairDescriptors(file, b, occupied);
      freed := file.DropTail(b);
    }

    /** Repairing the descriptors of one file is clamping its entries in the callers' view. */
    twostate lemma DescsClamped(p: (File, Block))
      requires old(DescsIn(byId, descs) && FdsIn(descs, abs.fds)) && descs == old(descs) && byId == old(byId)
      requires old(Known(p.0)) && 0 <= p.1.index < |old(p.0.blocks)| && p.1 == old(p.0.blocks)[p.1.index]
      requires p.0.blocks == old(p.0.blocks)[..p.1.index + 1]
      requires 0 <= |p.0.content| - 512 * p.1.index < 512 ||
               (p.1.index == |old(p.0.blocks)| - 1 && |p.0.content| == 512 * |p.0.blocks|)
      requires forall i :: 0 <= i < |descs| && descs[i] != null ==> descs[i].index == old(descs[i].index)
      requires forall i :: 0 <= i < |descs| && descs[i] != null && descs[i].file == p.0 ==>
                 descs[i].Repaired(p.1, |p.0.content| - 512 * p.1.index)
      requires forall i :: 0 <= i < |descs| && descs[i] != null && descs[i].file != p.0 ==>
                 descs[i].currentBlock == old(descs[i].currentBlock) &&
                 descs[i].blockOffset == old(descs[i].blockOffset)
      requires forall id :: id in byId && byId[id] != p.0 ==>
                 byId[id].blocks == old(byId[id].blocks) && byId[id].content == old(byId[id].content)
      requires forall id :: id in byId ==> byId[id].id == id
      ensures DescsIn(byId, descs) && FdsIn(descs, Clamp(old(abs.fds), p.0.id, |p.0.content|))
    {
      forall i | 0 <= i < |descs| && descs[i] != null
        ensures descs[i].On()
        ensures descs[i].Pos() ==
                if descs[i].file == p.0 then Min(old(descs[i].Pos()), |p.0.content|) else old(descs[i].Pos())
      {
        if descs[i].file == p.0 {
          descs[i].RepairedOn(p.1);
        }
      }
    }

    /** One file lost blocks; the others kept theirs. */
    twostate lemma FilesShrunk(f: File)
      requires old(FilesOk() && Known(f)) && byId == old(byId) && allBlocks == old(allBlocks) && allMems == old(allMems)
      requires f.Valid() && f.blocks <= old(f.blocks) && f.mems == old(f.mems)
      requires forall id :: id in byId && byId[id] != f ==>
                 byId[id].Valid() && byId[id].mems == old(byId[id].mems) && byId[id].blocks == old(byId[id].blocks)
      ensures FilesOk()
    {
      hide File.Valid;
    }

    lemma RefsResized(id: nat, content: seq<byte>)
      requires Valid() && id in byId && |content| <= MAX_FILE_SIZE
      ensures RefsIn(byId, Resized(abs, id, content).fds) && WellFormed(Resized(abs, id, content))
    {
      hide TableOk, FilesIn, LinksIn, MarksIn, DescsIn, NamesIn, FdsIn;
      ResizedKeeps(abs, id, content);
      RefsCarry(abs.fds, Resized(abs, id, content).fds);
    }

    lemma Indices()
      requires Valid()
      ensures forall i :: 0 <= i < |descs| && descs[i] != null ==> descs[i].index == i
    {
      hide TableOk, Store, RefsIn, FdsIn, WellFormed, FileDesc.On;
    }

    /** A resize, up to the update of the callers' view. */
    method ReduceFileSize(file: File, newSize: nat)
      requires Valid() && Known(file) && newSize <= MAX_FILE_SIZE && file.Valid()
      modifies file`lastBlock, file`blocks, file`content, file`roomy, file.blocks`occupied, file.blocks`next
      modifies descs`currentBlock, descs`blockOffset
      ensures newSize <= 512 * |old(file.blocks)| ==>
                World(byId, files, fileList, descs, Resized(abs, file.id, old(file.CutContent(newSize))), allBlocks,
                      allMems)
      ensures file.roomy == (old(file.roomy) && newSize < 512 * |old(file.blocks)|)
      ensures newSize > 512 * |old(file.blocks)| ==> !file.Valid() && Stretched(file, newSize)
    {
      hide TableOk, FilesIn, LinksIn, MarksIn, DescsIn, DataIn, RefsIn, NamesIn, FdsIn, WellFormed, Clamp;
      hide File.Valid, File.CutContent, FileDesc.On, FileDesc.Pos, At, Hooked, Stretched, File.BlockSet;
      Apart(file);
      Indices();
      if newSize <= 512 * |file.blocks| {
        RefsResized(file.id, file.CutContent(newSize));
      }
      CutFileInTable(file, newSize);
    }

    /** The cut as the files and the table see it. */
    method CutFileInTable(file: File, newSize: nat)
      requires TableOk() && (forall i :: 0 <= i < |descs| && descs[i] != null ==> descs[i].index == i)
      requires FilesOk() && DescsIn(byId, descs) && FdsIn(descs, abs.fds) && DataIn(byId, abs.data) && Known(file)
      requires file.Valid()
      modifies file`lastBlock, file`blocks, file`content, file`roomy, file.blocks`occupied, file.blocks`next
      modifies descs`currentBlock, descs`blockOffset
      ensures file.roomy == (old(file.roomy) && newSize < 512 * |old(file.blocks)|)
      ensures newSize <= 512 * |old(file.blocks)| ==>
                && FilesOk() && DescsIn(byId, descs) && FdsIn(descs, Clamp(abs.fds, file.id, newSize))
                && DataIn(byId, abs.data[file.id := old(file.CutContent(newSize))])
      ensures newSize > 512 * |old(file.blocks)| ==> !file.Valid() && Stretched(file, newSize)
    {
      hide TableOk, FilesIn, DescsIn, DataIn, FdsIn, Clamp, Stretched;
      hide File.Valid, File.CutContent, FileDesc.On, FileDesc.Pos, FileDesc.Repaired, File.Spine, File.BlockSet;
      Apart(file);
      ghost var fits := newSize <= 512 * |file.blocks|;
      var b;
      ghost var freed;
      b, freed := CutFile(file, newSize);
      if fits {
        FilesShrunk(file);
        DescsClamped((file, b));
        DataFollow(file);
      } else {
        Unmoved((file, b));
      }
    }

    /** When the size is too large for the blocks, no descriptor of the file is behind it. */
    twostate lemma Unmoved(p: (File, Block))
      requires old(DescsIn(byId, descs)) && descs == old(descs) && byId == old(byId) && old(Known(p.0))
      requires p.1 == p.0.lastBlock && p.1.index == |old(p.0.blocks)| - 1 && p.1.occupied > 512
      requires p.0.blocks == old(p.0.blocks)[..p.1.index + 1] && p.0.Spine()
      requires forall i :: 0 <= i < |descs| && descs[i] != null && descs[i].file == p.0 ==>
                 descs[i].Repaired(p.1, p.1.occupied)
      ensures Stretched(p.0, 512 * p.1.index + p.1.occupied)
    {
    }

    /** The descriptors of the file stand where they stood, and the last block claims more than it can hold. */
    twostate predicate Stretched(file: File, newSize: nat)
      reads `descs, descs, file, file.blocks, file.lastBlock
    {
      && file.Spine() && file.blocks == old(file.blocks)
      && file.lastBlock.occupied == newSize - 512 * (|file.blocks| - 1) && file.lastBlock.index == |file.blocks| - 1
      && descs == old(descs)
      && forall i :: 0 <= i < |descs| && descs[i] != null && descs[i].file == file ==>
           descs[i].OnBlock() && descs[i].Pos() == old(descs[i].Pos())
    }

    /** A file system with a file that is not canonical is not valid. */
    lemma Broken(file: File)
      requires Known(file) && !file.Valid()
      ensures !Valid()
    {
      hide TableOk, LinksIn, MarksIn, DescsIn, DataIn, RefsIn, NamesIn, FdsIn, WellFormed, File.Valid;
    }

    lemma RoomOf(fd: int)
      requires Valid() && 0 <= fd < |descs| && descs[fd] != null
      ensures var f := descs[fd].file;
              && |f.content| <= 512 * |f.blocks| && |f.content| <= MAX_FILE_SIZE && f in byId.Values
              && forall k :: 0 <= k < |f.blocks| ==> f.blocks[k] in allBlocks
    {
      hide TableOk, Store, RefsIn, DescsIn, FdsIn, File.Stores;
      Opened(fd);
      InFootprint(fd);
      assert abs.data[descs[fd].file.id] == descs[fd].file.content;
    }

    /** How many bytes the blocks of an open file can hold. */
    ghost function Capacity(fd: int): nat
      requires 0 <= fd < |descs| && descs[fd] != null
      reads `descs, descs, (set d | d in descs && d != null :: d.file)`blocks
    {
      512 * |descs[fd].file.blocks|
    }

    /** Whether a resize leaves more bytes to a file than its blocks can hold. */
    ghost predicate Overflows(fd: int, newSize: nat)
      reads `descs, descs, (set d | d in descs && d != null :: d.file)`blocks
    {
      0 <= fd < |descs| && descs[fd] != null && Capacity(fd) < newSize < MAX_FILE_SIZE
    }

    method Resize(fd: int, newSize: nat) returns (code: int)
      requires Valid()
      modifies `abs, `errorCode, descs`currentBlock, descs`blockOffset
      modifies byId.Values`lastBlock, byId.Values`blocks, byId.Values`content, byId.Values`roomy
      modifies allBlocks`occupied, allBlocks`next
      ensures byId == old(byId) && descs == old(descs) && allBlocks == old(allBlocks) && allMems == old(allMems)
      ensures WellFormed(old(abs))
      ensures Supported(old(abs), UserFsSpec.Resize(fd, newSize)) ==>
                (abs, Reply(code, [])) == ResizeStep(old(abs), fd, newSize)
      ensures Valid() <==> !old(Overflows(fd, newSize))
      ensures Valid() && !Supported(old(abs), UserFsSpec.Resize(fd, newSize)) ==>
                var id := old(abs).fds[fd].value.file;
                && code == 0 && |abs.data[id]| == newSize && old(abs).data[id] <= abs.data[id]
                && abs == Resized(old(abs), id, abs.data[id])
      ensures Supported(old(abs), UserFsSpec.Resize(fd, newSize)) ==>
                forall f: File :: f in byId.Values ==> f.roomy == old(f.roomy)
      ensures old(Overflows(fd, newSize)) ==> code == 0 && Stretched(descs[fd].file, newSize)
    {
      hide TableOk, World, Clamp, File.CutContent, File.Valid, FileDesc.On, FileDesc.Pos, Stretched;
      FsOk();
      var d := TryGetFileDescriptor(fd);
      if d == null {
        Absent(fd);
        code := ThrowError(NoFile);
        return;
      }
      Opened(fd);
      RoomOf(fd);
      if newSize >= MAX_FILE_SIZE {
        code := ThrowError(NoMem);
        return;
      }
      code := 0;
      if d.file.roomy { HasRoom(fd); }
      ghost var c := if newSize <= 512 * |d.file.blocks| then d.file.CutContent(newSize) else [];
      assert newSize <= |d.file.content| ==> c[..newSize] == c;
      ResizeFile(fd, d.file, newSize);
    }

    /** reduce_file_size with the callers' view. */
    method ResizeFile(ghost fd: int, file: File, newSize: nat)
      requires Valid() && 0 <= fd < |descs| && descs[fd] != null && descs[fd].file == file && newSize < MAX_FILE_SIZE
      requires file.Valid()
      modifies `abs, file`lastBlock, file`blocks, file`content, file`roomy, file.blocks`occupied, file.blocks`next
      modifies descs`currentBlock, descs`blockOffset
      ensures newSize <= 512 * |old(file.blocks)| ==>
                Valid() && abs == Resized(old(abs), file.id, old(file.CutContent(newSize)))
      ensures file.roomy == (old(file.roomy) && newSize < 512 * |old(file.blocks)|)
      ensures newSize > 512 * |old(file.blocks)| ==> !Valid() && Stretched(file, newSize)
    {
      hide TableOk, World, Clamp, File.CutContent, File.Valid, FileDesc.On, FileDesc.Pos, Stretched;
      Opened(fd);
      ghost var fits := newSize <= 512 * |file.blocks|;
      ghost var c := if fits then file.CutContent(newSize) else [];
      ReduceFileSize(file, newSize);
      if fits {
        abs := Resized(abs, file.id, c);
      } else {
        Broken(file);
      }
    }

    lemma OneBlock(fd: int)
      requires Valid() && Roomy() && Lookup(abs, fd).Some? && abs.data[abs.fds[fd].value.file] == []
      ensures 0 <= fd < |descs| && descs[fd] != null && Capacity(fd) == BLOCK_SIZE && descs[fd].Pos() == 0
    {
      hide TableOk, World, FileDesc.On, FileDesc.Pos;
      if 0 <= fd < |descs| && descs[fd] != null {
        Opened(fd);
        OneOnly(descs[fd].file);
        InFootprint(fd);
      } else {
        Absent(fd);
      }
    }

    static lemma OneOnly(f: File)
      requires f.Valid() && f.content == []
      ensures f.roomy ==> |f.blocks| == 1
    {
    }

    lemma NoOverflow(fd: int, newSize: nat)
      requires Valid() && Supported(abs, UserFsSpec.Resize(fd, newSize))
      ensures !Overflows(fd, newSize)
    {
      hide TableOk, World;
      if 0 <= fd < |descs| && descs[fd] != null {
        Opened(fd);
        RoomOf(fd);
      }
    }

    lemma HasRoom(fd: int)
      requires Valid() && 0 <= fd < |descs| && descs[fd] != null && descs[fd].file.roomy
      ensures |descs[fd].file.content| < 512 * |descs[fd].file.blocks|
    {
      hide TableOk, World, FileDesc.On, FileDesc.Pos;
      Opened(fd);
    }

    lemma FsOk()
      requires Valid()
      ensures WellFormed(abs)
    {
    }

    // ----- runs of calls

    method Serve(call: Call) returns (reply: Reply)
      requires Valid() && Supported(abs, call)
      modifies this, descriptors, descs, byId.Values, allBlocks, allMems
      ensures WellFormed(old(abs)) && Valid() && Grown() && (old(Roomy()) ==> Roomy())
      ensures (abs, reply) == Step(old(abs), call)
    {
      hide Overflows, TableOk, World, OpenStep, ReadStep, WriteStep, CloseStep, DeleteStep, ResizeStep;
      hide OpenPromise, WritePromise, ReadPromise, ClosePromise, DeletePromise;
      FsOk();
      var code;
      match call {
        case Open(name, flags) =>
          code := Open(name, flags);
          reply := Reply(code, []);
        case Write(fd, buf) =>
          code := Write(fd, buf);
          reply := Reply(code, []);
        case Read(fd, size) =>
          var bytes;
          code, bytes := Read(fd, size);
          reply := Reply(code, bytes);
        case Close(fd) =>
          code := Close(fd);
          reply := Reply(code, []);
        case Delete(name) =>
          code := Delete(name);
          reply := Reply(code, []);
        case Resize(fd, newSize) =>
          NoOverflow(fd, newSize);
          code := Resize(fd, newSize);
          reply := Reply(code, []);
      }
    }

    /** Whatever the callers do, they get the replies of the file system of the specification. */
    method ServeAll(calls: seq<Call>) returns (replies: seq<Reply>)
      requires Valid() && WellFormed(abs) && SupportedRun(abs, calls)
      modifies this, descriptors, descs, byId.Values, allBlocks, allMems
      ensures Valid() && (old(Roomy()) ==> Roomy())
      ensures (abs, replies) == Run(old(abs), calls)
    {
      hide Roomy, TableOk, World, Step, Supported, WellFormed;
      replies := [];
      ghost var was := abs;
      for i := 0 to |calls|
        invariant Valid() && Grown() && (old(Roomy()) ==> Roomy())
        invariant SupportedRun(was, calls[..i]) && (abs, replies) == Run(was, calls[..i])
      {
        assert calls[..i + 1] == calls[..i] + [calls[i]];
        SupportedPrefix(was, calls, i + 1);
        RunAppend(was, calls[..i], calls[i]);
        var reply := Serve(calls[i]);
        replies := replies + [reply];
      }
      assert calls[..|calls|] == calls;
    }

    // ----- the end

    /** With no descriptor left every file is in the list. */
    lemma OnlyListedFiles()
      requires Valid() && forall i :: 0 <= i < |descs| ==> descs[i] == null
      ensures forall id :: id in byId ==> byId[id] in files
    {
      hide TableOk, FilesIn, LinksIn, MarksIn, DescsIn, RefsIn;
      forall id | id in byId ensures byId[id] in files {
        RefsPositive(abs.fds, id);
        assert id in abs.data && Named(abs, id);
        var n :| n in abs.names && abs.names[n] == id;
        assert byId[abs.names[n]] in files;
      }
    }

    /** Every descriptor is closed and every file is freed, once. */
    method Destroy()
      requires Valid()
      modifies this, descriptors
      modifies byId.Values`refs, byId.Values`next, byId.Values`prev
      ensures byId == map[] && files == [] && fileList == null
      ensures |descs| == |old(descs)| && forall k :: 0 <= k < |descs| ==> descs[k] == null
    {
      hide TableOk, World, FilesIn, LinksIn, CloseStep;
      CloseAll();
      OnlyListedFiles();
      InOrder();
      ghost var ds := descs;
      while fileList != null
        invariant FilesOk() && LinksOk() && descs == ds
        invariant forall id :: id in byId ==> byId[id] in files
        invariant forall o: object :: o in byId.Values ==> o in old(byId.Values)
        decreases |files|
      {
        HeadOfList();
        Apart(fileList);
        ghost var freed := DeleteFile(fileList);
      }
      HeadOfList();
    }

    lemma HeadOfList()
      requires LinksOk()
      ensures if files == [] then fileList == null
              else fileList == files[0] && Known(files[0]) && files[0] in byId.Values
    {
    }

    lemma InOrder()
      requires Valid()
      ensures FilesOk() && LinksOk()
    {
      hide TableOk, FilesIn, LinksIn, MarksIn, DescsIn, RefsIn;
    }

    method CloseAll()
      requires Valid()
      modifies this, descriptors
      modifies byId.Values`refs, byId.Values`next, byId.Values`prev
      ensures Valid() && |descs| == |old(descs)| && forall k :: 0 <= k < |descs| ==> descs[k] == null
      ensures forall o: object :: o in byId.Values ==> o in old(byId.Values)
    {
      hide World, CloseStep;
      for i := 0 to count
        invariant Valid() && descriptors == old(descriptors) && count == |descs| == |old(descs)|
        invariant forall k :: 0 <= k < i ==> descs[k] == null
        invariant forall o: object :: o in byId.Values ==> o in old(byId.Values)
      {
        if descriptors[i] != null {
          Opened(i);
          CloseFileDescriptor(descriptors[i]);
        }
      }
    }
  }
}

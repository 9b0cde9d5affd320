/** The block chain of one UserFS file and the descriptors that walk it. */
module UserFsBlocks {
  import opened UserFsSpec

  /** A fixed-size buffer in a doubly linked chain. */
  class Block {
    const memory: array<byte>
    const index: int
    ghost const owner: nat      // the id of the file it was allocated for
    var occupied: int
    var next: Block?
    var prev: Block?

    /** malloc leaves the buffer with arbitrary bytes, and so does this constructor. */
    constructor (prev: Block?, index: int, ghost owner: nat)
      ensures this.prev == prev && this.index == index && this.owner == owner
      ensures next == null && occupied == 0
      ensures fresh(memory) && memory.Length == 512
    {
      this.memory := new byte[BLOCK_SIZE];
      this.index := index;
      this.owner := owner;
      this.occupied := 0;
      this.next := null;
      this.prev := prev;
    }
  }

  class File {
    const name: string
    ghost const id: nat
    var blockList: Block
    var lastBlock: Block
    var refs: int
    var next: File?
    var prev: File?
    var markedForDeletion: bool

    ghost var blocks: seq<Block>          // the chain, first to last
    ghost var mems: set<array<byte>>      // covers the buffers of the chain
    ghost var content: seq<byte>          // what the chain stores
    ghost var roomy: bool                 // no resize has filled the last block to its end

    /** A new file owns one empty block and stands before `next` in the file list. */
    constructor (name: string, next: File?, ghost id: nat)
      ensures this.name == name && this.id == id && this.next == next && prev == null
      ensures refs == 0 && !markedForDeletion
      ensures Valid() && content == [] && roomy
      ensures fresh(blocks) && fresh(mems)
    {
      var firstBlock := new Block(null, 0, id);
      this.name := name;
      this.id := id;
      this.blockList := firstBlock;
      this.lastBlock := firstBlock;
      this.refs := 0;
      this.next := next;
      this.prev := null;
      this.markedForDeletion := false;
      this.blocks := [firstBlock];
      this.mems := {firstBlock.memory};
      this.content := [];
      this.roomy := true;
    }

    ghost function BlockSet(): (s: set<Block>)
      reads `blocks
      ensures forall k :: 0 <= k < |blocks| ==> blocks[k] in s
      ensures forall b :: b in s ==> b in blocks
    {
      set b | b in blocks
    }

    /** Positions count up from 0 and no two blocks share a buffer. */
    ghost predicate Indexed()
      reads `blocks, `mems, `blockList, `lastBlock
    {
      && |blocks| >= 1 && blocks[0] == blockList && blocks[|blocks| - 1] == lastBlock
      && (forall k :: 0 <= k < |blocks| ==>
            blocks[k].index == k && blocks[k].owner == id && blocks[k].memory.Length == 512 && blocks[k].memory in mems)
      && (forall j, k :: 0 <= j < k < |blocks| ==> blocks[j].memory != blocks[k].memory)
    }

    /** next and prev agree; nothing is said about how full the blocks are. */
    ghost predicate Spine()
      reads `blocks, `mems, `blockList, `lastBlock, blocks`next, blocks`prev
    {
      && Indexed()
      && (forall k :: 0 < k < |blocks| ==> blocks[k].prev == blocks[k - 1])
      && (forall k :: 0 <= k < |blocks| - 1 ==> blocks[k].next == blocks[k + 1])
      && blocks[0].prev == null && lastBlock.next == null
    }

    /** Every block but the last is full, and the last one may be. */
    ghost predicate Counted()
      requires Indexed()
      reads `blocks, `mems, `content, `blockList, `lastBlock, blocks`occupied
    {
      && (forall k :: 0 <= k < |blocks| - 1 ==> blocks[k].occupied == 512)
      && 0 <= lastBlock.occupied <= 512
      && |content| == 512 * (|blocks| - 1) + lastBlock.occupied
    }

    /** The buffers hold `content`, 512 bytes to a block. */
    ghost predicate Stores()
      requires Indexed()
      reads `blocks, `mems, `content, `blockList, `lastBlock
      reads blocks`occupied, blocks`next, blocks`prev, mems
    {
      && (forall k, j :: 0 <= k < |blocks| && 0 <= j < 512 && 512 * k + j < |content| ==>
            content[512 * k + j] == blocks[k].memory[j])
    }

    /** The chain is well linked and stores `content`; the last block may be full. */
    ghost predicate Chain()
      reads `blocks, `mems, `content, `blockList, `lastBlock
      reads blocks`occupied, blocks`next, blocks`prev, mems
    {
      Spine() && Counted() && Stores()
    }

    /** The canonical form between calls: the last block has room, unless a resize has filled it. */
    ghost predicate Valid()
      reads `blocks, `mems, `content, `blockList, `lastBlock, `roomy
      reads blocks`occupied, blocks`next, blocks`prev, mems
    {
      Chain() && (roomy ==> lastBlock.occupied < 512)
    }

    /** The size as read_via_descriptor computes it. */
    ghost function Size(): int
      reads `lastBlock, lastBlock`occupied
    {
      512 * lastBlock.index + lastBlock.occupied
    }

    /** One fresh empty block was hung behind a full last block. */
    twostate lemma BlockAppended()
      requires old(Chain() && lastBlock.occupied == 512)
      requires content == old(content) && blockList == old(blockList)
      requires |blocks| == |old(blocks)| + 1 && blocks[..|blocks| - 1] == old(blocks) &&
               lastBlock == blocks[|blocks| - 1]
      requires lastBlock.index == |blocks| - 1 && lastBlock.owner == id && lastBlock.occupied == 0 &&
               lastBlock.memory.Length == 512
      requires lastBlock.memory !in old(mems) && lastBlock.memory in mems && old(mems) <= mems
      requires lastBlock.prev == old(lastBlock) && lastBlock.next == null && old(lastBlock).next == lastBlock
      requires forall k :: 0 <= k < |blocks| - 1 ==>
                 && blocks[k].prev == old(blocks[k].prev) && blocks[k].occupied == old(blocks[k].occupied)
                 && (k < |blocks| - 2 ==> blocks[k].next == old(blocks[k].next))
                 && blocks[k].memory[..] == old(blocks[k].memory[..])
      ensures Valid()
    {
      assert forall k :: 0 <= k < |blocks| - 1 ==> blocks[k] == old(blocks)[k];
      assert forall k, j :: 0 <= k < |blocks| - 1 && 0 <= j < 512 ==>
        blocks[k].memory[j] == blocks[k].memory[..][j] && old(blocks[k].memory[j]) == old(blocks[k].memory[..])[j];
    }

    method AppendBlock() returns (b: Block)
      requires Spine()
      modifies `blocks, `mems, `lastBlock, lastBlock`next
      ensures Spine() && b == lastBlock && fresh(b) && b.occupied == 0
      ensures blocks == old(blocks) + [b]
      ensures fresh(mems - old(mems)) && old(mems) <= mems
      ensures old(Chain() && lastBlock.occupied == 512) ==> Valid()
    {
      ghost var full := Chain() && lastBlock.occupied == 512;
      b := new Block(lastBlock, lastBlock.index + 1, id);
      lastBlock.next := b;
      lastBlock := b;
      blocks := blocks + [b];
      mems := mems + {b.memory};
      if full {
        BlockAppended();
      }
    }

    /** The walk that frees the blocks of a file visits each of them once, first to last. */
    method FreeBlocks() returns (ghost freed: seq<Block>)
      requires Valid()
      ensures freed == blocks
    {
      hide Stores;
      var block: Block? := blockList;
      freed := [];
      while block != null
        invariant |freed| <= |blocks| && freed == blocks[..|freed|]
        invariant block == if |freed| < |blocks| then blocks[|freed|] else null
        decreases |blocks| - |freed|
      {
        assert block.index == |freed|;
        freed := freed + [block];
        block := block.next;
      }
    }

    /** The block the file ends in after a resize: the search walks back from the last block. */
    method FindNewLastBlock(newSize: nat) returns (b: Block)
      requires Valid()
      ensures 0 <= b.index < |blocks| && blocks[b.index] == b
      ensures b.index == Min(|blocks| - 1, newSize / 512)
    {
      hide Stores;
      b := lastBlock;
      while b.index * BLOCK_SIZE > newSize
        invariant 0 <= b.index < |blocks| && blocks[b.index] == b
        invariant b != lastBlock ==> newSize < 512 * (b.index + 1)
        decreases b.index
      {
        assert b.prev == blocks[b.index - 1];
        b := b.prev;
      }
    }

    /** The walk that frees the blocks behind `b`, from the end of the file back to `b`. */
    method FreeTail(b: Block) returns (ghost freed: seq<Block>)
      requires Indexed() && 0 <= b.index < |blocks| && blocks[b.index] == b
      requires forall k :: 0 < k < |blocks| ==> blocks[k].prev == blocks[k - 1]
      ensures freed == blocks[b.index + 1..]
    {
      var ptr: Block := lastBlock;
      freed := [];
      while ptr != b
        invariant b.index <= ptr.index < |blocks| && blocks[ptr.index] == ptr
        invariant freed == blocks[ptr.index + 1..]
        decreases ptr.index
      {
        assert ptr.index != b.index && ptr.prev == blocks[ptr.index - 1];
        freed := [ptr] + freed;
        ptr := ptr.prev;
      }
    }

    /** The contents after a resize that stays within the blocks there are. */
    ghost function CutContent(newSize: nat): (c: seq<byte>)
      requires Valid() && newSize <= 512 * |blocks|
      reads `blocks, `mems, `content, `blockList, `lastBlock, `roomy
      reads blocks`occupied, blocks`next, blocks`prev, mems
      ensures |c| == newSize
      ensures c[..Min(newSize, |content|)] == content[..Min(newSize, |content|)]
    {
      var k := Min(|blocks| - 1, newSize / 512);
      Kept(k, newSize - 512 * k);
      content[..512 * k] + blocks[k].memory[..newSize - 512 * k]
    }

    /** What a block keeps when the file is cut in it. */
    lemma Kept(k: int, n: int)
      requires Valid() && 0 <= k < |blocks| && 0 <= n <= 512
      ensures 512 * k <= |content| && blocks[k].memory.Length == 512
      ensures var cut, m := content[..512 * k] + blocks[k].memory[..n], Min(512 * k + n, |content|);
              |cut| == 512 * k + n && cut[..m] == content[..m]
    {
      var cut, m := content[..512 * k] + blocks[k].memory[..n], Min(512 * k + n, |content|);
      forall i | 0 <= i < m ensures cut[i] == content[i] {
        if i >= 512 * k {
          var j := i - 512 * k;
          assert content[512 * k + j] == blocks[k].memory[j];
        }
      }
    }

    /** Between the two halves of a resize: the chain is good up to `b`, and `b` is marked as its end. */
    ghost predicate Marked(b: Block)
      reads `blocks, `mems, `content, `blockList, `lastBlock
      reads blocks`occupied, blocks`next, blocks`prev, mems, b`occupied, b`next
    {
      && Indexed() && Stores() && 0 <= b.index < |blocks| && blocks[b.index] == b
      && blocks[0].prev == null
      && (forall k :: 0 < k < |blocks| ==> blocks[k].prev == blocks[k - 1])
      && (forall k :: 0 <= k < b.index ==> blocks[k].next == blocks[k + 1] && blocks[k].occupied == 512)
      && b.next == null && b.occupied >= 0 && 512 * b.index <= |content|
    }

    lemma CutIn(newSize: nat, b: Block)
      requires Valid() && newSize <= 512 * |blocks|
      requires b.index == Min(|blocks| - 1, newSize / 512) && blocks[b.index] == b
      ensures 512 * b.index <= |content| && b.memory.Length == 512 && newSize - 512 * b.index <= 512
      ensures CutContent(newSize) == content[..512 * b.index] + b.memory[..newSize - 512 * b.index]
    {
    }

    /** The file half of a resize, up to the point where the descriptors are repaired. */
    method MarkEnd(newSize: nat) returns (b: Block, occupied: int)
      requires Valid()
      modifies blocks`occupied, blocks`next
      ensures Marked(b) && b.index == Min(|blocks| - 1, newSize / 512)
      ensures 0 <= b.index < |blocks| && blocks[b.index] == b
      ensures occupied == newSize - 512 * b.index && b.occupied == occupied
      ensures newSize <= 512 * |blocks| <==> occupied <= 512
      ensures occupied <= 512 ==>
                && 512 * b.index <= |content| && b.memory.Length == 512
                && old(CutContent(newSize)) == content[..512 * b.index] + b.memory[..occupied]
    {
      hide CutContent, Valid, Marked;
      b := FindNewLastBlock(newSize);
      occupied := newSize - b.index * BLOCK_SIZE;
      if occupied <= 512 { CutIn(newSize, b); }
      SetEnd(b, occupied);
    }

    method SetEnd(b: Block, occupied: nat)
      requires Valid() && 0 <= b.index < |blocks| && blocks[b.index] == b
      modifies b`occupied, b`next
      ensures Marked(b) && b.occupied == occupied
    {
      b.occupied := occupied;
      b.next := null;
    }

    /** The rest of it: the blocks behind the new last block go. */
    method DropTail(b: Block) returns (ghost freed: seq<Block>)
      requires Marked(b)
      modifies `lastBlock, `blocks, `content, `roomy
      ensures freed == old(blocks)[b.index + 1..] && blocks == old(blocks)[..b.index + 1] && lastBlock == b && Spine()
      ensures b.occupied <= 512 ==>
                Valid() && b.memory.Length == 512 && content == old(content)[..512 * b.index] + b.memory[..b.occupied]
      ensures b.occupied > 512 ==> !Valid()
      ensures roomy == (old(roomy) && b.occupied < 512)
    {
      hide Stores, Spine;
      MarkedChain(b);
      freed := FreeTail(b);
      lastBlock := b;
      blocks := blocks[..b.index + 1];
      CutSpine(b);
      roomy := roomy && b.occupied < 512;
      if b.occupied <= 512 {
        content := content[..512 * b.index] + b.memory[..b.occupied];
        CutStores(b);
      }
    }

    lemma MarkedChain(b: Block)
      requires Marked(b)
      ensures Indexed() && 0 <= b.index < |blocks| && blocks[b.index] == b
      ensures forall k :: 0 < k < |blocks| ==> blocks[k].prev == blocks[k - 1]
    {
    }

    twostate lemma CutSpine(b: Block)
      requires old(Marked(b)) && lastBlock == b && blocks == old(blocks)[..b.index + 1]
      requires blockList == old(blockList) && mems == old(mems)
      requires forall k :: 0 <= k < |blocks| ==>
                 blocks[k].next == old(blocks[k].next) && blocks[k].prev == old(blocks[k].prev)
      ensures Spine()
    {
      assert forall k :: 0 <= k < |blocks| ==> blocks[k] == old(blocks)[k];
    }

    twostate lemma CutStores(b: Block)
      requires old(Indexed() && Stores()) && Indexed() && 0 <= b.index < |old(blocks)| && old(blocks)[b.index] == b
      requires blocks == old(blocks)[..b.index + 1] && b.memory[..] == old(b.memory[..])
      requires 0 <= b.occupied <= 512 && 512 * b.index <= |old(content)|
      requires content == old(content)[..512 * b.index] + b.memory[..b.occupied]
      requires forall k, j :: 0 <= k < |blocks| && 0 <= j < 512 ==> blocks[k].memory[j] == old(blocks[k].memory[j])
      ensures Stores()
    {
      forall k, j | 0 <= k < |blocks| && 0 <= j < 512 && 512 * k + j < |content|
        ensures content[512 * k + j] == blocks[k].memory[j]
      {
        if k < b.index {
          assert old(content)[512 * k + j] == old(blocks)[k].memory[j];
        }
      }
    }
  }

  class FileDesc {
    const file: File
    var index: int
    var currentBlock: Block
    var blockOffset: int
    const flags: bv32

    constructor (file: File, flags: bv32)
      ensures this.file == file && this.flags == flags
      ensures currentBlock == file.blockList && blockOffset == 0
    {
      this.file := file;
      this.index := 0;
      this.currentBlock := file.blockList;
      this.blockOffset := 0;
      this.flags := flags;
    }

    /** The byte position the block pointer and the offset stand for. */
    ghost function Pos(): int
      reads `currentBlock, `blockOffset
    {
      512 * currentBlock.index + blockOffset
    }

    /** The descriptor stands in a block of its file. */
    ghost predicate OnBlock()
      reads `currentBlock, `blockOffset, file`blocks
    {
      && 0 <= currentBlock.index < |file.blocks| && file.blocks[currentBlock.index] == currentBlock
      && 0 <= blockOffset < 512
    }

    ghost predicate On()
      reads `currentBlock, `blockOffset, file`blocks, file`content
    {
      OnBlock() && Pos() <= |file.content|
    }

    /** One buffer cell changed, and `occupied` with it when that cell extends the file. */
    twostate lemma ByteStored()
      requires old(file.Valid() && On())
      requires currentBlock == old(currentBlock) && blockOffset == old(blockOffset)
      requires file.blocks == old(file.blocks) && file.mems == old(file.mems)
      requires file.blockList == old(file.blockList) && file.lastBlock == old(file.lastBlock)
      requires forall k :: 0 <= k < |file.blocks| ==>
                 && file.blocks[k].next == old(file.blocks[k].next) && file.blocks[k].prev == old(file.blocks[k].prev)
                 && (k != |file.blocks| - 1 ==> file.blocks[k].occupied == old(file.blocks[k].occupied))
      requires file.lastBlock.occupied == old(file.lastBlock.occupied) + if Pos() == old(|file.content|) then 1 else 0
      requires forall k, j ::
                 0 <= k < |file.blocks| && 0 <= j < 512 && (k != currentBlock.index || j != blockOffset) ==>
                 file.blocks[k].memory[j] == old(file.blocks[k].memory[j])
      requires file.content == PutAt(old(file.content), Pos(), currentBlock.memory[blockOffset])
      ensures file.Chain()
    {
    }

    method WriteSingleByte(b: byte)
      requires file.Valid() && On()
      modifies currentBlock`occupied, currentBlock.memory, file`content
      ensures file.Chain() && On() && ReadyToStep()
      ensures file.content == PutAt(old(file.content), Pos(), b)
    {
      currentBlock.memory[blockOffset] := b;
      if file.lastBlock == currentBlock && blockOffset == file.lastBlock.occupied {
        file.lastBlock.occupied := file.lastBlock.occupied + 1;
      }
      file.content := PutAt(file.content, Pos(), b);
      ByteStored();
    }

    /** Whether the next step leads behind the last block; only then does it change the file. */
    ghost predicate AtEdge()
      reads `currentBlock, `blockOffset, file`lastBlock
    {
      currentBlock == file.lastBlock && blockOffset == 512 - 1
    }

    /** A file that has room is only ever full while its last byte has just been written. */
    ghost predicate ReadyToStep()
      reads `currentBlock, `blockOffset, file`lastBlock, file`roomy, file.lastBlock`occupied
    {
      file.roomy && file.lastBlock.occupied >= 512 ==> AtEdge()
    }

    ghost function Edge(): set<File>
      reads `currentBlock, `blockOffset, file`lastBlock
    {
      if AtEdge() then {file} else {}
    }

    ghost function EdgeBlock(): set<Block>
      reads `currentBlock, `blockOffset, file`lastBlock
    {
      if AtEdge() then {file.lastBlock} else {}
    }

    lemma AtStart()
      requires file.Valid() && currentBlock == file.blockList && blockOffset == 0
      ensures On() && Pos() == 0
    {
      hide File.Stores;
    }

    lemma OnRange()
      requires On()
      ensures 0 <= Pos() <= |file.content|
      ensures Pos() == currentBlock.index * BLOCK_SIZE + blockOffset
    {
    }

    /** One step forward, on any chain; a canonical one stays canonical. */
    method AdvanceDescriptor()
      requires file.Spine() && OnBlock()
      modifies this`currentBlock, this`blockOffset
      modifies Edge()`blocks, Edge()`mems, Edge()`lastBlock, EdgeBlock()`next
      ensures file.Spine() && OnBlock() && Pos() == old(Pos()) + 1
      ensures if old(AtEdge()) then |file.blocks| == |old(file.blocks)| + 1 && file.lastBlock.occupied == 0
              else file.blocks == old(file.blocks) && file.lastBlock == old(file.lastBlock)
      ensures old(file.blocks) <= file.blocks
      ensures forall k :: 0 <= k < |file.blocks| ==> file.blocks[k] in old(file.blocks) || fresh(file.blocks[k])
      ensures forall o: object :: o in file.mems ==> o in old(file.mems) || fresh(o)
      ensures old(file.Chain() && ReadyToStep() && Pos() < |file.content|) ==> file.Valid() && On()
    {
      hide File.Chain;
      ghost var f, n := file, currentBlock.index;
      if AtEdge() && file.Chain() && Pos() < |file.content| { EdgeIsFull(); }
      assert currentBlock.next == if n < |f.blocks| - 1 then f.blocks[n + 1] else null;
      assert n < |f.blocks| - 1 ==> f.blocks[n + 1].index == n + 1;
      blockOffset := blockOffset + 1;
      if blockOffset == BLOCK_SIZE {
        var nextBlock := currentBlock.next;
        if nextBlock == null {
          nextBlock := file.AppendBlock();
        }
        currentBlock := nextBlock;
        blockOffset := 0;
      }
    }

    lemma EdgeIsFull()
      requires OnBlock() && AtEdge() && file.Chain() && Pos() < |file.content|
      ensures file.lastBlock.occupied == 512
    {
    }

    /** One turn of the write loop. */
    method PutByte(b: byte)
      requires file.Valid() && On()
      modifies this`currentBlock, this`blockOffset
      modifies file`blocks, file`mems, file`lastBlock, file`content, file.blocks, file.mems
      ensures file.Valid() && On() && Pos() == old(Pos()) + 1
      ensures 0 <= old(Pos()) <= |old(file.content)|
      ensures file.content == PutAt(old(file.content), old(Pos()), b)
      ensures old(file.blocks) <= file.blocks
      ensures forall k :: 0 <= k < |file.blocks| ==> file.blocks[k] in old(file.blocks) || fresh(file.blocks[k])
      ensures forall o: object :: o in file.mems ==> o in old(file.mems) || fresh(o)
    {
      hide File.Counted, File.Stores;
      WriteSingleByte(b);
      AdvanceDescriptor();
    }

    /** The loop of a write. */
    method WriteBytes(buf: seq<byte>)
      requires file.Valid() && On()
      modifies this`currentBlock, this`blockOffset
      modifies file`blocks, file`mems, file`lastBlock, file`content, file.blocks, file.mems
      ensures file.Valid() && On() && Pos() == old(Pos()) + |buf|
      ensures 0 <= old(Pos()) <= |old(file.content)|
      ensures file.content == Overwrite(old(file.content), old(Pos()), buf)
      ensures old(file.blocks) <= file.blocks
      ensures forall k :: 0 <= k < |file.blocks| ==> file.blocks[k] in old(file.blocks) || fresh(file.blocks[k])
      ensures forall o: object :: o in file.mems ==> o in old(file.mems) || fresh(o)
    {
      hide File.Valid, On, Pos;
      OnRange();
      ghost var p, was := Pos(), file.content;
      for i := 0 to |buf|
        invariant file.Valid() && On() && Pos() == p + i
        invariant file.content == Overwrite(was, p, buf[..i])
        invariant old(file.blocks) <= file.blocks
        invariant forall k :: 0 <= k < |file.blocks| ==> file.blocks[k] in old(file.blocks) || fresh(file.blocks[k])
        invariant forall o: object :: o in file.mems ==> o in old(file.mems) || fresh(o)
      {
        OverwriteExtend(was, p, buf[..i], buf[i]);
        assert buf[..i + 1] == buf[..i] + [buf[i]];
        PutByte(buf[i]);
      }
      assert buf[..|buf|] == buf;
    }

    /** The number of steps from here that lead behind the last block for the first time. */
    ghost function ToEdge(): int
      reads `currentBlock, `blockOffset, file`blocks
    {
      512 * |file.blocks| - Pos()
    }

    /** The loop of a read, on any chain. */
    method ReadBytes(count: nat) returns (bytes: seq<byte>)
      requires file.Spine() && OnBlock()
      modifies this`currentBlock, this`blockOffset
      modifies file`blocks, file`mems, file`lastBlock, file.blocks`next
      ensures file.Spine() && OnBlock() && Pos() == old(Pos()) + count && |bytes| == count
      ensures if count < old(ToEdge()) then file.blocks == old(file.blocks) && file.lastBlock == old(file.lastBlock)
              else |file.blocks| == Pos() / 512 + 1 && file.lastBlock.occupied == 0
      ensures old(file.blocks) <= file.blocks
      ensures forall k :: 0 <= k < |file.blocks| ==> file.blocks[k] in old(file.blocks) || fresh(file.blocks[k])
      ensures forall o: object :: o in file.mems ==> o in old(file.mems) || fresh(o)
      ensures old(file.Valid() && On() && Pos() + count <= |file.content|) ==>
                file.Valid() && On() && 0 <= old(Pos()) && bytes == file.content[old(Pos())..Pos()]
    {
      hide File.Spine, File.Chain, File.Valid, ReadyToStep, AtEdge, OnBlock;
      bytes := [];
      ghost var p, good := Pos(), file.Valid() && On() && Pos() + count <= |file.content|;
      ghost var blocks := file.blocks;
      Edges();
      for i := 0 to count
        invariant file.Spine() && OnBlock() && Pos() == p + i && |bytes| == i
        invariant if p + i < 512 * |blocks| then file.blocks == blocks && file.lastBlock == old(file.lastBlock)
                  else |file.blocks| == Pos() / 512 + 1 && file.lastBlock.occupied == 0
        invariant blocks <= file.blocks
        invariant forall k :: 0 <= k < |file.blocks| ==> file.blocks[k] in blocks || fresh(file.blocks[k])
        invariant forall o: object :: o in file.mems ==> o in old(file.mems) || fresh(o)
        invariant good ==> file.Valid() && On() && 0 <= p && bytes == file.content[p..p + i]
      {
        Edges();
        if good { ByteHere(p); }
        bytes := bytes + [currentBlock.memory[blockOffset]];
        AdvanceDescriptor();
      }
    }

    lemma Edges()
      requires file.Spine() && OnBlock()
      ensures currentBlock.memory.Length == 512 && 0 <= Pos() < 512 * |file.blocks|
      ensures 0 <= blockOffset < 512 && file.lastBlock in file.blocks
      ensures AtEdge() <==> Pos() == 512 * |file.blocks| - 1
    {
    }

    /** The byte at the descriptor is the next one of what is read from `p` on. */
    lemma ByteHere(p: nat)
      requires file.Valid() && On() && p <= Pos() < |file.content|
      ensures currentBlock.memory.Length == 512 && file.Chain() && ReadyToStep()
      ensures file.content[p..Pos()] + [currentBlock.memory[blockOffset]] == file.content[p..Pos() + 1]
    {
    }

    /** read_via_descriptor, on any chain: the code is negative when the descriptor stands behind the computed size. */
    method ReadViaDescriptor(size: nat) returns (code: int, bytes: seq<byte>)
      requires file.Spine() && OnBlock()
      modifies this`currentBlock, this`blockOffset
      modifies file`blocks, file`mems, file`lastBlock, file.blocks`next
      ensures code == Min(size, old(file.Size() - Pos()))
      ensures file.Spine() && OnBlock() && |bytes| == (if code > 0 then code else 0) && Pos() == old(Pos()) + |bytes|
      ensures if |bytes| < old(ToEdge()) then file.blocks == old(file.blocks) && file.lastBlock == old(file.lastBlock)
              else |file.blocks| == Pos() / 512 + 1 && file.lastBlock.occupied == 0
      ensures old(file.blocks) <= file.blocks
      ensures forall k :: 0 <= k < |file.blocks| ==> file.blocks[k] in old(file.blocks) || fresh(file.blocks[k])
      ensures forall o: object :: o in file.mems ==> o in old(file.mems) || fresh(o)
      ensures old(file.Valid() && On()) ==>
                && file.Valid() && On() && code == |bytes| == Min(size, |file.content| - old(Pos()))
                && 0 <= old(Pos()) && bytes == file.content[old(Pos())..Pos()]
    {
      hide File.Spine, File.Stores, File.Valid, On;
      Sized();
      var currentSize := currentBlock.index * BLOCK_SIZE + blockOffset;
      var fileSizeTotal := file.lastBlock.index * BLOCK_SIZE + file.lastBlock.occupied;
      var bytesLeftToRead := fileSizeTotal - currentSize;
      code := if size > bytesLeftToRead then bytesLeftToRead else size;
      bytes := ReadBytes(if code > 0 then code else 0);
    }

    lemma Chained()
      requires file.Valid() && On()
      ensures file.Spine() && OnBlock() && file.lastBlock.index == |file.blocks| - 1
    {
    }

    lemma Sized()
      ensures file.Valid() && On() ==> file.Size() == |file.content| && Pos() <= |file.content|
      ensures file.Valid() && On() ==> 0 <= Pos()
    {
    }

    /**
      Two reads on a chain whose last block claims more than it holds. When the first one goes behind the blocks there
      are, the computed size becomes the position rounded down to a whole block. It stays what it was only if that read
      took all that was claimed, and that was a whole number of blocks.
     */
    method ReadBehind(count: nat, size: nat) returns (first: int, second: int)
      requires file.Spine() && OnBlock() && ToEdge() <= count <= file.Size() - Pos()
      modifies this`currentBlock, this`blockOffset
      modifies file`blocks, file`mems, file`lastBlock, file.blocks`next
      ensures first == count && second == -(old(Pos() + count) % 512)
      ensures file.Size() == old(Pos()) + count - old(Pos() + count) % 512
      ensures file.Size() == old(file.Size()) <==> old(Pos()) + count == old(file.Size()) && old(file.Size()) % 512 == 0
    {
      hide OnBlock;
      Edges();
      ghost var p := Pos();
      var bytes;
      first, bytes := ReadViaDescriptor(count);
      LastIndex();
      assert file.Size() == 512 * ((p + count) / 512);
      second, bytes := ReadViaDescriptor(size);
    }

    lemma LastIndex()
      requires file.Spine()
      ensures file.lastBlock.index == |file.blocks| - 1
    {
    }

    /** A repaired descriptor stands where it stood, or at the new end if it stood behind it. */
    twostate lemma RepairedOn(b: Block)
      requires old(On()) && 0 <= b.index < |old(file.blocks)| && b == old(file.blocks)[b.index]
      requires file.blocks == old(file.blocks)[..b.index + 1]
      requires 0 <= |file.content| - 512 * b.index < 512 ||
               (b.index == |old(file.blocks)| - 1 && |file.content| == 512 * |file.blocks|)
      requires Repaired(b, |file.content| - 512 * b.index)
      ensures On() && Pos() == Min(old(Pos()), |file.content|)
    {
    }

    /** Where a resize puts this descriptor. */
    twostate predicate Repaired(b: Block, occupied: int)
      reads `currentBlock, `blockOffset
    {
      if old(currentBlock).index < b.index || (old(currentBlock).index == b.index && old(blockOffset) <= occupied) then
        currentBlock == old(currentBlock) && blockOffset == old(blockOffset)
      else
        currentBlock == b && blockOffset == occupied
    }
  }
}

/** The linked-block file system: the methods of `SuperBlock` and `File_system`, which share
    one disk image and one set of counters, as one class over those fields. */
module FileSystems {
  import opened Options
  import opened Blocks
  import opened Volumes
  import opened Steps
  import opened Deletion
  import opened Reading

  const SUPERBLOCK_SIZE := 56   // six ints, a vector and a pointer on a 64-bit machine
  const SIZE_DISK := 256

  class FileSystem {
    var disk: seq<byte>
    var initBlocks: int
    var totalBlocks: int
    var freeBlocks: int
    var usedBlocks: int
    var inodeCount: int
    var inodeTable: seq<Inode>
    ghost var layout: Layout

    ghost function Vol(): Volume
      reads this
    {
      Volume(disk, initBlocks, totalBlocks, freeBlocks, usedBlocks, inodeCount, inodeTable)
    }

    ghost predicate Valid()
      reads this
    {
      Inv(Vol(), layout)
    }

    ghost predicate Sound()
      reads this
    {
      Geometry(Vol()) && Accounting(Vol(), layout.owner)
    }

    ghost function Space(): Room
      reads this
    {
      Room(totalBlocks, freeBlocks)
    }

    method ExtendDisk(additionalBlocks: nat)
      requires Sound()
      requires totalBlocks + additionalBlocks <= MAX_BLOCKS
      modifies `disk, `totalBlocks, `freeBlocks
      ensures Sound()
      ensures totalBlocks == old(totalBlocks) + additionalBlocks
      ensures freeBlocks == old(freeBlocks) + additionalBlocks
      ensures disk == old(disk) + Zeros(additionalBlocks * BLOCK_SIZE)
      ensures forall b :: 0 <= b < old(totalBlocks) ==> Block(disk, b) == old(Block(disk, b))
    {
      ExtendBlocks(disk, additionalBlocks);
      disk := disk + Zeros(additionalBlocks * BLOCK_SIZE);
      totalBlocks := totalBlocks + additionalBlocks;
      freeBlocks := freeBlocks + additionalBlocks;
    }

    /** One pass over the blocks: claims the lowest-numbered free one, or returns -1. */
    method ClaimFirstFree() returns (b: int)
      requires Sound()
      modifies `disk, `freeBlocks, `usedBlocks, `layout
      ensures b == -1 ==> forall c :: 1 <= c < totalBlocks ==> c in layout.owner
      ensures b == -1 ==> Vol() == old(Vol()) && layout == old(layout)
      ensures b != -1 ==> old(freeBlocks) > 0
      ensures b != -1 ==> Claimed(old(Vol()), old(layout).owner, Vol(), b)
      ensures b != -1 ==> layout == old(layout).(owner := old(layout).owner[b := Orphan])
    {
      for i := initBlocks to totalBlocks
        invariant forall c :: 1 <= c < i ==> c in layout.owner
      {
        var use := disk[i * BLOCK_SIZE] != NUL;
        assert disk[i * BLOCK_SIZE] == Block(disk, i)[0];
        if !use {
          ClaimWithin(Vol(), layout.owner, i);
          disk := Splice(disk, i * BLOCK_SIZE, [USED]);
          usedBlocks := usedBlocks + 1;
          freeBlocks := freeBlocks - 1;
          layout := layout.(owner := layout.owner[i := Orphan]);
          return i;
        }
      }
      b := -1;
    }

    /** First fit: the lowest-numbered free block, growing the disk exactly when none is free. */
    method EmptyB() returns (b: int)
      requires Sound()
      requires Take(Space()).total <= MAX_BLOCKS
      modifies `disk, `totalBlocks, `freeBlocks, `usedBlocks, `layout
      ensures Claimed(old(Vol()), old(layout).owner, Vol(), b)
      ensures totalBlocks == old(totalBlocks) + if old(freeBlocks) == 0 then 64 else 0
      ensures layout == old(layout).(owner := old(layout).owner[b := Orphan])
    {
      ghost var v, owner := Vol(), layout.owner;
      FullExactlyWhenAllOwned(v, owner);
      while true
        invariant Sound() && layout == old(layout)
        invariant Vol() == v || Extended(v, Vol())
        decreases if freeBlocks == 0 then 1 else 0
      {
        ghost var u := Vol();
        b := ClaimFirstFree();
        if b != -1 {
          if u != v {
            ClaimAfterExtension(v, owner, u, Vol(), b);
          }
          return;
        }
        FullExactlyWhenAllOwned(Vol(), layout.owner);
        ExtendDisk(EXTENSION);
      }
    }

    /** seekp and write, behind the flag byte of a block in use. */
    method Put(b: int, off: nat, data: seq<byte>)
      requires Sound() && b in layout.owner && 1 <= off && off + |data| <= BLOCK_SIZE
      modifies `disk
      ensures disk == old(Splice(disk, b * BLOCK_SIZE + off, data))
      ensures Rewritten(old(Vol()), Vol(), layout.owner, b, Splice(Block(old(Vol()).disk, b), off, data))
    {
      ghost var v := Vol();
      disk := Splice(disk, b * BLOCK_SIZE + off, data);
      WriteOwned(v, Vol(), layout.owner, b, off, data);
    }

    /** find_inode_by_name: the first table entry whose file name, read as a C string, is `name`. */
    method FindInode(name: Name) returns (index: int)
      ensures -1 <= index < |inodeTable|
      ensures index == -1 ==> forall i :: 0 <= i < |inodeTable| ==> CString(inodeTable[i].filename) != name
      ensures index != -1 ==> CString(inodeTable[index].filename) == name
    {
      for i := 0 to |inodeTable|
        invariant forall j :: 0 <= j < i ==> CString(inodeTable[j].filename) != name
      {
        if CString(inodeTable[i].filename) == name {
          return i;
        }
      }
      return -1;
    }

    /** The writes of adIno_file once it has its block. */
    method RecordInode(name: Name, block: int, ghost v: Volume, ghost l: Layout)
      requires Inv(v, l) && IsName(name) && name !in l.files && v.inodeCount < INT_MAX
      requires Claimed(v, l.owner, Vol(), block)
      modifies `disk, `inodeTable, `inodeCount
      ensures Inv(Vol(), WithInode(l, name, block))
      ensures Added(v, l, Vol(), WithInode(l, name, block), name)
    {
      ghost var u := Vol();
      var t := NewInode(name, block);
      disk := Splice(disk, block * BLOCK_SIZE + 1, EncodeInode(t));
      AppendInode(t);
      inodeCount := inodeCount + 1;
      InodeStep(v, l, u, Vol(), name, block);
    }

    /** The new inode goes last in the table, and the one before it points to its block. */
    method AppendInode(t: Inode)
      modifies `inodeTable
      ensures inodeTable == Linked(old(inodeTable), t.origBlock) + [t]
      ensures LinkedUp(old(inodeTable)) && t.nextInode == 0 ==> LinkedUp(inodeTable)
    {
      if LinkedUp(inodeTable) && t.nextInode == 0 {
        AppendKeepsLinks(inodeTable, t);
      }
      if inodeTable != [] {
        inodeTable := inodeTable[|inodeTable| - 1 := inodeTable[|inodeTable| - 1].(nextInode := t.origBlock)];
      }
      inodeTable := inodeTable + [t];
    }

    /** adIno_file: -1 for a taken name; otherwise a new last inode, linked from the previous last. */
    method AdIno(name: Name) returns (result: int)
      requires Valid() && IsName(name)
      requires name !in layout.files ==> Take(Space()).total <= MAX_BLOCKS && inodeCount < INT_MAX
      modifies this
      ensures Valid()
      ensures result == if name in old(layout).files then -1 else 0
      ensures result == -1 ==> Vol() == old(Vol()) && layout == old(layout)
      ensures result == 0 ==> Added(old(Vol()), old(layout), Vol(), layout, name)
    {
      ghost var v, l := Vol(), layout;
      var found := FindInode(name);
      FoundExactlyWhenNamed(v, l, name, found);
      if found != -1 {
        return -1;
      }
      var block := EmptyB();
      RecordInode(name, block, v, l);
      layout := WithInode(l, name, block);
      return 0;
    }

    /** The first half of a turn of the writer's loop: fills `current` with the next piece of
        the text and claims the block after it if text is left. */
    method FillBlock(current: int, text: Text, position: int, remaining: int, ghost j: nat)
        returns (nextBlock: int, toWrite: int)
      requires Sound() && current in layout.owner
      requires position == j * PAYLOAD && 0 < remaining && position + remaining == |text|
      requires remaining > PAYLOAD ==> Take(Space()).total <= MAX_BLOCKS
      modifies `disk, `totalBlocks, `freeBlocks, `usedBlocks, `layout
      ensures toWrite == if remaining <= PAYLOAD then remaining else PAYLOAD
      ensures Filled(old(Vol()), old(layout).owner, Vol(), layout.owner, text, j, current, nextBlock)
      ensures layout == old(layout).(owner := layout.owner)
    {
      ghost var v, owner := Vol(), layout.owner;
      toWrite := if remaining <= PAYLOAD then remaining else PAYLOAD;
      var piece := text[position..position + toWrite];
      assert piece == Chunk(text, j);
      Put(current, 1, piece);
      ghost var t := Vol();
      nextBlock := 0;
      if remaining - toWrite > 0 {
        nextBlock := EmptyB();
        FilledAndClaimed(v, owner, t, Vol(), text, j, current, nextBlock);
      } else {
        FilledLast(v, owner, t, text, j, current);
      }
    }

    /** The second half: links `current` to the next block and counts it. */
    method LinkBlock(index: int, current: int, nextBlock: int)
      requires Sound() && current in layout.owner && IsInt(nextBlock) && 0 <= index < |inodeTable|
      modifies `disk, `inodeTable
      ensures Pointed(old(Vol()), Vol(), layout.owner, index, current, nextBlock)
    {
      Put(current, NEXT_AT, EncodeInt(nextBlock));
      inodeTable := inodeTable[index := inodeTable[index].(countBlock := inodeTable[index].countBlock + 1)];
    }

    /** One turn of the writer's loop. */
    method WriteChunk(index: int, current: int, text: Text, position: int, remaining: int, ghost j: nat)
        returns (nextBlock: int, toWrite: int)
      requires Sound() && current in layout.owner && 0 <= index < |inodeTable|
      requires position == j * PAYLOAD && 0 < remaining && position + remaining == |text|
      requires remaining > PAYLOAD ==> Take(Space()).total <= MAX_BLOCKS
      modifies this
      ensures toWrite == if remaining <= PAYLOAD then remaining else PAYLOAD
      ensures TurnResult(old(Vol()), old(layout).owner, Vol(), layout.owner, text, j, index, current, nextBlock)
      ensures layout == old(layout).(owner := layout.owner)
    {
      ghost var v, owner := Vol(), layout.owner;
      nextBlock, toWrite := FillBlock(current, text, position, remaining, j);
      ghost var u := Vol();
      LinkBlock(index, current, nextBlock);
      FilledThenPointed(v, owner, u, Vol(), layout.owner, text, j, index, current, nextBlock);
    }

    /** The beginning of wr_file: the first data block, and the inode's size and start. */
    method StartFile(index: int, text: Text) returns (current: int)
      requires Valid() && IsCString(text) && |text| <= INT_MAX && 0 <= index < |layout.order|
      requires layout.files[layout.order[index]].chain == [] && layout.files[layout.order[index]].text == []
      requires Take(Space()).total <= MAX_BLOCKS
      modifies this
      ensures WriterLoop(old(Vol()), old(layout), Vol(), layout, index, text, current, 0, |text|)
    {
      ghost var v, l := Vol(), layout;
      current := EmptyB();
      ghost var u := Vol();
      inodeTable := inodeTable[index := inodeTable[index].(size := |text|, startBlock := current, countBlock := 0)];
      FirstBlockWriting(v, l, u, Vol(), index, current, text);
      FirstBlockProgress(v, l, u, Vol(), l.order[index], current, text);
      layout := Started(l, l.order[index], current, text);
    }

    /** A turn of the writer's loop, keeping its invariant: the block just linked joins the chain. */
    method WriteTurn(index: int, current: int, text: Text, position: int, remaining: int, ghost v: Volume, ghost l: Layout)
        returns (nextBlock: int, toWrite: int)
      requires 0 <= index && WriterLoop(v, l, Vol(), layout, index, text, current, position, remaining)
      requires remaining > 0 && Geometry(v) && Accounting(v, l.owner) && 0 <= v.freeBlocks
      requires TakeMany(RoomOf(v), ClaimsFor(text)).total <= MAX_BLOCKS
      modifies this
      ensures toWrite == if remaining <= PAYLOAD then remaining else PAYLOAD
      ensures WriterLoop(v, l, Vol(), layout, index, text, nextBlock, position + toWrite, remaining - toWrite)
    {
      ghost var u, m := Vol(), layout;
      WriterLoopReady(v, l, u, m, index, text, current, position, remaining);
      nextBlock, toWrite := WriteChunk(index, current, text, position, remaining, |m.files[m.order[index]].chain|);
      ghost var w, owner := Vol(), layout.owner;
      layout := Adopted(m.(owner := owner), m.order[index], current);
      assert Vol() == w;
      WriterLoopStep(v, l, u, m, w, layout, owner, index, text, current, position, remaining, nextBlock, toWrite);
    }

    /** wr_file, called on the inode AdIno has just made. */
    method WrFile(name: Name, text: Text) returns (result: int)
      requires Valid() && IsCString(text) && |text| <= INT_MAX
      requires name in layout.files ==>
                 && layout.files[name].chain == [] && layout.files[name].text == []
                 && TakeMany(Space(), ClaimsFor(text)).total <= MAX_BLOCKS
      modifies this
      ensures Valid()
      ensures result == if name in old(layout).files then 0 else -1
      ensures result == -1 ==> Vol() == old(Vol()) && layout == old(layout)
      ensures result == 0 ==> Written(old(Vol()), old(layout), Vol(), layout, name, text)
    {
      ghost var v, l := Vol(), layout;
      var index := FindInode(name);
      FoundExactlyWhenNamed(v, l, name, index);
      if index == -1 {
        return -1;
      }
      FullExactlyWhenAllOwned(v, l.owner);
      TakeManyMonotone(RoomOf(v), 1, ClaimsFor(text));
      var position, remaining := 0, |text|;
      var current := StartFile(index, text);
      while remaining > 0
        invariant WriterLoop(v, l, Vol(), layout, index, text, current, position, remaining)
        decreases remaining
      {
        var nextBlock, toWrite := WriteTurn(index, current, text, position, remaining, v, l);
        position, remaining, current := position + toWrite, remaining - toWrite, nextBlock;
      }
      WriterLoopDone(v, l, Vol(), layout, index, text, current, position);
      return 0;
    }

    /** ad_file: the inode, then the text. */
    method AdFile(name: Name, text: Text) returns (result: int)
      requires Valid() && IsName(name) && IsCString(text) && |text| <= INT_MAX
      requires name !in layout.files ==>
                 inodeCount < INT_MAX && TakeMany(Space(), 1 + ClaimsFor(text)).total <= MAX_BLOCKS
      modifies this
      ensures Valid()
      ensures result == if name in old(layout).files then -1 else 0
      ensures result == -1 ==> Vol() == old(Vol()) && layout == old(layout)
      ensures result == 0 ==> Made(old(Vol()), old(layout), Vol(), layout, name, text)
    {
      ghost var v, l := Vol(), layout;
      RoomForBoth(v, l, text);
      result := AdIno(name);
      if result != 0 {
        return;
      }
      ghost var u, m := Vol(), layout;
      result := WrFile(name, text);
      MadeInTwo(v, l, u, m, Vol(), layout, name, text);
    }

    /** rd_file's loop. */
    method ReadBlocks(start: int, totalSize: int) returns (r: Option<seq<byte>>)
      requires |disk| % BLOCK_SIZE == 0 && totalSize > 0
      ensures r == ReadChain(disk, start, totalSize)
    {
      var buffer, remaining, current := [], totalSize, start;
      PrependNothing(ReadChain(disk, start, totalSize));
      while true
        invariant 0 < remaining
        invariant ReadChain(disk, start, totalSize) == Prepend(buffer, ReadChain(disk, current, remaining))
        decreases remaining
      {
        var toRead := if remaining < PAYLOAD then remaining else PAYLOAD;
        var from := current * BLOCK_SIZE + 1;
        if current < 0 || |disk| < from + toRead {
          return None;
        }
        ReadInBlock(disk, current, 1, toRead);
        ReadInBlock(disk, current, NEXT_AT, 4);
        buffer := buffer + disk[from..from + toRead];
        var nextBlock := DecodeInt(disk[from + PAYLOAD..from + PAYLOAD + 4]);
        remaining := remaining - toRead;
        if remaining == 0 {
          return Some(buffer);
        }
        if nextBlock <= 0 {
          return None;
        }
        PrependTwice(buffer[..|buffer| - toRead], Block(disk, current)[1..1 + toRead], ReadChain(disk, nextBlock, remaining));
        current := nextBlock;
      }
    }

    /** rd_file: null for an absent name and for an empty file, otherwise the whole text. */
    method RdFile(name: Name) returns (r: Option<Text>)
      requires Valid()
      ensures r == if name in layout.files && layout.files[name].text != [] then Some(layout.files[name].text) else None
    {
      var index := FindInode(name);
      FoundFile(Vol(), layout, name, index);
      if index == -1 {
        return None;
      }
      var totalSize := inodeTable[index].size;
      var currentBlock := inodeTable[index].startBlock;
      if currentBlock < 0 || totalSize <= 0 {
        return None;
      }
      r := ReadBlocks(currentBlock, totalSize);
    }

    /** clear_block: zeroes a block and returns the pointer it held. */
    method ClearBlock(b: int) returns (next: int)
      requires InDisk(disk, b)
      modifies `disk
      ensures next == Next(old(disk), b)
      ensures disk == Splice(old(disk), b * BLOCK_SIZE, Zeros(BLOCK_SIZE))
    {
      ReadInBlock(disk, b, NEXT_AT, 4);
      next := DecodeInt(disk[b * BLOCK_SIZE + NEXT_AT..b * BLOCK_SIZE + NEXT_AT + 4]);
      disk := Splice(disk, b * BLOCK_SIZE, Zeros(BLOCK_SIZE));
    }

    /** One turn of rm_file's loop. */
    method FreeNext(currentBlock: int, ghost v: Volume, ghost l: Layout, ghost owner: map<int, Owner>, ghost k: nat, ghost i: int)
        returns (next: int)
      requires Inv(v, l) && k < |l.order| && i < |l.files[l.order[k]].chain| && InDisk(disk, currentBlock)
      requires Deleting(v, l, Vol(), owner, l.order[k], i, currentBlock)
      modifies `disk, `usedBlocks, `freeBlocks
      ensures Deleting(v, l, Vol(), owner - {currentBlock}, l.order[k], i + 1, next)
    {
      ghost var u := Vol();
      next := ClearBlock(currentBlock);
      usedBlocks := usedBlocks - 1;
      freeBlocks := freeBlocks + 1;
      DeletingStep(v, l, u, owner, Vol(), l.order[k], i, currentBlock);
    }

    /** rm_file's loop: frees the chain of the k-th file. */
    method FreeChain(startBlock: int, blockToRM: int, ghost k: nat) returns (ghost owner: map<int, Owner>, ghost current: int)
      requires Valid() && k < |layout.order|
      requires startBlock == layout.files[layout.order[k]].startBlock
      requires blockToRM == |layout.files[layout.order[k]].chain|
      modifies `disk, `usedBlocks, `freeBlocks
      ensures Deleting(old(Vol()), layout, Vol(), owner, layout.order[k], blockToRM, current)
    {
      ghost var v, l, name := Vol(), layout, layout.order[k];
      DeletingStarts(v, l, name);
      var currentBlock := startBlock;
      owner := l.owner;
      for i := 0 to blockToRM
        invariant Deleting(v, l, Vol(), owner, name, i, currentBlock)
      {
        DeletingReady(v, l, Vol(), owner, k, i, currentBlock);
        var next := FreeNext(currentBlock, v, l, owner, k, i);
        owner := owner - {currentBlock};
        currentBlock := next;
      }
      current := currentBlock;
    }

    /** rm_file's relinking of the previous inode. */
    method RelinkInode(tableIndex: int)
      requires 0 <= tableIndex < |inodeTable|
      modifies `inodeTable
      ensures inodeTable == Relinked(old(inodeTable), tableIndex)
      ensures LinkedUp(old(inodeTable)) ==> LinkedUp(inodeTable[..tableIndex] + inodeTable[tableIndex + 1..])
    {
      if LinkedUp(inodeTable) {
        RemovalKeepsLinks(inodeTable, tableIndex);
      }
      if tableIndex != 0 {
        if tableIndex == |inodeTable| - 1 {
          inodeTable := inodeTable[tableIndex - 1 := inodeTable[tableIndex - 1].(nextInode := 0)];
        } else {
          inodeTable := inodeTable[tableIndex - 1 :=
            inodeTable[tableIndex - 1].(nextInode := inodeTable[tableIndex + 1].origBlock)];
        }
      }
    }

    /** The end of rm_file: relinks the inodes, frees the inode's block and drops the entry. */
    method DropInode(tableIndex: int)
      requires 0 <= tableIndex < |inodeTable| && InDisk(disk, inodeTable[tableIndex].origBlock)
      modifies `disk, `usedBlocks, `freeBlocks, `inodeTable
      ensures Vol() == old(Vol()).(
                disk := Splice(old(disk), old(inodeTable)[tableIndex].origBlock * BLOCK_SIZE, Zeros(BLOCK_SIZE)),
                usedBlocks := old(usedBlocks) - 1, freeBlocks := old(freeBlocks) + 1,
                table := Unlinked(old(inodeTable), tableIndex))
    {
      var origBlock := inodeTable[tableIndex].origBlock;
      RelinkInode(tableIndex);
      var _ := ClearBlock(origBlock);
      usedBlocks := usedBlocks - 1;
      freeBlocks := freeBlocks + 1;
      inodeTable := inodeTable[..tableIndex] + inodeTable[tableIndex + 1..];
    }

    /** The end of the removal of the k-th file. */
    method FinishRemoval(tableIndex: nat, ghost v: Volume, ghost l: Layout, ghost owner: map<int, Owner>, ghost current: int)
      requires Inv(v, l) && tableIndex < |l.order|
      requires Deleting(v, l, Vol(), owner, l.order[tableIndex], |l.files[l.order[tableIndex]].chain|, current)
      modifies `disk, `usedBlocks, `freeBlocks, `inodeTable
      ensures Inv(Vol(), Without(l, tableIndex)) && Deleted(v, l, Vol(), Without(l, tableIndex), tableIndex)
    {
      ghost var u := Vol();
      DeletingReady(v, l, u, owner, tableIndex, |l.files[l.order[tableIndex]].chain|, current);
      DropInode(tableIndex);
      DeletingDone(v, l, u, owner, Vol(), tableIndex, current);
    }

    /** rm_file after the lookup. */
    method RemoveFile(tableIndex: int)
      requires Valid() && 0 <= tableIndex < |layout.order|
      modifies this
      ensures Valid() && Deleted(old(Vol()), old(layout), Vol(), layout, tableIndex)
    {
      ghost var v, l := Vol(), layout;
      InodeOfFile(v, l, tableIndex);
      ghost var owner, current;
      owner, current := FreeChain(inodeTable[tableIndex].startBlock, inodeTable[tableIndex].countBlock, tableIndex);
      FinishRemoval(tableIndex, v, l, owner, current);
      layout := Without(l, tableIndex);
    }

    /** rm_file: -1 for an absent name; otherwise frees the chain and the inode. */
    method RmFile(name: Name) returns (result: int)
      requires Valid()
      modifies this
      ensures Valid()
      ensures result == if name in old(layout).files then 0 else -1
      ensures result == -1 ==> Vol() == old(Vol()) && layout == old(layout)
      ensures result == 0 ==> DeletedName(old(Vol()), old(layout), Vol(), layout, name)
    {
      ghost var v, l := Vol(), layout;
      var tableIndex := FindInode(name);
      FoundExactlyWhenNamed(v, l, name, tableIndex);
      if tableIndex == -1 {
        return -1;
      }
      RemoveFile(tableIndex);
      return 0;
    }

    /** save_Bs: the header into block 0, then every inode into its block. */
    method SaveBs()
      requires Valid()
      modifies `disk
      ensures Valid() && Persistent(Vol(), layout)
      ensures SavedFrom(old(Vol()), layout, Vol())
    {
      ghost var v := Vol();
      disk := Splice(disk, 0, Header(Volume(disk, initBlocks, totalBlocks, freeBlocks, usedBlocks, inodeCount, inodeTable)));
      HeaderWritten(v, layout, Vol());
      for k := 0 to |inodeTable|
        invariant SavedUpTo(v, layout, Vol(), k)
      {
        SaveInode(k, v);
      }
      SaveDone(v, layout, Vol());
    }

    method SaveInode(k: int, ghost v: Volume)
      requires 0 <= k < |inodeTable| && SavedUpTo(v, layout, Vol(), k)
      modifies `disk
      ensures SavedUpTo(v, layout, Vol(), k + 1)
    {
      ghost var u := Vol();
      InodeBlock(u, layout, k);
      Put(inodeTable[k].origBlock, 1, EncodeInode(inodeTable[k]));
      SavedOneMore(v, layout, u, Vol(), k, Block(u.disk, u.table[k].origBlock));
    }

    /** The constructor over a disk image: the initial counters for a fresh disk, otherwise the
        saved header and the inode list, followed through nextInode. */
    constructor (image: seq<byte>, ghost v: Volume, ghost l: Layout)
      requires Openable(v, l) && image == v.disk
      ensures Vol() == v && layout == l && Valid()
    {
      disk := image;
      initBlocks, totalBlocks, freeBlocks, usedBlocks, inodeCount, inodeTable := 0, 0, 0, 0, 0, [];
      layout := l;
      new;
      LoadHeader(v, l);
      if inodeCount > 0 {
        PersistentList(v, l);
        inodeTable := LoadInodes(v.table);
      }
    }

    /** The constructor's two cases for the counters. */
    method LoadHeader(ghost v: Volume, ghost l: Layout)
      requires Openable(v, l) && disk == v.disk && usedBlocks == 0 && inodeCount == 0 && inodeTable == []
      modifies this
      ensures Vol() == v.(table := []) && layout == old(layout) && Inv(v, l)
      ensures inodeCount > 0 ==> Persistent(v, l) && DecodeInt(disk[20..24]) == NextInTable(v.table, 0)
      ensures inodeCount == 0 ==> v.table == []
    {
      if Fresh(v) && l == EmptyLayout() {
        FreshIsSound(v);
      } else {
        SavedHeader(v, l);
      }
      initBlocks := DecodeInt(disk[0..4]);
      if initBlocks != 0 {
        totalBlocks := DecodeInt(disk[4..8]);
        freeBlocks := DecodeInt(disk[8..12]);
        usedBlocks := DecodeInt(disk[12..16]);
        inodeCount := DecodeInt(disk[16..20]);
      } else {
        initBlocks := SUPERBLOCK_SIZE / BLOCK_SIZE + 1;
        totalBlocks := SIZE_DISK / BLOCK_SIZE;
        freeBlocks := totalBlocks - initBlocks;
      }
    }

    /** The reload walk: from the header's first inode through nextInode to 0. */
    method LoadInodes(ghost saved: seq<Inode>) returns (table: seq<Inode>)
      requires HEADER_SIZE <= |disk| && DecodeInt(disk[20..24]) == NextInTable(saved, 0)
      requires InodeList(disk, saved)
      ensures table == saved
    {
      var current := DecodeInt(disk[20..24]);
      table := [];
      while current != 0
        invariant |table| <= |saved| && table == saved[..|table|]
        invariant current == NextInTable(saved, |table|)
        decreases |saved| - |table|
      {
        var at := current * BLOCK_SIZE + 1;
        ghost var next := NextInTable(saved, |table| + 1);
        assert saved[|table|].origBlock == current && saved[|table|].nextInode == next;
        ReadInBlock(disk, current, 1, INODE_SIZE);
        var t := DecodeInode(disk[at..at + INODE_SIZE]);
        table := table + [t];
        current := t.nextInode;
      }
      ListEnds(disk, saved, |table|);
    }
  }
}

/** The append-only figure store as the class `FileSystem` of the figure server: one session
    from initDisk on. */
module FigureDisks {
  import opened Options
  import opened Blocks
  import opened Figures

  /** Directory slots are full, so the next name needs a new directory block. */
  predicate Full(names: nat, dirs: nat) {
    names == dirs * DIR_ENTRIES
  }

  const NOT_FOUND: seq<byte> := "Figure not found.\n"

  class FigureDisk {
    var disk: seq<byte>
    var nextFreeBlock: int
    ghost var initial: nat
    ghost var dirs: seq<int>
    ghost var names: seq<Key>
    ghost var runs: seq<Run>
    ghost var owner: seq<Use>

    ghost function St(): Store
      reads this
    {
      Store(disk, nextFreeBlock, initial, dirs, names, runs, owner)
    }

    ghost predicate Valid()
      reads this
    {
      Sound(St())
    }

    /** initDisk: an empty directory chain. Without blocks there is no directory to walk, and the
        disk is left empty. */
    constructor InitDisk(numDirBlocks: int)
      requires 0 <= numDirBlocks <= MAX_BLOCKS
      ensures numDirBlocks > 0 ==> Valid() && nextFreeBlock == initial == numDirBlocks
      ensures numDirBlocks > 0 ==> names == [] && runs == [] && |dirs| == numDirBlocks
      ensures numDirBlocks == 0 ==> disk == [] && nextFreeBlock == 0
    {
      disk := [];
      nextFreeBlock := numDirBlocks;
      initial := numDirBlocks;
      dirs := seq(numDirBlocks, i => i);
      names, runs := [], [];
      owner := seq(numDirBlocks, i => DirUse(i));
      new;
      for i := 0 to numDirBlocks
        invariant |disk| == i * BLOCK_SIZE
        invariant St() == Store(disk, numDirBlocks, numDirBlocks, seq(numDirBlocks, i => i), [], [],
                                seq(numDirBlocks, i => DirUse(i)))
        invariant forall j :: 0 <= j < i ==> Block(disk, j) == InitialBlock(numDirBlocks, j)
      {
        AppendBlock(disk, i, InitialBlock(numDirBlocks, i));
        disk := disk + WithNext(Zeros(BLOCK_SIZE), if i == numDirBlocks - 1 then 0 else i + 1);
      }
      if numDirBlocks > 0 {
        InitialSound(St());
      }
    }

    method ReadBlock(blockNum: int) returns (buffer: seq<byte>)
      requires InDisk(disk, blockNum)
      ensures buffer == Block(disk, blockNum)
    {
      buffer := disk[blockNum * BLOCK_SIZE..(blockNum + 1) * BLOCK_SIZE];
    }

    method WriteBlock(blockNum: int, data: seq<byte>)
      requires InDisk(disk, blockNum) && |data| == BLOCK_SIZE
      modifies `disk
      ensures |disk| == |old(disk)| && Block(disk, blockNum) == data
      ensures forall b :: InDisk(disk, b) && b != blockNum ==> Block(disk, b) == Block(old(disk), b)
    {
      WriteInBlock(disk, blockNum, 0, data);
      assert Splice(Block(disk, blockNum), 0, data) == data;
      disk := Splice(disk, blockNum * BLOCK_SIZE, data);
    }

    method AllocateBlock() returns (b: int)
      requires 0 <= nextFreeBlock && |disk| == nextFreeBlock * BLOCK_SIZE
      modifies `disk, `nextFreeBlock
      ensures b == old(nextFreeBlock) && nextFreeBlock == b + 1
      ensures disk == old(disk) + Zeros(BLOCK_SIZE)
    {
      disk := disk + Zeros(BLOCK_SIZE);
      b := nextFreeBlock;
      nextFreeBlock := nextFreeBlock + 1;
    }

    /** allocateBlock followed by writeBlock of the same block: the disk grows by that data. */
    method AppendData(data: seq<byte>) returns (b: int)
      requires 0 <= nextFreeBlock && |disk| == nextFreeBlock * BLOCK_SIZE && |data| == BLOCK_SIZE
      modifies `disk, `nextFreeBlock
      ensures b == old(nextFreeBlock) && nextFreeBlock == b + 1
      ensures disk == old(disk) + data
    {
      ghost var before := disk;
      b := AllocateBlock();
      AppendBlock(before, b, Zeros(BLOCK_SIZE));
      AppendBlock(before, b, data);
      WriteBlock(b, data);
      forall c | 0 <= c && (c + 1) * BLOCK_SIZE <= |disk| ensures Block(disk, c) == Block(before + data, c) {
        if c < b {
          assert InDisk(before, c);
        }
      }
      SameBlocksSameBytes(disk, before + data);
    }

    /** storeFigureData: the content goes into consecutive fresh blocks, as a new run. */
    method StoreFigureData(content: seq<byte>) returns (blocks: seq<int>)
      requires Valid() && content != [] && nextFreeBlock + DataBlocks(|content|) <= MAX_BLOCKS
      modifies `disk, `nextFreeBlock, `runs, `owner
      ensures Consistent(St()) && runs == old(runs) + [Run(old(nextFreeBlock), content)]
      ensures nextFreeBlock == old(nextFreeBlock) + DataBlocks(|content|)
      ensures blocks == seq(DataBlocks(|content|), j => old(nextFreeBlock) + j)
    {
      ghost var first, runs0 := nextFreeBlock, runs;
      var pos := 0;
      blocks := [];
      while pos < |content|
        invariant 0 <= pos <= |content| && (pos < |content| ==> pos % BLOCK_SIZE == 0)
        invariant blocks == seq(DataBlocks(pos), j => first + j)
        invariant nextFreeBlock == first + DataBlocks(pos)
        invariant Consistent(St())
        invariant runs == if pos == 0 then runs0 else runs0 + [Run(first, content[..pos])]
        invariant |names| == |runs0|
      {
        var chunkSize := if BLOCK_SIZE <= |content| - pos then BLOCK_SIZE else |content| - pos;
        pos := StoreChunk(content, pos, chunkSize, first, runs0);
        blocks := blocks + [nextFreeBlock - 1];
      }
      assert content[..pos] == content;
    }

    /** One block of storeFigureData. */
    method StoreChunk(content: seq<byte>, pos: int, chunkSize: int, ghost first: int, ghost runs0: seq<Run>) returns (after: int)
      requires Consistent(St()) && |names| == |runs0|
      requires 0 <= pos < |content| && pos % BLOCK_SIZE == 0
      requires chunkSize == if BLOCK_SIZE <= |content| - pos then BLOCK_SIZE else |content| - pos
      requires runs == if pos == 0 then runs0 else runs0 + [Run(first, content[..pos])]
      requires nextFreeBlock == first + DataBlocks(pos) && nextFreeBlock < MAX_BLOCKS
      modifies `disk, `nextFreeBlock, `runs, `owner
      ensures after == pos + chunkSize && Consistent(St())
      ensures nextFreeBlock == first + DataBlocks(after) == old(nextFreeBlock) + 1
      ensures runs == runs0 + [Run(first, content[..after])]
    {
      ghost var s := St();
      var piece := content[pos..pos + chunkSize];
      var _ := AppendData(piece + Zeros(BLOCK_SIZE - chunkSize));
      after := pos + chunkSize;
      assert content[..after] == content[..pos] + piece;
      owner := owner + [DataUse(|runs0|, DataBlocks(pos))];
      runs := runs0 + [Run(first, content[..pos] + piece)];
      RunGrown(s, St(), content[..pos], piece, first, runs0);
    }

    /** The scan of one directory block that figureExists and getFigureContent share: the first
        entry with this name, or DIR_ENTRIES. */
    static method ScanEntries(dir: seq<byte>, name: seq<byte>) returns (e: int)
      requires |dir| == BLOCK_SIZE
      ensures 0 <= e <= DIR_ENTRIES
      ensures e < DIR_ENTRIES ==> SameName(dir, e, name)
      ensures forall i :: 0 <= i < e ==> !SameName(dir, i, name)
    {
      for i := 0 to DIR_ENTRIES
        invariant forall j :: 0 <= j < i ==> !SameName(dir, j, name)
      {
        if SameName(dir, i, name) {
          return i;
        }
      }
      e := DIR_ENTRIES;
    }

    /** The directory walk: the first block and entry with this name. */
    method FindEntry(name: seq<byte>) returns (dir: seq<byte>, e: int, ghost k: int)
      requires Consistent(St())
      ensures |dir| == BLOCK_SIZE && 0 <= e <= DIR_ENTRIES
      ensures e < DIR_ENTRIES ==> HoldsKey(names, k, KeyOf(name)) && k < |dirs| * DIR_ENTRIES
      ensures e < DIR_ENTRIES ==> DataBlockOf(dir, e) == if k < |names| then runs[k].start else 0
      ensures e == DIR_ENTRIES ==> forall k' :: 0 <= k' < |dirs| * DIR_ENTRIES ==> !HoldsKey(names, k', KeyOf(name))
    {
      var blockNum := 0;
      ghost var i := 0;
      k := 0;
      while true
        invariant 0 <= i < |dirs| && blockNum == dirs[i]
        invariant forall k' :: 0 <= k' < i * DIR_ENTRIES ==> !HoldsKey(names, k', KeyOf(name))
        decreases |dirs| - i
      {
        DirWalk(St(), i);
        dir := ReadBlock(blockNum);
        e := ScanEntries(dir, name);
        forall e' | 0 <= e' < DIR_ENTRIES
          ensures SameName(dir, e', name) <==> HoldsKey(names, i * DIR_ENTRIES + e', KeyOf(name))
        {
          EntryMeans(St(), i, e', name);
        }
        if e < DIR_ENTRIES {
          EntryMeans(St(), i, e, name);
          k := i * DIR_ENTRIES + e;
          return;
        }
        forall k' | 0 <= k' < (i + 1) * DIR_ENTRIES ensures !HoldsKey(names, k', KeyOf(name)) {
          if k' >= i * DIR_ENTRIES {
            assert k' == i * DIR_ENTRIES + (k' - i * DIR_ENTRIES);
            assert !SameName(dir, k' - i * DIR_ENTRIES, name);
          }
        }
        if NextOfDir(dir) == 0 {
          return;
        }
        blockNum := NextOfDir(dir);
        i := i + 1;
      }
    }

    /** figureExists: true exactly for a stored name, and for the empty name while a slot is free. */
    method FigureExists(name: seq<byte>) returns (r: bool)
      requires Valid()
      ensures r <==> KeyOf(name) in names || (KeyOf(name) == [] && !Full(|names|, |dirs|))
    {
      var dir, e;
      ghost var k;
      dir, e, k := FindEntry(name);
      r := e < DIR_ENTRIES;
      if r {
        assert k < |names| ==> names[k] == KeyOf(name);
      } else {
        NotHeld(names, |dirs| * DIR_ENTRIES, KeyOf(name));
        assert !HoldsKey(names, |dirs| * DIR_ENTRIES - 1, KeyOf(name));
      }
    }

    /** The blocks of one run, read until one holds a NUL. */
    method ReadRunFrom(dataBlock: int) returns (r: Option<seq<byte>>)
      ensures r == ReadRun(disk, dataBlock)
    {
      var output, b := [], dataBlock;
      FollowNothing(ReadRun(disk, dataBlock));
      while true
        invariant ReadRun(disk, dataBlock) == Follow(output, ReadRun(disk, b))
        decreases |disk| - b * BLOCK_SIZE
      {
        if b < 0 || |disk| < (b + 1) * BLOCK_SIZE {
          return None;
        }
        var buffer := ReadBlock(b);
        var length := |CString(buffer)|;
        FollowTwice(output, buffer, ReadRun(disk, b + 1));
        output := output + buffer[..length];
        assert length == BLOCK_SIZE ==> buffer[..length] == buffer;
        if length < BLOCK_SIZE {
          return Some(output);
        }
        b := b + 1;
      }
    }

    /** getFigureContent: the run of a stored name, or the not-found text; the empty name matches
        the first empty slot, whose block number is 0. None stands for a loop that never ends. */
    method GetFigureContent(name: seq<byte>) returns (r: Option<seq<byte>>)
      requires Valid()
      ensures KeyOf(name) != [] && KeyOf(name) !in names ==> r == Some(NOT_FOUND)
      ensures forall k :: 0 <= k < |names| && names[k] == KeyOf(name) ==> r == ReadRun(disk, runs[k].start)
      ensures KeyOf(name) == [] ==> r == if Full(|names|, |dirs|) then Some(NOT_FOUND) else ReadRun(disk, 0)
    {
      var dir, e;
      ghost var k;
      dir, e, k := FindEntry(name);
      if e < DIR_ENTRIES {
        r := ReadRunFrom(DataBlockOf(dir, e));
        forall k' | 0 <= k' < |names| && names[k'] == KeyOf(name) ensures k' == k {
          assert k < |names| && names[k] == names[k'];
        }
      } else {
        NotHeld(names, |dirs| * DIR_ENTRIES, KeyOf(name));
        assert !HoldsKey(names, |dirs| * DIR_ENTRIES - 1, KeyOf(name));
        r := Some(NOT_FOUND);
      }
    }

    /** The first empty entry of one directory block, or DIR_ENTRIES. */
    static method EmptyEntry(dir: seq<byte>) returns (e: int)
      requires |dir| == BLOCK_SIZE
      ensures 0 <= e <= DIR_ENTRIES
      ensures e < DIR_ENTRIES ==> FieldOf(dir, e)[0] == NUL
      ensures forall i :: 0 <= i < e ==> FieldOf(dir, i)[0] != NUL
    {
      for i := 0 to DIR_ENTRIES
        invariant forall j :: 0 <= j < i ==> FieldOf(dir, j)[0] != NUL
      {
        if FieldOf(dir, i)[0] == NUL {
          return i;
        }
      }
      e := DIR_ENTRIES;
    }

    /** appendToDirectory: the entry goes into the first empty slot of the chain, or into a new
        block at its end. */
    method AppendToDirectory(name: seq<byte>, dataStartBlock: int) returns (blockNum: int)
      requires Consistent(St()) && |runs| == |names| + 1
      requires KeyOf(name) != [] && KeyOf(name) !in names && dataStartBlock == runs[|names|].start
      requires Full(|names|, |dirs|) ==> nextFreeBlock < MAX_BLOCKS
      modifies `disk, `nextFreeBlock, `dirs, `names, `owner
      ensures Valid() && names == old(names) + [KeyOf(name)]
      ensures Full(|old(names)|, |old(dirs)|) ==>
                dirs == old(dirs) + [old(nextFreeBlock)] && nextFreeBlock == old(nextFreeBlock) + 1
      ensures !Full(|old(names)|, |old(dirs)|) ==> dirs == old(dirs) && nextFreeBlock == old(nextFreeBlock)
    {
      ghost var s := St();
      assert RunBlock(s, |names|, 0) by {
        assert DataStored(disk, runs[|names|]);
      }
      blockNum := 0;
      ghost var i := 0;
      while true
        invariant 0 <= i < |dirs| && blockNum == dirs[i] && St() == s
        invariant i * DIR_ENTRIES <= |names|
        decreases |dirs| - i
      {
        DirWalk(s, i);
        var dir := ReadBlock(blockNum);
        var e := EmptyEntry(dir);
        forall e' | 0 <= e' < DIR_ENTRIES ensures FieldOf(dir, e')[0] == NUL <==> i * DIR_ENTRIES + e' >= |names| {
          EntryMeans(s, i, e', name);
        }
        if e < DIR_ENTRIES {
          assert e > 0 ==> FieldOf(dir, e - 1)[0] != NUL;
          WriteBlock(blockNum, WithEntry(dir, e, KeyOf(name), dataStartBlock));
          names := names + [KeyOf(name)];
          NamePlaced(s, St(), i, e, KeyOf(name));
          return;
        }
        assert FieldOf(dir, DIR_ENTRIES - 1)[0] != NUL;
        if NextOfDir(dir) == 0 {
          blockNum := ExtendChain(blockNum, dir, name, dataStartBlock);
          return;
        }
        blockNum := NextOfDir(dir);
        i := i + 1;
      }
    }

    /** A new directory block with this data, linked from the last one. */
    method LinkNewBlock(last: int, dir: seq<byte>, data: seq<byte>) returns (newBlock: int)
      requires 0 <= nextFreeBlock && |disk| == nextFreeBlock * BLOCK_SIZE
      requires InDisk(disk, last) && |dir| == |data| == BLOCK_SIZE
      modifies `disk, `nextFreeBlock
      ensures newBlock == old(nextFreeBlock) && nextFreeBlock == newBlock + 1 && |disk| == |old(disk)| + BLOCK_SIZE
      ensures Block(disk, last) == WithNext(dir, newBlock) && Block(disk, newBlock) == data
      ensures forall b :: InDisk(old(disk), b) && b != last ==> Block(disk, b) == Block(old(disk), b)
    {
      ghost var before := disk;
      newBlock := AllocateBlock();
      AppendBlock(before, newBlock, Zeros(BLOCK_SIZE));
      ghost var grown := disk;
      WriteBlock(last, WithNext(dir, newBlock));
      ghost var linked := disk;
      WriteBlock(newBlock, data);
      forall b | InDisk(before, b) && b != last ensures Block(disk, b) == Block(before, b) {
        assert InDisk(grown, b) && InDisk(linked, b) && Block(linked, b) == Block(grown, b);
      }
    }

    /** appendToDirectory when every slot is taken. */
    method ExtendChain(last: int, dir: seq<byte>, name: seq<byte>, dataStartBlock: int) returns (newBlock: int)
      requires Consistent(St()) && |runs| == |names| + 1 && Full(|names|, |dirs|) && nextFreeBlock < MAX_BLOCKS
      requires KeyOf(name) != [] && KeyOf(name) !in names && dataStartBlock == runs[|names|].start && IsInt(dataStartBlock)
      requires last == dirs[|dirs| - 1] && InDisk(disk, last) && dir == Block(disk, last)
      modifies `disk, `nextFreeBlock, `dirs, `names, `owner
      ensures Valid() && names == old(names) + [KeyOf(name)]
      ensures dirs == old(dirs) + [old(nextFreeBlock)] && nextFreeBlock == old(nextFreeBlock) + 1
    {
      ghost var s := St();
      newBlock := LinkNewBlock(last, dir, WithEntry(Zeros(BLOCK_SIZE), 0, KeyOf(name), dataStartBlock));
      names := names + [KeyOf(name)];
      dirs := dirs + [newBlock];
      owner := owner + [DirUse(|dirs| - 1)];
      ChainIsGrown(s, St(), KeyOf(name), last, newBlock);
      NameInNewBlock(s, St(), KeyOf(name));
    }

    /** addFigure: nothing for a stored name, nor for the empty name while a slot is free; otherwise
        the content as a new run and its name last. */
    method AddFigure(name: seq<byte>, content: seq<byte>)
      requires Valid() && (KeyOf(name) == [] ==> !Full(|names|, |dirs|))
      requires KeyOf(name) != [] && KeyOf(name) !in names ==>
                 content != [] &&
                 nextFreeBlock + DataBlocks(|content|) + (if Full(|names|, |dirs|) then 1 else 0) <= MAX_BLOCKS
      modifies this
      ensures Valid() && initial == old(initial)
      ensures KeyOf(name) == [] || KeyOf(name) in old(names) ==> St() == old(St())
      ensures KeyOf(name) != [] && KeyOf(name) !in old(names) ==>
                && names == old(names) + [KeyOf(name)] && runs == old(runs) + [Run(old(nextFreeBlock), content)]
                && nextFreeBlock == old(nextFreeBlock) + DataBlocks(|content|) + (|dirs| - |old(dirs)|)
                && dirs == old(dirs) + if Full(|old(names)|, |old(dirs)|)
                                       then [old(nextFreeBlock) + DataBlocks(|content|)] else []
    {
      var exists_ := FigureExists(name);
      if exists_ {
        return;
      }
      var blocks := StoreFigureData(content);
      var _ := AppendToDirectory(name, blocks[0]);
    }

    /** One directory block of getFigureNamesCSV. */
    static method JoinBlock(dir: seq<byte>, before: seq<byte>, firstBefore: bool, ghost names: seq<seq<byte>>, ghost i: int)
        returns (csv: seq<byte>, first: bool)
      requires |dir| == BLOCK_SIZE && 0 <= i && forall e :: 0 <= e < DIR_ENTRIES ==> JoinsEntry(names, dir, i, e)
      requires before == Join(FirstOf(names, i * DIR_ENTRIES)) && firstBefore == (FirstOf(names, i * DIR_ENTRIES) == [])
      ensures csv == Join(FirstOf(names, (i + 1) * DIR_ENTRIES)) && first == (FirstOf(names, (i + 1) * DIR_ENTRIES) == [])
    {
      csv, first := before, firstBefore;
      for e := 0 to DIR_ENTRIES
        invariant csv == Join(FirstOf(names, i * DIR_ENTRIES + e)) && first == (FirstOf(names, i * DIR_ENTRIES + e) == [])
      {
        assert JoinsEntry(names, dir, i, e);
        if dir[e * ENTRY_SIZE] != NUL {
          if !first {
            csv := csv + [','];
          }
          csv := csv + EntryText(dir, e);
          first := false;
        }
      }
    }

    /** getFigureNamesCSV: the stored names as they print, in the order they were added, joined
        with commas. */
    method GetFigureNamesCSV() returns (csv: seq<byte>)
      requires Valid()
      ensures csv == Join(PrintedNames(names, runs))
    {
      var blockNum, first := 0, true;
      csv := [];
      ghost var i, texts := 0, PrintedNames(names, runs);
      while true
        invariant 0 <= i < |dirs| && blockNum == dirs[i]
        invariant csv == Join(FirstOf(texts, i * DIR_ENTRIES)) && first == (FirstOf(texts, i * DIR_ENTRIES) == [])
        decreases |dirs| - i
      {
        DirWalk(St(), i);
        var dir := ReadBlock(blockNum);
        JoinedBlock(St(), dir, i);
        csv, first := JoinBlock(dir, csv, first, texts, i);
        if NextOfDir(dir) == 0 {
          AllJoined(St(), texts, i);
          return;
        }
        blockNum := NextOfDir(dir);
        i := i + 1;
      }
    }

    /** The count of getFigureList for one figure. */
    method CountBlocks(start: int) returns (r: Option<nat>)
      ensures r == CountRun(disk, start)
    {
      var count, dataBlock := 0, start;
      while true
        invariant 0 <= count
        invariant CountRun(disk, start) == match CountRun(disk, dataBlock) case None => None case Some(n) => Some(n + count)
        decreases |disk| - dataBlock * BLOCK_SIZE
      {
        if dataBlock < 0 || |disk| < (dataBlock + 1) * BLOCK_SIZE {
          return None;
        }
        var buffer := ReadBlock(dataBlock);
        count := count + 1;
        if |CString(buffer)| < BLOCK_SIZE {
          return Some(count);
        }
        dataBlock := dataBlock + 1;
      }
    }

    /** One directory block of getFigureList; None when a count never ends. */
    method ListBlock(dir: seq<byte>, before: seq<Line>, ghost i: int) returns (lines: Option<seq<Line>>)
      requires Valid() && 0 <= i < |dirs| && InDisk(disk, dirs[i]) && dir == Block(disk, dirs[i])
      requires Listed(before, disk, names, runs, i * DIR_ENTRIES)
      ensures lines.Some? ==> Listed(lines.value, disk, names, runs, (i + 1) * DIR_ENTRIES)
      ensures lines.None? ==> exists k :: 0 <= k < |runs| && CountRun(disk, runs[k].start) == None
    {
      lines := Some(before);
      for e := 0 to DIR_ENTRIES
        invariant lines.Some? && Listed(lines.value, disk, names, runs, i * DIR_ENTRIES + e)
      {
        lines := ListEntry(dir, lines.value, i, e);
        if lines.None? {
          return;
        }
      }
    }

    method ListEntry(dir: seq<byte>, before: seq<Line>, ghost i: int, e: int) returns (lines: Option<seq<Line>>)
      requires Valid() && 0 <= i < |dirs| && InDisk(disk, dirs[i]) && dir == Block(disk, dirs[i])
      requires 0 <= e < DIR_ENTRIES && Listed(before, disk, names, runs, i * DIR_ENTRIES + e)
      ensures lines.Some? ==> Listed(lines.value, disk, names, runs, i * DIR_ENTRIES + e + 1)
      ensures lines.None? ==> exists k :: 0 <= k < |runs| && CountRun(disk, runs[k].start) == None
    {
      lines := Some(before);
      EntryListed(St(), dir, i, e);
      if dir[e * ENTRY_SIZE] != NUL {
        var count := CountBlocks(DataBlockOf(dir, e));
        if count.None? {
          return None;
        }
        var line := (EntryText(dir, e), count.value);
        LineListed(before, disk, names, runs, i * DIR_ENTRIES + e, line);
        lines := Some(before + [line]);
      }
    }

    /** The figures of getFigureList: each stored name as it prints, in order, with the number of
        blocks up to the first NUL. None stands for a count that never ends. */
    method GetFigureList() returns (lines: Option<seq<Line>>)
      requires Valid()
      ensures lines.Some? ==> |lines.value| == |names|
      ensures lines.Some? ==> forall k :: 0 <= k < |names| ==>
                && lines.value[k].0 == Printed(names[k], runs[k].start)
                && Some(lines.value[k].1) == CountRun(disk, runs[k].start)
      ensures lines.None? ==> exists k :: 0 <= k < |runs| && CountRun(disk, runs[k].start) == None
    {
      var blockNum := 0;
      lines := Some([]);
      ghost var i := 0;
      while true
        invariant 0 <= i < |dirs| && blockNum == dirs[i]
        invariant lines.Some? && Listed(lines.value, disk, names, runs, i * DIR_ENTRIES)
        decreases |dirs| - i
      {
        DirWalk(St(), i);
        var dir := ReadBlock(blockNum);
        lines := ListBlock(dir, lines.value, i);
        if lines.None? || NextOfDir(dir) == 0 {
          return;
        }
        blockNum := NextOfDir(dir);
        i := i + 1;
      }
    }
  }

  // One line of getFigureList: the printed name and the number of blocks.
  type Line = (seq<byte>, nat)

  ghost function PrintedNames(names: seq<Key>, runs: seq<Run>): seq<seq<byte>>
    requires |names| <= |runs|
  {
    seq(|names|, k requires 0 <= k < |names| => Printed(names[k], runs[k].start))
  }

  /** Names shorter than their field print as they are. */
  lemma ShortNamesPrint(names: seq<Key>, runs: seq<Run>)
    requires |names| <= |runs| && forall k :: 0 <= k < |names| ==> |names[k]| < KEY_SIZE
    ensures PrintedNames(names, runs) == names
  {
    assert |PrintedNames(names, runs)| == |names|;
    forall k | 0 <= k < |names| ensures PrintedNames(names, runs)[k] == names[k] {
    }
  }

  ghost function FirstOf(names: seq<seq<byte>>, n: int): seq<seq<byte>>
    requires 0 <= n
  {
    if n <= |names| then names[..n] else names
  }

  /** The lines of the first n slots. */
  ghost predicate Listed(lines: seq<Line>, d: seq<byte>, names: seq<Key>, runs: seq<Run>, n: int) {
    && |names| <= |runs| && 0 <= n
    && |lines| == (if n <= |names| then n else |names|)
    && forall k :: 0 <= k < |lines| ==>
         lines[k].0 == Printed(names[k], runs[k].start) && Some(lines[k].1) == CountRun(d, runs[k].start)
  }

  lemma LineListed(lines: seq<Line>, d: seq<byte>, names: seq<Key>, runs: seq<Run>, n: int, line: Line)
    requires Listed(lines, d, names, runs, n) && n < |names|
    requires line.0 == Printed(names[n], runs[n].start) && Some(line.1) == CountRun(d, runs[n].start)
    ensures Listed(lines + [line], d, names, runs, n + 1)
  {
  }

  lemma StoredEntry(s: Store, dir: seq<byte>, i: int, e: int)
    requires Consistent(s) && 0 <= i < |s.dirs| && 0 <= e < DIR_ENTRIES && InDisk(s.disk, s.dirs[i])
    requires dir == Block(s.disk, s.dirs[i]) && i * DIR_ENTRIES + e < |s.names|
    ensures EntryText(dir, e) == Printed(s.names[i * DIR_ENTRIES + e], s.runs[i * DIR_ENTRIES + e].start)
  {
    var k := i * DIR_ENTRIES + e;
    assert DirBlock(s, i) && Slot(dir, s.names, s.runs, i, e);
    RunInDisk(s, k);
    EntryPrints(dir, e, s.names[k], s.runs[k].start);
  }

  lemma RunInDisk(s: Store, k: int)
    requires Consistent(s) && 0 <= k < |s.runs|
    ensures 0 <= s.runs[k].start < MAX_BLOCKS
  {
    assert DataStored(s.disk, s.runs[k]);
    assert RunBlock(s, k, 0);
  }

  /** What the entry adds to the list. */
  lemma EntryListed(s: Store, dir: seq<byte>, i: int, e: int)
    requires Consistent(s) && 0 <= i < |s.dirs| && 0 <= e < DIR_ENTRIES && InDisk(s.disk, s.dirs[i])
    requires dir == Block(s.disk, s.dirs[i])
    ensures dir[e * ENTRY_SIZE] == NUL <==> i * DIR_ENTRIES + e >= |s.names|
    ensures i * DIR_ENTRIES + e < |s.names| ==>
              && EntryText(dir, e) == Printed(s.names[i * DIR_ENTRIES + e], s.runs[i * DIR_ENTRIES + e].start)
              && DataBlockOf(dir, e) == s.runs[i * DIR_ENTRIES + e].start
  {
    EntryMeans(s, i, e, []);
    assert FieldOf(dir, e)[0] == dir[e * ENTRY_SIZE];
    if i * DIR_ENTRIES + e < |s.names| {
      StoredEntry(s, dir, i, e);
    }
  }

  /** Printing the entry appends its name to the joined names, and an empty slot adds none. */
  ghost predicate JoinsEntry(names: seq<seq<byte>>, dir: seq<byte>, i: int, e: int)
    requires |dir| == BLOCK_SIZE && 0 <= i && 0 <= e < DIR_ENTRIES
  {
    if dir[e * ENTRY_SIZE] == NUL then FirstOf(names, i * DIR_ENTRIES + e + 1) == FirstOf(names, i * DIR_ENTRIES + e)
    else
      && FirstOf(names, i * DIR_ENTRIES + e + 1) != []
      && Join(FirstOf(names, i * DIR_ENTRIES + e + 1)) ==
         if FirstOf(names, i * DIR_ENTRIES + e) == [] then EntryText(dir, e)
         else Join(FirstOf(names, i * DIR_ENTRIES + e)) + [','] + EntryText(dir, e)
  }

  lemma JoinedBlock(s: Store, dir: seq<byte>, i: int)
    requires Consistent(s) && 0 <= i < |s.dirs| && InDisk(s.disk, s.dirs[i]) && dir == Block(s.disk, s.dirs[i])
    ensures forall e :: 0 <= e < DIR_ENTRIES ==> JoinsEntry(PrintedNames(s.names, s.runs), dir, i, e)
  {
    forall e | 0 <= e < DIR_ENTRIES ensures JoinsEntry(PrintedNames(s.names, s.runs), dir, i, e) {
      JoinedAt(s, PrintedNames(s.names, s.runs), dir, i, e);
    }
  }

  lemma JoinedAt(s: Store, texts: seq<seq<byte>>, dir: seq<byte>, i: int, e: int)
    requires Consistent(s) && 0 <= i < |s.dirs| && InDisk(s.disk, s.dirs[i]) && dir == Block(s.disk, s.dirs[i])
    requires 0 <= e < DIR_ENTRIES && texts == PrintedNames(s.names, s.runs)
    ensures JoinsEntry(texts, dir, i, e)
  {
    EntryListed(s, dir, i, e);
    PrintedAt(s.names, s.runs, texts, i * DIR_ENTRIES + e);
    JoinedEntry(texts, dir, i, e);
  }

  lemma PrintedAt(names: seq<Key>, runs: seq<Run>, texts: seq<seq<byte>>, k: nat)
    requires |names| <= |runs| && texts == PrintedNames(names, runs)
    ensures |texts| == |names|
    ensures k < |names| ==> texts[k] == Printed(names[k], runs[k].start)
  {
  }

  lemma AllJoined(s: Store, texts: seq<seq<byte>>, i: int)
    requires Shape(s) && i == |s.dirs| - 1 && |texts| == |s.names|
    ensures FirstOf(texts, (i + 1) * DIR_ENTRIES) == texts
  {
  }

  lemma JoinedEntry(texts: seq<seq<byte>>, dir: seq<byte>, i: int, e: int)
    requires |dir| == BLOCK_SIZE && 0 <= i && 0 <= e < DIR_ENTRIES
    requires dir[e * ENTRY_SIZE] == NUL <==> i * DIR_ENTRIES + e >= |texts|
    requires i * DIR_ENTRIES + e < |texts| ==> EntryText(dir, e) == texts[i * DIR_ENTRIES + e]
    ensures JoinsEntry(texts, dir, i, e)
  {
    if i * DIR_ENTRIES + e < |texts| {
      OneMoreName(texts, i * DIR_ENTRIES + e);
    }
  }

  lemma ChainIsGrown(s: Store, t: Store, key: Key, last: int, newBlock: int)
    requires Shape(s) && s.nextFreeBlock < MAX_BLOCKS && |s.runs| == |s.names| + 1
    requires last == s.dirs[|s.dirs| - 1] && InDisk(s.disk, last) && newBlock == s.nextFreeBlock
    requires t == s.(disk := t.disk, nextFreeBlock := newBlock + 1, dirs := s.dirs + [newBlock],
                     names := s.names + [key], owner := s.owner + [DirUse(|s.dirs|)])
    requires |t.disk| == |s.disk| + BLOCK_SIZE
    requires Block(t.disk, last) == WithNext(Block(s.disk, last), newBlock)
    requires Block(t.disk, newBlock) == WithEntry(Zeros(BLOCK_SIZE), 0, key, s.runs[|s.names|].start)
    requires forall b :: InDisk(s.disk, b) && b != last ==> Block(t.disk, b) == Block(s.disk, b)
    ensures ChainGrown(s, t, key)
  {
    forall b | 0 <= b < s.nextFreeBlock && b != last ensures Block(t.disk, b) == Block(s.disk, b) {
      assert InDisk(s.disk, b);
    }
  }

  /** One more block of a run: its first, or the next one. */
  lemma RunGrown(s: Store, t: Store, before: seq<byte>, piece: seq<byte>, first: int, runs0: seq<Run>)
    requires Consistent(s) && |s.names| == |runs0| && 0 < |piece| <= BLOCK_SIZE && |before| % BLOCK_SIZE == 0
    requires s.runs == if before == [] then runs0 else runs0 + [Run(first, before)]
    requires s.nextFreeBlock == first + DataBlocks(|before|) && s.nextFreeBlock < MAX_BLOCKS
    requires t == s.(disk := s.disk + (piece + Zeros(BLOCK_SIZE - |piece|)), nextFreeBlock := s.nextFreeBlock + 1,
                     owner := s.owner + [DataUse(|runs0|, DataBlocks(|before|))],
                     runs := runs0 + [Run(first, before + piece)])
    ensures Consistent(t)
  {
    assert Piece(piece, 0) == piece;
    if before == [] {
      assert before + piece == piece;
      RunOpened(s, t, piece);
    } else {
      assert t.runs == s.runs[|runs0| := Run(first, before + piece)];
      RunExtended(s, t, piece);
    }
  }

  lemma OneMoreName(names: seq<seq<byte>>, k: int)
    requires 0 <= k < |names|
    ensures Join(FirstOf(names, k + 1)) ==
            if FirstOf(names, k) == [] then names[k] else Join(FirstOf(names, k)) + [','] + names[k]
  {
    var longer := FirstOf(names, k + 1);
    assert longer[..|longer| - 1] == FirstOf(names, k) && longer[|longer| - 1] == names[k];
  }
}

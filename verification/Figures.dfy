/** The append-only figure store: a chain of seven-entry directory blocks from block 0, and
    every figure's content in consecutive blocks of its own. */
module Figures {
  import opened Options
  import opened Blocks

  const KEY_SIZE := 32
  const DIR_ENTRIES := 7
  const ENTRY_SIZE := 36
  const DIR_NEXT_AT := 252

  type Key = k: seq<byte> | IsCString(k) && |k| <= KEY_SIZE

  /** The part of a name that strncpy stores and strncmp compares. */
  function KeyOf(name: seq<byte>): (k: Key) {
    var c := CString(name);
    if |c| <= KEY_SIZE then c else c[..KEY_SIZE]
  }

  function NameField(k: Key): (f: seq<byte>)
    ensures |f| == KEY_SIZE && CString(f) == k
    ensures f[0] == NUL <==> k == []
  {
    var f := k + Zeros(KEY_SIZE - |k|);
    CStringUnique(f, k);
    f
  }

  // ---- directory blocks ----

  function FieldOf(dir: seq<byte>, e: int): (f: seq<byte>)
    requires |dir| == BLOCK_SIZE && 0 <= e < DIR_ENTRIES
    ensures |f| == KEY_SIZE
  {
    dir[e * ENTRY_SIZE..e * ENTRY_SIZE + KEY_SIZE]
  }

  function NumberOf(dir: seq<byte>, e: int): (s: seq<byte>)
    requires |dir| == BLOCK_SIZE && 0 <= e < DIR_ENTRIES
    ensures |s| == 4
  {
    dir[e * ENTRY_SIZE + KEY_SIZE..(e + 1) * ENTRY_SIZE]
  }

  function DataBlockOf(dir: seq<byte>, e: int): int
    requires |dir| == BLOCK_SIZE && 0 <= e < DIR_ENTRIES
  {
    DecodeInt(NumberOf(dir, e))
  }

  function NextOfDir(dir: seq<byte>): int
    requires |dir| == BLOCK_SIZE
  {
    DecodeInt(dir[DIR_NEXT_AT..])
  }

  function WithEntry(dir: seq<byte>, e: int, k: Key, data: int): (r: seq<byte>)
    requires |dir| == BLOCK_SIZE && 0 <= e < DIR_ENTRIES
    ensures |r| == BLOCK_SIZE
  {
    Splice(dir, e * ENTRY_SIZE, NameField(k) + EncodeInt(data))
  }

  function WithNext(dir: seq<byte>, next: int): (r: seq<byte>)
    requires |dir| == BLOCK_SIZE
    ensures |r| == BLOCK_SIZE
  {
    Splice(dir, DIR_NEXT_AT, EncodeInt(next))
  }

  lemma EntryWritten(dir: seq<byte>, e: int, k: Key, data: int, i: int)
    requires |dir| == BLOCK_SIZE && 0 <= e < DIR_ENTRIES && 0 <= i < DIR_ENTRIES && IsInt(data)
    ensures FieldOf(WithEntry(dir, e, k, data), i) == if i == e then NameField(k) else FieldOf(dir, i)
    ensures NumberOf(WithEntry(dir, e, k, data), i) == if i == e then EncodeInt(data) else NumberOf(dir, i)
    ensures DataBlockOf(WithEntry(dir, e, k, data), i) == if i == e then data else DataBlockOf(dir, i)
    ensures NextOfDir(WithEntry(dir, e, k, data)) == NextOfDir(dir)
  {
    var w := WithEntry(dir, e, k, data);
    var entry := NameField(k) + EncodeInt(data);
    if i == e {
      assert w[e * ENTRY_SIZE..e * ENTRY_SIZE + KEY_SIZE] == entry[..KEY_SIZE] == NameField(k);
      assert NumberOf(w, e) == entry[KEY_SIZE..] == EncodeInt(data);
      DecodeEncode(data);
    } else {
      assert i < e || e < i;
      assert FieldOf(w, i) == FieldOf(dir, i);
      assert NumberOf(w, i) == NumberOf(dir, i);
    }
    assert w[DIR_NEXT_AT..] == dir[DIR_NEXT_AT..];
  }

  lemma NextWritten(dir: seq<byte>, next: int, i: int)
    requires |dir| == BLOCK_SIZE && 0 <= i < DIR_ENTRIES && IsInt(next)
    ensures FieldOf(WithNext(dir, next), i) == FieldOf(dir, i)
    ensures NumberOf(WithNext(dir, next), i) == NumberOf(dir, i)
    ensures NextOfDir(WithNext(dir, next)) == next
  {
    var w := WithNext(dir, next);
    assert FieldOf(w, i) == FieldOf(dir, i);
    assert NumberOf(w, i) == NumberOf(dir, i);
    assert w[DIR_NEXT_AT..] == EncodeInt(next);
    DecodeEncode(next);
  }

  lemma EmptyDirBlock(i: int)
    requires 0 <= i < DIR_ENTRIES
    ensures FieldOf(Zeros(BLOCK_SIZE), i)[0] == NUL && DataBlockOf(Zeros(BLOCK_SIZE), i) == 0
    ensures NextOfDir(Zeros(BLOCK_SIZE)) == 0
  {
    assert FieldOf(Zeros(BLOCK_SIZE), i)[0] == Zeros(BLOCK_SIZE)[i * ENTRY_SIZE];
    assert NumberOf(Zeros(BLOCK_SIZE), i) == Zeros(4);
  }

  // ---- data runs ----

  function DataBlocks(n: nat): nat {
    (n + BLOCK_SIZE - 1) / BLOCK_SIZE
  }

  /** The j-th block of a content: its characters, padded with zeros. */
  function DataBlock(content: seq<byte>, j: nat): (s: seq<byte>)
    requires j * BLOCK_SIZE <= |content|
    ensures |s| == BLOCK_SIZE
  {
    var piece := Piece(content, j);
    piece + Zeros(BLOCK_SIZE - |piece|)
  }

  function Piece(content: seq<byte>, j: nat): (s: seq<byte>)
    requires j * BLOCK_SIZE <= |content|
    ensures |s| <= BLOCK_SIZE
  {
    content[j * BLOCK_SIZE..if (j + 1) * BLOCK_SIZE <= |content| then (j + 1) * BLOCK_SIZE else |content|]
  }

  datatype Run = Run(start: int, content: seq<byte>)

  // Each block is the i-th directory block, or block j of the k-th run.
  datatype Use = DirUse(i: int) | DataUse(k: int, j: int)

  /** The disk and its ghost view: the directory blocks in chain order, of which the first
      `initial` were made by initDisk; the names in directory order; the runs in the order
      they were stored; and the use of every block. */
  datatype Store = Store(
    disk: seq<byte>, nextFreeBlock: int, initial: nat, dirs: seq<int>, names: seq<Key>, runs: seq<Run>, owner: seq<Use>)

  // ---- the invariant ----

  ghost predicate Shape(s: Store) {
    && 1 <= s.initial <= |s.dirs| && s.dirs[0] == 0
    && 1 <= s.nextFreeBlock <= MAX_BLOCKS && |s.disk| == s.nextFreeBlock * BLOCK_SIZE && |s.owner| == s.nextFreeBlock
    && |s.names| <= |s.runs|
    && |s.names| <= |s.dirs| * DIR_ENTRIES
    && (|s.dirs| == s.initial || |s.names| > (|s.dirs| - 1) * DIR_ENTRIES)
    && (forall i :: 0 <= i < s.initial ==> s.dirs[i] == i)
  }

  /** The directory blocks and the runs partition the disk. */
  ghost predicate Partition(s: Store)
    requires Shape(s)
  {
    && (forall i :: 0 <= i < |s.dirs| ==> 0 <= s.dirs[i] < s.nextFreeBlock && s.owner[s.dirs[i]] == DirUse(i))
    && (forall k, j :: 0 <= k < |s.runs| && 0 <= j < DataBlocks(|s.runs[k].content|) ==> RunBlock(s, k, j))
    && (forall b :: 0 <= b < s.nextFreeBlock ==> Used(s, b))
  }

  ghost predicate RunBlock(s: Store, k: int, j: int)
    requires Shape(s) && 0 <= k < |s.runs| && 0 <= j
  {
    0 <= s.runs[k].start + j < s.nextFreeBlock && s.owner[s.runs[k].start + j] == DataUse(k, j)
  }

  ghost predicate Used(s: Store, b: int)
    requires Shape(s) && 0 <= b < s.nextFreeBlock
  {
    match s.owner[b]
    case DirUse(i) => 0 <= i < |s.dirs| && s.dirs[i] == b
    case DataUse(k, j) =>
      0 <= k < |s.runs| && 0 <= j < DataBlocks(|s.runs[k].content|) && s.runs[k].start + j == b
  }

  /** Slot e of the i-th directory block: the name of its rank if there is one, otherwise empty. */
  ghost predicate Slot(dir: seq<byte>, names: seq<Key>, runs: seq<Run>, i: int, e: int)
    requires |dir| == BLOCK_SIZE && 0 <= e < DIR_ENTRIES && 0 <= i && |names| <= |runs|
  {
    var k := i * DIR_ENTRIES + e;
    if k < |names| then
      && FieldOf(dir, e) == NameField(names[k])
      && NumberOf(dir, e) == EncodeInt(runs[k].start) && DataBlockOf(dir, e) == runs[k].start
    else FieldOf(dir, e)[0] == NUL && DataBlockOf(dir, e) == 0
  }

  function DirSuccessor(dirs: seq<int>, i: int): int {
    if 0 <= i && i + 1 < |dirs| then dirs[i + 1] else 0
  }

  /** The i-th directory block: its link and its seven slots. */
  ghost predicate DirBlock(s: Store, i: int)
    requires Shape(s) && 0 <= i < |s.dirs|
  {
    && InDisk(s.disk, s.dirs[i])
    && NextOfDir(Block(s.disk, s.dirs[i])) == DirSuccessor(s.dirs, i)
    && forall e :: 0 <= e < DIR_ENTRIES ==> Slot(Block(s.disk, s.dirs[i]), s.names, s.runs, i, e)
  }

  ghost predicate DataStored(d: seq<byte>, r: Run) {
    && r.content != []
    && forall j :: 0 <= j < DataBlocks(|r.content|) ==> DataAt(d, r, j)
  }

  ghost predicate DataAt(d: seq<byte>, r: Run, j: nat) {
    && InDisk(d, r.start + j) && j * BLOCK_SIZE <= |r.content|
    && Block(d, r.start + j) == DataBlock(r.content, j)
  }

  ghost predicate Catalogued(s: Store) {
    && (forall k :: 0 <= k < |s.names| ==> s.names[k] != [])
    && (forall k, k' :: 0 <= k < k' < |s.names| ==> s.names[k] != s.names[k'])
  }

  /** Sound, possibly with one run stored whose name is not yet in the directory. */
  ghost predicate Consistent(s: Store) {
    && Shape(s) && Partition(s) && Catalogued(s)
    && (forall i :: 0 <= i < |s.dirs| ==> DirBlock(s, i))
    && (forall k :: 0 <= k < |s.runs| ==> DataStored(s.disk, s.runs[k]))
  }

  ghost predicate Sound(s: Store) {
    Consistent(s) && |s.names| == |s.runs|
  }

  // ---- the steps ----

  lemma AppendBlock(d: seq<byte>, n: nat, block: seq<byte>)
    requires |d| == n * BLOCK_SIZE && |block| == BLOCK_SIZE
    ensures forall b :: InDisk(d, b) ==> InDisk(d + block, b) && Block(d + block, b) == Block(d, b)
    ensures InDisk(d + block, n) && Block(d + block, n) == block
  {
    var e := d + block;
    forall b | InDisk(d, b) ensures InDisk(e, b) && Block(e, b) == Block(d, b) {
    }
  }

  /** s has grown by one block, with the given use. */
  ghost predicate Grown(s: Store, t: Store, block: seq<byte>, use: Use) {
    && Shape(s) && |block| == BLOCK_SIZE && s.nextFreeBlock < MAX_BLOCKS
    && t.disk == s.disk + block && t.nextFreeBlock == s.nextFreeBlock + 1
    && t.initial == s.initial && t.names == s.names
    && t.owner == s.owner + [use]
  }

  lemma GrownBlocks(s: Store, t: Store, block: seq<byte>, use: Use)
    requires Grown(s, t, block, use)
    ensures forall b :: 0 <= b < s.nextFreeBlock ==> InDisk(t.disk, b) && Block(t.disk, b) == Block(s.disk, b)
    ensures InDisk(t.disk, s.nextFreeBlock) && Block(t.disk, s.nextFreeBlock) == block
  {
    AppendBlock(s.disk, s.nextFreeBlock, block);
  }

  lemma DirBlocksKept(s: Store, t: Store, block: seq<byte>, use: Use)
    requires Consistent(s) && Grown(s, t, block, use) && Shape(t) && t.dirs == s.dirs
    requires |s.runs| <= |t.runs|
    requires forall k :: 0 <= k < |s.names| ==> t.runs[k] == s.runs[k]
    ensures forall i :: 0 <= i < |t.dirs| ==> DirBlock(t, i)
  {
    GrownBlocks(s, t, block, use);
    forall i | 0 <= i < |t.dirs| ensures DirBlock(t, i) {
      assert DirBlock(s, i);
      forall e | 0 <= e < DIR_ENTRIES ensures Slot(Block(t.disk, t.dirs[i]), t.names, t.runs, i, e) {
        assert Slot(Block(s.disk, s.dirs[i]), s.names, s.runs, i, e);
      }
    }
  }

  lemma RunKept(s: Store, t: Store, r: Run)
    requires DataStored(s.disk, r)
    requires forall b :: r.start <= b < r.start + DataBlocks(|r.content|) && InDisk(s.disk, b) ==>
               InDisk(t.disk, b) && Block(t.disk, b) == Block(s.disk, b)
    ensures DataStored(t.disk, r)
  {
    forall j: nat | j < DataBlocks(|r.content|) ensures DataAt(t.disk, r, j) {
      assert DataAt(s.disk, r, j);
    }
  }

  /** The first block of a figure's content opens a new run at the end of the disk. */
  lemma RunOpened(s: Store, t: Store, piece: seq<byte>)
    requires Sound(s) && 0 < |piece| <= BLOCK_SIZE
    requires Grown(s, t, DataBlock(piece, 0), DataUse(|s.runs|, 0))
    requires t.dirs == s.dirs && t.runs == s.runs + [Run(s.nextFreeBlock, piece)]
    ensures Consistent(t)
  {
    GrownBlocks(s, t, DataBlock(piece, 0), DataUse(|s.runs|, 0));
    DirBlocksKept(s, t, DataBlock(piece, 0), DataUse(|s.runs|, 0));
    forall k, j | 0 <= k < |t.runs| && 0 <= j < DataBlocks(|t.runs[k].content|) ensures RunBlock(t, k, j) {
      if k < |s.runs| {
        assert RunBlock(s, k, j);
      }
    }
    forall b | 0 <= b < t.nextFreeBlock ensures Used(t, b) {
      if b < s.nextFreeBlock {
        assert Used(s, b);
      }
    }
    forall k | 0 <= k < |t.runs| ensures DataStored(t.disk, t.runs[k]) {
      if k < |s.runs| {
        assert DataStored(s.disk, s.runs[k]);
        RunKept(s, t, s.runs[k]);
      } else {
        assert DataAt(t.disk, t.runs[k], 0);
      }
    }
  }

  lemma LongerContent(content: seq<byte>, piece: seq<byte>, j: nat)
    requires |content| % BLOCK_SIZE == 0 && 0 < |piece| <= BLOCK_SIZE
    ensures DataBlocks(|content + piece|) == DataBlocks(|content|) + 1
    ensures j < DataBlocks(|content|) ==> j * BLOCK_SIZE <= |content| && DataBlock(content + piece, j) == DataBlock(content, j)
    ensures j == DataBlocks(|content|) ==> j * BLOCK_SIZE == |content| && DataBlock(content + piece, j) == DataBlock(piece, 0)
  {
    if j < DataBlocks(|content|) {
      assert Piece(content + piece, j) == Piece(content, j);
    } else if j == DataBlocks(|content|) {
      assert Piece(content + piece, j) == piece == Piece(piece, 0);
    }
  }

  /** Every further block makes the last run longer. */
  lemma RunExtended(s: Store, t: Store, piece: seq<byte>)
    requires Consistent(s) && |s.runs| == |s.names| + 1 && 0 < |piece| <= BLOCK_SIZE
    requires var r := s.runs[|s.names|];
             && |r.content| % BLOCK_SIZE == 0 && r.start + DataBlocks(|r.content|) == s.nextFreeBlock
             && Grown(s, t, DataBlock(piece, 0), DataUse(|s.names|, DataBlocks(|r.content|)))
             && t.dirs == s.dirs && t.runs == s.runs[|s.names| := Run(r.start, r.content + piece)]
    ensures Consistent(t)
  {
    var k0, r := |s.names|, s.runs[|s.names|];
    var n := DataBlocks(|r.content|);
    GrownBlocks(s, t, DataBlock(piece, 0), DataUse(k0, n));
    DirBlocksKept(s, t, DataBlock(piece, 0), DataUse(k0, n));
    LongerContent(r.content, piece, n);
    forall k, j | 0 <= k < |t.runs| && 0 <= j < DataBlocks(|t.runs[k].content|) ensures RunBlock(t, k, j) {
      if k != k0 || j < n {
        assert RunBlock(s, k, j);
      }
    }
    forall b | 0 <= b < t.nextFreeBlock ensures Used(t, b) {
      if b < s.nextFreeBlock {
        assert Used(s, b);
      }
    }
    forall k | 0 <= k < |t.runs| ensures DataStored(t.disk, t.runs[k]) {
      assert DataStored(s.disk, s.runs[k]);
      if k != k0 {
        RunKept(s, t, s.runs[k]);
      } else {
        forall j: nat | j < n + 1 ensures DataAt(t.disk, t.runs[k], j) {
          LongerContent(r.content, piece, j);
          if j < n {
            assert DataAt(s.disk, r, j);
          }
        }
      }
    }
  }

  // ---- the directory ----

  lemma PartitionKept(s: Store, t: Store)
    requires Shape(s) && Partition(s) && Shape(t)
    requires t.dirs == s.dirs && t.runs == s.runs && t.owner == s.owner && t.nextFreeBlock == s.nextFreeBlock
    ensures Partition(t)
  {
    forall k, j | 0 <= k < |t.runs| && 0 <= j < DataBlocks(|t.runs[k].content|) ensures RunBlock(t, k, j) {
      assert RunBlock(s, k, j);
    }
    forall b | 0 <= b < t.nextFreeBlock ensures Used(t, b) {
      assert Used(s, b);
    }
  }

  /** No run reaches into a directory block. */
  lemma RunAvoidsDir(s: Store, k: int, b: int, i: int)
    requires Shape(s) && Partition(s) && 0 <= k < |s.runs| && 0 <= i < |s.dirs|
    requires s.runs[k].start <= b < s.runs[k].start + DataBlocks(|s.runs[k].content|)
    ensures b != s.dirs[i]
  {
    assert RunBlock(s, k, b - s.runs[k].start);
  }

  /** The entry of the pending run goes into slot e of the i-th directory block, the first empty one. */
  ghost predicate EntryPlaced(s: Store, t: Store, i: int, e: int, key: Key) {
    && Shape(s) && |s.runs| == |s.names| + 1
    && 0 <= i < |s.dirs| && 0 <= e < DIR_ENTRIES && i * DIR_ENTRIES + e == |s.names|
    && InDisk(s.disk, s.dirs[i]) && |t.disk| == |s.disk|
    && t == s.(disk := t.disk, names := s.names + [key])
    && Block(t.disk, s.dirs[i]) == WithEntry(Block(s.disk, s.dirs[i]), e, key, s.runs[|s.names|].start)
    && forall b :: 0 <= b < s.nextFreeBlock && b != s.dirs[i] ==> Block(t.disk, b) == Block(s.disk, b)
  }

  lemma EntryPlacedElsewhere(s: Store, t: Store, i: int, e: int, key: Key, i': int)
    requires Consistent(s) && EntryPlaced(s, t, i, e, key) && Shape(t) && 0 <= i' < |s.dirs| && i' != i
    ensures DirBlock(t, i')
  {
    assert DirBlock(s, i');
    assert s.owner[s.dirs[i']] == DirUse(i') && s.owner[s.dirs[i]] == DirUse(i);
    forall e' | 0 <= e' < DIR_ENTRIES ensures Slot(Block(t.disk, t.dirs[i']), t.names, t.runs, i', e') {
      assert Slot(Block(s.disk, s.dirs[i']), s.names, s.runs, i', e');
    }
  }

  lemma EntryPlacedHere(s: Store, t: Store, i: int, e: int, key: Key)
    requires Shape(s) && EntryPlaced(s, t, i, e, key) && Shape(t) && DirBlock(s, i)
    requires IsInt(s.runs[|s.names|].start)
    ensures DirBlock(t, i)
  {
    var before, start := Block(s.disk, s.dirs[i]), s.runs[|s.names|].start;
    EntryWritten(before, e, key, start, 0);
    forall e' | 0 <= e' < DIR_ENTRIES ensures Slot(Block(t.disk, t.dirs[i]), t.names, t.runs, i, e') {
      SlotPlaced(before, s.names, s.runs, i, e, key, e');
    }
  }

  lemma SlotPlaced(dir: seq<byte>, names: seq<Key>, runs: seq<Run>, i: int, e: int, key: Key, e': int)
    requires |dir| == BLOCK_SIZE && 0 <= i && 0 <= e < DIR_ENTRIES && 0 <= e' < DIR_ENTRIES
    requires |runs| == |names| + 1 && i * DIR_ENTRIES + e == |names| && IsInt(runs[|names|].start)
    requires Slot(dir, names, runs, i, e')
    ensures Slot(WithEntry(dir, e, key, runs[|names|].start), names + [key], runs, i, e')
  {
    EntryWritten(dir, e, key, runs[|names|].start, e');
  }

  lemma NamePlaced(s: Store, t: Store, i: int, e: int, key: Key)
    requires Consistent(s) && EntryPlaced(s, t, i, e, key)
    requires key != [] && key !in s.names && IsInt(s.runs[|s.names|].start)
    ensures Sound(t)
  {
    PartitionKept(s, t);
    forall i' | 0 <= i' < |t.dirs| ensures DirBlock(t, i') {
      if i' == i {
        EntryPlacedHere(s, t, i, e, key);
      } else {
        EntryPlacedElsewhere(s, t, i, e, key, i');
      }
    }
    forall k | 0 <= k < |t.runs| ensures DataStored(t.disk, t.runs[k]) {
      assert DataStored(s.disk, s.runs[k]);
      forall b | s.runs[k].start <= b < s.runs[k].start + DataBlocks(|s.runs[k].content|) && InDisk(s.disk, b)
        ensures InDisk(t.disk, b) && Block(t.disk, b) == Block(s.disk, b)
      {
        RunAvoidsDir(s, k, b, i);
      }
      RunKept(s, t, s.runs[k]);
    }
  }

  /** With every slot taken, the chain grows by a block that starts with the pending entry. */
  ghost predicate ChainGrown(s: Store, t: Store, key: Key) {
    && Shape(s) && s.nextFreeBlock < MAX_BLOCKS
    && InDisk(s.disk, s.dirs[|s.dirs| - 1]) && |s.runs| == |s.names| + 1
    && |t.disk| == |s.disk| + BLOCK_SIZE
    && (forall b :: 0 <= b < s.nextFreeBlock && b != s.dirs[|s.dirs| - 1] ==> Block(t.disk, b) == Block(s.disk, b))
    && Block(t.disk, s.dirs[|s.dirs| - 1]) == WithNext(Block(s.disk, s.dirs[|s.dirs| - 1]), s.nextFreeBlock)
    && Block(t.disk, s.nextFreeBlock) == WithEntry(Zeros(BLOCK_SIZE), 0, key, s.runs[|s.names|].start)
    && t == s.(disk := t.disk, nextFreeBlock := s.nextFreeBlock + 1, dirs := s.dirs + [s.nextFreeBlock],
               names := s.names + [key], owner := s.owner + [DirUse(|s.dirs|)])
  }

  lemma ChainGrownPartition(s: Store, t: Store, key: Key)
    requires Consistent(s) && |s.names| == |s.dirs| * DIR_ENTRIES && ChainGrown(s, t, key)
    ensures Shape(t) && Partition(t)
  {
    forall k, j | 0 <= k < |t.runs| && 0 <= j < DataBlocks(|t.runs[k].content|) ensures RunBlock(t, k, j) {
      assert RunBlock(s, k, j);
    }
    forall b | 0 <= b < t.nextFreeBlock ensures Used(t, b) {
      if b < s.nextFreeBlock {
        assert Used(s, b);
      }
    }
  }

  lemma ChainGrownOld(s: Store, t: Store, key: Key, i: int)
    requires Consistent(s) && |s.names| == |s.dirs| * DIR_ENTRIES && ChainGrown(s, t, key) && Shape(t)
    requires 0 <= i < |s.dirs|
    ensures DirBlock(t, i)
  {
    var last := |s.dirs| - 1;
    assert DirBlock(s, i) && InDisk(t.disk, t.dirs[i]);
    assert i != last ==> s.dirs[i] != s.dirs[last] by {
      assert s.owner[s.dirs[i]] == DirUse(i) && s.owner[s.dirs[last]] == DirUse(last);
    }
    if i == last {
      NextWritten(Block(s.disk, s.dirs[last]), s.nextFreeBlock, 0);
    }
    forall e | 0 <= e < DIR_ENTRIES ensures Slot(Block(t.disk, t.dirs[i]), t.names, t.runs, i, e) {
      NextWritten(Block(s.disk, s.dirs[i]), s.nextFreeBlock, e);
      SlotGrown(Block(s.disk, s.dirs[i]), Block(t.disk, t.dirs[i]), s, t, i, e);
    }
  }

  /** A slot of a full directory block whose fields stay the same. */
  lemma SlotGrown(dir: seq<byte>, dir': seq<byte>, s: Store, t: Store, i: int, e: int)
    requires |dir| == |dir'| == BLOCK_SIZE && 0 <= e < DIR_ENTRIES && 0 <= i && |s.names| <= |s.runs|
    requires t.runs == s.runs && |t.names| <= |t.runs| && s.names <= t.names && i * DIR_ENTRIES + e < |s.names|
    requires FieldOf(dir', e) == FieldOf(dir, e) && NumberOf(dir', e) == NumberOf(dir, e)
    requires Slot(dir, s.names, s.runs, i, e)
    ensures Slot(dir', t.names, t.runs, i, e)
  {
  }

  lemma ChainGrownNew(s: Store, t: Store, key: Key)
    requires Consistent(s) && |s.names| == |s.dirs| * DIR_ENTRIES && ChainGrown(s, t, key) && Shape(t)
    requires IsInt(s.runs[|s.names|].start)
    ensures DirBlock(t, |s.dirs|)
  {
    var start := s.runs[|s.names|].start;
    EntryWritten(Zeros(BLOCK_SIZE), 0, key, start, 0);
    EmptyDirBlock(0);
    forall e | 0 <= e < DIR_ENTRIES ensures Slot(Block(t.disk, s.nextFreeBlock), t.names, t.runs, |s.dirs|, e) {
      EntryWritten(Zeros(BLOCK_SIZE), 0, key, start, e);
      EmptyDirBlock(e);
    }
  }

  lemma NameInNewBlock(s: Store, t: Store, key: Key)
    requires Consistent(s) && |s.names| == |s.dirs| * DIR_ENTRIES && ChainGrown(s, t, key)
    requires key != [] && key !in s.names && IsInt(s.runs[|s.names|].start)
    ensures Sound(t)
  {
    ChainGrownPartition(s, t, key);
    forall i | 0 <= i < |t.dirs| ensures DirBlock(t, i) {
      if i < |s.dirs| {
        ChainGrownOld(s, t, key, i);
      } else {
        ChainGrownNew(s, t, key);
      }
    }
    forall k | 0 <= k < |t.runs| ensures DataStored(t.disk, t.runs[k]) {
      assert DataStored(s.disk, s.runs[k]);
      forall b | s.runs[k].start <= b < s.runs[k].start + DataBlocks(|s.runs[k].content|) && InDisk(s.disk, b)
        ensures InDisk(t.disk, b) && Block(t.disk, b) == Block(s.disk, b)
      {
        RunAvoidsDir(s, k, b, |s.dirs| - 1);
      }
      RunKept(s, t, s.runs[k]);
    }
  }

  /** A slot matches a key exactly when it holds it; an empty slot matches the empty key. */
  lemma SlotMatches(dir: seq<byte>, names: seq<Key>, runs: seq<Run>, i: int, e: int, key: Key)
    requires |dir| == BLOCK_SIZE && 0 <= e < DIR_ENTRIES && 0 <= i && |names| <= |runs| && Slot(dir, names, runs, i, e)
    ensures var k := i * DIR_ENTRIES + e;
            CString(FieldOf(dir, e)) == key <==> if k < |names| then names[k] == key else key == []
  {
  }

  // ---- initDisk ----

  function InitialBlock(n: nat, i: nat): (s: seq<byte>)
    ensures |s| == BLOCK_SIZE
  {
    WithNext(Zeros(BLOCK_SIZE), if i + 1 == n then 0 else i + 1)
  }

  lemma InitialSound(s: Store)
    requires 1 <= s.initial <= MAX_BLOCKS && s.nextFreeBlock == s.initial && |s.disk| == s.initial * BLOCK_SIZE
    requires |s.dirs| == s.initial && (forall i :: 0 <= i < s.initial ==> s.dirs[i] == i)
    requires |s.owner| == s.initial && (forall i :: 0 <= i < s.initial ==> s.owner[i] == DirUse(i))
    requires s.names == [] && s.runs == []
    requires forall i :: 0 <= i < s.initial ==> Block(s.disk, i) == InitialBlock(s.initial, i)
    ensures Sound(s)
  {
    forall i | 0 <= i < |s.dirs| ensures DirBlock(s, i) {
      NextWritten(Zeros(BLOCK_SIZE), DirSuccessor(s.dirs, i), 0);
      forall e | 0 <= e < DIR_ENTRIES ensures Slot(Block(s.disk, s.dirs[i]), s.names, s.runs, i, e) {
        NextWritten(Zeros(BLOCK_SIZE), DirSuccessor(s.dirs, i), e);
        EmptyDirBlock(e);
      }
    }
  }

  // ---- reading a run ----

  /** The reader's inner loop on any disk: block after block, up to the first NUL. None is the
      case where no NUL comes before the disk ends; the loop then never does. */
  function ReadRun(d: seq<byte>, b: int): Option<seq<byte>>
    decreases |d| - b * BLOCK_SIZE
  {
    if !InDisk(d, b) then None
    else if |CString(Block(d, b))| < BLOCK_SIZE then Some(CString(Block(d, b)))
    else Follow(Block(d, b), ReadRun(d, b + 1))
  }

  function Follow(s: seq<byte>, r: Option<seq<byte>>): Option<seq<byte>> {
    match r case None => None case Some(t) => Some(s + t)
  }

  lemma FollowNothing(r: Option<seq<byte>>)
    ensures Follow([], r) == r
  {
    if r.Some? {
      assert [] + r.value == r.value;
    }
  }

  lemma FollowTwice(s: seq<byte>, t: seq<byte>, r: Option<seq<byte>>)
    ensures Follow(s, Follow(t, r)) == Follow(s + t, r)
  {
    if r.Some? {
      assert s + (t + r.value) == s + t + r.value;
    }
  }

  /** A content the reader finds the end of inside its own blocks. */
  predicate Terminated(content: seq<byte>) {
    |content| % BLOCK_SIZE != 0 || NUL in content
  }

  function Rest(content: seq<byte>, j: nat): seq<byte> {
    if j * BLOCK_SIZE <= |content| then content[j * BLOCK_SIZE..] else []
  }

  /** A full block without NUL is passed on whole; otherwise the reader stops in this block. */
  lemma BlockReads(content: seq<byte>, j: nat)
    requires j * BLOCK_SIZE < |content|
    ensures |CString(DataBlock(content, j))| == BLOCK_SIZE <==> (j + 1) * BLOCK_SIZE <= |content| && IsCString(Piece(content, j))
    ensures |CString(DataBlock(content, j))| < BLOCK_SIZE ==> CString(DataBlock(content, j)) == CString(Rest(content, j))
    ensures |CString(DataBlock(content, j))| == BLOCK_SIZE ==>
              && DataBlock(content, j) == Piece(content, j) && Rest(content, j) == Piece(content, j) + Rest(content, j + 1)
              && CString(Rest(content, j)) == Piece(content, j) + CString(Rest(content, j + 1))
  {
    var block, piece := DataBlock(content, j), Piece(content, j);
    var c := CString(block);
    if |piece| < BLOCK_SIZE {
      CStringStops(block, |piece|);
    }
    if |c| == BLOCK_SIZE {
      assert c == block;
      assert piece == block;
      assert Rest(content, j) == piece + Rest(content, j + 1);
      CStringOfSum(piece, Rest(content, j + 1));
    } else {
      StopsHere(content, j);
    }
  }

  lemma CStringOfSum(s: seq<byte>, t: seq<byte>)
    requires IsCString(s)
    ensures CString(s + t) == s + CString(t)
  {
    CStringUnique(s + t, s + CString(t));
  }

  lemma StopsHere(content: seq<byte>, j: nat)
    requires j * BLOCK_SIZE < |content| && |CString(DataBlock(content, j))| < BLOCK_SIZE
    ensures CString(DataBlock(content, j)) == CString(Rest(content, j))
    ensures !((j + 1) * BLOCK_SIZE <= |content| && IsCString(Piece(content, j)))
  {
    var c, piece, rest := CString(DataBlock(content, j)), Piece(content, j), Rest(content, j);
    assert rest[..|piece|] == piece == DataBlock(content, j)[..|piece|];
    if |piece| < BLOCK_SIZE {
      CStringStops(DataBlock(content, j), |piece|);
    }
    assert c == rest[..|c|];
    CStringUnique(rest, c);
  }

  predicate NoNul(content: seq<byte>, from: int, to: int) {
    forall i :: from <= i < to && 0 <= i < |content| ==> content[i] != NUL
  }

  lemma BlockStops(content: seq<byte>, j: nat)
    requires j * BLOCK_SIZE < |content|
    ensures |CString(DataBlock(content, j))| == BLOCK_SIZE <==>
            (j + 1) * BLOCK_SIZE <= |content| && NoNul(content, j * BLOCK_SIZE, (j + 1) * BLOCK_SIZE)
  {
    BlockReads(content, j);
    if (j + 1) * BLOCK_SIZE <= |content| {
      var piece := Piece(content, j);
      assert forall i :: j * BLOCK_SIZE <= i < (j + 1) * BLOCK_SIZE ==> content[i] == piece[i - j * BLOCK_SIZE];
      assert forall i :: 0 <= i < BLOCK_SIZE ==> piece[i] == content[j * BLOCK_SIZE + i];
    }
  }

  /** From its j-th block on, the content ends where the reader stops. */
  predicate TerminatedFrom(content: seq<byte>, j: nat) {
    |content| % BLOCK_SIZE != 0 || !NoNul(content, j * BLOCK_SIZE, |content|)
  }

  lemma TerminatedFromStart(content: seq<byte>)
    ensures TerminatedFrom(content, 0) <==> Terminated(content)
  {
    assert !NoNul(content, 0, |content|) <==> NUL in content;
  }

  /** One block of a stored run, as the reader takes it. */
  lemma RunStep(d: seq<byte>, r: Run, j: nat)
    requires DataStored(d, r) && 0 <= r.start && j * BLOCK_SIZE < |r.content|
    ensures |CString(DataBlock(r.content, j))| < BLOCK_SIZE ==> ReadRun(d, r.start + j) == Some(CString(Rest(r.content, j)))
    ensures |CString(DataBlock(r.content, j))| == BLOCK_SIZE ==>
              ReadRun(d, r.start + j) == Follow(Piece(r.content, j), ReadRun(d, r.start + j + 1))
  {
    assert DataAt(d, r, j);
    BlockReads(r.content, j);
  }

  /** Reading a terminated run returns the content up to its first NUL. */
  lemma {:induction false} RunReadsBack(d: seq<byte>, r: Run, j: nat)
    requires DataStored(d, r) && 0 <= r.start && j * BLOCK_SIZE < |r.content| && TerminatedFrom(r.content, j)
    ensures ReadRun(d, r.start + j) == Some(CString(Rest(r.content, j)))
    decreases |r.content| - j * BLOCK_SIZE
  {
    if |CString(DataBlock(r.content, j))| < BLOCK_SIZE {
      RunStep(d, r, j);
    } else {
      RunGoesOn(r.content, j);
      RunReadsBack(d, r, j + 1);
      RunReadsOneMore(d, r, j);
    }
  }

  lemma RunReadsOneMore(d: seq<byte>, r: Run, j: nat)
    requires DataStored(d, r) && 0 <= r.start && (j + 1) * BLOCK_SIZE < |r.content|
    requires |CString(DataBlock(r.content, j))| == BLOCK_SIZE
    requires ReadRun(d, r.start + (j + 1)) == Some(CString(Rest(r.content, j + 1)))
    ensures ReadRun(d, r.start + j) == Some(CString(Rest(r.content, j)))
  {
    RunStep(d, r, j);
    BlockReads(r.content, j);
    assert r.start + (j + 1) == r.start + j + 1;
  }

  lemma RunGoesOn(content: seq<byte>, j: nat)
    requires j * BLOCK_SIZE < |content| && TerminatedFrom(content, j) && |CString(DataBlock(content, j))| == BLOCK_SIZE
    ensures (j + 1) * BLOCK_SIZE < |content| && TerminatedFrom(content, j + 1)
  {
    BlockStops(content, j);
  }

  lemma FullBlock(content: seq<byte>, j: nat)
    requires IsCString(content) && |content| % BLOCK_SIZE == 0 && j < DataBlocks(|content|)
    ensures j * BLOCK_SIZE < |content| && |CString(DataBlock(content, j))| == BLOCK_SIZE
    ensures j + 1 < DataBlocks(|content|) ==> Rest(content, j) == Piece(content, j) + Rest(content, j + 1)
    ensures j + 1 == DataBlocks(|content|) ==> Rest(content, j) == Piece(content, j)
  {
    assert (j + 1) * BLOCK_SIZE <= |content| && IsCString(Piece(content, j));
    BlockReads(content, j);
  }

  /** A run without NUL that fills its blocks is read on into the block behind it. */
  lemma {:induction false} FullRunReadsOn(d: seq<byte>, r: Run, j: nat)
    requires DataStored(d, r) && 0 <= r.start && j < DataBlocks(|r.content|)
    requires IsCString(r.content) && |r.content| % BLOCK_SIZE == 0
    ensures ReadRun(d, r.start + j) == Follow(Rest(r.content, j), ReadRun(d, r.start + DataBlocks(|r.content|)))
    decreases DataBlocks(|r.content|) - j
  {
    FullBlock(r.content, j);
    RunStep(d, r, j);
    if j + 1 < DataBlocks(|r.content|) {
      FullRunReadsOn(d, r, j + 1);
      FollowTwice(Piece(r.content, j), Rest(r.content, j + 1), ReadRun(d, r.start + DataBlocks(|r.content|)));
    }
  }

  // ---- walking the directory ----

  /** The walk from block 0 through the links visits the directory blocks in order and stops at
      the last one, because no link but the last is 0. */
  lemma DirWalk(s: Store, i: int)
    requires Consistent(s) && 0 <= i < |s.dirs|
    ensures InDisk(s.disk, s.dirs[i])
    ensures NextOfDir(Block(s.disk, s.dirs[i])) == 0 <==> i == |s.dirs| - 1
    ensures i < |s.dirs| - 1 ==> NextOfDir(Block(s.disk, s.dirs[i])) == s.dirs[i + 1]
  {
    assert DirBlock(s, i);
    if i < |s.dirs| - 1 {
      assert s.owner[s.dirs[i + 1]] == DirUse(i + 1) && s.owner[s.dirs[0]] == DirUse(0);
    }
  }

  /** strncmp with a directory entry. */
  predicate SameName(dir: seq<byte>, e: int, name: seq<byte>)
    requires |dir| == BLOCK_SIZE && 0 <= e < DIR_ENTRIES
  {
    CString(FieldOf(dir, e)) == KeyOf(name)
  }

  /** Rank k of the directory holds the key; ranks past the last name hold the empty key. */
  ghost predicate HoldsKey(names: seq<Key>, k: int, key: Key) {
    0 <= k && if k < |names| then names[k] == key else key == []
  }

  lemma EntryMeans(s: Store, i: int, e: int, name: seq<byte>)
    requires Consistent(s) && 0 <= i < |s.dirs| && 0 <= e < DIR_ENTRIES && InDisk(s.disk, s.dirs[i])
    ensures SameName(Block(s.disk, s.dirs[i]), e, name) <==> HoldsKey(s.names, i * DIR_ENTRIES + e, KeyOf(name))
    ensures DataBlockOf(Block(s.disk, s.dirs[i]), e) ==
            if i * DIR_ENTRIES + e < |s.names| then s.runs[i * DIR_ENTRIES + e].start else 0
    ensures FieldOf(Block(s.disk, s.dirs[i]), e)[0] == NUL <==> i * DIR_ENTRIES + e >= |s.names|
  {
    assert DirBlock(s, i);
    assert Slot(Block(s.disk, s.dirs[i]), s.names, s.runs, i, e);
    SlotMatches(Block(s.disk, s.dirs[i]), s.names, s.runs, i, e, KeyOf(name));
  }

  lemma NotHeld(names: seq<Key>, slots: int, key: Key)
    requires |names| <= slots && forall k :: 0 <= k < slots ==> !HoldsKey(names, k, key)
    ensures key !in names
  {
    forall k | 0 <= k < |names| ensures names[k] != key {
      assert !HoldsKey(names, k, key);
    }
  }

  // ---- catalogues ----

  /** The comma-joined catalogue, in directory order. */
  function Join(names: seq<seq<byte>>): seq<byte> {
    if names == [] then []
    else if |names| == 1 then names[0]
    else Join(names[..|names| - 1]) + [','] + names[|names| - 1]
  }

  /** An entry's name as printed: the C string that starts at the entry. */
  function EntryText(dir: seq<byte>, e: int): seq<byte>
    requires |dir| == BLOCK_SIZE && 0 <= e < DIR_ENTRIES
  {
    CString(dir[e * ENTRY_SIZE..])
  }

  /** What an entry prints as: a name that fills its field runs on into the block number. */
  function Printed(key: Key, start: int): (text: seq<byte>)
    ensures |text| <= KEY_SIZE + 4
  {
    if |key| < KEY_SIZE then key else key + CString(EncodeInt(start))
  }

  lemma EntryPrints(dir: seq<byte>, e: int, key: Key, start: int)
    requires |dir| == BLOCK_SIZE && 0 <= e < DIR_ENTRIES && FieldOf(dir, e) == NameField(key)
    requires NumberOf(dir, e) == EncodeInt(start) && 0 <= start < MAX_BLOCKS
    ensures EntryText(dir, e) == Printed(key, start)
  {
    var tail, field, number := dir[e * ENTRY_SIZE..], FieldOf(dir, e), EncodeInt(start);
    assert tail[..KEY_SIZE] == field && tail[KEY_SIZE..ENTRY_SIZE] == number;
    if |key| < KEY_SIZE {
      assert field[..|key|] == key && field[|key|] == NUL;
      assert tail[..|key|] == field[..|key|] && tail[|key|] == field[|key|];
      CStringUnique(tail, key);
    } else {
      assert field == key;
      FullNamePrints(tail, key, number);
      assert number[3] == NUL;
    }
  }

  lemma FullNamePrints(tail: seq<byte>, key: Key, number: seq<byte>)
    requires |key| == KEY_SIZE && |number| == 4 && |tail| >= ENTRY_SIZE && number[3] == NUL
    requires tail[..KEY_SIZE] == key && tail[KEY_SIZE..ENTRY_SIZE] == number
    ensures CString(tail) == key + CString(number)
  {
    var c := CString(number);
    CStringStops(number, 3);
    assert tail[..KEY_SIZE + |c|] == key + c;
    assert tail[KEY_SIZE + |c|] == number[|c|];
    CStringUnique(tail, key + c);
  }

  /** The blocks getFigureList reads for one figure: up to the first with a NUL. */
  function CountRun(d: seq<byte>, b: int): (n: Option<nat>)
    ensures n.Some? ==> n.value > 0
    decreases |d| - b * BLOCK_SIZE
  {
    if !InDisk(d, b) then None
    else if |CString(Block(d, b))| < BLOCK_SIZE then Some(1)
    else match CountRun(d, b + 1) case None => None case Some(n) => Some(n + 1)
  }

  lemma {:induction false} RunCounts(d: seq<byte>, r: Run, j: nat)
    requires DataStored(d, r) && 0 <= r.start && j < DataBlocks(|r.content|)
    ensures CountRun(d, r.start + j) == Some(DataBlocks(|r.content|) - j) <==>
            && NoNul(r.content, j * BLOCK_SIZE, (DataBlocks(|r.content|) - 1) * BLOCK_SIZE)
            && TerminatedFrom(r.content, j)
    decreases DataBlocks(|r.content|) - j
  {
    assert DataAt(d, r, j);
    BlockStops(r.content, j);
    if j + 1 < DataBlocks(|r.content|) && |CString(DataBlock(r.content, j))| == BLOCK_SIZE {
      RunCounts(d, r, j + 1);
    }
  }

  /** Exactly when the list shows the number of blocks a content takes: no NUL before its last
      block, and an end the reader finds. */
  lemma CountsExactlyWhen(s: Store, k: int)
    requires Sound(s) && 0 <= k < |s.runs|
    ensures CountRun(s.disk, s.runs[k].start) == Some(DataBlocks(|s.runs[k].content|)) <==>
            && NoNul(s.runs[k].content, 0, (DataBlocks(|s.runs[k].content|) - 1) * BLOCK_SIZE)
            && Terminated(s.runs[k].content)
  {
    RunLaidOut(s, k);
    RunCounts(s.disk, s.runs[k], 0);
    TerminatedFromStart(s.runs[k].content);
  }

  // ---- what None stands for ----

  /** The state of the loop that reads a run: the block in its buffer, the text so far, the next
      block, and the number of blocks read. A read past the end leaves the buffer as it was. */
  datatype Reader = Reader(buffer: seq<byte>, output: seq<byte>, block: int, count: nat, done: bool)

  function Turn(d: seq<byte>, r: Reader): Reader {
    if r.done then r
    else
      var buffer := if InDisk(d, r.block) then Block(d, r.block) else r.buffer;
      Reader(buffer, r.output + CString(buffer), r.block + 1, r.count + 1, |CString(buffer)| < BLOCK_SIZE)
  }

  function Turns(d: seq<byte>, r: Reader, n: nat): Reader
    decreases n
  {
    if n == 0 then r else Turns(d, Turn(d, r), n - 1)
  }

  lemma {:induction false} Stuck(d: seq<byte>, r: Reader, n: nat)
    requires !r.done && 0 <= r.block && !InDisk(d, r.block) && |CString(r.buffer)| == BLOCK_SIZE
    ensures !Turns(d, r, n).done
    decreases n
  {
    if n > 0 {
      Stuck(d, Turn(d, r), n - 1);
    }
  }

  /** After n turns the loop has ended, with this text and this count. */
  predicate Ends(d: seq<byte>, r: Reader, n: nat, text: seq<byte>) {
    var e := Turns(d, r, n);
    e.done && e.output == r.output + text && e.count == r.count + n
  }

  lemma LastTurn(d: seq<byte>, r: Reader)
    requires !r.done && InDisk(d, r.block) && |CString(Block(d, r.block))| < BLOCK_SIZE
    ensures Ends(d, r, 1, CString(Block(d, r.block)))
  {
    assert Turns(d, r, 1) == Turns(d, Turn(d, r), 0);
  }

  lemma FullTurn(d: seq<byte>, r: Reader, n: nat, text: seq<byte>)
    requires !r.done && InDisk(d, r.block) && |CString(Block(d, r.block))| == BLOCK_SIZE
    requires Ends(d, Turn(d, r), n, text)
    ensures Ends(d, r, n + 1, Block(d, r.block) + text)
  {
    var block, next := Block(d, r.block), Turn(d, r);
    assert CString(block) == block;
    assert Turns(d, r, n + 1) == Turns(d, next, n);
    TextGoesOn(r.output, block, text);
  }

  lemma TextGoesOn(s: seq<byte>, t: seq<byte>, u: seq<byte>)
    ensures s + (t + u) == s + t + u
  {
  }

  lemma {:induction false} ReaderEnds(d: seq<byte>, r: Reader)
    requires !r.done && 0 <= r.block && ReadRun(d, r.block).Some?
    ensures CountRun(d, r.block).Some? && Ends(d, r, CountRun(d, r.block).value, ReadRun(d, r.block).value)
    decreases |d| - r.block * BLOCK_SIZE
  {
    if |CString(Block(d, r.block))| < BLOCK_SIZE {
      LastTurn(d, r);
    } else {
      ReaderEnds(d, Turn(d, r));
      FullTurn(d, r, CountRun(d, r.block + 1).value, ReadRun(d, r.block + 1).value);
    }
  }

  lemma {:induction false} ReaderRunsOn(d: seq<byte>, r: Reader, n: nat)
    requires !r.done && 0 <= r.block && ReadRun(d, r.block).None?
    requires InDisk(d, r.block) || |CString(r.buffer)| == BLOCK_SIZE
    ensures CountRun(d, r.block).None? && !Turns(d, r, n).done
    decreases |d| - r.block * BLOCK_SIZE, n
  {
    if !InDisk(d, r.block) {
      Stuck(d, r, n);
    } else {
      ReaderRunsOn(d, Turn(d, r), if n == 0 then 0 else n - 1);
    }
  }

  /** The loop ends with what ReadRun and CountRun say, and never ends where they say None. */
  lemma LoopMeans(d: seq<byte>, b: int, garbage: seq<byte>)
    requires InDisk(d, b)
    ensures var r := Reader(garbage, [], b, 0, false);
            match ReadRun(d, b)
            case None => CountRun(d, b) == None && forall n: nat :: !Turns(d, r, n).done
            case Some(text) =>
              CountRun(d, b).Some? && Ends(d, r, CountRun(d, b).value, text)
  {
    var r := Reader(garbage, [], b, 0, false);
    if ReadRun(d, b).Some? {
      ReaderEnds(d, r);
    } else {
      forall n: nat ensures CountRun(d, b) == None && !Turns(d, r, n).done {
        ReaderRunsOn(d, r, n);
      }
      ReaderRunsOn(d, r, 0);
    }
  }

  // ---- exactly when a figure reads back ----

  predicate StartsWithNul(d: seq<byte>, b: int) {
    InDisk(d, b) && Block(d, b)[0] == NUL
  }

  lemma NothingReads(d: seq<byte>, b: int)
    ensures ReadRun(d, b) == Some([]) <==> StartsWithNul(d, b)
  {
    if InDisk(d, b) {
      assert CString(Block(d, b)) == [] <==> Block(d, b)[0] == NUL;
    }
  }

  /** Behind a run comes the end of the disk, another run, or a directory block with a name in it. */
  lemma BehindRun(s: Store, k: int, b: int)
    requires Sound(s) && 0 <= k < |s.runs| && b == s.runs[k].start + DataBlocks(|s.runs[k].content|)
    requires forall i :: 0 <= i < |s.runs| ==> s.runs[i].content[..1] != [NUL]
    ensures !StartsWithNul(s.disk, b)
  {
    assert DataStored(s.disk, s.runs[k]);
    assert RunBlock(s, k, b - 1 - s.runs[k].start);
    if InDisk(s.disk, b) {
      assert Used(s, b);
      match s.owner[b]
      case DirUse(i) =>
        InitialUse(s, b);
        assert DirBlock(s, i) && Slot(Block(s.disk, b), s.names, s.runs, i, 0);
        assert FieldOf(Block(s.disk, b), 0)[0] == Block(s.disk, b)[0];
      case DataUse(k', j) =>
        RunStartsBehind(s, k, b, k', j);
        assert DataStored(s.disk, s.runs[k']) && DataAt(s.disk, s.runs[k'], 0);
        assert Block(s.disk, b)[0] == Piece(s.runs[k'].content, 0)[0] == s.runs[k'].content[0];
        assert s.runs[k'].content[..1] == [s.runs[k'].content[0]];
    }
  }

  /** The first blocks are the initial directory blocks. */
  lemma InitialUse(s: Store, b: int)
    requires Sound(s) && 0 < b < |s.owner| && s.owner[b].DirUse? && s.owner[b - 1].DataUse?
    ensures s.initial <= s.owner[b].i
  {
    assert Used(s, b);
    forall n | 0 <= n < s.initial ensures n < |s.owner| && s.owner[n].DirUse? {
      assert s.dirs[n] == n;
    }
  }

  /** The first data block behind a run is the first block of its run. */
  lemma RunStartsBehind(s: Store, k: int, b: int, k': int, j: int)
    requires Sound(s) && 0 <= k < |s.runs| && b == s.runs[k].start + DataBlocks(|s.runs[k].content|)
    requires 0 <= b < |s.owner| && s.owner[b] == DataUse(k', j)
    ensures j == 0
  {
    assert DataStored(s.disk, s.runs[k]);
    assert Used(s, b) && RunBlock(s, k, DataBlocks(|s.runs[k].content|) - 1);
    if j > 0 {
      RunOwner(s, k', j - 1);
    }
  }

  lemma RunOwner(s: Store, k: int, j: int)
    requires Sound(s) && 0 <= k < |s.runs| && 0 <= j < DataBlocks(|s.runs[k].content|)
    ensures 0 <= s.runs[k].start + j < |s.owner| && s.owner[s.runs[k].start + j] == DataUse(k, j)
  {
    assert RunBlock(s, k, j);
  }

  lemma TerminatedReadsBack(s: Store, k: int)
    requires Sound(s) && 0 <= k < |s.runs| && Terminated(s.runs[k].content)
    ensures ReadRun(s.disk, s.runs[k].start) == Some(CString(s.runs[k].content))
  {
    RunLaidOut(s, k);
    assert Rest(s.runs[k].content, 0) == s.runs[k].content;
    TerminatedFromStart(s.runs[k].content);
    RunReadsBack(s.disk, s.runs[k], 0);
  }

  lemma RunLaidOut(s: Store, k: int)
    requires Sound(s) && 0 <= k < |s.runs|
    ensures DataStored(s.disk, s.runs[k]) && 0 <= s.runs[k].start
  {
    assert DataStored(s.disk, s.runs[k]);
    assert RunBlock(s, k, 0);
  }

  lemma UnterminatedReadsOn(s: Store, k: int)
    requires Sound(s) && 0 <= k < |s.runs| && !Terminated(s.runs[k].content)
    ensures ReadRun(s.disk, s.runs[k].start) == Follow(s.runs[k].content, ReadRun(s.disk, Behind(s.runs[k])))
  {
    RunLaidOut(s, k);
    UnterminatedRun(s.disk, s.runs[k]);
  }

  lemma UnterminatedRun(d: seq<byte>, r: Run)
    requires DataStored(d, r) && 0 <= r.start && !Terminated(r.content)
    ensures ReadRun(d, r.start) == Follow(r.content, ReadRun(d, Behind(r)))
  {
    assert Rest(r.content, 0) == r.content;
    FullRunReadsOn(d, r, 0);
  }

  /** The first block behind a run. */
  function Behind(r: Run): int {
    r.start + DataBlocks(|r.content|)
  }

  /** A figure reads back as it was added exactly when it holds no NUL and either does not fill
      its last block or is followed by a block that starts with a NUL. */
  lemma ReadsBackExactlyWhen(s: Store, k: int)
    requires Sound(s) && 0 <= k < |s.runs|
    ensures ReadRun(s.disk, s.runs[k].start) == Some(s.runs[k].content) <==>
            && IsCString(s.runs[k].content)
            && (|s.runs[k].content| % BLOCK_SIZE != 0 || StartsWithNul(s.disk, Behind(s.runs[k])))
  {
    var r := s.runs[k];
    if Terminated(r.content) {
      TerminatedReadsBack(s, k);
      if IsCString(r.content) {
        CStringUnique(r.content, r.content);
      }
    } else {
      UnterminatedReadsOn(s, k);
      NothingReads(s.disk, Behind(r));
      assert r.content + [] == r.content;
    }
  }

  /** So among figures that start with a character, exactly those without a NUL and with a length
      that is no multiple of the block size read back as they were added. */
  lemma CharactersReadBack(s: Store, k: int)
    requires Sound(s) && 0 <= k < |s.runs|
    requires forall i :: 0 <= i < |s.runs| ==> s.runs[i].content[..1] != [NUL]
    ensures ReadRun(s.disk, s.runs[k].start) == Some(s.runs[k].content) <==>
            IsCString(s.runs[k].content) && |s.runs[k].content| % BLOCK_SIZE != 0
  {
    ReadsBackExactlyWhen(s, k);
    BehindRun(s, k, Behind(s.runs[k]));
  }
}

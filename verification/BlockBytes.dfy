/** The linked-block file system in numbers: which bytes of the disk hold what, and how many blocks
    every operation takes or gives back. */
module BlockBytes {
  import opened Options
  import opened Blocks
  import opened Volumes
  import opened Steps
  import opened Deletion
  import opened Reading

  // ---- bytes ----

  /** The blocks of a file: 251 bytes of its text in each but the last, behind a flag byte of
      1, and the number of the next block in the last four bytes. */
  lemma ChainBytes(v: Volume, l: Layout, name: Name, j: nat)
    requires Inv(v, l) && name in l.files && j < |l.files[name].chain|
    ensures |l.files[name].chain| == (|l.files[name].text| + 250) / 251
    ensures ChainBlockAt(v.disk, l.files[name].chain, l.files[name].text, j)
  {
    var f := l.files[name];
    assert Stored(v.disk, f);
    assert f.chain[j] in l.owner && l.owner[f.chain[j]] == DataOf(name, j);
    assert Block(v.disk, f.chain[j])[0] == 1 as char;
    assert Holds(v.disk, f.chain[j], f.text, j, Successor(f.chain, j, 0));
    HeldBytes(v.disk, f.chain[j], f.text, j, Successor(f.chain, j, 0));
  }

  ghost predicate ChainBlockAt(d: seq<byte>, chain: seq<int>, text: Text, j: nat)
    requires j < |chain|
  {
    HeldAt(d, chain[j], text, j, if j + 1 < |chain| then chain[j + 1] else 0)
  }

  ghost predicate HeldAt(d: seq<byte>, b: int, text: Text, j: nat, next: int) {
    && 0 <= 256 * b && 256 * b + 256 <= |d| && 251 * j <= |text|
    && d[256 * b] == 1 as char
    && (251 * (j + 1) <= |text| ==> d[256 * b + 1..256 * b + 252] == text[251 * j..251 * (j + 1)])
    && (|text| < 251 * (j + 1) ==> d[256 * b + 1..256 * b + 1 + (|text| - 251 * j)] == text[251 * j..])
    && DecodeInt(d[256 * b + 252..256 * b + 256]) == next
  }

  lemma HeldBytes(d: seq<byte>, b: int, text: Text, j: nat, next: int)
    requires Holds(d, b, text, j, next) && Block(d, b)[0] == 1 as char
    ensures HeldAt(d, b, text, j, next)
  {
    var piece := Chunk(text, j);
    ReadInBlock(d, b, 1, |piece|);
    ReadInBlock(d, b, 252, 4);
    assert Block(d, b)[252..] == Block(d, b)[252..256];
    assert |text| < 251 * (j + 1) ==> text[251 * j..] == piece;
  }

  /** The flag byte is 1 for a block in use, and a free block is 256 zero bytes. */
  lemma FlagBytes(v: Volume, l: Layout, b: int)
    requires Inv(v, l) && 1 <= b < v.totalBlocks
    ensures v.disk[256 * b] == if b in l.owner then 1 as char else 0 as char
    ensures b !in l.owner ==> v.disk[256 * b..256 * b + 256] == seq(256, _ => 0 as char)
  {
    assert v.disk[256 * b] == Block(v.disk, b)[0];
    if b !in l.owner {
      assert Block(v.disk, b) == Zeros(BLOCK_SIZE);
    }
  }

  /** The bytes of an inode: a name field of 32 bytes and five ints. */
  ghost predicate InodeAt(d: seq<byte>, at: int, i: Inode) {
    && 0 <= at && at + 52 <= |d|
    && d[at..at + 32] == i.filename
    && DecodeInt(d[at + 32..at + 36]) == i.size && DecodeInt(d[at + 36..at + 40]) == i.origBlock
    && DecodeInt(d[at + 40..at + 44]) == i.startBlock && DecodeInt(d[at + 44..at + 48]) == i.countBlock
    && DecodeInt(d[at + 48..at + 52]) == i.nextInode
  }

  /** On a saved disk, every inode stands behind the flag byte of its block. */
  lemma SavedInodeBytes(v: Volume, l: Layout, i: Inode)
    requires Persistent(v, l) && i in v.table
    ensures InodeAt(v.disk, 256 * i.origBlock + 1, i)
  {
    PersistentList(v, l);
    ListedInodeBytes(v.disk, v.table, i);
  }

  lemma ListedInodeBytes(d: seq<byte>, table: seq<Inode>, i: Inode)
    requires InodeList(d, table) && i in table
    ensures InodeAt(d, 256 * i.origBlock + 1, i)
  {
    var k :| 0 <= k < |table| && table[k] == i;
    var next := NextInTable(table, k + 1);
    InodeBytes(d, i.origBlock, i);
  }

  lemma InodeBytes(d: seq<byte>, b: int, i: Inode)
    requires InDisk(d, b) && DecodeInode(Block(d, b)[1..1 + INODE_SIZE]) == i
    ensures InodeAt(d, 256 * b + 1, i)
  {
    Field(d, b, 0, 32);
    Field(d, b, 32, 4);
    Field(d, b, 36, 4);
    Field(d, b, 40, 4);
    Field(d, b, 44, 4);
    Field(d, b, 48, 4);
  }

  lemma Field(d: seq<byte>, b: int, from: nat, n: nat)
    requires InDisk(d, b) && from + n <= 52
    ensures Block(d, b)[1..53][from..from + n] == d[256 * b + 1 + from..256 * b + 1 + from + n]
  {
    ReadInBlock(d, b, 1 + from, n);
    assert Block(d, b)[1..53][from..from + n] == Block(d, b)[1 + from..1 + from + n];
  }

  // ---- blocks taken and given back ----

  /** Blocks a text of n bytes takes when it is made: even an empty one takes one. */
  function TextBlocks(n: nat): nat {
    if n == 0 then 1 else (n + 250) / 251
  }

  /** By how much a disk with this many free blocks grows for k more: whole extensions of 64. */
  function Growth(free: int, k: nat): int {
    if k <= free then 0 else (k - free + 63) / 64 * 64
  }

  lemma TakenInNumbers(r: Room, k: nat)
    requires 0 <= r.free
    ensures TakeMany(r, k) == Room(r.total + Growth(r.free, k), r.free + Growth(r.free, k) - k)
  {
    TakeManyMeans(r, k);
  }

  lemma TextBlocksInNumbers(text: Text)
    ensures ClaimsFor(text) == TextBlocks(|text|) && BlocksFor(|text|) == (|text| + 250) / 251
  {
  }

  /** A make of n bytes puts exactly one block for the inode and the blocks of the text in use, and
      lets the disk grow by whole extensions only as far as they need it. */
  lemma MakeCost(v: Volume, l: Layout, w: Volume, m: Layout, name: Name, text: Text)
    requires Inv(v, l) && Inv(w, m) && Made(v, l, w, m, name, text)
    ensures w.usedBlocks == v.usedBlocks + 1 + if text == [] then 1 else (|text| + 250) / 251
    ensures w.totalBlocks == v.totalBlocks + Growth(v.freeBlocks, 1 + TextBlocks(|text|))
  {
    CountersOf(v, l);
    CountersOf(w, m);
    RoomCost(v, w, text);
  }

  lemma RoomCost(v: Volume, w: Volume, text: Text)
    requires RoomOf(w) == TakeMany(RoomOf(v), 1 + ClaimsFor(text)) && 0 <= v.freeBlocks
    requires v.usedBlocks == v.totalBlocks - 1 - v.freeBlocks && w.usedBlocks == w.totalBlocks - 1 - w.freeBlocks
    ensures w.usedBlocks == v.usedBlocks + 1 + if text == [] then 1 else (|text| + 250) / 251
    ensures w.totalBlocks == v.totalBlocks + Growth(v.freeBlocks, 1 + TextBlocks(|text|))
  {
    TextBlocksInNumbers(text);
    TakenInNumbers(RoomOf(v), 1 + ClaimsFor(text));
  }

  lemma CountersOf(v: Volume, l: Layout)
    requires Inv(v, l)
    ensures 0 <= v.freeBlocks && v.usedBlocks == v.totalBlocks - 1 - v.freeBlocks
  {
    FullExactlyWhenAllOwned(v, l.owner);
  }

  /** A delete gives back the inode's block and the blocks of the text, and never shrinks the disk. */
  lemma DeleteCost(v: Volume, l: Layout, w: Volume, m: Layout, k: nat)
    requires Inv(v, l) && Inv(w, m) && Deleted(v, l, w, m, k)
    ensures w.usedBlocks == v.usedBlocks - 1 - (|l.files[l.order[k]].text| + 250) / 251
    ensures w.totalBlocks == v.totalBlocks
  {
    assert Stored(v.disk, l.files[l.order[k]]);
    TextBlocksInNumbers(l.files[l.order[k]].text);
  }
}

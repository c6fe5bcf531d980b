/** The state of the linked-block file system and what it means for that state to be sound.
    A volume is the disk image together with the superblock's fields and inode table. A
    layout is the ghost view: for every file its text and the blocks it occupies, and for
    every block in use the one thing that owns it. */
module Volumes {
  import opened Blocks

  type Name = seq<byte>
  type Text = seq<byte>

  const NAME_SIZE := 32
  const INODE_SIZE := 52
  const USED: byte := 1 as char
  const PAYLOAD := 251     // a block without its flag byte and its 4-byte next pointer
  const NEXT_AT := 252
  const EXTENSION := 64

  // ---- inodes and their image on disk ----

  datatype Inode = Inode(
    filename: seq<byte>, size: int, origBlock: int, startBlock: int, countBlock: int, nextInode: int)

  predicate IsName(name: Name) {
    IsCString(name) && |name| < NAME_SIZE
  }

  function Filename(name: Name): (f: seq<byte>)
    requires IsName(name)
    ensures |f| == NAME_SIZE && CString(f) == name
  {
    var f := name + Zeros(NAME_SIZE - |name|);
    CStringUnique(f, name);
    f
  }

  function NextInTable(t: seq<Inode>, k: int): int {
    if 0 <= k < |t| then t[k].origBlock else 0
  }

  /** Every entry points to the block of the next one, and the last to 0. */
  ghost predicate LinkedUp(t: seq<Inode>) {
    forall k {:trigger NextInTable(t, k + 1)} :: 0 <= k < |t| ==> t[k].nextInode == NextInTable(t, k + 1)
  }

  predicate Storable(i: Inode) {
    && |i.filename| == NAME_SIZE
    && IsInt(i.size) && IsInt(i.origBlock) && IsInt(i.startBlock) && IsInt(i.countBlock) && IsInt(i.nextInode)
  }

  function EncodeInode(i: Inode): (s: seq<byte>)
    requires |i.filename| == NAME_SIZE
    ensures |s| == INODE_SIZE
  {
    i.filename + EncodeInt(i.size) + EncodeInt(i.origBlock) + EncodeInt(i.startBlock)
    + EncodeInt(i.countBlock) + EncodeInt(i.nextInode)
  }

  function DecodeInode(s: seq<byte>): Inode
    requires |s| == INODE_SIZE
  {
    Inode(s[..32], DecodeInt(s[32..36]), DecodeInt(s[36..40]), DecodeInt(s[40..44]),
          DecodeInt(s[44..48]), DecodeInt(s[48..52]))
  }

  lemma InodeRoundTrip(i: Inode)
    requires Storable(i)
    ensures DecodeInode(EncodeInode(i)) == i
  {
    var s := EncodeInode(i);
    assert s[..32] == i.filename;
    assert s[32..36] == EncodeInt(i.size) && s[36..40] == EncodeInt(i.origBlock);
    assert s[40..44] == EncodeInt(i.startBlock) && s[44..48] == EncodeInt(i.countBlock);
    assert s[48..52] == EncodeInt(i.nextInode);
    DecodeEncode(i.size);
    DecodeEncode(i.origBlock);
    DecodeEncode(i.startBlock);
    DecodeEncode(i.countBlock);
    DecodeEncode(i.nextInode);
  }

  // ---- volumes and layouts ----

  datatype Volume = Volume(
    disk: seq<byte>, initBlocks: int, totalBlocks: int, freeBlocks: int, usedBlocks: int,
    inodeCount: int, table: seq<Inode>)

  datatype File = File(origBlock: int, startBlock: int, chain: seq<int>, text: Text)

  datatype Owner = InodeOf(name: Name) | DataOf(name: Name, index: int) | Orphan

  datatype Layout = Layout(order: seq<Name>, files: map<Name, File>, owner: map<int, Owner>)

  /** The file system as its user sees it. */
  function Texts(l: Layout): (m: map<Name, Text>)
    ensures m.Keys == l.files.Keys
  {
    map n | n in l.files :: l.files[n].text
  }

  function BlocksFor(n: nat): nat {
    (n + PAYLOAD - 1) / PAYLOAD
  }

  function Chunk(text: Text, j: nat): (c: seq<byte>)
    requires j * PAYLOAD <= |text|
    ensures |c| <= PAYLOAD
  {
    text[j * PAYLOAD..if (j + 1) * PAYLOAD <= |text| then (j + 1) * PAYLOAD else |text|]
  }

  function Next(d: seq<byte>, b: int): int
    requires InDisk(d, b)
  {
    DecodeInt(Block(d, b)[NEXT_AT..])
  }

  // ---- the invariant ----

  ghost predicate Geometry(v: Volume) {
    && v.initBlocks == 1
    && 1 <= v.totalBlocks <= MAX_BLOCKS
    && |v.disk| == v.totalBlocks * BLOCK_SIZE
    && 0 <= v.inodeCount <= INT_MAX
  }

  /** A block is flagged exactly when something owns it, a free block is entirely zero, and
      the counters count. */
  ghost predicate Accounting(v: Volume, owner: map<int, Owner>)
    requires Geometry(v)
  {
    && (forall b :: b in owner ==> 1 <= b < v.totalBlocks)
    && (forall b :: 1 <= b < v.totalBlocks ==>
          if b in owner then Block(v.disk, b)[0] == USED else Block(v.disk, b) == Zeros(BLOCK_SIZE))
    && v.usedBlocks == |owner|
    && v.freeBlocks == v.totalBlocks - 1 - v.usedBlocks
  }

  /** Every block belongs to one inode, one place in one chain, or nobody. */
  ghost predicate Ownership(l: Layout) {
    && (forall n :: n in l.files ==>
          l.files[n].origBlock in l.owner && l.owner[l.files[n].origBlock] == InodeOf(n))
    && (forall n, j :: n in l.files && 0 <= j < |l.files[n].chain| ==>
          l.files[n].chain[j] in l.owner && l.owner[l.files[n].chain[j]] == DataOf(n, j))
    && (forall b :: b in l.owner ==> Owned(l, b))
  }

  ghost predicate Owned(l: Layout, b: int)
    requires b in l.owner
  {
    match l.owner[b]
    case InodeOf(n) => n in l.files && l.files[n].origBlock == b
    case DataOf(n, j) => n in l.files && 0 <= j < |l.files[n].chain| && l.files[n].chain[j] == b
    case Orphan => true
  }

  ghost predicate Named(l: Layout) {
    && (forall i, j :: 0 <= i < j < |l.order| ==> l.order[i] != l.order[j])
    && (forall n :: n in l.order <==> n in l.files)
    && (forall n :: n in l.files ==> IsName(n))
  }

  /** The inode the table must hold at position k. */
  ghost function Entry(l: Layout, k: int): Inode
    requires Named(l) && 0 <= k < |l.order|
  {
    var f := l.files[l.order[k]];
    Inode(Filename(l.order[k]), |f.text|, f.origBlock, f.startBlock, |f.chain|,
          if k + 1 < |l.order| then l.files[l.order[k + 1]].origBlock else 0)
  }

  ghost predicate Tabled(v: Volume, l: Layout)
    requires Named(l)
  {
    && |v.table| == |l.order| <= v.inodeCount
    && forall k :: 0 <= k < |v.table| ==> v.table[k] == Entry(l, k)
  }

  /** Block b holds the j-th piece of the text and points to `next`. */
  ghost predicate Holds(d: seq<byte>, b: int, text: Text, j: int, next: int) {
    && InDisk(d, b)
    && 0 <= j && j * PAYLOAD <= |text|
    && Block(d, b)[1..1 + |Chunk(text, j)|] == Chunk(text, j)
    && Next(d, b) == next
  }

  ghost function Successor(chain: seq<int>, j: int, last: int): int
    requires 0 <= j < |chain|
  {
    if j + 1 < |chain| then chain[j + 1] else last
  }

  /** The blocks of `chain` hold the text's leading pieces and the last one points to `last`. */
  ghost predicate Chained(d: seq<byte>, chain: seq<int>, text: Text, last: int) {
    forall j {:trigger Successor(chain, j, last)} :: 0 <= j < |chain| ==> Holds(d, chain[j], text, j, Successor(chain, j, last))
  }

  ghost predicate Stored(d: seq<byte>, f: File) {
    && IsCString(f.text) && |f.text| <= INT_MAX
    && InDisk(d, f.startBlock)
    && |f.chain| == BlocksFor(|f.text|)
    && (f.chain != [] ==> f.startBlock == f.chain[0])
    && Chained(d, f.chain, f.text, 0)
  }

  ghost predicate Inv(v: Volume, l: Layout) {
    && Geometry(v)
    && Accounting(v, l.owner)
    && Ownership(l)
    && Named(l)
    && Tabled(v, l)
    && forall n :: n in l.files ==> Stored(v.disk, l.files[n])
  }

  // ---- frame lemmas ----

  lemma StoredFrame(d: seq<byte>, e: seq<byte>, f: File)
    requires Stored(d, f) && |d| <= |e|
    requires forall j :: 0 <= j < |f.chain| ==>
               InDisk(d, f.chain[j]) && InDisk(e, f.chain[j]) && Block(e, f.chain[j]) == Block(d, f.chain[j])
    ensures Stored(e, f)
  {
    forall j | 0 <= j < |f.chain|
      ensures Holds(e, f.chain[j], f.text, j, Successor(f.chain, j, 0))
    {
      assert Holds(d, f.chain[j], f.text, j, Successor(f.chain, j, 0));
    }
  }

  /** The block numbers 1..n-1. */
  function Range(n: int): (r: set<int>)
    requires 1 <= n
    ensures forall b :: b in r <==> 1 <= b < n
    ensures |r| == n - 1
  {
    if n == 1 then {} else Range(n - 1) + {n - 1}
  }

  lemma SubsetSize(a: set<int>, b: set<int>)
    requires a <= b
    ensures |a| <= |b|
    ensures |a| == |b| ==> a == b
  {
    assert b == a + (b - a);
    assert |b| == |a| + |b - a|;
  }

  /** The free counter is zero exactly when no block is free. */
  lemma FullExactlyWhenAllOwned(v: Volume, owner: map<int, Owner>)
    requires Geometry(v) && Accounting(v, owner)
    ensures 0 <= v.freeBlocks
    ensures v.freeBlocks == 0 <==> forall b :: 1 <= b < v.totalBlocks ==> b in owner
  {
    assert owner.Keys <= Range(v.totalBlocks);
    SubsetSize(owner.Keys, Range(v.totalBlocks));
    if forall b :: 1 <= b < v.totalBlocks ==> b in owner {
      assert owner.Keys == Range(v.totalBlocks);
    }
  }

  lemma AddKey(owner: map<int, Owner>, b: int, o: Owner)
    requires b !in owner
    ensures |owner[b := o]| == |owner| + 1
  {
    assert owner[b := o].Keys == owner.Keys + {b};
    assert |owner[b := o]| == |owner[b := o].Keys|;
  }

  lemma RemoveKey(owner: map<int, Owner>, b: int)
    requires b in owner
    ensures |owner - {b}| == |owner| - 1
  {
    assert (owner - {b}).Keys == owner.Keys - {b};
    assert |owner - {b}| == |(owner - {b}).Keys|;
  }

  // ---- room on the disk ----

  datatype Room = Room(total: int, free: int)

  /** Taking one block: a full disk first grows by EXTENSION blocks. */
  function Take(r: Room): Room {
    if r.free == 0 then Room(r.total + EXTENSION, EXTENSION - 1) else Room(r.total, r.free - 1)
  }

  function TakeMany(r: Room, k: nat): Room {
    if k == 0 then r else Take(TakeMany(r, k - 1))
  }

  /** Closed form: k blocks more in use, and just enough whole extensions to hold them. */
  lemma {:induction false} TakeManyMeans(r: Room, k: nat)
    requires 0 <= r.free
    ensures var s := TakeMany(r, k);
            && s.total - s.free == r.total - r.free + k
            && s.total == r.total + (if k <= r.free then 0 else (k - r.free + EXTENSION - 1) / EXTENSION * EXTENSION)
            && 0 <= s.free
  {
    if k > 0 {
      TakeManyMeans(r, k - 1);
    }
  }

  lemma {:induction false} TakeManyMonotone(r: Room, j: nat, k: nat)
    requires 0 <= r.free && j <= k
    ensures TakeMany(r, j).total <= TakeMany(r, k).total
  {
    if j < k {
      TakeManyMonotone(r, j, k - 1);
    }
  }

  lemma {:induction false} TakeManyPlus(r: Room, k: nat)
    ensures TakeMany(Take(r), k) == TakeMany(r, 1 + k)
  {
    if k > 0 {
      TakeManyPlus(r, k - 1);
    }
  }
}

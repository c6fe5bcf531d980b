/** Reading a file back, and the disk image a saved volume leaves for the next session. */
module Reading {
  import opened Options
  import opened Blocks
  import opened Volumes
  import opened Steps

  // ---- rd_file ----

  /** What the reader's loop returns from block b with `remaining` characters to go, on any
      disk: None is one of its two error exits. */
  function ReadChain(d: seq<byte>, b: int, remaining: nat): Option<seq<byte>>
    requires remaining > 0
    decreases remaining
  {
    var toRead := if remaining < PAYLOAD then remaining else PAYLOAD;
    if !InDisk(d, b) then None
    else if remaining == toRead then Some(Block(d, b)[1..1 + toRead])
    else if Next(d, b) <= 0 then None
    else Prepend(Block(d, b)[1..1 + toRead], ReadChain(d, Next(d, b), remaining - toRead))
  }

  function Prepend(s: seq<byte>, r: Option<seq<byte>>): Option<seq<byte>> {
    match r case None => None case Some(t) => Some(s + t)
  }

  lemma PrependNothing(r: Option<seq<byte>>)
    ensures Prepend([], r) == r
  {
    if r.Some? {
      assert [] + r.value == r.value;
    }
  }

  lemma PrependTwice(s: seq<byte>, t: seq<byte>, r: Option<seq<byte>>)
    ensures Prepend(s, Prepend(t, r)) == Prepend(s + t, r)
  {
    if r.Some? {
      assert s + (t + r.value) == s + t + r.value;
    }
  }

  lemma {:induction false} ChainReadsBack(d: seq<byte>, f: File, j: nat)
    requires Stored(d, f) && j < |f.chain|
    requires forall i :: 0 <= i < |f.chain| ==> 1 <= f.chain[i]
    ensures j * PAYLOAD < |f.text|
    ensures ReadChain(d, f.chain[j], |f.text| - j * PAYLOAD) == Some(f.text[j * PAYLOAD..])
    decreases |f.chain| - j
  {
    assert Holds(d, f.chain[j], f.text, j, Successor(f.chain, j, 0));
    if j + 1 < |f.chain| {
      ChainReadsBack(d, f, j + 1);
      assert Chunk(f.text, j) + f.text[(j + 1) * PAYLOAD..] == f.text[j * PAYLOAD..];
    } else {
      assert Chunk(f.text, j) == f.text[j * PAYLOAD..];
    }
  }

  /** The round trip: the reader finds the whole text of every stored non-empty file. */
  lemma FileReadsBack(v: Volume, l: Layout, name: Name)
    requires Inv(v, l) && name in l.files && l.files[name].text != []
    ensures ReadChain(v.disk, l.files[name].startBlock, |l.files[name].text|) == Some(l.files[name].text)
  {
    var f := l.files[name];
    assert Stored(v.disk, f);
    forall i | 0 <= i < |f.chain| ensures 1 <= f.chain[i] {
      assert f.chain[i] in l.owner && l.owner[f.chain[i]] == DataOf(name, i);
    }
    ChainReadsBack(v.disk, f, 0);
  }

  lemma WholeBlocks(v: Volume)
    requires Geometry(v)
    ensures |v.disk| % BLOCK_SIZE == 0
  {
  }

  /** What rd_file finds at the index of a lookup. */
  lemma FoundFile(v: Volume, l: Layout, name: Name, index: int)
    requires Inv(v, l) && -1 <= index < |v.table|
    requires index == -1 ==> forall i :: 0 <= i < |v.table| ==> CString(v.table[i].filename) != name
    requires index != -1 ==> CString(v.table[index].filename) == name
    ensures |v.disk| % BLOCK_SIZE == 0
    ensures (if index == -1 || v.table[index].startBlock < 0 || v.table[index].size <= 0 then None
             else ReadChain(v.disk, v.table[index].startBlock, v.table[index].size)) ==
            if name in l.files && l.files[name].text != [] then Some(l.files[name].text) else None
  {
    WholeBlocks(v);
    FoundExactlyWhenNamed(v, l, name, index);
    if index != -1 {
      InodeOfFile(v, l, index);
      if l.files[name].text != [] {
        FileReadsBack(v, l, name);
      }
    }
  }

  // ---- save_Bs and the reloading constructor ----

  const HEADER_SIZE := 24

  function Header(v: Volume): (h: seq<byte>)
    ensures |h| == HEADER_SIZE
  {
    EncodeInt(v.initBlocks) + EncodeInt(v.totalBlocks) + EncodeInt(v.freeBlocks) + EncodeInt(v.usedBlocks)
    + EncodeInt(v.inodeCount) + EncodeInt(if v.table == [] then 0 else v.table[0].origBlock)
  }

  lemma SixFields(h: seq<byte>, a: seq<byte>, b: seq<byte>, c: seq<byte>, d: seq<byte>, e: seq<byte>, f: seq<byte>)
    requires |a| == |b| == |c| == |d| == |e| == |f| == 4 && h == a + b + c + d + e + f
    ensures h[0..4] == a && h[4..8] == b && h[8..12] == c && h[12..16] == d && h[16..20] == e && h[20..24] == f
  {
    assert (a + b + c)[8..12] == c;
    assert h[..12] == a + b + c;
    assert h[12..] == d + e + f;
    assert h[20..24] == h[12..][8..12];
  }

  lemma HeaderFields(v: Volume, h: seq<byte>)
    requires IsInt(v.initBlocks) && IsInt(v.totalBlocks) && IsInt(v.freeBlocks) && IsInt(v.usedBlocks) && IsInt(v.inodeCount)
    requires v.table == [] || IsInt(v.table[0].origBlock)
    requires h == Header(v)
    ensures DecodeInt(h[0..4]) == v.initBlocks && DecodeInt(h[4..8]) == v.totalBlocks
    ensures DecodeInt(h[8..12]) == v.freeBlocks && DecodeInt(h[12..16]) == v.usedBlocks
    ensures DecodeInt(h[16..20]) == v.inodeCount
    ensures DecodeInt(h[20..24]) == if v.table == [] then 0 else v.table[0].origBlock
  {
    var first := if v.table == [] then 0 else v.table[0].origBlock;
    SixFields(h, EncodeInt(v.initBlocks), EncodeInt(v.totalBlocks), EncodeInt(v.freeBlocks), EncodeInt(v.usedBlocks),
              EncodeInt(v.inodeCount), EncodeInt(first));
    DecodeEncode(v.initBlocks);
    DecodeEncode(v.totalBlocks);
    DecodeEncode(v.freeBlocks);
    DecodeEncode(v.usedBlocks);
    DecodeEncode(v.inodeCount);
    DecodeEncode(first);
  }

  /** Everything a sound volume keeps in memory fits the 32-bit fields it is saved in. */
  lemma FitsOnDisk(v: Volume, l: Layout)
    requires Inv(v, l)
    ensures IsInt(v.initBlocks) && IsInt(v.totalBlocks) && IsInt(v.freeBlocks) && IsInt(v.usedBlocks) && IsInt(v.inodeCount)
    ensures forall k :: 0 <= k < |v.table| ==> Storable(v.table[k])
  {
    FullExactlyWhenAllOwned(v, l.owner);
    forall k | 0 <= k < |v.table| ensures Storable(v.table[k]) {
      EntryFits(v, l, k);
    }
  }

  lemma EntryFits(v: Volume, l: Layout, k: int)
    requires Inv(v, l) && 0 <= k < |v.table|
    ensures Storable(v.table[k])
  {
    var f := l.files[l.order[k]];
    assert v.table[k] == Entry(l, k) && Stored(v.disk, f);
    assert f.origBlock in l.owner;
    if k + 1 < |l.order| {
      assert l.order[k + 1] in l.files;
      assert l.files[l.order[k + 1]].origBlock in l.owner;
    }
  }

  ghost predicate InodeSaved(v: Volume, k: int)
    requires 0 <= k < |v.table|
  {
    && Storable(v.table[k]) && InDisk(v.disk, v.table[k].origBlock)
    && Block(v.disk, v.table[k].origBlock)[1..1 + INODE_SIZE] == EncodeInode(v.table[k])
  }

  /** The disk alone carries the whole state: a sound volume whose header and inodes have
      been written back. */
  ghost predicate Persistent(v: Volume, l: Layout) {
    && Inv(v, l)
    && Block(v.disk, 0)[..HEADER_SIZE] == Header(v)
    && forall k :: 0 <= k < |v.table| ==> InodeSaved(v, k)
  }

  /** Saving changes block 0 and inode blocks only. */
  ghost predicate SavedFrom(v: Volume, l: Layout, w: Volume) {
    && Geometry(v) && Geometry(w) && w == v.(disk := w.disk)
    && forall c :: 1 <= c < v.totalBlocks && !(c in l.owner && l.owner[c].InodeOf?) ==> Block(w.disk, c) == Block(v.disk, c)
  }

  lemma HeaderWritten(v: Volume, l: Layout, w: Volume)
    requires Inv(v, l) && w == v.(disk := Splice(v.disk, 0, Header(v)))
    ensures Inv(w, l) && SavedFrom(v, l, w)
    ensures Block(w.disk, 0)[..HEADER_SIZE] == Header(v)
  {
    WriteInBlock(v.disk, 0, 0, Header(v));
    assert Splice(Block(v.disk, 0), 0, Header(v))[..HEADER_SIZE] == Header(v);
    forall n | n in l.files ensures Stored(w.disk, l.files[n]) {
      StoredElsewhere(v, l, w, n, 0);
    }
  }

  /** After the header and the first k inodes. */
  ghost predicate SavedUpTo(v: Volume, l: Layout, w: Volume, k: int) {
    && Inv(v, l) && Inv(w, l) && SavedFrom(v, l, w) && 0 <= k <= |v.table|
    && Block(w.disk, 0)[..HEADER_SIZE] == Header(v)
    && forall i :: 0 <= i < k ==> InodeSaved(w, i)
  }

  lemma InodeRewritten(v: Volume, l: Layout, w: Volume, n: Name, after: seq<byte>)
    requires Inv(v, l) && n in l.files && Rewritten(v, w, l.owner, l.files[n].origBlock, after)
    ensures Inv(w, l)
  {
    assert l.owner[l.files[n].origBlock] == InodeOf(n);
    TabledSame(v, l, l);
    forall f | f in l.files ensures Stored(w.disk, l.files[f]) {
      StoredElsewhere(v, l, w, f, l.files[n].origBlock);
    }
  }

  lemma InodeBlock(v: Volume, l: Layout, k: int)
    requires Inv(v, l) && 0 <= k < |v.table|
    ensures l.order[k] in l.files && v.table[k].origBlock == l.files[l.order[k]].origBlock
    ensures v.table[k].origBlock in l.owner && l.owner[v.table[k].origBlock] == InodeOf(l.order[k])
    ensures 1 <= v.table[k].origBlock < v.totalBlocks
    ensures Storable(v.table[k])
  {
    assert v.table[k] == Entry(l, k);
    EntryFits(v, l, k);
  }

  lemma InodeSavedKept(u: Volume, l: Layout, w: Volume, i: int, k: int, after: seq<byte>)
    requires Inv(u, l) && 0 <= i < |u.table| && 0 <= k < |u.table| && i != k && InodeSaved(u, i)
    requires Rewritten(u, w, l.owner, u.table[k].origBlock, after)
    ensures InodeSaved(w, i)
  {
    InodeBlock(u, l, i);
    InodeBlock(u, l, k);
  }

  lemma InodeSavedNow(u: Volume, l: Layout, w: Volume, k: int, before: seq<byte>)
    requires Inv(u, l) && 0 <= k < |u.table| && |before| == BLOCK_SIZE && Storable(u.table[k])
    requires Rewritten(u, w, l.owner, u.table[k].origBlock, Splice(before, 1, EncodeInode(u.table[k])))
    ensures InodeSaved(w, k)
  {
    assert Splice(before, 1, EncodeInode(u.table[k]))[1..1 + INODE_SIZE] == EncodeInode(u.table[k]);
  }

  lemma SavedFromStep(v: Volume, l: Layout, u: Volume, w: Volume, b: int, after: seq<byte>)
    requires SavedFrom(v, l, u) && Rewritten(u, w, l.owner, b, after) && b in l.owner && l.owner[b].InodeOf? && 1 <= b
    ensures SavedFrom(v, l, w) && Block(w.disk, 0) == Block(u.disk, 0)
  {
  }

  lemma SavedOneMore(v: Volume, l: Layout, u: Volume, w: Volume, k: int, before: seq<byte>)
    requires SavedUpTo(v, l, u, k) && k < |v.table| && |before| == BLOCK_SIZE && |v.table[k].filename| == NAME_SIZE
    requires Rewritten(u, w, l.owner, v.table[k].origBlock, Splice(before, 1, EncodeInode(v.table[k])))
    ensures SavedUpTo(v, l, w, k + 1)
  {
    InodeBlock(u, l, k);
    InodeRewritten(u, l, w, l.order[k], Splice(before, 1, EncodeInode(v.table[k])));
    SavedFromStep(v, l, u, w, v.table[k].origBlock, Splice(before, 1, EncodeInode(v.table[k])));
    forall i | 0 <= i < k + 1 ensures InodeSaved(w, i) {
      if i < k {
        InodeSavedKept(u, l, w, i, k, Splice(before, 1, EncodeInode(v.table[k])));
      } else {
        InodeSavedNow(u, l, w, k, before);
      }
    }
  }

  lemma SaveDone(v: Volume, l: Layout, w: Volume)
    requires SavedUpTo(v, l, w, |v.table|)
    ensures Persistent(w, l) && SavedFrom(v, l, w)
  {
  }

  /** The disk holds the inodes of t, each in its own block and pointing to the next. */
  ghost predicate InodeList(d: seq<byte>, t: seq<Inode>) {
    forall k {:trigger NextInTable(t, k + 1)} :: 0 <= k < |t| ==>
      && InDisk(d, t[k].origBlock) && t[k].origBlock != 0
      && DecodeInode(Block(d, t[k].origBlock)[1..1 + INODE_SIZE]) == t[k]
      && t[k].nextInode == NextInTable(t, k + 1)
  }

  lemma ListEnds(d: seq<byte>, t: seq<Inode>, k: nat)
    requires InodeList(d, t) && NextInTable(t, k) == 0
    ensures |t| <= k
  {
    if k < |t| {
      var next := NextInTable(t, k + 1);
    }
  }

  lemma PersistentList(v: Volume, l: Layout)
    requires Persistent(v, l)
    ensures InodeList(v.disk, v.table)
  {
    forall k | 0 <= k < |v.table|
      ensures
        && InDisk(v.disk, v.table[k].origBlock) && v.table[k].origBlock != 0
        && DecodeInode(Block(v.disk, v.table[k].origBlock)[1..1 + INODE_SIZE]) == v.table[k]
        && v.table[k].nextInode == NextInTable(v.table, k + 1)
    {
      InodeReloaded(v, l, k);
    }
  }

  lemma InodeReloaded(v: Volume, l: Layout, k: int)
    requires Persistent(v, l) && 0 <= k < |v.table|
    ensures InDisk(v.disk, v.table[k].origBlock) && v.table[k].origBlock != 0
    ensures DecodeInode(Block(v.disk, v.table[k].origBlock)[1..1 + INODE_SIZE]) == v.table[k]
    ensures v.table[k].nextInode == NextInTable(v.table, k + 1)
  {
    assert InodeSaved(v, k);
    InodeBlock(v, l, k);
    InodeRoundTrip(v.table[k]);
    assert v.table[k] == Entry(l, k);
    if k + 1 < |v.table| {
      assert v.table[k + 1] == Entry(l, k + 1);
    }
  }

  ghost function EmptyLayout(): Layout {
    Layout([], map[], map[])
  }

  /** The state after the first open: one zero block and nothing stored. */
  ghost predicate Fresh(v: Volume) {
    v == Volume(v.disk, 1, 1, 0, 0, 0, []) && v.disk == Zeros(BLOCK_SIZE)
  }

  lemma FreshIsSound(v: Volume)
    requires Fresh(v)
    ensures Inv(v, EmptyLayout())
    ensures DecodeInt(v.disk[0..4]) == 0
  {
  }

  /** A volume as the next session finds it: the fresh disk, or one that was saved. */
  ghost predicate Openable(v: Volume, l: Layout) {
    (Fresh(v) && l == EmptyLayout()) || Persistent(v, l)
  }

  lemma SavedHeader(v: Volume, l: Layout)
    requires Persistent(v, l)
    ensures DecodeInt(v.disk[0..4]) == 1 && DecodeInt(v.disk[4..8]) == v.totalBlocks
    ensures DecodeInt(v.disk[8..12]) == v.freeBlocks && DecodeInt(v.disk[12..16]) == v.usedBlocks
    ensures DecodeInt(v.disk[16..20]) == v.inodeCount
    ensures DecodeInt(v.disk[20..24]) == if v.table == [] then 0 else v.table[0].origBlock
  {
    FitsOnDisk(v, l);
    if v.table != [] {
      InodeBlock(v, l, 0);
    }
    assert v.disk[..HEADER_SIZE] == Block(v.disk, 0)[..HEADER_SIZE];
    HeaderFields(v, v.disk[..HEADER_SIZE]);
    HeaderSlices(v.disk, v.disk[..HEADER_SIZE]);
  }

  lemma HeaderSlices(d: seq<byte>, h: seq<byte>)
    requires HEADER_SIZE <= |d| && h == d[..HEADER_SIZE]
    ensures h[0..4] == d[0..4] && h[4..8] == d[4..8] && h[8..12] == d[8..12]
    ensures h[12..16] == d[12..16] && h[16..20] == d[16..20] && h[20..24] == d[20..24]
  {
  }
}

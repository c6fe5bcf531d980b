/** The steps of the linked-block file system on values: what each write does to the
    invariant. The methods of FileSystem call these lemmas. */
module Steps {
  import opened Blocks
  import opened Volumes

  function RoomOf(v: Volume): Room {
    Room(v.totalBlocks, v.freeBlocks)
  }

  /** Setting the flag byte of a free block. */
  lemma FlagFreeBlock(v: Volume, owner: map<int, Owner>, b: int)
    requires Geometry(v) && Accounting(v, owner) && 1 <= b < v.totalBlocks && b !in owner
    ensures var d := Splice(v.disk, b * BLOCK_SIZE, [USED]);
            && Block(d, b) == [USED] + Zeros(BLOCK_SIZE - 1)
            && forall c :: 0 <= c < v.totalBlocks && c != b ==> Block(d, c) == Block(v.disk, c)
  {
    WriteInBlock(v.disk, b, 0, [USED]);
    assert Splice(Zeros(BLOCK_SIZE), 0, [USED]) == [USED] + Zeros(BLOCK_SIZE - 1);
  }

  /** From v, block b was claimed: the lowest-numbered free block, after one extension exactly
      when the disk was full. Nothing but b's flag and the counters changes. */
  ghost predicate Claimed(v: Volume, owner: map<int, Owner>, w: Volume, b: int) {
    && Geometry(v) && Geometry(w) && Accounting(w, owner[b := Orphan])
    && 1 <= b < w.totalBlocks && b !in owner
    && (forall c :: 1 <= c < b ==> c in owner)
    && RoomOf(w) == Take(RoomOf(v))
    && w.usedBlocks == v.usedBlocks + 1
    && w.table == v.table && w.inodeCount == v.inodeCount
    && Block(w.disk, b) == [USED] + Zeros(BLOCK_SIZE - 1)
    && v.totalBlocks <= w.totalBlocks
    && (forall c :: 0 <= c < v.totalBlocks && c != b ==> Block(w.disk, c) == Block(v.disk, c))
  }

  lemma ClaimWithin(v: Volume, owner: map<int, Owner>, b: int)
    requires Geometry(v) && Accounting(v, owner) && 1 <= b < v.totalBlocks && b !in owner
    requires forall c :: 1 <= c < b ==> c in owner
    ensures Claimed(v, owner, v.(disk := Splice(v.disk, b * BLOCK_SIZE, [USED]),
                                 usedBlocks := v.usedBlocks + 1, freeBlocks := v.freeBlocks - 1), b)
    ensures 0 < v.freeBlocks
  {
    FlagFreeBlock(v, owner, b);
    FullExactlyWhenAllOwned(v, owner);
    AddKey(owner, b, Orphan);
  }

  /** The full disk v has grown by one extension, and nothing else happened. */
  ghost predicate Extended(v: Volume, u: Volume) {
    && Geometry(v) && Geometry(u) && v.freeBlocks == 0
    && RoomOf(u) == Room(v.totalBlocks + EXTENSION, EXTENSION)
    && u.usedBlocks == v.usedBlocks && u.table == v.table && u.inodeCount == v.inodeCount
    && forall c :: 0 <= c < v.totalBlocks ==> Block(u.disk, c) == Block(v.disk, c)
  }

  lemma ClaimAfterExtension(v: Volume, owner: map<int, Owner>, u: Volume, w: Volume, b: int)
    requires Geometry(v) && Accounting(v, owner) && Extended(v, u) && Claimed(u, owner, w, b)
    ensures Claimed(v, owner, w, b)
  {
  }

  /** From v to w, block b alone changed, from `before` to `after`. */
  ghost predicate Rewritten(v: Volume, w: Volume, owner: map<int, Owner>, b: int, after: seq<byte>) {
    && Geometry(v) && Geometry(w) && w == v.(disk := w.disk)
    && Accounting(w, owner)
    && 0 <= b < w.totalBlocks && Block(w.disk, b) == after
    && forall c :: 0 <= c < v.totalBlocks && c != b ==> Block(w.disk, c) == Block(v.disk, c)
  }

  /** Writing behind the flag byte of a block in use. */
  lemma WriteOwned(v: Volume, w: Volume, owner: map<int, Owner>, b: int, off: nat, data: seq<byte>)
    requires Geometry(v) && Accounting(v, owner) && b in owner
    requires 1 <= off && off + |data| <= BLOCK_SIZE
    requires w == v.(disk := Splice(v.disk, b * BLOCK_SIZE + off, data))
    ensures Rewritten(v, w, owner, b, Splice(Block(v.disk, b), off, data))
  {
    WriteInBlock(v.disk, b, off, data);
  }

  lemma SameKeysSameAccounting(v: Volume, o: map<int, Owner>, p: map<int, Owner>)
    requires Geometry(v) && Accounting(v, o) && o.Keys == p.Keys
    ensures Accounting(v, p)
  {
    assert |o| == |o.Keys| && |p| == |p.Keys|;
    forall b ensures b in o <==> b in p {
      assert b in o <==> b in o.Keys;
    }
  }

  // ---- adding an inode ----

  function NewInode(name: Name, block: int): Inode
    requires IsName(name)
  {
    Inode(Filename(name), 0, block, 0, 0, 0)
  }

  function Linked(table: seq<Inode>, block: int): seq<Inode> {
    if table == [] then table
    else table[|table| - 1 := table[|table| - 1].(nextInode := block)]
  }

  /** Adding an inode at the end leaves the table linked up: the one before it points to its
      block, every other entry stays as it is. */
  lemma AppendKeepsLinks(table: seq<Inode>, t: Inode)
    requires LinkedUp(table) && t.nextInode == 0
    ensures LinkedUp(Linked(table, t.origBlock) + [t])
    ensures forall k :: 0 <= k < |table| ==>
              (Linked(table, t.origBlock) + [t])[k] == table[k].(nextInode := NextInTable(table + [t], k + 1))
  {
    var longer := Linked(table, t.origBlock) + [t];
    forall k | 0 <= k < |longer| ensures longer[k].nextInode == NextInTable(longer, k + 1) {
      var next := NextInTable(table, k + 1);
    }
    forall k | 0 <= k < |table| ensures longer[k] == table[k].(nextInode := NextInTable(table + [t], k + 1)) {
      var next := NextInTable(table, k + 1);
    }
  }

  ghost function WithInode(l: Layout, name: Name, block: int): Layout {
    Layout(l.order + [name], l.files[name := File(block, 0, [], [])], l.owner[block := InodeOf(name)])
  }

  lemma OwnershipWithInode(l: Layout, name: Name, block: int)
    requires Ownership(l) && name !in l.files && block !in l.owner
    ensures Ownership(WithInode(l, name, block))
  {
    var m := WithInode(l, name, block);
    forall b | b in m.owner ensures Owned(m, b) {
      if b != block {
        assert Owned(l, b);
      }
    }
  }

  lemma TabledWithInode(v: Volume, l: Layout, w: Volume, name: Name, block: int)
    requires Named(l) && Tabled(v, l) && IsName(name) && name !in l.files
    requires w.table == Linked(v.table, block) + [NewInode(name, block)]
    requires w.inodeCount == v.inodeCount + 1
    ensures Named(WithInode(l, name, block)) && Tabled(w, WithInode(l, name, block))
  {
    var m := WithInode(l, name, block);
    NamedWithInode(l, name, block);
    forall k | 0 <= k < |w.table| ensures w.table[k] == Entry(m, k) {
      if k < |v.table| {
        assert v.table[k] == Entry(l, k);
        EntryWithInode(l, name, block, k);
      } else {
        LastEntryWithInode(l, name, block);
      }
    }
  }

  lemma NamedWithInode(l: Layout, name: Name, block: int)
    requires Named(l) && IsName(name) && name !in l.files
    ensures Named(WithInode(l, name, block))
  {
  }

  lemma EntryWithInode(l: Layout, name: Name, block: int, k: int)
    requires Named(l) && name !in l.files && Named(WithInode(l, name, block)) && 0 <= k < |l.order|
    ensures Entry(WithInode(l, name, block), k) ==
            Entry(l, k).(nextInode := if k + 1 < |l.order| then Entry(l, k).nextInode else block)
  {
    var m := WithInode(l, name, block);
    assert m.order[k] == l.order[k] && l.order[k] != name;
    if k + 1 < |l.order| {
      assert m.order[k + 1] == l.order[k + 1] && l.order[k + 1] != name;
    }
  }

  lemma LastEntryWithInode(l: Layout, name: Name, block: int)
    requires Named(l) && IsName(name) && name !in l.files && Named(WithInode(l, name, block))
    ensures Entry(WithInode(l, name, block), |l.order|) == NewInode(name, block)
  {
  }

  /** A file survives any change to a block that is not in its chain. */
  lemma StoredElsewhere(v: Volume, l: Layout, w: Volume, n: Name, changed: int)
    requires Geometry(v) && Geometry(w) && v.totalBlocks <= w.totalBlocks
    requires Accounting(v, l.owner) && Ownership(l) && n in l.files && Stored(v.disk, l.files[n])
    requires changed in l.owner ==> !l.owner[changed].DataOf?
    requires forall c :: c in l.owner && c != changed ==> Block(w.disk, c) == Block(v.disk, c)
    ensures Stored(w.disk, l.files[n])
  {
    var f := l.files[n];
    forall j | 0 <= j < |f.chain|
      ensures InDisk(v.disk, f.chain[j]) && InDisk(w.disk, f.chain[j]) && Block(w.disk, f.chain[j]) == Block(v.disk, f.chain[j])
    {
      assert f.chain[j] in l.owner && l.owner[f.chain[j]] == DataOf(n, j);
    }
    StoredFrame(v.disk, w.disk, f);
  }

  lemma StillStored(v: Volume, l: Layout, w: Volume)
    requires Inv(v, l) && Geometry(w) && v.totalBlocks <= w.totalBlocks
    requires forall c :: c in l.owner ==> Block(w.disk, c) == Block(v.disk, c)
    ensures forall n :: n in l.files ==> Stored(w.disk, l.files[n])
  {
    forall n | n in l.files ensures Stored(w.disk, l.files[n]) {
      StoredElsewhere(v, l, w, n, 0);
    }
  }

  lemma InodeAdded(v: Volume, l: Layout, w: Volume, name: Name, block: int)
    requires Inv(v, l) && IsName(name) && name !in l.files && block !in l.owner
    requires Geometry(w) && Accounting(w, l.owner[block := Orphan]) && v.totalBlocks <= w.totalBlocks
    requires forall c :: c in l.owner ==> Block(w.disk, c) == Block(v.disk, c)
    requires w.table == Linked(v.table, block) + [NewInode(name, block)]
    requires w.inodeCount == v.inodeCount + 1
    ensures Inv(w, WithInode(l, name, block))
  {
    var m := WithInode(l, name, block);
    SameKeysSameAccounting(w, l.owner[block := Orphan], m.owner);
    OwnershipWithInode(l, name, block);
    TabledWithInode(v, l, w, name, block);
    StillStored(v, l, w);
  }

  // ---- writing a file ----

  ghost function WithFile(l: Layout, name: Name, f: File): Layout {
    l.(files := l.files[name := f])
  }

  /** File `name` is being written: its chain so far leads to block `current`, which still
      belongs to nobody while there is text left; everything else is sound. */
  ghost predicate Writing(v: Volume, l: Layout, name: Name, current: int) {
    && Geometry(v) && Accounting(v, l.owner) && Ownership(l) && Named(l) && Tabled(v, l)
    && name in l.files
    && (forall n :: n in l.files && n != name ==> Stored(v.disk, l.files[n]))
    && PartlyStored(v.disk, l.files[name], current)
    && (Pending(l.files[name]) ==> current in l.owner && l.owner[current] == Orphan)
  }

  predicate Pending(f: File) {
    f.chain == [] || |f.chain| * PAYLOAD < |f.text|
  }

  ghost predicate PartlyStored(d: seq<byte>, f: File, current: int) {
    && IsCString(f.text) && |f.text| <= INT_MAX
    && InDisk(d, f.startBlock)
    && |f.chain| <= BlocksFor(|f.text|)
    && f.startBlock == (if f.chain == [] then current else f.chain[0])
    && Chained(d, f.chain, f.text, current)
    && (!Pending(f) ==> current == 0)
  }

  lemma WritingDone(v: Volume, l: Layout, name: Name, current: int)
    requires Writing(v, l, name, current)
    requires |l.files[name].text| <= |l.files[name].chain| * PAYLOAD
    ensures Inv(v, l)
  {
  }

  lemma TabledWithFile(v: Volume, l: Layout, w: Volume, k: nat, f: File)
    requires Named(l) && Tabled(v, l) && k < |l.order|
    requires f.origBlock == l.files[l.order[k]].origBlock
    requires w.table == v.table[k := v.table[k].(size := |f.text|, startBlock := f.startBlock, countBlock := |f.chain|)]
    requires w.inodeCount == v.inodeCount
    ensures Named(WithFile(l, l.order[k], f)) && Tabled(w, WithFile(l, l.order[k], f))
  {
    var m := WithFile(l, l.order[k], f);
    forall i | 0 <= i < |w.table| ensures w.table[i] == Entry(m, i) {
      assert v.table[i] == Entry(l, i);
      if i != k {
        assert l.order[i] != l.order[k];
      }
    }
  }

  lemma OwnershipWithOrphan(l: Layout, b: int)
    requires Ownership(l) && b !in l.owner
    ensures Ownership(l.(owner := l.owner[b := Orphan]))
  {
    var m := l.(owner := l.owner[b := Orphan]);
    forall c | c in m.owner ensures Owned(m, c) {
      if c != b {
        assert Owned(l, c);
      }
    }
  }

  lemma OwnershipWithFile(l: Layout, name: Name, f: File)
    requires Ownership(l) && name in l.files
    requires f.origBlock == l.files[name].origBlock && f.chain == l.files[name].chain
    ensures Ownership(WithFile(l, name, f))
  {
    var m := WithFile(l, name, f);
    forall c | c in m.owner ensures Owned(m, c) {
      assert Owned(l, c);
    }
  }

  lemma TabledSame(v: Volume, l: Layout, m: Layout)
    requires Named(l) && Tabled(v, l) && m.order == l.order && m.files == l.files
    ensures Named(m) && Tabled(v, m)
  {
    forall k | 0 <= k < |v.table| ensures v.table[k] == Entry(m, k) {
      assert v.table[k] == Entry(l, k);
    }
  }

  /** Recording the first block of a file that has none yet. */
  ghost function Started(l: Layout, name: Name, start: int, text: Text): Layout
    requires name in l.files
  {
    WithFile(l, name, File(l.files[name].origBlock, start, [], text)).(owner := l.owner[start := Orphan])
  }

  lemma WritingStarts(v: Volume, l: Layout, w: Volume, k: nat, start: int, text: Text)
    requires Inv(v, l) && k < |l.order|
    requires l.files[l.order[k]].chain == [] && l.files[l.order[k]].text == []
    requires start !in l.owner && IsCString(text) && |text| <= INT_MAX
    requires Geometry(w) && Accounting(w, l.owner[start := Orphan]) && v.totalBlocks <= w.totalBlocks
    requires forall c :: c in l.owner ==> Block(w.disk, c) == Block(v.disk, c)
    requires w.table == v.table[k := v.table[k].(size := |text|, startBlock := start, countBlock := 0)]
    requires w.inodeCount == v.inodeCount
    ensures Writing(w, Started(l, l.order[k], start, text), l.order[k], start)
  {
    var name := l.order[k];
    var f := File(l.files[name].origBlock, start, [], text);
    TabledWithFile(v, l, w, k, f);
    OwnershipWithFile(l, name, f);
    OwnershipWithOrphan(WithFile(l, name, f), start);
    TabledSame(w, WithFile(l, name, f), Started(l, name, start, text));
    StillStored(v, l, w);
    assert start in l.owner[start := Orphan];
  }

  /** What the writer leaves in a block: the piece of text behind the flag and the pointer at the end. */
  lemma BlockWritten(d: seq<byte>, b: int, text: Text, j: nat, next: int, before: seq<byte>)
    requires InDisk(d, b) && |before| == BLOCK_SIZE && j * PAYLOAD <= |text| && IsInt(next)
    requires Block(d, b) == Splice(Splice(before, 1, Chunk(text, j)), NEXT_AT, EncodeInt(next))
    ensures Holds(d, b, text, j, next)
  {
    var s := Block(d, b);
    assert s[1..1 + |Chunk(text, j)|] == Chunk(text, j);
    assert s[NEXT_AT..] == EncodeInt(next);
    DecodeEncode(next);
  }

  ghost function Adopted(l: Layout, name: Name, b: int): Layout
    requires name in l.files
  {
    var f := l.files[name];
    WithFile(l, name, f.(chain := f.chain + [b])).(owner := l.owner[b := DataOf(name, |f.chain|)])
  }

  lemma OwnershipAdopted(l: Layout, name: Name, b: int)
    requires Ownership(l) && name in l.files && b in l.owner && l.owner[b] == Orphan
    ensures Ownership(Adopted(l, name, b))
  {
    var m := Adopted(l, name, b);
    forall c | c in m.owner ensures Owned(m, c) {
      if c != b {
        assert Owned(l, c);
      }
    }
  }

  lemma ChainedLonger(d: seq<byte>, e: seq<byte>, chain: seq<int>, text: Text, b: int, next: int)
    requires Chained(d, chain, text, b) && |d| <= |e|
    requires forall j :: 0 <= j < |chain| ==>
               InDisk(d, chain[j]) && InDisk(e, chain[j]) && Block(e, chain[j]) == Block(d, chain[j])
    requires Holds(e, b, text, |chain|, next)
    ensures Chained(e, chain + [b], text, next)
  {
    var longer := chain + [b];
    forall j | 0 <= j < |longer|
      ensures Holds(e, longer[j], text, j, Successor(longer, j, next))
    {
      if j < |chain| {
        assert Holds(d, chain[j], text, j, Successor(chain, j, b));
      }
    }
  }

  lemma PartlyStoredAdvances(d: seq<byte>, e: seq<byte>, f: File, current: int, next: int)
    requires PartlyStored(d, f, current) && |f.chain| * PAYLOAD < |f.text| && |d| <= |e|
    requires forall j :: 0 <= j < |f.chain| ==>
               InDisk(d, f.chain[j]) && InDisk(e, f.chain[j]) && Block(e, f.chain[j]) == Block(d, f.chain[j])
    requires Holds(e, current, f.text, |f.chain|, next)
    requires |f.text| <= (|f.chain| + 1) * PAYLOAD ==> next == 0
    ensures PartlyStored(e, f.(chain := f.chain + [current]), next)
  {
    ChainedLonger(d, e, f.chain, f.text, current, next);
  }

  /** What one turn of the writer's loop does to the volume: `current` now holds the j-th piece
      of the text and points to `next`, which was claimed if there is text left; the k-th inode
      counts one more block. `owner` and `owner'` are the ownership before and after. */
  ghost predicate TurnResult(v: Volume, owner: map<int, Owner>, w: Volume, owner': map<int, Owner>,
                             text: Text, j: nat, k: int, current: int, next: int) {
    && Geometry(v) && Geometry(w) && Accounting(w, owner') && v.totalBlocks <= w.totalBlocks
    && j * PAYLOAD < |text| && Holds(w.disk, current, text, j, next)
    && (if |text| <= (j + 1) * PAYLOAD then next == 0 && owner' == owner && RoomOf(w) == RoomOf(v)
        else 1 <= next && next !in owner && owner' == owner[next := Orphan] && RoomOf(w) == Take(RoomOf(v)))
    && (forall c :: 0 <= c < v.totalBlocks && (c == 0 || c in owner) && c != current ==> Block(w.disk, c) == Block(v.disk, c))
    && 0 <= k < |v.table|
    && w.table == v.table[k := v.table[k].(countBlock := v.table[k].countBlock + 1)]
    && w.inodeCount == v.inodeCount
  }

  /** The first half of a turn: the piece of text is in `current`, and `next` is claimed if
      text is left. */
  ghost predicate Filled(v: Volume, owner: map<int, Owner>, u: Volume, owner': map<int, Owner>,
                         text: Text, j: nat, current: int, next: int) {
    && Geometry(v) && Geometry(u) && Accounting(u, owner') && v.totalBlocks <= u.totalBlocks
    && 1 <= current < v.totalBlocks && current in owner' && j * PAYLOAD < |text| && 0 <= next <= MAX_BLOCKS
    && (if |text| <= (j + 1) * PAYLOAD then next == 0 && owner' == owner && RoomOf(u) == RoomOf(v)
        else 1 <= next && next !in owner && owner' == owner[next := Orphan] && RoomOf(u) == Take(RoomOf(v)))
    && Block(u.disk, current) == Splice(Block(v.disk, current), 1, Chunk(text, j))
    && (forall c :: 0 <= c < v.totalBlocks && (c == 0 || c in owner) && c != current ==> Block(u.disk, c) == Block(v.disk, c))
    && u.table == v.table && u.inodeCount == v.inodeCount
  }

  lemma FilledLast(v: Volume, owner: map<int, Owner>, t: Volume, text: Text, j: nat, current: int)
    requires j * PAYLOAD < |text| <= (j + 1) * PAYLOAD && current in owner && 1 <= current && InDisk(v.disk, current)
    requires Rewritten(v, t, owner, current, Splice(Block(v.disk, current), 1, Chunk(text, j)))
    ensures Filled(v, owner, t, owner, text, j, current, 0)
  {
  }

  lemma FilledAndClaimed(v: Volume, owner: map<int, Owner>, t: Volume, u: Volume, text: Text, j: nat, current: int, next: int)
    requires (j + 1) * PAYLOAD < |text| && current in owner && 1 <= current && InDisk(v.disk, current)
    requires Rewritten(v, t, owner, current, Splice(Block(v.disk, current), 1, Chunk(text, j)))
    requires Claimed(t, owner, u, next)
    requires forall c :: c in owner ==> 1 <= c
    ensures Filled(v, owner, u, owner[next := Orphan], text, j, current, next)
  {
  }

  /** The second half: `current` points to `next`, and the k-th inode counts it. */
  ghost predicate Pointed(u: Volume, w: Volume, owner: map<int, Owner>, k: int, current: int, next: int) {
    && IsInt(next) && 0 <= k < |u.table|
    && Rewritten(u, w.(table := u.table), owner, current,
                 if InDisk(u.disk, current) then Splice(Block(u.disk, current), NEXT_AT, EncodeInt(next)) else [])
    && w.table == u.table[k := u.table[k].(countBlock := u.table[k].countBlock + 1)]
  }

  lemma FilledThenPointed(v: Volume, owner: map<int, Owner>, u: Volume, w: Volume, owner': map<int, Owner>,
                          text: Text, j: nat, k: int, current: int, next: int)
    requires Filled(v, owner, u, owner', text, j, current, next)
    requires Pointed(u, w, owner', k, current, next)
    ensures TurnResult(v, owner, w, owner', text, j, k, current, next)
  {
    SameCounters(w.(table := u.table), w, owner');
    FilledAndPointed(v, owner, u, w, owner', text, j, k, current, next);
    OthersKept(v, owner, u, w, owner', current,
               if InDisk(u.disk, current) then Splice(Block(u.disk, current), NEXT_AT, EncodeInt(next)) else []);
  }

  lemma OthersKept(v: Volume, owner: map<int, Owner>, u: Volume, w: Volume, owner': map<int, Owner>, b: int, after: seq<byte>)
    requires Geometry(v) && v.totalBlocks <= u.totalBlocks && Rewritten(u, w.(table := u.table), owner', b, after)
    requires forall c :: 0 <= c < v.totalBlocks && (c == 0 || c in owner) && c != b ==> Block(u.disk, c) == Block(v.disk, c)
    ensures forall c :: 0 <= c < v.totalBlocks && (c == 0 || c in owner) && c != b ==> Block(w.disk, c) == Block(v.disk, c)
  {
  }

  lemma SameCounters(v: Volume, w: Volume, owner: map<int, Owner>)
    requires Geometry(v) && Accounting(v, owner) && w == v.(table := w.table)
    ensures Geometry(w) && Accounting(w, owner)
  {
  }

  lemma FilledAndPointed(v: Volume, owner: map<int, Owner>, u: Volume, w: Volume, owner': map<int, Owner>,
                         text: Text, j: nat, k: int, current: int, next: int)
    requires Filled(v, owner, u, owner', text, j, current, next)
    requires Pointed(u, w, owner', k, current, next)
    ensures Holds(w.disk, current, text, j, next)
  {
    BlockWritten(w.disk, current, text, j, next, Block(v.disk, current));
  }

  /** One turn for the file being written. */
  ghost predicate Turn(v: Volume, l: Layout, w: Volume, owner: map<int, Owner>, k: nat, current: int, next: int) {
    && k < |l.order| && Writing(v, l, l.order[k], current)
    && TurnResult(v, l.owner, w, owner, l.files[l.order[k]].text, |l.files[l.order[k]].chain|, k, current, next)
  }

  lemma TurnOwnership(v: Volume, l: Layout, w: Volume, owner: map<int, Owner>, k: nat, current: int, next: int)
    requires Turn(v, l, w, owner, k, current, next)
    ensures Ownership(Adopted(l.(owner := owner), l.order[k], current))
    ensures Accounting(w, Adopted(l.(owner := owner), l.order[k], current).owner)
  {
    var m := Adopted(l.(owner := owner), l.order[k], current);
    if owner != l.owner {
      OwnershipWithOrphan(l, next);
    }
    assert l.(owner := l.owner) == l;
    OwnershipAdopted(l.(owner := owner), l.order[k], current);
    SameKeysSameAccounting(w, owner, m.owner);
  }

  lemma TurnTable(v: Volume, l: Layout, w: Volume, owner: map<int, Owner>, k: nat, current: int, next: int)
    requires Turn(v, l, w, owner, k, current, next)
    ensures var m := Adopted(l.(owner := owner), l.order[k], current); Named(m) && Tabled(w, m)
  {
    var f := l.files[l.order[k]];
    assert v.table[k] == Entry(l, k);
    TabledWithFile(v, l, w, k, f.(chain := f.chain + [current]));
    TabledSame(w, WithFile(l, l.order[k], f.(chain := f.chain + [current])), Adopted(l.(owner := owner), l.order[k], current));
  }

  lemma TurnChain(v: Volume, l: Layout, w: Volume, owner: map<int, Owner>, k: nat, current: int, next: int)
    requires Turn(v, l, w, owner, k, current, next)
    ensures var f := l.files[l.order[k]]; PartlyStored(w.disk, f.(chain := f.chain + [current]), next)
  {
    var f := l.files[l.order[k]];
    forall j | 0 <= j < |f.chain|
      ensures InDisk(v.disk, f.chain[j]) && InDisk(w.disk, f.chain[j]) && Block(w.disk, f.chain[j]) == Block(v.disk, f.chain[j])
    {
      assert l.owner[f.chain[j]] == DataOf(l.order[k], j);
    }
    PartlyStoredAdvances(v.disk, w.disk, f, current, next);
  }

  lemma WritingAdvances(v: Volume, l: Layout, w: Volume, owner: map<int, Owner>, k: nat, current: int, next: int)
    requires Turn(v, l, w, owner, k, current, next)
    ensures Writing(w, Adopted(l.(owner := owner), l.order[k], current), l.order[k], next)
  {
    var name := l.order[k];
    TurnOwnership(v, l, w, owner, k, current, next);
    TurnTable(v, l, w, owner, k, current, next);
    TurnChain(v, l, w, owner, k, current, next);
    forall n | n in l.files && n != name ensures Stored(w.disk, l.files[n]) {
      StoredElsewhere(v, l, w, n, current);
    }
  }

  // ---- what a write leaves alone ----

  lemma FoundExactlyWhenNamed(v: Volume, l: Layout, name: Name, index: int)
    requires Named(l) && Tabled(v, l)
    requires -1 <= index < |v.table|
    requires index == -1 ==> forall i :: 0 <= i < |v.table| ==> CString(v.table[i].filename) != name
    requires index != -1 ==> CString(v.table[index].filename) == name
    ensures index == -1 <==> name !in l.files
    ensures index != -1 ==> l.order[index] == name
  {
    forall k | 0 <= k < |v.table| ensures CString(v.table[k].filename) == l.order[k] {
      assert v.table[k] == Entry(l, k);
    }
  }

  lemma InodeOfFile(v: Volume, l: Layout, k: int)
    requires Inv(v, l) && 0 <= k < |l.order|
    ensures k < |v.table| && l.order[k] in l.files
    ensures var f := l.files[l.order[k]];
            && v.table[k].size == |f.text| && v.table[k].startBlock == f.startBlock
            && v.table[k].countBlock == |f.chain| && v.table[k].origBlock == f.origBlock
            && 0 <= f.startBlock && 1 <= f.origBlock < v.totalBlocks
  {
    assert v.table[k] == Entry(l, k);
    assert Stored(v.disk, l.files[l.order[k]]);
    assert l.files[l.order[k]].origBlock in l.owner;
  }

  /** Blocks a text takes, besides the inode's: even an empty text takes one. */
  function ClaimsFor(text: Text): nat {
    if text == [] then 1 else BlocksFor(|text|)
  }

  /** The inode's block and then the text's blocks. */
  lemma RoomForBoth(v: Volume, l: Layout, text: Text)
    requires Inv(v, l)
    ensures Take(RoomOf(v)).total <= TakeMany(RoomOf(v), 1 + ClaimsFor(text)).total
    ensures TakeMany(Take(RoomOf(v)), ClaimsFor(text)) == TakeMany(RoomOf(v), 1 + ClaimsFor(text))
  {
    FullExactlyWhenAllOwned(v, l.owner);
    TakeManyMonotone(RoomOf(v), 1, 1 + ClaimsFor(text));
    TakeManyPlus(RoomOf(v), ClaimsFor(text));
    assert TakeMany(RoomOf(v), 1) == Take(TakeMany(RoomOf(v), 0));
  }

  /** Block 0 and every block in use keep their bytes and their owner. */
  ghost predicate Kept(v: Volume, l: Layout, w: Volume, m: Layout) {
    && Geometry(v) && Geometry(w) && v.totalBlocks <= w.totalBlocks
    && (forall c :: 0 <= c < v.totalBlocks && (c == 0 || c in l.owner) ==> Block(w.disk, c) == Block(v.disk, c))
    && (forall c :: c in l.owner ==> c in m.owner && m.owner[c] == l.owner[c])
  }

  /** A new inode, last in the table, in a block that was free. */
  ghost predicate Added(v: Volume, l: Layout, w: Volume, m: Layout, name: Name) {
    && Kept(v, l, w, m)
    && IsName(name) && name in m.files && m.files[name].origBlock !in l.owner
    && m == WithInode(l, name, m.files[name].origBlock)
    && w.table == Linked(v.table, m.files[name].origBlock) + [NewInode(name, m.files[name].origBlock)]
    && RoomOf(w) == Take(RoomOf(v))
    && w.inodeCount == v.inodeCount + 1
  }

  ghost predicate OnlyText(l: Layout, m: Layout, name: Name, text: Text) {
    && name in l.files && name in m.files
    && m.order == l.order
    && m.files == l.files[name := m.files[name]]
    && m.files[name].text == text && m.files[name].origBlock == l.files[name].origBlock
  }

  /** From (v, l), writing `text` to the new file `name` has reached (w, m). */
  ghost predicate InProgress(v: Volume, l: Layout, w: Volume, m: Layout, name: Name, text: Text, current: int) {
    && Kept(v, l, w, m) && OnlyText(l, m, name, text)
    && (forall c :: c in m.owner && c !in l.owner ==>
          (m.owner[c].DataOf? && m.owner[c].name == name) || (c == current && Pending(m.files[name])))
    && (Pending(m.files[name]) ==> current in m.owner && current !in l.owner)
    && RoomOf(w) == TakeMany(RoomOf(v), |m.files[name].chain| + if Pending(m.files[name]) then 1 else 0)
    && w.inodeCount == v.inodeCount
  }

  ghost predicate Written(v: Volume, l: Layout, w: Volume, m: Layout, name: Name, text: Text) {
    && Kept(v, l, w, m) && OnlyText(l, m, name, text)
    && (forall c :: c in m.owner && c !in l.owner ==>
          if text == [] then m.owner[c] == Orphan && c == m.files[name].startBlock
          else m.owner[c].DataOf? && m.owner[c].name == name)
    && (text == [] ==> m.files[name].startBlock in m.owner && m.files[name].startBlock !in l.owner)
    && RoomOf(w) == TakeMany(RoomOf(v), ClaimsFor(text))
    && w.inodeCount == v.inodeCount
  }

  lemma InodeStep(v: Volume, l: Layout, u: Volume, w: Volume, name: Name, block: int)
    requires Inv(v, l) && IsName(name) && name !in l.files && v.inodeCount < INT_MAX
    requires Claimed(v, l.owner, u, block)
    requires w == u.(disk := Splice(u.disk, block * BLOCK_SIZE + 1, EncodeInode(NewInode(name, block))),
                     table := Linked(v.table, block) + [NewInode(name, block)],
                     inodeCount := v.inodeCount + 1)
    ensures Inv(w, WithInode(l, name, block))
    ensures Added(v, l, w, WithInode(l, name, block), name)
  {
    var t, data := u.(disk := w.disk), EncodeInode(NewInode(name, block));
    WriteOwned(u, t, l.owner[block := Orphan], block, 1, data);
    InodeRecorded(v, l, u, t, w, name, block, Splice(Block(u.disk, block), 1, data));
  }

  lemma InodeRecorded(v: Volume, l: Layout, u: Volume, t: Volume, w: Volume, name: Name, block: int, after: seq<byte>)
    requires Inv(v, l) && IsName(name) && name !in l.files && v.inodeCount < INT_MAX
    requires Claimed(v, l.owner, u, block) && Rewritten(u, t, l.owner[block := Orphan], block, after)
    requires w == t.(table := Linked(v.table, block) + [NewInode(name, block)], inodeCount := v.inodeCount + 1)
    ensures Inv(w, WithInode(l, name, block))
    ensures Added(v, l, w, WithInode(l, name, block), name)
  {
    SameCountersAndRoom(t, w, l.owner[block := Orphan]);
    InodeAdded(v, l, w, name, block);
    InodeOnlyAdded(v, l, u, t, w, name, block, after);
  }

  lemma SameCountersAndRoom(v: Volume, w: Volume, owner: map<int, Owner>)
    requires Geometry(v) && Accounting(v, owner) && w == v.(table := w.table, inodeCount := w.inodeCount)
    requires 0 <= w.inodeCount <= INT_MAX
    ensures Geometry(w) && Accounting(w, owner) && RoomOf(w) == RoomOf(v)
  {
  }

  lemma InodeOnlyAdded(v: Volume, l: Layout, u: Volume, t: Volume, w: Volume, name: Name, block: int, after: seq<byte>)
    requires Inv(v, l) && IsName(name) && Claimed(v, l.owner, u, block) && v.inodeCount < INT_MAX
    requires Rewritten(u, t, l.owner[block := Orphan], block, after)
    requires w == t.(table := Linked(v.table, block) + [NewInode(name, block)], inodeCount := v.inodeCount + 1)
    ensures Added(v, l, w, WithInode(l, name, block), name)
  {
  }

  lemma FirstBlockWriting(v: Volume, l: Layout, u: Volume, w: Volume, k: nat, start: int, text: Text)
    requires Inv(v, l) && k < |l.order| && l.files[l.order[k]].chain == [] && l.files[l.order[k]].text == []
    requires IsCString(text) && |text| <= INT_MAX && Claimed(v, l.owner, u, start)
    requires w == u.(table := v.table[k := v.table[k].(size := |text|, startBlock := start, countBlock := 0)])
    ensures Writing(w, Started(l, l.order[k], start, text), l.order[k], start)
  {
    WritingStarts(v, l, w, k, start, text);
  }

  lemma FirstBlockProgress(v: Volume, l: Layout, u: Volume, w: Volume, name: Name, start: int, text: Text)
    requires Geometry(v) && Accounting(v, l.owner) && name in l.files && Claimed(v, l.owner, u, start)
    requires w == u.(table := w.table)
    ensures InProgress(v, l, w, Started(l, name, start, text), name, text, start)
  {
    var f := File(l.files[name].origBlock, start, [], text);
    assert Started(l, name, start, text).files == l.files[name := f];
    assert TakeMany(RoomOf(v), 1) == Take(TakeMany(RoomOf(v), 0));
  }

  lemma ProgressAdvances(v: Volume, l: Layout, u: Volume, m: Layout, w: Volume, owner: map<int, Owner>,
                         k: nat, text: Text, current: int, next: int)
    requires k < |m.order| && InProgress(v, l, u, m, m.order[k], text, current) && Pending(m.files[m.order[k]])
    requires TurnResult(u, m.owner, w, owner, text, |m.files[m.order[k]].chain|, k, current, next)
    requires 1 <= current && forall c :: c in l.owner ==> 1 <= c < v.totalBlocks && c in m.owner
    ensures InProgress(v, l, w, Adopted(m.(owner := owner), m.order[k], current), m.order[k], text, next)
  {
    var name := m.order[k];
    var m' := Adopted(m.(owner := owner), name, current);
    assert m'.files == l.files[name := m'.files[name]];
    assert m'.files[name].chain == m.files[name].chain + [current];
  }

  /** The loop invariant of the writer: `position` characters are on the disk, `remaining` are not. */
  ghost predicate WriterLoop(v: Volume, l: Layout, w: Volume, m: Layout, k: nat, text: Text,
                             current: int, position: int, remaining: int) {
    && k < |m.order| && m.order == l.order
    && InProgress(v, l, w, m, m.order[k], text, current)
    && Writing(w, m, m.order[k], current)
    && 0 <= remaining && 0 <= position && position + remaining == |text|
    && (if remaining > 0 then position == |m.files[m.order[k]].chain| * PAYLOAD
        else |text| <= |m.files[m.order[k]].chain| * PAYLOAD)
  }

  lemma WriterLoopStep(v: Volume, l: Layout, u: Volume, m: Layout, w: Volume, m': Layout, owner: map<int, Owner>,
                       k: nat, text: Text, current: int, position: int, remaining: int, next: int, toWrite: int)
    requires Geometry(v) && Accounting(v, l.owner)
    requires WriterLoop(v, l, u, m, k, text, current, position, remaining) && remaining > 0
    requires toWrite == if remaining <= PAYLOAD then remaining else PAYLOAD
    requires TurnResult(u, m.owner, w, owner, text, |m.files[m.order[k]].chain|, k, current, next)
    requires m' == Adopted(m.(owner := owner), m.order[k], current)
    ensures WriterLoop(v, l, w, m', k, text, next, position + toWrite, remaining - toWrite)
  {
    WritingAdvances(u, m, w, owner, k, current, next);
    ProgressAdvances(v, l, u, m, w, owner, k, text, current, next);
  }

  lemma WriterLoopReady(v: Volume, l: Layout, u: Volume, m: Layout, k: nat, text: Text,
                        current: int, position: int, remaining: int)
    requires WriterLoop(v, l, u, m, k, text, current, position, remaining) && 0 <= v.freeBlocks
    requires TakeMany(RoomOf(v), ClaimsFor(text)).total <= MAX_BLOCKS
    ensures remaining > PAYLOAD ==> Take(RoomOf(u)).total <= MAX_BLOCKS
    ensures Geometry(u) && Accounting(u, m.owner) && k < |u.table|
    ensures remaining > 0 ==> current in m.owner && position == |m.files[m.order[k]].chain| * PAYLOAD
  {
    var j := |m.files[m.order[k]].chain|;
    if remaining > PAYLOAD {
      assert TakeMany(RoomOf(v), j + 2) == Take(TakeMany(RoomOf(v), j + 1));
      TakeManyMonotone(RoomOf(v), j + 2, ClaimsFor(text));
    }
  }

  lemma WriterLoopDone(v: Volume, l: Layout, w: Volume, m: Layout, k: nat, text: Text, current: int, position: int)
    requires WriterLoop(v, l, w, m, k, text, current, position, 0)
    ensures Inv(w, m)
    ensures Written(v, l, w, m, m.order[k], text)
  {
    WritingDone(w, m, m.order[k], current);
  }
}

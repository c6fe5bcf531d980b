/** What the invariant and the step relations of the linked-block file system mean for a user:
    separation of files, what a make followed by a delete leaves behind, what stays readable,
    and that a saved disk determines the whole state. */
module Theorems {
  import opened Options
  import opened Blocks
  import opened Volumes
  import opened Steps
  import opened Deletion
  import opened Reading

  // ---- separation and conservation ----

  function BlocksOf(f: File): set<int> {
    {f.origBlock} + set b | b in f.chain
  }

  /** The blocks whose flag byte says "in use". */
  function Flagged(v: Volume): set<int>
    requires 1 <= v.totalBlocks && |v.disk| == v.totalBlocks * BLOCK_SIZE
  {
    set b | b in Range(v.totalBlocks) && Block(v.disk, b)[0] != NUL
  }

  ghost function Orphans(l: Layout): set<int> {
    set b | b in l.owner && l.owner[b] == Orphan
  }

  ghost function AllFileBlocks(l: Layout): set<int> {
    set n, b | n in l.files && b in BlocksOf(l.files[n]) :: b
  }

  /** The blocks of different files are disjoint, no block occurs twice in a chain, and an
      inode's block is not in its own chain. */
  lemma FilesAreSeparate(v: Volume, l: Layout, a: Name, b: Name)
    requires Inv(v, l) && a in l.files && b in l.files
    ensures a != b ==> BlocksOf(l.files[a]) !! BlocksOf(l.files[b])
    ensures forall i, j :: 0 <= i < j < |l.files[a].chain| ==> l.files[a].chain[i] != l.files[a].chain[j]
    ensures l.files[a].origBlock !in l.files[a].chain
    ensures forall c :: c in BlocksOf(l.files[a]) ==> 1 <= c < v.totalBlocks && c in Flagged(v)
  {
  }

  /** The block reached from b after so many steps along the next pointers. */
  function BlockAfter(d: seq<byte>, b: int, steps: nat): Option<int> {
    if steps == 0 then Some(b)
    else
      match BlockAfter(d, b, steps - 1)
      case None => None
      case Some(c) => if InDisk(d, c) then Some(Next(d, c)) else None
  }

  lemma {:induction false} PointersFollow(d: seq<byte>, f: File, steps: nat)
    requires Stored(d, f) && f.chain != [] && steps <= |f.chain|
    ensures BlockAfter(d, f.startBlock, steps) == Some(if steps < |f.chain| then f.chain[steps] else 0)
  {
    if steps > 0 {
      PointersFollow(d, f, steps - 1);
      assert Holds(d, f.chain[steps - 1], f.text, steps - 1, Successor(f.chain, steps - 1, 0));
    }
  }

  /** The pointers on the disk lead from a file's first block through its whole chain, which has
      as many blocks as the inode counts and the text needs, and then to 0. */
  lemma PointersFollowChain(v: Volume, l: Layout, k: nat, steps: nat)
    requires Inv(v, l) && k < |l.order|
    requires l.files[l.order[k]].text != [] && steps <= |l.files[l.order[k]].chain|
    ensures k < |v.table| && v.table[k].countBlock == |l.files[l.order[k]].chain| == BlocksFor(v.table[k].size) > 0
    ensures BlockAfter(v.disk, v.table[k].startBlock, steps) ==
            Some(if steps < v.table[k].countBlock then l.files[l.order[k]].chain[steps] else 0)
  {
    InodeOfFile(v, l, k);
    PointersFollow(v.disk, l.files[l.order[k]], steps);
  }

  lemma {:induction false} FlaggedAreOwned(v: Volume, l: Layout)
    requires Inv(v, l)
    ensures Flagged(v) == l.owner.Keys
  {
    forall b ensures b in Flagged(v) <==> b in l.owner.Keys {
      if 1 <= b < v.totalBlocks && b !in l.owner {
        assert Block(v.disk, b) == Zeros(BLOCK_SIZE);
      }
    }
  }

  lemma FileBlockIsOwned(l: Layout, b: int)
    requires Ownership(l) && b in AllFileBlocks(l)
    ensures b in l.owner && l.owner[b] != Orphan
  {
    var n :| n in l.files && b in BlocksOf(l.files[n]);
    if b in l.files[n].chain {
      var j :| 0 <= j < |l.files[n].chain| && l.files[n].chain[j] == b;
      assert l.owner[l.files[n].chain[j]] == DataOf(n, j);
    }
  }

  lemma OwnedBlockIsOfFile(l: Layout, b: int)
    requires Ownership(l) && b in l.owner && l.owner[b] != Orphan
    ensures b in AllFileBlocks(l)
  {
    assert Owned(l, b);
    var n := l.owner[b].name;
    assert b in BlocksOf(l.files[n]);
  }

  lemma OwnedAreFilesAndOrphans(l: Layout)
    requires Ownership(l)
    ensures l.owner.Keys == AllFileBlocks(l) + Orphans(l)
    ensures AllFileBlocks(l) !! Orphans(l)
  {
    forall b ensures b in AllFileBlocks(l) <==> b in l.owner && l.owner[b] != Orphan {
      if b in AllFileBlocks(l) {
        FileBlockIsOwned(l, b);
      }
      if b in l.owner && l.owner[b] != Orphan {
        OwnedBlockIsOfFile(l, b);
      }
    }
  }

  /** The counters are exact, and the blocks in use are the files' and the orphans'. */
  lemma Conservation(v: Volume, l: Layout)
    requires Inv(v, l)
    ensures v.usedBlocks == |Flagged(v)|
    ensures v.freeBlocks + v.usedBlocks == v.totalBlocks - v.initBlocks
    ensures Flagged(v) == AllFileBlocks(l) + Orphans(l)
    ensures AllFileBlocks(l) !! Orphans(l)
    ensures Orphans(l) == {} ==> Flagged(v) == AllFileBlocks(l)
  {
    FlaggedCount(v, l);
    FlaggedAreFilesAndOrphans(v, l);
    OwnedAreFilesAndOrphans(l);
  }

  lemma FlaggedCount(v: Volume, l: Layout)
    requires Inv(v, l)
    ensures v.usedBlocks == |Flagged(v)| && v.freeBlocks + v.usedBlocks == v.totalBlocks - v.initBlocks
  {
    FlaggedAreOwned(v, l);
    CountersAreExact(v, l.owner);
  }

  lemma FlaggedAreFilesAndOrphans(v: Volume, l: Layout)
    requires Inv(v, l)
    ensures Flagged(v) == AllFileBlocks(l) + Orphans(l)
  {
    FlaggedAreOwned(v, l);
    OwnedAreFilesAndOrphans(l);
  }

  lemma CountersAreExact(v: Volume, owner: map<int, Owner>)
    requires Geometry(v) && Accounting(v, owner)
    ensures v.usedBlocks == |owner.Keys| && v.freeBlocks + v.usedBlocks == v.totalBlocks - v.initBlocks
  {
    assert |owner| == |owner.Keys|;
  }

  // ---- make, then delete ----

  lemma MakeDeleteOwner(v: Volume, l: Layout, u: Volume, m: Layout, k: nat, name: Name, text: Text)
    requires Ownership(l) && Made(v, l, u, m, name, text) && k < |m.order| && m.order[k] == name
    ensures text != [] ==> Without(m, k).owner == l.owner
    ensures text == [] ==> Without(m, k).owner == l.owner[m.files[name].startBlock := Orphan]
  {
    var after, start := Without(m, k).owner, m.files[name].startBlock;
    forall c | c in l.owner ensures c in after && after[c] == l.owner[c] {
      assert Owned(l, c);
      assert !OwnedBy(m.owner[c], name);
    }
    forall c | c in after && c !in l.owner ensures text == [] && c == start && after[c] == Orphan {
      assert !OwnedBy(m.owner[c], name);
    }
    if text == [] {
      assert start in after && after[start] == Orphan;
      assert after == l.owner[start := Orphan];
    } else {
      assert after == l.owner;
    }
  }

  lemma MakeDeleteOrder(v: Volume, l: Layout, u: Volume, m: Layout, k: nat, name: Name, text: Text)
    requires Named(l) && Made(v, l, u, m, name, text) && k < |m.order| && m.order[k] == name
    ensures Without(m, k).order == l.order && Without(m, k).files == l.files
  {
    forall i | 0 <= i < |l.order| ensures m.order[i] == l.order[i] != name {
      assert l.order[i] in l.files;
    }
    assert m.order[..k] + m.order[k + 1..] == l.order;
    assert m.files - {name} == l.files;
  }

  lemma SoundTablesEqual(v: Volume, w: Volume, l: Layout, m: Layout)
    requires Named(l) && Tabled(v, l) && Named(m) && Tabled(w, m) && m.order == l.order && m.files == l.files
    ensures v.table == w.table
  {
    forall k | 0 <= k < |v.table| ensures v.table[k] == w.table[k] {
      assert v.table[k] == Entry(l, k) && w.table[k] == Entry(m, k);
    }
  }

  /** Two sound volumes that agree on every block in use differ only by zero blocks at the end. */
  lemma SameOwnersSameDisk(v: Volume, l: Layout, w: Volume, m: Layout)
    requires Inv(v, l) && Inv(w, m) && m.owner == l.owner && v.totalBlocks <= w.totalBlocks
    requires forall c :: 0 <= c < v.totalBlocks && (c == 0 || c in l.owner) ==> Block(w.disk, c) == Block(v.disk, c)
    ensures w.disk == v.disk + Zeros((w.totalBlocks - v.totalBlocks) * BLOCK_SIZE)
  {
    var n := w.totalBlocks - v.totalBlocks;
    var e := v.disk + Zeros(n * BLOCK_SIZE);
    ExtendBlocks(v.disk, n);
    forall b | 0 <= b && (b + 1) * BLOCK_SIZE <= |w.disk| ensures Block(w.disk, b) == Block(e, b) {
      if b < v.totalBlocks && b != 0 && b !in l.owner {
        assert Block(w.disk, b) == Zeros(BLOCK_SIZE) == Block(v.disk, b);
      }
    }
    SameBlocksSameBytes(w.disk, e);
  }

  lemma MakeDeleteKeeps(v: Volume, l: Layout, u: Volume, m: Layout, w: Volume, k: nat, name: Name, text: Text)
    requires k < |m.order| && m.order[k] == name
    requires Inv(v, l) && Made(v, l, u, m, name, text) && Deleted(u, m, w, Without(m, k), k)
    ensures v.totalBlocks <= w.totalBlocks
    ensures forall c :: 0 <= c < v.totalBlocks && (c == 0 || c in l.owner) ==> Block(w.disk, c) == Block(v.disk, c)
  {
    MakeDeleteOwner(v, l, u, m, k, name, text);
    forall c | 0 <= c < v.totalBlocks && (c == 0 || c in l.owner) ensures Block(w.disk, c) == Block(v.disk, c) {
      assert c == 0 || c in Without(m, k).owner;
      assert Block(u.disk, c) == Block(v.disk, c);
    }
  }

  /** Making a new file and deleting it again gives back the inode table, and gives back the
      disk byte for byte, up to zero blocks at its end, exactly when the text was not empty.
      An empty text leaves its one data block flagged for ever. */
  lemma MakeThenDelete(v: Volume, l: Layout, u: Volume, m: Layout, w: Volume, k: nat, name: Name, text: Text)
    requires k < |m.order| && m.order[k] == name
    requires Inv(v, l) && Made(v, l, u, m, name, text)
    requires Inv(w, Without(m, k)) && Deleted(u, m, w, Without(m, k), k)
    ensures w.table == v.table && v.totalBlocks <= w.totalBlocks
    ensures w.usedBlocks == v.usedBlocks + if text == [] then 1 else 0
    ensures w.disk == v.disk + Zeros((w.totalBlocks - v.totalBlocks) * BLOCK_SIZE) <==> text != []
  {
    MakeDeleteOwner(v, l, u, m, k, name, text);
    MakeDeleteOrder(v, l, u, m, k, name, text);
    MakeDeleteKeeps(v, l, u, m, w, k, name, text);
    SoundTablesEqual(v, w, l, Without(m, k));
    if text != [] {
      SameOwnersSameDisk(v, l, w, Without(m, k));
    } else {
      var s := m.files[name].startBlock;
      AddKey(l.owner, s, Orphan);
      OrphanShows(v, l, w, Without(m, k), s);
    }
  }

  lemma OrphanShows(v: Volume, l: Layout, w: Volume, m: Layout, s: int)
    requires Inv(v, l) && Inv(w, m) && v.totalBlocks <= w.totalBlocks && s in m.owner && s !in l.owner
    ensures w.disk != v.disk + Zeros((w.totalBlocks - v.totalBlocks) * BLOCK_SIZE)
  {
    var n := w.totalBlocks - v.totalBlocks;
    ExtendBlocks(v.disk, n);
    assert Block(w.disk, s)[0] == USED;
    assert Block(v.disk + Zeros(n * BLOCK_SIZE), s) == Zeros(BLOCK_SIZE);
  }

  // ---- what a reader sees ----

  function IndexOf(table: seq<Inode>, name: Name): (i: int)
    ensures -1 <= i < |table|
    ensures i == -1 ==> forall j :: 0 <= j < |table| ==> CString(table[j].filename) != name
    ensures i != -1 ==> CString(table[i].filename) == name
  {
    if table == [] then -1
    else if CString(table[0].filename) == name then 0
    else var i := IndexOf(table[1..], name);
      assert forall j :: 1 <= j < |table| ==> table[j] == table[1..][j - 1];
      if i == -1 then -1 else i + 1
  }

  /** What rd_file returns, from the disk and the table alone. */
  function ReadByName(v: Volume, name: Name): Option<Text> {
    var i := IndexOf(v.table, name);
    if i == -1 || v.table[i].startBlock < 0 || v.table[i].size <= 0 then None
    else ReadChain(v.disk, v.table[i].startBlock, v.table[i].size)
  }

  /** Reading on any sound volume returns the stored text; an empty text reads as null. */
  lemma ReadsStoredText(v: Volume, l: Layout, name: Name)
    requires Inv(v, l)
    ensures ReadByName(v, name) ==
            if name in l.files && l.files[name].text != [] then Some(l.files[name].text) else None
  {
    var i := IndexOf(v.table, name);
    FoundExactlyWhenNamed(v, l, name, i);
    if i != -1 {
      InodeOfFile(v, l, i);
      if l.files[name].text != [] {
        FileReadsBack(v, l, name);
      }
    }
  }

  /** Making a file, with whatever disk extensions it needs, changes what is read for no other name. */
  lemma MakeFrame(v: Volume, l: Layout, u: Volume, m: Layout, name: Name, text: Text, other: Name)
    requires Inv(v, l) && Inv(u, m) && Made(v, l, u, m, name, text)
    ensures ReadByName(u, other) ==
            if other == name then (if text == [] then None else Some(text)) else ReadByName(v, other)
  {
    ReadsStoredText(v, l, other);
    ReadsStoredText(u, m, other);
  }

  /** Deleting a file changes what is read for no other name. */
  lemma DeleteFrame(v: Volume, l: Layout, w: Volume, m: Layout, k: nat, other: Name)
    requires Inv(v, l) && Inv(w, m) && Deleted(v, l, w, m, k)
    ensures ReadByName(w, other) == if other == l.order[k] then None else ReadByName(v, other)
  {
    ReadsStoredText(v, l, other);
    ReadsStoredText(w, m, other);
  }

  /** Saving leaves every data block alone and changes nothing a reader sees. */
  lemma SaveFrame(v: Volume, l: Layout, w: Volume, other: Name)
    requires Inv(v, l) && Inv(w, l) && SavedFrom(v, l, w)
    ensures ReadByName(w, other) == ReadByName(v, other)
    ensures forall n, j :: n in l.files && 0 <= j < |l.files[n].chain| ==>
              1 <= l.files[n].chain[j] < v.totalBlocks
              && Block(w.disk, l.files[n].chain[j]) == Block(v.disk, l.files[n].chain[j])
  {
    ReadsStoredText(v, l, other);
    ReadsStoredText(w, l, other);
    forall n, j | n in l.files && 0 <= j < |l.files[n].chain|
      ensures 1 <= l.files[n].chain[j] < v.totalBlocks
              && Block(w.disk, l.files[n].chain[j]) == Block(v.disk, l.files[n].chain[j])
    {
      assert l.owner[l.files[n].chain[j]] == DataOf(n, j);
    }
  }

  // ---- the saved disk is the state ----

  lemma {:induction false} SameListSameTable(d: seq<byte>, s: seq<Inode>, t: seq<Inode>, k: nat)
    requires InodeList(d, s) && InodeList(d, t) && NextInTable(s, 0) == NextInTable(t, 0)
    requires k <= |s|
    ensures k <= |t| && s[..k] == t[..k] && NextInTable(s, k) == NextInTable(t, k)
  {
    if k > 0 {
      var j := k - 1;
      SameListSameTable(d, s, t, j);
      var next, next' := NextInTable(s, j + 1), NextInTable(t, j + 1);
      assert s[j].origBlock != 0 && s[j].nextInode == next;
      assert t[j].nextInode == next' && s[j] == t[j];
      assert s[..k] == s[..j] + [s[j]] && t[..k] == t[..j] + [t[j]];
    }
  }

  /** Two saved states with the same disk image are the same state: counters, inode table and
      everything that can be read. So saving and reloading is the identity. */
  lemma DiskDeterminesState(v: Volume, l: Layout, w: Volume, m: Layout, name: Name)
    requires Persistent(v, l) && Persistent(w, m) && v.disk == w.disk
    ensures v == w
    ensures name in l.files <==> name in m.files
    ensures name in l.files ==> l.files[name].text == m.files[name].text
  {
    SavedHeader(v, l);
    SavedHeader(w, m);
    PersistentList(v, l);
    PersistentList(w, m);
    SameListSameTable(v.disk, v.table, w.table, |v.table|);
    SameListSameTable(v.disk, w.table, v.table, |w.table|);
    assert v.table == v.table[..|v.table|] && w.table == w.table[..|w.table|];
    assert v == w;
    SameTableSameTexts(v, l, m, name);
  }

  lemma SameTableSameTexts(v: Volume, l: Layout, m: Layout, name: Name)
    requires Inv(v, l) && Inv(v, m)
    ensures name in l.files <==> name in m.files
    ensures name in l.files ==> l.files[name].text == m.files[name].text
  {
    var i := IndexOf(v.table, name);
    FoundExactlyWhenNamed(v, l, name, i);
    FoundExactlyWhenNamed(v, m, name, i);
    ReadsStoredText(v, l, name);
    ReadsStoredText(v, m, name);
    if i != -1 {
      InodeOfFile(v, l, i);
      InodeOfFile(v, m, i);
    }
  }
}

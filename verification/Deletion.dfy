/** Deleting a file, and what a make or a delete does to the whole volume. */
module Deletion {
  import opened Blocks
  import opened Volumes
  import opened Steps

  predicate OwnedBy(o: Owner, name: Name) {
    match o
    case InodeOf(n) => n == name
    case DataOf(n, _) => n == name
    case Orphan => false
  }

  // ---- making a file ----

  /** A make, from (v, l) to (w, m): `name` is the last file and owns every newly used block,
      except that the one data block of an empty text belongs to nobody. */
  ghost predicate Made(v: Volume, l: Layout, w: Volume, m: Layout, name: Name, text: Text) {
    && Kept(v, l, w, m)
    && name !in l.files && name in m.files && m.files[name].text == text
    && m.order == l.order + [name] && m.files == l.files[name := m.files[name]]
    && (forall c :: c in m.owner && c !in l.owner ==>
          OwnedBy(m.owner[c], name) || (text == [] && m.owner[c] == Orphan && c == m.files[name].startBlock))
    && (text == [] ==> var s := m.files[name].startBlock; s in m.owner && s !in l.owner && m.owner[s] == Orphan)
    && RoomOf(w) == TakeMany(RoomOf(v), 1 + ClaimsFor(text))
    && w.inodeCount == v.inodeCount + 1
  }

  lemma MadeInTwo(v: Volume, l: Layout, u: Volume, m: Layout, w: Volume, m': Layout, name: Name, text: Text)
    requires Added(v, l, u, m, name) && Written(u, m, w, m', name, text) && name !in l.files
    requires TakeMany(RoomOf(u), ClaimsFor(text)) == TakeMany(RoomOf(v), 1 + ClaimsFor(text))
    requires forall c :: c in l.owner ==> 1 <= c < v.totalBlocks
    ensures Made(v, l, w, m', name, text)
  {
    var f := m'.files[name];
    assert m'.files == l.files[name := f];
    forall c | c in m'.owner && c !in l.owner
      ensures OwnedBy(m'.owner[c], name) || (text == [] && m'.owner[c] == Orphan && c == f.startBlock)
    {
      if c in m.owner {
        assert c == f.origBlock && m'.owner[c] == m.owner[c] == InodeOf(name);
      }
    }
  }

  // ---- freeing blocks ----

  lemma ZeroedBlock(d: seq<byte>, b: int)
    requires InDisk(d, b)
    ensures Block(Splice(d, b * BLOCK_SIZE, Zeros(BLOCK_SIZE)), b) == Zeros(BLOCK_SIZE)
    ensures forall c :: InDisk(d, c) && c != b ==> Block(Splice(d, b * BLOCK_SIZE, Zeros(BLOCK_SIZE)), c) == Block(d, c)
  {
    WriteInBlock(d, b, 0, Zeros(BLOCK_SIZE));
    assert Splice(Block(d, b), 0, Zeros(BLOCK_SIZE)) == Zeros(BLOCK_SIZE);
  }

  /** Zeroing a block in use and counting it free. */
  lemma Released(v: Volume, owner: map<int, Owner>, w: Volume, b: int)
    requires Geometry(v) && Accounting(v, owner) && b in owner
    requires w == v.(disk := Splice(v.disk, b * BLOCK_SIZE, Zeros(BLOCK_SIZE)),
                     usedBlocks := v.usedBlocks - 1, freeBlocks := v.freeBlocks + 1)
    ensures Geometry(w) && Accounting(w, owner - {b})
    ensures forall c :: 0 <= c < v.totalBlocks && c != b ==> Block(w.disk, c) == Block(v.disk, c)
  {
    ZeroedBlock(v.disk, b);
    RemoveKey(owner, b);
  }

  /** The ownership after the first i blocks of the file's chain are freed. */
  ghost function Freed(owner: map<int, Owner>, name: Name, i: int): map<int, Owner> {
    map b | b in owner && !(owner[b].DataOf? && owner[b].name == name && owner[b].index < i) :: owner[b]
  }

  /** The deletion of `name` has freed the first i blocks of its chain, and `current` is the next. */
  ghost predicate Deleting(v: Volume, l: Layout, w: Volume, owner: map<int, Owner>, name: Name, i: int, current: int) {
    && Geometry(v) && Geometry(w) && Accounting(w, owner)
    && name in l.files && 0 <= i <= |l.files[name].chain|
    && owner == Freed(l.owner, name, i)
    && w == v.(disk := w.disk, usedBlocks := v.usedBlocks - i, freeBlocks := v.freeBlocks + i)
    && (forall c :: 0 <= c < v.totalBlocks && (c == 0 || c in owner) ==> Block(w.disk, c) == Block(v.disk, c))
    && (i < |l.files[name].chain| ==> current == l.files[name].chain[i])
  }

  lemma DeletingStarts(v: Volume, l: Layout, name: Name)
    requires Inv(v, l) && name in l.files
    ensures Deleting(v, l, v, l.owner, name, 0, l.files[name].startBlock)
  {
    forall b | b in l.owner ensures b in Freed(l.owner, name, 0) {
      assert Owned(l, b);
    }
    assert Freed(l.owner, name, 0) == l.owner;
  }

  lemma ChainBlock(v: Volume, l: Layout, name: Name, i: int)
    requires Inv(v, l) && name in l.files && 0 <= i < |l.files[name].chain|
    ensures var c := l.files[name].chain;
            && c[i] in l.owner && l.owner[c[i]] == DataOf(name, i)
            && InDisk(v.disk, c[i]) && Next(v.disk, c[i]) == Successor(c, i, 0)
  {
    var f := l.files[name];
    assert Holds(v.disk, f.chain[i], f.text, i, Successor(f.chain, i, 0));
  }

  lemma FreedOneMore(l: Layout, name: Name, i: int)
    requires Ownership(l) && name in l.files && 0 <= i < |l.files[name].chain|
    ensures Freed(l.owner, name, i) - {l.files[name].chain[i]} == Freed(l.owner, name, i + 1)
    ensures l.files[name].chain[i] in Freed(l.owner, name, i)
  {
    var b := l.files[name].chain[i];
    assert b in l.owner && l.owner[b] == DataOf(name, i);
    forall c | c in l.owner && l.owner[c] == DataOf(name, i) ensures c == b {
      assert Owned(l, c);
    }
    assert forall c :: c in Freed(l.owner, name, i) - {b} <==> c in Freed(l.owner, name, i + 1);
  }

  lemma DeletingStep(v: Volume, l: Layout, u: Volume, owner: map<int, Owner>, w: Volume, name: Name, i: int, current: int)
    requires Inv(v, l) && Deleting(v, l, u, owner, name, i, current) && i < |l.files[name].chain|
    requires w == u.(disk := Splice(u.disk, current * BLOCK_SIZE, Zeros(BLOCK_SIZE)),
                     usedBlocks := u.usedBlocks - 1, freeBlocks := u.freeBlocks + 1)
    ensures Deleting(v, l, w, owner - {current}, name, i + 1, Next(u.disk, current))
  {
    ChainBlock(v, l, name, i);
    FreedOneMore(l, name, i);
    Released(u, owner, w, current);
  }

  // ---- taking the inode out of the table ----

  function Relinked(table: seq<Inode>, k: nat): (t: seq<Inode>)
    requires k < |table|
    ensures |t| == |table|
  {
    if k == 0 then table
    else if k == |table| - 1 then table[k - 1 := table[k - 1].(nextInode := 0)]
    else table[k - 1 := table[k - 1].(nextInode := table[k + 1].origBlock)]
  }

  function Unlinked(table: seq<Inode>, k: nat): seq<Inode>
    requires k < |table|
  {
    Relinked(table, k)[..k] + Relinked(table, k)[k + 1..]
  }

  ghost function Without(l: Layout, k: nat): Layout
    requires k < |l.order|
  {
    var name := l.order[k];
    Layout(l.order[..k] + l.order[k + 1..], l.files - {name},
           map b | b in l.owner && !OwnedBy(l.owner[b], name) :: l.owner[b])
  }

  lemma OrderWithout(l: Layout, k: nat, j: int)
    requires k < |l.order| && 0 <= j < |l.order| - 1
    ensures Without(l, k).order[j] == l.order[if j < k then j else j + 1]
  {
  }

  lemma NamedWithout(l: Layout, k: nat)
    requires Named(l) && k < |l.order|
    ensures Named(Without(l, k))
  {
    var m := Without(l, k);
    forall i, j | 0 <= i < j < |m.order| ensures m.order[i] != m.order[j] {
      OrderWithout(l, k, i);
      OrderWithout(l, k, j);
    }
    forall n ensures n in m.order <==> n in m.files {
      SameNamesWithout(l, k, n);
    }
  }

  lemma SameNamesWithout(l: Layout, k: nat, n: Name)
    requires Named(l) && k < |l.order|
    ensures n in Without(l, k).order <==> n in Without(l, k).files
  {
    var m := Without(l, k);
    if n in m.files {
      var i :| 0 <= i < |l.order| && l.order[i] == n;
      OrderWithout(l, k, if i < k then i else i - 1);
    }
    if n in m.order {
      var j :| 0 <= j < |m.order| && m.order[j] == n;
      OrderWithout(l, k, j);
    }
  }

  /** The position before the removal of what is now at j. */
  function Skip(j: int, k: int): int {
    if j < k then j else j + 1
  }

  /** m lists the files of l without the k-th. */
  ghost predicate Shifted(l: Layout, m: Layout, k: int) {
    && 0 <= k < |l.order| && |m.order| == |l.order| - 1 && Named(l) && Named(m)
    && forall j {:trigger Skip(j, k)} :: 0 <= j < |m.order| ==>
         m.order[j] == l.order[Skip(j, k)] && m.files[m.order[j]] == l.files[l.order[Skip(j, k)]]
  }

  lemma ShiftedWithout(l: Layout, k: nat)
    requires Named(l) && k < |l.order|
    ensures Shifted(l, Without(l, k), k)
  {
    var m := Without(l, k);
    NamedWithout(l, k);
    forall j | 0 <= j < |m.order|
      ensures m.order[j] == l.order[Skip(j, k)] && m.files[m.order[j]] == l.files[l.order[Skip(j, k)]]
    {
      OrderWithout(l, k, j);
      assert l.order[Skip(j, k)] != l.order[k];
    }
  }

  lemma TableWithout(table: seq<Inode>, k: nat, j: int)
    requires k < |table| && 0 <= j < |table| - 1
    ensures Unlinked(table, k)[j] ==
            if Skip(j, k) + 1 == k
            then table[j].(nextInode := if k + 1 < |table| then table[k + 1].origBlock else 0)
            else table[Skip(j, k)]
  {
  }

  /** Taking out an entry anywhere leaves the table linked up, and changes of the others at most
      the pointer of the one before it. */
  lemma RemovalKeepsLinks(table: seq<Inode>, k: nat)
    requires LinkedUp(table) && k < |table|
    ensures LinkedUp(Unlinked(table, k))
    ensures |Unlinked(table, k)| == |table| - 1
    ensures forall j {:trigger Skip(j, k)} :: 0 <= j < |table| - 1 ==>
              Unlinked(table, k)[j] == table[Skip(j, k)].(nextInode := NextInTable(Unlinked(table, k), j + 1))
  {
    var shorter := Unlinked(table, k);
    forall j | 0 <= j < |shorter|
      ensures shorter[j].nextInode == NextInTable(shorter, j + 1)
      ensures shorter[j] == table[Skip(j, k)].(nextInode := NextInTable(shorter, j + 1))
    {
      TableWithout(table, k, j);
      if j + 1 < |shorter| {
        TableWithout(table, k, j + 1);
      }
      var next, later := NextInTable(table, j + 1), NextInTable(table, Skip(j, k) + 1);
    }
  }

  lemma EntryShifted(l: Layout, m: Layout, k: int, j: int)
    requires Shifted(l, m, k) && 0 <= j < |m.order|
    ensures Entry(m, j) ==
            if Skip(j, k) + 1 == k
            then Entry(l, j).(nextInode := if k + 1 < |l.order| then Entry(l, k + 1).origBlock else 0)
            else Entry(l, Skip(j, k))
  {
    var i, next := Skip(j, k), Skip(j + 1, k);
  }

  lemma TabledWithout(v: Volume, l: Layout, w: Volume, m: Layout, k: nat)
    requires Shifted(l, m, k) && Tabled(v, l)
    requires w.table == Unlinked(v.table, k) && w.inodeCount == v.inodeCount
    ensures Tabled(w, m)
  {
    forall j | 0 <= j < |w.table| ensures w.table[j] == Entry(m, j) {
      TableWithout(v.table, k, j);
      EntryShifted(l, m, k, j);
    }
  }

  lemma OwnershipWithout(l: Layout, k: nat)
    requires Ownership(l) && Named(l) && k < |l.order|
    ensures Ownership(Without(l, k))
  {
    var m := Without(l, k);
    assert forall n :: n in m.files ==> n in l.files && m.files[n] == l.files[n] && n != l.order[k];
    forall n | n in m.files
      ensures m.files[n].origBlock in m.owner && m.owner[m.files[n].origBlock] == InodeOf(n)
    {
      KeepsOwner(l, k, l.files[n].origBlock);
    }
    forall n, j | n in m.files && 0 <= j < |m.files[n].chain|
      ensures m.files[n].chain[j] in m.owner && m.owner[m.files[n].chain[j]] == DataOf(n, j)
    {
      assert m.files[n].chain[j] == l.files[n].chain[j];
      KeepsOwner(l, k, l.files[n].chain[j]);
    }
    forall b | b in m.owner ensures Owned(m, b) {
      OwnedWithout(l, k, b);
    }
  }

  lemma KeepsOwner(l: Layout, k: nat, b: int)
    requires k < |l.order| && b in l.owner && !OwnedBy(l.owner[b], l.order[k])
    ensures b in Without(l, k).owner && Without(l, k).owner[b] == l.owner[b]
  {
  }

  lemma OwnedWithout(l: Layout, k: nat, b: int)
    requires Ownership(l) && k < |l.order| && b in Without(l, k).owner
    ensures Owned(Without(l, k), b)
  {
    assert Owned(l, b);
    match l.owner[b] {
      case InodeOf(n) => assert n != l.order[k] && n in Without(l, k).files;
      case DataOf(n, j) => assert n != l.order[k] && n in Without(l, k).files;
      case Orphan =>
    }
  }

  /** A delete, from (v, l) to (w, m): the k-th file is gone and its blocks are free again. */
  ghost predicate Deleted(v: Volume, l: Layout, w: Volume, m: Layout, k: nat) {
    && Geometry(v) && Geometry(w) && w.totalBlocks == v.totalBlocks
    && k < |l.order| && m == Without(l, k)
    && l.order[k] in l.files
    && w.freeBlocks == v.freeBlocks + 1 + |l.files[l.order[k]].chain|
    && w.inodeCount == v.inodeCount
    && (forall c :: 0 <= c < v.totalBlocks && (c == 0 || c in m.owner) ==> Block(w.disk, c) == Block(v.disk, c))
  }

  ghost predicate DeletedName(v: Volume, l: Layout, w: Volume, m: Layout, name: Name) {
    exists k: nat :: k < |l.order| && l.order[k] == name && Deleted(v, l, w, m, k)
  }

  lemma AllFreed(v: Volume, l: Layout, k: nat)
    requires Inv(v, l) && k < |l.order|
    ensures var name := l.order[k];
            && l.files[name].origBlock in Freed(l.owner, name, |l.files[name].chain|)
            && Freed(l.owner, name, |l.files[name].chain|) - {l.files[name].origBlock} == Without(l, k).owner
  {
    var name := l.order[k];
    var f := l.files[name];
    forall b | b in l.owner
      ensures OwnedBy(l.owner[b], name) <==>
              b == f.origBlock || (l.owner[b].DataOf? && l.owner[b].name == name && l.owner[b].index < |f.chain|)
    {
      assert Owned(l, b);
    }
    assert forall c :: c in Freed(l.owner, name, |f.chain|) - {f.origBlock} <==> c in Without(l, k).owner;
  }

  lemma DeletingDone(v: Volume, l: Layout, u: Volume, owner: map<int, Owner>, w: Volume, k: nat, current: int)
    requires Inv(v, l) && k < |l.order|
    requires Deleting(v, l, u, owner, l.order[k], |l.files[l.order[k]].chain|, current)
    requires k < |u.table| && InDisk(u.disk, u.table[k].origBlock)
    requires w == u.(disk := Splice(u.disk, u.table[k].origBlock * BLOCK_SIZE, Zeros(BLOCK_SIZE)),
                     usedBlocks := u.usedBlocks - 1, freeBlocks := u.freeBlocks + 1, table := Unlinked(u.table, k))
    ensures Inv(w, Without(l, k))
    ensures Deleted(v, l, w, Without(l, k), k)
  {
    var m := Without(l, k);
    InodeOfFile(v, l, k);
    AllFreed(v, l, k);
    Released(u, owner, w.(table := u.table), l.files[l.order[k]].origBlock);
    OwnershipWithout(l, k);
    ShiftedWithout(l, k);
    TabledWithout(v, l, w, m, k);
    StoredWithout(v, l, w, k);
  }

  lemma StoredWithout(v: Volume, l: Layout, w: Volume, k: nat)
    requires Inv(v, l) && k < |l.order| && Geometry(w) && w.totalBlocks == v.totalBlocks
    requires forall c :: 0 <= c < v.totalBlocks && c in Without(l, k).owner ==> Block(w.disk, c) == Block(v.disk, c)
    ensures forall n :: n in Without(l, k).files ==> Stored(w.disk, l.files[n])
  {
    forall n | n in Without(l, k).files ensures Stored(w.disk, l.files[n]) {
      var f := l.files[n];
      forall j | 0 <= j < |f.chain|
        ensures InDisk(v.disk, f.chain[j]) && InDisk(w.disk, f.chain[j]) && Block(w.disk, f.chain[j]) == Block(v.disk, f.chain[j])
      {
        assert f.chain[j] in l.owner && l.owner[f.chain[j]] == DataOf(n, j);
      }
      StoredFrame(v.disk, w.disk, f);
    }
  }

  lemma DeletingReady(v: Volume, l: Layout, u: Volume, owner: map<int, Owner>, k: nat, i: int, current: int)
    requires Inv(v, l) && k < |l.order| && Deleting(v, l, u, owner, l.order[k], i, current)
    ensures u.table == v.table && k < |u.table|
    ensures u.table[k].origBlock == l.files[l.order[k]].origBlock && InDisk(u.disk, u.table[k].origBlock)
    ensures i < |l.files[l.order[k]].chain| ==> InDisk(u.disk, current)
  {
    InodeOfFile(v, l, k);
    if i < |l.files[l.order[k]].chain| {
      ChainBlock(v, l, l.order[k], i);
    }
  }
}

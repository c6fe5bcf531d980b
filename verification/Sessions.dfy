/** Whole runs of the linked-block file system: every sequence of makes, reads, deletes and
    restarts behaves like a finite map from names to texts, and its counters are predictable
    from the calls alone. */
module Sessions {
  import opened Options
  import opened Blocks
  import opened Volumes
  import opened Steps
  import opened Deletion
  import opened Reading
  import opened Theorems
  import opened FileSystems
  import opened BlockBytes

  datatype Call = Make(name: Name, text: Text) | Read(name: Name) | Delete(name: Name) | Restart

  datatype Reply = Code(code: int) | Content(content: Option<Text>) | Restarted

  /** The user's view: the stored texts, the room on the disk, how many makes succeeded, and how
      many of those were of an empty text. */
  datatype Model = Model(texts: map<Name, Text>, room: Room, made: int, leaked: nat)

  const INITIAL := Model(map[], Room(1, 0), 0, 0)

  function Answer(m: Model, c: Call): Reply {
    match c
    case Make(name, _) => Code(if name in m.texts then -1 else 0)
    case Read(name) => Content(if name in m.texts && m.texts[name] != [] then Some(m.texts[name]) else None)
    case Delete(name) => Code(if name in m.texts then 0 else -1)
    case Restart => Restarted
  }

  /** k blocks more in use, on a disk that grows only when it is full. */
  function Taken(r: Room, k: nat): Room {
    Room(r.total + Growth(r.free, k), r.free + Growth(r.free, k) - k)
  }

  function After(m: Model, c: Call): Model {
    match c
    case Make(name, text) =>
      if name in m.texts then m
      else Model(m.texts[name := text], Taken(m.room, 1 + TextBlocks(|text|)), m.made + 1,
                 m.leaked + if text == [] then 1 else 0)
    case Delete(name) =>
      if name in m.texts
      then m.(texts := m.texts - {name}, room := m.room.(free := m.room.free + 1 + (|m.texts[name]| + 250) / 251))
      else m
    case Read(_) => m
    case Restart => m
  }

  /** What the source demands of a caller: names its assertion accepts, NUL-terminated texts, and
      block numbers, sizes and counters that stay inside a C int. */
  predicate Permitted(m: Model, c: Call) {
    match c
    case Make(name, text) =>
      && IsName(name) && IsCString(text) && |text| <= INT_MAX
      && (name !in m.texts ==> m.made < INT_MAX && After(m, c).room.total <= MAX_BLOCKS)
    case Read(name) => IsName(name)
    case Delete(name) => IsName(name)
    case Restart => true
  }

  function State(calls: seq<Call>): Model {
    if calls == [] then INITIAL else After(State(calls[..|calls| - 1]), calls[|calls| - 1])
  }

  function Replies(calls: seq<Call>): (r: seq<Reply>)
    ensures |r| == |calls|
  {
    if calls == [] then []
    else Replies(calls[..|calls| - 1]) + [Answer(State(calls[..|calls| - 1]), calls[|calls| - 1])]
  }

  predicate AllPermitted(calls: seq<Call>) {
    forall i :: 0 <= i < |calls| ==> Permitted(State(calls[..i]), calls[i])
  }

  // ---- conservation ----

  /** The blocks the stored texts need: an inode each, and the blocks of the text. */
  ghost function Needed(texts: map<Name, Text>): nat
    decreases |texts|
  {
    if texts == map[] then 0 else
      var n :| n in texts;
      RemoveName(texts, n);
      1 + (|texts[n]| + 250) / 251 + Needed(texts - {n})
  }

  lemma RemoveName(texts: map<Name, Text>, n: Name)
    requires n in texts
    ensures |texts - {n}| == |texts| - 1
  {
    assert (texts - {n}).Keys == texts.Keys - {n};
    assert |texts| == |texts.Keys| && |texts - {n}| == |(texts - {n}).Keys|;
  }

  lemma {:induction false} NeededSplit(texts: map<Name, Text>, n: Name)
    requires n in texts
    ensures Needed(texts) == 1 + (|texts[n]| + 250) / 251 + Needed(texts - {n})
    decreases |texts|
  {
    var m :| m in texts && Needed(texts) == 1 + (|texts[m]| + 250) / 251 + Needed(texts - {m});
    if m != n {
      RemoveName(texts, m);
      RemoveName(texts, n);
      NeededSplit(texts - {m}, n);
      NeededSplit(texts - {n}, m);
      assert texts - {m} - {n} == texts - {n} - {m};
    }
  }

  /** The makes of an empty text that succeeded. */
  function EmptyMakes(calls: seq<Call>): nat {
    if calls == [] then 0
    else
      var c := calls[|calls| - 1];
      EmptyMakes(calls[..|calls| - 1])
      + if c.Make? && c.text == [] && c.name !in State(calls[..|calls| - 1]).texts then 1 else 0
  }

  function Used(r: Room): int {
    r.total - 1 - r.free
  }

  lemma CallCost(m: Model, c: Call)
    requires 0 <= m.room.free
    ensures 0 <= After(m, c).room.free
    ensures Used(After(m, c).room) - Needed(After(m, c).texts) ==
            Used(m.room) - Needed(m.texts) + if c.Make? && c.text == [] && c.name !in m.texts then 1 else 0
  {
    match c
    case Make(name, text) =>
      if name !in m.texts {
        NeededSplit(m.texts[name := text], name);
        assert m.texts[name := text] - {name} == m.texts;
      }
    case Delete(name) =>
      if name in m.texts {
        NeededSplit(m.texts, name);
      }
    case Read(_) =>
    case Restart =>
  }

  /** Over every run, the blocks in use are those the stored texts need, plus one for every
      empty text ever made: that block is never given back. */
  lemma {:induction false} UsedOverRun(calls: seq<Call>)
    ensures Used(State(calls).room) == Needed(State(calls).texts) + EmptyMakes(calls)
    ensures 0 <= State(calls).room.free && State(calls).leaked == EmptyMakes(calls)
  {
    if calls != [] {
      var init := calls[..|calls| - 1];
      UsedOverRun(init);
      CallCost(State(init), calls[|calls| - 1]);
    }
  }

  // ---- the file system follows the model ----

  ghost predicate Matches(v: Volume, l: Layout, m: Model) {
    Texts(l) == m.texts && RoomOf(v) == m.room && v.inodeCount == m.made && |Orphans(l)| == m.leaked
  }

  lemma RoomTaken(v: Volume, l: Layout, m: Model, text: Text)
    requires Inv(v, l) && m.room == RoomOf(v)
    ensures TakeMany(m.room, 1 + ClaimsFor(text)) == Taken(m.room, 1 + TextBlocks(|text|))
  {
    CountersOf(v, l);
    TextBlocksInNumbers(text);
    TakenInNumbers(m.room, 1 + ClaimsFor(text));
  }

  lemma MadeMatches(v: Volume, l: Layout, w: Volume, l': Layout, m: Model, name: Name, text: Text)
    requires Matches(v, l, m) && Made(v, l, w, l', name, text)
    requires TakeMany(m.room, 1 + ClaimsFor(text)) == Taken(m.room, 1 + TextBlocks(|text|))
    ensures Matches(w, l', After(m, Make(name, text)))
  {
    assert Texts(l') == Texts(l)[name := text];
    OrphansMade(v, l, w, l', name, text);
  }

  /** A make leaves one more block that nobody owns if its text is empty, and none otherwise. */
  lemma OrphansMade(v: Volume, l: Layout, w: Volume, l': Layout, name: Name, text: Text)
    requires Made(v, l, w, l', name, text)
    ensures Orphans(l') == Orphans(l) + if text == [] then {l'.files[name].startBlock} else {}
    ensures text == [] ==> l'.files[name].startBlock !in Orphans(l)
  {
    forall c ensures c in Orphans(l') <==> c in Orphans(l) + if text == [] then {l'.files[name].startBlock} else {} {
    }
  }

  /** A delete gives no such block back. */
  lemma OrphansWithout(l: Layout, k: nat)
    requires k < |l.order|
    ensures Orphans(Without(l, k)) == Orphans(l)
  {
    forall c ensures c in Orphans(Without(l, k)) <==> c in Orphans(l) {
    }
  }

  lemma TextsWithout(l: Layout, k: nat)
    requires k < |l.order|
    ensures Texts(Without(l, k)) == Texts(l) - {l.order[k]}
  {
  }

  lemma DeletedMatches(v: Volume, l: Layout, w: Volume, l': Layout, m: Model, name: Name)
    requires Inv(v, l) && Matches(v, l, m) && DeletedName(v, l, w, l', name)
    ensures Matches(w, l', After(m, Delete(name)))
  {
    var k: nat :| k < |l.order| && l.order[k] == name && Deleted(v, l, w, l', k);
    assert Stored(v.disk, l.files[name]);
    DeletedCounts(v, l, w, k);
    TextsWithout(l, k);
    OrphansWithout(l, k);
  }

  lemma DeletedCounts(v: Volume, l: Layout, w: Volume, k: nat)
    requires k < |l.order| && l.order[k] in l.files
    requires Deleted(v, l, w, Without(l, k), k) && Stored(v.disk, l.files[l.order[k]])
    ensures RoomOf(w) == Room(v.totalBlocks, v.freeBlocks + 1 + (|l.files[l.order[k]].text| + 250) / 251)
    ensures w.inodeCount == v.inodeCount
  {
    TextBlocksInNumbers(l.files[l.order[k]].text);
  }

  /** Over every run, the blocks that are flagged but belong to no file are as many as the empty
      texts ever made; with no empty text, the files' blocks are exactly the flagged ones. */
  lemma OrphansOverRun(calls: seq<Call>, v: Volume, l: Layout)
    requires Inv(v, l) && Matches(v, l, State(calls))
    ensures |Orphans(l)| == EmptyMakes(calls)
    ensures Flagged(v) == AllFileBlocks(l) + Orphans(l) && AllFileBlocks(l) !! Orphans(l)
    ensures EmptyMakes(calls) == 0 ==> Flagged(v) == AllFileBlocks(l)
    ensures v.usedBlocks == |Flagged(v)| == Needed(State(calls).texts) + EmptyMakes(calls)
  {
    UsedOverRun(calls);
    Conservation(v, l);
    if EmptyMakes(calls) == 0 {
      assert Orphans(l) == {};
    }
  }

  method Perform(fs: FileSystem, c: Call, ghost m: Model) returns (reply: Reply, fs': FileSystem)
    requires fs.Valid() && Matches(fs.Vol(), fs.layout, m) && Permitted(m, c)
    modifies fs
    ensures fs'.Valid() && Matches(fs'.Vol(), fs'.layout, After(m, c))
    ensures fs' == fs || fresh(fs')
    ensures reply == Answer(m, c)
  {
    fs' := fs;
    ghost var v, l := fs.Vol(), fs.layout;
    match c {
      case Make(name, text) =>
        RoomTaken(v, l, m, text);
        var code := fs.AdFile(name, text);
        reply := Code(code);
        if code == 0 {
          MadeMatches(v, l, fs.Vol(), fs.layout, m, name, text);
        }
      case Read(name) =>
        var text := fs.RdFile(name);
        reply := Content(text);
      case Delete(name) =>
        var code := fs.RmFile(name);
        reply := Code(code);
        if code == 0 {
          DeletedMatches(v, l, fs.Vol(), fs.layout, m, name);
        }
      case Restart =>
        fs.SaveBs();
        fs' := new FileSystem(fs.disk, fs.Vol(), fs.layout);
        reply := Restarted;
    }
  }

  /** From a fresh disk, every permitted sequence of calls gets exactly the answers of a finite
      map, across any number of restarts, and leaves a sound file system with the map's texts. */
  method Session(calls: seq<Call>) returns (replies: seq<Reply>, fs: FileSystem)
    requires AllPermitted(calls)
    ensures replies == Replies(calls)
    ensures fresh(fs) && fs.Valid() && Matches(fs.Vol(), fs.layout, State(calls))
  {
    ghost var v := Volume(Zeros(BLOCK_SIZE), 1, 1, 0, 0, 0, []);
    fs := new FileSystem(Zeros(BLOCK_SIZE), v, EmptyLayout());
    replies := [];
    for i := 0 to |calls|
      invariant fresh(fs) && fs.Valid() && Matches(fs.Vol(), fs.layout, State(calls[..i]))
      invariant replies == Replies(calls[..i])
    {
      ghost var done := calls[..i + 1];
      assert done[..|done| - 1] == calls[..i] && done[|done| - 1] == calls[i];
      var reply;
      reply, fs := Perform(fs, calls[i], State(calls[..i]));
      replies := replies + [reply];
    }
    assert calls[..|calls|] == calls;
  }

  /** The same with the counters, which the calls alone determine. */
  method Run(calls: seq<Call>) returns (replies: seq<Reply>, totalBlocks: int, freeBlocks: int, usedBlocks: int)
    requires AllPermitted(calls)
    ensures replies == Replies(calls)
    ensures Room(totalBlocks, freeBlocks) == State(calls).room
    ensures usedBlocks == Needed(State(calls).texts) + EmptyMakes(calls)
  {
    var fs;
    replies, fs := Session(calls);
    OrphansOverRun(calls, fs.Vol(), fs.layout);
    totalBlocks, freeBlocks, usedBlocks := fs.totalBlocks, fs.freeBlocks, fs.usedBlocks;
  }
}

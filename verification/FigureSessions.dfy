/** Whole sessions of the figure server's store: after any sequence of additions, the catalogue
    of first additions determines the answer to every query and the size of the disk. */
module FigureSessions {
  import opened Options
  import opened Blocks
  import opened Figures
  import opened FigureDisks
  import opened FigureNames

  datatype Addition = Addition(name: seq<byte>, content: seq<byte>)

  datatype Entry = Entry(key: Key, content: seq<byte>)

  function Position(entries: seq<Entry>, key: Key): (p: int)
    ensures -1 <= p < |entries|
    ensures p == -1 ==> forall k :: 0 <= k < |entries| ==> entries[k].key != key
    ensures p != -1 ==> entries[p].key == key && forall k :: 0 <= k < p ==> entries[k].key != key
  {
    if entries == [] then -1
    else if entries[0].key == key then 0
    else
      var p := Position(entries[1..], key);
      assert forall k :: 1 <= k < |entries| ==> entries[k] == entries[1..][k - 1];
      if p == -1 then -1 else p + 1
  }

  /** The catalogue a log of additions leaves: each name but the empty one once, with its first
      content. */
  function Catalogue(log: seq<Addition>): seq<Entry> {
    if log == [] then []
    else Grown(Catalogue(log[..|log| - 1]), log[|log| - 1])
  }

  /** The catalogue after one more addition. */
  function Grown(entries: seq<Entry>, a: Addition): seq<Entry> {
    if KeyOf(a.name) == [] || Position(entries, KeyOf(a.name)) != -1 then entries
    else entries + [Entry(KeyOf(a.name), a.content)]
  }

  function DirCount(initial: nat, names: nat): nat {
    if names <= 7 * initial then initial else (names + 6) / 7
  }

  function DataTotal(entries: seq<Entry>): nat {
    if entries == [] then 0
    else DataTotal(entries[..|entries| - 1]) + (|entries[|entries| - 1].content| + 255) / 256
  }

  /** The number of blocks on the disk: the directory chain and the runs, nothing else. */
  function Extent(initial: nat, entries: seq<Entry>): nat {
    DirCount(initial, |entries|) + DataTotal(entries)
  }

  predicate Permitted(initial: nat, log: seq<Addition>) {
    && 1 <= initial <= MAX_BLOCKS
    && forall i :: 0 <= i < |log| ==> Addable(initial, log[..i], log[i])
  }

  /** No empty name once every slot is taken, no empty content under a new name, and block numbers
      that stay small. */
  predicate Addable(initial: nat, log: seq<Addition>, a: Addition) {
    && (KeyOf(a.name) == [] ==> !Full(|Catalogue(log)|, DirCount(initial, |Catalogue(log)|)))
    && (KeyOf(a.name) != [] && Position(Catalogue(log), KeyOf(a.name)) == -1 ==> a.content != [])
    && Extent(initial, Catalogue(log + [a])) <= MAX_BLOCKS
  }

  /** The first block of the p-th content: it was stored when the disk had this many blocks. */
  function Start(initial: nat, entries: seq<Entry>, p: int): int
    requires 0 <= p <= |entries|
  {
    Extent(initial, entries[..p])
  }

  /** The p-th name needed a new directory block, which then follows its content. */
  predicate NeedsBlock(initial: nat, p: int) {
    7 * initial <= p && p % 7 == 0
  }

  ghost predicate Matches(s: Store, initial: nat, entries: seq<Entry>) {
    && s.initial == initial && |s.names| == |s.runs| == |entries|
    && (forall k :: 0 <= k < |entries| ==> MatchesAt(s, initial, entries, k))
    && (forall i :: initial <= i < |s.dirs| ==> DirPlaced(s, initial, entries, i))
    && s.nextFreeBlock == Extent(initial, entries)
  }

  ghost predicate MatchesAt(s: Store, initial: nat, entries: seq<Entry>, k: int)
    requires 0 <= k < |entries| == |s.names| == |s.runs|
  {
    s.names[k] == entries[k].key && s.runs[k] == Run(Start(initial, entries, k), entries[k].content)
  }

  ghost predicate DirPlaced(s: Store, initial: nat, entries: seq<Entry>, i: int)
    requires 0 <= i < |s.dirs|
  {
    && i * DIR_ENTRIES < |entries|
    && s.dirs[i] == Start(initial, entries, i * DIR_ENTRIES) + DataBlocks(|entries[i * DIR_ENTRIES].content|)
  }

  lemma DirCountMeans(s: Store, initial: nat, entries: seq<Entry>)
    requires Sound(s) && Matches(s, initial, entries)
    ensures |s.dirs| == DirCount(initial, |entries|)
    ensures DirCount(initial, |entries| + 1) == |s.dirs| + if Full(|s.names|, |s.dirs|) then 1 else 0
  {
  }

  lemma LookupAgrees(s: Store, initial: nat, entries: seq<Entry>, key: Key)
    requires Matches(s, initial, entries)
    ensures key in s.names <==> Position(entries, key) != -1
  {
    var p := Position(entries, key);
    if p != -1 {
      assert MatchesAt(s, initial, entries, p);
    }
    forall k | 0 <= k < |s.names| ensures s.names[k] == entries[k].key {
      assert MatchesAt(s, initial, entries, k);
    }
  }

  lemma OneMoreAddition(s: Store, initial: nat, log: seq<Addition>, a: Addition)
    requires Sound(s) && Matches(s, initial, Catalogue(log))
    ensures KeyOf(a.name) == [] || KeyOf(a.name) in s.names ==> Catalogue(log + [a]) == Catalogue(log)
    ensures KeyOf(a.name) != [] && KeyOf(a.name) !in s.names ==>
              && Catalogue(log + [a]) == Catalogue(log) + [Entry(KeyOf(a.name), a.content)]
              && Extent(initial, Catalogue(log + [a])) ==
                 s.nextFreeBlock + DataBlocks(|a.content|) + (if Full(|s.names|, |s.dirs|) then 1 else 0)
  {
    var entries := Catalogue(log);
    assert (log + [a])[..|log + [a]| - 1] == log;
    LookupAgrees(s, initial, entries, KeyOf(a.name));
    DirCountMeans(s, initial, entries);
    var longer := entries + [Entry(KeyOf(a.name), a.content)];
    assert longer[..|longer| - 1] == entries;
  }

  lemma MatchesLonger(s: Store, t: Store, initial: nat, entries: seq<Entry>, e: Entry)
    requires Sound(s) && Matches(s, initial, entries)
    requires t.initial == initial && t.names == s.names + [e.key] && t.runs == s.runs + [Run(s.nextFreeBlock, e.content)]
    requires t.dirs == s.dirs + if Full(|s.names|, |s.dirs|) then [s.nextFreeBlock + DataBlocks(|e.content|)] else []
    requires t.nextFreeBlock == s.nextFreeBlock + DataBlocks(|e.content|) + (|t.dirs| - |s.dirs|)
    ensures Matches(t, initial, entries + [e])
  {
    var longer := entries + [e];
    assert longer[..|longer| - 1] == entries;
    DirCountMeans(s, initial, entries);
    forall k | 0 <= k < |longer| ensures MatchesAt(t, initial, longer, k) {
      assert longer[..k] == if k < |entries| then entries[..k] else entries;
      if k < |entries| {
        assert MatchesAt(s, initial, entries, k);
      } else {
        assert entries[..k] == entries;
      }
    }
    forall i | initial <= i < |t.dirs| ensures DirPlaced(t, initial, longer, i) {
      if i < |s.dirs| {
        assert DirPlaced(s, initial, entries, i);
        assert longer[..i * DIR_ENTRIES] == entries[..i * DIR_ENTRIES];
      } else {
        assert longer[..i * DIR_ENTRIES] == entries;
      }
    }
  }

  method Add(fs: FigureDisk, a: Addition, ghost initial: nat, ghost log: seq<Addition>)
    requires fs.Valid() && Matches(fs.St(), initial, Catalogue(log))
    requires Addable(initial, log, a)
    modifies fs
    ensures fs.Valid() && Matches(fs.St(), initial, Catalogue(log + [a]))
  {
    ghost var s := fs.St();
    OneMoreAddition(s, initial, log, a);
    DirCountMeans(s, initial, Catalogue(log));
    LookupAgrees(s, initial, Catalogue(log), KeyOf(a.name));
    fs.AddFigure(a.name, a.content);
    if KeyOf(a.name) != [] && KeyOf(a.name) !in s.names {
      MatchesLonger(s, fs.St(), initial, Catalogue(log), Entry(KeyOf(a.name), a.content));
    }
  }

  /** What reading the p-th content gives: the content up to its first NUL, if it has one or does
      not fill its last block. Otherwise the reader goes on into what follows it: a directory
      block, which starts with the printed entry of this very name, or the next content; behind
      the last block it never ends. */
  function Reads(initial: nat, entries: seq<Entry>, p: int): Option<seq<byte>>
    requires 0 <= p < |entries|
    decreases |entries| - p
  {
    var content := entries[p].content;
    if Terminated(content) then Some(CString(content))
    else if NeedsBlock(initial, p) then Some(content + Printed(entries[p].key, Start(initial, entries, p)))
    else if p + 1 < |entries| then Follow(content, Reads(initial, entries, p + 1))
    else None
  }

  /** What getFigureContent answers, for every name. */
  function Answer(initial: nat, entries: seq<Entry>, name: seq<byte>): Option<seq<byte>> {
    var p := Position(entries, KeyOf(name));
    if KeyOf(name) == [] && |entries| < 7 * DirCount(initial, |entries|) then
      Some(if entries == [] then [] else Printed(entries[0].key, Start(initial, entries, 0)))
    else if KeyOf(name) == [] || p == -1 then Some("Figure not found.\n")
    else Reads(initial, entries, p)
  }

  function AnswerAll(initial: nat, entries: seq<Entry>, names: seq<seq<byte>>): (answers: seq<Option<seq<byte>>>)
    ensures |answers| == |names|
  {
    if names == [] then []
    else AnswerAll(initial, entries, names[..|names| - 1]) + [Answer(initial, entries, names[|names| - 1])]
  }

  lemma {:induction false} AnswerAllAt(initial: nat, entries: seq<Entry>, names: seq<seq<byte>>, i: nat)
    requires i < |names|
    ensures AnswerAll(initial, entries, names)[i] == Answer(initial, entries, names[i])
  {
    if i < |names| - 1 {
      AnswerAllAt(initial, entries, names[..|names| - 1], i);
    }
  }

  /** A directory block reads as its first entry prints. */
  lemma DirectoryReads(s: Store, i: int)
    requires Sound(s) && 0 <= i < |s.dirs|
    ensures ReadRun(s.disk, s.dirs[i]) ==
            Some(if i * DIR_ENTRIES < |s.names|
                 then Printed(s.names[i * DIR_ENTRIES], s.runs[i * DIR_ENTRIES].start) else [])
  {
    assert DirBlock(s, i);
    var dir := Block(s.disk, s.dirs[i]);
    assert dir[0..] == dir;
    EntryListed(s, dir, i, 0);
  }

  lemma WhatFollows(s: Store, initial: nat, entries: seq<Entry>, p: int)
    requires Sound(s) && Matches(s, initial, entries) && 0 <= p < |entries|
    ensures NeedsBlock(initial, p) ==>
              exists i :: 0 <= i < |s.dirs| && i * DIR_ENTRIES == p && s.dirs[i] == Behind(s.runs[p])
    ensures !NeedsBlock(initial, p) && p + 1 < |entries| ==> s.runs[p + 1].start == Behind(s.runs[p])
    ensures !NeedsBlock(initial, p) && p + 1 == |entries| ==> s.nextFreeBlock == Behind(s.runs[p])
  {
    assert MatchesAt(s, initial, entries, p);
    DirCountMeans(s, initial, entries);
    if NeedsBlock(initial, p) {
      var i := p / DIR_ENTRIES;
      assert DirPlaced(s, initial, entries, i);
    } else {
      assert entries[..p + 1][..p] == entries[..p];
      if p + 1 < |entries| {
        assert MatchesAt(s, initial, entries, p + 1);
      } else {
        assert entries[..p + 1] == entries;
      }
    }
  }

  lemma {:induction false} ReadsMeans(s: Store, initial: nat, entries: seq<Entry>, p: int)
    requires Sound(s) && Matches(s, initial, entries) && 0 <= p < |entries|
    ensures ReadRun(s.disk, s.runs[p].start) == Reads(initial, entries, p)
    decreases |entries| - p
  {
    assert MatchesAt(s, initial, entries, p);
    if Terminated(entries[p].content) {
      TerminatedReadsBack(s, p);
    } else {
      UnterminatedReadsOn(s, p);
      WhatFollows(s, initial, entries, p);
      if NeedsBlock(initial, p) {
        var i :| 0 <= i < |s.dirs| && i * DIR_ENTRIES == p && s.dirs[i] == Behind(s.runs[p]);
        DirectoryReads(s, i);
      } else if p + 1 < |entries| {
        ReadsMeans(s, initial, entries, p + 1);
      }
    }
  }

  lemma AnswerMeans(s: Store, initial: nat, entries: seq<Entry>, name: seq<byte>)
    requires Sound(s) && Matches(s, initial, entries)
    ensures KeyOf(name) == [] ==>
              Answer(initial, entries, name) == if Full(|s.names|, |s.dirs|) then Some(NOT_FOUND) else ReadRun(s.disk, 0)
    ensures KeyOf(name) != [] && KeyOf(name) !in s.names ==> Answer(initial, entries, name) == Some(NOT_FOUND)
    ensures KeyOf(name) in s.names ==>
              exists k :: 0 <= k < |s.names| && s.names[k] == KeyOf(name)
                && Answer(initial, entries, name) == ReadRun(s.disk, s.runs[k].start)
  {
    var p := Position(entries, KeyOf(name));
    LookupAgrees(s, initial, entries, KeyOf(name));
    DirCountMeans(s, initial, entries);
    if KeyOf(name) == [] {
      NamesAreNotEmpty(s, name);
      DirectoryReads(s, 0);
      if entries != [] {
        assert MatchesAt(s, initial, entries, 0);
      }
    } else if p != -1 {
      assert MatchesAt(s, initial, entries, p);
      ReadsMeans(s, initial, entries, p);
    }
  }

  lemma NamesAreNotEmpty(s: Store, name: seq<byte>)
    requires Sound(s) && KeyOf(name) == []
    ensures KeyOf(name) !in s.names
  {
  }

  method Query(fs: FigureDisk, name: seq<byte>, ghost initial: nat, ghost entries: seq<Entry>) returns (r: Option<seq<byte>>)
    requires fs.Valid() && Matches(fs.St(), initial, entries)
    ensures r == Answer(initial, entries, name)
  {
    r := fs.GetFigureContent(name);
    AnswerMeans(fs.St(), initial, entries, name);
  }

  lemma PermittedAt(initial: nat, log: seq<Addition>, i: nat)
    requires Permitted(initial, log) && i < |log|
    ensures Addable(initial, log[..i], log[i])
  {
  }

  lemma OneLonger(log: seq<Addition>, i: nat)
    requires i < |log|
    ensures log[..i + 1] == log[..i] + [log[i]]
  {
  }

  method Build(initial: nat, log: seq<Addition>) returns (fs: FigureDisk)
    requires Permitted(initial, log)
    ensures fresh(fs) && fs.Valid() && Matches(fs.St(), initial, Catalogue(log))
  {
    fs := new FigureDisk.InitDisk(initial);
    for i := 0 to |log|
      invariant fresh(fs) && fs.Valid() && Matches(fs.St(), initial, Catalogue(log[..i]))
    {
      PermittedAt(initial, log, i);
      OneLonger(log, i);
      Add(fs, log[i], initial, log[..i]);
    }
    assert log[..|log|] == log;
  }

  /** From initDisk, any permitted sequence of additions followed by any queries: every query, for
      whatever name, gets the answer the catalogue determines, and the disk ends with exactly the
      directory blocks and data blocks that the catalogue needs. */
  method Serve(initial: nat, log: seq<Addition>, queries: seq<seq<byte>>)
      returns (answers: seq<Option<seq<byte>>>, blocks: int)
    requires Permitted(initial, log)
    ensures |answers| == |queries|
    ensures forall i :: 0 <= i < |queries| ==> answers[i] == Answer(initial, Catalogue(log), queries[i])
    ensures forall i, j :: 0 <= i < |queries| && FirstAdded(log, j, queries[i]) && !Nameless(queries[i]) ==>
              (|log[j].content| % 256 != 0 || NUL in log[j].content ==> answers[i] == Some(CString(log[j].content)))
    ensures forall i :: 0 <= i < |queries| && NeverAdded(log, queries[i]) && !Nameless(queries[i]) ==>
              answers[i] == Some("Figure not found.\n")
    ensures blocks == Extent(initial, Catalogue(log))
  {
    var fs := Build(initial, log);
    blocks := fs.nextFreeBlock;
    answers := QueryAll(fs, queries, initial, Catalogue(log));
    forall i | 0 <= i < |queries| ensures answers[i] == Answer(initial, Catalogue(log), queries[i]) {
      AnswerAllAt(initial, Catalogue(log), queries, i);
    }
    forall i, j | 0 <= i < |queries| && FirstAdded(log, j, queries[i]) && !Nameless(queries[i])
      ensures |log[j].content| % 256 != 0 || NUL in log[j].content ==> answers[i] == Some(CString(log[j].content))
    {
      if |log[j].content| % 256 != 0 || NUL in log[j].content {
        FirstAdditionAnswers(initial, log, j, queries[i]);
      }
    }
    forall i | 0 <= i < |queries| && NeverAdded(log, queries[i]) && !Nameless(queries[i])
      ensures answers[i] == Some("Figure not found.\n")
    {
      NeverAddedAnswers(initial, log, queries[i]);
    }
  }

  method QueryAll(fs: FigureDisk, queries: seq<seq<byte>>, ghost initial: nat, ghost entries: seq<Entry>)
      returns (answers: seq<Option<seq<byte>>>)
    requires fs.Valid() && Matches(fs.St(), initial, entries)
    ensures answers == AnswerAll(initial, entries, queries)
  {
    answers := [];
    for i := 0 to |queries|
      invariant answers == AnswerAll(initial, entries, queries[..i])
    {
      assert queries[..i + 1][..i] == queries[..i];
      var r := Query(fs, queries[i], initial, entries);
      answers := answers + [r];
    }
    assert queries[..|queries|] == queries;
  }

  predicate Nameless(name: seq<byte>) {
    name == [] || name[0] == NUL
  }

  /** The j-th addition is the first under this name, as strncmp compares names. */
  predicate FirstAdded(log: seq<Addition>, j: int, name: seq<byte>) {
    && 0 <= j < |log| && SameUpTo(log[j].name, name, 32)
    && forall i :: 0 <= i < j ==> !SameUpTo(log[i].name, name, 32)
  }

  predicate NeverAdded(log: seq<Addition>, name: seq<byte>) {
    forall j :: 0 <= j < |log| ==> !SameUpTo(log[j].name, name, 32)
  }

  /** A name answers with the content it was first added with. */
  lemma FirstAdditionAnswers(initial: nat, log: seq<Addition>, j: int, name: seq<byte>)
    requires FirstAdded(log, j, name) && !Nameless(name)
    requires |log[j].content| % 256 != 0 || NUL in log[j].content
    ensures Answer(initial, Catalogue(log), name) == Some(CString(log[j].content))
  {
    EmptyKey(name);
    SameKeyExactlyWhen(log[j].name, name);
    forall i | 0 <= i < j ensures KeyOf(log[i].name) != KeyOf(log[j].name) {
      SameKeyExactlyWhen(log[i].name, name);
    }
    CatalogueIsFirstAdditions(log, j);
  }

  /** A name nothing was added under answers with the not-found text. */
  lemma NeverAddedAnswers(initial: nat, log: seq<Addition>, name: seq<byte>)
    requires NeverAdded(log, name) && !Nameless(name)
    ensures Answer(initial, Catalogue(log), name) == Some("Figure not found.\n")
  {
    EmptyKey(name);
    forall j | 0 <= j < |log| ensures KeyOf(log[j].name) != KeyOf(name) {
      SameKeyExactlyWhen(log[j].name, name);
    }
    NotAddedNotListed(log, KeyOf(name));
  }

  /** Where all names have 1 to 32 characters, being the same name is being equal. */
  lemma FittingNames(log: seq<Addition>, j: int, name: seq<byte>)
    requires Fits(name) && forall i :: 0 <= i < |log| ==> Fits(log[i].name)
    ensures FirstAdded(log, j, name) <==>
            0 <= j < |log| && log[j].name == name && forall i :: 0 <= i < j ==> log[i].name != name
    ensures NeverAdded(log, name) <==> forall i :: 0 <= i < |log| ==> log[i].name != name
    ensures !Nameless(name)
  {
    forall i | 0 <= i < |log| ensures SameUpTo(log[i].name, name, 32) <==> log[i].name == name {
      SameFitting(log[i].name, name);
    }
  }

  /** Every name that was added is listed with the content of its first addition. */
  lemma {:induction false} CatalogueIsFirstAdditions(log: seq<Addition>, i: nat)
    requires i < |log| && KeyOf(log[i].name) != []
    requires forall j :: 0 <= j < i ==> KeyOf(log[j].name) != KeyOf(log[i].name)
    ensures Lists(Catalogue(log), KeyOf(log[i].name), log[i].content)
  {
    var init, last, key := log[..|log| - 1], log[|log| - 1], KeyOf(log[i].name);
    CatalogueGrows(Catalogue(init), last, key);
    if i < |log| - 1 {
      CatalogueIsFirstAdditions(init, i);
    } else {
      NotAddedNotListed(init, key);
    }
  }

  lemma {:induction false} NotAddedNotListed(log: seq<Addition>, key: Key)
    requires forall j :: 0 <= j < |log| ==> KeyOf(log[j].name) != key
    ensures Position(Catalogue(log), key) == -1
  {
    if log != [] {
      var init, last := log[..|log| - 1], log[|log| - 1];
      NotAddedNotListed(init, key);
      CatalogueGrows(Catalogue(init), last, key);
    }
  }

  predicate Lists(entries: seq<Entry>, key: Key, content: seq<byte>) {
    Position(entries, key) != -1 && entries[Position(entries, key)].content == content
  }

  lemma CatalogueGrows(entries: seq<Entry>, a: Addition, key: Key)
    ensures Position(entries, key) == -1 && KeyOf(a.name) != key ==> Position(Grown(entries, a), key) == -1
    ensures Position(entries, key) == -1 && KeyOf(a.name) == key != [] ==> Lists(Grown(entries, a), key, a.content)
    ensures forall c :: Lists(entries, key, c) ==> Lists(Grown(entries, a), key, c)
  {
    PositionInLonger(entries, Entry(KeyOf(a.name), a.content), key);
  }

  lemma PositionInLonger(entries: seq<Entry>, e: Entry, key: Key)
    ensures Position(entries, key) != -1 ==> Position(entries + [e], key) == Position(entries, key)
    ensures Position(entries, key) == -1 ==> Position(entries + [e], key) == if e.key == key then |entries| else -1
  {
    var p, q := Position(entries, key), Position(entries + [e], key);
    assert forall k :: 0 <= k < |entries| ==> (entries + [e])[k] == entries[k];
    assert (entries + [e])[|entries|] == e;
  }
}

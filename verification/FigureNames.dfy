/** What the figure store does with names, said without its keys: strncmp decides which names are
    the same, strncpy what an entry holds, and byte positions where it holds it. */
module FigureNames {
  import opened Blocks
  import opened Figures

  /** strncmp(a, b, n) == 0 on NUL-terminated strings. */
  predicate SameUpTo(a: seq<byte>, b: seq<byte>, n: nat) {
    if n == 0 then true
    else
      var x, y := First(a), First(b);
      x == y && (x == NUL || SameUpTo(a[1..], b[1..], n - 1))
  }

  /** The first character of a C string: its terminator if it is empty. */
  function First(s: seq<byte>): (c: byte)
    ensures c != NUL ==> s != []
  {
    if s == [] then NUL else s[0]
  }

  /** The first n characters of a C string. */
  function Leading(s: seq<byte>, n: nat): seq<byte> {
    if |CString(s)| <= n then CString(s) else CString(s)[..n]
  }

  lemma LeadingStep(s: seq<byte>, n: nat)
    requires n > 0
    ensures Leading(s, n) == if First(s) == NUL then [] else [s[0]] + Leading(s[1..], n - 1)
  {
    if First(s) != NUL {
      var c, rest := CString(s), CString(s[1..]);
      assert c == [s[0]] + rest;
      if |c| > n {
        assert c[..n] == [s[0]] + rest[..n - 1];
      }
    }
  }

  lemma {:induction false} SameLeading(a: seq<byte>, b: seq<byte>, n: nat)
    ensures Leading(a, n) == Leading(b, n) <==> SameUpTo(a, b, n)
    decreases n
  {
    if n > 0 {
      LeadingStep(a, n);
      LeadingStep(b, n);
      if First(a) == First(b) != NUL {
        SameLeading(a[1..], b[1..], n - 1);
        var x, y := Leading(a[1..], n - 1), Leading(b[1..], n - 1);
        assert ([a[0]] + x)[1..] == x && ([b[0]] + y)[1..] == y;
      } else if First(a) != NUL && First(b) != NUL {
        assert Leading(a, n)[0] != Leading(b, n)[0];
      }
    }
  }

  /** Two names have the same key exactly when strncmp finds them equal up to 32 characters. */
  lemma SameKeyExactlyWhen(a: seq<byte>, b: seq<byte>)
    ensures KeyOf(a) == KeyOf(b) <==> SameUpTo(a, b, 32)
  {
    assert KeyOf(a) == Leading(a, 32) && KeyOf(b) == Leading(b, 32);
    SameLeading(a, b, 32);
  }

  /** A directory entry matches a name exactly when strncmp says so. */
  lemma EntryMatchesExactlyWhen(dir: seq<byte>, e: int, name: seq<byte>)
    requires |dir| == 256 && 0 <= e < 7
    ensures SameName(dir, e, name) <==> SameUpTo(dir[36 * e..36 * e + 32], name, 32)
  {
    var field := FieldOf(dir, e);
    assert field == dir[36 * e..36 * e + 32] && KeyOf(field) == CString(field);
    SameKeyExactlyWhen(field, name);
  }

  /** A name that fits an entry. */
  predicate Fits(name: seq<byte>) {
    IsCString(name) && 1 <= |name| <= 32
  }

  lemma KeyOfFitting(name: seq<byte>)
    requires IsCString(name) && |name| <= 32
    ensures KeyOf(name) == name
  {
    CStringUnique(name, name);
  }

  /** For names that fit, strncmp is equality. */
  lemma SameFitting(a: seq<byte>, b: seq<byte>)
    requires Fits(a) && Fits(b)
    ensures SameUpTo(a, b, 32) <==> a == b
  {
    KeyOfFitting(a);
    KeyOfFitting(b);
    SameKeyExactlyWhen(a, b);
  }

  /** The key is empty exactly for a name without characters. */
  lemma EmptyKey(name: seq<byte>)
    ensures KeyOf(name) == [] <==> name == [] || name[0] == NUL
  {
    LeadingStep(name, 32);
  }

  /** An entry holds what strncpy leaves: the characters of the name, then zeros. */
  lemma EntryHolds(name: seq<byte>, i: nat)
    requires i < 32
    ensures NameField(KeyOf(name))[i] == if i < |CString(name)| then name[i] else NUL
  {
  }

  /** The bytes of a directory block at block b: slot e is one of seven entries of 36 bytes, each a
      name field of 32 bytes and a block number, and then comes the number of the next block. */
  ghost predicate EntryAt(d: seq<byte>, b: int, names: seq<Key>, runs: seq<Run>, k: int, e: int, next: int)
    requires |names| <= |runs| && 0 <= k && 0 <= e < 7
  {
    && 0 <= 256 * b && 256 * b + 256 <= |d|
    && (if k < |names| then
          && d[256 * b + 36 * e..256 * b + 36 * e + 32] == NameField(names[k])
          && DecodeInt(d[256 * b + 36 * e + 32..256 * b + 36 * e + 36]) == runs[k].start
        else d[256 * b + 36 * e] == NUL)
    && DecodeInt(d[256 * b + 252..256 * b + 256]) == next
  }

  /** Rank 7 * i + e of the names is in slot e of the i-th directory block. */
  lemma DirectoryBytes(s: Store, i: int, e: int)
    requires Sound(s) && 0 <= i < |s.dirs| && 0 <= e < 7
    ensures EntryAt(s.disk, s.dirs[i], s.names, s.runs, 7 * i + e, e, if i + 1 < |s.dirs| then s.dirs[i + 1] else 0)
  {
    DirectoryBlock(s, i, e);
    SlotBytes(s.disk, s.dirs[i], s.names, s.runs, i, e);
  }

  lemma DirectoryBlock(s: Store, i: int, e: int)
    requires Sound(s) && 0 <= i < |s.dirs| && 0 <= e < DIR_ENTRIES
    ensures |s.names| <= |s.runs| && InDisk(s.disk, s.dirs[i])
    ensures Slot(Block(s.disk, s.dirs[i]), s.names, s.runs, i, e)
    ensures NextOfDir(Block(s.disk, s.dirs[i])) == if i + 1 < |s.dirs| then s.dirs[i + 1] else 0
  {
    assert DirBlock(s, i);
  }

  lemma SlotBytes(d: seq<byte>, b: int, names: seq<Key>, runs: seq<Run>, i: int, e: int)
    requires InDisk(d, b) && 0 <= i && 0 <= e < 7 && |names| <= |runs| && Slot(Block(d, b), names, runs, i, e)
    ensures EntryAt(d, b, names, runs, 7 * i + e, e, NextOfDir(Block(d, b)))
  {
    EntryBytes(d, b, e);
  }

  /** Where the fields of a directory block are on the disk. */
  lemma EntryBytes(d: seq<byte>, b: int, e: int)
    requires InDisk(d, b) && 0 <= e < 7
    ensures 0 <= 256 * b && 256 * b + 256 <= |d|
    ensures FieldOf(Block(d, b), e) == d[256 * b + 36 * e..256 * b + 36 * e + 32]
    ensures FieldOf(Block(d, b), e)[0] == d[256 * b + 36 * e]
    ensures DataBlockOf(Block(d, b), e) == DecodeInt(d[256 * b + 36 * e + 32..256 * b + 36 * e + 36])
    ensures NextOfDir(Block(d, b)) == DecodeInt(d[256 * b + 252..256 * b + 256])
  {
    var dir := Block(d, b);
    ReadInBlock(d, b, 36 * e, 32);
    ReadInBlock(d, b, 36 * e + 32, 4);
    ReadInBlock(d, b, 252, 4);
    assert FieldOf(dir, e) == dir[36 * e..36 * e + 32] && NumberOf(dir, e) == dir[36 * e + 32..36 * e + 36];
    assert dir[252..] == dir[252..256];
  }

  /** The bytes of a content: 256 in every block of its run, the last one filled up with zeros. */
  lemma ContentBytes(s: Store, k: int, n: nat)
    requires Sound(s) && 0 <= k < |s.runs| && n < (|s.runs[k].content| + 255) / 256 * 256
    ensures 0 <= 256 * s.runs[k].start && 256 * s.runs[k].start + n < |s.disk|
    ensures s.disk[256 * s.runs[k].start + n] == if n < |s.runs[k].content| then s.runs[k].content[n] else NUL
  {
    var r, j := s.runs[k], n / 256;
    RunLaidOut(s, k);
    assert DataAt(s.disk, r, j);
    assert Block(s.disk, r.start + j)[n - 256 * j] == s.disk[256 * r.start + n];
  }

  /** An entry prints the C string that starts at its first byte, whatever field that string ends in. */
  lemma PrintedFrom(dir: seq<byte>, e: int)
    requires |dir| == 256 && 0 <= e < 7
    ensures EntryText(dir, e) == CString(dir[36 * e..])
  {
  }

  /** A name of 32 characters prints with the low byte of its block number behind it. */
  lemma FullNamePrintsOn(key: Key, start: int)
    requires 0 < start < 256
    ensures Printed(key, start) == if |key| < 32 then key else key + [start as char]
  {
    assert EncodeInt(start) == [start as char, NUL, NUL, NUL];
    CStringUnique(EncodeInt(start), [start as char]);
  }
}

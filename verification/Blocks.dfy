/** Raw storage shared by both file systems: a flat sequence of bytes seen as 256-byte
    blocks, positioned reads and writes, C strings, and 32-bit integers as the programs
    lay them out in memory (little endian, two's complement). */
module Blocks {

  // One C `char`. Nothing depends on an upper bound; EncodeInt only produces values below 256.
  type byte = char

  const NUL: byte := '\0'
  const BLOCK_SIZE := 256
  const INT_MAX := 0x7FFF_FFFF
  // A block's byte offset is computed in a C int, so block numbers stay below this.
  const MAX_BLOCKS := 0x80_0000

  function Zeros(n: nat): (z: seq<byte>)
    ensures |z| == n
    ensures forall i :: 0 <= i < n ==> z[i] == NUL
  {
    seq(n, _ => NUL)
  }

  // ---- C strings ----

  predicate IsCString(s: seq<byte>) {
    forall i :: 0 <= i < |s| ==> s[i] != NUL
  }

  /** What a `char*` reader sees in a buffer: everything before the first NUL. */
  function CString(s: seq<byte>): (r: seq<byte>)
    ensures IsCString(r)
    ensures |r| <= |s| && r == s[..|r|]
    ensures |r| < |s| ==> s[|r|] == NUL
  {
    if s == [] || s[0] == NUL then [] else
      var t := CString(s[1..]);
      assert s[..|t| + 1] == [s[0]] + s[1..][..|t|];
      [s[0]] + t
  }

  lemma CStringUnique(s: seq<byte>, r: seq<byte>)
    requires IsCString(r) && |r| <= |s| && r == s[..|r|]
    requires |r| < |s| ==> s[|r|] == NUL
    ensures CString(s) == r
  {
    var c := CString(s);
    assert forall i :: 0 <= i < |r| ==> s[i] == r[i];
    assert forall i :: 0 <= i < |c| ==> s[i] == c[i];
  }

  lemma CStringStops(s: seq<byte>, i: nat)
    requires i < |s| && s[i] == NUL
    ensures |CString(s)| <= i
  {
    assert CString(s) == s[..|CString(s)|];
  }

  // ---- 32-bit integers ----

  predicate IsInt(x: int) {
    -INT_MAX - 1 <= x <= INT_MAX
  }

  function Digit(x: int): (c: byte)
    ensures c as int == x % 256
  {
    (x % 256) as char
  }

  /** The four bytes of x modulo 2^32. */
  function EncodeInt(x: int): (s: seq<byte>)
    ensures |s| == 4
    ensures forall i :: 0 <= i < 4 ==> s[i] as int < 256
  {
    var u := x % 0x1_0000_0000;
    [Digit(u), Digit(u / 256), Digit(u / 65536), Digit(u / 0x100_0000)]
  }

  function DecodeInt(s: seq<byte>): int
    requires |s| == 4
  {
    var u := s[0] as int + 256 * s[1] as int + 65536 * s[2] as int + 0x100_0000 * s[3] as int;
    if u > INT_MAX then u - 0x1_0000_0000 else u
  }

  lemma DecodeEncode(x: int)
    requires IsInt(x)
    ensures DecodeInt(EncodeInt(x)) == x
  {
    var u := x % 0x1_0000_0000;
    assert u == if x < 0 then x + 0x1_0000_0000 else x;
    var a, b, c := u / 256, u / 65536, u / 0x100_0000;
    assert b == a / 256 && c == b / 256 && c < 256;
  }

  // ---- positioned writes, block by block ----

  function Splice(s: seq<byte>, at: nat, data: seq<byte>): (r: seq<byte>)
    requires at + |data| <= |s|
    ensures |r| == |s|
    ensures forall i :: 0 <= i < |s| ==> r[i] == if at <= i < at + |data| then data[i - at] else s[i]
  {
    seq(|s|, i requires 0 <= i < |s| => if at <= i < at + |data| then data[i - at] else s[i])
  }

  /** Block b lies inside the disk image. */
  predicate InDisk(d: seq<byte>, b: int) {
    0 <= b && (b + 1) * BLOCK_SIZE <= |d|
  }

  function Block(d: seq<byte>, b: int): (s: seq<byte>)
    requires 0 <= b && (b + 1) * BLOCK_SIZE <= |d|
    ensures |s| == BLOCK_SIZE
  {
    d[b * BLOCK_SIZE..(b + 1) * BLOCK_SIZE]
  }

  /** Reading at a byte position inside block b. */
  lemma ReadInBlock(d: seq<byte>, b: int, off: nat, n: nat)
    requires 0 <= b && (b + 1) * BLOCK_SIZE <= |d| && off + n <= BLOCK_SIZE
    ensures d[b * BLOCK_SIZE + off..b * BLOCK_SIZE + off + n] == Block(d, b)[off..off + n]
  {
    var s, t := d[b * BLOCK_SIZE + off..b * BLOCK_SIZE + off + n], Block(d, b)[off..off + n];
    forall i | 0 <= i < n
      ensures s[i] == t[i]
    {
      assert t[i] == Block(d, b)[off + i] == d[b * BLOCK_SIZE + (off + i)];
    }
  }

  /** A write inside one block changes that block only. */
  lemma WriteInBlock(d: seq<byte>, b: int, off: nat, data: seq<byte>)
    requires 0 <= b && (b + 1) * BLOCK_SIZE <= |d| && off + |data| <= BLOCK_SIZE
    ensures var d' := Splice(d, b * BLOCK_SIZE + off, data);
            && Block(d', b) == Splice(Block(d, b), off, data)
            && forall c :: 0 <= c && (c + 1) * BLOCK_SIZE <= |d| && c != b ==> Block(d', c) == Block(d, c)
  {
    var d' := Splice(d, b * BLOCK_SIZE + off, data);
    forall i | 0 <= i < BLOCK_SIZE
      ensures Block(d', b)[i] == Splice(Block(d, b), off, data)[i]
    {
      assert Block(d', b)[i] == d'[b * BLOCK_SIZE + i];
    }
    forall c | 0 <= c && (c + 1) * BLOCK_SIZE <= |d| && c != b
      ensures Block(d', c) == Block(d, c)
    {
      forall i | 0 <= i < BLOCK_SIZE
        ensures Block(d', c)[i] == Block(d, c)[i]
      {
        assert Block(d', c)[i] == d'[c * BLOCK_SIZE + i] && Block(d, c)[i] == d[c * BLOCK_SIZE + i];
      }
    }
  }

  lemma ExtendBlocks(d: seq<byte>, n: nat)
    requires |d| % BLOCK_SIZE == 0
    ensures var d' := d + Zeros(n * BLOCK_SIZE);
            && (forall b :: 0 <= b && (b + 1) * BLOCK_SIZE <= |d| ==> Block(d', b) == Block(d, b))
            && (forall b :: |d| <= b * BLOCK_SIZE && (b + 1) * BLOCK_SIZE <= |d'| ==> Block(d', b) == Zeros(BLOCK_SIZE))
  {
    var d' := d + Zeros(n * BLOCK_SIZE);
    forall b | |d| <= b * BLOCK_SIZE && (b + 1) * BLOCK_SIZE <= |d'|
      ensures Block(d', b) == Zeros(BLOCK_SIZE)
    {
      forall i | 0 <= i < BLOCK_SIZE
        ensures Block(d', b)[i] == NUL
      {
        assert Block(d', b)[i] == d'[b * BLOCK_SIZE + i] == Zeros(n * BLOCK_SIZE)[b * BLOCK_SIZE + i - |d|];
      }
    }
  }

  /** Two images that agree block by block are the same bytes. */
  lemma SameBlocksSameBytes(d: seq<byte>, e: seq<byte>)
    requires |d| == |e| && |d| % BLOCK_SIZE == 0
    requires forall b :: 0 <= b && (b + 1) * BLOCK_SIZE <= |d| ==> Block(d, b) == Block(e, b)
    ensures d == e
  {
    forall i | 0 <= i < |d|
      ensures d[i] == e[i]
    {
      var b := i / BLOCK_SIZE;
      assert Block(d, b)[i - b * BLOCK_SIZE] == Block(e, b)[i - b * BLOCK_SIZE];
    }
  }
}

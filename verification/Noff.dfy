/** The COFF to NOFF converter: the section loop that copies the segments and builds the
    header, and what a loader finds in the result. */
module Noff {
  import opened Options
  import opened Blocks

  const NOFF_MAGIC := 0xbad_fad
  const HEADER_SIZE := 40    // the magic number and three segments of three ints

  datatype Section = Section(name: string, paddr: int, size: int, scnptr: int)

  datatype Kind = Text | Data | Bss | Other

  function KindOf(name: string): Kind {
    if name == ".text" then Text
    else if name == ".data" || name == ".rdata" then Data
    else if name == ".bss" || name == ".sbss" then Bss
    else Other
  }

  datatype Segment = Segment(virtualAddr: int, inFileAddr: int, size: int)

  datatype Header = Header(code: Segment, initData: Segment, uninitData: Segment)

  datatype Error = FileTooShort | BothDataAndRdata | BothBssAndSbss | UnknownSegment(name: string)

  datatype Result<+T> = Success(value: T) | Failure(error: Error)

  /** The output so far: the header being filled in, and what was written behind its place. */
  datatype Output = Output(header: Header, body: seq<byte>)

  const EMPTY := Output(Header(Segment(0, 0, 0), Segment(0, 0, 0), Segment(0, 0, 0)), [])

  /** A section table the file format allows: no negative sizes or positions, addresses that are
      ints, and sizes that together stay inside an int. */
  predicate Sizable(sections: seq<Section>) {
    && (forall i :: 0 <= i < |sections| ==>
          0 <= sections[i].size && 0 <= sections[i].scnptr && IsInt(sections[i].paddr))
    && TotalSize(sections) + HEADER_SIZE <= INT_MAX
  }

  function TotalSize(sections: seq<Section>): int {
    if sections == [] then 0 else TotalSize(sections[..|sections| - 1]) + sections[|sections| - 1].size
  }

  // ---- the loop ----

  function Bytes(coff: seq<byte>, s: Section): Result<seq<byte>> {
    if 0 <= s.scnptr && 0 <= s.size && s.scnptr + s.size <= |coff| then Success(coff[s.scnptr..s.scnptr + s.size])
    else Failure(FileTooShort)
  }

  function Placed(out: Output, s: Section): Segment {
    Segment(s.paddr, HEADER_SIZE + |out.body|, s.size)
  }

  /** One turn of the section loop. */
  function Step(coff: seq<byte>, out: Output, s: Section): Result<Output> {
    if s.size == 0 then Success(out)
    else match KindOf(s.name)
      case Text =>
        (match Bytes(coff, s)
         case Failure(e) => Failure(e)
         case Success(bytes) => Success(Output(out.header.(code := Placed(out, s)), out.body + bytes)))
      case Data =>
        if out.header.initData.size != 0 then Failure(BothDataAndRdata)
        else (match Bytes(coff, s)
              case Failure(e) => Failure(e)
              case Success(bytes) => Success(Output(out.header.(initData := Placed(out, s)), out.body + bytes)))
      case Bss =>
        var u := out.header.uninitData;
        if u.size != 0 then
          if s.paddr == u.virtualAddr + u.size then Failure(BothBssAndSbss)
          else Success(out.(header := out.header.(uninitData := u.(size := u.size + s.size))))
        else Success(out.(header := out.header.(uninitData := u.(virtualAddr := s.paddr, size := s.size))))
      case Other => Failure(UnknownSegment(s.name))
  }

  function Then(coff: seq<byte>, r: Result<Output>, s: Section): Result<Output> {
    if r.Success? then Step(coff, r.value, s) else r
  }

  function Converted(coff: seq<byte>, sections: seq<Section>): Result<Output> {
    if sections == [] then Success(EMPTY)
    else Then(coff, Converted(coff, sections[..|sections| - 1]), sections[|sections| - 1])
  }

  // ---- what the header says ----

  predicate Live(s: Section, k: Kind) {
    s.size != 0 && KindOf(s.name) == k
  }

  predicate AtMostOne(sections: seq<Section>, k: Kind) {
    forall i, j :: 0 <= i < j < |sections| ==> !(Live(sections[i], k) && Live(sections[j], k))
  }

  /** A file-backed segment holds exactly the bytes of section i, inside the body. */
  ghost predicate Copies(coff: seq<byte>, out: Output, g: Segment, s: Section) {
    && g.virtualAddr == s.paddr && g.size == s.size > 0
    && 0 <= s.scnptr && s.scnptr + s.size <= |coff|
    && HEADER_SIZE <= g.inFileAddr && g.inFileAddr - HEADER_SIZE + g.size <= |out.body|
    && out.body[g.inFileAddr - HEADER_SIZE..g.inFileAddr - HEADER_SIZE + g.size] == coff[s.scnptr..s.scnptr + s.size]
  }

  /** g is empty and no section of the kind is live, or g copies the last live one. */
  ghost predicate Backed(coff: seq<byte>, sections: seq<Section>, out: Output, g: Segment, k: Kind) {
    if g.size == 0 then forall i :: 0 <= i < |sections| ==> !Live(sections[i], k)
    else exists i :: LastLive(sections, i, k) && PlacedAt(coff, sections, out, g, i)
  }

  /** g copies section i, behind everything earlier sections put into the file. */
  ghost predicate PlacedAt(coff: seq<byte>, sections: seq<Section>, out: Output, g: Segment, i: int) {
    0 <= i < |sections| && Copies(coff, out, g, sections[i]) && g.inFileAddr == HEADER_SIZE + FileSize(sections[..i])
  }

  /** The bytes the sections put into the file. */
  function FileSize(sections: seq<Section>): int {
    LiveSize(sections, Text) + LiveSize(sections, Data)
  }

  ghost predicate LastLive(sections: seq<Section>, i: int, k: Kind) {
    && 0 <= i < |sections| && Live(sections[i], k)
    && forall j :: i < j < |sections| ==> !Live(sections[j], k)
  }

  ghost predicate FirstLive(sections: seq<Section>, i: int, k: Kind) {
    && 0 <= i < |sections| && Live(sections[i], k)
    && forall j :: 0 <= j < i ==> !Live(sections[j], k)
  }

  function LiveSize(sections: seq<Section>, k: Kind): int {
    if sections == [] then 0
    else LiveSize(sections[..|sections| - 1], k) + if Live(sections[|sections| - 1], k) then sections[|sections| - 1].size else 0
  }

  ghost predicate Described(coff: seq<byte>, sections: seq<Section>, out: Output) {
    && Backed(coff, sections, out, out.header.code, Text)
    && Backed(coff, sections, out, out.header.initData, Data)
    && Zeroed(sections, out.header.uninitData)
    && |out.body| == FileSize(sections)
  }

  /** u is as long as all live .bss and .sbss sections and starts where the first of them does. */
  ghost predicate Zeroed(sections: seq<Section>, u: Segment) {
    && u.size == LiveSize(sections, Bss)
    && if u.size == 0 then forall i :: 0 <= i < |sections| ==> !Live(sections[i], Bss)
       else exists i :: FirstLive(sections, i, Bss) && u.virtualAddr == sections[i].paddr
  }

  lemma CopiesLonger(coff: seq<byte>, out: Output, out': Output, g: Segment, s: Section, more: seq<byte>)
    requires Copies(coff, out, g, s) && out'.body == out.body + more
    ensures Copies(coff, out', g, s)
  {
    var at := g.inFileAddr - HEADER_SIZE;
    assert out'.body[at..at + g.size] == out.body[at..at + g.size];
  }

  /** A segment not touched by the turn still copies its last live section. */
  lemma BackedKept(coff: seq<byte>, init: seq<Section>, s: Section, out: Output, out': Output, g: Segment, k: Kind,
                   more: seq<byte>)
    requires Backed(coff, init, out, g, k) && !Live(s, k) && out'.body == out.body + more
    ensures Backed(coff, init + [s], out', g, k)
  {
    var sections := init + [s];
    assert forall i :: 0 <= i < |init| ==> sections[i] == init[i];
    if g.size != 0 {
      var i :| LastLive(init, i, k) && PlacedAt(coff, init, out, g, i);
      CopiesLonger(coff, out, out', g, init[i], more);
      assert sections[..i] == init[..i];
      assert LastLive(sections, i, k) && PlacedAt(coff, sections, out', g, i);
    }
  }

  /** A segment set by the turn copies the new section. */
  lemma BackedNow(coff: seq<byte>, init: seq<Section>, s: Section, out: Output, out': Output, k: Kind)
    requires |out.body| == FileSize(init)
    requires Live(s, k) && s.size > 0 && Bytes(coff, s).Success? && out'.body == out.body + Bytes(coff, s).value
    ensures Backed(coff, init + [s], out', Placed(out, s), k)
  {
    var sections, g := init + [s], Placed(out, s);
    assert sections[|init|] == s && LastLive(sections, |init|, k);
    assert out'.body[|out.body|..|out.body| + s.size] == Bytes(coff, s).value;
    assert sections[..|init|] == init;
    assert PlacedAt(coff, sections, out', g, |init|);
  }

  lemma LiveSizeStep(init: seq<Section>, s: Section, k: Kind)
    ensures LiveSize(init + [s], k) == LiveSize(init, k) + if Live(s, k) then s.size else 0
  {
    assert (init + [s])[..|init|] == init;
  }

  lemma {:induction false} LiveSizeNonNegative(sections: seq<Section>, k: Kind)
    requires forall i :: 0 <= i < |sections| ==> 0 <= sections[i].size
    ensures 0 <= LiveSize(sections, k)
    ensures LiveSize(sections, k) == 0 <==> forall i :: 0 <= i < |sections| ==> !Live(sections[i], k)
  {
    if sections != [] {
      var init := sections[..|sections| - 1];
      LiveSizeNonNegative(init, k);
      assert forall i :: 0 <= i < |init| ==> init[i] == sections[i];
    }
  }

  lemma BssStep(init: seq<Section>, s: Section, before: Segment, after: Segment)
    requires forall i :: 0 <= i < |init| ==> 0 <= init[i].size
    requires Zeroed(init, before) && 0 <= s.size
    requires if !Live(s, Bss) then after == before
             else if before.size != 0 then after == before.(size := before.size + s.size)
             else after == before.(virtualAddr := s.paddr, size := s.size)
    ensures Zeroed(init + [s], after)
  {
    var sections := init + [s];
    LiveSizeStep(init, s, Bss);
    LiveSizeNonNegative(init, Bss);
    assert sections[|init|] == s && forall i :: 0 <= i < |init| ==> sections[i] == init[i];
    if before.size != 0 {
      var i :| FirstLive(init, i, Bss) && before.virtualAddr == init[i].paddr;
      assert FirstLive(sections, i, Bss);
    } else if Live(s, Bss) {
      assert FirstLive(sections, |init|, Bss);
    }
  }

  lemma DescribedStep(coff: seq<byte>, init: seq<Section>, s: Section, out: Output, out': Output)
    requires Described(coff, init, out) && Step(coff, out, s) == Success(out')
    requires 0 <= s.size && forall i :: 0 <= i < |init| ==> 0 <= init[i].size
    ensures Described(coff, init + [s], out')
  {
    StepMeans(coff, out, s, out');
    LiveSizeStep(init, s, Text);
    LiveSizeStep(init, s, Data);
    BssStep(init, s, out.header.uninitData, out'.header.uninitData);
    BackedStep(coff, init, s, out, out', out.header.code, out'.header.code, Text);
    BackedStep(coff, init, s, out, out', out.header.initData, out'.header.initData, Data);
  }

  /** What a successful turn appends to the file. */
  function Appended(coff: seq<byte>, s: Section): seq<byte> {
    if (Live(s, Text) || Live(s, Data)) && Bytes(coff, s).Success? then Bytes(coff, s).value else []
  }

  /** A successful turn sets the segment of its section's kind and no other. */
  lemma StepMeans(coff: seq<byte>, out: Output, s: Section, out': Output)
    requires Step(coff, out, s) == Success(out')
    ensures Live(s, Text) || Live(s, Data) ==> Bytes(coff, s).Success?
    ensures out'.body == out.body + Appended(coff, s)
    ensures out'.header.code == if Live(s, Text) then Placed(out, s) else out.header.code
    ensures out'.header.initData == if Live(s, Data) then Placed(out, s) else out.header.initData
    ensures var u, u' := out.header.uninitData, out'.header.uninitData;
            if !Live(s, Bss) then u' == u
            else if u.size != 0 then u' == u.(size := u.size + s.size)
            else u' == u.(virtualAddr := s.paddr, size := s.size)
  {
    assert out.body + [] == out.body;
  }

  lemma BackedStep(coff: seq<byte>, init: seq<Section>, s: Section, out: Output, out': Output, g: Segment, g': Segment, k: Kind)
    requires Backed(coff, init, out, g, k) && |out.body| == FileSize(init) && 0 <= s.size && (k == Text || k == Data)
    requires Live(s, k) ==> Bytes(coff, s).Success?
    requires out'.body == out.body + Appended(coff, s) && g' == if Live(s, k) then Placed(out, s) else g
    ensures Backed(coff, init + [s], out', g', k)
  {
    if Live(s, k) {
      BackedNow(coff, init, s, out, out', k);
    } else {
      BackedKept(coff, init, s, out, out', g, k, Appended(coff, s));
    }
  }

  /** After any section list that converts, the code segment is the last live .text, the data
      segment the only live .data or .rdata, and the uninitialised segment starts at the first
      live .bss or .sbss and has the size of all of them. */
  lemma {:induction false} HeaderDescribes(coff: seq<byte>, sections: seq<Section>)
    requires Converted(coff, sections).Success? && forall i :: 0 <= i < |sections| ==> 0 <= sections[i].size
    ensures Described(coff, sections, Converted(coff, sections).value)
  {
    if sections != [] {
      var init, s := sections[..|sections| - 1], sections[|sections| - 1];
      assert sections == init + [s] && forall i :: 0 <= i < |init| ==> init[i] == sections[i];
      HeaderDescribes(coff, init);
      DescribedStep(coff, init, s, Converted(coff, init).value, Converted(coff, sections).value);
    }
  }

  // ---- the file layout ----

  lemma LiveSizeSplit(sections: seq<Section>, i: nat, k: Kind)
    requires i < |sections| && forall j :: 0 <= j < |sections| ==> 0 <= sections[j].size
    ensures LiveSize(sections, k) >= LiveSize(sections[..i], k) + (if Live(sections[i], k) then sections[i].size else 0)
    ensures (forall j :: i < j < |sections| ==> !Live(sections[j], k)) ==>
              LiveSize(sections, k) == LiveSize(sections[..i], k) + (if Live(sections[i], k) then sections[i].size else 0)
    ensures (forall j :: 0 <= j < i ==> !Live(sections[j], k)) ==> LiveSize(sections[..i], k) == 0
    decreases |sections|
  {
    var init := sections[..|sections| - 1];
    if i == |sections| - 1 {
      assert sections[..i] == init;
    } else {
      assert init[..i] == sections[..i];
      LiveSizeSplit(init, i, k);
    }
    LiveSizeNonNegative(sections[..i], k);
  }

  function FileSegment(h: Header, k: Kind): Segment {
    if k == Text then h.code else h.initData
  }

  predicate FileKinds(k: Kind, other: Kind) {
    (k == Text && other == Data) || (k == Data && other == Text)
  }

  lemma SegmentAt(coff: seq<byte>, sections: seq<Section>, k: Kind, i: int)
    requires Sizable(sections) && Converted(coff, sections).Success? && (k == Text || k == Data)
    requires AtMostOne(sections, k) && 0 <= i < |sections| && Live(sections[i], k)
    ensures var g := FileSegment(Converted(coff, sections).value.header, k);
            g.size == sections[i].size && g.inFileAddr == HEADER_SIZE + FileSize(sections[..i])
  {
    HeaderDescribes(coff, sections);
    var out := Converted(coff, sections).value;
    var i' :| LastLive(sections, i', k) && PlacedAt(coff, sections, out, FileSegment(out.header, k), i');
    assert i' == i;
  }

  lemma SegmentSize(coff: seq<byte>, sections: seq<Section>, k: Kind)
    requires Sizable(sections) && Converted(coff, sections).Success? && (k == Text || k == Data) && AtMostOne(sections, k)
    ensures FileSegment(Converted(coff, sections).value.header, k).size == LiveSize(sections, k)
  {
    HeaderDescribes(coff, sections);
    LiveSizeNonNegative(sections, k);
    if i :| 0 <= i < |sections| && Live(sections[i], k) {
      SegmentAt(coff, sections, k, i);
      OneLive(sections, i, k);
    }
  }

  /** The file layout: a file-backed segment starts right behind the header if it comes first, and
      right behind the other one if it comes second, and together the segments fill the file. */
  lemma FileLayout(coff: seq<byte>, sections: seq<Section>, k: Kind, other: Kind, i: int)
    requires Sizable(sections) && Converted(coff, sections).Success?
    requires AtMostOne(sections, Text) && AtMostOne(sections, Data) && FileKinds(k, other)
    requires 0 <= i < |sections| && Live(sections[i], k)
    ensures FileSegment(Converted(coff, sections).value.header, k).size == sections[i].size
    ensures FileSegment(Converted(coff, sections).value.header, k).inFileAddr == HEADER_SIZE +
            if exists j :: 0 <= j < i && Live(sections[j], other)
            then FileSegment(Converted(coff, sections).value.header, other).size else 0
  {
    SegmentAt(coff, sections, k, i);
    SegmentSize(coff, sections, other);
    LiveBefore(sections, i, i, k);
    if j :| 0 <= j < |sections| && Live(sections[j], other) {
      OneLive(sections, j, other);
      LiveBefore(sections, j, i, other);
    } else {
      LiveSizeNonNegative(sections[..i], other);
    }
  }

  lemma SegmentsFillFile(coff: seq<byte>, sections: seq<Section>)
    requires Sizable(sections) && Converted(coff, sections).Success?
    requires AtMostOne(sections, Text) && AtMostOne(sections, Data)
    ensures var out := Converted(coff, sections).value;
            && |Image(out)| == HEADER_SIZE + out.header.code.size + out.header.initData.size
            && (out.header.code.size != 0 && out.header.initData.size != 0 ==>
                  || out.header.code.inFileAddr + out.header.code.size == out.header.initData.inFileAddr
                  || out.header.initData.inFileAddr + out.header.initData.size == out.header.code.inFileAddr)
  {
    HeaderDescribes(coff, sections);
    SegmentSize(coff, sections, Text);
    SegmentSize(coff, sections, Data);
    LiveSizeNonNegative(sections, Text);
    LiveSizeNonNegative(sections, Data);
    if i, j :| 0 <= i < |sections| && 0 <= j < |sections| && Live(sections[i], Text) && Live(sections[j], Data) {
      FileLayout(coff, sections, Text, Data, i);
      FileLayout(coff, sections, Data, Text, j);
      assert i != j;
    }
  }

  lemma OneLive(sections: seq<Section>, i: nat, k: Kind)
    requires forall j :: 0 <= j < |sections| ==> 0 <= sections[j].size
    requires AtMostOne(sections, k) && i < |sections| && Live(sections[i], k)
    ensures LiveSize(sections, k) == sections[i].size && LiveSize(sections[..i], k) == 0
  {
    LiveSizeSplit(sections, i, k);
  }

  lemma LiveBefore(sections: seq<Section>, i: nat, j: nat, k: Kind)
    requires forall j :: 0 <= j < |sections| ==> 0 <= sections[j].size
    requires AtMostOne(sections, k) && i < |sections| && j < |sections| && Live(sections[i], k)
    ensures LiveSize(sections[..j], k) == if i < j then sections[i].size else 0
  {
    var part := sections[..j];
    assert forall n :: 0 <= n < j ==> part[n] == sections[n];
    if i < j {
      OneLive(part, i, k);
    } else {
      LiveSizeNonNegative(part, k);
      forall n | 0 <= n < j ensures !Live(part[n], k) {
        assert n < i;
      }
    }
  }

  // ---- loading ----

  /** Loading the COFF file stores b at address a: some section puts it there. */
  ghost predicate CoffStores(coff: seq<byte>, sections: seq<Section>, a: int, b: byte) {
    exists i :: 0 <= i < |sections| && SectionStores(coff, sections[i], a, b)
  }

  predicate SectionStores(coff: seq<byte>, s: Section, a: int, b: byte) {
    && s.paddr <= a < s.paddr + s.size
    && match KindOf(s.name)
       case Bss => b == NUL
       case Other => false
       case _ => 0 <= s.scnptr && s.scnptr + (a - s.paddr) < |coff| && coff[s.scnptr + (a - s.paddr)] == b
  }

  predicate SegmentStores(image: seq<byte>, g: Segment, a: int, b: byte) {
    && g.virtualAddr <= a < g.virtualAddr + g.size
    && 0 <= g.inFileAddr && g.inFileAddr + (a - g.virtualAddr) < |image|
    && image[g.inFileAddr + (a - g.virtualAddr)] == b
  }

  predicate ZeroStores(g: Segment, a: int, b: byte) {
    g.virtualAddr <= a < g.virtualAddr + g.size && b == NUL
  }

  // ---- the image ----

  function EncodeSegment(g: Segment): (s: seq<byte>)
    ensures |s| == 12
  {
    EncodeInt(g.virtualAddr) + EncodeInt(g.inFileAddr) + EncodeInt(g.size)
  }

  function DecodeSegment(s: seq<byte>): Segment
    requires |s| == 12
  {
    Segment(DecodeInt(s[0..4]), DecodeInt(s[4..8]), DecodeInt(s[8..12]))
  }

  function EncodeHeader(h: Header): (s: seq<byte>)
    ensures |s| == HEADER_SIZE
  {
    EncodeInt(NOFF_MAGIC) + EncodeSegment(h.code) + EncodeSegment(h.initData) + EncodeSegment(h.uninitData)
  }

  function DecodeHeader(s: seq<byte>): Header
    requires |s| == HEADER_SIZE
  {
    Header(DecodeSegment(s[4..16]), DecodeSegment(s[16..28]), DecodeSegment(s[28..40]))
  }

  predicate IntSegment(g: Segment) {
    IsInt(g.virtualAddr) && IsInt(g.inFileAddr) && IsInt(g.size)
  }

  lemma SegmentRoundTrip(g: Segment)
    requires IntSegment(g)
    ensures DecodeSegment(EncodeSegment(g)) == g
  {
    var s := EncodeSegment(g);
    assert s[0..4] == EncodeInt(g.virtualAddr) && s[4..8] == EncodeInt(g.inFileAddr) && s[8..12] == EncodeInt(g.size);
    DecodeEncode(g.virtualAddr);
    DecodeEncode(g.inFileAddr);
    DecodeEncode(g.size);
  }

  lemma HeaderRoundTrip(h: Header)
    requires IntSegment(h.code) && IntSegment(h.initData) && IntSegment(h.uninitData)
    ensures DecodeHeader(EncodeHeader(h)) == h && DecodeInt(EncodeHeader(h)[0..4]) == NOFF_MAGIC
  {
    var s := EncodeHeader(h);
    assert s[0..4] == EncodeInt(NOFF_MAGIC) && s[4..16] == EncodeSegment(h.code);
    assert s[16..28] == EncodeSegment(h.initData) && s[28..40] == EncodeSegment(h.uninitData);
    DecodeEncode(NOFF_MAGIC);
    SegmentRoundTrip(h.code);
    SegmentRoundTrip(h.initData);
    SegmentRoundTrip(h.uninitData);
  }

  function Image(out: Output): seq<byte> {
    EncodeHeader(out.header) + out.body
  }

  function Written(r: Result<Output>): Result<seq<byte>> {
    if r.Success? then Success(Image(r.value)) else Failure(r.error)
  }

  /** Loading an image by its own header. */
  ghost predicate ImageStores(image: seq<byte>, a: int, b: byte) {
    && HEADER_SIZE <= |image|
    && var h := DecodeHeader(image[..HEADER_SIZE]);
       SegmentStores(image, h.code, a, b) || SegmentStores(image, h.initData, a, b) || ZeroStores(h.uninitData, a, b)
  }

  lemma {:induction false} HeaderIsInts(coff: seq<byte>, sections: seq<Section>)
    requires Sizable(sections) && Converted(coff, sections).Success?
    ensures var h := Converted(coff, sections).value.header;
            IntSegment(h.code) && IntSegment(h.initData) && IntSegment(h.uninitData)
    ensures var out := Converted(coff, sections).value;
            0 <= |out.body| + out.header.uninitData.size <= TotalSize(sections)
    ensures 0 <= Converted(coff, sections).value.header.uninitData.size
  {
    if sections != [] {
      var init := sections[..|sections| - 1];
      assert forall i :: 0 <= i < |init| ==> init[i] == sections[i];
      HeaderIsInts(coff, init);
    }
  }

  lemma SegmentCopies(coff: seq<byte>, sections: seq<Section>, out: Output, g: Segment, i: int, a: int, b: byte)
    requires 0 <= i < |sections| && Copies(coff, out, g, sections[i])
    requires KindOf(sections[i].name) == Text || KindOf(sections[i].name) == Data
    ensures SegmentStores(Image(out), g, a, b) <==> SectionStores(coff, sections[i], a, b)
  {
    var s, at := sections[i], g.inFileAddr - HEADER_SIZE;
    if s.paddr <= a < s.paddr + s.size {
      var n := a - s.paddr;
      assert out.body[at..at + g.size][n] == coff[s.scnptr..s.scnptr + s.size][n];
      assert Image(out)[g.inFileAddr + n] == out.body[at + n] == coff[s.scnptr + n];
    }
  }

  /** One file-backed kind: the segment stores what the live sections of that kind store. */
  lemma KindLoads(coff: seq<byte>, sections: seq<Section>, out: Output, g: Segment, k: Kind, a: int, b: byte)
    requires (k == Text || k == Data) && AtMostOne(sections, k) && Backed(coff, sections, out, g, k)
    ensures SegmentStores(Image(out), g, a, b) <==>
            exists i :: 0 <= i < |sections| && Live(sections[i], k) && SectionStores(coff, sections[i], a, b)
  {
    if g.size != 0 {
      var i :| LastLive(sections, i, k) && PlacedAt(coff, sections, out, g, i);
      SegmentCopies(coff, sections, out, g, i, a, b);
      forall j | 0 <= j < |sections| && Live(sections[j], k) ensures j == i {
      }
    }
  }

  lemma ZeroLoads(coff: seq<byte>, sections: seq<Section>, out: Output, a: int, b: byte)
    requires AtMostOne(sections, Bss) && Described(coff, sections, out)
    requires forall i :: 0 <= i < |sections| ==> 0 <= sections[i].size
    ensures ZeroStores(out.header.uninitData, a, b) <==>
            exists i :: 0 <= i < |sections| && Live(sections[i], Bss) && SectionStores(coff, sections[i], a, b)
  {
    var g := out.header.uninitData;
    if g.size != 0 {
      var i :| FirstLive(sections, i, Bss) && g.virtualAddr == sections[i].paddr;
      OneLive(sections, i, Bss);
      forall j | 0 <= j < |sections| && Live(sections[j], Bss) ensures j == i {
      }
    }
  }

  /** The image of a conversion stores what its three segments store. */
  lemma ImageMeans(coff: seq<byte>, sections: seq<Section>, a: int, b: byte)
    requires Sizable(sections) && Converted(coff, sections).Success?
    ensures var out := Converted(coff, sections).value;
            ImageStores(Image(out), a, b) <==>
            || SegmentStores(Image(out), out.header.code, a, b)
            || SegmentStores(Image(out), out.header.initData, a, b)
            || ZeroStores(out.header.uninitData, a, b)
  {
    ImageHeader(coff, sections);
  }

  lemma CoffMeans(coff: seq<byte>, sections: seq<Section>, a: int, b: byte)
    requires forall i :: 0 <= i < |sections| ==> 0 <= sections[i].size
    ensures CoffStores(coff, sections, a, b) <==>
            || (exists i :: 0 <= i < |sections| && Live(sections[i], Text) && SectionStores(coff, sections[i], a, b))
            || (exists i :: 0 <= i < |sections| && Live(sections[i], Data) && SectionStores(coff, sections[i], a, b))
            || (exists i :: 0 <= i < |sections| && Live(sections[i], Bss) && SectionStores(coff, sections[i], a, b))
  {
    forall i | 0 <= i < |sections| && SectionStores(coff, sections[i], a, b)
      ensures Live(sections[i], Text) || Live(sections[i], Data) || Live(sections[i], Bss)
    {
    }
  }

  /** The conversion keeps the program: loading the image by its header stores the same bytes at
      the same addresses as loading the sections, for every section list with at most one live
      section of each kind. */
  lemma LoadsTheSame(coff: seq<byte>, sections: seq<Section>, a: int, b: byte)
    requires Sizable(sections) && Converted(coff, sections).Success?
    requires AtMostOne(sections, Text) && AtMostOne(sections, Data) && AtMostOne(sections, Bss)
    ensures ImageStores(Image(Converted(coff, sections).value), a, b) <==> CoffStores(coff, sections, a, b)
  {
    var out := Converted(coff, sections).value;
    HeaderDescribes(coff, sections);
    ImageMeans(coff, sections, a, b);
    CoffMeans(coff, sections, a, b);
    KindLoads(coff, sections, out, out.header.code, Text, a, b);
    KindLoads(coff, sections, out, out.header.initData, Data, a, b);
    ZeroLoads(coff, sections, out, a, b);
  }

  // ---- when it converts ----

  predicate Acceptable(coff: seq<byte>, s: Section) {
    s.size == 0 || (KindOf(s.name) == Bss || ((KindOf(s.name) == Text || KindOf(s.name) == Data) && Bytes(coff, s).Success?))
  }

  /** The converter refuses section j: a .bss or .sbss that starts where those before it, counted
      from the first one, would end. */
  ghost predicate Refused(sections: seq<Section>, j: int) {
    && 0 <= j < |sections| && Live(sections[j], Bss)
    && exists i :: i < j && FirstLive(sections, i, Bss)
         && sections[j].paddr == sections[i].paddr + LiveSize(sections[..j], Bss)
  }

  /** The conversion succeeds exactly when every live section is of a known kind and inside the
      file, at most one data section is live, and no .bss or .sbss is refused. */
  lemma {:induction false} ConvertsExactlyWhen(coff: seq<byte>, sections: seq<Section>)
    requires Sizable(sections)
    ensures Converted(coff, sections).Success? <==>
            && (forall i :: 0 <= i < |sections| ==> Acceptable(coff, sections[i]))
            && AtMostOne(sections, Data)
            && (forall j :: 0 <= j < |sections| ==> !Refused(sections, j))
  {
    if sections != [] {
      var n := |sections| - 1;
      var init, s := sections[..n], sections[n];
      assert init + [s] == sections && forall i :: 0 <= i < n ==> init[i] == sections[i];
      SizablePrefix(sections);
      AtMostOneMore(init, s, Data);
      forall j | 0 <= j < n ensures Refused(init, j) <==> Refused(sections, j) {
        RefusedInPrefix(init, s, j);
      }
      ConvertsExactlyWhen(coff, init);
      if Converted(coff, init).Success? {
        HeaderDescribes(coff, init);
        StepSucceedsExactlyWhen(coff, init, s, Converted(coff, init).value);
      }
    }
  }

  lemma RefusedInPrefix(init: seq<Section>, s: Section, j: int)
    requires 0 <= j < |init|
    ensures Refused(init, j) <==> Refused(init + [s], j)
  {
    var sections := init + [s];
    assert sections[..j] == init[..j] && forall i :: 0 <= i < |init| ==> sections[i] == init[i];
    forall i | i < j ensures FirstLive(init, i, Bss) <==> FirstLive(sections, i, Bss) {
    }
  }

  lemma StepSucceedsExactlyWhen(coff: seq<byte>, init: seq<Section>, s: Section, out: Output)
    requires Described(coff, init, out) && forall i :: 0 <= i < |init| ==> 0 <= init[i].size
    ensures Step(coff, out, s).Success? <==>
            && Acceptable(coff, s)
            && (Live(s, Data) ==> forall i :: 0 <= i < |init| ==> !Live(init[i], Data))
            && !Refused(init + [s], |init|)
  {
    LastRefused(init, s, out.header.uninitData);
  }

  lemma LastRefused(init: seq<Section>, s: Section, u: Segment)
    requires forall i :: 0 <= i < |init| ==> 0 <= init[i].size
    requires Zeroed(init, u)
    ensures Refused(init + [s], |init|) <==> Live(s, Bss) && u.size != 0 && s.paddr == u.virtualAddr + u.size
  {
    var sections := init + [s];
    assert sections[..|init|] == init && sections[|init|] == s;
    assert forall i :: 0 <= i < |init| ==> sections[i] == init[i];
    if u.size != 0 {
      var i :| FirstLive(init, i, Bss) && u.virtualAddr == init[i].paddr;
      assert FirstLive(sections, i, Bss);
      forall j | FirstLive(sections, j, Bss) ensures j == i {
        assert Live(sections[i], Bss) && Live(sections[j], Bss);
      }
    }
  }

  lemma {:induction false} SizablePrefix(sections: seq<Section>)
    requires sections != [] && Sizable(sections)
    ensures Sizable(sections[..|sections| - 1])
  {
    assert TotalSize(sections) == TotalSize(sections[..|sections| - 1]) + sections[|sections| - 1].size;
  }

  lemma AtMostOneMore(init: seq<Section>, s: Section, k: Kind)
    ensures AtMostOne(init + [s], k) <==>
            AtMostOne(init, k) && (Live(s, k) ==> forall i :: 0 <= i < |init| ==> !Live(init[i], k))
  {
    var sections := init + [s];
    assert sections[|init|] == s && forall i :: 0 <= i < |init| ==> sections[i] == init[i];
    if AtMostOne(sections, k) {
      forall i, j | 0 <= i < j < |init| ensures !(Live(init[i], k) && Live(init[j], k)) {
        assert !(Live(sections[i], k) && Live(sections[j], k));
      }
      forall i | Live(s, k) && 0 <= i < |init| ensures !Live(init[i], k) {
        assert !(Live(sections[|init|], k) && Live(sections[i], k));
      }
    }
  }

  lemma TwoSections(coff: seq<byte>, s: Section, t: Section)
    ensures Converted(coff, [s, t]) == Then(coff, Step(coff, EMPTY, s), t)
  {
    assert [s, t][..1] == [s] && [s][..0] == [];
    assert Converted(coff, [s]) == Step(coff, EMPTY, s);
  }

  lemma ImageHeader(coff: seq<byte>, sections: seq<Section>)
    requires Sizable(sections) && Converted(coff, sections).Success?
    ensures var out := Converted(coff, sections).value; DecodeHeader(Image(out)[..HEADER_SIZE]) == out.header
  {
    var out := Converted(coff, sections).value;
    HeaderIsInts(coff, sections);
    HeaderRoundTrip(out.header);
    assert Image(out)[..HEADER_SIZE] == EncodeHeader(out.header);
  }

  // ---- when it keeps the program ----

  /** Loading the image by its header stores what loading the sections stores. */
  ghost predicate Faithful(coff: seq<byte>, sections: seq<Section>, image: seq<byte>) {
    forall a, b :: ImageStores(image, a, b) <==> CoffStores(coff, sections, a, b)
  }

  predicate Covers(s: Section, a: int) {
    s.paddr <= a < s.paddr + s.size
  }

  predicate Apart(s: Section, t: Section) {
    s.paddr + s.size <= t.paddr || t.paddr + t.size <= s.paddr
  }

  /** No two live sections overlap in memory. */
  predicate Disjoint(sections: seq<Section>) {
    forall i, j :: 0 <= i < j < |sections| && sections[i].size != 0 && sections[j].size != 0 ==>
      Apart(sections[i], sections[j])
  }

  /** Every live .bss and .sbss lies in the range that starts at the first of them and is as long
      as all of them together. */
  ghost predicate BssFits(sections: seq<Section>) {
    forall i, j :: FirstLive(sections, i, Bss) && 0 <= j < |sections| && Live(sections[j], Bss) ==>
      && sections[i].paddr <= sections[j].paddr
      && sections[j].paddr + sections[j].size <= sections[i].paddr + LiveSize(sections, Bss)
  }

  function Interval(lo: int, n: nat): (r: set<int>)
    ensures forall a :: a in r <==> lo <= a < lo + n
    ensures |r| == n
  {
    if n == 0 then {} else Interval(lo, n - 1) + {lo + n - 1}
  }

  /** The addresses of the live .bss and .sbss sections. */
  function BssAddresses(sections: seq<Section>): set<int>
    requires forall i :: 0 <= i < |sections| ==> 0 <= sections[i].size
  {
    if sections == [] then {}
    else
      var s := sections[|sections| - 1];
      BssAddresses(sections[..|sections| - 1]) + if Live(s, Bss) then Interval(s.paddr, s.size) else {}
  }

  lemma {:induction false} BssAddressesMeans(sections: seq<Section>, a: int)
    requires forall i :: 0 <= i < |sections| ==> 0 <= sections[i].size
    ensures a in BssAddresses(sections) <==>
            exists i :: 0 <= i < |sections| && Live(sections[i], Bss) && Covers(sections[i], a)
  {
    if sections != [] {
      var init := sections[..|sections| - 1];
      BssAddressesMeans(init, a);
      assert forall i :: 0 <= i < |init| ==> init[i] == sections[i];
    }
  }

  /** Disjoint sections cover as many addresses as their sizes add up to. */
  lemma {:induction false} BssAddressesCount(sections: seq<Section>)
    requires Disjoint(sections) && forall i :: 0 <= i < |sections| ==> 0 <= sections[i].size
    ensures |BssAddresses(sections)| == LiveSize(sections, Bss)
  {
    if sections != [] {
      var init, s := sections[..|sections| - 1], sections[|sections| - 1];
      assert forall i :: 0 <= i < |init| ==> init[i] == sections[i];
      BssAddressesCount(init);
      if Live(s, Bss) {
        NextBssApart(sections);
      }
    }
  }

  lemma NextBssApart(sections: seq<Section>)
    requires sections != [] && Disjoint(sections) && forall i :: 0 <= i < |sections| ==> 0 <= sections[i].size
    requires Live(sections[|sections| - 1], Bss)
    ensures BssAddresses(sections[..|sections| - 1]) !!
            Interval(sections[|sections| - 1].paddr, sections[|sections| - 1].size)
  {
    var init, s := sections[..|sections| - 1], sections[|sections| - 1];
    forall a | a in BssAddresses(init) ensures a !in Interval(s.paddr, s.size) {
      BssAddressesMeans(init, a);
      var i :| 0 <= i < |init| && Live(init[i], Bss) && Covers(init[i], a);
      assert Apart(sections[i], sections[|init|]);
    }
  }

  lemma SameSizeSameSet(a: set<int>, b: set<int>)
    requires a <= b && |a| == |b|
    ensures a == b
  {
    assert b == a + (b - a);
    assert |b| == |a| + |b - a|;
  }

  /** Where disjoint sections fit into a range as long as all of them, they cover all of it. */
  lemma BssCovers(sections: seq<Section>, first: int, a: int)
    requires Disjoint(sections) && BssFits(sections) && forall i :: 0 <= i < |sections| ==> 0 <= sections[i].size
    requires FirstLive(sections, first, Bss) && 0 <= LiveSize(sections, Bss)
    ensures sections[first].paddr <= a < sections[first].paddr + LiveSize(sections, Bss) <==>
            exists i :: 0 <= i < |sections| && Live(sections[i], Bss) && Covers(sections[i], a)
  {
    var covered, range := BssAddresses(sections), Interval(sections[first].paddr, LiveSize(sections, Bss));
    forall x | x in covered ensures x in range {
      BssAddressesMeans(sections, x);
      var i :| 0 <= i < |sections| && Live(sections[i], Bss) && Covers(sections[i], x);
    }
    BssAddressesCount(sections);
    SameSizeSameSet(covered, range);
    BssAddressesMeans(sections, a);
  }

  lemma ZeroCovers(coff: seq<byte>, sections: seq<Section>, out: Output, a: int, b: byte)
    requires Disjoint(sections) && BssFits(sections) && forall i :: 0 <= i < |sections| ==> 0 <= sections[i].size
    requires Described(coff, sections, out)
    ensures ZeroStores(out.header.uninitData, a, b) <==>
            exists i :: 0 <= i < |sections| && Live(sections[i], Bss) && SectionStores(coff, sections[i], a, b)
  {
    var u := out.header.uninitData;
    LiveSizeNonNegative(sections, Bss);
    if u.size != 0 {
      var first :| FirstLive(sections, first, Bss) && u.virtualAddr == sections[first].paddr;
      BssCovers(sections, first, a);
      forall i | 0 <= i < |sections| && Live(sections[i], Bss)
        ensures SectionStores(coff, sections[i], a, b) <==> Covers(sections[i], a) && b == NUL
      {
      }
    }
  }

  lemma DataOnce(coff: seq<byte>, sections: seq<Section>)
    requires Sizable(sections) && Converted(coff, sections).Success?
    ensures AtMostOne(sections, Data)
    ensures forall i :: 0 <= i < |sections| ==> Acceptable(coff, sections[i])
  {
    ConvertsExactlyWhen(coff, sections);
  }

  lemma FaithfulIf(coff: seq<byte>, sections: seq<Section>, a: int, b: byte)
    requires Sizable(sections) && Converted(coff, sections).Success? && Disjoint(sections)
    requires AtMostOne(sections, Text) && BssFits(sections)
    ensures ImageStores(Image(Converted(coff, sections).value), a, b) <==> CoffStores(coff, sections, a, b)
  {
    var out := Converted(coff, sections).value;
    HeaderDescribes(coff, sections);
    DataOnce(coff, sections);
    ImageMeans(coff, sections, a, b);
    CoffMeans(coff, sections, a, b);
    KindLoads(coff, sections, out, out.header.code, Text, a, b);
    KindLoads(coff, sections, out, out.header.initData, Data, a, b);
    ZeroCovers(coff, sections, out, a, b);
  }

  /** What a file-backed segment stores lies in the last live section of its kind. */
  lemma SegmentInSection(coff: seq<byte>, sections: seq<Section>, out: Output, g: Segment, k: Kind, a: int, b: byte)
    requires Backed(coff, sections, out, g, k) && SegmentStores(Image(out), g, a, b)
    ensures exists i :: LastLive(sections, i, k) && Covers(sections[i], a)
  {
    var i :| LastLive(sections, i, k) && PlacedAt(coff, sections, out, g, i);
  }

  /** An address of a live section that is not the last of its kind is stored by no file-backed segment. */
  lemma NotInSegment(coff: seq<byte>, sections: seq<Section>, out: Output, g: Segment, k: Kind, i: int, a: int, b: byte)
    requires Disjoint(sections) && Backed(coff, sections, out, g, k)
    requires 0 <= i < |sections| && sections[i].size > 0 && Covers(sections[i], a) && !LastLive(sections, i, k)
    ensures !SegmentStores(Image(out), g, a, b)
  {
    forall j | LastLive(sections, j, k) ensures !Covers(sections[j], a) {
      assert i < j || j < i;
    }
    if SegmentStores(Image(out), g, a, b) {
      SegmentInSection(coff, sections, out, g, k, a, b);
    }
  }

  lemma FaithfulFitsBss(coff: seq<byte>, sections: seq<Section>)
    requires Sizable(sections) && Converted(coff, sections).Success? && Disjoint(sections)
    requires Faithful(coff, sections, Image(Converted(coff, sections).value))
    ensures BssFits(sections)
  {
    var out := Converted(coff, sections).value;
    HeaderDescribes(coff, sections);
    LiveSizeNonNegative(sections, Bss);
    forall i, j | FirstLive(sections, i, Bss) && 0 <= j < |sections| && Live(sections[j], Bss)
      ensures sections[i].paddr <= sections[j].paddr
      ensures sections[j].paddr + sections[j].size <= sections[i].paddr + LiveSize(sections, Bss)
    {
      ZeroStart(coff, sections, out, i);
      BssAddressZeroed(coff, sections, j, sections[j].paddr);
      BssAddressZeroed(coff, sections, j, sections[j].paddr + sections[j].size - 1);
    }
  }

  lemma ZeroStart(coff: seq<byte>, sections: seq<Section>, out: Output, first: int)
    requires Described(coff, sections, out) && FirstLive(sections, first, Bss)
    requires forall i :: 0 <= i < |sections| ==> 0 <= sections[i].size
    ensures out.header.uninitData.virtualAddr == sections[first].paddr
    ensures out.header.uninitData.size == LiveSize(sections, Bss)
  {
    var i :| FirstLive(sections, i, Bss) && out.header.uninitData.virtualAddr == sections[i].paddr;
    assert i == first;
  }

  /** In a faithful image the zero segment reaches every address of every .bss and .sbss. */
  lemma BssAddressZeroed(coff: seq<byte>, sections: seq<Section>, j: int, a: int)
    requires Sizable(sections) && Converted(coff, sections).Success? && Disjoint(sections)
    requires Faithful(coff, sections, Image(Converted(coff, sections).value))
    requires 0 <= j < |sections| && Live(sections[j], Bss) && Covers(sections[j], a)
    ensures ZeroStores(Converted(coff, sections).value.header.uninitData, a, NUL)
  {
    var out := Converted(coff, sections).value;
    HeaderDescribes(coff, sections);
    assert SectionStores(coff, sections[j], a, NUL);
    assert CoffStores(coff, sections, a, NUL);
    assert ImageStores(Image(out), a, NUL);
    ImageMeans(coff, sections, a, NUL);
    NotInSegment(coff, sections, out, out.header.code, Text, j, a, NUL);
    NotInSegment(coff, sections, out, out.header.initData, Data, j, a, NUL);
  }

  /** A live .text that is not the last one is lost: its first byte is nowhere in the image. */
  lemma EarlierTextLost(coff: seq<byte>, sections: seq<Section>, i: int, j: int)
    requires Sizable(sections) && Converted(coff, sections).Success? && Disjoint(sections) && BssFits(sections)
    requires 0 <= i < j < |sections| && Live(sections[i], Text) && Live(sections[j], Text)
    ensures !Faithful(coff, sections, Image(Converted(coff, sections).value))
  {
    var out, s := Converted(coff, sections).value, sections[i];
    HeaderDescribes(coff, sections);
    DataOnce(coff, sections);
    assert Acceptable(coff, s);
    var a, b := s.paddr, coff[s.scnptr];
    assert SectionStores(coff, s, a, b);
    assert CoffStores(coff, sections, a, b);
    ImageMeans(coff, sections, a, b);
    NotInSegment(coff, sections, out, out.header.code, Text, i, a, b);
    NotInSegment(coff, sections, out, out.header.initData, Data, i, a, b);
    ZeroCovers(coff, sections, out, a, b);
    forall k | 0 <= k < |sections| && Live(sections[k], Bss) ensures !SectionStores(coff, sections[k], a, b) {
      assert i < k || k < i;
    }
    assert !ImageStores(Image(out), a, b);
  }

  /** Exactly when the conversion keeps the program. For sections that do not overlap in memory it
      does so if and only if at most one .text is live and every live .bss and .sbss lies in the
      range the header's zero segment describes. */
  lemma FaithfulExactlyWhen(coff: seq<byte>, sections: seq<Section>)
    requires Sizable(sections) && Converted(coff, sections).Success? && Disjoint(sections)
    ensures Faithful(coff, sections, Image(Converted(coff, sections).value)) <==>
            AtMostOne(sections, Text) && BssFits(sections)
  {
    if AtMostOne(sections, Text) && BssFits(sections) {
      forall a, b ensures ImageStores(Image(Converted(coff, sections).value), a, b) <==> CoffStores(coff, sections, a, b) {
        FaithfulIf(coff, sections, a, b);
      }
    }
    if Faithful(coff, sections, Image(Converted(coff, sections).value)) {
      FaithfulFitsBss(coff, sections);
      if i, j :| 0 <= i < j < |sections| && Live(sections[i], Text) && Live(sections[j], Text) {
        EarlierTextLost(coff, sections, i, j);
      }
    }
  }

  // ---- witnesses ----

  lemma TwoBss(coff: seq<byte>, s: Section, t: Section)
    requires Live(s, Bss) && Live(t, Bss)
    ensures Converted(coff, [s, t]) ==
            if t.paddr == s.paddr + s.size then Failure(BothBssAndSbss)
            else Success(Output(EMPTY.header.(uninitData := Segment(s.paddr, 0, s.size + t.size)), []))
  {
    TwoSections(coff, s, t);
  }

  /** A list of just two live .bss or .sbss sections is never kept: contiguous ones are refused,
      and any others are merged into a range that zeroes an address neither section covers. */
  lemma TwoBssAlone(coff: seq<byte>, s: Section, t: Section)
    requires Sizable([s, t]) && Live(s, Bss) && Live(t, Bss)
    ensures if t.paddr == s.paddr + s.size then Converted(coff, [s, t]) == Failure(BothBssAndSbss)
            else Converted(coff, [s, t]).Success? && !Faithful(coff, [s, t], Image(Converted(coff, [s, t]).value))
  {
    TwoBss(coff, s, t);
    assert s == [s, t][0] && t == [s, t][1];
    if t.paddr != s.paddr + s.size {
      var out := Converted(coff, [s, t]).value;
      var a := if t.paddr > s.paddr + s.size then s.paddr + s.size else s.paddr + s.size + t.size - 1;
      ImageHeader(coff, [s, t]);
      assert ZeroStores(out.header.uninitData, a, NUL);
      assert ImageStores(Image(out), a, NUL);
      assert !SectionStores(coff, s, a, NUL) && !SectionStores(coff, t, a, NUL);
      assert !CoffStores(coff, [s, t], a, NUL);
    }
  }

  /** A list of just two live .text sections loses the first one: none of its bytes is stored
      where the second does not reach. */
  lemma TwoTextsAlone(coff: seq<byte>, s: Section, t: Section, a: int, b: byte)
    requires Sizable([s, t]) && Live(s, Text) && Live(t, Text)
    requires Bytes(coff, s).Success? && Bytes(coff, t).Success?
    requires s.paddr <= a < s.paddr + s.size && !(t.paddr <= a < t.paddr + t.size)
    ensures Converted(coff, [s, t]).Success?
    ensures CoffStores(coff, [s, t], a, coff[s.scnptr + (a - s.paddr)])
    ensures !ImageStores(Image(Converted(coff, [s, t]).value), a, b)
  {
    assert s == [s, t][0] && t == [s, t][1];
    TwoSections(coff, s, t);
    ImageHeader(coff, [s, t]);
    assert SectionStores(coff, [s, t][0], a, coff[s.scnptr + (a - s.paddr)]);
  }

  lemma BssOfTwo(s: Section, t: Section)
    ensures LiveSize([s, t], Bss) == (if Live(s, Bss) then s.size else 0) + (if Live(t, Bss) then t.size else 0)
  {
    LiveSizeStep([], s, Bss);
    LiveSizeStep([s], t, Bss);
    assert [] + [s] == [s] && [s] + [t] == [s, t];
  }

  // Two .bss sections with a gap, and a third that fills it.
  const GAPPED := [Section(".bss", 0, 10, 0), Section(".bss", 15, 5, 0), Section(".sbss", 10, 5, 0)]

  lemma GappedSizes()
    ensures Sizable(GAPPED) && LiveSize(GAPPED, Bss) == 20 && LiveSize(GAPPED[..1], Bss) == 10
  {
    var r, s, t := GAPPED[0], GAPPED[1], GAPPED[2];
    TotalOfThree(r, s, t);
    BssOfTwo(r, s);
    LiveSizeStep([], r, Bss);
    LiveSizeStep([r, s], t, Bss);
    assert [] + [r] == [r] == GAPPED[..1] && [r, s] + [t] == GAPPED;
  }

  lemma GappedFits()
    ensures Disjoint(GAPPED) && BssFits(GAPPED)
  {
    GappedSizes();
    assert FirstLive(GAPPED, 0, Bss);
  }

  /** A third one can fill the gap, and then the program is kept. */
  lemma ThreeBssCanFit(coff: seq<byte>)
    ensures Converted(coff, GAPPED).Success? && Faithful(coff, GAPPED, Image(Converted(coff, GAPPED).value))
  {
    GappedSizes();
    GappedFits();
    TwoSections(coff, GAPPED[0], GAPPED[1]);
    assert GAPPED[..2] == [GAPPED[0], GAPPED[1]];
    FaithfulExactlyWhen(coff, GAPPED);
  }

  lemma TotalOfThree(r: Section, s: Section, t: Section)
    ensures TotalSize([r, s, t]) == r.size + s.size + t.size
  {
    assert [r, s, t][..2] == [r, s] && [r, s][..1] == [r] && [r][..0] == [];
    assert TotalSize([r]) == TotalSize([]) + r.size;
    assert TotalSize([r, s]) == TotalSize([r]) + s.size;
  }

  // ---- the image, by section name and byte position ----

  /** The section has bytes and one of these names. */
  predicate Has(s: Section, names: set<string>) {
    s.size != 0 && s.name in names
  }

  ghost predicate LastOf(sections: seq<Section>, i: int, names: set<string>) {
    && 0 <= i < |sections| && Has(sections[i], names)
    && forall j :: i < j < |sections| ==> !Has(sections[j], names)
  }

  ghost predicate FirstOf(sections: seq<Section>, i: int, names: set<string>) {
    && 0 <= i < |sections| && Has(sections[i], names)
    && forall j :: 0 <= j < i ==> !Has(sections[j], names)
  }

  predicate NoneOf(sections: seq<Section>, names: set<string>) {
    forall i :: 0 <= i < |sections| ==> !Has(sections[i], names)
  }

  function SizeOf(sections: seq<Section>, names: set<string>): int {
    if sections == [] then 0
    else
      var s := sections[|sections| - 1];
      SizeOf(sections[..|sections| - 1], names) + if Has(s, names) then s.size else 0
  }

  function IntAt(image: seq<byte>, at: nat): int
    requires at + 4 <= |image|
  {
    DecodeInt(image[at..at + 4])
  }

  /** The three ints at `at` are the address, position and size of a copy of s in the image. */
  ghost predicate CopyAt(coff: seq<byte>, image: seq<byte>, at: nat, s: Section)
    requires at + 12 <= |image|
  {
    var pos := IntAt(image, at + 4);
    && IntAt(image, at) == s.paddr && IntAt(image, at + 8) == s.size > 0
    && 40 <= pos && pos + s.size <= |image| && 0 <= s.scnptr && s.scnptr + s.size <= |coff|
    && image[pos..pos + s.size] == coff[s.scnptr..s.scnptr + s.size]
  }

  /** The three ints at `at` describe the last section with bytes and one of these names, and the
      size is 0 exactly when there is none. */
  ghost predicate LastCopiedAt(coff: seq<byte>, sections: seq<Section>, image: seq<byte>, at: nat, names: set<string>)
    requires at + 12 <= |image|
  {
    && (IntAt(image, at + 8) == 0 <==> NoneOf(sections, names))
    && forall i :: LastOf(sections, i, names) ==> CopyAt(coff, image, at, sections[i])
  }

  /** The image by section name: the magic number, the code segment from .text, the initialised
      one from .data or .rdata, the uninitialised one from .bss and .sbss. */
  ghost predicate Describes(coff: seq<byte>, sections: seq<Section>, image: seq<byte>) {
    && 40 <= |image|
    && IntAt(image, 0) == 0x00ba_dfad
    && LastCopiedAt(coff, sections, image, 4, {".text"})
    && LastCopiedAt(coff, sections, image, 16, {".data", ".rdata"})
    && IntAt(image, 36) == SizeOf(sections, {".bss", ".sbss"})
    && (IntAt(image, 36) == 0 <==> NoneOf(sections, {".bss", ".sbss"}))
    && (forall i :: FirstOf(sections, i, {".bss", ".sbss"}) ==> IntAt(image, 28) == sections[i].paddr)
    && (forall i :: 0 <= i < |sections| && sections[i].size != 0 ==>
          sections[i].name in {".text", ".data", ".rdata", ".bss", ".sbss"})
  }

  lemma KindsByName(s: Section)
    ensures Live(s, Text) <==> Has(s, {".text"})
    ensures Live(s, Data) <==> Has(s, {".data", ".rdata"})
    ensures Live(s, Bss) <==> Has(s, {".bss", ".sbss"})
    ensures Live(s, Other) <==> s.size != 0 && s.name !in {".text", ".data", ".rdata", ".bss", ".sbss"}
  {
  }

  lemma {:induction false} SizeByName(sections: seq<Section>)
    ensures SizeOf(sections, {".bss", ".sbss"}) == LiveSize(sections, Bss)
  {
    if sections != [] {
      SizeByName(sections[..|sections| - 1]);
      KindsByName(sections[|sections| - 1]);
    }
  }

  lemma SegmentInts(h: Header, g: Segment, at: nat, image: seq<byte>)
    requires IntSegment(g) && |image| >= HEADER_SIZE && at + 12 <= HEADER_SIZE
    requires image[..HEADER_SIZE] == EncodeHeader(h) && EncodeHeader(h)[at..at + 12] == EncodeSegment(g)
    ensures IntAt(image, at) == g.virtualAddr && IntAt(image, at + 4) == g.inFileAddr && IntAt(image, at + 8) == g.size
  {
    var part := EncodeSegment(g);
    assert image[..HEADER_SIZE][at..at + 12] == image[at..at + 12] == part;
    SlicesOf(image, at, part);
    assert part[0..4] == EncodeInt(g.virtualAddr) && part[4..8] == EncodeInt(g.inFileAddr);
    assert part[8..12] == EncodeInt(g.size);
    DecodeEncode(g.virtualAddr);
    DecodeEncode(g.inFileAddr);
    DecodeEncode(g.size);
  }

  lemma SlicesOf(image: seq<byte>, at: nat, part: seq<byte>)
    requires at + 12 <= |image| && image[at..at + 12] == part
    ensures image[at..at + 4] == part[0..4] && image[at + 4..at + 8] == part[4..8]
    ensures image[at + 8..at + 12] == part[8..12]
  {
    SliceOf(image, at, part, 0);
    SliceOf(image, at, part, 4);
    SliceOf(image, at, part, 8);
  }

  lemma SliceOf(image: seq<byte>, at: nat, part: seq<byte>, from: nat)
    requires at + 12 <= |image| && image[at..at + 12] == part && from + 4 <= 12
    ensures image[at + from..at + from + 4] == part[from..from + 4]
  {
    var slice, expected := image[at + from..at + from + 4], part[from..from + 4];
    forall n | 0 <= n < 4 ensures slice[n] == expected[n] {
      assert part[from + n] == image[at + (from + n)];
    }
  }

  lemma HeaderInts(h: Header, image: seq<byte>)
    requires IntSegment(h.code) && IntSegment(h.initData) && IntSegment(h.uninitData)
    requires |image| >= HEADER_SIZE && image[..HEADER_SIZE] == EncodeHeader(h)
    ensures IntAt(image, 0) == 0x00ba_dfad
    ensures IntAt(image, 4) == h.code.virtualAddr && IntAt(image, 8) == h.code.inFileAddr && IntAt(image, 12) == h.code.size
    ensures IntAt(image, 16) == h.initData.virtualAddr && IntAt(image, 20) == h.initData.inFileAddr
    ensures IntAt(image, 24) == h.initData.size
    ensures IntAt(image, 28) == h.uninitData.virtualAddr && IntAt(image, 36) == h.uninitData.size
  {
    var s := EncodeHeader(h);
    assert image[0..4] == s[0..4] == EncodeInt(NOFF_MAGIC);
    DecodeEncode(NOFF_MAGIC);
    assert s[4..16] == EncodeSegment(h.code);
    assert s[16..28] == EncodeSegment(h.initData) && s[28..40] == EncodeSegment(h.uninitData);
    SegmentInts(h, h.code, 4, image);
    SegmentInts(h, h.initData, 16, image);
    SegmentInts(h, h.uninitData, 28, image);
  }

  lemma LastByName(coff: seq<byte>, sections: seq<Section>, out: Output, g: Segment, k: Kind, names: set<string>, at: nat)
    requires forall i :: 0 <= i < |sections| ==> (Live(sections[i], k) <==> Has(sections[i], names))
    requires Backed(coff, sections, out, g, k) && at + 12 <= HEADER_SIZE
    requires IntAt(Image(out), at) == g.virtualAddr && IntAt(Image(out), at + 4) == g.inFileAddr
    requires IntAt(Image(out), at + 8) == g.size
    ensures LastCopiedAt(coff, sections, Image(out), at, names)
  {
    if g.size != 0 {
      var i :| LastLive(sections, i, k) && PlacedAt(coff, sections, out, g, i);
      CopyByName(coff, out, g, at, sections[i]);
      assert Has(sections[i], names);
      forall j | LastOf(sections, j, names) ensures j == i {
        assert Has(sections[j], names);
      }
    }
  }

  lemma CopyByName(coff: seq<byte>, out: Output, g: Segment, at: nat, s: Section)
    requires Copies(coff, out, g, s) && at + 12 <= HEADER_SIZE
    requires IntAt(Image(out), at) == g.virtualAddr && IntAt(Image(out), at + 4) == g.inFileAddr
    requires IntAt(Image(out), at + 8) == g.size
    ensures CopyAt(coff, Image(out), at, s)
  {
    BodyInImage(out, g);
  }

  lemma BodyInImage(out: Output, g: Segment)
    requires HEADER_SIZE <= g.inFileAddr && 0 <= g.size && g.inFileAddr - HEADER_SIZE + g.size <= |out.body|
    ensures g.inFileAddr + g.size <= |Image(out)|
    ensures Image(out)[g.inFileAddr..g.inFileAddr + g.size] ==
            out.body[g.inFileAddr - HEADER_SIZE..g.inFileAddr - HEADER_SIZE + g.size]
  {
  }

  /** Every converting list gives an image that describes its sections by their names. */
  lemma ImageByName(coff: seq<byte>, sections: seq<Section>)
    requires Sizable(sections) && Converted(coff, sections).Success?
    ensures Describes(coff, sections, Image(Converted(coff, sections).value))
  {
    var out := Converted(coff, sections).value;
    HeaderDescribes(coff, sections);
    HeaderIsInts(coff, sections);
    ImageInts(out);
    TextByName(coff, sections, out);
    DataByName(coff, sections, out);
    ZeroByName(sections, out.header.uninitData);
    KnownNames(coff, sections);
  }

  predicate IntHeader(h: Header) {
    IntSegment(h.code) && IntSegment(h.initData) && IntSegment(h.uninitData)
  }

  lemma ImageInts(out: Output)
    requires IntHeader(out.header)
    ensures IntAt(Image(out), 0) == 0x00ba_dfad
    ensures IntAt(Image(out), 28) == out.header.uninitData.virtualAddr && IntAt(Image(out), 36) == out.header.uninitData.size
  {
    assert Image(out)[..HEADER_SIZE] == EncodeHeader(out.header);
    HeaderInts(out.header, Image(out));
  }

  lemma TextByName(coff: seq<byte>, sections: seq<Section>, out: Output)
    requires IntHeader(out.header) && Backed(coff, sections, out, out.header.code, Text)
    ensures LastCopiedAt(coff, sections, Image(out), 4, {".text"})
  {
    assert Image(out)[..HEADER_SIZE] == EncodeHeader(out.header);
    HeaderInts(out.header, Image(out));
    forall i | 0 <= i < |sections| ensures Live(sections[i], Text) <==> Has(sections[i], {".text"}) {
      KindsByName(sections[i]);
    }
    LastByName(coff, sections, out, out.header.code, Text, {".text"}, 4);
  }

  lemma DataByName(coff: seq<byte>, sections: seq<Section>, out: Output)
    requires IntHeader(out.header) && Backed(coff, sections, out, out.header.initData, Data)
    ensures LastCopiedAt(coff, sections, Image(out), 16, {".data", ".rdata"})
  {
    assert Image(out)[..HEADER_SIZE] == EncodeHeader(out.header);
    HeaderInts(out.header, Image(out));
    forall i | 0 <= i < |sections| ensures Live(sections[i], Data) <==> Has(sections[i], {".data", ".rdata"}) {
      KindsByName(sections[i]);
    }
    LastByName(coff, sections, out, out.header.initData, Data, {".data", ".rdata"}, 16);
  }

  lemma ZeroByName(sections: seq<Section>, u: Segment)
    requires Zeroed(sections, u) && forall i :: 0 <= i < |sections| ==> 0 <= sections[i].size
    ensures u.size == SizeOf(sections, {".bss", ".sbss"})
    ensures u.size == 0 <==> NoneOf(sections, {".bss", ".sbss"})
    ensures forall i :: FirstOf(sections, i, {".bss", ".sbss"}) ==> u.virtualAddr == sections[i].paddr
  {
    SizeByName(sections);
    forall i | 0 <= i < |sections| ensures Live(sections[i], Bss) <==> Has(sections[i], {".bss", ".sbss"}) {
      KindsByName(sections[i]);
    }
    if u.size != 0 {
      var i :| FirstLive(sections, i, Bss) && u.virtualAddr == sections[i].paddr;
      forall j | FirstOf(sections, j, {".bss", ".sbss"}) ensures j == i {
      }
    }
  }

  lemma KnownNames(coff: seq<byte>, sections: seq<Section>)
    requires Sizable(sections) && Converted(coff, sections).Success?
    ensures forall i :: 0 <= i < |sections| && sections[i].size != 0 ==>
              sections[i].name in {".text", ".data", ".rdata", ".bss", ".sbss"}
  {
    DataOnce(coff, sections);
    forall i | 0 <= i < |sections| && sections[i].size != 0
      ensures sections[i].name in {".text", ".data", ".rdata", ".bss", ".sbss"}
    {
      assert Acceptable(coff, sections[i]);
      KindsByName(sections[i]);
    }
  }

  /** Section j starts where the .bss and .sbss before it would end, counted from the first. */
  ghost predicate Adjoins(sections: seq<Section>, j: int) {
    && 0 <= j < |sections| && Has(sections[j], {".bss", ".sbss"})
    && exists i :: i < j && FirstOf(sections, i, {".bss", ".sbss"})
         && sections[j].paddr == sections[i].paddr + SizeOf(sections[..j], {".bss", ".sbss"})
  }

  /** Exactly when a section table converts, by section name. */
  lemma ConvertsByName(coff: seq<byte>, sections: seq<Section>)
    requires Sizable(sections)
    ensures Converted(coff, sections).Success? <==>
            && (forall i :: 0 <= i < |sections| && sections[i].size != 0 ==>
                  || (sections[i].name in {".text", ".data", ".rdata"} && sections[i].scnptr + sections[i].size <= |coff|)
                  || sections[i].name in {".bss", ".sbss"})
            && (forall i, j :: 0 <= i < j < |sections| ==>
                  !(Has(sections[i], {".data", ".rdata"}) && Has(sections[j], {".data", ".rdata"})))
            && (forall j :: 0 <= j < |sections| ==> !Adjoins(sections, j))
  {
    ConvertsExactlyWhen(coff, sections);
    forall i | 0 <= i < |sections|
      ensures Acceptable(coff, sections[i]) <==> (sections[i].size != 0 ==>
                  || (sections[i].name in {".text", ".data", ".rdata"} && sections[i].scnptr + sections[i].size <= |coff|)
                  || sections[i].name in {".bss", ".sbss"})
      ensures Live(sections[i], Data) <==> Has(sections[i], {".data", ".rdata"})
    {
      KindsByName(sections[i]);
    }
    forall j | 0 <= j < |sections| ensures Refused(sections, j) <==> Adjoins(sections, j) {
      RefusedByName(sections, j);
    }
  }

  lemma RefusedByName(sections: seq<Section>, j: int)
    requires 0 <= j < |sections|
    ensures Refused(sections, j) <==> Adjoins(sections, j)
  {
    SizeByName(sections[..j]);
    forall i | 0 <= i < |sections| ensures Live(sections[i], Bss) <==> Has(sections[i], {".bss", ".sbss"}) {
      KindsByName(sections[i]);
    }
    forall i ensures FirstLive(sections, i, Bss) <==> FirstOf(sections, i, {".bss", ".sbss"}) {
    }
  }

  /** The first section that does not convert decides the error the program exits with. */
  lemma ErrorByName(coff: seq<byte>, sections: seq<Section>, i: nat)
    requires Sizable(sections) && i < |sections|
    requires Converted(coff, sections[..i]).Success? && Converted(coff, sections[..i + 1]).Failure?
    ensures sections[i].size != 0
    ensures Converted(coff, sections) == Failure(
              if sections[i].name in {".bss", ".sbss"} then BothBssAndSbss
              else if sections[i].name !in {".text", ".data", ".rdata"} then UnknownSegment(sections[i].name)
              else if sections[i].name != ".text" && !NoneOf(sections[..i], {".data", ".rdata"}) then BothDataAndRdata
              else FileTooShort)
  {
    ConvertedNext(coff, sections, i);
    FailureStays(coff, sections, i + 1);
    KindsByName(sections[i]);
    DataSoFar(coff, sections[..i]);
  }

  lemma DataSoFar(coff: seq<byte>, sections: seq<Section>)
    requires Converted(coff, sections).Success? && forall i :: 0 <= i < |sections| ==> 0 <= sections[i].size
    ensures Converted(coff, sections).value.header.initData.size == 0 <==> NoneOf(sections, {".data", ".rdata"})
  {
    HeaderDescribes(coff, sections);
    forall i | 0 <= i < |sections| ensures Live(sections[i], Data) <==> Has(sections[i], {".data", ".rdata"}) {
      KindsByName(sections[i]);
    }
  }

  // ---- the converter ----

  lemma {:induction false} FailureStays(coff: seq<byte>, sections: seq<Section>, i: nat)
    requires i <= |sections| && Converted(coff, sections[..i]).Failure?
    ensures Converted(coff, sections) == Converted(coff, sections[..i])
  {
    if i == |sections| {
      assert sections[..i] == sections;
    } else {
      var init := sections[..|sections| - 1];
      assert init[..i] == sections[..i];
      FailureStays(coff, init, i);
    }
  }

  lemma ConvertedNext(coff: seq<byte>, sections: seq<Section>, i: nat)
    requires i < |sections|
    ensures Converted(coff, sections[..i + 1]) == Then(coff, Converted(coff, sections[..i]), sections[i])
  {
    assert sections[..i + 1][..i] == sections[..i];
  }

  /** The file grows behind the header's place. */
  lemma BehindHeader(file: seq<byte>, bytes: seq<byte>)
    requires HEADER_SIZE <= |file|
    ensures (file + bytes)[HEADER_SIZE..] == file[HEADER_SIZE..] + bytes
  {
  }

  /** One turn of the section loop on the header and the file written so far. */
  method CopySection(coff: seq<byte>, header: Header, before: seq<byte>, s: Section)
      returns (noffH: Header, file: seq<byte>, error: Option<Error>)
    requires HEADER_SIZE <= |before|
    ensures HEADER_SIZE <= |file|
    ensures Step(coff, Output(header, before[HEADER_SIZE..]), s) ==
            if error.Some? then Failure(error.value) else Success(Output(noffH, file[HEADER_SIZE..]))
  {
    noffH, file, error := header, before, None;
    var inNoffFile := |file|;
    if s.size == 0 {
    } else if s.name == ".text" {
      var buffer := Bytes(coff, s);
      if buffer.Failure? {
        return noffH, file, Some(buffer.error);
      }
      noffH := noffH.(code := Segment(s.paddr, inNoffFile, s.size));
      BehindHeader(file, buffer.value);
      file := file + buffer.value;
    } else if s.name == ".data" || s.name == ".rdata" {
      if noffH.initData.size != 0 {
        return noffH, file, Some(BothDataAndRdata);
      }
      var buffer := Bytes(coff, s);
      if buffer.Failure? {
        return noffH, file, Some(buffer.error);
      }
      noffH := noffH.(initData := Segment(s.paddr, inNoffFile, s.size));
      BehindHeader(file, buffer.value);
      file := file + buffer.value;
    } else if s.name == ".bss" || s.name == ".sbss" {
      if noffH.uninitData.size != 0 {
        if s.paddr == noffH.uninitData.virtualAddr + noffH.uninitData.size {
          return noffH, file, Some(BothBssAndSbss);
        }
        noffH := noffH.(uninitData := noffH.uninitData.(size := noffH.uninitData.size + s.size));
      } else {
        noffH := noffH.(uninitData := noffH.uninitData.(virtualAddr := s.paddr, size := s.size));
      }
    } else {
      error := Some(UnknownSegment(s.name));
    }
  }

  /** The program from the section headers on: the image it writes, or the error it exits with. */
  method Convert(coff: seq<byte>, sections: seq<Section>) returns (r: Result<seq<byte>>)
    ensures r == Written(Converted(coff, sections))
    ensures Sizable(sections) && r.Success? ==> Describes(coff, sections, r.value)
  {
    var noffH, file := EMPTY.header, Zeros(HEADER_SIZE);
    assert file[HEADER_SIZE..] == [];
    for i := 0 to |sections|
      invariant HEADER_SIZE <= |file|
      invariant Converted(coff, sections[..i]) == Success(Output(noffH, file[HEADER_SIZE..]))
    {
      ConvertedNext(coff, sections, i);
      var error;
      noffH, file, error := CopySection(coff, noffH, file, sections[i]);
      if error.Some? {
        FailureStays(coff, sections, i + 1);
        return Failure(error.value);
      }
    }
    assert sections[..|sections|] == sections;
    var image := Splice(file, 0, EncodeHeader(noffH));
    assert image == EncodeHeader(noffH) + file[HEADER_SIZE..];
    r := Success(image);
    if Sizable(sections) {
      ImageByName(coff, sections);
    }
  }
}

/** The discovery datagrams on their own bytes: what every received text parses to, what one more
    datagram does to the table a run leaves, and which names an announced list registers. */
module Datagrams {
  import opened Strings
  import opened Tables
  import opened Routing
  import Blocks
  import Figures

  // ---- receiving ----

  /** At most 4095 characters arrive, and they end at the first NUL. */
  lemma ReceivedMeans(datagram: string)
    ensures Received(datagram) == Blocks.CString(if |datagram| <= 4095 then datagram else datagram[..4095])
  {
  }

  lemma ReceivedWhole(msg: string)
    requires |msg| <= 4095 && Blocks.IsCString(msg)
    ensures Received(msg) == msg
  {
    Blocks.CStringUnique(msg, msg);
  }

  // ---- parsing ----

  /** Everything behind the 18 characters "Request: Shutdown " is the name. */
  lemma ShutdownParses(name: string)
    requires Blocks.IsCString(name) && |name| <= 4077
    ensures Parse(Received("Request: Shutdown " + name)) == Shutdown(name)
  {
    var head := "Request: Shutdown ";
    var msg := head + name;
    ReceivedWhole(msg);
    assert head[..17] == "Request: Shutdown";
    assert msg[0..17] == head[..17] && msg[18..] == name;
    assert msg[0..9] == head[0..9] && head[0] == 'R';
    NotAResponse(msg);
  }

  lemma NotAResponse(msg: string)
    requires msg != "" && msg[0] == 'R' && |msg| >= 9 && msg[3] == 'u'
    ensures !StartsWith(msg, "Response:")
  {
    assert msg[0..9][3] == 'u' && "Response:"[3] == 'p';
  }

  /** Without the character behind it, a shutdown is cut. */
  lemma CutShutdownParses()
    ensures Parse(Received("Request: Shutdown")) == Truncated
  {
    var msg := "Request: Shutdown";
    ReceivedWhole(msg);
    assert msg[0..17] == msg;
    NotAResponse(msg);
  }

  /** Exactly which texts are which message. */
  lemma ParsesExactly(msg: string)
    ensures Parse(msg).Truncated? <==> msg == "Request: Shutdown"
    ensures Parse(msg).Shutdown? <==> |msg| >= 18 && msg[..17] == "Request: Shutdown"
    ensures Parse(msg).Shutdown? ==> Parse(msg).server == msg[18..]
    ensures Parse(msg).Announcement? <==> |msg| >= 9 && msg[..9] == "Response:" && TwoPipes(msg[9..])
  {
    StartsExactly(msg, "Response:");
    StartsExactly(msg, "Request: Shutdown");
    if StartsWith(msg, "Response:") {
      PipesFound(msg[9..]);
      assert msg[..9][3] == 'p';
      NotAShutdown(msg);
    } else if |msg| == 17 && msg[..17] == "Request: Shutdown" {
      assert msg == msg[..17];
    }
  }

  lemma StartsExactly(msg: string, p: string)
    ensures StartsWith(msg, p) <==> |msg| >= |p| && msg[..|p|] == p
  {
    assert |msg| >= |p| ==> msg[0..|p|] == msg[..|p|];
  }

  lemma NotAShutdown(msg: string)
    requires |msg| >= 9 && msg[..9][3] == 'p'
    ensures |msg| >= 17 ==> msg[..17] != "Request: Shutdown"
  {
    if |msg| >= 17 {
      assert msg[..17][3] == msg[3] == msg[..9][3] && "Request: Shutdown"[3] == 'u';
    }
  }

  predicate TwoPipes(content: string) {
    exists i, j :: 0 <= i < j < |content| && content[i] == '|' && content[j] == '|'
  }

  lemma PipesFound(content: string)
    ensures ParseAnnouncement(content).Announcement? <==> TwoPipes(content)
  {
    var pipe1 := Find(content, "|", 0);
    var pipe2 := Find(content, "|", pipe1 + 1);
    forall i ensures At(content, i, "|") <==> 0 <= i < |content| && content[i] == '|' {
      assert 0 <= i < |content| ==> content[i..i + 1] == [content[i]];
    }
    if TwoPipes(content) {
      var i, j :| 0 <= i < j < |content| && content[i] == '|' && content[j] == '|';
      assert At(content, i, "|") && At(content, j, "|");
    }
    if pipe1 != -1 && pipe2 != -1 {
      assert At(content, pipe1, "|") && At(content, pipe2, "|");
    }
  }

  /** The fields of an announcement are what stands before, between and behind its first two pipes,
      trimmed; the list may hold more pipes. */
  lemma AnnouncementParses(name: string, ip: string, list: string)
    requires '|' !in name && '|' !in ip
    ensures Parse("Response:" + name + "|" + ip + "|" + list) ==
            Announcement(Trim(name, BLANKS), Trim(ip, BLANKS), Trim(list, BLANKS))
  {
    ParseAnnounce(name, ip, list);
  }

  // ---- trimming and lists, by character ----

  predicate Blank(s: string) {
    forall i :: 0 <= i < |s| ==> s[i] == ' ' || s[i] == '\t'
  }

  /** Empty, or with no space or tab at either end. */
  predicate Bare(s: string) {
    s == "" || (s[0] != ' ' && s[0] != '\t' && s[|s| - 1] != ' ' && s[|s| - 1] != '\t')
  }

  lemma BlanksAre(c: char)
    ensures c in BLANKS <==> c == ' ' || c == '\t'
  {
  }

  /** Trimming takes the spaces and tabs off both ends, and nothing else. */
  lemma TrimMeans(s: string)
    ensures Bare(Trim(s, BLANKS))
    ensures exists before, after :: Blank(before) && Blank(after) && s == before + Trim(s, BLANKS) + after
  {
    var before, after := TrimParts(s, BLANKS);
    assert Blank(before) && Blank(after);
  }

  lemma TrimParts(s: string, blanks: set<char>) returns (before: string, after: string)
    ensures s == before + Trim(s, blanks) + after
    ensures forall i :: 0 <= i < |before| ==> before[i] in blanks
    ensures forall i :: 0 <= i < |after| ==> after[i] in blanks
    ensures Trim(s, blanks) == "" || Tight(Trim(s, blanks), blanks)
  {
    before := TrimLeftPart(s, blanks);
    after := TrimRightPart(TrimLeft(s, blanks), blanks);
    TrimmedIsTight(s, blanks);
    Regroup(s, before, TrimLeft(s, blanks), Trim(s, blanks), after);
  }

  lemma Regroup(s: string, before: string, left: string, t: string, after: string)
    requires s == before + left && left == t + after
    ensures s == before + t + after
  {
  }

  lemma TrimmedIsTight(s: string, blanks: set<char>)
    ensures Trim(s, blanks) == "" || Tight(Trim(s, blanks), blanks)
  {
    TrimRightMeans(TrimLeft(s, blanks), blanks);
  }

  lemma {:induction false} TrimLeftPart(s: string, blanks: set<char>) returns (before: string)
    ensures s == before + TrimLeft(s, blanks)
    ensures forall i :: 0 <= i < |before| ==> before[i] in blanks
  {
    before := "";
    if s != "" && s[0] in blanks {
      before := TrimLeftPart(s[1..], blanks);
      assert s == [s[0]] + s[1..];
      before := [s[0]] + before;
    }
  }

  lemma {:induction false} TrimRightPart(s: string, blanks: set<char>) returns (after: string)
    ensures s == TrimRight(s, blanks) + after
    ensures forall i :: 0 <= i < |after| ==> after[i] in blanks
  {
    after := "";
    if s != "" && s[|s| - 1] in blanks {
      after := TrimRightPart(s[..|s| - 1], blanks);
      assert s == s[..|s| - 1] + [s[|s| - 1]];
      after := after + [s[|s| - 1]];
    }
  }

  /** An announced name as a piece of a list: with spaces and tabs around it. */
  ghost predicate Padded(piece: string, f: string) {
    f != "" && Bare(f) && exists before, after :: Pads(piece, before, f, after)
  }

  predicate Pads(piece: string, before: string, f: string, after: string) {
    Blank(before) && Blank(after) && piece == before + f + after
  }

  lemma {:induction false} TrimLeftPads(before: string, s: string)
    requires Blank(before)
    ensures TrimLeft(before + s, BLANKS) == TrimLeft(s, BLANKS)
  {
    if before == "" {
      assert before + s == s;
    } else {
      assert (before + s)[0] == before[0] && (before + s)[1..] == before[1..] + s;
      TrimLeftPads(before[1..], s);
    }
  }

  lemma {:induction false} TrimRightPads(s: string, after: string)
    requires Blank(after)
    ensures TrimRight(s + after, BLANKS) == TrimRight(s, BLANKS)
  {
    if after == "" {
      assert s + after == s;
    } else {
      var n := |after| - 1;
      assert (s + after)[|s| + n] == after[n] && (s + after)[..|s| + n] == s + after[..n];
      TrimRightPads(s, after[..n]);
    }
  }

  lemma TrimUnpads(before: string, f: string, after: string)
    requires Blank(before) && Blank(after) && f != "" && Bare(f)
    ensures Trim(before + f + after, BLANKS) == f
  {
    assert before + f + after == before + (f + after);
    TrimLeftPads(before, f + after);
    assert (f + after)[0] == f[0];
    TrimRightPads(f, after);
  }

  lemma PaddedExactlyWhen(piece: string, f: string)
    ensures Padded(piece, f) <==> f != "" && Trim(piece, BLANKS) == f
  {
    if Padded(piece, f) {
      var before, after :| Pads(piece, before, f, after);
      TrimUnpads(before, f, after);
    }
    if f != "" && Trim(piece, BLANKS) == f {
      TrimMeans(piece);
      var before, after :| Blank(before) && Blank(after) && piece == before + Trim(piece, BLANKS) + after;
      assert Pads(piece, before, f, after);
    }
  }

  lemma {:induction false} NamedMeans(pieces: seq<string>, f: string)
    ensures f in Named(pieces) <==> f != "" && exists i :: 0 <= i < |pieces| && Trim(pieces[i], BLANKS) == f
  {
    if pieces != [] {
      var n := |pieces| - 1;
      NamedMeans(pieces[..n], f);
      NamedStep(pieces[..n], pieces[n], f);
      assert pieces == pieces[..n] + [pieces[n]];
    }
  }

  lemma NamedStep(init: seq<string>, piece: string, f: string)
    ensures f in Named(init + [piece]) <==> f in Named(init) || (f != "" && Trim(piece, BLANKS) == f)
  {
    assert (init + [piece])[..|init|] == init;
  }

  /** A list registers exactly the names of its comma-separated pieces. */
  lemma ListRegistersExactly(pieces: seq<string>, f: string)
    requires pieces != [] && forall i :: 0 <= i < |pieces| ==> ',' !in pieces[i]
    ensures f in FigureNames(Figures.Join(pieces)) <==> exists i :: 0 <= i < |pieces| && Padded(pieces[i], f)
  {
    SplitInvertsJoin(pieces);
    NamedMeans(pieces, f);
    forall i | 0 <= i < |pieces| ensures Padded(pieces[i], f) <==> f != "" && Trim(pieces[i], BLANKS) == f {
      PaddedExactlyWhen(pieces[i], f);
    }
  }

  /** Every list is its pieces, joined with commas. */
  lemma {:induction false} JoinInvertsSplit(list: string)
    ensures Figures.Join(Split(list, ',')) == list
    decreases |list|
  {
    var first := Before(list, ',');
    SplitUnfolds(list, ',');
    if |first| < |list| {
      var rest := list[|first| + 1..];
      JoinInvertsSplit(rest);
      JoinCons(first, Split(rest, ','));
      Separated(list, first, rest);
    } else {
      assert Figures.Join([list]) == list;
    }
  }

  lemma Separated(list: string, first: string, rest: string)
    requires first == Before(list, ',') && |first| < |list| && rest == list[|first| + 1..]
    ensures list == first + "," + rest
  {
  }

  /** No piece holds a comma. */
  lemma {:induction false} PiecesHaveNoComma(list: string, piece: string)
    requires piece in Split(list, ',')
    ensures ',' !in piece
    decreases |list|
  {
    var first := Before(list, ',');
    SplitUnfolds(list, ',');
    if |first| < |list| && piece != first {
      PiecesHaveNoComma(list[|first| + 1..], piece);
    } else {
      assert |first| == |list| ==> first == list;
    }
  }

  // ---- one more datagram ----

  /** The table a run over these datagrams leaves. */
  function Final(datagrams: seq<string>): Table {
    TableOf(UntilTruncated(ParseAll(datagrams)))
  }

  /** No datagram so far was a shutdown without the character behind it. */
  predicate StillRunning(datagrams: seq<string>) {
    forall i :: 0 <= i < |datagrams| ==> Received(datagrams[i]) != "Request: Shutdown"
  }

  lemma {:induction false} AllHandled(msgs: seq<Message>)
    requires forall i :: 0 <= i < |msgs| ==> !msgs[i].Truncated?
    ensures UntilTruncated(msgs) == msgs
  {
    if msgs != [] {
      AllHandled(msgs[..|msgs| - 1]);
    }
  }

  lemma OneMore(datagrams: seq<string>, datagram: string)
    requires StillRunning(datagrams) && Received(datagram) != "Request: Shutdown"
    ensures Final(datagrams + [datagram]) == After(Final(datagrams), Parse(Received(datagram)))
  {
    var longer := datagrams + [datagram];
    var msgs, more := ParseAll(datagrams), ParseAll(longer);
    forall i | 0 <= i < |longer| ensures !more[i].Truncated? {
      ParsesExactly(Received(longer[i]));
    }
    assert more[..|msgs|] == msgs && more[|msgs|] == Parse(Received(datagram));
    AllHandled(more);
    AllHandled(msgs);
    assert more[..|more| - 1] == msgs;
  }

  /** A shutdown datagram erases exactly the routes to an ip in which the name occurs. */
  lemma ShutdownOverRun(datagrams: seq<string>, name: string, f: string)
    requires StillRunning(datagrams) && Blocks.IsCString(name) && |name| <= 4077
    ensures f in Final(datagrams + ["Request: Shutdown " + name]) <==>
            f in Final(datagrams) && !exists k :: At(Final(datagrams)[f], k, name)
    ensures f in Final(datagrams + ["Request: Shutdown " + name]) ==>
              Final(datagrams + ["Request: Shutdown " + name])[f] == Final(datagrams)[f]
  {
    var datagram := "Request: Shutdown " + name;
    ReceivedWhole(datagram);
    ShutdownParses(name);
    assert |datagram| >= 18 && |"Request: Shutdown"| == 17;
    OneMore(datagrams, datagram);
    if f in Final(datagrams) {
      ContainsExactlyWhen(Final(datagrams)[f], name);
    }
  }

  lemma ContainsExactlyWhen(s: string, p: string)
    ensures Contains(s, p) <==> exists k :: At(s, k, p)
  {
    var i := Find(s, p, 0);
    assert i != -1 ==> At(s, i, p);
    if exists k :: At(s, k, p) {
      var k :| At(s, k, p);
      assert 0 <= k;
    }
  }

  /** An announcement datagram routes exactly its listed figures to its ip and changes no other route. */
  lemma AnnouncementOverRun(datagrams: seq<string>, name: string, ip: string, names: seq<string>, f: string)
    requires StillRunning(datagrams) && '|' !in name && '|' !in ip && Tight(ip, BLANKS) && Listable(names)
    requires var msg := Announce(name, ip, Figures.Join(names)); |msg| <= 4095 && Blocks.IsCString(msg)
    ensures var table := Final(datagrams + [Announce(name, ip, Figures.Join(names))]);
            && (f in table <==> f in names || f in Final(datagrams))
            && (f in table ==> table[f] == if f in names then ip else Final(datagrams)[f])
  {
    var msg := Announce(name, ip, Figures.Join(names));
    ReceivedWhole(msg);
    CatalogueRoundTrip(Final(datagrams), name, ip, names, f);
    ParsesExactly(msg);
    OneMore(datagrams, msg);
  }

  /** Any other datagram changes nothing. */
  lemma IgnoredOverRun(datagrams: seq<string>, datagram: string)
    requires StillRunning(datagrams)
    requires !(|Received(datagram)| >= 17 && Received(datagram)[..17] == "Request: Shutdown")
    requires !(|Received(datagram)| >= 9 && Received(datagram)[..9] == "Response:" && TwoPipes(Received(datagram)[9..]))
    ensures Final(datagrams + [datagram]) == Final(datagrams)
  {
    var msg := Received(datagram);
    ParsesExactly(msg);
    if |msg| == 17 {
      assert msg[..17] == msg;
    }
    OneMore(datagrams, datagram);
  }
}

/** The load balancer's discovery listener: messages, the figure table they drive, and the
    table that any message log leaves. */
module Routing {
  import opened Strings
  import opened Tables
  import Blocks
  import Figures

  const BUFSIZE := 4096
  const BLANKS := {' ', '\t'}

  type Table = map<string, string>   // figure -> ip of the server that has it

  datatype Message =
    | Announcement(name: string, ip: string, list: string)
    | Shutdown(server: string)
    | Truncated                       // "Request: Shutdown" with nothing behind it
    | Ignored

  /** What a received datagram is as a std::string: at most BUFSIZE - 1 characters, up to the first NUL. */
  function Received(datagram: string): string {
    Blocks.CString(if |datagram| < BUFSIZE then datagram else datagram[..BUFSIZE - 1])
  }

  /** The figure names in a list: its comma-separated pieces, trimmed, without empty ones. */
  function FigureNames(list: string): seq<string> {
    Named(Split(list, ','))
  }

  function Named(pieces: seq<string>): seq<string> {
    if pieces == [] then []
    else
      var fig := Trim(pieces[|pieces| - 1], BLANKS);
      Named(pieces[..|pieces| - 1]) + if fig == "" then [] else [fig]
  }

  /** What follows "Response:", cut at the first two pipes. */
  function ParseAnnouncement(content: string): Message {
    var pipe1 := Find(content, "|", 0);
    var pipe2 := Find(content, "|", pipe1 + 1);
    if pipe1 == -1 || pipe2 == -1 then Ignored
    else
      var name, ip, list := content[..pipe1], content[pipe1 + 1..pipe2], content[pipe2 + 1..];
      Announcement(Trim(name, BLANKS), Trim(ip, BLANKS), Trim(list, BLANKS))
  }

  function Parse(msg: string): Message {
    if StartsWith(msg, "Response:") then ParseAnnouncement(msg[9..])
    else if StartsWith(msg, "Request: Shutdown") then
      if |msg| < 18 then Truncated else Shutdown(msg[18..])
    else Ignored
  }

  // ---- the table as a state machine over messages ----

  function Withdraw(t: Table, server: string): Table {
    map f | f in t && !Contains(t[f], server) :: t[f]
  }

  function After(t: Table, m: Message): Table {
    match m
    case Announcement(_, ip, list) => Register(t, FigureNames(list), ip)
    case Shutdown(server) => Withdraw(t, server)
    case Truncated => t
    case Ignored => t
  }

  function TableOf(log: seq<Message>): Table {
    if log == [] then map[] else After(TableOf(log[..|log| - 1]), log[|log| - 1])
  }

  // ---- the same, read off the log ----

  predicate Announces(m: Message, f: string) {
    m.Announcement? && f in FigureNames(m.list)
  }

  predicate Withdraws(m: Message, ip: string) {
    m.Shutdown? && Contains(ip, m.server)
  }

  /** Message i routes f to ip, and nothing after it announces f again or withdraws that ip. */
  ghost predicate Routes(log: seq<Message>, i: int, f: string, ip: string) {
    && 0 <= i < |log|
    && Announces(log[i], f) && log[i].ip == ip
    && forall j :: i < j < |log| ==> !Announces(log[j], f) && !Withdraws(log[j], ip)
  }

  /** The routing table is determined by the log: a figure maps to the ip of the last message
      that announced it, unless a later shutdown names a substring of that ip. */
  lemma {:induction false} TableFromLog(log: seq<Message>, f: string, ip: string)
    ensures f in TableOf(log) && TableOf(log)[f] == ip <==> exists i :: Routes(log, i, f, ip)
  {
    if log != [] {
      var init, m := log[..|log| - 1], log[|log| - 1];
      TableFromLog(init, f, ip);
      LastMessage(init, m, f, ip);
      assert log == init + [m];
    }
  }

  lemma LastMessage(init: seq<Message>, m: Message, f: string, ip: string)
    requires f in TableOf(init) && TableOf(init)[f] == ip <==> exists i :: Routes(init, i, f, ip)
    ensures f in After(TableOf(init), m) && After(TableOf(init), m)[f] == ip <==> exists i :: Routes(init + [m], i, f, ip)
  {
    var log := init + [m];
    if Announces(m, f) {
      RegisterMeans(TableOf(init), FigureNames(m.list), m.ip, f);
      if m.ip == ip {
        assert Routes(log, |init|, f, ip);
      } else {
        forall i ensures !Routes(log, i, f, ip) {
          assert log[|init|] == m;
        }
      }
    } else {
      if m.Announcement? {
        RegisterMeans(TableOf(init), FigureNames(m.list), m.ip, f);
      }
      forall i ensures Routes(log, i, f, ip) <==> Routes(init, i, f, ip) && !Withdraws(m, ip) {
        RoutesLonger(init, m, i, f, ip);
      }
    }
  }

  lemma RoutesLonger(init: seq<Message>, m: Message, i: int, f: string, ip: string)
    requires !Announces(m, f)
    ensures Routes(init + [m], i, f, ip) <==> Routes(init, i, f, ip) && !Withdraws(m, ip)
  {
    var log := init + [m];
    assert log[|init|] == m && forall j :: 0 <= j < |init| ==> log[j] == init[j];
    if Routes(log, i, f, ip) {
      assert i != |init|;
    }
  }

  /** A server that announces itself and then broadcasts its shutdown under its own name loses
      its figures exactly when its name is a substring of its ip. */
  lemma ShutdownByName(t: Table, m: Message, server: string, f: string)
    requires Announces(m, f)
    ensures f in After(After(t, m), Shutdown(server)) <==> !Contains(m.ip, server)
  {
    RegisterMeans(t, FigureNames(m.list), m.ip, f);
  }

  // ---- catalogue round trip ----

  /** The announcement a figure server broadcasts. */
  function Announce(name: string, ip: string, figures: string): string {
    "Response:" + name + "|" + ip + "|" + figures
  }

  predicate Listable(names: seq<string>) {
    forall i :: 0 <= i < |names| ==> Tight(names[i], BLANKS) && ',' !in names[i]
  }

  lemma {:induction false} JoinCons(x: string, rest: seq<string>)
    ensures Figures.Join([x] + rest) == if rest == [] then x else x + "," + Figures.Join(rest)
  {
    if rest == [] {
      assert [x] + rest == [x];
    } else {
      var init, last := rest[..|rest| - 1], rest[|rest| - 1];
      var whole := [x] + rest;
      assert whole[..|whole| - 1] == [x] + init && whole[|whole| - 1] == last;
      JoinCons(x, init);
      if init == [] {
        assert rest == [last];
        assert Figures.Join(whole) == x + "," + last;
      } else {
        assert Figures.Join(rest) == Figures.Join(init) + "," + last;
        assert x + "," + Figures.Join(init) + "," + last == x + "," + (Figures.Join(init) + "," + last);
      }
    }
  }

  lemma {:induction false} JoinTight(names: seq<string>)
    requires Listable(names)
    ensures if names == [] then Figures.Join(names) == "" else Tight(Figures.Join(names), BLANKS)
  {
    if names != [] {
      assert names == [names[0]] + names[1..];
      JoinCons(names[0], names[1..]);
      JoinTight(names[1..]);
    }
  }

  /** Splitting inverts joining. */
  lemma {:induction false} SplitInvertsJoin(names: seq<string>)
    requires names != [] && forall i :: 0 <= i < |names| ==> ',' !in names[i]
    ensures Split(Figures.Join(names), ',') == names
  {
    var x, rest := names[0], names[1..];
    assert names == [x] + rest;
    JoinCons(x, rest);
    BeforeSeparator(x, ',', Figures.Join(rest));
    if rest != [] {
      SplitInvertsJoin(rest);
      assert Figures.Join(names)[|x| + 1..] == Figures.Join(rest);
    }
  }

  lemma {:induction false} NamedTight(names: seq<string>)
    requires Listable(names)
    ensures Named(names) == names
  {
    if names != [] {
      NamedTight(names[..|names| - 1]);
      TrimTight(names[|names| - 1], BLANKS);
    }
  }

  lemma NamesOfJoin(names: seq<string>)
    requires Listable(names)
    ensures FigureNames(Figures.Join(names)) == names
  {
    if names == [] {
      assert Before("", ',') == "";
      assert Named([""]) == Named([]);
    } else {
      SplitInvertsJoin(names);
      NamedTight(names);
    }
  }

  lemma ParseAnnounce(name: string, ip: string, figures: string)
    requires '|' !in name && '|' !in ip
    ensures Parse(Announce(name, ip, figures)) ==
            Announcement(Trim(name, BLANKS), Trim(ip, BLANKS), Trim(figures, BLANKS))
  {
    var msg := Announce(name, ip, figures);
    var content := name + "|" + (ip + "|" + figures);
    assert msg == "Response:" + content;
    assert msg[..9] == "Response:" && msg[9..] == content;
    assert name[0..] == name;
    FindChar(name, '|', ip + "|" + figures, 0);
    var head := name + "|" + ip;
    assert head[|name| + 1..] == ip;
    assert content == head + "|" + figures;
    FindChar(head, '|', figures, |name| + 1);
    assert content[..|name|] == name && content[|name| + 1..|head|] == ip && content[|head| + 1..] == figures;
  }

  /** Announcing a catalogue that fits one datagram routes exactly its figures to the server's
      ip and changes no other route. */
  lemma CatalogueRoundTrip(t: Table, name: string, ip: string, names: seq<string>, f: string)
    requires '|' !in name && '|' !in ip && Tight(ip, BLANKS) && Listable(names)
    requires var msg := Announce(name, ip, Figures.Join(names)); |msg| < BUFSIZE && Blocks.IsCString(msg)
    ensures var msg := Received(Announce(name, ip, Figures.Join(names)));
            && Parse(msg).Announcement? && FigureNames(Parse(msg).list) == names
            && (f in After(t, Parse(msg)) <==> f in names || f in t)
            && (f in After(t, Parse(msg)) ==> After(t, Parse(msg))[f] == if f in names then ip else t[f])
  {
    var msg := Announce(name, ip, Figures.Join(names));
    Blocks.CStringUnique(msg, msg);
    ParseAnnounce(name, ip, Figures.Join(names));
    JoinTight(names);
    TrimTight(Figures.Join(names), BLANKS);
    TrimTight(ip, BLANKS);
    NamesOfJoin(names);
    RegisterMeans(t, names, ip, f);
  }

  // ---- the listener ----

  class Listener {
    var figureMap: Table

    constructor ()
      ensures figureMap == map[]
    {
      figureMap := map[];
    }

    /** The getline loop over an announced list. */
    method RegisterAll(list: string, ip: string)
      modifies this
      ensures figureMap == Register(old(figureMap), FigureNames(list), ip)
    {
      var pieces := Split(list, ',');
      for i := 0 to |pieces|
        invariant figureMap == Register(old(figureMap), Named(pieces[..i]), ip)
      {
        var fig := Trim(pieces[i], BLANKS);
        RegisterPiece(old(figureMap), pieces, i, ip);
        if fig != "" {
          figureMap := figureMap[fig := ip];
        }
      }
      assert pieces[..|pieces|] == pieces;
    }

    /** The erase-while-iterating loop: visits every entry once and erases exactly the ones
        whose ip contains the name. */
    method EraseMatching(server: string)
      modifies this
      ensures figureMap == Withdraw(old(figureMap), server)
    {
      var todo := figureMap.Keys;
      while todo != {}
        invariant todo <= figureMap.Keys <= old(figureMap).Keys
        invariant forall f :: f in figureMap ==> figureMap[f] == old(figureMap)[f]
        invariant forall f :: f in old(figureMap) && f !in todo ==> (f in figureMap <==> !Contains(old(figureMap)[f], server))
        decreases todo
      {
        var f :| f in todo;
        if Contains(figureMap[f], server) {
          figureMap := figureMap - {f};
        }
        todo := todo - {f};
      }
    }

    /** One received message. False is the out_of_range of a truncated shutdown: nothing catches it,
        and it ends the whole process with the table as it was. */
    method Handle(m: Message) returns (ok: bool)
      modifies this
      ensures figureMap == After(old(figureMap), m)
      ensures ok == !m.Truncated?
    {
      match m {
        case Announcement(_, ip, list) => RegisterAll(list, ip);
        case Shutdown(server) => EraseMatching(server);
        case Truncated =>
        case Ignored =>
      }
      ok := !m.Truncated?;
    }
  }

  lemma RegisterPiece(t: Table, pieces: seq<string>, i: nat, ip: string)
    requires i < |pieces|
    ensures var fig, before := Trim(pieces[i], BLANKS), Register(t, Named(pieces[..i]), ip);
            Register(t, Named(pieces[..i + 1]), ip) == if fig == "" then before else before[fig := ip]
  {
    var fig, named, next := Trim(pieces[i], BLANKS), Named(pieces[..i]), pieces[..i + 1];
    assert next[..i] == pieces[..i];
    if fig == "" {
      assert named + [] == named;
    } else {
      assert (named + [fig])[..|named|] == named;
    }
  }

  function ParseAll(datagrams: seq<string>): (msgs: seq<Message>)
    ensures |msgs| == |datagrams|
  {
    seq(|datagrams|, i requires 0 <= i < |datagrams| => Parse(Received(datagrams[i])))
  }

  /** The messages a run of the process works through: those before the first truncated shutdown. */
  function UntilTruncated(msgs: seq<Message>): (log: seq<Message>)
    ensures log <= msgs
    ensures forall i :: 0 <= i < |log| ==> !log[i].Truncated?
    ensures |log| < |msgs| ==> msgs[|log|].Truncated?
  {
    if msgs == [] then []
    else
      var n := |msgs| - 1;
      var init := UntilTruncated(msgs[..n]);
      if |init| < n || msgs[n].Truncated? then init else init + [msgs[n]]
  }

  method HandleAll(msgs: seq<Message>) returns (table: Table)
    ensures table == TableOf(UntilTruncated(msgs))
  {
    var listener := new Listener();
    var ok, i := true, 0;
    while ok && i < |msgs|
      invariant i <= |msgs| && fresh(listener)
      invariant listener.figureMap == TableOf(UntilTruncated(msgs[..i]))
      invariant if ok then |UntilTruncated(msgs[..i])| == i else |UntilTruncated(msgs[..i])| < i
    {
      LogStep(msgs, i);
      ok := listener.Handle(msgs[i]);
      i := i + 1;
    }
    table := listener.figureMap;
    if i < |msgs| {
      LogStopped(msgs, i);
    } else {
      assert msgs[..i] == msgs;
    }
  }

  /** Any run of the listener leaves the table that is read off the log of received datagrams. */
  method Listen(datagrams: seq<string>) returns (table: Table)
    ensures table == TableOf(UntilTruncated(ParseAll(datagrams)))
  {
    var msgs := ParseAll(datagrams);
    table := HandleAll(msgs);
  }

  lemma LogStep(msgs: seq<Message>, i: nat)
    requires i < |msgs| && |UntilTruncated(msgs[..i])| == i
    ensures UntilTruncated(msgs[..i + 1]) == UntilTruncated(msgs[..i]) + if msgs[i].Truncated? then [] else [msgs[i]]
    ensures TableOf(UntilTruncated(msgs[..i + 1])) == After(TableOf(UntilTruncated(msgs[..i])), msgs[i])
  {
    var next, log := msgs[..i + 1], UntilTruncated(msgs[..i]);
    assert next[..i] == msgs[..i];
    var longer := log + [msgs[i]];
    assert longer[..|longer| - 1] == log;
  }

  lemma {:induction false} LogStopped(msgs: seq<Message>, i: nat)
    requires i <= |msgs| && |UntilTruncated(msgs[..i])| < i
    ensures UntilTruncated(msgs) == UntilTruncated(msgs[..i])
  {
    if i == |msgs| {
      assert msgs[..i] == msgs;
    } else {
      var init := msgs[..|msgs| - 1];
      assert init[..i] == msgs[..i];
      LogStopped(init, i);
    }
  }
}

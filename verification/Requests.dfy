/** One request's way through the system: printed by the client, parsed and printed again by
    the load balancer, parsed by the figure server. */
module Requests {
  import opened Options
  import opened Strings
  import Routing

  /** One read of at most BUFSIZE - 1 characters. */
  function Read(s: string): string {
    if |s| < Routing.BUFSIZE then s else s[..Routing.BUFSIZE - 1]
  }

  // ---- client ----

  const CLIENT_TAIL := "HTTP/1.1\r\nHost: localhost\r\n\r\n"

  function ClientRequest(figure: string): string {
    "GET /" + figure + " " + CLIENT_TAIL
  }

  // ---- load balancer ----

  /** The text between the first occurrence of a mark and the next space. */
  function WordAfter(request: string, mark: string): string {
    var pos := Find(request, mark, 0);
    if pos == -1 then ""
    else
      var end := Find(request, " ", pos + |mark|);
      if end == -1 then "" else request[pos + |mark|..end]
  }

  function ParseFigure(request: string): string {
    WordAfter(request, "GET /")
  }

  function ForwardRequest(ip: string, figure: string): string {
    "GET " + ("/GET/" + figure) + " HTTP" + ("/1.1\r\nHost: " + ip + "\r\n\r\n")
  }

  /** The server and the request it is sent, or None for the balancer's own 400 and 404 answers. */
  function Forwarded(t: Routing.Table, request: string): Option<(string, string)> {
    var figure := ParseFigure(request);
    if figure == "" || figure !in t then None else Some((t[figure], ForwardRequest(t[figure], figure)))
  }

  // ---- figure server ----

  datatype Action = ListFigures | Serve(figure: string) | Invalid | NoResponse

  predicate LineEnd(c: char) {
    c == '\r' || c == '\n'
  }

  function WithoutLineEnds(s: string): (r: string)
    ensures |r| <= |s|
  {
    if s == "" then ""
    else if LineEnd(s[0]) then WithoutLineEnds(s[1..])
    else [s[0]] + WithoutLineEnds(s[1..])
  }

  lemma {:induction false} StripMeans(s: string)
    ensures WithoutLineEnds(s) == s <==> '\r' !in s && '\n' !in s
    ensures ' ' in WithoutLineEnds(s) <==> ' ' in s
  {
    if s != "" {
      StripMeans(s[1..]);
      assert s == [s[0]] + s[1..];
    }
  }

  function UrlAction(url: string): Action {
    if url == "/LIST" then ListFigures
    else if StartsWith(url, "/GET/") then Serve(url[5..])
    else if StartsWith(url, "/") then Serve(url[1..])
    else Serve(url)
  }

  /** The text between a verb the request starts with and the first occurrence of a mark. */
  function Between(request: string, verb: string, mark: string): Option<string>
    requires StartsWith(request, verb)
  {
    var end := Find(request, mark, 0);
    if end == -1 then None
    else Some(if end < |verb| then request[|verb|..] else request[|verb|..end])
  }

  function ServerAction(request: string): Action {
    if !StartsWith(request, "GET ") then Invalid
    else
      match Between(request, "GET ", " HTTP")
      case None => NoResponse
      case Some(url) => UrlAction(WithoutLineEnds(url))
  }

  function Erase(s: string, c: char): string {
    if s == "" then "" else (if s[0] == c then "" else [s[0]]) + Erase(s[1..], c)
  }

  lemma {:induction false} EraseBoth(s: string)
    ensures Erase(Erase(s, '\r'), '\n') == WithoutLineEnds(s)
  {
    if s != "" {
      EraseBoth(s[1..]);
      var rest := Erase(s[1..], '\r');
      assert "" + rest == rest;
      assert ([s[0]] + rest)[1..] == rest && "" + Erase(rest, '\n') == Erase(rest, '\n');
    }
  }

  /** The parsing half of the figure server's task. */
  method Task(request: string) returns (action: Action)
    ensures action == ServerAction(request)
  {
    if !StartsWith(request, "GET ") {
      return Invalid;
    }
    var pos2 := Find(request, " HTTP", 0);
    if pos2 == -1 {
      return NoResponse;
    }
    var url := if pos2 < 4 then request[4..] else request[4..pos2];
    EraseBoth(url);
    url := Erase(url, '\r');
    url := Erase(url, '\n');
    if url == "/LIST" {
      return ListFigures;
    }
    var figureName := url;
    if StartsWith(url, "/GET/") {
      figureName := url[5..];
    } else if StartsWith(url, "/") {
      figureName := url[1..];
    }
    action := Serve(figureName);
  }

  // ---- the way through ----

  lemma WordPrinted(mark: string, word: string, tail: string)
    ensures WordAfter(mark + word + [' '] + tail, mark) == Before(word, ' ')
  {
    var request := mark + word + [' '] + tail;
    var g := Before(word, ' ');
    assert request[0..|mark|] == mark;
    FindUnique(request, mark, 0, 0);
    var head := mark + g;
    assert head[|mark|..] == g;
    assert request[..|head|] == head && request[|head|] == ' ';
    var after := request[|head| + 1..];
    assert request == head + [' '] + after;
    FindChar(head, ' ', after, |mark|);
    assert request[|mark|..|head|] == g;
  }

  lemma BalancerParses(figure: string)
    requires |ClientRequest(figure)| < Routing.BUFSIZE
    ensures ParseFigure(Read(ClientRequest(figure))) == Before(figure, ' ')
  {
    WordPrinted("GET /", figure, CLIENT_TAIL);
  }

  lemma MarkFound(verb: string, path: string, mark: string, tail: string)
    requires verb != "" && forall i :: 0 <= i < |verb| - 1 ==> verb[i] != ' '
    requires path != "" && ' ' !in path
    requires |mark| >= 2 && mark[0] == ' ' && mark[1] != path[0]
    ensures Find(verb + path + mark + tail, mark, 0) == |verb| + |path|
  {
    var request, end := verb + path + mark + tail, |verb| + |path|;
    assert request[end..end + |mark|] == mark;
    forall j | 0 <= j < end ensures !At(request, j, mark) {
      var found := request[j..j + |mark|];
      assert found[0] == request[j] && found[1] == request[j + 1];
      assert j >= |verb| ==> request[j] == path[j - |verb|];
    }
    FindUnique(request, mark, 0, end);
  }

  lemma BetweenPrinted(verb: string, path: string, mark: string, tail: string)
    requires verb != "" && forall i :: 0 <= i < |verb| - 1 ==> verb[i] != ' '
    requires path != "" && ' ' !in path
    requires |mark| >= 2 && mark[0] == ' ' && mark[1] != path[0]
    ensures StartsWith(verb + path + mark + tail, verb)
    ensures Between(verb + path + mark + tail, verb, mark) == Some(path)
  {
    var request := verb + path + mark + tail;
    assert request[0..|verb|] == verb;
    MarkFound(verb, path, mark, tail);
    assert request[|verb|..|verb| + |path|] == path;
  }

  lemma StripCons(c: char, s: string)
    ensures WithoutLineEnds([c] + s) == (if LineEnd(c) then "" else [c]) + WithoutLineEnds(s)
  {
    assert ([c] + s)[1..] == s;
  }

  lemma {:induction false} StripDistributes(s: string, t: string)
    ensures WithoutLineEnds(s + t) == WithoutLineEnds(s) + WithoutLineEnds(t)
  {
    if s == "" {
      assert s + t == t;
    } else {
      var c, rest := s[0], s[1..];
      StripDistributes(rest, t);
      assert s == [c] + rest && s + t == [c] + (rest + t);
      StripCons(c, rest);
      StripCons(c, rest + t);
    }
  }

  lemma GetUrl(figure: string)
    ensures UrlAction("/GET/" + figure) == Serve(figure)
  {
    var url := "/GET/" + figure;
    assert url[1] == 'G' && url[5..] == figure && url[0..5] == "/GET/";
  }

  /** A request cut after its first `keep` characters still starts with whatever fits in them. */
  lemma ReadKeeps(head: string, tail: string)
    requires |head| < Routing.BUFSIZE
    ensures exists rest :: Read(head + tail) == head + rest
  {
    var whole := head + tail;
    if |whole| < Routing.BUFSIZE {
      assert Read(whole) == head + tail;
    } else {
      assert Read(whole) == head + whole[|head|..Routing.BUFSIZE - 1];
    }
  }

  lemma GetPath(figure: string)
    ensures UrlAction(WithoutLineEnds("/GET/" + figure)) == Serve(WithoutLineEnds(figure))
  {
    StripDistributes("/GET/", figure);
    StripMeans("/GET/");
    GetUrl(WithoutLineEnds(figure));
  }

  lemma GetParsed(path: string, rest: string)
    requires path != "" && ' ' !in path && path[0] != 'H'
    ensures ServerAction("GET " + path + " HTTP" + rest) == UrlAction(WithoutLineEnds(path))
  {
    BetweenPrinted("GET ", path, " HTTP", rest);
  }

  lemma ServerParses(ip: string, figure: string)
    requires ' ' !in figure && |figure| + 14 < Routing.BUFSIZE
    ensures ServerAction(Read(ForwardRequest(ip, figure))) == Serve(WithoutLineEnds(figure))
  {
    var path, after := "/GET/" + figure, "/1.1\r\nHost: " + ip + "\r\n\r\n";
    assert path[0] == '/' && ' ' !in path;
    ReadKeeps("GET " + path + " HTTP", after);
    var rest :| Read(ForwardRequest(ip, figure)) == "GET " + path + " HTTP" + rest;
    GetParsed(path, rest);
    GetPath(figure);
  }

  /** What reaches a figure server when the client asks for a figure. */
  function Reaches(t: Routing.Table, figure: string): Option<(string, Action)> {
    match Forwarded(t, Read(ClientRequest(figure)))
    case None => None
    case Some((ip, request)) => Some((ip, ServerAction(Read(request))))
  }

  /** A figure known to the balancer is asked of the server it is routed to, under exactly the
      client's name, if and only if that name is not empty and has no space, CR or LF. */
  lemma NameSurvives(t: Routing.Table, figure: string)
    requires figure in t && |ClientRequest(figure)| < Routing.BUFSIZE
    ensures Reaches(t, figure) == Some((t[figure], Serve(figure))) <==>
            figure != "" && ' ' !in figure && '\r' !in figure && '\n' !in figure
  {
    BalancerParses(figure);
    var g := Before(figure, ' ');
    StripMeans(figure);
    StripMeans(g);
    if ' ' !in figure {
      BeforeSeparator(figure, ' ', "");
      if figure != "" {
        ServerParses(t[figure], figure);
      }
    } else if g != "" && g in t {
      ServerParses(t[g], g);
    }
  }

  // ---- what a request asks a figure server for ----

  /** The request the client prints for a list asks for the list. */
  lemma ListAsks(rest: string)
    ensures ServerAction("GET /LIST HTTP" + rest) == ListFigures
  {
    assert "GET /LIST HTTP" + rest == "GET " + "/LIST" + " HTTP" + rest;
    GetParsed("/LIST", rest);
    StripMeans("/LIST");
  }

  /** A path asks for the figure it names. */
  lemma FigureAsks(f: string, rest: string)
    requires ' ' !in f && '\r' !in f && '\n' !in f && f != "LIST" && !(|f| >= 4 && f[..4] == "GET/")
    ensures ServerAction("GET /" + f + " HTTP" + rest) == Serve(f)
  {
    PathAsks("/" + f, rest);
    PlainUrl(f);
    assert "GET " + "/" == "GET /";
    Regroup("GET ", "/", f);
  }

  /** So it does with /GET/ before the name, and then whatever the name is. */
  lemma PrefixedAsks(f: string, rest: string)
    requires ' ' !in f && '\r' !in f && '\n' !in f
    ensures ServerAction("GET /GET/" + f + " HTTP" + rest) == Serve(f)
  {
    PathAsks("/GET/" + f, rest);
    GetUrl(f);
    assert "GET " + "/GET/" == "GET /GET/";
    Regroup("GET ", "/GET/", f);
  }

  lemma Regroup(a: string, b: string, c: string)
    ensures a + b + c == a + (b + c)
  {
  }

  lemma PathAsks(path: string, rest: string)
    requires path != "" && ' ' !in path && '\r' !in path && '\n' !in path && path[0] == '/'
    ensures ServerAction("GET " + path + " HTTP" + rest) == UrlAction(path)
  {
    GetParsed(path, rest);
    StripMeans(path);
  }

  lemma PlainUrl(f: string)
    requires f != "LIST" && !(|f| >= 4 && f[..4] == "GET/")
    ensures UrlAction("/" + f) == Serve(f)
  {
    var url := "/" + f;
    assert url[1..] == f && url[0..1] == "/";
    assert "/LIST"[1..] == "LIST";
    assert "/GET/"[1..5] == "GET/";
    if |f| >= 4 {
      assert url[0..5][1..5] == f[..4];
    }
  }

  /** A name without a slash before it asks for that figure too. */
  lemma BareNameAsks(f: string, rest: string)
    requires f != "" && f[0] != '/' && f[0] != 'H' && ' ' !in f && '\r' !in f && '\n' !in f
    ensures ServerAction("GET " + f + " HTTP" + rest) == Serve(f)
  {
    GetParsed(f, rest);
    StripMeans(f);
    assert "/LIST"[0] == '/' && "/GET/"[0] == '/';
    assert forall p :: StartsWith(f, p) && p != "" ==> f[0..|p|][0] == f[0];
  }

  /** Only requests that start with "GET " are valid. */
  lemma InvalidExactlyWhen(request: string)
    ensures ServerAction(request) == Invalid <==> !(|request| >= 4 && request[..4] == "GET ")
  {
    assert |request| >= 4 ==> request[0..4] == request[..4];
  }

  /** A valid request without " HTTP" gets no response text. */
  lemma NoResponseExactlyWhen(request: string)
    ensures ServerAction(request) == NoResponse <==>
            |request| >= 4 && request[..4] == "GET " && !exists i :: At(request, i, " HTTP")
  {
    InvalidExactlyWhen(request);
    var i := Find(request, " HTTP", 0);
    if exists j :: At(request, j, " HTTP") {
      var j :| At(request, j, " HTTP");
      assert i != -1;
    }
  }

  /** Line ends anywhere in a path have no effect. */
  lemma LineEndsVanish(path: string, more: string, c: char, rest: string)
    requires path != "" && path[0] == '/' && ' ' !in path && ' ' !in more && (c == '\r' || c == '\n')
    ensures ServerAction("GET " + (path + [c] + more) + " HTTP" + rest) ==
            ServerAction("GET " + (path + more) + " HTTP" + rest)
  {
    var long, short := path + [c] + more, path + more;
    assert long[0] == '/' && ' ' !in long && short[0] == '/' && ' ' !in short;
    GetParsed(long, rest);
    GetParsed(short, rest);
    StripDistributes(path + [c], more);
    StripDistributes(path, [c]);
    StripDistributes(path, more);
    assert [c][1..] == "" && WithoutLineEnds([c]) == "";
    assert WithoutLineEnds(path) + "" == WithoutLineEnds(path);
  }

  /** " HTTP" directly behind the verb: the server takes the rest of the request as the path. */
  lemma EmptyPathAsks(rest: string)
    ensures ServerAction("GET HTTP" + rest) == UrlAction(WithoutLineEnds("HTTP" + rest))
  {
    var request := "GET HTTP" + rest;
    assert request[3..8] == " HTTP" && request[0..4] == "GET " && request[4..] == "HTTP" + rest;
    assert forall j :: 0 <= j < 3 && At(request, j, " HTTP") ==> request[j..j + 5][0] == request[j];
    FindUnique(request, " HTTP", 0, 3);
  }

  /** The balancer's parser on any request: the characters between the first "GET /" and the next
      space, and nothing where either is missing. */
  lemma BalancerParsesExactly(before: string, figure: string, after: string)
    requires ' ' !in figure && forall j :: 0 <= j < |before| ==> !At(before + "GET /" + figure + " " + after, j, "GET /")
    ensures ParseFigure(before + "GET /" + figure + " " + after) == figure
  {
    var request, at := before + "GET /" + figure + " " + after, |before|;
    assert request[at..at + 5] == "GET /";
    FindUnique(request, "GET /", 0, at);
    var head := before + "GET /" + figure;
    assert head[at + 5..] == figure && request == head + [' '] + after;
    FindChar(head, ' ', after, at + 5);
    assert request[at + 5..|head|] == figure;
  }

  lemma BalancerFindsNothing(request: string)
    requires (!exists i :: At(request, i, "GET /")) || !exists i :: At(request, i, " ")
    ensures ParseFigure(request) == ""
  {
    var pos := Find(request, "GET /", 0);
    assert pos == -1 || At(request, pos, "GET /");
    if pos != -1 {
      var end := Find(request, " ", pos + 5);
      assert end == -1 || At(request, end, " ");
    }
  }

  /** What one read takes. */
  lemma ReadMeans(s: string)
    ensures Read(s) <= s && |Read(s)| == if |s| <= 4095 then |s| else 4095
  {
  }

  /** What the balancer sends on, and when: the figure's own request, to the server it is routed to. */
  lemma ForwardsExactlyWhen(t: Routing.Table, request: string)
    ensures Forwarded(t, request).Some? <==> ParseFigure(request) != "" && ParseFigure(request) in t
    ensures Forwarded(t, request).Some? ==>
              Forwarded(t, request).value ==
              (t[ParseFigure(request)],
               "GET /GET/" + ParseFigure(request) + " HTTP/1.1\r\nHost: " + t[ParseFigure(request)] + "\r\n\r\n")
  {
    var figure := ParseFigure(request);
    if figure != "" && figure in t {
      ForwardedText(t[figure], figure);
    }
  }

  lemma ForwardedText(ip: string, figure: string)
    ensures ForwardRequest(ip, figure) == "GET /GET/" + figure + " HTTP/1.1\r\nHost: " + ip + "\r\n\r\n"
  {
    var end := "\r\n\r\n";
    assert "GET " + "/GET/" == "GET /GET/" && " HTTP" + "/1.1\r\nHost: " == " HTTP/1.1\r\nHost: ";
    RegroupAll("GET ", "/GET/", figure, " HTTP", "/1.1\r\nHost: ", ip, end);
  }

  lemma RegroupAll(a: string, b: string, c: string, d: string, e: string, f: string, g: string)
    ensures a + (b + c) + d + (e + f + g) == (a + b) + c + (d + e) + f + g
  {
    Regroup(a, b, c);
    Regroup(a + b + c, d, e + f + g);
    Regroup(d, e, f + g);
    Regroup(e, f, g);
    Regroup(a + b + c, d + e, f + g);
    Regroup(a + b + c + (d + e), f, g);
  }
}

/** The fork server's routing table: the regular-expression splitter, the `name | ip | list`
    answer of a figure server, and the routes that a log of answers leaves. */
module RouteTable {
  import opened Strings
  import opened Tables
  import Figures
  import Routing
  import Blocks
  import Volumes

  // \s in the regular expressions
  const SPACES := {' ', '\t', '\n', 11 as char, 12 as char, '\r'}

  datatype Direction = Direction(name: string, ip: string)

  type Table = map<string, Direction>

  // ---- split ----

  /** text[i..j] matches \s*sep\s*, with the separator at k. */
  ghost predicate MatchAt(text: string, sep: char, spaces: set<char>, i: int, k: int, j: int) {
    && 0 <= i <= k < j <= |text| && text[k] == sep
    && (forall n :: i <= n < k ==> SpaceAt(text, spaces, n))
    && (forall n :: k < n < j ==> SpaceAt(text, spaces, n))
  }

  predicate SpaceAt(text: string, spaces: set<char>, n: int) {
    0 <= n < |text| && text[n] in spaces
  }

  ghost predicate Match(text: string, sep: char, spaces: set<char>, i: int, j: int) {
    exists k :: MatchAt(text, sep, spaces, i, k, j)
  }

  /** What a search from `from` finds: the leftmost match, and the longest one there, because the
      repetitions are greedy. */
  ghost predicate Found(text: string, sep: char, spaces: set<char>, from: int, i: int, j: int) {
    && from <= i && Match(text, sep, spaces, i, j)
    && (forall i', j' :: from <= i' < i ==> !Match(text, sep, spaces, i', j'))
    && (forall j' :: j < j' ==> !Match(text, sep, spaces, i, j'))
  }

  /** The pieces of text[from..] between successive matches, which the token iterator visits. */
  ghost predicate Pieces(text: string, sep: char, spaces: set<char>, from: int, pieces: seq<string>)
    decreases |pieces|
  {
    && 0 <= from <= |text| && pieces != []
    && if |pieces| == 1 then pieces[0] == text[from..] && forall i, j :: from <= i ==> !Match(text, sep, spaces, i, j)
       else exists i, j :: Cut(text, sep, spaces, from, i, j, pieces[0]) && Pieces(text, sep, spaces, j, pieces[1..])
  }

  ghost predicate Cut(text: string, sep: char, spaces: set<char>, from: int, i: int, j: int, piece: string) {
    0 <= from <= i <= |text| && Found(text, sep, spaces, from, i, j) && piece == text[from..i]
  }

  /** The pieces, computed: the first separator with the spaces around it is the next match. */
  function Tokens(text: string, sep: char): (t: seq<string>)
    ensures |t| > 0
    decreases |text|
  {
    var first := Before(text, sep);
    if |first| == |text| then [text]
    else [TrimRight(first, SPACES)] + Tokens(TrimLeft(text[|first| + 1..], SPACES), sep)
  }

  lemma FoundAround(text: string, sep: char, spaces: set<char>, from: int, i: int, k: int, j: int)
    requires sep !in spaces && 0 <= from <= i && MatchAt(text, sep, spaces, i, k, j)
    requires sep !in text[from..k]
    requires (i == from || !SpaceAt(text, spaces, i - 1)) && !SpaceAt(text, spaces, j)
    ensures Found(text, sep, spaces, from, i, j)
  {
    assert !SpaceAt(text, spaces, k);
    forall i', j' | from <= i' < i ensures !Match(text, sep, spaces, i', j') {
      forall k' ensures !MatchAt(text, sep, spaces, i', k', j') {
        assert from <= k' < k ==> text[from..k][k' - from] == text[k'];
      }
    }
    forall j' | j < j' ensures !Match(text, sep, spaces, i, j') {
      forall k' ensures !MatchAt(text, sep, spaces, i, k', j') {
        assert from <= k' < k ==> text[from..k][k' - from] == text[k'];
      }
    }
  }

  lemma {:induction false} TokensArePieces(text: string, sep: char, from: nat, rest: string)
    requires sep !in SPACES && from <= |text| && rest == text[from..]
    ensures Pieces(text, sep, SPACES, from, Tokens(rest, sep))
    decreases |text| - from
  {
    var first := Before(rest, sep);
    FirstSeparator(text, sep, from, rest, first);
    if |first| == |rest| {
      TokensEnd(rest, sep);
      NothingToCut(text, sep, SPACES, from);
    } else {
      var left, right := TrimRight(first, SPACES), TrimLeft(text[from + |first| + 1..], SPACES);
      CutRight(text, SPACES, from + |first|, right);
      TokensArePieces(text, sep, |text| - |right|, right);
      TokensStep(text, sep, from, rest, first);
      PiecesGoOn(text, sep, SPACES, from, first, left, right, Tokens(right, sep));
    }
  }

  lemma PiecesGoOn(text: string, sep: char, spaces: set<char>, from: nat, first: string, left: string, right: string,
                   pieces: seq<string>)
    requires sep !in spaces && Separates(text, sep, from, first)
    requires from + |first| < |text| && text[from + |first|] == sep
    requires left == TrimRight(first, spaces) && right == TrimLeft(text[from + |first| + 1..], spaces)
    requires |right| <= |text| && Pieces(text, sep, spaces, |text| - |right|, pieces)
    ensures Pieces(text, sep, spaces, from, [left] + pieces)
  {
    NextCut(text, sep, spaces, from, from + |first|, first, left, right);
    OneMorePiece(text, sep, spaces, from, from + |left|, |text| - |right|, left, pieces);
  }

  lemma FirstSeparator(text: string, sep: char, from: nat, rest: string, first: string)
    requires from <= |text| && rest == text[from..] && first == Before(rest, sep)
    ensures Separates(text, sep, from, first)
    ensures |first| < |rest| ==> text[from + |first|] == sep
  {
  }

  /** `first` is what stands before the next separator, or all of the rest. */
  ghost predicate Separates(text: string, sep: char, from: nat, first: string) {
    from + |first| <= |text| && first == text[from..from + |first|] && sep !in first
  }

  lemma TokensEnd(text: string, sep: char)
    requires |Before(text, sep)| == |text|
    ensures Tokens(text, sep) == [text]
  {
  }

  lemma TokensStep(text: string, sep: char, from: nat, rest: string, first: string)
    requires from <= |text| && rest == text[from..] && first == Before(rest, sep) && |first| < |rest|
    ensures Tokens(rest, sep) == [TrimRight(first, SPACES)] + Tokens(TrimLeft(text[from + |first| + 1..], SPACES), sep)
  {
    TokensUnfold(rest, sep);
    assert rest[|first| + 1..] == text[from + |first| + 1..];
  }

  lemma TokensUnfold(text: string, sep: char)
    requires |Before(text, sep)| < |text|
    ensures Tokens(text, sep) ==
            [TrimRight(Before(text, sep), SPACES)] + Tokens(TrimLeft(text[|Before(text, sep)| + 1..], SPACES), sep)
  {
  }

  lemma NothingToCut(text: string, sep: char, spaces: set<char>, from: nat)
    requires from <= |text| && sep !in text[from..]
    ensures Pieces(text, sep, spaces, from, [text[from..]])
  {
    forall i, j | from <= i ensures !Match(text, sep, spaces, i, j) {
      forall k ensures !MatchAt(text, sep, spaces, i, k, j) {
        assert from <= k < |text| ==> text[from..][k - from] == text[k];
      }
    }
  }

  lemma OneMorePiece(text: string, sep: char, spaces: set<char>, from: int, i: int, j: int, piece: string, pieces: seq<string>)
    requires Cut(text, sep, spaces, from, i, j, piece) && Pieces(text, sep, spaces, j, pieces)
    ensures Pieces(text, sep, spaces, from, [piece] + pieces)
  {
    var all := [piece] + pieces;
    assert all[0] == piece && all[1..] == pieces;
    assert Pieces(text, sep, spaces, j, all[1..]);
  }

  /** The spaces behind a separator at k. */
  lemma CutRight(text: string, spaces: set<char>, k: nat, right: string)
    requires k < |text| && right == TrimLeft(text[k + 1..], spaces)
    ensures k < |text| - |right| && right == text[|text| - |right|..]
    ensures forall n :: k < n < |text| - |right| ==> SpaceAt(text, spaces, n)
    ensures !SpaceAt(text, spaces, |text| - |right|)
  {
    var tail := text[k + 1..];
    TrimLeftMeans(tail, spaces);
    assert forall n :: k < n < |text| ==> text[n] == tail[n - k - 1];
  }

  /** The spaces before a separator. */
  lemma CutLeft(text: string, spaces: set<char>, from: nat, k: nat, first: string, left: string)
    requires from <= k <= |text| && first == text[from..k] && left == TrimRight(first, spaces)
    ensures from + |left| <= k && left == text[from..from + |left|]
    ensures forall n :: from + |left| <= n < k ==> SpaceAt(text, spaces, n)
    ensures left != "" ==> !SpaceAt(text, spaces, from + |left| - 1)
  {
    TrimRightMeans(first, spaces);
    assert forall n :: from <= n < k ==> text[n] == first[n - from];
    assert left == first[..|left|];
  }

  /** The separator behind `first`, with the spaces around it, is the next match. */
  lemma NextCut(text: string, sep: char, spaces: set<char>, from: nat, k: nat, first: string, left: string, right: string)
    requires sep !in spaces && from <= k < |text| && text[k] == sep && first == text[from..k] && sep !in first
    requires left == TrimRight(first, spaces) && right == TrimLeft(text[k + 1..], spaces)
    ensures |right| <= |text| && Cut(text, sep, spaces, from, from + |left|, |text| - |right|, left)
  {
    CutLeft(text, spaces, from, k, first, left);
    CutRight(text, spaces, k, right);
    CutAround(text, sep, spaces, from, from + |left|, k, |text| - |right|, left);
  }

  lemma CutAround(text: string, sep: char, spaces: set<char>, from: int, i: int, k: int, j: int, piece: string)
    requires sep !in spaces && 0 <= from <= i <= k < j <= |text| && text[k] == sep && piece == text[from..i]
    requires sep !in text[from..k]
    requires forall n :: i <= n < k ==> SpaceAt(text, spaces, n)
    requires forall n :: k < n < j ==> SpaceAt(text, spaces, n)
    requires (i == from || !SpaceAt(text, spaces, i - 1)) && !SpaceAt(text, spaces, j)
    ensures Cut(text, sep, spaces, from, i, j, piece)
  {
    assert MatchAt(text, sep, spaces, i, k, j);
    FoundAround(text, sep, spaces, from, i, k, j);
  }

  /** There is only one way to cut a text. */
  lemma {:induction false} PiecesUnique(text: string, sep: char, spaces: set<char>, from: int, p: seq<string>, q: seq<string>)
    requires Pieces(text, sep, spaces, from, p) && Pieces(text, sep, spaces, from, q)
    ensures p == q
    decreases |p|
  {
    if |p| > 1 && |q| > 1 {
      var i, j :| Cut(text, sep, spaces, from, i, j, p[0]) && Pieces(text, sep, spaces, j, p[1..]);
      var i', j' :| Cut(text, sep, spaces, from, i', j', q[0]) && Pieces(text, sep, spaces, j', q[1..]);
      assert i == i' && j == j';
      PiecesUnique(text, sep, spaces, j, p[1..], q[1..]);
      assert p == [p[0]] + p[1..] && q == [q[0]] + q[1..];
    }
  }

  /** The non-empty pieces between the matches of \s*sep\s*. */
  method SplitRegex(text: string, sep: char) returns (result: seq<string>)
    requires sep !in SPACES
    ensures forall pieces :: Pieces(text, sep, SPACES, 0, pieces) ==> result == NonEmpty(pieces)
    ensures result == NonEmpty(Tokens(text, sep))
  {
    var tokens := Tokens(text, sep);
    TokensArePieces(text, sep, 0, text);
    result := [];
    for i := 0 to |tokens|
      invariant result == NonEmpty(tokens[..i])
    {
      assert tokens[..i + 1][..i] == tokens[..i];
      if tokens[i] != "" {
        result := result + [tokens[i]];
      }
    }
    assert tokens[..|tokens|] == tokens;
    forall pieces | Pieces(text, sep, SPACES, 0, pieces) ensures result == NonEmpty(pieces) {
      PiecesUnique(text, sep, SPACES, 0, tokens, pieces);
    }
  }

  // ---- routes ----

  /** What an answer of a figure server says; anything but three fields says nothing. */
  datatype Answer = Answer(sender: Direction, figures: seq<string>) | Malformed

  function Parsed(response: string): Answer {
    var fields := NonEmpty(Tokens(response, '|'));
    if |fields| != 3 then Malformed
    else Answer(Direction(fields[0], fields[1]), NonEmpty(Tokens(fields[2], ',')))
  }

  function After(t: Table, a: Answer): Table {
    if a.Malformed? then t else Register(t, a.figures, a.sender)
  }

  /** The table after one answer. */
  function Routed(t: Table, response: string): Table {
    After(t, Parsed(response))
  }

  /** \s matches the blank and the characters 9 to 13. */
  lemma SpacesAre(c: char)
    ensures c in SPACES <==> c == ' ' || 9 <= c as int <= 13
  {
  }

  /** An answer says something exactly when it has three pieces that are not empty: its sender and,
      in the third, the figures. */
  lemma ParsedExactlyWhen(response: string, pieces: seq<string>)
    requires Pieces(response, '|', SPACES, 0, pieces)
    ensures Parsed(response).Answer? <==> |NonEmpty(pieces)| == 3
    ensures Parsed(response).Answer? ==> Parsed(response).sender == Direction(NonEmpty(pieces)[0], NonEmpty(pieces)[1])
    ensures Parsed(response).Answer? ==> forall list :: Pieces(NonEmpty(pieces)[2], ',', SPACES, 0, list) ==>
              Parsed(response).figures == NonEmpty(list)
  {
    TokensArePieces(response, '|', 0, response);
    PiecesUnique(response, '|', SPACES, 0, Tokens(response, '|'), pieces);
    if |NonEmpty(pieces)| == 3 {
      var third := NonEmpty(pieces)[2];
      TokensArePieces(third, ',', 0, third);
      forall list | Pieces(third, ',', SPACES, 0, list) ensures Parsed(response).figures == NonEmpty(list) {
        PiecesUnique(third, ',', SPACES, 0, Tokens(third, ','), list);
      }
    }
  }

  /** Any other number of pieces leaves every route as it was. */
  lemma OtherAnswersChangeNothing(t: Table, response: string, pieces: seq<string>)
    requires Pieces(response, '|', SPACES, 0, pieces) && |NonEmpty(pieces)| != 3
    ensures Routed(t, response) == t
  {
    ParsedExactlyWhen(response, pieces);
  }

  function TableOf(log: seq<Answer>): Table {
    if log == [] then map[] else After(TableOf(log[..|log| - 1]), log[|log| - 1])
  }

  lemma TableAfter(log: seq<Answer>, a: Answer)
    ensures TableOf(log + [a]) == After(TableOf(log), a)
  {
    assert (log + [a])[..|log|] == log;
  }

  predicate Lists(a: Answer, f: string) {
    a.Answer? && f in a.figures
  }

  /** Answer i lists f for d, and no later answer lists f. */
  ghost predicate Routes(log: seq<Answer>, i: int, f: string, d: Direction) {
    && 0 <= i < |log| && Lists(log[i], f) && log[i].sender == d
    && forall j :: i < j < |log| ==> !Lists(log[j], f)
  }

  /** The table is determined by the answers received: a figure is routed to the sender of the
      last answer that lists it, and a figure no answer lists is not routed. */
  lemma {:induction false} TableFromAnswers(log: seq<Answer>, f: string, d: Direction)
    ensures f in TableOf(log) && TableOf(log)[f] == d <==> exists i :: Routes(log, i, f, d)
    ensures f !in TableOf(log) <==> forall i :: 0 <= i < |log| ==> !Lists(log[i], f)
  {
    if log != [] {
      var init, last := log[..|log| - 1], log[|log| - 1];
      TableFromAnswers(init, f, d);
      AfterMeans(TableOf(init), last, f);
      LastAnswer(init, last, f, d);
      assert log == init + [last];
      assert forall i :: 0 <= i < |init| ==> log[i] == init[i];
    }
  }

  lemma AfterMeans(t: Table, a: Answer, f: string)
    ensures f in After(t, a) <==> Lists(a, f) || f in t
    ensures f in After(t, a) ==> After(t, a)[f] == if Lists(a, f) then a.sender else t[f]
  {
    if a.Answer? {
      RegisterMeans(t, a.figures, a.sender, f);
    }
  }

  lemma LastAnswer(init: seq<Answer>, last: Answer, f: string, d: Direction)
    requires f in TableOf(init) && TableOf(init)[f] == d <==> exists i :: Routes(init, i, f, d)
    ensures f in After(TableOf(init), last) && After(TableOf(init), last)[f] == d <==>
            exists i :: Routes(init + [last], i, f, d)
  {
    var log, n := init + [last], |init|;
    assert log[n] == last;
    AfterMeans(TableOf(init), last, f);
    if Lists(last, f) {
      RoutesLonger(init, last, n, f, d);
    }
    forall i ensures Routes(log, i, f, d) <==> if Lists(last, f) then i == n && last.sender == d else Routes(init, i, f, d) {
      RoutesLonger(init, last, i, f, d);
    }
  }

  lemma RoutesLonger(init: seq<Answer>, last: Answer, i: int, f: string, d: Direction)
    ensures Routes(init + [last], i, f, d) <==>
            if Lists(last, f) then i == |init| && last.sender == d else Routes(init, i, f, d)
  {
    var log, n := init + [last], |init|;
    assert log[n] == last && forall j :: 0 <= j < n ==> log[j] == init[j];
  }

  class ForkServer {
    var tabla: Table
    ghost var log: seq<Answer>   // every answer received

    ghost predicate Valid()
      reads this
    {
      tabla == TableOf(log)
    }

    constructor ()
      ensures Valid() && log == []
    {
      tabla := map[];
      log := [];
    }

    method AddRoute(fullResponse: string)
      requires Valid()
      modifies this
      ensures Valid() && log == old(log) + [Parsed(fullResponse)]
      ensures forall pieces :: Pieces(fullResponse, '|', SPACES, 0, pieces) && |NonEmpty(pieces)| != 3 ==> tabla == old(tabla)
    {
      var campos := SplitRegex(fullResponse, '|');
      if |campos| == 3 {
        var figuras := SplitRegex(campos[2], ',');
        RegisterAll(figuras, Direction(campos[0], campos[1]));
      }
      TableAfter(log, Parsed(fullResponse));
      log := log + [Parsed(fullResponse)];
    }

    method RegisterAll(figuras: seq<string>, t: Direction)
      modifies `tabla
      ensures tabla == Register(old(tabla), figuras, t)
    {
      for i := 0 to |figuras|
        invariant tabla == Register(old(tabla), figuras[..i], t)
      {
        assert figuras[..i + 1][..i] == figuras[..i];
        tabla := tabla[figuras[i] := t];
      }
      assert figuras[..|figuras|] == figuras;
    }

    /** The sender of the last answer that listed the figure, if any did. */
    method SearchRoute(clave: string) returns (found: bool, resultado: Direction)
      requires Valid()
      ensures found ==> exists i :: Routes(log, i, clave, resultado)
      ensures !found ==> forall i :: 0 <= i < |log| ==> !Lists(log[i], clave)
    {
      found := clave in tabla;
      resultado := if found then tabla[clave] else Direction("", "");
      TableFromAnswers(log, clave, resultado);
    }
  }

  // ---- the figure server's answer ----

  function Response(name: string, ip: string, figures: string): string {
    name + " | " + ip + " | " + figures
  }

  predicate Plain(s: string) {
    Tight(s, SPACES) && '|' !in s
  }

  predicate Routable(names: seq<string>) {
    forall i :: 0 <= i < |names| ==> Plain(names[i]) && ',' !in names[i]
  }

  lemma TrimRightSpace(s: string)
    requires Tight(s, SPACES)
    ensures TrimRight(s + " ", SPACES) == s
  {
    assert (s + " ")[..|s|] == s;
    TrimTight(s, SPACES);
  }

  lemma TrimLeftSpace(s: string)
    requires s == "" || s[0] !in SPACES
    ensures TrimLeft(" " + s, SPACES) == s
  {
    assert (" " + s)[1..] == s;
  }

  lemma FieldSplit(field: string, rest: string)
    requires Plain(field) && (rest == "" || rest[0] !in SPACES)
    ensures Tokens(field + " | " + rest, '|') == [field] + Tokens(rest, '|')
  {
    var text := field + " | " + rest;
    assert text == (field + " ") + ['|'] + (" " + rest);
    BeforeSeparator(field + " ", '|', " " + rest);
    assert text[|field| + 2..] == " " + rest;
    TrimRightSpace(field);
    TrimLeftSpace(rest);
  }

  lemma WholeToken(s: string, sep: char)
    requires sep !in s
    ensures Tokens(s, sep) == [s]
  {
    BeforeSeparator(s, sep, "");
  }

  lemma {:induction false} JoinedHasNo(names: seq<string>, c: char)
    requires c != ',' && forall i :: 0 <= i < |names| ==> c !in names[i]
    ensures c !in Figures.Join(names)
  {
    if |names| > 1 {
      JoinedHasNo(names[..|names| - 1], c);
    }
  }

  lemma {:induction false} JoinedIsTight(names: seq<string>)
    requires names != [] && Routable(names)
    ensures Tight(Figures.Join(names), SPACES)
  {
    if |names| == 1 {
      assert names == [names[0]] && Figures.Join(names) == names[0];
    } else {
      var init, last := names[..|names| - 1], names[|names| - 1];
      JoinedIsTight(init);
      var joined := Figures.Join(names);
      assert joined == Figures.Join(init) + [','] + last;
      assert joined[0] == Figures.Join(init)[0] && joined[|joined| - 1] == last[|last| - 1];
    }
  }

  lemma {:induction false} TokensOfJoin(names: seq<string>)
    requires names != [] && Routable(names)
    ensures Tokens(Figures.Join(names), ',') == names
  {
    var x, rest := names[0], names[1..];
    assert names == [x] + rest;
    Routing.JoinCons(x, rest);
    if rest == [] {
      WholeToken(x, ',');
    } else {
      TokensOfJoin(rest);
      JoinedIsTight(rest);
      BeforeSeparator(x, ',', Figures.Join(rest));
      TrimTight(x, SPACES);
      TrimTight(Figures.Join(rest), SPACES);
      assert Figures.Join(names)[|x| + 1..] == Figures.Join(rest);
    }
  }

  lemma ResponseTokens(name: string, ip: string, list: string)
    requires Plain(name) && Plain(ip) && '|' !in list && (list == "" || Tight(list, SPACES))
    ensures Tokens(Response(name, ip, list), '|') == [name, ip, list]
  {
    var rest := ip + " | " + list;
    assert Response(name, ip, list) == name + " | " + rest;
    FieldSplit(name, rest);
    FieldSplit(ip, list);
    WholeToken(list, '|');
  }

  lemma ResponseFields(name: string, ip: string, list: string)
    requires Plain(name) && Plain(ip) && '|' !in list && (list == "" || Tight(list, SPACES))
    ensures NonEmpty(Tokens(Response(name, ip, list), '|')) == [name, ip] + if list == "" then [] else [list]
  {
    ResponseTokens(name, ip, list);
    ThreeNonEmpty(name, ip, list);
  }

  lemma ThreeNonEmpty(a: string, b: string, c: string)
    requires a != "" && b != ""
    ensures NonEmpty([a, b, c]) == [a, b] + if c == "" then [] else [c]
  {
    assert [a, b, c][..2] == [a, b] && [a, b][..1] == [a] && [a][..0] == [];
    assert NonEmpty([a]) == NonEmpty([]) + [a];
    assert NonEmpty([a, b]) == NonEmpty([a]) + [b];
  }

  lemma ThreeFields(t: Table, response: string, name: string, ip: string, list: string, names: seq<string>)
    requires NonEmpty(Tokens(response, '|')) == [name, ip] + [list] && NonEmpty(Tokens(list, ',')) == names
    ensures Routed(t, response) == Register(t, names, Direction(name, ip))
  {
    assert ([name, ip] + [list])[2] == list;
  }

  lemma AnswerRouted(t: Table, name: string, ip: string, names: seq<string>)
    requires Plain(name) && Plain(ip) && Routable(names)
    ensures Routed(t, Response(name, ip, Figures.Join(names))) == Register(t, names, Direction(name, ip))
  {
    var list := Figures.Join(names);
    JoinedHasNo(names, '|');
    if names == [] {
      ResponseFields(name, ip, list);
    } else {
      JoinedIsTight(names);
      ResponseFields(name, ip, list);
      TokensOfJoin(names);
      NoneEmpty(names);
      ThreeFields(t, Response(name, ip, list), name, ip, list, names);
    }
  }

  /** The splitter inverts the joiner: registering a printed answer routes exactly the listed
      names to that server and leaves every other route alone. An empty catalogue prints as two
      fields and registers nothing. */
  lemma RouteRoundTrip(t: Table, name: string, ip: string, names: seq<string>, f: string)
    requires Plain(name) && Plain(ip) && Routable(names)
    ensures f in Routed(t, Response(name, ip, Figures.Join(names))) <==> f in names || f in t
    ensures f in Routed(t, Response(name, ip, Figures.Join(names))) ==>
              Routed(t, Response(name, ip, Figures.Join(names)))[f] == if f in names then Direction(name, ip) else t[f]
  {
    AnswerRouted(t, name, ip, names);
    RegisterMeans(t, names, Direction(name, ip), f);
  }

  // ---- the catalogue of a linked-block file system ----

  function NamesIn(table: seq<Volumes.Inode>): seq<string> {
    seq(|table|, i requires 0 <= i < |table| => Blocks.CString(table[i].filename))
  }

  /** list_file: the non-empty file names in table order, joined with commas. */
  method ListFile(table: seq<Volumes.Inode>) returns (result: string)
    ensures result == Figures.Join(NonEmpty(NamesIn(table)))
  {
    var names := NamesIn(table);
    result := "";
    for i := 0 to |table|
      invariant result == Figures.Join(NonEmpty(names[..i]))
      invariant result == "" <==> NonEmpty(names[..i]) == []
    {
      var name := Blocks.CString(table[i].filename);
      assert names[i] == name;
      OneMoreListed(names, i);
      if name != "" {
        if result != "" {
          result := result + [','];
        }
        assert "" + name == name;
        result := result + name;
      }
    }
    assert names[..|table|] == names;
  }

  lemma OneMoreListed(names: seq<string>, i: nat)
    requires i < |names|
    ensures NonEmpty(names[..i + 1]) == if names[i] == "" then NonEmpty(names[..i]) else NonEmpty(names[..i]) + [names[i]]
    ensures names[i] != "" ==>
              Figures.Join(NonEmpty(names[..i + 1])) ==
              if NonEmpty(names[..i]) == [] then names[i] else Figures.Join(NonEmpty(names[..i])) + [','] + names[i]
  {
    assert names[..i + 1][..i] == names[..i];
    var before := NonEmpty(names[..i]);
    assert before + [] == before;
    if names[i] != "" {
      var longer := before + [names[i]];
      assert longer[..|before|] == before && longer[|before|] == names[i];
    }
  }

  /** A figure server whose files have routable names is registered with exactly its files. */
  lemma StoredFilesAreRouted(v: Volumes.Volume, l: Volumes.Layout, t: Table, name: string, ip: string, f: string)
    requires Volumes.Inv(v, l) && Plain(name) && Plain(ip)
    requires forall n :: n in l.files && n != "" ==> Plain(n) && ',' !in n
    ensures Register(t, NonEmpty(NamesIn(v.table)), Direction(name, ip)) ==
            Routed(t, Response(name, ip, Figures.Join(NonEmpty(NamesIn(v.table)))))
    ensures f in Register(t, NonEmpty(NamesIn(v.table)), Direction(name, ip)) <==> (f in l.files && f != "") || f in t
    ensures f in l.files && f != "" ==> Register(t, NonEmpty(NamesIn(v.table)), Direction(name, ip))[f] == Direction(name, ip)
  {
    var names := NamesIn(v.table);
    assert names == l.order by {
      forall k | 0 <= k < |v.table| ensures names[k] == l.order[k] {
        assert v.table[k] == Volumes.Entry(l, k);
      }
    }
    forall n ensures n in NonEmpty(names) <==> n in l.files && n != "" {
      NonEmptyMembers(names, n);
    }
    forall i | 0 <= i < |NonEmpty(names)| ensures Plain(NonEmpty(names)[i]) && ',' !in NonEmpty(names)[i] {
      assert NonEmpty(names)[i] in NonEmpty(names);
    }
    AnswerRouted(t, name, ip, NonEmpty(names));
    RegisterMeans(t, NonEmpty(names), Direction(name, ip), f);
  }
}

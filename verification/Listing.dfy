/** LISTALL: the naming server's encoding of every server's paths in one string, and the client's
    parser of that string. */
module Listing {
  import opened Text
  import Elements

  /** printf's %d for a number that is not negative. */
  function Decimal(n: nat): (s: string)
    ensures s != []
  {
    if n < 10 then [('0' as int + n) as char] else Decimal(n / 10) + [('0' as int + n % 10) as char]
  }

  lemma {:induction false} DecimalDigits(n: nat)
    ensures forall i :: 0 <= i < |Decimal(n)| ==> '0' <= Decimal(n)[i] <= '9'
    ensures n > 0 ==> Decimal(n)[0] != '0'
  {
    if n >= 10 {
      DecimalDigits(n / 10);
    }
  }

  /** The number that digits denote, read from the left. */
  function NumberOf(s: string): int {
    if s == "" then 0 else 10 * NumberOf(s[..|s| - 1]) + (s[|s| - 1] as int - '0' as int)
  }

  /** The text of a number denotes it, and it is the only one that does without a leading zero. */
  lemma {:induction false} DecimalDenotes(s: string, n: nat)
    requires forall i :: 0 <= i < |s| ==> '0' <= s[i] <= '9'
    ensures s == Decimal(n) <==> NumberOf(s) == n && s != "" && (s[0] == '0' ==> s == "0")
    decreases |s|
  {
    if |s| == 1 {
      assert s[..0] == "" && NumberOf(s) == s[0] as int - '0' as int;
      assert NumberOf(s) == n ==> Decimal(n) == [s[0]];
    } else if |s| > 1 {
      var r, c := s[..|s| - 1], s[|s| - 1];
      DecimalDenotes(r, n / 10);
      assert s == r + [c];
      DigitMore(r, c, n);
    }
  }

  lemma {:induction false} DigitMore(r: string, c: char, n: nat)
    requires r != "" && '0' <= c <= '9'
    requires r == Decimal(n / 10) <==> NumberOf(r) == n / 10 && (r[0] == '0' ==> r == "0")
    ensures r + [c] == Decimal(n) <==> NumberOf(r + [c]) == n && r[0] != '0'
  {
    var d := c as int - '0' as int;
    assert (r + [c])[..|r|] == r && NumberOf(r + [c]) == 10 * NumberOf(r) + d;
    assert r == "0" ==> NumberOf(r) == 0 by {
      assert "0"[..0] == "";
    }
    assert 10 * NumberOf(r) + d == n <==> NumberOf(r) == n / 10 && d == n % 10;
    assert n < 10 ==> |Decimal(n)| == 1 && n / 10 == 0;
    assert n >= 10 ==> (r + [c] == Decimal(n) <==> r == Decimal(n / 10) && d == n % 10) by {
      if n >= 10 {
        AppendedDigit(r, c, Decimal(n / 10), ('0' as int + n % 10) as char);
      }
    }
    DecimalDigits(n / 10);
  }

  lemma {:induction false} AppendedDigit(r: string, c: char, u: string, e: char)
    ensures r + [c] == u + [e] <==> r == u && c == e
  {
    assert (r + [c])[..|r + [c]| - 1] == r && (u + [e])[..|u + [e]| - 1] == u;
    assert (r + [c])[|r + [c]| - 1] == c && (u + [e])[|u + [e]| - 1] == e;
  }

  /** What the client prints: a server's number, or a path. */
  datatype Event = Server(number: string) | Path(path: string)

  /** A text without the characters that the encoding gives a meaning. */
  ghost predicate Plain(s: string) {
    '*' !in s && '$' !in s && NUL !in s
  }

  /** The paths of one server, each after a dollar sign. */
  function Paths(paths: seq<string>): string {
    if paths == [] then [] else ['$'] + paths[0] + Paths(paths[1..])
  }

  /** The servers from number `k + 1` on, each ended by a star. */
  function Blocks(servers: seq<seq<string>>, k: nat): string
    requires k <= |servers|
    decreases |servers| - k
  {
    if k == |servers| then [] else Decimal(k + 1) + Paths(servers[k]) + ['*'] + Blocks(servers, k + 1)
  }

  /** The naming server's LISTALL branch: builds the response by appending. */
  method Encode(servers: seq<seq<string>>) returns (response: string)
    requires |servers| <= Elements.MAX_STORAGE_SERVERS
    ensures response == Suffix(servers, 0)
  {
    response := [];
    response := response + ['*'];
    var i := 0;
    while i < |servers|
      invariant 0 <= i <= |servers|
      invariant response + Blocks(servers, i) == ['*'] + Blocks(servers, 0)
    {
      ghost var r0 := response;
      response := response + Decimal(i + 1);
      var j := 0;
      while j < |servers[i]|
        invariant 0 <= j <= |servers[i]|
        invariant response + Paths(servers[i][j..]) == r0 + Decimal(i + 1) + Paths(servers[i])
      {
        assert servers[i][j..][1..] == servers[i][j + 1..];
        response := response + ['$'];
        response := response + servers[i][j];
        j := j + 1;
      }
      assert servers[i][j..] == [] && response == r0 + Decimal(i + 1) + Paths(servers[i]);
      response := response + ['*'];
      BlockAdded(servers, i, r0, response);
      i := i + 1;
    }
  }

  lemma {:induction false} BlockAdded(servers: seq<seq<string>>, i: nat, r0: string, r1: string)
    requires i < |servers| && r1 == r0 + Decimal(i + 1) + Paths(servers[i]) + ['*']
    ensures r1 + Blocks(servers, i + 1) == r0 + Blocks(servers, i)
  {
    var d, p, b := Decimal(i + 1), Paths(servers[i]), Blocks(servers, i + 1);
    assert r0 + d + p + ['*'] + b == r0 + (d + p + ['*'] + b);
  }

  /** How far a server number reaches: to a dollar sign or the end. */
  function LabelLength(t: string): (n: nat)
    ensures n <= |t| && (n < |t| ==> t[n] == '$')
  {
    if t == [] || t[0] == '$' then 0 else 1 + LabelLength(t[1..])
  }

  /** How far a path reaches: to a dollar sign, a star or the end. */
  function PathLength(t: string): (n: nat)
    ensures n <= |t| && (n < |t| ==> t[n] == '$' || t[n] == '*')
  {
    if t == [] || t[0] == '$' || t[0] == '*' then 0 else 1 + PathLength(t[1..])
  }

  /** What one iteration of the parser does to the text `t` that is left: how much it consumes,
      what it prints, and whether it stops. */
  datatype Iteration = Iteration(consumed: nat, events: seq<Event>, stop: bool)

  function Star(t: string): (r: Iteration)
    requires t != []
    ensures r.consumed <= |t|
  {
    if t[0] != '*' then Iteration(0, [], false)
    else if |t| == 1 then Iteration(1, [], true)
    else
      var n := LabelLength(t[1..]);
      Iteration(1 + n, [Server(t[1..][..n])], false)
  }

  function Body(t: string): (r: Iteration)
    requires t != []
    ensures r.consumed <= |t|
  {
    var a := Star(t);
    var u := t[a.consumed..];
    if a.stop || u == [] || u[0] != '$' then a
    else
      var n := PathLength(u[1..]);
      Iteration(a.consumed + 1 + n, a.events + [Path(u[1..][..n])], false)
  }

  /** At a star, a dollar sign or the end. */
  predicate AtMark(t: string) {
    t == [] || t[0] == '*' || t[0] == '$'
  }

  /** An iteration that starts at a mark moves on and ends at a mark. */
  lemma {:induction false} BodyAdvances(t: string)
    requires t != [] && AtMark(t)
    ensures Body(t).consumed > 0 && AtMark(t[Body(t).consumed..])
  {
    var a := Star(t);
    var u := t[a.consumed..];
    if u != [] && u[0] == '$' {
      var n := PathLength(u[1..]);
      assert t[Body(t).consumed..] == u[1..][n..];
    }
  }

  /** An iteration that starts anywhere else changes nothing: the loop would spin. */
  lemma {:induction false} BodyStuck(t: string)
    requires !AtMark(t)
    ensures Body(t) == Iteration(0, [], false)
  {
  }

  /** Everything the parser prints for a text that starts at a mark; an iteration that moves
      nowhere ends the recursion. */
  function Parse(t: string): seq<Event>
    decreases |t|
  {
    if t == [] then []
    else
      var r := Body(t);
      if r.stop || r.consumed == 0 then r.events else r.events + Parse(t[r.consumed..])
  }

  /** The text left after `k` iterations, whatever the text. */
  function After(t: string, k: nat): string {
    if k == 0 || t == [] then t else After(t[Body(t).consumed..], k - 1)
  }

  /** The client's parser comes to the end of a response exactly when the response is empty or
      starts with a star or a dollar sign, however malformed the rest is. */
  lemma {:induction false} ParserTerminatesExactly(t: string)
    ensures (exists k :: After(t, k) == []) <==> AtMark(t)
  {
    if AtMark(t) {
      Finishes(t, |t|);
    } else {
      forall k ensures After(t, k) == t {
        Spins(t, k);
      }
    }
  }

  lemma {:induction false} Finishes(t: string, k: nat)
    requires AtMark(t) && |t| <= k
    ensures After(t, k) == []
    decreases k
  {
    if t != [] {
      var u := NextMark(t, k);
      Finishes(u, k - 1);
    }
  }

  lemma {:induction false} NextMark(t: string, k: nat) returns (u: string)
    requires t != [] && AtMark(t) && k > 0
    ensures AtMark(u) && |u| < |t| && After(t, k) == After(u, k - 1)
  {
    BodyAdvances(t);
    u := t[Body(t).consumed..];
  }

  lemma {:induction false} Spins(t: string, k: nat)
    requires !AtMark(t)
    ensures After(t, k) == t
    decreases k
  {
    if k > 0 {
      BodyStuck(t);
      assert t[0..] == t;
      Spins(t, k - 1);
    }
  }

  lemma {:induction false} ParseStep(t: string, rest: string)
    requires t != [] && AtMark(t) && !Body(t).stop && rest == t[Body(t).consumed..]
    ensures AtMark(rest) && |rest| < |t| && Parse(t) == Body(t).events + Parse(rest)
  {
    BodyAdvances(t);
  }

  /** The parse loop of clientListAll, on a response that starts at a mark. */
  method ClientListAll(response: string) returns (events: seq<Event>)
    requires AtMark(response)
    ensures events == Parse(response)
  {
    events := [];
    var i := 0;
    ghost var t, all := response, Parse(response);
    assert [] + all == all && response[0..] == response;
    while i < |response|
      invariant 0 <= i <= |response| && t == response[i..] && AtMark(t)
      invariant events + Parse(t) == all
      decreases |t|
    {
      var printed, stop;
      ghost var before := events;
      i, printed, stop := ListOne(response, i, t);
      events := events + printed;
      if stop {
        return;
      }
      t := NextText(response, i, t, before, printed, all);
    }
    assert t == [] && Parse(t) == [];
  }

  lemma {:induction false} NextText(response: string, i: nat, t: string, before: seq<Event>, printed: seq<Event>,
                                    all: seq<Event>)
    returns (rest: string)
    requires i <= |response| && t != [] && AtMark(t) && !Body(t).stop && printed == Body(t).events
    requires response[i..] == t[Body(t).consumed..] && before + Parse(t) == all
    ensures rest == response[i..] && AtMark(rest) && |rest| < |t| && before + printed + Parse(rest) == all
  {
    rest := response[i..];
    ParseStep(t, rest);
    EventsAssociate(before, printed, Parse(rest), Parse(t));
  }

  /** The second half of an iteration. */
  lemma {:induction false} PathConsumed(t: string, u: string)
    requires t != [] && !Star(t).stop && u == t[Star(t).consumed..] && u != [] && u[0] == '$'
    ensures var n := PathLength(u[1..]);
      && Body(t) == Iteration(Star(t).consumed + 1 + n, Star(t).events + [Path(u[1..][..n])], false)
      && t[Body(t).consumed..] == u[1..][n..]
  {
    DropTwice(u, 1, PathLength(u[1..]));
    DropTwice(t, Star(t).consumed, 1 + PathLength(u[1..]));
  }

  /** One iteration of the parse loop. */
  method ListOne(response: string, i0: nat, ghost t: string) returns (i: nat, events: seq<Event>, stop: bool)
    requires i0 < |response| && t == response[i0..]
    ensures i == i0 + Body(t).consumed <= |response| && events == Body(t).events && stop == Body(t).stop
    ensures response[i..] == t[Body(t).consumed..]
  {
    ghost var u;
    i, events, stop, u := ListStar(response, i0, t);
    if !stop && i < |response| && response[i] == '$' {
      assert response[i + 1..] == u[1..];
      var path;
      path, i := ReadPath(response, i + 1, u[1..]);
      events := events + [Path(path)];
      PathConsumed(t, u);
    }
  }

  /** The first half of an iteration: a server number, if there is one. */
  method ListStar(response: string, i0: nat, ghost t: string)
    returns (i: nat, events: seq<Event>, stop: bool, ghost u: string)
    requires i0 < |response| && t == response[i0..]
    ensures i == i0 + Star(t).consumed <= |response| && events == Star(t).events && stop == Star(t).stop
    ensures u == t[Star(t).consumed..] == response[i..]
  {
    i, events, stop, u := i0, [], false, t;
    if response[i] == '*' {
      i := i + 1;
      u := t[1..];
      assert response[i..] == u;
      if i == |response| {
        stop := true;
        return;
      }
      var number;
      number, i := ReadLabel(response, i, u);
      events := [Server(number)];
      u := response[i..];
    }
  }

  method ReadLabel(response: string, i0: nat, ghost t: string) returns (number: string, i: nat)
    requires i0 <= |response| && t == response[i0..]
    ensures i == i0 + LabelLength(t) <= |response| && number == t[..LabelLength(t)]
    ensures response[i..] == t[LabelLength(t)..]
  {
    number, i := [], i0;
    ghost var u := t;
    while i < |response| && response[i] != '$'
      invariant i0 <= i <= |response| && number == t[..i - i0] && u == response[i..] == t[i - i0..]
      invariant i + LabelLength(u) == i0 + LabelLength(t)
    {
      assert u[0] == response[i] && u[1..] == response[i + 1..];
      number := number + [response[i]];
      i := i + 1;
      u := u[1..];
    }
  }

  method ReadPath(response: string, i0: nat, ghost t: string) returns (path: string, i: nat)
    requires i0 <= |response| && t == response[i0..]
    ensures i == i0 + PathLength(t) <= |response| && path == t[..PathLength(t)] && response[i..] == t[PathLength(t)..]
  {
    path, i := [], i0;
    ghost var u := t;
    while i < |response| && response[i] != '$' && response[i] != '*'
      invariant i0 <= i <= |response| && path == t[..i - i0] && u == response[i..] == t[i - i0..]
      invariant i + PathLength(u) == i0 + PathLength(t)
    {
      assert u[0] == response[i] && u[1..] == response[i + 1..];
      path := path + [response[i]];
      i := i + 1;
      u := u[1..];
    }
  }

  function PathEvents(paths: seq<string>): seq<Event> {
    if paths == [] then [] else [Path(paths[0])] + PathEvents(paths[1..])
  }

  /** What the client should print for the servers from number `k + 1` on. */
  function Expected(servers: seq<seq<string>>, k: nat): seq<Event>
    requires k <= |servers|
    decreases |servers| - k
  {
    if k == |servers| then [] else [Server(Decimal(k + 1))] + PathEvents(servers[k]) + Expected(servers, k + 1)
  }

  lemma {:induction false} LabelLengthAt(number: string, rest: string)
    requires '$' !in number && (rest == [] || rest[0] == '$')
    ensures LabelLength(number + rest) == |number|
  {
    if number == [] {
      assert number + rest == rest;
    } else {
      LabelLengthAt(number[1..], rest);
      assert (number + rest)[1..] == number[1..] + rest;
    }
  }

  lemma {:induction false} PathLengthAt(path: string, rest: string)
    requires '$' !in path && '*' !in path && AtMark(rest)
    ensures PathLength(path + rest) == |path|
  {
    if path == [] {
      assert path + rest == rest;
    } else {
      PathLengthAt(path[1..], rest);
      assert (path + rest)[1..] == path[1..] + rest;
    }
  }

  lemma {:induction false} BodyOfPath(path: string, rest: string, t: string)
    requires Plain(path) && AtMark(rest) && t == ['$'] + path + rest
    ensures Body(t) == Iteration(1 + |path|, [Path(path)], false) && t[1 + |path|..] == rest
  {
    PathLengthAt(path, rest);
    assert t[0..] == t && t[1..] == path + rest;
    assert t[1..][..|path|] == path;
  }

  /** A path after a dollar sign is read back. */
  lemma {:induction false} ParsePath(path: string, rest: string, t: string)
    requires Plain(path) && AtMark(rest) && t == ['$'] + path + rest
    ensures AtMark(t) && Parse(t) == [Path(path)] + Parse(rest)
  {
    BodyOfPath(path, rest, t);
    ParseStep(t, rest);
  }

  lemma {:induction false} PathsCons(paths: seq<string>, rest: string)
    requires paths != []
    ensures Paths(paths) + rest == ['$'] + paths[0] + (Paths(paths[1..]) + rest)
  {
  }

  lemma {:induction false} EventsAssociate(a: seq<Event>, b: seq<Event>, c: seq<Event>, bc: seq<Event>)
    requires bc == b + c
    ensures a + bc == a + b + c
  {
  }

  lemma {:induction false} ParsePaths(paths: seq<string>, rest: string)
    requires (forall j :: 0 <= j < |paths| ==> Plain(paths[j])) && AtMark(rest)
    ensures AtMark(Paths(paths) + rest)
    ensures Parse(Paths(paths) + rest) == PathEvents(paths) + Parse(rest)
  {
    if paths == [] {
      assert Paths(paths) + rest == rest;
    } else {
      var more := Paths(paths[1..]) + rest;
      ParsePaths(paths[1..], rest);
      PathsCons(paths, rest);
      ParsePath(paths[0], more, Paths(paths) + rest);
      EventsAssociate([Path(paths[0])], PathEvents(paths[1..]), Parse(rest), Parse(more));
    }
  }

  lemma {:induction false} StarOfServer(number: string, u: string, t: string)
    requires '$' !in number && u != [] && u[0] == '$' && t == ['*'] + number + u
    ensures Star(t) == Iteration(1 + |number|, [Server(number)], false) && t[1 + |number|..] == u
  {
    LabelLengthAt(number, u);
    assert t[1..] == number + u && t[1..][..|number|] == number;
  }

  /** A server number with its first path is read back. */
  lemma {:induction false} ParseServer(number: string, path: string, rest: string, t: string)
    requires '$' !in number && Plain(path) && AtMark(rest)
    requires t == ['*'] + number + (['$'] + path + rest)
    ensures AtMark(t) && Parse(t) == [Server(number), Path(path)] + Parse(rest)
  {
    var u := ['$'] + path + rest;
    StarOfServer(number, u, t);
    BodyAfterStar(t, Star(t), u, path, rest);
    assert [Server(number)] + [Path(path)] == [Server(number), Path(path)];
    ParseStep(t, rest);
  }

  /** An iteration that reads a server number goes on with the path behind it. */
  lemma {:induction false} BodyAfterStar(t: string, a: Iteration, u: string, path: string, rest: string)
    requires t != [] && a == Star(t) && !a.stop && t[a.consumed..] == u == ['$'] + path + rest
    requires Plain(path) && AtMark(rest)
    ensures Body(t) == Iteration(a.consumed + 1 + |path|, a.events + [Path(path)], false)
    ensures t[a.consumed + 1 + |path|..] == rest
  {
    PathLengthAt(path, rest);
    assert u[1..] == path + rest && u[1..][..|path|] == path;
    assert u[1 + |path|..] == rest;
    DropTwice(t, a.consumed, 1 + |path|);
  }

  lemma {:induction false} DropTwice(t: string, m: nat, n: nat)
    requires m + n <= |t|
    ensures t[m..][n..] == t[m + n..]
  {
  }

  ghost predicate AllPlain(servers: seq<seq<string>>) {
    forall i, j :: 0 <= i < |servers| && 0 <= j < |servers[i]| ==> Plain(servers[i][j])
  }

  lemma {:induction false} ParseNumbered(number: string, paths: seq<string>, rest: string, t: string)
    requires '$' !in number && paths != [] && AtMark(rest)
    requires forall j :: 0 <= j < |paths| ==> Plain(paths[j])
    requires t == ['*'] + number + (Paths(paths) + rest)
    ensures AtMark(t) && Parse(t) == [Server(number)] + PathEvents(paths) + Parse(rest)
  {
    var more := Paths(paths[1..]) + rest;
    ParsePaths(paths[1..], rest);
    PathsCons(paths, rest);
    ParseServer(number, paths[0], more, t);
    EventsRegroup(Server(number), Path(paths[0]), PathEvents(paths[1..]), Parse(rest), Parse(more), Parse(t));
  }

  lemma {:induction false} EventsRegroup(a: Event, b: Event, c: seq<Event>, d: seq<Event>, cd: seq<Event>,
                                         abcd: seq<Event>)
    requires cd == c + d && abcd == [a, b] + cd
    ensures abcd == [a] + ([b] + c) + d
  {
  }

  /** A server without paths is read wrong: its star is taken for part of its number. */
  lemma {:induction false} ParseUnnumbered(number: string, rest: string, t: string)
    requires '$' !in number && rest != [] && rest[0] == '*' && t == ['*'] + number + rest
    ensures AtMark(t) && Parse(t) != [] && Parse(t)[0].Server? && '*' in Parse(t)[0].number
  {
    assert t[1..] == number + rest;
    LabelPassesStar(number, rest);
    var n := LabelLength(t[1..]);
    assert t[1..][..n][|number|] == '*';
    assert Star(t) == Iteration(1 + n, [Server(t[1..][..n])], false);
    assert Body(t).events[0] == Server(t[1..][..n]) && !Body(t).stop;
    ParseStep(t, t[Body(t).consumed..]);
  }

  /** The text of one block of the encoding, after the star in front of it. */
  lemma {:induction false} BlockText(servers: seq<seq<string>>, k: nat)
    requires k < |servers|
    ensures ['*'] + Blocks(servers, k) ==
      ['*'] + Decimal(k + 1) + (Paths(servers[k]) + (['*'] + Blocks(servers, k + 1)))
  {
  }

  lemma {:induction false} LabelPassesStar(number: string, rest: string)
    requires '$' !in number && rest != [] && rest[0] == '*'
    ensures LabelLength(number + rest) > |number|
  {
    if number == [] {
      assert number + rest == rest;
    } else {
      LabelPassesStar(number[1..], rest);
      assert (number + rest)[1..] == number[1..] + rest;
    }
  }

  /** The encoding of the servers from number `k + 1` on, as the parser meets it. */
  function Suffix(servers: seq<seq<string>>, k: nat): string
    requires k <= |servers|
  {
    ['*'] + Blocks(servers, k)
  }

  lemma {:induction false} PathsOfOne(path: string)
    ensures Paths([path]) == "$" + path
  {
    assert [path][1..] == [] && Paths([]) == "";
  }

  /** The text for two servers: a star, then for each its number, each path after a dollar sign, and a
      star. */
  lemma {:induction false} TextOfTwo(a: string, b: string, c: string)
    ensures Suffix([[a], [b, c]], 0) == "*1$" + a + "*2$" + b + "$" + c + "*"
  {
    var servers := [[a], [b, c]];
    PathsOfOne(a);
    PathsOfOne(c);
    assert [b, c][1..] == [c];
    assert Decimal(1) == "1" && Decimal(2) == "2";
    assert Blocks(servers, 2) == "";
    assert Blocks(servers, 1) == "2" + ("$" + b + ("$" + c)) + "*";
    assert Blocks(servers, 0) == "1" + ("$" + a) + "*" + Blocks(servers, 1);
  }

  lemma {:induction false} RoundTripBlock(servers: seq<seq<string>>, k: nat)
    requires k < |servers| && forall j :: 0 <= j < |servers[k]| ==> Plain(servers[k][j])
    ensures Parse(Suffix(servers, k)) == Expected(servers, k)
      <==> servers[k] != [] && Parse(Suffix(servers, k + 1)) == Expected(servers, k + 1)
  {
    var number, paths, rest := Decimal(k + 1), servers[k], Suffix(servers, k + 1);
    DecimalDigits(k + 1);
    BlockText(servers, k);
    RoundTripStep(number, paths, rest, Suffix(servers, k), Expected(servers, k + 1));
    assert Expected(servers, k) == [Server(number)] + PathEvents(paths) + Expected(servers, k + 1);
  }

  ghost predicate AllListed(servers: seq<seq<string>>, k: nat)
    requires k <= |servers|
  {
    forall i :: k <= i < |servers| ==> servers[i] != []
  }

  lemma {:induction false} RoundTripFrom(servers: seq<seq<string>>, k: nat)
    requires AllPlain(servers) && k <= |servers|
    ensures Parse(Suffix(servers, k)) == Expected(servers, k) <==> AllListed(servers, k)
    decreases |servers| - k
  {
    if k == |servers| {
      ParseStar(Suffix(servers, k));
    } else {
      RoundTripBlock(servers, k);
      RoundTripFrom(servers, k + 1);
      assert AllListed(servers, k) <==> servers[k] != [] && AllListed(servers, k + 1);
    }
  }

  lemma {:induction false} ParseStar(t: string)
    requires t == ['*']
    ensures Parse(t) == []
  {
  }

  lemma {:induction false} RoundTripStep(number: string, paths: seq<string>, rest: string, t: string,
                                         expected: seq<Event>)
    requires '$' !in number && '*' !in number && rest != [] && rest[0] == '*'
    requires forall j :: 0 <= j < |paths| ==> Plain(paths[j])
    requires t == ['*'] + number + (Paths(paths) + rest)
    ensures Parse(t) == [Server(number)] + PathEvents(paths) + expected <==> paths != [] && Parse(rest) == expected
  {
    if paths == [] {
      assert Paths(paths) + rest == rest;
      ParseUnnumbered(number, rest, t);
    } else {
      ParseNumbered(number, paths, rest, t);
      SameAfterPrefix([Server(number)] + PathEvents(paths), Parse(rest), expected);
    }
  }

  lemma {:induction false} SameAfterPrefix(p: seq<Event>, a: seq<Event>, b: seq<Event>)
    ensures p + a == p + b <==> a == b
  {
    if p + a == p + b {
      assert a == (p + a)[|p|..] && b == (p + b)[|p|..];
    }
  }

  /** LISTALL round trip: when no path contains a star, a dollar sign or a NUL, the client prints
      exactly the numbered servers with their paths, in order, if and only if every server has at
      least one path. For no servers it prints none. */
  lemma {:induction false} ListingRoundTrip(servers: seq<seq<string>>)
    requires AllPlain(servers)
    ensures Parse(Suffix(servers, 0)) == Expected(servers, 0) <==> AllListed(servers, 0)
    ensures servers == [] ==> Parse(Suffix(servers, 0)) == []
  {
    RoundTripFrom(servers, 0);
  }
}

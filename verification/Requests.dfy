/** A request from the keyboard to the naming server: the client cleans the line up and sends it
    only if it starts with a command; the server cleans it up again and takes its words apart. */
module Requests {
  import opened Text
  import opened Strip

  datatype Command = Read | Write | GetSize | Create | Delete | Copy | ListAll

  /** strncmp with the length of the literal. */
  predicate StartsWith(s: string, word: string) {
    |word| <= |s| && s[..|word|] == word
  }

  datatype Dispatched = Invalid | Valid(command: Command)

  /** The client's choice of command, in the order it tries them. */
  function Dispatch(request: string): Dispatched {
    if StartsWith(request, "READ") then Valid(Read)
    else if StartsWith(request, "WRITE") then Valid(Write)
    else if StartsWith(request, "GETSIZE") then Valid(GetSize)
    else if StartsWith(request, "CREATE") then Valid(Create)
    else if StartsWith(request, "DELETE") then Valid(Delete)
    else if StartsWith(request, "COPY") then Valid(Copy)
    else if StartsWith(request, "LISTALL") then Valid(ListAll)
    else Invalid
  }

  /** Which command is chosen: the one whose name the request starts with. */
  lemma {:induction false} DispatchExactly(request: string)
    ensures Dispatch(request) == Valid(Read) <==> "READ" <= request
    ensures Dispatch(request) == Valid(Write) <==> "WRITE" <= request
    ensures Dispatch(request) == Valid(GetSize) <==> "GETSIZE" <= request
    ensures Dispatch(request) == Valid(Create) <==> "CREATE" <= request
    ensures Dispatch(request) == Valid(Delete) <==> "DELETE" <= request
    ensures Dispatch(request) == Valid(Copy) <==> "COPY" <= request
    ensures Dispatch(request) == Valid(ListAll) <==> "LISTALL" <= request
  {
    StartIs(request, "READ");
    StartIs(request, "WRITE");
    StartIs(request, "GETSIZE");
    StartIs(request, "CREATE");
    StartIs(request, "DELETE");
    StartIs(request, "COPY");
    StartIs(request, "LISTALL");
  }

  lemma {:induction false} StartIs(s: string, word: string)
    requires |word| > 1
    ensures StartsWith(s, word) <==> word <= s
    ensures word <= s ==> |s| > 1 && s[0] == word[0] && s[1] == word[1]
  {
  }

  /** What the client sends has no leading white space. */
  lemma {:induction false} DispatchedStartsWithInk(request: string)
    requires Dispatch(request).Valid?
    ensures Leading(request) == 0
  {
    assert request != [] && !IsSpace(request[0]) by {
      assert request[0] == request[..1][0];
    }
  }

  /** Every line the client sends is in canonical form after the server's strip, and the
      second-time canonical form is the first. When the line as typed has no leading white space,
      that is the canonical form of what was typed. */
  lemma {:induction false} RequestArrivesCanonical(line: string)
    requires Dispatch(ClientStripped(line)).Valid?
    ensures ServerStripped(ClientStripped(line)) == Canon(ClientStripped(line))
    ensures Canon(ServerStripped(ClientStripped(line))) == ServerStripped(ClientStripped(line))
    ensures Leading(line) == 0 ==> ServerStripped(ClientStripped(line)) == Canon(line)
  {
    var sent := ClientStripped(line);
    DispatchedStartsWithInk(sent);
    ServerStripExactly(sent);
    CanonIdempotent(sent);
    ClientStripExactly(line);
  }

  /** How many characters of `s` are not white space. */
  function Ink(s: string): nat {
    if s == [] then 0 else (if IsSpace(s[0]) then 0 else 1) + Ink(s[1..])
  }

  lemma {:induction false} InkAppend(s: string, t: string)
    ensures Ink(s + t) == Ink(s) + Ink(t)
  {
    if s == [] {
      assert s + t == t;
    } else {
      InkAppend(s[1..], t);
      assert (s + t)[1..] == s[1..] + t;
    }
  }

  lemma {:induction false} InkOfJoin(ws: seq<string>)
    ensures ws != [] ==> Ink(Join(ws)) == Ink(ws[0]) + Ink(Join(ws[1..]))
  {
    if |ws| > 1 {
      var j := Join(ws[1..]);
      InkAppend(ws[0] + [' '], j);
      InkAppend(ws[0], [' ']);
    }
  }

  /** Canonical form keeps every character that is not white space. */
  lemma {:induction false} InkOfCanon(s: string)
    ensures Ink(Canon(s)) == Ink(s)
    decreases |s|
  {
    if s == [] {
    } else if IsSpace(s[0]) {
      InkOfCanon(s[1..]);
    } else {
      var n := WordLength(s);
      var w, r := s[..n], s[n..];
      InkOfCanon(r);
      InkOfJoin(Words(s));
      assert Words(s)[1..] == Words(r);
      InkAppend(w, r);
      assert s == w + r;
    }
  }

  lemma {:induction false} InkZero(s: string)
    ensures Ink(s) == 0 <==> Blank(s)
  {
    if s != [] {
      InkZero(s[1..]);
      assert Blank(s) <==> IsSpace(s[0]) && Blank(s[1..]) by {
        assert Blank(s[1..]) <==> forall i :: 1 <= i < |s| ==> IsSpace(s[i]) by {
          if Blank(s[1..]) {
            forall i | 1 <= i < |s| ensures IsSpace(s[i]) {
              assert s[i] == s[1..][i - 1];
            }
          }
        }
      }
    }
  }

  lemma {:induction false} InkOfMiddle(s: string, a: string, t: string, b: string)
    requires s == a + (t + b) && Blank(a) && Blank(b)
    ensures Ink(t) == Ink(s)
  {
    InkAppend(a, t + b);
    InkAppend(t, b);
    InkZero(a);
    InkZero(b);
  }

  lemma {:induction false} CutTwice(s: string, k: nat, e: nat)
    requires k <= e <= |s|
    ensures s == s[..k] + (s[k..e] + s[e..])
  {
  }

  lemma {:induction false} InkOfSlice(s: string, k: nat, e: nat)
    requires k == Leading(s) <= e == ClientEnd(s)
    ensures Ink(s[k..e]) == Ink(s)
  {
    LeadingSplits(s);
    TrimmedLengthSplits(s);
    CutTwice(s, k, e);
    assert Blank(s[e..]);
    InkOfMiddle(s, s[..k], s[k..e], s[e..]);
  }

  lemma {:induction false} InkSentTwice(line: string)
    requires 0 < Leading(line) < |line|
    ensures Ink(ClientStripped(line)) > Ink(line)
  {
    var k, e := Leading(line), ClientEnd(line);
    LeadingSplits(line);
    TrimmedLengthSplits(line);
    InkOfSlice(line, k, e);
    assert line[e - k..e][k - 1] == line[e - 1];
    InkOfTwo(line[k..e], line[e - k..e], line[e - 1]);
  }

  lemma {:induction false} InkOfTwo(t: string, again: string, c: char)
    requires again != [] && again[|again| - 1] == c && !IsSpace(c)
    ensures Ink(t + again) > Ink(t)
  {
    InkAppend(t, again);
    InkLast(again, c);
  }

  lemma {:induction false} InkLast(s: string, c: char)
    requires s != [] && s[|s| - 1] == c && !IsSpace(c)
    ensures Ink(s) > 0
  {
    InkZero(s);
  }

  /** A typed line reaches the server with its own words exactly when it has no leading white space
      or nothing but white space; otherwise the end of its last word is sent twice. */
  lemma {:induction false} TypedLineArrives(line: string)
    ensures Canon(ClientStripped(line)) == Canon(line) <==> Leading(line) == 0 || Leading(line) == |line|
  {
    if Leading(line) == 0 {
      ClientStripExactly(line);
    } else if Leading(line) == |line| {
      var n := |line|;
      assert line[n..n] + line[0..n] == line;
    } else {
      InkSentTwice(line);
      InkOfCanon(ClientStripped(line));
      InkOfCanon(line);
    }
  }

  /** strchr for a space, from a position; the length of the string stands for NULL. */
  function FindSpace(s: string, start: nat): (i: nat)
    requires start <= |s|
    ensures start <= i <= |s|
    decreases |s| - start
  {
    if start == |s| || s[start] == ' ' then start else FindSpace(s, start + 1)
  }

  /** What single spaces separate. */
  function Fields(s: string): (f: seq<string>)
    ensures f != []
    decreases |s|
  {
    var i := FindSpace(s, 0);
    if i == |s| then [s] else [s[..i]] + Fields(s[i + 1..])
  }

  lemma {:induction false} FindSpaceFrom(s: string, start: nat)
    requires start <= |s|
    ensures FindSpace(s, start) == start + FindSpace(s[start..], 0)
    ensures ' ' !in s[start..FindSpace(s, start)]
    ensures FindSpace(s, start) < |s| ==> s[FindSpace(s, start)] == ' '
    decreases |s| - start
  {
    if start < |s| && s[start] != ' ' {
      FindSpaceFrom(s, start + 1);
      FindSpaceFrom(s[start..], 1);
      assert s[start..][1..] == s[start + 1..];
      var i := FindSpace(s, start);
      assert s[start..i] == [s[start]] + s[start + 1..i];
    }
  }

  /** The fields have no spaces, and joined by spaces they are the string again. */
  lemma {:induction false} FieldsJoin(s: string)
    ensures Join(Fields(s)) == s
    ensures forall f :: f in Fields(s) ==> ' ' !in f
    decreases |s|
  {
    var i := FindSpace(s, 0);
    FindSpaceFrom(s, 0);
    assert s[0..i] == s[..i];
    if i < |s| {
      FieldsJoin(s[i + 1..]);
      JoinCons(s[..i], Fields(s[i + 1..]));
      assert s == s[..i] + [' '] + s[i + 1..];
    } else {
      assert s[..i] == s;
    }
  }

  lemma {:induction false} FirstSpace(w: string, rest: string)
    requires ' ' !in w && (rest == [] || rest[0] == ' ')
    ensures FindSpace(w + rest, 0) == |w|
    decreases |w|
  {
    var s := w + rest;
    if w != [] {
      FirstSpace(w[1..], rest);
      FindSpaceFrom(s, 1);
      assert s[1..] == w[1..] + rest && s[0] == w[0];
    }
  }

  /** The fields of words joined by spaces are the words. */
  lemma {:induction false} FieldsOfJoin(ws: seq<string>)
    requires ws != [] && AreWords(ws)
    ensures Fields(Join(ws)) == ws
  {
    var w, r := ws[0], ws[1..];
    assert IsWord(w) && ' ' !in w;
    if r == [] {
      FirstSpace(w, []);
      assert w + [] == w == Join(ws) && ws == [w];
    } else {
      FieldsOfJoin(r);
      assert ws == [w] + r;
      JoinCons(w, r);
      FirstSpace(w, [' '] + Join(r));
      assert Join(ws) == w + ([' '] + Join(r));
      assert Join(ws)[..|w|] == w && Join(ws)[|w| + 1..] == Join(r);
    }
  }

  /** The field that starts at a position, and those after it. */
  lemma {:induction false} FieldAt(s: string, start: nat, i: nat) returns (f: seq<string>, rest: seq<string>)
    requires start <= |s| && i == FindSpace(s, start)
    ensures f == Fields(s[start..]) && f == [s[start..i]] + rest
    ensures i < |s| ==> rest == Fields(s[i + 1..])
    ensures rest == [] <==> i == |s|
  {
    FindSpaceFrom(s, start);
    var t := s[start..];
    assert t[..i - start] == s[start..i];
    assert i < |s| ==> t[i - start + 1..] == s[i + 1..];
    assert i == |s| ==> s[start..i] == t && [t] + [] == [t];
    f, rest := Fields(t), if i < |s| then Fields(s[i + 1..]) else [];
  }

  /** The field from position `i + 1` on, which follows a space. */
  function FieldAfter(s: string, i: nat): string
    requires i < |s|
  {
    s[i + 1..FindSpace(s, i + 1)]
  }

  /** Where the second field of a string is, and those after it. */
  lemma {:induction false} SecondField(s: string, i: nat, j: nat) returns (rest: seq<string>)
    requires i == FindSpace(s, 0) < |s| && j == FindSpace(s, i + 1)
    ensures |Fields(s)| == 2 + |rest| && Fields(s)[1] == FieldAfter(s, i)
    ensures rest == [] <==> j == |s|
    ensures j < |s| ==> rest == Fields(s[j + 1..]) && Fields(s)[2] == rest[0]
  {
    var f0, r0 := FieldAt(s, 0, i);
    assert s[0..] == s;
    var f1, r1 := FieldAt(s, i + 1, j);
    rest := r1;
  }

  lemma {:induction false} ThirdField(s: string, i: nat, j: nat)
    requires i == FindSpace(s, 0) < |s| && j == FindSpace(s, i + 1) < |s|
    ensures |Fields(s)| >= 3 && Fields(s)[2] == FieldAfter(s, j)
  {
    var rest := SecondField(s, i, j);
    assert Fields(s)[2] == rest[0];
    var f, r := FieldAt(s, j + 1, FindSpace(s, j + 1));
    assert f == rest;
  }

  /** extractPath, on any string: the second field; `path` keeps its contents when there is none or no
      room for it. */
  method ExtractPath(input: string, path0: string, pathSize: nat) returns (path: string)
    ensures var f := Fields(input);
      path == if |f| >= 2 && |f[1]| < pathSize then f[1] else path0
  {
    path := path0;
    var firstSpace := FindSpace(input, 0);
    if firstSpace == |input| {
      return;
    }
    var secondSpace := FindSpace(input, firstSpace + 1);
    ghost var rest := SecondField(input, firstSpace, secondSpace);
    var pathLength := secondSpace - firstSpace - 1;
    if pathLength >= pathSize {
      return;
    }
    path := input[firstSpace + 1..firstSpace + 1 + pathLength];
  }

  /** extractPathThird: the third field. */
  method ExtractPathThird(input: string, path0: string, pathSize: nat) returns (path: string)
    ensures var f := Fields(input);
      path == if |f| >= 3 && |f[2]| < pathSize then f[2] else path0
  {
    path := path0;
    var firstSpace := FindSpace(input, 0);
    if firstSpace == |input| {
      return;
    }
    var secondSpace := FindSpace(input, firstSpace + 1);
    ghost var rest := SecondField(input, firstSpace, secondSpace);
    if secondSpace == |input| {
      return;
    }
    ThirdField(input, firstSpace, secondSpace);
    var thirdSpace := FindSpace(input, secondSpace + 1);
    var pathLength := thirdSpace - secondSpace - 1;
    if pathLength >= pathSize {
      return;
    }
    path := input[secondSpace + 1..secondSpace + 1 + pathLength];
  }

  /** What the client's strip leaves of a line that is not blank has no white space at its ends. */
  lemma {:induction false} StrippedEnds(line: string, i: nat)
    requires i < |line| && line[i] !in " \t\n\U{0B}\U{0C}\r"
    ensures var r := ClientStripped(line);
      r != [] && r[0] !in " \t\n\U{0B}\U{0C}\r" && r[|r| - 1] !in " \t\n\U{0B}\U{0C}\r"
  {
    var k, e := Leading(line), ClientEnd(line);
    SpacesAre(line[i]);
    EndsInk(line, i);
    EndsOfTwo(line[k..e], line[e - k..e]);
    SpacesAre(line[k]);
    SpacesAre(line[e - 1]);
  }

  lemma {:induction false} EndsInk(line: string, i: nat)
    requires i < |line| && !IsSpace(line[i])
    ensures var k, e := Leading(line), ClientEnd(line);
      k <= i < e && !IsSpace(line[k]) && !IsSpace(line[e - 1])
  {
    LeadingSplits(line);
    TrimmedLengthSplits(line);
    assert forall j :: 0 <= j < Leading(line) ==> line[..Leading(line)][j] == line[j];
  }

  lemma {:induction false} EndsOfTwo(a: string, b: string)
    requires a != []
    ensures a + b != [] && (a + b)[0] == a[0]
    ensures (a + b)[|a + b| - 1] == if b == [] then a[|a| - 1] else b[|b| - 1]
  {
  }

  /** A plain line, with the newline that ends it, arrives as it is, and its parts are its words. */
  lemma {:induction false} PlainLineArrives(w: string)
    requires Plain(w)
    ensures ClientStripped(w + "\n") == w && ServerStripped(w) == w && Words(w) == Fields(w)
  {
    SpacesAre(w[0]);
    SpacesAre(w[|w| - 1]);
    SpacesAre('\n');
    CanonicalIsPlain(w);
    ServerStripExactly(w);
    WordsAreWords(w);
    FieldsOfJoin(Words(w));
    LeadingAt(w + "\n", 0);
    ClientEndAt(w + "\n", 0, |w|);
  }

  /** The words of a request come out whole: the paths the server extracts from anything the client
      sends are its second and third word. */
  method TakeApart(sent: string, pathSize: nat) returns (path: string, pathThird: string)
    requires Dispatch(sent).Valid?
    ensures var ws := Words(sent);
      && path == (if |ws| >= 2 && |ws[1]| < pathSize then ws[1] else "")
      && pathThird == (if |ws| >= 3 && |ws[2]| < pathSize then ws[2] else "")
    ensures Plain(sent) ==> Words(sent) == Fields(sent)
  {
    var input := ServerStripped(sent);
    DispatchedStartsWithInk(sent);
    ServerStripExactly(sent);
    WordsAreWords(sent);
    if Words(sent) != [] {
      FieldsOfJoin(Words(sent));
    }
    if Plain(sent) {
      PlainLineArrives(sent);
    }
    path := ExtractPath(input, "", pathSize);
    pathThird := ExtractPathThird(input, "", pathSize);
  }

  /** The way of a plain line from the client's buffer to the paths: they are what stands between its
      first and second space, and between its second and third. */
  method TakePlainLine(line: array<char>, w: string, pathSize: nat) returns (path: string, pathThird: string)
    requires Plain(w) && NUL !in w
    requires |w| + 1 < line.Length && line[..|w|] == w && line[|w|] == '\n' && line[|w| + 1] == NUL
    modifies line
    ensures CStr(line[..]) == w
    ensures path == if |Fields(w)| > 1 && |Fields(w)[1]| < pathSize then Fields(w)[1] else ""
    ensures pathThird == if |Fields(w)| > 2 && |Fields(w)[2]| < pathSize then Fields(w)[2] else ""
  {
    PlainLineArrives(w);
    assert line[..][..|w| + 1] == w + "\n";
    CStrAt(line[..], |w| + 1);
    assert line[..][|w| + 1] in line[..];
    ClientStrip(line);
    assert CStr(line[..]) == w;
    ServerStrip(line);
    path := ExtractPath(CStr(line[..]), "", pathSize);
    pathThird := ExtractPathThird(CStr(line[..]), "", pathSize);
  }
}

/** The request clean-up on both ends of the wire, in place in the request buffers. */
module Strip {
  import opened Text

  /** One condensing pass: every run of white space becomes one space. */
  function Condense(t: string, inSpace: bool): (r: string)
    ensures |r| <= |t|
  {
    if t == [] then []
    else if IsSpace(t[0]) then (if inSpace then [] else [' ']) + Condense(t[1..], true)
    else [t[0]] + Condense(t[1..], false)
  }

  lemma {:induction false} CondenseWord(w: string, r: string, inSpace: bool)
    requires IsWord(w)
    ensures Condense(w + r, inSpace) == w + Condense(r, false)
    decreases |w|
  {
    assert (w + r)[1..] == w[1..] + r;
    if |w| > 1 {
      assert IsWord(w[1..]);
      CondenseWord(w[1..], r, false);
    } else {
      assert w[1..] + r == r;
    }
  }

  lemma {:induction false} CondenseBlank(blank: string, r: string)
    requires Blank(blank)
    ensures Condense(blank + r, true) == Condense(r, true)
  {
    if blank == [] {
      assert blank + r == r;
    } else {
      assert (blank + r)[1..] == blank[1..] + r;
      CondenseBlank(blank[1..], r);
    }
  }

  /** A text without white space at its ends. */
  ghost predicate Trimmed(t: string) {
    t != [] ==> !IsSpace(t[0]) && !IsSpace(t[|t| - 1])
  }

  lemma {:induction false} WordsOfTrimmed(w: string, blank: string, u: string)
    requires IsWord(w) && blank != [] && u != [] && !IsSpace(u[0])
    requires Blank(blank)
    ensures Words(w + blank + u) == [w] + Words(u)
  {
    var rest := blank + u;
    assert w + blank + u == w + rest;
    WordsCons(w, rest);
    WordsAfterBlank(blank, u);
  }

  lemma {:induction false} CondenseOfTrimmed(w: string, blank: string, u: string)
    requires IsWord(w) && blank != [] && u != [] && !IsSpace(u[0])
    requires Blank(blank)
    ensures Condense(w + blank + u, false) == w + [' '] + Condense(u, false)
  {
    assert w + blank + u == w + (blank + u);
    CondenseWord(w, blank + u, false);
    assert (blank + u)[1..] == blank[1..] + u;
    CondenseBlank(blank[1..], u);
  }

  lemma {:induction false} CanonStep(w: string, blank: string, u: string)
    requires IsWord(w) && blank != [] && u != [] && !IsSpace(u[0])
    requires Blank(blank)
    requires Condense(u, false) == Canon(u)
    ensures Condense(w + blank + u, false) == Canon(w + blank + u)
  {
    WordsOfTrimmed(w, blank, u);
    CondenseOfTrimmed(w, blank, u);
    var ws := Words(u);
    assert ws != [];
    JoinCons(w, ws);
  }

  lemma {:induction false} CanonOfWord(w: string)
    requires IsWord(w)
    ensures Condense(w, false) == Canon(w)
  {
    CondenseWord(w, [], false);
    WordsOfOne(w);
    assert w + [] == w;
  }

  /** On a trimmed text one condensing pass gives the canonical form. */
  lemma {:induction false} CondenseIsCanon(t: string)
    requires Trimmed(t)
    ensures Condense(t, false) == Canon(t)
    decreases |t|
  {
    if t != [] {
      var n := WordLength(t);
      WordLengthSplits(t);
      if n == |t| {
        assert t[..n] == t;
        CanonOfWord(t);
      } else {
        var k := Leading(t[n..]);
        LeadingSplits(t[n..]);
        var w, blank, u := t[..n], t[n..][..k], t[n..][k..];
        assert t == w + blank + u;
        assert t[n..][|t| - 1 - n] == t[|t| - 1];
        assert u[|u| - 1] == t[|t| - 1];
        CondenseIsCanon(u);
        CanonStep(w, blank, u);
      }
    }
  }

  lemma {:induction false} JoinCons(w: string, ws: seq<string>)
    requires ws != []
    ensures Join([w] + ws) == w + [' '] + Join(ws)
  {
    assert ([w] + ws)[1..] == ws;
  }

  /** No white space but single spaces. */
  ghost predicate Single(c: string) {
    forall i :: 0 <= i < |c| && IsSpace(c[i]) ==> c[i] == ' ' && (i + 1 < |c| ==> !IsSpace(c[i + 1]))
  }

  /** Condensing leaves single spaces, and no white space first when it starts inside a run. */
  lemma {:induction false} CondenseIsSingle(t: string, inSpace: bool)
    ensures Single(Condense(t, inSpace))
    ensures inSpace && Condense(t, inSpace) != [] ==> !IsSpace(Condense(t, inSpace)[0])
  {
    if t != [] {
      var s := IsSpace(t[0]);
      CondenseIsSingle(t[1..], s);
    }
  }

  /** A text with single spaces is condensed already, whatever comes after it. */
  lemma {:induction false} CondenseSingle(c: string, r: string, inSpace: bool)
    requires Single(c) && (inSpace && c != [] ==> !IsSpace(c[0]))
    requires r == [] || !IsSpace(r[0])
    ensures Condense(c + r, inSpace) == c + Condense(r, false)
  {
    if c == [] {
      assert c + r == r;
    } else {
      var d := c[1..];
      assert forall i :: 0 <= i < |d| ==> d[i] == c[i + 1];
      CondenseSingle(d, r, IsSpace(c[0]));
      assert c + r == [c[0]] + (d + r);
      CondenseCons(c[0], d + r, inSpace);
      assert c + Condense(r, false) == [c[0]] + (d + Condense(r, false));
    }
  }

  lemma {:induction false} CondenseCons(x: char, t: string, inSpace: bool)
    requires IsSpace(x) ==> x == ' ' && !inSpace
    ensures Condense([x] + t, inSpace) == [x] + Condense(t, IsSpace(x))
  {
    assert ([x] + t)[1..] == t;
  }

  /** A text is its own canonical form exactly when it is plain, or empty. */
  lemma {:induction false} CanonicalIsPlain(w: string)
    ensures Canon(w) == w <==> w == "" || Plain(w)
    ensures Canon(w) == "" || Plain(Canon(w))
  {
    WordsAreWords(w);
    if Words(w) != [] {
      JoinIsPlain(Words(w));
    }
    if Plain(w) {
      forall i | 0 <= i < |w| ensures IsSpace(w[i]) <==> w[i] == ' ' {
        SpacesAre(w[i]);
      }
      CondenseIsCanon(w);
      CondenseSingle(w, "", false);
      assert w + "" == w;
    }
  }

  lemma {:induction false} CondenseKeepsNul(t: string, inSpace: bool)
    requires NUL !in t
    ensures NUL !in Condense(t, inSpace)
  {
    if t != [] {
      CondenseKeepsNul(t[1..], IsSpace(t[0]));
    }
  }

  /** strlen. */
  method StrLen(str: array<char>) returns (n: nat)
    requires NUL in str[..]
    ensures n < str.Length && str[n] == NUL && CStr(str[..]) == str[..n]
  {
    n := 0;
    ghost var k :| 0 <= k < str.Length && str[..][k] == NUL;
    while str[n] != NUL
      invariant n <= k && NUL !in str[..n]
      decreases k - n
    {
      n := n + 1;
    }
    CStrAt(str[..], n);
    assert str[..][..n] == str[..n];
  }

  /** The loop that skips leading white space. */
  method SkipStart(str: array<char>, start0: nat, n: nat) returns (start: nat)
    requires start0 <= n < str.Length && str[n] == NUL && NUL !in str[..n]
    ensures start == start0 + Leading(str[start0..n])
  {
    start := start0;
    while str[start] != NUL && IsSpace(str[start])
      invariant start0 <= start <= n && forall i :: start0 <= i < start ==> IsSpace(str[i])
      decreases n - start
    {
      start := start + 1;
    }
    assert start < n ==> str[start] in str[..n];
    LeadingAt(str[start0..n], start - start0);
  }

  /** The loop that skips trailing white space. */
  method SkipEnd(str: array<char>, start: nat, end0: int) returns (end: int)
    requires start <= end0 + 1 <= str.Length
    ensures start <= end + 1 <= end0 + 1
    ensures forall i :: end < i <= end0 ==> IsSpace(str[i])
    ensures end >= start ==> !IsSpace(str[end])
  {
    end := end0;
    while end >= start && IsSpace(str[end])
      invariant start <= end + 1 <= end0 + 1 && forall i :: end < i <= end0 ==> IsSpace(str[i])
    {
      end := end - 1;
    }
  }

  /** The body of a condensing loop: reads position `j`, writes at most position `i`. */
  method CondenseChar(str: array<char>, i0: nat, j: nat, inSpace0: bool, ghost rest: string)
    returns (i: nat, inSpace: bool, ghost out: string)
    requires i0 <= j < str.Length && rest != [] && rest[0] == str[j]
    modifies str
    ensures Condense(rest, inSpace0) == out + Condense(rest[1..], inSpace)
    ensures |out| <= 1 && i == i0 + |out| && (out != [] ==> str[i0] == out[0])
    ensures forall m :: i <= m < str.Length || 0 <= m < i0 ==> str[m] == old(str[m])
  {
    i, inSpace, out := i0, inSpace0, [];
    if IsSpace(str[j]) {
      if !inSpace {
        str[i] := ' ';
        i := i + 1;
        inSpace := true;
        out := [' '];
      }
    } else {
      str[i] := str[j];
      out := [str[i]];
      i := i + 1;
      inSpace := false;
    }
  }

  /** One condensing loop, from `start` to `end`, onto the front of the buffer. */
  method CondensePass(str: array<char>, start: nat, end: int, ghost c: string)
    requires start <= end + 1 < str.Length && c == Condense(str[start..end + 1], false)
    modifies str
    ensures |c| < str.Length && str[..|c|] == c && str[|c|] == NUL
    ensures str[|c| + 1..] == old(str[|c| + 1..])
  {
    var i, j, inSpace := 0, start, false;
    ghost var s, done, rest := str[..], "", str[start..end + 1];
    while j <= end
      invariant Condensing(str[..], s, c, done, rest, start, j, end + 1, inSpace) && i == |done|
    {
      i, inSpace, done, rest := CondenseStep(str, i, j, inSpace, s, c, done, rest, start, end + 1);
      j := j + 1;
    }
    Condensed(str[..], s, c, done, rest, start, end + 1, inSpace);
    str[i] := NUL;
  }

  /** The state of a condensing loop at `j`: what is written, and what is still to be read. */
  ghost predicate Condensing(buf: string, s: string, c: string, done: string, rest: string,
                             start: nat, j: nat, stop: nat, inSpace: bool) {
    && start <= j <= stop < |s| == |buf| && |done| <= j - start && rest == s[j..stop]
    && c == done + Condense(rest, inSpace)
    && (forall m :: 0 <= m < |done| ==> buf[m] == done[m])
    && (forall m :: |done| <= m < |buf| ==> buf[m] == s[m])
  }

  method CondenseStep(str: array<char>, i0: nat, j: nat, inSpace0: bool, ghost s: string, ghost c: string,
                      ghost done0: string, ghost rest0: string, ghost start: nat, ghost stop: nat)
    returns (i: nat, inSpace: bool, ghost done: string, ghost rest: string)
    requires Condensing(str[..], s, c, done0, rest0, start, j, stop, inSpace0) && i0 == |done0| && j < stop
    modifies str
    ensures Condensing(str[..], s, c, done, rest, start, j + 1, stop, inSpace) && i == |done|
  {
    RestAt(s, j, stop);
    ghost var out, was := "", str[..];
    assert was[j] == s[j];
    i, inSpace, out := CondenseChar(str, i0, j, inSpace0, rest0);
    done, rest := done0 + out, rest0[1..];
    CondensingNext(was, str[..], s, c, done0, rest0, start, j, stop, inSpace0, inSpace, out);
  }

  lemma {:induction false} CondensingNext(was: string, buf: string, s: string, c: string, done: string, rest: string,
                                          start: nat, j: nat, stop: nat, inSpace: bool, inSpace': bool, out: string)
    requires Condensing(was, s, c, done, rest, start, j, stop, inSpace) && j < stop && |buf| == |was|
    requires Condense(rest, inSpace) == out + Condense(rest[1..], inSpace') && |out| <= 1
    requires out != [] ==> buf[|done|] == out[0]
    requires forall m :: |done| + |out| <= m < |buf| || 0 <= m < |done| ==> buf[m] == was[m]
    ensures Condensing(buf, s, c, done + out, rest[1..], start, j + 1, stop, inSpace')
  {
    RestAt(s, j, stop);
    ConcatAssociates(done, out, Condense(rest[1..], inSpace'));
  }

  lemma {:induction false} Condensed(buf: string, s: string, c: string, done: string, rest: string,
                                     start: nat, stop: nat, inSpace: bool)
    requires Condensing(buf, s, c, done, rest, start, stop, stop, inSpace)
    ensures c == done && |c| < |buf| && buf[..|c|] == c && buf[|c| + 1..] == s[|c| + 1..]
  {
    assert rest == "" && done + "" == done;
  }

  lemma {:induction false} RestAt(s: string, j: nat, stop: nat)
    requires j < stop <= |s|
    ensures s[j..stop] != [] && s[j..stop][0] == s[j] && s[j..stop][1..] == s[j + 1..stop]
  {
  }

  lemma {:induction false} ConcatAssociates(a: string, b: string, c: string)
    ensures a + (b + c) == a + b + c
  {
  }

  /** What the server's strip leaves of the C string `s`: its second condensing pass starts again at
      the original start, over its own output. */
  function ServerStripped(s: string): string {
    var c, n := Canon(s), Leading(s);
    if n > |c| then c else c[n..]
  }

  /** The server's strip is right exactly when there is no leading white space, or more of it than
      the canonical form is long. */
  lemma {:induction false} ServerStripExactly(s: string)
    ensures ServerStripped(s) == Canon(s) <==> Leading(s) == 0 || Leading(s) > |Canon(s)|
  {
  }

  /** White space around a text does not matter to its words. */
  lemma {:induction false} WordsOfMiddle(s: string, lead: string, t: string, tail: string)
    requires s == lead + (t + tail)
    requires Blank(lead) && Blank(tail)
    ensures Words(t) == Words(s)
  {
    WordsAfterBlank(lead, t + tail);
    WordsBeforeBlank(t, tail);
  }

  /** `t` is `s` with its ends trimmed off. */
  ghost predicate IsTrim(s: string, start: nat, t: string) {
    && start == Leading(s) && start + |t| <= |s|
    && s[start..start + |t|] == t && Trimmed(t) && Blank(s[start + |t|..])
  }

  lemma {:induction false} TrimKeepsWords(s: string, start: nat, t: string)
    requires IsTrim(s, start, t)
    ensures Words(t) == Words(s)
  {
    LeadingSplits(s);
    var tail := s[start + |t|..];
    assert s == s[..start] + (t + tail);
    WordsOfMiddle(s, s[..start], t, tail);
  }

  lemma {:induction false} IsTrimAt(s: string, start: nat, t: string)
    requires start == Leading(s) && start + |t| <= |s| && t == s[start..start + |t|]
    requires forall i :: start + |t| <= i < |s| ==> IsSpace(s[i])
    requires t != [] ==> !IsSpace(t[|t| - 1])
    ensures IsTrim(s, start, t)
  {
    LeadingSplits(s);
    assert t != [] ==> t[0] == s[start];
  }

  /** What the second pass reads and writes, given what the first one left in the buffer. */
  lemma {:induction false} SecondPass(before: string, after: string, start: nat, stop: nat, c: string, c2: string,
                                      last: string)
    requires start <= stop < |before| == |after| == |last| && |c| < |after|
    requires c == Condense(before[start..stop], false) && NUL !in c
    requires after[..|c|] == c && after[|c|] == NUL && after[|c| + 1..] == before[|c| + 1..]
    requires c2 == Condense(after[start..stop], false) && |c2| < |last|
    requires last[..|c2|] == c2 && last[|c2|] == NUL
    ensures CStr(last) == if start > |c| then c else c[start..]
  {
    if start > |c| {
      SameTail(before, after, |c| + 1, start, stop);
      CStrAt(last, |c|);
    } else {
      CondenseIsSingle(before[start..stop], false);
      SecondText(c, after, start, stop);
      var r := if |c| < stop then after[|c|..stop] else [];
      CondenseSingle(c[start..], r, false);
      SliceClean(c, start, |c|);
      PrefixAsCStr(c[start..], r, c2, last);
    }
  }

  /** What the second pass reads when it starts inside the text that the first one left. */
  lemma {:induction false} SecondText(c: string, after: string, start: nat, stop: nat)
    requires start <= |c| <= stop <= |after| && |c| < |after| && after[..|c|] == c && after[|c|] == NUL && Single(c)
    ensures Single(c[start..])
    ensures var r := if |c| < stop then after[|c|..stop] else [];
      (r != [] ==> r[0] == NUL) && after[start..stop] == c[start..] + r
  {
    var d := c[start..];
    assert forall m :: 0 <= m < |d| ==> d[m] == c[start + m];
    assert forall m :: 0 <= m < |c| ==> after[m] == c[m];
  }

  lemma {:induction false} SameTail(before: string, after: string, k: nat, start: nat, stop: nat)
    requires k <= start <= stop <= |before| == |after| && after[k..] == before[k..]
    ensures after[start..stop] == before[start..stop]
  {
    assert forall m :: start <= m < stop ==> after[m] == after[k..][m - k] && before[m] == before[k..][m - k];
  }

  lemma {:induction false} PrefixAsCStr(d: string, r: string, c2: string, last: string)
    requires NUL !in d && (r != [] ==> r[0] == NUL)
    requires c2 == d + Condense(r, false) && |c2| < |last| && last[..|c2|] == c2 && last[|c2|] == NUL
    ensures CStr(last) == d
  {
    if r != [] {
      assert Condense(r, false)[0] == NUL;
      assert c2[|d|] == NUL;
    }
    assert forall m :: 0 <= m < |c2| ==> last[m] == c2[m];
    assert last[..|d|] == d;
    CStrAt(last, |d|);
  }

  /** The trimming loops of the server's strip, each of which the source has twice. */
  method TrimTwice(str: array<char>, n: nat, ghost s: string) returns (start: nat, end: int, ghost t: string)
    requires n < str.Length && str[n] == NUL && NUL !in str[..n] && s == str[..n]
    ensures start <= end + 1 <= n && t == str[start..end + 1] && IsTrim(s, start, t)
  {
    start := SkipStart(str, 0, n);
    assert s == str[0..n];
    LeadingSplits(s);
    start := SkipAgain(str, start, n);
    end := SkipEnd(str, start, n - 1);
    end := SkipEnd(str, start, end);
    t := str[start..end + 1];
    assert forall i :: 0 <= i < n ==> s[i] == str[i];
    assert t == s[start..start + |t|];
    assert forall i :: end < i < n ==> s[i] == str[i];
    assert t != [] ==> t[|t| - 1] == str[end];
    IsTrimAt(s, start, t);
  }

  lemma {:induction false} FirstPass(s: string, start: nat, t: string)
    requires IsTrim(s, start, t) && NUL !in s
    ensures Condense(t, false) == Canon(s) && NUL !in Canon(s) && start == Leading(s)
  {
    TrimKeepsWords(s, start, t);
    CondenseIsCanon(t);
    CondenseKeepsNul(t, false);
  }

  /** The naming server's strip, in place. */
  method ServerStrip(str: array<char>)
    requires NUL in str[..]
    modifies str
    ensures NUL in str[..] && CStr(str[..]) == ServerStripped(old(CStr(str[..])))
  {
    var n: int := StrLen(str);
    ghost var s, before := str[..n], str[..];
    var start, end, t := TrimTwice(str, n, s);
    FirstPass(s, start, t);
    CondensePass(str, start, end, Canon(s));
    ghost var after := str[..];
    assert before[start..end + 1] == t;
    TwoPasses(str, start, end, s, before, after);
  }

  /** The second condensing loop. */
  method TwoPasses(str: array<char>, start: nat, end: int, ghost s: string, ghost before: string, ghost after: string)
    requires start <= end + 1 < |before| == |after| && after == str[..] && start == Leading(s)
    requires Condense(before[start..end + 1], false) == Canon(s) && NUL !in Canon(s)
    requires |Canon(s)| < |after| && after[..|Canon(s)|] == Canon(s) && after[|Canon(s)|] == NUL
    requires after[|Canon(s)| + 1..] == before[|Canon(s)| + 1..]
    modifies str
    ensures NUL in str[..] && CStr(str[..]) == ServerStripped(s)
  {
    ghost var c2 := Condense(after[start..end + 1], false);
    assert str[start..end + 1] == after[start..end + 1];
    CondensePass(str, start, end, c2);
    ghost var last := str[..];
    assert last[|c2|] == NUL && last[..|c2|] == c2;
    SecondPass(before, after, start, end + 1, Canon(s), c2, last);
  }

  /** The source's second copy of the leading loop finds nothing to skip. */
  method SkipAgain(str: array<char>, start0: nat, n: nat) returns (start: nat)
    requires start0 <= n < str.Length && str[n] == NUL && NUL !in str[..n]
    requires start0 < n ==> !IsSpace(str[start0])
    ensures start == start0
  {
    start := SkipStart(str, start0, n);
    LeadingAt(str[start0..n], 0);
  }

  /** How long `s` is without trailing white space. */
  function TrimmedLength(s: string): (n: nat)
    ensures n <= |s|
  {
    if s == [] || !IsSpace(s[|s| - 1]) then |s| else TrimmedLength(s[..|s| - 1])
  }

  lemma {:induction false} TrimmedLengthSplits(s: string)
    ensures var n := TrimmedLength(s);
      (n > 0 ==> !IsSpace(s[n - 1])) && forall i :: n <= i < |s| ==> IsSpace(s[i])
    decreases |s|
  {
    if s != [] && IsSpace(s[|s| - 1]) {
      TrimmedLengthSplits(s[..|s| - 1]);
    }
  }

  /** Where the client's strip puts its terminator. */
  function ClientEnd(s: string): (n: nat)
    ensures Leading(s) <= n <= |s|
  {
    if TrimmedLength(s) < Leading(s) then Leading(s) else TrimmedLength(s)
  }

  /** What the client's strip leaves of the C string `s`: the trimmed text moves to the front, but
      the terminator stays where the text used to end. */
  function ClientStripped(s: string): string {
    var k, e := Leading(s), ClientEnd(s);
    s[k..e] + s[e - k..e]
  }

  /** The client's strip, in place. */
  method ClientStrip(str: array<char>)
    requires NUL in str[..]
    modifies str
    ensures NUL in str[..] && CStr(str[..]) == ClientStripped(old(CStr(str[..])))
  {
    var n: int := StrLen(str);
    ghost var s := str[..n];
    var start := SkipStart(str, 0, n);
    ghost var buf := str[..];
    SliceOfPrefix(buf, n, 0, n);
    var end := SkipEnd(str, start, n - 1);
    ClientEndAt(s, start, end + 1);
    SliceOfPrefix(buf, n, start, end + 1);
    SliceOfPrefix(buf, n, end + 1 - start, end + 1);
    Shift(str, start, end);
    ShiftedText(s, start, end + 1, str[..]);
  }

  lemma {:induction false} SliceOfPrefix(buf: string, n: nat, i: nat, j: nat)
    requires i <= j <= n <= |buf|
    ensures buf[..n][i..j] == buf[i..j]
  {
  }

  /** The loop that moves the text to the front, and the terminator. */
  method Shift(str: array<char>, start0: nat, end: int)
    requires start0 <= end + 1 < str.Length
    modifies str
    ensures str[end + 1] == NUL
    ensures str[..end + 1 - start0] == old(str[start0..end + 1])
    ensures str[end + 1 - start0..end + 1] == old(str[end + 1 - start0..end + 1])
  {
    var i, start := 0, start0;
    while start <= end
      invariant start == start0 + i <= end + 1
      invariant forall m :: 0 <= m < i ==> str[m] == old(str[start0 + m])
      invariant forall m :: i <= m < str.Length ==> str[m] == old(str[m])
    {
      str[i] := str[start];
      i, start := i + 1, start + 1;
    }
    str[end + 1] := NUL;
  }

  lemma {:induction false} ShiftedText(s: string, k: nat, e: nat, buf: string)
    requires k == Leading(s) <= e == ClientEnd(s) <= |s| < |buf| && NUL !in s && buf[e] == NUL
    requires buf[..e - k] == s[k..e] && buf[e - k..e] == s[e - k..e]
    ensures CStr(buf) == ClientStripped(s)
  {
    var a, b := s[k..e], s[e - k..e];
    TextOfHalves(buf, a, b);
    SliceClean(s, k, e);
    SliceClean(s, e - k, e);
    CStrAt(buf, e);
  }

  lemma {:induction false} TextOfHalves(buf: string, a: string, b: string)
    requires |a| + |b| <= |buf| && buf[..|a|] == a && buf[|a|..|a| + |b|] == b
    ensures buf[..|a| + |b|] == a + b
  {
    assert buf[..|a| + |b|] == buf[..|a|] + buf[|a|..|a| + |b|];
  }

  lemma {:induction false} SliceClean(s: string, i: nat, j: nat)
    requires i <= j <= |s| && NUL !in s
    ensures NUL !in s[i..j]
  {
  }

  lemma {:induction false} ClientEndAt(s: string, k: nat, e: nat)
    requires k == Leading(s) <= e <= |s| && (e > k ==> !IsSpace(s[e - 1])) && forall i :: e <= i < |s| ==>
      IsSpace(s[i])
    ensures ClientEnd(s) == e
  {
    TrimmedLengthAt(s, k, e);
  }

  lemma {:induction false} TrimmedLengthAt(s: string, k: nat, e: nat)
    requires k <= e <= |s| && (e > k ==> !IsSpace(s[e - 1])) && forall i :: e <= i < |s| ==> IsSpace(s[i])
    ensures e > k ==> TrimmedLength(s) == e
    ensures e == k ==> TrimmedLength(s) <= e
    decreases |s|
  {
    if e < |s| {
      TrimmedLengthAt(s[..|s| - 1], k, e);
    }
  }

  /** The client's strip is right exactly when there is no leading white space. */
  lemma {:induction false} ClientStripExactly(s: string)
    ensures ClientStripped(s) == s[Leading(s)..ClientEnd(s)] <==> Leading(s) == 0
    ensures Leading(s) == 0 ==> Canon(ClientStripped(s)) == Canon(s)
  {
    var k, e := Leading(s), ClientEnd(s);
    assert |ClientStripped(s)| == |s[k..e]| + k;
    if k == 0 {
      assert s[e..e] == [] && s[0..e] + [] == s[0..e];
      TrimmedLengthSplits(s);
      IsTrimAt(s, 0, s[0..e]);
      TrimKeepsWords(s, 0, s[0..e]);
    }
  }
}

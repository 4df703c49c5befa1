/** Strings as the C code sees them: NUL-terminated, split into words at white space. */
module Text {

  const NUL: char := '\0'

  /** isspace in the C locale. */
  predicate IsSpace(c: char) {
    c == ' ' || '\t' <= c <= '\r'
  }

  /** The C string in a buffer: what precedes the first NUL. */
  function CStr(s: string): (r: string)
    ensures |r| <= |s| && r == s[..|r|] && NUL !in r
    ensures |r| < |s| ==> s[|r|] == NUL
  {
    if s == [] || s[0] == NUL then [] else [s[0]] + CStr(s[1..])
  }

  /** The C string is found by its end. */
  lemma {:induction false} CStrAt(s: string, n: nat)
    requires n <= |s| && NUL !in s[..n] && (n == |s| || s[n] == NUL)
    ensures CStr(s) == s[..n]
  {
    if n > 0 {
      assert s[..n][0] == s[0];
      assert s[1..][..n - 1] == s[..n][1..];
      CStrAt(s[1..], n - 1);
    }
  }

  /** How much of `s` is leading white space. */
  function Leading(s: string): (n: nat)
    ensures n <= |s|
  {
    if s == [] || !IsSpace(s[0]) then 0 else 1 + Leading(s[1..])
  }

  /** How long the word at the start of `s` is. */
  function WordLength(s: string): (n: nat)
    ensures n <= |s|
  {
    if s == [] || IsSpace(s[0]) then 0 else 1 + WordLength(s[1..])
  }

  /** A maximal run of characters that are not white space. */
  ghost predicate IsWord(w: string) {
    w != [] && Inked(w)
  }

  ghost predicate AreWords(ws: seq<string>) {
    forall i :: 0 <= i < |ws| ==> IsWord(ws[i])
  }

  /** The words of `s`, in order. */
  function Words(s: string): (ws: seq<string>)
    decreases |s|
  {
    if s == [] then []
    else if IsSpace(s[0]) then Words(s[1..])
    else [s[..WordLength(s)]] + Words(s[WordLength(s)..])
  }

  lemma {:induction false} WordsAreWords(s: string)
    ensures AreWords(Words(s))
    decreases |s|
  {
    if s != [] {
      if IsSpace(s[0]) {
        WordsAreWords(s[1..]);
      } else {
        WordLengthSplits(s);
        WordsAreWords(s[WordLength(s)..]);
      }
    }
  }

  /** Words joined by single spaces. */
  function Join(ws: seq<string>): string {
    if ws == [] then [] else if |ws| == 1 then ws[0] else ws[0] + [' '] + Join(ws[1..])
  }

  /** The canonical form of a request. */
  function Canon(s: string): string {
    Join(Words(s))
  }

  ghost predicate Blank(s: string) {
    forall i :: 0 <= i < |s| ==> IsSpace(s[i])
  }

  ghost predicate Inked(s: string) {
    forall i :: 0 <= i < |s| ==> !IsSpace(s[i])
  }

  /** What the two lengths measure. */
  lemma {:induction false} LeadingSplits(s: string)
    ensures Blank(s[..Leading(s)]) && (Leading(s) < |s| ==> !IsSpace(s[Leading(s)]))
  {
    if s != [] && IsSpace(s[0]) {
      LeadingSplits(s[1..]);
      assert s[..Leading(s)] == [s[0]] + s[1..][..Leading(s[1..])];
    }
  }

  lemma {:induction false} WordLengthSplits(s: string)
    ensures Inked(s[..WordLength(s)]) && (WordLength(s) < |s| ==> IsSpace(s[WordLength(s)]))
  {
    if s != [] && !IsSpace(s[0]) {
      WordLengthSplits(s[1..]);
      assert s[..WordLength(s)] == [s[0]] + s[1..][..WordLength(s[1..])];
    }
  }

  lemma {:induction false} LeadingAt(s: string, n: nat)
    requires n <= |s| && (n < |s| ==> !IsSpace(s[n])) && forall i :: 0 <= i < n ==> IsSpace(s[i])
    ensures Leading(s) == n
  {
    if n > 0 {
      LeadingAt(s[1..], n - 1);
    }
  }

  lemma {:induction false} WordLengthAt(s: string, n: nat)
    requires n <= |s| && (n < |s| ==> IsSpace(s[n])) && forall i :: 0 <= i < n ==> !IsSpace(s[i])
    ensures WordLength(s) == n
  {
    if n > 0 {
      WordLengthAt(s[1..], n - 1);
    }
  }

  /** White space in front does not matter to the words. */
  lemma {:induction false} WordsAfterBlank(blank: string, s: string)
    requires Blank(blank)
    ensures Words(blank + s) == Words(s)
  {
    if blank == [] {
      assert blank + s == s;
    } else {
      WordsAfterBlank(blank[1..], s);
      assert (blank + s)[1..] == blank[1..] + s;
    }
  }

  /** A word in front, ended by white space. */
  lemma {:induction false} WordsCons(w: string, rest: string)
    requires IsWord(w) && (rest == [] || IsSpace(rest[0]))
    ensures Words(w + rest) == [w] + Words(rest)
  {
    var s := w + rest;
    WordLengthAt(s, |w|);
    assert s[..|w|] == w && s[|w|..] == rest;
  }

  /** Nor does white space at the end. */
  lemma {:induction false} WordsBeforeBlank(s: string, blank: string)
    requires Blank(blank)
    ensures Words(s + blank) == Words(s)
    decreases |s|
  {
    if s == [] {
      WordsAfterBlank(blank, []);
      assert blank + [] == blank == s + blank;
    } else if IsSpace(s[0]) {
      WordsBeforeBlank(s[1..], blank);
      assert (s + blank)[1..] == s[1..] + blank;
    } else {
      var n := WordLength(s);
      WordLengthSplits(s);
      WordsBeforeBlank(s[n..], blank);
      assert s + blank == s[..n] + (s[n..] + blank);
      WordsCons(s[..n], s[n..] + blank);
    }
  }

  lemma {:induction false} WordsAfterSpace(s: string)
    ensures Words([' '] + s) == Words(s)
  {
    WordsAfterBlank([' '], s);
  }

  lemma {:induction false} WordsOfTwo(w: string, j: string)
    requires IsWord(w)
    ensures Words(w + [' '] + j) == [w] + Words(j)
  {
    var rest := [' '] + j;
    calc {
      Words(w + [' '] + j);
      { assert w + [' '] + j == w + rest; }
      Words(w + rest);
      { assert rest[0] == ' '; WordsCons(w, rest); }
      [w] + Words(rest);
      { WordsAfterSpace(j); }
      [w] + Words(j);
    }
  }

  lemma {:induction false} WordsOfOne(w: string)
    requires IsWord(w)
    ensures Words(w) == [w]
  {
    WordsCons(w, []);
    assert w + [] == w;
  }

  /** The words of joined words are those words. */
  lemma {:induction false} WordsOfJoin(ws: seq<string>)
    requires AreWords(ws)
    ensures Words(Join(ws)) == ws
  {
    if |ws| == 1 {
      WordsOfOne(ws[0]);
    } else if |ws| > 1 {
      var rest := ws[1..];
      WordsOfJoin(rest);
      WordsOfTwo(ws[0], Join(rest));
    }
  }

  /** Parts with single spaces between them, and none of tab, newline, vertical tab, form feed and
      carriage return. */
  ghost predicate Plain(w: string) {
    && w != [] && w[0] != ' ' && w[|w| - 1] != ' '
    && (forall i :: 0 <= i < |w| ==> w[i] !in "\t\n\U{0B}\U{0C}\r")
    && forall i :: 0 <= i < |w| - 1 && w[i] == ' ' ==> w[i + 1] != ' '
  }

  /** What isspace takes for white space. */
  lemma {:induction false} SpacesAre(c: char)
    ensures IsSpace(c) <==> c == ' ' || c in "\t\n\U{0B}\U{0C}\r"
  {
    assert '\t' as int == 9 && '\r' as int == 13;
    assert IsSpace(c) <==> c as int == 32 || 9 <= c as int <= 13;
  }

  lemma {:induction false} WordIsPlain(w: string)
    requires IsWord(w)
    ensures Plain(w)
  {
    forall i | 0 <= i < |w| ensures w[i] != ' ' && w[i] !in "\t\n\U{0B}\U{0C}\r" {
      SpacesAre(w[i]);
    }
  }

  lemma {:induction false} JoinIsPlain(ws: seq<string>)
    requires AreWords(ws) && ws != []
    ensures Plain(Join(ws))
  {
    WordIsPlain(ws[0]);
    if |ws| > 1 {
      JoinIsPlain(ws[1..]);
    }
  }

  /** Canonical form is canonical. */
  lemma {:induction false} CanonIdempotent(s: string)
    ensures Canon(Canon(s)) == Canon(s)
  {
    WordsAreWords(s);
    WordsOfJoin(Words(s));
  }

  /** strrchr for a slash; -1 if there is none. */
  function LastSlash(path: string): (i: int)
    ensures -1 <= i < |path|
    ensures 0 <= i ==> path[i] == '/'
    ensures forall k :: i < k < |path| ==> path[k] != '/'
    decreases |path|
  {
    if path == [] then -1
    else if path[|path| - 1] == '/' then |path| - 1
    else
      var i := LastSlash(path[..|path| - 1]);
      assert forall k :: 0 <= k < |path| - 1 ==> path[..|path| - 1][k] == path[k];
      i
  }
}

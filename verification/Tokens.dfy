/** Words (demo/util.c): strtok_input cuts a line into words in place. */
module Tokens {
  import opened Options
  import opened CStrings

  /** The length of the word at the front. */
  function WordLen(s: string): (n: nat)
    ensures n <= |s| && (forall i :: 0 <= i < n ==> s[i] != ' ') && (n < |s| ==> s[n] == ' ')
  {
    if s == [] || s[0] == ' ' then 0 else 1 + WordLen(s[1..])
  }

  /** The words of a line: its maximal runs without a space. */
  function Words(s: string): seq<string>
    decreases |s|
  {
    if s == [] then []
    else if s[0] == ' ' then Words(s[1..])
    else [s[..WordLen(s)]] + Words(s[WordLen(s)..])
  }

  /** The pieces between spaces, empty ones too. */
  function Split(s: string): (p: seq<string>)
    ensures |p| > 0
  {
    if s == [] then [[]]
    else if s[0] == ' ' then [[]] + Split(s[1..])
    else var p := Split(s[1..]); [[s[0]] + p[0]] + p[1..]
  }

  function NonEmpty(p: seq<string>): seq<string> {
    if p == [] then [] else (if p[0] == [] then [] else [p[0]]) + NonEmpty(p[1..])
  }

  lemma {:induction false} SplitAtWord(s: string)
    ensures Split(s)[0] == s[..WordLen(s)]
    ensures Split(s)[1..] == if WordLen(s) < |s| then Split(s[WordLen(s) + 1..]) else []
  {
    if s != [] && s[0] != ' ' {
      SplitAtWord(s[1..]);
      assert s[..WordLen(s)] == [s[0]] + s[1..][..WordLen(s) - 1];
      assert WordLen(s) < |s| ==> s[WordLen(s) + 1..] == s[1..][WordLen(s)..];
    }
  }

  lemma WordsStep(s: string)
    requires s != [] && s[0] != ' '
    ensures Words(s) == [s[..WordLen(s)]] + if WordLen(s) < |s| then Words(s[WordLen(s) + 1..]) else []
  {
    var n := WordLen(s);
    if n < |s| {
      assert s[n..][0] == ' ' && s[n..][1..] == s[n + 1..];
    }
  }

  lemma PiecesStep(s: string)
    requires s != [] && s[0] != ' '
    ensures NonEmpty(Split(s))
            == [s[..WordLen(s)]] + NonEmpty(if WordLen(s) < |s| then Split(s[WordLen(s) + 1..]) else [])
  {
    SplitAtWord(s);
  }

  /** The words are the nonempty pieces between spaces. */
  lemma {:induction false} WordsAreNonEmptyPieces(s: string)
    ensures Words(s) == NonEmpty(Split(s))
    decreases |s|
  {
    if s == [] {
      assert NonEmpty([[]]) == [];
    } else if s[0] == ' ' {
      WordsAreNonEmptyPieces(s[1..]);
    } else {
      WordsStep(s);
      PiecesStep(s);
      if WordLen(s) < |s| {
        WordsAreNonEmptyPieces(s[WordLen(s) + 1..]);
      }
    }
  }

  predicate IsWord(w: string) {
    w != [] && forall i :: 0 <= i < |w| ==> w[i] != ' '
  }

  function Join(words: seq<string>): string {
    if words == [] then [] else if |words| == 1 then words[0] else words[0] + [' '] + Join(words[1..])
  }

  lemma WordLenOf(w: string, rest: string)
    requires IsWord(w) && (rest == [] || rest[0] == ' ')
    ensures WordLen(w + rest) == |w|
  {
    var s := w + rest;
    var n := WordLen(s);
    assert forall i :: 0 <= i < |w| ==> s[i] == w[i];
    assert rest != [] ==> s[|w|] == ' ';
  }

  predicate Blank(s: string) {
    forall i :: 0 <= i < |s| ==> s[i] == ' '
  }

  /** What follows a word: nothing, or a space and the rest. */
  function Rest(s: string): string
    requires s == [] || s[0] == ' '
  {
    if s == [] then [] else s[1..]
  }

  lemma FrontWord(w: string, rest: string)
    requires IsWord(w) && (rest == [] || rest[0] == ' ')
    ensures Words(w + rest) == [w] + Words(Rest(rest))
  {
    WordLenOf(w, rest);
    assert (w + rest)[0] == w[0];
    assert (w + rest)[..|w|] == w && (w + rest)[|w|..] == rest;
  }

  /** Words written one after the other are read back. */
  lemma {:induction false} WordsOfJoin(words: seq<string>)
    requires forall w :: w in words ==> IsWord(w)
    ensures Words(Join(words)) == words
  {
    if words != [] {
      var w := words[0];
      assert w in words;
      if |words| == 1 {
        FrontWord(w, []);
        assert w + [] == w;
      } else {
        var tail := Join(words[1..]);
        WordsOfJoin(words[1..]);
        FrontWord(w, [' '] + tail);
        assert ([' '] + tail)[1..] == tail;
        assert Join(words) == w + ([' '] + tail);
      }
    }
  }

  lemma {:induction false} WordsSkip(blank: string, t: string)
    requires Blank(blank)
    ensures Words(blank + t) == Words(t)
  {
    if blank == [] {
      assert blank + t == t;
    } else {
      WordsSkip(blank[1..], t);
      assert (blank + t)[1..] == blank[1..] + t;
    }
  }

  /** The string that starts at a place in a buffer. */
  function StringAt(s: string, pos: nat): string
    requires pos <= |s|
  {
    CStr(s[pos..])
  }

  /** strtok_input, at the level of the text: the first word, and what is left after its space. */
  lemma FirstWord(blank: string, w: string, rest: string)
    requires Blank(blank) && IsWord(w) && (rest == [] || rest[0] == ' ')
    ensures Words(blank + (w + rest)) == [w] + Words(Rest(rest))
  {
    WordsSkip(blank, w + rest);
    FrontWord(w, rest);
  }

  /** Where the text from pos ends. */
  predicate EndsAt(s: string, pos: nat, end: nat) {
    pos <= end < |s| && s[end] == NUL && forall i :: pos <= i < end ==> s[i] != NUL
  }

  lemma TextBetween(s: string, pos: nat, end: nat)
    requires EndsAt(s, pos, end)
    ensures StringAt(s, pos) == s[pos..end]
  {
    CStrIs(s[pos..], end - pos);
    assert s[pos..][..end - pos] == s[pos..end];
  }

  /** The buffer holds the string w at start. */
  predicate Holds(s: string, start: nat, w: string) {
    EndsAt(s, start, start + |w|) && s[start..start + |w|] == w
  }

  lemma FirstWordAt(s: string, pos: nat, start: nat, end: nat, stop: nat)
    requires EndsAt(s, pos, stop) && pos <= start < end <= stop
    requires forall i :: pos <= i < start ==> s[i] == ' '
    requires forall i :: start <= i < end ==> s[i] != ' '
    requires end < stop ==> s[end] == ' '
    ensures Words(StringAt(s, pos)) == [s[start..end]] + Words(if end < stop then s[end + 1..stop] else [])
  {
    TextBetween(s, pos, stop);
    FirstWord(s[pos..start], s[start..end], s[end..stop]);
    assert s[pos..stop] == s[pos..start] + (s[start..end] + s[end..stop]);
    assert end < stop ==> s[end..stop][1..] == s[end + 1..stop];
  }

  /** What the write at the end of a word does to the buffer. */
  lemma CutWord(was: string, start: nat, end: nat)
    requires start < end < |was| && forall i :: start <= i < end ==> was[i] != NUL
    ensures Holds(was[end := NUL], start, was[start..end])
  {
    assert was[end := NUL][start..end] == was[start..end];
  }

  lemma CutRest(was: string, end: nat, next: nat, stop: nat)
    requires end <= stop && EndsAt(was, end, stop) && next == if end < stop then end + 1 else end
    ensures Terminated(was[end := NUL][next..])
    ensures StringAt(was[end := NUL], next) == if end < stop then was[end + 1..stop] else []
  {
    var now := was[end := NUL];
    TextBetween(now, next, stop);
    assert now[next..stop] == was[next..stop];
    assert now[next..][stop - next] == NUL;
  }

  /** The next word of the text from pos, ended by a NUL in place, and where to go on. */
  method StrtokInput(buf: array<char>, pos: nat) returns (token: Option<nat>, next: nat)
    requires pos <= buf.Length && Terminated(buf[pos..])
    modifies buf
    ensures pos <= next < buf.Length && Terminated(buf[next..])
    ensures var words := Words(old(StringAt(buf[..], pos)));
            if words == [] then
              token == None && buf[..] == old(buf[..]) && StringAt(buf[..], next) == []
            else
              && words[0] != []
              && token.Some? && pos <= token.value && token.value + |words[0]| <= next
              && buf[..] == old(buf[..])[token.value + |words[0]| := NUL]
              && Holds(buf[..], token.value, words[0])
              && Words(StringAt(buf[..], next)) == words[1..]
  {
    ghost var was := buf[..];
    assert was[pos..] == buf[pos..];
    ghost var stop := FindEnd(was, pos);
    var start := pos;
    while buf[start] != NUL && buf[start] == ' '
      invariant pos <= start <= stop
      invariant forall i :: pos <= i < start ==> was[i] == ' '
      decreases stop - start
    {
      start := start + 1;
    }
    if buf[start] == NUL {
      assert start == stop;
      AllSpaces(was, pos, stop);
      return None, start;
    }
    var end := start + 1;
    while buf[end] != NUL && buf[end] != ' '
      invariant start < end <= stop
      invariant forall i :: start <= i < end ==> was[i] != ' '
      decreases stop - end
    {
      end := end + 1;
    }
    next := if buf[end] != NUL then end + 1 else end;
    buf[end] := NUL;
    token := Some(start);
    assert buf[..] == was[end := NUL];
    FirstWordAt(was, pos, start, end, stop);
    CutWord(was, start, end);
    CutRest(was, end, next, stop);
    assert buf[next..] == buf[..][next..];
  }

  lemma AllSpaces(s: string, pos: nat, stop: nat)
    requires EndsAt(s, pos, stop) && forall i :: pos <= i < stop ==> s[i] == ' '
    ensures Words(StringAt(s, pos)) == [] && StringAt(s, stop) == [] && Terminated(s[stop..])
  {
    TextBetween(s, pos, stop);
    WordsSkip(s[pos..stop], []);
    assert s[pos..stop] + [] == s[pos..stop];
    TextBetween(s, stop, stop);
    assert s[stop..][0] == NUL;
  }

  ghost function FindEnd(s: string, pos: nat): (stop: nat)
    requires pos <= |s| && Terminated(s[pos..])
    ensures EndsAt(s, pos, stop)
  {
    CStrEnds(s[pos..]);
    var n := |CStr(s[pos..])|;
    assert forall i :: pos <= i < pos + n ==> s[i] == s[pos..][i - pos];
    pos + n
  }

  /** A later cut leaves a word in place. */
  lemma CutKeeps(s: string, start: nat, w: string, k: nat)
    requires Holds(s, start, w) && start + |w| < k < |s|
    ensures Holds(s[k := NUL], start, w)
  {
    assert s[k := NUL][start..start + |w|] == s[start..start + |w|];
  }

  predicate AllHeld(s: string, tokens: seq<nat>, words: seq<string>, bound: nat) {
    && |tokens| <= |words|
    && forall k :: 0 <= k < |tokens| ==> Holds(s, tokens[k], words[k]) && tokens[k] + |words[k]| <= bound
  }

  /** Taking tokens until there are none, as a command's arguments are: they are the words of the line, in order,
      and each is still in place at the end. */
  method AllTokens(buf: array<char>) returns (tokens: seq<nat>)
    requires Terminated(buf[..])
    modifies buf
    ensures var words := Words(old(CStr(buf[..])));
            |tokens| == |words| && AllHeld(buf[..], tokens, words, buf.Length)
  {
    ghost var words := Words(CStr(buf[..]));
    assert buf[..][0..] == buf[..] && buf[0..] == buf[..];
    tokens := [];
    var next: nat := 0;
    while true
      invariant next < buf.Length && Terminated(buf[next..])
      invariant AllHeld(buf[..], tokens, words, next)
      invariant Words(StringAt(buf[..], next)) == words[|tokens|..]
      decreases |words| - |tokens|
    {
      ghost var was := buf[..];
      var token: Option<nat>;
      token, next := StrtokInput(buf, next);
      if token == None {
        return;
      }
      assert words[|tokens|..][0] == words[|tokens|] && words[|tokens|..][1..] == words[|tokens| + 1..];
      forall k | 0 <= k < |tokens|
        ensures Holds(buf[..], tokens[k], words[k])
      {
        CutKeeps(was, tokens[k], words[k], token.value + |words[|tokens|]|);
      }
      tokens := tokens + [token.value];
    }
  }
}

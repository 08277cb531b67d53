/** Splitting a command line into words in place, as load does with strtok_r. */
module CommandLine {
  import opened Prelude

  const SPACE: Byte := 32

  /** The length of the run of spaces, or of non-spaces, that `s` starts with. */
  function Run(s: seq<Byte>, spaces: bool): (n: nat)
    ensures n <= |s| && forall i :: 0 <= i < n ==> (s[i] == SPACE) == spaces
    ensures n < |s| ==> (s[n] == SPACE) != spaces
  {
    if s == [] || (s[0] == SPACE) != spaces then 0 else 1 + Run(s[1..], spaces)
  }

  /** The words of a line: maximal runs of characters other than spaces. */
  function Tokens(s: seq<Byte>): (r: seq<seq<Byte>>)
    ensures forall i :: 0 <= i < |r| ==> r[i] != [] && SPACE !in r[i]
    decreases |s|
  {
    var t := s[Run(s, true)..];
    if t == [] then []
    else
      var n := Run(t, false);
      [t[..n]] + Tokens(t[n..])
  }

  /** The bytes the words take on the stack, each with its null. */
  function StringBytes(args: seq<seq<Byte>>): nat {
    if args == [] then 0 else StringBytes(args[..|args| - 1]) + |args[|args| - 1]| + 1
  }

  lemma {:induction false} StringBytesFront(args: seq<seq<Byte>>)
    requires args != []
    ensures StringBytes(args) == |args[0]| + 1 + StringBytes(args[1..])
  {
    if |args| > 1 {
      var n := |args| - 1;
      StringBytesFront(args[..n]);
      assert args[..n][1..] == args[1..][..n - 1];
    }
  }

  /** Words and the nulls after them take no more than the line and its null. */
  lemma {:induction false} TokensFit(s: seq<Byte>)
    ensures StringBytes(Tokens(s)) <= |s| + 1
    decreases |s|
  {
    hide Tokens, Run, StringBytes;
    var a := Run(s, true);
    if a == |s| {
      NoWord(s);
    } else {
      var n := Run(s[a..], false);
      var w, rest := s[a..][..n], s[a..][n..];
      TokensUnfold(s, a, n);
      FrontFits(w, Tokens(rest));
      if rest == [] {
        NoWord(rest);
      } else {
        SkipSpace(rest);
        TokensFit(rest[1..]);
      }
    }
  }

  lemma NoWord(s: seq<Byte>)
    requires Run(s, true) == |s|
    ensures Tokens(s) == [] && StringBytes(Tokens(s)) == 0
  {
  }

  lemma FrontFits(w: seq<Byte>, words: seq<seq<Byte>>)
    ensures StringBytes([w] + words) == |w| + 1 + StringBytes(words)
  {
    hide StringBytes;
    StringBytesFront([w] + words);
    assert ([w] + words)[1..] == words;
  }

  lemma SkipSpace(s: seq<Byte>)
    requires s != [] && s[0] == SPACE
    ensures Tokens(s) == Tokens(s[1..])
  {
    assert s[Run(s, true)..] == s[1..][Run(s[1..], true)..];
  }

  // ---------- in place ----------

  /** From `s` on, the line has no null but its last byte. */
  predicate IsLine(line: seq<Byte>, s: nat) {
    s < |line| && line[|line| - 1] == 0 && forall k :: s <= k < |line| - 1 ==> line[k] != 0
  }

  /** The first word of the line from `s` on is at start to end. */
  predicate IsWord(line: seq<Byte>, s: nat, start: nat, end: nat) {
    && s <= start < end < |line|
    && (forall k :: s <= k < start ==> line[k] == SPACE)
    && (forall k :: start <= k < end ==> line[k] != SPACE)
    && (end < |line| - 1 ==> line[end] == SPACE)
  }

  lemma {:induction false} RunIs(s: seq<Byte>, spaces: bool, n: nat)
    requires n <= |s| && (forall i :: 0 <= i < n ==> (s[i] == SPACE) == spaces)
    requires n < |s| ==> (s[n] == SPACE) != spaces
    ensures Run(s, spaces) == n
  {
    if n > 0 { RunIs(s[1..], spaces, n - 1); }
  }

  lemma NoWords(text: seq<Byte>)
    requires forall k :: 0 <= k < |text| ==> text[k] == SPACE
    ensures Tokens(text) == []
  {
    RunIs(text, true, |text|);
  }

  /** A text's words are its first and those of what follows it. */
  lemma FirstToken(text: seq<Byte>, start: nat, end: nat)
    requires start < end <= |text|
    requires forall k :: 0 <= k < start ==> text[k] == SPACE
    requires forall k :: start <= k < end ==> text[k] != SPACE
    requires end < |text| ==> text[end] == SPACE
    ensures Tokens(text) == [text[start..end]] + Tokens(text[end..])
    ensures end < |text| ==> Tokens(text[end..]) == Tokens(text[end + 1..])
  {
    hide Tokens, Run;
    WordRun(text, start, end);
    FirstUnfolded(text, start, end);
    if end < |text| { AfterWord(text, end); }
  }

  lemma WordRun(text: seq<Byte>, start: nat, end: nat)
    requires start < end <= |text|
    requires forall k :: 0 <= k < start ==> text[k] == SPACE
    requires forall k :: start <= k < end ==> text[k] != SPACE
    requires end < |text| ==> text[end] == SPACE
    ensures Run(text, true) == start && Run(text[start..], false) == end - start
  {
    hide Run;
    RunIs(text, true, start);
    RunIs(text[start..], false, end - start);
  }

  lemma FirstUnfolded(text: seq<Byte>, start: nat, end: nat)
    requires start < end <= |text|
    requires Run(text, true) == start && Run(text[start..], false) == end - start
    ensures Tokens(text) == [text[start..end]] + Tokens(text[end..])
  {
    hide Tokens, Run;
    TokensUnfold(text, start, end - start);
    assert text[start..][..end - start] == text[start..end];
    assert text[start..][end - start..] == text[end..];
  }

  lemma AfterWord(text: seq<Byte>, end: nat)
    requires end < |text| && text[end] == SPACE
    ensures Tokens(text[end..]) == Tokens(text[end + 1..])
  {
    hide Tokens;
    SkipSpace(text[end..]);
    assert text[end..][1..] == text[end + 1..];
  }

  lemma TokensUnfold(s: seq<Byte>, a: nat, n: nat)
    requires Run(s, true) == a < |s| && Run(s[a..], false) == n
    ensures Tokens(s) == [s[a..][..n]] + Tokens(s[a..][n..])
  {
  }

  /** Skips spaces: to a word or to the end. */
  method SkipSpaces(line: array<Byte>, s: nat) returns (p: nat)
    requires IsLine(line[..], s)
    ensures s <= p < line.Length && (p < line.Length - 1 ==> line[p] != SPACE)
    ensures forall k :: s <= k < p ==> line[k] == SPACE
  {
    p := s;
    while line[p] == SPACE
      invariant s <= p < line.Length && forall k :: s <= k < p ==> line[k] == SPACE
      decreases line.Length - p
    {
      p := p + 1;
    }
  }

  method SkipWord(line: array<Byte>, s: nat) returns (p: nat)
    requires IsLine(line[..], s)
    ensures s <= p < line.Length && (p < line.Length - 1 ==> line[p] == SPACE)
    ensures forall k :: s <= k < p ==> line[k] != SPACE
  {
    p := s;
    while line[p] != SPACE && line[p] != 0
      invariant s <= p < line.Length && forall k :: s <= k < p ==> line[k] != SPACE
      decreases line.Length - p
    {
      p := p + 1;
    }
  }

  /** strtok_r at position `s`: the next word gets a null after it, and `save` is where to go on. */
  method StrtokR(line: array<Byte>, s: nat) returns (token: Option<nat>, save: nat, ghost end: nat)
    requires IsLine(line[..], s)
    modifies line
    ensures s <= save < line.Length && IsLine(line[..], save)
    ensures token.None? ==> line[..] == old(line[..]) && forall k :: s <= k < line.Length - 1 ==> line[k] == SPACE
    ensures token.Some? ==>
              && IsWord(old(line[..]), s, token.value, end) && line[..] == old(line[..])[end := 0]
              && save == if end < line.Length - 1 then end + 1 else end
  {
    var p := SkipSpaces(line, s);
    end := p;
    if line[p] == 0 {
      return None, p, p;
    }
    token := Some(p);
    p := SkipWord(line, p);
    end := p;
    assert IsWord(old(line[..]), s, token.value, end);
    if line[p] != 0 {
      line[p] := 0;
      save := p + 1;
    } else {
      save := p;
    }
    assert line[..] == old(line[..])[end := 0];
  }

  /** `word` is the string at `p`. */
  ghost predicate PointsTo(line: seq<Byte>, p: nat, word: seq<Byte>) {
    p + |word| < |line| && line[p..p + |word|] == word && line[p + |word|] == 0
  }

  /** Found so far: the first words, each ending before `s` unless the line ends there. */
  ghost predicate Found(line: seq<Byte>, argv: seq<nat>, words: seq<seq<Byte>>, s: nat) {
    && |argv| <= |words|
    && forall i :: 0 <= i < |argv| ==>
         && PointsTo(line, argv[i], words[i]) && argv[i] + |words[i]| <= s
         && (argv[i] + |words[i]| == s ==> s == |line| - 1)
  }

  /** The words from `s` on are the next one and those from `save` on. */
  lemma WordsNext(line: seq<Byte>, s: nat, start: nat, end: nat, save: nat)
    requires IsLine(line, s) && IsWord(line, s, start, end) && save == if end < |line| - 1 then end + 1 else end
    ensures Tokens(line[s..|line| - 1]) == [line[start..end]] + Tokens(line[end := 0][save..|line| - 1])
  {
    hide Tokens;
    var n := |line| - 1;
    var text := line[s..n];
    FirstToken(text, start - s, end - s);
    assert text[start - s..end - s] == line[start..end];
    assert text[end - s..] == line[end..n];
    if end < n { assert text[end - s + 1..] == line[end + 1..n]; }
    assert line[end := 0][save..n] == line[save..n];
  }

  /** A null written at or after the end of what was found does not disturb it. */
  lemma FoundMore(line: seq<Byte>, argv: seq<nat>, words: seq<seq<Byte>>, s: nat, start: nat, end: nat, save: nat)
    requires IsLine(line, s) && IsWord(line, s, start, end) && save == if end < |line| - 1 then end + 1 else end
    requires Found(line, argv, words, s) && |argv| < |words| && words[|argv|] == line[start..end]
    ensures Found(line[end := 0], argv + [start], words, save)
  {
    var after := line[end := 0];
    assert PointsTo(after, start, words[|argv|]) by { assert after[start..end] == line[start..end]; }
    forall i | 0 <= i < |argv| ensures PointsTo(after, argv[i], words[i]) {
      var p, w := argv[i], words[i];
      assert PointsTo(line, p, w);
      assert after[p..p + |w|] == line[p..p + |w|];
    }
  }

  /** The loop in load: the words of the line, as pointers into it. */
  method Tokenize(line: array<Byte>) returns (argv: seq<nat>)
    requires IsLine(line[..], 0)
    modifies line
    ensures var words := Tokens(old(line[..line.Length - 1]));
            |argv| == |words| && forall i :: 0 <= i < |argv| ==> PointsTo(line[..], argv[i], words[i])
  {
    hide IsWord, PointsTo, Tokens, Found;
    ghost var n := line.Length - 1;
    ghost var words := Tokens(line[..n]);
    var save := 0;
    argv := [];
    assert line[..][0..n] == line[..n];
    FoundNone(line[..], words);
    while true
      invariant IsLine(line[..], save) && Found(line[..], argv, words, save) && |argv| <= |words|
      invariant words[|argv|..] == Tokens(line[..][save..n])
      decreases |words| - |argv|
    {
      ghost var was := line[..];
      ghost var s := save;
      var token;
      ghost var end;
      token, save, end := StrtokR(line, save);
      if token.None? {
        NoWords(was[s..n]);
        FoundAll(was, argv, words, s);
        break;
      }
      WordsNext(was, s, token.value, end, save);
      OneMore(words, |argv|, was[token.value..end], Tokens(line[..][save..n]));
      FoundMore(was, argv, words, s, token.value, end, save);
      argv := argv + [token.value];
    }
  }

  lemma FoundNone(line: seq<Byte>, words: seq<seq<Byte>>)
    ensures Found(line, [], words, 0) && words[0..] == words
  {
  }

  lemma OneMore(words: seq<seq<Byte>>, n: nat, w: seq<Byte>, rest: seq<seq<Byte>>)
    requires n <= |words| && words[n..] == [w] + rest
    ensures n < |words| && words[n] == w && words[n + 1..] == rest
  {
    assert |words[n..]| == 1 + |rest|;
    assert words[n..][0] == w && words[n..][1..] == words[n + 1..];
    assert ([w] + rest)[1..] == rest;
  }

  lemma FoundAll(line: seq<Byte>, argv: seq<nat>, words: seq<seq<Byte>>, s: nat)
    requires Found(line, argv, words, s)
    ensures forall i :: 0 <= i < |argv| ==> i < |words| && PointsTo(line, argv[i], words[i])
  {
  }
}

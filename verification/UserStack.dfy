/** The stack a new process starts on: its arguments, laid out by setup_stack. */
module UserStack {
  import opened Prelude
  import opened CStrings
  import opened LittleEndian
  import opened Disk
  import opened CommandLine

  const STACK_PAGE := PHYS_BASE - PGSIZE
  const MAXARGS := 25
  const LINE_MAX := 4096 - (19 + MAXARGS * 4)

  /** Bytes from the top of the page down to the stack pointer. */
  function Need(args: seq<seq<Byte>>): (r: nat)
    ensures r >= 16
  {
    (StringBytes(args) + 3) / 4 * 4 + 16 + 4 * |args|
  }

  /** Every line process_execute lets through with at most MAXARGS words fits in the page. */
  lemma LineFits(line: seq<Byte>)
    requires |line| <= LINE_MAX && |Tokens(line)| <= MAXARGS
    ensures Need(Tokens(line)) <= PGSIZE
  {
    hide Tokens, StringBytes;
    TokensFit(line);
  }

  // ---------- words and strings in the page ----------

  function Word(page: seq<Byte>, a: nat): nat
    requires a + 4 <= |page|
  {
    FromLe32(page[a..a + 4])
  }

  function PutWord(page: seq<Byte>, a: nat, v: nat): (r: seq<Byte>)
    requires a + 4 <= |page|
    ensures |r| == |page|
  {
    Splice(page, a, Le32(v))
  }

  lemma WordHere(page: seq<Byte>, a: nat, v: nat)
    requires a + 4 <= |page| && v < WORD
    ensures Word(PutWord(page, a, v), a) == v
  {
    Le32RoundTrip(v);
    assert PutWord(page, a, v)[a..a + 4] == Le32(v);
  }

  lemma WordElsewhere(page: seq<Byte>, a: nat, v: nat, b: nat)
    requires a + 4 <= |page| && b + 4 <= |page| && (a + 4 <= b || b + 4 <= a)
    ensures Word(PutWord(page, a, v), b) == Word(page, b)
  {
    assert PutWord(page, a, v)[b..b + 4] == page[b..b + 4];
  }

  lemma StringElsewhere(page: seq<Byte>, a: nat, v: nat, p: nat, word: seq<Byte>)
    requires a + 4 <= p && PointsTo(page, p, word)
    ensures PointsTo(PutWord(page, a, v), p, word)
  {
    assert PutWord(page, a, v)[p..p + |word|] == page[p..p + |word|];
  }

  lemma StringRead(page: seq<Byte>, p: nat, word: seq<Byte>)
    requires PointsTo(page, p, word) && 0 !in word
    ensures CString(page[p..]) == word
  {
    assert page[p..] == word + [0] + page[p + |word| + 1..];
    CStringPrefix(word, page[p + |word| + 1..]);
  }

  // ---------- what the process finds ----------

  /** Where string `i` starts in the page. */
  function StringAt(args: seq<seq<Byte>>, i: nat): int
    requires i < |args|
  {
    PGSIZE - StringBytes(args[..i + 1])
  }

  ghost predicate Strings(page: seq<Byte>, args: seq<seq<Byte>>, n: nat)
    requires n <= |args|
  {
    forall i :: 0 <= i < n ==> 0 <= StringAt(args, i) && PointsTo(page, StringAt(args, i), args[i])
  }

  /** Where pointer `j` of `n` is in an argument vector that ends at `end`. */
  function VectorAt(n: nat, end: int, j: int): int { end - 4 * (n - j) }

  /** Pointers i to argc - 1 of the argument vector that ends at `end`. */
  ghost predicate Pointers(page: seq<Byte>, args: seq<seq<Byte>>, end: nat, i: nat)
    requires |page| == PGSIZE && i <= |args|
  {
    end + 4 <= PGSIZE && 4 * (|args| - i) <= end &&
    forall j :: i <= j < |args| ==> Word(page, VectorAt(|args|, end, j)) == STACK_PAGE + StringAt(args, j)
  }

  /** Read from the stack pointer: a return address, argc, argv, and the argument vector with its null. */
  ghost predicate Decodes(page: seq<Byte>, sp: nat, args: seq<seq<Byte>>) {
    var n := |args|;
    && |page| == PGSIZE && sp % 4 == 0 && sp + 16 + 4 * n <= PGSIZE
    && Word(page, sp + 4) == n && Word(page, sp + 8) == STACK_PAGE + sp + 12
    && Word(page, sp + 12 + 4 * n) == 0
    && forall i :: 0 <= i < n ==> Argument(page, sp + 12 + 4 * i, args[i])
  }

  /** The word at `a` points to `arg`, as a null-terminated string in the page. */
  ghost predicate Argument(page: seq<Byte>, a: nat, arg: seq<Byte>) {
    |page| == PGSIZE && a + 4 <= PGSIZE && STACK_PAGE <= Word(page, a) < PHYS_BASE &&
    CString(page[Word(page, a) - STACK_PAGE..]) == arg
  }

  // ---------- the code ----------

  /** Copies the strings down from the top of the page. */
  method PushStrings(page: array<Byte>, args: seq<seq<Byte>>) returns (pointers: seq<nat>)
    requires page.Length == PGSIZE && StringBytes(args) <= PGSIZE
    modifies page
    ensures |pointers| == |args| && Strings(page[..], args, |args|)
    ensures forall i :: 0 <= i < |args| ==> pointers[i] == STACK_PAGE + StringAt(args, i)
  {
    hide StringBytes, PointsTo;
    var sp := PGSIZE;
    pointers := [];
    assert StringBytes(args[..0]) == 0 by { NoStrings(args[..0]); }
    for i := 0 to |args|
      invariant StringBytes(args[..i]) <= PGSIZE && sp == PGSIZE - StringBytes(args[..i])
      invariant |pointers| == i && forall k :: 0 <= k < i ==> pointers[k] == STACK_PAGE + StringAt(args, k)
      invariant Strings(page[..], args, i)
    {
      NextString(args, i);
      sp := sp - (|args[i]| + 1);
      ghost var was := page[..];
      CopyIn(page, sp, args[i] + [0]);
      pointers := pointers + [STACK_PAGE + sp];
      StringsKept(was, args, i, sp, args[i] + [0]);
      NewString(was, sp, args[i]);
    }
    assert args[..|args|] == args;
  }

  method CopyIn(page: array<Byte>, a: nat, d: seq<Byte>)
    requires a + |d| <= page.Length
    modifies page
    ensures page[..] == Splice(old(page[..]), a, d)
  {
    for i := 0 to |d|
      invariant forall k :: 0 <= k < page.Length ==> page[k] == if a <= k < a + i then d[k - a] else old(page[k])
    {
      page[a + i] := d[i];
    }
  }

  lemma {:induction false} StringBytesPrefix(args: seq<seq<Byte>>, k: nat)
    requires k <= |args|
    ensures StringBytes(args[..k]) <= StringBytes(args)
    decreases |args| - k
  {
    if k < |args| {
      StringBytesPrefix(args, k + 1);
      assert args[..k + 1][..k] == args[..k];
    } else {
      assert args[..k] == args;
    }
  }

  lemma NoStrings(args: seq<seq<Byte>>)
    requires args == []
    ensures StringBytes(args) == 0
  {
  }

  lemma NextString(args: seq<seq<Byte>>, i: nat)
    requires i < |args|
    ensures StringBytes(args[..i + 1]) == StringBytes(args[..i]) + |args[i]| + 1 <= StringBytes(args)
  {
    StringBytesPrefix(args, i + 1);
    assert args[..i + 1][..i] == args[..i];
  }

  lemma NewString(page: seq<Byte>, a: nat, word: seq<Byte>)
    requires a + |word| + 1 <= |page|
    ensures PointsTo(Splice(page, a, word + [0]), a, word)
  {
    var after := Splice(page, a, word + [0]);
    assert after[a..a + |word|] == word && after[a + |word|] == 0;
  }

  /** Strings higher up are untouched. */
  lemma StringsKept(page: seq<Byte>, args: seq<seq<Byte>>, n: nat, a: nat, d: seq<Byte>)
    requires n <= |args| && Strings(page, args, n) && a + |d| <= |page| && a + |d| <= PGSIZE - StringBytes(args[..n])
    ensures Strings(Splice(page, a, d), args, n)
  {
    forall i | 0 <= i < n ensures PointsTo(Splice(page, a, d), StringAt(args, i), args[i]) {
      assert args[..n][..i + 1] == args[..i + 1];
      StringBytesPrefix(args[..n], i + 1);
      var p := StringAt(args, i);
      assert Splice(page, a, d)[p..p + |args[i]|] == page[p..p + |args[i]|];
    }
  }

  /** A word written below the strings leaves them. */
  lemma StringsAbove(page: seq<Byte>, args: seq<seq<Byte>>, a: nat, v: nat)
    requires |page| == PGSIZE && a + 4 <= PGSIZE - StringBytes(args) && Strings(page, args, |args|)
    ensures Strings(PutWord(page, a, v), args, |args|)
  {
    hide Word, PutWord, PointsTo, StringBytes;
    forall j | 0 <= j < |args| ensures PointsTo(PutWord(page, a, v), StringAt(args, j), args[j]) {
      StringBytesPrefix(args, j + 1);
      StringElsewhere(page, a, v, StringAt(args, j), args[j]);
    }
  }

  /** And so does one below the pointers. */
  lemma PointersAbove(page: seq<Byte>, args: seq<seq<Byte>>, end: nat, i: nat, a: nat, v: nat)
    requires |page| == PGSIZE && i <= |args| && Pointers(page, args, end, i) && a + 4 <= end - 4 * (|args| - i)
    ensures Pointers(PutWord(page, a, v), args, end, i) && Word(PutWord(page, a, v), end) == Word(page, end)
  {
    hide Word, PutWord, StringAt;
    WordElsewhere(page, a, v, end);
    forall j | i <= j < |args|
      ensures Word(PutWord(page, a, v), VectorAt(|args|, end, j)) == Word(page, VectorAt(|args|, end, j))
    {
      WordElsewhere(page, a, v, VectorAt(|args|, end, j));
    }
  }

  /** Stores a 32-bit word. */
  method Store(page: array<Byte>, a: nat, v: nat)
    requires page.Length == PGSIZE && a + 4 <= PGSIZE
    modifies page
    ensures page[..] == PutWord(old(page[..]), a, v)
  {
    CopyIn(page, a, Le32(v));
  }

  /** Pushes the null and the pointers to the strings, last first. */
  method PushPointers(page: array<Byte>, args: seq<seq<Byte>>, pointers: seq<nat>, top: nat) returns (sp: nat)
    requires page.Length == PGSIZE && |pointers| == |args| && 4 + 4 * |args| <= top <= PGSIZE - StringBytes(args)
    requires Strings(page[..], args, |args|)
    requires forall i :: 0 <= i < |args| ==> pointers[i] == STACK_PAGE + StringAt(args, i) < WORD
    modifies page
    ensures sp == top - 4 - 4 * |args| && Strings(page[..], args, |args|)
    ensures Pointers(page[..], args, top - 4, 0) && Word(page[..], top - 4) == 0
  {
    hide Word, PutWord, Strings, StringBytes, StringAt;
    sp := top - 4;
    ghost var n := |args|;
    ghost var was := page[..];
    Store(page, sp, 0);
    WordHere(was, sp, 0);
    StringsAbove(was, args, sp, 0);
    var i := |args|;
    while i > 0
      invariant 0 <= i <= n && sp == top - 4 - 4 * (n - i)
      invariant Strings(page[..], args, n) && Pointers(page[..], args, top - 4, i) && Word(page[..], top - 4) == 0
    {
      i := i - 1;
      sp := sp - 4;
      was := page[..];
      Store(page, sp, pointers[i]);
      StringsAbove(was, args, sp, pointers[i]);
      PointersAbove(was, args, top - 4, i + 1, sp, pointers[i]);
      WordHere(was, sp, pointers[i]);
    }
  }

  /** setup_stack: what the process finds at its stack pointer is its arguments. */
  method SetupStack(page: array<Byte>, args: seq<seq<Byte>>) returns (esp: nat)
    requires page.Length == PGSIZE && Need(args) <= PGSIZE && forall i :: 0 <= i < |args| ==> 0 !in args[i]
    modifies page
    ensures esp == PHYS_BASE - Need(args) && esp % 4 == 0
    ensures Word(page[..], esp - STACK_PAGE) == 0 && Decodes(page[..], esp - STACK_PAGE, args)
  {
    hide Word, PutWord, Strings, StringBytes, StringAt, Decodes, Pointers;
    var pointers := PushStrings(page, args);
    PointersFit(page[..], args);
    hide Need;
    var n, used := |args|, StringBytes(args);
    var padding := (4 - used % 4) % 4;
    Aligned(args, used, padding);
    var top := PGSIZE - used - padding;
    var vector := PushPointers(page, args, pointers, top);
    ghost var p0 := page[..];
    Store(page, vector - 4, STACK_PAGE + vector);
    ghost var p1 := page[..];
    Store(page, vector - 8, n);
    ghost var p2 := page[..];
    Store(page, vector - 12, 0);
    esp := STACK_PAGE + vector - 12;
    Finished(p0, p1, p2, page[..], args, vector);
  }

  lemma Aligned(args: seq<seq<Byte>>, used: nat, padding: nat)
    requires used == StringBytes(args) && padding == (4 - used % 4) % 4
    ensures (used + padding) % 4 == 0 && padding < 4 && Need(args) == used + padding + 16 + 4 * |args|
  {
    hide StringBytes;
    RoundUp(used);
  }

  lemma RoundUp(n: nat)
    ensures (n + 3) / 4 * 4 == n + (4 - n % 4) % 4
  {
    var q, r := n / 4, n % 4;
    assert n == 4 * q + r;
  }

  lemma PointersFit(page: seq<Byte>, args: seq<seq<Byte>>)
    requires |page| == PGSIZE && Strings(page, args, |args|)
    ensures forall i :: 0 <= i < |args| ==> 0 <= StringAt(args, i) < PGSIZE
  {
    forall i | 0 <= i < |args| ensures 0 <= StringAt(args, i) < PGSIZE {
      assert PointsTo(page, StringAt(args, i), args[i]);
    }
  }

  lemma Finished(p0: seq<Byte>, p1: seq<Byte>, p2: seq<Byte>, p3: seq<Byte>, args: seq<seq<Byte>>, vector: nat)
    requires |p0| == PGSIZE && 12 <= vector && vector % 4 == 0 && vector + 4 + 4 * |args| <= PGSIZE - StringBytes(args)
    requires Strings(p0, args, |args|) && Pointers(p0, args, vector + 4 * |args|, 0)
    requires Word(p0, vector + 4 * |args|) == 0
    requires p1 == PutWord(p0, vector - 4, STACK_PAGE + vector) && p2 == PutWord(p1, vector - 8, |args|)
    requires p3 == PutWord(p2, vector - 12, 0) && forall i :: 0 <= i < |args| ==> 0 !in args[i]
    ensures Word(p3, vector - 12) == 0 && Decodes(p3, vector - 12, args)
  {
    hide Word, PutWord, Strings, StringBytes, StringAt, Pointers, Argument;
    var n, end := |args|, vector + 4 * |args|;
    VectorAbove(p0, args, end, vector - 4, STACK_PAGE + vector);
    VectorAbove(p1, args, end, vector - 8, n);
    VectorAbove(p2, args, end, vector - 12, 0);
    HeadWords(p0, vector, STACK_PAGE + vector, n);
    forall i | 0 <= i < n ensures Argument(p3, vector + 4 * i, args[i]) {
      VectorRead(p3, args, vector, i);
    }
  }

  /** A word written below the argument vector leaves it and the strings. */
  lemma VectorAbove(page: seq<Byte>, args: seq<seq<Byte>>, end: nat, a: nat, v: nat)
    requires |page| == PGSIZE && end + 4 <= PGSIZE - StringBytes(args) && a + 4 <= end - 4 * |args|
    requires Strings(page, args, |args|) && Pointers(page, args, end, 0)
    ensures Strings(PutWord(page, a, v), args, |args|) && Pointers(PutWord(page, a, v), args, end, 0)
    ensures Word(PutWord(page, a, v), end) == Word(page, end)
  {
    hide Word, PutWord, Strings, StringBytes, StringAt, Pointers;
    StringsAbove(page, args, a, v);
    PointersAbove(page, args, end, 0, a, v);
  }

  lemma VectorRead(page: seq<Byte>, args: seq<seq<Byte>>, vector: nat, i: nat)
    requires |page| == PGSIZE && i < |args| && Strings(page, args, |args|) && 0 !in args[i]
    requires Pointers(page, args, vector + 4 * |args|, 0)
    ensures Argument(page, vector + 4 * i, args[i])
  {
    hide Word, Strings, StringAt;
    assert VectorAt(|args|, vector + 4 * |args|, i) == vector + 4 * i;
    ArgumentRead(page, args, vector + 4 * i, i);
  }

  lemma HeadWords(p0: seq<Byte>, vector: nat, argv: nat, argc: nat)
    requires |p0| == PGSIZE && 12 <= vector <= PGSIZE && argv < WORD && argc < WORD
    ensures var p := PutWord(PutWord(PutWord(p0, vector - 4, argv), vector - 8, argc), vector - 12, 0);
            Word(p, vector - 4) == argv && Word(p, vector - 8) == argc && Word(p, vector - 12) == 0
  {
    hide Word, PutWord;
    var p1 := PutWord(p0, vector - 4, argv);
    var p2 := PutWord(p1, vector - 8, argc);
    WordHere(p0, vector - 4, argv);
    WordElsewhere(p1, vector - 8, argc, vector - 4);
    WordElsewhere(p2, vector - 12, 0, vector - 4);
    WordHere(p1, vector - 8, argc);
    WordElsewhere(p2, vector - 12, 0, vector - 8);
    WordHere(p2, vector - 12, 0);
  }

  lemma ArgumentRead(page: seq<Byte>, args: seq<seq<Byte>>, a: nat, i: nat)
    requires |page| == PGSIZE && a + 4 <= PGSIZE && i < |args| && Strings(page, args, |args|) && 0 !in args[i]
    requires Word(page, a) == STACK_PAGE + StringAt(args, i)
    ensures Argument(page, a, args[i])
  {
    assert PointsTo(page, StringAt(args, i), args[i]);
    StringRead(page, StringAt(args, i), args[i]);
  }

  /** The string that starts at `p` of a line. */
  method ArgAt(line: array<Byte>, p: nat, ghost word: seq<Byte>) returns (arg: seq<Byte>)
    requires PointsTo(line[..], p, word) && 0 !in word
    ensures arg == word
  {
    arg := CString(line[p..]);
    StringRead(line[..], p, word);
    assert line[p..] == line[..][p..];
  }

  /**
   * From process_execute's length check to the process's stack: a line that passes, of 1 to MAXARGS words,
   * is found again word by word at the stack pointer. None is a panic.
   */
  method StartStack(line: array<Byte>, page: array<Byte>) returns (esp: Option<nat>)
    requires line != page && page.Length == PGSIZE && IsLine(line[..], 0)
    requires 1 <= |Tokens(line[..line.Length - 1])| <= MAXARGS
    modifies line, page
    ensures esp.None? <==> line.Length - 1 > LINE_MAX
    ensures esp.Some? ==> STACK_PAGE <= esp.value < PHYS_BASE && esp.value % 4 == 0
    ensures esp.Some? ==> Decodes(page[..], esp.value - STACK_PAGE, Tokens(old(line[..line.Length - 1])))
  {
    hide Decodes, PointsTo, Tokens, Need;
    if line.Length - 1 > LINE_MAX {
      return None;
    }
    ghost var text := line[..line.Length - 1];
    LineFits(text);
    WordsHaveNoNull(text);
    var argv := Tokenize(line);
    label tokens:
    var args: seq<seq<Byte>> := [];
    for i := 0 to |argv|
      invariant args == Tokens(text)[..i] && line[..] == old@tokens(line[..])
    {
      var arg := ArgAt(line, argv[i], Tokens(text)[i]);
      args := args + [arg];
    }
    assert args == Tokens(text);
    var sp := SetupStack(page, args);
    esp := Some(sp);
  }

  /** Words of a line without nulls have none. */
  lemma {:induction false} WordsHaveNoNull(text: seq<Byte>)
    requires 0 !in text
    ensures forall i :: 0 <= i < |Tokens(text)| ==> 0 !in Tokens(text)[i]
    decreases |text|
  {
    hide Tokens, Run;
    var a := Run(text, true);
    if a == |text| {
      NoWord(text);
    } else {
      var n := Run(text[a..], false);
      TokensUnfold(text, a, n);
      WordsHaveNoNull(text[a..][n..]);
    }
  }

  // ---------- the bound is tight ----------

  function Letters(k: nat): (r: seq<Byte>)
    ensures |r| == k && forall i :: 0 <= i < k ==> r[i] == 97
  {
    seq(k, _ => 97)
  }

  /** A line of `n` one-letter words and a last word of `k` letters. */
  function Line(n: nat, k: nat): (r: seq<Byte>)
    ensures |r| == 2 * n + k
  {
    if n == 0 then Letters(k) else [97, SPACE] + Line(n - 1, k)
  }

  lemma {:induction false} LineTokens(n: nat, k: nat)
    requires k > 0
    ensures |Tokens(Line(n, k))| == n + 1 && StringBytes(Tokens(Line(n, k))) == 2 * n + k + 1
  {
    hide Tokens;
    var text := Line(n, k);
    if n == 0 {
      FirstToken(text, 0, k);
      NoWords(text[k..]);
      assert Tokens(text) == [text[0..k]];
      StringBytesFront(Tokens(text));
    } else {
      LineTokens(n - 1, k);
      FirstToken(text, 0, 1);
      assert text[2..] == Line(n - 1, k) && text[1 + 1..] == text[2..];
      StringBytesFront(Tokens(text));
      assert Tokens(text)[1..] == Tokens(Line(n - 1, k));
    }
  }

  /** A line of LINE_MAX bytes and MAXARGS words fills the page to its last byte. */
  lemma FillsPage()
    ensures var line := Line(MAXARGS - 1, LINE_MAX - 2 * (MAXARGS - 1));
            |line| == LINE_MAX && |Tokens(line)| == MAXARGS && Need(Tokens(line)) == PGSIZE
  {
    LineTokens(MAXARGS - 1, LINE_MAX - 2 * (MAXARGS - 1));
  }
}

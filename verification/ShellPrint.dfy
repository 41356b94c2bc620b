/**
 What the grammar of the shell means: command trees over words, printed with as few
 parentheses as the precedence of "|", "&" and ";" allows, are read back unchanged.
 */
module ShellPrint {
  import opened Shell

  datatype Tree =
    | TExec(argv: seq<string>)
    | TRedir(cmd: Tree, file: string, mode: int, fd: int)
    | TPipe(left: Tree, right: Tree)
    | TBack(cmd: Tree)
    | TList(left: Tree, right: Tree)

  predicate IsWord(w: string) {
    w != "" && forall j :: 0 <= j < |w| ==> IsWordChar(w[j]) && w[j] != '\0'
  }

  /** The trees the shell can be asked to run. */
  predicate Legal(t: Tree) {
    match t
    case TExec(argv) => |argv| < MAXARGS && forall k :: 0 <= k < |argv| ==> IsWord(argv[k])
    case TRedir(c, file, mode, fd) =>
      && Legal(c) && IsWord(file)
      && ((mode == O_RDONLY && fd == 0) || (mode == O_WRONLY + O_CREATE && fd == 1))
    case TPipe(left, right) => Legal(left) && Legal(right)
    case TBack(c) => Legal(c)
    case TList(left, right) => Legal(left) && Legal(right)
  }

  function Word(b: string, w: Span): string {
    if w.q <= w.eq <= |b| then b[w.q..w.eq] else ""
  }

  /** The tree a parsed command stands for. */
  function TreeOf(b: string, cmd: Cmd): Tree {
    match cmd
    case Exec(argv) => TExec(seq(|argv|, k requires 0 <= k < |argv| => Word(b, argv[k])))
    case Redir(c, file, mode, fd) => TRedir(TreeOf(b, c), Word(b, file), mode, fd)
    case Pipe(left, right) => TPipe(TreeOf(b, left), TreeOf(b, right))
    case Back(c) => TBack(TreeOf(b, c))
    case List(left, right) => TList(TreeOf(b, left), TreeOf(b, right))
  }

  // ---- printing ----

  /** How loosely the outermost operator of a tree binds. */
  function Level(t: Tree): nat {
    match t
    case TExec(_) => 0
    case TRedir(_, _, _, _) => 0
    case TPipe(_, _) => 1
    case TBack(_) => 2
    case TList(_, _) => 3
  }

  function Join(argv: seq<string>): string {
    if argv == [] then "" else if |argv| == 1 then argv[0] else argv[0] + " " + Join(argv[1..])
  }

  function Arrow(fd: int): string {
    if fd == 0 then "<" else ">"
  }

  function Bare(t: Tree): string
    decreases t, 0
  {
    match t
    case TExec(argv) => Join(argv)
    case TRedir(c, file, _, fd) => Print(c, 0) + (Arrow(fd) + file)
    case TPipe(left, right) => Print(left, 0) + ("|" + Print(right, 1))
    case TBack(c) => Print(c, 2) + "&"
    case TList(left, right) => Print(left, 2) + (";" + Print(right, 3))
  }

  /** A tree where only operators that bind at least as tightly as `level` may stand bare. */
  function Print(t: Tree, level: nat): string
    decreases t, 1
  {
    if Level(t) <= level then Bare(t) else "(" + (Bare(t) + ")")
  }

  // ---- text at a position ----

  predicate At(b: string, i: nat, s: string) {
    i + |s| <= |b| && b[i..i + |s|] == s
  }

  lemma AtSplit(b: string, i: nat, s: string, t: string)
    requires At(b, i, s + t)
    ensures At(b, i, s) && At(b, i + |s|, t)
  {
    var w := b[i..i + |s + t|];
    assert b[i..i + |s|] == w[..|s|] == s;
    assert b[i + |s|..i + |s| + |t|] == w[|s|..] == t;
  }

  lemma AtInside(b: string, i: nat, s: string)
    requires At(b, i, s)
    ensures i + |s| <= |b|
  {
  }

  /** Two texts with one character between them. */
  lemma AtMiddle(b: string, i: nat, s: string, c: char, t: string)
    requires At(b, i, s + ([c] + t))
    ensures var k := i + |s|;
            && k + 1 + |t| == i + |s + ([c] + t)| <= |b|
            && At(b, i, s) && b[k] == c && At(b, k + 1, t)
  {
    AtSplit(b, i, s, [c] + t);
    AtSplit(b, i + |s|, [c], t);
    AtChar(b, i + |s|, [c], 0);
  }

  lemma AtChar(b: string, i: nat, s: string, j: nat)
    requires At(b, i, s) && j < |s|
    ensures b[i + j] == s[j]
  {
    assert b[i..i + |s|][j] == s[j];
  }

  /** Printed text never starts with a space. */
  lemma {:induction false} StartsTight(t: Tree, level: nat)
    requires Legal(t)
    ensures var s := Print(t, level); s == "" || !IsSpace(s[0])
    decreases t
  {
    match t
    case TExec(argv) =>
      if argv != [] {
        assert Join(argv)[0] == argv[0][0];
        assert IsWordChar(argv[0][0]);
      }
    case TRedir(c, _, _, _) => StartsTight(c, 0);
    case TPipe(left, _) => StartsTight(left, 0);
    case TBack(c) => StartsTight(c, 2);
    case TList(left, _) => StartsTight(left, 2);
  }

  // ---- tokens at a position ----

  /** A place where a word ends and no space follows: the end of the input or a symbol. */
  predicate Edge(b: string, e: nat) {
    e == |b| || (e < |b| && IsSymbol(b[e]))
  }

  /** A place where a simple command ends. */
  predicate Stop(b: string, e: nat) {
    e == |b| || (e < |b| && EndsExec(b[e]))
  }

  lemma {:induction false} WordEndIs(b: string, i: nat, e: nat)
    requires i <= e <= |b| && (forall j :: i <= j < e ==> IsWordChar(b[j]))
    requires e < |b| ==> !IsWordChar(b[e])
    ensures WordEnd(b, i) == e
    decreases e - i
  {
    if i < e {
      WordEndIs(b, i + 1, e);
    }
  }

  lemma WordToken(b: string, i: nat, w: string)
    requires '\0' !in b && IsWord(w) && At(b, i, w)
    requires i + |w| < |b| ==> !IsWordChar(b[i + |w|])
    ensures GetToken(b, i) == Token('a', Span(i, i + |w|), SkipSpace(b, i + |w|))
    ensures Word(b, Span(i, i + |w|)) == w
  {
    hide SkipSpace, WordEnd;
    var e := i + |w|;
    forall j | i <= j < e
      ensures IsWordChar(b[j])
    {
      AtChar(b, i, w, j - i);
    }
    assert IsWordChar(b[i]);
    WordEndIs(b, i, e);
  }

  lemma SymbolToken(b: string, i: nat)
    requires i < |b| && '\0' !in b && IsSymbol(b[i]) && (b[i] == '>' ==> Ch(b, i + 1) != '>')
    ensures GetToken(b, i) == Token(b[i], Span(i, i + 1), SkipSpace(b, i + 1))
  {
    hide SkipSpace, WordEnd;
  }

  lemma DoubleArrowToken(b: string, i: nat)
    requires i + 2 <= |b| && '\0' !in b && b[i] == '>' && b[i + 1] == '>'
    ensures GetToken(b, i) == Token('+', Span(i, i + 2), SkipSpace(b, i + 2))
  {
    hide SkipSpace, WordEnd;
  }

  lemma RedirAt(b: string, i: nat, file: string, mode: int, fd: int)
    requires '\0' !in b && At(b, i, Arrow(fd) + file) && IsWord(file)
    requires (mode == O_RDONLY && fd == 0) || (mode == O_WRONLY + O_CREATE && fd == 1)
    requires Edge(b, i + 1 + |file|)
    ensures var e := i + 1 + |file|;
            && Word(b, Span(i + 1, e)) == file && i < |b| && IsSymbol(b[i])
            && ReadRedirs(b, i) == After([(Span(i + 1, e), mode, fd)], ReadRedirs(b, e))
  {
    hide SkipSpace, WordEnd, GetToken, ReadRedirs, IsWord, At, Word;
    var e := i + 1 + |file|;
    assert [] + (Arrow(fd) + file) == Arrow(fd) + file;
    AtMiddle(b, i, [], Arrow(fd)[0], file);
    assert IsWordChar(b[i + 1]) by {
      WordStarts(file);
      AtChar(b, i + 1, file, 0);
    }
    SymbolToken(b, i);
    WordToken(b, i + 1, file);
    RedirsSkip(b, i);
    RedirsStep(b, i, []);
    assert [] + [(Span(i + 1, e), mode, fd)] == [(Span(i + 1, e), mode, fd)];
  }

  /** A double arrow opens the file as a single one does: nothing is appended. */
  lemma DoubleArrow(b: string, i: nat, file: string)
    requires '\0' !in b && At(b, i, ">>" + file) && IsWord(file) && Edge(b, i + 2 + |file|)
    ensures var e := i + 2 + |file|;
            && Word(b, Span(i + 2, e)) == file
            && ReadRedirs(b, i) == After([(Span(i + 2, e), O_WRONLY + O_CREATE, 1)], ReadRedirs(b, e))
  {
    hide SkipSpace, WordEnd, GetToken, ReadRedirs, IsWord, At, Word;
    var e := i + 2 + |file|;
    ArrowsAt(b, i, file);
    DoubleArrowToken(b, i);
    WordToken(b, i + 2, file);
    RedirsSkip(b, i);
    RedirsStep(b, i, []);
    assert [] + [(Span(i + 2, e), O_WRONLY + O_CREATE, 1)] == [(Span(i + 2, e), O_WRONLY + O_CREATE, 1)];
  }

  lemma ArrowsAt(b: string, i: nat, file: string)
    requires At(b, i, ">>" + file) && IsWord(file)
    ensures i + 2 + |file| <= |b| && b[i] == '>' && b[i + 1] == '>' && At(b, i + 2, file)
    ensures i + 2 < |b| && IsWordChar(b[i + 2])
  {
    hide IsWord, At;
    assert [] + (['>'] + (['>'] + file)) == ">>" + file;
    AtMiddle(b, i, [], '>', ['>'] + file);
    assert [] + (['>'] + file) == ['>'] + file;
    AtMiddle(b, i + 1, [], '>', file);
    WordStarts(file);
    AtChar(b, i + 2, file, 0);
  }

  lemma WordStarts(w: string)
    requires IsWord(w)
    ensures w != "" && IsWordChar(w[0])
  {
  }

  // ---- simple commands ----

  lemma ReadStops(b: string, e: nat, argv: seq<Span>, rs: seq<(Span, int, int)>)
    requires '\0' !in b && Stop(b, e)
    ensures ReadArgs(b, e, argv, rs) == Ok(Wrap(Exec(argv), rs), e)
  {
    hide WordEnd;
  }

  /** One more word of a simple command. */
  lemma ReadWord(b: string, i: nat, w: string, argv: seq<Span>, next: nat, more: seq<(Span, int, int)>, e: nat)
    requires '\0' !in b && IsWord(w) && At(b, i, w) && |argv| + 1 < MAXARGS
    requires i + |w| < |b| ==> !IsWordChar(b[i + |w|])
    requires SkipSpace(b, i + |w|) == next <= |b| && ReadRedirs(b, next) == Redirs(more, e) && e <= |b|
    ensures ReadArgs(b, i, argv, []) == ReadArgs(b, e, argv + [Span(i, i + |w|)], more)
    ensures Word(b, Span(i, i + |w|)) == w
  {
    hide SkipSpace, WordEnd, GetToken, ReadRedirs;
    AtChar(b, i, w, 0);
    assert IsWordChar(w[0]);
    WordToken(b, i, w);
    assert [] + more == more;
  }

  lemma JoinStarts(argv: seq<string>)
    requires argv != [] && IsWord(argv[0])
    ensures Join(argv) != "" && IsWordChar(Join(argv)[0])
  {
    assert Join(argv)[0] == argv[0][0];
  }

  /** A single space before the next word: no redirections come between. */
  lemma SpaceThenWord(b: string, k: nat)
    requires '\0' !in b && k + 1 < |b| && b[k] == ' ' && IsWordChar(b[k + 1])
    ensures SkipSpace(b, k) == k + 1 && ReadRedirs(b, k + 1) == Redirs([], k + 1)
  {
    hide WordEnd, GetToken;
    assert SkipSpace(b, k + 1) == k + 1;
  }

  predicate AllWords(argv: seq<string>) {
    forall k :: 0 <= k < |argv| ==> IsWord(argv[k])
  }

  lemma JoinCons(argv: seq<string>)
    requires |argv| > 1 && AllWords(argv)
    ensures Join(argv) == argv[0] + ([' '] + Join(argv[1..])) && AllWords(argv[1..])
    ensures Join(argv[1..]) != "" && IsWordChar(Join(argv[1..])[0])
  {
    hide IsWord;
    assert argv[0] + " " + Join(argv[1..]) == argv[0] + ([' '] + Join(argv[1..]));
    JoinStarts(argv[1..]);
  }

  /** The words `argv` at `i`, then the redirections `more` up to the end of the command at `e`. */
  ghost predicate ArgsThen(b: string, i: nat, argv: seq<string>, more: seq<(Span, int, int)>, e: nat) {
    && '\0' !in b && argv != [] && At(b, i, Join(argv))
    && AllWords(argv)
    && Edge(b, i + |Join(argv)|) && ReadRedirs(b, i + |Join(argv)|) == Redirs(more, e)
    && e <= |b| && Stop(b, e)
  }

  /** The text past the first of several words. */
  lemma DropText(b: string, i: nat, argv: seq<string>, more: seq<(Span, int, int)>, e: nat)
    requires ArgsThen(b, i, argv, more, e) && |argv| > 1
    ensures var k := i + |argv[0]|;
            && k + 1 < |b| && At(b, i, argv[0]) && b[k] == ' ' && IsWordChar(b[k + 1])
            && ArgsThen(b, k + 1, argv[1..], more, e)
  {
    hide SkipSpace, WordEnd, GetToken, ReadRedirs, IsWordChar, At, Edge, Stop, Join, AllWords;
    var w, tail := argv[0], argv[1..];
    JoinCons(argv);
    AtMiddle(b, i, w, ' ', Join(tail));
    AtChar(b, i + |w| + 1, Join(tail), 0);
  }

  lemma DropWord(b: string, i: nat, argv: seq<string>, got: seq<Span>, more: seq<(Span, int, int)>, e: nat)
    requires ArgsThen(b, i, argv, more, e) && |argv| > 1 && |got| + 1 < MAXARGS
    ensures var k := i + |argv[0]|;
            && ArgsThen(b, k + 1, argv[1..], more, e) && Word(b, Span(i, k)) == argv[0]
            && ReadArgs(b, i, got, []) == ReadArgs(b, k + 1, got + [Span(i, k)], [])
  {
    hide SkipSpace, WordEnd, GetToken, ReadRedirs, ReadArgs, IsWord, Join, At;
    var k := i + |argv[0]|;
    DropText(b, i, argv, more, e);
    SpaceThenWord(b, k);
    ReadWord(b, i, argv[0], got, k + 1, [], k + 1);
  }

  lemma LastWord(b: string, i: nat, argv: seq<string>, got: seq<Span>, more: seq<(Span, int, int)>, e: nat)
    requires ArgsThen(b, i, argv, more, e) && |argv| == 1 && |got| + 1 < MAXARGS
    ensures var w := Span(i, i + |argv[0]|);
            && Word(b, w) == argv[0]
            && ReadArgs(b, i, got, []) == Ok(Wrap(Exec(got + [w]), more), e)
  {
    hide SkipSpace, WordEnd, GetToken, ReadRedirs, ReadArgs;
    var k := i + |argv[0]|;
    ReadWord(b, i, argv[0], got, k, more, e);
    ReadStops(b, e, got + [Span(i, k)], more);
  }

  lemma {:induction false} ArgsAt(b: string, i: nat, argv: seq<string>, got: seq<Span>,
                                  more: seq<(Span, int, int)>, e: nat)
    returns (ws: seq<Span>)
    requires ArgsThen(b, i, argv, more, e) && |argv| > 0 && |got| + |argv| < MAXARGS && i <= |b| && '\0' !in b
    ensures |ws| == |argv| && forall k :: 0 <= k < |ws| ==> Word(b, ws[k]) == argv[k]
    ensures ReadArgs(b, i, got, []) == Ok(Wrap(Exec(got + ws), more), e)
    decreases |argv|
  {
    hide SkipSpace, WordEnd, GetToken, ReadRedirs, ReadArgs, Word, ArgsThen, Wrap;
    var k := i + |argv[0]|;
    if |argv| == 1 {
      ws := [Span(i, k)];
      LastWord(b, i, argv, got, more, e);
    } else {
      var tail := argv[1..];
      DropWord(b, i, argv, got, more, e);
      DropText(b, i, argv, more, e);
      var rest := ArgsAt(b, k + 1, tail, got + [Span(i, k)], more, e);
      ws := [Span(i, k)] + rest;
      assert (got + [Span(i, k)]) + rest == got + ws;
      forall j | 0 <= j < |ws|
        ensures Word(b, ws[j]) == argv[j]
      {
        if j > 0 {
          assert tail[j - 1] == argv[j];
        }
      }
    }
  }

  // ---- the grammar, level by level ----

  /** Whether printing `t` at `level` needs parentheses. */
  function Paren(t: Tree, level: nat): nat {
    if Level(t) > level then 1 else 0
  }

  /** A simple command or block, and the redirections `more` that follow its text. */
  lemma {:induction false} ExecAt(b: string, i: nat, t: Tree, more: seq<(Span, int, int)>, e: nat)
    returns (c: Cmd)
    requires '\0' !in b && Legal(t) && At(b, i, Print(t, 0)) && Edge(b, i + |Print(t, 0)|)
    requires ReadRedirs(b, i + |Print(t, 0)|) == Redirs(more, e) && e <= |b| && Stop(b, e)
    ensures ParseExec(b, i) == Ok(Wrap(c, more), e) && TreeOf(b, c) == t
    decreases t, Paren(t, 0), 1
  {
    hide WordEnd, GetToken, SkipSpace, ReadArgs, ReadRedirs, ParseExec, ParseLine;
    match t
    case TExec(argv) =>
      c := SimpleAt(b, i, argv, more, e);
    case TRedir(inner, file, mode, fd) =>
      c := RedirectedAt(b, i, t, more, e);
    case _ =>
      c := ParenAt(b, i, t, more, e);
  }

  lemma {:induction false} ParenAt(b: string, i: nat, t: Tree, more: seq<(Span, int, int)>, e: nat)
    returns (c: Cmd)
    requires '\0' !in b && Level(t) > 0 && Legal(t) && At(b, i, Print(t, 0)) && Edge(b, i + |Print(t, 0)|)
    requires ReadRedirs(b, i + |Print(t, 0)|) == Redirs(more, e)
    ensures ParseExec(b, i) == Ok(Wrap(c, more), e) && TreeOf(b, c) == t
    decreases t, 1, 0
  {
    hide WordEnd, GetToken, SkipSpace, ReadArgs, ReadRedirs, ParseExec, ParseLine, At, Bare, Legal, TreeOf, Wrap;
    var k := i + 1 + |Bare(t)|;
    assert [] + ("(" + (Bare(t) + ")")) == Print(t, 0);
    AtMiddle(b, i, [], '(', Bare(t) + ")");
    AtMiddle(b, i + 1, Bare(t), ')', []);
    c := LineAt(b, i + 1, t);
    TightAfter(b, i, t, 3);
    BlockAt(b, i, k, c, more, e);
  }

  lemma SimpleAt(b: string, i: nat, argv: seq<string>, more: seq<(Span, int, int)>, e: nat) returns (c: Cmd)
    requires '\0' !in b && Legal(TExec(argv)) && At(b, i, Join(argv)) && Edge(b, i + |Join(argv)|)
    requires ReadRedirs(b, i + |Join(argv)|) == Redirs(more, e) && e <= |b| && Stop(b, e)
    ensures ParseExec(b, i) == Ok(Wrap(c, more), e) && TreeOf(b, c) == TExec(argv)
  {
    hide WordEnd, GetToken, ReadArgs, SkipSpace, ParseExec, ReadRedirs, At;
    if argv == [] {
      assert Join(argv) == "";
      NotParen(b, i, more, e);
      ReadStops(b, e, [], more);
      ExecUnfolds(b, i, more, e, Ok(Wrap(Exec([]), more), e));
      c := Exec([]);
    } else {
      JoinStarts(argv);
      AtChar(b, i, Join(argv), 0);
      WordNoRedirs(b, i);
      var ws := ArgsAt(b, i, argv, [], more, e);
      assert [] + ws == ws;
      ExecUnfolds(b, i, [], i, Ok(Wrap(Exec(ws), more), e));
      c := Exec(ws);
      assert TreeOf(b, c).argv == argv;
    }
  }

  lemma NotParen(b: string, i: nat, more: seq<(Span, int, int)>, e: nat)
    requires '\0' !in b && Edge(b, i) && ReadRedirs(b, i) == Redirs(more, e) && Stop(b, e)
    ensures i < |b| ==> b[i] != '('
  {
    hide WordEnd, GetToken, SkipSpace;
  }

  lemma WordNoRedirs(b: string, i: nat)
    requires '\0' !in b && i < |b| && IsWordChar(b[i])
    ensures ReadRedirs(b, i) == Redirs([], i)
  {
    hide WordEnd, GetToken, SkipSpace;
  }

  lemma ExecUnfolds(b: string, i: nat, rs: seq<(Span, int, int)>, k: nat, r: Parsed)
    requires '\0' !in b && i <= |b| && k <= |b| && (i < |b| ==> !IsSpace(b[i]) && b[i] != '(')
    requires ReadRedirs(b, i) == Redirs(rs, k) && ReadArgs(b, k, [], rs) == r
    ensures ParseExec(b, i) == r
  {
    hide WordEnd, GetToken, SkipSpace, ReadArgs, ReadRedirs;
  }

  lemma {:induction false} RedirectedAt(b: string, i: nat, t: Tree, more: seq<(Span, int, int)>, e: nat)
    returns (c: Cmd)
    requires '\0' !in b && t.TRedir? && Legal(t) && At(b, i, Print(t, 0)) && Edge(b, i + |Print(t, 0)|)
    requires ReadRedirs(b, i + |Print(t, 0)|) == Redirs(more, e) && e <= |b| && Stop(b, e)
    ensures ParseExec(b, i) == Ok(Wrap(c, more), e) && TreeOf(b, c) == t
    decreases t, 0, 0
  {
    hide WordEnd, GetToken, ReadArgs, SkipSpace, ParseExec, ReadRedirs;
    var TRedir(inner, file, mode, fd) := t;
    var k := i + |Print(inner, 0)|;
    AtSplit(b, i, Print(inner, 0), Arrow(fd) + file);
    RedirAt(b, k, file, mode, fd);
    var r := (Span(k + 1, k + 1 + |file|), mode, fd);
    var c' := ExecAt(b, i, inner, [r] + more, e);
    c := Redir(c', r.0, mode, fd);
    assert ([r] + more)[1..] == more;
  }

  lemma BlockAt(b: string, i: nat, k: nat, c: Cmd, more: seq<(Span, int, int)>, e: nat)
    requires '\0' !in b && i < k < |b| && b[i] == '(' && b[k] == ')'
    requires GetToken(b, i).next == i + 1 && ParseLine(b, i + 1) == Ok(c, k)
    requires Edge(b, k + 1) && ReadRedirs(b, k + 1) == Redirs(more, e)
    ensures ParseExec(b, i) == Ok(Wrap(c, more), e)
  {
    hide WordEnd, GetToken, ReadArgs, SkipSpace, ParseLine, ReadRedirs;
    SymbolToken(b, i);
    SymbolToken(b, k);
  }

  /** A pipeline, up to the end of the input or a symbol other than a bar. */
  lemma {:induction false} PipeAt(b: string, i: nat, t: Tree) returns (c: Cmd)
    requires '\0' !in b && Legal(t) && At(b, i, Print(t, 1))
    requires Stop(b, i + |Print(t, 1)|) && Ch(b, i + |Print(t, 1)|) != '|'
    ensures ParsePipe(b, i) == Ok(c, i + |Print(t, 1)|) && TreeOf(b, c) == t
    decreases t, Paren(t, 1), 2
  {
    hide WordEnd, GetToken, SkipSpace, ReadArgs, ReadRedirs, ParseExec, ParsePipe;
    var e := i + |Print(t, 1)|;
    match t
    case TPipe(left, right) =>
      var k := i + |Print(left, 0)|;
      AtMiddle(b, i, Print(left, 0), '|', Print(right, 1));
      NoRedirs(b, k);
      var l := ExecAt(b, i, left, [], k);
      var r := PipeAt(b, k + 1, right);
      TightAfter(b, k, right, 1);
      PipeMore(b, i, l, k, r, e);
      c := Pipe(l, r);
    case _ =>
      NoRedirs(b, e);
      c := ExecAt(b, i, t, [], e);
      PipeLast(b, i, c, e);
  }

  lemma PipeLast(b: string, i: nat, c: Cmd, e: nat)
    requires '\0' !in b && i <= |b| && Stop(b, e) && Ch(b, e) != '|' && ParseExec(b, i) == Ok(c, e)
    ensures ParsePipe(b, i) == Ok(c, e)
  {
    hide WordEnd, GetToken, SkipSpace, ParseExec;
  }

  lemma PipeMore(b: string, i: nat, l: Cmd, k: nat, r: Cmd, e: nat)
    requires '\0' !in b && i <= k < |b| && b[k] == '|' && GetToken(b, k).next == k + 1
    requires ParseExec(b, i) == Ok(l, k) && ParsePipe(b, k + 1) == Ok(r, e)
    ensures ParsePipe(b, i) == Ok(Pipe(l, r), e)
  {
    hide WordEnd, GetToken, SkipSpace, ParseExec;
  }

  lemma NoRedirs(b: string, e: nat)
    requires '\0' !in b && Stop(b, e)
    ensures ReadRedirs(b, e) == Redirs([], e)
  {
    hide WordEnd, GetToken;
  }

  /** The text after an operator starts right behind it. */
  lemma TightAfter(b: string, k: nat, t: Tree, level: nat)
    requires '\0' !in b && Legal(t) && k < |b| && IsSymbol(b[k]) && b[k] != '>'
    requires At(b, k + 1, Print(t, level)) && Stop(b, k + 1 + |Print(t, level)|)
    ensures GetToken(b, k).next == k + 1 && SkipSpace(b, k) == k
  {
    hide WordEnd, SkipSpace;
    SymbolToken(b, k);
    StartsTight(t, level);
    if Print(t, level) != "" {
      AtChar(b, k + 1, Print(t, level), 0);
    }
  }

  /** A pipeline and its ampersands: `c` is what the loop over them holds at the end of the text. */
  lemma {:induction false} BacksAt(b: string, i: nat, t: Tree) returns (c: Cmd)
    requires '\0' !in b && Legal(t) && At(b, i, Print(t, 2))
    requires Stop(b, i + |Print(t, 2)|) && Ch(b, i + |Print(t, 2)|) != '|'
    ensures TreeOf(b, c) == t && BackedTo(b, i, c, i + |Print(t, 2)|)
    decreases t, Paren(t, 2), 3
  {
    hide WordEnd, GetToken, SkipSpace, ParsePipe, ReadBacks;
    match t
    case TBack(inner) =>
      var k := i + |Print(inner, 2)|;
      AtSplit(b, i, Print(inner, 2), "&");
      AtChar(b, k, "&", 0);
      var c' := BacksAt(b, i, inner);
      BackMore(b, k, c');
      c := Back(c');
    case _ =>
      c := PipeAt(b, i, t);
  }

  lemma BackMore(b: string, k: nat, c: Cmd)
    requires '\0' !in b && k < |b| && b[k] == '&' && Stop(b, k + 1)
    ensures ReadBacks(b, k, c) == ReadBacks(b, k + 1, Back(c))
  {
    hide WordEnd, GetToken, SkipSpace;
    SymbolToken(b, k);
  }

  /** A whole line, up to the end of the input or a closing parenthesis. */
  lemma {:induction false} LineAt(b: string, i: nat, t: Tree) returns (c: Cmd)
    requires '\0' !in b && Legal(t) && At(b, i, Print(t, 3))
    requires var e := i + |Print(t, 3)|; e == |b| || b[e] == ')'
    ensures ParseLine(b, i) == Ok(c, i + |Print(t, 3)|) && TreeOf(b, c) == t
    decreases t, 0, 4
  {
    hide WordEnd, GetToken, SkipSpace, ParsePipe, ParseLine, ReadBacks, At, BackedTo;
    match t
    case TList(left, right) =>
      var k := i + |Print(left, 2)|;
      AtMiddle(b, i, Print(left, 2), ';', Print(right, 3));
      var l := BacksAt(b, i, left);
      var r := LineAt(b, k + 1, right);
      TightAfter(b, k, right, 3);
      LineMore(b, i, l, k, r, i + |Print(t, 3)|);
      c := List(l, r);
    case _ =>
      AtInside(b, i, Print(t, 3));
      c := BacksAt(b, i, t);
      LineLast(b, i, c, i + |Print(t, 3)|);
  }

  /** A pipeline with its ampersands ends at `k` as `c`. */
  predicate BackedTo(b: string, i: nat, c: Cmd, k: nat)
    requires '\0' !in b && i <= |b| && k <= |b|
  {
    var p := ParsePipe(b, i);
    p.Ok? && ReadBacks(b, p.next, p.cmd) == ReadBacks(b, k, c)
  }

  lemma LineLast(b: string, i: nat, c: Cmd, e: nat)
    requires '\0' !in b && i <= |b| && (e == |b| || (e < |b| && b[e] == ')')) && BackedTo(b, i, c, e)
    ensures ParseLine(b, i) == Ok(c, e)
  {
    hide WordEnd, GetToken, SkipSpace, ParsePipe;
  }

  lemma LineMore(b: string, i: nat, l: Cmd, k: nat, r: Cmd, e: nat)
    requires '\0' !in b && i <= k < |b| && b[k] == ';' && GetToken(b, k).next == k + 1
    requires BackedTo(b, i, l, k) && ParseLine(b, k + 1) == Ok(r, e)
    ensures ParseLine(b, i) == Ok(List(l, r), e)
  {
    hide WordEnd, GetToken, SkipSpace, ParsePipe;
  }

  // ---- round trips ----

  lemma {:induction false} PrintNoNul(t: Tree, level: nat)
    requires Legal(t)
    ensures '\0' !in Print(t, level)
    decreases t
  {
    match t
    case TExec(argv) => JoinNoNul(argv);
    case TRedir(c, _, _, _) => PrintNoNul(c, 0);
    case TPipe(left, right) => PrintNoNul(left, 0); PrintNoNul(right, 1);
    case TBack(c) => PrintNoNul(c, 2);
    case TList(left, right) => PrintNoNul(left, 2); PrintNoNul(right, 3);
  }

  lemma {:induction false} JoinNoNul(argv: seq<string>)
    requires forall k :: 0 <= k < |argv| ==> IsWord(argv[k])
    ensures '\0' !in Join(argv)
    decreases |argv|
  {
    if |argv| > 1 {
      JoinNoNul(argv[1..]);
    }
  }

  /** Every command tree is read back from its text. */
  lemma PrintedIsParsed(t: Tree)
    requires Legal(t)
    ensures var b := Print(t, 3);
            && '\0' !in b && ParseCmd(b).Ok?
            && TreeOf(b, ParseCmd(b).cmd) == t
  {
    hide WordEnd, GetToken, SkipSpace, ParseLine;
    var b := Print(t, 3);
    PrintNoNul(t, 3);
    assert b[0..|b|] == b;
    var c := LineAt(b, 0, t);
  }

  lemma {:induction false} GoodIsLegal(b: string, cmd: Cmd)
    requires '\0' !in b && Good(b, cmd)
    ensures Legal(TreeOf(b, cmd))
  {
    match cmd
    case Exec(argv) =>
      forall k | 0 <= k < |argv|
        ensures IsWord(TreeOf(b, cmd).argv[k])
      {
        WholeIsWord(b, argv[k]);
      }
    case Redir(c, file, _, _) => GoodIsLegal(b, c); WholeIsWord(b, file);
    case Pipe(left, right) => GoodIsLegal(b, left); GoodIsLegal(b, right);
    case Back(c) => GoodIsLegal(b, c);
    case List(left, right) => GoodIsLegal(b, left); GoodIsLegal(b, right);
  }

  lemma WholeIsWord(b: string, w: Span)
    requires '\0' !in b && WholeWord(b, w)
    ensures IsWord(Word(b, w))
  {
    var t := b[w.q..w.eq];
    forall j | 0 <= j < |t|
      ensures IsWordChar(t[j]) && t[j] != '\0'
    {
      assert t[j] == b[w.q + j];
    }
  }

  /** Whatever text a command came from, printing its tree and parsing that gives the same tree. */
  lemma ParsedIsPrintable(b: string)
    requires '\0' !in b && ParseCmd(b).Ok?
    ensures var t := TreeOf(b, ParseCmd(b).cmd);
            var p := Print(t, 3);
            && Legal(t) && '\0' !in p && ParseCmd(p).Ok?
            && TreeOf(p, ParseCmd(p).cmd) == t
  {
    hide WordEnd, GetToken, SkipSpace, ParseLine;
    LineGood(b, 0);
    var t := TreeOf(b, ParseCmd(b).cmd);
    GoodIsLegal(b, ParseCmd(b).cmd);
    PrintedIsParsed(t);
  }
}

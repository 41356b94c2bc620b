/**
 The grammar of the shell (sh.c), said without parsing: a line is a sequence of tokens with
 any blanks between them, and the parser accepts exactly the token sequences that the
 grammar below has, with the tree that it gives them.
 */
module ShellGrammar {
  import opened Shell
  import P = ShellPrint

  // ---- tokens ----

  /** A word, or a symbol: one of | ( ) ; & < > and '+' for ">>". */
  datatype Tok = W(word: string) | Sym(kind: char)

  predicate IsSym(c: char) {
    IsSymbol(c) || c == '+'
  }

  predicate IsTok(t: Tok) {
    if t.W? then P.IsWord(t.word) else IsSym(t.kind)
  }

  function TokOf(b: string, t: Token): Tok {
    if t.kind == 'a' then W(P.Word(b, t.span)) else Sym(t.kind)
  }

  /** The tokens of the input from `i` on. */
  function Toks(b: string, i: nat): seq<Tok>
    requires i <= |b| && '\0' !in b
    decreases |b| - i
  {
    var t := GetToken(b, i);
    if t.kind == '\0' then [] else [TokOf(b, t)] + Toks(b, t.next)
  }

  /** What the parser sees of the input at `i`. */
  lemma Front(b: string, i: nat)
    requires i <= |b| && '\0' !in b
    ensures var s, t, ts := SkipSpace(b, i), GetToken(b, i), Toks(b, i);
            && GetToken(b, s) == t && Toks(b, s) == ts
            && (ts == [] <==> s == |b|) && (ts == [] <==> t.kind == '\0')
            && (ts != [] ==> ts == [TokOf(b, t)] + Toks(b, t.next) && IsTok(ts[0]) && t.next > s)
            && (forall c :: IsSym(c) && c != '>' && c != '+' ==> (Ch(b, s) == c <==> ts != [] && ts[0] == Sym(c)))
            && (Ch(b, s) == '>' <==> ts != [] && (ts[0] == Sym('>') || ts[0] == Sym('+')))
            && (t.kind == 'a' <==> ts != [] && ts[0].W?)
  {
    hide SkipSpace, WordEnd;
    var s, t := SkipSpace(b, i), GetToken(b, i);
    assert SkipSpace(b, s) == s;
    if t.kind == 'a' {
      P.WholeIsWord(b, t.span);
    }
  }

  // ---- the grammar ----

  /** A word of a command, or a redirection. */
  datatype Item = Arg(word: string) | To(arrow: char, file: string)

  /** A simple command is words and redirections in any order; a block is a line in parentheses, then redirections. */
  datatype Simple = Command(items: seq<Item>) | Block(line: Line, redirs: seq<Item>)

  datatype Pipeline = Last(cmd: Simple) | Bar(first: Simple, rest: Pipeline)

  /** A pipeline, any number of ampersands, and perhaps a semicolon and another line. */
  datatype Line = Single(pipe: Pipeline, backs: nat) | Then(pipe: Pipeline, backs: nat, next: Line)

  function ItemToks(x: Item): seq<Tok> {
    match x
    case Arg(w) => [W(w)]
    case To(arrow, file) => [Sym(arrow), W(file)]
  }

  function ItemsToks(items: seq<Item>): seq<Tok> {
    if items == [] then [] else ItemToks(items[0]) + ItemsToks(items[1..])
  }

  function SimpleToks(c: Simple): seq<Tok> {
    match c
    case Command(items) => ItemsToks(items)
    case Block(line, rs) => [Sym('(')] + (LineToks(line) + ([Sym(')')] + ItemsToks(rs)))
  }

  function PipeToks(p: Pipeline): seq<Tok> {
    match p
    case Last(c) => SimpleToks(c)
    case Bar(c, rest) => SimpleToks(c) + ([Sym('|')] + PipeToks(rest))
  }

  function Backs(n: nat): seq<Tok> {
    seq(n, _ => Sym('&'))
  }

  function LineToks(l: Line): seq<Tok> {
    match l
    case Single(p, n) => PipeToks(p) + Backs(n)
    case Then(p, n, next) => PipeToks(p) + (Backs(n) + ([Sym(';')] + LineToks(next)))
  }

  // ---- what may be written ----

  predicate IsItem(x: Item) {
    match x
    case Arg(w) => P.IsWord(w)
    case To(arrow, file) => P.IsWord(file) && (arrow == '<' || arrow == '>' || arrow == '+')
  }

  predicate AreItems(items: seq<Item>) {
    forall k :: 0 <= k < |items| ==> IsItem(items[k])
  }

  predicate AreRedirs(items: seq<Item>) {
    forall k :: 0 <= k < |items| ==> IsItem(items[k]) && items[k].To?
  }

  predicate IsSimple(c: Simple) {
    match c
    case Command(items) => AreItems(items) && |Words(items)| < MAXARGS
    case Block(line, rs) => IsLine(line) && AreRedirs(rs)
  }

  predicate IsPipe(p: Pipeline) {
    match p
    case Last(c) => IsSimple(c)
    case Bar(c, rest) => IsSimple(c) && IsPipe(rest)
  }

  predicate IsLine(l: Line) {
    match l
    case Single(p, _) => IsPipe(p)
    case Then(p, _, next) => IsPipe(p) && IsLine(next)
  }

  // ---- what it means ----

  /** File, open mode and descriptor of a redirection. */
  type Opening = (string, int, int)

  /** The words among the items, in order. */
  function Words(items: seq<Item>): seq<string> {
    if items == [] then []
    else (if items[0].Arg? then [items[0].word] else []) + Words(items[1..])
  }

  /** The redirections among the items, in order. */
  function Openings(items: seq<Item>): seq<Opening> {
    if items == [] then []
    else (if items[0].Arg? then []
          else if items[0].arrow == '<' then [(items[0].file, O_RDONLY, 0)]
          else [(items[0].file, O_WRONLY + O_CREATE, 1)]) + Openings(items[1..])
  }

  /** Redirections around a tree, the last one outermost. */
  function Around(t: P.Tree, rs: seq<Opening>): P.Tree
    decreases |rs|
  {
    if rs == [] then t
    else var r := rs[|rs| - 1]; P.TRedir(Around(t, rs[..|rs| - 1]), r.0, r.1, r.2)
  }

  function SimpleTree(c: Simple): P.Tree {
    match c
    case Command(items) => Around(P.TExec(Words(items)), Openings(items))
    case Block(line, rs) => Around(LineTree(line), Openings(rs))
  }

  function PipeTree(p: Pipeline): P.Tree {
    match p
    case Last(c) => SimpleTree(c)
    case Bar(c, rest) => P.TPipe(SimpleTree(c), PipeTree(rest))
  }

  function Backed(t: P.Tree, n: nat): P.Tree {
    if n == 0 then t else P.TBack(Backed(t, n - 1))
  }

  function LineTree(l: Line): P.Tree {
    match l
    case Single(p, n) => Backed(PipeTree(p), n)
    case Then(p, n, next) => P.TList(Backed(PipeTree(p), n), LineTree(next))
  }

  // ---- sequences of items ----

  lemma Assoc<T>(a: seq<T>, b: seq<T>, c: seq<T>)
    ensures (a + b) + c == a + (b + c)
  {
  }

  lemma TakeDrop<T>(a: seq<T>, n: nat)
    requires n <= |a|
    ensures a[..n] + a[n..] == a && (n == 1 ==> [a[0]] + a[1..] == a)
  {
  }

  /** One item before others. */
  lemma Cons(x: Item, rest: seq<Item>)
    ensures ItemsToks([x] + rest) == ItemToks(x) + ItemsToks(rest)
    ensures Words([x] + rest) == (if x.Arg? then [x.word] else []) + Words(rest)
    ensures Openings([x] + rest) == Openings([x]) + Openings(rest)
  {
    assert ([x] + rest)[1..] == rest && [x][1..] == [];
  }

  /** Items before others. */
  lemma {:induction false} Joined(a: seq<Item>, b: seq<Item>)
    ensures ItemsToks(a + b) == ItemsToks(a) + ItemsToks(b)
    ensures Words(a + b) == Words(a) + Words(b) && Openings(a + b) == Openings(a) + Openings(b)
    decreases |a|
  {
    if a == [] {
      assert a + b == b;
    } else {
      hide ItemsToks, Words, Openings;
      var x, rest := a[0], a[1..];
      assert a == [x] + rest && a + b == [x] + (rest + b);
      Joined(rest, b);
      Cons(x, rest);
      Cons(x, rest + b);
      Assoc(ItemToks(x), ItemsToks(rest), ItemsToks(b));
      Assoc(if x.Arg? then [x.word] else [], Words(rest), Words(b));
      Assoc(Openings([x]), Openings(rest), Openings(b));
    }
  }

  lemma {:induction false} NoWords(rs: seq<Item>)
    requires AreRedirs(rs)
    ensures Words(rs) == [] && |Openings(rs)| == |rs|
    decreases |rs|
  {
    if rs != [] {
      NoWords(rs[1..]);
    }
  }

  lemma {:induction false} AroundTwice(t: P.Tree, a: seq<Opening>, b: seq<Opening>)
    ensures Around(t, a + b) == Around(Around(t, a), b)
    decreases |b|
  {
    if b == [] {
      assert a + b == a;
    } else {
      assert (a + b)[..|a + b| - 1] == a + b[..|b| - 1];
      AroundTwice(t, a, b[..|b| - 1]);
    }
  }

  /** The redirections that the parser holds, by the names of their files. */
  function Opened(b: string, rs: seq<(Span, int, int)>): (r: seq<Opening>)
    ensures |r| == |rs|
  {
    seq(|rs|, k requires 0 <= k < |rs| => (P.Word(b, rs[k].0), rs[k].1, rs[k].2))
  }

  function Named(b: string, argv: seq<Span>): (r: seq<string>)
    ensures |r| == |argv|
  {
    seq(|argv|, k requires 0 <= k < |argv| => P.Word(b, argv[k]))
  }

  lemma {:induction false} WrapIsAround(b: string, cmd: Cmd, rs: seq<(Span, int, int)>)
    ensures P.TreeOf(b, Wrap(cmd, rs)) == Around(P.TreeOf(b, cmd), Opened(b, rs))
    decreases |rs|
  {
    if rs != [] {
      var r := rs[0];
      WrapIsAround(b, Redir(cmd, r.0, r.1, r.2), rs[1..]);
      var o := Opened(b, rs);
      assert o == [o[0]] + Opened(b, rs[1..]);
      AroundTwice(P.TreeOf(b, cmd), [o[0]], Opened(b, rs[1..]));
      assert [o[0]][..0] == [];
    }
  }

  /** What a simple command comes to with these words and redirections. */
  function Built(words: seq<string>, rs: seq<Opening>): P.Tree {
    Around(P.TExec(words), rs)
  }

  lemma BuiltIs(b: string, argv: seq<Span>, rs: seq<(Span, int, int)>)
    ensures P.TreeOf(b, Wrap(Exec(argv), rs)) == Built(Named(b, argv), Opened(b, rs))
  {
    WrapIsAround(b, Exec(argv), rs);
  }

  // ---- what the parser accepts is in the grammar ----

  lemma {:induction false} RedirsSound(b: string, i: nat) returns (items: seq<Item>)
    requires i <= |b| && '\0' !in b && ReadRedirs(b, i).Redirs?
    ensures var r := ReadRedirs(b, i);
            && AreRedirs(items) && Toks(b, i) == ItemsToks(items) + Toks(b, r.next)
            && Opened(b, r.rs) == Openings(items)
    decreases |b| - i
  {
    hide GetToken, SkipSpace, WordEnd, Toks, P.IsWord, Openings, ItemsToks, Opened, P.Word;
    Front(b, i);
    var s := SkipSpace(b, i);
    if Ch(b, s) != '<' && Ch(b, s) != '>' {
      items := [];
      NoItems(b);
    } else {
      var tok := GetToken(b, s);
      var f := GetToken(b, tok.next);
      Front(b, tok.next);
      var rest := RedirsSound(b, f.next);
      var x := To(tok.kind, P.Word(b, f.span));
      items := [x] + rest;
      Cons(x, rest);
      Assoc(ItemToks(x), ItemsToks(rest), Toks(b, ReadRedirs(b, i).next));
      Assoc([Sym(tok.kind)], [W(x.file)], Toks(b, f.next));
      OpenedCons(b, tok.kind, f.span, ReadRedirs(b, f.next).rs);
    }
  }

  lemma NoItems(b: string)
    ensures ItemsToks([]) == [] && Opened(b, []) == Openings([]) == [] && Words([]) == [] && Named(b, []) == []
  {
  }

  lemma OpenedCons(b: string, arrow: char, file: Span, rs: seq<(Span, int, int)>)
    ensures Opened(b, [RedirOf(arrow, file)] + rs) == Openings([To(arrow, P.Word(b, file))]) + Opened(b, rs)
  {
  }

  /** Nothing is left at the end. */
  lemma AtEnd(b: string, i: nat)
    requires i <= |b| && '\0' !in b && Toks(b, i) == []
    ensures Toks(b, GetToken(b, i).next) == [] && GetToken(b, i).kind == '\0' && SkipSpace(b, i) == |b|
  {
    hide GetToken, Toks, SkipSpace, WordEnd;
    Front(b, i);
    Front(b, GetToken(b, i).next);
  }

  /** One more word with its redirections, among those that the parser holds. */
  lemma HeldMore(b: string, argv: seq<Span>, w: Span, rs: seq<(Span, int, int)>, more: seq<(Span, int, int)>,
                 redirs: seq<Item>, rest: seq<Item>)
    requires AreRedirs(redirs) && Opened(b, more) == Openings(redirs)
    ensures var items := [Arg(P.Word(b, w))] + (redirs + rest);
            && ItemsToks(items) == [W(P.Word(b, w))] + (ItemsToks(redirs) + ItemsToks(rest))
            && Named(b, argv) + Words(items) == Named(b, argv + [w]) + Words(rest)
            && Opened(b, rs) + Openings(items) == Opened(b, rs + more) + Openings(rest)
            && |Words(items)| == 1 + |Words(rest)|
  {
    hide ItemsToks, Words, Openings;
    var x := Arg(P.Word(b, w));
    Cons(x, redirs + rest);
    Joined(redirs, rest);
    NoWords(redirs);
    assert Openings([x]) == [] by {
      OneArg(x);
    }
    assert Named(b, argv + [w]) == Named(b, argv) + [P.Word(b, w)];
    assert Opened(b, rs + more) == Opened(b, rs) + Opened(b, more);
    Assoc(Opened(b, rs), Openings(redirs), Openings(rest));
  }

  lemma OneArg(x: Item)
    requires x.Arg?
    ensures Openings([x]) == []
  {
  }

  lemma {:induction false} ArgsSound(b: string, i: nat, argv: seq<Span>, rs: seq<(Span, int, int)>)
    returns (items: seq<Item>)
    requires i <= |b| && '\0' !in b && |argv| < MAXARGS && ReadArgs(b, i, argv, rs).Ok?
    ensures var r := ReadArgs(b, i, argv, rs);
            && AreItems(items) && |argv| + |Words(items)| < MAXARGS
            && Toks(b, i) == ItemsToks(items) + Toks(b, r.next)
            && P.TreeOf(b, r.cmd) == Built(Named(b, argv) + Words(items), Opened(b, rs) + Openings(items))
    decreases |b| - i
  {
    hide GetToken, SkipSpace, WordEnd, Toks, P.IsWord, Openings, ItemsToks, Opened, Words, Named, P.Word, Built, Wrap,
         P.TreeOf, ReadRedirs;
    Front(b, i);
    var s := SkipSpace(b, i);
    var tok := GetToken(b, s);
    if EndsExec(Ch(b, s)) || tok.kind == '\0' {
      items := [];
      NoItems(b);
      BuiltIs(b, argv, rs);
      assert Named(b, argv) + [] == Named(b, argv) && Opened(b, rs) + [] == Opened(b, rs);
      if tok.kind == '\0' {
        AtEnd(b, i);
      }
    } else {
      var more := ReadRedirs(b, tok.next);
      var redirs := RedirsSound(b, tok.next);
      var rest := ArgsSound(b, more.next, argv + [tok.span], rs + more.rs);
      items := [Arg(P.Word(b, tok.span))] + (redirs + rest);
      HeldMore(b, argv, tok.span, rs, more.rs, redirs, rest);
      var left := Toks(b, ReadArgs(b, i, argv, rs).next);
      Assoc(ItemsToks(redirs), ItemsToks(rest), left);
      Assoc([W(P.Word(b, tok.span))], ItemsToks(redirs) + ItemsToks(rest), left);
    }
  }

  lemma {:induction false} ExecSound(b: string, i: nat) returns (c: Simple)
    requires i <= |b| && '\0' !in b && ParseExec(b, i).Ok?
    ensures var r := ParseExec(b, i);
            && IsSimple(c) && Toks(b, i) == SimpleToks(c) + Toks(b, r.next) && P.TreeOf(b, r.cmd) == SimpleTree(c)
    decreases |b| - i, 1
  {
    hide GetToken, SkipSpace, WordEnd, Toks, ReadRedirs, ReadArgs, ParseLine, ItemsToks, Words, Openings, Named, Opened,
         P.TreeOf, Around, Wrap;
    Front(b, i);
    var s := SkipSpace(b, i);
    if Ch(b, s) == '(' {
      c := BlockSound(b, s);
    } else {
      var r := ReadRedirs(b, s);
      var redirs := RedirsSound(b, s);
      var rest := ArgsSound(b, r.next, [], r.rs);
      c := Command(redirs + rest);
      Joined(redirs, rest);
      NoWords(redirs);
      NoItems(b);
      Assoc(ItemsToks(redirs), ItemsToks(rest), Toks(b, ParseExec(b, i).next));
    }
  }

  lemma {:induction false} BlockSound(b: string, i: nat) returns (c: Simple)
    requires i < |b| && '\0' !in b && b[i] == '(' && ParseBlock(b, i).Ok?
    ensures var r := ParseBlock(b, i);
            && IsSimple(c) && Toks(b, i) == SimpleToks(c) + Toks(b, r.next) && P.TreeOf(b, r.cmd) == SimpleTree(c)
    decreases |b| - i, 0
  {
    hide GetToken, SkipSpace, WordEnd, Toks, ReadRedirs, ReadArgs, ParseLine, ItemsToks, Openings, Opened, P.TreeOf,
         Around, Wrap, LineToks, LineTree, IsLine;
    NotSpace(b, i);
    Front(b, i);
    var open := GetToken(b, i);
    var inner := ParseLine(b, open.next);
    var line := LineSound(b, open.next);
    Front(b, inner.next);
    var close := GetToken(b, SkipSpace(b, inner.next));
    var r := ReadRedirs(b, close.next);
    var redirs := RedirsSound(b, close.next);
    c := Block(line, redirs);
    WrapIsAround(b, inner.cmd, r.rs);
    var left := Toks(b, r.next);
    Assoc([Sym(')')], ItemsToks(redirs), left);
    Assoc(LineToks(line), [Sym(')')] + ItemsToks(redirs), left);
    Assoc([Sym('(')], LineToks(line) + ([Sym(')')] + ItemsToks(redirs)), left);
  }

  lemma NotSpace(b: string, i: nat)
    requires i < |b| && !IsSpace(b[i])
    ensures SkipSpace(b, i) == i && Ch(b, i) == b[i]
  {
  }

  lemma {:induction false} PipeSound(b: string, i: nat) returns (p: Pipeline)
    requires i <= |b| && '\0' !in b && ParsePipe(b, i).Ok?
    ensures var r := ParsePipe(b, i);
            && IsPipe(p) && Toks(b, i) == PipeToks(p) + Toks(b, r.next) && P.TreeOf(b, r.cmd) == PipeTree(p)
    decreases |b| - i, 2
  {
    hide GetToken, SkipSpace, WordEnd, Toks, ParseExec, SimpleToks, SimpleTree, IsSimple;
    var first := ParseExec(b, i);
    var c := ExecSound(b, i);
    Front(b, first.next);
    var s := SkipSpace(b, first.next);
    if Ch(b, s) != '|' {
      p := Last(c);
    } else {
      var rest := PipeSound(b, GetToken(b, s).next);
      p := Bar(c, rest);
      var left := Toks(b, ParsePipe(b, i).next);
      Assoc([Sym('|')], PipeToks(rest), left);
      Assoc(SimpleToks(c), [Sym('|')] + PipeToks(rest), left);
    }
  }

  lemma {:induction false} BacksSound(b: string, i: nat, cmd: Cmd) returns (n: nat)
    requires i <= |b| && '\0' !in b
    ensures var (c, k) := ReadBacks(b, i, cmd);
            && Toks(b, i) == Backs(n) + Toks(b, k) && P.TreeOf(b, c) == Backed(P.TreeOf(b, cmd), n)
            && (Toks(b, k) != [] ==> Toks(b, k)[0] != Sym('&'))
    decreases |b| - i
  {
    hide GetToken, SkipSpace, WordEnd, Toks, Backs;
    Front(b, i);
    var s := SkipSpace(b, i);
    if Ch(b, s) != '&' {
      n := 0;
      BacksCons(0, Toks(b, s));
    } else {
      var m := BacksSound(b, GetToken(b, s).next, Back(cmd));
      n := m + 1;
      BackedOnce(P.TreeOf(b, cmd), m);
      BacksCons(n, Toks(b, ReadBacks(b, i, cmd).1));
    }
  }

  lemma {:induction false} BackedOnce(t: P.Tree, n: nat)
    ensures Backed(P.TBack(t), n) == Backed(t, n + 1)
  {
    if n > 0 {
      BackedOnce(t, n - 1);
    }
  }

  lemma {:induction false} LineSound(b: string, i: nat) returns (l: Line)
    requires i <= |b| && '\0' !in b && ParseLine(b, i).Ok?
    ensures var r := ParseLine(b, i);
            && IsLine(l) && Toks(b, i) == LineToks(l) + Toks(b, r.next) && P.TreeOf(b, r.cmd) == LineTree(l)
    decreases |b| - i, 3
  {
    hide GetToken, SkipSpace, WordEnd, Toks, ParsePipe, ReadBacks, PipeToks, PipeTree, IsPipe, Backs, Backed;
    var first := ParsePipe(b, i);
    var p := PipeSound(b, i);
    var n := BacksSound(b, first.next, first.cmd);
    var s := ReadBacks(b, first.next, first.cmd).1;
    Front(b, s);
    var left := Toks(b, ParseLine(b, i).next);
    if Ch(b, s) != ';' {
      l := Single(p, n);
      Assoc(PipeToks(p), Backs(n), left);
    } else {
      var next := LineSound(b, GetToken(b, s).next);
      l := Then(p, n, next);
      Assoc([Sym(';')], LineToks(next), left);
      Assoc(Backs(n), [Sym(';')] + LineToks(next), left);
      Assoc(PipeToks(p), Backs(n) + ([Sym(';')] + LineToks(next)), left);
    }
  }

  /** Whatever the shell accepts is a line of the grammar, and the tree is the one the grammar gives. */
  lemma AcceptedIsGrammar(b: string) returns (l: Line)
    requires '\0' !in b && ParseCmd(b).Ok?
    ensures IsLine(l) && Toks(b, 0) == LineToks(l) && P.TreeOf(b, ParseCmd(b).cmd) == LineTree(l)
  {
    hide GetToken, SkipSpace, WordEnd, Toks, ParseLine;
    l := LineSound(b, 0);
    Front(b, ParseLine(b, 0).next);
  }

  // ---- what is in the grammar is accepted ----

  /** A token that may stand behind a command. */
  predicate Follows(ts: seq<Tok>) {
    ts == [] || ts[0] == Sym('|') || ts[0] == Sym(')') || ts[0] == Sym('&') || ts[0] == Sym(';')
  }

  predicate IsArrow(ts: seq<Tok>) {
    ts != [] && (ts[0] == Sym('<') || ts[0] == Sym('>') || ts[0] == Sym('+'))
  }

  lemma {:induction false} RedirsComplete(b: string, i: nat, items: seq<Item>, rest: seq<Tok>)
    requires i <= |b| && '\0' !in b && AreRedirs(items) && Toks(b, i) == ItemsToks(items) + rest && !IsArrow(rest)
    ensures var r := ReadRedirs(b, i);
            r.Redirs? && Opened(b, r.rs) == Openings(items) && Toks(b, r.next) == rest
    decreases |items|
  {
    hide GetToken, SkipSpace, WordEnd, Toks, P.IsWord, Openings, ItemsToks, Opened, P.Word;
    Front(b, i);
    var s := SkipSpace(b, i);
    if items == [] {
      NoItems(b);
      assert [] + rest == rest;
    } else {
      var x, more := items[0], items[1..];
      assert items == [x] + more;
      Cons(x, more);
      Assoc([Sym(x.arrow)], [W(x.file)], ItemsToks(more));
      TwoToks(b, i, Sym(x.arrow), W(x.file), ItemsToks(more), rest);
      var tok := GetToken(b, s);
      var f := GetToken(b, tok.next);
      Front(b, tok.next);
      RedirsComplete(b, f.next, more, rest);
      OpenedCons(b, tok.kind, f.span, ReadRedirs(b, f.next).rs);
    }
  }

  /** The first token of the input. */
  lemma OneTok(b: string, i: nat, x: Tok, rest: seq<Tok>)
    requires i <= |b| && '\0' !in b && Toks(b, i) == [x] + rest
    ensures var t := GetToken(b, i); TokOf(b, t) == x && Toks(b, t.next) == rest && GetToken(b, SkipSpace(b, i)) == t
  {
    hide GetToken, SkipSpace, WordEnd, Toks;
    Front(b, i);
    var t := GetToken(b, i);
    assert Toks(b, i)[0] == TokOf(b, t) && Toks(b, i)[1..] == Toks(b, t.next);
    assert ([x] + rest)[1..] == rest;
  }

  lemma TwoToks(b: string, i: nat, x: Tok, y: Tok, more: seq<Tok>, rest: seq<Tok>)
    requires i <= |b| && '\0' !in b && Toks(b, i) == ([x] + ([y] + more)) + rest
    ensures var t := GetToken(b, i);
            var u := GetToken(b, t.next);
            && TokOf(b, t) == x && TokOf(b, u) == y && Toks(b, u.next) == more + rest
            && GetToken(b, SkipSpace(b, i)) == t
  {
    hide GetToken, SkipSpace, WordEnd, Toks, TokOf;
    Assoc([x], [y] + more, rest);
    Assoc([y], more, rest);
    OneTok(b, i, x, [y] + (more + rest));
    OneTok(b, GetToken(b, i).next, y, more + rest);
  }

  /** How many redirections come first. */
  function Leading(items: seq<Item>): (n: nat)
    ensures n <= |items| && (forall k :: 0 <= k < n ==> items[k].To?) && (n < |items| ==> items[n].Arg?)
  {
    if items == [] || items[0].Arg? then 0 else 1 + Leading(items[1..])
  }

  /** Items that do not begin with a redirection do not begin with an arrow. */
  lemma NoArrow(items: seq<Item>, rest: seq<Tok>)
    requires (items != [] ==> items[0].Arg?) && !IsArrow(rest)
    ensures !IsArrow(ItemsToks(items) + rest)
  {
    if items == [] {
      assert ItemsToks(items) + rest == rest;
    }
  }

  lemma {:induction false} ArgsComplete(b: string, i: nat, argv: seq<Span>, rs: seq<(Span, int, int)>, items: seq<Item>,
                                        rest: seq<Tok>)
    requires i <= |b| && '\0' !in b && |argv| < MAXARGS
    requires AreItems(items) && (items != [] ==> items[0].Arg?) && Follows(rest)
    requires Toks(b, i) == ItemsToks(items) + rest
    ensures var r := ReadArgs(b, i, argv, rs);
            if |argv| + |Words(items)| < MAXARGS
            then && r.Ok? && Toks(b, r.next) == rest
                 && P.TreeOf(b, r.cmd) == Built(Named(b, argv) + Words(items), Opened(b, rs) + Openings(items))
            else r.Panic?
    decreases |items|
  {
    hide GetToken, SkipSpace, WordEnd, Toks, P.IsWord, Openings, ItemsToks, Opened, Words, Named, P.Word, Built, Wrap,
         P.TreeOf, ReadRedirs, ReadArgs, AreItems, AreRedirs, Leading, EndsExec;
    if items == [] {
      ArgsEnd(b, i, argv, rs, rest);
    } else {
      var x, n := items[0], Leading(items[1..]);
      var redirs, more := items[1..][..n], items[1..][n..];
      TakeDrop(items, 1);
      AreMore(items);
      TakeDrop(items[1..], n);
      LeadingSplit(items[1..]);
      WordFirst(b, i, x, redirs, more, rest);
      var tok := GetToken(b, SkipSpace(b, i));
      NoArrow(more, rest);
      RedirsComplete(b, tok.next, redirs, ItemsToks(more) + rest);
      var r := ReadRedirs(b, tok.next);
      HeldMore(b, argv, tok.span, rs, r.rs, redirs, more);
      ArgsUnfold(b, i, argv, rs);
      if |argv| + 1 < MAXARGS {
        ArgsComplete(b, r.next, argv + [tok.span], rs + r.rs, more, rest);
      }
    }
  }

  lemma AreMore(items: seq<Item>)
    requires AreItems(items) && items != []
    ensures AreItems(items[1..])
  {
  }

  /** The words of a command are over. */
  lemma ArgsEnd(b: string, i: nat, argv: seq<Span>, rs: seq<(Span, int, int)>, rest: seq<Tok>)
    requires i <= |b| && '\0' !in b && Follows(rest) && Toks(b, i) == ItemsToks([]) + rest && |argv| < MAXARGS
    ensures var r := ReadArgs(b, i, argv, rs);
            && r.Ok? && Toks(b, r.next) == rest && |argv| + |Words([])| < MAXARGS
            && P.TreeOf(b, r.cmd) == Built(Named(b, argv) + Words([]), Opened(b, rs) + Openings([]))
  {
    hide GetToken, SkipSpace, WordEnd, Toks, Openings, ItemsToks, Opened, Words, Named, Built, Wrap, P.TreeOf;
    Front(b, i);
    NoItems(b);
    assert [] + rest == rest;
    BuiltIs(b, argv, rs);
    assert Named(b, argv) + [] == Named(b, argv) && Opened(b, rs) + [] == Opened(b, rs);
    if rest == [] {
      AtEnd(b, i);
    }
  }

  /** One more word of a command. */
  lemma ArgsUnfold(b: string, i: nat, argv: seq<Span>, rs: seq<(Span, int, int)>)
    requires i <= |b| && '\0' !in b
    requires var s := SkipSpace(b, i);
             !EndsExec(Ch(b, s)) && GetToken(b, s).kind == 'a' && ReadRedirs(b, GetToken(b, s).next).Redirs?
    ensures var tok := GetToken(b, SkipSpace(b, i));
            var r := ReadRedirs(b, tok.next);
            ReadArgs(b, i, argv, rs) == if |argv| + 1 >= MAXARGS then Panic
                                        else ReadArgs(b, r.next, argv + [tok.span], rs + r.rs)
  {
    hide GetToken, SkipSpace, WordEnd, ReadRedirs;
  }

  lemma WordFirst(b: string, i: nat, x: Item, redirs: seq<Item>, more: seq<Item>, rest: seq<Tok>)
    requires i <= |b| && '\0' !in b && x.Arg? && Toks(b, i) == ItemsToks([x] + (redirs + more)) + rest
    ensures var t := GetToken(b, SkipSpace(b, i));
            && t.kind == 'a' && P.Word(b, t.span) == x.word
            && Toks(b, t.next) == ItemsToks(redirs) + (ItemsToks(more) + rest)
            && !EndsExec(Ch(b, SkipSpace(b, i)))
  {
    hide GetToken, SkipSpace, WordEnd, Toks, ItemsToks, P.Word;
    Front(b, i);
    Cons(x, redirs + more);
    Joined(redirs, more);
    Assoc([W(x.word)], ItemsToks(redirs) + ItemsToks(more), rest);
    Assoc(ItemsToks(redirs), ItemsToks(more), rest);
    OneTok(b, i, W(x.word), ItemsToks(redirs) + (ItemsToks(more) + rest));
  }

  /** Words and redirections in any order are the command of all the words, in order, within all the redirections, in
      order; more than nine words are a panic. */
  lemma CommandComplete(b: string, i: nat, items: seq<Item>, rest: seq<Tok>)
    requires i <= |b| && '\0' !in b && AreItems(items) && Follows(rest) && Toks(b, i) == ItemsToks(items) + rest
    ensures var r := ParseExec(b, i);
            if |Words(items)| < MAXARGS
            then r.Ok? && Toks(b, r.next) == rest && P.TreeOf(b, r.cmd) == Built(Words(items), Openings(items))
            else r.Panic?
  {
    hide GetToken, SkipSpace, WordEnd, Toks, Openings, ItemsToks, Opened, Words, Named, Built, P.TreeOf, ReadRedirs,
         ReadArgs, ParseBlock, Leading, AreItems, AreRedirs;
    Front(b, i);
    NotOpen(items, rest);
    var s, n := SkipSpace(b, i), Leading(items);
    LeadingSplit(items);
    var redirs, more := items[..n], items[n..];
    Assoc(ItemsToks(redirs), ItemsToks(more), rest);
    NoArrow(more, rest);
    RedirsComplete(b, s, redirs, ItemsToks(more) + rest);
    var r := ReadRedirs(b, s);
    ArgsComplete(b, r.next, [], r.rs, more, rest);
    NoItems(b);
    assert [] + Words(more) == Words(more);
  }

  /** Items as the redirections that come first and the others. */
  lemma LeadingSplit(items: seq<Item>)
    requires AreItems(items)
    ensures var n := Leading(items);
            var redirs, more := items[..n], items[n..];
            && AreRedirs(redirs) && AreItems(more) && (more != [] ==> more[0].Arg?)
            && ItemsToks(items) == ItemsToks(redirs) + ItemsToks(more)
            && Words(items) == Words(more) && Openings(items) == Openings(redirs) + Openings(more)
  {
    hide ItemsToks, Words, Openings;
    var n := Leading(items);
    TakeDrop(items, n);
    Joined(items[..n], items[n..]);
    NoWords(items[..n]);
    assert [] + Words(items[n..]) == Words(items[n..]);
  }

  lemma NotOpen(items: seq<Item>, rest: seq<Tok>)
    requires AreItems(items) && Follows(rest)
    ensures var ts := ItemsToks(items) + rest; ts != [] ==> ts[0] != Sym('(')
  {
    if items == [] {
      assert ItemsToks(items) + rest == rest;
    } else {
      assert IsItem(items[0]);
      assert ItemsToks(items)[0] == ItemToks(items[0])[0];
    }
  }

  /** What may stand behind a line: nothing, or the end of its block. */
  predicate EndsLine(ts: seq<Tok>) {
    ts == [] || ts[0] == Sym(')')
  }

  lemma {:induction false} ExecComplete(b: string, i: nat, c: Simple, rest: seq<Tok>)
    requires i <= |b| && '\0' !in b && IsSimple(c) && Follows(rest) && Toks(b, i) == SimpleToks(c) + rest
    ensures var r := ParseExec(b, i); r.Ok? && Toks(b, r.next) == rest && P.TreeOf(b, r.cmd) == SimpleTree(c)
    decreases c
  {
    hide GetToken, SkipSpace, WordEnd, Toks, Openings, ItemsToks, Opened, Words, P.TreeOf, ReadRedirs, ParseExec,
         Around, Wrap, ParseLine, LineToks, LineTree;
    match c
    case Command(items) => CommandComplete(b, i, items, rest);
    case Block(line, rs) =>
      var close := [Sym(')')] + (ItemsToks(rs) + rest);
      Assoc([Sym('(')], LineToks(line) + ([Sym(')')] + ItemsToks(rs)), rest);
      Assoc(LineToks(line), [Sym(')')] + ItemsToks(rs), rest);
      Assoc([Sym(')')], ItemsToks(rs), rest);
      OneTok(b, i, Sym('('), LineToks(line) + close);
      Front(b, i);
      var open := GetToken(b, SkipSpace(b, i));
      LineComplete(b, open.next, line, close);
      BlockDone(b, i, open.next, rs, rest);
  }

  /** The end of a block: its parenthesis and the redirections behind it. */
  lemma BlockDone(b: string, i: nat, k: nat, rs: seq<Item>, rest: seq<Tok>)
    requires i <= |b| && '\0' !in b && Ch(b, SkipSpace(b, i)) == '(' && GetToken(b, SkipSpace(b, i)).next == k
    requires k <= |b| && ParseLine(b, k).Ok? && AreRedirs(rs) && !IsArrow(rest)
    requires Toks(b, ParseLine(b, k).next) == [Sym(')')] + (ItemsToks(rs) + rest)
    ensures var r := ParseExec(b, i);
            && r.Ok? && Toks(b, r.next) == rest
            && P.TreeOf(b, r.cmd) == Around(P.TreeOf(b, ParseLine(b, k).cmd), Openings(rs))
  {
    hide GetToken, SkipSpace, WordEnd, Toks, Openings, ItemsToks, Opened, P.TreeOf, ReadRedirs, Around, Wrap, ParseLine,
         ReadArgs;
    var p := ParseLine(b, k);
    OneTok(b, p.next, Sym(')'), ItemsToks(rs) + rest);
    Front(b, p.next);
    var close := GetToken(b, SkipSpace(b, p.next));
    RedirsComplete(b, close.next, rs, rest);
    WrapIsAround(b, p.cmd, ReadRedirs(b, close.next).rs);
  }

  lemma {:induction false} PipeComplete(b: string, i: nat, p: Pipeline, rest: seq<Tok>)
    requires i <= |b| && '\0' !in b && IsPipe(p) && Toks(b, i) == PipeToks(p) + rest
    requires Follows(rest) && (rest != [] ==> rest[0] != Sym('|'))
    ensures var r := ParsePipe(b, i); r.Ok? && Toks(b, r.next) == rest && P.TreeOf(b, r.cmd) == PipeTree(p)
    decreases p
  {
    hide GetToken, SkipSpace, WordEnd, Toks, ParseExec, SimpleToks, SimpleTree, IsSimple;
    match p
    case Last(c) =>
      ExecComplete(b, i, c, rest);
      Front(b, ParseExec(b, i).next);
    case Bar(c, more) =>
      Assoc(SimpleToks(c), [Sym('|')] + PipeToks(more), rest);
      Assoc([Sym('|')], PipeToks(more), rest);
      ExecComplete(b, i, c, [Sym('|')] + (PipeToks(more) + rest));
      var k := ParseExec(b, i).next;
      Front(b, k);
      OneTok(b, k, Sym('|'), PipeToks(more) + rest);
      PipeComplete(b, GetToken(b, SkipSpace(b, k)).next, more, rest);
  }

  lemma {:induction false} BacksComplete(b: string, i: nat, cmd: Cmd, n: nat, rest: seq<Tok>)
    requires i <= |b| && '\0' !in b && Toks(b, i) == Backs(n) + rest && (rest != [] ==> rest[0] != Sym('&'))
    ensures var (c, k) := ReadBacks(b, i, cmd);
            Toks(b, k) == rest && P.TreeOf(b, c) == Backed(P.TreeOf(b, cmd), n)
    decreases n
  {
    hide GetToken, SkipSpace, WordEnd, Toks, Backs;
    Front(b, i);
    BacksCons(n, rest);
    if n > 0 {
      OneTok(b, i, Sym('&'), Backs(n - 1) + rest);
      BacksComplete(b, GetToken(b, SkipSpace(b, i)).next, Back(cmd), n - 1, rest);
      BackedOnce(P.TreeOf(b, cmd), n - 1);
    }
  }

  lemma BacksCons(n: nat, rest: seq<Tok>)
    ensures Backs(n) + rest == if n == 0 then rest else [Sym('&')] + (Backs(n - 1) + rest)
  {
    if n > 0 {
      assert Backs(n) == [Sym('&')] + Backs(n - 1);
    }
  }

  lemma {:induction false} LineComplete(b: string, i: nat, l: Line, rest: seq<Tok>)
    requires i <= |b| && '\0' !in b && IsLine(l) && Toks(b, i) == LineToks(l) + rest && EndsLine(rest)
    ensures var r := ParseLine(b, i); r.Ok? && Toks(b, r.next) == rest && P.TreeOf(b, r.cmd) == LineTree(l)
    decreases l
  {
    hide GetToken, SkipSpace, WordEnd, Toks, ParsePipe, ReadBacks, PipeToks, PipeTree, IsPipe, Backs, Backed;
    var p, n := l.pipe, l.backs;
    var more := if l.Single? then rest else [Sym(';')] + (LineToks(l.next) + rest);
    if l.Then? {
      Assoc(PipeToks(p), Backs(n) + ([Sym(';')] + LineToks(l.next)), rest);
      Assoc(Backs(n), [Sym(';')] + LineToks(l.next), rest);
      Assoc([Sym(';')], LineToks(l.next), rest);
    } else {
      Assoc(PipeToks(p), Backs(n), rest);
    }
    BacksFollow(n, more);
    PipeComplete(b, i, p, Backs(n) + more);
    var r := ParsePipe(b, i);
    BacksComplete(b, r.next, r.cmd, n, more);
    var s := ReadBacks(b, r.next, r.cmd).1;
    Front(b, s);
    if l.Then? {
      OneTok(b, s, Sym(';'), LineToks(l.next) + rest);
      LineComplete(b, GetToken(b, s).next, l.next, rest);
    }
  }

  lemma BacksFollow(n: nat, more: seq<Tok>)
    requires Follows(more) && (more != [] ==> more[0] != Sym('|'))
    ensures var ts := Backs(n) + more; Follows(ts) && (ts != [] ==> ts[0] != Sym('|'))
  {
    if n == 0 {
      assert Backs(n) + more == more;
    }
  }

  /** Every line of the grammar is accepted, whatever the blanks, with the tree that the grammar gives it. */
  lemma GrammarIsAccepted(b: string, l: Line)
    requires '\0' !in b && IsLine(l) && Toks(b, 0) == LineToks(l)
    ensures ParseCmd(b).Ok? && P.TreeOf(b, ParseCmd(b).cmd) == LineTree(l)
  {
    hide GetToken, SkipSpace, WordEnd, Toks, ParseLine, LineToks, LineTree;
    assert LineToks(l) + [] == LineToks(l);
    LineComplete(b, 0, l, []);
    Front(b, ParseLine(b, 0).next);
  }

  // ---- tokens as text ----

  function TokText(t: Tok): string {
    if t.W? then t.word else if t.kind == '+' then ">>" else [t.kind]
  }

  /** Tokens with blanks before, between and behind them. */
  function Text(ts: seq<Tok>, gaps: seq<string>): string
    requires |gaps| == |ts| + 1
  {
    if ts == [] then gaps[0] else gaps[0] + (TokText(ts[0]) + Text(ts[1..], gaps[1..]))
  }

  predicate IsBlank(g: string) {
    forall k :: 0 <= k < |g| ==> IsSpace(g[k])
  }

  /** Tokens that would run into each other if nothing stood between them: two words, and arrows after an arrow. */
  predicate Touch(x: Tok, y: Tok) {
    (x.W? && y.W?) || (x == Sym('>') && (y == Sym('>') || y == Sym('+')))
  }

  predicate Apart(ts: seq<Tok>, gaps: seq<string>)
    requires |gaps| == |ts| + 1
  {
    && (forall k :: 0 <= k < |ts| ==> IsTok(ts[k])) && (forall k :: 0 <= k < |gaps| ==> IsBlank(gaps[k]))
    && (forall k :: 0 < k < |ts| && Touch(ts[k - 1], ts[k]) ==> gaps[k] != "")
  }

  lemma {:induction false} BlanksSkipped(b: string, i: nat, e: nat)
    requires i <= e <= |b| && (forall k :: i <= k < e ==> IsSpace(b[k])) && (e < |b| ==> !IsSpace(b[e]))
    ensures SkipSpace(b, i) == e
    decreases e - i
  {
    if i < e {
      BlanksSkipped(b, i + 1, e);
    }
  }

  /** The text of a token is not empty, begins with no blank and has no NUL. */
  lemma TokStarts(t: Tok)
    requires IsTok(t)
    ensures TokText(t) != "" && !IsSpace(TokText(t)[0]) && '\0' !in TokText(t)
    ensures t.W? ==> IsWordChar(TokText(t)[0])
    ensures !t.W? ==> !IsWordChar(TokText(t)[0]) && (TokText(t)[0] == '>' <==> t == Sym('>') || t == Sym('+'))
  {
  }

  /** What stands right behind a token of the text. */
  lemma TextBehind(ts: seq<Tok>, gaps: seq<string>)
    requires |gaps| == |ts| + 1 && ts != [] && Apart(ts, gaps)
    ensures |gaps[1..]| == |ts[1..]| + 1 && Apart(ts[1..], gaps[1..])
    ensures var rest := Text(ts[1..], gaps[1..]);
            rest != "" ==> && (ts[0].W? ==> !IsWordChar(rest[0])) && (ts[0] == Sym('>') ==> rest[0] != '>')
  {
    var more, left := ts[1..], gaps[1..];
    assert forall k :: 0 < k < |more| ==> more[k - 1] == ts[k] && more[k] == ts[k + 1] && left[k] == gaps[k + 1];
    var rest := Text(more, left);
    if rest != "" {
      if left[0] != "" {
        assert rest[0] == left[0][0];
        assert IsBlank(gaps[1]);
      } else {
        TokStarts(more[0]);
        assert rest[0] == TokText(more[0])[0];
        assert !Touch(ts[0], ts[1]);
      }
    }
  }

  /** Where in the input the first token of the text is. */
  lemma FirstAt(b: string, i: nat, ts: seq<Tok>, gaps: seq<string>)
    requires |gaps| == |ts| + 1 && ts != [] && Apart(ts, gaps) && i <= |b| && b[i..] == Text(ts, gaps)
    ensures var s := i + |gaps[0]|;
            var e := s + |TokText(ts[0])|;
            && e <= |b| && SkipSpace(b, i) == s && s < |b| && b[s..e] == TokText(ts[0])
            && b[e..] == Text(ts[1..], gaps[1..])
  {
    hide SkipSpace, IsSpace, IsBlank, TokText, Touch;
    var g, x, rest := gaps[0], TokText(ts[0]), Text(ts[1..], gaps[1..]);
    var s := i + |g|;
    var e := s + |x|;
    TokStarts(ts[0]);
    Parts(b, i, g, x + rest);
    Parts(b, s, x, rest);
    assert IsBlank(g);
    BlankAt(b, i, s);
    assert b[s] == b[s..e][0];
    BlanksSkipped(b, i, s);
  }

  lemma BlankAt(b: string, i: nat, s: nat)
    requires i <= s <= |b| && IsBlank(b[i..s])
    ensures forall k :: i <= k < s ==> IsSpace(b[k])
  {
    assert forall k :: i <= k < s ==> b[k] == b[i..s][k - i];
  }

  lemma Parts(b: string, i: nat, x: string, rest: string)
    requires i <= |b| && b[i..] == x + rest
    ensures i + |x| <= |b| && b[i..i + |x|] == x && b[i + |x|..] == rest
  {
    var w := x + rest;
    assert w[..|x|] == x && w[|x|..] == rest;
    assert b[i..][..|x|] == b[i..i + |x|] && b[i..][|x|..] == b[i + |x|..];
  }

  /** The first token of the text is read as what it is. */
  lemma TokenAt(b: string, s: nat, e: nat, t: Tok)
    requires '\0' !in b && s < e <= |b| && IsTok(t) && b[s..e] == TokText(t)
    requires e < |b| ==> (t.W? ==> !IsWordChar(b[e])) && (t == Sym('>') ==> b[e] != '>')
    ensures var k := GetToken(b, s); TokOf(b, k) == t && k.next == SkipSpace(b, e) && k.kind != '\0'
  {
    hide GetToken, SkipSpace, WordEnd;
    assert b[s] == TokText(t)[0] && s + |TokText(t)| == e;
    if t.W? {
      P.WordToken(b, s, t.word);
    } else if t.kind == '+' {
      assert b[s + 1] == b[s..e][1];
      P.DoubleArrowToken(b, s);
    } else {
      P.SymbolToken(b, s);
    }
  }

  /** The tokens of a text are read back, whatever the blanks. */
  lemma {:induction false} TextAt(b: string, i: nat, ts: seq<Tok>, gaps: seq<string>)
    requires '\0' !in b && |gaps| == |ts| + 1 && Apart(ts, gaps) && i <= |b| && b[i..] == Text(ts, gaps)
    ensures Toks(b, i) == ts
    decreases |ts|
  {
    hide GetToken, SkipSpace, WordEnd, Apart, TokText;
    Front(b, i);
    if ts == [] {
      OnlyBlanks(b, i, gaps[0], gaps);
    } else {
      FirstAt(b, i, ts, gaps);
      TextBehind(ts, gaps);
      var s := i + |gaps[0]|;
      var e := s + |TokText(ts[0])|;
      if e < |b| {
        assert b[e..][0] == b[e];
      }
      ApartFirst(ts, gaps);
      TokenAt(b, s, e, ts[0]);
      TextAt(b, e, ts[1..], gaps[1..]);
      Front(b, e);
    }
  }

  lemma ApartFirst(ts: seq<Tok>, gaps: seq<string>)
    requires |gaps| == |ts| + 1 && ts != [] && Apart(ts, gaps)
    ensures IsTok(ts[0]) && TokText(ts[0]) != ""
  {
    TokStarts(ts[0]);
  }

  lemma OnlyBlanks(b: string, i: nat, g: string, gaps: seq<string>)
    requires i <= |b| && gaps == [g] && Apart([], gaps) && b[i..] == g
    ensures SkipSpace(b, i) == |b|
  {
    assert forall k :: i <= k < |b| ==> b[k] == b[i..][k - i];
    assert IsBlank(gaps[0]);
    BlanksSkipped(b, i, |b|);
  }

  lemma {:induction false} TextNoNul(ts: seq<Tok>, gaps: seq<string>)
    requires |gaps| == |ts| + 1 && Apart(ts, gaps)
    ensures '\0' !in Text(ts, gaps)
    decreases |ts|
  {
    assert IsBlank(gaps[0]);
    if ts != [] {
      TextBehind(ts, gaps);
      TokStarts(ts[0]);
      TextNoNul(ts[1..], gaps[1..]);
    }
  }

  lemma TokensOfText(ts: seq<Tok>, gaps: seq<string>)
    requires |gaps| == |ts| + 1 && Apart(ts, gaps)
    ensures var b := Text(ts, gaps); '\0' !in b && Toks(b, 0) == ts
  {
    var b := Text(ts, gaps);
    TextNoNul(ts, gaps);
    assert b[0..] == b;
    TextAt(b, 0, ts, gaps);
  }

  /** A line of the grammar written with any blanks is accepted with its tree. */
  lemma WrittenIsAccepted(l: Line, gaps: seq<string>)
    requires IsLine(l) && |gaps| == |LineToks(l)| + 1 && Apart(LineToks(l), gaps)
    ensures var b := Text(LineToks(l), gaps);
            '\0' !in b && ParseCmd(b).Ok? && P.TreeOf(b, ParseCmd(b).cmd) == LineTree(l)
  {
    hide Text, Apart, Toks, ParseCmd, LineToks, LineTree;
    TokensOfText(LineToks(l), gaps);
    GrammarIsAccepted(Text(LineToks(l), gaps), l);
  }

  /** Words and redirections written in any order with any blanks: the command has all the words and all the
      redirections, each in their order, or is refused for having more than nine words. */
  lemma ItemsParsed(items: seq<Item>, gaps: seq<string>)
    requires AreItems(items) && |gaps| == |ItemsToks(items)| + 1 && Apart(ItemsToks(items), gaps)
    ensures var b := Text(ItemsToks(items), gaps);
            && '\0' !in b
            && if |Words(items)| < MAXARGS
               then && ParseCmd(b).Ok?
                    && P.TreeOf(b, ParseCmd(b).cmd) == Around(P.TExec(Words(items)), Openings(items))
               else ParseCmd(b).Panic?
  {
    hide Text, Apart, Toks, ItemsToks, Words, Openings, Around, ParseExec, P.TreeOf;
    var ts := ItemsToks(items);
    var b := Text(ts, gaps);
    TokensOfText(ts, gaps);
    if |Words(items)| < MAXARGS {
      var l := Single(Last(Command(items)), 0);
      OneCommand(items);
      GrammarIsAccepted(b, l);
    } else {
      assert ts + [] == ts;
      CommandComplete(b, 0, items, []);
      PanicStays(b);
    }
  }

  lemma OneCommand(items: seq<Item>)
    requires AreItems(items) && |Words(items)| < MAXARGS
    ensures var l := Single(Last(Command(items)), 0);
            && IsLine(l) && LineToks(l) == ItemsToks(items)
            && LineTree(l) == Around(P.TExec(Words(items)), Openings(items))
  {
    hide ItemsToks, Words, Openings, Around, AreItems;
    var c := Command(items);
    var p := Last(c);
    var l := Single(p, 0);
    assert SimpleToks(c) == ItemsToks(items) && PipeToks(p) == SimpleToks(c) && LineToks(l) == PipeToks(p) + Backs(0);
    assert PipeTree(p) == SimpleTree(c) && LineTree(l) == Backed(PipeTree(p), 0);
    assert IsSimple(c) && IsPipe(p);
  }

  lemma PanicStays(b: string)
    requires '\0' !in b && ParseExec(b, 0).Panic?
    ensures ParseCmd(b).Panic?
  {
    hide ParseExec, GetToken, SkipSpace;
    assert ParsePipe(b, 0).Panic?;
    assert ParseLine(b, 0).Panic?;
  }

  lemma {:induction false} SkippedBlanks(b: string, i: nat)
    requires i <= |b|
    ensures IsBlank(b[i..SkipSpace(b, i)])
    decreases |b| - i
  {
    if i < |b| && IsSpace(b[i]) {
      SkippedBlanks(b, i + 1);
      var w := b[i..SkipSpace(b, i)];
      assert w == [b[i]] + b[i + 1..SkipSpace(b, i + 1)];
    }
  }

  /** The text of the token at `i`, and what it may not be followed by. */
  lemma TokenText(b: string, i: nat)
    requires i <= |b| && '\0' !in b && GetToken(b, i).kind != '\0'
    ensures var t := GetToken(b, i);
            && i <= t.span.q < t.span.eq <= |b| && b[t.span.q..t.span.eq] == TokText(TokOf(b, t)) && IsTok(TokOf(b, t))
            && t.next == SkipSpace(b, t.span.eq)
            && (TokOf(b, t).W? && t.span.eq < |b| ==> !IsWordChar(b[t.span.eq]))
            && (TokOf(b, t) == Sym('>') && t.span.eq < |b| ==> b[t.span.eq] != '>')
  {
    hide GetToken, SkipSpace, WordEnd, TokOf, TokText, IsTok, IsWordChar, IsSym;
    NextIs(b, i);
    if GetToken(b, i).kind == 'a' {
      WordTok(b, GetToken(b, i));
    } else {
      SymbolText(b, i);
      SymbolTok(b, GetToken(b, i));
    }
  }

  lemma WordTok(b: string, t: Token)
    requires '\0' !in b && t.kind == 'a' && WholeWord(b, t.span)
    ensures t.span.q < t.span.eq <= |b| && b[t.span.q..t.span.eq] == TokText(TokOf(b, t)) && IsTok(TokOf(b, t))
    ensures TokOf(b, t).W? && (t.span.eq < |b| ==> !IsWordChar(b[t.span.eq]))
  {
    hide P.IsWord, IsWordChar;
    P.WholeIsWord(b, t.span);
  }

  lemma SymbolTok(b: string, t: Token)
    requires IsSym(t.kind) && t.kind != 'a' && t.span.q < t.span.eq <= |b|
    requires t.span.eq == t.span.q + (if t.kind == '+' then 2 else 1)
    requires b[t.span.q] == (if t.kind == '+' then '>' else t.kind) && (t.kind == '+' ==> b[t.span.q + 1] == '>')
    ensures b[t.span.q..t.span.eq] == TokText(TokOf(b, t)) && IsTok(TokOf(b, t)) && TokOf(b, t) == Sym(t.kind)
  {
  }

  lemma NextIs(b: string, i: nat)
    requires i <= |b| && '\0' !in b
    ensures var t := GetToken(b, i); t.next == SkipSpace(b, t.span.eq)
  {
    hide SkipSpace, WordEnd;
  }

  lemma SymbolText(b: string, i: nat)
    requires i <= |b| && '\0' !in b && GetToken(b, i).kind != '\0' && GetToken(b, i).kind != 'a'
    ensures var t := GetToken(b, i);
            && i <= t.span.q < t.span.eq <= |b| && IsSym(t.kind)
            && t.span.eq == t.span.q + (if t.kind == '+' then 2 else 1)
            && b[t.span.q] == (if t.kind == '+' then '>' else t.kind) && (t.kind == '+' ==> b[t.span.q + 1] == '>')
            && (t.kind == '>' && t.span.eq < |b| ==> b[t.span.eq] != '>')
  {
    hide SkipSpace, WordEnd;
  }

  /** Every line is the text of its tokens, with blanks. */
  lemma {:induction false} EveryLineIsText(b: string, i: nat) returns (gaps: seq<string>)
    requires i <= |b| && '\0' !in b
    ensures var ts := Toks(b, i); |gaps| == |ts| + 1 && Apart(ts, gaps) && b[i..] == Text(ts, gaps)
    decreases |b| - i
  {
    hide GetToken, SkipSpace, WordEnd, TokText, IsTok, IsBlank, Toks, Touch;
    Front(b, i);
    SkippedBlanks(b, i);
    var s, t, ts := SkipSpace(b, i), GetToken(b, i), Toks(b, i);
    if ts == [] {
      gaps := [b[i..s]];
    } else {
      TokenText(b, i);
      var e := t.span.eq;
      var more := EveryLineIsText(b, e);
      Front(b, e);
      gaps := [b[i..s]] + more;
      assert gaps[1..] == more && ts[1..] == Toks(b, e);
      assert b[i..] == b[i..s] + (b[s..e] + b[e..]);
      NextToken(b, e, ts[0], Toks(b, e), more);
      forall k | 0 < k < |ts| && Touch(ts[k - 1], ts[k])
        ensures gaps[k] != ""
      {
        assert ts[k] == ts[1..][k - 1] && gaps[k] == more[k - 1];
      }
    }
  }

  /** A token that must not touch the next does not. */
  lemma NextToken(b: string, e: nat, x: Tok, ts: seq<Tok>, gaps: seq<string>)
    requires e <= |b| && |gaps| == |ts| + 1 && Apart(ts, gaps) && b[e..] == Text(ts, gaps)
    requires x.W? && e < |b| ==> !IsWordChar(b[e])
    requires x == Sym('>') && e < |b| ==> b[e] != '>'
    ensures ts != [] && Touch(x, ts[0]) ==> gaps[0] != ""
  {
    if ts != [] && gaps[0] == "" {
      TokStarts(ts[0]);
      assert Text(ts, gaps)[0] == TokText(ts[0])[0];
      assert b[e] == b[e..][0];
    }
  }
}

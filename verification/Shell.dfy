/**
 The command parser of the shell (sh.c): tokens, recursive descent, and the NUL bytes
 it writes into its input at the end of every word.

 The input is a C string, given without its terminating NUL; positions run from 0 to
 its length, where the NUL is.
 */
module Shell {
  const MAXARGS: nat := 10
  const O_RDONLY: int := 0
  const O_WRONLY: int := 0x001
  const O_CREATE: int := 0x200

  /** The part of the input from `q` up to `eq`. */
  datatype Span = Span(q: nat, eq: nat)

  datatype Cmd =
    | Exec(argv: seq<Span>)
    | Redir(cmd: Cmd, file: Span, mode: int, fd: int)
    | Pipe(left: Cmd, right: Cmd)
    | List(left: Cmd, right: Cmd)
    | Back(cmd: Cmd)

  datatype Parsed = Ok(cmd: Cmd, next: nat) | Panic

  // ---- characters and tokens ----

  predicate IsSpace(c: char) {
    c == ' ' || c == '\t' || c == '\r' || c == '\n' || c == '\U{0B}'
  }

  predicate IsSymbol(c: char) {
    c == '<' || c == '|' || c == '>' || c == '&' || c == ';' || c == '(' || c == ')'
  }

  predicate IsWordChar(c: char) {
    !IsSpace(c) && !IsSymbol(c)
  }

  /** The character at a position, NUL at the end. */
  function Ch(b: string, i: nat): char {
    if i < |b| then b[i] else '\0'
  }

  function SkipSpace(b: string, i: nat): (k: nat)
    ensures i <= k && (i <= |b| ==> k <= |b|) && (k < |b| ==> !IsSpace(b[k]))
    ensures i >= |b| || !IsSpace(b[i]) ==> k == i
    decreases |b| - i
  {
    if i < |b| && IsSpace(b[i]) then SkipSpace(b, i + 1) else i
  }

  function WordEnd(b: string, i: nat): (k: nat)
    ensures i <= k && (i <= |b| ==> k <= |b|) && (k < |b| ==> !IsWordChar(b[k]))
    ensures forall j :: i <= j < k && j < |b| ==> IsWordChar(b[j])
    decreases |b| - i
  {
    if i < |b| && IsWordChar(b[i]) then WordEnd(b, i + 1) else i
  }

  /** A token: its kind ('a' for a word, '+' for ">>"), its span and where the next one starts. */
  datatype Token = Token(kind: char, span: Span, next: nat)

  function GetToken(b: string, i: nat): (t: Token)
    requires i <= |b|
    ensures i <= t.span.q <= t.span.eq <= t.next <= |b|
    ensures t.span.q == SkipSpace(b, i) && SkipSpace(b, t.next) == t.next
    ensures t.kind == '\0' ==> t.next == |b| || '\0' in b
    ensures t.span.q < |b| && '\0' !in b ==> t.next > i
    ensures t.kind == 'a' ==> t.span.q < t.span.eq && (forall j :: t.span.q <= j < t.span.eq ==> IsWordChar(b[j]))
                              && (t.span.eq < |b| ==> !IsWordChar(b[t.span.eq]))
  {
    var s := SkipSpace(b, i);
    var c := Ch(b, s);
    var (kind, e) :=
      if c == '\0' then ('\0', s)
      else if c == '|' || c == '(' || c == ')' || c == ';' || c == '&' || c == '<' then (c, s + 1)
      else if c == '>' then (if Ch(b, s + 1) == '>' then ('+', s + 2) else ('>', s + 1))
      else ('a', WordEnd(b, s));
    Token(kind, Span(s, e), SkipSpace(b, e))
  }

  // ---- the grammar, as functions of the position ----

  /** Redirections read off the input: file, open mode and descriptor of each. */
  datatype Redirs = Redirs(rs: seq<(Span, int, int)>, next: nat) | NoFile

  /** The redirections wrapped around a command, first one innermost. */
  function Wrap(cmd: Cmd, rs: seq<(Span, int, int)>): Cmd
    decreases |rs|
  {
    if rs == [] then cmd else Wrap(Redir(cmd, rs[0].0, rs[0].1, rs[0].2), rs[1..])
  }

  function RedirOf(tok: char, file: Span): (Span, int, int) {
    if tok == '<' then (file, O_RDONLY, 0) else (file, O_WRONLY + O_CREATE, 1)
  }

  function ReadRedirs(b: string, i: nat): (r: Redirs)
    requires i <= |b| && '\0' !in b
    ensures r.Redirs? ==> i <= r.next <= |b|
    decreases |b| - i
  {
    var s := SkipSpace(b, i);
    if Ch(b, s) != '<' && Ch(b, s) != '>' then Redirs([], s)
    else
      var tok := GetToken(b, s);
      var f := GetToken(b, tok.next);
      if f.kind != 'a' then NoFile
      else match ReadRedirs(b, f.next)
           case Redirs(rs, next) => Redirs([RedirOf(tok.kind, f.span)] + rs, next)
           case NoFile => NoFile
  }

  /** The redirections read before others. */
  function After(done: seq<(Span, int, int)>, r: Redirs): Redirs {
    match r
    case Redirs(rs, next) => Redirs(done + rs, next)
    case NoFile => NoFile
  }

  lemma RedirsSkip(b: string, i: nat)
    requires i <= |b| && '\0' !in b
    ensures ReadRedirs(b, i) == ReadRedirs(b, SkipSpace(b, i))
    ensures After([], ReadRedirs(b, i)) == ReadRedirs(b, i)
  {
    hide GetToken, SkipSpace, WordEnd;
    var r := ReadRedirs(b, i);
    assert r.Redirs? ==> [] + r.rs == r.rs;
  }

  /** Reading redirections one at a time, with those read so far in `done`. */
  lemma RedirsStep(b: string, i: nat, done: seq<(Span, int, int)>)
    requires i <= |b| && '\0' !in b && SkipSpace(b, i) == i
    ensures var tok := GetToken(b, i);
            var f := GetToken(b, tok.next);
            if Ch(b, i) != '<' && Ch(b, i) != '>' then After(done, ReadRedirs(b, i)) == Redirs(done, i)
            else if f.kind != 'a' then After(done, ReadRedirs(b, i)) == NoFile
            else
              && f.next > i
              && After(done, ReadRedirs(b, i)) == After(done + [RedirOf(tok.kind, f.span)], ReadRedirs(b, f.next))
  {
    hide GetToken, SkipSpace, WordEnd;
    var tok := GetToken(b, i);
    var f := GetToken(b, tok.next);
    if Ch(b, i) != '<' && Ch(b, i) != '>' {
      assert done + [] == done;
    } else if f.kind == 'a' {
      var rest := ReadRedirs(b, f.next);
      if rest.Redirs? {
        var r := RedirOf(tok.kind, f.span);
        assert done + ([r] + rest.rs) == (done + [r]) + rest.rs;
      }
    }
  }

  predicate EndsExec(c: char) {
    c == '|' || c == ')' || c == '&' || c == ';'
  }

  /** Words and redirections of a simple command, after those read already. */
  function ReadArgs(b: string, i: nat, argv: seq<Span>, rs: seq<(Span, int, int)>): (r: Parsed)
    requires i <= |b| && '\0' !in b
    ensures r.Ok? ==> i <= r.next <= |b|
    decreases |b| - i
  {
    var s := SkipSpace(b, i);
    if EndsExec(Ch(b, s)) then Ok(Wrap(Exec(argv), rs), s)
    else
      var tok := GetToken(b, s);
      if tok.kind == '\0' then Ok(Wrap(Exec(argv), rs), tok.next)
      else if tok.kind != 'a' || |argv| + 1 >= MAXARGS then Panic
      else match ReadRedirs(b, tok.next)
           case Redirs(more, next) => ReadArgs(b, next, argv + [tok.span], rs + more)
           case NoFile => Panic
  }

  function ParseExec(b: string, i: nat): (r: Parsed)
    requires i <= |b| && '\0' !in b
    ensures r.Ok? ==> i <= r.next <= |b|
    decreases |b| - i, 1
  {
    var s := SkipSpace(b, i);
    if Ch(b, s) == '(' then ParseBlock(b, s)
    else match ReadRedirs(b, s)
         case Redirs(rs, next) => ReadArgs(b, next, [], rs)
         case NoFile => Panic
  }

  function ParseBlock(b: string, i: nat): (r: Parsed)
    requires i < |b| && '\0' !in b && b[i] == '('
    ensures r.Ok? ==> i <= r.next <= |b|
    decreases |b| - i, 0
  {
    match ParseLine(b, GetToken(b, i).next)
    case Panic => Panic
    case Ok(cmd, next) =>
      var s := SkipSpace(b, next);
      if Ch(b, s) != ')' then Panic
      else match ReadRedirs(b, GetToken(b, s).next)
           case Redirs(rs, next) => Ok(Wrap(cmd, rs), next)
           case NoFile => Panic
  }

  function ParsePipe(b: string, i: nat): (r: Parsed)
    requires i <= |b| && '\0' !in b
    ensures r.Ok? ==> i <= r.next <= |b|
    decreases |b| - i, 2
  {
    match ParseExec(b, i)
    case Panic => Panic
    case Ok(cmd, next) =>
      var s := SkipSpace(b, next);
      if Ch(b, s) != '|' then Ok(cmd, s)
      else match ParsePipe(b, GetToken(b, s).next)
           case Panic => Panic
           case Ok(right, next) => Ok(Pipe(cmd, right), next)
  }

  /** The ampersands after a pipeline. */
  function ReadBacks(b: string, i: nat, cmd: Cmd): (r: (Cmd, nat))
    requires i <= |b| && '\0' !in b
    ensures i <= r.1 <= |b| && SkipSpace(b, r.1) == r.1
    decreases |b| - i
  {
    var s := SkipSpace(b, i);
    if Ch(b, s) != '&' then (cmd, s) else ReadBacks(b, GetToken(b, s).next, Back(cmd))
  }

  function ParseLine(b: string, i: nat): (r: Parsed)
    requires i <= |b| && '\0' !in b
    ensures r.Ok? ==> i <= r.next <= |b|
    decreases |b| - i, 3
  {
    match ParsePipe(b, i)
    case Panic => Panic
    case Ok(cmd, next) =>
      var (c, s) := ReadBacks(b, next, cmd);
      if Ch(b, s) != ';' then Ok(c, s)
      else match ParseLine(b, GetToken(b, s).next)
           case Panic => Panic
           case Ok(right, next) => Ok(List(c, right), next)
  }

  /** The whole input as one command line. */
  function ParseCmd(b: string): Parsed
    requires '\0' !in b
  {
    match ParseLine(b, 0)
    case Panic => Panic
    case Ok(cmd, next) => if SkipSpace(b, next) == |b| then Ok(cmd, |b|) else Panic
  }

  // ---- what every parsed command looks like ----

  /** A whole word of the input: word characters up to the first that is not one. */
  predicate WholeWord(b: string, w: Span) {
    && w.q < w.eq <= |b|
    && (forall j :: w.q <= j < w.eq ==> IsWordChar(b[j]))
    && (w.eq < |b| ==> !IsWordChar(b[w.eq]))
  }

  predicate GoodRedir(b: string, r: (Span, int, int)) {
    WholeWord(b, r.0) && ((r.1 == O_RDONLY && r.2 == 0) || (r.1 == O_WRONLY + O_CREATE && r.2 == 1))
  }

  /** A command as the parser builds it: whole words, few enough, and the two kinds of redirection. */
  predicate Good(b: string, cmd: Cmd) {
    match cmd
    case Exec(argv) => |argv| < MAXARGS && forall k :: 0 <= k < |argv| ==> WholeWord(b, argv[k])
    case Redir(c, file, mode, fd) => Good(b, c) && GoodRedir(b, (file, mode, fd))
    case Pipe(left, right) => Good(b, left) && Good(b, right)
    case List(left, right) => Good(b, left) && Good(b, right)
    case Back(c) => Good(b, c)
  }

  lemma {:induction false} WrapGood(b: string, cmd: Cmd, rs: seq<(Span, int, int)>)
    requires Good(b, cmd) && forall k :: 0 <= k < |rs| ==> GoodRedir(b, rs[k])
    ensures Good(b, Wrap(cmd, rs))
    decreases |rs|
  {
    if rs != [] {
      WrapGood(b, Redir(cmd, rs[0].0, rs[0].1, rs[0].2), rs[1..]);
    }
  }

  lemma {:induction false} RedirsGood(b: string, i: nat)
    requires i <= |b| && '\0' !in b
    ensures var r := ReadRedirs(b, i);
            r.Redirs? ==> forall k :: 0 <= k < |r.rs| ==> GoodRedir(b, r.rs[k])
    decreases |b| - i
  {
    hide GetToken, SkipSpace, WordEnd;
    var s := SkipSpace(b, i);
    if Ch(b, s) == '<' || Ch(b, s) == '>' {
      var f := GetToken(b, GetToken(b, s).next);
      if f.kind == 'a' {
        RedirsGood(b, f.next);
        assert WholeWord(b, f.span);
        var r, rest := ReadRedirs(b, i), ReadRedirs(b, f.next);
        if rest.Redirs? {
          forall k | 0 <= k < |r.rs|
            ensures GoodRedir(b, r.rs[k])
          {
            assert r.rs[k] == if k == 0 then RedirOf(GetToken(b, s).kind, f.span) else rest.rs[k - 1];
          }
        }
      }
    }
  }

  lemma {:induction false} ArgsGood(b: string, i: nat, argv: seq<Span>, rs: seq<(Span, int, int)>)
    requires i <= |b| && '\0' !in b && Good(b, Exec(argv))
    requires forall k :: 0 <= k < |rs| ==> GoodRedir(b, rs[k])
    ensures var r := ReadArgs(b, i, argv, rs); r.Ok? ==> Good(b, r.cmd)
    decreases |b| - i
  {
    hide GetToken, SkipSpace, WordEnd, ReadRedirs, GoodRedir;
    var s := SkipSpace(b, i);
    var tok := GetToken(b, s);
    if EndsExec(Ch(b, s)) || tok.kind == '\0' {
      WrapGood(b, Exec(argv), rs);
    } else if tok.kind == 'a' && |argv| + 1 < MAXARGS {
      RedirsGood(b, tok.next);
      var more := ReadRedirs(b, tok.next);
      if more.Redirs? {
        var all := rs + more.rs;
        forall k | 0 <= k < |all|
          ensures GoodRedir(b, all[k])
        {
          assert all[k] == if k < |rs| then rs[k] else more.rs[k - |rs|];
        }
        ArgsGood(b, more.next, argv + [tok.span], all);
      }
    }
  }

  lemma {:induction false} ExecGood(b: string, i: nat)
    requires i <= |b| && '\0' !in b
    ensures var r := ParseExec(b, i); r.Ok? ==> Good(b, r.cmd)
    decreases |b| - i, 1
  {
    var s := SkipSpace(b, i);
    if Ch(b, s) == '(' {
      var inner := ParseLine(b, GetToken(b, s).next);
      if inner.Ok? {
        LineGood(b, GetToken(b, s).next);
        var close := SkipSpace(b, inner.next);
        if Ch(b, close) == ')' {
          var rs := ReadRedirs(b, GetToken(b, close).next);
          if rs.Redirs? {
            RedirsGood(b, GetToken(b, close).next);
            WrapGood(b, inner.cmd, rs.rs);
          }
        }
      }
    } else {
      RedirsGood(b, s);
      var rs := ReadRedirs(b, s);
      if rs.Redirs? {
        ArgsGood(b, rs.next, [], rs.rs);
      }
    }
  }

  lemma {:induction false} PipeGood(b: string, i: nat)
    requires i <= |b| && '\0' !in b
    ensures var r := ParsePipe(b, i); r.Ok? ==> Good(b, r.cmd)
    decreases |b| - i, 2
  {
    ExecGood(b, i);
    var p := ParseExec(b, i);
    if p.Ok? && Ch(b, SkipSpace(b, p.next)) == '|' {
      PipeGood(b, GetToken(b, SkipSpace(b, p.next)).next);
    }
  }

  lemma {:induction false} BacksGood(b: string, i: nat, cmd: Cmd)
    requires i <= |b| && '\0' !in b && Good(b, cmd)
    ensures Good(b, ReadBacks(b, i, cmd).0)
    decreases |b| - i
  {
    var s := SkipSpace(b, i);
    if Ch(b, s) == '&' {
      BacksGood(b, GetToken(b, s).next, Back(cmd));
    }
  }

  /** Whatever the input, what the parser accepts is made of whole words of it. */
  lemma {:induction false} LineGood(b: string, i: nat)
    requires i <= |b| && '\0' !in b
    ensures var r := ParseLine(b, i); r.Ok? ==> Good(b, r.cmd)
    decreases |b| - i, 3
  {
    PipeGood(b, i);
    var p := ParsePipe(b, i);
    if p.Ok? {
      BacksGood(b, p.next, p.cmd);
      var s := ReadBacks(b, p.next, p.cmd).1;
      if Ch(b, s) == ';' {
        LineGood(b, GetToken(b, s).next);
      }
    }
  }

  // ---- the words of a command, as C strings in the buffer ----

  function Spans(cmd: Cmd): set<Span> {
    match cmd
    case Exec(argv) => set k | 0 <= k < |argv| :: argv[k]
    case Redir(c, file, _, _) => Spans(c) + {file}
    case Pipe(left, right) => Spans(left) + Spans(right)
    case List(left, right) => Spans(left) + Spans(right)
    case Back(c) => Spans(c)
  }

  /** Whether a word of the command ends at `j`. */
  ghost predicate EndsAt(cmd: Cmd, j: int) {
    exists w :: w in Spans(cmd) && w.eq == j
  }

  /** The C string that starts at `i`. */
  function CString(s: string, i: nat): string
    decreases |s| - i
  {
    if i < |s| && s[i] != '\0' then [s[i]] + CString(s, i + 1) else ""
  }

  lemma {:induction false} SpansWhole(b: string, cmd: Cmd, w: Span)
    requires Good(b, cmd) && w in Spans(cmd)
    ensures WholeWord(b, w)
  {
    match cmd
    case Exec(_) =>
    case Redir(c, file, _, _) => if w != file { SpansWhole(b, c, w); }
    case Pipe(left, right) => if w in Spans(left) { SpansWhole(b, left, w); } else { SpansWhole(b, right, w); }
    case List(left, right) => if w in Spans(left) { SpansWhole(b, left, w); } else { SpansWhole(b, right, w); }
    case Back(c) => SpansWhole(b, c, w);
  }

  lemma {:induction false} CStringUpTo(s: string, i: nat, e: nat)
    requires i <= e < |s| && s[e] == '\0' && forall j :: i <= j < e ==> s[j] != '\0'
    ensures CString(s, i) == s[i..e]
    decreases e - i
  {
    if i < e {
      CStringUpTo(s, i + 1, e);
      assert s[i..e] == [s[i]] + s[i + 1..e];
    }
  }

  /** The buffer once every word has been ended by a NUL: nothing else is touched. */
  ghost predicate NulTerminated(was: string, now: string, cmd: Cmd) {
    |now| == |was| && forall j :: 0 <= j < |was| ==> now[j] == if EndsAt(cmd, j) then '\0' else was[j]
  }

  /** No word is cut short by the NUL of another, and each ends where its own is. */
  lemma WordsSurvive(b: string, cmd: Cmd, now: string, w: Span)
    requires '\0' !in b && Good(b, cmd) && w in Spans(cmd)
    requires NulTerminated(b + ['\0'], now, cmd)
    ensures w.q < w.eq <= |b| && CString(now, w.q) == b[w.q..w.eq]
  {
    var was := b + ['\0'];
    SpansWhole(b, cmd, w);
    assert EndsAt(cmd, w.eq);
    forall j | w.q <= j < w.eq
      ensures now[j] == b[j]
    {
      assert IsWordChar(b[j]);
      if EndsAt(cmd, j) {
        var v :| v in Spans(cmd) && v.eq == j;
        SpansWhole(b, cmd, v);
        assert false;
      }
      assert was[j] == b[j];
    }
    CStringUpTo(now, w.q, w.eq);
    assert now[w.q..w.eq] == b[w.q..w.eq];
  }

  method NulTerminate(a: array<char>, cmd: Cmd)
    requires forall w :: w in Spans(cmd) ==> w.eq < a.Length
    modifies a
    ensures NulTerminated(old(a[..]), a[..], cmd)
  {
    match cmd
    case Exec(argv) =>
      var i := 0;
      while i < |argv|
        invariant 0 <= i <= |argv|
        invariant forall j :: 0 <= j < a.Length ==>
                    a[j] == if exists k :: 0 <= k < i && argv[k].eq == j then '\0' else old(a[j])
      {
        assert argv[i] in Spans(cmd);
        a[argv[i].eq] := '\0';
        i := i + 1;
      }
      forall j | 0 <= j < a.Length
        ensures EndsAt(cmd, j) <==> exists k :: 0 <= k < |argv| && argv[k].eq == j
      {
        if k :| 0 <= k < |argv| && argv[k].eq == j {
          assert argv[k] in Spans(cmd);
        }
      }
    case Redir(c, file, _, _) =>
      NulTerminate(a, c);
      assert file in Spans(cmd);
      a[file.eq] := '\0';
      forall j | 0 <= j < a.Length
        ensures EndsAt(cmd, j) <==> (EndsAt(c, j) || file.eq == j)
      {
        if EndsAt(c, j) {
          var w :| w in Spans(c) && w.eq == j;
          assert w in Spans(cmd);
        }
      }
    case Pipe(left, right) =>
      NulTerminate(a, left);
      NulTerminate(a, right);
      forall j | 0 <= j < a.Length
        ensures EndsAt(cmd, j) <==> (EndsAt(left, j) || EndsAt(right, j))
      {
        EndsEither(cmd, left, right, j);
      }
    case List(left, right) =>
      NulTerminate(a, left);
      NulTerminate(a, right);
      forall j | 0 <= j < a.Length
        ensures EndsAt(cmd, j) <==> (EndsAt(left, j) || EndsAt(right, j))
      {
        EndsEither(cmd, left, right, j);
      }
    case Back(c) =>
      NulTerminate(a, c);
      assert Spans(cmd) == Spans(c);
  }

  lemma EndsEither(cmd: Cmd, c: Cmd, d: Cmd, j: int)
    requires Spans(cmd) == Spans(c) + Spans(d)
    ensures EndsAt(cmd, j) <==> (EndsAt(c, j) || EndsAt(d, j))
  {
    if w :| w in Spans(c) && w.eq == j {
      assert w in Spans(cmd);
    }
    if w :| w in Spans(d) && w.eq == j {
      assert w in Spans(cmd);
    }
  }
}

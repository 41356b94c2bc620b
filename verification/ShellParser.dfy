/**
 The parser of the shell as it runs: one cursor that every routine moves forward (sh.c).
 Each routine is held to the function of the position with the same name; a panic, which
 ends the shell, is the result None.
 */
module ShellParser {
  import opened Common
  import opened Shell

  class Parser {
    const text: string
    var s: nat

    ghost predicate Valid()
      reads this
    {
      s <= |text| && '\0' !in text
    }

    /** What `r` and the cursor must be when a routine agrees with `p`. */
    ghost predicate Agrees(p: Parsed, r: Option<Cmd>)
      reads this
    {
      match p
      case Ok(cmd, next) => r == Some(cmd) && s == next
      case Panic => r == None
    }

    constructor (text: string)
      requires '\0' !in text
      ensures this.text == text && s == 0 && Valid()
    {
      this.text := text;
      s := 0;
    }

    method SkipSpaces()
      requires Valid()
      modifies this
      ensures Valid() && s == SkipSpace(text, old(s))
    {
      while s < |text| && IsSpace(text[s])
        invariant s <= |text| && SkipSpace(text, s) == SkipSpace(text, old(s))
      {
        s := s + 1;
      }
    }

    method Next() returns (tok: char, word: Span)
      requires Valid()
      modifies this
      ensures Valid()
      ensures Token(tok, word, s) == GetToken(text, old(s))
    {
      SkipSpaces();
      var q := s;
      var c := Ch(text, s);
      if c == '\0' {
        tok := c;
      } else if c == '|' || c == '(' || c == ')' || c == ';' || c == '&' || c == '<' {
        tok := c;
        s := s + 1;
      } else if c == '>' {
        tok := c;
        s := s + 1;
        if Ch(text, s) == '>' {
          tok := '+';
          s := s + 1;
        }
      } else {
        tok := 'a';
        while s < |text| && IsWordChar(text[s])
          invariant q <= s <= |text| && WordEnd(text, s) == WordEnd(text, q)
        {
          s := s + 1;
        }
      }
      word := Span(q, s);
      SkipSpaces();
    }

    method Peek(toks: string) returns (found: bool)
      requires Valid()
      modifies this
      ensures Valid() && s == SkipSpace(text, old(s))
      ensures found == (Ch(text, s) != '\0' && Ch(text, s) in toks)
    {
      SkipSpaces();
      found := Ch(text, s) != '\0' && Ch(text, s) in toks;
    }

    /**
     The redirections that follow, in order. The caller wraps them: around a block at
     once, around a simple command when all its words are known, since the words are
     filled in under the wrappers.
     */
    method Redirections() returns (r: Option<seq<(Span, int, int)>>)
      requires Valid()
      modifies this
      ensures Valid() && s >= old(s)
      ensures match ReadRedirs(text, old(s))
              case Redirs(rs, next) => r == Some(rs) && s == next
              case NoFile => r == None
    {
      hide SkipSpace, GetToken, WordEnd, IsSpace, ReadRedirs;
      ghost var start := ReadRedirs(text, s);
      var rs := [];
      RedirsSkip(text, s);
      var more := Peek("<>");
      RedirsStep(text, s, rs);
      while more
        invariant Valid() && s >= old(s) && SkipSpace(text, s) == s
        invariant more == (Ch(text, s) == '<' || Ch(text, s) == '>')
        invariant After(rs, ReadRedirs(text, s)) == start
        decreases |text| - s
      {
        RedirsStep(text, s, rs);
        var tok, _ := Next();
        var kind, file := Next();
        if kind != 'a' {
          return None;
        }
        rs := rs + [if tok == '<' then (file, O_RDONLY, 0) else (file, O_WRONLY + O_CREATE, 1)];
        more := Peek("<>");
      }
      RedirsStep(text, s, rs);
      r := Some(rs);
    }

    /** The loop of parseexec over the words of a simple command. */
    method Arguments(first: seq<(Span, int, int)>) returns (r: Option<Cmd>)
      requires Valid()
      modifies this
      ensures Valid() && s >= old(s) && Agrees(ReadArgs(text, old(s), [], first), r)
    {
      hide SkipSpace, GetToken, WordEnd, IsSpace, ReadRedirs;
      var argv: seq<Span>, rs := [], first;
      var stop := Peek("|)&;");
      while !stop
        invariant Valid() && s >= old(s) && SkipSpace(text, s) == s
        invariant stop == EndsExec(Ch(text, s))
        invariant ReadArgs(text, s, argv, rs) == ReadArgs(text, old(s), [], first)
        decreases |text| - s, !stop
      {
        var tok, word := Next();
        if tok == '\0' {
          break;
        }
        if tok != 'a' {
          return None;
        }
        argv := argv + [word];
        if |argv| >= MAXARGS {
          return None;
        }
        var more := Redirections();
        if more == None {
          return None;
        }
        rs := rs + more.value;
        stop := Peek("|)&;");
      }
      r := Some(Wrap(Cmd.Exec(argv), rs));
    }

    method Exec() returns (r: Option<Cmd>)
      requires Valid()
      modifies this
      ensures Valid() && s >= old(s) && Agrees(ParseExec(text, old(s)), r)
      decreases |text| - s, 1
    {
      hide SkipSpace, GetToken, WordEnd, IsSpace, ReadRedirs, ReadArgs;
      var block := Peek("(");
      if block {
        r := Block();
      } else {
        var first := Redirections();
        if first == None {
          return None;
        }
        r := Arguments(first.value);
      }
    }

    method Block() returns (r: Option<Cmd>)
      requires Valid() && Ch(text, s) == '('
      modifies this
      ensures Valid() && s >= old(s) && Agrees(ParseBlock(text, old(s)), r)
      decreases |text| - s, 0
    {
      hide SkipSpace, GetToken, WordEnd, IsSpace;
      var _, _ := Next();
      var inner := Line();
      if inner == None {
        return None;
      }
      var closed := Peek(")");
      if !closed {
        return None;
      }
      var _, _ := Next();
      var rs := Redirections();
      if rs == None {
        return None;
      }
      r := Some(Wrap(inner.value, rs.value));
    }

    method Pipeline() returns (r: Option<Cmd>)
      requires Valid()
      modifies this
      ensures Valid() && s >= old(s) && Agrees(ParsePipe(text, old(s)), r)
      decreases |text| - s, 2
    {
      hide SkipSpace, GetToken, WordEnd, IsSpace;
      r := Exec();
      if r == None {
        return;
      }
      var more := Peek("|");
      if more {
        var _, _ := Next();
        var right := Pipeline();
        if right == None {
          return None;
        }
        r := Some(Pipe(r.value, right.value));
      }
    }

    method Line() returns (r: Option<Cmd>)
      requires Valid()
      modifies this
      ensures Valid() && s >= old(s) && Agrees(ParseLine(text, old(s)), r)
      decreases |text| - s, 3
    {
      hide SkipSpace, GetToken, WordEnd, IsSpace;
      r := Pipeline();
      if r == None {
        return;
      }
      var cmd := r.value;
      ghost var goal := ReadBacks(text, s, cmd);
      var back := Peek("&");
      while back
        invariant Valid() && s >= old(s) && SkipSpace(text, s) == s
        invariant back == (Ch(text, s) == '&') && ReadBacks(text, s, cmd) == goal
        decreases |text| - s
      {
        var _, _ := Next();
        cmd := Back(cmd);
        back := Peek("&");
      }
      var list := Peek(";");
      if list {
        var _, _ := Next();
        var right := Line();
        if right == None {
          return None;
        }
        cmd := List(cmd, right.value);
      }
      r := Some(cmd);
    }
  }

  /**
   The whole of parsecmd on a C string: the parse, the check that nothing is left over,
   and the NULs. Afterwards every word of the command is a C string in the buffer.
   */
  method ParseCommand(a: array<char>) returns (r: Option<Cmd>)
    requires a.Length > 0 && a[a.Length - 1] == '\0'
    requires forall j :: 0 <= j < a.Length - 1 ==> a[j] != '\0'
    modifies a
    ensures var b := old(a[..a.Length - 1]);
            match ParseCmd(b)
            case Panic => r == None && a[..] == old(a[..])
            case Ok(cmd, _) =>
              && r == Some(cmd) && NulTerminated(old(a[..]), a[..], cmd)
              && forall w :: w in Spans(cmd) ==>
                   w.q < w.eq <= |b| && CString(a[..], w.q) == b[w.q..w.eq]
  {
    var b := a[..a.Length - 1];
    assert a[..] == b + ['\0'];
    var p := new Parser(b);
    var cmd := p.Line();
    if cmd == None {
      return None;
    }
    LineGood(b, 0);
    var _ := p.Peek("");
    if p.s != |b| {
      return None;
    }
    forall w | w in Spans(cmd.value)
      ensures w.eq < a.Length
    {
      SpansWhole(b, cmd.value, w);
    }
    NulTerminate(a, cmd.value);
    forall w | w in Spans(cmd.value)
      ensures w.q < w.eq <= |b| && CString(a[..], w.q) == b[w.q..w.eq]
    {
      WordsSurvive(b, cmd.value, a[..], w);
    }
    r := cmd;
  }
}

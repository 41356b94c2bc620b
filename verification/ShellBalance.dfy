/** The parentheses of every command line that the shell accepts are properly nested. */
module ShellBalance {
  import opened Shell

  /** Opening less closing parentheses from `i` up to `j`. */
  function Depth(b: string, i: nat, j: nat): int
    requires i <= j <= |b|
    decreases j - i
  {
    if i == j then 0
    else (if b[i] == '(' then 1 else if b[i] == ')' then -1 else 0) + Depth(b, i + 1, j)
  }

  /** From `i` up to `j` every parenthesis that closes one closes an open one, and none stays open. */
  ghost predicate Nested(b: string, i: nat, j: nat) {
    && i <= j <= |b| && Depth(b, i, j) == 0
    && forall k :: i <= k <= j ==> Depth(b, i, k) >= 0
  }

  lemma {:induction false} DepthAdds(b: string, i: nat, j: nat, k: nat)
    requires i <= j <= k <= |b|
    ensures Depth(b, i, k) == Depth(b, i, j) + Depth(b, j, k)
    decreases j - i
  {
    if i < j {
      DepthAdds(b, i + 1, j, k);
    }
  }

  lemma NestedAdds(b: string, i: nat, j: nat, k: nat)
    requires Nested(b, i, j) && Nested(b, j, k)
    ensures Nested(b, i, k)
  {
    forall m | i <= m <= k
      ensures Depth(b, i, m) >= 0 && (m == k ==> Depth(b, i, m) == 0)
    {
      if j <= m {
        DepthAdds(b, i, j, m);
      }
    }
  }

  lemma {:induction false} DepthFlat(b: string, i: nat, j: nat)
    requires i <= j <= |b| && forall k :: i <= k < j ==> b[k] != '(' && b[k] != ')'
    ensures Depth(b, i, j) == 0
    decreases j - i
  {
    if i < j {
      DepthFlat(b, i + 1, j);
    }
  }

  lemma NestedFlat(b: string, i: nat, j: nat)
    requires i <= j <= |b| && forall k :: i <= k < j ==> b[k] != '(' && b[k] != ')'
    ensures Nested(b, i, j)
  {
    forall k | i <= k <= j
      ensures Depth(b, i, k) == 0
    {
      DepthFlat(b, i, k);
    }
  }

  /** A nested stretch in parentheses is nested. */
  lemma NestedWrapped(b: string, i: nat, j: nat)
    requires Nested(b, i + 1, j) && j < |b| && b[i] == '(' && b[j] == ')'
    ensures Nested(b, i, j + 1)
  {
    forall k | i <= k <= j + 1
      ensures Depth(b, i, k) >= 0 && (k == j + 1 ==> Depth(b, i, k) == 0)
    {
      if k == j + 1 {
        DepthAdds(b, i + 1, j, k);
        assert Depth(b, j, j + 1) == -1;
      }
    }
  }

  lemma {:induction false} SpaceFlat(b: string, i: nat, k: nat)
    requires i <= k < SkipSpace(b, i) <= |b|
    ensures b[k] != '(' && b[k] != ')'
    decreases |b| - i
  {
    if i < k {
      SpaceFlat(b, i + 1, k);
    }
  }

  lemma SpaceNested(b: string, i: nat)
    requires i <= |b|
    ensures Nested(b, i, SkipSpace(b, i))
  {
    hide SkipSpace, Nested;
    var s := SkipSpace(b, i);
    forall k | i <= k < s
      ensures b[k] != '(' && b[k] != ')'
    {
      SpaceFlat(b, i, k);
    }
    NestedFlat(b, i, s);
  }

  /** A token other than a parenthesis. */
  lemma TokenNested(b: string, i: nat)
    requires i <= |b| && '\0' !in b && GetToken(b, i).kind != '(' && GetToken(b, i).kind != ')'
    ensures Nested(b, i, GetToken(b, i).next)
  {
    hide SkipSpace, WordEnd, Nested;
    var t := GetToken(b, i);
    SpaceNested(b, i);
    NestedFlat(b, t.span.q, t.span.eq);
    SpaceNested(b, t.span.eq);
    NestedAdds(b, i, t.span.q, t.span.eq);
    NestedAdds(b, i, t.span.eq, t.next);
  }

  /** A parenthesis, and the spaces after it. */
  lemma ParenToken(b: string, i: nat)
    requires i < |b| && '\0' !in b && (b[i] == '(' || b[i] == ')')
    ensures Nested(b, i + 1, GetToken(b, i).next)
  {
    hide SkipSpace, WordEnd, Nested;
    SpaceNested(b, i + 1);
  }

  lemma SymbolKind(b: string, s: nat)
    requires s < |b| && '\0' !in b && SkipSpace(b, s) == s
    requires b[s] == '<' || b[s] == '>' || b[s] == '|' || b[s] == '&' || b[s] == ';'
    ensures GetToken(b, s).kind != '(' && GetToken(b, s).kind != ')'
  {
    hide SkipSpace, WordEnd;
  }

  lemma {:induction false} RedirsNested(b: string, i: nat)
    requires i <= |b| && '\0' !in b
    ensures var r := ReadRedirs(b, i); r.Redirs? ==> Nested(b, i, r.next)
    decreases |b| - i
  {
    hide SkipSpace, WordEnd, GetToken, Nested;
    var s := SkipSpace(b, i);
    SpaceNested(b, i);
    if Ch(b, s) == '<' || Ch(b, s) == '>' {
      var tok := GetToken(b, s);
      var f := GetToken(b, tok.next);
      var r := ReadRedirs(b, i);
      if f.kind == 'a' && r.Redirs? {
        SymbolKind(b, s);
        TokenNested(b, s);
        TokenNested(b, tok.next);
        RedirsNested(b, f.next);
        NestedAdds(b, i, s, tok.next);
        NestedAdds(b, i, tok.next, f.next);
        NestedAdds(b, i, f.next, r.next);
      }
    }
  }

  lemma {:induction false} ArgsNested(b: string, i: nat, argv: seq<Span>, rs: seq<(Span, int, int)>)
    requires i <= |b| && '\0' !in b
    ensures var r := ReadArgs(b, i, argv, rs); r.Ok? ==> Nested(b, i, r.next)
    decreases |b| - i
  {
    hide SkipSpace, WordEnd, GetToken, Nested, ReadRedirs, Wrap;
    var s := SkipSpace(b, i);
    SpaceNested(b, i);
    var tok := GetToken(b, s);
    var r := ReadArgs(b, i, argv, rs);
    if !EndsExec(Ch(b, s)) && r.Ok? {
      TokenNested(b, s);
      NestedAdds(b, i, s, tok.next);
      if tok.kind == 'a' {
        var more := ReadRedirs(b, tok.next);
        RedirsNested(b, tok.next);
        ArgsNested(b, more.next, argv + [tok.span], rs + more.rs);
        NestedAdds(b, i, tok.next, more.next);
        NestedAdds(b, i, more.next, r.next);
      }
    }
  }

  lemma {:induction false} BlockNested(b: string, i: nat)
    requires i < |b| && '\0' !in b && b[i] == '('
    ensures var r := ParseBlock(b, i); r.Ok? ==> Nested(b, i, r.next)
    decreases |b| - i, 0
  {
    hide SkipSpace, WordEnd, GetToken, Nested, ReadRedirs, ParseLine;
    var open := GetToken(b, i);
    var r, p := ParseBlock(b, i), ParseLine(b, open.next);
    if r.Ok? {
      var s := SkipSpace(b, p.next);
      var close := GetToken(b, s);
      ParenToken(b, i);
      LineNested(b, open.next);
      SpaceNested(b, p.next);
      NestedAdds(b, i + 1, open.next, p.next);
      NestedAdds(b, i + 1, p.next, s);
      NestedWrapped(b, i, s);
      ParenToken(b, s);
      NestedAdds(b, i, s + 1, close.next);
      RedirsNested(b, close.next);
      NestedAdds(b, i, close.next, r.next);
    }
  }

  lemma {:induction false} ExecNested(b: string, i: nat)
    requires i <= |b| && '\0' !in b
    ensures var r := ParseExec(b, i); r.Ok? ==> Nested(b, i, r.next)
    decreases |b| - i, 1
  {
    hide SkipSpace, WordEnd, GetToken, Nested, ReadRedirs, ReadArgs, ParseBlock;
    var s := SkipSpace(b, i);
    SpaceNested(b, i);
    var r := ParseExec(b, i);
    if r.Ok? {
      if Ch(b, s) == '(' {
        BlockNested(b, s);
      } else {
        RedirsNested(b, s);
        var rs := ReadRedirs(b, s);
        ArgsNested(b, rs.next, [], rs.rs);
        NestedAdds(b, s, rs.next, r.next);
      }
      NestedAdds(b, i, s, r.next);
    }
  }

  /** An operator at `s` between two nested stretches. */
  lemma Joined(b: string, i: nat, k: nat, s: nat, e: nat)
    requires '\0' !in b && s < |b| && SkipSpace(b, s) == s && (b[s] == '|' || b[s] == '&' || b[s] == ';')
    requires Nested(b, i, k) && Nested(b, k, s) && Nested(b, GetToken(b, s).next, e)
    ensures Nested(b, i, e)
  {
    hide SkipSpace, WordEnd, GetToken, Nested;
    SymbolKind(b, s);
    TokenNested(b, s);
    NestedAdds(b, i, k, s);
    NestedAdds(b, i, s, GetToken(b, s).next);
    NestedAdds(b, i, GetToken(b, s).next, e);
  }

  lemma {:induction false} PipeNested(b: string, i: nat)
    requires i <= |b| && '\0' !in b
    ensures var r := ParsePipe(b, i); r.Ok? ==> Nested(b, i, r.next)
    decreases |b| - i, 2
  {
    hide SkipSpace, WordEnd, GetToken, Nested, ParseExec;
    ExecNested(b, i);
    var p, r := ParseExec(b, i), ParsePipe(b, i);
    if r.Ok? {
      var s := SkipSpace(b, p.next);
      SpaceNested(b, p.next);
      if Ch(b, s) == '|' {
        PipeNested(b, GetToken(b, s).next);
        Joined(b, i, p.next, s, r.next);
      } else {
        NestedAdds(b, i, p.next, s);
      }
    }
  }

  lemma {:induction false} BacksNested(b: string, i: nat, cmd: Cmd)
    requires i <= |b| && '\0' !in b
    ensures Nested(b, i, ReadBacks(b, i, cmd).1)
    decreases |b| - i
  {
    hide SkipSpace, WordEnd, GetToken, Nested;
    var s := SkipSpace(b, i);
    SpaceNested(b, i);
    if Ch(b, s) == '&' {
      BacksNested(b, GetToken(b, s).next, Back(cmd));
      NestedFlat(b, i, i);
      Joined(b, i, i, s, ReadBacks(b, i, cmd).1);
    }
  }

  lemma {:induction false} LineNested(b: string, i: nat)
    requires i <= |b| && '\0' !in b
    ensures var r := ParseLine(b, i); r.Ok? ==> Nested(b, i, r.next)
    decreases |b| - i, 3
  {
    hide SkipSpace, WordEnd, GetToken, Nested, ParsePipe, ReadBacks;
    PipeNested(b, i);
    var p, r := ParsePipe(b, i), ParseLine(b, i);
    if r.Ok? {
      var s := ReadBacks(b, p.next, p.cmd).1;
      BacksNested(b, p.next, p.cmd);
      if Ch(b, s) == ';' {
        LineNested(b, GetToken(b, s).next);
        Joined(b, i, p.next, s, r.next);
      } else {
        NestedAdds(b, i, p.next, s);
      }
    }
  }

  /** No part of an accepted line closes more than it has opened, and the whole closes all. */
  lemma AcceptedIsNested(b: string)
    requires '\0' !in b && ParseCmd(b).Ok?
    ensures Depth(b, 0, |b|) == 0 && forall k :: 0 <= k <= |b| ==> Depth(b, 0, k) >= 0
  {
    hide SkipSpace, WordEnd, GetToken, ParseLine;
    LineNested(b, 0);
    var n := ParseLine(b, 0).next;
    SpaceNested(b, n);
    NestedAdds(b, 0, n, |b|);
  }
}

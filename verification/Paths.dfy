/**
 Path names (fs.c): their elements, and the routine that peels them off one at a time.

 A path is a C string without its NUL. An element longer than DIRSIZ characters is cut
 to its first DIRSIZ, as the fixed-size name buffer does.
 */
module Paths {
  import opened Common

  /** How many characters come before the first slash. */
  function ElemLen(p: string): (n: nat)
    ensures n <= |p| && (n < |p| ==> p[n] == '/') && forall j :: 0 <= j < n ==> p[j] != '/'
  {
    if p == "" || p[0] == '/' then 0 else 1 + ElemLen(p[1..])
  }

  function Cut(s: string): string {
    if |s| >= DIRSIZ then s[..DIRSIZ] else s
  }

  /** The elements of a path: what lies between slashes, empty pieces left out. */
  function Elements(p: string): seq<string>
    decreases |p|
  {
    if p == "" then []
    else if p[0] == '/' then Elements(p[1..])
    else [Cut(p[..ElemLen(p)])] + Elements(p[ElemLen(p)..])
  }

  /** A name as a directory entry can hold it. */
  predicate IsName(s: string) {
    0 < |s| <= DIRSIZ && '/' !in s && '\0' !in s
  }

  // ---- skipelem ----

  lemma {:induction false} SlashesSkipped(p: string, k: nat)
    requires k <= |p| && forall j :: 0 <= j < k ==> p[j] == '/'
    ensures Elements(p) == Elements(p[k..])
    decreases k
  {
    if k > 0 {
      SlashesSkipped(p[1..], k - 1);
      assert p[1..][k - 1..] == p[k..];
    } else {
      assert p[0..] == p;
    }
  }

  lemma ElemLenIs(p: string, n: nat)
    requires n <= |p| && (n < |p| ==> p[n] == '/') && forall j :: 0 <= j < n ==> p[j] != '/'
    ensures ElemLen(p) == n
  {
  }

  lemma NoElements(p: string)
    requires forall j :: 0 <= j < |p| ==> p[j] == '/'
    ensures Elements(p) == []
  {
    SlashesSkipped(p, |p|);
    assert p[|p|..] == "";
  }

  lemma CutIs(p: string, s: nat, e: nat)
    requires s <= e <= |p|
    ensures Cut(p[s..e]) == if e - s >= DIRSIZ then p[s..s + DIRSIZ] else p[s..e]
  {
  }

  /** Slashes up to `s`, an element up to `e`, slashes up to `i`. */
  lemma FirstElement(p: string, s: nat, e: nat, i: nat)
    requires s < e <= i <= |p| && (forall j :: 0 <= j < s ==> p[j] == '/')
    requires (forall j :: s <= j < e ==> p[j] != '/') && (forall j :: e <= j < i ==> p[j] == '/')
    requires (e < |p| ==> p[e] == '/') && (i < |p| ==> p[i] != '/')
    ensures Elements(p) == [Cut(p[s..e])] + Elements(p[i..])
    ensures p[i..] == "" <==> Elements(p[i..]) == []
  {
    hide Elements, ElemLen, Cut;
    assert p[0..] == p;
    SlashesFrom(p, 0, s);
    ElementFrom(p, s, e);
    SlashesFrom(p, e, i);
    SomeElement(p[i..]);
  }

  lemma SlashesFrom(p: string, s: nat, e: nat)
    requires s <= e <= |p| && forall j :: s <= j < e ==> p[j] == '/'
    ensures Elements(p[s..]) == Elements(p[e..])
  {
    hide Elements;
    SlashesSkipped(p[s..], e - s);
    assert p[s..][e - s..] == p[e..];
  }

  lemma ElementFrom(p: string, s: nat, e: nat)
    requires s < e <= |p| && (forall j :: s <= j < e ==> p[j] != '/') && (e < |p| ==> p[e] == '/')
    ensures Elements(p[s..]) == [Cut(p[s..e])] + Elements(p[e..])
  {
    hide Cut;
    var q := p[s..];
    ElemLenIs(q, e - s);
    assert q[..e - s] == p[s..e] && q[e - s..] == p[e..];
  }

  lemma SomeElement(p: string)
    requires p != "" ==> p[0] != '/'
    ensures p == "" <==> Elements(p) == []
  {
  }

  /** The first element of a path and the rest of the path, which starts with no slash. */
  method SkipElem(path: string) returns (r: Option<(string, string)>)
    ensures r == None <==> Elements(path) == []
    ensures r.Some? ==>
              var (rest, name) := r.value;
              && Elements(path) == [name] + Elements(rest) && |rest| < |path|
              && (rest != "" ==> rest[0] != '/')
              && (rest == "" <==> Elements(rest) == [])
  {
    hide Elements, ElemLen, Cut;
    var i := 0;
    while i < |path| && path[i] == '/'
      invariant 0 <= i <= |path| && forall j :: 0 <= j < i ==> path[j] == '/'
    {
      i := i + 1;
    }
    if i == |path| {
      NoElements(path);
      return None;
    }
    var s := i;
    while i < |path| && path[i] != '/'
      invariant s <= i <= |path| && forall j :: s <= j < i ==> path[j] != '/'
    {
      i := i + 1;
    }
    var e := i;
    var name := if e - s >= DIRSIZ then path[s..s + DIRSIZ] else path[s..e];
    CutIs(path, s, e);
    while i < |path| && path[i] == '/'
      invariant e <= i <= |path| && forall j :: e <= j < i ==> path[j] == '/'
    {
      i := i + 1;
    }
    FirstElement(path, s, e, i);
    r := Some((path[i..], name));
  }

  // ---- what the elements are ----

  /** Elements written with any positive number of slashes before each. */
  function Written(names: seq<string>, slashes: seq<nat>, tail: nat): string
    requires |slashes| == |names|
  {
    if names == [] then seq(tail, _ => '/')
    else seq(slashes[0], _ => '/') + (names[0] + Written(names[1..], slashes[1..], tail))
  }

  /** What may stand between slashes: anything but nothing and slashes. */
  predicate IsPiece(s: string) {
    s != "" && '/' !in s
  }

  lemma StartsWithSlash(pieces: seq<string>, slashes: seq<nat>, tail: nat)
    requires |slashes| == |pieces| && forall k :: 0 <= k < |pieces| ==> IsPiece(pieces[k])
    requires pieces != [] ==> slashes[0] > 0
    ensures var w := Written(pieces, slashes, tail); w != "" ==> w[0] == '/'
  {
  }

  /** However many slashes separate and surround them, the pieces come back, each cut to 14 characters. */
  lemma {:induction false} ElementsOfPieces(pieces: seq<string>, slashes: seq<nat>, tail: nat)
    requires |slashes| == |pieces| && forall k :: 0 <= k < |pieces| ==> IsPiece(pieces[k])
    requires forall k :: 1 <= k < |slashes| ==> slashes[k] > 0
    ensures var elems := Elements(Written(pieces, slashes, tail));
            && |elems| == |pieces|
            && forall k :: 0 <= k < |pieces| ==>
                 elems[k] == if |pieces[k]| <= DIRSIZ then pieces[k] else pieces[k][..DIRSIZ]
    decreases |pieces|
  {
    hide Elements;
    if pieces == [] {
      NoElements(Written(pieces, slashes, tail));
    } else {
      FirstPiece(pieces, slashes, tail);
      ElementsOfPieces(pieces[1..], slashes[1..], tail);
    }
  }

  lemma FirstPiece(pieces: seq<string>, slashes: seq<nat>, tail: nat)
    requires |slashes| == |pieces| > 0 && forall k :: 0 <= k < |pieces| ==> IsPiece(pieces[k])
    requires forall k :: 1 <= k < |slashes| ==> slashes[k] > 0
    ensures Elements(Written(pieces, slashes, tail)) ==
            [Cut(pieces[0])] + Elements(Written(pieces[1..], slashes[1..], tail))
  {
    hide Elements, Cut;
    var w, s, n := Written(pieces, slashes, tail), slashes[0], pieces[0];
    var rest := Written(pieces[1..], slashes[1..], tail);
    StartsWithSlash(pieces[1..], slashes[1..], tail);
    assert w[0..] == w && w[s..s + |n|] == n && w[s + |n|..] == rest;
    assert forall j :: s <= j < s + |n| ==> w[j] == n[j - s];
    SlashesFrom(w, 0, s);
    ElementFrom(w, s, s + |n|);
  }

  /** Names come back as they are. */
  lemma ElementsOfWritten(names: seq<string>, slashes: seq<nat>, tail: nat)
    requires |slashes| == |names| && forall k :: 0 <= k < |names| ==> IsName(names[k])
    requires forall k :: 1 <= k < |slashes| ==> slashes[k] > 0
    ensures Elements(Written(names, slashes, tail)) == names
  {
    hide Elements, Written;
    ElementsOfPieces(names, slashes, tail);
  }

  /** Every path is some pieces written with slashes. */
  lemma {:induction false} EveryPathIsWritten(p: string) returns (pieces: seq<string>, slashes: seq<nat>, tail: nat)
    ensures |slashes| == |pieces| && forall k :: 0 <= k < |pieces| ==> IsPiece(pieces[k])
    ensures forall k :: 1 <= k < |slashes| ==> slashes[k] > 0
    ensures Written(pieces, slashes, tail) == p
    decreases |p|
  {
    if p == "" {
      pieces, slashes, tail := [], [], 0;
    } else if p[0] == '/' {
      pieces, slashes, tail := EveryPathIsWritten(p[1..]);
      OneMoreSlash(pieces, slashes, tail);
      if pieces == [] {
        tail := tail + 1;
      } else {
        slashes := slashes[0 := slashes[0] + 1];
      }
    } else {
      var e := ElemLen(p);
      var q, r, t := EveryPathIsWritten(p[e..]);
      pieces, slashes, tail := [p[..e]] + q, [0] + r, t;
      assert pieces[1..] == q && slashes[1..] == r;
    }
  }

  lemma OneMoreSlash(pieces: seq<string>, slashes: seq<nat>, tail: nat)
    requires |slashes| == |pieces|
    ensures ['/'] + Written(pieces, slashes, tail) ==
            if pieces == [] then Written(pieces, slashes, tail + 1)
            else Written(pieces, slashes[0 := slashes[0] + 1], tail)
  {
    if pieces != [] {
      assert slashes[0 := slashes[0] + 1][1..] == slashes[1..];
    }
  }

  /** And nothing else is ever an element. */
  lemma {:induction false} ElementsAreNames(p: string, k: nat)
    requires '\0' !in p && k < |Elements(p)|
    ensures IsName(Elements(p)[k])
    decreases |p|
  {
    if p[0] == '/' {
      ElementsAreNames(p[1..], k);
    } else {
      var n := ElemLen(p);
      assert n > 0;
      if k > 0 {
        ElementsAreNames(p[n..], k - 1);
      }
    }
  }
}

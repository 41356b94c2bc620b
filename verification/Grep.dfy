/**
 The regular expression matcher of grep (grep.c): `^` and `$` at the ends, `.` and `*`.

 Texts and patterns are C strings, given without their terminating NUL.
 */
module Grep {

  /** The `k`th character of a C string, NUL at its end. */
  function At(s: string, k: nat): char {
    if k < |s| then s[k] else '\0'
  }

  ghost predicate CString(s: string) {
    '\0' !in s
  }

  // ---- what a pattern means ----

  /** A pattern is a sequence of pieces: one character, or a starred character; it may be anchored at the end. */
  datatype Piece = One(c: char) | Star(c: char)

  datatype Pattern = Pattern(pieces: seq<Piece>, anchored: bool)

  /** A star binds only to a character before it; `$` anchors only as the very last character. */
  function Parse(re: string): Pattern {
    if re == "" then Pattern([], false)
    else if At(re, 1) == '*' then
      var p := Parse(re[2..]);
      p.(pieces := [Star(re[0])] + p.pieces)
    else if re == "$" then Pattern([], true)
    else
      var p := Parse(re[1..]);
      p.(pieces := [One(re[0])] + p.pieces)
  }

  /** A piece as it is written. */
  function Text(p: Piece): string {
    match p
    case One(c) => [c]
    case Star(c) => [c, '*']
  }

  /** A pattern as it is written: its pieces, and a `$` behind if it is anchored. */
  function Write(p: Pattern): string
    decreases |p.pieces|
  {
    if p.pieces == [] then (if p.anchored then "$" else "")
    else Text(p.pieces[0]) + Write(p.(pieces := p.pieces[1..]))
  }

  /** The patterns that can be written: a single character is not followed by a star, which would bind to it, and a last
      `$` would be an anchor. */
  predicate Writable(p: Pattern) {
    && (forall i :: 0 <= i < |p.pieces| - 1 && p.pieces[i].One? ==> p.pieces[i + 1].c != '*')
    && (p.pieces != [] && !p.anchored ==> p.pieces[|p.pieces| - 1] != One('$'))
  }

  /** Every text is a written pattern, the one that it is read as. */
  lemma {:induction false} WrittenBack(re: string)
    ensures Write(Parse(re)) == re && Writable(Parse(re))
    decreases |re|
  {
    if re != "" && re != "$" {
      var n := if At(re, 1) == '*' then 2 else 1;
      WrittenBack(re[n..]);
      var first, rest := if n == 2 then Star(re[0]) else One(re[0]), Parse(re[n..]);
      assert re == Text(first) + re[n..];
      WriteFirst(first, rest);
    }
  }

  /** A piece written before others. */
  lemma WriteFirst(first: Piece, rest: Pattern)
    ensures var p := rest.(pieces := [first] + rest.pieces);
            && Write(p) == Text(first) + Write(rest)
            && ((&& Writable(rest) && (first.One? ==> At(Write(rest), 0) != '*')
                 && (first == One('$') ==> rest.pieces != [] || rest.anchored)) ==> Writable(p))
  {
    var p := rest.(pieces := [first] + rest.pieces);
    assert p.pieces[1..] == rest.pieces;
    if rest.pieces != [] {
      assert Write(rest)[0] == rest.pieces[0].c;
      assert p.pieces[|p.pieces| - 1] == rest.pieces[|rest.pieces| - 1];
    }
  }

  /** A pattern that can be written is read back; in particular `$` elsewhere than at the end, `$*`, and a `*` at the
      beginning or after a starred character are characters. */
  lemma {:induction false} ReadBack(p: Pattern)
    requires Writable(p)
    ensures Parse(Write(p)) == p
    decreases |p.pieces|
  {
    if p.pieces != [] {
      var first, rest := p.pieces[0], p.(pieces := p.pieces[1..]);
      var n := |Text(first)|;
      ReadBack(rest);
      assert Write(p)[n..] == Write(rest) && [first] + rest.pieces == p.pieces;
      if rest.pieces != [] {
        assert Write(rest)[0] == rest.pieces[0].c;
      }
    }
  }

  /** Character `x` is an instance of pattern character `c`. */
  predicate Fits(c: char, x: char) {
    c == '.' || c == x
  }

  /** Word `w` is an instance of a piece. */
  ghost predicate Accepts(p: Piece, w: string) {
    match p
    case One(c) => |w| == 1 && Fits(c, w[0])
    case Star(c) => forall k :: 0 <= k < |w| ==> Fits(c, w[k])
  }

  function Concat(ws: seq<string>): string {
    if ws == [] then "" else ws[0] + Concat(ws[1..])
  }

  /** `w` can be cut into words, one for each piece and an instance of it. */
  ghost predicate InLanguage(ps: seq<Piece>, w: string) {
    exists ws: seq<string> :: Splits(ps, w, ws)
  }

  ghost predicate Splits(ps: seq<Piece>, w: string, ws: seq<string>) {
    |ws| == |ps| && Concat(ws) == w && forall i :: 0 <= i < |ps| ==> Accepts(ps[i], ws[i])
  }

  /** Some prefix of `text` is in the language, and is all of it when the pattern is anchored. */
  ghost predicate MatchesHere(p: Pattern, text: string) {
    exists n: nat :: n <= |text| && InLanguage(p.pieces, text[..n]) && (p.anchored ==> n == |text|)
  }

  /** Some substring of `text` is in the language; it starts the text after a leading `^`. */
  ghost predicate Matches(re: string, text: string) {
    if At(re, 0) == '^' then MatchesHere(Parse(re[1..]), text)
    else exists i: nat :: i <= |text| && MatchesHere(Parse(re), text[i..])
  }

  // ---- taking a pattern apart ----

  lemma LanguageNil(w: string)
    ensures InLanguage([], w) <==> w == ""
  {
    assert Concat([]) == "";
    if w == "" {
      assert Splits([], w, []);
    }
  }

  lemma LanguageCons(p: Piece, ps: seq<Piece>, w: string)
    ensures InLanguage([p] + ps, w) <==>
            exists k: nat :: k <= |w| && Accepts(p, w[..k]) && InLanguage(ps, w[k..])
  {
    var all := [p] + ps;
    if InLanguage(all, w) {
      var ws :| Splits(all, w, ws);
      var k := |ws[0]|;
      assert w[..k] == ws[0] && w[k..] == Concat(ws[1..]);
      assert Accepts(all[0], ws[0]);
      forall i | 0 <= i < |ps|
        ensures Accepts(ps[i], ws[1..][i])
      {
        assert all[i + 1] == ps[i];
      }
      assert Splits(ps, w[k..], ws[1..]);
    }
    if k: nat :| k <= |w| && Accepts(p, w[..k]) && InLanguage(ps, w[k..]) {
      var vs :| Splits(ps, w[k..], vs);
      var ws := [w[..k]] + vs;
      assert ws[1..] == vs && w[..k] + w[k..] == w;
      assert Splits(all, w, ws);
    }
  }

  lemma SliceTwice(s: string, k: nat, n: nat)
    requires k <= n <= |s|
    ensures s[..n][..k] == s[..k] && s[..n][k..] == s[k..][..n - k]
  {
  }

  /** A pattern matches here when a word for its first piece does, and the rest matches after it. */
  lemma MatchesCons(p: Piece, ps: seq<Piece>, anchored: bool, text: string)
    ensures MatchesHere(Pattern([p] + ps, anchored), text) <==>
            exists k: nat :: k <= |text| && Accepts(p, text[..k]) && MatchesHere(Pattern(ps, anchored), text[k..])
  {
    var all, rest := Pattern([p] + ps, anchored), Pattern(ps, anchored);
    if MatchesHere(all, text) {
      var n: nat :| n <= |text| && InLanguage(all.pieces, text[..n]) && (anchored ==> n == |text|);
      LanguageCons(p, ps, text[..n]);
      var k: nat :| k <= n && Accepts(p, text[..n][..k]) && InLanguage(ps, text[..n][k..]);
      SliceTwice(text, k, n);
      assert MatchesHere(rest, text[k..]);
    }
    if k: nat :| k <= |text| && Accepts(p, text[..k]) && MatchesHere(rest, text[k..]) {
      var m: nat :| m <= |text[k..]| && InLanguage(ps, text[k..][..m]) && (anchored ==> m == |text[k..]|);
      SliceTwice(text, k, k + m);
      LanguageCons(p, ps, text[..k + m]);
      assert MatchesHere(all, text);
    }
  }

  lemma MatchesNil(anchored: bool, text: string)
    ensures MatchesHere(Pattern([], anchored), text) <==> !anchored || text == ""
  {
    LanguageNil(text[..0]);
    LanguageNil(text[..|text|]);
    assert text[..|text|] == text;
  }

  lemma MatchesOne(c: char, ps: seq<Piece>, anchored: bool, text: string)
    ensures MatchesHere(Pattern([One(c)] + ps, anchored), text) <==>
            text != "" && Fits(c, text[0]) && MatchesHere(Pattern(ps, anchored), text[1..])
  {
    MatchesCons(One(c), ps, anchored, text);
    if text != "" && Fits(c, text[0]) {
      assert Accepts(One(c), text[..1]);
    }
  }

  lemma DropFirst(s: string, k: nat)
    requires 0 < k <= |s|
    ensures s[1..][..k - 1] == s[..k][1..] && s[1..][k - 1..] == s[k..]
  {
  }

  /** A starred character takes nothing, or one instance and the star again. */
  lemma MatchesStarStep(c: char, ps: seq<Piece>, anchored: bool, text: string)
    ensures MatchesHere(Pattern([Star(c)] + ps, anchored), text) <==>
            || MatchesHere(Pattern(ps, anchored), text)
            || (text != "" && Fits(c, text[0]) && MatchesHere(Pattern([Star(c)] + ps, anchored), text[1..]))
  {
    hide MatchesHere, Accepts, Fits;
    var rest := Pattern(ps, anchored);
    MatchesCons(Star(c), ps, anchored, text);
    StarAccepts(c, text, 0);
    assert text[0..] == text;
    if text != "" {
      MatchesCons(Star(c), ps, anchored, text[1..]);
      forall k: nat | 0 < k <= |text|
        ensures Accepts(Star(c), text[..k]) <==> Fits(c, text[0]) && Accepts(Star(c), text[1..][..k - 1])
        ensures text[1..][k - 1..] == text[k..]
      {
        StarAccepts(c, text, k);
        DropFirst(text, k);
      }
      if k: nat :| k <= |text| && Accepts(Star(c), text[..k]) && MatchesHere(rest, text[k..]) && k > 0 {
        assert Accepts(Star(c), text[1..][..k - 1]) && MatchesHere(rest, text[1..][k - 1..]);
      }
      if k: nat :| Fits(c, text[0]) && k <= |text[1..]| && Accepts(Star(c), text[1..][..k]) &&
                   MatchesHere(rest, text[1..][k..]) {
        assert text[1..][k + 1 - 1..] == text[k + 1..];
        assert Accepts(Star(c), text[..k + 1]) && MatchesHere(rest, text[k + 1..]);
      }
    }
  }

  lemma StarAccepts(c: char, text: string, k: nat)
    requires k <= |text|
    ensures k == 0 ==> Accepts(Star(c), text[..k])
    ensures k > 0 ==> (Accepts(Star(c), text[..k]) <==> Fits(c, text[0]) && Accepts(Star(c), text[1..][..k - 1]))
  {
    if k > 0 {
      var w, v := text[..k], text[1..][..k - 1];
      assert w[0] == text[0] && forall j :: 0 <= j < |v| ==> v[j] == w[j + 1];
      assert forall j :: 1 <= j < |w| ==> w[j] == v[j - 1];
    }
  }

  // ---- the matcher ----

  /** Search for `re` at the beginning of `text`. */
  method MatchHere(re: string, text: string) returns (r: bool)
    requires CString(re) && CString(text)
    ensures r <==> MatchesHere(Parse(re), text)
    decreases |re|, 0
  {
    if At(re, 0) == '\0' {
      MatchesNil(false, text);
      return true;
    }
    if At(re, 1) == '*' {
      r := MatchStar(re[0], re[2..], text);
      return;
    }
    if At(re, 0) == '$' && At(re, 1) == '\0' {
      assert re == "$";
      MatchesNil(true, text);
      return At(text, 0) == '\0';
    }
    var p := Parse(re[1..]);
    MatchesOne(re[0], p.pieces, p.anchored, text);
    if At(text, 0) != '\0' && (re[0] == '.' || re[0] == At(text, 0)) {
      r := MatchHere(re[1..], text[1..]);
      return;
    }
    r := false;
  }

  /** Search for `c*` followed by `re` at the beginning of `text`. */
  method MatchStar(c: char, re: string, text: string) returns (r: bool)
    requires CString(re) && CString(text)
    ensures r <==> MatchesHere(Pattern([Star(c)] + Parse(re).pieces, Parse(re).anchored), text)
    decreases |re|, 1
  {
    var p := Parse(re);
    var i := 0;
    assert text[0..] == text;
    while true
      invariant 0 <= i <= |text|
      invariant MatchesHere(Pattern([Star(c)] + p.pieces, p.anchored), text) <==>
                MatchesHere(Pattern([Star(c)] + p.pieces, p.anchored), text[i..])
      decreases |text| - i
    {
      MatchesStarStep(c, p.pieces, p.anchored, text[i..]);
      r := MatchHere(re, text[i..]);
      if r {
        return;
      }
      if !(At(text, i) != '\0' && (At(text, i) == c || c == '.')) {
        return false;
      }
      assert text[i..][1..] == text[i + 1..];
      i := i + 1;
    }
  }

  /** Search for `re` anywhere in `text`. */
  method Match(re: string, text: string) returns (r: bool)
    requires CString(re) && CString(text)
    ensures r <==> Matches(re, text)
  {
    if At(re, 0) == '^' {
      r := MatchHere(re[1..], text);
      return;
    }
    var i := 0;
    while true
      invariant 0 <= i <= |text|
      invariant forall k: nat :: k < i ==> !MatchesHere(Parse(re), text[k..])
      decreases |text| - i
    {
      r := MatchHere(re, text[i..]);
      if r {
        return;
      }
      if At(text, i) == '\0' {
        return false;
      }
      i := i + 1;
    }
  }
}

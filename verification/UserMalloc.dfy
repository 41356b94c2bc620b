/**
 The user-level allocator (umalloc.c): a circular list of free blocks in address
 order, with neighbours coalesced.

 Addresses and sizes are in units of one header (8 bytes).  `nodes` (ghost) lists
 the circular list from `base`; `free` and `live` (ghost) map the start of each
 free and allocated block to its size; `units` (ghost) is what `sbrk` has given.
 */
module UserMalloc {
  import opened Common

  const UNIT: nat := 8
  const CHUNK: nat := 4096

  datatype Header = Header(ptr: nat, size: nat)

  // ---- blocks ----

  /** Unit `u` lies in a block of `m`. */
  ghost predicate Covers(m: map<nat, nat>, u: nat) {
    exists a :: a in m && a <= u < a + m[a]
  }

  lemma InBlock(m: map<nat, nat>, a: nat, u: nat)
    requires a in m && a <= u < a + m[a]
    ensures Covers(m, u)
  {
  }

  lemma BlockOf(m: map<nat, nat>, u: nat) returns (a: nat)
    requires Covers(m, u)
    ensures a in m && a <= u < a + m[a]
  {
    a :| a in m && a <= u < a + m[a];
  }

  /** Blocks are not empty, lie above `base` and are `gap` or more apart. */
  ghost predicate Apart(m: map<nat, nat>, base: nat, gap: nat) {
    && (forall a :: a in m ==> m[a] > 0 && a > base)
    && (forall a, b :: a in m && b in m && a < b ==> a + m[a] + gap <= b)
  }

  ghost predicate Separate(m: map<nat, nat>, n: map<nat, nat>) {
    forall a, b :: a in m && b in n ==> a + m[a] <= b || b + n[b] <= a
  }

  /** Free and allocated blocks are disjoint, free ones are never adjacent, and together they are the units obtained. */
  ghost predicate Blocks(free: map<nat, nat>, live: map<nat, nat>, units: set<nat>, base: nat) {
    && Apart(free, base, 1) && Apart(live, base, 0) && Separate(free, live)
    && forall u: nat :: u in units <==> Covers(free, u) || Covers(live, u)
  }

  /** The free map after giving back `n` units at `a`, where `p` is the header before it in the list. */
  ghost function Returned(free: map<nat, nat>, a: nat, n: nat, p: nat): map<nat, nat> {
    var right := if a + n in free then free[a + n] else 0;
    var rest := free - {a + n};
    if p in free && p + free[p] == a then rest[p := free[p] + n + right] else rest[a := n + right]
  }

  /** `p` is the last of `base` and the free blocks to start before `a`. */
  ghost predicate Before(free: map<nat, nat>, base: nat, p: nat, a: nat) {
    && p < a && (p == base || p in free)
    && forall b :: b in free && b < a ==> b <= p
  }

  /** The coalesced block spans the left neighbour if adjacent, the block itself and the right neighbour if adjacent. */
  lemma ReturnedShape(free: map<nat, nat>, live: map<nat, nat>, base: nat, a: nat, p: nat)
    returns (start: nat, end: nat)
    requires Apart(free, base, 1) && Apart(live, base, 0) && Separate(free, live)
    requires a in live && Before(free, base, p, a)
    ensures start == if p in free && p + free[p] == a then p else a
    ensures end == a + live[a] + if a + live[a] in free then free[a + live[a]] else 0
    ensures base < start <= a && a + live[a] <= end && a !in free
    ensures var f := Returned(free, a, live[a], p);
            && start in f && f[start] == end - start
            && (forall b :: b in f && b != start ==> b in free && f[b] == free[b] && b != a + live[a])
            && (forall b :: b in free && b != start && b != a + live[a] ==> b in f)
            && (forall b :: b in f && b < start ==> b + f[b] < start)
            && (forall b :: b in f && start < b ==> end < b)
  {
    assert a !in free;
    start := if p in free && p + free[p] == a then p else a;
    end := a + live[a] + if a + live[a] in free then free[a + live[a]] else 0;
    var f := Returned(free, a, live[a], p);
    forall b | b in free && b < a
      ensures b <= p && b + free[b] <= a && (b < p ==> b + free[b] < p) && (b + free[b] == a ==> b == p)
    {
    }
    forall b | b in free && b > a
      ensures a + live[a] <= b
    {
    }
  }

  /** Giving back an allocated block keeps the heap in order: nothing overlaps, nothing adjacent stays apart, no
      unit is lost. */
  lemma GiveBack(free: map<nat, nat>, live: map<nat, nat>, units: set<nat>, base: nat, a: nat, p: nat)
    requires Blocks(free, live, units, base) && a in live && Before(free, base, p, a)
    ensures Blocks(Returned(free, a, live[a], p), live - {a}, units, base)
  {
    hide Covers, Before;
    GiveBackApart(free, live, base, a, p);
    forall u: nat
      ensures Covers(Returned(free, a, live[a], p), u) || Covers(live - {a}, u) <==> Covers(free, u) || Covers(live, u)
    {
      GiveBackCovers(free, live, base, a, p, u);
    }
  }

  lemma GiveBackApart(free: map<nat, nat>, live: map<nat, nat>, base: nat, a: nat, p: nat)
    requires Apart(free, base, 1) && Apart(live, base, 0) && Separate(free, live)
    requires a in live && Before(free, base, p, a)
    ensures var f, l := Returned(free, a, live[a], p), live - {a};
            Apart(f, base, 1) && Apart(l, base, 0) && Separate(f, l)
  {
    hide Returned, Before;
    var f, l := Returned(free, a, live[a], p), live - {a};
    var start, end := ReturnedShape(free, live, base, a, p);
    forall b, c | b in f && c in f && b < c
      ensures b + f[b] + 1 <= c
    {
    }
    forall b | b in l
      ensures end <= b || b + l[b] <= start
    {
      assert b < a ==> b + live[b] <= a;
      assert b > a ==> a + live[a] <= b;
    }
  }

  lemma GiveBackCovers(free: map<nat, nat>, live: map<nat, nat>, base: nat, a: nat, p: nat, u: nat)
    requires Apart(free, base, 1) && Apart(live, base, 0) && Separate(free, live)
    requires a in live && Before(free, base, p, a)
    ensures var f, l := Returned(free, a, live[a], p), live - {a};
            Covers(f, u) || Covers(l, u) <==> Covers(free, u) || Covers(live, u)
  {
    hide Returned, Before, Separate, Apart, Covers;
    var n := live[a];
    var f, l := Returned(free, a, n, p), live - {a};
    var start, end := ReturnedShape(free, live, base, a, p);
    if Covers(f, u) {
      var b := BlockOf(f, u);
      if b != start {
        InBlock(free, b, u);
      } else if u < a {
        InBlock(free, p, u);
      } else if u < a + n {
        InBlock(live, a, u);
      } else {
        InBlock(free, a + n, u);
      }
    }
    if Covers(l, u) {
      var b := BlockOf(l, u);
      InBlock(live, b, u);
    }
    if Covers(free, u) {
      var b := BlockOf(free, u);
      InBlock(f, if b == a + n then start else b, u);
    }
    if Covers(live, u) {
      var b := BlockOf(live, u);
      if b == a {
        InBlock(f, start, u);
      } else {
        InBlock(l, b, u);
      }
    }
  }

  /** The heap after carving `n` units off the end of free block `p`, or taking it whole. */
  ghost function Carved(free: map<nat, nat>, p: nat, n: nat): map<nat, nat>
    requires p in free && n <= free[p]
  {
    if free[p] == n then free - {p} else free[p := free[p] - n]
  }

  lemma TakeTail(free: map<nat, nat>, live: map<nat, nat>, units: set<nat>, base: nat, p: nat, n: nat)
    requires Blocks(free, live, units, base) && p in free && 0 < n <= free[p]
    ensures Blocks(Carved(free, p, n), live[p + free[p] - n := n], units, base)
    ensures p + free[p] - n !in live
  {
    hide Covers;
    TakeTailApart(free, live, base, p, n);
    forall u: nat
      ensures Covers(Carved(free, p, n), u) || Covers(live[p + free[p] - n := n], u) <==>
                Covers(free, u) || Covers(live, u)
    {
      TakeTailCovers(free, live, base, p, n, u);
    }
  }

  lemma TakeTailApart(free: map<nat, nat>, live: map<nat, nat>, base: nat, p: nat, n: nat)
    requires Apart(free, base, 1) && Apart(live, base, 0) && Separate(free, live)
    requires p in free && 0 < n <= free[p]
    ensures var f, l := Carved(free, p, n), live[p + free[p] - n := n];
            Apart(f, base, 1) && Apart(l, base, 0) && Separate(f, l)
    ensures p + free[p] - n !in live
  {
    var a: nat := p + free[p] - n;
    var f, l := Carved(free, p, n), live[a := n];
    forall b | b in live
      ensures b != a && (b + live[b] <= p || a + n <= b)
    {
    }
    forall b | b in f
      ensures b in free && (b + f[b] <= a || a + n <= b) && b + f[b] <= b + free[b]
    {
    }
  }

  lemma TakeTailCovers(free: map<nat, nat>, live: map<nat, nat>, base: nat, p: nat, n: nat, u: nat)
    requires Apart(free, base, 1) && Separate(free, live)
    requires p in free && 0 < n <= free[p] && p + free[p] - n !in live
    ensures Covers(Carved(free, p, n), u) || Covers(live[p + free[p] - n := n], u) <==>
              Covers(free, u) || Covers(live, u)
  {
    hide Apart, Separate, Covers;
    var a: nat := p + free[p] - n;
    var f, l := Carved(free, p, n), live[a := n];
    assert a in l && l[a] == n;
    assert forall b :: b in live ==> b in l && l[b] == live[b];
    if Covers(f, u) {
      var b := BlockOf(f, u);
      InBlock(free, b, u);
    }
    if Covers(l, u) {
      var b := BlockOf(l, u);
      if b == a {
        InBlock(free, p, u);
      } else {
        InBlock(live, b, u);
      }
    }
    if Covers(free, u) {
      var b := BlockOf(free, u);
      if b == p && a <= u {
        InBlock(l, a, u);
      } else {
        InBlock(f, b, u);
      }
    }
    if Covers(live, u) {
      var b := BlockOf(live, u);
      InBlock(l, b, u);
    }
  }

  /** The units `a..a+n`. */
  ghost function Span(a: nat, n: nat): (s: set<nat>)
    ensures forall u: nat :: u in s <==> a <= u < a + n
    decreases n
  {
    if n == 0 then {} else Span(a, n - 1) + {a + n - 1}
  }

  /** New memory counts as allocated until it is given to the list. */
  lemma Obtain(free: map<nat, nat>, live: map<nat, nat>, units: set<nat>, base: nat, a: nat, n: nat)
    requires Blocks(free, live, units, base) && n > 0 && a > base && Span(a, n) !! units
    ensures a !in live
    ensures Blocks(free, live[a := n], units + Span(a, n), base)
  {
    hide Covers, Span;
    ClearOf(free, units, a, n);
    ClearOf(live, units, a, n);
    forall u: nat
      ensures Covers(live[a := n], u) <==> Covers(live, u) || a <= u < a + n
    {
      ObtainCovers(live, a, n, u);
    }
  }

  lemma ObtainCovers(live: map<nat, nat>, a: nat, n: nat, u: nat)
    requires a !in live
    ensures Covers(live[a := n], u) <==> Covers(live, u) || a <= u < a + n
  {
    var l := live[a := n];
    if Covers(live, u) {
      var b := BlockOf(live, u);
      InBlock(l, b, u);
    }
    if a <= u < a + n {
      InBlock(l, a, u);
    }
  }

  lemma ClearOf(m: map<nat, nat>, units: set<nat>, a: nat, n: nat)
    requires forall u: nat :: Covers(m, u) ==> u in units
    requires forall b :: b in m ==> m[b] > 0
    requires Span(a, n) !! units && n > 0
    ensures forall b :: b in m ==> b + m[b] <= a || a + n <= b
  {
    forall b | b in m
      ensures b + m[b] <= a || a + n <= b
    {
      var u: nat := if b <= a then a else b;
      assert b <= u < b + m[b] ==> Covers(m, u);
      assert a <= u < a + n ==> u in Span(a, n);
    }
  }

  /** The units obtained and the allocated blocks determine the free blocks: they are the gaps between. */
  lemma FreeIsDetermined(f: map<nat, nat>, g: map<nat, nat>, live: map<nat, nat>, units: set<nat>, base: nat)
    requires Blocks(f, live, units, base) && Blocks(g, live, units, base)
    ensures f == g
  {
    forall a | a in f
      ensures a in g && g[a] == f[a]
    {
      SameBlock(f, g, live, units, base, a);
    }
    forall a | a in g
      ensures a in f
    {
      SameBlock(g, f, live, units, base, a);
    }
  }

  lemma SameCover(f: map<nat, nat>, g: map<nat, nat>, live: map<nat, nat>, units: set<nat>, base: nat, u: nat)
    requires Blocks(f, live, units, base) && Blocks(g, live, units, base)
    ensures Covers(f, u) ==> Covers(g, u)
  {
    if Covers(f, u) {
      assert u in units && !Covers(live, u);
    }
  }

  /** Two heaps with the same units and the same allocated blocks agree on where a free block starts. */
  lemma SameStart(f: map<nat, nat>, g: map<nat, nat>, live: map<nat, nat>, units: set<nat>, base: nat, a: nat)
    requires Blocks(f, live, units, base) && Blocks(g, live, units, base) && a in f
    ensures a in g
  {
    InBlock(f, a, a);
    SameCover(f, g, live, units, base, a);
    var b := BlockOf(g, a);
    if b < a {
      InBlock(g, b, a - 1);
      SameCover(g, f, live, units, base, a - 1);
    }
  }

  lemma NoLonger(f: map<nat, nat>, g: map<nat, nat>, live: map<nat, nat>, units: set<nat>, base: nat, a: nat)
    requires Blocks(f, live, units, base) && Blocks(g, live, units, base) && a in f && a in g
    ensures f[a] <= g[a]
  {
    if g[a] < f[a] {
      InBlock(f, a, a + g[a]);
      SameCover(f, g, live, units, base, a + g[a]);
    }
  }

  lemma SameBlock(f: map<nat, nat>, g: map<nat, nat>, live: map<nat, nat>, units: set<nat>, base: nat, a: nat)
    requires Blocks(f, live, units, base) && Blocks(g, live, units, base) && a in f
    ensures a in g && g[a] == f[a]
  {
    SameStart(f, g, live, units, base, a);
    NoLonger(f, g, live, units, base, a);
    NoLonger(g, f, live, units, base, a);
  }

  // ---- the list ----

  /** Index after `i` going round a list of `n`. */
  function Succ(i: nat, n: nat): nat {
    if i + 1 < n then i + 1 else 0
  }

  ghost predicate Ascending(nodes: seq<nat>) {
    forall i, j :: 0 <= i < j < |nodes| ==> nodes[i] < nodes[j]
  }

  /** One cycle in address order through `base` and the free blocks, whose headers carry their sizes. */
  ghost predicate List(nodes: seq<nat>, mem: map<nat, Header>, free: map<nat, nat>, base: nat) {
    && nodes != [] && nodes[0] == base && base !in free && Ascending(nodes)
    && (forall b :: b in nodes <==> b == base || b in free)
    && Links(nodes, mem, free)
  }

  ghost predicate Links(nodes: seq<nat>, mem: map<nat, Header>, free: map<nat, nat>) {
    && (forall i :: 0 <= i < |nodes| ==> nodes[i] in mem)
    && (forall i :: 0 <= i < |nodes| ==> NodeOk(nodes, mem, free, i))
  }

  /** Node `i` points to the next and carries its size, 0 for `base`. */
  ghost predicate NodeOk(nodes: seq<nat>, mem: map<nat, Header>, free: map<nat, nat>, i: nat)
    requires i < |nodes|
  {
    && nodes[i] in mem
    && mem[nodes[i]].ptr == nodes[Succ(i, |nodes|)]
    && if i == 0 then mem[nodes[i]].size == 0 else nodes[i] in free && mem[nodes[i]].size == free[nodes[i]]
  }

  /** The last node before `a`. */
  function Place(nodes: seq<nat>, a: nat): (t: nat)
    requires nodes != [] && nodes[0] < a
    ensures t < |nodes| && nodes[t] < a && (t + 1 < |nodes| ==> a <= nodes[t + 1])
  {
    if |nodes| == 1 || a <= nodes[1] then 0 else Place(nodes[1..], a) + 1
  }

  /** Headers after the assignments that free block `a` behind node `p`. */
  function Spliced(mem: map<nat, Header>, p: nat, a: nat): map<nat, Header>
    requires p in mem && a in mem && mem[p].ptr in mem
  {
    var q := mem[p].ptr;
    var m := if a + mem[a].size == q then mem[a := Header(mem[q].ptr, mem[a].size + mem[q].size)]
             else mem[a := Header(q, mem[a].size)];
    if p + m[p].size == a then m[p := Header(m[a].ptr, m[p].size + m[a].size)]
    else m[p := Header(a, m[p].size)]
  }

  /** The list after freeing block `a` of `n` units behind node `t`. */
  ghost function NodesAfter(nodes: seq<nat>, free: map<nat, nat>, t: nat, a: nat, n: nat): seq<nat>
    requires t < |nodes|
  {
    var left := nodes[..t + 1] + if nodes[t] in free && nodes[t] + free[nodes[t]] == a then [] else [a];
    left + if a + n in free && t + 1 < |nodes| then nodes[t + 2..] else nodes[t + 1..]
  }

  /** Linking a block in behind node `t`. */
  lemma InsertNode(nodes: seq<nat>, mem: map<nat, Header>, free: map<nat, nat>, base: nat, t: nat, a: nat, n: nat)
    requires List(nodes, mem, free, base) && t < |nodes| && a !in nodes
    requires nodes[t] < a && (t + 1 < |nodes| ==> a < nodes[t + 1])
    ensures List(nodes[..t + 1] + [a] + nodes[t + 1..],
                 mem[a := Header(mem[nodes[t]].ptr, n)][nodes[t] := mem[nodes[t]].(ptr := a)],
                 free[a := n], base)
  {
    hide NodeOk;
    InsertedInto(nodes, t, a);
    InsertLinks(nodes, mem, free, t, a, n);
  }

  lemma InsertLinks(nodes: seq<nat>, mem: map<nat, Header>, free: map<nat, nat>, t: nat, a: nat, n: nat)
    requires Links(nodes, mem, free) && Ascending(nodes) && t < |nodes|
    requires nodes[t] < a && (t + 1 < |nodes| ==> a < nodes[t + 1])
    ensures Links(nodes[..t + 1] + [a] + nodes[t + 1..],
                  mem[a := Header(mem[nodes[t]].ptr, n)][nodes[t] := mem[nodes[t]].(ptr := a)],
                  free[a := n])
  {
    var p := nodes[t];
    var o := nodes[..t + 1] + [a] + nodes[t + 1..];
    var m, f := mem[a := Header(mem[p].ptr, n)][p := mem[p].(ptr := a)], free[a := n];
    assert NodeOk(nodes, mem, free, t);
    forall i | 0 <= i < |o|
      ensures NodeOk(o, m, f, i)
    {
      if i < t {
        assert NodeOk(nodes, mem, free, i);
      } else if i > t + 1 {
        assert NodeOk(nodes, mem, free, i - 1);
        assert o[Succ(i, |o|)] == nodes[Succ(i - 1, |nodes|)];
      }
    }
  }

  lemma InsertedInto(nodes: seq<nat>, t: nat, a: nat)
    requires Ascending(nodes) && t < |nodes| && nodes[t] < a && (t + 1 < |nodes| ==> a < nodes[t + 1])
    ensures var o := nodes[..t + 1] + [a] + nodes[t + 1..];
            Ascending(o) && forall b :: b in o <==> b in nodes || b == a
  {
    var o := nodes[..t + 1] + [a] + nodes[t + 1..];
    assert o[t + 1] == a;
    forall b | b in nodes
      ensures b in o
    {
      var j :| 0 <= j < |nodes| && nodes[j] == b;
      assert if j <= t then o[j] == b else o[j + 1] == b;
    }
  }

  /** Absorbing node `i + 1` into node `i`. */
  lemma JoinNext(nodes: seq<nat>, mem: map<nat, Header>, free: map<nat, nat>, base: nat, i: nat)
    requires List(nodes, mem, free, base) && 0 < i && i + 1 < |nodes|
    ensures nodes[i] in free && nodes[i + 1] in free
    ensures var p, q := nodes[i], nodes[i + 1];
            List(nodes[..i + 1] + nodes[i + 2..], mem[p := Header(mem[q].ptr, mem[p].size + mem[q].size)],
                 (free - {q})[p := free[p] + free[q]], base)
  {
    hide NodeOk;
    RemovedFrom(nodes, i + 1);
    JoinLinks(nodes, mem, free, i);
  }

  lemma JoinLinks(nodes: seq<nat>, mem: map<nat, Header>, free: map<nat, nat>, i: nat)
    requires Links(nodes, mem, free) && Ascending(nodes) && 0 < i && i + 1 < |nodes|
    ensures nodes[i] in free && nodes[i + 1] in free
    ensures var p, q := nodes[i], nodes[i + 1];
            Links(nodes[..i + 1] + nodes[i + 2..], mem[p := Header(mem[q].ptr, mem[p].size + mem[q].size)],
                  (free - {q})[p := free[p] + free[q]])
  {
    var p, q := nodes[i], nodes[i + 1];
    assert NodeOk(nodes, mem, free, i) && NodeOk(nodes, mem, free, i + 1);
    var o := nodes[..i + 1] + nodes[i + 2..];
    var m, f := mem[p := Header(mem[q].ptr, mem[p].size + mem[q].size)], (free - {q})[p := free[p] + free[q]];
    forall j | 0 <= j < |o|
      ensures NodeOk(o, m, f, j)
    {
      if j < i {
        assert NodeOk(nodes, mem, free, j);
      } else if j == i {
        assert o[Succ(j, |o|)] == nodes[Succ(i + 1, |nodes|)];
      } else {
        assert NodeOk(nodes, mem, free, j + 1);
        assert o[Succ(j, |o|)] == nodes[Succ(j + 1, |nodes|)];
      }
    }
  }

  /** Dropping one place of an ascending list drops exactly that node. */
  lemma RemovedFrom(nodes: seq<nat>, i: nat)
    requires Ascending(nodes) && i < |nodes|
    ensures var o := nodes[..i] + nodes[i + 1..];
            Ascending(o) && forall b :: b in o <==> b in nodes && b != nodes[i]
  {
    var o := nodes[..i] + nodes[i + 1..];
    forall b | b in nodes && b != nodes[i]
      ensures b in o
    {
      var j :| 0 <= j < |nodes| && nodes[j] == b;
      assert if j < i then o[j] == b else o[j - 1] == b;
    }
    forall b | b in o
      ensures b in nodes && b != nodes[i]
    {
      var j :| 0 <= j < |o| && o[j] == b;
      assert b == if j < i then nodes[j] else nodes[j + 1];
    }
  }

  lemma NodeFacts(nodes: seq<nat>, mem: map<nat, Header>, free: map<nat, nat>, base: nat, i: nat)
    requires List(nodes, mem, free, base) && i < |nodes|
    ensures nodes[0] == base && nodes[i] in mem && NodeOk(nodes, mem, free, i)
    ensures nodes[i] in free <==> i > 0
    ensures i > 0 ==> nodes[i] > base
  {
    assert NodeOk(nodes, mem, free, i);
  }

  /** Freeing a block, its right-hand neighbour absorbed. */
  lemma ListAfterRight(nodes: seq<nat>, mem: map<nat, Header>, free: map<nat, nat>, base: nat, t: nat, a: nat)
    returns (o: seq<nat>, m: map<nat, Header>, f: map<nat, nat>)
    requires List(nodes, mem, free, base) && t < |nodes|
    requires a in mem && a !in nodes && nodes[t] < a && (t + 1 < |nodes| ==> a + mem[a].size <= nodes[t + 1])
    requires mem[a].size > 0
    ensures nodes[t] in mem && mem[nodes[t]].ptr in mem && a !in free
    ensures var n, p, q := mem[a].size, nodes[t], mem[nodes[t]].ptr;
            && List(o, m, f, base)
            && o == nodes[..t + 1] + [a] + (if a + n in free && t + 1 < |nodes| then nodes[t + 2..] else nodes[t + 1..])
            && (a + n in free <==> a + n == q)
            && f == (free - {a + n})[a := n + if a + n in free then free[a + n] else 0]
            && var h := if a + n == q then Header(mem[q].ptr, n + mem[q].size) else Header(q, n);
               m == mem[a := h][p := mem[p].(ptr := a)]
  {
    hide List, NodeOk;
    var n, p := mem[a].size, nodes[t];
    NodeFacts(nodes, mem, free, base, t);
    NextFacts(nodes, mem, free, base, t, a);
    var q := mem[p].ptr;
    InsertNode(nodes, mem, free, base, t, a, n);
    o, m, f := nodes[..t + 1] + [a] + nodes[t + 1..], mem[a := Header(q, n)][p := mem[p].(ptr := a)], free[a := n];
    if a + n in free {
      JoinNext(o, m, f, base, t + 1);
      assert o[t + 1] == a && o[t + 2] == q;
      assert o[..t + 2] == nodes[..t + 1] + [a] && o[t + 3..] == nodes[t + 2..];
      o, m, f := o[..t + 2] + o[t + 3..], m[a := Header(m[q].ptr, n + m[q].size)], (f - {q})[a := n + f[q]];
      assert f == (free - {a + n})[a := n + free[a + n]];
    } else {
      assert f == (free - {a + n})[a := n];
    }
  }

  /** Freeing a block leaves the list one address-ordered cycle of the coalesced free blocks. */
  lemma ListAfterFree(nodes: seq<nat>, mem: map<nat, Header>, free: map<nat, nat>, base: nat, t: nat, a: nat)
    requires List(nodes, mem, free, base) && t < |nodes|
    requires a in mem && a !in nodes && nodes[t] < a && (t + 1 < |nodes| ==> a + mem[a].size <= nodes[t + 1])
    requires mem[a].size > 0
    ensures nodes[t] in mem && mem[nodes[t]].ptr in mem
    ensures List(NodesAfter(nodes, free, t, a, mem[a].size), Spliced(mem, nodes[t], a),
                 Returned(free, a, mem[a].size, nodes[t]), base)
  {
    hide List;
    var n, p := mem[a].size, nodes[t];
    NodeFacts(nodes, mem, free, base, t);
    var o: seq<nat>, m: map<nat, Header>, f: map<nat, nat> := ListAfterRight(nodes, mem, free, base, t, a);
    if p in free && p + free[p] == a {
      JoinNext(o, m, f, base, t);
      assert o[t] == p && o[t + 1] == a && o[..t + 1] == nodes[..t + 1];
      assert o[..t + 1] + o[t + 2..] == NodesAfter(nodes, free, t, a, n);
      assert (f - {a})[p := f[p] + f[a]] == Returned(free, a, n, p);
      assert m[p := Header(m[a].ptr, m[p].size + m[a].size)] == Spliced(mem, p, a);
    } else {
      assert m == Spliced(mem, p, a);
    }
  }

  lemma NextIsAdjacent(nodes: seq<nat>, mem: map<nat, Header>, free: map<nat, nat>, base: nat, t: nat, a: nat)
    requires List(nodes, mem, free, base) && t < |nodes|
    requires a in mem && nodes[t] < a && (t + 1 < |nodes| ==> a + mem[a].size <= nodes[t + 1])
    ensures a + mem[a].size in free <==> t + 1 < |nodes| && nodes[t + 1] == a + mem[a].size
    ensures mem[a].size > 0 ==> (a + mem[a].size in free <==> a + mem[a].size == mem[nodes[t]].ptr)
  {
    assert NodeOk(nodes, mem, free, t);
    if a + mem[a].size in free {
      assert a + mem[a].size in nodes;
      var i :| 0 <= i < |nodes| && nodes[i] == a + mem[a].size;
      assert i >= t + 1;
    }
    if t + 1 < |nodes| && nodes[t + 1] == a + mem[a].size {
      assert nodes[t + 1] in nodes;
    }
  }

  lemma NextFacts(nodes: seq<nat>, mem: map<nat, Header>, free: map<nat, nat>, base: nat, t: nat, a: nat)
    requires List(nodes, mem, free, base) && t < |nodes|
    requires a in mem && a !in nodes && nodes[t] < a && (t + 1 < |nodes| ==> a + mem[a].size <= nodes[t + 1])
    requires mem[a].size > 0
    ensures nodes[t] in mem && mem[nodes[t]].ptr in mem && a !in free
    ensures a + mem[a].size in free <==> t + 1 < |nodes| && nodes[t + 1] == a + mem[a].size
    ensures a + mem[a].size in free <==> a + mem[a].size == mem[nodes[t]].ptr
    ensures a + mem[a].size in free ==> mem[a + mem[a].size].size == free[a + mem[a].size]
  {
    NextIsAdjacent(nodes, mem, free, base, t, a);
    assert NodeOk(nodes, mem, free, t) && NodeOk(nodes, mem, free, Succ(t, |nodes|));
    assert base < a;
  }

  /** Unlinking node `k` whole. */
  lemma ListAfterUnlink(nodes: seq<nat>, mem: map<nat, Header>, free: map<nat, nat>, base: nat, k: nat)
    requires List(nodes, mem, free, base) && 0 < k < |nodes|
    ensures var p, q := nodes[k], nodes[k - 1];
            List(nodes[..k] + nodes[k + 1..], mem[q := mem[q].(ptr := mem[p].ptr)], free - {p}, base)
  {
    hide NodeOk;
    RemovedFrom(nodes, k);
    UnlinkLinks(nodes, mem, free, k);
  }

  lemma UnlinkLinks(nodes: seq<nat>, mem: map<nat, Header>, free: map<nat, nat>, k: nat)
    requires Links(nodes, mem, free) && Ascending(nodes) && 0 < k < |nodes|
    ensures var p, q := nodes[k], nodes[k - 1];
            Links(nodes[..k] + nodes[k + 1..], mem[q := mem[q].(ptr := mem[p].ptr)], free - {p})
  {
    var p, q := nodes[k], nodes[k - 1];
    var o := nodes[..k] + nodes[k + 1..];
    var m, f := mem[q := mem[q].(ptr := mem[p].ptr)], free - {p};
    assert NodeOk(nodes, mem, free, k) && NodeOk(nodes, mem, free, k - 1);
    forall j | 0 <= j < |o|
      ensures NodeOk(o, m, f, j)
    {
      if j < k - 1 {
        assert NodeOk(nodes, mem, free, j);
      } else if j == k - 1 {
        assert o[Succ(j, |o|)] == nodes[Succ(k, |nodes|)];
      } else {
        assert NodeOk(nodes, mem, free, j + 1);
        assert o[Succ(j, |o|)] == nodes[Succ(j + 1, |nodes|)];
      }
    }
  }

  /** Shrinking node `k` and writing a header at `a`, which is no node. */
  lemma ListAfterShrink(nodes: seq<nat>, mem: map<nat, Header>, free: map<nat, nat>, base: nat, k: nat, n: nat, a: nat,
                        h: Header)
    requires List(nodes, mem, free, base) && 0 < k < |nodes| && a !in nodes
    ensures var p := nodes[k];
            List(nodes, mem[p := mem[p].(size := n)][a := h], free[p := n], base)
  {
    var p := nodes[k];
    var m, f := mem[p := mem[p].(size := n)][a := h], free[p := n];
    assert p in nodes;
    forall j | 0 <= j < |nodes|
      ensures NodeOk(nodes, m, f, j)
    {
      assert NodeOk(nodes, mem, free, j) && nodes[j] in nodes;
    }
  }

  /** Writing a header where no node is. */
  lemma ListFrame(nodes: seq<nat>, mem: map<nat, Header>, free: map<nat, nat>, base: nat, a: nat, h: Header)
    requires List(nodes, mem, free, base) && a !in nodes
    ensures List(nodes, mem[a := h], free, base)
  {
    var m := mem[a := h];
    forall j | 0 <= j < |nodes|
      ensures NodeOk(nodes, m, free, j)
    {
      assert NodeOk(nodes, mem, free, j) && nodes[j] in nodes;
    }
  }

  /** Allocated blocks keep their size in their header. */
  ghost predicate Headed(live: map<nat, nat>, mem: map<nat, Header>) {
    forall a :: a in live ==> a in mem && mem[a].size == live[a]
  }

  /** Where block `a` goes: between the nodes either side of it. */
  lemma PlaceFacts(nodes: seq<nat>, mem: map<nat, Header>, free: map<nat, nat>, live: map<nat, nat>, base: nat, a: nat)
    requires List(nodes, mem, free, base)
    requires Apart(free, base, 1) && Apart(live, base, 0) && Separate(free, live) && Headed(live, mem) && a in live
    ensures nodes != [] && nodes[0] == base < a && a !in nodes && a in mem && mem[a].size == live[a] > 0
    ensures var t := Place(nodes, a);
            && (t + 1 < |nodes| ==> a + live[a] <= nodes[t + 1])
            && Before(free, base, nodes[t], a) && nodes[t] !in live && base <= nodes[t]
  {
    hide Links;
    assert a !in free;
    var t := Place(nodes, a);
    assert nodes[t] in nodes;
    NothingBetween(nodes, a);
    forall b | b in free && b < a
      ensures b <= nodes[t]
    {
      assert b in nodes;
    }
    if t + 1 < |nodes| {
      assert nodes[t + 1] in nodes && nodes[t + 1] != a;
    }
  }

  lemma NothingBetween(nodes: seq<nat>, a: nat)
    requires nodes != [] && nodes[0] < a && Ascending(nodes)
    ensures forall b :: b in nodes && b < a ==> b <= nodes[Place(nodes, a)]
  {
  }

  lemma SplicedKeepsHeaders(live: map<nat, nat>, mem: map<nat, Header>, p: nat, a: nat)
    requires Headed(live, mem) && p in mem && a in mem && mem[p].ptr in mem && p !in live
    ensures Headed(live - {a}, Spliced(mem, p, a))
  {
  }

  /** The whole of a `free`: list, blocks and headers after it. */
  lemma FreeDone(nodes: seq<nat>, mem: map<nat, Header>, free: map<nat, nat>, live: map<nat, nat>, units: set<nat>,
                 base: nat, t: nat, a: nat)
    returns (o: seq<nat>, f: map<nat, nat>)
    requires List(nodes, mem, free, base) && Blocks(free, live, units, base) && Headed(live, mem)
    requires a in live && nodes != [] && nodes[0] < a && t == Place(nodes, a)
    ensures nodes[t] in mem && mem[nodes[t]].ptr in mem && a in mem && nodes[t] in o
    ensures List(o, Spliced(mem, nodes[t], a), f, base)
    ensures Blocks(f, live - {a}, units, base) && Headed(live - {a}, Spliced(mem, nodes[t], a))
    ensures exists s :: s in f && s <= a && a + live[a] <= s + f[s]
  {
    hide List, Covers, Apart, Separate, Before, Headed, Returned, Spliced;
    var p := nodes[t];
    PlaceFacts(nodes, mem, free, live, base, a);
    ListAfterFree(nodes, mem, free, base, t, a);
    GiveBack(free, live, units, base, a, p);
    SplicedKeepsHeaders(live, mem, p, a);
    var start, end := ReturnedShape(free, live, base, a, p);
    o, f := NodesAfter(nodes, free, t, a, mem[a].size), Returned(free, a, live[a], p);
    assert o[t] == p;
  }

  /** The search for the place of `a` stops at the last node before it and nowhere else. */
  lemma StopsAtPlace(nodes: seq<nat>, a: nat, k: nat)
    requires nodes != [] && Ascending(nodes) && nodes[0] < a && a !in nodes && k < |nodes|
    ensures var p, q := nodes[k], nodes[Succ(k, |nodes|)];
            (p < a < q || (p >= q && (a > p || a < q))) <==> k == Place(nodes, a)
  {
    var t := Place(nodes, a);
    assert t + 1 < |nodes| ==> nodes[t + 1] in nodes;
    assert nodes[k] in nodes;
    assert 0 < k ==> nodes[0] < nodes[k];
    assert k + 1 < |nodes| ==> nodes[k] < nodes[k + 1] && nodes[k + 1] in nodes;
  }

  /** Steps from `k` round to `t`. */
  function Steps(k: nat, t: nat, n: nat): nat
    requires k < n && t < n
  {
    if k <= t then t - k else n - k + t
  }

  /** Places already passed when the scan that starts after `j` has come to `k`. */
  function Passed(j: nat, k: nat, n: nat): (d: nat)
    requires j < n && k < n
    ensures d < n && (d == n - 1 <==> k == j)
  {
    if k > j then k - j - 1 else k + n - j - 1
  }

  /** Every node the scan has passed is too small. */
  ghost predicate AllSmall(nodes: seq<nat>, mem: map<nat, Header>, j: nat, k: nat, want: nat)
    requires j < |nodes| && k < |nodes|
  {
    forall x :: 0 <= x < |nodes| && Passed(j, x, |nodes|) < Passed(j, k, |nodes|) ==>
                nodes[x] in mem && mem[nodes[x]].size < want
  }

  /** Block `p` is the first of the list after `freep` that is big enough. */
  ghost predicate NextFit(nodes: seq<nat>, mem: map<nat, Header>, freep: nat, want: nat, p: nat) {
    exists j, k :: && 0 <= j < |nodes| && 0 <= k < |nodes| && nodes[j] == freep && nodes[k] == p
                   && p in mem && mem[p].size >= want && AllSmall(nodes, mem, j, k, want)
  }

  /** The `want` units at `a` are the end of that block. */
  ghost predicate EndOfNextFit(nodes: seq<nat>, mem: map<nat, Header>, freep: nat, want: nat, a: nat) {
    exists p: nat :: p in mem && NextFit(nodes, mem, freep, want, p) && a + want == p + mem[p].size
  }

  lemma HasRoom(free: map<nat, nat>, b: nat, want: nat)
    requires b in free && free[b] >= want
    ensures Fits(free, want)
  {
  }

  lemma FoundFit(nodes: seq<nat>, mem: map<nat, Header>, j: nat, k: nat, want: nat)
    requires j < |nodes| && k < |nodes| && AllSmall(nodes, mem, j, k, want)
    requires nodes[k] in mem && mem[nodes[k]].size >= want
    ensures EndOfNextFit(nodes, mem, nodes[j], want, nodes[k] + (mem[nodes[k]].size - want))
  {
    assert NextFit(nodes, mem, nodes[j], want, nodes[k]);
  }

  /** Some free block has room. */
  ghost predicate Fits(free: map<nat, nat>, want: nat) {
    exists b :: b in free && free[b] >= want
  }

  /** A scan that has come back to its start, finding that too small as well, has seen every free block. */
  lemma ScannedAll(nodes: seq<nat>, mem: map<nat, Header>, free: map<nat, nat>, base: nat, j: nat, want: nat)
    requires List(nodes, mem, free, base) && j < |nodes| && AllSmall(nodes, mem, j, j, want)
    requires nodes[j] in mem && mem[nodes[j]].size < want
    ensures !Fits(free, want)
  {
    forall b | b in free
      ensures free[b] < want
    {
      assert b in nodes;
      var x :| 0 <= x < |nodes| && nodes[x] == b;
      NodeFacts(nodes, mem, free, base, x);
    }
  }

  /** One step of the scan. */
  lemma ScannedOne(nodes: seq<nat>, mem: map<nat, Header>, j: nat, k: nat, want: nat)
    requires j < |nodes| && k < |nodes| && k != j && AllSmall(nodes, mem, j, k, want)
    requires nodes[k] in mem && mem[nodes[k]].size < want
    ensures AllSmall(nodes, mem, j, Succ(k, |nodes|), want)
    ensures Passed(j, Succ(k, |nodes|), |nodes|) == Passed(j, k, |nodes|) + 1
  {
    forall x | 0 <= x < |nodes| && Passed(j, x, |nodes|) < Passed(j, k, |nodes|) + 1
      ensures x == k || Passed(j, x, |nodes|) < Passed(j, k, |nodes|)
    {
    }
  }

  lemma IndexOf(nodes: seq<nat>, x: nat) returns (j: nat)
    requires x in nodes
    ensures j < |nodes| && nodes[j] == x
  {
    j :| 0 <= j < |nodes| && nodes[j] == x;
  }

  lemma ScanStarts(nodes: seq<nat>, mem: map<nat, Header>, j: nat, want: nat)
    requires j < |nodes|
    ensures AllSmall(nodes, mem, j, Succ(j, |nodes|), want)
  {
    assert Passed(j, Succ(j, |nodes|), |nodes|) == 0;
  }

  lemma SameNode(nodes: seq<nat>, mem: map<nat, Header>, free: map<nat, nat>, base: nat, j: nat, k: nat)
    requires List(nodes, mem, free, base) && j < |nodes| && k < |nodes| && nodes[j] == nodes[k]
    ensures j == k
  {
  }

  lemma FirstList(mem: map<nat, Header>, base: nat)
    requires base > 0
    ensures List([base], mem[base := Header(base, 0)], map[], base)
    ensures Blocks(map[], map[], {}, base) && Headed(map[], mem[base := Header(base, 0)])
  {
    var m, f: map<nat, nat> := mem[base := Header(base, 0)], map[];
    assert NodeOk([base], m, f, 0);
  }

  /** Nodes are not allocated blocks, and nothing inside a free block is a node. */
  lemma NodesNotLive(nodes: seq<nat>, mem: map<nat, Header>, free: map<nat, nat>, live: map<nat, nat>, base: nat,
                     k: nat)
    requires List(nodes, mem, free, base)
    requires Apart(free, base, 1) && Apart(live, base, 0) && Separate(free, live)
    requires 0 < k < |nodes| && nodes[k] in free
    ensures nodes[k] !in live && nodes[k - 1] !in live
    ensures forall a: nat :: nodes[k] < a < nodes[k] + free[nodes[k]] ==> a !in nodes && a !in live
  {
    hide Links;
    assert nodes[k] in nodes && nodes[k - 1] in nodes;
  }

  /** The list and the headers after taking all of node `k`. */
  lemma TakeWhole(nodes: seq<nat>, mem: map<nat, Header>, free: map<nat, nat>, live: map<nat, nat>, base: nat, k: nat)
    requires List(nodes, mem, free, base) && Headed(live, mem)
    requires Apart(free, base, 1) && Apart(live, base, 0) && Separate(free, live)
    requires 0 < k < |nodes| && nodes[k] in mem && nodes[k - 1] in mem && nodes[k] in free
    requires mem[nodes[k]].size == free[nodes[k]]
    ensures var p, q := nodes[k], nodes[k - 1];
            var m := mem[q := mem[q].(ptr := mem[p].ptr)];
            List(nodes[..k] + nodes[k + 1..], m, free - {p}, base) && Headed(live[p := free[p]], m)
  {
    hide List, Apart, Separate;
    NodesNotLive(nodes, mem, free, live, base, k);
    ListAfterUnlink(nodes, mem, free, base, k);
  }

  /** The list and the headers after taking the last `want` units of node `k`. */
  lemma TakePart(nodes: seq<nat>, mem: map<nat, Header>, free: map<nat, nat>, live: map<nat, nat>, base: nat, k: nat,
                 want: nat, x: nat)
    requires List(nodes, mem, free, base) && Headed(live, mem)
    requires Apart(free, base, 1) && Apart(live, base, 0) && Separate(free, live)
    requires 0 < k < |nodes| && nodes[k] in mem && nodes[k - 1] in mem && nodes[k] in free
    requires mem[nodes[k]].size == free[nodes[k]] && 0 < want < free[nodes[k]]
    ensures var p := nodes[k];
            var a: nat := p + (free[p] - want);
            var m := mem[p := mem[p].(size := free[p] - want)][a := Header(x, want)];
            List(nodes, m, free[p := free[p] - want], base) && Headed(live[a := want], m)
  {
    hide List, Apart, Separate;
    NodesNotLive(nodes, mem, free, live, base, k);
    var p := nodes[k];
    ListAfterShrink(nodes, mem, free, base, k, free[p] - want, p + (free[p] - want), Header(x, want));
  }

  class Heap {
    const base: nat
    var mem: map<nat, Header>
    var freep: nat
    ghost var nodes: seq<nat>
    ghost var free: map<nat, nat>
    ghost var live: map<nat, nat>
    ghost var units: set<nat>

    ghost predicate Ready()
      reads this
    {
      && base > 0 && freep != 0
      && Blocks(free, live, units, base) && Headed(live, mem)
      && List(nodes, mem, free, base) && freep in nodes
    }

    /** Before the first request there is nothing; after it the list is in order. */
    ghost predicate Valid()
      reads this
    {
      if freep == 0 then base > 0 && free == map[] && live == map[] && units == {} else Ready()
    }

    constructor (b: nat)
      requires b > 0
      ensures Valid() && freep == 0 && base == b
    {
      base, mem, freep := b, map[], 0;
      nodes, free, live, units := [], map[], map[], {};
    }

    /** The node before `a`, walking the list from `freep`. */
    method Search(a: nat) returns (p: nat)
      requires Ready() && a in live
      ensures p == nodes[Place(nodes, a)]
    {
      PlaceFacts(nodes, mem, free, live, base, a);
      ghost var t := Place(nodes, a);
      p := freep;
      ghost var k :| 0 <= k < |nodes| && nodes[k] == freep;
      NodeFacts(nodes, mem, free, base, k);
      while !(a > p && a < mem[p].ptr)
        invariant 0 <= k < |nodes| && p == nodes[k] && NodeOk(nodes, mem, free, k)
        decreases Steps(k, t, |nodes|)
      {
        StopsAtPlace(nodes, a, k);
        if p >= mem[p].ptr && (a > p || a < mem[p].ptr) {
          return;
        }
        p := mem[p].ptr;
        k := Succ(k, |nodes|);
        NodeFacts(nodes, mem, free, base, k);
      }
      StopsAtPlace(nodes, a, k);
    }

    /** Give back the block with header `a`. */
    method Free(a: nat)
      requires Valid() && a in live
      modifies this
      ensures Valid() && freep != 0
      ensures live == old(live) - {a} && units == old(units)
      ensures exists s :: s in free && s <= a && a + old(live)[a] <= s + free[s]
    {
      hide List, Apart, Separate, Covers, Headed, Before;
      PlaceFacts(nodes, mem, free, live, base, a);
      var p := Search(a);
      ghost var was := mem;
      ghost var o, f := FreeDone(nodes, mem, free, live, units, base, Place(nodes, a), a);
      var q := mem[p].ptr;
      if a + mem[a].size == q {
        mem := mem[a := Header(mem[q].ptr, mem[a].size + mem[q].size)];
      } else {
        mem := mem[a := Header(q, mem[a].size)];
      }
      if p + mem[p].size == a {
        mem := mem[p := Header(mem[a].ptr, mem[p].size + mem[a].size)];
      } else {
        mem := mem[p := Header(a, mem[p].size)];
      }
      assert mem == Spliced(was, p, a);
      freep := p;
      nodes, free, live := o, f, live - {a};
    }

    /** The memory `sbrk` may hand out: above `base` and not handed out before. */
    ghost predicate Fresh(grant: Option<nat>, n: nat)
      reads this
    {
      grant.Some? ==> grant.value > base && Span(grant.value, n) !! units
    }

    /** Ask for more memory and put it in the list; `grant` is what `sbrk` answers. */
    method MoreCore(nu: nat, grant: Option<nat>) returns (p: nat)
      requires Ready() && Fresh(grant, Grown(nu))
      modifies this
      ensures Valid() && freep != 0 && live == old(live)
      ensures grant.None? ==>
                p == 0 && nodes == old(nodes) && mem == old(mem) && free == old(free) && units == old(units)
      ensures grant.Some? ==> p == freep && Fits(free, nu) && units == old(units) + Span(grant.value, Grown(nu))
    {
      hide List, Apart, Separate, Covers, Headed, Before, Span;
      var n := Grown(nu);
      if grant.None? {
        return 0;
      }
      var a := grant.value;
      Obtain(free, live, units, base, a, n);
      NewHeader(nodes, mem, free, live, units, base, a, n);
      mem := mem[a := Header(0, n)];
      live, units := live[a := n], units + Span(a, n);
      Free(a);
      assert live == old(live);
      p := freep;
    }

    /** Allocate from node `k`, which is big enough: all of it, or its tail. */
    method Take(prevp: nat, p: nat, want: nat, ghost k: nat) returns (a: nat)
      requires Ready() && 0 < k < |nodes| && p == nodes[k] && prevp == nodes[k - 1]
      requires p in mem && prevp in mem && 0 < want <= mem[p].size
      modifies this
      ensures Valid() && freep == prevp && units == old(units)
      ensures a !in old(live) && live == old(live)[a := want]
      ensures p <= a && a + want == p + old(mem[p].size)
    {
      hide List, Apart, Separate, Covers, Headed;
      NodeFacts(nodes, mem, free, base, k);
      NodeFacts(nodes, mem, free, base, k - 1);
      a := p + (mem[p].size - want);
      TakeTail(free, live, units, base, p, want);
      if mem[p].size == want {
        TakeWhole(nodes, mem, free, live, base, k);
        mem := mem[prevp := mem[prevp].(ptr := mem[p].ptr)];
        nodes := nodes[..k] + nodes[k + 1..];
        assert nodes[k - 1] == prevp;
      } else {
        var garbage := if a in mem then mem[a].ptr else 0;
        TakePart(nodes, mem, free, live, base, k, want, garbage);
        mem := mem[p := mem[p].(size := mem[p].size - want)];
        mem := mem[a := Header(garbage, want)];
      }
      free, live := Carved(free, p, want), live[a := want];
      freep := prevp;
    }

    /** Allocate room for `nbytes`; `grant` is what `sbrk` answers should it be asked. */
    method Malloc(nbytes: nat, grant: Option<nat>) returns (r: Option<nat>, grew: bool)
      requires Valid() && Fresh(grant, Grown(NUnits(nbytes)))
      modifies this
      ensures Valid()
      ensures r.None? <==> !Fits(old(free), NUnits(nbytes)) && grant.None?
      ensures grew <==> !Fits(old(free), NUnits(nbytes)) && grant.Some?
      ensures units == old(units) + if grew then Span(grant.value, Grown(NUnits(nbytes))) else {}
      ensures r.None? ==> free == old(free) && live == old(live)
      ensures r.Some? ==> r.value !in old(live) && live == old(live)[r.value := NUnits(nbytes)]
      ensures r.Some? && !grew ==> EndOfNextFit(old(nodes), old(mem), old(freep), NUnits(nbytes), r.value)
    {
      hide List, Apart, Separate, Covers, Headed, Blocks, Span, AllSmall, NUnits, EndOfNextFit, Fits;
      var want := NUnits(nbytes);
      grew := false;
      if freep == 0 {
        FirstList(mem, base);
        freep := base;
        mem := mem[base := Header(base, 0)];
        nodes := [base];
      }
      var prevp := freep;
      ghost var j := IndexOf(nodes, freep);
      NodeFacts(nodes, mem, free, base, j);
      var p := mem[prevp].ptr;
      ghost var h, k := j, Succ(j, |nodes|);
      ScanStarts(nodes, mem, j, want);
      while true
        invariant Ready() && live == old(live)
        invariant !grew && old(freep) != 0 ==> nodes == old(nodes) && mem == old(mem) && freep == old(freep)
        invariant !grew && old(freep) == 0 ==> free == map[]
        invariant 0 <= j < |nodes| && 0 <= h < |nodes| && k == Succ(h, |nodes|)
        invariant nodes[j] == freep && nodes[h] == prevp && nodes[k] == p
        invariant AllSmall(nodes, mem, j, k, want)
        invariant if grew then !Fits(old(free), want) && grant.Some? && Fits(free, want) else free == old(free)
        invariant units == old(units) + if grew then Span(grant.value, Grown(want)) else {}
        decreases !grew, |nodes| - Passed(j, k, |nodes|)
      {
        NodeFacts(nodes, mem, free, base, k);
        NodeFacts(nodes, mem, free, base, h);
        if mem[p].size >= want {
          HasRoom(free, p, want);
          FoundFit(nodes, mem, j, k, want);
          var a := Take(prevp, p, want, k);
          return Some(a), grew;
        }
        if p == freep {
          SameNode(nodes, mem, free, base, j, k);
          ScannedAll(nodes, mem, free, base, j, want);
          assert !grew;
          p := MoreCore(want, grant);
          if p == 0 {
            return None, false;
          }
          grew := true;
          j := IndexOf(nodes, freep);
          h := j;
          ScanStarts(nodes, mem, j, want);
        } else {
          ScannedOne(nodes, mem, j, k, want);
          h := k;
        }
        NodeFacts(nodes, mem, free, base, h);
        prevp := p;
        p := mem[p].ptr;
        k := Succ(h, |nodes|);
      }
    }
  }

  /** Units asked of `sbrk`: what is wanted, but 4096 at least. */
  function Grown(nu: nat): (n: nat)
    ensures n >= nu && n >= CHUNK && (n == nu || n == CHUNK)
  {
    if nu < CHUNK then CHUNK else nu
  }

  lemma NewHeader(nodes: seq<nat>, mem: map<nat, Header>, free: map<nat, nat>, live: map<nat, nat>, units: set<nat>,
                  base: nat, a: nat, n: nat)
    requires List(nodes, mem, free, base) && Blocks(free, live, units, base) && Headed(live, mem)
    requires n > 0 && a > base && Span(a, n) !! units && a !in live
    ensures List(nodes, mem[a := Header(0, n)], free, base) && Headed(live[a := n], mem[a := Header(0, n)])
  {
    assert a in Span(a, n);
    assert a in free ==> Covers(free, a);
    ListFrame(nodes, mem, free, base, a, Header(0, n));
  }

  /** Units for a request of `nbytes`, with one for the header. */
  function NUnits(nbytes: nat): (n: nat)
    ensures (n - 1) * UNIT >= nbytes && n >= 1
    ensures nbytes > 0 ==> (n - 2) * UNIT < nbytes
  {
    (nbytes + UNIT - 1) / UNIT + 1
  }
}

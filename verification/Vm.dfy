/**
 Physical pages (kalloc.c) and two-level page tables (vm.c).

 A page is named by its address.  `mem` gives the 1024 words of every page of the
 pool; free pages are linked through their first word.  `role` (ghost) says what
 each page is used for.  A page-table or page-directory entry for page `p` is the
 word p + 0x175: the address with the default permission bits, the valid bit among
 them.
 */
module Vm {
  import opened Common

  const PGSIZE: nat := 4096
  const WORDS: nat := 1024
  const NPDE: nat := 1024
  const USERPDE: nat := 512
  const USERTOP: nat := 0x8000_0000
  const USERPAGES: nat := 524288
  const ALLPAGES: nat := 1048576
  const TLBSIZE: nat := 64
  const DEFAULT: nat := 0x175
  const JUNK: nat := 0x0101_0101

  type Page = w: seq<nat> | |w| == WORDS witness seq(WORDS, _ => 0)

  /** What a page is: on the free list, a page directory, a page table, mapped for a user, or held by other kernel
      code. */
  datatype Role = Free | Dir | Table(dir: nat, pdx: nat) | User(dir: nat, pdx: nat, ptx: nat) | Held

  // ---- entries ----

  function Entry(p: nat): nat {
    p + DEFAULT
  }

  /** The valid bit, 0x100. */
  predicate IsValid(w: nat) {
    w / 256 % 2 == 1
  }

  function PteAddr(w: nat): nat {
    w / PGSIZE * PGSIZE
  }

  function PtePerm(w: nat): nat {
    w % 512
  }

  lemma EntryFields(p: nat)
    requires p % PGSIZE == 0
    ensures IsValid(Entry(p)) && PteAddr(Entry(p)) == p && PteAddr(Entry(p)) + PtePerm(Entry(p)) == Entry(p)
    ensures Entry(p) != 0 && !IsValid(0)
  {
    var k := p / PGSIZE;
    assert p == PGSIZE * k;
    SplitEntry(k);
  }

  lemma SplitEntry(k: nat)
    ensures (PGSIZE * k + DEFAULT) / 256 % 2 == 1
    ensures (PGSIZE * k + DEFAULT) / PGSIZE == k && (PGSIZE * k + DEFAULT) % 512 == DEFAULT
  {
    var x := PGSIZE * k + DEFAULT;
    Quotient(x, 256, 16 * k + 1, 117);
    Quotient(16 * k + 1, 2, 8 * k, 1);
    Quotient(x, PGSIZE, k, DEFAULT);
    Quotient(x, 512, 8 * k, DEFAULT);
  }

  lemma Quotient(x: nat, d: nat, q: nat, r: nat)
    requires r < d && x == q * d + r
    ensures x / d == q && x % d == r
  {
    Same(x / d, x % d, q, r, d);
  }

  lemma Same(a: nat, b: nat, q: nat, r: nat, d: nat)
    requires b < d && r < d && a * d + b == q * d + r
    ensures a == q && b == r
  {
    if a < q {
      Times(q - a, d);
    } else if q < a {
      Times(a - q, d);
    }
  }

  lemma Times(a: nat, d: nat)
    requires a >= 1
    ensures a * d >= d
  {
  }

  // ---- the roles agree with the entries ----

  ghost predicate Pool(mem: map<nat, Page>, role: map<nat, Role>) {
    && mem.Keys == role.Keys
    && forall p :: p in role ==> p > 0 && p % PGSIZE == 0
  }

  /** Entry `i` of directory `d` is empty or refers to a table whose role says so. */
  ghost predicate PdeOk(mem: map<nat, Page>, role: map<nat, Role>, d: nat, i: nat)
    requires d in mem && i < WORDS
  {
    mem[d][i] == 0 || exists t :: t in role && mem[d][i] == Entry(t) && role[t] == Table(d, i)
  }

  ghost predicate PteOk(mem: map<nat, Page>, role: map<nat, Role>, t: nat, d: nat, i: nat, j: nat)
    requires t in mem && j < WORDS
  {
    mem[t][j] == 0 || exists u :: u in role && mem[t][j] == Entry(u) && role[u] == User(d, i, j)
  }

  ghost predicate RoleOk(mem: map<nat, Page>, role: map<nat, Role>, p: nat)
    requires mem.Keys == role.Keys && p in role
  {
    match role[p]
    case Free => true
    case Held => true
    case Dir => forall i :: 0 <= i < WORDS ==> PdeOk(mem, role, p, i)
    case Table(d, i) =>
      && i < USERPDE && d in role && role[d] == Dir && mem[d][i] == Entry(p)
      && forall j :: 0 <= j < WORDS ==> PteOk(mem, role, p, d, i, j)
    case User(d, i, j) =>
      && i < USERPDE && j < WORDS && d in role && role[d] == Dir
      && exists t :: t in role && role[t] == Table(d, i) && mem[d][i] == Entry(t) && mem[t][j] == Entry(p)
  }

  ghost predicate RolesOk(mem: map<nat, Page>, role: map<nat, Role>)
    requires mem.Keys == role.Keys
  {
    forall p :: p in role ==> RoleOk(mem, role, p)
  }

  /** The free list: `q` in order from `head`, linked through first words, and exactly the free pages. */
  ghost predicate FreeList(mem: map<nat, Page>, role: map<nat, Role>, head: nat, q: seq<nat>)
    requires mem.Keys == role.Keys
  {
    && (forall k :: 0 <= k < |q| ==> q[k] in role)
    && (forall j, k :: 0 <= j < k < |q| ==> q[j] != q[k])
    && (forall p :: p in q <==> p in role && role[p] == Free)
    && head == (if q == [] then 0 else q[0])
    && forall k :: 0 <= k < |q| ==> LinkOk(mem, q, k)
  }

  /** The first word of the `k`th free page is the address of the next, or 0. */
  predicate LinkOk(mem: map<nat, Page>, q: seq<nat>, k: nat) {
    k < |q| && q[k] in mem && mem[q[k]][0] == if k + 1 < |q| then q[k + 1] else 0
  }

  ghost predicate Inv(mem: map<nat, Page>, role: map<nat, Role>, head: nat, q: seq<nat>) {
    Pool(mem, role) && RolesOk(mem, role) && FreeList(mem, role, head, q)
  }

  /** A place that refers to a page. */
  datatype Place = InFree(k: nat) | Pde(d: nat, i: nat) | Pte(t: nat, j: nat)

  /** The page referred to, if any. */
  ghost predicate RefersTo(mem: map<nat, Page>, role: map<nat, Role>, q: seq<nat>, x: Place, p: nat) {
    match x
    case InFree(k) => k < |q| && q[k] == p
    case Pde(d, i) => d in role && d in mem && role[d] == Dir && i < WORDS && mem[d][i] == Entry(p)
    case Pte(t, j) => t in role && t in mem && role[t].Table? && j < WORDS && mem[t][j] == Entry(p)
  }

  /** No page is referred to from two places: free list, directories and tables share nothing. */
  lemma NoPageTwice(mem: map<nat, Page>, role: map<nat, Role>, head: nat, q: seq<nat>, x: Place, y: Place, p: nat)
    requires Inv(mem, role, head, q)
    requires RefersTo(mem, role, q, x, p) && RefersTo(mem, role, q, y, p)
    ensures x == y
    ensures p in role && role[p] != Dir && role[p] != Held
  {
    RoleOfReferred(mem, role, head, q, x, p);
    RoleOfReferred(mem, role, head, q, y, p);
    if x.Pte? && y.Pte? {
      SameTable(mem, role, x.t, y.t);
    }
  }

  lemma RoleOfReferred(mem: map<nat, Page>, role: map<nat, Role>, head: nat, q: seq<nat>, x: Place, p: nat)
    requires Inv(mem, role, head, q) && RefersTo(mem, role, q, x, p)
    ensures p in role
    ensures role[p] == match x
                       case InFree(k) => Free
                       case Pde(d, i) => Table(d, i)
                       case Pte(t, j) => User(role[t].dir, role[t].pdx, j)
  {
    match x
    case InFree(k) => assert q[k] in q;
    case Pde(d, i) => assert RoleOk(mem, role, d) && PdeOk(mem, role, d, i);
    case Pte(t, j) => assert RoleOk(mem, role, t) && PteOk(mem, role, t, role[t].dir, role[t].pdx, j);
  }

  lemma SameTable(mem: map<nat, Page>, role: map<nat, Role>, t: nat, u: nat)
    requires Pool(mem, role) && RolesOk(mem, role) && t in role && u in role
    requires role[t].Table? && role[t] == role[u]
    ensures t == u
  {
    assert RoleOk(mem, role, t) && RoleOk(mem, role, u);
  }

  // ---- the free list ----

  function ZeroPage(): Page {
    seq(WORDS, _ => 0)
  }

  /** A page just freed: filled with junk, its first word the link. */
  function FreedPage(next: nat): Page {
    seq(WORDS, k => if k == 0 then next else JUNK)
  }

  lemma PopFree(mem: map<nat, Page>, role: map<nat, Role>, head: nat, q: seq<nat>)
    requires mem.Keys == role.Keys && FreeList(mem, role, head, q) && q != []
    ensures head in mem && role[head] == Free
    ensures FreeList(mem, role[head := Held], mem[head][0], q[1..])
  {
    assert q[0] in q && LinkOk(mem, q, 0);
    var r, q1 := role[head := Held], q[1..];
    forall k | 0 <= k < |q1|
      ensures LinkOk(mem, q1, k)
    {
      assert LinkOk(mem, q, k + 1);
    }
    forall p
      ensures p in q1 <==> p in r && r[p] == Free
    {
      if p in q && p != head {
        var k :| 0 <= k < |q| && q[k] == p;
        assert q1[k - 1] == p;
      }
      if p in q1 {
        var k :| 0 <= k < |q1| && q1[k] == p;
        assert q[k + 1] == p && p in q;
      }
    }
  }

  lemma PushFree(mem: map<nat, Page>, role: map<nat, Role>, head: nat, q: seq<nat>, p: nat)
    requires mem.Keys == role.Keys && FreeList(mem, role, head, q) && p in role && role[p] != Free
    requires Pool(mem, role)
    ensures FreeList(mem[p := FreedPage(head)], role[p := Free], p, [p] + q)
  {
    assert p !in q;
    var m, q1 := mem[p := FreedPage(head)], [p] + q;
    assert LinkOk(m, q1, 0);
    forall k | 0 < k < |q1|
      ensures LinkOk(m, q1, k)
    {
      assert LinkOk(mem, q, k - 1) && q[k - 1] in q;
    }
  }

  /** The list does not depend on pages that are not free. */
  lemma FreeListFrame(mem: map<nat, Page>, role: map<nat, Role>, head: nat, q: seq<nat>, mem': map<nat, Page>,
                      role': map<nat, Role>)
    requires mem.Keys == role.Keys == mem'.Keys == role'.Keys && FreeList(mem, role, head, q)
    requires forall p :: p in role ==>
               (role[p] == Free <==> role'[p] == Free) && (role[p] == Free ==> mem'[p] == mem[p])
    ensures FreeList(mem', role', head, q)
  {
    forall k | 0 <= k < |q|
      ensures LinkOk(mem', q, k)
    {
      assert q[k] in q && LinkOk(mem, q, k);
    }
  }

  // ---- changing what pages are ----

  /** Pages that only changed between free and held, with no role elsewhere affected. */
  lemma RolesAfterSwap(mem: map<nat, Page>, role: map<nat, Role>, p: nat, r: Role, w: Page)
    requires Pool(mem, role) && RolesOk(mem, role) && p in role
    requires (role[p] == Free || role[p] == Held) && (r == Free || r == Held)
    ensures RolesOk(mem[p := w], role[p := r])
  {
    var m, o := mem[p := w], role[p := r];
    forall x | x in o
      ensures RoleOk(m, o, x)
    {
      RoleFrame(mem, role, m, o, x, p);
    }
  }

  /** The role of a page stands while what it depends on stands. */
  lemma RoleFrame(mem: map<nat, Page>, role: map<nat, Role>, m: map<nat, Page>, o: map<nat, Role>, x: nat, p: nat)
    requires Pool(mem, role) && RolesOk(mem, role) && m.Keys == o.Keys == mem.Keys && p in role && x in role
    requires forall y :: y in role && y != p ==> o[y] == role[y] && m[y] == mem[y]
    requires (role[p] == Free || role[p] == Held) && (o[p] == Free || o[p] == Held)
    ensures RoleOk(m, o, x)
  {
    assert RoleOk(mem, role, x);
    match role[x]
    case Dir =>
      forall i | 0 <= i < WORDS
        ensures PdeOk(m, o, x, i)
      {
        assert PdeOk(mem, role, x, i);
      }
    case Table(d, i) =>
      forall j | 0 <= j < WORDS
        ensures PteOk(m, o, x, d, i, j)
      {
        assert PteOk(mem, role, x, d, i, j);
      }
    case _ =>
  }

  /** A held, zeroed page becomes an empty directory. */
  lemma BecomeDir(mem: map<nat, Page>, role: map<nat, Role>, p: nat)
    requires Pool(mem, role) && RolesOk(mem, role) && p in role && role[p] == Held && mem[p] == ZeroPage()
    ensures RolesOk(mem, role[p := Dir])
  {
    var o := role[p := Dir];
    forall x | x in o
      ensures RoleOk(mem, o, x)
    {
      assert RoleOk(mem, role, x);
      match o[x]
      case Dir =>
        forall i | 0 <= i < WORDS
          ensures PdeOk(mem, o, x, i)
        {
          assert x != p ==> PdeOk(mem, role, x, i);
        }
      case Table(d, i) =>
        forall j | 0 <= j < WORDS
          ensures PteOk(mem, o, x, d, i, j)
        {
          assert PteOk(mem, role, x, d, i, j);
        }
      case _ =>
    }
  }

  /** A held, zeroed page becomes the table for entry `i` of directory `d`. */
  lemma BecomeTable(mem: map<nat, Page>, role: map<nat, Role>, d: nat, i: nat, t: nat)
    requires Pool(mem, role) && RolesOk(mem, role) && d in role && t in role && i < USERPDE
    requires role[d] == Dir && mem[d][i] == 0 && role[t] == Held && mem[t] == ZeroPage()
    ensures RolesOk(mem[d := mem[d][i := Entry(t)]], role[t := Table(d, i)])
  {
    var m, o := mem[d := mem[d][i := Entry(t)]], role[t := Table(d, i)];
    forall x | x in o
      ensures RoleOk(m, o, x)
    {
      assert RoleOk(mem, role, x);
      match o[x]
      case Dir =>
        forall k | 0 <= k < WORDS
          ensures PdeOk(m, o, x, k)
        {
          assert PdeOk(mem, role, x, k);
        }
      case Table(e, k) =>
        forall j | 0 <= j < WORDS
          ensures PteOk(m, o, x, e, k, j)
        {
          assert x != t ==> PteOk(mem, role, x, e, k, j);
        }
      case User(e, k, j) =>
        var u :| u in role && role[u] == Table(e, k) && mem[e][k] == Entry(u) && mem[u][j] == Entry(x);
        assert u != t && o[u] == Table(e, k) && m[e][k] == Entry(u) && m[u][j] == Entry(x);
      case _ =>
    }
  }

  /** A held page becomes the one that entry `j` of table `t` maps. */
  lemma BecomeUser(mem: map<nat, Page>, role: map<nat, Role>, t: nat, j: nat, u: nat)
    requires Pool(mem, role) && RolesOk(mem, role) && t in role && u in role && j < WORDS
    requires role[t].Table? && mem[t][j] == 0 && role[u] == Held
    ensures RolesOk(mem[t := mem[t][j := Entry(u)]], role[u := User(role[t].dir, role[t].pdx, j)])
  {
    var d, i := role[t].dir, role[t].pdx;
    var m, o := mem[t := mem[t][j := Entry(u)]], role[u := User(d, i, j)];
    assert RoleOk(mem, role, t);
    forall x | x in o
      ensures RoleOk(m, o, x)
    {
      assert RoleOk(mem, role, x);
      match o[x]
      case Dir =>
        forall k | 0 <= k < WORDS
          ensures PdeOk(m, o, x, k)
        {
          assert PdeOk(mem, role, x, k);
        }
      case Table(e, k) =>
        forall y | 0 <= y < WORDS
          ensures PteOk(m, o, x, e, k, y)
        {
          assert PteOk(mem, role, x, e, k, y);
        }
      case User(e, k, y) =>
        if x == u {
          assert o[t] == Table(d, i) && m[d][i] == Entry(t) && m[t][j] == Entry(u);
        } else {
          var v :| v in role && role[v] == Table(e, k) && mem[e][k] == Entry(v) && mem[v][y] == Entry(x);
          assert o[v] == Table(e, k) && m[e][k] == Entry(v) && m[v][y] == Entry(x);
        }
      case _ =>
    }
  }

  /** Unmapping: entry `j` of table `t` is cleared and its page, with any contents, becomes free. */
  lemma Unmap(mem: map<nat, Page>, role: map<nat, Role>, t: nat, j: nat, u: nat, w: Page)
    requires Pool(mem, role) && RolesOk(mem, role) && t in role && u in role && j < WORDS
    requires role[t].Table? && mem[t][j] == Entry(u)
    ensures role[u] == User(role[t].dir, role[t].pdx, j)
    ensures var m := mem[u := w];
            RolesOk(m[t := m[t][j := 0]], role[u := Free])
  {
    var d, i := role[t].dir, role[t].pdx;
    assert RoleOk(mem, role, t) && PteOk(mem, role, t, d, i, j);
    var m, o := mem[u := w][t := mem[t][j := 0]], role[u := Free];
    forall x | x in o
      ensures RoleOk(m, o, x)
    {
      assert RoleOk(mem, role, x);
      match o[x]
      case Dir =>
        forall k | 0 <= k < WORDS
          ensures PdeOk(m, o, x, k)
        {
          assert PdeOk(mem, role, x, k);
        }
      case Table(e, k) =>
        forall y | 0 <= y < WORDS
          ensures PteOk(m, o, x, e, k, y)
        {
          assert PteOk(mem, role, x, e, k, y);
        }
      case User(e, k, y) =>
        var v :| v in role && role[v] == Table(e, k) && mem[e][k] == Entry(v) && mem[v][y] == Entry(x);
        assert o[v] == Table(e, k) && m[e][k] == Entry(v) && m[v][y] == Entry(x);
      case _ =>
    }
  }

  // ---- what a directory maps ----

  /** The table for directory entry `i`, or 0. */
  function TableOf(mem: map<nat, Page>, d: nat, i: nat): nat
    requires d in mem && i < WORDS
  {
    if IsValid(mem[d][i]) then PteAddr(mem[d][i]) else 0
  }

  /** The page that directory `d` maps at virtual page `n`, or 0. */
  function MappedAt(mem: map<nat, Page>, d: nat, n: nat): nat
    requires d in mem && n < ALLPAGES
  {
    var t := TableOf(mem, d, n / WORDS);
    if t in mem && IsValid(mem[t][n % WORDS]) then PteAddr(mem[t][n % WORDS]) else 0
  }

  /** The entry word that directory `d` has for virtual page `n`, 0 if there is no table for it. */
  function WordAt(mem: map<nat, Page>, d: nat, n: nat): nat
    requires d in mem && n < ALLPAGES
  {
    var t := TableOf(mem, d, n / WORDS);
    if t in mem then mem[t][n % WORDS] else 0
  }

  /** An entry word is 0 exactly when nothing is mapped, and else splits into the page and its permission bits. */
  lemma WordFacts(mem: map<nat, Page>, role: map<nat, Role>, d: nat, n: nat)
    requires Pool(mem, role) && RolesOk(mem, role) && d in role && role[d] == Dir && n < ALLPAGES
    ensures var w, pa := WordAt(mem, d, n), MappedAt(mem, d, n);
            && (w == 0 <==> pa == 0)
            && (w != 0 ==> IsValid(w) && PteAddr(w) == pa && PteAddr(w) + PtePerm(w) == Entry(pa))
  {
    hide RolesOk;
    var t := TableOf(mem, d, n / WORDS);
    TableFacts(mem, role, d, n / WORDS);
    EntryFields(0);
    assert 0 !in role;
    if t != 0 {
      PteFacts(mem, role, t, n % WORDS);
      if mem[t][n % WORDS] != 0 {
        EntryFields(PteAddr(mem[t][n % WORDS]));
      }
    }
  }

  /** Reading an entry of a directory: empty and no table, or the table its role promises. */
  lemma TableFacts(mem: map<nat, Page>, role: map<nat, Role>, d: nat, i: nat)
    requires Pool(mem, role) && RolesOk(mem, role) && d in role && role[d] == Dir && i < WORDS
    ensures var t := TableOf(mem, d, i);
            if mem[d][i] == 0 then t == 0 && !IsValid(mem[d][i])
            else t in role && t != 0 && role[t] == Table(d, i) && mem[d][i] == Entry(t) && IsValid(mem[d][i])
  {
    assert RoleOk(mem, role, d) && PdeOk(mem, role, d, i);
    if mem[d][i] != 0 {
      var t :| t in role && mem[d][i] == Entry(t) && role[t] == Table(d, i);
      EntryFields(t);
    }
  }

  /** Reading an entry of a table: empty, or the page its role promises. */
  lemma PteFacts(mem: map<nat, Page>, role: map<nat, Role>, t: nat, j: nat)
    requires Pool(mem, role) && RolesOk(mem, role) && t in role && role[t].Table? && j < WORDS
    ensures var w := mem[t][j];
            if w == 0 then !IsValid(w)
            else IsValid(w) && PteAddr(w) in role && PteAddr(w) != 0 && w == Entry(PteAddr(w))
                 && role[PteAddr(w)] == User(role[t].dir, role[t].pdx, j)
  {
    assert RoleOk(mem, role, t) && PteOk(mem, role, t, role[t].dir, role[t].pdx, j);
    if mem[t][j] != 0 {
      var u :| u in role && mem[t][j] == Entry(u) && role[u] == User(role[t].dir, role[t].pdx, j);
      EntryFields(u);
    }
  }

  /** A directory maps a page at `n` exactly when that is the page's role. */
  lemma MappedIsRole(mem: map<nat, Page>, role: map<nat, Role>, d: nat, n: nat, u: nat)
    requires Pool(mem, role) && RolesOk(mem, role) && d in role && role[d] == Dir && n < USERPAGES && u != 0
    ensures MappedAt(mem, d, n) == u <==> u in role && role[u] == User(d, n / WORDS, n % WORDS)
  {
    var i, j := n / WORDS, n % WORDS;
    TableFacts(mem, role, d, i);
    var t := TableOf(mem, d, i);
    if mem[d][i] != 0 {
      PteFacts(mem, role, t, j);
    }
    if u in role && role[u] == User(d, i, j) {
      assert RoleOk(mem, role, u);
      var v :| v in role && role[v] == Table(d, i) && mem[d][i] == Entry(v) && mem[v][j] == Entry(u);
      EntryFields(u);
      assert v == t;
    }
  }

  /** The addresses of the whole pages from `first` up to `top`. */
  function PagesIn(first: nat, top: nat): (s: set<nat>)
    ensures forall p: nat :: p in s ==> first <= p && p + PGSIZE <= top
    decreases top - first
  {
    if first + PGSIZE > top then {} else {first} + PagesIn(first + PGSIZE, top)
  }

  lemma PagesStep(p: nat, top: nat)
    requires p + PGSIZE <= top
    ensures PagesIn(p, top) == {p} + PagesIn(p + PGSIZE, top) && p !in PagesIn(p + PGSIZE, top)
  {
  }

  lemma PagesEnd(p: nat, top: nat)
    requires p + PGSIZE > top
    ensures PagesIn(p, top) == {}
  {
  }

  lemma {:induction false} PagesAligned(first: nat, top: nat)
    requires first % PGSIZE == 0
    ensures forall p: nat :: p in PagesIn(first, top) <==> first <= p && p + PGSIZE <= top && p % PGSIZE == 0
    decreases top - first
  {
    if first + PGSIZE <= top {
      PagesAligned(first + PGSIZE, top);
      forall p: nat | first < p < first + PGSIZE
        ensures p % PGSIZE != 0
      {
        if p % PGSIZE == 0 {
          NextPage(first, p);
        }
      }
    }
  }

  lemma NextPage(p: nat, x: nat)
    requires p % PGSIZE == 0 && x % PGSIZE == 0 && p < x
    ensures p + PGSIZE <= x
  {
    assert p == PGSIZE * (p / PGSIZE) && x == PGSIZE * (x / PGSIZE);
  }

  lemma NothingFree(mem: map<nat, Page>, role: map<nat, Role>)
    requires Pool(mem, role) && forall p :: p in role ==> role[p] == Held
    ensures Inv(mem, role, 0, [])
  {
  }

  // ---- releasing user pages ----

  /** Role of a page mapped by `d` somewhere in pages first..end-1. */
  predicate MappedIn(r: Role, d: nat, first: nat, end: nat) {
    r.User? && r.dir == d && first <= r.pdx * WORDS + r.ptx < end
  }

  /** The user pages of `d` in first..end-1 have gone to the free list; everything else is as it was. */
  ghost predicate Shrunk(mem: map<nat, Page>, role: map<nat, Role>, m: map<nat, Page>, o: map<nat, Role>, d: nat,
                         first: nat, end: nat) {
    && mem.Keys == role.Keys == m.Keys == o.Keys
    && (forall p :: p in role ==> o[p] == if MappedIn(role[p], d, first, end) then Free else role[p])
    && (forall p :: p in role && o[p] != Free && !(role[p].Table? && role[p].dir == d) ==> m[p] == mem[p])
  }

  lemma ShrunkOne(mem: map<nat, Page>, role: map<nat, Role>, m: map<nat, Page>, o: map<nat, Role>, d: nat, first: nat,
                  n: nat, t: nat, u: nat, w: Page)
    requires Shrunk(mem, role, m, o, d, first, n) && first <= n && t in role && u in role
    requires o[t].Table? && o[t].dir == d && o[u] == User(d, n / WORDS, n % WORDS)
    requires forall p :: p in o && o[p] == User(d, n / WORDS, n % WORDS) ==> p == u
    requires forall p :: p in role && role[p].User? && role[p].dir == d ==> role[p].ptx < WORDS
    ensures var m1 := m[u := w];
            Shrunk(mem, role, m1[t := m1[t][n % WORDS := 0]], o[u := Free], d, first, n + 1)
  {
    var m1 := m[u := w];
    var m2, o2 := m1[t := m1[t][n % WORDS := 0]], o[u := Free];
    forall p | p in role
      ensures o2[p] == if MappedIn(role[p], d, first, n + 1) then Free else role[p]
    {
      if role[p].User? && role[p].dir == d && role[p].pdx * WORDS + role[p].ptx == n {
        assert role[p].pdx == n / WORDS && role[p].ptx == n % WORDS;
      }
    }
  }

  lemma ShrunkNone(mem: map<nat, Page>, role: map<nat, Role>, m: map<nat, Page>, o: map<nat, Role>, d: nat, first: nat,
                   n: nat)
    requires Shrunk(mem, role, m, o, d, first, n) && first <= n
    requires forall p :: p in o ==> o[p] != User(d, n / WORDS, n % WORDS)
    requires forall p :: p in role && role[p].User? && role[p].dir == d ==> role[p].ptx < WORDS
    ensures Shrunk(mem, role, m, o, d, first, n + 1)
  {
    forall p | p in role && role[p].User? && role[p].dir == d
      ensures role[p].pdx * WORDS + role[p].ptx == n ==> role[p].pdx == n / WORDS && role[p].ptx == n % WORDS
    {
    }
  }

  /** A page mapped at `n` is mapped nowhere else, and pages are mapped within their tables. */
  lemma UserFacts(mem: map<nat, Page>, role: map<nat, Role>, d: nat, n: nat)
    requires Pool(mem, role) && RolesOk(mem, role) && d in role && role[d] == Dir && n < USERPAGES
    ensures MappedAt(mem, d, n) == 0 ==> forall p :: p in role ==> role[p] != User(d, n / WORDS, n % WORDS)
    ensures MappedAt(mem, d, n) != 0 ==>
              && MappedAt(mem, d, n) in role && role[MappedAt(mem, d, n)] == User(d, n / WORDS, n % WORDS)
              && forall p :: p in role && role[p] == User(d, n / WORDS, n % WORDS) ==> p == MappedAt(mem, d, n)
    ensures forall p :: p in role && role[p].User? ==> role[p].ptx < WORDS && role[p].pdx < USERPDE
  {
    forall p | p in role && role[p] == User(d, n / WORDS, n % WORDS)
      ensures MappedAt(mem, d, n) == p && p != 0
    {
      MappedIsRole(mem, role, d, n, p);
    }
    if MappedAt(mem, d, n) != 0 {
      MappedIsRole(mem, role, d, n, MappedAt(mem, d, n));
    }
    forall p | p in role && role[p].User?
      ensures role[p].ptx < WORDS && role[p].pdx < USERPDE
    {
      assert RoleOk(mem, role, p);
    }
  }

  // ---- adding user pages ----

  datatype Outcome = Done | NoMemory | LastLost | LostAndNoMemory

  /** Directory entries that have a table. */
  ghost function Tables(mem: map<nat, Page>, d: nat): set<nat>
    requires d in mem
  {
    set i | 0 <= i < WORDS && mem[d][i] != 0
  }

  /** How mapping pages n..last-1 will go with `f` free pages, given the tables there are: a page is lost when the
      last free page was taken for it and a table is missing. */
  ghost function Predict(f: nat, tables: set<nat>, n: nat, last: nat): Outcome
    decreases last - n
  {
    if n >= last then Done
    else if f == 0 then NoMemory
    else if n / WORDS in tables then Predict(f - 1, tables, n + 1, last)
    else if f == 1 then (if n + 1 == last then LastLost else LostAndNoMemory)
    else Predict(f - 2, tables + {n / WORDS}, n + 1, last)
  }

  /** How mapping the first page goes, and what is left for the others. */
  lemma PredictStep(f: nat, tables: set<nat>, n: nat, last: nat)
    requires n < last
    ensures Predict(f, tables, n, last) ==
            if f == 0 then NoMemory
            else if n / WORDS !in tables && f == 1 then (if n + 1 == last then LastLost else LostAndNoMemory)
            else Predict(f - if n / WORDS in tables then 1 else 2, tables + {n / WORDS}, n + 1, last)
  {
    assert n / WORDS in tables ==> tables + {n / WORDS} == tables;
  }

  lemma PredictEnd(f: nat, tables: set<nat>, n: nat, last: nat)
    requires n >= last
    ensures Predict(f, tables, n, last) == Done
  {
  }

  /** Directory entries that have no table and need one for pages n..last-1. */
  ghost function Missing(tables: set<nat>, n: nat, last: nat): set<nat> {
    if n >= last then {} else set i | n / WORDS <= i <= (last - 1) / WORDS && i !in tables
  }

  /** Free pages that mapping pages n..last-1 takes: one each, and one for every table that is missing. */
  ghost function Need(tables: set<nat>, n: nat, last: nat): nat {
    (if n >= last then 0 else last - n) + |Missing(tables, n, last)|
  }

  /** Mapping pages from `n` on takes the last of `f` free pages for page `k`, which needs a new table. */
  ghost predicate LosesAt(f: nat, tables: set<nat>, n: nat, k: nat) {
    n <= k && k / WORDS !in tables && (k == n || k % WORDS == 0) && f == Need(tables, n, k) + 1
  }

  /** Some page of n..last-1 is taken from the free list and cannot be mapped. */
  ghost predicate Loses(f: nat, tables: set<nat>, n: nat, last: nat) {
    exists k: nat :: k < last && LosesAt(f, tables, n, k)
  }

  /** What the first page takes, and what is left for the others. */
  lemma NeedStep(tables: set<nat>, n: nat, last: nat)
    requires n < last
    ensures Need(tables, n, last) ==
            (if n / WORDS in tables then 1 else 2) + Need(tables + {n / WORDS}, n + 1, last)
  {
    var rest := Missing(tables + {n / WORDS}, n + 1, last);
    forall i | i in Missing(tables, n, last)
      ensures i == n / WORDS || i in rest
    {
      if i != n / WORDS {
        assert (n + 1) / WORDS <= i && n + 1 < last;
      }
    }
    assert Missing(tables, n, last) == rest + if n / WORDS in tables then {} else {n / WORDS};
  }

  lemma LosesStep(f: nat, tables: set<nat>, n: nat, k: nat)
    requires n < k
    ensures var cost := if n / WORDS in tables then 1 else 2;
            LosesAt(f, tables, n, k) <==> f >= cost && LosesAt(f - cost, tables + {n / WORDS}, n + 1, k)
  {
    NeedStep(tables, n, k);
    if k % WORDS == 0 {
      assert k / WORDS != n / WORDS;
    } else if k == n + 1 {
      assert k / WORDS == n / WORDS;
    }
  }

  /** When the mapping succeeds: exactly when the pages suffice, tables included. */
  lemma {:induction false} SucceedsWhen(f: nat, tables: set<nat>, n: nat, last: nat)
    ensures Predict(f, tables, n, last).Done? <==> f >= Need(tables, n, last)
    decreases last - n
  {
    if n < last {
      NeedStep(tables, n, last);
      var cost := if n / WORDS in tables then 1 else 2;
      if f >= cost {
        assert n / WORDS in tables ==> tables + {n / WORDS} == tables;
        SucceedsWhen(f - cost, tables + {n / WORDS}, n + 1, last);
      }
    }
  }

  /** When a page is lost, and whether it is the last one: exactly when the pages run out where a table is missing. */
  lemma {:induction false} LosesWhen(f: nat, tables: set<nat>, n: nat, last: nat)
    ensures var out := Predict(f, tables, n, last);
            && (out.LastLost? <==> n < last && LosesAt(f, tables, n, last - 1))
            && (out.LostAndNoMemory? <==> n < last && Loses(f, tables, n, last - 1))
    decreases last - n
  {
    if n < last {
      LosesFirst(f, tables, n, last);
      var cost := if n / WORDS in tables then 1 else 2;
      if f >= cost {
        assert n / WORDS in tables ==> tables + {n / WORDS} == tables;
        LosesWhen(f - cost, tables + {n / WORDS}, n + 1, last);
      }
    }
  }

  /** The last page of n..last-1 is the one lost. */
  ghost predicate LosesLast(f: nat, tables: set<nat>, n: nat, last: nat) {
    n < last && LosesAt(f, tables, n, last - 1)
  }

  /** How mapping pages n..last-1 goes, from the free pages and the missing tables. */
  lemma OutcomeWhen(f: nat, tables: set<nat>, n: nat, last: nat)
    ensures var out := Predict(f, tables, n, last);
            && (out.Done? <==> f >= Need(tables, n, last))
            && (out.LastLost? <==> LosesLast(f, tables, n, last))
            && (out.LastLost? || out.LostAndNoMemory? <==> Loses(f, tables, n, last))
  {
    SucceedsWhen(f, tables, n, last);
    LosesWhen(f, tables, n, last);
    if n < last && Loses(f, tables, n, last) {
      var k: nat :| k < last && LosesAt(f, tables, n, k);
      assert k < last - 1 ==> Loses(f, tables, n, last - 1);
    }
    if n < last && Loses(f, tables, n, last - 1) {
      var k: nat :| k < last - 1 && LosesAt(f, tables, n, k);
      assert k < last;
    }
  }

  lemma LosesFirst(f: nat, tables: set<nat>, n: nat, last: nat)
    requires n < last
    ensures var cost := if n / WORDS in tables then 1 else 2;
            var t := tables + {n / WORDS};
            && (LosesAt(f, tables, n, n) <==> f == 1 && cost == 2)
            && (Loses(f, tables, n, last - 1) <==>
                  || (n < last - 1 && LosesAt(f, tables, n, n))
                  || (f >= cost && Loses(f - cost, t, n + 1, last - 1)))
            && (n < last - 1 ==>
                  (LosesAt(f, tables, n, last - 1) <==> f >= cost && LosesAt(f - cost, t, n + 1, last - 1)))
  {
    var cost := if n / WORDS in tables then 1 else 2;
    forall k: nat | n < k < last
      ensures LosesAt(f, tables, n, k) <==> f >= cost && LosesAt(f - cost, tables + {n / WORDS}, n + 1, k)
    {
      LosesStep(f, tables, n, k);
    }
    assert Need(tables, n, n) == 0;
    if Loses(f, tables, n, last - 1) {
      var k: nat :| k < last - 1 && LosesAt(f, tables, n, k);
      assert k == n || LosesAt(f - cost, tables + {n / WORDS}, n + 1, k);
    }
    if f >= cost && Loses(f - cost, tables + {n / WORDS}, n + 1, last - 1) {
      var k: nat :| k < last - 1 && LosesAt(f - cost, tables + {n / WORDS}, n + 1, k);
      assert LosesAt(f, tables, n, k);
    }
  }

  ghost predicate IsMapped(o: map<nat, Role>, d: nat, n: nat) {
    exists p :: p in o && o[p] == User(d, n / WORDS, n % WORDS)
  }

  /** Directory `src` maps the pages below `h` and, unless that is `end`, not page `h`. */
  ghost predicate HoleAt(o: map<nat, Role>, src: nat, end: nat, h: nat) {
    && h <= end && (h < end ==> !IsMapped(o, src, h))
    && forall n: nat :: n < h ==> IsMapped(o, src, n)
  }

  lemma {:induction false} FindHole(o: map<nat, Role>, src: nat, end: nat) returns (h: nat)
    ensures HoleAt(o, src, end, h)
  {
    h := 0;
    if end > 0 {
      h := FindHole(o, src, end - 1);
      if h == end - 1 && IsMapped(o, src, h) {
        h := end;
      }
    }
  }

  /** Free pages have become user pages of `d` in first..end-1, filled as `fill` says, tables of `d`, or the lost
      page; all else is as it was. */
  ghost predicate Grew(mem: map<nat, Page>, role: map<nat, Role>, m: map<nat, Page>, o: map<nat, Role>, d: nat,
                       first: nat, end: nat, lost: Option<nat>, fill: nat -> Page)
  {
    && mem.Keys == role.Keys == m.Keys == o.Keys
    && (forall p :: p in role && role[p] != Free ==> o[p] == role[p])
    && (forall p :: p in role && role[p] != Free && p != d && !(role[p].Table? && role[p].dir == d) ==> m[p] == mem[p])
    && (forall p :: p in role && role[p] == Free ==>
          || o[p] == Free || (o[p].Table? && o[p].dir == d)
          || (MappedIn(o[p], d, first, end) && m[p] == fill(o[p].pdx * WORDS + o[p].ptx))
          || (lost == Some(p) && o[p] == Held))
    && (lost.Some? ==> lost.value in role && role[lost.value] == Free && o[lost.value] == Held)
  }

  /** New memory of a process is zero. */
  ghost function ZeroFill(): nat -> Page {
    _ => ZeroPage()
  }

  /** A copy has the contents of the page that `src` maps there. */
  ghost function CopyFill(mem: map<nat, Page>, src: nat): nat -> Page {
    (n: nat) => PageOf(mem, src, n)
  }

  /** Contents of the page that `src` maps at `n`. */
  function PageOf(mem: map<nat, Page>, src: nat, n: nat): Page {
    if src in mem && n < USERPAGES && MappedAt(mem, src, n) in mem then mem[MappedAt(mem, src, n)] else ZeroPage()
  }

  /** Every page of first..end-1 is mapped, but for the last when it was lost. */
  ghost predicate AllMapped(o: map<nat, Role>, d: nat, first: nat, end: nat, lost: Option<nat>) {
    forall n: nat {:trigger IsMapped(o, d, n)} ::
      first <= n < end ==> (IsMapped(o, d, n) <==> lost.None? || n + 1 < end)
  }

  lemma GrewMore(mem: map<nat, Page>, role: map<nat, Role>, m: map<nat, Page>, o: map<nat, Role>,
                 m': map<nat, Page>, o': map<nat, Role>, d: nat, first: nat, n: nat, lost: Option<nat>,
                 fill: nat -> Page)
    requires Grew(mem, role, m, o, d, first, n, None, fill) && Grew(m, o, m', o', d, n, n + 1, lost, fill) && first <= n
    requires d in role && role[d] == Dir
    ensures Grew(mem, role, m', o', d, first, n + 1, lost, fill)
  {
  }

  /** Page `u` is mapped at `n`, through the table that is there or a new one in the first free page. */
  ghost predicate MapStep(mem: map<nat, Page>, role: map<nat, Role>, q: seq<nat>,
                          m: map<nat, Page>, o: map<nat, Role>, r: seq<nat>, d: nat, n: nat, u: nat)
  {
    && d in mem && n / WORDS < WORDS && mem.Keys == role.Keys
    && var i, j := n / WORDS, n % WORDS;
       if mem[d][i] != 0
       then var t := TableOf(mem, d, i);
            t in mem && m == mem[t := mem[t][j := Entry(u)]] && o == role[u := User(d, i, j)] && r == q
       else q != [] && var t := q[0];
            && t in mem && t != d && role[t] == Free && r == q[1..]
            && m == mem[d := mem[d][i := Entry(t)]][t := ZeroPage()[j := Entry(u)]]
            && o == role[t := Table(d, i)][u := User(d, i, j)]
  }

  /** The entry for a page that is not mapped is empty, in a table that was there or is new. */
  lemma EmptyEntry(mem: map<nat, Page>, role: map<nat, Role>, m: map<nat, Page>, o: map<nat, Role>,
                   t: nat, d: nat, n: nat)
    requires Pool(mem, role) && Pool(m, o) && RolesOk(m, o) && d in role && d in o && n < USERPAGES
    requires MappedAt(mem, d, n) == 0 && t in o && o[t] == Table(d, n / WORDS) && m[d][n / WORDS] == Entry(t)
    requires if mem[d][n / WORDS] != 0 then m == mem else m[t] == ZeroPage()
    ensures m[t][n % WORDS] == 0
    ensures mem[d][n / WORDS] != 0 ==> TableOf(mem, d, n / WORDS) == t
  {
    hide RolesOk;
    EntryFields(t);
    PteFacts(m, o, t, n % WORDS);
  }

  /** Storing a held page in an empty entry of a table. */
  lemma PutEntry(mem: map<nat, Page>, role: map<nat, Role>, head: nat, q: seq<nat>, t: nat, j: nat, u: nat)
    requires Inv(mem, role, head, q) && t in role && u in role && j < WORDS
    requires role[t].Table? && mem[t][j] == 0 && role[u] == Held
    ensures Inv(mem[t := mem[t][j := Entry(u)]], role[u := User(role[t].dir, role[t].pdx, j)], head, q)
  {
    hide RolesOk, FreeList;
    BecomeUser(mem, role, t, j, u);
    FreeListFrame(mem, role, head, q, mem[t := mem[t][j := Entry(u)]], role[u := User(role[t].dir, role[t].pdx, j)]);
  }

  /** Taking the first free page with contents `w` and mapping it at `n`. */
  lemma AllocMapped(mem: map<nat, Page>, role: map<nat, Role>, q: seq<nat>, w: Page, m: map<nat, Page>,
                    o: map<nat, Role>, r: seq<nat>, d: nat, n: nat, u: nat, fill: nat -> Page)
    requires Pool(mem, role) && RolesOk(mem, role) && d in role && role[d] == Dir && n < USERPAGES
    requires q != [] && u == q[0] && u in role && role[u] == Free && fill(n) == w
    requires MapStep(mem[u := w], role[u := Held], q[1..], m, o, r, d, n, u)
    ensures Grew(mem, role, m, o, d, n, n + 1, None, fill) && IsMapped(o, d, n) && d in o && o[d] == Dir
    ensures d in m && Tables(m, d) == Tables(mem, d) + {n / WORDS}
    ensures |r| == |q| - if n / WORDS in Tables(mem, d) then 1 else 2
  {
    hide RolesOk, Grew, IsMapped, Tables;
    var i, j := n / WORDS, n % WORDS;
    TableFacts(mem, role, d, i);
    TableSlots(mem, m, d, i);
    var t := if mem[d][i] != 0 then TableOf(mem, d, i) else q[1];
    assert mem[d][i] != 0 ==> TableOf(mem[u := w], d, i) == t && role[t] == Table(d, i);
    MappedGrew(mem, role, m, o, d, n, u, t, fill);
  }

  lemma TableSlots(mem: map<nat, Page>, m: map<nat, Page>, d: nat, i: nat)
    requires d in mem && d in m && i < WORDS && m[d][i] != 0
    requires forall k :: 0 <= k < WORDS && k != i ==> m[d][k] == mem[d][k]
    ensures Tables(m, d) == Tables(mem, d) + {i}
    ensures i in Tables(mem, d) <==> mem[d][i] != 0
  {
  }

  /** Free page `u` is mapped at `n`, through table `t`, which is there or was free. */
  lemma MappedGrew(mem: map<nat, Page>, role: map<nat, Role>, m: map<nat, Page>, o: map<nat, Role>,
                   d: nat, n: nat, u: nat, t: nat, fill: nat -> Page)
    requires mem.Keys == role.Keys == m.Keys == o.Keys && d in role && role[d] == Dir && n < USERPAGES
    requires u in role && role[u] == Free && m[u] == fill(n)
    requires t in role && t != u && t != d && (role[t] == Free || role[t] == Table(d, n / WORDS))
    requires o == role[t := Table(d, n / WORDS)][u := User(d, n / WORDS, n % WORDS)]
    requires forall p :: p in role && p != d && p != t && p != u ==> m[p] == mem[p]
    ensures Grew(mem, role, m, o, d, n, n + 1, None, fill) && IsMapped(o, d, n)
  {
    assert o[u] == User(d, n / WORDS, n % WORDS);
    assert n / WORDS * WORDS + n % WORDS == n;
  }

  /** Taking a free page maps nothing. */
  lemma StillUnmappedAt(mem: map<nat, Page>, role: map<nat, Role>, m: map<nat, Page>, o: map<nat, Role>,
                        d: nat, n: nat, u: nat)
    requires Pool(m, o) && RolesOk(m, o) && d in o && o[d] == Dir && n < USERPAGES
    requires u in role && o == role[u := Held] && !IsMapped(role, d, n)
    ensures MappedAt(m, d, n) == 0 && !IsMapped(o, d, n)
  {
    assert forall p :: p in o ==> o[p] != User(d, n / WORDS, n % WORDS) by {
      assert forall p :: p in role ==> role[p] != User(d, n / WORDS, n % WORDS);
    }
    UserFacts(m, o, d, n);
  }

  /** Taking free page `u` and failing to map it. */
  lemma LostGrew(mem: map<nat, Page>, role: map<nat, Role>, m: map<nat, Page>, o: map<nat, Role>, d: nat, n: nat,
                 u: nat, fill: nat -> Page)
    requires mem.Keys == role.Keys && u in role && role[u] == Free
    requires u in m && m == mem[u := m[u]] && o == role[u := Held]
    ensures Grew(mem, role, m, o, d, n, n + 1, Some(u), fill)
  {
  }

  lemma AllMappedMore(mem: map<nat, Page>, role: map<nat, Role>, m: map<nat, Page>, o: map<nat, Role>, d: nat,
                      first: nat, n: nat, lost: Option<nat>, fill: nat -> Page)
    requires Grew(mem, role, m, o, d, n, n + 1, lost, fill) && AllMapped(role, d, first, n, None) && first <= n
    requires IsMapped(o, d, n) <==> lost.None?
    ensures AllMapped(o, d, first, n + 1, lost)
  {
    forall x: nat | first <= x < n
      ensures IsMapped(o, d, x)
    {
      assert IsMapped(role, d, x);
    }
  }

  /** Giving back what was just mapped leaves only new tables and the lost page. */
  lemma GrewShrunk(mem: map<nat, Page>, role: map<nat, Role>, m: map<nat, Page>, o: map<nat, Role>,
                   m': map<nat, Page>, o': map<nat, Role>, d: nat, first: nat, n: nat, end: nat, lost: Option<nat>,
                   fill: nat -> Page)
    requires Grew(mem, role, m, o, d, first, n, lost, fill) && Shrunk(m, o, m', o', d, first, end) && first <= n <= end
    requires forall p :: p in role ==> !MappedIn(role[p], d, first, end)
    requires d in role && role[d] == Dir
    ensures Grew(mem, role, m', o', d, first, first, lost, fill)
  {
  }

  lemma NoneMapped(mem: map<nat, Page>, role: map<nat, Role>, d: nat, first: nat, end: nat)
    requires Pool(mem, role) && RolesOk(mem, role)
    requires forall n: nat :: first <= n < end ==> !IsMapped(role, d, n)
    ensures forall p :: p in role ==> !MappedIn(role[p], d, first, end)
  {
    forall p | p in role && role[p].User? && role[p].dir == d
      ensures !(first <= role[p].pdx * WORDS + role[p].ptx < end)
    {
      assert RoleOk(mem, role, p);
      var n := role[p].pdx * WORDS + role[p].ptx;
      assert n / WORDS == role[p].pdx && n % WORDS == role[p].ptx;
      assert IsMapped(role, d, n);
    }
  }

  // ---- what growing and shrinking mean for the mappings ----

  /** A directory other than `d` maps the same pages with the same contents. */
  lemma OtherDirSame(mem: map<nat, Page>, role: map<nat, Role>, m: map<nat, Page>, o: map<nat, Role>, d: nat, e: nat,
                     n: nat)
    requires Pool(mem, role) && RolesOk(mem, role) && m.Keys == o.Keys == role.Keys
    requires forall p :: p in role && role[p] != Free && p != d && !OwnedBy(role[p], p, d) ==> m[p] == mem[p]
    requires e in role && role[e] == Dir && e != d && n < USERPAGES
    requires d in role && !role[d].Table? && !role[d].User?
    ensures MappedAt(m, e, n) == MappedAt(mem, e, n)
    ensures MappedAt(mem, e, n) != 0 ==>
              MappedAt(mem, e, n) in role && m[MappedAt(mem, e, n)] == mem[MappedAt(mem, e, n)]
  {
    TableFacts(mem, role, e, n / WORDS);
    UserFacts(mem, role, e, n);
    var t := TableOf(mem, e, n / WORDS);
    assert t != 0 ==> t in role && !OwnedBy(role[t], t, d);
  }

  /** After growing: the new pages are mapped where they should be, were free, and hold what they should; the rest
      stands. */
  lemma GrewMeans(mem: map<nat, Page>, role: map<nat, Role>, m: map<nat, Page>, o: map<nat, Role>, d: nat, first: nat,
                  end: nat, lost: Option<nat>, fill: nat -> Page, n: nat)
    requires Pool(mem, role) && RolesOk(mem, role) && Pool(m, o) && RolesOk(m, o)
    requires Grew(mem, role, m, o, d, first, end, lost, fill) && d in role && role[d] == Dir && n < USERPAGES
    requires first <= n < end ==> !IsMapped(role, d, n)
    ensures !(first <= n < end) ==> MappedAt(m, d, n) == MappedAt(mem, d, n)
    ensures first <= n < end && IsMapped(o, d, n) ==>
              var p := MappedAt(m, d, n); p in role && role[p] == Free && m[p] == fill(n)
  {
    UserFacts(mem, role, d, n);
    UserFacts(m, o, d, n);
    assert n / WORDS * WORDS + n % WORDS == n;
    var x, y := MappedAt(mem, d, n), MappedAt(m, d, n);
    if x != 0 {
      assert o[x] == User(d, n / WORDS, n % WORDS);
    } else if y != 0 {
      assert role[y] == Free;
    }
  }

  /** After shrinking: nothing is mapped in the range, and the rest stands. */
  lemma ShrunkMeans(mem: map<nat, Page>, role: map<nat, Role>, m: map<nat, Page>, o: map<nat, Role>, d: nat,
                    first: nat, end: nat, n: nat)
    requires Pool(mem, role) && RolesOk(mem, role) && Pool(m, o) && RolesOk(m, o)
    requires Shrunk(mem, role, m, o, d, first, end) && d in role && role[d] == Dir && n < USERPAGES
    ensures MappedAt(m, d, n) == if first <= n < end then 0 else MappedAt(mem, d, n)
  {
    UserFacts(mem, role, d, n);
    UserFacts(m, o, d, n);
    assert n / WORDS * WORDS + n % WORDS == n;
    var x, y := MappedAt(mem, d, n), MappedAt(m, d, n);
    if y != 0 {
      assert o[y] == role[y];
    }
  }

  // ---- copying ----

  lemma FreshDirEmpty(mem: map<nat, Page>, role: map<nat, Role>, d: nat)
    requires Pool(mem, role) && RolesOk(mem, role) && d in role && mem[d] == ZeroPage()
    ensures forall p :: p in role && p != d ==> !OwnedBy(role[p], p, d)
    ensures forall n: nat :: !IsMapped(role, d, n)
    ensures role[d] == Dir ==> Tables(mem, d) == {}
  {
    forall p | p in role && p != d
      ensures !OwnedBy(role[p], p, d)
    {
      assert RoleOk(mem, role, p);
    }
    assert RoleOk(mem, role, d);
    forall n: nat
      ensures !IsMapped(role, d, n)
    {
      assert forall p :: p in role ==> role[p] != User(d, n / WORDS, n % WORDS);
    }
  }

  /** `d` is a copy of the first `end` pages of `src`, made of pages that were free; no page in use changed. */
  ghost predicate CopyOf(mem: map<nat, Page>, role: map<nat, Role>, m: map<nat, Page>, o: map<nat, Role>, src: nat,
                         d: nat, end: nat) {
    && mem.Keys == role.Keys == m.Keys == o.Keys
    && (forall p :: p in role && role[p] != Free ==> o[p] == role[p] && m[p] == mem[p])
    && src in role && d in role && role[d] == Free && o[d] == Dir
    && (forall n: nat :: n < end && n < USERPAGES ==>
         var p := MappedAt(m, d, n);
         p in role && role[p] == Free && MappedAt(mem, src, n) in mem && m[p] == mem[MappedAt(mem, src, n)])
    && forall n: nat :: end <= n < USERPAGES ==> MappedAt(m, d, n) == 0
  }

  lemma CopyDone(mem: map<nat, Page>, role: map<nat, Role>, m: map<nat, Page>, o: map<nat, Role>, src: nat, d: nat,
                 end: nat)
    requires Pool(mem, role) && RolesOk(mem, role) && Pool(m, o) && RolesOk(m, o)
    requires src in role && role[src] == Dir && d in role && role[d] == Free && end <= USERPAGES
    requires forall n: nat :: n < end ==> IsMapped(role, src, n)
    requires var m1, r1 := mem[d := ZeroPage()], role[d := Dir];
             && RolesOk(m1, r1) && Grew(m1, r1, m, o, d, 0, end, None, CopyFill(m1, src))
             && AllMapped(o, d, 0, end, None)
    ensures CopyOf(mem, role, m, o, src, d, end)
  {
    hide RolesOk, MappedAt, AllMapped, CopyFill;
    var m1, r1 := mem[d := ZeroPage()], role[d := Dir];
    FreshDirEmpty(m1, r1, d);
    forall n: nat | n < end
      ensures var p := MappedAt(m, d, n);
              p in role && role[p] == Free && MappedAt(mem, src, n) in mem && m[p] == mem[MappedAt(mem, src, n)]
    {
      CopyDoneAt(mem, role, m, o, src, d, end, n);
    }
    forall n: nat | end <= n < USERPAGES
      ensures MappedAt(m, d, n) == 0
    {
      NothingPast(m1, r1, m, o, d, end, CopyFill(m1, src), n);
    }
  }

  lemma NothingPast(mem: map<nat, Page>, role: map<nat, Role>, m: map<nat, Page>, o: map<nat, Role>, d: nat, end: nat,
                    fill: nat -> Page, n: nat)
    requires Pool(mem, role) && RolesOk(mem, role) && Pool(m, o) && RolesOk(m, o) && d in role && role[d] == Dir
    requires Grew(mem, role, m, o, d, 0, end, None, fill) && end <= n < USERPAGES && !IsMapped(role, d, n)
    ensures MappedAt(m, d, n) == 0
  {
    hide RolesOk, Grew, MappedAt;
    GrewMeans(mem, role, m, o, d, 0, end, None, fill, n);
    UserFacts(mem, role, d, n);
  }

  lemma CopyDoneAt(mem: map<nat, Page>, role: map<nat, Role>, m: map<nat, Page>, o: map<nat, Role>, src: nat, d: nat,
                   end: nat, n: nat)
    requires Pool(mem, role) && RolesOk(mem, role) && Pool(m, o) && RolesOk(m, o)
    requires src in role && role[src] == Dir && d in role && role[d] == Free && n < end <= USERPAGES
    requires IsMapped(role, src, n)
    requires var m1, r1 := mem[d := ZeroPage()], role[d := Dir];
             && RolesOk(m1, r1) && Grew(m1, r1, m, o, d, 0, end, None, CopyFill(m1, src))
             && AllMapped(o, d, 0, end, None)
    ensures var p := MappedAt(m, d, n);
            p in role && role[p] == Free && MappedAt(mem, src, n) in mem && m[p] == mem[MappedAt(mem, src, n)]
  {
    hide RolesOk, Grew, MappedAt;
    var m1, r1 := mem[d := ZeroPage()], role[d := Dir];
    FreshDirEmpty(m1, r1, d);
    assert IsMapped(o, d, n);
    GrewMeans(m1, r1, m, o, d, 0, end, None, CopyFill(m1, src), n);
    UserFacts(mem, role, src, n);
    OtherDirSame(mem, role, m1, r1, d, src, n);
  }

  // ---- tearing down ----

  /** Page `p` with role `r` belongs to directory `d`: the directory itself, its tables and its user pages. */
  predicate OwnedBy(r: Role, p: nat, d: nat) {
    p == d || ((r.Table? || r.User?) && r.dir == d)
  }

  /** Everything `d` owned is free; nothing else changed. */
  ghost predicate Gone(mem: map<nat, Page>, role: map<nat, Role>, m: map<nat, Page>, o: map<nat, Role>, d: nat) {
    && mem.Keys == role.Keys == m.Keys == o.Keys
    && (forall p :: p in role ==> o[p] == if OwnedBy(role[p], p, d) then Free else role[p])
    && (forall p :: p in role && o[p] != Free ==> m[p] == mem[p])
  }

  /** The tables of `d` below entry `i` are free. */
  ghost predicate Torn(mem: map<nat, Page>, role: map<nat, Role>, m: map<nat, Page>, o: map<nat, Role>, d: nat,
                       i: nat) {
    && mem.Keys == role.Keys == m.Keys == o.Keys
    && (forall p :: p in role ==>
          o[p] == if role[p].Table? && role[p].dir == d && role[p].pdx < i then Free else role[p])
    && (forall p :: p in role && o[p] != Free ==> m[p] == mem[p])
  }

  lemma TornOne(mem: map<nat, Page>, role: map<nat, Role>, m: map<nat, Page>, o: map<nat, Role>, d: nat, i: nat,
                t: nat, w: Page)
    requires Pool(mem, role) && RolesOk(mem, role) && Torn(mem, role, m, o, d, i)
    requires t in role && role[t] == Table(d, i)
    ensures Torn(mem, role, m[t := w], o[t := Free], d, i + 1)
  {
    forall p | p in role && role[p] == Table(d, i)
      ensures p == t
    {
      SameTable(mem, role, p, t);
    }
  }

  lemma TornNone(mem: map<nat, Page>, role: map<nat, Role>, m: map<nat, Page>, o: map<nat, Role>, d: nat, i: nat)
    requires Pool(mem, role) && RolesOk(mem, role) && Torn(mem, role, m, o, d, i)
    requires d in role && i < WORDS && mem[d][i] == 0
    ensures Torn(mem, role, m, o, d, i + 1)
  {
    forall p | p in role && role[p].Table?
      ensures role[p] != Table(d, i)
    {
      assert RoleOk(mem, role, p);
    }
  }

  /** What becomes of one page when the user pages, the tables and then the directory are freed. */
  lemma GoneAt(mem: map<nat, Page>, role: map<nat, Role>, m1: map<nat, Page>, r1: map<nat, Role>,
               m: map<nat, Page>, o: map<nat, Role>, d: nat, p: nat)
    requires Pool(mem, role) && RolesOk(mem, role) && Pool(m1, r1) && RolesOk(m1, r1)
    requires Shrunk(mem, role, m1, r1, d, 0, USERPAGES) && Torn(m1, r1, m, o, d, WORDS)
    requires d in role && role[d] == Dir && p in role && p != d
    ensures o[p] == if OwnedBy(role[p], p, d) then Free else role[p]
    ensures o[p] != Free ==> m[p] == mem[p]
  {
    hide RolesOk;
    RoleRange(mem, role, p);
    RoleRange(m1, r1, p);
  }

  lemma RoleRange(mem: map<nat, Page>, role: map<nat, Role>, p: nat)
    requires Pool(mem, role) && RolesOk(mem, role) && p in role
    ensures role[p].User? ==> MappedIn(role[p], role[p].dir, 0, USERPAGES)
    ensures role[p].Table? ==> role[p].pdx < WORDS
  {
    assert RoleOk(mem, role, p);
  }

  /** Unmapping all user pages, freeing all tables and then the directory frees exactly what the directory owned. */
  lemma GoneAtLast(mem: map<nat, Page>, role: map<nat, Role>, m1: map<nat, Page>, r1: map<nat, Role>,
                   m: map<nat, Page>, o: map<nat, Role>, d: nat, w: Page)
    requires Pool(mem, role) && RolesOk(mem, role) && Pool(m1, r1) && RolesOk(m1, r1)
    requires Shrunk(mem, role, m1, r1, d, 0, USERPAGES) && Torn(m1, r1, m, o, d, WORDS)
    requires d in role && role[d] == Dir
    ensures Gone(mem, role, m[d := w], o[d := Free], d)
  {
    hide RolesOk, MappedIn;
    forall p | p in role && p != d
      ensures o[p] == if OwnedBy(role[p], p, d) then Free else role[p]
      ensures o[p] != Free ==> m[p] == mem[p]
    {
      GoneAt(mem, role, m1, r1, m, o, d, p);
    }
  }

  /** Without what `d` owned, the remaining roles still agree with the entries. */
  lemma RolesAfterGone(mem: map<nat, Page>, role: map<nat, Role>, m: map<nat, Page>, o: map<nat, Role>, d: nat)
    requires Pool(mem, role) && RolesOk(mem, role) && Gone(mem, role, m, o, d) && d in role && role[d] == Dir
    ensures RolesOk(m, o)
  {
    forall x | x in o
      ensures RoleOk(m, o, x)
    {
      assert RoleOk(mem, role, x);
      match o[x]
      case Dir =>
        forall k | 0 <= k < WORDS
          ensures PdeOk(m, o, x, k)
        {
          assert PdeOk(mem, role, x, k);
        }
      case Table(e, k) =>
        forall y | 0 <= y < WORDS
          ensures PteOk(m, o, x, e, k, y)
        {
          assert PteOk(mem, role, x, e, k, y);
        }
      case User(e, k, y) =>
        var v :| v in role && role[v] == Table(e, k) && mem[e][k] == Entry(v) && mem[v][y] == Entry(x);
        assert o[v] == Table(e, k) && m[e][k] == Entry(v) && m[v][y] == Entry(x);
      case _ =>
    }
  }

  class Machine {
    var mem: map<nat, Page>
    var freelist: nat
    ghost var role: map<nat, Role>
    ghost var queue: seq<nat>

    ghost predicate Valid()
      reads this
    {
      Inv(mem, role, freelist, queue)
    }

    /** Memory at boot: the pages from `first` up to `top`, none on the free list. */
    constructor (first: nat, top: nat)
      requires first > 0 && first % PGSIZE == 0
      ensures Valid() && role.Keys == PagesIn(first, top) && forall p :: p in role ==> role[p] == Held
    {
      mem := map p | p in PagesIn(first, top) :: ZeroPage();
      freelist := 0;
      role := map p | p in PagesIn(first, top) :: Held;
      queue := [];
      new;
      PagesAligned(first, top);
      NothingFree(mem, role);
    }

    /** Put every page on the free list. */
    method KInit(first: nat, top: nat)
      requires first > 0 && first % PGSIZE == 0
      requires Valid() && role.Keys == PagesIn(first, top) && forall p :: p in role ==> role[p] == Held
      modifies this
      ensures Valid() && role.Keys == PagesIn(first, top) && forall p :: p in role ==> role[p] == Free
      ensures forall p: nat :: p in role <==> first <= p && p + PGSIZE <= top && p % PGSIZE == 0
    {
      hide RolesOk, FreeList, FreedPage, PagesIn;
      var p := first;
      while p + PGSIZE - 1 < top
        invariant Valid() && role.Keys == PagesIn(first, top) && PagesIn(p, top) <= role.Keys
        invariant forall x :: x in role ==> role[x] == if x in PagesIn(p, top) then Held else Free
      {
        PagesStep(p, top);
        RolesAfterSwap(mem, role, p, Free, FreedPage(freelist));
        KFree(p);
        p := p + PGSIZE;
      }
      PagesEnd(p, top);
      PagesAligned(first, top);
    }

    /** Put a page that is not free on the free list. */
    method KFree(p: nat)
      requires Pool(mem, role) && FreeList(mem, role, freelist, queue) && p in role && role[p] != Free
      modifies this
      ensures mem == old(mem)[p := FreedPage(old(freelist))] && role == old(role)[p := Free]
      ensures freelist == p && queue == [p] + old(queue)
      ensures mem[p][0] == old(freelist) && forall j :: 1 <= j < WORDS ==> mem[p][j] == JUNK
      ensures Pool(mem, role) && FreeList(mem, role, freelist, queue)
    {
      PushFree(mem, role, freelist, queue, p);
      mem := mem[p := seq(WORDS, _ => JUNK)];
      mem := mem[p := mem[p][0 := freelist]];
      assert mem[p] == FreedPage(freelist);
      freelist := p;
      role, queue := role[p := Free], [p] + queue;
    }

    /** Take the first free page, 0 if there is none. */
    method KAlloc() returns (p: nat)
      requires Valid()
      modifies this`freelist, this`role, this`queue
      ensures Valid()
      ensures p == 0 <==> old(queue) == []
      ensures p == 0 ==> role == old(role) && queue == old(queue)
      ensures p != 0 ==> && p == old(queue)[0] && p in old(role) && old(role)[p] == Free
                         && role == old(role)[p := Held] && queue == old(queue)[1..]
    {
      assert queue != [] ==> queue[0] in queue;
      p := freelist;
      if p != 0 {
        PopFree(mem, role, freelist, queue);
        RolesAfterSwap(mem, role, p, Held, mem[p]);
        assert mem[p := mem[p]] == mem;
        freelist := mem[p][0];
        role, queue := role[p := Held], queue[1..];
      }
    }

    /** `KAlloc` and a `memset` or `memmove` of contents `w` into the page, which always go together here. */
    method KAllocFilled(w: Page) returns (p: nat)
      requires Valid()
      modifies this
      ensures Valid()
      ensures p == 0 <==> old(queue) == []
      ensures p == 0 ==> mem == old(mem) && role == old(role) && queue == old(queue)
      ensures p != 0 ==> && p == old(queue)[0] && p in old(role) && old(role)[p] == Free
                         && mem == old(mem)[p := w] && role == old(role)[p := Held] && queue == old(queue)[1..]
    {
      hide RolesOk, FreeList;
      p := KAlloc();
      if p != 0 {
        RolesAfterSwap(mem, role, p, Held, w);
        assert role[p := Held] == role;
        FreeListFrame(mem, role, freelist, queue, mem[p := w], role);
        mem := mem[p := w];
      }
    }

    /** A new directory: one zeroed page, 0 if there is no memory. */
    method SetupKvm() returns (d: nat)
      requires Valid()
      modifies this
      ensures Valid()
      ensures d == 0 <==> old(queue) == []
      ensures d == 0 ==> mem == old(mem) && role == old(role) && queue == old(queue)
      ensures d != 0 ==> && d == old(queue)[0] && d in old(role) && old(role)[d] == Free
                         && mem == old(mem)[d := ZeroPage()] && role == old(role)[d := Dir] && queue == old(queue)[1..]
    {
      hide RolesOk, FreeList;
      d := KAllocFilled(ZeroPage());
      if d != 0 {
        BecomeDir(mem, role, d);
        FreeListFrame(mem, role, freelist, queue, mem, role[d := Dir]);
        role := role[d := Dir];
      }
    }

    /** The table holding the entry for virtual page `n`, made if need be and asked for; 0 if there is none. */
    method WalkPgDir(d: nat, n: nat, create: bool) returns (t: nat)
      requires Valid() && d in role && role[d] == Dir && (n < USERPAGES || (!create && n < ALLPAGES))
      modifies this
      ensures Valid()
      ensures t == 0 <==> old(mem)[d][n / WORDS] == 0 && (!create || old(queue) == [])
      ensures t == 0 || old(mem)[d][n / WORDS] != 0 ==> mem == old(mem) && role == old(role) && queue == old(queue)
      ensures t != 0 ==> t in role && role[t] == Table(d, n / WORDS) && mem[d][n / WORDS] == Entry(t)
      ensures t != 0 && old(mem)[d][n / WORDS] == 0 ==>
                && t == old(queue)[0] && t in old(role) && old(role)[t] == Free && queue == old(queue)[1..]
                && role == old(role)[t := Table(d, n / WORDS)]
                && mem == old(mem)[t := ZeroPage()][d := old(mem)[d][n / WORDS := Entry(t)]]
    {
      hide RolesOk, FreeList;
      var i := n / WORDS;
      TableFacts(mem, role, d, i);
      if IsValid(mem[d][i]) {
        return PteAddr(mem[d][i]);
      }
      if !create {
        return 0;
      }
      t := KAllocFilled(ZeroPage());
      if t == 0 {
        return;
      }
      BecomeTable(mem, role, d, i, t);
      FreeListFrame(mem, role, freelist, queue, mem[d := mem[d][i := Entry(t)]], role[t := Table(d, i)]);
      mem := mem[d := mem[d][i := Entry(t)]];
      role := role[t := Table(d, i)];
    }

    /** Map held page `u` at virtual page `n`, where nothing is mapped; fails when a table is needed and there is no
        memory. */
    method MapPage(d: nat, n: nat, u: nat) returns (ok: bool)
      requires Valid() && d in role && role[d] == Dir && n < USERPAGES
      requires u in role && role[u] == Held && MappedAt(mem, d, n) == 0
      modifies this
      ensures Valid()
      ensures ok <==> old(mem)[d][n / WORDS] != 0 || old(queue) != []
      ensures !ok ==> mem == old(mem) && role == old(role) && queue == old(queue)
      ensures ok ==> MapStep(old(mem), old(role), old(queue), mem, role, queue, d, n, u)
    {
      hide RolesOk, FreeList, MappedAt, TableOf;
      var t := WalkPgDir(d, n, true);
      ok := t != 0;
      if !ok {
        return;
      }
      var j := n % WORDS;
      EmptyEntry(old(mem), old(role), mem, role, t, d, n);
      PutEntry(mem, role, freelist, queue, t, j, u);
      mem := mem[t := mem[t][j := Entry(u)]];
      role := role[u := User(d, n / WORDS, j)];
    }

    /** Release the page mapped at `n`, if any. */
    method UnmapPage(d: nat, n: nat)
      requires Valid() && d in role && role[d] == Dir && n < USERPAGES
      modifies this
      ensures Valid() && Shrunk(old(mem), old(role), mem, role, d, n, n + 1)
    {
      hide RolesOk, FreeList, PdeOk, PteOk;
      UserFacts(mem, role, d, n);
      TableFacts(mem, role, d, n / WORDS);
      ghost var m, o := mem, role;
      var t := WalkPgDir(d, n, false);
      var j := n % WORDS;
      if t != 0 {
        EntryFields(t);
        PteFacts(mem, role, t, j);
        if IsValid(mem[t][j]) {
          var pa := PteAddr(mem[t][j]);
          Unmap(mem, role, t, j, pa, FreedPage(freelist));
          ShrunkOne(mem, role, mem, role, d, n, n, t, pa, FreedPage(freelist));
          KFree(pa);
          FreeListFrame(mem, role, freelist, queue, mem[t := mem[t][j := 0]], role);
          mem := mem[t := mem[t][j := 0]];
          return;
        }
      }
      ShrunkNone(mem, role, mem, role, d, n, n);
    }

    /** Bring a process from `oldsz` down to `newsz` bytes: its pages from there on go back to the free list. Nothing
        happens if `newsz` is not smaller. */
    method DeallocUvm(d: nat, oldsz: nat, newsz: nat) returns (r: nat)
      requires Valid() && d in role && role[d] == Dir
      requires 0 < oldsz <= USERTOP
      modifies this
      ensures Valid() && r == (if newsz < oldsz then newsz else oldsz)
      ensures Shrunk(old(mem), old(role), mem, role, d, PagesUp(newsz), PagesUp(oldsz))
      ensures d in mem && ShrankTo(old(mem), mem, d, oldsz, newsz)
    {
      hide RolesOk, FreeList, MappedAt, ShrankTo;
      var n := PagesUp(newsz);
      ShrunkStart(mem, role, d, n);
      while n <= (oldsz - 1) / PGSIZE
        invariant PagesUp(newsz) <= n <= PagesUp(oldsz) || n == PagesUp(newsz)
        invariant Valid() && d in role && role[d] == Dir
        invariant Shrunk(old(mem), old(role), mem, role, d, PagesUp(newsz), n)
      {
        ghost var m, o := mem, role;
        UnmapPage(d, n);
        ShrunkMore(old(mem), old(role), m, o, mem, role, d, PagesUp(newsz), n);
        n := n + 1;
      }
      ShrunkTo(old(mem), old(role), mem, role, d, PagesUp(newsz), n, PagesUp(oldsz));
      ShrunkBytes(old(mem), old(role), mem, role, d, oldsz, newsz);
      r := if newsz < oldsz then newsz else oldsz;
    }

    /** Allocate a page with contents `w` and map it: `mapped` tells whether the mapping succeeded, `got` whether
        there was a page at all. */
    method AllocPage(d: nat, n: nat, w: Page, ghost fill: nat -> Page)
      returns (got: bool, mapped: bool, ghost lost: Option<nat>)
      requires Valid() && d in role && role[d] == Dir && n < USERPAGES && !IsMapped(role, d, n) && fill(n) == w
      modifies this
      ensures Valid() && d in role && role[d] == Dir
      ensures got <==> old(queue) != []
      ensures !got ==> mem == old(mem) && role == old(role) && queue == old(queue)
      ensures got ==> Grew(old(mem), old(role), mem, role, d, n, n + 1, lost, fill) && (mapped <==> lost.None?)
      ensures got ==> (mapped <==> n / WORDS in Tables(old(mem), d) || |old(queue)| > 1)
      ensures got ==> (mapped <==> IsMapped(role, d, n))
      ensures got && mapped ==> && Tables(mem, d) == Tables(old(mem), d) + {n / WORDS}
                                && |queue| == |old(queue)| - if n / WORDS in Tables(old(mem), d) then 1 else 2
      ensures got && !mapped ==> queue == [] && Tables(mem, d) == Tables(old(mem), d)
    {
      hide RolesOk, FreeList, Grew, MappedAt, MapStep, IsMapped;
      lost := None;
      mapped := false;
      UserFacts(mem, role, d, n);
      var u := KAllocFilled(w);
      got := u != 0;
      if !got {
        return;
      }
      StillUnmappedAt(old(mem), old(role), mem, role, d, n, u);
      mapped := MapPage(d, n, u);
      if mapped {
        AllocMapped(old(mem), old(role), old(queue), w, mem, role, queue, d, n, u, fill);
      } else {
        lost := Some(u);
        LostGrew(old(mem), old(role), mem, role, d, n, u, fill);
      }
    }

    /** The loop of `AllocUvm`: allocate and map pages first..end-1, stopping at page `n` when there is no memory. */
    method AllocPages(d: nat, first: nat, end: nat) returns (ok: bool, ghost n: nat, ghost lost: Option<nat>)
      requires Valid() && d in role && role[d] == Dir && end <= USERPAGES
      requires forall x: nat :: first <= x < end ==> !IsMapped(role, d, x)
      modifies this
      ensures Valid() && d in role && role[d] == Dir
      ensures var f, tables := |old(queue)|, Tables(old(mem), d);
              && (ok <==> f >= Need(tables, first, end) || LosesLast(f, tables, first, end))
              && (lost.Some? <==> Loses(f, tables, first, end))
      ensures first <= n && (n <= end || n == first) && (ok <==> n >= end)
      ensures Grew(old(mem), old(role), mem, role, d, first, n, lost, ZeroFill()) && AllMapped(role, d, first, n, lost)
      ensures first >= end ==> lost.None? && mem == old(mem) && role == old(role) && queue == old(queue)
    {
      hide RolesOk, FreeList, Grew, AllMapped, Tables, IsMapped, Need, LosesLast, Loses, Predict;
      lost := None;
      ghost var out := Predict(|queue|, Tables(mem, d), first, end);
      OutcomeWhen(|queue|, Tables(mem, d), first, end);
      GrewStart(mem, role, d, first, ZeroFill());
      var at := first;
      while at < end
        invariant first <= at && (at <= end || at == first)
        invariant at == first ==> lost.None? && mem == old(mem) && role == old(role) && queue == old(queue)
        invariant Valid() && d in role && role[d] == Dir
        invariant Grew(old(mem), old(role), mem, role, d, first, at, lost, ZeroFill())
        invariant AllMapped(role, d, first, at, lost)
        invariant lost.None? ==> Predict(|queue|, Tables(mem, d), at, end) == out
        invariant lost.Some? ==> at <= end && queue == [] && out == if at == end then LastLost else LostAndNoMemory
      {
        ghost var m, o := mem, role;
        PredictStep(|queue|, Tables(mem, d), at, end);
        StillUnmapped(old(mem), old(role), mem, role, d, first, at, end, lost, ZeroFill());
        var got, mapped;
        ghost var l;
        got, mapped, l := AllocPage(d, at, ZeroPage(), ZeroFill());
        if !got {
          return false, at, lost;
        }
        GrewMore(old(mem), old(role), m, o, mem, role, d, first, at, l, ZeroFill());
        AllMappedMore(m, o, mem, role, d, first, at, l, ZeroFill());
        lost := l;
        at := at + 1;
      }
      PredictEnd(|queue|, Tables(mem, d), at, end);
      return true, at, lost;
    }

    /** Bring a process from `oldsz` up to `newsz` bytes with zeroed pages; 0 if that cannot be done, and then no
        mapping changes. */
    method AllocUvm(d: nat, oldsz: nat, newsz: nat) returns (r: nat, ghost lost: Option<nat>)
      requires Valid() && d in role && role[d] == Dir && 0 < newsz
      requires forall n: nat :: PagesUp(oldsz) <= n < PagesUp(newsz) && newsz <= USERTOP ==> !IsMapped(role, d, n)
      modifies this
      ensures Valid()
      ensures newsz > USERTOP ==> r == 0 && lost == None && mem == old(mem) && role == old(role) && queue == old(queue)
      ensures newsz <= USERTOP ==>
                var first, end := PagesUp(oldsz), PagesUp(newsz);
                var f, tables := |old(queue)|, Tables(old(mem), d);
                && (r == 0 <==> f < Need(tables, first, end) && !LosesLast(f, tables, first, end))
                && (r != 0 ==> r == if newsz > oldsz then newsz else oldsz)
                && (lost.Some? <==> Loses(f, tables, first, end))
                && (r == 0 ==> Grew(old(mem), old(role), mem, role, d, first, first, lost, ZeroFill()))
                && (r != 0 && first <= end ==>
                      && Grew(old(mem), old(role), mem, role, d, first, end, lost, ZeroFill())
                      && AllMapped(role, d, first, end, lost))
                && (first >= end ==> mem == old(mem) && role == old(role) && queue == old(queue) && lost == None)
      ensures d in mem && (r != 0 && lost.None? ==> GrewTo(old(mem), old(role), mem, d, oldsz, newsz))
      ensures r == 0 ==> forall a: nat :: a < USERTOP ==> PageFor(mem, d, a) == PageFor(old(mem), d, a)
    {
      hide RolesOk, FreeList, Grew, AllMapped, Tables, IsMapped, LosesLast, Loses, MappedAt, GrewTo, Need, PagesUp;
      lost := None;
      if newsz > USERTOP {
        return 0, None;
      }
      ghost var first, end := PagesUp(oldsz), PagesUp(newsz);
      NoneMapped(mem, role, d, first, end);
      var ok;
      ghost var n;
      LastPage(newsz);
      ok, n, lost := AllocPages(d, PagesUp(oldsz), (newsz - 1) / PGSIZE + 1);
      if !ok {
        ghost var m, o := mem, role;
        r := DeallocUvm(d, newsz, oldsz);
        GrewShrunk(old(mem), old(role), m, o, mem, role, d, first, n, end, lost, ZeroFill());
        NothingGrew(old(mem), old(role), mem, role, d, first, lost);
        return 0, lost;
      }
      if lost.None? {
        GrewBytes(old(mem), old(role), mem, role, d, oldsz, newsz, n);
      }
      r := if newsz > oldsz then newsz else oldsz;
    }

    /** Free the tables of a directory, leaving its entries as they are. */
    method FreeTables(d: nat)
      requires Valid() && d in role && role[d] == Dir
      modifies this
      ensures Pool(mem, role) && FreeList(mem, role, freelist, queue) && Torn(old(mem), old(role), mem, role, d, NPDE)
    {
      hide RolesOk, FreeList;
      ghost var m1, r1 := mem, role;
      var i := 0;
      while i < NPDE
        invariant 0 <= i <= NPDE
        invariant Pool(mem, role) && FreeList(mem, role, freelist, queue) && Torn(m1, r1, mem, role, d, i)
      {
        TableFacts(m1, r1, d, i);
        if IsValid(mem[d][i]) {
          var t := PteAddr(mem[d][i]);
          TornOne(m1, r1, mem, role, d, i, t, FreedPage(freelist));
          KFree(t);
        } else {
          TornNone(m1, r1, mem, role, d, i);
        }
        i := i + 1;
      }
    }

    /** Free a directory, its tables and every user page it maps. */
    method FreeVm(d: nat)
      requires Valid() && d in role && role[d] == Dir
      modifies this
      ensures Valid() && Gone(old(mem), old(role), mem, role, d)
    {
      hide RolesOk, FreeList;
      var r := DeallocUvm(d, USERTOP, 0);
      ghost var m1, r1 := mem, role;
      FreeTables(d);
      GoneAtLast(old(mem), old(role), m1, r1, mem, role, d, FreedPage(freelist));
      KFree(d);
      RolesAfterGone(old(mem), old(role), mem, role, d);
    }

    /** The entry that `d` has for `n`, read through the tables. */
    method ReadPte(d: nat, n: nat) returns (w: nat)
      requires Valid() && d in role && role[d] == Dir && n < ALLPAGES
      modifies this
      ensures mem == old(mem) && role == old(role) && queue == old(queue) && Valid()
      ensures w == WordAt(mem, d, n)
    {
      hide RolesOk, FreeList;
      TableFacts(mem, role, d, n / WORDS);
      w := 0;
      assert 0 !in role;
      var t := WalkPgDir(d, n, false);
      if t != 0 {
        EntryFields(t);
        w := mem[t][n % WORDS];
      }
    }

    /** Copy the page that `src` maps at `n`, if it maps one, to a new page that `d` maps there. */
    method CopyPage(src: nat, d: nat, n: nat, ghost fill: nat -> Page)
      returns (found: bool, got: bool, mapped: bool, ghost lost: Option<nat>)
      requires Valid() && src in role && role[src] == Dir && d in role && role[d] == Dir && n < USERPAGES
      requires !IsMapped(role, d, n)
      requires MappedAt(mem, src, n) != 0 ==>
                 MappedAt(mem, src, n) in mem && fill(n) == mem[MappedAt(mem, src, n)]
      modifies this
      ensures Valid() && d in role && role[d] == Dir
      ensures found <==> MappedAt(old(mem), src, n) != 0
      ensures got <==> found && old(queue) != []
      ensures !got ==> mem == old(mem) && role == old(role) && queue == old(queue)
      ensures got ==> Grew(old(mem), old(role), mem, role, d, n, n + 1, lost, fill) && (mapped <==> lost.None?)
      ensures got ==> (mapped <==> n / WORDS in Tables(old(mem), d) || |old(queue)| > 1)
      ensures got ==> (mapped <==> IsMapped(role, d, n))
      ensures got && mapped ==> && Tables(mem, d) == Tables(old(mem), d) + {n / WORDS}
                                && |queue| == |old(queue)| - if n / WORDS in Tables(old(mem), d) then 1 else 2
    {
      hide RolesOk, FreeList, Grew, IsMapped, MappedAt, WordAt, PteAddr, PtePerm;
      got, mapped, lost := false, false, None;
      EntryFields(0);
      WordFacts(mem, role, src, n);
      var w := ReadPte(src, n);
      found := IsValid(w);
      if found {
        got, mapped, lost := AllocPage(d, n, mem[PteAddr(w)], fill);
      }
    }

    /** The loop of `CopyUvm`: copy pages 0..end-1 of `src` into the new directory `d`, up to one it does not map. */
    method CopyPages(src: nat, d: nat, end: nat)
      returns (ok: bool, panicked: bool, ghost n: nat, ghost h: nat, ghost lost: Option<nat>)
      requires Valid() && src in role && role[src] == Dir && d in role && role[d] == Dir && src != d
      requires end <= USERPAGES && mem[d] == ZeroPage()
      modifies this
      ensures Valid() && d in role && role[d] == Dir
      ensures HoleAt(old(role), src, end, h)
      ensures var f := |old(queue)|;
              && (panicked <==> h < end && f >= Need({}, 0, h))
              && (ok <==> h == end && f >= Need({}, 0, h))
              && (lost.Some? <==> Loses(f, {}, 0, h))
      ensures Grew(old(mem), old(role), mem, role, d, 0, n, lost, CopyFill(old(mem), src))
      ensures ok ==> n == end && lost.None? && AllMapped(role, d, 0, end, None)
    {
      hide RolesOk, FreeList, Grew, AllMapped, Tables, IsMapped, MappedAt, CopyFill, Need, Loses, LosesLast, Predict;
      ghost var fill := CopyFill(mem, src);
      h := FindHole(role, src, end);
      ok, panicked, lost := false, false, None;
      FreshDirEmpty(mem, role, d);
      ghost var out := Predict(|queue|, {}, 0, h);
      OutcomeWhen(|queue|, {}, 0, h);
      GrewStart(mem, role, d, 0, fill);
      var at := 0;
      while at < end
        invariant 0 <= at <= h
        invariant Valid() && d in role && role[d] == Dir && !panicked
        invariant Grew(old(mem), old(role), mem, role, d, 0, at, None, fill) && AllMapped(role, d, 0, at, None)
        invariant Predict(|queue|, Tables(mem, d), at, h) == out
      {
        ghost var m, o := mem, role;
        if at < h {
          PredictStep(|queue|, Tables(mem, d), at, h);
        } else {
          PredictEnd(|queue|, Tables(mem, d), at, h);
        }
        StillUnmapped(old(mem), old(role), mem, role, d, 0, at, end, None, fill);
        SourceSame(old(mem), old(role), mem, role, src, d, at, fill);
        var found, got, mapped;
        ghost var l;
        found, got, mapped, l := CopyPage(src, d, at, fill);
        if !found {
          return false, true, at, h, None;
        }
        if !got {
          return false, false, at, h, None;
        }
        GrewMore(old(mem), old(role), m, o, mem, role, d, 0, at, l, fill);
        if !mapped {
          return false, false, at + 1, h, l;
        }
        AllMappedMore(m, o, mem, role, d, 0, at, l, fill);
        at := at + 1;
      }
      PredictEnd(|queue|, Tables(mem, d), at, h);
      return true, false, at, h, None;
    }

    /** A new directory with copies of the first pages of `src`, `sz` bytes in all; 0 if memory runs out, and a
        panic over a page that `src` does not map. */
    method CopyUvm(src: nat, sz: nat)
      returns (d: nat, panicked: bool, ghost h: nat, ghost lost: Option<nat>)
      requires Valid() && src in role && role[src] == Dir && sz <= USERTOP
      modifies this
      ensures Valid() && (panicked ==> d == 0)
      ensures var f, end := |old(queue)|, PagesUp(sz);
              && HoleAt(old(role), src, end, h)
              && (panicked <==> h < end && f >= 1 + Need({}, 0, h))
              && (d != 0 <==> h == end && f >= 1 + Need({}, 0, end))
              && (lost.Some? <==> f >= 1 && Loses(f - 1, {}, 0, h))
      ensures d != 0 ==> CopyOf(old(mem), old(role), mem, role, src, d, PagesUp(sz))
      ensures d != 0 ==> CopiedTo(old(mem), old(role), mem, src, d, sz)
      ensures d == 0 && !panicked ==> Undone(old(mem), old(role), mem, role, lost)
    {
      hide RolesOk, FreeList, Grew, AllMapped, IsMapped, Gone, Predict, Need, Loses, LosesLast;
      lost, panicked := None, false;
      h := FindHole(role, src, PagesUp(sz));
      d := SetupKvm();
      if d == 0 {
        return;
      }
      ghost var m1, r1 := mem, role;
      FreshDirEmpty(m1, r1, d);
      assert forall p :: p in r1 && p != d ==> old(role)[p] == r1[p] && !OwnedBy(r1[p], p, d);
      var ok;
      ghost var n;
      ok, panicked, n, h, lost := CopyPages(src, d, PagesUp(sz));
      SameHole(old(role), r1, src, d, PagesUp(sz), h);
      if panicked {
        d := 0;
      } else if ok {
        CopyDone(old(mem), old(role), mem, role, src, d, PagesUp(sz));
        CopyBytes(old(mem), old(role), mem, role, src, d, sz);
      } else {
        ghost var m2, r2 := mem, role;
        FreeVm(d);
        CopyUndone(old(mem), old(role), m2, r2, mem, role, d, n, lost, CopyFill(m1, src));
        d := 0;
      }
    }
  }

  // ---- the TLB ----

  datatype TlbEntry = TlbEntry(va: nat, ptel: nat)

  /** The translation of virtual page `n` by directory `d`: its address, and the page with its permission bits. */
  function Translation(mem: map<nat, Page>, d: nat, n: nat): TlbEntry
    requires d in mem && n < ALLPAGES
  {
    TlbEntry(n * PGSIZE, Entry(MappedAt(mem, d, n)))
  }

  /** Directory `d` maps pages 0..n-1 and not page `n`. */
  ghost predicate MapsFirst(mem: map<nat, Page>, d: nat, n: nat)
    requires d in mem
  {
    && n <= USERPAGES && MappedAt(mem, d, n) == 0
    && forall v :: 0 <= v < n ==> MappedAt(mem, d, v) != 0
  }

  /** The last page below `n` that goes to slot `k`. */
  function LastFor(n: nat, k: nat): (v: nat)
    requires k < n && k < TLBSIZE
    ensures v < n && v % TLBSIZE == k && n <= v + TLBSIZE
  {
    n - 1 - (n - 1 - k) % TLBSIZE
  }

  /** Slot `k` holds the last of the pages below `n` that go there. */
  ghost predicate Loaded(slot: seq<Option<TlbEntry>>, mem: map<nat, Page>, d: nat, n: nat)
    requires d in mem && n <= USERPAGES
  {
    && |slot| == TLBSIZE
    && forall k :: 0 <= k < TLBSIZE ==> slot[k] == if k < n then Some(Translation(mem, d, LastFor(n, k))) else None
  }

  class Tlb {
    var slot: seq<Option<TlbEntry>>

    constructor ()
      ensures |slot| == TLBSIZE
    {
      slot := seq(TLBSIZE, _ => None);
    }

    /** Clear the TLB and load it from directory `d`, page by page from 0 until one is not mapped. */
    method SwitchUvm(vm: Machine, d: nat) returns (ghost n: nat)
      requires vm.Valid() && d in vm.role && vm.role[d] == Dir
      modifies this, vm
      ensures vm.Valid() && vm.mem == old(vm.mem) && vm.role == old(vm.role)
      ensures MapsFirst(vm.mem, d, n) && Loaded(slot, vm.mem, d, n)
    {
      hide RolesOk, FreeList, MappedAt, WordAt, PteAddr, PtePerm;
      slot := seq(TLBSIZE, _ => None);
      var at, i := 0, 0;
      var w := vm.ReadPte(d, at);
      while w != 0
        invariant 0 <= at <= USERPAGES && i == at % TLBSIZE
        invariant vm.Valid() && vm.mem == old(vm.mem) && vm.role == old(vm.role)
        invariant w == WordAt(vm.mem, d, at)
        invariant forall v :: 0 <= v < at ==> MappedAt(vm.mem, d, v) != 0
        invariant Loaded(slot, vm.mem, d, at)
        decreases USERPAGES - at
      {
        WordFacts(vm.mem, vm.role, d, at);
        NothingAtTop(vm.mem, vm.role, d);
        LoadOne(slot, vm.mem, d, at);
        slot := slot[i := Some(TlbEntry(at * PGSIZE, PteAddr(w) + PtePerm(w)))];
        at, i := at + 1, (i + 1) % TLBSIZE;
        w := vm.ReadPte(d, at);
      }
      WordFacts(vm.mem, vm.role, d, at);
      n := at;
    }
  }

  lemma NothingAtTop(mem: map<nat, Page>, role: map<nat, Role>, d: nat)
    requires Pool(mem, role) && RolesOk(mem, role) && d in role && role[d] == Dir
    ensures MappedAt(mem, d, USERPAGES) == 0
  {
    TableFacts(mem, role, d, USERPDE);
    assert forall t :: t in role && role[t] == Table(d, USERPDE) ==> RoleOk(mem, role, t);
    assert 0 !in role;
  }

  lemma LoadOne(slot: seq<Option<TlbEntry>>, mem: map<nat, Page>, d: nat, n: nat)
    requires d in mem && n < USERPAGES && Loaded(slot, mem, d, n)
    ensures Loaded(slot[n % TLBSIZE := Some(Translation(mem, d, n))], mem, d, n + 1)
  {
    hide LastFor, MappedAt;
    var after := slot[n % TLBSIZE := Some(Translation(mem, d, n))];
    forall k | 0 <= k < TLBSIZE
      ensures after[k] == if k < n + 1 then Some(Translation(mem, d, LastFor(n + 1, k))) else None
    {
      if k == n % TLBSIZE {
        OnlyLast(n + 1, k, n);
      } else if k < n {
        OnlyLast(n + 1, k, LastFor(n, k));
      }
    }
  }

  lemma OnlyLast(n: nat, k: nat, v: nat)
    requires k < n && k < TLBSIZE && v < n && v % TLBSIZE == k && n <= v + TLBSIZE
    ensures v == LastFor(n, k)
  {
    var w := LastFor(n, k);
    assert (v - w) % TLBSIZE == 0 && w < v + TLBSIZE && v < w + TLBSIZE;
  }

  /** A TLB entry takes the addresses of page `v` to the page that `d` maps there, with the default permissions. */
  ghost predicate TlbMaps(e: TlbEntry, mem: map<nat, Page>, d: nat, v: nat)
    requires d in mem && v < ALLPAGES
  {
    && e.va == v * PGSIZE && PteAddr(e.ptel) == MappedAt(mem, d, v) && PtePerm(e.ptel) == DEFAULT && IsValid(e.ptel)
    && e.ptel == PteAddr(e.ptel) + PtePerm(e.ptel)
  }

  /** Every entry of a loaded TLB is a translation that the directory makes. */
  lemma TlbTrue(slot: seq<Option<TlbEntry>>, mem: map<nat, Page>, d: nat, n: nat, k: nat)
    requires d in mem && MapsFirst(mem, d, n) && Loaded(slot, mem, d, n) && k < TLBSIZE && slot[k].Some?
    ensures exists v :: 0 <= v < n && MappedAt(mem, d, v) != 0 && TlbMaps(slot[k].value, mem, d, v)
  {
    var v := LastFor(n, k);
    assert MappedAt(mem, d, v) != 0;
    EntryFields(MappedAt(mem, d, v));
    assert TlbMaps(slot[k].value, mem, d, v);
  }

  /** A loaded TLB holds page `v` exactly when it is one of the last 64 mapped; so all of them when there are no
      more than 64. */
  lemma TlbHolds(slot: seq<Option<TlbEntry>>, mem: map<nat, Page>, d: nat, n: nat, v: nat)
    requires d in mem && MapsFirst(mem, d, n) && Loaded(slot, mem, d, n) && v < USERPAGES
    ensures (exists k :: 0 <= k < TLBSIZE && slot[k].Some? && slot[k].value.va == v * PGSIZE) <==> v < n <= v + TLBSIZE
    ensures v < n <= v + TLBSIZE ==> slot[v % TLBSIZE] == Some(Translation(mem, d, v))
  {
    hide LastFor, MappedAt;
    if v < n <= v + TLBSIZE {
      OnlyLast(n, v % TLBSIZE, v);
      assert slot[v % TLBSIZE].value.va == v * PGSIZE;
    }
    forall k | 0 <= k < TLBSIZE && slot[k].Some? && slot[k].value.va == v * PGSIZE
      ensures v < n <= v + TLBSIZE
    {
      assert LastFor(n, k) == v;
    }
  }

  /** Pages needed for `sz` bytes. */
  function PagesUp(sz: nat): (r: nat)
    ensures r * PGSIZE >= sz && (if sz > 0 then (r - 1) * PGSIZE < sz else r == 0)
  {
    (sz + PGSIZE - 1) / PGSIZE
  }

  /** Page `n` is past the pages of `sz` bytes exactly when it starts at or after `sz`. */
  lemma PastPages(sz: nat, n: nat)
    ensures PagesUp(sz) <= n <==> sz <= n * PGSIZE
  {
    hide PagesUp;
    var r := PagesUp(sz);
    if r <= n {
      assert r * PGSIZE <= n * PGSIZE;
    } else if sz > 0 {
      assert n * PGSIZE <= (r - 1) * PGSIZE;
    }
  }

  lemma LastPage(sz: nat)
    requires sz > 0
    ensures PagesUp(sz) == (sz - 1) / PGSIZE + 1 && (sz <= USERTOP ==> PagesUp(sz) <= USERPAGES)
  {
  }

  // ---- address spaces, byte by byte ----

  /** The page that `d` maps for address `a`, or 0. */
  function PageFor(m: map<nat, Page>, d: nat, a: nat): nat
    requires d in m && a < USERTOP
  {
    MappedAt(m, d, a / PGSIZE)
  }

  /** Where the page that holds address `a` begins. */
  function PageStart(a: nat): nat {
    a / PGSIZE * PGSIZE
  }

  /** From `oldsz` to `newsz` bytes: the pages that hold an address below `newsz` and none below `oldsz` are mapped to
      pages that were free, all zero; every other address is mapped as before. */
  ghost predicate GrewTo(mem: map<nat, Page>, role: map<nat, Role>, m: map<nat, Page>, d: nat, oldsz: nat, newsz: nat)
    requires d in mem && d in m
  {
    forall a: nat :: a < USERTOP ==>
      var p := PageFor(m, d, a);
      if oldsz <= PageStart(a) < newsz
      then && p in role && role[p] == Free && p in m && forall j :: 0 <= j < WORDS ==> m[p][j] == 0
      else p == PageFor(mem, d, a)
  }

  /** From `oldsz` down to `newsz` bytes: nothing is mapped where a page begins at or after `newsz` and before `oldsz`;
      every other address is mapped as before. */
  ghost predicate ShrankTo(mem: map<nat, Page>, m: map<nat, Page>, d: nat, oldsz: nat, newsz: nat)
    requires d in mem && d in m
  {
    forall a: nat :: a < USERTOP ==>
      PageFor(m, d, a) == if newsz <= PageStart(a) < oldsz then 0 else PageFor(mem, d, a)
  }

  /** `d` maps an address exactly if its page holds one of the first `sz`, to a page that was free and has the contents
      that `src` has there. */
  ghost predicate CopiedTo(mem: map<nat, Page>, role: map<nat, Role>, m: map<nat, Page>, src: nat, d: nat, sz: nat)
    requires src in mem && d in m
  {
    forall a: nat :: a < USERTOP ==>
      var p := PageFor(m, d, a);
      if PageStart(a) < sz
      then && p != 0 && p in role && role[p] == Free && p in m
           && PageFor(mem, src, a) != 0 && PageFor(mem, src, a) in mem && m[p] == mem[PageFor(mem, src, a)]
      else p == 0
  }

  lemma GrewBytes(mem: map<nat, Page>, role: map<nat, Role>, m: map<nat, Page>, o: map<nat, Role>, d: nat, oldsz: nat,
                  newsz: nat, end: nat)
    requires Pool(mem, role) && RolesOk(mem, role) && Pool(m, o) && RolesOk(m, o) && d in role && role[d] == Dir
    requires Grew(mem, role, m, o, d, PagesUp(oldsz), end, None, ZeroFill())
    requires AllMapped(o, d, PagesUp(oldsz), end, None) && d in m
    requires end == PagesUp(newsz) || (end == PagesUp(oldsz) && PagesUp(newsz) <= PagesUp(oldsz))
    requires forall n: nat :: PagesUp(oldsz) <= n < end ==> !IsMapped(role, d, n)
    ensures GrewTo(mem, role, m, d, oldsz, newsz)
  {
    hide RolesOk, Grew, MappedAt, PagesUp, IsMapped, AllMapped;
    GrewKeys(mem, role, m, o, d, PagesUp(oldsz), end, None, ZeroFill());
    forall a: nat | a < USERTOP
      ensures var p := PageFor(m, d, a);
              if oldsz <= PageStart(a) < newsz
              then && p in role && role[p] == Free && p in m && forall j :: 0 <= j < WORDS ==> m[p][j] == 0
              else p == PageFor(mem, d, a)
    {
      var n := a / PGSIZE;
      PastPages(oldsz, n);
      PastPages(newsz, n);
      AllMappedAt(o, d, PagesUp(oldsz), end, n);
      GrewMeans(mem, role, m, o, d, PagesUp(oldsz), end, None, ZeroFill(), n);
    }
  }

  lemma GrewKeys(mem: map<nat, Page>, role: map<nat, Role>, m: map<nat, Page>, o: map<nat, Role>, d: nat, first: nat,
                 end: nat, lost: Option<nat>, fill: nat -> Page)
    requires Grew(mem, role, m, o, d, first, end, lost, fill)
    ensures mem.Keys == role.Keys == m.Keys == o.Keys
  {
  }

  lemma AllMappedAt(o: map<nat, Role>, d: nat, first: nat, end: nat, n: nat)
    requires AllMapped(o, d, first, end, None)
    ensures first <= n < end ==> IsMapped(o, d, n)
  {
  }

  /** Nothing has changed for the addresses of `d`. */
  lemma NothingGrew(mem: map<nat, Page>, role: map<nat, Role>, m: map<nat, Page>, o: map<nat, Role>, d: nat, first: nat,
                    lost: Option<nat>)
    requires Pool(mem, role) && RolesOk(mem, role) && Pool(m, o) && RolesOk(m, o) && d in role && role[d] == Dir
    requires Grew(mem, role, m, o, d, first, first, lost, ZeroFill())
    ensures d in m && forall a: nat :: a < USERTOP ==> PageFor(m, d, a) == PageFor(mem, d, a)
  {
    hide RolesOk, Grew, MappedAt;
    GrewKeys(mem, role, m, o, d, first, first, lost, ZeroFill());
    forall a: nat | a < USERTOP
      ensures PageFor(m, d, a) == PageFor(mem, d, a)
    {
      GrewMeans(mem, role, m, o, d, first, first, lost, ZeroFill(), a / PGSIZE);
    }
  }

  lemma ShrunkBytes(mem: map<nat, Page>, role: map<nat, Role>, m: map<nat, Page>, o: map<nat, Role>, d: nat, oldsz: nat,
                    newsz: nat)
    requires Pool(mem, role) && RolesOk(mem, role) && Pool(m, o) && RolesOk(m, o) && d in role && role[d] == Dir
    requires Shrunk(mem, role, m, o, d, PagesUp(newsz), PagesUp(oldsz))
    ensures d in m && ShrankTo(mem, m, d, oldsz, newsz)
  {
    hide RolesOk, MappedAt, PagesUp;
    forall a: nat | a < USERTOP
      ensures PageFor(m, d, a) == if newsz <= PageStart(a) < oldsz then 0 else PageFor(mem, d, a)
    {
      PastPages(oldsz, a / PGSIZE);
      PastPages(newsz, a / PGSIZE);
      ShrunkMeans(mem, role, m, o, d, PagesUp(newsz), PagesUp(oldsz), a / PGSIZE);
    }
  }

  lemma CopyBytes(mem: map<nat, Page>, role: map<nat, Role>, m: map<nat, Page>, o: map<nat, Role>, src: nat, d: nat,
                  sz: nat)
    requires Pool(mem, role) && CopyOf(mem, role, m, o, src, d, PagesUp(sz))
    ensures CopiedTo(mem, role, m, src, d, sz)
  {
    hide MappedAt, PagesUp;
    forall a: nat | a < USERTOP
      ensures var p := PageFor(m, d, a);
              if PageStart(a) < sz
              then && p != 0 && p in role && role[p] == Free && p in m
                   && PageFor(mem, src, a) != 0 && PageFor(mem, src, a) in mem && m[p] == mem[PageFor(mem, src, a)]
              else p == 0
    {
      PastPages(sz, a / PGSIZE);
    }
  }

  lemma ShrunkStart(mem: map<nat, Page>, role: map<nat, Role>, d: nat, n: nat)
    requires mem.Keys == role.Keys
    ensures Shrunk(mem, role, mem, role, d, n, n)
  {
  }

  lemma ShrunkTo(mem: map<nat, Page>, role: map<nat, Role>, m: map<nat, Page>, o: map<nat, Role>, d: nat, first: nat,
                 n: nat, end: nat)
    requires Shrunk(mem, role, m, o, d, first, n) && (n == end || (n == first && end <= first))
    ensures Shrunk(mem, role, m, o, d, first, end)
  {
  }

  lemma ShrunkMore(mem: map<nat, Page>, role: map<nat, Role>, m: map<nat, Page>, o: map<nat, Role>,
                   m': map<nat, Page>, o': map<nat, Role>, d: nat, first: nat, n: nat)
    requires Shrunk(mem, role, m, o, d, first, n) && Shrunk(m, o, m', o', d, n, n + 1) && first <= n
    ensures Shrunk(mem, role, m', o', d, first, n + 1)
  {
  }

  lemma GrewStart(mem: map<nat, Page>, role: map<nat, Role>, d: nat, n: nat, fill: nat -> Page)
    requires mem.Keys == role.Keys
    ensures Grew(mem, role, mem, role, d, n, n, None, fill) && AllMapped(role, d, n, n, None)
  {
  }

  /** Growing in first..n-1 maps nothing at `n` or after. */
  lemma StillUnmapped(mem: map<nat, Page>, role: map<nat, Role>, m: map<nat, Page>, o: map<nat, Role>, d: nat,
                      first: nat, n: nat, end: nat, lost: Option<nat>, fill: nat -> Page)
    requires Grew(mem, role, m, o, d, first, n, lost, fill)
    requires forall x: nat :: first <= x < end ==> !IsMapped(role, d, x)
    requires first <= n < end
    ensures !IsMapped(o, d, n)
  {
    forall p | p in o
      ensures o[p] != User(d, n / WORDS, n % WORDS)
    {
      assert !IsMapped(role, d, n);
      assert n / WORDS * WORDS + n % WORDS == n;
    }
  }

  /** Everything is as it was, but for a page that was lost. */
  ghost predicate Undone(mem: map<nat, Page>, role: map<nat, Role>, m: map<nat, Page>, o: map<nat, Role>,
                         lost: Option<nat>) {
    && mem.Keys == role.Keys == m.Keys == o.Keys
    && (forall p :: p in role ==> o[p] == if lost == Some(p) then Held else role[p])
    && (forall p :: p in role && role[p] != Free ==> m[p] == mem[p])
    && (lost.Some? ==> lost.value in role && role[lost.value] == Free)
  }

  lemma CopyUndone(mem: map<nat, Page>, role: map<nat, Role>, m2: map<nat, Page>, r2: map<nat, Role>,
                   m: map<nat, Page>, o: map<nat, Role>, d: nat, n: nat, lost: Option<nat>, fill: nat -> Page)
    requires Pool(mem, role) && d in role && role[d] == Free
    requires Grew(mem[d := ZeroPage()], role[d := Dir], m2, r2, d, 0, n, lost, fill)
    requires Gone(m2, r2, m, o, d)
    requires forall p :: p in role && p != d ==> !OwnedBy(role[p], p, d)
    ensures Undone(mem, role, m, o, lost)
  {
    hide Grew, Gone;
    forall p | p in role
      ensures p in m && p in o && o[p] == if lost == Some(p) then Held else role[p]
      ensures role[p] != Free ==> m[p] == mem[p]
    {
      UndoneAt(mem, role, m2, r2, m, o, d, n, lost, fill, p);
    }
    UndoneKeys(mem, role, m2, r2, m, o, d, n, lost, fill);
  }

  lemma UndoneKeys(mem: map<nat, Page>, role: map<nat, Role>, m2: map<nat, Page>, r2: map<nat, Role>,
                   m: map<nat, Page>, o: map<nat, Role>, d: nat, n: nat, lost: Option<nat>, fill: nat -> Page)
    requires Pool(mem, role) && d in role && role[d] == Free
    requires Grew(mem[d := ZeroPage()], role[d := Dir], m2, r2, d, 0, n, lost, fill)
    requires Gone(m2, r2, m, o, d)
    ensures mem.Keys == role.Keys == m.Keys == o.Keys
    ensures lost.Some? ==> lost.value in role && role[lost.value] == Free
  {
    assert mem.Keys == mem[d := ZeroPage()].Keys;
  }

  lemma UndoneAt(mem: map<nat, Page>, role: map<nat, Role>, m2: map<nat, Page>, r2: map<nat, Role>,
                 m: map<nat, Page>, o: map<nat, Role>, d: nat, n: nat, lost: Option<nat>, fill: nat -> Page, p: nat)
    requires Pool(mem, role) && d in role && role[d] == Free && p in role
    requires Grew(mem[d := ZeroPage()], role[d := Dir], m2, r2, d, 0, n, lost, fill)
    requires Gone(m2, r2, m, o, d)
    requires p != d ==> !OwnedBy(role[p], p, d)
    ensures p in m && p in o && o[p] == if lost == Some(p) then Held else role[p]
    ensures role[p] != Free ==> m[p] == mem[p]
  {
    assert p in mem[d := ZeroPage()] && p in m2 && p in r2;
  }

  /** A free page that becomes a directory maps nothing elsewhere. */
  lemma SameHole(role: map<nat, Role>, o: map<nat, Role>, src: nat, d: nat, end: nat, h: nat)
    requires d in role && role[d] == Free && o == role[d := Dir] && HoleAt(o, src, end, h)
    ensures HoleAt(role, src, end, h)
  {
    forall n: nat
      ensures IsMapped(role, src, n) <==> IsMapped(o, src, n)
    {
      if IsMapped(role, src, n) {
        var p :| p in role && role[p] == User(src, n / WORDS, n % WORDS);
        assert o[p] == role[p];
      }
    }
  }

  /** While `d` grows, `src` maps what it did, with the same contents. */
  lemma SourceSame(mem: map<nat, Page>, role: map<nat, Role>, m: map<nat, Page>, o: map<nat, Role>, src: nat, d: nat,
                   n: nat, fill: nat -> Page)
    requires Pool(mem, role) && RolesOk(mem, role) && Grew(mem, role, m, o, d, 0, n, None, fill)
    requires src in role && role[src] == Dir && d in role && role[d] == Dir && src != d && n < USERPAGES
    ensures src in o && o[src] == Dir && (MappedAt(m, src, n) != 0 <==> IsMapped(role, src, n))
    ensures IsMapped(role, src, n) ==>
              MappedAt(m, src, n) in m && m[MappedAt(m, src, n)] == CopyFill(mem, src)(n)
  {
    OtherDirSame(mem, role, m, o, d, src, n);
    UserFacts(mem, role, src, n);
  }

  // ---- a page that is lost, and what comes of it ----

  /** With one free page and no table, growing an empty address space loses that page, however many pages are wanted. */
  lemma LastPageLost(pages: nat)
    requires pages > 0
    ensures 1 < Need({}, 0, pages) && Loses(1, {}, 0, pages)
    ensures LosesLast(1, {}, 0, pages) <==> pages == 1
  {
    NeedStep({}, 0, pages);
    assert LosesAt(1, {}, 0, 0) by {
      assert Need({}, 0, 0) == 0;
    }
    if pages > 1 {
      assert Need({}, 0, pages - 1) >= pages - 1;
    }
  }

  /** When the only free page is lost, nothing else has changed its role. */
  lemma OnlyPageTaken(mem: map<nat, Page>, role: map<nat, Role>, head: nat, q: seq<nat>,
                      m: map<nat, Page>, o: map<nat, Role>, d: nat, end: nat, lost: Option<nat>)
    requires mem.Keys == role.Keys && FreeList(mem, role, head, q) && |q| == 1 && lost.Some?
    requires Grew(mem, role, m, o, d, 0, end, lost, ZeroFill())
    ensures lost.value in role && role[lost.value] == Free && o == role[lost.value := Held]
  {
    assert forall p :: p in role && role[p] == Free ==> p in q && p == q[0];
  }

  /** Growing with one free page: for one page the call reports success, and yet nothing is mapped. */
  method GrowWithOnePage(vm: Machine, d: nat, pages: nat) returns (r: nat, ghost lost: Option<nat>)
    requires vm.Valid() && |vm.queue| == 1 && d in vm.role && vm.role[d] == Dir && vm.mem[d] == ZeroPage()
    requires 0 < pages <= USERPAGES
    modifies vm
    ensures vm.Valid() && d in vm.role && vm.role[d] == Dir
    ensures r == if pages == 1 then PGSIZE else 0
    ensures MappedAt(vm.mem, d, 0) == 0 && !IsMapped(vm.role, d, 0)
    ensures lost.Some? && lost.value in old(vm.role) && old(vm.role)[lost.value] == Free
    ensures vm.role == old(vm.role)[lost.value := Held]
  {
    hide RolesOk, FreeList, Grew, Need, Loses, LosesLast, MappedAt, IsMapped;
    FreshDirEmpty(vm.mem, vm.role, d);
    LastPageLost(pages);
    ghost var m, o, head, q := vm.mem, vm.role, vm.freelist, vm.queue;
    var end := pages * PGSIZE;
    assert PagesUp(0) == 0 && PagesUp(end) == pages && end <= USERTOP;
    r, lost := vm.AllocUvm(d, 0, end);
    OnlyPageTaken(m, o, head, q, vm.mem, vm.role, d, if pages == 1 then 1 else 0, lost);
    NotMapped(o, vm.mem, vm.role, d, lost.value);
  }

  lemma NotMapped(role: map<nat, Role>, m: map<nat, Page>, o: map<nat, Role>, d: nat, p: nat)
    requires Pool(m, o) && RolesOk(m, o) && d in o && o[d] == Dir && p in role && o == role[p := Held]
    requires !IsMapped(role, d, 0)
    ensures MappedAt(m, d, 0) == 0 && !IsMapped(o, d, 0)
  {
    assert forall x :: x in o && o[x] == User(d, 0, 0) ==> x in role && role[x] == User(d, 0, 0);
    UserFacts(m, o, d, 0);
  }

  /**
   From boot with three pages: two processes get a directory each, the first grows by a page and is told that it has it,
   the second goes away, and when the first then forks, the kernel panics over the page that was never mapped.
   */
  method LostPageThenPanic() returns (r: nat, copy: nat, panicked: bool)
    ensures r == PGSIZE && panicked
  {
    hide RolesOk, FreeList, Grew, Loses, LosesLast, MappedAt, IsMapped, PagesIn, Inv, Gone, CopyOf, Undone;
    var first := 256 * PGSIZE;
    var vm := new Machine(first, first + 3 * PGSIZE);
    vm.KInit(first, first + 3 * PGSIZE);
    ThreeFree(vm.mem, vm.role, vm.freelist, vm.queue, first);
    var a := vm.SetupKvm();
    var b := vm.SetupKvm();
    ghost var lost;
    r, lost := GrowWithOnePage(vm, a, 1);
    ghost var m, o := vm.mem, vm.role;
    vm.FreeVm(b);
    HoleRemains(m, o, vm.mem, vm.role, vm.freelist, vm.queue, a, b);
    assert Need({}, 0, 0) == 0;
    ghost var h;
    copy, panicked, h, lost := vm.CopyUvm(a, PGSIZE);
  }

  lemma ThreeFree(mem: map<nat, Page>, role: map<nat, Role>, head: nat, q: seq<nat>, first: nat)
    requires Inv(mem, role, head, q) && role.Keys == PagesIn(first, first + 3 * PGSIZE)
    requires forall p :: p in role ==> role[p] == Free
    ensures |q| == 3
  {
    assert PagesIn(first + 3 * PGSIZE, first + 3 * PGSIZE) == {};
    assert PagesIn(first + 2 * PGSIZE, first + 3 * PGSIZE) == {first + 2 * PGSIZE};
    assert role.Keys == {first, first + PGSIZE, first + 2 * PGSIZE};
    SizeOfDistinct(q);
    assert Members(q) == role.Keys;
  }

  function Members(q: seq<nat>): set<nat> {
    set p | p in q
  }

  lemma {:induction false} SizeOfDistinct(q: seq<nat>)
    requires forall j, k :: 0 <= j < k < |q| ==> q[j] != q[k]
    ensures |Members(q)| == |q|
  {
    if q == [] {
      assert Members(q) == {};
    } else {
      var n := |q| - 1;
      SizeOfDistinct(q[..n]);
      assert Members(q) == Members(q[..n]) + {q[n]} && q[n] !in Members(q[..n]);
    }
  }

  /** Tearing down one directory frees a page and maps nothing in another. */
  lemma HoleRemains(mem: map<nat, Page>, role: map<nat, Role>, m: map<nat, Page>, o: map<nat, Role>, head: nat,
                    q: seq<nat>, a: nat, b: nat)
    requires Inv(m, o, head, q) && Gone(mem, role, m, o, b) && a in role && b in role && a != b
    requires role[a] == Dir && !IsMapped(role, a, 0)
    ensures q != [] && a in o && o[a] == Dir && !IsMapped(o, a, 0)
  {
    assert o[b] == Free && b in q;
  }
}

/**
 Link counts (sysfile.c, and the end of an inode in fs.c): every inode, and every
 directory as a map from names to inode numbers.

 A link count is meant to say how many directory entries name the inode. The "." of a
 directory is not counted, and neither is the ".." of a directory that has itself been
 unlinked and only lives on because a process still holds it.
 */
module Links {
  import opened Common

  const ROOT: nat := 1

  type int16 = x: int | -32768 <= x < 32768

  /** Kind 0 is a free inode. */
  datatype Node = Node(kind: int, nlink: int16)

  /** All directories: the inode that (directory, name) leads to. */
  datatype Tree = Tree(nodes: seq<Node>, ents: map<(nat, string), nat>)

  /** What a 16-bit signed counter holds. */
  function Short(x: int): int16 {
    (x + 32768) % 65536 - 32768
  }

  predicate IsDot(name: string) {
    name == "." || name == ".."
  }

  predicate IsDir(t: Tree, d: nat) {
    d < |t.nodes| && t.nodes[d].kind == T_DIR
  }

  predicate Linked(t: Tree, d: nat) {
    d < |t.nodes| && t.nodes[d].nlink > 0
  }

  predicate Counted(t: Tree, e: (nat, string)) {
    Linked(t, e.0) && e.1 != "."
  }

  /** The counted entries that name an inode. */
  function Naming(t: Tree, i: nat): set<(nat, string)> {
    set e | e in t.ents && t.ents[e] == i && Counted(t, e)
  }

  predicate CountOk(t: Tree, i: nat)
    requires i < |t.nodes|
  {
    t.nodes[i].nlink == |Naming(t, i)|
  }

  /** The promise of the link counts. */
  ghost predicate Counts(t: Tree) {
    forall i :: 0 <= i < |t.nodes| ==> CountOk(t, i)
  }

  // ---- the shape of the directories ----

  predicate Holds(t: Tree, d: nat, name: string, i: nat) {
    (d, name) in t.ents && t.ents[(d, name)] == i
  }

  predicate EntOk(t: Tree, e: (nat, string))
    requires e in t.ents
  {
    var i := t.ents[e];
    && IsDir(t, e.0) && i < |t.nodes|
    && (Counted(t, e) ==> t.nodes[i].kind != 0)
    && (!Linked(t, e.0) ==> IsDot(e.1))
    && (!IsDot(e.1) && IsDir(t, i) ==> i != ROOT && Holds(t, i, "..", e.0))
  }

  ghost predicate Named(t: Tree, d: nat) {
    exists p: nat, name :: Holds(t, d, "..", p) && !IsDot(name) && Holds(t, p, name, d)
  }

  ghost predicate DirOk(t: Tree, d: nat) {
    IsDir(t, d) ==>
      && Holds(t, d, ".", d) && (d, "..") in t.ents
      && (d != ROOT ==> t.ents[(d, "..")] != d)
      && (Linked(t, d) ==> IsDir(t, t.ents[(d, "..")]))
      && (Linked(t, d) && d != ROOT ==> Named(t, d))
  }

  /** A directory has one name. */
  predicate OneName(t: Tree, e: (nat, string), f: (nat, string)) {
    (e in t.ents && f in t.ents && t.ents[e] == t.ents[f] && IsDir(t, t.ents[e]) && !IsDot(e.1) && !IsDot(f.1)) ==>
      e == f
  }

  /** Directories form a tree under the root, with entries only where they count. */
  ghost predicate Shaped(t: Tree) {
    && IsDir(t, ROOT) && Linked(t, ROOT) && Holds(t, ROOT, "..", ROOT)
    && (forall e :: e in t.ents ==> EntOk(t, e))
    && (forall d :: 0 <= d < |t.nodes| ==> DirOk(t, d))
    && (forall e, f :: OneName(t, e, f))
  }

  ghost predicate Sound(t: Tree) {
    Shaped(t) && Counts(t)
  }

  lemma FreeUnnamed(t: Tree, i: nat)
    requires Sound(t) && i < |t.nodes| && t.nodes[i].kind == 0
    ensures t.nodes[i].nlink == 0 && Naming(t, i) == {}
  {
    assert CountOk(t, i);
    assert forall e :: e in t.ents && t.ents[e] == i ==> EntOk(t, e);
  }

  // ---- adding a name to a file ----

  function AddLink(t: Tree, dp: nat, name: string, i: nat): Tree
    requires i < |t.nodes|
  {
    Tree(t.nodes[i := t.nodes[i].(nlink := Short(t.nodes[i].nlink + 1))], t.ents[(dp, name) := i])
  }

  /** Where a name may be added: a directory without it. */
  predicate Absent(t: Tree, dp: nat, name: string) {
    IsDir(t, dp) && (dp, name) !in t.ents
  }

  lemma AbsentNotDot(t: Tree, dp: nat, name: string)
    requires Shaped(t) && Absent(t, dp, name)
    ensures !IsDot(name)
  {
    assert DirOk(t, dp);
  }

  lemma AddLinkNaming(t: Tree, dp: nat, name: string, i: nat, j: nat)
    requires Shaped(t) && Absent(t, dp, name) && i < |t.nodes| && !IsDir(t, i)
    ensures Naming(AddLink(t, dp, name, i), j) ==
            Naming(t, j) + if i == j && Linked(t, dp) then {(dp, name)} else {}
    ensures (dp, name) !in Naming(t, j)
  {
    var u := AddLink(t, dp, name, i);
    AbsentNotDot(t, dp, name);
    forall e | e in t.ents
      ensures Counted(u, e) == Counted(t, e)
    {
      assert EntOk(t, e);
    }
    assert Linked(u, dp) == Linked(t, dp);
  }

  /**
   A new link keeps every count right exactly when the directory it goes into is still
   linked and the counter does not overflow.
   */
  lemma LinkCounts(t: Tree, dp: nat, name: string, i: nat)
    requires Sound(t) && Absent(t, dp, name) && i < |t.nodes| && !IsDir(t, i)
    ensures Counts(AddLink(t, dp, name, i)) <==> Linked(t, dp) && t.nodes[i].nlink < 32767
  {
    hide Shaped, Naming, Counted;
    var u := AddLink(t, dp, name, i);
    assert CountOk(t, i);
    AddLinkNaming(t, dp, name, i, i);
    assert CountOk(u, i) <==> Linked(t, dp) && t.nodes[i].nlink < 32767;
    forall j | 0 <= j < |u.nodes| && j != i
      ensures CountOk(u, j)
    {
      assert CountOk(t, j);
      AddLinkNaming(t, dp, name, i, j);
    }
  }

  lemma NamedKept(t: Tree, u: Tree, d: nat)
    requires Named(t, d)
    requires forall e :: e in t.ents && (e == (d, "..") || (t.ents[e] == d && !IsDot(e.1))) ==>
                           Holds(u, e.0, e.1, t.ents[e])
    ensures Named(u, d)
  {
    var p: nat, name :| Holds(t, d, "..", p) && !IsDot(name) && Holds(t, p, name, d);
    assert (d, "..") in t.ents && (p, name) in t.ents;
    assert Holds(u, d, "..", p) && Holds(u, p, name, d);
  }

  lemma LinkShaped(t: Tree, dp: nat, name: string, i: nat)
    requires Sound(t) && Absent(t, dp, name) && i < |t.nodes| && !IsDir(t, i) && t.nodes[i].kind != 0
    requires Linked(t, dp) && t.nodes[i].nlink < 32767
    ensures Shaped(AddLink(t, dp, name, i))
  {
    var u := AddLink(t, dp, name, i);
    AbsentNotDot(t, dp, name);
    forall e | e in u.ents
      ensures EntOk(u, e)
    {
      if e != (dp, name) {
        assert EntOk(t, e);
      }
    }
    forall d | 0 <= d < |u.nodes|
      ensures DirOk(u, d)
    {
      assert DirOk(t, d);
      if IsDir(t, d) && Linked(t, d) && d != ROOT {
        NamedKept(t, u, d);
      }
    }
    forall e, f
      ensures OneName(u, e, f)
    {
      assert OneName(t, e, f);
    }
  }

  // ---- new files ----

  function AddFile(t: Tree, dp: nat, name: string, i: nat, kind: int): Tree
    requires i < |t.nodes|
  {
    Tree(t.nodes[i := Node(kind, 1)], t.ents[(dp, name) := i])
  }

  lemma FileNaming(t: Tree, dp: nat, name: string, i: nat, kind: int, j: nat)
    requires Sound(t) && Absent(t, dp, name) && i < |t.nodes| && t.nodes[i].kind == 0
    ensures Naming(AddFile(t, dp, name, i, kind), j) ==
            Naming(t, j) + if i == j && Linked(t, dp) then {(dp, name)} else {}
    ensures (dp, name) !in Naming(t, j)
  {
    var u := AddFile(t, dp, name, i, kind);
    AbsentNotDot(t, dp, name);
    forall e | e in t.ents
      ensures Counted(u, e) == Counted(t, e)
    {
      assert EntOk(t, e);
    }
    assert Linked(u, dp) == Linked(t, dp);
  }

  /** A new file keeps every count right exactly when its directory is still linked. */
  lemma FileCounts(t: Tree, dp: nat, name: string, i: nat, kind: int)
    requires Sound(t) && Absent(t, dp, name) && i < |t.nodes| && t.nodes[i].kind == 0
    ensures Counts(AddFile(t, dp, name, i, kind)) <==> Linked(t, dp)
  {
    hide Shaped, Naming, Counted;
    var u := AddFile(t, dp, name, i, kind);
    FreeUnnamed(t, i);
    FileNaming(t, dp, name, i, kind, i);
    assert CountOk(u, i) <==> Linked(t, dp);
    forall j | 0 <= j < |u.nodes| && j != i
      ensures CountOk(u, j)
    {
      assert CountOk(t, j);
      FileNaming(t, dp, name, i, kind, j);
    }
  }

  lemma FileShaped(t: Tree, dp: nat, name: string, i: nat, kind: int)
    requires Sound(t) && Absent(t, dp, name) && i < |t.nodes| && t.nodes[i].kind == 0
    requires Linked(t, dp) && kind != 0 && kind != T_DIR
    ensures Shaped(AddFile(t, dp, name, i, kind))
  {
    var u := AddFile(t, dp, name, i, kind);
    AbsentNotDot(t, dp, name);
    FreeUnnamed(t, i);
    forall e | e in u.ents
      ensures EntOk(u, e)
    {
      if e != (dp, name) {
        assert EntOk(t, e);
      }
    }
    forall d | 0 <= d < |u.nodes|
      ensures DirOk(u, d)
    {
      assert DirOk(t, d);
      if IsDir(t, d) && Linked(t, d) && d != ROOT {
        NamedKept(t, u, d);
      }
    }
    forall e, f
      ensures OneName(u, e, f)
    {
      assert OneName(t, e, f);
    }
  }

  // ---- new directories ----

  function AddDir(t: Tree, dp: nat, name: string, i: nat): Tree
    requires i < |t.nodes| && dp < |t.nodes|
  {
    var parent := t.nodes[dp].(nlink := Short(t.nodes[dp].nlink + 1));
    Tree(t.nodes[dp := parent][i := Node(T_DIR, 1)],
         t.ents[(i, ".") := i][(i, "..") := dp][(dp, name) := i])
  }

  /** What counts after a new directory whose parent was linked. */
  lemma DirNaming(t: Tree, dp: nat, name: string, i: nat, j: nat)
    requires Sound(t) && Absent(t, dp, name) && i < |t.nodes| && t.nodes[i].kind == 0
    requires Linked(t, dp) && t.nodes[dp].nlink < 32767
    ensures Naming(AddDir(t, dp, name, i), j) ==
            Naming(t, j) + (if j == i then {(dp, name)} else {}) + (if j == dp then {(i, "..")} else {})
    ensures (dp, name) !in Naming(t, j) && (i, "..") !in Naming(t, j)
  {
    var u := AddDir(t, dp, name, i);
    AbsentNotDot(t, dp, name);
    forall e | e in t.ents
      ensures Counted(u, e) == Counted(t, e) && e.0 != i
    {
      assert EntOk(t, e);
    }
  }

  lemma DirCountsKept(t: Tree, dp: nat, name: string, i: nat)
    requires Sound(t) && Absent(t, dp, name) && i < |t.nodes| && t.nodes[i].kind == 0
    requires Linked(t, dp) && t.nodes[dp].nlink < 32767
    ensures Counts(AddDir(t, dp, name, i))
  {
    hide Shaped, Naming, Counted;
    var u := AddDir(t, dp, name, i);
    FreeUnnamed(t, i);
    forall j | 0 <= j < |u.nodes|
      ensures CountOk(u, j)
    {
      assert CountOk(t, j);
      DirNaming(t, dp, name, i, j);
    }
  }

  /**
   Without a linked parent the count of the parent's parent goes wrong: the new
   directory makes its own parent look linked again, whose ".." is then counted.
   */
  lemma DirCountsLost(t: Tree, dp: nat, name: string, i: nat)
    requires Sound(t) && Absent(t, dp, name) && i < |t.nodes| && t.nodes[i].kind == 0
    requires !Linked(t, dp) || t.nodes[dp].nlink >= 32767
    ensures !Counts(AddDir(t, dp, name, i))
  {
    var u := AddDir(t, dp, name, i);
    assert CountOk(t, dp) && DirOk(t, dp);
    AbsentNotDot(t, dp, name);
    if t.nodes[dp].nlink == 32767 {
      assert !CountOk(u, dp);
    } else {
      ParentMiscounted(t, dp, name, i);
    }
  }

  lemma ParentMiscounted(t: Tree, dp: nat, name: string, i: nat)
    requires Sound(t) && Absent(t, dp, name) && i < |t.nodes| && t.nodes[i].kind == 0
    requires t.nodes[dp].nlink == 0
    ensures (dp, "..") in t.ents
    ensures var u, up := AddDir(t, dp, name, i), t.ents[(dp, "..")]; up < |u.nodes| && !CountOk(u, up)
  {
    hide Counts;
    var u := AddDir(t, dp, name, i);
    AbsentNotDot(t, dp, name);
    assert DirOk(t, dp);
    var up := t.ents[(dp, "..")];
    assert EntOk(t, (dp, ".."));
    if up == i {
      SubsetSize({(dp, name), (dp, "..")}, Naming(u, i));
    } else {
      StillNaming(t, dp, name, i, up);
      SubsetSize(Naming(t, up) + {(dp, "..")}, Naming(u, up));
      CountOf(t, up);
    }
  }

  lemma CountOf(t: Tree, i: nat)
    requires Counts(t) && i < |t.nodes|
    ensures t.nodes[i].nlink == |Naming(t, i)|
  {
    assert CountOk(t, i);
  }

  lemma StillNaming(t: Tree, dp: nat, name: string, i: nat, up: nat)
    requires Sound(t) && Absent(t, dp, name) && i < |t.nodes| && t.nodes[i].kind == 0
    requires t.nodes[dp].nlink == 0
    ensures Naming(t, up) <= Naming(AddDir(t, dp, name, i), up)
  {
    forall e | e in Naming(t, up)
      ensures e in Naming(AddDir(t, dp, name, i), up)
    {
      assert EntOk(t, e);
    }
  }

  lemma {:induction false} SubsetSize<T>(a: set<T>, b: set<T>)
    requires a <= b
    ensures |a| <= |b|
    decreases |a|
  {
    if a != {} {
      var x :| x in a;
      SubsetSize(a - {x}, b - {x});
    }
  }

  lemma DirEntries(t: Tree, dp: nat, name: string, i: nat, e: (nat, string))
    requires Sound(t) && Absent(t, dp, name) && i < |t.nodes| && t.nodes[i].kind == 0
    requires Linked(t, dp) && t.nodes[dp].nlink < 32767
    ensures e in t.ents ==> e.0 != i && (!IsDot(e.1) ==> t.ents[e] != i)
    ensures var u := AddDir(t, dp, name, i); e in u.ents ==> EntOk(u, e)
  {
    AbsentNotDot(t, dp, name);
    if e in t.ents {
      assert EntOk(t, e);
    }
  }

  lemma DirShaped(t: Tree, dp: nat, name: string, i: nat)
    requires Sound(t) && Absent(t, dp, name) && i < |t.nodes| && t.nodes[i].kind == 0
    requires Linked(t, dp) && t.nodes[dp].nlink < 32767
    ensures Shaped(AddDir(t, dp, name, i))
  {
    hide EntOk, Counts;
    var u := AddDir(t, dp, name, i);
    AbsentNotDot(t, dp, name);
    forall e
      ensures e in u.ents ==> EntOk(u, e)
      ensures e in t.ents ==> e.0 != i && (!IsDot(e.1) ==> t.ents[e] != i)
    {
      DirEntries(t, dp, name, i, e);
    }
    forall d | 0 <= d < |u.nodes|
      ensures DirOk(u, d)
    {
      assert DirOk(t, d);
      if d == i {
        assert Holds(u, i, "..", dp) && Holds(u, dp, name, i);
      } else if IsDir(t, d) && Linked(t, d) && d != ROOT {
        NamedKept(t, u, d);
      }
    }
    forall e, f
      ensures OneName(u, e, f)
    {
      assert OneName(t, e, f);
    }
  }

  /** A new directory keeps every count right exactly when its parent is still linked and its counter has room. */
  lemma DirCounts(t: Tree, dp: nat, name: string, i: nat)
    requires Sound(t) && Absent(t, dp, name) && i < |t.nodes| && t.nodes[i].kind == 0
    ensures Counts(AddDir(t, dp, name, i)) <==> Linked(t, dp) && t.nodes[dp].nlink < 32767
  {
    if Linked(t, dp) && t.nodes[dp].nlink < 32767 {
      DirCountsKept(t, dp, name, i);
    } else {
      DirCountsLost(t, dp, name, i);
    }
  }

  // ---- removing names ----

  predicate Empty(t: Tree, d: nat) {
    forall e :: e in t.ents && e.0 == d ==> IsDot(e.1)
  }

  /** One link less for an inode. */
  function Fewer(t: Tree, i: nat): Node
    requires i < |t.nodes|
  {
    t.nodes[i].(nlink := Short(t.nodes[i].nlink - 1))
  }

  function RemoveFile(t: Tree, dp: nat, name: string, i: nat): Tree
    requires i < |t.nodes|
  {
    Tree(t.nodes[i := Fewer(t, i)], t.ents - {(dp, name)})
  }

  function RemoveDir(t: Tree, dp: nat, name: string, i: nat): Tree
    requires i < |t.nodes| && dp < |t.nodes|
  {
    Tree(t.nodes[dp := Fewer(t, dp)][i := Fewer(t, i)], t.ents - {(dp, name)})
  }

  /** A name that may be removed, and what it leads to. */
  predicate Removable(t: Tree, dp: nat, name: string, i: nat) {
    !IsDot(name) && Holds(t, dp, name, i)
  }

  /** A name other than the dots does not lead to its own directory. */
  lemma NotItself(t: Tree, dp: nat, name: string, i: nat)
    requires Shaped(t) && Removable(t, dp, name, i)
    ensures i != dp
  {
    assert EntOk(t, (dp, name)) && DirOk(t, dp);
  }

  lemma RemovableCounts(t: Tree, dp: nat, name: string, i: nat)
    requires Sound(t) && Removable(t, dp, name, i)
    ensures i < |t.nodes| && t.nodes[i].kind != 0 && t.nodes[i].nlink >= 1
    ensures IsDir(t, dp) && Linked(t, dp) && (dp, name) in Naming(t, i)
  {
    assert EntOk(t, (dp, name));
    assert CountOk(t, i);
    SubsetSize({(dp, name)}, Naming(t, i));
  }

  lemma RemoveFileSound(t: Tree, dp: nat, name: string, i: nat)
    requires Sound(t) && Removable(t, dp, name, i) && i < |t.nodes| && !IsDir(t, i)
    ensures Sound(RemoveFile(t, dp, name, i))
  {
    var u := RemoveFile(t, dp, name, i);
    RemovableCounts(t, dp, name, i);
    forall e | e in t.ents
      ensures Counted(u, e) == Counted(t, e)
    {
      assert EntOk(t, e);
    }
    forall j | 0 <= j < |u.nodes|
      ensures CountOk(u, j)
    {
      assert CountOk(t, j);
      assert Naming(u, j) == Naming(t, j) - if j == i then {(dp, name)} else {};
    }
    RemoveFileShaped(t, dp, name, i);
  }

  lemma RemoveFileShaped(t: Tree, dp: nat, name: string, i: nat)
    requires Sound(t) && Removable(t, dp, name, i) && i < |t.nodes| && !IsDir(t, i)
    ensures Shaped(RemoveFile(t, dp, name, i))
  {
    var u := RemoveFile(t, dp, name, i);
    RemovableCounts(t, dp, name, i);
    forall e | e in u.ents
      ensures EntOk(u, e)
    {
      assert EntOk(t, e);
    }
    forall d | 0 <= d < |u.nodes|
      ensures DirOk(u, d)
    {
      assert DirOk(t, d);
      if IsDir(t, d) && Linked(t, d) && d != ROOT {
        NamedKept(t, u, d);
      }
    }
    forall e, f
      ensures OneName(u, e, f)
    {
      assert OneName(t, e, f);
    }
  }

  /** No directory has an empty one as its parent, and so an empty one has only its own name. */
  lemma EmptyNamedOnce(t: Tree, dp: nat, name: string, i: nat)
    requires Sound(t) && Removable(t, dp, name, i) && IsDir(t, i) && Empty(t, i)
    ensures Naming(t, i) == {(dp, name)} && i != ROOT && i != dp && t.ents[(i, "..")] == dp
    ensures t.nodes[i].nlink == 1
  {
    RemovableCounts(t, dp, name, i);
    assert EntOk(t, (dp, name)) && DirOk(t, i) && CountOk(t, i);
    forall e | e in Naming(t, i)
      ensures e == (dp, name)
    {
      assert OneName(t, e, (dp, name));
      if IsDot(e.1) {
        ParentNotEmpty(t, e.0, i);
      }
    }
  }

  lemma ParentNotEmpty(t: Tree, d: nat, i: nat)
    requires Shaped(t) && Linked(t, d) && Holds(t, d, "..", i) && i != ROOT
    ensures !Empty(t, i)
  {
    assert EntOk(t, (d, ".."));
    assert DirOk(t, d);
    var p: nat, name :| Holds(t, d, "..", p) && !IsDot(name) && Holds(t, p, name, d);
    assert (i, name) in t.ents;
  }

  /** A directory with another below it keeps a link when that one goes. */
  lemma ParentKeepsLink(t: Tree, dp: nat, i: nat)
    requires Sound(t) && IsDir(t, dp) && Linked(t, dp) && Linked(t, i) && i != ROOT && i != dp
    requires Holds(t, i, "..", dp)
    ensures t.nodes[dp].nlink >= 2
  {
    assert CountOk(t, dp) && DirOk(t, dp);
    var e: (nat, string);
    if dp == ROOT {
      e := (ROOT, "..");
    } else {
      var p: nat, name :| Holds(t, dp, "..", p) && !IsDot(name) && Holds(t, p, name, dp);
      e := (p, name);
      assert EntOk(t, e);
    }
    SubsetSize({e, (i, "..")}, Naming(t, dp));
  }

  lemma RemoveDirNaming(t: Tree, dp: nat, name: string, i: nat, j: nat)
    requires Sound(t) && Removable(t, dp, name, i) && IsDir(t, i) && Empty(t, i)
    ensures IsDir(t, dp) && Linked(t, dp) && t.nodes[dp].nlink >= 2
    ensures Naming(RemoveDir(t, dp, name, i), j) ==
            Naming(t, j) - (if j == i then {(dp, name)} else {}) - (if j == dp then {(i, "..")} else {})
    ensures (i, "..") in Naming(t, dp)
  {
    RemovableCounts(t, dp, name, i);
    EmptyNamedOnce(t, dp, name, i);
    assert DirOk(t, i);
    ParentKeepsLink(t, dp, i);
    var u := RemoveDir(t, dp, name, i);
    forall e | e in t.ents
      ensures Counted(u, e) == (Counted(t, e) && e.0 != i)
      ensures e.0 == i ==> e == (i, ".") || e == (i, "..")
    {
      assert EntOk(t, e);
    }
  }

  lemma RemoveDirCounts(t: Tree, dp: nat, name: string, i: nat)
    requires Sound(t) && Removable(t, dp, name, i) && IsDir(t, i) && Empty(t, i)
    ensures IsDir(t, dp) && Counts(RemoveDir(t, dp, name, i))
  {
    hide Shaped, Naming, Counted, Empty;
    RemovableCounts(t, dp, name, i);
    EmptyNamedOnce(t, dp, name, i);
    var u := RemoveDir(t, dp, name, i);
    forall j | 0 <= j < |u.nodes|
      ensures CountOk(u, j)
    {
      assert CountOk(t, j);
      RemoveDirNaming(t, dp, name, i, j);
    }
  }

  lemma RemoveDirShaped(t: Tree, dp: nat, name: string, i: nat)
    requires Sound(t) && Removable(t, dp, name, i) && IsDir(t, i) && Empty(t, i)
    ensures IsDir(t, dp) && Shaped(RemoveDir(t, dp, name, i))
  {
    hide Counts, Naming;
    RemoveDirNaming(t, dp, name, i, i);
    EmptyNamedOnce(t, dp, name, i);
    var u := RemoveDir(t, dp, name, i);
    forall e | e in u.ents
      ensures EntOk(u, e)
    {
      assert EntOk(t, e);
      assert OneName(t, e, (dp, name));
    }
    forall d | 0 <= d < |u.nodes|
      ensures DirOk(u, d)
    {
      assert DirOk(t, d);
      if IsDir(t, d) && Linked(t, d) && d != ROOT && d != i {
        NamedKept(t, u, d);
      }
    }
    forall e, f
      ensures OneName(u, e, f)
    {
      assert OneName(t, e, f);
    }
  }

  // ---- the end of an inode ----

  function Free(t: Tree, i: nat): Tree
    requires i < |t.nodes|
  {
    Tree(t.nodes[i := Node(0, 0)], map e | e in t.ents && e.0 != i :: t.ents[e])
  }

  lemma FreeSound(t: Tree, i: nat)
    requires Sound(t) && i < |t.nodes| && t.nodes[i].nlink == 0
    ensures Sound(Free(t, i))
  {
    var u := Free(t, i);
    forall e | e in t.ents
      ensures Counted(u, e) == Counted(t, e)
      ensures Counted(t, e) ==> e in u.ents && t.ents[e] != i
    {
      assert EntOk(t, e);
      Unnamed(t, i, e);
    }
    forall j | 0 <= j < |u.nodes|
      ensures CountOk(u, j)
    {
      assert CountOk(t, j);
      assert Naming(u, j) == Naming(t, j);
    }
    FreeShaped(t, i);
  }

  lemma Unnamed(t: Tree, i: nat, e: (nat, string))
    requires Sound(t) && i < |t.nodes| && t.nodes[i].nlink == 0
    ensures e in t.ents && Counted(t, e) ==> t.ents[e] != i
  {
    assert CountOk(t, i);
    assert Naming(t, i) == {};
    assert e !in Naming(t, i);
  }

  lemma FreeShaped(t: Tree, i: nat)
    requires Sound(t) && i < |t.nodes| && t.nodes[i].nlink == 0
    ensures Shaped(Free(t, i))
  {
    hide Counts, Naming;
    var u := Free(t, i);
    forall e | e in t.ents
      ensures Counted(t, e) ==> t.ents[e] != i
    {
      Unnamed(t, i, e);
    }
    forall e | e in u.ents
      ensures EntOk(u, e)
    {
      assert EntOk(t, e);
    }
    forall d | 0 <= d < |u.nodes|
      ensures DirOk(u, d)
    {
      assert DirOk(t, d);
      if IsDir(t, d) && Linked(t, d) && d != ROOT {
        assert forall e :: e in t.ents ==> EntOk(t, e);
        NamedKept(t, u, d);
      }
    }
    forall e, f
      ensures OneName(u, e, f)
    {
      assert OneName(t, e, f);
    }
  }
}

/**
 The directories on disk as the tree of the link counts: what an image shows as inodes
 and entries, and that the steps of the system calls on the image are those on the tree.

 The inodes that a step works on are given by their entries in the inode cache; FsNames
 walks paths to them and FsCalls puts the calls together.
 */
module FsTree {
  import opened Common
  import opened FsVolume
  import opened FsBytes
  import opened FileSystem
  import opened FsDir
  import L = Links
  import S = Sysfile
  import B = BufferCache

  /** The bytes of a name as characters. */
  function Str(nm: seq<Byte>): (s: string)
    ensures |s| == |nm|
  {
    seq(|nm|, k requires 0 <= k < |nm| => nm[k] as char)
  }

  lemma StrInjective(a: seq<Byte>, b: seq<Byte>)
    requires Str(a) == Str(b)
    ensures a == b
  {
    assert |a| == |b|;
    forall k | 0 <= k < |a|
      ensures a[k] == b[k]
    {
      assert Str(a)[k] == Str(b)[k];
    }
  }

  /** The entry for `nm` that the tree has under `d`. */
  function EntryOf(t: L.Tree, d: nat, nm: seq<Byte>): Option<nat> {
    if (d, Str(nm)) in t.ents then Some(t.ents[(d, Str(nm))]) else None
  }

  /** Directory contents `c` are the entries that the tree has under `d`. */
  ghost predicate ShowsDir(c: seq<Byte>, t: L.Tree, d: nat) {
    && |c| % DENT == 0 && UniqueNames(c)
    && (forall nm :: Lookup(c, nm) == EntryOf(t, d, nm))
    && ((d, ".") in t.ents && (d, "..") in t.ents ==> Matches(c, 0, DOT) && Matches(c, 1, DOTDOT))
  }

  predicate ShowsNode(v: Vol, t: L.Tree, i: nat) {
    i < |v.nodes| && i < |t.nodes| && t.nodes[i].kind == v.nodes[i].kind && t.nodes[i].nlink == v.nodes[i].nlink
  }

  ghost predicate ShowsAt(v: Vol, t: L.Tree, i: nat) {
    ShowsNode(v, t, i) && (v.nodes[i].kind == T_DIR ==> ShowsDir(Contents(v, i), t, i))
  }

  /** Entries are under directories, and their names can be written on disk. */
  ghost predicate EntryNamed(t: L.Tree, e: (nat, string)) {
    L.IsDir(t, e.0) && exists nm :: Str(nm) == e.1
  }

  /** The image shows the tree. */
  ghost predicate Shows(v: Vol, t: L.Tree) {
    && |v.nodes| == |t.nodes|
    && (forall i :: 0 <= i < |v.nodes| ==> ShowsAt(v, t, i))
    && (forall e :: e in t.ents ==> EntryNamed(t, e))
  }

  /** All inodes but `i` are the same and have the same contents. */
  ghost predicate Elsewhere(v: Vol, w: Vol, i: nat) {
    && |v.nodes| == |w.nodes|
    && forall j :: 0 <= j < |v.nodes| && j != i ==> w.nodes[j] == v.nodes[j] && Contents(w, j) == Contents(v, j)
  }

  // ---- the steps on the tree ----

  function WithEntry(t: L.Tree, d: nat, nm: seq<Byte>, i: nat): L.Tree {
    t.(ents := t.ents[(d, Str(nm)) := i])
  }

  function WithoutEntry(t: L.Tree, d: nat, nm: seq<Byte>): L.Tree {
    t.(ents := t.ents - {(d, Str(nm))})
  }

  function WithNode(t: L.Tree, i: nat, kind: int, nlink: L.int16): L.Tree
    requires i < |t.nodes|
  {
    t.(nodes := t.nodes[i := L.Node(kind, nlink)])
  }

  /** The dots of a directory stay in their places when an entry is added. */
  lemma DotsPlaced(c: seq<Byte>, d: seq<Byte>, t: L.Tree, i: nat, nm: seq<Byte>, inum: nat)
    requires ShowsDir(c, t, i) && LinkResult(c, d, nm, inum)
    requires nm == DOTDOT ==> (i, ".") in t.ents && |c| == DENT && Matches(c, 0, DOT)
    requires nm == DOT ==> (i, "..") !in t.ents
    ensures var u := WithEntry(t, i, nm, inum);
            (i, ".") in u.ents && (i, "..") in u.ents ==> Matches(d, 0, DOT) && Matches(d, 1, DOTDOT)
  {
    DotNames();
    if nm == DOTDOT {
      assert FirstFree(c, 0) == FirstFree(c, 1) == 1;
    }
    if Str(nm) == "." {
      StrInjective(nm, DOT);
    }
    if Str(nm) == ".." {
      StrInjective(nm, DOTDOT);
    }
  }

  lemma DotNames()
    ensures Str(DOT) == "." && Str(DOTDOT) == ".."
  {
    assert Str(DOT)[0] == '.' && Str(DOTDOT)[0] == '.' && Str(DOTDOT)[1] == '.';
  }

  /** Adding an entry on disk adds it to the tree. */
  lemma EntryAdded(v: Vol, w: Vol, t: L.Tree, d: nat, nm: seq<Byte>, inum: nat)
    requires Shows(v, t) && L.IsDir(t, d) && Elsewhere(v, w, d)
    requires w.nodes[d].kind == v.nodes[d].kind && w.nodes[d].nlink == v.nodes[d].nlink
    requires LinkResult(Contents(v, d), Contents(w, d), nm, inum)
    requires nm == DOTDOT ==> (d, ".") in t.ents && |Contents(v, d)| == DENT && Matches(Contents(v, d), 0, DOT)
    requires nm == DOT ==> (d, "..") !in t.ents
    ensures Shows(w, WithEntry(t, d, nm, inum))
  {
    hide LinkResult, UniqueNames, Matches, Lookup, Contents;
    var u := WithEntry(t, d, nm, inum);
    assert ShowsAt(v, t, d);
    forall i | 0 <= i < |w.nodes|
      ensures ShowsAt(w, u, i)
    {
      assert ShowsAt(v, t, i);
      if i == d {
        AddedHere(Contents(v, d), Contents(w, d), t, d, nm, inum);
      } else {
        SameDir(Contents(v, i), t, u, i);
      }
    }
    forall e | e in u.ents
      ensures EntryNamed(u, e)
    {
      assert e in t.ents ==> EntryNamed(t, e);
    }
  }

  lemma SameDir(c: seq<Byte>, t: L.Tree, u: L.Tree, i: nat)
    requires forall s :: (i, s) in t.ents <==> (i, s) in u.ents
    requires forall s :: (i, s) in t.ents ==> u.ents[(i, s)] == t.ents[(i, s)]
    ensures ShowsDir(c, t, i) ==> ShowsDir(c, u, i)
  {
    assert forall nm :: EntryOf(u, i, nm) == EntryOf(t, i, nm);
  }

  lemma AddedHere(c: seq<Byte>, c': seq<Byte>, t: L.Tree, d: nat, nm: seq<Byte>, inum: nat)
    requires ShowsDir(c, t, d) && LinkResult(c, c', nm, inum)
    requires nm == DOTDOT ==> (d, ".") in t.ents && |c| == DENT && Matches(c, 0, DOT)
    requires nm == DOT ==> (d, "..") !in t.ents
    ensures ShowsDir(c', WithEntry(t, d, nm, inum), d)
  {
    hide Matches, Lookup, UniqueNames;
    var u := WithEntry(t, d, nm, inum);
    DotsPlaced(c, c', t, d, nm, inum);
    forall x
      ensures Lookup(c', x) == EntryOf(u, d, x)
    {
      assert Lookup(c, x) == EntryOf(t, d, x);
      if Str(x) == Str(nm) {
        StrInjective(x, nm);
      }
    }
  }

  /** Erasing an entry on disk removes it from the tree. */
  lemma EntryErased(v: Vol, w: Vol, t: L.Tree, d: nat, nm: seq<Byte>)
    requires Shows(v, t) && L.IsDir(t, d) && Elsewhere(v, w, d) && w.nodes[d] == v.nodes[d]
    requires Erased(Contents(v, d), Contents(w, d), nm) && nm != DOT && nm != DOTDOT
    ensures Shows(w, WithoutEntry(t, d, nm))
  {
    hide Erased, UniqueNames, Matches, Lookup, Contents;
    var u := WithoutEntry(t, d, nm);
    assert ShowsAt(v, t, d);
    forall i | 0 <= i < |w.nodes|
      ensures ShowsAt(w, u, i)
    {
      assert ShowsAt(v, t, i);
      if i == d {
        ErasedHere(Contents(v, d), Contents(w, d), t, d, nm);
      } else {
        SameDir(Contents(v, i), t, u, i);
      }
    }
    forall e | e in u.ents
      ensures EntryNamed(u, e)
    {
      assert EntryNamed(t, e);
    }
  }

  lemma ErasedHere(c: seq<Byte>, c': seq<Byte>, t: L.Tree, d: nat, nm: seq<Byte>)
    requires ShowsDir(c, t, d) && Erased(c, c', nm) && nm != DOT && nm != DOTDOT
    ensures ShowsDir(c', WithoutEntry(t, d, nm), d)
  {
    hide Matches, Lookup, UniqueNames;
    var u := WithoutEntry(t, d, nm);
    forall x
      ensures Lookup(c', x) == EntryOf(u, d, x)
    {
      assert Lookup(c, x) == EntryOf(t, d, x);
      if Str(x) == Str(nm) {
        StrInjective(x, nm);
      }
    }
  }

  /** Changing the link count of an inode on disk changes it in the tree. */
  lemma FieldsChanged(v: Vol, w: Vol, t: L.Tree, i: nat, n: L.int16)
    requires Shows(v, t) && i < |v.nodes| && Elsewhere(v, w, i)
    requires w.nodes[i].kind == v.nodes[i].kind && w.nodes[i].nlink == n && Contents(w, i) == Contents(v, i)
    ensures Shows(w, WithNode(t, i, t.nodes[i].kind, n))
  {
    hide Contents, ShowsDir;
    var u := WithNode(t, i, t.nodes[i].kind, n);
    assert ShowsAt(v, t, i);
    forall j | 0 <= j < |w.nodes|
      ensures ShowsAt(w, u, j)
    {
      assert ShowsAt(v, t, j);
      SameDir(Contents(w, j), t, u, j);
    }
    forall e | e in u.ents
      ensures EntryNamed(u, e)
    {
      assert EntryNamed(t, e);
    }
  }

  /** A free inode taken on disk is taken in the tree, without links and without entries. */
  lemma InodeTaken(v: Vol, w: Vol, t: L.Tree, i: nat, kind: int)
    requires Shows(v, t) && i < |v.nodes| && Elsewhere(v, w, i) && v.nodes[i].kind == 0
    requires w.nodes[i].kind == kind && w.nodes[i].nlink == 0 && Contents(w, i) == []
    ensures Shows(w, WithNode(t, i, kind, 0))
  {
    hide Contents, ShowsDir;
    var u := WithNode(t, i, kind, 0);
    assert ShowsAt(v, t, i);
    assert forall e :: e in t.ents ==> EntryNamed(t, e);
    forall j | 0 <= j < |w.nodes|
      ensures ShowsAt(w, u, j)
    {
      assert ShowsAt(v, t, j);
      if j == i {
        NoEntries(u, i);
      } else {
        SameDir(Contents(w, j), t, u, j);
      }
    }
    forall e | e in u.ents
      ensures EntryNamed(u, e)
    {
      assert EntryNamed(t, e);
    }
  }

  lemma NoEntries(t: L.Tree, i: nat)
    requires forall e :: e in t.ents ==> e.0 != i
    ensures ShowsDir([], t, i)
  {
    forall nm
      ensures Lookup([], nm) == EntryOf(t, i, nm)
    {
      assert (i, Str(nm)) !in t.ents;
    }
  }

  /** Freeing an inode on disk frees it in the tree, entries and all. */
  lemma InodeFreed(v: Vol, w: Vol, t: L.Tree, i: nat)
    requires Shows(v, t) && i < |v.nodes| && Elsewhere(v, w, i)
    requires w.nodes[i].kind == 0 && w.nodes[i].nlink == 0
    ensures Shows(w, L.Free(t, i))
  {
    hide Contents, ShowsDir;
    var u := L.Free(t, i);
    forall j | 0 <= j < |w.nodes|
      ensures ShowsAt(w, u, j)
    {
      assert ShowsAt(v, t, j);
      if j != i {
        SameDir(Contents(w, j), t, u, j);
      }
    }
    forall e | e in u.ents
      ensures EntryNamed(u, e)
    {
      assert EntryNamed(t, e);
    }
  }

  lemma NodeShown(v: Vol, t: L.Tree, i: nat)
    requires Shows(v, t) && i < |v.nodes|
    ensures ShowsNode(v, t, i) && |t.nodes| == |v.nodes|
    ensures L.IsDir(t, i) ==> ShowsDir(Contents(v, i), t, i)
  {
    assert ShowsAt(v, t, i);
  }

  lemma KindsShown(v: Vol, t: L.Tree)
    requires Shows(v, t)
    ensures |t.nodes| == |v.nodes| && forall i :: 0 <= i < |t.nodes| ==> t.nodes[i].kind == v.nodes[i].kind
  {
    forall i | 0 <= i < |v.nodes|
      ensures t.nodes[i].kind == v.nodes[i].kind
    {
      NodeShown(v, t, i);
    }
  }

  // ---- the steps on disk ----

  /** The slots of the inode cache are in the same use, whatever inode data they hold. */
  ghost predicate SameSlots(c: seq<Inode>, c': seq<Inode>) {
    && |c| == |c'|
    && forall q :: 0 <= q < |c| ==>
         && c'[q].inum == c[q].inum && c'[q].refs == c[q].refs && c'[q].busy == c[q].busy
         && (c[q].valid ==> c'[q].valid)
  }

  /** The file system is in order and shows the tree, and every inode is on disk as it is in memory. */
  ghost predicate Calm(fs: Fs, t: L.Tree)
    reads fs, fs.disk
  {
    fs.Valid() && Shows(fs.V(), t) && fs.dinodes == fs.cur
  }

  /** No inode has two cache entries. */
  lemma OneEntry(fs: Fs, t: L.Tree)
    requires Calm(fs, t)
    ensures forall p, q :: Live(fs.icache, p) && Live(fs.icache, q) && fs.icache[p].inum == fs.icache[q].inum ==> p == q
  {
    hide Inv, fs.Cached, RestExcept, Shows, CacheAgrees;
  }

  lemma Extent(fs: Fs, t: L.Tree)
    requires Calm(fs, t)
    ensures |fs.icache| == NINODE && fs.nblocks <= |fs.bitmap| && |fs.cur| == |t.nodes|
    ensures forall s :: Live(fs.icache, s) ==> fs.icache[s].inum < |fs.cur|
  {
    hide RefsOk, OwnersOk, fs.Cached, RestExcept, ShowsAt, CacheAgrees;
  }

  /** All files have the same contents. */
  ghost predicate SameFiles(v: Vol, w: Vol) {
    |v.nodes| == |w.nodes| && forall j :: 0 <= j < |v.nodes| ==> Contents(w, j) == Contents(v, j)
  }

  /** Directory `i` has room for one more entry, with `besides` blocks taken elsewhere. */
  ghost predicate HasRoom(fs: Fs, v: Vol, i: nat, besides: nat) {
    && i < |v.nodes| && fs.nblocks <= |v.bitmap|
    && |Contents(v, i)| % DENT == 0 && Room(fs, v.bitmap, Contents(v, i), besides)
  }

  /** Set the fields of a locked inode that are neither its kind nor its contents. */
  method SetFields(fs: Fs, s: nat, major: int, minor: int, n: L.int16, ghost t: L.Tree) returns (ghost u: L.Tree)
    requires Calm(fs, t) && Locked(fs.icache, s)
    modifies fs`icache, fs`cur, fs`dinodes
    ensures Calm(fs, u) && SameSlots(old(fs.icache), fs.icache)
    ensures var i := old(fs.icache[s]).inum; i < |t.nodes| && u == WithNode(t, i, t.nodes[i].kind, n)
    ensures SameFiles(old(fs.V()), fs.V())
  {
    hide RefsOk, OwnersOk, fs.Cached, RestExcept, Contents, Shows;
    ghost var i := fs.icache[s].inum;
    ghost var v := fs.V();
    fs.AtRest(s);
    NodeShown(v, t, i);
    fs.SetInode(s, fs.icache[s].d.(major := major, minor := minor, nlink := n));
    RetypeDone(v, fs.book, fs.V(), fs.Start(), i);
    FieldsChanged(v, fs.V(), t, i, n);
    u := WithNode(t, i, t.nodes[i].kind, n);
  }

  /** The dots go into a directory first, in their order. */
  ghost predicate DotsInOrder(c: seq<Byte>, t: L.Tree, i: nat, nm: seq<Byte>) {
    && (nm == DOT && (i, ".") !in t.ents ==> (i, "..") !in t.ents)
    && (nm == DOTDOT && (i, "..") !in t.ents ==> (i, ".") in t.ents && |c| == DENT && Matches(c, 0, DOT))
  }

  /** dirlink on disk is a new entry of the tree. */
  method AddName(fs: Fs, s: nat, name: seq<Byte>, inum: nat, ghost t: L.Tree)
    returns (r: int, ok: bool, ghost u: L.Tree)
    requires Calm(fs, t) && Locked(fs.icache, s) && L.IsDir(t, fs.icache[s].inum) && 0 < inum < 65536
    requires DotsInOrder(Contents(fs.V(), fs.icache[s].inum), t, fs.icache[s].inum, Canon(name))
    modifies fs, fs.disk
    ensures r == if (old(fs.icache[s].inum), Str(Canon(name))) in t.ents then -1 else 0
    ensures r == -1 ==> ok
    ensures r == 0 ==> (ok <==> HasRoom(fs, old(fs.V()), old(fs.icache[s].inum), 0))
    ensures ok ==> Calm(fs, u) && SameSlots(old(fs.icache), fs.icache)
    ensures ok ==> u == if r == 0 then WithEntry(t, old(fs.icache[s].inum), Canon(name), inum) else t
    ensures ok ==> Elsewhere(old(fs.V()), fs.V(), old(fs.icache[s].inum))
    ensures ok && r == 0 ==>
              var i := old(fs.icache[s].inum);
              var c, d := Contents(old(fs.V()), i), Contents(fs.V(), i);
              && |c| % DENT == 0
              && FreeCount(fs.bitmap, fs.nblocks) == FreeCount(old(fs.bitmap), fs.nblocks) - More(|c|, EntryEnd(c))
              && (c == [] ==> |d| == DENT && Matches(d, 0, Canon(name)))
  {
    hide Inv, fs.Cached, RestExcept, Contents, Shows, Lookup, LinkResult, Matches, UniqueNames, Room, CanonTo,
         CacheAgrees, FirstFree, More, FreeCount, Canon, KindsAgree;
    ghost var i := fs.icache[s].inum;
    ghost var v := fs.V();
    ghost var nm := Canon(name);
    fs.AtRest(s);
    NodeShown(v, t, i);
    assert Lookup(Contents(v, i), nm) == EntryOf(t, i, nm);
    r, ok := DirLink(fs, s, name, inum);
    u := t;
    if ok && r == 0 {
      DotKeys(t, i, nm);
      EntryAdded(v, fs.V(), t, i, nm, inum);
      FirstIntoEmpty(Contents(v, i), Contents(fs.V(), i), nm, inum);
      u := WithEntry(t, i, nm, inum);
    }
  }

  lemma DotKeys(t: L.Tree, i: nat, nm: seq<Byte>)
    requires (i, Str(nm)) !in t.ents
    ensures nm == DOT ==> (i, ".") !in t.ents
    ensures nm == DOTDOT ==> (i, "..") !in t.ents
  {
    DotNames();
  }

  lemma FirstIntoEmpty(c: seq<Byte>, d: seq<Byte>, nm: seq<Byte>, inum: nat)
    requires LinkResult(c, d, nm, inum)
    ensures |c| == 0 ==> |d| == DENT && Matches(d, 0, nm)
  {
  }

  /** Zeroing the entry of a name on disk removes it from the tree. */
  method EraseName(fs: Fs, s: nat, off: nat, ghost e: nat, ghost nm: seq<Byte>, ghost t: L.Tree)
    returns (ghost u: L.Tree)
    requires Calm(fs, t) && Locked(fs.icache, s) && L.IsDir(t, fs.icache[s].inum) && nm != DOT && nm != DOTDOT
    requires Matches(Contents(fs.V(), fs.icache[s].inum), e, nm) && off == e * DENT
    modifies fs, fs.disk
    ensures Calm(fs, u) && SameSlots(old(fs.icache), fs.icache)
    ensures u == WithoutEntry(t, old(fs.icache[s].inum), nm)
  {
    hide Inv, fs.Cached, RestExcept, Contents, Shows, Lookup, Erased, Matches, UniqueNames, CacheAgrees;
    ghost var i := fs.icache[s].inum;
    ghost var v := fs.V();
    fs.AtRest(s);
    NodeShown(v, t, i);
    var _ := EraseEntry(fs, s, off, e, nm);
    EntryErased(v, fs.V(), t, i, nm);
    u := WithoutEntry(t, i, nm);
  }

  /** ialloc on disk takes the lowest free inode of the tree. */
  method TakeInode(fs: Fs, kind: int, ghost t: L.Tree) returns (inum: nat, slot: Option<nat>, ok: bool, ghost u: L.Tree)
    requires Calm(fs, t) && kind != 0
    modifies fs`icache, fs`cur, fs`dinodes
    ensures ok <==> S.FirstFree(t, 1).Some?
    ensures ok ==> S.FirstFree(t, 1) == Some(inum)
    ensures ok ==> u == WithNode(t, inum, kind, 0) && forall name :: (inum, name) !in t.ents
    ensures !ok ==> u == t && fs.icache == old(fs.icache)
    ensures Calm(fs, u)
    ensures ok ==> Got(old(fs.icache), fs.icache, inum, slot) && (slot.Some? ==> !fs.icache[slot.value].busy)
    ensures ok ==> SameFiles(old(fs.V()), fs.V()) && inum < |fs.cur| && Contents(fs.V(), inum) == []
  {
    hide Inv, fs.Cached, RestExcept, Contents, Shows, CacheAgrees;
    ghost var v := fs.V();
    KindsShown(v, t);
    inum, slot, ok := fs.IAlloc(kind);
    u := t;
    LowestFree(t, 1, if ok then inum else |t.nodes|);
    if ok {
      forall name
        ensures (inum, name) !in t.ents
      {
        NothingUnder(v, t, inum, name);
      }
      InodeTaken(v, fs.V(), t, inum, kind);
      u := WithNode(t, inum, kind, 0);
    }
  }

  lemma {:induction false} LowestFree(t: L.Tree, from: nat, i: nat)
    requires from <= i || |t.nodes| <= from
    requires forall j :: from <= j < i && j < |t.nodes| ==> t.nodes[j].kind != 0
    requires i < |t.nodes| ==> t.nodes[i].kind == 0
    ensures S.FirstFree(t, from) == if from <= i < |t.nodes| then Some(i) else None
    decreases |t.nodes| - from
  {
    if from < |t.nodes| && from < i {
      LowestFree(t, from + 1, i);
    }
  }

  // ---- the system calls on disk ----

  /** Lock an inode that is in use and not locked. */
  method Lock(fs: Fs, s: nat, ghost t: L.Tree)
    requires Calm(fs, t) && Live(fs.icache, s) && !fs.icache[s].busy && !S.IsFree(t, fs.icache[s].inum)
    modifies fs`icache
    ensures Calm(fs, t) && Locked(fs.icache, s)
    ensures SameSlots(old(fs.icache)[s := old(fs.icache[s]).(busy := true)], fs.icache)
    ensures var i := fs.icache[s].inum; i < |t.nodes| && fs.icache[s].d.nlink == t.nodes[i].nlink
    ensures fs.icache[s].d.kind == t.nodes[fs.icache[s].inum].kind
  {
    hide Calm;
    var _ := TryLock(fs, s, t);
  }

  /** Lock an inode that is not locked; one that is free is a panic. */
  method TryLock(fs: Fs, s: nat, ghost t: L.Tree) returns (dead: bool)
    requires Calm(fs, t) && Live(fs.icache, s) && !fs.icache[s].busy
    modifies fs`icache
    ensures dead <==> S.IsFree(t, old(fs.icache[s].inum))
    ensures !dead ==> Calm(fs, t) && Locked(fs.icache, s)
    ensures !dead ==> SameSlots(old(fs.icache)[s := old(fs.icache[s]).(busy := true)], fs.icache)
    ensures !dead ==>
              var i, d := fs.icache[s].inum, fs.icache[s].d;
              i < |t.nodes| && d.nlink == t.nodes[i].nlink && d.kind == t.nodes[i].kind
  {
    hide Inv, fs.Cached, RestExcept, Shows, CacheAgrees;
    NodeShown(fs.V(), t, fs.icache[s].inum);
    var r := fs.ILock(s);
    dead := r == NoType;
  }

  /** Unlock an inode. */
  method Unlock(fs: Fs, s: nat, ghost t: L.Tree)
    requires Calm(fs, t) && Locked(fs.icache, s)
    modifies fs`icache
    ensures Calm(fs, t) && fs.icache == old(fs.icache)[s := old(fs.icache[s]).(busy := false)]
  {
    hide Inv, fs.Cached, RestExcept, Shows, CacheAgrees;
    fs.IUnlock(s);
  }

  /** The dots of every directory are there. */
  lemma DotsAreThere(t: L.Tree, d: nat)
    requires L.Shaped(t) && L.IsDir(t, d)
    ensures (d, ".") in t.ents && (d, "..") in t.ents
  {
    assert L.DirOk(t, d);
  }

  // ---- removing a name ----

  /** dirlookup on disk finds the entry of the tree, and where it stands. */
  method FindName(fs: Fs, s: nat, name: seq<Byte>, ghost t: L.Tree) returns (hit: Option<(nat, nat)>, ghost e: nat)
    requires Calm(fs, t) && Locked(fs.icache, s) && L.IsDir(t, fs.icache[s].inum)
    modifies fs`bitmap, fs`blocks, fs`icache, fs`cur, fs`book, fs.disk
    ensures Calm(fs, t) && fs.icache == old(fs.icache) && fs.V() == old(fs.V())
    ensures hit == None <==> (fs.icache[s].inum, Str(Canon(name))) !in t.ents
    ensures hit.Some? ==>
              && L.Holds(t, fs.icache[s].inum, Str(Canon(name)), hit.value.0) && hit.value.1 == e * DENT
              && Matches(Contents(fs.V(), fs.icache[s].inum), e, Canon(name))
  {
    hide Inv, fs.Cached, RestExcept, Contents, Shows, Matches, UniqueNames, CanonTo, CacheAgrees;
    ghost var i := fs.icache[s].inum;
    ghost var c := Contents(fs.V(), i);
    fs.AtRest(s);
    NodeShown(fs.V(), t, i);
    assert Lookup(c, Canon(name)) == EntryOf(t, i, Canon(name));
    hit := DirLookup(fs, s, name);
    ghost var found := FirstFrom(c, Canon(name), 0);
    e := if found.Some? then found.value else 0;
  }

  /** isdirempty on disk says whether the tree has only the dots there. */
  method OnlyHasDots(fs: Fs, s: nat, ghost t: L.Tree) returns (empty: bool)
    requires Calm(fs, t) && Locked(fs.icache, s)
    requires var i := fs.icache[s].inum; L.IsDir(t, i) && (i, ".") in t.ents && (i, "..") in t.ents
    modifies fs`bitmap, fs`blocks, fs`icache, fs`cur, fs`book, fs.disk
    ensures Calm(fs, t) && fs.icache == old(fs.icache) && fs.V() == old(fs.V())
    ensures empty <==> L.Empty(t, fs.icache[s].inum)
  {
    hide Inv, fs.Cached, RestExcept, Contents, Shows, Matches, UniqueNames, CacheAgrees, L.Empty;
    ghost var i := fs.icache[s].inum;
    fs.AtRest(s);
    NodeShown(fs.V(), t, i);
    NamesShown(fs.V(), t);
    EmptyShown(Contents(fs.V(), i), t, i);
    empty := IsDirEmpty(fs, s);
  }

  lemma NamesShown(v: Vol, t: L.Tree)
    requires Shows(v, t)
    ensures forall e :: e in t.ents ==> EntryNamed(t, e)
  {
  }

  lemma EmptyShown(c: seq<Byte>, t: L.Tree, i: nat)
    requires ShowsDir(c, t, i) && (i, ".") in t.ents && (i, "..") in t.ents
    requires forall e :: e in t.ents ==> EntryNamed(t, e)
    ensures (forall e :: 2 <= e && Within(c, e) ==> EntryInum(c, e) == 0) <==> L.Empty(t, i)
  {
    hide UniqueNames, Matches, Lookup;
    OnlyDots(c);
    DotNames();
    if L.Empty(t, i) {
      forall nm | Lookup(c, nm).Some?
        ensures nm == DOT || nm == DOTDOT
      {
        assert EntryOf(t, i, nm).Some?;
        assert (i, Str(nm)) in t.ents;
        DotBytes(nm);
      }
    } else {
      var e :| e in t.ents && e.0 == i && !L.IsDot(e.1);
      assert EntryNamed(t, e);
      var nm :| Str(nm) == e.1;
      assert Lookup(c, nm) == EntryOf(t, i, nm) && nm != DOT && nm != DOTDOT;
    }
  }

  lemma DotBytes(nm: seq<Byte>)
    ensures L.IsDot(Str(nm)) <==> nm == DOT || nm == DOTDOT
  {
    DotNames();
    if Str(nm) == "." {
      StrInjective(nm, DOT);
    }
    if Str(nm) == ".." {
      StrInjective(nm, DOTDOT);
    }
  }

  /** A reference to an inode. */
  method Get(fs: Fs, inum: nat, ghost t: L.Tree) returns (slot: Option<nat>)
    requires Calm(fs, t) && inum < |t.nodes|
    modifies fs`icache
    ensures Calm(fs, t) && Got(old(fs.icache), fs.icache, inum, slot)
    ensures slot.None? <==> NoneFor(old(fs.icache), inum)
  {
    hide Inv, fs.Cached, RestExcept, Shows, CacheAgrees;
    KindsShown(fs.V(), t);
    slot := fs.IGet(inum);
  }

  /** Another reference to an inode that is held. */
  method Dup(fs: Fs, s: nat, ghost t: L.Tree)
    requires Calm(fs, t) && Live(fs.icache, s)
    modifies fs`icache
    ensures Calm(fs, t) && fs.icache == old(fs.icache)[s := old(fs.icache[s]).(refs := old(fs.icache[s]).refs + 1)]
  {
    hide Inv, fs.Cached, RestExcept, Shows, CacheAgrees;
    fs.IDup(s);
  }

  /** Drop a reference: the last one frees an inode without links if it is loaded, in the tree as on disk. */
  method Drop(fs: Fs, s: nat, ghost t: L.Tree) returns (freed: bool, ghost u: L.Tree)
    requires Calm(fs, t) && Live(fs.icache, s) && (fs.icache[s].busy ==> fs.icache[s].refs > 1)
    modifies fs, fs.disk
    ensures Calm(fs, u) && fs.icache == old(fs.icache)[s := fs.icache[s]]
    ensures !freed ==> fs.V() == old(fs.V())
    ensures var i := old(fs.icache[s].inum);
            && i < |t.nodes|
            && (freed <==> old(fs.icache[s].refs) == 1 && old(fs.icache[s].valid) && t.nodes[i].nlink == 0)
            && u == if freed then L.Free(t, i) else t
    ensures freed ==> !Live(fs.icache, s)
    ensures !freed ==> fs.icache[s] == old(fs.icache[s]).(refs := old(fs.icache[s].refs) - 1)
  {
    hide Inv, fs.Cached, RestExcept, Contents, Shows, CacheAgrees;
    ghost var i := fs.icache[s].inum;
    ghost var v := fs.V();
    NodeShown(v, t, i);
    freed := fs.IPut(s);
    u := t;
    if freed {
      InodeFreed(v, fs.V(), t, i);
      u := L.Free(t, i);
    }
  }

  /** What a locked entry holds is what the tree has. */
  lemma LockedShown(fs: Fs, s: nat, t: L.Tree)
    requires Calm(fs, t) && Locked(fs.icache, s)
    ensures var i, d := fs.icache[s].inum, fs.icache[s].d;
            i < |t.nodes| && d.kind == t.nodes[i].kind && d.nlink == t.nodes[i].nlink
  {
    hide Inv, fs.Cached, RestExcept, Shows;
    NodeShown(fs.V(), t, fs.icache[s].inum);
  }

  lemma Apart(fs: Fs, s: nat, q: nat, t: L.Tree)
    requires Calm(fs, t) && Live(fs.icache, s) && Live(fs.icache, q) && s != q
    ensures fs.icache[s].inum != fs.icache[q].inum
  {
    hide Inv, fs.Cached, RestExcept, Shows, CacheAgrees;
  }

  /** No inode is locked. */
  ghost predicate Quiet(c: seq<Inode>) {
    forall q :: Live(c, q) ==> !c[q].busy
  }

  method IsDotName(name: seq<Byte>) returns (dot: bool)
    ensures dot <==> Canon(name) == DOT || Canon(name) == DOTDOT
  {
    assert Canon(DOT) == DOT && Canon(DOTDOT) == DOTDOT;
    dot := NameCmp(name, DOT);
    if !dot {
      dot := NameCmp(name, DOTDOT);
    }
  }

  // ---- making a name ----

  lemma NothingUnder(v: Vol, t: L.Tree, i: nat, name: string)
    requires Shows(v, t) && i < |t.nodes| && t.nodes[i].kind == 0
    ensures (i, name) !in t.ents
  {
    assert (i, name) in t.ents ==> EntryNamed(t, (i, name));
  }

  /** The entries of a new directory: "." and "..", with a link more for its parent. */
  method MakeDots(fs: Fs, ip: nat, dp: nat, ghost t: L.Tree) returns (ok: bool, ghost u: L.Tree)
    requires Calm(fs, t) && Locked(fs.icache, dp) && Locked(fs.icache, ip) && dp != ip
    requires 0 < fs.icache[ip].inum < 65536 && 0 < fs.icache[dp].inum < 65536 && L.IsDir(t, fs.icache[ip].inum)
    requires forall name :: (fs.icache[ip].inum, name) !in t.ents
    requires fs.icache[ip].inum < |fs.cur| && Contents(fs.V(), fs.icache[ip].inum) == []
    modifies fs, fs.disk
    ensures ok <==> FreeCount(old(fs.bitmap), fs.nblocks) >= 1
    ensures ok ==> Calm(fs, u) && SameSlots(old(fs.icache), fs.icache)
    ensures ok ==> FreeCount(fs.bitmap, fs.nblocks) == FreeCount(old(fs.bitmap), fs.nblocks) - 1
    ensures ok ==> var d := old(fs.icache[dp].inum); Contents(fs.V(), d) == old(Contents(fs.V(), fs.icache[dp].inum))
    ensures ok ==>
              var d, i := old(fs.icache[dp].inum), old(fs.icache[ip].inum);
              && d < |t.nodes|
              && var t1 := WithNode(t, d, t.nodes[d].kind, L.Short(t.nodes[d].nlink + 1));
                 u == WithEntry(WithEntry(t1, i, DOT, i), i, DOTDOT, d)
  {
    hide Calm, Contents, Matches, FreeCount, FirstFree;
    DotNames();
    CanonDots();
    DotsTake();
    Apart(fs, dp, ip, t);
    LockedShown(fs, dp, t);
    var p := fs.icache[dp].d;
    u := SetFields(fs, dp, p.major, p.minor, L.Short(p.nlink + 1), t);
    Extent(fs, u);
    var r;
    r, ok, u := AddName(fs, ip, DOT, fs.icache[ip].inum, u);
    if ok {
      Extent(fs, u);
      AfterDot(Contents(fs.V(), fs.icache[ip].inum));
      r, ok, u := AddName(fs, ip, DOTDOT, fs.icache[dp].inum, u);
    }
  }

  /** The first entry of a directory takes a block. */
  lemma DotsTake()
    ensures EntryEnd([]) == DENT && More(0, DENT) == 1
  {
  }

  /** The second one does not. */
  lemma AfterDot(c: seq<Byte>)
    requires |c| == DENT && Matches(c, 0, DOT)
    ensures EntryEnd(c) == 2 * DENT && More(|c|, EntryEnd(c)) == 0
  {
    assert FirstFree(c, 0) == FirstFree(c, 1) == 1;
  }

  lemma CanonDots()
    ensures Canon(DOT) == DOT && Canon(DOTDOT) == DOTDOT
  {
  }

  /** The tree once a new inode, taken already, has its link, its dots and its name. */
  function Filled(t: L.Tree, d: nat, nm: seq<Byte>, i: nat, kind: int): L.Tree
    requires i < |t.nodes| && d < |t.nodes|
  {
    var t1 := WithNode(t, i, kind, 1);
    var t2 := if kind != T_DIR then t1 else
              var t3 := WithNode(t1, d, t1.nodes[d].kind, L.Short(t1.nodes[d].nlink + 1));
              WithEntry(WithEntry(t3, i, DOT, i), i, DOTDOT, d);
    WithEntry(t2, d, nm, i)
  }

  lemma FilledIs(t: L.Tree, d: nat, nm: seq<Byte>, i: nat, kind: int)
    requires i < |t.nodes| && d < |t.nodes| && i != d
    ensures Filled(WithNode(t, i, kind, 0), d, nm, i, kind) ==
            if kind == T_DIR then L.AddDir(t, d, Str(nm), i) else L.AddFile(t, d, Str(nm), i, kind)
  {
    DotNames();
    var u := Filled(WithNode(t, i, kind, 0), d, nm, i, kind);
    if kind == T_DIR {
      assert u.nodes == L.AddDir(t, d, Str(nm), i).nodes;
    } else {
      assert u.nodes == L.AddFile(t, d, Str(nm), i, kind).nodes;
    }
  }

  /** The end of create: the fields of the new inode, its dots if it is a directory, and its name. */
  method FillNew(fs: Fs, ip: nat, dp: nat, name: seq<Byte>, kind: int, major: int, minor: int, ghost t: L.Tree)
    returns (ok: bool, ghost u: L.Tree)
    requires Calm(fs, t) && Locked(fs.icache, dp) && Live(fs.icache, ip) && !fs.icache[ip].busy
    requires 0 < fs.icache[ip].inum < 65536 && 0 < fs.icache[dp].inum < 65536
    requires fs.icache[ip].inum < |fs.cur| && Contents(fs.V(), fs.icache[ip].inum) == [] && kind != 0
    requires fs.icache[ip].inum < |t.nodes| && t.nodes[fs.icache[ip].inum].kind == kind
    requires forall x :: (fs.icache[ip].inum, x) !in t.ents
    requires var d := fs.icache[dp].inum;
             L.Absent(t, d, Str(Canon(name))) && (d, ".") in t.ents && (d, "..") in t.ents
    modifies fs, fs.disk
    ensures ok <==> HasRoom(fs, old(fs.V()), old(fs.icache[dp].inum), if kind == T_DIR then 1 else 0)
    ensures ok ==> Calm(fs, u) && SameSlots(old(fs.icache)[ip := old(fs.icache[ip]).(busy := true)], fs.icache)
    ensures ok ==> Locked(fs.icache, dp) && Locked(fs.icache, ip)
    ensures ok ==> u == Filled(t, old(fs.icache[dp].inum), Canon(name), old(fs.icache[ip].inum), kind)
  {
    hide Calm, Contents, Matches, FirstFree, FreeCount, More, Canon, CanonTo;
    var inum := fs.icache[ip].inum;
    Apart(fs, dp, ip, t);
    WholeEntries(fs, dp, t);
    ok := true;
    Lock(fs, ip, t);
    u := SetFields(fs, ip, major, minor, 1, t);
    if kind == T_DIR {
      ok, u := MakeDots(fs, ip, dp, u);
      if !ok {
        return;
      }
    }
    Extent(fs, u);
    var r;
    r, ok, u := AddName(fs, dp, name, inum, u);
  }

  /** The contents of a directory are whole entries. */
  lemma WholeEntries(fs: Fs, s: nat, t: L.Tree)
    requires Calm(fs, t) && Live(fs.icache, s) && L.IsDir(t, fs.icache[s].inum)
    ensures var v, d := fs.V(), fs.icache[s].inum;
            && d < |v.nodes| && |Contents(v, d)| % DENT == 0 && fs.nblocks <= |v.bitmap|
            && More(|Contents(v, d)|, EntryEnd(Contents(v, d))) >= 0
  {
    hide RefsOk, OwnersOk, fs.Cached, RestExcept, Contents, Shows, CacheAgrees, FirstFree;
    NodeShown(fs.V(), t, fs.icache[s].inum);
  }

  /** create on disk under a locked directory, for a name that is not there, up to its two locked inodes: the step of
      the tree, with the link counts on disk right exactly when that step keeps them. It panics unless there is a free
      inode, a cache entry for it, room for the name and, for a directory, one block more. */
  method MakeOnDisk(fs: Fs, dp: nat, name: seq<Byte>, kind: int, major: int, minor: int, ghost t: L.Tree)
    returns (ok: bool, inum: nat, ip: nat, ghost c: seq<Inode>, ghost u: L.Tree)
    requires Calm(fs, t) && L.Sound(t) && Locked(fs.icache, dp) && kind != 0 && |t.nodes| <= 65536
    requires L.Absent(t, fs.icache[dp].inum, Str(Canon(name))) && 0 < fs.icache[dp].inum
    modifies fs, fs.disk
    ensures var free := S.FirstFree(t, 1);
            ok <==> && free.Some? && !NoneFor(old(fs.icache), free.value)
                    && HasRoom(fs, old(fs.V()), old(fs.icache[dp].inum), if kind == T_DIR then 1 else 0)
    ensures ok ==> Calm(fs, u) && Locked(fs.icache, dp) && Locked(fs.icache, ip)
    ensures ok ==>
              && Got(old(fs.icache), c, inum, Some(ip)) && !c[ip].busy
              && SameSlots(c[ip := c[ip].(busy := true)], fs.icache)
    ensures ok ==>
              var d := old(fs.icache[dp].inum);
              && S.FirstFree(t, 1) == Some(inum) && d < |t.nodes|
              && u == (if kind == T_DIR then L.AddDir(t, d, Str(Canon(name)), inum)
                       else L.AddFile(t, d, Str(Canon(name)), inum, kind))
              && (L.Counts(u) <==> L.Linked(t, d) && (kind == T_DIR ==> t.nodes[d].nlink < 32767))
  {
    hide Calm, Canon, CanonTo, L.Shaped, L.Counts, Filled, L.AddDir, L.AddFile, Room, Contents;
    ghost var d, nm := fs.icache[dp].inum, Canon(name);
    DotsAreThere(t, d);
    var slot;
    inum, slot, ok, u := TakeInode(fs, kind, t);
    c, ip := fs.icache, 0;
    if !ok || slot == None {
      ok := false;
      return;
    }
    ip := slot.value;
    FilledIs(t, d, nm, inum, kind);
    if kind == T_DIR {
      L.DirCounts(t, d, Str(nm), inum);
    } else {
      L.FileCounts(t, d, Str(nm), inum, kind);
    }
    ok, u := FillNew(fs, ip, dp, name, kind, major, minor, u);
  }

  // ---- a disk to start from ----

  /** A tree without any inode in use. */
  function Bare(n: nat): L.Tree {
    L.Tree(seq(n, _ => L.Node(0, 0)), map[])
  }

  lemma BlankShown(v: Vol)
    requires forall i :: 0 <= i < |v.nodes| ==> v.nodes[i].kind == 0 && v.nodes[i].nlink == 0
    ensures Shows(v, Bare(|v.nodes|))
  {
    forall i | 0 <= i < |v.nodes|
      ensures ShowsAt(v, Bare(|v.nodes|), i)
    {
    }
  }

  /** A disk with a root directory that holds its dots, made on a blank image: it shows the tree that every run
      starts from. */
  method FreshDisk(nblocks: nat, ninodes: nat) returns (fs: Fs)
    requires DataStart(nblocks, ninodes) < nblocks < UINT && L.ROOT < ninodes <= 65536
    ensures Calm(fs, S.Blank(ninodes).t) && L.Sound(S.Blank(ninodes).t) && fs.nblocks == nblocks
    ensures forall q :: 0 <= q < |fs.icache| ==> fs.icache[q].refs == if q == 0 then 1 else 0
    ensures |fs.icache| == NINODE && fs.icache[0].inum == L.ROOT && !fs.icache[0].busy
  {
    hide Inv, RestExcept, Contents, Shows, CacheAgrees, Matches, FreeCount;
    var start := DataStart(nblocks, ninodes);
    ghost var image := BlankImage(nblocks, ninodes, RoundUp(nblocks));
    BlankImageOk(nblocks, ninodes, RoundUp(nblocks));
    var cache := new B.Cache.BInit(1, seq(nblocks, _ => Zero()));
    fs := new Fs.Mount(cache, seq(RoundUp(nblocks), b => b < start),
                       seq(ninodes, _ => Dinode(0, 0, 0, 0, 0, seq(NDIRECT + 1, _ => 0))), image.1);
    BlankShown(fs.V());
    FreeCountZero(fs.bitmap, nblocks);
    assert !fs.bitmap[start];
    MakeRoot(fs, ninodes);
    S.BlankValid(ninodes);
  }

  /** The root directory: the first inode, with one link, its dots both leading to itself. */
  method MakeRoot(fs: Fs, ghost n: nat)
    requires L.ROOT < n <= 65536 && Calm(fs, Bare(n)) && forall q :: 0 <= q < |fs.icache| ==> fs.icache[q].refs == 0
    requires FreeCount(fs.bitmap, fs.nblocks) >= 1
    modifies fs, fs.disk
    ensures Calm(fs, S.Blank(n).t)
    ensures forall q :: 0 <= q < |fs.icache| ==> fs.icache[q].refs == if q == 0 then 1 else 0
    ensures |fs.icache| == NINODE && fs.icache[0].inum == L.ROOT && !fs.icache[0].busy
  {
    hide Calm, Contents, Matches, FreeCount, FirstFree;
    DotNames();
    CanonDots();
    DotsTake();
    var inum, slot;
    ghost var u;
    var ok;
    Extent(fs, Bare(n));
    inum, slot, ok, u := TakeInode(fs, T_DIR, Bare(n));
    assert Bare(n).nodes[L.ROOT].kind == 0;
    assert !Live(old(fs.icache), 0);
    var ip := slot.value;
    Lock(fs, ip, u);
    u := SetFields(fs, ip, 0, 0, 1, u);
    var r;
    Extent(fs, u);
    r, ok, u := AddName(fs, ip, DOT, inum, u);
    Extent(fs, u);
    AfterDot(Contents(fs.V(), inum));
    r, ok, u := AddName(fs, ip, DOTDOT, inum, u);
    Unlock(fs, ip, u);
    assert u.nodes == S.Blank(n).t.nodes && u.ents == S.Blank(n).t.ents;
  }
}

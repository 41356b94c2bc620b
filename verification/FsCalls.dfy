/**
 The calls of sysfile.c on the disk, from path names to blocks: each takes a file system
 that stands for a state of Sysfile to one that stands for the state that the function of
 the same name gives, and panics exactly when that does or a cache entry is wanting.
 */
module FsCalls {
  import opened Common
  import opened FsVolume
  import opened FsBytes
  import opened FileSystem
  import opened FsDir
  import opened FsTree
  import opened FsNames
  import L = Links
  import P = Paths
  import S = Sysfile
  import C = SysfileCalls

  // ---- single steps ----

  /** The numbers that entries hold. */
  lemma EntryRange(v: Vol, t: L.Tree, e: (nat, string))
    requires Shows(v, t) && e in t.ents
    ensures 0 < t.ents[e] < 65536
  {
    hide Contents, UniqueNames;
    assert EntryNamed(t, e);
    var nm :| Str(nm) == e.1;
    NodeShown(v, t, e.0);
    var c := Contents(v, e.0);
    assert Lookup(c, nm) == EntryOf(t, e.0, nm) == Some(t.ents[e]);
  }

  /** Set the fields of a locked inode in the state. */
  method SetI(fs: Fs, q: nat, major: int, minor: int, n: L.int16, ghost s: S.State) returns (ghost u: S.State)
    requires Stands(fs, s) && Locked(fs.icache, q)
    modifies fs`icache, fs`cur, fs`dinodes
    ensures Stands(fs, u) && SameSlots(old(fs.icache), fs.icache) && SameFiles(old(fs.V()), fs.V())
    ensures var i := old(fs.icache[q]).inum;
            i < |s.t.nodes| && u == s.(t := WithNode(s.t, i, s.t.nodes[i].kind, n))
  {
    hide Calm, SameFiles;
    ghost var c := fs.icache;
    ghost var t := SetFields(fs, q, major, minor, n, s.t);
    SameRefers(c, fs.icache, s.refs);
    u := s.(t := t);
    OneEntry(fs, t);
  }

  /** dirlink, with the reference that its lookup takes on a name that is there. */
  method DirLinkI(fs: Fs, q: nat, name: string, inum: nat, ghost s: S.State)
    returns (r: int, full: bool, ok: bool, ghost u: S.State)
    requires Stands(fs, s) && Locked(fs.icache, q) && CString(name) && |name| <= DIRSIZ && 0 < inum < 65536
    requires var d := fs.icache[q].inum; L.IsDir(s.t, d) && (d, ".") in s.t.ents && (d, "..") in s.t.ents
    requires forall e :: e in s.t.ents ==> Holdable(s, s.t.ents[e])
    modifies fs, fs.disk
    ensures var e := (old(fs.icache[q].inum), name);
            && (r == if e in s.t.ents then -1 else 0)
            && (full <==> e in s.t.ents && Lacks(s.refs, s.t.ents[e]))
            && (ok <==> (e !in s.t.ents ==> HasRoom(fs, old(fs.V()), e.0, 0)))
            && (ok && !full ==>
                  && u == (if r == -1 then s else s.(t := s.t.(ents := s.t.ents[e := inum])))
                  && Stands(fs, u))
    ensures ok && !full ==> SameUse(old(fs.icache), fs.icache)
  {
    hide Stands, S.Put, S.Hold, Lacks, Canon, CanonTo, Holdable, HasRoom, Contents, Matches;
    u := s;
    full, ok := false, true;
    BytesBack(name);
    var hit;
    ghost var e;
    hit, e := FindI(fs, q, Bytes(name), s);
    if hit.Some? {
      r := -1;
      full := TouchI(fs, hit.value.0, s);
    } else {
      r, ok, u := EnterI(fs, q, name, inum, s);
    }
  }

  /** The second half of dirlink, for a name that is not there. */
  method EnterI(fs: Fs, q: nat, name: string, inum: nat, ghost s: S.State) returns (r: int, ok: bool, ghost u: S.State)
    requires Stands(fs, s) && Locked(fs.icache, q) && CString(name) && |name| <= DIRSIZ && 0 < inum < 65536
    requires var d := fs.icache[q].inum; L.IsDir(s.t, d) && (d, ".") in s.t.ents && (d, "..") in s.t.ents
    requires (fs.icache[q].inum, name) !in s.t.ents
    modifies fs, fs.disk
    ensures r == 0 && (ok <==> HasRoom(fs, old(fs.V()), old(fs.icache[q].inum), 0))
    ensures ok ==> SameSlots(old(fs.icache), fs.icache) && Stands(fs, u)
    ensures ok ==> u == s.(t := s.t.(ents := s.t.ents[(old(fs.icache[q].inum), name) := inum]))
  {
    hide Calm, Canon, CanonTo, HasRoom, Contents, Matches, FreeCount, More, EntryEnd;
    BytesBack(name);
    ghost var c := fs.icache;
    ghost var t;
    r, ok, t := AddName(fs, q, Bytes(name), inum, s.t);
    u := s.(t := t);
    if ok {
      SameRefers(c, fs.icache, s.refs);
    }
  }

  // ---- what a call may want ----

  /** The directory that a path is to be entered in has room, with `besides` blocks taken elsewhere. */
  ghost predicate RoomAt(fs: Fs, v: Vol, t: L.Tree, cwd: nat, path: string, besides: nat) {
    match S.ResolveParent(t, cwd, path)
    case Found(dp) => HasRoom(fs, v, dp, besides)
    case _ => false
  }

  /** While directory `d` is held there is no cache entry for what a name in it leads to. */
  predicate NameLacks(s: S.State, d: nat, name: string) {
    d < |s.refs| && (d, name) in s.t.ents && Lacks(S.Hold(s, d).refs, s.t.ents[(d, name)])
  }

  lemma SameRoom(fs: Fs, v: Vol, w: Vol, d: nat, besides: nat)
    requires v.bitmap == w.bitmap && SameFiles(v, w)
    ensures HasRoom(fs, v, d, besides) <==> HasRoom(fs, w, d, besides)
  {
    hide Room, Contents;
  }

  lemma SameRoomAt(fs: Fs, v: Vol, w: Vol, t: L.Tree, cwd: nat, path: string, besides: nat)
    requires v.bitmap == w.bitmap && SameFiles(v, w)
    ensures RoomAt(fs, v, t, cwd, path, besides) <==> RoomAt(fs, w, t, cwd, path, besides)
  {
    hide HasRoom, SameFiles, S.ResolveParent;
    var to := S.ResolveParent(t, cwd, path);
    if to.Found? {
      SameRoom(fs, v, w, to.i, besides);
    }
  }

  lemma SameLacks(s: S.State, m: S.State, cwd: nat, path: string, parent: bool)
    requires s.refs == m.refs && s.t.ents == m.t.ents && |s.t.nodes| == |m.t.nodes|
    requires forall j :: 0 <= j < |s.t.nodes| ==> s.t.nodes[j].kind == m.t.nodes[j].kind
    ensures WalkLacks(s, cwd, path, parent) <==> WalkLacks(m, cwd, path, parent)
  {
    hide S.Walk, P.Elements, Lacks;
    var elems, i := P.Elements(path), S.Start(cwd, path);
    forall k | 0 <= k < |elems|
      ensures StepLacks(s, i, elems, k) <==> StepLacks(m, i, elems, k)
    {
      C.SameWalk(s.t, m.t, i, elems[..k]);
      C.SameWalk(s.t, m.t, i, elems[..k + 1]);
    }
  }

  lemma AllHoldable(s: S.State, d: nat)
    requires C.Walkable(s) && d < |s.refs|
    ensures forall e :: e in s.t.ents ==> Holdable(S.Hold(s, d), s.t.ents[e])
  {
    forall e | e in s.t.ents
      ensures Holdable(S.Hold(s, d), s.t.ents[e])
    {
      assert S.HeldOk(s, s.t.ents[e]);
    }
  }

  /** A walk that ends elsewhere than it began went through an entry. */
  lemma {:induction false} ByEntry(t: L.Tree, i: nat, elems: seq<string>)
    requires S.Walk(t, i, elems).Found?
    ensures S.Walk(t, i, elems).i == i || exists e :: e in t.ents && t.ents[e] == S.Walk(t, i, elems).i
    decreases |elems|
  {
    if elems != [] {
      ByEntry(t, t.ents[(i, elems[0])], elems[1..]);
    }
  }

  /** What a path leads to from a directory, if it is none itself, has a number that an entry can hold. */
  lemma FileRange(v: Vol, t: L.Tree, cwd: nat, path: string)
    requires Shows(v, t) && L.IsDir(t, L.ROOT) && L.IsDir(t, cwd)
    ensures var r := S.Resolve(t, cwd, path); r.Found? && !L.IsDir(t, r.i) ==> 0 < r.i < 65536
  {
    hide S.Walk, P.Elements, Shows;
    var r := S.Resolve(t, cwd, path);
    if r.Found? && !L.IsDir(t, r.i) {
      ByEntry(t, S.Start(cwd, path), P.Elements(path));
      var e :| e in t.ents && t.ents[e] == r.i;
      EntryRange(v, t, e);
    }
  }

  lemma LastNameIsC(path: string)
    requires CString(path)
    ensures CString(S.LastName(path)) && |S.LastName(path)| <= DIRSIZ
  {
    hide P.Elements;
    if P.Elements(path) != [] {
      ElementIsC(path, |P.Elements(path)| - 1);
    }
  }

  // ---- sys_link ----

  /** sys_link wants a cache entry that is not there: on the way to the old name, to the directory of the new one, or
      for what the new name leads to already. */
  predicate LinkLacks(s: S.State, cwd: nat, old_: string, new_: string) {
    || WalkLacks(s, cwd, old_, false)
    || (var from, to := S.Resolve(s.t, cwd, old_), S.ResolveParent(s.t, cwd, new_);
        && from.Found? && from.i < |s.refs| && !S.IsFree(s.t, from.i) && !L.IsDir(s.t, from.i)
        && (|| WalkLacks(S.Hold(s, from.i), cwd, new_, true)
            || (to.Found? && NameLacks(S.Hold(s, from.i), to.i, S.LastName(new_)))))
  }

  /** What sys_link comes to once it has the file. */
  function LinkTail(s: S.State, i: nat, cwd: nat, new_: string, room: bool): S.Outcome
    requires i < |s.t.nodes|
  {
    match S.ResolveParent(s.t, cwd, new_)
    case Dead => S.Outcome(s, S.Panicked)
    case Missing => S.Outcome(s, S.Failed)
    case Found(dp) =>
      if (dp, S.LastName(new_)) in s.t.ents then S.Outcome(s, S.Failed)
      else if !room then S.Outcome(s, S.Panicked)
      else S.Outcome(s.(t := L.AddLink(s.t, dp, S.LastName(new_), i)), S.Done(i))
  }

  /** The failing end of sys_link: the count goes down again. */
  method Lower(fs: Fs, ip: nat, ghost s: S.State, ghost m: S.State)
    requires S.Valid(s) && Stands(fs, m) && Quiet(fs.icache) && Live(fs.icache, ip)
    requires C.Bumped(s, m, fs.icache[ip].inum) && !S.IsFree(s.t, fs.icache[ip].inum)
    modifies fs, fs.disk
    ensures Stands(fs, s) && Quiet(fs.icache) && Kept(old(fs.icache), fs.icache, s.refs)
  {
    hide Stands, S.Put, S.Valid;
    ghost var i := fs.icache[ip].inum;
    var dead := LockI(fs, ip, m);
    var d := fs.icache[ip].d;
    ghost var u := SetI(fs, ip, d.major, d.minor, L.Short(d.nlink - 1), m);
    C.Lowered(s, u, i);
    UnlockPutI(fs, ip, u);
  }

  /** The second half of sys_link, from the raised count on. */
  method EnterLink(fs: Fs, ip: nat, cwd: nat, new_: string, ghost s: S.State, ghost m: S.State) returns (r: S.Result)
    requires S.Valid(s) && Stands(fs, m) && Quiet(fs.icache) && Live(fs.icache, ip) && CString(new_)
    requires var i := fs.icache[ip].inum;
             C.Bumped(s, m, i) && !S.IsFree(s.t, i) && !L.IsDir(s.t, i) && 0 < i < 65536
    requires Live(fs.icache, cwd) && fs.icache[cwd].inum < |s.refs| && s.refs[fs.icache[cwd].inum] > 0
    modifies fs, fs.disk
    ensures var i, d := old(fs.icache[ip].inum), old(fs.icache[cwd].inum);
            var to := S.ResolveParent(s.t, d, new_);
            var o := LinkTail(s, i, d, new_, RoomAt(fs, old(fs.V()), s.t, d, new_, 0));
            && (r.Panicked? <==>
                  || o.r.Panicked? || WalkLacks(S.Hold(s, i), d, new_, true)
                  || (to.Found? && NameLacks(S.Hold(s, i), to.i, S.LastName(new_))))
            && (!r.Panicked? ==>
                  && r == o.r && Stands(fs, o.s) && Quiet(fs.icache) && Kept(old(fs.icache), fs.icache, s.refs))
  {
    hide Stands, S.Walk, S.WalkParent, P.Elements, S.Put, S.Hold, L.Counts, L.Shaped, HasRoom, WalkLacks, Lacks,
         Holdable, C.Walkable;
    ghost var i, d, h := fs.icache[ip].inum, fs.icache[cwd].inum, S.Hold(s, fs.icache[ip].inum);
    BumpedFacts(s, m, i, d, new_);
    LastNameIsC(new_);
    var to, name := NameX(fs, cwd, new_, true, m);
    if to.CacheFull? || to.FreeInode? {
      return S.Panicked;
    }
    if to.Nowhere? {
      Lower(fs, ip, s, m);
      return S.Failed;
    }
    C.HoldSame(s, i);
    r := LinkAt(fs, ip, to.slot, name, s, m);
  }

  /** The last part of sys_link, with the directory of the new name in hand. */
  method LinkAt(fs: Fs, ip: nat, dp: nat, name: string, ghost s: S.State, ghost m: S.State) returns (r: S.Result)
    requires S.Valid(s) && C.Walkable(m) && Quiet(fs.icache) && Live(fs.icache, ip) && Live(fs.icache, dp)
    requires var i, e := fs.icache[ip].inum, fs.icache[dp].inum;
             && C.Bumped(s, m, i) && !S.IsFree(s.t, i) && !L.IsDir(s.t, i) && 0 < i < 65536
             && L.IsDir(s.t, e) && e < |m.refs| && Stands(fs, S.Hold(m, e))
    requires CString(name) && |name| <= DIRSIZ
    modifies fs, fs.disk
    ensures var i, e := old(fs.icache[ip].inum), old(fs.icache[dp].inum);
            && (r.Panicked? <==>
                  if (e, name) in s.t.ents then NameLacks(S.Hold(s, i), e, name) else !HasRoom(fs, old(fs.V()), e, 0))
            && (!r.Panicked? ==>
                  && r == (if (e, name) in s.t.ents then S.Failed else S.Done(i))
                  && Stands(fs, if (e, name) in s.t.ents then s else s.(t := L.AddLink(s.t, e, name, i)))
                  && Quiet(fs.icache) && Kept(old(fs.icache), fs.icache, s.refs))
  {
    hide Stands, S.Put, S.Hold, L.Counts, L.Shaped, HasRoom, Lacks, Holdable, C.Walkable, C.Bumped, L.AddLink, L.Short;
    ghost var e := fs.icache[dp].inum;
    var inum := fs.icache[ip].inum;
    ghost var n := S.Hold(m, e);
    HoldBoth(s, m, inum, e);
    AllHoldable(m, e);
    DotsAreThere(s.t, e);
    ghost var c0 := fs.icache;
    var dead := LockI(fs, dp, n);
    ghost var c1 := fs.icache;
    assert Live(c1, ip) && c1[dp].inum == e;
    var found, full, ok;
    ghost var u;
    found, full, ok, u := DirLinkI(fs, dp, name, inum, n);
    if full || !ok {
      return S.Panicked;
    }
    ghost var c2 := fs.icache;
    if found == -1 {
      UnlockPutI(fs, dp, n);
      LockedMeanwhile(c0, c1, c2, fs.icache, dp, s.refs);
      Lower(fs, ip, s, m);
      return S.Failed;
    }
    Entered(s, m, inum, e, name, u);
    UnlockPutI(fs, dp, u);
    LockedMeanwhile(c0, c1, c2, fs.icache, dp, s.refs);
    ghost var c3 := fs.icache;
    PutI(fs, ip, S.Put(u, e));
    DroppedKept(c3, fs.icache, ip, s.refs);
    r := S.Done(inum);
  }

  /** The raised count changes neither the walk nor what it wants. */
  lemma BumpedFacts(s: S.State, m: S.State, i: nat, cwd: nat, path: string)
    requires S.Valid(s) && C.Bumped(s, m, i) && !S.IsFree(s.t, i)
    ensures C.Walkable(m) && S.ResolveParent(m.t, cwd, path) == S.ResolveParent(s.t, cwd, path)
    ensures WalkLacks(m, cwd, path, true) <==> WalkLacks(S.Hold(s, i), cwd, path, true)
    ensures var to := S.ResolveParent(s.t, cwd, path); to.Found? ==> L.IsDir(s.t, to.i)
  {
    hide S.Walk, S.WalkParent, P.Elements, WalkLacks, L.Counts, L.Shaped;
    C.BumpedWalkable(s, m, i);
    C.BumpedWalk(s.t, m.t, cwd, path);
    SameLacks(S.Hold(s, i), m, cwd, path, true);
    S.ParentIsDir(s.t, cwd, path);
  }

  lemma HoldBoth(s: S.State, m: S.State, i: nat, e: nat)
    requires S.Valid(s) && C.Bumped(s, m, i) && e < |s.refs| && L.IsDir(s.t, e) && C.Walkable(m)
    ensures var n := S.Hold(m, e);
            && n.t == m.t && n.refs == S.Hold(S.Hold(s, i), e).refs && S.Hold(s, i).t == s.t
            && |n.refs| == |S.Hold(s, i).refs| == |s.refs| && S.Put(n, e) == m && n.refs[e] > s.refs[e]
    ensures m.t.ents == s.t.ents && L.IsDir(m.t, e) && i < |s.refs| == |m.refs| && m.refs[i] > s.refs[i]
  {
    assert S.HeldOk(m, e);
    C.HoldPut(m, e);
  }

  /** The end of a successful sys_link: both references are dropped and nothing is freed. */
  lemma Entered(s: S.State, m: S.State, i: nat, e: nat, name: string, u: S.State)
    requires S.Valid(s) && C.Bumped(s, m, i) && e < |s.refs| && L.IsDir(s.t, e) && C.Walkable(m)
    requires var n := S.Hold(m, e); u == n.(t := n.t.(ents := n.t.ents[(e, name) := i]))
    ensures e < |u.refs| && e < |u.t.nodes| && u.refs[e] > 0 && |S.Put(u, e).refs| == |s.refs|
    ensures S.Put(u, e) == S.State(u.t, m.refs)
    ensures S.Put(S.Put(u, e), i) == s.(t := L.AddLink(s.t, e, name, i))
  {
    hide S.Valid, L.Free;
    var w := S.State(u.t, m.refs);
    assert S.HeldOk(m, e);
    assert S.Hold(w, e) == u;
    C.HoldPut(w, e);
    C.LastPut(s, w, i);
  }

  lemma RaisedIs(s: S.State, i: nat)
    requires i < |s.refs| && |s.refs| == |s.t.nodes|
    ensures var h := S.Hold(s, i);
            && C.Bumped(s, h.(t := WithNode(h.t, i, h.t.nodes[i].kind, L.Short(h.t.nodes[i].nlink + 1))), i)
  {
  }

  /** The first half of sys_link: find the file and raise its count. */
  method Raise(fs: Fs, cwd: nat, path: string, ghost s: S.State) returns (r: S.Result, ip: nat, ghost m: S.State)
    requires Stands(fs, s) && S.Valid(s) && Quiet(fs.icache) && CString(path) && Live(fs.icache, cwd)
    modifies fs, fs.disk
    ensures var from := S.Resolve(s.t, old(fs.icache[cwd].inum), path);
            && (r.Panicked? <==>
                  || WalkLacks(s, old(fs.icache[cwd].inum), path, false) || from.Dead?
                  || (from.Found? && S.IsFree(s.t, from.i)))
            && (!r.Panicked? ==> Quiet(fs.icache) && Kept(old(fs.icache), fs.icache, s.refs) && !from.Dead?)
            && (r.Failed? ==> Stands(fs, s) && (from.Found? ==> L.IsDir(s.t, from.i)))
            && (r.Done? ==>
                  && from == S.Found(r.inum) && !L.IsDir(s.t, from.i) && !S.IsFree(s.t, from.i)
                  && Live(fs.icache, ip) && fs.icache[ip].inum == from.i && C.Bumped(s, m, from.i) && Stands(fs, m)
                  && SameFiles(old(fs.V()), fs.V()) && fs.bitmap == old(fs.bitmap))
  {
    hide Stands, S.Walk, P.Elements, S.Put, S.Hold, L.Counts, L.Shaped, WalkLacks, SameFiles, L.Short, C.Bumped;
    C.ValidWalkable(s);
    m, ip := s, 0;
    var from, _ := NameX(fs, cwd, path, false, s);
    if !from.At? {
      return if from.Nowhere? then S.Failed else S.Panicked, ip, m;
    }
    ip := from.slot;
    var inum := fs.icache[ip].inum;
    ghost var h := S.Hold(s, inum);
    C.HoldSame(s, inum);
    ghost var c0 := fs.icache;
    var dead := LockI(fs, ip, h);
    if dead {
      return S.Panicked, ip, m;
    }
    ghost var c1 := fs.icache;
    assert S.HeldOk(s, inum);
    C.HoldPut(s, inum);
    var di := fs.icache[ip].d;
    if di.kind == T_DIR {
      UnlockPutI(fs, ip, h);
      LockedMeanwhile(c0, c1, c1, fs.icache, ip, s.refs);
      return S.Failed, ip, m;
    }
    m := SetI(fs, ip, di.major, di.minor, L.Short(di.nlink + 1), h);
    RaisedIs(s, inum);
    ghost var c2 := fs.icache;
    UnlockI(fs, ip, m);
    LockedOnce(c0, c1, c2, fs.icache, ip);
    r := S.Done(inum);
  }

  lemma LockedOnce(c0: seq<Inode>, c1: seq<Inode>, c2: seq<Inode>, c3: seq<Inode>, q: nat)
    requires Live(c0, q) && Quiet(c0) && SameSlots(c0[q := c0[q].(busy := true)], c1) && SameSlots(c1, c2)
    requires c3 == c2[q := c2[q].(busy := false)]
    ensures Quiet(c3) && forall p :: Live(c0, p) ==> Live(c3, p) && c3[p].inum == c0[p].inum
  {
    forall p | Live(c3, p)
      ensures !c3[p].busy
    {
      assert c2[p].busy == c1[p].busy && c2[p].refs == c1[p].refs;
      assert p != q ==> Live(c0, p);
    }
    forall p | Live(c0, p)
      ensures Live(c3, p) && c3[p].inum == c0[p].inum
    {
      assert c2[p].refs == c1[p].refs == c0[p].refs && c2[p].inum == c1[p].inum == c0[p].inum;
    }
  }

  /** sys_link on the disk. */
  method LinkOnDisk(fs: Fs, cwd: nat, old_: string, new_: string, ghost s: S.State) returns (r: S.Result)
    requires Stands(fs, s) && S.Valid(s) && Quiet(fs.icache) && CString(old_) && CString(new_)
    requires Live(fs.icache, cwd) && L.IsDir(s.t, fs.icache[cwd].inum)
    modifies fs, fs.disk
    ensures var d := old(fs.icache[cwd].inum);
            var o := S.Link(s, d, old_, new_, RoomAt(fs, old(fs.V()), s.t, d, new_, 0));
            && (r.Panicked? <==> o.r.Panicked? || LinkLacks(s, d, old_, new_))
            && (!r.Panicked? ==>
                  && r == o.r && Stands(fs, o.s) && Quiet(fs.icache) && Kept(old(fs.icache), fs.icache, s.refs)
                  && (r.Done? ==>
                        (S.Valid(o.s) <==> S.IntoLinked(s.t, d, new_) && S.RoomForLink(s.t, d, old_))))
  {
    hide Stands, S.Walk, S.WalkParent, P.Elements, S.Hold, L.Counts, L.Shaped, HasRoom, WalkLacks, SameFiles, NameLacks,
         S.IntoLinked, S.RoomForLink, S.LinkAdds, L.Short, L.AddLink, C.Bumped;
    ghost var d, v := fs.icache[cwd].inum, fs.V();
    S.LinkKeeps(s, d, old_, new_, RoomAt(fs, v, s.t, d, new_, 0));
    IsHeld(fs, cwd, s);
    FileNumber(fs, s, d, old_);
    var ip;
    ghost var m;
    r, ip, m := Raise(fs, cwd, old_, s);
    if r.Done? {
      SameRoomAt(fs, v, fs.V(), s.t, d, new_, 0);
      r := EnterLink(fs, ip, cwd, new_, s, m);
    }
  }

  lemma FileNumber(fs: Fs, s: S.State, cwd: nat, path: string)
    requires Stands(fs, s) && S.Valid(s) && L.IsDir(s.t, cwd)
    ensures var r := S.Resolve(s.t, cwd, path); r.Found? && !L.IsDir(s.t, r.i) ==> 0 < r.i < 65536
  {
    hide Shows, S.Walk, P.Elements;
    FileRange(fs.V(), s.t, cwd, path);
  }

  // ---- sys_unlink ----

  /** sys_unlink wants a cache entry that is not there: on the way to the directory, or for what the name leads to. */
  predicate UnlinkLacks(s: S.State, cwd: nat, path: string) {
    || WalkLacks(s, cwd, path, true)
    || (var to := S.ResolveParent(s.t, cwd, path);
        to.Found? && !L.IsDot(S.LastName(path)) && NameLacks(s, to.i, S.LastName(path)))
  }

  /** The state once a name is gone and the reference to its inode dropped. */
  function Unlinked(s: S.State, d: nat, name: string, i: nat): S.State
    requires d < |s.t.nodes| && i < |s.t.nodes| == |s.refs|
  {
    S.Put(S.Hold(s.(t := S.Removed(s.t, d, name, i)), i), i)
  }

  /** Zero the entry of a name. */
  method EraseI(fs: Fs, q: nat, off: nat, ghost e: nat, ghost nm: seq<Byte>, ghost s: S.State)
    returns (ghost u: S.State)
    requires Stands(fs, s) && Locked(fs.icache, q) && L.IsDir(s.t, fs.icache[q].inum) && nm != DOT && nm != DOTDOT
    requires Matches(Contents(fs.V(), fs.icache[q].inum), e, nm) && off == e * DENT
    modifies fs, fs.disk
    ensures Stands(fs, u) && SameSlots(old(fs.icache), fs.icache)
    ensures u == s.(t := WithoutEntry(s.t, old(fs.icache[q].inum), nm))
  {
    hide Calm, Contents, Matches;
    ghost var c := fs.icache;
    ghost var t := EraseName(fs, q, off, e, nm, s.t);
    SameRefers(c, fs.icache, s.refs);
    u := s.(t := t);
  }

  /** isdirempty. */
  method EmptyI(fs: Fs, q: nat, ghost s: S.State) returns (empty: bool)
    requires Stands(fs, s) && Locked(fs.icache, q) && L.Shaped(s.t) && L.IsDir(s.t, fs.icache[q].inum)
    modifies fs`bitmap, fs`blocks, fs`icache, fs`cur, fs`book, fs.disk
    ensures Stands(fs, s) && fs.icache == old(fs.icache) && fs.V() == old(fs.V())
    ensures empty <==> L.Empty(s.t, fs.icache[q].inum)
  {
    hide Calm, L.Shaped, L.Empty;
    DotsAreThere(s.t, fs.icache[q].inum);
    empty := OnlyHasDots(fs, q, s.t);
  }

  /** The states that the end of sys_unlink goes through. */
  lemma ErasedStates(s: S.State, d: nat, name: string, i: nat)
    requires S.Valid(s) && L.Removable(s.t, d, name, i) && (L.IsDir(s.t, i) ==> L.Empty(s.t, i))
    ensures d < |s.t.nodes| == |s.refs| && i < |s.t.nodes| && d != i
    ensures var t1 := s.t.(ents := s.t.ents - {(d, name)});
            var t2 := if L.IsDir(s.t, i) then WithNode(t1, d, t1.nodes[d].kind, L.Short(t1.nodes[d].nlink - 1)) else t1;
            var t3 := WithNode(t2, i, t2.nodes[i].kind, L.Short(t2.nodes[i].nlink - 1));
            var h := S.Hold(S.Hold(s, d), i);
            && h.t == s.t && |h.refs| == |s.refs| && h.refs[d] > s.refs[d] && h.refs[i] > s.refs[i]
            && S.Put(S.State(t2, h.refs), d) == S.State(t2, S.Hold(s, i).refs)
            && S.State(t3, S.Hold(s, i).refs) == S.Hold(s.(t := S.Removed(s.t, d, name, i)), i)
            && S.Hold(s, i).refs[i] > s.refs[i]
  {
    hide S.Valid, L.Removable, L.Empty, L.Free, L.Short;
    C.ParentStays(s, d, name, i);
    var t1 := s.t.(ents := s.t.ents - {(d, name)});
    var t2 := if L.IsDir(s.t, i) then WithNode(t1, d, t1.nodes[d].kind, L.Short(t1.nodes[d].nlink - 1)) else t1;
    C.HoldSwap(S.State(t2, s.refs), d, i);
    C.HoldPut(S.Hold(S.State(t2, s.refs), i), d);
  }

  /** The states that a refused sys_unlink goes through. */
  lemma RefusedStates(s: S.State, d: nat, i: nat)
    requires S.Valid(s) && d < |s.refs| && i < |s.refs| && !S.IsFree(s.t, d) && !S.IsFree(s.t, i)
    ensures var h := S.Hold(S.Hold(s, d), i);
            && h.t == s.t && |h.refs| == |s.refs| && h.refs[d] > s.refs[d] && h.refs[i] > s.refs[i]
            && S.Put(h, i) == S.Hold(s, d) && S.Put(S.Hold(s, d), d) == s
            && S.Hold(s, d).refs[d] > s.refs[d] && |S.Hold(s, d).refs| == |s.refs|
  {
    assert S.HeldOk(s, d) && S.HeldOk(s, i);
    C.HoldPut(S.Hold(s, d), i);
    C.HoldPut(s, d);
  }

  /** The last part of sys_unlink, with the directory locked and the inode of the name in hand. Its count is 1 or more,
      so that the panic over a lower one cannot happen. */
  method UnlinkAt(fs: Fs, dp: nat, ip: nat, off: nat, ghost e: nat, ghost nm: seq<Byte>, ghost s: S.State)
    returns (r: S.Result)
    requires S.Valid(s) && Locked(fs.icache, dp) && Live(fs.icache, ip) && nm != DOT && nm != DOTDOT
    requires forall p :: Live(fs.icache, p) && fs.icache[p].busy ==> p == dp
    requires var d, i := fs.icache[dp].inum, fs.icache[ip].inum;
             && d < |s.refs| && i < |s.refs| && L.Removable(s.t, d, Str(nm), i)
             && Stands(fs, S.Hold(S.Hold(s, d), i)) && Matches(Contents(fs.V(), d), e, nm) && off == e * DENT
    modifies fs, fs.disk
    ensures var d, i := old(fs.icache[dp].inum), old(fs.icache[ip].inum);
            && d < |s.t.nodes| && i < |s.t.nodes| && !S.IsFree(s.t, i) && s.t.nodes[i].nlink >= 1
            && r == (if L.IsDir(s.t, i) && !L.Empty(s.t, i) then S.Failed else S.Done(i))
            && Stands(fs, if r.Failed? then s else Unlinked(s, d, Str(nm), i))
    ensures Quiet(fs.icache) && Kept(old(fs.icache), fs.icache, s.refs)
  {
    hide Stands, S.Put, S.Hold, S.Removed, S.Valid, L.Empty, L.Short, Contents, Matches, L.Removable;
    ghost var d := fs.icache[dp].inum;
    var inum := fs.icache[ip].inum;
    UnlinkFacts(s, d, Str(nm), inum);
    C.HoldSame(s, d);
    RefusedStates(s, d, inum);
    ghost var h := S.Hold(S.Hold(s, d), inum);
    ghost var c0 := fs.icache;
    var dead := LockI(fs, ip, h);
    ghost var c1 := fs.icache;
    if fs.icache[ip].d.kind == T_DIR {
      var empty := EmptyI(fs, ip, h);
      if !empty {
        UnlockPutI(fs, ip, h);
        ghost var c3 := fs.icache;
        UnlockPutI(fs, dp, S.Hold(s, d));
        BothReleased(c0, c1, c1, c3, c3, fs.icache, ip, ip, dp, s.refs);
        return S.Failed;
      }
    }
    EraseBoth(fs, dp, ip, off, e, nm, s, c0);
    r := S.Done(inum);
  }

  /** The end of sys_unlink: the entry goes, then the counts, and each inode is let go of once its own is written.
      The inode of the name was locked in cache `c0`. */
  method EraseBoth(fs: Fs, dp: nat, ip: nat, off: nat, ghost e: nat, ghost nm: seq<Byte>, ghost s: S.State,
                   ghost c0: seq<Inode>)
    requires S.Valid(s) && Locked(fs.icache, dp) && Locked(fs.icache, ip) && nm != DOT && nm != DOTDOT && dp != ip
    requires Live(c0, dp) && Live(c0, ip) && SameSlots(c0[ip := c0[ip].(busy := true)], fs.icache)
    requires forall p :: Live(c0, p) && c0[p].busy ==> p == dp
    requires var d, i := fs.icache[dp].inum, fs.icache[ip].inum;
             && d < |s.refs| && i < |s.refs| && L.Removable(s.t, d, Str(nm), i) && L.IsDir(s.t, d)
             && (L.IsDir(s.t, i) ==> L.Empty(s.t, i))
             && Stands(fs, S.Hold(S.Hold(s, d), i)) && Matches(Contents(fs.V(), d), e, nm) && off == e * DENT
    modifies fs, fs.disk
    ensures var d, i := old(fs.icache[dp].inum), old(fs.icache[ip].inum);
            && d < |s.t.nodes| && i < |s.t.nodes|
            && Stands(fs, Unlinked(s, d, Str(nm), i))
    ensures Quiet(fs.icache) && Kept(c0, fs.icache, s.refs)
  {
    hide Stands, S.Put, S.Hold, S.Removed, S.Valid, L.Empty, L.Short, Contents, Matches, L.Removable;
    ghost var d, i, c1 := fs.icache[dp].inum, fs.icache[ip].inum, fs.icache;
    C.HoldSame(s, d);
    ErasedStates(s, d, Str(nm), i);
    ghost var u := EraseI(fs, dp, off, e, nm, S.Hold(S.Hold(s, d), i));
    u := LowerParent(fs, dp, ip, u);
    ghost var c2 := fs.icache;
    UnlockPutI(fs, dp, u);
    ghost var c3 := fs.icache;
    u := S.Put(u, d);
    var di := HeldCopy(fs, ip, u);
    u := SetI(fs, ip, di.major, di.minor, L.Short(di.nlink - 1), u);
    ghost var c4 := fs.icache;
    UnlockPutI(fs, ip, u);
    BothReleased(c0, c1, c2, c3, c4, fs.icache, ip, dp, ip, s.refs);
  }

  lemma UnlinkFacts(s: S.State, d: nat, name: string, i: nat)
    requires S.Valid(s) && L.Removable(s.t, d, name, i)
    ensures d != i && L.IsDir(s.t, d) && i < |s.t.nodes| == |s.refs| && !S.IsFree(s.t, i) && s.t.nodes[i].nlink >= 1
    ensures L.Shaped(s.t)
  {
    L.NotItself(s.t, d, name, i);
    L.RemovableCounts(s.t, d, name, i);
    assert L.EntOk(s.t, (d, name));
  }

  /** What a locked entry holds. */
  method HeldCopy(fs: Fs, q: nat, ghost s: S.State) returns (d: Dinode)
    requires Stands(fs, s) && Locked(fs.icache, q)
    ensures d == fs.icache[q].d
    ensures var i := fs.icache[q].inum; i < |s.t.nodes| && d.kind == s.t.nodes[i].kind && d.nlink == s.t.nodes[i].nlink
  {
    hide Calm;
    LockedShown(fs, q, s.t);
    d := fs.icache[q].d;
  }

  /** A removed directory takes its ".." with it. */
  method LowerParent(fs: Fs, dp: nat, ip: nat, ghost s: S.State) returns (ghost u: S.State)
    requires Stands(fs, s) && Locked(fs.icache, dp) && Locked(fs.icache, ip)
    modifies fs`icache, fs`cur, fs`dinodes
    ensures Stands(fs, u) && SameSlots(old(fs.icache), fs.icache)
    ensures var d, i := old(fs.icache[dp].inum), old(fs.icache[ip].inum);
            && d < |s.t.nodes|
            && u == s.(t := if L.IsDir(s.t, i) then WithNode(s.t, d, s.t.nodes[d].kind, L.Short(s.t.nodes[d].nlink - 1))
                            else s.t)
  {
    hide Stands, L.Short;
    u := s;
    var di := HeldCopy(fs, ip, s);
    var dd := HeldCopy(fs, dp, s);
    if di.kind == T_DIR {
      u := SetI(fs, dp, dd.major, dd.minor, L.Short(dd.nlink - 1), s);
    }
  }

  /** sys_unlink on the disk. */
  method UnlinkOnDisk(fs: Fs, cwd: nat, path: string, ghost s: S.State) returns (r: S.Result)
    requires Stands(fs, s) && S.Valid(s) && Quiet(fs.icache) && CString(path) && Live(fs.icache, cwd)
    modifies fs, fs.disk
    ensures var d := old(fs.icache[cwd].inum);
            var o := S.Unlink(s, d, path);
            && (r.Panicked? <==> o.r.Panicked? || UnlinkLacks(s, d, path))
            && (!r.Panicked? ==>
                  && r == o.r && Stands(fs, o.s) && Quiet(fs.icache) && Kept(old(fs.icache), fs.icache, s.refs)
                  && S.Valid(o.s))
  {
    hide Stands, S.Walk, S.WalkParent, P.Elements, S.Put, S.Hold, S.Removed, L.Counts, L.Shaped, L.Empty, WalkLacks,
         Lacks, Contents, Matches, Canon, CanonTo;
    ghost var d := fs.icache[cwd].inum;
    S.UnlinkKeeps(s, d, path);
    C.ValidWalkable(s);
    S.ParentIsDir(s.t, d, path);
    LastNameIsC(path);
    BytesBack(S.LastName(path));
    var to, name := NameX(fs, cwd, path, true, s);
    if !to.At? {
      return if to.Nowhere? then S.Failed else S.Panicked;
    }
    var dp := to.slot;
    ghost var e := fs.icache[dp].inum;
    ghost var h := S.Hold(s, e);
    C.HoldSame(s, e);
    assert S.HeldOk(s, e);
    C.HoldPut(s, e);
    ghost var c0 := fs.icache;
    var dead := LockI(fs, dp, h);
    ghost var c1 := fs.icache;
    DotBytes(Canon(Bytes(name)));
    var dot := IsDotName(Bytes(name));
    var hit: Option<(nat, nat)> := None;
    ghost var at := 0;
    if !dot {
      hit, at := FindI(fs, dp, Bytes(name), h);
    }
    if hit == None {
      UnlockPutI(fs, dp, h);
      LockedMeanwhile(c0, c1, c1, fs.icache, dp, s.refs);
      return S.Failed;
    }
    var (child, off) := hit.value;
    L.RemovableCounts(s.t, e, name, child);
    C.HoldSame(h, child);
    var slot := GetI(fs, child, h);
    if slot == None {
      return S.Panicked;
    }
    GotUse(c0, c1, fs.icache, child, slot.value, dp);
    r := UnlinkAt(fs, dp, slot.value, off, at, Canon(Bytes(name)), s);
  }

  /** An entry is locked and then another reference taken. */
  lemma GotUse(c0: seq<Inode>, c1: seq<Inode>, c2: seq<Inode>, i: nat, s: nat, q: nat)
    requires Live(c0, q) && Quiet(c0) && SameSlots(c0[q := c0[q].(busy := true)], c1) && Got(c1, c2, i, Some(s))
    ensures forall p :: Live(c2, p) && c2[p].busy ==> p == q
    ensures forall p :: Live(c0, p) ==> Live(c2, p) && c2[p].inum == c0[p].inum
    ensures Locked(c1, q) ==> Locked(c2, q)
  {
    forall p | Live(c0, p)
      ensures Live(c2, p) && c2[p].inum == c0[p].inum
    {
      assert Live(c1, p);
    }
    forall p | Live(c2, p) && c2[p].busy
      ensures p == q
    {
      assert Live(c1, p) && c1[p].busy;
    }
  }

  // ---- create ----

  /** create wants a cache entry that is not there: on the way to the directory, for what the name leads to already, or
      for the inode to be taken. */
  predicate CreateLacks(s: S.State, cwd: nat, path: string) {
    || WalkLacks(s, cwd, path, true)
    || (var to, free := S.ResolveParent(s.t, cwd, path), S.FirstFree(s.t, 1);
        && to.Found? && to.i < |s.refs|
        && if (to.i, S.LastName(path)) in s.t.ents then NameLacks(s, to.i, S.LastName(path))
           else free.Some? && Lacks(S.Hold(s, to.i).refs, free.value))
  }

  /** The tree with a new inode under a name. */
  function Made(t: L.Tree, d: nat, name: string, i: nat, kind: int): L.Tree
    requires i < |t.nodes| && d < |t.nodes|
  {
    if kind == T_DIR then L.AddDir(t, d, name, i) else L.AddFile(t, d, name, i, kind)
  }

  /** The numbers that directories have. */
  lemma DirRange(fs: Fs, s: S.State, d: nat)
    requires Stands(fs, s) && L.Shaped(s.t) && L.IsDir(s.t, d)
    ensures 0 < d < 65536
  {
    hide Shows;
    assert L.DirOk(s.t, d);
    EntryRange(fs.V(), s.t, (d, "."));
  }

  /** The cache and the tree once a new inode has its name. */
  lemma MadeStands(fs: Fs, c: seq<Inode>, c1: seq<Inode>, s: S.State, d: nat, name: string, i: nat, kind: int, ip: nat,
                   u: L.Tree)
    requires |s.refs| == |s.t.nodes| && Refers(c, s.refs) && Distinct(c) && Loaded(c, s.t) && i < |s.refs|
    requires Got(c, c1, i, Some(ip)) && SameSlots(c1[ip := c1[ip].(busy := true)], fs.icache) && Locked(fs.icache, ip)
    requires d < |s.t.nodes| && d != i && kind != 0 && s.t.nodes[d].nlink >= 0
    requires u == Made(s.t, d, name, i, kind) && Calm(fs, u)
    ensures Stands(fs, S.Hold(s.(t := u), i))
  {
    hide Calm;
    GotRefers(c, c1, i, ip, s.refs);
    SameRefers(c1, fs.icache, s.refs[i := s.refs[i] + 1]);
    OneEntry(fs, u);
    forall q | Live(fs.icache, q) && !S.IsFree(u, fs.icache[q].inum) && u.nodes[fs.icache[q].inum].nlink == 0
      ensures fs.icache[q].valid
    {
      assert q != ip ==> Live(c, q) && c1[q] == c[q];
    }
  }

  /** The part of create that makes the inode, with both inodes locked at its end. */
  method MakeI(fs: Fs, dp: nat, name: string, kind: int, major: int, minor: int, ghost s: S.State)
    returns (ok: bool, inum: nat, ip: nat, ghost c: seq<Inode>)
    requires Stands(fs, s) && L.Sound(s.t) && Locked(fs.icache, dp) && kind != 0 && |s.t.nodes| <= 65536
    requires L.Absent(s.t, fs.icache[dp].inum, name) && CString(name) && |name| <= DIRSIZ
    modifies fs, fs.disk
    ensures var d, free := old(fs.icache[dp].inum), S.FirstFree(s.t, 1);
            && (ok <==> && free.Some? && !Lacks(s.refs, free.value)
                        && HasRoom(fs, old(fs.V()), d, if kind == T_DIR then 1 else 0))
            && (ok ==>
                  && free == Some(inum) && d < |s.t.nodes| && d != inum && inum < |s.refs|
                  && Stands(fs, S.Hold(s.(t := Made(s.t, d, name, inum, kind)), inum)))
    ensures ok ==>
              && Got(old(fs.icache), c, inum, Some(ip)) && !c[ip].busy && Locked(fs.icache, dp) && Locked(fs.icache, ip)
              && SameSlots(c[ip := c[ip].(busy := true)], fs.icache) && fs.icache[ip].inum == inum
  {
    hide Calm, Canon, CanonTo, L.Counts, L.Shaped, L.AddDir, L.AddFile, HasRoom, NoneFor, Lacks, S.FirstFree, Refers,
         Loaded;
    ghost var d, free, c0 := fs.icache[dp].inum, S.FirstFree(s.t, 1), fs.icache;
    DirRange(fs, s, d);
    BytesBack(name);
    OneEntry(fs, s.t);
    Extent(fs, s.t);
    S.NotNegative(s.t, d);
    if free.Some? {
      NoneLeft(fs.icache, s.refs, free.value);
    }
    ghost var u;
    ok, inum, ip, c, u := MakeOnDisk(fs, dp, Bytes(name), kind, major, minor, s.t);
    if ok {
      MadeStands(fs, c0, c, s, d, name, inum, kind, ip, u);
    }
  }

  /** create for a name that is there, with its directory locked: the file itself, locked, if a file is wanted. */
  method OpenAt(fs: Fs, dp: nat, child: nat, kind: int, ghost s: S.State) returns (r: S.Result, ip: nat)
    requires S.Valid(s) && OnlyLocked(fs.icache, dp) && child < |s.refs|
    requires var d := fs.icache[dp].inum; d < |s.refs| && !S.IsFree(s.t, d) && Stands(fs, S.Hold(s, d))
    modifies fs, fs.disk
    ensures var d := old(fs.icache[dp].inum);
            && (r.Panicked? <==> Lacks(S.Hold(s, d).refs, child) || S.IsFree(s.t, child))
            && (!r.Panicked? ==>
                  && Kept(old(fs.icache), fs.icache, s.refs)
                  && if kind == T_FILE && s.t.nodes[child].kind == T_FILE
                     then && r == S.Done(child) && Stands(fs, S.Hold(s, child)) && OnlyLocked(fs.icache, ip)
                          && fs.icache[ip].inum == child
                     else r == S.Failed && Stands(fs, s) && Quiet(fs.icache))
  {
    hide Stands, S.Put, S.Hold, Lacks, L.Counts, L.Shaped;
    ghost var d := fs.icache[dp].inum;
    ghost var h := S.Hold(s, d);
    C.HoldSame(s, d);
    C.HoldSame(s, child);
    C.HoldSame(h, child);
    assert S.HeldOk(s, d) && S.HeldOk(s, child);
    C.HoldNext(s, d, child);
    ip := 0;
    ghost var c0 := fs.icache;
    var slot := GetI(fs, child, h);
    if slot == None {
      return S.Panicked, ip;
    }
    ip := slot.value;
    ghost var c1 := fs.icache;
    UnlockPutI(fs, dp, S.Hold(h, child));
    GotReleased(c0, c1, fs.icache, child, ip, dp, s.refs);
    ghost var c2 := fs.icache;
    var dead := LockI(fs, ip, S.Hold(s, child));
    if dead {
      return S.Panicked, ip;
    }
    ghost var c3 := fs.icache;
    LockedNow(c2, c3, ip);
    if kind == T_FILE && fs.icache[ip].d.kind == T_FILE {
      return S.Done(child), ip;
    }
    C.HoldPut(s, child);
    UnlockPutI(fs, ip, S.Hold(s, child));
    LockedMeanwhile(c2, c3, c3, fs.icache, ip, s.refs);
    r := S.Failed;
  }

  /** create for a name that is not there, with its directory locked: the new inode, locked. */
  method MakeAt(fs: Fs, dp: nat, name: string, kind: int, major: int, minor: int, ghost s: S.State)
    returns (r: S.Result, ip: nat)
    requires S.Valid(s) && OnlyLocked(fs.icache, dp) && kind != 0 && |s.t.nodes| <= 65536
    requires var d := fs.icache[dp].inum;
             d < |s.refs| && L.Absent(s.t, d, name) && Stands(fs, S.Hold(s, d)) && CString(name) && |name| <= DIRSIZ
    modifies fs, fs.disk
    ensures var d, free := old(fs.icache[dp].inum), S.FirstFree(s.t, 1);
            && (r.Panicked? <==>
                  || free.None? || Lacks(S.Hold(s, d).refs, free.value)
                  || !HasRoom(fs, old(fs.V()), d, if kind == T_DIR then 1 else 0))
            && (!r.Panicked? ==>
                  && r == S.Done(free.value) && d < |s.t.nodes| && OnlyLocked(fs.icache, ip)
                  && fs.icache[ip].inum == free.value && free.value < |s.refs|
                  && Stands(fs, S.Hold(s.(t := Made(s.t, d, name, free.value, kind)), free.value))
                  && Kept(old(fs.icache), fs.icache, s.refs))
  {
    hide Stands, S.Put, S.Hold, Lacks, L.Counts, L.Shaped, HasRoom, S.FirstFree, Made;
    ghost var d := fs.icache[dp].inum;
    C.HoldSame(s, d);
    ghost var c0 := fs.icache;
    var ok, inum;
    ghost var c;
    ok, inum, ip, c := MakeI(fs, dp, name, kind, major, minor, S.Hold(s, d));
    if !ok {
      return S.Panicked, ip;
    }
    MadeStates(s, d, name, inum, kind);
    ghost var c1 := fs.icache;
    UnlockPutI(fs, dp, S.Hold(S.Hold(s, d).(t := Made(s.t, d, name, inum, kind)), inum));
    MadeReleased(c0, c, c1, fs.icache, inum, ip, dp, s.refs);
    r := S.Done(inum);
  }

  lemma MadeStates(s: S.State, d: nat, name: string, i: nat, kind: int)
    requires S.Valid(s) && d < |s.refs| && i < |s.refs| && d != i && L.IsDir(s.t, d) && kind != 0
    ensures var t := Made(s.t, d, name, i, kind);
            var h := S.Hold(S.Hold(s, d).(t := t), i);
            && |h.refs| == |s.refs| && h.refs[d] > s.refs[d] && S.Hold(s, d).t == s.t && |t.nodes| == |s.t.nodes|
            && S.Put(h, d) == S.Hold(s.(t := t), i)
  {
    hide L.Counts, L.Shaped;
    var t := Made(s.t, d, name, i, kind);
    S.NotNegative(s.t, d);
    assert S.HeldOk(s, d);
    C.HoldSwap(S.State(t, s.refs), d, i);
    C.HoldPut(S.Hold(S.State(t, s.refs), i), d);
  }

  lemma MadeReleased(c0: seq<Inode>, c: seq<Inode>, c1: seq<Inode>, c2: seq<Inode>, i: nat, ip: nat, q: nat,
                     refs: seq<nat>)
    requires OnlyLocked(c0, q) && Got(c0, c, i, Some(ip)) && !c[ip].busy && c0[q].inum != i
    requires SameSlots(c[ip := c[ip].(busy := true)], c1) && Locked(c1, ip) && LetGoOf(c1, c2, q)
    requires c0[q].inum < |refs| && refs[c0[q].inum] < c1[q].refs
    ensures OnlyLocked(c2, ip) && c2[ip].inum == i && Kept(c0, c2, refs)
  {
    forall p | Live(c2, p)
      ensures c2[p].busy ==> p == ip
    {
      assert c1[p].refs == c[p].refs && (p != ip ==> c1[p].busy == c[p].busy);
    }
    forall p | Live(c0, p) && c0[p].inum < |refs| && refs[c0[p].inum] > 0
      ensures Live(c2, p) && c2[p].inum == c0[p].inum
    {
      assert Live(c, p) && c1[p].inum == c[p].inum && c1[p].refs == c[p].refs;
    }
  }

  /** create on the disk; the inode it gives is locked. */
  method CreateOnDisk(fs: Fs, cwd: nat, path: string, kind: int, major: int, minor: int, ghost s: S.State)
    returns (r: S.Result, ip: nat)
    requires Stands(fs, s) && S.Valid(s) && Quiet(fs.icache) && CString(path) && Live(fs.icache, cwd)
    requires (kind == T_DIR || kind == T_FILE || kind == T_DEV) && |s.t.nodes| <= 65536
    modifies fs, fs.disk
    ensures var d := old(fs.icache[cwd].inum);
            var o := S.Create(s, d, path, kind, RoomAt(fs, old(fs.V()), s.t, d, path, if kind == T_DIR then 1 else 0));
            && (r.Panicked? <==> o.r.Panicked? || CreateLacks(s, d, path))
            && (!r.Panicked? ==>
                  && r == o.r && Stands(fs, o.s) && Kept(old(fs.icache), fs.icache, s.refs)
                  && (S.Valid(o.s) <==>
                        (S.CreateAdds(s.t, d, path) ==>
                           S.IntoLinked(s.t, d, path) && (kind == T_DIR ==> S.RoomForDir(s.t, d, path)))))
    ensures r.Failed? ==> Quiet(fs.icache)
    ensures r.Done? ==> OnlyLocked(fs.icache, ip) && fs.icache[ip].inum == r.inum
  {
    hide Stands, S.Walk, S.WalkParent, P.Elements, S.Put, S.Hold, L.Counts, L.Shaped, WalkLacks, Lacks, Contents,
         Matches, Canon, CanonTo, S.FirstFree, HasRoom;
    ghost var d := fs.icache[cwd].inum;
    ip := 0;
    S.CreateKeeps(s, d, path, kind, RoomAt(fs, fs.V(), s.t, d, path, if kind == T_DIR then 1 else 0));
    C.ValidWalkable(s);
    S.ParentIsDir(s.t, d, path);
    LastNameIsC(path);
    BytesBack(S.LastName(path));
    var to, name := NameX(fs, cwd, path, true, s);
    if !to.At? {
      return if to.Nowhere? then S.Failed else S.Panicked, ip;
    }
    var dp := to.slot;
    ghost var e := fs.icache[dp].inum;
    ghost var h := S.Hold(s, e);
    C.HoldSame(s, e);
    ghost var c0 := fs.icache;
    var dead := LockI(fs, dp, h);
    LockedNow(c0, fs.icache, dp);
    var hit;
    ghost var at;
    hit, at := FindI(fs, dp, Bytes(name), h);
    if hit.Some? {
      r, ip := OpenAt(fs, dp, hit.value.0, kind, s);
    } else {
      r, ip := MakeAt(fs, dp, name, kind, major, minor, s);
    }
  }

  /** With three cache entries to spare no call panics for want of one. */
  lemma ThreeEntriesDo(s: S.State, cwd: nat, path: string, new_: string)
    requires |InUse(s.refs)| + 3 <= NINODE
    ensures !LinkLacks(s, cwd, path, new_) && !UnlinkLacks(s, cwd, path) && !CreateLacks(s, cwd, path)
  {
    hide InUse, S.Hold, S.Walk, S.WalkParent, P.Elements, WalkLacks;
    TwoEntriesDo(s, cwd, path, false);
    TwoEntriesDo(s, cwd, path, true);
    var to := S.ResolveParent(s.t, cwd, path);
    if to.Found? && to.i < |s.refs| {
      HoldUses(s, to.i);
    }
    var from, dir := S.Resolve(s.t, cwd, path), S.ResolveParent(s.t, cwd, new_);
    if from.Found? && from.i < |s.refs| {
      HoldUses(s, from.i);
      TwoEntriesDo(S.Hold(s, from.i), cwd, new_, true);
      if dir.Found? && dir.i < |S.Hold(s, from.i).refs| {
        HoldUses(S.Hold(s, from.i), dir.i);
      }
    }
  }

  // ---- opening and starting ----

  /** The part of sys_open that finds a file that is there, locked. */
  method OpenOnDisk(fs: Fs, cwd: nat, path: string, ghost s: S.State) returns (r: S.Result, ip: nat)
    requires Stands(fs, s) && S.Valid(s) && Quiet(fs.icache) && CString(path) && Live(fs.icache, cwd)
    modifies fs, fs.disk
    ensures var d := old(fs.icache[cwd].inum);
            var o := S.Open(s, d, path);
            && (r.Panicked? <==> o.r.Panicked? || WalkLacks(s, d, path, false))
            && (!r.Panicked? ==>
                  r == o.r && Stands(fs, o.s) && fs.V() == old(fs.V()) && Kept(old(fs.icache), fs.icache, s.refs))
    ensures r.Failed? ==> Quiet(fs.icache)
    ensures r.Done? ==> OnlyLocked(fs.icache, ip) && fs.icache[ip].inum == r.inum
  {
    hide Stands, S.Walk, P.Elements, S.Hold, L.Counts, L.Shaped, WalkLacks;
    ip := 0;
    C.ValidWalkable(s);
    var to, _ := NameX(fs, cwd, path, false, s);
    if !to.At? {
      return if to.Nowhere? then S.Failed else S.Panicked, ip;
    }
    ip := to.slot;
    var inum := fs.icache[ip].inum;
    C.HoldSame(s, inum);
    ghost var c0 := fs.icache;
    var dead := LockI(fs, ip, S.Hold(s, inum));
    if dead {
      return S.Panicked, ip;
    }
    LockedNow(c0, fs.icache, ip);
    r := S.Done(inum);
  }

  /** A new disk, with the root directory held by the first process: all that the calls ask for. */
  method Boot(nblocks: nat, ninodes: nat) returns (fs: Fs, ghost s: S.State)
    requires DataStart(nblocks, ninodes) < nblocks < UINT && L.ROOT < ninodes <= 65536
    ensures s == S.Hold(S.Blank(ninodes), L.ROOT) && S.Valid(s) && Stands(fs, s) && Quiet(fs.icache)
    ensures Live(fs.icache, 0) && fs.icache[0].inum == L.ROOT && L.IsDir(s.t, L.ROOT)
  {
    hide Calm, L.Counts, L.Shaped, DataStart;
    fs := FreshDisk(nblocks, ninodes);
    s := S.Hold(S.Blank(ninodes), L.ROOT);
    S.BlankValid(ninodes);
    S.HoldValid(S.Blank(ninodes), L.ROOT);
    assert Live(fs.icache, 0);
    assert HasEntry(fs.icache, L.ROOT);
  }
}

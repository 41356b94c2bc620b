/**
 Path walks on the disk: a file system stands for a state of Sysfile when its image shows
 the tree and its inode cache holds the references, and a walk ends where the tree says.

 Calls run one after another, so that no inode is locked between them.
 */
module FsNames {
  import opened Common
  import opened FsVolume
  import opened FsBytes
  import opened FileSystem
  import opened FsDir
  import opened FsTree
  import L = Links
  import P = Paths
  import S = Sysfile
  import C = SysfileCalls

  // ---- the inode cache as reference counts ----

  ghost predicate HasEntry(c: seq<Inode>, i: nat) {
    exists q :: Live(c, q) && c[q].inum == i
  }

  /** The cache holds `refs[i]` references to inode `i`. */
  ghost predicate Refers(c: seq<Inode>, refs: seq<nat>) {
    && (forall q :: Live(c, q) ==> c[q].inum < |refs| && refs[c[q].inum] == c[q].refs)
    && (forall i :: 0 <= i < |refs| && refs[i] > 0 ==> HasEntry(c, i))
  }

  /** An inode that lives without links is loaded. */
  ghost predicate Loaded(c: seq<Inode>, t: L.Tree) {
    forall q :: Live(c, q) && !S.IsFree(t, c[q].inum) && t.nodes[c[q].inum].nlink == 0 ==> c[q].valid
  }

  /** The file system stands for the state. */
  ghost predicate Stands(fs: Fs, s: S.State)
    reads fs, fs.disk
  {
    Calm(fs, s.t) && |s.refs| == |s.t.nodes| && Refers(fs.icache, s.refs) && Loaded(fs.icache, s.t)
  }

  function InUse(refs: seq<nat>): set<nat> {
    set i | 0 <= i < |refs| && refs[i] > 0
  }

  /** All cache entries are in use, none of them for inode `i`. */
  predicate Lacks(refs: seq<nat>, i: nat) {
    |InUse(refs)| == NINODE && i !in InUse(refs)
  }

  ghost predicate Distinct(c: seq<Inode>) {
    forall p, q :: Live(c, p) && Live(c, q) && c[p].inum == c[q].inum ==> p == q
  }

  ghost function Inums(c: seq<Inode>, k: nat): set<nat>
    requires k <= |c|
  {
    set q | 0 <= q < k && Live(c, q) :: c[q].inum
  }

  lemma {:induction false} CountInums(c: seq<Inode>, k: nat)
    requires Distinct(c) && k <= |c|
    ensures |Inums(c, k)| <= k && (|Inums(c, k)| == k <==> forall q :: 0 <= q < k ==> Live(c, q))
  {
    if k > 0 {
      CountInums(c, k - 1);
      var i := c[k - 1].inum;
      if Live(c, k - 1) {
        assert i !in Inums(c, k - 1);
        assert Inums(c, k) == Inums(c, k - 1) + {i};
      } else {
        assert Inums(c, k) == Inums(c, k - 1);
      }
    }
  }

  /** No entry is left for an inode exactly when as many inodes as there are entries are in use, and not this one. */
  lemma NoneLeft(c: seq<Inode>, refs: seq<nat>, i: nat)
    requires Distinct(c) && Refers(c, refs) && |c| == NINODE && i < |refs|
    ensures NoneFor(c, i) <==> Lacks(refs, i)
  {
    CountInums(c, |c|);
    assert Inums(c, |c|) == InUse(refs) by {
      forall j | j in InUse(refs)
        ensures j in Inums(c, |c|)
      {
        assert HasEntry(c, j);
      }
    }
    if NoneFor(c, i) {
      assert !HasEntry(c, i);
    }
    if i !in InUse(refs) {
      assert forall q :: Live(c, q) ==> c[q].inum != i;
    }
  }

  /** The effect of iget on the reference counts. */
  lemma GotRefers(c: seq<Inode>, c': seq<Inode>, i: nat, q: nat, refs: seq<nat>)
    requires Got(c, c', i, Some(q)) && Refers(c, refs) && Distinct(c) && i < |refs|
    ensures Refers(c', refs[i := refs[i] + 1])
  {
    var refs' := refs[i := refs[i] + 1];
    forall p | Live(c', p)
      ensures c'[p].inum < |refs'| && refs'[c'[p].inum] == c'[p].refs
    {
      if p != q {
        assert Live(c, p);
      } else if !Live(c, q) {
        assert refs[i] > 0 ==> HasEntry(c, i);
      }
    }
    forall j | 0 <= j < |refs'| && refs'[j] > 0
      ensures HasEntry(c', j)
    {
      if j == i {
        assert Live(c', q);
      } else {
        assert HasEntry(c, j);
        var p :| Live(c, p) && c[p].inum == j;
        assert Live(c', p) && c'[p].inum == j;
      }
    }
  }

  /** The effect of a dropped reference. */
  lemma DroppedRefers(c: seq<Inode>, c': seq<Inode>, q: nat, refs: seq<nat>)
    requires Live(c, q) && Refers(c, refs) && Distinct(c) && |c'| == |c| && c' == c[q := c'[q]]
    requires if c[q].refs > 1 then c'[q] == c[q].(refs := c[q].refs - 1) else !Live(c', q)
    ensures c[q].inum < |refs| && refs[c[q].inum] > 0 && Refers(c', refs[c[q].inum := refs[c[q].inum] - 1])
  {
    var i := c[q].inum;
    var refs' := refs[i := refs[i] - 1];
    forall p | Live(c', p)
      ensures c'[p].inum < |refs'| && refs'[c'[p].inum] == c'[p].refs
    {
      assert Live(c, p);
    }
    forall j | 0 <= j < |refs'| && refs'[j] > 0
      ensures HasEntry(c', j)
    {
      assert HasEntry(c, j);
      var p :| Live(c, p) && c[p].inum == j;
      assert Live(c', p) && c'[p].inum == j;
    }
  }

  lemma SameRefers(c: seq<Inode>, c': seq<Inode>, refs: seq<nat>)
    requires |c| == |c'| && Refers(c, refs)
    requires forall q :: 0 <= q < |c| ==> c'[q].inum == c[q].inum && c'[q].refs == c[q].refs
    ensures Refers(c', refs)
  {
    assert forall q :: Live(c', q) <==> Live(c, q);
    forall j | 0 <= j < |refs| && refs[j] > 0
      ensures HasEntry(c', j)
    {
      assert HasEntry(c, j);
      var p :| Live(c, p) && c[p].inum == j;
      assert Live(c', p) && c'[p].inum == j;
    }
  }

  // ---- references ----

  /** An inode that can be held: the last reference to it, if this is the first, will not free it. */
  predicate Holdable(s: S.State, i: nat) {
    i < |s.refs| && i < |s.t.nodes| && (s.refs[i] == 0 ==> S.IsFree(s.t, i) || s.t.nodes[i].nlink != 0)
  }

  method GetI(fs: Fs, i: nat, ghost s: S.State) returns (slot: Option<nat>)
    requires Stands(fs, s) && Holdable(s, i)
    modifies fs`icache
    ensures slot.None? <==> Lacks(s.refs, i)
    ensures slot.Some? ==> Stands(fs, S.Hold(s, i)) && Got(old(fs.icache), fs.icache, i, slot)
  {
    hide Calm, NoneFor;
    OneEntry(fs, s.t);
    Extent(fs, s.t);
    NoneLeft(fs.icache, s.refs, i);
    slot := Get(fs, i, s.t);
    if slot.Some? {
      GotRefers(old(fs.icache), fs.icache, i, slot.value, s.refs);
    }
  }

  method DupI(fs: Fs, q: nat, ghost s: S.State)
    requires Stands(fs, s) && Live(fs.icache, q)
    modifies fs`icache
    ensures var i := old(fs.icache[q].inum); i < |s.refs| && Stands(fs, S.Hold(s, i))
    ensures fs.icache == old(fs.icache)[q := old(fs.icache[q]).(refs := old(fs.icache[q]).refs + 1)]
  {
    hide Calm;
    OneEntry(fs, s.t);
    ghost var c := fs.icache;
    Dup(fs, q, s.t);
    GotRefers(c, fs.icache, c[q].inum, q, s.refs);
  }

  /** Entry `q` has a reference less. */
  ghost predicate Dropped(c: seq<Inode>, c': seq<Inode>, q: nat) {
    && q < |c| == |c'| && c' == c[q := c'[q]] && c'[q].refs == c[q].refs - 1
    && (Live(c', q) ==> c'[q] == c[q].(refs := c'[q].refs))
  }

  lemma DroppedKept(c: seq<Inode>, c': seq<Inode>, q: nat, refs: seq<nat>)
    requires Dropped(c, c', q) && c[q].inum < |refs| && refs[c[q].inum] < c[q].refs
    ensures Kept(c, c', refs) && (Quiet(c) ==> Quiet(c'))
  {
    forall p | Live(c', p) && Quiet(c)
      ensures !c'[p].busy
    {
      assert Live(c, p);
    }
  }

  /** Dropping a reference does to the state what `Put` does; the disk stays as it is if the tree does. */
  method PutI(fs: Fs, q: nat, ghost s: S.State)
    requires Stands(fs, s) && Live(fs.icache, q) && (fs.icache[q].busy ==> fs.icache[q].refs > 1)
    modifies fs, fs.disk
    ensures var i := old(fs.icache[q].inum);
            && i < |s.refs| && s.refs[i] == old(fs.icache[q].refs) && Stands(fs, S.Put(s, i))
            && (S.Put(s, i).t == s.t ==> fs.V() == old(fs.V()))
    ensures Dropped(old(fs.icache), fs.icache, q)
  {
    hide Calm;
    OneEntry(fs, s.t);
    ghost var c := fs.icache;
    ghost var i := c[q].inum;
    FreeAlready(fs, q, s.t);
    var freed;
    ghost var u;
    freed, u := Drop(fs, q, s.t);
    DroppedRefers(c, fs.icache, q, s.refs);
  }

  /** A free inode is not loaded, and freeing it again changes nothing. */
  lemma FreeAlready(fs: Fs, q: nat, t: L.Tree)
    requires Calm(fs, t) && Live(fs.icache, q)
    ensures var i := fs.icache[q].inum;
            && i < |t.nodes|
            && (S.IsFree(t, i) ==> !fs.icache[q].valid && (t.nodes[i].nlink == 0 ==> L.Free(t, i) == t))
  {
    hide Inv, fs.Cached, RestExcept, CacheAgrees, ShowsAt;
    var i := fs.icache[q].inum;
    KindsShown(fs.V(), t);
    if t.nodes[i].kind == 0 {
      forall e | e in t.ents
        ensures e.0 != i
      {
        assert EntryNamed(t, e);
      }
      assert L.Free(t, i).ents == t.ents;
    }
  }

  method LockI(fs: Fs, q: nat, ghost s: S.State) returns (dead: bool)
    requires Stands(fs, s) && Live(fs.icache, q) && !fs.icache[q].busy
    modifies fs`icache
    ensures dead <==> S.IsFree(s.t, old(fs.icache[q].inum))
    ensures !dead ==> Stands(fs, s) && Locked(fs.icache, q)
    ensures !dead ==> SameSlots(old(fs.icache)[q := old(fs.icache[q]).(busy := true)], fs.icache)
    ensures !dead ==>
              var i, d := fs.icache[q].inum, fs.icache[q].d;
              i < |s.t.nodes| && d.nlink == s.t.nodes[i].nlink && d.kind == s.t.nodes[i].kind
  {
    hide Calm;
    ghost var c := fs.icache;
    dead := TryLock(fs, q, s.t);
    if !dead {
      SameRefers(c, fs.icache, s.refs);
    }
  }

  method UnlockI(fs: Fs, q: nat, ghost s: S.State)
    requires Stands(fs, s) && Locked(fs.icache, q)
    modifies fs`icache
    ensures Stands(fs, s) && fs.icache == old(fs.icache)[q := old(fs.icache[q]).(busy := false)]
  {
    hide Calm;
    ghost var c := fs.icache;
    Unlock(fs, q, s.t);
    SameRefers(c, fs.icache, s.refs);
  }

  method UnlockPutI(fs: Fs, q: nat, ghost s: S.State)
    requires Stands(fs, s) && Locked(fs.icache, q)
    modifies fs, fs.disk
    ensures var i := old(fs.icache[q].inum);
            && i < |s.refs| && s.refs[i] == old(fs.icache[q].refs) && Stands(fs, S.Put(s, i))
            && (S.Put(s, i).t == s.t ==> fs.V() == old(fs.V()))
    ensures LetGoOf(old(fs.icache), fs.icache, q)
  {
    hide Stands, S.Put;
    UnlockI(fs, q, s);
    PutI(fs, q, s);
  }

  /** The cache is in the same use: the same entries hold the same inodes, as often and as locked as before. */
  ghost predicate SameUse(c: seq<Inode>, c': seq<Inode>) {
    forall p :: (Live(c', p) <==> Live(c, p)) &&
                (Live(c, p) ==>
                   && c'[p].inum == c[p].inum && c'[p].refs == c[p].refs && c'[p].busy == c[p].busy
                   && (c[p].valid ==> c'[p].valid))
  }

  /** A reference taken and dropped at once. */
  method TouchI(fs: Fs, i: nat, ghost s: S.State) returns (full: bool)
    requires Stands(fs, s) && Holdable(s, i)
    modifies fs, fs.disk
    ensures full <==> Lacks(s.refs, i)
    ensures !full ==> Stands(fs, s) && fs.V() == old(fs.V()) && SameUse(old(fs.icache), fs.icache)
  {
    hide Calm, Lacks, Refers, Loaded;
    var slot := GetI(fs, i, s);
    full := slot == None;
    if !full {
      FreeAlready(fs, slot.value, s.t);
      ghost var h := S.Hold(s, i);
      assert S.Put(h, i).t == s.t && S.Put(h, i).refs == s.refs;
      PutI(fs, slot.value, h);
    }
  }

  /** Entry `q` is let go of: unlocked and a reference less. */
  ghost predicate LetGoOf(c: seq<Inode>, c': seq<Inode>, q: nat) {
    && q < |c| == |c'| && c' == c[q := c'[q]] && c'[q].refs == c[q].refs - 1
    && (Live(c', q) ==> c'[q] == c[q].(refs := c'[q].refs, busy := false))
  }

  /** Entry `q` is locked, used and let go of: all that is held otherwise stays. */
  lemma LockedMeanwhile(c0: seq<Inode>, c1: seq<Inode>, c2: seq<Inode>, c3: seq<Inode>, q: nat, refs: seq<nat>)
    requires Live(c0, q) && SameSlots(c0[q := c0[q].(busy := true)], c1) && SameUse(c1, c2) && LetGoOf(c2, c3, q)
    requires c0[q].inum < |refs| && refs[c0[q].inum] < c2[q].refs
    ensures Kept(c0, c3, refs) && (Quiet(c0) ==> Quiet(c3))
    ensures forall p :: p != q && Live(c0, p) ==> Live(c3, p) && c3[p].inum == c0[p].inum && c3[p].busy == c0[p].busy
  {
    assert forall p :: Live(c1, p) <==> Live(c0, p);
    forall p | Live(c0, p)
      ensures p != q ==> Live(c3, p) && c3[p].inum == c0[p].inum && c3[p].busy == c0[p].busy
      ensures refs[c0[q].inum] > 0 && p == q ==> Live(c3, p) && c3[p].inum == c0[p].inum
    {
      assert Live(c2, p);
    }
    forall p | Live(c3, p) && Quiet(c0)
      ensures !c3[p].busy
    {
      assert Live(c2, p) && Live(c1, p);
    }
  }

  /** Entry `l` is locked, then `f` and `g` are let go of: all that is held otherwise stays, and nothing is locked. */
  lemma BothReleased(c0: seq<Inode>, c1: seq<Inode>, c2: seq<Inode>, c3: seq<Inode>, c4: seq<Inode>, c5: seq<Inode>,
                     l: nat, f: nat, g: nat, refs: seq<nat>)
    requires Live(c0, f) && Live(c0, g) && f != g && (l == f || l == g)
    requires forall p :: Live(c0, p) && c0[p].busy ==> p == f || p == g
    requires SameSlots(c0[l := c0[l].(busy := true)], c1) && SameSlots(c1, c2) && LetGoOf(c2, c3, f)
    requires SameSlots(c3, c4) && LetGoOf(c4, c5, g)
    requires c0[f].inum < |refs| && refs[c0[f].inum] < c2[f].refs
    requires c0[g].inum < |refs| && refs[c0[g].inum] < c4[g].refs
    ensures Kept(c0, c5, refs) && Quiet(c5)
  {
    forall p | Live(c0, p) && c0[p].inum < |refs| && refs[c0[p].inum] > 0
      ensures Live(c5, p) && c5[p].inum == c0[p].inum
    {
      assert c2[p].inum == c1[p].inum == c0[p].inum && c2[p].refs == c1[p].refs == c0[p].refs;
      assert c4[p].inum == c3[p].inum && c4[p].refs == c3[p].refs;
    }
    forall p | Live(c5, p)
      ensures !c5[p].busy
    {
      assert c2[p].busy == c1[p].busy && c4[p].busy == c3[p].busy && c4[p].refs == c3[p].refs;
      assert c2[p].refs == c1[p].refs == c0[p].refs;
      if p != f && p != g {
        assert Live(c0, p) && !c0[p].busy;
      }
    }
  }

  /** One inode, `q`, is locked. */
  ghost predicate OnlyLocked(c: seq<Inode>, q: nat) {
    Locked(c, q) && forall p :: Live(c, p) && c[p].busy ==> p == q
  }

  lemma LockedNow(c: seq<Inode>, c': seq<Inode>, q: nat)
    requires Quiet(c) && Live(c, q) && SameSlots(c[q := c[q].(busy := true)], c') && Locked(c', q)
    ensures OnlyLocked(c', q) && forall p :: Live(c, p) ==> Live(c', p) && c'[p].inum == c[p].inum
  {
    forall p | Live(c', p) && c'[p].busy
      ensures p == q
    {
      assert p != q ==> Live(c, p);
    }
    forall p | Live(c, p)
      ensures Live(c', p) && c'[p].inum == c[p].inum
    {
    }
  }

  /** A reference is taken and then the locked entry let go of. */
  lemma GotReleased(c0: seq<Inode>, c1: seq<Inode>, c2: seq<Inode>, i: nat, s: nat, q: nat, refs: seq<nat>)
    requires OnlyLocked(c0, q) && Got(c0, c1, i, Some(s)) && LetGoOf(c1, c2, q)
    requires c0[q].inum < |refs| && refs[c0[q].inum] < c1[q].refs - if s == q then 1 else 0
    ensures Quiet(c2) && Kept(c0, c2, refs) && Live(c2, s) && c2[s].inum == i
  {
    forall p | Live(c2, p)
      ensures !c2[p].busy
    {
      if p != q {
        assert Live(c1, p);
      }
    }
  }

  // ---- walking a path ----

  /** A C string: no NUL before its end. */
  predicate CString(p: string) {
    forall k :: 0 <= k < |p| ==> 0 < p[k] as int < 256
  }

  function Bytes(name: string): seq<Byte>
    requires CString(name)
  {
    seq(|name|, k requires 0 <= k < |name| => name[k] as int)
  }

  /** A name of at most 14 characters is what its bytes denote. */
  lemma BytesBack(name: string)
    requires CString(name) && |name| <= DIRSIZ
    ensures Str(Canon(Bytes(name))) == name
  {
    var b := Bytes(name);
    assert forall k :: 0 <= k < |b| ==> b[k] != 0;
    CanonPadded(b, 0, DIRSIZ);
    assert b + seq(0, _ => 0) == b;
    assert forall k :: 0 <= k < |name| ==> Str(b)[k] == name[k];
  }

  lemma {:induction false} ElementIsC(p: string, k: nat)
    requires CString(p) && k < |P.Elements(p)|
    ensures CString(P.Elements(p)[k]) && |P.Elements(p)[k]| <= DIRSIZ
    decreases |p|
  {
    if p[0] == '/' {
      ElementIsC(p[1..], k);
    } else if k > 0 {
      assert P.ElemLen(p) > 0;
      ElementIsC(p[P.ElemLen(p)..], k - 1);
    }
  }

  /** Where a walk comes to: a cache entry, or nothing; or a panic, over a free inode or for want of an entry. */
  datatype Reached = At(slot: nat) | Nowhere | FreeInode | CacheFull

  /** The walk ended as the tree says, with one reference if it found something and else without any. */
  ghost predicate Ended(fs: Fs, s: S.State, w: S.Walked, r: Reached)
    reads fs, fs.disk
  {
    match r
    case At(q) =>
      && w.Found? && Live(fs.icache, q) && fs.icache[q].inum == w.i < |s.refs|
      && Stands(fs, S.Hold(s, w.i)) && Quiet(fs.icache)
    case Nowhere => w.Missing? && Stands(fs, s) && Quiet(fs.icache)
    case FreeInode => w.Dead?
    case CacheFull => false
  }

  /** Entries with other references stay where they are. */
  ghost predicate Kept(c: seq<Inode>, c': seq<Inode>, refs: seq<nat>) {
    forall q :: Live(c, q) && c[q].inum < |refs| && refs[c[q].inum] > 0 ==> Live(c', q) && c'[q].inum == c[q].inum
  }

  lemma KeptOn(c0: seq<Inode>, c1: seq<Inode>, c2: seq<Inode>, refs: seq<nat>)
    requires Kept(c0, c1, refs)
    ensures Kept(c1, c2, refs) ==> Kept(c0, c2, refs)
  {
  }

  /** What one step of a walk comes to; the last one for a parent stops at the directory itself. */
  function StepGoal(t: L.Tree, i: nat, name: string, stop: bool): S.Walked {
    if S.IsFree(t, i) then S.Dead
    else if !L.IsDir(t, i) then S.Missing
    else if stop then S.Found(i)
    else if (i, name) !in t.ents then S.Missing
    else S.Found(t.ents[(i, name)])
  }

  /** One round of namex. */
  method StepInto(fs: Fs, q: nat, name: string, stop: bool, ghost s: S.State) returns (r: Reached)
    requires C.Walkable(s) && Quiet(fs.icache) && CString(name) && |name| <= DIRSIZ
    requires Live(fs.icache, q) && fs.icache[q].inum < |s.refs| && Stands(fs, S.Hold(s, fs.icache[q].inum))
    modifies fs, fs.disk
    ensures var i := old(fs.icache[q].inum);
            var w := StepGoal(s.t, i, name, stop);
            && (r == CacheFull <==> w.Found? && !stop && Lacks(S.Hold(s, i).refs, w.i))
            && (r != CacheFull ==> Ended(fs, s, w, r))
    ensures r.At? || r.Nowhere? ==> fs.V() == old(fs.V()) && Kept(old(fs.icache), fs.icache, s.refs)
  {
    hide Stands, S.Put, S.Hold, Lacks, Canon, CanonTo, Contents, Matches;
    ghost var i := fs.icache[q].inum;
    ghost var h := S.Hold(s, i);
    C.HoldSame(s, i);
    BytesBack(name);
    ghost var c0 := fs.icache;
    var dead := LockI(fs, q, h);
    if dead {
      return FreeInode;
    }
    ghost var c1 := fs.icache;
    LockedNow(c0, c1, q);
    assert S.HeldOk(s, i);
    C.HoldPut(s, i);
    if fs.icache[q].d.kind != T_DIR {
      UnlockPutI(fs, q, h);
      LockedMeanwhile(c0, c1, c1, fs.icache, q, s.refs);
      return Nowhere;
    }
    if stop {
      UnlockI(fs, q, h);
      return At(q);
    }
    var hit;
    ghost var e;
    hit, e := FindI(fs, q, Bytes(name), h);
    if hit == None {
      UnlockPutI(fs, q, h);
      LockedMeanwhile(c0, c1, c1, fs.icache, q, s.refs);
      return Nowhere;
    }
    assert S.HeldOk(s, hit.value.0);
    r := Descend(fs, q, hit.value.0, s);
  }

  /** Take a reference to the next inode of a walk and let go of the locked one. */
  method Descend(fs: Fs, q: nat, child: nat, ghost s: S.State) returns (r: Reached)
    requires |s.refs| == |s.t.nodes| && child < |s.refs| && OnlyLocked(fs.icache, q)
    requires var i := fs.icache[q].inum;
             i < |s.refs| && S.HeldOk(s, i) && S.HeldOk(s, child) && !S.IsFree(s.t, i) && Stands(fs, S.Hold(s, i))
    modifies fs, fs.disk
    ensures r == CacheFull <==> Lacks(S.Hold(s, old(fs.icache[q].inum)).refs, child)
    ensures r != CacheFull ==>
              && Ended(fs, s, S.Found(child), r) && fs.V() == old(fs.V()) && Kept(old(fs.icache), fs.icache, s.refs)
  {
    hide Stands, S.Put, S.Hold, Lacks;
    ghost var i := fs.icache[q].inum;
    ghost var h := S.Hold(s, i);
    C.HoldSame(s, i);
    C.HoldNext(s, i, child);
    C.HoldSame(h, child);
    ghost var c0 := fs.icache;
    var slot := GetI(fs, child, h);
    if slot == None {
      return CacheFull;
    }
    C.HoldSame(s, child);
    ghost var c1 := fs.icache;
    UnlockPutI(fs, q, S.Hold(h, child));
    GotReleased(c0, c1, fs.icache, child, slot.value, q, s.refs);
    r := At(slot.value);
  }

  /** dirlookup without its reference; `e` is the place of the entry. */
  method FindI(fs: Fs, q: nat, name: seq<Byte>, ghost s: S.State) returns (hit: Option<(nat, nat)>, ghost e: nat)
    requires Stands(fs, s) && Locked(fs.icache, q) && L.IsDir(s.t, fs.icache[q].inum)
    modifies fs`bitmap, fs`blocks, fs`icache, fs`cur, fs`book, fs.disk
    ensures Stands(fs, s) && fs.icache == old(fs.icache) && fs.V() == old(fs.V())
    ensures hit == None <==> (fs.icache[q].inum, Str(Canon(name))) !in s.t.ents
    ensures hit.Some? ==>
              && L.Holds(s.t, fs.icache[q].inum, Str(Canon(name)), hit.value.0) && hit.value.1 == e * DENT
              && Matches(Contents(fs.V(), fs.icache[q].inum), e, Canon(name))
  {
    hide Calm, Contents, Matches, Canon, CanonTo;
    hit, e := FindName(fs, q, name, s.t);
  }

  lemma {:induction false} WalkAppend(t: L.Tree, i: nat, xs: seq<string>, e: string)
    ensures S.Walk(t, i, xs + [e]) ==
            match S.Walk(t, i, xs)
            case Found(a) => StepGoal(t, a, e, false)
            case w => w
    decreases |xs|
  {
    if xs == [] {
      assert (xs + [e])[1..] == [];
    } else {
      assert (xs + [e])[1..] == xs[1..] + [e];
      if (i, xs[0]) in t.ents {
        WalkAppend(t, t.ents[(i, xs[0])], xs[1..], e);
      }
    }
  }

  lemma WalkNext(t: L.Tree, i: nat, elems: seq<string>, k: nat)
    requires k < |elems|
    ensures S.Walk(t, i, elems[..k + 1]) ==
            match S.Walk(t, i, elems[..k])
            case Found(a) => StepGoal(t, a, elems[k], false)
            case w => w
  {
    assert elems[..k + 1] == elems[..k] + [elems[k]];
    WalkAppend(t, i, elems[..k], elems[k]);
  }

  /** A walk that has stopped goes no further. */
  lemma {:induction false} StopsThere(t: L.Tree, i: nat, elems: seq<string>, k: nat, j: nat)
    requires k <= j <= |elems| && !S.Walk(t, i, elems[..k]).Found?
    ensures !S.Walk(t, i, elems[..j]).Found?
    decreases j
  {
    if k < j {
      StopsThere(t, i, elems, k, j - 1);
      WalkNext(t, i, elems, j - 1);
    }
  }

  /** Step `k` of a walk, while it holds one inode, finds no cache entry for the next. */
  predicate StepLacks(s: S.State, i: nat, elems: seq<string>, k: nat)
    requires k < |elems|
  {
    var a, b := S.Walk(s.t, i, elems[..k]), S.Walk(s.t, i, elems[..k + 1]);
    a.Found? && b.Found? && a.i < |s.refs| && Lacks(S.Hold(s, a.i).refs, b.i)
  }

  /** A walk for a path, or for its parent directory, needs a cache entry that is not there. */
  predicate WalkLacks(s: S.State, cwd: nat, path: string, parent: bool) {
    var elems := P.Elements(path);
    || (path != "" && path[0] == '/' && Lacks(s.refs, L.ROOT))
    || exists k :: 0 <= k < |elems| - (if parent then 1 else 0) && StepLacks(s, S.Start(cwd, path), elems, k)
  }

  /** With two entries to spare every walk finds its entries. */
  lemma TwoEntriesDo(s: S.State, cwd: nat, path: string, parent: bool)
    requires |InUse(s.refs)| + 2 <= NINODE
    ensures !WalkLacks(s, cwd, path, parent)
  {
    hide InUse, S.Hold, S.Walk, P.Elements;
    forall i | 0 <= i < |s.refs|
      ensures |InUse(S.Hold(s, i).refs)| < NINODE
    {
      HoldUses(s, i);
    }
  }

  lemma HoldUses(s: S.State, i: nat)
    requires i < |s.refs|
    ensures |InUse(S.Hold(s, i).refs)| <= |InUse(s.refs)| + 1
  {
    assert InUse(S.Hold(s, i).refs) == InUse(s.refs) + {i};
  }

  function Target(t: L.Tree, cwd: nat, path: string, parent: bool): S.Walked {
    if parent then S.ResolveParent(t, cwd, path) else S.Resolve(t, cwd, path)
  }

  /** The inode that a walk starts from, held; None when there is no cache entry for the root. */
  method StartFrom(fs: Fs, cwd: nat, path: string, ghost s: S.State) returns (slot: Option<nat>)
    requires Stands(fs, s) && C.Walkable(s) && Quiet(fs.icache) && Live(fs.icache, cwd)
    modifies fs`icache
    ensures slot == None <==> path != "" && path[0] == '/' && Lacks(s.refs, L.ROOT)
    ensures slot.Some? ==>
              var i := S.Start(old(fs.icache[cwd].inum), path);
              && Ended(fs, s, S.Found(i), At(slot.value)) && Kept(old(fs.icache), fs.icache, s.refs)
              && (s.t.nodes[i].nlink == 0 ==> s.refs[i] > 0)
  {
    hide Stands, Lacks;
    if path != "" && path[0] == '/' {
      slot := GetI(fs, L.ROOT, s);
    } else {
      IsHeld(fs, cwd, s);
      DupI(fs, cwd, s);
      slot := Some(cwd);
    }
  }

  lemma IsHeld(fs: Fs, q: nat, s: S.State)
    requires Stands(fs, s) && Live(fs.icache, q)
    ensures fs.icache[q].inum < |s.refs| && s.refs[fs.icache[q].inum] == fs.icache[q].refs
  {
    hide Calm;
  }

  /** The parent of a path without elements is nowhere. */
  method DropStart(fs: Fs, q: nat, ghost s: S.State)
    requires C.Walkable(s) && Live(fs.icache, q) && Ended(fs, s, S.Found(fs.icache[q].inum), At(q))
    requires var i := fs.icache[q].inum; s.t.nodes[i].nlink == 0 ==> s.refs[i] > 0
    modifies fs, fs.disk
    ensures Ended(fs, s, S.Missing, Nowhere) && fs.V() == old(fs.V()) && Kept(old(fs.icache), fs.icache, s.refs)
  {
    hide Stands, S.Hold, S.Put;
    ghost var i, c := fs.icache[q].inum, fs.icache;
    C.HoldSame(s, i);
    C.HoldPut(s, i);
    PutI(fs, q, S.Hold(s, i));
    DroppedKept(c, fs.icache, q, s.refs);
  }

  /** namex: it ends as the tree says, or panics for want of a cache entry exactly when the walk needs one. */
  method NameX(fs: Fs, cwd: nat, path: string, parent: bool, ghost s: S.State) returns (r: Reached, name: string)
    requires Stands(fs, s) && C.Walkable(s) && Quiet(fs.icache) && Live(fs.icache, cwd) && CString(path)
    modifies fs, fs.disk
    ensures var d := old(fs.icache[cwd].inum);
            && (r == CacheFull <==> WalkLacks(s, d, path, parent))
            && (r != CacheFull ==> Ended(fs, s, Target(s.t, d, path, parent), r))
    ensures r.At? || r.Nowhere? ==> fs.V() == old(fs.V()) && Kept(old(fs.icache), fs.icache, s.refs)
    ensures parent && r.At? ==> name == S.LastName(path)
  {
    hide Stands, S.Walk, S.WalkParent, P.Elements, S.Hold, S.Put, C.Goal, StepLacks, Lacks, StepGoal, Kept, C.Walkable,
         Quiet;
    ghost var elems := P.Elements(path);
    ghost var start := S.Start(fs.icache[cwd].inum, path);
    C.GoalIs(s.t, fs.icache[cwd].inum, path, parent);
    name := "";
    var slot := StartFrom(fs, cwd, path, s);
    if slot == None {
      return CacheFull, name;
    }
    var ip := slot.value;
    var rest := path;
    var next := P.SkipElem(rest);
    ghost var k := 0;
    WalkStart(s.t, start, elems, parent);
    while next.Some?
      invariant 0 <= k <= |elems| && P.Elements(rest) == elems[k..] && C.Skipped(rest, next)
      invariant Live(fs.icache, ip) && Ended(fs, s, S.Found(fs.icache[ip].inum), At(ip))
      invariant S.Walk(s.t, start, elems[..k]) == S.Found(fs.icache[ip].inum)
      invariant C.Goal(s.t, fs.icache[ip].inum, elems[k..], parent) == C.Goal(s.t, start, elems, parent)
      invariant forall j :: 0 <= j < k ==> !StepLacks(s, start, elems, j)
      invariant parent && k > 0 ==> k < |elems|
      invariant fs.V() == old(fs.V()) && Kept(old(fs.icache), fs.icache, s.refs)
      decreases |rest|
    {
      ghost var a := fs.icache[ip].inum;
      rest, name := next.value.0, next.value.1;
      assert elems[k..][0] == name && elems[k..][1..] == elems[k + 1..];
      ElementIsC(path, k);
      Round(s, start, elems, k, a, parent);
      var stop := parent && rest == "";
      ghost var c := fs.icache;
      r := StepInto(fs, ip, name, stop, s);
      KeptOn(old(fs.icache), c, fs.icache, s.refs);
      if !r.At? || stop {
        return;
      }
      ip := r.slot;
      k := k + 1;
      next := P.SkipElem(rest);
    }
    assert k == |elems|;
    C.GoalEmpty(s.t, fs.icache[ip].inum);
    if parent {
      ghost var c := fs.icache;
      DropStart(fs, ip, s);
      KeptOn(old(fs.icache), c, fs.icache, s.refs);
      return Nowhere, name;
    }
    r := At(ip);
  }

  lemma WalkStart(t: L.Tree, i: nat, elems: seq<string>, parent: bool)
    ensures S.Walk(t, i, elems[..0]) == S.Found(i) && elems[0..] == elems
  {
  }

  /** What one round says about the whole walk. */
  lemma Round(s: S.State, start: nat, elems: seq<string>, k: nat, a: nat, parent: bool)
    requires k < |elems| && S.Walk(s.t, start, elems[..k]) == S.Found(a) && a < |s.refs|
    ensures var stop := parent && k + 1 == |elems|;
            var w := StepGoal(s.t, a, elems[k], stop);
            && (w.Found? && !stop ==>
                  && S.Walk(s.t, start, elems[..k + 1]) == w
                  && C.Goal(s.t, a, elems[k..], parent) == C.Goal(s.t, w.i, elems[k + 1..], parent)
                  && (StepLacks(s, start, elems, k) <==> Lacks(S.Hold(s, a).refs, w.i)))
            && (!w.Found? || stop ==>
                  && C.Goal(s.t, a, elems[k..], parent) == w
                  && forall j :: k <= j < |elems| && !stop ==> !StepLacks(s, start, elems, j))
  {
    hide S.Walk, C.Goal, Lacks;
    var rest := elems[k..];
    assert rest[0] == elems[k] && rest[1..] == elems[k + 1..];
    C.GoalStep(s.t, a, rest, parent);
    WalkNext(s.t, start, elems, k);
    if !StepGoal(s.t, a, elems[k], false).Found? {
      forall j | k <= j < |elems|
        ensures !StepLacks(s, start, elems, j)
      {
        StopsThere(s.t, start, elems, k + 1, j + 1);
      }
    }
  }
}

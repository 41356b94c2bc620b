/**
 The system calls that make and remove names (sysfile.c), over path names (fs.c).

 Calls run one after another. `refs` counts the references that processes hold on an
 inode, through open files and current directories; an inode that no entry names lives
 until the last of them is dropped.
 */
module Sysfile {
  import opened Common
  import opened Links
  import opened Paths

  datatype State = State(t: Tree, refs: seq<nat>)

  predicate HeldOk(s: State, i: nat)
    requires i < |s.t.nodes| && i < |s.refs|
  {
    && (s.refs[i] > 0 ==> s.t.nodes[i].kind != 0)
    && (s.t.nodes[i].kind != 0 && s.t.nodes[i].nlink == 0 ==> s.refs[i] > 0)
  }

  ghost predicate Valid(s: State) {
    && Sound(s.t) && |s.refs| == |s.t.nodes|
    && forall i :: 0 <= i < |s.refs| ==> HeldOk(s, i)
  }

  // ---- walking a path ----

  /** Dead: the walk locks an inode that is free, which panics. */
  datatype Walked = Found(i: nat) | Missing | Dead

  predicate IsFree(t: Tree, i: nat) {
    i >= |t.nodes| || t.nodes[i].kind == 0
  }

  function Walk(t: Tree, i: nat, elems: seq<string>): Walked
    decreases |elems|
  {
    if elems == [] then Found(i)
    else if IsFree(t, i) then Dead
    else if !IsDir(t, i) || (i, elems[0]) !in t.ents then Missing
    else Walk(t, t.ents[(i, elems[0])], elems[1..])
  }

  /** The directory that the last element of a path is looked up in. */
  function WalkParent(t: Tree, i: nat, elems: seq<string>): Walked {
    if elems == [] then Missing
    else
      match Walk(t, i, elems[..|elems| - 1])
      case Found(d) => if IsFree(t, d) then Dead else if IsDir(t, d) then Found(d) else Missing
      case Missing => Missing
      case Dead => Dead
  }

  function Start(cwd: nat, path: string): nat {
    if path != "" && path[0] == '/' then ROOT else cwd
  }

  function Resolve(t: Tree, cwd: nat, path: string): Walked {
    Walk(t, Start(cwd, path), Elements(path))
  }

  function ResolveParent(t: Tree, cwd: nat, path: string): Walked {
    WalkParent(t, Start(cwd, path), Elements(path))
  }

  function LastName(path: string): string {
    if Elements(path) == [] then "" else Elements(path)[|Elements(path)| - 1]
  }

  /** From a directory that is still linked, every path leads to linked inodes only: no panic. */
  lemma {:induction false} WalkStaysLinked(t: Tree, i: nat, elems: seq<string>)
    requires Sound(t) && Linked(t, i)
    ensures var r := Walk(t, i, elems); r != Dead && (r.Found? ==> Linked(t, r.i) && !IsFree(t, r.i))
    decreases |elems|
  {
    LinkedLives(t, i);
    if elems != [] && IsDir(t, i) && (i, elems[0]) in t.ents {
      var e := (i, elems[0]);
      StepLinked(t, e);
      WalkStaysLinked(t, t.ents[e], elems[1..]);
    }
  }

  lemma LinkedLives(t: Tree, i: nat)
    requires Sound(t) && Linked(t, i)
    ensures !IsFree(t, i)
  {
    if t.nodes[i].kind == 0 {
      FreeUnnamed(t, i);
    }
  }

  lemma StepLinked(t: Tree, e: (nat, string))
    requires Sound(t) && e in t.ents && Linked(t, e.0)
    ensures Linked(t, t.ents[e])
  {
    assert EntOk(t, e) && DirOk(t, e.0);
    if e.1 != "." {
      assert CountOk(t, t.ents[e]);
      SubsetSize({e}, Naming(t, t.ents[e]));
    }
  }

  // ---- the calls, as functions of the state ----

  datatype Result = Done(inum: nat) | Failed | Panicked

  datatype Outcome = Outcome(s: State, r: Result)

  /** Dropping a reference: the last one frees an inode that has no name. */
  function Put(s: State, i: nat): State
    requires i < |s.refs| && i < |s.t.nodes| && s.refs[i] > 0
  {
    var t := if s.refs[i] == 1 && s.t.nodes[i].nlink == 0 then Free(s.t, i) else s.t;
    State(t, s.refs[i := s.refs[i] - 1])
  }

  function Hold(s: State, i: nat): State
    requires i < |s.refs|
  {
    s.(refs := s.refs[i := s.refs[i] + 1])
  }

  /** Another name for an existing file; `room` tells whether the directory can take one more entry, else a panic. */
  function Link(s: State, cwd: nat, old_: string, new_: string, room: bool): Outcome {
    match Resolve(s.t, cwd, old_)
    case Dead => Outcome(s, Panicked)
    case Missing => Outcome(s, Failed)
    case Found(i) =>
      if IsFree(s.t, i) then Outcome(s, Panicked)
      else if IsDir(s.t, i) then Outcome(s, Failed)
      else
        match ResolveParent(s.t, cwd, new_)
        case Dead => Outcome(s, Panicked)
        case Missing => Outcome(s, Failed)
        case Found(dp) =>
          if (dp, LastName(new_)) in s.t.ents then Outcome(s, Failed)
          else if !room then Outcome(s, Panicked)
          else Outcome(s.(t := AddLink(s.t, dp, LastName(new_), i)), Done(i))
  }

  /** The tree once a name is gone. */
  function Removed(t: Tree, dp: nat, name: string, i: nat): Tree
    requires i < |t.nodes| && dp < |t.nodes|
  {
    if IsDir(t, i) then RemoveDir(t, dp, name, i) else RemoveFile(t, dp, name, i)
  }

  function Unlink(s: State, cwd: nat, path: string): Outcome
    requires |s.refs| == |s.t.nodes|
  {
    match ResolveParent(s.t, cwd, path)
    case Dead => Outcome(s, Panicked)
    case Missing => Outcome(s, Failed)
    case Found(dp) =>
      var name := LastName(path);
      if IsDot(name) || (dp, name) !in s.t.ents then Outcome(s, Failed)
      else
        var i := s.t.ents[(dp, name)];
        if IsFree(s.t, i) || s.t.nodes[i].nlink < 1 then Outcome(s, Panicked)
        else if IsDir(s.t, i) && !Empty(s.t, i) then Outcome(s, Failed)
        else Outcome(Put(Hold(s.(t := Removed(s.t, dp, name, i)), i), i), Done(i))
  }

  /** The lowest free inode from `i` on. */
  function FirstFree(t: Tree, i: nat): (r: Option<nat>)
    ensures r.Some? ==> i <= r.value < |t.nodes| && IsFree(t, r.value) && forall j :: i <= j < r.value ==> !IsFree(t, j)
    ensures r.None? ==> forall j :: i <= j < |t.nodes| ==> !IsFree(t, j)
    decreases |t.nodes| - i
  {
    if i >= |t.nodes| then None
    else if t.nodes[i].kind == 0 then Some(i)
    else FirstFree(t, i + 1)
  }

  /** A new inode of a kind under a new name, or the file that has that name; `room` tells whether the directories
      can take the new entries, else a panic. */
  function Create(s: State, cwd: nat, path: string, kind: int, room: bool): Outcome
    requires |s.refs| == |s.t.nodes|
  {
    match ResolveParent(s.t, cwd, path)
    case Dead => Outcome(s, Panicked)
    case Missing => Outcome(s, Failed)
    case Found(dp) =>
      var name := LastName(path);
      if (dp, name) in s.t.ents then
        var i := s.t.ents[(dp, name)];
        if IsFree(s.t, i) then Outcome(s, Panicked)
        else if kind == T_FILE && s.t.nodes[i].kind == T_FILE then Outcome(Hold(s, i), Done(i))
        else Outcome(s, Failed)
      else
        match FirstFree(s.t, 1)
        case None => Outcome(s, Panicked)
        case Some(i) =>
          if !room then Outcome(s, Panicked) else
          var t := if kind == T_DIR then AddDir(s.t, dp, name, i) else AddFile(s.t, dp, name, i, kind);
          Outcome(Hold(s.(t := t), i), Done(i))
  }

  /** A reference to what a path leads to. */
  function Open(s: State, cwd: nat, path: string): Outcome
    requires |s.refs| == |s.t.nodes|
  {
    match Resolve(s.t, cwd, path)
    case Dead => Outcome(s, Panicked)
    case Missing => Outcome(s, Failed)
    case Found(i) => if IsFree(s.t, i) then Outcome(s, Panicked) else Outcome(Hold(s, i), Done(i))
  }

  // ---- what each call keeps ----

  lemma HoldValid(s: State, i: nat)
    requires Valid(s) && i < |s.refs| && !IsFree(s.t, i)
    ensures Valid(Hold(s, i))
  {
    var h := Hold(s, i);
    forall j | 0 <= j < |h.refs|
      ensures HeldOk(h, j)
    {
      assert HeldOk(s, j);
    }
  }

  lemma PutValid(s: State, i: nat)
    requires Sound(s.t) && |s.refs| == |s.t.nodes| && i < |s.refs| && s.refs[i] > 0 && !IsFree(s.t, i)
    requires forall j :: 0 <= j < |s.refs| && j != i ==> HeldOk(s, j)
    ensures Valid(Put(s, i))
  {
    var u := Put(s, i);
    if s.refs[i] == 1 && s.t.nodes[i].nlink == 0 {
      FreeSound(s.t, i);
    }
    assert CountOk(s.t, i);
    forall j | 0 <= j < |u.refs|
      ensures HeldOk(u, j)
    {
      assert j != i ==> HeldOk(s, j);
    }
  }

  /** Where the name of a call would go is a directory that is still linked. */
  predicate IntoLinked(t: Tree, cwd: nat, path: string) {
    match ResolveParent(t, cwd, path)
    case Found(dp) => Linked(t, dp)
    case _ => true
  }

  predicate RoomForLink(t: Tree, cwd: nat, path: string) {
    match Resolve(t, cwd, path)
    case Found(i) => i < |t.nodes| && t.nodes[i].nlink < 32767
    case _ => true
  }

  predicate RoomForDir(t: Tree, cwd: nat, path: string) {
    match ResolveParent(t, cwd, path)
    case Found(dp) => dp < |t.nodes| && t.nodes[dp].nlink < 32767
    case _ => true
  }

  /** sys_link gets as far as adding an entry: a live file that is no directory, and a directory without the name. */
  predicate LinkAdds(t: Tree, cwd: nat, old_: string, new_: string) {
    var from, to := Resolve(t, cwd, old_), ResolveParent(t, cwd, new_);
    && from.Found? && !IsFree(t, from.i) && !IsDir(t, from.i)
    && to.Found? && (to.i, LastName(new_)) !in t.ents
  }

  /** create gets as far as adding an entry: a directory without the name, and a free inode. */
  predicate CreateAdds(t: Tree, cwd: nat, path: string) {
    var to := ResolveParent(t, cwd, path);
    to.Found? && (to.i, LastName(path)) !in t.ents && FirstFree(t, 1).Some?
  }

  /** sys_link succeeds exactly when it can add the entry, and then keeps the counts exactly when that is safe. */
  lemma LinkKeeps(s: State, cwd: nat, old_: string, new_: string, room: bool)
    requires Valid(s)
    ensures var o := Link(s, cwd, old_, new_, room);
            && (o.r.Done? <==> room && LinkAdds(s.t, cwd, old_, new_))
            && (!o.r.Done? ==> o.s == s)
            && (o.r.Done? ==>
                  && (Counts(o.s.t) <==> IntoLinked(s.t, cwd, new_) && RoomForLink(s.t, cwd, old_))
                  && (Counts(o.s.t) ==> Valid(o.s)))
  {
    hide Counts, Shaped, WalkParent, Walk;
    var o := Link(s, cwd, old_, new_, room);
    if o.r.Done? {
      var i, dp, name := Resolve(s.t, cwd, old_).i, ResolveParent(s.t, cwd, new_).i, LastName(new_);
      ParentIsDir(s.t, cwd, new_);
      LinkCounts(s.t, dp, name, i);
      NotNegative(s.t, i);
      if Counts(o.s.t) {
        LinkShaped(s.t, dp, name, i);
        forall j | 0 <= j < |o.s.refs|
          ensures HeldOk(o.s, j)
        {
          assert HeldOk(s, j);
        }
      }
    }
  }

  lemma NotNegative(t: Tree, i: nat)
    requires Counts(t) && i < |t.nodes|
    ensures t.nodes[i].nlink >= 0
  {
    assert CountOk(t, i);
  }

  lemma ParentIsDir(t: Tree, cwd: nat, path: string)
    ensures var r := ResolveParent(t, cwd, path);
            r.Found? ==> IsDir(t, r.i) && Elements(path) != []
  {
  }

  /** create makes an inode exactly when it can, and then keeps the counts exactly when that is safe. */
  lemma CreateKeeps(s: State, cwd: nat, path: string, kind: int, room: bool)
    requires Valid(s) && (kind == T_DIR || kind == T_FILE || kind == T_DEV)
    ensures var o := Create(s, cwd, path, kind, room);
            if room && CreateAdds(s.t, cwd, path) then
              && o.r.Done?
              && (Counts(o.s.t) <==>
                    IntoLinked(s.t, cwd, path) && (kind == T_DIR ==> RoomForDir(s.t, cwd, path)))
              && (Counts(o.s.t) ==> Valid(o.s))
            else
              o.s.t == s.t && Valid(o.s) && (!o.r.Done? ==> o.s == s)
  {
    hide Counts, Shaped, WalkParent, Walk, FirstFree;
    var o := Create(s, cwd, path, kind, room);
    if o.r.Done? {
      var dp, name, i := ResolveParent(s.t, cwd, path).i, LastName(path), o.r.inum;
      ParentIsDir(s.t, cwd, path);
      if (dp, name) in s.t.ents {
        HoldValid(s, i);
      } else if kind == T_DIR {
        DirCounts(s.t, dp, name, i);
        if Counts(o.s.t) {
          DirShaped(s.t, dp, name, i);
          CreatedHeld(s, o.s, i);
        }
      } else {
        FileCounts(s.t, dp, name, i, kind);
        if Counts(o.s.t) {
          FileShaped(s.t, dp, name, i, kind);
          CreatedHeld(s, o.s, i);
        }
      }
    }
  }

  lemma CreatedHeld(s: State, u: State, i: nat)
    requires |s.refs| == |s.t.nodes| == |u.t.nodes| && i < |s.refs| && u.refs == s.refs[i := s.refs[i] + 1]
    requires u.t.nodes[i].kind != 0
    requires forall j :: 0 <= j < |s.refs| ==> HeldOk(s, j)
    requires forall j :: 0 <= j < |s.refs| && j != i ==>
                           && u.t.nodes[j].kind == s.t.nodes[j].kind
                           && (u.t.nodes[j].nlink == 0 ==> s.t.nodes[j].nlink == 0)
    ensures forall j :: 0 <= j < |u.refs| ==> HeldOk(u, j)
  {
    forall j | 0 <= j < |u.refs|
      ensures HeldOk(u, j)
    {
      assert HeldOk(s, j);
    }
  }

  /** Removing a name keeps every count right, always, and never meets the panics of its own. */
  lemma UnlinkKeeps(s: State, cwd: nat, path: string)
    requires Valid(s)
    ensures var o := Unlink(s, cwd, path);
            && Valid(o.s) && (!o.r.Done? ==> o.s == s)
            && (o.r.Panicked? ==> ResolveParent(s.t, cwd, path) == Dead)
  {
    hide Counts, Shaped, WalkParent, Walk, Empty;
    var o := Unlink(s, cwd, path);
    var p := ResolveParent(s.t, cwd, path);
    if p.Found? && !IsDot(LastName(path)) && (p.i, LastName(path)) in s.t.ents {
      var dp, name := p.i, LastName(path);
      var i := s.t.ents[(dp, name)];
      RemovableCounts(s.t, dp, name, i);
      if o.r.Done? {
        var u := s.(t := Removed(s.t, dp, name, i));
        RemovedSound(s.t, dp, name, i);
        forall j | 0 <= j < |s.refs| && j != i
          ensures HeldOk(Hold(u, i), j)
        {
          assert HeldOk(s, j);
        }
        PutValid(Hold(u, i), i);
      }
    }
  }

  lemma RemovedSound(t: Tree, dp: nat, name: string, i: nat)
    requires Sound(t) && Removable(t, dp, name, i) && i < |t.nodes| && (IsDir(t, i) ==> Empty(t, i))
    ensures dp < |t.nodes| && Sound(Removed(t, dp, name, i))
    ensures forall j :: 0 <= j < |t.nodes| && j != i && Linked(t, j) ==> Linked(Removed(t, dp, name, i), j)
  {
    hide Counts, Shaped, Empty;
    RemovableCounts(t, dp, name, i);
    if IsDir(t, i) {
      RemoveDirCounts(t, dp, name, i);
      RemoveDirShaped(t, dp, name, i);
      RemoveDirNaming(t, dp, name, i, i);
    } else {
      RemoveFileSound(t, dp, name, i);
    }
  }

  // ---- what each call does ----

  /** All but one entry of a sequence stand. */
  ghost predicate AllBut<T>(a: seq<T>, b: seq<T>, i: nat) {
    |a| == |b| && forall j :: 0 <= j < |a| && j != i ==> b[j] == a[j]
  }

  /** All inodes but two stand. */
  ghost predicate NodesBut(t: Tree, u: Tree, i: nat, d: nat) {
    |t.nodes| == |u.nodes| && forall j :: 0 <= j < |t.nodes| && j != i && j != d ==> u.nodes[j] == t.nodes[j]
  }

  /** iput: a reference less; the last one to an inode without links ends it, and with it what it has as a directory. */
  lemma PutDoes(s: State, i: nat)
    requires i < |s.refs| == |s.t.nodes| && s.refs[i] > 0
    ensures var u := Put(s, i);
            && AllBut(s.refs, u.refs, i) && u.refs[i] == s.refs[i] - 1 && NodesBut(s.t, u.t, i, i)
            && if s.refs[i] == 1 && s.t.nodes[i].nlink == 0
               then && u.t.nodes[i] == Node(0, 0)
                    && (forall e :: e in u.t.ents <==> e in s.t.ents && e.0 != i)
                    && (forall e :: e in u.t.ents ==> u.t.ents[e] == s.t.ents[e])
               else u.t == s.t
  {
  }

  /** sys_link: the new entry and the raised count, and nothing else; when it panics. */
  lemma LinkDoes(s: State, cwd: nat, old_: string, new_: string, room: bool)
    requires Valid(s)
    ensures var o := Link(s, cwd, old_, new_, room);
            var from, to := Resolve(s.t, cwd, old_), ResolveParent(s.t, cwd, new_);
            && (o.r.Panicked? <==>
                  || from.Dead? || (from.Found? && IsFree(s.t, from.i))
                  || (&& from.Found? && !IsDir(s.t, from.i)
                      && (to.Dead? || (to.Found? && (to.i, LastName(new_)) !in s.t.ents && !room))))
            && (o.r.Done? ==>
                  && from == Found(o.r.inum) && to.Found? && o.s.refs == s.refs
                  && o.s.t.ents == s.t.ents[(to.i, LastName(new_)) := from.i]
                  && AllBut(s.t.nodes, o.s.t.nodes, from.i) && from.i < |s.t.nodes|
                  && o.s.t.nodes[from.i].kind == s.t.nodes[from.i].kind
                  && o.s.t.nodes[from.i].nlink == if s.t.nodes[from.i].nlink == 32767 then -32768
                                                  else s.t.nodes[from.i].nlink + 1)
  {
    hide Walk, WalkParent, Elements, Counts, Shaped;
    var o := Link(s, cwd, old_, new_, room);
    if o.r.Done? {
      NotNegative(s.t, o.r.inum);
    }
  }

  /** What sys_unlink removes: a name other than the dots that is there and leads to a file or an empty directory. */
  predicate UnlinkRemoves(t: Tree, cwd: nat, path: string) {
    var p := ResolveParent(t, cwd, path);
    && p.Found? && !IsDot(LastName(path)) && (p.i, LastName(path)) in t.ents
    && var i := t.ents[(p.i, LastName(path))]; (IsDir(t, i) ==> Empty(t, i))
  }

  /** The tree once the entry `e` is gone and, if `freed`, what it led to. */
  ghost predicate EntryGone(t: Tree, u: Tree, e: (nat, string), freed: bool)
    requires e in t.ents
  {
    && (forall f :: f in u.ents <==> f in t.ents && f != e && !(freed && f.0 == t.ents[e]))
    && (forall f :: f in u.ents ==> u.ents[f] == t.ents[f])
  }

  /** sys_unlink succeeds exactly on such a name. Then that entry is gone and its link with it, with the link of the
      directory for the ".." of a removed one; the inode ends exactly when it has no other name and nobody holds it.
      All other entries and inodes stand. */
  lemma UnlinkDoes(s: State, cwd: nat, path: string)
    requires Valid(s)
    ensures var o := Unlink(s, cwd, path);
            var to := ResolveParent(s.t, cwd, path);
            && (o.r.Done? <==> UnlinkRemoves(s.t, cwd, path)) && (o.r.Panicked? <==> to.Dead?)
            && (o.r.Done? ==>
                  var e := (to.i, LastName(path));
                  var i, d := s.t.ents[e], to.i;
                  && o.r.inum == i && o.s.refs == s.refs && i < |s.refs| == |s.t.nodes| && d < |s.t.nodes| && i != d
                  && var freed := s.refs[i] == 0 && s.t.nodes[i].nlink == 1;
                     && EntryGone(s.t, o.s.t, e, freed) && NodesBut(s.t, o.s.t, i, d)
                     && (o.s.t.nodes[i] == if freed then Node(0, 0)
                                           else s.t.nodes[i].(nlink := s.t.nodes[i].nlink - 1))
                     && (o.s.t.nodes[d] == if IsDir(s.t, i) then s.t.nodes[d].(nlink := s.t.nodes[d].nlink - 1)
                                           else s.t.nodes[d]))
  {
    hide Counts, Shaped, WalkParent, Walk, Empty, Elements;
    UnlinkKeeps(s, cwd, path);
    ParentIsDir(s.t, cwd, path);
    var o := Unlink(s, cwd, path);
    var p := ResolveParent(s.t, cwd, path);
    if p.Found? && !IsDot(LastName(path)) && (p.i, LastName(path)) in s.t.ents {
      var d, name := p.i, LastName(path);
      var i := s.t.ents[(d, name)];
      RemovableCounts(s.t, d, name, i);
      NotItself(s.t, d, name, i);
      if o.r.Done? {
        RemovedIs(s, d, name, i);
      }
    }
  }

  lemma RemovedIs(s: State, d: nat, name: string, i: nat)
    requires Valid(s) && Removable(s.t, d, name, i) && i < |s.t.nodes| && d < |s.t.nodes| && i != d
    requires s.t.nodes[i].nlink >= 1 && s.t.nodes[d].nlink >= 1
    ensures var u := Put(Hold(s.(t := Removed(s.t, d, name, i)), i), i);
            var freed := s.refs[i] == 0 && s.t.nodes[i].nlink == 1;
            && u.refs == s.refs && EntryGone(s.t, u.t, (d, name), freed) && NodesBut(s.t, u.t, i, d)
            && (u.t.nodes[i] == if freed then Node(0, 0) else s.t.nodes[i].(nlink := s.t.nodes[i].nlink - 1))
            && (u.t.nodes[d] == if IsDir(s.t, i) then s.t.nodes[d].(nlink := s.t.nodes[d].nlink - 1)
                                else s.t.nodes[d])
  {
    hide Counts, Shaped;
    var h := Hold(s.(t := Removed(s.t, d, name, i)), i);
    assert h.refs[i := s.refs[i]] == s.refs;
    PutDoes(h, i);
  }

  /** create: on a name that is there, another reference if a file is wanted and found; on one that is not, the lowest
      free inode with one link under that name, and for a directory the dots and a link more on its parent. */
  lemma CreateDoes(s: State, cwd: nat, path: string, kind: int, room: bool)
    requires Valid(s) && (kind == T_DIR || kind == T_FILE || kind == T_DEV)
    ensures var o := Create(s, cwd, path, kind, room);
            var to, free := ResolveParent(s.t, cwd, path), FirstFree(s.t, 1);
            if !to.Found? then o == Outcome(s, if to.Dead? then Panicked else Failed)
            else if (to.i, LastName(path)) in s.t.ents then
              var i := s.t.ents[(to.i, LastName(path))];
              && (o.r.Panicked? <==> IsFree(s.t, i)) && o.s.t == s.t && i < |s.refs|
              && (o.r.Done? <==> kind == T_FILE && s.t.nodes[i].kind == T_FILE)
              && (o.r.Done? ==> o.r.inum == i && AllBut(s.refs, o.s.refs, i) && o.s.refs[i] == s.refs[i] + 1)
            else
              && (o.r == if free.Some? && room then Done(free.value) else Panicked)
              && (o.r.Done? ==>
                    var d, i := to.i, free.value;
                    && AllBut(s.refs, o.s.refs, i) && o.s.refs[i] == s.refs[i] + 1
                    && NodesBut(s.t, o.s.t, i, d) && d < |s.t.nodes| && d != i && o.s.t.nodes[i] == Node(kind, 1)
                    && o.s.t.nodes[d].kind == s.t.nodes[d].kind
                    && (o.s.t.nodes[d].nlink == if kind != T_DIR then s.t.nodes[d].nlink
                                                else if s.t.nodes[d].nlink == 32767 then -32768
                                                else s.t.nodes[d].nlink + 1)
                    && (o.s.t.ents == if kind == T_DIR
                                      then s.t.ents[(i, ".") := i][(i, "..") := d][(d, LastName(path)) := i]
                                      else s.t.ents[(d, LastName(path)) := i]))
  {
    hide Walk, WalkParent, Elements, Counts, Shaped;
    ParentIsDir(s.t, cwd, path);
    var to := ResolveParent(s.t, cwd, path);
    if to.Found? {
      NotNegative(s.t, to.i);
      if (to.i, LastName(path)) in s.t.ents {
        EntInside(s.t, (to.i, LastName(path)));
      }
    }
  }

  lemma EntInside(t: Tree, e: (nat, string))
    requires Shaped(t) && e in t.ents
    ensures t.ents[e] < |t.nodes|
  {
    assert EntOk(t, e);
  }

  /** Opening succeeds exactly on a path that leads to an inode in use, and takes a reference to it. */
  lemma OpenDoes(s: State, cwd: nat, path: string)
    requires Valid(s)
    ensures var o := Open(s, cwd, path);
            var to := Resolve(s.t, cwd, path);
            && (o.r.Done? <==> to.Found? && !IsFree(s.t, to.i))
            && (o.r.Panicked? <==> to.Dead? || (to.Found? && IsFree(s.t, to.i)))
            && o.s.t == s.t && (!o.r.Done? ==> o.s == s)
            && (o.r.Done? ==>
                  o.r.inum == to.i && to.i < |s.refs| && AllBut(s.refs, o.s.refs, to.i) &&
                  o.s.refs[to.i] == s.refs[to.i] + 1)
  {
    hide Walk, Elements, Counts, Shaped;
  }

  // ---- every run ----

  datatype Call =
    | DoLink(cwd: nat, old_: string, new_: string, room: bool)
    | DoUnlink(cwd: nat, path: string)
    | DoCreate(cwd: nat, path: string, kind: int, room: bool)
    | DoOpen(cwd: nat, path: string)
    | DoPut(i: nat)

  /** A call that can be made: processes drop only what they hold. */
  predicate Possible(s: State, c: Call) {
    && |s.refs| == |s.t.nodes|
    && match c
       case DoCreate(_, _, kind, _) => kind == T_DIR || kind == T_FILE || kind == T_DEV
       case DoPut(i) => i < |s.refs| && s.refs[i] > 0
       case _ => true
  }

  function Apply(s: State, c: Call): Outcome
    requires Possible(s, c)
  {
    match c
    case DoLink(cwd, old_, new_, room) => Link(s, cwd, old_, new_, room)
    case DoUnlink(cwd, path) => Unlink(s, cwd, path)
    case DoCreate(cwd, path, kind, room) => Create(s, cwd, path, kind, room)
    case DoOpen(cwd, path) => Open(s, cwd, path)
    case DoPut(i) => Outcome(Put(s, i), Done(i))
  }

  /** A call that, from what it finds before it starts, adds no entry under an unlinked directory and overflows no
      counter. */
  predicate Safe(t: Tree, c: Call) {
    match c
    case DoLink(cwd, old_, new_, room) =>
      room && LinkAdds(t, cwd, old_, new_) ==> IntoLinked(t, cwd, new_) && RoomForLink(t, cwd, old_)
    case DoCreate(cwd, path, kind, room) =>
      room && CreateAdds(t, cwd, path) ==>
        IntoLinked(t, cwd, path) && (kind == T_DIR ==> RoomForDir(t, cwd, path))
    case _ => true
  }

  /** One call keeps the link counts exactly when it is safe, and then keeps everything. */
  lemma CallKeeps(s: State, c: Call)
    requires Valid(s) && Possible(s, c)
    ensures Counts(Apply(s, c).s.t) <==> Safe(s.t, c)
    ensures Safe(s.t, c) ==> Valid(Apply(s, c).s)
  {
    hide Counts, Shaped, Walk, WalkParent, Link, Unlink, Create, LinkAdds, CreateAdds;
    match c
    case DoLink(cwd, old_, new_, room) => LinkKeeps(s, cwd, old_, new_, room);
    case DoUnlink(cwd, path) => UnlinkKeeps(s, cwd, path);
    case DoCreate(cwd, path, kind, room) => CreateKeeps(s, cwd, path, kind, room);
    case DoOpen(cwd, path) =>
      var r := Resolve(s.t, cwd, path);
      if r.Found? && !IsFree(s.t, r.i) {
        HoldValid(s, r.i);
      }
    case DoPut(i) =>
      assert HeldOk(s, i);
      PutValid(s, i);
  }

  /** The states a sequence of calls goes through; a panic leaves the state as it was. */
  ghost predicate IsRun(run: seq<State>, calls: seq<Call>) {
    && |run| == |calls| + 1
    && forall k :: 0 <= k < |calls| ==>
         Possible(run[k], calls[k]) && run[k + 1] == Apply(run[k], calls[k]).s
  }

  /**
   In every run of safe calls each link count is right at every point, and no counted
   entry names a free inode.
   */
  lemma {:induction false} RunKeeps(run: seq<State>, calls: seq<Call>, k: nat)
    requires IsRun(run, calls) && k < |run| && Valid(run[0])
    requires forall j :: 0 <= j < k ==> Safe(run[j].t, calls[j])
    ensures Valid(run[k])
    ensures forall e :: e in run[k].t.ents && Counted(run[k].t, e) ==> !IsFree(run[k].t, run[k].t.ents[e])
  {
    hide Counts, Safe, Apply;
    if k > 0 {
      RunKeeps(run, calls, k - 1);
      CallKeeps(run[k - 1], calls[k - 1]);
    }
    assert forall e :: e in run[k].t.ents ==> EntOk(run[k].t, e);
  }

  // ---- the start, and a run that is not safe ----

  /** A disk with nothing but the root directory. */
  function Blank(n: nat): State
    requires n > ROOT
  {
    State(Tree(seq(n, i => if i == ROOT then Node(T_DIR, 1) else Node(0, 0)),
               map[(ROOT, ".") := ROOT, (ROOT, "..") := ROOT]),
          seq(n, _ => 0))
  }

  lemma BlankValid(n: nat)
    requires n > ROOT
    ensures Valid(Blank(n))
  {
    var s := Blank(n);
    forall i | 0 <= i < n
      ensures CountOk(s.t, i)
    {
      assert Naming(s.t, i) == if i == ROOT then {(ROOT, "..")} else {};
    }
    assert forall i :: 0 <= i < n ==> HeldOk(s, i);
  }

  lemma OneElement(name: string)
    requires IsName(name)
    ensures Elements(name) == [name] && LastName(name) == name && name[0] != '/'
  {
    ElementsOfWritten([name], [0], 0);
    assert Written([name], [0], 0) == name;
  }

  /** A bare name is looked up in the current directory. */
  lemma BareName(t: Tree, cwd: nat, name: string)
    requires IsName(name) && IsDir(t, cwd)
    ensures ResolveParent(t, cwd, name) == Found(cwd) && LastName(name) == name
  {
    OneElement(name);
    assert Elements(name)[..0] == [];
  }

  const MADE: Tree :=
    Tree([Node(0, 0), Node(T_DIR, 2), Node(T_DIR, 1), Node(0, 0)],
         map[(1, ".") := 1, (1, "..") := 1, (2, ".") := 2, (2, "..") := 1, (1, "a") := 2])

  const REMOVED: Tree :=
    Tree([Node(0, 0), Node(T_DIR, 1), Node(T_DIR, 0), Node(0, 0)],
         map[(1, ".") := 1, (1, "..") := 1, (2, ".") := 2, (2, "..") := 1])

  /** A directory "a" is made in the root, and the process that made it stays in it. */
  lemma MakeDirectory()
    ensures Valid(State(MADE, [0, 0, 1, 0]))
    ensures Create(Blank(4), ROOT, "a", T_DIR, true) == Outcome(State(MADE, [0, 0, 1, 0]), Done(2))
  {
    hide Counts, Shaped, Walk, WalkParent, Elements, ResolveParent, LastName;
    var blank := Blank(4);
    BlankValid(4);
    BareName(blank.t, ROOT, "a");
    assert FirstFree(blank.t, 1) == FirstFree(blank.t, 2) == Some(2);
    CreateKeeps(blank, ROOT, "a", T_DIR, true);
    var t := AddDir(blank.t, ROOT, "a", 2);
    assert t.nodes == MADE.nodes && t.ents == MADE.ents;
  }

  lemma RemovedTree()
    ensures Holds(MADE, ROOT, "a", 2) && IsDir(MADE, 2) && MADE.nodes[2].nlink == 1 && Empty(MADE, 2)
    ensures RemoveDir(MADE, ROOT, "a", 2) == REMOVED
  {
    var t := RemoveDir(MADE, ROOT, "a", 2);
    assert t.nodes == REMOVED.nodes;
    assert t.ents == REMOVED.ents;
  }

  /** Another process removes it. */
  lemma RemoveDirectory()
    ensures Valid(State(REMOVED, [0, 0, 1, 0]))
    ensures Unlink(State(MADE, [0, 0, 1, 0]), ROOT, "a") == Outcome(State(REMOVED, [0, 0, 1, 0]), Done(2))
  {
    hide Counts, Shaped, Walk, WalkParent, Elements, ResolveParent, LastName, Empty, RemoveDir, Put, Hold, Valid;
    var s := State(MADE, [0, 0, 1, 0]);
    MakeDirectory();
    BareName(MADE, ROOT, "a");
    RemovedTree();
    HeldAlready();
    UnlinkKeeps(s, ROOT, "a");
  }

  lemma HeldAlready()
    ensures var u := State(REMOVED, [0, 0, 1, 0]); Put(Hold(u, 2), 2) == u
  {
  }

  /** The file that the first process then makes there has a count of 1 and no entry that counts. */
  lemma MadeInRemoved()
    ensures var o := Create(State(REMOVED, [0, 0, 1, 0]), 2, "x", T_FILE, true);
            && o.r == Done(3) && o.s.t.nodes[3].nlink == 1 && Naming(o.s.t, 3) == {}
            && !Counts(o.s.t)
  {
    hide Counts, Shaped, Walk, WalkParent, Elements, ResolveParent, LastName;
    var s := State(REMOVED, [0, 0, 1, 0]);
    RemoveDirectory();
    BareName(REMOVED, 2, "x");
    assert FirstFree(REMOVED, 1) == FirstFree(REMOVED, 2) == FirstFree(REMOVED, 3) == Some(3);
    CreateKeeps(s, 2, "x", T_FILE, true);
  }
}

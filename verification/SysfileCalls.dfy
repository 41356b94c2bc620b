/**
 The calls of sysfile.c and the path walk of fs.c as they run: references are taken and
 dropped on the way, and sys_link raises the link count before it knows whether it will
 succeed. Each call ends in the state that the function of the same name gives.

 A panic stops the machine; nothing is said of the state it leaves.
 */
module SysfileCalls {
  import opened Common
  import opened Links
  import opened Paths
  import opened Sysfile

  /** What the walk needs, also in the middle of a call, when a count may be off by one. */
  ghost predicate Walkable(s: State) {
    && |s.refs| == |s.t.nodes| && ROOT < |s.refs| && s.t.nodes[ROOT].nlink != 0
    && (forall e :: e in s.t.ents ==> s.t.ents[e] < |s.t.nodes|)
    && (forall i :: 0 <= i < |s.refs| ==> HeldOk(s, i))
  }

  lemma ValidWalkable(s: State)
    requires Valid(s)
    ensures Walkable(s)
  {
    assert forall e :: e in s.t.ents ==> EntOk(s.t, e);
  }

  lemma {:induction false} SameWalk(t: Tree, u: Tree, i: nat, elems: seq<string>)
    requires t.ents == u.ents && |t.nodes| == |u.nodes|
    requires forall j :: 0 <= j < |t.nodes| ==> t.nodes[j].kind == u.nodes[j].kind
    ensures Walk(t, i, elems) == Walk(u, i, elems)
    decreases |elems|
  {
    if elems != [] && IsDir(t, i) && (i, elems[0]) in t.ents {
      SameWalk(t, u, t.ents[(i, elems[0])], elems[1..]);
    }
  }

  /** What a walk comes to, for the whole path or for its parent directory. */
  function Goal(t: Tree, i: nat, elems: seq<string>, parent: bool): Walked {
    if parent then WalkParent(t, i, elems) else Walk(t, i, elems)
  }

  lemma GoalStep(t: Tree, i: nat, elems: seq<string>, parent: bool)
    requires elems != []
    ensures Goal(t, i, elems, parent) ==
            if IsFree(t, i) then Dead
            else if !IsDir(t, i) then Missing
            else if parent && |elems| == 1 then Found(i)
            else if (i, elems[0]) !in t.ents then Missing
            else Goal(t, t.ents[(i, elems[0])], elems[1..], parent)
  {
    if parent {
      var init := elems[..|elems| - 1];
      if |elems| > 1 {
        assert init[0] == elems[0] && init[1..] == elems[1..][..|elems| - 2];
      }
    }
  }

  /** `next` is what is peeled off the front of `rest`. */
  predicate Skipped(rest: string, next: Option<(string, string)>) {
    && (next == None <==> Elements(rest) == [])
    && (next.Some? ==>
          && Elements(rest) == [next.value.1] + Elements(next.value.0) && |next.value.0| < |rest|
          && (next.value.0 == "" <==> Elements(next.value.0) == []))
  }

  lemma GoalIs(t: Tree, cwd: nat, path: string, parent: bool)
    ensures Goal(t, Start(cwd, path), Elements(path), parent) ==
            if parent then ResolveParent(t, cwd, path) else Resolve(t, cwd, path)
    ensures LastOf(Elements(path)) == LastName(path)
  {
  }

  lemma GoalEmpty(t: Tree, i: nat)
    ensures Goal(t, i, [], false) == Found(i) && Goal(t, i, [], true) == Missing
  {
  }

  function LastOf(elems: seq<string>): string {
    if elems == [] then "" else elems[|elems| - 1]
  }

  lemma HoldSame(s: State, i: nat)
    requires i < |s.refs|
    ensures Hold(s, i).t == s.t && |Hold(s, i).refs| == |s.refs|
    ensures forall j :: 0 <= j < |s.refs| ==> Hold(s, i).refs[j] == s.refs[j] + if i == j then 1 else 0
  {
  }

  /** A reference taken on something the invariant covers can be dropped again without effect. */
  lemma HoldPut(s: State, i: nat)
    requires |s.refs| == |s.t.nodes| && i < |s.refs|
    requires s.t.nodes[i].nlink == 0 ==> s.refs[i] > 0
    ensures Put(Hold(s, i), i) == s
  {
    assert Hold(s, i).refs[i := s.refs[i]] == s.refs;
  }

  /** Going on to the next inode of a walk. */
  lemma HoldNext(s: State, i: nat, next: nat)
    requires |s.refs| == |s.t.nodes| && i < |s.refs| && next < |s.refs|
    requires s.t.nodes[i].nlink == 0 ==> s.refs[i] > 0
    ensures Put(Hold(Hold(s, i), next), i) == Hold(s, next)
  {
    assert Put(Hold(Hold(s, i), next), i).refs == Hold(s, next).refs;
  }

  class Names {
    var nodes: seq<Node>
    var ents: map<(nat, string), nat>
    var refs: seq<nat>

    function S(): State
      reads this
    {
      State(Tree(nodes, ents), refs)
    }

    constructor (s: State)
      requires Valid(s)
      ensures S() == s
    {
      nodes, ents, refs := s.t.nodes, s.t.ents, s.refs;
    }

    method IGet(i: nat)
      requires i < |refs|
      modifies this`refs
      ensures S() == Hold(old(S()), i)
    {
      refs := refs[i := refs[i] + 1];
    }

    method IPut(i: nat)
      requires i < |refs| && i < |nodes| && refs[i] > 0
      modifies this
      ensures S() == Put(old(S()), i)
    {
      if refs[i] == 1 && nodes[i].nlink == 0 {
        ents := map e | e in ents && e.0 != i :: ents[e];
        nodes := nodes[i := Node(0, 0)];
      }
      refs := refs[i := refs[i] - 1];
    }

    method NameX(cwd: nat, path: string, parent: bool) returns (r: Walked, name: string)
      requires Walkable(S()) && cwd < |refs| && refs[cwd] > 0
      modifies this
      ensures r == if parent then ResolveParent(old(S()).t, cwd, path) else Resolve(old(S()).t, cwd, path)
      ensures parent && r.Found? ==> name == LastName(path)
      ensures r.Found? ==> r.i < |old(refs)| && S() == Hold(old(S()), r.i)
      ensures r.Missing? ==> S() == old(S())
    {
      hide Walk, WalkParent, Elements, Hold, Put, Goal;
      ghost var s := S();
      ghost var t := s.t;
      GoalIs(t, cwd, path, parent);
      var ip: nat := if path != "" && path[0] == '/' then ROOT else cwd;
      name := "";
      GoalEmpty(t, ip);
      IGet(ip);
      var rest := path;
      var next := SkipElem(rest);
      while next.Some?
        invariant 0 <= ip < |s.refs| && S() == Hold(s, ip)
        invariant parent && Elements(rest) == [] ==> s.t.nodes[ip].nlink != 0 || s.refs[ip] > 0
        invariant Skipped(rest, next)
        invariant Goal(t, ip, Elements(rest), parent) == Goal(t, Start(cwd, path), Elements(path), parent)
        invariant parent && next.Some? ==> LastOf(Elements(rest)) == LastName(path)
        decreases |rest|
      {
        ghost var elems := Elements(rest);
        rest, name := next.value.0, next.value.1;
        assert elems[1..] == Elements(rest) && elems[0] == name;
        GoalStep(t, ip, elems, parent);
        HoldSame(s, ip);
        if nodes[ip].kind == 0 {
          return Dead, name;
        }
        assert HeldOk(s, ip);
        HoldPut(s, ip);
        if nodes[ip].kind != T_DIR {
          IPut(ip);
          return Missing, name;
        }
        if parent && rest == "" {
          return Found(ip), name;
        }
        if (ip, name) !in ents {
          IPut(ip);
          return Missing, name;
        }
        var child := ents[(ip, name)];
        HoldNext(s, ip, child);
        IGet(child);
        HoldSame(Hold(s, ip), child);
        IPut(ip);
        ip := child;
        next := SkipElem(rest);
      }
      GoalEmpty(t, ip);
      if parent {
        HoldSame(s, ip);
        HoldPut(s, ip);
        IPut(ip);
        return Missing, name;
      }
      r := Found(ip);
    }
  
    method LinkCall(cwd: nat, old_: string, new_: string, room: bool) returns (r: Result)
      requires Valid(S()) && cwd < |refs| && refs[cwd] > 0
      modifies this
      ensures r == Link(old(S()), cwd, old_, new_, room).r
      ensures !r.Panicked? ==> S() == Link(old(S()), cwd, old_, new_, room).s
    {
      hide Walk, WalkParent, Elements, Counts, Shaped;
      ghost var s := S();
      ValidWalkable(s);
      var from, _ := NameX(cwd, old_, false);
      if !from.Found? {
        return if from.Missing? then Failed else Panicked;
      }
      var ip := from.i;
      if nodes[ip].kind == 0 {
        return Panicked;
      }
      assert HeldOk(s, ip);
      HoldPut(s, ip);
      if nodes[ip].kind == T_DIR {
        IPut(ip);
        return Failed;
      }
      nodes := nodes[ip := nodes[ip].(nlink := Short(nodes[ip].nlink + 1))];
      r := EnterLink(ip, cwd, new_, room, s);
    }

    /** The second half of sys_link, from the raised count on. */
    method EnterLink(ip: nat, cwd: nat, new_: string, room: bool, ghost s: State) returns (r: Result)
      requires Valid(s) && Bumped(s, S(), ip) && !IsFree(s.t, ip) && cwd < |refs| && s.refs[cwd] > 0
      modifies this
      ensures match ResolveParent(s.t, cwd, new_)
              case Dead => r == Panicked
              case Missing => r == Failed && S() == s
              case Found(dp) =>
                if (dp, LastName(new_)) in s.t.ents then r == Failed && S() == s
                else if !room then r == Panicked
                else r == Done(ip) && S() == s.(t := AddLink(s.t, dp, LastName(new_), ip))
    {
      hide Walk, WalkParent, Elements, Counts, Shaped;
      ghost var m := S();
      BumpedWalkable(s, m, ip);
      BumpedWalk(s.t, m.t, cwd, new_);
      ParentIsDir(m.t, cwd, new_);
      var to, name := NameX(cwd, new_, true);
      if to.Dead? {
        return Panicked;
      }
      if to.Found? {
        var dp := to.i;
        assert HeldOk(m, dp);
        if (dp, name) !in ents {
          if !room {
            return Panicked;
          }
          ents := ents[(dp, name) := ip];
          HoldPut(State(S().t, m.refs), dp);
          IPut(dp);
          LastPut(s, S(), ip);
          IPut(ip);
          return Done(ip);
        }
        HoldPut(m, dp);
        IPut(dp);
      }
      nodes := nodes[ip := nodes[ip].(nlink := Short(nodes[ip].nlink - 1))];
      Lowered(s, S(), ip);
      IPut(ip);
      return Failed;
    }

    method UnlinkCall(cwd: nat, path: string) returns (r: Result)
      requires Valid(S()) && cwd < |refs| && refs[cwd] > 0
      modifies this
      ensures r == Unlink(old(S()), cwd, path).r
      ensures !r.Panicked? ==> S() == Unlink(old(S()), cwd, path).s
    {
      hide Walk, WalkParent, Elements, Counts, Shaped, Empty;
      ghost var s := S();
      ValidWalkable(s);
      ParentIsDir(s.t, cwd, path);
      var to, name := NameX(cwd, path, true);
      if !to.Found? {
        return if to.Missing? then Failed else Panicked;
      }
      var dp := to.i;
      assert HeldOk(s, dp);
      HoldPut(s, dp);
      if IsDot(name) || (dp, name) !in ents {
        IPut(dp);
        return Failed;
      }
      var ip := ents[(dp, name)];
      RemovableCounts(s.t, dp, name, ip);
      IGet(ip);
      if nodes[ip].kind == 0 || nodes[ip].nlink < 1 {
        return Panicked;
      }
      if nodes[ip].kind == T_DIR && !Empty(Tree(nodes, ents), ip) {
        HoldNext(s, ip, dp);
        HoldSwap(s, dp, ip);
        IPut(ip);
        IPut(dp);
        return Failed;
      }
      Erase(dp, name, ip, s);
      return Done(ip);
    }

    /** The end of sys_unlink: the entry goes, then the counts, then the references. */
    method Erase(dp: nat, name: string, ip: nat, ghost s: State)
      requires Valid(s) && Removable(s.t, dp, name, ip) && (IsDir(s.t, ip) ==> Empty(s.t, ip))
      requires dp < |s.refs| && ip < |s.refs| && S() == Hold(Hold(s, dp), ip)
      modifies this
      ensures S() == Put(Hold(s.(t := Removed(s.t, dp, name, ip)), ip), ip)
    {
      hide Valid, Removable, Empty, Free, Short;
      ParentStays(s, dp, name, ip);
      ents := ents - {(dp, name)};
      if nodes[ip].kind == T_DIR {
        nodes := nodes[dp := nodes[dp].(nlink := Short(nodes[dp].nlink - 1))];
      }
      HoldSwap(State(S().t, s.refs), dp, ip);
      HoldPut(Hold(State(S().t, s.refs), ip), dp);
      IPut(dp);
      nodes := nodes[ip := nodes[ip].(nlink := Short(nodes[ip].nlink - 1))];
      IPut(ip);
    }

    /** ialloc: the first free inode, if any. */
    method FindFree() returns (r: Option<nat>)
      ensures r == FirstFree(Tree(nodes, ents), 1)
    {
      var i := 1;
      while i < |nodes|
        invariant 1 <= i && FirstFree(Tree(nodes, ents), i) == FirstFree(Tree(nodes, ents), 1)
      {
        if nodes[i].kind == 0 {
          return Some(i);
        }
        i := i + 1;
      }
      return None;
    }

    method CreateCall(cwd: nat, path: string, kind: int, room: bool) returns (r: Result)
      requires Valid(S()) && cwd < |refs| && refs[cwd] > 0 && kind != 0
      modifies this
      ensures r == Create(old(S()), cwd, path, kind, room).r
      ensures !r.Panicked? ==> S() == Create(old(S()), cwd, path, kind, room).s
    {
      hide Walk, WalkParent, Elements, Counts, Shaped, FirstFree;
      ghost var s := S();
      ValidWalkable(s);
      ParentIsDir(s.t, cwd, path);
      var to, name := NameX(cwd, path, true);
      if !to.Found? {
        return if to.Missing? then Failed else Panicked;
      }
      var dp := to.i;
      assert HeldOk(s, dp);
      if (dp, name) in ents {
        var ip := ents[(dp, name)];
        HoldNext(s, dp, ip);
        IGet(ip);
        IPut(dp);
        if nodes[ip].kind == 0 {
          return Panicked;
        }
        assert HeldOk(s, ip);
        if kind == T_FILE && nodes[ip].kind == T_FILE {
          return Done(ip);
        }
        HoldPut(s, ip);
        IPut(ip);
        return Failed;
      }
      var found := FindFree();
      if found == None || !room {
        return Panicked;
      }
      Enter(dp, name, found.value, kind, s);
      return Done(found.value);
    }

    /** The end of create: a new inode, its dots if it is a directory, and its name. */
    method Enter(dp: nat, name: string, ip: nat, kind: int, ghost s: State)
      requires Valid(s) && Absent(s.t, dp, name) && ip < |s.refs| && s.t.nodes[ip].kind == 0 && kind != 0
      requires S() == Hold(s, dp)
      modifies this
      ensures S() == Hold(s.(t := if kind == T_DIR then AddDir(s.t, dp, name, ip)
                                  else AddFile(s.t, dp, name, ip, kind)), ip)
    {
      hide Counts, Shaped, Free;
      NotNegative(s.t, dp);
      assert HeldOk(s, dp) && HeldOk(s, ip);
      IGet(ip);
      nodes := nodes[ip := Node(kind, 1)];
      if kind == T_DIR {
        nodes := nodes[dp := nodes[dp].(nlink := Short(nodes[dp].nlink + 1))];
        ents := ents[(ip, ".") := ip][(ip, "..") := dp];
      }
      ents := ents[(dp, name) := ip];
      HoldSwap(State(S().t, s.refs), dp, ip);
      HoldPut(Hold(State(S().t, s.refs), ip), dp);
      IPut(dp);
    }
  }

  /** The directory that loses an entry is another inode and still has a link. */
  lemma ParentStays(s: State, dp: nat, name: string, ip: nat)
    requires Valid(s) && Removable(s.t, dp, name, ip) && (IsDir(s.t, ip) ==> Empty(s.t, ip))
    ensures dp < |s.t.nodes| == |s.refs| && ip < |s.t.nodes| && dp != ip
    ensures s.t.nodes[dp].nlink != 0 && (IsDir(s.t, ip) ==> Short(s.t.nodes[dp].nlink - 1) != 0)
  {
    hide Counts, Shaped, Empty, Naming;
    RemovableCounts(s.t, dp, name, ip);
    if IsDir(s.t, ip) {
      RemoveDirNaming(s.t, dp, name, ip, ip);
      EmptyNamedOnce(s.t, dp, name, ip);
    }
  }

  lemma HoldSwap(s: State, i: nat, j: nat)
    requires i < |s.refs| && j < |s.refs|
    ensures Hold(Hold(s, i), j) == Hold(Hold(s, j), i)
  {
    assert Hold(Hold(s, i), j).refs == Hold(Hold(s, j), i).refs;
  }

  /** The last reference of a successful sys_link frees nothing. */
  lemma LastPut(s: State, m: State, ip: nat)
    requires Valid(s) && ip < |s.refs| && |m.t.nodes| == |s.refs| && m.refs == s.refs[ip := s.refs[ip] + 1]
    requires m.t.nodes[ip].nlink == Short(s.t.nodes[ip].nlink + 1)
    ensures Put(m, ip) == State(m.t, s.refs)
  {
    NotNegative(s.t, ip);
    assert m.refs[ip := s.refs[ip]] == s.refs;
  }

  /** A failed sys_link is back where it began. */
  lemma Lowered(s: State, m: State, ip: nat)
    requires Valid(s) && ip < |s.refs| && !IsFree(s.t, ip)
    requires m.refs == s.refs[ip := s.refs[ip] + 1] && m.t.ents == s.t.ents
    requires var n := s.t.nodes[ip].nlink;
             m.t.nodes == s.t.nodes[ip := s.t.nodes[ip].(nlink := Short(Short(n + 1) - 1))]
    ensures Put(m, ip) == s
  {
    assert HeldOk(s, ip);
    assert m.t.nodes == s.t.nodes;
    HoldPut(s, ip);
  }

  /** The state of sys_link once the count is raised: the file is held, its count one more. */
  ghost predicate Bumped(s: State, m: State, ip: nat) {
    && |s.refs| == |s.t.nodes| && ip < |s.refs|
    && m == State(Tree(s.t.nodes[ip := s.t.nodes[ip].(nlink := Short(s.t.nodes[ip].nlink + 1))], s.t.ents),
                  s.refs[ip := s.refs[ip] + 1])
  }

  lemma BumpedWalkable(s: State, m: State, ip: nat)
    requires Valid(s) && Bumped(s, m, ip) && !IsFree(s.t, ip)
    ensures Walkable(m)
  {
    ValidWalkable(s);
    NotNegative(s.t, ip);
    forall j | 0 <= j < |m.refs|
      ensures HeldOk(m, j)
    {
      assert HeldOk(s, j);
    }
  }

  lemma BumpedWalk(t: Tree, u: Tree, cwd: nat, path: string)
    requires t.ents == u.ents && |t.nodes| == |u.nodes|
    requires forall j :: 0 <= j < |t.nodes| ==> t.nodes[j].kind == u.nodes[j].kind
    ensures Resolve(t, cwd, path) == Resolve(u, cwd, path)
    ensures ResolveParent(t, cwd, path) == ResolveParent(u, cwd, path)
  {
    var elems := Elements(path);
    SameWalk(t, u, Start(cwd, path), elems);
    if elems != [] {
      SameWalk(t, u, Start(cwd, path), elems[..|elems| - 1]);
    }
  }
}

/**
 Where a path leads (fs.c), said without walking: a chain of inodes, each a directory that
 names the next, from the root or from the current directory.
 */
module Walks {
  import opened Common
  import opened Links
  import opened Paths
  import opened Sysfile

  /** Each inode of `ds` but the last is a directory in which the next has the next name. */
  ghost predicate Chain(t: Tree, ds: seq<nat>, names: seq<string>) {
    |ds| == |names| + 1 && forall k :: 0 <= k < |names| ==> IsDir(t, ds[k]) && Holds(t, ds[k], names[k], ds[k + 1])
  }

  /** The names lead from `i` to `j`. */
  ghost predicate Leads(t: Tree, i: nat, names: seq<string>, j: nat) {
    exists ds :: Chain(t, ds, names) && ds[0] == i && ds[|names|] == j
  }

  /** The first `k` names lead from `i` to `j`, which is free: locking it panics. */
  ghost predicate DiesAt(t: Tree, i: nat, names: seq<string>, k: nat, j: nat) {
    k < |names| && Leads(t, i, names[..k], j) && IsFree(t, j)
  }

  /** The first `k` names lead from `i` to `j`, which is in use and no directory or does not have the next name. */
  ghost predicate EndsAt(t: Tree, i: nat, names: seq<string>, k: nat, j: nat) {
    && k < |names| && Leads(t, i, names[..k], j) && !IsFree(t, j)
    && (!IsDir(t, j) || (j, names[k]) !in t.ents)
  }

  lemma LeadsNowhere(t: Tree, i: nat, j: nat)
    ensures Leads(t, i, [], j) <==> i == j
  {
    if i == j {
      assert Chain(t, [i], []);
    }
  }

  lemma LeadsOn(t: Tree, i: nat, name: string, rest: seq<string>, j: nat)
    ensures Leads(t, i, [name] + rest, j) <==>
            IsDir(t, i) && (i, name) in t.ents && Leads(t, t.ents[(i, name)], rest, j)
  {
    var names := [name] + rest;
    if Leads(t, i, names, j) {
      var ds :| Chain(t, ds, names) && ds[0] == i && ds[|names|] == j;
      assert Holds(t, ds[0], names[0], ds[1]);
      var tail := ds[1..];
      forall k | 0 <= k < |rest|
        ensures IsDir(t, tail[k]) && Holds(t, tail[k], rest[k], tail[k + 1])
      {
        assert Holds(t, ds[k + 1], names[k + 1], ds[k + 2]);
      }
      assert Chain(t, tail, rest);
    }
    if IsDir(t, i) && (i, name) in t.ents && Leads(t, t.ents[(i, name)], rest, j) {
      var tail :| Chain(t, tail, rest) && tail[0] == t.ents[(i, name)] && tail[|rest|] == j;
      var ds := [i] + tail;
      forall k | 0 <= k < |names|
        ensures IsDir(t, ds[k]) && Holds(t, ds[k], names[k], ds[k + 1])
      {
        if k > 0 {
          assert Holds(t, tail[k - 1], rest[k - 1], tail[k]);
        }
      }
      assert Chain(t, ds, names);
    }
  }

  /** A walk finds the inode that the names lead to, exactly. */
  lemma {:induction false} WalkFinds(t: Tree, i: nat, names: seq<string>, j: nat)
    ensures Walk(t, i, names) == Found(j) <==> Leads(t, i, names, j)
    decreases |names|
  {
    if names == [] {
      LeadsNowhere(t, i, j);
    } else {
      assert names == [names[0]] + names[1..];
      LeadsOn(t, i, names[0], names[1..], j);
      if (i, names[0]) in t.ents {
        WalkFinds(t, t.ents[(i, names[0])], names[1..], j);
      }
    }
  }

  /** It stops for good exactly where the chain breaks off. */
  lemma {:induction false} WalkStops(t: Tree, i: nat, names: seq<string>)
    ensures Walk(t, i, names) == Dead <==> exists k: nat, j: nat :: DiesAt(t, i, names, k, j)
    ensures Walk(t, i, names) == Missing <==> exists k: nat, j: nat :: EndsAt(t, i, names, k, j)
    decreases |names|
  {
    if names != [] {
      var rest := names[1..];
      LeadsNowhere(t, i, i);
      assert names[..0] == [];
      if IsFree(t, i) {
        assert DiesAt(t, i, names, 0, i);
      } else if !IsDir(t, i) || (i, names[0]) !in t.ents {
        assert EndsAt(t, i, names, 0, i);
      } else {
        WalkStops(t, t.ents[(i, names[0])], rest);
      }
      forall k: nat, j: nat
        ensures DiesAt(t, i, names, k, j) <==>
                if k == 0 then i == j && IsFree(t, i)
                else IsDir(t, i) && (i, names[0]) in t.ents && DiesAt(t, t.ents[(i, names[0])], rest, k - 1, j)
        ensures EndsAt(t, i, names, k, j) <==>
                if k == 0 then i == j && !IsFree(t, i) && (!IsDir(t, i) || (i, names[0]) !in t.ents)
                else IsDir(t, i) && (i, names[0]) in t.ents && EndsAt(t, t.ents[(i, names[0])], rest, k - 1, j)
      {
        StopsLater(t, i, names, k, j);
      }
      if k: nat, j: nat :| IsDir(t, i) && (i, names[0]) in t.ents && DiesAt(t, t.ents[(i, names[0])], rest, k, j) {
        assert DiesAt(t, i, names, k + 1, j);
      }
      if k: nat, j: nat :| IsDir(t, i) && (i, names[0]) in t.ents && EndsAt(t, t.ents[(i, names[0])], rest, k, j) {
        assert EndsAt(t, i, names, k + 1, j);
      }
    }
  }

  lemma StopsLater(t: Tree, i: nat, names: seq<string>, k: nat, j: nat)
    requires names != []
    ensures DiesAt(t, i, names, k, j) <==>
            if k == 0 then i == j && IsFree(t, i)
            else IsDir(t, i) && (i, names[0]) in t.ents && DiesAt(t, t.ents[(i, names[0])], names[1..], k - 1, j)
    ensures EndsAt(t, i, names, k, j) <==>
            if k == 0 then i == j && !IsFree(t, i) && (!IsDir(t, i) || (i, names[0]) !in t.ents)
            else IsDir(t, i) && (i, names[0]) in t.ents && EndsAt(t, t.ents[(i, names[0])], names[1..], k - 1, j)
  {
    hide Leads, IsFree;
    if k == 0 {
      assert names[..0] == [];
      LeadsNowhere(t, i, j);
    } else if k < |names| {
      assert names[..k] == [names[0]] + names[1..][..k - 1];
      LeadsOn(t, i, names[0], names[1..][..k - 1], j);
    }
  }

  // ---- paths ----

  /** Where a path is taken from: the root if it begins with a slash, the current directory if not. */
  lemma WhereItLeads(t: Tree, cwd: nat, path: string, j: nat)
    ensures var i := if path != "" && path[0] == '/' then ROOT else cwd;
            var names := Elements(path);
            && (Resolve(t, cwd, path) == Found(j) <==> Leads(t, i, names, j))
            && (Resolve(t, cwd, path) == Missing <==> exists k: nat, x: nat :: EndsAt(t, i, names, k, x))
            && (Resolve(t, cwd, path) == Dead <==> exists k: nat, x: nat :: DiesAt(t, i, names, k, x))
  {
    hide Walk, Elements, Leads;
    WalkFinds(t, Start(cwd, path), Elements(path), j);
    WalkStops(t, Start(cwd, path), Elements(path));
  }

  /** Its directory is where all names but the last lead, if that is a directory; a path without names has none. */
  lemma WhereItsParentIs(t: Tree, cwd: nat, path: string, j: nat)
    ensures var i := if path != "" && path[0] == '/' then ROOT else cwd;
            var names := Elements(path);
            if names == [] then ResolveParent(t, cwd, path) == Missing
            else
              && (ResolveParent(t, cwd, path) == Found(j) <==>
                    Leads(t, i, names[..|names| - 1], j) && IsDir(t, j))
              && (ResolveParent(t, cwd, path) == Dead <==> exists k: nat, x: nat :: DiesAt(t, i, names, k, x))
  {
    hide Walk, Elements, Leads;
    var i, names := Start(cwd, path), Elements(path);
    if names != [] {
      var most := names[..|names| - 1];
      WalkFinds(t, i, most, j);
      WalkStops(t, i, most);
      forall k: nat, x: nat
        ensures DiesAt(t, i, most, k, x) <==> k < |most| && DiesAt(t, i, names, k, x)
      {
        if k < |most| {
          assert most[..k] == names[..k];
        }
      }
      var w := Walk(t, i, most);
      if w.Found? {
        WalkFinds(t, i, most, w.i);
        if IsFree(t, w.i) {
          assert DiesAt(t, i, names, |most|, w.i);
        }
      }
      forall k: nat, x: nat | DiesAt(t, i, names, k, x)
        ensures ResolveParent(t, cwd, path) == Dead
      {
        if k < |most| {
          assert DiesAt(t, i, most, k, x);
        } else {
          WalkFinds(t, i, most, x);
        }
      }
      if w.Dead? {
        var k: nat, x: nat :| DiesAt(t, i, most, k, x);
        assert DiesAt(t, i, names, k, x);
      }
    }
  }

  /** Names written as a path, with slashes before, between and behind them: they are what the walk follows, from the
      root if a slash stands first. */
  lemma WrittenLeads(t: Tree, cwd: nat, names: seq<string>, slashes: seq<nat>, tail: nat, j: nat)
    requires |slashes| == |names| && forall k :: 0 <= k < |names| ==> IsName(names[k])
    requires forall k :: 1 <= k < |slashes| ==> slashes[k] > 0
    ensures var path := Written(names, slashes, tail);
            var i := if (if names == [] then tail else slashes[0]) > 0 then ROOT else cwd;
            && (Resolve(t, cwd, path) == Found(j) <==> Leads(t, i, names, j))
            && (names != [] ==> LastName(path) == names[|names| - 1])
            && (ResolveParent(t, cwd, path) == Found(j) <==>
                  names != [] && Leads(t, i, names[..|names| - 1], j) && IsDir(t, j))
  {
    hide Resolve, ResolveParent, Elements, Leads;
    var path := Written(names, slashes, tail);
    ElementsOfWritten(names, slashes, tail);
    WhereItLeads(t, cwd, path, j);
    WhereItsParentIs(t, cwd, path, j);
    FirstCharacter(names, slashes, tail);
  }

  lemma FirstCharacter(names: seq<string>, slashes: seq<nat>, tail: nat)
    requires |slashes| == |names| && forall k :: 0 <= k < |names| ==> IsName(names[k])
    ensures var path := Written(names, slashes, tail);
            path != "" && path[0] == '/' <==> (if names == [] then tail else slashes[0]) > 0
  {
    if names != [] && slashes[0] == 0 {
      assert Written(names, slashes, tail)[0] == names[0][0];
    }
  }

  /** The path "/" is the root, wherever it is looked up. */
  lemma SlashIsRoot(t: Tree, cwd: nat, n: nat)
    requires n > 0
    ensures Resolve(t, cwd, seq(n, _ => '/')) == Found(ROOT)
  {
    var path := Written([], [], n);
    LeadsNowhere(t, ROOT, ROOT);
    WrittenLeads(t, cwd, [], [], n, ROOT);
    assert path == seq(n, _ => '/');
  }
}

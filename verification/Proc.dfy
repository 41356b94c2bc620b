/**
 Processes (proc.c): the process table and its operations, then the whole system as
 a machine whose steps are the sections that run under `ptable.lock`.
 */
module Proc {
  import opened Common

  const NPROC: nat := 64

  datatype PState = UNUSED | EMBRYO | SLEEPING | RUNNABLE | RUNNING | ZOMBIE

  /** What a process sleeps on: nothing, the address of a process, or any other address. */
  datatype Chan = NoChan | ProcChan(slot: nat) | OtherChan(id: int)

  datatype Proc = Proc(state: PState, pid: int, parent: Option<nat>, chan: Chan, killed: bool)

  // ---- what the scans of the table compute ----

  function Woken(p: Proc, chan: Chan): Proc {
    if p.state == SLEEPING && p.chan == chan then p.(state := RUNNABLE) else p
  }

  /** Everyone asleep on `chan` made runnable. */
  function WakeAll(ps: seq<Proc>, chan: Chan): (r: seq<Proc>)
    ensures |r| == |ps|
  {
    seq(|ps|, i requires 0 <= i < |ps| => Woken(ps[i], chan))
  }

  function Adopted(q: Proc, p: nat, heir: nat): Proc {
    if q.parent == Some(p) then q.(parent := Some(heir)) else q
  }

  /** The children of `p` given to `heir`. */
  function Reparent(ps: seq<Proc>, p: nat, heir: nat): (r: seq<Proc>)
    ensures |r| == |ps|
  {
    seq(|ps|, i requires 0 <= i < |ps| => Adopted(ps[i], p, heir))
  }

  ghost predicate ZombieChild(ps: seq<Proc>, p: nat, q: nat) {
    q < |ps| && ps[q].parent == Some(p) && ps[q].state == ZOMBIE
  }

  ghost predicate HasZombie(ps: seq<Proc>, p: nat, n: nat) {
    exists q: nat :: q < n && ZombieChild(ps, p, q)
  }

  function ParentChan(p: Proc): Chan {
    if p.parent.Some? then ProcChan(p.parent.value) else NoChan
  }

  /** The table after `p` exits: its parent woken, its children given to init, init woken if one of them is a zombie. */
  ghost function Exited(ps: seq<Proc>, p: nat, init: nat): (r: seq<Proc>)
    requires p < |ps|
    ensures |r| == |ps|
  {
    var a := Reparent(WakeAll(ps, ParentChan(ps[p])), p, init);
    var b := if HasZombie(ps, p, |ps|) then WakeAll(a, ProcChan(init)) else a;
    b[p := b[p].(state := ZOMBIE)]
  }

  datatype WaitResult = Got(slot: nat, pid: int) | Fail | Asleep

  ghost predicate HasChild(ps: seq<Proc>, p: nat) {
    exists q: nat :: q < |ps| && ps[q].parent == Some(p)
  }

  /** `q` is the first zombie child of `p`. */
  ghost predicate FirstZombie(ps: seq<Proc>, p: nat, q: nat) {
    ZombieChild(ps, p, q) && !HasZombie(ps, p, q)
  }

  /** What one round of `wait` by `p` gives: a reaped child, failure, or sleep on the process itself. */
  ghost predicate Waited(ps: seq<Proc>, p: nat, r: WaitResult, ps': seq<Proc>) {
    && p < |ps|
    && match r
       case Got(q, pid) =>
         && FirstZombie(ps, p, q) && pid == ps[q].pid
         && ps' == ps[q := ps[q].(state := UNUSED, pid := 0, parent := None, killed := false)]
       case Fail => !HasZombie(ps, p, |ps|) && (!HasChild(ps, p) || ps[p].killed) && ps' == ps
       case Asleep => && !HasZombie(ps, p, |ps|) && HasChild(ps, p) && !ps[p].killed
                      && ps' == ps[p := ps[p].(state := SLEEPING, chan := ProcChan(p))]
  }

  /** `k` is the first slot from `from` on for which `f` holds, or the end of the table. */
  ghost predicate FirstFrom(ps: seq<Proc>, f: Proc -> bool, from: nat, k: nat) {
    && from <= k <= |ps| && (k < |ps| ==> f(ps[k]))
    && forall i :: from <= i < k ==> !f(ps[i])
  }

  ghost function IsRunnable(): Proc -> bool {
    (q: Proc) => q.state == RUNNABLE
  }

  /** `k` is the first unused slot, or the end of the table. */
  ghost predicate FirstUnused(ps: seq<Proc>, k: nat) {
    k <= |ps| && (k < |ps| ==> ps[k].state == UNUSED) && forall i :: 0 <= i < k ==> ps[i].state != UNUSED
  }

  ghost function HasPid(pid: int): Proc -> bool {
    (q: Proc) => q.pid == pid
  }

  function Killed(q: Proc): Proc {
    q.(killed := true, state := if q.state == SLEEPING then RUNNABLE else q.state)
  }

  ghost function Pids(ps: seq<Proc>): set<int> {
    set i | 0 <= i < |ps| :: ps[i].pid
  }

  /** The first slot with the pid, if there is one, is marked killed and no longer asleep; all else stands. */
  ghost predicate KillsTo(ps: seq<Proc>, pid: int, qs: seq<Proc>) {
    && |qs| == |ps|
    && forall i :: 0 <= i < |ps| ==>
         && qs[i].pid == ps[i].pid && qs[i].parent == ps[i].parent && qs[i].chan == ps[i].chan
         && if ps[i].pid == pid && pid !in Pids(ps[..i])
            then qs[i].killed && qs[i].state == if ps[i].state == SLEEPING then RUNNABLE else ps[i].state
            else qs[i] == ps[i]
  }

  lemma KillChanges(ps: seq<Proc>, pid: int, k: nat)
    requires FirstFrom(ps, HasPid(pid), 0, k)
    ensures KillsTo(ps, pid, if k < |ps| then ps[k := Killed(ps[k])] else ps) && (k == |ps| <==> pid !in Pids(ps))
  {
    forall i | 0 <= i < |ps|
      ensures pid in Pids(ps[..i]) <==> k < i
    {
      if k < i {
        assert ps[..i][k].pid == pid;
      }
      assert forall j :: 0 <= j < i && j < k ==> !HasPid(pid)(ps[j]);
    }
    if k < |ps| {
      assert HasPid(pid)(ps[k]);
    }
    assert forall j :: 0 <= j < k ==> !HasPid(pid)(ps[j]);
  }

  /** What becomes of slot `x` when `p` exits: `p` is a zombie, its children are init's, and those asleep on its parent,
      or on init if that gets a zombie, are runnable. */
  ghost predicate ExitsTo(ps: seq<Proc>, p: nat, init: nat, x: nat, r: Proc)
    requires p < |ps| && x < |ps|
  {
    && r.pid == ps[x].pid && r.chan == ps[x].chan && r.killed == ps[x].killed
    && (r.parent == if ps[x].parent == Some(p) then Some(init) else ps[x].parent)
    && (r.state == if x == p then ZOMBIE
                   else if && ps[x].state == SLEEPING && ps[x].chan.ProcChan?
                           && (|| ps[p].parent == Some(ps[x].chan.slot)
                               || (ps[x].chan.slot == init && HasZombie(ps, p, |ps|))) then RUNNABLE
                   else if ps[x].state == SLEEPING && ps[x].chan == NoChan && ps[p].parent == None then RUNNABLE
                   else ps[x].state)
  }

  class PTable {
    const init: nat
    const procs: array<Proc>
    var nextpid: int

    constructor (i: nat)
      requires i < NPROC
      ensures init == i && procs.Length == NPROC && fresh(procs) && nextpid == 1
      ensures forall k :: 0 <= k < NPROC ==> procs[k] == Proc(UNUSED, 0, None, NoChan, false)
    {
      init, nextpid := i, 1;
      procs := new Proc[NPROC](_ => Proc(UNUSED, 0, None, NoChan, false));
    }

    /** Wake all processes sleeping on `chan`. */
    method Wakeup1(chan: Chan)
      modifies procs
      ensures forall i :: 0 <= i < procs.Length ==>
                procs[i] == if old(procs[i]).state == SLEEPING && old(procs[i]).chan == chan
                            then old(procs[i]).(state := RUNNABLE) else old(procs[i])
      ensures procs[..] == WakeAll(old(procs[..]), chan)
    {
      var k := 0;
      while k < procs.Length
        invariant 0 <= k <= procs.Length
        invariant forall i :: 0 <= i < procs.Length ==>
                    procs[i] == if i < k then Woken(old(procs[i]), chan) else old(procs[i])
      {
        if procs[k].state == SLEEPING && procs[k].chan == chan {
          procs[k] := procs[k].(state := RUNNABLE);
        }
        k := k + 1;
      }
    }

    /** Claim the first unused slot; without memory for a kernel stack it is unused again, but keeps its pid. */
    method AllocProc(stack: bool) returns (r: Option<nat>)
      modifies procs, this`nextpid
      ensures exists k: nat :: FirstUnused(old(procs[..]), k) &&
                if k == procs.Length then r == None && procs[..] == old(procs[..]) && nextpid == old(nextpid)
                else && r == (if stack then Some(k) else None) && nextpid == old(nextpid) + 1
                     && procs[..] == old(procs[..])[k := old(procs[k]).(state := if stack then EMBRYO else UNUSED,
                                                                         pid := old(nextpid))]
      ensures r.Some? ==> r.value < procs.Length && old(procs[r.value]).state == UNUSED
      ensures stack ==> (r.None? <==> forall i :: 0 <= i < procs.Length ==> old(procs[i]).state != UNUSED)
    {
      var k := 0;
      while k < procs.Length
        invariant 0 <= k <= procs.Length && procs[..] == old(procs[..])
        invariant forall i :: 0 <= i < k ==> procs[i].state != UNUSED
      {
        if procs[k].state == UNUSED {
          procs[k] := procs[k].(state := EMBRYO, pid := nextpid);
          nextpid := nextpid + 1;
          assert FirstUnused(old(procs[..]), k);
          if !stack {
            procs[k] := procs[k].(state := UNUSED);
            return None;
          }
          return Some(k);
        }
        k := k + 1;
      }
      assert FirstUnused(old(procs[..]), k);
      r := None;
    }

    /** The part of `exit` under the lock. */
    method Exit(p: nat)
      requires p < procs.Length
      modifies procs
      ensures forall x :: 0 <= x < procs.Length ==> ExitsTo(old(procs[..]), p, init, x, procs[x])
      ensures procs[..] == Exited(old(procs[..]), p, init)
    {
      ghost var ps := procs[..];
      Wakeup1(ParentChan(procs[p]));
      ghost var a := procs[..];
      var k := 0;
      while k < procs.Length
        invariant 0 <= k <= procs.Length
        invariant forall i :: 0 <= i < procs.Length ==>
                    procs[i] == var q := if i < k then Adopted(a[i], p, init) else a[i];
                                if HasZombie(ps, p, k) then Woken(q, ProcChan(init)) else q
      {
        ghost var before := procs[..];
        assert before[k].state == ZOMBIE <==> ps[k].state == ZOMBIE;
        if procs[k].parent == Some(p) {
          procs[k] := procs[k].(parent := Some(init));
          if procs[k].state == ZOMBIE {
            Wakeup1(ProcChan(init));
            assert ZombieChild(ps, p, k);
            assert HasZombie(ps, p, k + 1);
          }
        }
        ZombieSoFar(ps, p, k);
        k := k + 1;
      }
      procs[p] := procs[p].(state := ZOMBIE);
      forall x | 0 <= x < procs.Length
        ensures ExitsTo(ps, p, init, x, procs[x])
      {
        ExitedAt(ps, p, init, x);
      }
    }

    /** One round of `wait`: scan for a zombie child, else decide whether to fail or to sleep. */
    method WaitRound(p: nat) returns (r: WaitResult)
      requires p < procs.Length
      modifies procs
      ensures Waited(old(procs[..]), p, r, procs[..])
      ensures r.Got? <==>
                exists q :: 0 <= q < procs.Length && old(procs[q]).parent == Some(p) && old(procs[q]).state == ZOMBIE
      ensures r.Asleep? ==> exists q :: 0 <= q < procs.Length && old(procs[q]).parent == Some(p)
      ensures r.Fail? ==> old(procs[p]).killed || forall q :: 0 <= q < procs.Length ==> old(procs[q]).parent != Some(p)
      ensures r.Asleep? ==> !old(procs[p]).killed
      ensures r.Got? ==> r.slot < procs.Length && r.pid == old(procs[r.slot]).pid && procs[r.slot].state == UNUSED
      ensures r.Asleep? ==> procs[p].state == SLEEPING && procs[p].chan == ProcChan(p)
    {
      ghost var ps := procs[..];
      var havekids := false;
      var k := 0;
      while k < procs.Length
        invariant 0 <= k <= procs.Length && procs[..] == ps
        invariant havekids <==> exists q: nat :: q < k && ps[q].parent == Some(p)
        invariant !HasZombie(ps, p, k)
      {
        ZombieSoFar(ps, p, k);
        if procs[k].parent == Some(p) {
          havekids := true;
          if procs[k].state == ZOMBIE {
            r := Got(k, procs[k].pid);
            procs[k] := procs[k].(state := UNUSED, pid := 0, parent := None, killed := false);
            return;
          }
        }
        k := k + 1;
      }
      forall q | 0 <= q < procs.Length
        ensures !(ps[q].parent == Some(p) && ps[q].state == ZOMBIE)
      {
        NoZombieAt(ps, p, q);
      }
      if !havekids || procs[p].killed {
        return Fail;
      }
      procs[p] := procs[p].(chan := ProcChan(p));
      procs[p] := procs[p].(state := SLEEPING);
      r := Asleep;
    }

    /** Mark the first process with this pid killed, and wake it. */
    method Kill(pid: int) returns (r: int)
      modifies procs
      ensures exists k: nat :: FirstFrom(old(procs[..]), HasPid(pid), 0, k) &&
                (if k < procs.Length then r == 0 && procs[..] == old(procs[..])[k := Killed(old(procs[k]))]
                 else r == -1 && procs[..] == old(procs[..]))
      ensures KillsTo(old(procs[..]), pid, procs[..]) && r == if pid in Pids(old(procs[..])) then 0 else -1
    {
      ghost var ps := procs[..];
      var k := 0;
      while k < procs.Length
        invariant 0 <= k <= procs.Length && procs[..] == ps
        invariant forall i :: 0 <= i < k ==> !HasPid(pid)(ps[i])
      {
        if procs[k].pid == pid {
          procs[k] := procs[k].(killed := true);
          if procs[k].state == SLEEPING {
            procs[k] := procs[k].(state := RUNNABLE);
          }
          assert FirstFrom(ps, HasPid(pid), 0, k);
          KillChanges(ps, pid, k);
          return 0;
        }
        k := k + 1;
      }
      assert FirstFrom(ps, HasPid(pid), 0, k);
      KillChanges(ps, pid, k);
      r := -1;
    }

    /** The scheduler's scan from slot `from`: the next runnable process starts running. */
    method Dispatch(from: nat) returns (k: nat)
      requires from <= procs.Length
      modifies procs
      ensures FirstFrom(old(procs[..]), IsRunnable(), from, k)
      ensures k < procs.Length ==> from <= k && old(procs[k]).state == RUNNABLE
      ensures forall i :: from <= i < procs.Length && old(procs[i]).state == RUNNABLE ==> k <= i
      ensures procs[..] == if k < procs.Length then old(procs[..])[k := old(procs[k]).(state := RUNNING)]
                           else old(procs[..])
    {
      k := from;
      while k < procs.Length && procs[k].state != RUNNABLE
        invariant from <= k <= procs.Length && procs[..] == old(procs[..])
        invariant forall i :: from <= i < k ==> !IsRunnable()(procs[i])
      {
        k := k + 1;
      }
      if k < procs.Length {
        procs[k] := procs[k].(state := RUNNING);
      }
    }
  }

  lemma ZombieSoFar(ps: seq<Proc>, p: nat, k: nat)
    ensures HasZombie(ps, p, k + 1) <==> HasZombie(ps, p, k) || ZombieChild(ps, p, k)
  {
  }

  // ---- the machine ----

  /** Where a process is inside `fork`: not at all, with a new slot, or with a slot that already has its parent. */
  datatype Pc = Idle | Forking(slot: nat) | Linked(slot: nat)

  /** `cur` is the process on the CPU, if any; `scan` is where the scheduler will look next. */
  datatype State = State(procs: seq<Proc>, nextpid: int, init: nat, scan: nat, cur: Option<nat>, pc: seq<Pc>)

  datatype Label =
    | Alloc(slot: nat) | ForkFail | ForkLink | ForkReady | Exit | Wait(r: WaitResult) | Sleep(id: int) | Yield
    | Wakeup(chan: Chan) | Kill(pid: int) | Dispatch(slot: nat) | Rescan

  function Set(s: State, q: nat, p: Proc): State
    requires q < |s.procs|
  {
    s.(procs := s.procs[q := p])
  }

  ghost predicate Sized(s: State) {
    |s.procs| == |s.pc| == NPROC && s.init < NPROC && s.scan <= NPROC && (s.cur.Some? ==> s.cur.value < NPROC)
  }

  /** One section under `ptable.lock`, or one of the two stores `fork` makes to the slot it has claimed. */
  ghost predicate Step(s: State, l: Label, t: State) {
    Sized(s) && if s.cur.Some? then StepBy(s, s.cur.value, l, t) else StepIdle(s, l, t)
  }

  /** Steps of the process on the CPU, and the wakeups and kills that it or an interrupt makes. */
  ghost predicate StepBy(s: State, p: nat, l: Label, t: State)
    requires Sized(s) && p < NPROC
  {
    match l
    case Alloc(q) =>
      && q < NPROC && s.pc[p] == Idle && s.procs[q].state == UNUSED
      && (forall k :: 0 <= k < q ==> s.procs[k].state != UNUSED)
      && t == Set(s, q, s.procs[q].(state := EMBRYO, pid := s.nextpid))
              .(nextpid := s.nextpid + 1, pc := s.pc[p := Forking(q)])
    case ForkFail =>
      && s.pc[p].Forking? && s.pc[p].slot < NPROC
      && t == Set(s, s.pc[p].slot, s.procs[s.pc[p].slot].(state := UNUSED)).(pc := s.pc[p := Idle])
    case ForkLink =>
      && s.pc[p].Forking? && s.pc[p].slot < NPROC
      && t == Set(s, s.pc[p].slot, s.procs[s.pc[p].slot].(parent := Some(p))).(pc := s.pc[p := Linked(s.pc[p].slot)])
    case ForkReady =>
      && s.pc[p].Linked? && s.pc[p].slot < NPROC
      && t == Set(s, s.pc[p].slot, s.procs[s.pc[p].slot].(state := RUNNABLE)).(pc := s.pc[p := Idle])
    case Exit => p != s.init && s.pc[p] == Idle && t == s.(procs := Exited(s.procs, p, s.init), cur := None)
    case Wait(r) =>
      && s.pc[p] == Idle && Waited(s.procs, p, r, t.procs)
      && t == s.(procs := t.procs, cur := if r.Asleep? then None else s.cur)
    case Sleep(id) => t == Set(s, p, s.procs[p].(state := SLEEPING, chan := OtherChan(id))).(cur := None)
    case Yield => t == Set(s, p, s.procs[p].(state := RUNNABLE)).(cur := None)
    case Wakeup(chan) => t == s.(procs := WakeAll(s.procs, chan))
    case Kill(pid) => KillStep(s, pid, t)
    case _ => false
  }

  /** Steps with no process on the CPU: the scheduler, and wakeups and kills by interrupts. */
  ghost predicate StepIdle(s: State, l: Label, t: State)
    requires Sized(s)
  {
    match l
    case Wakeup(chan) => t == s.(procs := WakeAll(s.procs, chan))
    case Kill(pid) => KillStep(s, pid, t)
    case Dispatch(k) =>
      && k < NPROC && FirstFrom(s.procs, IsRunnable(), s.scan, k)
      && t == Set(s, k, s.procs[k].(state := RUNNING, chan := NoChan)).(cur := Some(k), scan := k + 1)
    case Rescan => FirstFrom(s.procs, IsRunnable(), s.scan, NPROC) && t == s.(scan := 0)
    case _ => false
  }

  ghost predicate KillStep(s: State, pid: int, t: State)
    requires Sized(s)
  {
    exists k: nat :: FirstFrom(s.procs, HasPid(pid), 0, k) &&
                     t == if k < NPROC then Set(s, k, Killed(s.procs[k])) else s
  }

  /** After boot: only init, ready to run. */
  ghost predicate Boot(s: State) {
    && Sized(s) && s.cur == None && s.scan == 0 && s.nextpid == 2
    && (forall i :: 0 <= i < NPROC ==> s.pc[i] == Idle)
    && forall i :: 0 <= i < NPROC ==>
         s.procs[i] == if i == s.init then Proc(RUNNABLE, 1, None, NoChan, false)
                       else Proc(UNUSED, 0, None, NoChan, false)
  }

  predicate Alive(p: Proc) {
    p.state == SLEEPING || p.state == RUNNABLE || p.state == RUNNING
  }

  /** The parent of `q` is alive, and an unused slot has none. */
  ghost predicate ParentOk(ps: seq<Proc>, q: nat) {
    q < |ps| ==>
      && (ps[q].parent.Some? ==> ps[q].parent.value < |ps| && ps[q].parent.value != q && Alive(ps[ps[q].parent.value]))
      && (ps[q].state == UNUSED ==> ps[q].parent == None)
  }

  ghost predicate ParentsOk(ps: seq<Proc>) {
    forall q: nat :: ParentOk(ps, q)
  }

  /** Who sleeps in `wait` sleeps on itself and has no zombie child. */
  ghost predicate WaiterOk(ps: seq<Proc>, p: nat) {
    p < |ps| && ps[p].state == SLEEPING && ps[p].chan.ProcChan? ==> ps[p].chan.slot == p && !HasZombie(ps, p, |ps|)
  }

  ghost predicate WaitersOk(ps: seq<Proc>) {
    forall p: nat :: WaiterOk(ps, p)
  }

  /** A slot claimed by a fork of `p` is an embryo and has `p` or nobody as parent. */
  ghost predicate ForkOk(ps: seq<Proc>, pc: seq<Pc>, p: nat) {
    p < |pc| && p < |ps| && pc[p] != Idle ==>
      && pc[p].slot < |ps| && ps[pc[p].slot].state == EMBRYO && Alive(ps[p])
      && ps[pc[p].slot].parent == if pc[p].Linked? then Some(p) else None
  }

  /** An embryo with a parent is being forked by that parent. */
  ghost predicate EmbryoOk(ps: seq<Proc>, pc: seq<Pc>, q: nat) {
    q < |ps| && ps[q].state == EMBRYO && ps[q].parent.Some? && ps[q].parent.value < |pc| ==>
      pc[ps[q].parent.value] == Linked(q)
  }

  ghost predicate ForksOk(ps: seq<Proc>, pc: seq<Pc>) {
    && |pc| == |ps|
    && (forall p: nat :: ForkOk(ps, pc, p))
    && (forall q: nat :: EmbryoOk(ps, pc, q))
    && (forall p, r ::
          0 <= p < |pc| && 0 <= r < |pc| && pc[p] != Idle && pc[r] != Idle && pc[p].slot == pc[r].slot ==> p == r)
  }

  ghost predicate CurOk(s: State)
    requires Sized(s)
  {
    forall p :: 0 <= p < NPROC ==> (s.procs[p].state == RUNNING <==> s.cur == Some(p))
  }

  ghost predicate Inv(s: State) {
    && Sized(s) && ParentsOk(s.procs) && WaitersOk(s.procs) && ForksOk(s.procs, s.pc) && CurOk(s)
    && Alive(s.procs[s.init]) && s.procs[s.init].parent == None
  }

  lemma BootInv(s: State)
    requires Boot(s)
    ensures Inv(s)
  {
  }

  // ---- waking and exiting ----

  lemma WakeKeeps(ps: seq<Proc>, chan: Chan)
    ensures var r := WakeAll(ps, chan);
            && (ParentsOk(ps) ==> ParentsOk(r)) && (WaitersOk(ps) ==> WaitersOk(r))
            && (forall pc :: ForksOk(ps, pc) ==> ForksOk(r, pc))
  {
    var r := WakeAll(ps, chan);
    if ParentsOk(ps) {
      forall q: nat
        ensures ParentOk(r, q)
      {
        assert ParentOk(ps, q);
      }
    }
    if WaitersOk(ps) {
      forall p: nat
        ensures WaiterOk(r, p)
      {
        assert WaiterOk(ps, p);
        SameZombies(ps, r, p);
      }
    }
    forall pc | ForksOk(ps, pc)
      ensures ForksOk(r, pc)
    {
      forall p: nat
        ensures ForkOk(r, pc, p) && EmbryoOk(r, pc, p)
      {
        assert ForkOk(ps, pc, p) && EmbryoOk(ps, pc, p);
      }
    }
  }

  /** Whether `p` has a zombie child depends only on who is a zombie and whose child. */
  lemma SameZombies(ps: seq<Proc>, r: seq<Proc>, p: nat)
    requires |r| == |ps|
    requires forall q :: 0 <= q < |ps| && r[q].state == ZOMBIE && r[q].parent == Some(p) ==>
               ps[q].state == ZOMBIE && ps[q].parent == Some(p)
    ensures HasZombie(r, p, |r|) ==> HasZombie(ps, p, |ps|)
  {
    if HasZombie(r, p, |r|) {
      var q: nat :| q < |r| && ZombieChild(r, p, q);
      assert ZombieChild(ps, p, q);
    }
  }

  ghost predicate TableOk(ps: seq<Proc>, pc: seq<Pc>) {
    ParentsOk(ps) && WaitersOk(ps) && ForksOk(ps, pc)
  }

  /** A slot that changes among live states, or not at all in state, and keeps its parent. */
  lemma SetLive(ps: seq<Proc>, pc: seq<Pc>, q: nat, p: Proc)
    requires TableOk(ps, pc) && q < |ps|
    requires p.state == ps[q].state || (Alive(p) && Alive(ps[q]))
    requires p.parent == ps[q].parent
    requires p.state == SLEEPING && p.chan.ProcChan? ==> p.chan.slot == q && !HasZombie(ps, q, |ps|)
    ensures TableOk(ps[q := p], pc)
  {
    var r := ps[q := p];
    forall x: nat
      ensures ParentOk(r, x)
    {
      assert ParentOk(ps, x);
    }
    forall x: nat
      ensures WaiterOk(r, x)
    {
      assert WaiterOk(ps, x);
      SameZombies(ps, r, x);
    }
    forall x: nat
      ensures ForkOk(r, pc, x) && EmbryoOk(r, pc, x)
    {
      assert ForkOk(ps, pc, x) && EmbryoOk(ps, pc, x);
    }
  }

  /** Claiming an unused slot. */
  lemma SetEmbryo(ps: seq<Proc>, pc: seq<Pc>, p: nat, q: nat, pid: int)
    requires TableOk(ps, pc) && p < |ps| && q < |ps| && ps[q].state == UNUSED && pc[p] == Idle && Alive(ps[p])
    ensures TableOk(ps[q := ps[q].(state := EMBRYO, pid := pid)], pc[p := Forking(q)])
  {
    var r, pc' := ps[q := ps[q].(state := EMBRYO, pid := pid)], pc[p := Forking(q)];
    assert ParentOk(ps, q);
    forall x | 0 <= x < |pc| && pc[x] != Idle
      ensures pc[x].slot != q
    {
      assert ForkOk(ps, pc, x);
    }
    forall x: nat
      ensures ParentOk(r, x)
    {
      assert ParentOk(ps, x);
    }
    forall x: nat
      ensures WaiterOk(r, x)
    {
      assert WaiterOk(ps, x);
      SameZombies(ps, r, x);
    }
    forall x: nat
      ensures ForkOk(r, pc', x) && EmbryoOk(r, pc', x)
    {
      assert ForkOk(ps, pc, x) && EmbryoOk(ps, pc, x);
    }
  }

  /** The stores `fork` makes to its slot: give up, set the parent, make runnable. */
  lemma SetFork(ps: seq<Proc>, pc: seq<Pc>, p: nat, np: Proc, c: Pc)
    requires TableOk(ps, pc) && p < |ps| && pc[p] != Idle && pc[p].slot < |ps|
    requires var q := ps[pc[p].slot];
             || (pc[p].Forking? && np == q.(state := UNUSED) && c == Idle)
             || (pc[p].Forking? && np == q.(parent := Some(p)) && c == Linked(pc[p].slot))
             || (pc[p].Linked? && np == q.(state := RUNNABLE) && c == Idle)
    ensures TableOk(ps[pc[p].slot := np], pc[p := c])
  {
    var q := pc[p].slot;
    var r, pc' := ps[q := np], pc[p := c];
    assert ForkOk(ps, pc, p) && ParentOk(ps, q);
    forall x: nat
      ensures ParentOk(r, x)
    {
      assert ParentOk(ps, x);
    }
    forall x: nat
      ensures WaiterOk(r, x)
    {
      assert WaiterOk(ps, x);
      SameZombies(ps, r, x);
    }
    forall x: nat
      ensures ForkOk(r, pc', x) && EmbryoOk(r, pc', x)
    {
      assert ForkOk(ps, pc, x) && EmbryoOk(ps, pc, x);
    }
  }

  /** Reaping a zombie child. */
  lemma SetReaped(ps: seq<Proc>, pc: seq<Pc>, q: nat)
    requires TableOk(ps, pc) && q < |ps| && ps[q].state == ZOMBIE
    ensures TableOk(ps[q := ps[q].(state := UNUSED, pid := 0, parent := None, killed := false)], pc)
  {
    var r := ps[q := ps[q].(state := UNUSED, pid := 0, parent := None, killed := false)];
    forall x: nat
      ensures ParentOk(r, x)
    {
      assert ParentOk(ps, x);
    }
    forall x: nat
      ensures WaiterOk(r, x)
    {
      assert WaiterOk(ps, x);
      SameZombies(ps, r, x);
    }
    forall x: nat
      ensures ForkOk(r, pc, x) && EmbryoOk(r, pc, x)
    {
      assert ForkOk(ps, pc, x) && EmbryoOk(ps, pc, x);
    }
  }

  /** What exiting does to each slot. */
  lemma ExitedAt(ps: seq<Proc>, p: nat, init: nat, x: nat)
    requires p < |ps| && x < |ps|
    ensures ExitsTo(ps, p, init, x, Exited(ps, p, init)[x])
  {
  }

  /** Exiting: no child is left behind, no waiter left asleep over a zombie. */
  lemma SetExited(ps: seq<Proc>, pc: seq<Pc>, p: nat, init: nat)
    requires TableOk(ps, pc) && p < |ps| && init < |ps| && p != init && pc[p] == Idle
    requires Alive(ps[p]) && Alive(ps[init]) && ps[init].parent == None
    ensures TableOk(Exited(ps, p, init), pc)
  {
    hide Exited;
    var r := Exited(ps, p, init);
    forall x | 0 <= x < |ps|
      ensures r[x].parent == (if ps[x].parent == Some(p) then Some(init) else ps[x].parent) && r[x].chan == ps[x].chan
      ensures x != p ==> (Alive(r[x]) <==> Alive(ps[x])) && (!Alive(ps[x]) ==> r[x].state == ps[x].state)
      ensures x == p ==> r[x].state == ZOMBIE
    {
      ExitedAt(ps, p, init, x);
    }
    forall x: nat
      ensures ParentOk(r, x)
    {
      assert ParentOk(ps, x);
    }
    forall x: nat
      ensures WaiterOk(r, x)
    {
      assert WaiterOk(ps, x) && ParentOk(ps, p);
      ExitedWaiter(ps, p, init, x);
    }
    forall x: nat
      ensures ForkOk(r, pc, x) && EmbryoOk(r, pc, x)
    {
      assert ForkOk(ps, pc, x) && EmbryoOk(ps, pc, x) && ParentOk(ps, x);
    }
  }

  lemma NoZombieAt(ps: seq<Proc>, p: nat, q: nat)
    requires !HasZombie(ps, p, |ps|) && q < |ps|
    ensures !ZombieChild(ps, p, q)
  {
  }

  /** Whoever still sleeps in `wait` after `p` has exited was not its parent, and is not init if that got a zombie. */
  lemma ExitedWaiter(ps: seq<Proc>, p: nat, init: nat, x: nat)
    requires WaiterOk(ps, x)
    requires p < |ps| && init < |ps| && p != init && ps[p].parent != Some(p)
    ensures WaiterOk(Exited(ps, p, init), x)
  {
    hide Exited;
    var r := Exited(ps, p, init);
    if x < |ps| {
      ExitedAt(ps, p, init, x);
      if r[x].state == SLEEPING && r[x].chan.ProcChan? {
        assert ps[p].parent != Some(x) && (x == init ==> !HasZombie(ps, p, |ps|)) && !HasZombie(ps, x, |ps|);
        forall q: nat | q < |ps|
          ensures !ZombieChild(r, x, q)
        {
          ExitedAt(ps, p, init, q);
          NoZombieAt(ps, x, q);
          if x == init {
            NoZombieAt(ps, p, q);
          }
        }
      }
    }
  }

  // ---- every step keeps the invariant ----

  lemma ForkInv(s: State, p: nat, l: Label, t: State)
    requires Inv(s) && s.cur == Some(p) && p < NPROC && StepBy(s, p, l, t)
    requires l == ForkFail || l == ForkLink || l == ForkReady
    ensures Inv(t)
  {
    hide ParentsOk, WaitersOk;
    var q := s.pc[p].slot;
    assert ForkOk(s.procs, s.pc, p);
    SetFork(s.procs, s.pc, p, t.procs[q], t.pc[p]);
  }

  lemma ExitInv(s: State, p: nat, t: State)
    requires Inv(s) && s.cur == Some(p) && p < NPROC && StepBy(s, p, Exit, t)
    ensures Inv(t)
  {
    hide ParentsOk, WaitersOk, ForksOk, Exited;
    assert s.procs[p].state == RUNNING;
    SetExited(s.procs, s.pc, p, s.init);
    forall x | 0 <= x < NPROC
      ensures t.procs[x].state != RUNNING && (x == s.init ==> Alive(t.procs[x]) && t.procs[x].parent == None)
    {
      ExitedAt(s.procs, p, s.init, x);
    }
  }

  lemma StepByInv(s: State, p: nat, l: Label, t: State)
    requires Inv(s) && s.cur == Some(p) && p < NPROC && StepBy(s, p, l, t)
    ensures Inv(t)
  {
    hide ParentsOk, WaitersOk, ForksOk, Exited;
    assert s.procs[p].state == RUNNING;
    match l
    case Alloc(q) => SetEmbryo(s.procs, s.pc, p, q, s.nextpid);
    case ForkFail => ForkInv(s, p, l, t);
    case ForkLink => ForkInv(s, p, l, t);
    case ForkReady => ForkInv(s, p, l, t);
    case Exit => ExitInv(s, p, t);
    case Wait(Got(q, _)) => SetReaped(s.procs, s.pc, q);
    case Wait(Fail) =>
    case Wait(Asleep) => SetLive(s.procs, s.pc, p, s.procs[p].(state := SLEEPING, chan := ProcChan(p)));
    case Sleep(id) => SetLive(s.procs, s.pc, p, s.procs[p].(state := SLEEPING, chan := OtherChan(id)));
    case Yield => SetLive(s.procs, s.pc, p, s.procs[p].(state := RUNNABLE));
    case Wakeup(chan) => WakeKeeps(s.procs, chan);
    case Kill(pid) => KillInv(s, pid, t);
    case _ =>
  }

  lemma KillInv(s: State, pid: int, t: State)
    requires Inv(s) && KillStep(s, pid, t)
    ensures Inv(t)
  {
    var k: nat :| FirstFrom(s.procs, HasPid(pid), 0, k) && t == if k < NPROC then Set(s, k, Killed(s.procs[k])) else s;
    if k < NPROC {
      SetLive(s.procs, s.pc, k, Killed(s.procs[k]));
    }
  }

  lemma StepIdleInv(s: State, l: Label, t: State)
    requires Inv(s) && s.cur == None && StepIdle(s, l, t)
    ensures Inv(t)
  {
    match l
    case Wakeup(chan) => WakeKeeps(s.procs, chan);
    case Kill(pid) => KillInv(s, pid, t);
    case Dispatch(k) =>
      SetLive(s.procs, s.pc, k, s.procs[k].(state := RUNNING, chan := NoChan));
    case _ =>
  }

  lemma StepInv(s: State, l: Label, t: State)
    requires Inv(s) && Step(s, l, t)
    ensures Inv(t)
  {
    if s.cur.Some? {
      StepByInv(s, s.cur.value, l, t);
    } else {
      StepIdleInv(s, l, t);
    }
  }

  // ---- what the steps do to each process ----

  /** A wakeup makes everyone asleep on the channel runnable, changes nothing else about them and nobody else; so no one
      is left asleep on it. */
  lemma WakeupStep(s: State, chan: Chan, t: State)
    requires Step(s, Wakeup(chan), t)
    ensures t == s.(procs := t.procs) && |t.procs| == |s.procs|
    ensures forall i :: 0 <= i < |s.procs| ==>
              t.procs[i] == if s.procs[i].state == SLEEPING && s.procs[i].chan == chan
                            then s.procs[i].(state := RUNNABLE) else s.procs[i]
    ensures forall i :: 0 <= i < |t.procs| ==> !(t.procs[i].state == SLEEPING && t.procs[i].chan == chan)
  {
  }

  lemma KillStepDoes(s: State, pid: int, t: State)
    requires Step(s, Kill(pid), t)
    ensures t == s.(procs := t.procs) && KillsTo(s.procs, pid, t.procs)
  {
    var k: nat :| FirstFrom(s.procs, HasPid(pid), 0, k) && t == if k < NPROC then Set(s, k, Killed(s.procs[k])) else s;
    KillChanges(s.procs, pid, k);
  }

  lemma ExitStep(s: State, t: State)
    requires Step(s, Exit, t)
    ensures s.cur.Some? && s.cur.value != s.init && t == s.(procs := t.procs, cur := None) && |t.procs| == |s.procs|
    ensures forall x :: 0 <= x < |s.procs| ==> ExitsTo(s.procs, s.cur.value, s.init, x, t.procs[x])
  {
    hide Exited;
    forall x | 0 <= x < |s.procs|
      ensures ExitsTo(s.procs, s.cur.value, s.init, x, t.procs[x])
    {
      ExitedAt(s.procs, s.cur.value, s.init, x);
    }
  }

  /** Who runs after a step: whoever ran goes on unless it exits, sleeps or yields; the scheduler starts one process,
      runnable before, and clears what it slept on. */
  lemma WhoRuns(s: State, l: Label, t: State)
    requires Step(s, l, t)
    ensures t.cur == if l.Dispatch? then Some(l.slot)
                     else if l.Exit? || l.Sleep? || l.Yield? || l == Wait(Asleep) then None else s.cur
    ensures l.Dispatch? ==>
              && s.cur == None && l.slot < NPROC && s.procs[l.slot].state == RUNNABLE
              && t.procs == s.procs[l.slot := s.procs[l.slot].(state := RUNNING, chan := NoChan)]
  {
    hide Exited, WakeAll;
    if l.Dispatch? {
      assert IsRunnable()(s.procs[l.slot]);
    }
  }

  // ---- runs ----

  ghost predicate IsRun(ss: seq<State>, ls: seq<Label>) {
    |ss| == |ls| + 1 && forall i :: 0 <= i < |ls| ==> Step(ss[i], ls[i], ss[i + 1])
  }

  /** The invariant holds in every state of every run from boot. */
  lemma {:induction false} RunInv(ss: seq<State>, ls: seq<Label>, i: nat)
    requires IsRun(ss, ls) && Boot(ss[0]) && i < |ss|
    ensures Inv(ss[i])
    decreases i
  {
    if i == 0 {
      BootInv(ss[0]);
    } else {
      RunInv(ss, ls, i - 1);
      StepInv(ss[i - 1], ls[i - 1], ss[i]);
    }
  }

  /** No lost wakeup: whenever the lock is free, a process asleep in `wait` has no zombie child. */
  lemma NoLostWakeup(ss: seq<State>, ls: seq<Label>, i: nat, p: nat, q: nat)
    requires IsRun(ss, ls) && Boot(ss[0]) && i < |ss| && p < NPROC && q < NPROC
    ensures |ss[i].procs| == NPROC
    ensures var ps := ss[i].procs;
            ps[p].state == SLEEPING && ps[p].chan == ProcChan(p) && ps[q].parent == Some(p) ==> ps[q].state != ZOMBIE
  {
    RunInv(ss, ls, i);
    assert WaiterOk(ss[i].procs, p);
    if ss[i].procs[q].state == ZOMBIE && ss[i].procs[q].parent == Some(p) {
      assert ZombieChild(ss[i].procs, p, q);
    }
  }

  /** Whenever the lock is free, every parent is a live process, and at most one process runs. */
  lemma ParentsLive(ss: seq<State>, ls: seq<Label>, i: nat, q: nat)
    requires IsRun(ss, ls) && Boot(ss[0]) && i < |ss| && q < NPROC
    ensures |ss[i].procs| == NPROC
    ensures var ps := ss[i].procs;
            && (ps[q].parent.Some? ==> ps[q].parent.value < NPROC && Alive(ps[ps[q].parent.value]))
            && (ps[q].state == RUNNING <==> ss[i].cur == Some(q))
  {
    RunInv(ss, ls, i);
    assert ParentOk(ss[i].procs, q);
  }

  // ---- the scheduler ----

  /** How far the scan has come since it last passed slot `t`. */
  function Travelled(scan: nat, t: nat): nat {
    if scan > t then scan else NPROC + scan
  }

  /** Where on that way slot `q` lies. */
  function Milestone(q: nat, t: nat): nat {
    if q > t then q else NPROC + q
  }

  /** While `t` stays runnable no step turns the scan back, and dispatching `q` takes it past `q` for the first time. */
  lemma ScanAdvances(s: State, l: Label, u: State, t: nat)
    requires Step(s, l, u) && t < NPROC && |u.procs| == NPROC
    requires s.procs[t].state == RUNNABLE && u.procs[t].state == RUNNABLE
    ensures Travelled(s.scan, t) <= Travelled(u.scan, t)
    ensures l.Dispatch? ==> Travelled(s.scan, t) <= Milestone(l.slot, t) < Travelled(u.scan, t)
  {
    hide Exited, WakeAll;
    assert l.Rescan? || l.Dispatch? ==> s.cur == None;
    assert IsRunnable()(s.procs[t]);
  }

  lemma {:induction false} ScanMonotone(ss: seq<State>, ls: seq<Label>, i: nat, j: nat, t: nat)
    requires IsRun(ss, ls) && i <= j < |ss| && t < NPROC
    requires forall k :: i <= k <= j ==> |ss[k].procs| == NPROC && ss[k].procs[t].state == RUNNABLE
    ensures Travelled(ss[i].scan, t) <= Travelled(ss[j].scan, t)
    decreases j - i
  {
    if i < j {
      ScanMonotone(ss, ls, i, j - 1, t);
      ScanAdvances(ss[j - 1], ls[j - 1], ss[j], t);
    }
  }

  /** Bounded overtaking: while `t` is runnable and waits for the CPU, no other slot is dispatched twice. */
  lemma NoSecondTurn(ss: seq<State>, ls: seq<Label>, i: nat, j: nat, t: nat, q: nat)
    requires IsRun(ss, ls) && i < j < |ls| && t < NPROC
    requires forall k :: i <= k <= j + 1 ==> |ss[k].procs| == NPROC && ss[k].procs[t].state == RUNNABLE
    requires ls[i] == Dispatch(q)
    ensures ls[j] != Dispatch(q)
  {
    ScanAdvances(ss[i], ls[i], ss[i + 1], t);
    ScanMonotone(ss, ls, i + 1, j, t);
    ScanAdvances(ss[j], ls[j], ss[j + 1], t);
  }

  /** A runnable process leaves that state only by being dispatched. */
  lemma StaysRunnable(s: State, l: Label, u: State, t: nat)
    requires Inv(s) && Step(s, l, u) && t < NPROC && s.procs[t].state == RUNNABLE
    ensures |u.procs| == NPROC && (u.procs[t].state == RUNNABLE || l == Dispatch(t))
  {
    hide Exited;
    if s.cur.Some? {
      var p := s.cur.value;
      assert s.procs[p].state == RUNNING;
      if l.Exit? {
        ExitedAt(s.procs, p, s.init, t);
      }
      if l == ForkFail || l == ForkReady || l == ForkLink {
        assert ForkOk(s.procs, s.pc, p);
      }
    }
  }
}

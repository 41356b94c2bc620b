/**
 Pipes (pipe.c): a ring of 512 bytes between two counters that wrap at 32 bits, then
 any number of readers and writers as a machine whose steps are the sections that run
 under the pipe's lock.
 */
module Pipe {
  import opened Common

  const PIPESIZE: nat := 512
  const UINT: nat := 0x1_0000_0000

  type Ring = d: seq<char> | |d| == PIPESIZE witness seq(PIPESIZE, _ => '\0')

  datatype PipeState = PipeState(data: Ring, nread: nat, nwrite: nat, readopen: bool, writeopen: bool)

  // ---- the ring ----

  function Inc(n: nat): (r: nat)
    ensures r < UINT
  {
    (n + 1) % UINT
  }

  /** Bytes written and not yet read, by the wrapping counters. */
  function Count(p: PipeState): nat {
    (p.nwrite - p.nread) % UINT
  }

  ghost predicate RingOk(p: PipeState) {
    p.nread < UINT && p.nwrite < UINT && Count(p) <= PIPESIZE
  }

  /** The test for "full" as the code makes it. */
  predicate Full(p: PipeState) {
    p.nwrite == (p.nread + PIPESIZE) % UINT
  }

  predicate Empty(p: PipeState) {
    p.nread == p.nwrite
  }

  /** The bytes in the pipe, oldest first. */
  function Buffered(p: PipeState): (s: seq<char>)
    ensures |s| == Count(p)
  {
    seq(Count(p), k requires 0 <= k < Count(p) => p.data[(p.nread + k) % PIPESIZE])
  }

  function Put(p: PipeState, c: char): PipeState {
    p.(data := p.data[p.nwrite % PIPESIZE := c], nwrite := Inc(p.nwrite))
  }

  function Take(p: PipeState): PipeState {
    p.(nread := Inc(p.nread))
  }

  /** The counters without the modulus. */
  lemma Wraps(p: PipeState)
    requires p.nread < UINT && p.nwrite < UINT
    ensures Count(p) == p.nwrite - p.nread + if p.nread <= p.nwrite then 0 else UINT
    ensures Full(p) <==> p.nwrite == p.nread + PIPESIZE - if p.nread + PIPESIZE < UINT then 0 else UINT
    ensures Inc(p.nread) == (if p.nread + 1 < UINT then p.nread + 1 else 0) < UINT
    ensures Inc(p.nwrite) == (if p.nwrite + 1 < UINT then p.nwrite + 1 else 0) < UINT
  {
  }

  /** The counters tell full and empty apart although they wrap. */
  lemma FullEmpty(p: PipeState)
    requires RingOk(p)
    ensures Full(p) <==> Count(p) == PIPESIZE
    ensures Empty(p) <==> Count(p) == 0
  {
    hide Count, Full, Inc;
    Wraps(p);
  }

  /** Storing a byte in a pipe that is not full appends it: the ring index survives the wrap because 512 divides
      2^32. */
  lemma PutAppends(p: PipeState, c: char)
    requires RingOk(p) && !Full(p)
    ensures RingOk(Put(p, c)) && Count(Put(p, c)) == Count(p) + 1
    ensures Buffered(Put(p, c)) == Buffered(p) + [c]
  {
    hide Count, Inc, Full, RingOk;
    CountAfterPut(p, c);
    var q := Put(p, c);
    forall k | 0 <= k < Count(q)
      ensures Buffered(q)[k] == (Buffered(p) + [c])[k]
    {
      IndexAfter(p, k);
    }
  }

  lemma CountAfterPut(p: PipeState, c: char)
    requires RingOk(p) && !Full(p)
    ensures RingOk(Put(p, c)) && Count(Put(p, c)) == Count(p) + 1 && Count(p) < PIPESIZE
  {
    hide Count, Inc, Full;
    FullEmpty(p);
    Wraps(p);
    Wraps(Put(p, c));
  }

  lemma IndexAfter(p: PipeState, k: nat)
    requires RingOk(p) && k <= Count(p) < PIPESIZE
    ensures (p.nread + k) % PIPESIZE == p.nwrite % PIPESIZE <==> k == Count(p)
  {
    hide Count, Full, Inc;
    Wraps(p);
    var gap := Count(p) - k;
    assert p.nread + k == p.nwrite - gap + if p.nread <= p.nwrite then 0 else 8388608 * PIPESIZE;
    SameIndex(p.nread + k, p.nwrite, gap, if p.nread <= p.nwrite then 0 else 8388608);
  }

  lemma SameIndex(a: nat, b: nat, gap: nat, turns: nat)
    requires gap < PIPESIZE && a + gap == b + turns * PIPESIZE
    ensures a % PIPESIZE == b % PIPESIZE <==> gap == 0
  {
    var x, y := a % PIPESIZE, b % PIPESIZE;
    var m := b / PIPESIZE + turns - a / PIPESIZE;
    assert x + gap == y + m * PIPESIZE;
    assert m == 0 || m == 1;
  }

  /** Reading a byte from a pipe that is not empty takes the oldest. */
  lemma TakeRemoves(p: PipeState)
    requires RingOk(p) && !Empty(p)
    ensures RingOk(Take(p)) && Count(Take(p)) == Count(p) - 1
    ensures Buffered(p) == [p.data[p.nread % PIPESIZE]] + Buffered(Take(p))
  {
    hide Inc, Count, RingOk;
    var q := Take(p);
    CountAfterTake(p);
    var b, c := Buffered(p), [p.data[p.nread % PIPESIZE]] + Buffered(q);
    assert |b| == |c|;
    forall k | 0 <= k < |b|
      ensures b[k] == c[k]
    {
      if k > 0 {
        IncIndex(p.nread, k - 1);
      }
    }
  }

  lemma CountAfterTake(p: PipeState)
    requires RingOk(p) && !Empty(p)
    ensures RingOk(Take(p)) && Count(Take(p)) == Count(p) - 1 && p.nread < UINT
  {
    hide Count, Inc, Full;
    Wraps(p);
    Wraps(Take(p));
  }

  lemma IncIndex(n: nat, k: nat)
    requires n < UINT
    ensures (Inc(n) + k) % PIPESIZE == (n + k + 1) % PIPESIZE
  {
    if n + 1 == UINT {
      assert n + k + 1 == k + 8388608 * PIPESIZE;
    }
  }

  // ---- one turn of a writer or a reader ----

  /** Store bytes until the source or the room runs out; the number stored comes with the pipe. */
  function PutAll(p: PipeState, src: seq<char>): (PipeState, nat)
    decreases |src|
  {
    if src == [] || Full(p) then (p, 0)
    else var (q, n) := PutAll(Put(p, src[0]), src[1..]); (q, n + 1)
  }

  function Min(a: nat, b: nat): nat {
    if a < b then a else b
  }

  /** A writer's turn appends as much of the source as there is room for, in order. */
  lemma {:induction false} PutAllAppends(p: PipeState, src: seq<char>)
    requires RingOk(p)
    ensures var (q, n) := PutAll(p, src);
            && RingOk(q) && n == Min(|src|, PIPESIZE - Count(p))
            && Buffered(q) == Buffered(p) + src[..n]
            && q.readopen == p.readopen && q.writeopen == p.writeopen
    decreases |src|
  {
    hide Inc, Count, Buffered;
    FullEmpty(p);
    if src == [] || Full(p) {
      assert Buffered(p) + src[..0] == Buffered(p);
    } else {
      PutAppends(p, src[0]);
      PutAllAppends(Put(p, src[0]), src[1..]);
      var (q, n) := PutAll(Put(p, src[0]), src[1..]);
      assert Buffered(p) + [src[0]] + src[1..][..n] == Buffered(p) + src[..n + 1];
    }
  }

  /** Take up to `n` bytes. */
  function TakeAll(p: PipeState, n: nat): (PipeState, seq<char>)
    decreases n
  {
    if n == 0 || Empty(p) then (p, [])
    else var (q, s) := TakeAll(Take(p), n - 1); (q, [p.data[p.nread % PIPESIZE]] + s)
  }

  /** A reader's turn takes the oldest bytes, in order. */
  lemma {:induction false} TakeAllRemoves(p: PipeState, n: nat)
    requires RingOk(p)
    ensures var (q, s) := TakeAll(p, n);
            && RingOk(q) && |s| == Min(n, Count(p))
            && Buffered(p) == s + Buffered(q)
            && q.readopen == p.readopen && q.writeopen == p.writeopen
    decreases n
  {
    hide Inc, Count, Buffered;
    FullEmpty(p);
    if n == 0 || Empty(p) {
      assert Buffered(p) == [] + Buffered(p);
    } else {
      TakeRemoves(p);
      TakeAllRemoves(Take(p), n - 1);
      var (q, s) := TakeAll(Take(p), n - 1);
      var c := [p.data[p.nread % PIPESIZE]];
      assert c + (s + Buffered(q)) == (c + s) + Buffered(q);
    }
  }

  lemma TakeAllStep(p: PipeState, n: nat, got: seq<char>)
    ensures got + TakeAll(p, n).1 == if n == 0 || Empty(p) then got
                                     else (got + [p.data[p.nread % PIPESIZE]]) + TakeAll(Take(p), n - 1).1
    ensures TakeAll(p, n).0 == if n == 0 || Empty(p) then p else TakeAll(Take(p), n - 1).0
    ensures got == [] ==> got + TakeAll(p, n).1 == TakeAll(p, n).1
  {
  }

  lemma PutAllStep(p: PipeState, addr: seq<char>, j: nat)
    requires j <= |addr|
    ensures PutAll(p, addr[j..]) ==
            if j == |addr| || Full(p) then (p, 0)
            else var (q, n) := PutAll(Put(p, addr[j]), addr[j + 1..]); (q, n + 1)
  {
    if j < |addr| {
      assert addr[j..][1..] == addr[j + 1..];
    }
  }

  lemma SliceTo(s: seq<char>, i: nat, n: nat)
    requires i + n <= |s|
    ensures s[i..][..n] == s[i..i + n]
  {
  }

  datatype Outcome = Done | Failed | Blocked

  /** How a writer's turn ends once `left` bytes remain: finished, turned away, or asleep. */
  function WriteEnd(left: nat, readopen: bool, killed: bool): Outcome {
    if left == 0 then Done else if !readopen || killed then Failed else Blocked
  }

  class Pipe {
    const data: array<char>
    var nread: nat
    var nwrite: nat
    var readopen: bool
    var writeopen: bool

    ghost predicate Valid()
      reads this
    {
      data.Length == PIPESIZE && nread < UINT && nwrite < UINT
    }

    ghost function State(): PipeState
      requires data.Length == PIPESIZE
      reads this, data
    {
      PipeState(data[..], nread, nwrite, readopen, writeopen)
    }

    constructor ()
      ensures Valid() && fresh(data) && RingOk(State()) && Buffered(State()) == [] && readopen && writeopen
    {
      data := new char[PIPESIZE](_ => '\0');
      nread, nwrite, readopen, writeopen := 0, 0, true, true;
    }

    /** One turn of `pipewrite`, from byte `i` of the source: to the end, or until the pipe is full. */
    method WriteTurn(addr: seq<char>, i: nat, killed: bool) returns (r: Outcome, j: nat)
      requires Valid() && i <= |addr|
      modifies this`nwrite, data
      ensures Valid()
      ensures var (q, n) := PutAll(old(State()), addr[i..]); State() == q && j == i + n
      ensures j <= |addr| && r == WriteEnd(|addr| - j, readopen, killed)
      ensures r == if j == |addr| then Done else if !readopen || killed then Failed else Blocked
      ensures RingOk(old(State())) ==>
                && RingOk(State()) && Buffered(State()) == old(Buffered(State())) + addr[i..j]
                && j - i == Min(|addr| - i, PIPESIZE - old(Count(State())))
    {
      hide Buffered, Count, RingOk, PutAll;
      if RingOk(State()) {
        PutAllAppends(State(), addr[i..]);
        SliceTo(addr, i, PutAll(State(), addr[i..]).1);
      }
      j := i;
      while j < |addr|
        invariant Valid() && i <= j <= |addr|
        invariant PutAll(old(State()), addr[i..]) ==
                  var (q, n) := PutAll(State(), addr[j..]); (q, n + j - i)
      {
        PutAllStep(State(), addr, j);
        if nwrite == (nread + PIPESIZE) % UINT {
          if !readopen || killed {
            return Failed, j;
          }
          return Blocked, j;
        }
        data[nwrite % PIPESIZE] := addr[j];
        nwrite := (nwrite + 1) % UINT;
        j := j + 1;
      }
      PutAllStep(State(), addr, j);
      r := Done;
    }

    /** One turn of `piperead`: give up or sleep while there is nothing to read, else take what there is, up to `n`. */
    method ReadTurn(n: nat, killed: bool) returns (r: Outcome, addr: seq<char>)
      requires Valid()
      modifies this`nread
      ensures Valid()
      ensures r == if Empty(old(State())) && writeopen then (if killed then Failed else Blocked) else Done
      ensures r == Done ==> TakeAll(old(State()), n) == (State(), addr)
      ensures r == Done && RingOk(old(State())) ==>
                && RingOk(State()) && old(Buffered(State())) == addr + Buffered(State())
                && |addr| == Min(n, old(Count(State())))
      ensures r != Done ==> State() == old(State()) && addr == []
    {
      hide Buffered, Count, RingOk, TakeAll;
      if RingOk(State()) {
        TakeAllRemoves(State(), n);
      }
      if nread == nwrite && writeopen {
        return if killed then Failed else Blocked, [];
      }
      addr := CopyOut(n);
      r := Done;
    }

    /** The copy loop of `piperead`. */
    method CopyOut(n: nat) returns (addr: seq<char>)
      requires Valid()
      modifies this`nread
      ensures Valid() && TakeAll(old(State()), n) == (State(), addr)
    {
      hide TakeAll, Inc;
      addr := [];
      var i := 0;
      ghost var bytes := data[..];
      ghost var p := State();
      TakeAllStep(p, n, addr);
      while i < n
        invariant Valid() && 0 <= i <= n && data[..] == bytes
        invariant p == PipeState(bytes, nread, nwrite, readopen, writeopen)
        invariant TakeAll(old(State()), n).0 == TakeAll(p, n - i).0
        invariant TakeAll(old(State()), n).1 == addr + TakeAll(p, n - i).1
      {
        TakeAllStep(p, n - i, addr);
        if nread == nwrite {
          break;
        }
        addr := addr + [data[nread % PIPESIZE]];
        nread := Inc(nread);
        p := Take(p);
        i := i + 1;
      }
      TakeAllStep(p, n - i, addr);
    }
  }

  // ---- readers and writers together ----

  /** What a process is doing with the pipe. */
  datatype Task = Outside | Writing(addr: seq<char>, i: nat) | Reading(n: nat)

  datatype Thread = Thread(task: Task, asleep: bool, killed: bool)

  /** `sent` and `received` are the bytes stored by all writes and returned by all reads so far. */
  datatype System = System(pipe: PipeState, threads: seq<Thread>, sent: seq<char>, received: seq<char>)

  datatype Label =
    | StartWrite(t: nat, addr: seq<char>) | WriteTurn(t: nat) | StartRead(t: nat, n: nat) | ReadTurn(t: nat)
                 | KillThread(t: nat) | CloseRead | CloseWrite

  /** Wake everyone asleep in `pipewrite`, or everyone asleep in `piperead`. */
  function WakeWriter(t: Thread): Thread {
    if t.task.Writing? then t.(asleep := false) else t
  }

  function WakeReader(t: Thread): Thread {
    if t.task.Reading? then t.(asleep := false) else t
  }

  function WakeWriters(ts: seq<Thread>): (r: seq<Thread>)
    ensures |r| == |ts| && forall k :: 0 <= k < |ts| ==> r[k] == WakeWriter(ts[k])
  {
    seq(|ts|, k requires 0 <= k < |ts| => WakeWriter(ts[k]))
  }

  function WakeReaders(ts: seq<Thread>): (r: seq<Thread>)
    ensures |r| == |ts| && forall k :: 0 <= k < |ts| ==> r[k] == WakeReader(ts[k])
  {
    seq(|ts|, k requires 0 <= k < |ts| => WakeReader(ts[k]))
  }

  /** The outcome of a writer's turn: done or blocked it wakes the readers, turned away it does not. */
  function AfterWrite(s: System, t: nat): System
    requires t < |s.threads| && s.threads[t].task.Writing? && s.threads[t].task.i <= |s.threads[t].task.addr|
  {
    var th := s.threads[t];
    var i, addr := th.task.i, th.task.addr;
    var (q, n) := PutAll(s.pipe, addr[i..]);
    var done := if n <= |addr[i..]| then addr[i..][..n] else [];
    var s1 := s.(pipe := q, sent := s.sent + done);
    match WriteEnd(|addr| - Min(i + n, |addr|), q.readopen, th.killed)
    case Done => s1.(threads := WakeReaders(s.threads[t := th.(task := Outside)]))
    case Failed => s1.(threads := s.threads[t := th.(task := Outside)])
    case Blocked =>
      s1.(threads := WakeReaders(s.threads[t := th.(task := Writing(addr, Min(i + n, |addr|)), asleep := true)]))
  }

  function AfterRead(s: System, t: nat): System
    requires t < |s.threads| && s.threads[t].task.Reading?
  {
    var th := s.threads[t];
    if Empty(s.pipe) && s.pipe.writeopen then
      s.(threads := s.threads[t := if th.killed then th.(task := Outside) else th.(asleep := true)])
    else
      var (q, bytes) := TakeAll(s.pipe, th.task.n);
      s.(pipe := q, received := s.received + bytes, threads := WakeWriters(s.threads[t := th.(task := Outside)]))
  }

  /** A section under the lock.  An end of the pipe closes only when no process is using that end, and is used only
      while open. */
  ghost predicate Step(s: System, l: Label, u: System) {
    match l
    case StartWrite(t, addr) =>
      && t < |s.threads| && s.threads[t].task == Outside && s.pipe.writeopen
      && u == s.(threads := s.threads[t := s.threads[t].(task := Writing(addr, 0), asleep := false)])
    case WriteTurn(t) =>
      && t < |s.threads| && s.threads[t].task.Writing? && !s.threads[t].asleep
      && s.threads[t].task.i <= |s.threads[t].task.addr| && u == AfterWrite(s, t)
    case StartRead(t, n) =>
      && t < |s.threads| && s.threads[t].task == Outside && s.pipe.readopen
      && u == s.(threads := s.threads[t := s.threads[t].(task := Reading(n), asleep := false)])
    case ReadTurn(t) =>
      t < |s.threads| && s.threads[t].task.Reading? && !s.threads[t].asleep && u == AfterRead(s, t)
    case KillThread(t) =>
      t < |s.threads| && u == s.(threads := s.threads[t := s.threads[t].(killed := true, asleep := false)])
    case CloseRead =>
      && (forall t :: 0 <= t < |s.threads| ==> !s.threads[t].task.Reading?) && s.pipe.readopen
      && u == s.(pipe := s.pipe.(readopen := false), threads := WakeWriters(s.threads))
    case CloseWrite =>
      && (forall t :: 0 <= t < |s.threads| ==> !s.threads[t].task.Writing?) && s.pipe.writeopen
      && u == s.(pipe := s.pipe.(writeopen := false), threads := WakeReaders(s.threads))
  }

  ghost predicate Fresh(s: System) {
    && RingOk(s.pipe) && Buffered(s.pipe) == [] && s.pipe.readopen && s.pipe.writeopen
    && s.sent == [] && s.received == []
    && forall t :: 0 <= t < |s.threads| ==> s.threads[t].task == Outside && !s.threads[t].asleep
  }

  /** Bytes come out as they went in. */
  ghost predicate InOrder(s: System) {
    RingOk(s.pipe) && s.sent == s.received + Buffered(s.pipe)
  }

  /** Writers asleep wait for room, and those using an end of the pipe find it open. */
  ghost predicate WritersOk(s: System) {
    forall t :: 0 <= t < |s.threads| ==>
      var th := s.threads[t];
      && (th.task.Writing? && th.asleep ==> Full(s.pipe) && s.pipe.readopen)
      && (th.task.Writing? ==> s.pipe.writeopen && th.task.i <= |th.task.addr|)
      && (th.task.Reading? ==> s.pipe.readopen)
  }

  /** Readers asleep wait for bytes that may still come. */
  ghost predicate ReadersOk(s: System) {
    forall t :: 0 <= t < |s.threads| && s.threads[t].task.Reading? && s.threads[t].asleep ==>
                  Empty(s.pipe) && s.pipe.writeopen
  }

  ghost predicate ReaderAsleep(s: System) {
    exists t :: 0 <= t < |s.threads| && s.threads[t].task.Reading? && s.threads[t].asleep
  }

  /** The step is a `pipewrite` that has more bytes than there is room for and leaves through its test for a closed
      pipe or a kill. */
  ghost predicate LeavesFull(s: System, l: Label) {
    && l.WriteTurn? && l.t < |s.threads| && s.threads[l.t].task.Writing?
    && var th := s.threads[l.t];
       |th.task.addr| - th.task.i > PIPESIZE - Count(s.pipe) && (!s.pipe.readopen || th.killed)
  }

  /** Everything about a writer's turn that the invariants need. */
  lemma WriteFacts(s: System, t: nat)
    requires RingOk(s.pipe) && t < |s.threads| && s.threads[t].task.Writing?
    requires s.threads[t].task.i <= |s.threads[t].task.addr|
    ensures var th := s.threads[t];
            var src := th.task.addr[th.task.i..];
            var (q, n) := PutAll(s.pipe, src);
            && RingOk(q) && n <= |src| && Buffered(q) == Buffered(s.pipe) + src[..n]
            && q.readopen == s.pipe.readopen && q.writeopen == s.pipe.writeopen
            && (n < |src| <==> |src| > PIPESIZE - Count(s.pipe))
            && (n < |src| ==> Full(q) && !Empty(q))
            && (n == 0 ==> q == s.pipe)
            && (Empty(s.pipe) && n < |src| ==> n == PIPESIZE)
  {
    var src := s.threads[t].task.addr[s.threads[t].task.i..];
    PutAllAppends(s.pipe, src);
    FullEmpty(s.pipe);
    FullEmpty(PutAll(s.pipe, src).0);
  }

  lemma WriteOrder(s: System, t: nat)
    requires InOrder(s) && WritersOk(s) && t < |s.threads| && s.threads[t].task.Writing? && !s.threads[t].asleep
    requires s.threads[t].task.i <= |s.threads[t].task.addr|
    ensures InOrder(AfterWrite(s, t)) && WritersOk(AfterWrite(s, t))
  {
    hide PutAll, Buffered, Count, Full, Empty;
    WriteFacts(s, t);
    var th := s.threads[t];
    var src := th.task.addr[th.task.i..];
    var (q, n) := PutAll(s.pipe, src);
    assert (s.received + Buffered(s.pipe)) + src[..n] == s.received + (Buffered(s.pipe) + src[..n]);
    WriterAsleepStuck(s, t);
  }

  /** If some writer sleeps the pipe is full, so another writer's turn changes nothing in it. */
  lemma WriterAsleepStuck(s: System, t: nat)
    requires RingOk(s.pipe) && t < |s.threads| && s.threads[t].task.Writing?
    requires s.threads[t].task.i <= |s.threads[t].task.addr|
    ensures Full(s.pipe) ==> PutAll(s.pipe, s.threads[t].task.addr[s.threads[t].task.i..]) == (s.pipe, 0)
  {
  }

  lemma ReadOrder(s: System, t: nat)
    requires InOrder(s) && WritersOk(s) && t < |s.threads| && s.threads[t].task.Reading? && !s.threads[t].asleep
    ensures InOrder(AfterRead(s, t)) && WritersOk(AfterRead(s, t))
  {
    hide TakeAll, Buffered, Count, Full, Empty;
    TakeAllRemoves(s.pipe, s.threads[t].task.n);
    var (q, bytes) := TakeAll(s.pipe, s.threads[t].task.n);
    assert (s.received + bytes) + Buffered(q) == s.received + (bytes + Buffered(q));
  }

  /** Every section keeps the bytes in order and leaves no writer asleep beside room. */
  lemma StepOrder(s: System, l: Label, u: System)
    requires InOrder(s) && WritersOk(s) && Step(s, l, u)
    ensures InOrder(u) && WritersOk(u)
  {
    hide AfterWrite, AfterRead;
    match l
    case WriteTurn(t) => WriteOrder(s, t);
    case ReadTurn(t) => ReadOrder(s, t);
    case _ => assert Buffered(u.pipe) == Buffered(s.pipe);
  }

  lemma WriteReaders(s: System, t: nat)
    requires InOrder(s) && WritersOk(s) && ReadersOk(s)
    requires t < |s.threads| && s.threads[t].task.Writing? && !s.threads[t].asleep
    requires s.threads[t].task.i <= |s.threads[t].task.addr|
    ensures ReadersOk(AfterWrite(s, t)) <==> !(LeavesFull(s, WriteTurn(t)) && ReaderAsleep(s))
  {
    hide PutAll, Buffered, Count, Full, Empty;
    WriteFacts(s, t);
    var u := AfterWrite(s, t);
    if LeavesFull(s, WriteTurn(t)) {
      assert u.threads == s.threads[t := s.threads[t].(task := Outside)];
      if ReaderAsleep(s) {
        var r :| 0 <= r < |s.threads| && s.threads[r].task.Reading? && s.threads[r].asleep;
        assert u.threads[r] == s.threads[r];
      }
    }
  }

  lemma ReadReaders(s: System, t: nat)
    requires InOrder(s) && WritersOk(s) && ReadersOk(s)
    requires t < |s.threads| && s.threads[t].task.Reading? && !s.threads[t].asleep
    ensures ReadersOk(AfterRead(s, t))
  {
    hide Buffered, Count;
    if Empty(s.pipe) {
      assert TakeAll(s.pipe, s.threads[t].task.n) == (s.pipe, []);
    }
  }

  /** A section keeps readers from sleeping beside bytes exactly when it is not a write that leaves a full pipe
      without a wakeup while a reader sleeps. */
  lemma StepReaders(s: System, l: Label, u: System)
    requires InOrder(s) && WritersOk(s) && ReadersOk(s) && Step(s, l, u)
    ensures ReadersOk(u) <==> !(LeavesFull(s, l) && ReaderAsleep(s))
  {
    hide AfterWrite, AfterRead;
    match l
    case WriteTurn(t) => WriteReaders(s, t);
    case ReadTurn(t) => ReadReaders(s, t);
    case _ =>
  }

  /** What a turn of a reader does: with nothing to read and writers left it gives up if killed and else sleeps;
      otherwise it takes the oldest bytes, as many as it wants and there are, and is done, and sleeping writers are
      woken. */
  lemma ReadTurnDoes(s: System, t: nat, u: System)
    requires Step(s, ReadTurn(t), u) && RingOk(s.pipe)
    ensures |u.threads| == |s.threads| && u.sent == s.sent && RingOk(u.pipe)
    ensures if Buffered(s.pipe) == [] && s.pipe.writeopen
            then && u.pipe == s.pipe && u.received == s.received
                 && u.threads == s.threads[t := if s.threads[t].killed then s.threads[t].(task := Outside)
                                                else s.threads[t].(asleep := true)]
            else var n := Min(s.threads[t].task.n, |Buffered(s.pipe)|);
                 && u.received == s.received + Buffered(s.pipe)[..n] && Buffered(u.pipe) == Buffered(s.pipe)[n..]
                 && u.threads[t] == s.threads[t].(task := Outside)
                 && forall k :: 0 <= k < |s.threads| && k != t ==>
                      u.threads[k] == if s.threads[k].task.Writing? then s.threads[k].(asleep := false)
                                      else s.threads[k]
  {
    hide Buffered, Count, TakeAll;
    FullEmpty(s.pipe);
    TakeAllRemoves(s.pipe, s.threads[t].task.n);
    var taken, left := TakeAll(s.pipe, s.threads[t].task.n).1, Buffered(TakeAll(s.pipe, s.threads[t].task.n).0);
    assert (taken + left)[..|taken|] == taken && (taken + left)[|taken|..] == left;
  }

  /** What a turn of a writer does: it stores what there is room for. Done it leaves and wakes the readers; with bytes
      left it leaves without waking anyone if the pipe is closed for reading or it was killed, and else wakes the
      readers and sleeps. */
  lemma WriteTurnDoes(s: System, t: nat, u: System)
    requires Step(s, WriteTurn(t), u) && RingOk(s.pipe)
    ensures |u.threads| == |s.threads| && u.received == s.received && RingOk(u.pipe)
    ensures var th := s.threads[t];
            var src := th.task.addr[th.task.i..];
            var n := Min(|src|, PIPESIZE - |Buffered(s.pipe)|);
            && Buffered(u.pipe) == Buffered(s.pipe) + src[..n] && u.sent == s.sent + src[..n]
            && (u.threads[t] == if n == |src| || !s.pipe.readopen || th.killed then th.(task := Outside)
                                else th.(task := Writing(th.task.addr, th.task.i + n), asleep := true))
            && forall k :: 0 <= k < |s.threads| && k != t ==>
                 u.threads[k] == if s.threads[k].task.Reading? && (n == |src| || (s.pipe.readopen && !th.killed))
                                 then s.threads[k].(asleep := false) else s.threads[k]
  {
    hide Buffered, Count, PutAll;
    PutAllAppends(s.pipe, s.threads[t].task.addr[s.threads[t].task.i..]);
  }

  ghost predicate IsRun(ss: seq<System>, ls: seq<Label>) {
    |ss| == |ls| + 1 && forall i :: 0 <= i < |ls| ==> Step(ss[i], ls[i], ss[i + 1])
  }

  /** In every interleaving: the bytes read so far, then those in the pipe, are the bytes written so far; the count
      stays within the ring; and a writer asleep faces a full pipe that is still open for reading. */
  lemma {:induction false} RunOrder(ss: seq<System>, ls: seq<Label>, i: nat)
    requires IsRun(ss, ls) && Fresh(ss[0]) && i < |ss|
    ensures InOrder(ss[i]) && WritersOk(ss[i])
    decreases i
  {
    if i > 0 {
      RunOrder(ss, ls, i - 1);
      StepOrder(ss[i - 1], ls[i - 1], ss[i]);
    }
  }

  /** In every interleaving up to a write that leaves a full pipe while a reader sleeps, a reader asleep faces an
      empty pipe that is still open for writing. */
  lemma {:induction false} RunReaders(ss: seq<System>, ls: seq<Label>, i: nat)
    requires IsRun(ss, ls) && Fresh(ss[0]) && i < |ss|
    requires forall k :: 0 <= k < i ==> !(LeavesFull(ss[k], ls[k]) && ReaderAsleep(ss[k]))
    ensures ReadersOk(ss[i])
    decreases i
  {
    if i > 0 {
      RunReaders(ss, ls, i - 1);
      RunOrder(ss, ls, i - 1);
      StepReaders(ss[i - 1], ls[i - 1], ss[i]);
    }
  }

  /** Such a write does happen: a reader sleeps on an empty pipe, a killed writer stores 512 of 513 bytes and leaves. */
  lemma ReaderLeftAsleep(s: System, addr: seq<char>) returns (ss: seq<System>, ls: seq<Label>)
    requires Fresh(s) && |s.threads| == 2 && !s.threads[0].killed && s.threads[1].killed && |addr| == PIPESIZE + 1
    ensures IsRun(ss, ls) && ss[0] == s && |ls| == 4
    ensures var u := ss[4]; Full(u.pipe) && ReaderAsleep(u) && !ReadersOk(u)
  {
    hide PutAll, Buffered, Count;
    FullEmpty(s.pipe);
    var s1 := s.(threads := s.threads[0 := s.threads[0].(task := Reading(1))]);
    var s2 := AfterRead(s1, 0);
    var s3 := s2.(threads := s2.threads[1 := s2.threads[1].(task := Writing(addr, 0))]);
    var s4 := AfterWrite(s3, 1);
    ss, ls := [s, s1, s2, s3, s4], [StartRead(0, 1), ReadTurn(0), StartWrite(1, addr), WriteTurn(1)];
    assert s2.threads[0].asleep && s3.threads[0].asleep;
    WriteFacts(s3, 1);
    assert addr[0..] == addr;
    PutAllAppends(s3.pipe, addr);
    assert Step(s, ls[0], s1) && Step(s1, ls[1], s2) && Step(s2, ls[2], s3) && Step(s3, ls[3], s4);
    assert s4.threads[0] == s3.threads[0];
  }
}

/**
 The buffer cache (bio.c) over the memory disk (ide.c): a ring of NBUF buffers in
 order of last release, linked both ways through a head.

 `order`, `stamp`, `clock` and `edited` are ghost: the buffers from head.next on,
 when each was last released, and which held buffers differ from the disk.
 */
module BufferCache {
  import opened FsVolume

  const NBUF: nat := 10
  const HEAD: nat := 10
  const NODEV: int := -1

  /** A buffer index or the head. */
  type Link = n: nat | n <= HEAD

  datatype Buf = Buf(busy: bool, valid: bool, dirty: bool, dev: int, sector: nat, data: Block)

  datatype Got = Buffer(b: Link) | MustSleep(on: Link) | NoBuffers

  // ---- the ring ----

  /** Node `k` steps after the head, counting the head itself as -1 and as |order|. */
  function Node(order: seq<Link>, k: int): Link {
    if 0 <= k < |order| then order[k] else HEAD
  }

  ghost predicate Distinct(order: seq<Link>) {
    && (forall k :: 0 <= k < |order| ==> order[k] < NBUF)
    && (forall j, k :: 0 <= j < k < |order| ==> order[j] != order[k])
  }

  /** `next` goes through head and `order` and back, and `prev` is its inverse there. */
  ghost predicate Ring(order: seq<Link>, next: seq<Link>, prev: seq<Link>) {
    && |next| == |prev| == NBUF + 1 && Distinct(order)
    && (forall k :: -1 <= k < |order| ==> next[Node(order, k)] == Node(order, k + 1))
    && (forall k :: -1 <= k < |order| ==> prev[Node(order, k + 1)] == Node(order, k))
  }

  function Without(order: seq<Link>, k: nat): seq<Link>
    requires k < |order|
  {
    order[..k] + order[k + 1..]
  }

  /** Inserting behind the head. */
  lemma Pushed(order: seq<Link>, next: seq<Link>, prev: seq<Link>, b: Link)
    requires Ring(order, next, prev) && b < NBUF && b !in order
    ensures var next1, prev1 := next[b := next[HEAD]], prev[b := HEAD];
            Ring([b] + order, next1[HEAD := b], prev1[next1[HEAD] := b])
  {
    var next1, prev1 := next[b := next[HEAD]], prev[b := HEAD];
    var next2, prev2 := next1[HEAD := b], prev1[next1[HEAD] := b];
    var o := [b] + order;
    assert Node(order, -1) == HEAD && next[HEAD] == Node(order, 0);
    forall k | -1 <= k < |o|
      ensures next2[Node(o, k)] == Node(o, k + 1) && prev2[Node(o, k + 1)] == Node(o, k)
    {
      if k >= 1 {
        assert Node(o, k) == Node(order, k - 1) && Node(o, k + 1) == Node(order, k);
        assert next[Node(order, k - 1)] == Node(order, k) && prev[Node(order, k)] == Node(order, k - 1);
        assert Node(order, k) != Node(order, 0);
      }
    }
  }

  /** Taking a buffer out. */
  lemma Unlinked(order: seq<Link>, next: seq<Link>, prev: seq<Link>, k: nat)
    requires Ring(order, next, prev) && k < |order|
    ensures var b := order[k];
            Ring(Without(order, k), next[prev[b] := next[b]], prev[next[b] := prev[b]])
    ensures order[k] !in Without(order, k)
  {
    var b := order[k];
    var o := Without(order, k);
    var next1, prev1 := next[prev[b] := next[b]], prev[next[b] := prev[b]];
    assert Node(order, k) == b && next[b] == Node(order, k + 1) && prev[b] == Node(order, k - 1);
    forall j | -1 <= j < |o|
      ensures next1[Node(o, j)] == Node(o, j + 1) && prev1[Node(o, j + 1)] == Node(o, j)
    {
      if j < k - 1 {
        assert Node(o, j) == Node(order, j) && Node(o, j + 1) == Node(order, j + 1);
      } else if j == k - 1 {
        assert Node(o, j) == Node(order, j) && Node(o, j + 1) == Node(order, j + 2);
      } else {
        assert Node(o, j) == Node(order, j + 1) && Node(o, j + 1) == Node(order, j + 2);
      }
    }
  }

  /** The six assignments of a release, in order: out of its place and in behind the head. */
  lemma MovedToFront(order: seq<Link>, next: seq<Link>, prev: seq<Link>, k: nat)
    requires Ring(order, next, prev) && k < |order|
    ensures |next| == |prev| == NBUF + 1 && Distinct(order)
    ensures var b := order[k];
            var prev1 := prev[next[b] := prev[b]];
            var next1 := next[prev1[b] := next[b]];
            var next2 := next1[b := next1[HEAD]];
            var prev2 := prev1[b := HEAD];
            Ring([b] + Without(order, k), next2[HEAD := b], prev2[next2[HEAD] := b])
  {
    var b := order[k];
    Unlinked(order, next, prev, k);
    assert Node(order, k) == b && next[b] == Node(order, k + 1) != b;
    Pushed(Without(order, k), next[prev[b] := next[b]], prev[next[b] := prev[b]], b);
  }

  // ---- the cache ----

  /** Buffer `b` caches `sector` of device `dev`. */
  predicate Caches(buf: seq<Buf>, dev: int, b: nat, sector: nat) {
    b < |buf| && buf[b].dev == dev && buf[b].sector == sector
  }

  ghost predicate Uncached(buf: seq<Buf>, dev: int, sector: nat) {
    forall b :: 0 <= b < |buf| ==> !Caches(buf, dev, b, sector)
  }

  /** No sector is cached twice, and a loaded buffer holds its sector unless its holder has changed it. */
  ghost predicate Agrees(buf: seq<Buf>, disk: seq<Block>, dev: int, edited: set<Link>) {
    && |buf| == NBUF && dev != NODEV
    && (forall b, c :: 0 <= b < c < NBUF && buf[b].dev == dev == buf[c].dev ==> buf[b].sector != buf[c].sector)
    && (forall b :: 0 <= b < NBUF && buf[b].valid ==> buf[b].dev == dev && buf[b].sector < |disk|)
    && (forall b: Link :: b < NBUF && buf[b].valid && b !in edited ==> buf[b].data == disk[buf[b].sector])
    && (forall b: Link :: b in edited ==> b < NBUF && buf[b].busy)
    && (forall b :: 0 <= b < NBUF ==> !buf[b].dirty)
  }

  /** Buffers stand in the ring latest release first. */
  ghost predicate ByRelease(order: seq<Link>, stamp: seq<int>, clock: int)
    requires forall k :: 0 <= k < |order| ==> order[k] < |stamp|
  {
    && (forall j, k :: 0 <= j < k < |order| ==> stamp[order[j]] > stamp[order[k]])
    && (forall b :: 0 <= b < |stamp| ==> stamp[b] < clock)
  }

  /** Moving a buffer to the front, stamped with the time, keeps the ring in order of release. */
  lemma ReleasedFirst(order: seq<Link>, stamp: seq<int>, clock: int, k: nat)
    requires Distinct(order) && |stamp| == NBUF && k < |order| && ByRelease(order, stamp, clock)
    ensures var b := order[k];
            var o := [b] + Without(order, k);
            && Distinct(o) && ByRelease(o, stamp[b := clock], clock + 1)
            && forall c :: c in order ==> c in o
  {
    var b := order[k];
    var o := [b] + Without(order, k);
    forall c | c in order
      ensures c in o
    {
      var j :| 0 <= j < |order| && order[j] == c;
      if j < k {
        assert o[j + 1] == c;
      } else if j > k {
        assert o[j] == c;
      }
    }
  }

  /** Giving an idle buffer to a sector that is not cached. */
  lemma Recycled(buf: seq<Buf>, disk: seq<Block>, dev: int, edited: set<Link>, b: Link, sector: nat)
    requires Agrees(buf, disk, dev, edited) && b < NBUF && !buf[b].busy && Uncached(buf, dev, sector)
    ensures Agrees(buf[b := buf[b].(dev := dev, sector := sector, busy := true, valid := false, dirty := false)],
                   disk, dev, edited)
  {
    assert forall c :: 0 <= c < NBUF && buf[c].dev == dev ==> Caches(buf, dev, c, buf[c].sector);
  }

  /** Letting go of a buffer that has no unwritten changes. */
  lemma LetGo(buf: seq<Buf>, disk: seq<Block>, dev: int, edited: set<Link>, b: Link)
    requires Agrees(buf, disk, dev, edited) && b < NBUF && b !in edited
    ensures Agrees(buf[b := buf[b].(busy := false)], disk, dev, edited)
  {
  }

  class Cache {
    const dev: int
    var buf: seq<Buf>
    var next: seq<Link>
    var prev: seq<Link>
    var disk: seq<Block>
    ghost var order: seq<Link>
    ghost var stamp: seq<int>
    ghost var clock: int
    ghost var edited: set<Link>

    ghost predicate Linked()
      reads this
    {
      && Ring(order, next, prev) && |order| == NBUF && |buf| == |stamp| == NBUF
      && (forall b: Link :: b < NBUF ==> b in order)
    }

    ghost predicate Valid()
      reads this
    {
      Linked() && ByRelease(order, stamp, clock) && Agrees(buf, disk, dev, edited)
    }

    /** Link the buffers one by one behind the head. */
    constructor BInit(device: int, image: seq<Block>)
      requires device != NODEV
      ensures Valid() && dev == device && disk == image && edited == {}
      ensures forall b :: 0 <= b < NBUF ==> !buf[b].busy && !buf[b].valid
    {
      dev, disk := device, image;
      buf := seq(NBUF, _ => Buf(false, false, false, NODEV, 0, Zero()));
      next, prev := seq(NBUF + 1, _ => HEAD), seq(NBUF + 1, _ => HEAD);
      order, stamp, clock, edited := [], seq(NBUF, b => b), NBUF, {};
      new;
      var b := 0;
      while b < NBUF
        invariant 0 <= b <= NBUF && |order| == b
        invariant Ring(order, next, prev)
        invariant forall k :: 0 <= k < b ==> order[k] == b - 1 - k
        invariant buf == seq(NBUF, _ => Buf(false, false, false, NODEV, 0, Zero()))
        invariant stamp == seq(NBUF, b => b) && clock == NBUF && edited == {} && disk == image
      {
        Pushed(order, next, prev, b);
        next := next[b := next[HEAD]];
        prev := prev[b := HEAD];
        prev := prev[next[HEAD] := b];
        next := next[HEAD := b];
        order := [b] + order;
        b := b + 1;
      }
      forall c: Link | c < NBUF
        ensures c in order
      {
        assert order[NBUF - 1 - c] == c;
      }
    }

    /** Synchronise a held buffer with the disk: write it if dirty, else read it. */
    method IdeRW(b: Link)
      requires b < |buf| && buf[b].busy && (buf[b].dirty || !buf[b].valid) && buf[b].sector < |disk|
      modifies this`buf, this`disk
      ensures |disk| == |old(disk)| && |buf| == |old(buf)|
      ensures buf == old(buf)[b := buf[b]] && buf[b] == old(buf[b]).(valid := true, dirty := false, data := buf[b].data)
      ensures buf[b].data == disk[buf[b].sector]
      ensures if old(buf[b]).dirty then disk == old(disk)[buf[b].sector := old(buf[b]).data] else disk == old(disk)
    {
      if buf[b].dirty {
        disk := disk[buf[b].sector := buf[b].data];
      } else {
        buf := buf[b := buf[b].(data := disk[buf[b].sector])];
      }
      buf := buf[b := buf[b].(valid := true)];
      buf := buf[b := buf[b].(dirty := false)];
    }

    /** The buffer caching `sector`, if there is one: walk the ring forwards. */
    method Find(sector: nat) returns (b: Link)
      requires Valid()
      ensures b < NBUF ==> Caches(buf, dev, b, sector)
      ensures b == HEAD <==> Uncached(buf, dev, sector)
    {
      ghost var k := 0;
      b := next[HEAD];
      assert Node(order, -1) == HEAD;
      while b != HEAD
        invariant 0 <= k <= NBUF && b == Node(order, k)
        invariant forall j :: 0 <= j < k ==> !Caches(buf, dev, order[j], sector)
        decreases NBUF - k
      {
        if buf[b].dev == dev && buf[b].sector == sector {
          assert Caches(buf, dev, b, sector);
          return;
        }
        b := next[b];
        k := k + 1;
      }
      forall c: Link | c < NBUF
        ensures !Caches(buf, dev, c, sector)
      {
        assert c in order;
        var j :| 0 <= j < NBUF && order[j] == c;
      }
    }

    /** The idle buffer released longest ago: walk the ring backwards. */
    method Victim() returns (b: Link)
      requires Valid()
      ensures b < NBUF ==> !buf[b].busy && forall c :: 0 <= c < NBUF && !buf[c].busy ==> stamp[b] <= stamp[c]
      ensures b == HEAD <==> forall c :: 0 <= c < NBUF ==> buf[c].busy
    {
      ghost var k := NBUF - 1;
      b := prev[HEAD];
      assert Node(order, NBUF) == HEAD;
      while b != HEAD
        invariant -1 <= k < NBUF && b == Node(order, k)
        invariant forall j :: k < j < NBUF ==> buf[order[j]].busy
        decreases k
      {
        if !buf[b].busy {
          forall c: Link | c < NBUF && !buf[c].busy
            ensures stamp[b] <= stamp[c]
          {
            assert c in order;
            var j :| 0 <= j < NBUF && order[j] == c;
          }
          return;
        }
        b := prev[b];
        k := k - 1;
      }
      forall c: Link | c < NBUF
        ensures buf[c].busy
      {
        assert c in order;
        var j :| 0 <= j < NBUF && order[j] == c;
      }
    }

    /** A held buffer for `sector`. */
    method BGet(sector: nat) returns (r: Got)
      requires Valid()
      modifies this`buf
      ensures Valid()
      ensures r.Buffer? ==>
                && r.b < NBUF && !old(buf[r.b]).busy && buf[r.b].busy && Caches(buf, dev, r.b, sector)
                && buf == old(buf)[r.b := buf[r.b]]
                && if Caches(old(buf), dev, r.b, sector) then buf[r.b] == old(buf[r.b]).(busy := true)
                   else && !buf[r.b].valid && Uncached(old(buf), dev, sector)
                        && (forall c :: 0 <= c < NBUF && !old(buf[c]).busy ==> stamp[r.b] <= stamp[c])
      ensures r.MustSleep? ==> buf == old(buf) && Caches(buf, dev, r.on, sector) && buf[r.on].busy
      ensures r.NoBuffers? ==> buf == old(buf) && Uncached(buf, dev, sector)
      ensures r.NoBuffers? ==> forall c :: 0 <= c < NBUF ==> buf[c].busy
    {
      var b := Find(sector);
      if b != HEAD {
        if buf[b].busy {
          return MustSleep(b);
        }
        buf := buf[b := buf[b].(busy := true)];
        return Buffer(b);
      }
      b := Victim();
      if b == HEAD {
        return NoBuffers;
      }
      Recycled(buf, disk, dev, edited, b, sector);
      buf := buf[b := buf[b].(dev := dev, sector := sector, busy := true, valid := false, dirty := false)];
      r := Buffer(b);
    }

    /** A held buffer with the contents of `sector`, as a direct read of the disk would give. */
    method BRead(sector: nat) returns (r: Got)
      requires Valid() && sector < |disk|
      modifies this`buf, this`disk
      ensures Valid() && disk == old(disk)
      ensures r.Buffer? ==>
                && r.b < NBUF && !old(buf[r.b]).busy && buf == old(buf)[r.b := buf[r.b]]
                && Caches(buf, dev, r.b, sector) && buf[r.b].busy && buf[r.b].valid && r.b !in edited
                && buf[r.b].data == disk[sector]
      ensures !r.Buffer? ==> buf == old(buf)
      ensures r.MustSleep? ==> r.on < NBUF && buf[r.on].busy && Caches(buf, dev, r.on, sector)
      ensures r.NoBuffers? ==> forall c :: 0 <= c < NBUF ==> buf[c].busy
    {
      r := BGet(sector);
      if r.Buffer? {
        if !buf[r.b].valid {
          IdeRW(r.b);
        }
      }
    }

    /** The holder changes the data of its buffer. */
    method Edit(b: Link, data: Block)
      requires Valid() && b < NBUF && buf[b].busy
      modifies this`buf, this`edited
      ensures Valid() && edited == old(edited) + {b} && buf == old(buf)[b := old(buf[b]).(data := data)]
    {
      buf := buf[b := buf[b].(data := data)];
      edited := edited + {b};
    }

    /** Write a held buffer through to the disk. */
    method BWrite(b: Link)
      requires Valid() && b < NBUF && buf[b].busy && buf[b].dev == dev && buf[b].sector < |disk|
      modifies this`buf, this`disk, this`edited
      ensures Valid() && edited == old(edited) - {b}
      ensures disk == old(disk)[old(buf[b]).sector := old(buf[b]).data]
      ensures buf == old(buf)[b := old(buf[b]).(valid := true)]
    {
      buf := buf[b := buf[b].(dirty := true)];
      IdeRW(b);
      edited := edited - {b};
    }

    /** Let go of a buffer whose changes are on disk: it becomes the most recently used. */
    method BRelse(b: Link)
      requires Valid() && b < NBUF && buf[b].busy && b !in edited
      modifies this`buf, this`next, this`prev, this`order, this`stamp, this`clock
      ensures Valid()
      ensures buf == old(buf)[b := old(buf[b]).(busy := false)]
      ensures order[0] == b && stamp == old(stamp)[b := old(clock)] && clock == old(clock) + 1
      ensures exists k :: 0 <= k < NBUF && old(order)[k] == b && order == [b] + Without(old(order), k)
    {
      hide Ring, ByRelease, Agrees, Without;
      assert b in order;
      ghost var k :| 0 <= k < NBUF && order[k] == b;
      ReleaseTime(k);
      LetGo(buf, disk, dev, edited, b);
      Relink(b, k);
      order := [b] + Without(order, k);
      stamp, clock := stamp[b := clock], clock + 1;
      buf := buf[b := buf[b].(busy := false)];
    }

    /** One buffer is held, `h`; or none, `h` being the head. */
    ghost predicate OnlyHeld(h: Link)
      reads this
    {
      forall b :: 0 <= b < |buf| ==> (buf[b].busy <==> b == h)
    }

    /** Buffer `b` is held for `sector` and has what the disk has there. */
    ghost predicate Holding(b: Link, sector: nat)
      reads this
    {
      && b < |buf| && Caches(buf, dev, b, sector) && buf[b].busy && buf[b].valid && b !in edited
      && sector < |disk| && buf[b].data == disk[sector]
    }

    /** bread when at most `h`, a buffer of another sector, is held: there is a buffer and no need to sleep. */
    method Acquire(sector: nat, ghost h: Link) returns (b: Link)
      requires Valid() && OnlyHeld(h) && sector < |disk| && !Caches(buf, dev, h, sector)
      modifies this`buf, this`disk
      ensures Valid() && disk == old(disk) && b != h && Holding(b, sector)
      ensures forall c :: 0 <= c < |buf| && c != b ==> buf[c] == old(buf)[c]
    {
      hide Ring, ByRelease;
      var r := BRead(sector);
      assert !old(buf)[if h == 0 then 1 else 0].busy;
      b := r.b;
    }

    /** Change the data of a held buffer and write it through. */
    method Store(b: Link, data: Block)
      requires Valid() && b < NBUF && Holding(b, buf[b].sector)
      modifies this`buf, this`disk, this`edited
      ensures Valid() && Holding(b, old(buf[b].sector)) && disk == old(disk)[buf[b].sector := data]
      ensures edited == old(edited)
      ensures forall c :: 0 <= c < |buf| && c != b ==> buf[c] == old(buf)[c]
    {
      hide Ring, ByRelease;
      Edit(b, data);
      BWrite(b);
    }

    /** bread and brelse together are one read of the disk. */
    method ReadSector(sector: nat) returns (data: Block)
      requires Valid() && OnlyHeld(HEAD) && sector < |disk|
      modifies this
      ensures Valid() && OnlyHeld(HEAD) && disk == old(disk) && data == disk[sector]
    {
      hide Ring, ByRelease;
      var b := Acquire(sector, HEAD);
      data := buf[b].data;
      BRelse(b);
    }

    /** bread, a change of the data, bwrite and brelse together are one write of the disk, also beside a held buffer. */
    method WriteSector(sector: nat, data: Block, ghost h: Link)
      requires Valid() && OnlyHeld(h) && sector < |disk| && !Caches(buf, dev, h, sector)
      modifies this
      ensures Valid() && OnlyHeld(h) && disk == old(disk)[sector := data]
      ensures edited == old(edited) && (h < NBUF ==> buf[h] == old(buf[h]))
    {
      hide Ring, ByRelease;
      var b := Acquire(sector, h);
      Store(b, data);
      BRelse(b);
    }

    lemma ReleaseTime(k: nat)
      requires Valid() && k < NBUF
      ensures var b := order[k];
              var o := [b] + Without(order, k);
              && Distinct(o) && |o| == NBUF && ByRelease(o, stamp[b := clock], clock + 1)
              && forall c :: c in order ==> c in o
    {
      ReleasedFirst(order, stamp, clock, k);
    }

    /** Move the buffer at place `k` of the ring to the front. */
    method Relink(b: Link, ghost k: nat)
      requires Ring(order, next, prev) && k < |order| && order[k] == b
      modifies this`next, this`prev
      ensures Ring([b] + Without(order, k), next, prev)
    {
      hide Ring, Without;
      MovedToFront(order, next, prev, k);
      prev := prev[next[b] := prev[b]];
      next := next[prev[b] := next[b]];
      next := next[b := next[HEAD]];
      prev := prev[b := HEAD];
      prev := prev[next[HEAD] := b];
      next := next[HEAD := b];
    }
  }
}

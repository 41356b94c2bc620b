/**
 The block allocator, the inode cache and inode contents (fs.c).

 Blocks are read and written through the buffer cache.  There is one device.
 `blocks`, `cur` and `book` are ghost: the disk beneath the cache, the current inodes
 (the cached copy where there is one) and the owner of every block.
 */
module FileSystem {
  import opened Common
  import opened FsVolume
  import opened FsBytes
  import B = BufferCache

  const NINODE: nat := 50

  /** An entry of the inode cache; `d` is its copy of the disk inode. */
  datatype Inode = Inode(inum: nat, refs: nat, busy: bool, valid: bool, d: Dinode)

  function RoundUp(n: nat): nat {
    (n + BPB - 1) / BPB * BPB
  }

  ghost predicate Live(c: seq<Inode>, s: int) {
    0 <= s < |c| && c[s].refs > 0
  }

  /** Cache entry `s` is held, loaded and locked. */
  ghost predicate Locked(c: seq<Inode>, s: int) {
    Live(c, s) && c[s].busy && c[s].valid
  }

  ghost predicate LockHeld(c: seq<Inode>, i: nat) {
    exists s :: Locked(c, s) && c[s].inum == i
  }

  ghost predicate CacheShape(c: seq<Inode>, disk: seq<Dinode>, cur: seq<Dinode>) {
    && |c| == NINODE && |disk| == |cur|
    && (forall s :: Live(c, s) ==> c[s].inum < |cur|)
    && (forall s, t :: Live(c, s) && Live(c, t) && c[s].inum == c[t].inum ==> s == t)
  }

  /** Loaded entries hold the current inode, and the disk holds it too unless the entry is locked. */
  ghost predicate CacheAgrees(c: seq<Inode>, disk: seq<Dinode>, cur: seq<Dinode>)
    requires CacheShape(c, disk, cur)
  {
    && (forall s :: Live(c, s) && c[s].valid ==> c[s].d == cur[c[s].inum])
    && (forall i :: 0 <= i < |cur| && disk[i] != cur[i] ==> LockHeld(c, i))
  }

  /** The disk knows which inodes are in use, and only those are loaded or locked. */
  ghost predicate KindsAgree(c: seq<Inode>, disk: seq<Dinode>, cur: seq<Dinode>) {
    && |disk| == |cur|
    && (forall i :: 0 <= i < |cur| ==> disk[i].kind == cur[i].kind)
    && (forall s :: Live(c, s) && (c[s].valid || c[s].busy) && c[s].inum < |cur| ==> cur[c[s].inum].kind != 0)
  }

  /** Changing an inode, in memory and perhaps on disk, without its kind. */
  lemma KindsKept(c: seq<Inode>, disk: seq<Dinode>, cur: seq<Dinode>, s: int, d: Dinode, disk': seq<Dinode>)
    requires KindsAgree(c, disk, cur) && Live(c, s) && c[s].inum < |cur| && d.kind == cur[c[s].inum].kind
    requires disk' == disk || disk' == disk[c[s].inum := d]
    ensures KindsAgree(c[s := c[s].(d := d)], disk', cur[c[s].inum := d])
  {
    var c' := c[s := c[s].(d := d)];
    assert forall t :: Live(c', t) <==> Live(c, t);
  }

  /** Changing the inode held by a locked entry, in memory only, keeps the cache coherent. */
  lemma EditLocked(c: seq<Inode>, disk: seq<Dinode>, cur: seq<Dinode>, s: int, d: Dinode)
    requires CacheShape(c, disk, cur) && CacheAgrees(c, disk, cur) && Locked(c, s)
    ensures var c' := c[s := c[s].(d := d)];
            var cur' := cur[c[s].inum := d];
            CacheShape(c', disk, cur') && CacheAgrees(c', disk, cur') && Locked(c', s)
  {
    var c' := c[s := c[s].(d := d)];
    var cur' := cur[c[s].inum := d];
    assert forall t :: Live(c', t) <==> Live(c, t);
    assert forall t :: Locked(c', t) <==> Locked(c, t);
    assert CacheShape(c', disk, cur');
    forall i | 0 <= i < |cur'| && disk[i] != cur'[i]
      ensures LockHeld(c', i)
    {
      if i == c[s].inum {
        assert Locked(c', s);
      } else {
        assert LockHeld(c, i);
        var t :| Locked(c, t) && c[t].inum == i;
        assert Locked(c', t);
      }
    }
  }

  /** Dropping or adding references to an entry that stays in use. */
  lemma CountRef(c: seq<Inode>, disk: seq<Dinode>, cur: seq<Dinode>, s: int, n: nat)
    requires CacheShape(c, disk, cur) && CacheAgrees(c, disk, cur) && Live(c, s) && n > 0
    ensures var c' := c[s := c[s].(refs := n)]; CacheShape(c', disk, cur) && CacheAgrees(c', disk, cur)
  {
    var c' := c[s := c[s].(refs := n)];
    assert forall t :: Live(c', t) <==> Live(c, t);
    forall i | 0 <= i < |cur| && disk[i] != cur[i]
      ensures LockHeld(c', i)
    {
      assert LockHeld(c, i);
      var t :| Locked(c, t) && c[t].inum == i;
      assert Locked(c', t);
    }
  }

  /** Taking an unused entry for an inode that is not cached. */
  lemma FreshEntry(c: seq<Inode>, disk: seq<Dinode>, cur: seq<Dinode>, s: int, inum: nat)
    requires CacheShape(c, disk, cur) && CacheAgrees(c, disk, cur)
    requires 0 <= s < |c| && c[s].refs == 0 && inum < |cur|
    requires forall t :: Live(c, t) ==> c[t].inum != inum
    ensures var c' := c[s := c[s].(inum := inum, refs := 1, busy := false, valid := false)];
            CacheShape(c', disk, cur) && CacheAgrees(c', disk, cur)
  {
    var c' := c[s := c[s].(inum := inum, refs := 1, busy := false, valid := false)];
    assert forall t :: Live(c', t) <==> t == s || Live(c, t);
    forall i | 0 <= i < |cur| && disk[i] != cur[i]
      ensures LockHeld(c', i)
    {
      assert LockHeld(c, i);
      var t :| Locked(c, t) && c[t].inum == i;
      assert Locked(c', t);
    }
  }

  /** Locking an entry and loading it from disk when it is not loaded. */
  lemma LoadEntry(c: seq<Inode>, disk: seq<Dinode>, cur: seq<Dinode>, s: int)
    requires CacheShape(c, disk, cur) && CacheAgrees(c, disk, cur) && Live(c, s) && !c[s].busy
    ensures disk[c[s].inum] == cur[c[s].inum] && (c[s].valid ==> c[s].d == cur[c[s].inum])
    ensures var c' := c[s := c[s].(busy := true, valid := true, d := cur[c[s].inum])];
            CacheShape(c', disk, cur) && CacheAgrees(c', disk, cur)
  {
    var c' := c[s := c[s].(busy := true, valid := true, d := cur[c[s].inum])];
    assert forall t :: Live(c', t) <==> Live(c, t);
    assert !LockHeld(c, c[s].inum);
    forall i | 0 <= i < |cur| && disk[i] != cur[i]
      ensures LockHeld(c', i)
    {
      assert LockHeld(c, i);
      var t :| Locked(c, t) && c[t].inum == i;
      assert Locked(c', t);
    }
  }

  /** Unlocking an entry that agrees with the disk, and perhaps dropping it from the cache. */
  lemma Unlocked(c: seq<Inode>, disk: seq<Dinode>, cur: seq<Dinode>, s: int)
    requires CacheShape(c, disk, cur) && CacheAgrees(c, disk, cur) && Live(c, s)
    requires disk[c[s].inum] == cur[c[s].inum]
    ensures forall e: Inode {:trigger c[s := e]} ::
              e.inum == c[s].inum && (e.refs > 0 && e.valid ==> e.d == c[s].d && c[s].valid) ==>
              CacheShape(c[s := e], disk, cur) && CacheAgrees(c[s := e], disk, cur)
  {
    forall e: Inode | e.inum == c[s].inum && (e.refs > 0 && e.valid ==> e.d == c[s].d && c[s].valid)
      ensures CacheShape(c[s := e], disk, cur) && CacheAgrees(c[s := e], disk, cur)
    {
      var c' := c[s := e];
      assert forall t :: Live(c', t) ==> Live(c, t);
      forall i | 0 <= i < |cur| && disk[i] != cur[i]
        ensures LockHeld(c', i)
      {
        assert LockHeld(c, i);
        var t :| Locked(c, t) && c[t].inum == i;
        assert Locked(c', t);
      }
    }
  }

  /** Initialising, on disk, an inode that is not loaded. */
  lemma NewInode(c: seq<Inode>, disk: seq<Dinode>, cur: seq<Dinode>, i: nat, d: Dinode)
    requires CacheShape(c, disk, cur) && CacheAgrees(c, disk, cur) && i < |cur|
    requires forall s :: Live(c, s) && c[s].valid ==> c[s].inum != i
    ensures CacheShape(c, disk[i := d], cur[i := d]) && CacheAgrees(c, disk[i := d], cur[i := d])
  {
  }

  /** No cache entry has inode `i` and none is unused. */
  ghost predicate NoneFor(c: seq<Inode>, i: nat) {
    forall q :: 0 <= q < |c| ==> Live(c, q) && c[q].inum != i
  }

  /** What iget does to the cache: a reference more on the entry of the inode, or the first unused entry for it. */
  ghost predicate Got(c: seq<Inode>, c': seq<Inode>, inum: nat, r: Option<nat>) {
    match r
    case None => c' == c && NoneFor(c, inum)
    case Some(s) =>
      && Live(c', s) && c'[s].inum == inum && s < |c| && c' == c[s := c'[s]]
      && if Live(c, s) then c'[s] == c[s].(refs := c[s].refs + 1)
         else && c'[s].refs == 1 && !c'[s].valid && !c'[s].busy && (forall q :: 0 <= q < s ==> Live(c, q))
              && forall q :: Live(c, q) ==> c[q].inum != inum
  }

  /** What comes of locking an inode; NoType is a panic. */
  datatype Locking = GotLock | MustWait | NoType

  class Fs {
    const disk: B.Cache
    const nblocks: nat
    const ninodes: nat
    var bitmap: seq<bool>
    ghost var blocks: seq<Block>
    var dinodes: seq<Dinode>
    var icache: seq<Inode>
    ghost var cur: seq<Dinode>
    ghost var book: Book

    ghost function V(): Vol
      reads this
    {
      Vol(bitmap, blocks, cur)
    }

    ghost function Start(): nat {
      DataStart(nblocks, ninodes)
    }

    ghost predicate Coherent()
      reads this`icache, this`dinodes, this`cur
    {
      |cur| == ninodes && CacheShape(icache, dinodes, cur) && CacheAgrees(icache, dinodes, cur)
    }

    /** The cache is in order over the disk, with one buffer held, `h`, or none. */
    ghost predicate Cached(h: B.Link)
      reads this`blocks, disk
    {
      disk.Valid() && disk.OnlyHeld(h) && disk.disk == blocks
    }

    /** Buffer `h` alone is held, for block `a`, and has what the disk has there. */
    ghost predicate Held(h: B.Link, a: nat)
      reads this`blocks, disk
    {
      Cached(h) && disk.Holding(h, a)
    }

    ghost predicate Base()
      reads this, disk
    {
      && |blocks| == nblocks && |bitmap| == RoundUp(nblocks) && Cached(B.HEAD)
      && Coherent()
      && Inv(V(), book, Start())
    }

    ghost predicate Typed()
      reads this
    {
      KindsAgree(icache, dinodes, cur)
    }

    ghost predicate Valid()
      reads this, disk
    {
      Base() && AllRest(V(), book) && Typed()
    }

    /** Start from an image whose bitmap, inodes and blocks agree, with nothing cached. */
    constructor Mount(cache: B.Cache, bits: seq<bool>, table: seq<Dinode>, ghost k: Book)
      requires cache.Valid() && cache.OnlyHeld(B.HEAD) && |bits| == RoundUp(|cache.disk|)
      requires Inv(Vol(bits, cache.disk, table), k, DataStart(|cache.disk|, |table|))
      requires AllRest(Vol(bits, cache.disk, table), k)
      ensures Valid() && disk == cache && nblocks == |cache.disk| && ninodes == |table|
      ensures bitmap == bits && blocks == cache.disk && dinodes == table && cur == table && book == k
      ensures forall s :: 0 <= s < |icache| ==> icache[s].refs == 0
    {
      disk, nblocks, ninodes := cache, |cache.disk|, |table|;
      bitmap, blocks, dinodes := bits, cache.disk, table;
      icache := seq(NINODE, _ => Inode(0, 0, false, false, Dinode(0, 0, 0, 0, 0, seq(NDIRECT + 1, _ => 0))));
      cur, book := table, k;
    }

    /** The locked copy is the current inode, and at rest its block count fits its size. */
    lemma AtRest(s: nat)
      requires Valid() && Locked(icache, s)
      ensures var i := icache[s].inum;
              && i < ninodes && |book.count| == ninodes && icache[s].d == cur[i] && FileRest(V(), book, i)
              && cur[i].size <= MAXBYTES && book.count[i] == BlocksFor(cur[i].size)
    {
      assert FileRest(V(), book, icache[s].inum);
    }

    // ---- blocks ----

    /** Take the lowest clear bit, scanning whole bitmap blocks: a block past the end of the image when all in it
        are taken. */
    method BAlloc() returns (r: Option<nat>)
      requires |bitmap| == RoundUp(nblocks)
      modifies this`bitmap
      ensures LowestClear(old(bitmap), r)
      ensures bitmap == if r.Some? then old(bitmap)[r.value := true] else old(bitmap)
      ensures r.Some? ==> (r.value >= nblocks <==> FreeCount(old(bitmap), nblocks) == 0)
    {
      var b := 0;
      while b < nblocks
        invariant 0 <= b <= |bitmap| && b % BPB == 0
        invariant bitmap == old(bitmap)
        invariant forall c :: 0 <= c < b ==> bitmap[c]
      {
        var bi := 0;
        while bi < BPB
          invariant 0 <= bi <= BPB && b + BPB <= |bitmap|
          invariant bitmap == old(bitmap)
          invariant forall c :: 0 <= c < b + bi ==> bitmap[c]
        {
          if !bitmap[b + bi] {
            ClearPastEnd(bitmap, nblocks, b + bi);
            bitmap := bitmap[b + bi := true];
            return Some(b + bi);
          }
          bi := bi + 1;
        }
        b := b + BPB;
      }
      r := None;
    }

    /** `BAlloc`, where panicking or handing out a block past the end of the image counts as failure. */
    method TakeBlock() returns (b: nat, ok: bool)
      requires |bitmap| == RoundUp(nblocks)
      modifies this`bitmap
      ensures |bitmap| == |old(bitmap)|
      ensures ok <==> FreeCount(old(bitmap), nblocks) > 0
      ensures ok ==> b < nblocks && !old(bitmap)[b] && bitmap == old(bitmap)[b := true]
      ensures ok ==> forall c :: 0 <= c < b ==> old(bitmap)[c]
      ensures ok ==> FreeCount(bitmap, nblocks) == FreeCount(old(bitmap), nblocks) - 1
    {
      FreeCountZero(bitmap, nblocks);
      var r := BAlloc();
      ok := r.Some? && r.value < nblocks;
      b := if ok then r.value else 0;
      if ok {
        FreeCountTake(old(bitmap), nblocks, b);
      }
    }

    /** Read a block through the cache. */
    method ReadBlock(a: nat) returns (data: Block)
      requires Cached(B.HEAD) && a < |blocks|
      modifies disk
      ensures Cached(B.HEAD) && data == blocks[a]
    {
      data := disk.ReadSector(a);
    }

    /** Hold a block. */
    method HoldBlock(a: nat) returns (h: B.Link, data: Block)
      requires Cached(B.HEAD) && a < |blocks|
      modifies disk
      ensures Held(h, a) && data == blocks[a]
    {
      h := disk.Acquire(a, B.HEAD);
      data := disk.buf[h].data;
    }

    lemma HeldIsBuffer(h: B.Link, a: nat)
      requires Held(h, a)
      ensures h != B.HEAD
    {
    }

    /** Change a held block and write it through. */
    method StoreBlock(h: B.Link, a: nat, data: Block)
      requires Held(h, a)
      modifies this`blocks, disk
      ensures a < |old(blocks)| && Held(h, a) && blocks == old(blocks)[a := data]
    {
      disk.Store(h, data);
      blocks := disk.disk;
    }

    /** Let go of a held block. */
    method LetGo(h: B.Link, a: nat)
      requires Held(h, a)
      modifies disk
      ensures Cached(B.HEAD)
    {
      disk.BRelse(h);
    }

    /** Copy `chunk` into a block through the cache. */
    method PatchBlock(a: nat, at: nat, chunk: seq<Byte>)
      requires Cached(B.HEAD) && a < |blocks| && at + |chunk| <= BSIZE
      modifies this`blocks, disk
      ensures Cached(B.HEAD) && blocks == old(blocks)[a := Patched(old(blocks[a]), at, chunk)]
    {
      hide Cached, Held;
      var h, data := HoldBlock(a);
      StoreBlock(h, a, Patched(data, at, chunk));
      LetGo(h, a);
    }

    /** Zero a block, through the cache, and clear its bit, which must be set. Buffer `h` may be held meanwhile for
        another block, `a`. */
    method BFree(b: nat, ghost h: B.Link, ghost a: nat)
      requires (if h == B.HEAD then Cached(h) else Held(h, a) && a != b) && b < |blocks| && b < |bitmap| && bitmap[b]
      modifies this`bitmap, this`blocks, disk
      ensures if h == B.HEAD then Cached(h) else Held(h, a)
      ensures blocks == old(blocks)[b := Zero()] && bitmap == old(bitmap)[b := false]
    {
      disk.WriteSector(b, Zero(), h);
      blocks := disk.disk;
      bitmap := bitmap[b := false];
    }

    // ---- inode contents ----

    /** What mapping block `bn` of file `i` must give: nothing changes if the block is there, else the file grows by
        it. */
    ghost predicate Mapped(v: Vol, k: Book, i: nat, bn: nat, addr: nat)
      reads this
      requires Inv(v, k, Start()) && nblocks <= |v.bitmap| && nblocks <= |bitmap|
    {
      && i < |v.nodes| == |cur| && bn < MAXFILE
      && cur == v.nodes[i := v.nodes[i].(addrs := cur[i].addrs)]
      && addr == RefAddr(blocks, cur[i], bn) < nblocks
      && if bn < k.count[i] then V() == v && book == k
         else && Grown(v, k, V(), book, Start(), i)
              && FreeCount(bitmap, nblocks) == FreeCount(v.bitmap, nblocks) - (Taken(bn + 1) - Taken(bn))
    }

    /** Address of block `bn` of the file, allocating it when the file ends just before it. */
    method BMap(s: nat, bn: nat) returns (addr: nat, ok: bool)
      requires Base() && Locked(icache, s)
      requires bn < MAXFILE && bn <= book.count[icache[s].inum]
      modifies this`bitmap, this`blocks, this`icache, this`cur, this`book, disk
      ensures ok <==> bn < old(book.count[icache[s].inum]) ||
                      FreeCount(old(bitmap), nblocks) >= Taken(bn + 1) - Taken(bn)
      ensures ok ==> Base() && Mapped(old(V()), old(book), old(icache[s].inum), bn, addr)
      ensures ok ==> icache == old(icache)[s := old(icache[s]).(d := cur[old(icache[s].inum)])]
    {
      if bn < NDIRECT {
        addr, ok := BMapDirect(s, bn);
      } else {
        addr, ok := BMapIndirect(s, bn);
      }
    }

    /** `BMap` on a direct block. */
    method BMapDirect(s: nat, bn: nat) returns (addr: nat, ok: bool)
      requires Base() && Locked(icache, s)
      requires bn < NDIRECT && bn <= book.count[icache[s].inum]
      modifies this`bitmap, this`icache, this`cur, this`book
      ensures ok <==> bn < old(book.count[icache[s].inum]) || FreeCount(old(bitmap), nblocks) >= 1
      ensures ok ==> Base() && Mapped(old(V()), old(book), old(icache[s].inum), bn, addr)
      ensures ok ==> icache == old(icache)[s := old(icache[s]).(d := cur[old(icache[s].inum)])]
    {
      ghost var i := icache[s].inum;
      ghost var v, k := V(), book;
      assert RefOk(v, k, i, bn) && OwnerOk(v, k, Start(), 0);
      addr, ok := icache[s].d.addrs[bn], true;
      if addr == 0 {
        addr, ok := TakeBlock();
        if !ok {
          return;
        }
        assert OwnerOk(v, k, Start(), addr);
        EditLocked(icache, dinodes, cur, s, icache[s].d.(addrs := icache[s].d.addrs[bn := addr]));
        icache := icache[s := icache[s].(d := icache[s].d.(addrs := icache[s].d.addrs[bn := addr]))];
        cur := cur[i := icache[s].d];
        ghost var w;
        w, book := LinkDirect(v, k, Start(), i, addr);
      }
    }

    /** Address of the indirect block of a file that has none or is past its direct blocks. */
    method IndirectBlock(s: nat) returns (a: nat, ok: bool)
      requires Base() && Locked(icache, s) && NDIRECT <= book.count[icache[s].inum]
      modifies this`bitmap, this`icache, this`cur
      ensures |bitmap| == |old(bitmap)| && Coherent()
      ensures ok ==> icache == old(icache)[s := old(icache[s]).(d := cur[old(icache[s].inum)])]
      ensures ok <==> book.count[old(icache[s].inum)] > NDIRECT || FreeCount(old(bitmap), nblocks) >= 1
      ensures ok && book.count[old(icache[s].inum)] > NDIRECT ==>
                && bitmap == old(bitmap) && cur == old(cur)
                && a == cur[icache[s].inum].addrs[NDIRECT] < nblocks
      ensures ok && book.count[old(icache[s].inum)] == NDIRECT ==>
                var i := old(icache[s].inum);
                var d := old(cur[i]).(addrs := old(cur[i]).addrs[NDIRECT := a]);
                && a < nblocks && book.owner[a] == Free && blocks[a] == Zero()
                && bitmap == old(bitmap)[a := true] && cur == old(cur)[i := d]
                && FreeCount(bitmap, nblocks) == FreeCount(old(bitmap), nblocks) - 1
    {
      ghost var i := icache[s].inum;
      assert RefOk(V(), book, i, INDIRECT) && OwnerOk(V(), book, Start(), 0);
      a, ok := icache[s].d.addrs[NDIRECT], true;
      if a == 0 {
        ghost var v := V();
        a, ok := TakeBlock();
        if !ok {
          return;
        }
        assert OwnerOk(v, book, Start(), a);
        EditLocked(icache, dinodes, cur, s, icache[s].d.(addrs := icache[s].d.addrs[NDIRECT := a]));
        icache := icache[s := icache[s].(d := icache[s].d.(addrs := icache[s].d.addrs[NDIRECT := a]))];
        cur := cur[i := icache[s].d];
      }
    }

    lemma InTable(s: nat)
      requires Coherent() && Live(icache, s)
      ensures icache[s].inum < |cur| == ninodes
    {
    }

    /** `BMap` through the indirect block. */
    method BMapIndirect(s: nat, bn: nat) returns (addr: nat, ok: bool)
      requires Base() && Locked(icache, s)
      requires NDIRECT <= bn < MAXFILE && bn <= book.count[icache[s].inum]
      modifies this`bitmap, this`blocks, this`icache, this`cur, this`book, disk
      ensures ok <==> bn < old(book.count[icache[s].inum]) ||
                      FreeCount(old(bitmap), nblocks) >= Taken(bn + 1) - Taken(bn)
      ensures ok ==> Base() && Mapped(old(V()), old(book), old(icache[s].inum), bn, addr)
      ensures ok ==> icache == old(icache)[s := old(icache[s]).(d := cur[old(icache[s].inum)])]
    {
      hide RefsOk, OwnersOk, OwnerOk, RefOk, Word, FreeCount, Cached, Held, Coherent, RefAddr, PutWord, OthersSame,
           FileBlock;
      InTable(s);
      ghost var i := icache[s].inum;
      ghost var v, k := V(), book;
      addr := 0;
      var a;
      a, ok := IndirectBlock(s);
      if !ok {
        return;
      }
      var h, bp := HoldBlock(a);
      addr := Word(bp, bn - NDIRECT);
      EntryOfIndirect(v, k, Start(), i, bn, a, blocks[a]);
      if addr == 0 {
        addr, ok := TakeBlock();
        if !ok {
          return;
        }
        ClearIsFree(v, k, Start(), addr);
        StoreBlock(h, a, PutWord(bp, bn - NDIRECT, addr));
        ghost var w;
        w, book := LinkPastDirect(v, k, Start(), i, a, addr);
        assert V() == w;
      } else {
        assert V() == v;
      }
      LetGo(h, a);
      assert addr == RefAddr(blocks, cur[i], bn);
    }

    /** Copy the locked inode, which may have changed, to disk. */
    method IUpdate(s: nat)
      requires Coherent() && Live(icache, s) && icache[s].valid
      modifies this`dinodes
      ensures dinodes == old(dinodes)[icache[s].inum := cur[icache[s].inum]]
      ensures Coherent()
    {
      dinodes := dinodes[icache[s].inum := icache[s].d];
    }

    /** Change fields of a locked inode and write it out. */
    method SetInode(s: nat, d: Dinode)
      requires Coherent() && Locked(icache, s)
      modifies this`icache, this`cur, this`dinodes
      ensures Coherent()
      ensures icache == old(icache)[s := old(icache[s]).(d := d)]
      ensures cur == old(cur)[old(icache[s].inum) := d] && dinodes == old(dinodes)[old(icache[s].inum) := d]
    {
      EditLocked(icache, dinodes, cur, s, d);
      cur := cur[icache[s].inum := d];
      icache := icache[s := icache[s].(d := d)];
      IUpdate(s);
    }

    /** `BMap` on a block the file has: nothing changes. */
    method BMapPresent(s: nat, bn: nat) returns (addr: nat)
      requires Base() && Locked(icache, s) && bn < book.count[icache[s].inum]
      modifies this`bitmap, this`blocks, this`icache, this`cur, this`book, disk
      ensures Base() && V() == old(V()) && book == old(book) && icache == old(icache)
      ensures bn < MAXFILE && addr < nblocks && blocks[addr] == FileBlock(V(), icache[s].inum, bn)
    {
      var ok;
      addr, ok := BMap(s, bn);
      assert icache[s] == old(icache[s]);
    }

    /** The part of a file within one of its blocks. */
    method ReadChunk(s: nat, at: nat, m: nat) returns (part: seq<Byte>)
      requires Base() && Locked(icache, s) && FileRest(V(), book, icache[s].inum)
      requires 0 < m && at + m <= cur[icache[s].inum].size && at % BSIZE + m <= BSIZE
      modifies this`bitmap, this`blocks, this`icache, this`cur, this`book, disk
      ensures Base() && V() == old(V()) && book == old(book) && icache == old(icache)
      ensures part == Contents(V(), icache[s].inum)[at..at + m]
    {
      hide RefsOk, OwnersOk, CacheAgrees, FileByte, Cached, Contents, FileBlock;
      SliceOfBlock(V(), icache[s].inum, at, m);
      var addr := BMapPresent(s, at / BSIZE);
      var b := ReadBlock(addr);
      part := b[at % BSIZE..at % BSIZE + m];
    }

    /** Read up to `n` bytes at `off`: the slice of the contents, cut at the end of the file. */
    method ReadI(s: nat, off: nat, n: nat) returns (r: int, dst: seq<Byte>)
      requires Valid() && Locked(icache, s) && icache[s].d.kind != T_DEV
      requires off < UINT && n < UINT
      modifies this`bitmap, this`blocks, this`icache, this`cur, this`book, disk
      ensures Valid() && V() == old(V()) && book == old(book) && icache == old(icache)
      ensures r == -1 <==> off > cur[icache[s].inum].size || off + n >= UINT
      ensures r == -1 ==> dst == []
      ensures r != -1 ==>
                var data := Contents(V(), icache[s].inum);
                dst == data[off..Min(off + n, |data|)] && r == |dst|
    {
      hide Inv, CacheAgrees, RestExcept, Cached, Contents, FileRest;
      ghost var i := icache[s].inum;
      AtRest(s);
      dst := [];
      if off > icache[s].d.size || off + n >= UINT {
        return -1, dst;
      }
      var len := if off + n > icache[s].d.size then icache[s].d.size - off else n;
      ghost var data := Contents(V(), i);
      var tot, at := 0, off;
      while tot < len
        invariant 0 <= tot <= len && at == off + tot <= |data|
        invariant Base() && V() == old(V()) && book == old(book) && icache == old(icache)
        invariant dst == data[off..at]
      {
        var m := Min(len - tot, BSIZE - at % BSIZE);
        SlicesJoin(data, off, at, at + m);
        var part := ReadChunk(s, at, m);
        dst := dst + part;
        tot, at := tot + m, at + m;
      }
      r := len;
    }

    /** The free blocks suffice to bring a file from `size` bytes to at least `end`. */
    ghost predicate Enough(bits: seq<bool>, size: nat, end: nat)
      requires nblocks <= |bits|
    {
      FreeCount(bits, nblocks) >= More(size, end)
    }

    /** One round of the write loop: map the block at the end of what is stored so far and copy a chunk into it. */
    method WriteChunk(s: nat, at: nat, chunk: seq<Byte>, ghost v: Vol, ghost k: Book, ghost off: nat,
                      ghost done: seq<Byte>)
      returns (ok: bool)
      requires Base() && Locked(icache, s)
      requires at == off + |done| < MAXBYTES && 0 < |chunk| <= BSIZE - at % BSIZE
      requires Written(v, k, V(), book, icache[s].inum, off, done)
      requires book.count[icache[s].inum] == Max(k.count[icache[s].inum], BlocksFor(at))
      modifies this`bitmap, this`blocks, this`icache, this`cur, this`book, disk
      ensures ok <==> FreeCount(old(bitmap), nblocks) >=
                      Taken(Max(old(book.count[icache[s].inum]), BlocksFor(at + |chunk|)))
                      - Taken(old(book.count[icache[s].inum]))
      ensures ok ==> Base() && Written(v, k, V(), book, old(icache[s].inum), off, done + chunk)
      ensures ok ==> icache == old(icache)[s := old(icache[s]).(d := cur[old(icache[s].inum)])]
      ensures ok ==> book.count[old(icache[s].inum)] == Max(old(book.count[icache[s].inum]), BlocksFor(at + |chunk|))
      ensures ok ==> FreeCount(bitmap, nblocks) == FreeCount(old(bitmap), nblocks)
                     - (Taken(book.count[old(icache[s].inum)]) - Taken(old(book.count[icache[s].inum])))
    {
      hide RefsOk, OwnersOk, OwnerOk, RefOk, OthersSame, CacheAgrees, FileByte, Word, FreeCount, Cached;
      ghost var i := icache[s].inum;
      ghost var v1, k1 := V(), book;
      ChunkCount(at, |chunk|, k1.count[i]);
      var addr;
      addr, ok := BMap(s, at / BSIZE);
      if !ok {
        return;
      }
      ghost var v2 := V();
      if at / BSIZE == k1.count[i] {
        GrownKeepsWritten(v, k, v1, k1, v2, book, Start(), i, off, done);
      }
      ghost var v3 := StoreData(v2, book, Start(), i, at / BSIZE, Patched(blocks[addr], at % BSIZE, chunk));
      PatchBlock(addr, at % BSIZE, chunk);
      ChunkKeepsWritten(v, k, v2, book, v3, i, off, done, chunk);
    }

    /** The write loop: store all of `data` at `off`, block by block, leaving the size field alone. */
    method WriteBlocks(s: nat, data: seq<Byte>, off: nat) returns (ok: bool)
      requires Valid() && Locked(icache, s)
      requires off <= cur[icache[s].inum].size && off + |data| <= MAXBYTES
      modifies this`bitmap, this`blocks, this`icache, this`cur, this`book, disk
      ensures ok <==> Enough(old(bitmap), old(cur[icache[s].inum]).size, off + |data|)
      ensures ok ==> Base() && Written(old(V()), old(book), V(), book, old(icache[s].inum), off, data)
      ensures ok ==> icache == old(icache)[s := old(icache[s]).(d := cur[old(icache[s].inum)])]
      ensures ok ==> book.count[old(icache[s].inum)] == Max(old(book.count[icache[s].inum]), BlocksFor(off + |data|))
      ensures ok ==> FreeCount(bitmap, nblocks) == FreeCount(old(bitmap), nblocks)
                                                   - More(old(cur[icache[s].inum]).size, off + |data|)
    {
      hide RefsOk, OwnersOk, OwnerOk, RefOk, CacheAgrees, RestExcept, Taken, Written, FreeCount, Cached;
      ghost var i := icache[s].inum;
      ghost var v, k := V(), book;
      AtRest(s);
      NothingWritten(v, k, i, off);
      ok := true;
      var tot := 0;
      assert data[..0] == [];
      while tot < |data|
        invariant 0 <= tot <= |data|
        invariant Base() && Written(v, k, V(), book, i, off, data[..tot])
        invariant book.count[i] == Max(k.count[i], BlocksFor(off + tot))
        invariant icache == old(icache)[s := old(icache[s]).(d := cur[i])]
        invariant FreeCount(bitmap, nblocks) ==
                    FreeCount(v.bitmap, nblocks) - (Taken(book.count[i]) - Taken(k.count[i]))
      {
        var m := Min(|data| - tot, BSIZE - (off + tot) % BSIZE);
        var chunk := data[tot..tot + m];
        SlicesJoin(data, 0, tot, tot + m);
        RoundCounts(k.count[i], off + tot, m, off + |data|);
        ok := WriteChunk(s, off + tot, chunk, v, k, off, data[..tot]);
        if !ok {
          return;
        }
        tot := tot + m;
      }
      assert data[..tot] == data;
    }

    /** Write `src` at `off`, which may not lie past the end of the file. */
    method WriteI(s: nat, src: seq<Byte>, off: nat) returns (r: int, ok: bool)
      requires Valid() && Locked(icache, s) && icache[s].d.kind != 0 && icache[s].d.kind != T_DEV
      requires off < UINT && |src| < UINT
      modifies this, disk
      ensures r == if off > old(cur[icache[s].inum]).size || off + |src| >= UINT then -1 else Min(|src|, MAXBYTES - off)
      ensures r == -1 ==> ok && V() == old(V()) && book == old(book) && icache == old(icache) && dinodes == old(dinodes)
      ensures r != -1 ==> (ok <==> Enough(old(bitmap), old(cur[icache[s].inum]).size, off + r))
      ensures ok ==> Valid()
      ensures ok && r != -1 ==>
                FreeCount(bitmap, nblocks) == FreeCount(old(bitmap), nblocks)
                                              - More(old(cur[icache[s].inum]).size, off + r)
      ensures ok && r != -1 ==>
                var i := old(icache[s].inum);
                && 0 <= r <= |src|
                && Contents(V(), i) == Splice(old(Contents(V(), icache[s].inum)), off, src[..r])
                && icache == old(icache)[s := old(icache[s]).(d := cur[i])]
                && cur[i] == old(cur[icache[s].inum]).(size := cur[i].size, addrs := cur[i].addrs)
                && (if off + r > old(cur[icache[s].inum]).size then dinodes == old(dinodes)[i := cur[i]]
                    else dinodes == old(dinodes) && cur == old(cur))
      ensures ok ==> forall j :: 0 <= j < ninodes && j != old(icache[s].inum) ==>
                       cur[j] == old(cur[j]) && Contents(V(), j) == old(Contents(V(), j))
    {
      hide RefsOk, OwnersOk, FileByte, Coherent, FreeCount, Contents, Splice, RestExcept, More, OthersSame, KindsAgree,
           Cached, FileRest;
      InTable(s);
      ghost var i := icache[s].inum;
      ghost var v, k := V(), book;
      AtRest(s);
      r, ok := -1, true;
      if off > icache[s].d.size || off + |src| >= UINT {
        return;
      }
      r := if off + |src| > MAXBYTES then MAXBYTES - off else |src|;
      ok := WriteBlocks(s, src[..r], off);
      if !ok {
        return;
      }
      ghost var v4 := V();
      if r > 0 && off + r > icache[s].d.size {
        SetInode(s, icache[s].d.(size := off + r));
      }
      WriteDone(v, k, v4, book, V(), Start(), i, off, src[..r]);
      assert cur == old(cur)[i := cur[i]];
      assert icache == old(icache)[s := old(icache[s]).(d := cur[i])];
      KindsKept(old(icache), old(dinodes), old(cur), s, cur[i], dinodes);
    }

    // ---- truncation ----

    /** Free what reference slot `n` of the file refers to, if anything, on top of the slots below it. */
    method FreeSlot(b: nat, ghost h: B.Link, ghost a: nat, ghost v: Vol, ghost k: Book, ghost i: nat, ghost n: nat)
      requires if h == B.HEAD then Cached(h) else Held(h, a) && a != b
      requires Inv(v, k, Start()) && |v.blocks| == nblocks && |v.bitmap| == RoundUp(nblocks)
      requires i < |v.nodes| && n <= INDIRECT && b == RefAddr(v.blocks, v.nodes[i], n)
      requires FreedBelow(v, k, V(), i, n)
      modifies this`bitmap, this`blocks, disk
      ensures FreedBelow(v, k, V(), i, n + 1)
      ensures if h == B.HEAD then Cached(h) else Held(h, a)
    {
      hide Cached, Held;
      FreeOneMore(v, k, V(), Start(), i, n);
      if b != 0 {
        BFree(b, h, a);
      } else {
        assert OwnerOk(v, k, Start(), 0) && RefOk(v, k, i, n);
      }
    }

    /** Discard the contents of a locked inode, freeing all its blocks. */
    method ITrunc(s: nat)
      requires Valid() && Locked(icache, s)
      modifies this, disk
      ensures Valid()
      ensures var i := old(icache[s].inum);
              && cur == old(cur)[i := Emptied(old(cur[i]))] && dinodes == old(dinodes)[i := cur[i]]
              && icache == old(icache)[s := old(icache[s]).(d := cur[i])]
              && book == ReleasedBook(old(book), i)
      ensures forall j :: 0 <= j < ninodes ==>
                Contents(V(), j) == if j == old(icache[s].inum) then [] else old(Contents(V(), j))
    {
      hide Inv, FileByte, CacheAgrees, Word, Contents, RestExcept, KindsAgree, Cached;
      ghost var i := icache[s].inum;
      ghost var v, k := V(), book;
      AtRest(s);
      FreeDirect(s, v, k);
      FreeIndirect(icache[s].d.addrs[NDIRECT], v, k, i);
      icache := icache[s := icache[s].(d := icache[s].d.(addrs := icache[s].d.addrs[NDIRECT := 0], size := 0))];
      assert icache[s].d == Emptied(v.nodes[i]);
      assert icache == old(icache)[s := old(icache[s]).(d := Emptied(v.nodes[i]))];
      EditLocked(old(icache), dinodes, cur, s, Emptied(v.nodes[i]));
      cur := cur[i := icache[s].d];
      book := ReleasedBook(k, i);
      TruncDone(v, k, V(), Start(), i);
      IUpdate(s);
      KindsKept(old(icache), old(dinodes), old(cur), s, Emptied(v.nodes[i]), dinodes);
    }

    /** The first half of truncation: the direct blocks, clearing their addresses in memory. */
    method FreeDirect(s: nat, ghost v: Vol, ghost k: Book)
      requires Inv(v, k, Start()) && |v.blocks| == nblocks && |v.bitmap| == RoundUp(nblocks) && v == V()
      requires s < |icache| && icache[s].inum < |v.nodes| && icache[s].d == v.nodes[icache[s].inum] && Cached(B.HEAD)
      modifies this`bitmap, this`blocks, this`icache, disk
      ensures FreedBelow(v, k, V(), old(icache[s].inum), NDIRECT) && Cached(B.HEAD)
      ensures |icache| == |old(icache)| && icache == old(icache)[s := old(icache[s]).(d := icache[s].d)]
      ensures icache[s].d == old(icache[s].d).(addrs := icache[s].d.addrs)
      ensures forall r :: 0 <= r <= NDIRECT ==>
                icache[s].d.addrs[r] == if r < NDIRECT then 0 else old(icache[s].d).addrs[r]
    {
      hide RefsOk, OwnersOk, OwnerOk, RefOk, Word, Present, Cached, Held;
      ghost var i := icache[s].inum;
      var n := 0;
      while n < NDIRECT
        invariant 0 <= n <= NDIRECT
        invariant |icache| == |old(icache)| && icache == old(icache)[s := old(icache[s]).(d := icache[s].d)]
        invariant icache[s].d == v.nodes[i].(addrs := icache[s].d.addrs)
        invariant forall r :: 0 <= r <= NDIRECT ==> icache[s].d.addrs[r] == if r < n then 0 else v.nodes[i].addrs[r]
        invariant FreedBelow(v, k, V(), i, n) && Cached(B.HEAD)
      {
        FreeSlot(icache[s].d.addrs[n], B.HEAD, 0, v, k, i, n);
        icache := icache[s := icache[s].(d := icache[s].d.(addrs := icache[s].d.addrs[n := 0]))];
        n := n + 1;
      }
    }

    /** The second half of truncation: the blocks listed in the indirect block `a`, then `a` itself. */
    method FreeIndirect(a: nat, ghost v: Vol, ghost k: Book, ghost i: nat)
      requires Inv(v, k, Start()) && |v.blocks| == nblocks && |v.bitmap| == RoundUp(nblocks)
      requires i < |v.nodes| && a == v.nodes[i].addrs[NDIRECT]
      requires FreedBelow(v, k, V(), i, NDIRECT) && Cached(B.HEAD)
      modifies this`bitmap, this`blocks, disk
      ensures FreedBelow(v, k, V(), i, INDIRECT + 1) && Cached(B.HEAD)
    {
      hide RefsOk, OwnersOk, OwnerOk, RefOk, Word, Present, Cached, Held;
      if a == 0 {
        NothingPastDirect(v, k, V(), Start(), i);
        return;
      }
      ThroughIndirect(v, k, Start(), i);
      IndirectKept(v, k, V(), Start(), i);
      var h, bp := HoldBlock(a);
      HeldIsBuffer(h, a);
      var j := 0;
      while j < NINDIRECT
        invariant 0 <= j <= NINDIRECT
        invariant FreedBelow(v, k, V(), i, NDIRECT + j)
        invariant Held(h, a)
      {
        NotIndirect(v, k, Start(), i, j);
        FreeSlot(Word(bp, j), h, a, v, k, i, NDIRECT + j);
        j := j + 1;
      }
      LetGo(h, a);
      FreeSlot(a, B.HEAD, 0, v, k, i, INDIRECT);
    }

    // ---- the inode cache ----

    /** A reference to inode `inum`: the entry that has it, else the first unused one. */
    method IGet(inum: nat) returns (r: Option<nat>)
      requires Valid() && inum < ninodes
      modifies this`icache
      ensures Valid() && Got(old(icache), icache, inum, r)
    {
      hide Inv, RestExcept, CacheAgrees, Cached;
      var found, empty := FindEntry(inum);
      if found.Some? {
        var t := found.value;
        CountRef(icache, dinodes, cur, t, icache[t].refs + 1);
        icache := icache[t := icache[t].(refs := icache[t].refs + 1)];
        return found;
      }
      r := empty;
      if empty.Some? {
        FreshEntry(icache, dinodes, cur, empty.value, inum);
        icache := icache[empty.value := icache[empty.value].(inum := inum, refs := 1, busy := false, valid := false)];
      }
    }

    /** The entry in use for `inum`, or failing that the first unused entry. */
    method FindEntry(inum: nat) returns (found: Option<nat>, empty: Option<nat>)
      ensures found.Some? ==> Live(icache, found.value) && icache[found.value].inum == inum
      ensures found.None? ==> forall t :: Live(icache, t) ==> icache[t].inum != inum
      ensures found.None? && empty.Some? ==> empty.value < |icache| && icache[empty.value].refs == 0
      ensures found.None? && empty.Some? ==> forall t :: 0 <= t < empty.value ==> Live(icache, t)
      ensures found.None? && empty.None? ==> forall t :: 0 <= t < |icache| ==> Live(icache, t)
    {
      empty := None;
      var t := 0;
      while t < |icache|
        invariant 0 <= t <= |icache|
        invariant forall q :: 0 <= q < t && icache[q].refs > 0 ==> icache[q].inum != inum
        invariant empty.Some? ==> empty.value < |icache| && icache[empty.value].refs == 0
        invariant forall q :: 0 <= q < (if empty.Some? then empty.value else t) ==> icache[q].refs > 0
      {
        if icache[t].refs > 0 && icache[t].inum == inum {
          return Some(t), empty;
        }
        if empty.None? && icache[t].refs == 0 {
          empty := Some(t);
        }
        t := t + 1;
      }
      found := None;
    }

    /** Lock an entry, loading it if need be: what it then holds is the current inode, however often it was dropped
        before. An entry that is locked already is to be waited for; a free inode is a panic. */
    method ILock(s: nat) returns (r: Locking)
      requires Valid() && Live(icache, s)
      modifies this`icache
      ensures r == if old(icache[s]).busy then MustWait
                   else if old(cur[icache[s].inum]).kind == 0 then NoType else GotLock
      ensures r != NoType ==> Valid()
      ensures r == MustWait ==> icache == old(icache)
      ensures r == GotLock ==>
                && Locked(icache, s)
                && icache == old(icache)[s := old(icache[s]).(busy := true, valid := true, d := cur[icache[s].inum])]
    {
      hide Inv, RestExcept, CacheAgrees, Cached;
      if icache[s].busy {
        return MustWait;
      }
      LoadEntry(icache, dinodes, cur, s);
      icache := icache[s := icache[s].(busy := true)];
      if !icache[s].valid {
        icache := icache[s := icache[s].(d := dinodes[icache[s].inum])];
        icache := icache[s := icache[s].(valid := true)];
        if icache[s].d.kind == 0 {
          return NoType;
        }
      }
      assert icache == old(icache)[s := old(icache[s]).(busy := true, valid := true, d := cur[icache[s].inum])];
      assert forall t :: Live(icache, t) <==> Live(old(icache), t);
      r := GotLock;
    }

    /** Unlock an entry whose changes are on disk. */
    method IUnlock(s: nat)
      requires Valid() && Locked(icache, s) && dinodes[icache[s].inum] == cur[icache[s].inum]
      modifies this`icache
      ensures Valid() && icache == old(icache)[s := old(icache[s]).(busy := false)]
    {
      Unlocked(icache, dinodes, cur, s);
      icache := icache[s := icache[s].(busy := false)];
    }

    /** Another reference to an inode that is held. */
    method IDup(s: nat)
      requires Valid() && Live(icache, s)
      modifies this`icache
      ensures Valid() && icache == old(icache)[s := old(icache[s]).(refs := old(icache[s]).refs + 1)]
    {
      hide Inv, RestExcept, CacheAgrees, Cached;
      CountRef(icache, dinodes, cur, s, icache[s].refs + 1);
      icache := icache[s := icache[s].(refs := icache[s].refs + 1)];
    }

    /** Drop a reference; the last one to an inode without links frees it and its blocks. A locked inode keeps
        another reference. */
    method IPut(s: nat) returns (freed: bool)
      requires Valid() && Live(icache, s) && (icache[s].busy ==> icache[s].refs > 1)
      modifies this, disk
      ensures Valid()
      ensures freed <==> old(icache[s]).refs == 1 && old(icache[s]).valid && old(cur[icache[s].inum]).nlink == 0
      ensures !freed ==> V() == old(V()) && dinodes == old(dinodes) && book == old(book)
                         && icache == old(icache)[s := old(icache[s]).(refs := old(icache[s]).refs - 1)]
      ensures freed ==> var i := old(icache[s].inum);
                        && cur == old(cur)[i := Emptied(old(cur[i])).(kind := 0)]
                        && dinodes == old(dinodes)[i := cur[i]]
                        && book == ReleasedBook(old(book), i)
                        && icache == old(icache)[s := icache[s]] && !Live(icache, s)
      ensures forall j :: 0 <= j < ninodes ==>
                Contents(V(), j) == if freed && j == old(icache[s].inum) then [] else old(Contents(V(), j))
    {
      hide Inv, Contents, RestExcept, Cached;
      freed := icache[s].refs == 1 && icache[s].valid && icache[s].d.nlink == 0;
      if freed {
        FreeInode(s);
      } else {
        if icache[s].busy {
          CountRef(icache, dinodes, cur, s, icache[s].refs - 1);
        } else {
          LoadEntry(icache, dinodes, cur, s);
          Unlocked(icache, dinodes, cur, s);
        }
        icache := icache[s := icache[s].(refs := icache[s].refs - 1)];
      }
    }

    /** The freeing branch of `IPut`: lock, truncate, mark the inode free on disk, drop the entry. */
    method FreeInode(s: nat)
      requires Valid() && Live(icache, s) && !icache[s].busy && icache[s].valid && icache[s].refs == 1
      modifies this, disk
      ensures Valid()
      ensures var i := old(icache[s].inum);
              && cur == old(cur)[i := Emptied(old(cur[i])).(kind := 0)]
                        && dinodes == old(dinodes)[i := cur[i]]
              && book == ReleasedBook(old(book), i)
              && icache == old(icache)[s := icache[s]] && !Live(icache, s)
      ensures forall j :: 0 <= j < ninodes ==>
                Contents(V(), j) == if j == old(icache[s].inum) then [] else old(Contents(V(), j))
    {
      hide RefsOk, OwnersOk, Contents, RestExcept, Cached;
      ghost var i := icache[s].inum;
      LoadEntry(icache, dinodes, cur, s);
      icache := icache[s := icache[s].(busy := true)];
      ITrunc(s);
      ghost var v := V();
      SetInode(s, icache[s].d.(kind := 0));
      RetypeDone(v, book, V(), Start(), i);
      Unlocked(icache, dinodes, cur, s);
      icache := icache[s := icache[s].(busy := false, valid := false, refs := icache[s].refs - 1)];
    }

    /** Claim the lowest free inode, cleared but for its kind, and take a reference to it. */
    method IAlloc(kind: int) returns (inum: nat, r: Option<nat>, ok: bool)
      requires Valid() && kind != 0
      modifies this`icache, this`cur, this`dinodes
      ensures Valid()
      ensures ok <==> exists i :: 1 <= i < ninodes && old(cur[i]).kind == 0
      ensures !ok ==> V() == old(V()) && icache == old(icache) && dinodes == old(dinodes)
      ensures ok ==>
                && 1 <= inum < ninodes && old(cur[inum]).kind == 0
                && (forall i :: 1 <= i < inum ==> old(cur[i]).kind != 0)
                && cur == old(cur)[inum := Dinode(kind, 0, 0, 0, 0, seq(NDIRECT + 1, _ => 0))]
                && dinodes == old(dinodes)[inum := cur[inum]] && Got(old(icache), icache, inum, r)
                && (r.Some? ==> !icache[r.value].busy)
      ensures forall j :: 0 <= j < ninodes ==> Contents(V(), j) == old(Contents(V(), j))
    {
      hide RefsOk, OwnersOk, Contents, RestExcept, FileByte, CacheAgrees, Cached;
      inum, r, ok := 1, None, false;
      while inum < ninodes
        invariant 1 <= inum
        invariant forall i :: 1 <= i < inum && i < ninodes ==> dinodes[i].kind != 0
      {
        if dinodes[inum].kind == 0 {
          ok := true;
          ghost var v := V();
          FreeInodeEmpty(v, book, Start(), inum);
          NewInode(icache, dinodes, cur, inum, Dinode(kind, 0, 0, 0, 0, seq(NDIRECT + 1, _ => 0)));
          dinodes := dinodes[inum := Dinode(kind, 0, 0, 0, 0, seq(NDIRECT + 1, _ => 0))];
          cur := cur[inum := dinodes[inum]];
          RetypeDone(v, book, V(), Start(), inum);
          r := IGet(inum);
          return;
        }
        inum := inum + 1;
      }
    }
  }
}

/**
 A file as a plain byte sequence: the contents an inode denotes on a volume, and
 what storing a chunk or growing the file does to them.
 */
module FsBytes {
  import opened FsVolume

  /** Blocks a file of `size` bytes occupies. */
  function BlocksFor(size: nat): nat {
    (size + BSIZE - 1) / BSIZE
  }

  /** Blocks taken from the bitmap by a file of `n` blocks: its data and, past the direct ones, the indirect block. */
  function Taken(n: nat): nat {
    if n > NDIRECT then n + 1 else n
  }

  function Max(a: int, b: int): int {
    if a < b then b else a
  }

  function Min(a: int, b: int): int {
    if a < b then a else b
  }

  /** Blocks that bringing a file from `size` bytes to at least `end` takes from the bitmap. */
  function More(size: nat, end: nat): int {
    Taken(Max(BlocksFor(size), BlocksFor(end))) - Taken(BlocksFor(size))
  }

  /** Byte `p` of file `i`, whether or not below its size. */
  function FileByte(v: Vol, i: nat, p: nat): Byte
    requires i < |v.nodes|
  {
    if p < MAXBYTES then FileBlock(v, i, p / BSIZE)[p % BSIZE] else 0
  }

  /** The contents of file `i`. */
  function Contents(v: Vol, i: nat): (s: seq<Byte>)
    requires i < |v.nodes|
    ensures |s| == v.nodes[i].size
  {
    seq(v.nodes[i].size, p requires 0 <= p < v.nodes[i].size => FileByte(v, i, p))
  }

  /** `base` with `data` written over it at `off`, growing if need be. */
  function Splice(base: seq<Byte>, off: nat, data: seq<Byte>): (s: seq<Byte>)
    requires off <= |base|
  {
    base[..off] + data + if off + |data| < |base| then base[off + |data|..] else []
  }

  lemma SlicesJoin(data: seq<Byte>, a: nat, b: nat, c: nat)
    requires a <= b <= c <= |data|
    ensures data[a..b] + data[b..c] == data[a..c]
  {
  }

  /** What was written is read back, and the bytes around it are those of before. */
  lemma SpliceReadsBack(base: seq<Byte>, off: nat, data: seq<Byte>, a: nat, b: nat)
    requires off <= |base| && a <= b
    ensures var s := Splice(base, off, data);
            && |s| == Max(|base|, off + |data|)
            && s[off..off + |data|] == data
            && (b <= off ==> s[a..b] == base[a..b])
            && (off + |data| <= a && b <= |base| ==> s[a..b] == base[a..b])
  {
  }

  ghost predicate ZeroFrom(v: Vol, k: Book, i: nat, from: nat)
    requires i < |v.nodes| == |k.count| && k.count[i] <= MAXFILE
  {
    forall p :: from <= p < k.count[i] * BSIZE ==> FileByte(v, i, p) == 0
  }

  /** An inode at rest: no holes, no blocks past the size, and zero bytes up to the end of the last block. */
  ghost predicate FileRest(v: Vol, k: Book, i: nat)
    requires i < |v.nodes| == |k.count|
  {
    var d := v.nodes[i];
    && d.size <= MAXBYTES
    && k.count[i] == BlocksFor(d.size)
    && ZeroFrom(v, k, i, d.size)
    && (d.kind == 0 ==> d.size == 0)
  }

  ghost predicate RestExcept(v: Vol, k: Book, i: int)
    requires |v.nodes| == |k.count|
  {
    forall j :: 0 <= j < |v.nodes| && j != i ==> FileRest(v, k, j)
  }

  ghost predicate AllRest(v: Vol, k: Book)
    requires |v.nodes| == |k.count|
  {
    RestExcept(v, k, -1)
  }

  /** A file whose blocks are the same has the same bytes. */
  lemma SameBytes(v: Vol, w: Vol, n: nat, i: nat)
    requires i < |v.nodes| && i < |w.nodes| && n <= MAXFILE
    requires forall r :: 0 <= r < n ==> FileBlock(w, i, r) == FileBlock(v, i, r)
    ensures forall p :: 0 <= p < n * BSIZE ==> FileByte(w, i, p) == FileByte(v, i, p)
  {
  }

  lemma SameContents(v: Vol, w: Vol, k: Book, i: nat)
    requires i < |v.nodes| == |k.count| && i < |w.nodes| && FileRest(v, k, i)
    requires SameFile(v, w, k.count[i], i)
    ensures Contents(w, i) == Contents(v, i)
  {
    SameBytes(v, w, k.count[i], i);
  }

  lemma OthersRest(v: Vol, k: Book, w: Vol, l: Book, i: nat)
    requires i < |v.nodes| == |k.count| == |w.nodes| == |l.count|
    requires forall j :: 0 <= j < |k.count| ==> k.count[j] <= MAXFILE
    requires RestExcept(v, k, i) && OthersSame(v, w, k, i)
    requires forall j :: 0 <= j < |v.nodes| && j != i ==> l.count[j] == k.count[j]
    ensures RestExcept(w, l, i)
  {
    forall j | 0 <= j < |v.nodes| && j != i
      ensures FileRest(w, l, j)
    {
      assert FileRest(v, k, j) && SameFile(v, w, k.count[j], j);
      SameBytes(v, w, k.count[j], j);
    }
  }

  lemma OthersSameTrans(u: Vol, v: Vol, w: Vol, k: Book, l: Book, i: nat)
    requires |u.nodes| == |v.nodes| == |w.nodes| == |k.count| == |l.count|
    requires forall j :: 0 <= j < |k.count| ==> k.count[j] <= MAXFILE && l.count[j] <= MAXFILE
    requires forall j :: 0 <= j < |k.count| && j != i ==> l.count[j] == k.count[j]
    requires OthersSame(u, v, k, i) && OthersSame(v, w, l, i)
    ensures OthersSame(u, w, k, i)
  {
    forall j | 0 <= j < |u.nodes| && j != i
      ensures SameFile(u, w, k.count[j], j)
    {
      assert SameFile(u, v, k.count[j], j) && SameFile(v, w, l.count[j], j);
    }
  }

  /** The block at `off` with `chunk` copied into it. */
  function Patched(b: Block, o: nat, chunk: seq<Byte>): Block
    requires o + |chunk| <= BSIZE
  {
    b[..o] + chunk + b[o + |chunk|..]
  }

  /** Storing one chunk within a block changes exactly its bytes of the file. */
  lemma ChunkBytes(v: Vol, w: Vol, n: nat, i: nat, off: nat, chunk: seq<Byte>)
    requires i < |v.nodes| && i < |w.nodes| && n <= MAXFILE && off / BSIZE < n
    requires off % BSIZE + |chunk| <= BSIZE
    requires FileBlock(w, i, off / BSIZE) == Patched(FileBlock(v, i, off / BSIZE), off % BSIZE, chunk)
    requires forall q :: 0 <= q < n && q != off / BSIZE ==> FileBlock(w, i, q) == FileBlock(v, i, q)
    ensures forall p :: 0 <= p < n * BSIZE ==>
              FileByte(w, i, p) == if off <= p < off + |chunk| then chunk[p - off] else FileByte(v, i, p)
  {
    forall p | 0 <= p < n * BSIZE
      ensures FileByte(w, i, p) == if off <= p < off + |chunk| then chunk[p - off] else FileByte(v, i, p)
    {
      if p / BSIZE == off / BSIZE {
        assert p - off == p % BSIZE - off % BSIZE;
      }
    }
  }

  /** A chunk within one block reaches one block further than a file that ends where the chunk starts, at most. */
  lemma ChunkCount(at: nat, m: nat, n: nat)
    requires at < MAXBYTES && 0 < m <= BSIZE - at % BSIZE && BlocksFor(at) <= n
    ensures at / BSIZE < MAXFILE && at / BSIZE <= n && BlocksFor(at + m) == at / BSIZE + 1
  {
  }

  /** Block counts while a write to `end` has come to `at` and takes `m` bytes more. */
  lemma RoundCounts(n: nat, at: nat, m: nat, end: nat)
    requires at + m <= end
    ensures Max(Max(n, BlocksFor(at)), BlocksFor(at + m)) == Max(n, BlocksFor(at + m))
    ensures Taken(Max(n, BlocksFor(at + m))) <= Taken(Max(n, BlocksFor(end)))
    ensures Taken(n) <= Taken(Max(n, BlocksFor(end)))
  {
  }

  lemma BlockParts(bn: nat, o: nat)
    requires o < BSIZE
    ensures (bn * BSIZE + o) / BSIZE == bn && (bn * BSIZE + o) % BSIZE == o
  {
  }

  /** Bytes `at..at+m` of a file, within one block, are a slice of that block. */
  lemma SliceOfBlock(v: Vol, i: nat, at: nat, m: nat)
    requires i < |v.nodes| && v.nodes[i].size <= MAXBYTES
    requires 0 < m && at + m <= v.nodes[i].size && at % BSIZE + m <= BSIZE
    ensures at / BSIZE < MAXFILE
    ensures Contents(v, i)[at..at + m] == FileBlock(v, i, at / BSIZE)[at % BSIZE..at % BSIZE + m]
  {
    var a, b := Contents(v, i)[at..at + m], FileBlock(v, i, at / BSIZE)[at % BSIZE..at % BSIZE + m];
    forall q | 0 <= q < m
      ensures a[q] == b[q]
    {
      assert (at + q) / BSIZE == at / BSIZE && (at + q) % BSIZE == at % BSIZE + q;
      assert a[q] == Contents(v, i)[at + q] == FileByte(v, i, at + q);
    }
  }

  // ---- writing ----

  /** `v` is `v0` with `data` stored from `off` on in file `i`, whose size field is not touched yet. */
  ghost predicate Written(v0: Vol, k0: Book, v: Vol, k: Book, i: nat, off: nat, data: seq<Byte>) {
    && i < |v0.nodes| == |v.nodes| == |k0.count| == |k.count|
    && (forall j :: 0 <= j < |k0.count| ==> k0.count[j] <= k.count[j] <= MAXFILE)
    && k.count == k0.count[i := k.count[i]]
    && OthersSame(v0, v, k0, i)
    && v.nodes[i] == v0.nodes[i].(addrs := v.nodes[i].addrs)
    && (k.count[i] == k0.count[i] ==> v.nodes[i] == v0.nodes[i])
    && off + |data| <= k.count[i] * BSIZE
    && forall p :: 0 <= p < k.count[i] * BSIZE ==>
         FileByte(v, i, p) == if off <= p < off + |data| then data[p - off]
                              else if p < k0.count[i] * BSIZE then FileByte(v0, i, p)
                              else 0
  }

  lemma NothingWritten(v: Vol, k: Book, i: nat, off: nat)
    requires i < |v.nodes| == |k.count|
    requires forall j :: 0 <= j < |k.count| ==> k.count[j] <= MAXFILE
    requires off <= k.count[i] * BSIZE
    ensures Written(v, k, v, k, i, off, [])
  {
  }

  lemma GrownKeepsWritten(v0: Vol, k0: Book, v: Vol, k: Book, w: Vol, l: Book, start: nat, i: nat, off: nat,
                          data: seq<Byte>)
    requires Written(v0, k0, v, k, i, off, data)
    requires Grown(v, k, w, l, start, i)
    requires w.nodes[i] == v.nodes[i].(addrs := w.nodes[i].addrs)
    ensures Written(v0, k0, w, l, i, off, data)
  {
    OthersSameTrans(v0, v, w, k0, k, i);
    SameBytes(v, w, k.count[i], i);
    forall p | k.count[i] * BSIZE <= p < l.count[i] * BSIZE
      ensures FileByte(w, i, p) == 0
    {
      assert p / BSIZE == k.count[i];
    }
  }

  lemma ChunkKeepsWritten(v0: Vol, k0: Book, v: Vol, k: Book, w: Vol, i: nat, off: nat, data: seq<Byte>,
                          chunk: seq<Byte>)
    requires Written(v0, k0, v, k, i, off, data)
    requires |w.nodes| == |v.nodes| && w.nodes == v.nodes && OthersSame(v, w, k, i)
    requires (off + |data|) / BSIZE < k.count[i] && (off + |data|) % BSIZE + |chunk| <= BSIZE
    requires var bn := (off + |data|) / BSIZE;
             && FileBlock(w, i, bn) == Patched(FileBlock(v, i, bn), (off + |data|) % BSIZE, chunk)
             && forall q :: 0 <= q < k.count[i] && q != bn ==> FileBlock(w, i, q) == FileBlock(v, i, q)
    ensures Written(v0, k0, w, k, i, off, data + chunk)
  {
    hide FileByte, FileBlock, Patched, OthersSame, SameFile;
    OthersSameTrans(v0, v, w, k0, k, i);
    ChunkBytes(v, w, k.count[i], i, off + |data|, chunk);
  }

  /** Once the size is raised over what was stored, the file is at rest and holds the spliced bytes. */
  lemma FinishWrite(v0: Vol, k0: Book, v: Vol, k: Book, w: Vol, i: nat, off: nat, data: seq<Byte>)
    requires Written(v0, k0, v, k, i, off, data) && FileRest(v0, k0, i) && v0.nodes[i].kind != 0
    requires off <= v0.nodes[i].size && off + |data| <= MAXBYTES
    requires k.count[i] == Max(k0.count[i], BlocksFor(off + |data|))
    requires w == v.(nodes := v.nodes[i := v.nodes[i].(size := Max(v0.nodes[i].size, off + |data|))])
    ensures FileRest(w, k, i)
    ensures Contents(w, i) == Splice(Contents(v0, i), off, data)
  {
    forall r | 0 <= r < k.count[i]
      ensures FileBlock(w, i, r) == FileBlock(v, i, r)
    {
    }
    SameBytes(v, w, k.count[i], i);
    var s, t := Contents(w, i), Splice(Contents(v0, i), off, data);
    assert |s| == |t|;
    forall p | 0 <= p < |s|
      ensures s[p] == t[p]
    {
      assert s[p] == FileByte(w, i, p) == FileByte(v, i, p);
      if off <= p < off + |data| {
      } else {
        assert p < v0.nodes[i].size;
        assert Contents(v0, i)[p] == FileByte(v0, i, p);
      }
    }
  }

  /** The whole of a finished write: the invariants hold again, the file holds the spliced bytes, the others are as
      before. */
  lemma WriteDone(v0: Vol, k0: Book, v: Vol, k: Book, w: Vol, start: nat, i: nat, off: nat, data: seq<Byte>)
    requires Inv(v, k, start) && Written(v0, k0, v, k, i, off, data)
    requires AllRest(v0, k0) && v0.nodes[i].kind != 0
    requires off <= v0.nodes[i].size && off + |data| <= MAXBYTES
    requires k.count[i] == Max(k0.count[i], BlocksFor(off + |data|))
    requires w == v.(nodes := v.nodes[i := v.nodes[i].(size := Max(v0.nodes[i].size, off + |data|))])
    ensures Inv(w, k, start) && AllRest(w, k)
    ensures Contents(w, i) == Splice(Contents(v0, i), off, data)
    ensures forall j :: 0 <= j < |v0.nodes| && j != i ==>
              w.nodes[j] == v0.nodes[j] && Contents(w, j) == Contents(v0, j)
  {
    assert FileRest(v0, k0, i);
    FinishWrite(v0, k0, v, k, w, i, off, data);
    ResizeKeepsInv(v, k, start, i, w);
    OthersSameTrans(v0, v, w, k0, k, i);
    OthersRest(v0, k0, w, k, i);
    forall j | 0 <= j < |v0.nodes| && j != i
      ensures w.nodes[j] == v0.nodes[j] && Contents(w, j) == Contents(v0, j)
    {
      assert FileRest(v0, k0, j) && SameFile(v0, w, k0.count[j], j);
      SameContents(v0, w, k0, j);
    }
  }

  /** References do not depend on the size field. */
  lemma ResizeKeepsInv(v: Vol, k: Book, start: nat, i: nat, w: Vol)
    requires Inv(v, k, start) && i < |v.nodes| == |w.nodes|
    requires w == v.(nodes := v.nodes[i := w.nodes[i]]) && w.nodes[i].addrs == v.nodes[i].addrs
    ensures Inv(w, k, start)
    ensures OthersSame(v, w, k, i)
  {
    forall j, q | 0 <= j < |w.nodes| && 0 <= q <= INDIRECT
      ensures RefOk(w, k, j, q)
    {
      assert RefOk(v, k, j, q);
    }
    forall b | 0 <= b < |w.blocks|
      ensures OwnerOk(w, k, start, b)
    {
      assert OwnerOk(v, k, start, b);
    }
  }

  /** The whole of a truncation. */
  lemma TruncDone(v: Vol, k: Book, w: Vol, start: nat, i: nat)
    requires Inv(v, k, start) && AllRest(v, k) && i < |v.nodes|
    requires FreedBelow(v, k, w, i, INDIRECT + 1)
    requires w.nodes == v.nodes[i := Emptied(v.nodes[i])]
    ensures Inv(w, ReleasedBook(k, i), start) && AllRest(w, ReleasedBook(k, i))
    ensures forall j :: 0 <= j < |v.nodes| ==> Contents(w, j) == if j == i then [] else Contents(v, j)
  {
    Released(v, k, w, start, i);
    OthersRest(v, k, w, ReleasedBook(k, i), i);
    forall j | 0 <= j < |v.nodes| && j != i
      ensures Contents(w, j) == Contents(v, j)
    {
      assert FileRest(v, k, j) && SameFile(v, w, k.count[j], j);
      SameContents(v, w, k, j);
    }
    assert FileRest(w, ReleasedBook(k, i), i);
  }

  /** Changing an inode's other fields, where its size and addresses stay, changes no contents. */
  lemma RetypeDone(v: Vol, k: Book, w: Vol, start: nat, i: nat)
    requires Inv(v, k, start) && AllRest(v, k) && i < |v.nodes| == |w.nodes|
    requires w == v.(nodes := v.nodes[i := w.nodes[i]])
    requires w.nodes[i].addrs == v.nodes[i].addrs && w.nodes[i].size == v.nodes[i].size
    requires w.nodes[i].kind == 0 ==> v.nodes[i].size == 0
    ensures Inv(w, k, start) && AllRest(w, k)
    ensures forall j :: 0 <= j < |v.nodes| ==> Contents(w, j) == Contents(v, j)
  {
    ResizeKeepsInv(v, k, start, i, w);
    OthersRest(v, k, w, k, i);
    forall j, r | 0 <= j < |v.nodes| && 0 <= r < MAXFILE
      ensures FileBlock(w, j, r) == FileBlock(v, j, r)
    {
    }
    forall j | 0 <= j < |v.nodes|
      ensures FileRest(w, k, j) && Contents(w, j) == Contents(v, j)
    {
      assert FileRest(v, k, j);
      SameBytes(v, w, MAXFILE, j);
    }
  }

  /** A free inode refers to no block. */
  lemma FreeInodeEmpty(v: Vol, k: Book, start: nat, i: nat)
    requires Inv(v, k, start) && AllRest(v, k) && i < |v.nodes| && v.nodes[i].kind == 0
    ensures v.nodes[i].size == 0 && v.nodes[i].addrs == seq(NDIRECT + 1, _ => 0)
  {
    assert FileRest(v, k, i);
    forall r | 0 <= r <= NDIRECT
      ensures v.nodes[i].addrs[r] == 0
    {
      assert RefOk(v, k, i, if r < NDIRECT then r else INDIRECT);
    }
  }

  /** An image with no files: metadata blocks in use, every other block free and zero, every inode free. */
  ghost function BlankImage(nblocks: nat, ninodes: nat, nbits: nat): (Vol, Book)
    requires DataStart(nblocks, ninodes) <= nblocks <= nbits
  {
    var start := DataStart(nblocks, ninodes);
    (Vol(seq(nbits, b => b < start), seq(nblocks, _ => Zero()),
         seq(ninodes, _ => Dinode(0, 0, 0, 0, 0, seq(NDIRECT + 1, _ => 0)))),
     Book(seq(nblocks, b => if b < start then Meta else Free), seq(ninodes, _ => 0)))
  }

  /** The blank image satisfies what mounting asks for. */
  lemma BlankImageOk(nblocks: nat, ninodes: nat, nbits: nat)
    requires DataStart(nblocks, ninodes) <= nblocks <= nbits && nblocks < UINT
    ensures var (v, k) := BlankImage(nblocks, ninodes, nbits);
            Inv(v, k, DataStart(nblocks, ninodes)) && AllRest(v, k)
  {
    var (v, k) := BlankImage(nblocks, ninodes, nbits);
    forall i, r | 0 <= i < |v.nodes| && 0 <= r <= INDIRECT
      ensures RefOk(v, k, i, r)
    {
    }
    forall b | 0 <= b < |v.blocks|
      ensures OwnerOk(v, k, DataStart(nblocks, ninodes), b)
    {
    }
  }
}

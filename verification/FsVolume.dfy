/**
 The on-disk format of the file system (fs.h) and who owns each disk block.

 A volume is the bitmap, the block contents and the current inodes.  Each inode
 refers to blocks through 141 reference slots: slots 0..139 are the data blocks of
 the file (12 direct, 128 through the indirect block) and slot 140 is the indirect
 block itself.  `Inv` says that the bitmap, the references and a book that names
 the owner of every block agree, and that free blocks are all zero.
 */
module FsVolume {
  import opened Common

  const BSIZE: nat := 512
  const NDIRECT: nat := 12
  const NINDIRECT: nat := 128
  const MAXFILE: nat := 140
  const INDIRECT: nat := 140
  const MAXBYTES: nat := 71680
  const IPB: nat := 8
  const BPB: nat := 4096
  const UINT: nat := 0x1_0000_0000

  type Byte = x: int | 0 <= x < 256
  type Block = b: seq<Byte> | |b| == BSIZE witness seq(BSIZE, _ => 0)
  type Addrs = s: seq<nat> | |s| == NDIRECT + 1 witness seq(NDIRECT + 1, _ => 0)

  datatype Dinode = Dinode(kind: int, major: int, minor: int, nlink: int, size: nat, addrs: Addrs)

  datatype Owner = Free | Meta | Ref(inum: nat, slot: nat)

  datatype Vol = Vol(bitmap: seq<bool>, blocks: seq<Block>, nodes: seq<Dinode>)

  datatype Book = Book(owner: seq<Owner>, count: seq<nat>)

  function Zero(): Block {
    seq(BSIZE, _ => 0)
  }

  // ---- fixed layout: superblock, inode blocks, bitmap blocks, data ----

  /** Block holding inode `inum`. */
  function InodeBlock(inum: nat): nat {
    inum / IPB + 2
  }

  /** Block holding the bitmap bit of block `b`. */
  function BitmapBlock(b: nat, ninodes: nat): nat {
    b / BPB + ninodes / IPB + 3
  }

  /** First block past the metadata, as mkfs lays the image out. */
  function DataStart(nblocks: nat, ninodes: nat): nat {
    ninodes / IPB + 3 + nblocks / BPB + 1
  }

  /** Inode blocks, bitmap blocks and data blocks do not overlap. */
  lemma LayoutDisjoint(nblocks: nat, ninodes: nat, i: nat, b: nat)
    requires i < ninodes && b < nblocks
    ensures 1 < InodeBlock(i) < BitmapBlock(b, ninodes) < DataStart(nblocks, ninodes)
  {
    assert i / IPB <= ninodes / IPB && b / BPB <= nblocks / BPB;
  }

  // ---- words inside a block ----

  /** The `j`th little-endian word of a block. */
  function Word(b: Block, j: nat): (w: nat)
    requires j < NINDIRECT
  {
    var x0: int, x1: int, x2: int, x3: int := b[4 * j], b[4 * j + 1], b[4 * j + 2], b[4 * j + 3];
    x0 + 256 * x1 + 65536 * x2 + 16777216 * x3
  }

  function PutWord(b: Block, j: nat, w: nat): (r: Block)
    requires j < NINDIRECT && w < UINT
  {
    b[4 * j := w % 256][4 * j + 1 := w / 256 % 256][4 * j + 2 := w / 65536 % 256][4 * j + 3 := w / 16777216]
  }

  lemma WordAfterPut(b: Block, j: nat, w: nat)
    requires j < NINDIRECT && w < UINT
    ensures Word(PutWord(b, j, w), j) == w
    ensures forall k :: 0 <= k < NINDIRECT && k != j ==> Word(PutWord(b, j, w), k) == Word(b, k)
  {
    var c := PutWord(b, j, w);
    assert c[4 * j] == w % 256 && c[4 * j + 1] == w / 256 % 256;
    assert c[4 * j + 2] == w / 65536 % 256 && c[4 * j + 3] == w / 16777216;
    SplitWord(w);
    forall k | 0 <= k < NINDIRECT && k != j
      ensures Word(c, k) == Word(b, k)
    {
      assert c[4 * k] == b[4 * k] && c[4 * k + 1] == b[4 * k + 1];
      assert c[4 * k + 2] == b[4 * k + 2] && c[4 * k + 3] == b[4 * k + 3];
    }
  }

  lemma SplitWord(w: nat)
    requires w < UINT
    ensures w == w % 256 + 256 * (w / 256 % 256) + 65536 * (w / 65536 % 256) + 16777216 * (w / 16777216)
  {
    assert w / 65536 == w / 256 / 256;
    assert w / 16777216 == w / 65536 / 256;
  }

  lemma WordOfZero(j: nat)
    requires j < NINDIRECT
    ensures Word(Zero(), j) == 0
  {
  }

  // ---- references ----

  /** Whether a file with `n` blocks uses reference slot `r`. */
  predicate Present(n: nat, r: nat) {
    if r == INDIRECT then n > NDIRECT else r < n
  }

  /** The block address stored in reference slot `r` of inode `d`; 0 is "none". */
  function RefAddr(blocks: seq<Block>, d: Dinode, r: nat): nat
    requires r <= INDIRECT
  {
    if r < NDIRECT then d.addrs[r]
    else if r == INDIRECT then d.addrs[NDIRECT]
    else if d.addrs[NDIRECT] == 0 || d.addrs[NDIRECT] >= |blocks| then 0
    else Word(blocks[d.addrs[NDIRECT]], r - NDIRECT)
  }

  ghost predicate Sized(v: Vol, k: Book, start: nat) {
    && 0 < start <= |v.blocks| < UINT
    && |v.blocks| <= |v.bitmap|
    && |k.owner| == |v.blocks|
    && |k.count| == |v.nodes|
    && forall i :: 0 <= i < |k.count| ==> k.count[i] <= MAXFILE
  }

  /** Reference slot `r` of inode `i` is filled exactly when present, with a block the book gives to it. */
  ghost predicate RefOk(v: Vol, k: Book, i: nat, r: nat)
    requires i < |v.nodes| && i < |k.count| && r <= INDIRECT
  {
    var a := RefAddr(v.blocks, v.nodes[i], r);
    if Present(k.count[i], r) then a < |k.owner| && k.owner[a] == Ref(i, r) else a == 0
  }

  ghost predicate RefsOk(v: Vol, k: Book)
    requires |k.count| == |v.nodes|
  {
    forall i, r :: 0 <= i < |v.nodes| && 0 <= r <= INDIRECT ==> RefOk(v, k, i, r)
  }

  ghost predicate OwnerOk(v: Vol, k: Book, start: nat, b: nat)
    requires b < |v.blocks| <= |v.bitmap| && |k.owner| == |v.blocks| && |k.count| == |v.nodes|
  {
    match k.owner[b]
    case Free => b >= start && !v.bitmap[b] && v.blocks[b] == Zero()
    case Meta => b < start && v.bitmap[b]
    case Ref(i, r) =>
      && b >= start && v.bitmap[b]
      && i < |v.nodes| && r <= INDIRECT
      && Present(k.count[i], r)
      && RefAddr(v.blocks, v.nodes[i], r) == b
  }

  ghost predicate OwnersOk(v: Vol, k: Book, start: nat)
    requires |v.blocks| <= |v.bitmap| && |k.owner| == |v.blocks| && |k.count| == |v.nodes|
  {
    forall b :: 0 <= b < |v.blocks| ==> OwnerOk(v, k, start, b)
  }

  ghost predicate Inv(v: Vol, k: Book, start: nat) {
    Sized(v, k, start) && RefsOk(v, k) && OwnersOk(v, k, start)
  }

  /** The block a file keeps in data slot `r`. */
  function FileBlock(v: Vol, i: nat, r: nat): Block
    requires i < |v.nodes| && r < MAXFILE
  {
    var a := RefAddr(v.blocks, v.nodes[i], r);
    if a < |v.blocks| then v.blocks[a] else Zero()
  }

  /** File `i` has the same inode and the same data blocks in both volumes. */
  ghost predicate SameFile(v: Vol, w: Vol, n: nat, i: nat)
    requires i < |v.nodes| && i < |w.nodes| && n <= MAXFILE
  {
    && w.nodes[i] == v.nodes[i]
    && forall r :: 0 <= r < n ==> FileBlock(w, i, r) == FileBlock(v, i, r)
  }

  ghost predicate OthersSame(v: Vol, w: Vol, k: Book, i: nat)
    requires |v.nodes| == |w.nodes| == |k.count|
    requires forall j :: 0 <= j < |k.count| ==> k.count[j] <= MAXFILE
  {
    forall j :: 0 <= j < |v.nodes| && j != i ==> SameFile(v, w, k.count[j], j)
  }

  // ---- what the bitmap says, in the words of the format ----

  /** A bitmap bit is set exactly when the block is metadata or some slot of some inode refers to it. */
  lemma BitMeansUsed(v: Vol, k: Book, start: nat, b: nat)
    requires Inv(v, k, start) && b < |v.blocks|
    ensures v.bitmap[b] <==>
            || b < start
            || exists i, r :: 0 <= i < |v.nodes| && 0 <= r <= INDIRECT && RefAddr(v.blocks, v.nodes[i], r) == b
  {
    assert OwnerOk(v, k, start, b);
    if v.bitmap[b] && b >= start {
      var i, r := k.owner[b].inum, k.owner[b].slot;
      assert RefAddr(v.blocks, v.nodes[i], r) == b;
    }
    if i, r :| 0 <= i < |v.nodes| && 0 <= r <= INDIRECT && RefAddr(v.blocks, v.nodes[i], r) == b {
      if b >= start {
        assert RefOk(v, k, i, r);
      }
    }
  }

  /** No block is referred to twice, by one inode or by two. */
  lemma ReferencesAreDistinct(v: Vol, k: Book, start: nat, i: nat, r: nat, j: nat, q: nat)
    requires Inv(v, k, start)
    requires i < |v.nodes| && j < |v.nodes| && r <= INDIRECT && q <= INDIRECT
    requires RefAddr(v.blocks, v.nodes[i], r) == RefAddr(v.blocks, v.nodes[j], q) != 0
    ensures i == j && r == q
  {
    assert RefOk(v, k, i, r) && RefOk(v, k, j, q);
  }

  /** The indirect block of a file is none of the blocks it lists. */
  lemma NotIndirect(v: Vol, k: Book, start: nat, i: nat, j: nat)
    requires Inv(v, k, start) && i < |v.nodes| && j < NINDIRECT && v.nodes[i].addrs[NDIRECT] != 0
    ensures RefAddr(v.blocks, v.nodes[i], NDIRECT + j) != v.nodes[i].addrs[NDIRECT]
  {
    if RefAddr(v.blocks, v.nodes[i], NDIRECT + j) == v.nodes[i].addrs[NDIRECT] {
      ReferencesAreDistinct(v, k, start, i, NDIRECT + j, i, INDIRECT);
    }
  }

  // ---- growing a file ----

  /** Storing into a data block of file `i` keeps the invariant and changes that block of that file only. */
  lemma StoreData(v: Vol, k: Book, start: nat, i: nat, r: nat, data: Block) returns (w: Vol)
    requires Inv(v, k, start) && i < |v.nodes| && r < k.count[i]
    ensures start <= RefAddr(v.blocks, v.nodes[i], r) < |v.blocks|
    ensures w == v.(blocks := v.blocks[RefAddr(v.blocks, v.nodes[i], r) := data])
    ensures Inv(w, k, start)
    ensures OthersSame(v, w, k, i)
    ensures FileBlock(w, i, r) == data
    ensures forall q :: 0 <= q < k.count[i] && q != r ==> FileBlock(w, i, q) == FileBlock(v, i, q)
  {
    var b := RefAddr(v.blocks, v.nodes[i], r);
    assert RefOk(v, k, i, r);
    assert OwnerOk(v, k, start, b);
    w := v.(blocks := v.blocks[b := data]);
    StoreKeepsRefs(v, k, start, i, r, w);
    forall c | 0 <= c < |w.blocks|
      ensures OwnerOk(w, k, start, c)
    {
      assert OwnerOk(v, k, start, c);
    }
    forall j, q | 0 <= j < |w.nodes| && 0 <= q <= INDIRECT
      ensures RefOk(w, k, j, q)
    {
      assert RefOk(v, k, j, q);
    }
    forall j, q | 0 <= j < |v.nodes| && 0 <= q < k.count[j] && (j != i || q != r)
      ensures FileBlock(w, j, q) == FileBlock(v, j, q)
    {
      assert RefOk(v, k, j, q);
    }
  }

  lemma StoreKeepsRefs(v: Vol, k: Book, start: nat, i: nat, r: nat, w: Vol)
    requires Inv(v, k, start) && i < |v.nodes| && r < k.count[i]
    requires w.nodes == v.nodes && |w.blocks| == |v.blocks|
    requires forall c :: 0 <= c < |v.blocks| && c != RefAddr(v.blocks, v.nodes[i], r) ==> w.blocks[c] == v.blocks[c]
    ensures forall j, q :: 0 <= j < |v.nodes| && 0 <= q <= INDIRECT ==>
              RefAddr(w.blocks, w.nodes[j], q) == RefAddr(v.blocks, v.nodes[j], q)
  {
    assert RefOk(v, k, i, r);
    forall j, q | 0 <= j < |v.nodes| && 0 <= q <= INDIRECT
      ensures RefAddr(w.blocks, w.nodes[j], q) == RefAddr(v.blocks, v.nodes[j], q)
    {
      assert RefOk(v, k, j, INDIRECT);
    }
  }

  /** What adding one block to file `i` must give: `w` keeps the invariant, the file has one more, zero, block. */
  ghost predicate Grown(v: Vol, k: Book, w: Vol, l: Book, start: nat, i: nat) {
    && Inv(v, k, start) && Inv(w, l, start)
    && i < |v.nodes| == |w.nodes| && k.count[i] < MAXFILE
    && l.count == k.count[i := k.count[i] + 1]
    && OthersSame(v, w, k, i)
    && (forall q :: 0 <= q < k.count[i] ==> FileBlock(w, i, q) == FileBlock(v, i, q))
    && FileBlock(w, i, k.count[i]) == Zero()
  }

  lemma OwnersAfterLink(v: Vol, k: Book, w: Vol, l: Book, start: nat, i: nat, b: nat)
    requires Inv(v, k, start) && Sized(w, l, start)
    requires i < |v.nodes| == |w.nodes| && b < |v.blocks| == |w.blocks|
    requires k.owner[b] == Free
    requires l.owner[b].Ref? && OwnerOk(w, l, start, b)
    requires forall j :: 0 <= j < |k.count| ==> l.count[j] >= k.count[j]
    requires forall c :: 0 <= c < |v.blocks| && c != b && k.owner[c] != l.owner[c] ==> OwnerOk(w, l, start, c)
    requires forall c :: 0 <= c < |v.blocks| && c != b && k.owner[c] == l.owner[c] ==>
               w.bitmap[c] == v.bitmap[c] && (k.owner[c] == Free ==> w.blocks[c] == v.blocks[c])
    requires forall j, q :: 0 <= j < |v.nodes| && 0 <= q <= INDIRECT && Present(k.count[j], q) ==>
               RefAddr(w.blocks, w.nodes[j], q) == RefAddr(v.blocks, v.nodes[j], q)
    ensures OwnersOk(w, l, start)
  {
    forall c | 0 <= c < |w.blocks|
      ensures OwnerOk(w, l, start, c)
    {
      assert OwnerOk(v, k, start, c);
    }
  }

  /** Linking a free block into the next direct slot. */
  lemma LinkDirect(v: Vol, k: Book, start: nat, i: nat, b: nat) returns (w: Vol, l: Book)
    requires Inv(v, k, start) && i < |v.nodes| && k.count[i] < NDIRECT
    requires b < |v.blocks| && k.owner[b] == Free
    ensures var d := v.nodes[i];
            w == Vol(v.bitmap[b := true], v.blocks, v.nodes[i := d.(addrs := d.addrs[k.count[i] := b])])
    ensures l == Book(k.owner[b := Ref(i, k.count[i])], k.count[i := k.count[i] + 1])
    ensures Grown(v, k, w, l, start, i)
  {
    var n := k.count[i];
    var d := v.nodes[i];
    w := Vol(v.bitmap[b := true], v.blocks, v.nodes[i := d.(addrs := d.addrs[n := b])]);
    l := Book(k.owner[b := Ref(i, n)], k.count[i := n + 1]);
    assert OwnerOk(v, k, start, b);
    assert RefOk(v, k, i, INDIRECT);
    assert OwnerOk(w, l, start, b);
    OwnersAfterLink(v, k, w, l, start, i, b);
    forall j, q | 0 <= j < |w.nodes| && 0 <= q <= INDIRECT
      ensures RefOk(w, l, j, q)
    {
      assert RefOk(v, k, j, q);
    }
    forall j, q | 0 <= j < |w.nodes| && 0 <= q < k.count[j]
      ensures FileBlock(w, j, q) == FileBlock(v, j, q)
    {
      assert RefOk(v, k, j, q);
    }
  }

  /** Linking a free block into the next slot of an indirect block that is already there. */
  lemma LinkIndirect(v: Vol, k: Book, start: nat, i: nat, b: nat) returns (w: Vol, l: Book)
    requires Inv(v, k, start) && i < |v.nodes| && NDIRECT < k.count[i] < MAXFILE
    requires b < |v.blocks| && k.owner[b] == Free
    ensures start <= v.nodes[i].addrs[NDIRECT] < |v.blocks|
    ensures var a := v.nodes[i].addrs[NDIRECT];
            w == Vol(v.bitmap[b := true], v.blocks[a := PutWord(v.blocks[a], k.count[i] - NDIRECT, b)], v.nodes)
    ensures l == Book(k.owner[b := Ref(i, k.count[i])], k.count[i := k.count[i] + 1])
    ensures Grown(v, k, w, l, start, i)
  {
    var n := k.count[i];
    var a := v.nodes[i].addrs[NDIRECT];
    assert RefOk(v, k, i, INDIRECT);
    assert OwnerOk(v, k, start, a) && OwnerOk(v, k, start, b);
    w := Vol(v.bitmap[b := true], v.blocks[a := PutWord(v.blocks[a], n - NDIRECT, b)], v.nodes);
    l := Book(k.owner[b := Ref(i, n)], k.count[i := n + 1]);
    WordAfterPut(v.blocks[a], n - NDIRECT, b);
    forall j, q | 0 <= j < |w.nodes| && 0 <= q <= INDIRECT && (j != i || q != n)
      ensures RefAddr(w.blocks, w.nodes[j], q) == RefAddr(v.blocks, v.nodes[j], q)
    {
      assert RefOk(v, k, j, INDIRECT);
    }
    assert OwnerOk(w, l, start, b);
    OwnersAfterLink(v, k, w, l, start, i, b);
    forall j, q | 0 <= j < |w.nodes| && 0 <= q <= INDIRECT
      ensures RefOk(w, l, j, q)
    {
      assert RefOk(v, k, j, q);
    }
    forall j, q | 0 <= j < |w.nodes| && 0 <= q < k.count[j]
      ensures FileBlock(w, j, q) == FileBlock(v, j, q)
    {
      assert RefOk(v, k, j, q);
    }
  }

  /** Growing past the direct slots: block `a` becomes the indirect block and `b` its first entry. */
  lemma LinkFirstIndirect(v: Vol, k: Book, start: nat, i: nat, a: nat, b: nat) returns (w: Vol, l: Book)
    requires Inv(v, k, start) && i < |v.nodes| && k.count[i] == NDIRECT
    requires a < |v.blocks| && b < |v.blocks| && a != b
    requires k.owner[a] == Free && k.owner[b] == Free
    ensures var d := v.nodes[i];
            w == Vol(v.bitmap[a := true][b := true], v.blocks[a := PutWord(v.blocks[a], 0, b)],
                     v.nodes[i := d.(addrs := d.addrs[NDIRECT := a])])
    ensures l == Book(k.owner[a := Ref(i, INDIRECT)][b := Ref(i, NDIRECT)], k.count[i := NDIRECT + 1])
    ensures Grown(v, k, w, l, start, i)
  {
    var d := v.nodes[i];
    assert OwnerOk(v, k, start, a) && OwnerOk(v, k, start, b);
    w := Vol(v.bitmap[a := true][b := true], v.blocks[a := PutWord(v.blocks[a], 0, b)],
             v.nodes[i := d.(addrs := d.addrs[NDIRECT := a])]);
    l := Book(k.owner[a := Ref(i, INDIRECT)][b := Ref(i, NDIRECT)], k.count[i := NDIRECT + 1]);
    WordAfterPut(v.blocks[a], 0, b);
    forall q | NDIRECT < q < INDIRECT
      ensures RefAddr(w.blocks, w.nodes[i], q) == 0
    {
      WordOfZero(q - NDIRECT);
    }
    forall j, q | 0 <= j < |w.nodes| && 0 <= q <= INDIRECT && (j != i || q < NDIRECT)
      ensures RefAddr(w.blocks, w.nodes[j], q) == RefAddr(v.blocks, v.nodes[j], q)
    {
      assert RefOk(v, k, j, INDIRECT);
    }
    assert OwnerOk(w, l, start, a) && OwnerOk(w, l, start, b);
    OwnersAfterLink(v, k, w, l, start, i, b);
    forall j, q | 0 <= j < |w.nodes| && 0 <= q <= INDIRECT
      ensures RefOk(w, l, j, q)
    {
      assert RefOk(v, k, j, q);
    }
    forall j, q | 0 <= j < |w.nodes| && 0 <= q < k.count[j]
      ensures FileBlock(w, j, q) == FileBlock(v, j, q)
    {
      assert RefOk(v, k, j, q);
    }
  }

  /** Growing a file past its direct blocks through indirect block `a`, new or old. */
  lemma LinkPastDirect(v: Vol, k: Book, start: nat, i: nat, a: nat, b: nat) returns (w: Vol, l: Book)
    requires Inv(v, k, start) && i < |v.nodes| && NDIRECT <= k.count[i] < MAXFILE
    requires a < |v.blocks| && b < |v.blocks| && a != b && k.owner[b] == Free
    requires if k.count[i] == NDIRECT then k.owner[a] == Free else a == v.nodes[i].addrs[NDIRECT]
    ensures var d := v.nodes[i];
            w == Vol((if k.count[i] == NDIRECT then v.bitmap[a := true] else v.bitmap)[b := true],
                     v.blocks[a := PutWord(v.blocks[a], k.count[i] - NDIRECT, b)],
                     if k.count[i] == NDIRECT then v.nodes[i := d.(addrs := d.addrs[NDIRECT := a])] else v.nodes)
    ensures Grown(v, k, w, l, start, i)
    ensures RefAddr(w.blocks, w.nodes[i], k.count[i]) == b
  {
    if k.count[i] == NDIRECT {
      w, l := LinkFirstIndirect(v, k, start, i, a, b);
    } else {
      w, l := LinkIndirect(v, k, start, i, b);
    }
    WordAfterPut(v.blocks[a], k.count[i] - NDIRECT, b);
  }

  /** The entry for block `bn` in the indirect block, which is zero when it is new, is empty exactly when the file ends
      before `bn`. */
  lemma EntryOfIndirect(v: Vol, k: Book, start: nat, i: nat, bn: nat, a: nat, b: Block)
    requires Inv(v, k, start) && i < |v.nodes| && NDIRECT <= bn < MAXFILE && bn <= k.count[i]
    requires if k.count[i] == NDIRECT then b == Zero()
             else a == v.nodes[i].addrs[NDIRECT] < |v.blocks| && b == v.blocks[a]
    ensures Word(b, bn - NDIRECT) == 0 <==> bn == k.count[i]
    ensures bn < k.count[i] ==> RefAddr(v.blocks, v.nodes[i], bn) == Word(b, bn - NDIRECT) < |v.blocks|
    ensures k.count[i] > NDIRECT ==> v.bitmap[a]
  {
    assert RefOk(v, k, i, bn) && RefOk(v, k, i, INDIRECT) && OwnerOk(v, k, start, 0);
    if k.count[i] > NDIRECT {
      assert OwnerOk(v, k, start, a);
    }
    WordOfZero(bn - NDIRECT);
  }

  /** A block whose bit is clear is free. */
  lemma ClearIsFree(v: Vol, k: Book, start: nat, b: nat)
    requires Inv(v, k, start) && b < |v.blocks| && !v.bitmap[b]
    ensures k.owner[b] == Free
  {
    assert OwnerOk(v, k, start, b);
  }

  // ---- truncating a file ----

  /** `b` is owned by one of the first `n` reference slots of inode `i`. */
  predicate OwnedBelow(o: Owner, i: nat, n: nat) {
    o.Ref? && o.inum == i && o.slot < n
  }

  /** `w` is `v` with the blocks in the first `n` slots of inode `i` marked free and zeroed. */
  ghost predicate FreedBelow(v: Vol, k: Book, w: Vol, i: nat, n: nat)
    requires |k.owner| == |v.blocks| <= |v.bitmap|
  {
    && |w.blocks| == |v.blocks| && |w.bitmap| == |v.bitmap|
    && (forall b :: |v.blocks| <= b < |v.bitmap| ==> w.bitmap[b] == v.bitmap[b])
    && forall b :: 0 <= b < |v.blocks| ==>
         if OwnedBelow(k.owner[b], i, n) then !w.bitmap[b] && w.blocks[b] == Zero()
         else w.bitmap[b] == v.bitmap[b] && w.blocks[b] == v.blocks[b]
  }

  /** Releasing slot `n` on top of the slots below it. */
  lemma FreeOneMore(v: Vol, k: Book, w: Vol, start: nat, i: nat, n: nat)
    requires Inv(v, k, start) && i < |v.nodes| && n <= INDIRECT
    requires FreedBelow(v, k, w, i, n)
    ensures !Present(k.count[i], n) ==>
              RefAddr(v.blocks, v.nodes[i], n) == 0 && FreedBelow(v, k, w, i, n + 1)
    ensures Present(k.count[i], n) ==>
              var b := RefAddr(v.blocks, v.nodes[i], n);
              && start <= b < |v.blocks| && w.bitmap[b] && w.blocks[b] == v.blocks[b]
              && FreedBelow(v, k, w.(bitmap := w.bitmap[b := false], blocks := w.blocks[b := Zero()]), i, n + 1)
  {
    assert RefOk(v, k, i, n);
    if Present(k.count[i], n) {
      var b := RefAddr(v.blocks, v.nodes[i], n);
      assert OwnerOk(v, k, start, b);
    }
    forall c | 0 <= c < |v.blocks| && k.owner[c] == Ref(i, n)
      ensures Present(k.count[i], n) && c == RefAddr(v.blocks, v.nodes[i], n)
    {
      assert OwnerOk(v, k, start, c);
    }
  }

  /** A file without an indirect block has nothing past its direct slots. */
  lemma NothingPastDirect(v: Vol, k: Book, w: Vol, start: nat, i: nat)
    requires Inv(v, k, start) && i < |v.nodes| && v.nodes[i].addrs[NDIRECT] == 0
    requires FreedBelow(v, k, w, i, NDIRECT)
    ensures FreedBelow(v, k, w, i, INDIRECT + 1)
  {
    assert RefOk(v, k, i, INDIRECT) && OwnerOk(v, k, start, 0);
    forall b | 0 <= b < |v.blocks| && OwnedBelow(k.owner[b], i, INDIRECT + 1)
      ensures OwnedBelow(k.owner[b], i, NDIRECT)
    {
      assert OwnerOk(v, k, start, b);
    }
  }

  /** The addresses of a file with an indirect block: the words of that block, then the block itself. */
  lemma ThroughIndirect(v: Vol, k: Book, start: nat, i: nat)
    requires Inv(v, k, start) && i < |v.nodes| && v.nodes[i].addrs[NDIRECT] != 0
    ensures start <= v.nodes[i].addrs[NDIRECT] < |v.blocks|
    ensures forall j :: 0 <= j < NINDIRECT ==>
              RefAddr(v.blocks, v.nodes[i], NDIRECT + j) == Word(v.blocks[v.nodes[i].addrs[NDIRECT]], j)
  {
    assert RefOk(v, k, i, INDIRECT) && OwnerOk(v, k, start, v.nodes[i].addrs[NDIRECT]);
  }

  /** Freeing the direct blocks leaves the indirect block as it was. */
  lemma IndirectKept(v: Vol, k: Book, w: Vol, start: nat, i: nat)
    requires Inv(v, k, start) && i < |v.nodes| && v.nodes[i].addrs[NDIRECT] != 0
    requires FreedBelow(v, k, w, i, NDIRECT)
    ensures var a := v.nodes[i].addrs[NDIRECT]; a < |v.blocks| && w.blocks[a] == v.blocks[a]
  {
    assert RefOk(v, k, i, INDIRECT);
  }

  ghost function Emptied(d: Dinode): Dinode {
    d.(size := 0, addrs := seq(NDIRECT + 1, _ => 0))
  }

  ghost function ReleasedBook(k: Book, i: nat): Book
    requires i < |k.count|
  {
    Book(seq(|k.owner|, b requires 0 <= b < |k.owner| =>
               if OwnedBelow(k.owner[b], i, INDIRECT + 1) then Free else k.owner[b]),
         k.count[i := 0])
  }

  /** After all slots of inode `i` are released and its addresses cleared, the invariant holds and no other file
      changed. */
  lemma Released(v: Vol, k: Book, w: Vol, start: nat, i: nat)
    requires Inv(v, k, start) && i < |v.nodes|
    requires FreedBelow(v, k, w, i, INDIRECT + 1)
    requires |w.nodes| == |v.nodes| && w.nodes == v.nodes[i := w.nodes[i]]
    requires w.nodes[i].addrs == seq(NDIRECT + 1, _ => 0)
    ensures Inv(w, ReleasedBook(k, i), start)
    ensures OthersSame(v, w, k, i)
  {
    var l := ReleasedBook(k, i);
    forall j, q | 0 <= j < |v.nodes| && j != i && 0 <= q <= INDIRECT
      ensures RefAddr(w.blocks, w.nodes[j], q) == RefAddr(v.blocks, v.nodes[j], q)
    {
      assert RefOk(v, k, j, INDIRECT);
    }
    forall j, q | 0 <= j < |w.nodes| && 0 <= q <= INDIRECT
      ensures RefOk(w, l, j, q)
    {
      assert RefOk(v, k, j, q);
    }
    forall b | 0 <= b < |w.blocks|
      ensures OwnerOk(w, l, start, b)
    {
      assert OwnerOk(v, k, start, b);
    }
    forall j, q | 0 <= j < |v.nodes| && j != i && 0 <= q < k.count[j]
      ensures FileBlock(w, j, q) == FileBlock(v, j, q)
    {
      assert RefOk(v, k, j, q);
    }
  }

  // ---- counting free blocks ----

  /** Number of clear bits among the first `n`. */
  function FreeCount(bitmap: seq<bool>, n: nat): nat
    requires n <= |bitmap|
  {
    if n == 0 then 0 else FreeCount(bitmap, n - 1) + if bitmap[n - 1] then 0 else 1
  }

  /** Taking a free block lowers the count by one. */
  lemma {:induction false} FreeCountTake(bitmap: seq<bool>, n: nat, b: nat)
    requires b < |bitmap| && n <= |bitmap| && !bitmap[b]
    ensures FreeCount(bitmap[b := true], n) == FreeCount(bitmap, n) - (if b < n then 1 else 0)
  {
    if n > 0 {
      FreeCountTake(bitmap, n - 1, b);
    }
  }

  /** The count is zero exactly when every bit is set. */
  lemma {:induction false} FreeCountZero(bitmap: seq<bool>, n: nat)
    requires n <= |bitmap|
    ensures FreeCount(bitmap, n) == 0 <==> forall b :: 0 <= b < n ==> bitmap[b]
  {
    if n > 0 {
      FreeCountZero(bitmap, n - 1);
    }
  }

  /** `r` is the lowest clear bit, if any is clear. */
  ghost predicate LowestClear(bitmap: seq<bool>, r: Option<nat>) {
    match r
    case Some(b) => b < |bitmap| && !bitmap[b] && forall c :: 0 <= c < b ==> bitmap[c]
    case None => forall c :: 0 <= c < |bitmap| ==> bitmap[c]
  }

  /** The lowest clear bit lies past the first `n` exactly when none of those is clear. */
  lemma ClearPastEnd(bitmap: seq<bool>, n: nat, b: nat)
    requires n <= |bitmap| && LowestClear(bitmap, Some(b))
    ensures b >= n <==> FreeCount(bitmap, n) == 0
  {
    FreeCountZero(bitmap, n);
  }

  /** A full image whose size does not fill its bitmap, as the 1024 blocks of mkfs do not fill 4096 bits: the next block
      handed out is the one just past its end. */
  lemma FullImageGivesPastEnd(nblocks: nat, nbits: nat, r: Option<nat>)
    requires nblocks < nbits
    ensures var bitmap := seq(nbits, b => b < nblocks);
            (LowestClear(bitmap, r) <==> r == Some(nblocks)) && FreeCount(bitmap, nblocks) == 0
  {
    var bitmap := seq(nbits, b => b < nblocks);
    assert !bitmap[nblocks];
    FreeCountZero(bitmap, nblocks);
  }
}

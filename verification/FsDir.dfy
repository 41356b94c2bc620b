/**
 Directories (fs.c, and the directory scans of sysfile.c): files whose contents are
 16-byte entries, read as a map from names to inode numbers.
 */
module FsDir {
  import opened Common
  import opened FsVolume
  import opened FsBytes
  import opened FileSystem

  const DENT: nat := 16

  /** Byte `k` of a C string. */
  function At(s: seq<Byte>, k: nat): Byte {
    if k < |s| then s[k] else 0
  }

  /** What a name denotes: its bytes before the first NUL, 14 at most. */
  function Canon(s: seq<Byte>): (n: seq<Byte>)
    ensures |n| <= DIRSIZ && 0 !in n
  {
    CanonTo(s, DIRSIZ)
  }

  function CanonTo(s: seq<Byte>, n: nat): (r: seq<Byte>)
    ensures |r| <= n && 0 !in r
  {
    if n == 0 || At(s, 0) == 0 then [] else [s[0]] + CanonTo(s[1..], n - 1)
  }

  /** That is, the longest beginning of at most 14 bytes, none of them NUL. */
  lemma {:induction false} CanonIs(s: seq<Byte>, n: nat)
    ensures var r := CanonTo(s, n);
            && |r| <= |s| && s[..|r|] == r && (|r| == n || At(s, |r|) == 0)
    decreases n
  {
    if n > 0 && At(s, 0) != 0 {
      CanonIs(s[1..], n - 1);
      var r := CanonTo(s[1..], n - 1);
      assert s[..|r| + 1] == [s[0]] + s[1..][..|r|];
    }
  }

  /** The 14-byte field that holds a name, padded with NULs. */
  function Field(name: seq<Byte>): (f: seq<Byte>)
    ensures |f| == DIRSIZ
  {
    Canon(name) + seq(DIRSIZ - |Canon(name)|, _ => 0)
  }

  lemma CanonStep(s: seq<Byte>, k: nat)
    requires k < DIRSIZ && k <= |s|
    ensures CanonTo(s[k..], DIRSIZ - k) ==
            if At(s, k) == 0 then [] else [At(s, k)] + CanonTo(s[k + 1..], DIRSIZ - k - 1)
  {
    if k < |s| {
      assert s[k..][1..] == s[k + 1..];
    }
  }

  lemma CanonEnd(s: seq<Byte>)
    ensures CanonTo(s, 0) == []
  {
  }

  lemma SameHead(a: Byte, s: seq<Byte>, b: Byte, t: seq<Byte>)
    ensures [a] + s == [b] + t <==> a == b && s == t
  {
    if [a] + s == [b] + t {
      assert s == ([a] + s)[1..] == ([b] + t)[1..] == t;
      assert a == ([a] + s)[0] == ([b] + t)[0] == b;
    }
  }

  /** Comparison of at most 14 bytes. */
  method NameCmp(s: seq<Byte>, t: seq<Byte>) returns (same: bool)
    ensures same <==> Canon(s) == Canon(t)
  {
    hide CanonTo;
    var k := 0;
    assert s[0..] == s && t[0..] == t;
    while k < DIRSIZ && At(s, k) != 0 && At(s, k) == At(t, k)
      invariant 0 <= k <= DIRSIZ && k <= |s| && k <= |t|
      invariant Canon(s) == Canon(t) <==> CanonTo(s[k..], DIRSIZ - k) == CanonTo(t[k..], DIRSIZ - k)
    {
      CanonStep(s, k);
      CanonStep(t, k);
      SameHead(s[k], CanonTo(s[k + 1..], DIRSIZ - k - 1), t[k], CanonTo(t[k + 1..], DIRSIZ - k - 1));
      k := k + 1;
    }
    same := k == DIRSIZ || At(s, k) == At(t, k);
    if k == DIRSIZ {
      CanonEnd(s[k..]);
      CanonEnd(t[k..]);
    } else {
      CanonStep(s, k);
      CanonStep(t, k);
      if At(s, k) != 0 && At(t, k) != 0 {
        SameHead(At(s, k), CanonTo(s[k + 1..], DIRSIZ - k - 1), At(t, k), CanonTo(t[k + 1..], DIRSIZ - k - 1));
      }
    }
  }

  lemma {:induction false} CanonPadded(n: seq<Byte>, z: nat, m: nat)
    requires 0 !in n && |n| <= m
    ensures CanonTo(n + seq(z, _ => 0), m) == n
  {
    var s := n + seq(z, _ => 0);
    if n != [] {
      assert s[1..] == n[1..] + seq(z, _ => 0);
      CanonPadded(n[1..], z, m - 1);
    }
  }

  /** A stored name reads back as the name. */
  lemma FieldRoundTrip(name: seq<Byte>)
    ensures Canon(Field(name)) == Canon(name)
  {
    CanonPadded(Canon(name), DIRSIZ - |Canon(name)|, DIRSIZ);
  }

  // ---- entries ----

  /** Whether entry `e` lies within the directory. */
  predicate Within(c: seq<Byte>, e: nat) {
    e * DENT + DENT <= |c|
  }

  function EntryInum(c: seq<Byte>, e: nat): nat
    requires Within(c, e)
  {
    var lo: int, hi: int := c[e * DENT], c[e * DENT + 1];
    lo + 256 * hi
  }

  function EntryName(c: seq<Byte>, e: nat): seq<Byte>
    requires Within(c, e)
  {
    c[e * DENT + 2..e * DENT + DENT]
  }

  /** The bytes of an entry. */
  function Entry(inum: nat, name: seq<Byte>): (b: seq<Byte>)
    requires inum < 65536
    ensures |b| == DENT
  {
    [inum % 256, inum / 256] + Field(name)
  }

  predicate Matches(c: seq<Byte>, e: nat, nm: seq<Byte>) {
    Within(c, e) && EntryInum(c, e) != 0 && Canon(EntryName(c, e)) == nm
  }

  /** The first entry for `nm` from `e` on. */
  function FirstFrom(c: seq<Byte>, nm: seq<Byte>, e: nat): (r: Option<nat>)
    ensures r.Some? ==> e <= r.value && Matches(c, r.value, nm)
    ensures r.Some? ==> forall q :: e <= q < r.value ==> !Matches(c, q, nm)
    ensures r.None? ==> forall q :: e <= q ==> !Matches(c, q, nm)
    decreases |c| - e * DENT
  {
    if !Within(c, e) then None
    else if Matches(c, e, nm) then Some(e)
    else FirstFrom(c, nm, e + 1)
  }

  /** The directory as a map: the inode number a name stands for. */
  function Lookup(c: seq<Byte>, nm: seq<Byte>): Option<nat> {
    var r := FirstFrom(c, nm, 0);
    if r.Some? then Some(EntryInum(c, r.value)) else None
  }

  /** No two used entries have the same name. */
  ghost predicate UniqueNames(c: seq<Byte>) {
    forall nm, e, f :: Matches(c, e, nm) && Matches(c, f, nm) ==> e == f
  }

  /** `d` is `c` with entry `e` holding `bytes`, and possibly that entry new at the end. */
  ghost predicate Replaced(c: seq<Byte>, d: seq<Byte>, e: nat, bytes: seq<Byte>) {
    && |bytes| == DENT && e * DENT <= |c| && |c| % DENT == 0
    && d == Splice(c, e * DENT, bytes)
  }

  lemma ReplacedEntries(c: seq<Byte>, d: seq<Byte>, e: nat, bytes: seq<Byte>)
    requires Replaced(c, d, e, bytes)
    ensures |d| % DENT == 0 && Within(d, e)
    ensures d[e * DENT..e * DENT + DENT] == bytes
    ensures forall f, nm :: f != e ==> (Matches(d, f, nm) <==> Matches(c, f, nm))
    ensures forall f: nat :: f != e && Within(c, f) ==> Within(d, f) && EntryInum(d, f) == EntryInum(c, f)
  {
    forall f: nat, nm | f != e
      ensures Matches(d, f, nm) <==> Matches(c, f, nm)
      ensures Within(c, f) ==> Within(d, f) && EntryInum(d, f) == EntryInum(c, f)
    {
      assert Within(d, f) <==> Within(c, f);
      if Within(c, f) {
        assert c[f * DENT..f * DENT + DENT] == d[f * DENT..f * DENT + DENT];
        SameEntry(c, f, d, f);
      }
    }
  }

  lemma SameEntry(c: seq<Byte>, e: nat, d: seq<Byte>, f: nat)
    requires Within(c, e) && Within(d, f)
    requires c[e * DENT..e * DENT + DENT] == d[f * DENT..f * DENT + DENT]
    ensures EntryInum(c, e) == EntryInum(d, f) && EntryName(c, e) == EntryName(d, f)
  {
    var s, t := c[e * DENT..e * DENT + DENT], d[f * DENT..f * DENT + DENT];
    assert c[e * DENT] == s[0] && c[e * DENT + 1] == s[1] && EntryName(c, e) == s[2..];
    assert d[f * DENT] == t[0] && d[f * DENT + 1] == t[1] && EntryName(d, f) == t[2..];
  }

  /** Filling a free entry with a new name adds that name to the map and changes nothing else. */
  lemma LinkedMap(c: seq<Byte>, d: seq<Byte>, e: nat, inum: nat, name: seq<Byte>)
    requires 0 < inum < 65536 && Replaced(c, d, e, Entry(inum, name))
    requires Within(c, e) ==> EntryInum(c, e) == 0
    requires Lookup(c, Canon(name)) == None
    ensures forall nm :: Lookup(d, nm) == if nm == Canon(name) then Some(inum) else Lookup(c, nm)
    ensures UniqueNames(c) ==> UniqueNames(d)
    ensures |d| % DENT == 0 && |d| == Max(|c|, e * DENT + DENT)
    ensures Matches(d, e, Canon(name)) && forall f, nm :: Matches(c, f, nm) ==> Matches(d, f, nm)
  {
    ReplacedEntries(c, d, e, Entry(inum, name));
    FieldRoundTrip(name);
    var b := Entry(inum, name);
    assert d[e * DENT] == b[0] && d[e * DENT + 1] == b[1] && EntryName(d, e) == b[2..] == Field(name);
    assert EntryInum(d, e) == inum;
    forall nm
      ensures Lookup(d, nm) == if nm == Canon(name) then Some(inum) else Lookup(c, nm)
    {
      var x, y := FirstFrom(d, nm, 0), FirstFrom(c, nm, 0);
      if nm == Canon(name) {
        assert Matches(d, e, nm);
        assert x == Some(e);
      } else {
        assert forall f :: Matches(d, f, nm) <==> Matches(c, f, nm);
        assert x == y;
      }
    }
  }

  /** Directory `d` is `c` without `nm`, as a map; all other entries keep their places. */
  ghost predicate Erased(c: seq<Byte>, d: seq<Byte>, nm: seq<Byte>) {
    && (forall x :: Lookup(d, x) == if x == nm then None else Lookup(c, x))
    && UniqueNames(d) && |d| == |c|
    && forall e, x :: x != nm && Matches(c, e, x) ==> Matches(d, e, x)
  }

  /** Zeroing the entry of a name removes that name from the map and changes nothing else. */
  lemma ErasedMap(c: seq<Byte>, d: seq<Byte>, e: nat, name: seq<Byte>)
    requires UniqueNames(c) && Matches(c, e, name) && |c| % DENT == 0
    requires d == Splice(c, e * DENT, seq(DENT, _ => 0))
    ensures Erased(c, d, name)
  {
    var b := seq(DENT, _ => 0);
    ReplacedEntries(c, d, e, b);
    assert d[e * DENT] == b[0] && d[e * DENT + 1] == b[1];
    assert EntryInum(d, e) == 0;
    forall nm
      ensures Lookup(d, nm) == if nm == name then None else Lookup(c, nm)
    {
      var x, y := FirstFrom(d, nm, 0), FirstFrom(c, nm, 0);
      if nm == name {
        assert forall f :: Matches(d, f, nm) ==> f != e && Matches(c, f, nm);
      } else {
        assert forall f :: Matches(d, f, nm) <==> Matches(c, f, nm);
        assert x == y;
      }
    }
  }

  /** The names "." and "..". */
  const DOT: seq<Byte> := [46]
  const DOTDOT: seq<Byte> := [46, 46]

  /**
   With "." and ".." in the first two places, a scan from the third place on tells
   whether the map holds any other name.
   */
  lemma OnlyDots(c: seq<Byte>)
    requires UniqueNames(c) && Matches(c, 0, DOT) && Matches(c, 1, DOTDOT)
    ensures (forall e :: 2 <= e && Within(c, e) ==> EntryInum(c, e) == 0) <==>
            (forall nm :: Lookup(c, nm).Some? ==> nm == DOT || nm == DOTDOT)
  {
    if forall e :: 2 <= e && Within(c, e) ==> EntryInum(c, e) == 0 {
      forall nm | Lookup(c, nm).Some?
        ensures nm == DOT || nm == DOTDOT
      {
        var e := FirstFrom(c, nm, 0).value;
        assert e < 2;
      }
    }
    forall e | 2 <= e && Within(c, e) && EntryInum(c, e) != 0
      ensures Lookup(c, Canon(EntryName(c, e))).Some?
      ensures Canon(EntryName(c, e)) != DOT && Canon(EntryName(c, e)) != DOTDOT
    {
      assert Matches(c, e, Canon(EntryName(c, e)));
    }
  }

  // ---- scanning directories on disk ----

  const PERBLOCK: nat := 32

  /** Entries of a block are entries of the directory, or past its end and then unused. */
  lemma BlockEntry(v: Vol, k: Book, i: nat, bn: nat, e: nat)
    requires i < |v.nodes| == |k.count| && FileRest(v, k, i) && v.nodes[i].size % DENT == 0
    requires bn * BSIZE < v.nodes[i].size && e < PERBLOCK
    ensures bn < MAXFILE && Within(FileBlock(v, i, bn), e)
    ensures var c, b, f := Contents(v, i), FileBlock(v, i, bn), bn * PERBLOCK + e;
            if Within(c, f) then EntryInum(b, e) == EntryInum(c, f) && EntryName(b, e) == EntryName(c, f)
            else EntryInum(b, e) == 0
  {
    hide FileBlock, Contents, FileByte, EntryInum, EntryName;
    if Within(Contents(v, i), bn * PERBLOCK + e) {
      InsideEntry(v, i, bn, e);
    } else {
      OutsideEntry(v, k, i, bn, e);
    }
  }

  lemma InsideEntry(v: Vol, i: nat, bn: nat, e: nat)
    requires i < |v.nodes| && v.nodes[i].size <= MAXBYTES && bn < MAXFILE && e < PERBLOCK
    requires Within(Contents(v, i), bn * PERBLOCK + e)
    ensures var c, b, f := Contents(v, i), FileBlock(v, i, bn), bn * PERBLOCK + e;
            && Within(b, e) && EntryInum(b, e) == EntryInum(c, f) && EntryName(b, e) == EntryName(c, f)
  {
    hide FileBlock, Contents, FileByte, EntryInum, EntryName;
    var f := bn * PERBLOCK + e;
    assert f * DENT == bn * BSIZE + e * DENT;
    BlockParts(bn, e * DENT);
    SliceOfBlock(v, i, f * DENT, DENT);
    SameEntry(Contents(v, i), f, FileBlock(v, i, bn), e);
  }

  lemma OutsideEntry(v: Vol, k: Book, i: nat, bn: nat, e: nat)
    requires i < |v.nodes| == |k.count| && FileRest(v, k, i) && v.nodes[i].size % DENT == 0
    requires bn * BSIZE < v.nodes[i].size && bn < MAXFILE && e < PERBLOCK
    requires !Within(Contents(v, i), bn * PERBLOCK + e)
    ensures Within(FileBlock(v, i, bn), e) && EntryInum(FileBlock(v, i, bn), e) == 0
  {
    hide FileBlock, Contents, FileByte, FileRest;
    assert v.nodes[i].size <= bn * BSIZE + e * DENT;
    PastEnd(v, k, i, bn, e * DENT);
    PastEnd(v, k, i, bn, e * DENT + 1);
  }

  /** The bytes of the last block of a file past its size are zero. */
  lemma PastEnd(v: Vol, k: Book, i: nat, bn: nat, o: nat)
    requires i < |v.nodes| == |k.count| && FileRest(v, k, i) && bn < MAXFILE
    requires bn * BSIZE < v.nodes[i].size <= bn * BSIZE + o && o < BSIZE
    ensures FileBlock(v, i, bn)[o] == 0
  {
    hide FileBlock;
    BlockParts(bn, o);
    assert bn * BSIZE + o < k.count[i] * BSIZE;
    assert FileByte(v, i, bn * BSIZE + o) == 0;
  }

  /** The first entry of a block that is used and has this name. */
  method ScanBlock(b: Block, name: seq<Byte>) returns (e: nat)
    ensures e <= PERBLOCK
    ensures e < PERBLOCK ==> Matches(b, e, Canon(name))
    ensures forall q :: 0 <= q < e ==> !Matches(b, q, Canon(name))
  {
    e := 0;
    while e < PERBLOCK
      invariant 0 <= e <= PERBLOCK
      invariant forall q :: 0 <= q < e ==> !Matches(b, q, Canon(name))
    {
      if EntryInum(b, e) != 0 {
        var same := NameCmp(name, EntryName(b, e));
        if same {
          return;
        }
      }
      e := e + 1;
    }
  }

  /** What scanning one whole block says about the directory. */
  lemma ScannedBlock(v: Vol, k: Book, i: nat, bn: nat, nm: seq<Byte>, e: nat)
    requires i < |v.nodes| == |k.count| && FileRest(v, k, i) && v.nodes[i].size % DENT == 0
    requires bn * BSIZE < v.nodes[i].size && bn < MAXFILE && e <= PERBLOCK
    requires e < PERBLOCK ==> Matches(FileBlock(v, i, bn), e, nm)
    requires forall q :: 0 <= q < e ==> !Matches(FileBlock(v, i, bn), q, nm)
    ensures var c, f := Contents(v, i), bn * PERBLOCK;
            if e < PERBLOCK
            then && FirstFrom(c, nm, f) == Some(f + e) && Within(FileBlock(v, i, bn), e)
                 && EntryInum(c, f + e) == EntryInum(FileBlock(v, i, bn), e)
            else FirstFrom(c, nm, f) == FirstFrom(c, nm, f + PERBLOCK)
  {
    hide FileBlock, Contents, FileRest, CanonTo, Within;
    var c, f := Contents(v, i), bn * PERBLOCK;
    forall q | 0 <= q < PERBLOCK
      ensures Matches(c, f + q, nm) <==> Matches(FileBlock(v, i, bn), q, nm)
    {
      BlockEntry(v, k, i, bn, q);
    }
    forall g | f <= g < f + PERBLOCK
      ensures Matches(c, g, nm) <==> Matches(FileBlock(v, i, bn), g - f, nm)
    {
      assert Matches(c, f + (g - f), nm) <==> Matches(FileBlock(v, i, bn), g - f, nm);
    }
    if e < PERBLOCK {
      BlockEntry(v, k, i, bn, e);
    }
  }

  /** Scan the directory's blocks, whole blocks at a time: the answer is that of a scan bounded by the size. */
  method DirLookup(fs: Fs, s: nat, name: seq<Byte>) returns (r: Option<(nat, nat)>)
    requires fs.Valid() && Locked(fs.icache, s) && fs.icache[s].d.kind == T_DIR
    requires fs.cur[fs.icache[s].inum].size % DENT == 0
    modifies fs`bitmap, fs`blocks, fs`icache, fs`cur, fs`book, fs.disk
    ensures fs.Valid() && fs.V() == old(fs.V()) && fs.book == old(fs.book) && fs.icache == old(fs.icache)
    ensures var c := Contents(fs.V(), fs.icache[s].inum);
            match FirstFrom(c, Canon(name), 0)
            case None => r == None
            case Some(e) => r == Some((EntryInum(c, e), e * DENT))
  {
    hide Inv, CacheAgrees, fs.Cached, RestExcept, FileByte, Canon, CanonTo, Matches, Contents, FileBlock, EntryInum;
    fs.AtRest(s);
    ghost var i := fs.icache[s].inum;
    ghost var v := fs.V();
    ghost var c := Contents(v, i);
    ghost var bn := 0;
    var off := 0;
    while off < fs.icache[s].d.size
      invariant 0 <= bn && off == bn * BSIZE
      invariant fs.Base() && fs.V() == v && fs.book == old(fs.book) && fs.icache == old(fs.icache)
      invariant FirstFrom(c, Canon(name), 0) == FirstFrom(c, Canon(name), bn * PERBLOCK)
    {
      BlockParts(bn, 0);
      var addr := fs.BMapPresent(s, off / BSIZE);
      var b := fs.ReadBlock(addr);
      var e := ScanBlock(b, name);
      ScannedBlock(v, fs.book, i, bn, Canon(name), e);
      if e < PERBLOCK {
        return Some((EntryInum(b, e), off + e * DENT));
      }
      off := off + BSIZE;
      bn := bn + 1;
    }
    r := None;
  }

  /** The first unused entry from `e` on, or the end of the directory. */
  function FirstFree(c: seq<Byte>, e: nat): (r: nat)
    requires e * DENT <= |c| && |c| % DENT == 0
    ensures e <= r && r * DENT <= |c| && (Within(c, r) ==> EntryInum(c, r) == 0)
    ensures forall q :: e <= q < r ==> Within(c, q) && EntryInum(c, q) != 0
    decreases |c| - e * DENT
  {
    if !Within(c, e) || EntryInum(c, e) == 0 then e else FirstFree(c, e + 1)
  }

  /** Read entry `e` of a directory through `ReadI`. */
  method ReadEntry(fs: Fs, s: nat, e: nat) returns (inum: nat)
    requires fs.Valid() && Locked(fs.icache, s) && fs.icache[s].d.kind == T_DIR
    requires fs.cur[fs.icache[s].inum].size % DENT == 0 && e * DENT < fs.cur[fs.icache[s].inum].size
    modifies fs`bitmap, fs`blocks, fs`icache, fs`cur, fs`book, fs.disk
    ensures fs.Valid() && fs.V() == old(fs.V()) && fs.book == old(fs.book) && fs.icache == old(fs.icache)
    ensures var c := Contents(fs.V(), fs.icache[s].inum); Within(c, e) && inum == EntryInum(c, e)
  {
    hide Inv, CacheAgrees, fs.Cached, RestExcept, FileByte, Contents;
    fs.AtRest(s);
    ghost var c := Contents(fs.V(), fs.icache[s].inum);
    var n, de := fs.ReadI(s, e * DENT, DENT);
    assert de == c[e * DENT..e * DENT + DENT];
    inum := EntryInum(de, 0);
    SameEntry(c, e, de, 0);
  }

  /** The place for a new entry. */
  method FindFree(fs: Fs, s: nat) returns (e: nat)
    requires fs.Valid() && Locked(fs.icache, s) && fs.icache[s].d.kind == T_DIR
    requires fs.cur[fs.icache[s].inum].size % DENT == 0
    modifies fs`bitmap, fs`blocks, fs`icache, fs`cur, fs`book, fs.disk
    ensures fs.Valid() && fs.V() == old(fs.V()) && fs.book == old(fs.book) && fs.icache == old(fs.icache)
    ensures e == FirstFree(Contents(fs.V(), fs.icache[s].inum), 0)
  {
    hide Inv, CacheAgrees, fs.Cached, RestExcept, FileByte;
    fs.AtRest(s);
    ghost var c := Contents(fs.V(), fs.icache[s].inum);
    e := 0;
    while e * DENT < fs.icache[s].d.size
      invariant e * DENT <= |c|
      invariant fs.Valid() && fs.V() == old(fs.V()) && fs.book == old(fs.book) && fs.icache == old(fs.icache)
      invariant FirstFree(c, 0) == FirstFree(c, e)
      decreases |c| - e * DENT
    {
      var inum := ReadEntry(fs, s, e);
      if inum == 0 {
        return;
      }
      e := e + 1;
    }
  }

  /** Whether a directory holds nothing but its first two entries. */
  method IsDirEmpty(fs: Fs, s: nat) returns (empty: bool)
    requires fs.Valid() && Locked(fs.icache, s) && fs.icache[s].d.kind == T_DIR
    requires fs.cur[fs.icache[s].inum].size % DENT == 0
    modifies fs`bitmap, fs`blocks, fs`icache, fs`cur, fs`book, fs.disk
    ensures fs.Valid() && fs.V() == old(fs.V()) && fs.book == old(fs.book) && fs.icache == old(fs.icache)
    ensures var c := Contents(fs.V(), fs.icache[s].inum);
            empty <==> forall e :: 2 <= e && Within(c, e) ==> EntryInum(c, e) == 0
  {
    hide Inv, CacheAgrees, fs.Cached, RestExcept, FileByte, Contents;
    fs.AtRest(s);
    ghost var c := Contents(fs.V(), fs.icache[s].inum);
    var e := 2;
    while e * DENT < fs.icache[s].d.size
      invariant 2 <= e
      invariant fs.Valid() && fs.V() == old(fs.V()) && fs.book == old(fs.book) && fs.icache == old(fs.icache)
      invariant forall f :: 2 <= f < e && Within(c, f) ==> EntryInum(c, f) == 0
      decreases |c| - e * DENT
    {
      var inum := ReadEntry(fs, s, e);
      if inum != 0 {
        return false;
      }
      e := e + 1;
    }
    empty := true;
  }

  /** Directory `d` is `c` with `nm` standing for `inum`, as a map: in the first place that was free, with all other
      entries in theirs. Names stay unique and entries whole. */
  ghost predicate LinkResult(c: seq<Byte>, d: seq<Byte>, nm: seq<Byte>, inum: nat) {
    && (forall x :: Lookup(d, x) == if x == nm then Some(inum) else Lookup(c, x))
    && (UniqueNames(c) ==> UniqueNames(d))
    && |c| % DENT == 0 && |d| % DENT == 0 && |d| == Max(|c|, FirstFree(c, 0) * DENT + DENT)
    && Matches(d, FirstFree(c, 0), nm) && forall e, x :: Matches(c, e, x) ==> Matches(d, e, x)
  }

  /** Where the next entry of directory contents `c` will end. */
  function EntryEnd(c: seq<Byte>): nat
    requires |c| % DENT == 0
  {
    FirstFree(c, 0) * DENT + DENT
  }

  /** Whether there is room for one more entry in directory contents `c`, with `besides` blocks taken elsewhere. */
  ghost predicate Room(fs: Fs, bits: seq<bool>, c: seq<Byte>, besides: nat)
    requires |c| % DENT == 0 && fs.nblocks <= |bits|
  {
    EntryEnd(c) <= MAXBYTES && FreeCount(bits, fs.nblocks) >= More(|c|, EntryEnd(c)) + besides
  }

  /** Put (name, inum) in the first unused entry. */
  method AddEntry(fs: Fs, s: nat, name: seq<Byte>, inum: nat) returns (ok: bool)
    requires fs.Valid() && Locked(fs.icache, s) && fs.icache[s].d.kind == T_DIR
    requires fs.cur[fs.icache[s].inum].size % DENT == 0 && 0 < inum < 65536
    requires Lookup(Contents(fs.V(), fs.icache[s].inum), Canon(name)) == None
    modifies fs, fs.disk
    ensures ok <==> Room(fs, old(fs.bitmap), old(Contents(fs.V(), fs.icache[s].inum)), 0)
    ensures ok ==> fs.Valid()
    ensures ok ==> var c := old(Contents(fs.V(), fs.icache[s].inum));
                   FreeCount(fs.bitmap, fs.nblocks) ==
                   FreeCount(old(fs.bitmap), fs.nblocks) - More(|c|, EntryEnd(c))
    ensures ok ==>
              var i := old(fs.icache[s].inum);
              var c, d := old(Contents(fs.V(), fs.icache[s].inum)), Contents(fs.V(), i);
              && LinkResult(c, d, Canon(name), inum)
              && fs.icache == old(fs.icache)[s := old(fs.icache[s]).(d := fs.cur[i])]
              && fs.cur[i] == old(fs.cur[fs.icache[s].inum]).(size := fs.cur[i].size, addrs := fs.cur[i].addrs)
              && (|| fs.dinodes == old(fs.dinodes)[i := fs.cur[i]]
                  || (fs.dinodes == old(fs.dinodes) && fs.cur == old(fs.cur)))
    ensures ok ==> forall j :: 0 <= j < fs.ninodes && j != old(fs.icache[s].inum) ==>
                     fs.cur[j] == old(fs.cur[j]) && Contents(fs.V(), j) == old(Contents(fs.V(), j))
  {
    hide Inv, CacheAgrees, fs.Cached, RestExcept, FileByte, CanonTo, Contents, Matches, UniqueNames, Splice, FreeCount,
         Taken, Lookup;
    fs.AtRest(s);
    ghost var i := fs.icache[s].inum;
    ghost var c := Contents(fs.V(), i);
    var e := FindFree(fs, s);
    var de := Entry(inum, name);
    var n;
    n, ok := fs.WriteI(s, de, e * DENT);
    ok := ok && n == DENT;
    if ok {
      assert de[..DENT] == de;
      LinkedMap(c, Contents(fs.V(), i), e, inum, name);
    }
  }

  /** Add (name, inum) to a directory, unless the name is there. */
  method DirLink(fs: Fs, s: nat, name: seq<Byte>, inum: nat) returns (r: int, ok: bool)
    requires fs.Valid() && Locked(fs.icache, s) && fs.icache[s].d.kind == T_DIR
    requires fs.cur[fs.icache[s].inum].size % DENT == 0 && 0 < inum < 65536
    modifies fs, fs.disk
    ensures r == if old(Lookup(Contents(fs.V(), fs.icache[s].inum), Canon(name))).Some? then -1 else 0
    ensures r == -1 ==> ok && fs.V() == old(fs.V()) && fs.icache == old(fs.icache) && fs.dinodes == old(fs.dinodes)
    ensures r == 0 ==> (ok <==> Room(fs, old(fs.bitmap), old(Contents(fs.V(), fs.icache[s].inum)), 0))
    ensures ok ==> fs.Valid()
    ensures ok && r == 0 ==> var c := old(Contents(fs.V(), fs.icache[s].inum));
                             FreeCount(fs.bitmap, fs.nblocks) ==
                             FreeCount(old(fs.bitmap), fs.nblocks) - More(|c|, EntryEnd(c))
    ensures ok && r == 0 ==>
              var i := old(fs.icache[s].inum);
              var c, d := old(Contents(fs.V(), fs.icache[s].inum)), Contents(fs.V(), i);
              && LinkResult(c, d, Canon(name), inum)
              && fs.icache == old(fs.icache)[s := old(fs.icache[s]).(d := fs.cur[i])]
              && fs.cur[i] == old(fs.cur[fs.icache[s].inum]).(size := fs.cur[i].size, addrs := fs.cur[i].addrs)
              && (|| fs.dinodes == old(fs.dinodes)[i := fs.cur[i]]
                  || (fs.dinodes == old(fs.dinodes) && fs.cur == old(fs.cur)))
    ensures ok ==> forall j :: 0 <= j < fs.ninodes && j != old(fs.icache[s].inum) ==>
                     fs.cur[j] == old(fs.cur[j]) && Contents(fs.V(), j) == old(Contents(fs.V(), j))
  {
    hide Inv, CacheAgrees, fs.Cached, RestExcept, FileByte, CanonTo, Contents, Matches, UniqueNames, FreeCount, Taken,
         LinkResult;
    var hit := DirLookup(fs, s, name);
    if hit.Some? {
      return -1, true;
    }
    r := 0;
    ok := AddEntry(fs, s, name, inum);
  }

  /** Clear the entry of a name, as unlinking does. */
  method EraseEntry(fs: Fs, s: nat, off: nat, ghost e: nat, ghost nm: seq<Byte>) returns (ok: bool)
    requires fs.Valid() && Locked(fs.icache, s) && fs.icache[s].d.kind == T_DIR
    requires fs.cur[fs.icache[s].inum].size % DENT == 0
    requires var c := Contents(fs.V(), fs.icache[s].inum); UniqueNames(c) && Matches(c, e, nm) && off == e * DENT
    modifies fs, fs.disk
    ensures ok && fs.Valid() && fs.cur == old(fs.cur) && fs.dinodes == old(fs.dinodes) && fs.icache == old(fs.icache)
    ensures var i := old(fs.icache[s].inum);
            Erased(old(Contents(fs.V(), fs.icache[s].inum)), Contents(fs.V(), i), nm)
    ensures forall j :: 0 <= j < fs.ninodes && j != old(fs.icache[s].inum) ==>
              Contents(fs.V(), j) == old(Contents(fs.V(), j))
  {
    hide Inv, CacheAgrees, fs.Cached, RestExcept, FileByte, CanonTo, Contents, UniqueNames, FreeCount;
    fs.AtRest(s);
    ghost var i := fs.icache[s].inum;
    ghost var c := Contents(fs.V(), i);
    var zeros := seq(DENT, _ => 0);
    var n;
    n, ok := fs.WriteI(s, zeros, off);
    assert zeros[..DENT] == zeros;
    ErasedMap(c, Contents(fs.V(), i), e, nm);
  }
}

/** The kernel's SFS reader (fs/sfs/sfs.c) over the buffer cache: the backward index scan, whole
    files, and reads at a file position. */
module SfsReader {
  import opened Bytes
  import opened BufferRing
  import opened SfsFormat
  import opened SfsImage
  import opened Cache
  import MkSfs

  const SFS_DEV := 256         // MKDEV(MEM_MAJOR, 0)

  // offsets in an index entry
  const DIR_NAME := 10
  const BLK_START := 10
  const BLK_END := 18
  const LEN := 26
  const FILE_NAME := 34
  const VOL_NAME := 12

  // ---- what a lookup means -----------------------------------------------------------------------

  /** A query the reader handles by the in-entry name. */
  predicate Query(q: seq<Byte>) {
    |q| <= FILE_SPACE && forall i :: 0 <= i < |q| ==> q[i] != 0
  }

  /** Regular files match by prefix; a directory only matches the empty query. */
  predicate Match(f: HostFile, q: seq<Byte>) {
    if f.Regular? then q <= f.name else q == []
  }

  /** The number of the most recently packed match, or -1. */
  function Lookup(fs: seq<HostFile>, q: seq<Byte>): (i: int)
    ensures -1 <= i < |fs|
    ensures i >= 0 ==> Match(fs[i], q)
    ensures forall j :: i < j < |fs| ==> !Match(fs[j], q)
  {
    if fs == [] then -1
    else if Match(fs[|fs| - 1], q) then |fs| - 1
    else Lookup(fs[..|fs| - 1], q)
  }

  /** The file a query reads, if there is one. */
  predicate Readable(fs: seq<HostFile>, q: seq<Byte>) {
    Lookup(fs, q) >= 0 && fs[Lookup(fs, q)].Regular?
  }

  function Min(a: nat, b: nat): nat { if a < b then a else b }

  function Total(sizes: seq<nat>): nat {
    if sizes == [] then 0 else Total(sizes[..|sizes| - 1]) + sizes[|sizes| - 1]
  }

  // ---- where things lie ---------------------------------------------------------------------------

  lemma {:induction false} IndexPrefix(fs: seq<HostFile>, n: nat)
    requires GoodFiles(fs) && n <= |fs|
    ensures GoodFiles(fs[..n]) && Index(fs[..n]) <= Index(fs) && Area(fs[..n]) <= Area(fs)
    decreases |fs|
  {
    hide HeaderEntry, ContEntry, GoodFile, BlocksFor;
    if n == |fs| {
      assert fs[..n] == fs;
    } else {
      GoodPrefix(fs);
      IndexPrefix(fs[..|fs| - 1], n);
      assert fs[..|fs| - 1][..n] == fs[..n];
    }
  }

  lemma LastEntries(fs: seq<HostFile>)
    requires GoodFiles(fs) && fs != []
    ensures
      var rest, f := fs[..|fs| - 1], fs[|fs| - 1];
      && GoodFiles(rest) && GoodFile(f) && |Area(rest)| + |BlocksFor(f)| < WORD_LIMIT
      && Index(fs) == Index(rest) + EntriesOf(f, |Area(rest)|)
  {
    hide Area, BlocksFor, EntriesOf;
    GoodPrefix(fs);
  }

  /** Entry `IndexCount(fs[..n]) - 1` is the header of file `n - 1`, or the root directory. */
  lemma HeaderAt(fs: seq<HostFile>, n: nat)
    requires GoodFiles(fs) && n <= |fs|
    ensures 1 <= IndexCount(fs[..n]) - 1 < |Index(fs)|
    ensures n == 0 ==> IndexCount(fs[..n]) == 2 && Index(fs)[1] == DirEntry([47], 0, 21)
    ensures n > 0 ==>
              && Placed(fs, n - 1)
              && Index(fs)[IndexCount(fs[..n]) - 1] == HeaderEntry(fs[n - 1], |Area(fs[..n - 1])|)
    ensures n > 0 ==> IndexCount(fs[..n]) - 1 - (Nie(|fs[n - 1].name|) + 1) == IndexCount(fs[..n - 1]) - 1
  {
    hide HeaderEntry, Area, Index, DirEntry;
    IndexPrefix(fs, n);
    var p := fs[..n];
    IndexLength(p);
    if n > 0 {
      LastEntries(p);
      assert p[..n - 1] == fs[..n - 1];
    } else {
      EmptyIndex(p);
    }
  }

  lemma EmptyIndex(fs: seq<HostFile>)
    requires fs == [] && GoodFiles(fs)
    ensures Index(fs) == [VolumeEntry(), DirEntry([47], 0, 21)]
  {
  }

  /** The header of file `i` can be formed. */
  predicate Placed(fs: seq<HostFile>, i: nat)
    requires i < |fs|
  {
    GoodFile(fs[i]) && |Area(fs[..i])| + |BlocksFor(fs[i])| < WORD_LIMIT
  }

  /** The blocks of file `i` start at block `|Area(fs[..i])|` of the data area. */
  lemma BlocksAt(fs: seq<HostFile>, i: nat, j: nat)
    requires GoodFiles(fs) && i < |fs| && j < |BlocksFor(fs[i])|
    ensures |Area(fs[..i])| + j < |Area(fs)| && Area(fs)[|Area(fs[..i])| + j] == BlocksFor(fs[i])[j]
  {
    hide BlocksOf, Area, Index, GoodFiles;
    IndexPrefix(fs, i + 1);
    assert fs[..i + 1][..i] == fs[..i];
    LastBlocks(fs[..i + 1]);
    assert Area(fs)[|Area(fs[..i])| + j] == Area(fs[..i + 1])[|Area(fs[..i])| + j];
  }

  lemma LastBlocks(fs: seq<HostFile>)
    requires fs != []
    ensures Area(fs) == Area(fs[..|fs| - 1]) + BlocksFor(fs[|fs| - 1])
  {
  }

  /** A stretch of one block is a stretch of the file. */
  lemma BlockSlice(c: seq<Byte>, j: nat, a: nat, n: nat)
    requires a + n <= BLKSZ && BLKSZ * j + a + n <= |c| && n > 0
    ensures j < |BlocksOf(c)| && BlocksOf(c)[j][a..a + n] == c[BLKSZ * j + a..BLKSZ * j + a + n]
  {
    hide BlocksOf;
    BlockByte(c, BLKSZ * j + a);
    OneOf(j, a);
    var b: Sector := BlocksOf(c)[j];
    var o := BLKSZ * j;
    forall k | a <= k < a + n ensures b[k] == c[o + k] {
      BlockByte(c, o + k);
      OneOf(j, k);
    }
  }

  lemma OneOf(j: nat, a: nat)
    requires a < BLKSZ
    ensures (BLKSZ * j + a) / BLKSZ == j && (BLKSZ * j + a) % BLKSZ == a
  {
  }

  // ---- fields of an entry ------------------------------------------------------------------------

  lemma FileFields(name: seq<Byte>, start: nat, end: nat, len: nat)
    requires start < WORD_LIMIT && end < WORD_LIMIT && len < WORD_LIMIT && Nie(|name|) < 256
    ensures
      var e := FileEntry(name, start, end, len);
      && e[0] == FILE_ENT && e[1] == Nie(|name|) && Word(e, BLK_START) == start && Word(e, BLK_END) == end
      && Word(e, LEN) == len && e[FILE_NAME..] == Padded(name, FILE_SPACE)
  {
    hide Long, Nie, Padded;
    var e := FileEntry(name, start, end, len);
    assert e[BLK_START..BLK_START + 8] == Long(start);
    assert e[BLK_END..BLK_END + 8] == Long(end);
    assert e[LEN..LEN + 8] == Long(len);
  }

  /** A directory as mk_sfs lays it out, like a file without blocks. In the kernel's layout its name
      starts with zeros. */
  lemma DirFields(name: seq<Byte>, ne: nat, len: nat)
    requires ne < 256 && len < WORD_LIMIT
    ensures
      var e := DirEntry(name, ne, len);
      && e[0] == DIR_ENT && e[1] == ne && e[DIR_NAME] == 0 && Word(e, BLK_START) == 0 && Word(e, BLK_END) == 0
      && Word(e, LEN) == len && e[FILE_NAME..] == Padded(name, FILE_SPACE)
  {
    hide Long, Padded;
    var e := DirEntry(name, ne, len);
    assert e[BLK_END..BLK_END + 8] == Long(0);
    assert e[LEN..LEN + 8] == Long(len);
    assert e[DIR_NAME..DIR_NAME + 8] == Long(0);
    assert Long(0)[0] == 0 by { LongZero(); }
  }

  lemma LongZero()
    ensures Long(0)[0] == 0
  {
  }

  /** The volume identifier has the name "sfs-1.0"; the start marker is empty. */
  lemma FixedFields()
    ensures
      var e := VolumeEntry();
      && e[0] == VOLUME_ID && e[VOL_NAME..VOL_NAME + 7] == [115, 102, 115, 45, 49, 46, 48]
      && forall i :: 1 <= i < VOL_NAME || VOL_NAME + 7 <= i < IE_SIZE ==> e[i] == 0
    ensures MarkEntry()[0] == START_MARK && forall i :: 1 <= i < IE_SIZE ==> MarkEntry()[i] == 0
  {
    var n: seq<Byte> := [115, 102, 115, 45, 49, 46, 48];
    var e := VolumeEntry();
    assert e[VOL_NAME..] == Padded(n, 52);
    assert e[VOL_NAME..VOL_NAME + 7] == n;
    assert forall i :: VOL_NAME + 7 <= i < IE_SIZE ==> e[i] == e[VOL_NAME..][i - VOL_NAME];
  }

  /** Every volume starts with its identifier and the root directory "/" with 21 bytes of items. */
  lemma {:induction false} FirstEntries(fs: seq<HostFile>)
    requires GoodFiles(fs)
    ensures
      var es := Index(fs);
      && es[0] == VolumeEntry() && es[1][0] == DIR_ENT && es[1][1] == 0 && Word(es[1], LEN) == 21
      && es[1][FILE_NAME..] == Padded([47], FILE_SPACE)
  {
    hide DirEntry, VolumeEntry, Padded;
    if fs == [] {
      DirFields([47], 0, 21);
    } else {
      GoodPrefix(fs);
      FirstEntries(fs[..|fs| - 1]);
    }
  }

  /** Comparing with the padded name is comparing with a prefix of the name. */
  lemma PrefixMatch(q: seq<Byte>, name: seq<Byte>)
    requires Query(q)
    ensures Padded(name, FILE_SPACE)[..|q|] == q <==> q <= name
  {
    var p := Padded(name, FILE_SPACE);
    if p[..|q|] == q {
      forall i | 0 <= i < |q| ensures i < |name| && q[i] == name[i] {
        assert p[..|q|][i] == q[i] && q[i] != 0;
      }
      if q != [] {
        assert q[|q| - 1] == name[|q| - 1];
      }
    }
    if q <= name {
      assert forall i :: 0 <= i < |q| ==> p[i] == q[i];
      assert p[..|q|] == q;
    }
  }

  /** What the scan finds at a header: its kind, how far to step, and whether the name matches. */
  lemma HeaderMatch(f: HostFile, start: nat, q: seq<Byte>)
    requires GoodFile(f) && 1 <= start && start + |BlocksFor(f)| < WORD_LIMIT && Query(q)
    ensures
      var e := HeaderEntry(f, start);
      && e[0] == (if f.Regular? then FILE_ENT else DIR_ENT) && e[1] == Nie(|f.name|)
      && (NameIs(e, if f.Regular? then FILE_NAME else DIR_NAME, q) <==> Match(f, q))
  {
    hide FileEntry, DirEntry, BlocksOf, Nie;
    match f
    case Regular(name, content) =>
      FileFields(name, start, start + |BlocksOf(content)| - 1, |content|);
      PrefixMatch(q, name);
      var e := HeaderEntry(f, start);
      assert e[FILE_NAME..][..|q|] == e[FILE_NAME..FILE_NAME + |q|];
    case Directory(name) =>
      DirFields(name, Nie(|name|), 0);
      NoDirMatch(HeaderEntry(f, start), q);
  }

  lemma NoDirMatch(e: Entry, q: seq<Byte>)
    requires Query(q) && e[DIR_NAME] == 0
    ensures NameIs(e, DIR_NAME, q) <==> q == []
  {
    if q != [] {
      assert e[DIR_NAME..DIR_NAME + |q|][0] == 0;
    }
  }

  predicate NameIs(e: Entry, o: nat, q: seq<Byte>)
    requires o <= FILE_NAME && |q| <= FILE_SPACE
  {
    e[o..o + |q|] == q
  }

  /** strncmp(q, name, |q|) == 0: the kernel's loop does not stop at a terminator. */
  method SameName(e: Entry, o: nat, q: seq<Byte>) returns (same: bool)
    requires o <= FILE_NAME && |q| <= FILE_SPACE
    ensures same <==> NameIs(e, o, q)
  {
    var i := 0;
    while i < |q| && q[i] == e[o + i]
      invariant 0 <= i <= |q| && forall k :: 0 <= k < i ==> q[k] == e[o + k]
    {
      i := i + 1;
    }
    if i < |q| {
      assert e[o..o + |q|][i] != q[i];
    }
    return i == |q|;
  }

  // ---- the disk -----------------------------------------------------------------------------------

  ghost predicate OnDisk(disk: seq<Sector>, img: seq<Byte>, nblk: nat) {
    |img| == BLKSZ * nblk && nblk <= |disk| && forall s :: 0 <= s < nblk ==> BlockIs(img, s, disk[s])
  }

  lemma EntryOnDisk(disk: seq<Sector>, img: seq<Byte>, nblk: nat, k: nat)
    requires OnDisk(disk, img, nblk) && k < IPB * nblk
    ensures EntryBlock(nblk, k) < |disk|
    ensures disk[EntryBlock(nblk, k)][EntryOffset(k)..EntryOffset(k) + IE_SIZE] == EntryAt(img, nblk, k)
  {
    AddressesAgree(nblk, k);
    var n := EntryBlock(nblk, k);
    assert BlockIs(img, n, disk[n]);
    assert n < nblk;
    SliceOfBlock(img, BLKSZ * n, EntryOffset(k));
  }

  lemma SliceOfBlock(img: seq<Byte>, b: nat, o: nat)
    requires b + BLKSZ <= |img| && o + IE_SIZE <= BLKSZ
    ensures img[b..b + BLKSZ][o..o + IE_SIZE] == img[b + o..b + o + IE_SIZE]
  {
    var s := img[b..b + BLKSZ];
    assert forall k :: 0 <= k < BLKSZ ==> s[k] == img[b + k];
    var u, v := s[o..o + IE_SIZE], img[b + o..b + o + IE_SIZE];
    forall k | 0 <= k < IE_SIZE ensures u[k] == v[k] {
      assert u[k] == s[o + k];
    }
  }

  // ---- steps of the loops ---------------------------------------------------------------------------

  ghost predicate IsHeader(fs: seq<HostFile>, i: nat, e: Entry) {
    i < |fs| && Placed(fs, i) && e == HeaderEntry(fs[i], |Area(fs[..i])|)
  }

  lemma HeaderFields(fs: seq<HostFile>, i: nat, e: Entry)
    requires IsHeader(fs, i, e)
    ensures e[0] == if fs[i].Regular? then FILE_ENT else DIR_ENT
    ensures fs[i].Regular? ==> Word(e, BLK_START) == |Area(fs[..i])| && Word(e, LEN) == |fs[i].content|
  {
    hide FileEntry, DirEntry, BlocksOf, Nie, Area;
    var start := |Area(fs[..i])|;
    match fs[i]
    case Regular(name, content) => FileFields(name, start, start + |BlocksOf(content)| - 1, |content|);
    case Directory(name) => DirFields(name, Nie(|name|), 0);
  }

  /** One step of the scan: at the header of file `n - 1`, or at the root directory, the entry
      tells the way to the next header and the comparison decides the match. */
  lemma ScanStep(fs: seq<HostFile>, n: nat, q: seq<Byte>)
    requires GoodFiles(fs) && n <= |fs| && Query(q)
    ensures 1 <= IndexCount(fs[..n]) - 1 < |Index(fs)|
    ensures
      var at := IndexCount(fs[..n]) - 1;
      var e := Index(fs)[at];
      && at - (e[1] as int + 1) == (if n > 0 then IndexCount(fs[..n - 1]) - 1 else 0)
      && (n > 0 ==> IsHeader(fs, n - 1, e)) && (n == 0 ==> e[0] == DIR_ENT) && e[0] in {DIR_ENT, FILE_ENT}
      && (NameIs(e, NameOffset(e), q) <==> if n > 0 then Match(fs[n - 1], q) else q == [])
  {
    hide Index, Area, GoodFiles, HeaderEntry, DirEntry, Match, Nie, IndexCount, BlocksOf, NameIs;
    HeaderAt(fs, n);
    if n > 0 {
      HeaderMatch(fs[n - 1], |Area(fs[..n - 1])|, q);
    } else {
      DirFields([47], 0, 21);
      NoDirMatch(DirEntry([47], 0, 21), q);
    }
  }

  function NameOffset(e: Entry): nat {
    if e[0] == DIR_ENT then DIR_NAME else FILE_NAME
  }

  /** The scan has landed on the headers of the newest files, one after the other, and on
      nothing else; the root directory comes last. */
  ghost predicate Visits(fs: seq<HostFile>, trace: seq<nat>) {
    |trace| <= |fs| + 1 && forall k :: 0 <= k < |trace| ==> trace[k] == IndexCount(fs[..|fs| - k]) - 1
  }

  /** The entries `at + ne` down to `at + 1`, one after the other. */
  function Joined(es: seq<Entry>, at: nat, ne: nat): seq<Byte>
    requires at + ne < |es|
  {
    if ne == 0 then [] else es[at + ne] + Joined(es, at, ne - 1)
  }

  /** Bytes of file `i` as they lie in block `j` of its data. */
  lemma FileBlock(fs: seq<HostFile>, i: nat, j: nat, a: nat, n: nat)
    requires GoodFiles(fs) && i < |fs| && fs[i].Regular?
    requires a + n <= BLKSZ && BLKSZ * j + a + n <= |fs[i].content| && n > 0
    ensures
      var p, c := |Area(fs[..i])| + j, fs[i].content;
      p < |Area(fs)| && Area(fs)[p][a..a + n] == c[BLKSZ * j + a..BLKSZ * j + a + n]
  {
    hide Area, BlocksOf, GoodFiles;
    BlockSlice(fs[i].content, j, a, n);
    BlocksAt(fs, i, j);
  }

  /** The block of any position up to the end of the file is at most one behind the data area. */
  lemma BlockInRange(fs: seq<HostFile>, i: nat, pos: nat)
    requires GoodFiles(fs) && i < |fs| && fs[i].Regular? && pos <= |fs[i].content|
    ensures |Area(fs[..i])| + pos / BLKSZ <= |Area(fs)|
  {
    hide Area, BlocksOf, GoodFiles, Index;
    IndexPrefix(fs, i + 1);
    LastBlocks(fs[..i + 1]);
    assert fs[..i + 1][..i] == fs[..i];
    RoundsUp(pos, |fs[i].content|);
  }

  lemma RoundsUp(pos: nat, len: nat)
    requires pos <= len
    ensures pos / BLKSZ <= (len + BLKSZ - 1) / BLKSZ
  {
  }

  lemma Grown(c: seq<Byte>, nb: nat, ret: nat, sz: nat)
    requires ret + sz <= nb && ret + sz <= |c|
    ensures Splice(c[..ret] + Zeros(nb - ret), ret, c[ret..ret + sz]) == c[..ret + sz] + Zeros(nb - (ret + sz))
  {
  }

  lemma NextBlockStart(pos: nat)
    ensures pos == BLKSZ * (pos / BLKSZ) + pos % BLKSZ
  {
  }

  lemma StillInside(fs: seq<HostFile>, i: nat, j: nat)
    requires GoodFiles(fs) && i < |fs| && fs[i].Regular? && BLKSZ * j <= |fs[i].content|
    ensures |Area(fs[..i])| + j <= |Area(fs)|
  {
    hide Area, GoodFiles;
    BlockInRange(fs, i, BLKSZ * j);
    OneOf(j, 0);
  }

  lemma Append(c: seq<Byte>, a: nat, b: nat, n: nat)
    requires a <= b && b + n <= |c|
    ensures c[a..b] + c[b..b + n] == c[a..b + n]
  {
  }

  /** The name field and the continuation entries of a file make up its name. */
  lemma FullName(fs: seq<HostFile>, i: nat)
    requires GoodFiles(fs) && i < |fs|
    ensures
      var name, at := fs[i].name, IndexCount(fs[..i]) - 1;
      && at + Nie(|name|) < |Index(fs)| && |name| <= FILE_SPACE + IE_SIZE * Nie(|name|)
      && Padded(name, FILE_SPACE) + Joined(Index(fs), at, Nie(|name|))
         == Padded(name, FILE_SPACE + IE_SIZE * Nie(|name|))
  {
    hide Index, Area, GoodFiles, HeaderEntry, BlocksFor, Joined, Nie, Conts, Padded, Tail, IndexCount;
    var name, at := fs[i].name, IndexCount(fs[..i]) - 1;
    var ne := Nie(|name|);
    NameFits(|name|);
    ContAt(fs, i);
    HeaderAt(fs, i + 1);
    assert fs[..i + 1][..i] == fs[..i];
    JoinedName(Index(fs), at, name, ne, ne);
    PaddedHead(name, IE_SIZE * ne);
  }

  lemma PaddedHead(name: seq<Byte>, n: nat)
    ensures Padded(name, FILE_SPACE) + Padded(Tail(name, FILE_SPACE), n) == Padded(name, FILE_SPACE + n)
  {
    hide Padded;
  }

  lemma NameFits(len: nat)
    ensures len <= FILE_SPACE + IE_SIZE * Nie(len)
  {
  }

  function Tail(name: seq<Byte>, o: nat): seq<Byte> {
    if o <= |name| then name[o..] else []
  }

  /** Entry `at + m` holds continuation `ne - m`. */
  ghost predicate ContIs(es: seq<Entry>, at: nat, name: seq<Byte>, ne: nat, m: nat) {
    m <= ne && at + m < |es| && es[at + m] == ContEntry(name, ne - m)
  }

  ghost predicate Conts(es: seq<Entry>, at: nat, name: seq<Byte>, ne: nat) {
    forall k :: 1 <= k <= ne ==> ContIs(es, at, name, ne, k)
  }

  lemma {:induction false} JoinedName(es: seq<Entry>, at: nat, name: seq<Byte>, ne: nat, m: nat)
    requires m <= ne && at + ne < |es| && Conts(es, at, name, ne)
    ensures Joined(es, at, m) == Padded(Tail(name, FILE_SPACE + IE_SIZE * (ne - m)), IE_SIZE * m)
  {
    hide Padded, Tail, ContEntry;
    var o := FILE_SPACE + IE_SIZE * (ne - m);
    if m > 0 {
      JoinedName(es, at, name, ne, m - 1);
      assert ContIs(es, at, name, ne, m);
      ContTail(name, ne - m);
      PaddedTail(name, o, IE_SIZE * (m - 1));
    } else {
      assert |Padded(Tail(name, o), 0)| == 0;
    }
  }

  lemma ContTail(name: seq<Byte>, i: nat)
    ensures ContEntry(name, i) == Padded(Tail(name, FILE_SPACE + IE_SIZE * i), IE_SIZE)
  {
  }

  lemma PaddedTail(name: seq<Byte>, o: nat, n: nat)
    ensures Padded(Tail(name, o), IE_SIZE) + Padded(Tail(name, o + IE_SIZE), n) == Padded(Tail(name, o), IE_SIZE + n)
  {
    hide Padded;
  }

  lemma ContAt(fs: seq<HostFile>, i: nat)
    requires GoodFiles(fs) && i < |fs|
    ensures
      var name, at := fs[i].name, IndexCount(fs[..i]) - 1;
      Conts(Index(fs), at, name, Nie(|name|))
  {
    hide Area, Index, GoodFiles, HeaderEntry, ContEntry, BlocksFor, Nie;
    var p := fs[..i + 1];
    IndexPrefix(fs, i + 1);
    IndexPrefix(fs, i);
    IndexLength(fs[..i]);
    assert p[..i] == fs[..i];
    LastEntries(p);
    var name, at := fs[i].name, IndexCount(fs[..i]) - 1;
    forall k | 1 <= k <= Nie(|name|) ensures ContIs(Index(fs), at, name, Nie(|name|), k) {
      assert Index(fs)[at + k] == Index(p)[at + k];
      assert Index(p)[at + k] == EntriesOf(fs[i], |Area(fs[..i])|)[k - 1];
    }
  }

  // ---- descriptor tables ------------------------------------------------------------------------------

  const NIBUF := 32            // cached index entries
  const FDT_SIZE := 64         // file descriptors of the system
  const NOFILE := 16           // open files of a task

  datatype Slot = Unused | InUse(entry: Entry)

  /** struct sfs_file_desc; `inode` is the slot of the index entry. */
  class OpenFile {
    var count: nat
    var pos: nat
    var inode: nat

    constructor ()
      ensures count == 0
    {
      count, pos, inode := 0, 0, 0;
    }
  }

  /** ibuf, fdtable and the open files of the current task. */
  class Files {
    var ibuf: seq<Slot>
    const fdtable: seq<OpenFile>
    var ofile: seq<OpenFile?>

    /** Open files have descriptors in use and index entries. */
    ghost predicate Valid()
      reads this, fdtable
    {
      && |ibuf| == NIBUF && |fdtable| == FDT_SIZE && |ofile| == NOFILE
      && (forall i, j :: 0 <= i < j < FDT_SIZE ==> fdtable[i] != fdtable[j])
      && (forall fd :: 0 <= fd < NOFILE && ofile[fd] != null ==> ofile[fd] in fdtable && Opened(ofile[fd]))
    }

    /** Nothing is open yet. */
    constructor (fdtable: seq<OpenFile>)
      requires |fdtable| == FDT_SIZE && forall i, j :: 0 <= i < j < FDT_SIZE ==> fdtable[i] != fdtable[j]
      ensures Valid() && this.fdtable == fdtable && forall k :: 0 <= k < NOFILE ==> ofile[k] == null
      ensures forall k :: 0 <= k < NIBUF ==> ibuf[k].Unused?
    {
      ibuf := seq(NIBUF, _ => Unused);
      this.fdtable := fdtable;
      ofile := seq<OpenFile?>(NOFILE, _ => null);
    }

    ghost predicate Opened(f: OpenFile)
      reads this, f
    {
      f in fdtable && f.count > 0 && f.inode < |ibuf| && ibuf[f.inode].InUse?
    }

    /** ibuf_alloc: the first unused slot, or -1. */
    method IbufAlloc() returns (i: int)
      requires Valid()
      ensures -1 <= i < NIBUF && (i == -1 <==> forall k :: 0 <= k < NIBUF ==> ibuf[k].InUse?)
      ensures i >= 0 ==> ibuf[i].Unused? && forall k :: 0 <= k < i ==> ibuf[k].InUse?
    {
      i := 0;
      while i < NIBUF
        invariant 0 <= i <= NIBUF && forall k :: 0 <= k < i ==> ibuf[k].InUse?
      {
        if ibuf[i].Unused? {
          return;
        }
        i := i + 1;
      }
      i := -1;
    }

    /** The first free place among the open files of the task, or -1. */
    method FreeFd() returns (fd: int)
      requires Valid()
      ensures -1 <= fd < NOFILE && (fd == -1 <==> forall k :: 0 <= k < NOFILE ==> ofile[k] != null)
      ensures fd >= 0 ==> ofile[fd] == null && forall k :: 0 <= k < fd ==> ofile[k] != null
    {
      fd := 0;
      while fd < NOFILE
        invariant 0 <= fd <= NOFILE && forall k :: 0 <= k < fd ==> ofile[k] != null
      {
        if ofile[fd] == null {
          return;
        }
        fd := fd + 1;
      }
      fd := -1;
    }

    /** fd_alloc: the first descriptor not in use, now in use, or -1. */
    method FdAlloc() returns (d: int)
      requires Valid()
      modifies fdtable
      ensures -1 <= d < FDT_SIZE && (d == -1 <==> forall k :: 0 <= k < FDT_SIZE ==> old(fdtable[k].count) > 0)
      ensures d >= 0 ==> old(fdtable[d].count) == 0 && fdtable[d].count == 1
      ensures forall f :: f in fdtable && (d == -1 || f != fdtable[d]) ==> unchanged(f)
    {
      d := 0;
      while d < FDT_SIZE
        invariant 0 <= d <= FDT_SIZE && forall k :: 0 <= k < d ==> fdtable[k].count > 0
        invariant forall f :: f in fdtable ==> unchanged(f)
      {
        if fdtable[d].count == 0 {
          fdtable[d].count := fdtable[d].count + 1;
          return;
        }
        d := d + 1;
      }
      d := -1;
    }

    /** The part of sfs_open after the lookup. Index slots taken before a later table turns out
        full stay taken. */
    method Install(e: Entry) returns (fd: int)
      requires Valid()
      modifies this, fdtable
      ensures Valid() && -1 <= fd < NOFILE
      ensures fd == -1 <==>
                || (forall k :: 0 <= k < NIBUF ==> old(ibuf)[k].InUse?)
                || (forall k :: 0 <= k < NOFILE ==> old(ofile)[k] != null)
                || (forall k :: 0 <= k < FDT_SIZE ==> old(fdtable[k].count) > 0)
      ensures fd == -1 ==> ofile == old(ofile) && forall g :: g in fdtable ==> unchanged(g)
      ensures fd >= 0 ==>
                var f := ofile[fd];
                && f != null && f in fdtable && Opened(f) && ofile == old(ofile)[fd := f]
                && old(ofile)[fd] == null && old(f.count) == 0 && f.pos == 0 && ibuf[f.inode] == InUse(e)
                && forall g :: g in fdtable && g != f ==> unchanged(g)
      ensures forall k :: 0 <= k < NIBUF && old(ibuf)[k].InUse? ==> ibuf[k] == old(ibuf)[k]
    {
      var i := IbufAlloc();
      if i == -1 {
        return -1;
      }
      ibuf := ibuf[i := InUse(e)];
      fd := FreeFd();
      if fd == -1 {
        return;
      }
      var d := FdAlloc();
      if d == -1 {
        return -1;
      }
      fdtable[d].pos := 0;
      fdtable[d].inode := i;
      ofile := ofile[fd := fdtable[d]];
    }
  }

  // ---- the reader -----------------------------------------------------------------------------------

  class Reader {
    const cache: BufferCache
    var nblk: nat
    var reserved: nat
    var da: nat
    var ia: nat
    ghost const img: seq<Byte>
    ghost const fs: seq<HostFile>

    ghost predicate Ready()
      reads this, cache
    {
      && cache.Steady()
      && OnDisk(cache.disk, img, nblk) && ImageOf(img, nblk, fs)
      && reserved == RESERVED && da == |Area(fs)| && ia == |Index(fs)|
    }

    constructor (cache: BufferCache, ghost img: seq<Byte>, ghost fs: seq<HostFile>)
      ensures this.cache == cache && this.img == img && this.fs == fs
    {
      this.cache := cache;
      this.img := img;
      this.fs := fs;
      nblk, reserved, da, ia := 0, 0, 0, 0;
    }

    /** read_block: one sector, through the cache. */
    method ReadBlock(sec: nat) returns (s: Sector)
      requires cache.Steady() && sec < |cache.disk|
      modifies cache
      ensures cache.Steady() && cache.disk == old(cache.disk) && s == cache.disk[sec]
    {
      hide BufferCache.Valid;
      assert !cache.t[0].busy;
      s := cache.ReadBlock(SFS_DEV, sec);
    }

    /** check_sfs: the superblock is read and, if it is one, its numbers are taken over. A wrong
        check sum is only reported. */
    method CheckSfs() returns (sum: Byte, mounted: bool)
      requires cache.Steady() && |cache.disk| >= 1
      modifies this, cache
      ensures cache.Steady() && cache.disk == old(cache.disk)
      ensures sum == Sum(cache.disk[0], MAGIC, CHECKSUM + 1) % 256
      ensures mounted <==> cache.disk[0][MAGIC..MAGIC + 4] == [83, 70, 83, 0x10]
      ensures !mounted ==> unchanged(this)
      ensures mounted ==>
                var s := cache.disk[0];
                && nblk == Word(s, TOTAL_BLK) && reserved == Word(s, RESV_BLK)
                && da == Word(s, DA_BLK) && ia == Word(s, IA_SIZE) / IE_SIZE
    {
      hide BufferCache.Steady, Sum, Word;
      var s := ReadBlock(0);
      sum := CalcChecksum(s);
      mounted := s[MAGIC..MAGIC + 3] == [83, 70, 83] && s[MAGIC + 3] == 0x10;
      MagicParts(s);
      if mounted {
        nblk := Word(s, TOTAL_BLK);
        reserved := Word(s, RESV_BLK);
        da := Word(s, DA_BLK);
        ia := Word(s, IA_SIZE) / IE_SIZE;
      }
    }

    method ReadDataBlock(n: nat) returns (s: Sector)
      requires Ready() && n <= |Area(fs)|
      modifies cache
      ensures Ready() && cache.disk == old(cache.disk) && (n < |Area(fs)| ==> s == Area(fs)[n])
    {
      hide BufferCache.Steady, Area, Index, GoodFiles, BlockAt;
      DataBelowIndex(nblk, |Area(fs)|, |Index(fs)|, 0);
      assert BlockIs(img, reserved + n, cache.disk[reserved + n]);
      s := ReadBlock(reserved + n);
      assert n < |Area(fs)| ==> BlockIs(img, RESERVED + n, Area(fs)[n]);
    }

    method ReadIndex(k: nat) returns (e: Entry)
      requires Ready() && k < |Index(fs)|
      modifies cache
      ensures Ready() && cache.disk == old(cache.disk) && e == Index(fs)[k]
    {
      hide BufferCache.Steady, Area, Index, GoodFiles, OnDisk, BlockAt;
      DataBelowIndex(nblk, |Area(fs)|, |Index(fs)|, k);
      EntryOnDisk(cache.disk, img, nblk, k);
      assert (Index(fs) + [MarkEntry()])[k] == Index(fs)[k];
      assert EntryIs(img, nblk, k, (Index(fs) + [MarkEntry()])[k]);
      var n := nblk - k / IPB - 1;
      var offset := BLKSZ - (k % IPB + 1) * IE_SIZE;
      var s := ReadBlock(n);
      e := s[offset..offset + IE_SIZE];
    }

    /** The rest of a long name, from the continuation entries behind `nindex`. */
    method LongName(nindex: nat, ne: nat, head: seq<Byte>) returns (str: seq<Byte>)
      requires Ready() && nindex + ne < |Index(fs)|
      modifies cache
      ensures Ready() && cache.disk == old(cache.disk) && str == head + Joined(Index(fs), nindex, ne)
    {
      hide Ready, Index, GoodFiles;
      Facts();
      str := head;
      var k := ne;
      while k > 0
        invariant 0 <= k <= ne && Ready() && cache.disk == old(cache.disk)
        invariant str + Joined(Index(fs), nindex, k) == head + Joined(Index(fs), nindex, ne)
      {
        var e := ReadIndex(nindex + k);
        assert str + (e + Joined(Index(fs), nindex, k - 1)) == (str + e) + Joined(Index(fs), nindex, k - 1);
        str := str + e;
        k := k - 1;
      }
      assert str + [] == str;
    }

    /** sfs_find_index: backwards from the newest header. `trace` lists the entries it lands on:
        each is a header, none is left out, and the scan stops at the first match. */
    method FindIndex(q: seq<Byte>) returns (found: bool, e: Entry, ghost trace: seq<nat>)
      requires Ready() && Query(q)
      modifies cache
      ensures Ready() && cache.disk == old(cache.disk)
      ensures found <==> q == [] || Lookup(fs, q) >= 0
      ensures Lookup(fs, q) >= 0 ==> IsHeader(fs, Lookup(fs, q), e)
      ensures found && Lookup(fs, q) < 0 ==> e[0] == DIR_ENT
      ensures |trace| == |fs| - Lookup(fs, q) && Visits(fs, trace)
    {
      hide Ready, Index, Area, GoodFiles, IsHeader, Match, IndexCount, NameIs;
      Facts();
      var nindex := ia - 1;
      e := Zeros(IE_SIZE);
      trace := [];
      ghost var n, root := |fs|, true;
      assert fs[..n] == fs;
      while nindex > 0
        invariant Ready() && cache.disk == old(cache.disk) && 0 <= n <= |fs|
                  && |trace| == |fs| - n + (if root then 0 else 1)
        invariant nindex == if root then IndexCount(fs[..n]) - 1 else 0
        invariant !root ==> n == 0 && q != []
        invariant Visits(fs, trace) && forall j :: n <= j < |fs| ==> !Match(fs[j], q)
      {
        ScanStep(fs, n, q);
        e := ReadIndex(nindex);
        trace := trace + [nindex];
        if e[0] != DIR_ENT && e[0] != FILE_ENT {
          break;
        }
        var ne: nat := e[1];
        nindex := nindex - (ne + 1);
        if ne > 0 {
          var str := LongName(nindex, ne, e[NameOffset(e)..]);
        }
        found := SameName(e, NameOffset(e), q);
        if found {
          return;
        }
        if n > 0 { n := n - 1; } else { root := false; }
      }
      return false, e, trace;
    }

    /** What the loops rely on. */
    lemma Facts()
      requires Ready()
      ensures GoodFiles(fs) && ia == |Index(fs)| && |Index(fs)| == IndexCount(fs)
    {
      IndexLength(fs);
    }

    /** sfs_read_file: the first `nb` bytes of the newest match, zero padded; -1 without one. */
    method ReadFile(q: seq<Byte>, nb: nat) returns (ret: int, buf: seq<Byte>)
      requires Ready() && Query(q)
      modifies cache
      ensures Ready() && cache.disk == old(cache.disk)
      ensures !Readable(fs, q) ==> ret == -1
      ensures Readable(fs, q) ==>
                var c := fs[Lookup(fs, q)].content;
                ret == Min(nb, |c|) && buf == c[..ret] + Zeros(nb - ret)
    {
      hide Ready, Index, Area, GoodFiles, HeaderEntry, DirEntry, Match, Nie, IndexCount, Placed, Lookup, BlocksOf;
      Facts();
      ghost var trace;
      var found, e;
      found, e, trace := FindIndex(q);
      if !found {
        return -1, [];
      }
      ghost var i := Lookup(fs, q);
      if i >= 0 { HeaderFields(fs, i, e); }
      if e[0] != FILE_ENT {
        return -1, [];
      }
      ghost var c, start := fs[i].content, |Area(fs[..i])|;
      buf := Zeros(nb);
      var m := Word(e, BLK_START);
      var len := Min(Word(e, LEN), nb);
      ghost var all, j := len, 0;
      ret := 0;
      while len > 0
        invariant Ready() && cache.disk == old(cache.disk) && m == start + j
        invariant 0 <= ret <= all && len == all - ret && (len > 0 ==> ret == BLKSZ * j)
        invariant buf == c[..ret] + Zeros(nb - ret)
      {
        var sz := if len > BLKSZ then BLKSZ else len;
        FileBlock(fs, i, j, 0, sz);
        var s := ReadDataBlock(m);
        m := m + 1;
        Grown(c, nb, ret, sz);
        assert s[..sz] == s[0..0 + sz];
        buf := Splice(buf, ret, s[..sz]);
        len := len - sz;
        ret := ret + sz;
        j := j + 1;
      }
    }

    /** sfs_open; O_CREAT changes nothing, since sfs_create always fails. It fails exactly when
        nothing matches or one of the three tables is full. */
    method Open(files: Files, q: seq<Byte>) returns (fd: int)
      requires Ready() && Query(q) && files.Valid()
      modifies cache, files, files.fdtable
      ensures Ready() && cache.disk == old(cache.disk) && files.Valid() && -1 <= fd < NOFILE
      ensures fd == -1 <==>
                || (q != [] && Lookup(fs, q) < 0) || (forall k :: 0 <= k < NIBUF ==> old(files.ibuf)[k].InUse?)
                || (forall k :: 0 <= k < NOFILE ==> old(files.ofile)[k] != null)
                || (forall k :: 0 <= k < FDT_SIZE ==> old(files.fdtable[k].count) > 0)
      ensures fd == -1 ==> files.ofile == old(files.ofile)
      ensures fd >= 0 ==>
                var f := files.ofile[fd];
                && f != null && f in files.fdtable && files.Opened(f) && files.ofile == old(files.ofile)[fd := f]
                && old(files.ofile)[fd] == null && old(f.count) == 0 && f.pos == 0
                && (Lookup(fs, q) >= 0 ==> IsHeader(fs, Lookup(fs, q), files.ibuf[f.inode].entry))
                && forall g :: g in files.fdtable && g != f ==> unchanged(g)
      ensures forall k :: 0 <= k < NIBUF && old(files.ibuf)[k].InUse? ==> files.ibuf[k] == old(files.ibuf)[k]
    {
      hide Ready, Index, Area, GoodFiles, IsHeader, Lookup;
      ghost var trace;
      var found, e;
      found, e, trace := FindIndex(q);
      if !found {
        return -1;
      }
      fd := files.Install(e);
    }

    /** Bytes of file `i` out of one of its blocks. */
    method ReadPart(nb: nat, offset: nat, len: nat, ghost i: nat, ghost j: nat) returns (part: seq<Byte>)
      requires Ready() && i < |fs| && fs[i].Regular? && nb == |Area(fs[..i])| + j <= |Area(fs)|
      requires offset + len <= BLKSZ && BLKSZ * j + offset + len <= |fs[i].content|
      modifies cache
      ensures Ready() && cache.disk == old(cache.disk)
      ensures part == fs[i].content[BLKSZ * j + offset..BLKSZ * j + offset + len]
    {
      hide Ready, Index, Area, GoodFiles;
      Facts();
      if len > 0 { FileBlock(fs, i, j, offset, len); }
      var xbuf := ReadDataBlock(nb);
      part := xbuf[offset..offset + len];
    }

    /** sfs_read: up to `n` bytes from the file position on. The first block is read even when
        nothing is left. */
    method ReadFrom(f: OpenFile, e: Entry, n: nat, ghost i: nat) returns (count: nat, buf: seq<Byte>)
      requires Ready() && i < |fs| && fs[i].Regular? && IsHeader(fs, i, e) && f.pos <= |fs[i].content|
      modifies cache, f`pos
      ensures Ready() && cache.disk == old(cache.disk)
      ensures count == Min(n, |fs[i].content| - old(f.pos)) && f.pos == old(f.pos) + count
      ensures buf == fs[i].content[old(f.pos)..f.pos]
    {
      hide Ready, Index, Area, GoodFiles, IsHeader, Word;
      Facts();
      HeaderFields(fs, i, e);
      ghost var c, start, p0 := fs[i].content, |Area(fs[..i])|, f.pos;
      var left := Min(n, Word(e, LEN) - f.pos);
      var nb, offset := Word(e, BLK_START) + f.pos / BLKSZ, f.pos % BLKSZ;
      BlockInRange(fs, i, f.pos);
      NextBlockStart(f.pos);
      var len := Min(left, BLKSZ - offset);
      buf := ReadPart(nb, offset, len, i, nb - start);
      count := len;
      f.pos := f.pos + len;
      left := left - len;
      nb := nb + 1;
      if left > 0 {
        var rest := ReadRest(f, left, nb, i);
        Append(c, p0, p0 + len, left);
        buf := buf + rest;
        count := count + left;
      }
    }

    /** The loop of sfs_read: whole blocks, the last one maybe in part. */
    method ReadRest(f: OpenFile, n: nat, first: nat, ghost i: nat) returns (buf: seq<Byte>)
      requires Ready() && i < |fs| && fs[i].Regular? && f.pos + n <= |fs[i].content|
      requires first >= |Area(fs[..i])| && f.pos == BLKSZ * (first - |Area(fs[..i])|)
      modifies cache, f`pos
      ensures Ready() && cache.disk == old(cache.disk)
      ensures f.pos == old(f.pos) + n && buf == fs[i].content[old(f.pos)..f.pos]
    {
      hide Ready, Index, Area, GoodFiles;
      Facts();
      ghost var c, start, p0 := fs[i].content, |Area(fs[..i])|, f.pos;
      var left, nb := n, first;
      buf := [];
      while left > 0
        invariant Ready() && cache.disk == old(cache.disk)
        invariant p0 <= f.pos && 0 <= left && f.pos + left == p0 + n
        invariant left > 0 ==> f.pos == BLKSZ * (nb - start) && nb >= start
        invariant buf == c[p0..f.pos]
      {
        var len := Min(BLKSZ, left);
        StillInside(fs, i, nb - start);
        var part := ReadPart(nb, 0, len, i, nb - start);
        Append(c, p0, f.pos, len);
        buf := buf + part;
        f.pos := f.pos + len;
        left := left - len;
        nb := nb + 1;
      }
    }

    /** Descriptor `fd` is open on the regular file `i` and has not passed its end. */
    ghost predicate OpenOn(files: Files, fd: int, i: nat)
      reads files, files.fdtable
    {
      && files.Valid() && 0 <= fd < NOFILE && files.ofile[fd] != null && files.Opened(files.ofile[fd])
      && i < |fs| && fs[i].Regular? && IsHeader(fs, i, files.ibuf[files.ofile[fd].inode].entry)
      && files.ofile[fd].pos <= |fs[i].content|
    }

    /** sfs_read on a descriptor. No other descriptor moves. */
    method Read(files: Files, fd: nat, n: nat, ghost i: nat) returns (count: int, buf: seq<Byte>)
      requires Ready() && (fd < NOFILE ==> OpenOn(files, fd, i))
      modifies cache, files.fdtable
      ensures Ready() && cache.disk == old(cache.disk)
      ensures fd >= NOFILE ==> count == -1 && forall g :: g in files.fdtable ==> unchanged(g)
      ensures fd < NOFILE ==>
                var f, c := files.ofile[fd], fs[i].content;
                && OpenOn(files, fd, i) && old(f.pos) <= |c| && count == Min(n, |c| - old(f.pos))
                && f.pos == old(f.pos) + count
                && buf == c[old(f.pos)..f.pos]
                && forall g :: g in files.fdtable && g != f ==> unchanged(g)
    {
      hide Ready, Index, Area, GoodFiles, IsHeader;
      if fd >= NOFILE {
        return -1, [];
      }
      var f := files.ofile[fd];
      count, buf := ReadFrom(f, files.ibuf[f.inode].entry, n, i);
    }

    /** Any run of reads on a descriptor just opened: together they give the file's prefix. */
    method ReadAll(files: Files, fd: nat, sizes: seq<nat>, ghost i: nat) returns (out: seq<Byte>)
      requires Ready() && OpenOn(files, fd, i) && files.ofile[fd].pos == 0
      modifies cache, files.fdtable
      ensures Ready() && cache.disk == old(cache.disk) && OpenOn(files, fd, i)
      ensures
        var pos := files.ofile[fd].pos;
        pos == Min(Total(sizes), |fs[i].content|) && out == fs[i].content[..pos]
    {
      hide Ready, Index, Area, GoodFiles, IsHeader, Word;
      out := [];
      var k := 0;
      var f := files.ofile[fd];
      while k < |sizes|
        invariant 0 <= k <= |sizes| && Ready() && cache.disk == old(cache.disk) && OpenOn(files, fd, i)
        invariant f.pos == Min(Total(sizes[..k]), |fs[i].content|) && out == fs[i].content[..f.pos]
      {
        ghost var p := f.pos;
        var count, b := Read(files, fd, sizes[k], i);
        assert sizes[..k + 1][..k] == sizes[..k];
        assert fs[i].content[..f.pos] == fs[i].content[..p] + fs[i].content[p..f.pos];
        out := out + b;
        k := k + 1;
      }
      assert sizes[..k] == sizes;
    }

    /** Opening and reading in pieces gives what sfs_read_file gives in one. */
    method ReadsAgree(files: Files, q: seq<Byte>, sizes: seq<nat>)
      returns (fd: int, pieces: seq<Byte>, ret: int, whole: seq<Byte>)
      requires Ready() && Query(q) && Readable(fs, q) && files.Valid()
      modifies cache, files, files.fdtable
      ensures Ready() && cache.disk == old(cache.disk)
      ensures fd >= 0 ==> ret == |pieces| && ret <= |whole| && pieces == whole[..ret]
    {
      hide Ready, Index, Area, GoodFiles, IsHeader, Lookup;
      fd := Open(files, q);
      if fd == -1 {
        return fd, [], 0, [];
      }
      pieces := ReadAll(files, fd, sizes, Lookup(fs, q));
      var total := Sizes(sizes);
      ret, whole := ReadFile(q, total);
      assert (pieces + Zeros(total - ret))[..ret] == pieces;
    }
  }

  method Sizes(sizes: seq<nat>) returns (n: nat)
    ensures n == Total(sizes)
  {
    n := 0;
    for k := 0 to |sizes|
      invariant n == Total(sizes[..k])
    {
      assert sizes[..k + 1][..k] == sizes[..k];
      n := n + sizes[k];
    }
    assert sizes[..|sizes|] == sizes;
  }

  /** The image as the memory disk presents it. */
  function Sectors(img: seq<Byte>, nblk: nat): (disk: seq<Sector>)
    requires |img| == BLKSZ * nblk
    ensures OnDisk(disk, img, nblk)
  {
    seq<Sector>(nblk, s requires 0 <= s < nblk => BlockAt(img, s))
  }

  lemma MagicParts(s: Sector)
    ensures s[MAGIC..MAGIC + 4] == [83, 70, 83, 0x10] <==> s[MAGIC..MAGIC + 3] == [83, 70, 83] && s[MAGIC + 3] == 0x10
  {
    assert s[MAGIC..MAGIC + 4] == s[MAGIC..MAGIC + 3] + [s[MAGIC + 3]];
    assert [83, 70, 83, 0x10][..3] == [83, 70, 83];
    assert s[MAGIC..MAGIC + 4][..3] == s[MAGIC..MAGIC + 3];
  }

  /** What the reader takes from the superblock mk_sfs wrote. */
  lemma SuperNumbers(sb: Sector, n: nat, da: nat, ia: nat)
    requires SuperOk(sb, n, da, ia)
    ensures sb[MAGIC..MAGIC + 4] == [83, 70, 83, 0x10] && Word(sb, TOTAL_BLK) == n && Word(sb, RESV_BLK) == RESERVED
    ensures Word(sb, DA_BLK) == da && Word(sb, IA_SIZE) / IE_SIZE == ia
  {
    hide Sum, Word;
  }

  /** From mk_sfs through the memory disk and the buffer cache to sfs_read_file: for every list of
      files that fits and every query, the first `nb` bytes of the newest match, or -1. */
  method PackAndRead(nblk: nat, files: seq<HostFile>, q: seq<Byte>, nb: nat)
    returns (ok: bool, ret: int, buf: seq<Byte>)
    requires 1 <= nblk < 0x80_0000 && (forall i :: 0 <= i < |files| ==> GoodFile(files[i])) && Query(q)
    ensures ok <==> Space(nblk, |Area(files)|, IndexCount(files))
    ensures IE_SIZE * IndexCount(files) <= NameBytes(files) + 99 * |files| + 128
    ensures (forall i :: 0 <= i < |files| ==> |files[i].name| <= 28) ==> IndexCount(files) == 2 + |files|
    ensures BLKSZ * |Area(files)| <= DataBytes(files) + (BLKSZ - 1) * |files| + BLKSZ
    ensures ok && !Readable(files, q) ==> ret == -1
    ensures ok && Readable(files, q) ==>
              var c := files[Lookup(files, q)].content;
              ret == Min(nb, |c|) && buf == c[..ret] + Zeros(nb - ret)
  {
    hide Area, Index, IndexCount, GoodFiles, SuperOk, Lookup, Query, BufferCache.Steady, DataOk, EntryIs;
    var img;
    ghost var stores;
    ok, img, stores := MkSfs.Build(nblk, files);
    if !ok {
      return false, -1, [];
    }
    var cache := new BufferCache(Sectors(img, nblk));
    var reader := new Reader(cache, img, files);
    var sum, mounted := reader.CheckSfs();
    assert BlockIs(img, 0, cache.disk[0]);
    SuperNumbers(cache.disk[0], nblk, |Area(files)|, |Index(files)|);
    ret, buf := reader.ReadFile(q, nb);
  }
}

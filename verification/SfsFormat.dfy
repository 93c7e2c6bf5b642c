/** The Simple File System image: superblock, data area growing up, index area growing down
    (SFS Specification Draft 1.0; tools/mk_sfs.h, inc/fs_sfs.h). */
module SfsFormat {
  import opened Bytes
  import opened BufferRing

  const BLKSZ := 512
  const IE_SIZE := 64
  const IPB := 8               // index entries per block
  const FILE_SPACE := 30
  const MAX_NAME := 4095       // longest path the host accepts

  const VOLUME_ID := 0x01
  const START_MARK := 0x02
  const DIR_ENT := 0x11
  const FILE_ENT := 0x12

  type Entry = s: seq<Byte> | |s| == 64 witness seq(64, _ => 0)

  /** What mk_sfs is given: a regular file with its contents, or a directory. Names have no
      terminator. */
  datatype HostFile = Regular(name: seq<Byte>, content: seq<Byte>) | Directory(name: seq<Byte>)

  predicate GoodName(name: seq<Byte>) {
    |name| <= MAX_NAME && forall i :: 0 <= i < |name| ==> name[i] != 0
  }

  predicate GoodFile(f: HostFile) {
    GoodName(f.name) && (f.Regular? ==> |f.content| < 0x8000_0000)
  }

  // ---- encodings ------------------------------------------------------------------------

  function Zeros(n: nat): (s: seq<Byte>)
    ensures |s| == n && forall i :: 0 <= i < n ==> s[i] == 0
  {
    seq<Byte>(n, _ => 0)
  }

  /** strncpy: the first `n` bytes, padded with zeros. */
  function Padded(s: seq<Byte>, n: nat): (r: seq<Byte>)
    ensures |r| == n && forall i :: 0 <= i < n ==> r[i] == if i < |s| then s[i] else 0
  {
    if |s| >= n then s[..n] else s + Zeros(n - |s|)
  }

  /** A 64-bit little-endian field with a 32-bit value. */
  function Long(v: nat): (s: seq<Byte>)
    requires v < WORD_LIMIT
    ensures |s| == 8 && Word(s, 0) == v
  {
    WordBytes(v) + Zeros(4)
  }

  /** Continuation entries for a name. */
  function Nie(len: nat): (n: nat)
    ensures len <= MAX_NAME ==> n < 256
  {
    (len + 34 + 1) / IE_SIZE
  }

  /** How many those are: none for up to 28 bytes, then one more for every 64. */
  lemma NieExact(len: nat)
    ensures IE_SIZE * Nie(len) <= len + 35 < IE_SIZE * Nie(len) + IE_SIZE && (Nie(len) == 0 <==> len <= 28)
  {
  }

  function FileEntry(name: seq<Byte>, start: nat, end: nat, len: nat): (e: Entry)
    requires start < WORD_LIMIT && end < WORD_LIMIT && len < WORD_LIMIT && Nie(|name|) < 256
  {
    [FILE_ENT, Nie(|name|)] + Zeros(8) + Long(start) + Long(end) + Long(len) + Padded(name, FILE_SPACE)
  }

  function DirEntry(name: seq<Byte>, ne: nat, len: nat): (e: Entry)
    requires ne < 256 && len < WORD_LIMIT
  {
    [DIR_ENT, ne] + Zeros(8) + Long(0) + Long(0) + Long(len) + Padded(name, FILE_SPACE)
  }

  function VolumeEntry(): Entry {
    [VOLUME_ID] + Zeros(11) + Padded([115, 102, 115, 45, 49, 46, 48], 52)     // "sfs-1.0"
  }

  function MarkEntry(): Entry {
    [START_MARK] + Zeros(63)
  }

  /** The `i`-th continuation entry of a name. */
  function ContEntry(name: seq<Byte>, i: nat): Entry {
    var o := FILE_SPACE + IE_SIZE * i;
    Padded(if o <= |name| then name[o..] else [], IE_SIZE)
  }

  // ---- what a list of files looks like -------------------------------------------------------

  /** The blocks of a file, the last one padded with zeros. */
  function BlocksOf(c: seq<Byte>): (bs: seq<Sector>)
    ensures |bs| == (|c| + BLKSZ - 1) / BLKSZ
    decreases |c|
  {
    if c == [] then [] else [Padded(c, BLKSZ)] + BlocksOf(Rest(c))
  }

  /** No more blocks than the bytes need. */
  lemma BlockCount(c: seq<Byte>)
    ensures |c| <= BLKSZ * |BlocksOf(c)| < |c| + BLKSZ
  {
    hide BlocksOf;
  }

  /** What is left of `c` after its first block. */
  function Rest(c: seq<Byte>): (r: seq<Byte>)
    ensures c != [] ==> |r| < |c|
  {
    if |c| > BLKSZ then c[BLKSZ..] else []
  }

  lemma {:induction false} BlockByte(c: seq<Byte>, k: nat)
    requires k < |c|
    ensures k / BLKSZ < |BlocksOf(c)| && BlocksOf(c)[k / BLKSZ][k % BLKSZ] == c[k]
    decreases |c|
  {
    hide BlocksOf, Padded;
    FirstBlock(c);
    if k >= BLKSZ {
      BlockByte(Rest(c), k - BLKSZ);
      OneBlockOn(k);
    }
  }

  lemma FirstBlock(c: seq<Byte>)
    requires c != []
    ensures BlocksOf(c) == [Padded(c, BLKSZ)] + BlocksOf(Rest(c))
  {
  }

  lemma OneBlockOn(k: nat)
    requires k >= BLKSZ
    ensures k / BLKSZ == (k - BLKSZ) / BLKSZ + 1 && k % BLKSZ == (k - BLKSZ) % BLKSZ
  {
  }

  function BlocksFor(f: HostFile): seq<Sector> {
    if f.Regular? then BlocksOf(f.content) else []
  }

  /** The data area: the unused block of the root directory, then the files in order. */
  function Area(fs: seq<HostFile>): (bs: seq<Sector>)
    ensures |bs| >= 1
  {
    if fs == [] then [Zeros(BLKSZ)] else Area(fs[..|fs| - 1]) + BlocksFor(fs[|fs| - 1])
  }

  /** The header entry of a file whose data starts at block `start` of the data area. */
  function HeaderEntry(f: HostFile, start: nat): (e: Entry)
    requires GoodFile(f) && 1 <= start && start + |BlocksFor(f)| < WORD_LIMIT
  {
    match f
    case Regular(name, content) => FileEntry(name, start, start + |BlocksOf(content)| - 1, |content|)
    case Directory(name) => DirEntry(name, Nie(|name|), 0)
  }

  predicate GoodFiles(fs: seq<HostFile>) {
    (forall i :: 0 <= i < |fs| ==> GoodFile(fs[i])) && |Area(fs)| < WORD_LIMIT
  }

  /** The entries of one file in index order: its continuation entries, last first, then the header. */
  function EntriesOf(f: HostFile, start: nat): (es: seq<Entry>)
    requires GoodFile(f) && 1 <= start && start + |BlocksFor(f)| < WORD_LIMIT
    ensures |es| == Nie(|f.name|) + 1
  {
    var n := Nie(|f.name|);
    seq<Entry>(n, i requires 0 <= i < n => ContEntry(f.name, n - 1 - i)) + [HeaderEntry(f, start)]
  }

  /** The index area: volume identifier, root directory, then each file. */
  function Index(fs: seq<HostFile>): (es: seq<Entry>)
    requires GoodFiles(fs)
    ensures |es| >= 2
  {
    if fs == [] then [VolumeEntry(), DirEntry([47], 0, 21)]
    else
      var rest, f := fs[..|fs| - 1], fs[|fs| - 1];
      GoodPrefix(fs);
      Index(rest) + EntriesOf(f, |Area(rest)|)
  }

  /** The number of index entries, marker not counted. */
  function IndexCount(fs: seq<HostFile>): (n: nat)
    ensures n >= 2
  {
    if fs == [] then 2 else IndexCount(fs[..|fs| - 1]) + Nie(|fs[|fs| - 1].name|) + 1
  }

  lemma {:induction false} IndexLength(fs: seq<HostFile>)
    requires GoodFiles(fs)
    ensures |Index(fs)| == IndexCount(fs)
  {
    if fs != [] {
      GoodPrefix(fs);
      IndexLength(fs[..|fs| - 1]);
    }
  }

  /** The bytes of all names, and of all contents. */
  function NameBytes(fs: seq<HostFile>): nat {
    if fs == [] then 0 else NameBytes(fs[..|fs| - 1]) + |fs[|fs| - 1].name|
  }

  function DataBytes(fs: seq<HostFile>): nat {
    if fs == [] then 0
    else
      var f := fs[|fs| - 1];
      DataBytes(fs[..|fs| - 1]) + if f.Regular? then |f.content| else 0
  }

  /** How much room a list of files takes: two entries and one block for the empty volume; for each
      file a header and entries for 35 bytes more than its name, rounded down; and its content,
      rounded up. */
  lemma {:induction false} Room(fs: seq<HostFile>)
    ensures IE_SIZE * (IndexCount(fs) - 2 - |fs|) <= NameBytes(fs) + 35 * |fs| <= IE_SIZE * (IndexCount(fs) - 2) - |fs|
    ensures DataBytes(fs) <= BLKSZ * (|Area(fs)| - 1) <= DataBytes(fs) + (BLKSZ - 1) * |fs|
  {
    hide Nie, BlocksOf;
    if fs != [] {
      var f := fs[|fs| - 1];
      Room(fs[..|fs| - 1]);
      NieExact(|f.name|);
      if f.Regular? { BlockCount(f.content); }
    }
  }

  /** Every file has one index entry exactly when no name is longer than 28 bytes. */
  lemma {:induction false} ShortNames(fs: seq<HostFile>)
    ensures IndexCount(fs) >= 2 + |fs|
    ensures IndexCount(fs) == 2 + |fs| <==> forall i :: 0 <= i < |fs| ==> |fs[i].name| <= 28
  {
    hide Nie;
    if fs != [] {
      var rest := fs[..|fs| - 1];
      ShortNames(rest);
      NieExact(|fs[|fs| - 1].name|);
      assert forall i :: 0 <= i < |rest| ==> rest[i] == fs[i];
    }
  }

  lemma AtMost(fs: seq<HostFile>)
    ensures IE_SIZE * IndexCount(fs) <= NameBytes(fs) + 99 * |fs| + 128
    ensures (forall i :: 0 <= i < |fs| ==> |fs[i].name| <= 28) ==> IndexCount(fs) == 2 + |fs|
    ensures BLKSZ * |Area(fs)| <= DataBytes(fs) + (BLKSZ - 1) * |fs| + BLKSZ
  {
    hide IndexCount, NameBytes, DataBytes, Area;
    Room(fs);
    ShortNames(fs);
  }

  /** A prefix of the files needs no more room than all of them. */
  lemma {:induction false} PrefixFits(fs: seq<HostFile>, n: nat)
    requires n <= |fs|
    ensures |Area(fs[..n])| <= |Area(fs)| && IndexCount(fs[..n]) <= IndexCount(fs)
    decreases |fs|
  {
    if n == |fs| {
      assert fs[..n] == fs;
    } else {
      PrefixFits(fs[..|fs| - 1], n);
      assert fs[..|fs| - 1][..n] == fs[..n];
    }
  }

  lemma GoodPrefix(fs: seq<HostFile>)
    requires GoodFiles(fs) && fs != []
    ensures GoodFiles(fs[..|fs| - 1]) && |Area(fs[..|fs| - 1])| + |BlocksFor(fs[|fs| - 1])| == |Area(fs)|
  {
  }
}

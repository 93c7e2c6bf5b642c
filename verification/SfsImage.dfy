/** An SFS image as bytes: where blocks and index entries lie, what writing one changes, and
    when the image holds a list of files. */
module SfsImage {
  import opened Bytes
  import opened BufferRing
  import opened SfsFormat

  /** Byte address of index entry `k`, counting down from the end (tools/mk_sfs.c write_index). */
  function EntryAddr(nblk: nat, k: nat): nat
    requires k < IPB * nblk
  {
    (nblk * (BLKSZ / IE_SIZE) - k - 1) * IE_SIZE
  }

  /** The kernel's address of the same entry: block and offset (fs/sfs/sfs.c read_index). */
  function EntryBlock(nblk: nat, k: nat): nat
    requires k < IPB * nblk
  {
    nblk - k / IPB - 1
  }

  function EntryOffset(k: nat): (o: nat)
    ensures o + IE_SIZE <= BLKSZ
  {
    BLKSZ - (k % IPB + 1) * IE_SIZE
  }

  /** Both programs mean the same bytes: entry `k` ends where entry `k - 1` starts, and entry 0 ends
      with the volume. */
  lemma AddressesAgree(nblk: nat, k: nat)
    requires k < IPB * nblk
    ensures EntryAddr(nblk, k) + IE_SIZE * (k + 1) == BLKSZ * nblk
    ensures EntryAddr(nblk, k) == BLKSZ * EntryBlock(nblk, k) + EntryOffset(k)
    ensures EntryBlock(nblk, k) < nblk && EntryAddr(nblk, k) + IE_SIZE <= BLKSZ * nblk
  {
  }

  function BlockAt(img: seq<Byte>, s: nat): Sector
    requires BLKSZ * s + BLKSZ <= |img|
  {
    img[BLKSZ * s..BLKSZ * s + BLKSZ]
  }

  function EntryAt(img: seq<Byte>, nblk: nat, k: nat): Entry
    requires k < IPB * nblk && |img| == BLKSZ * nblk
  {
    AddressesAgree(nblk, k);
    img[EntryAddr(nblk, k)..EntryAddr(nblk, k) + IE_SIZE]
  }

  function PutBlock(img: seq<Byte>, s: nat, b: Sector): (r: seq<Byte>)
    requires BLKSZ * s + BLKSZ <= |img|
    ensures |r| == |img|
  {
    Splice(img, BLKSZ * s, b)
  }

  function PutEntry(img: seq<Byte>, nblk: nat, k: nat, e: Entry): (r: seq<Byte>)
    requires k < IPB * nblk && |img| == BLKSZ * nblk
    ensures |r| == |img|
  {
    AddressesAgree(nblk, k);
    Splice(img, EntryAddr(nblk, k), e)
  }

  lemma EntryAfterEntry(img: seq<Byte>, nblk: nat, k: nat, e: Entry, j: nat)
    requires k < IPB * nblk && j < IPB * nblk && |img| == BLKSZ * nblk
    ensures EntryAt(PutEntry(img, nblk, k, e), nblk, j) == if j == k then e else EntryAt(img, nblk, j)
  {
    AddressesAgree(nblk, k);
    AddressesAgree(nblk, j);
  }

  lemma BlockAfterEntry(img: seq<Byte>, nblk: nat, k: nat, e: Entry, s: nat)
    requires k < IPB * nblk && |img| == BLKSZ * nblk && s < EntryBlock(nblk, k)
    ensures BlockAt(PutEntry(img, nblk, k, e), s) == BlockAt(img, s)
  {
    AddressesAgree(nblk, k);
  }

  lemma EntryAfterBlock(img: seq<Byte>, nblk: nat, s: nat, b: Sector, k: nat)
    requires k < IPB * nblk && |img| == BLKSZ * nblk && s < EntryBlock(nblk, k)
    ensures EntryAt(PutBlock(img, s, b), nblk, k) == EntryAt(img, nblk, k)
  {
    AddressesAgree(nblk, k);
  }

  lemma BlockAfterBlock(img: seq<Byte>, s: nat, b: Sector, r: nat)
    requires BLKSZ * s + BLKSZ <= |img| && BLKSZ * r + BLKSZ <= |img|
    ensures BlockAt(PutBlock(img, s, b), r) == if r == s then b else BlockAt(img, r)
  {
  }

  // ---- space ---------------------------------------------------------------------------------

  const RESERVED := 1          // the superblock

  /** The test of inc_and_verify: `da` data blocks and an index whose marker is entry `ia`
      leave room. */
  predicate Space(nblk: nat, da: nat, ia: nat) {
    da + ((ia + 1) / IPB + 1) < nblk
  }

  /** With the test passed, every data block lies below every block that holds index entries. */
  lemma DataBelowIndex(nblk: nat, da: nat, ia: nat, k: nat)
    requires Space(nblk, da, ia) && k <= ia
    ensures k < IPB * nblk && RESERVED + da <= EntryBlock(nblk, k)
  {
  }

  /** write_data stores a block before it tests the space. The store falls on a block with index
      entries if and only if the test that follows ends the run and the marker does not fill its
      block. */
  lemma OverwriteEndsRun(nblk: nat, da: nat, ia: nat)
    requires Space(nblk, da, ia)
    ensures ia < IPB * nblk
    ensures EntryBlock(nblk, ia) <= RESERVED + da <==> !Space(nblk, da + 1, ia) && ia % IPB != IPB - 1
  {
  }

  /** A write of the builder: a data block, with the lowest block that holds index entries, or an
      index entry, with the number of data blocks. */
  datatype Store = Block(sector: nat, lowest: nat) | Slot(block: nat, data: nat)

  /** A data block lands on index entries, or an index entry on data. */
  predicate Lands(s: Store) {
    match s
    case Block(sector, lowest) => sector >= lowest
    case Slot(block, data) => RESERVED <= block < RESERVED + data
  }

  /** No store lands where it should not, except the last one if `c` holds. */
  ghost predicate Landed(stores: seq<Store>, c: bool) {
    && (c ==> stores != [])
    && (forall i :: 0 <= i < |stores| ==> (Lands(stores[i]) <==> c && i == |stores| - 1))
  }

  lemma LandedMore(stores: seq<Store>, s: Store)
    requires Landed(stores, false)
    ensures Landed(stores + [s], Lands(s))
  {
  }

  /** An entry up to the marker does not land on data once the space test has passed. */
  lemma SlotClean(stores: seq<Store>, nblk: nat, da: nat, ia: nat, k: nat)
    requires Landed(stores, false) && Space(nblk, da, ia) && k <= ia
    ensures k < IPB * nblk && Landed(stores + [Slot(EntryBlock(nblk, k), da)], false)
  {
    DataBelowIndex(nblk, da, ia, k);
  }

  /** The run on these files stores a data block over index entries: for some file the entries fit
      and the data do not, and the marker then does not fill its block. */
  ghost predicate Overwrites(nblk: nat, fs: seq<HostFile>) {
    exists k :: 0 <= k < |fs| && OverwritesAt(nblk, fs, k)
  }

  ghost predicate OverwritesAt(nblk: nat, fs: seq<HostFile>, k: nat)
    requires k < |fs|
  {
    var n := IndexCount(fs[..k + 1]);
    Space(nblk, |Area(fs[..k])|, n) && !Space(nblk, |Area(fs[..k + 1])|, n) && n % IPB != IPB - 1
  }

  /** Such runs exist: one file of 1024 bytes, named "a", on a volume of four blocks. */
  lemma OverwritesOnce()
    ensures Overwrites(4, [Regular([97], Zeros(1024))])
  {
    hide BlocksOf;
    var fs := [Regular([97], Zeros(1024))];
    assert fs[..0] == [] && fs[..1] == fs;
    assert |Area([])| == 1 && IndexCount([]) == 2;
    assert |Area(fs)| == 3 && IndexCount(fs) == 3;
    assert OverwritesAt(4, fs, 0);
  }

  predicate Fits(nblk: nat, fs: seq<HostFile>) {
    Space(nblk, |Area(fs)|, IndexCount(fs))
  }

  /** If some of the files fit, fewer of them do. */
  lemma FewerFit(nblk: nat, fs: seq<HostFile>, n: nat, m: nat)
    requires n <= m <= |fs| && Fits(nblk, fs[..m])
    ensures Fits(nblk, fs[..n])
  {
    hide Area, IndexCount;
    PrefixFits(fs[..m], n);
    assert fs[..m][..n] == fs[..n];
  }

  /** The one file that can be the culprit is the first that does not fit. */
  lemma Culprit(nblk: nat, fs: seq<HostFile>, i: nat)
    requires i < |fs| && Fits(nblk, fs[..i]) && !Fits(nblk, fs[..i + 1])
    ensures Overwrites(nblk, fs) <==> OverwritesAt(nblk, fs, i)
  {
    hide Area, IndexCount;
    forall k | 0 <= k < |fs| && OverwritesAt(nblk, fs, k) ensures k == i {
      CulpritFits(nblk, fs, k);
      if k < i {
        FewerFit(nblk, fs, k + 1, i);
      } else if k > i {
        FewerFit(nblk, fs, i + 1, k);
      }
    }
  }

  lemma CulpritFits(nblk: nat, fs: seq<HostFile>, k: nat)
    requires k < |fs| && OverwritesAt(nblk, fs, k)
    ensures Fits(nblk, fs[..k]) && !Fits(nblk, fs[..k + 1])
  {
    PrefixFits(fs[..k + 1], k);
    assert fs[..k + 1][..k] == fs[..k];
  }

  lemma NoCulprit(nblk: nat, fs: seq<HostFile>)
    requires Fits(nblk, fs) || !Fits(nblk, [])
    ensures !Overwrites(nblk, fs)
  {
    hide Area, IndexCount;
    assert fs[..0] == [] && fs[..|fs|] == fs;
    forall k | 0 <= k < |fs| ensures !OverwritesAt(nblk, fs, k) {
      if Fits(nblk, fs[..|fs|]) { FewerFit(nblk, fs, k + 1, |fs|); }
      if Fits(nblk, fs[..k]) { FewerFit(nblk, fs, 0, k); }
      if OverwritesAt(nblk, fs, k) { CulpritFits(nblk, fs, k); }
    }
  }

  // ---- images ----------------------------------------------------------------------------------

  ghost predicate DataOk(img: seq<Byte>, bs: seq<Sector>) {
    && BLKSZ * (RESERVED + |bs|) <= |img|
    && (forall j :: 0 <= j < |bs| ==> BlockIs(img, RESERVED + j, bs[j]))
  }

  predicate BlockIs(img: seq<Byte>, s: nat, b: Sector) {
    BLKSZ * s + BLKSZ <= |img| && BlockAt(img, s) == b
  }

  ghost predicate IndexOk(img: seq<Byte>, nblk: nat, es: seq<Entry>) {
    && |img| == BLKSZ * nblk && |es| <= IPB * nblk
    && (forall k :: 0 <= k < |es| ==> EntryIs(img, nblk, k, es[k]))
  }

  predicate EntryIs(img: seq<Byte>, nblk: nat, k: nat, e: Entry) {
    k < IPB * nblk && |img| == BLKSZ * nblk && EntryAt(img, nblk, k) == e
  }

  /** The data and index areas hold the files. */
  ghost predicate ImageOf(img: seq<Byte>, nblk: nat, fs: seq<HostFile>) {
    && GoodFiles(fs) && Space(nblk, |Area(fs)|, |Index(fs)|)
    && DataOk(img, Area(fs)) && IndexOk(img, nblk, Index(fs) + [MarkEntry()])
  }

  // superblock fields
  const DA_BLK := 0x19C
  const IA_SIZE := 0x1A4
  const MAGIC := 0x1AC
  const TOTAL_BLK := 0x1B0
  const RESV_BLK := 0x1B8
  const BLK_SIZE := 0x1BC
  const CHECKSUM := 0x1BD

  /** The superblock describes a volume of `nblk` blocks with `da` data blocks and an index of
      `ia` entries, and its check bytes add up to zero. */
  predicate SuperOk(sb: Sector, nblk: nat, da: nat, ia: nat) {
    && Word(sb, DA_BLK) == da && Word(sb, IA_SIZE) == ia * IE_SIZE && Word(sb, TOTAL_BLK) == nblk
    && Word(sb, RESV_BLK) == RESERVED && sb[MAGIC..MAGIC + 4] == [83, 70, 83, 0x10] && sb[BLK_SIZE] == 2
    && Sum(sb, MAGIC, CHECKSUM + 1) % 256 == 0
  }

  /** Sum of the bytes from `i` up to `j`. */
  function Sum(s: seq<Byte>, i: nat, j: nat): nat
    requires i <= j <= |s|
    decreases j
  {
    if i == j then 0 else Sum(s, i, j - 1) + s[j - 1]
  }

  /** calc_checksum, in both programs: the check bytes added up, modulo 256. */
  method CalcChecksum(sb: Sector) returns (sum: Byte)
    ensures sum == Sum(sb, MAGIC, CHECKSUM + 1) % 256
  {
    sum := 0;
    var cnt := MAGIC;
    while cnt <= CHECKSUM
      invariant MAGIC <= cnt <= CHECKSUM + 1 && sum == Sum(sb, MAGIC, cnt) % 256
    {
      sum := (sum as int + sb[cnt] as int) % 256;
      cnt := cnt + 1;
    }
  }
}

/** The image builder tools/mk_sfs.c: superblock, index, root directory and one file after
    the other, until done or out of space. */
module MkSfs {
  import opened Bytes
  import opened BufferRing
  import opened SfsFormat
  import opened SfsImage

  /** Data blocks `bs` and index entries `es` are in place, with the marker at entry `ia`. */
  ghost predicate Holds(img: seq<Byte>, nblk: nat, bs: seq<Sector>, es: seq<Entry>, ia: nat) {
    && DataOk(img, bs) && IndexOk(img, nblk, es) && |es| <= ia
    && EntryIs(img, nblk, ia, MarkEntry()) && Space(nblk, |bs|, ia)
  }

  /** One more data block, written where the space test then allows it. */
  lemma HoldsBlock(img: seq<Byte>, nblk: nat, bs: seq<Sector>, es: seq<Entry>, ia: nat, b: Sector)
    requires Holds(img, nblk, bs, es, ia) && Space(nblk, |bs| + 1, ia)
    ensures Holds(PutBlock(img, RESERVED + |bs|, b), nblk, bs + [b], es, ia)
  {
    var s := RESERVED + |bs|;
    var r := PutBlock(img, s, b);
    forall j | 0 <= j < |bs| + 1 ensures BlockIs(r, RESERVED + j, (bs + [b])[j]) {
      assert j < |bs| ==> BlockIs(img, RESERVED + j, bs[j]);
      BlockAfterBlock(img, s, b, RESERVED + j);
    }
    forall k | 0 <= k < |es| || k == ia ensures EntryIs(r, nblk, k, EntryAt(img, nblk, k)) {
      DataBelowIndex(nblk, |bs| + 1, ia, k);
      EntryAfterBlock(img, nblk, s, b, k);
    }
    forall k | 0 <= k < |es| ensures EntryIs(r, nblk, k, es[k]) {
      assert EntryIs(img, nblk, k, es[k]);
    }
  }

  /** Moving the marker up; entries between the old index and the marker are not set yet. */
  lemma HoldsMark(img: seq<Byte>, nblk: nat, bs: seq<Sector>, es: seq<Entry>, ia: nat)
    requires DataOk(img, bs) && IndexOk(img, nblk, es) && |es| <= ia && Space(nblk, |bs|, ia)
    ensures ia < IPB * nblk && Holds(PutEntry(img, nblk, ia, MarkEntry()), nblk, bs, es, ia)
  {
    DataBelowIndex(nblk, |bs|, ia, ia);
    var r := PutEntry(img, nblk, ia, MarkEntry());
    EntryAfterEntry(img, nblk, ia, MarkEntry(), ia);
    KeepData(img, nblk, bs, ia, MarkEntry());
    forall k | 0 <= k < |es| ensures EntryIs(r, nblk, k, es[k]) {
      assert EntryIs(img, nblk, k, es[k]);
      EntryAfterEntry(img, nblk, ia, MarkEntry(), k);
    }
  }

  /** Writing an index entry spares the data. */
  lemma KeepData(img: seq<Byte>, nblk: nat, bs: seq<Sector>, k: nat, e: Entry)
    requires DataOk(img, bs) && |img| == BLKSZ * nblk && k < IPB * nblk && RESERVED + |bs| <= EntryBlock(nblk, k)
    ensures DataOk(PutEntry(img, nblk, k, e), bs)
  {
    var r := PutEntry(img, nblk, k, e);
    forall j | 0 <= j < |bs| ensures BlockIs(r, RESERVED + j, bs[j]) {
      assert BlockIs(img, RESERVED + j, bs[j]);
      BlockAfterEntry(img, nblk, k, e, RESERVED + j);
    }
  }

  /** Entries `lo` up to the marker hold `es`. */
  ghost predicate Filled(img: seq<Byte>, nblk: nat, lo: nat, es: seq<Entry>) {
    forall k :: 0 <= k < |es| ==> EntryIs(img, nblk, lo + k, es[k])
  }

  /** Setting the entry below those already set. */
  lemma FillDown(img: seq<Byte>, nblk: nat, bs: seq<Sector>, es: seq<Entry>, ia: nat, lo: nat, top: seq<Entry>,
                 e: Entry)
    requires Holds(img, nblk, bs, es, ia) && |es| < lo && lo + |top| == ia && Filled(img, nblk, lo, top)
    ensures lo - 1 < IPB * nblk
    ensures
      var r := PutEntry(img, nblk, lo - 1, e);
      Holds(r, nblk, bs, es, ia) && Filled(r, nblk, lo - 1, [e] + top)
  {
    hide EntryAt, PutEntry, EntryAddr, EntryBlock;
    DataBelowIndex(nblk, |bs|, ia, lo - 1);
    var r, t := PutEntry(img, nblk, lo - 1, e), [e] + top;
    KeepData(img, nblk, bs, lo - 1, e);
    EntryAfterEntry(img, nblk, lo - 1, e, ia);
    forall k | 0 <= k < |es| ensures EntryIs(r, nblk, k, es[k]) {
      assert EntryIs(img, nblk, k, es[k]);
      EntryAfterEntry(img, nblk, lo - 1, e, k);
    }
    forall k | 0 <= k < |t| ensures EntryIs(r, nblk, lo - 1 + k, t[k]) {
      assert k > 0 ==> EntryIs(img, nblk, lo + (k - 1), top[k - 1]);
      DataBelowIndex(nblk, |bs|, ia, lo - 1 + k);
      EntryAfterEntry(img, nblk, lo - 1, e, lo - 1 + k);
    }
  }

  /** Index and new entries together, once the gap is closed. */
  lemma Closed(img: seq<Byte>, nblk: nat, bs: seq<Sector>, es: seq<Entry>, ia: nat, top: seq<Entry>)
    requires Holds(img, nblk, bs, es, ia) && |es| + |top| == ia && Filled(img, nblk, |es|, top)
    ensures Holds(img, nblk, bs, es + top, ia) && IndexOk(img, nblk, es + top + [MarkEntry()])
  {
    DataBelowIndex(nblk, |bs|, ia, ia);
    var all := es + top + [MarkEntry()];
    forall k | 0 <= k < |all| ensures EntryIs(img, nblk, k, all[k]) {
      if |es| <= k < ia { assert EntryIs(img, nblk, |es| + (k - |es|), top[k - |es|]); }
    }
    assert forall k :: 0 <= k < ia ==> (es + top)[k] == all[k];
  }

  // ---- the superblock ------------------------------------------------------------------------

  lemma {:induction false} SumSame(s: seq<Byte>, t: seq<Byte>, i: nat, j: nat)
    requires i <= j <= |s| && |s| == |t| && forall k :: i <= k < j ==> s[k] == t[k]
    ensures Sum(s, i, j) == Sum(t, i, j)
    decreases j
  {
    if i < j { SumSame(s, t, i, j - 1); }
  }

  /** `a` with a 64-bit field set. */
  function PutLong(a: Sector, o: nat, v: nat): (r: Sector)
    requires o + 8 <= BLKSZ && v < WORD_LIMIT
    ensures Word(r, o) == v
    ensures forall k :: 0 <= k < BLKSZ && !(o <= k < o + 8) ==> r[k] == a[k]
  {
    Splice(a, o, Long(v))
  }

  /** The fields init_sb sets in its all-zero superblock, check byte still zero. */
  method FreshSuper(nblk: nat) returns (s: Sector)
    requires nblk < WORD_LIMIT
    ensures Word(s, DA_BLK) == 0 && Word(s, IA_SIZE) == 0 && Word(s, TOTAL_BLK) == nblk && Word(s, RESV_BLK) == RESERVED
    ensures s[MAGIC..MAGIC + 4] == [83, 70, 83, 0x10] && s[BLK_SIZE] == 2 && s[CHECKSUM] == 0
  {
    hide Long, WordBytes;
    s := Zeros(MAGIC) + [83, 70, 83, 0x10] + Long(nblk) + WordBytes(RESERVED) + [2] + Zeros(67);
    assert s[TOTAL_BLK..TOTAL_BLK + 8] == Long(nblk);
    assert s[RESV_BLK..RESV_BLK + 4] == WordBytes(RESERVED);
  }

  /** Negating the sum in the check byte makes the sum zero and touches no other field. */
  lemma Checked(s: Sector, sum: Byte)
    requires s[CHECKSUM] == 0 && sum == Sum(s, MAGIC, CHECKSUM + 1) % 256
    ensures
      var t := s[CHECKSUM := (256 - sum) % 256];
      Sum(t, MAGIC, CHECKSUM + 1) % 256 == 0 && t[MAGIC..MAGIC + 4] == s[MAGIC..MAGIC + 4]
  {
    hide Sum;
    var t := s[CHECKSUM := (256 - sum) % 256];
    SumSame(s, t, MAGIC, CHECKSUM);
    LastByte(s, MAGIC, CHECKSUM);
    LastByte(t, MAGIC, CHECKSUM);
    Negated(Sum(s, MAGIC, CHECKSUM));
  }

  lemma LastByte(s: seq<Byte>, i: nat, j: nat)
    requires i <= j < |s|
    ensures Sum(s, i, j + 1) == Sum(s, i, j) + s[j]
  {
  }

  lemma Negated(n: nat)
    ensures (n + (256 - n % 256) % 256) % 256 == 0
  {
  }

  /** The sizes lie outside the checked bytes. */
  lemma Sizes(s: Sector, nblk: nat, da: nat, ia: nat)
    requires SuperOk(s, nblk, 0, 0) && da < WORD_LIMIT && ia * IE_SIZE < WORD_LIMIT
    ensures SuperOk(PutLong(PutLong(s, DA_BLK, da), IA_SIZE, ia * IE_SIZE), nblk, da, ia)
  {
    hide Sum, PutLong;
    var u := PutLong(s, DA_BLK, da);
    var t := PutLong(u, IA_SIZE, ia * IE_SIZE);
    SumSame(s, t, MAGIC, CHECKSUM + 1);
    assert t[MAGIC..MAGIC + 4] == s[MAGIC..MAGIC + 4];
  }

  // ---- the builder ----------------------------------------------------------------------------

  /** The superblock at block 0 survives writes further up. */
  lemma SuperAfterBlock(img: seq<Byte>, s: nat, b: Sector, sb: Sector)
    requires BlockIs(img, 0, sb) && s > 0 && BLKSZ * s + BLKSZ <= |img|
    ensures BlockIs(PutBlock(img, s, b), 0, sb)
  {
    BlockAfterBlock(img, s, b, 0);
  }

  lemma SuperAfterEntry(img: seq<Byte>, nblk: nat, bs: seq<Sector>, ia: nat, k: nat, e: Entry, sb: Sector)
    requires BlockIs(img, 0, sb) && |img| == BLKSZ * nblk && Space(nblk, |bs|, ia) && k <= ia
    ensures k < IPB * nblk && BlockIs(PutEntry(img, nblk, k, e), 0, sb)
  {
    DataBelowIndex(nblk, |bs|, ia, k);
    BlockAfterEntry(img, nblk, k, e, 0);
  }

  lemma Extended(fs: seq<HostFile>, f: HostFile)
    requires GoodFiles(fs) && GoodFile(f) && |Area(fs)| + |BlocksFor(f)| < WORD_LIMIT
    ensures GoodFiles(fs + [f]) && Area(fs + [f]) == Area(fs) + BlocksFor(f)
    ensures Index(fs + [f]) == Index(fs) + EntriesOf(f, |Area(fs)|)
  {
    assert (fs + [f])[..|fs + [f]| - 1] == fs;
  }

  class Builder {
    const nblk: nat            // blocks of the volume
    var img: seq<Byte>         // the image file
    var da: nat                // da_blocks
    var ia: nat                // ia_num
    ghost var sb: Sector       // the superblock
    ghost var fs: seq<HostFile>
    ghost var stores: seq<Store>

    /** The image holds the files packed so far, and no store landed where it should not. */
    ghost predicate Ready()
      reads this
    {
      && nblk < 0x80_0000 && |img| == BLKSZ * nblk && BlockIs(img, 0, sb)
      && GoodFiles(fs) && da == |Area(fs)| && ia == |Index(fs)|
      && Holds(img, nblk, Area(fs), Index(fs), ia) && Landed(stores, false)
    }

    /** The new image file reads as zeros. */
    constructor (nblk: nat)
      requires 1 <= nblk < 0x80_0000
      ensures this.nblk == nblk && |img| == BLKSZ * nblk && da == 0 && ia == 0 && fs == [] && stores == []
      ensures forall i :: 0 <= i < |img| ==> img[i] == 0
    {
      this.nblk := nblk;
      img := seq<Byte>(BLKSZ * nblk, _ => 0);
      da, ia := 0, 0;
      sb := Zeros(BLKSZ);
      fs, stores := [], [];
    }

    /** One data block, stored before the space test; false when that fails. */
    method StoreBlock(buf: Sector, ghost bs: seq<Sector>, ghost es: seq<Entry>) returns (ok: bool)
      requires |img| == BLKSZ * nblk && BlockIs(img, 0, sb) && da == |bs| && Holds(img, nblk, bs, es, ia)
      requires Landed(stores, false)
      modifies this`img, this`da, this`stores
      ensures |img| == BLKSZ * nblk && ia < IPB * nblk && da == |bs| + 1 && ok == Space(nblk, da, ia)
      ensures ok ==> BlockIs(img, 0, sb) && Holds(img, nblk, bs + [buf], es, ia)
      ensures stores == old(stores) + [Block(RESERVED + |bs|, EntryBlock(nblk, ia))]
      ensures Landed(stores, !ok && ia % IPB != IPB - 1)
    {
      hide Holds, BlockIs, PutBlock, EntryBlock, Landed;
      InRange(img, nblk, bs, es, ia);
      OverwriteEndsRun(nblk, da, ia);
      LandedMore(stores, Block(RESERVED + da, EntryBlock(nblk, ia)));
      ghost var i0 := img;
      img := PutBlock(img, RESERVED + da, buf);
      stores := stores + [Block(RESERVED + da, EntryBlock(nblk, ia))];
      da := da + 1;
      if !(da + ((ia + 1) / IPB + 1) < nblk) {
        return false;
      }
      HoldsBlock(i0, nblk, bs, es, ia, buf);
      SuperAfterBlock(i0, RESERVED + |bs|, buf, sb);
      return true;
    }

    /** write_data: the blocks of `content` behind the data area; false when space runs out. The
        stores fall below every block with index entries; the last one before the run ends for want
        of space does not, if and only if the marker does not fill its block. */
    method WriteData(content: seq<Byte>, ghost bs: seq<Sector>, ghost es: seq<Entry>) returns (ok: bool)
      requires |img| == BLKSZ * nblk && BlockIs(img, 0, sb) && da == |bs| && Holds(img, nblk, bs, es, ia)
      requires Landed(stores, false)
      modifies this`img, this`da, this`stores
      ensures |img| == BLKSZ * nblk && ia < IPB * nblk
      ensures ok ==> BlockIs(img, 0, sb) && da == |bs| + |BlocksOf(content)|
                     && Holds(img, nblk, bs + BlocksOf(content), es, ia)
      ensures !ok ==> !Space(nblk, |bs| + |BlocksOf(content)|, ia)
      ensures old(stores) <= stores && (ok ==> |stores| == |old(stores)| + |BlocksOf(content)|)
      ensures forall i :: |old(stores)| <= i < |stores| ==>
                stores[i] == Block(RESERVED + |bs| + i - |old(stores)|, EntryBlock(nblk, ia))
      ensures Landed(stores, !ok && ia % IPB != IPB - 1)
    {
      hide Holds, BlockIs, BlocksOf, Padded, Rest, EntryBlock, Landed;
      var rest, len := content, |content|;
      ghost var got: seq<Sector>, s0 := [], stores;
      InRange(img, nblk, bs, es, ia);
      assert bs + got == bs && BlocksOf(content) == got + BlocksOf(rest);
      while len > 0
        invariant |rest| == (if len > 0 then len else 0)
        invariant |img| == BLKSZ * nblk && BlockIs(img, 0, sb) && da == |bs + got|
        invariant Holds(img, nblk, bs + got, es, ia) && BlocksOf(content) == got + BlocksOf(rest)
        invariant s0 <= stores && |stores| == |s0| + |got| && Landed(stores, false)
        invariant forall i :: |s0| <= i < |stores| ==>
                    stores[i] == Block(RESERVED + |bs| + i - |s0|, EntryBlock(nblk, ia))
        decreases len
      {
        var buf: Sector := Padded(rest, BLKSZ);
        NextBlock(content, got, rest);
        ok := StoreBlock(buf, bs + got, es);
        if !ok {
          return;
        }
        len := len - BLKSZ;
        assert (bs + got) + [buf] == bs + (got + [buf]);
        rest := if |rest| > BLKSZ then rest[BLKSZ..] else [];
        got := got + [buf];
      }
      NoBlocks(rest);
      assert got + [] == got;
      return true;
    }

    /** write_index below the entries `top` that are already set up to the marker. */
    method WriteIndex(k: nat, e: Entry, ghost bs: seq<Sector>, ghost es: seq<Entry>, ghost top: seq<Entry>)
      requires |img| == BLKSZ * nblk && BlockIs(img, 0, sb) && Holds(img, nblk, bs, es, ia) && da == |bs|
      requires |es| <= k && k + 1 + |top| == ia && Filled(img, nblk, k + 1, top) && Landed(stores, false)
      modifies this`img, this`stores
      ensures |img| == BLKSZ * nblk && BlockIs(img, 0, sb) && Holds(img, nblk, bs, es, ia)
      ensures Filled(img, nblk, k, [e] + top) && ia < IPB * nblk
      ensures stores == old(stores) + [Slot(EntryBlock(nblk, k), da)] && Landed(stores, false)
    {
      hide Holds, BlockIs, PutEntry, Filled, Landed, EntryBlock;
      SpaceOf(img, nblk, bs, es, ia);
      FillDown(img, nblk, bs, es, ia, k + 1, top, e);
      SuperAfterEntry(img, nblk, bs, ia, k, e, sb);
      SlotClean(stores, nblk, da, ia, ia);
      SlotClean(stores, nblk, da, ia, k);
      stores := stores + [Slot(EntryBlock(nblk, k), da)];
      img := PutEntry(img, nblk, k, e);
    }

    /** The header and the continuation entries of `f`, from the marker downwards. */
    method WriteEntries(f: HostFile, header: Entry, ghost start: nat, ghost bs: seq<Sector>, ghost es: seq<Entry>)
      requires |img| == BLKSZ * nblk && BlockIs(img, 0, sb) && Holds(img, nblk, bs, es, ia)
      requires ia == |es| + Nie(|f.name|) + 1
      requires GoodFile(f) && 1 <= start && start + |BlocksFor(f)| < WORD_LIMIT && header == HeaderEntry(f, start)
      requires da == |bs| && Landed(stores, false)
      modifies this`img, this`stores
      ensures |img| == BLKSZ * nblk && BlockIs(img, 0, sb) && Holds(img, nblk, bs, es + EntriesOf(f, start), ia)
      ensures old(stores) <= stores && |stores| == |old(stores)| + Nie(|f.name|) + 1 && ia < IPB * nblk
      ensures forall i :: |old(stores)| <= i < |stores| ==>
                stores[i] == Slot(EntryBlock(nblk, ia - 1 - (i - |old(stores)|)), da)
      ensures Landed(stores, false)
    {
      hide Holds, BlockIs, HeaderEntry, ContEntry, Filled, Nie, Landed, EntryBlock;
      ghost var top: seq<Entry>, s0 := [], stores;
      Unfilled(img, nblk, ia);
      WriteIndex(ia - 1, header, bs, es, top);
      top := [header] + top;
      var nie, i := Nie(|f.name|), 0;
      while i < nie
        invariant 0 <= i <= nie && |img| == BLKSZ * nblk && BlockIs(img, 0, sb) && Holds(img, nblk, bs, es, ia)
        invariant |top| == i + 1 && Filled(img, nblk, ia - 1 - i, top)
        invariant top == EntriesOf(f, start)[nie - i..]
        invariant s0 <= stores && |stores| == |s0| + i + 1 && Landed(stores, false)
        invariant forall k :: |s0| <= k < |stores| ==> stores[k] == Slot(EntryBlock(nblk, ia - 1 - (k - |s0|)), da)
      {
        var j := ia - 2 - i;
        WriteIndex(j, ContEntry(f.name, i), bs, es, top);
        top := [ContEntry(f.name, i)] + top;
        i := i + 1;
      }
      assert top == EntriesOf(f, start);
      Closed(img, nblk, bs, es, ia, top);
    }

    /** Packs one file; false when space runs out. */
    method WriteFile(f: HostFile) returns (ok: bool)
      requires Ready() && GoodFile(f)
      modifies this`img, this`da, this`ia, this`fs, this`stores
      ensures |img| == BLKSZ * nblk && old(stores) <= stores
      ensures ok ==> Ready() && fs == old(fs) + [f]
      ensures !ok ==>
                var a, n := |Area(old(fs))|, |Index(old(fs))| + Nie(|f.name|) + 1;
                !Space(nblk, a + |BlocksFor(f)|, n) && Landed(stores, Space(nblk, a, n) && n % IPB != IPB - 1)
    {
      hide Holds, BlockIs, PutEntry, HeaderEntry, Nie, Area, Index, EntriesOf, GoodFiles, FileEntry, DirEntry,
           BlocksOf, DataOk, IndexOk, Landed, EntryBlock;
      ghost var bs, es := Area(fs), Index(fs);
      SpaceOf(img, nblk, bs, es, ia);
      var nie := Nie(|f.name|);
      ia := ia + nie + 1;
      if !(da + ((ia + 1) / IPB + 1) < nblk) {
        return false;
      }
      HoldsMark(img, nblk, bs, es, ia);
      SuperAfterEntry(img, nblk, bs, ia, ia, MarkEntry(), sb);
      SlotClean(stores, nblk, da, ia, ia);
      stores := stores + [Slot(EntryBlock(nblk, ia), da)];
      img := PutEntry(img, nblk, ia, MarkEntry());
      var start := da;
      match f {
        case Directory(name) =>
          assert bs + BlocksFor(f) == bs;
          HeaderIs(f, start);
          WriteEntries(f, DirEntry(name, nie, 0), start, bs, es);
        case Regular(name, content) =>
          ok := WriteData(content, bs, es);
          if !ok {
            return;
          }
          SpaceOf(img, nblk, bs + BlocksOf(content), es, ia);
          HeaderIs(f, start);
          WriteEntries(f, FileEntry(name, start, da - 1, |content|), start, bs + BlocksFor(f), es);
      }
      SpaceOf(img, nblk, bs + BlocksFor(f), es + EntriesOf(f, start), ia);
      Extended(fs, f);
      fs := fs + [f];
      return true;
    }

    /** init_sb: a superblock for an empty volume at block 0. */
    method InitSb()
      requires 1 <= nblk < 0x80_0000 && |img| == BLKSZ * nblk
      modifies this`img, this`sb
      ensures img == PutBlock(old(img), 0, sb) && SuperOk(sb, nblk, 0, 0)
    {
      hide PutBlock, Sum;
      var s := FreshSuper(nblk);
      var sum := CalcChecksum(s);
      Checked(s, sum);
      s := s[CHECKSUM := (256 - sum as int) % 256];
      sb := s;
      img := PutBlock(img, 0, s);
    }

    /** init_index and init_root: volume identifier, marker, root directory. */
    method InitRoot() returns (ok: bool)
      requires 1 <= nblk < 0x80_0000 && |img| == BLKSZ * nblk && BlockIs(img, 0, sb) && da == 0 && ia == 0 && fs == []
      requires (forall i :: BLKSZ <= i < |img| ==> img[i] == 0) && stores == []
      modifies this`img, this`da, this`ia, this`stores
      ensures |img| == BLKSZ * nblk && Landed(stores, false)
      ensures ok == Space(nblk, 1, 2)
      ensures ok ==> Ready()
    {
      hide PutEntry, VolumeEntry, DirEntry, MarkEntry, Holds;
      ghost var i0 := img;
      img := PutEntry(img, nblk, ia, VolumeEntry());
      stores := [Slot(EntryBlock(nblk, ia), da)];
      ia := ia + 1;
      if !(da + ((ia + 1) / IPB + 1) < nblk) {
        return false;
      }
      img := PutEntry(img, nblk, ia, MarkEntry());
      img := PutEntry(img, nblk, ia, DirEntry([47], 0, 21));
      stores := stores + [Slot(EntryBlock(nblk, ia), da), Slot(EntryBlock(nblk, ia), da)];
      da := da + 1;
      if !(da + ((ia + 1) / IPB + 1) < nblk) {
        return false;
      }
      ia := ia + 1;
      if !(da + ((ia + 1) / IPB + 1) < nblk) {
        return false;
      }
      img := PutEntry(img, nblk, ia, MarkEntry());
      SlotClean(stores, nblk, da, ia, ia);
      stores := stores + [Slot(EntryBlock(nblk, ia), da)];
      RootHolds(i0, nblk, sb);
      return true;
    }

    /** update_sb: the final sizes. */
    method UpdateSb()
      requires Ready() && SuperOk(sb, nblk, 0, 0)
      modifies this`img, this`sb
      ensures Ready() && SuperOk(sb, nblk, da, ia)
    {
      hide Holds, PutBlock, BlockIs, Sum, Area, Index;
      SpaceOf(img, nblk, Area(fs), Index(fs), ia);
      var s := ReadSuper();
      Sizes(s, nblk, da, ia);
      s := PutLong(PutLong(s, DA_BLK, da), IA_SIZE, ia * IE_SIZE);
      HoldsSuper(img, nblk, Area(fs), Index(fs), ia, s);
      sb := s;
      img := PutBlock(img, 0, s);
    }

    method ReadSuper() returns (s: Sector)
      requires BlockIs(img, 0, sb)
      ensures s == sb
    {
      s := BlockAt(img, 0);
    }
  }

  /** mk_sfs: the image for the given files, or out of space, and exactly when that happens. Of all
      its stores only the last one can land where it should not, and exactly when it does. */
  method Build(nblk: nat, files: seq<HostFile>) returns (ok: bool, img: seq<Byte>, ghost stores: seq<Store>)
    requires 1 <= nblk < 0x80_0000 && forall i :: 0 <= i < |files| ==> GoodFile(files[i])
    ensures ok <==> Space(nblk, |Area(files)|, IndexCount(files))
    ensures ok ==> ImageOf(img, nblk, files) && SuperOk(BlockAt(img, 0), nblk, |Area(files)|, |Index(files)|)
    ensures Landed(stores, Overwrites(nblk, files))
    ensures IE_SIZE * IndexCount(files) <= NameBytes(files) + 99 * |files| + 128
    ensures (forall i :: 0 <= i < |files| ==> |files[i].name| <= 28) ==> IndexCount(files) == 2 + |files|
    ensures BLKSZ * |Area(files)| <= DataBytes(files) + (BLKSZ - 1) * |files| + BLKSZ
  {
    hide Holds, BlockIs, PutBlock, Area, Index, IndexCount, GoodFiles, SuperOk, Landed, Overwrites, NameBytes,
         DataBytes;
    AtMost(files);
    var b := new Builder(nblk);
    ghost var i0 := b.img;
    b.InitSb();
    SuperFirst(i0, b.sb);
    Smallest(files);
    PrefixFits(files, 0);
    ok := b.InitRoot();
    if !ok {
      NoCulprit(nblk, files);
      return false, b.img, b.stores;
    }
    var i := 0;
    while i < |files|
      invariant 0 <= i <= |files| && b.nblk == nblk && b.Ready() && b.fs == files[..i] && SuperOk(b.sb, nblk, 0, 0)
      invariant Fits(nblk, files[..i])
    {
      IndexLength(files[..i]);
      OneMore(files, i);
      PrefixFits(files, i + 1);
      ok := b.WriteFile(files[i]);
      if !ok {
        Culprit(nblk, files, i);
        return false, b.img, b.stores;
      }
      SpaceOf(b.img, nblk, Area(b.fs), Index(b.fs), b.ia);
      IndexLength(b.fs);
      i := i + 1;
    }
    assert files[..i] == files;
    b.UpdateSb();
    IndexLength(files);
    Finished(b.img, nblk, files, b.sb);
    NoCulprit(nblk, files);
    return true, b.img, b.stores;
  }

  /** A first superblock on an all-zero image. */
  lemma SuperFirst(img: seq<Byte>, sb: Sector)
    requires BLKSZ <= |img| && forall i :: 0 <= i < |img| ==> img[i] == 0
    ensures
      var r := PutBlock(img, 0, sb);
      BlockIs(r, 0, sb) && forall i :: BLKSZ <= i < |r| ==> r[i] == 0
  {
    BlockAfterBlock(img, 0, sb, 0);
  }

  /** A new superblock spares both areas. */
  lemma HoldsSuper(img: seq<Byte>, nblk: nat, bs: seq<Sector>, es: seq<Entry>, ia: nat, sb: Sector)
    requires |img| == BLKSZ * nblk && Holds(img, nblk, bs, es, ia)
    ensures BLKSZ <= |img|
    ensures Holds(PutBlock(img, 0, sb), nblk, bs, es, ia) && BlockIs(PutBlock(img, 0, sb), 0, sb)
  {
    var r := PutBlock(img, 0, sb);
    BlockAfterBlock(img, 0, sb, 0);
    forall j | 0 <= j < |bs| ensures BlockIs(r, RESERVED + j, bs[j]) {
      assert BlockIs(img, RESERVED + j, bs[j]);
      BlockAfterBlock(img, 0, sb, RESERVED + j);
    }
    forall k | 0 <= k < |es| || k == ia ensures EntryIs(r, nblk, k, EntryAt(img, nblk, k)) {
      DataBelowIndex(nblk, |bs|, ia, k);
      EntryAfterBlock(img, nblk, 0, sb, k);
    }
    forall k | 0 <= k < |es| ensures EntryIs(r, nblk, k, es[k]) {
      assert EntryIs(img, nblk, k, es[k]);
    }
  }

  /** What the four writes of init_index and init_root leave. */
  lemma RootHolds(img: seq<Byte>, nblk: nat, sb: Sector)
    requires |img| == BLKSZ * nblk && Space(nblk, 1, 2) && BlockIs(img, 0, sb)
    requires forall i :: BLKSZ <= i < |img| ==> img[i] == 0
    ensures
      var m := PutEntry(PutEntry(img, nblk, 0, VolumeEntry()), nblk, 1, MarkEntry());
      var r := PutEntry(PutEntry(m, nblk, 1, DirEntry([47], 0, 21)), nblk, 2, MarkEntry());
      Holds(r, nblk, Area([]), Index([]), 2) && BlockIs(r, 0, sb)
  {
    hide PutEntry, VolumeEntry, DirEntry, MarkEntry, Holds, EntryAt;
    var bs: seq<Sector> := [Zeros(BLKSZ)];
    FirstBlockZero(img);
    var dir := DirEntry([47], 0, 21);
    var i1 := PutEntry(img, nblk, 0, VolumeEntry());
    var i2 := PutEntry(i1, nblk, 1, MarkEntry());
    var i3 := PutEntry(i2, nblk, 1, dir);
    KeepData(img, nblk, bs, 0, VolumeEntry());
    KeepData(i1, nblk, bs, 1, MarkEntry());
    KeepData(i2, nblk, bs, 1, dir);
    SuperAfterEntry(img, nblk, bs, 2, 0, VolumeEntry(), sb);
    SuperAfterEntry(i1, nblk, bs, 2, 1, MarkEntry(), sb);
    SuperAfterEntry(i2, nblk, bs, 2, 1, dir, sb);
    SuperAfterEntry(i3, nblk, bs, 2, 2, MarkEntry(), sb);
    EntryAfterEntry(img, nblk, 0, VolumeEntry(), 0);
    EntryAfterEntry(i1, nblk, 1, MarkEntry(), 0);
    EntryAfterEntry(i2, nblk, 1, dir, 0);
    EntryAfterEntry(i2, nblk, 1, dir, 1);
    HoldsMark(i3, nblk, bs, [VolumeEntry(), dir], 2);
  }

  lemma FirstBlockZero(img: seq<Byte>)
    requires 2 * BLKSZ <= |img| && forall i :: BLKSZ <= i < |img| ==> img[i] == 0
    ensures DataOk(img, [Zeros(BLKSZ)])
  {
    assert BlockAt(img, 1) == Zeros(BLKSZ);
  }

  lemma Smallest(fs: seq<HostFile>)
    ensures fs[..0] == [] && |Area([])| == 1 && IndexCount([]) == 2
  {
  }

  lemma OneMore(fs: seq<HostFile>, i: nat)
    requires i < |fs|
    ensures fs[..i + 1] == fs[..i] + [fs[i]]
    ensures |Area(fs[..i + 1])| == |Area(fs[..i])| + |BlocksFor(fs[i])|
    ensures IndexCount(fs[..i + 1]) == IndexCount(fs[..i]) + Nie(|fs[i].name|) + 1
  {
    assert fs[..i + 1][..i] == fs[..i];
  }

  lemma Finished(img: seq<Byte>, nblk: nat, fs: seq<HostFile>, sb: Sector)
    requires GoodFiles(fs) && Holds(img, nblk, Area(fs), Index(fs), |Index(fs)|) && BlockIs(img, 0, sb)
    ensures ImageOf(img, nblk, fs) && BlockAt(img, 0) == sb
  {
    hide Area, Index, EntryIs;
    Unfilled(img, nblk, |Index(fs)|);
    Closed(img, nblk, Area(fs), Index(fs), |Index(fs)|, []);
    assert Index(fs) + [] == Index(fs);
  }

  lemma NextBlock(content: seq<Byte>, got: seq<Sector>, rest: seq<Byte>)
    requires rest != [] && BlocksOf(content) == got + BlocksOf(rest)
    ensures BlocksOf(content) == (got + [Padded(rest, BLKSZ)]) + BlocksOf(if |rest| > BLKSZ then rest[BLKSZ..] else [])
    ensures |got| + 1 <= |BlocksOf(content)|
  {
    assert BlocksOf(rest) == [Padded(rest, BLKSZ)] + BlocksOf(Rest(rest));
  }

  lemma NoBlocks(rest: seq<Byte>)
    requires rest == []
    ensures BlocksOf(rest) == []
  {
  }

  lemma HeaderIs(f: HostFile, start: nat)
    requires GoodFile(f) && 1 <= start && start + |BlocksFor(f)| < WORD_LIMIT
    ensures HeaderEntry(f, start) ==
              match f
              case Regular(name, content) => FileEntry(name, start, start + |BlocksOf(content)| - 1, |content|)
              case Directory(name) => DirEntry(name, Nie(|name|), 0)
  {
    hide FileEntry, DirEntry, BlocksOf;
  }

  lemma Unfilled(img: seq<Byte>, nblk: nat, lo: nat)
    ensures Filled(img, nblk, lo, [])
  {
  }

  lemma SpaceOf(img: seq<Byte>, nblk: nat, bs: seq<Sector>, es: seq<Entry>, ia: nat)
    requires Holds(img, nblk, bs, es, ia)
    ensures Space(nblk, |bs|, ia) && |es| <= ia && DataOk(img, bs) && IndexOk(img, nblk, es)
  {
  }

  lemma InRange(img: seq<Byte>, nblk: nat, bs: seq<Sector>, es: seq<Entry>, ia: nat)
    requires Holds(img, nblk, bs, es, ia)
    ensures BLKSZ * (RESERVED + |bs|) + BLKSZ <= |img| && ia < IPB * nblk && Space(nblk, |bs|, ia)
  {
  }
}

/** The kernel heap as a sequence of chunks: first-fit allocation with splitting, freeing
    with coalescing on both sides and release at the top (kern/heap.c), on values. */
module Chunks {

  const HEADER := 12       // sizeof(struct heap_head)

  /** A chunk of `len` bytes, header included. */
  datatype Chunk = Chunk(len: nat, free: bool)

  /** A live block: offset of its header from the start of the heap, and its length. */
  type Block = (nat, nat)

  function Size(cs: seq<Chunk>): nat {
    if cs == [] then 0 else cs[0].len + Size(cs[1..])
  }

  /** Offset of chunk `i`. */
  function Off(cs: seq<Chunk>, i: nat): nat
    requires i <= |cs|
  {
    Size(cs[..i])
  }

  /** Every chunk holds its header and no two neighbours are free. */
  predicate Coalesced(cs: seq<Chunk>) {
    && (forall i :: 0 <= i < |cs| ==> cs[i].len >= HEADER)
    && (forall i :: 0 <= i < |cs| - 1 ==> !(cs[i].free && cs[i + 1].free))
  }

  /** The shape of every reachable heap: coalesced, and the last chunk is in use. */
  predicate Canonical(cs: seq<Chunk>) {
    Coalesced(cs) && (cs != [] ==> !cs[|cs| - 1].free)
  }

  /** The blocks in use, when the first chunk lies at `base`. */
  function LiveFrom(cs: seq<Chunk>, base: nat): set<Block> {
    if cs == [] then {}
    else (if cs[0].free then {} else {(base, cs[0].len)}) + LiveFrom(cs[1..], base + cs[0].len)
  }

  function Live(cs: seq<Chunk>): set<Block> {
    LiveFrom(cs, 0)
  }

  // ---- offsets ------------------------------------------------------------------

  lemma {:induction false} SizeConcat(a: seq<Chunk>, b: seq<Chunk>)
    ensures Size(a + b) == Size(a) + Size(b)
  {
    if a == [] {
      assert a + b == b;
    } else {
      assert (a + b)[1..] == a[1..] + b;
      SizeConcat(a[1..], b);
    }
  }

  lemma {:induction false} LiveConcat(a: seq<Chunk>, b: seq<Chunk>, base: nat)
    ensures LiveFrom(a + b, base) == LiveFrom(a, base) + LiveFrom(b, base + Size(a))
  {
    if a == [] {
      assert a + b == b;
    } else {
      assert (a + b)[1..] == a[1..] + b;
      LiveConcat(a[1..], b, base + a[0].len);
    }
  }

  /** Live blocks lie inside the heap. */
  lemma {:induction false} LiveBounds(cs: seq<Chunk>, base: nat, b: Block)
    requires b in LiveFrom(cs, base)
    ensures base <= b.0 && b.0 + b.1 <= base + Size(cs)
  {
    if b != (base, cs[0].len) {
      LiveBounds(cs[1..], base + cs[0].len, b);
    }
  }

  lemma {:induction false} OffNext(cs: seq<Chunk>, i: nat)
    requires i < |cs|
    ensures Off(cs, i + 1) == Off(cs, i) + cs[i].len
  {
    assert cs[..i + 1] == cs[..i] + [cs[i]];
    SizeConcat(cs[..i], [cs[i]]);
  }

  /** Chunks do not overlap: a later one starts after an earlier one ends. */
  lemma {:induction false} OffMono(cs: seq<Chunk>, i: nat, j: nat)
    requires i < j <= |cs|
    ensures Off(cs, i) + cs[i].len <= Off(cs, j) <= Size(cs)
  {
    OffNext(cs, j - 1);
    if i < j - 1 {
      OffMono(cs, i, j - 1);
    } 
    assert cs == cs[..j] + cs[j..];
    SizeConcat(cs[..j], cs[j..]);
  }

  /** A block is live exactly when it is a chunk in use. */
  lemma {:induction false} LiveIff(cs: seq<Chunk>, b: Block)
    ensures b in Live(cs) <==> exists i :: 0 <= i < |cs| && !cs[i].free && b == (Off(cs, i), cs[i].len)
  {
    if b in Live(cs) {
      var i := LiveIndex(cs, 0, b);
    }
    forall i | 0 <= i < |cs| && !cs[i].free ensures (Off(cs, i), cs[i].len) in Live(cs) {
      LiveChunk(cs, i);
    }
  }

  lemma {:induction false} LiveIndex(cs: seq<Chunk>, base: nat, b: Block) returns (i: nat)
    requires b in LiveFrom(cs, base)
    ensures i < |cs| && !cs[i].free && b == (base + Off(cs, i), cs[i].len)
  {
    if !cs[0].free && b == (base, cs[0].len) {
      i := 0;
    } else {
      var k := LiveIndex(cs[1..], base + cs[0].len, b);
      i := k + 1;
      assert cs[..i] == [cs[0]] + cs[1..][..k];
      SizeConcat([cs[0]], cs[1..][..k]);
    }
  }

  lemma {:induction false} LiveChunk(cs: seq<Chunk>, i: nat)
    requires i < |cs| && !cs[i].free
    ensures (Off(cs, i), cs[i].len) in Live(cs)
  {
    assert cs == cs[..i] + ([cs[i]] + cs[i + 1..]);
    LiveConcat(cs[..i], [cs[i]] + cs[i + 1..], 0);
  }

  /** Live blocks are pairwise disjoint. */
  lemma {:induction false} LiveDisjoint(cs: seq<Chunk>, a: Block, b: Block)
    requires a in Live(cs) && b in Live(cs) && a != b
    ensures a.0 + a.1 <= b.0 || b.0 + b.1 <= a.0
  {
    hide LiveFrom;
    var i := LiveIndex(cs, 0, a);
    var j := LiveIndex(cs, 0, b);
    if i < j {
      OffMono(cs, i, j);
    } else if j < i {
      OffMono(cs, j, i);
    }
  }

  /** At most one chunk starts at an offset. */
  lemma {:induction false} ChunkAt(cs: seq<Chunk>)
    requires forall i :: 0 <= i < |cs| ==> cs[i].len > 0
    ensures forall i, j :: 0 <= i < |cs| && 0 <= j < |cs| && Off(cs, i) == Off(cs, j) ==> i == j
  {
    forall i, j | 0 <= i < j < |cs| ensures Off(cs, i) != Off(cs, j) {
      OffMono(cs, i, j);
    }
  }

  // ---- the shape is determined by the live blocks -----------------------------------

  lemma {:induction false} Snoc(cs: seq<Chunk>)
    requires cs != []
    ensures
      var p, c := cs[..|cs| - 1], cs[|cs| - 1];
      && cs == p + [c] && Size(cs) == Size(p) + c.len
      && Live(cs) == Live(p) + if c.free then {} else {(Size(p), c.len)}
  {
    var p, c := cs[..|cs| - 1], cs[|cs| - 1];
    assert cs == p + [c];
    SizeConcat(p, [c]);
    LiveConcat(p, [c], 0);
  }

  /** The live block that reaches the end of the heap is its last chunk. */
  lemma {:induction false} LastLive(cs: seq<Chunk>, b: Block)
    requires Coalesced(cs) && b in Live(cs) && b.0 + b.1 == Size(cs)
    ensures cs != [] && !cs[|cs| - 1].free && b == (Size(cs[..|cs| - 1]), cs[|cs| - 1].len)
  {
    Snoc(cs);
    if b in Live(cs[..|cs| - 1]) {
      LiveBounds(cs[..|cs| - 1], 0, b);
    }
  }

  lemma {:induction false} SizePositive(cs: seq<Chunk>)
    requires Coalesced(cs) && cs != []
    ensures Size(cs) >= HEADER
  {
    OffMono(cs, 0, |cs|);
    assert cs[..|cs|] == cs;
  }

  /** Without a free chunk at the end, the heap ends where its last live block ends. */
  lemma {:induction false} SameEnd(a: seq<Chunk>, b: seq<Chunk>)
    requires Canonical(a) && Canonical(b) && Live(a) == Live(b)
    ensures Size(a) <= Size(b)
  {
    if a != [] {
      Snoc(a);
      LiveBounds(b, 0, (Size(a[..|a| - 1]), a[|a| - 1].len));
    }
  }

  lemma {:induction false} SameShape(a: seq<Chunk>, b: seq<Chunk>)
    requires Coalesced(a) && Coalesced(b) && Size(a) == Size(b) && Live(a) == Live(b)
    ensures a == b
    decreases |a|
  {
    if a == [] || b == [] {
      if b != [] { SizePositive(b); }
      if a != [] { SizePositive(a); }
    } else {
      var p, c, q, e := a[..|a| - 1], a[|a| - 1], b[..|b| - 1], b[|b| - 1];
      Snoc(a);
      Snoc(b);
      if !c.free {
        LastLive(b, (Size(p), c.len));
        LastDropped(a);
        LastDropped(b);
      } else {
        if !e.free {
          LastLive(a, (Size(q), e.len));
        }
        SameEnd(p, q);
        SameEnd(q, p);
      }
      SameShape(p, q);
    }
  }

  /** Dropping a last chunk in use removes just its block. */
  lemma {:induction false} LastDropped(cs: seq<Chunk>)
    requires Coalesced(cs) && cs != [] && !cs[|cs| - 1].free
    ensures
      var p, c := cs[..|cs| - 1], cs[|cs| - 1];
      Live(p) == Live(cs) - {(Size(p), c.len)}
  {
    var p, c := cs[..|cs| - 1], cs[|cs| - 1];
    Snoc(cs);
    if (Size(p), c.len) in Live(p) {
      LiveBounds(p, 0, (Size(p), c.len));
    }
  }

  /** The heap's shape is canonical: the live blocks alone determine the chunk sequence. */
  lemma {:induction false} CanonicalShape(a: seq<Chunk>, b: seq<Chunk>)
    requires Canonical(a) && Canonical(b) && Live(a) == Live(b)
    ensures a == b
  {
    SameEnd(a, b);
    SameEnd(b, a);
    SameShape(a, b);
  }

  // ---- allocation ---------------------------------------------------------------------

  /** The lowest free chunk of at least `n` bytes; `|cs|` when there is none. */
  function FirstFit(cs: seq<Chunk>, n: nat): (i: nat)
    ensures i <= |cs|
    ensures i < |cs| ==> cs[i].free && cs[i].len >= n
    ensures forall j :: 0 <= j < i ==> !(cs[j].free && cs[j].len >= n)
  {
    if cs == [] || (cs[0].free && cs[0].len >= n) then 0 else 1 + FirstFit(cs[1..], n)
  }

  /** The chunk that replaces the chosen one: split off when more than a header would be left over. */
  function Carve(c: Chunk, n: nat): seq<Chunk>
    requires n <= c.len
  {
    if c.len - n <= HEADER then [Chunk(c.len, false)] else [Chunk(n, false), Chunk(c.len - n, true)]
  }

  /** The heap after allocating `n` bytes, header included. */
  function Alloc(cs: seq<Chunk>, n: nat): seq<Chunk> {
    var i := FirstFit(cs, n);
    if i < |cs| then cs[..i] + Carve(cs[i], n) + cs[i + 1..] else cs + [Chunk(n, false)]
  }

  /** The block that allocating `n` bytes hands out. */
  function Allocated(cs: seq<Chunk>, n: nat): Block {
    var i := FirstFit(cs, n);
    if i < |cs| then (Off(cs, i), Carve(cs[i], n)[0].len) else (Size(cs), n)
  }

  /** Splitting a heap around chunk `i`. */
  lemma {:induction false} Around(cs: seq<Chunk>, i: nat)
    requires i < |cs|
    ensures cs == cs[..i] + [cs[i]] + cs[i + 1..]
    ensures Size(cs) == Off(cs, i) + cs[i].len + Size(cs[i + 1..])
    ensures Live(cs) == Live(cs[..i]) + LiveFrom([cs[i]], Off(cs, i)) + LiveFrom(cs[i + 1..], Off(cs, i) + cs[i].len)
    ensures LiveFrom([cs[i]], Off(cs, i)) == if cs[i].free then {} else {(Off(cs, i), cs[i].len)}
  {
    hide Size, LiveFrom;
    Cut(cs, i);
    Splice3(cs[..i], [cs[i]], cs[i + 1..]);
    Single(cs[i], Off(cs, i));
  }

  lemma {:induction false} Cut(cs: seq<Chunk>, i: nat)
    requires i < |cs|
    ensures cs == cs[..i] + [cs[i]] + cs[i + 1..]
  {
  }

  lemma {:induction false} Single(c: Chunk, base: nat)
    ensures Size([c]) == c.len && LiveFrom([c], base) == if c.free then {} else {(base, c.len)}
  {
    assert [c][1..] == [];
  }

  lemma {:induction false} Splice3(a: seq<Chunk>, m: seq<Chunk>, b: seq<Chunk>)
    ensures Size(a + m + b) == Size(a) + Size(m) + Size(b)
    ensures Live(a + m + b) == Live(a) + LiveFrom(m, Size(a)) + LiveFrom(b, Size(a) + Size(m))
  {
    SizeConcat(a + m, b);
    SizeConcat(a, m);
    LiveConcat(a + m, b, 0);
    LiveConcat(a, m, 0);
  }

  /** A chunk that starts or ends strictly inside is not among the chunks around it. */
  lemma {:induction false} Outside(a: seq<Chunk>, b: seq<Chunk>, lo: nat, hi: nat, k: Block)
    requires lo >= Size(a) && lo <= k.0 && k.0 + k.1 <= hi && k.1 > 0
    ensures k !in Live(a) && k !in LiveFrom(b, hi)
  {
    if k in Live(a) { LiveBounds(a, 0, k); }
    if k in LiveFrom(b, hi) { LiveBounds(b, hi, k); }
  }

  /** Allocation keeps the heap canonical, hands out a block of at least `n` bytes that was
      not live, and changes no other block. */
  lemma {:induction false} AllocLive(cs: seq<Chunk>, n: nat)
    requires Canonical(cs) && n >= HEADER
    ensures Canonical(Alloc(cs, n))
    ensures Allocated(cs, n) !in Live(cs) && Live(Alloc(cs, n)) == Live(cs) + {Allocated(cs, n)}
    ensures n <= Allocated(cs, n).1 <= n + HEADER
  {
    hide Size, LiveFrom, Coalesced;
    var i := FirstFit(cs, n);
    if i < |cs| {
      var a, b, m, o := cs[..i], cs[i + 1..], Carve(cs[i], n), Off(cs, i);
      Around(cs, i);
      Splice3(a, m, b);
      Outside(a, b, o, o + cs[i].len, Allocated(cs, n));
      CarveLive(cs[i], n, o);
      CarveCanonical(cs, i, n);
    } else {
      Extend(cs, n);
      Outside(cs, [], Size(cs), Size(cs) + n, Allocated(cs, n));
    }
  }

  lemma {:induction false} Extend(cs: seq<Chunk>, n: nat)
    requires Canonical(cs) && n >= HEADER
    ensures Canonical(cs + [Chunk(n, false)]) && Live(cs + [Chunk(n, false)]) == Live(cs) + {(Size(cs), n)}
  {
    LiveConcat(cs, [Chunk(n, false)], 0);
  }

  lemma {:induction false} CarveLive(c: Chunk, n: nat, o: nat)
    requires HEADER <= n <= c.len
    ensures Size(Carve(c, n)) == c.len && LiveFrom(Carve(c, n), o) == {(o, Carve(c, n)[0].len)}
  {
    var m := Carve(c, n);
    assert m == [m[0]] + m[1..];
    SizeConcat([m[0]], m[1..]);
    LiveConcat([m[0]], m[1..], o);
  }

  lemma {:induction false} CarveCanonical(cs: seq<Chunk>, i: nat, n: nat)
    requires Canonical(cs) && i < |cs| && cs[i].free && HEADER <= n <= cs[i].len
    ensures Canonical(cs[..i] + Carve(cs[i], n) + cs[i + 1..])
  {
    var r := cs[..i] + Carve(cs[i], n) + cs[i + 1..];
    var d := |r| - |cs|;
    assert i + 1 < |cs| && !cs[i + 1].free;
    assert forall j :: 0 <= j < i ==> r[j] == cs[j];
    assert forall j :: i + d < j < |r| ==> r[j] == cs[j - d];
  }

  // ---- freeing -------------------------------------------------------------------------

  /** The heap after freeing chunk `i`: it is joined with a free right and a free left
      neighbour, and dropped when it then is the last chunk. */
  function Free(cs: seq<Chunk>, i: nat): seq<Chunk>
    requires i < |cs|
  {
    var lo, hi := HoleStart(cs, i), HoleEnd(cs, i);
    cs[..lo] + (if hi == |cs| then [] else [Chunk(Size(cs[lo..hi]), true)]) + cs[hi..]
  }

  function HoleStart(cs: seq<Chunk>, i: nat): nat
    requires i < |cs|
  {
    if i > 0 && cs[i - 1].free then i - 1 else i
  }

  function HoleEnd(cs: seq<Chunk>, i: nat): nat
    requires i < |cs|
  {
    if i + 1 < |cs| && cs[i + 1].free then i + 2 else i + 1
  }

  /** Freeing keeps the heap canonical and takes away just the freed block. */
  lemma {:induction false} FreeLive(cs: seq<Chunk>, i: nat)
    requires Canonical(cs) && i < |cs| && !cs[i].free
    ensures Canonical(Free(cs, i))
    ensures Live(Free(cs, i)) == Live(cs) - {(Off(cs, i), cs[i].len)}
  {
    hide Size, LiveFrom;
    var lo, hi := HoleStart(cs, i), HoleEnd(cs, i);
    var a, m, b, k := cs[..lo], cs[lo..hi], cs[hi..], (Off(cs, i), cs[i].len);
    assert cs == a + m + b;
    Splice3(a, m, b);
    HoleLive(cs, i);
    Outside(a, b, Size(a), Size(a) + Size(m), k);
    FreeCanonical(cs, i);
    if hi == |cs| {
      assert Free(cs, i) == a && b == [];
      NoneLive(Size(a) + Size(m));
    } else {
      var hole := Chunk(Size(m), true);
      Splice3(a, [hole], b);
      Single(hole, Size(a));
    }
  }

  lemma {:induction false} NoneLive(base: nat)
    ensures LiveFrom([], base) == {}
  {
  }

  /** Chunks that join: a free one on the left or none, the freed one, and a free one on the
      right or none. */
  lemma {:induction false} HoleParts(cs: seq<Chunk>, i: nat)
    requires i < |cs|
    ensures
      var lo, hi := HoleStart(cs, i), HoleEnd(cs, i);
      && cs[lo..hi] == cs[lo..i] + [cs[i]] + cs[i + 1..hi] && cs[..i] == cs[..lo] + cs[lo..i]
      && (cs[lo..i] == [] || (cs[lo..i] == [cs[lo]] && cs[lo].free))
      && (cs[i + 1..hi] == [] || (cs[i + 1..hi] == [cs[i + 1]] && cs[i + 1].free))
  {
  }

  lemma {:induction false} HoleSize(cs: seq<Chunk>, i: nat)
    requires Canonical(cs) && i < |cs| && !cs[i].free
    ensures
      var lo, hi := HoleStart(cs, i), HoleEnd(cs, i);
      && Off(cs, i) == Size(cs[..lo]) + Size(cs[lo..i])
      && Size(cs[lo..hi]) == Size(cs[lo..i]) + cs[i].len + Size(cs[i + 1..hi])
  {
    hide Size, LiveFrom;
    var lo, hi := HoleStart(cs, i), HoleEnd(cs, i);
    HoleParts(cs, i);
    SizeConcat(cs[..lo], cs[lo..i]);
    SizeConcat(cs[lo..i] + [cs[i]], cs[i + 1..hi]);
    SizeConcat(cs[lo..i], [cs[i]]);
    Single(cs[i], 0);
  }

  /** Of the chunks that join, only the freed one was live. */
  lemma {:induction false} HoleLive(cs: seq<Chunk>, i: nat)
    requires Canonical(cs) && i < |cs| && !cs[i].free
    ensures
      var lo, hi := HoleStart(cs, i), HoleEnd(cs, i);
      && Size(cs[..lo]) <= Off(cs, i) && Off(cs, i) + cs[i].len <= Size(cs[..lo]) + Size(cs[lo..hi])
      && LiveFrom(cs[lo..hi], Size(cs[..lo])) == {(Off(cs, i), cs[i].len)}
      && Size(cs[lo..hi]) >= HEADER
  {
    hide Size, LiveFrom;
    var lo, hi := HoleStart(cs, i), HoleEnd(cs, i);
    var left, right, base := cs[lo..i], cs[i + 1..hi], Size(cs[..lo]);
    HoleParts(cs, i);
    HoleSize(cs, i);
    SizeConcat(left, [cs[i]]);
    LiveConcat(left + [cs[i]], right, base);
    LiveConcat(left, [cs[i]], base);
    Single(cs[i], base + Size(left));
    NoneLive(base);
    NoneLive(base + Size(left + [cs[i]]));
    Single(cs[lo], base);
    if right != [] { Single(cs[i + 1], base + Size(left + [cs[i]])); }
  }

  lemma {:induction false} FreeCanonical(cs: seq<Chunk>, i: nat)
    requires Canonical(cs) && i < |cs| && !cs[i].free
    ensures Canonical(Free(cs, i))
  {
    hide Size, LiveFrom;
    var lo, hi, r := HoleStart(cs, i), HoleEnd(cs, i), Free(cs, i);
    HoleLive(cs, i);
    assert forall j :: 0 <= j < lo ==> r[j] == cs[j];
    if hi < |cs| {
      assert r[lo] == Chunk(Size(cs[lo..hi]), true) && !cs[hi].free;
      assert forall j :: lo < j < |r| ==> r[j] == cs[j - lo - 1 + hi];
    } else {
      assert r == cs[..lo];
    }
  }

  // ---- runs ----------------------------------------------------------------------------

  /** The chunk of a live block. */
  function Find(cs: seq<Chunk>, b: Block): (i: nat)
    requires Coalesced(cs) && b in Live(cs)
    ensures i < |cs| && !cs[i].free && b == (Off(cs, i), cs[i].len)
  {
    LiveIff(cs, b);
    ChunkAt(cs);
    var i :| 0 <= i < |cs| && !cs[i].free && b == (Off(cs, i), cs[i].len);
    i
  }

  /** Freeing the block a request was just given undoes the request. */
  lemma {:induction false} AllocThenFree(cs: seq<Chunk>, n: nat)
    requires Canonical(cs) && n >= HEADER
    ensures Canonical(Alloc(cs, n)) && Allocated(cs, n) in Live(Alloc(cs, n))
    ensures Free(Alloc(cs, n), Find(Alloc(cs, n), Allocated(cs, n))) == cs
  {
    AllocLive(cs, n);
    var r, b := Alloc(cs, n), Allocated(cs, n);
    FreeLive(r, Find(r, b));
    CanonicalShape(Free(r, Find(r, b)), cs);
  }

  /** Freeing the blocks of a list one after the other. */
  function FreeAll(cs: seq<Chunk>, bs: seq<Block>): (r: seq<Chunk>)
    requires Canonical(cs) && NoDuplicates(bs) && forall b :: b in bs ==> b in Live(cs)
    ensures Canonical(r) && Live(r) == Live(cs) - Blocks(bs)
    decreases |bs|
  {
    if bs == [] then cs
    else
      var i := Find(cs, bs[0]);
      FreeLive(cs, i);
      FreeAll(Free(cs, i), bs[1..])
  }

  /** The first block of the list, then the rest. */
  lemma FreeNext(cs: seq<Chunk>, bs: seq<Block>)
    requires Canonical(cs) && bs != [] && NoDuplicates(bs) && forall b :: b in bs ==> b in Live(cs)
    ensures
      var r := Free(cs, Find(cs, bs[0]));
      && Canonical(r) && NoDuplicates(bs[1..]) && (forall b :: b in bs[1..] ==> b in Live(r))
      && FreeAll(r, bs[1..]) == FreeAll(cs, bs) && Live(r) <= Live(cs)
  {
    hide Coalesced, Live, Free;
    FreeLive(cs, Find(cs, bs[0]));
    assert forall b :: b in bs[1..] ==> b in bs && b != bs[0];
  }

  lemma FreeNone(cs: seq<Chunk>, bs: seq<Block>)
    requires Canonical(cs) && bs == []
    ensures FreeAll(cs, bs) == cs
  {
  }

  predicate NoDuplicates(bs: seq<Block>) {
    forall i, j :: 0 <= i < j < |bs| ==> bs[i] != bs[j]
  }

  function Blocks(bs: seq<Block>): set<Block> {
    set b | b in bs
  }

  /** The order in which blocks are freed does not matter, and freeing them all leaves
      the empty heap. */
  lemma {:induction false} FreeOrder(cs: seq<Chunk>, bs: seq<Block>, ds: seq<Block>)
    requires Canonical(cs) && NoDuplicates(bs) && NoDuplicates(ds)
    requires Blocks(bs) == Blocks(ds) && Blocks(bs) <= Live(cs)
    ensures (forall b :: b in bs ==> b in Blocks(bs)) && (forall b :: b in ds ==> b in Blocks(ds))
    ensures FreeAll(cs, bs) == FreeAll(cs, ds)
    ensures Blocks(bs) == Live(cs) ==> FreeAll(cs, bs) == []
  {
    assert (forall b :: b in bs ==> b in Blocks(bs)) && (forall b :: b in ds ==> b in Blocks(ds));
    CanonicalShape(FreeAll(cs, bs), FreeAll(cs, ds));
    if Blocks(bs) == Live(cs) {
      CanonicalShape(FreeAll(cs, bs), []);
    }
  }

  /** A call of the allocator: a request for `n` bytes, header included, or the release of a block. */
  datatype Call = Request(n: nat) | Release(b: Block)

  predicate Permitted(cs: seq<Chunk>, c: Call) {
    match c
    case Request(n) => n >= HEADER
    case Release(b) => b in Live(cs)
  }

  /** The heap after one call. */
  function Step(cs: seq<Chunk>, c: Call): (r: seq<Chunk>)
    requires Canonical(cs) && Permitted(cs, c)
    ensures Canonical(r)
    ensures Live(r) == match c case Request(n) => Live(cs) + {Allocated(cs, n)} case Release(b) => Live(cs) - {b}
  {
    match c
    case Request(n) => AllocLive(cs, n); Alloc(cs, n)
    case Release(b) => FreeLive(cs, Find(cs, b)); Free(cs, Find(cs, b))
  }

  /** `r` is reached from `cs` by the calls, each permitted when it is made. */
  predicate Reaches(cs: seq<Chunk>, calls: seq<Call>, r: seq<Chunk>)
    requires Canonical(cs)
    decreases |calls|
  {
    if calls == [] then r == cs
    else Permitted(cs, calls[0]) && Reaches(Step(cs, calls[0]), calls[1..], r)
  }

  /** Any two runs that end with the same live blocks end in the same heap. */
  lemma {:induction false} RunsAgree(calls: seq<Call>, a: seq<Chunk>, others: seq<Call>, b: seq<Chunk>)
    requires Reaches([], calls, a) && Reaches([], others, b) && Live(a) == Live(b)
    ensures Canonical(a) && a == b
  {
    ReachesCanonical([], calls, a);
    ReachesCanonical([], others, b);
    CanonicalShape(a, b);
  }

  /** Every reachable heap is canonical: tiled, coalesced, with a last chunk in use. */
  lemma {:induction false} ReachesCanonical(cs: seq<Chunk>, calls: seq<Call>, r: seq<Chunk>)
    requires Canonical(cs) && Reaches(cs, calls, r)
    ensures Canonical(r)
    decreases |calls|
  {
    if calls != [] {
      ReachesCanonical(Step(cs, calls[0]), calls[1..], r);
    }
  }
}

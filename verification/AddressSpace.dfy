/** Memory as seen through a page directory: what a virtual address reads, and what a
    write of a byte string at a virtual address changes. */
module AddressSpace {
  import opened Bytes
  import opened PageTables

  /** Virtual page `v` of `d` is backed by a frame of its own. */
  predicate Backed(mem: Mem, d: nat, v: nat) {
    d < |mem| && v < NPAGES && !Window(v) && Present(Walk(mem, d, v)) && Frame(Walk(mem, d, v)) < |mem|
  }

  predicate UserPage(mem: Mem, d: nat, v: nat) {
    d < |mem| && v < NPAGES && Present(Walk(mem, d, v)) && User(Walk(mem, d, v))
  }

  /** User mode may access address `a`. */
  predicate UserAt(mem: Mem, d: nat, a: nat) {
    UserPage(mem, d, a / PGSIZE)
  }

  /** Byte at virtual address `a`. */
  function ByteAt(mem: Mem, d: nat, a: nat): Byte
    requires Backed(mem, d, a / PGSIZE)
  {
    mem[Frame(Walk(mem, d, a / PGSIZE))][a % PGSIZE]
  }

  predicate BackedRange(mem: Mem, d: nat, va: nat, n: nat) {
    forall a :: va <= a < va + n ==> Backed(mem, d, a / PGSIZE)
  }

  /** User mode may access every address of the range. */
  ghost predicate UserRange(mem: Mem, d: nat, va: nat, n: nat) {
    forall a :: va <= a < va + n ==> UserPage(mem, d, a / PGSIZE) && Backed(mem, d, a / PGSIZE)
  }

  lemma UserRangeExtend(mem: Mem, d: nat, va: nat, n: nat, m: nat)
    requires UserRange(mem, d, va, n) && (va + n) % PGSIZE + m <= PGSIZE
    requires UserPage(mem, d, (va + n) / PGSIZE) && Backed(mem, d, (va + n) / PGSIZE)
    ensures UserRange(mem, d, va, n + m)
  {
    hide Walk;
    assert forall a :: va + n <= a < va + n + m ==> a / PGSIZE == (va + n) / PGSIZE;
  }

  /** The `n` bytes from virtual address `va` on. */
  function BytesAt(mem: Mem, d: nat, va: nat, n: nat): (s: seq<Byte>)
    requires BackedRange(mem, d, va, n)
    ensures |s| == n
    ensures forall i :: 0 <= i < n ==> s[i] == ByteAt(mem, d, va + i)
  {
    seq<Byte>(n, i requires 0 <= i < n => assert Backed(mem, d, (va + i) / PGSIZE); ByteAt(mem, d, va + i))
  }

  /** The whole physical effect of writing `src` at virtual address `va` of directory `d`:
      the bytes behind `[va, va + |src|)` are those of `src`, all others are as before. */
  ghost predicate FlatWrite(m0: Mem, m1: Mem, owner: seq<Owner>, d: nat, va: nat, src: seq<Byte>) {
    && |m0| == |m1| == |owner|
    && (forall f, o :: 0 <= f < |m0| && 0 <= o < PGSIZE ==>
          m1[f][o] ==
            if owner[f].Mapped? && owner[f].dir == d && va <= PGSIZE * owner[f].vpage + o < va + |src|
            then src[PGSIZE * owner[f].vpage + o - va] else m0[f][o])
  }

  lemma FlatNone(m: Mem, owner: seq<Owner>, d: nat, va: nat)
    requires |m| == |owner|
    ensures FlatWrite(m, m, owner, d, va, []) && UserRange(m, d, va, 0)
  {
  }

  /** A write through the page tables does not reach a page directory. */
  lemma FlatDir(m0: Mem, m1: Mem, owner: seq<Owner>, d: nat, va: nat, src: seq<Byte>, p: nat)
    requires FlatWrite(m0, m1, owner, d, va, src) && IsDir(owner, p)
    ensures p < |m0| == |m1| && m1[p] == m0[p]
  {
    assert forall o :: 0 <= o < PGSIZE ==> m1[p][o] == m0[p][o];
  }

  lemma FlatThen(m0: Mem, m1: Mem, m2: Mem, owner: seq<Owner>, d: nat, va: nat, s: seq<Byte>, t: seq<Byte>)
    requires FlatWrite(m0, m1, owner, d, va, s) && FlatWrite(m1, m2, owner, d, va + |s|, t)
    ensures FlatWrite(m0, m2, owner, d, va, s + t)
  {
  }

  /** Writing a frame the directory does not map as a directory or table. */
  lemma FillPlain(mem: Mem, owner: seq<Owner>, head: nat, free: seq<nat>, p: nat, pg: Page)
    requires Wf(mem, owner, head, free) && p < |mem| && Plain(owner[p]) && !owner[p].Free?
    ensures Wf(mem[p := pg], owner, head, free) && SameWalks(mem, owner, mem[p := pg], owner)
  {
    hide ChainOk, TablesOk, FramesOk, Walk, Entry;
    PlainWrite(mem, owner, p, pg, owner[p]);
    assert owner[p := owner[p]] == owner;
    ChainSame(mem, mem[p := pg], owner, head, free);
  }

  /** Overwriting part of one mapped frame. */
  lemma FlatPage(mem: Mem, owner: seq<Owner>, head: nat, free: seq<nat>, d: nat, v: nat, o: nat, s: seq<Byte>)
    requires Wf(mem, owner, head, free) && IsDir(owner, d) && v < NPAGES && !Window(v) && Present(Walk(mem, d, v))
    requires o + |s| <= PGSIZE && |mem| == |owner|
    ensures
      var f := Frame(Walk(mem, d, v));
      && f < |mem| && owner[f] == Mapped(d, v)
      && var m1 := mem[f := Splice(mem[f], o, s)];
      && FlatWrite(mem, m1, owner, d, PGSIZE * v + o, s) && Wf(m1, owner, head, free)
      && SameWalks(mem, owner, m1, owner)
  {
    hide Wf, Walk, SameWalks;
    FrameOf(mem, owner, head, free, d, v);
    var f := Frame(Walk(mem, d, v));
    FillPlain(mem, owner, head, free, f, Splice(mem[f], o, s));
    FrameUnique(mem, owner, head, free, d, v);
  }

  /** Only one page belongs to a mapping. */
  lemma FrameUnique(mem: Mem, owner: seq<Owner>, head: nat, free: seq<nat>, d: nat, v: nat)
    requires Wf(mem, owner, head, free) && IsDir(owner, d) && v < NPAGES
    ensures forall f :: 0 <= f < |owner| && owner[f] == Mapped(d, v) ==> f == Frame(Walk(mem, d, v))
    ensures forall f :: 0 <= f < |owner| && owner[f].Mapped? ==> owner[f].vpage < NPAGES
  {
  }

  /** Different pages of one or of two address spaces never share a frame. */
  lemma Isolation(mem: Mem, owner: seq<Owner>, head: nat, free: seq<nat>, d: nat, v: nat, d': nat, v': nat)
    requires Wf(mem, owner, head, free) && IsDir(owner, d) && IsDir(owner, d')
    requires Backed(mem, d, v) && Backed(mem, d', v') && (d != d' || v != v')
    ensures Frame(Walk(mem, d, v)) != Frame(Walk(mem, d', v'))
  {
    hide Wf, Walk;
    FrameOf(mem, owner, head, free, d, v);
    FrameOf(mem, owner, head, free, d', v');
  }

  /** Reading after a flat write, through the same or any other address space: the
      written range gives `src`, every other backed address what it gave before. */
  lemma ReadAfterWrite(m0: Mem, m1: Mem, owner: seq<Owner>, head: nat, free: seq<nat>, d: nat, va: nat, src: seq<Byte>,
                       d': nat, a: nat)
    requires Wf(m0, owner, head, free) && SameWalks(m0, owner, m1, owner)
    requires FlatWrite(m0, m1, owner, d, va, src) && IsDir(owner, d) && IsDir(owner, d') && Backed(m0, d', a / PGSIZE)
    ensures Backed(m1, d', a / PGSIZE)
    ensures ByteAt(m1, d', a) == if d' == d && va <= a < va + |src| then src[a - va] else ByteAt(m0, d', a)
  {
    hide Wf, Walk;
    FrameOf(m0, owner, head, free, d', a / PGSIZE);
  }

  /** What fork gives a child: every byte of the parent's present pages below the limit, in
      frames that no page of the parent shares. */
  lemma CopiedBytes(m0: Mem, o0: seq<Owner>, head0: nat, free0: seq<nat>, m1: Mem, o1: seq<Owner>, head: nat,
                    free: seq<nat>,
                    parent: nat, child: nat, data: nat, memBytes: nat, k: nat, a: nat, v: nat)
    requires KERNLINK <= data && memBytes <= HEAP_START - KERNBASE && k <= WINDOW_PAGE
    requires Wf(m0, o0, head0, free0) && Wf(m1, o1, head, free)
    requires Copied(m0, o0, m1, o1, parent, child, data, memBytes, k) && a / PGSIZE < k
    ensures Backed(m1, child, a / PGSIZE) <==> Backed(m0, parent, a / PGSIZE)
    ensures Backed(m0, parent, a / PGSIZE) ==>
              && ByteAt(m1, child, a) == ByteAt(m0, parent, a)
              && (Backed(m1, parent, v) ==> Frame(Walk(m1, child, a / PGSIZE)) != Frame(Walk(m1, parent, v)))
  {
    hide Wf, Walk, Untouched, KernelPte;
    var w := a / PGSIZE;
    CopiedDirs(m0, o0, m1, o1, parent, child, data, memBytes, k);
    if Present(Walk(m0, parent, w)) {
      assert CopyOf(m0, o0, Walk(m0, parent, w), m1, o1, Walk(m1, child, w), child, w);
      if Backed(m1, parent, v) {
        Isolation(m1, o1, head, free, child, w, parent, v);
      }
    }
  }

  /** Address `a` of the child is like that of the parent: backed or not, with the same byte and the
      same flags. */
  ghost predicate ForkedAt(m0: Mem, parent: nat, m1: Mem, child: nat, a: nat) {
    && (Backed(m1, child, a / PGSIZE) <==> Backed(m0, parent, a / PGSIZE))
    && (Backed(m0, parent, a / PGSIZE) ==>
          && ByteAt(m1, child, a) == ByteAt(m0, parent, a)
          && PteFlags(Walk(m1, child, a / PGSIZE)) == PteFlags(Walk(m0, parent, a / PGSIZE)))
  }

  /** A child of the first `sz` bytes of `parent`: those are like the parent's, and the pages behind
      them hold the kernel window alone. */
  ghost predicate Forked(m0: Mem, parent: nat, m1: Mem, child: nat, data: nat, memBytes: nat, sz: nat)
    requires KERNLINK <= data && memBytes <= HEAP_START - KERNBASE
  {
    && child < |m1|
    && (forall a :: 0 <= a < sz ==> ForkedAt(m0, parent, m1, child, a))
    && (forall v :: 0 <= v < NPAGES && sz <= PGSIZE * v ==> Walk(m1, child, v) == KernelPte(data, memBytes, v))
  }

  lemma CopiedForked(m0: Mem, o0: seq<Owner>, head: nat, free: seq<nat>, m1: Mem, o1: seq<Owner>, parent: nat,
                     child: nat, data: nat, memBytes: nat, k: nat, sz: nat)
    requires KERNLINK <= data && memBytes <= HEAP_START - KERNBASE && k <= WINDOW_PAGE
    requires Wf(m0, o0, head, free) && Copied(m0, o0, m1, o1, parent, child, data, memBytes, k)
    requires sz <= PGSIZE * k && (k > 0 ==> PGSIZE * (k - 1) < sz)
    ensures Forked(m0, parent, m1, child, data, memBytes, sz)
  {
    hide Wf, Walk, Untouched, KernelPte;
    forall a | 0 <= a < sz ensures ForkedAt(m0, parent, m1, child, a) {
      var v := a / PGSIZE;
      if Present(Walk(m0, parent, v)) {
        assert CopyOf(m0, o0, Walk(m0, parent, v), m1, o1, Walk(m1, child, v), child, v);
      }
    }
  }
}

/** The pages under the kernel heap of one task: growing and shrinking at the top
    (kern/heap.c alloc_chunk and free_chunk) over the page allocator. */
module HeapSpace {
  import opened Bytes
  import opened PageTables
  import opened AddressSpace
  import opened Mm

  const HEAP_END := 0xFFBF_F000
  const FIRST := HEAP_START / PGSIZE
  const LIMIT := HEAP_END / PGSIZE - FIRST     // pages the heap may have

  /** Page `v` is backed, writable and closed to user mode. */
  ghost predicate KernelPage(mem: Mem, d: nat, v: nat) {
    Backed(mem, d, v) && PteFlags(Walk(mem, d, v)) == PTE_P + PTE_W
  }

  /** Exactly the first `n` pages of the heap area are mapped, for the kernel alone. */
  ghost predicate HeapMapped(mem: Mem, d: nat, n: nat) {
    && d < |mem| && n <= LIMIT
    && (forall v :: FIRST <= v < FIRST + LIMIT ==>
          if v < FIRST + n then KernelPage(mem, d, v) else !Present(Walk(mem, d, v)))
  }

  /** The kernel can read and write address `a`, user mode cannot. */
  ghost predicate Closed(mem: Mem, d: nat, a: nat) {
    Backed(mem, d, a / PGSIZE) && Writable(Walk(mem, d, a / PGSIZE)) && !UserPage(mem, d, a / PGSIZE)
  }

  /** User mode sees nothing of the heap area, used or not. */
  lemma HeapClosed(mem: Mem, d: nat, n: nat)
    requires HeapMapped(mem, d, n)
    ensures forall a :: HEAP_START <= a < HEAP_START + PGSIZE * n ==> Closed(mem, d, a)
    ensures forall v :: FIRST <= v < FIRST + LIMIT ==> !UserPage(mem, d, v)
  {
    hide Walk;
    forall v | FIRST <= v < FIRST + n ensures Writable(Walk(mem, d, v)) && !UserPage(mem, d, v) {
      assert KernelPage(mem, d, v);
      FlagBits(Walk(mem, d, v), true, true, false);
    }
    forall a | HEAP_START <= a < HEAP_START + PGSIZE * n ensures Closed(mem, d, a) {
      assert FIRST <= a / PGSIZE < FIRST + n && KernelPage(mem, d, a / PGSIZE);
    }
  }

  /** The frames behind the heap, lowest page first. */
  ghost function Frames(mem: Mem, d: nat, n: nat): (fs: seq<nat>)
    requires HeapMapped(mem, d, n)
    ensures |fs| == n && forall i :: 0 <= i < n ==> fs[i] == Frame(Walk(mem, d, FIRST + i))
  {
    seq(n, i requires 0 <= i < n => Frame(Walk(mem, d, FIRST + i)))
  }

  lemma HeapRange(mem: Mem, d: nat, n: nat)
    requires HeapMapped(mem, d, n)
    ensures BackedRange(mem, d, HEAP_START, PGSIZE * n)
  {
    hide Walk;
    forall a | HEAP_START <= a < HEAP_START + PGSIZE * n ensures Backed(mem, d, a / PGSIZE) {
      assert FIRST <= a / PGSIZE < FIRST + n && KernelPage(mem, d, a / PGSIZE);
    }
  }

  /** The contents of the heap area. */
  ghost function Contents(mem: Mem, d: nat, n: nat): (s: seq<Byte>)
    requires HeapMapped(mem, d, n)
    ensures |s| == PGSIZE * n && BackedRange(mem, d, HEAP_START, PGSIZE * n)
    ensures forall i :: 0 <= i < PGSIZE * n ==> s[i] == ByteAt(mem, d, HEAP_START + i)
  {
    HeapRange(mem, d, n);
    BytesAt(mem, d, HEAP_START, PGSIZE * n)
  }

  /** A page that stays backed by an untouched frame keeps its bytes. */
  lemma SameBytes(m0: Mem, m1: Mem, d: nat, n: nat, k: nat)
    requires HeapMapped(m0, d, n) && HeapMapped(m1, d, k)
    requires forall v :: FIRST <= v < FIRST + n && v < FIRST + k ==>
               Walk(m1, d, v) == Walk(m0, d, v) && m1[Frame(Walk(m0, d, v))] == m0[Frame(Walk(m0, d, v))]
    ensures n <= k ==> Contents(m0, d, n) == Contents(m1, d, k)[..PGSIZE * n]
    ensures k <= n ==> Contents(m1, d, k) == Contents(m0, d, n)[..PGSIZE * k]
  {
    hide Walk;
    var c0, c1 := Contents(m0, d, n), Contents(m1, d, k);
    forall i | 0 <= i < |c0| && i < |c1| ensures c0[i] == c1[i] {
      var a := HEAP_START + i;
      assert FIRST <= a / PGSIZE < FIRST + n && a / PGSIZE < FIRST + k;
      assert KernelPage(m0, d, a / PGSIZE);
    }
  }

  lemma GrowMapped(m0: Mem, o0: seq<Owner>, head: nat, free: seq<nat>, m1: Mem, o1: seq<Owner>, d: nat, n: nat,
                   f: nat, perm: nat)
    requires Wf(m0, o0, head, free) && IsDir(o0, d) && HeapMapped(m0, d, n) && n < LIMIT
    requires Added(m0, o0, m1, o1, d, FIRST + n, f, perm) && perm == PTE_P + PTE_W
    ensures HeapMapped(m1, d, n + 1) && Frames(m1, d, n + 1) == Frames(m0, d, n) + [f]
    ensures Contents(m1, d, n + 1)[..PGSIZE * n] == Contents(m0, d, n)
  {
    hide Wf, Walk, MakePte;
    forall v | FIRST <= v < FIRST + n
      ensures Walk(m1, d, v) == Walk(m0, d, v) && m1[Frame(Walk(m0, d, v))] == m0[Frame(Walk(m0, d, v))]
    {
      assert KernelPage(m0, d, v);
      FrameOf(m0, o0, head, free, d, v);
    }
    assert HeapMapped(m1, d, n + 1);
    SameBytes(m0, m1, d, n, n + 1);
  }

  lemma ShrinkMapped(m0: Mem, o0: seq<Owner>, head: nat, free: seq<nat>, m1: Mem, o1: seq<Owner>, d: nat, n: nat,
                     f: nat)
    requires Wf(m0, o0, head, free) && IsDir(o0, d) && HeapMapped(m0, d, n) && n > 0
    requires Dropped(m0, o0, m1, o1, d, FIRST + n - 1, f)
    ensures HeapMapped(m1, d, n - 1) && Frames(m1, d, n - 1) == Frames(m0, d, n)[..n - 1]
    ensures Contents(m1, d, n - 1) == Contents(m0, d, n)[..PGSIZE * (n - 1)]
  {
    hide Wf, Walk;
    forall v | FIRST <= v < FIRST + n - 1
      ensures Walk(m1, d, v) == Walk(m0, d, v) && m1[Frame(Walk(m0, d, v))] == m0[Frame(Walk(m0, d, v))]
    {
      assert KernelPage(m0, d, v);
      FrameOf(m0, o0, head, free, d, v);
    }
    assert HeapMapped(m1, d, n - 1);
    SameBytes(m0, m1, d, n, n - 1);
  }

  /** A store inside the heap area. */
  lemma StoreMapped(m0: Mem, m1: Mem, owner: seq<Owner>, head: nat, free: seq<nat>, d: nat, n: nat, o: nat,
                    src: seq<Byte>)
    requires Wf(m0, owner, head, free) && IsDir(owner, d) && HeapMapped(m0, d, n)
    requires FlatWrite(m0, m1, owner, d, HEAP_START + o, src) && SameWalks(m0, owner, m1, owner)
    requires o + |src| <= PGSIZE * n
    ensures HeapMapped(m1, d, n) && Frames(m1, d, n) == Frames(m0, d, n)
    ensures Contents(m1, d, n) == Splice(Contents(m0, d, n), o, src)
  {
    hide Wf, Walk, FlatWrite;
    assert HeapMapped(m1, d, n);
    var c0, c1 := Contents(m0, d, n), Contents(m1, d, n);
    forall i | 0 <= i < PGSIZE * n ensures c1[i] == Splice(c0, o, src)[i] {
      var a := HEAP_START + i;
      assert KernelPage(m0, d, a / PGSIZE);
      ReadAfterWrite(m0, m1, owner, head, free, d, HEAP_START + o, src, d, a);
    }
  }

  /** Mapping the first of `k` pages leaves the tables of the others to be made. */
  lemma MissingRest(m0: Mem, m1: Mem, d: nat, first: nat, k: nat)
    requires d < |m0| && d < |m1| && k > 0 && first + k <= NPAGES && SlotsAfter(m0, m1, d, first, 1)
    ensures |MissingSlots(m0, d, first, k)| == |MissingSlots(m0, d, first, 1)| + |MissingSlots(m1, d, first + 1, k - 1)|
  {
    hide Entry;
    var a, b := MissingSlots(m0, d, first, 1), MissingSlots(m1, d, first + 1, k - 1);
    assert MissingSlots(m0, d, first, k) == a + b && a !! b;
  }

  function RoundUp(a: nat): (r: nat)
    ensures a <= r < a + PGSIZE && r % PGSIZE == 0
  {
    (a + PGSIZE - 1) / PGSIZE * PGSIZE
  }

  /** The heap area with contents `v0` on frames `fs0` has grown, on pages that were free. */
  ghost predicate Grown(v0: seq<Byte>, fs0: seq<nat>, free0: seq<nat>, v1: seq<Byte>, fs1: seq<nat>, free1: seq<nat>) {
    && |v0| <= |v1| && v1[..|v0|] == v0
    && |fs0| <= |fs1| && fs1[..|fs0|] == fs0 && (forall i :: |fs0| <= i < |fs1| ==> fs1[i] in free0)
    && |free1| <= |free0| && free1 == free0[|free0| - |free1|..]
  }

  /** The heap area has shrunk; its top frames lead the free list, highest page last. */
  ghost predicate Shrunk(v0: seq<Byte>, fs0: seq<nat>, free0: seq<nat>, v1: seq<Byte>, fs1: seq<nat>, free1: seq<nat>) {
    && |v1| <= |v0| && v1 == v0[..|v1|]
    && |fs1| <= |fs0| && fs1 == fs0[..|fs1|] && free1 == fs0[|fs1|..] + free0
  }

  lemma GrownNone(v0: seq<Byte>, fs0: seq<nat>, free0: seq<nat>)
    ensures Grown(v0, fs0, free0, v0, fs0, free0)
  {
  }

  lemma ShrunkNone(v0: seq<Byte>, fs0: seq<nat>, free0: seq<nat>)
    ensures Shrunk(v0, fs0, free0, v0, fs0, free0)
  {
  }

  lemma GrownStep(v0: seq<Byte>, fs0: seq<nat>, free0: seq<nat>, v1: seq<Byte>, fs1: seq<nat>, free1: seq<nat>,
                  v2: seq<Byte>, fs2: seq<nat>, free2: seq<nat>)
    requires Grown(v0, fs0, free0, v1, fs1, free1) && free1 != []
    requires |v1| <= |v2| && v2[..|v1|] == v1 && fs2 == fs1 + [free1[0]]
    requires |free2| <= |free1| && free2 == free1[|free1| - |free2|..]
    ensures Grown(v0, fs0, free0, v2, fs2, free2)
  {
    assert free1[0] == free0[|free0| - |free1|];
    assert v2[..|v0|] == v1[..|v0|];
    assert fs2[..|fs0|] == fs1[..|fs0|];
  }

  lemma ShrunkStep(v0: seq<Byte>, fs0: seq<nat>, free0: seq<nat>, v1: seq<Byte>, fs1: seq<nat>, free1: seq<nat>,
                   v2: seq<Byte>, fs2: seq<nat>, free2: seq<nat>)
    requires Shrunk(v0, fs0, free0, v1, fs1, free1) && fs1 != []
    requires |v2| <= |v1| && v2 == v1[..|v2|] && fs2 == fs1[..|fs1| - 1] && free2 == [fs1[|fs1| - 1]] + free1
    ensures Shrunk(v0, fs0, free0, v2, fs2, free2)
  {
    assert fs0[|fs2|..] == [fs1[|fs1| - 1]] + fs0[|fs1|..];
  }

  class Space {
    const mm: Mmu
    const pgdir: nat       // page directory of the task
    var top: nat           // heap_top
    ghost var view: seq<Byte>     // contents of [HEAP_START, top)
    ghost var frames: seq<nat>    // frames behind it, lowest page first

    ghost predicate Valid()
      reads this, mm
    {
      && mm.Valid() && mm.DirAt(pgdir)
      && HEAP_START <= top <= HEAP_END && top % PGSIZE == 0 && |view| == top - HEAP_START
      && HeapMapped(mm.mem, PageOf(pgdir), Pages())
      && view == Contents(mm.mem, PageOf(pgdir), Pages())
      && frames == Frames(mm.mem, PageOf(pgdir), Pages())
    }

    function Pages(): nat
      reads this
      requires top >= HEAP_START
    {
      (top - HEAP_START) / PGSIZE
    }

    lemma Bounds()
      requires Valid()
      ensures HEAP_START <= top == HEAP_START + |view| <= HEAP_END
    {
    }

    lemma FrameCount()
      requires Valid()
      ensures |frames| == (top - HEAP_START) / PGSIZE
    {
    }

    /** The heap is the kernel's: user mode can access none of its addresses. */
    lemma AllClosed()
      requires Valid()
      ensures forall a :: HEAP_START <= a < top ==> Closed(mm.mem, PageOf(pgdir), a)
      ensures forall a :: HEAP_START <= a < HEAP_END ==> !UserAt(mm.mem, PageOf(pgdir), a)
    {
      hide Walk, Wf, HeapMapped, Contents, Frames;
      HeapClosed(mm.mem, PageOf(pgdir), Pages());
      forall a | HEAP_START <= a < HEAP_END ensures !UserAt(mm.mem, PageOf(pgdir), a) {
        assert FIRST <= a / PGSIZE < FIRST + LIMIT;
      }
    }

    /** Free pages suffice for `k` more pages and the tables they need. */
    ghost predicate Room(k: nat)
      reads this, mm
    {
      && Valid() && Pages() + k <= LIMIT
      && k + |MissingSlots(mm.mem, PageOf(pgdir), FIRST + Pages(), k)| <= |mm.free|
    }

    /** A heap without pages. */
    constructor (mm: Mmu, pgdir: nat)
      requires mm.Valid() && mm.DirAt(pgdir) && HeapMapped(mm.mem, PageOf(pgdir), 0)
      ensures Valid() && this.mm == mm && this.pgdir == pgdir && top == HEAP_START && view == [] && frames == []
    {
      this.mm := mm;
      this.pgdir := pgdir;
      top := HEAP_START;
      view := Contents(mm.mem, PageOf(pgdir), 0);
      frames := Frames(mm.mem, PageOf(pgdir), 0);
    }

    /** One round of the loop of alloc_chunk. */
    method Grow()
      requires Room(1)
      modifies this, mm
      ensures Valid() && top == old(top) + PGSIZE
      ensures view[..|old(view)|] == old(view)
      ensures frames == old(frames) + [old(mm.free)[0]]
      ensures
        var missing := |MissingSlots(old(mm.mem), PageOf(pgdir), FIRST + old(Pages()), 1)|;
        && SlotsAfter(old(mm.mem), mm.mem, PageOf(pgdir), FIRST + old(Pages()), 1)
        && 1 + missing <= |old(mm.free)| && mm.free == old(mm.free)[1 + missing..]
    {
      hide Wf, Walk, Progress, MakePte, V2P, SameWalks, Added, RunHeld, HeapMapped, Contents, Frames, MissingSlots,
           SlotsAfter, Spent, Mmu.PageCount, RunMapped, Touches;
      ghost var d, n, m0, o0, f0, h0 := PageOf(pgdir), Pages(), mm.mem, mm.owner, mm.free, mm.freeList;
      TopPage(top);
      NextUnmapped(mm.mem, d, n);
      var page := mm.KallocPage();
      ghost var f := PageOf(page);
      KvaPage(f, 0);
      OneHeld(mm.owner, FIRST + n, f, PTE_P + PTE_W);
      ghost var f1 := mm.free;
      var r, k := mm.Mappages(pgdir, top, V2P(PteAddr(page)), PGSIZE, PTE_P + PTE_W);
      GrowDone(m0, o0, f0, h0, f1, mm.mem, mm.owner, mm.free, mm.freeList, d, n, k, f, r);
      top := top + PGSIZE;
      view := Contents(mm.mem, d, n + 1);
      frames := Frames(mm.mem, d, n + 1);
    }

    /** alloc_chunk: pages are added until `[start, start + len)` is mapped. */
    method AllocChunk(start: nat, len: nat)
      requires Valid() && start + len <= HEAP_END
      requires start + len > top ==> Room((RoundUp(start + len) - top) / PGSIZE)
      modifies this, mm
      ensures Valid() && top == if start + len > old(top) then RoundUp(start + len) else old(top)
      ensures Grown(old(view), old(frames), old(mm.free), view, frames, mm.free)
    {
      hide HeapMapped, Contents, Frames, MissingSlots, SlotsAfter, Wf, Grown;
      ghost var d, n, v0, fs0 := PageOf(pgdir), Pages(), view, frames;
      ghost var e := if start + len > top then n + (RoundUp(start + len) - top) / PGSIZE else n;
      GrownNone(v0, fs0, mm.free);
      while start + len > top
        invariant Valid() && n == Pages() <= e && top == HEAP_START + PGSIZE * n
        invariant start + len > old(top) ==> RoundUp(start + len) == HEAP_START + PGSIZE * e
        invariant start + len <= old(top) ==> top == old(top)
        invariant n < e ==> Room(e - n)
        invariant Grown(v0, fs0, old(mm.free), view, frames, mm.free)
        decreases e - n
      {
        ghost var m1, v1, fs1, f1 := mm.mem, view, frames, mm.free;
        MissingMono(m1, d, FIRST + n, e - n);
        Grow();
        GrownStep(v0, fs0, old(mm.free), v1, fs1, f1, view, frames, mm.free);
        MissingRest(m1, mm.mem, d, FIRST + n, e - n);
        n := n + 1;
      }
    }

    /** The loop of free_chunk: pages at or above `chunk` are given back. */
    method FreePages(chunk: nat)
      requires Valid() && HEAP_START <= chunk <= top
      modifies this, mm
      ensures Valid() && top == if RoundUp(chunk) < old(top) then RoundUp(chunk) else old(top)
      ensures Shrunk(old(view), old(frames), old(mm.free), view, frames, mm.free)
    {
      hide HeapMapped, Contents, Frames, Wf, Walk, Dropped, Shrunk;
      ghost var d, n, v0, fs0 := PageOf(pgdir), Pages(), view, frames;
      ShrunkNone(v0, fs0, mm.free);
      while chunk <= top - PGSIZE
        invariant Valid() && n == Pages() && top == HEAP_START + PGSIZE * n && chunk <= top <= old(top)
        invariant Shrunk(v0, fs0, old(mm.free), view, frames, mm.free)
        decreases n
      {
        ghost var m1, o1, v1, fs1, f1, h1 := mm.mem, mm.owner, view, frames, mm.free, mm.freeList;
        LastMapped(mm.mem, d, n);
        top := top - PGSIZE;
        var r := mm.UnmapPage(pgdir, top);
        ShrinkMapped(m1, o1, h1, f1, mm.mem, mm.owner, d, n, mm.free[0]);
        n := n - 1;
        view := Contents(mm.mem, d, n);
        frames := Frames(mm.mem, d, n);
        ShrunkStep(v0, fs0, old(mm.free), v1, fs1, f1, view, frames, mm.free);
      }
    }

    /** A word load by the processor. */
    method LoadWord(a: nat) returns (w: nat)
      requires Valid() && HEAP_START <= a && a + 4 <= HEAP_START + |view|
      ensures w == Word(view, a - HEAP_START)
    {
      hide Wf, Walk, HeapMapped, Frames;
      BackedHere(mm.mem, PageOf(pgdir), Pages(), a - HEAP_START);
      var d := PageOf(pgdir);
      var s := [ByteAt(mm.mem, d, a), ByteAt(mm.mem, d, a + 1), ByteAt(mm.mem, d, a + 2), ByteAt(mm.mem, d, a + 3)];
      w := Word(s, 0);
    }

    /** A word store by the processor. */
    method StoreWord(a: nat, w: nat)
      requires Valid() && HEAP_START <= a && a + 4 <= HEAP_START + |view| && w < WORD_LIMIT
      modifies mm`mem, this`view
      ensures Valid() && view == PutWord(old(view), a - HEAP_START, w)
    {
      hide Wf, Walk, HeapMapped, Contents, Frames, FlatWrite, SameWalks, WordBytes;
      BackedHere(mm.mem, PageOf(pgdir), Pages(), a - HEAP_START);
      ghost var m0 := mm.mem;
      mm.Store(pgdir, a, WordBytes(w));
      StoreMapped(m0, mm.mem, mm.owner, mm.freeList, mm.free, PageOf(pgdir), Pages(), a - HEAP_START, WordBytes(w));
      view := Contents(mm.mem, PageOf(pgdir), Pages());
    }

    /** A store of any length by the processor. */
    method StoreBytes(a: nat, src: seq<Byte>)
      requires Valid() && HEAP_START <= a && a + |src| <= HEAP_START + |view|
      modifies mm`mem, this`view
      ensures Valid() && view == Splice(old(view), a - HEAP_START, src)
    {
      hide Wf, Walk, HeapMapped, Contents, Frames, FlatWrite, SameWalks, BackedRange;
      BackedStretch(mm.mem, PageOf(pgdir), Pages(), a - HEAP_START, |src|);
      ghost var m0 := mm.mem;
      mm.Store(pgdir, a, src);
      StoreMapped(m0, mm.mem, mm.owner, mm.freeList, mm.free, PageOf(pgdir), Pages(), a - HEAP_START, src);
      view := Contents(mm.mem, PageOf(pgdir), Pages());
    }
  }

  lemma BackedStretch(mem: Mem, d: nat, n: nat, o: nat, len: nat)
    requires HeapMapped(mem, d, n) && o + len <= PGSIZE * n
    ensures BackedRange(mem, d, HEAP_START + o, len)
  {
    hide Walk, Backed;
    HeapRange(mem, d, n);
  }

  lemma BackedHere(mem: Mem, d: nat, n: nat, o: nat)
    requires HeapMapped(mem, d, n) && o + 4 <= PGSIZE * n
    ensures BackedRange(mem, d, HEAP_START + o, 4)
    ensures Backed(mem, d, (HEAP_START + o) / PGSIZE) && Backed(mem, d, (HEAP_START + o + 1) / PGSIZE)
    ensures Backed(mem, d, (HEAP_START + o + 2) / PGSIZE) && Backed(mem, d, (HEAP_START + o + 3) / PGSIZE)
  {
    hide Walk;
    HeapRange(mem, d, n);
  }

  lemma LastMapped(mem: Mem, d: nat, n: nat)
    requires HeapMapped(mem, d, n) && n > 0
    ensures Present(Walk(mem, d, FIRST + n - 1)) && Frames(mem, d, n)[n - 1] == Frame(Walk(mem, d, FIRST + n - 1))
  {
  }

  lemma MissingMono(mem: Mem, d: nat, first: nat, k: nat)
    requires d < |mem| && k > 0 && first + k <= NPAGES
    ensures |MissingSlots(mem, d, first, 1)| <= |MissingSlots(mem, d, first, k)|
  {
    hide Entry;
    var a, b := MissingSlots(mem, d, first, 1), MissingSlots(mem, d, first, k);
    assert b == a + (b - a);
  }

  lemma NextUnmapped(mem: Mem, d: nat, n: nat)
    requires HeapMapped(mem, d, n) && n < LIMIT
    ensures !Present(Walk(mem, d, FIRST + n))
  {
  }

  /** The page at heap_top. */
  lemma TopPage(top: nat)
    requires HEAP_START <= top && top % PGSIZE == 0 && (top - HEAP_START) / PGSIZE < LIMIT
    ensures
      var n := (top - HEAP_START) / PGSIZE;
      && top == HEAP_START + PGSIZE * n && top / PGSIZE == FIRST + n && Mmu.PageCount(top, PGSIZE) == 1
      && (top + PGSIZE - 1) / PGSIZE + 1 < NPAGES && (top + PGSIZE) % PGSIZE == 0 && top + PGSIZE <= HEAP_END
      && (top + PGSIZE - HEAP_START) / PGSIZE == n + 1
  {
  }

  /** mappages did map the one page it was given, and what that means for the heap. */
  lemma GrowDone(m0: Mem, o0: seq<Owner>, f0: seq<nat>, h0: nat, f1: seq<nat>, m1: Mem, o1: seq<Owner>, f2: seq<nat>,
                 h1: nat,
                 d: nat, n: nat, k: nat, f: nat, r: Outcome)
    requires Wf(m0, o0, h0, f0) && HeapMapped(m0, d, n) && n < LIMIT && IsDir(o0, d)
    requires f0 != [] && f == f0[0] && f1 == f0[1..] && f < |o0| == |m0| <= MAX_PAGES && o0[f].Free?
    requires SameWalks(m0, o0, m0, o0[f := Held])
    requires Progress(m0, o0[f := Held], f1, m1, o1, f2, d, FIRST + n, k, PGSIZE * f, PTE_P + PTE_W)
    requires Wf(m1, o1, h1, f2)
    requires k <= 1 && (r == Done <==> k == 1) && (r == Panic ==> Present(Walk(m0, d, FIRST + n)))
    requires r == NoMemory ==> f2 == [] && d < |m1| && !Present(Entry(m1[d], (FIRST + n) / 1024))
    requires 1 + |MissingSlots(m0, d, FIRST + n, 1)| <= |f0|
    ensures r == Done && HeapMapped(m1, d, n + 1) && Frames(m1, d, n + 1) == Frames(m0, d, n) + [f]
    ensures Contents(m1, d, n + 1)[..PGSIZE * n] == Contents(m0, d, n)
    ensures SlotsAfter(m0, m1, d, FIRST + n, 1) && f2 == f0[1 + |MissingSlots(m0, d, FIRST + n, 1)|..]
  {
    hide Wf, Walk, MapRange, Untouched, Frames, Contents;
    NextUnmapped(m0, d, n);
    if !Present(Entry(m0[d], (FIRST + n) / 1024)) {
      assert (FIRST + n) / 1024 in MissingSlots(m0, d, FIRST + n, 1);
    }
    assert MissingSlots(m0, d, FIRST + n, 0) == {};
    assert m0[f := m0[f]] == m0;
    AddedByRun(m0, o0, m0, f1, m1, o1, f2, h1, d, FIRST + n, f, m0[f], PTE_P + PTE_W);
    GrowMapped(m0, o0, h0, f0, m1, o1, d, n, f, PTE_P + PTE_W);
  }
}

/** The page allocator and address-space operations of kern/mm.c over physical memory. */
module Mm {
  import opened Bytes
  import opened PageTables
  import opened AddressSpace

  /** How an operation that may `panic` or run out of pages ended. */
  datatype Outcome = Done | NoMemory | Panic

  /** How a copy to user memory ended: in full, at a page user mode may not access, or at a
      page without a table, whose missing entry the code dereferences. */
  datatype CopyResult = CopyDone | NotUser | NullPte

  class Mmu {
    const memStart: nat          // mem_start
    const memBytes: nat          // memsz * 1024
    const data: nat              // start of the kernel's writable part, set by the linker
    var mem: Mem                 // physical memory, page by page
    var freeList: nat            // kernel address of the first free page, or 0
    ghost var free: seq<nat>     // the pages on the free list, first to last
    ghost var owner: seq<Owner>

    ghost predicate Valid()
      reads this
    {
      && memBytes <= HEAP_START - KERNBASE
      && |mem| == |owner| == memBytes / PGSIZE
      && Wf(mem, owner, freeList, free)
      && (forall p :: 0 <= p < |owner| && !owner[p].Reserved? ==> memStart <= Kva(p))
    }

    /** `pgdir` is the kernel address of a page directory. */
    ghost predicate DirAt(pgdir: nat)
      reads this
    {
      var d := PageOf(pgdir);
      d < MAX_PAGES && pgdir == Kva(d) && d < |mem| && IsDir(owner, d)
    }

    /** Physical memory as found at boot: nothing is free, pages from `memStart` on
        can be handed to the allocator. */
    constructor (memStart: nat, memBytes: nat, data: nat)
      requires memBytes <= HEAP_START - KERNBASE
      ensures Valid() && free == []
      ensures this.memStart == memStart && this.memBytes == memBytes && this.data == data
      ensures forall p :: 0 <= p < |owner| ==> owner[p] == if memStart <= Kva(p) then Held else Reserved
    {
      this.memStart := memStart;
      this.memBytes := memBytes;
      this.data := data;
      mem := seq(memBytes / PGSIZE, _ => ZeroPage());
      freeList := 0;
      free := [];
      owner := seq(memBytes / PGSIZE, p requires 0 <= p => if memStart <= Kva(p) then Held else Reserved);
    }

    predicate Loadable(a: nat)
      reads this
    {
      PageOf(a) < |mem| && V2P(a) % PGSIZE + 4 <= PGSIZE
    }

    function LoadWord(a: nat): nat
      requires Loadable(a)
      reads this
    {
      Word(mem[PageOf(a)], V2P(a) % PGSIZE)
    }

    // ---- the free list -------------------------------------------------------

    /** The addresses kfree_page accepts. */
    predicate Freeable(v: nat) {
      v % PGSIZE == 0 && memStart <= v <= V2P(memBytes)
    }

    /** `v` is the kernel address of a page taken off the free list and not given back. */
    ghost predicate HeldAt(v: nat)
      reads this
    {
      var p := PageOf(v);
      v == Kva(p) && p < |mem| && p < |owner| && owner[p].Held?
    }

    lemma FreeableKva(p: nat)
      requires Valid() && p < |mem| && !owner[p].Reserved?
      ensures p < MAX_PAGES && PageOf(Kva(p)) == p && V2P(PGSIZE * p) == Kva(p) && Freeable(Kva(p))
    {
      hide Wf;
      KvaPage(p, 0);
    }

    /** The test of kfree_page lets one page too many through: an accepted address is one of the
        memory exactly when a whole page fits behind it, and the address behind the last page is
        accepted as well. */
    lemma OnePageTooMany(v: nat)
      requires Valid() && KERNBASE <= memStart
      ensures Freeable(v) ==> (PageOf(v) < |mem| <==> v + PGSIZE <= KERNBASE + memBytes) && PageOf(v) <= |mem|
      ensures memStart <= Kva(|mem|) ==> Freeable(Kva(|mem|)) && PageOf(Kva(|mem|)) == |mem|
    {
      hide Wf;
    }

    method KfreePage(v: nat) returns (ok: bool)
      requires Valid()
      requires Freeable(v) ==> HeldAt(v)
      modifies this
      ensures Valid() && |mem| == old(|mem|)
      ensures ok == Freeable(v)
      ensures !ok ==> mem == old(mem) && owner == old(owner) && free == old(free)
      ensures ok ==> owner == old(owner)[PageOf(v) := Free] && free == [PageOf(v)] + old(free)
      ensures ok ==> forall q :: 0 <= q < |mem| && q != PageOf(v) ==> mem[q] == old(mem)[q]
      ensures ok ==> freeList == v && Word(mem[PageOf(v)], 0) == old(freeList)
      ensures ok ==> forall o :: 4 <= o < PGSIZE ==> mem[PageOf(v)][o] == 1
      ensures SameWalks(old(mem), old(owner), mem, owner)
    {
      hide Wf, Walk, Word;
      if v % PGSIZE != 0 || v < memStart || v > V2P(memBytes) {
        return false;
      }
      var fp := PageOf(v);
      var ones: Page := seq(4096, _ => 1);
      ChainHead(mem, owner, freeList, free);
      var linked: Page := PutWord(ones, 0, freeList);
      KeepWalks(mem, owner, freeList, free, fp, linked, Free);
      FreePush(mem, owner, freeList, free, fp, linked);
      mem := mem[fp := linked];
      freeList := v;
      free := [fp] + free;
      owner := owner[fp := Free];
      return true;
    }

    method KallocPage() returns (v: nat)
      requires Valid()
      modifies this
      ensures Valid() && mem == old(mem)
      ensures v == 0 <==> old(free) == []
      ensures v == 0 ==> owner == old(owner) && free == old(free)
      ensures v != 0 ==>
                && HeldAt(v) && PageOf(v) == old(free[0]) && old(owner)[PageOf(v)].Free?
                && free == old(free)[1..] && owner == old(owner)[PageOf(v) := Held]
                && freeList == Word(mem[PageOf(v)], 0)
      ensures SameWalks(old(mem), old(owner), mem, owner)
    {
      hide Wf, Walk, Word;
      ChainHead(mem, owner, freeList, free);
      v := freeList;
      if v != 0 {
        ghost var p := free[0];
        KvaPage(p, 0);
        KeepWalks(mem, owner, freeList, free, p, mem[p], Held);
        assert mem[p := mem[p]] == mem;
        FreePop(mem, owner, freeList, free);
        freeList := LoadWord(v);
        free := free[1..];
        owner := owner[p := Held];
      }
    }

    /** Puts every whole page between the two addresses on the free list. */
    method KfreeRange(start: nat, end: nat)
      requires Valid()
      requires KERNBASE <= start && memStart <= start && end <= KERNBASE + memBytes
      requires forall p :: 0 <= p < |mem| && start <= Kva(p) && Kva(p) + PGSIZE <= end ==> owner[p].Held?
      modifies this
      ensures Valid() && |mem| == old(|mem|)
      ensures forall p :: 0 <= p < |mem| ==>
                owner[p] == if start <= Kva(p) && Kva(p) + PGSIZE <= end then Free else old(owner)[p]
      ensures forall p :: 0 <= p < |mem| && !(start <= Kva(p) && Kva(p) + PGSIZE <= end) ==> mem[p] == old(mem)[p]
    {
      hide Wf, SameWalks;
      var p := (start + PGSIZE - 1) / PGSIZE * PGSIZE;
      ghost var lo := (p - KERNBASE) / PGSIZE;
      ghost var n := lo;
      while p + PGSIZE <= end
        invariant Valid() && |mem| == old(|mem|)
        invariant lo <= n && p == Kva(n)
        invariant n == lo || Kva(n) <= end
        invariant forall q :: 0 <= q < |mem| ==> owner[q] == if lo <= q < n then Free else old(owner)[q]
        invariant forall q :: 0 <= q < |mem| && !(lo <= q < n) ==> mem[q] == old(mem)[q]
      {
        KvaPage(n, 0);
        var ok := KfreePage(p);
        p := p + PGSIZE;
        n := n + 1;
      }
      assert forall q :: 0 <= q < |mem| ==> (lo <= q < n <==> start <= Kva(q) && Kva(q) + PGSIZE <= end);
    }

    // ---- page tables ---------------------------------------------------------

    /** The entry address that a present directory entry leads to. */
    lemma PteAddress(d: nat, v: nat, t: nat)
      requires Valid() && d < |mem| && v < NPAGES && IsDir(owner, d)
      requires Present(Entry(mem[d], v / 1024)) && t == Frame(Entry(mem[d], v / 1024))
      ensures
        var pte := Kva(t) + 4 * (v % 1024);
        t < |mem| && PteAt(mem, owner, d, v, pte) && Loadable(pte) && LoadWord(pte) == Walk(mem, d, v)
      ensures P2V(PteAddr(Entry(mem[d], v / 1024))) == Kva(t)
    {
      hide Wf, Word;
      TableOf(mem, owner, freeList, free, d, v / 1024);
      KvaPage(t, 4 * (v % 1024));
      KvaPage(t, 0);
      assert PteAddr(Entry(mem[d], v / 1024)) == PGSIZE * t;
    }

    /** The allocating half of pgdir_walk. */
    method AddTable(pgdir: nat, pdx: nat) returns (table: nat)
      requires Valid() && DirAt(pgdir) && pdx < 1024 && !Present(Entry(mem[PageOf(pgdir)], pdx))
      modifies this
      ensures Valid() && DirAt(pgdir) && |mem| == old(|mem|)
      ensures SameWalks(old(mem), old(owner), mem, owner)
      ensures Untouched(old(mem), old(owner), mem, owner, PageOf(pgdir), {})
      ensures table == 0 <==> old(free) == []
      ensures
        var d := PageOf(pgdir);
        if table == 0 then
          mem == old(mem) && owner == old(owner) && free == old(free)
        else
          && free == old(free)[1..] && old(free)[0] < |mem| && table == Kva(old(free)[0])
          && old(owner)[old(free)[0]].Free? && owner == old(owner)[old(free)[0] := Table(d, pdx)]
          && (forall j :: 0 <= j < 1024 ==>
                Entry(mem[d], j) == if j == pdx then MakePte(V2P(table), PTE_U + PTE_W) else old(Entry(mem[d], j)))
    {
      hide Wf, Walk, Word, Untouched, SameWalks;
      ghost var d, head := PageOf(pgdir), freeList;
      ChainHead(mem, owner, freeList, free);
      Unchanged(mem, owner, d);
      table := KallocPage();
      if table == 0 {
        return;
      }
      KvaPage(PageOf(table), 0);
      var e := MakePte(V2P(table), PTE_U + PTE_W);
      mem := mem[PageOf(table) := ZeroPage()];
      mem := mem[PageOf(pgdir) := SetEntry(mem[PageOf(pgdir)], pdx, e)];
      owner := owner[PageOf(table) := Table(d, pdx)];
      TakeTable(old(mem), old(owner), mem, owner, head, old(free), d, pdx, e);
    }

    /** Address of the page-table entry for `va`, allocating the table on demand;
        0 when there is none. */
    method PgdirWalk(pgdir: nat, va: nat, alloc: bool) returns (pte: nat)
      requires Valid() && DirAt(pgdir) && va < WORD_LIMIT
      modifies this
      ensures Valid() && DirAt(pgdir) && |mem| == old(|mem|)
      ensures pte == 0 <==> !old(Present(Entry(mem[PageOf(pgdir)], va / PGSIZE / 1024))) && (!alloc || old(free) == [])
      ensures if pte == 0 then
                mem == old(mem) && owner == old(owner) && free == old(free)
              else
                && PteAt(mem, owner, PageOf(pgdir), va / PGSIZE, pte)
                && Loadable(pte) && LoadWord(pte) == Walk(mem, PageOf(pgdir), va / PGSIZE)
                && Walked(old(mem), old(owner), old(free), mem, owner, free, PageOf(pgdir), va / PGSIZE)
    {
      hide Wf, Walk, Word, Untouched, SameWalks, PteAt, V2P, P2V, MakePte;
      ghost var d, v := PageOf(pgdir), va / PGSIZE;
      Unchanged(mem, owner, d);
      KvaPage(d, 4 * (v / 1024));
      var pdx, ptx := va / 0x40_0000, va / PGSIZE % 1024;
      var pde := LoadWord(pgdir + 4 * pdx);
      if Present(pde) {
        PteAddress(d, v, Frame(pde));
        return P2V(PteAddr(pde)) + 4 * ptx;
      }
      if !alloc {
        return 0;
      }
      var table := AddTable(pgdir, pdx);
      if table == 0 {
        return 0;
      }
      KvaPage(old(free)[0], 0);
      PteAddress(d, v, old(free)[0]);
      return table + 4 * ptx;
    }

    /** Stores `e` in the entry of the unmapped page `v` of directory `d`. */
    method SetPte(ghost d: nat, ghost v: nat, pte: nat, e: nat)
      requires Valid() && PteAt(mem, owner, d, v, pte) && e < WORD_LIMIT
      requires !Present(Walk(mem, d, v)) && Present(e)
      requires if Window(v) then !User(e) else Frame(e) < |mem| && owner[Frame(e)].Held?
      modifies this
      ensures Valid() && |mem| == old(|mem|) && free == old(free) && (IsDir(old(owner), d) ==> IsDir(owner, d))
      ensures Placed(old(mem), old(owner), mem, owner, d, v, e)
    {
      hide Wf, Walk, OneEntry, Word;
      ghost var t := Frame(Entry(mem[d], v / 1024));
      KvaPage(t, 4 * (v % 1024));
      MapEntry(mem, owner, freeList, free, d, v, t, e);
      mem := mem[PageOf(pte) := PutWord(mem[PageOf(pte)], V2P(pte) % PGSIZE, e)];
      owner := if Window(v) then owner else owner[Frame(e) := Mapped(d, v)];
    }

    /** Clears the entry of the mapped page `v` of directory `d`; its frame is held again. */
    method ClearPte(ghost d: nat, ghost v: nat, pte: nat)
      requires Valid() && PteAt(mem, owner, d, v, pte) && !Window(v) && Present(Walk(mem, d, v))
      modifies this
      ensures Valid() && |mem| == old(|mem|) && free == old(free) && mem[d] == old(mem)[d]
      ensures
        var f := Frame(old(Walk(mem, d, v)));
        f < |mem| && old(owner)[f] == Mapped(d, v) && owner == old(owner)[f := Held]
      ensures forall p :: 0 <= p < |mem| && !Belongs(old(owner), p, d) ==> mem[p] == old(mem)[p]
      ensures OneEntry(old(mem), mem, old(owner), d, v, 0)
    {
      hide Wf, Walk, OneEntry, Word;
      ghost var t := Frame(Entry(mem[d], v / 1024));
      KvaPage(t, 4 * (v % 1024));
      FrameOf(mem, owner, freeList, free, d, v);
      UnmapEntry(mem, owner, freeList, free, d, v, t);
      mem := mem[PageOf(pte) := PutWord(mem[PageOf(pte)], V2P(pte) % PGSIZE, 0)];
      owner := owner[Frame(old(Walk(mem, d, v))) := Held];
    }

    /** Number of pages that the loop of mappages visits. */
    static function PageCount(va: nat, sz: nat): nat
      requires va + sz > 0
    {
      if (va + sz - 1) / PGSIZE < va / PGSIZE then 0 else (va + sz - 1) / PGSIZE - va / PGSIZE + 1
    }

    static lemma CountTouches(va: nat, sz: nat)
      requires va + sz > 0
      ensures forall v :: Touches(v, va, sz) <==> va / PGSIZE <= v < va / PGSIZE + PageCount(va, sz)
    {
      TouchedRun(va, sz, PageCount(va, sz));
    }

    /** Facts about the next page of a run that is being mapped. */
    lemma MappagesStep(m0: Mem, o0: seq<Owner>, f0: seq<nat>, d: nat, first: nat, k: nat, n: nat, pa: nat, perm: nat)
      requires Valid() && Progress(m0, o0, f0, mem, owner, free, d, first, k, pa, perm)
      requires RunHeld(o0, first, pa, n, perm) && k < n
      ensures if Window(first + k) then !User(perm) else Frame(pa) + k < |owner| && owner[Frame(pa) + k].Held?
      ensures forall f :: f in RunFrames(first, pa, k) ==> 0 <= f < |o0| == |owner| && o0[f].Held? && owner[f].Mapped?
    {
      hide Wf, Walk;
      ProgressHeld(m0, o0, mem, owner, d, first, k, n, pa, perm);
      forall f | f in RunFrames(first, pa, k)
        ensures 0 <= f < |o0| == |owner| && o0[f].Held? && owner[f].Mapped?
      {
        assert f in RunFrames(first, pa, n);
        ProgressMapped(m0, o0, mem, owner, freeList, free, d, first, k, pa, perm, f);
      }
    }

    /** Maps the pages of `[va, va + sz)` to the physical run at `pa`; `k` pages were
        mapped when it returns. */
    method Mappages(pgdir: nat, va: nat, pa: nat, sz: nat, perm: nat) returns (r: Outcome, ghost k: nat)
      requires Valid() && DirAt(pgdir) && perm < PGSIZE
      requires 0 < va + sz && (va + sz - 1) / PGSIZE + 1 < NPAGES && va / PGSIZE < NPAGES
      requires pa + PGSIZE * PageCount(va, sz) <= WORD_LIMIT
      requires RunHeld(owner, va / PGSIZE, pa, PageCount(va, sz), perm)
      modifies this
      ensures Valid() && DirAt(pgdir) && |mem| == old(|mem|) && k <= PageCount(va, sz)
      ensures Progress(old(mem), old(owner), old(free), mem, owner, free, PageOf(pgdir), va / PGSIZE, k, pa, perm)
      ensures Spent(old(owner), owner, PageOf(pgdir), {})
      ensures
        var d, next := PageOf(pgdir), va / PGSIZE + k;
        match r
        case Done => k == PageCount(va, sz)
        case Panic => k < PageCount(va, sz) && Present(Walk(old(mem), d, next))
        case NoMemory => k < PageCount(va, sz) && free == [] && !Present(Entry(mem[d], next / 1024))
      ensures if r == Done then RunMapped(old(mem), mem, PageOf(pgdir), va, sz, pa, perm)
              else Touches(va / PGSIZE + k, va, sz)
    {
      hide Wf, Walk, Progress, Walked, Placed, PteAt, Word, MakePte, PageOf, RunFrames, RunHeld, Spent, RunMapped;
      ghost var d, first, n := PageOf(pgdir), va / PGSIZE, PageCount(va, sz);
      var a, end, target := va / PGSIZE * PGSIZE, (va + sz - 1) / PGSIZE * PGSIZE, pa;
      k := 0;
      ProgressNone(mem, owner, free, d, first, pa, perm);
      SpentNone(owner, d);
      while a <= end
        invariant Valid() && DirAt(pgdir) && |mem| == old(|mem|)
        invariant k <= n && a == PGSIZE * (first + k) && target == pa + PGSIZE * k
        invariant Progress(old(mem), old(owner), old(free), mem, owner, free, d, first, k, pa, perm)
        invariant Spent(old(owner), owner, d, {})
      {
        ghost var m1, o1, f1 := mem, owner, free;
        MappagesStep(old(mem), old(owner), old(free), d, first, k, n, pa, perm);
        var pte := PgdirWalk(pgdir, a, true);
        if pte == 0 {
          return NoMemory, k;
        }
        ghost var m2, o2, f2 := mem, owner, free;
        if Present(LoadWord(pte)) {
          ProgressRemap(old(mem), old(owner), old(free), m1, o1, f1, m2, o2, f2, d, first, k, pa, perm);
          return Panic, k;
        }
        WalkedOwner(m1, o1, f1, m2, o2, f2, d, first + k);
        SetPte(d, first + k, pte, MakePte(target, perm));
        ProgressStep(old(mem), old(owner), old(free), m1, o1, f1, m2, o2, f2, mem, owner, d, first, k, pa, perm);
        SpentStep(old(owner), m1, o1, f1, m2, o2, f2, mem, owner, d, first + k, MakePte(target, perm));
        a := a + PGSIZE;
        target := target + PGSIZE;
        k := k + 1;
      }
      CountTouches(va, sz);
      RunDone(old(mem), old(owner), old(free), mem, owner, free, d, va, sz, k, pa, perm);
      r := Done;
    }

    /** Unmaps the page at `va`, which is page-aligned, and frees its frame. */
    method UnmapPage(pgdir: nat, va: nat) returns (r: Outcome)
      requires Valid() && DirAt(pgdir) && va < WORD_LIMIT && va % PGSIZE == 0 && !Window(va / PGSIZE)
      modifies this
      ensures Valid() && DirAt(pgdir) && |mem| == old(|mem|)
      ensures r == if old(Present(Walk(mem, PageOf(pgdir), va / PGSIZE))) then Done else Panic
      ensures r == Panic ==> mem == old(mem) && owner == old(owner) && free == old(free)
      ensures r == Done ==>
                var d, v := PageOf(pgdir), va / PGSIZE;
                var f := Frame(old(Walk(mem, d, v)));
                && free == [f] + old(free)
                && Dropped(old(mem), old(owner), mem, owner, d, v, f)
    {
      hide Wf, Walk, Untouched, SameWalks, OneEntry, Walked, Belongs, V2P, Word, Freeable;
      ghost var d, v := PageOf(pgdir), va / PGSIZE;
      WalkedNothing(mem, owner, free, d, v);
      var pte := PgdirWalk(pgdir, va, false);
      if pte == 0 {
        return Panic;
      }
      var e := LoadWord(pte);
      if !Present(e) {
        return Panic;
      }
      var pa := V2P(PteAddr(e));
      FrameOf(mem, owner, freeList, free, d, v);
      ClearPte(d, v, pte);
      FreeableKva(Frame(e));
      ghost var m1, o1 := mem, owner;
      var ok := KfreePage(pa);
      DroppedFrame(old(mem), old(owner), m1, o1, mem, owner, d, v, Frame(e));
      return Done;
    }

    /** The linker symbol `data` lies on a page boundary between KERNLINK and the end of memory. */
    predicate KernelData() {
      data % PGSIZE == 0 && KERNLINK <= data <= KERNBASE + memBytes && memBytes <= HEAP_START - KERNBASE
    }

    /** One of the three mappages calls of mapkvm: `sz` bytes from page `n` of the window on. */
    method MapWindow(pgdir: nat, va: nat, pa: nat, sz: nat, perm: nat,
                     ghost m0: Mem, ghost o0: seq<Owner>, ghost n: nat) returns (ok: bool, ghost k: nat)
      requires Valid() && KernelData() && DirAt(pgdir) && perm < PGSIZE && !User(perm)
      requires va == KERNBASE + PGSIZE * n && pa == PGSIZE * n && n + PagesFor(sz) <= PagesFor(memBytes)
      requires forall i :: n <= i < n + PagesFor(sz) ==> KernelPerm(data, i) == perm
      requires KvmUpTo(m0, o0, mem, owner, PageOf(pgdir), data, memBytes, n)
      requires Spent(o0, owner, PageOf(pgdir), {PageOf(pgdir)})
      modifies this
      ensures Valid() && DirAt(pgdir) && |mem| == old(|mem|) && k <= PagesFor(sz)
      ensures KvmUpTo(m0, o0, mem, owner, PageOf(pgdir), data, memBytes, n + k)
      ensures Spent(o0, owner, PageOf(pgdir), {PageOf(pgdir)})
      ensures if ok then k == PagesFor(sz) else free == []
    {
      hide Wf, Walk, Progress, SameWalks, V2P, KernelPte, Untouched, RunFrames, Spent;
      ghost var d, first, m1, o1, f1 := PageOf(pgdir), WINDOW_PAGE + n, mem, owner, free;
      assert PageCount(va, sz) == PagesFor(sz) && va / PGSIZE == first;
      WindowRun(first, pa, PagesFor(sz));
      var r;
      r, k := Mappages(pgdir, va, pa, sz, perm);
      KvmStep(m0, o0, m1, o1, f1, mem, owner, free, d, data, memBytes, n, k, perm);
      WindowUntouched(m1, o1, f1, mem, owner, free, d, first, k, pa, perm);
      SpentThen(m1, o0, o1, mem, owner, d, {d});
      ok := r == Done;
    }

    /** A zeroed page directory, or 0. */
    method FreshDir() returns (pgdir: nat)
      requires Valid() && KernelData()
      modifies this
      ensures Valid() && |mem| == old(|mem|) && (pgdir == 0 <==> old(free) == [])
      ensures pgdir == 0 ==> mem == old(mem) && owner == old(owner) && free == old(free)
      ensures pgdir != 0 ==>
                && DirAt(pgdir) && old(owner)[PageOf(pgdir)].Free?
                && KvmUpTo(old(mem), old(owner), mem, owner, PageOf(pgdir), data, memBytes, 0)
                && Spent(old(owner), owner, PageOf(pgdir), {PageOf(pgdir)})
    {
      hide Wf, Walk, SameWalks, V2P, KernelPte, Untouched, Spent, KvmUpTo;
      ghost var m0, o0 := mem, owner;
      pgdir := KallocPage();
      if pgdir == 0 {
        return;
      }
      ghost var d := PageOf(pgdir);
      NewDir(mem, owner, freeList, free, d);
      mem := mem[PageOf(pgdir) := ZeroPage()];
      owner := owner[d := Dir];
      KvmNone(m0, o0, mem, owner, d, data, memBytes);
      SpentDir(o0, d);
    }

    /** A new address space holding just the kernel window; 0 when memory runs out. */
    method Mapkvm() returns (pgdir: nat)
      requires Valid() && KernelData()
      modifies this
      ensures Valid() && |mem| == old(|mem|)
      ensures SameWalks(old(mem), old(owner), mem, owner) && Untouched(old(mem), old(owner), mem, owner, -1, {})
      ensures pgdir == 0 ==>
                && free == []
                && forall p :: 0 <= p < |owner| && old(owner)[p].Free? ==>
                   owner[p].Free? || owner[p].Dir? || owner[p].Table?
      ensures pgdir != 0 ==> Spent(old(owner), owner, PageOf(pgdir), {PageOf(pgdir)})
      ensures pgdir != 0 ==>
                && DirAt(pgdir) && old(owner)[PageOf(pgdir)].Free?
                && KvmUpTo(old(mem), old(owner), mem, owner, PageOf(pgdir), data, memBytes, PagesFor(memBytes))
                && forall a :: 0 <= a < WORD_LIMIT ==> WindowAt(mem, PageOf(pgdir), data, memBytes, a)
    {
      hide Wf, Walk, SameWalks, V2P, KernelPte, Untouched, Spent, WindowAt;
      ghost var m0, o0, h0, f0 := mem, owner, freeList, free;
      Unchanged(mem, owner, -1);
      pgdir := FreshDir();
      if pgdir == 0 {
        return;
      }
      ghost var d := PageOf(pgdir);
      var ok, k := MapWindow(pgdir, KERNBASE, 0, EXTMEM, PTE_W, m0, o0, 0);
      if !ok {
        UntouchedAll(m0, o0, h0, f0, mem, owner, d);
        SpentKinds(o0, owner, d);
        return 0;
      }
      ok, k := MapWindow(pgdir, KERNLINK, EXTMEM, data - KERNLINK, 0, m0, o0, k);
      if !ok {
        UntouchedAll(m0, o0, h0, f0, mem, owner, d);
        SpentKinds(o0, owner, d);
        return 0;
      }
      ok, k := MapWindow(pgdir, data, data - KERNBASE, memBytes - (data - KERNBASE), PTE_W, m0, o0,
                         (data - KERNBASE) / PGSIZE);
      UntouchedAll(m0, o0, h0, f0, mem, owner, d);
      SpentKinds(o0, owner, d);
      if !ok {
        return 0;
      }
      LinearWindow(m0, o0, mem, owner, d, data, memBytes);
    }

    // ---- building and copying address spaces -------------------------------------

    /** Takes a free page and maps it through the entry at `pte`, found by the walk that
        started at the given state. */
    method MapFresh(ghost d: nat, ghost v: nat, pte: nat, perm: nat, ghost m0: Mem, ghost o0: seq<Owner>,
                    ghost f0: seq<nat>)
      returns (ok: bool, ghost f: nat)
      requires Valid() && PteAt(mem, owner, d, v, pte) && !Present(Walk(mem, d, v)) && !Window(v) && perm < PGSIZE
      requires Walked(m0, o0, f0, mem, owner, free, d, v)
      modifies this
      ensures Valid() && |mem| == old(|mem|) && ok == (old(free) != []) && (IsDir(old(owner), d) ==> IsDir(owner, d))
      ensures if ok then Added(m0, o0, mem, owner, d, v, f, perm)
              else mem == old(mem) && owner == old(owner) && free == old(free)
    {
      hide Wf, Walk, Walked, Placed, PteAt, Word, MakePte, V2P, SameWalks, Added, Entry;
      ghost var m1, o1, f1 := mem, owner, free;
      var p := KallocPage();
      if p == 0 {
        return false, 0;
      }
      f := PageOf(p);
      KvaPage(f, 0);
      PteKept(mem, o1, d, v, pte, f);
      SetPte(d, v, pte, MakePte(V2P(p), perm));
      AddedByPte(m0, o0, f0, m1, o1, f1, mem, owner, d, v, f, perm);
      ok := true;
    }

    /** Gives every page of `[va, va + len)` that has none a frame of its own. */
    method RegionAlloc(pgdir: nat, va: nat, len: nat, perm: nat) returns (r: Outcome, ghost k: nat)
      requires Valid() && DirAt(pgdir) && perm < PGSIZE && va + len <= KERNBASE
      modifies this
      ensures Valid() && DirAt(pgdir) && |mem| == old(|mem|)
      ensures k > 0 ==> Touches(va / PGSIZE + k - 1, va, len)
      ensures Filled(old(mem), old(owner), mem, owner, PageOf(pgdir), va / PGSIZE, k, perm)
      ensures if Touches(va / PGSIZE + k, va, len) then r == Panic && free == []
              else r == Done && RegionMapped(old(mem), old(owner), mem, PageOf(pgdir), va, len, perm)
    {
      hide Wf, Walk, Filled, Walked, Placed, PteAt, Word, MakePte, V2P, SameWalks, Added, Entry, RegionMapped;
      ghost var d, first := PageOf(pgdir), va / PGSIZE;
      var a, end := va / PGSIZE * PGSIZE, PagesFor(va + len) * PGSIZE;
      k := 0;
      FilledNone(mem, owner, d, first, perm);
      while a < end
        invariant Valid() && DirAt(pgdir) && |mem| == old(|mem|)
        invariant a == PGSIZE * (first + k) && (k == 0 || first + k <= PagesFor(va + len))
        invariant Filled(old(mem), old(owner), mem, owner, d, first, k, perm)
      {
        ghost var m1, o1, f1 := mem, owner, free;
        var pte := PgdirWalk(pgdir, a, true);
        if pte == 0 {
          return Panic, k;
        }
        WalkedSame(m1, o1, f1, mem, owner, free, d, first + k);
        if Present(LoadWord(pte)) {
          FilledKept(old(mem), old(owner), m1, o1, f1, mem, owner, free, d, first, k, perm);
        } else {
          ghost var m2, o2, f2 := mem, owner, free;
          var ok, f := MapFresh(d, first + k, pte, perm, m1, o1, f1);
          if !ok {
            FilledWalked(old(mem), old(owner), m1, o1, f1, m2, o2, f2, d, first, k, perm);
            return Panic, k;
          }
          FilledStep(old(mem), old(owner), m1, o1, mem, owner, d, first, k, f, perm);
        }
        a := a + PGSIZE;
        k := k + 1;
      }
      TouchedRun(va, len, k);
      RegionDone(old(mem), old(owner), mem, owner, d, va, len, k, perm);
      r := Done;
    }

    /** Takes a page, fills it with the contents of the frame of entry `e` and maps it at
        `va` with the flags of `e`. */
    method CopyInto(pgdir: nat, va: nat, e: nat) returns (r: Outcome, page: nat)
      requires Valid() && DirAt(pgdir) && va % PGSIZE == 0 && va / PGSIZE + 1 < NPAGES && !Window(va / PGSIZE)
      requires e < WORD_LIMIT && Present(e) && Frame(e) < |mem| && owner[Frame(e)].Mapped?
      modifies this
      ensures Valid() && DirAt(pgdir) && |mem| == old(|mem|)
      ensures
        var d, v := PageOf(pgdir), va / PGSIZE;
        match r
        case Done =>
          && page != 0 && Added(old(mem), old(owner), mem, owner, d, v, PageOf(page), PteFlags(e))
          && mem[PageOf(page)] == old(mem)[Frame(e)] && Spent(old(owner), owner, d, {PageOf(page)})
        case NoMemory =>
          && free == [] && SameWalks(old(mem), old(owner), mem, owner)
          && Untouched(old(mem), old(owner), mem, owner, d, {})
          && if page == 0 then mem == old(mem) && owner == old(owner)
             else
               && HeldAt(page) && Freeable(page) && old(owner)[PageOf(page)].Free?
               && mem[PageOf(page)] == old(mem)[Frame(e)] && Spent(old(owner), owner, d, {PageOf(page)})
        case Panic => Present(Walk(old(mem), d, v))
    {
      hide Wf, Walk, Progress, Word, MakePte, V2P, SameWalks, Added, RunHeld, Untouched, Spent;
      ghost var d, v, m0, o0 := PageOf(pgdir), va / PGSIZE, mem, owner;
      Unchanged(mem, owner, d);
      page := KallocPage();
      if page == 0 {
        return NoMemory, 0;
      }
      ghost var f := PageOf(page);
      KvaPage(f, 0);
      KvaPage(Frame(e), 0);
      KeepWalks(mem, owner, freeList, free, f, mem[Frame(e)], Held);
      FillHeld(mem, owner, freeList, free, f, mem[Frame(e)]);
      SameWalksTrans(m0, o0, mem, owner, mem[f := mem[Frame(e)]], owner[f := Held]);
      assert owner[f := Held] == owner;
      mem := mem[PageOf(page) := mem[PageOf(P2V(PteAddr(e)))]];
      ghost var m1, f1, pg := mem, free, mem[f];
      OneHeld(owner, v, f, PteFlags(e));
      ghost var k;
      r, k := Mappages(pgdir, va, V2P(page), PGSIZE, PteFlags(e));
      SpentHeld(o0, owner, d, f);
      if r == Done {
        AddedByRun(m0, o0, m1, f1, mem, owner, free, freeList, d, v, f, pg, PteFlags(e));
      } else {
        NotAdded(m0, o0, m1, f1, mem, owner, free, d, v, f, pg, PteFlags(e));
        FreeableKva(f);
      }
    }

    /** Copies the page at `addr` of the current address space into another. */
    method CopyPage(cur: nat, pgdir: nat, addr: nat) returns (r: Outcome)
      requires Valid() && DirAt(cur) && DirAt(pgdir) && cur != pgdir
      requires addr % PGSIZE == 0 && addr / PGSIZE + 1 < NPAGES && !Window(addr / PGSIZE)
      modifies this
      ensures Valid() && |mem| == old(|mem|)
      ensures
        var d, v := PageOf(pgdir), addr / PGSIZE;
        var e := old(Walk(mem, PageOf(cur), v));
        match r
        case Done =>
          && Present(e) && Frame(e) < |mem|
          && exists f: nat :: Added(old(mem), old(owner), mem, owner, d, v, f, PteFlags(e))
                              && mem[f] == old(mem)[Frame(e)]
        case NoMemory =>
          && |free| <= 1 && SameWalks(old(mem), old(owner), mem, owner)
          && Untouched(old(mem), old(owner), mem, owner, d, {})
        case Panic => !Present(e) || Present(Walk(old(mem), d, v))
    {
      hide Wf, Walk, Walked, Word, V2P, SameWalks, Added, Untouched, Freeable;
      ghost var d, v := PageOf(pgdir), addr / PGSIZE;
      WalkedNothing(mem, owner, free, PageOf(cur), v);
      var pte := PgdirWalk(cur, addr, false);
      if pte == 0 {
        return Panic;
      }
      var e := LoadWord(pte);
      if !Present(e) {
        return Panic;
      }
      FrameOf(mem, owner, freeList, free, PageOf(cur), v);
      var page;
      r, page := CopyInto(pgdir, addr, e);
      if r == NoMemory && page != 0 {
        ghost var m1, o1 := mem, owner;
        var ok := KfreePage(page);
        GivenBack(old(mem), old(owner), m1, o1, mem, owner, d, PageOf(page));
      }
    }

    /** Gives the directory and its tables back. The frames it mapped stay taken, since
        dealloc_uvm does nothing. */
    method FreeVm(pgdir: nat)
      requires Valid() && DirAt(pgdir)
      modifies this
      ensures Valid() && |mem| == old(|mem|)
      ensures owner == Freed(old(owner), PageOf(pgdir), 1024)[PageOf(pgdir) := Free]
      ensures free != [] && |free| <= old(|free|) + 1025
      ensures SameWalks(old(mem), Release(old(owner), PageOf(pgdir)), mem, owner)
      ensures forall p :: 0 <= p < |mem| && !Belongs(old(owner), p, PageOf(pgdir)) ==> mem[p] == old(mem)[p]
    {
      hide Wf, Walk, SameWalks, Word, V2P, Freeable;
      ghost var d, m0, o0, r0 := PageOf(pgdir), mem, owner, Release(owner, PageOf(pgdir));
      Released(mem, owner, freeList, free, d);
      Unchanged(mem, r0, d);
      owner := r0;
      var i := 0;
      while i < 1024
        invariant 0 <= i <= 1024 && Valid() && |mem| == |m0| && |free| <= old(|free|) + i
        invariant mem[d] == m0[d] && owner == Freed(o0, d, i)
        invariant SameWalks(m0, r0, mem, owner)
        invariant forall p :: 0 <= p < |mem| && !Belongs(o0, p, d) ==> mem[p] == m0[p]
      {
        KvaPage(d, 4 * i);
        var e := LoadWord(pgdir + 4 * i);
        FreedStep(o0, d, i, Frame(Entry(m0[d], i)));
        if Present(e) {
          TableOf(m0, o0, old(freeList), old(free), d, i);
          TableUnique(m0, o0, old(freeList), old(free), d, i);
          KvaPage(Frame(e), 0);
          FreeableKva(Frame(e));
          assert PteAddr(e) == PGSIZE * Frame(e);
          ghost var m1, o1 := mem, owner;
          var ok := KfreePage(P2V(PteAddr(e)));
          SameWalksTrans(m0, r0, m1, o1, mem, owner);
        } else {
          TableUnique(m0, o0, old(freeList), old(free), d, i);
        }
        i := i + 1;
      }
      FreeableKva(d);
      ghost var m1, o1 := mem, owner;
      var ok := KfreePage(pgdir);
      SameWalksTrans(m0, r0, m1, o1, mem, owner);
    }

    /** The way out of copy_uvm when memory runs out at page `k`: the child is torn down. What was in
        use is as before, and exactly the pages taken for copies are lost. */
    method GiveUp(child: nat, ghost page: nat, ghost p: nat, ghost k: nat, ghost m0: Mem, ghost o0: seq<Owner>,
                  ghost h0: nat, ghost f0: seq<nat>, ghost m1: Mem, ghost o1: seq<Owner>, ghost h1: nat,
                  ghost f1: seq<nat>) returns (ghost lost: map<nat, nat>)
      requires Valid() && KernelData() && DirAt(child) && k < WINDOW_PAGE && free == []
      requires Wf(m0, o0, h0, f0) && PageOf(child) < |o0| && o0[PageOf(child)].Free?
      requires Copied(m0, o0, m1, o1, p, PageOf(child), data, memBytes, k) && Accounted(o0, o1, PageOf(child))
      requires Wf(m1, o1, h1, f1) && |mem| == |m1|
      requires SameWalks(m0, o0, mem, owner) && Untouched(m0, o0, mem, owner, PageOf(child), {})
      requires Untouched(m1, o1, mem, owner, PageOf(child), {})
      requires page == 0 ==> owner == o1
      requires page != 0 ==>
                 && Spent(o1, owner, PageOf(child), {PageOf(page)}) && HeldAt(page)
                 && PageOf(page) < |o0| && o0[PageOf(page)].Free? && PageOf(page) < |o1| && o1[PageOf(page)].Free?
                 && CopyAt(m0, p, k, mem[PageOf(page)])
      modifies this
      ensures Valid() && |mem| == old(|mem|) && free != [] && |free| <= 1025
      ensures SameWalks(m0, o0, mem, owner) && Untouched(m0, o0, mem, owner, -1, {})
      ensures Leaked(m0, o0, mem, owner, p, k, lost)
    {
      hide Wf, Walk, Word, V2P, SameWalks, Untouched, Freeable, Spent, Accounted, CopyAt, Copied, Leaked;
      ghost var c, m2, o2, h2, f2 := PageOf(child), mem, owner, freeList, free;
      ghost var f := if page == 0 then -1 else PageOf(page);
      if page == 0 { SpentNone(o1, c); }
      SpentMore(o1, o2, c, f);
      FreeVm(child);
      TornDown(m0, o0, h0, f0, m2, o2, mem, owner, c);
      lost := LostPages(m0, o0, m1, o1, h1, f1, m2, o2, h2, f2, mem, owner, p, c, data, memBytes, k, f);
    }

    /** A copy of the first `sz` bytes of an address space, with the kernel window; `k` pages were done
        when it returns. Memory runs out while the window is built, or at page `k` of the parent. */
    method CopyUvm(pgdir: nat, sz: nat) returns (r: Outcome, child: nat, ghost k: nat, ghost lost: map<nat, nat>)
      requires Valid() && KernelData() && DirAt(pgdir) && sz <= KERNBASE
      modifies this
      ensures Valid() && |mem| == old(|mem|) && (k > 0 ==> PGSIZE * (k - 1) < sz)
      ensures forall v :: 0 <= v < k ==> Tabled(old(mem), PageOf(pgdir), v)
      ensures r == Done ==>
                && DirAt(pgdir) && DirAt(child) && sz <= PGSIZE * k
                && Copied(old(mem), old(owner), mem, owner, PageOf(pgdir), PageOf(child), data, memBytes, k)
                && Forked(old(mem), PageOf(pgdir), mem, PageOf(child), data, memBytes, sz)
      ensures r != Done ==>
                && child == 0 && SameWalks(old(mem), old(owner), mem, owner)
                && Untouched(old(mem), old(owner), mem, owner, -1, {})
      ensures r == NoMemory ==> |free| <= 1025
      ensures r == NoMemory && free != [] ==>
                && PGSIZE * k < sz && Present(Walk(old(mem), PageOf(pgdir), k))
                && Leaked(old(mem), old(owner), mem, owner, PageOf(pgdir), k, lost)
      ensures r == NoMemory && free == [] ==>
                && k == 0
                && forall q :: 0 <= q < |owner| && old(owner)[q].Free? ==>
                     owner[q].Free? || owner[q].Dir? || owner[q].Table?
      ensures r == Panic ==> PGSIZE * k < sz && !Tabled(old(mem), PageOf(pgdir), k)
    {
      hide Wf, Walk, Walked, Word, V2P, SameWalks, Added, Untouched, Freeable, KvmUpTo, Copied, KernelPte, Spent,
           Accounted, CopyAt, Leaked, Forked, WindowAt;
      ghost var p, m0, o0 := PageOf(pgdir), mem, owner;
      k, lost := 0, map[];
      child := Mapkvm();
      if child == 0 {
        return NoMemory, 0, 0, lost;
      }
      ghost var c := PageOf(child);
      CopiedNone(m0, o0, mem, owner, p, c, data, memBytes);
      AccountedNone(o0, owner, c);
      var i := 0;
      while i < sz
        invariant Valid() && |mem| == |m0| && DirAt(child) && i == PGSIZE * k && (k > 0 ==> PGSIZE * (k - 1) < sz)
        invariant Copied(m0, o0, mem, owner, p, c, data, memBytes, k) && Accounted(o0, owner, c)
        invariant forall v :: 0 <= v < k ==> Tabled(m0, p, v)
      {
        ghost var m1, o1, h1, f1 := mem, owner, freeList, free;
        CopiedParent(m0, o0, old(freeList), old(free), mem, owner, p, c, data, memBytes, k);
        WalkedNothing(mem, owner, free, p, k);
        var pte := PgdirWalk(pgdir, i, false);
        if pte == 0 {
          CopiedUntouched(m0, o0, old(freeList), old(free), mem, owner, p, c, data, memBytes, k);
          assert !Tabled(m0, p, k);
          return Panic, 0, k, lost;
        }
        var e := LoadWord(pte);
        if !Present(e) {
          CopiedHole(m0, o0, mem, owner, p, c, data, memBytes, k);
        } else {
          var page;
          r, page := CopyInto(child, i, e);
          CopyHere(m0, p, k, m1[Frame(e)]);
          if r == NoMemory {
            CopiedFailed(m0, o0, m1, o1, mem, owner, p, c, data, memBytes, k);
            CopiedFree(m0, o0, m1, o1, p, c, data, memBytes, k);
            lost := GiveUp(child, page, p, k, m0, o0, old(freeList), old(free), m1, o1, h1, f1);
            return NoMemory, 0, k, lost;
          }
          AccountedStep(o0, m1, o1, mem, owner, c, k, PageOf(page), PteFlags(e));
          CopiedStep(m0, o0, m1, o1, mem, owner, p, c, data, memBytes, k, PageOf(page));
        }
        i := i + PGSIZE;
        k := k + 1;
      }
      CopiedDirs(m0, o0, mem, owner, p, c, data, memBytes, k);
      CopiedForked(m0, o0, old(freeList), old(free), mem, owner, p, c, data, memBytes, k, sz);
      r := Done;
    }

    // ---- access through an address space --------------------------------------------

    /** Kernel address of the page behind `uva`, or 0 when user mode may not access it;
        `fault` when the code dereferences the missing entry. */
    method Uva2ka(pgdir: nat, uva: nat) returns (fault: bool, ka: nat)
      requires Valid() && DirAt(pgdir) && uva < WORD_LIMIT
      modifies this
      ensures Valid() && mem == old(mem) && owner == old(owner) && free == old(free)
      ensures fault == !Present(Entry(mem[PageOf(pgdir)], uva / PGSIZE / 1024)) && (fault ==> ka == 0)
      ensures ka != 0 <==> UserPage(mem, PageOf(pgdir), uva / PGSIZE)
      ensures ka != 0 ==>
                && Backed(mem, PageOf(pgdir), uva / PGSIZE)
                && ka == Kva(Frame(Walk(mem, PageOf(pgdir), uva / PGSIZE)))
                && PageOf(ka) == Frame(Walk(mem, PageOf(pgdir), uva / PGSIZE))
    {
      hide Wf, Walk, Walked, Word, V2P, Entry;
      ghost var d, v := PageOf(pgdir), uva / PGSIZE;
      WalkedNothing(mem, owner, free, d, v);
      var pte := PgdirWalk(pgdir, uva, false);
      if pte == 0 {
        return true, 0;
      }
      var e := LoadWord(pte);
      if !Present(e) || !User(e) {
        return false, 0;
      }
      FrameOf(mem, owner, freeList, free, d, v);
      KvaPage(Frame(e), 0);
      assert PteAddr(e) == PGSIZE * Frame(e);
      return false, P2V(PteAddr(e));
    }

    /** What copying the next `m` bytes to one page does. */
    lemma CopyoutStep(m0: Mem, d: nat, va: nat, p: seq<Byte>, n: nat, m: nat, off: nat)
      requires Valid() && IsDir(owner, d) && |mem| == |m0| && n + m <= |p| && off == (va + n) % PGSIZE
      requires off + m <= PGSIZE
      requires FlatWrite(m0, mem, owner, d, va, p[..n]) && SameWalks(m0, owner, mem, owner) && UserRange(m0, d, va, n)
      requires UserPage(mem, d, (va + n) / PGSIZE) && Backed(mem, d, (va + n) / PGSIZE)
      ensures
        var f := Frame(Walk(mem, d, (va + n) / PGSIZE));
        var m1 := mem[f := Splice(mem[f], off, p[n..][..m])];
        && Wf(m1, owner, freeList, free) && FlatWrite(m0, m1, owner, d, va, p[..n + m])
        && SameWalks(m0, owner, m1, owner)
        && UserRange(m0, d, va, n + m)
    {
      hide Wf, Walk, FlatWrite, SameWalks, UserRange, Splice;
      var v, s := (va + n) / PGSIZE, p[n..][..m];
      WalksEqual(m0, owner, mem, owner, d, v);
      FlatPage(mem, owner, freeList, free, d, v, off, s);
      var f := Frame(Walk(mem, d, v));
      var m1 := mem[f := Splice(mem[f], off, s)];
      FlatThen(m0, mem, m1, owner, d, va, p[..n], s);
      SameWalksTrans(m0, owner, mem, owner, m1, owner);
      assert p[..n] + s == p[..n + m];
      UserRangeExtend(m0, d, va, n, m);
    }

    /** Copies `p` to user address `va`; `n` bytes were written when it returns. */
    method Copyout(pgdir: nat, va: nat, p: seq<Byte>) returns (r: CopyResult, ghost n: nat)
      requires Valid() && DirAt(pgdir) && va + |p| <= WORD_LIMIT
      modifies this
      ensures Valid() && DirAt(pgdir) && owner == old(owner) && free == old(free) && n <= |p|
      ensures FlatWrite(old(mem), mem, owner, PageOf(pgdir), va, p[..n])
      ensures SameWalks(old(mem), owner, mem, owner)
      ensures UserRange(old(mem), PageOf(pgdir), va, n)
      ensures r == CopyDone ==> FlatWrite(old(mem), mem, owner, PageOf(pgdir), va, p)
      ensures if r == CopyDone then n == |p| else
                && n < |p| && (n == 0 || (va + n) % PGSIZE == 0)
                && !UserPage(old(mem), PageOf(pgdir), (va + n) / PGSIZE)
                && (r == NullPte <==> !Present(Entry(mem[PageOf(pgdir)], (va + n) / PGSIZE / 1024)))
    {
      hide Wf, Walk, PageOf, FlatWrite, SameWalks, Entry, Splice, UserRange;
      ghost var d, m0 := PageOf(pgdir), mem;
      var buf, cur := p, va;
      n := 0;
      FlatNone(mem, owner, d, va);
      Unchanged(mem, owner, d);
      while |buf| > 0
        invariant Valid() && DirAt(pgdir) && owner == old(owner) && free == old(free) && |mem| == |m0|
        invariant n <= |p| && buf == p[n..] && cur == va + n && (n == 0 || n == |p| || cur % PGSIZE == 0)
        invariant FlatWrite(m0, mem, owner, d, va, p[..n]) && SameWalks(m0, owner, mem, owner)
        invariant UserRange(m0, d, va, n)
        decreases |buf|
      {
        var base := cur / PGSIZE * PGSIZE;
        ghost var v, m1 := cur / PGSIZE, mem;
        WalksEqual(m0, owner, mem, owner, d, v);
        var fault, pa0 := Uva2ka(pgdir, base);
        if fault {
          return NullPte, n;
        }
        if pa0 == 0 {
          return NotUser, n;
        }
        var off := cur - base;
        var m := PGSIZE - off;
        if m > |buf| {
          m := |buf|;
        }
        CopyoutStep(m0, d, va, p, n, m, off);
        mem := mem[PageOf(pa0) := Splice(mem[PageOf(pa0)], off, buf[..m])];
        buf, cur := buf[m..], cur + m;
        n := n + m;
      }
      assert p[..n] == p;
      r := CopyDone;
    }

    /** A store by the processor through the page tables, page crossings included. */
    method Store(pgdir: nat, va: nat, src: seq<Byte>)
      requires Valid() && DirAt(pgdir) && BackedRange(mem, PageOf(pgdir), va, |src|)
      modifies this`mem
      ensures Valid() && |mem| == old(|mem|)
      ensures FlatWrite(old(mem), mem, owner, PageOf(pgdir), va, src)
      ensures SameWalks(old(mem), owner, mem, owner)
    {
      hide Wf, Walk, PageOf, FlatWrite, SameWalks;
      ghost var d, m0 := PageOf(pgdir), mem;
      FlatNone(mem, owner, d, va);
      Unchanged(mem, owner, d);
      var i := 0;
      while i < |src|
        invariant 0 <= i <= |src| && Valid() && |mem| == |m0|
        invariant FlatWrite(m0, mem, owner, d, va, src[..i]) && SameWalks(m0, owner, mem, owner)
      {
        var v, o := (va + i) / PGSIZE, (va + i) % PGSIZE;
        assert Backed(m0, d, v);
        ghost var m1 := mem;
        WalksEqual(m0, owner, mem, owner, d, v);
        FlatPage(mem, owner, freeList, free, d, v, o, [src[i]]);
        var f := Frame(Walk(mem, PageOf(pgdir), v));
        mem := mem[f := Splice(mem[f], o, [src[i]])];
        FlatThen(m0, m1, mem, owner, d, va, src[..i], [src[i]]);
        SameWalksTrans(m0, owner, m1, owner, mem, owner);
        assert src[..i] + [src[i]] == src[..i + 1];
        i := i + 1;
      }
      assert src[..i] == src;
    }
  }
}

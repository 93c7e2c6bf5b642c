/** 32-bit two-level page tables laid over physical memory (inc/mmu.h, kern/mm.c):
    the translation they define, who owns each physical page, and what each kind
    of write to physical memory does to both. */
module PageTables {
  import opened Bytes

  const PGSIZE := 4096
  const KERNBASE := 0x8000_0000
  const HEAP_START := 0xD000_0000
  const NPAGES := 0x10_0000       // virtual pages in 2^32 bytes

  type Page = s: seq<Byte> | |s| == 4096 witness seq(4096, _ => 0)
  type Mem = seq<Page>

  // ---- addresses ------------------------------------------------------------

  function V2P(a: nat): (r: nat)
    ensures r < WORD_LIMIT
  {
    (a - KERNBASE) % WORD_LIMIT
  }

  function P2V(a: nat): (r: nat)
    ensures r < WORD_LIMIT
  {
    (a + KERNBASE) % WORD_LIMIT
  }

  /** Kernel virtual address of physical page `p`, through the linear window. */
  function Kva(p: nat): nat {
    KERNBASE + PGSIZE * p
  }

  function PageOf(a: nat): nat {
    V2P(a) / PGSIZE
  }

  /** Largest number of physical pages whose window stays below the heap. */
  const MAX_PAGES := (HEAP_START - KERNBASE) / PGSIZE

  /** Virtual pages of the kernel's linear window. */
  predicate Window(v: int) {
    KERNBASE / PGSIZE <= v < HEAP_START / PGSIZE
  }

  lemma KvaPage(p: nat, o: nat)
    requires p < MAX_PAGES && o < PGSIZE
    ensures V2P(Kva(p) + o) == PGSIZE * p + o
    ensures PageOf(Kva(p) + o) == p && V2P(Kva(p) + o) % PGSIZE == o
    ensures P2V(PGSIZE * p) == Kva(p) == V2P(PGSIZE * p)
  {
  }

  // ---- entries --------------------------------------------------------------

  const PTE_P := 1
  const PTE_W := 2
  const PTE_U := 4

  predicate Present(e: nat) { e % 2 == 1 }

  predicate Writable(e: nat) { e / 2 % 2 == 1 }

  predicate User(e: nat) { e / 4 % 2 == 1 }

  function PteAddr(e: nat): nat { e - e % PGSIZE }

  function PteFlags(e: nat): nat { e % PGSIZE }

  function Frame(e: nat): nat { e / PGSIZE }

  /** The present entry for the page at physical address `a` with the given permission bits. */
  function MakePte(a: nat, perm: nat): (e: nat)
    requires a < WORD_LIMIT && perm < PGSIZE
    ensures e < WORD_LIMIT && Present(e)
    ensures PteAddr(e) == PteAddr(a) && Frame(e) == Frame(a)
    ensures User(e) == User(perm) && Writable(e) == Writable(perm)
    ensures PteFlags(e) == if Present(perm) then perm else perm + 1
  {
    var f := if Present(perm) then perm else perm + 1;
    EntryBits(a / PGSIZE, f);
    SameQuarter(perm);
    PGSIZE * (a / PGSIZE) + f
  }

  lemma SameQuarter(perm: nat)
    ensures !Present(perm) ==> User(perm + 1) == User(perm) && Writable(perm + 1) == Writable(perm)
    ensures !Present(perm) && perm < PGSIZE ==> perm + 1 < PGSIZE
  {
    if !Present(perm) { assert (perm + 1) / 2 == perm / 2; }
  }

  /** The address and the low bits of an entry do not interfere. */
  lemma EntryBits(q: nat, f: nat)
    requires f < PGSIZE
    ensures (PGSIZE * q + f) / PGSIZE == q && (PGSIZE * q + f) % PGSIZE == f
    ensures (PGSIZE * q + f) % 2 == f % 2 && (PGSIZE * q + f) / 4 % 2 == f / 4 % 2
    ensures (PGSIZE * q + f) / 2 % 2 == f / 2 % 2
  {
    Parity(2048 * q, f);
    Half(1024 * q, f);
    Quarter(512 * q, f);
  }

  /** The three permission bits of an entry are those of its flags, and independent. */
  lemma FlagBits(e: nat, p: bool, w: bool, u: bool)
    requires PteFlags(e) == (if p then PTE_P else 0) + (if w then PTE_W else 0) + (if u then PTE_U else 0)
    ensures Present(e) == p && Writable(e) == w && User(e) == u
  {
    EntryBits(e / PGSIZE, PteFlags(e));
    assert e == PGSIZE * (e / PGSIZE) + PteFlags(e);
  }

  lemma Half(q: nat, f: nat)
    ensures (4 * q + f) / 2 % 2 == f / 2 % 2
  {
    assert (4 * q + f) / 2 == 2 * q + f / 2;
    Parity(q, f / 2);
  }

  lemma Parity(q: nat, f: nat)
    ensures (2 * q + f) % 2 == f % 2
  {
  }

  lemma Quarter(q: nat, f: nat)
    ensures (8 * q + f) / 4 % 2 == f / 4 % 2
  {
    assert (8 * q + f) / 4 == 2 * q + f / 4;
    Parity(q, f / 4);
  }

  function Entry(p: Page, i: nat): (e: nat)
    requires i < 1024
    ensures e < WORD_LIMIT
  {
    Word(p, 4 * i)
  }

  function SetEntry(p: Page, i: nat, e: nat): (r: Page)
    requires i < 1024 && e < WORD_LIMIT
    ensures forall j :: 0 <= j < 1024 ==> Entry(r, j) == if j == i then e else Entry(p, j)
  {
    PutWord(p, 4 * i, e)
  }

  function ZeroPage(): (r: Page)
    ensures forall j :: 0 <= j < 1024 ==> Entry(r, j) == 0
  {
    seq(4096, _ => 0)
  }

  /** The page-table entry that directory page `d` gives virtual page `v`;
      0 when the table is missing. */
  function Walk(mem: Mem, d: nat, v: nat): (e: nat)
    requires d < |mem| && v < NPAGES
    ensures e < WORD_LIMIT
  {
    var pde := Entry(mem[d], v / 1024);
    if Present(pde) && Frame(pde) < |mem| then Entry(mem[Frame(pde)], v % 1024) else 0
  }

  /** The two levels, by the bits of an address: ten for the slot of the directory, ten for the
      entry of the table it names, twelve for the byte in the page. */
  lemma TwoLevels(mem: Mem, d: nat, pdx: nat, ptx: nat, off: nat)
    requires d < |mem| && pdx < 1024 && ptx < 1024 && off < PGSIZE
    ensures
      var a, pde := 0x40_0000 * pdx + 0x1000 * ptx + off, Entry(mem[d], pdx);
      && a / PGSIZE < NPAGES && a % PGSIZE == off
      && Walk(mem, d, a / PGSIZE) == if Present(pde) && Frame(pde) < |mem| then Entry(mem[Frame(pde)], ptx) else 0
  {
    hide Entry;
    var a := 0x40_0000 * pdx + 0x1000 * ptx + off;
    assert a == PGSIZE * (1024 * pdx + ptx) + off;
    assert a / PGSIZE == 1024 * pdx + ptx;
    assert (1024 * pdx + ptx) / 1024 == pdx && (1024 * pdx + ptx) % 1024 == ptx;
  }

  // ---- ownership ------------------------------------------------------------

  /** What a physical page is used for. `Held` pages were taken from the free list
      and are only known to their holder. */
  datatype Owner =
    | Reserved
    | Free
    | Held
    | Dir
    | Table(dir: nat, slot: nat)
    | Mapped(dir: nat, vpage: nat)

  /** The link that the `i`-th free page holds. */
  ghost function LinkAt(free: seq<nat>, i: nat): nat {
    if i + 1 < |free| then Kva(free[i + 1]) else 0
  }

  /** The links stored in the free pages run through `free` from `head` on. */
  ghost predicate ChainOk(mem: Mem, head: nat, free: seq<nat>) {
    && (forall i :: 0 <= i < |free| ==> free[i] < |mem|)
    && head == (if free == [] then 0 else Kva(free[0]))
    && (forall i {:trigger LinkAt(free, i)} :: 0 <= i < |free| ==> Word(mem[free[i]], 0) == LinkAt(free, i))
  }

  ghost predicate FreeOk(owner: seq<Owner>, free: seq<nat>) {
    && (forall i :: 0 <= i < |free| ==> free[i] < |owner| && owner[free[i]].Free?)
    && (forall i, j :: 0 <= i < j < |free| ==> free[i] != free[j])
    && (forall p :: 0 <= p < |owner| && owner[p].Free? ==> p in free)
  }

  ghost predicate IsDir(owner: seq<Owner>, d: int) {
    0 <= d < |owner| && owner[d].Dir?
  }

  /** Present directory entries and `Table` pages correspond one to one; the entries forbid
      nothing, so that the tables alone decide what may be written or seen by user mode. */
  ghost predicate TablesOk(mem: Mem, owner: seq<Owner>)
    requires |owner| == |mem|
  {
    && (forall d, i :: IsDir(owner, d) && 0 <= i < 1024 && Present(Entry(mem[d], i)) ==>
          && Frame(Entry(mem[d], i)) < |mem| && owner[Frame(Entry(mem[d], i))] == Table(d, i)
          && PteFlags(Entry(mem[d], i)) == PTE_P + PTE_W + PTE_U)
    && (forall t :: 0 <= t < |mem| && owner[t].Table? ==>
          && IsDir(owner, owner[t].dir) && owner[t].slot < 1024
          && Present(Entry(mem[owner[t].dir], owner[t].slot))
          && Frame(Entry(mem[owner[t].dir], owner[t].slot)) == t)
  }

  /** Present entries outside the kernel window and `Mapped` pages correspond one to
      one; the window is closed to user mode. */
  ghost predicate FramesOk(mem: Mem, owner: seq<Owner>)
    requires |owner| == |mem|
  {
    && (forall d, v :: IsDir(owner, d) && 0 <= v < NPAGES && Present(Walk(mem, d, v)) ==>
          if Window(v) then !User(Walk(mem, d, v))
          else Frame(Walk(mem, d, v)) < |mem| && owner[Frame(Walk(mem, d, v))] == Mapped(d, v))
    && (forall f :: 0 <= f < |mem| && owner[f].Mapped? ==>
          && IsDir(owner, owner[f].dir) && owner[f].vpage < NPAGES && !Window(owner[f].vpage)
          && Present(Walk(mem, owner[f].dir, owner[f].vpage))
          && Frame(Walk(mem, owner[f].dir, owner[f].vpage)) == f)
  }

  ghost predicate Wf(mem: Mem, owner: seq<Owner>, head: nat, free: seq<nat>) {
    && |owner| == |mem| <= MAX_PAGES
    && ChainOk(mem, head, free)
    && FreeOk(owner, free)
    && TablesOk(mem, owner)
    && FramesOk(mem, owner)
  }

  // ---- what writes do -------------------------------------------------------

  /** Page `p` is directory `d` or one of its tables. */
  ghost predicate Belongs(owner: seq<Owner>, p: int, d: int) {
    0 <= p < |owner| && (p == d || (owner[p].Table? && owner[p].dir == d))
  }

  lemma WalkSame(m0: Mem, m1: Mem, owner: seq<Owner>, d: nat, v: nat)
    requires |m0| == |m1| == |owner| && TablesOk(m0, owner)
    requires IsDir(owner, d) && v < NPAGES
    requires forall p :: 0 <= p < |m0| && Belongs(owner, p, d) ==> m1[p] == m0[p]
    ensures Walk(m1, d, v) == Walk(m0, d, v)
  {
    assert Belongs(owner, d, d);
    var pde := Entry(m0[d], v / 1024);
    if Present(pde) {
      assert Belongs(owner, Frame(pde), d);
    }
  }

  /** Pages that are neither directory nor table. */
  ghost predicate Plain(o: Owner) {
    !o.Dir? && !o.Table?
  }

  ghost predicate Unlinked(o: Owner) {
    o.Reserved? || o.Free? || o.Held?
  }

  /** Writing page `p`, which is not a directory or table, and moving it between
      unlinked states, keeps every translation and the table and frame ownership. */
  lemma PlainWrite(m0: Mem, o0: seq<Owner>, p: nat, pg: Page, o: Owner)
    requires |m0| == |o0| && p < |m0|
    requires TablesOk(m0, o0) && FramesOk(m0, o0)
    requires Plain(o0[p])
    requires o == o0[p] || (Unlinked(o) && Unlinked(o0[p]))
    ensures TablesOk(m0[p := pg], o0[p := o]) && FramesOk(m0[p := pg], o0[p := o])
    ensures forall d, v :: IsDir(o0, d) && 0 <= v < NPAGES ==> Walk(m0[p := pg], d, v) == Walk(m0, d, v)
    ensures forall d :: IsDir(o0[p := o], d) <==> IsDir(o0, d)
  {
    hide FramesOk, Walk, Entry;
    var m1, o1 := m0[p := pg], o0[p := o];
    forall d, v | IsDir(o0, d) && 0 <= v < NPAGES
      ensures Walk(m1, d, v) == Walk(m0, d, v)
    {
      WalkSame(m0, m1, o0, d, v);
    }
    assert forall d :: IsDir(o1, d) <==> IsDir(o0, d);
    assert forall d :: IsDir(o0, d) ==> m1[d] == m0[d];
    PlainFrames(m0, o0, m1, p, o);
  }

  lemma PlainFrames(m0: Mem, o0: seq<Owner>, m1: Mem, p: nat, o: Owner)
    requires |m0| == |o0| == |m1| && p < |m0| && FramesOk(m0, o0) && Plain(o0[p])
    requires o == o0[p] || (Unlinked(o) && Unlinked(o0[p]))
    requires forall d, v :: IsDir(o0, d) && 0 <= v < NPAGES ==> Walk(m1, d, v) == Walk(m0, d, v)
    requires forall d :: IsDir(o0[p := o], d) <==> IsDir(o0, d)
    ensures FramesOk(m1, o0[p := o])
  {
    hide Walk, Entry;
  }

  lemma ChainCons(mem: Mem, head: nat, free: seq<nat>, p: nat, pg: Page)
    requires ChainOk(mem, head, free) && p < |mem| && p !in free && Word(pg, 0) == head
    ensures ChainOk(mem[p := pg], Kva(p), [p] + free)
  {
    var m1, f1 := mem[p := pg], [p] + free;
    assert Word(m1[f1[0]], 0) == LinkAt(f1, 0);
    forall i | 0 < i < |f1|
      ensures f1[i] < |mem| && Word(m1[f1[i]], 0) == LinkAt(f1, i)
    {
      assert f1[i] == free[i - 1] && LinkAt(f1, i) == LinkAt(free, i - 1);
    }
  }

  lemma FreeCons(owner: seq<Owner>, free: seq<nat>, p: nat)
    requires FreeOk(owner, free) && p < |owner| && !owner[p].Free?
    ensures p !in free && FreeOk(owner[p := Free], [p] + free)
  {
    assert forall q :: q in [p] + free <==> q == p || q in free;
  }

  /** Linking the held page `p` in front of the free list. */
  lemma FreePush(mem: Mem, owner: seq<Owner>, head: nat, free: seq<nat>, p: nat, pg: Page)
    requires Wf(mem, owner, head, free)
    requires p < |mem| && owner[p].Held? && Word(pg, 0) == head
    ensures Wf(mem[p := pg], owner[p := Free], Kva(p), [p] + free)
  {
    hide ChainOk, FreeOk, TablesOk, FramesOk, Walk, Word;
    PlainWrite(mem, owner, p, pg, Free);
    FreeCons(owner, free, p);
    ChainCons(mem, head, free, p, pg);
  }

  lemma ChainTail(mem: Mem, head: nat, free: seq<nat>)
    requires |mem| <= MAX_PAGES && ChainOk(mem, head, free) && free != []
    ensures ChainOk(mem, Word(mem[free[0]], 0), free[1..])
  {
    var f1 := free[1..];
    assert Word(mem[free[0]], 0) == LinkAt(free, 0);
    forall i | 0 <= i < |f1|
      ensures f1[i] < |mem| && Word(mem[f1[i]], 0) == LinkAt(f1, i)
    {
      assert f1[i] == free[i + 1] && LinkAt(f1, i) == LinkAt(free, i + 1);
    }
  }

  lemma FreeTail(owner: seq<Owner>, free: seq<nat>)
    requires FreeOk(owner, free) && free != []
    ensures FreeOk(owner[free[0] := Held], free[1..])
  {
    assert forall q :: q in free <==> q == free[0] || q in free[1..];
  }

  /** Taking the first page off the free list. */
  lemma FreePop(mem: Mem, owner: seq<Owner>, head: nat, free: seq<nat>)
    requires Wf(mem, owner, head, free) && free != []
    ensures Wf(mem, owner[free[0] := Held], Word(mem[free[0]], 0), free[1..])
  {
    hide ChainOk, TablesOk, FramesOk, Walk, Word;
    ChainTail(mem, head, free);
    FreeTail(owner, free);
    PlainWrite(mem, owner, free[0], mem[free[0]], Held);
    assert mem[free[0] := mem[free[0]]] == mem;
  }

  /** Installing the zeroed held page `t` as the missing table of slot `i` of `d`
      changes no translation. */
  lemma InstallTable(m0: Mem, o0: seq<Owner>, d: nat, i: nat, t: nat, e: nat)
    requires |m0| == |o0| && d < |m0| && t < |m0| && i < 1024 && e < WORD_LIMIT
    requires TablesOk(m0, o0) && FramesOk(m0, o0)
    requires o0[d].Dir? && o0[t].Held? && !Present(Entry(m0[d], i))
    requires Frame(e) == t && PteFlags(e) == PTE_P + PTE_W + PTE_U
    ensures
      var m1, o1 := m0[t := ZeroPage()][d := SetEntry(m0[d], i, e)], o0[t := Table(d, i)];
      && TablesOk(m1, o1) && FramesOk(m1, o1)
      && (forall d', v :: IsDir(o0, d') && 0 <= v < NPAGES ==> Walk(m1, d', v) == Walk(m0, d', v))
      && (forall d' :: IsDir(o1, d') <==> IsDir(o0, d'))
  {
    var m1, o1 := m0[t := ZeroPage()][d := SetEntry(m0[d], i, e)], o0[t := Table(d, i)];
    FlagBits(e, true, true, true);
    assert forall d' :: IsDir(o1, d') <==> IsDir(o0, d');
    forall d', v | IsDir(o0, d') && 0 <= v < NPAGES
      ensures Walk(m1, d', v) == Walk(m0, d', v)
    {
      if d' != d {
        assert m1[d'] == m0[d'];
        WalkSame(m0, m1, o0, d', v);
      } else if v / 1024 != i {
        var pde := Entry(m0[d], v / 1024);
        assert Entry(m1[d], v / 1024) == pde;
      }
    }
    forall d', k | IsDir(o0, d') && 0 <= k < 1024
      ensures Entry(m1[d'], k) == if d' == d && k == i then e else Entry(m0[d'], k)
    {
    }
  }

  /** Writing entry `j` of the table of slot `i` of `d` changes one translation. */
  lemma WriteEntry(m0: Mem, o0: seq<Owner>, d: nat, i: nat, j: nat, t: nat, e: nat)
    requires |m0| == |o0| && d < |m0| && t < |m0| && i < 1024 && j < 1024 && e < WORD_LIMIT
    requires TablesOk(m0, o0)
    requires o0[d].Dir? && o0[t] == Table(d, i)
    ensures
      var m1 := m0[t := SetEntry(m0[t], j, e)];
      && TablesOk(m1, o0)
      && (forall d', v :: IsDir(o0, d') && 0 <= v < NPAGES ==>
            Walk(m1, d', v) == if d' == d && v == 1024 * i + j then e else Walk(m0, d', v))
  {
    var m1 := m0[t := SetEntry(m0[t], j, e)];
    assert forall d' :: IsDir(o0, d') ==> m1[d'] == m0[d'];
    forall d', v | IsDir(o0, d') && 0 <= v < NPAGES
      ensures Walk(m1, d', v) == if d' == d && v == 1024 * i + j then e else Walk(m0, d', v)
    {
      var pde := Entry(m0[d'], v / 1024);
      assert m1[d'] == m0[d'];
      if Present(pde) {
        assert o0[Frame(pde)] == Table(d', v / 1024);
      }
    }
  }

  /** The free list is not affected by writes to pages in use. */
  lemma ChainSame(m0: Mem, m1: Mem, owner: seq<Owner>, head: nat, free: seq<nat>)
    requires |m0| == |m1| == |owner| && ChainOk(m0, head, free) && FreeOk(owner, free)
    requires forall p :: 0 <= p < |m0| && owner[p].Free? ==> m1[p] == m0[p]
    ensures ChainOk(m1, head, free)
  {
  }

  // ---- ranges of addresses ------------------------------------------------------

  /** Page `v` is one that a loop from the page of `va` to the last page before `va + n` visits. */
  predicate Touches(v: int, va: nat, n: nat) {
    PGSIZE * v < va + n && va < PGSIZE * v + PGSIZE
  }

  predicate InPage(a: nat, v: int) {
    a / PGSIZE == v
  }

  /** Those are the pages of the addresses in the range; and for an empty range the page of `va`
      all the same, unless `va` is its first byte. */
  lemma TouchesIff(v: int, va: nat, n: nat)
    ensures n > 0 ==> (Touches(v, va, n) <==> exists a :: va <= a < va + n && InPage(a, v))
    ensures n == 0 ==> (Touches(v, va, n) <==> va % PGSIZE != 0 && InPage(va, v))
  {
    if n > 0 && Touches(v, va, n) {
      var a := if PGSIZE * v < va then va else PGSIZE * v;
      assert InPage(a, v);
    }
  }

  /** The pages from the one of `va` on that are visited are consecutive. */
  lemma TouchedRun(va: nat, n: nat, k: nat)
    requires va + n <= PGSIZE * (va / PGSIZE + k)
    requires k > 0 ==> PGSIZE * (va / PGSIZE + k - 1) < va + n
    ensures forall v :: Touches(v, va, n) <==> va / PGSIZE <= v < va / PGSIZE + k
  {
    forall v ensures Touches(v, va, n) <==> va / PGSIZE <= v < va / PGSIZE + k {
    }
  }

  /** Address `a` has a present entry. */
  predicate PresentAt(mem: Mem, d: nat, a: nat) {
    d < |mem| && a < WORD_LIMIT && Present(Walk(mem, d, a / PGSIZE))
  }

  // ---- relations between two states -------------------------------------------

  /** Every page that was in use, except directory `d` and its tables, keeps its
      contents; all but the pages in `held` keep their owner. */
  ghost predicate Untouched(m0: Mem, o0: seq<Owner>, m1: Mem, o1: seq<Owner>, d: int, held: set<int>) {
    && |m0| == |m1| == |o0| == |o1|
    && (forall p :: 0 <= p < |m0| && !o0[p].Free? && !Belongs(o0, p, d) ==> m1[p] == m0[p])
    && (forall p :: 0 <= p < |m0| && !o0[p].Free? && p !in held ==> o1[p] == o0[p])
  }

  /** Entry for the `i`-th page of a run that starts at physical address `pa`. */
  function RunPte(pa: nat, i: nat, perm: nat): (e: nat)
    requires pa + PGSIZE * i < WORD_LIMIT && perm < PGSIZE
    ensures e < WORD_LIMIT && Present(e) && Frame(e) == Frame(pa) + i
    ensures User(e) == User(perm) && Writable(e) == Writable(perm)
    ensures PteFlags(e) == if Present(perm) then perm else perm + 1
  {
    MakePte(pa + PGSIZE * i, perm)
  }

  /** The translations of all directories after mapping `k` pages of directory `d`
      from virtual page `first` on to the run at `pa`. */
  ghost predicate MapRange(m0: Mem, o0: seq<Owner>, m1: Mem, o1: seq<Owner>,
                           d: nat, first: nat, k: nat, pa: nat, perm: nat)
  {
    && |m0| == |m1| == |o0| == |o1|
    && pa + PGSIZE * k <= WORD_LIMIT && perm < PGSIZE
    && (forall d' :: IsDir(o0, d') ==> IsDir(o1, d'))
    && (forall d', v :: IsDir(o0, d') && 0 <= v < NPAGES ==>
          Walk(m1, d', v) ==
            if d' == d && first <= v < first + k then RunPte(pa, v - first, perm) else Walk(m0, d', v))
  }

  /** Directories stay directories, with the same translations. */
  ghost predicate SameWalks(m0: Mem, o0: seq<Owner>, m1: Mem, o1: seq<Owner>)
  {
    && |m0| == |m1| == |o0| == |o1|
    && (forall d :: IsDir(o0, d) ==> IsDir(o1, d))
    && (forall d, v :: IsDir(o0, d) && 0 <= v < NPAGES ==> Walk(m1, d, v) == Walk(m0, d, v))
  }

  /** Directory slots of the `k` pages from `first` on that have no table yet. */
  ghost function MissingSlots(mem: Mem, d: nat, first: nat, k: nat): set<int>
    requires d < |mem| && first + k <= NPAGES
  {
    set i | 0 <= i < 1024 && k > 0 && first / 1024 <= i <= (first + k - 1) / 1024 && !Present(Entry(mem[d], i))
  }

  // ---- whole-state steps ----------------------------------------------------------

  /** Where the free list starts. */
  lemma ChainHead(mem: Mem, owner: seq<Owner>, head: nat, free: seq<nat>)
    requires Wf(mem, owner, head, free)
    ensures head < WORD_LIMIT && (head == 0 <==> free == [])
    ensures free != [] ==>
              free[0] < |mem| && head == Kva(free[0]) && owner[free[0]].Free? && free[0] < MAX_PAGES
  {
  }

  lemma KeepWalks(mem: Mem, owner: seq<Owner>, head: nat, free: seq<nat>, p: nat, pg: Page, o: Owner)
    requires Wf(mem, owner, head, free) && p < |mem| == |owner|
    requires Unlinked(o) && Unlinked(owner[p])
    ensures SameWalks(mem, owner, mem[p := pg], owner[p := o])
  {
    PlainWrite(mem, owner, p, pg, o);
  }

  lemma Unchanged(mem: Mem, owner: seq<Owner>, d: int)
    requires |mem| == |owner|
    ensures SameWalks(mem, owner, mem, owner) && Untouched(mem, owner, mem, owner, d, {})
  {
  }

  /** A present directory entry names a table of its own. */
  lemma TableOf(mem: Mem, owner: seq<Owner>, head: nat, free: seq<nat>, d: nat, i: nat)
    requires Wf(mem, owner, head, free) && IsDir(owner, d) && i < 1024 && Present(Entry(mem[d], i))
    ensures Frame(Entry(mem[d], i)) < |mem| && owner[Frame(Entry(mem[d], i))] == Table(d, i)
    ensures Writable(Entry(mem[d], i)) && User(Entry(mem[d], i))
  {
    FlagBits(Entry(mem[d], i), true, true, true);
  }

  /** A present entry outside the window names a frame of its own. */
  lemma FrameOf(mem: Mem, owner: seq<Owner>, head: nat, free: seq<nat>, d: nat, v: nat)
    requires Wf(mem, owner, head, free) && IsDir(owner, d) && v < NPAGES && Present(Walk(mem, d, v))
    ensures if Window(v) then !User(Walk(mem, d, v))
            else Frame(Walk(mem, d, v)) < |mem| && owner[Frame(Walk(mem, d, v))] == Mapped(d, v)
  {
  }

  /** `InstallTable` for the whole state. */
  lemma InstallTableWf(m0: Mem, o0: seq<Owner>, head: nat, free: seq<nat>, d: nat, i: nat, t: nat, e: nat)
    requires Wf(m0, o0, head, free)
    requires IsDir(o0, d) && i < 1024 && e < WORD_LIMIT && t < |m0| && o0[t].Held?
    requires !Present(Entry(m0[d], i)) && Frame(e) == t && PteFlags(e) == PTE_P + PTE_W + PTE_U
    ensures Wf(m0[t := ZeroPage()][d := SetEntry(m0[d], i, e)], o0[t := Table(d, i)], head, free)
  {
    hide ChainOk, TablesOk, FramesOk, Walk, Entry, Word;
    InstallTable(m0, o0, d, i, t, e);
    ChainSame(m0, m0[t := ZeroPage()][d := SetEntry(m0[d], i, e)], o0, head, free);
    assert FreeOk(o0[t := Table(d, i)], free);
  }

  /** Taking the first free page as the missing table of slot `i` of `d`. */
  lemma TakeTable(m0: Mem, o0: seq<Owner>, m1: Mem, o1: seq<Owner>, head: nat, free: seq<nat>, d: nat, i: nat, e: nat)
    requires Wf(m0, o0, head, free) && free != []
    requires IsDir(o0, d) && i < 1024 && e < WORD_LIMIT && free[0] < |m0|
    requires !Present(Entry(m0[d], i)) && Frame(e) == free[0] && PteFlags(e) == PTE_P + PTE_W + PTE_U
    requires m1 == m0[free[0] := ZeroPage()][d := SetEntry(m0[d], i, e)]
    requires o1 == o0[free[0] := Table(d, i)]
    ensures Wf(m1, o1, Word(m0[free[0]], 0), free[1..])
    ensures SameWalks(m0, o0, m1, o1) && Untouched(m0, o0, m1, o1, d, {})
  {
    hide ChainOk, TablesOk, FramesOk, Walk, Entry, Word, SetEntry, ZeroPage;
    var t := free[0];
    var oh := o0[t := Held];
    assert o0[t].Free?;
    FreePop(m0, o0, head, free);
    InstallTableWf(m0, oh, Word(m0[t], 0), free[1..], d, i, t, e);
    assert oh[t := Table(d, i)] == o1;
    InstallTable(m0, oh, d, i, t, e);
    hide FreeOk;
    assert forall d' :: IsDir(o0, d') <==> IsDir(oh, d');
  }

  /** Relabelling a page that is neither free, directory nor table. */
  lemma Relabel(mem: Mem, o0: seq<Owner>, free: seq<nat>, f: nat, o: Owner)
    requires |mem| == |o0| && f < |mem| && TablesOk(mem, o0) && FreeOk(o0, free)
    requires o0[f].Held? || o0[f].Mapped?
    requires o.Held? || o.Mapped?
    ensures TablesOk(mem, o0[f := o]) && FreeOk(o0[f := o], free)
    ensures forall d :: IsDir(o0[f := o], d) <==> IsDir(o0, d)
  {
    assert forall d :: IsDir(o0[f := o], d) <==> IsDir(o0, d);
  }

  /** The only change in translations: page `v` of `d` now has entry `e`. */
  ghost predicate OneEntry(m0: Mem, m1: Mem, o0: seq<Owner>, d: nat, v: nat, e: nat) {
    && |m0| == |m1| == |o0|
    && (forall d', v' :: IsDir(o0, d') && 0 <= v' < NPAGES ==>
          Walk(m1, d', v') == if d' == d && v' == v then e else Walk(m0, d', v'))
  }

  lemma FramesMap(m0: Mem, o0: seq<Owner>, m1: Mem, d: nat, v: nat, e: nat)
    requires |m0| == |o0| && FramesOk(m0, o0) && OneEntry(m0, m1, o0, d, v, e)
    requires IsDir(o0, d) && v < NPAGES && !Window(v)
    requires !Present(Walk(m0, d, v)) && Present(e) && Frame(e) < |m0| && o0[Frame(e)].Held?
    ensures FramesOk(m1, o0[Frame(e) := Mapped(d, v)])
  {
    var o1 := o0[Frame(e) := Mapped(d, v)];
    assert forall d' :: IsDir(o1, d') <==> IsDir(o0, d');
  }

  lemma FramesMapWindow(m0: Mem, o0: seq<Owner>, m1: Mem, d: nat, v: nat, e: nat)
    requires |m0| == |o0| && FramesOk(m0, o0) && OneEntry(m0, m1, o0, d, v, e)
    requires IsDir(o0, d) && v < NPAGES && Window(v) && !User(e)
    ensures FramesOk(m1, o0)
  {
  }

  lemma FramesUnmap(m0: Mem, o0: seq<Owner>, m1: Mem, d: nat, v: nat)
    requires |m0| == |o0| && FramesOk(m0, o0) && OneEntry(m0, m1, o0, d, v, 0)
    requires IsDir(o0, d) && v < NPAGES && !Window(v)
    requires Present(Walk(m0, d, v)) && Frame(Walk(m0, d, v)) < |m0|
    ensures FramesOk(m1, o0[Frame(Walk(m0, d, v)) := Held])
  {
    var o1 := o0[Frame(Walk(m0, d, v)) := Held];
    assert forall d' :: IsDir(o1, d') <==> IsDir(o0, d');
  }

  /** Writing the entry of an unmapped page. */
  lemma MapEntry(m0: Mem, o0: seq<Owner>, head: nat, free: seq<nat>, d: nat, v: nat, t: nat, e: nat)
    requires Wf(m0, o0, head, free) && IsDir(o0, d) && v < NPAGES && e < WORD_LIMIT
    requires t < |m0| && o0[t] == Table(d, v / 1024)
    requires !Present(Walk(m0, d, v)) && Present(e)
    requires if Window(v) then !User(e) else Frame(e) < |m0| && o0[Frame(e)].Held?
    ensures
      var m1 := m0[t := SetEntry(m0[t], v % 1024, e)];
      var o1 := if Window(v) then o0 else o0[Frame(e) := Mapped(d, v)];
      && Wf(m1, o1, head, free)
      && (forall d' :: IsDir(o0, d') <==> IsDir(o1, d'))
      && OneEntry(m0, m1, o0, d, v, e)
  {
    hide FramesOk, ChainOk;
    var m1 := m0[t := SetEntry(m0[t], v % 1024, e)];
    WriteEntry(m0, o0, d, v / 1024, v % 1024, t, e);
    ChainSame(m0, m1, o0, head, free);
    hide TablesOk, FreeOk, Walk;
    if Window(v) {
      FramesMapWindow(m0, o0, m1, d, v, e);
    } else {
      FramesMap(m0, o0, m1, d, v, e);
      Relabel(m1, o0, free, Frame(e), Mapped(d, v));
    }
  }

  /** Clearing the entry of a page mapped outside the window. */
  lemma UnmapEntry(m0: Mem, o0: seq<Owner>, head: nat, free: seq<nat>, d: nat, v: nat, t: nat)
    requires Wf(m0, o0, head, free) && IsDir(o0, d) && v < NPAGES && !Window(v)
    requires t < |m0| && o0[t] == Table(d, v / 1024)
    requires Present(Walk(m0, d, v)) && Frame(Walk(m0, d, v)) < |m0|
    ensures
      var f := Frame(Walk(m0, d, v));
      var m1, o1 := m0[t := SetEntry(m0[t], v % 1024, 0)], o0[f := Held];
      && Wf(m1, o1, head, free)
      && (forall d' :: IsDir(o0, d') <==> IsDir(o1, d'))
      && OneEntry(m0, m1, o0, d, v, 0)
  {
    var m1 := m0[t := SetEntry(m0[t], v % 1024, 0)];
    FrameOf(m0, o0, head, free, d, v);
    hide FramesOk, ChainOk;
    WriteEntry(m0, o0, d, v / 1024, v % 1024, t, 0);
    ChainSame(m0, m1, o0, head, free);
    hide TablesOk, FreeOk, Walk;
    FramesUnmap(m0, o0, m1, d, v);
    Relabel(m1, o0, free, Frame(Walk(m0, d, v)), Held);
  }

  // ---- mapping a run of pages ---------------------------------------------------

  /** Frames outside the kernel window that mapping `k` pages from `first` on to the
      run at `pa` puts to use. */
  ghost function RunFrames(first: nat, pa: nat, k: nat): set<int> {
    set f | Frame(pa) <= f < Frame(pa) + k && !Window(RunPage(first, pa, f))
  }

  /** The virtual page that frame `f` of the run goes to. */
  ghost function RunPage(first: nat, pa: nat, f: nat): int {
    first + f - Frame(pa)
  }

  /** The caller holds every frame it maps outside the window, and maps nothing in
      the window for user mode. */
  ghost predicate RunHeld(owner: seq<Owner>, first: nat, pa: nat, n: nat, perm: nat) {
    && (forall f :: f in RunFrames(first, pa, n) ==> 0 <= f < |owner| && owner[f].Held?)
    && (User(perm) ==> forall v :: first <= v < first + n ==> !Window(v))
  }

  /** Slot `i` of the directory has a table after the `k` pages from `first` on are mapped. */
  ghost predicate SlotsAfter(m0: Mem, m1: Mem, d: nat, first: nat, k: nat)
    requires d < |m0| && d < |m1|
  {
    forall i :: 0 <= i < 1024 ==>
      Present(Entry(m1[d], i)) == (Present(Entry(m0[d], i)) || (k > 0 && first / 1024 <= i <= (first + k - 1) / 1024))
  }

  lemma MissingStep(m0: Mem, m1: Mem, d: nat, first: nat, k: nat)
    requires d < |m0| && d < |m1| && first + k < NPAGES && SlotsAfter(m0, m1, d, first, k)
    ensures |MissingSlots(m0, d, first, k + 1)| ==
            |MissingSlots(m0, d, first, k)| + if Present(Entry(m1[d], (first + k) / 1024)) then 0 else 1
  {
    var s := (first + k) / 1024;
    var a, b := MissingSlots(m0, d, first, k), MissingSlots(m0, d, first, k + 1);
    if Present(Entry(m1[d], s)) {
      assert b == a;
    } else {
      assert s !in a && b == a + {s};
    }
  }

  lemma MapRangeStep(m0: Mem, o0: seq<Owner>, m1: Mem, o1: seq<Owner>, m2: Mem, o2: seq<Owner>, m3: Mem, o3: seq<Owner>,
                     d: nat, first: nat, k: nat, pa: nat, perm: nat)
    requires MapRange(m0, o0, m1, o1, d, first, k, pa, perm) && SameWalks(m1, o1, m2, o2)
    requires pa + PGSIZE * k + PGSIZE <= WORD_LIMIT
    requires |m3| == |o3| == |m0| && OneEntry(m2, m3, o2, d, first + k, RunPte(pa, k, perm))
    requires forall d' :: IsDir(o2, d') ==> IsDir(o3, d')
    ensures MapRange(m0, o0, m3, o3, d, first, k + 1, pa, perm)
  {
    hide Walk, RunPte;
  }

  lemma UntouchedStep(m0: Mem, o0: seq<Owner>, m1: Mem, o1: seq<Owner>, m2: Mem, o2: seq<Owner>, m3: Mem,
                      o3: seq<Owner>,
                      d: int, h1: set<int>, h3: set<int>)
    requires Untouched(m0, o0, m1, o1, d, h1) && Untouched(m1, o1, m2, o2, d, {}) && Untouched(m2, o2, m3, o3, d, h3)
    requires forall p :: p in h1 && 0 <= p < |o0| && 0 <= p < |o1| ==> o0[p].Held? && o1[p].Mapped?
    ensures Untouched(m0, o0, m3, o3, d, h1 + h3)
  {
  }

  /** `pte` is the address of the entry of virtual page `v` in directory `d`. */
  ghost predicate PteAt(mem: Mem, owner: seq<Owner>, d: nat, v: nat, pte: nat) {
    && d < |mem| && v < NPAGES && IsDir(owner, d) && |owner| == |mem|
    && Present(Entry(mem[d], v / 1024))
    && var t := Frame(Entry(mem[d], v / 1024));
    && t < |mem| && t < MAX_PAGES && owner[t] == Table(d, v / 1024)
    && pte == Kva(t) + 4 * (v % 1024) && PageOf(pte) == t && V2P(pte) % PGSIZE == 4 * (v % 1024)
    && Word(mem[t], V2P(pte) % PGSIZE) == Walk(mem, d, v)
  }

  lemma PteKept(mem: Mem, owner: seq<Owner>, d: nat, v: nat, pte: nat, f: nat)
    requires PteAt(mem, owner, d, v, pte) && f < |owner| && owner[f].Free?
    ensures PteAt(mem, owner[f := Held], d, v, pte)
  {
    hide Walk, Word, V2P;
  }

  /** What pgdir_walk does when it finds or makes the table of virtual page `v`. */
  ghost predicate Walked(m0: Mem, o0: seq<Owner>, f0: seq<nat>, m1: Mem, o1: seq<Owner>, f1: seq<nat>, d: nat, v: nat) {
    && SameWalks(m0, o0, m1, o1) && Untouched(m0, o0, m1, o1, d, {}) && IsDir(o0, d) && v < NPAGES
    && if Present(Entry(m0[d], v / 1024)) then
         m1 == m0 && o1 == o0 && f1 == f0
       else
         && f0 != [] && f1 == f0[1..] && f0[0] < |o0| && o0[f0[0]].Free? && o1 == o0[f0[0] := Table(d, v / 1024)]
         && (forall j :: 0 <= j < 1024 ==> Present(Entry(m1[d], j)) == (j == v / 1024 || Present(Entry(m0[d], j))))
  }

  /** What storing entry `e` for the unmapped virtual page `v` does. */
  ghost predicate Placed(m0: Mem, o0: seq<Owner>, m1: Mem, o1: seq<Owner>, d: nat, v: nat, e: nat) {
    && |m0| == |o0| == |m1| && d < |m0| && (Window(v) || Frame(e) < |o0|)
    && m1[d] == m0[d] && OneEntry(m0, m1, o0, d, v, e)
    && o1 == (if Window(v) then o0 else o0[Frame(e) := Mapped(d, v)])
    && Untouched(m0, o0, m1, o1, d, if Window(v) then {} else {Frame(e)})
  }

  /** Each missing table took one page off the front of the free list. */
  ghost predicate TablesTaken(m0: Mem, f0: seq<nat>, m1: Mem, f1: seq<nat>, d: nat, first: nat, k: nat) {
    && d < |m0| && d < |m1| && first + k <= NPAGES
    && SlotsAfter(m0, m1, d, first, k)
    && |MissingSlots(m0, d, first, k)| <= |f0| && f1 == f0[|MissingSlots(m0, d, first, k)|..]
  }

  lemma TablesTakenStep(m0: Mem, f0: seq<nat>, m1: Mem, o1: seq<Owner>, f1: seq<nat>, m2: Mem, o2: seq<Owner>,
                        f2: seq<nat>,
                        m3: Mem, d: nat, first: nat, k: nat)
    requires TablesTaken(m0, f0, m1, f1, d, first, k) && Walked(m1, o1, f1, m2, o2, f2, d, first + k)
    requires d < |m2| && d < |m3| && m3[d] == m2[d]
    ensures TablesTaken(m0, f0, m3, f2, d, first, k + 1)
  {
    hide SameWalks, Untouched;
    MissingStep(m0, m1, d, first, k);
    hide MissingSlots;
  }

  lemma WalkedOwner(m0: Mem, o0: seq<Owner>, f0: seq<nat>, m1: Mem, o1: seq<Owner>, f1: seq<nat>, d: nat, v: nat)
    requires Walked(m0, o0, f0, m1, o1, f1, d, v)
    ensures |m0| == |m1| == |o0| == |o1| && forall p :: 0 <= p < |o0| && !o0[p].Free? ==> o1[p] == o0[p]
  {
  }

  /** How far mapping `n` pages from `first` on has come after `k` of them. */
  ghost predicate Progress(m0: Mem, o0: seq<Owner>, f0: seq<nat>, m1: Mem, o1: seq<Owner>, f1: seq<nat>,
                           d: nat, first: nat, k: nat, pa: nat, perm: nat)
  {
    && MapRange(m0, o0, m1, o1, d, first, k, pa, perm)
    && Untouched(m0, o0, m1, o1, d, RunFrames(first, pa, k))
    && IsDir(o0, d) && IsDir(o1, d) && first + k <= NPAGES
    && TablesTaken(m0, f0, m1, f1, d, first, k)
    && (forall v :: first <= v < first + k ==> !Present(Walk(m0, d, v)))
  }

  lemma ProgressNone(m0: Mem, o0: seq<Owner>, f0: seq<nat>, d: nat, first: nat, pa: nat, perm: nat)
    requires |m0| == |o0| && IsDir(o0, d) && first <= NPAGES && pa <= WORD_LIMIT && perm < PGSIZE
    ensures Progress(m0, o0, f0, m0, o0, f0, d, first, 0, pa, perm)
  {
    assert MissingSlots(m0, d, first, 0) == {};
  }

  /** Entry `e` is for the page at physical address `pa`, with the given flags and the present bit. */
  predicate EntryFor(e: nat, pa: nat, perm: nat) {
    Present(e) && PGSIZE * Frame(e) == pa && PteFlags(e) == if Present(perm) then perm else perm + 1
  }

  /** Directory `d` maps the pages of `[va, va + sz)` to the physical run at `pa`, and the others as
      before. */
  ghost predicate RunMapped(m0: Mem, m1: Mem, d: nat, va: nat, sz: nat, pa: nat, perm: nat) {
    && d < |m0| && d < |m1|
    && (forall a :: va <= a < va + sz ==> PresentAt(m1, d, a))
    && (forall v :: 0 <= v < NPAGES ==>
          if Touches(v, va, sz) then EntryFor(Walk(m1, d, v), PteAddr(pa) + PGSIZE * v - PteAddr(va), perm)
          else Walk(m1, d, v) == Walk(m0, d, v))
  }

  lemma RunDone(m0: Mem, o0: seq<Owner>, f0: seq<nat>, m1: Mem, o1: seq<Owner>, f1: seq<nat>, d: nat, va: nat, sz: nat,
                k: nat, pa: nat, perm: nat)
    requires Progress(m0, o0, f0, m1, o1, f1, d, va / PGSIZE, k, pa, perm) && va + sz <= WORD_LIMIT
    requires forall v :: Touches(v, va, sz) <==> va / PGSIZE <= v < va / PGSIZE + k
    ensures RunMapped(m0, m1, d, va, sz, pa, perm)
  {
    hide Walk, TablesTaken, Untouched;
    forall v | 0 <= v < NPAGES
      ensures if Touches(v, va, sz) then EntryFor(Walk(m1, d, v), PteAddr(pa) + PGSIZE * v - PteAddr(va), perm)
              else Walk(m1, d, v) == Walk(m0, d, v)
    {
    }
    forall a | va <= a < va + sz ensures PresentAt(m1, d, a) {
      assert Touches(a / PGSIZE, va, sz);
    }
  }

  /** The frames mapped so far belong to their pages. */
  lemma ProgressMapped(m0: Mem, o0: seq<Owner>, m1: Mem, o1: seq<Owner>, head: nat, f1: seq<nat>,
                       d: nat, first: nat, k: nat, pa: nat, perm: nat, f: nat)
    requires MapRange(m0, o0, m1, o1, d, first, k, pa, perm) && Wf(m1, o1, head, f1)
    requires IsDir(o0, d) && first + k <= NPAGES && f in RunFrames(first, pa, k)
    ensures f < |o1| && o1[f] == Mapped(d, RunPage(first, pa, f))
  {
    hide Wf, Walk;
    var v := RunPage(first, pa, f);
    assert Walk(m1, d, v) == RunPte(pa, v - first, perm);
    FrameOf(m1, o1, head, f1, d, v);
  }

  /** The frames still to be mapped are still held. */
  lemma ProgressHeld(m0: Mem, o0: seq<Owner>, m1: Mem, o1: seq<Owner>,
                     d: nat, first: nat, k: nat, n: nat, pa: nat, perm: nat)
    requires Untouched(m0, o0, m1, o1, d, RunFrames(first, pa, k))
    requires RunHeld(o0, first, pa, n, perm) && k < n
    ensures if Window(first + k) then !User(perm) else Frame(pa) + k < |o1| && o1[Frame(pa) + k].Held?
  {
    var f := Frame(pa) + k;
    assert RunPage(first, pa, f) == first + k;
    if !Window(first + k) {
      assert f in RunFrames(first, pa, n) && f !in RunFrames(first, pa, k);
    }
  }

  /** A page found mapped was mapped at the start. */
  lemma ProgressRemap(m0: Mem, o0: seq<Owner>, f0: seq<nat>, m1: Mem, o1: seq<Owner>, f1: seq<nat>,
                      m2: Mem, o2: seq<Owner>, f2: seq<nat>, d: nat, first: nat, k: nat, pa: nat, perm: nat)
    requires Progress(m0, o0, f0, m1, o1, f1, d, first, k, pa, perm)
    requires Walked(m1, o1, f1, m2, o2, f2, d, first + k) && d < |m2| && Present(Walk(m2, d, first + k))
    ensures m2 == m1 && o2 == o1 && f2 == f1 && d < |m0| && Present(Walk(m0, d, first + k))
  {
    WalkKept(m0, o0, m1, o1, m2, o2, d, first, k, pa, perm);
  }

  lemma ProgressStep(m0: Mem, o0: seq<Owner>, f0: seq<nat>, m1: Mem, o1: seq<Owner>, f1: seq<nat>,
                     m2: Mem, o2: seq<Owner>, f2: seq<nat>, m3: Mem, o3: seq<Owner>,
                     d: nat, first: nat, k: nat, pa: nat, perm: nat)
    requires Progress(m0, o0, f0, m1, o1, f1, d, first, k, pa, perm)
    requires Walked(m1, o1, f1, m2, o2, f2, d, first + k)
    requires pa + PGSIZE * k + PGSIZE <= WORD_LIMIT
    requires Placed(m2, o2, m3, o3, d, first + k, RunPte(pa, k, perm))
    requires !Present(Walk(m2, d, first + k))
    requires !Window(first + k) ==> Frame(pa) + k < |o2| && o2[Frame(pa) + k].Held?
    requires forall f :: f in RunFrames(first, pa, k) ==> 0 <= f < |o0| == |o1| && o0[f].Held? && o1[f].Mapped?
    ensures Progress(m0, o0, f0, m3, o3, f2, d, first, k + 1, pa, perm)
  {
    hide Walk, OneEntry, MapRange, SameWalks, Untouched, RunPte, TablesTaken, Entry;
    StepSizes(m0, o0, m1, o1, m2, o2, d, first, k, pa, perm);
    TablesTakenStep(m0, f0, m1, o1, f1, m2, o2, f2, m3, d, first, k);
    WalkKept(m0, o0, m1, o1, m2, o2, d, first, k, pa, perm);
    MapRangeStep(m0, o0, m1, o1, m2, o2, m3, o3, d, first, k, pa, perm);
    var h3 := if Window(first + k) then {} else {Frame(pa) + k};
    UntouchedStep(m0, o0, m1, o1, m2, o2, m3, o3, d, RunFrames(first, pa, k), h3);
    assert RunPage(first, pa, Frame(pa) + k) == first + k;
    assert RunFrames(first, pa, k) + h3 == RunFrames(first, pa, k + 1);
  }

  lemma StepSizes(m0: Mem, o0: seq<Owner>, m1: Mem, o1: seq<Owner>, m2: Mem, o2: seq<Owner>,
                  d: nat, first: nat, k: nat, pa: nat, perm: nat)
    requires MapRange(m0, o0, m1, o1, d, first, k, pa, perm) && SameWalks(m1, o1, m2, o2)
    ensures |m0| == |m1| == |m2| == |o0| == |o1| == |o2|
  {
  }

  lemma WalkKept(m0: Mem, o0: seq<Owner>, m1: Mem, o1: seq<Owner>, m2: Mem, o2: seq<Owner>,
                 d: nat, first: nat, k: nat, pa: nat, perm: nat)
    requires MapRange(m0, o0, m1, o1, d, first, k, pa, perm) && SameWalks(m1, o1, m2, o2)
    requires IsDir(o0, d) && first + k < NPAGES
    ensures IsDir(o2, d) && Walk(m2, d, first + k) == Walk(m0, d, first + k)
  {
    hide Walk;
  }

  /** Pages that were free are free or tables of `d`, those in `but` aside. */
  ghost predicate Spent(o0: seq<Owner>, o1: seq<Owner>, d: nat, but: set<int>) {
    && |o0| == |o1|
    && (forall p :: 0 <= p < |o0| && o0[p].Free? && p !in but ==> o1[p].Free? || (o1[p].Table? && o1[p].dir == d))
  }

  lemma SpentNone(owner: seq<Owner>, d: nat)
    ensures Spent(owner, owner, d, {})
  {
  }

  /** One page of a run: its table and its entry. */
  lemma SpentStep(o0: seq<Owner>, m1: Mem, o1: seq<Owner>, f1: seq<nat>, m2: Mem, o2: seq<Owner>, f2: seq<nat>,
                  m3: Mem, o3: seq<Owner>, d: nat, v: nat, e: nat)
    requires Spent(o0, o1, d, {}) && Walked(m1, o1, f1, m2, o2, f2, d, v) && Placed(m2, o2, m3, o3, d, v, e)
    requires !Window(v) ==> Frame(e) < |o2| && o2[Frame(e)].Held?
    ensures Spent(o0, o3, d, {})
  {
    hide Walk, SameWalks, OneEntry, Entry;
  }

  lemma SpentMore(o0: seq<Owner>, o1: seq<Owner>, d: nat, f: int)
    requires Spent(o0, o1, d, {}) || Spent(o0, o1, d, {f})
    ensures Spent(o0, o1, d, {f})
  {
  }

  lemma SpentDir(owner: seq<Owner>, d: nat)
    requires d < |owner|
    ensures Spent(owner, owner[d := Held][d := Dir], d, {d})
  {
  }

  lemma SpentKinds(o0: seq<Owner>, o1: seq<Owner>, d: nat)
    requires Spent(o0, o1, d, {d}) && IsDir(o1, d)
    ensures forall p :: 0 <= p < |o1| && p < |o0| && o0[p].Free? ==> o1[p].Free? || o1[p].Dir? || o1[p].Table?
  {
  }

  /** Page `f` was taken first. */
  lemma SpentHeld(o0: seq<Owner>, o1: seq<Owner>, d: nat, f: nat)
    requires f < |o0| && Spent(o0[f := Held], o1, d, {})
    ensures Spent(o0, o1, d, {f})
  {
  }

  lemma SpentThen(m1: Mem, o0: seq<Owner>, o1: seq<Owner>, m2: Mem, o2: seq<Owner>, d: nat, but: set<int>)
    requires Spent(o0, o1, d, but) && Spent(o1, o2, d, {}) && Untouched(m1, o1, m2, o2, d, {})
    ensures Spent(o0, o2, d, but)
  {
  }

  // ---- unmapping -----------------------------------------------------------------

  /** Page `v` of directory `d` was unmapped and its frame `f` freed. */
  ghost predicate Dropped(m0: Mem, o0: seq<Owner>, m1: Mem, o1: seq<Owner>, d: nat, v: nat, f: nat) {
    && |m0| == |o0| == |m1| && d < |m0| && f < |o0|
    && o0[f] == Mapped(d, v) && o1 == o0[f := Free]
    && m1[d] == m0[d] && OneEntry(m0, m1, o0, d, v, 0)
    && (forall p :: 0 <= p < |m0| && p != f && !Belongs(o0, p, d) ==> m1[p] == m0[p])
  }

  lemma DroppedFrame(m0: Mem, o0: seq<Owner>, m1: Mem, o1: seq<Owner>, m2: Mem, o2: seq<Owner>, d: nat, v: nat, f: nat)
    requires |m0| == |o0| == |m1| == |m2| && IsDir(o0, d) && f < |o0| && o0[f] == Mapped(d, v)
    requires o1 == o0[f := Held] && o2 == o1[f := Free]
    requires m1[d] == m0[d] && OneEntry(m0, m1, o0, d, v, 0)
    requires forall p :: 0 <= p < |o0| && !Belongs(o0, p, d) ==> m1[p] == m0[p]
    requires SameWalks(m1, o1, m2, o2) && forall q :: 0 <= q < |m1| && q != f ==> m2[q] == m1[q]
    ensures Dropped(m0, o0, m2, o2, d, v, f)
  {
    hide Walk;
    assert o2 == o0[f := Free];
    assert forall d' :: IsDir(o0, d') ==> IsDir(o1, d');
  }

  /** With its table missing, a page is not mapped; without allocation nothing changes. */
  lemma WalkedNothing(m0: Mem, o0: seq<Owner>, f0: seq<nat>, d: nat, v: nat)
    requires |m0| == |o0| && IsDir(o0, d) && v < NPAGES
    ensures !Present(Entry(m0[d], v / 1024)) ==> !Present(Walk(m0, d, v))
    ensures forall m1, o1, f1 :: Walked(m0, o0, f0, m1, o1, f1, d, v) && Present(Entry(m0[d], v / 1024)) ==>
              m1 == m0 && o1 == o0 && f1 == f0
  {
  }

  // ---- the kernel window -------------------------------------------------------------

  const EXTMEM := 0x10_0000
  const KERNLINK := KERNBASE + EXTMEM
  const WINDOW_PAGE := KERNBASE / PGSIZE

  /** Pages needed to hold `n` bytes. */
  function PagesFor(n: nat): (k: nat)
    ensures n <= PGSIZE * k < n + PGSIZE
  {
    (n + PGSIZE - 1) / PGSIZE
  }

  /** Entry of virtual page `v` in a fresh kernel address space: physical memory page by
      page from KERNBASE on, writable except for the kernel text between KERNLINK and `data`. */
  function KernelPte(data: nat, memBytes: nat, v: nat): (e: nat)
    requires KERNLINK <= data && memBytes <= HEAP_START - KERNBASE && v < NPAGES
    ensures e < WORD_LIMIT
    ensures Present(e) <==> KERNBASE <= PGSIZE * v < KERNBASE + memBytes
    ensures Present(e) ==> Frame(e) == v - WINDOW_PAGE && !User(e)
    ensures Present(e) ==> (Writable(e) <==> !(KERNLINK <= PGSIZE * v < data))
  {
    var i := v - WINDOW_PAGE;
    if 0 <= i < PagesFor(memBytes) then RunPte(0, i, KernelPerm(data, i)) else 0
  }

  function KernelPerm(data: nat, i: nat): nat
    requires KERNLINK <= data
  {
    if EXTMEM <= PGSIZE * i < data - KERNBASE then 0 else PTE_W
  }

  lemma ZeroDir(mem: Mem, owner: seq<Owner>, p: nat)
    requires |mem| == |owner| && p < |mem| && owner[p].Held? && mem[p] == ZeroPage()
    requires TablesOk(mem, owner) && FramesOk(mem, owner)
    ensures TablesOk(mem, owner[p := Dir]) && FramesOk(mem, owner[p := Dir])
    ensures forall v :: 0 <= v < NPAGES ==> Walk(mem, p, v) == 0
  {
    assert forall i :: 0 <= i < 1024 ==> !Present(Entry(mem[p], i));
    DirAdded(owner, p);
  }

  lemma DirAdded(owner: seq<Owner>, p: nat)
    requires p < |owner|
    ensures forall d :: IsDir(owner[p := Dir], d) <==> IsDir(owner, d) || d == p
  {
  }

  /** Turning the zeroed held page `p` into a page directory. */
  lemma NewDir(m0: Mem, o0: seq<Owner>, head: nat, free: seq<nat>, p: nat)
    requires Wf(m0, o0, head, free) && p < |m0| && o0[p].Held?
    ensures
      var m1, o1 := m0[p := ZeroPage()], o0[p := Dir];
      && Wf(m1, o1, head, free) && SameWalks(m0, o0, m1, o1)
      && (forall v :: 0 <= v < NPAGES ==> Walk(m1, p, v) == 0)
  {
    hide ChainOk, TablesOk, FramesOk, Walk, Entry, ZeroPage;
    var m1 := m0[p := ZeroPage()];
    PlainWrite(m0, o0, p, ZeroPage(), Held);
    assert o0[p := Held] == o0;
    ChainSame(m0, m1, o0, head, free);
    ZeroDir(m1, o0, p);
  }

  /** The first `n` pages of the window are mapped in the new directory `d`, nothing else is. */
  ghost predicate KvmUpTo(m0: Mem, o0: seq<Owner>, m1: Mem, o1: seq<Owner>, d: nat, data: nat, memBytes: nat, n: nat)
    requires KERNLINK <= data && memBytes <= HEAP_START - KERNBASE
  {
    && SameWalks(m0, o0, m1, o1) && Untouched(m0, o0, m1, o1, d, {})
    && !IsDir(o0, d) && IsDir(o1, d)
    && (forall v :: 0 <= v < NPAGES ==>
          Walk(m1, d, v) == if v < WINDOW_PAGE + n then KernelPte(data, memBytes, v) else 0)
  }

  lemma KvmStep(m0: Mem, o0: seq<Owner>, m1: Mem, o1: seq<Owner>, f1: seq<nat>, m2: Mem, o2: seq<Owner>, f2: seq<nat>,
                d: nat, data: nat, memBytes: nat, n: nat, k: nat, perm: nat)
    requires KERNLINK <= data && memBytes <= HEAP_START - KERNBASE && perm < PGSIZE
    requires KvmUpTo(m0, o0, m1, o1, d, data, memBytes, n) && n + k <= PagesFor(memBytes)
    requires Progress(m1, o1, f1, m2, o2, f2, d, WINDOW_PAGE + n, k, PGSIZE * n, perm)
    requires forall i :: n <= i < n + k ==> KernelPerm(data, i) == perm
    ensures KvmUpTo(m0, o0, m2, o2, d, data, memBytes, n + k)
  {
    hide Walk, TablesTaken, Untouched;
    assert RunFrames(WINDOW_PAGE + n, PGSIZE * n, k) == {} by {
      WindowRun(WINDOW_PAGE + n, PGSIZE * n, k);
    }
    KvmUntouched(m0, o0, m1, o1, m2, o2, d);
    forall v | 0 <= v < NPAGES
      ensures Walk(m2, d, v) == if v < WINDOW_PAGE + n + k then KernelPte(data, memBytes, v) else 0
    {
      if WINDOW_PAGE + n <= v < WINDOW_PAGE + n + k {
        assert Walk(m2, d, v) == RunPte(PGSIZE * n, v - WINDOW_PAGE - n, perm);
      }
    }
  }

  lemma KvmUntouched(m0: Mem, o0: seq<Owner>, m1: Mem, o1: seq<Owner>, m2: Mem, o2: seq<Owner>, d: nat)
    requires Untouched(m0, o0, m1, o1, d, {}) && Untouched(m1, o1, m2, o2, d, {})
    ensures Untouched(m0, o0, m2, o2, d, {})
  {
  }

  lemma WindowUntouched(m0: Mem, o0: seq<Owner>, f0: seq<nat>, m1: Mem, o1: seq<Owner>, f1: seq<nat>,
                        d: nat, first: nat, k: nat, pa: nat, perm: nat)
    requires Progress(m0, o0, f0, m1, o1, f1, d, first, k, pa, perm)
    requires WINDOW_PAGE <= first && first + k <= HEAP_START / PGSIZE
    ensures Untouched(m0, o0, m1, o1, d, {})
  {
    hide Walk, TablesTaken, MapRange, Untouched;
    WindowRun(first, pa, k);
  }

  lemma WindowRun(first: nat, pa: nat, n: nat)
    requires WINDOW_PAGE <= first && first + n <= HEAP_START / PGSIZE
    ensures RunFrames(first, pa, n) == {}
  {
  }

  /** A zeroed directory made of a free page. */
  lemma KvmNone(m0: Mem, o0: seq<Owner>, m1: Mem, o1: seq<Owner>, d: nat, data: nat, memBytes: nat)
    requires KERNLINK <= data && memBytes <= HEAP_START - KERNBASE
    requires |m0| == |o0| && d < |m0| && o0[d].Free?
    requires m1 == m0[d := ZeroPage()] && o1 == o0[d := Dir] && SameWalks(m0, o0[d := Held], m1, o1)
    requires forall v :: 0 <= v < NPAGES ==> Walk(m1, d, v) == 0
    ensures KvmUpTo(m0, o0, m1, o1, d, data, memBytes, 0)
  {
    hide Walk;
    assert forall d' :: IsDir(o0[d := Held], d') <==> IsDir(o0, d');
  }

  /** What address `a` is in an address space with just the kernel window: memory lies at
      KERNBASE, whole pages of it, closed to user mode and writable outside the kernel text. */
  ghost predicate WindowAt(mem: Mem, d: nat, data: nat, memBytes: nat, a: nat) {
    && d < |mem| && a < WORD_LIMIT
    && var e := Walk(mem, d, a / PGSIZE);
    && (Present(e) <==> KERNBASE <= a && a - a % PGSIZE < KERNBASE + memBytes)
    && (Present(e) ==>
          && PGSIZE * Frame(e) + a % PGSIZE == a - KERNBASE && !User(e)
          && (Writable(e) <==> !(KERNLINK <= a && a - a % PGSIZE < data)))
  }

  /** The window of a new address space is linear: KERNBASE + x reads physical address x for
      every x below the memory size (rounded up to a page), and nothing else is mapped. */
  lemma LinearWindow(m0: Mem, o0: seq<Owner>, m1: Mem, o1: seq<Owner>, d: nat, data: nat, memBytes: nat)
    requires KERNLINK <= data && memBytes <= HEAP_START - KERNBASE
    requires KvmUpTo(m0, o0, m1, o1, d, data, memBytes, PagesFor(memBytes))
    ensures forall a :: 0 <= a < WORD_LIMIT ==> WindowAt(m1, d, data, memBytes, a)
  {
    hide Walk, Untouched, KernelPte;
    forall a | 0 <= a < WORD_LIMIT ensures WindowAt(m1, d, data, memBytes, a) {
      var v := a / PGSIZE;
      assert PGSIZE * v == a - a % PGSIZE;
      assert Walk(m1, d, v) == if v < WINDOW_PAGE + PagesFor(memBytes) then KernelPte(data, memBytes, v) else 0;
    }
  }

  // ---- adding fresh frames --------------------------------------------------------------

  /** Page `v` of `d` now maps frame `f`, which was free; what was in use is untouched and
      every other translation is unchanged. */
  ghost predicate Added(m0: Mem, o0: seq<Owner>, m1: Mem, o1: seq<Owner>, d: nat, v: nat, f: nat, perm: nat) {
    && |m0| == |m1| == |o0| == |o1| && f < |o0| && PGSIZE * f < WORD_LIMIT && perm < PGSIZE
    && o0[f].Free? && o1[f] == Mapped(d, v)
    && (forall d' :: IsDir(o0, d') ==> IsDir(o1, d'))
    && OneEntry(m0, m1, o0, d, v, MakePte(PGSIZE * f, perm))
    && Untouched(m0, o0, m1, o1, d, {})
  }

  /** Taking the free page `f`, filling it with `pg` and mapping it with mappages. */
  lemma AddedByRun(m0: Mem, o0: seq<Owner>, m1: Mem, f1: seq<nat>, m2: Mem, o2: seq<Owner>, f2: seq<nat>, head: nat,
                   d: nat, v: nat, f: nat, pg: Page, perm: nat)
    requires |m0| == |o0| && f < |o0| && f < MAX_PAGES && o0[f].Free? && m1 == m0[f := pg] && !Window(v)
    requires SameWalks(m0, o0, m1, o0[f := Held])
    requires Progress(m1, o0[f := Held], f1, m2, o2, f2, d, v, 1, PGSIZE * f, perm) && Wf(m2, o2, head, f2)
    ensures Added(m0, o0, m2, o2, d, v, f, perm) && m2[f] == pg
  {
    hide Wf, Walk, TablesTaken, MakePte;
    var o1 := o0[f := Held];
    assert RunPage(v, PGSIZE * f, f) == v;
    assert RunFrames(v, PGSIZE * f, 1) == {f};
    ProgressMapped(m1, o1, m2, o2, head, f2, d, v, 1, PGSIZE * f, perm, f);
    assert forall d' :: IsDir(o0, d') <==> IsDir(o1, d');
    assert RunPte(PGSIZE * f, 0, perm) == MakePte(PGSIZE * f, perm);
    assert !Belongs(o1, f, d);
  }

  /** Finding or making the table, taking the free page `f` and storing its entry. */
  lemma AddedByPte(m0: Mem, o0: seq<Owner>, f0: seq<nat>, m1: Mem, o1: seq<Owner>, f1: seq<nat>,
                   m2: Mem, o2: seq<Owner>, d: nat, v: nat, f: nat, perm: nat)
    requires Walked(m0, o0, f0, m1, o1, f1, d, v) && f < |o1| && f < MAX_PAGES && o1[f].Free? && perm < PGSIZE
    requires SameWalks(m1, o1, m1, o1[f := Held])
    requires Placed(m1, o1[f := Held], m2, o2, d, v, MakePte(PGSIZE * f, perm)) && !Window(v)
    ensures Added(m0, o0, m2, o2, d, v, f, perm)
  {
    hide Walk, MakePte;
    WalkedOwner(m0, o0, f0, m1, o1, f1, d, v);
    assert forall d' :: IsDir(o0, d') ==> IsDir(o1[f := Held], d');
    assert Frame(MakePte(PGSIZE * f, perm)) == f;
  }

  // ---- building and copying address spaces --------------------------------------------------

  /** The first `k` pages from `first` on are present in `d`: those that were missing map
      frames that were free. */
  ghost predicate Filled(m0: Mem, o0: seq<Owner>, m1: Mem, o1: seq<Owner>, d: nat, first: nat, k: nat, perm: nat) {
    && Untouched(m0, o0, m1, o1, d, {}) && perm < PGSIZE
    && (forall d' :: IsDir(o0, d') ==> IsDir(o1, d'))
    && (forall d', v :: IsDir(o0, d') && 0 <= v < NPAGES ==>
          if d' == d && first <= v < first + k && !Present(Walk(m0, d', v))
          then FreshPte(o0, Walk(m1, d', v), perm) else Walk(m1, d', v) == Walk(m0, d', v))
  }

  /** A present entry with flags `perm` for a frame that was free. */
  ghost predicate FreshPte(o0: seq<Owner>, e: nat, perm: nat) {
    && e < WORD_LIMIT && Present(e) && PteFlags(e) == (if Present(perm) then perm else perm + 1)
    && Frame(e) < |o0| && o0[Frame(e)].Free?
  }

  /** Every page of the region is present: those that were missing are on frames that were free,
      with the flags asked for. The other pages are as before. */
  ghost predicate RegionMapped(m0: Mem, o0: seq<Owner>, m1: Mem, d: nat, va: nat, len: nat, perm: nat) {
    && d < |m0| && d < |m1|
    && (forall a :: va <= a < va + len ==> PresentAt(m1, d, a))
    && (forall v :: 0 <= v < NPAGES ==>
          if Touches(v, va, len) && !Present(Walk(m0, d, v)) then FreshPte(o0, Walk(m1, d, v), perm)
          else Walk(m1, d, v) == Walk(m0, d, v))
  }

  lemma RegionDone(m0: Mem, o0: seq<Owner>, m1: Mem, o1: seq<Owner>, d: nat, va: nat, len: nat, k: nat, perm: nat)
    requires Filled(m0, o0, m1, o1, d, va / PGSIZE, k, perm) && IsDir(o0, d) && va + len <= WORD_LIMIT
    requires forall v :: Touches(v, va, len) <==> va / PGSIZE <= v < va / PGSIZE + k
    ensures RegionMapped(m0, o0, m1, d, va, len, perm)
  {
    hide Walk;
    forall v | 0 <= v < NPAGES
      ensures if Touches(v, va, len) && !Present(Walk(m0, d, v)) then FreshPte(o0, Walk(m1, d, v), perm)
              else Walk(m1, d, v) == Walk(m0, d, v)
    {
    }
    forall a | va <= a < va + len ensures PresentAt(m1, d, a) {
      assert Touches(a / PGSIZE, va, len);
    }
  }

  lemma FilledStep(m0: Mem, o0: seq<Owner>, m1: Mem, o1: seq<Owner>, m2: Mem, o2: seq<Owner>,
                   d: nat, first: nat, k: nat, f: nat, perm: nat)
    requires Filled(m0, o0, m1, o1, d, first, k, perm) && IsDir(o0, d) && first + k < NPAGES
    requires !Present(Walk(m1, d, first + k)) && Added(m1, o1, m2, o2, d, first + k, f, perm)
    ensures Filled(m0, o0, m2, o2, d, first, k + 1, perm)
  {
    hide Walk, MakePte;
    assert o0[f].Free?;
    assert FreshPte(o0, MakePte(PGSIZE * f, perm), perm);
  }

  lemma FilledKept(m0: Mem, o0: seq<Owner>, m1: Mem, o1: seq<Owner>, f1: seq<nat>, m2: Mem, o2: seq<Owner>,
                   f2: seq<nat>,
                   d: nat, first: nat, k: nat, perm: nat)
    requires Filled(m0, o0, m1, o1, d, first, k, perm) && IsDir(o0, d) && first + k < NPAGES
    requires Walked(m1, o1, f1, m2, o2, f2, d, first + k) && Present(Walk(m1, d, first + k))
    ensures Filled(m0, o0, m2, o2, d, first, k + 1, perm)
  {
  }

  /** Entry `e1` of the child maps a private copy of the page behind entry `e0` of the parent. */
  ghost predicate CopyOf(m0: Mem, o0: seq<Owner>, e0: nat, m1: Mem, o1: seq<Owner>, e1: nat, child: nat, v: nat) {
    && Present(e1) && PteFlags(e1) == PteFlags(e0)
    && Frame(e0) < |m0| && Frame(e1) < |m1| == |o1| == |o0|
    && o0[Frame(e1)].Free? && o1[Frame(e1)] == Mapped(child, v)
    && m1[Frame(e1)] == m0[Frame(e0)]
  }

  /** The first `k` pages of the new address space `child` are copies of the present pages
      of `parent`; above them there is only the kernel window. */
  ghost predicate Copied(m0: Mem, o0: seq<Owner>, m1: Mem, o1: seq<Owner>, parent: nat, child: nat,
                         data: nat, memBytes: nat, k: nat)
    requires KERNLINK <= data && memBytes <= HEAP_START - KERNBASE
  {
    && SameWalks(m0, o0, m1, o1) && Untouched(m0, o0, m1, o1, child, {})
    && IsDir(o0, parent) && !IsDir(o0, child) && IsDir(o1, child)
    && (forall v :: 0 <= v < NPAGES ==>
          if v >= k then Walk(m1, child, v) == KernelPte(data, memBytes, v)
          else if Present(Walk(m0, parent, v)) then
            CopyOf(m0, o0, Walk(m0, parent, v), m1, o1, Walk(m1, child, v), child, v)
          else Walk(m1, child, v) == 0)
  }

  lemma CopiedNone(m0: Mem, o0: seq<Owner>, m1: Mem, o1: seq<Owner>, parent: nat, child: nat, data: nat, memBytes: nat)
    requires KERNLINK <= data && memBytes <= HEAP_START - KERNBASE && IsDir(o0, parent)
    requires KvmUpTo(m0, o0, m1, o1, child, data, memBytes, PagesFor(memBytes))
    ensures Copied(m0, o0, m1, o1, parent, child, data, memBytes, 0)
  {
    hide Walk;
  }

  lemma CopiedHole(m0: Mem, o0: seq<Owner>, m1: Mem, o1: seq<Owner>, parent: nat, child: nat, data: nat,
                   memBytes: nat, k: nat)
    requires KERNLINK <= data && memBytes <= HEAP_START - KERNBASE && k < WINDOW_PAGE
    requires Copied(m0, o0, m1, o1, parent, child, data, memBytes, k) && !Present(Walk(m1, parent, k))
    ensures Copied(m0, o0, m1, o1, parent, child, data, memBytes, k + 1)
  {
    hide Walk;
  }

  lemma CopiedStep(m0: Mem, o0: seq<Owner>, m1: Mem, o1: seq<Owner>, m2: Mem, o2: seq<Owner>,
                   parent: nat, child: nat, data: nat, memBytes: nat, k: nat, f: nat)
    requires KERNLINK <= data && memBytes <= HEAP_START - KERNBASE && k < WINDOW_PAGE
    requires Copied(m0, o0, m1, o1, parent, child, data, memBytes, k)
    requires Present(Walk(m0, parent, k)) && Frame(Walk(m0, parent, k)) < |m0|
    requires o0[Frame(Walk(m0, parent, k))] == Mapped(parent, k)
    requires Added(m1, o1, m2, o2, child, k, f, PteFlags(Walk(m0, parent, k)))
    requires m2[f] == m0[Frame(Walk(m0, parent, k))]
    ensures Copied(m0, o0, m2, o2, parent, child, data, memBytes, k + 1)
  {
    hide Walk, MakePte, KernelPte;
    KvmUntouched(m0, o0, m1, o1, m2, o2, child);
    assert o0[f].Free?;
    forall v | 0 <= v < k && Present(Walk(m0, parent, v))
      ensures CopyOf(m0, o0, Walk(m0, parent, v), m2, o2, Walk(m2, child, v), child, v)
    {
      assert CopyOf(m0, o0, Walk(m0, parent, v), m1, o1, Walk(m1, child, v), child, v);
      assert Walk(m2, child, v) == Walk(m1, child, v);
    }
    CopiedNew(m0, o0, m1, o1, m2, o2, parent, child, k, f);
    AddedWalks(m0, o0, m1, o1, m2, o2, child, k, f, PteFlags(Walk(m0, parent, k)));
    hide Added, CopyOf, SameWalks, Untouched;
  }

  lemma AddedWalks(m0: Mem, o0: seq<Owner>, m1: Mem, o1: seq<Owner>, m2: Mem, o2: seq<Owner>, d: nat, v: nat, f: nat,
                   perm: nat)
    requires SameWalks(m0, o0, m1, o1) && !IsDir(o0, d) && IsDir(o1, d) && Added(m1, o1, m2, o2, d, v, f, perm)
    ensures SameWalks(m0, o0, m2, o2) && IsDir(o2, d)
    ensures forall w :: 0 <= w < NPAGES && w != v ==> Walk(m2, d, w) == Walk(m1, d, w)
  {
    hide Walk, MakePte;
  }

  /** The page just added is a copy. */
  lemma CopiedNew(m0: Mem, o0: seq<Owner>, m1: Mem, o1: seq<Owner>, m2: Mem, o2: seq<Owner>, parent: nat, child: nat,
                  k: nat, f: nat)
    requires IsDir(o0, parent) && IsDir(o1, child) && |m0| == |o0| == |o1| && k < NPAGES
    requires Present(Walk(m0, parent, k)) && Frame(Walk(m0, parent, k)) < |m0| && f < |o0| && o0[f].Free?
    requires Added(m1, o1, m2, o2, child, k, f, PteFlags(Walk(m0, parent, k)))
    requires m2[f] == m0[Frame(Walk(m0, parent, k))]
    ensures CopyOf(m0, o0, Walk(m0, parent, k), m2, o2, Walk(m2, child, k), child, k)
  {
    hide Walk, MakePte;
    var e := Walk(m0, parent, k);
    assert Walk(m2, child, k) == MakePte(PGSIZE * f, PteFlags(e));
    assert Present(PteFlags(e)) by { EntryBits(e / PGSIZE, PteFlags(e)); }
  }

  lemma FilledNone(m0: Mem, o0: seq<Owner>, d: nat, first: nat, perm: nat)
    requires |m0| == |o0| && perm < PGSIZE
    ensures Filled(m0, o0, m0, o0, d, first, 0, perm)
  {
  }

  lemma WalkedSame(m0: Mem, o0: seq<Owner>, f0: seq<nat>, m1: Mem, o1: seq<Owner>, f1: seq<nat>, d: nat, v: nat)
    requires Walked(m0, o0, f0, m1, o1, f1, d, v)
    ensures |m0| == |m1| && d < |m0| && Walk(m1, d, v) == Walk(m0, d, v)
  {
    hide Walk;
  }

  lemma FilledWalked(m0: Mem, o0: seq<Owner>, m1: Mem, o1: seq<Owner>, f1: seq<nat>, m2: Mem, o2: seq<Owner>,
                     f2: seq<nat>,
                     d: nat, first: nat, k: nat, perm: nat)
    requires Filled(m0, o0, m1, o1, d, first, k, perm) && Walked(m1, o1, f1, m2, o2, f2, d, first + k)
    ensures Filled(m0, o0, m2, o2, d, first, k, perm)
  {
    hide Walk;
  }

  /** Writing a held page. */
  lemma FillHeld(mem: Mem, owner: seq<Owner>, head: nat, free: seq<nat>, p: nat, pg: Page)
    requires Wf(mem, owner, head, free) && p < |mem| && owner[p].Held?
    ensures Wf(mem[p := pg], owner, head, free)
  {
    hide ChainOk, TablesOk, FramesOk, Walk, Entry;
    PlainWrite(mem, owner, p, pg, Held);
    assert owner[p := Held] == owner;
    ChainSame(mem, mem[p := pg], owner, head, free);
  }

  lemma SameWalksTrans(m0: Mem, o0: seq<Owner>, m1: Mem, o1: seq<Owner>, m2: Mem, o2: seq<Owner>)
    requires SameWalks(m0, o0, m1, o1) && SameWalks(m1, o1, m2, o2)
    ensures SameWalks(m0, o0, m2, o2)
  {
    hide Walk;
  }

  /** A run of one held page outside the window. */
  lemma OneHeld(owner: seq<Owner>, v: nat, f: nat, perm: nat)
    requires f < |owner| && owner[f].Held? && !Window(v)
    ensures RunHeld(owner, v, PGSIZE * f, 1, perm)
  {
  }

  /** mappages gave up before mapping the page `f` taken for it. */
  lemma NotAdded(m0: Mem, o0: seq<Owner>, m1: Mem, f1: seq<nat>, m2: Mem, o2: seq<Owner>, f2: seq<nat>,
                 d: nat, v: nat, f: nat, pg: Page, perm: nat)
    requires |m0| == |o0| && f < |o0| && o0[f].Free? && m1 == m0[f := pg]
    requires SameWalks(m0, o0, m1, o0[f := Held])
    requires Progress(m1, o0[f := Held], f1, m2, o2, f2, d, v, 0, PGSIZE * f, perm)
    ensures SameWalks(m0, o0, m2, o2) && Untouched(m0, o0, m2, o2, d, {}) && o2[f].Held? && m2[f] == pg
    ensures IsDir(o0, d) && (v < NPAGES ==> Walk(m1, d, v) == Walk(m0, d, v))
  {
    hide Walk, TablesTaken;
    assert forall d' :: IsDir(o0, d') <==> IsDir(o0[f := Held], d');
  }

  /** A page taken and given back leaves no trace in what was in use. */
  lemma GivenBack(m0: Mem, o0: seq<Owner>, m1: Mem, o1: seq<Owner>, m2: Mem, o2: seq<Owner>, d: nat, f: nat)
    requires SameWalks(m0, o0, m1, o1) && Untouched(m0, o0, m1, o1, d, {}) && f < |o0| && o0[f].Free?
    requires o2 == o1[f := Free] && SameWalks(m1, o1, m2, o2)
    requires forall q :: 0 <= q < |m1| && q != f ==> m2[q] == m1[q]
    ensures SameWalks(m0, o0, m2, o2) && Untouched(m0, o0, m2, o2, d, {})
  {
    hide Walk;
    SameWalksTrans(m0, o0, m1, o1, m2, o2);
  }

  // ---- tearing an address space down ---------------------------------------------------------

  /** Directory `d` given up: its pages are just held. */
  ghost function Release(owner: seq<Owner>, d: nat): seq<Owner> {
    seq(|owner|, p requires 0 <= p < |owner| =>
      if p == d || (owner[p].Table? && owner[p].dir == d) || (owner[p].Mapped? && owner[p].dir == d)
      then Held else owner[p])
  }

  /** Directory `d` given up and the tables of its first `n` slots free again. */
  ghost function Freed(owner: seq<Owner>, d: nat, n: nat): seq<Owner> {
    seq(|owner|, p requires 0 <= p < |owner| =>
      if owner[p].Table? && owner[p].dir == d && owner[p].slot < n then Free else Release(owner, d)[p])
  }

  lemma Released(mem: Mem, owner: seq<Owner>, head: nat, free: seq<nat>, d: nat)
    requires Wf(mem, owner, head, free) && IsDir(owner, d)
    ensures Wf(mem, Release(owner, d), head, free) && Freed(owner, d, 0) == Release(owner, d)
  {
    hide Walk, Entry, ChainOk;
    var r := Release(owner, d);
    assert forall d' :: IsDir(r, d') <==> IsDir(owner, d') && d' != d;
  }

  /** The only table of slot `i` is the one its directory entry names. */
  lemma TableUnique(mem: Mem, owner: seq<Owner>, head: nat, free: seq<nat>, d: nat, i: nat)
    requires Wf(mem, owner, head, free) && IsDir(owner, d) && i < 1024
    ensures forall p :: 0 <= p < |owner| && owner[p] == Table(d, i) ==>
              Present(Entry(mem[d], i)) && p == Frame(Entry(mem[d], i))
    ensures forall p :: 0 <= p < |owner| && owner[p].Table? ==> owner[p].slot < 1024
  {
  }

  lemma FreedStep(owner: seq<Owner>, d: nat, n: nat, t: nat)
    ensures (forall p :: 0 <= p < |owner| && owner[p] == Table(d, n) ==> p == t) && t < |owner|
            && owner[t] == Table(d, n) ==>
              Freed(owner, d, n)[t].Held? && Freed(owner, d, n + 1) == Freed(owner, d, n)[t := Free]
    ensures (forall p :: 0 <= p < |owner| ==> owner[p] != Table(d, n)) ==> Freed(owner, d, n + 1) == Freed(owner, d, n)
  {
  }

  /** A page that is no directory owns nothing. */
  lemma NothingOf(mem: Mem, owner: seq<Owner>, head: nat, free: seq<nat>, c: nat)
    requires Wf(mem, owner, head, free) && c < |owner| && owner[c].Free?
    ensures forall p :: 0 <= p < |owner| && owner[p].Table? ==> owner[p].dir != c
    ensures forall p :: 0 <= p < |owner| && owner[p].Mapped? ==> owner[p].dir != c
    ensures !IsDir(owner, c)
  {
    hide ChainOk, FreeOk, Walk, Entry;
  }

  /** Work on a directory made of a free page touches nothing that was in use. */
  lemma UntouchedAll(m0: Mem, o0: seq<Owner>, head: nat, free: seq<nat>, m1: Mem, o1: seq<Owner>, c: nat)
    requires Wf(m0, o0, head, free) && c < |o0| && o0[c].Free? && Untouched(m0, o0, m1, o1, c, {})
    ensures Untouched(m0, o0, m1, o1, -1, {})
  {
    hide Wf;
    NothingOf(m0, o0, head, free, c);
  }

  /** A directory built on a free page and torn down again leaves what was in use as it was. */
  lemma TornDown(m0: Mem, o0: seq<Owner>, head: nat, free: seq<nat>, m1: Mem, o1: seq<Owner>, m2: Mem, o2: seq<Owner>,
                 c: nat)
    requires Wf(m0, o0, head, free) && c < |o0| && o0[c].Free?
    requires SameWalks(m0, o0, m1, o1) && Untouched(m0, o0, m1, o1, c, {})
    requires |m2| == |m1| && o2 == Freed(o1, c, 1024)[c := Free] && SameWalks(m1, Release(o1, c), m2, o2)
    requires forall p :: 0 <= p < |m2| && !Belongs(o1, p, c) ==> m2[p] == m1[p]
    ensures SameWalks(m0, o0, m2, o2) && Untouched(m0, o0, m2, o2, -1, {})
  {
    hide Wf, Walk;
    NothingOf(m0, o0, head, free, c);
    assert forall d :: IsDir(o0, d) ==> IsDir(Release(o1, c), d);
    assert forall p :: 0 <= p < |o0| && !o0[p].Free? ==> o1[p] == o0[p] && p != c;
  }

  /** The next page to copy: the parent's tables and frames are as they were, and the
      child has nothing there yet. */
  lemma CopiedParent(m0: Mem, o0: seq<Owner>, head0: nat, free0: seq<nat>, m1: Mem, o1: seq<Owner>,
                     parent: nat, child: nat, data: nat, memBytes: nat, k: nat)
    requires KERNLINK <= data && memBytes <= HEAP_START - KERNBASE && k < WINDOW_PAGE
    requires Copied(m0, o0, m1, o1, parent, child, data, memBytes, k) && Wf(m0, o0, head0, free0)
    ensures parent != child && IsDir(o1, parent) && |m0| == |m1| == |o0| == |o1| && m1[parent] == m0[parent]
    ensures Walk(m1, parent, k) == Walk(m0, parent, k) && Walk(m1, child, k) == 0
    ensures Present(Walk(m0, parent, k)) ==>
              var f := Frame(Walk(m0, parent, k));
              f < |m0| && o0[f] == o1[f] == Mapped(parent, k) && m1[f] == m0[f]
  {
    hide Wf, Walk;
    assert !Belongs(o0, parent, child);
    if Present(Walk(m0, parent, k)) {
      FrameOf(m0, o0, head0, free0, parent, k);
    }
  }

  /** Page `v` has a page table. */
  predicate Tabled(mem: Mem, d: nat, v: nat)
    requires d < |mem| && v < NPAGES
  {
    Present(Entry(mem[d], v / 1024))
  }

  lemma CopiedUntouched(m0: Mem, o0: seq<Owner>, head: nat, free: seq<nat>, m1: Mem, o1: seq<Owner>,
                        parent: nat, child: nat, data: nat, memBytes: nat, k: nat)
    requires KERNLINK <= data && memBytes <= HEAP_START - KERNBASE
    requires Copied(m0, o0, m1, o1, parent, child, data, memBytes, k) && Wf(m0, o0, head, free) && child < |o0|
    requires o0[child].Free?
    ensures SameWalks(m0, o0, m1, o1) && Untouched(m0, o0, m1, o1, -1, {})
  {
    hide Wf, Walk, SameWalks, Untouched;
    UntouchedAll(m0, o0, head, free, m1, o1, child);
  }

  lemma CopiedFailed(m0: Mem, o0: seq<Owner>, m1: Mem, o1: seq<Owner>, m2: Mem, o2: seq<Owner>,
                     parent: nat, child: nat, data: nat, memBytes: nat, k: nat)
    requires KERNLINK <= data && memBytes <= HEAP_START - KERNBASE
    requires Copied(m0, o0, m1, o1, parent, child, data, memBytes, k)
    requires SameWalks(m1, o1, m2, o2) && Untouched(m1, o1, m2, o2, child, {})
    ensures SameWalks(m0, o0, m2, o2) && Untouched(m0, o0, m2, o2, child, {})
  {
    hide Walk, Untouched, SameWalks;
    SameWalksTrans(m0, o0, m1, o1, m2, o2);
    KvmUntouched(m0, o0, m1, o1, m2, o2, child);
  }

  /** `pg` is a copy of page `v` of `parent`. */
  ghost predicate CopyAt(m0: Mem, parent: nat, v: nat, pg: Page) {
    && parent < |m0| && v < NPAGES && Present(Walk(m0, parent, v)) && Frame(Walk(m0, parent, v)) < |m0|
    && pg == m0[Frame(Walk(m0, parent, v))]
  }

  lemma CopyHere(m0: Mem, parent: nat, v: nat, pg: Page)
    requires parent < |m0| && v < NPAGES && Present(Walk(m0, parent, v)) && Frame(Walk(m0, parent, v)) < |m0|
    requires pg == m0[Frame(Walk(m0, parent, v))]
    ensures CopyAt(m0, parent, v, pg)
  {
  }

  /** What the pages that were free are used for while `child` is being filled: its directory,
      its tables, and the pages it maps. */
  ghost predicate Accounted(o0: seq<Owner>, o1: seq<Owner>, child: nat) {
    && |o0| == |o1|
    && (forall p :: 0 <= p < |o0| && o0[p].Free? && p != child ==>
          o1[p].Free? || (o1[p].Table? && o1[p].dir == child) || (o1[p].Mapped? && o1[p].dir == child))
  }

  lemma AccountedNone(o0: seq<Owner>, o1: seq<Owner>, child: nat)
    requires Spent(o0, o1, child, {child})
    ensures Accounted(o0, o1, child)
  {
  }

  lemma AccountedStep(o0: seq<Owner>, m1: Mem, o1: seq<Owner>, m2: Mem, o2: seq<Owner>,
                      child: nat, k: nat, f: nat, perm: nat)
    requires Accounted(o0, o1, child) && Spent(o1, o2, child, {f}) && Added(m1, o1, m2, o2, child, k, f, perm)
    ensures Accounted(o0, o2, child)
  {
    hide OneEntry, MakePte;
  }

  /** Page `q` was free, was taken for a copy of page `v` of `parent`, and is not given back. */
  ghost predicate LostTo(m0: Mem, o0: seq<Owner>, m3: Mem, o3: seq<Owner>, parent: nat, v: nat, q: nat) {
    q < |o0| == |m3| == |o3| && o0[q].Free? && o3[q].Held? && CopyAt(m0, parent, v, m3[q])
  }

  /** The pages lost are those taken for copies, one for each present page of `parent` below `k`
      and perhaps one for page `k`; every other page that was free is free again. */
  ghost predicate Leaked(m0: Mem, o0: seq<Owner>, m3: Mem, o3: seq<Owner>, parent: nat, k: nat, lost: map<nat, nat>) {
    && parent < |m0| && k < NPAGES && |o0| == |o3|
    && (forall v :: 0 <= v < k && Present(Walk(m0, parent, v)) ==> v in lost)
    && (forall v :: v in lost ==> v <= k && LostTo(m0, o0, m3, o3, parent, v, lost[v]))
    && (forall v, w :: v in lost && w in lost && lost[v] == lost[w] ==> v == w)
    && (forall q :: 0 <= q < |o0| && o0[q].Free? && !o3[q].Free? ==> exists v :: v in lost && lost[v] == q)
  }

  /** The copies of the first `k` pages, frame by frame. */
  ghost function Copies(m0: Mem, m1: Mem, parent: nat, child: nat, k: nat): map<nat, nat>
    requires parent < |m0| && child < |m1| && k <= NPAGES
  {
    map v: nat | v < k && Present(Walk(m0, parent, v)) :: Frame(Walk(m1, child, v))
  }

  /** The copies and the pages the child maps are the same. */
  lemma CopiesAll(m0: Mem, o0: seq<Owner>, m1: Mem, o1: seq<Owner>, head: nat, free: seq<nat>,
                  parent: nat, child: nat, data: nat, memBytes: nat, k: nat)
    requires KERNLINK <= data && memBytes <= HEAP_START - KERNBASE && k <= WINDOW_PAGE
    requires Copied(m0, o0, m1, o1, parent, child, data, memBytes, k) && Wf(m1, o1, head, free)
    ensures |m0| == |o0| == |m1| == |o1| && parent < |m0| && child < |m1|
    ensures
      var cs := Copies(m0, m1, parent, child, k);
      && (forall v :: v in cs ==> cs[v] < |o1| && o0[cs[v]].Free? && o1[cs[v]] == Mapped(child, v)
                                  && CopyAt(m0, parent, v, m1[cs[v]]))
      && (forall q :: 0 <= q < |o1| && o1[q].Mapped? && o1[q].dir == child ==>
            o1[q].vpage in cs && cs[o1[q].vpage] == q)
  {
    hide Walk, KernelPte, Untouched;
    var cs := Copies(m0, m1, parent, child, k);
    forall v | v in cs
      ensures cs[v] < |o1| && o0[cs[v]].Free? && o1[cs[v]] == Mapped(child, v) && CopyAt(m0, parent, v, m1[cs[v]])
    {
      assert CopyOf(m0, o0, Walk(m0, parent, v), m1, o1, Walk(m1, child, v), child, v);
    }
    forall q | 0 <= q < |o1| && o1[q].Mapped? && o1[q].dir == child
      ensures o1[q].vpage in cs && cs[o1[q].vpage] == q
    {
      MappedAt(m1, o1, head, free, q);
    }
  }

  lemma MappedAt(mem: Mem, owner: seq<Owner>, head: nat, free: seq<nat>, q: nat)
    requires Wf(mem, owner, head, free) && q < |owner| && owner[q].Mapped?
    ensures
      var d, v := owner[q].dir, owner[q].vpage;
      IsDir(owner, d) && v < NPAGES && !Window(v) && Present(Walk(mem, d, v)) && Frame(Walk(mem, d, v)) == q
  {
  }

  /** What is lost when memory runs out at page `k`: the copies made so far, and the frame `f` if
      one was taken for page `k` (it is negative if not). */
  lemma LostPages(m0: Mem, o0: seq<Owner>, m1: Mem, o1: seq<Owner>, h1: nat, f1: seq<nat>,
                  m2: Mem, o2: seq<Owner>, h2: nat, f2: seq<nat>, m3: Mem, o3: seq<Owner>,
                  parent: nat, child: nat, data: nat, memBytes: nat, k: nat, f: int) returns (lost: map<nat, nat>)
    requires KERNLINK <= data && memBytes <= HEAP_START - KERNBASE && k < WINDOW_PAGE
    requires Copied(m0, o0, m1, o1, parent, child, data, memBytes, k) && Accounted(o0, o1, child)
    requires Wf(m1, o1, h1, f1) && Wf(m2, o2, h2, f2) && |m3| == |m2| == |m1| && child < |o2|
    requires Spent(o1, o2, child, {f}) && Untouched(m1, o1, m2, o2, child, {})
    requires 0 <= f ==> f < |o0| && o0[f].Free? && f < |o1| && o1[f].Free? && f < |o2| && o2[f].Held?
    requires 0 <= f ==> CopyAt(m0, parent, k, m2[f])
    requires o3 == Freed(o2, child, 1024)[child := Free]
    requires forall p :: 0 <= p < |m3| && !Belongs(o2, p, child) ==> m3[p] == m2[p]
    ensures Leaked(m0, o0, m3, o3, parent, k, lost)
  {
    hide CopyAt, Wf, Copied, Walk, Copies;
    CopiedDirs(m0, o0, m1, o1, parent, child, data, memBytes, k);
    CopiesAll(m0, o0, m1, o1, h1, f1, parent, child, data, memBytes, k);
    var cs := Copies(m0, m1, parent, child, k);
    CopiesOf(m0, m1, parent, child, k);
    lost := if f < 0 then cs else cs[k := f];
    SlotsBelow(m2, o2, h2, f2);
    forall v | v in lost ensures v <= k && LostTo(m0, o0, m3, o3, parent, v, lost[v]) {
      assert !Belongs(o1, lost[v], child) && !Belongs(o2, lost[v], child);
    }
    forall q | 0 <= q < |o0| && o0[q].Free? && !o3[q].Free? ensures exists v :: v in lost && lost[v] == q {
      if q == f {
        assert k in lost && lost[k] == q;
      } else {
        assert q != child && o1[q].Mapped?;
        var v := o1[q].vpage;
        assert v in lost && lost[v] == q;
      }
    }
  }

  lemma CopiesOf(m0: Mem, m1: Mem, parent: nat, child: nat, k: nat)
    requires parent < |m0| && child < |m1| && k <= NPAGES
    ensures forall v :: v in Copies(m0, m1, parent, child, k) ==> v < k
    ensures forall v :: 0 <= v < k && Present(Walk(m0, parent, v)) ==> v in Copies(m0, m1, parent, child, k)
  {
    hide Walk;
  }

  /** What is free while the child is being filled was free at the start. */
  lemma CopiedFree(m0: Mem, o0: seq<Owner>, m1: Mem, o1: seq<Owner>, parent: nat, child: nat, data: nat, memBytes: nat,
                   k: nat)
    requires KERNLINK <= data && memBytes <= HEAP_START - KERNBASE
    requires Copied(m0, o0, m1, o1, parent, child, data, memBytes, k)
    ensures |o0| == |o1| && forall q :: 0 <= q < |o1| && o1[q].Free? ==> o0[q].Free?
  {
    hide Walk, KernelPte;
  }

  lemma SlotsBelow(mem: Mem, owner: seq<Owner>, head: nat, free: seq<nat>)
    requires Wf(mem, owner, head, free)
    ensures forall p :: 0 <= p < |owner| && owner[p].Table? ==> owner[p].slot < 1024
  {
  }

  lemma CopiedDirs(m0: Mem, o0: seq<Owner>, m1: Mem, o1: seq<Owner>, parent: nat, child: nat, data: nat,
                   memBytes: nat, k: nat)
    requires KERNLINK <= data && memBytes <= HEAP_START - KERNBASE
    requires Copied(m0, o0, m1, o1, parent, child, data, memBytes, k)
    ensures IsDir(o1, parent) && IsDir(o1, child)
  {
  }

  lemma WalksEqual(m0: Mem, o0: seq<Owner>, m1: Mem, o1: seq<Owner>, d: nat, v: nat)
    requires SameWalks(m0, o0, m1, o1) && IsDir(o0, d) && v < NPAGES
    ensures |m0| == |m1| && Walk(m1, d, v) == Walk(m0, d, v)
  {
  }
}

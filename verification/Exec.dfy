/** The argument block that exec builds on the user stack (kern/exec.c). */
module Exec {
  import opened Bytes
  import opened PageTables
  import opened AddressSpace
  import opened Mm

  const USTACKTOP := KERNBASE
  const MAXARGS := 16

  /** How the argument set-up ended: done, refused, or dereferencing a missing page table. */
  datatype SetupResult = Ready | Refused | Crashed

  /** The user memory of `d` holds `s` at `a`. */
  ghost predicate UserHolds(mem: Mem, d: nat, a: nat, s: seq<Byte>) {
    forall k :: 0 <= k < |s| ==> HoldsByte(mem, d, a + k, s[k])
  }

  predicate HoldsByte(mem: Mem, d: nat, a: nat, b: Byte) {
    Backed(mem, d, a / PGSIZE) && ByteAt(mem, d, a) == b
  }

  /** A copyout that went through is there to be read back. */
  lemma {:induction false} HoldsNew(m0: Mem, m1: Mem, owner: seq<Owner>, head: nat, free: seq<nat>, d: nat, va: nat,
                                    s: seq<Byte>)
    requires Wf(m0, owner, head, free) && SameWalks(m0, owner, m1, owner) && IsDir(owner, d)
    requires FlatWrite(m0, m1, owner, d, va, s) && UserRange(m0, d, va, |s|)
    ensures UserHolds(m1, d, va, s)
  {
    hide Wf, Walk, FlatWrite, SameWalks;
    forall k | 0 <= k < |s| ensures HoldsByte(m1, d, va + k, s[k]) {
      ReadAfterWrite(m0, m1, owner, head, free, d, va, s, d, va + k);
    }
  }

  /** A write elsewhere leaves what the memory holds. */
  lemma {:induction false} HoldsKept(m0: Mem, m1: Mem, owner: seq<Owner>, head: nat, free: seq<nat>, d: nat, va: nat,
                                     s: seq<Byte>,
                  a: nat, t: seq<Byte>)
    requires Wf(m0, owner, head, free) && SameWalks(m0, owner, m1, owner) && IsDir(owner, d)
    requires FlatWrite(m0, m1, owner, d, va, s) && UserHolds(m0, d, a, t) && va + |s| <= a
    ensures UserHolds(m1, d, a, t)
  {
    hide Wf, Walk, FlatWrite, SameWalks;
    forall k | 0 <= k < |t| ensures HoldsByte(m1, d, a + k, t[k]) {
      assert HoldsByte(m0, d, a + k, t[k]);
      ReadAfterWrite(m0, m1, owner, head, free, d, va, s, d, a + k);
    }
  }

  // ---- layout -----------------------------------------------------------------------

  /** Stack bytes for the first `i` strings: terminator and alignment included. */
  function Need(argv: seq<seq<Byte>>, i: nat): nat
    requires i <= |argv|
  {
    if i == 0 then 0 else Need(argv, i - 1) + |argv[i - 1]| + 4
  }

  /** Stack pointer after pushing the first `i` strings. */
  function Top(argv: seq<seq<Byte>>, i: nat): (sp: nat)
    requires i <= |argv| && Need(argv, i) <= USTACKTOP
    ensures USTACKTOP - Need(argv, i) <= sp <= USTACKTOP && sp % 4 == 0
  {
    if i == 0 then USTACKTOP
    else
      var a := Top(argv, i - 1) - (|argv[i - 1]| + 1);
      a - a % 4
  }

  /** Strings do not run into each other. */
  lemma {:induction false} TopApart(argv: seq<seq<Byte>>, i: nat, j: nat)
    requires i < j <= |argv| && Need(argv, j) <= USTACKTOP
    ensures Need(argv, i + 1) <= USTACKTOP && Need(argv, i) <= USTACKTOP
    ensures Top(argv, j) <= Top(argv, i + 1) && Top(argv, i + 1) + |argv[i]| + 1 <= Top(argv, i)
    decreases j
  {
    if i + 1 < j {
      TopApart(argv, i, j - 1);
    }
  }

  function Pointers(argv: seq<seq<Byte>>): (ps: seq<nat>)
    requires Need(argv, |argv|) <= USTACKTOP
    ensures |ps| == |argv|
    ensures forall i :: 0 <= i < |argv| ==> Need(argv, i + 1) <= USTACKTOP && ps[i] == Top(argv, i + 1)
  {
    NeedMono(argv);
    seq(|argv|, i requires 0 <= i < |argv| => assert Need(argv, i + 1) <= USTACKTOP; Top(argv, i + 1))
  }

  /** The words of the block at the bottom: count, vector address, pointers, null. */
  function Words(argv: seq<seq<Byte>>): (ws: seq<nat>)
    requires |argv| <= MAXARGS && Need(argv, |argv|) <= USTACKTOP
    requires Need(argv, |argv|) + 4 * (|argv| + 3) <= USTACKTOP
    ensures |ws| == |argv| + 3 && forall i :: 0 <= i < |ws| ==> ws[i] < WORD_LIMIT
  {
    [|argv|, Top(argv, |argv|) - 4 * (|argv| + 1)] + Pointers(argv) + [0]
  }

  lemma {:induction false} NeedMono(argv: seq<seq<Byte>>)
    ensures forall i :: 0 <= i <= |argv| ==> Need(argv, i) <= Need(argv, |argv|)
  {
    forall i | 0 <= i <= |argv| ensures Need(argv, i) <= Need(argv, |argv|) {
      NeedLe(argv, i, |argv|);
    }
  }

  lemma {:induction false} NeedLe(argv: seq<seq<Byte>>, i: nat, j: nat)
    requires i <= j <= |argv|
    ensures Need(argv, i) <= Need(argv, j)
    decreases j
  {
    if i < j { NeedLe(argv, i, j - 1); }
  }

  function WordsBytes(ws: seq<nat>): (s: seq<Byte>)
    requires forall i :: 0 <= i < |ws| ==> ws[i] < WORD_LIMIT
    ensures |s| == 4 * |ws|
  {
    if ws == [] then [] else WordBytes(ws[0]) + WordsBytes(ws[1..])
  }

  lemma {:induction false} WordsBytesAt(ws: seq<nat>, i: nat)
    requires i < |ws| && forall j :: 0 <= j < |ws| ==> ws[j] < WORD_LIMIT
    ensures WordsBytes(ws)[4 * i..4 * i + 4] == WordBytes(ws[i])
  {
    var s := WordsBytes(ws);
    if i > 0 {
      WordsBytesAt(ws[1..], i - 1);
      assert s[4 * i..4 * i + 4] == WordsBytes(ws[1..])[4 * (i - 1)..4 * (i - 1) + 4];
    } else {
      assert s[0..4] == WordBytes(ws[0]);
    }
  }

  // ---- the block on the stack ------------------------------------------------------------

  ghost predicate HoldsWord(mem: Mem, d: nat, a: nat, w: nat) {
    w < WORD_LIMIT && UserHolds(mem, d, a, WordBytes(w))
  }

  /** What a program finds at its initial stack pointer: the argument count, the address of
      the pointer vector behind it, the pointers closed by a null word, and each string,
      terminated, in a place of its own above the block. */
  ghost predicate Decodes(mem: Mem, d: nat, sp: nat, argv: seq<seq<Byte>>, ptrs: seq<nat>) {
    && |ptrs| == |argv| && sp % 4 == 0
    && HoldsWord(mem, d, sp, |argv|) && HoldsWord(mem, d, sp + 4, sp + 8)
    && (forall i :: 0 <= i < |argv| ==> HoldsWord(mem, d, sp + 8 + 4 * i, ptrs[i]))
    && HoldsWord(mem, d, sp + 8 + 4 * |argv|, 0)
    && (forall i :: 0 <= i < |argv| ==> UserHolds(mem, d, ptrs[i], argv[i] + [0]))
    && (forall i :: 0 <= i < |argv| ==> sp + 4 * (|argv| + 3) <= ptrs[i] && ptrs[i] + |argv[i]| + 1 <= USTACKTOP)
    && (forall i, j :: 0 <= i < j < |argv| ==> ptrs[j] + |argv[j]| + 1 <= ptrs[i])
    && Packed(sp, argv, ptrs)
  }

  /** Each string lies at the highest multiple of four that leaves room for it below the one before,
      and the block of words directly below the last. */
  ghost predicate Packed(sp: nat, argv: seq<seq<Byte>>, ptrs: seq<nat>)
    requires |ptrs| == |argv|
  {
    && (forall i :: 0 <= i < |argv| ==> PackedAt(argv, ptrs, i))
    && sp + 4 * (|argv| + 3) == (if argv == [] then USTACKTOP else ptrs[|argv| - 1])
  }

  ghost predicate PackedAt(argv: seq<seq<Byte>>, ptrs: seq<nat>, i: nat)
    requires |ptrs| == |argv| && i < |argv|
  {
    var above := if i == 0 then USTACKTOP else ptrs[i - 1];
    ptrs[i] % 4 == 0 && ptrs[i] + |argv[i]| + 1 <= above < ptrs[i] + |argv[i]| + 5
  }

  lemma {:induction false} HoldsSlice(mem: Mem, d: nat, a: nat, s: seq<Byte>, o: nat, t: seq<Byte>)
    requires UserHolds(mem, d, a, s) && o + |t| <= |s| && s[o..o + |t|] == t
    ensures UserHolds(mem, d, a + o, t)
  {
    forall k | 0 <= k < |t| ensures HoldsByte(mem, d, a + o + k, t[k]) {
      assert HoldsByte(mem, d, a + (o + k), s[o + k]);
    }
  }

  lemma {:induction false} HoldsWords(mem: Mem, d: nat, a: nat, ws: seq<nat>, i: nat)
    requires i < |ws| && (forall j :: 0 <= j < |ws| ==> ws[j] < WORD_LIMIT) && UserHolds(mem, d, a, WordsBytes(ws))
    ensures HoldsWord(mem, d, a + 4 * i, ws[i])
  {
    WordsBytesAt(ws, i);
    HoldsSlice(mem, d, a, WordsBytes(ws), 4 * i, WordBytes(ws[i]));
  }

  lemma {:induction false} PackedPointers(argv: seq<seq<Byte>>)
    requires Need(argv, |argv|) + 4 * (|argv| + 3) <= USTACKTOP
    ensures Packed(Top(argv, |argv|) - 4 * (|argv| + 3), argv, Pointers(argv))
  {
    hide Top, Need;
    var ps := Pointers(argv);
    NeedMono(argv);
    TopZero(argv);
    forall i | 0 <= i < |argv| ensures PackedAt(argv, ps, i) {
      TopNext(argv, i);
    }
  }

  /** The strings and the block of words make the picture a program expects. */
  lemma {:induction false} BlockDecodes(mem: Mem, d: nat, argv: seq<seq<Byte>>)
    requires |argv| <= MAXARGS && Need(argv, |argv|) + 4 * (|argv| + 3) <= USTACKTOP
    requires forall i :: 0 <= i < |argv| ==> UserHolds(mem, d, Pointers(argv)[i], argv[i] + [0])
    requires UserHolds(mem, d, Top(argv, |argv|) - 4 * (|argv| + 3), WordsBytes(Words(argv)))
    ensures Decodes(mem, d, Top(argv, |argv|) - 4 * (|argv| + 3), argv, Pointers(argv))
  {
    hide UserHolds, WordsBytes, WordBytes, Top, Need, Packed;
    var n, sp, ws, ps := |argv|, Top(argv, |argv|) - 4 * (|argv| + 3), Words(argv), Pointers(argv);
    HoldsWords(mem, d, sp, ws, 0);
    HoldsWords(mem, d, sp, ws, 1);
    HoldsWords(mem, d, sp, ws, n + 2);
    forall i | 0 <= i < n
      ensures HoldsWord(mem, d, sp + 8 + 4 * i, ps[i]) && sp + 4 * (n + 3) <= ps[i]
              && ps[i] + |argv[i]| + 1 <= USTACKTOP
    {
      HoldsWords(mem, d, sp, ws, i + 2);
      assert ws[i + 2] == ps[i];
      TopApart(argv, i, n);
    }
    forall i, j | 0 <= i < j < n ensures ps[j] + |argv[j]| + 1 <= ps[i] {
      TopApart(argv, j, n);
      NeedMono(argv);
      TopApart(argv, i, j);
    }
    PackedPointers(argv);
  }

  /** Where write `i` of the set-up goes: string `i`, and the block of words after the last. */
  function WriteAt(argv: seq<seq<Byte>>, i: nat): nat
    requires Need(argv, |argv|) + 4 * (|argv| + 3) <= USTACKTOP && i <= |argv|
  {
    NeedMono(argv);
    if i < |argv| then Top(argv, i + 1) else Top(argv, |argv|) - 4 * (|argv| + 3)
  }

  function WriteLen(argv: seq<seq<Byte>>, i: nat): nat
    requires i <= |argv|
  {
    if i < |argv| then |argv[i]| + 1 else 4 * (|argv| + 3)
  }

  /** User mode may access the first `n` addresses of write `i`. */
  ghost predicate OpenTo(mem: Mem, d: nat, argv: seq<seq<Byte>>, i: nat, n: nat)
    requires Need(argv, |argv|) + 4 * (|argv| + 3) <= USTACKTOP && i <= |argv|
  {
    forall a :: WriteAt(argv, i) <= a < WriteAt(argv, i) + n ==> UserAt(mem, d, a)
  }

  /** The first `i` writes are open. */
  ghost predicate OpenBelow(mem: Mem, d: nat, argv: seq<seq<Byte>>, i: nat)
    requires Need(argv, |argv|) + 4 * (|argv| + 3) <= USTACKTOP && i <= |argv| + 1
  {
    forall j :: 0 <= j < i ==> OpenTo(mem, d, argv, j, WriteLen(argv, j))
  }

  /** Why the set-up stops at write `i`: there are too many arguments; or byte `n` of the write is the
      first that user mode may not access, and then it crashes exactly if there is no page table. */
  ghost predicate Stops(r: SetupResult, mem: Mem, d: nat, argv: seq<seq<Byte>>, i: nat, n: nat)
    requires Need(argv, |argv|) + 4 * (|argv| + 3) <= USTACKTOP
  {
    && d < |mem| && i <= |argv| && i <= MAXARGS && OpenBelow(mem, d, argv, i)
    && if i < |argv| && i == MAXARGS then r == Refused
       else
         && n < WriteLen(argv, i) && OpenTo(mem, d, argv, i, n) && WriteAt(argv, i) + n < USTACKTOP
         && !UserAt(mem, d, WriteAt(argv, i) + n)
         && r == if Tabled(mem, d, (WriteAt(argv, i) + n) / PGSIZE) then Refused else Crashed
  }

  /** The loop that copies the strings out, noting their addresses in `ustack`. */
  method PushStrings(mm: Mmu, pgdir: nat, argv: seq<seq<Byte>>, ustack: array<nat>)
    returns (r: SetupResult, sp: nat, ghost i: nat, ghost n: nat)
    requires mm.Valid() && mm.DirAt(pgdir) && Need(argv, |argv|) + 4 * (|argv| + 3) <= USTACKTOP
    requires ustack.Length == 2 + MAXARGS + 1
    modifies mm, ustack
    ensures mm.Valid() && mm.DirAt(pgdir) && mm.owner == old(mm.owner) && mm.free == old(mm.free)
    ensures SameWalks(old(mm.mem), mm.owner, mm.mem, mm.owner)
    ensures r == Ready ==>
              && |argv| <= MAXARGS && sp == Top(argv, |argv|) && ustack[2..2 + |argv|] == Pointers(argv)
              && forall j :: 0 <= j < |argv| ==> UserHolds(mm.mem, PageOf(pgdir), Pointers(argv)[j], argv[j] + [0])
    ensures PageOf(pgdir) < |mm.mem| == |old(mm.mem)| && mm.mem[PageOf(pgdir)] == old(mm.mem)[PageOf(pgdir)]
    ensures if r == Ready then OpenBelow(old(mm.mem), PageOf(pgdir), argv, |argv|)
            else Stops(r, old(mm.mem), PageOf(pgdir), argv, i, n)
  {
    hide Wf, Walk, FlatWrite, SameWalks, UserHolds, UserRange, PageOf, Need, Top, UserPage, Entry, OpenTo, OpenBelow,
         Stops, WriteAt, WriteLen;
    i, n := 0, 0;
    OpenNone(mm.mem, PageOf(pgdir), argv);
    ghost var d, m0, owner := PageOf(pgdir), mm.mem, mm.owner;
    NeedMono(argv);
    Unchanged(mm.mem, mm.owner, d);
    sp := USTACKTOP;
    TopZero(argv);
    var argc := 0;
    while argc < |argv|
      invariant 0 <= argc <= |argv| && argc <= MAXARGS && sp == Top(argv, argc)
      invariant mm.Valid() && mm.DirAt(pgdir) && mm.owner == owner && mm.free == old(mm.free)
      invariant SameWalks(m0, owner, mm.mem, owner)
      invariant ustack[2..2 + argc] == Pointers(argv)[..argc]
      invariant forall j :: 0 <= j < argc ==> UserHolds(mm.mem, d, Pointers(argv)[j], argv[j] + [0])
      invariant d < |mm.mem| == |m0| && mm.mem[d] == m0[d] && OpenBelow(m0, d, argv, argc)
    {
      if argc >= MAXARGS {
        TooMany(m0, d, argv);
        return Refused, sp, argc, 0;
      }
      TopNext(argv, argc);
      Writes(argv, argc);
      ghost var m1, h1 := mm.mem, mm.freeList;
      sp := (sp - (|argv[argc]| + 1)) / 4 * 4;
      var c;
      c, n := mm.Copyout(pgdir, sp, argv[argc] + [0]);
      FlatDir(m1, mm.mem, owner, d, sp, (argv[argc] + [0])[..n], d);
      if c != CopyDone {
        SameWalksTrans(m0, owner, m1, owner, mm.mem, owner);
        StillNotUser(m0, m1, owner, d, sp + n);
        r := if c == NullPte then Crashed else Refused;
        StopsAt(r, m0, m1, owner, d, argv, argc, n);
        return r, sp, argc, n;
      }
      OpenMore(m0, m1, owner, d, argv, argc);
      PushString(m0, m1, mm.mem, owner, h1, mm.free, d, argv, argc);
      ustack[2 + argc] := sp;
      argc := argc + 1;
    }
    r := Ready;
  }

  /** exec's argument set-up. */
  method SetupArgs(mm: Mmu, pgdir: nat, argv: seq<seq<Byte>>)
    returns (r: SetupResult, sp: nat, ghost i: nat, ghost n: nat)
    requires mm.Valid() && mm.DirAt(pgdir) && Need(argv, |argv|) + 4 * (|argv| + 3) <= USTACKTOP
    modifies mm
    ensures mm.Valid() && mm.owner == old(mm.owner) && mm.free == old(mm.free)
    ensures SameWalks(old(mm.mem), mm.owner, mm.mem, mm.owner)
    ensures r == Ready ==>
              |argv| <= MAXARGS && sp == Top(argv, |argv|) - 4 * (|argv| + 3)
              && Decodes(mm.mem, PageOf(pgdir), sp, argv, Pointers(argv))
    ensures if r == Ready then OpenBelow(old(mm.mem), PageOf(pgdir), argv, |argv| + 1)
            else Stops(r, old(mm.mem), PageOf(pgdir), argv, i, n)
  {
    hide Wf, Walk, FlatWrite, SameWalks, UserHolds, UserRange, PageOf, Need, Top, UserPage, Entry, WordsBytes, Decodes,
         OpenTo, OpenBelow, Stops, WriteAt, WriteLen;
    ghost var d, m0, owner := PageOf(pgdir), mm.mem, mm.owner;
    var ustack := new nat[2 + MAXARGS + 1];
    r, sp, i, n := PushStrings(mm, pgdir, argv, ustack);
    if r != Ready {
      return;
    }
    var argc := |argv|;
    ustack[2 + argc] := 0;
    ustack[0] := argc;
    ustack[1] := sp - (argc + 1) * 4;
    assert ustack[..3 + argc] == [ustack[0], ustack[1]] + ustack[2..2 + argc] + [ustack[2 + argc]];
    sp := sp - (2 + argc + 1) * 4;
    Writes(argv, argc);
    ghost var m1, h1 := mm.mem, mm.freeList;
    var c;
    c, n := mm.Copyout(pgdir, sp, WordsBytes(ustack[..3 + argc]));
    FlatDir(m1, mm.mem, owner, d, sp, WordsBytes(ustack[..3 + argc])[..n], d);
    if c != CopyDone {
      SameWalksTrans(m0, owner, m1, owner, mm.mem, owner);
      StillNotUser(m0, m1, owner, d, sp + n);
      r := if c == NullPte then Crashed else Refused;
      StopsAt(r, m0, m1, owner, d, argv, argc, n);
      return r, sp, argc, n;
    }
    OpenMore(m0, m1, owner, d, argv, argc);
    PushBlock(m0, m1, mm.mem, owner, h1, mm.free, d, argv);
  }

  lemma {:induction false} TopZero(argv: seq<seq<Byte>>)
    ensures Need(argv, 0) == 0 && Top(argv, 0) == USTACKTOP
  {
  }

  lemma {:induction false} TopNext(argv: seq<seq<Byte>>, i: nat)
    requires i < |argv| && Need(argv, i + 1) <= USTACKTOP && Need(argv, i) <= USTACKTOP
    ensures |argv[i]| + 1 <= Top(argv, i) <= USTACKTOP && Top(argv, i + 1) == (Top(argv, i) - (|argv[i]| + 1)) / 4 * 4
    ensures Top(argv, i + 1) + |argv[i]| + 1 <= Top(argv, i) < Top(argv, i + 1) + |argv[i]| + 5
  {
  }

  /** A page found closed to user mode was closed from the start. */
  lemma {:induction false} StillNotUser(m0: Mem, m1: Mem, owner: seq<Owner>, d: nat, a: nat)
    requires SameWalks(m0, owner, m1, owner) && IsDir(owner, d) && a < WORD_LIMIT && !UserPage(m1, d, a / PGSIZE)
    ensures !UserPage(m0, d, a / PGSIZE)
  {
    WalksEqual(m0, owner, m1, owner, d, a / PGSIZE);
  }

  lemma {:induction false} Writes(argv: seq<seq<Byte>>, i: nat)
    requires Need(argv, |argv|) + 4 * (|argv| + 3) <= USTACKTOP && i <= |argv|
    ensures WriteAt(argv, i) + WriteLen(argv, i) <= USTACKTOP
    ensures i < |argv| ==> Need(argv, i + 1) <= USTACKTOP && WriteAt(argv, i) == Top(argv, i + 1)
    ensures i < |argv| ==> WriteLen(argv, i) == |argv[i]| + 1
    ensures i == |argv| ==> WriteAt(argv, i) == Top(argv, i) - 4 * (i + 3) && WriteLen(argv, i) == 4 * (i + 3)
  {
    NeedMono(argv);
    if i < |argv| { TopNext(argv, i); }
  }

  lemma {:induction false} OpenNone(mem: Mem, d: nat, argv: seq<seq<Byte>>)
    requires Need(argv, |argv|) + 4 * (|argv| + 3) <= USTACKTOP
    ensures OpenBelow(mem, d, argv, 0)
  {
  }

  lemma {:induction false} TooMany(mem: Mem, d: nat, argv: seq<seq<Byte>>)
    requires Need(argv, |argv|) + 4 * (|argv| + 3) <= USTACKTOP && |argv| > MAXARGS && d < |mem|
    requires OpenBelow(mem, d, argv, MAXARGS)
    ensures Stops(Refused, mem, d, argv, MAXARGS, 0)
  {
  }

  /** What user mode could access before is what it can access now. */
  lemma {:induction false} StillUser(m0: Mem, m1: Mem, owner: seq<Owner>, d: nat, va: nat, n: nat)
    requires SameWalks(m0, owner, m1, owner) && IsDir(owner, d) && va + n <= WORD_LIMIT && UserRange(m1, d, va, n)
    ensures forall a :: va <= a < va + n ==> UserAt(m0, d, a)
  {
    hide Walk, SameWalks;
    forall a | va <= a < va + n ensures UserAt(m0, d, a) {
      assert UserPage(m1, d, a / PGSIZE);
      WalksEqual(m0, owner, m1, owner, d, a / PGSIZE);
    }
  }

  /** A copyout of write `i` that stopped after `n` bytes. */
  lemma {:induction false} StopsAt(r: SetupResult, m0: Mem, m1: Mem, owner: seq<Owner>, d: nat, argv: seq<seq<Byte>>,
                                   i: nat, n: nat)
    requires Need(argv, |argv|) + 4 * (|argv| + 3) <= USTACKTOP && i <= |argv| && OpenBelow(m0, d, argv, i)
    requires i < MAXARGS || i == |argv| == MAXARGS
    requires SameWalks(m0, owner, m1, owner) && IsDir(owner, d) && m1[d] == m0[d]
    requires n < WriteLen(argv, i) && WriteAt(argv, i) + n < USTACKTOP && UserRange(m1, d, WriteAt(argv, i), n)
    requires !UserPage(m0, d, (WriteAt(argv, i) + n) / PGSIZE)
    requires r == if Present(Entry(m1[d], (WriteAt(argv, i) + n) / PGSIZE / 1024)) then Refused else Crashed
    ensures Stops(r, m0, d, argv, i, n)
  {
    hide Walk, UserRange, WriteAt, WriteLen, OpenBelow, UserPage, Entry;
    StillUser(m0, m1, owner, d, WriteAt(argv, i), n);
  }

  /** A copyout of write `i` that went through. */
  lemma {:induction false} OpenMore(m0: Mem, m1: Mem, owner: seq<Owner>, d: nat, argv: seq<seq<Byte>>, i: nat)
    requires Need(argv, |argv|) + 4 * (|argv| + 3) <= USTACKTOP && i <= |argv| && OpenBelow(m0, d, argv, i)
    requires SameWalks(m0, owner, m1, owner) && IsDir(owner, d)
    requires WriteAt(argv, i) + WriteLen(argv, i) <= WORD_LIMIT
    requires UserRange(m1, d, WriteAt(argv, i), WriteLen(argv, i))
    ensures OpenBelow(m0, d, argv, i + 1)
  {
    hide Walk, SameWalks, UserRange, WriteAt, WriteLen, UserAt;
    StillUser(m0, m1, owner, d, WriteAt(argv, i), WriteLen(argv, i));
  }

  /** After one more string, all strings so far are in place. */
  lemma {:induction false} PushString(m0: Mem, m1: Mem, m2: Mem, owner: seq<Owner>, head: nat, free: seq<nat>, d: nat,
                                      argv: seq<seq<Byte>>, i: nat)
    requires i < |argv| && Need(argv, |argv|) <= USTACKTOP
    requires Wf(m1, owner, head, free) && IsDir(owner, d)
    requires SameWalks(m0, owner, m1, owner) && SameWalks(m1, owner, m2, owner)
    requires FlatWrite(m1, m2, owner, d, Pointers(argv)[i], argv[i] + [0])
    requires UserRange(m1, d, Pointers(argv)[i], |argv[i]| + 1)
    requires forall j :: 0 <= j < i ==> UserHolds(m1, d, Pointers(argv)[j], argv[j] + [0])
    ensures SameWalks(m0, owner, m2, owner)
    ensures forall j :: 0 <= j <= i ==> UserHolds(m2, d, Pointers(argv)[j], argv[j] + [0])
  {
    hide Wf, Walk, FlatWrite, SameWalks, UserHolds, UserRange, Need, Top;
    SameWalksTrans(m0, owner, m1, owner, m2, owner);
    HoldsNew(m1, m2, owner, head, free, d, Pointers(argv)[i], argv[i] + [0]);
    forall j | 0 <= j < i ensures UserHolds(m2, d, Pointers(argv)[j], argv[j] + [0]) {
      NeedMono(argv);
      TopApart(argv, i, i + 1);
      TopApart(argv, j, i);
      HoldsKept(m1, m2, owner, head, free, d, Pointers(argv)[i], argv[i] + [0], Pointers(argv)[j], argv[j] + [0]);
    }
  }

  /** After the block of words, the picture is complete. */
  lemma {:induction false} PushBlock(m0: Mem, m1: Mem, m2: Mem, owner: seq<Owner>, head: nat, free: seq<nat>, d: nat,
                                     argv: seq<seq<Byte>>)
    requires |argv| <= MAXARGS && Need(argv, |argv|) + 4 * (|argv| + 3) <= USTACKTOP
    requires Wf(m1, owner, head, free) && IsDir(owner, d)
    requires SameWalks(m0, owner, m1, owner) && SameWalks(m1, owner, m2, owner)
    requires
      var sp, s := Top(argv, |argv|) - 4 * (|argv| + 3), WordsBytes(Words(argv));
      FlatWrite(m1, m2, owner, d, sp, s) && UserRange(m1, d, sp, |s|)
    requires forall j :: 0 <= j < |argv| ==> UserHolds(m1, d, Pointers(argv)[j], argv[j] + [0])
    ensures SameWalks(m0, owner, m2, owner)
    ensures Decodes(m2, d, Top(argv, |argv|) - 4 * (|argv| + 3), argv, Pointers(argv))
  {
    hide Wf, Walk, FlatWrite, SameWalks, UserHolds, UserRange, Need, Top, Decodes, WordsBytes, Words;
    var sp, s := Top(argv, |argv|) - 4 * (|argv| + 3), WordsBytes(Words(argv));
    SameWalksTrans(m0, owner, m1, owner, m2, owner);
    HoldsNew(m1, m2, owner, head, free, d, sp, s);
    forall j | 0 <= j < |argv| ensures UserHolds(m2, d, Pointers(argv)[j], argv[j] + [0]) {
      TopApart(argv, j, |argv|);
      HoldsKept(m1, m2, owner, head, free, d, sp, s, Pointers(argv)[j], argv[j] + [0]);
    }
    BlockDecodes(m2, d, argv);
  }
}

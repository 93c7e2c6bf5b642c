/** The kernel heap allocator of kern/heap.c: kmalloc and kfree on chunk headers that live
    in the heap's own pages. */
module Heap {
  import opened Bytes
  import opened Chunks
  import opened HeapLinks
  import opened HeapSpace
  import opened PageTables

  class KernelHeap {
    const space: Space
    var heapStart: nat             // current->heap_start, 0 for none
    ghost var chunks: seq<Chunk>   // the chunk list

    /** The list in memory is `chunks`. */
    ghost predicate Shape()
      reads this, space, space.mm
    {
      && space.Valid() && Linked(space.view, chunks)
      && heapStart == if chunks == [] then 0 else HEAP_START
    }

    /** Every reachable heap: the list is canonical and the heap ends at the page after it. */
    ghost predicate Valid()
      reads this, space, space.mm
    {
      && Shape() && Canonical(chunks)
      && space.top == RoundUp(HEAP_START + Size(chunks))
    }

    constructor (space: Space)
      requires space.Valid() && space.top == HEAP_START
      ensures Valid() && this.space == space && chunks == []
    {
      this.space := space;
      heapStart := 0;
      chunks := [];
    }

    // ---- header fields -------------------------------------------------------------

    /** A header may be accessed: its bytes are mapped. */
    ghost predicate At(a: nat)
      reads this, space
    {
      HEAP_START <= a && a + HEADER <= HEAP_START + |space.view|
    }

    method Load(a: nat) returns (h: Header)
      requires space.Valid() && At(a)
      ensures h == HeaderAt(space.view, a - HEAP_START) && h.prev < WORD_LIMIT && h.next < WORD_LIMIT
    {
      hide Space.Valid, Word, PutWord, Wrote;
      var prev := space.LoadWord(a);
      var next := space.LoadWord(a + 4);
      var w := space.LoadWord(a + 8);
      h := Header(prev, next, w % 2 == 1, w / 2);
    }

    method SetPrev(a: nat, p: nat)
      requires space.Valid() && At(a) && p < WORD_LIMIT
      modifies space.mm`mem, space`view
      ensures space.Valid() && |space.view| == |old(space.view)|
      ensures Wrote(old(space.view), space.view, a - HEAP_START, HeaderAt(old(space.view), a - HEAP_START).(prev := p))
    {
      hide Space.Valid, Word, PutWord, Wrote;
      space.StoreWord(a, p);
      WroteWord(old(space.view), space.view, a - HEAP_START, 0, p);
    }

    method SetNext(a: nat, p: nat)
      requires space.Valid() && At(a) && p < WORD_LIMIT
      modifies space.mm`mem, space`view
      ensures space.Valid() && |space.view| == |old(space.view)|
      ensures Wrote(old(space.view), space.view, a - HEAP_START, HeaderAt(old(space.view), a - HEAP_START).(next := p))
    {
      hide Space.Valid, Word, PutWord, Wrote;
      space.StoreWord(a + 4, p);
      WroteWord(old(space.view), space.view, a - HEAP_START, 4, p);
    }

    method SetFree(a: nat, free: bool)
      requires space.Valid() && At(a)
      modifies space.mm`mem, space`view
      ensures space.Valid() && |space.view| == |old(space.view)|
      ensures Wrote(old(space.view), space.view, a - HEAP_START,
                    HeaderAt(old(space.view), a - HEAP_START).(free := free))
    {
      hide Space.Valid, Word, PutWord, Wrote;
      var w := space.LoadWord(a + 8);
      var w' := w - w % 2 + if free then 1 else 0;
      space.StoreWord(a + 8, w');
      WroteWord(old(space.view), space.view, a - HEAP_START, 8, w');
    }

    method SetLen(a: nat, len: nat)
      requires space.Valid() && At(a) && len < 0x8000_0000
      modifies space.mm`mem, space`view
      ensures space.Valid() && |space.view| == |old(space.view)|
      ensures Wrote(old(space.view), space.view, a - HEAP_START, HeaderAt(old(space.view), a - HEAP_START).(len := len))
    {
      hide Space.Valid, Word, PutWord, Wrote;
      var w := space.LoadWord(a + 8);
      space.StoreWord(a + 8, w % 2 + 2 * len);
      WroteWord(old(space.view), space.view, a - HEAP_START, 8, w % 2 + 2 * len);
    }

    // ---- list surgery ---------------------------------------------------------------

    /** Facts about chunk `i` of the list. */
    lemma ChunkFacts(i: nat)
      requires Shape() && i < |chunks|
      ensures At(Addr(chunks, i)) && Addr(chunks, i) == HEAP_START + Off(chunks, i)
      ensures HeaderAt(space.view, Off(chunks, i)) == HeaderOf(chunks, i)
      ensures Off(chunks, i) + chunks[i].len <= Size(chunks) <= space.top - HEAP_START <= HEAP_END - HEAP_START
      ensures chunks[i].len >= HEADER
    {
      hide HeaderAt, Size;
      OffMono(chunks, i, |chunks|);
      assert chunks[..|chunks|] == chunks && InPlace(space.view, chunks, i);
    }

    /** The stores of split_chunk before it relinks: the new header and the shorter length. */
    method CutChunk(chunk: nat, new_: nat, len: nat, left: nat)
      returns (ghost v1: seq<Byte>, ghost v2: seq<Byte>, ghost v3: seq<Byte>)
      requires space.Valid() && At(chunk) && At(new_) && len < 0x8000_0000 && left < 0x8000_0000 && chunk < WORD_LIMIT
      modifies space.mm`mem, space`view
      ensures space.Valid() && |v1| == |v2| == |v3| == |space.view| == |old(space.view)|
      ensures
        var o, q := chunk - HEAP_START, new_ - HEAP_START;
        && Wrote(old(space.view), v1, q, HeaderAt(old(space.view), q).(free := true))
        && Wrote(v1, v2, q, HeaderAt(v1, q).(len := left)) && Wrote(v2, v3, o, HeaderAt(v2, o).(len := len))
        && Wrote(v3, space.view, q, HeaderAt(v3, q).(prev := chunk))
    {
      hide Space.Valid, HeaderAt, Wrote;
      SetFree(new_, true);
      v1 := space.view;
      SetLen(new_, left);
      v2 := space.view;
      SetLen(chunk, len);
      v3 := space.view;
      SetPrev(new_, chunk);
    }

    /** split_chunk on chunk `i`, which has a right neighbour. */
    method SplitChunk(chunk: nat, len: nat, ghost i: nat)
      requires Shape() && i + 1 < |chunks| && chunk == Addr(chunks, i) && HEADER <= len <= chunks[i].len
      modifies this`chunks, space.mm`mem, space`view
      ensures Shape()
      ensures chunks == if old(chunks)[i].len - len <= HEADER then old(chunks) else Split(old(chunks), i, len)
      ensures OnlyHeaders(old(space.view), space.view, {Off(old(chunks), i), Off(old(chunks), i) + len,
                                                        Off(old(chunks), i + 1)})
    {
      hide Space.Valid, HeaderAt, Wrote, OnlyHeaders, Linked, Size, Off, Split;
      ghost var v0, o, q, r := space.view, Off(chunks, i), Off(chunks, i) + len, Off(chunks, i + 1);
      ChunkFacts(i);
      ChunkFacts(i + 1);
      OffNext(chunks, i);
      OnlyNone(v0, {o, q, r});
      var h := Load(chunk);
      var left := h.len - len;
      if left <= HEADER {
        return;
      }
      var new_ := chunk + len;
      ghost var v1, v2, v3 := CutChunk(chunk, new_, len, left);
      ghost var v4 := space.view;
      h := Load(chunk);
      NextKept(v0, v1, v2, v3, v4, o, q, len);
      SetNext(new_, h.next);
      ghost var v5 := space.view;
      SetPrev(h.next, new_);
      ghost var v6 := space.view;
      SetNext(chunk, new_);
      SplitWrites([v0, v1, v2, v3, v4, v5, v6, space.view], o, q, r, len, left);
      SplitLinked(v0, space.view, chunks, i, len);
      SplitThenJoin(chunks, i, len);
      chunks := Split(chunks, i, len);
    }

    /** The first part of glue_chunk: the right neighbour of chunk `i`, if free, joins it. */
    method GlueRight(chunk: nat, ghost i: nat)
      requires Shape() && i < |chunks| && chunk == Addr(chunks, i)
      requires i + 1 < |chunks| && chunks[i + 1].free ==> i + 2 < |chunks|
      modifies this`chunks, space.mm`mem, space`view
      ensures Shape() && |space.view| == |old(space.view)|
      ensures chunks == if i + 1 < |old(chunks)| && old(chunks)[i + 1].free then Joined(old(chunks), i) else old(chunks)
      ensures OnlyHeaders(old(space.view), space.view, Sites(old(chunks)))
    {
      hide Space.Valid, HeaderAt, Wrote, OnlyHeaders, Linked, Size, Off;
      ghost var v0 := space.view;
      OnlyNone(v0, Sites(chunks));
      ChunkFacts(i);
      var h := Load(chunk);
      if h.next == 0 {
        return;
      }
      ChunkFacts(i + 1);
      var nh := Load(h.next);
      if !nh.free {
        return;
      }
      ChunkFacts(i + 2);
      OffNext(chunks, i);
      OffNext(chunks, i + 1);
      SetLen(chunk, h.len + nh.len);
      ghost var v1 := space.view;
      SetPrev(nh.next, chunk);
      ghost var v2 := space.view;
      SetNext(chunk, nh.next);
      GlueRightWrites(v0, v1, v2, space.view, Off(chunks, i), Off(chunks, i + 2), h.len + nh.len, nh.next);
      JoinLinked(v0, space.view, chunks, i);
      JoinedSites(chunks, i);
      OnlyMore(v0, space.view, JoinSites(chunks, i), Sites(chunks));
      chunks := Joined(chunks, i);
    }

    /** The second part: chunk `i` joins its left neighbour if that is free. */
    method GlueLeft(chunk: nat, ghost i: nat) returns (c: nat)
      requires Shape() && i < |chunks| && chunk == Addr(chunks, i)
      modifies this`chunks, space.mm`mem, space`view
      ensures Shape() && |space.view| == |old(space.view)|
      ensures
        var left := i > 0 && old(chunks)[i - 1].free;
        && chunks == (if left then Joined(old(chunks), i - 1) else old(chunks))
        && c == Addr(chunks, if left then i - 1 else i)
      ensures OnlyHeaders(old(space.view), space.view, Sites(old(chunks)))
    {
      hide Space.Valid, HeaderAt, Wrote, OnlyHeaders, Linked, Size, Off;
      ghost var v0 := space.view;
      OnlyNone(v0, Sites(chunks));
      ChunkFacts(i);
      var h := Load(chunk);
      if h.prev == 0 {
        return chunk;
      }
      ChunkFacts(i - 1);
      var ph := Load(h.prev);
      if !ph.free {
        return chunk;
      }
      ghost var o := Off(chunks, i - 1);
      OffNext(chunks, i - 1);
      SetLen(h.prev, ph.len + h.len);
      ghost var v1 := space.view;
      SetNext(h.prev, h.next);
      ghost var v2 := space.view;
      GlueLeftWrites(v0, v1, v2, o, ph.len + h.len, h.next);
      if h.next != 0 {
        ChunkNext(v0, chunks, i);
        SetPrev(h.next, h.prev);
        GlueLeftDone(v0, v2, space.view, chunks, i - 1);
      } else {
        GlueLeftTop(v0, v2, chunks, i - 1);
      }
      JoinOffsets(chunks, i - 1);
      chunks := Joined(chunks, i - 1);
      return h.prev;
    }

    /** free_chunk on the last chunk; `v` is the memory before pages are dropped. */
    method FreeChunk(chunk: nat) returns (ghost v: seq<Byte>)
      requires Shape() && chunks != [] && chunk == Addr(chunks, |chunks| - 1)
      requires space.top == RoundUp(HEAP_START + Size(chunks))
      modifies this, space, space.mm
      ensures Shape() && chunks == old(chunks)[..|old(chunks)| - 1]
      ensures space.top == RoundUp(HEAP_START + Size(chunks))
      ensures OnlyHeaders(old(space.view), v, Sites(old(chunks)))
      ensures Shrunk(v, old(space.frames), old(space.mm.free), space.view, space.frames, space.mm.free)
    {
      hide Space.Valid, HeaderAt, Wrote, OnlyHeaders, Linked, Size, Off, RoundUp;
      ghost var v0, last := space.view, |chunks| - 1;
      ghost var sites := if |chunks| > 1 then {Off(chunks, last - 1)} else {};
      OnlyNone(v0, sites);
      ChunkFacts(last);
      var h := Load(chunk);
      if h.prev == 0 {
        heapStart := 0;
      } else {
        ChunkFacts(last - 1);
        SetNext(h.prev, 0);
        WroteOne(v0, space.view, Off(chunks, last - 1), HeaderOf(chunks, last - 1).(next := 0));
      }
      v := space.view;
      DropLinked(v0, v, chunks);
      OnlyMore(v0, v, sites, Sites(chunks));
      DropSize(chunks);
      chunks := chunks[..last];
      space.Bounds();
      space.FreePages(chunk);
      space.Bounds();
      PrefixLinked(v, space.view, chunks);
    }

    /** glue_chunk on chunk `i` of `cs`, just marked free. */
    method GlueChunk(chunk: nat, ghost cs: seq<Chunk>, ghost i: nat) returns (ghost v: seq<Byte>)
      requires Canonical(cs) && i < |cs| && !cs[i].free
      requires Shape() && chunks == Marked(cs, i, true) && chunk == Addr(chunks, i)
      requires space.top == RoundUp(HEAP_START + Size(cs))
      modifies this, space, space.mm
      ensures Valid() && chunks == Chunks.Free(cs, i)
      ensures OnlyHeaders(old(space.view), v, Sites(old(chunks)))
      ensures Shrunk(v, old(space.frames), old(space.mm.free), space.view, space.frames, space.mm.free)
    {
      hide Space.Valid, OnlyHeaders, Linked, Size, Off, RoundUp, Chunks.Free, Joined, Canonical, Live, Sites, Shrunk,
           HeaderAt;
      FreeSteps(cs, i);
      FreeLive(cs, i);
      GlueRight(chunk, i);
      GluedSites(old(chunks), i);
      ghost var v1, r1 := space.view, chunks;
      GlueRightAddr(old(chunks), i);
      var c := GlueLeft(chunk, i);
      GluedSites(r1, i);
      OnlyTrans(old(space.view), v1, space.view, Sites(old(chunks)), Sites(r1));
      ghost var v2, k := space.view, if i > 0 && r1[i - 1].free then i - 1 else i;
      ChunkFacts(k);
      var h := Load(c);
      if h.next == 0 {
        v := FreeChunk(c);
        OnlyTrans(old(space.view), v2, v, Sites(old(chunks)), Sites(GluedLeft(r1, i)));
      } else {
        v := v2;
        ShrunkNone(v, space.frames, space.mm.free);
      }
    }

    // ---- the allocator ------------------------------------------------------------------

    /** Frees the block at `p`. */
    method Kfree(p: nat, ghost b: Block)
      requires Valid() && b in Live(chunks) && p == HEAP_START + b.0 + HEADER
      modifies this, space, space.mm
      ensures Valid() && chunks == Chunks.Free(old(chunks), Find(old(chunks), b))
      ensures Live(chunks) == Live(old(chunks)) - {b}
      ensures PayloadsKept(old(space.view), space.view, Live(chunks))
      ensures space.frames <= old(space.frames)
      ensures space.mm.free == old(space.frames)[|space.frames|..] + old(space.mm.free)
    {
      hide Space.Valid, OnlyHeaders, Linked, Size, Off, RoundUp, Chunks.Free, HeaderAt, Live, LiveFrom, Sites, Wrote;
      ghost var cs, i, v0 := chunks, Find(chunks, b), space.view;
      ChunkFacts(i);
      FreeLive(cs, i);
      var head := p - HEADER;
      SetFree(head, true);
      WroteOne(v0, space.view, Off(cs, i), HeaderOf(cs, i).(free := true));
      MarkLinked(v0, space.view, cs, i, true);
      MarkOffsets(cs, i, true);
      MarkSites(cs, i, true);
      ghost var v1 := space.view;
      OnlyMore(v0, v1, {Off(cs, i)}, Sites(cs));
      chunks := Marked(cs, i, true);
      ghost var v := GlueChunk(head, cs, i);
      OnlyTrans(v0, v1, v, Sites(cs), Sites(cs));
      KeptBelow(v0, v, space.view, cs, chunks);
    }

    /** kmalloc's use of the free chunk `i`. */
    method TakeHole(cur: nat, m: nat, ghost i: nat)
      requires Valid() && i < |chunks| && cur == Addr(chunks, i) && HEADER <= m && FirstFit(chunks, m) == i
      modifies this`chunks, space.mm`mem, space`view
      ensures Valid() && chunks == Alloc(old(chunks), m) && cur == HEAP_START + Allocated(old(chunks), m).0
      ensures PayloadsKept(old(space.view), space.view, Live(old(chunks)))
    {
      hide Space.Valid, OnlyHeaders, Linked, Size, Off, RoundUp, HeaderAt, Live, LiveFrom, Wrote, Split, Marked, Sites;
      ghost var cs, v0 := chunks, space.view;
      AllocLive(cs, m);
      HoleSteps(cs, i, m);
      SplitChunk(cur, m, i);
      ghost var v1, r := space.view, chunks;
      ChunkFacts(i);
      SetFree(cur, false);
      WroteOne(v1, space.view, Off(r, i), HeaderOf(r, i).(free := false));
      MarkLinked(v1, space.view, r, i, false);
      chunks := Marked(r, i, false);
      HoleKept(v0, v1, space.view, cs, i, m);
    }

    /** The header of a new last chunk at `start`, linked behind the one at `prev`. */
    method AppendHeader(start: nat, prev: nat, m: nat)
      requires space.Valid() && Linked(space.view, chunks) && start == HEAP_START + Size(chunks)
      requires prev == Addr(chunks, |chunks| - 1)
      requires HEADER <= m && Size(chunks) + m <= |space.view| < 0x8000_0000
      modifies this`chunks, space.mm`mem, space`view
      ensures space.Valid() && Linked(space.view, chunks) && chunks == old(chunks) + [Chunk(m, false)]
      ensures PayloadsKept(old(space.view), space.view, Live(old(chunks)))
    {
      hide Space.Valid, OnlyHeaders, Linked, Size, Off, HeaderAt, Live, Wrote, Sites;
      ghost var cs, v1 := chunks, space.view;
      space.Bounds();
      if prev != 0 {
        LastInside(v1, cs);
      }
      SetPrev(start, prev);
      ghost var v2 := space.view;
      SetNext(start, 0);
      ghost var v3 := space.view;
      SetFree(start, false);
      ghost var v4 := space.view;
      SetLen(start, m);
      ghost var v5 := space.view;
      AppendWrites(v1, v2, v3, v4, v5, Size(cs), prev, m);
      if prev != 0 {
        SetNext(prev, start);
        AppendLast(v1, v5, space.view, cs, m);
      } else {
        AddrNone(cs);
        AppendFirst(v1, v5, cs, m);
      }
      chunks := cs + [Chunk(m, false)];
      ExtendKept(v1, v1, space.view, cs, m);
    }

    /** kmalloc's extension of the heap behind its last chunk, at `prev`. */
    method Extend(prev: nat, m: nat) returns (p: nat)
      requires Valid() && prev == Addr(chunks, |chunks| - 1) && HEADER <= m && FirstFit(chunks, m) == |chunks|
      requires HEAP_START + Size(chunks) + m <= HEAP_END
      requires HEAP_START + Size(chunks) + m > space.top ==>
                 space.Room((RoundUp(HEAP_START + Size(chunks) + m) - space.top) / PGSIZE)
      modifies this, space, space.mm
      ensures Valid() && chunks == Alloc(old(chunks), m) && p == HEAP_START + Allocated(old(chunks), m).0 + HEADER
      ensures PayloadsKept(old(space.view), space.view, Live(old(chunks)))
      ensures |space.frames| >= |old(space.frames)| && space.frames[..|old(space.frames)|] == old(space.frames)
      ensures forall i :: |old(space.frames)| <= i < |space.frames| ==> space.frames[i] in old(space.mm.free)
    {
      hide Space.Valid, Linked, Size, Off, HeaderAt, Live, LiveFrom, Space.Room, RoundUp, Canonical;
      ghost var cs, v0 := chunks, space.view;
      AllocLive(cs, m);
      ExtendSize(cs, m, space.top);
      var start;
      if prev != 0 {
        ChunkFacts(|cs| - 1);
        var h := Load(prev);
        start := prev + h.len;
        LastEnd(cs);
      } else {
        start := HEAP_START;
        heapStart := start;
        AddrNone(cs);
      }
      space.AllocChunk(start, m);
      space.Bounds();
      ghost var v1 := space.view;
      PrefixLinked(v0, v1, cs);
      AppendHeader(start, prev, m);
      PayloadsPrefix(v0, v1, space.view, Live(cs));
      return start + HEADER;
    }

    /** The size of a request, header included, and where the heap would end without a hole for it. */
    ghost predicate CanServe(n: nat)
      reads this, space, space.mm
    {
      && n + HEADER < WORD_LIMIT
      && (FirstFit(chunks, n + HEADER) == |chunks| ==>
            var end := HEAP_START + Size(chunks) + n + HEADER;
            end <= HEAP_END && (end > space.top ==> space.Room((RoundUp(end) - space.top) / PGSIZE)))
    }

    /** A block of at least `n` bytes. */
    method Kmalloc(n: nat) returns (p: nat)
      requires Valid() && CanServe(n)
      modifies this, space, space.mm
      ensures Valid() && chunks == Alloc(old(chunks), n + HEADER)
      ensures
        var b := Allocated(old(chunks), n + HEADER);
        && p == HEAP_START + b.0 + HEADER && n + HEADER <= b.1 <= n + 2 * HEADER
        && b !in Live(old(chunks)) && Live(chunks) == Live(old(chunks)) + {b}
      ensures PayloadsKept(old(space.view), space.view, Live(old(chunks)))
      ensures |space.frames| >= |old(space.frames)| && space.frames[..|old(space.frames)|] == old(space.frames)
      ensures forall i :: |old(space.frames)| <= i < |space.frames| ==> space.frames[i] in old(space.mm.free)
      ensures forall a :: HEAP_START <= a < space.top ==> Closed(space.mm.mem, PageOf(space.pgdir), a)
    {
      hide Space.Valid, OnlyHeaders, Linked, Size, Off, RoundUp, HeaderAt, Canonical, Live, Space.Room, Alloc,
           Allocated, Grown, PayloadsKept, FirstFit, Closed;
      var m := n + HEADER;
      AllocLive(chunks, m);
      var cur, prev := heapStart, 0;
      ghost var i := 0;
      StartAddr(chunks);
      while cur != 0
        invariant 0 <= i <= |chunks| && cur == Addr(chunks, i) && prev == Addr(chunks, i - 1)
        invariant forall j :: 0 <= j < i ==> !(chunks[j].free && chunks[j].len >= m)
        invariant unchanged(this) && unchanged(space) && unchanged(space.mm)
        decreases |chunks| - i
      {
        ChunkFacts(i);
        var h := Load(cur);
        if h.free && h.len >= m {
          FitAt(chunks, m, i);
          TakeHole(cur, m, i);
          space.AllClosed();
          return cur + HEADER;
        }
        prev, cur := cur, h.next;
        i := i + 1;
      }
      AddrZero(chunks, i);
      FitAt(chunks, m, i);
      p := Extend(prev, m);
      space.AllClosed();
    }

    /** The owner of a block stores bytes in it. */
    method Use(a: nat, src: seq<Byte>, ghost b: Block)
      requires Valid() && b in Live(chunks)
      requires HEAP_START + b.0 + HEADER <= a && a + |src| <= HEAP_START + b.0 + b.1
      modifies space.mm`mem, space`view
      ensures Valid() && a + |src| <= HEAP_START + |old(space.view)|
      ensures space.view == Splice(old(space.view), a - HEAP_START, src)
      ensures PayloadsKept(old(space.view), space.view, Live(chunks) - {b})
    {
      hide Space.Valid, Linked, Size, RoundUp, Canonical, Live, PayloadsKept, Splice;
      PayloadStored(space.view, chunks, b, a - HEAP_START, src);
      space.StoreBytes(a, src);
    }

    /** Freeing a block just allocated undoes the allocation: the chunk list, the end of the heap,
        its frames and every live block are as before. */
    method RequestAndRelease(n: nat)
      requires Valid() && CanServe(n)
      modifies this, space, space.mm
      ensures Valid() && chunks == old(chunks) && space.top == old(space.top) && space.frames == old(space.frames)
      ensures PayloadsKept(old(space.view), space.view, Live(chunks))
    {
      hide Space.Valid, Linked, Size, RoundUp, Canonical, Live, Space.Room, Alloc, Allocated, PayloadsKept;
      ghost var cs, fs, v0 := chunks, space.frames, space.view;
      space.FrameCount();
      var p := Kmalloc(n);
      ghost var b, v1, f1 := Allocated(cs, n + HEADER), space.view, space.frames;
      assert b in Live(chunks);
      Kfree(p, b);
      AllocThenFree(cs, n + HEADER);
      space.FrameCount();
      assert space.frames == f1[..|fs|];
      PayloadsTrans(v0, v1, space.view, Live(cs));
    }

    /** Frees a list of blocks. The chunk list is the same for every order; when all live blocks
        are freed the heap is empty and every frame is back on the free list. */
    method FreeBlocks(ps: seq<nat>, ghost bs: seq<Block>)
      requires Valid() && |ps| == |bs| && NoDuplicates(bs) && forall b :: b in bs ==> b in Live(chunks)
      requires forall i :: 0 <= i < |ps| ==> ps[i] == HEAP_START + bs[i].0 + HEADER
      modifies this, space, space.mm
      ensures Valid() && chunks == FreeAll(old(chunks), bs) && Live(chunks) == Live(old(chunks)) - Blocks(bs)
      ensures PayloadsKept(old(space.view), space.view, Live(chunks))
      ensures space.frames <= old(space.frames)
      ensures space.mm.free == old(space.frames)[|space.frames|..] + old(space.mm.free)
      ensures Blocks(bs) == Live(old(chunks)) ==>
                && chunks == [] && heapStart == 0 && space.top == HEAP_START && space.frames == []
                && space.mm.free == old(space.frames) + old(space.mm.free)
    {
      hide Space.Valid, Linked, Size, Off, RoundUp, Chunks.Free, Canonical, Live, PayloadsKept, FreeAll;
      ghost var cs, fs, free, v0 := chunks, space.frames, space.mm.free, space.view;
      PayloadsRefl(v0, Live(cs));
      var k := 0;
      assert bs[0..] == bs && fs[|fs|..] + free == free;
      while k < |ps|
        invariant 0 <= k <= |ps| && Valid() && NoDuplicates(bs[k..]) && forall b :: b in bs[k..] ==> b in Live(chunks)
        invariant FreeAll(chunks, bs[k..]) == FreeAll(cs, bs) && Live(chunks) <= Live(cs)
        invariant PayloadsKept(v0, space.view, Live(chunks))
        invariant space.frames <= fs && space.mm.free == fs[|space.frames|..] + free
      {
        ghost var rest, c1, f1, v1 := bs[k..], chunks, space.frames, space.view;
        FreeNext(c1, rest);
        Kfree(ps[k], bs[k]);
        assert rest[1..] == bs[k + 1..];
        Joins(fs, f1, space.frames, free);
        PayloadsFewer(v0, v1, Live(c1), Live(chunks));
        PayloadsTrans(v0, v1, space.view, Live(chunks));
        k := k + 1;
      }
      FreeNone(chunks, bs[k..]);
      if Blocks(bs) == Live(cs) {
        FreeOrder(cs, bs, bs);
        EmptyTop();
        space.FrameCount();
      }
    }
  }

  lemma EmptyTop()
    ensures RoundUp(HEAP_START + Size([])) == HEAP_START
  {
  }

  /** Frames dropped in two goes. */
  lemma Joins(fs: seq<nat>, f1: seq<nat>, f2: seq<nat>, free: seq<nat>)
    requires f1 <= fs && f2 <= f1
    ensures f1[|f2|..] + (fs[|f1|..] + free) == fs[|f2|..] + free
  {
    assert fs[|f2|..] == f1[|f2|..] + fs[|f1|..];
  }
}

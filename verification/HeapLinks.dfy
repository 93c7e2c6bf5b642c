/** Chunk headers in memory: a doubly linked list that mirrors a chunk sequence, and what
    each kind of pointer surgery of kern/heap.c does to it. */
module HeapLinks {
  import opened Bytes
  import opened Chunks
  import opened PageTables
  import opened HeapSpace

  /** struct heap_head: two links, a free bit and a 31-bit length. */
  datatype Header = Header(prev: nat, next: nat, free: bool, len: nat)

  function HeaderAt(v: seq<Byte>, o: nat): Header
    requires o + HEADER <= |v|
  {
    Header(Word(v, o), Word(v, o + 4), Word(v, o + 8) % 2 == 1, Word(v, o + 8) / 2)
  }

  /** Address of chunk `i`; 0 past either end. */
  function Addr(cs: seq<Chunk>, i: int): nat {
    if 0 <= i < |cs| then HEAP_START + Off(cs, i) else 0
  }

  function HeaderOf(cs: seq<Chunk>, i: nat): Header
    requires i < |cs|
  {
    Header(Addr(cs, i - 1), Addr(cs, i + 1), cs[i].free, cs[i].len)
  }

  /** The header at `o` is `h`. */
  predicate HeaderIs(v: seq<Byte>, o: nat, h: Header) {
    o + HEADER <= |v| && HeaderAt(v, o) == h
  }

  predicate InPlace(v: seq<Byte>, cs: seq<Chunk>, i: nat)
    requires i < |cs|
  {
    HeaderIs(v, Off(cs, i), HeaderOf(cs, i))
  }

  /** Every chunk holds at least its header. */
  predicate Sized(cs: seq<Chunk>) {
    forall i :: 0 <= i < |cs| ==> cs[i].len >= HEADER
  }

  /** The headers in `v` form the list of `cs`, linked in both directions and without gaps. */
  ghost predicate Linked(v: seq<Byte>, cs: seq<Chunk>) {
    && Sized(cs) && Size(cs) <= |v|
    && (forall i :: 0 <= i < |cs| ==> InPlace(v, cs, i))
  }

  /** Two headers do not overlap. */
  predicate Apart(o: nat, p: nat) {
    o + HEADER <= p || p + HEADER <= o
  }

  /** Only the bytes of the headers at `offs` differ. */
  ghost predicate OnlyHeaders(v0: seq<Byte>, v1: seq<Byte>, offs: set<nat>) {
    && |v0| == |v1|
    && (forall k :: 0 <= k < |v0| && (forall o :: o in offs ==> !(o <= k < o + HEADER)) ==> v1[k] == v0[k])
  }

  lemma {:induction false} HeaderKept(v0: seq<Byte>, v1: seq<Byte>, offs: set<nat>, p: nat)
    requires OnlyHeaders(v0, v1, offs) && p + HEADER <= |v0| && forall o :: o in offs ==> Apart(o, p)
    ensures HeaderAt(v1, p) == HeaderAt(v0, p)
  {
  }

  lemma {:induction false} OnlyHeadersTrans(v0: seq<Byte>, v1: seq<Byte>, v2: seq<Byte>, s: set<nat>, t: set<nat>)
    requires OnlyHeaders(v0, v1, s) && OnlyHeaders(v1, v2, t)
    ensures OnlyHeaders(v0, v2, s + t)
  {
    forall k | 0 <= k < |v0| && (forall o :: o in s + t ==> !(o <= k < o + HEADER)) ensures v2[k] == v0[k] {
      assert forall o :: o in s ==> o in s + t;
      assert forall o :: o in t ==> o in s + t;
    }
  }

  lemma {:induction false} OffApart(cs: seq<Chunk>, i: nat, j: nat)
    requires Sized(cs) && i < |cs| && j < |cs| && i != j
    ensures Apart(Off(cs, i), Off(cs, j)) && Off(cs, i) + HEADER <= Size(cs)
  {
    if i < j { OffMono(cs, i, j); } else { OffMono(cs, j, i); }
    OffMono(cs, i, |cs|);
  }

  // ---- surgery on the list --------------------------------------------------------------

  function Marked(cs: seq<Chunk>, i: nat, free: bool): seq<Chunk>
    requires i < |cs|
  {
    cs[i := cs[i].(free := free)]
  }

  /** Chunk `i` cut into `n` bytes and the rest, which is free. */
  function Split(cs: seq<Chunk>, i: nat, n: nat): seq<Chunk>
    requires i < |cs| && n <= cs[i].len
  {
    cs[..i] + [Chunk(n, cs[i].free), Chunk(cs[i].len - n, true)] + cs[i + 1..]
  }

  /** Chunks `i` and `i + 1` made one. */
  function Joined(cs: seq<Chunk>, i: nat): seq<Chunk>
    requires i + 1 < |cs|
  {
    cs[..i] + [Chunk(cs[i].len + cs[i + 1].len, cs[i].free)] + cs[i + 2..]
  }

  /** Offsets behind a middle part. */
  lemma {:induction false} OffBehind(a: seq<Chunk>, m: seq<Chunk>, b: seq<Chunk>, j: nat)
    requires j <= |b|
    ensures Off(a + m + b, |a| + |m| + j) == Size(a) + Size(m) + Size(b[..j])
  {
    hide Size;
    assert (a + m + b)[..|a| + |m| + j] == a + m + b[..j];
    SizeConcat(a + m, b[..j]);
    SizeConcat(a, m);
  }

  lemma {:induction false} SizeTwo(c: Chunk, e: Chunk)
    ensures Size([c, e]) == c.len + e.len && Size([c]) == c.len
  {
    assert [c, e] == [c] + [e];
    SizeConcat([c], [e]);
  }

  /** Where the chunks are after a join. */
  lemma {:induction false} JoinOffsets(cs: seq<Chunk>, i: nat)
    requires i + 1 < |cs|
    ensures
      var r := Joined(cs, i);
      && |r| == |cs| - 1 && Size(r) == Size(cs)
      && (forall j :: 0 <= j <= i ==> Off(r, j) == Off(cs, j))
      && (forall j :: i + 1 < j <= |cs| ==> Off(r, j - 1) == Off(cs, j))
  {
    hide Size;
    var r := Joined(cs, i);
    var a, m, b := cs[..i], [Chunk(cs[i].len + cs[i + 1].len, cs[i].free)], cs[i + 2..];
    SizeTwo(cs[i], cs[i + 1]);
    SizeTwo(m[0], m[0]);
    assert cs == a + [cs[i], cs[i + 1]] + b;
    forall j | 0 <= j <= i ensures Off(r, j) == Off(cs, j) { assert r[..j] == cs[..j]; }
    forall j | i + 1 < j <= |cs| ensures Off(r, j - 1) == Off(cs, j) {
      OffBehind(a, m, b, j - i - 2);
      OffBehind(a, [cs[i], cs[i + 1]], b, j - i - 2);
    }
    assert r[..|r|] == r && cs[..|cs|] == cs && Off(r, |cs| - 1) == Off(cs, |cs|);
  }

  /** Where the chunks are after a split, which a join would undo. */
  lemma {:induction false} SplitOffsets(cs: seq<Chunk>, i: nat, n: nat)
    requires i < |cs| && n <= cs[i].len
    ensures
      var r := Split(cs, i, n);
      && |r| == |cs| + 1 && Size(r) == Size(cs) && Joined(r, i) == cs
      && (forall j :: 0 <= j <= i ==> Off(r, j) == Off(cs, j)) && Off(r, i + 1) == Off(cs, i) + n
      && (forall j :: i + 1 < j <= |r| ==> Off(cs, j - 1) == Off(r, j))
  {
    hide Size, Off, Split, Joined;
    SplitThenJoin(cs, i, n);
    JoinOffsets(Split(cs, i, n), i);
    OffNext(Split(cs, i, n), i);
  }

  lemma {:induction false} SplitThenJoin(cs: seq<Chunk>, i: nat, n: nat)
    requires i < |cs| && n <= cs[i].len
    ensures |Split(cs, i, n)| == |cs| + 1 && Split(cs, i, n)[i].len == n && Joined(Split(cs, i, n), i) == cs
  {
  }

  lemma {:induction false} MarkOffsets(cs: seq<Chunk>, i: nat, free: bool)
    requires i < |cs|
    ensures Size(Marked(cs, i, free)) == Size(cs)
    ensures forall j :: 0 <= j <= |cs| ==> Off(Marked(cs, i, free), j) == Off(cs, j)
  {
    hide Size;
    var r, c := Marked(cs, i, free), cs[i].(free := free);
    assert cs == cs[..i] + [cs[i]] + cs[i + 1..] && r == cs[..i] + [c] + cs[i + 1..];
    SizeTwo(cs[i], cs[i]);
    SizeTwo(c, c);
    forall j | 0 <= j <= |cs| ensures Off(r, j) == Off(cs, j) {
      if j <= i {
        assert r[..j] == cs[..j];
      } else {
        OffBehind(cs[..i], [cs[i]], cs[i + 1..], j - i - 1);
        OffBehind(cs[..i], [c], cs[i + 1..], j - i - 1);
      }
    }
    assert r[..|r|] == r && cs[..|cs|] == cs && Off(r, |cs|) == Off(cs, |cs|);
  }

  /** A header of the list away from those at `offs` is as before. */
  lemma {:induction false} Kept(v0: seq<Byte>, v1: seq<Byte>, offs: set<nat>, cs: seq<Chunk>, j: nat)
    requires Linked(v0, cs) && |v0| == |v1| && OnlyHeaders(v0, v1, offs) && j < |cs|
    requires forall o :: o in offs ==> Apart(o, Off(cs, j))
    ensures InPlace(v1, cs, j)
  {
    hide OnlyHeaders, HeaderAt, Off;
    assert InPlace(v0, cs, j);
    HeaderKept(v0, v1, offs, Off(cs, j));
  }

  lemma {:induction false} LinkedSize(v: seq<Byte>, cs: seq<Chunk>)
    requires Linked(v, cs)
    ensures Sized(cs) && Size(cs) <= |v|
  {
  }

  /** Each header in its place makes the list. */
  lemma {:induction false} Relinked(v: seq<Byte>, cs: seq<Chunk>)
    requires Sized(cs) && Size(cs) <= |v|
    requires forall j :: 0 <= j < |cs| ==> InPlace(v, cs, j)
    ensures Linked(v, cs)
  {
  }

  lemma {:induction false} HeaderInside(cs: seq<Chunk>, j: nat)
    requires Sized(cs) && j < |cs|
    ensures Off(cs, j) + HEADER <= Size(cs)
  {
    OffMono(cs, j, |cs|);
  }

  lemma {:induction false} MarkLinked(v0: seq<Byte>, v1: seq<Byte>, cs: seq<Chunk>, i: nat, free: bool)
    requires Linked(v0, cs) && i < |cs| && |v0| == |v1| && OnlyHeaders(v0, v1, {Off(cs, i)})
    requires HeaderIs(v1, Off(cs, i), HeaderOf(cs, i).(free := free))
    ensures Linked(v1, Marked(cs, i, free))
  {
    hide Off, HeaderAt, OnlyHeaders, Linked;
    var r := Marked(cs, i, free);
    LinkedSize(v0, cs);
    MarkOffsets(cs, i, free);
    forall j | 0 <= j < |r| ensures InPlace(v1, r, j) {
      HeaderInside(cs, j);
      if j != i {
        OffApart(cs, i, j);
        Kept(v0, v1, {Off(cs, i)}, cs, j);
      }
    }
    Relinked(v1, r);
  }

  /** The headers a join writes. */
  ghost function JoinSites(cs: seq<Chunk>, i: nat): set<nat>
    requires i + 1 < |cs|
  {
    if i + 2 < |cs| then {Off(cs, i), Off(cs, i + 2)} else {Off(cs, i)}
  }

  lemma {:induction false} JoinLinked(v0: seq<Byte>, v1: seq<Byte>, cs: seq<Chunk>, i: nat)
    requires Linked(v0, cs) && i + 1 < |cs| && |v0| == |v1| && OnlyHeaders(v0, v1, JoinSites(cs, i))
    requires HeaderIs(v1, Off(cs, i), HeaderOf(cs, i).(next := Addr(cs, i + 2), len := cs[i].len + cs[i + 1].len))
    requires i + 2 < |cs| ==> HeaderIs(v1, Off(cs, i + 2), HeaderOf(cs, i + 2).(prev := Addr(cs, i)))
    ensures Linked(v1, Joined(cs, i))
  {
    hide Off, HeaderAt, OnlyHeaders, Linked;
    var r := Joined(cs, i);
    LinkedSize(v0, cs);
    JoinOffsets(cs, i);
    forall j | 0 <= j < |r| ensures InPlace(v1, r, j) {
      var k := if j <= i then j else j + 1;
      assert Off(r, j) == Off(cs, k);
      HeaderInside(cs, k);
      if j != i && j != i + 1 {
        OffApart(cs, i, k);
        if i + 2 < |cs| { OffApart(cs, i + 2, k); }
        Kept(v0, v1, JoinSites(cs, i), cs, k);
      }
      assert Addr(r, j - 1) == Addr(cs, if j - 1 <= i then j - 1 else k - 1);
      assert Addr(r, j + 1) == Addr(cs, if j + 1 <= i then j + 1 else j + 2);
    }
    Relinked(v1, r);
  }

  lemma {:induction false} SplitLinked(v0: seq<Byte>, v1: seq<Byte>, cs: seq<Chunk>, i: nat, n: nat)
    requires Linked(v0, cs) && i + 1 < |cs| && HEADER <= n && n + HEADER <= cs[i].len && |v0| == |v1|
    requires OnlyHeaders(v0, v1, {Off(cs, i), Off(cs, i) + n, Off(cs, i + 1)})
    requires Off(cs, i) + n + HEADER <= |v1|
    requires HeaderIs(v1, Off(cs, i), HeaderOf(cs, i).(next := HEAP_START + Off(cs, i) + n, len := n))
    requires HeaderIs(v1, Off(cs, i) + n, Header(Addr(cs, i), Addr(cs, i + 1), true, cs[i].len - n))
    requires HeaderIs(v1, Off(cs, i + 1), HeaderOf(cs, i + 1).(prev := HEAP_START + Off(cs, i) + n))
    ensures Linked(v1, Split(cs, i, n))
  {
    hide Off, HeaderAt, OnlyHeaders, Linked, Size, Joined;
    var r, offs := Split(cs, i, n), {Off(cs, i), Off(cs, i) + n, Off(cs, i + 1)};
    LinkedSize(v0, cs);
    SplitOffsets(cs, i, n);
    assert Sized(r);
    forall j | 0 <= j < |r| ensures InPlace(v1, r, j) {
      HeaderInside(r, j);
      var k := if j <= i then j else j - 1;
      if j != i + 1 {
        assert Off(r, j) == Off(cs, k);
        if j != i && j != i + 2 {
          OffApart(cs, i, k);
          OffApart(cs, i + 1, k);
          OffApart(r, i + 1, j);
          Kept(v0, v1, offs, cs, k);
        }
      }
      if j != i + 2 { assert Addr(r, j - 1) == Addr(cs, if j - 1 <= i then j - 1 else k - 1); }
      if j != i { assert Addr(r, j + 1) == Addr(cs, if j + 1 <= i then j + 1 else j); }
    }
    Relinked(v1, r);
  }

  lemma {:induction false} DropLinked(v0: seq<Byte>, v1: seq<Byte>, cs: seq<Chunk>)
    requires Linked(v0, cs) && cs != [] && |v0| == |v1|
    requires OnlyHeaders(v0, v1, if |cs| > 1 then {Off(cs, |cs| - 2)} else {})
    requires |cs| > 1 ==> HeaderIs(v1, Off(cs, |cs| - 2), HeaderOf(cs, |cs| - 2).(next := 0))
    ensures Linked(v1, cs[..|cs| - 1])
  {
    hide HeaderAt, OnlyHeaders, Size, Linked;
    var r := cs[..|cs| - 1];
    LinkedSize(v0, cs);
    forall j | 0 <= j <= |r| ensures Off(r, j) == Off(cs, j) { assert r[..j] == cs[..j]; }
    OffNext(cs, |r|);
    assert r[..|r|] == r && cs[..|cs|] == cs;
    forall j | 0 <= j < |r| ensures InPlace(v1, r, j) {
      HeaderInside(cs, j);
      if j < |r| - 1 {
        OffApart(cs, |cs| - 2, j);
        Kept(v0, v1, {Off(cs, |cs| - 2)}, cs, j);
      }
    }
    Relinked(v1, r);
  }

  lemma {:induction false} AppendLinked(v0: seq<Byte>, v1: seq<Byte>, cs: seq<Chunk>, n: nat)
    requires Linked(v0, cs) && n >= HEADER && Size(cs) + n <= |v1| && |v0| == |v1|
    requires OnlyHeaders(v0, v1, if cs == [] then {Size(cs)} else {Size(cs), Off(cs, |cs| - 1)})
    requires HeaderIs(v1, Size(cs), Header(Addr(cs, |cs| - 1), 0, false, n))
    requires cs != [] ==> HeaderIs(v1, Off(cs, |cs| - 1), HeaderOf(cs, |cs| - 1).(next := HEAP_START + Size(cs)))
    ensures Linked(v1, cs + [Chunk(n, false)])
  {
    hide HeaderAt, OnlyHeaders, Size, Linked;
    var r := cs + [Chunk(n, false)];
    LinkedSize(v0, cs);
    forall j | 0 <= j <= |cs| ensures Off(r, j) == Off(cs, j) { assert r[..j] == cs[..j]; }
    OffNext(r, |cs|);
    assert r[..|r|] == r && cs[..|cs|] == cs;
    forall j | 0 <= j < |r| ensures InPlace(v1, r, j) {
      HeaderInside(r, j);
      if j < |cs| - 1 {
        OffApart(cs, |cs| - 1, j);
        HeaderInside(cs, j);
        Kept(v0, v1, {Size(cs), Off(cs, |cs| - 1)}, cs, j);
      }
    }
    Relinked(v1, r);
  }

  /** The list only depends on the bytes below its end. */
  lemma {:induction false} PrefixLinked(v0: seq<Byte>, v1: seq<Byte>, cs: seq<Chunk>)
    requires Linked(v0, cs) && Size(cs) <= |v1| && (v1 <= v0 || v0 <= v1)
    ensures Linked(v1, cs)
  {
    hide Size;
    forall j | 0 <= j < |cs| ensures InPlace(v1, cs, j) {
      OffMono(cs, j, |cs|);
      assert cs[..|cs|] == cs && InPlace(v0, cs, j);
    }
  }

  // ---- field stores ------------------------------------------------------------------------

  /** The header at `o` became `h`, and no byte outside it changed. */
  ghost predicate Wrote(v0: seq<Byte>, v1: seq<Byte>, o: nat, h: Header) {
    && |v0| == |v1| && o + HEADER <= |v0| && HeaderAt(v1, o) == h
    && (forall p :: 0 <= p && p + HEADER <= |v0| && Apart(o, p) ==> HeaderAt(v1, p) == HeaderAt(v0, p))
    && OnlyHeaders(v0, v1, {o})
  }

  lemma {:induction false} WroteWord(v0: seq<Byte>, v1: seq<Byte>, o: nat, f: nat, w: nat)
    requires o + HEADER <= |v0| && w < WORD_LIMIT && (f == 0 || f == 4 || f == 8) && v1 == PutWord(v0, o + f, w)
    ensures Wrote(v0, v1, o, HeaderAt(v1, o))
    ensures HeaderAt(v1, o) ==
              if f == 0 then HeaderAt(v0, o).(prev := w)
              else if f == 4 then HeaderAt(v0, o).(next := w)
              else HeaderAt(v0, o).(free := w % 2 == 1, len := w / 2)
  {
    assert OnlyHeaders(v0, v1, {o});
    forall p | 0 <= p && p + HEADER <= |v0| && Apart(o, p) ensures HeaderAt(v1, p) == HeaderAt(v0, p) {
      HeaderKept(v0, v1, {o}, p);
    }
  }

  lemma {:induction false} OnlyNone(v: seq<Byte>, s: set<nat>)
    ensures OnlyHeaders(v, v, s)
  {
  }

  /** One more write among the headers at `s`. */
  lemma {:induction false} WroteIn(v0: seq<Byte>, v1: seq<Byte>, v2: seq<Byte>, s: set<nat>, o: nat, h: Header)
    requires OnlyHeaders(v0, v1, s) && Wrote(v1, v2, o, h) && o in s
    ensures OnlyHeaders(v0, v2, s)
  {
    OnlyHeadersTrans(v0, v1, v2, s, {o});
    assert s + {o} == s;
  }

  /** The stores of split_chunk, in order. */
  lemma {:induction false} SplitWrites(vs: seq<seq<Byte>>, o: nat, q: nat, r: nat, n: nat, left: nat)
    requires |vs| == 8 && Apart(o, q) && Apart(o, r) && Apart(q, r)
    requires forall k :: 0 <= k < 8 ==> o + HEADER <= |vs[k]| && q + HEADER <= |vs[k]| && r + HEADER <= |vs[k]|
    requires Wrote(vs[0], vs[1], q, HeaderAt(vs[0], q).(free := true))
    requires Wrote(vs[1], vs[2], q, HeaderAt(vs[1], q).(len := left))
    requires Wrote(vs[2], vs[3], o, HeaderAt(vs[2], o).(len := n))
    requires Wrote(vs[3], vs[4], q, HeaderAt(vs[3], q).(prev := HEAP_START + o))
    requires Wrote(vs[4], vs[5], q, HeaderAt(vs[4], q).(next := HEAP_START + r))
    requires Wrote(vs[5], vs[6], r, HeaderAt(vs[5], r).(prev := HEAP_START + q))
    requires Wrote(vs[6], vs[7], o, HeaderAt(vs[6], o).(next := HEAP_START + q))
    ensures HeaderAt(vs[4], o).next == HeaderAt(vs[0], o).next
    ensures HeaderAt(vs[7], o) == HeaderAt(vs[0], o).(next := HEAP_START + q, len := n)
    ensures HeaderAt(vs[7], q) == Header(HEAP_START + o, HEAP_START + r, true, left)
    ensures HeaderAt(vs[7], r) == HeaderAt(vs[0], r).(prev := HEAP_START + q)
    ensures OnlyHeaders(vs[0], vs[7], {o, q, r})
  {
    hide HeaderAt, OnlyHeaders;
    var s := {o, q, r};
    OnlyNone(vs[0], s);
    WroteIn(vs[0], vs[0], vs[1], s, q, HeaderAt(vs[1], q));
    WroteIn(vs[0], vs[1], vs[2], s, q, HeaderAt(vs[2], q));
    WroteIn(vs[0], vs[2], vs[3], s, o, HeaderAt(vs[3], o));
    WroteIn(vs[0], vs[3], vs[4], s, q, HeaderAt(vs[4], q));
    WroteIn(vs[0], vs[4], vs[5], s, q, HeaderAt(vs[5], q));
    WroteIn(vs[0], vs[5], vs[6], s, r, HeaderAt(vs[6], r));
    WroteIn(vs[0], vs[6], vs[7], s, o, HeaderAt(vs[7], o));
  }

  lemma {:induction false} NextKept(v0: seq<Byte>, v1: seq<Byte>, v2: seq<Byte>, v3: seq<Byte>, v4: seq<Byte>, o: nat,
                                    q: nat, n: nat)
    requires Apart(o, q) && o + HEADER <= |v0| && q + HEADER <= |v0|
    requires Wrote(v0, v1, q, HeaderAt(v0, q).(free := true))
             && exists l :: Wrote(v1, v2, q, HeaderAt(v1, q).(len := l))
    requires Wrote(v2, v3, o, HeaderAt(v2, o).(len := n)) && exists p :: Wrote(v3, v4, q, HeaderAt(v3, q).(prev := p))
    ensures HeaderAt(v4, o).next == HeaderAt(v0, o).next
  {
    hide HeaderAt, OnlyHeaders;
  }

  /** The stores that glue a chunk to its right neighbour, in order. */
  lemma {:induction false} GlueRightWrites(v0: seq<Byte>, v1: seq<Byte>, v2: seq<Byte>, v3: seq<Byte>, o: nat, r: nat,
                                           len: nat, next: nat)
    requires Apart(o, r) && |v0| == |v1| == |v2| == |v3| && o + HEADER <= |v0| && r + HEADER <= |v0|
    requires Wrote(v0, v1, o, HeaderAt(v0, o).(len := len))
    requires Wrote(v1, v2, r, HeaderAt(v1, r).(prev := HEAP_START + o))
    requires Wrote(v2, v3, o, HeaderAt(v2, o).(next := next))
    ensures HeaderAt(v3, o) == HeaderAt(v0, o).(next := next, len := len)
    ensures HeaderAt(v3, r) == HeaderAt(v0, r).(prev := HEAP_START + o)
    ensures OnlyHeaders(v0, v3, {o, r})
  {
    hide HeaderAt, OnlyHeaders;
    var s := {o, r};
    OnlyNone(v0, s);
    WroteIn(v0, v0, v1, s, o, HeaderAt(v1, o));
    WroteIn(v0, v1, v2, s, r, HeaderAt(v2, r));
    WroteIn(v0, v2, v3, s, o, HeaderAt(v3, o));
  }

  /** The first two stores that glue a chunk to its left neighbour at `o`. */
  lemma {:induction false} GlueLeftWrites(v0: seq<Byte>, v1: seq<Byte>, v2: seq<Byte>, o: nat, len: nat, next: nat)
    requires |v0| == |v1| == |v2| && o + HEADER <= |v0|
    requires Wrote(v0, v1, o, HeaderAt(v0, o).(len := len))
    requires Wrote(v1, v2, o, HeaderAt(v1, o).(next := next))
    ensures Wrote(v0, v2, o, HeaderAt(v0, o).(next := next, len := len))
  {
    hide HeaderAt, OnlyHeaders;
    OnlyNone(v0, {o});
    WroteIn(v0, v0, v1, {o}, o, HeaderAt(v1, o));
    WroteIn(v0, v1, v2, {o}, o, HeaderAt(v2, o));
  }

  /** Offsets of all headers of the list. */
  ghost function Sites(cs: seq<Chunk>): set<nat> {
    set j | 0 <= j < |cs| :: Off(cs, j)
  }

  lemma {:induction false} OnlyMore(v0: seq<Byte>, v1: seq<Byte>, s: set<nat>, t: set<nat>)
    requires OnlyHeaders(v0, v1, s) && s <= t
    ensures OnlyHeaders(v0, v1, t)
  {
  }

  lemma {:induction false} JoinedSites(cs: seq<Chunk>, i: nat)
    requires i + 1 < |cs|
    ensures Sites(Joined(cs, i)) <= Sites(cs) && JoinSites(cs, i) <= Sites(cs)
  {
    hide Off;
    JoinOffsets(cs, i);
    var r := Joined(cs, i);
    forall j | 0 <= j < |r| ensures Off(r, j) in Sites(cs) {
      assert Off(r, j) == Off(cs, if j <= i then j else j + 1);
    }
  }

  /** No header of the list overlaps the payload of a live block. */
  lemma {:induction false} SitesSafe(cs: seq<Chunk>, o: nat, b: Block)
    requires Sized(cs) && o in Sites(cs) && b in Live(cs)
    ensures o <= b.0 || b.0 + b.1 <= o
  {
    hide Off;
    LiveIff(cs, b);
    var i :| 0 <= i < |cs| && !cs[i].free && b == (Off(cs, i), cs[i].len);
    var j :| 0 <= j < |cs| && o == Off(cs, j);
    if i < j { OffMono(cs, i, j); }
    if j < i { OffMono(cs, j, i); }
  }

  predicate SameByte(v0: seq<Byte>, v1: seq<Byte>, k: nat) {
    k < |v0| ==> k < |v1| && v1[k] == v0[k]
  }

  /** The bytes behind the headers of the blocks in `live` are unchanged. */
  ghost predicate PayloadsKept(v0: seq<Byte>, v1: seq<Byte>, live: set<Block>) {
    forall b: Block, k :: b in live && b.0 + HEADER <= k < b.0 + b.1 ==> SameByte(v0, v1, k)
  }

  /** Bytes stored in the payload of block `b` change no header and no other payload. */
  lemma {:induction false} PayloadStored(v: seq<Byte>, cs: seq<Chunk>, b: Block, o: nat, src: seq<Byte>)
    requires Linked(v, cs) && b in Live(cs) && b.0 + HEADER <= o && o + |src| <= b.0 + b.1
    ensures o + |src| <= |v| && Linked(Splice(v, o, src), cs)
    ensures PayloadsKept(v, Splice(v, o, src), Live(cs) - {b})
  {
    hide Off, Live, Size, Splice;
    InHeap(cs, b);
    var u := Splice(v, o, src);
    forall i | 0 <= i < |cs| ensures InPlace(u, cs, i) {
      assert InPlace(v, cs, i) && Off(cs, i) in Sites(cs);
      SitesSafe(cs, Off(cs, i), b);
    }
    forall c: Block, k | c in Live(cs) - {b} && c.0 + HEADER <= k < c.0 + c.1 ensures SameByte(v, u, k) {
      LiveDisjoint(cs, b, c);
    }
  }

  lemma PayloadsRefl(v: seq<Byte>, live: set<Block>)
    ensures PayloadsKept(v, v, live)
  {
  }

  lemma PayloadsFewer(v0: seq<Byte>, v1: seq<Byte>, live: set<Block>, fewer: set<Block>)
    requires PayloadsKept(v0, v1, live) && fewer <= live
    ensures PayloadsKept(v0, v1, fewer)
  {
  }

  lemma PayloadsTrans(v0: seq<Byte>, v1: seq<Byte>, v2: seq<Byte>, live: set<Block>)
    requires PayloadsKept(v0, v1, live) && PayloadsKept(v1, v2, live)
    ensures PayloadsKept(v0, v2, live)
  {
    forall b: Block, k | b in live && b.0 + HEADER <= k < b.0 + b.1 ensures SameByte(v0, v2, k) {
      assert SameByte(v0, v1, k) && SameByte(v1, v2, k);
    }
  }

  lemma {:induction false} PayloadsSafe(v0: seq<Byte>, v1: seq<Byte>, cs: seq<Chunk>, live: set<Block>)
    requires Sized(cs) && live <= Live(cs) && OnlyHeaders(v0, v1, Sites(cs))
    ensures PayloadsKept(v0, v1, live)
  {
    hide Live, Off;
    forall b: Block, k | b in live && b.0 + HEADER <= k < b.0 + b.1 ensures SameByte(v0, v1, k) {
      forall o | o in Sites(cs) ensures !(o <= k < o + HEADER) {
        SitesSafe(cs, o, b);
      }
    }
  }

  lemma {:induction false} ChunkNext(v: seq<Byte>, cs: seq<Chunk>, i: nat)
    requires Linked(v, cs) && i < |cs| && Addr(cs, i + 1) != 0
    ensures i + 1 < |cs| && HeaderIs(v, Off(cs, i + 1), HeaderOf(cs, i + 1)) && Apart(Off(cs, i), Off(cs, i + 1))
    ensures Size(cs) <= |v| && i > 0 ==> Apart(Off(cs, i - 1), Off(cs, i + 1))
  {
    assert InPlace(v, cs, i + 1);
    OffApart(cs, i, i + 1);
    if i > 0 { OffApart(cs, i - 1, i + 1); }
  }

  /** Gluing chunk `i + 1` to chunk `i`, with a chunk behind them. */
  lemma {:induction false} GlueLeftDone(v0: seq<Byte>, v2: seq<Byte>, v3: seq<Byte>, cs: seq<Chunk>, i: nat)
    requires Linked(v0, cs) && i + 2 < |cs| && |v0| == |v2| == |v3| && Off(cs, i) + HEADER <= |v0|
    requires Off(cs, i + 2) + HEADER <= |v0|
    requires
      var len := cs[i].len + cs[i + 1].len;
      Wrote(v0, v2, Off(cs, i), HeaderAt(v0, Off(cs, i)).(next := Addr(cs, i + 2), len := len))
    requires Wrote(v2, v3, Off(cs, i + 2), HeaderAt(v2, Off(cs, i + 2)).(prev := Addr(cs, i)))
    ensures Linked(v3, Joined(cs, i)) && OnlyHeaders(v0, v3, Sites(cs))
  {
    hide HeaderAt, OnlyHeaders, Off, Size;
    var o, r, s := Off(cs, i), Off(cs, i + 2), JoinSites(cs, i);
    assert InPlace(v0, cs, i) && InPlace(v0, cs, i + 2);
    OffApart(cs, i, i + 2);
    OnlyNone(v0, s);
    WroteIn(v0, v0, v2, s, o, HeaderAt(v2, o));
    WroteIn(v0, v2, v3, s, r, HeaderAt(v3, r));
    JoinLinked(v0, v3, cs, i);
    JoinedSites(cs, i);
    OnlyMore(v0, v3, s, Sites(cs));
  }

  /** Gluing the last chunk to chunk `i`. */
  lemma {:induction false} GlueLeftTop(v0: seq<Byte>, v2: seq<Byte>, cs: seq<Chunk>, i: nat)
    requires Linked(v0, cs) && i + 2 == |cs| && |v0| == |v2| && Off(cs, i) + HEADER <= |v0|
    requires Wrote(v0, v2, Off(cs, i), HeaderAt(v0, Off(cs, i)).(next := 0, len := cs[i].len + cs[i + 1].len))
    ensures Linked(v2, Joined(cs, i)) && OnlyHeaders(v0, v2, Sites(cs))
  {
    hide HeaderAt, OnlyHeaders, Off, Size;
    var o, s := Off(cs, i), JoinSites(cs, i);
    assert InPlace(v0, cs, i);
    OnlyNone(v0, s);
    WroteIn(v0, v0, v2, s, o, HeaderAt(v2, o));
    JoinLinked(v0, v2, cs, i);
    JoinedSites(cs, i);
    OnlyMore(v0, v2, s, Sites(cs));
  }

  // ---- freeing, step by step ------------------------------------------------------------------

  function GluedRight(cs: seq<Chunk>, i: nat): seq<Chunk>
    requires i < |cs|
  {
    if i + 1 < |cs| && cs[i + 1].free then Joined(cs, i) else cs
  }

  function GluedLeft(cs: seq<Chunk>, i: nat): seq<Chunk>
    requires i < |cs|
  {
    if i > 0 && cs[i - 1].free then Joined(cs, i - 1) else cs
  }

  /** glue_chunk's steps make `Free`: mark, glue right, glue left, drop a free last chunk. */
  lemma {:induction false} FreeSteps(cs: seq<Chunk>, i: nat)
    requires Canonical(cs) && i < |cs| && !cs[i].free
    ensures
      var r1 := GluedRight(Marked(cs, i, true), i);
      && i < |r1|
      && var r2, k := GluedLeft(r1, i), if i > 0 && r1[i - 1].free then i - 1 else i;
      && k < |r2| && Size(r2) == Size(cs)
      && Chunks.Free(cs, i) == if k + 1 == |r2| then r2[..k] else r2
    ensures i + 1 < |cs| && cs[i + 1].free ==> i + 2 < |cs|
  {
    hide Size, Live, LiveFrom, Off, Marked, GluedRight, GluedLeft, Coalesced;
    var lo, hi := HoleStart(cs, i), HoleEnd(cs, i);
    FreeSizes(cs, i);
    MarkedAt(cs, i);
    RightGlued(cs, i, Chunk(Size(cs[i..hi]), true));
    LeftGlued(cs, i, GluedRight(Marked(cs, i, true), i), Size(cs[i..hi]));
    NotLast(cs, i);
  }

  lemma {:induction false} NotLast(cs: seq<Chunk>, i: nat)
    requires Canonical(cs) && i < |cs|
    ensures i + 1 < |cs| && cs[i + 1].free ==> i + 2 < |cs|
  {
  }

  lemma {:induction false} RightGlued(cs: seq<Chunk>, i: nat, c: Chunk)
    requires i < |cs| && i < |GluedRight(Marked(cs, i, true), i)| && GluedRight(Marked(cs, i, true), i)[i] == c
    ensures GluedRight(Marked(cs, i, true), i) == cs[..i] + [c] + cs[HoleEnd(cs, i)..]
  {
  }

  lemma {:induction false} LeftGlued(cs: seq<Chunk>, i: nat, r1: seq<Chunk>, len: nat)
    requires i < |cs| && r1 == cs[..i] + [Chunk(len, true)] + cs[HoleEnd(cs, i)..]
    ensures
      var lo := HoleStart(cs, i);
      GluedLeft(r1, i) == cs[..lo] + [Chunk((if lo < i then cs[lo].len else 0) + len, true)] + cs[HoleEnd(cs, i)..]
  {
    assert i > 0 ==> r1[i - 1] == cs[i - 1];
  }

  lemma {:induction false} FreeSizes(cs: seq<Chunk>, i: nat)
    requires Canonical(cs) && i < |cs| && !cs[i].free
    ensures
      var lo, hi, r1 := HoleStart(cs, i), HoleEnd(cs, i), GluedRight(Marked(cs, i, true), i);
      && i < |r1| && r1[i] == Chunk(Size(cs[i..hi]), true) && Size(GluedLeft(r1, i)) == Size(cs)
      && Size(cs[lo..hi]) == (if lo < i then cs[lo].len else 0) + Size(cs[i..hi])
  {
    hide Off, LiveFrom, Live, Size, Marked, Joined;
    var lo, hi, m := HoleStart(cs, i), HoleEnd(cs, i), Marked(cs, i, true);
    MarkedAt(cs, i);
    var r1 := GluedRight(m, i);
    MarkOffsets(cs, i, true);
    SizeTwo(cs[i], cs[i]);
    if i + 1 < |m| && m[i + 1].free {
      JoinOffsets(m, i);
      JoinedAt(m, i);
      assert cs[i..hi] == [cs[i], cs[i + 1]];
      SizeTwo(cs[i], cs[i + 1]);
    } else {
      assert cs[i..hi] == [cs[i]];
    }
    if i > 0 && r1[i - 1].free { JoinOffsets(r1, i - 1); }
    if lo < i {
      assert cs[lo..hi] == [cs[lo]] + cs[i..hi];
      SizeConcat([cs[lo]], cs[i..hi]);
      SizeTwo(cs[lo], cs[lo]);
    }
  }

  lemma {:induction false} MarkedAt(cs: seq<Chunk>, i: nat)
    requires i < |cs|
    ensures
      var m := Marked(cs, i, true);
      |m| == |cs| && m[i] == Chunk(cs[i].len, true) && forall j :: 0 <= j < |cs| && j != i ==> m[j] == cs[j]
  {
  }

  lemma {:induction false} JoinedAt(cs: seq<Chunk>, i: nat)
    requires i + 1 < |cs|
    ensures
      var r := Joined(cs, i);
      && |r| == |cs| - 1 && r[i] == Chunk(cs[i].len + cs[i + 1].len, cs[i].free)
      && forall j :: 0 <= j < i ==> r[j] == cs[j]
  {
  }

  lemma {:induction false} WroteOne(v0: seq<Byte>, v1: seq<Byte>, o: nat, h: Header)
    requires Wrote(v0, v1, o, h)
    ensures HeaderIs(v1, o, h) && OnlyHeaders(v0, v1, {o})
  {
  }

  lemma {:induction false} DropSize(cs: seq<Chunk>)
    requires cs != []
    ensures Size(cs[..|cs| - 1]) == Off(cs, |cs| - 1)
    ensures RoundUp(HEAP_START + Off(cs, |cs| - 1)) <= RoundUp(HEAP_START + Size(cs))
  {
    OffNext(cs, |cs| - 1);
    assert cs[..|cs|] == cs;
  }

  /** Gluing adds no header. */
  lemma {:induction false} GluedSites(cs: seq<Chunk>, i: nat)
    requires i < |cs|
    ensures Sites(GluedRight(cs, i)) <= Sites(cs) && Sites(GluedLeft(cs, i)) <= Sites(cs)
  {
    if i + 1 < |cs| { JoinedSites(cs, i); }
    if i > 0 { JoinedSites(cs, i - 1); }
  }

  lemma {:induction false} GlueRightAddr(cs: seq<Chunk>, i: nat)
    requires i < |cs|
    ensures i < |GluedRight(cs, i)| && Addr(GluedRight(cs, i), i) == Addr(cs, i)
  {
    if i + 1 < |cs| { JoinOffsets(cs, i); }
  }

  lemma {:induction false} OnlyTrans(v0: seq<Byte>, v1: seq<Byte>, v2: seq<Byte>, s: set<nat>, t: set<nat>)
    requires OnlyHeaders(v0, v1, s) && OnlyHeaders(v1, v2, t) && t <= s
    ensures OnlyHeaders(v0, v2, s)
  {
    OnlyHeadersTrans(v0, v1, v2, s, t);
    assert s + t == s;
  }

  lemma {:induction false} MarkSites(cs: seq<Chunk>, i: nat, free: bool)
    requires i < |cs|
    ensures Sites(Marked(cs, i, free)) == Sites(cs) && Off(cs, i) in Sites(cs)
  {
    hide Off;
    MarkOffsets(cs, i, free);
    var r := Marked(cs, i, free);
    assert forall j :: 0 <= j < |cs| ==> Off(r, j) == Off(cs, j);
  }

  /** Writing headers and dropping memory above the list keeps the payloads of the blocks
      that remain. */
  lemma {:induction false} KeptBelow(v0: seq<Byte>, v: seq<Byte>, v1: seq<Byte>, cs: seq<Chunk>, r: seq<Chunk>)
    requires Linked(v0, cs) && OnlyHeaders(v0, v, Sites(cs)) && v1 <= v && Linked(v1, r) && Live(r) <= Live(cs)
    ensures PayloadsKept(v0, v1, Live(r))
  {
    hide Off, Live;
    PayloadsSafe(v0, v, cs, Live(r));
    forall b: Block, k | b in Live(r) && b.0 + HEADER <= k < b.0 + b.1 ensures SameByte(v0, v1, k) {
      InHeap(r, b);
      assert SameByte(v0, v, k);
    }
  }

  lemma {:induction false} InHeap(cs: seq<Chunk>, b: Block)
    requires b in Live(cs)
    ensures b.0 + b.1 <= Size(cs)
  {
    LiveBounds(cs, 0, b);
  }

  // ---- allocating, step by step ------------------------------------------------------------

  /** Where the walk through the list starts. */
  lemma {:induction false} StartAddr(cs: seq<Chunk>)
    ensures Addr(cs, 0) == (if cs == [] then 0 else HEAP_START) && Addr(cs, -1) == 0
  {
  }

  lemma {:induction false} AddrZero(cs: seq<Chunk>, i: nat)
    requires i <= |cs| && Addr(cs, i) == 0
    ensures i == |cs|
  {
  }

  lemma {:induction false} AddrNone(cs: seq<Chunk>)
    requires Addr(cs, |cs| - 1) == 0
    ensures cs == [] && Size(cs) == 0
  {
  }

  lemma {:induction false} FitAt(cs: seq<Chunk>, m: nat, i: nat)
    requires i <= |cs| && (forall j :: 0 <= j < i ==> !(cs[j].free && cs[j].len >= m))
    requires i < |cs| ==> cs[i].free && cs[i].len >= m
    ensures FirstFit(cs, m) == i
  {
  }

  lemma {:induction false} ExtendSize(cs: seq<Chunk>, m: nat, top: nat)
    requires top == RoundUp(HEAP_START + Size(cs))
    ensures Size(cs + [Chunk(m, false)]) == Size(cs) + m
    ensures HEAP_START + Size(cs) + m <= top ==> RoundUp(HEAP_START + Size(cs) + m) == top
  {
    SizeConcat(cs, [Chunk(m, false)]);
  }

  lemma {:induction false} LastInside(v: seq<Byte>, cs: seq<Chunk>)
    requires Linked(v, cs) && Addr(cs, |cs| - 1) != 0
    ensures cs != [] && Off(cs, |cs| - 1) + HEADER <= Size(cs) <= |v|
  {
    HeaderInside(cs, |cs| - 1);
  }

  lemma {:induction false} LastEnd(cs: seq<Chunk>)
    requires cs != []
    ensures Addr(cs, |cs| - 1) + cs[|cs| - 1].len == HEAP_START + Size(cs)
  {
    OffNext(cs, |cs| - 1);
    assert cs[..|cs|] == cs;
  }

  /** Splitting the hole and marking its first part is the allocation. */
  lemma {:induction false} HoleSteps(cs: seq<Chunk>, i: nat, m: nat)
    requires Canonical(cs) && i < |cs| && HEADER <= m && FirstFit(cs, m) == i
    ensures i + 1 < |cs| && m <= cs[i].len && Allocated(cs, m).0 == Off(cs, i)
    ensures
      var r := if cs[i].len - m <= HEADER then cs else Split(cs, i, m);
      i < |r| && Marked(r, i, false) == Alloc(cs, m) && Off(r, i) == Off(cs, i) && Size(Alloc(cs, m)) == Size(cs)
  {
    hide Off, Size, Live, FirstFit;
    if cs[i].len - m <= HEADER {
      assert Marked(cs, i, false) == cs[..i] + [Chunk(cs[i].len, false)] + cs[i + 1..];
      MarkOffsets(cs, i, false);
    } else {
      var r := Split(cs, i, m);
      assert Marked(r, i, false) == cs[..i] + [Chunk(m, false), Chunk(cs[i].len - m, true)] + cs[i + 1..];
      SplitOffsets(cs, i, m);
      MarkOffsets(r, i, false);
    }
  }

  /** The headers written when a hole is taken spare the payloads of the live blocks. */
  lemma {:induction false} HoleKept(v0: seq<Byte>, v1: seq<Byte>, v2: seq<Byte>, cs: seq<Chunk>, i: nat, m: nat)
    requires Canonical(cs) && i < |cs| && HEADER <= m && FirstFit(cs, m) == i
    requires i + 1 < |cs| && OnlyHeaders(v0, v1, {Off(cs, i), Off(cs, i) + m, Off(cs, i + 1)})
    requires OnlyHeaders(v1, v2, {Off(cs, i)})
    ensures PayloadsKept(v0, v2, Live(cs))
  {
    hide Off, Live, LiveFrom, OnlyHeaders;
    var s := {Off(cs, i), Off(cs, i) + m, Off(cs, i + 1)};
    OnlyTrans(v0, v1, v2, s, {Off(cs, i)});
    OffNext(cs, i);
    forall o, b | o in s && b in Live(cs) ensures o <= b.0 || b.0 + b.1 <= o {
      HoleSafe(cs, i, o, b);
    }
    PayloadsApart(v0, v2, s, Live(cs));
  }

  /** Nothing at or inside a free chunk, up to the next one, overlaps a live block. */
  lemma {:induction false} HoleSafe(cs: seq<Chunk>, i: nat, o: nat, b: Block)
    requires Sized(cs) && i + 1 < |cs| && cs[i].free && b in Live(cs) && Off(cs, i) <= o <= Off(cs, i + 1)
    ensures o <= b.0 || b.0 + b.1 <= o
  {
    hide Off;
    LiveIff(cs, b);
    var k :| 0 <= k < |cs| && !cs[k].free && b == (Off(cs, k), cs[k].len);
    if k < i { OffMono(cs, k, i); }
    if i + 1 < k { OffMono(cs, i + 1, k); }
  }

  lemma {:induction false} PayloadsApart(v0: seq<Byte>, v1: seq<Byte>, s: set<nat>, live: set<Block>)
    requires OnlyHeaders(v0, v1, s) && forall o, b :: o in s && b in live ==> o <= b.0 || b.0 + b.1 <= o
    ensures PayloadsKept(v0, v1, live)
  {
    forall b: Block, k | b in live && b.0 + HEADER <= k < b.0 + b.1 ensures SameByte(v0, v1, k) {
      assert forall o :: o in s ==> o <= b.0 || b.0 + b.1 <= o;
    }
  }

  /** The stores that make a header from scratch, in order. */
  lemma {:induction false} AppendWrites(v1: seq<Byte>, v2: seq<Byte>, v3: seq<Byte>, v4: seq<Byte>, v5: seq<Byte>,
                                        o: nat, prev: nat, m: nat)
    requires |v1| == |v2| == |v3| == |v4| == |v5| && o + HEADER <= |v1|
    requires Wrote(v1, v2, o, HeaderAt(v1, o).(prev := prev)) && Wrote(v2, v3, o, HeaderAt(v2, o).(next := 0))
    requires Wrote(v3, v4, o, HeaderAt(v3, o).(free := false)) && Wrote(v4, v5, o, HeaderAt(v4, o).(len := m))
    ensures Wrote(v1, v5, o, Header(prev, 0, false, m))
  {
    hide HeaderAt, OnlyHeaders;
    var s := {o};
    OnlyNone(v1, s);
    WroteIn(v1, v1, v2, s, o, HeaderAt(v2, o));
    WroteIn(v1, v2, v3, s, o, HeaderAt(v3, o));
    WroteIn(v1, v3, v4, s, o, HeaderAt(v4, o));
    WroteIn(v1, v4, v5, s, o, HeaderAt(v5, o));
  }

  lemma {:induction false} AppendFirst(v1: seq<Byte>, v5: seq<Byte>, cs: seq<Chunk>, m: nat)
    requires Linked(v1, cs) && cs == [] && HEADER <= m && Size(cs) + m <= |v1| == |v5|
    requires Wrote(v1, v5, Size(cs), Header(0, 0, false, m))
    ensures Linked(v5, cs + [Chunk(m, false)]) && OnlyHeaders(v1, v5, {Size(cs)})
  {
    hide HeaderAt, OnlyHeaders, Linked, Size;
    AppendLinked(v1, v5, cs, m);
  }

  lemma {:induction false} AppendLast(v1: seq<Byte>, v5: seq<Byte>, v6: seq<Byte>, cs: seq<Chunk>, m: nat)
    requires Linked(v1, cs) && cs != [] && HEADER <= m && Size(cs) + m <= |v1| == |v5| == |v6|
    requires Off(cs, |cs| - 1) + HEADER <= |v1| && Wrote(v1, v5, Size(cs), Header(Addr(cs, |cs| - 1), 0, false, m))
    requires Wrote(v5, v6, Off(cs, |cs| - 1), HeaderAt(v5, Off(cs, |cs| - 1)).(next := HEAP_START + Size(cs)))
    ensures Linked(v6, cs + [Chunk(m, false)]) && OnlyHeaders(v1, v6, {Size(cs), Off(cs, |cs| - 1)})
  {
    hide HeaderAt, OnlyHeaders, Size, Off;
    var s, o := {Size(cs), Off(cs, |cs| - 1)}, Off(cs, |cs| - 1);
    assert InPlace(v1, cs, |cs| - 1);
    HeaderInside(cs, |cs| - 1);
    OnlyNone(v1, s);
    WroteIn(v1, v1, v5, s, Size(cs), HeaderAt(v5, Size(cs)));
    WroteIn(v1, v5, v6, s, o, HeaderAt(v6, o));
    AppendLinked(v1, v6, cs, m);
  }

  /** Extending the heap spares the payloads of the live blocks. */
  lemma {:induction false} ExtendKept(v0: seq<Byte>, v1: seq<Byte>, v2: seq<Byte>, cs: seq<Chunk>, m: nat)
    requires Linked(v0, cs) && v0 <= v1
    requires OnlyHeaders(v1, v2, if cs == [] then {Size(cs)} else {Size(cs), Off(cs, |cs| - 1)})
    ensures PayloadsKept(v0, v2, Live(cs))
  {
    hide Off, Live, LiveFrom, OnlyHeaders, Size;
    var s := if cs == [] then {Size(cs)} else {Size(cs), Off(cs, |cs| - 1)};
    forall o, b | o in s && b in Live(cs) ensures o <= b.0 || b.0 + b.1 <= o {
      InHeap(cs, b);
      if o != Size(cs) { SitesSafe(cs, o, b); }
    }
    PayloadsApart(v1, v2, s, Live(cs));
    PayloadsPrefix(v0, v1, v2, Live(cs));
  }

  lemma {:induction false} PayloadsPrefix(v0: seq<Byte>, v1: seq<Byte>, v2: seq<Byte>, live: set<Block>)
    requires v0 <= v1 && PayloadsKept(v1, v2, live)
    ensures PayloadsKept(v0, v2, live)
  {
    forall b: Block, k | b in live && b.0 + HEADER <= k < b.0 + b.1 ensures SameByte(v0, v2, k) {
      assert SameByte(v1, v2, k);
    }
  }
}

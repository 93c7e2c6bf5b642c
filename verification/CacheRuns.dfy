/** Whole runs of the buffer cache against a disk without a cache: holders take blocks, change
    them, write them and give them back, several at a time and through several devices. */
module CacheRuns {
  import opened BufferRing
  import opened Cache

  // ---- a disk without a cache -----------------------------------------------------------------

  /** A block in its holder's hands, and whether it was changed since it was last written. */
  datatype Copy = Copy(data: Sector, changed: bool)

  datatype Flat = Flat(disk: seq<Sector>, held: map<Key, Copy>)

  datatype Event = Take(k: Key) | Change(k: Key, data: Sector) | Write(k: Key) | Give(k: Key)

  /** Data of a block taken, a wait for its holder, a panic for want of buffers, or nothing. */
  datatype Answer = Data(s: Sector) | Waits | Panics | Done

  /** Blocks are on the memory disk, and only holders change, write and give back. */
  predicate Legal(f: Flat, e: Event) {
    if e.Take? then Major(e.k.dev) == MEM_MAJOR && e.k.num < |f.disk|
    else e.k in f.held && e.k.num < |f.disk|
  }

  /** As many blocks can be held as there are buffers. */
  function FlatStep(f: Flat, e: Event): (g: Flat)
    requires Legal(f, e)
    ensures |g.disk| == |f.disk|
  {
    match e
    case Take(k) =>
      if k in f.held || |f.held| >= NBUF then f else f.(held := f.held[k := Copy(f.disk[k.num], false)])
    case Change(k, data) => f.(held := f.held[k := Copy(data, true)])
    case Write(k) => Flat(f.disk[k.num := f.held[k].data], f.held[k := f.held[k].(changed := false)])
    case Give(k) => f.(held := f.held - {k})
  }

  function FlatAnswer(f: Flat, e: Event): Answer
    requires Legal(f, e)
  {
    if !e.Take? then Done
    else if e.k in f.held then Waits
    else if |f.held| >= NBUF then Panics
    else Data(f.disk[e.k.num])
  }

  predicate LegalRun(f: Flat, es: seq<Event>)
    decreases |es|, 0
  {
    es == [] || (LegalRun(f, es[..|es| - 1]) && Legal(FlatAfter(f, es[..|es| - 1]), es[|es| - 1]))
  }

  function FlatAfter(f: Flat, es: seq<Event>): (g: Flat)
    requires LegalRun(f, es)
    ensures |g.disk| == |f.disk|
    decreases |es|, 1
  {
    if es == [] then f else FlatStep(FlatAfter(f, es[..|es| - 1]), es[|es| - 1])
  }

  /** Every prefix of a legal run is one. */
  lemma {:induction false} Prefix(f: Flat, es: seq<Event>, n: nat)
    requires LegalRun(f, es) && n <= |es|
    ensures LegalRun(f, es[..n])
    ensures n < |es| ==>
              && Legal(FlatAfter(f, es[..n]), es[n]) && LegalRun(f, es[..n + 1])
              && FlatAfter(f, es[..n + 1]) == FlatStep(FlatAfter(f, es[..n]), es[n])
    decreases |es|
  {
    if n == |es| {
      assert es[..n] == es;
    } else {
      var init := es[..|es| - 1];
      Prefix(f, init, n);
      assert init[..n] == es[..n];
      if n == |es| - 1 {
        assert es[..n] == init && es[..n + 1] == es;
      } else {
        assert init[..n + 1] == es[..n + 1];
      }
    }
  }

  // ---- which sectors are safe -------------------------------------------------------------------

  function KeysOf(es: seq<Event>): set<Key> {
    set i | 0 <= i < |es| :: es[i].k
  }

  /** Event `i` does not give back sector `num` changed and unwritten. */
  ghost predicate TidyAt(f: Flat, es: seq<Event>, num: nat, i: nat)
    requires LegalRun(f, es) && i < |es|
  {
    Prefix(f, es, i);
    es[i].Give? && es[i].k.num == num ==> !FlatAfter(f, es[..i]).held[es[i].k].changed
  }

  /** The condition for transparency of a sector: not stray before, asked for through one device,
      and never given back changed and unwritten. */
  ghost predicate Safe(asked: set<Key>, stray: set<nat>, f: Flat, es: seq<Event>, num: nat)
    requires LegalRun(f, es)
  {
    && num < |f.disk| && num !in stray && OneDevice(asked + KeysOf(es), num)
    && (forall i :: 0 <= i < |es| ==> TidyAt(f, es, num, i))
  }

  // ---- cache and flat disk side by side ------------------------------------------------------------

  /** Buffer `b` is block `k` in its holder's hands. */
  ghost predicate InHand(t: Table, f: Flat, safe: set<nat>, k: Key, b: nat) {
    && b < NBUF && t[b].busy && t[b].valid && KeyOf(t[b]) == k && k in f.held && k.num < |f.disk|
    && Major(k.dev) == MEM_MAJOR
    && (k.num in safe ==> t[b].data == f.held[k].data && (!f.held[k].changed ==> t[b].data == f.disk[k.num]))
  }

  ghost predicate SameSector(disk: seq<Sector>, f: Flat, stray: set<nat>, num: nat) {
    num < |disk| == |f.disk| && disk[num] == f.disk[num] && num !in stray
  }

  /** On the safe sectors the cache is where the flat disk is. */
  ghost predicate Rel(t: Table, disk: seq<Sector>, h: Log, f: Flat, at: map<Key, nat>, safe: set<nat>, all: set<Key>) {
    && |f.disk| == |disk| && at.Keys == f.held.Keys && h.asked <= all
    && (forall num :: num in safe ==> SameSector(disk, f, h.stray, num) && OneDevice(all, num))
    && (forall k :: k in at ==> InHand(t, f, safe, k, at[k]))
    && (forall i :: 0 <= i < NBUF && t[i].busy ==> KeyOf(t[i]) in at)
  }

  lemma OneBuffer(t: Table, k: Key, i: nat, j: nat)
    requires Unique(t) && i < NBUF && j < NBUF && KeyOf(t[i]) == k == KeyOf(t[j]) && Major(k.dev) == MEM_MAJOR
    ensures i == j
  {
  }

  lemma Sole(t: Table, k: Key, b: nat)
    requires Unique(t) && b < NBUF && KeyOf(t[b]) == k && Major(k.dev) == MEM_MAJOR
    ensures forall i :: 0 <= i < NBUF && KeyOf(t[i]) == k ==> i == b
  {
    forall i | 0 <= i < NBUF && KeyOf(t[i]) == k ensures i == b {
      OneBuffer(t, k, i, b);
    }
  }

  /** Distinct blocks are in distinct buffers, so as many are held as buffers are busy. */
  lemma {:induction false} ImageSize(at: map<Key, nat>, ks: set<Key>)
    requires ks <= at.Keys && forall j, k :: j in ks && k in ks && at[j] == at[k] ==> j == k
    ensures |set k | k in ks :: at[k]| == |ks|
    decreases |ks|
  {
    var img := set k | k in ks :: at[k];
    if ks == {} {
      assert img == {};
    } else {
      var x :| x in ks;
      ImageSize(at, ks - {x});
      assert img == (set k | k in ks - {x} :: at[k]) + {at[x]};
    }
  }

  /** The numbers below `n`. */
  function Below(n: nat): (r: set<nat>)
    ensures |r| == n && forall i: nat :: i in r <==> i < n
  {
    if n == 0 then {} else Below(n - 1) + {n - 1}
  }

  lemma {:induction false} SubsetSize(a: set<nat>, b: set<nat>)
    requires a <= b
    ensures |a| <= |b|
    decreases |a|
  {
    if |a| > 0 {
      var x :| x in a;
      SubsetSize(a - {x}, b - {x});
    }
  }

  /** The buffers in use are those of the blocks held. */
  lemma HeldBuffers(t: Table, f: Flat, at: map<Key, nat>, safe: set<nat>)
    requires Unique(t) && (forall k :: k in at ==> InHand(t, f, safe, k, at[k]))
    requires forall i :: 0 <= i < NBUF && t[i].busy ==> KeyOf(t[i]) in at
    ensures |set k | k in at.Keys :: at[k]| == |at.Keys|
    ensures forall b :: 0 <= b < NBUF ==> (b in (set k | k in at.Keys :: at[k]) <==> t[b].busy)
    ensures (set k | k in at.Keys :: at[k]) <= Below(NBUF)
  {
    hide Below;
    var ks := at.Keys;
    forall j, k | j in ks && k in ks && at[j] == at[k] ensures j == k {
      assert InHand(t, f, safe, j, at[j]) && InHand(t, f, safe, k, at[k]);
    }
    ImageSize(at, ks);
    var img := set k | k in ks :: at[k];
    forall b | b in img ensures b in Below(NBUF) && t[b].busy {
      var k :| k in ks && at[k] == b;
      assert InHand(t, f, safe, k, at[k]);
    }
    forall b | 0 <= b < NBUF && t[b].busy ensures b in img {
      var k := KeyOf(t[b]);
      assert InHand(t, f, safe, k, at[k]);
      OneBuffer(t, k, b, at[k]);
    }
  }

  lemma HeldCount(t: Table, disk: seq<Sector>, h: Log, f: Flat, at: map<Key, nat>, safe: set<nat>, all: set<Key>)
    requires Rel(t, disk, h, f, at, safe, all) && Unique(t)
    ensures |f.held| == |at|
    ensures |at| >= NBUF <==> forall i :: 0 <= i < NBUF ==> t[i].busy
  {
    hide SameSector, OneDevice, Below, InHand, Unique;
    assert |f.held| == |f.held.Keys| && |at| == |at.Keys|;
    HeldBuffers(t, f, at, safe);
    var img, range := set k | k in at.Keys :: at[k], Below(NBUF);
    if i :| 0 <= i < NBUF && !t[i].busy {
      SubsetSize(img, range - {i});
    } else {
      forall i | i in range ensures i in img {
        assert t[i].busy;
      }
      SubsetSize(range, img);
    }
  }

  lemma TakeRel(t: Table, disk: seq<Sector>, h: Log, f: Flat, at: map<Key, nat>, safe: set<nat>, all: set<Key>,
                k: Key, b: nat, x: Buf)
    requires Rel(t, disk, h, f, at, safe, all) && Legal(f, Take(k)) && k in all && k !in f.held && |f.held| < NBUF
    requires b < NBUF && !t[b].busy && x.busy && x.valid && KeyOf(x) == k
    requires k.num !in h.stray ==> x.data == disk[k.num]
    ensures Rel(t[b := x], disk, Asked(h, k.dev, k.num), FlatStep(f, Take(k)), at[k := b], safe, all)
  {
    var u, g, a := t[b := x], FlatStep(f, Take(k)), at[k := b];
    forall j | j in a ensures InHand(u, g, safe, j, a[j]) {
      assert j != k ==> InHand(t, f, safe, j, at[j]);
    }
  }

  lemma ChangeRel(t: Table, disk: seq<Sector>, h: Log, f: Flat, at: map<Key, nat>, safe: set<nat>, all: set<Key>,
                  k: Key, data: Sector)
    requires Rel(t, disk, h, f, at, safe, all) && Legal(f, Change(k, data)) && Unique(t)
    ensures
      var b := at[k];
      b < NBUF && Rel(t[b := t[b].(data := data)], disk, h, FlatStep(f, Change(k, data)), at, safe, all)
  {
    var b := at[k];
    assert InHand(t, f, safe, k, b);
    var u, g := t[b := t[b].(data := data)], FlatStep(f, Change(k, data));
    forall j | j in at ensures InHand(u, g, safe, j, at[j]) {
      assert InHand(t, f, safe, j, at[j]);
    }
  }

  lemma WriteRel(t: Table, disk: seq<Sector>, h: Log, f: Flat, at: map<Key, nat>, safe: set<nat>, all: set<Key>, k: Key)
    requires Rel(t, disk, h, f, at, safe, all) && Legal(f, Write(k)) && Inv(t, disk, h)
    ensures
      var b := at[k];
      && b < NBUF && t[b].num < |disk|
      && var u, d := t[b := t[b].(valid := true)], disk[t[b].num := t[b].data];
      && Rel(u, d, Written(h, t, disk, b), FlatStep(f, Write(k)), at, safe, all)
  {
    hide Inv, OneDevice, Cached;
    var b := at[k];
    assert InHand(t, f, safe, k, b);
    var u, d, g := t[b := t[b].(valid := true)], disk[t[b].num := t[b].data], FlatStep(f, Write(k));
    forall j | j in at ensures InHand(u, g, safe, j, at[j]) {
      assert InHand(t, f, safe, j, at[j]);
      if j != k && j.num == k.num && k.num in safe {
        Apart(h, all, f, t, at, safe, j, k, disk);
      }
    }
    if k.num in safe {
      KeptOneDevice(h, all, k.num);
      OneDeviceWritten(t, disk, h, b);
    }
    forall num | num in safe ensures SameSector(d, g, Written(h, t, disk, b).stray, num) && OneDevice(all, num) {
      assert SameSector(disk, f, h.stray, num);
    }
  }

  lemma KeptOneDevice(h: Log, all: set<Key>, num: nat)
    requires h.asked <= all && OneDevice(all, num)
    ensures OneDevice(h.asked, num)
  {
  }

  /** A safe sector is in one hand at most. */
  lemma Apart(h: Log, all: set<Key>, f: Flat, t: Table, at: map<Key, nat>, safe: set<nat>, j: Key, k: Key,
              disk: seq<Sector>)
    requires Rel(t, disk, h, f, at, safe, all) && Inv(t, disk, h) && j in at && k in at && j.num == k.num
    requires k.num in safe
    ensures j == k
  {
    assert InHand(t, f, safe, j, at[j]) && InHand(t, f, safe, k, at[k]);
  }

  lemma GiveRel(t: Table, u: Table, disk: seq<Sector>, h: Log, f: Flat, at: map<Key, nat>, safe: set<nat>,
                all: set<Key>,
                k: Key, p: nat)
    requires Rel(t, disk, h, f, at, safe, all) && Legal(f, Give(k)) && Unique(t)
    requires k.num in safe ==> !f.held[k].changed
    requires p < |h.ring| && h.ring[p] == at[k] < NBUF && |h.stamp| == NBUF
    requires forall i :: 0 <= i < NBUF ==> Fields(u[i]) == Fields(t[i]).(busy := i != at[k] && t[i].busy)
    ensures Rel(u, disk, Released(h, t, disk, p), FlatStep(f, Give(k)), at - {k}, safe, all)
  {
    hide OneDevice;
    var b, g, a, h' := at[k], FlatStep(f, Give(k)), at - {k}, Released(h, t, disk, p);
    assert InHand(t, f, safe, k, b);
    assert forall i :: 0 <= i < NBUF ==> SameButLinks(u[i], t[i], i != b && t[i].busy);
    forall j | j in a ensures InHand(u, g, safe, j, a[j]) {
      assert InHand(t, f, safe, j, at[j]);
    }
    Sole(t, k, b);
    forall i | 0 <= i < NBUF && u[i].busy ensures KeyOf(u[i]) in a {
      assert KeyOf(t[i]) in at;
    }
    forall num | num in safe ensures SameSector(disk, g, h'.stray, num) && OneDevice(all, num) {
      assert SameSector(disk, f, h.stray, num);
    }
  }

  predicate SameButLinks(u: Buf, t: Buf, busy: bool) {
    KeyOf(u) == KeyOf(t) && u.valid == t.valid && u.data == t.data && u.busy == busy
  }

  // ---- the run -----------------------------------------------------------------------------------------

  /** The same outcome as on the flat disk, with the same data if the sector is safe. */
  predicate Faithful(a: Answer, b: Answer, safe: bool) {
    a == b || (!safe && a.Data? && b.Data?)
  }

  ghost predicate FaithfulAt(f: Flat, es: seq<Event>, answers: seq<Answer>, safe: set<nat>, i: nat)
    requires LegalRun(f, es) && i < |es| && i < |answers|
  {
    Prefix(f, es, i);
    Faithful(answers[i], FlatAnswer(FlatAfter(f, es[..i]), es[i]), es[i].k.num in safe)
  }

  ghost function SafeSectors(asked: set<Key>, stray: set<nat>, f: Flat, es: seq<Event>): set<nat>
    requires LegalRun(f, es)
  {
    set num | 0 <= num < |f.disk| && Safe(asked, stray, f, es, num)
  }

  /** Transparency over every run: each event comes out as on a disk without a cache, and every
      safe sector reads and ends as on that disk. */
  method Run(c: BufferCache, es: seq<Event>) returns (answers: seq<Answer>)
    requires c.Valid() && c.Quiet() && LegalRun(Flat(c.disk, map[]), es)
    modifies c
    ensures c.Valid() && |answers| == |es| && |c.disk| == |old(c.disk)|
    ensures
      var f := Flat(old(c.disk), map[]);
      var safe := SafeSectors(old(c.log.asked), old(c.log.stray), f, es);
      && (forall i :: 0 <= i < |es| ==> FaithfulAt(f, es, answers, safe, i))
      && (forall num :: num in safe ==> num < |c.disk| && c.disk[num] == FlatAfter(f, es).disk[num])
  {
    hide Inv, Rel, LegalRun, FlatAfter, FlatStep, FaithfulAt, Safe;
    ghost var f0 := Flat(c.disk, map[]);
    ghost var safe, all := SafeSectors(c.log.asked, c.log.stray, f0, es), c.log.asked + KeysOf(es);
    var at: map<Key, nat> := map[];
    answers := [];
    Start(c.t, c.disk, c.log, es);
    var n := 0;
    while n < |es|
      invariant 0 <= n <= |es| && |answers| == n && c.Valid() && LegalRun(f0, es) && LegalRun(f0, es[..n])
      invariant Rel(c.t, c.disk, c.log, FlatAfter(f0, es[..n]), at, safe, all)
      invariant forall i :: 0 <= i < n ==> FaithfulAt(f0, es, answers, safe, i)
    {
      NextEvent(f0, es, old(c.log.asked), old(c.log.stray), n);
      var a;
      a, at := Do(c, es[n], at, FlatAfter(f0, es[..n]), safe, all);
      MoreAnswers(f0, es, answers, safe, a, n);
      answers := answers + [a];
      n := n + 1;
    }
    assert es[..n] == es;
    Ended(c.t, c.disk, c.log, FlatAfter(f0, es), at, safe, all);
  }

  /** One event. */
  method Do(c: BufferCache, e: Event, at: map<Key, nat>, ghost f: Flat, ghost safe: set<nat>, ghost all: set<Key>)
    returns (a: Answer, at': map<Key, nat>)
    requires c.Valid() && Legal(f, e) && Rel(c.t, c.disk, c.log, f, at, safe, all) && e.k in all
    requires e.Give? && e.k.num in safe ==> !f.held[e.k].changed
    modifies c
    ensures c.Valid() && Rel(c.t, c.disk, c.log, FlatStep(f, e), at', safe, all)
    ensures Faithful(a, FlatAnswer(f, e), e.k.num in safe)
  {
    hide Inv, Rel, FlatStep;
    Parts(c.t, c.disk, c.log);
    ghost var t0, h0 := c.t, c.log;
    a, at' := Done, at;
    match e {
      case Take(k) =>
        AllClean(t0, c.disk, h0);
        HeldCount(t0, c.disk, h0, f, at, safe, all);
        WhoHolds(t0, c.disk, h0, f, at, safe, all, k);
        SameDisk(t0, c.disk, h0, f, at, safe, all, k.num);
        var r := c.Bread(k.dev, k.num);
        match r {
          case Got(b) =>
            TakeRel(t0, c.disk, h0, f, at, safe, all, k, b, c.t[b]);
            a, at' := Data(c.t[b].data), at[k := b];
          case Sleeps =>
            AskedRel(t0, c.disk, h0, f, at, safe, all, k);
            a := Waits;
          case NoBuffer =>
            AskedRel(t0, c.disk, h0, f, at, safe, all, k);
            a := Panics;
          case Fails =>
            assert false;
        }
      case Change(k, data) =>
        HandOf(t0, c.disk, h0, f, at, safe, all, k);
        ChangeRel(t0, c.disk, h0, f, at, safe, all, k, data);
        c.Fill(at[k], data);
      case Write(k) =>
        HandOf(t0, c.disk, h0, f, at, safe, all, k);
        WriteRel(t0, c.disk, h0, f, at, safe, all, k);
        var ok := c.Bwrite(at[k]);
      case Give(k) =>
        HandOf(t0, c.disk, h0, f, at, safe, all, k);
        var ok := c.Brelse(at[k]);
        ghost var p :| 0 <= p < |h0.ring| && h0.ring[p] == at[k] && c.log == Released(h0, t0, c.disk, p);
        GiveRel(t0, c.t, c.disk, h0, f, at, safe, all, k, p);
        at' := at - {k};
    }
  }

  lemma HandOf(t: Table, disk: seq<Sector>, h: Log, f: Flat, at: map<Key, nat>, safe: set<nat>, all: set<Key>, k: Key)
    requires Rel(t, disk, h, f, at, safe, all) && k in f.held
    ensures k in at && InHand(t, f, safe, k, at[k]) && |disk| == |f.disk|
  {
  }

  lemma SameDisk(t: Table, disk: seq<Sector>, h: Log, f: Flat, at: map<Key, nat>, safe: set<nat>, all: set<Key>,
                 num: nat)
    requires Rel(t, disk, h, f, at, safe, all)
    ensures |disk| == |f.disk| && (num in safe ==> SameSector(disk, f, h.stray, num))
  {
  }

  /** A block is held on the flat disk exactly when its buffer is busy. */
  lemma WhoHolds(t: Table, disk: seq<Sector>, h: Log, f: Flat, at: map<Key, nat>, safe: set<nat>, all: set<Key>, k: Key)
    requires Rel(t, disk, h, f, at, safe, all) && Unique(t) && Major(k.dev) == MEM_MAJOR
    ensures k in f.held ==> forall i :: 0 <= i < NBUF && Holds(t[i], k.dev, k.num) ==> t[i].busy
    ensures k in f.held ==> exists i :: 0 <= i < NBUF && Holds(t[i], k.dev, k.num)
    ensures forall i :: 0 <= i < NBUF && t[i].busy && Holds(t[i], k.dev, k.num) ==> k in f.held
  {
    if k in f.held {
      assert InHand(t, f, safe, k, at[k]);
      forall i | 0 <= i < NBUF && Holds(t[i], k.dev, k.num) ensures t[i].busy {
        OneBuffer(t, k, i, at[k]);
      }
    }
  }

  lemma AskedRel(t: Table, disk: seq<Sector>, h: Log, f: Flat, at: map<Key, nat>, safe: set<nat>, all: set<Key>, k: Key)
    requires Rel(t, disk, h, f, at, safe, all) && k in all && Legal(f, Take(k)) && (k in f.held || |f.held| >= NBUF)
    ensures Rel(t, disk, Asked(h, k.dev, k.num), FlatStep(f, Take(k)), at, safe, all)
  {
    hide InHand, SameSector, OneDevice;
  }

  /** A cache that nobody holds anything of is level with the flat disk. */
  lemma Start(t: Table, disk: seq<Sector>, h: Log, es: seq<Event>)
    requires (forall i :: 0 <= i < NBUF ==> !t[i].busy) && LegalRun(Flat(disk, map[]), es)
    ensures
      var f := Flat(disk, map[]);
      && LegalRun(f, es[..0]) && FlatAfter(f, es[..0]) == f
      && Rel(t, disk, h, f, map[], SafeSectors(h.asked, h.stray, f, es), h.asked + KeysOf(es))
  {
  }

  /** What event `n` of the run needs and what its answer adds. */
  lemma NextEvent(f: Flat, es: seq<Event>, asked: set<Key>, stray: set<nat>, n: nat)
    requires LegalRun(f, es) && n < |es|
    ensures LegalRun(f, es[..n]) && Legal(FlatAfter(f, es[..n]), es[n]) && LegalRun(f, es[..n + 1])
    ensures FlatAfter(f, es[..n + 1]) == FlatStep(FlatAfter(f, es[..n]), es[n])
    ensures es[n].k in asked + KeysOf(es)
    ensures es[n].Give? && es[n].k.num in SafeSectors(asked, stray, f, es) ==>
            !FlatAfter(f, es[..n]).held[es[n].k].changed
  {
    hide LegalRun, FlatAfter, FlatStep, Legal;
    Prefix(f, es, n);
    if es[n].Give? && es[n].k.num in SafeSectors(asked, stray, f, es) {
      assert TidyAt(f, es, es[n].k.num, n);
    }
  }

  lemma MoreAnswers(f: Flat, es: seq<Event>, answers: seq<Answer>, safe: set<nat>, a: Answer, n: nat)
    requires LegalRun(f, es) && n < |es| && |answers| == n && LegalRun(f, es[..n])
    requires Legal(FlatAfter(f, es[..n]), es[n])
    requires forall i :: 0 <= i < n ==> FaithfulAt(f, es, answers, safe, i)
    requires Faithful(a, FlatAnswer(FlatAfter(f, es[..n]), es[n]), es[n].k.num in safe)
    ensures forall i :: 0 <= i < n + 1 ==> FaithfulAt(f, es, answers + [a], safe, i)
  {
    hide LegalRun, FlatAfter;
    forall i | 0 <= i < n + 1 ensures FaithfulAt(f, es, answers + [a], safe, i) {
      Prefix(f, es, i);
      assert i < n ==> FaithfulAt(f, es, answers, safe, i);
    }
  }

  lemma Ended(t: Table, disk: seq<Sector>, h: Log, f: Flat, at: map<Key, nat>, safe: set<nat>, all: set<Key>)
    requires Rel(t, disk, h, f, at, safe, all)
    ensures |disk| == |f.disk| && forall num :: num in safe ==> num < |disk| && disk[num] == f.disk[num]
  {
    forall num | num in safe ensures num < |disk| && disk[num] == f.disk[num] {
      assert SameSector(disk, f, h.stray, num);
    }
  }

  // ---- why both conditions are needed --------------------------------------------------------------------

  /** The links aside, the same buffers. */
  ghost predicate AllSame(t: Table, u: Table, b: nat, x: Buf) {
    forall i :: 0 <= i < NBUF ==> SameButLinks(u[i], if i == b then x else t[i], i != b && t[i].busy)
  }

  lemma GivenBack(t: Table, u: Table, b: nat)
    requires b < NBUF && forall i :: 0 <= i < NBUF ==> Fields(u[i]) == Fields(t[i]).(busy := i != b && t[i].busy)
    ensures AllSame(t, u, b, t[b])
  {
  }

  /** Any sector used through any two devices can be read stale: the block of `e` is cached, the
      one of `d` is changed and written, and a read of `e` gives the old data. */
  method TwoDevices(disk: seq<Sector>, num: nat, d: nat, e: nat, data: Sector) returns (seen: Sector, now: Sector)
    requires Major(d) == Major(e) == MEM_MAJOR && d != e && num < |disk| && data != disk[num]
    ensures seen == disk[num] && now == data && seen != now
  {
    hide Inv;
    var c := new BufferCache(disk);
    var b := TakeGive(c, e, num);
    WriteElse(c, d, num, data, b);
    Parts(c.t, c.disk, c.log);
    AllClean(c.t, c.disk, c.log);
    var g := c.Bread(e, num);
    return c.t[g.b].data, c.disk[num];
  }

  /** A second block of the cache is taken, changed, written and given back. */
  method WriteElse(c: BufferCache, dev: nat, num: nat, data: Sector, ghost b: nat)
    requires c.Valid() && Major(dev) == MEM_MAJOR && num < |c.disk| && b < NBUF && |c.log.stamp| == NBUF
    requires !c.t[b].busy && c.t[b].dev != dev
    requires forall i :: 0 <= i < NBUF && i != b ==> Later(c.t, c.log, i, b)
    modifies c
    ensures c.Valid() && c.disk == old(c.disk)[num := data] && SameButLinks(c.t[b], old(c.t)[b], false)
    ensures forall i :: 0 <= i < NBUF && i != b ==> !c.t[i].busy
  {
    hide Inv, Cached;
    AllClean(c.t, c.disk, c.log);
    ghost var t0 := c.t;
    OthersFirst(c.t, c.log, b, dev, num);
    var g := c.Bread(dev, num);
    assert g.Got? && g.b != b by {
      assert Idle(t0[if b == 0 then 1 else 0]);
    }
    c.Fill(g.b, data);
    var ok := c.Bwrite(g.b);
    ghost var t2 := c.t;
    ok := c.Brelse(g.b);
    GivenBack(t2, c.t, g.b);
  }

  lemma OthersFirst(t: Table, h: Log, b: nat, dev: nat, num: nat)
    requires b < NBUF && |h.stamp| == NBUF && t[b].dev != dev && dev < NO_DEV && !t[b].busy
    requires forall i :: 0 <= i < NBUF ==> !t[i].dirty && (i != b ==> Later(t, h, i, b))
    ensures forall i :: 0 <= i < NBUF ==> !Holds(t[i], dev, num) && !t[i].busy
    ensures forall i :: 0 <= i < NBUF && i != b ==> Idle(t[i]) && h.stamp[i] < h.stamp[b]
  {
    forall i | 0 <= i < NBUF && i != b ensures Idle(t[i]) && h.stamp[i] < h.stamp[b] && t[i].dev == NO_DEV {
      assert Later(t, h, i, b);
    }
  }

  /** Buffer `i` is unused, and `b` was released after it. */
  ghost predicate Later(t: Table, h: Log, i: nat, b: nat)
    requires i < NBUF && b < NBUF && |h.stamp| == NBUF
  {
    t[i].dev == NO_DEV && !t[i].busy && h.stamp[i] < h.stamp[b]
  }

  /** The first use of a new cache: a block is read and given back. */
  method TakeGive(c: BufferCache, dev: nat, num: nat) returns (b: nat)
    requires c.Valid() && Major(dev) == MEM_MAJOR && num < |c.disk|
    requires forall i :: 0 <= i < NBUF ==> Blank(c.t[i]) && c.t[i].dev == NO_DEV
    modifies c
    ensures c.Valid() && c.disk == old(c.disk) && b < NBUF && |c.log.stamp| == NBUF
    ensures Holds(c.t[b], dev, num) && c.t[b].valid && c.t[b].data == c.disk[num] && !c.t[b].busy
    ensures forall i :: 0 <= i < NBUF && i != b ==> Later(c.t, c.log, i, b)
  {
    hide Inv;
    AllClean(c.t, c.disk, c.log);
    ghost var t0 := c.t;
    var r := c.Bread(dev, num);
    assert r.Got? by {
      assert Idle(t0[0]);
    }
    b := r.b;
    ghost var t1, h1 := c.t, c.log;
    Parts(c.t, c.disk, c.log);
    var ok := c.Brelse(b);
    GivenBack(t1, c.t, b);
    ghost var k :| 0 <= k < |h1.ring| && h1.ring[k] == b && c.log == Released(h1, t1, c.disk, k);
  }

  /** Any change that is given back unwritten is seen by the next reader and not on the disk. */
  method Unwritten(disk: seq<Sector>, num: nat, dev: nat, data: Sector) returns (seen: Sector, now: Sector)
    requires Major(dev) == MEM_MAJOR && num < |disk| && data != disk[num]
    ensures seen == data && now == disk[num] && seen != now
  {
    hide Inv;
    var c := new BufferCache(disk);
    var b := TakeGive(c, dev, num);
    AllClean(c.t, c.disk, c.log);
    Parts(c.t, c.disk, c.log);
    var g := c.Bread(dev, num);
    assert g.Got?;
    c.Fill(g.b, data);
    ghost var t1 := c.t;
    var ok := c.Brelse(g.b);
    GivenBack(t1, c.t, g.b);
    Parts(c.t, c.disk, c.log);
    assert Holds(c.t[g.b], dev, num) && c.t[g.b].valid && c.t[g.b].data == data;
    g := c.Bread(dev, num);
    return c.t[g.b].data, c.disk[num];
  }
}

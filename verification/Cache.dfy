/** The buffer cache (fs/buffer.c) over the memory disk (drv/memhd.c). */
module Cache {
  import opened Bytes
  import opened BufferRing

  const MEM_MAJOR := 1
  const HD_MAJOR := 3

  function Major(dev: nat): (m: nat)
    ensures 256 * m <= dev < 256 * m + 256
  {
    dev / 256
  }

  /** What getblk or bread comes to: a buffer, a wait for a busy one, a panic for want of
      buffers, or a panic of the disk driver. */
  datatype Got = Got(b: nat) | Sleeps | NoBuffer | Fails

  /** A block as callers name it. */
  datatype Key = Key(dev: nat, num: nat)

  function KeyOf(b: Buf): Key { Key(b.dev, b.num) }

  predicate Holds(b: Buf, dev: nat, num: nat) { b.dev == dev && b.num == num }

  predicate Idle(b: Buf) { !b.busy && !b.dirty }

  /** No block of a device is held twice. */
  ghost predicate Unique(t: Table) {
    forall i, j :: 0 <= i < j < NBUF && t[i].dev != NO_DEV ==> !Holds(t[j], t[i].dev, t[i].num)
  }

  predicate Agrees(b: Buf, disk: seq<Sector>) {
    b.num < |disk| && b.data == disk[b.num]
  }

  /** Outside the sectors in `stray`, every valid buffer that nobody holds agrees with the disk. */
  ghost predicate Coherent(t: Table, disk: seq<Sector>, stray: set<nat>) {
    forall i :: 0 <= i < NBUF && t[i].valid && !t[i].busy && t[i].num !in stray ==> Agrees(t[i], disk)
  }

  /** Some buffer that nobody holds has valid data for the sector. */
  predicate Cached(t: Table, num: nat) {
    exists j :: 0 <= j < NBUF && t[j].valid && !t[j].busy && t[j].num == num
  }

  /** A bwrite of buffer `b` leaves the cache coherent if and only if it changes nothing on the
      disk or no buffer that nobody holds has data for its sector. Only another minor number of
      the memory disk can have some, since the disk ignores the minor. */
  lemma WriteCoherent(t: Table, disk: seq<Sector>, stray: set<nat>, b: nat)
    requires Coherent(t, disk, stray) && b < NBUF && t[b].busy && t[b].num < |disk| && t[b].num !in stray
    ensures
      var u := t[b := t[b].(valid := true, dirty := false)];
      Coherent(u, disk[t[b].num := t[b].data], stray) <==> t[b].data == disk[t[b].num] || !Cached(t, t[b].num)
  {
    var u, d := t[b := t[b].(valid := true, dirty := false)], disk[t[b].num := t[b].data];
    if t[b].data == disk[t[b].num] || !Cached(t, t[b].num) {
      forall i | 0 <= i < NBUF && u[i].valid && !u[i].busy && u[i].num !in stray ensures Agrees(u[i], d) {
        assert Agrees(t[i], disk);
      }
    } else {
      var j :| 0 <= j < NBUF && t[j].valid && !t[j].busy && t[j].num == t[b].num;
      assert Agrees(t[j], disk) && u[j] == t[j] && !Agrees(u[j], d);
    }
  }

  // ---- history ------------------------------------------------------------------------------

  /** What happened so far: the buffers from bhead.next to bhead.prev, when each was last
      released, the blocks asked for, and the sectors whose cached data may be stale. */
  datatype Log = Log(ring: seq<nat>, stamp: seq<nat>, clock: nat, asked: set<Key>, stray: set<nat>)

  /** The ring runs from the most to the least recently released buffer. */
  ghost predicate Ordered(ring: seq<nat>, stamp: seq<nat>) {
    && (forall i :: 0 <= i < |ring| ==> ring[i] < |stamp|)
    && (forall i, j :: 0 <= i < j < |ring| ==> stamp[ring[i]] > stamp[ring[j]])
  }

  /** Ring position of every buffer. */
  ghost predicate Complete(ring: seq<nat>) {
    |ring| == NBUF && forall b :: 0 <= b < NBUF ==> b in ring
  }

  /** The sector was asked for through one device only. */
  ghost predicate OneDevice(asked: set<Key>, num: nat) {
    forall j, k :: j in asked && k in asked && j.num == k.num == num ==> j.dev == k.dev
  }

  /** The invariant of the cache: the ring holds every buffer once, ordered by last release;
      no block is cached twice; nothing stays dirty; and outside the stray sectors what nobody
      holds agrees with the disk. */
  ghost predicate Inv(t: Table, disk: seq<Sector>, h: Log) {
    && Ring(t, h.ring) && Complete(h.ring)
    && |h.stamp| == NBUF && Ordered(h.ring, h.stamp) && (forall i :: 0 <= i < NBUF ==> h.stamp[i] < h.clock)
    && Unique(t) && (forall i :: 0 <= i < NBUF ==> !t[i].dirty)
    && (forall i :: 0 <= i < NBUF && t[i].dev != NO_DEV ==> KeyOf(t[i]) in h.asked)
    && (forall i :: 0 <= i < NBUF && t[i].valid ==> t[i].dev != NO_DEV && t[i].num < |disk|)
    && Coherent(t, disk, h.stray)
  }

  /** One more block asked for. */
  function Asked(h: Log, dev: nat, num: nat): Log {
    h.(asked := h.asked + {Key(dev, num)})
  }

  /** A buffer written: its sector goes stray if it changed and is cached a second time. */
  function Written(h: Log, t: Table, disk: seq<Sector>, b: nat): Log
    requires b < NBUF
  {
    if !Agrees(t[b], disk) && Cached(t, t[b].num) then h.(stray := h.stray + {t[b].num}) else h
  }

  /** The buffer at ring position `k` released: its sector goes stray if the buffer holds data
      that was changed and not written. */
  function Released(h: Log, t: Table, disk: seq<Sector>, k: nat): Log
    requires k < |h.ring| && h.ring[k] < NBUF && |h.stamp| == NBUF
  {
    var b := h.ring[k];
    Log([b] + Without(h.ring, k), h.stamp[b := h.clock], h.clock + 1, h.asked,
        if t[b].valid && !Agrees(t[b], disk) then h.stray + {t[b].num} else h.stray)
  }

  // ---- steps on values --------------------------------------------------------------------

  /** The ring only depends on the links. */
  lemma RingFields(t: Table, u: Table, ring: seq<nat>)
    requires Ring(t, ring) && forall i :: 0 <= i <= NBUF ==> u[i].prev == t[i].prev && u[i].next == t[i].next
    ensures Ring(u, ring)
  {
    forall i | 0 <= i <= |ring| ensures Joint(u, ring, i) {
      assert Joint(t, ring, i);
    }
  }

  lemma Located(ring: seq<nat>, b: nat) returns (k: nat)
    requires Complete(ring) && b < NBUF
    ensures k < |ring| && ring[k] == b
  {
    assert b in ring;
    k :| 0 <= k < |ring| && ring[k] == b;
  }

  /** Marking a buffer busy. */
  lemma Take(t: Table, disk: seq<Sector>, h: Log, b: nat, dev: nat, num: nat)
    requires Inv(t, disk, h) && b < NBUF
    ensures Inv(t[b := t[b].(busy := true)], disk, Asked(h, dev, num))
  {
    RingFields(t, t[b := t[b].(busy := true)], h.ring);
  }

  /** Asking for a block. */
  lemma Ask(t: Table, disk: seq<Sector>, h: Log, dev: nat, num: nat)
    requires Inv(t, disk, h)
    ensures Inv(t, disk, Asked(h, dev, num)) && |h.stamp| == NBUF
  {
  }

  /** A buffer taken over for another block. */
  function Cleared(b: Buf, dev: nat, num: nat): Buf {
    b.(busy := true, valid := false, dirty := false, dev := dev, num := num)
  }

  /** Clearing an idle buffer for a block that is not cached. */
  lemma Recycle(t: Table, disk: seq<Sector>, h: Log, b: nat, dev: nat, num: nat)
    requires Inv(t, disk, h) && b < NBUF && dev < NO_DEV
    requires forall i :: 0 <= i < NBUF ==> !Holds(t[i], dev, num)
    ensures Inv(t[b := Cleared(t[b], dev, num)], disk, Asked(h, dev, num))
  {
    RingFields(t, t[b := Cleared(t[b], dev, num)], h.ring);
  }

  /** Changing the data or the valid flag of a busy buffer for a block of the disk. */
  lemma Load(t: Table, disk: seq<Sector>, h: Log, b: nat, data: Sector, valid: bool)
    requires Inv(t, disk, h) && b < NBUF && t[b].busy && t[b].dev != NO_DEV && (valid ==> t[b].num < |disk|)
    ensures Inv(t[b := t[b].(data := data, valid := valid, dirty := false)], disk, h)
  {
    RingFields(t, t[b := t[b].(data := data, valid := valid, dirty := false)], h.ring);
  }

  /** Writing a busy buffer to the disk. */
  lemma Flush(t: Table, disk: seq<Sector>, h: Log, b: nat)
    requires Inv(t, disk, h) && b < NBUF && t[b].busy && t[b].dev != NO_DEV && t[b].num < |disk|
    ensures Inv(t[b := t[b].(valid := true, dirty := false)], disk[t[b].num := t[b].data], Written(h, t, disk, b))
  {
    var u, d, g := t[b := t[b].(valid := true, dirty := false)], disk[t[b].num := t[b].data], Written(h, t, disk, b);
    RingFields(t, u, h.ring);
    if t[b].num !in g.stray {
      WriteCoherent(t, disk, h.stray, b);
    } else {
      forall i | 0 <= i < NBUF && u[i].valid && !u[i].busy && u[i].num !in g.stray ensures Agrees(u[i], d) {
        assert Agrees(t[i], disk);
      }
    }
  }

  /** A sector asked for through one device does not go stray by a write. */
  lemma OneDeviceWritten(t: Table, disk: seq<Sector>, h: Log, b: nat)
    requires Inv(t, disk, h) && b < NBUF && t[b].busy && t[b].dev != NO_DEV && OneDevice(h.asked, t[b].num)
    ensures !Cached(t, t[b].num) && Written(h, t, disk, b) == h
  {
    forall j | 0 <= j < NBUF && t[j].valid && !t[j].busy ensures t[j].num != t[b].num {
      assert KeyOf(t[j]) in h.asked && KeyOf(t[b]) in h.asked;
    }
  }

  /** Moving the buffer at position `k` to the front of the ring. */
  lemma Relink(t: Table, ring: seq<nat>, k: nat)
    requires Ring(t, ring) && k < |ring|
    ensures
      var b := ring[k];
      && b < NBUF && t[b].next < 17 && t[b].prev < 17
      && var u := Unlinked(t, b);
      && u[HEAD].next < 17
      && SameFields(t, Pushed(u, b)) && Ring(Pushed(u, b), [b] + Without(ring, k))
  {
    hide Ring, Unlinked, Pushed, Without, SameFields;
    var b := ring[k];
    Spread(t, ring);
    UnlinkRing(t, ring, k);
    OutOf(ring, k);
    PushRing(Unlinked(t, b), Without(ring, k), b);
    SameFieldsTrans(t, Unlinked(t, b), Pushed(Unlinked(t, b), b));
  }

  lemma OutOf(ring: seq<nat>, k: nat)
    requires Distinct(ring) && k < |ring|
    ensures ring[k] !in Without(ring, k)
  {
  }

  lemma SameFieldsTrans(t: Table, u: Table, w: Table)
    requires SameFields(t, u) && SameFields(u, w)
    ensures SameFields(t, w)
  {
  }

  /** Releasing a buffer. */
  lemma Release(t: Table, w: Table, disk: seq<Sector>, h: Log, k: nat)
    requires Inv(t, disk, h) && k < |h.ring| && h.ring[k] < NBUF
    requires SameFields(t, w) && Ring(w, [h.ring[k]] + Without(h.ring, k))
    ensures Inv(w[h.ring[k] := w[h.ring[k]].(busy := false)], disk, Released(h, t, disk, k))
  {
    hide Ring, Without;
    var b := h.ring[k];
    var v := w[b := w[b].(busy := false)];
    RingFields(w, v, [b] + Without(h.ring, k));
    Spread(t, h.ring);
    FrontOrder(h.ring, h.stamp, h.clock, k);
    KeptFields(t, v, disk, h.stray, b);
  }

  lemma Spread(t: Table, ring: seq<nat>)
    requires Ring(t, ring)
    ensures Distinct(ring)
  {
  }

  /** The rest of the invariant ignores the links. */
  lemma KeptFields(t: Table, v: Table, disk: seq<Sector>, stray: set<nat>, b: nat)
    requires Unique(t) && (forall i :: 0 <= i < NBUF ==> !t[i].dirty) && b < NBUF && Coherent(t, disk, stray)
    requires forall i :: 0 <= i < NBUF ==> Fields(v[i]) == Fields(t[i]).(busy := i != b && t[i].busy)
    ensures Unique(v) && (forall i :: 0 <= i < NBUF ==> !v[i].dirty)
    ensures forall i :: 0 <= i < NBUF ==> v[i].valid == t[i].valid && KeyOf(v[i]) == KeyOf(t[i])
    ensures Coherent(v, disk, if t[b].valid && !Agrees(t[b], disk) then stray + {t[b].num} else stray)
  {
    assert forall i :: 0 <= i < NBUF ==> v[i].dev == t[i].dev && v[i].num == t[i].num && v[i].data == t[i].data;
    var s := if t[b].valid && !Agrees(t[b], disk) then stray + {t[b].num} else stray;
    forall i | 0 <= i < NBUF && v[i].valid && !v[i].busy && v[i].num !in s ensures Agrees(v[i], disk) {
      assert i != b ==> Agrees(t[i], disk);
    }
  }

  lemma FrontOrder(ring: seq<nat>, stamp: seq<nat>, clock: nat, k: nat)
    requires Complete(ring) && Distinct(ring) && |stamp| == NBUF && Ordered(ring, stamp) && k < |ring|
    requires forall i :: 0 <= i < NBUF ==> stamp[i] < clock
    ensures
      var r, s := [ring[k]] + Without(ring, k), stamp[ring[k] := clock];
      Complete(r) && Ordered(r, s) && forall i :: 0 <= i < NBUF ==> s[i] < clock + 1
  {
    var r, s := [ring[k]] + Without(ring, k), stamp[ring[k] := clock];
    forall i | 0 < i < |r| ensures r[i] == ring[if i <= k then i - 1 else i] {
    }
    forall b | 0 <= b < NBUF ensures b in r {
      var j := Located(ring, b);
      assert j == k || r[if j < k then j + 1 else j] == b;
    }
  }

  lemma NotCached(t: Table, ring: seq<nat>, dev: nat, num: nat)
    requires Complete(ring) && (forall i :: 0 <= i < |ring| ==> ring[i] < NBUF)
    requires forall j :: 0 <= j < |ring| ==> !Holds(t[ring[j]], dev, num)
    ensures forall b :: 0 <= b < NBUF ==> !Holds(t[b], dev, num)
  {
    forall b | 0 <= b < NBUF ensures !Holds(t[b], dev, num) {
      var k := Located(ring, b);
    }
  }

  /** The last buffer of the ring that qualifies was released before all others that do. */
  lemma Oldest(t: Table, ring: seq<nat>, stamp: seq<nat>, i: int)
    requires Complete(ring) && Distinct(ring) && |stamp| == NBUF && Ordered(ring, stamp) && -1 <= i < |ring|
    requires forall j :: i < j < |ring| ==> !Idle(t[ring[j]])
    ensures forall b :: 0 <= b < NBUF && Idle(t[b]) ==> i >= 0 && stamp[ring[i]] <= stamp[b]
  {
    forall b | 0 <= b < NBUF && Idle(t[b]) ensures i >= 0 && stamp[ring[i]] <= stamp[b] {
      var k := Located(ring, b);
    }
  }

  lemma NotDirty(t: Table, disk: seq<Sector>, h: Log, b: nat)
    requires Inv(t, disk, h) && b < NBUF
    ensures !t[b].dirty && (t[b].valid ==> t[b].dev != NO_DEV && t[b].num < |disk|)
    ensures t[b].valid && !t[b].busy && t[b].num !in h.stray ==> Agrees(t[b], disk)
  {
  }

  lemma AllClean(t: Table, disk: seq<Sector>, h: Log)
    requires Inv(t, disk, h)
    ensures forall i :: 0 <= i < NBUF ==> !t[i].dirty
  {
  }

  lemma Parts(t: Table, disk: seq<Sector>, h: Log)
    requires Inv(t, disk, h)
    ensures Ring(t, h.ring) && Complete(h.ring) && |h.stamp| == NBUF && Unique(t)
    ensures forall i :: 0 <= i < NBUF ==> h.stamp[i] < h.clock
  {
  }

  lemma EmptyRing(t: Table)
    requires t[HEAD].next == HEAD && t[HEAD].prev == HEAD
    ensures Ring(t, [])
  {
  }

  lemma Fresh(t: Table, disk: seq<Sector>, ring: seq<nat>, stamp: seq<nat>)
    requires Ring(t, ring) && |ring| == NBUF && (forall i :: 0 <= i < NBUF ==> ring[i] == NBUF - 1 - i)
    requires |stamp| == NBUF && (forall i :: 0 <= i < NBUF ==> stamp[i] == i)
    requires forall i :: 0 <= i < NBUF ==> Blank(t[i]) && t[i].dev == NO_DEV
    ensures Inv(t, disk, Log(ring, stamp, NBUF, {}, {}))
  {
    forall b | 0 <= b < NBUF ensures b in ring {
      assert ring[NBUF - 1 - b] == b;
    }
  }

  predicate Blank(b: Buf) { !b.busy && !b.valid && !b.dirty }

  /** One round of init_buffer. */
  lemma LinkFirst(t: Table, ring: seq<nat>, b: nat)
    requires Ring(t, ring) && b < NBUF && b !in ring
    ensures
      var u := t[b := t[b].(dev := NO_DEV)];
      && u[HEAD].next < |u| && Ring(Pushed(u, b), [b] + ring)
      && (forall i :: 0 <= i < NBUF && Blank(t[i]) ==> Blank(Pushed(u, b)[i]))
      && (forall i :: 0 <= i < NBUF && (i == b || t[i].dev == NO_DEV) ==> Pushed(u, b)[i].dev == NO_DEV)
  {
    hide Ring, Pushed;
    var u := t[b := t[b].(dev := NO_DEV)];
    RingFields(t, u, ring);
    PushRing(u, ring, b);
    var w := Pushed(u, b);
    forall i | 0 <= i < NBUF ensures w[i].dev == u[i].dev && (Blank(t[i]) ==> Blank(w[i])) {
      assert Fields(w[i]) == Fields(u[i]);
    }
  }

  class BufferCache {
    var t: Table                    // fsbuf, with bhead last
    var disk: seq<Sector>           // the memory disk, sector by sector
    ghost var log: Log

    ghost predicate Valid()
      reads this
    {
      Inv(t, disk, log)
    }

    /** init_buffer, over a disk with the given sectors. */
    constructor (disk: seq<Sector>)
      ensures Steady() && this.disk == disk && log.asked == {}
      ensures forall i :: 0 <= i < NBUF ==> Blank(t[i]) && t[i].dev == NO_DEV
    {
      this.disk := disk;
      var blank := Buf(0, 0, false, false, false, HEAD, HEAD, seq(512, _ => 0));
      t := seq(17, _ => blank);
      new;
      hide Inv, Pushed, Ring;
      ghost var ring: seq<nat> := [];
      EmptyRing(t);
      var bp := 0;
      while bp < NBUF
        invariant 0 <= bp <= NBUF && this.disk == disk
        invariant Ring(t, ring) && |ring| == bp && (forall i :: 0 <= i < bp ==> ring[i] == bp - 1 - i)
        invariant forall i :: 0 <= i < NBUF ==> Blank(t[i])
        invariant forall i :: 0 <= i < bp ==> t[i].dev == NO_DEV
      {
        LinkFirst(t, ring, bp);
        t := t[bp := t[bp].(dev := NO_DEV)];
        t := Pushed(t, bp);
        ring := [bp] + ring;
        bp := bp + 1;
      }
      ghost var stamp := seq<nat>(NBUF, i => i);
      log := Log(ring, stamp, NBUF, {}, {});
      Fresh(t, disk, ring, stamp);
    }

    /** The scan of getblk for a cached block; HEAD when there is none. */
    method FindCached(dev: nat, num: nat) returns (bp: nat)
      requires Valid()
      ensures bp <= NBUF && (bp < NBUF ==> Holds(t[bp], dev, num))
      ensures bp == HEAD ==> forall b :: 0 <= b < NBUF ==> !Holds(t[b], dev, num)
    {
      assert Joint(t, log.ring, 0);
      bp := t[HEAD].next;
      ghost var i := 0;
      while bp != HEAD
        invariant 0 <= i <= |log.ring| && bp == Node(log.ring, i)
        invariant forall j :: 0 <= j < i ==> !Holds(t[log.ring[j]], dev, num)
        decreases |log.ring| - i
      {
        if t[bp].dev == dev && t[bp].num == num {
          return;
        }
        assert Joint(t, log.ring, i + 1);
        bp := t[bp].next;
        i := i + 1;
      }
      NotCached(t, log.ring, dev, num);
    }

    /** The scan of getblk for a buffer to recycle; HEAD when there is none. */
    method FindIdle() returns (bp: nat)
      requires Valid()
      ensures bp <= NBUF && (bp < NBUF ==> Idle(t[bp]))
      ensures |log.stamp| == NBUF
      ensures forall b :: 0 <= b < NBUF && Idle(t[b]) ==> bp < NBUF && log.stamp[bp] <= log.stamp[b]
    {
      assert Joint(t, log.ring, |log.ring|);
      bp := t[HEAD].prev;
      ghost var i := |log.ring| - 1;
      while bp != HEAD
        invariant -1 <= i < |log.ring| && bp == Node(log.ring, i)
        invariant forall j :: i < j < |log.ring| ==> !Idle(t[log.ring[j]])
        decreases i + 1
      {
        if !t[bp].busy && !t[bp].dirty {
          break;
        }
        assert Joint(t, log.ring, i);
        bp := t[bp].prev;
        i := i - 1;
      }
      Oldest(t, log.ring, log.stamp, i);
    }

    /** The buffer of a block, marked busy: the cached one, or the least recently released
        buffer that is neither busy nor dirty, cleared for the block. */
    method Getblk(dev: nat, num: nat) returns (r: Got)
      requires Valid() && dev < NO_DEV
      modifies this`t, this`log
      ensures Valid() && log == Asked(old(log), dev, num) && |log.stamp| == NBUF
      ensures
        var cached := exists i :: 0 <= i < NBUF && Holds(old(t)[i], dev, num);
        match r
        case Got(b) =>
          && b < NBUF && !old(t)[b].busy
          && (if cached then Holds(old(t)[b], dev, num) && t == old(t)[b := old(t)[b].(busy := true)]
              else
                && t == old(t)[b := Cleared(old(t)[b], dev, num)] && Idle(old(t)[b])
                && forall j :: 0 <= j < NBUF && Idle(old(t)[j]) ==> log.stamp[b] <= log.stamp[j])
        case Sleeps => t == old(t) && exists i :: 0 <= i < NBUF && Holds(t[i], dev, num) && t[i].busy
        case NoBuffer => t == old(t) && !cached && forall j :: 0 <= j < NBUF ==> !Idle(t[j])
        case Fails => false
    {
      hide Inv;
      var bp := FindCached(dev, num);
      Ask(t, disk, log, dev, num);
      if bp != HEAD {
        if t[bp].busy {
          r := Sleeps;
        } else {
          Take(t, disk, log, bp, dev, num);
          t := t[bp := t[bp].(busy := true)];
          r := Got(bp);
        }
        log := Asked(log, dev, num);
        return;
      }
      bp := FindIdle();
      if bp == HEAD {
        r := NoBuffer;
      } else {
        Recycle(t, disk, log, bp, dev, num);
        t := t[bp := t[bp].(busy := true, valid := false, dirty := false, dev := dev, num := num)];
        r := Got(bp);
      }
      log := Asked(log, dev, num);
    }

    /** memhd_rw: one sector between buffer `b` and the memory disk; false on a panic. */
    method MemhdRw(b: nat) returns (ok: bool)
      requires b < NBUF
      modifies this`t, this`disk
      ensures
        var o := old(t)[b];
        ok == (o.busy && (!o.valid || o.dirty) && Major(o.dev) == MEM_MAJOR && o.num < |old(disk)|)
      ensures !ok ==> t == old(t) && disk == old(disk)
      ensures ok ==>
                var o := old(t)[b];
                if o.dirty then
                  disk == old(disk)[o.num := o.data] && t == old(t)[b := o.(dirty := false, valid := true)]
                else disk == old(disk) && t == old(t)[b := o.(data := old(disk)[o.num], valid := true)]
    {
      if !t[b].busy || (t[b].valid && !t[b].dirty) || Major(t[b].dev) != MEM_MAJOR || t[b].num >= |disk| {
        return false;
      }
      if t[b].dirty {
        t := t[b := t[b].(dirty := false)];
        disk := disk[t[b].num := t[b].data];
      } else {
        t := t[b := t[b].(data := disk[t[b].num])];
      }
      t := t[b := t[b].(valid := true)];
      return true;
    }

    /** A busy buffer with the contents of a block. A valid cached buffer comes as it was; any
        other is filled from the disk. Both are the sector's contents unless it went stray. */
    method Bread(dev: nat, num: nat) returns (r: Got)
      requires Valid() && dev < NO_DEV && Major(dev) != HD_MAJOR
      modifies this`t, this`disk, this`log
      ensures r != Fails ==> Valid()
      ensures disk == old(disk) && log == Asked(old(log), dev, num) && |log.stamp| == NBUF
      ensures
        var cached := exists i :: 0 <= i < NBUF && Holds(old(t)[i], dev, num);
        match r
        case Got(b) =>
          && b < NBUF && !old(t)[b].busy && num < |disk|
          && (cached ==> Holds(old(t)[b], dev, num))
          && (!cached ==> forall j :: 0 <= j < NBUF && Idle(old(t)[j]) ==> log.stamp[b] <= log.stamp[j])
          && t == old(t)[b := if cached && old(t)[b].valid then old(t)[b].(busy := true)
                              else Cleared(old(t)[b], dev, num).(valid := true, data := disk[num])]
          && (num !in log.stray ==> t[b].data == disk[num])
        case Sleeps => t == old(t) && exists i :: 0 <= i < NBUF && Holds(t[i], dev, num) && t[i].busy
        case NoBuffer => t == old(t) && !cached && forall j :: 0 <= j < NBUF ==> !Idle(t[j])
        case Fails => Major(dev) != MEM_MAJOR || num >= |disk|
    {
      hide Inv;
      ghost var t0, h0 := t, log;
      r := Getblk(dev, num);
      if !r.Got? {
        return;
      }
      var b := r.b;
      NotDirty(t0, disk, h0, b);
      NotDirty(t, disk, log, b);
      if !t[b].valid {
        ghost var t1 := t;
        var ok := MemhdRw(b);
        if !ok {
          return Fails;
        }
        Load(t1, disk, log, b, disk[num], true);
      }
    }

    /** The holder of a busy buffer changes its data. */
    method Fill(b: nat, data: Sector)
      requires Valid() && b < NBUF && t[b].busy && t[b].dev != NO_DEV
      modifies this`t
      ensures Valid() && t == old(t)[b := old(t)[b].(data := data)]
    {
      hide Inv;
      NotDirty(t, disk, log, b);
      Load(t, disk, log, b, data, t[b].valid);
      t := t[b := t[b].(data := data)];
    }

    /** Writes a busy buffer through to the disk; false on a panic. */
    method Bwrite(b: nat) returns (ok: bool)
      requires Valid() && b < NBUF && t[b].dev != NO_DEV && Major(t[b].dev) != HD_MAJOR
      modifies this`t, this`disk, this`log
      ensures ok == (old(t)[b].busy && Major(old(t)[b].dev) == MEM_MAJOR && old(t)[b].num < |old(disk)|)
      ensures ok ==>
                && Valid() && disk == old(disk)[old(t)[b].num := old(t)[b].data]
                && t == old(t)[b := old(t)[b].(valid := true)]
                && log == Written(old(log), old(t), old(disk), b)
                && (OneDevice(log.asked, t[b].num) ==> log == old(log))
    {
      hide Inv, Cached;
      if !t[b].busy {
        return false;
      }
      NotDirty(t, disk, log, b);
      t := t[b := t[b].(dirty := true)];
      ok := MemhdRw(b);
      if ok {
        Flush(old(t), old(disk), log, b);
        if OneDevice(log.asked, t[b].num) {
          OneDeviceWritten(old(t), old(disk), log, b);
        }
        log := Written(log, old(t), old(disk), b);
        assert t == old(t)[b := old(t)[b].(valid := true, dirty := false)];
      }
    }

    /** Releases a busy buffer and moves it to the front of the ring; false on a panic. What its
        holder changed and did not write makes the sector stray. */
    method Brelse(b: nat) returns (ok: bool)
      requires Valid() && b < NBUF
      modifies this`t, this`log
      ensures Valid() && ok == old(t)[b].busy
      ensures !ok ==> t == old(t) && log == old(log)
      ensures ok ==>
                && (forall i :: 0 <= i < NBUF ==> Fields(t[i]) == Fields(old(t)[i]).(busy := i != b && old(t)[i].busy))
                && exists k :: 0 <= k < |old(log).ring| && old(log).ring[k] == b && |old(log).stamp| == NBUF
                               && log == Released(old(log), old(t), disk, k)
    {
      hide Inv, Ring, Unlinked, Pushed;
      if !t[b].busy {
        return false;
      }
      Parts(t, disk, log);
      ghost var k := Located(log.ring, b);
      Relink(t, log.ring, k);
      ghost var t0 := t;
      t := Unlinked(t, b);
      t := Pushed(t, b);
      Release(t0, t, disk, log, k);
      t := t[b := t[b].(busy := false)];
      log := Released(log, t0, disk, k);
      return true;
    }

    /** Nobody holds a buffer. */
    ghost predicate Quiet()
      reads this
    {
      forall i :: 0 <= i < NBUF ==> !t[i].busy
    }

    /** Nobody holds a buffer and every cached block is the disk's. */
    ghost predicate Steady()
      reads this
    {
      Valid() && Quiet() && log.stray == {}
    }

    /** bread, copy out, brelse. Other holders are not disturbed. */
    method ReadBlock(dev: nat, num: nat) returns (s: Sector)
      requires Valid() && Major(dev) == MEM_MAJOR && num < |disk| && Available(t, dev, num)
      modifies this
      ensures Valid() && disk == old(disk) && SameHolders(old(t), t)
      ensures log.asked == old(log.asked) + {Key(dev, num)} && log.stray == old(log.stray)
      ensures num !in log.stray ==> s == disk[num]
    {
      hide Inv, Ring;
      AllClean(t, disk, log);
      var r := Bread(dev, num);
      s := t[r.b].data;
      ghost var t1 := t;
      var ok := Brelse(r.b);
      Undisturbed(old(t), t1, t, r.b);
    }

    /** How a holder changes a block: bread, new data, bwrite, brelse. */
    method WriteBlock(dev: nat, num: nat, data: Sector)
      requires Valid() && Major(dev) == MEM_MAJOR && num < |disk| && Available(t, dev, num)
      modifies this
      ensures Valid() && disk == old(disk)[num := data] && SameHolders(old(t), t)
      ensures log.asked == old(log.asked) + {Key(dev, num)} && log.stray <= old(log.stray) + {num}
      ensures OneDevice(log.asked, num) ==> log.stray == old(log.stray)
    {
      hide Inv, Ring, Cached;
      AllClean(t, disk, log);
      var r := Bread(dev, num);
      Fill(r.b, data);
      var ok := Bwrite(r.b);
      ghost var t1 := t;
      ok := Brelse(r.b);
      Undisturbed(old(t), t1, t, r.b);
    }

    /** bread_nblocks: `n` consecutive blocks. */
    method BreadNblocks(dev: nat, blk: nat, n: nat) returns (buf: seq<Byte>)
      requires Valid() && Major(dev) == MEM_MAJOR && blk + n <= |disk|
      requires forall i :: blk <= i < blk + n ==> Available(t, dev, i)
      modifies this
      ensures Valid() && disk == old(disk) && SameHolders(old(t), t) && log.stray == old(log.stray)
      ensures |buf| == 512 * n
      ensures forall i :: 0 <= i < n && blk + i !in log.stray ==> Piece(buf, i) == disk[blk + i]
    {
      hide Inv, Ring, Available, SameHolders, Piece;
      buf := [];
      var k := 0;
      SameHoldersRefl(t);
      while k < n
        invariant 0 <= k <= n && Valid() && disk == old(disk) && SameHolders(old(t), t) && log.stray == old(log.stray)
        invariant |buf| == 512 * k
        invariant forall i :: 0 <= i < k && blk + i !in log.stray ==> Piece(buf, i) == disk[blk + i]
      {
        StillAvailable(old(t), t, dev, blk + k);
        ghost var t1 := t;
        var s := ReadBlock(dev, blk + k);
        SameHoldersTrans(old(t), t1, t);
        Pieces(buf, s, k);
        buf := buf + s;
        k := k + 1;
      }
    }
  }

  /** A buffer is free and nobody holds the block, so that a bread would not wait or panic. */
  ghost predicate Available(t: Table, dev: nat, num: nat) {
    && (exists i :: 0 <= i < NBUF && !t[i].busy)
    && (forall i :: 0 <= i < NBUF && t[i].busy ==> !Holds(t[i], dev, num))
  }

  lemma StillAvailable(t: Table, u: Table, dev: nat, num: nat)
    requires Available(t, dev, num) && SameHolders(t, u)
    ensures Available(u, dev, num)
  {
    var i :| 0 <= i < NBUF && !t[i].busy;
    assert !u[i].busy;
    forall j | 0 <= j < NBUF && u[j].busy ensures !Holds(u[j], dev, num) {
      assert Fields(u[j]) == Fields(t[j]);
    }
  }

  /** The same buffers are held, and their contents have not changed. */
  ghost predicate SameHolders(t: Table, u: Table) {
    forall i :: 0 <= i < NBUF ==> u[i].busy == t[i].busy && (t[i].busy ==> Fields(u[i]) == Fields(t[i]))
  }

  lemma SameHoldersRefl(t: Table)
    ensures SameHolders(t, t)
  {
  }

  lemma SameHoldersTrans(t: Table, u: Table, w: Table)
    requires SameHolders(t, u) && SameHolders(u, w)
    ensures SameHolders(t, w)
  {
  }

  /** Taking and releasing buffer `b` leaves the other holders alone. */
  lemma Undisturbed(t: Table, u: Table, w: Table, b: nat)
    requires b < NBUF && !t[b].busy && forall i :: 0 <= i < NBUF && i != b ==> u[i] == t[i]
    requires forall i :: 0 <= i < NBUF ==> Fields(w[i]) == Fields(u[i]).(busy := i != b && u[i].busy)
    ensures SameHolders(t, w)
  {
    forall i | 0 <= i < NBUF ensures w[i].busy == t[i].busy && (t[i].busy ==> Fields(w[i]) == Fields(t[i])) {
      assert Fields(w[i]).busy == w[i].busy;
    }
  }

  function Piece(buf: seq<Byte>, i: nat): Sector
    requires 512 * i + 512 <= |buf|
  {
    buf[512 * i..512 * i + 512]
  }

  lemma Pieces(buf: seq<Byte>, s: Sector, k: nat)
    requires |buf| == 512 * k
    ensures Piece(buf + s, k) == s && forall i :: 0 <= i < k ==> Piece(buf + s, i) == Piece(buf, i)
  {
    forall i | 0 <= i < k ensures Piece(buf + s, i) == Piece(buf, i) {
    }
  }
}

/** The buffer cache over the queued disk driver: several holders call bread and bwrite, wait
    inside hd_rw while others go on, and the disk answers in between. Every interleaving of
    their steps and of the completion interrupts is a run. */
module HdCache {
  import opened BufferRing
  import Cache
  import Hd

  type Key = Cache.Key

  /** Driver and buffers, with the device of each buffer. The rest is history: which buffers
      their holders changed since the last bwrite or read, what each sector was last handed to
      bwrite (`flat`), the blocks asked for, and the sectors given back changed and unwritten. */
  datatype System = System(h: Hd.State, dev: seq<nat>, changed: seq<bool>, flat: seq<Sector>, asked: set<Key>,
                           stray: set<nat>)

  /** getblk finds or recycles a buffer, bread and bwrite enter hd_rw, the disk completes a command,
      hd_rw returns, a holder changes its buffer, brelse. */
  datatype Event = Take(b: nat, k: Key) | Read(b: nat) | Write(b: nat) | Completion | Resume(b: nat)
                 | Change(b: nat, data: Sector) | Give(b: nat)

  predicate Shaped(s: System) {
    |s.h.bufs| == |s.h.waiting| == |s.h.ticket| == |s.dev| == |s.changed| && |s.flat| == |s.h.disk|
  }

  function KeyAt(s: System, b: nat): Key
    requires b < |s.h.bufs| && b < |s.dev|
  {
    Cache.Key(s.dev[b], s.h.bufs[b].num)
  }

  /** The holder of the buffer is not inside hd_rw. */
  predicate Holding(s: System, b: nat) {
    b < |s.h.bufs| && b < |s.h.waiting| && s.h.bufs[b].busy && !s.h.waiting[b]
  }

  predicate Missing(s: System, k: Key)
    requires |s.h.bufs| == |s.dev|
  {
    forall c :: 0 <= c < |s.h.bufs| ==> KeyAt(s, c) != k
  }

  /** The rules of fs/buffer.c. A block that is held makes its next caller wait, so there is no
      Take for it; which idle buffer is recycled does not matter. */
  predicate Allowed(s: System, e: Event)
    requires Shaped(s)
  {
    match e
    case Take(b, k) =>
      && b < |s.h.bufs| && !s.h.bufs[b].busy && Cache.Major(k.dev) == Cache.HD_MAJOR && k.num < |s.h.disk|
      && (KeyAt(s, b) == k || (!s.h.bufs[b].dirty && Missing(s, k)))
    case Read(b) => Holding(s, b) && !s.h.bufs[b].valid
    case Write(b) => Holding(s, b) && s.h.bufs[b].valid
    case Completion => true
    case Resume(b) => b < |s.h.bufs| && s.h.waiting[b] && Hd.Finished(s.h.bufs[b])
    case Change(b, _) => Holding(s, b) && s.h.bufs[b].valid
    case Give(b) => Holding(s, b) && s.h.bufs[b].valid
  }

  /** The buffer getblk returns: as it was, or cleared for the block. */
  function Taken(r: Hd.Request, hit: bool, num: nat): Hd.Request {
    if hit then r.(busy := true) else Hd.Request(num, true, false, false, r.data)
  }

  function TakeStep(s: System, b: nat, k: Key): System
    requires Shaped(s) && b < |s.dev|
  {
    s.(h := Hd.Touch(s.h, b, Taken(s.h.bufs[b], KeyAt(s, b) == k, k.num)), dev := s.dev[b := k.dev],
       asked := s.asked + {k})
  }

  function WriteStep(s: System, b: nat): System
    requires Shaped(s) && b < |s.dev| && s.h.bufs[b].num < |s.flat|
  {
    var r := s.h.bufs[b];
    s.(h := Hd.Enqueue(Hd.Touch(s.h, b, r.(dirty := true)), b), changed := s.changed[b := false],
       flat := s.flat[r.num := r.data])
  }

  function ChangeStep(s: System, b: nat, data: Sector): System
    requires Shaped(s) && b < |s.dev|
  {
    s.(h := Hd.Touch(s.h, b, s.h.bufs[b].(data := data)), changed := s.changed[b := true])
  }

  function GiveStep(s: System, b: nat): System
    requires Shaped(s) && b < |s.dev|
  {
    var r := s.h.bufs[b];
    s.(h := Hd.Touch(s.h, b, r.(busy := false)), changed := s.changed[b := false],
       stray := if s.changed[b] then s.stray + {r.num} else s.stray)
  }

  // ---- the invariant ---------------------------------------------------------------------------

  /** The sector was used through one device and never given back changed and unwritten. */
  ghost predicate Safe(s: System, num: nat) {
    num !in s.stray && Cache.OneDevice(s.asked, num)
  }

  ghost predicate Sound(s: System, b: nat)
    requires Shaped(s) && b < |s.dev|
  {
    var r := s.h.bufs[b];
    && (s.h.waiting[b] ==> r.busy) && (r.dirty ==> s.h.waiting[b] && r.valid)
    && (r.busy || r.valid ==> s.dev[b] < NO_DEV && KeyAt(s, b) in s.asked && r.num < |s.h.disk|)
    && (s.changed[b] ==> r.busy && !s.h.waiting[b] && r.valid)
    && (r.valid && !s.changed[b] && Safe(s, r.num) ==> r.data == s.flat[r.num])
  }

  /** No write of the sector is on its way to the disk. */
  ghost predicate Settled(h: Hd.State, num: nat) {
    forall b :: 0 <= b < |h.bufs| && h.bufs[b].dirty ==> h.bufs[b].num != num
  }

  /** The sector holds what it was last handed, unless the write is still on its way. */
  ghost predicate Stored(s: System, num: nat)
    requires Shaped(s) && num < |s.flat|
  {
    Safe(s, num) && Settled(s.h, num) ==> s.h.disk[num] == s.flat[num]
  }

  ghost predicate Unique(s: System)
    requires Shaped(s)
  {
    forall b, c :: 0 <= b < c < |s.dev| && s.dev[b] < NO_DEV ==> KeyAt(s, b) != KeyAt(s, c)
  }

  ghost predicate Inv(s: System) {
    && Shaped(s) && Hd.Inv(s.h) && Unique(s)
    && (forall b :: 0 <= b < |s.dev| ==> Sound(s, b))
    && (forall num :: 0 <= num < |s.flat| ==> Stored(s, num))
  }

  lemma SameKeys(s: System, g: System)
    requires Shaped(s) && Shaped(g) && Unique(s) && g.dev == s.dev
    requires forall b :: 0 <= b < |s.dev| ==> g.h.bufs[b].num == s.h.bufs[b].num
    ensures Unique(g)
  {
    forall b, c | 0 <= b < c < |g.dev| && g.dev[b] < NO_DEV ensures KeyAt(g, b) != KeyAt(g, c) {
      assert KeyAt(s, b) != KeyAt(s, c);
    }
  }

  lemma TakeUnique(s: System, b: nat, k: Key)
    requires Shaped(s) && Unique(s) && b < |s.dev| && k.dev < NO_DEV && (KeyAt(s, b) == k || Missing(s, k))
    ensures Unique(TakeStep(s, b, k))
  {
    var g := TakeStep(s, b, k);
    forall i, j | 0 <= i < j < |g.dev| && g.dev[i] < NO_DEV ensures KeyAt(g, i) != KeyAt(g, j) {
      assert Missing(s, k) ==> KeyAt(s, i) != k && KeyAt(s, j) != k;
      assert s.dev[i] < NO_DEV ==> KeyAt(s, i) != KeyAt(s, j);
    }
  }

  /** A safe sector has one buffer at most. */
  lemma OneBuffer(s: System, b: nat, c: nat)
    requires Inv(s) && b < |s.dev| && c < |s.dev| && s.h.bufs[b].num == s.h.bufs[c].num && Safe(s, s.h.bufs[b].num)
    requires (s.h.bufs[b].busy || s.h.bufs[b].valid) && (s.h.bufs[c].busy || s.h.bufs[c].valid)
    ensures b == c
  {
    hide Hd.Inv;
    assert Sound(s, b) && Sound(s, c);
    assert s.dev[b] == s.dev[c];
  }

  lemma TakeInv(s: System, b: nat, k: Key)
    requires Inv(s) && Allowed(s, Take(b, k))
    ensures Inv(TakeStep(s, b, k))
  {
    hide Hd.Inv, Cache.OneDevice;
    var g := TakeStep(s, b, k);
    assert Sound(s, b);
    Hd.TouchInv(s.h, b, g.h.bufs[b]);
    TakeUnique(s, b, k);
    LessSafe(s, g);
    forall c | 0 <= c < |g.dev| ensures Sound(g, c) {
      assert Sound(s, c);
    }
    forall num | 0 <= num < |g.flat| ensures Stored(g, num) {
      assert Stored(s, num);
      SettledTouch(s.h, b, g.h.bufs[b], num);
    }
  }

  lemma LessSafe(s: System, g: System)
    requires s.asked <= g.asked && s.stray <= g.stray
    ensures forall num :: Safe(g, num) ==> Safe(s, num)
  {
  }

  /** Changing a clean buffer to a clean one. */
  lemma SettledTouch(h: Hd.State, b: nat, r: Hd.Request, num: nat)
    requires b < |h.bufs| && !h.bufs[b].dirty && !r.dirty
    ensures Settled(Hd.Touch(h, b, r), num) ==> Settled(h, num)
  {
    var g := Hd.Touch(h, b, r);
    if Settled(g, num) {
      forall c | 0 <= c < |h.bufs| && h.bufs[c].dirty ensures h.bufs[c].num != num {
        assert g.bufs[c] == h.bufs[c];
      }
    }
  }

  lemma ReadInv(s: System, b: nat)
    requires Inv(s) && Allowed(s, Read(b))
    ensures Inv(s.(h := Hd.Enqueue(s.h, b)))
  {
    hide Hd.Inv, Cache.OneDevice;
    var g := s.(h := Hd.Enqueue(s.h, b));
    assert Sound(s, b);
    Hd.EnqueueInv(s.h, b);
    SameKeys(s, g);
    LessSafe(s, g);
    forall c | 0 <= c < |g.dev| ensures Sound(g, c) {
      assert Sound(s, c);
    }
    forall num | 0 <= num < |g.flat| ensures Stored(g, num) {
      assert Stored(s, num);
      assert Settled(g.h, num) ==> Settled(s.h, num);
    }
  }

  lemma WriteInv(s: System, b: nat)
    requires Inv(s) && Allowed(s, Write(b))
    ensures s.h.bufs[b].num < |s.flat| && Inv(WriteStep(s, b))
  {
    hide Hd.Inv, Cache.OneDevice;
    assert Sound(s, b);
    var g, r := WriteStep(s, b), s.h.bufs[b];
    Hd.TouchInv(s.h, b, r.(dirty := true));
    Hd.EnqueueInv(Hd.Touch(s.h, b, r.(dirty := true)), b);
    SameKeys(s, g);
    LessSafe(s, g);
    forall c | 0 <= c < |g.dev| ensures Sound(g, c) {
      assert Sound(s, c);
      if c != b && s.h.bufs[c].num == r.num && s.h.bufs[c].valid && Safe(s, r.num) {
        OneBuffer(s, b, c);
      }
    }
    forall num | 0 <= num < |g.flat| ensures Stored(g, num) {
      assert Stored(s, num);
      assert g.h.bufs[b].dirty && g.h.bufs[b].num == r.num;
      if Settled(g.h, num) {
        OtherSettled(s.h, g.h, b, num);
      }
    }
  }

  lemma ResumeInv(s: System, b: nat)
    requires Inv(s) && Allowed(s, Resume(b))
    ensures Inv(s.(h := Hd.Leave(s.h, b)))
  {
    hide Hd.Inv, Cache.OneDevice;
    var g := s.(h := Hd.Leave(s.h, b));
    Hd.LeaveInv(s.h, b);
    SameKeys(s, g);
    LessSafe(s, g);
    forall c | 0 <= c < |g.dev| ensures Sound(g, c) {
      assert Sound(s, c);
    }
    forall num | 0 <= num < |g.flat| ensures Stored(g, num) {
      assert Stored(s, num);
      assert Settled(g.h, num) ==> Settled(s.h, num);
    }
  }

  lemma ChangeInv(s: System, b: nat, data: Sector)
    requires Inv(s) && Allowed(s, Change(b, data))
    ensures Inv(ChangeStep(s, b, data))
  {
    hide Hd.Inv, Cache.OneDevice;
    var g := ChangeStep(s, b, data);
    assert Sound(s, b);
    Hd.TouchInv(s.h, b, g.h.bufs[b]);
    SameKeys(s, g);
    LessSafe(s, g);
    forall c | 0 <= c < |g.dev| ensures Sound(g, c) {
      assert Sound(s, c);
    }
    forall num | 0 <= num < |g.flat| ensures Stored(g, num) {
      assert Stored(s, num);
      SettledTouch(s.h, b, g.h.bufs[b], num);
    }
  }

  lemma GiveInv(s: System, b: nat)
    requires Inv(s) && Allowed(s, Give(b))
    ensures Inv(GiveStep(s, b))
  {
    hide Hd.Inv, Cache.OneDevice;
    var g := GiveStep(s, b);
    assert Sound(s, b);
    Hd.TouchInv(s.h, b, g.h.bufs[b]);
    SameKeys(s, g);
    LessSafe(s, g);
    forall c | 0 <= c < |g.dev| ensures Sound(g, c) {
      assert Sound(s, c);
    }
    forall num | 0 <= num < |g.flat| ensures Stored(g, num) {
      assert Stored(s, num);
      SettledTouch(s.h, b, g.h.bufs[b], num);
    }
  }

  lemma CompletionInv(s: System)
    requires Inv(s)
    ensures (forall i :: 0 <= i < |s.h.queue| ==> s.h.queue[i] < |s.h.bufs|) && Inv(s.(h := Hd.Interrupt(s.h)))
  {
    hide Hd.Inv, Hd.Interrupt, Cache.OneDevice;
    Hd.InterruptServes(s.h);
    if s.h.queue != [] {
      var b, g := s.h.queue[0], s.(h := Hd.Interrupt(s.h));
      Hd.InterruptInv(s.h);
      Hd.QueuedIff(s.h, b);
      SameKeys(s, g);
      LessSafe(s, g);
      var r := s.h.bufs[b];
      assert Sound(s, b) && Stored(s, r.num);
      if Safe(s, r.num) && !r.dirty {
        AloneSettled(s, b);
      }
      forall c | 0 <= c < |g.dev| ensures Sound(g, c) {
        assert Sound(s, c);
      }
      forall num | 0 <= num < |g.flat| ensures Stored(g, num) {
        assert Stored(s, num);
        if num != r.num && Settled(g.h, num) {
          OtherSettled(s.h, g.h, b, num);
        }
      }
    }
  }

  /** While a safe sector is being read, no write of it is on its way. */
  lemma AloneSettled(s: System, b: nat)
    requires Inv(s) && b < |s.dev| && s.h.bufs[b].busy && !s.h.bufs[b].dirty && Safe(s, s.h.bufs[b].num)
    ensures Settled(s.h, s.h.bufs[b].num)
  {
    hide Hd.Inv, Cache.OneDevice;
    forall c | 0 <= c < |s.h.bufs| && s.h.bufs[c].dirty ensures s.h.bufs[c].num != s.h.bufs[b].num {
      assert Sound(s, c);
      if s.h.bufs[c].num == s.h.bufs[b].num {
        OneBuffer(s, b, c);
      }
    }
  }

  lemma OtherSettled(h: Hd.State, g: Hd.State, b: nat, num: nat)
    requires b < |h.bufs| == |g.bufs| && h.bufs[b].num != num && Settled(g, num)
    requires forall c :: 0 <= c < |h.bufs| && c != b ==> g.bufs[c] == h.bufs[c]
    ensures Settled(h, num)
  {
    forall c | 0 <= c < |h.bufs| && h.bufs[c].dirty ensures h.bufs[c].num != num {
      assert c != b ==> g.bufs[c] == h.bufs[c];
    }
  }

  // ---- runs --------------------------------------------------------------------------------------

  lemma Ready(s: System, e: Event)
    requires Inv(s) && Allowed(s, e)
    ensures Shaped(s) && (!e.Completion? ==> e.b < |s.dev|)
    ensures e.Write? ==> s.h.bufs[e.b].num < |s.flat|
    ensures forall i :: 0 <= i < |s.h.queue| ==> s.h.queue[i] < |s.h.bufs|
  {
    hide Hd.Inv, Unique, Stored;
    Hd.InRange(s.h);
    if e.Write? { assert Sound(s, e.b); }
  }

  ghost function Next(s: System, e: Event): System
    requires Inv(s) && Allowed(s, e)
  {
    Ready(s, e);
    match e
    case Take(b, k) => TakeStep(s, b, k)
    case Read(b) => s.(h := Hd.Enqueue(s.h, b))
    case Write(b) => WriteStep(s, b)
    case Completion => s.(h := Hd.Interrupt(s.h))
    case Resume(b) => s.(h := Hd.Leave(s.h, b))
    case Change(b, data) => ChangeStep(s, b, data)
    case Give(b) => GiveStep(s, b)
  }

  lemma NextInv(s: System, e: Event)
    requires Inv(s) && Allowed(s, e)
    ensures Inv(Next(s, e))
  {
    hide Inv, TakeStep, WriteStep, ChangeStep, GiveStep, Hd.Enqueue, Hd.Interrupt, Hd.Leave;
    Ready(s, e);
    match e {
      case Take(b, k) => TakeInv(s, b, k);
      case Read(b) => ReadInv(s, b);
      case Write(b) => WriteInv(s, b);
      case Completion => CompletionInv(s);
      case Resume(b) => ResumeInv(s, b);
      case Change(b, data) => ChangeInv(s, b, data);
      case Give(b) => GiveInv(s, b);
    }
  }

  ghost function Step(s: System, e: Event): (g: System)
    requires Inv(s) && Allowed(s, e)
    ensures Inv(g)
  {
    NextInv(s, e);
    Next(s, e)
  }

  ghost predicate Reaches(s: System, es: seq<Event>, g: System)
    requires Inv(s)
    decreases |es|
  {
    if es == [] then g == s
    else Allowed(s, es[0]) && Reaches(Step(s, es[0]), es[1..], g)
  }

  /** A cache that init_buffer left, over a disk. */
  ghost function Boot(n: nat, disk: seq<Sector>): System {
    var r := Hd.Request(0, false, false, false, seq(512, _ => 0));
    System(Hd.State(seq(n, _ => r), seq(n, _ => false), seq(n, _ => 0), [], Hd.Nothing, disk, [], []),
           seq(n, _ => NO_DEV), seq(n, _ => false), disk, {}, {})
  }

  lemma BootInv(n: nat, disk: seq<Sector>)
    requires |disk| <= 0x1000_0000
    ensures Inv(Boot(n, disk))
  {
  }

  // ---- what the holders see ------------------------------------------------------------------------

  /** A call of bread or bwrite returns: getblk found a valid buffer, or hd_rw is over. */
  predicate Returning(s: System, e: Event)
    requires Shaped(s) && Allowed(s, e)
  {
    match e
    case Take(b, k) => KeyAt(s, b) == k && s.h.bufs[b].valid
    case Resume(_) => true
    case _ => false
  }

  /** Whenever a call returns, its buffer is what the sector was last handed. */
  lemma Returned(s: System, e: Event)
    requires Inv(s) && Allowed(s, e) && Returning(s, e)
    ensures
      var g, r := Step(s, e), s.h.bufs[e.b];
      && e.b < |g.h.bufs| && r.num < |g.flat| && g.h.bufs[e.b].num == r.num && g.flat == s.flat
      && (Safe(g, r.num) ==> g.h.bufs[e.b].data == g.flat[r.num])
  {
    hide Hd.Inv, Cache.OneDevice;
    assert Sound(s, e.b) && Sound(Step(s, e), e.b);
  }

  /** No event of the run is a bwrite of the sector. */
  ghost predicate Silent(s: System, es: seq<Event>, num: nat)
    requires Inv(s)
    decreases |es|
  {
    es == []
    || (Allowed(s, es[0]) && !(es[0].Write? && s.h.bufs[es[0].b].num == num) && Silent(Step(s, es[0]), es[1..], num))
  }

  lemma {:induction false} FlatKept(s: System, es: seq<Event>, g: System, num: nat)
    requires Inv(s) && Reaches(s, es, g) && Silent(s, es, num) && num < |s.flat|
    ensures Inv(g) && num < |g.flat| && g.flat[num] == s.flat[num]
    decreases |es|
  {
    hide Inv, Allowed;
    if es != [] {
      FlatStep(s, es[0]);
      FlatKept(Step(s, es[0]), es[1..], g, num);
    }
  }

  lemma FlatStep(s: System, e: Event)
    requires Inv(s) && Allowed(s, e)
    ensures
      var g := Step(s, e);
      && |g.flat| == |s.flat|
      && (e.Write? ==> s.h.bufs[e.b].num < |s.flat| && g.flat == s.flat[s.h.bufs[e.b].num := s.h.bufs[e.b].data])
      && (!e.Write? ==> g.flat == s.flat)
  {
    hide Hd.Inv;
    if e.Write? { assert Sound(s, e.b); }
  }

  /** A call that returns finds the data of the last bwrite of the sector, whoever made it and
      however many others waited in the driver meanwhile. */
  lemma ReadsLastWrite(s: System, b: nat, es: seq<Event>, g: System, e: Event)
    requires Inv(s) && Allowed(s, Write(b)) && Reaches(Step(s, Write(b)), es, g)
    requires Silent(Step(s, Write(b)), es, s.h.bufs[b].num)
    requires Inv(g) && Allowed(g, e) && Returning(g, e) && g.h.bufs[e.b].num == s.h.bufs[b].num
    requires Safe(Step(g, e), s.h.bufs[b].num)
    ensures e.b < |Step(g, e).h.bufs| && Step(g, e).h.bufs[e.b].data == s.h.bufs[b].data
  {
    hide Inv;
    FlatStep(s, Write(b));
    FlatKept(Step(s, Write(b)), es, g, s.h.bufs[b].num);
    Returned(g, e);
  }

  /** Before the first bwrite of a sector, a call finds what was on the disk. */
  lemma ReadsDisk(n: nat, disk: seq<Sector>, es: seq<Event>, g: System, e: Event)
    requires |disk| <= 0x1000_0000 && Inv(Boot(n, disk)) && Reaches(Boot(n, disk), es, g)
    requires Inv(g) && Allowed(g, e) && Returning(g, e) && g.h.bufs[e.b].num < |disk|
    requires Silent(Boot(n, disk), es, g.h.bufs[e.b].num) && Safe(Step(g, e), g.h.bufs[e.b].num)
    ensures e.b < |Step(g, e).h.bufs| && Step(g, e).h.bufs[e.b].data == disk[g.h.bufs[e.b].num]
  {
    hide Inv;
    FlatKept(Boot(n, disk), es, g, g.h.bufs[e.b].num);
    Returned(g, e);
  }

  // ---- the driver in these runs ----------------------------------------------------------------------

  /** The steps of the driver an event is made of. */
  function Driver(s: System, e: Event): seq<Hd.Event>
    requires Shaped(s) && Allowed(s, e)
  {
    match e
    case Take(b, k) => [Hd.Change(b, Taken(s.h.bufs[b], KeyAt(s, b) == k, k.num))]
    case Read(b) => [Hd.Ask(b)]
    case Write(b) => [Hd.Change(b, s.h.bufs[b].(dirty := true)), Hd.Ask(b)]
    case Completion => [Hd.Completion]
    case Resume(b) => [Hd.Resume(b)]
    case Change(b, data) => [Hd.Change(b, s.h.bufs[b].(data := data))]
    case Give(b) => [Hd.Change(b, s.h.bufs[b].(busy := false))]
  }

  function Completions(es: seq<Event>): nat {
    if es == [] then 0 else (if es[0].Completion? then 1 else 0) + Completions(es[1..])
  }

  lemma OneStep(h: Hd.State, d: Hd.Event)
    requires Hd.Inv(h) && Hd.Allowed(h, d)
    ensures Hd.Reaches(h, [d], Hd.Step(h, d)) && Hd.Completions([d]) == if d.Completion? then 1 else 0
  {
    hide Hd.Inv;
    assert [d][1..] == [];
  }

  lemma {:induction false} Joined(h: Hd.State, ds: seq<Hd.Event>, m: Hd.State, cs: seq<Hd.Event>, g: Hd.State)
    requires Hd.Inv(h) && Hd.Reaches(h, ds, m) && Hd.Inv(m) && Hd.Reaches(m, cs, g)
    ensures Hd.Reaches(h, ds + cs, g) && Hd.Completions(ds + cs) == Hd.Completions(ds) + Hd.Completions(cs)
    decreases |ds|
  {
    hide Hd.Inv, Hd.Step, Hd.Allowed;
    if ds == [] {
      assert ds + cs == cs;
    } else {
      Joined(Hd.Step(h, ds[0]), ds[1..], m, cs, g);
      assert (ds + cs)[1..] == ds[1..] + cs;
    }
  }

  lemma DriverStep(s: System, e: Event)
    requires Inv(s) && Allowed(s, e)
    ensures Hd.Reaches(s.h, Driver(s, e), Step(s, e).h)
    ensures Hd.Completions(Driver(s, e)) == if e.Completion? then 1 else 0
    ensures forall b :: Hd.Resume(b) in Driver(s, e) <==> e == Resume(b)
  {
    hide Hd.Inv, Hd.Reaches, Hd.Completions, Cache.OneDevice;
    if !e.Completion? { assert Sound(s, e.b); }
    var ds := Driver(s, e);
    var m := Hd.Step(s.h, ds[0]);
    OneStep(s.h, ds[0]);
    if e.Write? {
      OneStep(m, ds[1]);
      Joined(s.h, [ds[0]], m, [ds[1]], Step(s, e).h);
      assert ds == [ds[0]] + [ds[1]];
    }
  }

  /** Every run of the cache is a run of the driver. */
  lemma {:induction false} DriverRun(s: System, es: seq<Event>, g: System) returns (ds: seq<Hd.Event>)
    requires Inv(s) && Reaches(s, es, g)
    ensures Inv(g) && Hd.Reaches(s.h, ds, g.h) && Hd.Completions(ds) == Completions(es)
    ensures forall b :: Hd.Resume(b) in ds <==> Resume(b) in es
    decreases |es|
  {
    hide Hd.Inv, Hd.Reaches, Allowed, Step, Driver;
    if es == [] {
      ds := [];
      NoSteps(s.h);
    } else {
      var m := Step(s, es[0]);
      DriverStep(s, es[0]);
      var rest := DriverRun(m, es[1..], g);
      Joined(s.h, Driver(s, es[0]), m.h, rest, g.h);
      ds := Driver(s, es[0]) + rest;
      assert es == [es[0]] + es[1..];
    }
  }

  lemma NoSteps(h: Hd.State)
    requires Hd.Inv(h)
    ensures Hd.Reaches(h, [], h)
  {
  }

  /** The data handed in is on the disk and still in the buffer. */
  predicate Durable(h: Hd.State, b: nat, r: Hd.Request) {
    && b < |h.bufs| && h.bufs[b].num == r.num && h.bufs[b].data == r.data
    && r.num < |h.disk| && h.disk[r.num] == r.data
  }

  /** A bwrite of a safe sector returns with its data on the disk and still in its buffer. */
  lemma WriteDurable(s: System, b: nat, es: seq<Event>, g: System)
    requires Inv(s) && Allowed(s, Write(b)) && Reaches(Step(s, Write(b)), es, g) && Resume(b) !in es
    requires Inv(g) && Allowed(g, Resume(b)) && b < |s.h.bufs| && Safe(g, s.h.bufs[b].num)
    ensures Durable(g.h, b, s.h.bufs[b])
  {
    hide Hd.Inv, Hd.Reaches, Cache.OneDevice, Reaches;
    var m := Step(s, Write(b));
    var ds := DriverRun(m, es, g);
    Hd.WaitRun(m.h, ds, g.h, b);
    assert Sound(g, b) && Stored(g, s.h.bufs[b].num);
    AloneSettled(g, b);
  }

  /** A request of the cache is answered by the completion its place in the queue says, whatever
      the holders do meanwhile. */
  lemma AnsweredInTurn(s: System, es: seq<Event>, g: System, k: nat)
    requires Inv(s) && Reaches(s, es, g) && k < |s.h.queue| && k < Completions(es)
    ensures |g.h.done| > |s.h.done| + k && g.h.done[|s.h.done| + k].b == s.h.queue[k]
  {
    hide Hd.Inv, Hd.Reaches, Reaches;
    var ds := DriverRun(s, es, g);
    Hd.FinishesInTurn(s.h, ds, g.h, k);
  }

  // ---- why both conditions are needed --------------------------------------------------------------------

  lemma {:induction false} Then(s: System, es: seq<Event>, m: System, e: Event)
    requires Inv(s) && Reaches(s, es, m) && Inv(m) && Allowed(m, e)
    ensures Reaches(s, es + [e], Step(m, e))
    decreases |es|
  {
    hide Inv, Step, Allowed;
    if es == [] {
      assert (es + [e])[1..] == [] && (es + [e])[0] == e;
    } else {
      Then(Step(s, es[0]), es[1..], m, e);
      assert (es + [e])[1..] == es[1..] + [e] && (es + [e])[0] == es[0];
    }
  }

  /** Nobody is inside hd_rw. */
  ghost predicate Still(s: System) {
    Inv(s) && s.h.queue == [] && forall b :: 0 <= b < |s.h.bufs| ==> !s.h.waiting[b]
  }

  lemma BootStill(n: nat, disk: seq<Sector>)
    requires |disk| <= 0x1000_0000
    ensures Still(Boot(n, disk)) && Reaches(Boot(n, disk), [], Boot(n, disk))
  {
    BootInv(n, disk);
  }

  /** A bread of a block that is not cached, without interruption. */
  lemma Fetch(s0: System, es: seq<Event>, s: System, b: nat, k: Key) returns (fs: seq<Event>, g: System)
    requires Inv(s0) && Reaches(s0, es, s) && Still(s) && Allowed(s, Take(b, k)) && Missing(s, k)
    ensures Reaches(s0, fs, g) && Still(g) && g.dev == s.dev[b := k.dev] && g.flat == s.flat && g.h.disk == s.h.disk
    ensures g.h.bufs == s.h.bufs[b := Hd.Request(k.num, true, true, false, s.h.disk[k.num])]
  {
    hide Hd.Inv, Hd.Interrupt, Sound, Unique, Stored, Settled;
    Then(s0, es, s, Take(b, k));
    var m := Step(s, Take(b, k));
    fs, g := Roundtrip(s0, es + [Take(b, k)], m, b, Read(b));
  }

  /** A call of hd_rw while the driver is idle. */
  lemma Roundtrip(s0: System, es: seq<Event>, s: System, b: nat, e: Event) returns (fs: seq<Event>, g: System)
    requires Inv(s0) && Reaches(s0, es, s) && Still(s) && Allowed(s, e) && (e == Read(b) || e == Write(b))
    ensures s.h.bufs[b].num < |s.h.disk| && Reaches(s0, fs, g) && Still(g) && g.dev == s.dev
    ensures
      var r := s.h.bufs[b];
      if e.Write? then
        && g.flat == s.flat[r.num := r.data] && g.h.disk == s.h.disk[r.num := r.data] && g.h.bufs == s.h.bufs
      else
        && g.flat == s.flat && g.h.disk == s.h.disk
        && g.h.bufs == s.h.bufs[b := r.(valid := true, data := s.h.disk[r.num])]
  {
    hide Hd.Inv, Hd.Interrupt, Unique, Stored, Settled, Safe;
    assert Sound(s, b);
    Then(s0, es, s, e);
    var m := Step(s, e);
    assert m.h.queue == [b];
    Hd.InterruptServes(m.h);
    Then(s0, es + [e], m, Completion);
    var w := Step(m, Completion);
    Then(s0, es + [e] + [Completion], w, Resume(b));
    fs, g := es + [e] + [Completion] + [Resume(b)], Step(w, Resume(b));
  }

  /** Any sector used through any two devices can be read stale. */
  lemma TwoDevices(disk: seq<Sector>, num: nat, d: nat, e: nat, data: Sector) returns (es: seq<Event>, g: System)
    requires Cache.Major(d) == Cache.Major(e) == Cache.HD_MAJOR && d != e && num < |disk| <= 0x1000_0000
    requires data != disk[num]
    ensures Inv(Boot(2, disk)) && Reaches(Boot(2, disk), es, g) && Inv(g)
    ensures Allowed(g, Take(0, Cache.Key(e, num))) && Returning(g, Take(0, Cache.Key(e, num)))
    ensures g.h.bufs[0].data == disk[num] && num < |g.flat| && g.flat[num] == g.h.disk[num] == data
  {
    hide Hd.Inv, Sound, Unique, Stored, Settled, Reaches;
    var s0 := Boot(2, disk);
    BootStill(2, disk);
    var s1, s3;
    es, s1 := Fetch(s0, [], s0, 0, Cache.Key(e, num));
    Then(s0, es, s1, Give(0));
    var s2 := Step(s1, Give(0));
    es, s3 := Fetch(s0, es + [Give(0)], s2, 1, Cache.Key(d, num));
    Then(s0, es, s3, Change(1, data));
    var s4 := Step(s3, Change(1, data));
    es, g := Roundtrip(s0, es + [Change(1, data)], s4, 1, Write(1));
  }

  /** Any change given back unwritten is seen by the next reader and not on the disk. */
  lemma Unwritten(disk: seq<Sector>, num: nat, d: nat, data: Sector) returns (es: seq<Event>, g: System)
    requires Cache.Major(d) == Cache.HD_MAJOR && num < |disk| <= 0x1000_0000 && data != disk[num]
    ensures Inv(Boot(1, disk)) && Reaches(Boot(1, disk), es, g) && Inv(g)
    ensures Allowed(g, Take(0, Cache.Key(d, num))) && Returning(g, Take(0, Cache.Key(d, num)))
    ensures g.h.bufs[0].data == data && num < |g.flat| && g.flat[num] == g.h.disk[num] == disk[num]
  {
    hide Hd.Inv, Sound, Unique, Stored, Settled, Reaches;
    var s0 := Boot(1, disk);
    BootStill(1, disk);
    var s1;
    es, s1 := Fetch(s0, [], s0, 0, Cache.Key(d, num));
    Then(s0, es, s1, Change(0, data));
    var s2 := Step(s1, Change(0, data));
    Then(s0, es + [Change(0, data)], s2, Give(0));
    es, g := es + [Change(0, data)] + [Give(0)], Step(s2, Give(0));
  }
}

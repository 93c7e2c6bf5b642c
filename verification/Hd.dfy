/** The request queue of the hard-disk driver (drv/hd.c) as a protocol: a request
    joins the queue and its holder waits, a completion interrupt serves the head of the queue,
    and the holder returns once its buffer is valid and not dirty. */
module Hd {
  import opened BufferRing

  /** The part of struct buf the driver uses. */
  datatype Request = Request(num: nat, busy: bool, valid: bool, dirty: bool, data: Sector)

  /** The command the disk is working on; a write carries its data. */
  datatype Command = Nothing | Read(sector: nat) | Write(sector: nat, data: Sector)

  /** A completed request: the buffer, its sector and what both then held. */
  datatype Served = Served(b: nat, num: nat, data: Sector)

  /** Driver, buffers and disk. The holder of a buffer is working, or waiting in hd_rw with the
      number of its request. `asked` and `done` log the requests as they are queued and
      completed. */
  datatype State = State(bufs: seq<Request>, waiting: seq<bool>, ticket: seq<nat>, queue: seq<nat>, cmd: Command,
                         disk: seq<Sector>, asked: seq<nat>, done: seq<Served>)

  /** The sector that the four address registers name: 28 bits of `num`. */
  function Lba(num: nat): nat {
    num % 0x100 + 0x100 * (num / 0x100 % 0x100) + 0x1_0000 * (num / 0x1_0000 % 0x100)
    + 0x100_0000 * (num / 0x100_0000 % 0x10)
  }

  /** The driver addresses the right sector exactly for 28-bit numbers. */
  lemma LbaExact(num: nat)
    ensures Lba(num) == num <==> num < 0x1000_0000
  {
    var a := num / 0x100;
    var b := a / 0x100;
    var c := b / 0x100;
    assert num / 0x1_0000 == b && num / 0x100_0000 == c;
    assert num == num % 0x100 + 0x100 * (a % 0x100) + 0x1_0000 * (b % 0x100) + 0x100_0000 * c;
  }

  /** hd_dorw: the command for a buffer. */
  function Issue(b: Request): Command {
    if b.dirty then Write(Lba(b.num), b.data) else Read(Lba(b.num))
  }

  /** What a completion does to the disk. */
  function Commit(cmd: Command, disk: seq<Sector>): seq<Sector> {
    match cmd
    case Write(s, d) => if s < |disk| then disk[s := d] else disk
    case _ => disk
  }

  /** What the data register delivers. */
  function Delivered(cmd: Command, disk: seq<Sector>, old_: Sector): Sector {
    match cmd
    case Read(s) => if s < |disk| then disk[s] else old_
    case _ => old_
  }

  /** hd_rw accepts the request. */
  predicate Accepts(r: Request) {
    r.busy && (!r.valid || r.dirty)
  }

  /** The wait loop of hd_rw lets its caller go. */
  predicate Finished(r: Request) {
    r.valid && !r.dirty
  }

  /** hd_rw up to its wait: the buffer joins the queue and starts the disk if it is alone. */
  function Enqueue(h: State, b: nat): State
    requires b < |h.bufs| == |h.waiting| == |h.ticket|
  {
    var q := h.queue + [b];
    h.(queue := q, cmd := if q[0] == b then Issue(h.bufs[b]) else h.cmd, asked := h.asked + [b],
       waiting := h.waiting[b := true], ticket := h.ticket[b := |h.asked|])
  }

  /** What hd_isr leaves in the buffer of the finished command. */
  function Answered(r: Request, cmd: Command, disk: seq<Sector>): Request {
    r.(data := if r.dirty then r.data else Delivered(cmd, disk, r.data), valid := true, dirty := false)
  }

  /** A completion interrupt: the disk finishes its command, then hd_isr runs. */
  function Interrupt(h: State): State
    requires forall i :: 0 <= i < |h.queue| ==> h.queue[i] < |h.bufs|
  {
    var disk := Commit(h.cmd, h.disk);
    if h.queue == [] then h.(disk := disk, cmd := Nothing)
    else
      var b, rest := h.queue[0], h.queue[1..];
      var r := Answered(h.bufs[b], h.cmd, disk);
      var bufs := h.bufs[b := r];
      h.(bufs := bufs, queue := rest, cmd := if rest == [] then Nothing else Issue(bufs[rest[0]]),
         disk := disk, done := h.done + [Served(b, r.num, r.data)])
  }

  /** The wait of hd_rw is over. */
  function Leave(h: State, b: nat): State
    requires b < |h.waiting|
  {
    h.(waiting := h.waiting[b := false])
  }

  /** The holder of a buffer changes it. */
  function Touch(h: State, b: nat, r: Request): State
    requires b < |h.bufs|
  {
    h.(bufs := h.bufs[b := r])
  }

  // ---- the invariant ------------------------------------------------------------------------

  /** Request `k` is still queued: its buffer is held and unfinished, and its holder waits for it. */
  ghost predicate Queued(h: State, k: nat)
    requires |h.bufs| == |h.waiting| == |h.ticket| && k < |h.asked|
  {
    var b := h.asked[k];
    b < |h.bufs| && Accepts(h.bufs[b]) && h.bufs[b].num < |h.disk| && h.waiting[b] && h.ticket[b] == k
  }

  /** The holder of `b` waits for a request of its own; once that is completed, the buffer is
      as the completion left it. */
  ghost predicate Waiter(h: State, b: nat)
    requires b < |h.bufs| == |h.ticket|
  {
    var n := h.ticket[b];
    && n < |h.asked| && h.asked[n] == b
    && (n < |h.done| ==> Finished(h.bufs[b]) && h.done[n] == Served(b, h.bufs[b].num, h.bufs[b].data))
  }

  /** Completion `i` is the last one for its sector. */
  ghost predicate Latest(done: seq<Served>, i: nat)
    requires i < |done|
  {
    forall j :: i < j < |done| ==> done[j].num != done[i].num
  }

  ghost predicate OnDisk(disk: seq<Sector>, s: Served) {
    s.num < |disk| && disk[s.num] == s.data
  }

  /** The invariant of the protocol: requests are completed in the order they were made, the queue
      is the rest of them, the disk works on its head, waiting holders wait for their own
      requests, and each sector holds what its last completed request left. */
  ghost predicate Inv(h: State) {
    && |h.disk| <= 0x1000_0000 && |h.bufs| == |h.waiting| == |h.ticket|
    && |h.done| <= |h.asked| && h.queue == h.asked[|h.done|..]
    && (forall i :: 0 <= i < |h.done| ==> h.done[i].b == h.asked[i])
    && (forall k :: |h.done| <= k < |h.asked| ==> Queued(h, k))
    && (forall b :: 0 <= b < |h.bufs| && h.waiting[b] ==> Waiter(h, b))
    && (h.queue == [] ==> h.cmd == Nothing)
    && (h.queue != [] ==> h.queue[0] < |h.bufs| && h.cmd == Issue(h.bufs[h.queue[0]]))
    && (forall i :: 0 <= i < |h.done| && Latest(h.done, i) ==> OnDisk(h.disk, h.done[i]))
  }

  /** A buffer is queued exactly while its holder waits and it is unfinished; and it is queued
      only once. */
  lemma QueuedIff(h: State, b: nat)
    requires Inv(h) && b < |h.bufs|
    ensures b in h.queue <==> h.waiting[b] && !Finished(h.bufs[b])
    ensures forall i :: 0 <= i < |h.queue| ==> h.queue[i] < |h.bufs|
    ensures forall i, j :: 0 <= i < j < |h.queue| ==> h.queue[i] != h.queue[j]
  {
    forall i | 0 <= i < |h.queue|
      ensures h.queue[i] < |h.bufs| && h.waiting[h.queue[i]] && !Finished(h.bufs[h.queue[i]])
              && h.ticket[h.queue[i]] == |h.done| + i
    {
      assert Queued(h, |h.done| + i);
    }
    if h.waiting[b] && !Finished(h.bufs[b]) {
      assert Waiter(h, b);
      assert h.queue[h.ticket[b] - |h.done|] == b;
    }
  }

  /** hd_rw returns only after its own request was completed. What the buffer then holds is what
      the completion saw, and it is on the disk unless a later request for the sector was
      completed meanwhile. */
  lemma LeaveServed(h: State, b: nat)
    requires Inv(h) && b < |h.bufs| && h.waiting[b] && Finished(h.bufs[b])
    ensures
      var n := h.ticket[b];
      && n < |h.done| && h.done[n] == Served(b, h.bufs[b].num, h.bufs[b].data)
      && (Latest(h.done, n) ==> OnDisk(h.disk, h.done[n]))
  {
    assert Waiter(h, b);
    assert h.ticket[b] >= |h.done| ==> Queued(h, h.ticket[b]);
  }

  lemma EnqueueInv(h: State, b: nat)
    requires Inv(h) && b < |h.bufs| && !h.waiting[b] && Accepts(h.bufs[b]) && h.bufs[b].num < |h.disk|
    ensures Inv(Enqueue(h, b))
  {
    hide Latest, OnDisk, Lba;
    var g := Enqueue(h, b);
    forall k | |g.done| <= k < |g.asked| ensures Queued(g, k) {
      if k < |h.asked| { assert Queued(h, k); }
    }
    forall c | 0 <= c < |g.bufs| && g.waiting[c] ensures Waiter(g, c) {
      if c != b { assert Waiter(h, c); }
    }
    assert g.queue == g.asked[|g.done|..];
  }

  lemma LeaveInv(h: State, b: nat)
    requires Inv(h) && b < |h.bufs| && h.waiting[b] && Finished(h.bufs[b])
    ensures Inv(Leave(h, b))
  {
    hide Latest, OnDisk, Lba;
    var g := Leave(h, b);
    forall k | |g.done| <= k < |g.asked| ensures Queued(g, k) {
      assert Queued(h, k);
    }
    forall c | 0 <= c < |g.bufs| && g.waiting[c] ensures Waiter(g, c) {
      assert Waiter(h, c);
    }
  }

  lemma TouchInv(h: State, b: nat, r: Request)
    requires Inv(h) && b < |h.bufs| && !h.waiting[b]
    ensures Inv(Touch(h, b, r))
  {
    hide Latest, OnDisk, Lba;
    var g := Touch(h, b, r);
    forall k | |g.done| <= k < |g.asked| ensures Queued(g, k) {
      assert Queued(h, k);
    }
    forall c | 0 <= c < |g.bufs| && g.waiting[c] ensures Waiter(g, c) {
      assert Waiter(h, c);
    }
    if h.queue != [] {
      assert Queued(h, |h.done|);
    }
  }

  /** What the interrupt does for the oldest request: a write puts the buffer's data on the
      disk, a read puts the sector in the buffer, and the buffer leaves valid and clean. */
  lemma Serves(h: State)
    requires Inv(h) && h.queue != []
    ensures
      var b := h.queue[0];
      && b < |h.bufs| && h.bufs[b].num < |h.disk|
      && var r := h.bufs[b];
      && Commit(h.cmd, h.disk) == (if r.dirty then h.disk[r.num := r.data] else h.disk)
      && Answered(r, h.cmd, Commit(h.cmd, h.disk))
         == r.(valid := true, dirty := false, data := if r.dirty then r.data else h.disk[r.num])
  {
    hide Latest, OnDisk, Waiter;
    assert Queued(h, |h.done|);
    LbaExact(h.bufs[h.queue[0]].num);
  }

  lemma InRange(h: State)
    requires Inv(h)
    ensures forall i :: 0 <= i < |h.queue| ==> h.queue[i] < |h.bufs|
    ensures |h.bufs| == |h.waiting| == |h.ticket|
  {
    forall i | 0 <= i < |h.queue| ensures h.queue[i] < |h.bufs| {
      assert Queued(h, |h.done| + i);
    }
  }

  /** A completion interrupt serves the oldest request. No other buffer, sector or place in the
      queue changes. */
  lemma InterruptServes(h: State)
    requires Inv(h)
    ensures forall i :: 0 <= i < |h.queue| ==> h.queue[i] < |h.bufs|
    ensures h.queue == [] ==> Interrupt(h) == h
    ensures h.queue != [] ==>
              var b := h.queue[0];
              && h.bufs[b].num < |h.disk|
              && var r, g := h.bufs[b], Interrupt(h);
              && g.queue == h.queue[1..] && g.done == h.done + [Served(b, r.num, g.bufs[b].data)]
              && g.disk == (if r.dirty then h.disk[r.num := r.data] else h.disk)
              && g.bufs == h.bufs[b := r.(valid := true, dirty := false,
                                          data := if r.dirty then r.data else h.disk[r.num])]
              && g.asked == h.asked && g.waiting == h.waiting && g.ticket == h.ticket
  {
    hide Latest, OnDisk, Waiter, Queued, Answered, Commit, Issue;
    InRange(h);
    if h.queue != [] {
      Serves(h);
    } else {
      NoCommand(h);
    }
  }

  lemma NoCommand(h: State)
    requires Inv(h) && h.queue == []
    ensures h.cmd == Nothing && Commit(h.cmd, h.disk) == h.disk
  {
  }

  lemma InterruptInv(h: State)
    requires Inv(h)
    ensures (forall i :: 0 <= i < |h.queue| ==> h.queue[i] < |h.bufs|) && Inv(Interrupt(h))
  {
    hide Latest, OnDisk, Answered, Commit, Lba;
    InterruptServes(h);
    if h.queue != [] {
      var b, g := h.queue[0], Interrupt(h);
      assert Queued(h, |h.done|);
      forall k | |g.done| <= k < |g.asked| ensures Queued(g, k) {
        assert Queued(h, k);
      }
      forall c | 0 <= c < |g.bufs| && g.waiting[c] ensures Waiter(g, c) {
        assert Waiter(h, c);
      }
      DiskLog(h.disk, h.done, g.disk, g.done);
    }
  }

  /** One more completion, with what it left on the disk. */
  lemma DiskLog(d0: seq<Sector>, done: seq<Served>, d1: seq<Sector>, more: seq<Served>)
    requires |more| == |done| + 1 && more[..|done|] == done && |d1| == |d0|
    requires forall i :: 0 <= i < |done| && Latest(done, i) ==> OnDisk(d0, done[i])
    requires
      var s := more[|done|];
      OnDisk(d1, s) && forall n :: 0 <= n < |d0| && n != s.num ==> d1[n] == d0[n]
    ensures forall i :: 0 <= i < |more| && Latest(more, i) ==> OnDisk(d1, more[i])
  {
    forall i | 0 <= i < |more| && Latest(more, i) ensures OnDisk(d1, more[i]) {
      if i < |done| {
        assert more[i] == done[i] && more[|done|].num != more[i].num;
        forall j | i < j < |done| ensures done[j].num != done[i].num {
          assert more[j] == done[j];
        }
        assert Latest(done, i);
      }
    }
  }

  // ---- runs ---------------------------------------------------------------------------------

  datatype Event = Ask(b: nat) | Completion | Resume(b: nat) | Change(b: nat, r: Request)

  /** The protocol's rules: the holder of a buffer asks for it or changes it while it is working,
      and leaves hd_rw exactly when the buffer is valid and not dirty. */
  predicate Allowed(h: State, e: Event) {
    match e
    case Completion => true
    case Ask(b) =>
      b < |h.bufs| && b < |h.waiting| && !h.waiting[b] && Accepts(h.bufs[b]) && h.bufs[b].num < |h.disk|
    case Resume(b) => b < |h.bufs| && b < |h.waiting| && h.waiting[b] && Finished(h.bufs[b])
    case Change(b, _) => b < |h.bufs| && b < |h.waiting| && !h.waiting[b]
  }

  ghost function Step(h: State, e: Event): (g: State)
    requires Inv(h) && Allowed(h, e)
    ensures Inv(g)
  {
    match e
    case Ask(b) => EnqueueInv(h, b); Enqueue(h, b)
    case Completion => InterruptInv(h); Interrupt(h)
    case Resume(b) => LeaveInv(h, b); Leave(h, b)
    case Change(b, r) => TouchInv(h, b, r); Touch(h, b, r)
  }

  ghost predicate Reaches(h: State, es: seq<Event>, g: State)
    requires Inv(h)
    decreases |es|
  {
    if es == [] then g == h
    else Allowed(h, es[0]) && Reaches(Step(h, es[0]), es[1..], g)
  }

  function Completions(es: seq<Event>): nat {
    if es == [] then 0 else (if es[0].Completion? then 1 else 0) + Completions(es[1..])
  }

  /** The request at position `k` of the queue is completed by exactly the (k+1)-th completion
      interrupt from now, whatever else happens meanwhile. */
  lemma {:induction false} FinishesInTurn(h: State, es: seq<Event>, g: State, k: nat)
    requires Inv(h) && Reaches(h, es, g) && k < |h.queue|
    ensures Inv(g) && h.done <= g.done
    ensures if Completions(es) <= k then |g.done| == |h.done| + Completions(es)
            else |g.done| > |h.done| + k && g.done[|h.done| + k].b == h.queue[k]
    decreases |es|
  {
    hide Inv, Lba, Interrupt;
    if es != [] {
      var m := Step(h, es[0]);
      if es[0].Completion? {
        InterruptServes(h);
        if k > 0 {
          FinishesInTurn(m, es[1..], g, k - 1);
        } else {
          LogGrows(m, es[1..], g);
          assert m.done[|h.done|].b == h.queue[0];
        }
      } else {
        FinishesInTurn(m, es[1..], g, k);
      }
    }
  }

  /** Completions are never taken back. */
  lemma {:induction false} LogGrows(h: State, es: seq<Event>, g: State)
    requires Inv(h) && Reaches(h, es, g)
    ensures Inv(g) && h.done <= g.done
    decreases |es|
  {
    hide Inv, Lba, Interrupt;
    if es != [] {
      if es[0].Completion? { InterruptServes(h); }
      LogGrows(Step(h, es[0]), es[1..], g);
    }
  }

  /** What a waiting holder's buffer can become: it stays as it is, or it is served once. */
  predicate Waited(r: Request, q: Request) {
    q == r || (!Finished(r) && Finished(q) && q.num == r.num && (r.dirty ==> q.data == r.data))
  }

  lemma WaitStep(h: State, e: Event, b: nat)
    requires Inv(h) && Allowed(h, e) && b < |h.bufs| && b < |h.waiting| && b < |h.ticket| && h.waiting[b]
    requires e != Resume(b)
    ensures
      var g := Step(h, e);
      && b < |g.bufs| && b < |g.waiting| && b < |g.ticket| && g.waiting[b]
      && g.ticket[b] == h.ticket[b] && Waited(h.bufs[b], g.bufs[b])
  {
    hide Inv, Lba, Interrupt;
    InRange(h);
    if e.Completion? {
      InterruptServes(h);
      QueuedIff(h, b);
    }
  }

  lemma {:induction false} WaitRun(h: State, es: seq<Event>, g: State, b: nat)
    requires Inv(h) && Reaches(h, es, g) && b < |h.bufs| && b < |h.waiting| && b < |h.ticket| && h.waiting[b]
    requires Resume(b) !in es
    ensures Inv(g) && b < |g.bufs| && b < |g.waiting| && b < |g.ticket| && g.waiting[b]
    ensures g.ticket[b] == h.ticket[b] && Waited(h.bufs[b], g.bufs[b])
    decreases |es|
  {
    hide Inv, Step;
    if es != [] {
      WaitStep(h, es[0], b);
      WaitRun(Step(h, es[0]), es[1..], g, b);
    }
  }

  /** A whole call of hd_rw: from the request in state `h` to the return in state `g`. Exactly the
      request it made was completed, a write with the data handed in, and the sector and the
      buffer agree unless a later request for the sector was completed meanwhile. */
  lemma Returns(h: State, b: nat, es: seq<Event>, g: State)
    requires Inv(h) && Allowed(h, Ask(b)) && Reaches(Step(h, Ask(b)), es, g) && Resume(b) !in es
    requires Allowed(g, Resume(b))
    ensures
      var n, r, q := |h.asked|, h.bufs[b], g.bufs[b];
      && n < |g.done| && g.done[n] == Served(b, r.num, q.data) && q.num == r.num && (r.dirty ==> q.data == r.data)
      && (Latest(g.done, n) ==> r.num < |g.disk| && g.disk[r.num] == q.data)
  {
    hide Inv, Lba, Interrupt;
    InRange(h);
    WaitRun(Step(h, Ask(b)), es, g, b);
    LeaveServed(g, b);
  }

  // ---- the driver ------------------------------------------------------------------------------

  const NULL := -1

  /** The buffer at position `i` of the queue, NULL behind its end. */
  ghost function At(queue: seq<nat>, i: nat): int {
    if i < |queue| then queue[i] else NULL
  }

  /** The hdnext links run through the queue. */
  ghost predicate Chain(hdqueue: int, hdnext: seq<int>, queue: seq<nat>) {
    && hdqueue == At(queue, 0)
    && (forall i :: 0 <= i < |queue| ==> ChainAt(hdnext, queue, i))
  }

  ghost predicate ChainAt(hdnext: seq<int>, queue: seq<nat>, i: nat)
    requires i < |queue|
  {
    queue[i] < |hdnext| && hdnext[queue[i]] == At(queue, i + 1)
  }

  class HdDriver {
    var bufs: seq<Request>
    var hdnext: seq<int>         // link of each buffer
    var hdqueue: int             // first queued buffer, or NULL
    var cmd: Command
    var disk: seq<Sector>
    ghost var waiting: seq<bool>
    ghost var ticket: seq<nat>
    ghost var queue: seq<nat>
    ghost var asked: seq<nat>
    ghost var done: seq<Served>

    ghost function View(): State
      reads this
    {
      State(bufs, waiting, ticket, queue, cmd, disk, asked, done)
    }

    ghost predicate Valid()
      reads this
    {
      Inv(View()) && |hdnext| == |bufs| && Chain(hdqueue, hdnext, queue)
    }

    constructor (bufs: seq<Request>, disk: seq<Sector>)
      requires |disk| <= 0x1000_0000
      ensures Valid() && this.bufs == bufs && this.disk == disk && queue == [] && asked == [] && done == []
      ensures waiting == seq(|bufs|, _ => false)
    {
      this.bufs, this.disk, cmd := bufs, disk, Nothing;
      hdnext, hdqueue := seq(|bufs|, _ => NULL), NULL;
      waiting, ticket := seq(|bufs|, _ => false), seq(|bufs|, _ => 0);
      queue, asked, done := [], [], [];
    }

    /** hd_rw up to its wait; false on a panic. */
    method HdRw(b: nat) returns (ok: bool)
      requires Valid() && b < |bufs| && b < |waiting| && !waiting[b] && bufs[b].num < |disk|
      modifies this
      ensures Valid() && ok == Accepts(old(bufs)[b]) && |waiting| == |ticket| == |bufs| == |old(bufs)|
      ensures ok <==> old(bufs)[b].busy && (!old(bufs)[b].valid || old(bufs)[b].dirty)
      ensures if ok then b < |old(waiting)| == |old(ticket)| == |old(bufs)| && View() == Enqueue(old(View()), b)
              else View() == old(View())
    {
      hide Inv, Lba, Chain, Enqueue;
      InRange(View());
      if !bufs[b].busy || (bufs[b].valid && !bufs[b].dirty) {
        return false;
      }
      ghost var h := View();
      EnqueueInv(h, b);
      QueuedIff(h, b);
      ChainOther(hdqueue, hdnext, queue, b);
      hdnext := hdnext[b := NULL];
      ChainStart(hdqueue, hdnext, queue);
      var loc, val := NULL, hdqueue;
      ghost var i := 0;
      label Linked:
      while val != NULL
        invariant unchanged@Linked(this)
        invariant 0 <= i <= |queue| && val == At(queue, i) && loc == (if i == 0 then NULL else queue[i - 1])
        invariant |hdnext| == |bufs| && Chain(hdqueue, hdnext, queue) && hdnext[b] == NULL
        decreases |queue| - i
      {
        ChainNext(hdqueue, hdnext, queue, i);
        loc, val := val, hdnext[val];
        i := i + 1;
      }
      ghost var n0 := hdnext;
      if loc == NULL {
        hdqueue := b;
      } else {
        hdnext := hdnext[loc := b];
      }
      ChainAppend(old(hdqueue), n0, hdqueue, hdnext, queue, b);
      if hdqueue == b {
        cmd := Issue(bufs[b]);
      }
      waiting, ticket := waiting[b := true], ticket[b := |asked|];
      queue, asked := queue + [b], asked + [b];
      Enqueued(h, b, cmd);
      return true;
    }

    /** One test of the wait loop of hd_rw: the caller goes on sleeping, or returns with its own
        request completed. */
    method HdWait(b: nat) returns (over: bool)
      requires Valid() && b < |bufs| && b < |waiting| && waiting[b]
      modifies this`waiting
      ensures Valid() && over == Finished(bufs[b]) && |ticket| == |bufs|
      ensures over <==> bufs[b].valid && !bufs[b].dirty
      ensures View() == if over then Leave(old(View()), b) else old(View())
      ensures over ==>
                var n := ticket[b];
                && n < |done| && done[n] == Served(b, bufs[b].num, bufs[b].data)
                && (Latest(done, n) ==> OnDisk(disk, done[n]))
      ensures !over ==> b in queue
    {
      hide Inv, Chain, Latest, OnDisk;
      ghost var h := View();
      InRange(h);
      QueuedIff(h, b);
      if bufs[b].valid && !bufs[b].dirty {
        LeaveInv(h, b);
        LeaveServed(h, b);
        waiting := waiting[b := false];
        return true;
      }
      return false;
    }

    /** The holder of a buffer that is not waiting changes it, or its buffer gets another holder. */
    method SetBuf(b: nat, r: Request)
      requires Valid() && b < |bufs| && b < |waiting| && !waiting[b]
      modifies this`bufs
      ensures Valid() && View() == Touch(old(View()), b, r)
    {
      hide Inv, Chain;
      TouchInv(View(), b, r);
      bufs := bufs[b := r];
    }

    /** The disk finishes its command and raises the interrupt that hd_isr handles. */
    method HdInterrupt()
      requires Valid()
      modifies this
      ensures (forall i :: 0 <= i < |old(queue)| ==> old(queue)[i] < |old(bufs)|) && Valid()
      ensures View() == Interrupt(old(View()))
    {
      hide Inv, Lba, Chain, Interrupt, Commit, Delivered, Issue;
      ghost var h := View();
      InterruptInv(h);
      ChainStart(hdqueue, hdnext, queue);
      disk := Commit(cmd, disk);
      var bp := hdqueue;
      if bp == NULL {
        cmd := Nothing;
        Idled(h);
        return;
      }
      ChainTail(hdqueue, hdnext, queue);
      hdqueue := hdnext[bp];
      ChainStart(hdqueue, hdnext, queue[1..]);
      var r := bufs[bp];
      if !r.dirty {
        r := r.(data := Delivered(cmd, disk, r.data));
      }
      r := r.(valid := true);
      r := r.(dirty := false);
      bufs := bufs[bp := r];
      Interrupted(h, bufs);
      cmd := Nothing;
      if hdqueue != NULL {
        cmd := Issue(bufs[hdqueue]);
      }
      done := done + [Served(bp, bufs[bp].num, bufs[bp].data)];
      queue := queue[1..];
    }
  }

  lemma Enqueued(h: State, b: nat, cmd: Command)
    requires b < |h.bufs| == |h.waiting| == |h.ticket|
    requires cmd == if (h.queue + [b])[0] == b then Issue(h.bufs[b]) else h.cmd
    ensures Enqueue(h, b) == State(h.bufs, h.waiting[b := true], h.ticket[b := |h.asked|], h.queue + [b], cmd, h.disk,
                                   h.asked + [b], h.done)
  {
  }

  lemma Idled(h: State)
    requires h.queue == []
    ensures Interrupt(h) == h.(disk := Commit(h.cmd, h.disk), cmd := Nothing)
  {
  }

  /** The stores of hd_isr to the buffer of the finished command. */
  lemma Interrupted(h: State, bufs: seq<Request>)
    requires h.queue != [] && forall i :: 0 <= i < |h.queue| ==> h.queue[i] < |h.bufs|
    requires
      var b := h.queue[0];
      var r := h.bufs[b];
      var d := if r.dirty then r.data else Delivered(h.cmd, Commit(h.cmd, h.disk), r.data);
      bufs == h.bufs[b := r.(data := d, valid := true, dirty := false)]
    ensures
      var b, rest := h.queue[0], h.queue[1..];
      Interrupt(h) == State(bufs, h.waiting, h.ticket, rest, if rest == [] then Nothing else Issue(bufs[rest[0]]),
                            Commit(h.cmd, h.disk), h.asked, h.done + [Served(b, bufs[b].num, bufs[b].data)])
  {
  }

  lemma ChainStart(hd: int, n: seq<int>, queue: seq<nat>)
    requires Chain(hd, n, queue)
    ensures hd == At(queue, 0)
  {
  }

  lemma ChainNext(hd: int, n: seq<int>, queue: seq<nat>, i: nat)
    requires Chain(hd, n, queue) && i < |queue|
    ensures queue[i] < |n| && n[queue[i]] == At(queue, i + 1)
  {
    assert ChainAt(n, queue, i);
  }

  lemma ChainOther(hd: int, n: seq<int>, queue: seq<nat>, b: nat)
    requires Chain(hd, n, queue) && b < |n| && b !in queue
    ensures Chain(hd, n[b := NULL], queue)
  {
    var m := n[b := NULL];
    forall i | 0 <= i < |queue| ensures ChainAt(m, queue, i) {
      assert ChainAt(n, queue, i);
    }
  }

  lemma ChainAppend(hd0: int, n0: seq<int>, hd1: int, n1: seq<int>, queue: seq<nat>, b: nat)
    requires Chain(hd0, n0, queue) && b < |n0| && n0[b] == NULL && b !in queue
    requires forall i, j :: 0 <= i < j < |queue| ==> queue[i] != queue[j]
    requires if queue == [] then hd1 == b && n1 == n0
             else hd1 == hd0 && queue[|queue| - 1] < |n0| && n1 == n0[queue[|queue| - 1] := b]
    ensures Chain(hd1, n1, queue + [b])
  {
    var q := queue + [b];
    forall i | 0 <= i < |q| ensures ChainAt(n1, q, i) {
      if i < |queue| { assert ChainAt(n0, queue, i); }
    }
  }

  lemma ChainTail(hd: int, n: seq<int>, queue: seq<nat>)
    requires Chain(hd, n, queue) && queue != []
    ensures queue[0] < |n| && Chain(n[queue[0]], n, queue[1..])
  {
    assert ChainAt(n, queue, 0);
    forall i | 0 <= i < |queue[1..]| ensures ChainAt(n, queue[1..], i) {
      assert ChainAt(n, queue, i + 1);
    }
  }
}

/** The ring of disk buffers (fs/buffer.c): a circular doubly linked list through a head
    node, and what unlinking a buffer and linking it at the front do to it. */
module BufferRing {
  import opened Bytes

  const NBUF := 16
  const HEAD := NBUF           // index of bhead
  const NO_DEV := 0xFFFF       // -1 in the 16-bit dev field

  type Sector = s: seq<Byte> | |s| == 512 witness seq(512, _ => 0)

  /** struct buf; links are indices into the buffer table. */
  datatype Buf = Buf(dev: nat, num: nat, busy: bool, valid: bool, dirty: bool, prev: nat, next: nat, data: Sector)

  type Table = t: seq<Buf> | |t| == 17 witness seq(17, _ => Buf(0, 0, false, false, false, 0, 0, seq(512, _ => 0)))

  /** The node at position `i` of the ring; the head on both sides. */
  function Node(ring: seq<nat>, i: int): nat {
    if 0 <= i < |ring| then ring[i] else HEAD
  }

  ghost predicate Joint(t: Table, ring: seq<nat>, i: int) {
    && Node(ring, i - 1) < |t| && Node(ring, i) < |t|
    && t[Node(ring, i - 1)].next == Node(ring, i) && t[Node(ring, i)].prev == Node(ring, i - 1)
  }

  ghost predicate Distinct(ring: seq<nat>) {
    && (forall i :: 0 <= i < |ring| ==> ring[i] < NBUF)
    && (forall i, j :: 0 <= i < j < |ring| ==> ring[i] != ring[j])
  }

  /** Both directions of links run through `ring`. */
  ghost predicate Ring(t: Table, ring: seq<nat>) {
    && Distinct(ring)
    && (forall i :: 0 <= i <= |ring| ==> Joint(t, ring, i))
  }

  /** A buffer without its links. */
  function Fields(b: Buf): Buf {
    b.(prev := 0, next := 0)
  }

  /** Two tables that differ in links alone. */
  ghost predicate SameFields(t: Table, u: Table) {
    forall i :: 0 <= i < 17 ==> Fields(u[i]) == Fields(t[i])
  }

  function SetPrev(t: Table, b: nat, p: nat): (u: Table)
    requires b < |t|
    ensures SameFields(t, u)
  {
    t[b := t[b].(prev := p)]
  }

  function SetNext(t: Table, b: nat, n: nat): (u: Table)
    requires b < |t|
    ensures SameFields(t, u)
  {
    t[b := t[b].(next := n)]
  }

  function Without(ring: seq<nat>, k: nat): seq<nat>
    requires k < |ring|
  {
    ring[..k] + ring[k + 1..]
  }

  /** brelse takes the buffer out: its two neighbours are linked to each other. */
  function Unlinked(t: Table, b: nat): (u: Table)
    requires b < |t| && t[b].next < |t| && t[b].prev < |t|
    ensures SameFields(t, u)
    ensures forall x :: 0 <= x < 17 ==> u[x].next == if x == t[b].prev then t[b].next else t[x].next
    ensures forall x :: 0 <= x < 17 ==> u[x].prev == if x == t[b].next then t[b].prev else t[x].prev
  {
    SetNext(SetPrev(t, t[b].next, t[b].prev), t[b].prev, t[b].next)
  }

  /** The buffer is linked between the head and the first buffer. */
  function Pushed(t: Table, b: nat): (u: Table)
    requires b < |t| && t[HEAD].next < |t|
    ensures SameFields(t, u)
  {
    var t1 := SetPrev(SetNext(t, b, t[HEAD].next), b, HEAD);
    SetNext(SetPrev(t1, t[HEAD].next, b), HEAD, b)
  }

  lemma UnlinkRing(t: Table, ring: seq<nat>, k: nat)
    requires Ring(t, ring) && k < |ring|
    ensures t[ring[k]].next < |t| && t[ring[k]].prev < |t|
    ensures Ring(Unlinked(t, ring[k]), Without(ring, k))
  {
    hide Unlinked, Distinct, SameFields;
    var r, b := Without(ring, k), ring[k];
    StillDistinct(ring, k);
    assert Joint(t, ring, k) && Joint(t, ring, k + 1);
    forall i | 0 <= i <= |r| ensures Joint(Unlinked(t, b), r, i) {
      var j := if i <= k then i else i + 1;
      assert Joint(t, ring, j);
      OtherNodes(ring, k, i);
    }
  }

  lemma StillDistinct(ring: seq<nat>, k: nat)
    requires Distinct(ring) && k < |ring|
    ensures Distinct(Without(ring, k)) && ring[k] < NBUF
  {
  }

  /** The nodes of the shortened ring, and that no two neighbours meet twice. */
  lemma OtherNodes(ring: seq<nat>, k: nat, i: nat)
    requires Distinct(ring) && k < |ring| && i <= |ring| - 1
    ensures
      var r, j := Without(ring, k), if i <= k then i else i + 1;
      && Node(r, i) == (if i < k then Node(ring, i) else Node(ring, i + 1))
      && Node(r, i - 1) == (if i <= k then Node(ring, i - 1) else Node(ring, i))
      && (i != k ==> Node(r, i) != Node(ring, k + 1) && Node(r, i - 1) != Node(ring, k - 1))
  {
  }

  lemma PushRing(t: Table, ring: seq<nat>, b: nat)
    requires Ring(t, ring) && b < NBUF && b !in ring
    ensures t[HEAD].next < |t| && Ring(Pushed(t, b), [b] + ring)
  {
    var r := [b] + ring;
    assert Joint(t, ring, 0);
    var u := Pushed(t, b);
    forall i | 0 <= i <= |r| ensures Joint(u, r, i) {
      if i > 0 { assert Joint(t, ring, i - 1); }
      assert i >= 2 ==> Node(r, i - 1) == Node(ring, i - 2) && Node(r, i) == Node(ring, i - 1);
    }
  }
}

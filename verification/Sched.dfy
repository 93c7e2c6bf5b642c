/** Round-robin scheduling (kern/sched.c) with the task-state changes of kern/task.c. A
    decision ends at the context switch. */
module Sched {

  datatype TaskState = Unused | Running | Runnable | Stopped | Zombie

  datatype Task = Task(state: TaskState, priority: int, chan: nat, next: int)

  // ---- the choice ---------------------------------------------------------------------------

  /** Steps from position `c` forward to position `x` in a ring of `n`. */
  function Distance(n: nat, c: nat, x: nat): (k: nat)
    requires c < n && x < n
    ensures k < n && (k == 0 <==> c == x) && (c + k == x || c + k == x + n)
  {
    if c <= x then x - c else x + n - c
  }

  /** The first runnable position at or after `i` and below `n`; `n` when there is none. */
  function FirstRunnable(ready: seq<bool>, i: nat, n: nat): (k: nat)
    requires i <= n <= |ready|
    ensures i <= k <= n && (k < n ==> ready[k]) && forall j :: i <= j < k ==> !ready[j]
    decreases n - i
  {
    if i == n || ready[i] then i else FirstRunnable(ready, i + 1, n)
  }

  /** The position sched_yield switches to from position `c`: the next runnable task up to the
      end of the list, else the first before `c`, else `c` itself. */
  function Choice(ready: seq<bool>, c: nat): (k: nat)
    requires c < |ready|
    ensures k < |ready| && (ready[k] || k == c)
  {
    var after := FirstRunnable(ready, c + 1, |ready|);
    if after < |ready| then after else FirstRunnable(ready, 0, c)
  }

  /** Every decision goes to the runnable task that is nearest in list order, and comes back to
      the current one only if no other task is runnable. */
  lemma ChoiceNearest(ready: seq<bool>, c: nat, x: nat)
    requires c < |ready| && x < |ready| && x != c && ready[x]
    ensures Choice(ready, c) != c
    ensures Distance(|ready|, c, Choice(ready, c)) <= Distance(|ready|, c, x)
  {
  }

  /** A run of decisions: position `at[i + 1]` is chosen from `at[i]` with the tasks then
      runnable. The list does not change. */
  ghost predicate Decisions(at: seq<nat>, ready: seq<seq<bool>>, n: nat) {
    && |at| == |ready| + 1
    && (forall i :: 0 <= i < |at| ==> at[i] < n)
    && (forall i :: 0 <= i < |ready| ==> |ready[i]| == n)
    && (forall i :: 0 <= i < |ready| ==> Decided(at, ready, i))
  }

  ghost predicate Decided(at: seq<nat>, ready: seq<seq<bool>>, i: nat)
    requires i < |ready| && |at| == |ready| + 1
  {
    at[i] < |ready[i]| && at[i + 1] == Choice(ready[i], at[i])
  }

  /** A task that stays runnable is reached within as many decisions as it is places away. */
  lemma {:induction false} ReachedInTurn(at: seq<nat>, ready: seq<seq<bool>>, n: nat, x: nat)
    requires Decisions(at, ready, n) && x < n && x != at[0]
    requires forall i :: 0 <= i < |ready| ==> ready[i][x]
    requires |ready| >= Distance(n, at[0], x)
    ensures exists k :: 1 <= k <= Distance(n, at[0], x) && at[k] == x
    decreases |ready|
  {
    assert Decided(at, ready, 0);
    ChoiceNearest(ready[0], at[0], x);
    if at[1] == x {
      assert 1 <= 1 <= Distance(n, at[0], x) && at[1] == x;
    } else {
      var rest, later := at[1..], ready[1..];
      forall i | 0 <= i < |later| ensures Decided(rest, later, i) {
        assert Decided(at, ready, i + 1);
      }
      assert Distance(n, rest[0], x) < Distance(n, at[0], x);
      ReachedInTurn(rest, later, n, x);
      var k :| 1 <= k <= Distance(n, rest[0], x) && rest[k] == x;
      assert at[k + 1] == x;
    }
  }

  /** Bounded waiting: of `n` tasks, one that stays runnable runs within `n - 1` decisions. */
  lemma BoundedWaiting(at: seq<nat>, ready: seq<seq<bool>>, n: nat, x: nat)
    requires Decisions(at, ready, n) && x < n && x != at[0]
    requires forall i :: 0 <= i < |ready| ==> ready[i][x]
    requires |ready| == n - 1
    ensures exists k :: 1 <= k <= n - 1 && at[k] == x
  {
    ReachedInTurn(at, ready, n, x);
  }

  // ---- the scheduler ---------------------------------------------------------------------------

  const NULL := -1

  ghost function At(list: seq<nat>, i: int): int {
    if 0 <= i < |list| then list[i] else NULL
  }

  ghost predicate LinkAt(tasks: seq<Task>, list: seq<nat>, i: nat)
    requires i < |list|
  {
    list[i] < |tasks| && tasks[list[i]].next == At(list, i + 1)
  }

  /** The task list runs through `list` and ends. */
  ghost predicate Listed(tasks: seq<Task>, rootp: int, list: seq<nat>) {
    && rootp == At(list, 0) && (forall i :: 0 <= i < |list| ==> list[i] < |tasks|)
    && (forall i :: 0 <= i < |list| ==> LinkAt(tasks, list, i))
    && (forall i, j :: 0 <= i < j < |list| ==> list[i] != list[j])
  }

  function Ready(tasks: seq<Task>, list: seq<nat>): (r: seq<bool>)
    requires forall i :: 0 <= i < |list| ==> list[i] < |tasks|
    ensures |r| == |list|
  {
    seq(|list|, i requires 0 <= i < |list| => tasks[list[i]].state == Runnable)
  }

  /** task_run up to the context switch. */
  function Switched(tasks: seq<Task>, current: int, tp: nat): (r: seq<Task>)
    requires tp < |tasks| && current < |tasks|
    ensures |r| == |tasks|
  {
    if tp == current then tasks
    else
      var t := if 0 <= current && tasks[current].state == Running
               then tasks[current := tasks[current].(state := Runnable)] else tasks;
      t[tp := t[tp].(state := Running, priority := t[tp].priority - 1)]
  }

  class Scheduler {
    var tasks: seq<Task>
    var rootp: int
    var current: int
    ghost var list: seq<nat>
    ghost var at: seq<nat>             // list position of the current task after each decision
    ghost var ready: seq<seq<bool>>    // what was runnable at each decision

    /** The list is well formed and holds the current task; only the current task runs; and the
        logs are those of a run of decisions that ends with the current task. */
    ghost predicate Valid()
      reads this
    {
      Shape() && Logged(at, ready, list, current)
    }

    ghost predicate Shape()
      reads this
    {
      && Listed(tasks, rootp, list)
      && (current == NULL || (current in list && 0 <= current < |tasks|))
      && (forall t :: 0 <= t < |tasks| && tasks[t].state == Running ==> t == current)
    }

    constructor (tasks: seq<Task>, rootp: int, ghost list: seq<nat>)
      requires Listed(tasks, rootp, list) && forall t :: 0 <= t < |tasks| ==> tasks[t].state != Running
      ensures Valid() && this.tasks == tasks && this.rootp == rootp && this.list == list && current == NULL
    {
      this.tasks, this.rootp, this.list, current := tasks, rootp, list, NULL;
      at, ready := [], [];
    }

    ghost function Where(c: int): (k: nat)
      reads this
      requires c in list
      ensures k < |list| && list[k] == c
    {
      var k :| 0 <= k < |list| && list[k] == c;
      k
    }

    /** Context switch to `tp`, up to the switch itself. */
    method TaskRun(tp: nat)
      requires Shape() && tp in list && current != NULL
      modifies this`tasks, this`current
      ensures Shape() && current == tp && tasks == Switched(old(tasks), old(current), tp)
      ensures tp == old(current) ==> tasks == old(tasks)
      ensures tp != old(current) ==>
                forall t :: 0 <= t < |tasks| ==>
                  tasks[t] ==
                    if t == tp then old(tasks)[t].(state := Running, priority := old(tasks)[t].priority - 1)
                    else if t == old(current) && old(tasks)[t].state == Running then
                      old(tasks)[t].(state := Runnable)
                    else old(tasks)[t]
    {
      ghost var k := Where(tp);
      assert LinkAt(tasks, list, k) && LinkAt(tasks, list, Where(current));
      ghost var t0 := tasks;
      if tp != current {
        if tasks[current].state == Running {
          tasks := tasks[current := tasks[current].(state := Runnable)];
        }
        current := tp;
        tasks := tasks[current := tasks[current].(state := Running)];
        tasks := tasks[current := tasks[current].(priority := tasks[current].priority - 1)];
      }
      SameLinks(t0, tasks, rootp, list);
    }

    /** A loop of sched_yield: from position `i` up to the node `stop` at position `n`. */
    method Scan(start: int, stop: int, ghost i: nat, ghost n: nat) returns (tp: int)
      requires Shape() && i <= n <= |list| && start == At(list, i) && stop == At(list, n)
      ensures tp == At(list, FirstRunnable(Ready(tasks, list), i, n))
    {
      tp := start;
      ghost var j := i;
      while tp != stop
        invariant i <= j <= n && tp == At(list, j)
        invariant FirstRunnable(Ready(tasks, list), i, n) == FirstRunnable(Ready(tasks, list), j, n)
        decreases n - j
      {
        if tasks[tp].state == Runnable {
          return;
        }
        assert LinkAt(tasks, list, j);
        tp := tasks[tp].next;
        j := j + 1;
      }
      Ends(list, j, n);
    }

    /** The two loops of sched_yield. */
    method Pick(ghost k: nat) returns (tp: nat)
      requires Shape() && k < |list| && list[k] == current
      ensures tp == list[Choice(Ready(tasks, list), k)] && tp in list
    {
      hide Choice;
      assert LinkAt(tasks, list, k);
      Chooses(Ready(tasks, list), list, k);
      var next := Scan(tasks[current].next, NULL, k + 1, |list|);
      if next == NULL {
        next := Scan(rootp, current, 0, k);
      }
      tp := next;
    }

    /** The choice and the switch: to the RUNNABLE task nearest in list order, or none. */
    method Decide()
      requires Valid() && current != NULL
      modifies this`tasks, this`current, this`at, this`ready
      ensures Valid() && |at| == |ready| + 1 >= 2 && old(at) <= at && ready == old(ready) + [Ready(old(tasks), list)]
      ensures
        var c := old(current);
        && 0 <= c < |old(tasks)| && 0 <= current < |tasks| && tasks == Switched(old(tasks), c, current)
        && Chosen(old(tasks), list, c, current)
        && (old(tasks)[current].state == Runnable || current == c)
        && (current == c <==> forall t :: t in list && t != c ==> old(tasks)[t].state != Runnable)
        && var i, j := at[|at| - 2], at[|at| - 1];
        && i < |list| && j < |list| && list[i] == c && list[j] == current
        && (forall x :: 0 <= x < |list| && x != i && old(tasks)[list[x]].state == Runnable ==>
              Distance(|list|, i, j) <= Distance(|list|, i, x))
        && (current == c ==> tasks == old(tasks))
        && (current != c ==>
              forall t :: 0 <= t < |tasks| ==>
                tasks[t] ==
                  if t == current then
                    old(tasks)[t].(state := Running, priority := old(tasks)[t].priority - 1)
                  else if t == c && old(tasks)[t].state == Running then old(tasks)[t].(state := Runnable)
                  else old(tasks)[t])
    {
      hide Logged, Choice, Switched, Ready, Distance;
      Current(at, ready, list, current);
      ghost var c, now, k := current, Ready(tasks, list), at[|at| - 1];
      Nearest(tasks, list, k);
      var tp := Pick(k);
      TaskRun(tp);
      Logs(at, ready, list, c, now, Choice(now, k));
      at, ready := at + [Choice(now, k)], ready + [now];
    }

    /** Without a current task the first of the list becomes current. */
    method Start()
      requires Valid() && list != []
      modifies this`current, this`at
      ensures Valid() && current == (if old(current) == NULL then rootp else old(current)) && current != NULL
      ensures old(at) <= at && |at| == |ready| + 1
    {
      hide Logged;
      Current(at, ready, list, current);
      if current == NULL {
        current := rootp;
        at := [0];
      }
    }

    /** One scheduling decision, up to the switch; false on a panic. */
    method SchedYield() returns (ok: bool)
      requires Valid()
      modifies this`tasks, this`current, this`at, this`ready
      ensures Valid() && ok == (list != [])
      ensures !ok ==> tasks == old(tasks) && at == old(at) && ready == old(ready)
      ensures ok ==>
                var c := if old(current) == NULL then rootp else old(current);
                && 0 <= c < |old(tasks)| && 0 <= current < |tasks| && tasks == Switched(old(tasks), c, current)
                && Chosen(old(tasks), list, c, current)
                && ready == old(ready) + [Ready(old(tasks), list)] && |at| == |ready| + 1 && old(at) <= at
                && (old(tasks)[current].state == Runnable || current == c)
                && (current == c <==> forall t :: t in list && t != c ==> old(tasks)[t].state != Runnable)
                && var i, j := at[|at| - 2], at[|at| - 1];
                && i < |list| && j < |list| && list[i] == c && list[j] == current
                && (forall x :: 0 <= x < |list| && x != i && old(tasks)[list[x]].state == Runnable ==>
                      Distance(|list|, i, j) <= Distance(|list|, i, x))
                && (current == c ==> tasks == old(tasks))
                && (current != c ==>
                      forall t :: 0 <= t < |tasks| ==>
                        tasks[t] ==
                          if t == current then
                            old(tasks)[t].(state := Running, priority := old(tasks)[t].priority - 1)
                          else if t == c && old(tasks)[t].state == Running then old(tasks)[t].(state := Runnable)
                          else old(tasks)[t])
    {
      hide Logged, Choice, Switched, Ready, Distance, Chosen;
      if rootp == NULL {
        return false;
      }
      Start();
      Decide();
      return true;
    }

    /** The current task gives up the processor but stays runnable. */
    method Yield() returns (ok: bool)
      requires Valid() && current != NULL
      modifies this`tasks, this`current, this`at, this`ready
      ensures Valid() && ok
      ensures
        var c, now := old(current), old(tasks)[old(current) := old(tasks)[old(current)].(state := Runnable)];
        && 0 <= c < |old(tasks)| && 0 <= current < |tasks| && tasks == Switched(now, c, current)
        && Chosen(now, list, c, current) && ready == old(ready) + [Ready(now, list)] && old(at) <= at
        && (current != c ==> tasks[c] == now[c] && tasks[current].state == Running && now[current].state == Runnable)
        && (current == c ==> tasks == now && forall t :: t in list && t != c ==> now[t].state != Runnable)
    {
      hide Logged, Switched, Chosen;
      ghost var t0 := tasks;
      tasks := tasks[current := tasks[current].(state := Runnable)];
      SameLinks(t0, tasks, rootp, list);
      ok := SchedYield();
    }

    /** sleep_on up to the switch: the current task stops on `chan`; false on a panic. */
    method SleepOn(chan: nat) returns (ok: bool)
      requires Valid()
      modifies this`tasks, this`current, this`at, this`ready
      ensures Valid() && ok == (old(current) != NULL)
      ensures ok ==>
                var c := old(current);
                && 0 <= c < |old(tasks)|
                && var asleep := old(tasks)[c := old(tasks)[c].(chan := chan, state := Stopped)];
                && 0 <= current < |tasks| && tasks == Switched(asleep, c, current)
                && Chosen(asleep, list, c, current) && ready == old(ready) + [Ready(asleep, list)] && old(at) <= at
                && (current == c ==> forall i :: 0 <= i < |list| ==> asleep[list[i]].state != Runnable)
                && (current != c ==> tasks[c] == asleep[c] && tasks[current].state == Running)
                && (current != c ==> old(tasks)[current].state == Runnable)
    {
      hide Choice, Ready, Switched, Logged;
      if current == NULL {
        return false;
      }
      ghost var t0, c := tasks, current;
      tasks := tasks[current := tasks[current].(chan := chan)];
      tasks := tasks[current := tasks[current].(state := Stopped)];
      SameLinks(t0, tasks, rootp, list);
      ghost var t1 := tasks;
      assert t1 == t0[c := t0[c].(chan := chan, state := Stopped)];
      ok := SchedYield();
      NoneReady(t1, list, c, current);
    }

    /** Bounded waiting over every run of the scheduler: take any decision so far. A task that was
        not current before it and was runnable at it and at the following ones becomes current
        within as many decisions as it is places away, hence within the length of the list
        less one. */
    lemma RunsWithin(i: nat, x: nat)
      requires Valid() && current != NULL && i < |at| && x < |list| && at[i] < |list| && at[i] != x
      requires i + Distance(|list|, at[i], x) <= |ready|
      requires forall j :: i <= j < i + Distance(|list|, at[i], x) ==> x < |ready[j]| && ready[j][x]
      ensures exists k :: i < k <= i + Distance(|list|, at[i], x) && k < |at| && at[k] == x
      ensures Distance(|list|, at[i], x) <= |list| - 1
    {
      hide Choice, Distance;
      var d := Distance(|list|, at[i], x);
      Stretch(at, ready, |list|, i, d);
      var a, r := at[i..i + d + 1], ready[i..i + d];
      ReachedInTurn(a, r, |list|, x);
      var k :| 1 <= k <= d && a[k] == x;
      assert at[i + k] == x;
    }

    /** Every task stopped on `chan` becomes runnable; nothing else changes. */
    method Wakeup(chan: nat)
      requires Valid()
      modifies this`tasks
      ensures Valid() && |tasks| == |old(tasks)|
      ensures forall t :: 0 <= t < |tasks| ==>
                tasks[t] == if t in list && old(tasks)[t].state == Stopped && old(tasks)[t].chan == chan
                            then old(tasks)[t].(state := Runnable) else old(tasks)[t]
    {
      ghost var t0 := tasks;
      var tp := rootp;
      ghost var i := 0;
      while tp != NULL
        invariant 0 <= i <= |list| && tp == At(list, i) && |tasks| == |t0| && Listed(tasks, rootp, list)
        invariant forall t :: 0 <= t < |tasks| ==>
                    tasks[t] == if t in list[..i] && t0[t].state == Stopped && t0[t].chan == chan
                                then t0[t].(state := Runnable) else t0[t]
        decreases |list| - i
      {
        assert LinkAt(tasks, list, i);
        ghost var t1 := tasks;
        if tasks[tp].state == Stopped && tasks[tp].chan == chan {
          tasks := tasks[tp := tasks[tp].(state := Runnable)];
        }
        SameLinks(t1, tasks, rootp, list);
        assert list[..i + 1] == list[..i] + [list[i]];
        tp := tasks[tp].next;
        i := i + 1;
      }
      assert list[..i] == list;
    }
  }

  /** The logs are those of a run of decisions that ends at the current task. */
  ghost predicate Logged(at: seq<nat>, ready: seq<seq<bool>>, list: seq<nat>, current: int) {
    if current == NULL then at == [] && ready == []
    else Decisions(at, ready, |list|) && list[at[|at| - 1]] == current
  }

  lemma Current(at: seq<nat>, ready: seq<seq<bool>>, list: seq<nat>, current: int)
    requires Logged(at, ready, list, current) && list != []
    ensures if current == NULL then at == [] && ready == [] && Logged([0], [], list, list[0])
            else |at| == |ready| + 1 && at[|at| - 1] < |list| && list[at[|at| - 1]] == current
  {
  }

  /** One more decision. */
  lemma Logs(at: seq<nat>, ready: seq<seq<bool>>, list: seq<nat>, c: int, now: seq<bool>, p: nat)
    requires Logged(at, ready, list, c) && c != NULL && |now| == |list|
    requires at[|at| - 1] < |now| && p == Choice(now, at[|at| - 1])
    ensures Logged(at + [p], ready + [now], list, list[p])
  {
    hide Choice;
    var a, r := at + [p], ready + [now];
    forall i | 0 <= i < |r| ensures Decided(a, r, i) {
      if i < |ready| { assert Decided(at, ready, i); }
    }
  }

  /** A stretch of a run of decisions is one. */
  lemma Stretch(at: seq<nat>, ready: seq<seq<bool>>, n: nat, i: nat, m: nat)
    requires Decisions(at, ready, n) && i + m <= |ready|
    ensures Decisions(at[i..i + m + 1], ready[i..i + m], n)
  {
    hide Choice;
    var a, r := at[i..i + m + 1], ready[i..i + m];
    forall j | 0 <= j < |r| ensures Decided(a, r, j) {
      assert Decided(at, ready, i + j);
    }
  }

  /** `chosen` is the round-robin choice from task `c`. */
  ghost predicate Chosen(tasks: seq<Task>, list: seq<nat>, c: int, chosen: int)
    requires forall i :: 0 <= i < |list| ==> list[i] < |tasks|
  {
    exists k :: 0 <= k < |list| && list[k] == c && chosen == list[Choice(Ready(tasks, list), k)]
  }

  /** What the round-robin choice is, in terms of the tasks. */
  lemma Nearest(tasks: seq<Task>, list: seq<nat>, k: nat)
    requires forall i :: 0 <= i < |list| ==> list[i] < |tasks|
    requires forall i, j :: 0 <= i < j < |list| ==> list[i] != list[j]
    requires k < |list|
    ensures
      var c, p := list[k], Choice(Ready(tasks, list), k);
      && (tasks[list[p]].state == Runnable || list[p] == c)
      && (list[p] == c <==> forall t :: t in list && t != c ==> tasks[t].state != Runnable)
      && (forall x :: 0 <= x < |list| && x != k && tasks[list[x]].state == Runnable ==>
            Distance(|list|, k, p) <= Distance(|list|, k, x))
  {
    hide Choice, Distance;
    var now := Ready(tasks, list);
    forall x | 0 <= x < |list| && x != k && tasks[list[x]].state == Runnable
      ensures Choice(now, k) != k && Distance(|list|, k, Choice(now, k)) <= Distance(|list|, k, x)
    {
      assert now[x];
      ChoiceNearest(now, k, x);
    }
  }

  /** The two scans of sched_yield make the choice. */
  lemma Chooses(now: seq<bool>, list: seq<nat>, k: nat)
    requires k < |list| == |now|
    ensures
      var f := FirstRunnable(now, k + 1, |list|);
      Choice(now, k) == if f < |list| then f else FirstRunnable(now, 0, k)
  {
  }

  lemma Ends(list: seq<nat>, j: nat, n: nat)
    requires j <= n <= |list| && At(list, j) == At(list, n) && forall a, b :: 0 <= a < b < |list| ==> list[a] != list[b]
    ensures j == n
  {
  }

  /** The decision stays with the current task only when no task of the list is runnable. */
  lemma NoneReady(tasks: seq<Task>, list: seq<nat>, c: int, chosen: int)
    requires (forall i :: 0 <= i < |list| ==> list[i] < |tasks|)
             && (forall i, j :: 0 <= i < j < |list| ==> list[i] != list[j])
    requires 0 <= c < |tasks| && tasks[c].state != Runnable
    requires Chosen(tasks, list, c, chosen)
    ensures chosen == c ==> forall i :: 0 <= i < |list| ==> tasks[list[i]].state != Runnable
  {
    var ready := Ready(tasks, list);
    var k :| 0 <= k < |list| && list[k] == c && chosen == list[Choice(ready, k)];
    if chosen == c {
      forall i | 0 <= i < |list| ensures tasks[list[i]].state != Runnable {
        assert !ready[i];
      }
    }
  }

  lemma SameLinks(t: seq<Task>, u: seq<Task>, rootp: int, list: seq<nat>)
    requires Listed(t, rootp, list) && |u| == |t| && forall i :: 0 <= i < |t| ==> u[i].next == t[i].next
    ensures Listed(u, rootp, list)
  {
    forall i | 0 <= i < |list| ensures LinkAt(u, list, i) {
      assert LinkAt(t, list, i);
    }
  }
}

/**
 The scheduler proper: processes hang on the run and sleep queues by a link embedded in each of them,
 and scheduling rewrites those links in place.
 */
module Sched {
  import opened Lists
  import opened RoundRobin

  datatype ProcState = Runnable | Sleeping

  class Proc {
    const queue: Link
    var id: int
    var state: ProcState
    var quanta: int
    var exitCode: int

    constructor (id: int)
      ensures fresh(queue) && this.id == id && state == Runnable
    {
      queue := new Link();
      this.id := id;
      state := Runnable;
      quanta := 0;
      exitCode := -0x8000_0000;
    }
  }

  function Links(ps: seq<Proc>): (ls: seq<Link>)
    ensures |ls| == |ps| && forall i :: 0 <= i < |ps| ==> ls[i] == ps[i].queue
  {
    seq(|ps|, i requires 0 <= i < |ps| => ps[i].queue)
  }

  lemma FirstProcess(p: Proc, head1: Link, head2: Link)
    requires p.queue != head1 && p.queue != head2
    ensures Links([p]) == Inserted([], 0, p.queue) && Links([]) == []
    ensures AllContained([p] + [], map[p.queue := p], head1, head2)
    ensures Inv(Sys([p], [], p))
  {
  }

  lemma LinksInserted(ps: seq<Proc>, k: nat, p: Proc)
    requires k <= |ps|
    ensures Links(Inserted(ps, k, p)) == Inserted(Links(ps), k, p.queue)
  {
  }

  lemma LinksRemoved(ps: seq<Proc>, k: nat)
    requires k < |ps|
    ensures Links(Removed(ps, k)) == Removed(Links(ps), k)
  {
  }

  /** The process id behind `id` in 16-bit arithmetic. */
  function NextId(id: int): int { if id == 32767 then -32768 else id + 1 }

  /** `b` is the id behind `a`, modulo 2^16. */
  predicate Follows(a: int, b: int) { (b - a - 1) % 0x1_0000 == 0 }

  /** Ids that each follow the one before are pairwise distinct, as long as there are no more than 65536 of them. */
  lemma IdsDistinct(ids: seq<int>)
    requires |ids| <= 0x1_0000
    requires forall i {:trigger ids[i]} :: 0 <= i < |ids| - 1 ==> Follows(ids[i], ids[i + 1])
    ensures Distinct(ids)
  {
    hide Follows;
    forall i, j | 0 <= i < j < |ids| ensures ids[i] != ids[j] {
      IdsApart(ids, i, j);
      ApartDiffer(ids[i], ids[j], j - i);
    }
  }

  lemma FollowsIs(a: int, b: int)
    ensures Follows(a, b) <==> (b - a - 1) % 0x1_0000 == 0
  {
  }

  lemma ApartDiffer(a: int, b: int, d: nat)
    requires 0 < d < 0x1_0000 && (b - a - d) % 0x1_0000 == 0
    ensures a != b
  {
  }

  lemma {:induction false} IdsApart(ids: seq<int>, i: nat, j: nat)
    requires i <= j < |ids| && forall k {:trigger ids[k]} :: 0 <= k < |ids| - 1 ==> Follows(ids[k], ids[k + 1])
    ensures (ids[j] - ids[i] - (j - i)) % 0x1_0000 == 0
    decreases j
  {
    if i < j {
      IdsApart(ids, i, j - 1);
      assert Follows(ids[j - 1], ids[j - 1 + 1]);
      AddMultiples(ids[j - 1] - ids[i] - (j - 1 - i), ids[j] - ids[j - 1] - 1);
    }
  }

  lemma AddMultiples(a: int, b: int)
    requires a % 0x1_0000 == 0 && b % 0x1_0000 == 0
    ensures (a + b) % 0x1_0000 == 0
  {
  }

  /** First process with the given id; |ps| if there is none. */
  function FindId(ps: seq<Proc>, id: int): (k: nat)
    reads ps
    ensures k <= |ps|
    ensures k < |ps| ==> ps[k].id == id
    ensures forall j :: 0 <= j < k ==> ps[j].id != id
  {
    if ps == [] || ps[0].id == id then 0 else 1 + FindId(ps[1..], id)
  }

  /** Each process can be found from its link, which is neither of two list heads. */
  ghost predicate AllContained(ps: seq<Proc>, containers: map<Link, Proc>, head1: Link, head2: Link) {
    forall p :: p in ps ==>
      p.queue != head1 && p.queue != head2 && p.queue in containers && containers[p.queue] == p
  }

  lemma MoreContained(run: seq<Proc>, sleep: seq<Proc>, p: Proc, containers: map<Link, Proc>, head1: Link, head2: Link)
    requires AllContained(run + sleep, containers, head1, head2)
    requires p.queue != head1 && p.queue != head2 && p.queue !in Links(run) + Links(sleep)
    ensures AllContained(run + [p] + sleep, containers[p.queue := p], head1, head2)
  {
    forall q | q in run + [p] + sleep
      ensures q.queue != head1 && q.queue != head2
              && q.queue in containers[p.queue := p] && containers[p.queue := p][q.queue] == q
    {
      if q != p {
        assert q in run + sleep;
        LinkOf(run, q);
        LinkOf(sleep, q);
      }
    }
  }

  lemma LinkOf(ps: seq<Proc>, q: Proc)
    ensures q in ps ==> q.queue in Links(ps)
  {
    if q in ps {
      var i :| 0 <= i < |ps| && ps[i] == q;
      assert Links(ps)[i] == q.queue;
    }
  }

  lemma RingDistinct(head: Link, items: seq<Link>)
    requires Ring(head, items)
    ensures head !in items && Distinct(items)
  {
  }

  lemma NextInRing(head: Link, items: seq<Link>, i: nat)
    requires Ring(head, items) && i <= |items|
    ensures At(head, items, i).next == At(head, items, i + 1)
  {
    assert Joined(head, items, i);
  }

  class Kernel {
    const runQueue: Link
    const sleepQueue: Link
    var current: Proc
    var nextPid: int
    var switches: int
    /** Stands for the address arithmetic from an embedded link to the process around it. */
    var containers: map<Link, Proc>
    ghost var run: seq<Proc>
    ghost var sleep: seq<Proc>

    ghost function Abs(): Sys<Proc>
      reads this
    {
      Sys(run, sleep, current)
    }

    /** Every process can be found from its own link, which is not a list head. */
    ghost predicate Contained()
      reads this`run, this`sleep, this`containers
    {
      AllContained(run + sleep, containers, runQueue, sleepQueue)
    }

    /** The links realise the two queues. */
    ghost predicate Wired()
      reads this`run, this`sleep, this`containers, runQueue, sleepQueue, Links(run), Links(sleep)
    {
      && runQueue != sleepQueue
      && Contained()
      && Ring(runQueue, Links(run))
      && Ring(sleepQueue, Links(sleep))
    }

    ghost predicate Valid()
      reads this, runQueue, sleepQueue, Links(run), Links(sleep), run, sleep
    {
      && Wired()
      && Inv(Abs())
      && -0x8000 <= nextPid < 0x8000
      && (forall i :: 0 <= i < |run| ==> run[i].state == Runnable)
      && (forall i :: 0 <= i < |sleep| ==> sleep[i].state == Sleeping)
    }

    /** sched_init: the running thread becomes the first process. */
    constructor ()
      ensures Valid()
      ensures run == [current] && sleep == [] && current.id == 0 && nextPid == 1
    {
      hide Joined, Links, Inserted, AllContained, Inv, Distinct;
      var rq := new Link();
      var sq := new Link();
      var p := new Proc(0);
      runQueue, sleepQueue := rq, sq;
      current := p;
      nextPid := 1;
      switches := 0;
      containers := map[p.queue := p];
      run, sleep := [p], [];
      new;
      ListInit(rq);
      ListInit(sq);
      ListInsert(p.queue, rq, rq, [], 1);
      FirstProcess(p, rq, sq);
    }

    lemma InvParts(s: Sys<Proc>)
      requires Inv(s)
      ensures Distinct(s.run + s.sleep) && s.cur in s.run
    {
    }

    lemma QueuesApart()
      requires Wired() && Distinct(run + sleep)
      ensures Apart(runQueue, Links(run), sleepQueue, Links(sleep))
      ensures Apart(sleepQueue, Links(sleep), runQueue, Links(run))
    {
      DistinctParts(run, sleep);
      forall l | l in Links(run) ensures l !in Links(sleep) && l != sleepQueue {
        var i :| 0 <= i < |run| && run[i].queue == l;
        assert run[i] in run + sleep;
      }
      forall l | l in Links(sleep) ensures l != runQueue {
        var i :| 0 <= i < |sleep| && sleep[i].queue == l;
        assert sleep[i] in run + sleep;
      }
    }

    /** sched: hand the CPU to the next process; a process that went to sleep moves to the sleep queue. */
    method Sched()
      requires Wired() && Inv(Abs())
      modifies this, current`quanta, runQueue, sleepQueue, Links(run), Links(sleep)
      ensures Wired()
      ensures containers == old(containers) && nextPid == old(nextPid)
      ensures Abs() == Step(old(Abs()), if old(current.state) == Sleeping then Event.Sleep else Event.Yield)
      ensures switches == (old(switches) + 1) % 0x1_0000_0000
      ensures old(current).quanta == (old(current.quanta) + 1) % 0x1_0000_0000
    {
      hide Distinct, Wired, Without, Successor;
      var prev := current;
      current.quanta := (current.quanta + 1) % 0x1_0000_0000;
      DistinctParts(run, sleep);
      PickNext();
      if prev.state == Sleeping {
        MoveToSleep(prev);
      }
      CountSwitch();
    }

    method CountSwitch()
      modifies this`switches
      ensures switches == (old(switches) + 1) % 0x1_0000_0000
      ensures old(Wired()) ==> Wired()
    {
      switches := (switches + 1) % 0x1_0000_0000;
    }

    /** Give the CPU to the process behind the current one, from the last one to the first. */
    method PickNext()
      requires Wired() && Distinct(run) && current in run
      modifies this`current
      ensures current == Successor(run, old(current))
      ensures Wired()
    {
      hide Links, Ring, Distinct;
      ghost var k := IndexIn(run, current);
      RunLinks(k);
      var last := ListIsLast(current.queue, runQueue, Links(run), k);
      if last {
        current := containers[runQueue.next];
      } else {
        current := containers[current.queue.next];
      }
    }

    /** What the links around the runnable process `k` lead to. */
    lemma RunLinks(k: nat)
      requires Wired() && Distinct(run) && k < |run|
      ensures Ring(runQueue, Links(run)) && Links(run)[k] == run[k].queue
      ensures var l := if k == |run| - 1 then runQueue.next else run[k].queue.next;
              l in containers && containers[l] == if k == |run| - 1 then run[0] else run[k + 1]
    {
      hide Ring, Distinct, AllContained;
      var i := if k == |run| - 1 then 0 else k + 1;
      NextInRing(runQueue, Links(run), i);
      ContainedAt(i);
    }

    lemma ContainedAt(i: nat)
      requires Contained() && i < |run|
      ensures run[i].queue in containers && containers[run[i].queue] == run[i]
    {
      assert run[i] in run + sleep;
    }

    method MoveToSleep(p: Proc)
      requires Wired() && Distinct(run + sleep) && p in run
      modifies this`run, this`sleep, runQueue, sleepQueue, Links(run), Links(sleep)
      ensures Wired()
      ensures run == Without(old(run), p) && sleep == old(sleep) + [p]
    {
      ghost var k := IndexIn(run, p);
      ghost var r, s := Links(run), Links(sleep);
      QueuesApart();
      assert At(sleepQueue, s, |s| + 1) == sleepQueue;
      ListMoveInsert(p.queue, sleepQueue, runQueue, r, k, sleepQueue, s, |s| + 1);
      run, sleep := Removed(run, k), sleep + [p];
      assert sleep == Inserted(old(sleep), |s|, p);
      LinksRemoved(old(run), k);
      LinksInserted(old(sleep), |s|, p);
    }

    /** cpu_switch_process from a running process: give up the rest of the quantum. */
    method Yield()
      requires Valid()
      modifies this, current`quanta, runQueue, sleepQueue, Links(run), Links(sleep)
      ensures Valid() && nextPid == old(nextPid)
      ensures Abs() == Step(old(Abs()), Event.Yield)
    {
      StepKeepsInv(Abs(), Event.Yield);
      Sched();
    }

    /** proc_sleep: the queues stay sound exactly when another process is runnable. */
    method ProcSleep()
      requires Valid()
      modifies this, current`quanta, current`state, runQueue, sleepQueue, Links(run), Links(sleep)
      ensures Wired() && (Valid() <==> |old(run)| > 1) && nextPid == old(nextPid)
      ensures Abs() == Step(old(Abs()), Event.Sleep)
      ensures old(current).state == Sleeping
    {
      hide Distinct, Wired, Without, Successor;
      StepKeepsInv(Abs(), Event.Sleep);
      DistinctParts(run, sleep);
      ghost var rest := Without(run, current);
      LeaveKeepsInv(Abs());
      WithoutFacts(run, current);
      current.state := Sleeping;
      Sched();
      assert run == rest;
    }

    /**
     proc_create, whose getting of stacks, directory and registers comes to `setup`: on success a fresh id, and the
     last place in the run queue; on failure nothing, not even an id.
     */
    method ProcCreate(setup: int) returns (ret: int, newProc: Proc?)
      requires Valid()
      modifies this, runQueue, sleepQueue, Links(run), Links(sleep)
      ensures Valid() && ret == setup
      ensures setup != 0 ==> newProc == null && Abs() == old(Abs()) && nextPid == old(nextPid)
      ensures setup == 0 ==> newProc != null && fresh(newProc) && fresh(newProc.queue)
      ensures setup == 0 ==> Abs() == Step(old(Abs()), Event.Create(newProc))
      ensures setup == 0 ==> newProc.id == old(nextPid) && (nextPid - old(nextPid) - 1) % 0x1_0000 == 0
    {
      hide Joined, Distinct, Ring, Contained;
      if setup != 0 {
        return setup, null;
      }
      var p := new Proc(nextPid);
      StepKeepsInv(Abs(), Event.Create(p));
      nextPid := NextId(nextPid);
      Enqueue(p);
      ret, newProc := 0, p;
    }

    /** Processes created one after the other, up to as many as there are ids, get pairwise distinct ids. */
    method CreateMany(n: nat) returns (ids: seq<int>)
      requires Valid() && n <= 0x1_0000
      modifies this, runQueue, sleepQueue, Links(run), Links(sleep)
      ensures Valid() && |ids| == n && Distinct(ids)
    {
      hide Joined, Distinct, Ring, Contained, Follows, Wired, Inv;
      ids := [];
      while |ids| < n
        invariant Valid() && |ids| <= n && sleep == old(sleep)
        invariant forall i :: 0 <= i < |run| ==> run[i].queue in old(Links(run)) || fresh(run[i].queue)
        invariant forall i {:trigger ids[i]} :: 0 <= i < |ids| - 1 ==> Follows(ids[i], ids[i + 1])
        invariant ids != [] ==> Follows(ids[|ids| - 1], nextPid)
      {
        ghost var was := nextPid;
        var ret, p := ProcCreate(0);
        FollowsIs(was, nextPid);
        ids := ids + [p.id];
      }
      IdsDistinct(ids);
    }

    method Enqueue(p: Proc)
      requires Wired() && Distinct(run + sleep) && p !in run + sleep
      requires p.queue != runQueue && p.queue != sleepQueue && p.queue !in Links(run) + Links(sleep)
      modifies this`run, this`containers, runQueue, Links(run), p.queue
      ensures Wired()
      ensures run == old(run) + [p]
    {
      hide AllContained, Joined, Links, Inserted, Distinct;
      ghost var r := Links(run);
      QueuesApart();
      ApartAt(runQueue, r, sleepQueue, Links(sleep), |r|);
      LinksInserted(run, |run|, p);
      InsertedLast(run, p);
      MoreContained(run, sleep, p, containers, runQueue, sleepQueue);
      assert At(runQueue, r, |r| + 1) == runQueue;
      ListInsert(p.queue, runQueue, runQueue, r, |r| + 1);
      run := run + [p];
      containers := containers[p.queue := p];
    }

    lemma InsertedLast<T>(s: seq<T>, x: T)
      ensures Inserted(s, |s|, x) == s + [x]
    {
    }

    /** The scan of proc_wake_by_id over the sleep queue, link by link. */
    method FindSleeper(pid: int) returns (p: Proc?)
      requires Wired()
      ensures var k := FindId(sleep, pid);
              p == if k < |sleep| then sleep[k] else null
    {
      hide Ring, AllContained, Links, Distinct;
      ghost var s := Links(sleep);
      ghost var i: nat := 0;
      NextInRing(sleepQueue, s, 0);
      var l := sleepQueue.next;
      while l != sleepQueue
        invariant i <= |sleep| && l == At(sleepQueue, s, i + 1)
        invariant forall j :: 0 <= j < i ==> sleep[j].id != pid
        decreases |sleep| - i
      {
        SleeperContained(i);
        p := containers[l];
        if p.id == pid {
          return;
        }
        NextInRing(sleepQueue, s, i + 1);
        l := l.next;
        i := i + 1;
      }
      RingDistinct(sleepQueue, s);
      AtDistinct(sleepQueue, s, 0, if i == |s| then 0 else i + 1);
      p := null;
    }

    lemma SleeperContained(i: nat)
      requires Contained() && i < |sleep|
      ensures sleep[i].queue in containers && containers[sleep[i].queue] == sleep[i]
    {
      assert sleep[i] in run + sleep;
    }

    /** proc_wake_by_id: the first sleeping process with this id goes to the front of the run queue. */
    method ProcWakeById(pid: int)
      requires Valid()
      modifies this, runQueue, sleepQueue, Links(run), Links(sleep), sleep
      ensures Valid() && nextPid == old(nextPid)
      ensures var k := old(FindId(sleep, pid));
              Abs() == if k == |old(sleep)| then old(Abs()) else Step(old(Abs()), Event.Wake(old(sleep)[k]))
      ensures forall p :: p in old(sleep) ==> p.id == old(p.id)
    {
      hide Without, Ring, AllContained, Distinct, Links, Inv;
      var found := FindSleeper(pid);
      if found != null {
        var p: Proc := found;
        StepKeepsInv(Abs(), Event.Wake(p));
        QueuesDistinct(Abs());
        InvParts(Abs());
        WithoutFacts(sleep, p);
        p.state := Runnable;
        MoveToRun(p);
      }
    }

    method MoveToRun(p: Proc)
      requires Wired() && Distinct(run + sleep) && p in sleep
      modifies this`run, this`sleep, runQueue, sleepQueue, Links(run), Links(sleep)
      ensures Wired()
      ensures run == [p] + old(run) && sleep == Without(old(sleep), p)
    {
      ghost var k := IndexIn(sleep, p);
      ghost var r, s := Links(run), Links(sleep);
      QueuesApart();
      ListMoveAppend(p.queue, runQueue, sleepQueue, s, k, runQueue, r, 0);
      run, sleep := [p] + run, Removed(sleep, k);
      assert run == Inserted(old(run), 0, p);
      LinksRemoved(old(sleep), k);
      LinksInserted(old(run), 0, p);
    }

    /** proc_destroy: switch away, then unlink the exiting process; sound exactly when another one is runnable. */
    method ProcDestroy(exitCode: int)
      requires Valid()
      modifies this, current`quanta, current`exitCode, runQueue, sleepQueue, Links(run), Links(sleep)
      ensures Wired() && (Valid() <==> |old(run)| > 1) && nextPid == old(nextPid)
      ensures Abs() == Step(old(Abs()), Event.Exit)
      ensures old(current).exitCode == exitCode
    {
      hide Distinct, Wired, Without, Successor;
      var exiting := current;
      StepKeepsInv(Abs(), Event.Exit);
      DistinctParts(run, sleep);
      ghost var rest := Without(run, current);
      LeaveKeepsInv(Abs());
      WithoutFacts(run, current);
      exiting.exitCode := exitCode;
      Sched();
      Dequeue(exiting);
    }

    method Dequeue(p: Proc)
      requires Wired() && Distinct(run + sleep) && p in run
      modifies this`run, runQueue, Links(run)
      ensures Wired()
      ensures run == Without(old(run), p)
    {
      ghost var k := IndexIn(run, p);
      ghost var r := Links(run);
      QueuesApart();
      DistinctParts(run, sleep);
      RemovedFacts(r, k);
      RemovedFacts(run, k);
      ApartAt(runQueue, r, sleepQueue, Links(sleep), k);
      ApartAt(runQueue, r, sleepQueue, Links(sleep), k + 2);
      ListDelete(p.queue, runQueue, r, k);
      run := Removed(run, k);
      LinksRemoved(old(run), k);
    }
  }
}

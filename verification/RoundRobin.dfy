/**
 The scheduler on its abstract state: the run queue and the sleep queue in list order, and the
 process that has the CPU. `P` stands for process identities.
 */
module RoundRobin {
  import opened Lists

  datatype Sys<P> = Sys(run: seq<P>, sleep: seq<P>, cur: P)

  /** One scheduling event. Exit and Sleep concern the current process. */
  datatype Event<P> = Create(p: P) | Yield | Sleep | Wake(p: P) | Exit

  function IndexIn<P(==)>(s: seq<P>, x: P): (i: nat)
    requires x in s
    ensures i < |s| && s[i] == x
    ensures forall j :: 0 <= j < i ==> s[j] != x
  {
    if s[0] == x then 0 else 1 + IndexIn(s[1..], x)
  }

  /** The process behind `cur` in the circular run queue. */
  function Successor<P(==)>(run: seq<P>, cur: P): P
    requires cur in run
  {
    var i := IndexIn(run, cur);
    if i == |run| - 1 then run[0] else run[i + 1]
  }

  function Without<P(==)>(s: seq<P>, x: P): seq<P>
    requires x in s
  {
    Removed(s, IndexIn(s, x))
  }

  // ---------------------------------------------------------------- steps

  /** Both queues together hold each process once, and the current process is on the run queue. */
  ghost predicate Inv<P>(s: Sys<P>) {
    && Distinct(s.run + s.sleep)
    && s.cur in s.run
  }

  /** What an event presupposes: a created process is new, a woken one is asleep. */
  predicate Enabled<P(==)>(s: Sys<P>, e: Event<P>) {
    match e
    case Create(p) => p !in s.run && p !in s.sleep
    case Wake(p) => p in s.sleep
    case Yield => true
    case Sleep => true
    case Exit => true
  }

  predicate Leaves<P>(e: Event<P>) { e.Sleep? || e.Exit? }

  predicate Switches<P>(e: Event<P>) { e.Yield? || e.Sleep? || e.Exit? }

  function Step<P(==)>(s: Sys<P>, e: Event<P>): Sys<P>
    requires s.cur in s.run && Enabled(s, e)
  {
    match e
    case Create(p) => s.(run := s.run + [p])
    case Yield => s.(cur := Successor(s.run, s.cur))
    case Sleep => Sys(Without(s.run, s.cur), s.sleep + [s.cur], Successor(s.run, s.cur))
    case Wake(p) => Sys([p] + s.run, Without(s.sleep, p), s.cur)
    case Exit => Sys(Without(s.run, s.cur), s.sleep, Successor(s.run, s.cur))
  }

  /** Processes alive after an event. */
  ghost function Alive<P>(s: Sys<P>): set<P> {
    set p | p in s.run + s.sleep
  }

  lemma DistinctParts<P>(a: seq<P>, b: seq<P>)
    ensures Distinct(a + b) <==> Distinct(a) && Distinct(b) && forall x :: x in a ==> x !in b
  {
    if Distinct(a + b) {
      forall i, j | 0 <= i < j < |a| ensures a[i] != a[j] {
        assert (a + b)[i] == a[i] && (a + b)[j] == a[j];
      }
      forall i, j | 0 <= i < j < |b| ensures b[i] != b[j] {
        assert (a + b)[|a| + i] == b[i] && (a + b)[|a| + j] == b[j];
      }
      forall i, j | 0 <= i < |a| && 0 <= j < |b| ensures a[i] != b[j] {
        assert (a + b)[i] == a[i] && (a + b)[|a| + j] == b[j];
      }
    }
    if Distinct(a) && Distinct(b) && forall x :: x in a ==> x !in b {
      forall i, j | 0 <= i < j < |a + b| ensures (a + b)[i] != (a + b)[j] {
        if i < |a| <= j { assert a[i] in a && b[j - |a|] in b; }
      }
    }
  }

  /** Where members of a duplicate-free sequence stand after one is taken out. */
  lemma WithoutFacts<P>(s: seq<P>, x: P)
    requires Distinct(s) && x in s
    ensures Distinct(Without(s, x)) && x !in Without(s, x)
    ensures forall y :: y in Without(s, x) <==> y in s && y != x
    ensures forall i :: 0 <= i < |Without(s, x)| ==> Without(s, x)[i] in s && Without(s, x)[i] != x
  {
    RemovedFacts(s, IndexIn(s, x));
  }

  lemma IndexUnique<P>(s: seq<P>, k: nat)
    requires Distinct(s) && k < |s|
    ensures IndexIn(s, s[k]) == k
  {
  }

  /** `b` stands behind `a` in the circle `s`, the first behind the last. */
  ghost predicate Behind<P>(s: seq<P>, a: P, b: P) {
    exists i :: BehindAt(s, i, a, b)
  }

  ghost predicate BehindAt<P>(s: seq<P>, i: int, a: P, b: P) {
    0 <= i < |s| && s[i] == a && b == if i + 1 < |s| then s[i + 1] else s[0]
  }

  /** `r` is `s` without one occurrence of `x`, in the same order. */
  ghost predicate TakenOut<P>(s: seq<P>, r: seq<P>, x: P) {
    exists i :: 0 <= i < |s| && s[i] == x && r == s[..i] + s[i + 1..]
  }

  /**
   What becomes of the queues and the CPU: a created process queues up last and a woken one first; a switch gives the
   CPU to the process behind the current one, which stays in its place, or goes last to sleep, or disappears.
   */
  lemma StepQueues<P>(s: Sys<P>, e: Event<P>)
    requires s.cur in s.run && Enabled(s, e)
    ensures var t := Step(s, e);
            match e
            case Create(p) => t.run == s.run + [p] && t.sleep == s.sleep && t.cur == s.cur
            case Wake(p) => t.run == [p] + s.run && TakenOut(s.sleep, t.sleep, p) && t.cur == s.cur
            case Yield => t.run == s.run && t.sleep == s.sleep && Behind(s.run, s.cur, t.cur)
            case Sleep =>
              TakenOut(s.run, t.run, s.cur) && t.sleep == s.sleep + [s.cur] && Behind(s.run, s.cur, t.cur)
            case Exit => TakenOut(s.run, t.run, s.cur) && t.sleep == s.sleep && Behind(s.run, s.cur, t.cur)
  {
    var i := IndexIn(s.run, s.cur);
    assert s.run[i] == s.cur && BehindAt(s.run, i, s.cur, Successor(s.run, s.cur));
    match e {
      case Wake(p) =>
        var j := IndexIn(s.sleep, p);
        assert s.sleep[j] == p;
      case _ =>
    }
  }

  /** Every step keeps the invariant, except that the only runnable process must not sleep or exit. */
  lemma StepKeepsInv<P>(s: Sys<P>, e: Event<P>)
    requires Inv(s) && Enabled(s, e)
    ensures Inv(Step(s, e)) <==> (Leaves(e) ==> |s.run| > 1)
  {
    DistinctParts(s.run, s.sleep);
    var t := Step(s, e);
    match e {
      case Create(p) => DistinctParts(s.run, [p]); DistinctParts(t.run, t.sleep);
      case Yield =>
      case Wake(p) =>
        WithoutFacts(s.sleep, p);
        DistinctParts([p], s.run);
        DistinctParts(t.run, t.sleep);
      case Sleep => LeaveKeepsInv(s); DistinctParts(s.sleep, [s.cur]); DistinctParts(t.run, t.sleep);
      case Exit => LeaveKeepsInv(s); DistinctParts(t.run, t.sleep);
    }
  }

  lemma LeaveKeepsInv<P>(s: Sys<P>)
    requires Distinct(s.run) && s.cur in s.run
    ensures var r := Without(s.run, s.cur);
            && Distinct(r) && s.cur !in r && (forall y :: y in r <==> y in s.run && y != s.cur)
            && (Successor(s.run, s.cur) in r <==> |s.run| > 1)
  {
    WithoutFacts(s.run, s.cur);
    IndexUnique(s.run, IndexIn(s.run, s.cur));
  }

  /** No process is lost or duplicated: only Create adds one and only Exit takes one away. */
  lemma StepAlive<P>(s: Sys<P>, e: Event<P>)
    requires Inv(s) && Enabled(s, e)
    ensures Alive(Step(s, e)) ==
            match e
            case Create(p) => Alive(s) + {p}
            case Exit => Alive(s) - {s.cur}
            case Yield => Alive(s)
            case Sleep => Alive(s)
            case Wake(_) => Alive(s)
  {
    DistinctParts(s.run, s.sleep);
    match e {
      case Create(p) =>
      case Yield =>
      case Wake(p) => WithoutFacts(s.sleep, p);
      case Sleep => WithoutFacts(s.run, s.cur);
      case Exit => WithoutFacts(s.run, s.cur);
    }
  }

  // ---------------------------------------------------------------- bounded waiting

  /** How many switches away `p` is: the circular distance from the current process. */
  function Distance<P(==)>(s: Sys<P>, p: P): (d: nat)
    requires s.cur in s.run && p in s.run
    ensures d < |s.run|
    ensures d == 0 <==> p == s.cur
  {
    var i, j := IndexIn(s.run, s.cur), IndexIn(s.run, p);
    if i <= j then j - i else |s.run| - i + j
  }

  /** Distance between positions `i` and `j` of a circle of `n`. */
  function Gap(i: nat, j: nat, n: nat): int {
    if i <= j then j - i else n - i + j
  }

  lemma DistanceAt<P>(s: Sys<P>, i: nat, j: nat)
    requires Distinct(s.run) && i < |s.run| && j < |s.run| && s.cur == s.run[i]
    ensures Distance(s, s.run[j]) == Gap(i, j, |s.run|)
  {
    IndexUnique(s.run, i);
    IndexUnique(s.run, j);
  }

  /** A switch brings every other runnable process exactly one place nearer, and keeps it runnable. */
  lemma SwitchDistance<P>(s: Sys<P>, e: Event<P>, p: P)
    requires Inv(s) && Switches(e) && p in s.run && p != s.cur
    ensures Inv(Step(s, e)) && p in Step(s, e).run
    ensures Distance(Step(s, e), p) == Distance(s, p) - 1
  {
    hide Distance, IndexIn, Without, Inv, Distinct;
    RunDistinct(s);
    StepKeepsInv(s, e);
    MoreThanOne(s.run, p, s.cur);
    RunDistinct(Step(s, e));
    if e.Yield? {
      YieldDistance(s, p);
    } else {
      LeaveDistance(s, Step(s, e), p);
    }
  }

  lemma RunDistinct<P>(s: Sys<P>)
    requires Inv(s)
    ensures Distinct(s.run) && s.cur in s.run
  {
    DistinctParts(s.run, s.sleep);
  }

  lemma MoreThanOne<P>(s: seq<P>, x: P, y: P)
    requires x in s && y in s && x != y
    ensures |s| > 1
  {
  }

  lemma YieldDistance<P>(s: Sys<P>, p: P)
    requires Distinct(s.run) && s.cur in s.run && p in s.run && p != s.cur
    ensures Distance(s.(cur := Successor(s.run, s.cur)), p) == Distance(s, p) - 1
  {
    hide Distinct;
    var i, j := IndexIn(s.run, s.cur), IndexIn(s.run, p);
    DistanceAt(s.(cur := Successor(s.run, s.cur)), if i == |s.run| - 1 then 0 else i + 1, j);
  }

  /** The queue without the outgoing process, and its successor at the head of the wait. */
  lemma LeaveDistance<P>(s: Sys<P>, t: Sys<P>, p: P)
    requires Distinct(s.run) && s.cur in s.run && p in s.run && p != s.cur
    requires t.run == Without(s.run, s.cur) && Distinct(t.run) && t.cur == Successor(s.run, s.cur)
    ensures t.cur in t.run && p in t.run && Distance(t, p) == Distance(s, p) - 1
  {
    hide Distinct, Removed;
    var i, j := IndexIn(s.run, s.cur), IndexIn(s.run, p);
    var i' := if i == |s.run| - 1 then 0 else i + 1;
    RemovedAt(s.run, i, j);
    RemovedAt(s.run, i, i');
    DistanceAt(t, if i' < i then i' else i' - 1, if j < i then j else j - 1);
  }

  lemma RemovedAt<P>(s: seq<P>, i: nat, j: nat)
    requires i < |s| && j < |s| && i != j
    ensures var k := if j < i then j else j - 1; k < |Removed(s, i)| && Removed(s, i)[k] == s[j]
  {
  }

  /** What creating or waking does to the run queue: one more at the end, or one more in front. */
  lemma InsertionFacts<P>(s: Sys<P>, e: Event<P>, k: nat)
    requires Inv(s) && Enabled(s, e) && !Switches(e) && k < |s.run|
    ensures var t := Step(s, e);
            && Inv(t) && Distinct(s.run) && Distinct(t.run) && t.cur == s.cur && |t.run| == |s.run| + 1
            && t.run[if e.Wake? then k + 1 else k] == s.run[k]
  {
    StepKeepsInv(s, e);
    DistinctParts(s.run, s.sleep);
    DistinctParts(Step(s, e).run, Step(s, e).sleep);
  }

  lemma ShiftedDistance<P>(s: Sys<P>, t: Sys<P>, i: nat, j: nat, shift: nat)
    requires Distinct(s.run) && Distinct(t.run) && |t.run| == |s.run| + 1 && shift <= 1
    requires i < |s.run| && j < |s.run| && s.cur == s.run[i] == t.cur == t.run[i + shift]
    requires t.run[j + shift] == s.run[j]
    ensures Distance(s, s.run[j]) <= Distance(t, s.run[j]) <= Distance(s, s.run[j]) + 1
  {
    hide Distance, Distinct;
    DistanceAt(s, i, j);
    DistanceAt(t, i + shift, j + shift);
  }

  /** Creating or waking a process puts at most one place between the CPU and a waiting process. */
  lemma InsertionDistance<P>(s: Sys<P>, e: Event<P>, p: P)
    requires Inv(s) && Enabled(s, e) && !Switches(e) && p in s.run
    ensures Inv(Step(s, e)) && p in Step(s, e).run
    ensures Distance(s, p) <= Distance(Step(s, e), p) <= Distance(s, p) + 1
  {
    hide Distance, Step, Distinct;
    var i :| 0 <= i < |s.run| && s.run[i] == s.cur;
    var j :| 0 <= j < |s.run| && s.run[j] == p;
    InsertionFacts(s, e, i);
    InsertionFacts(s, e, j);
    ShiftedDistance(s, Step(s, e), i, j, if e.Wake? then 1 else 0);
  }

  /** A run that the system can perform: each event enabled, never the last runnable process leaving. */
  ghost predicate Feasible<P>(s: Sys<P>, es: seq<Event<P>>)
    requires Inv(s)
    decreases |es|
  {
    es == [] || (&& Enabled(s, es[0])
                 && (Leaves(es[0]) ==> |s.run| > 1)
                 && (StepKeepsInv(s, es[0]); Feasible(Step(s, es[0]), es[1..])))
  }

  /** The state after a feasible run. */
  ghost function After<P>(s: Sys<P>, es: seq<Event<P>>): (t: Sys<P>)
    requires Inv(s) && Feasible(s, es)
    ensures Inv(t)
    decreases |es|
  {
    if es == [] then s else
      StepKeepsInv(s, es[0]);
      After(Step(s, es[0]), es[1..])
  }

  function CountSwitches<P>(es: seq<Event<P>>): nat {
    if es == [] then 0 else CountSwitches(es[1..]) + if Switches(es[0]) then 1 else 0
  }

  function CountInsertions<P>(es: seq<Event<P>>): nat {
    if es == [] then 0 else CountInsertions(es[1..]) + if Switches(es[0]) then 0 else 1
  }

  /** Every event either switches or inserts. */
  lemma {:induction false} EventsCounted<P>(es: seq<Event<P>>)
    ensures CountSwitches(es) + CountInsertions(es) == |es|
  {
    if es != [] { EventsCounted(es[1..]); }
  }

  /** `p` has the CPU in some state of the run. */
  ghost predicate GetsCpu<P>(s: Sys<P>, es: seq<Event<P>>, p: P)
    requires Inv(s) && Feasible(s, es)
    decreases |es|
  {
    p == s.cur || (es != [] && (StepKeepsInv(s, es[0]); GetsCpu(Step(s, es[0]), es[1..], p)))
  }

  /** The account of who should be alive: created processes come in, the current process of each exit goes out. */
  ghost function Ledger<P>(s: Sys<P>, es: seq<Event<P>>, alive: set<P>): set<P>
    requires Inv(s) && Feasible(s, es)
    decreases |es|
  {
    if es == [] then alive
    else
      StepKeepsInv(s, es[0]);
      Ledger(Step(s, es[0]), es[1..],
             match es[0]
             case Create(p) => alive + {p}
             case Exit => alive - {s.cur}
             case Yield => alive
             case Sleep => alive
             case Wake(_) => alive)
  }

  /** Over every run the processes on the two queues are exactly those of the account. */
  lemma {:induction false} RunAlive<P>(s: Sys<P>, es: seq<Event<P>>)
    requires Inv(s) && Feasible(s, es)
    ensures Alive(After(s, es)) == Ledger(s, es, Alive(s))
    decreases |es|
  {
    hide Alive, Step;
    if es != [] {
      StepKeepsInv(s, es[0]);
      StepAlive(s, es[0]);
      RunAlive(Step(s, es[0]), es[1..]);
    }
  }

  /**
   Every run keeps both queues sound: each process on at most one of them and once, the current one runnable, and
   together on them exactly the processes that were created and have not exited.
   */
  lemma RunSafety<P>(s: Sys<P>, es: seq<Event<P>>)
    requires Inv(s) && Feasible(s, es)
    ensures Inv(After(s, es))
    ensures Distinct(After(s, es).run) && Distinct(After(s, es).sleep)
    ensures forall p :: p in After(s, es).run ==> p !in After(s, es).sleep
    ensures forall p :: p in Ledger(s, es, Alive(s)) <==> p in After(s, es).run || p in After(s, es).sleep
  {
    hide Inv, After, Ledger;
    RunAlive(s, es);
    QueuesDistinct(After(s, es));
  }

  lemma QueuesDistinct<P>(s: Sys<P>)
    requires Inv(s)
    ensures Distinct(s.run) && Distinct(s.sleep) && forall p :: p in s.run ==> p !in s.sleep
  {
    DistinctParts(s.run, s.sleep);
  }

  /**
   Bounded waiting: a runnable process gets the CPU within as many switches as its distance plus the
   number of processes created or woken meanwhile.
   */
  lemma {:induction false} BoundedWaiting<P>(s: Sys<P>, es: seq<Event<P>>, p: P)
    requires Inv(s) && Feasible(s, es) && p in s.run
    requires CountSwitches(es) >= Distance(s, p) + CountInsertions(es)
    ensures GetsCpu(s, es, p)
    decreases |es|
  {
    if p != s.cur {
      assert es != [];
      StepKeepsInv(s, es[0]);
      if Switches(es[0]) {
        SwitchDistance(s, es[0], p);
      } else {
        InsertionDistance(s, es[0], p);
      }
      BoundedWaiting(Step(s, es[0]), es[1..], p);
    }
  }

  /** In particular within one round of the run queue, and two more events for each process created or woken. */
  lemma OneRound<P>(s: Sys<P>, es: seq<Event<P>>, p: P)
    requires Inv(s) && Feasible(s, es) && p in s.run
    requires |es| >= |s.run| - 1 + 2 * CountInsertions(es)
    ensures GetsCpu(s, es, p)
  {
    EventsCounted(es);
    BoundedWaiting(s, es, p);
  }
}

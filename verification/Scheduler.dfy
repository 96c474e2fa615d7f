/** src/scheluding/scheluder.c: the round-robin choice of the next task. */
module Scheduler {
  import opened Context

  datatype ProcessStatus = READY | RUNNING | DEAD

  datatype Tasks = Tasks(contexts: seq<Word>, statuses: seq<ProcessStatus>, current: nat) {
    predicate Valid() {
      |contexts| == |statuses| && current < |contexts|
    }
  }

  // One call of schelude.
  function Scheduled(t: Tasks, context: Word): (r: Tasks)
    requires t.Valid()
    ensures r.Valid() && |r.contexts| == |t.contexts|
  {
    var next := (t.current + 1) % |t.contexts|;
    Tasks(t.contexts[t.current := context], t.statuses[t.current := READY][next := RUNNING], next)
  }

  function Schedules(t: Tasks, contexts: seq<Word>): (r: Tasks)
    requires t.Valid()
    ensures r.Valid() && |r.contexts| == |t.contexts|
    decreases |contexts|
  {
    if contexts == [] then t else Schedules(Scheduled(t, contexts[0]), contexts[1..])
  }

  // ---------------------------------------------------------------------------------------------
  // Whose turn it is

  // The task whose turn it is k calls after it was the turn of c.
  function Turn(c: nat, k: nat, n: nat): (i: nat)
    requires c < n
    ensures i < n
  {
    (c + k) % n
  }

  lemma Remainder(x: nat, n: nat, q: nat, r: nat)
    requires x == q * n + r && r < n
    ensures x % n == r
  {
    var d := x / n - q;
    assert d * n == r - x % n;
    if d >= 1 {
      AtLeast(d, n);
    } else if d <= -1 {
      AtLeast(-d, n);
    }
  }

  lemma AtLeast(d: int, n: nat)
    requires 1 <= d
    ensures n <= d * n && -d * n == -(d * n)
  {
  }

  lemma Next(c: nat, n: nat)
    requires c < n
    ensures (c + 1) % n == if c + 1 == n then 0 else c + 1
  {
  }

  lemma TurnIs(c: nat, k: nat, n: nat)
    requires c < n && k <= n
    ensures Turn(c, k, n) == if c + k < n then c + k else c + k - n
  {
    if c + k < n {
      Remainder(c + k, n, 0, c + k);
    } else {
      Remainder(c + k, n, 1, c + k - n);
    }
  }

  lemma TurnStep(c: nat, k: nat, n: nat)
    requires c < n && 0 < k
    ensures Turn((c + 1) % n, k - 1, n) == Turn(c, k, n)
  {
    Next(c, n);
    if c + 1 == n {
      var x := k - 1;
      assert x + n == (x / n + 1) * n + x % n;
      Remainder(x + n, n, x / n + 1, x % n);
    }
  }

  // After k calls it is the turn of the task k places on, counted around.
  lemma {:induction false} TurnAfter(t: Tasks, contexts: seq<Word>)
    requires t.Valid()
    ensures Schedules(t, contexts).current == (t.current + |contexts|) % |t.contexts|
    decreases |contexts|
  {
    if contexts == [] {
      Remainder(t.current, |t.contexts|, 0, t.current);
    } else {
      TurnAfter(Scheduled(t, contexts[0]), contexts[1..]);
      TurnStep(t.current, |contexts|, |t.contexts|);
    }
  }

  // Any n calls in a row select each of the n tasks exactly once, and the last one brings the turn
  // back to where it was.
  lemma EachTaskOnce(c: nat, n: nat, i: nat)
    requires c < n && i < n
    ensures exists k :: 1 <= k <= n && Turn(c, k, n) == i
    ensures forall k, k' :: 1 <= k <= n && 1 <= k' <= n && Turn(c, k, n) == i && Turn(c, k', n) == i ==> k == k'
    ensures Turn(c, n, n) == c
  {
    forall k: nat | k <= n
      ensures Turn(c, k, n) == if c + k < n then c + k else c + k - n
    {
      TurnIs(c, k, n);
    }
    var k := if c < i then i - c else i - c + n;
    assert Turn(c, k, n) == i;
  }

  // ---------------------------------------------------------------------------------------------
  // Statuses

  // How many calls ago it was the turn of i.
  function Ago(i: nat, current: nat, n: nat): nat
    requires i < n && current < n
  {
    if i <= current then current - i else current - i + n
  }

  // Every task whose turn was at most k calls ago has the status that its turn left it with.
  predicate Settled(t: Tasks, k: nat)
    requires t.Valid()
  {
    forall i :: 0 <= i < |t.contexts| && Ago(i, t.current, |t.contexts|) <= k
      ==> t.statuses[i] == if i == t.current then RUNNING else READY
  }

  lemma FirstCallSettles(t: Tasks, context: Word)
    requires t.Valid()
    ensures Settled(Scheduled(t, context), 1)
  {
    Next(t.current, |t.contexts|);
  }

  lemma CallSettles(t: Tasks, context: Word, k: nat)
    requires t.Valid() && Settled(t, k)
    ensures Settled(Scheduled(t, context), k + 1)
  {
    Next(t.current, |t.contexts|);
  }

  lemma {:induction false} CallsSettle(t: Tasks, contexts: seq<Word>, k: nat)
    requires t.Valid() && Settled(t, k)
    ensures Settled(Schedules(t, contexts), k + |contexts|)
    decreases |contexts|
  {
    if contexts != [] {
      CallSettles(t, contexts[0], k);
      CallsSettle(Scheduled(t, contexts[0]), contexts[1..], k + 1);
    }
  }

  // Whatever the statuses were, from the (n - 1)-th call on exactly the current task is RUNNING and all
  // others are READY.
  lemma OneTaskRuns(t: Tasks, contexts: seq<Word>, i: nat)
    requires t.Valid() && contexts != [] && |t.contexts| - 1 <= |contexts| && i < |t.contexts|
    ensures var r := Schedules(t, contexts);
            r.statuses[i] == if i == r.current then RUNNING else READY
  {
    FirstCallSettles(t, contexts[0]);
    CallsSettle(Scheduled(t, contexts[0]), contexts[1..], 1);
  }

  // With fewer calls there is always a task whose status is what it was before: the one whose turn would
  // come last.
  lemma FewerCallsAreNotEnough(t: Tasks, contexts: seq<Word>)
    requires t.Valid() && |contexts| + 1 < |t.contexts|
    ensures var last := Turn(t.current, |t.contexts| - 1, |t.contexts|);
            Schedules(t, contexts).statuses[last] == t.statuses[last]
  {
    StatusSurvives(t, contexts, |t.contexts| - 1);
  }

  lemma {:induction false} StatusSurvives(t: Tasks, contexts: seq<Word>, j: nat)
    requires t.Valid() && |contexts| < j < |t.contexts|
    ensures var i := Turn(t.current, j, |t.contexts|); Schedules(t, contexts).statuses[i] == t.statuses[i]
    decreases |contexts|
  {
    if contexts != [] {
      TurnIs(t.current, j, |t.contexts|);
      Next(t.current, |t.contexts|);
      TurnStep(t.current, j, |t.contexts|);
      StatusSurvives(Scheduled(t, contexts[0]), contexts[1..], j - 1);
    }
  }

  // ---------------------------------------------------------------------------------------------
  // The scheduler

  class Process {
    var processStatus: ProcessStatus
    var context: Word

    constructor (status: ProcessStatus, context: Word)
      ensures processStatus == status && this.context == context
    {
      processStatus, this.context := status, context;
    }
  }

  class RoundRobin {
    var snapshots: seq<Process>    // the populated slots
    var currentTask: nat

    ghost predicate Valid()
      reads this
    {
      && currentTask < |snapshots|
      && forall i, j :: 0 <= i < j < |snapshots| ==> snapshots[i] != snapshots[j]
    }

    ghost function View(): (t: Tasks)
      reads this, snapshots
      ensures |t.contexts| == |t.statuses| == |snapshots| && t.current == currentTask
      ensures forall i :: 0 <= i < |snapshots| ==>
                t.contexts[i] == snapshots[i].context && t.statuses[i] == snapshots[i].processStatus
    {
      Tasks(seq(|snapshots|, i requires 0 <= i < |snapshots| reads this, snapshots => snapshots[i].context),
            seq(|snapshots|, i requires 0 <= i < |snapshots| reads this, snapshots => snapshots[i].processStatus),
            currentTask)
    }

    constructor (processes: seq<Process>)
      requires processes != [] && forall i, j :: 0 <= i < j < |processes| ==> processes[i] != processes[j]
      ensures Valid() && snapshots == processes && currentTask == 0
    {
      snapshots, currentTask := processes, 0;
    }

    method Schelude(curStatus: Word) returns (next: Word)
      requires Valid()
      modifies this`currentTask, snapshots
      ensures Valid() && snapshots == old(snapshots)
      ensures View() == Scheduled(old(View()), curStatus)
      ensures next == View().contexts[View().current]
    {
      ghost var t := View();
      snapshots[currentTask].context := curStatus;
      snapshots[currentTask].processStatus := READY;

      currentTask := currentTask + 1;
      currentTask := currentTask % |snapshots|;

      snapshots[currentTask].processStatus := RUNNING;
      next := snapshots[currentTask].context;
      assert View().contexts == Scheduled(t, curStatus).contexts;
      assert View().statuses == Scheduled(t, curStatus).statuses;
    }
  }
}

/** Duplicate-call suppression (package singleflight) as a system of atomic steps
    of unboundedly many callers.

    Each call of Do is an invocation.  It takes the mutex once to look the key up
    (Enter); the leader then runs the function (Return), takes the mutex again to
    finish the call (Complete) and reads the result (Exit); a joiner waits for the
    call to be finished and reads the result (Exit).  The result stands for the
    pair of value and error. */
module SingleFlight {
  import opened Common

  datatype Phase<V> =
    | Leading(call: nat)
    | Returned(call: nat)
    | Completed(call: nat)
    | Waiting(call: nat)
    | Done(call: nat, leader: bool, result: V, shared: bool)

  datatype Call<K, V> = Call(key: K, result: Option<V>, done: bool, dups: nat)

  /** The map of the group, all calls ever made, and the invocations so far. */
  datatype State<K, V> = State(m: map<K, nat>, calls: seq<Call<K, V>>, inv: map<nat, Phase<V>>)

  datatype Step<K, V> = Enter(i: nat, key: K) | Return(i: nat, result: V) | Complete(i: nat) | Exit(i: nat)

  predicate Leads<V>(p: Phase<V>) {
    p.Leading? || p.Returned? || p.Completed? || (p.Done? && p.leader)
  }

  /** The function of this invocation's call has not been accounted for yet. */
  predicate Executing<V>(p: Phase<V>) {
    p.Leading? || p.Returned?
  }

  /** Entering is always possible; its clause only says that the map points to calls. */
  predicate Enabled<K, V>(s: State<K, V>, step: Step<K, V>) {
    match step
    case Enter(i, key) => i !in s.inv && (key in s.m ==> s.m[key] < |s.calls|)
    case Return(i, r) => i in s.inv && s.inv[i].Leading? && s.inv[i].call < |s.calls|
    case Complete(i) => i in s.inv && s.inv[i].Returned? && s.inv[i].call < |s.calls|
    case Exit(i) =>
      && i in s.inv && s.inv[i].call < |s.calls| && s.calls[s.inv[i].call].result.Some?
      && (s.inv[i].Completed? || (s.inv[i].Waiting? && s.calls[s.inv[i].call].done))
  }

  function Apply<K, V>(s: State<K, V>, step: Step<K, V>): State<K, V>
    requires Enabled(s, step)
  {
    match step
    case Enter(i, key) =>
      if key in s.m then
        var c := s.m[key];
        s.(calls := s.calls[c := s.calls[c].(dups := s.calls[c].dups + 1)], inv := s.inv[i := Waiting(c)])
      else
        var c := |s.calls|;
        State(s.m[key := c], s.calls + [Call(key, None, false, 0)], s.inv[i := Leading(c)])
    case Return(i, r) =>
      var c := s.inv[i].call;
      s.(calls := s.calls[c := s.calls[c].(result := Some(r))], inv := s.inv[i := Returned(c)])
    case Complete(i) =>
      var c := s.inv[i].call;
      var key := s.calls[c].key;
      State(if key in s.m && s.m[key] == c then s.m - {key} else s.m,
            s.calls[c := s.calls[c].(done := true)],
            s.inv[i := Completed(c)])
    case Exit(i) =>
      var c := s.inv[i].call;
      s.(inv := s.inv[i := Done(c, s.inv[i].Completed?, s.calls[c].result.value,
                                s.inv[i].Waiting? || s.calls[c].dups > 0)])
  }

  // ----- the invariant

  function Participants<K, V>(s: State<K, V>, c: nat): set<nat> {
    set i | i in s.inv && s.inv[i].call == c
  }

  /** The map points exactly to the unfinished calls. */
  ghost predicate MapOk<K, V>(s: State<K, V>) {
    && (forall k :: k in s.m ==> s.m[k] < |s.calls| && s.calls[s.m[k]].key == k && !s.calls[s.m[k]].done)
    && (forall c :: 0 <= c < |s.calls| && !s.calls[c].done ==> s.calls[c].key in s.m && s.m[s.calls[c].key] == c)
  }

  /** An invocation agrees with its call. */
  ghost predicate PhaseOk<K, V>(s: State<K, V>, i: nat)
    requires i in s.inv
  {
    var p := s.inv[i];
    && p.call < |s.calls|
    && var c := s.calls[p.call];
    && (p.Leading? ==> !c.done && c.result.None?)
    && (p.Returned? ==> !c.done && c.result.Some?)
    && (p.Completed? ==> c.done)
    && (p.Done? ==> c.done && c.result == Some(p.result) && p.shared == (c.dups > 0))
    && (p.Waiting? ==> c.dups > 0)
  }

  ghost predicate PhasesOk<K, V>(s: State<K, V>) {
    forall i :: i in s.inv ==> PhaseOk(s, i)
  }

  /** Every call has at most one leader. */
  ghost predicate LeadersOk<K, V>(s: State<K, V>) {
    forall i, j :: i in s.inv && j in s.inv && i != j && Leads(s.inv[i]) && Leads(s.inv[j]) ==>
      s.inv[i].call != s.inv[j].call
  }

  /** A call counts its participants other than the leader. */
  ghost predicate CountsOk<K, V>(s: State<K, V>) {
    forall c :: 0 <= c < |s.calls| ==> |Participants(s, c)| == 1 + s.calls[c].dups
  }

  ghost predicate ResultsOk<K, V>(s: State<K, V>) {
    forall c :: 0 <= c < |s.calls| && s.calls[c].done ==> s.calls[c].result.Some?
  }

  ghost predicate Inv<K, V>(s: State<K, V>) {
    MapOk(s) && PhasesOk(s) && LeadersOk(s) && CountsOk(s) && ResultsOk(s)
  }

  function Initial<K, V>(): State<K, V> {
    State(map[], [], map[])
  }

  // ----- one step keeps the invariant

  /** What a step does to the invocations: it touches only its own. */
  lemma OwnInvocation<K, V>(s: State<K, V>, step: Step<K, V>)
    requires Enabled(s, step)
    ensures
      var s' := Apply(s, step);
      && s'.inv.Keys == s.inv.Keys + {step.i}
      && (forall j :: j in s.inv && j != step.i ==> s'.inv[j] == s.inv[j])
      && (step.i in s.inv ==> s'.inv[step.i].call == s.inv[step.i].call)
      && |s.calls| <= |s'.calls|
  {
  }

  /** A step that changes neither the map nor the keys and ends of calls. */
  lemma MapKept<K, V>(s: State<K, V>, s': State<K, V>)
    requires MapOk(s) && s'.m == s.m && |s'.calls| == |s.calls|
    requires forall c :: 0 <= c < |s.calls| ==> s'.calls[c].key == s.calls[c].key && s'.calls[c].done == s.calls[c].done
    ensures MapOk(s')
  {
  }

  lemma StepMap<K, V>(s: State<K, V>, step: Step<K, V>)
    requires Enabled(s, step) && MapOk(s) && PhasesOk(s)
    ensures MapOk(Apply(s, step))
  {
    if !step.Enter? {
      assert PhaseOk(s, step.i);
    }
    hide PhasesOk, PhaseOk;
    if step.Return? || step.Exit? || (step.Enter? && step.key in s.m) {
      hide MapOk;
      MapKept(s, Apply(s, step));
    }
  }

  lemma StepResults<K, V>(s: State<K, V>, step: Step<K, V>)
    requires Enabled(s, step) && PhasesOk(s) && ResultsOk(s)
    ensures ResultsOk(Apply(s, step))
  {
    if !step.Enter? {
      assert PhaseOk(s, step.i);
    }
  }

  lemma StepLeaders<K, V>(s: State<K, V>, step: Step<K, V>)
    requires Enabled(s, step) && PhasesOk(s) && LeadersOk(s)
    ensures LeadersOk(Apply(s, step))
  {
    var s' := Apply(s, step);
    OwnInvocation(s, step);
    forall i, j | i in s'.inv && j in s'.inv && i != j && Leads(s'.inv[i]) && Leads(s'.inv[j])
      ensures s'.inv[i].call != s'.inv[j].call
    {
      assert i in s.inv ==> PhaseOk(s, i);
      assert j in s.inv ==> PhaseOk(s, j);
    }
  }

  lemma StepPhase<K, V>(s: State<K, V>, step: Step<K, V>, j: nat)
    requires Enabled(s, step) && MapOk(s) && LeadersOk(s) && PhasesOk(s) && j in Apply(s, step).inv
    ensures PhaseOk(Apply(s, step), j)
  {
    assert j in s.inv ==> PhaseOk(s, j);
    assert step.i in s.inv ==> PhaseOk(s, step.i);
  }

  lemma StepPhases<K, V>(s: State<K, V>, step: Step<K, V>)
    requires Enabled(s, step) && MapOk(s) && LeadersOk(s) && PhasesOk(s)
    ensures PhasesOk(Apply(s, step))
  {
    hide Apply, Enabled, MapOk, LeadersOk, PhaseOk;
    var s' := Apply(s, step);
    forall j | j in s'.inv ensures PhaseOk(s', j) {
      StepPhase(s, step, j);
    }
  }

  lemma OneMore(before: set<nat>, after: set<nat>, i: nat)
    requires i !in before && after == before + {i}
    ensures |after| == |before| + 1
  {
  }

  lemma ParticipantsAdded<K, V>(s: State<K, V>, s': State<K, V>, i: nat, c: nat)
    requires i !in s.inv && s'.inv.Keys == s.inv.Keys + {i}
    requires forall j :: j in s.inv ==> s'.inv[j] == s.inv[j]
    ensures Participants(s', c) == Participants(s, c) + if s'.inv[i].call == c then {i} else {}
    ensures |Participants(s', c)| == |Participants(s, c)| + if s'.inv[i].call == c then 1 else 0
  {
    var before, after := Participants(s, c), Participants(s', c);
    assert forall j :: j in s'.inv <==> j in s'.inv.Keys;
    assert i !in before;
    if s'.inv[i].call == c {
      assert after == before + {i};
      OneMore(before, after, i);
    } else {
      assert after == before;
    }
  }

  lemma ParticipantsKept<K, V>(s: State<K, V>, s': State<K, V>, i: nat, c: nat)
    requires i in s.inv && s'.inv.Keys == s.inv.Keys && s'.inv[i].call == s.inv[i].call
    requires forall j :: j in s.inv && j != i ==> s'.inv[j] == s.inv[j]
    ensures Participants(s', c) == Participants(s, c)
  {
  }

  lemma NoParticipants<K, V>(s: State<K, V>)
    requires PhasesOk(s)
    ensures Participants(s, |s.calls|) == {}
  {
  }

  /** A caller that enters is counted by the call it takes part in. */
  lemma StepDups<K, V>(s: State<K, V>, step: Step<K, V>, c: nat)
    requires Enabled(s, step) && c < |Apply(s, step).calls|
    ensures
      var s' := Apply(s, step);
      && c <= |s.calls|
      && 1 + s'.calls[c].dups ==
         (if c < |s.calls| then 1 + s.calls[c].dups else 0) +
         (if step.Enter? && s'.inv[step.i].call == c then 1 else 0)
  {
  }

  /** The number of participants moves with the counter of joiners. */
  lemma StepCount<K, V>(s: State<K, V>, step: Step<K, V>, c: nat)
    requires Enabled(s, step) && PhasesOk(s) && CountsOk(s) && c < |Apply(s, step).calls|
    ensures |Participants(Apply(s, step), c)| == 1 + Apply(s, step).calls[c].dups
  {
    var s' := Apply(s, step);
    assert step.Enter? <==> step.i !in s.inv;
    hide PhasesOk, Participants, Apply, Enabled;
    OwnInvocation(s, step);
    NoParticipants(s);
    StepDups(s, step, c);
    if step.Enter? {
      ParticipantsAdded(s, s', step.i, c);
    } else {
      assert s'.inv.Keys == s.inv.Keys;
      ParticipantsKept(s, s', step.i, c);
    }
  }

  lemma StepCounts<K, V>(s: State<K, V>, step: Step<K, V>)
    requires Enabled(s, step) && PhasesOk(s) && CountsOk(s)
    ensures CountsOk(Apply(s, step))
  {
    hide Apply, Enabled, PhasesOk, Participants;
    var s' := Apply(s, step);
    forall c | 0 <= c < |s'.calls| ensures |Participants(s', c)| == 1 + s'.calls[c].dups {
      StepCount(s, step, c);
    }
  }

  /** Every step keeps the invariant. */
  lemma StepInv<K, V>(s: State<K, V>, step: Step<K, V>)
    requires Inv(s) && Enabled(s, step)
    ensures Inv(Apply(s, step))
  {
    hide Apply, Enabled, MapOk, PhasesOk, LeadersOk, CountsOk, ResultsOk;
    StepMap(s, step);
    StepPhases(s, step);
    StepLeaders(s, step);
    StepCounts(s, step);
    StepResults(s, step);
  }

  // ----- all runs

  ghost predicate Runs<K, V>(steps: seq<Step<K, V>>)
    decreases |steps|, 0
  {
    steps != [] ==> Runs(steps[..|steps| - 1]) && Enabled(After(steps[..|steps| - 1]), steps[|steps| - 1])
  }

  ghost function After<K, V>(steps: seq<Step<K, V>>): State<K, V>
    requires Runs(steps)
    decreases |steps|, 1
  {
    if steps == [] then Initial() else Apply(After(steps[..|steps| - 1]), steps[|steps| - 1])
  }

  lemma {:induction false} AfterInv<K, V>(steps: seq<Step<K, V>>)
    requires Runs(steps)
    ensures Inv(After(steps))
    decreases |steps|
  {
    hide Apply, Enabled, PhaseOk;
    if steps == [] {
    } else {
      hide Inv;
      AfterInv(steps[..|steps| - 1]);
      StepInv(After(steps[..|steps| - 1]), steps[|steps| - 1]);
    }
  }

  /** A caller can always enter. */
  lemma EnterEnabled<K, V>(steps: seq<Step<K, V>>, i: nat, key: K)
    requires Runs(steps) && i !in After(steps).inv
    ensures Enabled(After(steps), Enter(i, key))
  {
    hide PhaseOk, Participants;
    AfterInv(steps);
  }

  /** In every reachable state at most one execution per key is in flight. */
  lemma OneFlightPerKey<K, V>(steps: seq<Step<K, V>>, i: nat, j: nat)
    requires Runs(steps)
    requires
      var s := After(steps);
      && i in s.inv && j in s.inv && Executing(s.inv[i]) && Executing(s.inv[j])
      && s.inv[i].call < |s.calls| && s.inv[j].call < |s.calls|
      && s.calls[s.inv[i].call].key == s.calls[s.inv[j].call].key
    ensures i == j
  {
    hide Runs, After, Participants;
    AfterInv(steps);
    var s := After(steps);
    assert PhaseOk(s, i) && PhaseOk(s, j);
  }

  /** The step number n ran the function of call c. */
  ghost predicate Execution<K, V>(steps: seq<Step<K, V>>, s: State<K, V>, c: nat, n: nat) {
    && n < |steps| && steps[n].Return? && steps[n].i in s.inv && s.inv[steps[n].i].call == c
  }

  ghost predicate AllEntered<K, V>(steps: seq<Step<K, V>>, s: State<K, V>) {
    forall n :: 0 <= n < |steps| ==> steps[n].i in s.inv
  }

  /** An execution gave its call the result. */
  ghost predicate ExecutionsCount<K, V>(steps: seq<Step<K, V>>, s: State<K, V>) {
    forall c: nat, n: nat :: Execution(steps, s, c, n) ==>
      c < |s.calls| && s.calls[c].result == Some(steps[n].result)
  }

  ghost predicate ResultsExecuted<K, V>(steps: seq<Step<K, V>>, s: State<K, V>) {
    forall c :: 0 <= c < |s.calls| && s.calls[c].result.Some? ==> exists n :: Execution(steps, s, c, n)
  }

  ghost predicate ExecutedOnce<K, V>(steps: seq<Step<K, V>>, s: State<K, V>) {
    forall c: nat, n: nat, k: nat :: Execution(steps, s, c, n) && Execution(steps, s, c, k) ==> n == k
  }

  /** A call has a result exactly when a step of the run produced it, and it was the
      only step that ran the function of this call. */
  ghost predicate Traced<K, V>(steps: seq<Step<K, V>>, s: State<K, V>) {
    AllEntered(steps, s) && ExecutionsCount(steps, s) && ResultsExecuted(steps, s) && ExecutedOnce(steps, s)
  }

  /** Older steps ran for the same calls as before; the new step only if it returns. */
  lemma ExecutionStep<K, V>(steps: seq<Step<K, V>>, s: State<K, V>, step: Step<K, V>, c: nat, n: nat)
    requires Enabled(s, step) && forall k :: 0 <= k < |steps| ==> steps[k].i in s.inv
    ensures
      Execution(steps + [step], Apply(s, step), c, n) <==>
      Execution(steps, s, c, n) || (n == |steps| && step.Return? && s.inv[step.i].call == c)
  {
    OwnInvocation(s, step);
    assert n < |steps| ==> (steps + [step])[n] == steps[n];
  }

  /** A step changes the result of a call only by returning for it. */
  lemma ResultStep<K, V>(s: State<K, V>, step: Step<K, V>, c: nat)
    requires Enabled(s, step) && Inv(s) && c < |Apply(s, step).calls|
    ensures
      && Apply(s, step).calls[c].result ==
         (if step.Return? && s.inv[step.i].call == c then Some(step.result)
          else if c < |s.calls| then s.calls[c].result else None)
    ensures step.Return? && s.inv[step.i].call == c ==> c < |s.calls| && s.calls[c].result.None?
  {
    hide Participants;
    if step.Return? {
      assert PhaseOk(s, step.i);
    }
  }

  lemma AllEnteredStep<K, V>(steps: seq<Step<K, V>>, s: State<K, V>, step: Step<K, V>)
    requires Enabled(s, step) && AllEntered(steps, s)
    ensures AllEntered(steps + [step], Apply(s, step))
  {
    var s', steps' := Apply(s, step), steps + [step];
    OwnInvocation(s, step);
    hide Apply, Enabled;
    forall n | 0 <= n < |steps'| ensures steps'[n].i in s'.inv {
      assert n < |steps| ==> steps'[n] == steps[n];
    }
  }

  lemma ExecutionsCountStep<K, V>(steps: seq<Step<K, V>>, s: State<K, V>, step: Step<K, V>)
    requires Enabled(s, step) && Inv(s) && Traced(steps, s)
    ensures ExecutionsCount(steps + [step], Apply(s, step))
  {
    hide Apply, Enabled, Inv, Traced;
    var s', steps' := Apply(s, step), steps + [step];
    TracedEntered(steps, s);
    forall c: nat, n: nat | Execution(steps', s', c, n)
      ensures c < |s'.calls| && s'.calls[c].result == Some(steps'[n].result)
    {
      ExecutionStep(steps, s, step, c, n);
      ExecutionResult(steps, s, step, c, n);
    }
  }

  lemma TracedEntered<K, V>(steps: seq<Step<K, V>>, s: State<K, V>)
    requires Traced(steps, s)
    ensures AllEntered(steps, s)
  {
  }

  lemma ResultExecutedStep<K, V>(steps: seq<Step<K, V>>, s: State<K, V>, step: Step<K, V>, c: nat) returns (n: nat)
    requires Enabled(s, step) && Inv(s) && AllEntered(steps, s) && ResultsExecuted(steps, s)
    requires c < |Apply(s, step).calls| && Apply(s, step).calls[c].result.Some?
    ensures Execution(steps + [step], Apply(s, step), c, n)
  {
    assert step.Return? ==> step.i in s.inv;
    hide Apply, Enabled, Inv, Execution;
    ResultStep(s, step, c);
    if step.Return? && s.inv[step.i].call == c {
      n := |steps|;
    } else {
      n :| Execution(steps, s, c, n);
    }
    ExecutionStep(steps, s, step, c, n);
  }

  lemma ResultsExecutedStep<K, V>(steps: seq<Step<K, V>>, s: State<K, V>, step: Step<K, V>)
    requires Enabled(s, step) && Inv(s) && AllEntered(steps, s) && ResultsExecuted(steps, s)
    ensures ResultsExecuted(steps + [step], Apply(s, step))
  {
    var s', steps' := Apply(s, step), steps + [step];
    forall c | 0 <= c < |s'.calls| && s'.calls[c].result.Some?
      ensures exists n :: Execution(steps', s', c, n)
    {
      hide *;
      var n := ResultExecutedStep(steps, s, step, c);
    }
  }

  lemma ExecutedOnceStep<K, V>(steps: seq<Step<K, V>>, s: State<K, V>, step: Step<K, V>, c: nat, n: nat, k: nat)
    requires Enabled(s, step) && Inv(s) && Traced(steps, s)
    requires Execution(steps + [step], Apply(s, step), c, n) && Execution(steps + [step], Apply(s, step), c, k)
    ensures n == k
  {
    assert step.Return? ==> step.i in s.inv;
    hide Apply, Enabled, Inv, Execution, ResultsExecuted;
    ExecutionStep(steps, s, step, c, n);
    ExecutionStep(steps, s, step, c, k);
    if step.Return? && s.inv[step.i].call == c {
      ReturnOnce(s, step);
    }
  }

  lemma TracedStep<K, V>(steps: seq<Step<K, V>>, s: State<K, V>, step: Step<K, V>)
    requires Enabled(s, step) && Inv(s) && Traced(steps, s)
    ensures Traced(steps + [step], Apply(s, step))
  {
    var s', steps' := Apply(s, step), steps + [step];
    hide Apply, Enabled, Inv, Execution, AllEntered, ExecutionsCount, ResultsExecuted;
    AllEnteredStep(steps, s, step);
    ExecutionsCountStep(steps, s, step);
    ResultsExecutedStep(steps, s, step);
    forall c: nat, n: nat, k: nat | Execution(steps', s', c, n) && Execution(steps', s', c, k)
      ensures n == k
    {
      ExecutedOnceStep(steps, s, step, c, n, k);
    }
  }

  lemma ReturnOnce<K, V>(s: State<K, V>, step: Step<K, V>)
    requires Enabled(s, step) && Inv(s) && step.Return?
    ensures s.inv[step.i].call < |s.calls| && s.calls[s.inv[step.i].call].result.None?
  {
    hide Participants;
    assert PhaseOk(s, step.i);
  }

  lemma ExecutionResult<K, V>(steps: seq<Step<K, V>>, s: State<K, V>, step: Step<K, V>, c: nat, n: nat)
    requires Enabled(s, step) && Inv(s) && Traced(steps, s)
    requires Execution(steps, s, c, n) || (n == |steps| && step.Return? && s.inv[step.i].call == c)
    ensures c < |Apply(s, step).calls|
    ensures Apply(s, step).calls[c].result == Some((steps + [step])[n].result)
  {
    OwnInvocation(s, step);
    assert n < |steps| ==> (steps + [step])[n] == steps[n];
    hide Apply, Inv;
    ResultStep(s, step, c);
  }

  lemma {:induction false} AfterTraced<K, V>(steps: seq<Step<K, V>>)
    requires Runs(steps)
    ensures Traced(steps, After(steps))
    decreases |steps|
  {
    hide Apply, Enabled;
    if steps == [] {
    } else {
      var init, last := steps[..|steps| - 1], steps[|steps| - 1];
      assert steps == init + [last];
      hide Traced;
      AfterInv(init);
      AfterTraced(init);
      TracedStep(init, After(init), last);
    }
  }

  /** Every finished invocation returned what the one execution of its call
      returned; that call is gone from the map; and the invocation reported
      "shared" exactly when at least two invocations took part in the call,
      whichever role it had itself. */
  lemma FinishedAgree<K, V>(steps: seq<Step<K, V>>, i: nat) returns (n: nat)
    requires Runs(steps) && i in After(steps).inv && After(steps).inv[i].Done?
    ensures
      var s := After(steps);
      var p := s.inv[i];
      && p.call < |s.calls|
      && Execution(steps, s, p.call, n) && steps[n].result == p.result
      && (forall k :: Execution(steps, s, p.call, k) ==> k == n)
      && (p.shared <==> |Participants(s, p.call)| >= 2)
      && (s.calls[p.call].key in s.m ==> s.m[s.calls[p.call].key] != p.call)
  {
    hide Runs, After, Participants, Execution;
    AfterInv(steps);
    AfterTraced(steps);
    var s := After(steps);
    assert PhaseOk(s, i);
    n :| Execution(steps, s, s.inv[i].call, n);
  }

  /** A finished call never changes again: nobody joins it and its result stays. */
  lemma FinishedForGood<K, V>(s: State<K, V>, step: Step<K, V>, c: nat)
    requires Inv(s) && Enabled(s, step) && c < |s.calls| && s.calls[c].done
    ensures c < |Apply(s, step).calls| && Apply(s, step).calls[c] == s.calls[c]
    ensures Participants(Apply(s, step), c) == Participants(s, c)
  {
    hide Participants, LeadersOk, CountsOk, ResultsOk;
    var s' := Apply(s, step);
    OwnInvocation(s, step);
    if step.Enter? {
      ParticipantsAdded(s, s', step.i, c);
    } else {
      assert PhaseOk(s, step.i);
      assert s'.inv.Keys == s.inv.Keys;
      ParticipantsKept(s, s', step.i, c);
    }
  }

  /** Right after completion the next caller of the same key starts a new call. */
  lemma NewFlightAfterCompletion<K, V>(s: State<K, V>, i: nat, j: nat)
    requires Inv(s) && Enabled(s, Complete(i)) && j !in s.inv
    ensures
      var s' := Apply(s, Step<K, V>.Complete(i));
      var key := s.calls[s.inv[i].call].key;
      && key !in s'.m
      && Enabled(s', Enter(j, key)) && Apply(s', Enter(j, key)).inv[j] == Leading(|s.calls|)
  {
    hide Participants, LeadersOk, CountsOk, ResultsOk;
    assert PhaseOk(s, i);
  }
}

/** The clean-up ledger of the server life-cycle suite: register, drop, and run everything in reverse. */
module CleanupLedger {

  datatype Cleanup = Cleanup(name: string, env: map<string, string>, args: seq<string>)

  /** What one command came to; `deleted` is whether its output looks like the resource was already gone. */
  datatype StepResult = StepResult(exitCode: int, deleted: bool) {
    predicate Failed() {
      exitCode != 0 && !deleted
    }
  }

  /** The command line as the environment: what the n-th recorded step comes to. */
  type World = (nat, Cleanup) -> StepResult

  datatype Step = Step(cleanup: Cleanup, result: StepResult)

  /** The ledger with its history; cleanups are numbered by registration. */
  datatype Ledger = Ledger(
    registered: seq<Cleanup>,
    pending: seq<nat>,
    dropped: seq<nat>,
    executed: seq<nat>,
    required: bool,
    steps: seq<Step>)

  datatype Op = Register(cleanup: Cleanup) | Drop(name: string) | CleanUpAll

  const EMPTY := Ledger([], [], [], [], false, [])

  ghost predicate WellFormed(l: Ledger) {
    forall i :: 0 <= i < |l.pending| ==> l.pending[i] < |l.registered|
  }

  /** The last pending cleanup called `name` among the first `n`, or -1. */
  function LastNamed(l: Ledger, name: string, n: nat): (i: int)
    requires WellFormed(l) && n <= |l.pending|
    ensures -1 <= i < n
    ensures i >= 0 ==> l.registered[l.pending[i]].name == name
    ensures forall j :: i < j < n ==> l.registered[l.pending[j]].name != name
  {
    if n == 0 then -1
    else if l.registered[l.pending[n - 1]].name == name then n - 1
    else LastNamed(l, name, n - 1)
  }

  function Registered(l: Ledger, c: Cleanup): Ledger {
    l.(registered := l.registered + [c], pending := l.pending + [|l.registered|], required := true)
  }

  function Dropped(l: Ledger, name: string): Ledger
    requires WellFormed(l)
  {
    var i := LastNamed(l, name, |l.pending|);
    var pending := if i < 0 then l.pending else l.pending[..i] + l.pending[i + 1..];
    l.(pending := pending,
       dropped := if i < 0 then l.dropped else l.dropped + [l.pending[i]],
       required := l.required && pending != [])
  }

  function Reverse(s: seq<nat>): (r: seq<nat>)
    ensures |r| == |s| && forall i :: 0 <= i < |s| ==> r[i] == s[|s| - 1 - i]
  {
    if s == [] then [] else [s[|s| - 1]] + Reverse(s[..|s| - 1])
  }

  /** The steps of running the given cleanups one after the other. */
  function StepsFor(world: World, registered: seq<Cleanup>, order: seq<nat>, before: nat): seq<Step>
    requires forall i :: 0 <= i < |order| ==> order[i] < |registered|
  {
    seq(|order|, i requires 0 <= i < |order| => Step(registered[order[i]], world(before + i, registered[order[i]])))
  }

  predicate AnyFailed(steps: seq<Step>) {
    exists i :: 0 <= i < |steps| && steps[i].result.Failed()
  }

  function NewSteps(world: World, l: Ledger): seq<Step>
    requires WellFormed(l)
  {
    StepsFor(world, l.registered, Reverse(l.pending), |l.steps|)
  }

  function CleanedUp(world: World, l: Ledger): Ledger
    requires WellFormed(l)
  {
    var steps := NewSteps(world, l);
    l.(pending := [], executed := l.executed + Reverse(l.pending), steps := l.steps + steps, required := AnyFailed(steps))
  }

  function Apply(world: World, l: Ledger, op: Op): (r: Ledger)
    requires WellFormed(l)
    ensures WellFormed(r)
  {
    match op
    case Register(c) => Registered(l, c)
    case Drop(name) => Dropped(l, name)
    case CleanUpAll => CleanedUp(world, l)
  }

  function Run(world: World, ops: seq<Op>): (r: Ledger)
    ensures WellFormed(r)
  {
    if ops == [] then EMPTY else Apply(world, Run(world, ops[..|ops| - 1]), ops[|ops| - 1])
  }

  // ---------- the program ----------

  /** The program's list: the pending cleanups themselves, in place of their numbers. */
  ghost predicate Lists(cleanups: seq<Cleanup>, registered: seq<Cleanup>, pending: seq<nat>) {
    && |cleanups| == |pending|
    && forall i :: 0 <= i < |pending| ==> pending[i] < |registered| && cleanups[i] == registered[pending[i]]
  }

  class ServerLifecycle {
    var cleanups: seq<Cleanup>
    var cleanupRequired: bool
    var steps: seq<Step>
    ghost var ledger: Ledger

    ghost predicate Valid()
      reads this
    {
      && Lists(cleanups, ledger.registered, ledger.pending)
      && cleanupRequired == ledger.required && steps == ledger.steps
    }

    constructor ()
      ensures Valid() && ledger == EMPTY
    {
      cleanups, cleanupRequired, steps, ledger := [], false, [], EMPTY;
    }

    method AddCleanupWithEnv(name: string, env: map<string, string>, args: seq<string>)
      requires Valid()
      modifies this
      ensures Valid() && ledger == Registered(old(ledger), Cleanup(name, env, args))
    {
      cleanupRequired := true;
      cleanups := cleanups + [Cleanup(name, env, args)];
      ledger := Registered(ledger, Cleanup(name, env, args));
    }

    method FindLatest(name: string) returns (i: int)
      requires Valid()
      ensures i == LastNamed(ledger, name, |ledger.pending|)
    {
      i := |cleanups| - 1;
      while i >= 0 && cleanups[i].name != name
        invariant -1 <= i < |cleanups|
        invariant forall j :: i < j < |cleanups| ==> cleanups[j].name != name
      {
        i := i - 1;
      }
      LastIs(cleanups, ledger, name, i);
    }

    method DropCleanup(name: string)
      requires Valid()
      modifies this
      ensures Valid() && ledger == Dropped(old(ledger), name)
    {
      var i := FindLatest(name);
      if i >= 0 {
        RemovedLists(cleanups, ledger.registered, ledger.pending, i);
        cleanups := cleanups[..i] + cleanups[i + 1..];
      }
      ledger := Dropped(ledger, name);
      if |cleanups| == 0 {
        cleanupRequired := false;
      }
    }

    method RunWithEnv(world: World, cleanup: Cleanup) returns (result: StepResult)
      modifies this`steps
      ensures result == world(|old(steps)|, cleanup) && steps == old(steps) + [Step(cleanup, result)]
    {
      result := world(|steps|, cleanup);
      steps := steps + [Step(cleanup, result)];
    }

    /** The loop of the clean-up: every pending cleanup is run, latest first, also after failures. */
    method RunPending(world: World, ghost all: seq<Step>) returns (failures: seq<string>)
      requires Pass(all, world, cleanups, |steps|)
      modifies this`steps
      ensures steps == old(steps) + all && failures == FailedNames(all)
    {
      failures := [];
      var i := |cleanups| - 1;
      ghost var k := 0;
      while i >= 0
        invariant -1 <= i && i + 1 + k == |cleanups| == |all|
        invariant steps == old(steps) + all[..k]
        invariant failures == FailedNames(all[..k])
      {
        var cleanup := cleanups[i];
        var result := RunWithEnv(world, cleanup);
        assert Step(cleanup, result) == all[k];
        PassSnoc(old(steps), all, k);
        if result.exitCode != 0 && !result.deleted {
          failures := failures + [cleanup.name];
        }
        i, k := i - 1, k + 1;
      }
      assert all[..|all|] == all;
    }

    /** Runs the pending cleanups and forgets them; the failed ones are named in the order they were run. */
    method CleanupAll(world: World) returns (failures: seq<string>)
      requires Valid()
      modifies this
      ensures Valid() && ledger == CleanedUp(world, old(ledger))
      ensures failures == FailedNames(NewSteps(world, old(ledger)))
    {
      NewStepsPass(world, cleanups, ledger);
      failures := RunPending(world, NewSteps(world, ledger));
      FailedNamesEmpty(NewSteps(world, ledger));
      cleanups := [];
      cleanupRequired := |failures| > 0;
      ledger := CleanedUp(world, ledger);
    }
  }

  /** The steps of running a list from its end, after `before` earlier steps. */
  ghost predicate Pass(all: seq<Step>, world: World, cleanups: seq<Cleanup>, before: nat) {
    && |all| == |cleanups|
    && forall k :: 0 <= k < |all| ==> all[k] == StepOf(world, before + k, cleanups[|cleanups| - 1 - k])
  }

  function StepOf(world: World, n: nat, cleanup: Cleanup): Step {
    Step(cleanup, world(n, cleanup))
  }

  lemma NewStepsPass(world: World, cleanups: seq<Cleanup>, l: Ledger)
    requires WellFormed(l) && Lists(cleanups, l.registered, l.pending)
    ensures Pass(NewSteps(world, l), world, cleanups, |l.steps|)
  {
  }

  lemma PassSnoc(before: seq<Step>, all: seq<Step>, k: nat)
    requires k < |all|
    ensures (before + all[..k]) + [all[k]] == before + all[..k + 1]
    ensures FailedNames(all[..k + 1]) == FailedNames(all[..k]) + if all[k].result.Failed() then [all[k].cleanup.name] else []
  {
    assert all[..k + 1][..k] == all[..k];
  }

  lemma RemovedLists(cleanups: seq<Cleanup>, registered: seq<Cleanup>, pending: seq<nat>, i: nat)
    requires Lists(cleanups, registered, pending) && i < |cleanups|
    ensures Lists(cleanups[..i] + cleanups[i + 1..], registered, pending[..i] + pending[i + 1..])
  {
  }

  lemma LastIs(cleanups: seq<Cleanup>, l: Ledger, name: string, i: int)
    requires WellFormed(l) && Lists(cleanups, l.registered, l.pending) && -1 <= i < |cleanups|
    requires i >= 0 ==> cleanups[i].name == name
    requires forall j :: i < j < |cleanups| ==> cleanups[j].name != name
    ensures LastNamed(l, name, |l.pending|) == i
  {
    var found := LastNamed(l, name, |l.pending|);
    assert found > i ==> cleanups[found].name == name;
  }

  function FailedNames(steps: seq<Step>): seq<string> {
    if steps == [] then []
    else
      var last := steps[|steps| - 1];
      FailedNames(steps[..|steps| - 1]) + if last.result.Failed() then [last.cleanup.name] else []
  }

  lemma {:induction false} FailedNamesEmpty(steps: seq<Step>)
    ensures FailedNames(steps) != [] <==> AnyFailed(steps)
  {
    if steps == [] {
    } else {
      var front := steps[..|steps| - 1];
      FailedNamesEmpty(front);
      if AnyFailed(steps) {
        var i :| 0 <= i < |steps| && steps[i].result.Failed();
        assert i < |front| ==> front[i].result.Failed();
      }
      if AnyFailed(front) {
        var i :| 0 <= i < |front| && front[i].result.Failed();
        assert steps[i].result.Failed();
      }
    }
  }

  /** The names of two stretches are those of the first and then those of the second. */
  lemma {:induction false} FailedNamesAppend(a: seq<Step>, b: seq<Step>)
    ensures FailedNames(a + b) == FailedNames(a) + FailedNames(b)
  {
    if b == [] {
      assert a + b == a;
    } else {
      var front, last := b[..|b| - 1], b[|b| - 1];
      FailedNamesAppend(a, front);
      assert (a + b)[..|a + b| - 1] == a + front;
      var name := if last.result.Failed() then [last.cleanup.name] else [];
      assert (FailedNames(a) + FailedNames(front)) + name == FailedNames(a) + (FailedNames(front) + name);
    }
  }

  /** A step is named exactly when its command exits with an error and its output does not say that nothing was left. */
  lemma FailedNamesOfOne(step: Step)
    ensures FailedNames([step]) == if step.result.exitCode != 0 && !step.result.deleted then [step.cleanup.name] else []
  {
    assert [step][..0] == [];
  }

  // ---------- over every run ----------

  function Count(s: seq<nat>, k: nat): nat {
    if s == [] then 0 else Count(s[..|s| - 1], k) + if s[|s| - 1] == k then 1 else 0
  }

  lemma {:induction false} CountAppend(s: seq<nat>, t: seq<nat>, k: nat)
    ensures Count(s + t, k) == Count(s, k) + Count(t, k)
  {
    if t == [] {
      assert s + t == s;
    } else {
      CountAppend(s, t[..|t| - 1], k);
      assert (s + t)[..|s + t| - 1] == s + t[..|t| - 1];
    }
  }

  lemma {:induction false} CountReverse(s: seq<nat>, k: nat)
    ensures Count(Reverse(s), k) == Count(s, k)
  {
    if s == [] {
    } else {
      var front, last := s[..|s| - 1], [s[|s| - 1]];
      CountReverse(front, k);
      CountAppend(last, Reverse(front), k);
      assert last[..0] == [];
    }
  }

  /** Every registered cleanup is exactly once among the pending, the dropped and the executed, and nothing else is. */
  ghost predicate Conserved(l: Ledger) {
    forall k: nat :: Count(l.pending, k) + Count(l.dropped, k) + Count(l.executed, k) == if k < |l.registered| then 1 else 0
  }

  lemma ApplyConserves(world: World, l: Ledger, op: Op)
    requires WellFormed(l) && Conserved(l)
    ensures Conserved(Apply(world, l, op))
  {
    var r := Apply(world, l, op);
    forall k: nat
      ensures Count(r.pending, k) + Count(r.dropped, k) + Count(r.executed, k) == if k < |r.registered| then 1 else 0
    {
      match op {
        case Register(_) => RegisterCounts(l, k);
        case Drop(name) => DropCounts(l, name, k);
        case CleanUpAll =>
          CountReverse(l.pending, k);
          CountAppend(l.executed, Reverse(l.pending), k);
      }
    }
  }

  lemma RegisterCounts(l: Ledger, k: nat)
    ensures Count(l.pending + [|l.registered|], k) == Count(l.pending, k) + if k == |l.registered| then 1 else 0
  {
    assert (l.pending + [|l.registered|])[..|l.pending|] == l.pending;
  }

  lemma DropCounts(l: Ledger, name: string, k: nat)
    requires WellFormed(l)
    ensures var r := Dropped(l, name);
            Count(r.pending, k) + Count(r.dropped, k) == Count(l.pending, k) + Count(l.dropped, k)
  {
    var i := LastNamed(l, name, |l.pending|);
    if i >= 0 {
      CountRemoved(l.pending, i, k);
      CountAppend(l.dropped, [l.pending[i]], k);
    }
  }

  lemma CountRemoved(s: seq<nat>, i: nat, k: nat)
    requires i < |s|
    ensures Count(s, k) == Count(s[..i] + s[i + 1..], k) + Count([s[i]], k)
  {
    assert s == s[..i] + [s[i]] + s[i + 1..];
    CountAppend(s[..i] + [s[i]], s[i + 1..], k);
    CountAppend(s[..i], [s[i]], k);
    CountAppend(s[..i], s[i + 1..], k);
  }

  ghost predicate Increasing(s: seq<nat>) {
    forall i, j :: 0 <= i < j < |s| ==> s[i] < s[j]
  }

  lemma ApplyKeepsOrder(world: World, l: Ledger, op: Op)
    requires WellFormed(l) && Increasing(l.pending)
    ensures Increasing(Apply(world, l, op).pending)
  {
  }

  lemma ApplyRequires(world: World, l: Ledger, op: Op)
    requires WellFormed(l) && (l.pending != [] ==> l.required)
    ensures var r := Apply(world, l, op);
            r.required <==> r.pending != [] || (op == CleanUpAll && AnyFailed(NewSteps(world, l)))
  {
  }

  /** The `k`-th command of a pass, which is that of the `k`-th last pending cleanup, exits with an error and not because nothing was left. */
  ghost predicate FailsInPass(world: World, l: Ledger, k: nat)
    requires WellFormed(l)
  {
    && k < |l.pending|
    && var result := world(|l.steps| + k, l.registered[l.pending[|l.pending| - 1 - k]]);
       result.exitCode != 0 && !result.deleted
  }

  ghost predicate SomeFails(world: World, l: Ledger)
    requires WellFormed(l)
  {
    exists k: nat :: FailsInPass(world, l, k)
  }

  /** The last operation was a clean-up in which a command failed. */
  ghost predicate EndsInFailure(world: World, ops: seq<Op>) {
    ops != [] && ops[|ops| - 1] == CleanUpAll && SomeFails(world, Run(world, ops[..|ops| - 1]))
  }

  lemma FailsInPassIs(world: World, l: Ledger)
    requires WellFormed(l)
    ensures AnyFailed(NewSteps(world, l)) <==> SomeFails(world, l)
  {
    var steps := NewSteps(world, l);
    forall k: nat ensures FailsInPass(world, l, k) <==> k < |steps| && steps[k].result.Failed() {
    }
    if i :| 0 <= i < |steps| && steps[i].result.Failed() {
      assert FailsInPass(world, l, i);
    }
  }

  /**
   * Over every run: each registered cleanup is exactly once pending, dropped or executed; pending ones stand in the order of
   * registration; and clean-up is required exactly while some are pending or the run just ended in a failed clean-up.
   */
  lemma {:induction false} EveryRun(world: World, ops: seq<Op>)
    ensures var l := Run(world, ops);
            && Conserved(l)
            && Increasing(l.pending)
            && (l.required <==> l.pending != [] || EndsInFailure(world, ops))
  {
    if ops == [] {
    } else {
      var front, op := ops[..|ops| - 1], ops[|ops| - 1];
      EveryRun(world, front);
      ApplyConserves(world, Run(world, front), op);
      ApplyKeepsOrder(world, Run(world, front), op);
      ApplyRequires(world, Run(world, front), op);
      FailsInPassIs(world, Run(world, front));
    }
  }

  /** What was registered, in order. */
  function Registrations(ops: seq<Op>): seq<Cleanup> {
    if ops == [] then []
    else
      var op := ops[|ops| - 1];
      Registrations(ops[..|ops| - 1]) + if op.Register? then [op.cleanup] else []
  }

  /** The cleanups that are numbered are those that were registered, in order, and each goes in at the end of the pending ones. */
  lemma {:induction false} RegisteredInOrder(world: World, ops: seq<Op>)
    ensures Run(world, ops).registered == Registrations(ops)
    ensures ops != [] && ops[|ops| - 1].Register? ==>
              Run(world, ops).pending == Run(world, ops[..|ops| - 1]).pending + [|Registrations(ops)| - 1]
  {
    if ops == [] {
    } else {
      RegisteredInOrder(world, ops[..|ops| - 1]);
      ApplyRegisters(world, Run(world, ops[..|ops| - 1]), ops[|ops| - 1]);
    }
  }

  lemma ApplyRegisters(world: World, l: Ledger, op: Op)
    requires WellFormed(l)
    ensures Apply(world, l, op).registered == l.registered + if op.Register? then [op.cleanup] else []
    ensures op.Register? ==> Apply(world, l, op).pending == l.pending + [|l.registered|]
  {
  }

  /** `i` is the place of the latest pending cleanup of that name. */
  ghost predicate LatestNamed(l: Ledger, name: string, i: nat)
    requires WellFormed(l)
  {
    && i < |l.pending| && l.registered[l.pending[i]].name == name
    && forall j :: i < j < |l.pending| ==> l.registered[l.pending[j]].name != name
  }

  /** A drop takes out the latest pending cleanup of that name only, and every other one keeps its place in the order. */
  lemma DropTakesLatest(l: Ledger, name: string, i: nat)
    requires WellFormed(l) && LatestNamed(l, name, i)
    ensures var r := Dropped(l, name);
            r.pending == l.pending[..i] + l.pending[i + 1..] && r.dropped == l.dropped + [l.pending[i]]
  {
    assert LastNamed(l, name, |l.pending|) == i;
  }

  lemma DropOfUnknownName(l: Ledger, name: string)
    requires WellFormed(l) && forall i :: 0 <= i < |l.pending| ==> l.registered[l.pending[i]].name != name
    ensures var r := Dropped(l, name); r.pending == l.pending && r.dropped == l.dropped
  {
    assert LastNamed(l, name, |l.pending|) == -1;
  }

  /** All pending cleanups, the latest registered first, each with what the world makes of it at its turn. */
  ghost predicate LatestFirst(world: World, l: Ledger, pass: seq<nat>, steps: seq<Step>) {
    && |pass| == |l.pending| == |steps|
    && (forall i, j :: 0 <= i < j < |pass| ==> pass[i] > pass[j])
    && (forall i :: 0 <= i < |pass| ==> pass[i] < |l.registered| && pass[i] in l.pending)
    && (forall i :: 0 <= i < |pass| ==> steps[i] == Step(l.registered[pass[i]], world(|l.steps| + i, l.registered[pass[i]])))
  }

  /** The cleanups of one pass run in the opposite order of registration. */
  lemma PassRunsLatestFirst(world: World, ops: seq<Op>)
    ensures var l := Run(world, ops);
            var after := Run(world, ops + [CleanUpAll]);
            && LatestFirst(world, l, after.executed[|l.executed|..], after.steps[|l.steps|..])
            && l.executed <= after.executed && l.steps <= after.steps && after.pending == []
  {
    var l := Run(world, ops);
    EveryRun(world, ops);
    RunSnoc(world, ops, CleanUpAll);
    PassAppends(world, l);
    PassIsReverse(world, l);
  }

  lemma PassAppends(world: World, l: Ledger)
    requires WellFormed(l)
    ensures var after := CleanedUp(world, l);
            && after.executed[|l.executed|..] == Reverse(l.pending) && after.steps[|l.steps|..] == NewSteps(world, l)
            && l.executed <= after.executed && l.steps <= after.steps
  {
  }

  lemma PassIsReverse(world: World, l: Ledger)
    requires WellFormed(l) && Increasing(l.pending)
    ensures LatestFirst(world, l, Reverse(l.pending), NewSteps(world, l))
  {
  }

  /**
   * A drop on an empty ledger forgets that an earlier clean-up failed.  This is a property of the ledger's interface: the
   * life-cycle run ends after every clean-up.
   */
  lemma DropForgetsFailure(world: World, c: Cleanup, name: string)
    requires world(0, c).exitCode != 0 && !world(0, c).deleted
    ensures var ops := [Register(c), CleanUpAll];
            && Run(world, ops).pending == [] && Run(world, ops).required
            && !Run(world, ops + [Drop(name)]).required
  {
    var l := Registered(EMPTY, c);
    RunSnoc(world, [], Register(c));
    RunSnoc(world, [Register(c)], CleanUpAll);
    RunSnoc(world, [Register(c), CleanUpAll], Drop(name));
    assert [] + [Register(c)] == [Register(c)] && [Register(c)] + [CleanUpAll] == [Register(c), CleanUpAll];
    OneFailure(world, l, c);
  }

  lemma RunSnoc(world: World, ops: seq<Op>, op: Op)
    ensures Run(world, ops + [op]) == Apply(world, Run(world, ops), op)
  {
    assert (ops + [op])[..|ops|] == ops;
  }

  lemma OneFailure(world: World, l: Ledger, c: Cleanup)
    requires l == Registered(EMPTY, c) && world(0, c).Failed()
    ensures CleanedUp(world, l).required
  {
    assert l.pending == [0] && l.registered == [c] && l.steps == [];
    assert FailsInPass(world, l, 0);
    FailsInPassIs(world, l);
  }
}

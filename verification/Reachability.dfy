/** What the controllers can be made to do to the nodes of a service by ordering their
    steps, and behaviors that end at rest. */
module Reachability {
  import opened Model
  import opened NodeUtils
  import opened NodeSet
  import opened ModuleLogic
  import opened Protocol
  import opened Jobs
  import opened Schedules
  import opened Completed
  import opened FairRuns

  const NOW := "now"

  predicate Wants(m: Module) {
    m.app != "" && m.service != "" && HostStem(m).Some?
  }

  /** The stored module is `m` but for its status. */
  ghost predicate Serves(st: State, name: string, m: Module) {
    && WellFormed(st) && name in st.modules && Wants(m)
    && st.modules[name] == m.(status := st.modules[name].status)
  }

  ghost predicate ServedRun(states: seq<State>, steps: seq<Step>, name: string, m: Module) {
    IsRun(states, steps) && forall i | 0 <= i < |states| :: Serves(states[i], name, m)
  }

  /** Some finite run leads from the one state to the other. */
  ghost predicate Reaches(st: State, st': State, name: string, m: Module) {
    exists states, steps :: ServedRun(states, steps, name, m) && states[0] == st && states[|steps|] == st'
  }

  lemma ReachesItself(st: State, name: string, m: Module)
    requires Serves(st, name, m)
    ensures Reaches(st, st, name, m)
  {
    hide WellFormed, Next, Enabled, Wants;
    assert ServedRun([st], [], name, m);
  }

  lemma ReachesNext(st: State, step: Step, name: string, m: Module)
    requires Serves(st, name, m) && Enabled(st, step) && Serves(Next(st, step), name, m)
    ensures Reaches(st, Next(st, step), name, m)
  {
    hide WellFormed, Next, Enabled, Wants;
    assert ServedRun([st, Next(st, step)], [step], name, m);
  }

  lemma ReachesOn(a: State, b: State, c: State, name: string, m: Module)
    requires Reaches(a, b, name, m) && Reaches(b, c, name, m)
    ensures Reaches(a, c, name, m)
  {
    hide WellFormed, Next, Enabled, Serves;
    var p, s :| ServedRun(p, s, name, m) && p[0] == a && p[|s|] == b;
    var q, t :| ServedRun(q, t, name, m) && q[0] == b && q[|t|] == c;
    var states, steps := p + q[1..], s + t;
    forall i | 0 <= i < |steps| ensures Enabled(states[i], steps[i]) && states[i + 1] == Next(states[i], steps[i]) {
      if i < |s| {
        assert p[i + 1] == Next(p[i], s[i]);
      } else {
        assert q[i - |s| + 1] == Next(q[i - |s|], t[i - |s|]);
      }
    }
    assert ServedRun(states, steps, name, m);
  }

  /* ---- a pass ---- */

  lemma StatusAside(m: Module, m': Module, nodes: Nodes, victims: set<Node>, now: string)
    requires m' == m.(status := m'.status)
    ensures Pass(nodes, m', victims, now) == Pass(nodes, m, victims, now)
    ensures SortChoice(nodes, m', victims) == SortChoice(nodes, m, victims)
    ensures HostStem(m') == HostStem(m)
  {
    hide Grown, SortWorks, Victims;
  }

  lemma ViewReached(a: State, st: State, step: Step, name: string, m: Module)
    requires Serves(st, name, m) && Reaches(a, st, name, m) && Enabled(st, step)
    requires SameView(st, Next(st, step), name)
    ensures Reaches(a, Next(st, step), name, m) && Serves(Next(st, step), name, m)
  {
    hide Reaches, WellFormed, Next, Enabled, Wants;
    ReachesNext(st, step, name, m);
    ReachesOn(a, st, Next(st, step), name, m);
  }

  /** The job can be brought to match what the next reconcile wants. */
  lemma ReachJob(st: State, name: string, m: Module, victims: set<Node>) returns (st': State, c: Choice)
    requires Serves(st, name, m) && SortChoice(st.nodes, m, victims)
    ensures Reaches(st, st', name, m) && Serves(st', name, m) && SameView(st, st', name)
    ensures ValidChoice(st', name, c) && c.victims == victims && c.now == NOW
    ensures CanAct(st'.modules[name]) && JobIs(st', name, ActionOf(st'.modules[name].spec, c.listing))
  {
    hide WellFormed, Reaches, Lists, SortChoice, ActionOf, JobMatches, ReconcileModule, Wants;
    assert SameView(st, st, name) && CanAct(st.modules[name]) by { WantsActs(m); }
    ReachesItself(st, name, m);
    FinishStep(st, name);
    ViewReached(st, st, JobStep(JobName(st.modules[name]), FINISHED), name, m);
    st' := Next(st, JobStep(JobName(st.modules[name]), FINISHED));
    var p := ListingExists(ServiceNodes(st'.nodes, st'.modules[name].service));
    StatusAside(m, st'.modules[name], st'.nodes, victims, NOW);
    c := Choice(p, victims, NOW);
    if !JobIs(st', name, ActionOf(st'.modules[name].spec, c.listing)) {
      if JobName(st'.modules[name]) in st'.jobs {
        ReplaceStep(st', name, c);
        ViewReached(st, st', ModuleStep(name, c), name, m);
        var next := Next(st', ModuleStep(name, c));
        ChoiceStays(st', next, name, c);
        st' := next;
      }
      CreateStep(st', name, c);
      ViewReached(st, st', ModuleStep(name, c), name, m);
      var last := Next(st', ModuleStep(name, c));
      ChoiceStays(st', last, name, c);
      st' := last;
    }
  }

  lemma WantsActs(m: Module)
    requires Wants(m)
    ensures forall status :: CanAct(m.(status := status))
  {
  }

  /** A pass can always be brought about, with any outcome of its sort. */
  lemma ReachPass(st: State, name: string, m: Module, victims: set<Node>) returns (st': State)
    requires Serves(st, name, m) && SortChoice(st.nodes, m, victims) && Pass(st.nodes, m, victims, NOW).Done?
    ensures Reaches(st, st', name, m) && Serves(st', name, m)
    ensures st'.nodes == Pass(st.nodes, m, victims, NOW).nodes
  {
    hide WellFormed, Reaches, SortChoice, Lists, ActionOf, JobMatches, ReconcileModule, Pass, Wants;
    var st1, c := ReachJob(st, name, m, victims);
    var step := ModuleStep(name, c);
    StatusAside(m, st1.modules[name], st1.nodes, victims, NOW);
    PassStep(st1, name, c);
    st' := Next(st1, step);
    ReachesNext(st1, step, name, m);
    ReachesOn(st, st1, st', name, m);
  }

  /* ---- deletions ---- */

  /** A look in vain, and then the delete. */
  lemma ReachDelete(st: State, node: string, name: string, m: Module) returns (st': State)
    requires Serves(st, name, m) && node in st.nodes && st.nodes[node].deletionDate != ""
    ensures Reaches(st, st', name, m) && Serves(st', name, m)
    ensures st'.nodes == st.nodes - {node}
  {
    hide WellFormed, Reaches, Wants;
    var step := NodeStep(node, NoMachine);
    var st1 := Next(st, step);
    StepKeepsWellFormed(st, step);
    ReachesNext(st, step, name, m);
    st' := st1;
    if node in st1.nodes {
      assert st1.nodes == st.nodes[node := st.nodes[node].(status := GONE_STATUS)];
      st' := Next(st1, step);
      assert st'.nodes == st.nodes - {node};
      StepKeepsWellFormed(st1, step);
      ReachesNext(st1, step, name, m);
      ReachesOn(st, st1, st', name, m);
    }
  }

  ghost function AllMarked(nodes: Nodes): set<string> {
    set k | k in nodes && nodes[k].deletionDate != ""
  }

  /** Any of the marked nodes can be deleted. */
  lemma {:induction false} ReachDeletes(st: State, gone: set<string>, name: string, m: Module) returns (st': State)
    requires Serves(st, name, m) && gone <= AllMarked(st.nodes)
    ensures Reaches(st, st', name, m) && Serves(st', name, m)
    ensures st'.nodes == st.nodes - gone
    decreases gone
  {
    hide Serves, Reaches;
    if gone == {} {
      st' := st;
      ReachesItself(st, name, m);
    } else {
      var node :| node in gone;
      var st1 := ReachDelete(st, node, name, m);
      assert gone - {node} <= AllMarked(st1.nodes);
      st' := ReachDeletes(st1, gone - {node}, name, m);
      ReachesOn(st, st1, st', name, m);
      assert st.nodes - {node} - (gone - {node}) == st.nodes - gone;
    }
  }

  /* ---- a state at rest ---- */

  /** A reconcile of the module passes its nodes and writes nothing, no node is marked. */
  ghost predicate AtRest(st: State, name: string, c: Choice) {
    && name in st.modules && ValidChoice(st, name, c)
    && Validated(st, name, c) && ReconcileModule(st, name, c).0 == st
    && AllMarked(st.nodes) == {}
  }

  /** With exactly R nodes, none of them marked, the job completes and the status settles. */
  lemma ReachRest(st: State, name: string, m: Module) returns (st': State, c: Choice)
    requires Serves(st, name, m) && AllMarked(st.nodes) == {} && |ServiceNodes(st.nodes, m.service)| == m.spec.replicas
    ensures Reaches(st, st', name, m) && Serves(st', name, m) && AtRest(st', name, c)
    ensures st'.nodes == st.nodes
  {
    hide WellFormed, Reaches, Lists, SortChoice, ActionOf, JobMatches, ReconcileModule, AllMarked, Wants, ServiceNodes;
    NothingToSort(st.nodes, m);
    var st1;
    st1, c := ReachJob(st, name, m, {});
    FinishStep(st1, name);
    var step := JobStep(JobName(st1.modules[name]), FINISHED);
    ViewReached(st, st1, step, name, m);
    var st2 := Next(st1, step);
    ChoiceStays(st1, st2, name, c);
    var st3 := ReconcileAgain(st2, name, m, c);
    var st4 := ReconcileAgain(st3, name, m, c);
    var st5 := ReconcileAgain(st4, name, m, c);
    StatusSettles(st2, st3, st4, name, c, c, c);
    ReachesOn(st, st2, st3, name, m);
    ReachesOn(st, st3, st4, name, m);
    st' := st4;
  }

  lemma NothingToSort(nodes: Nodes, m: Module)
    requires |ServiceNodes(nodes, m.service)| == m.spec.replicas
    ensures SortChoice(nodes, m, {})
  {
  }

  /** A reconcile with a completed job and R nodes, which writes at most the status. */
  lemma ReconcileAgain(st: State, name: string, m: Module, c: Choice) returns (st': State)
    requires Serves(st, name, m) && ValidChoice(st, name, c)
    requires |ServiceNodes(st.nodes, m.service)| == m.spec.replicas
    requires JobIs(st, name, ActionOf(m.spec, c.listing)) && st.jobs[JobName(m)].status == FINISHED
    ensures st' == ReconcileModule(st, name, c).0 && ReconcileModule(st, name, c).1.Reconciled?
    ensures Reaches(st, st', name, m) && Serves(st', name, m) && ValidChoice(st', name, c)
    ensures st'.nodes == st.nodes && st'.jobs == st.jobs
  {
    hide WellFormed, Reaches, Lists, SortChoice, ActionOf, JobMatches, ReconcileModule, ServiceNodes, HostStem;
    StatusAside(m, st.modules[name], st.nodes, c.victims, NOW);
    IdlePass(st.nodes, st.modules[name], c.victims, c.now);
    PassStep(st, name, c);
    var step := ModuleStep(name, c);
    st' := Next(st, step);
    ReachesNext(st, step, name, m);
    StatusAside(m, st'.modules[name], st.nodes, c.victims, NOW);
  }

  lemma IdlePass(nodes: Nodes, m: Module, victims: set<Node>, now: string)
    requires Wants(m) && |ServiceNodes(nodes, m.service)| == m.spec.replicas
    ensures Pass(nodes, m, victims, now) == PassResult.Done(nodes)
  {
    hide HostStem;
  }

  lemma {:induction false} KeySequence(keys: set<string>) returns (s: seq<string>)
    ensures forall k :: k in keys <==> k in s
    decreases keys
  {
    if keys == {} {
      s := [];
    } else {
      var k :| k in keys;
      var rest := KeySequence(keys - {k});
      s := [k] + rest;
    }
  }

  /** The place of time `i` in rounds of length `n`. */
  function Slot(n: nat, i: nat): (k: nat)
    requires n > 0
    ensures k < n
  {
    if i < n then i else Slot(n, i - n)
  }

  lemma {:induction false} SlotLater(n: nat, b: nat, k: nat) returns (j: nat)
    requires k < n
    ensures b <= j && Slot(n, j) == k
  {
    if b <= k {
      j := k;
    } else if b < n {
      j := k + n;
    } else {
      j := SlotLater(n, b - n, k);
      j := j + n;
    }
  }

  /** Every node in turn, and then the module. */
  function Round(keys: seq<string>, name: string, c: Choice, i: nat): Step {
    var k := Slot(|keys| + 1, i);
    if k < |keys| then NodeStep(keys[k], CatalogError) else ModuleStep(name, c)
  }

  lemma RestStays(st: State, step: Step, name: string, c: Choice)
    requires AtRest(st, name, c)
    requires step == ModuleStep(name, c) || (step.NodeStep? && step.seen == CatalogError)
    ensures Enabled(st, step) && Next(st, step) == st
  {
    hide ReconcileModule, Lists, SortChoice;
    if step.NodeStep? && step.node in st.nodes {
      assert step.node !in AllMarked(st.nodes);
      assert st.nodes[step.node := st.nodes[step.node]] == st.nodes;
    }
  }

  /* ---- the behavior that ends at rest ---- */

  function StatesOf(run: seq<State>, i: nat): State
    requires run != []
  {
    if i < |run| then run[i] else run[|run| - 1]
  }

  function StepsOf(steps: seq<Step>, keys: seq<string>, name: string, c: Choice, i: nat): Step {
    if i < |steps| then steps[i] else Round(keys, name, c, i)
  }

  lemma RunThenRest(
    run: seq<State>, runSteps: seq<Step>, name: string, m: Module, c: Choice, keys: seq<string>,
    states: States, steps: Steps)
    requires ServedRun(run, runSteps, name, m) && AtRest(run[|runSteps|], name, c)
    requires states == ((i: nat) => StatesOf(run, i)) && steps == ((i: nat) => StepsOf(runSteps, keys, name, c, i))
    ensures IsBehavior(states, steps) && forall i: nat :: Serves(states(i), name, m)
  {
    hide Next, Enabled, AtRest, Wants, WellFormed;
    forall i: nat ensures Enabled(states(i), steps(i)) && states(i + 1) == Next(states(i), steps(i)) {
      if i < |runSteps| {
        assert run[i + 1] == Next(run[i], runSteps[i]);
      } else {
        RestStays(run[|runSteps|], steps(i), name, c);
      }
    }
  }

  /** From time `n` on the behavior is at rest and takes its rounds. */
  ghost predicate Resting(
    states: States, steps: Steps, last: State, name: string, c: Choice, keys: seq<string>, n: nat)
  {
    && AtRest(last, name, c) && (forall k :: k in last.nodes <==> k in keys)
    && forall i: nat | n <= i :: states(i) == last && steps(i) == Round(keys, name, c, i)
  }

  lemma RestPasses(
    states: States, steps: Steps, last: State, name: string, c: Choice, keys: seq<string>, n: nat, i: nat)
    requires Resting(states, steps, last, name, c, keys, n)
    ensures PassLater(states, steps, i, name)
  {
    hide AtRest, Validated;
    RestValidates(last, name, c);
    var j := SlotLater(|keys| + 1, if i < n then n else i, |keys|);
    assert PassAt(states, steps, j, name);
  }

  lemma RestLooks(
    states: States, steps: Steps, last: State, name: string, c: Choice, keys: seq<string>, n: nat, i: nat, node: string)
    requires Resting(states, steps, last, name, c, keys, n)
    ensures NodeStepLater(states, steps, i, node)
  {
    hide AtRest;
    var b := if i < n then n else i;
    if node in last.nodes {
      var k :| 0 <= k < |keys| && keys[k] == node;
      var j := SlotLater(|keys| + 1, b, k);
      assert DeletedOrSeen(states, steps, j, node);
    } else {
      assert DeletedOrSeen(states, steps, b, node);
    }
  }

  lemma RestDeletes(
    states: States, steps: Steps, last: State, name: string, c: Choice, keys: seq<string>, n: nat, i: nat, node: string)
    requires IsBehavior(states, steps) && Resting(states, steps, last, name, c, keys, n) && MarkedAt(states, i, node)
    ensures MachineGoesLater(states, steps, i, node)
  {
    hide AtRest, IsBehavior, Round;
    RestUnmarked(last, name, c);
    assert i < n;
    var u := MarkedUntilDeleted(states, steps, i, n, node);
    assert DeletedOrGone(states, steps, u, node);
  }

  /** A finite run that ends at rest goes on as a fair behavior that stays there. */
  lemma FairEnd(st: State, last: State, name: string, m: Module, c: Choice)
    returns (states: States, steps: Steps, n: nat)
    requires Reaches(st, last, name, m) && AtRest(last, name, c)
    ensures IsBehavior(states, steps) && Fair(states, steps, name)
    ensures forall i: nat :: Serves(states(i), name, m)
    ensures states(0) == st && forall i: nat | n <= i :: states(i) == last
  {
    hide Next, Enabled, AtRest, IsBehavior, Serves, Round, PassLater, NodeStepLater, MarkedAt,
      MachineGoesLater, WellFormed;
    var run, runSteps :| ServedRun(run, runSteps, name, m) && run[0] == st && run[|runSteps|] == last;
    var keys := KeySequence(last.nodes.Keys);
    n := |runSteps|;
    states, steps := (i: nat) => StatesOf(run, i), (i: nat) => StepsOf(runSteps, keys, name, c, i);
    RunThenRest(run, runSteps, name, m, c, keys, states, steps);
    forall i: nat ensures PassLater(states, steps, i, name) {
      RestPasses(states, steps, last, name, c, keys, n, i);
    }
    forall i: nat, node: string ensures NodeStepLater(states, steps, i, node) {
      RestLooks(states, steps, last, name, c, keys, n, i, node);
    }
    forall i: nat, node: string | MarkedAt(states, i, node) ensures MachineGoesLater(states, steps, i, node) {
      RestDeletes(states, steps, last, name, c, keys, n, i, node);
    }
  }

  /** So with exactly R unmarked nodes in the service a run can end for good. */
  lemma EndAtRest(st: State, st0: State, name: string, m: Module) returns (states: States, steps: Steps, n: nat)
    requires Reaches(st, st0, name, m) && Serves(st0, name, m)
    requires forall k | k in st0.nodes && st0.nodes[k].service == m.service :: st0.nodes[k].deletionDate == ""
    requires |ServiceNodes(st0.nodes, m.service)| == m.spec.replicas
    ensures IsBehavior(states, steps) && Fair(states, steps, name)
    ensures states(0) == st && forall i: nat :: Serves(states(i), name, m)
    ensures forall i: nat | n <= i :: SameNodes(st0.nodes, states(i).nodes, m.service)
  {
    hide Serves, Reaches, AtRest, IsBehavior, Fair;
    var st1 := ReachDeletes(st0, AllMarked(st0.nodes), name, m);
    assert AllMarked(st1.nodes) == {};
    Agree(st0.nodes, st1.nodes, m.service);
    var st2, c := ReachRest(st1, name, m);
    ReachesOn(st, st0, st1, name, m);
    ReachesOn(st, st1, st2, name, m);
    states, steps, n := FairEnd(st, st2, name, m, c);
  }

  lemma RestValidates(st: State, name: string, c: Choice)
    requires AtRest(st, name, c)
    ensures Validated(st, name, c)
  {
    hide ReconcileModule;
  }

  lemma RestUnmarked(st: State, name: string, c: Choice)
    requires AtRest(st, name, c)
    ensures forall k | k in st.nodes :: st.nodes[k].deletionDate == ""
  {
    hide ReconcileModule;
    assert forall k | k in st.nodes :: k !in AllMarked(st.nodes);
  }
}

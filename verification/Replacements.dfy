/** How often a job is replaced while the spec of its module and the statuses of its nodes
    stay as they are. */
module Replacements {
  import opened Sets
  import opened Model
  import opened NodeUtils
  import opened NodeSet
  import opened EnvVars
  import opened ServiceEnv
  import opened ModuleLogic
  import opened Protocol
  import opened Jobs
  import opened Schedules

  /** A node pass of this module can create nodes. */
  predicate CanGrow(m: Module) {
    m.app != "" && m.service != "" && HostStem(m).Some?
  }

  ghost function NodesOf(st: State, name: string): set<Node>
    requires name in st.modules
  {
    ServiceNodes(st.nodes, st.modules[name].service)
  }

  /** The module has this spec, and every listing of its nodes leads to this action. */
  ghost predicate Chooses(st: State, name: string, spec: ModuleSpec, action: Action) {
    && name in st.modules && st.modules[name].spec == spec
    && OrderFree(spec, NodesOf(st, name)) && Chosen(spec, NodesOf(st, name)) == action
  }

  /** An upgrade is chosen, and growing to R nodes will make it a deploy. */
  ghost predicate Flipping(st: State, name: string, spec: ModuleSpec) {
    && Chooses(st, name, spec, Upgrade)
    && CanGrow(st.modules[name]) && GrowsPast(st.nodes, st.modules[name].service, spec.replicas)
  }

  ghost predicate Steady(st: State, name: string, spec: ModuleSpec, action: Action) {
    Chooses(st, name, spec, action) && !Flipping(st, name, spec)
  }

  /** The stored nodes of the service stay and keep their statuses. */
  ghost predicate StatusesKept(nodes: Nodes, nodes': Nodes, service: string) {
    forall k | k in ServiceNames(nodes, service) :: k in nodes' && nodes'[k].status == nodes[k].status
  }

  ghost predicate QuietStep(st: State, step: Step, name: string, spec: ModuleSpec) {
    && Enabled(st, step)
    && name in st.modules && st.modules[name].spec == spec
    && name in Next(st, step).modules && Next(st, step).modules[name].spec == spec
    && StatusesKept(st.nodes, Next(st, step).nodes, st.modules[name].service)
  }

  /** The spec of the module and the statuses of its nodes stay as they are. */
  ghost predicate QuietRun(states: seq<State>, steps: seq<Step>, name: string, spec: ModuleSpec) {
    && IsRun(states, steps)
    && name in states[0].modules && states[0].modules[name].spec == spec
    && forall i | 0 <= i < |steps| :: QuietStep(states[i], steps[i], name, spec)
  }

  ghost predicate Replaces(st: State, step: Step, name: string) {
    step.ModuleStep? && step.name == name && ReconcileModule(st, name, step.choice).1 == JobReplaced
  }

  /* ---- what a quiet step does to the choice ---- */

  ghost predicate OwnPass(st: State, step: Step, name: string, nodes': Nodes) {
    && step.ModuleStep? && step.name == name && name in st.modules
    && Pass(st.nodes, st.modules[name], step.choice.victims, step.choice.now) == PassResult.Done(nodes')
  }

  lemma QuietNodeStep(st: State, node: string, seen: Observation, service: string)
    requires StatusesKept(st.nodes, ReconcileNode(st, node, seen).nodes, service)
    ensures SameNodes(st.nodes, ReconcileNode(st, node, seen).nodes, service)
  {
    hide Observed, ServiceNodes, Deletable;
    var nodes' := ReconcileNode(st, node, seen).nodes;
    if node in st.nodes && st.nodes[node].service == service {
      assert node in ServiceNames(st.nodes, service);
      assert nodes'[node] == st.nodes[node];
    }
    Agree(st.nodes, nodes', service);
  }

  lemma QuietEffect(st: State, step: Step, name: string, spec: ModuleSpec)
    requires WellFormed(st) && QuietStep(st, step, name, spec)
    ensures var m, st' := st.modules[name], Next(st, step);
      && st'.modules[name].service == m.service && CanGrow(st'.modules[name]) == CanGrow(m)
      && (SameNodes(st.nodes, st'.nodes, m.service) || OwnPass(st, step, name, st'.nodes))
  {
    hide Pass, BuiltSpec, ReconcileModule, ReconcileNode, WellKeyed, Victims, SortChoice, StatusesKept, ServiceNodes,
      ServiceNames;
    var service := st.modules[name].service;
    if step.ModuleStep? && step.name in st.modules {
      ModuleStepObjects(st, step.name, step.choice);
      if Next(st, step).nodes != st.nodes && step.name != name {
        OneModulePerService(st, name, step.name);
        PassElsewhere(st.nodes, st.modules[step.name], step.choice.victims, step.choice.now, service);
      }
    } else if step.ModuleStep? {
      MissingModule(st, step.name, step.choice);
    } else if step.NodeStep? {
      NodeStepElse(st, step);
      QuietNodeStep(st, step.node, step.seen, service);
    }
  }

  lemma NodeStepElse(st: State, step: Step)
    requires step.NodeStep?
    ensures Next(st, step).modules == st.modules
  {
    hide Observed;
  }

  lemma OneModulePerService(st: State, a: string, b: string)
    requires WellFormed(st) && a in st.modules && b in st.modules && a != b
    ensures st.modules[a].service != st.modules[b].service
  {
    hide WellKeyed;
  }

  lemma PassLeavesEnough(nodes: Nodes, m: Module, victims: set<Node>, now: string)
    requires WellKeyed(nodes) && Pass(nodes, m, victims, now).Done?
    ensures |ServiceNodes(Pass(nodes, m, victims, now).nodes, m.service)| >= m.spec.replicas
  {
    hide Generated, Grown, NodeName, Index, NewNode, SortWorks;
    var nodes' := Pass(nodes, m, victims, now).nodes;
    PassKeepsWellKeyed(nodes, m, victims, now);
    ServiceNodesFacts(nodes', m.service);
    ServiceNodesFacts(nodes, m.service);
    if |ServiceNodes(nodes, m.service)| < m.spec.replicas {
      GrownExactly(nodes, m.service, HostStem(m).value, m.spec.replicas);
      LowNamesCardinality(m.service, m.spec.replicas);
      SubsetSize(LowNames(m.service, m.spec.replicas), ServiceNames(nodes', m.service));
    } else {
      MarkedFacts(nodes, Names(victims), now);
    }
  }

  /** The choice stays as it is, until growth past R turns an upgrade into a deploy. */
  lemma QuietStepPhases(st: State, step: Step, name: string, spec: ModuleSpec, action: Action)
    requires WellFormed(st) && QuietStep(st, step, name, spec) && Chooses(st, name, spec, action)
    ensures Steady(st, name, spec, action) ==> Steady(Next(st, step), name, spec, action)
    ensures Flipping(st, name, spec) ==>
      Flipping(Next(st, step), name, spec) || Steady(Next(st, step), name, spec, Deploy)
  {
    hide WellFormed, Next, Enabled, UpgradeNeeded, SomeNamed, HealthyNamed, GrownCount, ServiceNodes, CanGrow,
      StatusesKept;
    QuietEffect(st, step, name, spec);
    var m, st' := st.modules[name], Next(st, step);
    if SameNodes(st.nodes, st'.nodes, m.service) {
      SameGrownCount(st.nodes, st'.nodes, m.service, spec.replicas);
    } else {
      assert WellKeyed(st.nodes) by { NodesKeyed(st); }
      PassAction(st.nodes, m, step.choice.victims, step.choice.now);
      PassLeavesEnough(st.nodes, m, step.choice.victims, step.choice.now);
      PassGrew(st.nodes, m, step.choice.victims, step.choice.now);
    }
  }

  lemma PassGrew(nodes: Nodes, m: Module, victims: set<Node>, now: string)
    requires Pass(nodes, m, victims, now).Done?
    ensures GrowsPast(nodes, m.service, m.spec.replicas) ==> CanGrow(m)
  {
    hide GrownCount, HostStem;
  }

  lemma SameGrownCount(a: Nodes, b: Nodes, service: string, r: nat)
    requires SameNodes(a, b, service)
    ensures GrownCount(a, service, r) == GrownCount(b, service, r)
  {
  }

  /* ---- the phases of a quiet run ---- */

  lemma {:induction false} PhasesAlong(
    states: seq<State>, steps: seq<Step>, name: string, spec: ModuleSpec, action: Action, i: nat, k: nat)
    requires QuietRun(states, steps, name, spec) && i <= k < |states|
    ensures Steady(states[i], name, spec, action) ==> Steady(states[k], name, spec, action)
    ensures Flipping(states[i], name, spec) ==>
      Flipping(states[k], name, spec) || Steady(states[k], name, spec, Deploy)
  {
    hide WellFormed, Next, Enabled, StatusesKept, Chooses, CanGrow, GrowsPast;
    if i < k {
      PhasesAlong(states, steps, name, spec, action, i, k - 1);
      WellFormedAlong(states, steps, k - 1);
      var s := states[k - 1];
      assert states[k - 1 + 1] == Next(s, steps[k - 1]) && QuietStep(s, steps[k - 1], name, spec);
      if Steady(states[i], name, spec, action) {
        QuietStepPhases(s, steps[k - 1], name, spec, action);
      }
      if Flipping(s, name, spec) {
        QuietStepPhases(s, steps[k - 1], name, spec, Upgrade);
      } else if Steady(s, name, spec, Deploy) {
        QuietStepPhases(s, steps[k - 1], name, spec, Deploy);
      }
    }
  }

  /** Whatever flips later was flipping from the start. */
  lemma FlippingFromStart(states: seq<State>, steps: seq<Step>, name: string, spec: ModuleSpec, i: nat, k: nat)
    requires QuietRun(states, steps, name, spec) && OrderFree(spec, NodesOf(states[0], name)) && i <= k < |states|
    requires Flipping(states[k], name, spec)
    ensures Flipping(states[i], name, spec)
  {
    hide WellFormed, Next, Enabled, StatusesKept, OrderFree, CanGrow, GrowsPast, Chosen;
    var a := Chosen(spec, NodesOf(states[0], name));
    assert Chooses(states[0], name, spec, a);
    PhasesAlong(states, steps, name, spec, a, 0, i);
    PhasesAlong(states, steps, name, spec, a, 0, k);
    PhasesAlong(states, steps, name, spec, Deploy, i, k);
  }

  /** The stored job is missing or is the one for this action. */
  ghost predicate JobFits(st: State, name: string, spec: ModuleSpec, action: Action) {
    name + "-job" in st.jobs ==> JobMatches(st.jobs[name + "-job"], spec, action)
  }

  lemma ChosenAction(st: State, step: Step, name: string, spec: ModuleSpec, action: Action)
    requires WellFormed(st) && Enabled(st, step) && Chooses(st, name, spec, action)
    requires step.ModuleStep? && step.name == name
    ensures ActionOf(spec, step.choice.listing) == action
  {
    hide ActionOf, OrderFree, Chosen, Generated;
    WellKeyedHostnames(st.nodes, st.modules[name].service);
    ChosenInEveryOrder(spec, step.choice.listing, NodesOf(st, name));
  }

  lemma FittingJobStays(st: State, step: Step, name: string, spec: ModuleSpec, action: Action)
    requires WellFormed(st) && Enabled(st, step) && Chooses(st, name, spec, action)
    requires JobFits(st, name, spec, action)
    ensures JobFits(Next(st, step), name, spec, action) && !Replaces(st, step, name)
  {
    hide ActionOf, Pass, StatusFor, BuiltSpec, SpecAgree, Observed, PhaseFor, JobPhase, Generated, OrderFree, Chosen,
      WellKeyed, Lists, SortChoice;
    if step.ModuleStep? && step.name in st.modules {
      if step.name == name {
        ChosenAction(st, step, name, spec, action);
      } else {
        assert step.name + "-job" != name + "-job" by {
          assert (step.name + "-job")[..|step.name + "-job"| - 4] == step.name;
          assert (name + "-job")[..|name + "-job"| - 4] == name;
        }
        ModuleStepJobs(st, step.name, step.choice);
      }
    } else if !step.JobStep? {
      OtherStepJobs(st, step);
    }
  }

  lemma ReplacedThenFits(st: State, step: Step, name: string, spec: ModuleSpec, action: Action)
    requires WellFormed(st) && Replaces(st, step, name) && name in st.modules
    ensures JobFits(Next(st, step), name, spec, action)
  {
    hide ActionOf, Pass, StatusFor, PhaseFor, JobPhase, Generated;
  }

  lemma {:induction false} FitsAlong(
    states: seq<State>, steps: seq<Step>, name: string, spec: ModuleSpec, action: Action, i: nat, k: nat)
    requires QuietRun(states, steps, name, spec) && i <= k < |states|
    requires forall t | i <= t <= k :: Chooses(states[t], name, spec, action)
    requires JobFits(states[i], name, spec, action)
    ensures JobFits(states[k], name, spec, action)
    ensures k < |steps| ==> !Replaces(states[k], steps[k], name)
  {
    hide WellFormed, Chooses, Next, Enabled, JobFits, Replaces, StatusesKept;
    if i < k {
      FitsAlong(states, steps, name, spec, action, i, k - 1);
      WellFormedAlong(states, steps, k - 1);
      assert QuietStep(states[k - 1], steps[k - 1], name, spec);
      FittingJobStays(states[k - 1], steps[k - 1], name, spec, action);
      assert states[k - 1 + 1] == Next(states[k - 1], steps[k - 1]);
    }
    if k < |steps| {
      WellFormedAlong(states, steps, k);
      assert QuietStep(states[k], steps[k], name, spec);
      FittingJobStays(states[k], steps[k], name, spec, action);
    }
  }

  lemma NoneAfterReplacement(
    states: seq<State>, steps: seq<Step>, name: string, spec: ModuleSpec, action: Action, i: nat, k: nat)
    requires QuietRun(states, steps, name, spec) && i < k < |steps| && Replaces(states[i], steps[i], name)
    requires forall t | i < t <= k :: Chooses(states[t], name, spec, action)
    ensures !Replaces(states[k], steps[k], name)
  {
    hide WellFormed, Chooses, Next, Enabled, JobFits, StatusesKept;
    WellFormedAlong(states, steps, i);
    assert QuietStep(states[i], steps[i], name, spec);
    ReplacedThenFits(states[i], steps[i], name, spec, action);
    assert states[i + 1] == Next(states[i], steps[i]);
    FitsAlong(states, steps, name, spec, action, i + 1, k);
  }

  /* ---- counting the replacements ---- */

  /** Between two replacements the choice flips from Upgrade to Deploy, and the job stored
      at the start was one for something else than the upgrade. */
  lemma TwoReplacementsFlip(states: seq<State>, steps: seq<Step>, name: string, spec: ModuleSpec, i: nat, k: nat)
    requires QuietRun(states, steps, name, spec) && OrderFree(spec, NodesOf(states[0], name))
    requires i < k < |steps| && Replaces(states[i], steps[i], name) && Replaces(states[k], steps[k], name)
    ensures Flipping(states[i], name, spec) && Steady(states[k], name, spec, Deploy)
    ensures Flipping(states[0], name, spec) && !JobFits(states[0], name, spec, Upgrade)
  {
    hide WellFormed, Next, Enabled, StatusesKept, OrderFree, CanGrow, GrowsPast, Chosen, JobFits, Replaces;
    var a := Chosen(spec, NodesOf(states[0], name));
    assert Chooses(states[0], name, spec, a);
    PhasesAlong(states, steps, name, spec, a, 0, i);
    if !Flipping(states[i], name, spec) {
      var b := if Flipping(states[0], name, spec) then Deploy else a;
      forall t | i < t <= k ensures Chooses(states[t], name, spec, b) {
        PhasesAlong(states, steps, name, spec, b, i, t);
      }
      NoneAfterReplacement(states, steps, name, spec, b, i, k);
      assert false;
    }
    PhasesAlong(states, steps, name, spec, a, i, k);
    if Flipping(states[k], name, spec) {
      forall t | i < t <= k ensures Chooses(states[t], name, spec, Upgrade) {
        FlippingFromStart(states, steps, name, spec, t, k);
      }
      NoneAfterReplacement(states, steps, name, spec, Upgrade, i, k);
      assert false;
    }
    FlippingFromStart(states, steps, name, spec, 0, i);
    if JobFits(states[0], name, spec, Upgrade) {
      forall t | 0 <= t <= i ensures Chooses(states[t], name, spec, Upgrade) {
        FlippingFromStart(states, steps, name, spec, t, i);
      }
      FitsAlong(states, steps, name, spec, Upgrade, 0, i);
    }
  }

  /** Where the order of listings does not matter, a quiet run of all controllers replaces
      the job of a module at most twice. */
  lemma AtMostTwoReplacements(
    states: seq<State>, steps: seq<Step>, name: string, spec: ModuleSpec, i: nat, j: nat, k: nat)
    requires QuietRun(states, steps, name, spec) && OrderFree(spec, NodesOf(states[0], name))
    requires i < j < k < |steps| && Replaces(states[i], steps[i], name) && Replaces(states[j], steps[j], name)
    ensures !Replaces(states[k], steps[k], name)
  {
    hide WellFormed, Next, Enabled, QuietStep, OrderFree, Replaces, Chooses;
    if Replaces(states[k], steps[k], name) {
      TwoReplacementsFlip(states, steps, name, spec, i, j);
      TwoReplacementsFlip(states, steps, name, spec, j, k);
    }
  }

  /* ---- the runs with two replacements ---- */

  /** A quiet run made longer by one step that leaves this module and its nodes alone, or
      performs a node pass. */
  lemma Extend(states: seq<State>, steps: seq<Step>, name: string, spec: ModuleSpec, step: Step)
    returns (states': seq<State>, steps': seq<Step>)
    requires QuietRun(states, steps, name, spec) && QuietStep(states[|steps|], step, name, spec)
    ensures QuietRun(states', steps', name, spec)
    ensures states' == states + [Next(states[|steps|], step)] && steps' == steps + [step]
  {
    hide WellFormed, Next, Enabled, QuietStep;
    states', steps' := states + [Next(states[|steps|], step)], steps + [step];
    forall i | 0 <= i < |steps'|
      ensures QuietStep(states'[i], steps'[i], name, spec) && Enabled(states'[i], steps'[i])
        && states'[i + 1] == Next(states'[i], steps'[i])
    {
      if i < |steps| {
        assert states'[i] == states[i] && states'[i + 1] == states[i + 1] && steps'[i] == steps[i];
      } else {
        QuietIsEnabled(states'[i], steps'[i], name, spec);
      }
    }
  }

  lemma RunLength(states: seq<State>, steps: seq<Step>, name: string, spec: ModuleSpec)
    requires QuietRun(states, steps, name, spec)
    ensures |states| == |steps| + 1
  {
    hide WellFormed, Next, Enabled, QuietStep;
  }

  lemma QuietIsEnabled(st: State, step: Step, name: string, spec: ModuleSpec)
    requires QuietStep(st, step, name, spec)
    ensures Enabled(st, step)
  {
    hide Enabled;
  }

  lemma SameViewIsQuiet(st: State, step: Step, name: string)
    requires Enabled(st, step) && SameView(st, Next(st, step), name)
    ensures QuietStep(st, step, name, st.modules[name].spec)
  {
    hide WellFormed, Next, Enabled;
  }

  /** The job comes to its end, so that nothing is in the way of a replacement. */
  lemma RunFinish(st: State, name: string) returns (states: seq<State>, steps: seq<Step>)
    requires WellFormed(st) && name in st.modules
    ensures QuietRun(states, steps, name, st.modules[name].spec) && states[0] == st && |steps| == 1
    ensures var st' := states[1];
      && SameView(st, st', name) && JobIdle(st', name)
      && (name + "-job" in st'.jobs <==> name + "-job" in st.jobs)
      && (forall action :: JobIs(st', name, action) <==> JobIs(st, name, action))
  {
    hide WellFormed, JobIs, JobIdle;
    assert QuietRun([st], [], name, st.modules[name].spec);
    var step := JobStep(JobName(st.modules[name]), FINISHED);
    NamedByKey(st, name);
    FinishStep(st, name);
    SameViewIsQuiet(st, step, name);
    states, steps := Extend([st], [], name, st.modules[name].spec, step);
  }

  lemma NamedByKey(st: State, name: string)
    requires WellFormed(st) && name in st.modules
    ensures JobName(st.modules[name]) == name + "-job"
  {
    hide WellKeyed;
  }

  /** Replacing an idle job of the wrong kind and creating the right one. */
  lemma RunReplace(states: seq<State>, steps: seq<Step>, name: string, spec: ModuleSpec, c: Choice)
    returns (states': seq<State>, steps': seq<Step>)
    requires QuietRun(states, steps, name, spec) && WellFormed(states[|steps|]) && name in states[|steps|].modules
    requires var st := states[|steps|];
      && st.modules[name].spec == spec && CanAct(st.modules[name]) && ValidChoice(st, name, c)
      && name + "-job" in st.jobs && JobIdle(st, name) && !JobIs(st, name, ActionOf(spec, c.listing))
    ensures QuietRun(states', steps', name, spec) && |steps'| == |steps| + 2
    ensures |states'| == |steps'| + 1 && (forall i | 0 <= i < |states| :: states'[i] == states[i])
    ensures forall i | 0 <= i < |steps| :: steps'[i] == steps[i]
    ensures Replaces(states'[|steps|], steps'[|steps|], name)
    ensures var st := states'[|steps'|];
      SameView(states[|steps|], st, name) && JobIdle(st, name) && JobIs(st, name, ActionOf(spec, c.listing))
  {
    hide WellFormed, QuietRun, QuietStep, JobIs, JobIdle, ReconcileModule, ValidChoice, ActionOf;
    RunLength(states, steps, name, spec);
    var st, n := states[|steps|], |steps|;
    NamedByKey(st, name);
    ReplaceStep(st, name, c);
    var step := ModuleStep(name, c);
    SameViewIsQuiet(st, step, name);
    states', steps' := Extend(states, steps, name, spec, step);
    var st1 := states'[n + 1];
    ChoiceStays(st, st1, name, c);
    CreateStep(st1, name, c);
    SameViewIsQuiet(st1, step, name);
    states', steps' := Extend(states', steps', name, spec, step);
  }

  /** What makes a second replacement possible: listings that lead to different actions,
      or growth past R during an upgrade that the stored job is not for. */
  ghost predicate CanReplaceTwice(st: State, name: string)
    requires name in st.modules
  {
    var m := st.modules[name];
    || (m.service != "" && !OrderFree(m.spec, NodesOf(st, name)))
    || (Flipping(st, name, m.spec) && !JobFits(st, name, m.spec, Upgrade))
  }

  lemma SameViewKeeps(st: State, st': State, name: string)
    requires SameView(st, st', name)
    ensures NodesOf(st', name) == NodesOf(st, name) && CanAct(st'.modules[name]) == CanAct(st.modules[name])
    ensures Flipping(st, name, st.modules[name].spec) ==> Flipping(st', name, st.modules[name].spec)
  {
    hide WellFormed, OrderFree, Chosen, GrowsPast;
  }

  /** The node pass that flips the choice, right after the upgrade job was created. */
  lemma FlipStep(st: State, name: string, spec: ModuleSpec) returns (c: Choice)
    requires WellFormed(st) && Flipping(st, name, spec) && JobIs(st, name, Upgrade) && JobIdle(st, name)
    ensures QuietStep(st, ModuleStep(name, c), name, spec) && Validated(st, name, c)
    ensures var st' := ReconcileModule(st, name, c).0;
      && name in st'.modules && !UpgradeNeeded(spec, NodesOf(st', name))
      && WellFormed(st') && Steady(st', name, spec, Deploy) && CanAct(st'.modules[name])
      && JobIs(st', name, Upgrade) && JobIdle(st', name)
  {
    hide WellFormed, ReconcileModule, ActionOf, OrderFree, Chosen, UpgradeNeeded, GrownCount, Pass, ServiceNodes,
      JobMatches, ServiceNames;
    var m := st.modules[name];
    var p := ListingExists(NodesOf(st, name));
    c := ChoiceWith(st, name, p);
    var step := ModuleStep(name, c);
    ChosenAction(st, step, name, spec, Upgrade);
    GrowsPastPasses(st.nodes, m, c.victims, c.now);
    PassStep(st, name, c);
    NodesKeyed(st);
    InNodes(st.nodes, m.service);
    forall k | k in ServiceNames(st.nodes, m.service)
      ensures k in Next(st, step).nodes && Next(st, step).nodes[k].status == st.nodes[k].status
    {
      PassStatuses(st.nodes, m, c.victims, c.now, k);
    }
    QuietStepPhases(st, step, name, spec, Upgrade);
    PassLeavesEnough(st.nodes, m, c.victims, c.now);
    PassAction(st.nodes, m, c.victims, c.now);
  }

  lemma InNodes(nodes: Nodes, service: string)
    ensures ServiceNames(nodes, service) <= nodes.Keys
  {
  }

  lemma GrowsPastPasses(nodes: Nodes, m: Module, victims: set<Node>, now: string)
    requires CanGrow(m) && GrowsPast(nodes, m.service, m.spec.replicas)
    ensures Pass(nodes, m, victims, now).Done?
  {
    hide GrownCount, HostStem, Grown;
  }

  lemma FlippingReplacesTwice(st: State, name: string) returns (states: seq<State>, steps: seq<Step>)
    requires WellFormed(st) && name in st.modules
    requires Flipping(st, name, st.modules[name].spec) && !JobFits(st, name, st.modules[name].spec, Upgrade)
    ensures QuietRun(states, steps, name, st.modules[name].spec) && states[0] == st && |steps| == 6
    ensures Replaces(states[1], steps[1], name) && Replaces(states[4], steps[4], name)
  {
    hide WellFormed, QuietRun, QuietStep, JobIdle, ReconcileModule, ActionOf, Flipping, Replaces, SortChoice, Lists,
      OrderFree, Chosen, JobMatches;
    var spec := st.modules[name].spec;
    NamedByKey(st, name);
    states, steps := RunFinish(st, name);
    RunLength(states, steps, name, spec);
    var st1 := states[1];
    NamedByKey(st1, name);
    SameViewKeeps(st, st1, name);
    FlippingActs(st1, name, spec);
    var p := ListingExists(NodesOf(st1, name));
    var c := ChoiceWith(st1, name, p);
    ChosenAction(st1, ModuleStep(name, c), name, spec, Upgrade);
    states, steps := RunReplace(states, steps, name, spec, c);
    RunLength(states, steps, name, spec);
    var st3 := states[3];
    SameViewKeeps(st1, st3, name);
    var d := FlipStep(st3, name, spec);
    states, steps := Extend(states, steps, name, spec, ModuleStep(name, d));
    RunLength(states, steps, name, spec);
    var st4 := states[4];
    NamedByKey(st4, name);
    var q := ListingExists(NodesOf(st4, name));
    var e := ChoiceWith(st4, name, q);
    ChosenAction(st4, ModuleStep(name, e), name, spec, Deploy);
    OnlyOneMatches(st4.jobs[name + "-job"], spec, Upgrade);
    states, steps := RunReplace(states, steps, name, spec, e);
  }

  lemma FlippingActs(st: State, name: string, spec: ModuleSpec)
    requires Flipping(st, name, spec)
    ensures Chooses(st, name, spec, Upgrade) && CanAct(st.modules[name])
  {
    hide Chooses, GrowsPast;
  }

  /** Making sure that a job is stored, and idle. */
  lemma RunPresent(st: State, name: string, c: Choice) returns (states: seq<State>, steps: seq<Step>)
    requires WellFormed(st) && name in st.modules && ValidChoice(st, name, c) && CanAct(st.modules[name])
    ensures QuietRun(states, steps, name, st.modules[name].spec) && states[0] == st && |states| == |steps| + 1
    ensures var st' := states[|steps|];
      SameView(st, st', name) && JobIdle(st', name) && name + "-job" in st'.jobs
  {
    hide WellFormed, QuietRun, QuietStep, JobIdle, ReconcileModule, ActionOf, SortChoice, Lists, JobMatches;
    var spec := st.modules[name].spec;
    NamedByKey(st, name);
    states, steps := RunFinish(st, name);
    RunLength(states, steps, name, spec);
    var st1 := states[1];
    if name + "-job" !in st1.jobs {
      NamedByKey(st1, name);
      ChoiceStays(st, st1, name, c);
      CreateStep(st1, name, c);
      SameViewIsQuiet(st1, ModuleStep(name, c), name);
      states, steps := Extend(states, steps, name, spec, ModuleStep(name, c));
      NamedByKey(states[2], name);
    }
  }

  lemma UnorderedReplacesTwice(st: State, name: string) returns (states: seq<State>, steps: seq<Step>, i: nat)
    requires WellFormed(st) && name in st.modules && st.modules[name].service != ""
    requires !OrderFree(st.modules[name].spec, NodesOf(st, name))
    ensures QuietRun(states, steps, name, st.modules[name].spec) && states[0] == st && i + 2 < |steps| < |states|
    ensures Replaces(states[i], steps[i], name) && Replaces(states[i + 2], steps[i + 2], name)
  {
    hide WellFormed, QuietRun, QuietStep, JobIdle, ReconcileModule, ActionOf, SortChoice, Lists, JobMatches, OrderFree,
      UniqueHostnames;
    var m := st.modules[name];
    var spec := m.spec;
    assert UniqueHostnames(NodesOf(st, name)) by {
      NodesKeyed(st);
      WellKeyedHostnames(st.nodes, m.service);
    }
    var p, q := BothActions(spec, NodesOf(st, name));
    var up := ChoiceWith(st, name, p);
    var down := ChoiceWith(st, name, q);
    states, steps := RunPresent(st, name, up);
    i := |steps|;
    var st1 := states[i];
    NamedByKey(st1, name);
    ChoiceStays(st, st1, name, up);
    ChoiceStays(st, st1, name, down);
    var first, second := up, down;
    if JobIs(st1, name, Upgrade) {
      OnlyOneMatches(st1.jobs[name + "-job"], spec, Upgrade);
      first, second := down, up;
    }
    states, steps := RunReplace(states, steps, name, spec, first);
    var st2 := states[|steps|];
    NamedByKey(st2, name);
    ChoiceStays(st1, st2, name, second);
    OnlyOneMatches(st2.jobs[name + "-job"], spec, ActionOf(spec, first.listing));
    states, steps := RunReplace(states, steps, name, spec, second);
  }

  lemma UpgradeNeedsReplicas(spec: ModuleSpec, all: set<Node>)
    ensures !OrderFree(spec, all) ==> spec.replicas > 0
  {
  }

  lemma {:induction false} StaysNameless(states: seq<State>, steps: seq<Step>, name: string, spec: ModuleSpec, i: nat)
    requires QuietRun(states, steps, name, spec) && i < |states|
    requires states[0].modules[name].service == "" && spec.replicas > 0
    ensures name in states[i].modules && states[i].modules[name].spec == spec && states[i].modules[name].service == ""
    ensures i < |steps| ==> !Replaces(states[i], steps[i], name)
  {
    hide WellFormed, Enabled, StatusesKept, Pass, ActionOf, Next, StatusFor;
    if i > 0 {
      StaysNameless(states, steps, name, spec, i - 1);
      WellFormedAlong(states, steps, i - 1);
      assert QuietStep(states[i - 1], steps[i - 1], name, spec);
      assert states[i - 1 + 1] == Next(states[i - 1], steps[i - 1]);
      QuietEffect(states[i - 1], steps[i - 1], name, spec);
    }
  }

  /** The run replaces the job at two of its steps. */
  ghost predicate ReplacesTwice(states: seq<State>, steps: seq<Step>, name: string) {
    |steps| < |states| && exists i, k ::
      0 <= i < k < |steps| && Replaces(states[i], steps[i], name) && Replaces(states[k], steps[k], name)
  }

  /** While the spec of a module and the statuses of its nodes stay as they are, growing
      and marking included, every run of all controllers replaces its job at most once,
      exactly unless an upgrade is due and either the order of listings matters, or the
      nodes would grow past R and the stored job is not the upgrade. */
  lemma AtMostOneReplacementIff(st: State, name: string)
    requires WellFormed(st) && name in st.modules
    ensures (forall states, steps |
        QuietRun(states, steps, name, st.modules[name].spec) && states[0] == st :: !ReplacesTwice(states, steps, name))
      <==> !CanReplaceTwice(st, name)
  {
    hide WellFormed, QuietStep, Next, Enabled, OrderFree, Chosen, GrowsPast, Replaces, NodesOf, Flipping, JobFits;
    var m := st.modules[name];
    if CanReplaceTwice(st, name) {
      if m.service != "" && !OrderFree(m.spec, NodesOf(st, name)) {
        var states, steps, i := UnorderedReplacesTwice(st, name);
        assert ReplacesTwice(states, steps, name);
      } else {
        var states, steps := FlippingReplacesTwice(st, name);
        RunLength(states, steps, name, m.spec);
        assert ReplacesTwice(states, steps, name);
      }
    } else {
      forall states, steps | QuietRun(states, steps, name, m.spec) && states[0] == st
        ensures !ReplacesTwice(states, steps, name)
      {
        NotTwice(states, steps, name, m.spec);
      }
    }
  }

  lemma NotTwice(states: seq<State>, steps: seq<Step>, name: string, spec: ModuleSpec)
    requires QuietRun(states, steps, name, spec)
    requires !CanReplaceTwice(states[0], name)
    ensures !ReplacesTwice(states, steps, name)
  {
    hide WellFormed, QuietStep, Next, Enabled, OrderFree, Chosen, GrowsPast, Replaces, NodesOf, Flipping, JobFits;
    if ReplacesTwice(states, steps, name) {
      var i, k :| 0 <= i < k < |steps| && Replaces(states[i], steps[i], name) && Replaces(states[k], steps[k], name);
      if OrderFree(spec, NodesOf(states[0], name)) {
        TwoReplacementsFlip(states, steps, name, spec, i, k);
      } else {
        UpgradeNeedsReplicas(spec, NodesOf(states[0], name));
        StaysNameless(states, steps, name, spec, i);
      }
    }
  }
}

/** The node set of one service at a fixed replica count R, over finite and infinite runs
    of all controllers. */
module Convergence {
  import opened Sets
  import opened Decimal
  import opened Model
  import opened NodeUtils
  import opened NodeSet
  import opened ModuleLogic
  import opened Protocol

  /** The module asks for `r` nodes whose hostnames have a digit-free prefix. */
  predicate Target(m: Module, service: string, r: nat) {
    && m.service == service != "" && m.app != ""
    && m.spec.replicas == r <= MAX_INT
    && HostStem(m).Some? && DigitFree(HostStem(m).value)
  }

  /** The premise of convergence: no index below R is marked, and either there are fewer
      than R nodes or all indices below R exist. */
  ghost predicate Ready(nodes: Nodes, service: string, r: nat) {
    && AllPlain(ServiceNodes(nodes, service))
    && (forall k | k in nodes && k in LowNames(service, r) :: nodes[k].deletionDate == "")
    && (|ServiceNames(nodes, service)| < r || LowNames(service, r) <= ServiceNames(nodes, service))
  }

  ghost function Surplus(nodes: Nodes, service: string, r: nat): set<string> {
    ServiceNames(nodes, service) - LowNames(service, r)
  }

  /** What one step may do to the nodes of the service: nothing appears but unmarked low
      indices, low indices stay and stay unmarked, marks stay, and only a marked node
      whose machine is gone disappears. */
  ghost predicate Safe(nodes: Nodes, nodes': Nodes, service: string, r: nat) {
    var names, names', low := ServiceNames(nodes, service), ServiceNames(nodes', service), LowNames(service, r);
    && (names' <= names || low <= names')
    && (forall k | k in names' && k !in names :: k in low && nodes'[k].deletionDate == "")
    && (forall k | k in names && k !in names' ::
          k !in low && nodes[k].deletionDate != "" && nodes[k].status.properties.id == GONE)
    && (forall k | k in names && k in names' :: nodes'[k].deletionDate == nodes[k].deletionDate ||
          (k !in low && nodes[k].deletionDate == "" && nodes'[k].deletionDate != ""))
  }

  lemma LowNodesAreOwn(nodes: Nodes, service: string, r: nat, k: string)
    requires WellKeyed(nodes) && k in nodes && k in LowNames(service, r)
    ensures k in ServiceNames(nodes, service)
  {
    hide Generated, NodeName;
    var i :| 0 <= i < r && k == NodeName(service, i);
    NameTakenByOwn(nodes, service, i);
  }

  lemma SafeKeepsMarks(nodes: Nodes, nodes': Nodes, service: string, r: nat)
    requires WellKeyed(nodes) && WellKeyed(nodes') && Ready(nodes, service, r) && Safe(nodes, nodes', service, r)
    requires AllPlain(ServiceNodes(nodes', service))
    ensures Ready(nodes', service, r)
    ensures Surplus(nodes', service, r) <= Surplus(nodes, service, r)
  {
    hide Generated, Plain, LowNames;
    forall k | k in nodes' && k in LowNames(service, r) ensures nodes'[k].deletionDate == "" {
      LowNodesAreOwn(nodes', service, r, k);
    }
    if ServiceNames(nodes', service) <= ServiceNames(nodes, service) {
      SubsetSize(ServiceNames(nodes', service), ServiceNames(nodes, service));
    }
  }

  /* ---- each kind of step ---- */

  lemma GrowIsSafe(nodes: Nodes, service: string, stem: string, r: nat)
    requires WellKeyed(nodes) && AllPlain(ServiceNodes(nodes, service)) && DigitFree(stem) && r <= MAX_INT
    ensures var g := Grown(nodes, service, stem, r);
      Safe(nodes, g, service, r) && AllPlain(ServiceNodes(g, service))
        && LowNames(service, r) <= ServiceNames(g, service)
  {
    hide Generated, Plain, Grown, NodeName, Index;
    GrownExactly(nodes, service, stem, r);
    var g := Grown(nodes, service, stem, r);
    NewNodesPlain(service, stem, r);
    forall k | k in g && g[k].service == service ensures Plain(g[k]) {
      if k in nodes {
        assert nodes[k] in ServiceNodes(nodes, service);
      } else {
        var i :| 0 <= i < r && k == NodeName(service, i);
        IndexOfNodeName(service, i);
        assert g[k] == NewNode(service, stem, i);
      }
    }
  }

  lemma NewNodesPlain(service: string, stem: string, r: nat)
    requires DigitFree(stem) && r <= MAX_INT
    ensures forall i: nat | i < r :: Plain(NewNode(service, stem, i)) && NewNode(service, stem, i).deletionDate == ""
  {
    hide Plain;
  }

  lemma MarkSurplus(nodes: Nodes, service: string, r: nat, victims: set<string>, now: string)
    requires now != "" && victims == Surplus(nodes, service, r)
    requires LowNames(service, r) <= ServiceNames(nodes, service)
    ensures var m := Marked(nodes, victims, now);
      && Safe(nodes, m, service, r) && ServiceNames(m, service) == ServiceNames(nodes, service)
      && (forall k | k in Surplus(m, service, r) :: m[k].deletionDate != "")
  {
    hide LowNames;
    var m := Marked(nodes, victims, now);
    assert ServiceNames(m, service) == ServiceNames(nodes, service);
  }

  lemma MarkIsSafe(nodes: Nodes, service: string, r: nat, victims: set<Node>, now: string)
    requires WellKeyed(nodes) && Ready(nodes, service, r) && now != ""
    requires |ServiceNodes(nodes, service)| > r && Victims(ServiceNodes(nodes, service), r, victims)
    ensures var m := Marked(nodes, Names(victims), now);
      && Safe(nodes, m, service, r) && AllPlain(ServiceNodes(m, service))
      && ServiceNames(m, service) == ServiceNames(nodes, service)
      && (forall k | k in Surplus(m, service, r) :: m[k].deletionDate != "")
  {
    hide Generated, Plain, LowNames, Victims, KeyNumber, Safe, Marked;
    ServiceNodesFacts(nodes, service);
    VictimsAboveLow(nodes, service, r, victims);
    MarkSurplus(nodes, service, r, Names(victims), now);
    MarkedPlain(nodes, service, Names(victims), now);
  }

  lemma OwnPassIsSafe(nodes: Nodes, m: Module, victims: set<Node>, now: string)
    requires WellKeyed(nodes) && Ready(nodes, m.service, m.spec.replicas)
    requires Target(m, m.service, m.spec.replicas) && SortChoice(nodes, m, victims) && now != ""
    ensures var p := Pass(nodes, m, victims, now);
      && p.Done?
      && Safe(nodes, p.nodes, m.service, m.spec.replicas)
      && AllPlain(ServiceNodes(p.nodes, m.service))
      && LowNames(m.service, m.spec.replicas) <= ServiceNames(p.nodes, m.service)
      && (LowNames(m.service, m.spec.replicas) <= ServiceNames(nodes, m.service) ==>
            forall k | k in Surplus(p.nodes, m.service, m.spec.replicas) :: p.nodes[k].deletionDate != "")
  {
    hide Generated, Plain, Grown, Marked, LowNames, Victims, Safe, HostStem;
    var all, r := ServiceNodes(nodes, m.service), m.spec.replicas;
    ServiceNodesFacts(nodes, m.service);
    LowNamesCardinality(m.service, r);
    if |all| < r {
      GrowIsSafe(nodes, m.service, HostStem(m).value, r);
      if LowNames(m.service, r) <= ServiceNames(nodes, m.service) {
        SubsetSize(LowNames(m.service, r), ServiceNames(nodes, m.service));
      }
    } else if |all| > r {
      PlainNodesSort(all);
      MarkIsSafe(nodes, m.service, r, victims, now);
    } else {
      SubsetSize(LowNames(m.service, r), ServiceNames(nodes, m.service));
      SameIsSafe(nodes, m.service, r);
    }
  }

  lemma SameIsSafe(nodes: Nodes, service: string, r: nat)
    ensures Safe(nodes, nodes, service, r)
  {
  }

  /** A node reconcile deletes a deletable node or changes one status. */
  lemma NodeStepChanges(st: State, name: string, seen: Observation)
    ensures var nodes, nodes' := st.nodes, ReconcileNode(st, name, seen).nodes;
      && (forall k | k in nodes' :: k in nodes && nodes'[k] == nodes[k].(status := nodes'[k].status))
      && (forall k | k in nodes && k !in nodes' :: Deletable(nodes[k]))
  {
    hide Observed;
  }

  lemma StatusChangesAreSafe(nodes: Nodes, nodes': Nodes, service: string, r: nat)
    requires forall k | k in nodes' :: k in nodes && nodes'[k] == nodes[k].(status := nodes'[k].status)
    requires forall k | k in nodes && k !in nodes' :: Deletable(nodes[k])
    requires forall k | k in nodes && k in LowNames(service, r) :: nodes[k].deletionDate == ""
    ensures Safe(nodes, nodes', service, r)
  {
    hide LowNames;
  }

  lemma StatusChangesPlain(nodes: Nodes, nodes': Nodes, service: string)
    requires forall k | k in nodes' :: k in nodes && nodes'[k] == nodes[k].(status := nodes'[k].status)
    requires AllPlain(ServiceNodes(nodes, service))
    ensures AllPlain(ServiceNodes(nodes', service))
  {
    hide Generated, Plain;
    forall k | k in nodes' && nodes'[k].service == service ensures Plain(nodes'[k]) {
      assert nodes[k] in ServiceNodes(nodes, service);
      PlainSurvives(nodes[k], nodes'[k]);
    }
  }

  lemma NodeStepIsSafe(st: State, name: string, seen: Observation, service: string, r: nat)
    requires Ready(st.nodes, service, r)
    ensures var nodes' := ReconcileNode(st, name, seen).nodes;
      Safe(st.nodes, nodes', service, r) && AllPlain(ServiceNodes(nodes', service))
  {
    hide Generated, Plain, LowNames, ReconcileNode, Safe;
    NodeStepChanges(st, name, seen);
    StatusChangesAreSafe(st.nodes, ReconcileNode(st, name, seen).nodes, service, r);
    StatusChangesPlain(st.nodes, ReconcileNode(st, name, seen).nodes, service);
  }

  lemma OtherPassIsSafe(nodes: Nodes, m: Module, victims: set<Node>, now: string, service: string, r: nat)
    requires WellKeyed(nodes) && Pass(nodes, m, victims, now).Done? && SortChoice(nodes, m, victims)
    requires m.service != service && Ready(nodes, service, r)
    ensures var nodes' := Pass(nodes, m, victims, now).nodes;
      Safe(nodes, nodes', service, r) && AllPlain(ServiceNodes(nodes', service))
  {
    hide Generated, Plain, Grown, LowNames, Pass, Victims, SortChoice;
    PassElsewhere(nodes, m, victims, now, service);
    PassKeepsWellKeyed(nodes, m, victims, now);
    var nodes' := Pass(nodes, m, victims, now).nodes;
    forall k | k in ServiceNames(nodes, service) ensures nodes'[k] == nodes[k] {
      assert nodes[k] in ServiceNodes(nodes', service);
    }
  }

  /** Every step of every controller keeps the premise and is safe for this service. */
  lemma StepIsSafe(st: State, step: Step, name: string, service: string, r: nat)
    requires WellFormed(st) && Enabled(st, step) && Ready(st.nodes, service, r)
    requires name in st.modules && Target(st.modules[name], service, r)
    ensures var st' := Next(st, step);
      && Ready(st'.nodes, service, r) && Safe(st.nodes, st'.nodes, service, r)
      && Surplus(st'.nodes, service, r) <= Surplus(st.nodes, service, r)
  {
    hide Generated, Plain, Ready, Safe, Pass, Target, ReconcileModule, ReconcileNode, ReconcileService, Surplus,
      SortChoice;
    var st' := Next(st, step);
    StepKeepsWellFormed(st, step);
    assert AllPlain(ServiceNodes(st.nodes, service)) by { ReadyIsPlain(st.nodes, service, r); }
    if step.ModuleStep? && step.name in st.modules {
      var m, c := st.modules[step.name], step.choice;
      ModuleStepObjects(st, step.name, c);
      if st'.nodes == st.nodes {
        SameIsSafe(st.nodes, service, r);
      } else if m.service == service {
        TargetModule(st, name, step.name, service, r);
        OwnPassIsSafe(st.nodes, m, c.victims, c.now);
      } else {
        OtherPassIsSafe(st.nodes, m, c.victims, c.now, service, r);
      }
    } else if step.NodeStep? {
      NodeStepIsSafe(st, step.node, step.seen, service, r);
    } else {
      OtherStepNodes(st, step);
      SameIsSafe(st.nodes, service, r);
    }
    SafeKeepsMarks(st.nodes, st'.nodes, service, r);
  }

  lemma ReadyIsPlain(nodes: Nodes, service: string, r: nat)
    requires Ready(nodes, service, r)
    ensures AllPlain(ServiceNodes(nodes, service))
  {
    hide Plain;
  }

  /** A service has one module. */
  lemma TargetModule(st: State, name: string, other: string, service: string, r: nat)
    requires WellFormed(st) && name in st.modules && Target(st.modules[name], service, r)
    requires other in st.modules && st.modules[other].service == service
    ensures other == name && st.modules[other].spec.replicas == r
  {
    hide WellKeyed, HostStem;
  }

  /* ---- finite runs ---- */

  ghost predicate TargetThroughout(states: seq<State>, name: string, service: string, r: nat) {
    forall i | 0 <= i < |states| :: name in states[i].modules && Target(states[i].modules[name], service, r)
  }

  /** Over any run of all controllers with R fixed: no index below R is ever marked or
      deleted, once all of them exist they stay, and the surplus only shrinks. */
  lemma {:induction false} LowNodesAreSafe(
    states: seq<State>, steps: seq<Step>, name: string, service: string, r: nat, i: nat, k: nat)
    requires IsRun(states, steps) && TargetThroughout(states, name, service, r)
    requires Ready(states[0].nodes, service, r) && i <= k < |states|
    ensures WellFormed(states[k]) && Ready(states[k].nodes, service, r)
    ensures forall n | n in LowNames(service, r) && n in states[i].nodes ::
      n in states[k].nodes && states[k].nodes[n].deletionDate == ""
    ensures Surplus(states[k].nodes, service, r) <= Surplus(states[i].nodes, service, r)
  {
    hide Enabled, Next, WellFormed, Target, LowNames, Safe, Ready, Surplus;
    if i < k {
      LowNodesAreSafe(states, steps, name, service, r, i, k - 1);
      assert states[k - 1 + 1] == Next(states[k - 1], steps[k - 1]);
      StepKeepsWellFormed(states[k - 1], steps[k - 1]);
      StepIsSafe(states[k - 1], steps[k - 1], name, service, r);
      LowStays(states[k - 1], states[k], service, r);
    } else if k > 0 {
      LowNodesAreSafe(states, steps, name, service, r, k - 1, k - 1);
      assert states[k - 1 + 1] == Next(states[k - 1], steps[k - 1]);
      StepKeepsWellFormed(states[k - 1], steps[k - 1]);
      StepIsSafe(states[k - 1], steps[k - 1], name, service, r);
      LowUnmarked(states[k].nodes, service, r);
    } else {
      LowUnmarked(states[0].nodes, service, r);
    }
  }

  lemma LowUnmarked(nodes: Nodes, service: string, r: nat)
    requires Ready(nodes, service, r)
    ensures forall n | n in LowNames(service, r) && n in nodes :: nodes[n].deletionDate == ""
  {
    hide LowNames, Plain;
  }

  lemma LowStays(st: State, st': State, service: string, r: nat)
    requires WellFormed(st) && Ready(st'.nodes, service, r) && Safe(st.nodes, st'.nodes, service, r)
    ensures forall n | n in LowNames(service, r) && n in st.nodes ::
      n in st'.nodes && st'.nodes[n].deletionDate == ""
  {
    hide LowNames, Plain, Generated;
    forall n | n in LowNames(service, r) && n in st.nodes ensures n in st'.nodes {
      LowNodesAreOwn(st.nodes, service, r, n);
    }
    LowUnmarked(st'.nodes, service, r);
  }
}

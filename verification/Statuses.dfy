/** Who writes the status of a node, and what follows for the choice of the action. */
module Statuses {
  import opened Model
  import opened NodeUtils
  import opened NodeSet
  import opened ModuleLogic
  import opened Protocol
  import opened Jobs

  /** A node is new, and then without a status; or only the node controller, looking at
      this node, changed its status. */
  lemma StatusStep(st: State, step: Step, node: string)
    requires WellFormed(st) && Enabled(st, step) && node in Next(st, step).nodes
    ensures node !in st.nodes ==> Next(st, step).nodes[node].status == NO_STATUS
    ensures node in st.nodes && Next(st, step).nodes[node].status != st.nodes[node].status ==>
      step.NodeStep? && step.node == node
      && !(st.nodes[node].deletionDate != "" && st.nodes[node].status.properties.id == GONE)
      && Next(st, step).nodes[node].status == Observed(st.nodes[node].status, step.seen)
  {
    hide Pass, ReconcileModule, Observed, WellKeyed, ReconcileService;
    if step.ModuleStep? && step.name in st.modules {
      var m, c := st.modules[step.name], step.choice;
      ModuleStepObjects(st, step.name, c);
      if Pass(st.nodes, m, c.victims, c.now).Done? {
        NodesKeyed(st);
        PassStatuses(st.nodes, m, c.victims, c.now, node);
      }
    } else if !step.NodeStep? {
      OtherStepNodes(st, step);
    }
  }

  /** Consul was asked for a node by its name, so a machine it reports has one. */
  predicate Naming(step: Step) {
    step.NodeStep? && step.seen.Machine? ==> step.seen.properties.node != ""
  }

  ghost predicate AllNamed(nodes: Nodes) {
    forall k | k in nodes && Works(nodes[k]) :: nodes[k].status.properties.node != ""
  }

  lemma NamingStep(st: State, step: Step)
    requires WellFormed(st) && Enabled(st, step) && AllNamed(st.nodes) && Naming(step)
    ensures AllNamed(Next(st, step).nodes)
  {
    hide Next, Enabled, WellFormed, Deletable;
    var nodes' := Next(st, step).nodes;
    forall k | k in nodes' && Works(nodes'[k]) ensures nodes'[k].status.properties.node != "" {
      StatusStep(st, step, k);
      if k in st.nodes && nodes'[k].status == st.nodes[k].status {
        assert Works(st.nodes[k]);
      }
    }
  }

  lemma {:induction false} NamedAlong(states: seq<State>, steps: seq<Step>, i: nat)
    requires IsRun(states, steps) && AllNamed(states[0].nodes) && i < |states|
    requires forall j | 0 <= j < |steps| :: Naming(steps[j])
    ensures WellFormed(states[i]) && AllNamed(states[i].nodes)
  {
    hide WellFormed, Next, Enabled, AllNamed, Naming;
    if i > 0 {
      NamedAlong(states, steps, i - 1);
      StepKeepsWellFormed(states[i - 1], steps[i - 1]);
      NamingStep(states[i - 1], steps[i - 1]);
      assert states[i - 1 + 1] == Next(states[i - 1], steps[i - 1]);
    }
  }

  /** So in every run of all controllers the action of every reconcile is the rule, in
      whatever order the nodes were listed. */
  lemma RunsFollowRule(states: seq<State>, steps: seq<Step>, i: nat)
    requires IsRun(states, steps) && AllNamed(states[0].nodes) && i < |steps|
    requires forall j | 0 <= j < |steps| :: Naming(steps[j])
    requires steps[i].ModuleStep? && steps[i].name in states[i].modules
    ensures var m := states[i].modules[steps[i].name];
      ActionOf(m.spec, steps[i].choice.listing) == ActionRule(m.spec, ServiceNodes(states[i].nodes, m.service))
  {
    hide WellFormed, Next, ActionOf, UpgradeNeeded, Works, Lists, SortChoice;
    NamedAlong(states, steps, i);
    var st, m := states[i], states[i].modules[steps[i].name];
    var all := ServiceNodes(st.nodes, m.service);
    NodesKeyed(st);
    WellKeyedHostnames(st.nodes, m.service);
    assert Enabled(st, steps[i]);
    ActionIsRuleIff(m.spec, all);
  }

  /* ---- what one look at Consul does ---- */

  /** The node reconcile deletes exactly what is marked and known to have no machine, and
      touches no other node. */
  lemma NodeStepDeletesIff(st: State, node: string, seen: Observation, k: string)
    ensures var nodes' := Next(st, NodeStep(node, seen)).nodes;
      && (k in st.nodes && k !in nodes' <==>
            k == node && k in st.nodes && st.nodes[k].deletionDate != "" && st.nodes[k].status.properties.id == GONE)
      && (k in nodes' ==> k in st.nodes && (k != node ==> nodes'[k] == st.nodes[k]))
      && (k in nodes' ==> nodes'[k] == st.nodes[k].(status := nodes'[k].status))
  {
    hide Observed;
  }

  /** What is stored after a look that does not delete: a request that fails leaves it; a
      missing machine and a failed connection leave nothing of the machine; a machine
      stores what Consul said, the old checks only if it reported none. */
  lemma LookStores(st: State, node: string, seen: Observation)
    requires node in st.nodes && node in Next(st, NodeStep(node, seen)).nodes
    ensures var before, after := st.nodes[node].status, Next(st, NodeStep(node, seen)).nodes[node].status;
      && (seen == CatalogError || seen == HealthError ==> after == before)
      && (seen == NoMachine ==> after.properties.id == after.properties.node == "non-existent-machine")
      && (seen.ConnectionError? ==>
            after.properties.id == "consul-connection-error" && after.properties.node == seen.message)
      && (seen == NoMachine || seen.ConnectionError? ==>
            after.healthChecks == [] && after.properties.flavor == after.properties.image == ""
            && after.properties.address == after.properties.publicAddress == "")
      && (seen.Machine? ==>
            after.properties == seen.properties
            && after.healthChecks == if seen.healthChecks != [] then seen.healthChecks else before.healthChecks)
  {
  }

  /* ---- where the ID of a missing machine comes from ---- */

  /** Consul did not know the machine, or gave it that very ID. */
  predicate SawGone(step: Step, node: string) {
    step.NodeStep? && step.node == node
    && (step.seen.NoMachine? || (step.seen.Machine? && step.seen.properties.id == "non-existent-machine"))
  }

  lemma GoneComesFromLook(st: State, step: Step, node: string)
    requires WellFormed(st) && Enabled(st, step) && node in Next(st, step).nodes
    requires Next(st, step).nodes[node].status.properties.id == GONE
    ensures node in st.nodes && (st.nodes[node].status.properties.id == GONE || SawGone(step, node))
  {
    hide Next, Enabled, WellFormed;
    StatusStep(st, step, node);
    assert |NO_STATUS.properties.id| != |GONE| && |"consul-connection-error"| != |GONE|;
  }

  /** From time `g` on the node is stored with the ID of a missing machine; that began with
      a look in vain, or with the run. */
  ghost predicate GoneSince(states: seq<State>, steps: seq<Step>, g: nat, i: nat, node: string) {
    && g <= i < |states| == |steps| + 1
    && (forall k | g <= k <= i :: node in states[k].nodes && states[k].nodes[node].status.properties.id == GONE)
    && (g == 0 || SawGone(steps[g - 1], node))
  }

  lemma {:induction false} GoneWasLookedFor(states: seq<State>, steps: seq<Step>, i: nat, node: string) returns (g: nat)
    requires IsRun(states, steps) && i < |states|
    requires node in states[i].nodes && states[i].nodes[node].status.properties.id == GONE
    ensures GoneSince(states, steps, g, i, node)
  {
    hide WellFormed, Next, Enabled, SawGone;
    g := i;
    if i > 0 {
      var before := states[i - 1];
      WellFormedAlong(states, steps, i - 1);
      assert states[i - 1 + 1] == Next(before, steps[i - 1]);
      GoneComesFromLook(before, steps[i - 1], node);
      if node in before.nodes && before.nodes[node].status.properties.id == GONE {
        g := GoneWasLookedFor(states, steps, i - 1, node);
      }
    }
  }

  lemma OnlyNodeStepsDelete(st: State, step: Step, node: string)
    requires WellFormed(st) && Enabled(st, step) && node in st.nodes && node !in Next(st, step).nodes
    ensures step.NodeStep? && step.node == node
    ensures st.nodes[node].deletionDate != "" && st.nodes[node].status.properties.id == GONE
  {
    hide Pass, ReconcileModule, Observed, WellKeyed, ReconcileService;
    if step.ModuleStep? && step.name in st.modules {
      var m, c := st.modules[step.name], step.choice;
      ModuleStepObjects(st, step.name, c);
      if Pass(st.nodes, m, c.victims, c.now).Done? {
        NodesKeyed(st);
        PassStatuses(st.nodes, m, c.victims, c.now, node);
      }
    } else if !step.NodeStep? {
      OtherStepNodes(st, step);
    }
  }

  /** Over every run of all controllers a node is deleted only by its own reconcile, while
      it is marked, and after Consul was asked for its machine in vain. */
  lemma DeletedWasLookedFor(states: seq<State>, steps: seq<Step>, i: nat, node: string) returns (g: nat)
    requires IsRun(states, steps) && i < |steps|
    requires node in states[i].nodes && node !in states[i + 1].nodes
    ensures steps[i].NodeStep? && steps[i].node == node && states[i].nodes[node].deletionDate != ""
    ensures GoneSince(states, steps, g, i, node)
  {
    hide WellFormed, Next, Enabled, GoneSince;
    WellFormedAlong(states, steps, i);
    assert states[i + 1] == Next(states[i], steps[i]) && Enabled(states[i], steps[i]);
    OnlyNodeStepsDelete(states[i], steps[i], node);
    g := GoneWasLookedFor(states, steps, i, node);
  }
}

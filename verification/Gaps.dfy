/** Why the premise of convergence is needed: a gap below R is never filled once R or more
    nodes exist. */
module Gaps {
  import opened Sets
  import opened Model
  import opened NodeUtils
  import opened NodeSet
  import opened ModuleLogic
  import opened Protocol
  import opened Convergence
  import opened FairRuns

  /** `kept` are the R lowest nodes of the service, unmarked, and the name `gap` below R is
      not among the nodes. */
  ghost predicate Stuck(nodes: Nodes, service: string, r: nat, kept: set<string>, gap: string) {
    && AllPlain(ServiceNodes(nodes, service))
    && kept <= ServiceNames(nodes, service) && |kept| == r
    && (forall k | k in kept :: k in nodes && nodes[k].deletionDate == "")
    && (forall k, x | k in kept && x in ServiceNames(nodes, service) - kept :: Index(k) <= Index(x))
    && gap in LowNames(service, r) && gap !in ServiceNames(nodes, service)
  }

  /** The nodes outside `kept` are the ones that a sort puts from place R on. */
  lemma OutsideKept(nodes: Nodes, service: string, r: nat, kept: set<string>, gap: string) returns (w: set<Node>)
    requires WellKeyed(nodes) && Stuck(nodes, service, r, kept, gap)
    ensures Victims(ServiceNodes(nodes, service), r, w) && Names(w) !! kept
  {
    hide Generated, Plain, Index, KeyNumber, LowNames, NodeName;
    var all := ServiceNodes(nodes, service);
    w := set n | n in all && n.name !in kept;
    ServiceNodesFacts(nodes, service);
    OutsideSize(nodes, service, kept, w);
    forall v, k | v in w && k in all - w ensures KeyNumber(k) <= KeyNumber(v) {
      PlainKey(k);
      PlainKey(v);
      assert k.name in kept && v.name in ServiceNames(nodes, service) - kept;
    }
  }

  lemma VictimsAvoidKept(nodes: Nodes, service: string, r: nat, kept: set<string>, gap: string, victims: set<Node>)
    requires WellKeyed(nodes) && Stuck(nodes, service, r, kept, gap)
    requires Victims(ServiceNodes(nodes, service), r, victims)
    ensures Names(victims) !! kept
  {
    hide Generated, Plain, Index, KeyNumber, LowNames, Victims, Names;
    var w := OutsideKept(nodes, service, r, kept, gap);
    ServiceNodesFacts(nodes, service);
    VictimsUnique(ServiceNodes(nodes, service), r, victims, w);
  }

  lemma StuckMarked(
    nodes: Nodes, service: string, r: nat, kept: set<string>, gap: string, victims: set<string>, now: string)
    requires Stuck(nodes, service, r, kept, gap) && victims !! kept
    ensures Stuck(Marked(nodes, victims, now), service, r, kept, gap)
  {
    hide Generated, Plain, Index, LowNames;
    MarkedPlain(nodes, service, victims, now);
    assert ServiceNames(Marked(nodes, victims, now), service) == ServiceNames(nodes, service);
  }

  lemma StuckPass(nodes: Nodes, m: Module, victims: set<Node>, now: string, kept: set<string>, gap: string)
    requires WellKeyed(nodes) && Stuck(nodes, m.service, m.spec.replicas, kept, gap)
    requires Pass(nodes, m, victims, now).Done? && SortChoice(nodes, m, victims)
    ensures Stuck(Pass(nodes, m, victims, now).nodes, m.service, m.spec.replicas, kept, gap)
  {
    hide Generated, Plain, Index, KeyNumber, LowNames, Marked, Grown;
    ServiceNodesFacts(nodes, m.service);
    SubsetSize(kept, ServiceNames(nodes, m.service));
    if |ServiceNodes(nodes, m.service)| > m.spec.replicas {
      VictimsAvoidKept(nodes, m.service, m.spec.replicas, kept, gap, victims);
      StuckMarked(nodes, m.service, m.spec.replicas, kept, gap, Names(victims), now);
    }
  }

  lemma StuckChanges(nodes: Nodes, nodes': Nodes, service: string, r: nat, kept: set<string>, gap: string)
    requires forall k | k in nodes' :: k in nodes && nodes'[k] == nodes[k].(status := nodes'[k].status)
    requires forall k | k in nodes && k !in nodes' :: Deletable(nodes[k])
    requires Stuck(nodes, service, r, kept, gap)
    ensures Stuck(nodes', service, r, kept, gap)
  {
    hide Generated, Plain, Index, LowNames;
    StatusChangesPlain(nodes, nodes', service);
    assert ServiceNames(nodes', service) <= ServiceNames(nodes, service);
  }

  lemma StuckElsewhere(nodes: Nodes, nodes': Nodes, service: string, r: nat, kept: set<string>, gap: string)
    requires Stuck(nodes, service, r, kept, gap) && WellKeyed(nodes) && WellKeyed(nodes')
    requires ServiceNodes(nodes', service) == ServiceNodes(nodes, service)
    requires ServiceNames(nodes', service) == ServiceNames(nodes, service)
    ensures Stuck(nodes', service, r, kept, gap)
  {
    hide Generated, Plain, Index, LowNames;
    forall k | k in kept ensures k in nodes' && nodes'[k] == nodes[k] {
      assert nodes[k] in ServiceNodes(nodes', service);
    }
  }

  lemma StuckStep(st: State, step: Step, name: string, service: string, r: nat, kept: set<string>, gap: string)
    requires WellFormed(st) && Enabled(st, step) && Stuck(st.nodes, service, r, kept, gap)
    requires name in st.modules && Target(st.modules[name], service, r)
    ensures Stuck(Next(st, step).nodes, service, r, kept, gap)
  {
    hide Generated, Plain, Stuck, Pass, Target, ReconcileModule, ReconcileNode, ReconcileService, SortChoice, WellKeyed;
    var st' := Next(st, step);
    StepKeepsWellFormed(st, step);
    if step.ModuleStep? && step.name in st.modules {
      var m, c := st.modules[step.name], step.choice;
      ModuleStepObjects(st, step.name, c);
      if st'.nodes != st.nodes {
        if m.service == service {
          TargetModule(st, name, step.name, service, r);
          StuckPass(st.nodes, m, c.victims, c.now, kept, gap);
        } else {
          PassElsewhere(st.nodes, m, c.victims, c.now, service);
          StuckElsewhere(st.nodes, st'.nodes, service, r, kept, gap);
        }
      }
    } else if step.NodeStep? {
      NodeStepChanges(st, step.node, step.seen);
      StuckChanges(st.nodes, st'.nodes, service, r, kept, gap);
    } else {
      OtherStepNodes(st, step);
    }
  }

  lemma {:induction false} StuckForever(
    states: States, steps: Steps, name: string, service: string, r: nat, kept: set<string>, gap: string, i: nat)
    requires IsBehavior(states, steps) && TargetForever(states, name, service, r)
    requires Stuck(states(0).nodes, service, r, kept, gap)
    ensures Stuck(states(i).nodes, service, r, kept, gap)
  {
    hide WellFormed, Next, Enabled, Target, Stuck;
    if i > 0 {
      StuckForever(states, steps, name, service, r, kept, gap, i - 1);
      WellFormedAt(states, steps, i - 1);
      StuckStep(states(i - 1), steps(i - 1), name, service, r, kept, gap);
      assert states(i - 1 + 1) == Next(states(i - 1), steps(i - 1));
    }
  }

  /* ---- the R lowest names ---- */

  lemma {:induction false} LowestNames(names: set<string>, r: nat) returns (kept: set<string>)
    requires r <= |names|
    ensures kept <= names && |kept| == r
    ensures forall k, x | k in kept && x in names - kept :: Index(k) <= Index(x)
    decreases |names|
  {
    hide Index;
    if |names| == r {
      kept := names;
    } else {
      var m := Highest(names, Index);
      kept := LowestNames(names - {m}, r);
    }
  }

  ghost predicate Unmarked(nodes: Nodes, service: string) {
    forall k | k in ServiceNames(nodes, service) :: nodes[k].deletionDate == ""
  }

  lemma GapIsStuck(nodes: Nodes, service: string, r: nat) returns (kept: set<string>, gap: string)
    requires WellKeyed(nodes) && AllPlain(ServiceNodes(nodes, service)) && Unmarked(nodes, service)
    requires |ServiceNames(nodes, service)| >= r && !(LowNames(service, r) <= ServiceNames(nodes, service))
    ensures Stuck(nodes, service, r, kept, gap)
  {
    hide Generated, Plain, Index, LowNames;
    kept := LowestNames(ServiceNames(nodes, service), r);
    gap :| gap in LowNames(service, r) && gap !in ServiceNames(nodes, service);
  }

  lemma UnmarkedIsReady(nodes: Nodes, service: string, r: nat)
    requires WellKeyed(nodes) && AllPlain(ServiceNodes(nodes, service)) && Unmarked(nodes, service)
    requires |ServiceNames(nodes, service)| < r || LowNames(service, r) <= ServiceNames(nodes, service)
    ensures Ready(nodes, service, r)
  {
    hide Generated, Plain, LowNames;
    forall k | k in nodes && k in LowNames(service, r) ensures nodes[k].deletionDate == "" {
      LowNodesAreOwn(nodes, service, r, k);
    }
  }

  /** From an unmarked node set a fair behavior converges to 0..R-1 if and only if there
      are fewer than R nodes at the start or all indices below R exist. */
  lemma ConvergesIff(states: States, steps: Steps, name: string, service: string, r: nat)
    requires IsBehavior(states, steps) && TargetForever(states, name, service, r) && Fair(states, steps, name)
    requires AllPlain(ServiceNodes(states(0).nodes, service)) && Unmarked(states(0).nodes, service)
    ensures (exists t: nat :: ConvergedFrom(states, t, service, r)) <==>
      |ServiceNames(states(0).nodes, service)| < r || LowNames(service, r) <= ServiceNames(states(0).nodes, service)
  {
    hide TargetForever, Fair, LowNames, ServiceNames, ServiceNodes, AllPlain, Unmarked, WellKeyed, Ready;
    var nodes := states(0).nodes;
    if |ServiceNames(nodes, service)| < r || LowNames(service, r) <= ServiceNames(nodes, service) {
      UnmarkedIsReady(nodes, service, r);
      NodesKeyed(states(0));
      ReadyRecovers(nodes, service, r);
      Converges(states, steps, name, service, r);
    } else {
      var kept, gap := GapIsStuck(nodes, service, r);
      forall t: nat ensures !ConvergedFrom(states, t, service, r) {
        StuckForever(states, steps, name, service, r, kept, gap, t);
        assert gap in LowNames(service, r) && gap !in ServiceNames(states(t).nodes, service);
      }
    }
  }
}

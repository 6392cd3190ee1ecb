/** Every step of the controllers is a move on the indices of a service, or leaves them. */
module Refinement {
  import opened Model
  import opened NodeUtils
  import opened NodeSet
  import opened ModuleLogic
  import opened Protocol
  import opened Convergence
  import opened Recovery

  ghost function Indices(names: set<string>): set<nat> {
    set k | k in names :: Index(k)
  }

  ghost function MarkedNames(nodes: Nodes, service: string): set<string> {
    set k | k in nodes && nodes[k].service == service && nodes[k].deletionDate != ""
  }

  ghost function ConfigOf(nodes: Nodes, service: string): Config {
    Config(Indices(ServiceNames(nodes, service)), Indices(MarkedNames(nodes, service)))
  }

  /* ---- names and indices ---- */

  ghost predicate NamedFor(names: set<string>, service: string) {
    forall k | k in names :: k == NodeName(service, Index(k))
  }

  lemma OwnNames(nodes: Nodes, service: string)
    requires WellKeyed(nodes)
    ensures NamedFor(ServiceNames(nodes, service), service)
    ensures MarkedNames(nodes, service) <= ServiceNames(nodes, service)
  {
    hide NodeName, Index;
  }

  lemma InIndices(names: set<string>, service: string, i: nat)
    requires NamedFor(names, service)
    ensures i in Indices(names) <==> NodeName(service, i) in names
  {
    hide NodeName, Index;
    IndexOfNodeName(service, i);
  }

  lemma {:induction false} IndicesSize(names: set<string>, service: string)
    requires NamedFor(names, service)
    ensures |Indices(names)| == |names|
    decreases names
  {
    hide NodeName, Index;
    if names != {} {
      var k :| k in names;
      IndicesSize(names - {k}, service);
      InIndices(names - {k}, service, Index(k));
      assert Indices(names) == Indices(names - {k}) + {Index(k)};
    } else {
      assert Indices(names) == {};
    }
  }

  lemma LowIndices(service: string, r: nat)
    ensures NamedFor(LowNames(service, r), service) && Indices(LowNames(service, r)) == Low(r)
  {
    hide NodeName, Index, Low;
    forall k | k in LowNames(service, r) ensures k == NodeName(service, Index(k)) && Index(k) in Low(r) {
      var i :| 0 <= i < r && k == NodeName(service, i);
      IndexOfNodeName(service, i);
    }
    forall i | i in Low(r) ensures i in Indices(LowNames(service, r)) {
      assert NodeName(service, i) in LowNames(service, r);
      InIndices(LowNames(service, r), service, i);
    }
  }

  /** Membership in the configuration, by name. */
  lemma InConfig(nodes: Nodes, service: string, i: nat)
    requires WellKeyed(nodes)
    ensures var c, name := ConfigOf(nodes, service), NodeName(service, i);
      && (i in c.all <==> name in ServiceNames(nodes, service))
      && (i in c.marked <==> name in nodes && nodes[name].service == service && nodes[name].deletionDate != "")
  {
    hide NodeName, Index, Indices, WellKeyed, ServiceNames;
    OwnNames(nodes, service);
    InIndices(ServiceNames(nodes, service), service, i);
    InIndices(MarkedNames(nodes, service), service, i);
  }

  lemma ConfigFacts(nodes: Nodes, service: string)
    requires WellKeyed(nodes)
    ensures Valid(ConfigOf(nodes, service)) && |ConfigOf(nodes, service).all| == |ServiceNames(nodes, service)|
    ensures |ServiceNodes(nodes, service)| == |ServiceNames(nodes, service)|
  {
    hide NodeName, Index, WellKeyed, ServiceNames, MarkedNames;
    OwnNames(nodes, service);
    IndicesSize(ServiceNames(nodes, service), service);
    ServiceNodesFacts(nodes, service);
  }

  lemma NamesByIndices(nodes: Nodes, service: string, r: nat)
    requires WellKeyed(nodes)
    ensures ConfigOf(nodes, service).all == Low(r) <==> ServiceNames(nodes, service) == LowNames(service, r)
  {
    hide NodeName, Index, Indices, WellKeyed, ServiceNames, LowNames, Low;
    OwnNames(nodes, service);
    LowIndices(service, r);
    if ConfigOf(nodes, service).all == Low(r) {
      forall k | k in ServiceNames(nodes, service) || k in LowNames(service, r)
        ensures k in ServiceNames(nodes, service) && k in LowNames(service, r)
      {
        InIndices(ServiceNames(nodes, service), service, Index(k));
        InIndices(LowNames(service, r), service, Index(k));
      }
    }
  }

  /* ---- the moves ---- */

  lemma SameConfig(nodes: Nodes, nodes': Nodes, service: string)
    requires WellKeyed(nodes) && WellKeyed(nodes')
    requires ServiceNodes(nodes', service) == ServiceNodes(nodes, service)
    ensures ConfigOf(nodes', service) == ConfigOf(nodes, service)
  {
    hide Generated, Index;
    forall k ensures k in nodes && nodes[k].service == service <==> k in nodes' && nodes'[k].service == service {
      if k in nodes && nodes[k].service == service {
        assert nodes[k] in ServiceNodes(nodes', service);
      }
      if k in nodes' && nodes'[k].service == service {
        assert nodes'[k] in ServiceNodes(nodes, service);
      }
    }
    forall k | k in nodes && nodes[k].service == service ensures nodes'[k] == nodes[k] {
      assert nodes[k] in ServiceNodes(nodes', service);
    }
  }

  lemma GrownMarks(nodes: Nodes, g: Nodes, service: string)
    requires forall k | k in nodes :: k in g && g[k] == nodes[k]
    requires forall k | k in g && k !in nodes :: g[k].deletionDate == ""
    ensures MarkedNames(g, service) == MarkedNames(nodes, service)
  {
  }

  lemma IndicesUnion(a: set<string>, b: set<string>)
    ensures Indices(a + b) == Indices(a) + Indices(b)
  {
    hide Index;
  }

  lemma GrowMoves(nodes: Nodes, service: string, stem: string, r: nat)
    requires WellKeyed(nodes) && |ServiceNames(nodes, service)| < r
    ensures WellKeyed(Grown(nodes, service, stem, r))
    ensures ConfigOf(Grown(nodes, service, stem, r), service) == Moved(ConfigOf(nodes, service), Pass, r)
  {
    hide NodeName, Index, Generated, Grown, LowNames, Low, NewNode, Indices, ServiceNames, MarkedNames, ServiceNodes;
    var g := Grown(nodes, service, stem, r);
    GrownExactly(nodes, service, stem, r);
    ConfigFacts(nodes, service);
    LowIndices(service, r);
    NewUnmarked(service, stem);
    IndicesUnion(ServiceNames(nodes, service), LowNames(service, r));
    GrownMarks(nodes, g, service);
  }

  lemma NewUnmarked(service: string, stem: string)
    ensures forall i :: NewNode(service, stem, i).deletionDate == ""
  {
  }

  lemma RankByIndex(nodes: Nodes, service: string, i: nat)
    requires WellKeyed(nodes)
    ensures |Lower(ConfigOf(nodes, service).all, i)|
      == |ModuleLogic.Below(ServiceNames(nodes, service), NodeName(service, i))|
  {
    hide NodeName, Index, Generated, ServiceNames;
    OwnNames(nodes, service);
    IndexOfNodeName(service, i);
    var below := ModuleLogic.Below(ServiceNames(nodes, service), NodeName(service, i));
    IndicesSize(below, service);
    assert Lower(ConfigOf(nodes, service).all, i) == Indices(below);
  }

  lemma MarkMoves(nodes: Nodes, m: Module, victims: set<Node>, now: string)
    requires WellKeyed(nodes) && AllPlain(ServiceNodes(nodes, m.service))
    requires m.app != "" && m.service != "" && now != "" && SortChoice(nodes, m, victims)
    requires |ServiceNames(nodes, m.service)| > m.spec.replicas
    ensures var p := ModuleLogic.Pass(nodes, m, victims, now);
      && p.Done? && WellKeyed(p.nodes)
      && ConfigOf(p.nodes, m.service) == Moved(ConfigOf(nodes, m.service), Pass, m.spec.replicas)
  {
    hide NodeName, Index, Generated, Plain, Victims, ModuleLogic.Below, Indices, Lower, SortChoice;
    var service, r := m.service, m.spec.replicas;
    ConfigFacts(nodes, service);
    PlainNodesSort(ServiceNodes(nodes, service));
    MarkedFacts(nodes, Names(victims), now);
    var nodes' := ModuleLogic.Pass(nodes, m, victims, now).nodes;
    var c, c' := ConfigOf(nodes, service), ConfigOf(nodes', service);
    forall i: nat ensures i in c'.marked <==> i in c.marked || i in Top(c.all, r) {
      var name := NodeName(service, i);
      InConfig(nodes, service, i);
      InConfig(nodes', service, i);
      if i in c.all {
        RankByIndex(nodes, service, i);
        ScaleDownMarksHighest(nodes, m, victims, now, name);
      }
    }
  }

  /** The pass of the module is the pass of the configuration. */
  lemma PassMoves(nodes: Nodes, m: Module, victims: set<Node>, now: string)
    requires WellKeyed(nodes) && AllPlain(ServiceNodes(nodes, m.service)) && now != ""
    requires Target(m, m.service, m.spec.replicas) && SortChoice(nodes, m, victims)
    ensures var p := ModuleLogic.Pass(nodes, m, victims, now);
      && p.Done? && WellKeyed(p.nodes) && AllPlain(ServiceNodes(p.nodes, m.service))
      && ConfigOf(p.nodes, m.service) == Moved(ConfigOf(nodes, m.service), Pass, m.spec.replicas)
  {
    hide Generated, Plain, Grown, Marked, Victims, SortWorks, HostStem, ConfigOf, SortChoice, Names, Safe;
    var service, r := m.service, m.spec.replicas;
    ConfigFacts(nodes, service);
    if |ServiceNames(nodes, service)| < r {
      GrowMoves(nodes, service, HostStem(m).value, r);
      GrowIsSafe(nodes, service, HostStem(m).value, r);
    } else if |ServiceNames(nodes, service)| > r {
      MarkMoves(nodes, m, victims, now);
      MarkedPlain(nodes, service, Names(victims), now);
    } else {
      PassIdle(ConfigOf(nodes, service), r);
    }
  }

  /** A node reconcile deletes a marked node or leaves the configuration. */
  lemma NodeStepMoves(st: State, node: string, seen: Observation, service: string, r: nat)
    requires WellKeyed(st.nodes)
    ensures var c, c' := ConfigOf(st.nodes, service), ConfigOf(ReconcileNode(st, node, seen).nodes, service);
      c' == c || c' == Moved(c, Delete(Index(node)), r)
  {
    hide NodeName, Index, Observed, Low, Indices, WellKeyed;
    NodeStepChanges(st, node, seen);
    if node in st.nodes && Deletable(st.nodes[node]) {
      DeleteMoves(st.nodes, node, service, r);
    } else {
      StatusMoves(st.nodes, ReconcileNode(st, node, seen).nodes, service);
    }
  }

  lemma StatusMoves(nodes: Nodes, nodes': Nodes, service: string)
    requires nodes'.Keys == nodes.Keys
    requires forall k | k in nodes' :: nodes'[k] == nodes[k].(status := nodes'[k].status)
    ensures ConfigOf(nodes', service) == ConfigOf(nodes, service)
  {
    hide Index;
    assert ServiceNames(nodes', service) == ServiceNames(nodes, service);
    assert MarkedNames(nodes', service) == MarkedNames(nodes, service);
  }

  lemma IndicesMinus(names: set<string>, service: string, k: string)
    requires NamedFor(names, service) && k in names
    ensures Indices(names - {k}) == Indices(names) - {Index(k)}
  {
    hide NodeName, Index;
  }

  lemma DeleteMoves(nodes: Nodes, node: string, service: string, r: nat)
    requires WellKeyed(nodes) && node in nodes && nodes[node].deletionDate != ""
    ensures var nodes' := nodes - {node};
      ConfigOf(nodes', service) == if nodes[node].service == service
        then Moved(ConfigOf(nodes, service), Delete(Index(node)), r) else ConfigOf(nodes, service)
  {
    hide NodeName, Index, Indices, WellKeyed;
    var nodes' := nodes - {node};
    OwnNames(nodes, service);
    if nodes[node].service == service {
      assert ServiceNames(nodes', service) == ServiceNames(nodes, service) - {node};
      assert MarkedNames(nodes', service) == MarkedNames(nodes, service) - {node};
      IndicesMinus(ServiceNames(nodes, service), service, node);
      IndicesMinus(MarkedNames(nodes, service), service, node);
      InIndices(MarkedNames(nodes, service), service, Index(node));
    } else {
      assert ServiceNames(nodes', service) == ServiceNames(nodes, service);
      assert MarkedNames(nodes', service) == MarkedNames(nodes, service);
    }
  }

  /** Every step of every controller, the job controller and the user makes a move on the
      indices of this service or leaves them. */
  lemma StepMoves(st: State, step: Step, name: string, service: string, r: nat)
    requires WellFormed(st) && Enabled(st, step) && AllPlain(ServiceNodes(st.nodes, service))
    requires name in st.modules && Target(st.modules[name], service, r)
    ensures var c, c' := ConfigOf(st.nodes, service), ConfigOf(Next(st, step).nodes, service);
      && AllPlain(ServiceNodes(Next(st, step).nodes, service))
      && (c' == c || exists move :: c' == Moved(c, move, r))
  {
    hide WellKeyed, Generated, Plain, ModuleLogic.Pass, Target, ReconcileModule, ReconcileNode, ReconcileService,
      SortChoice, ConfigOf, Moved, ServiceNodes, ServiceNames, AllPlain, Lists;
    var st' := Next(st, step);
    StepKeepsWellFormed(st, step);
    NodesKeyed(st);
    NodesKeyed(st');
    if step.ModuleStep? && step.name in st.modules {
      var m, c := st.modules[step.name], step.choice;
      ModuleStepObjects(st, step.name, c);
      if st'.nodes == st.nodes {
      } else if m.service == service {
        TargetModule(st, name, step.name, service, r);
        PassMoves(st.nodes, m, c.victims, c.now);
      } else {
        PassElsewhere(st.nodes, m, c.victims, c.now, service);
        SameConfig(st.nodes, st'.nodes, service);
      }
    } else if step.NodeStep? {
      NodeStepMoves(st, step.node, step.seen, service, r);
      NodeStepChanges(st, step.node, step.seen);
      StatusChangesPlain(st.nodes, st'.nodes, service);
    } else {
      OtherStepNodes(st, step);
    }
  }
}

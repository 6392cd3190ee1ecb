/** What one node pass of the module controller leaves behind. */
module NodePasses {
  import opened Decimal
  import opened Model
  import opened NodeSet
  import opened EnvVars
  import opened ServiceEnv
  import opened ModuleLogic

  /** The search for the last match reads the environment as a process would see it. */
  lemma {:induction false} LastValueIsSeen(env: Env, name: string, default: string)
    ensures LastValue(env, name, default) == if name in AsMap(env) then AsMap(env)[name] else default
  {
    if env != [] {
      LastValueIsSeen(env[..|env| - 1], name, default);
    }
  }

  /** The part of a hostname before the index. Clusters and node pools carry the name of
      their cluster, which only a cluster can take from its own service. */
  ghost predicate IsStem(stem: string, m: Module) {
    var told := AsMap(m.spec.env);
    if m.app == "kubernetes-cluster" then
      if "CLUSTER_NAME" in told then stem == told["CLUSTER_NAME"] + "-" + m.service
      else stem == m.service + "-" + m.service
    else if m.app == "kubernetes-nodepool" then
      "CLUSTER_NAME" in told && told["CLUSTER_NAME"] != "" && stem == told["CLUSTER_NAME"] + "-" + m.service
    else stem == m.app
  }

  lemma StemMeans(m: Module)
    ensures HostStem(m).Some? ==> IsStem(HostStem(m).value, m)
    ensures HostStem(m).None? <==>
      m.app == "kubernetes-nodepool"
      && ("CLUSTER_NAME" in AsMap(m.spec.env) ==> AsMap(m.spec.env)["CLUSTER_NAME"] == "")
  {
    hide AsMap, LastValue;
    LastValueIsSeen(m.spec.env, "CLUSTER_NAME", m.service);
    LastValueIsSeen(m.spec.env, "CLUSTER_NAME", "");
    assert "kubernetes-cluster"[11] != "kubernetes-nodepool"[11];
  }

  /** A node that a pass creates: index, names, hostname, and nothing else yet. */
  ghost predicate IsNew(n: Node, m: Module, i: nat) {
    && i < m.spec.replicas
    && n.name == m.service + "-node-" + Print(i) && n.service == m.service && n.deletionDate == ""
    && n.status.properties.id == n.status.properties.image == n.status.properties.flavor == ""
    && n.status.healthChecks == []
    && exists stem :: IsStem(stem, m) && n.hostname == stem + "-" + Print(i)
  }

  lemma NewNodeIsNew(m: Module, i: nat)
    requires HostStem(m).Some? && i < m.spec.replicas
    ensures IsNew(NewNode(m.service, HostStem(m).value, i), m, i)
  {
    hide IsStem, HostStem, Print;
    StemMeans(m);
    assert NodeName(m.service, i) == m.service + "-node-" + Print(i);
  }

  /** What a pass does to each node: the missing ones below R are created, some are marked
      with the time of the pass, and nothing else changes. */
  lemma PassLeaves(nodes: Nodes, m: Module, victims: set<Node>, now: string, k: string)
    requires WellKeyed(nodes) && Pass(nodes, m, victims, now).Done?
    ensures var nodes' := Pass(nodes, m, victims, now).nodes;
      && (k in nodes' && k !in nodes ==> exists i: nat :: IsNew(nodes'[k], m, i) && nodes'[k].name == k)
      && (k in nodes ==> k in nodes')
      && (k in nodes && nodes'[k] != nodes[k] ==>
            nodes[k].deletionDate == "" && nodes'[k] == nodes[k].(deletionDate := now))
  {
    hide Grown, Generated, HostStem, SortWorks, NodeName, NewNode, IsNew, Index;
    var nodes' := Pass(nodes, m, victims, now).nodes;
    if |ServiceNodes(nodes, m.service)| < m.spec.replicas {
      var stem := HostStem(m).value;
      GrownExactly(nodes, m.service, stem, m.spec.replicas);
      if k in nodes' && k !in nodes {
        var i :| 0 <= i < m.spec.replicas && k == NodeName(m.service, i);
        IndexOfNodeName(m.service, i);
        NewNodeIsNew(m, i);
      }
    }
  }

  /** When a pass is refused: a module without its annotations; a node pool without a
      cluster name that has too few nodes; or too many nodes, one of them with a hostname
      that has no number, or one that does not fit in an int. */
  lemma PassFailsIff(nodes: Nodes, m: Module, victims: set<Node>, now: string)
    ensures var all := ServiceNodes(nodes, m.service);
      Pass(nodes, m, victims, now).Rejected? <==>
        || m.app == "" || m.service == ""
        || (|all| < m.spec.replicas && m.app == "kubernetes-nodepool"
            && ("CLUSTER_NAME" in AsMap(m.spec.env) ==> AsMap(m.spec.env)["CLUSTER_NAME"] == ""))
        || (|all| > m.spec.replicas && |all| >= 2 && exists n :: n in all && !HostnameKey(n.hostname).Key?)
  {
    hide AsMap, Grown, HostStem, HostnameKey, ServiceNodes;
    StemMeans(m);
  }
}

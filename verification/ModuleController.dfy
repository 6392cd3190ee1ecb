/** pkg/controller/module/module_controller.go, as an object over the API server. */
module ModuleController {
  import opened Wrappers
  import opened Decimal
  import opened Model
  import opened NodeUtils
  import opened NodeSet
  import opened ServiceEnv
  import opened ModuleLogic
  import opened Protocol
  import opened Controllers

  datatype PassOutcome = PassDone | PassFailed(error: PassError) | PassCrashed

  lemma SortableListing(sorted: seq<Node>, all: set<Node>)
    requires Lists(sorted, all)
    ensures (|sorted| < 2 || Sortable(sorted)) <==> SortWorks(all)
  {
    hide HostnameKey;
    ListingLength(sorted, all);
    assert forall n :: n in sorted <==> n in Elements(sorted);
    assert forall k | 0 <= k < |sorted| :: sorted[k] in sorted;
  }

  lemma StoredItem(nodes: Nodes, service: string, sorted: seq<Node>, idx: nat)
    requires WellKeyed(nodes) && Lists(sorted, ServiceNodes(nodes, service)) && idx < |sorted|
    ensures sorted[idx].name in nodes && nodes[sorted[idx].name] == sorted[idx]
  {
    hide Generated;
    assert sorted[idx] in Elements(sorted);
  }

  lemma MarkNone(nodes: Nodes, sorted: seq<Node>, from: nat, now: string)
    requires from <= |sorted|
    ensures Marked(nodes, Names(Elements(sorted[from..from])), now) == nodes
  {
  }

  lemma MarkOneMore(nodes: Nodes, sorted: seq<Node>, from: nat, idx: nat, now: string)
    requires from <= idx < |sorted| && now != ""
    requires sorted[idx].name in nodes && nodes[sorted[idx].name] == sorted[idx]
    requires forall i | from <= i < idx :: sorted[i].name in nodes && nodes[sorted[i].name] == sorted[i]
    requires NoDuplicates(sorted)
    ensures var item := sorted[idx];
      var before := Marked(nodes, Names(Elements(sorted[from..idx])), now);
      Marked(nodes, Names(Elements(sorted[from..idx + 1])), now) ==
        if item.deletionDate == "" then before[item.name := item.(deletionDate := now)] else before
  {
    var item := sorted[idx];
    assert sorted[from..idx + 1] == sorted[from..idx] + [item];
    assert Elements(sorted[from..idx + 1]) == Elements(sorted[from..idx]) + {item};
    assert Names(Elements(sorted[from..idx + 1])) == Names(Elements(sorted[from..idx])) + {item.name};
  }

  /** The healthy nodes on this image and flavor. */
  ghost function UpdatedTo(all: set<Node>, image: string, flavor: string): set<Node> {
    set n | n in all && WorksOn(n, image, flavor)
  }

  ghost function OfService(items: seq<Node>, service: string): set<Node> {
    set n | n in items && n.service == service
  }

  lemma NothingScanned(items: seq<Node>, service: string, image: string, flavor: string)
    ensures HealthyOf(OfService(items[..0], service)) == UpdatedTo(OfService(items[..0], service), image, flavor) == {}
  {
  }

  lemma OneScanned(items: seq<Node>, service: string, image: string, flavor: string, i: nat)
    requires NoDuplicates(items) && i < |items|
    ensures var before, after := OfService(items[..i], service), OfService(items[..i + 1], service);
      var n := items[i];
      && |HealthyOf(after)| == |HealthyOf(before)| + (if n.service == service && Works(n) then 1 else 0)
      && |UpdatedTo(after, image, flavor)| == |UpdatedTo(before, image, flavor)|
           + (if n.service == service && WorksOn(n, image, flavor) then 1 else 0)
  {
    hide WorksOn, Works, HealthyOf, UpdatedTo;
    var before := OfService(items[..i], service);
    var n := items[i];
    assert items[..i + 1] == items[..i] + [n];
    assert n !in before;
    assert OfService(items[..i + 1], service) == if n.service == service then before + {n} else before;
    if n.service == service {
      HealthyWith(before, n);
      UpdatedWith(before, n, image, flavor);
    }
  }

  lemma HealthyWith(all: set<Node>, n: Node)
    requires n !in all
    ensures |HealthyOf(all + {n})| == |HealthyOf(all)| + if Works(n) then 1 else 0
  {
    hide Works;
    assert HealthyOf(all + {n}) == HealthyOf(all) + if Works(n) then {n} else {};
  }

  lemma UpdatedWith(all: set<Node>, n: Node, image: string, flavor: string)
    requires n !in all
    ensures |UpdatedTo(all + {n}, image, flavor)|
      == |UpdatedTo(all, image, flavor)| + if WorksOn(n, image, flavor) then 1 else 0
  {
    hide WorksOn;
    assert UpdatedTo(all + {n}, image, flavor)
      == UpdatedTo(all, image, flavor) + if WorksOn(n, image, flavor) then {n} else {};
  }

  lemma AllScanned(items: seq<Node>, nodes: Nodes, service: string)
    requires Lists(items, set k | k in nodes :: nodes[k])
    ensures OfService(items[..|items|], service) == ServiceNodes(nodes, service)
  {
    assert items[..|items|] == items;
    assert forall n :: n in items <==> n in Elements(items);
  }

  class ModuleReconciler {
    const api: ApiServer

    constructor (api: ApiServer)
      ensures this.api == api
    {
      this.api := api;
    }

    /** None stands for the error on an empty service name. */
    method RetrieveNodesForService(service: string) returns (appNodes: Option<seq<Node>>)
      requires WellFormed(api.View())
      ensures appNodes.None? <==> service == ""
      ensures appNodes.Some? ==> Lists(appNodes.value, ServiceNodes(api.nodes, service))
    {
      hide Generated;
      if service == "" {
        return None;
      }
      var items := api.ListNodes();
      var found: seq<Node> := [];
      for i := 0 to |items|
        invariant NoDuplicates(found)
        invariant Elements(found) == set n | n in items[..i] && n.service == service
      {
        assert items[..i + 1] == items[..i] + [items[i]];
        if items[i].service == service {
          assert items[i] !in Elements(found);
          ghost var before := found;
          found := found + [items[i]];
          assert forall n :: n in before ==> n in Elements(before);
          assert Elements(found) == Elements(before) + {items[i]};
        }
      }
      assert items[..|items|] == items;
      assert forall n :: n in items <==> n in Elements(items);
      assert Elements(found) == ServiceNodes(api.nodes, service);
      return Some(found);
    }

    /** None stands for the error of the listing. */
    method ChooseModuleAction(m: Module) returns (action: Option<Action>, ghost listing: seq<Node>)
      requires WellFormed(api.View())
      ensures Lists(listing, ServiceNodes(api.nodes, m.service))
      ensures action.None? <==> m.spec.replicas > 0 && m.service == ""
      ensures action.Some? ==> action.value == ActionOf(m.spec, listing)
    {
      hide Generated, ServiceNodes, ConsistentWith, Count;
      if m.spec.replicas == 0 {
        listing := ListingExists(ServiceNodes(api.nodes, m.service));
        return Some(Destroy), listing;
      }
      var moduleNodes := RetrieveNodesForService(m.service);
      if moduleNodes.None? {
        listing := ListingExists(ServiceNodes(api.nodes, m.service));
        return None, listing;
      }
      var nodes := moduleNodes.value;
      listing := nodes;
      var count := GetNodesCount(nodes);
      if count == 0 || m.spec.replicas < count {
        return Some(Deploy), listing;
      }
      var consistent, healthyNode := NodesAreConsistent(nodes);
      if !consistent {
        return Some(Upgrade), listing;
      }
      if healthyNode.status.properties.node != "" {
        if !EqNodeFlavor(healthyNode, m.spec.flavor) || !EqNodeImage(healthyNode, m.spec.image) {
          return Some(Upgrade), listing;
        }
      }
      return Some(Deploy), listing;
    }

    /** The scan over all nodes of the namespace counts the nodes of the service: nothing
        is lost, and nothing of another service is counted. */
    method GetUpdatedNodes(service: string, action: Action, image: string, flavor: string)
      returns (currentReplicas: int, updatedReplicas: int)
      requires WellFormed(api.View())
      ensures var all := ServiceNodes(api.nodes, service);
        var healthy := |HealthyOf(all)|;
        && updatedReplicas == |UpdatedTo(all, image, flavor)|
        && currentReplicas == if action == Deploy then healthy else healthy - updatedReplicas
    {
      hide Generated, NodeIsHealthy, Works, HealthyOf, UpdatedTo, OfService;
      var items := api.ListNodes();
      currentReplicas, updatedReplicas := 0, 0;
      NothingScanned(items, service, image, flavor);
      for i := 0 to |items|
        invariant updatedReplicas == |UpdatedTo(OfService(items[..i], service), image, flavor)|
        invariant currentReplicas ==
          |HealthyOf(OfService(items[..i], service))| - if action == Deploy then 0 else updatedReplicas
      {
        var node := items[i];
        OneScanned(items, service, image, flavor, i);
        HealthyIsUp(node);
        if node.service == service {
          if NodeIsHealthy(node) {
            if node.status.properties.image == image && node.status.properties.flavor == flavor {
              updatedReplicas := updatedReplicas + 1;
              if action == Deploy {
                currentReplicas := currentReplicas + 1;
              }
            } else {
              currentReplicas := currentReplicas + 1;
            }
          }
        }
      }
      AllScanned(items, api.nodes, service);
    }

    method UpdateModuleStatus(m: Module, action: Action, phase: Phase)
      requires WellFormed(api.View()) && m.name in api.modules && api.modules[m.name] == m
      modifies api`modules
      ensures api.View() == WithStatus(old(api.View()), m, action, phase)
    {
      hide Generated, ServiceNodes;
      var cur, upd := GetUpdatedNodes(m.service, action, m.spec.image, m.spec.flavor);
      var status := ModuleStatus(phase, m.spec.replicas, cur, upd);
      if m.status != status {
        api.modules := api.modules[m.name := m.(status := status)];
      }
      assert UpdatedTo(ServiceNodes(api.nodes, m.service), m.spec.image, m.spec.flavor)
        == UpdatedOf(ServiceNodes(api.nodes, m.service), m.spec);
      assert status == StatusFor(m.spec, action, phase, ServiceNodes(api.nodes, m.service));
      assert m.status == status ==> api.modules[m.name := m.(status := status)] == api.modules;
    }

    /** The search for CLUSTER_NAME: the last match wins. */
    method ClusterName(m: Module, start: string) returns (clusterName: string)
      ensures clusterName == LastValue(m.spec.env, CLUSTER_NAME, start)
    {
      clusterName := start;
      var env := m.spec.env;
      for i := 0 to |env|
        invariant clusterName == LastValue(env[..i], CLUSTER_NAME, start)
      {
        assert env[..i + 1][..i] == env[..i];
        if env[i].name == CLUSTER_NAME {
          clusterName := env[i].value;
        }
      }
      assert env[..|env|] == env;
    }

    /** The hostname of a new node without its index. */
    method SpecHostname(m: Module) returns (stem: Option<string>)
      ensures stem == HostStem(m)
    {
      hide LastValue;
      if m.app == "kubernetes-cluster" {
        var clusterName := ClusterName(m, m.service);
        return Some(clusterName + "-" + m.service);
      } else if m.app == "kubernetes-nodepool" {
        var clusterName := ClusterName(m, "");
        if clusterName == "" {
          return None;
        }
        return Some(clusterName + "-" + m.service);
      }
      return Some(m.app);
    }

    /** Creates the missing names below R; an object that exists already is left alone. */
    method Grow(m: Module) returns (outcome: PassOutcome)
      requires m.spec.replicas > 0
      modifies api`nodes
      ensures outcome == PassDone || outcome == PassFailed(NoClusterName)
      ensures outcome == PassDone <==> HostStem(m).Some?
      ensures api.nodes ==
        if HostStem(m).Some? then Grown(old(api.nodes), m.service, HostStem(m).value, m.spec.replicas)
          else old(api.nodes)
    {
      hide NewNode, NodeName, HostStem, Grown;
      var i := 0;
      while i < m.spec.replicas
        invariant i <= m.spec.replicas
        invariant i > 0 ==> HostStem(m).Some?
        invariant api.nodes == if i == 0 then old(api.nodes) else Grown(old(api.nodes), m.service, HostStem(m).value, i)
      {
        var stem := SpecHostname(m);
        if stem.None? {
          return PassFailed(NoClusterName);
        }
        GrownStep(old(api.nodes), m.service, stem.value, i);
        var node := NewNode(m.service, stem.value, i);
        if node.name !in api.nodes {
          api.nodes := api.nodes[node.name := node];
        }
        i := i + 1;
      }
      return PassDone;
    }

    /** The loop over the sorted nodes from place `from` on. */
    method MarkTail(sorted: seq<Node>, from: nat, now: string)
      requires from <= |sorted| && NoDuplicates(sorted) && now != ""
      requires forall i | from <= i < |sorted| :: sorted[i].name in api.nodes && api.nodes[sorted[i].name] == sorted[i]
      modifies api`nodes
      ensures api.nodes == Marked(old(api.nodes), Names(Elements(sorted[from..])), now)
    {
      hide NoDuplicates, Marked, Names, Elements;
      ghost var nodes0 := api.nodes;
      var idx := from;
      MarkNone(nodes0, sorted, from, now);
      while idx < |sorted|
        invariant from <= idx <= |sorted|
        invariant api.nodes == Marked(nodes0, Names(Elements(sorted[from..idx])), now)
      {
        var item := sorted[idx];
        MarkOneMore(nodes0, sorted, from, idx, now);
        if item.deletionDate == "" {
          api.nodes := api.nodes[item.name := item.(deletionDate := now)];
        }
        idx := idx + 1;
      }
      assert sorted[from..idx] == sorted[from..];
    }

    /** Sorts the nodes of the service and marks all but the first R. */
    method MarkSurplus(m: Module, appNodes: seq<Node>, now: string)
      returns (outcome: PassOutcome, ghost victims: set<Node>)
      requires WellFormed(api.View()) && now != ""
      requires Lists(appNodes, ServiceNodes(api.nodes, m.service)) && |appNodes| > m.spec.replicas
      modifies api`nodes
      ensures SortChoice(old(api.nodes), m, victims)
      ensures outcome == PassDone <==> SortWorks(ServiceNodes(old(api.nodes), m.service))
      ensures outcome == PassFailed(SortFailed) || outcome == PassCrashed || outcome == PassDone
      ensures api.nodes == if outcome == PassDone then Marked(old(api.nodes), Names(victims), now) else old(api.nodes)
    {
      hide Generated, HostnameKey, ServiceNodes, SortWorks, Marked, Names, Victims, Ascending, Sortable;
      ghost var all := ServiceNodes(api.nodes, m.service);
      var arr := new Node[|appNodes|](i requires 0 <= i < |appNodes| => appNodes[i]);
      assert arr[..] == appNodes;
      ListingLength(appNodes, all);
      var result := SortNodesByNumber(arr);
      var sorted := arr[..];
      PermutedListing(appNodes, sorted, all);
      SortableListing(sorted, all);
      if result != Sorted {
        victims := SomeChoice(api.nodes, m);
        return if result == RangeError then PassFailed(SortFailed) else PassCrashed, victims;
      }
      victims := Elements(sorted[m.spec.replicas..]);
      TailIsVictims(sorted, all, m.spec.replicas);
      forall i | m.spec.replicas <= i < |sorted|
        ensures sorted[i].name in api.nodes && api.nodes[sorted[i].name] == sorted[i]
      {
        StoredItem(api.nodes, m.service, sorted, i);
      }
      MarkTail(sorted, m.spec.replicas, now);
      return PassDone, victims;
    }

    method ManageNodesForModule(m: Module, now: string) returns (outcome: PassOutcome, ghost victims: set<Node>)
      requires WellFormed(api.View()) && now != ""
      modifies api`nodes
      ensures SortChoice(old(api.nodes), m, victims)
      ensures var p := Pass(old(api.nodes), m, victims, now);
        && (outcome == PassDone <==> p.Done?)
        && api.nodes == if p.Done? then p.nodes else old(api.nodes)
    {
      hide Generated, SortWorks, Victims, Grown, Marked;
      victims := SomeChoice(api.nodes, m);
      if m.app == "" || m.service == "" {
        return PassFailed(MissingAnnotations), victims;
      }
      var found := RetrieveNodesForService(m.service);
      var appNodes := found.value;
      ListingLength(appNodes, ServiceNodes(api.nodes, m.service));
      if |appNodes| < m.spec.replicas {
        outcome := Grow(m);
      } else if |appNodes| > m.spec.replicas {
        outcome, victims := MarkSurplus(m, appNodes, now);
      } else {
        outcome := PassDone;
      }
    }

    /** One reconcile is the module step of the protocol, for the order in which the API
        server listed the nodes and the order the sort gave to equal keys. */
    method Reconcile(name: string, now: string) returns (outcome: Outcome, ghost c: Choice)
      requires WellFormed(api.View()) && now != ""
      modifies api
      ensures ValidChoice(old(api.View()), name, c) && c.now == now
      ensures (api.View(), outcome) == ReconcileModule(old(api.View()), name, c)
    {
      hide Generated, WellKeyed, SortChoice, Pass, ServiceNodes, ActionOf, StatusFor, JobEnv, Command, Lists;
      if name !in api.modules {
        return NotFound, Choice([], {}, now);
      }
      var m := api.modules[name];
      ghost var victims := SomeChoice(api.nodes, m);
      var chosen, listing := ChooseModuleAction(m);
      c := Choice(listing, victims, now);
      if chosen.None? {
        return ActionFailed, c;
      }
      var action := chosen.value;
      if JobName(m) !in api.jobs {
        api.jobs := api.jobs[JobName(m) := NewJob(m.spec, action, api.nextUid)];
        api.nextUid := api.nextUid + 1;
        return JobCreated, c;
      }
      var found := api.jobs[JobName(m)];
      if found.env != JobEnv(m.spec) || found.command != Command(action) {
        if found.status.active >= 1 {
          return JobBusy, c;
        }
        api.jobs := api.jobs - {JobName(m)};
        UpdateModuleStatus(m, action, Pending);
        return JobReplaced, c;
      }
      var managed;
      managed, victims := ManageNodesForModule(m, now);
      c := Choice(listing, victims, now);
      if managed != PassDone {
        return NodesFailed, c;
      }
      var status := JobPhase(found.status);
      if status.None? {
        return JobUnreadable, c;
      }
      var phase := status.value;
      if m.status.updatedReplicas != m.status.replicas && phase == Completed {
        phase := Pending;
      }
      PassKeepsWellKeyed(old(api.nodes), m, victims, now);
      UpdateModuleStatus(m, action, phase);
      return Reconciled(phase), c;
    }
  }
}

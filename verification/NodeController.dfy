/** pkg/controller/node/node_controller.go, as an object over the API server. What Consul
    answers during the reconcile is a parameter. */
module NodeController {
  import opened Model
  import opened NodeSet
  import opened Protocol
  import opened Controllers

  class NodeReconciler {
    const api: ApiServer

    constructor (api: ApiServer)
      ensures this.api == api
    {
      this.api := api;
    }

    /** Writes the status when it differs from the stored one. */
    method UpdateNodeStatusIfNeeded(newNode: Node)
      requires newNode.name in api.nodes
        && api.nodes[newNode.name] == newNode.(status := api.nodes[newNode.name].status)
      modifies api`nodes
      ensures api.nodes == old(api.nodes)[newNode.name := newNode]
    {
      var actualNode := api.nodes[newNode.name];
      if actualNode.status != newNode.status {
        api.nodes := api.nodes[newNode.name := actualNode.(status := newNode.status)];
      }
    }

    method Reconcile(name: string, seen: Observation)
      requires WellFormed(api.View())
      modifies api`nodes
      ensures api.View() == ReconcileNode(old(api.View()), name, seen)
    {
      hide Generated;
      if name !in api.nodes {
        return;
      }
      var instance := api.nodes[name];
      if instance.deletionDate != "" && instance.status.properties.id == GONE {
        api.nodes := api.nodes - {name};
        return;
      }
      match seen {
        case ConnectionError(message) =>
          var properties := NodeProperties("consul-connection-error", message, "", "", "", "");
          UpdateNodeStatusIfNeeded(instance.(status := NodeStatus(properties, [])));
        case NoMachine =>
          UpdateNodeStatusIfNeeded(instance.(status := NodeStatus(NodeProperties(GONE, GONE, "", "", "", ""), [])));
        case Machine(properties, nodeHC) =>
          var healthChecks := instance.status.healthChecks;
          if |nodeHC| > 0 {
            var hcSpec: seq<HealthCheck> := [];
            for i := 0 to |nodeHC|
              invariant hcSpec == nodeHC[..i]
            {
              hcSpec := hcSpec + [nodeHC[i]];
            }
            assert hcSpec == nodeHC;
            healthChecks := hcSpec;
          }
          UpdateNodeStatusIfNeeded(instance.(status := NodeStatus(properties, healthChecks)));
        case _ =>
          assert api.nodes == api.nodes[name := instance.(status := instance.status)];
      }
    }
  }
}

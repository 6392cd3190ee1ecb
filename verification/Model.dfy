/** The stored objects of the core API group. One namespace: the admission constraint
    shipped with the operator forces every Service into the default one. */
module Model {

  /** The ID the node controller stores for a machine that Consul does not know. */
  const GONE := "non-existent-machine"

  datatype HealthCheck = HealthCheck(
    checkID: string, name: string, status: string,
    output: string, serviceID: string, serviceName: string)

  datatype NodeProperties = NodeProperties(
    id: string, node: string, address: string, publicAddress: string,
    flavor: string, image: string)

  datatype NodeStatus = NodeStatus(properties: NodeProperties, healthChecks: seq<HealthCheck>)

  const NO_STATUS := NodeStatus(NodeProperties("", "", "", "", "", ""), [])

  /** `service` is the annotation service.automium.io/name, empty when it is absent. */
  datatype Node = Node(
    name: string, service: string, hostname: string, deletionDate: string, status: NodeStatus)

  /** The zero value of a Go Node. */
  const NO_NODE := Node("", "", "", "", NO_STATUS)

  datatype EnvVar = EnvVar(name: string, value: string)

  datatype Phase = Unset | Pending | Running | Completed | Failed

  datatype ModuleSpec = ModuleSpec(
    source: string, image: string, replicas: nat, flavor: string, env: seq<EnvVar>)

  datatype ModuleStatus = ModuleStatus(
    phase: Phase, replicas: int, currentReplicas: int, updatedReplicas: int)

  const NO_MODULE_STATUS := ModuleStatus(Unset, 0, 0, 0)

  /** `service` and `app` are the annotations service.automium.io/name and
      module.automium.io/appName, empty when absent. */
  datatype Module = Module(
    name: string, service: string, app: string, spec: ModuleSpec, status: ModuleStatus)

  /** `started` says that status.startTime is set; `conditions` holds the condition types. */
  datatype JobStatus = JobStatus(started: bool, active: int, conditions: seq<string>)

  const NEW_JOB := JobStatus(false, 0, [])

  /** `uid` tells apart successive jobs of the same name. */
  datatype Job = Job(
    uid: nat, containerImage: string, command: seq<string>, env: seq<EnvVar>, status: JobStatus)

  datatype Action = Deploy | Upgrade | Destroy
}

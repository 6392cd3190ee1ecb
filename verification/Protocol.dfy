/** The reconcile loops as one state machine over the object store. Every reconcile is one
    atomic step; the job controller, Consul and the user take steps of their own. */
module Protocol {
  import opened Model
  import opened NodeUtils
  import opened NodeSet
  import opened EnvVars
  import opened ServiceEnv
  import opened ModuleLogic

  /** A pod of the job with this name and uid is running. */
  datatype Run = Run(job: string, uid: nat)

  datatype State = State(
    services: map<string, Service>,
    modules: map<string, Module>,
    jobs: map<string, Job>,
    nodes: Nodes,
    running: set<Run>,
    nextUid: nat)

  /* ---- module controller ---- */

  datatype Outcome =
    | NotFound | ActionFailed | JobCreated | JobBusy | JobReplaced
    | NodesFailed | JobUnreadable | Reconciled(phase: Phase)

  /** What a reconcile cannot control: the order of a listing, what the sort leaves from
      place R on, and the time. */
  datatype Choice = Choice(listing: seq<Node>, victims: set<Node>, now: string)

  ghost predicate ValidChoice(st: State, name: string, c: Choice) {
    name in st.modules ==>
      var m := st.modules[name];
      && Lists(c.listing, ServiceNodes(st.nodes, m.service))
      && SortChoice(st.nodes, m, c.victims)
      && c.now != ""
  }

  ghost function WithStatus(st: State, m: Module, action: Action, phase: Phase): State {
    var status := StatusFor(m.spec, action, phase, ServiceNodes(st.nodes, m.service));
    st.(modules := st.modules[m.name := m.(status := status)])
  }

  ghost function ManageNodes(st: State, m: Module, action: Action, job: Job, c: Choice): (State, Outcome) {
    match Pass(st.nodes, m, c.victims, c.now)
    case Rejected(_) => (st, NodesFailed)
    case Done(nodes) =>
      var st1 := st.(nodes := nodes);
      match JobPhase(job.status)
      case None => (st1, JobUnreadable)
      case Some(p) =>
        var phase := PhaseFor(m.status, p);
        (WithStatus(st1, m, action, phase), Reconciled(phase))
  }

  ghost function ReconcileModule(st: State, name: string, c: Choice): (State, Outcome) {
    if name !in st.modules then (st, NotFound)
    else
      var m := st.modules[name];
      if m.spec.replicas > 0 && m.service == "" then (st, ActionFailed)
      else
        var action := ActionOf(m.spec, c.listing);
        if JobName(m) !in st.jobs then
          var job := NewJob(m.spec, action, st.nextUid);
          (st.(jobs := st.jobs[JobName(m) := job], nextUid := st.nextUid + 1), JobCreated)
        else
          var job := st.jobs[JobName(m)];
          if JobMatches(job, m.spec, action) then ManageNodes(st, m, action, job, c)
          else if job.status.active >= 1 then (st, JobBusy)
          else (WithStatus(st.(jobs := st.jobs - {JobName(m)}), m, action, Pending), JobReplaced)
  }

  /* ---- node controller ---- */

  datatype Observation =
    | ConnectionError(message: string)
    | CatalogError
    | NoMachine
    | HealthError
    | Machine(properties: NodeProperties, healthChecks: seq<HealthCheck>)

  const GONE_STATUS := NodeStatus(NodeProperties(GONE, GONE, "", "", "", ""), [])

  /** The status after one look at Consul. Without reported checks the old ones stay. */
  function Observed(before: NodeStatus, seen: Observation): NodeStatus {
    match seen
    case ConnectionError(message) => NodeStatus(NodeProperties("consul-connection-error", message, "", "", "", ""), [])
    case CatalogError => before
    case NoMachine => GONE_STATUS
    case HealthError => before
    case Machine(properties, checks) => NodeStatus(properties, if checks != [] then checks else before.healthChecks)
  }

  function ReconcileNode(st: State, name: string, seen: Observation): State {
    if name !in st.nodes then st
    else if st.nodes[name].deletionDate != "" && st.nodes[name].status.properties.id == GONE then
      st.(nodes := st.nodes - {name})
    else
      var n := st.nodes[name];
      st.(nodes := st.nodes[name := n.(status := Observed(n.status, seen))])
  }

  /** Marked, and known to have no machine: the nodes that may go. */
  predicate Deletable(n: Node) {
    n.deletionDate != "" && n.status.properties.id == GONE
  }

  /* ---- service controller ---- */

  datatype ServiceOutcome = ServiceMissing | ModuleCreated | Requeued | Extras | Idle

  function ModuleName(service: string): string {
    service + "-module"
  }

  function DesiredModule(service: Service, platform: string): Module {
    Module(ModuleName(service.name), service.name, service.app, BuiltSpec(service, platform), NO_MODULE_STATUS)
  }

  function ReconcileService(st: State, name: string, platform: string): (State, ServiceOutcome) {
    if name !in st.services then (st, ServiceMissing)
    else
      var service := st.services[name];
      var desired := DesiredModule(service, platform);
      if desired.name !in st.modules then
        (st.(modules := st.modules[desired.name := desired]), ModuleCreated)
      else
        var found := st.modules[desired.name];
        var updated := if SpecAgree(found.spec, desired.spec) then found else found.(spec := desired.spec);
        var phase := found.status.phase;
        var status := if service.status.phase == phase then service.status else ServiceStatus(phase, found.name);
        var st1 := st.(modules := st.modules[desired.name := updated],
                       services := st.services[name := service.(status := status)]);
        if phase == Pending || phase == Running then (st1, Requeued)
        else if status.phase == Completed && service.app == "kubernetes-cluster" then (st1, Extras)
        else (st1, Idle)
  }

  /* ---- the machine ---- */

  datatype Step =
    | ModuleStep(name: string, choice: Choice)
    | NodeStep(node: string, seen: Observation)
    | ServiceStep(service: string, platform: string)
    | JobStep(job: string, status: JobStatus)   // the job controller of the cluster
    | UserStep(edited: Service)                 // a Service is created or changed

  ghost predicate Enabled(st: State, step: Step) {
    step.ModuleStep? ==> ValidChoice(st, step.name, step.choice)
  }

  ghost function Next(st: State, step: Step): State {
    match step
    case ModuleStep(name, c) => ReconcileModule(st, name, c).0
    case NodeStep(name, seen) => ReconcileNode(st, name, seen)
    case ServiceStep(name, platform) => ReconcileService(st, name, platform).0
    case JobStep(name, status) =>
      if name !in st.jobs then st
      else
        var job := st.jobs[name];
        var run := Run(name, job.uid);
        st.(jobs := st.jobs[name := job.(status := status)],
            running := if status.active >= 1 then st.running + {run} else st.running - {run})
    case UserStep(edited) => st.(services := st.services[edited.name := edited])
  }

  /** The objects are keyed by their own names, and nodes are the controller's own. */
  ghost predicate WellFormed(st: State) {
    && (forall k | k in st.services :: st.services[k].name == k)
    && (forall k | k in st.modules :: st.modules[k].name == k == ModuleName(st.modules[k].service))
    && WellKeyed(st.nodes)
  }

  /** A finite run: `states[i]` to `states[i + 1]` by `steps[i]`. */
  ghost predicate IsRun(states: seq<State>, steps: seq<Step>) {
    && |states| == |steps| + 1
    && WellFormed(states[0])
    && forall i | 0 <= i < |steps| :: Enabled(states[i], steps[i]) && states[i + 1] == Next(states[i], steps[i])
  }

  lemma PassKeepsWellKeyed(nodes: Nodes, m: Module, victims: set<Node>, now: string)
    requires WellKeyed(nodes) && Pass(nodes, m, victims, now).Done?
    ensures WellKeyed(Pass(nodes, m, victims, now).nodes)
  {
    hide Grown, Generated;
    if HostStem(m).Some? {
      GrownExactly(nodes, m.service, HostStem(m).value, m.spec.replicas);
    }
    MarkedFacts(nodes, Names(victims), now);
  }

  /** A pass leaves every status, and new nodes have none. */
  lemma PassStatuses(nodes: Nodes, m: Module, victims: set<Node>, now: string, node: string)
    requires WellKeyed(nodes) && Pass(nodes, m, victims, now).Done?
    ensures var nodes' := Pass(nodes, m, victims, now).nodes;
      && (node in nodes ==> node in nodes' && nodes'[node].status == nodes[node].status)
      && (node in nodes' && node !in nodes ==> nodes'[node].status == NO_STATUS)
  {
    hide Grown, Generated, HostStem, SortWorks, NodeName;
    if HostStem(m).Some? {
      GrownExactly(nodes, m.service, HostStem(m).value, m.spec.replicas);
    }
  }

  /** A pass does not touch the nodes of other services. */
  lemma PassElsewhere(nodes: Nodes, m: Module, victims: set<Node>, now: string, service: string)
    requires WellKeyed(nodes) && Pass(nodes, m, victims, now).Done? && SortChoice(nodes, m, victims)
    requires m.service != service
    ensures ServiceNodes(Pass(nodes, m, victims, now).nodes, service) == ServiceNodes(nodes, service)
    ensures ServiceNames(Pass(nodes, m, victims, now).nodes, service) == ServiceNames(nodes, service)
  {
    hide Generated, Grown, KeyNumber, NodeName, Index, NewNode, SortWorks;
    var all := ServiceNodes(nodes, m.service);
    var nodes' := Pass(nodes, m, victims, now).nodes;
    if |all| < m.spec.replicas {
      GrownExactly(nodes, m.service, HostStem(m).value, m.spec.replicas);
      ServiceNodesFacts(nodes, service);
      ServiceNodesFacts(nodes', service);
    } else if |all| > m.spec.replicas {
      forall v | v in victims ensures v.name in nodes && nodes[v.name] == v && v.service == m.service {
        assert v in all;
      }
      forall k | k in nodes && nodes[k].service != m.service ensures nodes'[k] == nodes[k] {}
      assert forall k | k in nodes' :: nodes'[k].service == nodes[k].service;
    }
  }

  /** A module reconcile writes at most the status of its module, its job and the nodes of
      a pass. */
  lemma ModuleStepObjects(st: State, name: string, c: Choice)
    requires name in st.modules && st.modules[name].name == name
    ensures var m, st' := st.modules[name], ReconcileModule(st, name, c).0;
      && st'.services == st.services
      && (exists status :: st'.modules == st.modules[name := m.(status := status)])
      && st'.jobs - {JobName(m)} == st.jobs - {JobName(m)}
      && (st'.nodes == st.nodes || Pass(st.nodes, m, c.victims, c.now) == Done(st'.nodes))
  {
    hide Pass, ActionOf, StatusFor, JobMatches, NewJob, PhaseFor, JobPhase;
    var m, st' := st.modules[name], ReconcileModule(st, name, c).0;
    assert st.modules[name := m.(status := m.status)] == st.modules;
    assert st'.modules == st.modules[name := m.(status := st'.modules[name].status)];
  }

  lemma ModuleStepWellFormed(st: State, name: string, c: Choice)
    requires WellFormed(st)
    ensures WellFormed(ReconcileModule(st, name, c).0)
  {
    hide Generated, WellKeyed, Pass, ReconcileModule;
    if name in st.modules {
      ModuleStepObjects(st, name, c);
      if Pass(st.nodes, st.modules[name], c.victims, c.now).Done? {
        PassKeepsWellKeyed(st.nodes, st.modules[name], c.victims, c.now);
      }
    } else {
      MissingModule(st, name, c);
    }
  }

  lemma NodeStepWellFormed(st: State, name: string, seen: Observation)
    requires WellFormed(st)
    ensures WellFormed(ReconcileNode(st, name, seen))
  {
    hide Generated, Observed;
    if name in st.nodes {
      StatusKeepsGenerated(st.nodes[name], Observed(st.nodes[name].status, seen));
    }
  }

  lemma ServiceStepWellFormed(st: State, name: string, platform: string)
    requires WellFormed(st)
    ensures WellFormed(ReconcileService(st, name, platform).0)
  {
    hide WellKeyed, BuiltSpec, SpecAgree;
  }

  lemma StepKeepsWellFormed(st: State, step: Step)
    requires WellFormed(st) && Enabled(st, step)
    ensures WellFormed(Next(st, step))
  {
    hide Generated, WellKeyed, ReconcileModule, ReconcileNode, ReconcileService;
    match step
    case ModuleStep(name, c) => ModuleStepWellFormed(st, name, c);
    case NodeStep(name, seen) => NodeStepWellFormed(st, name, seen);
    case ServiceStep(name, platform) => ServiceStepWellFormed(st, name, platform);
    case _ =>
  }

  lemma OtherStepNodes(st: State, step: Step)
    requires !step.NodeStep? && (step.ModuleStep? ==> step.name !in st.modules)
    ensures Next(st, step).nodes == st.nodes
  {
    hide BuiltSpec;
  }

  lemma MissingModule(st: State, name: string, c: Choice)
    requires name !in st.modules
    ensures ReconcileModule(st, name, c).0 == st
  {
  }

  lemma StatusKeepsGenerated(n: Node, status: NodeStatus)
    ensures Generated(n.(status := status)) <==> Generated(n)
  {
  }

  lemma NodesKeyed(st: State)
    requires WellFormed(st)
    ensures WellKeyed(st.nodes)
  {
    hide WellKeyed;
  }

  lemma {:induction false} WellFormedAlong(states: seq<State>, steps: seq<Step>, i: nat)
    requires IsRun(states, steps) && i < |states|
    ensures WellFormed(states[i])
  {
    hide WellFormed, Next, Enabled;
    if i > 0 {
      WellFormedAlong(states, steps, i - 1);
      StepKeepsWellFormed(states[i - 1], steps[i - 1]);
      assert states[i - 1 + 1] == Next(states[i - 1], steps[i - 1]);
    }
  }

  ghost predicate SameNodes(nodes: Nodes, nodes': Nodes, service: string) {
    && ServiceNodes(nodes', service) == ServiceNodes(nodes, service)
    && ServiceNames(nodes', service) == ServiceNames(nodes, service)
  }

  lemma Agree(nodes: Nodes, nodes': Nodes, service: string)
    requires forall k | k in nodes' && nodes'[k].service == service :: k in nodes && nodes'[k] == nodes[k]
    requires forall k | k in nodes && nodes[k].service == service :: k in nodes' && nodes'[k] == nodes[k]
    ensures SameNodes(nodes, nodes', service)
  {
  }
}

/** pkg/controller/module/module_controller.go: the decisions of the module controller. */
module ModuleLogic {
  import opened Sets
  import opened Wrappers
  import opened Decimal
  import opened Model
  import opened NodeUtils
  import opened NodeSet
  import opened ServiceEnv

  /* ---- choosing the action ---- */

  /** chooseModuleAction on one listing of the service's nodes. */
  function ActionOf(spec: ModuleSpec, nodes: seq<Node>): Action {
    var count := Count(NodeCounted, nodes);
    if spec.replicas == 0 then Destroy
    else if count == 0 || spec.replicas < count then Deploy
    else
      var h := FirstHealthy(nodes);
      if h.status.properties.node == "" then Deploy
      else if !ConsistentWith(h, nodes) then Upgrade
      else if !EqNodeFlavor(h, spec.flavor) || !EqNodeImage(h, spec.image) then Upgrade
      else Deploy
  }

  ghost function CountedOf(all: set<Node>): set<Node> {
    set n | n in all && n.status.properties.id != GONE
  }

  ghost function HealthyOf(all: set<Node>): set<Node> {
    set n | n in all && Works(n)
  }

  ghost function UpdatedOf(all: set<Node>, spec: ModuleSpec): set<Node> {
    set n | n in all && WorksOn(n, spec.image, spec.flavor)
  }

  predicate OffTarget(n: Node, spec: ModuleSpec) {
    HasMachine(n) && (n.status.properties.image != spec.image || n.status.properties.flavor != spec.flavor)
  }

  ghost predicate UniqueHostnames(all: set<Node>) {
    forall a, b | a in all && b in all && a.hostname == b.hostname :: a == b
  }

  /** Consul reported a name for every healthy node. */
  ghost predicate HealthyNamed(all: set<Node>) {
    forall n | n in HealthyOf(all) :: n.status.properties.node != ""
  }

  ghost predicate SomeNamed(all: set<Node>) {
    exists n :: n in HealthyOf(all) && n.status.properties.node != ""
  }

  /** The rule the action choice stands for. */
  ghost predicate UpgradeNeeded(spec: ModuleSpec, all: set<Node>) {
    && 0 < |CountedOf(all)| <= spec.replicas
    && HealthyOf(all) != {}
    && exists n :: n in all && OffTarget(n, spec)
  }

  ghost function ActionRule(spec: ModuleSpec, all: set<Node>): Action {
    if spec.replicas == 0 then Destroy
    else if UpgradeNeeded(spec, all) then Upgrade
    else Deploy
  }

  /** The rule with what the code needs on top: a healthy node that has a name. */
  ghost function Chosen(spec: ModuleSpec, all: set<Node>): Action {
    if spec.replicas == 0 then Destroy
    else if UpgradeNeeded(spec, all) && SomeNamed(all) then Upgrade
    else Deploy
  }

  /** Not both a named and an unnamed healthy node, unless no upgrade is due. */
  ghost predicate OrderFree(spec: ModuleSpec, all: set<Node>) {
    UpgradeNeeded(spec, all) ==> HealthyNamed(all) || !SomeNamed(all)
  }

  lemma CountedCardinality(nodes: seq<Node>, all: set<Node>)
    requires Lists(nodes, all)
    ensures Count(NodeCounted, nodes) == |CountedOf(all)|
  {
    var p := NodeCounted;
    CountIsCardinality(p, nodes);
    assert Matching(p, nodes) == CountedOf(all);
  }

  lemma FirstHealthyIn(nodes: seq<Node>, all: set<Node>)
    requires Lists(nodes, all)
    ensures HealthyOf(all) != {} ==> FirstHealthy(nodes) in HealthyOf(all)
    ensures HealthyOf(all) == {} ==> FirstHealthy(nodes) == NO_NODE
  {
    HealthyAreUp();
    hide NodeIsHealthy, Works;
    assert forall n :: n in nodes <==> n in Elements(nodes);
    var h := FirstHealthy(nodes);
    if HealthyOf(all) != {} {
      var x :| x in HealthyOf(all);
      assert x in nodes && NodeIsHealthy(x);
    } else {
      assert h in nodes && NodeIsHealthy(h) ==> h in HealthyOf(all);
    }
  }

  /** One healthy node stands for all: the two comparisons of the code succeed exactly when
      no machine is off target. */
  lemma OneStandsForAll(spec: ModuleSpec, h: Node, nodes: seq<Node>, all: set<Node>)
    requires Lists(nodes, all) && UniqueHostnames(all) && h in HealthyOf(all)
    ensures (ConsistentWith(h, nodes) && EqNodeFlavor(h, spec.flavor) && EqNodeImage(h, spec.image))
      <==> forall n | n in all :: !OffTarget(n, spec)
  {
    HealthyAreUp();
    hide NodeIsHealthy, NodeExists, HasMachine;
    assert forall n :: n in nodes <==> n in Elements(nodes);
    assert HasMachine(h);
    if forall n | n in all :: !OffTarget(n, spec) {
      assert !OffTarget(h, spec);
      forall n | n in nodes && n.hostname != h.hostname && NodeExists(n)
        ensures n.status.properties.flavor == h.status.properties.flavor
          && n.status.properties.image == h.status.properties.image
      {
        assert !OffTarget(n, spec);
      }
    }
  }

  /** The action for a listing, by the node the code compares with. */
  lemma ActionByFirstHealthy(spec: ModuleSpec, nodes: seq<Node>, all: set<Node>)
    requires Lists(nodes, all) && UniqueHostnames(all)
    ensures ActionOf(spec, nodes) ==
      if spec.replicas == 0 then Destroy
      else if UpgradeNeeded(spec, all) && FirstHealthy(nodes).status.properties.node != "" then Upgrade
      else Deploy
    ensures HealthyOf(all) != {} ==> FirstHealthy(nodes) in HealthyOf(all)
    ensures HealthyOf(all) == {} ==> FirstHealthy(nodes) == NO_NODE
  {
    hide Lists, UniqueHostnames, HealthyOf, OffTarget, ConsistentWith, EqNodeFlavor, EqNodeImage, CountedOf;
    CountedCardinality(nodes, all);
    FirstHealthyIn(nodes, all);
    if HealthyOf(all) != {} {
      OneStandsForAll(spec, FirstHealthy(nodes), nodes, all);
    }
  }

  /** The first node of the list that is up has a name. */
  ghost predicate NamedFirst(nodes: seq<Node>) {
    exists k :: 0 <= k < |nodes| && Works(nodes[k]) && nodes[k].status.properties.node != "" && NoneUp(nodes[..k])
  }

  ghost predicate NoneUp(nodes: seq<Node>) {
    forall n | n in nodes :: !Works(n)
  }

  lemma {:induction false} FirstHealthyIsFirst(nodes: seq<Node>) returns (k: nat)
    ensures k <= |nodes| && NoneUp(nodes[..k])
    ensures if k < |nodes| then Works(nodes[k]) && FirstHealthy(nodes) == nodes[k] else FirstHealthy(nodes) == NO_NODE
  {
    hide NodeIsHealthy, Works;
    k := 0;
    if nodes != [] {
      HealthyIsUp(nodes[0]);
      if !Works(nodes[0]) {
        var i := FirstHealthyIsFirst(nodes[1..]);
        k := i + 1;
        assert nodes[..k] == [nodes[0]] + nodes[1..][..i];
      }
    }
  }

  lemma NamedFirstIff(nodes: seq<Node>)
    ensures NamedFirst(nodes) <==> FirstHealthy(nodes).status.properties.node != ""
  {
    hide Works;
    var k := FirstHealthyIsFirst(nodes);
    if NamedFirst(nodes) {
      var i :| 0 <= i < |nodes| && Works(nodes[i]) && nodes[i].status.properties.node != "" && NoneUp(nodes[..i]);
      NoneUpBelow(nodes, i, k);
      if k < |nodes| {
        NoneUpBelow(nodes, k, i);
      }
    }
  }

  lemma NoneUpBelow(nodes: seq<Node>, i: nat, k: nat)
    requires i < |nodes| && k <= |nodes| && Works(nodes[i]) && NoneUp(nodes[..k])
    ensures k <= i
  {
    hide Works;
    assert forall j | 0 <= j < k :: nodes[..k][j] == nodes[j] && nodes[j] in nodes[..k];
  }

  /** The action for a listing: remove without replicas, upgrade when one is due and the
      first node that is up has a name, else deploy. */
  lemma ActionMeans(spec: ModuleSpec, nodes: seq<Node>, all: set<Node>)
    requires Lists(nodes, all) && UniqueHostnames(all)
    ensures ActionOf(spec, nodes) == Destroy <==> spec.replicas == 0
    ensures ActionOf(spec, nodes) == Upgrade <==> spec.replicas > 0 && UpgradeNeeded(spec, all) && NamedFirst(nodes)
  {
    hide ActionOf, Lists, UniqueHostnames, CountedOf, NamedFirst;
    ActionByFirstHealthy(spec, nodes, all);
    NamedFirstIff(nodes);
  }

  /** Every node of a set can be listed first. */
  lemma ListingFrom(all: set<Node>, n: Node) returns (nodes: seq<Node>)
    requires n in all
    ensures Lists(nodes, all) && nodes != [] && nodes[0] == n
  {
    var rest := ListingExists(all - {n});
    nodes := [n] + rest;
    assert n !in Elements(rest);
    assert forall x :: x in rest ==> x in Elements(rest);
    assert Elements(nodes) == Elements(rest) + {n};
  }

  /** The choice in every order of the list, when the order does not matter. */
  lemma ChosenInEveryOrder(spec: ModuleSpec, nodes: seq<Node>, all: set<Node>)
    requires Lists(nodes, all) && UniqueHostnames(all) && OrderFree(spec, all)
    ensures ActionOf(spec, nodes) == Chosen(spec, all)
  {
    hide ActionOf, Lists, UniqueHostnames, CountedOf;
    ActionByFirstHealthy(spec, nodes, all);
  }

  /** The order of the list matters exactly when an upgrade is due and some but not all
      healthy nodes have a name. */
  lemma OrderMattersIff(spec: ModuleSpec, all: set<Node>)
    requires UniqueHostnames(all)
    ensures (exists p, q :: Lists(p, all) && Lists(q, all) && ActionOf(spec, p) != ActionOf(spec, q))
      <==> !OrderFree(spec, all)
  {
    hide ActionOf, Lists, UniqueHostnames, CountedOf;
    if OrderFree(spec, all) {
      forall p, q | Lists(p, all) && Lists(q, all) ensures ActionOf(spec, p) == ActionOf(spec, q) {
        ChosenInEveryOrder(spec, p, all);
        ChosenInEveryOrder(spec, q, all);
      }
    } else {
      var p, q := BothActions(spec, all);
    }
  }

  lemma BothActions(spec: ModuleSpec, all: set<Node>) returns (p: seq<Node>, q: seq<Node>)
    requires UniqueHostnames(all) && !OrderFree(spec, all)
    ensures Lists(p, all) && Lists(q, all) && ActionOf(spec, p) == Upgrade && ActionOf(spec, q) == Deploy
  {
    hide ActionOf, Lists, UniqueHostnames, CountedOf;
    var a :| a in HealthyOf(all) && a.status.properties.node != "";
    var b :| b in HealthyOf(all) && b.status.properties.node == "";
    p := ListingFrom(all, a);
    q := ListingFrom(all, b);
    ActionByFirstHealthy(spec, p, all);
    ActionByFirstHealthy(spec, q, all);
  }

  /** Although the code compares only with the first healthy node of the list, its choice
      is the rule in every order exactly when every healthy node has a name or no upgrade
      is due. */
  lemma ActionIsRuleIff(spec: ModuleSpec, all: set<Node>)
    requires UniqueHostnames(all)
    ensures (forall nodes | Lists(nodes, all) :: ActionOf(spec, nodes) == ActionRule(spec, all))
      <==> HealthyNamed(all) || !UpgradeNeeded(spec, all)
  {
    hide ActionOf, Lists, UniqueHostnames, CountedOf;
    forall nodes | Lists(nodes, all) && (HealthyNamed(all) || !UpgradeNeeded(spec, all))
      ensures ActionOf(spec, nodes) == ActionRule(spec, all)
    {
      ActionByFirstHealthy(spec, nodes, all);
    }
    if !HealthyNamed(all) && UpgradeNeeded(spec, all) {
      var b :| b in HealthyOf(all) && b.status.properties.node == "";
      var nodes := ListingFrom(all, b);
      ActionByFirstHealthy(spec, nodes, all);
    }
  }

  /** A healthy node without a Consul name hides the others when it is listed first. */
  lemma UnnamedNodeMakesOrderMatter()
    ensures exists spec, a: Node, b: Node ::
      a.hostname != b.hostname && ActionOf(spec, [a, b]) != ActionOf(spec, [b, a])
  {
    var a := Node("s-node-0", "s", "s-0", "", NodeStatus(NodeProperties("id", "", "", "", "small", "v1"), []));
    var b := Node("s-node-1", "s", "s-1", "", NodeStatus(NodeProperties("id", "s-1", "", "", "small", "v2"), []));
    var spec := ModuleSpec("s", "v1", 2, "small", []);
    assert a.status.properties.image[1] != b.status.properties.image[1];
    assert a.hostname[2] != b.hostname[2];
    assert |"id"| != |GONE|;
    assert NodeIsHealthy(a) && NodeIsHealthy(b);
    CountPair(a, b);
    CountPair(b, a);
    assert a in [b, a];
    assert FirstHealthy([b, a]) == b && !ConsistentWith(b, [b, a]);
    assert ActionOf(spec, [b, a]) == Upgrade && ActionOf(spec, [a, b]) == Deploy;
  }

  lemma CountPair(a: Node, b: Node)
    ensures Count(NodeCounted, [a, b]) == (if NodeCounted(a) then 1 else 0) + if NodeCounted(b) then 1 else 0
  {
    CountStep(NodeCounted, [a, b], 0);
    CountStep(NodeCounted, [a, b], 1);
    assert [a, b][..2] == [a, b] && [a, b][..0] == [];
  }

  /* ---- the provisioning job ---- */

  function JobName(m: Module): string {
    m.name + "-job"
  }

  function JobEnv(spec: ModuleSpec): seq<EnvVar> {
    spec.env + [EnvVar("FLAVOR", spec.flavor), EnvVar("QUANTITY", Print(spec.replicas)), EnvVar("IMAGE", spec.image)]
  }

  function Command(action: Action): seq<string> {
    match action
    case Deploy => ["./deploy"]
    case Upgrade => ["./upgrade"]
    case Destroy => ["./remove"]
  }

  function NewJob(spec: ModuleSpec, action: Action, uid: nat): Job {
    Job(uid, "automium/service-" + spec.source + ":" + spec.image, Command(action), JobEnv(spec), NEW_JOB)
  }

  predicate JobMatches(job: Job, spec: ModuleSpec, action: Action) {
    job.env == JobEnv(spec) && job.command == Command(action)
  }

  lemma CommandInjective(x: Action, y: Action)
    ensures Command(x) == Command(y) <==> x == y
  {
    assert Command(Deploy)[0][2] == 'd' && Command(Upgrade)[0][2] == 'u' && Command(Destroy)[0][2] == 'r';
  }

  /** The comparison against the stored job is exact: a job made for one module spec and
      action matches another exactly when action, flavor, replicas, image and base
      environment are all the same. */
  lemma JobMatchExact(a: ModuleSpec, x: Action, uid: nat, b: ModuleSpec, y: Action)
    ensures JobMatches(NewJob(a, x, uid), b, y) <==>
      x == y && a.flavor == b.flavor && a.replicas == b.replicas && a.image == b.image && a.env == b.env
  {
    CommandInjective(x, y);
    var ea, eb := JobEnv(a), JobEnv(b);
    if ea == eb {
      var n := |a.env|;
      assert |b.env| == n;
      assert ea[..n] == a.env && eb[..n] == b.env;
      assert ea[n].value == a.flavor && eb[n].value == b.flavor;
      assert ea[n + 1].value == Print(a.replicas) && eb[n + 1].value == Print(b.replicas);
      assert ea[n + 2].value == a.image && eb[n + 2].value == b.image;
      PrintInjective(a.replicas, b.replicas);
    }
  }

  /** retrieveJobStatus; None stands for its error return. */
  function JobPhase(status: JobStatus): Option<Phase> {
    if !status.started then Some(Pending)
    else if status.active > 0 then Some(Running)
    else if |status.conditions| > 0 then
      if status.conditions[0] == "Complete" then Some(Completed)
      else if status.conditions[0] == "Failed" then Some(Failed)
      else None
    else None
  }

  /* ---- module status ---- */

  /** The status written after counting the nodes of the service: a healthy node on the
      target image and flavor is updated, and under Deploy current as well. */
  ghost function StatusFor(spec: ModuleSpec, action: Action, phase: Phase, all: set<Node>): ModuleStatus {
    var healthy, updated := |HealthyOf(all)|, |UpdatedOf(all, spec)|;
    ModuleStatus(phase, spec.replicas, if action == Deploy then healthy else healthy - updated, updated)
  }

  /** No healthy node is lost or counted twice. */
  lemma ReplicasConserved(spec: ModuleSpec, action: Action, phase: Phase, all: set<Node>)
    ensures var s := StatusFor(spec, action, phase, all);
      && 0 <= s.updatedReplicas && 0 <= s.currentReplicas
      && (action == Deploy ==> s.currentReplicas == |HealthyOf(all)| && s.updatedReplicas <= s.currentReplicas)
      && (action != Deploy ==> s.currentReplicas + s.updatedReplicas == |HealthyOf(all)|)
  {
    SubsetSize(UpdatedOf(all, spec), HealthyOf(all));
  }

  /** The phase rule reads the status stored before this reconcile. */
  function PhaseFor(stored: ModuleStatus, job: Phase): Phase {
    if stored.updatedReplicas != stored.replicas && job == Completed then Pending else job
  }

  /** One status update of a reconcile, everything but the stored status being fixed. */
  ghost function NextStatus(
    stored: ModuleStatus, spec: ModuleSpec, action: Action, job: Phase, all: set<Node>): ModuleStatus {
    StatusFor(spec, action, PhaseFor(stored, job), all)
  }

  /** One reconcile is enough exactly when the job is not complete or the stored counts
      already agree with the present ones on "all replicas updated". */
  lemma StatusSettlesInOneIff(s0: ModuleStatus, spec: ModuleSpec, action: Action, job: Phase, all: set<Node>)
    ensures var s1 := NextStatus(s0, spec, action, job, all);
      NextStatus(s1, spec, action, job, all) == s1 <==>
        job != Completed || (s0.updatedReplicas == s0.replicas <==> |UpdatedOf(all, spec)| == spec.replicas)
  {
  }

  /* ---- node management ---- */

  datatype PassError = MissingAnnotations | NoClusterName | SortFailed

  datatype PassResult = Done(nodes: Nodes) | Rejected(error: PassError)

  /** The hostname of a new node without "-i"; None when a node pool has no cluster name. */
  function HostStem(m: Module): Option<string> {
    if m.app == "kubernetes-cluster" then
      Some(LastValue(m.spec.env, CLUSTER_NAME, m.service) + "-" + m.service)
    else if m.app == "kubernetes-nodepool" then
      var cluster := LastValue(m.spec.env, CLUSTER_NAME, "");
      if cluster == "" then None else Some(cluster + "-" + m.service)
    else Some(m.app)
  }

  /** New nodes share a hostname exactly when stem and index are the same, whatever their
      services. */
  lemma SharedHostnameIff(a: Module, i: nat, b: Module, j: nat)
    requires HostStem(a).Some? && HostStem(b).Some?
    ensures NewNode(a.service, HostStem(a).value, i).hostname == NewNode(b.service, HostStem(b).value, j).hostname
      <==> HostStem(a) == HostStem(b) && i == j
  {
    hide Print, HostStem;
    var s, t := HostStem(a).value, HostStem(b).value;
    if s + "-" + Print(i) == t + "-" + Print(j) {
      DashSplit(s, i, t, j);
    }
  }

  /** Two services of one application other than a Kubernetes cluster or node pool do share
      their hostnames, and with them the lookups in Consul. */
  lemma SameAppSharesHostnames(a: Module, b: Module, i: nat)
    requires a.app == b.app && a.app != "kubernetes-cluster" && a.app != "kubernetes-nodepool" && a.service != b.service
    ensures var x, y := NewNode(a.service, HostStem(a).value, i), NewNode(b.service, HostStem(b).value, i);
      HostStem(a).Some? && HostStem(b).Some? && x.hostname == y.hostname && x.name != y.name
  {
    hide Print, NodeName;
    SharedHostnameIff(a, i, b, i);
    if NodeName(a.service, i) == NodeName(b.service, i) {
      NodeNameInjective(a.service, i, b.service, i);
    }
  }

  /** The comparison of the sort succeeds on these nodes, or is never called. */
  ghost predicate SortWorks(all: set<Node>) {
    |all| < 2 || forall n | n in all :: HostnameKey(n.hostname).Key?
  }

  /** manageNodesForModule; `victims` is what the sort left from place R on. */
  ghost function Pass(nodes: Nodes, m: Module, victims: set<Node>, now: string): PassResult {
    var all := ServiceNodes(nodes, m.service);
    if m.app == "" || m.service == "" then Rejected(MissingAnnotations)
    else if |all| < m.spec.replicas then
      match HostStem(m)
      case None => Rejected(NoClusterName)
      case Some(stem) => Done(Grown(nodes, m.service, stem, m.spec.replicas))
    else if |all| > m.spec.replicas then
      if SortWorks(all) then Done(Marked(nodes, Names(victims), now)) else Rejected(SortFailed)
    else Done(nodes)
  }

  /** `victims` is a choice the sort can make, whenever it is called for and works. */
  ghost predicate SortChoice(nodes: Nodes, m: Module, victims: set<Node>) {
    var all := ServiceNodes(nodes, m.service);
    |all| > m.spec.replicas && SortWorks(all) ==> Victims(all, m.spec.replicas, victims)
  }

  lemma SomeChoice(nodes: Nodes, m: Module) returns (victims: set<Node>)
    ensures SortChoice(nodes, m, victims)
  {
    hide KeyNumber, SortWorks;
    victims := {};
    if |ServiceNodes(nodes, m.service)| > m.spec.replicas {
      victims := VictimsExist(ServiceNodes(nodes, m.service), m.spec.replicas);
    }
  }

  /* ---- scaling down ---- */

  ghost function Below(names: set<string>, name: string): set<string> {
    set x | x in names && Index(x) < Index(name)
  }

  lemma VictimsOutrank(all: set<Node>, r: nat, victims: set<Node>, n: Node)
    requires AllPlain(all) && UniqueNames(all) && Victims(all, r, victims) && n in victims
    requires forall a, b | a in all && b in all :: a.service == b.service
    ensures Names(all - victims) <= Below(Names(all), n.name)
  {
    hide Generated, Plain, Index, KeyNumber, NodeName;
    VictimsAreTop(all, r, victims);
    forall k | k in all - victims ensures Index(k.name) < Index(n.name) {
      if Index(k.name) == Index(n.name) {
        PlainIsGenerated(all, k);
        PlainIsGenerated(all, n);
        SameIndexSameNode(k, n);
      }
    }
  }

  lemma PlainIsGenerated(all: set<Node>, n: Node)
    requires AllPlain(all) && n in all
    ensures Generated(n)
  {
    hide Generated;
  }

  lemma KeptAreOutranked(all: set<Node>, r: nat, victims: set<Node>, n: Node)
    requires AllPlain(all) && UniqueNames(all) && Victims(all, r, victims) && n in all - victims
    ensures Below(Names(all), n.name) <= Names(all - victims) - {n.name}
  {
    hide Generated, Plain, Index, KeyNumber, NodeName;
    VictimsAreTop(all, r, victims);
    forall x | x in Below(Names(all), n.name) ensures x in Names(all - victims) {
      var k :| k in all && k.name == x;
      assert k in victims ==> Index(n.name) <= Index(x);
    }
  }

  lemma NamesApart(all: set<Node>, victims: set<Node>, n: Node)
    requires UniqueNames(all) && victims <= all && n in all
    ensures n.name in Names(victims) <==> n in victims
    ensures UniqueNames(all - victims)
  {
  }

  lemma VictimRank(nodes: Nodes, service: string, r: nat, victims: set<Node>, name: string)
    requires WellKeyed(nodes) && AllPlain(ServiceNodes(nodes, service))
    requires Victims(ServiceNodes(nodes, service), r, victims) && name in ServiceNames(nodes, service)
    ensures name in Names(victims) <==> |Below(ServiceNames(nodes, service), name)| >= r
  {
    hide Generated, Plain, Index, KeyNumber, NodeName, Below, AllPlain, UniqueNames, Names;
    var all := ServiceNodes(nodes, service);
    var kept, n := all - victims, nodes[name];
    ServiceNodesFacts(nodes, service);
    assert n in all && n.name == name;
    NamesApart(all, victims, n);
    NamesCardinality(kept);
    assert |kept| == r by { assert kept + victims == all; }
    if n in victims {
      VictimsOutrank(all, r, victims, n);
      SubsetSize(Names(kept), Below(Names(all), name));
    } else {
      KeptAreOutranked(all, r, victims, n);
      NamesApart(all, kept, n);
      SubsetSize(Below(Names(all), name), Names(kept) - {name});
    }
  }

  /** Scaling down marks exactly the nodes with at least R nodes of the service below them
      in index order; the sort never fails, and the outcome is the same for every order
      the sort can produce. */
  lemma ScaleDownMarksHighest(nodes: Nodes, m: Module, victims: set<Node>, now: string, name: string)
    requires WellKeyed(nodes) && AllPlain(ServiceNodes(nodes, m.service))
    requires m.app != "" && m.service != "" && now != "" && SortChoice(nodes, m, victims)
    requires |ServiceNodes(nodes, m.service)| > m.spec.replicas && name in ServiceNames(nodes, m.service)
    ensures Pass(nodes, m, victims, now).Done? && name in Pass(nodes, m, victims, now).nodes
    ensures Pass(nodes, m, victims, now).nodes[name].deletionDate != "" <==>
      nodes[name].deletionDate != "" || |Below(ServiceNames(nodes, m.service), name)| >= m.spec.replicas
  {
    hide Generated, Plain, Index, KeyNumber, NodeName, Below, Victims;
    PlainNodesSort(ServiceNodes(nodes, m.service));
    VictimRank(nodes, m.service, m.spec.replicas, victims, name);
  }

  lemma PlainNodesSort(all: set<Node>)
    requires AllPlain(all)
    ensures SortWorks(all)
  {
    hide Plain;
    forall n | n in all ensures HostnameKey(n.hostname).Key? {
      PlainKey(n);
    }
  }

  /** Marks do not change which nodes are the highest, so a second pass writes nothing. */
  lemma SecondPassWritesNothing(nodes: Nodes, m: Module, v: set<Node>, now: string, w: set<Node>, later: string)
    requires WellKeyed(nodes) && AllPlain(ServiceNodes(nodes, m.service)) && now != "" && later != ""
    requires m.app != "" && m.service != "" && |ServiceNodes(nodes, m.service)| > m.spec.replicas
    requires SortChoice(nodes, m, v)
    requires Pass(nodes, m, v, now).Done? && SortChoice(Pass(nodes, m, v, now).nodes, m, w)
    ensures Pass(Pass(nodes, m, v, now).nodes, m, w, later) == Pass(nodes, m, v, now)
  {
    hide Generated, Plain, Index, KeyNumber, NodeName, Below, Victims, SortWorks, Names;
    var r := m.spec.replicas;
    var marked := Marked(nodes, Names(v), now);
    var all, all' := ServiceNodes(nodes, m.service), ServiceNodes(marked, m.service);
    PlainNodesSort(all);
    MarkedFacts(nodes, Names(v), now);
    MarkedPlain(nodes, m.service, Names(v), now);
    PlainNodesSort(all');
    ServiceNodesFacts(nodes, m.service);
    ServiceNodesFacts(marked, m.service);
    OwnVictims(all', w, r);
    forall k | k in marked && k in Names(w) ensures marked[k].deletionDate != "" {
      VictimInService(marked, m.service, w, k);
      VictimRank(nodes, m.service, r, v, k);
      VictimRank(marked, m.service, r, w, k);
    }
    assert Marked(marked, Names(w), later) == marked;
  }

  lemma OwnVictims(all: set<Node>, victims: set<Node>, r: nat)
    requires Victims(all, r, victims)
    ensures victims <= all
  {
  }

  lemma VictimInService(nodes: Nodes, service: string, victims: set<Node>, name: string)
    requires WellKeyed(nodes) && victims <= ServiceNodes(nodes, service) && name in Names(victims)
    ensures name in ServiceNames(nodes, service)
  {
    hide Generated;
  }
}

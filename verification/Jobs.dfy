/** The provisioning jobs over whole runs of the protocol. */
module Jobs {
  import opened Sets
  import opened Decimal
  import opened Model
  import opened NodeUtils
  import opened NodeSet
  import opened EnvVars
  import opened ServiceEnv
  import opened ModuleLogic
  import opened Protocol

  /* ---- one job at a time ---- */

  /** What runs is exactly what the stored jobs report as active. */
  ghost predicate RunningIsActive(st: State) {
    && (forall j | j in st.jobs :: st.jobs[j].uid < st.nextUid)
    && (forall j | j in st.jobs && st.jobs[j].status.active >= 1 :: Run(j, st.jobs[j].uid) in st.running)
    && (forall r | r in st.running ::
      r.job in st.jobs && st.jobs[r.job].uid == r.uid && st.jobs[r.job].status.active >= 1)
  }

  ghost predicate JobsKept(st: State, st': State) {
    st'.jobs == st.jobs && st'.nextUid == st.nextUid && st'.running == st.running
  }

  /** The three things a reconcile can do to the jobs. */
  lemma ModuleStepJobs(st: State, name: string, c: Choice)
    requires name in st.modules
    ensures var m, st' := st.modules[name], ReconcileModule(st, name, c).0;
      var j := JobName(m);
      || JobsKept(st, st')
      || (j !in st.jobs && st'.jobs == st.jobs[j := NewJob(m.spec, ActionOf(m.spec, c.listing), st.nextUid)]
          && st'.nextUid == st.nextUid + 1 && st'.running == st.running)
      || (j in st.jobs && st.jobs[j].status.active < 1 && st'.jobs == st.jobs - {j}
          && st'.nextUid == st.nextUid && st'.running == st.running)
  {
    hide Pass, ActionOf, StatusFor, JobMatches, NewJob, PhaseFor, JobPhase;
  }

  lemma OtherStepJobs(st: State, step: Step)
    requires step.NodeStep? || step.ServiceStep? || step.UserStep? || (step.ModuleStep? && step.name !in st.modules)
    ensures JobsKept(st, Next(st, step))
  {
    hide BuiltSpec, SpecAgree, Observed;
  }

  lemma StepKeepsRunningIsActive(st: State, step: Step)
    requires WellFormed(st) && RunningIsActive(st) && Enabled(st, step)
    ensures RunningIsActive(Next(st, step))
  {
    hide ReconcileModule, ReconcileService, ReconcileNode, WellFormed, ActionOf, JobEnv, Command;
    if step.ModuleStep? && step.name in st.modules {
      ModuleStepJobs(st, step.name, step.choice);
    } else if !step.JobStep? {
      OtherStepJobs(st, step);
    }
  }

  /** What a job tells the provisioner, whatever else is in the environment: flavor, image
      and number of replicas of the module, in the variables of these names; and in its
      command whether to remove, upgrade or deploy. */
  ghost predicate Tells(job: Job, spec: ModuleSpec, listing: seq<Node>, all: set<Node>) {
    var told := AsMap(job.env);
    && {"FLAVOR", "IMAGE", "QUANTITY"} <= told.Keys
    && told["FLAVOR"] == spec.flavor && told["IMAGE"] == spec.image
    && AllDigits(told["QUANTITY"]) && Value(told["QUANTITY"]) == spec.replicas
    && told - {"FLAVOR", "IMAGE", "QUANTITY"} == AsMap(spec.env) - {"FLAVOR", "IMAGE", "QUANTITY"}
    && (job.command == ["./remove"] <==> spec.replicas == 0)
    && (job.command == ["./upgrade"] <==> spec.replicas > 0 && UpgradeNeeded(spec, all) && NamedFirst(listing))
    && (job.command == ["./deploy"] <==> spec.replicas > 0 && !(UpgradeNeeded(spec, all) && NamedFirst(listing)))
    && job.containerImage == "automium/service-" + spec.source + ":" + spec.image
    && !job.status.started && job.status.active == 0
  }

  lemma AsMapOneMore(env: Env, v: EnvVar)
    ensures AsMap(env + [v]) == AsMap(env)[v.name := v.value]
  {
    assert (env + [v])[..|env|] == env;
  }

  lemma EnvTells(spec: ModuleSpec)
    ensures var told := AsMap(JobEnv(spec));
      && {"FLAVOR", "IMAGE", "QUANTITY"} <= told.Keys
      && told["FLAVOR"] == spec.flavor && told["IMAGE"] == spec.image && told["QUANTITY"] == Print(spec.replicas)
      && told - {"FLAVOR", "IMAGE", "QUANTITY"} == AsMap(spec.env) - {"FLAVOR", "IMAGE", "QUANTITY"}
  {
    hide AsMap, Print;
    var f, q, i := EnvVar("FLAVOR", spec.flavor), EnvVar("QUANTITY", Print(spec.replicas)), EnvVar("IMAGE", spec.image);
    assert JobEnv(spec) == ((spec.env + [f]) + [q]) + [i];
    AsMapOneMore(spec.env, f);
    AsMapOneMore(spec.env + [f], q);
    AsMapOneMore((spec.env + [f]) + [q], i);
    assert "FLAVOR" != "QUANTITY" && "FLAVOR" != "IMAGE" && "QUANTITY" != "IMAGE";
  }

  lemma NewJobTells(spec: ModuleSpec, listing: seq<Node>, all: set<Node>, uid: nat)
    requires Lists(listing, all) && UniqueHostnames(all)
    ensures Tells(NewJob(spec, ActionOf(spec, listing), uid), spec, listing, all)
  {
    hide ActionOf, JobEnv, Lists, UniqueHostnames, UpgradeNeeded, NamedFirst, AsMap, Print, Value;
    EnvTells(spec);
    PrintIsDecimal(spec.replicas);
    ActionMeans(spec, listing, all);
    CommandInjective(ActionOf(spec, listing), Destroy);
    assert "./remove"[2] == 'r' && "./upgrade"[2] == 'u' && "./deploy"[2] == 'd';
    var remove, upgrade, deploy := ["./remove"], ["./upgrade"], ["./deploy"];
    assert remove[0] != upgrade[0] && upgrade[0] != deploy[0] && remove[0] != deploy[0];
  }

  /** The job of a reconciled module is made for the action and spec of that moment; no
      other step makes one, and an active job survives every step unchanged but for its
      status. */
  lemma JobsChangeOnlySo(st: State, step: Step, j: string)
    requires WellFormed(st) && RunningIsActive(st) && Enabled(st, step)
    ensures var st' := Next(st, step);
      && (j in st'.jobs && (j !in st.jobs || st'.jobs[j].uid != st.jobs[j].uid) ==>
            step.ModuleStep? && step.name in st.modules &&
            var m := st.modules[step.name];
            j == step.name + "-job" && j !in st.jobs
              && Tells(st'.jobs[j], m.spec, step.choice.listing, ServiceNodes(st.nodes, m.service))
              && st'.jobs[j].uid == st.nextUid)
      && (j in st.jobs && st.jobs[j].status.active >= 1 ==>
            j in st'.jobs && st'.jobs[j] == st.jobs[j].(status := st'.jobs[j].status))
  {
    hide ReconcileModule, ReconcileService, ReconcileNode, WellFormed, ActionOf, JobEnv, Command, Tells, Lists,
      ServiceNodes, SortChoice;
    if step.ModuleStep? && step.name in st.modules {
      var m := st.modules[step.name];
      NodesKeyed(st);
      ModuleNamed(st, step.name);
      WellKeyedHostnames(st.nodes, m.service);
      ModuleStepJobs(st, step.name, step.choice);
      NewJobTells(m.spec, step.choice.listing, ServiceNodes(st.nodes, m.service), st.nextUid);
    } else if !step.JobStep? {
      OtherStepJobs(st, step);
    }
  }

  lemma ModuleNamed(st: State, name: string)
    requires WellFormed(st) && name in st.modules
    ensures st.modules[name].name == name
  {
    hide WellKeyed;
  }

  lemma UidsGrow(st: State, step: Step, j: string, u: nat)
    requires WellFormed(st) && RunningIsActive(st) && Enabled(st, step)
    requires u < st.nextUid && (j in st.jobs ==> u <= st.jobs[j].uid)
    ensures var st' := Next(st, step); u < st'.nextUid && (j in st'.jobs ==> u <= st'.jobs[j].uid)
  {
    hide ReconcileModule, ReconcileService, ReconcileNode, WellFormed, ActionOf, JobEnv, Command;
    if step.ModuleStep? && step.name in st.modules {
      ModuleStepJobs(st, step.name, step.choice);
    } else if !step.JobStep? {
      OtherStepJobs(st, step);
    }
  }

  lemma {:induction false} RunInvariants(states: seq<State>, steps: seq<Step>, i: nat)
    requires IsRun(states, steps) && RunningIsActive(states[0]) && i < |states|
    ensures WellFormed(states[i]) && RunningIsActive(states[i])
  {
    hide WellFormed, RunningIsActive, Next, Enabled;
    if i > 0 {
      RunInvariants(states, steps, i - 1);
      StepKeepsWellFormed(states[i - 1], steps[i - 1]);
      StepKeepsRunningIsActive(states[i - 1], steps[i - 1]);
    }
  }

  lemma {:induction false} UidsGrowAlong(states: seq<State>, steps: seq<Step>, i: nat, k: nat, j: string)
    requires IsRun(states, steps) && RunningIsActive(states[0]) && i <= k < |states|
    requires j in states[i].jobs
    ensures states[i].jobs[j].uid < states[k].nextUid
    ensures j in states[k].jobs ==> states[i].jobs[j].uid <= states[k].jobs[j].uid
  {
    hide WellFormed, Next, Enabled;
    RunInvariants(states, steps, i);
    if k > i {
      UidsGrowAlong(states, steps, i, k - 1, j);
      RunInvariants(states, steps, k - 1);
      UidsGrow(states[k - 1], steps[k - 1], j, states[i].jobs[j].uid);
    }
  }

  /** Jobs of one module never run side by side, and a replaced one never runs again:
      over any run, what runs later under a job's name is the same job or a newer one. */
  lemma JobsNeverOverlap(states: seq<State>, steps: seq<Step>, i: nat, k: nat, a: Run, b: Run)
    requires IsRun(states, steps) && RunningIsActive(states[0]) && i <= k < |states|
    requires a in states[i].running && b in states[k].running && a.job == b.job
    ensures a.uid <= b.uid && (i == k ==> a == b)
  {
    RunInvariants(states, steps, i);
    RunInvariants(states, steps, k);
    UidsGrowAlong(states, steps, i, k, a.job);
  }

  /* ---- a node pass and the action ---- */

  ghost predicate SameStatuses(a: set<Node>, b: set<Node>) {
    && Names(a) == Names(b)
    && forall x, y | x in a && y in b && x.name == y.name :: x.status == y.status
  }

  lemma StatusesDecideAction(spec: ModuleSpec, a: set<Node>, b: set<Node>)
    requires UniqueNames(a) && UniqueNames(b) && SameStatuses(a, b)
    ensures |CountedOf(a)| == |CountedOf(b)|
    ensures UpgradeNeeded(spec, a) == UpgradeNeeded(spec, b)
    ensures SomeNamed(a) == SomeNamed(b) && HealthyNamed(a) == HealthyNamed(b)
  {
    SameNames(a, b);
    NamesCardinality(CountedOf(a));
    NamesCardinality(CountedOf(b));
    OutlookCarries(spec, a, b);
    OutlookCarries(spec, b, a);
  }

  lemma Twin(a: set<Node>, b: set<Node>, x: Node) returns (y: Node)
    requires SameStatuses(a, b) && x in a
    ensures y in b && y.name == x.name && y.status == x.status
  {
    assert x.name in Names(b);
    y :| y in b && y.name == x.name;
  }

  lemma OutlookCarries(spec: ModuleSpec, a: set<Node>, b: set<Node>)
    requires UniqueNames(a) && UniqueNames(b) && SameStatuses(a, b) && |CountedOf(a)| == |CountedOf(b)|
    ensures UpgradeNeeded(spec, a) ==> UpgradeNeeded(spec, b)
    ensures SomeNamed(a) ==> SomeNamed(b)
    ensures HealthyNamed(b) ==> HealthyNamed(a)
  {
    forall x | x in HealthyOf(a) ensures exists y :: y in HealthyOf(b) && y.status == x.status {
      var y := Twin(a, b, x);
      assert y in HealthyOf(b);
    }
    if UpgradeNeeded(spec, a) {
      var p :| p in a && OffTarget(p, spec);
      var q := Twin(a, b, p);
    }
  }

  lemma SameNames(a: set<Node>, b: set<Node>)
    requires SameStatuses(a, b)
    ensures Names(CountedOf(a)) == Names(CountedOf(b))
  {
    forall name ensures name in Names(CountedOf(a)) <==> name in Names(CountedOf(b)) {
      if name in Names(CountedOf(a)) {
        var x :| x in CountedOf(a) && x.name == name;
        assert name in Names(b);
        var y :| y in b && y.name == name;
        assert y in CountedOf(b);
      }
      if name in Names(CountedOf(b)) {
        var y :| y in CountedOf(b) && y.name == name;
        assert name in Names(a);
        var x :| x in a && x.name == name;
        assert x in CountedOf(a);
      }
    }
  }

  lemma WellKeyedHostnames(nodes: Nodes, service: string)
    requires WellKeyed(nodes)
    ensures UniqueHostnames(ServiceNodes(nodes, service))
  {
    hide Generated;
    var all := ServiceNodes(nodes, service);
    forall a, b | a in all && b in all && a.hostname == b.hostname ensures a == b {
      HostnamesUnique(a, b);
    }
  }

  /** How many nodes would be counted once the missing indices below R exist. */
  ghost function GrownCount(nodes: Nodes, service: string, r: nat): nat {
    |CountedOf(ServiceNodes(nodes, service))| + |LowNames(service, r) - ServiceNames(nodes, service)|
  }

  lemma GrownNodes(nodes: Nodes, service: string, stem: string, r: nat)
    requires WellKeyed(nodes)
    ensures var all, all' := ServiceNodes(nodes, service), ServiceNodes(Grown(nodes, service, stem, r), service);
      && all <= all'
      && Names(all' - all) == LowNames(service, r) - ServiceNames(nodes, service)
      && UniqueNames(all')
      && forall n | n in all' - all :: n.status == NO_STATUS
  {
    hide Grown, Generated, NodeName, Index, LowNames, NewNode;
    var g := Grown(nodes, service, stem, r);
    GrownExactly(nodes, service, stem, r);
    GrownStored(nodes, service, stem, r);
    NewNodeStatus(service, stem);
    ServiceNodesFacts(nodes, service);
    ServiceNodesFacts(g, service);
    AddedNodes(nodes, g, service, LowNames(service, r));
  }

  lemma NewNodeStatus(service: string, stem: string)
    ensures forall i :: NewNode(service, stem, i).status == NO_STATUS
  {
  }

  lemma AddedNodes(nodes: Nodes, g: Nodes, service: string, low: set<string>)
    requires forall k | k in nodes :: k in g && g[k] == nodes[k] && nodes[k].name == k
    requires forall k | k in g && k !in nodes :: g[k].status == NO_STATUS && g[k].name == k
    requires ServiceNames(g, service) == ServiceNames(nodes, service) + low
    ensures var all, all' := ServiceNodes(nodes, service), ServiceNodes(g, service);
      && all <= all' && Names(all' - all) == low - ServiceNames(nodes, service)
      && forall n | n in all' - all :: n.status == NO_STATUS
  {
    var all, all' := ServiceNodes(nodes, service), ServiceNodes(g, service);
    forall k | k in nodes && nodes[k].service == service ensures nodes[k] in all' && g[k] in all {
      assert g[k].service == service;
    }
    forall n | n in all' - all ensures n.name in low - ServiceNames(nodes, service) && n.status == NO_STATUS {
      var k :| k in g && g[k].service == service && g[k] == n;
      assert k in ServiceNames(g, service);
    }
    forall name | name in low - ServiceNames(nodes, service) ensures name in Names(all' - all) {
      assert name in ServiceNames(g, service);
      assert g[name] in all' && g[name].name == name;
      assert g[name] !in all;
    }
  }

  /** Growing takes the number of counted nodes of the service past R. */
  ghost predicate GrowsPast(nodes: Nodes, service: string, r: nat) {
    |ServiceNodes(nodes, service)| < r < GrownCount(nodes, service, r)
  }

  lemma GrowAction(nodes: Nodes, service: string, stem: string, spec: ModuleSpec)
    requires WellKeyed(nodes) && spec.replicas > 0
    ensures var all := ServiceNodes(nodes, service);
      var all' := ServiceNodes(Grown(nodes, service, stem, spec.replicas), service);
      && |CountedOf(all')| == GrownCount(nodes, service, spec.replicas)
      && (UpgradeNeeded(spec, all') <==>
            UpgradeNeeded(spec, all) && GrownCount(nodes, service, spec.replicas) <= spec.replicas)
      && SomeNamed(all') == SomeNamed(all) && HealthyNamed(all') == HealthyNamed(all)
  {
    hide Grown, Generated, Index, NodeName, WellKeyed, LowNames, ServiceNames, ServiceNodes, UpgradeNeeded,
      SomeNamed, HealthyNamed;
    var g := Grown(nodes, service, stem, spec.replicas);
    var all, all' := ServiceNodes(nodes, service), ServiceNodes(g, service);
    GrownNodes(nodes, service, stem, spec.replicas);
    NamesCardinality(all' - all);
    NewNodesCount(all, all' - all);
    assert all + (all' - all) == all';
    NewNodesRule(spec, all, all' - all);
  }

  lemma NewNodesRule(spec: ModuleSpec, all: set<Node>, added: set<Node>)
    requires spec.replicas > 0 && all !! added && forall n | n in added :: n.status == NO_STATUS
    ensures UpgradeNeeded(spec, all + added) <==> UpgradeNeeded(spec, all) && |CountedOf(all + added)| <= spec.replicas
    ensures SomeNamed(all + added) == SomeNamed(all) && HealthyNamed(all + added) == HealthyNamed(all)
  {
    var all' := all + added;
    NewNodesCount(all, added);
    assert HealthyOf(all') == HealthyOf(all);
    if UpgradeNeeded(spec, all) {
      var n :| n in all && OffTarget(n, spec);
      assert n in all';
    }
    if HealthyOf(all) != {} {
      var h :| h in HealthyOf(all);
      assert h in CountedOf(all);
    }
  }

  lemma NewNodesCount(all: set<Node>, added: set<Node>)
    requires all !! added && forall n | n in added :: n.status == NO_STATUS
    ensures |CountedOf(all + added)| == |CountedOf(all)| + |added|
  {
    assert CountedOf(all + added) == CountedOf(all) + added;
  }

  lemma MarkedStatuses(nodes: Nodes, service: string, victims: set<string>, now: string)
    requires WellKeyed(nodes)
    ensures var m := Marked(nodes, victims, now);
      SameStatuses(ServiceNodes(nodes, service), ServiceNodes(m, service))
  {
    hide Generated;
    var m := Marked(nodes, victims, now);
    MarkedFacts(nodes, victims, now);
    ServiceNodesFacts(nodes, service);
    ServiceNodesFacts(m, service);
  }

  /** What a node pass does to the action of its module, exactly: growing past R nodes
      makes an upgrade no longer due, everything else leaves what the action depends on. */
  lemma PassAction(nodes: Nodes, m: Module, victims: set<Node>, now: string)
    requires WellKeyed(nodes) && Pass(nodes, m, victims, now).Done?
    ensures var all := ServiceNodes(nodes, m.service);
      var all' := ServiceNodes(Pass(nodes, m, victims, now).nodes, m.service);
      && (UpgradeNeeded(m.spec, all') <==>
            UpgradeNeeded(m.spec, all) && !GrowsPast(nodes, m.service, m.spec.replicas))
      && SomeNamed(all') == SomeNamed(all) && HealthyNamed(all') == HealthyNamed(all)
  {
    hide Grown, Generated, UpgradeNeeded, SomeNamed, HealthyNamed, GrownCount;
    var all := ServiceNodes(nodes, m.service);
    if |all| < m.spec.replicas {
      GrowAction(nodes, m.service, HostStem(m).value, m.spec);
    } else if |all| > m.spec.replicas {
      MarkedFacts(nodes, Names(victims), now);
      ServiceNodesFacts(nodes, m.service);
      ServiceNodesFacts(Marked(nodes, Names(victims), now), m.service);
      MarkedStatuses(nodes, m.service, Names(victims), now);
      StatusesDecideAction(m.spec, all, ServiceNodes(Marked(nodes, Names(victims), now), m.service));
    }
  }

  /** Growing to at most R nodes, or only marking, causes no new action; and growing past
      R does so exactly when an upgrade was due. */
  lemma NoChurnIff(nodes: Nodes, m: Module, victims: set<Node>, now: string)
    requires WellKeyed(nodes) && Pass(nodes, m, victims, now).Done?
    ensures var all := ServiceNodes(nodes, m.service);
      var all' := ServiceNodes(Pass(nodes, m, victims, now).nodes, m.service);
      && (|all'| <= m.spec.replicas || |all| >= m.spec.replicas ==> ActionRule(m.spec, all') == ActionRule(m.spec, all))
      && (ActionRule(m.spec, all') != ActionRule(m.spec, all) <==>
            GrowsPast(nodes, m.service, m.spec.replicas) && UpgradeNeeded(m.spec, all))
  {
    hide Grown, Generated, UpgradeNeeded, SomeNamed, HealthyNamed, GrownCount;
    PassAction(nodes, m, victims, now);
    var all := ServiceNodes(nodes, m.service);
    if |all| < m.spec.replicas {
      GrowAction(nodes, m.service, HostStem(m).value, m.spec);
      var all' := ServiceNodes(Pass(nodes, m, victims, now).nodes, m.service);
      SubsetSize(CountedOf(all'), all');
    }
  }

  /** The reconcile got past the comparison of its job. */
  ghost predicate Validated(st: State, name: string, c: Choice) {
    ReconcileModule(st, name, c).1.Reconciled? || ReconcileModule(st, name, c).1 == JobUnreadable
  }

  /** The job a reconcile has just validated matches on the next reconcile, whatever the
      order of its listing, exactly in this case: its own node pass grew past R and it is
      a deploy job; or the pass did not, and the order does not matter to the action. */
  lemma ValidatedJobStillMatchesIff(st: State, name: string, c: Choice)
    requires WellFormed(st) && name in st.modules && ValidChoice(st, name, c) && Validated(st, name, c)
    ensures var st', m := ReconcileModule(st, name, c).0, st.modules[name];
      && JobName(m) in st'.jobs
      && ((forall d | ValidChoice(st', name, d) ::
             JobMatches(st'.jobs[JobName(m)], m.spec, ActionOf(m.spec, d.listing))) <==>
           if GrowsPast(st.nodes, m.service, m.spec.replicas) then ActionOf(m.spec, c.listing) == Deploy
           else OrderFree(m.spec, ServiceNodes(st.nodes, m.service)))
  {
    hide Pass, ActionOf, UpgradeNeeded, SomeNamed, HealthyNamed, Generated, GrownCount, Lists, SortChoice, WellKeyed,
      ReconcileModule, JobMatches, ServiceNodes;
    var st', m := ReconcileModule(st, name, c).0, st.modules[name];
    var all, all' := ServiceNodes(st.nodes, m.service), ServiceNodes(st'.nodes, m.service);
    ValidatedPass(st, name, c);
    OnlyOneMatches(st.jobs[JobName(m)], m.spec, ActionOf(m.spec, c.listing));
    PassAction(st.nodes, m, c.victims, c.now);
    WellKeyedHostnames(st.nodes, m.service);
    WellKeyedHostnames(st'.nodes, m.service);
    if OrderFree(m.spec, all') {
      forall d | ValidChoice(st', name, d) ensures ActionOf(m.spec, d.listing) == Chosen(m.spec, all') {
        ChosenInEveryOrder(m.spec, d.listing, all');
      }
      var p := ListingExists(all');
      var d := ChoiceWith(st', name, p);
      if !GrowsPast(st.nodes, m.service, m.spec.replicas) {
        ChosenInEveryOrder(m.spec, c.listing, all);
      }
    } else {
      var p, q := BothActions(m.spec, all');
      var d := ChoiceWith(st', name, p);
      var e := ChoiceWith(st', name, q);
    }
  }

  /** A reconcile that got past its job leaves it and performs the node pass. */
  lemma ValidatedPass(st: State, name: string, c: Choice)
    requires WellFormed(st) && name in st.modules && Validated(st, name, c)
    ensures var st', m := ReconcileModule(st, name, c).0, st.modules[name];
      && st'.jobs == st.jobs && JobName(m) in st.jobs
      && JobMatches(st.jobs[JobName(m)], m.spec, ActionOf(m.spec, c.listing))
      && Pass(st.nodes, m, c.victims, c.now) == PassResult.Done(st'.nodes)
      && WellKeyed(st'.nodes)
      && name in st'.modules && st'.modules[name] == m.(status := st'.modules[name].status)
  {
    hide Pass, ActionOf, StatusFor, PhaseFor, JobPhase, JobMatches, WellKeyed;
    PassKeepsWellKeyed(st.nodes, st.modules[name], c.victims, c.now);
  }

  lemma OnlyOneMatches(job: Job, spec: ModuleSpec, action: Action)
    requires JobMatches(job, spec, action)
    ensures forall other :: JobMatches(job, spec, other) <==> other == action
  {
    forall other ensures JobMatches(job, spec, other) <==> other == action {
      CommandInjective(action, other);
    }
  }

  /** Any listing can come with some outcome of the sort. */
  lemma ChoiceWith(st: State, name: string, listing: seq<Node>) returns (c: Choice)
    requires name in st.modules && Lists(listing, ServiceNodes(st.nodes, st.modules[name].service))
    ensures ValidChoice(st, name, c) && c.listing == listing
  {
    hide Lists, SortChoice, ServiceNodes;
    var victims := SomeChoice(st.nodes, st.modules[name]);
    c := Choice(listing, victims, "now");
  }
}

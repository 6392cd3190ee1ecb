/** What the phase of a module means once its reconcile has nothing left to write. */
module Completed {
  import opened Sets
  import opened Wrappers
  import opened Model
  import opened NodeUtils
  import opened NodeSet
  import opened ModuleLogic
  import opened Protocol
  import opened Jobs

  /** The provisioner has finished, and with success. */
  predicate JobComplete(job: Job) {
    && job.status.started && job.status.active <= 0
    && job.status.conditions != [] && job.status.conditions[0] == "Complete"
  }

  /** The phase that the stored job stands for, and when it stands for none. */
  lemma JobPhaseMeans(job: Job)
    ensures JobPhase(job.status) == Some(Phase.Completed) <==> JobComplete(job)
    ensures JobPhase(job.status) == Some(Failed) <==>
      && job.status.started && job.status.active <= 0
      && job.status.conditions != [] && job.status.conditions[0] == "Failed"
    ensures JobPhase(job.status) == Some(Running) <==> job.status.started && job.status.active > 0
    ensures JobPhase(job.status) == Some(Pending) <==> !job.status.started
    ensures JobPhase(job.status) != Some(Unset)
  {
    assert "Complete"[0] != "Failed"[0];
  }

  lemma AllUpdated(all: set<Node>, spec: ModuleSpec)
    requires |UpdatedOf(all, spec)| == |all|
    ensures forall n | n in all :: WorksOn(n, spec.image, spec.flavor)
  {
    hide WorksOn;
    SubsetSize(UpdatedOf(all, spec), all);
  }

  /** When every node is updated the choice is Deploy, named by Consul or not. */
  lemma UpdatedMeansDeploy(spec: ModuleSpec, nodes: seq<Node>, all: set<Node>)
    requires Lists(nodes, all) && spec.replicas == |all| > 0
    requires forall n | n in all :: WorksOn(n, spec.image, spec.flavor)
    ensures ActionOf(spec, nodes) == Deploy
  {
    forall n | n in nodes ensures WorksOn(n, spec.image, spec.flavor) {
      assert n in Elements(nodes);
    }
    ListingLength(nodes, all);
    assert nodes[0] in nodes;
    assert FirstHealthy(nodes) in nodes;
  }

  lemma NothingMarked(nodes: Nodes, victims: set<Node>, now: string)
    requires Marked(nodes, Names(victims), now) == nodes && now != ""
    requires forall v | v in victims :: v.name in nodes && nodes[v.name] == v
    ensures forall v | v in victims :: v.deletionDate != ""
  {
    forall v | v in victims ensures v.deletionDate != "" {
      assert Marked(nodes, Names(victims), now)[v.name] == nodes[v.name];
    }
  }

  /** A reconcile that gets to its last status update, writes nothing and leaves Completed
      tells the truth: the job for the present spec and action has completed, R replicas
      are updated, there are at least R nodes, every surplus node the sort picked is
      marked, and with exactly R nodes each is healthy on the target image and flavor. */
  lemma QuiescentCompletedIsTruthful(st: State, name: string, c: Choice)
    requires WellFormed(st) && ValidChoice(st, name, c) && name in st.modules
    requires ReconcileModule(st, name, c).0 == st && ReconcileModule(st, name, c).1.Reconciled?
    requires st.modules[name].status.phase == Phase.Completed
    ensures var m := st.modules[name];
      var all, action := ServiceNodes(st.nodes, m.service), ActionOf(m.spec, c.listing);
      && JobName(m) in st.jobs
      && JobMatches(st.jobs[JobName(m)], m.spec, action)
      && JobComplete(st.jobs[JobName(m)])
      && m.status.updatedReplicas == m.status.replicas == m.spec.replicas == |UpdatedOf(all, m.spec)| <= |all|
      && (|all| > m.spec.replicas ==> forall v | v in c.victims :: v.deletionDate != "")
      && (|all| == m.spec.replicas ==> forall n | n in all :: WorksOn(n, m.spec.image, m.spec.flavor))
      && (|all| == m.spec.replicas > 0 ==> action == Deploy)
  {
    hide ActionOf, JobMatches, JobPhase, Pass, WorksOn, WellKeyed, Lists, Generated;
    var m := st.modules[name];
    var all := ServiceNodes(st.nodes, m.service);
    CompletedFields(st, name, c);
    JobPhaseMeans(st.jobs[JobName(m)]);
    SubsetSize(UpdatedOf(all, m.spec), all);
    if |all| == m.spec.replicas {
      AllUpdated(all, m.spec);
      if |all| > 0 {
        UpdatedMeansDeploy(m.spec, c.listing, all);
      }
    } else {
      SurplusMarked(st.nodes, m, c.victims, c.now);
    }
  }

  lemma SurplusMarked(nodes: Nodes, m: Module, victims: set<Node>, now: string)
    requires WellKeyed(nodes) && SortChoice(nodes, m, victims) && now != ""
    requires Pass(nodes, m, victims, now) == Done(nodes) && |ServiceNodes(nodes, m.service)| > m.spec.replicas
    ensures forall v | v in victims :: v.deletionDate != ""
  {
    hide Generated, Marked, KeyNumber, SortWorks;
    assert forall v | v in victims :: v in ServiceNodes(nodes, m.service);
    NothingMarked(nodes, victims, now);
  }

  lemma CompletedFields(st: State, name: string, c: Choice)
    requires WellFormed(st) && name in st.modules
    requires ReconcileModule(st, name, c).0 == st && ReconcileModule(st, name, c).1.Reconciled?
    requires st.modules[name].status.phase == Phase.Completed
    ensures var m := st.modules[name];
      && JobName(m) in st.jobs
      && JobMatches(st.jobs[JobName(m)], m.spec, ActionOf(m.spec, c.listing))
      && JobPhase(st.jobs[JobName(m)].status) == Some(Phase.Completed)
      && Pass(st.nodes, m, c.victims, c.now) == Done(st.nodes)
      && m.status.updatedReplicas == m.status.replicas == m.spec.replicas
      && m.status.updatedReplicas == |UpdatedOf(ServiceNodes(st.nodes, m.service), m.spec)|
  {
    hide ActionOf, JobMatches, JobPhase, Pass, WorksOn, WellKeyed, HealthyOf, UpdatedOf;
    var m := st.modules[name];
    assert st.modules[name := m.(status := st.modules[name].status)] == st.modules;
    var st' := ReconcileModule(st, name, c).0;
    assert st'.modules[name] == m;
  }

  /** Spec, job and nodes being fixed, the third of three successive reconciles writes
      nothing, whatever status was stored at first and in whatever orders the nodes were
      listed; and the phase then stored is Completed exactly when the job is complete and
      R nodes are updated. */
  lemma StatusSettles(st0: State, st1: State, st2: State, name: string, c0: Choice, c1: Choice, c2: Choice)
    requires WellFormed(st0) && name in st0.modules
    requires ReconcileModule(st0, name, c0).0 == st1 && ReconcileModule(st0, name, c0).1.Reconciled?
    requires ReconcileModule(st1, name, c1).0 == st2 && ReconcileModule(st1, name, c1).1.Reconciled?
    requires ReconcileModule(st2, name, c2).1.Reconciled?
    requires st0.nodes == st1.nodes == st2.nodes == ReconcileModule(st2, name, c2).0.nodes
    ensures ReconcileModule(st2, name, c2).0 == st2
    ensures var m := st2.modules[name];
      m.status.phase == Phase.Completed <==>
        JobName(m) in st2.jobs && JobComplete(st2.jobs[JobName(m)])
        && |UpdatedOf(ServiceNodes(st2.nodes, m.service), m.spec)| == m.spec.replicas
  {
    hide ActionOf, JobMatches, JobPhase, Pass, WorksOn, WellKeyed, HealthyOf, UpdatedOf;
    OneReconcile(st0, name, c0);
    OneReconcile(st1, name, c1);
    OneReconcile(st2, name, c2);
    var m := st0.modules[name];
    JobPhaseMeans(st0.jobs[JobName(m)]);
    OnlyOneMatches(st0.jobs[JobName(m)], m.spec, ActionOf(m.spec, c0.listing));
  }

  /** A reconcile that gets to its status update, seen from outside. */
  lemma OneReconcile(st: State, name: string, c: Choice)
    requires WellFormed(st) && name in st.modules
    requires ReconcileModule(st, name, c).1.Reconciled? && ReconcileModule(st, name, c).0.nodes == st.nodes
    ensures var m := st.modules[name];
      var all, action := ServiceNodes(st.nodes, m.service), ActionOf(m.spec, c.listing);
      && JobName(m) in st.jobs && JobPhase(st.jobs[JobName(m)].status).Some?
      && JobMatches(st.jobs[JobName(m)], m.spec, action)
      && var status := NextStatus(m.status, m.spec, action, JobPhase(st.jobs[JobName(m)].status).value, all);
         ReconcileModule(st, name, c).0 == st.(modules := st.modules[name := m.(status := status)])
    ensures WellFormed(ReconcileModule(st, name, c).0)
  {
    hide ActionOf, JobMatches, JobPhase, Pass, WorksOn, HealthyOf, UpdatedOf, Generated;
    assert st.(nodes := st.nodes) == st;
  }

  /** The phase stored by a reconcile that gets to its status update, by what the job
      controller reported: a failed job stores Failed, a complete one Completed or, while
      the counts stored before disagree, Pending. */
  lemma StoredPhase(st: State, name: string, c: Choice)
    requires WellFormed(st) && name in st.modules && ReconcileModule(st, name, c).1.Reconciled?
    ensures var m, st' := st.modules[name], ReconcileModule(st, name, c).0;
      && JobName(m) in st.jobs && name in st'.modules
      && var job, phase := st.jobs[JobName(m)].status, st'.modules[name].status.phase;
         && (phase == Running <==> job.started && job.active > 0)
         && (phase == Failed <==>
               job.started && job.active <= 0 && job.conditions != [] && job.conditions[0] == "Failed")
         && (phase == Phase.Completed <==>
               JobComplete(st.jobs[JobName(m)]) && m.status.updatedReplicas == m.status.replicas)
         && (phase == Pending <==>
               !job.started || (JobComplete(st.jobs[JobName(m)]) && m.status.updatedReplicas != m.status.replicas))
  {
    hide ActionOf, JobMatches, JobPhase, Pass, StatusFor, JobComplete, WellFormed;
    JobPhaseMeans(st.jobs[JobName(st.modules[name])]);
    StoredPhaseIs(st, name, c);
  }

  lemma StoredPhaseIs(st: State, name: string, c: Choice)
    requires WellFormed(st) && name in st.modules && ReconcileModule(st, name, c).1.Reconciled?
    ensures var m, st' := st.modules[name], ReconcileModule(st, name, c).0;
      && JobName(m) in st.jobs && name in st'.modules && JobPhase(st.jobs[JobName(m)].status).Some?
      && st'.modules[name].status.phase == PhaseFor(m.status, JobPhase(st.jobs[JobName(m)].status).value)
  {
    hide ActionOf, JobMatches, JobPhase, Pass, WellKeyed;
  }

  /** Otherwise it is started and idle without a condition the operator knows. */
  lemma UnreadableJob(st: State, name: string, c: Choice)
    requires WellFormed(st) && name in st.modules && Validated(st, name, c)
    ensures var job := st.jobs[JobName(st.modules[name])].status;
      ReconcileModule(st, name, c).1 == JobUnreadable <==>
        job.started && job.active <= 0 && (job.conditions == [] || job.conditions[0] !in {"Complete", "Failed"})
  {
    hide ActionOf, JobMatches, Pass, StatusFor, WellFormed;
    assert "Complete"[0] != "Failed"[0];
  }

  /** The counts stored by a status update, by the nodes that are up. */
  lemma StoredCounts(st: State, name: string, c: Choice)
    requires WellFormed(st) && name in st.modules && ReconcileModule(st, name, c).1.Reconciled?
    ensures var m, st' := st.modules[name], ReconcileModule(st, name, c).0;
      && name in st'.modules
      && var all, status := ServiceNodes(st'.nodes, m.service), st'.modules[name].status;
         && status.replicas == m.spec.replicas
         && status.updatedReplicas == |set n | n in all && WorksOn(n, m.spec.image, m.spec.flavor)|
         && (ActionOf(m.spec, c.listing) == Deploy ==> status.currentReplicas == |set n | n in all && Works(n)|)
         && (ActionOf(m.spec, c.listing) != Deploy ==>
               status.currentReplicas == |set n | n in all && Works(n) && !WorksOn(n, m.spec.image, m.spec.flavor)|)
  {
    hide ActionOf, JobMatches, JobPhase, Pass, WellKeyed, PhaseFor, Works, ServiceNodes;
    var m, st' := st.modules[name], ReconcileModule(st, name, c).0;
    var all := ServiceNodes(st'.nodes, m.service);
    var rest := set n | n in all && Works(n) && !WorksOn(n, m.spec.image, m.spec.flavor);
    assert HealthyOf(all) == UpdatedOf(all, m.spec) + rest;
  }

  /** A reconcile that replaces the job found an idle one that was not made for the present
      spec and action; it deletes it and stores the phase Pending. One that finds such a
      job active waits and writes nothing. */
  lemma ReplacedOrBusy(st: State, name: string, c: Choice)
    requires WellFormed(st) && name in st.modules
    ensures var m, j := st.modules[name], name + "-job";
      var (st', outcome) := ReconcileModule(st, name, c);
      && (outcome == JobReplaced ==>
            j in st.jobs && st.jobs[j].status.active < 1 && !JobMatches(st.jobs[j], m.spec, ActionOf(m.spec, c.listing))
            && st'.jobs == st.jobs - {j} && st'.nodes == st.nodes
            && name in st'.modules && st'.modules[name].status.phase == Pending && st'.modules[name].spec == m.spec)
      && (outcome == JobBusy ==>
            st' == st && j in st.jobs && st.jobs[j].status.active >= 1
            && !JobMatches(st.jobs[j], m.spec, ActionOf(m.spec, c.listing)))
      && (outcome in {NotFound, ActionFailed, NodesFailed} ==> st' == st)
  {
    hide ActionOf, JobMatches, JobPhase, Pass, WellKeyed, PhaseFor;
  }
}

/** Single steps that the module controller and the job controller can be made to take. */
module Schedules {
  import opened Model
  import opened NodeUtils
  import opened NodeSet
  import opened ModuleLogic
  import opened Protocol
  import opened Jobs

  /** A job that has done its work. */
  const FINISHED := JobStatus(true, 0, ["Complete"])

  /** A reconcile of the module gets to its action. */
  predicate CanAct(m: Module) {
    m.spec.replicas == 0 || m.service != ""
  }

  /** The same nodes, and the same module but for its status. */
  ghost predicate SameView(st: State, st': State, name: string) {
    && WellFormed(st) && WellFormed(st') && name in st.modules && name in st'.modules
    && st'.nodes == st.nodes
    && st'.modules[name] == st.modules[name].(status := st'.modules[name].status)
  }

  predicate JobIs(st: State, name: string, action: Action)
    requires name in st.modules
  {
    var m := st.modules[name];
    JobName(m) in st.jobs && JobMatches(st.jobs[JobName(m)], m.spec, action)
  }

  predicate JobIdle(st: State, name: string)
    requires name in st.modules
  {
    var m := st.modules[name];
    JobName(m) in st.jobs ==> st.jobs[JobName(m)].status.active < 1
  }

  lemma FinishStep(st: State, name: string)
    requires WellFormed(st) && name in st.modules
    ensures var m, st' := st.modules[name], Next(st, JobStep(JobName(st.modules[name]), FINISHED));
      && SameView(st, st', name) && JobIdle(st', name) && st'.modules == st.modules
      && (JobName(m) in st'.jobs <==> JobName(m) in st.jobs)
      && (JobName(m) in st.jobs ==> st'.jobs[JobName(m)] == st.jobs[JobName(m)].(status := FINISHED))
      && (forall action :: JobIs(st', name, action) <==> JobIs(st, name, action))
  {
    hide WellKeyed, JobEnv, Command;
  }

  lemma CreateStep(st: State, name: string, c: Choice)
    requires WellFormed(st) && name in st.modules && ValidChoice(st, name, c)
    requires JobName(st.modules[name]) !in st.jobs && CanAct(st.modules[name])
    ensures var st' := ReconcileModule(st, name, c).0;
      && SameView(st, st', name) && JobIdle(st', name)
      && JobIs(st', name, ActionOf(st.modules[name].spec, c.listing))
  {
    hide WellKeyed, JobEnv, Command, ActionOf, Lists, SortChoice;
  }

  lemma ReplaceStep(st: State, name: string, c: Choice)
    requires WellFormed(st) && name in st.modules && ValidChoice(st, name, c)
    requires JobName(st.modules[name]) in st.jobs && JobIdle(st, name) && CanAct(st.modules[name])
    requires !JobIs(st, name, ActionOf(st.modules[name].spec, c.listing))
    ensures ReconcileModule(st, name, c).1 == JobReplaced
    ensures var st' := ReconcileModule(st, name, c).0;
      SameView(st, st', name) && JobName(st'.modules[name]) !in st'.jobs
  {
    hide WellKeyed, JobMatches, ActionOf, StatusFor, Lists, SortChoice;
  }

  lemma PassStep(st: State, name: string, c: Choice)
    requires WellFormed(st) && name in st.modules && ValidChoice(st, name, c)
    requires CanAct(st.modules[name]) && JobIs(st, name, ActionOf(st.modules[name].spec, c.listing))
    requires Pass(st.nodes, st.modules[name], c.victims, c.now).Done?
    ensures Validated(st, name, c)
    ensures JobPhase(st.jobs[JobName(st.modules[name])].status).Some? ==> ReconcileModule(st, name, c).1.Reconciled?
    ensures var m, st' := st.modules[name], ReconcileModule(st, name, c).0;
      && WellFormed(st') && st'.jobs == st.jobs
      && PassResult.Done(st'.nodes) == Pass(st.nodes, m, c.victims, c.now)
      && name in st'.modules && st'.modules[name] == m.(status := st'.modules[name].status)
  {
    hide WellKeyed, JobMatches, ActionOf, StatusFor, PhaseFor, JobPhase, Lists, SortChoice, Pass;
    PassKeepsWellKeyed(st.nodes, st.modules[name], c.victims, c.now);
  }

  lemma ChoiceStays(st: State, st': State, name: string, c: Choice)
    requires SameView(st, st', name) && ValidChoice(st, name, c)
    ensures ValidChoice(st', name, c)
  {
    hide WellFormed, Lists, SortWorks, Victims;
  }
}

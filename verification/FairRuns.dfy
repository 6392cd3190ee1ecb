/** Infinite runs: with fair scheduling the node set of a service converges. */
module FairRuns {
  import opened Sets
  import opened Model
  import opened NodeUtils
  import opened NodeSet
  import opened ModuleLogic
  import opened Protocol
  import opened Convergence
  import opened Jobs
  import opened Statuses
  import opened Recovery
  import opened Refinement

  type States = nat -> State
  type Steps = nat -> Step

  ghost predicate IsBehavior(states: States, steps: Steps) {
    && WellFormed(states(0))
    && forall i: nat :: Enabled(states(i), steps(i)) && states(i + 1) == Next(states(i), steps(i))
  }

  /** At all times the module asks for `r` nodes with digit-free hostname prefixes. */
  ghost predicate TargetForever(states: States, name: string, service: string, r: nat) {
    forall i: nat :: name in states(i).modules && Target(states(i).modules[name], service, r)
  }

  /** A reconcile of the module that gets past its node management. */
  ghost predicate PassAt(states: States, steps: Steps, i: nat, name: string) {
    steps(i).ModuleStep? && steps(i).name == name && Validated(states(i), name, steps(i).choice)
  }

  /** The node controller keeps coming back to every node. */
  ghost predicate NodeStepAt(steps: Steps, i: nat, node: string) {
    steps(i).NodeStep? && steps(i).node == node
  }

  ghost predicate MarkedAt(states: States, i: nat, node: string) {
    node in states(i).nodes && states(i).nodes[node].deletionDate != ""
  }

  ghost predicate DeletedOrSeen(states: States, steps: Steps, i: nat, node: string) {
    node !in states(i).nodes || NodeStepAt(steps, i, node)
  }

  /** The node controller looks for the machine and Consul does not know it. */
  ghost predicate LookedGone(steps: Steps, i: nat, node: string) {
    NodeStepAt(steps, i, node) && steps(i).seen == NoMachine
  }

  ghost predicate DeletedOrGone(states: States, steps: Steps, i: nat, node: string) {
    node !in states(i).nodes || LookedGone(steps, i, node)
  }

  ghost predicate PassLater(states: States, steps: Steps, i: nat, name: string) {
    exists j: nat :: i <= j && PassAt(states, steps, j, name)
  }

  ghost predicate NodeStepLater(states: States, steps: Steps, i: nat, node: string) {
    exists j: nat :: i <= j && DeletedOrSeen(states, steps, j, node)
  }

  ghost predicate MachineGoesLater(states: States, steps: Steps, i: nat, node: string) {
    exists j: nat :: i <= j && DeletedOrGone(states, steps, j, node)
  }

  /** Passes never stop, the node controller comes back to every node that stays, and
      every marked node that stays is looked for at some time without its machine. What
      Consul answers at other times, errors included, does not matter. */
  ghost predicate Fair(states: States, steps: Steps, name: string) {
    && (forall i: nat :: PassLater(states, steps, i, name))
    && (forall i: nat, node: string :: NodeStepLater(states, steps, i, node))
    && (forall i: nat, node: string | MarkedAt(states, i, node) :: MachineGoesLater(states, steps, i, node))
  }

  /** From `i` on the service has exactly the nodes 0..R-1. */
  ghost predicate ConvergedFrom(states: States, i: nat, service: string, r: nat) {
    forall j: nat | i <= j :: ServiceNames(states(j).nodes, service) == LowNames(service, r)
  }

  /* ---- what holds at every time ---- */

  lemma {:induction false} WellFormedAt(states: States, steps: Steps, i: nat)
    requires IsBehavior(states, steps)
    ensures WellFormed(states(i))
  {
    hide WellFormed, Next, Enabled;
    if i > 0 {
      WellFormedAt(states, steps, i - 1);
      StepKeepsWellFormed(states(i - 1), steps(i - 1));
      assert states(i - 1 + 1) == Next(states(i - 1), steps(i - 1));
    }
  }

  /* ---- marked nodes go ---- */

  lemma MarkStep(st: State, step: Step, node: string)
    requires WellFormed(st) && Enabled(st, step)
    requires node in st.nodes && st.nodes[node].deletionDate != "" && node in Next(st, step).nodes
    ensures Next(st, step).nodes[node].deletionDate == st.nodes[node].deletionDate
  {
    hide ModuleLogic.Pass, ReconcileModule, Observed, WellKeyed, ReconcileService, Deletable;
    if step.ModuleStep? && step.name in st.modules {
      var m, c := st.modules[step.name], step.choice;
      ModuleStepObjects(st, step.name, c);
      if ModuleLogic.Pass(st.nodes, m, c.victims, c.now).Done? {
        NodesKeyed(st);
        PassMarks(st.nodes, m, c.victims, c.now, node);
      }
    } else if !step.NodeStep? {
      OtherStepNodes(st, step);
    }
  }

  lemma PassMarks(nodes: Nodes, m: Module, victims: set<Node>, now: string, node: string)
    requires WellKeyed(nodes) && ModuleLogic.Pass(nodes, m, victims, now).Done?
    requires node in nodes && nodes[node].deletionDate != ""
    ensures var nodes' := ModuleLogic.Pass(nodes, m, victims, now).nodes;
      node in nodes' && nodes'[node].deletionDate == nodes[node].deletionDate
  {
    hide Grown, Generated, HostStem, SortWorks, NodeName;
    if HostStem(m).Some? {
      GrownExactly(nodes, m.service, HostStem(m).value, m.spec.replicas);
    }
  }

  /** The stored ID says that the machine is gone. */
  ghost predicate GoneAt(states: States, i: nat, node: string) {
    node in states(i).nodes && states(i).nodes[node].status.properties.id == GONE
  }

  /** A mark, and beside it what is known of the machine, last until the node is deleted. */
  lemma {:induction false} MarkedUntilDeleted(states: States, steps: Steps, i: nat, k: nat, node: string)
    returns (u: nat)
    requires IsBehavior(states, steps) && MarkedAt(states, i, node) && i <= k
    ensures i <= u <= k
    ensures node !in states(u).nodes || (u == k && MarkedAt(states, k, node))
    ensures node in states(u).nodes && GoneAt(states, i, node) ==> GoneAt(states, k, node)
  {
    hide IsBehavior, WellFormed, Next, Enabled;
    u := i;
    if i < k {
      u := MarkedUntilDeleted(states, steps, i, k - 1, node);
      if node in states(u).nodes {
        u := k;
        MarkedOneStep(states, steps, k - 1, node);
      }
    }
  }

  lemma MarkedOneStep(states: States, steps: Steps, i: nat, node: string)
    requires IsBehavior(states, steps) && MarkedAt(states, i, node)
    ensures node in states(i + 1).nodes ==> MarkedAt(states, i + 1, node)
    ensures node in states(i + 1).nodes && (GoneAt(states, i, node) || LookedGone(steps, i, node)) ==>
      GoneAt(states, i + 1, node) && !(GoneAt(states, i, node) && NodeStepAt(steps, i, node))
  {
    hide WellFormed, Next, Enabled;
    WellFormedAt(states, steps, i);
    assert Enabled(states(i), steps(i)) && states(i + 1) == Next(states(i), steps(i));
    if node in states(i + 1).nodes {
      MarkStep(states(i), steps(i), node);
      StatusStep(states(i), steps(i), node);
      if NodeStepAt(steps, i, node) {
        NodeStepLooks(states(i), node, steps(i).seen);
      }
    }
  }

  /** A look at a machine that is gone stores just that; a deletable node is deleted
      whatever Consul would say. */
  lemma NodeStepLooks(st: State, node: string, seen: Observation)
    ensures var st' := Next(st, NodeStep(node, seen));
      && (seen == NoMachine && node in st'.nodes ==> st'.nodes[node].status.properties.id == GONE)
      && (node in st.nodes && Deletable(st.nodes[node]) ==> node !in st'.nodes)
  {
  }

  /** In a fair behavior a marked node is eventually deleted. */
  lemma NodeGoes(states: States, steps: Steps, name: string, t: nat, node: string) returns (t': nat)
    requires IsBehavior(states, steps) && Fair(states, steps, name) && MarkedAt(states, t, node)
    ensures t <= t' && node !in states(t').nodes
  {
    hide IsBehavior, MarkedAt, GoneAt, LookedGone, NodeStepAt;
    assert MachineGoesLater(states, steps, t, node);
    var j: nat :| t <= j && DeletedOrGone(states, steps, j, node);
    t' := MarkedUntilDeleted(states, steps, t, j, node);
    if node in states(t').nodes && node in states(j + 1).nodes {
      MarkedOneStep(states, steps, j, node);
      assert NodeStepLater(states, steps, j + 1, node);
      var k: nat :| j + 1 <= k && DeletedOrSeen(states, steps, k, node);
      t' := MarkedUntilDeleted(states, steps, j + 1, k, node);
      if node in states(t').nodes && node in states(k + 1).nodes {
        MarkedOneStep(states, steps, k, node);
      } else if node in states(t').nodes {
        t' := k + 1;
      }
    } else if node in states(t').nodes {
      t' := j + 1;
    }
  }

  /* ---- the indices of the service over a behavior ---- */

  ghost function At(states: States, i: nat, service: string): Config {
    ConfigOf(states(i).nodes, service)
  }

  /** The node names are those of the controllers, with digit-free prefixes. */
  ghost predicate PlainAt(states: States, i: nat, service: string) {
    WellKeyed(states(i).nodes) && AllPlain(ServiceNodes(states(i).nodes, service))
  }

  lemma OneMove(states: States, steps: Steps, name: string, service: string, r: nat, i: nat)
    requires IsBehavior(states, steps) && TargetForever(states, name, service, r) && PlainAt(states, i, service)
    ensures PlainAt(states, i + 1, service) && Valid(At(states, i, service))
    ensures At(states, i + 1, service) == At(states, i, service)
      || exists move :: At(states, i + 1, service) == Moved(At(states, i, service), move, r)
    ensures PassAt(states, steps, i, name) ==> At(states, i + 1, service) == Moved(At(states, i, service), Move.Pass, r)
  {
    hide WellFormed, Next, Enabled, Target, ConfigOf, Moved, AllPlain, WellKeyed, ServiceNodes, ReconcileModule;
    WellFormedAt(states, steps, i);
    WellFormedAt(states, steps, i + 1);
    NodesKeyed(states(i + 1));
    assert Enabled(states(i), steps(i)) && states(i + 1) == Next(states(i), steps(i));
    StepMoves(states(i), steps(i), name, service, r);
    ConfigFacts(states(i).nodes, service);
    if PassAt(states, steps, i, name) {
      PassMoved(states(i), steps(i), name, service, r);
    }
  }

  lemma PassMoved(st: State, step: Step, name: string, service: string, r: nat)
    requires WellFormed(st) && Enabled(st, step)
    requires step.ModuleStep? && step.name == name && Validated(st, name, step.choice)
    requires name in st.modules && Target(st.modules[name], service, r) && AllPlain(ServiceNodes(st.nodes, service))
    ensures ConfigOf(Next(st, step).nodes, service) == Moved(ConfigOf(st.nodes, service), Move.Pass, r)
  {
    hide WellFormed, ConfigOf, Moved, AllPlain, ServiceNodes, ReconcileModule, HostStem, SortChoice, Lists;
    var c := step.choice;
    NodesKeyed(st);
    ValidatedPass(st, name, c);
    PassMoves(st.nodes, st.modules[name], c.victims, c.now);
  }

  /** What a move keeps, a behavior keeps. */
  lemma {:induction false} Along(states: States, steps: Steps, name: string, service: string, r: nat, i: nat, k: nat)
    requires IsBehavior(states, steps) && TargetForever(states, name, service, r) && PlainAt(states, i, service)
      && i <= k
    ensures PlainAt(states, k, service) && Valid(At(states, i, service)) && Valid(At(states, k, service))
    ensures Bad(At(states, k, service), r) <= Bad(At(states, i, service), r)
    ensures Recovers(At(states, i, service), r) ==> Recovers(At(states, k, service), r)
    ensures Secured(At(states, i, service), r) ==> Secured(At(states, k, service), r)
    ensures At(states, i, service) == Config(Low(r), {}) ==> At(states, k, service) == At(states, i, service)
  {
    hide IsBehavior, TargetForever, PlainAt, At, Recovers, Secured, Bad, Moved, Low, Valid;
    if i == k {
      OneMove(states, steps, name, service, r, i);
    } else {
      Along(states, steps, name, service, r, i, k - 1);
      OneMove(states, steps, name, service, r, k - 1);
      OneMove(states, steps, name, service, r, k);
      var c, c' := At(states, k - 1, service), At(states, k, service);
      if c' != c {
        var move :| c' == Moved(c, move, r);
        MoveShrinksBad(c, move, r);
        if Recovers(c, r) {
          MoveKeepsRecovers(c, move, r);
        }
        if Secured(c, r) {
          MoveKeepsSecured(c, move, r);
        }
        PassCompletes(Config(Low(r), {}), r) by { NothingBad(r); }
      }
    }
  }

  lemma NothingBad(r: nat)
    ensures Valid(Config(Low(r), {})) && Bad(Config(Low(r), {}), r) == {}
  {
  }

  /* ---- progress ---- */

  lemma NextPass(states: States, steps: Steps, name: string, i: nat) returns (p: nat)
    requires Fair(states, steps, name)
    ensures i <= p && PassAt(states, steps, p, name)
  {
    hide PassAt;
    assert PassLater(states, steps, i, name);
    p :| i <= p && PassAt(states, steps, p, name);
  }

  ghost predicate Progress(states: States, i: nat, k: nat, service: string, r: nat) {
    At(states, k, service).marked != {} || Bad(At(states, k, service), r) < Bad(At(states, i, service), r)
  }

  /** Two passes are enough to mark a node, unless something bad went before. */
  lemma SomethingMarked(states: States, steps: Steps, name: string, service: string, r: nat, t: nat) returns (t': nat)
    requires IsBehavior(states, steps) && TargetForever(states, name, service, r) && Fair(states, steps, name)
    requires PlainAt(states, t, service) && Recovers(At(states, t, service), r) && Bad(At(states, t, service), r) != {}
    ensures t <= t' && Progress(states, t, t', service, r)
  {
    hide IsBehavior, TargetForever, Fair, PassAt, PlainAt, At, Recovers, Secured, Bad, Moved, Low, Valid;
    var p := NextPass(states, steps, name, t);
    Along(states, steps, name, service, r, t, p);
    if Progress(states, t, p, service, r) {
      return p;
    }
    OneMove(states, steps, name, service, r, p);
    PassProgress(At(states, p, service), r);
    Along(states, steps, name, service, r, p, p + 1);
    if Progress(states, t, p + 1, service, r) {
      return p + 1;
    }
    var q := NextPass(states, steps, name, p + 1);
    Along(states, steps, name, service, r, p + 1, q);
    if Progress(states, t, q, service, r) {
      return q;
    }
    OneMove(states, steps, name, service, r, q);
    PassProgress(At(states, q, service), r);
    return q + 1;
  }

  /** Bad indices become fewer as long as there are any. */
  lemma BadShrinks(states: States, steps: Steps, name: string, service: string, r: nat, t: nat) returns (t': nat)
    requires IsBehavior(states, steps) && TargetForever(states, name, service, r) && Fair(states, steps, name)
    requires PlainAt(states, t, service) && Recovers(At(states, t, service), r) && Bad(At(states, t, service), r) != {}
    ensures t <= t' && Bad(At(states, t', service), r) < Bad(At(states, t, service), r)
  {
    hide IsBehavior, TargetForever, Fair, PassAt, Recovers, Moved, Low, ConfigOf, AllPlain, WellKeyed;
    var s := SomethingMarked(states, steps, name, service, r, t);
    Along(states, steps, name, service, r, t, s);
    if Bad(At(states, s, service), r) < Bad(At(states, t, service), r) {
      return s;
    }
    var i :| i in At(states, s, service).marked;
    var node := NodeName(service, i);
    InConfig(states(s).nodes, service, i);
    t' := NodeGoes(states, steps, name, s, node);
    Along(states, steps, name, service, r, s, t');
    InConfig(states(t').nodes, service, i) by { assert PlainAt(states, t', service); }
    NotIn(states(t').nodes, service, node);
    assert i in Bad(At(states, s, service), r) && i !in Bad(At(states, t', service), r);
  }

  lemma NotIn(nodes: Nodes, service: string, node: string)
    requires node !in nodes
    ensures node !in ServiceNames(nodes, service)
  {
  }

  lemma {:induction false} BadGoes(states: States, steps: Steps, name: string, service: string, r: nat, t: nat)
    returns (t': nat)
    requires IsBehavior(states, steps) && TargetForever(states, name, service, r) && Fair(states, steps, name)
    requires PlainAt(states, t, service) && Recovers(At(states, t, service), r)
    ensures t <= t' && PlainAt(states, t', service) && Bad(At(states, t', service), r) == {}
    decreases Bad(At(states, t, service), r)
  {
    hide IsBehavior, TargetForever, Fair, PlainAt, At, Recovers, Bad;
    t' := t;
    if Bad(At(states, t, service), r) != {} {
      var s := BadShrinks(states, steps, name, service, r, t);
      Along(states, steps, name, service, r, t, s);
      t' := BadGoes(states, steps, name, service, r, s);
    }
  }

  /** Under fair scheduling every behavior that starts from a node set that recovers, with
      marks anywhere, ends with exactly the nodes 0..R-1, for good. */
  lemma Converges(states: States, steps: Steps, name: string, service: string, r: nat)
    requires IsBehavior(states, steps) && TargetForever(states, name, service, r) && Fair(states, steps, name)
    requires AllPlain(ServiceNodes(states(0).nodes, service)) && Recovers(ConfigOf(states(0).nodes, service), r)
    ensures exists t: nat :: ConvergedFrom(states, t, service, r)
  {
    hide IsBehavior, TargetForever, Fair, PassAt, Recovers, Moved, Low, ConfigOf, AllPlain, WellFormed, WellKeyed, Bad,
      ServiceNames, LowNames;
    WellFormedAt(states, steps, 0);
    NodesKeyed(states(0));
    assert PlainAt(states, 0, service);
    var s := BadGoes(states, steps, name, service, r, 0);
    var p := NextPass(states, steps, name, s);
    Along(states, steps, name, service, r, s, p);
    PassCompletes(At(states, p, service), r);
    OneMove(states, steps, name, service, r, p);
    forall j: nat | p + 1 <= j ensures ServiceNames(states(j).nodes, service) == LowNames(service, r) {
      Along(states, steps, name, service, r, p + 1, j);
      assert PlainAt(states, j, service);
      NamesByIndices(states(j).nodes, service, r);
    }
    assert ConvergedFrom(states, p + 1, service, r);
  }

  /** The premise of the finite runs is one of the cases. */
  lemma ReadyRecovers(nodes: Nodes, service: string, r: nat)
    requires WellKeyed(nodes) && Ready(nodes, service, r)
    ensures Recovers(ConfigOf(nodes, service), r)
  {
    hide NodeName, Index, Generated, Plain, Exposed, Low, ConfigOf, AllPlain;
    var c := ConfigOf(nodes, service);
    ConfigFacts(nodes, service);
    SubsetSize(Unmarked(c), c.all);
    forall i | i in Low(r)
      ensures i !in c.marked && (LowNames(service, r) <= ServiceNames(nodes, service) ==> i in c.all)
    {
      InConfig(nodes, service, i);
      assert NodeName(service, i) in LowNames(service, r);
    }
  }
}

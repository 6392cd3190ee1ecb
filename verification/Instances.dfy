/** States of the protocol in which the conditions of the theorems meet the failing case. */
module Instances {
  import opened Wrappers
  import opened Model
  import opened NodeUtils
  import opened NodeSet
  import opened ModuleLogic
  import opened Protocol
  import opened Jobs
  import opened Schedules
  import opened Replacements
  import opened Recovery
  import opened Refinement
  import opened FairRuns
  import opened Reachability
  import opened Necessity
  import opened Tied
  import opened Decimal

  const OLD_MACHINE := NodeStatus(NodeProperties("machine", "web-2", "", "", "small", "web-v1"), [])

  const NEW_SPEC := ModuleSpec("web", "web-v2", 2, "small", [])

  /** Left from a larger service: one node, of index 2, on the version before. */
  function LeftOver(): Node {
    NewNode("s", "web", 2).(status := OLD_MACHINE)
  }

  /** The user asks for two replicas of the next version; the stored job is for `action`. */
  function ScaledUp(action: Action): State {
    var m := Module(ModuleName("s"), "s", "web", NEW_SPEC, NO_MODULE_STATUS);
    State(map[], map[m.name := m], map[JobName(m) := NewJob(NEW_SPEC, action, 0)],
      map[LeftOver().name := LeftOver()], {}, 1)
  }

  lemma LeftOverFacts()
    ensures Generated(LeftOver()) && LeftOver().service == "s" && LeftOver().name !in LowNames("s", 2)
    ensures Works(LeftOver()) && OffTarget(LeftOver(), NEW_SPEC)
    ensures LeftOver().status.properties.node != ""
  {
    hide LowNames, NodeName, Index, Generated;
    StatusKeepsGenerated(NewNode("s", "web", 2), OLD_MACHINE);
    LowNameIff(LeftOver(), 2);
    assert "web-v1"[5] != "web-v2"[5];
    assert |"machine"| != |GONE|;
  }

  lemma OneNode(nodes: Nodes, n: Node)
    requires nodes == map[n.name := n]
    ensures ServiceNodes(nodes, n.service) == {n} && ServiceNames(nodes, n.service) == {n.name}
  {
    assert nodes[n.name] == n;
  }

  lemma LeftOverGrowsPast()
    ensures var nodes := ScaledUp(Deploy).nodes;
      && ServiceNodes(nodes, "s") == {LeftOver()} && GrowsPast(nodes, "s", 2)
  {
    hide LowNames, NodeName, Index, Generated, Works, OffTarget;
    var n := LeftOver();
    LeftOverFacts();
    OneNode(ScaledUp(Deploy).nodes, n);
    assert CountedOf({n}) == {n} by { assert |"machine"| != |GONE|; }
    LowNamesCardinality("s", 2);
    assert LowNames("s", 2) - {n.name} == LowNames("s", 2);
  }

  lemma LeftOverChooses()
    ensures UpgradeNeeded(NEW_SPEC, {LeftOver()}) && HealthyNamed({LeftOver()}) && SomeNamed({LeftOver()})
  {
    hide LowNames, NodeName, Index, Generated, Works, OffTarget;
    var n := LeftOver();
    LeftOverFacts();
    assert CountedOf({n}) == {n} by { assert |"machine"| != |GONE|; }
    assert HealthyOf({n}) == {n};
    assert n in HealthyOf({n});
  }

  lemma ScaledUpFlips(action: Action)
    ensures var st, name := ScaledUp(action), ModuleName("s");
      && WellFormed(st) && Flipping(st, name, NEW_SPEC) && JobIs(st, name, action) && JobIdle(st, name)
      && HealthyNamed(NodesOf(st, name)) && UpgradeNeeded(NEW_SPEC, NodesOf(st, name))
  {
    hide LowNames, NodeName, Index, Generated, GrowsPast, UpgradeNeeded, HealthyNamed, SomeNamed, JobEnv, Command,
      LeftOver;
    LeftOverFacts();
    LeftOverGrowsPast();
    LeftOverChooses();
  }

  /** A node pass turns an upgrade into a deploy, and the upgrade job that it has just
      validated is replaced by the next reconcile. */
  lemma PassTurnsUpgradeIntoDeploy() returns (st: State, name: string, c: Choice)
    ensures WellFormed(st) && name in st.modules && ValidChoice(st, name, c) && Validated(st, name, c)
    ensures HealthyNamed(NodesOf(st, name))
    ensures var spec, st' := st.modules[name].spec, ReconcileModule(st, name, c).0;
      && ActionRule(spec, NodesOf(st, name)) == Upgrade
      && name in st'.modules && ActionRule(spec, NodesOf(st', name)) == Deploy
      && forall d | ValidChoice(st', name, d) :: ReconcileModule(st', name, d).1 == JobReplaced
  {
    hide WellFormed, ReconcileModule, OrderFree, UpgradeNeeded, GrowsPast, HealthyNamed, SomeNamed, JobMatches,
      JobIdle, ActionOf, Lists, SortChoice, Chosen, LeftOver;
    st, name := ScaledUp(Upgrade), ModuleName("s");
    ScaledUpFlips(Upgrade);
    c := FlipStep(st, name, NEW_SPEC);
    FlippingActs(st, name, NEW_SPEC);
    var st' := ReconcileModule(st, name, c).0;
    NamedByKey(st', name);
    OnlyOneMatches(st'.jobs[name + "-job"], NEW_SPEC, Upgrade);
    forall d | ValidChoice(st', name, d) ensures ReconcileModule(st', name, d).1 == JobReplaced {
      ChosenAction(st', ModuleStep(name, d), name, NEW_SPEC, Deploy);
      ReplaceStep(st', name, d);
    }
  }

  /** A quiet run that replaces the job twice although every healthy node has a name. */
  lemma SecondReplacementHappens() returns (states: seq<State>, steps: seq<Step>, name: string)
    ensures QuietRun(states, steps, name, NEW_SPEC) && HealthyNamed(NodesOf(states[0], name))
    ensures CanReplaceTwice(states[0], name) && ReplacesTwice(states, steps, name)
  {
    hide WellFormed, UpgradeNeeded, GrowsPast, HealthyNamed, SomeNamed, JobMatches, Flipping, Next, Enabled, QuietStep,
      Replaces;
    var st := ScaledUp(Deploy);
    name := ModuleName("s");
    ScaledUpFlips(Deploy);
    OnlyOneMatches(st.jobs[name + "-job"], NEW_SPEC, Deploy);
    states, steps := FlippingReplacesTwice(st, name);
  }

  /* ---- every set of indices is that of a state ---- */

  function NodesFor(app: string, all: set<nat>, marked: set<nat>, n: nat): Nodes {
    var g := Grown(map[], "s", app, n);
    map k | k in g && Index(k) in all :: g[k].(deletionDate := if Index(k) in marked then "then" else "")
  }

  function ModuleFor(app: string, r: nat): Module {
    Module(ModuleName("s"), "s", app, NEW_SPEC.(replicas := r), NO_MODULE_STATUS)
  }

  function StateFor(app: string, all: set<nat>, marked: set<nat>, n: nat, r: nat): State {
    var m := ModuleFor(app, r);
    State(map[], map[m.name := m], map[], NodesFor(app, all, marked, n), {}, 0)
  }

  lemma NodeFor(app: string, all: set<nat>, marked: set<nat>, n: nat, k: string)
    requires n <= MAX_INT
    ensures k in NodesFor(app, all, marked, n) <==> k in LowNames("s", n) && Index(k) in all
    ensures k in NodesFor(app, all, marked, n) ==>
      var node := NodesFor(app, all, marked, n)[k];
      && node.name == k && node.service == "s" && (node.deletionDate != "" <==> Index(k) in marked)
      && Generated(node) && Prefix(node) == app + "-" && (DigitFree(app) ==> Plain(node))
  {
    hide NodeName, Index, Grown, Generated, Plain, Print, Prefix;
    GrownExactly(map[], "s", app, n);
    if k in LowNames("s", n) {
      var i :| 0 <= i < n && k == NodeName("s", i);
      IndexOfNodeName("s", i);
      var node := NewNode("s", app, i);
      var marking := node.(deletionDate := if i in marked then "then" else "");
      PlainSurvives(node, marking);
      NewNodeTied("s", app, i);
      TiedSurvives(node, marking, app + "-");
    }
  }

  ghost predicate Fits(c: Config, n: nat) {
    Valid(c) && c.all <= Low(n)
  }

  lemma NodesForConfig(app: string, c: Config, n: nat)
    requires Fits(c, n) && n <= MAX_INT
    ensures var nodes := NodesFor(app, c.all, c.marked, n);
      && WellKeyed(nodes) && ConfigOf(nodes, "s") == c
      && AllTied(ServiceNodes(nodes, "s"), app + "-") && (DigitFree(app) ==> AllPlain(ServiceNodes(nodes, "s")))
  {
    hide LowNames, NodeName, Index, Generated, Plain, NodesFor, ConfigOf, Prefix;
    var nodes := NodesFor(app, c.all, c.marked, n);
    forall k | k in nodes
      ensures nodes[k].name == k && nodes[k].service == "s" && Generated(nodes[k])
        && Prefix(nodes[k]) == app + "-" && (DigitFree(app) ==> Plain(nodes[k]))
    {
      NodeFor(app, c.all, c.marked, n, k);
    }
    forall i: nat ensures (i in ConfigOf(nodes, "s").all <==> i in c.all)
      && (i in ConfigOf(nodes, "s").marked <==> i in c.marked)
    {
      InConfig(nodes, "s", i);
      NodeFor(app, c.all, c.marked, n, NodeName("s", i));
      IndexOfNodeName("s", i);
      LowNameIff(NewNode("s", app, i), n);
    }
  }

  lemma StateForServes(app: string, c: Config, n: nat, r: nat)
    requires Fits(c, n) && n <= MAX_INT
    requires app != "" && app != "kubernetes-cluster" && app != "kubernetes-nodepool"
    ensures var st, m := StateFor(app, c.all, c.marked, n, r), ModuleFor(app, r);
      && Serves(st, m.name, m) && HostStem(m) == Some(app) && ConfigOf(st.nodes, "s") == c
      && AllTied(ServiceNodes(st.nodes, "s"), app + "-")
      && (DigitFree(app) && r <= MAX_INT ==> Ok(st, m.name, m))
  {
    hide NodesFor, ConfigOf, AllTied, AllPlain, WellKeyed, ServiceNodes, Fits;
    NodesForConfig(app, c, n);
  }

  lemma GapIsLost()
    ensures !Recovers(Config({0, 1, 3, 4}, {}), 4) && Fits(Config({0, 1, 3, 4}, {}), 5)
  {
    var c := Config({0, 1, 3, 4}, {});
    assert 2 in Low(4) && 2 !in c.all;
    assert Unmarked(c) == c.all && |c.all| == 4;
    assert 4 in Unmarked(c) && 4 !in Low(4);
  }

  lemma MarkedLowIsLost()
    ensures !Recovers(Config({0, 7}, {0}), 3) && Fits(Config({0, 7}, {0}), 8)
  {
    var c := Config({0, 7}, {0});
    assert Unmarked(c) == {7} && |Unmarked(c)| == 1;
    assert 0 in c.marked && 0 in Low(3) && 7 !in Low(3);
  }

  lemma MarkedLowRecovers()
    ensures Recovers(Config({0, 7, 8}, {0}), 3) && Fits(Config({0, 7, 8}, {0}), 9)
  {
    var c := Config({0, 7, 8}, {0});
    assert Unmarked(c) == {7, 8} && |Unmarked(c)| == 2;
  }

  /** The indices 0, 1, 3, 4 with R = 4: a fair behavior that never gets the node of index
      2, as no other does from an unmarked node set with such a gap. */
  lemma GapNeverFilled() returns (states: States, steps: Steps)
    ensures IsBehavior(states, steps) && TargetForever(states, ModuleName("s"), "s", 4)
    ensures Fair(states, steps, ModuleName("s"))
    ensures At(states, 0, "s") == Config({0, 1, 3, 4}, {}) && forall t: nat :: !ConvergedFrom(states, t, "s", 4)
  {
    hide Ok, Serves, IsBehavior, TargetForever, Fair, ConfigOf, StateFor, Recovers, AllTied, Fits;
    var c := Config({0, 1, 3, 4}, {});
    GapIsLost();
    StateForServes("web", c, 5, 4);
    states, steps := LostBehavior(StateFor("web", c.all, c.marked, 5, 4), ModuleName("s"), ModuleFor("web", 4));
  }

  /** A marked index 0 beside an unmarked 7, with R = 3: whether 0, 1, 2 are reached
      depends on the order of the steps. */
  lemma MarkedLowCanBeLost() returns (states: States, steps: Steps)
    ensures IsBehavior(states, steps) && TargetForever(states, ModuleName("s"), "s", 3)
    ensures Fair(states, steps, ModuleName("s"))
    ensures At(states, 0, "s") == Config({0, 7}, {0}) && forall t: nat :: !ConvergedFrom(states, t, "s", 3)
  {
    hide Ok, Serves, IsBehavior, TargetForever, Fair, ConfigOf, StateFor, Recovers, AllTied, Fits;
    var c := Config({0, 7}, {0});
    MarkedLowIsLost();
    StateForServes("web", c, 8, 3);
    states, steps := LostBehavior(StateFor("web", c.all, c.marked, 8, 3), ModuleName("s"), ModuleFor("web", 3));
  }

  /** With 7 and 8 beside it the marked index 0 does no harm, and there are fair behaviors. */
  lemma MarkedLowCanRecover() returns (states: States, steps: Steps)
    ensures IsBehavior(states, steps) && TargetForever(states, ModuleName("s"), "s", 3)
    ensures Fair(states, steps, ModuleName("s"))
    ensures At(states, 0, "s") == Config({0, 7, 8}, {0}) && exists t: nat :: ConvergedFrom(states, t, "s", 3)
  {
    hide Ok, Serves, IsBehavior, TargetForever, Fair, ConfigOf, StateFor, ConvergedFrom, Recovers, AllTied, Fits;
    var c := Config({0, 7, 8}, {0});
    MarkedLowRecovers();
    StateForServes("web", c, 9, 3);
    var st, m := StateFor("web", c.all, c.marked, 9, 3), ModuleFor("web", 3);
    states, steps := FairBehaviorFrom(st, m.name, m);
    ConvergesFromMarksIff(st, m.name, m);
  }

  lemma NumberedApp()
    ensures Numbered("k3s-") && HostnameKey("k3s-") == Key(3)
  {
    assert LeadingDigits("s-") == [];
    assert "3s-"[1..] == "s-";
    assert LeadingDigits("3s-") == "3";
    assert "k3s-"[1..] == "3s-";
    assert FirstDigitRun("k3s-") == LeadingDigits("3s-");
    assert Value([]) == 0 && "3"[..0] == [];
    assert Value("3") == 3;
    assert IsDigit("k3s-"[1]);
  }

  /** The application "k3s", scaled from 3 to 2: a fair behavior that never gets back to
      the nodes 0 and 1, which without the 3 in the name every fair behavior does. */
  lemma NumberedScaleDownCanBeLost() returns (states: States, steps: Steps)
    ensures IsBehavior(states, steps) && TiedForever(states, ModuleName("s"), "s", 2, "k3s-")
    ensures Fair(states, steps, ModuleName("s"))
    ensures At(states, 0, "s") == Config({0, 1, 2}, {}) && forall t: nat :: !ConvergedFrom(states, t, "s", 2)
    ensures Recovers(Config({0, 1, 2}, {}), 2)
  {
    hide Ok, Serves, IsBehavior, TiedForever, Fair, ConfigOf, StateFor, AllTied, Numbered;
    var c, m := Config({0, 1, 2}, {}), ModuleFor("k3s", 2);
    assert 2 in Recovery.Unmarked(c) && Low(2) <= c.all;
    NumberedApp();
    assert "k3s" + "-" == "k3s-";
    StateForServes("k3s", c, 3, 2);
    assert Wants(m);
    states, steps := TiedLost(StateFor("k3s", c.all, c.marked, 3, 2), m.name, m, "k3s-", 2);
  }
}

/** The condition for convergence is exact: from every state there are fair behaviors, and
    from a node set that does not recover one of them ends at a gap. */
module Necessity {
  import opened Model
  import opened NodeSet
  import opened ModuleLogic
  import opened Protocol
  import opened Convergence
  import opened Recovery
  import opened Refinement
  import opened FairRuns
  import opened Reachability

  ghost predicate Ok(st: State, name: string, m: Module) {
    Serves(st, name, m) && Target(m, m.service, m.spec.replicas) && AllPlain(ServiceNodes(st.nodes, m.service))
  }

  ghost function Cfg(st: State, m: Module): Config {
    ConfigOf(st.nodes, m.service)
  }

  lemma OkConfig(st: State, name: string, m: Module)
    requires Ok(st, name, m)
    ensures Valid(Cfg(st, m)) && |ServiceNodes(st.nodes, m.service)| == |Cfg(st, m).all|
    ensures WellKeyed(st.nodes)
  {
    hide WellFormed, Target, AllPlain, ConfigOf, WellKeyed;
    NodesKeyed(st);
    ConfigFacts(st.nodes, m.service);
  }

  /* ---- passes and deletions on the indices ---- */

  lemma ReachMove(st: State, name: string, m: Module) returns (st': State)
    requires Ok(st, name, m)
    ensures Reaches(st, st', name, m) && Ok(st', name, m)
    ensures Cfg(st', m) == Moved(Cfg(st, m), Move.Pass, m.spec.replicas)
  {
    hide WellFormed, AllPlain, Reaches, SortChoice, ConfigOf, Moved, Wants, HostStem, ModuleLogic.Pass;
    OkConfig(st, name, m);
    var victims := SomeChoice(st.nodes, m);
    PassMoves(st.nodes, m, victims, NOW);
    st' := ReachPass(st, name, m, victims);
  }

  lemma PlainWithout(nodes: Nodes, gone: set<string>, service: string)
    requires AllPlain(ServiceNodes(nodes, service))
    ensures AllPlain(ServiceNodes(nodes - gone, service))
  {
    hide Plain;
    assert ServiceNodes(nodes - gone, service) <= ServiceNodes(nodes, service);
  }

  ghost function NamesFor(service: string, gone: set<nat>): set<string> {
    set i | i in gone :: NodeName(service, i)
  }

  /** Any of the marked indices can be deleted. */
  lemma ReachWithout(st: State, gone: set<nat>, name: string, m: Module) returns (st': State)
    requires Ok(st, name, m) && gone <= Cfg(st, m).marked
    ensures Reaches(st, st', name, m) && Ok(st', name, m)
    ensures Cfg(st', m) == Config(Cfg(st, m).all - gone, Cfg(st, m).marked - gone)
  {
    hide WellFormed, Target, AllPlain, Reaches, ConfigOf, WellKeyed, NodeName, Wants;
    OkConfig(st, name, m);
    var names := NamesFor(m.service, gone);
    forall k | k in names ensures k in AllMarked(st.nodes) {
      var i :| i in gone && k == NodeName(m.service, i);
      InConfig(st.nodes, m.service, i);
    }
    st' := ReachDeletes(st, names, name, m);
    PlainWithout(st.nodes, names, m.service);
    OkConfig(st', name, m);
    forall i: nat ensures (i in Cfg(st', m).all <==> i in Cfg(st, m).all - gone)
      && (i in Cfg(st', m).marked <==> i in Cfg(st, m).marked - gone)
    {
      InConfig(st.nodes, m.service, i);
      InConfig(st'.nodes, m.service, i);
      InNames(m.service, gone, i);
    }
  }

  lemma InNames(service: string, gone: set<nat>, i: nat)
    ensures NodeName(service, i) in NamesFor(service, gone) <==> i in gone
  {
    hide NodeName;
    if NodeName(service, i) in NamesFor(service, gone) {
      var j :| j in gone && NodeName(service, i) == NodeName(service, j);
      NodeNameInjective(service, i, service, j);
    }
  }

  /* ---- how the rest is lost ---- */

  /** From R or more unmarked indices: a pass and deletions leave R of them. */
  lemma ReachSettled(st: State, name: string, m: Module) returns (st': State)
    requires Ok(st, name, m) && Cfg(st, m).marked == {} && |Cfg(st, m).all| >= m.spec.replicas
    ensures Reaches(st, st', name, m) && Ok(st', name, m)
    ensures Cfg(st', m).marked == {} && |Cfg(st', m).all| == m.spec.replicas && Cfg(st', m).all <= Cfg(st, m).all
  {
    hide Ok, Reaches, Cfg, Top;
    var all, r := Cfg(st, m).all, m.spec.replicas;
    var st1 := ReachMove(st, name, m);
    st' := ReachWithout(st1, Cfg(st1, m).marked, name, m);
    ReachesOn(st, st1, st', name, m);
    TopSize(all, r);
    assert Top(all, r) <= all by { TopInside(all, r); }
    assert |all - Top(all, r)| == r by { assert (all - Top(all, r)) + Top(all, r) == all; }
  }

  lemma TopInside(all: set<nat>, r: nat)
    ensures Top(all, r) <= all
  {
  }

  /** From there a fair behavior keeps R of these indices for good. */
  lemma SettledForGood(st: State, st0: State, name: string, m: Module) returns (states: States, steps: Steps, n: nat)
    requires Reaches(st, st0, name, m) && Ok(st0, name, m)
    requires Cfg(st0, m).marked == {} && |Cfg(st0, m).all| >= m.spec.replicas
    ensures IsBehavior(states, steps) && Fair(states, steps, name) && states(0) == st
    ensures TargetForever(states, name, m.service, m.spec.replicas)
    ensures forall i: nat | n <= i :: WellFormed(states(i)) && Cfg(states(i), m).all <= Cfg(st0, m).all
  {
    hide Ok, Reaches, Cfg, IsBehavior, Fair, WellFormed, Serves, SameNodes;
    var st1 := ReachSettled(st0, name, m);
    ReachesOn(st, st0, st1, name, m);
    OkServes(st1, name, m);
    OkConfig(st1, name, m);
    OwnUnmarked(st1.nodes, m.service) by { assert ConfigOf(st1.nodes, m.service) == Cfg(st1, m) by { CfgIs(st1, m); } }
    states, steps, n := EndAtRest(st, st1, name, m);
    forall i: nat ensures name in states(i).modules && Target(states(i).modules[name], m.service, m.spec.replicas)
      && WellFormed(states(i))
    {
      ServesTarget(states(i), name, m);
    }
    forall i: nat | n <= i ensures Cfg(states(i), m) == Cfg(st1, m) {
      NodesKeyed(states(i));
      SameCfg(st1, states(i), m);
    }
  }

  lemma CfgIs(st: State, m: Module)
    ensures Cfg(st, m) == ConfigOf(st.nodes, m.service)
  {
  }

  lemma OkServes(st: State, name: string, m: Module)
    requires Ok(st, name, m)
    ensures Serves(st, name, m) && Target(m, m.service, m.spec.replicas)
  {
    hide Serves, Target, AllPlain;
  }

  lemma ServesTarget(st: State, name: string, m: Module)
    requires Serves(st, name, m) && Target(m, m.service, m.spec.replicas)
    ensures WellFormed(st) && name in st.modules && Target(st.modules[name], m.service, m.spec.replicas)
  {
    hide WellFormed;
    StatusAside(m, st.modules[name], map[], {}, NOW);
  }

  lemma SameCfg(a: State, b: State, m: Module)
    requires WellKeyed(a.nodes) && WellKeyed(b.nodes) && SameNodes(a.nodes, b.nodes, m.service)
    ensures Cfg(b, m) == Cfg(a, m)
  {
    hide WellKeyed, ConfigOf, ServiceNodes, ServiceNames;
    SameConfig(a.nodes, b.nodes, m.service);
  }

  lemma OwnUnmarked(nodes: Nodes, service: string)
    requires ConfigOf(nodes, service).marked == {}
    ensures forall k | k in nodes && nodes[k].service == service :: nodes[k].deletionDate == ""
  {
    hide Index;
    assert forall k | k in MarkedNames(nodes, service) :: Index(k) in ConfigOf(nodes, service).marked;
    assert forall k | k in nodes && nodes[k].service == service :: k !in MarkedNames(nodes, service);
  }

  /** From a node set that does not recover, growing, marking and deleting in an unlucky
      order lead to R or more unmarked nodes with a gap below R. */
  lemma ReachLost(st: State, name: string, m: Module) returns (st': State)
    requires Ok(st, name, m) && !Recovers(Cfg(st, m), m.spec.replicas)
    ensures Reaches(st, st', name, m) && Ok(st', name, m) && Lost(Cfg(st', m), m.spec.replicas)
  {
    hide Ok, Reaches, Cfg, Recovers, Moved, Lost, Low;
    var c, r := Cfg(st, m), m.spec.replicas;
    OkConfig(st, name, m);
    if c.marked !! Low(r) || |Unmarked(c)| >= r {
      LostByDeleting(c, r);
      st' := ReachWithout(st, c.marked, name, m);
      assert c.marked - c.marked == {};
    } else if |Unmarked(c)| + 1 < r {
      var x, y := LowMarked(c, r);
      st' := ReachByGrowing(st, name, m, x, y);
    } else {
      st' := ReachByMarking(st, name, m);
    }
  }

  lemma ReachByMarking(st: State, name: string, m: Module) returns (st': State)
    requires Ok(st, name, m) && !Recovers(Cfg(st, m), m.spec.replicas)
    requires |Unmarked(Cfg(st, m))| + 1 == m.spec.replicas
    ensures Reaches(st, st', name, m) && Ok(st', name, m) && Lost(Cfg(st', m), m.spec.replicas)
  {
    hide Ok, Reaches, Cfg, Recovers, Moved, Lost, Low, Unmarked;
    var c, r := Cfg(st, m), m.spec.replicas;
    OkConfig(st, name, m);
    var x, w, y := ExposedMarks(c, r);
    OneMoreMarked(c, r, x, w, y);
    var st1 := ReachWithout(st, c.marked - {x, w}, name, m);
    AllBut(c, {x, w});
    var st2 := ReachMove(st1, name, m);
    var z :| z in Unmarked(Cfg(st2, m)) && r <= z;
    st' := ReachByGrowing(st2, name, m, x, z);
    ReachesOn(st, st1, st2, name, m);
    ReachesOn(st, st2, st', name, m);
  }

  lemma AllBut(c: Config, left: set<nat>)
    requires Valid(c) && left <= c.marked
    ensures c.all - (c.marked - left) == Unmarked(c) + left && c.marked - (c.marked - left) == left
  {
  }

  lemma ReachByGrowing(st: State, name: string, m: Module, x: nat, y: nat) returns (st': State)
    requires Ok(st, name, m)
    requires var c, r := Cfg(st, m), m.spec.replicas;
      |Unmarked(c)| + 1 < r && x in c.marked && x < r && y in Unmarked(c) && r <= y
    ensures Reaches(st, st', name, m) && Ok(st', name, m) && Lost(Cfg(st', m), m.spec.replicas)
  {
    hide Ok, Reaches, Cfg, Moved, Lost;
    var c := Cfg(st, m);
    OkConfig(st, name, m);
    LostByGrowing(c, m.spec.replicas, x, y);
    var st1 := ReachWithout(st, c.marked - {x}, name, m);
    AllBut(c, {x});
    var st2 := ReachMove(st1, name, m);
    st' := ReachWithout(st2, {x}, name, m);
    assert {x} - {x} == {};
    ReachesOn(st, st1, st2, name, m);
    ReachesOn(st, st2, st', name, m);
  }

  /* ---- the theorem ---- */

  /** There is a fair behavior from every state. */
  lemma FairBehaviorFrom(st: State, name: string, m: Module) returns (states: States, steps: Steps)
    requires Ok(st, name, m)
    ensures IsBehavior(states, steps) && Fair(states, steps, name) && states(0) == st
    ensures TargetForever(states, name, m.service, m.spec.replicas)
  {
    hide Ok, Reaches, Cfg, IsBehavior, TargetForever, Fair;
    var r := m.spec.replicas;
    var st1 := ReachWithout(st, Cfg(st, m).marked, name, m);
    var st2 := st1;
    if |Cfg(st1, m).all| < r {
      st2 := ReachMove(st1, name, m);
      GrowsEnough(Cfg(st1, m), r);
      ReachesOn(st, st1, st2, name, m);
    }
    var n;
    states, steps, n := SettledForGood(st, st2, name, m);
  }

  lemma GrowsEnough(c: Config, r: nat)
    requires |c.all| < r
    ensures |Moved(c, Move.Pass, r).all| >= r
  {
    Sets.SubsetSize(Low(r), c.all + Low(r));
  }

  /** Every fair behavior from this state ends with exactly the nodes 0..R-1. */
  ghost predicate AlwaysConverges(st: State, name: string, m: Module) {
    forall states: States, steps: Steps |
      states(0) == st && IsBehavior(states, steps) && Fair(states, steps, name)
      && TargetForever(states, name, m.service, m.spec.replicas) ::
      exists t: nat :: ConvergedFrom(states, t, m.service, m.spec.replicas)
  }

  /** With R fixed, and marks anywhere: all fair behaviors of all controllers converge if
      and only if the node set recovers. */
  lemma ConvergesFromMarksIff(st: State, name: string, m: Module)
    requires Ok(st, name, m)
    ensures AlwaysConverges(st, name, m) <==> Recovers(ConfigOf(st.nodes, m.service), m.spec.replicas)
  {
    hide Reaches, ConfigOf, IsBehavior, TargetForever, Fair, Recovers, Lost, WellFormed, Target, AllPlain,
      ConvergedFrom, Serves;
    if Recovers(ConfigOf(st.nodes, m.service), m.spec.replicas) {
      forall states: States, steps: Steps | states(0) == st && IsBehavior(states, steps) && Fair(states, steps, name)
        && TargetForever(states, name, m.service, m.spec.replicas)
        ensures exists t: nat :: ConvergedFrom(states, t, m.service, m.spec.replicas)
      {
        Converges(states, steps, name, m.service, m.spec.replicas);
      }
    } else {
      var states, steps := LostBehavior(st, name, m);
    }
  }

  /** An unlucky one. */
  lemma LostBehavior(st: State, name: string, m: Module) returns (states: States, steps: Steps)
    requires Ok(st, name, m) && !Recovers(ConfigOf(st.nodes, m.service), m.spec.replicas)
    ensures IsBehavior(states, steps) && Fair(states, steps, name) && states(0) == st
    ensures TargetForever(states, name, m.service, m.spec.replicas)
    ensures forall t: nat :: !ConvergedFrom(states, t, m.service, m.spec.replicas)
  {
    hide Ok, Reaches, ConfigOf, IsBehavior, TargetForever, Fair, Recovers, WellFormed, ServiceNames, LowNames, Low;
    var st1 := ReachLost(st, name, m);
    var n;
    states, steps, n := SettledForGood(st, st1, name, m);
    forall t: nat ensures !ConvergedFrom(states, t, m.service, m.spec.replicas) {
      var j := if t < n then n else t;
      NodesKeyed(states(j));
      NamesByIndices(states(j).nodes, m.service, m.spec.replicas);
      assert Cfg(states(j), m).all != Low(m.spec.replicas);
      assert ServiceNames(states(j).nodes, m.service) != LowNames(m.service, m.spec.replicas);
    }
  }
}

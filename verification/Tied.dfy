/** The node set of a service whose hostname prefix has a number in it: all sort keys are
    equal, and a pass may mark any surplus. */
module Tied {
  import opened Sets
  import opened Decimal
  import opened Model
  import opened NodeUtils
  import opened NodeSet
  import opened ModuleLogic
  import opened Protocol
  import opened Jobs
  import opened Convergence
  import opened Recovery
  import opened Refinement
  import opened FairRuns
  import opened Reachability

  /** A number that fits in an int comes before the index. */
  predicate Numbered(prefix: string) {
    prefix != [] && !IsDigit(prefix[|prefix| - 1]) && !DigitFree(prefix) && HostnameKey(prefix).Key?
  }

  ghost predicate AllTied(all: set<Node>, prefix: string) {
    forall n | n in all :: Generated(n) && Prefix(n) == prefix
  }

  predicate TiedTarget(m: Module, service: string, r: nat, prefix: string) {
    && m.service == service && m.spec.replicas == r && Wants(m)
    && HostStem(m).value + "-" == prefix && Numbered(prefix)
  }

  ghost predicate TiedForever(states: States, name: string, service: string, r: nat, prefix: string) {
    forall i: nat :: name in states(i).modules && TiedTarget(states(i).modules[name], service, r, prefix)
  }

  /* ---- one step ---- */

  /** A pass: the marked indices are any of the right number. */
  ghost predicate TiedPass(c: Config, c': Config, r: nat) {
    || (|c.all| == r && c' == c)
    || (|c.all| < r && c' == Config(c.all + Low(r), c.marked))
    || (|c.all| > r && exists v :: v <= c.all && |v| + r == |c.all| && c' == Config(c.all, c.marked + v))
  }

  ghost predicate TiedMove(c: Config, c': Config, r: nat) {
    c' == c || TiedPass(c, c', r) || exists i :: c' == Moved(c, Delete(i), r)
  }

  lemma TiedSurvives(n: Node, n': Node, prefix: string)
    requires n'.name == n.name && n'.service == n.service && n'.hostname == n.hostname
    requires Generated(n) && Prefix(n) == prefix
    ensures Generated(n') && Prefix(n') == prefix
  {
    hide Print, Index, NodeName;
  }

  lemma ChangesTied(nodes: Nodes, nodes': Nodes, service: string, prefix: string)
    requires forall k | k in nodes' ::
      k in nodes && nodes'[k].name == nodes[k].name
      && nodes'[k].service == nodes[k].service && nodes'[k].hostname == nodes[k].hostname
    requires AllTied(ServiceNodes(nodes, service), prefix)
    ensures AllTied(ServiceNodes(nodes', service), prefix)
  {
    hide Generated;
    forall k | k in nodes' && nodes'[k].service == service ensures Generated(nodes'[k]) && Prefix(nodes'[k]) == prefix {
      assert nodes[k] in ServiceNodes(nodes, service);
      TiedSurvives(nodes[k], nodes'[k], prefix);
    }
  }

  lemma NewNodeTied(service: string, stem: string, i: nat)
    ensures Prefix(NewNode(service, stem, i)) == stem + "-"
  {
    hide NodeName;
    var n := NewNode(service, stem, i);
    assert n.hostname == (stem + "-") + Print(i);
    assert n.hostname == Prefix(n) + Print(i);
    assert n.hostname[..|n.hostname| - |Print(i)|] == stem + "-" == Prefix(n);
  }

  lemma GrowTied(nodes: Nodes, service: string, stem: string, r: nat)
    requires WellKeyed(nodes) && AllTied(ServiceNodes(nodes, service), stem + "-")
    ensures AllTied(ServiceNodes(Grown(nodes, service, stem, r), service), stem + "-")
  {
    hide Generated, Grown, NodeName, Index, Prefix, NewNode;
    GrownExactly(nodes, service, stem, r);
    var g := Grown(nodes, service, stem, r);
    forall k | k in g && g[k].service == service ensures Generated(g[k]) && Prefix(g[k]) == stem + "-" {
      if k in nodes {
        assert nodes[k] in ServiceNodes(nodes, service);
      } else {
        NewNodeTied(service, stem, Index(k));
      }
    }
  }

  lemma TiedSorts(all: set<Node>, prefix: string)
    requires Numbered(prefix) && AllTied(all, prefix)
    ensures SortWorks(all)
  {
    hide Generated;
    KeyIsIndexIff(prefix);
    forall n | n in all ensures HostnameKey(n.hostname).Key? {
      assert n.hostname == prefix + Print(Index(n.name));
    }
  }

  lemma VictimNames(nodes: Nodes, service: string, victims: set<Node>)
    requires WellKeyed(nodes) && victims <= ServiceNodes(nodes, service)
    ensures Names(victims) <= ServiceNames(nodes, service) && NamedFor(Names(victims), service)
    ensures |Indices(Names(victims))| == |victims|
  {
    hide NodeName, Index, Generated, Indices;
    ServiceNodesFacts(nodes, service);
    OwnNames(nodes, service);
    NamesCardinality(victims);
    assert Names(victims) <= Names(ServiceNodes(nodes, service));
    IndicesSize(Names(victims), service);
  }

  lemma MarkedAtName(nodes: Nodes, names: set<string>, now: string, service: string, k: string)
    requires now != "" && names <= ServiceNames(nodes, service)
    ensures var nodes' := Marked(nodes, names, now);
      && (k in ServiceNames(nodes', service) <==> k in ServiceNames(nodes, service))
      && (k in MarkedNames(nodes', service) <==> k in MarkedNames(nodes, service) || k in names)
  {
  }

  /** A number that does not fit in an int makes every scale-down of two or more nodes fail. */
  lemma OverflowNeverMarksIff(nodes: Nodes, m: Module, victims: set<Node>, now: string, prefix: string)
    requires prefix != [] && !IsDigit(prefix[|prefix| - 1]) && !DigitFree(prefix)
    requires AllTied(ServiceNodes(nodes, m.service), prefix) && m.app != "" && m.service != ""
    requires |ServiceNodes(nodes, m.service)| > m.spec.replicas && |ServiceNodes(nodes, m.service)| >= 2
    ensures ModuleLogic.Pass(nodes, m, victims, now) == Rejected(SortFailed) <==> HostnameKey(prefix) == OutOfRange
  {
    hide Generated, Marked, Prefix;
    var all := ServiceNodes(nodes, m.service);
    KeyIsIndexIff(prefix);
    HasNumber(prefix);
    forall n | n in all ensures HostnameKey(n.hostname) == HostnameKey(prefix) {
      assert n.hostname == prefix + Print(Index(n.name));
    }
    var n :| n in all;
  }

  lemma HasNumber(prefix: string)
    requires prefix != [] && !IsDigit(prefix[|prefix| - 1]) && !DigitFree(prefix)
    ensures HostnameKey(prefix) != NoDigits
  {
    RunInsidePrefix(prefix, []);
  }

  /** Marking a set of the service's nodes, by index. */
  lemma MarkedConfig(nodes: Nodes, service: string, victims: set<Node>, now: string)
    requires WellKeyed(nodes) && victims <= ServiceNodes(nodes, service) && now != ""
    ensures var c, v := ConfigOf(nodes, service), Indices(Names(victims));
      && v <= c.all && |v| == |victims|
      && ConfigOf(Marked(nodes, Names(victims), now), service) == Config(c.all, c.marked + v)
  {
    hide NodeName, Index, WellKeyed, Marked, ServiceNames, MarkedNames, Names, ServiceNodes;
    var nodes', names := Marked(nodes, Names(victims), now), Names(victims);
    VictimNames(nodes, service, victims);
    forall k ensures (k in ServiceNames(nodes', service) <==> k in ServiceNames(nodes, service))
      && (k in MarkedNames(nodes', service) <==> k in MarkedNames(nodes, service) || k in names)
    {
      MarkedAtName(nodes, names, now, service, k);
    }
    assert ServiceNames(nodes', service) == ServiceNames(nodes, service);
    assert MarkedNames(nodes', service) == MarkedNames(nodes, service) + names;
    IndicesUnion(MarkedNames(nodes, service), names);
  }

  lemma TiedPassMoves(nodes: Nodes, m: Module, victims: set<Node>, now: string, prefix: string)
    requires WellKeyed(nodes) && AllTied(ServiceNodes(nodes, m.service), prefix) && now != ""
    requires TiedTarget(m, m.service, m.spec.replicas, prefix) && SortChoice(nodes, m, victims)
    ensures var p := ModuleLogic.Pass(nodes, m, victims, now);
      && p.Done? && WellKeyed(p.nodes) && AllTied(ServiceNodes(p.nodes, m.service), prefix)
      && TiedPass(ConfigOf(nodes, m.service), ConfigOf(p.nodes, m.service), m.spec.replicas)
  {
    hide Generated, Grown, Marked, SortWorks, HostStem, ConfigOf, Names, AllTied, WellKeyed, ServiceNodes, Indices,
      KeyNumber;
    var service, r := m.service, m.spec.replicas;
    ConfigFacts(nodes, service);
    if |ServiceNames(nodes, service)| < r {
      GrowMoves(nodes, service, HostStem(m).value, r);
      GrowTied(nodes, service, HostStem(m).value, r);
    } else if |ServiceNames(nodes, service)| > r {
      TiedSorts(ServiceNodes(nodes, service), prefix);
      MarkedFacts(nodes, Names(victims), now);
      MarkedConfig(nodes, service, victims, now);
      MarkedTied(nodes, service, Names(victims), now, prefix);
    }
  }

  lemma MarkedTied(nodes: Nodes, service: string, victims: set<string>, now: string, prefix: string)
    requires AllTied(ServiceNodes(nodes, service), prefix)
    ensures AllTied(ServiceNodes(Marked(nodes, victims, now), service), prefix)
  {
    hide AllTied;
    ChangesTied(nodes, Marked(nodes, victims, now), service, prefix);
  }

  lemma TiedStepMoves(st: State, step: Step, name: string, service: string, r: nat, prefix: string)
    requires WellFormed(st) && Enabled(st, step) && AllTied(ServiceNodes(st.nodes, service), prefix)
    requires name in st.modules && TiedTarget(st.modules[name], service, r, prefix)
    ensures AllTied(ServiceNodes(Next(st, step).nodes, service), prefix)
    ensures TiedMove(ConfigOf(st.nodes, service), ConfigOf(Next(st, step).nodes, service), r)
  {
    hide WellKeyed, Generated, ModuleLogic.Pass, TiedTarget, ReconcileModule, ReconcileNode, ReconcileService,
      SortChoice, ConfigOf, Moved, ServiceNodes, ServiceNames, AllTied, Lists, TiedPass;
    var st' := Next(st, step);
    StepKeepsWellFormed(st, step);
    NodesKeyed(st);
    NodesKeyed(st');
    if step.ModuleStep? && step.name in st.modules {
      var m, c := st.modules[step.name], step.choice;
      ModuleStepObjects(st, step.name, c);
      if st'.nodes == st.nodes {
      } else if m.service == service {
        OneTiedModule(st, name, step.name, service, r, prefix);
        TiedPassMoves(st.nodes, m, c.victims, c.now, prefix);
      } else {
        PassElsewhere(st.nodes, m, c.victims, c.now, service);
        SameConfig(st.nodes, st'.nodes, service);
      }
    } else if step.NodeStep? {
      NodeStepMoves(st, step.node, step.seen, service, r);
      NodeStepChanges(st, step.node, step.seen);
      ChangesTied(st.nodes, st'.nodes, service, prefix);
    } else {
      OtherStepNodes(st, step);
    }
  }

  lemma OneTiedModule(st: State, name: string, other: string, service: string, r: nat, prefix: string)
    requires WellFormed(st) && name in st.modules && TiedTarget(st.modules[name], service, r, prefix)
    requires other in st.modules && st.modules[other].service == service
    ensures other == name && st.modules[other].spec.replicas == r
  {
    hide WellKeyed, HostStem, Numbered;
  }

  /* ---- moves without an unmarked high index ---- */

  lemma TiedMoveKeeps(c: Config, c': Config, r: nat)
    requires Valid(c) && TiedMove(c, c', r)
    ensures Valid(c') && c'.all - Low(r) <= c.all - Low(r)
    ensures Unmarked(c) <= Low(r) ==> Unmarked(c') <= Low(r)
    ensures c.all <= Low(r) ==> c'.all <= Low(r) && c'.marked <= c.marked
    ensures c == Config(Low(r), {}) ==> c' == c
  {
    if c.all <= Low(r) {
      SubsetSize(c.all, Low(r));
    }
  }

  /** A pass with nothing marked and nothing too high completes the low indices; with R = 0
      a pass marks everything. */
  lemma TiedPassEnds(c: Config, c': Config, r: nat)
    requires Valid(c) && TiedPass(c, c', r)
    ensures c.all <= Low(r) && c.marked == {} ==> c' == Config(Low(r), {})
    ensures r == 0 ==> Unmarked(c') == {}
  {
    if c.all <= Low(r) {
      SubsetSize(c.all, Low(r));
    }
    if r == 0 && |c.all| > 0 {
      var v :| v <= c.all && |v| + r == |c.all| && c' == Config(c.all, c.marked + v);
      SubsetSize(v, c.all);
    }
  }

  /* ---- behaviors ---- */

  ghost predicate TiedAt(states: States, i: nat, service: string, prefix: string) {
    WellKeyed(states(i).nodes) && AllTied(ServiceNodes(states(i).nodes, service), prefix)
  }

  lemma OneTiedMove(states: States, steps: Steps, name: string, service: string, r: nat, prefix: string, i: nat)
    requires IsBehavior(states, steps) && TiedForever(states, name, service, r, prefix)
    requires TiedAt(states, i, service, prefix)
    ensures TiedAt(states, i + 1, service, prefix) && Valid(At(states, i, service))
    ensures TiedMove(At(states, i, service), At(states, i + 1, service), r)
    ensures PassAt(states, steps, i, name) ==> TiedPass(At(states, i, service), At(states, i + 1, service), r)
  {
    hide WellFormed, Next, Enabled, TiedTarget, ConfigOf, AllTied, WellKeyed, ServiceNodes, ReconcileModule, TiedPass,
      TiedMove, Numbered;
    WellFormedAt(states, steps, i);
    WellFormedAt(states, steps, i + 1);
    NodesKeyed(states(i));
    NodesKeyed(states(i + 1));
    assert Enabled(states(i), steps(i)) && states(i + 1) == Next(states(i), steps(i));
    TiedStepMoves(states(i), steps(i), name, service, r, prefix);
    ConfigFacts(states(i).nodes, service);
    if PassAt(states, steps, i, name) {
      TiedPassMoved(states(i), steps(i), name, service, r, prefix);
    }
  }

  lemma TiedPassMoved(st: State, step: Step, name: string, service: string, r: nat, prefix: string)
    requires WellFormed(st) && Enabled(st, step)
    requires step.ModuleStep? && step.name == name && Validated(st, name, step.choice)
    requires name in st.modules && TiedTarget(st.modules[name], service, r, prefix)
    requires AllTied(ServiceNodes(st.nodes, service), prefix)
    ensures TiedPass(ConfigOf(st.nodes, service), ConfigOf(Next(st, step).nodes, service), r)
  {
    hide WellFormed, ConfigOf, AllTied, ServiceNodes, ReconcileModule, HostStem, SortChoice, Lists, TiedPass, Numbered;
    var c := step.choice;
    NodesKeyed(st);
    ValidatedPass(st, name, c);
    TiedPassMoves(st.nodes, st.modules[name], c.victims, c.now, prefix);
  }

  lemma {:induction false} TiedAlong(
    states: States, steps: Steps, name: string, service: string, r: nat, prefix: string, i: nat, k: nat)
    requires IsBehavior(states, steps) && TiedForever(states, name, service, r, prefix) && i <= k
    requires TiedAt(states, i, service, prefix)
    ensures TiedAt(states, k, service, prefix) && Valid(At(states, i, service)) && Valid(At(states, k, service))
    ensures var c, c' := At(states, i, service), At(states, k, service);
      && c'.all - Low(r) <= c.all - Low(r)
      && (Unmarked(c) <= Low(r) ==> Unmarked(c') <= Low(r))
      && (c.all <= Low(r) ==> c'.all <= Low(r) && c'.marked <= c.marked)
      && (c == Config(Low(r), {}) ==> c' == c)
  {
    hide IsBehavior, TiedForever, TiedAt, At, Low, TiedMove, Unmarked, Valid;
    if i == k {
      OneTiedMove(states, steps, name, service, r, prefix, i);
    } else {
      TiedAlong(states, steps, name, service, r, prefix, i, k - 1);
      OneTiedMove(states, steps, name, service, r, prefix, k - 1);
      TiedMoveKeeps(At(states, k - 1, service), At(states, k, service), r);
    }
  }

  lemma TiedGoes(states: States, steps: Steps, name: string, service: string, r: nat, prefix: string, t: nat, i: nat)
    returns (t': nat)
    requires IsBehavior(states, steps) && TiedForever(states, name, service, r, prefix) && Fair(states, steps, name)
    requires TiedAt(states, t, service, prefix) && i in At(states, t, service).marked
    ensures t <= t' && TiedAt(states, t', service, prefix) && i !in At(states, t', service).all
  {
    hide IsBehavior, TiedForever, Fair, ConfigOf, AllTied, WellKeyed;
    var node := NodeName(service, i);
    InConfig(states(t).nodes, service, i);
    t' := NodeGoes(states, steps, name, t, node);
    TiedAlong(states, steps, name, service, r, prefix, t, t');
    InConfig(states(t').nodes, service, i);
    NotIn(states(t').nodes, service, node);
  }

  /** Everything too high and everything marked goes. */
  lemma {:induction false} TiedSettles(
    states: States, steps: Steps, name: string, service: string, r: nat, prefix: string, t: nat) returns (t': nat)
    requires IsBehavior(states, steps) && TiedForever(states, name, service, r, prefix) && Fair(states, steps, name)
    requires TiedAt(states, t, service, prefix) && Unmarked(At(states, t, service)) <= Low(r)
    ensures t <= t' && TiedAt(states, t', service, prefix)
    ensures At(states, t', service).all <= Low(r) && At(states, t', service).marked == {}
    decreases At(states, t, service).all - Low(r), At(states, t, service).marked
  {
    hide IsBehavior, TiedForever, Fair, TiedAt, At, Low;
    var c := At(states, t, service);
    if c.marked == {} {
      t' := t;
      assert c.all == Unmarked(c);
    } else {
      var i :| i in c.marked;
      if !(c.all <= Low(r)) {
        i :| i in c.all && i !in Low(r);
        assert i in Unmarked(c) || i in c.marked;
      }
      var s := TiedGoes(states, steps, name, service, r, prefix, t, i);
      TiedAlong(states, steps, name, service, r, prefix, t, s);
      var c' := At(states, s, service);
      if c.all <= Low(r) {
        assert c.all - Low(r) == {} == c'.all - Low(r);
        assert i in c.marked && i !in c'.marked;
      } else {
        assert i in c.all - Low(r) && i !in c'.all - Low(r);
      }
      t' := TiedSettles(states, steps, name, service, r, prefix, s);
    }
  }

  lemma TiedConverges(states: States, steps: Steps, name: string, service: string, r: nat, prefix: string)
    requires IsBehavior(states, steps) && TiedForever(states, name, service, r, prefix) && Fair(states, steps, name)
    requires AllTied(ServiceNodes(states(0).nodes, service), prefix)
    requires r == 0 || Unmarked(ConfigOf(states(0).nodes, service)) <= Low(r)
    ensures exists t: nat :: ConvergedFrom(states, t, service, r)
  {
    hide IsBehavior, TiedForever, Fair, PassAt, Low, ConfigOf, AllTied, WellFormed, WellKeyed, ServiceNames, LowNames,
      TiedPass, TiedMove, Unmarked;
    WellFormedAt(states, steps, 0);
    NodesKeyed(states(0));
    assert TiedAt(states, 0, service, prefix);
    var t: nat := 0;
    if r == 0 {
      var p := NextPass(states, steps, name, 0);
      TiedAlong(states, steps, name, service, r, prefix, 0, p);
      OneTiedMove(states, steps, name, service, r, prefix, p);
      TiedPassEnds(At(states, p, service), At(states, p + 1, service), r);
      t := p + 1;
    }
    var s := TiedSettles(states, steps, name, service, r, prefix, t);
    var p := NextPass(states, steps, name, s);
    TiedAlong(states, steps, name, service, r, prefix, s, p);
    OneTiedMove(states, steps, name, service, r, prefix, p);
    TiedPassEnds(At(states, p, service), At(states, p + 1, service), r);
    forall j: nat | p + 1 <= j ensures ServiceNames(states(j).nodes, service) == LowNames(service, r) {
      TiedAlong(states, steps, name, service, r, prefix, p + 1, j);
      assert TiedAt(states, j, service, prefix);
      NamesByIndices(states(j).nodes, service, r);
    }
    assert ConvergedFrom(states, p + 1, service, r);
  }

  /* ---- how the rest is lost ---- */

  ghost predicate TiedOk(st: State, name: string, m: Module, prefix: string) {
    && Serves(st, name, m) && TiedTarget(m, m.service, m.spec.replicas, prefix)
    && AllTied(ServiceNodes(st.nodes, m.service), prefix)
  }

  lemma {:induction false} PickNames(names: set<string>, r: nat, k: string) returns (kept: set<string>)
    requires k in names && 1 <= r <= |names|
    ensures kept <= names && |kept| == r && k in kept
    decreases |names|
  {
    if |names| == r {
      kept := names;
    } else {
      assert names == (names - {k}) + {k};
      var x :| x in names - {k};
      kept := PickNames(names - {x}, r, k);
    }
  }

  /** Any names but R can be what a sort puts from place R on. */
  lemma TiedVictimsOutside(nodes: Nodes, service: string, r: nat, kept: set<string>, prefix: string)
    returns (victims: set<Node>)
    requires WellKeyed(nodes) && Numbered(prefix) && AllTied(ServiceNodes(nodes, service), prefix)
    requires kept <= ServiceNames(nodes, service) && |kept| == r
    ensures Victims(ServiceNodes(nodes, service), r, victims)
    ensures Names(victims) == ServiceNames(nodes, service) - kept
  {
    hide Generated, Prefix, KeyNumber;
    var all := ServiceNodes(nodes, service);
    victims := set n | n in all && n.name !in kept;
    OutsideSize(nodes, service, kept, victims);
    TiedVictims(all, prefix, r, victims);
    ServiceNodesFacts(nodes, service);
    assert Names(victims) == Names(all) - kept;
  }

  /** One more pass: any R of the nodes can be the ones that are left. */
  lemma ReachKept(st: State, name: string, m: Module, prefix: string, kept: set<string>) returns (st': State)
    requires TiedOk(st, name, m, prefix) && |kept| == m.spec.replicas
    requires kept <= ServiceNames(st.nodes, m.service)
    requires MarkedNames(st.nodes, m.service) == {}
    ensures Reaches(st, st', name, m) && Serves(st', name, m)
    ensures ServiceNames(st'.nodes, m.service) == kept && MarkedNames(st'.nodes, m.service) == {}
  {
    hide Reaches, Serves, AllTied, WellKeyed, ServiceNames, MarkedNames, Names, Numbered, HostStem, Marked, Victims;
    var service := m.service;
    assert WellKeyed(st.nodes) by { ServesKeyed(st, name, m); }
    var victims := TiedVictimsOutside(st.nodes, service, m.spec.replicas, kept, prefix);
    TiedSorts(ServiceNodes(st.nodes, service), prefix);
    ServiceNodesFacts(st.nodes, service);
    SubsetSize(kept, ServiceNames(st.nodes, service));
    var gone := Names(victims);
    if |ServiceNames(st.nodes, service)| > m.spec.replicas {
      var st1 := ReachPass(st, name, m, victims);
      assert st1.nodes == Marked(st.nodes, gone, NOW);
      AfterMarking(st.nodes, gone, service);
      st' := ReachDeletes(st1, gone, name, m);
      ReachesOn(st, st1, st', name, m);
    } else {
      st' := st;
      ReachesItself(st, name, m);
    }
  }

  lemma ServesKeyed(st: State, name: string, m: Module)
    requires Serves(st, name, m)
    ensures WellKeyed(st.nodes)
  {
    hide WellKeyed, Wants;
  }

  lemma AfterMarking(nodes: Nodes, gone: set<string>, service: string)
    requires gone <= ServiceNames(nodes, service) && MarkedNames(nodes, service) == {}
    ensures var nodes' := Marked(nodes, gone, NOW);
      && gone <= AllMarked(nodes')
      && ServiceNames(nodes' - gone, service) == ServiceNames(nodes, service) - gone
      && MarkedNames(nodes' - gone, service) == {}
  {
    assert forall k | k in nodes && nodes[k].service == service :: k !in MarkedNames(nodes, service);
  }

  /** A pass on too few unmarked nodes leaves at least R, and none of them marked. */
  lemma ReachEnough(st: State, name: string, m: Module, prefix: string) returns (st': State)
    requires TiedOk(st, name, m, prefix) && MarkedNames(st.nodes, m.service) == {}
    ensures Reaches(st, st', name, m) && TiedOk(st', name, m, prefix) && MarkedNames(st'.nodes, m.service) == {}
    ensures ServiceNames(st.nodes, m.service) <= ServiceNames(st'.nodes, m.service)
    ensures |ServiceNames(st'.nodes, m.service)| >= m.spec.replicas
  {
    hide Reaches, Serves, AllTied, WellKeyed, ServiceNames, MarkedNames, Numbered, HostStem, Grown, LowNames, NewNode;
    var service, r := m.service, m.spec.replicas;
    assert WellKeyed(st.nodes) by { ServesKeyed(st, name, m); }
    ServiceNodesFacts(st.nodes, service);
    if |ServiceNames(st.nodes, service)| < r {
      var victims := SomeChoice(st.nodes, m);
      var stem := HostStem(m).value;
      st' := ReachPass(st, name, m, victims);
      assert st'.nodes == Grown(st.nodes, service, stem, r);
      GrownExactly(st.nodes, service, stem, r);
      GrowTied(st.nodes, service, stem, r);
      NewUnmarked(service, stem);
      GrownMarks(st.nodes, st'.nodes, service);
      LowNamesCardinality(service, r);
      SubsetSize(LowNames(service, r), ServiceNames(st'.nodes, service));
    } else {
      st' := st;
      ReachesItself(st, name, m);
    }
  }

  lemma TiedWithout(st: State, st': State, name: string, m: Module, prefix: string, gone: set<string>)
    requires TiedOk(st, name, m, prefix) && Serves(st', name, m) && st'.nodes == st.nodes - gone
    ensures TiedOk(st', name, m, prefix)
    ensures ServiceNames(st'.nodes, m.service) == ServiceNames(st.nodes, m.service) - gone
    ensures MarkedNames(st'.nodes, m.service) == MarkedNames(st.nodes, m.service) - gone
  {
    hide Serves, TiedTarget, AllTied;
    ChangesTied(st.nodes, st'.nodes, m.service, prefix);
  }

  /** A behavior that keeps R nodes, among them an unmarked one that is too high. */
  lemma TiedLost(st: State, name: string, m: Module, prefix: string, y: nat) returns (states: States, steps: Steps)
    requires TiedOk(st, name, m, prefix) && m.spec.replicas > 0
    requires y in Unmarked(ConfigOf(st.nodes, m.service)) && m.spec.replicas <= y
    ensures IsBehavior(states, steps) && Fair(states, steps, name) && states(0) == st
    ensures TiedForever(states, name, m.service, m.spec.replicas, prefix)
    ensures forall t: nat :: !ConvergedFrom(states, t, m.service, m.spec.replicas)
  {
    hide Reaches, Serves, TiedTarget, AllTied, WellKeyed, ConfigOf, IsBehavior, Fair, ServiceNames, NodeName, LowNames,
      MarkedNames, ServiceNodes, SameNodes;
    var service, r, k := m.service, m.spec.replicas, NodeName(m.service, y);
    ServesKeyed(st, name, m);
    HighName(st.nodes, service, r, y);
    var gone := MarkedNames(st.nodes, service);
    MarkedInAll(st.nodes, service);
    var st1 := ReachDeletes(st, gone, name, m);
    TiedWithout(st, st1, name, m, prefix, gone);
    assert gone - gone == {};
    var st2 := ReachEnough(st1, name, m, prefix);
    var kept := PickNames(ServiceNames(st2.nodes, service), r, k);
    var st3 := ReachKept(st2, name, m, prefix, kept);
    ReachesOn(st, st1, st2, name, m);
    ReachesOn(st, st2, st3, name, m);
    ServesKeyed(st3, name, m);
    ServiceNodesFacts(st3.nodes, service);
    NoneMarked(st3.nodes, service);
    var n;
    states, steps, n := EndAtRest(st, st3, name, m);
    forall i: nat ensures name in states(i).modules && TiedTarget(states(i).modules[name], service, r, prefix) {
      ServesTied(states(i), name, m, prefix);
    }
    forall t: nat ensures !ConvergedFrom(states, t, service, r) {
      var j := if t < n then n else t;
      assert ServiceNames(states(j).nodes, service) == kept by { NamesSame(st3.nodes, states(j).nodes, service); }
      assert k in kept && k !in LowNames(service, r);
    }
  }

  lemma NamesSame(nodes: Nodes, nodes': Nodes, service: string)
    requires SameNodes(nodes, nodes', service)
    ensures ServiceNames(nodes', service) == ServiceNames(nodes, service)
  {
  }

  lemma HighName(nodes: Nodes, service: string, r: nat, y: nat)
    requires WellKeyed(nodes) && y in Unmarked(ConfigOf(nodes, service)) && r <= y
    ensures var k := NodeName(service, y);
      k in ServiceNames(nodes, service) && k !in MarkedNames(nodes, service) && k !in LowNames(service, r)
  {
    hide NodeName, WellKeyed, ConfigOf, Low;
    InConfig(nodes, service, y);
    LowIndices(service, r);
    InIndices(LowNames(service, r), service, y);
  }

  lemma MarkedInAll(nodes: Nodes, service: string)
    ensures MarkedNames(nodes, service) <= AllMarked(nodes)
  {
  }

  lemma NoneMarked(nodes: Nodes, service: string)
    requires MarkedNames(nodes, service) == {}
    ensures forall k | k in nodes && nodes[k].service == service :: nodes[k].deletionDate == ""
  {
    assert forall k | k in nodes && nodes[k].service == service :: k !in MarkedNames(nodes, service);
  }

  lemma ServesTied(st: State, name: string, m: Module, prefix: string)
    requires Serves(st, name, m) && TiedTarget(m, m.service, m.spec.replicas, prefix)
    ensures name in st.modules && TiedTarget(st.modules[name], m.service, m.spec.replicas, prefix)
  {
    hide WellFormed, Numbered;
    StatusAside(m, st.modules[name], map[], {}, NOW);
  }

  /* ---- the theorem ---- */

  ghost predicate TiedAlwaysConverges(st: State, name: string, m: Module, prefix: string) {
    forall states: States, steps: Steps |
      states(0) == st && IsBehavior(states, steps) && Fair(states, steps, name)
      && TiedForever(states, name, m.service, m.spec.replicas, prefix) ::
      exists t: nat :: ConvergedFrom(states, t, m.service, m.spec.replicas)
  }

  /** With a number in the prefix all fair behaviors converge, marks anywhere, if and only
      if R is zero or no unmarked node is too high. */
  lemma TiedConvergesIff(st: State, name: string, m: Module, prefix: string)
    requires TiedOk(st, name, m, prefix)
    ensures TiedAlwaysConverges(st, name, m, prefix) <==>
      m.spec.replicas == 0 || Unmarked(ConfigOf(st.nodes, m.service)) <= Low(m.spec.replicas)
  {
    hide ConfigOf, IsBehavior, TiedForever, Fair, WellFormed, TiedTarget, AllTied, ConvergedFrom, Serves, Low, Unmarked;
    var r, kept := m.spec.replicas, Unmarked(ConfigOf(st.nodes, m.service));
    if r == 0 || kept <= Low(r) {
      forall states: States, steps: Steps | states(0) == st && IsBehavior(states, steps) && Fair(states, steps, name)
        && TiedForever(states, name, m.service, m.spec.replicas, prefix)
        ensures exists t: nat :: ConvergedFrom(states, t, m.service, m.spec.replicas)
      {
        TiedConverges(states, steps, name, m.service, r, prefix);
      }
    } else {
      var y :| y in kept && y !in Low(r);
      var states, steps := TiedLost(st, name, m, prefix, y);
    }
  }
}

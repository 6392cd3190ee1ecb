/** Node deletion when the API calls of the node and module controllers interleave one by
    one: Get, List, Create, Update, status Update and Delete are separate steps, an Update
    carries the resource version it was read with, status is a separate subresource, and
    any call may fail.
    One reconcile at a time runs per object, and nobody else deletes nodes. */
module Interleaving {
  import opened Sets
  import opened Model
  import opened NodeUtils
  import opened NodeSet
  import opened ModuleLogic
  import P = Protocol

  datatype Obj = Obj(node: Node, version: nat)

  /** A node reconcile between two of its API calls. */
  datatype NodeTask =
    | Looking(instance: Obj)
    | Deleting(instance: Obj)
    | Comparing(desired: Node, version: nat, fallback: bool)
    | Writing(desired: Node, version: nat, fallback: bool)
    | Creating(desired: Node)

  /** A node pass of a module between two of its API calls. `listed` is what its List
      returned, `queue` the sorted tail still to be marked. */
  datatype ModuleTask =
    | Growing(stem: string, r: nat, next: nat)
    | Marking(r: nat, listed: set<Node>, queue: seq<Obj>)

  datatype System = System(
    store: map<string, Obj>,
    clock: nat,
    nodeTasks: map<string, NodeTask>,
    moduleTasks: map<string, ModuleTask>)

  datatype Step =
    | NodeGet(key: string)
    | NodeDelete(key: string)
    | NodeObserve(key: string, seen: P.Observation)
    | NodeCompare(key: string)
    | NodeWrite(key: string)
    | NodeCreate(key: string)
    | NodeError(key: string)           // the pending call of a node reconcile fails
    | ModuleList(service: string, stem: string, r: nat, tail: seq<Obj>)
    | ModuleCreate(service: string)
    | ModuleMark(service: string, now: string)
    | ModuleError(service: string)     // the pending call of a node pass fails

  ghost function NodesOf(store: map<string, Obj>, service: string): set<Node> {
    set k | k in store && store[k].node.service == service :: store[k].node
  }

  ghost function NodesIn(queue: seq<Obj>): set<Node> {
    set o | o in queue :: o.node
  }

  /** Stored objects that an ascending sort of the listed nodes can leave from place r on. */
  ghost predicate SortedTail(store: map<string, Obj>, all: set<Node>, r: nat, tail: seq<Obj>) {
    && SortWorks(all) && Victims(all, r, NodesIn(tail))
    && forall o | o in tail :: o.node.name in store && store[o.node.name] == o
  }

  ghost predicate Enabled(s: System, step: Step) {
    match step
    case NodeGet(key) => key !in s.nodeTasks
    case NodeDelete(key) => key in s.nodeTasks && s.nodeTasks[key].Deleting?
    case NodeObserve(key, _) => key in s.nodeTasks && s.nodeTasks[key].Looking?
    case NodeCompare(key) => key in s.nodeTasks && s.nodeTasks[key].Comparing?
    case NodeWrite(key) => key in s.nodeTasks && s.nodeTasks[key].Writing?
    case NodeCreate(key) => key in s.nodeTasks && s.nodeTasks[key].Creating?
    case NodeError(key) => key in s.nodeTasks
    case ModuleList(service, _, r, tail) =>
      var all := NodesOf(s.store, service);
      && service !in s.moduleTasks
      && (|all| > r ==> SortedTail(s.store, all, r, tail))
    case ModuleCreate(service) => service in s.moduleTasks && s.moduleTasks[service].Growing?
    case ModuleMark(service, now) => service in s.moduleTasks && s.moduleTasks[service].Marking? && now != ""
    case ModuleError(service) => service in s.moduleTasks
  }

  predicate IsModuleStep(step: Step) {
    step.ModuleList? || step.ModuleCreate? || step.ModuleMark? || step.ModuleError?
  }

  function Done(s: System, key: string): System {
    s.(nodeTasks := s.nodeTasks - {key})
  }

  function Put(s: System, key: string, node: Node): System {
    s.(store := s.store[key := Obj(node, s.clock)], clock := s.clock + 1)
  }

  function Failed(s: System, key: string, desired: Node, fallback: bool): System {
    if fallback then s.(nodeTasks := s.nodeTasks[key := Creating(desired)]) else Done(s, key)
  }

  ghost function NodeNext(s: System, step: Step): System
    requires Enabled(s, step)
    requires !IsModuleStep(step)
  {
    match step
    case NodeGet(key) =>
      if key !in s.store then s
      else
        var o := s.store[key];
        var gone := o.node.deletionDate != "" && o.node.status.properties.id == GONE;
        s.(nodeTasks := s.nodeTasks[key := if gone then Deleting(o) else Looking(o)])
    case NodeDelete(key) =>
      Done(s, key).(store := s.store - {key})
    case NodeObserve(key, seen) =>
      if seen.CatalogError? || seen.HealthError? then Done(s, key)
      else
        var o := s.nodeTasks[key].instance;
        var desired := o.node.(status := P.Observed(o.node.status, seen));
        s.(nodeTasks := s.nodeTasks[key := Comparing(desired, o.version, seen.Machine?)])
    case NodeCompare(key) =>
      var t := s.nodeTasks[key];
      if key !in s.store then Failed(s, key, t.desired, t.fallback)
      else if s.store[key].node.status == t.desired.status then Done(s, key)
      else s.(nodeTasks := s.nodeTasks[key := Writing(t.desired, t.version, t.fallback)])
    case NodeWrite(key) =>
      var t := s.nodeTasks[key];
      if key in s.store && s.store[key].version == t.version then
        Done(Put(s, key, s.store[key].node.(status := t.desired.status)), key)
      else Failed(s, key, t.desired, t.fallback)
    case NodeCreate(key) =>
      if key in s.store then Done(s, key) else Done(Put(s, key, s.nodeTasks[key].desired), key)
    case NodeError(key) =>
      var t := s.nodeTasks[key];
      if t.Comparing? || t.Writing? then Failed(s, key, t.desired, t.fallback) else Done(s, key)
  }

  function FinishModule(s: System, service: string): System {
    s.(moduleTasks := s.moduleTasks - {service})
  }

  function Store(s: System, service: string, task: ModuleTask): System {
    s.(moduleTasks := s.moduleTasks[service := task])
  }

  ghost function ModuleNext(s: System, step: Step): System
    requires Enabled(s, step)
    requires IsModuleStep(step)
  {
    match step
    case ModuleList(service, stem, r, tail) =>
      var all := NodesOf(s.store, service);
      if |all| < r then Store(s, service, Growing(stem, r, 0))
      else if |all| > r then Store(s, service, Marking(r, all, tail))
      else s
    case ModuleCreate(service) =>
      var t := s.moduleTasks[service];
      if t.next >= t.r then FinishModule(s, service)
      else
        var node := NewNode(service, t.stem, t.next);
        var s1 := if node.name in s.store then s else Put(s, node.name, node);
        Store(s1, service, t.(next := t.next + 1))
    case ModuleMark(service, now) =>
      var t := s.moduleTasks[service];
      if t.queue == [] then FinishModule(s, service)
      else
        var o := t.queue[0];
        var name := o.node.name;
        var s1 := if o.node.deletionDate == "" && name in s.store && s.store[name].version == o.version
                  then Put(s, name, o.node.(deletionDate := now, status := s.store[name].node.status))
                  else s;
        Store(s1, service, t.(queue := t.queue[1..]))
    case ModuleError(service) =>
      var t := s.moduleTasks[service];
      if t.Marking? && t.queue != [] then Store(s, service, t.(queue := t.queue[1..])) else FinishModule(s, service)
  }

  ghost function Next(s: System, step: Step): System
    requires Enabled(s, step)
  {
    if IsModuleStep(step) then ModuleNext(s, step) else NodeNext(s, step)
  }

  /* ---- the invariant ---- */

  /** A copy read earlier: if the stored object still has its version it is the same. */
  ghost predicate Copy(s: System, o: Obj) {
    && o.version < s.clock
    && (o.node.name in s.store && s.store[o.node.name].version == o.version ==> s.store[o.node.name].node == o.node)
  }

  /** At least `r` other listed nodes sort no higher. */
  ghost predicate Outranked(listed: set<Node>, r: nat, n: Node) {
    n in listed && |set x | x in listed && x != n && KeyNumber(x) <= KeyNumber(n)| >= r
  }

  ghost predicate NodeTaskOk(s: System, key: string, t: NodeTask) {
    && key in s.store
    && match t {
         case Looking(o) => o.node.name == key
         case Deleting(o) => P.Deletable(s.store[key].node)
         case Comparing(desired, _, _) => desired.name == key
         case Writing(desired, _, _) => desired.name == key
         case Creating(desired) => desired.name == key
       }
  }

  ghost predicate ModuleTaskOk(s: System, t: ModuleTask) {
    t.Marking? ==> forall o | o in t.queue :: Copy(s, o) && Outranked(t.listed, t.r, o.node)
  }

  ghost predicate Good(s: System) {
    && (forall k | k in s.store :: s.store[k].node.name == k && s.store[k].version < s.clock)
    && (forall k | k in s.nodeTasks :: NodeTaskOk(s, k, s.nodeTasks[k]))
    && (forall m | m in s.moduleTasks :: ModuleTaskOk(s, s.moduleTasks[m]))
  }

  /* ---- what one step does to the stored nodes ---- */

  lemma VictimsOutranked(all: set<Node>, r: nat, victims: set<Node>, n: Node)
    requires Victims(all, r, victims) && n in victims
    ensures Outranked(all, r, n)
  {
    hide KeyNumber;
    var kept := all - victims;
    assert |kept| == r by { assert kept + victims == all; }
    SubsetSize(kept, set x | x in all && x != n && KeyNumber(x) <= KeyNumber(n));
  }

  /** The safety of deletion, step by step: a mark is never cleared or rewritten; a node
      disappears only while it is marked and its stored ID says that the machine is gone;
      nodes appear only through a growing module; and a mark appears only through a module
      whose listing held at least R other nodes of the service that sort no higher. */
  ghost predicate SafeStep(s: System, step: Step, s': System) {
    && (forall k | k in s.store && k in s'.store && s.store[k].node.deletionDate != "" ::
          s'.store[k].node.deletionDate == s.store[k].node.deletionDate)
    && (forall k | k in s.store && k !in s'.store ::
          step == NodeDelete(k) && s.store[k].node.deletionDate != "" && s.store[k].node.status.properties.id == GONE)
    && (forall k | k !in s.store && k in s'.store :: step.ModuleCreate? && s'.store[k].node.deletionDate == "")
    && (forall k | k in s.store && k in s'.store && s.store[k].node.deletionDate != s'.store[k].node.deletionDate ::
          step.ModuleMark? && step.service in s.moduleTasks &&
          var t := s.moduleTasks[step.service];
          t.Marking? && t.queue != [] && t.queue[0].node == s.store[k].node
            && Outranked(t.listed, t.r, s.store[k].node))
  }

  /** The key a step of the node controller works on. */
  predicate Acts(step: Step, key: string) {
    match step
    case ModuleList(_, _, _, _) => false
    case ModuleCreate(_) => false
    case ModuleMark(_, _) => false
    case ModuleError(_) => false
    case _ => step.key == key
  }

  /** Every stored object is untouched or carries a version that was never used before. */
  ghost predicate Fresh(s: System, s': System) {
    && s.clock <= s'.clock
    && forall k | k in s'.store ::
         && s'.store[k].node.name == k && s'.store[k].version < s'.clock
         && ((k in s.store && s'.store[k] == s.store[k]) || s'.store[k].version >= s.clock)
  }

  lemma CopiesSurvive(s: System, s': System, o: Obj)
    requires Fresh(s, s') && Copy(s, o)
    ensures Copy(s', o)
  {
  }

  /** A module step leaves every stored status alone and is safe. */
  ghost predicate ModuleStepKeeps(s: System, step: Step, s': System) {
    && s'.nodeTasks == s.nodeTasks && Fresh(s, s') && SafeStep(s, step, s')
    && (forall k | k in s.store :: k in s'.store && s'.store[k].node.status == s.store[k].node.status)
  }

  lemma ModuleStepStore(s: System, step: Step)
    requires Good(s) && Enabled(s, step) && IsModuleStep(step)
    ensures ModuleStepKeeps(s, step, Next(s, step))
  {
    hide Good, Next, ModuleStepKeeps;
    match step
    case ModuleList(_, _, _, _) => TasksOnly(s, step);
    case ModuleError(_) => TasksOnly(s, step);
    case ModuleCreate(service) => CreateStore(s, service);
    case ModuleMark(service, now) => MarkStore(s, service, now);
  }

  lemma TasksOnly(s: System, step: Step)
    requires Good(s) && Enabled(s, step) && (step.ModuleList? || step.ModuleError?)
    ensures ModuleStepKeeps(s, step, Next(s, step))
  {
    hide NodesOf, SortedTail, Outranked, NodeTaskOk, ModuleTaskOk, P.Deletable;
  }

  lemma CreateStore(s: System, service: string)
    requires Good(s) && Enabled(s, ModuleCreate(service))
    ensures ModuleStepKeeps(s, ModuleCreate(service), Next(s, ModuleCreate(service)))
  {
    hide NodeName, NewNode, Outranked, NodeTaskOk, ModuleTaskOk, P.Deletable;
    NewNodePlainly(service, s.moduleTasks[service]);
  }

  lemma NewNodePlainly(service: string, t: ModuleTask)
    requires t.Growing?
    ensures NewNode(service, t.stem, t.next).deletionDate == ""
  {
  }

  lemma MarkStore(s: System, service: string, now: string)
    requires Good(s) && Enabled(s, ModuleMark(service, now))
    ensures ModuleStepKeeps(s, ModuleMark(service, now), Next(s, ModuleMark(service, now)))
  {
    hide NodeName, Generated, KeyNumber, Victims, SortWorks, Outranked, NodeTaskOk, P.Deletable;
    var t := s.moduleTasks[service];
    assert ModuleTaskOk(s, t);
    if t.queue != [] {
      var o := t.queue[0];
      assert o in t.queue && Copy(s, o);
    }
  }

  /** A node controller step leaves the store, deletes its own object after the guard, or
      writes a status under a new version. The create of the fallback finds the object
      in place. */
  lemma NodeStepEffect(s: System, step: Step)
    requires Good(s) && Enabled(s, step) && !IsModuleStep(step)
    ensures var s' := Next(s, step);
      var k := step.key;
      || (s'.store == s.store && s'.clock == s.clock)
      || (step.NodeDelete? && k in s.store && P.Deletable(s.store[k].node)
          && s'.store == s.store - {k} && s'.clock == s.clock)
      || (step.NodeWrite? && k in s.store && s'.clock == s.clock + 1
          && s'.store == s.store[k := Obj(s.store[k].node.(status := s'.store[k].node.status), s.clock)])
  {
    hide P.Observed, ModuleTaskOk, P.Deletable;
    assert step.key in s.nodeTasks ==> NodeTaskOk(s, step.key, s.nodeTasks[step.key]);
  }

  lemma NodeStepTasks(s: System, step: Step)
    requires Enabled(s, step) && !IsModuleStep(step)
    ensures var s' := Next(s, step);
      && s'.moduleTasks == s.moduleTasks
      && (forall k | k in s'.nodeTasks && !Acts(step, k) :: k in s.nodeTasks && s'.nodeTasks[k] == s.nodeTasks[k])
  {
    hide P.Observed, P.Deletable;
  }

  lemma NodeStepStore(s: System, step: Step)
    requires Good(s) && Enabled(s, step) && !IsModuleStep(step)
    ensures var s' := Next(s, step);
      && Fresh(s, s') && SafeStep(s, step, s')
      && (forall k | k in s.store && !Acts(step, k) :: k in s'.store && s'.store[k] == s.store[k])
  {
    hide Next, Enabled, NodeTaskOk, ModuleTaskOk, Outranked;
    NodeStepEffect(s, step);
  }

  /** The next task of the object a node controller step works on. */
  lemma NodeStepTask(s: System, step: Step)
    requires Good(s) && Enabled(s, step) && !IsModuleStep(step)
    ensures var s' := Next(s, step);
      step.key in s'.nodeTasks ==> NodeTaskOk(s', step.key, s'.nodeTasks[step.key])
  {
    hide P.Observed, ModuleTaskOk;
    assert step.key in s.nodeTasks ==> NodeTaskOk(s, step.key, s.nodeTasks[step.key]);
  }

  /** Nodes are deleted safely at every interleaving. */
  lemma StepIsSafe(s: System, step: Step)
    requires Good(s) && Enabled(s, step)
    ensures SafeStep(s, step, Next(s, step))
  {
    hide Good, Next, SafeStep, Fresh;
    if IsModuleStep(step) {
      ModuleStepStore(s, step);
    } else {
      NodeStepStore(s, step);
    }
  }

  /** What a listing hands to its marking loop. */
  lemma NewListingOk(s: System, s': System, r: nat, all: set<Node>, tail: seq<Obj>)
    requires Good(s) && Fresh(s, s') && SortedTail(s.store, all, r, tail)
    ensures ModuleTaskOk(s', Marking(r, all, tail))
  {
    hide KeyNumber, Victims, SortWorks, Outranked, NodeTaskOk, ModuleTaskOk, Fresh, Copy;
    forall o | o in tail ensures Copy(s', o) && Outranked(all, r, o.node) {
      StoredIsCopy(s, o);
      CopiesSurvive(s, s', o);
      assert o.node in NodesIn(tail);
      VictimsOutranked(all, r, NodesIn(tail), o.node);
    }
    TaskOk(s', Marking(r, all, tail));
  }

  lemma TaskOk(s: System, t: ModuleTask)
    requires t.Marking? ==> forall o | o in t.queue :: Copy(s, o) && Outranked(t.listed, t.r, o.node)
    ensures ModuleTaskOk(s, t)
  {
    hide Copy, Outranked;
  }

  lemma ModuleTasksOk(s: System, step: Step)
    requires Good(s) && Enabled(s, step) && IsModuleStep(step)
    ensures forall m | m in Next(s, step).moduleTasks :: ModuleTaskOk(Next(s, step), Next(s, step).moduleTasks[m])
  {
    hide NewNode, Outranked, NodeTaskOk, Fresh, SafeStep, Copy, SortedTail, NodesOf;
    ModuleStepStore(s, step);
    var s' := Next(s, step);
    forall m | m in s'.moduleTasks ensures ModuleTaskOk(s', s'.moduleTasks[m]) {
      var t' := s'.moduleTasks[m];
      if step.ModuleList? && step.service == m && t'.Marking? {
        NewListingOk(s, s', t'.r, t'.listed, t'.queue);
      } else if t'.Marking? {
        assert m in s.moduleTasks && ModuleTaskOk(s, s.moduleTasks[m]);
        forall o | o in t'.queue ensures Copy(s', o) {
          assert o in s.moduleTasks[m].queue;
          CopiesSurvive(s, s', o);
        }
      }
    }
  }

  lemma StoredIsCopy(s: System, o: Obj)
    requires Good(s) && o.node.name in s.store && s.store[o.node.name] == o
    ensures Copy(s, o)
  {
    hide NodeTaskOk, ModuleTaskOk;
  }

  lemma ModuleStepKeepsGood(s: System, step: Step)
    requires Good(s) && Enabled(s, step) && IsModuleStep(step)
    ensures Good(Next(s, step))
  {
    hide Next, Enabled, ModuleTaskOk, SafeStep;
    var s' := Next(s, step);
    ModuleStepStore(s, step);
    ModuleTasksOk(s, step);
    forall k | k in s'.nodeTasks ensures NodeTaskOk(s', k, s'.nodeTasks[k]) {
      assert NodeTaskOk(s, k, s.nodeTasks[k]);
      MarkKept(s, step, s', k);
    }
  }

  lemma MarkKept(s: System, step: Step, s': System, k: string)
    requires SafeStep(s, step, s') && k in s.store && k in s'.store
    requires s'.store[k].node.status == s.store[k].node.status
    ensures P.Deletable(s.store[k].node) ==> P.Deletable(s'.store[k].node)
  {
    hide Outranked;
  }

  lemma NodeStepKeepsGood(s: System, step: Step)
    requires Good(s) && Enabled(s, step) && !IsModuleStep(step)
    ensures Good(Next(s, step))
  {
    hide Next, Enabled, Copy, Outranked, SafeStep, P.Deletable;
    var s' := Next(s, step);
    NodeStepStore(s, step);
    NodeStepTasks(s, step);
    NodeStepTask(s, step);
    forall k | k in s'.nodeTasks ensures NodeTaskOk(s', k, s'.nodeTasks[k]) {
      if !Acts(step, k) {
        assert NodeTaskOk(s, k, s.nodeTasks[k]);
      }
    }
    forall m | m in s'.moduleTasks ensures ModuleTaskOk(s', s'.moduleTasks[m]) {
      assert ModuleTaskOk(s, s.moduleTasks[m]);
      CopiesKeepTask(s, s', s.moduleTasks[m]);
    }
  }

  lemma CopiesKeepTask(s: System, s': System, t: ModuleTask)
    requires Fresh(s, s') && ModuleTaskOk(s, t)
    ensures ModuleTaskOk(s', t)
  {
    hide Copy, Outranked, Fresh;
    if t.Marking? {
      forall o | o in t.queue ensures Copy(s', o) {
        CopiesSurvive(s, s', o);
      }
    }
  }

  lemma StepKeepsGood(s: System, step: Step)
    requires Good(s) && Enabled(s, step)
    ensures Good(Next(s, step))
  {
    hide Good, Next;
    if IsModuleStep(step) {
      ModuleStepKeepsGood(s, step);
    } else {
      NodeStepKeepsGood(s, step);
    }
  }

  /* ---- whole runs ---- */

  /** A run starts with no call in flight and no node marked. */
  ghost predicate IsRun(states: seq<System>, steps: seq<Step>) {
    && |states| == |steps| + 1
    && Good(states[0]) && states[0].nodeTasks == map[] && states[0].moduleTasks == map[]
    && (forall k | k in states[0].store :: states[0].store[k].node.deletionDate == "")
    && forall i | 0 <= i < |steps| :: Enabled(states[i], steps[i]) && states[i + 1] == Next(states[i], steps[i])
  }

  lemma {:induction false} RunIsGood(states: seq<System>, steps: seq<Step>, i: nat)
    requires IsRun(states, steps) && i < |states|
    ensures Good(states[i])
  {
    hide Good, Next, Enabled;
    if i > 0 {
      RunIsGood(states, steps, i - 1);
      StepKeepsGood(states[i - 1], steps[i - 1]);
      assert states[i - 1 + 1] == Next(states[i - 1], steps[i - 1]);
    }
  }

  /** The listing a module is marking from is the node set of its service at an earlier
      moment of the run. */
  ghost predicate WasListed(states: seq<System>, i: nat, service: string, listed: set<Node>) {
    exists l :: 0 <= l <= i < |states| && NodesOf(states[l].store, service) == listed
  }

  lemma {:induction false} ListingsWereListed(states: seq<System>, steps: seq<Step>, i: nat, service: string)
    requires IsRun(states, steps) && i < |states|
    requires service in states[i].moduleTasks && states[i].moduleTasks[service].Marking?
    ensures WasListed(states, i, service, states[i].moduleTasks[service].listed)
  {
    hide Good, NodeNext, NodesOf;
    if i > 0 {
      var before, step := states[i - 1], steps[i - 1];
      assert states[i - 1 + 1] == Next(before, step) && Enabled(before, step);
      if service in before.moduleTasks && before.moduleTasks[service].Marking?
         && before.moduleTasks[service].listed == states[i].moduleTasks[service].listed {
        ListingsWereListed(states, steps, i - 1, service);
      } else {
        ListingStarts(before, step, service);
        assert NodesOf(before.store, service) == states[i].moduleTasks[service].listed;
      }
    }
  }

  lemma ListingStarts(s: System, step: Step, service: string)
    requires Enabled(s, step) && service in Next(s, step).moduleTasks && Next(s, step).moduleTasks[service].Marking?
    requires !(service in s.moduleTasks && s.moduleTasks[service].Marking?
               && s.moduleTasks[service].listed == Next(s, step).moduleTasks[service].listed)
    ensures Next(s, step).moduleTasks[service].listed == NodesOf(s.store, service)
  {
    hide NewNode, NodesOf, SortedTail, P.Observed, P.Deletable;
  }

  /** Step `j` set the mark that `key` carries at time `i`: the object was unmarked and at
      the head of a marking pass, a listing taken earlier in the run held at least R other
      nodes of that service whose sort key is no larger, and from then on the object has
      stayed stored with one and the same date. */
  ghost predicate MarksRightly(states: seq<System>, steps: seq<Step>, j: nat, i: nat, key: string) {
    && j < i < |states| == |steps| + 1 && steps[j].ModuleMark?
    && steps[j].service in states[j].moduleTasks && key in states[j].store
    && states[j].store[key].node.deletionDate == ""
    && (var t := states[j].moduleTasks[steps[j].service];
        && t.Marking? && t.queue != [] && t.queue[0].node == states[j].store[key].node
        && Outranked(t.listed, t.r, t.queue[0].node)
        && WasListed(states, j, steps[j].service, t.listed))
    && MarkedBy(states, j, i, key)
  }

  ghost predicate MarkedBy(states: seq<System>, j: nat, i: nat, key: string)
    requires j < i < |states|
  {
    forall k | j < k <= i :: key in states[k].store && key in states[i].store
      && states[k].store[key].node.deletionDate == states[i].store[key].node.deletionDate != ""
  }

  lemma {:induction false} MarksHaveReasons(states: seq<System>, steps: seq<Step>, i: nat, key: string) returns (j: nat)
    requires IsRun(states, steps) && i < |states|
    requires key in states[i].store && states[i].store[key].node.deletionDate != ""
    ensures MarksRightly(states, steps, j, i, key)
  {
    hide Good, Next, Enabled, Outranked, WasListed, P.Deletable;
    if i > 0 {
      var before, step := states[i - 1], steps[i - 1];
      assert states[i - 1 + 1] == Next(before, step) && Enabled(before, step);
      RunIsGood(states, steps, i - 1);
      StepIsSafe(before, step);
      if key in before.store && before.store[key].node.deletionDate != "" {
        j := MarksHaveReasons(states, steps, i - 1, key);
      } else {
        ListingsWereListed(states, steps, i - 1, step.service);
        j := i - 1;
      }
    }
  }

  /** A mark stays as it was set for as long as the object exists. */
  lemma {:induction false} MarksLast(states: seq<System>, steps: seq<Step>, i: nat, k: nat, key: string)
    requires IsRun(states, steps) && i <= k < |states|
    requires forall t | i <= t <= k :: key in states[t].store
    requires states[i].store[key].node.deletionDate != ""
    ensures states[k].store[key].node.deletionDate == states[i].store[key].node.deletionDate
  {
    hide Good, Next, Enabled, Outranked, P.Deletable;
    if i < k {
      MarksLast(states, steps, i, k - 1, key);
      RunIsGood(states, steps, k - 1);
      StepIsSafe(states[k - 1], steps[k - 1]);
      assert states[k - 1 + 1] == Next(states[k - 1], steps[k - 1]);
    }
  }

  /* ---- where the ID of a missing machine comes from ---- */

  /** Consul did not know the machine, or gave it that very ID. */
  predicate SawGone(seen: P.Observation) {
    seen.NoMachine? || (seen.Machine? && seen.properties.id == GONE)
  }

  /** A pending reconcile is about to store the ID of a missing machine. */
  ghost predicate StoresGone(s: System, key: string) {
    && key in s.nodeTasks
    && var t := s.nodeTasks[key];
       (t.Comparing? || t.Writing? || t.Creating?) && t.desired.status.properties.id == GONE
  }

  /** At step `g` the node controller looked for the machine in vain, and the object has
      been stored from then on. */
  ghost predicate LookedInVain(states: seq<System>, steps: seq<Step>, g: nat, i: nat, key: string) {
    && g < i < |states| == |steps| + 1
    && steps[g].NodeObserve? && steps[g].key == key && SawGone(steps[g].seen)
    && forall k | g <= k <= i :: key in states[k].store
  }

  /** The ID was stored before the run began and has not changed. */
  ghost predicate GoneFromStart(states: seq<System>, i: nat, key: string) {
    && i < |states|
    && forall k | 0 <= k <= i ::
         key in states[k].store && states[k].store[key].node.status.properties.id == GONE
  }

  lemma OwnTaskComesFrom(s: System, step: Step)
    requires Enabled(s, step) && !IsModuleStep(step) && StoresGone(Next(s, step), step.key)
    ensures StoresGone(s, step.key) || (step.NodeObserve? && SawGone(step.seen))
  {
    assert |"consul-connection-error"| != |GONE|;
  }

  lemma TaskStored(s: System, key: string)
    requires Good(s) && StoresGone(s, key)
    ensures key in s.store
  {
    hide ModuleTaskOk;
    assert NodeTaskOk(s, key, s.nodeTasks[key]);
  }

  lemma LookingStored(s: System, step: Step)
    requires Good(s) && Enabled(s, step) && step.NodeObserve?
    ensures step.key in s.store
  {
    hide ModuleTaskOk;
    assert NodeTaskOk(s, step.key, s.nodeTasks[step.key]);
  }

  lemma TaskComesFrom(s: System, step: Step, key: string)
    requires Good(s) && Enabled(s, step) && StoresGone(Next(s, step), key)
    ensures StoresGone(s, key) || (step.NodeObserve? && step.key == key && SawGone(step.seen))
    ensures key in s.store && key in Next(s, step).store
  {
    hide Good, Next, Enabled, SafeStep, Fresh;
    StepKeepsGood(s, step);
    TaskStored(Next(s, step), key);
    if IsModuleStep(step) {
      ModuleStepStore(s, step);
    } else {
      NodeStepTasks(s, step);
      if Acts(step, key) {
        OwnTaskComesFrom(s, step);
      }
    }
    if StoresGone(s, key) {
      TaskStored(s, key);
    } else {
      LookingStored(s, step);
    }
  }

  lemma StatusComesFrom(s: System, step: Step, key: string)
    requires Good(s) && Enabled(s, step) && key in Next(s, step).store
    ensures var status := Next(s, step).store[key].node.status;
      || (key in s.store && s.store[key].node.status == status)
      || (key !in s.store && status == NO_STATUS)
      || (step == NodeWrite(key) && key in s.store && s.nodeTasks[key].Writing?
          && status == s.nodeTasks[key].desired.status)
  {
    hide ModuleTaskOk, Outranked, SortedTail, NodesOf, Generated, NodeName, P.Observed;
    if IsModuleStep(step) {
      NewStatus(s, step);
    } else {
      assert step.key in s.nodeTasks ==> NodeTaskOk(s, step.key, s.nodeTasks[step.key]);
    }
  }

  lemma NewStatus(s: System, step: Step)
    requires Good(s) && Enabled(s, step) && IsModuleStep(step)
    ensures forall k | k in Next(s, step).store && k !in s.store :: Next(s, step).store[k].node.status == NO_STATUS
    ensures forall k | k in s.store ::
      k in Next(s, step).store && Next(s, step).store[k].node.status == s.store[k].node.status
  {
    hide Outranked, NodeTaskOk, SortedTail, NodesOf, Generated, NodeName, ModuleTaskOk, SafeStep;
    ModuleStepStore(s, step);
  }

  lemma {:induction false} TaskLooked(states: seq<System>, steps: seq<Step>, k: nat, key: string) returns (g: nat)
    requires IsRun(states, steps) && k < |states| && StoresGone(states[k], key)
    ensures LookedInVain(states, steps, g, k, key)
  {
    hide Good, Next, Enabled, StoresGone;
    if k == 0 {
      NoTasksAtStart(states, steps, key);
      assert false;
    } else {
      RunIsGood(states, steps, k - 1);
      assert states[k - 1 + 1] == Next(states[k - 1], steps[k - 1]);
      TaskComesFrom(states[k - 1], steps[k - 1], key);
      if StoresGone(states[k - 1], key) {
        g := TaskLooked(states, steps, k - 1, key);
      } else {
        g := k - 1;
      }
    }
  }

  lemma NoTasksAtStart(states: seq<System>, steps: seq<Step>, key: string)
    requires IsRun(states, steps)
    ensures !StoresGone(states[0], key)
  {
    hide Good, Next, Enabled;
  }

  /** Whoever has the ID of a missing machine stored was looked for in vain. */
  lemma {:induction false} GoneWasLookedFor(states: seq<System>, steps: seq<Step>, i: nat, key: string) returns (g: nat)
    requires IsRun(states, steps) && i < |states|
    requires key in states[i].store && states[i].store[key].node.status.properties.id == GONE
    ensures GoneFromStart(states, i, key) || LookedInVain(states, steps, g, i, key)
  {
    hide Good, Next, Enabled;
    g := 0;
    if i > 0 {
      var before, step := states[i - 1], steps[i - 1];
      RunIsGood(states, steps, i - 1);
      assert states[i - 1 + 1] == Next(before, step);
      StatusComesFrom(before, step, key);
      if key in before.store && before.store[key].node.status.properties.id == GONE {
        g := GoneWasLookedFor(states, steps, i - 1, key);
      } else {
        NotTheEmptyId();
        assert StoresGone(before, key) by { WritingStores(before, key); }
        g := TaskLooked(states, steps, i - 1, key);
      }
    }
  }

  lemma NotTheEmptyId()
    ensures NO_STATUS.properties.id != GONE
  {
    assert |NO_STATUS.properties.id| != |GONE|;
  }

  lemma WritingStores(s: System, key: string)
    requires Enabled(s, NodeWrite(key)) && s.nodeTasks[key].desired.status.properties.id == GONE
    ensures StoresGone(s, key)
  {
  }

  /** Deletion safety over every run: an object disappears only through the guarded Delete
      of the node controller, while it is marked and its stored ID is the one of a missing
      machine; the mark was set for the right reason, and the ID because the machine had
      been looked for in vain, unless it was stored from the start. */
  lemma DeletionIsSafe(states: seq<System>, steps: seq<Step>, i: nat, key: string) returns (j: nat, g: nat)
    requires IsRun(states, steps) && i < |steps|
    requires key in states[i].store && key !in states[i + 1].store
    ensures steps[i] == NodeDelete(key)
    ensures var n := states[i].store[key].node; n.deletionDate != "" && n.status.properties.id == GONE
    ensures MarksRightly(states, steps, j, i, key)
    ensures GoneFromStart(states, i, key) || LookedInVain(states, steps, g, i, key)
  {
    hide Good, Next, Enabled, Outranked, MarksRightly, GoneFromStart, LookedInVain;
    RunIsGood(states, steps, i);
    StepIsSafe(states[i], steps[i]);
    assert states[i + 1] == Next(states[i], steps[i]);
    j := MarksHaveReasons(states, steps, i, key);
    g := GoneWasLookedFor(states, steps, i, key);
  }

  /** The create at the end of a node reconcile never creates anything. */
  lemma FallbackCreateFails(states: seq<System>, steps: seq<Step>, i: nat, key: string)
    requires IsRun(states, steps) && i < |steps| && steps[i] == NodeCreate(key)
    ensures key in states[i].store && states[i + 1].store == states[i].store
  {
    hide ModuleTaskOk;
    RunIsGood(states, steps, i);
    assert NodeTaskOk(states[i], key, states[i].nodeTasks[key]);
    assert states[i + 1] == Next(states[i], steps[i]) && Enabled(states[i], steps[i]);
  }
}

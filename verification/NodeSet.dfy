/** The node objects of a service: their names, and what one node-management pass of the
    module controller does to them. */
module NodeSet {
  import opened Sets
  import opened Decimal
  import opened Model
  import opened NodeUtils

  type Nodes = map<string, Node>

  /* ---- names ---- */

  function NodeName(service: string, i: nat): string {
    service + "-node-" + Print(i)
  }

  function TrailingDigits(s: string): (r: string)
    ensures AllDigits(r)
  {
    if s == [] || !IsDigit(s[|s| - 1]) then [] else TrailingDigits(s[..|s| - 1]) + [s[|s| - 1]]
  }

  /** The number at the end of an object name. */
  function Index(name: string): nat {
    Value(TrailingDigits(name))
  }

  lemma {:induction false} TrailingDigitsOf(p: string, d: string)
    requires p != [] && !IsDigit(p[|p| - 1]) && AllDigits(d)
    ensures TrailingDigits(p + d) == d
  {
    if d == [] {
      assert p + d == p;
    } else {
      assert (p + d)[..|p + d| - 1] == p + d[..|d| - 1];
      TrailingDigitsOf(p, d[..|d| - 1]);
    }
  }

  lemma IndexOfNodeName(service: string, i: nat)
    ensures Index(NodeName(service, i)) == i
  {
    PrintIsDecimal(i);
    TrailingDigitsOf(service + "-node-", Print(i));
  }

  /** No two pairs of service and index share an object name. */
  lemma NodeNameInjective(s: string, i: nat, t: string, j: nat)
    requires NodeName(s, i) == NodeName(t, j)
    ensures s == t && i == j
  {
    assert NodeName(s, i) == (s + "-node") + "-" + Print(i);
    assert NodeName(t, j) == (t + "-node") + "-" + Print(j);
    DashSplit(s + "-node", i, t + "-node", j);
    assert (s + "-node")[..|s|] == s && (t + "-node")[..|t|] == t;
  }

  predicate EndsWith(s: string, t: string) {
    |t| <= |s| && s[|s| - |t|..] == t
  }

  /** A node as the module controller creates it: object name and hostname end in the
      same index. Marking and status updates keep this. */
  predicate Generated(n: Node) {
    n.name == NodeName(n.service, Index(n.name)) && EndsWith(n.hostname, "-" + Print(Index(n.name)))
  }

  /** The part of a generated hostname before its index. */
  function Prefix(n: Node): (p: string)
    requires Generated(n)
    ensures n.hostname == p + Print(Index(n.name)) && p != [] && p[|p| - 1] == '-'
  {
    var t := "-" + Print(Index(n.name));
    assert n.hostname == n.hostname[..|n.hostname| - |t|] + "-" + Print(Index(n.name));
    n.hostname[..|n.hostname| - |t|] + "-"
  }

  /** Generated, and the sort key of the hostname is the index. */
  predicate Plain(n: Node) {
    Generated(n) && DigitFree(Prefix(n)) && Index(n.name) <= MAX_INT
  }

  lemma PlainKey(n: Node)
    requires Plain(n)
    ensures HostnameKey(n.hostname) == Key(Index(n.name)) && KeyNumber(n) == Index(n.name)
  {
    KeyIsIndexIff(Prefix(n));
  }

  ghost predicate WellKeyed(nodes: Nodes) {
    forall k | k in nodes :: nodes[k].name == k && Generated(nodes[k])
  }

  ghost function ServiceNodes(nodes: Nodes, service: string): set<Node> {
    set k | k in nodes && nodes[k].service == service :: nodes[k]
  }

  ghost function ServiceNames(nodes: Nodes, service: string): set<string> {
    set k | k in nodes && nodes[k].service == service
  }

  ghost function Names(all: set<Node>): set<string> {
    set n | n in all :: n.name
  }

  /** Node objects are told apart by their names. */
  ghost predicate UniqueNames(all: set<Node>) {
    forall a, b | a in all && b in all && a.name == b.name :: a == b
  }

  lemma {:induction false} NamesCardinality(all: set<Node>)
    requires UniqueNames(all)
    ensures |Names(all)| == |all|
    decreases all
  {
    if all != {} {
      var n :| n in all;
      NamesCardinality(all - {n});
      assert Names(all) == Names(all - {n}) + {n.name};
    }
  }

  lemma ServiceNodesFacts(nodes: Nodes, service: string)
    requires WellKeyed(nodes)
    ensures UniqueNames(ServiceNodes(nodes, service))
    ensures Names(ServiceNodes(nodes, service)) == ServiceNames(nodes, service)
    ensures |ServiceNodes(nodes, service)| == |ServiceNames(nodes, service)|
  {
    var all := ServiceNodes(nodes, service);
    assert forall k | k in ServiceNames(nodes, service) :: nodes[k] in all && nodes[k].name in Names(all);
    NamesCardinality(all);
  }

  /** Two nodes of one service never share a hostname, whatever prefixes they got. */
  lemma HostnamesUnique(a: Node, b: Node)
    requires Generated(a) && Generated(b) && a.service == b.service && a.hostname == b.hostname
    ensures a.name == b.name
  {
    var p, q := Prefix(a), Prefix(b);
    assert p == p[..|p| - 1] + "-" && q == q[..|q| - 1] + "-";
    DashSplit(p[..|p| - 1], Index(a.name), q[..|q| - 1], Index(b.name));
  }

  /** An object that already holds a name this service generates is this service's own. */
  lemma NameTakenByOwn(nodes: Nodes, service: string, i: nat)
    requires WellKeyed(nodes) && NodeName(service, i) in nodes
    ensures nodes[NodeName(service, i)].service == service
  {
    var n := nodes[NodeName(service, i)];
    NodeNameInjective(service, i, n.service, Index(n.name));
  }

  /* ---- the first R names ---- */

  ghost function LowNames(service: string, r: nat): set<string> {
    set i | 0 <= i < r :: NodeName(service, i)
  }

  lemma LowNamesStep(service: string, r: nat)
    ensures LowNames(service, 0) == {}
    ensures r > 0 ==> LowNames(service, r) == LowNames(service, r - 1) + {NodeName(service, r - 1)}
  {
    hide NodeName;
  }

  lemma {:induction false} LowNamesCardinality(service: string, r: nat)
    ensures |LowNames(service, r)| == r
  {
    LowNamesStep(service, r);
    if r > 0 {
      LowNamesCardinality(service, r - 1);
      if NodeName(service, r - 1) in LowNames(service, r - 1) {
        var i :| 0 <= i < r - 1 && NodeName(service, r - 1) == NodeName(service, i);
        NodeNameInjective(service, r - 1, service, i);
      }
    }
  }

  lemma LowNameIff(n: Node, r: nat)
    requires Generated(n)
    ensures n.name in LowNames(n.service, r) <==> Index(n.name) < r
  {
    if n.name in LowNames(n.service, r) {
      var i :| 0 <= i < r && n.name == NodeName(n.service, i);
      IndexOfNodeName(n.service, i);
    }
  }

  /* ---- growing ---- */

  /** The node object created for index `i`; `stem` is the hostname without "-i". */
  function NewNode(service: string, stem: string, i: nat): (n: Node)
    ensures Generated(n) && Index(n.name) == i && n.name == NodeName(service, i)
    ensures DigitFree(stem) && i <= MAX_INT ==> Plain(n)
  {
    IndexOfNodeName(service, i);
    var n := Node(NodeName(service, i), service, stem + "-" + Print(i), "", NO_STATUS);
    var t := "-" + Print(i);
    assert n.hostname == stem + t && n.hostname[|n.hostname| - |t|..] == t;
    assert n.hostname[..|n.hostname| - |t|] == stem;
    n
  }

  /** Create for the indices 0..r-1, an existing object being left alone. */
  function Grown(nodes: Nodes, service: string, stem: string, r: nat): Nodes {
    if r == 0 then nodes
    else
      var before := Grown(nodes, service, stem, r - 1);
      var name := NodeName(service, r - 1);
      if name in before then before else before[name := NewNode(service, stem, r - 1)]
  }

  ghost predicate Extends(nodes: Nodes, g: Nodes, service: string, stem: string, low: set<string>) {
    && g.Keys == nodes.Keys + low
    && (forall k | k in nodes :: g[k] == nodes[k])
    && (forall k | k in g && k !in nodes :: g[k] == NewNode(service, stem, Index(k)) && g[k].name == k)
  }

  lemma ExtendsByOne(nodes: Nodes, before: Nodes, service: string, stem: string, low: set<string>, i: nat)
    requires Extends(nodes, before, service, stem, low)
    ensures var name := NodeName(service, i);
      var after := if name in before then before else before[name := NewNode(service, stem, i)];
      Extends(nodes, after, service, stem, low + {name})
  {
    hide Index, Generated, Plain, Print, NodeName, NewNode;
    IndexOfNodeName(service, i);
  }

  /** The loop of the grow pass, one index further. */
  lemma GrownStep(nodes: Nodes, service: string, stem: string, i: nat)
    ensures Grown(nodes, service, stem, 0) == nodes
    ensures var before, name := Grown(nodes, service, stem, i), NodeName(service, i);
      Grown(nodes, service, stem, i + 1) ==
        if name in before then before else before[name := NewNode(service, stem, i)]
    ensures NewNode(service, stem, i).name == NodeName(service, i)
  {
    hide NewNode, NodeName;
  }

  lemma ExtendsNothing(nodes: Nodes, service: string, stem: string)
    ensures Extends(nodes, nodes, service, stem, {})
  {
    hide NewNode, Index;
  }

  lemma {:induction false} GrownStored(nodes: Nodes, service: string, stem: string, r: nat)
    ensures Extends(nodes, Grown(nodes, service, stem, r), service, stem, LowNames(service, r))
  {
    hide LowNames, NewNode, NodeName, Grown, Extends;
    LowNamesStep(service, r);
    if r == 0 {
      GrownStep(nodes, service, stem, 0);
      ExtendsNothing(nodes, service, stem);
    } else {
      GrownStored(nodes, service, stem, r - 1);
      GrownStep(nodes, service, stem, r - 1);
      ExtendsByOne(nodes, Grown(nodes, service, stem, r - 1), service, stem, LowNames(service, r - 1), r - 1);
    }
  }

  /** A grow pass adds exactly the missing indices below R to this service and touches
      nothing that was stored, whichever service it belongs to. */
  lemma GrownExactly(nodes: Nodes, service: string, stem: string, r: nat)
    requires WellKeyed(nodes)
    ensures var g := Grown(nodes, service, stem, r);
      && WellKeyed(g)
      && g.Keys == nodes.Keys + LowNames(service, r)
      && (forall k | k in nodes :: g[k] == nodes[k])
      && (forall k | k in g && k !in nodes :: g[k] == NewNode(service, stem, Index(k)))
      && ServiceNames(g, service) == ServiceNames(nodes, service) + LowNames(service, r)
      && (forall t | t != service :: ServiceNodes(g, t) == ServiceNodes(nodes, t))
  {
    hide Grown, Generated, Index, Print, NodeName;
    var g := Grown(nodes, service, stem, r);
    GrownStored(nodes, service, stem, r);
    forall k | k in LowNames(service, r) ensures k in ServiceNames(g, service) {
      if k in nodes {
        var i :| 0 <= i < r && k == NodeName(service, i);
        NameTakenByOwn(nodes, service, i);
      }
    }
    assert ServiceNames(g, service) == ServiceNames(nodes, service) + LowNames(service, r);
    forall t | t != service ensures ServiceNodes(g, t) == ServiceNodes(nodes, t) {
      forall k | k in g && g[k].service == t ensures k in nodes {}
    }
  }

  /* ---- marking ---- */

  /** What an ascending sort can leave after its first `r` places. */
  ghost predicate Victims(all: set<Node>, r: nat, victims: set<Node>) {
    && victims <= all
    && |victims| + r == |all|
    && forall v, k | v in victims && k in all - victims :: KeyNumber(k) <= KeyNumber(v)
  }

  lemma InTail(nodes: seq<Node>, r: nat, j: nat)
    requires r <= |nodes| && j < |nodes|
    ensures r <= j ==> nodes[j] in nodes[r..]
  {
  }

  /** The tail of any ascending listing is such a set. */
  lemma TailIsVictims(nodes: seq<Node>, all: set<Node>, r: nat)
    requires Lists(nodes, all) && Ascending(nodes) && r <= |nodes|
    ensures Victims(all, r, Elements(nodes[r..]))
  {
    var tail := Elements(nodes[r..]);
    ListingLength(nodes, all);
    assert NoDuplicates(nodes[r..]);
    ListingLength(nodes[r..], tail);
    forall v, k | v in tail && k in all - tail ensures KeyNumber(k) <= KeyNumber(v) {
      var i :| 0 <= i < |nodes[r..]| && nodes[r..][i] == v;
      var j :| 0 <= j < |nodes| && nodes[j] == k;
      InTail(nodes, r, j);
      assert nodes[r + i] == v;
    }
  }

  lemma {:induction false} VictimsExist(all: set<Node>, r: nat) returns (victims: set<Node>)
    requires r <= |all|
    ensures Victims(all, r, victims)
    decreases |all|
  {
    hide KeyNumber;
    if |all| == r {
      victims := {};
    } else {
      var m := Highest(all, KeyNumber);
      var rest := VictimsExist(all - {m}, r);
      victims := rest + {m};
      assert all - victims == (all - {m}) - rest;
    }
  }

  /** Update of every victim that is not marked yet. */
  function Marked(nodes: Nodes, victims: set<string>, now: string): Nodes {
    map k | k in nodes ::
      if k in victims && nodes[k].deletionDate == "" then nodes[k].(deletionDate := now) else nodes[k]
  }

  lemma MarkedFacts(nodes: Nodes, victims: set<string>, now: string)
    requires WellKeyed(nodes)
    ensures var m := Marked(nodes, victims, now);
      WellKeyed(m) && m.Keys == nodes.Keys && forall s :: ServiceNames(m, s) == ServiceNames(nodes, s)
  {
  }

  ghost predicate AllPlain(all: set<Node>) {
    forall n | n in all :: Plain(n)
  }

  /** Marks and status updates do not change the names that decide the order. */
  lemma PlainSurvives(n: Node, n': Node)
    requires n'.name == n.name && n'.service == n.service && n'.hostname == n.hostname
    ensures Generated(n') <==> Generated(n)
    ensures Plain(n') <==> Plain(n)
  {
    hide Print, Index, NodeName;
  }

  lemma MarkedPlain(nodes: Nodes, service: string, victims: set<string>, now: string)
    requires AllPlain(ServiceNodes(nodes, service))
    ensures AllPlain(ServiceNodes(Marked(nodes, victims, now), service))
  {
    hide Generated, Plain;
    var m := Marked(nodes, victims, now);
    forall k | k in m && m[k].service == service ensures Plain(m[k]) {
      assert nodes[k] in ServiceNodes(nodes, service);
      PlainSurvives(nodes[k], m[k]);
    }
  }

  /** With digit-free prefixes the victims are the highest indices and nothing else. */
  lemma VictimsAreTop(all: set<Node>, r: nat, victims: set<Node>)
    requires AllPlain(all) && Victims(all, r, victims)
    ensures forall v, k | v in victims && k in all - victims :: Index(k.name) <= Index(v.name)
  {
    forall n | n in all ensures KeyNumber(n) == Index(n.name) {
      PlainKey(n);
    }
  }

  lemma SameIndexSameNode(a: Node, b: Node)
    requires Generated(a) && Generated(b) && a.service == b.service && Index(a.name) == Index(b.name)
    ensures a.name == b.name
  {
  }

  /** With digit-free prefixes every ascending sort marks the same nodes. */
  lemma VictimsUnique(all: set<Node>, r: nat, v: set<Node>, w: set<Node>)
    requires AllPlain(all) && UniqueNames(all)
    requires forall a, b | a in all && b in all :: a.service == b.service
    requires Victims(all, r, v) && Victims(all, r, w)
    ensures v == w
  {
    VictimsAreTop(all, r, v);
    VictimsAreTop(all, r, w);
    forall a, b | a in v && b in w ensures a in w || b in v {
      hide Index, Generated, Plain;
      if a !in w && b !in v {
        SameIndexSameNode(a, b);
      }
    }
    if w <= v {
      SubsetSize(w, v);
    } else {
      SubsetSize(v, w);
    }
  }

  /** With a digit in a shared prefix all keys are equal, and any choice of the right
      size is one the sort can make. */
  lemma TiedVictims(all: set<Node>, prefix: string, r: nat, victims: set<Node>)
    requires prefix != [] && !IsDigit(prefix[|prefix| - 1]) && !DigitFree(prefix)
    requires forall n | n in all :: Generated(n) && Prefix(n) == prefix
    ensures Victims(all, r, victims) <==> victims <= all && |victims| + r == |all|
  {
    KeyIsIndexIff(prefix);
    forall n | n in all ensures HostnameKey(n.hostname) == HostnameKey(prefix) {
      assert n.hostname == prefix + Print(Index(n.name));
    }
  }

  /** A name below R that is there is never a victim when all names below R are there. */
  lemma LowIsKept(nodes: Nodes, service: string, r: nat, victims: set<Node>, v: Node)
    requires WellKeyed(nodes)
    requires AllPlain(ServiceNodes(nodes, service))
    requires Victims(ServiceNodes(nodes, service), r, victims)
    requires LowNames(service, r) <= ServiceNames(nodes, service)
    requires v in victims
    ensures v.name !in LowNames(service, r)
  {
    hide Index, Generated, Print, Plain, NodeName, KeyNumber;
    var all := ServiceNodes(nodes, service);
    var low := LowNames(service, r);
    var kept := all - victims;
    if v.name in low {
      ServiceNodesFacts(nodes, service);
      LowNamesCardinality(service, r);
      NamesCardinality(kept);
      assert |kept| == r by { assert kept + victims == all; }
      assert v.name !in Names(kept);
      if Names(kept) <= low {
        SubsetSize(Names(kept), low);
      }
      var k :| k in kept && k.name !in low;
      LowNameIff(v, r);
      LowNameIff(k, r);
      VictimsAreTop(all, r, victims);
      assert false;
    }
  }

  /** If the indices below R are all there, the victims are the names from R on. */
  lemma VictimsAboveLow(nodes: Nodes, service: string, r: nat, victims: set<Node>)
    requires WellKeyed(nodes)
    requires AllPlain(ServiceNodes(nodes, service))
    requires Victims(ServiceNodes(nodes, service), r, victims)
    requires LowNames(service, r) <= ServiceNames(nodes, service)
    ensures Names(victims) == ServiceNames(nodes, service) - LowNames(service, r)
  {
    hide Index, Generated, Print, Plain, NodeName, KeyNumber;
    var names, low := ServiceNames(nodes, service), LowNames(service, r);
    forall name | name in Names(victims) ensures name in names - low {
      var v :| v in victims && v.name == name;
      LowIsKept(nodes, service, r, victims, v);
    }
    ServiceNodesFacts(nodes, service);
    NamesCardinality(victims);
    LowNamesCardinality(service, r);
    assert |names - low| == |names| - r by { assert (names - low) + low == names; }
    SubsetSize(Names(victims), names - low);
  }

  lemma NamesWithin(nodes: Nodes, service: string, kept: set<string>, inside: set<Node>)
    requires WellKeyed(nodes) && kept <= ServiceNames(nodes, service)
    requires inside == set n | n in ServiceNodes(nodes, service) && n.name in kept
    ensures Names(inside) == kept && UniqueNames(inside)
  {
    hide Generated;
    forall k | k in kept ensures k in Names(inside) {
      assert nodes[k] in ServiceNodes(nodes, service);
    }
  }

  /** The nodes outside a set of names, counted. */
  lemma OutsideSize(nodes: Nodes, service: string, kept: set<string>, w: set<Node>)
    requires WellKeyed(nodes) && kept <= ServiceNames(nodes, service)
    requires w == set n | n in ServiceNodes(nodes, service) && n.name !in kept
    ensures |w| + |kept| == |ServiceNodes(nodes, service)|
  {
    hide WellKeyed, ServiceNodes, ServiceNames, Names, UniqueNames;
    var all := ServiceNodes(nodes, service);
    var inside := set n | n in all && n.name in kept;
    NamesWithin(nodes, service, kept, inside);
    NamesCardinality(inside);
    assert w + inside == all;
  }
}

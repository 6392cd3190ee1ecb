/** pkg/utils/node.go */
module NodeUtils {
  import opened Decimal
  import opened Model

  /* ---- what is meant, in terms of the stored status ---- */

  /** Consul knows a machine under the stored ID. */
  predicate HasMachine(node: Node) {
    node.status.properties.id !in {"", GONE}
  }

  /** A machine that is up: known, with image and flavor, and no check that does not pass. */
  predicate Works(node: Node) {
    && HasMachine(node)
    && "" !in {node.status.properties.image, node.status.properties.flavor}
    && !exists c :: c in node.status.healthChecks && c.status != "passing"
  }

  /** Up, on this image and flavor. */
  predicate WorksOn(node: Node, image: string, flavor: string) {
    Works(node) && node.status.properties.image == image && node.status.properties.flavor == flavor
  }

  /* ---- what the code computes ---- */

  predicate EqNodeImage(node: Node, image: string) {
    node.status.properties.image == image
  }

  predicate EqNodeFlavor(node: Node, flavor: string) {
    node.status.properties.flavor == flavor
  }

  /** A machine with this ID is known to Consul. */
  predicate NodeExists(node: Node) {
    node.status.properties.id != "" && node.status.properties.id != GONE
  }

  /** What GetNodesCount counts: unlike NodeExists it accepts an empty ID. */
  predicate NodeCounted(node: Node) {
    node.status.properties.id != GONE
  }

  predicate NodeIsHealthy(node: Node) {
    && NodeExists(node)
    && (forall k | 0 <= k < |node.status.healthChecks| :: node.status.healthChecks[k].status == "passing")
    && node.status.properties.image != "" && node.status.properties.flavor != ""
  }

  /** The code's test finds exactly the machines that are up. */
  lemma HealthyIsUp(node: Node)
    ensures NodeExists(node) <==> HasMachine(node)
    ensures NodeIsHealthy(node) <==> Works(node)
  {
    var checks := node.status.healthChecks;
    if c :| c in checks && c.status != "passing" {
      var k :| 0 <= k < |checks| && checks[k] == c;
    }
  }

  lemma HealthyAreUp()
    ensures forall n :: NodeExists(n) == HasMachine(n) && NodeIsHealthy(n) == Works(n)
  {
    forall n ensures NodeExists(n) == HasMachine(n) && NodeIsHealthy(n) == Works(n) {
      HealthyIsUp(n);
    }
  }

  /* ---- counting over a list ---- */

  function Count(p: Node -> bool, nodes: seq<Node>): nat {
    if nodes == [] then 0
    else Count(p, nodes[..|nodes| - 1]) + if p(nodes[|nodes| - 1]) then 1 else 0
  }

  lemma CountStep(p: Node -> bool, nodes: seq<Node>, i: nat)
    requires i < |nodes|
    ensures Count(p, nodes[..i + 1]) == Count(p, nodes[..i]) + if p(nodes[i]) then 1 else 0
  {
    assert nodes[..i + 1][..i] == nodes[..i];
  }

  predicate NoDuplicates<T(==)>(s: seq<T>) {
    forall i, j | 0 <= i < j < |s| :: s[i] != s[j]
  }

  ghost function Elements(nodes: seq<Node>): set<Node> {
    set n | n in nodes
  }

  /** A listing of a set: each element once, in any order. */
  ghost predicate Lists(nodes: seq<Node>, all: set<Node>) {
    NoDuplicates(nodes) && Elements(nodes) == all
  }

  ghost function Matching(p: Node -> bool, nodes: seq<Node>): set<Node> {
    set n | n in nodes && p(n)
  }

  lemma MatchingStep(p: Node -> bool, nodes: seq<Node>)
    requires NoDuplicates(nodes) && nodes != []
    ensures var k := |nodes| - 1;
      && NoDuplicates(nodes[..k]) && nodes[k] !in Matching(p, nodes[..k])
      && Matching(p, nodes) == Matching(p, nodes[..k]) + if p(nodes[k]) then {nodes[k]} else {}
  {
    var k := |nodes| - 1;
    assert nodes == nodes[..k] + [nodes[k]];
  }

  lemma {:induction false} CountIsCardinality(p: Node -> bool, nodes: seq<Node>)
    requires NoDuplicates(nodes)
    ensures Count(p, nodes) == |Matching(p, nodes)|
  {
    if nodes != [] {
      MatchingStep(p, nodes);
      hide Matching, NoDuplicates;
      CountIsCardinality(p, nodes[..|nodes| - 1]);
    }
  }

  lemma ListingLength(nodes: seq<Node>, all: set<Node>)
    requires Lists(nodes, all)
    ensures |nodes| == |all|
  {
    var p := AnyNode;
    CountIsCardinality(p, nodes);
    CountAll(nodes);
    assert Matching(p, nodes) == all;
  }

  lemma {:induction false} ListingExists(all: set<Node>) returns (nodes: seq<Node>)
    ensures Lists(nodes, all)
    decreases all
  {
    if all == {} {
      nodes := [];
    } else {
      var n :| n in all;
      var rest := ListingExists(all - {n});
      nodes := rest + [n];
      assert n !in Elements(rest);
      assert forall x :: x in rest ==> x in Elements(rest);
      assert Elements(nodes) == Elements(rest) + {n};
    }
  }

  predicate AnyNode(node: Node) {
    true
  }

  lemma {:induction false} CountAll(nodes: seq<Node>)
    ensures Count(AnyNode, nodes) == |nodes|
  {
    if nodes != [] {
      CountAll(nodes[..|nodes| - 1]);
    }
  }

  method GetNodesCount(nodes: seq<Node>) returns (count: nat)
    ensures count == Count(NodeCounted, nodes)
  {
    count := 0;
    for i := 0 to |nodes|
      invariant count == Count(NodeCounted, nodes[..i])
    {
      CountStep(NodeCounted, nodes, i);
      if nodes[i].status.properties.id != GONE {
        count := count + 1;
      }
    }
    assert nodes[..|nodes|] == nodes;
  }

  /* ---- consistency ---- */

  /** The first healthy node of a list, or the zero node. */
  function FirstHealthy(nodes: seq<Node>): (h: Node)
    ensures h == NO_NODE || (h in nodes && NodeIsHealthy(h))
    ensures (exists n :: n in nodes && NodeIsHealthy(n)) <==> h in nodes && NodeIsHealthy(h)
  {
    if nodes == [] then NO_NODE
    else if NodeIsHealthy(nodes[0]) then nodes[0]
    else FirstHealthy(nodes[1..])
  }

  /** No existing node with another hostname differs from `h` in image or flavor. */
  predicate ConsistentWith(h: Node, nodes: seq<Node>) {
    forall n | n in nodes && n.hostname != h.hostname && NodeExists(n) ::
      n.status.properties.flavor == h.status.properties.flavor && n.status.properties.image == h.status.properties.image
  }

  method NodesAreConsistent(nodes: seq<Node>) returns (consistent: bool, healthyNode: Node)
    ensures healthyNode == FirstHealthy(nodes)
    ensures consistent <==> healthyNode.status.properties.node == "" || ConsistentWith(healthyNode, nodes)
  {
    healthyNode := NO_NODE;
    for i := 0 to |nodes|
      invariant healthyNode == NO_NODE
      invariant FirstHealthy(nodes) == FirstHealthy(nodes[i..])
    {
      if NodeIsHealthy(nodes[i]) {
        healthyNode := nodes[i];
        break;
      }
    }
    if healthyNode.status.properties.node == "" {
      return true, healthyNode;
    }
    for i := 0 to |nodes|
      invariant ConsistentWith(healthyNode, nodes[..i])
    {
      assert nodes[..i + 1] == nodes[..i] + [nodes[i]];
      if nodes[i].hostname == healthyNode.hostname {
        continue;
      }
      if !NodeExists(nodes[i]) {
        continue;
      }
      if !EqNodeFlavor(healthyNode, nodes[i].status.properties.flavor)
      || !EqNodeImage(healthyNode, nodes[i].status.properties.image) {
        assert nodes[i] in nodes;
        return false, healthyNode;
      }
    }
    assert nodes[..|nodes|] == nodes;
    return true, healthyNode;
  }

  /* ---- sorting ---- */

  /** The number the comparison sees; Atoi hands back MAX_INT beside its range error. */
  function KeyNumber(node: Node): nat {
    match HostnameKey(node.hostname)
    case Key(n) => n
    case OutOfRange => MAX_INT
    case NoDigits => 0
  }

  /** The first `n` nodes have a hostname the comparison can parse. */
  predicate SortableTo(nodes: seq<Node>, n: nat) {
    n <= |nodes| && forall k | 0 <= k < n :: HostnameKey(nodes[k].hostname).Key?
  }

  predicate Sortable(nodes: seq<Node>) {
    SortableTo(nodes, |nodes|)
  }

  predicate AscendingTo(nodes: seq<Node>, n: nat) {
    n <= |nodes| && forall i, j | 0 <= i < j < n :: KeyNumber(nodes[i]) <= KeyNumber(nodes[j])
  }

  predicate Ascending(nodes: seq<Node>) {
    AscendingTo(nodes, |nodes|)
  }

  /** The first `n` nodes ascend but for the one at `j`, which is below all that follow it. */
  ghost predicate Sinking(nodes: seq<Node>, j: nat, n: nat) {
    j < n <= |nodes| && forall p, q | 0 <= p < q < n && q != j :: KeyNumber(nodes[p]) <= KeyNumber(nodes[q])
  }

  function Swapped(s: seq<Node>, j: nat): (r: seq<Node>)
    requires 0 < j < |s|
    ensures |r| == |s|
  {
    s[j - 1 := s[j]][j := s[j - 1]]
  }

  lemma SinkOnce(s: seq<Node>, j: nat, n: nat)
    requires Sinking(s, j, n) && 0 < j && KeyNumber(s[j]) < KeyNumber(s[j - 1]) && SortableTo(s, n)
    ensures Sinking(Swapped(s, j), j - 1, n) && SortableTo(Swapped(s, j), n)
  {
    var t := Swapped(s, j);
    forall p, q | 0 <= p < q < n && q != j - 1 ensures KeyNumber(t[p]) <= KeyNumber(t[q]) {
      var p' := if p == j - 1 then j else if p == j then j - 1 else p;
      var q' := if q == j then j - 1 else q;
      assert t[p] == s[p'] && t[q] == s[q'];
    }
  }

  lemma Sunk(s: seq<Node>, j: nat, n: nat)
    requires Sinking(s, j, n) && (j == 0 || KeyNumber(s[j - 1]) <= KeyNumber(s[j]))
    ensures AscendingTo(s, n)
  {
    forall p, q | 0 <= p < q < n ensures KeyNumber(s[p]) <= KeyNumber(s[q]) {
      if q == j {
        assert p == j - 1 || KeyNumber(s[p]) <= KeyNumber(s[j - 1]);
      }
    }
  }

  datatype SortResult = Sorted | RangeError | IndexPanic

  ghost predicate HasKey(nodes: seq<Node>, key: SortKey) {
    exists k :: 0 <= k < |nodes| && HostnameKey(nodes[k].hostname) == key
  }

  method Swap(nodes: array<Node>, j: nat)
    requires 0 < j < nodes.Length
    modifies nodes
    ensures nodes[..] == Swapped(old(nodes[..]), j)
    ensures multiset(nodes[..]) == old(multiset(nodes[..]))
  {
    nodes[j - 1], nodes[j] := nodes[j], nodes[j - 1];
  }

  /** One comparison of neighbours, with the parse errors of either hostname. */
  method Less(nodes: array<Node>, j: nat) returns (r: SortResult, less: bool)
    requires 0 < j < nodes.Length
    ensures less <==> KeyNumber(nodes[j]) < KeyNumber(nodes[j - 1])
    ensures r == Sorted ==> HostnameKey(nodes[j].hostname).Key? && HostnameKey(nodes[j - 1].hostname).Key?
    ensures r == RangeError ==> HasKey(nodes[..], OutOfRange)
    ensures r == IndexPanic ==> HasKey(nodes[..], NoDigits)
  {
    var a, b := HostnameKey(nodes[j].hostname), HostnameKey(nodes[j - 1].hostname);
    ghost var s := nodes[..];
    assert nodes[j] == s[j] && nodes[j - 1] == s[j - 1];
    less := KeyNumber(nodes[j]) < KeyNumber(nodes[j - 1]);
    r := if a == NoDigits || b == NoDigits then IndexPanic
         else if a == OutOfRange || b == OutOfRange then RangeError
         else Sorted;
  }

  /** Moves the element at `i` down to its place. */
  method SinkInto(nodes: array<Node>, i: nat) returns (r: SortResult)
    requires 0 < i < nodes.Length
    requires AscendingTo(nodes[..], i)
    requires i >= 2 ==> SortableTo(nodes[..], i)
    modifies nodes
    ensures multiset(nodes[..]) == old(multiset(nodes[..]))
    ensures r == Sorted ==> AscendingTo(nodes[..], i + 1) && SortableTo(nodes[..], i + 1)
    ensures r != Sorted ==> !Sortable(nodes[..])
    ensures r == RangeError ==> HasKey(nodes[..], OutOfRange)
    ensures r == IndexPanic ==> HasKey(nodes[..], NoDigits)
  {
    var j := i;
    while 0 < j
      invariant 0 <= j <= i
      invariant multiset(nodes[..]) == old(multiset(nodes[..]))
      invariant Sinking(nodes[..], j, i + 1)
      invariant j == i && i >= 2 ==> SortableTo(nodes[..], i)
      invariant j < i ==> SortableTo(nodes[..], i + 1)
    {
      var less;
      r, less := Less(nodes, j);
      if r != Sorted {
        if r == RangeError && less {
          SwapKeeps(nodes[..], j, OutOfRange);
          Swap(nodes, j);
        }
        return;
      }
      assert SortableTo(nodes[..], i + 1);
      if !less {
        Sunk(nodes[..], j, i + 1);
        return;
      }
      SinkOnce(nodes[..], j, i + 1);
      Swap(nodes, j);
      j := j - 1;
    }
    Sunk(nodes[..], 0, i + 1);
    r := Sorted;
  }

  lemma SwapKeeps(s: seq<Node>, j: nat, key: SortKey)
    requires 0 < j < |s| && HasKey(s, key)
    ensures HasKey(Swapped(s, j), key)
  {
    var k :| 0 <= k < |s| && HostnameKey(s[k].hostname) == key;
    var k' := if k == j then j - 1 else if k == j - 1 then j else k;
    assert Swapped(s, j)[k'] == s[k];
  }

  /** Stands for sort.Slice with the operator's comparison: an insertion sort. Once Atoi
      has failed the comparison stays false, so nothing moves any more; a hostname
      without digits makes the comparison index an empty list. */
  method SortNodesByNumber(nodes: array<Node>) returns (r: SortResult)
    modifies nodes
    ensures multiset(nodes[..]) == old(multiset(nodes[..]))
    ensures r == Sorted <==> nodes.Length < 2 || Sortable(nodes[..])
    ensures r == Sorted ==> Ascending(nodes[..])
    ensures r == RangeError ==> HasKey(nodes[..], OutOfRange)
    ensures r == IndexPanic ==> HasKey(nodes[..], NoDigits)
  {
    r := Sorted;
    var i := 1;
    while i < nodes.Length
      invariant 1 <= i && r == Sorted
      invariant multiset(nodes[..]) == old(multiset(nodes[..]))
      invariant i <= nodes.Length ==> AscendingTo(nodes[..], i)
      invariant 2 <= i ==> SortableTo(nodes[..], i)
    {
      r := SinkInto(nodes, i);
      if r != Sorted {
        return;
      }
      i := i + 1;
    }
  }
}

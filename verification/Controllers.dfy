/** The controllers in the form the operator gives them: objects whose reconcile methods
    read and write the API server step by step. Each is proved to perform the step of the
    protocol. */
module Controllers {
  import opened Model
  import opened NodeUtils
  import opened NodeSet
  import opened ServiceEnv
  import opened Protocol

  class ApiServer {
    var services: map<string, Service>
    var modules: map<string, Module>
    var jobs: map<string, Job>
    var nodes: Nodes
    var nextUid: nat
    ghost var running: set<Run>

    constructor ()
      ensures WellFormed(View())
      ensures View() == State(map[], map[], map[], map[], {}, 0)
    {
      services, modules, jobs, nodes := map[], map[], map[], map[];
      nextUid, running := 0, {};
    }

    ghost function View(): State
      reads this
    {
      State(services, modules, jobs, nodes, running, nextUid)
    }

    /** The items come in no particular order. */
    method ListNodes() returns (items: seq<Node>)
      requires WellKeyed(nodes)
      ensures Lists(items, set k | k in nodes :: nodes[k])
    {
      hide Generated;
      items := [];
      var keys := nodes.Keys;
      while keys != {}
        invariant keys <= nodes.Keys
        invariant NoDuplicates(items)
        invariant Elements(items) == set k | k in nodes && k !in keys :: nodes[k]
        decreases keys
      {
        var k :| k in keys;
        ghost var before := items;
        items := items + [nodes[k]];
        keys := keys - {k};
        assert nodes[k] !in Elements(before);
        assert forall n :: n in before ==> n in Elements(before);
        assert Elements(items) == Elements(before) + {nodes[k]};
      }
    }
  }

  lemma {:induction false} OnceInMultiset(s: seq<Node>)
    ensures NoDuplicates(s) <==> forall n :: multiset(s)[n] <= 1
  {
    if s != [] {
      var k := |s| - 1;
      OnceInMultiset(s[..k]);
      assert s == s[..k] + [s[k]];
      assert multiset(s) == multiset(s[..k]) + multiset{s[k]};
      if NoDuplicates(s) {
        assert s[k] !in s[..k];
        assert multiset(s[..k])[s[k]] == 0;
      }
      if forall n :: multiset(s)[n] <= 1 {
        assert forall n :: multiset(s[..k])[n] <= multiset(s)[n];
        assert s[k] !in multiset(s[..k]) by {
          assert multiset(s)[s[k]] == multiset(s[..k])[s[k]] + 1;
        }
        assert s[k] !in s[..k];
        forall i | 0 <= i < k ensures s[i] != s[k] {
          assert s[..k][i] == s[i];
        }
      }
    }
  }

  lemma PermutedListing(a: seq<Node>, b: seq<Node>, all: set<Node>)
    requires Lists(a, all) && multiset(a) == multiset(b)
    ensures Lists(b, all)
  {
    OnceInMultiset(a);
    OnceInMultiset(b);
    assert forall n :: n in a <==> n in multiset(a);
    assert forall n :: n in b <==> n in multiset(b);
    assert Elements(a) == Elements(b);
  }
}

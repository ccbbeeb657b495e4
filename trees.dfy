/**
 The tree collaborator and the tip name index of `tree/nodeindex.go`.

 A tree is modelled by its node list, `Nodes()`, held in an array; a node is
 identified by its position in that array and carries its name and the number
 of its neighbours. A node is a tip exactly when it has one neighbour. The
 three cache maintenance operations of the tree (tip index, bitsets) are kept
 abstract: each call is recorded in a ghost trace.
 */
module Trees {
  import opened Wrappers

  datatype Node = Node(name: string, degree: nat) {
    predicate IsTip() {
      degree == 1
    }
  }

  /** The tree's cache maintenance calls, as recorded in the trace. */
  datatype CacheCall = UpdateTipIndexCall | ClearBitSetsCall | UpdateBitSetCall

  class Tree {
    var nodes: array<Node>
    ghost var calls: seq<CacheCall>

    constructor (ns: seq<Node>)
      ensures fresh(nodes) && nodes[..] == ns && calls == []
    {
      nodes := new Node[|ns|](i requires 0 <= i < |ns| => ns[i]);
      calls := [];
    }

    /** `node.SetName(name)` for the node at position `id`: only that node's name changes. */
    method SetName(id: nat, name: string)
      requires id < nodes.Length
      modifies nodes
      ensures nodes[..] == old(nodes[..])[id := old(nodes[id]).(name := name)]
    {
      nodes[id] := nodes[id].(name := name);
    }

    /** `t.UpdateTipIndex()`, whose body is not part of this model. */
    method UpdateTipIndex()
      modifies this
      ensures nodes == old(nodes) && calls == old(calls) + [UpdateTipIndexCall]
    {
      calls := calls + [UpdateTipIndexCall];
    }

    /** `t.ClearBitSets()`: its error result is not computed here but given as `outcome`. */
    method ClearBitSets(outcome: Option<string>) returns (err: Option<string>)
      modifies this
      ensures nodes == old(nodes) && calls == old(calls) + [ClearBitSetsCall]
      ensures err == outcome
    {
      calls := calls + [ClearBitSetsCall];
      err := outcome;
    }

    /** `t.UpdateBitSet()`, whose body is not part of this model. */
    method UpdateBitSet()
      modifies this
      ensures nodes == old(nodes) && calls == old(calls) + [UpdateBitSetCall]
    {
      calls := calls + [UpdateBitSetCall];
    }
  }

  /**
   The index that the build loop of `NewNodeIndex` produces from the node
   list: a scan in order that records `name -> position` for every tip, a
   later tip overwriting an earlier one of the same name.
   */
  function TipIndex(ns: seq<Node>): (idx: map<string, nat>)
    ensures forall k :: k in idx ==> idx[k] < |ns| && ns[idx[k]].IsTip() && ns[idx[k]].name == k
  {
    if ns == [] then map[]
    else
      var last := ns[|ns| - 1];
      var prev := TipIndex(ns[..|ns| - 1]);
      if last.IsTip() then prev[last.name := |ns| - 1] else prev
  }

  /** A name is a key of the index exactly when some tip carries it. */
  lemma {:induction false} TipIndexKeys(ns: seq<Node>, name: string)
    ensures name in TipIndex(ns) <==> exists i :: 0 <= i < |ns| && ns[i].IsTip() && ns[i].name == name
  {
    if ns != [] {
      var init := ns[..|ns| - 1];
      TipIndexKeys(init, name);
      if exists i :: 0 <= i < |ns| && ns[i].IsTip() && ns[i].name == name {
        var i :| 0 <= i < |ns| && ns[i].IsTip() && ns[i].name == name;
        if i < |ns| - 1 {
          assert init[i] == ns[i];
        }
      }
    }
  }

  /** Among tips sharing a name, the index holds the last one in node order. */
  lemma {:induction false} TipIndexLastWins(ns: seq<Node>, name: string)
    requires name in TipIndex(ns)
    ensures forall j :: TipIndex(ns)[name] < j < |ns| ==> !(ns[j].IsTip() && ns[j].name == name)
  {
    var last := ns[|ns| - 1];
    if !(last.IsTip() && last.name == name) {
      var init := ns[..|ns| - 1];
      TipIndexLastWins(init, name);
      assert forall j :: TipIndex(init)[name] < j < |init| ==> init[j] == ns[j];
    }
  }

  /**
   The `nodeIndex` struct: the map built by `NewNodeIndex`. The ghost
   `source` is the node list as it was when the index was built; the index is
   a snapshot and does not follow later changes to the tree.
   */
  class NodeIndex {
    var index: map<string, nat>
    ghost const source: seq<Node>

    ghost predicate Valid()
      reads this
    {
      index == TipIndex(source)
    }

    /** `NewNodeIndex(t)`: scans the nodes once; the tree is left as it was. */
    constructor (t: Tree)
      ensures Valid() && source == t.nodes[..]
      ensures unchanged(t) && unchanged(t.nodes)
    {
      source := t.nodes[..];
      index := map[];
      new;
      var i := 0;
      while i < t.nodes.Length
        invariant 0 <= i <= t.nodes.Length
        invariant index == TipIndex(t.nodes[..i])
      {
        var n := t.nodes[i];
        if n.degree == 1 {
          index := index[n.name := i];
        }
        assert t.nodes[..i + 1][..i] == t.nodes[..i];
        i := i + 1;
      }
      assert t.nodes[..i] == t.nodes[..];
    }

    /**
     `GetNode(name)`: a lookup that succeeds exactly when a tip of the source
     tree carries `name`, and then yields the last such tip. A name carried
     only by internal nodes is not found.
     */
    function GetNode(name: string): (r: Option<nat>)
      reads this
      requires Valid()
      ensures name in index ==> r == Some(index[name])
      ensures name !in index ==> r == None
      ensures r.Some? <==> exists i :: 0 <= i < |source| && source[i].IsTip() && source[i].name == name
      ensures r.Some? ==> r.value < |source| && source[r.value].IsTip() && source[r.value].name == name
      ensures r.Some? ==> forall j :: r.value < j < |source| ==> !(source[j].IsTip() && source[j].name == name)
    {
      TipIndexKeys(source, name);
      if name in index then
        TipIndexLastWins(source, name);
        Some(index[name])
      else None
    }
  }
}

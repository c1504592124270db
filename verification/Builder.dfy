/** `SnapshotBuilder` and `copySnapshot`, and the agreement of the builder's budget with the validator's. */
module Builder {
  import opened Snapshot
  import opened Budgets
  import opened NodeChecks
  import opened Validator

  datatype Status = Success | InvalidArgument | SizeLimitExceeded

  ghost predicate HasId(nodes: seq<Node>, id: NodeId) {
    exists i | 0 <= i < |nodes| :: nodes[i].id == id
  }

  /** Whether `addNode` takes this node after these. */
  ghost predicate CanAdd(nodes: seq<Node>, n: Node, l: Limits) {
    && ValidLimits(l) && n.id != 0 && |nodes| < l.nodes && !HasId(nodes, n.id)
    && NodeWithin(n, l) && KnownExtensions(n.extensions) && TotalText(nodes) + NodeText(n) <= l.totalText
  }

  class SnapshotBuilder {
    const limits: Limits
    var generation: nat
    var root: NodeId
    var nodes: seq<Node>
    var nodeIds: set<NodeId>
    var textBytes: nat

    constructor (limits: Limits)
      ensures Valid() && this.limits == limits && generation == 0 && root == 0 && nodes == []
    {
      this.limits := limits;
      generation, root, nodes, nodeIds, textBytes := 0, 0, [], {}, 0;
    }

    ghost predicate Valid()
      reads this
    {
      && (forall id :: id in nodeIds <==> HasId(nodes, id))
      && UniqueIds(nodes) && textBytes == TotalText(nodes)
      && (nodes != [] ==> ValidLimits(limits) && AllWithin(nodes, limits))
    }

    method SetGeneration(generation: nat) returns (status: Status)
      requires Valid()
      modifies this`generation
      ensures Valid() && (status == Success <==> generation != 0)
      ensures this.generation == if status == Success then generation else old(this.generation)
    {
      if generation == 0 {
        return InvalidArgument;
      }
      this.generation := generation;
      return Success;
    }

    method SetRoot(root: NodeId) returns (status: Status)
      requires Valid()
      modifies this`root
      ensures Valid() && (status == Success <==> root != 0)
      ensures this.root == if status == Success then root else old(this.root)
    {
      if root == 0 {
        return InvalidArgument;
      }
      this.root := root;
      return Success;
    }

    method AddNode(n: Node) returns (status: Status)
      requires Valid()
      modifies this`nodes, this`nodeIds, this`textBytes
      ensures Valid()
      ensures status == Success <==> CanAdd(old(nodes), n, limits)
      ensures status == InvalidArgument <==>
                !ValidLimits(limits) || n.id == 0 || (|old(nodes)| < limits.nodes && HasId(old(nodes), n.id))
      ensures nodes == old(nodes) + (if status == Success then [n] else [])
    {
      hide NodeWithin, NodeText, KnownExtensions, UniqueIds, HasId;
      var valid := CheckLimits(limits);
      if !valid || n.id == 0 {
        return InvalidArgument;
      }
      if |nodes| >= limits.nodes {
        return SizeLimitExceeded;
      }
      if n.id in nodeIds {
        return InvalidArgument;
      }
      var ok, total := BoundedNode(n, limits, textBytes);
      if !ok {
        return SizeLimitExceeded;
      }
      Appended(nodes, n, limits);
      nodeIds := nodeIds + {n.id};
      nodes := nodes + [n];
      textBytes := total;
      return Success;
    }

    /** Under the builder's own limits, the validator never finds a limit exceeded in what was built. */
    method ValidateBuilt(w: World) returns (issue: Issue)
      requires Valid()
      ensures issue != LimitExceeded
      ensures issue == NoIssue <==> Accepts(View(generation, root, nodes), limits, w)
    {
      if nodes == [] {
        NothingExceeds(limits);
      }
      var at;
      issue, at := Validate(View(generation, root, nodes), limits, w);
    }
  }

  lemma Appended(nodes: seq<Node>, n: Node, l: Limits)
    requires UniqueIds(nodes) && (nodes != [] ==> AllWithin(nodes, l)) && CanAdd(nodes, n, l)
    ensures UniqueIds(nodes + [n]) && AllWithin(nodes + [n], l) && TotalText(nodes + [n]) == TotalText(nodes) + NodeText(n)
    ensures forall id :: HasId(nodes + [n], id) <==> id == n.id || HasId(nodes, id)
  {
    hide NodeWithin, NodeText, KnownExtensions, ValidLimits;
    var all := nodes + [n];
    assert all[..|nodes|] == nodes;
    assert all[|nodes|] == n;
    forall id | HasId(nodes, id)
      ensures HasId(all, id)
    {
      var i :| 0 <= i < |nodes| && nodes[i].id == id;
      assert all[i].id == id;
    }
    forall i | 0 <= i < |nodes|
      ensures nodes[i].id != n.id
    {
      assert HasId(nodes, nodes[i].id);
    }
  }

  lemma NothingExceeds(l: Limits)
    ensures AllWithin([], l)
  {
  }

  /** Copying an accepted snapshot node by node succeeds exactly when the destination's limits hold for it. */
  method CopySnapshot(v: View, l: Limits, w: World, destination: Limits) returns (status: Status, copy: SnapshotBuilder)
    requires Accepts(v, l, w)
    ensures status == Success <==> ValidLimits(destination) && AllWithin(v.nodes, destination)
    ensures status == Success ==> copy.generation == v.generation && copy.root == v.root && copy.nodes == v.nodes
    ensures fresh(copy) && copy.limits == destination && copy.Valid()
  {
    hide NodeWithin, NodeText, KnownExtensions, ValidLimits, Accepts, UniqueIds, HasId, AllWithin, CanAdd;
    AcceptedFacts(v, l, w);
    copy := new SnapshotBuilder(destination);
    status := copy.SetGeneration(v.generation);
    status := copy.SetRoot(v.root);
    for k := 0 to |v.nodes|
      invariant status == Success && copy.Valid() && copy.nodes == v.nodes[..k]
      invariant copy.generation == v.generation && copy.root == v.root
      invariant k > 0 ==> ValidLimits(destination)
    {
      status := copy.AddNode(v.nodes[k]);
      if status != Success {
        RefusedMeansOver(v, destination, k);
        return;
      }
      assert v.nodes[..k + 1] == v.nodes[..k] + [v.nodes[k]];
    }
    assert v.nodes[..|v.nodes|] == v.nodes;
  }

  lemma AcceptedFacts(v: View, l: Limits, w: World)
    requires Accepts(v, l, w)
    ensures v.generation != 0 && v.root != 0 && v.nodes != [] && UniqueIds(v.nodes)
    ensures forall i | 0 <= i < |v.nodes| :: KnownExtensions(v.nodes[i].extensions)
  {
    forall i | 0 <= i < |v.nodes|
      ensures KnownExtensions(v.nodes[i].extensions)
    {
      assert NodeOk(v.nodes, i, w);
      forall e | 0 <= e < |v.nodes[i].extensions|
        ensures Known(v.nodes[i].extensions[e].value)
      {
        assert ExtensionOk(v.nodes, v.nodes[i].extensions[e], w);
      }
    }
  }

  lemma RefusedMeansOver(v: View, l: Limits, k: nat)
    requires UniqueIds(v.nodes) && k < |v.nodes| && KnownExtensions(v.nodes[k].extensions)
    requires !CanAdd(v.nodes[..k], v.nodes[k], l)
    ensures !(ValidLimits(l) && AllWithin(v.nodes, l))
  {
    hide NodeWithin, NodeText, KnownExtensions, ValidLimits;
    TotalPrefix(v.nodes, k);
    assert forall i | 0 <= i < k :: v.nodes[..k][i] == v.nodes[i];
    assert !HasId(v.nodes[..k], v.nodes[k].id);
  }

  // ---------------------------------------------------------------- larger limits

  predicate AtLeast(big: Limits, small: Limits) {
    && big.nodes >= small.nodes && big.children >= small.children && big.relations >= small.relations
    && big.extensions >= small.extensions && big.listItems >= small.listItems && big.nodeText >= small.nodeText
    && big.totalText >= small.totalText && big.annotations >= small.annotations && big.fragments >= small.fragments
    && big.depth >= small.depth && big.values >= small.values && big.targets >= small.targets
    && big.textSelections >= small.textSelections
  }

  lemma {:induction false} ShallowGrows(v: ExtensionValue, depth: nat, small: Limits, big: Limits)
    requires AtLeast(big, small) && Shallow(v, depth, small)
    ensures Shallow(v, depth, big)
    decreases v
  {
    if v.ListValue? {
      forall i | 0 <= i < |v.items|
        ensures Shallow(v.items[i], depth + 1, big)
      {
        ShallowGrows(v.items[i], depth + 1, small, big);
      }
    }
  }

  /** What validates under some limits can be copied under any valid limits that are pointwise at least as large. */
  lemma AcceptedCanBeCopied(v: View, small: Limits, w: World, big: Limits)
    requires Accepts(v, small, w) && AtLeast(big, small)
    ensures AllWithin(v.nodes, big)
  {
    forall i | 0 <= i < |v.nodes|
      ensures NodeWithin(v.nodes[i], big)
    {
      assert NodeWithin(v.nodes[i], small);
      forall e | 0 <= e < |v.nodes[i].extensions|
        ensures Shallow(v.nodes[i].extensions[e].value, 0, big)
      {
        ShallowGrows(v.nodes[i].extensions[e].value, 0, small, big);
      }
    }
  }
}

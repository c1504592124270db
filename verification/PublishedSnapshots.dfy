/** The protocol with the validator in its place: what is published was accepted by `validate`. */
module PublishedSnapshots {
  import opened Snapshot
  import opened Validator
  import opened Publication
  import opened PublicationTheorems
  import opened ClosedRuntimes
  import opened Options
  import opened Tree
  import opened NodeChecks
  import Budgets
  import Builder
  import Diff

  ghost function Validated(w: World): Validity {
    (v, l) => Accepts(v, l, w)
  }

  /** Every snapshot that was ever committed satisfies all that validation demands. */
  lemma CommittedAreAccepted(steps: seq<Step>, r: nat, i: nat, w: World)
    requires r < |Run(steps, Validated(w)).runtimes| && i < |Run(steps, Validated(w)).runtimes[r].views|
    ensures var rt := Run(steps, Validated(w)).runtimes[r]; Accepts(rt.views[i], rt.limits, w) && UniqueIds(rt.views[i].nodes)
  {
    hide Run, RuntimeInv, UniqueIds;
    var valid := Validated(w);
    RuntimeHolds(steps, r, valid);
    var s := Run(steps, valid);
    CommittedAreValid(s.runtimes[r], Between(s, r), s.last, i, valid);
  }

  /** A committed snapshot owes no record exactly when it holds the same nodes as the one before, extensions aside. */
  lemma SilentCommit(steps: seq<Step>, r: nat, i: nat, w: World)
    requires r < |Run(steps, Validated(w)).runtimes| && 0 < i < |Run(steps, Validated(w)).runtimes[r].views|
    ensures var views := Run(steps, Validated(w)).runtimes[r].views;
            Diff.Records(views[i - 1], views[i]) == [] <==> Diff.SameTree(views[i].nodes, views[i - 1].nodes)
  {
    hide Run, Validated, Accepts, UniqueIds, Diff.Records, Diff.SameTree;
    CommittedAreAccepted(steps, r, i - 1, w);
    CommittedAreAccepted(steps, r, i, w);
    var views := Run(steps, Validated(w)).runtimes[r].views;
    Diff.SilentExactlyWhenSame(views[i - 1], views[i]);
  }

  /** Whatever is currently published can be copied node by node under any limits at least as large. */
  lemma CurrentCanBeCopied(steps: seq<Step>, r: nat, big: Limits, w: World)
    requires r < |Run(steps, Validated(w)).runtimes| && Run(steps, Validated(w)).runtimes[r].snapshot.Some?
    requires Builder.AtLeast(big, Run(steps, Validated(w)).runtimes[r].limits)
    ensures Budgets.AllWithin(Run(steps, Validated(w)).runtimes[r].snapshot.value.nodes, big)
  {
    hide Run, Validated, Accepts, UniqueIds, Builder.AtLeast, Budgets.AllWithin, ActionsOk, NotesOk, ViewsOk, DiffsOk;
    RuntimeHolds(steps, r, Validated(w));
    var rt := Run(steps, Validated(w)).runtimes[r];
    assert rt.views != [] && rt.snapshot.value == rt.views[|rt.views| - 1];
    CommittedAreAccepted(steps, r, |rt.views| - 1, w);
    Builder.AcceptedCanBeCopied(rt.snapshot.value, rt.limits, w, big);
  }

  // ---------------------------------------------------------------- the smallest snapshot

  /** A node with nothing but an id. */
  function Leaf(): Node {
    Node(1, 0, 0, {}, {}, [], [], [], [], [], [], [], 0, [], [], [], None, None, None, None, None, None, None)
  }

  lemma LeafIsTree(nodes: seq<Node>)
    requires nodes == [Leaf()]
    ensures Find(nodes, 1) == 0 && RootedTree(0, UpOf(nodes), KidsOf(nodes))
  {
    FindById(nodes, 0);
    var up, kids := UpOf(nodes), KidsOf(nodes);
    assert up[0] == 1;
    assert |kids[0]| == 0;
    assert Ancestor(up, 0, 0) == 0;
    assert LeadsTo(up, 0, 0);
  }

  lemma LeafIsSmall(l: Limits)
    requires ValidLimits(l)
    ensures Budgets.AllWithin([Leaf()], l)
  {
    hide Budgets.TextSum, Budgets.NodeText, Budgets.TotalText;
    LeafHasNoText();
    TextOfOne(Leaf());
  }

  lemma LeafHasNoText()
    ensures Budgets.NodeText(Leaf()) == 0
  {
    hide Budgets.TextSum;
    EmptyTexts(Budgets.BasicTexts(Leaf()));
  }

  lemma TextOfOne(n: Node)
    ensures Budgets.TotalText([n]) == Budgets.NodeText(n)
  {
    hide Budgets.NodeText;
    assert [n][..0] == [];
  }

  lemma {:induction false} EmptyTexts(ts: seq<Bytes>)
    requires forall i | 0 <= i < |ts| :: ts[i] == []
    ensures Budgets.TextSum(ts) == 0
    decreases |ts|
  {
    if ts != [] {
      EmptyTexts(ts[..|ts| - 1]);
    }
  }

  /** Where the empty string is valid UTF-8, a lone node is accepted under every valid limits. */
  lemma LeafIsAccepted(l: Limits, w: World)
    requires ValidLimits(l) && w.validUtf8([])
    ensures Accepts(View(1, 1, [Leaf()]), l, w)
  {
    hide RootedTree, Budgets.AllWithin, NodeOk, ValidLimits;
    LeafIsTree([Leaf()]);
    LeafIsSmall(l);
    LeafIsInOrder(w);
  }

  lemma LeafIsInOrder(w: World)
    requires w.validUtf8([])
    ensures NodeOk([Leaf()], 0, w)
  {
  }

  /** With the real validator a second closer can find its promise broken. */
  lemma CloseCanReturnEarly(l: Limits, w: World)
    requires ValidLimits(l) && w.validUtf8([])
    ensures exists steps :: ReturnedEarly(Run(steps, Validated(w)))
  {
    LeafIsAccepted(l, w);
    hide Accepts, ValidLimits;
    LoserReturnsEarly(l, View(1, 1, [Leaf()]), Validated(w));
  }
}

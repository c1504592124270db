/** Rooted trees over node indices: ancestors, preorder, and the traversal that numbers a tree so that
    descendant questions become interval tests. */
module Tree {
  import opened Sequences

  /** Nodes are the indices below `|up|`. `up[i]` is the parent of `i`, or `|up|` for the root; `kids[i]` lists
      its children in order. Both directions agree, but nothing yet excludes a cycle. */
  ghost predicate Linked(root: nat, up: seq<nat>, kids: seq<seq<nat>>) {
    && |kids| == |up| && root < |up| && up[root] == |up|
    && (forall i | 0 <= i < |up| && i != root :: up[i] < |up| && i in kids[up[i]])
    && (forall i, k | 0 <= i < |up| && 0 <= k < |kids[i]| :: kids[i][k] < |up| && up[kids[i][k]] == i)
    && (forall i | 0 <= i < |up| :: Distinct(kids[i]))
  }

  /** The `k`-th node on the way from `i` up to the root, or `|up|` beyond the root. */
  ghost function Ancestor(up: seq<nat>, i: nat, k: nat): nat {
    if k == 0 then i
    else
      var below := Ancestor(up, i, k - 1);
      if below < |up| then up[below] else |up|
  }

  /** One rooted tree: the links agree, and the way up from every node ends at the root. */
  ghost predicate RootedTree(root: nat, up: seq<nat>, kids: seq<seq<nat>>) {
    Linked(root, up, kids) && forall i | 0 <= i < |up| :: LeadsTo(up, i, root)
  }

  ghost predicate LeadsTo(up: seq<nat>, i: nat, a: nat) {
    exists k: nat :: Ancestor(up, i, k) == a
  }

  /** A rooted tree with a `rank` that grows from parent to child, as evidence that there is no cycle. */
  datatype Shape = Shape(root: nat, up: seq<nat>, kids: seq<seq<nat>>, rank: seq<nat>) {

    ghost predicate Valid() {
      && Linked(root, up, kids) && |rank| == |up|
      && (forall i | 0 <= i < |up| :: rank[i] < |up|)
      && (forall i | 0 <= i < |up| && i != root :: rank[up[i]] < rank[i])
    }

    ghost predicate Nodes(list: seq<nat>) {
      forall k | 0 <= k < |list| :: list[k] < |up|
    }
  }

  // ---------------------------------------------------------------- ancestors

  ghost predicate Descends(up: seq<nat>, i: nat, a: nat) {
    a < |up| && exists k: nat :: k > 0 && Ancestor(up, i, k) == a
  }

  lemma {:induction false} AncestorAbove(up: seq<nat>, i: nat, k: nat)
    requires i < |up|
    ensures Ancestor(up, i, k + 1) == Ancestor(up, up[i], k)
    decreases k
  {
    if k > 0 {
      AncestorAbove(up, i, k - 1);
    } else {
      assert Ancestor(up, i, 0) == i;
    }
  }

  lemma {:induction false} AncestorAdd(up: seq<nat>, i: nat, a: nat, b: nat)
    ensures Ancestor(up, i, a + b) == Ancestor(up, Ancestor(up, i, a), b)
    decreases b
  {
    if b > 0 {
      AncestorAdd(up, i, a, b - 1);
    }
  }

  /** Some node is its own proper ancestor. */
  ghost predicate HasCycle(up: seq<nat>) {
    exists j :: 0 <= j < |up| && Descends(up, j, j)
  }

  lemma {:induction false} RoundAndRound(up: seq<nat>, j: nat, k: nat, rounds: nat)
    requires Ancestor(up, j, k) == j
    ensures Ancestor(up, j, rounds * k) == j
    decreases rounds
  {
    if rounds > 0 {
      RoundAndRound(up, j, k, rounds - 1);
      AncestorAdd(up, j, (rounds - 1) * k, k);
      assert rounds * k == (rounds - 1) * k + k;
    }
  }

  lemma {:induction false} NothingAboveRoot(up: seq<nat>, root: nat, k: nat)
    requires root < |up| && up[root] == |up| && k > 0
    ensures Ancestor(up, root, k) == |up|
    decreases k
  {
    if k > 1 {
      NothingAboveRoot(up, root, k - 1);
    } else {
      assert Ancestor(up, root, 0) == root;
    }
  }

  /** Who leads to the root is on no cycle: a cycle has no end. */
  lemma CycleMissesRoot(root: nat, up: seq<nat>, kids: seq<seq<nat>>, j: nat)
    requires Linked(root, up, kids) && j < |up| && Descends(up, j, j)
    ensures !LeadsTo(up, j, root)
  {
    hide Linked;
    assert root < |up| && up[root] == |up| by {
      hide Descends;
      LinkedRoot(root, up, kids);
    }
    var k: nat :| k > 0 && Ancestor(up, j, k) == j;
    forall n: nat
      ensures Ancestor(up, j, n) != root
    {
      if Ancestor(up, j, n) == root {
        RoundAndRound(up, j, k, n + 1);
        var more := (n + 1) * k - n;
        assert (n + 1) * k >= n + 1;
        AncestorAdd(up, j, n, more);
        NothingAboveRoot(up, root, more);
      }
    }
  }

  lemma LinkedRoot(root: nat, up: seq<nat>, kids: seq<seq<nat>>)
    requires Linked(root, up, kids)
    ensures root < |up| && up[root] == |up|
  {
  }

  /** A node that does not lead to the root has ancestors without end. */
  lemma {:induction false} EndlessAncestors(root: nat, up: seq<nat>, kids: seq<seq<nat>>, i: nat, k: nat)
    requires Linked(root, up, kids) && i < |up| && !LeadsTo(up, i, root)
    ensures Ancestor(up, i, k) < |up|
    decreases k
  {
    if k > 0 {
      EndlessAncestors(root, up, kids, i, k - 1);
      assert Ancestor(up, i, k - 1) != root;
    }
  }

  /** Among more ancestors than nodes, two are one node. */
  lemma EndlessIsCyclic(root: nat, up: seq<nat>, kids: seq<seq<nat>>, i: nat)
    requires Linked(root, up, kids) && i < |up| && !LeadsTo(up, i, root)
    ensures HasCycle(up)
  {
    var line := seq(|up| + 1, k requires 0 <= k => Ancestor(up, i, k));
    forall k | 0 <= k < |line|
      ensures line[k] < |up|
    {
      EndlessAncestors(root, up, kids, i, k);
    }
    if Distinct(line) {
      Pigeonhole(line, |up|);
    }
    var a, b :| 0 <= a < b < |line| && line[a] == line[b];
    AncestorAdd(up, i, a, b - a);
    assert Descends(up, line[a], line[a]);
  }

  /** Where the links agree, a rooted tree is exactly the absence of cycles. */
  lemma TreeMeansNoCycle(root: nat, up: seq<nat>, kids: seq<seq<nat>>)
    requires Linked(root, up, kids)
    ensures RootedTree(root, up, kids) <==> !HasCycle(up)
  {
    if !RootedTree(root, up, kids) {
      var i :| 0 <= i < |up| && !LeadsTo(up, i, root);
      EndlessIsCyclic(root, up, kids, i);
    }
    if HasCycle(up) {
      var j :| 0 <= j < |up| && Descends(up, j, j);
      CycleMissesRoot(root, up, kids, j);
    }
  }

  lemma {:induction false} AncestorOfRoot(s: Shape, k: nat)
    requires s.Valid() && k > 0
    ensures Ancestor(s.up, s.root, k) == |s.up|
  {
    if k > 1 {
      AncestorOfRoot(s, k - 1);
    } else {
      assert Ancestor(s.up, s.root, 0) == s.root;
    }
  }

  /** A node descends from `a` when its parent is `a` or descends from `a`. */
  lemma DescendsStep(s: Shape, i: nat, a: nat)
    requires s.Valid() && i < |s.up|
    ensures Descends(s.up, i, a) <==> i != s.root && (s.up[i] == a || Descends(s.up, s.up[i], a))
  {
    if Descends(s.up, i, a) {
      var k: nat :| k > 0 && Ancestor(s.up, i, k) == a;
      if i == s.root {
        AncestorOfRoot(s, k);
      } else {
        AncestorAbove(s.up, i, k - 1);
        if k == 1 {
          assert Ancestor(s.up, s.up[i], 0) == s.up[i];
        } else {
          assert Descends(s.up, s.up[i], a);
        }
      }
    }
    if i != s.root && s.up[i] == a {
      assert Ancestor(s.up, i, 0) == i;
      assert Ancestor(s.up, i, 1) == a;
    } else if i != s.root && Descends(s.up, s.up[i], a) {
      var k: nat :| k > 0 && Ancestor(s.up, s.up[i], k) == a;
      AncestorAbove(s.up, i, k);
    }
  }

  lemma {:induction false} DescendsRank(s: Shape, i: nat, a: nat)
    requires s.Valid() && i < |s.up| && Descends(s.up, i, a)
    ensures s.rank[a] < s.rank[i]
    decreases s.rank[i]
  {
    DescendsStep(s, i, a);
    if s.up[i] != a {
      DescendsRank(s, s.up[i], a);
    }
  }

  lemma {:induction false} DescendsTransitive(s: Shape, i: nat, a: nat, b: nat)
    requires s.Valid() && i < |s.up| && Descends(s.up, i, a) && Descends(s.up, a, b)
    ensures Descends(s.up, i, b)
    decreases s.rank[i]
  {
    DescendsStep(s, i, a);
    DescendsStep(s, i, b);
    if s.up[i] != a {
      DescendsTransitive(s, s.up[i], a, b);
    }
  }

  /** Two ancestors of one node lie on one line. */
  lemma {:induction false} AncestorsComparable(s: Shape, i: nat, a: nat, b: nat)
    requires s.Valid() && i < |s.up|
    requires (i == a || Descends(s.up, i, a)) && (i == b || Descends(s.up, i, b))
    ensures a == b || Descends(s.up, a, b) || Descends(s.up, b, a)
    decreases s.rank[i]
  {
    if i != a && i != b {
      DescendsStep(s, i, a);
      DescendsStep(s, i, b);
      AncestorsComparable(s, s.up[i], a, b);
    }
  }

  lemma {:induction false} AllDescendFromRoot(s: Shape, i: nat)
    requires s.Valid() && i < |s.up|
    ensures i == s.root || Descends(s.up, i, s.root)
    decreases s.rank[i]
  {
    if i != s.root {
      AllDescendFromRoot(s, s.up[i]);
      DescendsStep(s, i, s.root);
    }
  }

  // ---------------------------------------------------------------- preorder

  /** How far down a list of nodes can still reach; a bound for the recursion below. */
  ghost function Reach(s: Shape, list: seq<nat>): (h: nat)
    requires s.Valid() && s.Nodes(list)
    ensures forall k | 0 <= k < |list| :: |s.up| - s.rank[list[k]] <= h
    ensures h == 0 || exists k | 0 <= k < |list| :: |s.up| - s.rank[list[k]] == h
  {
    if list == [] then 0
    else
      var rest := Reach(s, list[1..]);
      assert forall k | 0 <= k < |list[1..]| :: list[1..][k] == list[k + 1];
      if |s.up| - s.rank[list[0]] > rest then |s.up| - s.rank[list[0]] else rest
  }

  ghost function Preorder(s: Shape, i: nat): seq<nat>
    requires s.Valid() && i < |s.up|
    decreases |s.up| - s.rank[i], 0
  {
    assert s.Nodes(s.kids[i]);
    [i] + Preorders(s, s.kids[i])
  }

  ghost function Preorders(s: Shape, list: seq<nat>): seq<nat>
    requires s.Valid() && s.Nodes(list)
    decreases Reach(s, list), |list|
  {
    if list == [] then [] else Preorder(s, list[0]) + Preorders(s, list[1..])
  }

  lemma {:induction false} PreordersSplit(s: Shape, a: seq<nat>, b: seq<nat>)
    requires s.Valid() && s.Nodes(a) && s.Nodes(b)
    ensures Preorders(s, a + b) == Preorders(s, a) + Preorders(s, b)
    decreases |a|
  {
    if a == [] {
      assert a + b == b;
    } else {
      assert (a + b)[1..] == a[1..] + b;
      PreordersSplit(s, a[1..], b);
    }
  }

  lemma PreordersAt(s: Shape, list: seq<nat>, k: nat)
    requires s.Valid() && s.Nodes(list) && k < |list|
    ensures Preorders(s, list) == Preorders(s, list[..k]) + (Preorder(s, list[k]) + Preorders(s, list[k + 1..]))
  {
    assert list == list[..k] + list[k..];
    assert list[k..][0] == list[k] && list[k..][1..] == list[k + 1..];
    PreordersSplit(s, list[..k], list[k..]);
  }

  lemma {:induction false} InPreorders(s: Shape, list: seq<nat>, x: nat) returns (k: nat)
    requires s.Valid() && s.Nodes(list) && x in Preorders(s, list)
    ensures k < |list| && x in Preorder(s, list[k])
    decreases |list|
  {
    if x in Preorder(s, list[0]) {
      k := 0;
    } else {
      var j := InPreorders(s, list[1..], x);
      k := j + 1;
    }
  }

  lemma {:induction false} PreorderDescends(s: Shape, i: nat, x: nat)
    requires s.Valid() && i < |s.up| && x in Preorder(s, i)
    ensures x < |s.up| && (x == i || Descends(s.up, x, i))
    decreases |s.up| - s.rank[i]
  {
    if x != i {
      var k := InPreorders(s, s.kids[i], x);
      var c := s.kids[i][k];
      PreorderDescends(s, c, x);
      DescendsStep(s, c, i);
      if x != c {
        DescendsTransitive(s, x, c, i);
      }
    }
  }

  /** `t` holds the preorder of `x` as one contiguous block starting at `p`. */
  ghost predicate BlockAt(s: Shape, t: seq<nat>, x: nat, p: nat)
    requires s.Valid() && x < |s.up|
  {
    p + |Preorder(s, x)| <= |t| && t[p..p + |Preorder(s, x)|] == Preorder(s, x)
  }

  lemma SliceOfSlice(t: seq<nat>, p: nat, n: nat, q: nat, m: nat)
    requires p + n <= |t| && q + m <= n
    ensures t[p..p + n][q..q + m] == t[p + q..p + q + m]
  {
    var a, b := t[p..p + n][q..q + m], t[p + q..p + q + m];
    assert |a| == |b| && forall k | 0 <= k < m :: a[k] == b[k];
  }

  lemma BlockInside(s: Shape, t: seq<nat>, x: nat, p: nat, y: nat, q: nat)
    requires s.Valid() && x < |s.up| && y < |s.up|
    requires BlockAt(s, t, x, p) && BlockAt(s, Preorder(s, x), y, q)
    ensures BlockAt(s, t, y, p + q)
  {
    SliceOfSlice(t, p, |Preorder(s, x)|, q, |Preorder(s, y)|);
  }

  lemma ChildBlock(s: Shape, i: nat, k: nat) returns (p: nat)
    requires s.Valid() && i < |s.up| && k < |s.kids[i]|
    ensures p > 0 && BlockAt(s, Preorder(s, i), s.kids[i][k], p)
  {
    var list := s.kids[i];
    assert s.Nodes(list);
    PreordersAt(s, list, k);
    p := 1 + |Preorders(s, list[..k])|;
    var a, b, c := Preorders(s, list[..k]), Preorder(s, list[k]), Preorders(s, list[k + 1..]);
    assert Preorder(s, i) == ([i] + a) + b + c;
  }

  /** A descendant's preorder is a block inside its ancestor's, behind the ancestor itself. */
  lemma {:induction false} DescendantBlock(s: Shape, x: nat, i: nat) returns (p: nat)
    requires s.Valid() && x < |s.up| && i < |s.up| && Descends(s.up, x, i)
    ensures p > 0 && BlockAt(s, Preorder(s, i), x, p)
    decreases s.rank[x]
  {
    DescendsStep(s, x, i);
    var y := s.up[x];
    var k :| 0 <= k < |s.kids[y]| && s.kids[y][k] == x;
    var q := ChildBlock(s, y, k);
    if y == i {
      p := q;
    } else {
      var r := DescendantBlock(s, y, i);
      BlockInside(s, Preorder(s, i), y, r, x, q);
      p := r + q;
    }
  }

  lemma {:induction false} PreorderDistinct(s: Shape, i: nat)
    requires s.Valid() && i < |s.up|
    ensures Distinct(Preorder(s, i))
    decreases |s.up| - s.rank[i], 0
  {
    var list := s.kids[i];
    assert s.Nodes(list);
    PreordersDistinct(s, list, i);
    if i in Preorders(s, list) {
      var k := InPreorders(s, list, i);
      PreorderDescends(s, list[k], i);
      if i != list[k] {
        DescendsRank(s, i, list[k]);
      }
    }
  }

  lemma {:induction false} PreordersDistinct(s: Shape, list: seq<nat>, parent: nat)
    requires s.Valid() && s.Nodes(list) && parent < |s.up|
    requires Distinct(list) && forall k | 0 <= k < |list| :: list[k] != s.root && s.up[list[k]] == parent
    ensures Distinct(Preorders(s, list))
    decreases Reach(s, list), |list|
  {
    if list != [] {
      PreorderDistinct(s, list[0]);
      PreordersDistinct(s, list[1..], parent);
      forall x | x in Preorder(s, list[0]) && x in Preorders(s, list[1..])
        ensures false
      {
        var k := InPreorders(s, list[1..], x);
        PreorderDescends(s, list[0], x);
        PreorderDescends(s, list[1..][k], x);
        SiblingsApart(s, list[0], list[k + 1], x);
      }
      DistinctAppend(Preorder(s, list[0]), Preorders(s, list[1..]));
    }
  }

  lemma DistinctAppend(a: seq<nat>, b: seq<nat>)
    requires Distinct(a) && Distinct(b) && forall x | x in a && x in b :: false
    ensures Distinct(a + b)
  {
    forall i, j | 0 <= i < j < |a + b|
      ensures (a + b)[i] != (a + b)[j]
    {
      if i < |a| <= j {
        assert a[i] in a && b[j - |a|] in b;
      }
    }
  }

  lemma NotBelowSibling(s: Shape, c: nat, d: nat)
    requires s.Valid() && c < |s.up| && d < |s.up| && c != s.root && d != s.root && s.up[c] == s.up[d]
    ensures !Descends(s.up, c, d)
  {
    DescendsStep(s, c, d);
    if Descends(s.up, s.up[c], d) {
      DescendsRank(s, s.up[c], d);
    }
  }

  lemma SiblingsApart(s: Shape, c: nat, d: nat, x: nat)
    requires s.Valid() && x < |s.up| && c < |s.up| && d < |s.up| && c != s.root && d != s.root && s.up[c] == s.up[d]
    requires (x == c || Descends(s.up, x, c)) && (x == d || Descends(s.up, x, d))
    ensures c == d
  {
    AncestorsComparable(s, x, c, d);
    NotBelowSibling(s, c, d);
    NotBelowSibling(s, d, c);
  }

  /** The preorder of the root holds every node exactly once. */
  lemma RootPreorder(s: Shape)
    requires s.Valid()
    ensures var t := Preorder(s, s.root);
            Distinct(t) && |t| == |s.up| && s.Nodes(t) && forall x | 0 <= x < |s.up| :: x in t
  {
    var t := Preorder(s, s.root);
    PreorderDistinct(s, s.root);
    forall k | 0 <= k < |t|
      ensures t[k] < |s.up|
    {
      PreorderDescends(s, s.root, t[k]);
    }
    forall x: nat | x < |s.up|
      ensures x in t
    {
      AllDescendFromRoot(s, x);
      if x != s.root {
        var p := DescendantBlock(s, x, s.root);
        assert t[p..p + |Preorder(s, x)|][0] == x;
      }
    }
    Pigeonhole(t, |s.up|);
    CoverLength(t, |s.up|);
  }

  /** In the preorder of the root, the preorder of any node is the block that starts where the node stands. */
  lemma BlockOf(s: Shape, i: nat, p: nat)
    requires s.Valid() && i < |s.up| && p < |Preorder(s, s.root)| && Preorder(s, s.root)[p] == i
    ensures BlockAt(s, Preorder(s, s.root), i, p)
  {
    var t := Preorder(s, s.root);
    RootPreorder(s);
    AllDescendFromRoot(s, i);
    var q := 0;
    if i != s.root {
      q := DescendantBlock(s, i, s.root);
    } else {
      assert t[0..|t|] == t;
    }
    assert t[q..q + |Preorder(s, i)|][0] == t[q];
  }

  /** Node `j` is a proper descendant of node `i` exactly when it comes after `i` in preorder and within the
      length of the preorder of `i`. */
  lemma IntervalTest(s: Shape, i: nat, j: nat, pi: nat, pj: nat)
    requires s.Valid() && i < |s.up| && j < |s.up|
    requires var t := Preorder(s, s.root); pi < |t| && pj < |t| && t[pi] == i && t[pj] == j
    ensures Descends(s.up, j, i) <==> pi < pj < pi + |Preorder(s, i)|
  {
    hide Preorder, Descends;
    var t, block := Preorder(s, s.root), Preorder(s, i);
    RootPreorder(s);
    BlockOf(s, i, pi);
    if Descends(s.up, j, i) {
      var q := DescendantBlock(s, j, i);
      FirstOfPreorder(s, j);
      assert block[q..q + |Preorder(s, j)|][0] == j;
      assert t[pi..pi + |block|][q] == t[pi + q];
    }
    if pi < pj < pi + |block| {
      assert t[pi..pi + |block|][pj - pi] == j;
      PreorderDescends(s, i, j);
    }
  }

  lemma FirstOfPreorder(s: Shape, i: nat)
    requires s.Valid() && i < |s.up|
    ensures |Preorder(s, i)| > 0 && Preorder(s, i)[0] == i
  {
  }

  // ---------------------------------------------------------------- nearest enclosing table

  /** The nearest proper ancestor that is marked, or `|up|` when there is none. */
  ghost function Nearest(s: Shape, marked: seq<bool>, i: nat): nat
    requires s.Valid() && i < |s.up| == |marked|
    decreases s.rank[i]
  {
    if i == s.root then |s.up|
    else if marked[s.up[i]] then s.up[i]
    else Nearest(s, marked, s.up[i])
  }

  /** `a` is a marked proper ancestor of `i`, and every other one lies above it. */
  ghost predicate IsNearest(up: seq<nat>, marked: seq<bool>, i: nat, a: nat)
    requires |marked| == |up|
  {
    && Descends(up, i, a) && marked[a]
    && forall b | 0 <= b < |up| && marked[b] && Descends(up, i, b) :: b == a || Descends(up, a, b)
  }

  lemma {:induction false} NearestIsFirst(s: Shape, marked: seq<bool>, i: nat)
    requires s.Valid() && i < |s.up| == |marked|
    ensures var a := Nearest(s, marked, i);
            if a < |s.up| then IsNearest(s.up, marked, i, a)
            else a == |s.up| && forall b | 0 <= b < |s.up| && Descends(s.up, i, b) :: !marked[b]
    decreases s.rank[i]
  {
    forall b | 0 <= b < |s.up|
      ensures Descends(s.up, i, b) <==> i != s.root && (s.up[i] == b || Descends(s.up, s.up[i], b))
    {
      DescendsStep(s, i, b);
    }
    if i != s.root && !marked[s.up[i]] {
      NearestIsFirst(s, marked, s.up[i]);
    }
  }

  /** A node has at most one nearest marked ancestor, and `Nearest` finds it. */
  lemma NearestIsUnique(s: Shape, marked: seq<bool>, i: nat, a: nat)
    requires s.Valid() && i < |s.up| == |marked| && IsNearest(s.up, marked, i, a)
    ensures Nearest(s, marked, i) == a
  {
    NearestIsFirst(s, marked, i);
    var b := Nearest(s, marked, i);
    if b != a && b < |s.up| {
      DescendsRank(s, a, b);
      DescendsRank(s, b, a);
    }
  }

  // ---------------------------------------------------------------- the explicit-stack traversal

  /** What a stack of nodes still to be visited will produce, its last element first. */
  ghost function Unwind(s: Shape, pending: seq<nat>): seq<nat>
    requires s.Valid() && s.Nodes(pending)
  {
    if pending == [] then []
    else
      var last := |pending| - 1;
      Preorder(s, pending[last]) + Unwind(s, pending[..last])
  }

  lemma UnwindPush(s: Shape, pending: seq<nat>, x: nat)
    requires s.Valid() && s.Nodes(pending) && x < |s.up|
    ensures Unwind(s, pending + [x]) == Preorder(s, x) + Unwind(s, pending)
  {
    assert (pending + [x])[..|pending|] == pending;
  }

  /** The numbering computed so far: `t` is a prefix of the preorder of the root. */
  ghost predicate Numbered(s: Shape, marked: seq<bool>, t: seq<nat>, ordinal: seq<nat>, grid: seq<nat>)
    requires s.Valid() && |marked| == |s.up|
  {
    && |ordinal| == |grid| == |s.up| && s.Nodes(t)
    && forall k | 0 <= k < |t| :: ordinal[t[k]] == k && grid[t[k]] == Nearest(s, marked, t[k])
  }

  method Traverse(root: nat, up: seq<nat>, kids: seq<seq<nat>>, marked: seq<bool>, ghost s: Shape)
    returns (traversal: seq<nat>, ordinal: array<nat>, grid: array<nat>)
    requires s.Valid() && s.root == root && s.up == up && s.kids == kids && |marked| == |up|
    ensures traversal == Preorder(s, root) && ordinal.Length == grid.Length == |up|
    ensures Numbered(s, marked, traversal, ordinal[..], grid[..])
    ensures fresh(ordinal) && fresh(grid)
  {
    hide Preorder, Preorders, Unwind, Nearest;
    var n := |up|;
    ordinal, grid := new nat[n], new nat[n](_ => n);
    traversal := [];
    var pending := [root];
    RootPreorder(s);
    UnwindRoot(s);
    while pending != []
      invariant s.Nodes(pending) && traversal + Unwind(s, pending) == Preorder(s, root)
      invariant s.Nodes(traversal)
      invariant forall k | 0 <= k < |traversal| :: ordinal[traversal[k]] == k
      invariant forall i | 0 <= i < n :: grid[i] == if i in traversal then Nearest(s, marked, i) else n
      decreases n - |traversal|
    {
      var i := pending[|pending| - 1];
      ghost var before, stack := traversal, pending[..|pending| - 1];
      assert pending == stack + [i];
      UnwindPush(s, stack, i);
      Visit(s, before, i, Unwind(s, stack));
      pending := pending[..|pending| - 1];
      ordinal[i] := |traversal|;
      traversal := traversal + [i];
      NearestStep(s, marked, i);
      if up[i] != n {
        var parent := up[i];
        grid[i] := if marked[parent] then parent else grid[parent];
      }
      pending := PushChildren(kids[i], pending, s);
      Regroup(before, i, Preorders(s, kids[i]), Unwind(s, stack));
    }
    assert traversal + [] == traversal;
  }

  lemma Regroup(a: seq<nat>, i: nat, b: seq<nat>, c: seq<nat>)
    ensures (a + [i]) + (b + c) == a + (([i] + b) + c)
  {
  }

  lemma UnwindRoot(s: Shape)
    requires s.Valid()
    ensures [] + Unwind(s, [s.root]) == Preorder(s, s.root) && Unwind(s, []) == []
  {
  }

  /** The next node is not yet visited, and visiting it opens its children in front of the rest. */
  lemma Visit(s: Shape, before: seq<nat>, i: nat, rest: seq<nat>)
    requires s.Valid() && i < |s.up| && before + (Preorder(s, i) + rest) == Preorder(s, s.root)
    ensures s.Nodes(s.kids[i]) && Preorder(s, i) == [i] + Preorders(s, s.kids[i])
    ensures i !in before && |before| < |s.up| && (i != s.root ==> s.up[i] in before)
  {
    RootPreorder(s);
    assert s.Nodes(s.kids[i]);
    var t := Preorder(s, s.root);
    assert t[|before|] == i;
    assert forall k | 0 <= k < |before| :: t[k] == before[k];
    if i != s.root {
      assert s.up[i] in t;
      var p :| 0 <= p < |t| && t[p] == s.up[i];
      DescendsStep(s, i, s.up[i]);
      IntervalTest(s, s.up[i], i, p, |before|);
    }
  }

  lemma NearestStep(s: Shape, marked: seq<bool>, i: nat)
    requires s.Valid() && i < |s.up| == |marked|
    ensures Nearest(s, marked, i) ==
              if s.up[i] == |s.up| then |s.up| else if marked[s.up[i]] then s.up[i] else Nearest(s, marked, s.up[i])
  {
  }

  method PushChildren(children: seq<nat>, pending: seq<nat>, ghost s: Shape) returns (r: seq<nat>)
    requires s.Valid() && s.Nodes(children) && s.Nodes(pending)
    ensures s.Nodes(r) && Unwind(s, r) == Preorders(s, children) + Unwind(s, pending)
  {
    hide Preorder, Unwind;
    r := pending;
    for c := |children| downto 0
      invariant s.Nodes(r) && Unwind(s, r) == Preorders(s, children[c..]) + Unwind(s, pending)
    {
      UnwindPush(s, r, children[c]);
      assert children[c..][0] == children[c] && children[c..][1..] == children[c + 1..];
      r := r + [children[c]];
    }
  }

  // ---------------------------------------------------------------- subtree sizes

  /** The sizes of those listed nodes that come at or after position `from` in the numbering. */
  ghost function SizesFrom(s: Shape, list: seq<nat>, ordinal: seq<nat>, from: nat): nat
    requires s.Valid() && s.Nodes(list) && |ordinal| == |s.up|
  {
    if list == [] then 0
    else (if ordinal[list[0]] >= from then |Preorder(s, list[0])| else 0) + SizesFrom(s, list[1..], ordinal, from)
  }

  lemma {:induction false} AllSizes(s: Shape, list: seq<nat>, ordinal: seq<nat>, from: nat)
    requires s.Valid() && s.Nodes(list) && |ordinal| == |s.up|
    requires forall k | 0 <= k < |list| :: ordinal[list[k]] >= from
    ensures SizesFrom(s, list, ordinal, from) == |Preorders(s, list)|
    decreases |list|
  {
    if list != [] {
      AllSizes(s, list[1..], ordinal, from);
    }
  }

  /** Moving `from` back over the position of `x` adds its size where `x` is listed. */
  lemma {:induction false} SizesStep(s: Shape, list: seq<nat>, ordinal: seq<nat>, from: nat, x: nat)
    requires s.Valid() && s.Nodes(list) && |ordinal| == |s.up| && Distinct(list) && x < |s.up| && ordinal[x] == from
    requires forall k | 0 <= k < |list| && list[k] != x :: ordinal[list[k]] != from
    ensures SizesFrom(s, list, ordinal, from)
         == SizesFrom(s, list, ordinal, from + 1) + if x in list then |Preorder(s, x)| else 0
    decreases |list|
  {
    if list != [] {
      SizesStep(s, list[1..], ordinal, from, x);
      if list[0] == x {
        assert x !in list[1..];
      }
    }
  }

  lemma ChildrenAfter(s: Shape, marked: seq<bool>, t: seq<nat>, ordinal: seq<nat>, grid: seq<nat>, i: nat, k: nat)
    requires s.Valid() && |marked| == |s.up| && t == Preorder(s, s.root) && Numbered(s, marked, t, ordinal, grid)
    requires i < |s.up| && k < |s.kids[i]|
    ensures ordinal[i] < ordinal[s.kids[i][k]]
  {
    hide Preorder, Descends;
    RootPreorder(s);
    var c := s.kids[i][k];
    assert i in t && c in t;
    var pi :| 0 <= pi < |t| && t[pi] == i;
    var pc :| 0 <= pc < |t| && t[pc] == c;
    DescendsStep(s, c, i);
    IntervalTest(s, i, c, pi, pc);
  }

  method SubtreeSizes(up: seq<nat>, traversal: seq<nat>, ghost s: Shape, ghost marked: seq<bool>,
                      ghost ordinal: seq<nat>, ghost grid: seq<nat>)
    returns (subtree: array<nat>)
    requires s.Valid() && s.up == up && |marked| == |up| && traversal == Preorder(s, s.root)
    requires Numbered(s, marked, traversal, ordinal, grid)
    ensures subtree.Length == |up| && fresh(subtree)
    ensures forall i | 0 <= i < |up| :: subtree[i] == |Preorder(s, i)|
  {
    hide Preorder, Preorders, SizesFrom;
    RootPreorder(s);
    var n := |up|;
    subtree := new nat[n](_ => 1);
    forall j | 0 <= j < n
      ensures 1 + SizesFrom(s, s.kids[j], ordinal, n) == 1
    {
      NoSizes(s, marked, traversal, ordinal, grid, s.kids[j]);
    }
    for t := n downto 0
      invariant forall j | 0 <= j < n :: s.Nodes(s.kids[j]) && subtree[j] == 1 + SizesFrom(s, s.kids[j], ordinal, t)
    {
      var i := traversal[t];
      SubtreeStep(s, marked, traversal, ordinal, grid, t);
      if up[i] != n {
        subtree[up[i]] := subtree[up[i]] + subtree[i];
      }
    }
    forall j | 0 <= j < n
      ensures subtree[j] == |Preorder(s, j)|
    {
      AllSizes(s, s.kids[j], ordinal, 0);
      PreorderLength(s, j);
    }
  }

  lemma PreorderLength(s: Shape, j: nat)
    requires s.Valid() && j < |s.up|
    ensures s.Nodes(s.kids[j]) && |Preorder(s, j)| == 1 + |Preorders(s, s.kids[j])|
  {
    assert s.Nodes(s.kids[j]);
  }

  lemma {:induction false} NoSizes(s: Shape, marked: seq<bool>, t: seq<nat>, ordinal: seq<nat>, grid: seq<nat>, list: seq<nat>)
    requires s.Valid() && |marked| == |s.up| && t == Preorder(s, s.root) && Numbered(s, marked, t, ordinal, grid)
    requires s.Nodes(list)
    ensures SizesFrom(s, list, ordinal, |s.up|) == 0
    decreases |list|
  {
    hide Preorder;
    if list != [] {
      RootPreorder(s);
      assert list[0] in t;
      var p :| 0 <= p < |t| && t[p] == list[0];
      NoSizes(s, marked, t, ordinal, grid, list[1..]);
    }
  }

  /** One step of the bottom-up summation: the visited node is complete, and only its parent changes. */
  lemma SubtreeStep(s: Shape, marked: seq<bool>, t: seq<nat>, ordinal: seq<nat>, grid: seq<nat>, k: nat)
    requires s.Valid() && |marked| == |s.up| && t == Preorder(s, s.root) && Numbered(s, marked, t, ordinal, grid)
    requires k < |t|
    ensures var i := t[k];
            && i < |s.up|
            && (forall j | 0 <= j < |s.up| :: s.Nodes(s.kids[j]) &&
                  SizesFrom(s, s.kids[j], ordinal, k)
                  == SizesFrom(s, s.kids[j], ordinal, k + 1) + if s.up[i] == j then |Preorder(s, i)| else 0)
            && 1 + SizesFrom(s, s.kids[i], ordinal, k + 1) == |Preorder(s, i)|
  {
    hide Preorder, SizesFrom;
    RootPreorder(s);
    var i := t[k];
    forall x | 0 <= x < |s.up| && x != i
      ensures ordinal[x] != k
    {
      assert x in t;
      var p :| 0 <= p < |t| && t[p] == x;
    }
    forall j | 0 <= j < |s.up|
      ensures s.Nodes(s.kids[j]) && SizesFrom(s, s.kids[j], ordinal, k)
           == SizesFrom(s, s.kids[j], ordinal, k + 1) + if s.up[i] == j then |Preorder(s, i)| else 0
    {
      assert s.Nodes(s.kids[j]);
      assert i in s.kids[j] <==> s.up[i] == j;
      SizesStep(s, s.kids[j], ordinal, k, i);
    }
    forall c | 0 <= c < |s.kids[i]|
      ensures ordinal[s.kids[i][c]] >= k + 1
    {
      ChildrenAfter(s, marked, t, ordinal, grid, i, c);
    }
    AllSizes(s, s.kids[i], ordinal, k + 1);
    PreorderLength(s, i);
  }

  // ---------------------------------------------------------------- the breadth-first search for unreachable nodes

  /** The work list: distinct nodes, each after its parent, with the children of the first `cursor` all in it. */
  ghost predicate Frontier(root: nat, up: seq<nat>, kids: seq<seq<nat>>, work: seq<nat>, cursor: nat)
    requires Linked(root, up, kids)
  {
    && cursor <= |work| && |work| > 0 && work[0] == root && Distinct(work)
    && (forall k | 0 <= k < |work| :: work[k] < |up|)
    && (forall k | 1 <= k < |work| :: Preceded(up, work, k, cursor))
    && (forall c | 0 <= c < cursor :: Expanded(kids[work[c]], work))
  }

  /** All these children are in the list. */
  ghost predicate Expanded(children: seq<nat>, work: seq<nat>) {
    forall k | 0 <= k < |children| :: children[k] in work
  }

  /** The parent of the `k`-th node stands before it, among the first `cursor`. */
  ghost predicate Preceded(up: seq<nat>, work: seq<nat>, k: nat, cursor: nat)
    requires k < |work| && work[k] < |up|
  {
    exists c | 0 <= c < k && c < cursor :: work[c] == up[work[k]]
  }

  lemma ChildrenAreNew(root: nat, up: seq<nat>, kids: seq<seq<nat>>, work: seq<nat>, cursor: nat, a: nat, b: nat)
    requires Linked(root, up, kids) && Frontier(root, up, kids, work, cursor) && cursor < |work|
    requires a < |work| && b < |kids[work[cursor]]|
    ensures work[a] != kids[work[cursor]][b]
  {
    var i := work[cursor];
    assert up[kids[i][b]] == i;
    if a >= 1 {
      assert Preceded(up, work, a, cursor);
      var c :| 0 <= c < a && c < cursor && work[c] == up[work[a]];
    }
  }

  /** While the children of `work[cursor]` are pushed, the list stays a frontier. */
  lemma PushKeepsFrontier(root: nat, up: seq<nat>, kids: seq<seq<nat>>, work: seq<nat>, cursor: nat)
    requires Linked(root, up, kids) && Frontier(root, up, kids, work, cursor) && cursor < |work|
    ensures Frontier(root, up, kids, work + kids[work[cursor]], cursor + 1)
  {
    var i := work[cursor];
    var more := work + kids[i];
    PushKeepsDistinct(root, up, kids, work, cursor);
    forall k | 0 <= k < |more|
      ensures more[k] < |up| && (k >= 1 ==> Preceded(up, more, k, cursor + 1))
    {
      if k < |work| {
        if k >= 1 {
          assert Preceded(up, work, k, cursor);
          var c :| 0 <= c < k && c < cursor && work[c] == up[work[k]];
          assert more[c] == up[more[k]];
        }
      } else {
        assert more[cursor] == up[more[k]];
      }
    }
    forall c | 0 <= c < cursor + 1
      ensures Expanded(kids[more[c]], more)
    {
      if c < cursor {
        assert Expanded(kids[work[c]], work);
      } else {
        assert forall k | 0 <= k < |kids[i]| :: more[|work| + k] == kids[i][k];
      }
    }
    hide Preceded, Distinct, Expanded;
    assert cursor + 1 <= |more| && more[0] == root;
  }

  lemma PushKeepsDistinct(root: nat, up: seq<nat>, kids: seq<seq<nat>>, work: seq<nat>, cursor: nat)
    requires Linked(root, up, kids) && Frontier(root, up, kids, work, cursor) && cursor < |work|
    ensures Distinct(work + kids[work[cursor]])
  {
    var more := work + kids[work[cursor]];
    forall a, b | 0 <= a < b < |more|
      ensures more[a] != more[b]
    {
      if a < |work| <= b {
        ChildrenAreNew(root, up, kids, work, cursor, a, b - |work|);
      }
    }
  }

  /** The search visits every node exactly once, never meets a visited node again, and misses a node exactly
      when the links do not form one rooted tree. */
  method BreadthFirst(root: nat, kids: seq<seq<nat>>, ghost up: seq<nat>) returns (work: seq<nat>, ghost rank: seq<nat>)
    requires Linked(root, up, kids)
    ensures |work| <= |up|
    ensures |work| == |up| <==> RootedTree(root, up, kids)
    ensures |work| == |up| ==> Shape(root, up, kids, rank).Valid()
  {
    hide Frontier, RootedTree, Distinct;
    work := [root];
    var visited := new bool[|kids|](_ => false);
    var cursor := 0;
    FrontierStart(root, up, kids);
    while cursor < |work|
      invariant cursor <= |work| && Frontier(root, up, kids, work, cursor)
      invariant forall i | 0 <= i < |up| :: visited[i] <==> i in work[..cursor]
      decreases |up| - cursor
    {
      FrontierNext(root, up, kids, work, cursor);
      var i := work[cursor];
      if visited[i] {
        assert false; // a second visit cannot happen
      }
      visited[i] := true;
      PushKeepsFrontier(root, up, kids, work, cursor);
      assert (work + kids[i])[..cursor + 1] == work[..cursor] + [i];
      work := work + kids[i];
      cursor := cursor + 1;
    }
    FrontierEnd(root, up, kids, work);
    rank := [];
    if |work| == |up| {
      rank := OrderIsRank(root, up, kids, work);
      RankReaches(Shape(root, up, kids, rank));
    }
    if RootedTree(root, up, kids) {
      TreeIsReached(root, up, kids, work);
    }
  }

  lemma FrontierStart(root: nat, up: seq<nat>, kids: seq<seq<nat>>)
    requires Linked(root, up, kids)
    ensures Frontier(root, up, kids, [root], 0)
  {
  }

  lemma FrontierEnd(root: nat, up: seq<nat>, kids: seq<seq<nat>>, work: seq<nat>)
    requires Linked(root, up, kids) && Frontier(root, up, kids, work, |work|)
    ensures |work| <= |up|
  {
    Pigeonhole(work, |up|);
  }

  lemma FrontierNext(root: nat, up: seq<nat>, kids: seq<seq<nat>>, work: seq<nat>, cursor: nat)
    requires Linked(root, up, kids) && Frontier(root, up, kids, work, cursor) && cursor < |work|
    ensures |work| <= |up| && work[cursor] < |up| && work[cursor] !in work[..cursor]
  {
    Pigeonhole(work, |up|);
  }

  lemma OrderIsRank(root: nat, up: seq<nat>, kids: seq<seq<nat>>, work: seq<nat>) returns (rank: seq<nat>)
    requires Linked(root, up, kids) && Frontier(root, up, kids, work, |work|) && |work| == |up|
    ensures Shape(root, up, kids, rank).Valid()
  {
    forall i | 0 <= i < |up|
      ensures i in work
    {
      AllPigeonholes(work, |up|, i);
    }
    rank := seq(|up|, i requires 0 <= i < |up| => Position(work, i));
    forall i | 0 <= i < |up| && i != root
      ensures rank[up[i]] < rank[i]
    {
      assert Preceded(up, work, rank[i], |work|);
      var c :| 0 <= c < rank[i] && c < |work| && work[c] == up[work[rank[i]]];
      assert work[c] == work[rank[up[i]]];
    }
  }

  ghost function Position(s: seq<nat>, x: nat): (k: nat)
    requires x in s
    ensures k < |s| && s[k] == x
  {
    var k :| 0 <= k < |s| && s[k] == x;
    k
  }

  lemma RankReaches(s: Shape)
    requires s.Valid()
    ensures RootedTree(s.root, s.up, s.kids)
  {
    forall i | 0 <= i < |s.up|
      ensures LeadsTo(s.up, i, s.root)
    {
      AllDescendFromRoot(s, i);
      assert Ancestor(s.up, i, 0) == i;
    }
  }

  lemma {:induction false} ReachedFrom(root: nat, up: seq<nat>, kids: seq<seq<nat>>, work: seq<nat>, i: nat, k: nat)
    requires Linked(root, up, kids) && Frontier(root, up, kids, work, |work|)
    requires i < |up| && Ancestor(up, i, k) == root
    ensures i in work
    decreases k
  {
    if i == root {
      assert work[0] == root;
    } else if k > 0 {
      AncestorAbove(up, i, k - 1);
      ReachedFrom(root, up, kids, work, up[i], k - 1);
      var c :| 0 <= c < |work| && work[c] == up[i];
      var j :| 0 <= j < |kids[up[i]]| && kids[up[i]][j] == i;
      assert kids[work[c]][j] in work;
    }
  }

  lemma TreeIsReached(root: nat, up: seq<nat>, kids: seq<seq<nat>>, work: seq<nat>)
    requires RootedTree(root, up, kids) && Frontier(root, up, kids, work, |work|)
    ensures |work| >= |up|
  {
    forall i | 0 <= i < |up|
      ensures i in work
    {
      assert LeadsTo(up, i, root);
      var k: nat :| Ancestor(up, i, k) == root;
      ReachedFrom(root, up, kids, work, i, k);
    }
    CoverLength(work, |up|);
  }
}

/** When `remove_double_cnots_once` cannot read past the end of a list.
    The descending index range of the sweep is fixed before any deletion, so
    deleting two cx leaves that are the last two entries of a list and then
    meeting a cx at the left edge of the next entry raises IndexError. `Tidy`
    trees rule this out, and a pass maps a tidy tree to a tidy tree. */
module NoOverrun {
  import opened GateTree
  import opened DoubleCnots

  predicate IsOtherLeaf(n: Node) {
    n.Leaf? && !n.gate.Cx?
  }

  /** In one list, two cx leaves side by side occur only as the last two
      entries, and then at the front or right after a leaf that is not a cx. */
  ghost predicate TidyList(cs: seq<Node>) {
    forall j :: 0 <= j < |cs| - 1 && IsCxLeaf(cs[j]) && IsCxLeaf(cs[j + 1]) ==>
      j + 2 == |cs| && (j == 0 || IsOtherLeaf(cs[j - 1]))
  }

  /** Every list of the tree is tidy. */
  ghost predicate Tidy(n: Node)
    decreases n
  {
    match n
    case Leaf(_) => true
    case Composite(cs) => TidyList(cs) && forall k :: 0 <= k < |cs| ==> Tidy(cs[k])
  }

  ghost predicate AllTidy(cs: seq<Node>) {
    forall k :: 0 <= k < |cs| ==> Tidy(cs[k])
  }

  /** A counterexample for untidy trees: three equal cx leaves in one list. The
      last two cancel, and the first one then reads `self.data[1]` of a list of
      length one. */
  lemma OverrunExample(c: Gate)
    requires c.Cx?
    ensures CancelPass(Composite([Leaf(c), Leaf(c), Leaf(c)])) == IndexError
  {
    var n := Composite([Leaf(c), Leaf(c), Leaf(c)]);
    var cs := n.children;
    assert cs[1 := cs[1]] == cs;
    assert Boundary(cs, 1, false) == Some(([Leaf(c)], true)) by {
      assert Cancel(cs, 1, InSelf, InSelf) == [Leaf(c)];
    }
    assert [Leaf(c)][0 := Leaf(c)] == [Leaf(c)];
    assert Boundary([Leaf(c)], 0, true) == None;
    assert Sweep(n, [Leaf(c)], 0, true) == IndexError;
    assert Sweep(n, cs, 1, false) == Sweep(n, [Leaf(c)], 0, true);
  }

  // ---------------------------------------------------------------------
  // Edits of one list that keep it tidy

  /** A list shorter than a tidy list, taken from its front, has no two cx
      leaves side by side at all. */
  lemma TidyPrefix(cs: seq<Node>, m: nat)
    requires TidyList(cs) && m < |cs|
    ensures TidyList(cs[..m])
  {
    assert forall j :: 0 <= j < m ==> cs[..m][j] == cs[j];
  }

  lemma TidyDropFirst(cs: seq<Node>)
    requires TidyList(cs) && cs != []
    ensures TidyList(cs[1..])
  {
    var d := cs[1..];
    forall j | 0 <= j < |d| - 1 && IsCxLeaf(d[j]) && IsCxLeaf(d[j + 1])
      ensures j + 2 == |d| && (j == 0 || IsOtherLeaf(d[j - 1]))
    {
      assert d[j] == cs[j + 1] && d[j + 1] == cs[j + 2];
      if j > 0 {
        assert d[j - 1] == cs[j];
      }
    }
  }

  /** Putting a composite where a composite was keeps the list tidy. */
  lemma TidyReplace(cs: seq<Node>, i: nat, c: Node)
    requires TidyList(cs) && i < |cs| && cs[i].Composite? && c.Composite?
    ensures TidyList(cs[i := c])
  {
    var d := cs[i := c];
    forall j | 0 <= j < |d| - 1 && IsCxLeaf(d[j]) && IsCxLeaf(d[j + 1])
      ensures j + 2 == |d| && (j == 0 || IsOtherLeaf(d[j - 1]))
    {
      assert d[j] == cs[j] && d[j + 1] == cs[j + 1];
      if j > 0 {
        assert d[j - 1] == cs[j - 1];
      }
    }
  }

  /** Deleting one cx leaf keeps a list tidy unless it brings two cx leaves together. */
  lemma TidyDeleteCx(cs: seq<Node>, p: nat)
    requires TidyList(cs) && p < |cs| && IsCxLeaf(cs[p])
    requires !(0 < p && p + 1 < |cs| && IsCxLeaf(cs[p - 1]) && IsCxLeaf(cs[p + 1]))
    ensures TidyList(cs[..p] + cs[p + 1..])
  {
    var d := cs[..p] + cs[p + 1..];
    forall j | 0 <= j < |d| - 1 && IsCxLeaf(d[j]) && IsCxLeaf(d[j + 1])
      ensures j + 2 == |d| && (j == 0 || IsOtherLeaf(d[j - 1]))
    {
      if j + 1 > p {
        assert d[j] == cs[j + 1] && d[j + 1] == cs[j + 2];
        if j > p {
          assert d[j - 1] == cs[j];
        }
      }
    }
  }

  // ---------------------------------------------------------------------
  // Deleting at the end of a first or last chain keeps a tree tidy

  /** Tidiness of a composite whose child list was edited. */
  lemma TidyNode(cs: seq<Node>)
    requires TidyList(cs) && AllTidy(cs)
    ensures Tidy(Composite(cs))
  {
  }

  lemma {:induction false} DeleteFirstTidy(n: Node, path: seq<nat>)
    requires FirstChain(n, path) && Tidy(n)
    ensures ValidPath(n, path) && |HostAt(n, path).children| > 0
    ensures Tidy(DeleteInHost(n, path, 0))
    decreases path
  {
    FirstChainValid(n, path);
    var cs := n.children;
    if path == [] {
      assert DeleteInHost(n, path, 0).children == cs[1..];
      TidyDropFirst(cs);
      TidyNode(cs[1..]);
    } else {
      var c := DeleteInHost(cs[0], path[1..], 0);
      DeleteFirstTidy(cs[0], path[1..]);
      assert DeleteInHost(n, path, 0).children == cs[0 := c];
      TidyReplace(cs, 0, c);
      TidyNode(cs[0 := c]);
    }
  }

  lemma {:induction false} DeleteLastTidy(n: Node, path: seq<nat>)
    requires LastChain(n, path) && Tidy(n)
    ensures ValidPath(n, path) && |HostAt(n, path).children| > 0
    ensures Tidy(DeleteInHost(n, path, |HostAt(n, path).children| - 1))
    decreases path
  {
    LastChainValid(n, path);
    var cs := n.children;
    var m := |cs| - 1;
    var k := |HostAt(n, path).children| - 1;
    if path == [] {
      assert DeleteInHost(n, path, k).children == cs[..m];
      TidyPrefix(cs, m);
      TidyNode(cs[..m]);
    } else {
      var c := DeleteInHost(cs[m], path[1..], k);
      DeleteLastTidy(cs[m], path[1..]);
      assert DeleteInHost(n, path, k).children == cs[m := c];
      TidyReplace(cs, m, c);
      TidyNode(cs[m := c]);
    }
  }

  // ---------------------------------------------------------------------
  // One cancellation on a tidy list

  /** r, the list after a cancellation at boundary i, is tidy, and the sweep
      can go on to index i - 1. */
  ghost predicate TidyAfter(r: seq<Node>, i: nat) {
    TidyList(r) && AllTidy(r) && (i < |r| || (i == |r| && (i == 0 || IsOtherLeaf(r[i - 1]))))
  }

  lemma CancelTidy(cs: seq<Node>, i: nat, ls: Site, rs: Site)
    requires SitesFit(cs, i, ls, rs) && TidyList(cs) && AllTidy(cs)
    requires ls.InSelf? ==> IsCxLeaf(cs[i])
    requires rs.InSelf? ==> IsCxLeaf(cs[i + 1])
    ensures TidyAfter(Cancel(cs, i, ls, rs), i)
  {
    match (ls, rs)
    case (InSelf, InSelf) => CancelTidySelves(cs, i);
    case (InSelf, InChild(p)) => CancelTidyRight(cs, i, p);
    case (InChild(p), InSelf) => CancelTidyLeft(cs, i, p);
    case (InChild(p), InChild(q)) => CancelTidyBoth(cs, i, p, q);
  }

  /** Two cx children of the list cancel: they were its last two entries. */
  lemma CancelTidySelves(cs: seq<Node>, i: nat)
    requires SitesFit(cs, i, InSelf, InSelf) && TidyList(cs) && AllTidy(cs)
    requires IsCxLeaf(cs[i])
    requires IsCxLeaf(cs[i + 1])
    ensures TidyAfter(Cancel(cs, i, InSelf, InSelf), i)
  {
    CancelSplit(cs, i, InSelf, InSelf);
    assert i + 2 == |cs|;
    assert Cancel(cs, i, InSelf, InSelf) == cs[..i];
    TidyPrefix(cs, i);
  }

  /** A cx child cancels with the first gate inside the next child. */
  lemma CancelTidyRight(cs: seq<Node>, i: nat, p: seq<nat>)
    requires SitesFit(cs, i, InSelf, InChild(p)) && TidyList(cs) && AllTidy(cs)
    requires IsCxLeaf(cs[i])
    ensures TidyAfter(Cancel(cs, i, InSelf, InChild(p)), i)
  {
    CancelSplit(cs, i, InSelf, InChild(p));
    DeleteFirstTidy(cs[i + 1], p);
    var d := cs[..i] + cs[i + 1..];
    TidyDeleteCx(cs, i);
    assert Cancel(cs, i, InSelf, InChild(p)) == d[i := DeleteInHost(cs[i + 1], p, 0)];
    TidyReplace(d, i, DeleteInHost(cs[i + 1], p, 0));
  }

  /** The last gate inside a child cancels with the next child, a cx. */
  lemma CancelTidyLeft(cs: seq<Node>, i: nat, p: seq<nat>)
    requires SitesFit(cs, i, InChild(p), InSelf) && TidyList(cs) && AllTidy(cs)
    requires IsCxLeaf(cs[i + 1])
    ensures TidyAfter(Cancel(cs, i, InChild(p), InSelf), i)
  {
    CancelSplit(cs, i, InChild(p), InSelf);
    DeleteLastTidy(cs[i], p);
    var d := cs[..i + 1] + cs[i + 2..];
    TidyDeleteCx(cs, i + 1);
    var l := DeleteInHost(cs[i], p, |HostAt(cs[i], p).children| - 1);
    assert Cancel(cs, i, InChild(p), InSelf) == d[i := l];
    TidyReplace(d, i, l);
  }

  /** The last gate inside one child cancels with the first inside the next. */
  lemma CancelTidyBoth(cs: seq<Node>, i: nat, p: seq<nat>, q: seq<nat>)
    requires SitesFit(cs, i, InChild(p), InChild(q)) && TidyList(cs) && AllTidy(cs)
    ensures TidyAfter(Cancel(cs, i, InChild(p), InChild(q)), i)
  {
    CancelSplit(cs, i, InChild(p), InChild(q));
    DeleteLastTidy(cs[i], p);
    DeleteFirstTidy(cs[i + 1], q);
    var l := DeleteInHost(cs[i], p, |HostAt(cs[i], p).children| - 1);
    var d := cs[i := l];
    TidyReplace(cs, i, l);
    assert Cancel(cs, i, InChild(p), InChild(q)) == d[i + 1 := DeleteInHost(cs[i + 1], q, 0)];
    TidyReplace(d, i + 1, DeleteInHost(cs[i + 1], q, 0));
  }

  /** The boundary test after child i of a tidy list never reads past the end,
      and leaves the list tidy with room for the next step. */
  lemma BoundaryTidy(cs: seq<Node>, i: nat, removed: bool)
    requires i < |cs| && TidyList(cs) && AllTidy(cs)
    requires i + 1 < |cs| || IsOtherLeaf(cs[i])
    ensures var b := Boundary(cs, i, removed);
      b.Some? && TidyList(b.value.0) && AllTidy(b.value.0) &&
      (i < |b.value.0| || (i == |b.value.0| && (i == 0 || IsOtherLeaf(b.value.0[i - 1]))))
  {
    var left := LeftEdge(cs[i]);
    if left.Some? && left.value.1.Cx? && i + 1 < |cs| {
      var right := RightEdge(cs[i + 1]);
      if right.Some? && right.value.1 == left.value.1 {
        CancelTidy(cs, i, left.value.0, right.value.0);
      }
    }
  }

  // ---------------------------------------------------------------------
  // A pass over a tidy tree

  /** On a tidy tree a pass never raises IndexError, and its result is tidy. */
  lemma {:induction false} CancelPassTidy(n: Node)
    requires n.Composite? && Tidy(n)
    ensures CancelPass(n).Done?
    ensures CancelPass(n).node.Composite? && Tidy(CancelPass(n).node)
    decreases n, 2
  {
    var cs := n.children;
    if |cs| == 0 {
    } else if |cs| == 1 && cs[0].Composite? {
      CancelPassTidy(cs[0]);
    } else if cs[|cs| - 1].Composite? {
      LastChildTidy(n);
    } else {
      SweepTidy(n, cs, |cs| - 2, false);
    }
  }

  lemma {:induction false} LastChildTidy(n: Node)
    requires n.Composite? && Tidy(n)
    requires |n.children| > 0 && n.children[|n.children| - 1].Composite?
    requires !(|n.children| == 1 && n.children[0].Composite?)
    ensures CancelPass(n).Done?
    ensures CancelPass(n).node.Composite? && Tidy(CancelPass(n).node)
    decreases n, 1
  {
    var cs := n.children;
    var m := |cs| - 1;
    CancelPassTidy(cs[m]);
    var sub := CancelPass(cs[m]);
    var cs' := cs[m := sub.node];
    TidyReplace(cs, m, sub.node);
    SweepTidy(n, cs', m - 1, sub.removed);
  }

  lemma {:induction false} StepTidy(parent: Node, cs: seq<Node>, i: nat, removed: bool)
    requires parent.Composite? && Tidy(parent)
    requires i < |cs| && i < |parent.children|
    requires forall k :: 0 <= k <= i ==> cs[k] == parent.children[k]
    requires TidyList(cs) && AllTidy(cs)
    requires i + 1 < |cs| || IsOtherLeaf(cs[i])
    ensures var step := if cs[i].Composite? && !removed then CancelPass(parent.children[i])
                        else Done(cs[i], removed);
      step.Done? && Boundary(cs[i := step.node], i, step.removed).Some? &&
      var next := Boundary(cs[i := step.node], i, step.removed).value.0;
      TidyAfter(next, i)
    decreases parent, 0, i + 1, 0
  {
    var recurse := cs[i].Composite? && !removed;
    if recurse {
      assert Tidy(parent.children[i]);
      CancelPassTidy(parent.children[i]);
      TidyReplace(cs, i, CancelPass(parent.children[i]).node);
    } else {
      assert cs[i := cs[i]] == cs;
    }
    var step := if recurse then CancelPass(parent.children[i]) else Done(cs[i], removed);
    BoundaryTidy(cs[i := step.node], i, step.removed);
  }

  lemma {:induction false} SweepTidy(parent: Node, cs: seq<Node>, i: int, removed: bool)
    requires parent.Composite? && Tidy(parent)
    requires -1 <= i < |cs| && i < |parent.children|
    requires forall k :: 0 <= k <= i ==> cs[k] == parent.children[k]
    requires TidyList(cs) && AllTidy(cs)
    requires i < 0 || i + 1 < |cs| || IsOtherLeaf(cs[i])
    ensures Sweep(parent, cs, i, removed).Done?
    ensures Sweep(parent, cs, i, removed).node.Composite? && Tidy(Sweep(parent, cs, i, removed).node)
    decreases parent, 0, i + 1, 1
  {
    if i >= 0 {
      StepTidy(parent, cs, i, removed);
      var step := if cs[i].Composite? && !removed then CancelPass(parent.children[i])
                  else Done(cs[i], removed);
      var (next, flag) := Boundary(cs[i := step.node], i, step.removed).value;
      SweepUnfold(parent, cs, i, removed, step.node, step.removed, next, flag);
      SweepTidy(parent, next, i - 1, flag);
    }
  }
}

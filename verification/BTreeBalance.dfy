/** What a deletion leaves of a leaf and its neighbour. */
module BTreeBalance {
  import opened Wrappers
  import opened PageLayout
  import opened SplitPoint
  import Rebalance
  import opened BTree

  function Trees(kids: seq<Kid>): (s: seq<Tree>)
    ensures |s| == |kids| && forall k | 0 <= k < |kids| :: s[k] == kids[k].child
  {
    seq(|kids|, k requires 0 <= k < |kids| => kids[k].child)
  }

  /** The children of the branch page, or of the two pages that it was split into. */
  function Children(r: Res): seq<Tree> {
    match r
    case One(Branch(kids), _, _) => Trees(kids)
    case Two(Branch(s), _, Branch(m), _, _) => Trees(s) + Trees(m)
    case _ => []
  }

  lemma FitBranchChildren(psize: int, c: seq<Kid>, i: nat)
    requires i < |c| && !FitBranch(psize, c, i).Full?
    ensures Children(FitBranch(psize, c, i)) == Trees(c)
  {
    hide KidWeights, Sum, SplitIndex;
    var r := FitBranch(psize, c, i);
    if r.Two? {
      assert Trees(r.left.kids) + Trees(r.right.kids) == Trees(c);
    }
  }

  lemma GrownChildren(r: Res, leaves: int, branches: int)
    ensures Children(Grown(r, leaves, branches)) == Children(r) && Grown(r, leaves, branches).Full? == r.Full?
  {
  }

  /** Less than a quarter of the leaf is in use. */
  predicate Sparse(psize: int, items: seq<Item>) {
    4 * Sum(ItemWeights(psize, items)) < Pmax(psize)
  }

  lemma SparseNeeds(psize: int, items: seq<Item>)
    requires psize >= Rebalance.MIN_PSIZE
    ensures NeedsRebalance(psize, Leaf(items)) <==> Sparse(psize, items)
    ensures CanSpare(psize, Leaf(items)) <==> !Sparse(psize, items) && |items| >= 2
  {
    hide Sum, ItemWeights;
    Rebalance.QuarterExact(psize, ItemWeights(psize, items));
  }

  /** Two neighbouring leaves, the first or the second of which is sparse: an item of the other
      one moves over, or they become one. */
  function Balanced(psize: int, a: seq<Item>, b: seq<Item>, first: bool): seq<Tree>
    requires psize >= Rebalance.MIN_PSIZE
  {
    var other := if first then b else a;
    if Sparse(psize, other) || |other| < 2 then [Leaf(a + b)]
    else if first then [Leaf(a + [b[0]]), Leaf(b[1..])]
    else [Leaf(a[..|a| - 1]), Leaf([a[|a| - 1]] + b)]
  }

  /** The trees x and x + 1 give way to others. */
  function Replaced(ts: seq<Tree>, x: nat, new_: seq<Tree>): seq<Tree>
    requires x + 1 < |ts|
  {
    ts[..x] + new_ + ts[x + 2..]
  }

  lemma TreesAround(kids: seq<Kid>, x: nat, new_: seq<Kid>)
    requires x + 1 < |kids|
    ensures Trees(kids[..x] + new_ + kids[x + 2..]) == Replaced(Trees(kids), x, Trees(new_))
  {
  }

  lemma MovedChildren(psize: int, kids: seq<Kid>, x: nat, p: (Tree, Key, Tree))
    requires x + 1 < |kids| && !MoveKids(psize, kids, x, p).res.Full?
    ensures Children(MoveKids(psize, kids, x, p).res) == Replaced(Trees(kids), x, [p.0, p.2])
  {
    hide FitBranch, Fits, Trees, Replaced;
    var new_ := [Kid(kids[x].key, p.0), Kid(p.1, p.2)];
    FitBranchChildren(psize, kids[..x] + new_ + kids[x + 2..], x + 1);
    TreesAround(kids, x, new_);
    assert Trees(new_) == [p.0, p.2];
  }

  lemma MergedChildren(psize: int, kids: seq<Kid>, x: nat)
    requires x + 1 < |kids| && !MergeKids(psize, kids, x).res.Full?
    ensures Children(MergeKids(psize, kids, x).res)
      == Replaced(Trees(kids), x, [Merged(kids[x].child, kids[x + 1].child)])
  {
    hide Fits, Trees, Merged, Replaced;
    var m := Merged(kids[x].child, kids[x + 1].child);
    TreesAround(kids, x, [Kid(kids[x].key, m)]);
    assert Trees([Kid(kids[x].key, m)]) == [m];
  }

  lemma RebalancedLeaves(psize: int, kids: seq<Kid>, i: nat, x: nat, a: seq<Item>, b: seq<Item>)
    requires psize >= Rebalance.MIN_PSIZE && i < |kids| && x + 1 < |kids| && x == if i == 0 then 0 else i - 1
    requires !RebalanceKid(psize, kids, i).res.Full? && kids[x].child == Leaf(a) && kids[x + 1].child == Leaf(b)
    ensures Children(RebalanceKid(psize, kids, i).res)
      == Replaced(Trees(kids), x, Balanced(psize, a, b, i == 0))
  {
    hide Sparse, CanSpare, Children, Trees, MoveKids, MergeKids, Replaced;
    SparseNeeds(psize, a);
    SparseNeeds(psize, b);
    if CanSpare(psize, Leaf(if i == 0 then b else a)) {
      MovedChildren(psize, kids, x, if i == 0 then MovedLeft(Leaf(a), Leaf(b)) else MovedRight(Leaf(a), Leaf(b)));
    } else {
      MergedChildren(psize, kids, x);
    }
  }

  /** What is left of the leaves of a page, the items of leaf i being rest now: while a quarter of
      its room is in use only this leaf has changed.  Below that, it is balanced with the leaf on
      its left, or the one on its right if it is the first. */
  function LeavesAfter(psize: int, leaves: seq<Tree>, i: nat, rest: seq<Item>): seq<Tree>
    requires psize >= Rebalance.MIN_PSIZE && |leaves| >= 2 && i < |leaves|
    requires forall k | 0 <= k < |leaves| :: leaves[k].Leaf?
  {
    if !Sparse(psize, rest) then leaves[i := Leaf(rest)]
    else if i == 0 then Replaced(leaves, 0, Balanced(psize, rest, leaves[1].items, true))
    else Replaced(leaves, i - 1, Balanced(psize, leaves[i - 1].items, rest, false))
  }

  lemma SameChildren(kids: seq<Kid>, r: Res)
    requires r == One(Branch(kids), 0, 0)
    ensures Children(r) == Trees(kids)
  {
  }

  lemma DeletedLeaf(psize: int, kids: seq<Kid>, i: nat, rest: seq<Item>)
    requires psize >= Rebalance.MIN_PSIZE && |kids| >= 2 && i < |kids|
    requires forall k | 0 <= k < |kids| :: kids[k].child.Leaf?
    requires !DeleteKid(psize, kids, i, Cut(One(Leaf(rest), 0, 0), true)).res.Full?
    ensures Children(DeleteKid(psize, kids, i, Cut(One(Leaf(rest), 0, 0), true)).res)
      == LeavesAfter(psize, Trees(kids), i, rest)
  {
    hide Sparse, RebalanceKid, Balanced, NeedsRebalance, Trees, Children;
    SparseNeeds(psize, rest);
    var kids' := kids[i := Kid(kids[i].key, Leaf(rest))];
    assert Trees(kids') == Trees(kids)[i := Leaf(rest)];
    if !Sparse(psize, rest) {
      SameChildren(kids', WithKid(psize, kids, i, One(Leaf(rest), 0, 0)));
    } else {
      GrownChildren(RebalanceKid(psize, kids', i).res, 0, 0);
      if i == 0 {
        RebalancedLeaves(psize, kids', 0, 0, rest, kids[1].child.items);
        assert Trees(kids')[..0] == Trees(kids)[..0] && Trees(kids')[2..] == Trees(kids)[2..];
      } else {
        RebalancedLeaves(psize, kids', i, i - 1, kids[i - 1].child.items, rest);
        assert Trees(kids')[..i - 1] == Trees(kids)[..i - 1] && Trees(kids')[i + 1..] == Trees(kids)[i + 1..];
      }
    }
  }

  /** A deletion from a page of leaves. */
  lemma LeafAfterDelete(psize: int, kids: seq<Kid>, rank: real, j: nat)
    requires psize >= Rebalance.MIN_PSIZE && |kids| >= 2 && forall k | 0 <= k < |kids| :: kids[k].child.Leaf?
    requires var items := kids[ChildIndex(kids, rank)].child.items;
      j == LeafPos(items, rank) && j < |items| && items[j].key.rank == rank
    requires !Delete(psize, Branch(kids), rank).res.Full?
    ensures var i := ChildIndex(kids, rank);
      var items := kids[i].child.items;
      Children(Delete(psize, Branch(kids), rank).res)
      == LeavesAfter(psize, Trees(kids), i, items[..j] + items[j + 1..])
  {
    hide LeavesAfter, LeafPos, ChildIndex, DeleteKid;
    var i := ChildIndex(kids, rank);
    var items := kids[i].child.items;
    assert kids[i].child == Leaf(items);
    DeletedLeaf(psize, kids, i, items[..j] + items[j + 1..]);
  }
}

/** When mdb_rebalance merges a page with its neighbour and when it moves a node over, and
    that there is always room for it.  Pages are given by the weights of their nodes. */
module Rebalance {
  import opened SplitPoint

  /** The smallest page a file can have. */
  const MIN_PSIZE := 4096

  /** PAGEFILL: the used part of a page in tenths of a percent, rounded down. */
  function PageFill(psize: int, w: seq<int>): int
    requires psize >= MIN_PSIZE
  {
    1000 * Sum(w) / Pmax(psize)
  }

  function MinKeys(leaf: bool): int {
    if leaf then 1 else 2
  }

  function Threshold(leaf: bool): int {
    if leaf then 250 else 1
  }

  /** The page gets rebalanced. */
  predicate Needs(leaf: bool, psize: int, w: seq<int>)
    requires psize >= MIN_PSIZE
  {
    PageFill(psize, w) < Threshold(leaf) || |w| < MinKeys(leaf)
  }

  /** The neighbour can spare a node; otherwise the two pages are merged. */
  predicate Spares(leaf: bool, psize: int, w: seq<int>)
    requires psize >= MIN_PSIZE
  {
    PageFill(psize, w) >= Threshold(leaf) && |w| > MinKeys(leaf)
  }

  /** The contents of a page below the root; keys of branch nodes have at most 511 bytes. */
  ghost predicate Page(leaf: bool, psize: int, w: seq<int>) {
    && MIN_PSIZE <= psize <= 0x8000
    && Sum(w) <= Pmax(psize)
    && forall i | 0 <= i < |w| :: KEYLESS <= w[i] <= if leaf then MaxWeight(psize) else if i == 0 then KEYLESS else LARGEST_BRANCH
  }

  lemma Below(a: int, p: int, t: int)
    requires p > 0 && a / p < t
    ensures a < t * p
  {
    assert a == a / p * p + a % p;
    assert a / p * p <= (t - 1) * p by {
      Times(t - 1 - a / p, p);
    }
  }

  lemma Times(x: int, p: int)
    requires x >= 0 && p > 0
    ensures x * p >= 0
  {
  }

  lemma LeafFill(psize: int, w: seq<int>)
    requires psize >= MIN_PSIZE && PageFill(psize, w) < Threshold(true)
    ensures 4 * Sum(w) < Pmax(psize)
  {
    hide Sum;
    Below(1000 * Sum(w), Pmax(psize), 250);
  }

  lemma BranchFill(psize: int, w: seq<int>)
    requires MIN_PSIZE <= psize <= 0x8000 && PageFill(psize, w) < Threshold(false)
    ensures Sum(w) <= 32
  {
    hide Sum;
    Below(1000 * Sum(w), Pmax(psize), 1);
  }

  lemma NotBelow(a: int, p: int, t: int)
    requires p > 0 && a < t * p
    ensures a / p < t
  {
    assert a == a / p * p + a % p;
    if a / p >= t {
      Times(a / p - t, p);
    }
  }

  /** A leaf is rebalanced when less than a quarter of its room is in use, and spares an item when
      as much is and another one remains. */
  lemma QuarterExact(psize: int, w: seq<int>)
    requires psize >= MIN_PSIZE
    ensures Needs(true, psize, w) <==> 4 * Sum(w) < Pmax(psize)
    ensures Spares(true, psize, w) <==> 4 * Sum(w) >= Pmax(psize) && |w| >= 2
  {
    if 4 * Sum(w) < Pmax(psize) {
      NotBelow(1000 * Sum(w), Pmax(psize), 250);
    } else if PageFill(psize, w) < Threshold(true) {
      LeafFill(psize, w);
    }
  }

  /** A branch page is rebalanced when it has one child left, or less than a thousandth of its
      room in use; it spares a child when three or more are left, and as much is in use. */
  lemma ThousandthExact(psize: int, w: seq<int>)
    requires MIN_PSIZE <= psize <= 0x8000
    ensures Needs(false, psize, w) <==> |w| < 2 || 1000 * Sum(w) < Pmax(psize)
    ensures Spares(false, psize, w) <==> |w| > 2 && 1000 * Sum(w) >= Pmax(psize)
  {
    hide Sum;
    if 1000 * Sum(w) < Pmax(psize) {
      NotBelow(1000 * Sum(w), Pmax(psize), 1);
    } else if PageFill(psize, w) < Threshold(false) {
      Below(1000 * Sum(w), Pmax(psize), 1);
    }
  }

  lemma {:induction false} OneNode(w: seq<int>, x: int)
    requires |w| <= 1 && 0 <= x && forall i | 0 <= i < |w| :: w[i] <= x
    ensures Sum(w) <= x
  {
    SumShort(w);
  }

  lemma TwoNodes(w: seq<int>, x: int, y: int)
    requires |w| <= 2 && 0 <= x && 0 <= y && forall i | 0 <= i < |w| :: w[i] <= if i == 0 then x else y
    ensures Sum(w) <= x + y
  {
    if |w| == 2 {
      SumShort(w[..1]);
    } else {
      SumShort(w);
    }
  }

  /** What a page that needs rebalancing holds at most. */
  lemma NeedsLittle(leaf: bool, psize: int, w: seq<int>)
    requires Page(leaf, psize, w) && Needs(leaf, psize, w)
    ensures leaf ==> 4 * Sum(w) < Pmax(psize)
    ensures !leaf ==> Sum(w) <= 32
  {
    if PageFill(psize, w) < Threshold(leaf) {
      if leaf {
        LeafFill(psize, w);
      } else {
        BranchFill(psize, w);
      }
    } else {
      OneNode(w, if leaf then 0 else KEYLESS);
    }
  }

  /** Merging: the nodes of both pages fit on one, even when the first branch node of the
      page that is dissolved gets a key of any length. */
  lemma MergeFits(leaf: bool, psize: int, w: seq<int>, v: seq<int>, first: int)
    requires Page(leaf, psize, w) && Page(leaf, psize, v) && Needs(leaf, psize, w) && !Spares(leaf, psize, v)
    requires first <= LARGEST_BRANCH
    ensures Sum(w) + Sum(v) + (if leaf then 0 else first - KEYLESS) <= Pmax(psize)
  {
    hide Sum;
    NeedsLittle(leaf, psize, w);
    if PageFill(psize, v) < Threshold(leaf) {
      if leaf {
        LeafFill(psize, v);
      } else {
        BranchFill(psize, v);
      }
    } else if leaf {
      OneNode(v, MaxWeight(psize));
      HalfPage(psize);
    } else {
      TwoNodes(v, KEYLESS, LARGEST_BRANCH);
    }
  }

  lemma HalfPage(psize: int)
    requires psize >= MIN_PSIZE
    ensures 2 * MaxWeight(psize) <= Pmax(psize)
  {
  }

  /** Moving: the page has room for the node; a branch page also for giving its own first
      node a key before the new one is put in front of it. */
  lemma MoveFits(leaf: bool, psize: int, w: seq<int>, x: int, first: int)
    requires Page(leaf, psize, w) && Needs(leaf, psize, w)
    requires x <= (if leaf then MaxWeight(psize) else LARGEST_BRANCH) && first <= LARGEST_BRANCH
    ensures Sum(w) + x + (if leaf then 0 else first - KEYLESS) <= Pmax(psize)
  {
    hide Sum;
    NeedsLittle(leaf, psize, w);
    HalfPage(psize);
  }

  /** A leaf or branch page that spares a node keeps at least MinKeys nodes itself. */
  lemma SparesKeeps(leaf: bool, psize: int, w: seq<int>)
    requires psize >= MIN_PSIZE && Spares(leaf, psize, w)
    ensures |w| - 1 >= MinKeys(leaf)
  {
  }
}

/** Where mdb_page_split cuts a page.  A page is given by the weights of its nodes: the bytes
    of each, rounded up to an even number, and its pointer. */
module SplitPoint {
  import opened PageLayout

  /** The weight of a branch node without a key, and of a node with a key of one byte. */
  const KEYLESS := 10
  const SMALLEST := 12

  function Pmax(psize: int): int {
    psize - PAGEHDRSZ
  }

  /** me_nodemax and a pointer: the weight of the largest node. */
  function MaxWeight(psize: int): int {
    Pmax(psize) / 2 / 2 * 2
  }

  predicate PageSize(psize: int) {
    1024 <= psize <= 0x8000 && psize % 2 == 0
  }

  predicate Even(x: int) {
    x % 2 == 0
  }

  function Sum(w: seq<int>): int {
    if w == [] then 0 else Sum(w[..|w| - 1]) + w[|w| - 1]
  }

  /** A node of a page: the first node of a branch page has no key. */
  predicate Weight(leaf: bool, psize: int, i: int, x: int) {
    && Even(x) && x <= MaxWeight(psize)
    && (if !leaf && i == 0 then x == KEYLESS else SMALLEST <= x)
  }

  /** What a page may hold. */
  ghost predicate Legal(leaf: bool, psize: int, w: seq<int>) {
    (forall i | 0 <= i < |w| :: Weight(leaf, psize, i, w[i])) && Sum(w) <= Pmax(psize)
  }

  /** The nodes in order, the new one among them. */
  function Combined(w: seq<int>, newindx: int, nsize: int): (c: seq<int>)
    requires 0 <= newindx <= |w|
    ensures |c| == |w| + 1
  {
    w[..newindx] + [nsize] + w[newindx..]
  }

  /** Bytes of the left and the right page when the nodes are cut before node split.  The
      first node of a right branch page is stored without its key. */
  function Left(c: seq<int>, split: int): int
    requires 0 <= split <= |c|
  {
    Sum(c[..split])
  }

  function Right(leaf: bool, c: seq<int>, split: int): int
    requires 0 <= split < |c|
  {
    if leaf then Sum(c[split..]) else KEYLESS + Sum(c[split + 1..])
  }

  ghost predicate Splits(leaf: bool, psize: int, c: seq<int>, split: int) {
    1 <= split < |c| && Left(c, split) <= Pmax(psize) && Right(leaf, c, split) <= Pmax(psize)
  }

  /** The condition under which the source looks for a split point at all. */
  predicate Scans(psize: int, nkeys: int, newindx: int, nsize: int) {
    nkeys < psize / 128 || nsize > Pmax(psize) / 16 || newindx >= nkeys
  }

  // ------------------------------------------------------------ sums

  lemma {:induction false} SumConcat(a: seq<int>, b: seq<int>)
    ensures Sum(a + b) == Sum(a) + Sum(b)
  {
    if b == [] {
      assert a + b == a;
    } else {
      var n := |b| - 1;
      SumConcat(a, b[..n]);
      assert (a + b)[..|a + b| - 1] == a + b[..n];
    }
  }

  lemma SumOne(x: int)
    ensures Sum([x]) == x && Sum([]) == 0
  {
    assert [x][..0] == [];
  }

  lemma SumCut(c: seq<int>, i: nat)
    requires i < |c|
    ensures Sum(c) == Sum(c[..i]) + c[i] + Sum(c[i + 1..])
    ensures Sum(c[..i + 1]) == Sum(c[..i]) + c[i]
    ensures Sum(c[i..]) == c[i] + Sum(c[i + 1..])
  {
    hide Sum;
    SumConcat(c[..i], [c[i]]);
    SumConcat([c[i]], c[i + 1..]);
    SumConcat(c[..i], c[i..]);
    SumOne(c[i]);
    assert c[..i + 1] == c[..i] + [c[i]] && c[i..] == [c[i]] + c[i + 1..] && c == c[..i] + c[i..];
  }

  lemma {:induction false} SumAtLeast(w: seq<int>, x: int)
    requires forall i | 0 <= i < |w| :: w[i] >= x
    ensures Sum(w) >= x * |w|
  {
    if w != [] {
      SumAtLeast(w[..|w| - 1], x);
    }
  }

  lemma SumCombined(w: seq<int>, newindx: nat, nsize: int)
    requires newindx <= |w|
    ensures Sum(Combined(w, newindx, nsize)) == Sum(w) + nsize
    ensures Combined(w, newindx, nsize)[newindx] == nsize
  {
    SumConcat(w[..newindx] + [nsize], w[newindx..]);
    SumConcat(w[..newindx], [nsize]);
    SumConcat(w[..newindx], w[newindx..]);
    assert w == w[..newindx] + w[newindx..];
    SumOne(nsize);
  }

  // ------------------------------------------------------------ the scan

  lemma TwoHalves(psize: int)
    requires PageSize(psize)
    ensures 2 * MaxWeight(psize) <= Pmax(psize) && MaxWeight(psize) >= 504
  {
  }

  lemma SumShort(w: seq<int>)
    ensures |w| == 0 ==> Sum(w) == 0
    ensures |w| == 1 ==> Sum(w) == w[0]
  {
    if |w| == 1 {
      assert w == [w[0]];
      SumOne(w[0]);
    }
  }

  /** A page that has to be split has two nodes. */
  lemma TwoKeys(leaf: bool, psize: int, w: seq<int>, nsize: int)
    requires PageSize(psize) && Legal(leaf, psize, w) && nsize <= MaxWeight(psize) && Sum(w) + nsize > Pmax(psize)
    ensures |w| >= 2
  {
    TwoHalves(psize);
    SumShort(w);
    assert forall i | 0 <= i < |w| :: Weight(leaf, psize, i, w[i]);
  }

  /** Every node, the new one included, takes at most half a page and at least KEYLESS. */
  lemma NodeBounds(leaf: bool, psize: int, w: seq<int>, newindx: int, nsize: int)
    requires PageSize(psize) && Legal(leaf, psize, w) && 0 <= newindx <= |w|
    requires SMALLEST <= nsize <= MaxWeight(psize)
    ensures forall i | 0 <= i <= |w| :: KEYLESS <= Combined(w, newindx, nsize)[i] <= MaxWeight(psize)
  {
    hide MaxWeight, Sum;
    var c := Combined(w, newindx, nsize);
    forall i | 0 <= i <= |w|
      ensures KEYLESS <= c[i] <= MaxWeight(psize)
    {
      assert c[i] == if i < newindx then w[i] else if i == newindx then nsize else w[i - 1];
      assert i < newindx ==> Weight(leaf, psize, i, w[i]);
      assert i > newindx ==> Weight(leaf, psize, i - 1, w[i - 1]);
    }
  }

  /** Cut at the node that overflows one side: what is left for the other side is less than
      the new node and that node together. */
  lemma OverflowCut(leaf: bool, psize: int, w: seq<int>, newindx: int, nsize: int, i: nat)
    requires PageSize(psize) && Legal(leaf, psize, w) && 0 <= newindx <= |w| && i <= |w|
    requires SMALLEST <= nsize <= MaxWeight(psize)
    ensures var c, pmax := Combined(w, newindx, nsize), Pmax(psize);
      && (Sum(c[..i + 1]) > pmax ==> Sum(c[i..]) <= pmax)
      && (Sum(c[i..]) > pmax ==> Sum(c[..i + 1]) <= pmax)
  {
    hide MaxWeight, Sum;
    var c := Combined(w, newindx, nsize);
    NodeBounds(leaf, psize, w, newindx, nsize);
    TwoHalves(psize);
    SumCombined(w, newindx, nsize);
    SumCut(c, i);
  }

  lemma RightAtMost(leaf: bool, c: seq<int>, split: nat)
    requires split < |c| && c[split] >= KEYLESS
    ensures Right(leaf, c, split) <= Sum(c[split..])
  {
    hide Sum;
    SumCut(c, split);
  }

  /** A side with old nodes only fits, as the old page did. */
  lemma OldSide(w: seq<int>, newindx: nat, nsize: int, split: nat)
    requires newindx <= |w| && split <= |w| + 1 && (forall i | 0 <= i < |w| :: w[i] >= 0)
    ensures newindx < split ==> Sum(Combined(w, newindx, nsize)[split..]) <= Sum(w)
    ensures newindx >= split ==> Sum(Combined(w, newindx, nsize)[..split]) <= Sum(w)
  {
    hide Sum, Combined;
    CombinedSides(w, newindx, nsize, split);
    if newindx < split {
      SumPart(w, split - 1);
    } else {
      SumPart(w, split);
    }
  }

  lemma CombinedSides(w: seq<int>, newindx: nat, nsize: int, split: nat)
    requires newindx <= |w| && split <= |w| + 1
    ensures newindx < split ==> Combined(w, newindx, nsize)[split..] == w[split - 1..]
    ensures newindx >= split ==> Combined(w, newindx, nsize)[..split] == w[..split]
  {
  }

  lemma SumPart(w: seq<int>, k: nat)
    requires k <= |w| && forall i | 0 <= i < |w| :: w[i] >= 0
    ensures Sum(w[..k]) <= Sum(w) && Sum(w[k..]) <= Sum(w)
  {
    hide Sum;
    SumConcat(w[..k], w[k..]);
    SumAtLeast(w[..k], 0);
    SumAtLeast(w[k..], 0);
    assert w == w[..k] + w[k..];
  }

  lemma ForwardCut(leaf: bool, psize: int, w: seq<int>, newindx: int, nsize: int, split: int, k: int)
    requires PageSize(psize) && Legal(leaf, psize, w) && 0 <= newindx <= |w| && |w| >= 2
    requires SMALLEST <= nsize <= MaxWeight(psize)
    requires var half := (|w| + 1) / 2;
      if newindx >= |w| then k == |w| else newindx <= half && k == half + 1 + if leaf then 1 else 0
    requires 0 <= split < k
    requires var c := Combined(w, newindx, nsize);
      Sum(c[..split]) <= Pmax(psize) && (Sum(c[..split + 1]) > Pmax(psize) || split == k - 1)
    ensures Splits(leaf, psize, Combined(w, newindx, nsize), split)
  {
    hide MaxWeight, Sum, Right;
    var c, pmax := Combined(w, newindx, nsize), Pmax(psize);
    NodeBounds(leaf, psize, w, newindx, nsize);
    TwoHalves(psize);
    RightAtMost(leaf, c, split);
    if split == 0 {
      FirstOnly(c);
    }
    if Sum(c[..split + 1]) > pmax {
      OverflowCut(leaf, psize, w, newindx, nsize, split);
    } else if newindx >= |w| {
      LastTwo(c);
    } else if newindx < split {
      OldNodes(leaf, psize, w);
      OldSide(w, newindx, nsize, split);
    } else {
      NewFirst(leaf, psize, w, newindx, nsize);
    }
  }

  lemma FirstOnly(c: seq<int>)
    requires |c| > 0
    ensures Sum(c[..1]) == c[0]
  {
    assert c[..1] == [c[0]];
    SumOne(c[0]);
  }

  lemma LastTwo(c: seq<int>)
    requires |c| >= 2
    ensures Sum(c[|c| - 2..]) == c[|c| - 2] + c[|c| - 1]
  {
    hide Sum;
    var x, y := c[|c| - 2], c[|c| - 1];
    assert c[|c| - 2..] == [x] + [y];
    SumConcat([x], [y]);
    SumOne(x);
    SumOne(y);
  }

  lemma OldNodes(leaf: bool, psize: int, w: seq<int>)
    requires Legal(leaf, psize, w)
    ensures forall i | 0 <= i < |w| :: w[i] >= KEYLESS
  {
    assert forall i | 0 <= i < |w| :: Weight(leaf, psize, i, w[i]);
  }

  /** The new node becomes the first of a right branch page and loses its key there. */
  lemma NewFirst(leaf: bool, psize: int, w: seq<int>, newindx: int, nsize: int)
    requires !leaf && Legal(leaf, psize, w) && 0 < newindx < |w|
    ensures Right(leaf, Combined(w, newindx, nsize), newindx) <= Pmax(psize)
  {
    hide Sum;
    var c := Combined(w, newindx, nsize);
    OldNodes(leaf, psize, w);
    assert c[newindx + 1..] == w[newindx..];
    SumConcat(w[..newindx], w[newindx..]);
    SumAtLeast(w[..newindx], KEYLESS);
    assert w == w[..newindx] + w[newindx..];
  }

  lemma BackwardCut(leaf: bool, psize: int, w: seq<int>, newindx: int, nsize: int, split: int)
    requires PageSize(psize) && Legal(leaf, psize, w) && (|w| + 1) / 2 < newindx < |w|
    requires SMALLEST <= nsize <= MaxWeight(psize)
    requires (|w| + 1) / 2 < split <= |w| + 1
    requires var c := Combined(w, newindx, nsize);
      Sum(c[split..]) <= Pmax(psize) && (Sum(c[split - 1..]) > Pmax(psize) || split == (|w| + 1) / 2 + 1)
    ensures Splits(leaf, psize, Combined(w, newindx, nsize), split)
  {
    hide MaxWeight, Sum, Right;
    var c, pmax := Combined(w, newindx, nsize), Pmax(psize);
    NodeBounds(leaf, psize, w, newindx, nsize);
    TwoHalves(psize);
    if split == |w| + 1 {
      LastOnly(c);
    }
    RightAtMost(leaf, c, split);
    if Sum(c[split - 1..]) > pmax {
      OverflowCut(leaf, psize, w, newindx, nsize, split - 1);
    } else {
      OldNodes(leaf, psize, w);
      OldSide(w, newindx, nsize, split);
    }
  }

  lemma LastOnly(c: seq<int>)
    requires |c| > 0
    ensures Sum(c[|c| - 1..]) == c[|c| - 1]
  {
    assert c[|c| - 1..] == [c[|c| - 1]];
    SumOne(c[|c| - 1]);
  }

  /** The search upwards from node i to the one before k: stops at the node that overflows
      the left page. */
  function ScanUp(c: seq<int>, pmax: int, i: int, k: int, size: int): int
    requires 0 <= i < k <= |c|
    decreases k - i
  {
    if size + c[i] > pmax || i == k - 1 then i else ScanUp(c, pmax, i + 1, k, size + c[i])
  }

  /** The search downwards from node i to the one after k: stops behind the node that
      overflows the right page. */
  function ScanDown(c: seq<int>, pmax: int, i: int, k: int, size: int): int
    requires -1 <= k < i < |c|
    decreases i - k
  {
    if size + c[i] > pmax || i == k + 1 then i + 1 else ScanDown(c, pmax, i - 1, k, size + c[i])
  }

  /** Where the page is cut. */
  function SplitIndex(leaf: bool, psize: int, w: seq<int>, newindx: int, nsize: int): int
    requires 0 <= newindx <= |w| && |w| >= 2
  {
    var half, c := (|w| + 1) / 2, Combined(w, newindx, nsize);
    if !Scans(psize, |w|, newindx, nsize) then half
    else if newindx >= |w| then ScanUp(c, Pmax(psize), 0, |w|, 0)
    else if newindx <= half then ScanUp(c, Pmax(psize), 0, half + 1 + (if leaf then 1 else 0), 0)
    else ScanDown(c, Pmax(psize), |w|, half - 1, 0)
  }

  lemma {:induction false} ScanUpStops(c: seq<int>, pmax: int, i: nat, k: int, size: int)
    requires i < k <= |c| && size == Sum(c[..i]) <= pmax
    ensures var s := ScanUp(c, pmax, i, k, size);
      && i <= s < k && Sum(c[..s]) <= pmax && (Sum(c[..s + 1]) > pmax || s == k - 1)
      && forall m | i <= m <= s :: Sum(c[..m]) <= pmax
    decreases k - i
  {
    hide Sum;
    SumCut(c, i);
    if !(size + c[i] > pmax || i == k - 1) {
      ScanUpStops(c, pmax, i + 1, k, size + c[i]);
    }
  }

  lemma {:induction false} ScanDownStops(c: seq<int>, pmax: int, i: int, k: int, size: int)
    requires -1 <= k < i < |c| && size == Sum(c[i + 1..]) <= pmax
    ensures var s := ScanDown(c, pmax, i, k, size);
      && k + 2 <= s <= i + 1 && Sum(c[s..]) <= pmax && (Sum(c[s - 1..]) > pmax || s == k + 2)
      && forall m | s <= m <= i + 1 :: Sum(c[m..]) <= pmax
    decreases i - k
  {
    hide Sum;
    SumCut(c, i);
    if !(size + c[i] > pmax || i == k + 1) {
      ScanDownStops(c, pmax, i - 1, k, size + c[i]);
    }
  }

  lemma NothingYet(c: seq<int>)
    ensures Sum(c[..0]) == 0 && Sum(c[|c|..]) == 0
  {
    SumOne(0);
    assert c[..0] == [] && c[|c|..] == [];
  }

  /** Whenever the split point is searched for, both pages get a node and no page gets more
      than it can hold. */
  lemma SearchSplits(leaf: bool, psize: int, w: seq<int>, newindx: int, nsize: int)
    requires PageSize(psize) && Legal(leaf, psize, w) && 0 <= newindx <= |w| && |w| >= 2
    requires SMALLEST <= nsize <= MaxWeight(psize) && Scans(psize, |w|, newindx, nsize)
    ensures Splits(leaf, psize, Combined(w, newindx, nsize), SplitIndex(leaf, psize, w, newindx, nsize))
  {
    hide Sum, MaxWeight, ScanUp, ScanDown;
    var half, c, pmax := (|w| + 1) / 2, Combined(w, newindx, nsize), Pmax(psize);
    var split := SplitIndex(leaf, psize, w, newindx, nsize);
    NothingYet(c);
    if newindx >= |w| {
      ScanUpStops(c, pmax, 0, |w|, 0);
      ForwardCut(leaf, psize, w, newindx, nsize, split, |w|);
    } else if newindx <= half {
      var k := half + 1 + if leaf then 1 else 0;
      ScanUpStops(c, pmax, 0, k, 0);
      ForwardCut(leaf, psize, w, newindx, nsize, split, k);
    } else {
      ScanDownStops(c, pmax, |w|, half - 1, 0);
      BackwardCut(leaf, psize, w, newindx, nsize, split);
    }
  }

  /** The first position up to which the nodes fit the left page, but not with one node more, or
      the last position allowed. */
  ghost predicate FirstFull(c: seq<int>, pmax: int, split: int, last: int) {
    && 0 <= split <= last < |c|
    && (forall m | 0 <= m <= split :: Sum(c[..m]) <= pmax)
    && (split == last || Sum(c[..split + 1]) > pmax)
  }

  /** From the end: the last position from which on the nodes fit the right page, but not with one
      node more, or the first position allowed. */
  ghost predicate LastFull(c: seq<int>, pmax: int, split: int, first: int) {
    && 1 <= first <= split <= |c|
    && (forall m | split <= m <= |c| :: Sum(c[m..]) <= pmax)
    && (split == first || Sum(c[split - 1..]) > pmax)
  }

  /** Where a page with nodes of weights w is cut for a new node at newindx: in the middle when
      it is not searched for; so that the last old node goes with a new one behind it; and
      otherwise from the side of the new node on as far as the nodes fit, up to the middle. */
  ghost predicate CutPlace(leaf: bool, psize: int, w: seq<int>, newindx: int, nsize: int, split: int)
    requires 0 <= newindx <= |w|
  {
    var half, c := (|w| + 1) / 2, w[..newindx] + [nsize] + w[newindx..];
    if !Scans(psize, |w|, newindx, nsize) then split == half
    else if newindx == |w| then split == |w| - 1
    else if newindx <= half then FirstFull(c, Pmax(psize), split, if leaf then half + 1 else half)
    else LastFull(c, Pmax(psize), split, half + 1)
  }

  lemma SearchPlace(leaf: bool, psize: int, w: seq<int>, newindx: int, nsize: int)
    requires PageSize(psize) && Legal(leaf, psize, w) && 0 <= newindx <= |w| && |w| >= 2
    ensures CutPlace(leaf, psize, w, newindx, nsize, SplitIndex(leaf, psize, w, newindx, nsize))
  {
    hide Sum, MaxWeight, ScanUp, ScanDown;
    var half, c, pmax := (|w| + 1) / 2, Combined(w, newindx, nsize), Pmax(psize);
    NothingYet(c);
    if !Scans(psize, |w|, newindx, nsize) {
    } else if newindx >= |w| {
      var s := SplitIndex(leaf, psize, w, newindx, nsize);
      ScanUpStops(c, pmax, 0, |w|, 0);
      assert c[..s + 1] == w[..s + 1];
      OldNodes(leaf, psize, w);
      PrefixAtMost(w, s + 1);
    } else if newindx <= half {
      ScanUpStops(c, pmax, 0, half + 1 + (if leaf then 1 else 0), 0);
    } else {
      ScanDownStops(c, pmax, |w|, half - 1, 0);
    }
  }

  lemma PrefixAtMost(w: seq<int>, k: nat)
    requires k <= |w| && forall i | 0 <= i < |w| :: w[i] >= 0
    ensures Sum(w[..k]) <= Sum(w)
  {
    SumConcat(w[..k], w[k..]);
    assert w == w[..k] + w[k..];
    SumPositive(w[k..]);
  }

  lemma {:induction false} SumPositive(w: seq<int>)
    requires forall i | 0 <= i < |w| :: w[i] >= 0
    ensures Sum(w) >= 0
  {
    if w != [] {
      SumPositive(w[..|w| - 1]);
    }
  }

  /** The search for the split point, as the source runs it. */
  method FindSplit(leaf: bool, psize: int, w: seq<int>, newindx: int, nsize: int) returns (split: int)
    requires PageSize(psize) && Legal(leaf, psize, w) && 0 <= newindx <= |w|
    requires Even(nsize) && SMALLEST <= nsize <= MaxWeight(psize)
    requires Sum(w) + nsize > Pmax(psize)
    ensures |w| >= 2 && split == SplitIndex(leaf, psize, w, newindx, nsize)
    ensures CutPlace(leaf, psize, w, newindx, nsize, split)
    ensures Scans(psize, |w|, newindx, nsize) ==> Splits(leaf, psize, Combined(w, newindx, nsize), split)
  {
    hide Sum, MaxWeight, Legal, Splits, CutPlace;
    ghost var c := Combined(w, newindx, nsize);
    var nkeys, pmax := |w|, Pmax(psize);
    TwoKeys(leaf, psize, w, nsize);
    SearchPlace(leaf, psize, w, newindx, nsize);
    split := (nkeys + 1) / 2;
    ghost var result := SplitIndex(leaf, psize, w, newindx, nsize);
    if nkeys < psize / 128 || nsize > pmax / 16 || newindx >= nkeys {
      SearchSplits(leaf, psize, w, newindx, nsize);
      var size, i, j, k := 0, 0, 1, 0;
      if newindx <= split || newindx >= nkeys {
        k := if newindx >= nkeys then nkeys else split + 1 + (if leaf then 1 else 0);
      } else {
        i, j, k := nkeys, -1, split - 1;
      }
      ghost var forward := j == 1;
      while i != k
        invariant j == if forward then 1 else -1
        invariant if forward then 0 <= i < k <= |c| else -1 <= k < i < |c|
        invariant result == if forward then ScanUp(c, pmax, i, k, size) else ScanDown(c, pmax, i, k, size)
        decreases if forward then k - i else i - k
      {
        size := size + if i == newindx then nsize else if i < newindx then w[i] else w[i - 1];
        if size > pmax || i == k - j {
          split := i + (if j < 0 then 1 else 0);
          break;
        }
        i := i + j;
      }
    }
  }

  /** The weight of a branch node with the longest key, of 511 bytes. */
  const LARGEST_BRANCH := 522

  lemma {:induction false} SumAtMost(w: seq<int>, x: int)
    requires forall i | 0 <= i < |w| :: w[i] <= x
    ensures Sum(w) <= x * |w|
  {
    if w != [] {
      SumAtMost(w[..|w| - 1], x);
    }
  }

  /** Branch nodes are small against a page, so a branch page that is split leaves at least
      two nodes on either side. */
  lemma BranchKeepsTwo(psize: int, w: seq<int>, newindx: int, nsize: int)
    requires 4096 <= psize <= 0x8000 && 0 <= newindx <= |w|
    requires (forall i | 0 <= i < |w| :: 0 <= w[i] <= LARGEST_BRANCH) && 0 <= nsize <= LARGEST_BRANCH
    requires Sum(w) + nsize > Pmax(psize)
    ensures |w| >= 7 && 2 <= SplitIndex(false, psize, w, newindx, nsize) <= |w| - 1
  {
    hide Sum, ScanUp, ScanDown, Combined;
    var half, c, pmax := (|w| + 1) / 2, Combined(w, newindx, nsize), Pmax(psize);
    SumAtMost(w, LARGEST_BRANCH);
    SmallAll(w, newindx, nsize);
    if Scans(psize, |w|, newindx, nsize) {
      if newindx >= |w| {
        ScanUpFar(c, pmax, |w|);
      } else if newindx <= half {
        ScanUpFar(c, pmax, half + 1);
      } else {
        ScanDownFar(c, pmax, half - 1);
      }
    }
  }

  lemma ScanUpFar(c: seq<int>, pmax: int, k: int)
    requires 0 < k <= |c| && pmax >= 4080 && forall i | 0 <= i < |c| :: c[i] <= LARGEST_BRANCH
    ensures var s := ScanUp(c, pmax, 0, k, 0); s == k - 1 || 7 <= s < k
  {
    hide Sum, ScanUp;
    NothingYet(c);
    ScanUpStops(c, pmax, 0, k, 0);
    SumAtMost(c[..ScanUp(c, pmax, 0, k, 0) + 1], LARGEST_BRANCH);
  }

  lemma ScanDownFar(c: seq<int>, pmax: int, k: int)
    requires 0 <= k && k + 1 < |c| && pmax >= 4080 && forall i | 0 <= i < |c| :: c[i] <= LARGEST_BRANCH
    ensures var s := ScanDown(c, pmax, |c| - 1, k, 0); s == k + 2 || k + 2 < s <= |c| - 7
  {
    hide Sum, ScanDown;
    NothingYet(c);
    ScanDownStops(c, pmax, |c| - 1, k, 0);
    SumAtMost(c[ScanDown(c, pmax, |c| - 1, k, 0) - 1..], LARGEST_BRANCH);
  }

  lemma SmallAll(w: seq<int>, newindx: int, nsize: int)
    requires 0 <= newindx <= |w|
    requires (forall i | 0 <= i < |w| :: 0 <= w[i] <= LARGEST_BRANCH) && 0 <= nsize <= LARGEST_BRANCH
    ensures forall i | 0 <= i <= |w| :: 0 <= Combined(w, newindx, nsize)[i] <= LARGEST_BRANCH
  {
  }

  // ------------------------------------------------------------ the unchecked middle

  /** How many old nodes stay on the page that does not get the new node. */
  function Others(nkeys: int, newindx: int): int {
    var half := (nkeys + 1) / 2;
    if newindx < half then nkeys - half + 1 else half
  }

  /** Cutting in the middle without a search is safe for every content the page can have. */
  ghost predicate MiddleSafe(leaf: bool, psize: int, nkeys: nat, newindx: nat, nsize: int)
    requires newindx < nkeys
  {
    forall w | |w| == nkeys && Legal(leaf, psize, w) ::
      Splits(leaf, psize, Combined(w, newindx, nsize), (nkeys + 1) / 2)
  }

  /** Exactly when the search may be left out: the new node must not be bigger than the
      smallest nodes the other page can hold, unless it becomes the first node of a branch
      page.  The source leaves it out for small nodes on pages with many. */
  lemma MiddleExact(leaf: bool, psize: int, nkeys: nat, newindx: nat, nsize: int)
    requires PageSize(psize) && newindx < nkeys && (leaf || newindx > 0)
    requires Even(nsize) && SMALLEST <= nsize && !Scans(psize, nkeys, newindx, nsize)
    ensures MiddleSafe(leaf, psize, nkeys, newindx, nsize)
      <==> nsize <= SMALLEST * Others(nkeys, newindx) || (!leaf && newindx == (nkeys + 1) / 2)
  {
    if nsize <= SMALLEST * Others(nkeys, newindx) || (!leaf && newindx == (nkeys + 1) / 2) {
      forall w | |w| == nkeys && Legal(leaf, psize, w)
        ensures Splits(leaf, psize, Combined(w, newindx, nsize), (nkeys + 1) / 2)
      {
        MiddleFits(leaf, psize, w, newindx, nsize);
      }
    } else {
      var w := Overfull(leaf, psize, nkeys, newindx, nsize);
      assert !Splits(leaf, psize, Combined(w, newindx, nsize), (nkeys + 1) / 2);
    }
  }

  lemma SmallNodes(leaf: bool, psize: int, w: seq<int>, from: nat, to: nat)
    requires Legal(leaf, psize, w) && from <= to <= |w|
    ensures Sum(w[from..to]) >= SMALLEST * (to - from) - if !leaf && from == 0 < to then 2 else 0
  {
    var t := w[from..to];
    assert forall i | 0 <= i < |w| :: Weight(leaf, psize, i, w[i]);
    if !leaf && from == 0 < to {
      SumConcat([w[0]], w[1..to]);
      SumOne(w[0]);
      SumAtLeast(w[1..to], SMALLEST);
      assert t == [w[0]] + w[1..to];
    } else {
      SumAtLeast(t, SMALLEST);
    }
  }

  lemma MiddleFits(leaf: bool, psize: int, w: seq<int>, newindx: nat, nsize: int)
    requires PageSize(psize) && Legal(leaf, psize, w) && newindx < |w| && |w| >= 2 && (leaf || newindx > 0)
    requires SMALLEST <= nsize <= MaxWeight(psize)
    requires nsize <= SMALLEST * Others(|w|, newindx) || (!leaf && newindx == (|w| + 1) / 2)
    ensures Splits(leaf, psize, Combined(w, newindx, nsize), (|w| + 1) / 2)
  {
    hide Sum, Right, MaxWeight;
    var half, c := (|w| + 1) / 2, Combined(w, newindx, nsize);
    NodeBounds(leaf, psize, w, newindx, nsize);
    OldNodes(leaf, psize, w);
    OldSide(w, newindx, nsize, half);
    RightAtMost(leaf, c, half);
    SumCombined(w, newindx, nsize);
    SumConcat(c[..half], c[half..]);
    assert c == c[..half] + c[half..];
    if newindx < half {
      SmallNodes(leaf, psize, w, half - 1, |w|);
      assert c[half..] == w[half - 1..|w|];
    } else if !leaf && newindx == half {
      NewFirst(leaf, psize, w, newindx, nsize);
    } else if leaf {
      SmallNodes(leaf, psize, w, 0, half);
      assert c[..half] == w[0..half];
    } else {
      MiddleBranch(psize, w, newindx, nsize);
    }
  }

  lemma MiddleBranch(psize: int, w: seq<int>, newindx: nat, nsize: int)
    requires Legal(false, psize, w) && (|w| + 1) / 2 < newindx < |w|
    requires nsize <= SMALLEST * ((|w| + 1) / 2)
    ensures Right(false, Combined(w, newindx, nsize), (|w| + 1) / 2) <= Pmax(psize)
  {
    hide Sum;
    var half, c := (|w| + 1) / 2, Combined(w, newindx, nsize);
    SmallNodes(false, psize, w, 0, half);
    assert Weight(false, psize, half, w[half]);
    SumCombined(w, newindx, nsize);
    SumCut(c, half);
    assert c[..half] == w[0..half] && c[half] == w[half];
  }

  /** The smallest nodes, but for two neighbours that fill the page up. */
  function FullPage(leaf: bool, nkeys: nat, b: nat, x: int, y: int): (w: seq<int>)
    ensures |w| == nkeys
    ensures forall i | 0 <= i < nkeys ::
      w[i] == if i == b then x else if i == b + 1 then y else if !leaf && i == 0 then KEYLESS else SMALLEST
  {
    seq(nkeys, i => if i == b then x else if i == b + 1 then y else if !leaf && i == 0 then KEYLESS else SMALLEST)
  }

  lemma {:induction false} SumFlat(w: seq<int>)
    requires forall i | 0 <= i < |w| :: w[i] == SMALLEST
    ensures Sum(w) == SMALLEST * |w|
  {
    if w != [] {
      SumFlat(w[..|w| - 1]);
    }
  }

  lemma SumFirst(leaf: bool, w: seq<int>)
    requires w != [] && w[0] == (if leaf then SMALLEST else KEYLESS) && forall i | 1 <= i < |w| :: w[i] == SMALLEST
    ensures Sum(w) == SMALLEST * |w| - if leaf then 0 else 2
  {
    SumConcat([w[0]], w[1..]);
    SumOne(w[0]);
    SumFlat(w[1..]);
    assert w == [w[0]] + w[1..];
  }

  lemma SumFullPage(leaf: bool, nkeys: nat, b: nat, x: int, y: int)
    requires 1 <= b && b + 2 <= nkeys
    ensures Sum(FullPage(leaf, nkeys, b, x, y)) == SMALLEST * (nkeys - 2) - (if leaf then 0 else 2) + x + y
  {
    hide Sum;
    var w := FullPage(leaf, nkeys, b, x, y);
    SumCut(w, b);
    SumCut(w, b + 1);
    SumFirst(leaf, w[..b]);
    SumFlat(w[b + 2..]);
  }

  /** The two big nodes of a full page of smallest ones. */
  lemma Excess(leaf: bool, psize: int, nkeys: nat, newindx: nat, nsize: int) returns (x: int, y: int)
    requires PageSize(psize) && newindx < nkeys
    requires !Scans(psize, nkeys, newindx, nsize) && nsize > SMALLEST * Others(nkeys, newindx)
    ensures nkeys >= 8 && Even(x) && Even(y)
    ensures SMALLEST <= x <= MaxWeight(psize) && SMALLEST <= y <= MaxWeight(psize)
    ensures x + y == Pmax(psize) - SMALLEST * (nkeys - 2) + if leaf then 0 else 2
  {
    var excess := Pmax(psize) - SMALLEST * nkeys + if leaf then 0 else 2;
    x := if excess <= MaxWeight(psize) - SMALLEST then SMALLEST + excess else MaxWeight(psize);
    y := 2 * SMALLEST + excess - x;
    assert 0 <= excess <= Pmax(psize) - 94;
  }

  /** A full page whose nodes on the side of the new one are as big as can be. */
  lemma Overfull(leaf: bool, psize: int, nkeys: nat, newindx: nat, nsize: int) returns (w: seq<int>)
    requires PageSize(psize) && newindx < nkeys && (leaf || newindx > 0)
    requires Even(nsize) && !Scans(psize, nkeys, newindx, nsize) && nsize > SMALLEST * Others(nkeys, newindx)
    requires leaf || newindx != (nkeys + 1) / 2
    ensures |w| == nkeys && Legal(leaf, psize, w) && Sum(w) == Pmax(psize)
    ensures !Splits(leaf, psize, Combined(w, newindx, nsize), (nkeys + 1) / 2)
  {
    hide Sum, MaxWeight, Splits, Combined;
    var x, y := Excess(leaf, psize, nkeys, newindx, nsize);
    var b := if newindx < (nkeys + 1) / 2 then (nkeys + 1) / 2 - 3 else nkeys - 2;
    w := FullPage(leaf, nkeys, b, x, y);
    SumFullPage(leaf, nkeys, b, x, y);
    assert forall i | 0 <= i < nkeys :: Weight(leaf, psize, i, w[i]);
    FullFails(leaf, psize, w, b, newindx, nsize);
  }

  lemma FullFails(leaf: bool, psize: int, w: seq<int>, b: nat, newindx: nat, nsize: int)
    requires |w| >= 8 && newindx < |w| && Sum(w) == Pmax(psize) && nsize > SMALLEST * Others(|w|, newindx)
    requires leaf || newindx != (|w| + 1) / 2
    requires var half := (|w| + 1) / 2; b == if newindx < half then half - 3 else |w| - 2
    requires forall i | 0 <= i < |w| && i != b && i != b + 1 :: w[i] == if !leaf && i == 0 then KEYLESS else SMALLEST
    ensures !Splits(leaf, psize, Combined(w, newindx, nsize), (|w| + 1) / 2)
  {
    hide Sum, Combined;
    var half, c := (|w| + 1) / 2, Combined(w, newindx, nsize);
    SumCombined(w, newindx, nsize);
    SumConcat(c[..half], c[half..]);
    assert c == c[..half] + c[half..];
    CombinedSides(w, newindx, nsize, half);
    if newindx < half {
      SumFlat(w[half - 1..]);
    } else {
      SumFirst(leaf, w[..half]);
      SumCut(c, half);
      if !leaf {
        assert c[half] == w[half] by {
          CombinedSides(w, newindx, nsize, half + 1);
          assert c[half] == c[..half + 1][half] && w[half] == w[..half + 1][half];
        }
      }
    }
  }
}

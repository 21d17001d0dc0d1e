/** Which sizes of keys a branch page can always take: those of BTreeTotal and no others. */
module BTreeKeys {
  import opened PageLayout
  import opened SplitPoint
  import opened BTree
  import opened BTreeShape
  import opened BTreeInsert
  import opened BTreeRoom
  import opened BTreeTotal

  /** Nodes of a branch page with legal keys in order; without node i, whose key has len bytes,
      they fit the page. */
  ghost predicate Separators(psize: int, c: seq<Kid>, i: nat, len: int) {
    && 0 < i < |c| && c[0].key == NOKEY && |c[i].key.bytes| == len
    && (forall k | 1 <= k < |c| :: KeyOk(c[k].key))
    && (forall j, k | 1 <= j < k < |c| :: c[j].key.rank < c[k].key.rank)
    && Sum(Without(KidWeights(c), i)) <= Pmax(psize)
  }

  lemma SeparatorWeights(psize: int, c: seq<Kid>, i: nat, len: int)
    requires psize >= 4096 && Separators(psize, c, i, len)
    ensures forall k | 0 <= k < |c| :: Weight(false, psize, k, KidWeights(c)[k])
    ensures KidWeights(c)[i] == Round(2 + NODESIZE + len)
  {
    hide KidWeights, Sum, MaxWeight;
    LargestFits(psize);
    forall k | 0 <= k < |c|
      ensures Weight(false, psize, k, KidWeights(c)[k])
    {
      KidWeightAt(c, k);
    }
    KidWeightAt(c, i);
  }

  /** A page takes every separator of a safe size. */
  lemma SafeFits(psize: int, c: seq<Kid>, i: nat, len: int)
    requires 4096 <= psize <= 0x8000 && psize % 2 == 0 && Separators(psize, c, i, len)
    requires SafeWeight(psize, Round(2 + NODESIZE + len))
    ensures !FitBranch(psize, c, i).Full?
  {
    hide Sum, KidWeights, SplitIndex, Legal, Weight, MaxWeight, SafeWeight;
    var w := KidWeights(c);
    SeparatorWeights(psize, c, i, len);
    BranchLegal(psize, w, i);
    if Sum(w) > Pmax(psize) {
      CutFits(false, psize, w, i);
    }
  }

  // ------------------------------------------------------------ a page that fails

  /** k even weights of branch nodes with the given sum. */
  function Spread(s: int, k: nat): (w: seq<int>)
    requires k > 0 || s == 0
    requires Even(s) && SMALLEST * k <= s <= LARGEST_BRANCH * k
    ensures |w| == k && forall j | 0 <= j < k :: Even(w[j]) && SMALLEST <= w[j] <= LARGEST_BRANCH
    decreases k
  {
    if k == 0 then []
    else
      var last := if s - LARGEST_BRANCH * (k - 1) > SMALLEST then s - LARGEST_BRANCH * (k - 1) else SMALLEST;
      Spread(s - last, k - 1) + [last]
  }

  lemma {:induction false} SumSpread(s: int, k: nat)
    requires k > 0 || s == 0
    requires Even(s) && SMALLEST * k <= s <= LARGEST_BRANCH * k
    ensures Sum(Spread(s, k)) == s
    decreases k
  {
    if k > 0 {
      var w := Spread(s, k);
      SumSpread(s - w[k - 1], k - 1);
      assert w[..k - 1] == Spread(s - w[k - 1], k - 1);
    }
  }

  /** The weights of a full page: the smallest nodes up to the middle, and behind it nodes that
      fill the page up. */
  lemma FullBehind(psize: int) returns (w: seq<int>)
    requires 4096 <= psize <= 0x8000 && psize % 2 == 0
    ensures var n := psize / 128;
      var half := (n + 1) / 2;
      && |w| == n >= 32 && w[0] == KEYLESS && Sum(w) == Pmax(psize)
      && (forall k | 1 <= k < n :: Even(w[k]) && SMALLEST <= w[k] <= LARGEST_BRANCH)
      && w[half] == SMALLEST && Sum(w[..half]) == KEYLESS + SMALLEST * (half - 1)
  {
    hide Sum;
    var n := psize / 128;
    var half := (n + 1) / 2;
    var s := Pmax(psize) - KEYLESS - SMALLEST * half;
    assert SMALLEST * (n - half - 1) <= s <= LARGEST_BRANCH * (n - half - 1);
    var front, back := seq(half + 1, k => if k == 0 then KEYLESS else SMALLEST), Spread(s, n - half - 1);
    w := front + back;
    SumSpread(s, n - half - 1);
    SumConcat(front, back);
    SumFirst(false, front);
    SumFirst(false, front[..half]);
    assert w[..half] == front[..half];
  }

  /** A node with a key of the given rank that gives it the given weight. */
  function Keyed(rank: real, x: int): Kid {
    Kid(if x == KEYLESS then NOKEY else Key(rank, Bytes(x - KEYLESS - 1)), Leaf([]))
  }

  function KeyedAll(w: seq<int>): (c: seq<Kid>)
    ensures |c| == |w| && forall k | 0 <= k < |w| :: c[k] == Keyed(k as real, w[k])
  {
    seq(|w|, k requires 0 <= k < |w| => Keyed(k as real, w[k]))
  }

  lemma KeyedWeighs(w: seq<int>, k: nat)
    requires k < |w| && (w[k] == KEYLESS || (Even(w[k]) && SMALLEST <= w[k] <= LARGEST_BRANCH))
    ensures KidWeights(KeyedAll(w))[k] == w[k] && (w[k] != KEYLESS ==> KeyOk(KeyedAll(w)[k].key))
  {
    KidWeightAt(KeyedAll(w), k);
  }

  /** The page with one more separator, of len bytes, before node i. */
  function WithNew(w: seq<int>, i: nat, len: nat): (c: seq<Kid>)
    requires i <= |w|
    ensures |c| == |w| + 1
  {
    KeyedAll(w)[..i] + [Kid(Key(i as real - 0.5, Bytes(len)), Leaf([]))] + KeyedAll(w)[i..]
  }

  lemma WithNewWeights(w: seq<int>, i: nat, len: nat)
    requires i <= |w| && forall k | 0 <= k < |w| :: KidWeights(KeyedAll(w))[k] == w[k]
    ensures KidWeights(WithNew(w, i, len)) == Combined(w, i, Round(2 + NODESIZE + len))
  {
    hide KidWeights;
    var c := WithNew(w, i, len);
    forall k | 0 <= k < |c|
      ensures KidWeights(c)[k] == Combined(w, i, Round(2 + NODESIZE + len))[k]
    {
      KidWeightAt(c, k);
      if k != i {
        KidWeightAt(KeyedAll(w), if k < i then k else k - 1);
      }
    }
  }

  lemma RightOverfull(psize: int, w: seq<int>, half: nat, x: int)
    requires half + 1 < |w| && Sum(w) == Pmax(psize) && x > SMALLEST * half
    requires w[half] == SMALLEST && Sum(w[..half]) == KEYLESS + SMALLEST * (half - 1)
    ensures !Splits(false, psize, Combined(w, half + 1, x), half)
  {
    hide Sum;
    var c := Combined(w, half + 1, x);
    SumCombined(w, half + 1, x);
    SumCut(c, half);
    assert c[..half] == w[..half] && c[half] == w[half];
  }

  lemma CannotFit(psize: int, c: seq<Kid>, w: seq<int>, half: nat, x: int)
    requires half + 1 < |w| && half == (|w| + 1) / 2 && KidWeights(c) == Combined(w, half + 1, x)
    requires |c| == |w| + 1 && x > 0 && Sum(w) == Pmax(psize) && !Scans(psize, |w|, half + 1, x)
    requires !Splits(false, psize, Combined(w, half + 1, x), half)
    ensures FitBranch(psize, c, half + 1).Full?
  {
    hide Sum, KidWeights, SplitIndex, Scans;
    MiddleIndex(false, psize, w, half + 1, x);
    SumCombined(w, half + 1, x);
    assert Without(Combined(w, half + 1, x), half + 1) == w;
  }

  lemma NewSeparator(psize: int, w: seq<int>, i: nat, len: nat)
    requires 1 < i < |w| && Sum(w) <= Pmax(psize) && w[0] == KEYLESS && 1 <= len <= MAXKEYSIZE
    requires forall k | 0 <= k < |w| :: KidWeights(KeyedAll(w))[k] == w[k] && (k > 0 ==> KeyOk(KeyedAll(w)[k].key))
    ensures Separators(psize, WithNew(w, i, len), i, len)
  {
    hide Sum, KidWeights, Keyed, KeyOk, WithNew, Combined;
    var c, x := WithNew(w, i, len), Round(2 + NODESIZE + len);
    WithNewWeights(w, i, len);
    WithoutNew(w, i, x);
    FirstKeyed(w);
    forall k | 0 <= k < |c|
      ensures k == 0 ==> c[k].key == NOKEY
      ensures k > 0 ==> KeyOk(c[k].key) && c[k].key.rank == RankAt(i, k)
      ensures k == i ==> |c[k].key.bytes| == len
    {
      NodeAt(w, i, len, k);
    }
  }

  function RankAt(i: nat, k: nat): real {
    if k < i then k as real else if k == i then i as real - 0.5 else k as real - 1.0
  }

  lemma WithoutNew(w: seq<int>, i: nat, x: int)
    requires i < |w|
    ensures Without(Combined(w, i, x), i) == w
  {
  }

  lemma FirstKeyed(w: seq<int>)
    requires w != [] && w[0] == KEYLESS
    ensures KeyedAll(w)[0].key == NOKEY
  {
  }

  lemma NodeAt(w: seq<int>, i: nat, len: nat, k: nat)
    requires 1 < i < |w| && k <= |w| && 1 <= len <= MAXKEYSIZE
    requires forall j | 1 <= j < |w| :: KeyOk(KeyedAll(w)[j].key)
    ensures var c := WithNew(w, i, len);
      && (k == 0 ==> c[k] == KeyedAll(w)[0])
      && (k > 0 ==> KeyOk(c[k].key) && c[k].key.rank == RankAt(i, k)) && (k == i ==> |c[k].key.bytes| == len)
  {
    var j := if k < i then k else if k == i then 1 else k - 1;
    assert KeyedAll(w)[j] == Keyed(j as real, w[j]);
    assert k != i ==> WithNew(w, i, len)[k] == KeyedAll(w)[j];
  }

  /** For every other size of key there is a page that does not take it. */
  lemma UnsafeFails(psize: int, len: nat) returns (c: seq<Kid>, i: nat)
    requires 4096 <= psize <= 0x8000 && psize % 2 == 0 && 1 <= len <= MAXKEYSIZE
    requires !SafeWeight(psize, Round(2 + NODESIZE + len))
    ensures Separators(psize, c, i, len) && FitBranch(psize, c, i).Full?
  {
    hide Sum, KidWeights, MaxWeight, Splits, SplitIndex, FitBranch, Separators, Combined;
    var w := FullBehind(psize);
    var half, x := (psize / 128 + 1) / 2, Round(2 + NODESIZE + len);
    i := half + 1;
    c := WithNew(w, i, len);
    forall k | 0 <= k < |w|
      ensures KidWeights(KeyedAll(w))[k] == w[k] && (k > 0 ==> KeyOk(KeyedAll(w)[k].key))
    {
      KeyedWeighs(w, k);
    }
    NewSeparator(psize, w, i, len);
    WithNewWeights(w, i, len);
    RightOverfull(psize, w, half, x);
    CannotFit(psize, c, w, half, x);
  }

  /** A key size is safe if and only if no branch page fails to take a separator of it. */
  lemma SafeKeyExact(psize: int, len: nat)
    requires 4096 <= psize <= 0x8000 && psize % 2 == 0 && 1 <= len <= MAXKEYSIZE
    ensures SafeWeight(psize, Round(2 + NODESIZE + len)) <==>
      forall c: seq<Kid>, i: nat | Separators(psize, c, i, len) :: !FitBranch(psize, c, i).Full?
  {
    hide SafeWeight, FitBranch;
    if SafeWeight(psize, Round(2 + NODESIZE + len)) {
      forall c: seq<Kid>, i: nat | Separators(psize, c, i, len)
        ensures !FitBranch(psize, c, i).Full?
      {
        SafeFits(psize, c, i, len);
      }
    } else {
      var c, i := UnsafeFails(psize, len);
    }
  }
}

/** The shape of a B+tree and what it means: order, separator bounds, uniform depth, page
    sizes, and the map from ranks to values that the tree stands for. */
module BTreeShape {
  import opened Wrappers
  import opened PageLayout
  import opened SplitPoint
  import opened BTree

  // ------------------------------------------------------------ meaning

  ghost function ItemsMap(items: seq<Item>): map<real, seq<int>> {
    if items == [] then map[]
    else ItemsMap(items[..|items| - 1])[items[|items| - 1].key.rank := items[|items| - 1].val]
  }

  ghost function Content(t: Tree): map<real, seq<int>>
    decreases t
  {
    match t
    case Leaf(items) => ItemsMap(items)
    case Branch(kids) => KidsMap(kids)
  }

  ghost function KidMap(kid: Kid): map<real, seq<int>>
    decreases kid
  {
    Content(kid.child)
  }

  ghost function KidsMap(kids: seq<Kid>): map<real, seq<int>>
    decreases kids
  {
    if kids == [] then map[] else KidsMap(kids[..|kids| - 1]) + KidMap(kids[|kids| - 1])
  }

  /** A map after a value is put under a rank, or the rank removed. */
  ghost function Upd(m: map<real, seq<int>>, rank: real, v: Option<seq<int>>): map<real, seq<int>> {
    match v
    case None => m - {rank}
    case Some(x) => m[rank := x]
  }

  // ------------------------------------------------------------ shape

  ghost predicate Ranks(items: seq<Item>, lo: real, hi: real) {
    && (forall i | 0 <= i < |items| :: lo <= items[i].key.rank < hi && KeyOk(items[i].key))
    && (forall i, j | 0 <= i < j < |items| :: items[i].key.rank < items[j].key.rank)
  }

  /** The page holds enough nodes for one that is not the root. */
  predicate Enough(t: Tree) {
    match t
    case Leaf(items) => items != []
    case Branch(kids) => |kids| >= 2
  }

  /** A subtree of the given height whose keys lie in [lo, hi).  The top page may have lost
      nodes; all pages below it have enough. */
  ghost predicate Shape(psize: int, t: Tree, height: int, lo: real, hi: real)
    decreases t
  {
    Fits(psize, t) &&
    match t
    case Leaf(items) => height == 1 && Ranks(items, lo, hi)
    case Branch(kids) => height >= 2 && kids != [] && kids[0].key == NOKEY && KidsOk(psize, kids, height - 1, lo, hi)
  }

  ghost predicate KidOk(psize: int, kid: Kid, height: int, lo: real, hi: real)
    decreases kid
  {
    Shape(psize, kid.child, height, lo, hi) && Enough(kid.child)
  }

  /** Neighbouring subtrees, separated by their keys; the first key plays no role. */
  ghost predicate KidsOk(psize: int, kids: seq<Kid>, height: int, lo: real, hi: real)
    decreases kids
  {
    kids != [] &&
    var last := kids[|kids| - 1];
    if |kids| == 1 then KidOk(psize, last, height, lo, hi)
    else
      && KeyOk(last.key)
      && KidOk(psize, last, height, last.key.rank, hi)
      && KidsOk(psize, kids[..|kids| - 1], height, lo, last.key.rank)
  }

  // ------------------------------------------------------------ cutting and joining

  lemma MapsConcat(a: map<real, seq<int>>, b: map<real, seq<int>>, c: map<real, seq<int>>)
    ensures a + b + c == a + (b + c)
  {
  }

  lemma KidsMapLast(kids: seq<Kid>, x: Kid)
    ensures KidsMap(kids + [x]) == KidsMap(kids) + KidMap(x)
  {
    assert (kids + [x])[..|kids|] == kids;
  }

  lemma {:induction false} KidsMapConcat(a: seq<Kid>, b: seq<Kid>)
    ensures KidsMap(a + b) == KidsMap(a) + KidsMap(b)
    decreases |b|
  {
    if b == [] {
      assert a + b == a;
    } else {
      hide *;
      var n := |b| - 1;
      KidsMapConcat(a, b[..n]);
      KidsMapLast(a + b[..n], b[n]);
      KidsMapLast(b[..n], b[n]);
      assert a + b[..n] + [b[n]] == a + b && b[..n] + [b[n]] == b;
      MapsConcat(KidsMap(a), KidsMap(b[..n]), KidMap(b[n]));
    }
  }

  lemma {:induction false} KidsCut(psize: int, kids: seq<Kid>, height: int, lo: real, hi: real, i: nat)
    requires KidsOk(psize, kids, height, lo, hi) && 0 < i < |kids|
    ensures KeyOk(kids[i].key)
    ensures KidsOk(psize, kids[..i], height, lo, kids[i].key.rank) && KidsOk(psize, kids[i..], height, kids[i].key.rank, hi)
    decreases |kids|
  {
    var n := |kids| - 1;
    if i == n {
      assert kids[i..] == [kids[n]];
    } else {
      KidsCut(psize, kids[..n], height, lo, kids[n].key.rank, i);
      assert kids[..n][..i] == kids[..i];
      assert kids[i..][..n - i] == kids[..n][i..] && kids[i..][n - i] == kids[n];
    }
  }

  lemma {:induction false} KidsJoin(psize: int, a: seq<Kid>, b: seq<Kid>, height: int, lo: real, hi: real)
    requires a != [] && b != [] && KeyOk(b[0].key)
    requires KidsOk(psize, a, height, lo, b[0].key.rank) && KidsOk(psize, b, height, b[0].key.rank, hi)
    ensures KidsOk(psize, a + b, height, lo, hi)
    decreases |b|
  {
    var n := |b| - 1;
    assert (a + b)[..|a + b| - 1] == a + b[..n] && (a + b)[|a + b| - 1] == b[n];
    if n == 0 {
      assert a + b[..n] == a;
    } else {
      KidsJoin(psize, a, b[..n], height, lo, b[n].key.rank);
    }
  }

  /** The first key plays no role. */
  lemma {:induction false} FirstKey(psize: int, kids: seq<Kid>, height: int, lo: real, hi: real, key: Key)
    requires KidsOk(psize, kids, height, lo, hi)
    ensures KidsOk(psize, Rekeyed(kids, key), height, lo, hi) && KidsMap(Rekeyed(kids, key)) == KidsMap(kids)
    decreases |kids|
  {
    var r, n := Rekeyed(kids, key), |kids| - 1;
    if n > 0 {
      FirstKey(psize, kids[..n], height, lo, kids[n].key.rank, key);
      assert r[..n] == Rekeyed(kids[..n], key) && r[n] == kids[n];
    }
  }

  // ------------------------------------------------------------ bounds

  ghost predicate Within(m: map<real, seq<int>>, lo: real, hi: real) {
    forall r | r in m :: lo <= r < hi
  }

  lemma {:induction false} ItemsWithin(items: seq<Item>, lo: real, hi: real)
    requires Ranks(items, lo, hi)
    ensures Within(ItemsMap(items), lo, hi)
  {
    if items != [] {
      ItemsWithin(items[..|items| - 1], lo, hi);
    }
  }

  lemma {:induction false} ShapeWithin(psize: int, t: Tree, height: int, lo: real, hi: real)
    requires Shape(psize, t, height, lo, hi)
    ensures Within(Content(t), lo, hi)
    ensures Enough(t) ==> lo < hi
    decreases t
  {
    match t
    case Leaf(items) => ItemsWithin(items, lo, hi);
    case Branch(kids) => KidsWithin(psize, kids, height - 1, lo, hi);
  }

  lemma {:induction false} KidWithin(psize: int, kid: Kid, height: int, lo: real, hi: real)
    requires KidOk(psize, kid, height, lo, hi)
    ensures Within(KidMap(kid), lo, hi) && lo < hi
    decreases kid
  {
    ShapeWithin(psize, kid.child, height, lo, hi);
  }

  lemma {:induction false} KidsWithin(psize: int, kids: seq<Kid>, height: int, lo: real, hi: real)
    requires KidsOk(psize, kids, height, lo, hi)
    ensures Within(KidsMap(kids), lo, hi) && lo < hi
    decreases kids
  {
    var n := |kids| - 1;
    if n == 0 {
      KidWithin(psize, kids[n], height, lo, hi);
      assert KidsMap(kids[..n]) == map[];
    } else {
      KidWithin(psize, kids[n], height, kids[n].key.rank, hi);
      KidsWithin(psize, kids[..n], height, lo, kids[n].key.rank);
    }
  }

  lemma {:induction false} ShapeWidens(psize: int, t: Tree, height: int, lo: real, hi: real, lo': real, hi': real)
    requires Shape(psize, t, height, lo, hi) && lo' <= lo && hi <= hi'
    ensures Shape(psize, t, height, lo', hi')
    decreases t
  {
    if t.Branch? {
      KidsWiden(psize, t.kids, height - 1, lo, hi, lo', hi');
    }
  }

  lemma {:induction false} KidWidens(psize: int, kid: Kid, height: int, lo: real, hi: real, lo': real, hi': real)
    requires KidOk(psize, kid, height, lo, hi) && lo' <= lo && hi <= hi'
    ensures KidOk(psize, kid, height, lo', hi')
    decreases kid
  {
    ShapeWidens(psize, kid.child, height, lo, hi, lo', hi');
  }

  lemma {:induction false} KidsWiden(psize: int, kids: seq<Kid>, height: int, lo: real, hi: real, lo': real, hi': real)
    requires KidsOk(psize, kids, height, lo, hi) && lo' <= lo && hi <= hi'
    ensures KidsOk(psize, kids, height, lo', hi')
    decreases kids
  {
    var n := |kids| - 1;
    if n == 0 {
      KidWidens(psize, kids[n], height, lo, hi, lo', hi');
    } else {
      KidWidens(psize, kids[n], height, kids[n].key.rank, hi, kids[n].key.rank, hi');
      KidsWiden(psize, kids[..n], height, lo, kids[n].key.rank, lo', kids[n].key.rank);
    }
  }
}

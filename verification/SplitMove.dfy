/** How mdb_page_split moves the nodes of a page and the new one to two pages.  Module
    SplitCursors has what becomes of the cursors. */
module SplitMove {
  import opened PageLayout
  import opened SlottedPage
  import SplitPoint

  /** A branch node that comes first on its page loses its key. */
  function AsFirst(n: Node): Node {
    if n.Branch? then Branch(n.pgno, []) else n
  }

  /** The nodes as a page stores them. */
  function Stored(s: seq<Node>): (r: seq<Node>)
    ensures |r| == |s|
  {
    if s == [] then [] else [AsFirst(s[0])] + s[1..]
  }

  /** What a page keeps of the nodes that are moved to it: leaf nodes whole, branch nodes with
      their child and, but for the first one, their key. */
  ghost predicate Keeps(page: seq<Node>, nodes: seq<Node>) {
    && |page| == |nodes|
    && forall k | 0 <= k < |nodes| ::
         if nodes[k].Leaf? then page[k] == nodes[k]
         else page[k].Branch? && page[k].pgno == nodes[k].pgno && page[k].key == if k == 0 then [] else nodes[k].key
  }

  /** The two pages have the nodes w with n before node newindx, cut before node split. */
  ghost predicate Halves(w: seq<Node>, newindx: int, n: Node, split: int, left: seq<Node>, right: seq<Node>) {
    && 0 <= newindx <= |w| && 0 <= split <= |w| + 1
    && var c := w[..newindx] + [n] + w[newindx..];
       Keeps(left, c[..split]) && Keeps(right, c[split..])
  }

  lemma StoredKeeps(s: seq<Node>)
    ensures Keeps(Stored(s), s)
  {
  }

  /** The nodes of the page with the new one among them, cut in two. */
  lemma HalvesKeep(w: seq<Node>, newindx: nat, n: Node, split: nat)
    requires newindx <= |w| && split <= |w| + 1
    ensures var c := Inserted(w, newindx, n); Halves(w, newindx, n, split, Stored(c[..split]), Stored(c[split..]))
  {
    var c := w[..newindx] + [n] + w[newindx..];
    StoredKeeps(c[..split]);
    StoredKeeps(c[split..]);
    assert Inserted(w, newindx, n) == c;
  }

  /** The bytes that nodes and their pointers need. */
  function Need(s: seq<Node>): int {
    Total(s) + 2 * |s|
  }

  ghost predicate Kind(leaf: bool, s: seq<Node>) {
    forall k | 0 <= k < |s| :: Fitting(s[k]) && s[k].Leaf? == leaf
  }

  // ------------------------------------------------------------ the combined pointers

  /** The pointers of the page with a gap for the new node, in the spare copy. */
  method PrepareSlots(to: array<int>, from: array<int>, nkeys: int, newindx: int)
    requires to != from && 0 <= newindx <= nkeys <= from.Length && nkeys < to.Length
    modifies to
    ensures forall k | 0 <= k < newindx :: to[k] == from[k]
    ensures forall k | newindx < k <= nkeys :: to[k] == from[k - 1]
  {
    var i, j := 0, 0;
    while i < nkeys
      invariant 0 <= i <= nkeys && j == if i <= newindx then i else i + 1
      invariant forall k | 0 <= k < j && k < newindx :: to[k] == from[k]
      invariant forall k | newindx < k < j :: to[k] == from[k - 1]
    {
      if i == newindx {
        to[j] := 0;
        j := j + 1;
      }
      to[j] := from[i];
      j := j + 1;
      i := i + 1;
    }
  }

  // ------------------------------------------------------------ sizes

  lemma {:induction false} TotalPrefix(s: seq<Node>, k: nat)
    requires k <= |s|
    ensures Total(s[..k]) <= Total(s)
    decreases |s|
  {
    if k < |s| {
      TotalPrefix(s[..|s| - 1], k);
      assert s[..|s| - 1][..k] == s[..k];
    } else {
      assert s[..k] == s;
    }
  }

  lemma StoredKind(leaf: bool, s: seq<Node>)
    requires Kind(leaf, s)
    ensures Kind(leaf, Stored(s))
  {
  }

  /** A node that the target list has room for is added at its end. */
  lemma RoomForNext(s: seq<Node>, k: nat, psize: int)
    requires k < |s| && PAGEHDRSZ + Need(s) <= psize
    ensures Size(s[k]) <= (psize - Total(s[..k])) - (PAGEHDRSZ + 2 * k) - 2
    ensures Inserted(s[..k], k, s[k]) == s[..k + 1]
  {
    TotalPrefix(s, k + 1);
    assert s[..k + 1][..k] == s[..k];
  }

  lemma PointersClear(s: seq<Node>, k: nat, psize: int)
    requires k <= |s| && PAGEHDRSZ + Need(s) <= psize
    ensures PAGEHDRSZ + 2 * |s| <= psize - Total(s[..k])
  {
    TotalPrefix(s, k);
  }

  lemma PageUpper(leaf: bool, b: seq<int>, ptrs: seq<int>, upper: int, s: seq<Node>)
    requires PageIs(leaf, b, ptrs, upper, s)
    ensures upper == |b| - Total(s) && |ptrs| == |s|
    ensures forall i | 0 <= i < |s| :: Shows(leaf, b, ptrs[i], s[i])
  {
  }

  /** Adds the next node of a target list at the end of a page.  The nodes stay clear of the
      room for the pointers of the whole list: in the copy that is where the pointers still to
      be read stand. */
  method AddNext(page: Page, ghost target: seq<Node>, n: Node, j: int)
    requires page.Valid() && 0 <= j < |target| && page.content == target[..j] && n == target[j]
    requires Kind(page.leaf, target) && PAGEHDRSZ + Need(target) <= page.bytes.Length
    modifies page`lower, page`upper, page`content, page.bytes, page.ptrs
    ensures page.Valid() && page.content == target[..j + 1]
    ensures PAGEHDRSZ + 2 * |target| <= page.upper
    ensures forall k | j < k < page.ptrs.Length :: page.ptrs[k] == old(page.ptrs[k])
  {
    hide PageIs, Size, Inserted, Total;
    PageUpper(page.leaf, page.bytes[..], page.ptrs[..j], page.upper, page.content);
    RoomForNext(target, j, page.bytes.Length);
    PointersClear(target, j + 1, page.bytes.Length);
    var ok := page.Add(j, n);
    PageUpper(page.leaf, page.bytes[..], page.ptrs[..j + 1], page.upper, page.content);
  }

  /** The node a pointer points at. */
  method NodeFrom(mp: Page, ptr: int, ghost i: int) returns (n: Node)
    requires mp.Valid() && 0 <= i < |mp.content| && ptr == mp.ptrs[i]
    ensures n == mp.content[i]
  {
    hide Packed, Size, Decode, SizeOf;
    ghost var b := mp.bytes[..];
    assert Shows(mp.leaf, b, mp.ptrs[..|mp.content|][i], mp.content[i]);
    PageNode(mp.leaf, b, mp.ptrs[..|mp.content|], mp.upper, mp.content, i);
    assert b[ptr..ptr + NODESIZE] == mp.bytes[ptr..ptr + NODESIZE];
    var sz := SizeOf(mp.leaf, mp.bytes[ptr..ptr + NODESIZE]);
    assert b[ptr..ptr + sz] == mp.bytes[ptr..ptr + sz];
    n := Decode(mp.leaf, mp.bytes[ptr..ptr + sz]);
  }

  // ------------------------------------------------------------ the move

  /** The combined pointers from position i on have not been overwritten yet. */
  ghost predicate Unread(copy: seq<int>, ptrs: seq<int>, nkeys: nat, newindx: nat, i: nat)
    requires newindx <= nkeys == |ptrs| && nkeys < |copy|
  {
    && (forall k | i <= k < newindx :: copy[k] == ptrs[k])
    && (forall k | i <= k <= nkeys && newindx < k :: copy[k] == ptrs[k - 1])
  }

  /** The pages of a split, with nothing shared between them. */
  ghost predicate Ready(mp: Page, rp: Page, copy: Page)
    reads mp, rp, copy, mp.bytes, rp.bytes, copy.bytes, mp.ptrs, rp.ptrs, copy.ptrs
  {
    && mp.Valid() && rp.Valid() && copy.Valid()
    && mp != rp && mp != copy && rp != copy
    && mp.leaf == rp.leaf == copy.leaf
    && mp.bytes.Length == rp.bytes.Length == copy.bytes.Length
    && mp.bytes !in {rp.bytes, rp.ptrs, copy.bytes, copy.ptrs} && mp.ptrs !in {rp.bytes, rp.ptrs, copy.bytes, copy.ptrs}
    && rp.bytes !in {copy.bytes, copy.ptrs} && rp.ptrs !in {copy.bytes, copy.ptrs}
  }

  /** One turn of the loop: takes node i of all, from the page by way of the combined
      pointers unless it is the new one, and adds it at position j of page `to`.  `to` may be
      the copy, whose pointers then lose their entry i. */
  method MoveOne(mp: Page, to: Page, copy: Page, newindx: int, n: Node, i: int, j: int, ghost from: nat,
                 ghost target: seq<Node>)
    requires mp.Valid() && to.Valid() && copy.Valid() && mp.leaf == to.leaf && mp != to && mp != copy
    requires mp.bytes !in {to.bytes, to.ptrs} && mp.ptrs !in {to.bytes, to.ptrs}
    requires copy == to || copy.ptrs !in {to.bytes, to.ptrs}
    requires 0 <= newindx <= |mp.content| < copy.ptrs.Length && from <= i <= |mp.content|
    requires Unread(copy.ptrs[..], mp.ptrs[..|mp.content|], |mp.content|, newindx, from)
    requires 0 <= j < |target| && to.content == target[..j] && Kind(to.leaf, target)
    requires PAGEHDRSZ + Need(target) <= to.bytes.Length
    requires var node := Inserted(mp.content, newindx, n)[i];
      target[j] == (if j == 0 then AsFirst(node) else node) && node.Leaf? == mp.leaf
    requires to == copy ==> i == j == from
    modifies to`lower, to`upper, to`content, to.bytes, to.ptrs
    ensures to.Valid() && to.content == target[..j + 1] && PAGEHDRSZ + 2 * |target| <= to.upper
    ensures var from' := if to == copy then i + 1 else from;
      Unread(copy.ptrs[..], mp.ptrs[..|mp.content|], |mp.content|, newindx, from')
  {
    hide PageIs, Need, Inserted, Kind, AsFirst;
    CombinedAt(mp.content, newindx, n, i);
    var node := n;
    if i != newindx {
      assert copy.ptrs[..][i] == mp.ptrs[if i < newindx then i else i - 1];
      node := NodeFrom(mp, copy.ptrs[i], if i < newindx then i else i - 1);
    }
    assert node == Inserted(mp.content, newindx, n)[i];
    LeafFirst(node);
    if !mp.leaf && j == 0 {
      node := AsFirst(node);
    }
    assert node == target[j];
    AddNext(to, target, node, j);
  }

  /** What the two pages hold when the loop has moved j nodes to the page it fills: the right one
      at first, the copy after it has wrapped around. */
  ghost predicate Reached(c: seq<Node>, split: nat, wrapped: bool, j: int, right: seq<Node>, left: seq<Node>)
    requires split <= |c|
  {
    && 0 <= j <= (if wrapped then split else |c| - split)
    && right == (if wrapped then Stored(c[split..]) else Stored(c[split..])[..j])
    && left == (if wrapped then Stored(c[..split])[..j] else [])
  }

  /** One turn of the loop. */
  method MoveNext(mp: Page, rp: Page, copy: Page, newindx: int, n: Node, ghost split: nat, i: int, j: int, wrapped: bool)
    requires Ready(mp, rp, copy) && 0 <= newindx <= |mp.content| < copy.ptrs.Length && 0 <= i <= |mp.content|
    requires if wrapped then i < split && j == i else split <= i && j == i - split
    requires Unread(copy.ptrs[..], mp.ptrs[..|mp.content|], |mp.content|, newindx, if wrapped then i else 0)
    requires var c := Inserted(mp.content, newindx, n);
      && 0 < split < |c| && Kind(mp.leaf, c)
      && PAGEHDRSZ + Need(Stored(c[..split])) <= mp.bytes.Length
      && PAGEHDRSZ + Need(Stored(c[split..])) <= mp.bytes.Length
      && Reached(c, split, wrapped, j, rp.content, copy.content)
    modifies rp`lower, rp`upper, rp`content, rp.bytes, rp.ptrs
    modifies copy`lower, copy`upper, copy`content, copy.bytes, copy.ptrs
    ensures rp.Valid() && copy.Valid()
    ensures Unread(copy.ptrs[..], mp.ptrs[..|mp.content|], |mp.content|, newindx, if wrapped then i + 1 else 0)
    ensures Reached(Inserted(mp.content, newindx, n), split, wrapped, j + 1, rp.content, copy.content)
  {
    hide PageIs, Unread, Stored, Need, Kind, Inserted, AsFirst;
    ghost var c := Inserted(mp.content, newindx, n);
    KindParts(mp.leaf, c, split);
    StoredAt(mp.leaf, c, split, i);
    if wrapped {
      MoveOne(mp, copy, copy, newindx, n, i, j, i, Stored(c[..split]));
    } else {
      MoveOne(mp, rp, copy, newindx, n, i, j, 0, Stored(c[split..]));
    }
  }

  lemma NoneReached(c: seq<Node>, split: nat)
    requires split <= |c|
    ensures Reached(c, split, false, 0, [], [])
  {
  }

  lemma AllReached(c: seq<Node>, split: nat, right: seq<Node>, left: seq<Node>)
    requires split <= |c| && Reached(c, split, true, split, right, left)
    ensures right == Stored(c[split..]) && left == Stored(c[..split])
  {
  }

  lemma WrapsAround(c: seq<Node>, split: nat, right: seq<Node>, left: seq<Node>)
    requires split <= |c| && Reached(c, split, false, |c| - split, right, left)
    ensures Reached(c, split, true, 0, right, left)
  {
  }

  /** The loop that moves the nodes: first those from the split point on to the right page,
      then, wrapping around, those before it to the copy.  While the copy receives its nodes,
      its pointers are overwritten and still being read.  ki is where the new node went. */
  method MoveNodes(mp: Page, rp: Page, copy: Page, newindx: int, n: Node, split: int) returns (ki: int)
    requires Ready(mp, rp, copy) && rp.content == [] && copy.content == []
    requires 0 <= newindx <= |mp.content| < copy.ptrs.Length
    requires Unread(copy.ptrs[..], mp.ptrs[..|mp.content|], |mp.content|, newindx, 0)
    requires var c := Inserted(mp.content, newindx, n);
      && 0 < split < |c| && Kind(mp.leaf, c)
      && PAGEHDRSZ + Need(Stored(c[..split])) <= mp.bytes.Length
      && PAGEHDRSZ + Need(Stored(c[split..])) <= mp.bytes.Length
    modifies rp`lower, rp`upper, rp`content, rp.bytes, rp.ptrs
    modifies copy`lower, copy`upper, copy`content, copy.bytes, copy.ptrs
    ensures Ready(mp, rp, copy)
    ensures var c := Inserted(mp.content, newindx, n);
      copy.content == Stored(c[..split]) && rp.content == Stored(c[split..])
    ensures Halves(mp.content, newindx, n, split, copy.content, rp.content)
    ensures ki == if newindx < split then newindx else newindx - split
  {
    hide PageIs, Unread, Stored, Need, Kind, Inserted, Halves, Reached;
    ghost var c := Inserted(mp.content, newindx, n);
    HalvesKeep(mp.content, newindx, n, split);
    var nkeys := mp.NumKeys();
    assert nkeys == |mp.content| && |c| == nkeys + 1;
    NoneReached(c, split);
    var i, j, wrapped := split, 0, false;
    ki := 0;
    while !wrapped || i != split
      invariant rp.Valid() && copy.Valid()
      invariant 0 <= i <= nkeys && (if wrapped then i <= split && j == i else split <= i && j == i - split)
      invariant Reached(c, split, wrapped, j, rp.content, copy.content)
      invariant Unread(copy.ptrs[..], mp.ptrs[..nkeys], nkeys, newindx, if wrapped then i else 0)
      invariant (if wrapped then newindx >= split || newindx < i else split <= newindx < i) ==>
                  ki == if newindx < split then newindx else newindx - split
      decreases if wrapped then 0 else 1, nkeys - i
    {
      if i == newindx {
        ki := j;
      }
      MoveNext(mp, rp, copy, newindx, n, split, i, j, wrapped);
      if i == nkeys {
        assert !wrapped;
        WrapsAround(c, split, rp.content, copy.content);
        i, j, wrapped := 0, 0, true;
      } else {
        i, j := i + 1, j + 1;
      }
    }
    AllReached(c, split, rp.content, copy.content);
  }

  lemma LeafFirst(n: Node)
    ensures n.Leaf? ==> AsFirst(n) == n
  {
  }

  lemma CombinedAt(w: seq<Node>, newindx: nat, n: Node, k: nat)
    requires newindx <= |w| && k <= |w|
    ensures Inserted(w, newindx, n)[k] == if k < newindx then w[k] else if k == newindx then n else w[k - 1]
  {
  }

  lemma KindParts(leaf: bool, c: seq<Node>, split: nat)
    requires split <= |c| && Kind(leaf, c)
    ensures Kind(leaf, Stored(c[..split])) && Kind(leaf, Stored(c[split..]))
  {
    StoredKind(leaf, c[..split]);
    StoredKind(leaf, c[split..]);
  }

  /** Node i of all is node j of the page it goes to. */
  lemma StoredAt(leaf: bool, c: seq<Node>, split: nat, i: nat)
    requires 0 < split < |c| && i < |c| && Kind(leaf, c)
    ensures c[i].Leaf? == leaf
    ensures var side, j := if i < split then c[..split] else c[split..], if i < split then i else i - split;
      Stored(side)[j] == if j == 0 then AsFirst(c[i]) else c[i]
  {
    assert c[0].Leaf? == leaf && c[split].Leaf? == leaf;
  }

  // ------------------------------------------------------------ the whole split

  lemma SamePage(leaf: bool, b: seq<int>, b': seq<int>, ptrs: seq<int>, upper: int, s: seq<Node>)
    requires PageIs(leaf, b, ptrs, upper, s) && |b'| == |b| && 0 <= upper
    requires forall x | upper <= x < |b| :: b'[x] == b[x]
    ensures PageIs(leaf, b', ptrs, upper, s)
  {
    hide Packed, Shows, Size;
    PackedLength(ptrs, s, upper, |b|);
    forall j | 0 <= j < |s|
      ensures Shows(leaf, b', ptrs[j], s[j])
    {
      MovedNode(leaf, b, b', ptrs[j], 0, s[j]);
    }
  }

  /** The copy becomes the left page: pointers, bounds and the bytes from upper on. */
  method CopyBack(mp: Page, copy: Page)
    requires mp.Valid() && copy.Valid() && mp != copy && mp.leaf == copy.leaf && mp.bytes.Length == copy.bytes.Length
    requires mp.bytes !in {copy.bytes, copy.ptrs} && mp.ptrs !in {copy.bytes, copy.ptrs}
    modifies mp`lower, mp`upper, mp`content, mp.bytes, mp.ptrs
    ensures mp.Valid() && mp.content == copy.content
  {
    hide PageIs;
    var nkeys := copy.NumKeys();
    ghost var b, p := copy.bytes[..], copy.ptrs[..nkeys];
    assert nkeys == |copy.content| && PageIs(copy.leaf, b, p, copy.upper, copy.content);
    forall i | 0 <= i < nkeys {
      mp.ptrs[i] := copy.ptrs[i];
    }
    mp.lower := copy.lower;
    mp.upper := copy.upper;
    forall k | copy.upper <= k < copy.bytes.Length {
      mp.bytes[k] := copy.bytes[k];
    }
    assert copy.bytes[..] == b && mp.ptrs[..nkeys] == copy.ptrs[..nkeys] == p;
    SamePage(mp.leaf, b, mp.bytes[..], p, copy.upper, copy.content);
    mp.content := copy.content;
  }

  /** The node part of mdb_page_split: left page and right page together hold the old nodes
      with the new one among them, and the acting cursor, at position ki of the page that
      onRight tells, is at the new node. */
  method SplitPage(mp: Page, rp: Page, newindx: int, n: Node, split: int) returns (onRight: bool, ki: int)
    requires mp.Valid() && rp.Valid() && mp != rp && mp.leaf == rp.leaf && rp.content == []
    requires mp.bytes.Length == rp.bytes.Length
    requires mp.bytes !in {rp.bytes, rp.ptrs} && mp.ptrs !in {rp.bytes, rp.ptrs}
    requires 0 <= newindx <= |mp.content|
    requires var c := Inserted(mp.content, newindx, n);
      && 0 < split < |c| && Kind(mp.leaf, c)
      && PAGEHDRSZ + Need(Stored(c[..split])) <= mp.bytes.Length
      && PAGEHDRSZ + Need(Stored(c[split..])) <= mp.bytes.Length
    modifies mp`lower, mp`upper, mp`content, mp.bytes, mp.ptrs
    modifies rp`lower, rp`upper, rp`content, rp.bytes, rp.ptrs
    ensures mp.Valid() && rp.Valid()
    ensures var c := old(Inserted(mp.content, newindx, n));
      && mp.content == Stored(c[..split]) && rp.content == Stored(c[split..])
    ensures Halves(old(mp.content), newindx, n, split, mp.content, rp.content)
    ensures onRight == (newindx >= split) && ki == if onRight then newindx - split else newindx
  {
    hide PageIs, Need, Stored, Kind, Inserted, Halves;
    var nkeys := mp.NumKeys();
    var copy := new Page(mp.bytes.Length, mp.leaf);
    PrepareSlots(copy.ptrs, mp.ptrs, nkeys, newindx);
    assert copy.Valid() by {
      EmptyPage(copy.leaf, copy.bytes[..], copy.ptrs[..0], copy.upper);
    }
    assert Unread(copy.ptrs[..], mp.ptrs[..nkeys], nkeys, newindx, 0);
    ki := MoveNodes(mp, rp, copy, newindx, n, split);
    CopyBack(mp, copy);
    onRight := newindx >= split;
  }

  lemma EmptyPage(leaf: bool, b: seq<int>, ptrs: seq<int>, upper: int)
    requires upper == |b| && ptrs == []
    ensures PageIs(leaf, b, ptrs, upper, [])
  {
  }

  // ------------------------------------------------------------ the split point and the move

  /** The weights that the search for the split point reads from the node headers. */
  function Weights(s: seq<Node>): (w: seq<int>)
    ensures |w| == |s| && forall k | 0 <= k < |s| :: w[k] == Size(s[k]) + 2
  {
    if s == [] then [] else Weights(s[..|s| - 1]) + [Size(s[|s| - 1]) + 2]
  }

  lemma {:induction false} SumWeights(s: seq<Node>)
    ensures SplitPoint.Sum(Weights(s)) == Need(s)
  {
    if s != [] {
      SumWeights(s[..|s| - 1]);
      assert Weights(s)[..|s| - 1] == Weights(s[..|s| - 1]);
    }
  }

  lemma NeedStored(s: seq<Node>)
    requires s != []
    ensures s[0].Leaf? ==> Stored(s) == s
    ensures s[0].Branch? ==> Need(Stored(s)) == SplitPoint.KEYLESS + Need(s[1..])
  {
    if s[0].Branch? {
      var t, first := s[1..], AsFirst(s[0]);
      assert Stored(s) == Inserted(t, 0, first);
      TotalInserted(t, 0, first);
    }
  }

  lemma {:induction false} WeightsConcat(a: seq<Node>, b: seq<Node>)
    ensures Weights(a + b) == Weights(a) + Weights(b)
    decreases |b|
  {
    if b == [] {
      assert a + b == a;
    } else {
      var m := |b| - 1;
      WeightsConcat(a, b[..m]);
      assert (a + b)[..|a + b| - 1] == a + b[..m];
    }
  }

  lemma WeightsOne(n: Node)
    ensures Weights([n]) == [Size(n) + 2]
  {
    hide Size;
    calc {
      Weights([n]);
      Weights([n][..0]) + [Size([n][0]) + 2];
      { assert [n][..0] == []; }
      [] + [Size(n) + 2];
      [Size(n) + 2];
    }
  }

  lemma CombinedWeights(w: seq<Node>, newindx: nat, n: Node)
    requires newindx <= |w|
    ensures Weights(Inserted(w, newindx, n)) == SplitPoint.Combined(Weights(w), newindx, Size(n) + 2)
  {
    hide Size, Weights;
    WeightsConcat(w[..newindx] + [n], w[newindx..]);
    WeightsConcat(w[..newindx], [n]);
    PartWeights(w, newindx);
    WeightsOne(n);
  }

  lemma PartWeights(c: seq<Node>, i: nat)
    requires i <= |c|
    ensures Weights(c)[..i] == Weights(c[..i]) && Weights(c)[i..] == Weights(c[i..])
  {
    hide Size;
    WeightsConcat(c[..i], c[i..]);
    assert c == c[..i] + c[i..];
  }

  /** A cut that the weights allow leaves both pages room for their nodes: the nodes that
      FindSplit finds a place for are the nodes that SplitPage can move. */
  lemma SplitFits(leaf: bool, psize: int, w: seq<Node>, newindx: nat, n: Node, split: nat)
    requires newindx <= |w| && Kind(leaf, Inserted(w, newindx, n))
    requires SplitPoint.Splits(leaf, psize, SplitPoint.Combined(Weights(w), newindx, Size(n) + 2), split)
    ensures var c := Inserted(w, newindx, n);
      && 0 < split < |c|
      && PAGEHDRSZ + Need(Stored(c[..split])) <= psize
      && PAGEHDRSZ + Need(Stored(c[split..])) <= psize
  {
    hide Size, Total, SplitPoint.Sum, Weights, Stored;
    var c := Inserted(w, newindx, n);
    CombinedWeights(w, newindx, n);
    PartWeights(c, split);
    PartWeights(c, split + 1);
    SumWeights(c[..split]);
    SumWeights(c[split..]);
    SumWeights(c[split + 1..]);
    StoredNoMore(leaf, c[..split]);
    NeedStored(c[split..]);
    assert c[split..][1..] == c[split + 1..] && c[split].Leaf? == leaf;
  }

  lemma SizeAtLeast(n: Node)
    ensures Size(n) >= NODESIZE && SplitPoint.KEYLESS == NODESIZE + 2
  {
  }

  lemma StoredNoMore(leaf: bool, s: seq<Node>)
    requires s != [] && Kind(leaf, s)
    ensures Need(Stored(s)) <= Need(s)
  {
    hide Size, Total, Stored;
    NeedStored(s);
    SizeAtLeast(s[0]);
    if s[0].Branch? {
      TotalInserted(s[1..], 0, s[0]);
      assert Inserted(s[1..], 0, s[0]) == s;
    }
  }
}

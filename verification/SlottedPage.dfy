/** Slotted pages: node pointers grow up from the header, nodes down from the end of the
    page.  Nodes are read back from the bytes of the page. */
module SlottedPage {

  import opened PageLayout

  /** What a node says.  A leaf node with F_BIGDATA holds the number of an overflow page in
      place of its data, dsize being the size of the data on that page. */
  datatype Node =
    | Leaf(flags: int, key: seq<int>, dsize: int, data: seq<int>)
    | Branch(pgno: int, key: seq<int>)

  /** F_BIGDATA is bit 0 of the flags. */
  predicate Big(flags: int) {
    flags % 2 == 1
  }

  function Unpadded(n: Node): nat {
    NODESIZE + |n.key| + if n.Leaf? then |n.data| else 0
  }

  /** The bytes a node takes on its page. */
  function Size(n: Node): (sz: nat)
    ensures sz >= Unpadded(n) >= NODESIZE
  {
    Round(Unpadded(n))
  }

  ghost predicate Bytes(s: seq<int>) {
    forall k | 0 <= k < |s| :: 0 <= s[k] < 256
  }

  /** The fields fit the node header. */
  ghost predicate Fitting(n: Node) {
    && Bytes(n.key) && |n.key| < 0x1_0000
    && match n
       case Leaf(flags, _, dsize, data) =>
         && 0 <= flags < 0x1_0000 && 0 <= dsize < 0x1_0000_0000 && Bytes(data)
         && |data| == if Big(flags) then PGNOSIZE else dsize
       case Branch(pgno, _) => 0 <= pgno < 0x1_0000_0000_0000
  }

  // ------------------------------------------------------------ nodes as bytes

  function Word(w: seq<int>, k: nat): int
    requires k + 2 <= |w|
  {
    w[k] + 256 * w[k + 1]
  }

  function WordBytes(x: int): seq<int> {
    [x % 256, x / 256 % 256]
  }

  /** The header of a node: four words, then key and data. */
  function Header(n: Node): (h: seq<int>)
    ensures |h| == NODESIZE
  {
    match n
    case Leaf(flags, key, dsize, _) =>
      WordBytes(dsize % 0x1_0000) + WordBytes(dsize / 0x1_0000) + WordBytes(flags) + WordBytes(|key|)
    case Branch(pgno, key) =>
      WordBytes(pgno % 0x1_0000) + WordBytes(pgno / 0x1_0000 % 0x1_0000) + WordBytes(pgno / 0x1_0000_0000) + WordBytes(|key|)
  }

  function Encode(n: Node): (w: seq<int>)
    ensures |w| == Unpadded(n)
  {
    Header(n) + n.key + if n.Leaf? then n.data else []
  }

  /** The bytes of data, or of the overflow page number, that follow the key in a leaf. */
  function BodySize(leaf: bool, w: seq<int>): int
    requires NODESIZE <= |w|
  {
    if !leaf then 0 else if Big(Word(w, 4)) then PGNOSIZE else Word(w, 0) + 0x1_0000 * Word(w, 2)
  }

  /** The size that the source computes from the header of a node. */
  function SizeOf(leaf: bool, w: seq<int>): int
    requires NODESIZE <= |w|
  {
    Round(NODESIZE + Word(w, 6) + BodySize(leaf, w))
  }

  predicate Whole(leaf: bool, w: seq<int>) {
    NODESIZE <= |w| && Word(w, 6) >= 0 && BodySize(leaf, w) >= 0 && |w| == SizeOf(leaf, w)
  }

  function Decode(leaf: bool, w: seq<int>): (n: Node)
    requires Whole(leaf, w)
    ensures n.Leaf? == leaf && Size(n) == |w|
  {
    var key := w[NODESIZE..NODESIZE + Word(w, 6)];
    if leaf then
      Leaf(Word(w, 4), key, Word(w, 0) + 0x1_0000 * Word(w, 2), w[NODESIZE + |key|..NODESIZE + |key| + BodySize(leaf, w)])
    else
      Branch(Word(w, 0) + 0x1_0000 * Word(w, 2) + 0x1_0000_0000 * Word(w, 4), key)
  }

  /** Where the parts of a node are in the bytes that node_add writes. */
  lemma PartsOf(n: Node, w: seq<int>)
    requires Unpadded(n) <= |w| && w[..Unpadded(n)] == Encode(n)
    ensures NODESIZE <= |w| && forall k | 0 <= k < NODESIZE :: w[k] == Header(n)[k]
    ensures w[NODESIZE..NODESIZE + |n.key|] == n.key
    ensures n.Leaf? ==> w[NODESIZE + |n.key|..Unpadded(n)] == n.data
  {
    var e := Encode(n);
    assert forall k | 0 <= k < NODESIZE :: w[k] == e[k] == Header(n)[k];
    assert w[NODESIZE..NODESIZE + |n.key|] == e[NODESIZE..NODESIZE + |n.key|] == n.key;
    if n.Leaf? {
      assert w[NODESIZE + |n.key|..Unpadded(n)] == e[NODESIZE + |n.key|..] == n.data;
    }
  }

  /** What node_add writes, with or without a padding byte, reads back as the node. */
  lemma DecodeEncode(n: Node, w: seq<int>)
    requires Fitting(n) && |w| == Size(n) && w[..Unpadded(n)] == Encode(n)
    ensures Whole(n.Leaf?, w) && Decode(n.Leaf?, w) == n
  {
    hide Encode, Header, WordBytes, Word;
    PartsOf(n, w);
    WordsBack(n, w);
  }

  /** The little-endian layout of a node: four words of header, of which the last is the size of
      the key and the others spell the size of the data and the flags, or a page number of 48
      bits; then the key, then the data. */
  lemma NodeLayout(n: Node)
    requires Fitting(n)
    ensures var w := Encode(n);
      && |w| == 8 + |n.key| + (if n.Leaf? then |n.data| else 0)
      && w[6] + 256 * w[7] == |n.key| && w[8..8 + |n.key|] == n.key
      && (n.Leaf? ==>
            && w[0] + 256 * w[1] + 0x1_0000 * (w[2] + 256 * w[3]) == n.dsize
            && w[4] + 256 * w[5] == n.flags && w[8 + |n.key|..] == n.data)
      && (n.Branch? ==>
            w[0] + 256 * w[1] + 0x1_0000 * (w[2] + 256 * w[3]) + 0x1_0000_0000 * (w[4] + 256 * w[5]) == n.pgno)
  {
    var w := Encode(n);
    assert w[..Unpadded(n)] == w;
    PartsOf(n, w);
    WordsBack(n, w);
  }

  lemma WordsBack(n: Node, w: seq<int>)
    requires Fitting(n) && NODESIZE <= |w| && forall k | 0 <= k < NODESIZE :: w[k] == Header(n)[k]
    ensures Word(w, 6) == |n.key|
    ensures n.Leaf? ==> Word(w, 0) + 0x1_0000 * Word(w, 2) == n.dsize && Word(w, 4) == n.flags
    ensures n.Branch? ==> Word(w, 0) + 0x1_0000 * Word(w, 2) + 0x1_0000_0000 * Word(w, 4) == n.pgno
  {
    WordBack(|n.key|);
    match n
    case Leaf(flags, _, dsize, _) =>
      WordBack(flags);
      Words(dsize);
    case Branch(pgno, _) =>
      Words(pgno % 0x1_0000_0000);
      WordBack(pgno / 0x1_0000_0000);
      LowWords(pgno);
  }

  lemma LowWords(x: int)
    requires 0 <= x
    ensures x % 0x1_0000_0000 % 0x1_0000 == x % 0x1_0000
    ensures x % 0x1_0000_0000 / 0x1_0000 == x / 0x1_0000 % 0x1_0000
  {
  }

  lemma Words(x: int)
    requires 0 <= x < 0x1_0000_0000
    ensures Both(WordBytes(x % 0x1_0000)) + 0x1_0000 * Both(WordBytes(x / 0x1_0000)) == x
  {
    WordBack(x % 0x1_0000);
    WordBack(x / 0x1_0000);
  }

  function Both(w: seq<int>): int
    requires |w| == 2
  {
    w[0] + 256 * w[1]
  }

  lemma WordBack(x: int)
    requires 0 <= x < 0x1_0000
    ensures WordBytes(x)[0] + 256 * WordBytes(x)[1] == x
  {
  }

  // ------------------------------------------------------------ the layout

  /** The bytes at off read as node n. */
  ghost predicate Shows(leaf: bool, b: seq<int>, off: int, n: Node) {
    && 0 <= off && off + Size(n) <= |b|
    && Whole(leaf, b[off..off + Size(n)]) && Decode(leaf, b[off..off + Size(n)]) == n
  }

  /** The bytes determine the node. */
  lemma ShowsOne(leaf: bool, b: seq<int>, off: int, n: Node, m: Node)
    requires Shows(leaf, b, off, n) && Shows(leaf, b, off, m)
    ensures n == m
  {
    hide Decode, Size;
    var w, v := b[off..off + Size(n)], b[off..off + Size(m)];
    SizeFromHeader(leaf, w, b[off..off + NODESIZE]);
    SizeFromHeader(leaf, v, b[off..off + NODESIZE]);
  }

  lemma SizeFromHeader(leaf: bool, w: seq<int>, h: seq<int>)
    requires NODESIZE <= |w| && h == w[..NODESIZE]
    ensures SizeOf(leaf, h) == SizeOf(leaf, w)
  {
    assert forall k | 0 <= k < NODESIZE :: h[k] == w[k];
  }

  function Total(s: seq<Node>): nat {
    if s == [] then 0 else Total(s[..|s| - 1]) + Size(s[|s| - 1])
  }

  /** A node occupies the bytes off .. off + size - 1. */
  predicate Within(off: int, n: Node, x: int) {
    off <= x < off + Size(n)
  }

  predicate Separate(p: int, n: Node, q: int, m: Node) {
    p + Size(n) <= q || q + Size(m) <= p
  }

  /** Pointers and nodes of a page: the nodes lie at and above upper, no two share a byte,
      every byte from upper to the end of the page belongs to one, and their sizes add up
      to that many bytes. */
  ghost predicate Packed(ptrs: seq<int>, s: seq<Node>, upper: int, psize: int) {
    && Inside(ptrs, s, upper, psize)
    && Disjoint(ptrs, s)
    && Filled(ptrs, s, upper, psize)
    && upper == psize - Total(s)
  }

  ghost predicate Inside(ptrs: seq<int>, s: seq<Node>, upper: int, psize: int) {
    |ptrs| == |s| && forall i | 0 <= i < |s| :: upper <= ptrs[i] && ptrs[i] + Size(s[i]) <= psize
  }

  ghost predicate Disjoint(ptrs: seq<int>, s: seq<Node>)
    requires |ptrs| == |s|
  {
    forall i, j | 0 <= i < |s| && 0 <= j < |s| && i != j :: Separate(ptrs[i], s[i], ptrs[j], s[j])
  }

  ghost predicate Filled(ptrs: seq<int>, s: seq<Node>, upper: int, psize: int)
    requires |ptrs| == |s|
  {
    forall x | upper <= x < psize :: Covered(ptrs, s, x)
  }

  ghost predicate Covered(ptrs: seq<int>, s: seq<Node>, x: int)
    requires |ptrs| == |s|
  {
    exists i :: 0 <= i < |s| && Within(ptrs[i], s[i], x)
  }

  // ------------------------------------------------------------ adding and deleting

  function Inserted<T>(s: seq<T>, i: nat, x: T): (r: seq<T>)
    requires i <= |s|
    ensures |r| == |s| + 1 && r[i] == x
  {
    s[..i] + [x] + s[i..]
  }

  function Removed<T>(s: seq<T>, i: nat): (r: seq<T>)
    requires i < |s|
    ensures |r| == |s| - 1
  {
    s[..i] + s[i + 1..]
  }

  lemma RemoveUndoesInsert<T>(s: seq<T>, i: nat, x: T)
    requires i <= |s|
    ensures Removed(Inserted(s, i, x), i) == s
  {
  }

  /** Where a pointer goes when the sz bytes at ptr are closed. */
  function Slid(p: int, ptr: int, sz: int): int {
    if p < ptr then p + sz else p
  }

  function SlidAll(ptrs: seq<int>, ptr: int, sz: int): (r: seq<int>)
    ensures |r| == |ptrs| && forall k | 0 <= k < |ptrs| :: r[k] == Slid(ptrs[k], ptr, sz)
  {
    if ptrs == [] then [] else SlidAll(ptrs[..|ptrs| - 1], ptr, sz) + [Slid(ptrs[|ptrs| - 1], ptr, sz)]
  }

  lemma {:induction false} TotalInserted(s: seq<Node>, i: nat, n: Node)
    requires i <= |s|
    ensures Total(Inserted(s, i, n)) == Total(s) + Size(n)
  {
    var r := Inserted(s, i, n);
    if i == |s| {
      assert r[..|s|] == s;
    } else {
      var m := |s| - 1;
      TotalInserted(s[..m], i, n);
      assert r[..|r| - 1] == Inserted(s[..m], i, n);
    }
  }

  lemma TotalRemoved(s: seq<Node>, i: nat)
    requires i < |s|
    ensures Total(Removed(s, i)) == Total(s) - Size(s[i])
  {
    hide Total;
    TotalInserted(Removed(s, i), i, s[i]);
    InsertUndoesRemove(s, i);
  }

  lemma InsertUndoesRemove<T>(s: seq<T>, i: nat)
    requires i < |s|
    ensures Inserted(Removed(s, i), i, s[i]) == s
  {
  }

  function After(j: nat, i: nat): nat {
    if j < i then j else j + 1
  }

  function Before(j: nat, i: nat): nat
    requires j != i
  {
    if j < i then j else j - 1
  }

  /** A node put right below all others keeps the page packed. */
  lemma AddPacked(ptrs: seq<int>, s: seq<Node>, upper: int, psize: int, i: nat, n: Node)
    requires Packed(ptrs, s, upper, psize) && i <= |s| && upper <= psize
    ensures Packed(Inserted(ptrs, i, upper - Size(n)), Inserted(s, i, n), upper - Size(n), psize)
  {
    hide Total, Size;
    var ptrs', s' := Inserted(ptrs, i, upper - Size(n)), Inserted(s, i, n);
    TotalInserted(s, i, n);
    AddDisjoint(ptrs, s, upper, psize, i, n);
    AddFilled(ptrs, s, upper, psize, i, n);
  }

  lemma AddDisjoint(ptrs: seq<int>, s: seq<Node>, upper: int, psize: int, i: nat, n: Node)
    requires Inside(ptrs, s, upper, psize) && Disjoint(ptrs, s) && i <= |s|
    ensures Disjoint(Inserted(ptrs, i, upper - Size(n)), Inserted(s, i, n))
  {
    hide Size;
    var ptrs', s' := Inserted(ptrs, i, upper - Size(n)), Inserted(s, i, n);
    forall j, k | 0 <= j < |s'| && 0 <= k < |s'| && j != k
      ensures Separate(ptrs'[j], s'[j], ptrs'[k], s'[k])
    {
      if j != i && k != i {
        assert Separate(ptrs[Before(j, i)], s[Before(j, i)], ptrs[Before(k, i)], s[Before(k, i)]);
      } else {
        var h := Before(if j == i then k else j, i);
        assert upper <= ptrs[h];
      }
    }
  }

  lemma AddFilled(ptrs: seq<int>, s: seq<Node>, upper: int, psize: int, i: nat, n: Node)
    requires |ptrs| == |s| && Filled(ptrs, s, upper, psize) && i <= |s|
    ensures Filled(Inserted(ptrs, i, upper - Size(n)), Inserted(s, i, n), upper - Size(n), psize)
  {
    hide Size;
    var ptrs', s' := Inserted(ptrs, i, upper - Size(n)), Inserted(s, i, n);
    forall x | upper - Size(n) <= x < psize
      ensures Covered(ptrs', s', x)
    {
      if x < upper {
        assert Within(ptrs'[i], s'[i], x);
      } else {
        assert Covered(ptrs, s, x);
        var j :| 0 <= j < |s| && Within(ptrs[j], s[j], x);
        assert Within(ptrs'[After(j, i)], s'[After(j, i)], x);
      }
    }
  }

  /** Closing the gap of a node keeps the page packed. */
  lemma DelPacked(ptrs: seq<int>, s: seq<Node>, upper: int, psize: int, i: nat)
    requires Packed(ptrs, s, upper, psize) && i < |s|
    ensures Packed(SlidAll(Removed(ptrs, i), ptrs[i], Size(s[i])), Removed(s, i), upper + Size(s[i]), psize)
  {
    hide Total, Size;
    var ptr, sz := ptrs[i], Size(s[i]);
    var ptrs', s' := SlidAll(Removed(ptrs, i), ptr, sz), Removed(s, i);
    TotalRemoved(s, i);
    DelDisjoint(ptrs, s, i);
    forall j | 0 <= j < |s'|
      ensures upper + sz <= ptrs'[j] && ptrs'[j] + Size(s'[j]) <= psize
    {
      assert Separate(ptrs[After(j, i)], s[After(j, i)], ptr, s[i]);
    }
    DelFilled(ptrs, s, upper, psize, i);
  }

  lemma DelDisjoint(ptrs: seq<int>, s: seq<Node>, i: nat)
    requires |ptrs| == |s| && Disjoint(ptrs, s) && i < |s|
    ensures Disjoint(SlidAll(Removed(ptrs, i), ptrs[i], Size(s[i])), Removed(s, i))
  {
    hide Size;
    var ptr, sz := ptrs[i], Size(s[i]);
    var ptrs', s' := SlidAll(Removed(ptrs, i), ptr, sz), Removed(s, i);
    forall j, k | 0 <= j < |s'| && 0 <= k < |s'| && j != k
      ensures Separate(ptrs'[j], s'[j], ptrs'[k], s'[k])
    {
      var j', k' := After(j, i), After(k, i);
      assert Separate(ptrs[j'], s[j'], ptrs[k'], s[k']);
      assert Separate(ptrs[j'], s[j'], ptr, s[i]) && Separate(ptrs[k'], s[k'], ptr, s[i]);
    }
  }

  lemma DelFilled(ptrs: seq<int>, s: seq<Node>, upper: int, psize: int, i: nat)
    requires Inside(ptrs, s, upper, psize) && Filled(ptrs, s, upper, psize) && Disjoint(ptrs, s) && i < |s|
    ensures Filled(SlidAll(Removed(ptrs, i), ptrs[i], Size(s[i])), Removed(s, i), upper + Size(s[i]), psize)
  {
    hide Size;
    var ptr, sz := ptrs[i], Size(s[i]);
    var ptrs', s' := SlidAll(Removed(ptrs, i), ptr, sz), Removed(s, i);
    forall x | upper + sz <= x < psize
      ensures Covered(ptrs', s', x)
    {
      var y := if x < ptr + sz then x - sz else x;
      assert Covered(ptrs, s, y);
      var j :| 0 <= j < |s| && Within(ptrs[j], s[j], y);
      assert j != i && Separate(ptrs[j], s[j], ptrs[i], s[i]);
      assert Within(ptrs'[Before(j, i)], s'[Before(j, i)], x);
    }
  }

  // ------------------------------------------------------------ pages

  /** The page holds the nodes s, packed. */
  ghost predicate PageIs(leaf: bool, b: seq<int>, ptrs: seq<int>, upper: int, s: seq<Node>) {
    Packed(ptrs, s, upper, |b|) && AllShow(leaf, b, ptrs, s)
  }

  ghost predicate AllShow(leaf: bool, b: seq<int>, ptrs: seq<int>, s: seq<Node>)
    requires |ptrs| == |s|
  {
    forall j | 0 <= j < |s| :: Shows(leaf, b, ptrs[j], s[j])
  }

  /** A page holds one sequence of nodes only. */
  lemma ContentFromBytes(leaf: bool, b: seq<int>, ptrs: seq<int>, upper: int, s: seq<Node>, upper': int, s': seq<Node>)
    requires PageIs(leaf, b, ptrs, upper, s) && PageIs(leaf, b, ptrs, upper', s')
    ensures s == s' && upper == upper'
  {
    hide Shows, Inside, Disjoint, Filled;
    PackedLength(ptrs, s, upper, |b|);
    PackedLength(ptrs, s', upper', |b|);
    forall j | 0 <= j < |s|
      ensures s[j] == s'[j]
    {
      ShowsOne(leaf, b, ptrs[j], s[j], s'[j]);
    }
  }

  lemma PackedLength(ptrs: seq<int>, s: seq<Node>, upper: int, psize: int)
    requires Packed(ptrs, s, upper, psize)
    ensures |ptrs| == |s| && Inside(ptrs, s, upper, psize) && Disjoint(ptrs, s)
  {
  }

  lemma NewNode(leaf: bool, b: seq<int>, ofs: int, n: Node)
    requires Fitting(n) && n.Leaf? == leaf && 0 <= ofs && ofs + Size(n) <= |b|
    requires b[ofs..ofs + Unpadded(n)] == Encode(n)
    ensures Shows(leaf, b, ofs, n)
  {
    hide Decode, Encode;
    var w := b[ofs..ofs + Size(n)];
    assert w[..Unpadded(n)] == b[ofs..ofs + Unpadded(n)];
    DecodeEncode(n, w);
  }

  /** The bytes of a node, wherever they are moved, read as the same node. */
  lemma MovedNode(leaf: bool, b: seq<int>, b': seq<int>, off: int, sz: int, n: Node)
    requires Shows(leaf, b, off, n) && 0 <= off + sz && off + sz + Size(n) <= |b'|
    requires forall x | off + sz <= x < off + sz + Size(n) :: b'[x] == b[x - sz]
    ensures Shows(leaf, b', off + sz, n)
  {
    hide Decode, Size, Whole;
    assert b'[off + sz..off + sz + Size(n)] == b[off..off + Size(n)];
  }

  /** Writing a node right below the others leaves them as they are. */
  lemma AddIs(leaf: bool, b: seq<int>, b': seq<int>, ptrs: seq<int>, upper: int, s: seq<Node>, i: nat, n: Node)
    requires PageIs(leaf, b, ptrs, upper, s) && i <= |s| && Fitting(n) && n.Leaf? == leaf
    requires |b'| == |b| && 0 <= upper - Size(n) && upper <= |b|
    requires forall x | upper <= x < |b| :: b'[x] == b[x]
    requires b'[upper - Size(n)..upper - Size(n) + Unpadded(n)] == Encode(n)
    ensures PageIs(leaf, b', Inserted(ptrs, i, upper - Size(n)), upper - Size(n), Inserted(s, i, n))
  {
    hide Packed, Shows, Encode, Size;
    AddPacked(ptrs, s, upper, |b|, i, n);
    NewNode(leaf, b', upper - Size(n), n);
    PackedLength(ptrs, s, upper, |b|);
    forall j | 0 <= j < |s|
      ensures Shows(leaf, b', ptrs[j], s[j])
    {
      MovedNode(leaf, b, b', ptrs[j], 0, s[j]);
    }
  }

  /** The bytes below node i were moved up over it. */
  ghost predicate Closed(b: seq<int>, b': seq<int>, upper: int, ptr: int, sz: nat)
    requires 0 <= upper && 0 <= ptr && ptr + sz <= |b| == |b'|
  {
    && (forall x | upper + sz <= x < ptr + sz :: b'[x] == b[x - sz])
    && (forall x | ptr + sz <= x < |b| :: b'[x] == b[x])
  }

  /** Closing the gap of a node leaves the other nodes as they are. */
  lemma DelIs(leaf: bool, b: seq<int>, b': seq<int>, ptrs: seq<int>, upper: int, s: seq<Node>, i: nat)
    requires PageIs(leaf, b, ptrs, upper, s) && i < |s| && |b'| == |b| && 0 <= upper
    requires upper <= ptrs[i] && ptrs[i] + Size(s[i]) <= |b| && Closed(b, b', upper, ptrs[i], Size(s[i]))
    ensures PageIs(leaf, b', SlidAll(Removed(ptrs, i), ptrs[i], Size(s[i])), upper + Size(s[i]), Removed(s, i))
  {
    hide Packed, Shows, Size, Closed;
    DelPacked(ptrs, s, upper, |b|, i);
    PackedLength(ptrs, s, upper, |b|);
    forall j | 0 <= j < |s| && j != i
      ensures Shows(leaf, b', Slid(ptrs[j], ptrs[i], Size(s[i])), s[j])
    {
      assert Separate(ptrs[j], s[j], ptrs[i], s[i]);
      DelNode(leaf, b, b', upper, ptrs[i], Size(s[i]), ptrs[j], s[j]);
    }
  }

  lemma DelNode(leaf: bool, b: seq<int>, b': seq<int>, upper: int, ptr: int, sz: nat, off: int, n: Node)
    requires 0 <= upper <= off && 0 <= ptr && Shows(leaf, b, off, n) && |b'| == |b| && ptr + sz <= |b|
    requires off + Size(n) <= ptr || ptr + sz <= off
    requires Closed(b, b', upper, ptr, sz)
    ensures Shows(leaf, b', Slid(off, ptr, sz), n)
  {
    hide Size, Decode, Whole;
    MovedNode(leaf, b, b', off, if off < ptr then sz else 0, n);
  }

  // ------------------------------------------------------------ the page in memory

  /** A leaf or branch page.  mp_ptrs is kept apart from the bytes of the nodes: it ends at
      lower, and lower <= upper.  `content` is what the page holds. */
  class Page {
    const leaf: bool
    var bytes: array<int>
    var ptrs: array<int>
    var lower: int
    var upper: int
    ghost var content: seq<Node>

    ghost predicate Valid()
      reads this, bytes, ptrs
    {
      && bytes != ptrs && lower == PAGEHDRSZ + 2 * |content|
      && lower <= upper <= bytes.Length && bytes.Length <= PAGEHDRSZ + 2 * ptrs.Length
      && PageIs(leaf, bytes[..], ptrs[..|content|], upper, content)
    }

    constructor (psize: int, leaf: bool)
      requires psize >= PAGEHDRSZ
      ensures Valid() && content == [] && this.leaf == leaf && bytes.Length == psize
      ensures fresh(bytes) && fresh(ptrs) && ptrs.Length == psize && upper == psize
    {
      this.leaf := leaf;
      bytes := new int[psize];
      ptrs := new int[psize];
      lower, upper := PAGEHDRSZ, psize;
      content := [];
    }

    function NumKeys(): int
      reads this
    {
      (lower - PAGEHDRSZ) / 2
    }

    /** mdb_node_add for a node whose form is decided: data on the page, or the number of an
        overflow page.  It fails, changing nothing, when the room left is too small. */
    method Add(indx: int, n: Node) returns (ok: bool)
      requires Valid() && 0 <= indx <= |content| && Fitting(n) && n.Leaf? == leaf
      modifies this`lower, this`upper, this`content, bytes, ptrs
      ensures Valid()
      ensures ok <==> Size(n) <= old(upper - lower) - 2
      ensures ok ==> content == Inserted(old(content), indx, n) && upper == old(upper) - Size(n)
      ensures ok ==> ptrs[..|content|] == Inserted(old(ptrs[..|content|]), indx, upper)
      ensures ok ==> forall x | old(upper) <= x < bytes.Length :: bytes[x] == old(bytes[x])
      ensures forall k | |old(content)| < k < ptrs.Length :: ptrs[k] == old(ptrs[k])
      ensures !ok ==> content == old(content) && upper == old(upper) && bytes[..] == old(bytes[..])
    {
      hide PageIs, Encode, Inserted, Size;
      ghost var s, before, p := content, bytes[..], ptrs[..|content|];
      var room := upper - lower - 2;
      var size := Size(n);
      if size > room {
        return false;
      }
      var ofs := upper - size;
      InsertSlot(ptrs, indx, NumKeys(), ofs);
      upper := ofs;
      lower := lower + 2;
      WriteNode(bytes, ofs, n);
      AddIs(leaf, before, bytes[..], p, ofs + size, s, indx, n);
      content := Inserted(s, indx, n);
      return true;
    }

    /** mdb_node_del. */
    method Del(indx: int)
      requires Valid() && 0 <= indx < |content|
      modifies this`lower, this`upper, this`content, bytes, ptrs
      ensures Valid()
      ensures content == Removed(old(content), indx) && upper == old(upper) + Size(old(content)[indx])
      ensures var ptr, sz := old(ptrs[indx]), Size(old(content)[indx]);
        && old(upper) <= ptr && ptr + sz <= bytes.Length && Closed(old(bytes[..]), bytes[..], old(upper), ptr, sz)
        && ptrs[..|content|] == SlidAll(Removed(old(ptrs[..|content|]), indx), ptr, sz)
    {
      hide PageIs, Size, Closed, SizeOf, SlidAll, Removed;
      ghost var s, before, p := content, bytes[..], ptrs[..|content|];
      PageNode(leaf, before, p, upper, s, indx);
      var sz := SizeOf(leaf, bytes[ptrs[indx]..ptrs[indx] + NODESIZE]);
      var ptr := ptrs[indx];
      DropSlot(ptrs, indx, NumKeys(), sz);
      CloseGap(bytes, upper, ptr, sz);
      DelIs(leaf, before, bytes[..], p, upper, s, indx);
      lower := lower - 2;
      upper := upper + sz;
      content := Removed(s, indx);
    }
  }

  /** Moves the pointers from indx on up one slot and stores a new one. */
  method InsertSlot(ptrs: array<int>, indx: int, n: int, ofs: int)
    requires 0 <= indx <= n < ptrs.Length
    modifies ptrs
    ensures ptrs[..n + 1] == Inserted(old(ptrs[..n]), indx, ofs)
    ensures forall k | n < k < ptrs.Length :: ptrs[k] == old(ptrs[k])
  {
    var i := n;
    while i > indx
      invariant indx <= i <= n
      invariant forall k | 0 <= k <= i && k < n :: ptrs[k] == old(ptrs[k])
      invariant forall k | i < k <= n :: ptrs[k] == old(ptrs[k - 1])
      invariant forall k | n < k < ptrs.Length :: ptrs[k] == old(ptrs[k])
    {
      ptrs[i] := ptrs[i - 1];
      i := i - 1;
    }
    ptrs[indx] := ofs;
  }

  /** The memmove of mdb_node_del: the bytes from upper to ptr go up by sz. */
  method CloseGap(bytes: array<int>, upper: int, ptr: int, sz: nat)
    requires 0 <= upper <= ptr && ptr + sz <= bytes.Length
    modifies bytes
    ensures Closed(old(bytes[..]), bytes[..], upper, ptr, sz)
  {
    forall k | upper + sz <= k < ptr + sz {
      bytes[k] := bytes[k - sz];
    }
  }

  /** The pointer loop of mdb_node_del: drops slot indx and adjusts the others. */
  method DropSlot(ptrs: array<int>, indx: int, n: int, sz: int)
    requires 0 <= indx < n <= ptrs.Length
    modifies ptrs
    ensures ptrs[..n - 1] == old(SlidAll(Removed(ptrs[..n], indx), ptrs[indx], sz))
  {
    hide SlidAll;
    ghost var before := ptrs[..];
    var ptr := ptrs[indx];
    var i, j := 0, 0;
    while i < n
      invariant 0 <= i <= n && j == (if i <= indx then i else i - 1)
      invariant forall k | 0 <= k < j && k < indx :: ptrs[k] == Slid(before[k], ptr, sz)
      invariant forall k | indx <= k < j :: ptrs[k] == Slid(before[k + 1], ptr, sz)
      invariant forall k | i <= k < n :: ptrs[k] == before[k]
    {
      if i != indx {
        ptrs[j] := ptrs[i];
        if ptrs[i] < ptr {
          ptrs[j] := ptrs[j] + sz;
        }
        j := j + 1;
      }
      i := i + 1;
    }
    Dropped(before, ptrs[..], indx, n, sz);
    assert ptrs[..n - 1] == ptrs[..][..n - 1] && before[..n] == old(ptrs[..n]);
  }

  lemma Dropped(before: seq<int>, after: seq<int>, indx: int, n: int, sz: int)
    requires 0 <= indx < n <= |before| == |after|
    requires forall k | 0 <= k < indx :: after[k] == Slid(before[k], before[indx], sz)
    requires forall k | indx <= k < n - 1 :: after[k] == Slid(before[k + 1], before[indx], sz)
    ensures after[..n - 1] == SlidAll(Removed(before[..n], indx), before[indx], sz)
  {
    hide Slid;
    var r := Removed(before[..n], indx);
    assert forall k | 0 <= k < indx :: r[k] == before[k];
    assert forall k | indx <= k < n - 1 :: r[k] == before[k + 1];
  }

  /** Writes header, key and data. */
  method WriteNode(bytes: array<int>, ofs: int, n: Node)
    requires 0 <= ofs && ofs + Unpadded(n) <= bytes.Length
    modifies bytes
    ensures bytes[ofs..ofs + Unpadded(n)] == Encode(n)
    ensures forall x | 0 <= x < bytes.Length && !(ofs <= x < ofs + Unpadded(n)) :: bytes[x] == old(bytes[x])
  {
    var h := Header(n);
    forall k | ofs <= k < ofs + NODESIZE {
      bytes[k] := h[k - ofs];
    }
    var at := ofs + NODESIZE;
    forall k | at <= k < at + |n.key| {
      bytes[k] := n.key[k - at];
    }
    if n.Leaf? {
      at := at + |n.key|;
      forall k | at <= k < at + |n.data| {
        bytes[k] := n.data[k - at];
      }
    }
  }

  lemma PageNode(leaf: bool, b: seq<int>, ptrs: seq<int>, upper: int, s: seq<Node>, i: nat)
    requires PageIs(leaf, b, ptrs, upper, s) && i < |s| && 0 <= upper
    ensures |ptrs| == |s| && upper <= ptrs[i] && ptrs[i] + Size(s[i]) <= |b|
    ensures SizeOf(leaf, b[ptrs[i]..ptrs[i] + NODESIZE]) == Size(s[i])
  {
    assert Shows(leaf, b, ptrs[i], s[i]);
    SizeFromHeader(leaf, b[ptrs[i]..ptrs[i] + Size(s[i])], b[ptrs[i]..ptrs[i] + NODESIZE]);
  }

  /** Deleting the node that was just added restores the page: its nodes, its pointers and every
      byte of its nodes. */
  method AddThenDel(p: Page, indx: int, n: Node) returns (ok: bool)
    requires p.Valid() && 0 <= indx <= |p.content| && Fitting(n) && n.Leaf? == p.leaf
    modifies p`lower, p`upper, p`content, p.bytes, p.ptrs
    ensures p.Valid() && p.content == old(p.content) && p.upper == old(p.upper) && p.lower == old(p.lower)
    ensures ok ==> p.ptrs[..|p.content|] == old(p.ptrs[..|p.content|])
    ensures ok ==> p.bytes[p.upper..] == old(p.bytes[p.upper..])
    ensures ok <==> Size(n) <= old(p.upper - p.lower) - 2
  {
    hide PageIs, Size, Inserted, Removed, SlidAll;
    ghost var s, ptrs, upper := p.content, p.ptrs[..|p.content|], p.upper;
    PointersAbove(p.leaf, p.bytes[..], ptrs, upper, s);
    ok := p.Add(indx, n);
    if ok {
      RemoveUndoesInsert(s, indx, n);
      RemoveUndoesInsert(ptrs, indx, p.upper);
      InsertedAt(s, indx, n);
      InsertedAt(ptrs, indx, p.upper);
      assert p.ptrs[indx] == p.ptrs[..|p.content|][indx];
      NoneSlides(ptrs, p.upper, Size(n));
      p.Del(indx);
    }
  }

  lemma PointersAbove(leaf: bool, b: seq<int>, ptrs: seq<int>, upper: int, s: seq<Node>)
    requires PageIs(leaf, b, ptrs, upper, s)
    ensures |ptrs| == |s| && forall k | 0 <= k < |ptrs| :: ptrs[k] >= upper
  {
  }

  lemma InsertedAt<T>(s: seq<T>, i: nat, x: T)
    requires i <= |s|
    ensures |Inserted(s, i, x)| == |s| + 1 && Inserted(s, i, x)[i] == x
  {
  }

  lemma NoneSlides(ptrs: seq<int>, ptr: int, sz: nat)
    requires forall k | 0 <= k < |ptrs| :: ptrs[k] >= ptr
    ensures SlidAll(ptrs, ptr, sz) == ptrs
  {
  }
}

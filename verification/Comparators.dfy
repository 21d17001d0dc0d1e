/** The comparison functions shipped for keys and values, and the engine's default one. */
module Comparators {
  import opened Wrappers

  const INT_MAX := 0x7fff_ffff

  /** A signed byte, as the byte arrays hold it. */
  type byte = x: int | -128 <= x < 128 witness 0

  /** A byte array; its size is an Int. */
  type ByteArray = s: seq<byte> | |s| <= INT_MAX witness []

  /** What a comparison is handed: the byte array of a value may be missing. */
  datatype Val = Null | Bytes(bytes: ByteArray)

  /** The comparisons; a lexicographical string comparison has a body of its own. */
  datatype Comparer = Bitwise | Lexicographical | IntegerKey | Length | LengthOnly | HashCode

  // ------------------------------------------------------------ 32-bit arithmetic

  predicate IsInt(x: int) {
    -INT_MAX - 1 <= x <= INT_MAX
  }

  /** The Int a computed number becomes. */
  function Wrap(x: int): (r: int)
    ensures IsInt(r)
    ensures IsInt(x) ==> r == x
    ensures (r - x) % 0x1_0000_0000 == 0
  {
    (x + INT_MAX + 1) % 0x1_0000_0000 - INT_MAX - 1
  }

  /** toInt() and 0xFF. */
  function Unsigned(b: byte): (u: int)
    ensures 0 <= u < 256
    ensures (u - b) % 256 == 0
  {
    if b < 0 then b + 256 else b
  }

  function Sign(x: int): int {
    if x < 0 then -1 else if x == 0 then 0 else 1
  }

  // ------------------------------------------------------------ the comparisons

  /** How many leading bytes two arrays share. */
  function Common(a: seq<byte>, b: seq<byte>): (n: nat)
    ensures n <= |a| && n <= |b|
    ensures a[..n] == b[..n]
    ensures n < |a| && n < |b| ==> a[n] != b[n]
  {
    if a == [] || b == [] || a[0] != b[0] then 0
    else
      var n := 1 + Common(a[1..], b[1..]);
      assert a[..n] == [a[0]] + a[1..][..n - 1];
      assert b[..n] == [b[0]] + b[1..][..n - 1];
      n
  }

  /** What the byte loop and the size difference after it come to. */
  function ByteOrder(a: ByteArray, b: ByteArray): int {
    var n := Common(a, b);
    if n < |a| && n < |b| then Unsigned(a[n]) - Unsigned(b[n]) else Wrap(|a| - |b|)
  }

  /** contentHashCode. */
  function Hash(s: seq<byte>): (h: int)
    ensures IsInt(h)
  {
    if s == [] then 1 else Wrap(Wrap(31 * Hash(s[..|s| - 1])) + s[|s| - 1])
  }

  function Compare(c: Comparer, a: ByteArray, b: ByteArray): int {
    match c
    case Bitwise => ByteOrder(a, b)
    case Lexicographical => ByteOrder(a, b)
    case IntegerKey => if |a| != |b| then Wrap(|a| - |b|) else ByteOrder(a, b)
    case Length => if Wrap(|a| - |b|) != 0 then Wrap(|a| - |b|) else ByteOrder(a, b)
    case LengthOnly => Wrap(|a| - |b|)
    case HashCode =>
      if a == b then 0
      else if Hash(a) != Hash(b) then (if Hash(a) < Hash(b) then -1 else 1)
      else ByteOrder(a, b)
  }

  /** The missing-value tests come first, the left one before the right one. */
  function CompareVal(c: Comparer, a: Val, b: Val): int {
    if a.Null? then -1 else if b.Null? then 1 else Compare(c, a.bytes, b.bytes)
  }

  /** Each reverse comparison negates, in Int arithmetic. */
  function Reverse(c: Comparer, a: Val, b: Val): int {
    Wrap(-CompareVal(c, a, b))
  }

  lemma CommonIs(a: seq<byte>, b: seq<byte>, n: nat)
    requires n <= |a| && n <= |b| && a[..n] == b[..n]
    requires n < |a| && n < |b| ==> a[n] != b[n]
    ensures Common(a, b) == n
  {
    var m := Common(a, b);
    assert forall i :: 0 <= i < n ==> a[i] == a[..n][i] == b[..n][i] == b[i];
    assert forall i :: 0 <= i < m ==> a[i] == a[..m][i] == b[..m][i] == b[i];
  }

  method BitwiseCompare(x: Val, y: Val) returns (r: int)
    ensures r == CompareVal(Bitwise, x, y)
  {
    if x.Null? { return -1; }
    if y.Null? { return 1; }
    var a, b := x.bytes, y.bytes;
    var minLength := if |a| <= |b| then |a| else |b|;
    for i := 0 to minLength
      invariant a[..i] == b[..i]
    {
      var diff := Unsigned(a[i]) - Unsigned(b[i]);
      if diff != 0 {
        CommonIs(a, b, i);
        return diff;
      }
      assert a[..i + 1] == a[..i] + [a[i]] && b[..i + 1] == b[..i] + [b[i]];
    }
    CommonIs(a, b, minLength);
    r := Wrap(|a| - |b|);
  }

  method LexicographicalStringCompare(x: Val, y: Val) returns (r: int)
    ensures r == CompareVal(Lexicographical, x, y)
  {
    if x.Null? { return -1; }
    if y.Null? { return 1; }
    var a, b := x.bytes, y.bytes;
    var minLength := if |a| <= |b| then |a| else |b|;
    for i := 0 to minLength
      invariant a[..i] == b[..i]
    {
      var diff := Unsigned(a[i]) - Unsigned(b[i]);
      if diff != 0 {
        CommonIs(a, b, i);
        return diff;
      }
      assert a[..i + 1] == a[..i] + [a[i]] && b[..i + 1] == b[..i] + [b[i]];
    }
    CommonIs(a, b, minLength);
    r := Wrap(|a| - |b|);
  }

  method IntegerKeyCompare(x: Val, y: Val) returns (r: int)
    ensures r == CompareVal(IntegerKey, x, y)
  {
    if x.Null? { return -1; }
    if y.Null? { return 1; }
    var a, b := x.bytes, y.bytes;
    if |a| != |b| {
      return Wrap(|a| - |b|);
    }
    for i := 0 to |a|
      invariant a[..i] == b[..i]
    {
      var diff := Unsigned(a[i]) - Unsigned(b[i]);
      if diff != 0 {
        CommonIs(a, b, i);
        return diff;
      }
      assert a[..i + 1] == a[..i] + [a[i]] && b[..i + 1] == b[..i] + [b[i]];
    }
    CommonIs(a, b, |a|);
    r := 0;
  }

  // ------------------------------------------------------------ total preorders

  /** Every two compare, each the converse way in the other order, and order is passed on. */
  ghost predicate TotalPreorder(cmp: (ByteArray, ByteArray) -> int) {
    && (forall a :: cmp(a, a) == 0)
    && (forall a, b :: Sign(cmp(a, b)) == -Sign(cmp(b, a)))
    && (forall a, b, c :: cmp(a, b) <= 0 && cmp(b, c) <= 0 ==> cmp(a, c) <= 0)
  }

  /** The dictionary order on unsigned bytes, said without any loop. */
  ghost predicate Before(a: seq<byte>, b: seq<byte>) {
    exists n ::
      && 0 <= n <= |a| && n <= |b| && a[..n] == b[..n]
      && (if n < |a| && n < |b| then Unsigned(a[n]) < Unsigned(b[n]) else |a| < |b|)
  }

  lemma ByteOrderIsBefore(a: ByteArray, b: ByteArray)
    ensures ByteOrder(a, b) < 0 <==> Before(a, b)
    ensures ByteOrder(a, b) > 0 <==> Before(b, a)
    ensures ByteOrder(a, b) == 0 <==> a == b
  {
    BeforeSign(a, b);
    BeforeSign(b, a);
    CommonIs(b, a, Common(a, b));
    assert a == a[..|a|] && b == b[..|b|];
    if a == b {
      CommonIs(a, b, |b|);
    }
  }

  lemma BeforeSign(a: ByteArray, b: ByteArray)
    ensures ByteOrder(a, b) < 0 <==> Before(a, b)
  {
    if Before(a, b) {
      var n :| 0 <= n <= |a| && n <= |b| && a[..n] == b[..n]
        && (if n < |a| && n < |b| then Unsigned(a[n]) < Unsigned(b[n]) else |a| < |b|);
      CommonIs(a, b, n);
    }
    if ByteOrder(a, b) < 0 {
      var n := Common(a, b);
      assert a[..n] == b[..n];
    }
  }

  lemma ByteOrderPasses(a: ByteArray, b: ByteArray, c: ByteArray)
    requires ByteOrder(a, b) <= 0 && ByteOrder(b, c) <= 0
    ensures ByteOrder(a, c) <= 0
  {
    var m, n := Common(a, b), Common(b, c);
    var k := if m <= n then m else n;
    assert a[..k] == a[..m][..k] == b[..m][..k] == b[..k];
    assert c[..k] == c[..n][..k] == b[..n][..k] == b[..k];
    if m < n {
      if m < |a| {
        assert b[m] == b[..n][m] == c[..n][m] == c[m];
      }
      CommonIs(a, c, m);
    } else if n < m {
      assert b[n] == b[..m][n] == a[..m][n] == a[n];
      CommonIs(a, c, n);
    } else {
      if k < |a| && k < |c| {
        CommonIs(a, c, k);
      } else {
        CommonIs(a, c, k);
      }
    }
  }

  lemma CompareLaws(c: Comparer, x: ByteArray, y: ByteArray, z: ByteArray)
    ensures Compare(c, x, x) == 0
    ensures Sign(Compare(c, x, y)) == -Sign(Compare(c, y, x))
    ensures Compare(c, x, y) <= 0 && Compare(c, y, z) <= 0 ==> Compare(c, x, z) <= 0
  {
    ByteOrderIsBefore(x, x);
    ByteOrderIsBefore(x, y);
    ByteOrderIsBefore(y, x);
    ByteOrderIsBefore(y, z);
    if ByteOrder(x, y) <= 0 && ByteOrder(y, z) <= 0 {
      ByteOrderPasses(x, y, z);
    }
  }

  function Order(c: Comparer): (ByteArray, ByteArray) -> int {
    (a: ByteArray, b: ByteArray) => Compare(c, a, b)
  }

  function ReverseOrder(c: Comparer): (ByteArray, ByteArray) -> int {
    (a: ByteArray, b: ByteArray) => Reverse(c, Bytes(a), Bytes(b))
  }

  /** Every shipped comparison, and its reverse, is a total preorder. */
  lemma EveryComparerOrders(c: Comparer)
    ensures TotalPreorder(Order(c))
    ensures TotalPreorder(ReverseOrder(c))
  {
    hide Compare, Reverse, CompareVal;
    forall x: ByteArray, y: ByteArray, z: ByteArray
      ensures Order(c)(x, x) == 0
      ensures Sign(Order(c)(x, y)) == -Sign(Order(c)(y, x))
      ensures Order(c)(x, y) <= 0 && Order(c)(y, z) <= 0 ==> Order(c)(x, z) <= 0
    {
      CompareLaws(c, x, y, z);
    }
    forall x: ByteArray, y: ByteArray
      ensures ReverseOrder(c)(x, y) == -Order(c)(x, y)
    {
      ReverseOf(c, x, y);
    }
    Backwards(Order(c), ReverseOrder(c));
  }

  lemma ReverseOf(c: Comparer, x: ByteArray, y: ByteArray)
    ensures Reverse(c, Bytes(x), Bytes(y)) == -Compare(c, x, y)
  {
    ReverseIsConverse(c, Bytes(x), Bytes(y));
  }

  lemma Backwards(cmp: (ByteArray, ByteArray) -> int, rev: (ByteArray, ByteArray) -> int)
    requires TotalPreorder(cmp)
    requires forall x, y :: rev(x, y) == -cmp(x, y)
    ensures TotalPreorder(rev)
  {
    forall x: ByteArray, y: ByteArray, z: ByteArray | rev(x, y) <= 0 && rev(y, z) <= 0
      ensures rev(x, z) <= 0
    {
      assert Sign(cmp(x, y)) == -Sign(cmp(y, x)) && Sign(cmp(y, z)) == -Sign(cmp(z, y));
      assert Sign(cmp(x, z)) == -Sign(cmp(z, x));
    }
  }

  /** No result is the one Int that has no negation, so a reverse is the exact converse. */
  lemma ReverseIsConverse(c: Comparer, a: Val, b: Val)
    ensures -INT_MAX <= CompareVal(c, a, b) <= INT_MAX
    ensures Reverse(c, a, b) == -CompareVal(c, a, b)
  {
  }

  /** With missing values, swapping the arguments swaps the verdict unless both are missing. */
  lemma SwapExact(c: Comparer, a: Val, b: Val)
    ensures Sign(CompareVal(c, a, b)) == -Sign(CompareVal(c, b, a)) <==> !(a.Null? && b.Null?)
  {
    if a.Bytes? && b.Bytes? {
      CompareLaws(c, a.bytes, b.bytes, b.bytes);
    }
  }

  /** A missing value comes before every other one, and before another missing one as well; the
      reverse comparisons put it last. */
  lemma MissingFirst(c: Comparer, a: Val)
    ensures CompareVal(c, Null, a) == -1 && Reverse(c, Null, a) == 1
    ensures a.Bytes? ==> CompareVal(c, a, Null) == 1 && Reverse(c, a, Null) == -1
  {
  }

  // ------------------------------------------------------------ what each one orders by

  /** The unsigned number a byte string spells, most significant byte first. */
  function Number(s: seq<byte>): nat {
    if s == [] then 0 else 256 * Number(s[..|s| - 1]) + Unsigned(s[|s| - 1])
  }

  lemma {:induction false} NumberBefore(a: seq<byte>, b: seq<byte>, n: nat)
    requires |a| == |b| && n < |a| && a[..n] == b[..n] && Unsigned(a[n]) < Unsigned(b[n])
    ensures Number(a) < Number(b)
  {
    var a', b' := a[..|a| - 1], b[..|a| - 1];
    if n == |a| - 1 {
      assert a' == b';
    } else {
      assert a'[..n] == a[..n] && b'[..n] == b[..n];
      NumberBefore(a', b', n);
    }
  }

  /** On keys of one size the integer comparison is the order of unsigned numbers. */
  lemma IntegerKeyIsNumeric(a: ByteArray, b: ByteArray)
    requires |a| == |b|
    ensures Sign(Compare(IntegerKey, a, b)) == Sign(Number(a) - Number(b))
    ensures Number(a) == Number(b) <==> a == b
  {
    var n := Common(a, b);
    CommonIs(b, a, n);
    if n == |a| {
      assert a == a[..n] && b == b[..n];
    } else if Unsigned(a[n]) < Unsigned(b[n]) {
      NumberBefore(a, b, n);
    } else {
      NumberBefore(b, a, n);
    }
  }

  /** Which comparisons tell any two arrays apart, hash collisions and wrap-around
      notwithstanding: all but the one that looks at sizes only. */
  lemma ZeroExact(c: Comparer, a: ByteArray, b: ByteArray)
    ensures Compare(c, a, b) == 0 <==> if c.LengthOnly? then |a| == |b| else a == b
  {
    ByteOrderIsBefore(a, b);
  }

  /** The polynomial that the hash stands for, without any wrap-around. */
  function Polynomial(s: seq<byte>): int {
    if s == [] then 1 else 31 * Polynomial(s[..|s| - 1]) + s[|s| - 1]
  }

  lemma WrapOnce(p: int, b: int)
    ensures Wrap(Wrap(31 * Wrap(p)) + b) == Wrap(31 * p + b)
  {
    var m := 0x1_0000_0000;
    var k := (Wrap(p) - p) / m;
    assert Wrap(p) == p + m * k;
    var j := (Wrap(31 * Wrap(p)) - 31 * Wrap(p)) / m;
    assert Wrap(31 * Wrap(p)) == 31 * Wrap(p) + m * j;
    SameWrap(31 * p + b, 31 * k + j);
  }

  lemma SameWrap(x: int, k: int)
    ensures Wrap(x + 0x1_0000_0000 * k) == Wrap(x)
  {
  }

  /** Wrapping around at every step is wrapping around once. */
  lemma {:induction false} HashIsPolynomial(s: seq<byte>)
    ensures Hash(s) == Wrap(Polynomial(s))
  {
    if s != [] {
      HashIsPolynomial(s[..|s| - 1]);
      WrapOnce(Polynomial(s[..|s| - 1]), s[|s| - 1]);
    }
  }

  /** The hash comparison is by the wrapped polynomial first and by the bytes among equals. */
  lemma HashDecides(a: ByteArray, b: ByteArray)
    ensures var d := Wrap(Polynomial(a)) - Wrap(Polynomial(b));
      Sign(Compare(HashCode, a, b)) == if d != 0 then Sign(d) else Sign(Compare(Bitwise, a, b))
  {
    HashIsPolynomial(a);
    HashIsPolynomial(b);
    ByteOrderIsBefore(a, b);
  }

  /** The integer comparison and the length comparison are one and the same: by size first,
      and in dictionary order of the bytes among arrays of one size. */
  lemma SizeDecides(a: ByteArray, b: ByteArray)
    ensures Compare(IntegerKey, a, b) == Compare(Length, a, b)
    ensures Compare(Length, a, b) < 0 <==> |a| < |b| || (|a| == |b| && Before(a, b))
    ensures Sign(Compare(LengthOnly, a, b)) == if |a| < |b| then -1 else if |a| == |b| then 0 else 1
    ensures Compare(LengthOnly, a, b) != 0 ==> Sign(Compare(LengthOnly, a, b)) == Sign(Compare(Length, a, b))
  {
    ByteOrderIsBefore(a, b);
  }

  /** Two different strings of one hash: 31 * 0 + 31 == 31 * 1 + 0. */
  lemma HashesCollide()
    ensures Hash([0, 31]) == Hash([1, 0])
    ensures Compare(HashCode, [0, 31], [1, 0]) == Compare(Bitwise, [0, 31], [1, 0]) == -1
  {
    var a: seq<byte>, b: seq<byte> := [0, 31], [1, 0];
    assert a[..1] == [0] && b[..1] == [1] && a[..1][..0] == [] && b[..1][..0] == [];
    assert Hash(a[..1]) == 31 && Hash(b[..1]) == 32;
    CommonIs(a, b, 0);
  }

  // ------------------------------------------------------------ the engine's default

  /** What memcmp promises of its result on n bytes. */
  ghost predicate Memcmp(a: seq<byte>, b: seq<byte>, n: nat, diff: int)
    requires n <= |a| && n <= |b|
  {
    var k := Common(a[..n], b[..n]);
    Sign(diff) == if k < n then Sign(Unsigned(a[k]) - Unsigned(b[k])) else 0
  }

  /** mdb_cmp_memn, given what memcmp returned. */
  function CmpMemn(a: ByteArray, b: ByteArray, diff: int): int {
    var lenDiff := if |a| > |b| then 1 else |a| - |b|;
    if diff != 0 then diff else if lenDiff < 0 then -1 else lenDiff
  }

  /** The bitwise comparison agrees in sign with the engine's default, whatever memcmp
      returns within its promise. */
  lemma BitwiseIsDefault(a: ByteArray, b: ByteArray, diff: int)
    requires Memcmp(a, b, if |a| > |b| then |b| else |a|, diff)
    ensures Sign(CmpMemn(a, b, diff)) == Sign(Compare(Bitwise, a, b))
  {
    var n := if |a| > |b| then |b| else |a|;
    var k := Common(a[..n], b[..n]);
    assert a[..k] == a[..n][..k] && b[..k] == b[..n][..k];
    CommonIs(a, b, k);
  }

  // ------------------------------------------------------------ ranks

  /** How many of the keys in use are below k. */
  ghost function Rank(cmp: (ByteArray, ByteArray) -> int, keys: set<ByteArray>, k: ByteArray): nat {
    |set x | x in keys && cmp(x, k) < 0|
  }

  /** Any total preorder on the keys in use is an order of ranks, which is all that the tree
      operations look at. */
  lemma RanksAgree(cmp: (ByteArray, ByteArray) -> int, keys: set<ByteArray>, a: ByteArray, b: ByteArray)
    requires TotalPreorder(cmp) && a in keys && b in keys
    ensures Sign(cmp(a, b)) == Sign(Rank(cmp, keys, a) - Rank(cmp, keys, b))
  {
    if cmp(a, b) < 0 {
      RankBelow(cmp, keys, a, b);
    } else if cmp(b, a) < 0 {
      RankBelow(cmp, keys, b, a);
    } else {
      RankAtMost(cmp, keys, a, b);
      RankAtMost(cmp, keys, b, a);
    }
  }

  lemma RankAtMost(cmp: (ByteArray, ByteArray) -> int, keys: set<ByteArray>, a: ByteArray, b: ByteArray)
    requires TotalPreorder(cmp) && cmp(a, b) <= 0
    ensures (set x | x in keys && cmp(x, a) < 0) <= (set x | x in keys && cmp(x, b) < 0)
    ensures Rank(cmp, keys, a) <= Rank(cmp, keys, b)
  {
    var s, t := set x | x in keys && cmp(x, a) < 0, set x | x in keys && cmp(x, b) < 0;
    forall x | x in s ensures x in t {
      assert Sign(cmp(x, b)) == -Sign(cmp(b, x));
      assert Sign(cmp(x, a)) == -Sign(cmp(a, x));
    }
    Smaller(s, t);
  }

  lemma RankBelow(cmp: (ByteArray, ByteArray) -> int, keys: set<ByteArray>, a: ByteArray, b: ByteArray)
    requires TotalPreorder(cmp) && a in keys && cmp(a, b) < 0
    ensures Rank(cmp, keys, a) < Rank(cmp, keys, b)
  {
    RankAtMost(cmp, keys, a, b);
    var s, t := set x | x in keys && cmp(x, a) < 0, set x | x in keys && cmp(x, b) < 0;
    assert a in t && a !in s;
    Smaller(s, t - {a});
  }
}

/** The Merkle reduction of `rvm-context/src/receipt.rs`, lines 636-666. */
module Merkle {
  /** The node hash. */
  type NodeHash<!D> = (D, D) -> D

  /** How many levels of pairing bring `n` nodes down to one. */
  function Height(n: nat): (h: nat)
    ensures n <= Power2(h)
    ensures h > 0 ==> Power2(h - 1) < n
  {
    if n <= 1 then 0 else
      var h := Height((n + 1) / 2);
      assert h > 0 ==> Power2(h) == 2 * Power2(h - 1);
      h + 1
  }

  function Power2(h: nat): (r: nat)
    ensures r >= 1
  {
    if h == 0 then 1 else 2 * Power2(h - 1)
  }

  /** The tree of height `h` over the leaves: the left half is full, and a missing right
      half repeats the left one. */
  function Tree<D>(node: NodeHash<D>, leaves: seq<D>, h: nat): D
    requires 1 <= |leaves| <= Power2(h)
  {
    if h == 0 then leaves[0]
    else
      var half := Power2(h - 1);
      if |leaves| <= half then
        var left := Tree(node, leaves, h - 1);
        node(left, left)
      else node(Tree(node, leaves[..half], h - 1), Tree(node, leaves[half..], h - 1))
  }

  /** One level up: neighbours paired, a last odd one paired with itself. */
  function Parent<D>(node: NodeHash<D>, level: seq<D>, p: nat): D
    requires 2 * p < |level|
  {
    node(level[2 * p], if 2 * p + 1 < |level| then level[2 * p + 1] else level[2 * p])
  }

  function Parents<D>(node: NodeHash<D>, level: seq<D>): (r: seq<D>)
    ensures |r| == (|level| + 1) / 2 && forall p :: 0 <= p < |r| ==> r[p] == Parent(node, level, p)
  {
    seq((|level| + 1) / 2, p requires 0 <= p < (|level| + 1) / 2 => Parent(node, level, p))
  }

  /** Going up a level lowers the tree by one. */
  lemma {:induction false} LevelUp<D>(node: NodeHash<D>, level: seq<D>, h: nat)
    requires 1 <= |level| <= Power2(h) && h > 0
    ensures 1 <= |Parents(node, level)| <= Power2(h - 1)
    ensures Tree(node, level, h) == Tree(node, Parents(node, level), h - 1)
  {
    var ups, half := Parents(node, level), Power2(h - 1);
    if h == 1 {
      assert ups[0] == Parent(node, level, 0);
      if |level| > 1 { assert level[..half] == [level[0]] && level[half..] == [level[1]]; }
    } else if |level| <= half {
      hide Parents;
      LevelUp(node, level, h - 1);
    } else {
      hide Parents;
      var quarter := Power2(h - 2);
      assert half == 2 * quarter;
      ParentsOfHalves(node, level, quarter);
      LevelUp(node, level[..half], h - 1);
      LevelUp(node, level[half..], h - 1);
    }
  }

  lemma ParentsOfHalves<D>(node: NodeHash<D>, level: seq<D>, quarter: nat)
    requires 2 * quarter < |level|
    ensures quarter < |Parents(node, level)|
    ensures Parents(node, level)[..quarter] == Parents(node, level[..2 * quarter])
    ensures Parents(node, level)[quarter..] == Parents(node, level[2 * quarter..])
  {
    var ups, rest := Parents(node, level), level[2 * quarter..];
    forall p | 0 <= p < |ups| - quarter ensures ups[quarter + p] == Parent(node, rest, p) {
      assert ups[quarter + p] == Parent(node, level, quarter + p);
      assert rest[2 * p] == level[2 * (quarter + p)];
      if 2 * p + 1 < |rest| { assert rest[2 * p + 1] == level[2 * (quarter + p) + 1]; }
    }
  }

  /** The root of a non-empty list: the lowest tree that holds it. */
  function Root<D>(node: NodeHash<D>, leaves: seq<D>): D
    requires leaves != []
  {
    Tree(node, leaves, Height(|leaves|))
  }

  /** Going up a level keeps the root. */
  lemma RootUp<D>(node: NodeHash<D>, level: seq<D>)
    requires |level| > 1
    ensures Parents(node, level) != [] && Root(node, level) == Root(node, Parents(node, level))
  {
    hide Tree, Power2;
    LevelUp(node, level, Height(|level|));
  }

  lemma RootOfOne<D>(node: NodeHash<D>, leaf: D)
    ensures Root(node, [leaf]) == leaf
  {}

  /** The `k`-th level above the leaves. */
  function LevelAt<D>(node: NodeHash<D>, leaves: seq<D>, k: nat): seq<D>
    decreases k
  {
    if k == 0 then leaves else LevelAt(node, Parents(node, leaves), k - 1)
  }

  /** The pair that parent `p` is made of. */
  function PairAt<D>(level: seq<D>, p: nat): (D, D)
    requires 2 * p < |level|
  {
    (level[2 * p], if 2 * p + 1 < |level| then level[2 * p + 1] else level[2 * p])
  }

  /** Different pairs at place `p` of level `k` of the two trees have one parent. */
  ghost predicate NodeCollision<D>(node: NodeHash<D>, a: seq<D>, b: seq<D>, k: nat, p: nat) {
    var x, y := LevelAt(node, a, k), LevelAt(node, b, k);
    && 2 * p < |x| == |y| && PairAt(x, p) != PairAt(y, p)
    && node(PairAt(x, p).0, PairAt(x, p).1) == node(PairAt(y, p).0, PairAt(y, p).1)
  }

  lemma PairCollides<D>(node: NodeHash<D>, a: seq<D>, b: seq<D>, i: nat)
    requires |a| == |b| && i < |a| && a[i] != b[i] && Parents(node, a) == Parents(node, b)
    ensures NodeCollision(node, a, b, 0, i / 2)
  {
    assert Parents(node, a)[i / 2] == Parent(node, a, i / 2) && Parents(node, b)[i / 2] == Parent(node, b, i / 2);
  }

  lemma CollisionAbove<D>(node: NodeHash<D>, a: seq<D>, b: seq<D>, k: nat, p: nat)
    requires NodeCollision(node, Parents(node, a), Parents(node, b), k, p)
    ensures NodeCollision(node, a, b, k + 1, p)
  {}

  /** Two different lists of equally many leaves with one root: somewhere in their trees
      the node hash collides, and the lemma finds the place. */
  lemma {:induction false} RootCollision<D>(node: NodeHash<D>, a: seq<D>, b: seq<D>) returns (k: nat, p: nat)
    requires |a| == |b| > 0 && Root(node, a) == Root(node, b) && a != b
    ensures NodeCollision(node, a, b, k, p)
    decreases |a|
  {
    hide Root, Parent, NodeCollision;
    var i :| 0 <= i < |a| && a[i] != b[i];
    if |a| == 1 {
      assert a == [a[0]] && b == [b[0]];
      RootOfOne(node, a[0]);
      RootOfOne(node, b[0]);
      assert false;
    }
    RootUp(node, a);
    RootUp(node, b);
    if Parents(node, a) == Parents(node, b) {
      PairCollides(node, a, b, i);
      k, p := 0, i / 2;
    } else {
      k, p := RootCollision(node, Parents(node, a), Parents(node, b));
      CollisionAbove(node, a, b, k, p);
      k := k + 1;
    }
  }

  /** The root alone does not tell how many leaves there are: repeating the last of an odd
      number goes unnoticed, whatever the hash. */
  lemma RepeatedLast<D>(node: NodeHash<D>, leaves: seq<D>, m: nat)
    requires |leaves| == 2 * m + 1 && m > 0
    ensures Root(node, leaves + [leaves[2 * m]]) == Root(node, leaves)
  {
    hide Root, Parents;
    RootUp(node, leaves);
    RootUp(node, leaves + [leaves[2 * m]]);
    RepeatedParents(node, leaves, m);
  }

  lemma RepeatedParents<D>(node: NodeHash<D>, leaves: seq<D>, m: nat)
    requires |leaves| == 2 * m + 1
    ensures Parents(node, leaves + [leaves[2 * m]]) == Parents(node, leaves)
  {
    var longer := leaves + [leaves[2 * m]];
    assert (|leaves| + 1) / 2 == m + 1 == (|longer| + 1) / 2;
    forall p | 0 <= p < m + 1 ensures Parent(node, leaves, p) == Parent(node, longer, p) {
      assert longer[2 * p] == leaves[2 * p];
      if p < m { assert longer[2 * p + 1] == leaves[2 * p + 1]; }
    }
  }

  /** Reduces a level in place, writing each parent over the first half and cutting the
      rest off, until the root is left. An empty level has the root `zero`. */
  method ReduceInPlace<D>(node: NodeHash<D>, level: array<D>, zero: D) returns (root: D)
    modifies level
    ensures root == if level.Length == 0 then zero else Root(node, old(level[..]))
  {
    if level.Length == 0 {
      return zero;
    }
    hide Root, Parents;
    var len := level.Length;
    assert level[..len] == level[..];
    while len > 1
      invariant 1 <= len <= level.Length
      invariant Root(node, level[..len]) == Root(node, old(level[..]))
    {
      RootUp(node, level[..len]);
      len := PairUp(node, level, len);
    }
    assert level[..1] == [level[0]];
    RootOfOne(node, level[0]);
    return level[0];
  }

  /** One level up, in place. */
  method PairUp<D>(node: NodeHash<D>, level: array<D>, len: nat) returns (parentCount: nat)
    requires 1 < len <= level.Length
    modifies level
    ensures parentCount == (len + 1) / 2 && level[..parentCount] == Parents(node, old(level[..len]))
  {
    ghost var before := level[..len];
    parentCount := (len + 1) / 2;
    for parent := 0 to parentCount
      invariant forall p :: 0 <= p < parent ==> level[p] == Parent(node, before, p)
      invariant forall k :: 2 * parent <= k < len ==> level[k] == before[k]
    {
      var leftIndex := parent * 2;
      var right := if leftIndex + 1 < len then level[leftIndex + 1] else level[leftIndex];
      level[parent] := node(level[leftIndex], right);
    }
  }
}

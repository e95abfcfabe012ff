/** The first-child / next-sibling derivation forest of `rvm-cap/src/derivation.rs`. */
module Derivation {
  import opened Types
  import opened CapTable

  datatype DerivationNode = DerivationNode(
    isValid: bool, depth: nat, epoch: nat, firstChild: nat, nextSibling: nat, parentIndex: nat)

  const EMPTY_NODE := DerivationNode(false, 0, 0, U32_MAX, U32_MAX, U32_MAX)

  function NewRoot(epoch: nat): DerivationNode {
    DerivationNode(true, 0, epoch, U32_MAX, U32_MAX, U32_MAX)
  }

  type Nodes = seq<DerivationNode>

  ghost predicate Live(ns: Nodes, i: int) {
    0 <= i < |ns| && ns[i].isValid
  }

  // ---- child lists --------------------------------------------------------------------

  ghost function Next(list: seq<nat>, k: int): nat
    requires -1 <= k < |list|
  {
    if k + 1 < |list| then list[k + 1] else U32_MAX
  }

  ghost predicate LinkAt(ns: Nodes, list: seq<nat>, k: int)
    requires 0 <= k < |list|
  {
    list[k] < |ns| && ns[list[k]].nextSibling == Next(list, k)
  }

  /** Following `nextSibling` from `start` visits exactly `list`. */
  ghost predicate Chain(ns: Nodes, start: nat, list: seq<nat>) {
    && start == Next(list, -1)
    && forall k {:trigger LinkAt(ns, list, k)} :: 0 <= k < |list| ==> LinkAt(ns, list, k)
  }

  /** `list` is the child list of live node `i`. Revoked children may still be on it. */
  ghost predicate ChildList(ns: Nodes, i: nat, list: seq<nat>)
    requires i < |ns|
  {
    && Chain(ns, ns[i].firstChild, list) && NoRepeats(list)
    && forall c :: c in list && Live(ns, c) ==> ns[c].depth == ns[i].depth + 1 && ns[c].parentIndex == i
  }

  /** A live node below the top is on the list of its live parent. */
  ghost predicate Placed(ns: Nodes, kids: seq<seq<nat>>, c: nat)
    requires c < |ns| && |kids| == |ns|
  {
    ns[c].depth > 0 ==> Live(ns, ns[c].parentIndex) && c in kids[ns[c].parentIndex]
  }

  /** The forest invariant, with the child lists of the live nodes in `kids`. */
  ghost predicate Forest(ns: Nodes, kids: seq<seq<nat>>) {
    && |kids| == |ns| < U32_MAX
    && (forall i :: Live(ns, i) ==> ChildList(ns, i, kids[i]))
    && (forall i :: Live(ns, i) ==> Placed(ns, kids, i))
    && (forall i, j, c :: Live(ns, i) && Live(ns, j) && c in kids[i] && c in kids[j] ==> i == j)
  }

  lemma ChainTail(ns: Nodes, start: nat, l: seq<nat>)
    requires Chain(ns, start, l) && |l| > 0
    ensures start == l[0] < |ns| && Chain(ns, ns[start].nextSibling, l[1..])
  {
    assert LinkAt(ns, l, 0);
    forall k | 0 <= k < |l[1..]| ensures LinkAt(ns, l[1..], k) {
      assert LinkAt(ns, l, k + 1);
    }
  }

  lemma EndOfChain(ns: Nodes, start: nat, list: seq<nat>, k: nat)
    requires Chain(ns, start, list) && |ns| < U32_MAX && k <= |list|
    ensures Next(list, k - 1) == U32_MAX <==> k == |list|
  {
    assert k < |list| ==> LinkAt(ns, list, k);
  }

  /** A chain survives changes to nodes it does not pass. */
  lemma ChainKept(ns: Nodes, ns': Nodes, start: nat, list: seq<nat>)
    requires Chain(ns, start, list) && |ns'| == |ns|
    requires forall c :: c in list && c < |ns| ==> ns'[c].nextSibling == ns[c].nextSibling
    ensures Chain(ns', start, list)
  {
    forall k | 0 <= k < |list| ensures LinkAt(ns', list, k) {
      assert LinkAt(ns, list, k);
    }
  }

  // ---- insertion ----------------------------------------------------------------------

  /** No live node's child list passes slot `c`. A caller can check this by walking. */
  ghost predicate Unlinked(ns: Nodes, kids: seq<seq<nat>>, c: nat) {
    forall i :: Live(ns, i) && i < |kids| ==> c !in kids[i]
  }

  ghost function RootAdded(ns: Nodes, c: nat, epoch: nat): Nodes
    requires c < |ns|
  {
    ns[c := NewRoot(epoch)]
  }

  lemma AddRootForest(ns: Nodes, kids: seq<seq<nat>>, c: nat, epoch: nat)
    requires Forest(ns, kids) && c < |ns| && !Live(ns, c) && Unlinked(ns, kids, c)
    ensures Forest(RootAdded(ns, c, epoch), kids[c := []])
  {
    var ns', kids' := RootAdded(ns, c, epoch), kids[c := []];
    forall i | Live(ns', i) ensures ChildList(ns', i, kids'[i]) && Placed(ns', kids', i) {
      if i != c {
        assert ChildList(ns, i, kids[i]) && Placed(ns, kids, i);
        ChainKept(ns, ns', ns[i].firstChild, kids[i]);
      }
    }
  }

  /** Once the overwritten slot is on the list of `i`, no list read off the links of
      `i` is a proper child list: it passes a root. */
  lemma StrayRoot(ns: Nodes, kids: seq<seq<nat>>, c: nat, epoch: nat, i: nat, list: seq<nat>)
    requires Forest(ns, kids) && c < |ns| && !Live(ns, c) && Live(ns, i) && c in kids[i]
    ensures !ChildList(RootAdded(ns, c, epoch), i, list)
  {
    var ns' := RootAdded(ns, c, epoch);
    assert ChildList(ns, i, kids[i]);
    if Chain(ns', ns'[i].firstChild, list) {
      var p :| 0 <= p < |kids[i]| && kids[i][p] == c;
      SharedPrefix(ns, ns', ns[i].firstChild, kids[i], list, c, p);
      assert c in list && Live(ns', c);
    }
  }

  /** Overwriting a slot that a live node's list still passes destroys the forest,
      whatever child lists one tries to read off the links. */
  lemma AddRootBreaks(ns: Nodes, kids: seq<seq<nat>>, c: nat, epoch: nat, kids': seq<seq<nat>>)
    requires Forest(ns, kids) && c < |ns| && !Live(ns, c) && !Unlinked(ns, kids, c)
    ensures !Forest(RootAdded(ns, c, epoch), kids')
  {
    var i :| Live(ns, i) && i < |kids| && c in kids[i];
    assert Live(RootAdded(ns, c, epoch), i);
    StrayRoot(ns, kids, c, epoch, i, if |kids'| == |ns| then kids'[i] else []);
  }

  /** Two chains from one start agree up to the first slot on which the arrays differ. */
  lemma SharedPrefix(ns: Nodes, ns': Nodes, start: nat, l: seq<nat>, l': seq<nat>, c: nat, p: nat)
    requires Chain(ns, start, l) && Chain(ns', start, l') && |ns'| == |ns| < U32_MAX
    requires p < |l| && l[p] == c && (forall x :: 0 <= x < |ns| && x != c ==> ns'[x].nextSibling == ns[x].nextSibling)
    requires NoRepeats(l)
    ensures p < |l'| && l'[p] == c
    decreases p
  {
    assert LinkAt(ns, l, 0);
    assert Next(l', -1) == start == Next(l, -1);
    if p > 0 {
      assert LinkAt(ns', l', 0) && l[0] != l[p];
      ChainTail(ns, start, l);
      ChainTail(ns', start, l');
      SharedPrefix(ns, ns', ns[start].nextSibling, l[1..], l'[1..], c, p - 1);
    }
  }

  /** Inserting a root keeps the forest exactly when the slot is unlinked. */
  lemma AddRootIff(ns: Nodes, kids: seq<seq<nat>>, c: nat, epoch: nat)
    requires Forest(ns, kids) && c < |ns| && !Live(ns, c)
    ensures (exists kids' :: Forest(RootAdded(ns, c, epoch), kids')) <==> Unlinked(ns, kids, c)
  {
    if Unlinked(ns, kids, c) {
      AddRootForest(ns, kids, c, epoch);
    } else {
      forall kids' ensures !Forest(RootAdded(ns, c, epoch), kids') {
        AddRootBreaks(ns, kids, c, epoch, kids');
      }
    }
  }

  /** Slot 2 was revoked under the live root 0, which still lists it before its live
      child 1. Reusing slot 2 for a root leaves 0 with a list that holds the stranger
      and no longer reaches 1. */
  lemma ReuseLosesChild()
    ensures
      var ns := [DerivationNode(true, 0, 0, 2, U32_MAX, U32_MAX), DerivationNode(true, 1, 0, U32_MAX, U32_MAX, 0),
                 DerivationNode(false, 1, 0, U32_MAX, 1, 0)];
      var ns' := RootAdded(ns, 2, 0);
      && Forest(ns, [[2, 1], [], []]) && !Unlinked(ns, [[2, 1], [], []], 2)
      && Chain(ns', ns'[0].firstChild, [2]) && Live(ns', 1) && ns'[1].parentIndex == 0
      && forall kids :: !Forest(ns', kids)
  {
    var ns := [DerivationNode(true, 0, 0, 2, U32_MAX, U32_MAX), DerivationNode(true, 1, 0, U32_MAX, U32_MAX, 0),
               DerivationNode(false, 1, 0, U32_MAX, 1, 0)];
    var kids := [[2, 1], [], []];
    assert LinkAt(ns, [2, 1], 0) && LinkAt(ns, [2, 1], 1);
    assert ChildList(ns, 0, kids[0]) && ChildList(ns, 1, kids[1]);
    assert Placed(ns, kids, 0) && Placed(ns, kids, 1);
    assert 2 in kids[0] && Live(ns, 0);
    assert Forest(ns, kids);
    AddRootIff(ns, kids, 2, 0);
    assert LinkAt(RootAdded(ns, 2, 0), [2], 0);
  }

  ghost function ChildAdded(ns: Nodes, p: nat, c: nat, depth: nat, epoch: nat): Nodes
    requires p < |ns| && c < |ns|
  {
    ns[p := ns[p].(firstChild := c)][c := DerivationNode(true, depth, epoch, U32_MAX, ns[p].firstChild, p)]
  }

  lemma ParentList(ns: Nodes, kids: seq<seq<nat>>, p: nat, c: nat, epoch: nat)
    requires Forest(ns, kids) && Live(ns, p) && c < |ns| && !Live(ns, c) && Unlinked(ns, kids, c)
    ensures ChildList(ChildAdded(ns, p, c, ns[p].depth + 1, epoch), p, [c] + kids[p])
  {
    var ns' := ChildAdded(ns, p, c, ns[p].depth + 1, epoch);
    assert ChildList(ns, p, kids[p]);
    ChainKept(ns, ns', ns[p].firstChild, kids[p]);
    PrependChain(ns', c, ns[p].firstChild, kids[p]);
  }

  lemma OtherList(ns: Nodes, kids: seq<seq<nat>>, p: nat, c: nat, epoch: nat, i: nat)
    requires Forest(ns, kids) && Live(ns, p) && c < |ns| && !Live(ns, c) && Unlinked(ns, kids, c)
    requires Live(ns, i) && i != p
    ensures ChildList(ChildAdded(ns, p, c, ns[p].depth + 1, epoch), i, kids[i])
  {
    assert ChildList(ns, i, kids[i]);
    ChainKept(ns, ChildAdded(ns, p, c, ns[p].depth + 1, epoch), ns[i].firstChild, kids[i]);
  }

  /** Prepending a fresh child keeps the forest. */
  lemma AddChildForest(ns: Nodes, kids: seq<seq<nat>>, p: nat, c: nat, epoch: nat)
    requires Forest(ns, kids) && Live(ns, p) && c < |ns| && !Live(ns, c) && Unlinked(ns, kids, c)
    ensures Forest(ChildAdded(ns, p, c, ns[p].depth + 1, epoch), kids[c := []][p := [c] + kids[p]])
  {
    var ns' := ChildAdded(ns, p, c, ns[p].depth + 1, epoch);
    var kids' := kids[c := []][p := [c] + kids[p]];
    forall i | Live(ns', i) ensures ChildList(ns', i, kids'[i]) {
      hide ChildList;
      if i == p {
        ParentList(ns, kids, p, c, epoch);
      } else if i != c {
        OtherList(ns, kids, p, c, epoch, i);
      } else {
        NoChildren(ns', c);
      }
    }
    forall i | Live(ns', i) ensures Placed(ns', kids', i) {
      hide ChildList;
      if i == c {
        assert kids'[p][0] == c;
      } else {
        assert Placed(ns, kids, i);
      }
    }
    hide ChildList, Placed;
    assert forall i :: 0 <= i < |kids| && i != p && i != c ==> kids'[i] == kids[i];
    assert forall x :: x in kids'[p] ==> x == c || x in kids[p];
  }

  lemma NoChildren(ns: Nodes, c: nat)
    requires c < |ns| && ns[c].firstChild == U32_MAX
    ensures ChildList(ns, c, [])
  {}

  /** Linking a child in a slot that a live list still passes destroys the forest: the
      list of another node would hold a stranger, the parent's own would turn into a loop. */
  lemma AddChildBreaks(ns: Nodes, kids: seq<seq<nat>>, p: nat, c: nat, depth: nat, epoch: nat, kids': seq<seq<nat>>)
    requires Forest(ns, kids) && Live(ns, p) && c < |ns| && !Live(ns, c) && !Unlinked(ns, kids, c)
    ensures !Forest(ChildAdded(ns, p, c, depth, epoch), kids')
  {
    var i :| Live(ns, i) && i < |kids| && c in kids[i];
    var list := if |kids'| == |ns| then kids'[i] else [];
    assert Live(ChildAdded(ns, p, c, depth, epoch), i);
    StrayChild(ns, kids, p, c, depth, epoch, i, list);
  }

  lemma StrayChild(ns: Nodes, kids: seq<seq<nat>>, p: nat, c: nat, depth: nat, epoch: nat, i: nat, list: seq<nat>)
    requires Forest(ns, kids) && Live(ns, p) && c < |ns| && !Live(ns, c) && Live(ns, i) && c in kids[i]
    ensures !ChildList(ChildAdded(ns, p, c, depth, epoch), i, list)
  {
    var ns' := ChildAdded(ns, p, c, depth, epoch);
    assert ChildList(ns, i, kids[i]);
    var q :| 0 <= q < |kids[i]| && kids[i][q] == c;
    if Chain(ns', ns'[i].firstChild, list) {
      if i == p {
        assert Next(list, -1) == c;
        ChainTail(ns', c, list);
        SharedPrefix(ns, ns', ns[p].firstChild, kids[p], list[1..], c, q);
        assert list[0] == c == list[q + 1];
      } else {
        SharedPrefix(ns, ns', ns[i].firstChild, kids[i], list, c, q);
        assert c in list && Live(ns', c);
      }
    }
  }

  /** Inserting a child keeps the forest exactly when the slot is unlinked. */
  lemma AddChildIff(ns: Nodes, kids: seq<seq<nat>>, p: nat, c: nat, epoch: nat)
    requires Forest(ns, kids) && Live(ns, p) && c < |ns| && !Live(ns, c)
    ensures
      var ns' := ChildAdded(ns, p, c, ns[p].depth + 1, epoch);
      (exists kids' :: Forest(ns', kids')) <==> Unlinked(ns, kids, c)
  {
    var ns' := ChildAdded(ns, p, c, ns[p].depth + 1, epoch);
    if Unlinked(ns, kids, c) {
      AddChildForest(ns, kids, p, c, epoch);
    } else {
      forall kids' ensures !Forest(ns', kids') {
        AddChildBreaks(ns, kids, p, c, ns[p].depth + 1, epoch, kids');
      }
    }
  }

  lemma AddChildOutcome(ns: Nodes, kids: seq<seq<nat>>, p: nat, c: nat, epoch: nat, ns': Nodes, kids': seq<seq<nat>>)
    requires Forest(ns, kids) && Live(ns, p) && c < |ns| && !Live(ns, c)
    requires ns' == ChildAdded(ns, p, c, ns[p].depth + 1, epoch) && |kids| == |ns|
      && kids' == kids[c := []][p := [c] + kids[p]]
    ensures Forest(ns', kids') <==> Unlinked(ns, kids, c)
    ensures (exists k :: Forest(ns', k)) <==> Unlinked(ns, kids, c)
  {
    hide Forest, Unlinked, ChildAdded, Live;
    AddChildIff(ns, kids, p, c, epoch);
    if Unlinked(ns, kids, c) {
      AddChildForest(ns, kids, p, c, epoch);
    }
  }

  /** Granting, revoking and granting again from root 0 puts slot 1 after itself: the
      links of 0 then spell out no finite list, and a walk along them never ends. */
  lemma RegrantLoops()
    ensures
      var ns := [DerivationNode(true, 0, 0, 1, U32_MAX, U32_MAX), DerivationNode(false, 1, 0, U32_MAX, U32_MAX, 0)];
      var ns' := ChildAdded(ns, 0, 1, 1, 0);
      && Forest(ns, [[1], []]) && ns'[0].firstChild == 1 == ns'[1].nextSibling
      && forall kids :: !Forest(ns', kids)
  {
    var ns := [DerivationNode(true, 0, 0, 1, U32_MAX, U32_MAX), DerivationNode(false, 1, 0, U32_MAX, U32_MAX, 0)];
    assert LinkAt(ns, [1], 0);
    assert ChildList(ns, 0, [1]) && Placed(ns, [[1], []], 0);
    assert 1 in [[1], []][0] && Live(ns, 0);
    AddChildIff(ns, [[1], []], 0, 1, 0);
  }

  lemma PrependChain(ns: Nodes, c: nat, start: nat, list: seq<nat>)
    requires c < |ns| && ns[c].nextSibling == start && Chain(ns, start, list)
    ensures Chain(ns, c, [c] + list)
  {
    var list' := [c] + list;
    forall k | 0 <= k < |list'| ensures LinkAt(ns, list', k) {
      if k == 0 {
        assert Next(list', 0) == Next(list, -1);
      } else {
        assert LinkAt(ns, list, k - 1) && Next(list', k) == Next(list, k - 1);
      }
    }
  }

  // ---- descent --------------------------------------------------------------------------

  /** `i` is `r` or was derived from it through live nodes. */
  ghost predicate DescendsFrom(ns: Nodes, i: nat, r: nat)
    decreases if i < |ns| then ns[i].depth else 0
  {
    Live(ns, i) && (i == r || (ns[i].depth > 0 && Live(ns, ns[i].parentIndex)
      && ns[ns[i].parentIndex].depth < ns[i].depth && DescendsFrom(ns, ns[i].parentIndex, r)))
  }

  /** The array after the nodes of `dead` are marked invalid. */
  ghost predicate Killed(ns: Nodes, ns': Nodes, dead: set<nat>) {
    |ns'| == |ns| && forall i :: 0 <= i < |ns| ==> ns'[i] == if i in dead then ns[i].(isValid := false) else ns[i]
  }

  /** Killing a set of nodes that is closed under children keeps the forest. */
  lemma KillForest(ns: Nodes, ns': Nodes, kids: seq<seq<nat>>, dead: set<nat>)
    requires Forest(ns, kids) && Killed(ns, ns', dead)
    requires forall c :: Live(ns, c) && ns[c].depth > 0 && ns[c].parentIndex in dead ==> c in dead
    ensures Forest(ns', kids)
  {
    forall i | Live(ns', i) ensures ChildList(ns', i, kids[i]) && Placed(ns', kids, i) {
      assert ChildList(ns, i, kids[i]) && Placed(ns, kids, i);
      ChainKept(ns, ns', ns[i].firstChild, kids[i]);
    }
  }

  // ---- revocation -----------------------------------------------------------------------

  /** The nodes that go when `r` is revoked. */
  ghost function Doomed(ns: Nodes, r: nat): (d: set<nat>)
    ensures forall i :: i in d <==> 0 <= i < |ns| && DescendsFrom(ns, i, r)
  {
    set i | 0 <= i < |ns| && DescendsFrom(ns, i, r)
  }

  /** A node the walk from `r` has reached. */
  ghost predicate Reached(ns: Nodes, r: nat, killed: set<nat>, x: nat) {
    DescendsFrom(ns, x, r) && (x == r || ns[x].parentIndex in killed)
  }

  /** Progress of the stack walk from `r`: killed and stacked nodes were reached, and
      every child of a killed node is killed or stacked. */
  ghost predicate Walk(ns: Nodes, r: nat, killed: set<nat>, stack: seq<nat>) {
    && NoRepeats(stack)
    && (forall x :: x in stack ==> Reached(ns, r, killed, x) && x !in killed)
    && (forall x :: x in killed ==> Reached(ns, r, killed, x))
    && (r in killed || r in stack)
    && (forall x :: Live(ns, x) && ns[x].depth > 0 && ns[x].parentIndex in killed ==> x in killed || x in stack)
  }

  /** With an empty stack the killed nodes are exactly the descendants. */
  lemma {:induction false} WalkDone(ns: Nodes, r: nat, killed: set<nat>, i: nat)
    requires Walk(ns, r, killed, []) && DescendsFrom(ns, i, r)
    ensures i in killed
    decreases if i < |ns| then ns[i].depth else 0
  {
    if i != r {
      WalkDone(ns, r, killed, ns[i].parentIndex);
    }
  }

  lemma WalkComplete(ns: Nodes, r: nat, killed: set<nat>)
    requires Walk(ns, r, killed, [])
    ensures killed == Doomed(ns, r)
  {
    forall i | i in Doomed(ns, r) ensures i in killed {
      WalkDone(ns, r, killed, i);
    }
  }

  /** A walk never stacks more entries than there are slots. */
  lemma WalkFits(ns: Nodes, r: nat, killed: set<nat>, stack: seq<nat>)
    requires Walk(ns, r, killed, stack)
    ensures |stack| <= |ns|
  {
    forall k | 0 <= k < |stack| ensures stack[k] in Below(|ns|) {
      assert stack[k] in stack;
    }
    BelowSize(|ns|);
    DistinctSize(stack, Below(|ns|));
  }

  /** The live elements of a child list, in list order. */
  ghost function LiveOf(ns: Nodes, list: seq<nat>): (r: seq<nat>)
  {
    if list == [] then []
    else LiveOf(ns, list[..|list| - 1]) + if Live(ns, list[|list| - 1]) then [list[|list| - 1]] else []
  }

  lemma LiveOfNone(ns: Nodes)
    ensures LiveOf(ns, []) == []
  {}

  lemma {:induction false} LiveOfMembers(ns: Nodes, list: seq<nat>)
    ensures forall x :: x in LiveOf(ns, list) <==> x in list && Live(ns, x)
  {
    if list != [] {
      var init, last := list[..|list| - 1], list[|list| - 1];
      assert list == init + [last];
      LiveOfMembers(ns, init);
    }
  }

  lemma {:induction false} LiveOfDistinct(ns: Nodes, list: seq<nat>)
    requires NoRepeats(list)
    ensures NoRepeats(LiveOf(ns, list))
  {
    if list != [] {
      var init, last := list[..|list| - 1], list[|list| - 1];
      LiveOfDistinct(ns, init);
      LiveOfMembers(ns, init);
      var r := LiveOf(ns, init);
      assert last !in init;
      assert forall k :: 0 <= k < |r| ==> r[k] in r;
    }
  }

  /** Killing the top of the stack and pushing its live children keeps the walk going. */
  lemma WalkStep(ns: Nodes, kids: seq<seq<nat>>, r: nat, killed: set<nat>, stack: seq<nat>, c: nat)
    requires Forest(ns, kids) && Walk(ns, r, killed, stack + [c])
    requires Live(ns, c)
    ensures Walk(ns, r, killed + {c}, stack + LiveOf(ns, kids[c]))
  {
    hide ChildList, Placed, DescendsFrom, Reached;
    var pushed := LiveOf(ns, kids[c]);
    CloseOver(ns, kids, killed, stack, c, r);
    NewChildren(ns, kids, r, killed, stack, c);
    AppendDistinct(stack, c, pushed);
    forall x | x in stack ensures Reached(ns, r, killed + {c}, x) && x !in killed + {c} {
      assert x in stack + [c];
      MoreKilled(ns, r, killed, c, x);
    }
    forall x | x in killed + {c} ensures Reached(ns, r, killed + {c}, x) {
      assert x in killed || x in stack + [c];
      MoreKilled(ns, r, killed, c, x);
    }
  }

  lemma MoreKilled(ns: Nodes, r: nat, killed: set<nat>, c: nat, x: nat)
    requires Reached(ns, r, killed, x)
    ensures Reached(ns, r, killed + {c}, x)
  {}

  lemma CloseOver(ns: Nodes, kids: seq<seq<nat>>, killed: set<nat>, stack: seq<nat>, c: nat, r: nat)
    requires Forest(ns, kids) && Walk(ns, r, killed, stack + [c]) && Live(ns, c)
    ensures forall x :: Live(ns, x) && ns[x].depth > 0 && ns[x].parentIndex in killed + {c} ==>
      x in killed + {c} || x in stack + LiveOf(ns, kids[c])
  {
    LiveOfMembers(ns, kids[c]);
    forall x | Live(ns, x) && ns[x].depth > 0 && ns[x].parentIndex in killed + {c}
      ensures x in killed + {c} || x in stack + LiveOf(ns, kids[c])
    {
      if ns[x].parentIndex == c {
        assert Placed(ns, kids, x);
      } else {
        assert x in killed || x in stack + [c];
      }
    }
  }

  lemma NewChildren(ns: Nodes, kids: seq<seq<nat>>, r: nat, killed: set<nat>, stack: seq<nat>, c: nat)
    requires Forest(ns, kids) && Walk(ns, r, killed, stack + [c]) && Live(ns, c)
    ensures c !in stack && NoRepeats(LiveOf(ns, kids[c]))
    ensures forall x :: x in LiveOf(ns, kids[c]) ==>
      Reached(ns, r, killed + {c}, x) && x !in killed && x !in stack && x != c
  {
    assert ChildList(ns, c, kids[c]);
    LiveOfDistinct(ns, kids[c]);
    LiveOfMembers(ns, kids[c]);
    TopIsNew(stack, c);
    forall x | x in LiveOf(ns, kids[c])
      ensures Reached(ns, r, killed + {c}, x) && x !in killed && x !in stack && x != c
    {
      ChildIsNew(ns, kids[c], r, killed, stack, c, x);
    }
  }

  lemma TopIsNew(stack: seq<nat>, c: nat)
    requires NoRepeats(stack + [c])
    ensures c !in stack
  {
    assert (stack + [c])[|stack|] == c;
    assert forall k :: 0 <= k < |stack| ==> (stack + [c])[k] == stack[k];
  }

  lemma AppendDistinct(stack: seq<nat>, c: nat, pushed: seq<nat>)
    requires NoRepeats(stack + [c]) && NoRepeats(pushed) && forall x :: x in pushed ==> x !in stack
    ensures NoRepeats(stack + pushed)
  {
    var next := stack + pushed;
    assert forall k :: 0 <= k < |stack| ==> (stack + [c])[k] == stack[k];
    forall j, k | 0 <= j < k < |next| ensures next[j] != next[k] {
      if j < |stack| <= k {
        assert next[k] in pushed && next[j] in stack;
      }
    }
  }

  lemma ChildIsNew(ns: Nodes, list: seq<nat>, r: nat, killed: set<nat>, stack: seq<nat>, c: nat, x: nat)
    requires Walk(ns, r, killed, stack + [c]) && c !in stack
    requires Live(ns, c) && ChildList(ns, c, list) && x in list && Live(ns, x)
    ensures Reached(ns, r, killed + {c}, x) && x !in killed && x !in stack && x != c
  {
    assert c in stack + [c];
    DescendDepth(ns, c, r);
    assert forall y :: y in stack ==> y in stack + [c];
  }

  lemma DescendDepth(ns: Nodes, i: nat, r: nat)
    requires DescendsFrom(ns, i, r)
    ensures Live(ns, r) && ns[r].depth <= ns[i].depth && (ns[r].depth == ns[i].depth ==> i == r)
    decreases if i < |ns| then ns[i].depth else 0
  {
    if i != r { DescendDepth(ns, ns[i].parentIndex, r); }
  }

  lemma {:induction false} LiveOfPrefix(ns: Nodes, list: seq<nat>, k: nat)
    requires k <= |list|
    ensures |LiveOf(ns, list[..k])| <= |LiveOf(ns, list)|
    decreases |list| - k
  {
    if k < |list| {
      LiveOfStep(ns, list, k);
      LiveOfPrefix(ns, list, k + 1);
    } else {
      assert list[..k] == list;
    }
  }

  lemma LiveOfStep(ns: Nodes, list: seq<nat>, k: nat)
    requires k < |list|
    ensures LiveOf(ns, list[..k + 1]) == LiveOf(ns, list[..k]) + if Live(ns, list[k]) then [list[k]] else []
  {
    assert list[..k + 1][..k] == list[..k];
  }

  /** Only validity on the list matters to its live elements. */
  lemma {:induction false} LiveOfSame(ns: Nodes, ns': Nodes, list: seq<nat>)
    requires forall x :: x in list ==> (Live(ns, x) <==> Live(ns', x))
    ensures LiveOf(ns, list) == LiveOf(ns', list)
  {
    if list != [] {
      LiveOfSame(ns, ns', list[..|list| - 1]);
    }
  }

  ghost function LiveUpTo(ns: Nodes, k: nat): nat
    requires k <= |ns|
  {
    if k == 0 then 0 else LiveUpTo(ns, k - 1) + if ns[k - 1].isValid then 1 else 0
  }

  lemma {:induction false} LiveChange(ns: Nodes, ns': Nodes, i: nat, k: nat)
    requires |ns'| == |ns| && i < |ns| && k <= |ns|
    requires forall x :: 0 <= x < |ns| && x != i ==> ns'[x].isValid == ns[x].isValid
    ensures LiveUpTo(ns', k) + (if i < k && ns[i].isValid then 1 else 0) ==
            LiveUpTo(ns, k) + (if i < k && ns'[i].isValid then 1 else 0)
  {
    if k > 0 { LiveChange(ns, ns', i, k - 1); }
  }

  lemma {:induction false} NoneLive(ns: Nodes, k: nat)
    requires k <= |ns| && forall i :: 0 <= i < |ns| ==> !ns[i].isValid
    ensures LiveUpTo(ns, k) == 0
  {
    if k > 0 { NoneLive(ns, k - 1); }
  }

  /** A killed set that spares the live nodes of a child list leaves the list as it was. */
  lemma ChildrenUnharmed(ns: Nodes, now: Nodes, killed: set<nat>, c: nat, list: seq<nat>)
    requires Live(ns, c) && ChildList(ns, c, list) && Killed(ns, now, killed)
    requires forall x :: x in LiveOf(ns, list) ==> x !in killed
    ensures LiveOf(now, list) == LiveOf(ns, list)
    ensures Chain(now, now[c].firstChild, list)
  {
    LiveOfMembers(ns, list);
    LiveOfSame(ns, now, list);
    ChainKept(ns, now, ns[c].firstChild, list);
  }

  class DerivationTree {
    const nodes: array<DerivationNode>
    var count: nat
    /** Child lists of the live nodes, newest child first. */
    ghost var kids: seq<seq<nat>>

    ghost predicate Valid()
      reads this, nodes
    {
      Forest(nodes[..], kids) && count == LiveUpTo(nodes[..], nodes.Length)
    }

    constructor (capacity: nat)
      requires capacity < U32_MAX
      ensures fresh(nodes) && Valid() && nodes.Length == capacity && count == 0
      ensures forall i :: 0 <= i < capacity ==> !nodes[i].isValid
      ensures forall i :: 0 <= i < capacity ==> kids[i] == []
    {
      nodes := new DerivationNode[capacity](_ => EMPTY_NODE);
      count := 0;
      kids := seq(capacity, _ => []);
      new;
      NoneLive(nodes[..], capacity);
    }

    /** Registers a root. The forest survives exactly when no live child list passes the slot. */
    method AddRoot(index: nat, epoch: nat) returns (r: Result<(), CapError>)
      requires Valid()
      modifies this, nodes
      ensures r.Err? <==> index >= nodes.Length
      ensures r.Err? ==> r == Err(TreeFull) && nodes[..] == old(nodes[..]) && Valid() && kids == old(kids)
      ensures r.Ok? ==> nodes[..] == RootAdded(old(nodes[..]), index, epoch) && kids == old(kids)[index := []]
      ensures r.Ok? && !old(Live(nodes[..], index)) ==>
        (Valid() <==> old(Unlinked(nodes[..], kids, index)))
        && ((exists kids' :: Forest(nodes[..], kids')) <==> old(Unlinked(nodes[..], kids, index)))
    {
      if index >= nodes.Length {
        return Err(TreeFull);
      }
      nodes[index] := NewRoot(epoch);
      count := count + 1;
      kids := kids[index := []];
      assert nodes[..] == RootAdded(old(nodes[..]), index, epoch);
      LiveChange(old(nodes[..]), nodes[..], index, nodes.Length);
      if !old(Live(nodes[..], index)) {
        AddRootIff(old(nodes[..]), old(kids), index, epoch);
        if old(Unlinked(nodes[..], kids, index)) {
          AddRootForest(old(nodes[..]), old(kids), index, epoch);
        }
      }
      return Ok(());
    }

    /** Registers a child at the head of its parent's list. */
    method AddChild(parent: nat, child: nat, depth: nat, epoch: nat) returns (r: Result<(), CapError>)
      requires Valid()
      modifies this, nodes
      ensures r == Err(TreeFull) <==> parent >= nodes.Length || child >= nodes.Length
      ensures r == Err(Revoked) <==> parent < nodes.Length && child < nodes.Length && !old(Live(nodes[..], parent))
      ensures r.Err? ==> r.error in {TreeFull, Revoked} && nodes[..] == old(nodes[..]) && kids == old(kids) && Valid()
      ensures r.Ok? ==>
        && nodes[..] == ChildAdded(old(nodes[..]), parent, child, depth, epoch)
        && kids == old(kids)[child := []][parent := [child] + old(kids)[parent]]
        && (!old(Live(nodes[..], child)) && depth == old(nodes[parent]).depth + 1 ==>
              && (Valid() <==> old(Unlinked(nodes[..], kids, child)))
              && ((exists kids' :: Forest(nodes[..], kids')) <==> old(Unlinked(nodes[..], kids, child))))
    {
      if parent >= nodes.Length || child >= nodes.Length {
        return Err(TreeFull);
      }
      if !nodes[parent].isValid {
        return Err(Revoked);
      }
      ghost var ns := nodes[..];
      assert Live(ns, parent) && |kids| == |ns|;
      var node := DerivationNode(true, depth, epoch, U32_MAX, U32_MAX, U32_MAX);
      node := node.(nextSibling := nodes[parent].firstChild);
      node := node.(parentIndex := parent);
      nodes[parent] := nodes[parent].(firstChild := child);
      nodes[child] := node;
      count := count + 1;
      kids := kids[child := []][parent := [child] + kids[parent]];
      assert nodes[..] == ChildAdded(ns, parent, child, depth, epoch);
      if !Live(ns, child) {
        LiveChange(ns, nodes[..], child, nodes.Length);
        hide Forest, Unlinked, ChildAdded;
        if depth == ns[parent].depth + 1 {
          AddChildOutcome(ns, old(kids), parent, child, epoch, nodes[..], kids);
        }
      }
      return Ok(());
    }

    /** The child loop of both walks (lines 256-266, 348-359): no child is dropped. */
    method PushChildren(stack: array<nat>, top: nat, c: nat, ghost list: seq<nat>) returns (top': nat)
      requires stack.Length == nodes.Length < U32_MAX && c < nodes.Length
      requires Chain(nodes[..], nodes[c].firstChild, list)
      requires top + |LiveOf(nodes[..], list)| <= stack.Length
      modifies stack
      ensures top' == top + |LiveOf(nodes[..], list)|
      ensures stack[..top'] == old(stack[..top]) + LiveOf(nodes[..], list)
    {
      hide LiveOf;
      LiveOfNone(nodes[..]);
      assert list[..0] == [];
      top' := top;
      var child := nodes[c].firstChild;
      ghost var k := 0;
      while child != U32_MAX
        invariant 0 <= k <= |list| && child == Next(list, k - 1)
        invariant top' == top + |LiveOf(nodes[..], list[..k])| <= stack.Length
        invariant stack[..top'] == old(stack[..top]) + LiveOf(nodes[..], list[..k])
        decreases |list| - k
      {
        assert LinkAt(nodes[..], list, k);
        if child >= nodes.Length {
          break;
        }
        LiveOfStep(nodes[..], list, k);
        LiveOfPrefix(nodes[..], list, k + 1);
        if nodes[child].isValid && top' < stack.Length {
          stack[top'] := child;
          top' := top' + 1;
        }
        child := nodes[child].nextSibling;
        k := k + 1;
      }
      EndOfChain(nodes[..], nodes[c].firstChild, list, k);
      assert list[..|list|] == list;
    }

    /** The live nodes of the subtree at `index`, each once. */
    method CollectSubtree(index: nat) returns (collected: seq<nat>)
      requires Valid()
      ensures NoRepeats(collected)
      ensures forall x :: x in collected <==> x in Doomed(nodes[..], index)
    {
      hide Forest, DescendsFrom, Walk, NoRepeats;
      EmptyDistinct();
      var stack := new nat[nodes.Length](_ => U32_MAX);
      var top: nat := 0;
      collected := [];
      if index >= nodes.Length || !nodes[index].isValid {
        NothingDoomed(nodes[..], index);
        return;
      }
      stack[0] := index;
      top := 1;
      ghost var killed: set<nat> := {};
      ghost var ns := nodes[..];
      StartWalk(ns, index);
      assert stack[..1] == [index];
      while top > 0
        invariant top <= stack.Length && Walk(ns, index, killed, stack[..top])
        invariant NoRepeats(collected) && forall x :: x in collected <==> x in killed
        invariant nodes[..] == ns && killed <= Doomed(ns, index)
        decreases Doomed(ns, index) - killed
      {
        top := top - 1;
        var current := stack[top];
        ghost var rest := stack[..top];
        assert stack[..top + 1] == rest + [current];
        TopIsDoomed(ns, index, killed, rest, current);
        ForestChain(ns, kids, current);
        WalkStep(ns, kids, index, killed, rest, current);
        WalkFits(ns, index, killed + {current}, rest + LiveOf(ns, kids[current]));
        CollectedFits(ns, index, killed, collected, current);
        if current >= nodes.Length || !nodes[current].isValid {
          assert false;
        }
        AppendNew(collected, current);
        if |collected| < nodes.Length {
          collected := collected + [current];
        }
        top := PushChildren(stack, top, current, kids[current]);
        killed := killed + {current};
      }
      assert stack[..top] == [];
      WalkComplete(ns, index, killed);
    }

    /** Marks the subtree at `index` invalid and counts it. The links are left alone. */
    method Revoke(index: nat) returns (r: Result<nat, CapError>)
      requires Valid()
      modifies this, nodes
      ensures Valid() && kids == old(kids)
      ensures r == Err(InvalidHandle) <==> index >= nodes.Length
      ensures r == Err(Revoked) <==> index < nodes.Length && !old(Live(nodes[..], index))
      ensures r.Err? ==> r.error in {InvalidHandle, Revoked} && nodes[..] == old(nodes[..])
      ensures r.Ok? ==>
        && Killed(old(nodes[..]), nodes[..], Doomed(old(nodes[..]), index))
        && r.value == |Doomed(old(nodes[..]), index)| && count == old(count) - r.value
    {
      if index >= nodes.Length {
        return Err(InvalidHandle);
      }
      if !nodes[index].isValid {
        return Err(Revoked);
      }
      var n := RevokeSubtree(index);
      return Ok(n);
    }

    /** Marks one node invalid (lines 345-348). */
    method Kill(index: nat)
      requires Live(nodes[..], index) && count == LiveUpTo(nodes[..], nodes.Length)
      modifies this`count, nodes
      ensures nodes[..] == old(nodes[..])[index := old(nodes[index]).(isValid := false)]
      ensures count == LiveUpTo(nodes[..], nodes.Length) == old(count) - 1
    {
      nodes[index] := nodes[index].(isValid := false);
      LiveChange(old(nodes[..]), nodes[..], index, nodes.Length);
      count := DropOne(count);
    }

    method RevokeSubtree(index: nat) returns (revoked: nat)
      requires Valid() && Live(nodes[..], index)
      modifies this, nodes
      ensures Valid() && kids == old(kids)
      ensures Killed(old(nodes[..]), nodes[..], Doomed(old(nodes[..]), index))
      ensures revoked == |Doomed(old(nodes[..]), index)| && count == old(count) - revoked
    {
      hide Forest, DescendsFrom, Walk, NoRepeats, LiveOf, Chain, ChildList, Reached, Doomed, LiveUpTo;
      var stack := new nat[nodes.Length](_ => U32_MAX);
      var top: nat := 1;
      revoked := 0;
      stack[0] := index;
      ghost var killed: set<nat> := {};
      ghost var ns := nodes[..];
      StartWalk(ns, index);
      assert stack[..1] == [index];
      while top > 0
        invariant top <= stack.Length && Walk(ns, index, killed, stack[..top])
        invariant Killed(ns, nodes[..], killed) && killed <= Doomed(ns, index)
        invariant revoked == |killed| && kids == old(kids)
        invariant count == LiveUpTo(nodes[..], nodes.Length) == old(count) - revoked
        decreases Doomed(ns, index) - killed
      {
        top := top - 1;
        var current := stack[top];
        ghost var rest := stack[..top];
        assert stack[..top + 1] == rest + [current];
        TopIsDoomed(ns, index, killed, rest, current);
        ForestChain(ns, kids, current);
        WalkStep(ns, kids, index, killed, rest, current);
        WalkFits(ns, index, killed + {current}, rest + LiveOf(ns, kids[current]));
        if current >= nodes.Length || !nodes[current].isValid {
          assert false;
        }
        Kill(current);
        revoked := revoked + 1;
        assert Killed(ns, nodes[..], killed + {current});
        NewChildren(ns, kids, index, killed, rest, current);
        ChildrenUnharmed(ns, nodes[..], killed + {current}, current, kids[current]);
        top := PushChildren(stack, top, current, kids[current]);
        killed := killed + {current};
      }
      assert stack[..top] == [];
      WalkComplete(ns, index, killed);
      DoomedClosed(ns, kids, index);
      KillForest(ns, nodes[..], kids, killed);
    }

    /** The live parent of a live node below the top. Under the forest invariant the
        cached index always answers and the scan of lines 297-313 is never reached. */
    method FindParent(child: nat) returns (r: Option<nat>)
      requires Valid()
      ensures r == if Live(nodes[..], child) && nodes[child].depth > 0 then Some(nodes[child].parentIndex) else None
      ensures r.Some? ==> Live(nodes[..], r.value) && nodes[r.value].depth + 1 == nodes[child].depth
    {
      if child >= nodes.Length || !nodes[child].isValid {
        return None;
      }
      if nodes[child].depth == 0 {
        return None;
      }
      ParentLive(nodes[..], kids, child);
      var p := nodes[child].parentIndex;
      if p != U32_MAX {
        if p < nodes.Length && nodes[p].isValid {
          return Some(p);
        }
      }
      assert false;
      return None;
    }
  }

  lemma StartWalk(ns: Nodes, r: nat)
    requires Live(ns, r)
    ensures Walk(ns, r, {}, [r])
  {}

  lemma NothingDoomed(ns: Nodes, r: nat)
    requires !Live(ns, r)
    ensures Doomed(ns, r) == {}
  {
    forall i | i in Doomed(ns, r) ensures false { DescendDepth(ns, i, r); }
  }

  lemma TopIsDoomed(ns: Nodes, r: nat, killed: set<nat>, rest: seq<nat>, c: nat)
    requires Walk(ns, r, killed, rest + [c])
    ensures Live(ns, c) && c in Doomed(ns, r) && c !in killed
  {
    assert c in rest + [c];
  }

  lemma ForestChain(ns: Nodes, kids: seq<seq<nat>>, c: nat)
    requires Forest(ns, kids) && Live(ns, c)
    ensures |kids| == |ns| < U32_MAX && Chain(ns, ns[c].firstChild, kids[c]) && ChildList(ns, c, kids[c])
  {
    assert ChildList(ns, c, kids[c]);
  }

  lemma ParentLive(ns: Nodes, kids: seq<seq<nat>>, c: nat)
    requires Forest(ns, kids) && Live(ns, c) && ns[c].depth > 0
    ensures Live(ns, ns[c].parentIndex) && ns[ns[c].parentIndex].depth + 1 == ns[c].depth
    ensures c in kids[ns[c].parentIndex]
  {
    assert Placed(ns, kids, c);
    assert ChildList(ns, ns[c].parentIndex, kids[ns[c].parentIndex]);
  }

  lemma EmptyDistinct()
    ensures NoRepeats<nat>([])
  {}

  lemma AppendNew(s: seq<nat>, c: nat)
    requires NoRepeats(s) && c !in s
    ensures NoRepeats(s + [c])
  {}

  lemma CollectedFits(ns: Nodes, r: nat, killed: set<nat>, collected: seq<nat>, c: nat)
    requires NoRepeats(collected) && (forall x :: x in collected <==> x in killed)
    requires c !in killed && Live(ns, c) && killed <= Doomed(ns, r)
    ensures |collected| < |ns|
  {
    var all := collected + [c];
    assert forall k :: 0 <= k < |collected| ==> collected[k] in collected;
    forall k | 0 <= k < |all| ensures all[k] in Below(|ns|) {}
    BelowSize(|ns|);
    DistinctSize(all, Below(|ns|));
  }

  /** A child of a descendant is a descendant. */
  lemma DoomedClosed(ns: Nodes, kids: seq<seq<nat>>, r: nat)
    requires Forest(ns, kids)
    ensures forall c :: Live(ns, c) && ns[c].depth > 0 && ns[c].parentIndex in Doomed(ns, r) ==> c in Doomed(ns, r)
  {
    forall c | Live(ns, c) && ns[c].depth > 0 && ns[c].parentIndex in Doomed(ns, r) ensures c in Doomed(ns, r) {
      ParentLive(ns, kids, c);
    }
  }
}

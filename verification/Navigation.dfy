/** DomUtil: walks along parent and sibling links, and the comparison of boundary points. */
module Navigation {
  import opened Wrappers
  import opened Tree
  import opened Positions

  /** A node the program can hold a reference to: one of the trees of the world, or a node in one. */
  predicate IsNode(w: Node, id: Id) {
    Find(w, id).Some? && Find(w, id).value != []
  }

  function Where(w: Node, id: Id): (p: Path)
    requires IsNode(w, id)
    ensures p != [] && HasPath(w, p) && At(w, p).id == id
  {
    Find(w, id).value
  }

  function Get(w: Node, id: Id): (n: Node)
    requires IsNode(w, id)
    ensures n.id == id
  {
    At(w, Where(w, id))
  }

  function Front(p: Path): Path
    requires p != []
  {
    p[..|p| - 1]
  }

  function Last(p: Path): nat
    requires p != []
  {
    p[|p| - 1]
  }

  lemma WhereAt(w: Node, p: Path)
    requires Distinct(w) && HasPath(w, p) && p != []
    ensures IsNode(w, At(w, p).id) && Where(w, At(w, p).id) == p
  {
    FindAt(w, p);
  }

  // ----- the links the browser offers -----

  function ParentNode(w: Node, id: Id): Option<Id>
    requires IsNode(w, id)
  {
    var p := Where(w, id);
    if |p| == 1 then None
    else
      AtPrefix(w, p, |p| - 1);
      Some(At(w, Front(p)).id)
  }

  function ChildNodes(w: Node, id: Id): seq<Node>
    requires IsNode(w, id)
  {
    if Get(w, id).Elem? then Get(w, id).kids else []
  }

  function FirstChild(w: Node, id: Id): Option<Id>
    requires IsNode(w, id)
  {
    if ChildNodes(w, id) == [] then None else Some(ChildNodes(w, id)[0].id)
  }

  /** The siblings of a node, itself included; a node without a parent is alone. */
  function Siblings(w: Node, id: Id): (ks: seq<Node>)
    requires IsNode(w, id)
    ensures |ks| > Index(w, id)
  {
    var p := Where(w, id);
    AtPrefix(w, p, |p| - 1);
    if |p| == 1 then [Get(w, id)] else At(w, Front(p)).kids
  }

  function Index(w: Node, id: Id): nat
    requires IsNode(w, id)
  {
    var p := Where(w, id);
    if |p| == 1 then 0 else Last(p)
  }

  function NextSibling(w: Node, id: Id): Option<Id>
    requires IsNode(w, id)
  {
    var i := Index(w, id) + 1;
    if i < |Siblings(w, id)| then Some(Siblings(w, id)[i].id) else None
  }

  function PreviousSibling(w: Node, id: Id): Option<Id>
    requires IsNode(w, id)
  {
    var i := Index(w, id);
    if i > 0 then Some(Siblings(w, id)[i - 1].id) else None
  }

  function RootContainer(w: Node, id: Id): Id
    requires IsNode(w, id)
  {
    AtPrefix(w, Where(w, id), 1);
    At(w, Where(w, id)[..1]).id
  }

  lemma ParentAt(w: Node, p: Path)
    requires Distinct(w) && HasPath(w, p) && p != []
    ensures IsNode(w, At(w, p).id)
    ensures |p| > 1 ==> HasPath(w, Front(p)) && ParentNode(w, At(w, p).id) == Some(At(w, Front(p)).id)
    ensures |p| == 1 ==> ParentNode(w, At(w, p).id) == None
  {
    WhereAt(w, p);
    AtPrefix(w, p, |p| - 1);
  }

  lemma KidAt(w: Node, p: Path, i: nat)
    requires Distinct(w) && HasPath(w, p) && p != [] && At(w, p).Elem? && i < |At(w, p).kids|
    ensures HasPath(w, p + [i]) && At(w, p + [i]) == At(w, p).kids[i]
    ensures var id := At(w, p).kids[i].id;
      && IsNode(w, id) && Where(w, id) == p + [i]
      && ParentNode(w, id) == Some(At(w, p).id) && Index(w, id) == i && Siblings(w, id) == At(w, p).kids
  {
    AtAppend(w, p, [i]);
    WhereAt(w, p + [i]);
    assert Front(p + [i]) == p;
  }

  // ----- walks -----

  method GetNodeIndex(w: Node, node: Id) returns (i: nat)
    requires Distinct(w) && IsNode(w, node)
    ensures i == Index(w, node)
  {
    i := 0;
    var n := PreviousSibling(w, node);
    ghost var p := Where(w, node);
    ghost var k: nat := Index(w, node);
    if |p| > 1 {
      AtPrefix(w, p, |p| - 1);
      assert p == Front(p) + [k];
    }
    while n.Some?
      invariant i + k == Index(w, node)
      invariant |p| == 1 ==> k == 0
      invariant n == if k == 0 then None else Some(Siblings(w, node)[k - 1].id)
      decreases k
    {
      KidAt(w, Front(p), k - 1);
      n := PreviousSibling(w, n.value);
      i, k := i + 1, k - 1;
    }
  }

  function CommonPrefix(p: Path, q: Path): (c: Path)
    ensures c <= p && c <= q
    ensures |c| < |p| && |c| < |q| ==> p[|c|] != q[|c|]
  {
    if p == [] || q == [] || p[0] != q[0] then []
    else [p[0]] + CommonPrefix(p[1..], q[1..])
  }

  /** The deepest node above or equal to both, if they are in one tree. */
  function CommonAncestor(w: Node, a: Id, b: Id): Option<Id>
    requires IsNode(w, a) && IsNode(w, b)
  {
    var c := CommonPrefix(Where(w, a), Where(w, b));
    if c == [] then None
    else
      AtPrefix(w, Where(w, a), |c|);
      assert c == Where(w, a)[..|c|];
      Some(At(w, c).id)
  }

  lemma PrefixCommon(c: Path, p: Path, q: Path)
    requires c <= p && c <= q
    ensures c <= CommonPrefix(p, q)
  {
  }

  method GetCommonAncestor(w: Node, node1: Id, node2: Id) returns (r: Option<Id>)
    requires Distinct(w) && IsNode(w, node1) && IsNode(w, node2)
    ensures r == CommonAncestor(w, node1, node2)
  {
    ghost var p1, p2 := Where(w, node1), Where(w, node2);
    ghost var c := CommonPrefix(p1, p2);
    var ancestors: seq<Id> := [];
    var n := Some(node1);
    ghost var k: nat := |p1|;
    assert p1[..k] == p1;
    while n.Some?
      invariant k <= |p1| && HasPath(w, p1[..k])
      invariant n == if k == 0 then None else Some(At(w, p1[..k]).id)
      invariant forall id ::
          id in ancestors <==> exists j :: k < j <= |p1| && HasPath(w, p1[..j]) && At(w, p1[..j]).id == id
      decreases k
    {
      ancestors := ancestors + [n.value];
      ParentAt(w, p1[..k]);
      assert Front(p1[..k]) == p1[..k - 1];
      AtPrefix(w, p1, k - 1);
      n, k := ParentNode(w, n.value), k - 1;
    }
    n, k := Some(node2), |p2|;
    assert p2[..k] == p2;
    while n.Some?
      invariant |c| <= k <= |p2| && HasPath(w, p2[..k])
      invariant n == if k == 0 then None else Some(At(w, p2[..k]).id)
      decreases k
    {
      AncestorListed(w, p1, p2, k);
      if n.value in ancestors {
        return n;
      }
      ParentAt(w, p2[..k]);
      assert Front(p2[..k]) == p2[..k - 1];
      n, k := ParentNode(w, n.value), k - 1;
    }
    return None;
  }

  /** An ancestor of one node is an ancestor of another just when it is on their common path. */
  lemma AncestorListed(w: Node, p: Path, q: Path, k: nat)
    requires Distinct(w) && HasPath(w, p) && HasPath(w, q) && 0 < k <= |q| && HasPath(w, q[..k])
    requires |CommonPrefix(p, q)| <= k
    ensures (exists j :: 0 < j <= |p| && HasPath(w, p[..j]) && At(w, p[..j]).id == At(w, q[..k]).id)
      <==> k == |CommonPrefix(p, q)|
    ensures k == |CommonPrefix(p, q)| ==> q[..k] == CommonPrefix(p, q)
  {
    var c := CommonPrefix(p, q);
    forall j | 0 < j <= |p| && HasPath(w, p[..j]) && At(w, p[..j]).id == At(w, q[..k]).id
      ensures k == |c|
    {
      PathUnique(w, p[..j], q[..k]);
      PrefixCommon(q[..k], p, q);
    }
    if k == |c| {
      assert p[..k] == c == q[..k];
    }
  }

  /** The path at which a walk up from a node starts. */
  function StartPath(p: Path, selfIsAncestor: bool): Path
    requires p != []
  {
    if selfIsAncestor then p else Front(p)
  }

  method IsAncestorOf(w: Node, ancestor: Id, descendant: Id, selfIsAncestor: bool) returns (r: bool)
    requires Distinct(w) && IsNode(w, ancestor) && IsNode(w, descendant)
    ensures r <==> Where(w, ancestor) <= StartPath(Where(w, descendant), selfIsAncestor)
  {
    ghost var a, p := Where(w, ancestor), StartPath(Where(w, descendant), selfIsAncestor);
    ParentAt(w, Where(w, descendant));
    AtPrefix(w, Where(w, descendant), |p|);
    assert p == Where(w, descendant)[..|p|];
    var n := if selfIsAncestor then Some(descendant) else ParentNode(w, descendant);
    ghost var k: nat := |p|;
    assert p[..k] == p;
    while n.Some?
      invariant k <= |p| && HasPath(w, p[..k])
      invariant n == if k == 0 then None else Some(At(w, p[..k]).id)
      invariant a <= p ==> |a| <= k
      decreases k
    {
      if n.value == ancestor {
        PathUnique(w, a, p[..k]);
        return true;
      }
      ParentAt(w, p[..k]);
      assert Front(p[..k]) == p[..k - 1];
      assert a <= p && |a| == k ==> a == p[..k];
      n, k := ParentNode(w, n.value), k - 1;
    }
    return false;
  }

  /** The child of one node on the way to another. */
  function ChildTowards(w: Node, a: Path, p: Path): Option<Id>
    requires HasPath(w, p)
  {
    if a < p then
      AtPrefix(w, p, |a| + 1);
      Some(At(w, p[..|a| + 1]).id)
    else None
  }

  method GetClosestAncestorIn(w: Node, node: Id, ancestor: Id, selfIsAncestor: bool) returns (r: Option<Id>)
    requires Distinct(w) && IsNode(w, node) && IsNode(w, ancestor)
    ensures HasPath(w, StartPath(Where(w, node), selfIsAncestor))
    ensures r == ChildTowards(w, Where(w, ancestor), StartPath(Where(w, node), selfIsAncestor))
  {
    ghost var a, p := Where(w, ancestor), StartPath(Where(w, node), selfIsAncestor);
    ParentAt(w, Where(w, node));
    AtPrefix(w, Where(w, node), |p|);
    assert p == Where(w, node)[..|p|];
    var n := if selfIsAncestor then Some(node) else ParentNode(w, node);
    ghost var k: nat := |p|;
    assert p[..k] == p;
    while n.Some?
      invariant k <= |p| && HasPath(w, p[..k])
      invariant n == if k == 0 then None else Some(At(w, p[..k]).id)
      invariant a < p ==> |a| < k
      decreases k
    {
      ParentAt(w, p[..k]);
      assert Front(p[..k]) == p[..k - 1];
      assert a < p && |a| == k - 1 ==> a == p[..k - 1];
      var m := ParentNode(w, n.value);
      if m == Some(ancestor) {
        PathUnique(w, a, p[..k - 1]);
        return n;
      }
      n, k := m, k - 1;
    }
    return None;
  }

  method GetRootContainer(w: Node, node: Id) returns (r: Id)
    requires Distinct(w) && IsNode(w, node)
    ensures r == RootContainer(w, node)
  {
    r := node;
    ghost var p := Where(w, node);
    ghost var k: nat := |p|;
    assert p[..k] == p;
    ParentAt(w, p);
    var parent := ParentNode(w, r);
    while parent.Some?
      invariant 1 <= k <= |p| && HasPath(w, p[..k]) && r == At(w, p[..k]).id && IsNode(w, r)
      invariant parent == ParentNode(w, r)
      invariant parent.None? ==> k == 1
      decreases k
    {
      ParentAt(w, p[..k]);
      assert Front(p[..k]) == p[..k - 1];
      r, k := parent.value, k - 1;
      ParentAt(w, p[..k]);
      parent := ParentNode(w, r);
    }
  }

  // ----- comparePoints -----

  predicate SameTree(w: Node, a: Id, b: Id)
    requires IsNode(w, a) && IsNode(w, b)
  {
    Where(w, a)[0] == Where(w, b)[0]
  }

  /** The order of two points given by node and offset. */
  function Order(w: Node, a: Id, offsetA: nat, b: Id, offsetB: nat): int
    requires IsNode(w, a) && IsNode(w, b)
  {
    Cmp(Code(Where(w, a), offsetA), Code(Where(w, b), offsetB))
  }

  lemma RootsAgree(w: Node, a: Id, b: Id)
    requires Distinct(w) && IsNode(w, a) && IsNode(w, b)
    ensures SameTree(w, a, b) <==> RootContainer(w, a) == RootContainer(w, b)
  {
    var p, q := Where(w, a), Where(w, b);
    AtPrefix(w, p, 1);
    AtPrefix(w, q, 1);
    if RootContainer(w, a) == RootContainer(w, b) {
      PathUnique(w, p[..1], q[..1]);
      assert p[..1][0] == q[..1][0];
    }
    assert p[..1] == [p[0]] && q[..1] == [q[0]];
  }

  /** Follows the four cases of the specification. */
  method ComparePoints(w: Node, nodeA: Id, offsetA: nat, nodeB: Id, offsetB: nat) returns (r: int)
    requires Distinct(w) && IsNode(w, nodeA) && IsNode(w, nodeB) && SameTree(w, nodeA, nodeB)
    ensures r == Order(w, nodeA, offsetA, nodeB, offsetB)
  {
    ghost var p, q := Where(w, nodeA), Where(w, nodeB);
    if nodeA == nodeB {
      SplitCodes(p, p, offsetA, p, offsetB);
      return if offsetA == offsetB then 0 else if offsetA < offsetB then -1 else 1;
    }
    var nodeC := GetClosestAncestorIn(w, nodeB, nodeA, true);
    if nodeC.Some? {
      SplitCodes(p, p, offsetA, q, offsetB);
      ChildIndex(w, p, q);
      var i := GetNodeIndex(w, nodeC.value);
      return if offsetA <= i then -1 else 1;
    }
    nodeC := GetClosestAncestorIn(w, nodeA, nodeB, true);
    if nodeC.Some? {
      SplitCodes(q, p, offsetA, q, offsetB);
      ChildIndex(w, q, p);
      var i := GetNodeIndex(w, nodeC.value);
      return if i < offsetB then -1 else 1;
    }
    r := CompareSiblings(w, nodeA, offsetA, nodeB, offsetB);
  }

  /** Comparing codes beyond a common prefix. */
  lemma SplitCodes(c: Path, p: Path, a: nat, q: Path, b: nat)
    requires c <= p && c <= q
    ensures Cmp(Code(p, a), Code(q, b)) == Cmp(Code(p[|c|..], a), Code(q[|c|..], b))
  {
    CmpShift(c, p[|c|..], a, q[|c|..], b);
    assert p == c + p[|c|..] && q == c + q[|c|..];
  }

  /** The fourth case: neither container is above the other.  Both error branches are dead. */
  method CompareSiblings(w: Node, nodeA: Id, ghost offsetA: nat, nodeB: Id, ghost offsetB: nat) returns (r: int)
    requires Distinct(w) && IsNode(w, nodeA) && IsNode(w, nodeB) && SameTree(w, nodeA, nodeB)
    requires nodeA != nodeB && !(Where(w, nodeA) < Where(w, nodeB)) && !(Where(w, nodeB) < Where(w, nodeA))
    ensures r == Order(w, nodeA, offsetA, nodeB, offsetB)
  {
    ghost var p, q := Where(w, nodeA), Where(w, nodeB);
    ghost var c := CommonPrefix(p, q);
    PrefixCommon([p[0]], p, q);
    SplitCodes(c, p, offsetA, q, offsetB);
    assert c != p && c != q by {
      assert p != q;
      assert p <= q ==> p < q;
      assert q <= p ==> q < p;
    }
    var ancestor := GetCommonAncestor(w, nodeA, nodeB);
    var root := ancestor.value;
    ChildIndex(w, c, p);
    ChildIndex(w, c, q);
    WhereAt(w, c);
    var childA := Some(root);
    if nodeA != root {
      childA := GetClosestAncestorIn(w, nodeA, root, true);
    }
    var childB := Some(root);
    if nodeB != root {
      childB := GetClosestAncestorIn(w, nodeB, root, true);
    }
    assert Cmp(Code(p[|c|..], offsetA), Code(q[|c|..], offsetB)) == if p[|c|] < q[|c|] then -1 else 1;
    if childA == childB {
      assert false;
    }
    r := FirstOf(w, root, c, p[|c|], q[|c|], childA, childB);
  }

  /** Which of two children comes first. */
  method FirstOf(w: Node, root: Id, ghost c: Path, ghost i: nat, ghost j: nat, childA: Option<Id>, childB: Option<Id>)
    returns (r: int)
    requires Distinct(w) && IsNode(w, root) && Where(w, root) == c
    requires At(w, c).Elem? && i < |At(w, c).kids| && j < |At(w, c).kids| && i != j
    requires childA == Some(At(w, c).kids[i].id) && childB == Some(At(w, c).kids[j].id)
    ensures r == if i < j then -1 else 1
  {
    r := 0;
    KidAt(w, c, i);
    KidAt(w, c, j);
    var n := FirstChild(w, root);
    ghost var k: nat := 0;
    while n.Some?
      invariant k <= i && k <= j
      invariant n == Some(At(w, c).kids[k].id)
      decreases i - k
    {
      KidAt(w, c, k);
      if n == childA {
        return -1;
      } else if n == childB {
        return 1;
      }
      n, k := NextSibling(w, n.value), k + 1;
    }
    assert false;
  }

  /** The child towards a descendant is found at the index the descendant's path names. */
  lemma ChildIndex(w: Node, a: Path, p: Path)
    requires Distinct(w) && HasPath(w, p) && a < p && a != []
    ensures HasPath(w, a) && At(w, a).Elem? && p[|a|] < |At(w, a).kids|
    ensures ChildTowards(w, a, p) == Some(At(w, a).kids[p[|a|]].id)
    ensures var id := At(w, a).kids[p[|a|]].id; IsNode(w, id) && Index(w, id) == p[|a|] && Where(w, id) == a + [p[|a|]]
  {
    AtPrefix(w, p, |a|);
    AtPrefix(w, p, |a| + 1);
    assert p[..|a|] == a && p[..|a| + 1] == a + [p[|a|]];
    AtAppend(w, a, [p[|a|]]);
    KidAt(w, a, p[|a|]);
  }
}

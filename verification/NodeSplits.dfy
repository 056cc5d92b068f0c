/** splitNodeAt: an element is cut in two at a point anywhere below it, level by level from the bottom up. */
module NodeSplits {
  import opened Tree
  import opened Positions
  import opened Navigation
  import opened Slices
  import opened Documents
  import opened Splitting
  import opened Formatting

  /** The point at which the cut is really made: an end of a text node counts as a point beside it. */
  function Adjusted(n: Node, p: Path, off: nat): (Path, nat)
    requires ValidPoint(n, p, off)
  {
    if At(n, p).Text? && p != [] && off == 0 then (Front(p), Last(p))
    else if At(n, p).Text? && p != [] && off == Len(At(n, p)) then (Front(p), Last(p) + 1)
    else (p, off)
  }

  lemma {:induction false} AdjustedPoint(n: Node, p: Path, off: nat)
    requires ValidPoint(n, p, off)
    ensures var (q, o) := Adjusted(n, p, off);
      ValidPoint(n, q, o) && TextOff(n, q, o) == TextOff(n, p, off) && q <= p
  {
    if |p| == 1 && At(n, p).Text? {
      assert p == [p[0]] && p[1..] == [] && Front(p) == [];
      WidthStep(n.kids, p[0]);
      Singleton(n.kids[p[0]]);
    } else if |p| > 1 && At(n, p).Text? {
      AdjustedPoint(n.kids[p[0]], p[1..], off);
      assert Front(p)[1..] == Front(p[1..]) && Front(p)[0] == p[0];
      AtPrefix(n, p, |p| - 1);
    }
  }

  /** The part from the point on, as a new tree: on the way to the point every node is a copy, the deepest
      one made first. */
  function RightHalf(n: Node, p: Path, off: nat, firstId: Id): Node
    requires ValidPoint(n, p, off)
  {
    if p == [] then
      if n.Text? then Text(firstId, n.data[off..]) else Elem(firstId, n.tag, n.kids[off..])
    else Elem(firstId + |p|, n.tag, [RightHalf(n.kids[p[0]], p[1..], off, firstId)] + n.kids[p[0] + 1..])
  }

  /** The right half is the part from the point on, with copies for the nodes that were cut. */
  lemma {:induction false} RightHalfShape(n: Node, p: Path, off: nat, firstId: Id)
    requires ValidPoint(n, p, off)
    ensures Shape([RightHalf(n, p, off, firstId)]) == Shape([Tail(n, p, off)])
  {
    if p != [] {
      var k, l := RightHalf(n.kids[p[0]], p[1..], off, firstId), Tail(n.kids[p[0]], p[1..], off);
      RightHalfShape(n.kids[p[0]], p[1..], off, firstId);
      ShapeConcat([k], n.kids[p[0] + 1..]);
      ShapeConcat([l], n.kids[p[0] + 1..]);
    }
  }

  /** Both halves together have the old text, cut at the point. */
  lemma HalvesText(n: Node, p: Path, off: nat, firstId: Id)
    requires ValidPoint(n, p, off)
    ensures Flat([Head(n, p, off)]) + Flat([RightHalf(n, p, off, firstId)]) == Flat([n])
    ensures TextOff(n, p, off) <= |Flat([n])|
    ensures Flat([Head(n, p, off)]) == Flat([n])[..TextOff(n, p, off)]
    ensures Flat([RightHalf(n, p, off, firstId)]) == Flat([n])[TextOff(n, p, off)..]
  {
    FlatHalves(n, p, off);
    RightHalfShape(n, p, off, firstId);
    ShapeFlat([RightHalf(n, p, off, firstId)]);
    ShapeFlat([Tail(n, p, off)]);
  }

  // ----- which half a text goes to -----

  /** If no text is cut, the two halves have the same texts as the whole. */
  lemma {:induction false} LeavesApart(n: Node, q: Path, o: nat, firstId: Id)
    requires ValidPoint(n, q, o) && At(n, q).Elem?
    ensures Leaves([Head(n, q, o)]) + Leaves([RightHalf(n, q, o, firstId)]) == Leaves([n])
  {
    hide Leaves;
    LeavesOne(n);
    LeavesOne(Head(n, q, o));
    LeavesOne(RightHalf(n, q, o, firstId));
    if q == [] {
      LeavesConcat(n.kids[..o], n.kids[o..]);
      assert n.kids == n.kids[..o] + n.kids[o..];
    } else {
      LeavesApart(n.kids[q[0]], q[1..], o, firstId);
      LeavesAround(n, q, o, firstId);
      Regrouped(Leaves(n.kids[..q[0]]), Leaves([Head(n.kids[q[0]], q[1..], o)]),
        Leaves([RightHalf(n.kids[q[0]], q[1..], o, firstId)]), Leaves(n.kids[q[0] + 1..]));
    }
  }

  lemma Regrouped<T>(a: seq<T>, b: seq<T>, c: seq<T>, d: seq<T>)
    ensures (a + b) + (c + d) == a + (b + c) + d
  {
  }

  /** The texts of the halves below the top, around those of the child that is cut. */
  lemma LeavesAround(n: Node, q: Path, o: nat, firstId: Id)
    requires ValidPoint(n, q, o) && q != []
    ensures var k, i := n.kids[q[0]], q[0];
      && Leaves([Head(n, q, o)]) == Leaves(n.kids[..i]) + Leaves([Head(k, q[1..], o)])
      && Leaves([RightHalf(n, q, o, firstId)]) == Leaves([RightHalf(k, q[1..], o, firstId)]) + Leaves(n.kids[i + 1..])
      && Leaves([n]) == Leaves(n.kids[..i]) + Leaves([k]) + Leaves(n.kids[i + 1..])
  {
    hide Leaves;
    var k, i := n.kids[q[0]], q[0];
    LeavesOne(n);
    LeavesOne(Head(n, q, o));
    LeavesOne(RightHalf(n, q, o, firstId));
    LeavesConcat(n.kids[..i], [Head(k, q[1..], o)]);
    LeavesConcat([RightHalf(k, q[1..], o, firstId)], n.kids[i + 1..]);
    LeavesSplit(n.kids, i);
  }

  /** The k-th text at a point of it: it goes to one half as it is, or becomes two that are not empty. */
  predicate LeafCut(ls: seq<Node>, k: nat, x: Node, off: nat, a: seq<Node>, b: seq<Node>, newId: Id) {
    && k < |ls| && ls[k] == x && x.Text? && off <= Len(x)
    && if off == 0 then a == ls[..k] && b == ls[k..]
       else if off == Len(x) then a == ls[..k + 1] && b == ls[k + 1..]
       else a == ls[..k] + [Text(x.id, x.data[..off])] && b == [Text(newId, x.data[off..])] + ls[k + 1..]
  }

  lemma {:induction false} LeafHalves(n: Node, p: Path, off: nat, firstId: Id) returns (k: nat)
    requires ValidPoint(n, p, off) && At(n, p).Text? && p != []
    ensures var (q, o) := Adjusted(n, p, off);
      && ValidPoint(n, q, o)
      && LeafCut(Leaves([n]), k, At(n, p), off, Leaves([Head(n, q, o)]), Leaves([RightHalf(n, q, o, firstId)]), firstId)
  {
    hide Head, RightHalf, Leaves, Adjusted, LeafCut;
    var i, kid := p[0], n.kids[p[0]];
    AdjustedPoint(n, p, off);
    var (q, o) := Adjusted(n, p, off);
    if |p| == 1 {
      assert p == [i] && p[1..] == [];
      k := |Leaves(n.kids[..i])|;
      KidHalves(n, i, off, firstId);
    } else {
      AdjustedBelow(n, p, off);
      var j := LeafHalves(kid, p[1..], off, firstId);
      assert q[1..] == Adjusted(kid, p[1..], off).0;
      k := |Leaves(n.kids[..i])| + j;
      LeavesAround(n, q, o, firstId);
      LeafCutInside(Leaves(n.kids[..i]), Leaves([kid]), Leaves(n.kids[i + 1..]), j, At(n, p), off,
        Leaves([Head(kid, q[1..], o)]), Leaves([RightHalf(kid, q[1..], o, firstId)]), firstId);
    }
  }

  lemma AdjustedBelow(n: Node, p: Path, off: nat)
    requires ValidPoint(n, p, off) && At(n, p).Text? && |p| > 1
    ensures var (q, o) := Adjusted(n.kids[p[0]], p[1..], off); Adjusted(n, p, off) == ([p[0]] + q, o)
  {
    assert Front(p) == [p[0]] + Front(p[1..]) && p == [p[0]] + p[1..];
  }

  /** A text that is a child of the element. */
  lemma KidHalves(n: Node, i: nat, off: nat, firstId: Id)
    requires n.Elem? && i < |n.kids| && n.kids[i].Text? && off <= Len(n.kids[i])
    ensures ValidPoint(n, [i], off) && At(n, [i]) == n.kids[i]
    ensures var (q, o) := Adjusted(n, [i], off);
      && ValidPoint(n, q, o)
      && LeafCut(Leaves([n]), |Leaves(n.kids[..i])|, n.kids[i], off,
           Leaves([Head(n, q, o)]), Leaves([RightHalf(n, q, o, firstId)]), firstId)
  {
    assert [i][1..] == [] && Front([i]) == [];
    AdjustedPoint(n, [i], off);
    var (q, o) := Adjusted(n, [i], off);
    var x := n.kids[i];
    if q == [] {
      KidBeside(n, i, o, firstId);
    } else {
      KidCut(n, i, off, firstId);
    }
  }

  lemma KidLeaves(n: Node, i: nat)
    requires n.Elem? && i < |n.kids| && n.kids[i].Text?
    ensures var l, r := Leaves(n.kids[..i]), Leaves(n.kids[i + 1..]);
      && Leaves([n]) == l + [n.kids[i]] + r
      && Leaves(n.kids[..i + 1]) == l + [n.kids[i]] && Leaves(n.kids[i..]) == [n.kids[i]] + r
  {
    hide Leaves;
    var x := n.kids[i];
    LeavesOne(n);
    LeavesOne(x);
    LeavesSplit(n.kids, i);
    assert n.kids[..i + 1] == n.kids[..i] + [x] && n.kids[i..] == [x] + n.kids[i + 1..];
    LeavesConcat(n.kids[..i], [x]);
    LeavesConcat([x], n.kids[i + 1..]);
  }

  lemma KidBeside(n: Node, i: nat, o: nat, firstId: Id)
    requires n.Elem? && i < |n.kids| && n.kids[i].Text? && (o == i || (o == i + 1 && Len(n.kids[i]) > 0))
    ensures ValidPoint(n, [], o)
    ensures LeafCut(Leaves([n]), |Leaves(n.kids[..i])|, n.kids[i], if o == i then 0 else Len(n.kids[i]),
              Leaves([Head(n, [], o)]), Leaves([RightHalf(n, [], o, firstId)]), firstId)
  {
    hide Leaves;
    KidLeaves(n, i);
    LeavesOne(Head(n, [], o));
    LeavesOne(RightHalf(n, [], o, firstId));
  }

  lemma KidCut(n: Node, i: nat, off: nat, firstId: Id)
    requires n.Elem? && i < |n.kids| && n.kids[i].Text? && 0 < off < Len(n.kids[i])
    ensures ValidPoint(n, [i], off)
    ensures LeafCut(Leaves([n]), |Leaves(n.kids[..i])|, n.kids[i], off,
              Leaves([Head(n, [i], off)]), Leaves([RightHalf(n, [i], off, firstId)]), firstId)
  {
    hide Leaves;
    assert [i][1..] == [] && HasPath(n, [i]) && At(n, [i]) == n.kids[i];
    KidLeaves(n, i);
    LeavesAround(n, [i], off, firstId);
    LeavesOne(Head(n.kids[i], [], off));
    LeavesOne(RightHalf(n.kids[i], [], off, firstId));
  }

  lemma LeafCutInside(l: seq<Node>, ls: seq<Node>, r: seq<Node>, k: nat, x: Node, off: nat,
                      a: seq<Node>, b: seq<Node>, newId: Id)
    requires LeafCut(ls, k, x, off, a, b, newId)
    ensures LeafCut(l + ls + r, |l| + k, x, off, l + a, b + r, newId)
  {
    var all, j := l + ls + r, |l| + k;
    assert all[..j] == l + ls[..k] && all[j..] == ls[k..] + r;
    assert all[..j + 1] == l + ls[..k + 1] && all[j + 1..] == ls[k + 1..] + r;
  }

  /** The two halves of an element cut at a point: their texts are the old text cut there, and only a text that
      holds the point strictly inside is cut; every level below the top, and the text if it is cut, is new. */
  ghost predicate Parted(n: Node, p: Path, off: nat, a: Node, b: Node, firstId: Id)
    requires ValidPoint(n, p, off) && n.Elem?
  {
    var t, x := TextOff(n, p, off), At(n, p);
    && a.Elem? && b.Elem? && a.id == n.id && a.tag == b.tag == n.tag
    && t <= |Flat([n])| && Flat([a]) == Flat([n])[..t] && Flat([b]) == Flat([n])[t..]
    && (x.Elem? ==> Leaves([a]) + Leaves([b]) == Leaves([n]))
    && (x.Text? ==> exists k :: LeafCut(Leaves([n]), k, x, off, Leaves([a]), Leaves([b]), firstId))
    && b.id == firstId + |p| - (if x.Text? && (off == 0 || off == Len(x)) then 1 else 0)
  }

  lemma AdjustedParts(n: Node, p: Path, off: nat, firstId: Id)
    requires ValidPoint(n, p, off) && n.Elem?
    ensures var (q, o) := Adjusted(n, p, off);
      ValidPoint(n, q, o) && Parted(n, p, off, Head(n, q, o), RightHalf(n, q, o, firstId), firstId)
  {
    AdjustedPoint(n, p, off);
    var (q, o) := Adjusted(n, p, off);
    hide Leaves, Flat, TextOff, LeafCut;
    HalvesText(n, q, o, firstId);
    if At(n, p).Text? {
      var k := LeafHalves(n, p, off, firstId);
    } else {
      LeavesApart(n, q, o, firstId);
    }
  }

  /** Cutting the child first and then its parent behind it is cutting the parent at the child's point. */
  lemma {:induction false} CutUp(n: Node, p: Path, i: nat, off: nat, firstId: Id)
    requires HasPath(n, p) && At(n, p).Elem? && i < |At(n, p).kids| && off <= Len(At(n, p).kids[i])
    ensures ValidPoint(n, p + [i], off)
    ensures var k := At(n, p).kids[i];
      var m := Put(n, p, Splice(At(n, p), i, [Head(k, [], off), RightHalf(k, [], off, firstId)]));
      && ValidPoint(m, p, i + 1)
      && Head(m, p, i + 1) == Head(n, p + [i], off)
      && RightHalf(m, p, i + 1, firstId + 1) == RightHalf(n, p + [i], off, firstId)
  {
    AtAppend(n, p, [i]);
    if p == [] {
      assert p + [i] == [i] && [i][1..] == [];
    } else {
      assert (p + [i])[1..] == p[1..] + [i];
      CutUp(n.kids[p[0]], p[1..], i, off, firstId);
    }
  }

  /** The world with a node replaced by its two halves. */
  function HalvedWorld(w: Node, node: Id, p: Path, off: nat, firstId: Id): Node
    requires IsNode(w, node) && ValidPoint(Get(w, node), p, off)
  {
    Replaced(w, node, [Head(Get(w, node), p, off), RightHalf(Get(w, node), p, off, firstId)])
  }

  /** Splitting the container of the point itself: a text node by its data, an element by its children. */
  method SplitHere(d: Document, node: Id, offset: nat) returns (newNode: Id)
    requires d.Valid() && IsNode(d.world, node) && offset <= Len(Get(d.world, node)) && ParentNode(d.world, node).Some?
    modifies d
    ensures d.Valid() && newNode == old(d.nextId) && d.nextId == newNode + 1
    ensures d.world == HalvedWorld(old(d.world), node, [], offset, newNode)
  {
    ghost var w, n := d.world, Get(d.world, node);
    if Get(d.world, node).Text? {
      newNode := SplitDataNode(d, node, offset);
    } else {
      newNode := SplitElement(d, node, offset);
    }
  }

  method SplitElement(d: Document, node: Id, offset: nat) returns (newNode: Id)
    requires d.Valid() && IsNode(d.world, node) && Get(d.world, node).Elem? && offset <= Len(Get(d.world, node))
    requires ParentNode(d.world, node).Some?
    modifies d
    ensures d.Valid() && newNode == old(d.nextId) && d.nextId == newNode + 1
    ensures d.world == HalvedWorld(old(d.world), node, [], offset, newNode)
  {
    ghost var w, n := d.world, Get(d.world, node);
    newNode := d.FreshId();
    var tag := Get(d.world, node).tag;
    var kids: seq<Node> := [];
    ghost var k := 0;
    ThinnedNone(w, node, offset);
    while |ChildNodes(d.world, node)| > offset
      invariant d.Valid() && d.nextId == newNode + 1
      invariant 0 <= k <= |n.kids| - offset && kids == n.kids[offset..offset + k]
      invariant d.world == Thinned(w, node, offset, k)
      invariant IsNode(d.world, node) && ChildNodes(d.world, node) == n.kids[..offset] + n.kids[offset + k..]
      decreases |n.kids| - k
    {
      var child := ChildNodes(d.world, node)[offset];
      ThinnedStep(w, node, offset, k);
      d.Remove(child.id);
      kids := kids + [child];
      k := k + 1;
      ThinnedGet(w, node, offset, k);
    }
    assert kids == n.kids[offset..];
    var newElem := Elem(newNode, tag, kids);
    ThinnedInsert(w, node, offset, k, newElem);
    ThinnedCount(w, node, offset, k, newElem, newNode);
    ghost var v := d.world;
    d.InsertAfter([newElem], node);
    assert [Get(v, node)] + [newElem] == [Get(v, node), newElem];
  }

  /** The world while k children have been moved out. */
  function Thinned(w: Node, node: Id, offset: nat, k: nat): Node
    requires IsNode(w, node) && Get(w, node).Elem? && offset + k <= |Get(w, node).kids|
  {
    var n := Get(w, node);
    Put(w, Where(w, node), n.(kids := n.kids[..offset] + n.kids[offset + k..]))
  }

  lemma ThinnedNone(w: Node, node: Id, offset: nat)
    requires IsNode(w, node) && Get(w, node).Elem? && offset <= |Get(w, node).kids|
    ensures Thinned(w, node, offset, 0) == w
  {
    var n := Get(w, node);
    assert n.kids[..offset] + n.kids[offset + 0..] == n.kids;
    PutSame(w, Where(w, node));
  }

  lemma ThinnedGet(w: Node, node: Id, offset: nat, k: nat)
    requires IsNode(w, node) && Get(w, node).Elem? && offset + k <= |Get(w, node).kids|
    requires Distinct(Thinned(w, node, offset, k))
    ensures var v, n := Thinned(w, node, offset, k), Get(w, node);
      IsNode(v, node) && Where(v, node) == Where(w, node)
        && Get(v, node) == n.(kids := n.kids[..offset] + n.kids[offset + k..])
  {
    var n := Get(w, node);
    AtPut(w, Where(w, node), n.(kids := n.kids[..offset] + n.kids[offset + k..]));
    WhereAt(Thinned(w, node, offset, k), Where(w, node));
  }

  lemma ThinnedStep(w: Node, node: Id, offset: nat, k: nat)
    requires IsNode(w, node) && Get(w, node).Elem? && offset + k < |Get(w, node).kids|
    requires Distinct(Thinned(w, node, offset, k))
    ensures var v, id := Thinned(w, node, offset, k), Get(w, node).kids[offset + k].id;
      IsNode(v, id) && ParentNode(v, id).Some? && Replaced(v, id, []) == Thinned(w, node, offset, k + 1)
  {
    ThinnedGet(w, node, offset, k);
    var v, n, c := Thinned(w, node, offset, k), Get(w, node), Where(w, node);
    var m := Get(v, node);
    assert m.kids[offset] == n.kids[offset + k];
    KidAt(v, c, offset);
    ReplacedBelow(v, c, offset, []);
    assert Splice(m, offset, []).kids == n.kids[..offset] + n.kids[offset + k + 1..];
    PutPut(w, c, m, Splice(m, offset, []));
  }

  lemma ThinnedInsert(w: Node, node: Id, offset: nat, k: nat, x: Node)
    requires Distinct(w) && IsNode(w, node) && Get(w, node).Elem? && offset + k == |Get(w, node).kids|
    requires Distinct(Thinned(w, node, offset, k))
    ensures var v, n := Thinned(w, node, offset, k), Get(w, node);
      IsNode(v, node) && Get(v, node) == Head(n, [], offset)
        && Replaced(v, node, [Get(v, node), x]) == Replaced(w, node, [Head(n, [], offset), x])
  {
    var n, h := Get(w, node), Head(Get(w, node), [], offset);
    assert n.kids[..offset] + n.kids[offset + k..] == n.kids[..offset];
    ThinnedGet(w, node, offset, k);
    SetThenInsert(w, Where(w, node), h, x);
  }

  lemma ThinnedCount(w: Node, node: Id, offset: nat, k: nat, x: Node, newId: Id)
    requires Distinct(w) && IsNode(w, node) && Get(w, node).Elem? && offset + k == |Get(w, node).kids|
    requires forall y :: y >= newId ==> Count([w], y) == 0
    requires x == Elem(newId, Get(w, node).tag, Get(w, node).kids[offset..])
    ensures forall y: Id :: Count([x], y) <= 1
    ensures forall y: Id :: Count([x], y) == 1 ==> Count([Thinned(w, node, offset, k)], y) == 0 && y < newId + 1
  {
    var n := Get(w, node);
    var h := n.(kids := n.kids[..offset] + n.kids[offset + k..]);
    assert n.kids[..offset] + n.kids[offset + k..] == n.kids[..offset];
    forall y: Id
      ensures Count([x], y) <= 1
      ensures Count([x], y) == 1 ==> Count([Thinned(w, node, offset, k)], y) == 0 && y < newId + 1
    {
      CountPut(w, Where(w, node), h, y);
      CountElem(n, y);
      CountElem(h, y);
      CountElem(x, y);
      CountConcat(n.kids[..offset], n.kids[offset..], y);
      assert n.kids == n.kids[..offset] + n.kids[offset..];
      CountAt(w, Where(w, node), y);
      CountAt(w, Where(w, node), newId);
    }
  }

  /** An end of a text node is exchanged for the point beside it. */
  method Adjust(w: Node, node: Id, descendantNode: Id, descendantOffset: nat) returns (desc: Id, off: nat)
    requires Distinct(w) && IsNode(w, node) && Get(w, node).Elem?
    requires IsNode(w, descendantNode) && Where(w, node) <= Where(w, descendantNode)
    requires descendantOffset <= Len(Get(w, descendantNode))
    ensures ValidPoint(Get(w, node), Below(w, node, descendantNode), descendantOffset)
    ensures IsNode(w, desc) && Where(w, node) <= Where(w, desc) && off <= Len(Get(w, desc))
    ensures (Below(w, node, desc), off) == Adjusted(Get(w, node), Below(w, node, descendantNode), descendantOffset)
    ensures |Where(w, desc)| <= |Where(w, descendantNode)|
  {
    BelowAt(w, node, descendantNode);
    AdjustedPoint(Get(w, node), Below(w, node, descendantNode), descendantOffset);
    desc, off := descendantNode, descendantOffset;
    if Get(w, desc).Text? {
      StepUp(w, node, desc);
      if off == 0 {
        off := GetNodeIndex(w, desc);
        desc := ParentNode(w, desc).value;
      } else if off == Len(Get(w, desc)) {
        var i := GetNodeIndex(w, desc);
        off := i + 1;
        desc := ParentNode(w, desc).value;
      }
    }
  }

  /** The element `node` is cut at a point of one of its descendants: it keeps what is before the point, the
      returned node right behind it has the rest, and nothing else changes. */
  method SplitNodeAt(d: Document, node: Id, descendantNode: Id, descendantOffset: nat) returns (newNode: Id)
    requires d.Valid() && IsNode(d.world, node) && Get(d.world, node).Elem? && ParentNode(d.world, node).Some?
    requires IsNode(d.world, descendantNode) && Where(d.world, node) <= Where(d.world, descendantNode)
    requires descendantOffset <= Len(Get(d.world, descendantNode))
    modifies d
    ensures d.Valid()
    ensures ValidPoint(Get(old(d.world), node), Below(old(d.world), node, descendantNode), descendantOffset)
    ensures var (p, off) := Adjusted(Get(old(d.world), node), Below(old(d.world), node, descendantNode),
        descendantOffset);
      && ValidPoint(Get(old(d.world), node), p, off)
      && newNode == old(d.nextId) + |p|
      && d.world == HalvedWorld(old(d.world), node, p, off, old(d.nextId))
    ensures IsNode(d.world, node) && IsNode(d.world, newNode)
    ensures d.world == Replaced(old(d.world), node, [Get(d.world, node), Get(d.world, newNode)])
    ensures Parted(Get(old(d.world), node), Below(old(d.world), node, descendantNode), descendantOffset,
              Get(d.world, node), Get(d.world, newNode), old(d.nextId))
    decreases |Where(d.world, descendantNode)|
  {
    hide Parted, Head, RightHalf, Put, Replaced, Find;
    ghost var w, firstId, n, c := d.world, d.nextId, Get(d.world, node), Where(d.world, node);
    ghost var p0 := Below(w, node, descendantNode);
    BelowAt(w, node, descendantNode);
    var desc, off := Adjust(d.world, node, descendantNode, descendantOffset);
    ghost var p := Below(w, node, desc);
    BelowAt(w, node, desc);
    DeepParent(w, node, desc);
    newNode := SplitHere(d, desc, off);
    if desc == node {
      assert p == [];
    } else {
      StepUp(w, node, desc);
      HalvedAbove(w, node, desc, off, firstId, d.world);
      var parent := ParentNode(d.world, newNode).value;
      var i := GetNodeIndex(d.world, newNode);
      BelowAt(d.world, node, parent);
      assert Adjusted(Get(d.world, node), Below(d.world, node, parent), i) == (Below(d.world, node, parent), i);
      newNode := SplitNodeAt(d, node, parent, i);
    }
    SplitDone(w, node, p0, descendantOffset, firstId);
  }

  lemma SplitDone(w: Node, node: Id, p0: Path, off0: nat, firstId: Id)
    requires Distinct(w) && IsNode(w, node) && Get(w, node).Elem? && ValidPoint(Get(w, node), p0, off0)
    requires ParentNode(w, node).Some?
    ensures var (p, off) := Adjusted(Get(w, node), p0, off0);
      && ValidPoint(Get(w, node), p, off)
      && var v := HalvedWorld(w, node, p, off, firstId);
      Distinct(v) ==>
        && IsNode(v, node) && IsNode(v, firstId + |p|)
        && v == Replaced(w, node, [Get(v, node), Get(v, firstId + |p|)])
        && Parted(Get(w, node), p0, off0, Get(v, node), Get(v, firstId + |p|), firstId)
  {
    hide Parted, Head, RightHalf;
    AdjustedPoint(Get(w, node), p0, off0);
    var (p, off) := Adjusted(Get(w, node), p0, off0);
    AdjustedParts(Get(w, node), p0, off0, firstId);
    if Distinct(HalvedWorld(w, node, p, off, firstId)) {
      HalvesFound(w, node, p, off, firstId);
    }
  }

  /** The two halves stand side by side where the node stood. */
  lemma HalvesFound(w: Node, node: Id, p: Path, off: nat, firstId: Id)
    requires Distinct(w) && IsNode(w, node) && Get(w, node).Elem? && ValidPoint(Get(w, node), p, off)
    requires ParentNode(w, node).Some? && Distinct(HalvedWorld(w, node, p, off, firstId))
    ensures var v := HalvedWorld(w, node, p, off, firstId);
      && IsNode(v, node) && Get(v, node) == Head(Get(w, node), p, off)
      && IsNode(v, firstId + |p|) && Get(v, firstId + |p|) == RightHalf(Get(w, node), p, off, firstId)
  {
    hide Head, RightHalf;
    var c, h, t := Where(w, node), Head(Get(w, node), p, off), RightHalf(Get(w, node), p, off, firstId);
    RightHalfId(Get(w, node), p, off, firstId);
    ParentAt(w, c);
    AtPrefix(w, c, |c| - 1);
    var f, j := Front(c), Last(c);
    assert c == f + [j];
    AtAppend(w, f, [j]);
    var m := Splice(At(w, f), j, [h, t]);
    var v := Put(w, f, m);
    AtPut(w, f, m);
    assert m.kids[j] == h && m.kids[j + 1] == t;
    KidAt(v, f, j);
    KidAt(v, f, j + 1);
  }

  lemma RightHalfId(n: Node, p: Path, off: nat, firstId: Id)
    requires ValidPoint(n, p, off)
    ensures RightHalf(n, p, off, firstId).id == firstId + |p|
  {
  }

  /** The path from a node to one below it. */
  function Below(w: Node, node: Id, x: Id): Path
    requires IsNode(w, node) && IsNode(w, x) && Where(w, node) <= Where(w, x)
  {
    Where(w, x)[|Where(w, node)|..]
  }

  lemma BelowAt(w: Node, node: Id, x: Id)
    requires IsNode(w, node) && IsNode(w, x) && Where(w, node) <= Where(w, x)
    ensures HasPath(Get(w, node), Below(w, node, x)) && At(Get(w, node), Below(w, node, x)) == Get(w, x)
  {
    var c, p := Where(w, node), Where(w, x);
    AtPrefix(w, p, |c|);
    assert p[..|c|] == c;
  }

  lemma DeepParent(w: Node, node: Id, x: Id)
    requires Distinct(w) && IsNode(w, node) && IsNode(w, x) && Where(w, node) <= Where(w, x)
    requires ParentNode(w, node).Some?
    ensures ParentNode(w, x).Some?
  {
    ParentAt(w, Where(w, x));
    ParentAt(w, Where(w, node));
  }

  /** From a node strictly below to its parent, which is still in the subtree. */
  lemma StepUp(w: Node, node: Id, x: Id)
    requires Distinct(w) && IsNode(w, node) && IsNode(w, x) && Where(w, node) <= Where(w, x)
    requires Get(w, node).Elem? && (Get(w, x).Text? || x != node)
    ensures ParentNode(w, x).Some?
    ensures var m := ParentNode(w, x).value;
      && IsNode(w, m) && Where(w, m) == Front(Where(w, x)) && Where(w, node) <= Where(w, m)
      && Below(w, node, x) != [] && Below(w, node, m) == Front(Below(w, node, x))
        && Index(w, x) == Last(Below(w, node, x))
      && Get(w, m).Elem? && Index(w, x) < |Get(w, m).kids| && Get(w, m).kids[Index(w, x)] == Get(w, x)
  {
    var c, p := Where(w, node), Where(w, x);
    assert c != p;
    ParentAt(w, p);
    AtPrefix(w, p, |p| - 1);
    WhereAt(w, Front(p));
    assert c <= Front(p);
    assert Front(p)[|c|..] == Front(p[|c|..]);
    assert p == Front(p) + [Last(p)];
    AtAppend(w, Front(p), [Last(p)]);
  }

  /** After one level has been split, the same cut one level up remains to be made. */
  lemma HalvedAbove(w: Node, node: Id, x: Id, off: nat, firstId: Id, v: Node)
    requires Distinct(w) && IsNode(w, node) && Get(w, node).Elem? && IsNode(w, x) && x != node
    requires Where(w, node) <= Where(w, x)
    requires off <= Len(Get(w, x)) && Distinct(v) && v == HalvedWorld(w, x, [], off, firstId)
    requires ParentNode(w, node).Some?
    ensures ValidPoint(Get(w, node), Below(w, node, x), off)
    ensures IsNode(v, node) && Where(v, node) == Where(w, node) && Get(v, node).Elem? && ParentNode(v, node).Some?
    ensures IsNode(v, firstId) && ParentNode(v, firstId).Some? && Index(v, firstId) == Index(w, x) + 1
    ensures var m := ParentNode(v, firstId).value;
      && IsNode(v, m) && Where(v, m) == Front(Where(w, x)) && Where(v, node) <= Where(v, m) && Get(v, m).Elem?
      && Index(w, x) + 1 <= Len(Get(v, m)) && ValidPoint(Get(v, node), Below(v, node, m), Index(w, x) + 1)
      && |Below(w, node, x)| == |Below(v, node, m)| + 1
      && HalvedWorld(v, node, Below(v, node, m), Index(w, x) + 1, firstId + 1)
        == HalvedWorld(w, node, Below(w, node, x), off, firstId)
  {
    StepUp(w, node, x);
    BelowAt(w, node, x);
    var c, f, i := Where(w, node), Front(Where(w, x)), Index(w, x);
    var n, q := Get(w, node), Front(Below(w, node, x));
    var k, parent := Get(w, x), At(w, f);
    BelowAt(w, node, ParentNode(w, x).value);
    assert f == c + q;
    var m := Splice(parent, i, [Head(k, [], off), RightHalf(k, [], off, firstId)]);
    assert v == Put(w, f, m);
    AtPut(w, f, m);
    WhereAt(v, f);
    assert m.kids[i + 1] == RightHalf(k, [], off, firstId);
    KidAt(v, f, i + 1);
    PutAppend(w, c, q, m);
    AtPut(w, c, Put(n, q, m));
    SameIdPut(n, q, m);
    WhereAt(v, c);
    ParentAt(v, c);
    ParentAt(w, c);
    AtPut(n, q, m);
    CutUp(n, q, i, off, firstId);
    assert q + [i] == Below(w, node, x);
    assert f[|c|..] == q;
    ReplacedTwice(w, c, Put(n, q, m), [Head(n, q + [i], off), RightHalf(n, q + [i], off, firstId)]);
  }

  lemma SameIdPut(n: Node, q: Path, m: Node)
    requires HasPath(n, q) && m.id == At(n, q).id && At(n, q).Elem? && m.Elem?
    ensures Put(n, q, m).id == n.id && Put(n, q, m).Elem?
  {
  }

  /** Replacing a changed node is replacing the node. */
  lemma ReplacedTwice(w: Node, c: Path, x: Node, xs: seq<Node>)
    requires Distinct(w) && HasPath(w, c) && c != [] && x.id == At(w, c).id && Distinct(Put(w, c, x))
    ensures IsNode(w, x.id) && IsNode(Put(w, c, x), x.id)
    ensures Replaced(Put(w, c, x), x.id, xs) == Replaced(w, x.id, xs)
  {
    var v, f, j := Put(w, c, x), Front(c), Last(c);
    assert c == f + [j];
    AtPrefix(w, c, |f|);
    AtPut(w, c, x);
    WhereAt(v, c);
    WhereAt(w, c);
    var n := At(w, f);
    PutAppend(w, f, [j], x);
    AtPut(w, f, Put(n, [j], x));
    PutPut(w, f, Put(n, [j], x), Splice(n, j, xs));
    assert Put(n, [j], x) == n.(kids := n.kids[j := x]);
    assert Splice(Put(n, [j], x), j, xs) == Splice(n, j, xs);
  }

  /** What the split leaves: the halves side by side with the old text in two, and the document's text as it was. */
  lemma SplitResult(w: Node, node: Id, x: Id, xOff: nat, firstId: Id)
    requires Distinct(w) && IsNode(w, node) && Get(w, node).Elem? && IsNode(w, x) && Where(w, node) <= Where(w, x)
    requires xOff <= Len(Get(w, x))
    ensures ValidPoint(Get(w, node), Below(w, node, x), xOff)
    ensures var n := Get(w, node);
      var (p, off) := Adjusted(n, Below(w, node, x), xOff);
      && ValidPoint(n, p, off)
      && Parted(n, Below(w, node, x), xOff, Head(n, p, off), RightHalf(n, p, off, firstId), firstId)
      && Shape([RightHalf(n, p, off, firstId)]) == Shape([Tail(n, p, off)])
      && Flat([HalvedWorld(w, node, p, off, firstId)]) == Flat([w])
  {
    BelowAt(w, node, x);
    var n := Get(w, node);
    AdjustedPoint(n, Below(w, node, x), xOff);
    var (p, off) := Adjusted(n, Below(w, node, x), xOff);
    hide Parted, Head, RightHalf, Tail, Flat, TextOff, Shape, Replaced, Find, Distinct;
    AdjustedParts(n, Below(w, node, x), xOff, firstId);
    HalvesText(n, p, off, firstId);
    RightHalfShape(n, p, off, firstId);
    FlatReplaced(w, node, Head(n, p, off), RightHalf(n, p, off, firstId));
  }

  /** Replacing a node by two of the same text together. */
  lemma FlatReplaced(w: Node, node: Id, a: Node, b: Node)
    requires IsNode(w, node) && Flat([a]) + Flat([b]) == Flat([Get(w, node)])
    ensures Flat([Replaced(w, node, [a, b])]) == Flat([w])
  {
    var c := Where(w, node);
    AtPrefix(w, c, |c| - 1);
    var f, j := Front(c), Last(c);
    var n := At(w, f);
    var m := Splice(n, j, [a, b]);
    FlatSplice(n, j, a, b);
    FlatPut(w, f, m);
    FlatContext(w, f);
    Unchanged(Flat([w]), TextOff(w, f, 0), Flat([n]));
  }

  lemma Unchanged(t: string, b: nat, m: string)
    requires b + |m| <= |t| && t[b..][..|m|] == m
    ensures t[..b] + m + t[b + |m|..] == t
  {
  }

  lemma FlatSplice(n: Node, j: nat, a: Node, b: Node)
    requires n.Elem? && j < |n.kids| && Flat([a]) + Flat([b]) == Flat([n.kids[j]])
    ensures Flat([Splice(n, j, [a, b])]) == Flat([n])
  {
    hide Flat;
    FlatSplit(n.kids, j);
    FlatElem(n);
    FlatElem(Splice(n, j, [a, b]));
    FlatConcat(n.kids[..j] + [a, b], n.kids[j + 1..]);
    FlatConcat(n.kids[..j], [a, b]);
    assert [a, b] == [a] + [b];
    FlatConcat([a], [b]);
  }
}

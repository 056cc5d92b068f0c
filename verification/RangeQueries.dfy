/** Questions about a range of an unchanging document: its nodes and its text. */
module RangeQueries {
  import opened Tree
  import opened Positions
  import opened Navigation
  import opened Slices
  import opened Ranges
  import opened Traversal
  import opened RangeIterators

  /** intersectsNode(node, false): the node starts before the range ends and ends after the range starts. */
  predicate Intersects(w: Node, r: RangeState, id: Id) {
    && IsNode(w, r.startContainer) && IsNode(w, r.endContainer)
    && IsNode(w, id) && ParentNode(w, id).Some?
    && IsNode(w, ParentNode(w, id).value)
    && Order(w, ParentNode(w, id).value, Index(w, id), r.endContainer, r.endOffset) < 0
    && Order(w, ParentNode(w, id).value, Index(w, id) + 1, r.startContainer, r.startOffset) > 0
  }

  /** What intersectsNode returns, or the exception it raises. */
  datatype Hit = Answer(b: bool) | NotFound | NoCommonAncestor

  method IntersectsNode(w: Node, r: RangeState, node: Id, ownerDocument: Id -> Id) returns (h: Hit)
    requires Distinct(w) && ValidRange(w, r) && IsNode(w, node) && TreesOwned(w, ownerDocument)
    ensures !SameOwner(r, node, ownerDocument) ==> h == Answer(false)
    ensures h.NotFound? <==> SameOwner(r, node, ownerDocument) && ParentNode(w, node).None?
    ensures h.NoCommonAncestor? <==>
      SameOwner(r, node, ownerDocument) && ParentNode(w, node).Some? && !SameTree(w, node, r.startContainer)
    ensures h.Answer? && SameOwner(r, node, ownerDocument) ==> h.b == Intersects(w, r, node)
  {
    if ownerDocument(node) != ownerDocument(r.startContainer) {
      return Answer(false);
    }
    if ParentNode(w, node).None? {
      return NotFound;
    }
    ParentAt(w, Where(w, node));
    WhereAt(w, Front(Where(w, node)));
    var parent := ParentNode(w, node).value;
    var offset := GetNodeIndex(w, node);
    RootsAgree(w, node, r.startContainer);
    var r1 := GetRootContainer(w, node);
    var r2 := GetRootContainer(w, r.startContainer);
    if r1 != r2 {
      return NoCommonAncestor;
    }
    var startComparison := ComparePoints(w, parent, offset, r.endContainer, r.endOffset);
    var endComparison := ComparePoints(w, parent, offset + 1, r.startContainer, r.startOffset);
    h := Answer(startComparison < 0 && endComparison > 0);
  }

  predicate SameOwner(r: RangeState, node: Id, ownerDocument: Id -> Id) {
    ownerDocument(node) == ownerDocument(r.startContainer)
  }

  /** The nodes a range can contain: those below the common ancestor, or the ancestor itself if it is a text. */
  function Candidates(w: Node, r: RangeState): seq<Id>
    requires ValidRange(w, r)
  {
    if Root(w, r).Text? then [Root(w, r).id] else Pre(Root(w, r).kids)
  }

  /** Of some nodes those that intersect the range. */
  function Hits(w: Node, r: RangeState, ids: seq<Id>): seq<Id> {
    if ids == [] then []
    else (if Intersects(w, r, ids[0]) then [ids[0]] else []) + Hits(w, r, ids[1..])
  }

  lemma {:induction false} HitsConcat(w: Node, r: RangeState, a: seq<Id>, b: seq<Id>)
    ensures Hits(w, r, a + b) == Hits(w, r, a) + Hits(w, r, b)
  {
    hide Intersects;
    if a == [] {
      assert a + b == b;
    } else {
      assert (a + b)[1..] == a[1..] + b;
      HitsConcat(w, r, a[1..], b);
    }
  }

  /** Meeting an interval of positions is intersecting the range, node by node. */
  lemma {:induction false} MeetingIsHits(w: Node, r: RangeState, c: Path, i: nat)
    requires Distinct(w) && ValidRange(w, r)
    requires c != [] && HasPath(w, c) && At(w, c).Elem? && i <= |At(w, c).kids|
    ensures ValidPoint(w, c, i)
    ensures Meeting(At(w, c).kids[i..], Pos(w, c, i), PosOf(w, r.startContainer, r.startOffset),
        PosOf(w, r.endContainer, r.endOffset))
      == Hits(w, r, Pre(At(w, c).kids[i..]))
    decreases At(w, c).kids[i..]
  {
    var ks := At(w, c).kids[i..];
    if ks != [] {
      KidAt(w, c, i);
      assert ks[1..] == At(w, c).kids[i + 1..];
      PosNext(w, c, i);
      KidIntersects(w, r, c, i);
      MeetingIsHits(w, r, c, i + 1);
      if ks[0].Elem? {
        MeetingIsHits(w, r, c + [i], 0);
        assert ks[0].kids[0..] == ks[0].kids;
      }
      HitsCons(w, r, ks, Pos(w, c, i), PosOf(w, r.startContainer, r.startOffset),
        PosOf(w, r.endContainer, r.endOffset));
    }
  }

  /** One tree of a forest, from its root, its children and its later siblings. */
  lemma HitsCons(w: Node, r: RangeState, ks: seq<Node>, b: nat, lo: nat, hi: nat)
    requires ks != [] && (Intersects(w, r, ks[0].id) <==> b < hi && b + Width([ks[0]]) > lo)
    requires ks[0].Elem? ==> Meeting(ks[0].kids, b + 1, lo, hi) == Hits(w, r, Pre(ks[0].kids))
    requires Meeting(ks[1..], b + Width([ks[0]]), lo, hi) == Hits(w, r, Pre(ks[1..]))
    ensures Meeting(ks, b, lo, hi) == Hits(w, r, Pre(ks))
  {
    hide Intersects;
    var inner := if ks[0].Elem? then Pre(ks[0].kids) else [];
    HitsConcat(w, r, [ks[0].id] + inner, Pre(ks[1..]));
    HitsConcat(w, r, [ks[0].id], inner);
    OneHit(w, r, ks[0].id);
  }

  lemma OneHit(w: Node, r: RangeState, id: Id)
    ensures Hits(w, r, [id]) == if Intersects(w, r, id) then [id] else []
  {
    assert [id][1..] == [];
  }

  lemma KidIntersects(w: Node, r: RangeState, c: Path, i: nat)
    requires Distinct(w) && ValidRange(w, r)
    requires c != [] && HasPath(w, c) && At(w, c).Elem? && i < |At(w, c).kids|
    ensures Intersects(w, r, At(w, c).kids[i].id) <==>
      Pos(w, c, i) < PosOf(w, r.endContainer, r.endOffset)
        && Pos(w, c, i + 1) > PosOf(w, r.startContainer, r.startOffset)
  {
    KidAt(w, c, i);
    WhereAt(w, c);
    CmpIsPos(w, c, i, Where(w, r.endContainer), r.endOffset);
    CmpIsPos(w, c, i + 1, Where(w, r.startContainer), r.startOffset);
  }

  lemma PosNext(w: Node, c: Path, i: nat)
    requires HasPath(w, c) && At(w, c).Elem? && i < |At(w, c).kids|
    ensures ValidPoint(w, c, i) && ValidPoint(w, c, i + 1) && ValidPoint(w, c + [i], 0)
    ensures Pos(w, c, i + 1) == Pos(w, c, i) + Width([At(w, c).kids[i]])
    ensures Pos(w, c + [i], 0) == Pos(w, c, i) + 1
  {
    var n := At(w, c);
    AtAppend(w, c, [i]);
    PointContext(w, c, [], i);
    PointContext(w, c, [], i + 1);
    PointContext(w, c, [i], 0);
    assert c + [] == c;
    WidthStep(n.kids, i);
    assert n.kids[i].Elem? ==> n.kids[i].kids[..0] == [];
  }

  /** The nested iteration covers exactly the nodes that intersect the range, in document order. */
  lemma ContentIsHits(w: Node, r: RangeState)
    requires Distinct(w) && ValidRange(w, r) && !r.collapsed
    requires At(w, Where(w, r.startContainer)[..1]).Elem?
    ensures Pre(Content(w, r)) == Hits(w, r, Candidates(w, r))
  {
    RangeShape(w, r);
    if Root(w, r).Text? {
      TextIntersects(w, r);
      OneHit(w, r, Root(w, r).id);
      var k := Content(w, r)[0];
      assert Pre([k]) == [k.id] by { assert [k][1..] == []; }
    } else {
      ContentIsMeeting(w, r);
      MeetingIsHits(w, r, RootPath(w, r), 0);
      assert Root(w, r).kids[0..] == Root(w, r).kids;
    }
  }

  lemma ContentIsMeeting(w: Node, r: RangeState)
    requires Distinct(w) && ValidRange(w, r) && !r.collapsed && Root(w, r).Elem?
    ensures ValidPoint(w, RootPath(w, r), 0)
    ensures Pre(Content(w, r)) == Meeting(Root(w, r).kids, Pos(w, RootPath(w, r), 0),
      PosOf(w, r.startContainer, r.startOffset), PosOf(w, r.endContainer, r.endOffset))
  {
    hide Distinct, Find, Order, Where;
    RangeShape(w, r);
    var n, c, p, q := Root(w, r), RootPath(w, r), StartBelow(w, r), EndBelow(w, r);
    hide Meeting, Pos, TextOff, MidKids, Flat, Width, Pre;
    PointContext(w, c, p, r.startOffset);
    PointContext(w, c, q, r.endOffset);
    PosInside(w, c, 0);
    MeetingMid(n, Pos(w, c, 0) - 1, p, r.startOffset, q, r.endOffset);
  }

  lemma TextIntersects(w: Node, r: RangeState)
    requires Distinct(w) && ValidRange(w, r) && !r.collapsed && Root(w, r).Text?
    requires At(w, Where(w, r.startContainer)[..1]).Elem?
    ensures Intersects(w, r, Root(w, r).id)
  {
    RangeShape(w, r);
    var c := RootPath(w, r);
    var f, i := Front(c), Last(c);
    assert c + [] == c && c == f + [i];
    assert c[..1] == c || |c| > 1;
    ParentAt(w, c);
    WhereAt(w, f);
    AtPrefix(w, c, |f|);
    SplitCodes(f, f, i, c, r.endOffset);
    SplitCodes(f, f, i + 1, c, r.startOffset);
    assert f[|f|..] == [] && c[|f|..] == [i];
  }

  /** Of some nodes those that the caller's type list and filter function accept. */
  function Accepted(w: Node, ids: seq<Id>, accept: Seen -> bool): seq<Id> {
    if ids == [] then []
    else (if IsNode(w, ids[0]) && accept(See(Get(w, ids[0]))) then [ids[0]] else []) + Accepted(w, ids[1..], accept)
  }

  lemma {:induction false} AcceptedConcat(w: Node, a: seq<Id>, b: seq<Id>, accept: Seen -> bool)
    ensures Accepted(w, a + b, accept) == Accepted(w, a, accept) + Accepted(w, b, accept)
  {
    if a == [] {
      assert a + b == b;
    } else {
      assert (a + b)[1..] == a[1..] + b;
      AcceptedConcat(w, a[1..], b, accept);
    }
  }

  /** getNodes, with the caller's type list and filter function as one test. */
  method GetNodes(w: Node, r: RangeState, accept: Seen -> bool) returns (nodes: seq<Id>)
    requires Distinct(w) && ValidRange(w, r) && At(w, Where(w, r.startContainer)[..1]).Elem?
    ensures r.collapsed ==> nodes == []
    ensures !r.collapsed ==> nodes == Accepted(w, Hits(w, r, Candidates(w, r)), accept)
  {
    var it := new RangeIterator(w, r, false);
    var visited := IterateSubtree(w, it);
    AllNodes(w, r);
    nodes := Select(w, visited, Pre(Content(w, r)), accept);
    if !r.collapsed {
      ContentIsHits(w, r);
    }
  }

  /** The callback's work: keep the visited nodes that are accepted. */
  method Select(w: Node, visited: seq<Seen>, ghost ids: seq<Id>, accept: Seen -> bool) returns (nodes: seq<Id>)
    requires visited == Live(w, ids) && forall id :: id in ids ==> IsNode(w, id)
    ensures nodes == Accepted(w, ids, accept)
  {
    nodes := [];
    for i := 0 to |visited|
      invariant nodes == Accepted(w, ids[..i], accept)
    {
      assert ids[..i + 1] == ids[..i] + [ids[i]];
      AcceptedConcat(w, ids[..i], [ids[i]], accept);
      assert ids[i] in ids;
      if accept(visited[i]) {
        nodes := nodes + [visited[i].id];
      }
    }
    assert ids[..|visited|] == ids;
  }

  /** Every node the iteration names is a node. */
  lemma AllNodes(w: Node, r: RangeState)
    requires Distinct(w) && ValidRange(w, r) && At(w, Where(w, r.startContainer)[..1]).Elem?
    ensures forall id :: id in Pre(Content(w, r)) ==> IsNode(w, id)
  {
    if !r.collapsed {
      ContentIsHits(w, r);
      HitsAreNodes(w, r, Candidates(w, r));
    }
  }

  lemma {:induction false} HitsAreNodes(w: Node, r: RangeState, ids: seq<Id>)
    ensures forall id :: id in Hits(w, r, ids) ==> IsNode(w, id) && Intersects(w, r, id) && id in ids
  {
    if ids != [] {
      HitsAreNodes(w, r, ids[1..]);
    }
  }

  // ----- membership -----

  lemma {:induction false} AcceptedMembers(w: Node, ids: seq<Id>, accept: Seen -> bool)
    ensures forall x :: x in Accepted(w, ids, accept) <==> x in ids && IsNode(w, x) && accept(See(Get(w, x)))
  {
    if ids != [] {
      AcceptedMembers(w, ids[1..], accept);
    }
  }

  lemma {:induction false} HitsMembers(w: Node, r: RangeState, ids: seq<Id>)
    ensures forall x :: x in Hits(w, r, ids) <==> x in ids && Intersects(w, r, x)
  {
    if ids != [] {
      HitsMembers(w, r, ids[1..]);
    }
  }

  lemma {:induction false} PreMember(ks: seq<Node>, i: nat, p: Path)
    requires i < |ks| && HasPath(ks[i], p)
    ensures At(ks[i], p).id in Pre(ks)
    decreases |p|, i
  {
    PreSplit(ks, i);
    var n := ks[i];
    assert [n][1..] == [];
    if p != [] {
      PreMember(n.kids, p[0], p[1..]);
    }
    assert At(n, p).id in Pre([n]);
  }

  lemma BelowIsCandidate(w: Node, r: RangeState, x: Id)
    requires Distinct(w) && ValidRange(w, r) && IsNode(w, x) && RootPath(w, r) <= Where(w, x)
    requires Root(w, r).Elem? ==> RootPath(w, r) != Where(w, x)
    ensures x in Candidates(w, r)
  {
    RangeShape(w, r);
    var c, t := RootPath(w, r), Where(w, x);
    AtPrefix(w, t, |c|);
    assert t[..|c|] == c;
    var p := t[|c|..];
    if Root(w, r).Text? {
      assert p == [];
    } else {
      assert p != [];
      PreMember(Root(w, r).kids, p[0], p[1..]);
    }
  }

  // ----- toString -----

  method ToString(w: Node, r: RangeState) returns (s: string)
    requires Distinct(w) && ValidRange(w, r)
    ensures TextOffOf(w, r.startContainer, r.startOffset) <= TextOffOf(w, r.endContainer, r.endOffset) <= |Flat([w])|
    ensures s == Flat([w])[TextOffOf(w, r.startContainer, r.startOffset)..TextOffOf(w, r.endContainer, r.endOffset)]
  {
    var sc := r.startContainer;
    RangeText(w, r);
    if sc == r.endContainer && Get(w, sc).Text? {
      TextContent(w, r);
      return Get(w, sc).data[r.startOffset..r.endOffset];
    }
    var it := new RangeIterator(w, r, true);
    var visited := IterateSubtree(w, it);
    TextsOfSeens(Content(w, r));
    s := Join(visited);
  }

  /** The texts of the visits, collected one by one. */
  method Join(visited: seq<Seen>) returns (s: string)
    ensures s == Texts(visited)
  {
    s := "";
    for i := 0 to |visited|
      invariant s == Texts(visited[..i])
    {
      assert visited[..i + 1] == visited[..i] + [visited[i]];
      TextsConcat(visited[..i], [visited[i]]);
      if visited[i].text.Some? {
        s := s + visited[i].text.value;
      }
    }
    assert visited[..|visited|] == visited;
  }

  lemma TextContent(w: Node, r: RangeState)
    requires Distinct(w) && ValidRange(w, r) && r.startContainer == r.endContainer && Get(w, r.startContainer).Text?
    ensures r.startOffset <= r.endOffset
    ensures Flat(Content(w, r)) == Get(w, r.startContainer).data[r.startOffset..r.endOffset]
  {
    SameTreeCommon(w, r.startContainer, r.endContainer);
    RangeShape(w, r);
  }

  /** The content of a range has the text between the text offsets of its boundaries. */
  lemma RangeText(w: Node, r: RangeState)
    requires Distinct(w) && ValidRange(w, r)
    ensures TextOffOf(w, r.startContainer, r.startOffset) <= TextOffOf(w, r.endContainer, r.endOffset) <= |Flat([w])|
    ensures Flat(Content(w, r))
      == Flat([w])[TextOffOf(w, r.startContainer, r.startOffset)..TextOffOf(w, r.endContainer, r.endOffset)]
  {
    RangeShape(w, r);
    var n, c, p, q := Root(w, r), RootPath(w, r), StartBelow(w, r), EndBelow(w, r);
    RootText(n, p, r.startOffset, q, r.endOffset, Content(w, r), r.collapsed);
    TextBelow(w, c, p, r.startOffset, q, r.endOffset);
  }

  /** A slice of a subtree's text, as a slice of the whole text. */
  lemma TextBelow(w: Node, c: Path, p: Path, so: nat, q: Path, eo: nat)
    requires HasPath(w, c) && ValidPoint(At(w, c), p, so) && ValidPoint(At(w, c), q, eo)
    requires TextOff(At(w, c), p, so) <= TextOff(At(w, c), q, eo) <= |Flat([At(w, c)])|
    ensures ValidPoint(w, c + p, so) && ValidPoint(w, c + q, eo)
    ensures TextOff(w, c + p, so) <= TextOff(w, c + q, eo) <= |Flat([w])|
    ensures Flat([w])[TextOff(w, c + p, so)..TextOff(w, c + q, eo)]
      == Flat([At(w, c)])[TextOff(At(w, c), p, so)..TextOff(At(w, c), q, eo)]
  {
    hide *;
    PointContext(w, c, p, so);
    PointContext(w, c, q, eo);
    FlatContext(w, c);
    SubSlice(Flat([w]), TextOff(w, c, 0), |Flat([At(w, c)])|, TextOff(At(w, c), p, so), TextOff(At(w, c), q, eo));
  }

  lemma RootText(n: Node, p: Path, so: nat, q: Path, eo: nat, content: seq<Node>, collapsed: bool)
    requires ValidPoint(n, p, so) && ValidPoint(n, q, eo)
    requires collapsed ==> p == q && so == eo && content == []
    requires !collapsed && n.Text? ==> p == [] && q == [] && so <= eo && content == [n.(data := n.data[so..eo])]
    requires !collapsed && n.Elem? ==> Spans(n, p, so, q, eo) && content == MidKids(n, p, so, q, eo)
    ensures TextOff(n, p, so) <= TextOff(n, q, eo) <= |Flat([n])|
    ensures Flat(content) == Flat([n])[TextOff(n, p, so)..TextOff(n, q, eo)]
  {
    PosInside(n, q, eo);
    if !collapsed && n.Elem? {
      FlatMid(n, p, so, q, eo);
    }
  }

  lemma SubSlice<T>(t: seq<T>, b: nat, k: nat, x: nat, y: nat)
    requires b + k <= |t| && x <= y <= k
    ensures t[b..][..k][x..y] == t[b + x..b + y]
  {
  }
}

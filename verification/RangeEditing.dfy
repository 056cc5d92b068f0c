/** deleteContents and extractContents: the loops that change the document in place. */
module RangeEditing {
  import opened Wrappers
  import opened Tree
  import opened Positions
  import opened Navigation
  import opened Slices
  import opened Ranges
  import opened RangeIterators
  import opened Documents
  import opened RangeContents
  import opened RangeQueries
  import opened DomRange

  // ----- the boundaries stay in the document -----

  lemma {:induction false} HeadKeeps(n: Node, p: Path, off: nat)
    requires ValidPoint(n, p, off)
    ensures HasPath(Head(n, p, off), p) && At(Head(n, p, off), p).id == At(n, p).id
  {
    if p != [] {
      HeadKeeps(n.kids[p[0]], p[1..], off);
    }
  }

  lemma StillNode(w: Node, v: Node, c: Path, x: Id)
    requires Distinct(w) && IsNode(w, x) && v.id == w.id && HasPath(v, c) && At(v, c).id == x
    ensures IsNode(v, x)
  {
    IdBelow(w, Where(w, x));
    FindComplete(v, c);
  }

  lemma PutRoot(w: Node, c: Path, x: Node)
    requires HasPath(w, c) && c != []
    ensures Put(w, c, x).id == w.id
  {
  }

  /** As long as a stop is left, both containers are in the document. */
  lemma WorldHolds(w: Node, r: RangeState, k: nat)
    requires Distinct(w) && ValidRange(w, r) && k < |Stops(w, r)|
    ensures IsNode(WorldAt(w, r, k), r.startContainer) && IsNode(WorldAt(w, r, k), r.endContainer)
  {
    RangeShape(w, r);
    if k > 0 {
      var v, c := WorldAt(w, r, k), RootPath(w, r);
      WorldKids(w, r, k);
      PutRoot(w, c, At(v, c));
      StartStays(w, r, k);
      EndStays(w, r, k);
    }
  }

  lemma StartStays(w: Node, r: RangeState, k: nat)
    requires Distinct(w) && ValidRange(w, r) && 0 < k < |Stops(w, r)| && WorldAt(w, r, k).id == w.id
    ensures IsNode(WorldAt(w, r, k), r.startContainer)
  {
    RangeShape(w, r);
    WorldKids(w, r, k);
    var v, c, p, lo := WorldAt(w, r, k), RootPath(w, r), StartBelow(w, r), Lo(w, r);
    if p == [] {
      assert c + [] == c;
      StillNode(w, v, c, r.startContainer);
    } else {
      KidLeft(w, r, 0);
      StopsFit(w, r);
      HeadKeeps(Stops(w, r)[0], p[1..], r.startOffset);
      assert Stops(w, r)[..k][0] == Stops(w, r)[0];
      assert KidsAt(w, r, k)[lo] == Head(Stops(w, r)[0], p[1..], r.startOffset);
      AtAppend(w, c, p);
      AtAppend(v, c, [lo] + p[1..]);
      assert ([lo] + p[1..])[1..] == p[1..];
      StillNode(w, v, c + ([lo] + p[1..]), r.startContainer);
    }
  }

  lemma EndStays(w: Node, r: RangeState, k: nat)
    requires Distinct(w) && ValidRange(w, r) && 0 < k < |Stops(w, r)| && WorldAt(w, r, k).id == w.id
    ensures IsNode(WorldAt(w, r, k), r.endContainer)
  {
    RangeShape(w, r);
    WorldKids(w, r, k);
    StopsFit(w, r);
    var v, c, q := WorldAt(w, r, k), RootPath(w, r), EndBelow(w, r);
    if q == [] {
      assert c + [] == c;
      StillNode(w, v, c, r.endContainer);
    } else {
      var i := Lo(w, r) + |Done(w, r, k)| + (q[0] - Lo(w, r) - k);
      assert KidsAt(w, r, k)[i] == Root(w, r).kids[q[0]];
      AtAppend(w, c, q);
      AtAppend(v, c, [i] + q[1..]);
      assert ([i] + q[1..])[1..] == q[1..];
      StillNode(w, v, c + ([i] + q[1..]), r.endContainer);
    }
  }

  // ----- deleteContents -----

  /** A node the iterator has arrived at, standing intact in the document. */
  ghost predicate Reached(d: Document, it: RangeIterator, n: Node)
    reads d, it
  {
    && d.Valid() && it.current == Some(n.id) && (it.single ==> n.Text?)
    && IsNode(d.world, n.id) && Get(d.world, n.id) == n && |Where(d.world, n.id)| > 1
    && IsNode(d.world, it.range.startContainer) && IsNode(d.world, it.range.endContainer)
    && Fits(it.range, n)
  }

  /** The iteration has dealt with k stops. */
  ghost predicate Underway(d: Document, it: RangeIterator, w: Node, stops: seq<Node>, k: nat)
    reads d, it
  {
    && Distinct(w) && ValidRange(w, it.range) && Attached(w, it.range) && stops == Stops(w, it.range) && k <= |stops|
    && d.Valid() && d.world == WorldAt(w, it.range, k) && (it.single ==> Root(w, it.range).Text?)
  }

  lemma Reaches(d: Document, it: RangeIterator, w: Node, stops: seq<Node>, k: nat)
    requires Underway(d, it, w, stops, k) && k < |stops| && it.current == Some(stops[k].id)
    ensures Reached(d, it, stops[k])
    ensures Replaced(d.world, stops[k].id, LeftOver(it.range, stops[k])) == WorldAt(w, it.range, k + 1)
    ensures Standing(d.world, stops, k)
    ensures stops[k].Elem? ==> Root(w, it.range).Elem? && stops[k] in Root(w, it.range).kids
    ensures stops[k].Text? ==>
        stops[k] == Root(w, it.range) || (Root(w, it.range).Elem? && stops[k] in Root(w, it.range).kids)
  {
    WorldStep(w, it.range, k);
    WorldHolds(w, it.range, k);
    WorldStanding(w, it.range, k);
    RangeShape(w, it.range);
    if Root(w, it.range).Elem? {
      assert Root(w, it.range).kids[Lo(w, it.range) + k] == stops[k];
    }
  }

  lemma Stands(d: Document, it: RangeIterator, w: Node, stops: seq<Node>, k: nat)
    requires Underway(d, it, w, stops, k)
    ensures Standing(d.world, stops, k)
  {
    if k < |stops| {
      WorldStanding(w, it.range, k);
    }
  }

  method DeleteSubtree(d: Document, it: RangeIterator)
    requires d.Valid() && it.Ready(d.world) && Attached(d.world, it.range)
    modifies d`world, it
    ensures d.Valid() && d.world == Deleted(old(d.world), it.range)
    decreases Root(d.world, it.range), 2
  {
    ghost var w, stops, k := d.world, Stops(d.world, it.range), 0;
    Stands(d, it, w, stops, 0);
    var node := Arrive(d.world, it, stops, 0);
    while node.Some?
      invariant 0 <= k <= |stops| && Underway(d, it, w, stops, k) && Arrived(it, stops, k, node)
      decreases |stops| - k
    {
      hide Underway;
      DeleteTurn(d, it, w, stops, k);
      k := k + 1;
      Stands(d, it, w, stops, k);
      node := Arrive(d.world, it, stops, k);
    }
    WorldEnd(w, it.range);
  }

  method DeleteTurn(d: Document, it: RangeIterator, ghost w: Node, ghost stops: seq<Node>, ghost k: nat)
    requires Underway(d, it, w, stops, k) && k < |stops| && it.current == Some(stops[k].id)
    modifies d`world
    ensures Underway(d, it, w, stops, k + 1)
    decreases Root(w, it.range), 1
  {
    Reaches(d, it, w, stops, k);
    DeleteStop(d, it, stops[k]);
  }

  /** One turn of the loop: a partially selected element is entered, anything else removed. */
  method DeleteStop(d: Document, it: RangeIterator, ghost n: Node)
    requires Reached(d, it, n)
    modifies d`world
    ensures d.Valid() && d.world == Replaced(old(d.world), n.id, LeftOver(it.range, n))
    decreases n, if n.Elem? then 3 else 0
  {
    BothFound(d.world, it.range, n);
    var partial := it.IsPartiallySelectedSubtree(d.world);
    if partial {
      var sub := it.GetSubtreeIterator(d.world);
      SubDeleted(d.world, it.range, n, sub.range);
      DeleteSubtree(d, sub);
    } else {
      RemoveCurrent(d, it, n);
    }
  }

  lemma BothFound(w: Node, r: RangeState, n: Node)
    requires Distinct(w) && IsNode(w, n.id) && Get(w, n.id) == n && IsNode(w, r.startContainer)
    requires IsNode(w, r.endContainer)
    requires Fits(r, n)
    ensures Holds(w, n.id, r.startContainer) <==> Find(n, r.startContainer).Some?
    ensures Holds(w, n.id, r.endContainer) <==> Find(n, r.endContainer).Some?
    ensures n.Elem? && Holds(w, n.id, r.startContainer) ==> r.startOffset <= Len(Get(w, r.startContainer))
    ensures n.Elem? && Holds(w, n.id, r.endContainer) ==> r.endOffset <= Len(Get(w, r.endContainer))
  {
    HoldsFind(w, n.id, r.startContainer);
    HoldsFind(w, n.id, r.endContainer);
    if Holds(w, n.id, r.startContainer) {
      InsideAt(w, n.id, r.startContainer);
    }
    if Holds(w, n.id, r.endContainer) {
      InsideAt(w, n.id, r.endContainer);
    }
  }

  lemma InsideAt(w: Node, id: Id, x: Id)
    requires IsNode(w, id) && IsNode(w, x) && Holds(w, id, x)
    ensures HasPath(Get(w, id), Inside(w, id, x)) && At(Get(w, id), Inside(w, id, x)) == Get(w, x)
  {
    var c, p := Where(w, id), Where(w, x);
    AtPrefix(w, p, |c|);
    assert p[..|c|] == c;
  }

  /** Deleting the restricted range is leaving what the node keeps. */
  lemma SubDeleted(w: Node, r: RangeState, n: Node, s: RangeState)
    requires Distinct(w) && IsNode(w, n.id) && Get(w, n.id) == n && IsNode(w, r.startContainer)
    requires IsNode(w, r.endContainer)
    requires |Where(w, n.id)| > 1 && Fits(r, n) && n.Elem?
    requires Holds(w, n.id, r.startContainer) || Holds(w, n.id, r.endContainer)
    requires SubRange(w, r, n.id, s)
    ensures Root(w, s) == n && Attached(w, s)
    ensures Deleted(w, s) == Replaced(w, n.id, LeftOver(r, n))
  {
    HoldsFind(w, n.id, r.startContainer);
    HoldsFind(w, n.id, r.endContainer);
    SubShape(w, r, n.id, s);
    RangeShape(w, s);
    DeepAttached(w, n.id, s.startContainer);
    var x := LeftOver(r, n)[0];
    ReplacedOne(w, n.id, x);
    PutSame(w, Where(w, n.id));
    assert n.kids[..|n.kids|] == n.kids && n.kids[0..] == n.kids && n.kids[..0] == [] && n.kids[|n.kids|..] == [];
    if Holds(w, n.id, r.startContainer) {
      assert x == CutNode(n, StartBelow(w, s), s.startOffset, [], |n.kids|);
    } else {
      assert x == CutNode(n, [], 0, EndBelow(w, s), s.endOffset);
    }
  }

  lemma DeepAttached(w: Node, id: Id, x: Id)
    requires IsNode(w, id) && IsNode(w, x) && Holds(w, id, x) && |Where(w, id)| > 1
    ensures At(w, Where(w, x)[..1]).Elem?
  {
    AtPrefix(w, Where(w, x), 1);
  }

  // ----- extractContents -----

  /** Every node of the old world is in exactly one of the new world and the fragment, in the same number;
      nodes made on the way are in the fragment only. */
  ghost predicate Conserved(w: Node, firstId: Id, v: Node, nextId: Id, frag: seq<Node>) {
    firstId <= nextId && forall x: Id :: ConservedAt(w, firstId, v, nextId, frag, x)
  }

  predicate ConservedAt(w: Node, firstId: Id, v: Node, nextId: Id, frag: seq<Node>, x: Id) {
    && (x < firstId ==> Count([v], x) + Count(frag, x) == Count([w], x))
    && (x >= firstId ==> Count([v], x) == 0 && Count(frag, x) <= 1)
    && (x >= nextId ==> Count(frag, x) == 0)
  }

  lemma ConservedNone(d: Document)
    requires d.Valid()
    ensures Conserved(d.world, d.nextId, d.world, d.nextId, [])
  {
    forall x: Id ensures ConservedAt(d.world, d.nextId, d.world, d.nextId, [], x) {
    }
  }

  lemma ConservedMore(w: Node, a: Id, v: Node, b: Id, frag: seq<Node>, u: Node, c: Id, piece: Node)
    requires Conserved(w, a, v, b, frag) && Conserved(v, b, u, c, [piece])
    ensures Conserved(w, a, u, c, frag + [piece])
  {
    forall x: Id ensures ConservedAt(w, a, u, c, frag + [piece], x) {
      assert ConservedAt(w, a, v, b, frag, x) && ConservedAt(v, b, u, c, [piece], x);
      CountConcat(frag, [piece], x);
    }
  }

  /** A copy of an element around an extracted fragment. */
  lemma ConservedElem(w: Node, a: Id, v: Node, b: Id, frag: seq<Node>, tag: Tag)
    requires Conserved(w, a + 1, v, b, frag) && forall x :: x >= a ==> Count([w], x) == 0
    ensures Conserved(w, a, v, b, [Elem(a, tag, frag)])
  {
    forall x: Id ensures ConservedAt(w, a, v, b, [Elem(a, tag, frag)], x) {
      assert ConservedAt(w, a + 1, v, b, frag, x);
      CountElem(Elem(a, tag, frag), x);
    }
  }

  lemma ElemAround(w: Node, a: Id, v: Node, b: Id, inner: seq<Node>, piece: Node, x: Node)
    requires Conserved(w, a + 1, v, b, inner) && forall x :: x >= a ==> Count([w], x) == 0
    requires x.Elem? && piece == Elem(a, x.tag, inner) && Shape(inner) == Shape(x.kids)
    ensures Conserved(w, a, v, b, [piece]) && Shape([piece]) == Shape([x])
  {
    ConservedElem(w, a, v, b, inner, x.tag);
    ShapeElem(piece, x);
  }

  /** A node moved out of the document. */
  lemma ConservedMove(w: Node, a: Id, n: Node)
    requires Distinct(w) && IsNode(w, n.id) && Get(w, n.id) == n && forall x :: x >= a ==> Count([w], x) == 0
    ensures Conserved(w, a, Replaced(w, n.id, []), a, [n])
  {
    forall x: Id ensures ConservedAt(w, a, Replaced(w, n.id, []), a, [n], x) {
      CountReplaced(w, n.id, [], x);
    }
  }

  /** A boundary text node that stays, with a copy of its selected part. */
  lemma ConservedText(w: Node, a: Id, b: Id, n: Node, rest: string, copy: Node)
    requires IsNode(w, n.id) && Get(w, n.id) == n && n.Text? && copy.Text? && a <= copy.id < b
    requires forall x :: x >= a ==> Count([w], x) == 0
    ensures Conserved(w, a, Replaced(w, n.id, [n.(data := rest)]), b, [copy])
  {
    forall x: Id ensures ConservedAt(w, a, Replaced(w, n.id, [n.(data := rest)]), b, [copy], x) {
      CountReplaced(w, n.id, [n.(data := rest)], x);
      assert [copy][1..] == [] && [n][1..] == [] && [n.(data := rest)][1..] == [];
    }
  }

  lemma ShapeElem(n: Node, x: Node)
    requires n.Elem? && x.Elem? && n.tag == x.tag && Shape(n.kids) == Shape(x.kids)
    ensures Shape([n]) == Shape([x])
  {
    assert [n][1..] == [] && [x][1..] == [];
  }

  lemma ShapeText(n: Node, x: Node)
    requires n.Text? && x.Text? && n.data == x.data
    ensures Shape([n]) == Shape([x])
  {
    assert [n][1..] == [] && [x][1..] == [];
  }

  /** What the range covers of a node does not depend on where the node stands. */
  lemma CoveredMoves(w: Node, v: Node, r: RangeState, n: Node, x: Node)
    requires Distinct(w) && IsNode(w, n.id) && Get(w, n.id) == n && IsNode(w, r.startContainer)
    requires IsNode(w, r.endContainer)
    requires Distinct(v) && IsNode(v, n.id) && Get(v, n.id) == n && IsNode(v, r.startContainer)
    requires IsNode(v, r.endContainer)
    requires Covered(w, r, n, x)
    ensures Covered(v, r, n, x)
  {
    HoldsFind(w, n.id, r.startContainer);
    HoldsFind(w, n.id, r.endContainer);
    HoldsFind(v, n.id, r.startContainer);
    HoldsFind(v, n.id, r.endContainer);
  }

  lemma CoveredThere(d: Document, it: RangeIterator, w: Node, stops: seq<Node>, k: nat)
    requires Underway(d, it, w, stops, k) && k < |stops| && it.current == Some(stops[k].id)
    ensures Reached(d, it, stops[k])
    ensures |Content(w, it.range)| == |stops| && Covered(d.world, it.range, stops[k], Content(w, it.range)[k])
  {
    Reaches(d, it, w, stops, k);
    StopAt(w, it.range, k);
    ContentAt(w, it.range, k);
    CoveredMoves(w, d.world, it.range, stops[k], Content(w, it.range)[k]);
  }

  lemma ExtractMore(
    w: Node, a: Id, v: Node, b: Id, frag: seq<Node>, u: Node, c: Id, piece: Node, content: seq<Node>, k: nat)
    requires Conserved(w, a, v, b, frag) && Conserved(v, b, u, c, [piece])
    requires k < |content| && Shape(frag) == Shape(content[..k]) && Shape([piece]) == Shape([content[k]])
    ensures Conserved(w, a, u, c, frag + [piece])
    ensures Shape(frag + [piece]) == Shape(content[..k + 1])
  {
    ConservedMore(w, a, v, b, frag, u, c, piece);
    ShapeConcat(frag, [piece]);
    ShapeConcat(content[..k], [content[k]]);
    assert content[..k + 1] == content[..k] + [content[k]];
  }

  /** The extraction has dealt with k stops. */
  ghost predicate Extracting(d: Document, it: RangeIterator, w: Node, a: Id, stops: seq<Node>, k: nat, frag: seq<Node>)
    reads d, it
  {
    && Underway(d, it, w, stops, k) && it.cloneText
    && Conserved(w, a, d.world, d.nextId, frag)
    && |Content(w, it.range)| == |stops| && Shape(frag) == Shape(Content(w, it.range)[..k])
  }

  method ExtractSubtree(d: Document, it: RangeIterator) returns (frag: seq<Node>)
    requires d.Valid() && it.Ready(d.world) && Attached(d.world, it.range) && it.cloneText
    modifies d, it
    ensures d.Valid() && d.world == Deleted(old(d.world), it.range)
    ensures Shape(frag) == Shape(Content(old(d.world), it.range))
    ensures Conserved(old(d.world), old(d.nextId), d.world, d.nextId, frag)
    decreases Root(d.world, it.range), 3
  {
    ghost var w, r, a, stops := d.world, it.range, d.nextId, Stops(d.world, it.range);
    ghost var k := 0;
    frag := [];
    ExtractingNone(d, it);
    hide Extracting, Shape, Content, Stops, Conserved, Deleted;
    ExtractingStands(d, it, w, a, stops, 0, frag);
    var node := Arrive(d.world, it, stops, 0);
    while node.Some?
      invariant 0 <= k <= |stops| && Extracting(d, it, w, a, stops, k, frag) && Arrived(it, stops, k, node)
      decreases |stops| - k
    {
      frag := ExtractTurn(d, it, node.value, w, a, stops, k, frag);
      k := k + 1;
      ExtractingStands(d, it, w, a, stops, k, frag);
      node := Arrive(d.world, it, stops, k);
    }
    ExtractingDone(d, it, w, a, frag);
  }

  lemma ExtractingNone(d: Document, it: RangeIterator)
    requires d.Valid() && it.Ready(d.world) && Attached(d.world, it.range) && it.cloneText
    ensures Extracting(d, it, d.world, d.nextId, Stops(d.world, it.range), 0, [])
  {
    ContentLength(d.world, it.range);
    ConservedNone(d);
    assert Content(d.world, it.range)[..0] == [];
    Stands(d, it, d.world, Stops(d.world, it.range), 0);
  }

  lemma ExtractingDone(d: Document, it: RangeIterator, w: Node, a: Id, frag: seq<Node>)
    requires Distinct(w) && ValidRange(w, it.range)
    requires Extracting(d, it, w, a, Stops(w, it.range), |Stops(w, it.range)|, frag)
    ensures d.Valid() && d.world == Deleted(w, it.range)
    ensures Shape(frag) == Shape(Content(w, it.range)) && Conserved(w, a, d.world, d.nextId, frag)
  {
    WorldEnd(w, it.range);
    assert Content(w, it.range)[..|Stops(w, it.range)|] == Content(w, it.range);
  }

  lemma ExtractingStands(d: Document, it: RangeIterator, w: Node, a: Id, stops: seq<Node>, k: nat, frag: seq<Node>)
    requires Extracting(d, it, w, a, stops, k, frag)
    ensures Standing(d.world, stops, k)
  {
    Stands(d, it, w, stops, k);
  }

  /** One turn of the loop. */
  method ExtractTurn(d: Document, it: RangeIterator, node: Node,
                     ghost w: Node, ghost a: Id, ghost stops: seq<Node>, ghost k: nat, frag: seq<Node>)
    returns (more: seq<Node>)
    requires k < |stops| && Extracting(d, it, w, a, stops, k, frag) && Arrived(it, stops, k, Some(node))
    modifies d
    ensures Extracting(d, it, w, a, stops, k + 1, more)
    decreases Root(w, it.range), 2
  {
    Reaches(d, it, w, stops, k);
    CoveredThere(d, it, w, stops, k);
    ghost var v, b := d.world, d.nextId;
    var piece := ExtractStop(d, it, node, stops[k], Content(w, it.range)[k]);
    ExtractMore(w, a, v, b, frag, d.world, d.nextId, piece, Content(w, it.range), k);
    more := frag + [piece];
  }

  /** A partially selected element is copied and entered, anything else removed. */
  method ExtractStop(d: Document, it: RangeIterator, node: Node, ghost n: Node, ghost x: Node) returns (piece: Node)
    requires Reached(d, it, n) && it.cloneText && node == Presented(n, it.range, true)
    requires Covered(d.world, it.range, n, x)
    modifies d
    ensures d.Valid() && d.world == Replaced(old(d.world), n.id, LeftOver(it.range, n))
    ensures Shape([piece]) == Shape([x])
    ensures Conserved(old(d.world), old(d.nextId), d.world, d.nextId, [piece])
    decreases n, if n.Elem? then 5 else 1
  {
    BothFound(d.world, it.range, n);
    var partial := it.IsPartiallySelectedSubtree(d.world);
    if partial {
      piece := ExtractPartial(d, it, node, n, x);
    } else {
      piece := TakeWhole(d, it, node, n, x);
    }
  }

  method ExtractPartial(d: Document, it: RangeIterator, node: Node, ghost n: Node, ghost x: Node) returns (piece: Node)
    requires Reached(d, it, n) && it.cloneText && node == n && n.Elem?
    requires Covered(d.world, it.range, n, x)
    requires Holds(d.world, n.id, it.range.startContainer) || Holds(d.world, n.id, it.range.endContainer)
    modifies d
    ensures d.Valid() && d.world == Replaced(old(d.world), n.id, LeftOver(it.range, n))
    ensures Shape([piece]) == Shape([x])
    ensures Conserved(old(d.world), old(d.nextId), d.world, d.nextId, [piece])
    decreases n, 4
  {
    hide Shape, Conserved, Find, Where, Count, Covered, ValidRange, Content, Attached, Deleted, Replaced, LeftOver;
    ghost var w, r, a := d.world, it.range, d.nextId;
    BothFound(w, r, n);
    var id := d.FreshId();
    var sub := it.GetSubtreeIterator(d.world);
    SubDeleted(w, r, n, sub.range);
    SubContent(w, r, n.id, sub.range, x);
    var inner := ExtractSubtree(d, sub);
    piece := Elem(id, node.tag, inner);
    ElemAround(w, a, d.world, d.nextId, inner, piece, x);
  }

  /** What goes into the fragment is the node itself, or a copy of it if part of it stays. */
  method TakeWhole(d: Document, it: RangeIterator, node: Node, ghost n: Node, ghost x: Node) returns (piece: Node)
    requires Reached(d, it, n) && it.cloneText && node == Presented(n, it.range, true)
    requires Covered(d.world, it.range, n, x)
    requires n.Elem? ==> !Holds(d.world, n.id, it.range.startContainer) && !Holds(d.world, n.id, it.range.endContainer)
    modifies d
    ensures d.Valid() && d.world == Replaced(old(d.world), n.id, LeftOver(it.range, n))
    ensures Shape([piece]) == Shape([x])
    ensures Conserved(old(d.world), old(d.nextId), d.world, d.nextId, [piece])
  {
    ghost var w, r, a := d.world, it.range, d.nextId;
    BothFound(w, r, n);
    piece := node;
    if node.Text? && node.id == it.range.endContainer {
      var id := d.FreshId();
      piece := Text(id, node.data);
    }
    if node.Text? && node.id == it.range.startContainer {
      var id := d.FreshId();
      piece := Text(id, node.data);
    }
    RemoveCurrent(d, it, n);
    hide Shape, Conserved;
    if n.Text? {
      ShapeText(piece, x);
    }
    if LeftOver(r, n) == [] {
      ConservedMove(w, a, n);
    } else {
      ConservedText(w, a, d.nextId, n, LeftOver(r, n)[0].data, piece);
    }
  }

  // ----- the whole operations -----

  /** What remains has the text before the start and the text after the end. */
  lemma DeletedText(w: Node, r: RangeState)
    requires Distinct(w) && ValidRange(w, r)
    ensures TextOffOf(w, r.startContainer, r.startOffset) <= TextOffOf(w, r.endContainer, r.endOffset) <= |Flat([w])|
    ensures Flat([Deleted(w, r)])
      == Flat([w])[..TextOffOf(w, r.startContainer, r.startOffset)]
        + Flat([w])[TextOffOf(w, r.endContainer, r.endOffset)..]
  {
    RangeText(w, r);
    if !r.collapsed {
      RangeShape(w, r);
      var n, c, p, q := Root(w, r), RootPath(w, r), StartBelow(w, r), EndBelow(w, r);
      CutText(n, p, r.startOffset, q, r.endOffset);
      CutBelow(w, c, p, r.startOffset, q, r.endOffset, CutRoot(w, r));
    }
  }

  lemma CutBelow(w: Node, c: Path, p: Path, so: nat, q: Path, eo: nat, x: Node)
    requires HasPath(w, c) && ValidPoint(At(w, c), p, so) && ValidPoint(At(w, c), q, eo)
    requires TextOff(At(w, c), p, so) <= |Flat([At(w, c)])| && TextOff(At(w, c), q, eo) <= |Flat([At(w, c)])|
    requires Flat([x]) == Flat([At(w, c)])[..TextOff(At(w, c), p, so)] + Flat([At(w, c)])[TextOff(At(w, c), q, eo)..]
    ensures ValidPoint(w, c + p, so) && ValidPoint(w, c + q, eo)
    ensures TextOff(w, c + p, so) <= |Flat([w])| && TextOff(w, c + q, eo) <= |Flat([w])|
    ensures Flat([Put(w, c, x)]) == Flat([w])[..TextOff(w, c + p, so)] + Flat([w])[TextOff(w, c + q, eo)..]
  {
    hide *;
    PointContext(w, c, p, so);
    PointContext(w, c, q, eo);
    FlatPut(w, c, x);
    FlatContext(w, c);
    OuterCut(Flat([w]), TextOff(w, c, 0), Flat([At(w, c)]), TextOff(At(w, c), p, so), TextOff(At(w, c), q, eo));
  }

  lemma CutText(n: Node, p: Path, so: nat, q: Path, eo: nat)
    requires ValidPoint(n, p, so) && ValidPoint(n, q, eo)
    requires if n.Text? then so <= eo <= |n.data| else Spans(n, p, so, q, eo)
    ensures TextOff(n, p, so) <= |Flat([n])| && TextOff(n, q, eo) <= |Flat([n])|
    ensures Flat([CutNode(n, p, so, q, eo)]) == Flat([n])[..TextOff(n, p, so)] + Flat([n])[TextOff(n, q, eo)..]
  {
    PosInside(n, p, so);
    PosInside(n, q, eo);
    if n.Elem? {
      FlatCut(n, p, so, q, eo);
    }
  }

  lemma OuterCut<T>(t: seq<T>, b: nat, m: seq<T>, x: nat, y: nat)
    requires b + |m| <= |t| && t[b..][..|m|] == m && x <= |m| && y <= |m|
    ensures t[..b] + (m[..x] + m[y..]) + t[b + |m|..] == t[..b + x] + t[b + y..]
  {
    assert t == t[..b] + m + t[b + |m|..];
    SliceConcat(t[..b], m, t[b + |m|..], x);
    SliceConcat(t[..b], m, t[b + |m|..], y);
  }

  /** Where a range is put after its content is gone. */
  method PointAfter(w: Node, r: RangeState) returns (node: Id, offset: nat)
    requires Distinct(w) && ValidRange(w, r)
    ensures node == Root(w, r).id && offset == First(StartBelow(w, r), r.startOffset)
  {
    RangeShape(w, r);
    assert RootPath(w, r) + [] == RootPath(w, r);
    node, offset := r.startContainer, r.startOffset;
    if node != r.commonAncestorContainer {
      ChildIndex(w, RootPath(w, r), Where(w, r.startContainer));
      var child := GetClosestAncestorIn(w, node, r.commonAncestorContainer, true);
      var i := GetNodeIndex(w, child.value);
      ParentAt(w, RootPath(w, r) + [StartBelow(w, r)[0]]);
      assert Front(RootPath(w, r) + [StartBelow(w, r)[0]]) == RootPath(w, r);
      node, offset := ParentNode(w, child.value).value, i + 1;
    }
  }

  /** A point of the old common ancestor: the first one there that is not before the old start. */
  ghost predicate AtCut(w: Node, s: RangeState, node: Id, offset: nat)
    requires ValidRange(w, s)
  {
    && node == s.commonAncestorContainer && IsPoint(w, node, offset)
    && forall o: nat :: IsPoint(w, node, o) ==>
         (o < offset <==> PosOf(w, node, o) < PosOf(w, s.startContainer, s.startOffset))
  }

  lemma CutPoint(w: Node, s: RangeState)
    requires Distinct(w) && ValidRange(w, s)
    ensures AtCut(w, s, Root(w, s).id, First(StartBelow(w, s), s.startOffset))
  {
    RangeShape(w, s);
    var c, p, n, k := RootPath(w, s), StartBelow(w, s), Root(w, s), First(StartBelow(w, s), s.startOffset);
    forall o: nat | IsPoint(w, n.id, o)
      ensures o < k <==> PosOf(w, n.id, o) < PosOf(w, s.startContainer, s.startOffset)
    {
      PointsOrdered(w, s.startContainer, s.startOffset, n.id, o);
      CmpShift(c, p, s.startOffset, [], o);
      assert c + [] == c;
    }
  }

  /** That point is where the content was. */
  lemma PointAfterDeletion(w: Node, r: RangeState)
    requires Distinct(w) && ValidRange(w, r)
    ensures var v, id, o := Deleted(w, r), Root(w, r).id, First(StartBelow(w, r), r.startOffset);
      IsPoint(v, id, o) && TextOffOf(v, id, o) == TextOffOf(w, r.startContainer, r.startOffset)
  {
    hide Flat, Width, Pos, Put;
    RangeShape(w, r);
    var v, c, p, n := Deleted(w, r), RootPath(w, r), StartBelow(w, r), Root(w, r);
    PointContext(w, c, p, r.startOffset);
    DeletedDistinct(w, r);
    if r.collapsed {
      assert p == [] && c + [] == c;
    } else {
      var x := CutRoot(w, r);
      FlatPut(w, c, x);
      AtPut(w, c, x);
      WhereAt(v, c);
      PointContext(v, c, [], First(p, r.startOffset));
      assert c + [] == c;
      if n.Elem? {
        FlatHalves(n, p, r.startOffset);
        FlatElem(Head(n, p, r.startOffset));
        PosInside(n, p, r.startOffset);
        assert x.kids[..First(p, r.startOffset)] == Head(n, p, r.startOffset).kids;
      }
    }
  }

  /** The range's text goes, every other character stays, and the range is left where its content was. */
  method DeleteContents(d: Document, range: Range)
    requires d.Valid() && ValidRange(d.world, range.State()) && Attached(d.world, range.State())
    modifies d`world, range
    ensures d.Valid() && d.world == Deleted(old(d.world), old(range.State()))
    ensures ValidRange(d.world, range.State()) && range.collapsed
    ensures AtCut(old(d.world), old(range.State()), range.startContainer, range.startOffset)
    ensures var w, s := old(d.world), old(range.State());
      TextOffOf(d.world, range.startContainer, range.startOffset) == TextOffOf(w, s.startContainer, s.startOffset)
  {
    ghost var w, s := d.world, range.State();
    var it := new RangeIterator(d.world, range.State(), true);
    var node, offset := PointAfter(d.world, range.State());
    var _ := IterateSubtree(d.world, it);  // no node of the model is read-only, so the check passes
    it.Reset();
    DeleteSubtree(d, it);
    PointAfterDeletion(w, s);
    CutPoint(w, s);
    SelfOrdered(d.world, Boundary(node, offset));
    range.Update(d.world, node, offset, node, offset);
  }

  /** As deleteContents, and the content is handed over: its shape and text are those of the range, and no
      node is lost or doubled. */
  method ExtractContents(d: Document, range: Range) returns (frag: seq<Node>)
    requires d.Valid() && ValidRange(d.world, range.State()) && Attached(d.world, range.State())
    modifies d, range
    ensures d.Valid() && d.world == Deleted(old(d.world), old(range.State()))
    ensures Shape(frag) == Shape(Content(old(d.world), old(range.State())))
    ensures Conserved(old(d.world), old(d.nextId), d.world, d.nextId, frag)
    ensures ValidRange(d.world, range.State()) && range.collapsed
    ensures AtCut(old(d.world), old(range.State()), range.startContainer, range.startOffset)
    ensures var w, s := old(d.world), old(range.State());
      TextOffOf(d.world, range.startContainer, range.startOffset) == TextOffOf(w, s.startContainer, s.startOffset)
  {
    ghost var w, s := d.world, range.State();
    var it := new RangeIterator(d.world, range.State(), true);
    var node, offset := PointAfter(d.world, range.State());
    var _ := IterateSubtree(d.world, it);
    it.Reset();
    frag := ExtractSubtree(d, it);
    PointAfterDeletion(w, s);
    CutPoint(w, s);
    SelfOrdered(d.world, Boundary(node, offset));
    range.Update(d.world, node, offset, node, offset);
  }

  /** The text of the fragment and the text of the remaining document are the old text, cut at the range. */
  lemma ExtractedText(w: Node, r: RangeState, frag: seq<Node>)
    requires Distinct(w) && ValidRange(w, r) && Shape(frag) == Shape(Content(w, r))
    ensures var t, a, b := Flat([w]), TextOffOf(w, r.startContainer, r.startOffset),
        TextOffOf(w, r.endContainer, r.endOffset);
      a <= b <= |t| && Flat(frag) == t[a..b] && Flat([Deleted(w, r)]) == t[..a] + t[b..]
  {
    RangeText(w, r);
    DeletedText(w, r);
    ShapeFlat(frag);
    ShapeFlat(Content(w, r));
  }
}

/** splitBoundaries: neither boundary of the range stays inside a text node. */
module BoundarySplits {
  import opened Wrappers
  import opened Tree
  import opened Positions
  import opened Navigation
  import opened Ranges
  import opened RangeContents
  import opened Documents
  import opened DomRange
  import opened Splitting
  import opened Formatting

  /** Text nodes other than the split one stay as they are. */
  lemma {:induction false} SplitKeepsText(n: Node, t: Path, i: nat, newId: Id, p: Path)
    requires t != [] && HasPath(n, t) && At(n, t).Text? && i <= Len(At(n, t)) && HasPath(n, p) && At(n, p).Text?
    requires p != t
    ensures var m, q := SplitText(n, t, i, newId), Moved(t, i, p, 0).0; HasPath(m, q) && At(m, q) == At(n, p)
  {
    if |t| == 1 {
      SplitTextHere(n, t, i, newId);
      if p[0] == t[0] {
        OnlyKid(n, p);
      }
    } else {
      SplitTextKid(n, t, i, newId);
      if p != [] && p[0] == t[0] {
        assert p == [p[0]] + p[1..] && t == [t[0]] + t[1..];
        SplitKeepsText(n.kids[t[0]], t[1..], i, newId, p[1..]);
      }
    }
  }

  lemma OtherText(w: Node, node: Id, i: nat, newId: Id, x: Id)
    requires Distinct(w) && Splittable(w, node, i) && Distinct(SplitWorld(w, node, i, newId))
    requires IsNode(w, x) && Get(w, x).Text? && x != node
    ensures IsNode(SplitWorld(w, node, i, newId), x) && Get(SplitWorld(w, node, i, newId), x) == Get(w, x)
  {
    var v, t, p := SplitWorld(w, node, i, newId), Where(w, node), Where(w, x);
    SplitKeepsText(w, t, i, newId, p);
    MovedShape(t, i, p, 0);
    WhereAt(v, Moved(t, i, p, 0).0);
  }

  /** An element is still an element. */
  lemma OtherElem(w: Node, node: Id, i: nat, newId: Id, x: Id)
    requires Distinct(w) && Splittable(w, node, i) && Distinct(SplitWorld(w, node, i, newId))
    requires IsNode(w, x) && Get(w, x).Elem?
    ensures IsNode(SplitWorld(w, node, i, newId), x) && Get(SplitWorld(w, node, i, newId), x).Elem?
  {
    var v, t, p := SplitWorld(w, node, i, newId), Where(w, node), Where(w, x);
    SplitKeepsElem(w, t, i, newId, p);
    MovedShape(t, i, p, 0);
    WhereAt(v, Moved(t, i, p, 0).0);
  }

  lemma {:induction false} SplitKeepsElem(n: Node, t: Path, i: nat, newId: Id, p: Path)
    requires t != [] && HasPath(n, t) && At(n, t).Text? && i <= Len(At(n, t)) && HasPath(n, p) && At(n, p).Elem?
    ensures var m, q := SplitText(n, t, i, newId), Moved(t, i, p, 0).0;
      HasPath(m, q) && At(m, q).Elem? && At(m, q).id == At(n, p).id
  {
    if |t| == 1 {
      SplitTextHere(n, t, i, newId);
      if p != [] && p[0] == t[0] {
        OnlyKid(n, p);
      }
    } else {
      SplitTextKid(n, t, i, newId);
      if p != [] && p[0] == t[0] {
        SplitKeepsElem(n.kids[t[0]], t[1..], i, newId, p[1..]);
      }
    }
  }

  /** A point not after a point in a text node does not count that node among the children before it. */
  lemma NotBehind(w: Node, x: Id, off: nat, node: Id, i: nat)
    requires Distinct(w) && IsPoint(w, x, off) && Splittable(w, node, i) && Order(w, x, off, node, i) <= 0
    ensures OffsetAfter(w, node, x, off) == off && !(x == node && off > i)
    ensures PosOf(w, x, off) <= PosOf(w, node, i)
  {
    var t, p := Where(w, node), Where(w, x);
    CmpIsPos(w, p, off, t, i);
    if ParentNode(w, node) == Some(x) {
      ParentAt(w, t);
      AtPrefix(w, t, |t| - 1);
      PathUnique(w, p, Front(t));
      SplitCodes(p, p, off, t, i);
      assert t[|p|..] == [Last(t)];
    } else if x == node {
      SplitCodes(p, p, off, p, i);
    }
  }

  predicate StrictlyInside(w: Node, x: Id, off: nat) {
    IsNode(w, x) && Get(w, x).Text? && 0 < off < Len(Get(w, x))
  }

  /** The end boundary, after its text node was cut there. */
  lemma EndCut(w: Node, s: RangeState, newId: Id)
    requires Distinct(w) && ValidRange(w, s) && Splittable(w, s.endContainer, s.endOffset)
    requires Distinct(SplitWorld(w, s.endContainer, s.endOffset, newId))
    ensures var v := SplitWorld(w, s.endContainer, s.endOffset, newId);
      Carried(w, s.startContainer, s.startOffset, v, s.startContainer, s.startOffset,
        PosOf(w, s.endContainer, s.endOffset))
      && Carried(w, s.endContainer, s.endOffset, v, s.endContainer, s.endOffset, PosOf(w, s.endContainer, s.endOffset))
      && PosOf(v, s.startContainer, s.startOffset) <= PosOf(v, s.endContainer, s.endOffset)
      && Get(v, s.endContainer).Text? && Len(Get(v, s.endContainer)) == s.endOffset
  {
    NotBehind(w, s.startContainer, s.startOffset, s.endContainer, s.endOffset);
    CmpZero(Where(w, s.endContainer), s.endOffset, Where(w, s.endContainer), s.endOffset);
    NotBehind(w, s.endContainer, s.endOffset, s.endContainer, s.endOffset);
    SplitCarries(w, s.endContainer, s.endOffset, newId, s.startContainer, s.startOffset);
    SplitCarries(w, s.endContainer, s.endOffset, newId, s.endContainer, s.endOffset);
    SplitHalves(w, s.endContainer, s.endOffset, newId);
  }

  /** The end boundary as splitBoundaries recomputes it after the start's text node was cut. */
  function EndAfter(w: Node, sc: Id, so: nat, newId: Id, ec: Id, eo: nat): Boundary
    requires IsNode(w, sc)
  {
    if sc == ec then Boundary(newId, if eo > so then eo - so else 0) else Boundary(ec, OffsetAfter(w, sc, ec, eo))
  }

  lemma StartCut(w: Node, sc: Id, so: nat, ec: Id, eo: nat, newId: Id)
    requires Distinct(w) && Splittable(w, sc, so) && IsPoint(w, ec, eo) && Distinct(SplitWorld(w, sc, so, newId))
    requires PosOf(w, sc, so) < PosOf(w, ec, eo)
    ensures sc == ec ==> so < eo
    ensures var v, b := SplitWorld(w, sc, so, newId), EndAfter(w, sc, so, newId, ec, eo);
      && IsPoint(v, newId, 0) && TextOffOf(v, newId, 0) == TextOffOf(w, sc, so)
      && Where(v, newId)[0] == Where(w, sc)[0]
      && Carried(w, ec, eo, v, b.node, b.offset, PosOf(w, sc, so))
      && PosOf(v, newId, 0) < PosOf(v, b.node, b.offset)
  {
    SplitHalves(w, sc, so, newId);
    ParentAt(w, Where(w, sc));
    if sc == ec {
      CmpIsPos(w, Where(w, sc), so, Where(w, sc), eo);
      SplitCodes(Where(w, sc), Where(w, sc), so, Where(w, sc), eo);
    }
    SplitCarries(w, sc, so, newId, ec, eo);
  }

  /** The start at the end of a non-empty text node, or the end at the start of one. */
  predicate StartAtEnd(w: Node, s: RangeState)
    requires ValidRange(w, s)
  {
    var n := Get(w, s.startContainer);
    n.Text? && s.startOffset == Len(n) > 0
  }

  predicate EndAtStart(w: Node, s: RangeState)
    requires ValidRange(w, s)
  {
    var n := Get(w, s.endContainer);
    n.Text? && s.endOffset == 0 < Len(n)
  }

  /** How the boundaries of a range that is not collapsed end up: at the front of a text node and at the
      back of one, unless they were at the wrong end before. */
  predicate StartClear(w: Node, s: RangeState, v: Node, sc: Id, so: nat)
    requires ValidRange(w, s) && IsNode(v, sc)
  {
    && !StrictlyInside(v, sc, so) && Get(v, sc).Text? == Get(w, s.startContainer).Text?
    && (!s.collapsed ==> (Get(v, sc).Text? && so > 0 <==> StartAtEnd(w, s)))
    && (!s.collapsed && StartAtEnd(w, s) ==> Boundary(sc, so) == Start(s) && Get(v, sc) == Get(w, sc))
  }

  predicate EndClear(w: Node, s: RangeState, v: Node, ec: Id, eo: nat)
    requires ValidRange(w, s) && IsNode(v, ec)
  {
    && !StrictlyInside(v, ec, eo) && Get(v, ec).Text? == Get(w, s.endContainer).Text?
    && (!s.collapsed ==> (Get(v, ec).Text? && eo < Len(Get(v, ec)) <==> EndAtStart(w, s)))
    && (!s.collapsed && EndAtStart(w, s) ==> Boundary(ec, eo) == End(s) && Get(v, ec) == Get(w, ec))
  }

  /** A changed document with the same text and the same status of every character. */
  ghost predicate SameContent(w: Node, v: Node) {
    && Flat([v]) == Flat([w]) && SameTop(w, v)
    && forall ap: Applier :: Status(ap, [v], false) == Status(ap, [w], false)
  }

  lemma SplitContent(w: Node, node: Id, i: nat, newId: Id)
    requires Distinct(w) && Splittable(w, node, i) && Distinct(SplitWorld(w, node, i, newId))
    ensures SameContent(w, SplitWorld(w, node, i, newId))
  {
    var t := Where(w, node);
    var f, j, x := Front(t), Last(t), Get(w, node);
    var x1, x2 := Text(x.id, x.data[..i]), Text(newId, x.data[i..]);
    SplitHalves(w, node, i, newId);
    ParentAt(w, t);
    AtPrefix(w, t, |f|);
    assert t == f + [j];
    AtAppend(w, f, [j]);
    var n := At(w, f);
    var m := Splice(n, j, [x1, x2]);
    PutRootTag(w, f, m);
    forall ap: Applier ensures Status(ap, [SplitWorld(w, node, i, newId)], false) == Status(ap, [w], false) {
      var inh := Inherits(ap, w, f, false);
      StatusPair(ap, n, j, x1, x2, inh);
      StatusPut(ap, w, f, m, false);
      StatusContext(ap, w, f, false);
      StatusLength(ap, [n], inh);
      Unmoved(Status(ap, [w], false), TextOff(w, f, 0), |Flat([n])|, Status(ap, [m], inh));
    }
  }

  lemma Unmoved<T>(s: seq<T>, i: nat, k: nat, x: seq<T>)
    requires i + k <= |s| && s[i..][..k] == x
    ensures s[..i] + x + s[i + k..] == s
  {
  }

  lemma StatusPair(ap: Applier, n: Node, j: nat, x1: Node, x2: Node, inherited: bool)
    requires n.Elem? && j < |n.kids| && n.kids[j].Text? && x1.Text? && x2.Text? && Len(x1) + Len(x2) == Len(n.kids[j])
    ensures Status(ap, [Splice(n, j, [x1, x2])], inherited) == Status(ap, [n], inherited)
  {
    hide Status;
    var inh := inherited || Accepts(ap, n.tag);
    StatusSplit(ap, n.kids, j, inh);
    StatusOne(ap, n, inherited);
    StatusOne(ap, Splice(n, j, [x1, x2]), inherited);
    StatusOne(ap, n.kids[j], inh);
    StatusOne(ap, x1, inh);
    StatusOne(ap, x2, inh);
    StatusConcat(ap, n.kids[..j] + [x1, x2], n.kids[j + 1..], inh);
    StatusConcat(ap, n.kids[..j], [x1, x2], inh);
    assert [x1, x2] == [x1] + [x2];
    StatusConcat(ap, [x1], [x2], inh);
    assert Const(Len(x1), inh) + Const(Len(x2), inh) == Const(Len(n.kids[j]), inh);
  }

  lemma SameTrans(w: Node, v: Node, u: Node)
    requires SameContent(w, v) && SameContent(v, u)
    ensures SameContent(w, u)
  {
    forall ap: Applier ensures Status(ap, [u], false) == Status(ap, [w], false) {
      assert Status(ap, [v], false) == Status(ap, [w], false);
    }
  }

  /** The boundaries in a changed document still mark the same text, in order. */
  ghost predicate Marks(w: Node, s: RangeState, v: Node, sc: Id, so: nat, ec: Id, eo: nat)
    requires ValidRange(w, s)
  {
    && IsPoint(v, sc, so) && IsPoint(v, ec, eo) && PosOf(v, sc, so) <= PosOf(v, ec, eo)
    && (PosOf(v, sc, so) == PosOf(v, ec, eo) <==> s.collapsed)
    && TextOffOf(v, sc, so) == TextOffOf(w, s.startContainer, s.startOffset)
    && TextOffOf(v, ec, eo) == TextOffOf(w, s.endContainer, s.endOffset)
    && Where(v, sc)[0] == Where(v, ec)[0] == Where(w, s.startContainer)[0]
    && SameContent(w, v)
  }

  /** The start container before its own split. */
  predicate StartReady(w: Node, s: RangeState, v: Node)
    requires ValidRange(w, s)
  {
    var sc := s.startContainer;
    && IsNode(v, sc) && Get(v, sc).Text? == Get(w, sc).Text?
    && (Get(v, sc).Text? ==> ParentNode(v, sc).Some?)
    && (Get(v, sc).Text? ==> Get(v, sc) == Get(w, sc) || (sc == s.endContainer && Len(Get(v, sc)) == s.endOffset))
  }

  method CutEnd(d: Document, s: RangeState)
    requires d.Valid() && ValidRange(d.world, s) && Attached(d.world, s)
    modifies d
    ensures d.Valid() && Marks(old(d.world), s, d.world, s.startContainer, s.startOffset, s.endContainer, s.endOffset)
    ensures StartReady(old(d.world), s, d.world) && EndClear(old(d.world), s, d.world, s.endContainer, s.endOffset)
    ensures s.startContainer == s.endContainer && Get(d.world, s.endContainer).Text? && s.endOffset > 0
      ==> Len(Get(d.world, s.endContainer)) == s.endOffset
    ensures !StrictlyInside(old(d.world), s.endContainer, s.endOffset) ==> d.world == old(d.world)
    ensures d.nextId == old(d.nextId) + (if StrictlyInside(old(d.world), s.endContainer, s.endOffset) then 1 else 0)
  {
    ghost var w := d.world;
    TextHasParent(w, s, s.startContainer);
    TextHasParent(w, s, s.endContainer);
    PointsOrdered(w, s.startContainer, s.startOffset, s.endContainer, s.endOffset);
    var ec, eo := s.endContainer, s.endOffset;
    if Get(d.world, ec).Text? && eo > 0 && eo < Len(Get(d.world, ec)) {
      var end := SplitDataNode(d, ec, eo);
      EndCut(w, s, end);
      SplitHalves(w, ec, eo, end);
      AfterEndCut(w, s, end);
      SplitContent(w, ec, eo, end);
    }
  }

  /** What is known between the two splits. */
  ghost predicate EndIsCut(w: Node, s: RangeState, v: Node)
    requires ValidRange(w, s)
  {
    && Marks(w, s, v, s.startContainer, s.startOffset, s.endContainer, s.endOffset)
    && StartReady(w, s, v) && EndClear(w, s, v, s.endContainer, s.endOffset)
    && (s.startContainer == s.endContainer && Get(v, s.endContainer).Text? && s.endOffset > 0
        ==> Len(Get(v, s.endContainer)) == s.endOffset)
  }

  /** Both boundaries after the start's text node was cut. */
  ghost predicate BothCut(w: Node, s: RangeState, u: Node, sc: Id, so: nat, ec: Id, eo: nat)
    requires ValidRange(w, s)
  {
    Marks(w, s, u, sc, so, ec, eo) && StartClear(w, s, u, sc, so) && EndClear(w, s, u, ec, eo)
  }

  method CutStart(d: Document, ghost w: Node, s: RangeState) returns (sc: Id, so: nat, ec: Id, eo: nat)
    requires d.Valid() && ValidRange(w, s) && EndIsCut(w, s, d.world)
    modifies d
    ensures d.Valid() && BothCut(w, s, d.world, sc, so, ec, eo)
    ensures !StrictlyInside(old(d.world), s.startContainer, s.startOffset) ==> d.world == old(d.world)
    ensures !StrictlyInside(old(d.world), s.startContainer, s.startOffset) ==>
      Boundary(sc, so) == Start(s) && Boundary(ec, eo) == End(s)
    ensures d.nextId == old(d.nextId) + (if StrictlyInside(old(d.world), s.startContainer, s.startOffset) then 1 else 0)
  {
    sc, so, ec, eo := s.startContainer, s.startOffset, s.endContainer, s.endOffset;
    if Get(d.world, sc).Text? && so > 0 && so < Len(Get(d.world, sc)) {
      sc, so, ec, eo := SplitStart(d, w, s);
    } else {
      SameOffsets(d.world, sc, so, ec, eo);
    }
  }

  /** The start strictly inside its text node: the second half is the new start container, and an end in the
      node or behind it among its siblings moves. */
  method SplitStart(d: Document, ghost w: Node, s: RangeState) returns (sc: Id, so: nat, ec: Id, eo: nat)
    requires d.Valid() && ValidRange(w, s) && EndIsCut(w, s, d.world)
    requires StrictlyInside(d.world, s.startContainer, s.startOffset)
    modifies d
    ensures d.Valid() && BothCut(w, s, d.world, sc, so, ec, eo) && d.nextId == old(d.nextId) + 1
  {
    ghost var v := d.world;
    sc, so, ec, eo := s.startContainer, s.startOffset, s.endContainer, s.endOffset;
    var start := SplitDataNode(d, sc, so);
    StartIsCut(w, s, v, start);
    hide BothCut, EndIsCut;
    if sc == ec {
      eo := eo - so;
      ec := start;
    } else {
      var i := GetNodeIndex(d.world, start);
      if ParentNode(d.world, start) == Some(ec) && eo >= i {
        eo := eo + 1;
      }
    }
    sc := start;
    so := 0;
  }

  /** The end as the program finds it in the changed tree. */
  function EndFound(u: Node, s: RangeState, start: Id): Boundary
    requires IsNode(u, start)
  {
    if s.startContainer == s.endContainer then
      Boundary(start, if s.endOffset >= s.startOffset then s.endOffset - s.startOffset else 0)
    else if ParentNode(u, start) == Some(s.endContainer) && s.endOffset >= Index(u, start) then
      Boundary(s.endContainer, s.endOffset + 1)
    else End(s)
  }

  lemma StartIsCut(w: Node, s: RangeState, v: Node, start: Id)
    requires ValidRange(w, s) && Distinct(v) && EndIsCut(w, s, v) && StrictlyInside(v, s.startContainer, s.startOffset)
    requires Distinct(SplitWorld(v, s.startContainer, s.startOffset, start))
    ensures s.startContainer == s.endContainer ==> s.startOffset <= s.endOffset
    ensures IsNode(SplitWorld(v, s.startContainer, s.startOffset, start), start)
    ensures var u := SplitWorld(v, s.startContainer, s.startOffset, start);
      var b := EndFound(u, s, start);
      BothCut(w, s, u, start, 0, b.node, b.offset)
  {
    hide Marks, StartClear, EndClear, EndFound;
    StartIsMarked(w, s, v, start);
    StartIsClear(w, s, v, start);
  }

  lemma EndFoundThere(v: Node, s: RangeState, start: Id)
    requires Distinct(v) && StrictlyInside(v, s.startContainer, s.startOffset)
    requires Splittable(v, s.startContainer, s.startOffset)
    requires Distinct(SplitWorld(v, s.startContainer, s.startOffset, start))
    ensures var u := SplitWorld(v, s.startContainer, s.startOffset, start);
      IsNode(u, start)
      && EndFound(u, s, start) == EndAfter(v, s.startContainer, s.startOffset, start, s.endContainer, s.endOffset)
  {
    SplitHalves(v, s.startContainer, s.startOffset, start);
  }

  lemma StartIsMarked(w: Node, s: RangeState, v: Node, start: Id)
    requires ValidRange(w, s) && Distinct(v) && EndIsCut(w, s, v) && StrictlyInside(v, s.startContainer, s.startOffset)
    requires Distinct(SplitWorld(v, s.startContainer, s.startOffset, start))
    ensures s.startContainer == s.endContainer ==> s.startOffset <= s.endOffset
    ensures IsNode(SplitWorld(v, s.startContainer, s.startOffset, start), start)
    ensures var u := SplitWorld(v, s.startContainer, s.startOffset, start);
      var b := EndFound(u, s, start);
      Marks(w, s, u, start, 0, b.node, b.offset)
  {
    hide StartClear, EndClear, SplitWorld, SameContent, EndFound, EndAfter, ParentNode, Index, ValidRange;
    var sc, so, ec, eo := s.startContainer, s.startOffset, s.endContainer, s.endOffset;
    SameOffsets(v, sc, so, ec, eo);
    EndBeyond(v, sc, so, ec, eo);
    StartCut(v, sc, so, ec, eo, start);
    EndFoundThere(v, s, start);
    SplitContent(v, sc, so, start);
    SameTrans(w, v, SplitWorld(v, sc, so, start));
  }

  lemma ParentIsElem(w: Node, x: Id)
    requires Distinct(w) && IsNode(w, x)
    ensures forall y: Id :: IsNode(w, y) && ParentNode(w, x) == Some(y) ==> Get(w, y).Elem?
  {
    var p := Where(w, x);
    ParentAt(w, p);
    if |p| > 1 {
      AtPrefix(w, p, |p| - 1);
      WhereAt(w, Front(p));
    }
  }

  lemma StartIsClear(w: Node, s: RangeState, v: Node, start: Id)
    requires ValidRange(w, s) && Distinct(v) && EndIsCut(w, s, v) && StrictlyInside(v, s.startContainer, s.startOffset)
    requires Distinct(SplitWorld(v, s.startContainer, s.startOffset, start))
    requires IsNode(SplitWorld(v, s.startContainer, s.startOffset, start), start)
    ensures var u := SplitWorld(v, s.startContainer, s.startOffset, start);
      var b := EndFound(u, s, start);
      IsNode(u, b.node) && StartClear(w, s, u, start, 0) && EndClear(w, s, u, b.node, b.offset)
  {
    hide SplitWorld, SameContent, PosOf, TextOffOf, ParentNode, Index, Order, CommonAncestor;
    var sc, so, ec, eo := s.startContainer, s.startOffset, s.endContainer, s.endOffset;
    SameOffsets(v, sc, so, ec, eo);
    EndBeyond(v, sc, so, ec, eo);
    SplitHalves(v, sc, so, start);
    ParentIsElem(SplitWorld(v, sc, so, start), start);
    if sc != ec {
      AfterStartCut(v, sc, so, ec, eo, start);
    }
  }

  lemma EndBeyond(v: Node, sc: Id, so: nat, ec: Id, eo: nat)
    requires Distinct(v) && IsPoint(v, sc, so) && IsPoint(v, ec, eo) && PosOf(v, sc, so) <= PosOf(v, ec, eo)
    requires sc == ec && eo > 0 ==> Get(v, sc).Text? && Len(Get(v, sc)) == eo
    requires Get(v, sc).Text? && 0 < so < Len(Get(v, sc))
    ensures PosOf(v, sc, so) < PosOf(v, ec, eo)
  {
    PointsOrdered(v, sc, so, ec, eo);
  }

  lemma SameOffsets(v: Node, sc: Id, so: nat, ec: Id, eo: nat)
    requires Distinct(v) && IsPoint(v, sc, so) && IsPoint(v, ec, eo) && PosOf(v, sc, so) <= PosOf(v, ec, eo)
    ensures sc == ec ==> so <= eo
  {
    if sc == ec {
      CmpIsPos(v, Where(v, sc), so, Where(v, sc), eo);
      SplitCodes(Where(v, sc), Where(v, sc), so, Where(v, sc), eo);
    }
  }

  /** No boundary lies strictly inside a text node. */
  predicate Unsplit(w: Node, s: RangeState) {
    !StrictlyInside(w, s.startContainer, s.startOffset) && !StrictlyInside(w, s.endContainer, s.endOffset)
  }

  /** How many texts are split: one for every boundary strictly inside a text, but only one for a caret. */
  function Cuts(w: Node, s: RangeState): nat {
    (if StrictlyInside(w, s.endContainer, s.endOffset) then 1 else 0)
    + (if StrictlyInside(w, s.startContainer, s.startOffset) && Start(s) != End(s) then 1 else 0)
  }

  lemma SecondCut(w: Node, s: RangeState, v: Node)
    requires ValidRange(w, s) && Distinct(v) && EndIsCut(w, s, v)
    ensures StrictlyInside(v, s.startContainer, s.startOffset)
      <==> StrictlyInside(w, s.startContainer, s.startOffset) && Start(s) != End(s)
  {
    SameOffsets(v, s.startContainer, s.startOffset, s.endContainer, s.endOffset);
  }

  method SplitBoundaries(d: Document, range: Range)
    requires d.Valid() && ValidRange(d.world, range.State()) && Attached(d.world, range.State())
    modifies d, range
    ensures d.Valid() && ValidRange(d.world, range.State())
    ensures Marks(old(d.world), old(range.State()), d.world,
      range.startContainer, range.startOffset, range.endContainer, range.endOffset)
    ensures StartClear(old(d.world), old(range.State()), d.world, range.startContainer, range.startOffset)
    ensures EndClear(old(d.world), old(range.State()), d.world, range.endContainer, range.endOffset)
    ensures Unsplit(old(d.world), old(range.State())) ==> d.world == old(d.world) && range.State() == old(range.State())
    ensures d.nextId == old(d.nextId) + Cuts(old(d.world), old(range.State()))
  {
    ghost var w, s := d.world, range.State();
    CutEnd(d, range.State());
    SecondCut(w, s, d.world);
    var sc, so, ec, eo := CutStart(d, w, range.State());
    PointsOrdered(d.world, sc, so, ec, eo);
    range.Update(d.world, sc, so, ec, eo);
    if Unsplit(w, s) {
      StateUnique(w, s, range.State());
    }
  }

  lemma TextHasParent(w: Node, s: RangeState, x: Id)
    requires Distinct(w) && ValidRange(w, s) && Attached(w, s) && IsNode(w, x) && SameTree(w, s.startContainer, x)
    ensures Get(w, x).Text? ==> ParentNode(w, x).Some?
  {
    var p := Where(w, x);
    ParentAt(w, p);
    assert p[..1] == [p[0]] && Where(w, s.startContainer)[..1] == [p[0]];
    assert |p| == 1 ==> p == p[..1];
  }

  /** What is known about the start container when the end has been cut. */
  lemma AfterEndCut(w: Node, s: RangeState, newId: Id)
    requires Distinct(w) && ValidRange(w, s) && Attached(w, s) && Splittable(w, s.endContainer, s.endOffset)
    requires Distinct(SplitWorld(w, s.endContainer, s.endOffset, newId))
    ensures var v := SplitWorld(w, s.endContainer, s.endOffset, newId);
      && IsNode(v, s.startContainer) && Get(v, s.startContainer).Text? == Get(w, s.startContainer).Text?
      && (Get(v, s.startContainer).Text? && s.startContainer != s.endContainer ==>
        Get(v, s.startContainer) == Get(w, s.startContainer))
      && (Get(v, s.startContainer).Text? ==> ParentNode(v, s.startContainer).Some?)
  {
    var v := SplitWorld(w, s.endContainer, s.endOffset, newId);
    SplitHalves(w, s.endContainer, s.endOffset, newId);
    EndCut(w, s, newId);
    if Get(w, s.startContainer).Elem? {
      OtherElem(w, s.endContainer, s.endOffset, newId, s.startContainer);
    } else if s.startContainer != s.endContainer {
      OtherText(w, s.endContainer, s.endOffset, newId, s.startContainer);
      TextHasParent(w, s, s.startContainer);
      var t, p := Where(w, s.endContainer), Where(w, s.startContainer);
      MovedShape(t, s.endOffset, p, 0);
      SplitKeepsText(w, t, s.endOffset, newId, p);
      WhereAt(v, Moved(t, s.endOffset, p, 0).0);
      ParentAt(v, Where(v, s.startContainer));
      ParentAt(w, p);
    }
  }

  lemma AfterStartCut(w: Node, sc: Id, so: nat, ec: Id, eo: nat, newId: Id)
    requires Distinct(w) && Splittable(w, sc, so) && IsPoint(w, ec, eo) && Distinct(SplitWorld(w, sc, so, newId))
    requires sc != ec
    ensures var v := SplitWorld(w, sc, so, newId);
      && IsNode(v, ec) && Get(v, ec).Text? == Get(w, ec).Text?
      && (Get(v, ec).Text? ==> Get(v, ec) == Get(w, ec))
  {
    if Get(w, ec).Elem? {
      OtherElem(w, sc, so, newId, ec);
    } else {
      OtherText(w, sc, so, newId, ec);
    }
  }
}

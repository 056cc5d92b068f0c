/** The state of a range: two boundary points and the two values cached about them. */
module Ranges {
  import opened Wrappers
  import opened Tree
  import opened Positions
  import opened Navigation
  import opened Slices

  datatype RangeState = RangeState(
    startContainer: Id, startOffset: nat, endContainer: Id, endOffset: nat,
    collapsed: bool, commonAncestorContainer: Id)

  /** A point given by node and offset lies in the world. */
  predicate IsPoint(w: Node, node: Id, offset: nat) {
    IsNode(w, node) && offset <= Len(Get(w, node))
  }

  /** How much of the written-out world precedes a point. */
  function PosOf(w: Node, node: Id, offset: nat): nat
    requires IsPoint(w, node, offset)
  {
    Pos(w, Where(w, node), offset)
  }

  function TextOffOf(w: Node, node: Id, offset: nat): nat
    requires IsPoint(w, node, offset)
  {
    TextOff(w, Where(w, node), offset)
  }

  /** The order of points is the order of their positions, and no two points have the same. */
  lemma PointsOrdered(w: Node, a: Id, x: nat, b: Id, y: nat)
    requires Distinct(w) && IsPoint(w, a, x) && IsPoint(w, b, y)
    ensures Order(w, a, x, b, y) <= 0 <==> PosOf(w, a, x) <= PosOf(w, b, y)
    ensures PosOf(w, a, x) == PosOf(w, b, y) ==> a == b && x == y
  {
    CmpIsPos(w, Where(w, a), x, Where(w, b), y);
    CmpZero(Where(w, a), x, Where(w, b), y);
  }

  /** Both boundaries are points of one tree, the start is not after the end, and the cached values are right. */
  predicate ValidRange(w: Node, r: RangeState) {
    && IsPoint(w, r.startContainer, r.startOffset) && IsPoint(w, r.endContainer, r.endOffset)
    && SameTree(w, r.startContainer, r.endContainer)
    && Order(w, r.startContainer, r.startOffset, r.endContainer, r.endOffset) <= 0
    && r.collapsed == (r.startContainer == r.endContainer && r.startOffset == r.endOffset)
    && CommonAncestor(w, r.startContainer, r.endContainer) == Some(r.commonAncestorContainer)
  }

  /** All nodes of a tree have the same owner document. */
  ghost predicate TreesOwned(w: Node, ownerDocument: Id -> Id) {
    forall a: Id, b: Id :: IsNode(w, a) && IsNode(w, b) && SameTree(w, a, b) ==> ownerDocument(a) == ownerDocument(b)
  }

  /** updateBoundaries and updateCollapsedAndCommonAncestor. */
  method UpdateBoundaries(w: Node, sc: Id, so: nat, ec: Id, eo: nat) returns (r: RangeState)
    requires Distinct(w) && IsPoint(w, sc, so) && IsPoint(w, ec, eo) && SameTree(w, sc, ec)
    ensures r == RangeState(sc, so, ec, eo, sc == ec && so == eo, r.commonAncestorContainer)
    ensures CommonAncestor(w, sc, ec) == Some(r.commonAncestorContainer)
    ensures Order(w, sc, so, ec, eo) <= 0 ==> ValidRange(w, r)
  {
    SameTreeCommon(w, sc, ec);
    var collapsed := sc == ec && so == eo;
    var common := sc;
    if !collapsed {
      var c := GetCommonAncestor(w, sc, ec);
      common := c.value;
    }
    r := RangeState(sc, so, ec, eo, collapsed, common);
  }

  lemma SameTreeCommon(w: Node, a: Id, b: Id)
    requires Distinct(w) && IsNode(w, a) && IsNode(w, b) && SameTree(w, a, b)
    ensures CommonAncestor(w, a, b).Some?
    ensures a == b ==> CommonAncestor(w, a, b) == Some(a)
  {
    var p, q := Where(w, a), Where(w, b);
    PrefixCommon([p[0]], p, q);
    if a == b {
      PrefixCommon(p, p, q);
      assert CommonPrefix(p, q) == p;
    }
  }

  // ----- the range below its common ancestor -----

  function RootPath(w: Node, r: RangeState): Path
    requires ValidRange(w, r)
  {
    CommonPrefix(Where(w, r.startContainer), Where(w, r.endContainer))
  }

  /** The start container as seen from the common ancestor. */
  function StartBelow(w: Node, r: RangeState): Path
    requires ValidRange(w, r)
  {
    Where(w, r.startContainer)[|RootPath(w, r)|..]
  }

  function EndBelow(w: Node, r: RangeState): Path
    requires ValidRange(w, r)
  {
    Where(w, r.endContainer)[|RootPath(w, r)|..]
  }

  function Root(w: Node, r: RangeState): Node
    requires ValidRange(w, r)
  {
    AtPrefix(w, Where(w, r.startContainer), |RootPath(w, r)|);
    assert RootPath(w, r) == Where(w, r.startContainer)[..|RootPath(w, r)|];
    At(w, RootPath(w, r))
  }

  /** The index of the first child of the common ancestor that the range reaches into. */
  function Lo(w: Node, r: RangeState): nat
    requires ValidRange(w, r)
  {
    Limit(StartBelow(w, r), r.startOffset)
  }

  /** One past the index of the last such child. */
  function Hi(w: Node, r: RangeState): nat
    requires ValidRange(w, r)
  {
    First(EndBelow(w, r), r.endOffset)
  }

  /** Below the common ancestor the range is either inside one text node or between two points that part there. */
  lemma RangeShape(w: Node, r: RangeState)
    requires Distinct(w) && ValidRange(w, r)
    ensures var c, p, q, n := RootPath(w, r), StartBelow(w, r), EndBelow(w, r), Root(w, r);
      && c != [] && HasPath(w, c) && n == At(w, c) && n.id == r.commonAncestorContainer && IsNode(w, n.id)
        && Where(w, n.id) == c
      && Where(w, r.startContainer) == c + p && Where(w, r.endContainer) == c + q
      && ValidPoint(n, p, r.startOffset) && ValidPoint(n, q, r.endOffset)
      && (n.Text? ==> p == [] && q == [] && r.startOffset <= r.endOffset)
      && (n.Elem? ==> Spans(n, p, r.startOffset, q, r.endOffset))
      && (!r.collapsed && n.Elem? ==> Lo(w, r) < Hi(w, r) <= |n.kids|)
  {
    var s, e := Where(w, r.startContainer), Where(w, r.endContainer);
    var c, p, q := RootPath(w, r), StartBelow(w, r), EndBelow(w, r);
    var n := Root(w, r);
    SameTreeCommon(w, r.startContainer, r.endContainer);
    AtPrefix(w, s, |c|);
    AtPrefix(w, e, |c|);
    assert s == c + p && e == c + q && s[..|c|] == c && e[..|c|] == c;
    AtAppend(w, c, p);
    AtAppend(w, c, q);
    WhereAt(w, c);
    SplitCodes(c, s, r.startOffset, e, r.endOffset);
    PartedOrder(p, r.startOffset, q, r.endOffset);
    if p == [] && q == [] {
      PathUnique(w, s, e);
    }
  }

  /** What the order of two points says about the children they lie in. */
  lemma PartedOrder(p: Path, so: nat, q: Path, eo: nat)
    requires p == [] || q == [] || p[0] != q[0]
    requires Cmp(Code(p, so), Code(q, eo)) <= 0
    ensures First(p, so) <= Limit(q, eo)
    ensures Limit(p, so) < First(q, eo) || (p == [] && q == [] && so == eo)
  {
  }
}

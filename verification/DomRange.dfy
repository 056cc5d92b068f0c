/** The range object over an unchanging document: its setters, and intersection and union of ranges. */
module DomRange {
  import opened Wrappers
  import opened Tree
  import opened Positions
  import opened Navigation
  import opened Slices
  import opened Ranges

  // ----- specification: one call as a function of the range's state -----

  /** A boundary in terms of node and offset. */
  datatype Boundary = Boundary(node: Id, offset: nat)

  datatype Op =
    | SetStart(node: Id, offset: nat)
    | SetEnd(node: Id, offset: nat)
    | SetStartBefore(node: Id)
    | SetStartAfter(node: Id)
    | SetEndBefore(node: Id)
    | SetEndAfter(node: Id)
    | Collapse(toStart: bool)
    | SelectNode(node: Id)
    | SelectNodeContents(node: Id)
    | CollapseToPoint(node: Id, offset: nat)

  function Beside(node: Id, isBefore: bool, isStart: bool): Op {
    if isStart then (if isBefore then SetStartBefore(node) else SetStartAfter(node))
    else if isBefore then SetEndBefore(node) else SetEndAfter(node)
  }

  function Start(s: RangeState): Boundary {
    Boundary(s.startContainer, s.startOffset)
  }

  function End(s: RangeState): Boundary {
    Boundary(s.endContainer, s.endOffset)
  }

  /** In one tree, with `a` not after `b`. */
  predicate Ordered(w: Node, a: Boundary, b: Boundary) {
    IsNode(w, a.node) && IsNode(w, b.node) && SameTree(w, a.node, b.node)
      && Order(w, a.node, a.offset, b.node, b.offset) <= 0
  }

  /** The boundaries after a call, or none if the call is refused.  A new boundary that would cross the
      other one, or lies in another tree, takes the other one along. */
  function Asked(w: Node, s: RangeState, op: Op): Option<(Boundary, Boundary)> {
    match op
    case SetStart(n, o) => if IsPoint(w, n, o) then Some(WithStart(w, s, Boundary(n, o))) else None
    case SetEnd(n, o) => if IsPoint(w, n, o) then Some(WithEnd(w, s, Boundary(n, o))) else None
    case SetStartBefore(n) => if Anchored(w, n) then Some(WithStart(w, s, BeforeNode(w, n))) else None
    case SetStartAfter(n) => if Anchored(w, n) then Some(WithStart(w, s, AfterNode(w, n))) else None
    case SetEndBefore(n) => if Anchored(w, n) then Some(WithEnd(w, s, BeforeNode(w, n))) else None
    case SetEndAfter(n) => if Anchored(w, n) then Some(WithEnd(w, s, AfterNode(w, n))) else None
    case Collapse(toStart) =>
      if Orphan(w, s.startContainer) then None
      else if toStart then Some((Start(s), Start(s))) else Some((End(s), End(s)))
    case SelectNode(n) =>
      if Placed(w, n) && !IsRootType(Get(w, n)) then Some((BeforeNode(w, n), AfterNode(w, n))) else None
    case SelectNodeContents(n) => if IsNode(w, n) then Some((Boundary(n, 0), Boundary(n, Len(Get(w, n))))) else None
    case CollapseToPoint(n, o) => if IsPoint(w, n, o) then Some((Boundary(n, o), Boundary(n, o))) else None
  }

  function WithStart(w: Node, s: RangeState, b: Boundary): (Boundary, Boundary) {
    (b, if Ordered(w, b, End(s)) then End(s) else b)
  }

  function WithEnd(w: Node, s: RangeState, b: Boundary): (Boundary, Boundary) {
    (if Ordered(w, Start(s), b) then Start(s) else b, b)
  }

  /** A node with a parent. */
  predicate Placed(w: Node, n: Id) {
    IsNode(w, n) && ParentNode(w, n).Some?
  }

  /** A document or a fragment, by its node name. */
  predicate IsRootType(n: Node) {
    n.Elem? && (n.tag.name == "#document" || n.tag.name == "#document-fragment")
  }

  /** A node of a tree that is neither a document nor a fragment. */
  predicate Orphan(w: Node, n: Id) {
    IsNode(w, n) && HasPath(w, Where(w, n)[..1]) && !IsRootType(At(w, Where(w, n)[..1]))
  }

  /** What the before and after setters ask of a node: it is neither a document nor a fragment, but in one. */
  predicate Anchored(w: Node, n: Id) {
    Placed(w, n) && !IsRootType(Get(w, n)) && !Orphan(w, n)
  }

  function BeforeNode(w: Node, n: Id): Boundary
    requires Placed(w, n)
  {
    Boundary(ParentNode(w, n).value, Index(w, n))
  }

  function AfterNode(w: Node, n: Id): Boundary
    requires Placed(w, n)
  {
    Boundary(ParentNode(w, n).value, Index(w, n) + 1)
  }

  /** What a call makes of the state: the boundaries that were asked for, and the cached values about them. */
  ghost predicate Becomes(w: Node, s: RangeState, op: Op, t: RangeState) {
    if Asked(w, s, op).None? then t == s
    else Start(t) == Asked(w, s, op).value.0 && End(t) == Asked(w, s, op).value.1 && Cached(w, t)
  }

  /** The cached values are those of the boundaries. */
  predicate Cached(w: Node, t: RangeState) {
    && t.collapsed == (Start(t) == End(t))
    && IsNode(w, t.startContainer) && IsNode(w, t.endContainer)
    && CommonAncestor(w, t.startContainer, t.endContainer) == Some(t.commonAncestorContainer)
  }

  lemma PlacedPoints(w: Node, n: Id)
    requires Distinct(w) && Placed(w, n)
    ensures var b, a := BeforeNode(w, n), AfterNode(w, n);
      IsPoint(w, b.node, b.offset) && IsPoint(w, a.node, a.offset) && Ordered(w, b, a)
  {
    var p := Where(w, n);
    ParentAt(w, p);
    WhereAt(w, Front(p));
    AtPrefix(w, p, |p| - 1);
    SplitCodes(Front(p), Front(p), Last(p), Front(p), Last(p) + 1);
  }

  lemma SelfOrdered(w: Node, b: Boundary)
    requires IsNode(w, b.node)
    ensures Ordered(w, b, b)
  {
    CmpZero(Where(w, b.node), b.offset, Where(w, b.node), b.offset);
  }

  lemma ContentsOrdered(w: Node, n: Id)
    requires IsNode(w, n)
    ensures Ordered(w, Boundary(n, 0), Boundary(n, Len(Get(w, n))))
  {
    SplitCodes(Where(w, n), Where(w, n), 0, Where(w, n), Len(Get(w, n)));
  }

  /** The two boundaries a call asks for are always ordered points of one tree. */
  lemma AskedOrdered(w: Node, s: RangeState, op: Op)
    requires Distinct(w) && ValidRange(w, s) && Asked(w, s, op).Some?
    ensures var (a, b) := Asked(w, s, op).value;
      IsPoint(w, a.node, a.offset) && IsPoint(w, b.node, b.offset) && Ordered(w, a, b)
  {
    SelfOrdered(w, Start(s));
    SelfOrdered(w, End(s));
    match op {
      case SetStart(n, o) => SelfOrdered(w, Boundary(n, o));
      case SetEnd(n, o) => SelfOrdered(w, Boundary(n, o));
      case SetStartBefore(n) => PlacedPoints(w, n); SelfOrdered(w, BeforeNode(w, n));
      case SetStartAfter(n) => PlacedPoints(w, n); SelfOrdered(w, AfterNode(w, n));
      case SetEndBefore(n) => PlacedPoints(w, n); SelfOrdered(w, BeforeNode(w, n));
      case SetEndAfter(n) => PlacedPoints(w, n); SelfOrdered(w, AfterNode(w, n));
      case Collapse(_) =>
      case SelectNode(n) => PlacedPoints(w, n);
      case SelectNodeContents(n) => ContentsOrdered(w, n);
      case CollapseToPoint(n, o) => SelfOrdered(w, Boundary(n, o));
    }
  }

  // ----- what a call does, in positions of the written-out document -----

  /** A tree that belongs to a document or a fragment. */
  predicate InDocument(w: Node, n: Id) {
    IsNode(w, n) && IsNode(w, RootContainer(w, n)) && Get(w, RootContainer(w, n)).Elem?
    && Get(w, RootContainer(w, n)).tag.name in {"#document", "#document-fragment"}
  }

  /** Which calls are accepted. */
  predicate Permitted(w: Node, s: RangeState, op: Op)
    requires op.Collapse? || IsNode(w, op.node)
  {
    match op
    case SetStart(n, o) => o <= Len(Get(w, n))
    case SetEnd(n, o) => o <= Len(Get(w, n))
    case Collapse(_) => InDocument(w, s.startContainer)
    case SelectNode(n) => Get(w, n).Elem? ==> Get(w, n).tag.name !in {"#document", "#document-fragment"}
    case SelectNodeContents(n) => true
    case CollapseToPoint(n, o) => o <= Len(Get(w, n))
    case _ =>
      InDocument(w, op.node)
        && (Get(w, op.node).Elem? ==> Get(w, op.node).tag.name !in {"#document", "#document-fragment"})
  }

  /** Directly in front of a node's opening tag, and directly behind its closing tag. */
  predicate InFront(w: Node, n: Id, b: Boundary)
    requires IsNode(w, n)
  {
    IsPoint(w, n, 0) && IsPoint(w, b.node, b.offset) && PosOf(w, b.node, b.offset) + 1 == PosOf(w, n, 0)
  }

  predicate Behind(w: Node, n: Id, b: Boundary)
    requires IsNode(w, n)
  {
    IsPoint(w, n, Len(Get(w, n))) && IsPoint(w, b.node, b.offset)
    && PosOf(w, b.node, b.offset) == PosOf(w, n, Len(Get(w, n))) + 1
  }

  /** The end stays, unless it lies before the new start or in another tree; then it follows. */
  predicate EndFollows(w: Node, s: RangeState, t: RangeState)
    requires ValidRange(w, s) && ValidRange(w, t)
  {
    var stays := SameTree(w, t.startContainer, s.endContainer)
      && PosOf(w, t.startContainer, t.startOffset) <= PosOf(w, s.endContainer, s.endOffset);
    End(t) == if stays then End(s) else Start(t)
  }

  predicate StartFollows(w: Node, s: RangeState, t: RangeState)
    requires ValidRange(w, s) && ValidRange(w, t)
  {
    var stays := SameTree(w, t.endContainer, s.startContainer)
      && PosOf(w, s.startContainer, s.startOffset) <= PosOf(w, t.endContainer, t.endOffset);
    Start(t) == if stays then Start(s) else End(t)
  }

  predicate Effect(w: Node, s: RangeState, op: Op, t: RangeState)
    requires ValidRange(w, s) && ValidRange(w, t) && (op.Collapse? || IsNode(w, op.node))
  {
    match op
    case SetStart(n, o) => Start(t) == Boundary(n, o) && EndFollows(w, s, t)
    case SetEnd(n, o) => End(t) == Boundary(n, o) && StartFollows(w, s, t)
    case SetStartBefore(n) => InFront(w, n, Start(t)) && EndFollows(w, s, t)
    case SetStartAfter(n) => Behind(w, n, Start(t)) && EndFollows(w, s, t)
    case SetEndBefore(n) => InFront(w, n, End(t)) && StartFollows(w, s, t)
    case SetEndAfter(n) => Behind(w, n, End(t)) && StartFollows(w, s, t)
    case Collapse(toStart) => Start(t) == End(t) && (if toStart then End(t) == Start(s) else Start(t) == End(s))
    case SelectNode(n) => InFront(w, n, Start(t)) && Behind(w, n, End(t))
    case SelectNodeContents(n) =>
      && IsPoint(w, n, 0) && PosOf(w, t.startContainer, t.startOffset) == PosOf(w, n, 0)
      && IsPoint(w, n, Len(Get(w, n))) && PosOf(w, t.endContainer, t.endOffset) == PosOf(w, n, Len(Get(w, n)))
    case CollapseToPoint(n, o) => Start(t) == End(t) == Boundary(n, o)
  }

  /** The tags of a node, and the points in front of and behind it. */
  lemma BesidePoints(w: Node, n: Id)
    requires Distinct(w) && Placed(w, n)
    ensures InFront(w, n, BeforeNode(w, n)) && Behind(w, n, AfterNode(w, n))
  {
    var p := Where(w, n);
    ParentAt(w, p);
    AtPrefix(w, p, |p| - 1);
    WhereAt(w, Front(p));
    assert p == Front(p) + [Last(p)];
    AtAppend(w, Front(p), [Last(p)]);
    KidExtent(w, Front(p), Last(p));
  }

  lemma PermittedIff(w: Node, s: RangeState, op: Op)
    requires Distinct(w) && ValidRange(w, s) && (op.Collapse? || IsNode(w, op.node))
    requires op.SelectNode? ==> Placed(w, op.node) || IsRootType(Get(w, op.node))
    ensures Asked(w, s, op).Some? <==> Permitted(w, s, op)
  {
    if op.Collapse? {
      RootAt(w, s.startContainer);
    } else {
      RootAt(w, op.node);
      AnchoredAt(w, op.node);
    }
  }

  lemma CallEffect(w: Node, s: RangeState, op: Op, t: RangeState)
    requires Distinct(w) && ValidRange(w, s) && (op.Collapse? || IsNode(w, op.node))
    requires Asked(w, s, op).Some? && Becomes(w, s, op, t) && ValidRange(w, t)
    ensures Effect(w, s, op, t)
  {
    hide CommonAncestor, Pos, Distinct, Find;
    PointsOrdered(w, t.startContainer, t.startOffset, s.endContainer, s.endOffset);
    PointsOrdered(w, s.startContainer, s.startOffset, t.endContainer, t.endOffset);
    if !op.Collapse? && Placed(w, op.node) {
      BesidePoints(w, op.node);
    }
  }

  /** A run: each state comes from the one before by some call. */
  ghost predicate IsRun(w: Node, states: seq<RangeState>, ops: seq<Op>) {
    |states| == |ops| + 1 && forall i :: 0 <= i < |ops| ==> Becomes(w, states[i], ops[i], states[i + 1])
  }

  /** One call: whatever was asked for, the new boundaries are ordered points of one tree again. */
  lemma CallKeepsValid(w: Node, s: RangeState, op: Op, t: RangeState)
    requires Distinct(w) && ValidRange(w, s) && Becomes(w, s, op, t)
    ensures ValidRange(w, t)
  {
    if Asked(w, s, op).Some? {
      AskedOrdered(w, s, op);
    }
  }

  /** Every state of every run that starts from a valid range is valid. */
  lemma {:induction false} RunKeepsValid(w: Node, states: seq<RangeState>, ops: seq<Op>, i: nat)
    requires Distinct(w) && IsRun(w, states, ops) && ValidRange(w, states[0]) && i < |states|
    ensures ValidRange(w, states[i])
  {
    if i > 0 {
      RunKeepsValid(w, states, ops, i - 1);
      assert Becomes(w, states[i - 1], ops[i - 1], states[i - 1 + 1]);
      CallKeepsValid(w, states[i - 1], ops[i - 1], states[i]);
    }
  }

  /** A state is fixed by its boundaries: the cached values never carry extra information. */
  lemma StateUnique(w: Node, s: RangeState, t: RangeState)
    requires ValidRange(w, s) && ValidRange(w, t) && Start(s) == Start(t) && End(s) == End(t)
    ensures s == t
  {
  }

  // ----- intersection and union -----

  /** The points a range contains. */
  predicate Contains(w: Node, s: RangeState, b: Boundary) {
    Ordered(w, Start(s), b) && Ordered(w, b, End(s))
  }

  ghost predicate Within(w: Node, s: RangeState, t: RangeState) {
    forall b :: Contains(w, s, b) ==> Contains(w, t, b)
  }

  function Later(w: Node, a: Boundary, b: Boundary): Boundary {
    if Ordered(w, b, a) then a else b
  }

  function Earlier(w: Node, a: Boundary, b: Boundary): Boundary {
    if Ordered(w, a, b) then a else b
  }

  /** intersectsRange */
  predicate IntersectsRange(w: Node, s: RangeState, t: RangeState, touching: bool)
    requires ValidRange(w, s) && ValidRange(w, t)
  {
    var startComparison := Order(w, s.startContainer, s.startOffset, t.endContainer, t.endOffset);
    var endComparison := Order(w, s.endContainer, s.endOffset, t.startContainer, t.startOffset);
    if touching then startComparison <= 0 && endComparison >= 0 else startComparison < 0 && endComparison > 0
  }

  lemma OrderTransitive(w: Node, a: Boundary, b: Boundary, c: Boundary)
    requires Ordered(w, a, b) && Ordered(w, b, c)
    ensures Ordered(w, a, c)
  {
    var x, y, z := Code(Where(w, a.node), a.offset), Code(Where(w, b.node), b.offset), Code(Where(w, c.node), c.offset);
    CmpZero(Where(w, a.node), a.offset, Where(w, b.node), b.offset);
    CmpZero(Where(w, b.node), b.offset, Where(w, c.node), c.offset);
    if Cmp(x, y) < 0 && Cmp(y, z) < 0 {
      CmpTransitive(x, y, z);
    }
  }

  lemma OrderTotal(w: Node, a: Boundary, b: Boundary)
    requires IsNode(w, a.node) && IsNode(w, b.node) && SameTree(w, a.node, b.node)
    ensures Ordered(w, a, b) || Ordered(w, b, a)
    ensures Order(w, a.node, a.offset, b.node, b.offset) == -Order(w, b.node, b.offset, a.node, a.offset)
  {
    CmpAntisymmetric(Code(Where(w, a.node), a.offset), Code(Where(w, b.node), b.offset));
  }

  /** Some point lies in both ranges. */
  ghost predicate Share(w: Node, s: RangeState, t: RangeState) {
    exists b :: Contains(w, s, b) && Contains(w, t, b)
  }

  /** One range begins where the other one ends. */
  predicate Touch(s: RangeState, t: RangeState) {
    Start(s) == End(t) || End(s) == Start(t)
  }

  /** When intersectsRange answers yes: for ranges with a common point, and without touching only if neither
      begins where the other one ends. */
  lemma IntersectsExactly(w: Node, s: RangeState, t: RangeState)
    requires Distinct(w) && ValidRange(w, s) && ValidRange(w, t) && SameTree(w, s.startContainer, t.startContainer)
    ensures IntersectsRange(w, s, t, true) <==> Share(w, s, t)
    ensures IntersectsRange(w, s, t, false) <==> Share(w, s, t) && !Touch(s, t)
  {
    hide Distinct, Find, CommonAncestor, Cmp, Code;
    OrderTotal(w, Start(s), End(t));
    OrderTotal(w, End(s), Start(t));
    OrderZero(w, Start(s), End(t));
    OrderZero(w, End(s), Start(t));
    if IntersectsRange(w, s, t, true) {
      SharedPoint(w, s, t);
    }
    if Share(w, s, t) {
      var b :| Contains(w, s, b) && Contains(w, t, b);
      OrderTransitive(w, Start(s), b, End(t));
      OrderTransitive(w, Start(t), b, End(s));
    }
  }

  /** It does not matter which of the two ranges is asked. */
  lemma IntersectsSymmetric(w: Node, s: RangeState, t: RangeState, touching: bool)
    requires Distinct(w) && ValidRange(w, s) && ValidRange(w, t) && SameTree(w, s.startContainer, t.startContainer)
    ensures IntersectsRange(w, s, t, touching) == IntersectsRange(w, t, s, touching)
  {
    OrderTotal(w, Start(s), End(t));
    OrderTotal(w, End(s), Start(t));
  }

  lemma OrderZero(w: Node, a: Boundary, b: Boundary)
    requires IsNode(w, a.node) && IsNode(w, b.node)
    ensures Order(w, a.node, a.offset, b.node, b.offset) == 0 <==> a == b
  {
    CmpZero(Where(w, a.node), a.offset, Where(w, b.node), b.offset);
    SameWhere(w, a.node, b.node);
  }

  /** The later start is in both ranges. */
  lemma SharedPoint(w: Node, s: RangeState, t: RangeState)
    requires Distinct(w) && ValidRange(w, s) && ValidRange(w, t) && SameTree(w, s.startContainer, t.startContainer)
    requires Ordered(w, Start(s), End(t)) && Ordered(w, Start(t), End(s))
    ensures Share(w, s, t)
  {
    OrderTotal(w, Start(s), Start(t));
    SelfOrdered(w, Start(s));
    SelfOrdered(w, Start(t));
    var b := Later(w, Start(s), Start(t));
    assert Contains(w, s, b) && Contains(w, t, b);
  }

  /** The range from the later start to the earlier end contains exactly the common points. */
  lemma IntersectionExact(w: Node, s: RangeState, t: RangeState, m: RangeState)
    requires Distinct(w) && ValidRange(w, s) && ValidRange(w, t) && SameTree(w, s.startContainer, t.startContainer)
    requires Start(m) == Later(w, Start(s), Start(t)) && End(m) == Earlier(w, End(s), End(t))
    ensures forall b :: Contains(w, m, b) <==> Contains(w, s, b) && Contains(w, t, b)
    ensures IntersectsRange(w, s, t, false) ==> Ordered(w, Start(m), End(m))
  {
    OrderTotal(w, Start(s), Start(t));
    OrderTotal(w, End(s), End(t));
    OrderTotal(w, End(s), Start(t));
    forall b ensures Contains(w, m, b) <==> Contains(w, s, b) && Contains(w, t, b) {
      if Contains(w, m, b) {
        OrderTransitive(w, if Start(m) == Start(s) then Start(t) else Start(s), Start(m), b);
        OrderTransitive(w, b, End(m), if End(m) == End(s) then End(t) else End(s));
      }
    }
  }

  /** The range from the earlier start to the later end contains both ranges, and every range that does
      contains it. */
  lemma UnionLeast(w: Node, s: RangeState, t: RangeState, u: RangeState)
    requires Distinct(w) && ValidRange(w, s) && ValidRange(w, t) && SameTree(w, s.startContainer, t.startContainer)
    requires Start(u) == Earlier(w, Start(s), Start(t)) && End(u) == Later(w, End(s), End(t))
    ensures Ordered(w, Start(u), End(u))
    ensures Within(w, s, u) && Within(w, t, u)
    ensures forall v :: Within(w, s, v) && Within(w, t, v) ==> Within(w, u, v)
  {
    OrderTotal(w, Start(s), Start(t));
    OrderTotal(w, End(s), End(t));
    SelfOrdered(w, Start(s));
    SelfOrdered(w, Start(t));
    SelfOrdered(w, End(s));
    SelfOrdered(w, End(t));
    forall b | Contains(w, s, b) || Contains(w, t, b) ensures Contains(w, u, b) {
      var r := if Contains(w, s, b) then s else t;
      OrderTransitive(w, Start(u), Start(r), b);
      OrderTransitive(w, b, End(r), End(u));
    }
    assert Contains(w, s, Start(s)) && Contains(w, s, End(s)) && Contains(w, t, Start(t)) && Contains(w, t, End(t));
    assert Ordered(w, Start(u), End(u)) by {
      OrderTransitive(w, Start(u), Start(s), End(s));
      OrderTransitive(w, Start(u), End(s), End(u));
    }
    forall v, b | Within(w, s, v) && Within(w, t, v) && Contains(w, u, b) ensures Contains(w, v, b) {
      assert Contains(w, v, Start(u)) && Contains(w, v, End(u));
      OrderTransitive(w, Start(v), Start(u), b);
      OrderTransitive(w, b, End(u), End(v));
    }
  }

  /** If the ranges meet without touching only, no point between them is added by the union. */
  lemma UnionCovers(w: Node, s: RangeState, t: RangeState, u: RangeState)
    requires Distinct(w) && ValidRange(w, s) && ValidRange(w, t) && SameTree(w, s.startContainer, t.startContainer)
    requires IntersectsRange(w, s, t, true)
    requires Start(u) == Earlier(w, Start(s), Start(t)) && End(u) == Later(w, End(s), End(t))
    ensures forall b :: Contains(w, u, b) ==> Contains(w, s, b) || Contains(w, t, b)
  {
    OrderTotal(w, Start(s), Start(t));
    OrderTotal(w, End(s), End(t));
    OrderTotal(w, End(s), Start(t));
    OrderTotal(w, Start(s), End(t));
    forall b | Contains(w, u, b) ensures Contains(w, s, b) || Contains(w, t, b) {
      OrderTotal(w, b, End(s));
      OrderTotal(w, b, End(t));
      OrderTotal(w, b, Start(s));
      OrderTotal(w, b, Start(t));
      if !Contains(w, s, b) && !Ordered(w, Start(s), b) && Ordered(w, End(t), b) {
        OrderTransitive(w, Start(s), End(t), b);
      }
      if !Contains(w, s, b) && !Ordered(w, b, End(s)) && Ordered(w, b, Start(t)) {
        OrderTransitive(w, b, Start(t), End(s));
      }
    }
  }

  // ----- the object -----

  /** A range, null, WRONG_DOCUMENT_ERR, or the exception of comparing points without a common ancestor. */
  datatype Combined = Made(range: Range) | Apart | WrongDocument | NoCommonAncestor

  class Range {
    var startContainer: Id
    var startOffset: nat
    var endContainer: Id
    var endOffset: nat
    var collapsed: bool
    var commonAncestorContainer: Id

    function State(): RangeState
      reads this
    {
      RangeState(startContainer, startOffset, endContainer, endOffset, collapsed, commonAncestorContainer)
    }

    /** A collapsed range at the start of a document. */
    constructor (w: Node, doc: Id)
      requires Distinct(w) && IsNode(w, doc)
      ensures ValidRange(w, State()) && Start(State()) == End(State()) == Boundary(doc, 0)
    {
      startContainer, startOffset, endContainer, endOffset := doc, 0, doc, 0;
      collapsed, commonAncestorContainer := true, doc;
      new;
      SelfOrdered(w, Boundary(doc, 0));
      SameTreeCommon(w, doc, doc);
    }

    /** cloneRange */
    constructor Clone(s: RangeState)
      ensures State() == s
    {
      startContainer, startOffset := s.startContainer, s.startOffset;
      endContainer, endOffset := s.endContainer, s.endOffset;
      collapsed, commonAncestorContainer := s.collapsed, s.commonAncestorContainer;
    }

    /** boundaryUpdater */
    method Update(w: Node, sc: Id, so: nat, ec: Id, eo: nat)
      requires Distinct(w) && IsPoint(w, sc, so) && IsPoint(w, ec, eo) && Ordered(w, Boundary(sc, so), Boundary(ec, eo))
      modifies this
      ensures ValidRange(w, State()) && Start(State()) == Boundary(sc, so) && End(State()) == Boundary(ec, eo)
    {
      var s := UpdateBoundaries(w, sc, so, ec, eo);
      startContainer, startOffset, endContainer, endOffset := sc, so, ec, eo;
      collapsed, commonAncestorContainer := s.collapsed, s.commonAncestorContainer;
    }

    method SetRangeStart(w: Node, node: Id, offset: nat)
      requires Distinct(w) && ValidRange(w, State()) && IsPoint(w, node, offset)
      modifies this
      ensures ValidRange(w, State()) && Becomes(w, old(State()), SetStart(node, offset), State())
    {
      var ec, eo := endContainer, endOffset;
      SelfOrdered(w, Boundary(node, offset));
      if node != startContainer || offset != startOffset {
        var r1 := GetRootContainer(w, node);
        var r2 := GetRootContainer(w, ec);
        RootsAgree(w, node, ec);
        var crossing := r1 != r2;
        if !crossing {
          var c := ComparePoints(w, node, offset, ec, eo);
          CmpIsSign(w, Boundary(node, offset), End(State()));
          crossing := c == 1;
        }
        if crossing {
          ec, eo := node, offset;
        }
        Update(w, node, offset, ec, eo);
      }
    }

    method SetRangeEnd(w: Node, node: Id, offset: nat)
      requires Distinct(w) && ValidRange(w, State()) && IsPoint(w, node, offset)
      modifies this
      ensures ValidRange(w, State()) && Becomes(w, old(State()), SetEnd(node, offset), State())
    {
      var sc, so := startContainer, startOffset;
      SelfOrdered(w, Boundary(node, offset));
      if node != endContainer || offset != endOffset {
        var r1 := GetRootContainer(w, node);
        var r2 := GetRootContainer(w, sc);
        RootsAgree(w, node, sc);
        var crossing := r1 != r2;
        if !crossing {
          var c := ComparePoints(w, node, offset, sc, so);
          CmpIsSign(w, Boundary(node, offset), Start(State()));
          OrderTotal(w, Boundary(node, offset), Start(State()));
          crossing := c == -1;
        }
        if crossing {
          sc, so := node, offset;
        }
        Update(w, sc, so, node, offset);
      }
    }

    /** createBeforeAfterNodeSetter */
    method SetBeside(w: Node, node: Id, isBefore: bool, isStart: bool) returns (ok: bool)
      requires Distinct(w) && ValidRange(w, State()) && IsNode(w, node)
      modifies this
      ensures ok <==> Anchored(w, node)
      ensures ValidRange(w, State()) && Becomes(w, old(State()), Beside(node, isBefore, isStart), State())
    {
      hide Becomes, ValidRange, Anchored, Index, Ordered;
      ghost var s := State();
      var root := GetRootContainer(w, node);
      AnchoredAt(w, node);
      BesideIsSet(w, s, node, isBefore, isStart);
      if IsRootType(Get(w, node)) || !IsRootType(Get(w, root)) {
        return false;
      }
      PlacedPoints(w, node);
      var parent := ParentNode(w, node).value;
      var i := GetNodeIndex(w, node);
      var offset := if isBefore then i else i + 1;
      if isStart {
        SetRangeStart(w, parent, offset);
      } else {
        SetRangeEnd(w, parent, offset);
      }
      ok := true;
    }

    /** setStart, setEnd, the four before/after setters, collapse, selectNode, selectNodeContents and
        collapseToPoint; an argument that is out of place raises an exception and changes nothing. */
    method Perform(w: Node, op: Op) returns (ok: bool)
      requires Distinct(w) && ValidRange(w, State())
      requires op.Collapse? || IsNode(w, op.node)
      requires op.SelectNode? ==> Placed(w, op.node) || IsRootType(Get(w, op.node))
      modifies this
      ensures ok <==> Permitted(w, old(State()), op)
      ensures ValidRange(w, State()) && Becomes(w, old(State()), op, State())
      ensures ok ==> Effect(w, old(State()), op, State())
    {
      ghost var s := State();
      PermittedIff(w, s, op);
      ok := Set(w, op);
      if ok {
        CallEffect(w, s, op, State());
      }
    }

    method Set(w: Node, op: Op) returns (ok: bool)
      requires Distinct(w) && ValidRange(w, State())
      requires op.Collapse? || IsNode(w, op.node)
      requires op.SelectNode? ==> Placed(w, op.node) || IsRootType(Get(w, op.node))
      modifies this
      ensures ok <==> Asked(w, old(State()), op).Some?
      ensures ValidRange(w, State()) && Becomes(w, old(State()), op, State())
    {
      ok := true;
      match op {
        case SetStart(n, o) =>
          if o > Len(Get(w, n)) { return false; }
          SetRangeStart(w, n, o);
        case SetEnd(n, o) =>
          if o > Len(Get(w, n)) { return false; }
          SetRangeEnd(w, n, o);
        case SetStartBefore(n) => ok := SetBeside(w, n, true, true);
        case SetStartAfter(n) => ok := SetBeside(w, n, false, true);
        case SetEndBefore(n) => ok := SetBeside(w, n, true, false);
        case SetEndAfter(n) => ok := SetBeside(w, n, false, false);
        case _ => ok := Place(w, op);
      }
    }

    /** The calls that set both boundaries. */
    method Place(w: Node, op: Op) returns (ok: bool)
      requires Distinct(w) && ValidRange(w, State())
      requires op.Collapse? || op.SelectNode? || op.SelectNodeContents? || op.CollapseToPoint?
      requires op.Collapse? || IsNode(w, op.node)
      requires op.SelectNode? ==> Placed(w, op.node) || IsRootType(Get(w, op.node))
      modifies this
      ensures ok <==> Asked(w, old(State()), op).Some?
      ensures ValidRange(w, State()) && Becomes(w, old(State()), op, State())
    {
      ok := true;
      AskedValid(w, State(), op);
      match op {
        case Collapse(toStart) =>
          RootAt(w, startContainer);
          var root := GetRootContainer(w, startContainer);
          if !IsRootType(Get(w, root)) {
            return false;
          }
          if toStart {
            Update(w, startContainer, startOffset, startContainer, startOffset);
          } else {
            Update(w, endContainer, endOffset, endContainer, endOffset);
          }
        case SelectNode(n) =>
          if IsRootType(Get(w, n)) { return false; }
          var i := GetNodeIndex(w, n);
          var parent := ParentNode(w, n).value;
          Update(w, parent, i, parent, i + 1);
        case SelectNodeContents(n) =>
          Update(w, n, 0, n, Len(Get(w, n)));
        case CollapseToPoint(n, o) =>
          if o > Len(Get(w, n)) { return false; }
          if n != startContainer || o != startOffset || n != endContainer || o != endOffset {
            Update(w, n, o, n, o);
          }
      }
    }

    method Intersects(w: Node, range: Range, touching: bool) returns (b: bool)
      requires Distinct(w) && ValidRange(w, State()) && ValidRange(w, range.State())
      requires SameTree(w, startContainer, range.startContainer)
      ensures b <==> IntersectsRange(w, State(), range.State(), touching)
    {
      var startComparison := ComparePoints(w, startContainer, startOffset, range.endContainer, range.endOffset);
      var endComparison := ComparePoints(w, endContainer, endOffset, range.startContainer, range.startOffset);
      b := if touching then startComparison <= 0 && endComparison >= 0 else startComparison < 0 && endComparison > 0;
    }

    /** The new boundaries never cross, so the setters move one boundary each and nothing else. */
    method Intersection(w: Node, range: Range, ownerDocument: Id -> Id) returns (r: Combined)
      requires Distinct(w) && ValidRange(w, State()) && ValidRange(w, range.State()) && TreesOwned(w, ownerDocument)
      ensures r.WrongDocument? <==> ownerDocument(startContainer) != ownerDocument(range.startContainer)
      ensures r.NoCommonAncestor? <==>
        ownerDocument(startContainer) == ownerDocument(range.startContainer)
        && !SameTree(w, startContainer, range.startContainer)
      ensures r.Apart? <==>
        SameTree(w, startContainer, range.startContainer)
        && !(Share(w, State(), range.State()) && !Touch(State(), range.State()))
      ensures r.Made? ==> fresh(r.range) && ValidRange(w, r.range.State())
      ensures r.Made? ==> Start(r.range.State()) == Later(w, Start(State()), Start(range.State()))
      ensures r.Made? ==> End(r.range.State()) == Earlier(w, End(State()), End(range.State()))
    {
      hide Becomes, ValidRange, Ordered, Order, Earlier, Later, IntersectsRange, Share, Touch;
      BoundaryPoints(w, State());
      BoundaryPoints(w, range.State());
      if ownerDocument(range.startContainer) != ownerDocument(startContainer) {
        return WrongDocument;
      }
      RootsAgree(w, startContainer, range.startContainer);
      var r1 := GetRootContainer(w, startContainer);
      var r2 := GetRootContainer(w, range.startContainer);
      if r1 != r2 {
        return NoCommonAncestor;
      }
      IntersectsExactly(w, State(), range.State());
      var meets := Intersects(w, range, false);
      if !meets {
        return Apart;
      }
      ghost var s, t := State(), range.State();
      Narrowing(w, s, t);
      var startComparison := ComparePoints(w, startContainer, startOffset, range.startContainer, range.startOffset);
      var endComparison := ComparePoints(w, endContainer, endOffset, range.endContainer, range.endOffset);
      var result := new Range.Clone(State());
      if startComparison == -1 {
        StartAlone(w, s, Start(t));
        result.SetRangeStart(w, range.startContainer, range.startOffset);
      }
      assert Start(result.State()) == Later(w, Start(s), Start(t)) && End(result.State()) == End(s);
      if endComparison == 1 {
        EndAlone(w, result.State(), End(t));
        result.SetRangeEnd(w, range.endContainer, range.endOffset);
      }
      return Made(result);
    }

    method Union(w: Node, range: Range, ownerDocument: Id -> Id) returns (r: Combined)
      requires Distinct(w) && ValidRange(w, State()) && ValidRange(w, range.State()) && TreesOwned(w, ownerDocument)
      ensures r.WrongDocument? <==> ownerDocument(startContainer) != ownerDocument(range.startContainer)
      ensures r.NoCommonAncestor? <==>
        ownerDocument(startContainer) == ownerDocument(range.startContainer)
        && !SameTree(w, startContainer, range.startContainer)
      ensures r.Apart? <==> SameTree(w, startContainer, range.startContainer) && !Share(w, State(), range.State())
      ensures r.Made? ==> fresh(r.range) && ValidRange(w, r.range.State())
      ensures r.Made? ==> Start(r.range.State()) == Earlier(w, Start(State()), Start(range.State()))
      ensures r.Made? ==> End(r.range.State()) == Later(w, End(State()), End(range.State()))
    {
      hide Becomes, ValidRange, Ordered, Order, Earlier, Later, IntersectsRange, Share, Touch;
      BoundaryPoints(w, State());
      BoundaryPoints(w, range.State());
      if ownerDocument(range.startContainer) != ownerDocument(startContainer) {
        return WrongDocument;
      }
      RootsAgree(w, startContainer, range.startContainer);
      var r1 := GetRootContainer(w, startContainer);
      var r2 := GetRootContainer(w, range.startContainer);
      if r1 != r2 {
        return NoCommonAncestor;
      }
      IntersectsExactly(w, State(), range.State());
      var meets := Intersects(w, range, true);
      if !meets {
        return Apart;
      }
      ghost var s, t := State(), range.State();
      Widening(w, s, t);
      var startComparison := ComparePoints(w, range.startContainer, range.startOffset, startContainer, startOffset);
      var endComparison := ComparePoints(w, range.endContainer, range.endOffset, endContainer, endOffset);
      var result := new Range.Clone(State());
      if startComparison == -1 {
        StartAlone(w, s, Start(t));
        result.SetRangeStart(w, range.startContainer, range.startOffset);
      }
      assert Start(result.State()) == Earlier(w, Start(s), Start(t)) && End(result.State()) == End(s);
      if endComparison == 1 {
        EndAlone(w, result.State(), End(t));
        result.SetRangeEnd(w, range.endContainer, range.endOffset);
      }
      return Made(result);
    }
  }

  /** The test the before and after setters make. */
  lemma AnchoredAt(w: Node, n: Id)
    requires Distinct(w) && IsNode(w, n)
    ensures IsNode(w, RootContainer(w, n))
    ensures Anchored(w, n) <==> !IsRootType(Get(w, n)) && IsRootType(Get(w, RootContainer(w, n)))
    ensures Anchored(w, n) ==> Placed(w, n)
  {
    RootAt(w, n);
  }

  /** They are the setters for points, used beside the node, or nothing. */
  lemma BesideIsSet(w: Node, s: RangeState, n: Id, isBefore: bool, isStart: bool)
    requires Distinct(w) && IsNode(w, n)
    ensures !Anchored(w, n) ==> Becomes(w, s, Beside(n, isBefore, isStart), s)
    ensures Anchored(w, n) ==> forall t ::
        var b := if isBefore then BeforeNode(w, n) else AfterNode(w, n);
        Becomes(w, s, if isStart then SetStart(b.node, b.offset) else SetEnd(b.node, b.offset), t)
        ==> Becomes(w, s, Beside(n, isBefore, isStart), t)
  {
    if Anchored(w, n) {
      PlacedPoints(w, n);
    }
  }

  /** The root container is the top of the path. */
  lemma RootAt(w: Node, n: Id)
    requires Distinct(w) && IsNode(w, n)
    ensures HasPath(w, Where(w, n)[..1]) && IsNode(w, RootContainer(w, n))
    ensures Get(w, RootContainer(w, n)) == At(w, Where(w, n)[..1])
    ensures ParentNode(w, n).None? ==> RootContainer(w, n) == n
  {
    var p := Where(w, n);
    AtPrefix(w, p, 1);
    WhereAt(w, p[..1]);
    ParentAt(w, p);
    assert |p| == 1 ==> p[..1] == p;
  }

  lemma AskedValid(w: Node, s: RangeState, op: Op)
    requires Distinct(w) && ValidRange(w, s)
    ensures Asked(w, s, op).Some? ==> var (a, b) := Asked(w, s, op).value;
      IsPoint(w, a.node, a.offset) && IsPoint(w, b.node, b.offset) && Ordered(w, a, b)
  {
    if Asked(w, s, op).Some? {
      AskedOrdered(w, s, op);
    }
  }

  lemma CmpIsSign(w: Node, a: Boundary, b: Boundary)
    requires IsNode(w, a.node) && IsNode(w, b.node)
    ensures -1 <= Order(w, a.node, a.offset, b.node, b.offset) <= 1
  {
    CmpRange(Code(Where(w, a.node), a.offset), Code(Where(w, b.node), b.offset));
  }

  lemma {:induction false} CmpRange(x: seq<nat>, y: seq<nat>)
    ensures -1 <= Cmp(x, y) <= 1
  {
    if x != [] && y != [] && x[0] == y[0] {
      CmpRange(x[1..], y[1..]);
    }
  }

  lemma BoundaryPoints(w: Node, s: RangeState)
    requires ValidRange(w, s)
    ensures IsPoint(w, s.startContainer, s.startOffset) && IsPoint(w, s.endContainer, s.endOffset)
    ensures SameTree(w, s.startContainer, s.endContainer)
  {
  }

  /** A boundary that does not cross the other one is the only one that moves. */
  lemma StartAlone(w: Node, s: RangeState, b: Boundary)
    requires Ordered(w, b, End(s)) && IsPoint(w, b.node, b.offset)
    ensures forall t :: Becomes(w, s, SetStart(b.node, b.offset), t) ==> Start(t) == b && End(t) == End(s)
  {
  }

  lemma EndAlone(w: Node, s: RangeState, b: Boundary)
    requires Ordered(w, Start(s), b) && IsPoint(w, b.node, b.offset)
    ensures forall t :: Becomes(w, s, SetEnd(b.node, b.offset), t) ==> Start(t) == Start(s) && End(t) == b
  {
  }

  /** What the comparisons of Intersection find. */
  lemma Narrowing(w: Node, s: RangeState, t: RangeState)
    requires Distinct(w) && ValidRange(w, s) && ValidRange(w, t) && SameTree(w, s.startContainer, t.startContainer)
    requires IntersectsRange(w, s, t, false)
    ensures SameTree(w, s.endContainer, t.endContainer)
    ensures Later(w, Start(s), Start(t))
      == if Order(w, s.startContainer, s.startOffset, t.startContainer, t.startOffset) == -1 then Start(t) else Start(s)
    ensures Earlier(w, End(s), End(t))
      == if Order(w, s.endContainer, s.endOffset, t.endContainer, t.endOffset) == 1 then End(t) else End(s)
    ensures Ordered(w, Start(t), End(s)) && Ordered(w, Later(w, Start(s), Start(t)), End(t))
  {
    Crossings(w, s, t);
  }

  /** What the comparisons of Union find. */
  lemma Widening(w: Node, s: RangeState, t: RangeState)
    requires Distinct(w) && ValidRange(w, s) && ValidRange(w, t) && SameTree(w, s.startContainer, t.startContainer)
    requires IntersectsRange(w, s, t, true)
    ensures SameTree(w, s.endContainer, t.endContainer)
    ensures Earlier(w, Start(s), Start(t))
      == if Order(w, t.startContainer, t.startOffset, s.startContainer, s.startOffset) == -1 then Start(t) else Start(s)
    ensures Later(w, End(s), End(t))
      == if Order(w, t.endContainer, t.endOffset, s.endContainer, s.endOffset) == 1 then End(t) else End(s)
    ensures Ordered(w, Start(t), End(s)) && Ordered(w, Earlier(w, Start(s), Start(t)), End(t))
  {
    Crossings(w, s, t);
  }

  /** How the four boundaries of two ranges that meet can lie. */
  lemma Crossings(w: Node, s: RangeState, t: RangeState)
    requires Distinct(w) && ValidRange(w, s) && ValidRange(w, t) && SameTree(w, s.startContainer, t.startContainer)
    requires IntersectsRange(w, s, t, true)
    ensures forall a, b | a in {Start(s), Start(t), End(s), End(t)} && b in {Start(s), Start(t), End(s), End(t)} ::
      IsNode(w, a.node) && IsNode(w, b.node) && SameTree(w, a.node, b.node)
      && -1 <= Order(w, a.node, a.offset, b.node, b.offset) <= 1
      && Order(w, a.node, a.offset, b.node, b.offset) == -Order(w, b.node, b.offset, a.node, a.offset)
      && (Order(w, a.node, a.offset, b.node, b.offset) == 0 ==> a == b)
    ensures Ordered(w, Start(s), End(t)) && Ordered(w, Start(t), End(s))
  {
    forall a, b | a in {Start(s), Start(t), End(s), End(t)} && b in {Start(s), Start(t), End(s), End(t)}
      ensures IsNode(w, a.node) && IsNode(w, b.node) && SameTree(w, a.node, b.node)
      && -1 <= Order(w, a.node, a.offset, b.node, b.offset) <= 1
      && Order(w, a.node, a.offset, b.node, b.offset) == -Order(w, b.node, b.offset, a.node, a.offset)
      && (Order(w, a.node, a.offset, b.node, b.offset) == 0 ==> a == b)
    {
      CmpIsSign(w, a, b);
      OrderTotal(w, a, b);
      CmpZero(Where(w, a.node), a.offset, Where(w, b.node), b.offset);
      SameWhere(w, a.node, b.node);
    }
  }

  lemma SameWhere(w: Node, a: Id, b: Id)
    requires IsNode(w, a) && IsNode(w, b)
    ensures Where(w, a) == Where(w, b) ==> a == b
  {
  }
}

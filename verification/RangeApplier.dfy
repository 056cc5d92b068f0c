/** HTMLApplier.applyToRange as a whole: a range without text is surrounded, any other is formatted. */
module RangeApplier {
  import opened Tree
  import opened Positions
  import opened Navigation
  import opened Slices
  import opened Ranges
  import opened Traversal
  import opened RangeIterators
  import opened RangeQueries
  import opened RangeContents
  import opened Documents
  import opened DomRange
  import opened Splitting
  import opened BoundarySplits
  import opened Formatting
  import opened HtmlApplier
  import opened Surround

  /** U+FEFF, the zero width no-break space. */
  const INVISIBLE_SPACE := "\U{FEFF}"

  /** innerHTML is empty, or the invisible space alone. */
  predicate Blank(kids: seq<Node>) {
    (forall k :: k in kids ==> k.Text?) && (Flat(kids) == "" || Flat(kids) == INVISIBLE_SPACE)
  }

  predicate BlankText(data: string) {
    data == "" || data == INVISIBLE_SPACE
  }

  /** HTMLApplier.selectNode: the content is selected; an empty element gets an invisible space and the range
      stands at its end, and behind an empty text the range stands outside, if a setter does not refuse. */
  method SelectNode(d: Document, range: Range, node: Id) returns (ok: bool)
    requires d.Valid() && IsNode(d.world, node)
    modifies d, range
    ensures d.Valid() && ValidRange(d.world, range.State())
    ensures d.world == Caretted(old(d.world), node, old(d.nextId)) && IsNode(d.world, node)
    ensures ok <==> !Behind(old(d.world), node) || Anchored(old(d.world), node)
    ensures Behind(old(d.world), node) && ok ==> Start(range.State()) == End(range.State()) == AfterNode(d.world, node)
    ensures !Behind(old(d.world), node) || !ok ==> End(range.State()) == Boundary(node, Len(Get(d.world, node)))
    ensures !Behind(old(d.world), node) || !ok ==>
      Start(range.State()) == Boundary(node, if BlankElement(Get(old(d.world), node)) then range.endOffset else 0)
  {
    hide Pos, TextOff, Flat, Width, Count;
    ghost var w := d.world;
    var isElement := Get(d.world, node).Elem?;
    var isEmpty := BlankElement(Get(d.world, node)) || BlankTextNode(Get(d.world, node));
    if isEmpty && isElement {
      d.SetInnerText(node, INVISIBLE_SPACE);
      AtPut(w, Where(w, node), Get(w, node).(kids := [Text(old(d.nextId), INVISIBLE_SPACE)]));
      WhereAt(d.world, Where(w, node));
    }
    var length := Len(Get(d.world, node));
    ContentsOrdered(d.world, node);
    range.Update(d.world, node, 0, node, length);
    ok := true;
    if isEmpty && isElement {
      SelfOrdered(d.world, Boundary(node, length));
      range.Update(d.world, node, length, node, length);
    } else if isEmpty {
      ok := range.SetBeside(d.world, node, false, true);
      if ok {
        SelfOrdered(d.world, AfterNode(d.world, node));
        ok := range.SetBeside(d.world, node, false, false);
      }
    }
  }

  predicate BlankElement(n: Node) {
    n.Elem? && Blank(n.kids)
  }

  predicate BlankTextNode(n: Node) {
    n.Text? && BlankText(n.data)
  }

  /** An empty text node: the range goes behind it. */
  predicate Behind(w: Node, node: Id)
    requires IsNode(w, node)
  {
    BlankTextNode(Get(w, node))
  }

  /** The document after an invisible space went into an empty element. */
  function Caretted(w: Node, node: Id, newId: Id): Node
    requires IsNode(w, node)
  {
    if BlankElement(Get(w, node)) then
      Put(w, Where(w, node), Get(w, node).(kids := [Text(newId, INVISIBLE_SPACE)]))
    else w
  }

  /** A formatted invisible space appears at a text offset, and nothing else changes, whatever the format. */
  ghost predicate CaretPlaced(ap: Applier, w: Node, t: nat, u: Node) {
    && (forall other: Applier :: OneMore(Statuses(other, w), t, Statuses(other, u)))
    && t <= |Flat([w])| == |Statuses(ap, w)|
    && Flat([u]) == Flat([w])[..t] + "\U{FEFF}" + Flat([w])[t..]
    && Statuses(ap, u) == Statuses(ap, w)[..t] + [true] + Statuses(ap, w)[t..]
  }

  /** One element more at a place. */
  predicate OneMore<T(==)>(s: seq<T>, t: nat, u: seq<T>) {
    t <= |s| && |u| == |s| + 1 && u[..t] == s[..t] && u[t + 1..] == s[t..]
  }

  // ----- ranges without text -----

  predicate StartsWithElem(ks: seq<Node>) {
    ks != [] && ks[0].Elem?
  }

  /** A range that is not collapsed and meets no text node starts and ends at the same text offset, and its
      content begins with an element. */
  lemma NoTextInside(ap: Applier, w: Node, s: RangeState, nodes: seq<Id>, accept: Seen -> bool)
    requires Distinct(w) && ValidRange(w, s) && !s.collapsed && PlainRoot(ap, w) && Attached(w, s)
    requires forall v :: accept(v) == IsText(v)
    requires nodes == Accepted(w, Hits(w, s, Candidates(w, s)), accept) == []
    ensures TextOffOf(w, s.startContainer, s.startOffset) == TextOffOf(w, s.endContainer, s.endOffset)
    ensures !StartAtEnd(w, s) && !EndAtStart(w, s)
    ensures StartsWithElem(Content(w, s)) && !MeetsText(w, s)
  {
    TextNodesOf(w, s, nodes, accept);
    BoundariesMeet(ap, w, s);
    RangeText(w, s);
    if TextOffOf(w, s.startContainer, s.startOffset) < TextOffOf(w, s.endContainer, s.endOffset) {
      SelectedSpan(ap, w, s, nodes, TextOffOf(w, s.startContainer, s.startOffset));
    }
    StopIndex(w, s);
    StopAt(w, s, 0);
    ContentAt(w, s, 0);
    ContentIsHits(w, s);
    AcceptedMembers(w, Hits(w, s, Candidates(w, s)), accept);
    assert Content(w, s)[0].id in Pre(Content(w, s));
  }

  /** Surrounding such a range changes no character's status. */
  lemma NothingPainted(ap: Applier, w: Node, s: RangeState, v: Node, x: Node)
    requires Distinct(w) && ValidRange(w, s) && x.Elem? && Accepts(ap, x.tag) && Surrounded(w, s, v, x)
    requires TextOffOf(w, s.startContainer, s.startOffset) == TextOffOf(w, s.endContainer, s.endOffset)
    requires !StartAtEnd(w, s) && !EndAtStart(w, s)
    ensures Repainted(ap, w, s, v)
  {
    var a := TextOffOf(w, s.startContainer, s.startOffset);
    assert Overlaid(Statuses(ap, w), a, a, Statuses(ap, v));
    assert Statuses(ap, v) == Statuses(ap, w);
  }

  lemma FirstKind(a: seq<Node>, b: seq<Node>)
    requires Shape(a) == Shape(b) && b != []
    ensures a != [] && a[0].Elem? == b[0].Elem?
  {
    assert Shape(a)[0].Elem? == a[0].Elem? && Shape(b)[0].Elem? == b[0].Elem?;
  }

  // ----- collapsed ranges -----

  lemma CaretEffect(ap: Applier, w: Node, s: RangeState, v: Node, x: Node, id: Id)
    requires Distinct(w) && ValidRange(w, s) && s.collapsed && Distinct(v) && x.Elem? && Accepts(ap, x.tag)
    requires Surrounded(w, s, v, x)
    ensures Blank(Get(v, x.id).kids)
    ensures CaretPlaced(ap, w, TextOffOf(w, s.startContainer, s.startOffset),
              Put(v, Where(v, x.id), Get(v, x.id).(kids := [Text(id, INVISIBLE_SPACE)])))
  {
    hide TextOff, Pos, Distinct, Find;
    var c, n, t := Where(v, x.id), Get(v, x.id), TextOffOf(w, s.startContainer, s.startOffset);
    assert Shape(n.kids) == [] && n.kids == [];
    NoText();
    assert Blank(n.kids);
    assert Overlaid(Statuses(ap, w), t, t, Statuses(ap, v));
    assert Statuses(ap, v) == Statuses(ap, w);
    assert Flat([v]) == Flat([w]) && Accepts(ap, n.tag);
    hide Status, Flat, Surrounded, TextOff, Accepts;
    CaretInside(ap, v, c, id);
  }

  lemma CaretInside(ap: Applier, v: Node, c: Path, id: Id)
    requires HasPath(v, c) && At(v, c).Elem? && At(v, c).kids == [] && Accepts(ap, At(v, c).tag)
    ensures ValidPoint(v, c, 0)
    ensures CaretPlaced(ap, v, TextOff(v, c, 0), Put(v, c, At(v, c).(kids := [Text(id, INVISIBLE_SPACE)])))
  {
    var n, k := At(v, c), Text(id, INVISIBLE_SPACE);
    var m := n.(kids := [k]);
    NoText();
    assert Accepts(ap, m.tag);
    hide Status, Flat, TextOff, Accepts, Inherits, OneMore;
    FlatElem(n);
    FlatElem(m);
    Singleton(k);
    FlatPut(v, c, m);
    FlatContext(v, c);
    StatusPut(ap, v, c, m, false);
    StatusOne(ap, m, Inherits(ap, v, c, false));
    StatusOne(ap, k, true);
    assert Const(1, true) == [true];
    StatusLength(ap, [v], false);
    forall other: Applier
      ensures OneMore(Status(other, [v], false), TextOff(v, c, 0), Status(other, [Put(v, c, m)], false))
    {
      OneCharacter(other, v, c, m);
    }
  }

  /** A node without text that gets one character. */
  lemma OneCharacter(ap: Applier, v: Node, c: Path, m: Node)
    requires HasPath(v, c) && Flat([At(v, c)]) == "" && |Flat([m])| == 1
    ensures ValidPoint(v, c, 0) && OneMore(Status(ap, [v], false), TextOff(v, c, 0), Status(ap, [Put(v, c, m)], false))
  {
    hide Status, Flat, TextOff, Inherits;
    StatusPut(ap, v, c, m, false);
    StatusLength(ap, [m], Inherits(ap, v, c, false));
  }

  lemma AfterCaret(ap: Applier, w: Node, t: nat, u: Node)
    requires CaretPlaced(ap, w, t, u)
    ensures Flat([u]) != Flat([w])
  {
    assert |Flat([u])| == |Flat([w])| + 1;
  }

  // ----- applyToRange -----

  /** Around the content of the new element. */
  ghost predicate AroundContent(ap: Applier, w: Node, s: RangeState, u: Node, r: RangeState)
    requires Distinct(w) && ValidRange(w, s)
  {
    exists x: Node :: x.Elem? && Accepts(ap, x.tag) && Surrounded(w, s, u, x)
      && Start(r) == Boundary(x.id, 0) && End(r) == Boundary(x.id, Len(Get(u, x.id)))
  }

  /** Behind the invisible space in a new element. */
  predicate InCaret(ap: Applier, u: Node, t: nat, r: RangeState) {
    && ValidRange(u, r) && r.collapsed && Get(u, r.startContainer).Elem? && Accepts(ap, Get(u, r.startContainer).tag)
    && TextOffOf(u, r.startContainer, r.startOffset) == t + 1
  }

  /** The branch for a range without text nodes. */
  method SurroundRange(d: Document, ap: Applier, range: Range) returns (ok: bool)
    requires d.Valid() && WellSet(ap) && PlainRoot(ap, d.world) && ValidRange(d.world, range.State())
    modifies d, range
    ensures d.Valid() && ValidRange(d.world, range.State())
    ensures old(range.State()).collapsed ==> ok
    ensures !ok ==> range.State() == old(range.State()) && PlainRoot(ap, d.world) && d.world == old(d.world)
    ensures ok && old(range.State()).collapsed ==>
      var t := TextOffOf(old(d.world), old(range.startContainer), old(range.startOffset));
      CaretPlaced(ap, old(d.world), t, d.world) && InCaret(ap, d.world, t, range.State())
    ensures ok && StartsWithElem(Content(old(d.world), old(range.State()))) ==>
      AroundContent(ap, old(d.world), old(range.State()), d.world, range.State())
  {
    ghost var w, s := d.world, range.State();
    TopElem(ap, w, s.startContainer);
    var id := d.FreshId();
    var container := Elem(id, ContainerTag(ap), []);
    ContainerAccepted(ap);
    ok := SurroundContents(d, range, container);
    if ok {
      ghost var v, next := d.world, d.nextId;
      if s.collapsed {
        CaretEffect(ap, w, s, v, container, next);
        NothingInside(w, s);
        ContentOffsets(w, s, v, container);
      } else if StartsWithElem(Content(w, s)) {
        FirstKind(Get(v, id).kids, Content(w, s));
        assert Get(v, id).kids[0] in Get(v, id).kids;
      }
      var _ := SelectNode(d, range, id);
      if s.collapsed {
        CaretOffset(v, id, next);
      }
    }
  }

  lemma NothingInside(w: Node, s: RangeState)
    requires Distinct(w) && ValidRange(w, s) && s.collapsed
    ensures !StartsWithElem(Content(w, s))
  {
  }

  /** The text offset behind the invisible space. */
  lemma CaretOffset(v: Node, x: Id, newId: Id)
    requires Distinct(v) && IsNode(v, x) && Get(v, x).Elem?
    requires Distinct(Put(v, Where(v, x), Get(v, x).(kids := [Text(newId, INVISIBLE_SPACE)])))
    ensures var u := Put(v, Where(v, x), Get(v, x).(kids := [Text(newId, INVISIBLE_SPACE)]));
      && IsPoint(v, x, 0) && IsPoint(u, x, 1)
      && Get(u, x).Elem? && Get(u, x).tag == Get(v, x).tag && Len(Get(u, x)) == 1
      && TextOffOf(u, x, 1) == TextOffOf(v, x, 0) + 1
  {
    var c, k := Where(v, x), Text(newId, INVISIBLE_SPACE);
    var m := Get(v, x).(kids := [k]);
    var u := Put(v, c, m);
    AtPut(v, c, m);
    WhereAt(u, c);
    FlatPut(v, c, m);
    Singleton(k);
    assert m.kids[..1] == [k];
    PointContext(u, c, [], 1);
    PointContext(u, c, [], 0);
    assert c + [] == c;
  }

  /** The content of the new element has the text offsets of the old boundaries. */
  lemma ContentOffsets(w: Node, s: RangeState, u: Node, x: Node)
    requires Distinct(w) && ValidRange(w, s) && Distinct(u) && x.Elem? && Surrounded(w, s, u, x)
    ensures IsPoint(u, x.id, 0) && IsPoint(u, x.id, Len(Get(u, x.id)))
    ensures TextOffOf(u, x.id, 0) == TextOffOf(w, s.startContainer, s.startOffset)
    ensures TextOffOf(u, x.id, Len(Get(u, x.id))) == TextOffOf(w, s.endContainer, s.endOffset)
  {
    var c, n := Where(u, x.id), Get(u, x.id);
    RangeText(w, s);
    ShapeFlat(n.kids);
    ShapeFlat(Content(w, s));
    PointContext(u, c, [], 0);
    PointContext(u, c, [], |n.kids|);
    assert c + [] == c && n.kids[..|n.kids|] == n.kids && n.kids[..0] == [];
  }

  method ApplyToRange(d: Document, ap: Applier, range: Range)
    requires d.Valid() && WellSet(ap) && PlainRoot(ap, d.world) && ValidRange(d.world, range.State())
    modifies d, range
    ensures d.Valid() && ValidRange(d.world, range.State())
    ensures !old(range.State()).collapsed ==> Repainted(ap, old(d.world), old(range.State()), d.world)
    ensures !old(range.State()).collapsed ==>
      StandsAt(d.world, range.State(), PaintFrom(old(d.world), old(range.State())),
        PaintTo(old(d.world), old(range.State())))
    ensures !old(range.State()).collapsed && MeetsText(old(d.world), old(range.State())) ==>
        Framed(d.world, range.State())
    ensures old(range.State()).collapsed ==>
      var t := TextOffOf(old(d.world), old(range.startContainer), old(range.startOffset));
      CaretPlaced(ap, old(d.world), t, d.world) && InCaret(ap, d.world, t, range.State())
  {
    ghost var w, s := d.world, range.State();
    TopElem(ap, w, s.startContainer);
    var isText: Seen -> bool := (x: Seen) => x.text.Some?;
    var textNodes := GetNodes(d.world, range.State(), isText);
    if textNodes == [] {
      if !s.collapsed {
        NoTextInside(ap, w, s, textNodes, isText);
      }
      var ok := SurroundRange(d, ap, range);
      if ok {
        if !s.collapsed {
          AfterSurround(ap, w, s, d.world, range.State());
        }
        return;
      }
    }
    FormatRange(d, ap, range);
  }

  lemma AfterSurround(ap: Applier, w: Node, s: RangeState, u: Node, r: RangeState)
    requires Distinct(w) && ValidRange(w, s) && Distinct(u) && ValidRange(u, r) && AroundContent(ap, w, s, u, r)
    requires TextOffOf(w, s.startContainer, s.startOffset) == TextOffOf(w, s.endContainer, s.endOffset)
    requires !StartAtEnd(w, s) && !EndAtStart(w, s)
    ensures Repainted(ap, w, s, u) && StandsAt(u, r, PaintFrom(w, s), PaintTo(w, s))
  {
    var x: Node :| x.Elem? && Accepts(ap, x.tag) && Surrounded(w, s, u, x)
      && Start(r) == Boundary(x.id, 0) && End(r) == Boundary(x.id, Len(Get(u, x.id)));
    NothingPainted(ap, w, s, u, x);
    ContentOffsets(w, s, u, x);
  }

  /** The document text is kept just when the range was not collapsed. */
  lemma TextKeptUnlessCollapsed(ap: Applier, w: Node, s: RangeState, u: Node)
    requires Distinct(w) && ValidRange(w, s)
    requires !s.collapsed ==> Repainted(ap, w, s, u)
    requires s.collapsed ==> CaretPlaced(ap, w, TextOffOf(w, s.startContainer, s.startOffset), u)
    ensures Flat([u]) == Flat([w]) <==> !s.collapsed
  {
    if s.collapsed {
      AfterCaret(ap, w, TextOffOf(w, s.startContainer, s.startOffset), u);
    }
  }
}

/** HTMLApplier.applyToRange, with normalisation off: formats the text of a range. */
module HtmlApplier {
  import opened Wrappers
  import opened Tree
  import opened Positions
  import opened Navigation
  import opened Slices
  import opened Ranges
  import opened Traversal
  import opened RangeQueries
  import opened NodeOrder
  import opened RangeContents
  import opened Documents
  import opened DomRange
  import opened Splitting
  import opened BoundarySplits
  import opened Formatting

  /** The status of all characters of the world. */
  function Statuses(ap: Applier, w: Node): seq<bool> {
    Status(ap, [w], false)
  }

  /** The virtual root is no element of the page, and the trees below it are documents or fragments. */
  predicate PlainRoot(ap: Applier, w: Node) {
    w.Elem? && !Accepts(ap, w.tag) && forall i :: 0 <= i < |w.kids| ==> w.kids[i].Elem?
  }

  /** Whether getAncestorWithClass finds something for a node. */
  predicate Formatted(ap: Applier, w: Node, id: Id)
    requires IsNode(w, id)
  {
    Inherits(ap, w, Where(w, id), false) || (Get(w, id).Elem? && Accepts(ap, Get(w, id).tag))
  }

  method GetAncestorWithClass(ap: Applier, w: Node, node: Id) returns (r: Option<Id>)
    requires Distinct(w) && IsNode(w, node) && PlainRoot(ap, w)
    ensures r.Some? <==> Formatted(ap, w, node)
    ensures r.Some? ==> IsNode(w, r.value) && Where(w, r.value) <= Where(w, node)
    ensures r.Some? ==> Get(w, r.value).Elem? && Accepts(ap, Get(w, r.value).tag)
  {
    ghost var p := Where(w, node);
    InheritsWay(ap, w, p, false);
    var n := Some(node);
    ghost var k: nat := |p|;
    assert p[..k] == p && p[..0] == [];
    while n.Some?
      invariant k <= |p|
      invariant n == if k == 0 then None else Some(At(w, p[..k]).id)
      invariant forall j :: k < j <= |p| ==> !(At(w, p[..j]).Elem? && Accepts(ap, At(w, p[..j]).tag))
      decreases k
    {
      ParentAt(w, p[..k]);
      WhereAt(w, p[..k]);
      if Get(w, n.value).Elem? && Accepts(ap, Get(w, n.value).tag) {
        return n;
      }
      assert Front(p[..k]) == p[..k - 1];
      n, k := ParentNode(w, n.value), k - 1;
    }
    r := None;
  }

  // ----- one text node -----

  /** A text node of the page: it has a parent. */
  predicate TextNode(w: Node, x: Id) {
    IsNode(w, x) && Get(w, x).Text? && |Where(w, x)| > 1
  }

  /** Every valid range of the old world is a valid range of the new one. */
  ghost predicate KeepsRanges(w: Node, v: Node) {
    forall r: RangeState :: ValidRange(w, r) ==> ValidRange(v, r)
  }

  /** No character gets or loses a format that has nothing to do with this one. */
  ghost predicate OthersKept(ap: Applier, w: Node, v: Node) {
    forall other: Applier :: Unrelated(ap, other) ==> Statuses(other, v) == Statuses(other, w)
  }

  /** The characters of a text node get the status, and nothing else changes. */
  ghost predicate Painted(ap: Applier, w: Node, x: Id, v: Node)
    requires TextNode(w, x)
  {
    var t, k := TextOffOf(w, x, 0), Len(Get(w, x));
    && Leaves([v]) == Leaves([w]) && SameTop(w, v) && KeepsRanges(w, v) && OthersKept(ap, w, v)
    && t + k <= |Statuses(ap, w)|
    && Statuses(ap, v) == Statuses(ap, w)[..t] + Const(k, true) + Statuses(ap, w)[t + k..]
  }

  /** The element around a text node afterwards: its parent, if that had no other child and a fitting name, with
      its name and its dissimilar classes and with the wanted class at the end; or a new element with the first
      name and no other class. */
  ghost predicate Dressed(ap: Applier, w: Node, x: Id, v: Node, newId: Id)
    requires TextNode(w, x) && ap.tagNames != []
  {
    && TextNode(v, x) && ParentNode(w, x).Some? && ParentNode(v, x).Some?
    && var y, z := ParentNode(w, x).value, ParentNode(v, x).value;
    && IsNode(w, y) && IsNode(v, z) && Get(w, y).Elem? && Get(v, z).Elem? && Get(v, z).kids == [Get(w, x)]
    && var t, u := Get(w, y).tag, Get(v, z).tag;
    if |Get(w, y).kids| == 1 && t.name in ap.tagNames then
      && z == y && u.name == t.name && u.classes != [] && u.classes[|u.classes| - 1] == ap.cssClass
      && Picked(t.classes, Foreign(ap), u.classes[..|u.classes| - 1])
    else z == newId && u == Tag(ap.tagNames[0], if ap.cssClass == "" then [] else [ap.cssClass])
  }

  method ApplyToTextNode(d: Document, ap: Applier, textNode: Id)
    requires d.Valid() && WellSet(ap) && PlainRoot(ap, d.world)
    requires TextNode(d.world, textNode) && !Formatted(ap, d.world, textNode)
    modifies d
    ensures d.Valid() && Painted(ap, old(d.world), textNode, d.world)
    ensures Dressed(ap, old(d.world), textNode, d.world, old(d.nextId))
  {
    ghost var w, p := d.world, Where(d.world, textNode);
    ParentAt(w, p);
    WhereAt(w, Front(p));
    AtPrefix(w, p, |p| - 1);
    assert p == Front(p) + [Last(p)];
    var parent := ParentNode(d.world, textNode).value;
    var tag := Get(d.world, parent).tag;
    if |ChildNodes(d.world, parent)| == 1 && tag.name in ap.tagNames {
      OnlyChildUnformatted(ap, w, textNode);
      d.SetTag(parent, AddClass(ap, tag));
      AddedAccepted(ap, tag);
      forall other | Unrelated(ap, other) ensures Accepts(other, AddClass(ap, tag)) == Accepts(other, tag) {
        OtherStays(ap, other, tag);
      }
      PaintParent(ap, w, textNode, AddClass(ap, tag));
      DressedParent(ap, w, textNode, d.nextId);
    } else {
      var text := Get(d.world, textNode);
      var id := d.FreshId();
      var container := Elem(id, ContainerTag(ap), []);
      assert [text][1..] == [] && [container][1..] == [];
      CountAt(w, p, textNode);
      d.InsertBefore([container], textNode);
      assert [container] + [text] == [container, text];
      WrapInserted(w, p, container, d.world);
      LooseThen(d.world, textNode, d.nextId);
      WrapRemoved(w, p, container, Replaced(d.world, textNode, []));
      var _ := d.MoveInto(textNode, id);
      WrapDone(w, p, container, d.world);
      PaintWrap(ap, w, textNode, id);
      DressedNew(ap, w, textNode, id);
    }
  }

  lemma DressedParent(ap: Applier, w: Node, x: Id, newId: Id)
    requires Distinct(w) && TextNode(w, x) && ap.tagNames != []
    requires HasPath(w, Front(Where(w, x))) && At(w, Front(Where(w, x))).Elem?
    requires |At(w, Front(Where(w, x))).kids| == 1 && At(w, Front(Where(w, x))).tag.name in ap.tagNames
    requires var f, n := Front(Where(w, x)), At(w, Front(Where(w, x)));
      Distinct(Put(w, f, n.(tag := AddClass(ap, n.tag))))
    ensures var f, n := Front(Where(w, x)), At(w, Front(Where(w, x)));
      Dressed(ap, w, x, Put(w, f, n.(tag := AddClass(ap, n.tag))), newId)
  {
    var p := Where(w, x);
    var f := Front(p);
    var n := At(w, f);
    assert p == f + [Last(p)];
    AtAppend(w, f, [Last(p)]);
    ParentAt(w, p);
    WhereAt(w, f);
    assert n.kids == [Get(w, x)];
    var m := n.(tag := AddClass(ap, n.tag));
    var v := Put(w, f, m);
    AtPut(w, f, m);
    WhereAt(v, f);
    KidAt(v, f, 0);
    ParentAt(v, p);
    AddClassKeeps(ap, n.tag);
  }

  lemma DressedNew(ap: Applier, w: Node, x: Id, id: Id)
    requires Distinct(w) && TextNode(w, x) && ap.tagNames != []
    requires Distinct(Put(w, Where(w, x), Elem(id, ContainerTag(ap), [Get(w, x)])))
    requires ParentNode(w, x).Some? && IsNode(w, ParentNode(w, x).value)
    requires var n := Get(w, ParentNode(w, x).value); n.Elem? && !(|n.kids| == 1 && n.tag.name in ap.tagNames)
    ensures Dressed(ap, w, x, Put(w, Where(w, x), Elem(id, ContainerTag(ap), [Get(w, x)])), id)
  {
    var p, m := Where(w, x), Elem(id, ContainerTag(ap), [Get(w, x)]);
    var v := Put(w, p, m);
    AtPut(w, p, m);
    WhereAt(v, p);
    KidAt(v, p, 0);
    ParentAt(v, p + [0]);
    assert Front(p + [0]) == p;
  }

  /** If the only child of an element with a fitting name is not formatted, a class is looked for and missing. */
  lemma OnlyChildUnformatted(ap: Applier, w: Node, x: Id)
    requires Distinct(w) && TextNode(w, x) && !Formatted(ap, w, x)
    requires HasPath(w, Front(Where(w, x))) && At(w, Front(Where(w, x))).Elem?
    requires At(w, Front(Where(w, x))).tag.name in ap.tagNames
    ensures ap.cssClass != ""
  {
    var p := Where(w, x);
    InheritsWay(ap, w, p, false);
    assert p[..|p| - 1] == Front(p);
  }

  lemma {:induction false} PutKeeps(n: Node, c: Path, x: Node, p: Path)
    requires HasPath(n, c) && HasPath(n, p) && !(c <= p)
    ensures HasPath(Put(n, c, x), p)
    ensures At(Put(n, c, x), p).id == At(n, p).id && Len(At(Put(n, c, x), p)) == Len(At(n, p))
  {
    if p != [] && p[0] == c[0] {
      assert c[1..] <= p[1..] ==> c <= p;
      PutKeeps(n.kids[c[0]], c[1..], x, p[1..]);
    }
  }

  /** A node that is found in both worlds, with as many children or characters. */
  predicate StaysAt(w: Node, v: Node, x: Id, q: Path) {
    IsNode(w, x) && IsNode(v, x) && Where(v, x) == q && Len(Get(v, x)) == Len(Get(w, x))
  }

  /** Changing an element's tag moves no node. */
  lemma RetagKeeps(w: Node, c: Path, tag: Tag, x: Id)
    requires Distinct(w) && HasPath(w, c) && c != [] && At(w, c).Elem? && Distinct(Put(w, c, At(w, c).(tag := tag)))
    requires IsNode(w, x)
    ensures StaysAt(w, Put(w, c, At(w, c).(tag := tag)), x, Where(w, x))
  {
    var n, m := At(w, c), At(w, c).(tag := tag);
    var v, p := Put(w, c, m), Where(w, x);
    if c <= p {
      var q := p[|c|..];
      assert p == c + q;
      AtAppend(w, c, q);
      AtPut(w, c, m);
      AtAppend(v, c, q);
      assert HasPath(m, q) && At(m, q).id == At(n, q).id && Len(At(m, q)) == Len(At(n, q));
    } else {
      PutKeeps(w, c, m, p);
    }
    WhereAt(v, p);
  }

  /** Wrapping a text node moves that node one level down and no other. */
  lemma WrapKeeps(w: Node, c: Path, m: Node, x: Id)
    requires Distinct(w) && HasPath(w, c) && c != [] && At(w, c).Text? && m.Elem? && m.kids == [At(w, c)]
    requires Distinct(Put(w, c, m))
    requires IsNode(w, x)
    ensures StaysAt(w, Put(w, c, m), x, Lowered(c, Where(w, x)))
    ensures c <= Where(w, x) ==> Where(w, x) == c
  {
    var v, p := Put(w, c, m), Where(w, x);
    if c <= p {
      var q := p[|c|..];
      assert p == c + q;
      AtAppend(w, c, q);
      assert q == [];
      assert p == c;
      AtPut(w, c, m);
      KidAt(v, c, 0);
    } else {
      PutKeeps(w, c, m, p);
      WhereAt(v, p);
    }
  }

  function Lowered(c: Path, p: Path): Path {
    if p == c then c + [0] else p
  }

  /** Two paths, one of which may have been lowered, against each other. */
  lemma {:induction false} LoweredPair(c: Path, p: Path, a: nat, q: Path, b: nat)
    requires c <= p ==> p == c
    requires c <= q ==> q == c
    ensures Cmp(Code(Lowered(c, p), a), Code(Lowered(c, q), b)) == Cmp(Code(p, a), Code(q, b))
    ensures CommonPrefix(Lowered(c, p), Lowered(c, q)) == if p == c && q == c then c + [0] else CommonPrefix(p, q)
    ensures !(p == c && q == c) ==> !(c <= CommonPrefix(p, q))
  {
    if p == c && q == c {
      LoweredSame(c, a, b);
    } else if p != [] && q != [] && p[0] == q[0] && c != [] && c[0] == p[0] {
      assert p == [p[0]] + p[1..] && q == [q[0]] + q[1..] && c == [c[0]] + c[1..];
      assert c <= p <==> c[1..] <= p[1..];
      assert c <= q <==> c[1..] <= q[1..];
      LoweredPair(c[1..], p[1..], a, q[1..], b);
      LoweredTail(c, p);
      LoweredTail(c, q);
    } else {
      LoweredApart(c, p, a, q, b);
    }
  }

  lemma LoweredSame(c: Path, a: nat, b: nat)
    ensures Cmp(Code(c + [0], a), Code(c + [0], b)) == Cmp(Code(c, a), Code(c, b))
    ensures CommonPrefix(c + [0], c + [0]) == c + [0]
  {
    SplitCodes(c, c + [0], a, c + [0], b);
    SplitCodes(c, c, a, c, b);
    PrefixCommon(c + [0], c + [0], c + [0]);
  }

  lemma LoweredApart(c: Path, p: Path, a: nat, q: Path, b: nat)
    requires c <= p ==> p == c
    requires c <= q ==> q == c
    requires !(p == c && q == c) && !(p != [] && q != [] && p[0] == q[0] && c != [] && c[0] == p[0])
    ensures Cmp(Code(Lowered(c, p), a), Code(Lowered(c, q), b)) == Cmp(Code(p, a), Code(q, b))
    ensures CommonPrefix(Lowered(c, p), Lowered(c, q)) == CommonPrefix(p, q)
    ensures !(c <= CommonPrefix(p, q))
  {
  }

  lemma LoweredTail(c: Path, p: Path)
    requires c != [] && p != [] && c[0] == p[0]
    ensures Lowered(c, p) == [p[0]] + Lowered(c[1..], p[1..])
  {
    assert p == [p[0]] + p[1..] && c == [c[0]] + c[1..];
    assert c + [0] == [c[0]] + (c[1..] + [0]);
  }

  lemma RetagRanges(w: Node, c: Path, tag: Tag)
    requires Distinct(w) && HasPath(w, c) && c != [] && At(w, c).Elem? && Distinct(Put(w, c, At(w, c).(tag := tag)))
    ensures KeepsRanges(w, Put(w, c, At(w, c).(tag := tag)))
  {
    var v := Put(w, c, At(w, c).(tag := tag));
    forall r: RangeState | ValidRange(w, r) ensures ValidRange(v, r) {
      RetagKeeps(w, c, tag, r.startContainer);
      RetagKeeps(w, c, tag, r.endContainer);
      RangeShape(w, r);
      RetagKeeps(w, c, tag, r.commonAncestorContainer);
    }
  }

  lemma WrapRanges(w: Node, c: Path, m: Node)
    requires Distinct(w) && HasPath(w, c) && c != [] && At(w, c).Text? && m.Elem? && m.kids == [At(w, c)]
    requires Distinct(Put(w, c, m))
    ensures KeepsRanges(w, Put(w, c, m))
  {
    hide Distinct, Find, Where, Put, At, Cmp, Code;
    var v := Put(w, c, m);
    forall r: RangeState | ValidRange(w, r) ensures ValidRange(v, r) {
      WrapKeeps(w, c, m, r.startContainer);
      WrapKeeps(w, c, m, r.endContainer);
      RangeShape(w, r);
      WrapKeeps(w, c, m, r.commonAncestorContainer);
      LoweredPair(c, Where(w, r.startContainer), r.startOffset, Where(w, r.endContainer), r.endOffset);
    }
  }

  lemma PaintParent(ap: Applier, w: Node, x: Id, tag: Tag)
    requires Distinct(w) && TextNode(w, x) && Accepts(ap, tag)
    requires HasPath(w, Front(Where(w, x))) && At(w, Front(Where(w, x))).Elem?
    requires Distinct(Put(w, Front(Where(w, x)), At(w, Front(Where(w, x))).(tag := tag)))
    requires |At(w, Front(Where(w, x))).kids| == 1
    requires forall other ::
        Unrelated(ap, other) ==> Accepts(other, tag) == Accepts(other, At(w, Front(Where(w, x))).tag)
    ensures Painted(ap, w, x, Put(w, Front(Where(w, x)), At(w, Front(Where(w, x))).(tag := tag)))
  {
    var f := Front(Where(w, x));
    var n := At(w, f);
    var m := n.(tag := tag);
    OnlyText(w, Where(w, x));
    StatusOne(ap, m, Inherits(ap, w, f, false));
    StatusInherited(ap, m.kids);
    LeavesOne(n);
    LeavesOne(m);
    RetagRanges(w, f, tag);
    forall other | Unrelated(ap, other) ensures SameStatus(other, w, f, m) {
      StatusOne(other, n, Inherits(other, w, f, false));
      StatusOne(other, m, Inherits(other, w, f, false));
    }
    PaintedBy(ap, w, x, f, m);
  }

  /** An exchanged subtree gives its characters the same status. */
  predicate SameStatus(ap: Applier, w: Node, c: Path, m: Node)
    requires HasPath(w, c)
  {
    Status(ap, [m], Inherits(ap, w, c, false)) == Status(ap, [At(w, c)], Inherits(ap, w, c, false))
  }

  lemma SameStatusPut(ap: Applier, w: Node, c: Path, m: Node)
    requires HasPath(w, c) && SameStatus(ap, w, c, m)
    ensures Statuses(ap, Put(w, c, m)) == Statuses(ap, w)
  {
    hide Status, Flat, Inherits;
    StatusPut(ap, w, c, m, false);
    StatusContext(ap, w, c, false);
    Unmoved(Status(ap, [w], false), TextOff(w, c, 0), |Flat([At(w, c)])|, Status(ap, [m], Inherits(ap, w, c, false)));
  }

  /** What makes an exchanged subtree a painted text node. */
  lemma PaintedBy(ap: Applier, w: Node, x: Id, c: Path, m: Node)
    requires TextNode(w, x) && HasPath(w, c) && c != [] && m.Elem?
    requires ValidPoint(w, c, 0) && TextOff(w, c, 0) == TextOffOf(w, x, 0) && |Flat([At(w, c)])| == Len(Get(w, x))
    requires Status(ap, [m], Inherits(ap, w, c, false)) == Const(Len(Get(w, x)), true)
    requires Leaves([m]) == Leaves([At(w, c)]) && KeepsRanges(w, Put(w, c, m))
    requires forall other :: Unrelated(ap, other) ==> SameStatus(other, w, c, m)
    ensures Painted(ap, w, x, Put(w, c, m))
  {
    hide Status, Leaves, Flat, KeepsRanges, Const, Inherits, SameStatus, Unrelated;
    forall other | Unrelated(ap, other) ensures Statuses(other, Put(w, c, m)) == Statuses(other, w) {
      SameStatusPut(other, w, c, m);
    }
    StatusPut(ap, w, c, m, false);
    LeavesPut(w, c, m);
    PutRootTag(w, c, m);
  }

  /** An only child that is a text node is all the text of its parent. */
  lemma OnlyText(w: Node, p: Path)
    requires HasPath(w, p) && |p| > 1 && At(w, p).Text?
    requires HasPath(w, Front(p)) && At(w, Front(p)).Elem? && |At(w, Front(p)).kids| == 1
    ensures ValidPoint(w, p, 0) && ValidPoint(w, Front(p), 0) && TextOff(w, p, 0) == TextOff(w, Front(p), 0)
    ensures Flat([At(w, Front(p))]) == Flat(At(w, Front(p)).kids) == At(w, p).data
  {
    var f := Front(p);
    var n := At(w, f);
    assert p == f + [Last(p)];
    AtAppend(w, f, [Last(p)]);
    assert Last(p) == 0;
    assert n.kids == [At(w, p)];
    PointContext(w, f, [0], 0);
    assert n.kids[..0] == [];
    assert TextOff(n, [0], 0) == 0 by { assert [0][1..] == []; }
    FlatElem(n);
    Singleton(At(w, p));
  }

  /** The moves that wrap a text node: the container goes in front of it, and it goes out of its parent into
      the container. */
  lemma WrapInserted(w: Node, p: Path, container: Node, v: Node)
    requires Distinct(w) && HasPath(w, p) && |p| > 1 && Distinct(v) && container.Elem? && container.kids == []
    requires IsNode(w, At(w, p).id) && Where(w, At(w, p).id) == p
    requires v == Replaced(w, At(w, p).id, [container, At(w, p)])
    ensures HasPath(w, Front(p)) && At(w, Front(p)).Elem? && Last(p) < |At(w, Front(p)).kids|
    ensures IsNode(v, At(w, p).id) && Get(v, At(w, p).id) == At(w, p)
    ensures IsNode(v, container.id) && Get(v, container.id).Elem? && !(Where(v, At(w, p).id) <= Where(v, container.id))
    ensures Replaced(v, At(w, p).id, []) == Replaced(w, At(w, p).id, [container])
  {
    var f, j, x := Front(p), Last(p), At(w, p);
    AtPrefix(w, p, |f|);
    assert p == f + [j];
    AtAppend(w, f, [j]);
    var n := At(w, f);
    var m := Splice(n, j, [container, x]);
    AtPut(w, f, m);
    assert m.kids[j] == container && m.kids[j + 1] == x;
    KidAt(v, f, j);
    KidAt(v, f, j + 1);
    ReplacedBelow(v, f, j + 1, []);
    assert Splice(m, j + 1, []).kids == Splice(n, j, [container]).kids;
    PutPut(w, f, m, Splice(m, j + 1, []));
  }

  lemma WrapRemoved(w: Node, p: Path, container: Node, v: Node)
    requires Distinct(w) && HasPath(w, p) && |p| > 1 && Distinct(v) && container.Elem? && container.kids == []
    requires IsNode(w, At(w, p).id) && Where(w, At(w, p).id) == p && v == Replaced(w, At(w, p).id, [container])
    ensures IsNode(v, container.id) && Where(v, container.id) == p && Get(v, container.id) == container
  {
    ReplacedOne(w, At(w, p).id, container);
    AtPut(w, p, container);
    WhereAt(v, p);
  }

  lemma WrapDone(w: Node, p: Path, container: Node, v: Node)
    requires HasPath(w, p) && |p| > 1 && container.Elem? && container.kids == []
    requires IsNode(w, At(w, p).id) && Where(w, At(w, p).id) == p
    requires HasPath(Replaced(w, At(w, p).id, [container]), p)
    requires v == Put(Replaced(w, At(w, p).id, [container]), p, container.(kids := container.kids + [At(w, p)]))
    ensures v == Put(w, p, container.(kids := [At(w, p)]))
  {
    ReplacedOne(w, At(w, p).id, container);
    assert container.kids + [At(w, p)] == [At(w, p)];
    PutPut(w, p, container, container.(kids := [At(w, p)]));
  }

  lemma PaintWrap(ap: Applier, w: Node, x: Id, id: Id)
    requires Distinct(w) && WellSet(ap) && TextNode(w, x)
    requires Distinct(Put(w, Where(w, x), Elem(id, ContainerTag(ap), [Get(w, x)])))
    ensures Painted(ap, w, x, Put(w, Where(w, x), Elem(id, ContainerTag(ap), [Get(w, x)])))
  {
    var p, n := Where(w, x), Get(w, x);
    var m := Elem(id, ContainerTag(ap), [n]);
    ContainerAccepted(ap);
    StatusOne(ap, m, Inherits(ap, w, p, false));
    StatusInherited(ap, [n]);
    LeavesOne(m);
    LeavesOne(n);
    Singleton(n);
    WrapRanges(w, p, m);
    forall other | Unrelated(ap, other) ensures SameStatus(other, w, p, m) {
      StatusOne(other, m, Inherits(other, w, p, false));
    }
    PaintedBy(ap, w, x, p, m);
  }

  // ----- all text nodes of the range -----

  /** Worlds with the same text nodes: each is found at the same text offset. */
  lemma KeepsTextNode(w: Node, v: Node, x: Id)
    requires Distinct(w) && Distinct(v) && TextNode(w, x) && Leaves([v]) == Leaves([w]) && SameTop(w, v)
    ensures TextNode(v, x) && Get(v, x) == Get(w, x) && TextOffOf(v, x, 0) == TextOffOf(w, x, 0)
  {
    var k := LeafOf(w, Where(w, x));
    var p := LeafPath(v, k);
    WhereAt(v, p);
    if |p| == 1 {
      assert p == [p[0]] && p[1..] == [];
      assert w.kids[p[0]] == v.kids[p[0]];
      assert HasPath(w, p) && At(w, p).id == x;
      WhereAt(w, p);
    }
  }

  /** Whether a character belongs to one of some text nodes. */
  ghost predicate InSome(w: Node, nodes: seq<Id>, i: int) {
    exists x :: x in nodes && TextNode(w, x) && TextOffOf(w, x, 0) <= i < TextOffOf(w, x, 0) + Len(Get(w, x))
  }

  /** The characters of some text nodes have got the status, and nothing else has changed. */
  ghost predicate Spread(ap: Applier, w: Node, nodes: seq<Id>, v: Node) {
    && Leaves([v]) == Leaves([w]) && SameTop(w, v) && KeepsRanges(w, v) && OthersKept(ap, w, v)
    && |Statuses(ap, v)| == |Statuses(ap, w)|
    && forall i :: 0 <= i < |Statuses(ap, w)| ==> Statuses(ap, v)[i] == (Statuses(ap, w)[i] || InSome(w, nodes, i))
  }

  lemma SpreadMore(ap: Applier, w: Node, nodes: seq<Id>, v: Node, x: Id, u: Node)
    requires Distinct(w) && Distinct(v) && TextNode(w, x) && Spread(ap, w, nodes, v)
    requires TextNode(v, x) && Painted(ap, v, x, u)
    ensures Spread(ap, w, nodes + [x], u)
  {
    KeepsTextNode(w, v, x);
    hide Statuses, Leaves, TextNode, InSome, Const, Unrelated;
    SpreadStatus(w, nodes, x, Statuses(ap, w), Statuses(ap, v), Statuses(ap, u), TextOffOf(w, x, 0), Len(Get(w, x)));
  }

  /** A formatted text node is as good as painted. */
  lemma AlreadyPainted(ap: Applier, v: Node, x: Id)
    requires Distinct(v) && TextNode(v, x) && Formatted(ap, v, x)
    ensures Painted(ap, v, x, v)
  {
    var s, t, k := Statuses(ap, v), TextOffOf(v, x, 0), Len(Get(v, x));
    StatusOfText(ap, v, x);
    assert s[..t] + Const(k, true) + s[t + k..] == s;
  }

  lemma SpreadStatus(w: Node, nodes: seq<Id>, x: Id, a: seq<bool>, b: seq<bool>, c: seq<bool>, t: nat, k: nat)
    requires TextNode(w, x) && t == TextOffOf(w, x, 0) && k == Len(Get(w, x))
    requires |a| == |b| && t + k <= |b| && c == b[..t] + Const(k, true) + b[t + k..]
    requires forall i :: 0 <= i < |a| ==> b[i] == (a[i] || InSome(w, nodes, i))
    ensures |c| == |a| && forall i :: 0 <= i < |a| ==> c[i] == (a[i] || InSome(w, nodes + [x], i))
  {
    forall i | 0 <= i < |a| ensures c[i] == (a[i] || InSome(w, nodes + [x], i)) {
      assert c[i] == (b[i] || t <= i < t + k);
      InSomeMore(w, nodes, x, i);
    }
  }

  lemma InSomeMore(w: Node, nodes: seq<Id>, x: Id, i: int)
    requires TextNode(w, x)
    ensures InSome(w, nodes + [x], i)
        <==> InSome(w, nodes, i) || TextOffOf(w, x, 0) <= i < TextOffOf(w, x, 0) + Len(Get(w, x))
  {
    assert x in nodes + [x];
    assert forall y :: y in nodes ==> y in nodes + [x];
  }

  method FormatNodes(d: Document, ap: Applier, textNodes: seq<Id>)
    requires d.Valid() && WellSet(ap) && PlainRoot(ap, d.world)
    requires forall x :: x in textNodes ==> TextNode(d.world, x)
    modifies d
    ensures d.Valid() && Spread(ap, old(d.world), textNodes, d.world)
  {
    hide Status, Find, Inherits, Where, Flat, OthersKept, Dressed;
    ghost var w := d.world;
    assert textNodes[..0] == [];
    SpreadNone(ap, w);
    for i := 0 to |textNodes|
      invariant d.Valid() && Spread(ap, w, textNodes[..i], d.world)
    {
      var textNode := textNodes[i];
      assert textNode in textNodes;
      KeepsTextNode(w, d.world, textNode);
      ghost var v := d.world;
      var ancestor := GetAncestorWithClass(ap, d.world, textNode);
      if ancestor.None? {
        ApplyToTextNode(d, ap, textNode);
      } else {
        AlreadyPainted(ap, v, textNode);
      }
      SpreadMore(ap, w, textNodes[..i], v, textNode, d.world);
      assert textNodes[..i + 1] == textNodes[..i] + [textNode];
    }
    assert textNodes[..|textNodes|] == textNodes;
  }

  // ----- which text nodes those are -----

  predicate IsText(v: Seen) {
    v.text.Some?
  }

  /** The extent of a text node. */
  lemma TextExtent(w: Node, x: Id)
    requires Distinct(w) && TextNode(w, x)
    ensures ParentNode(w, x).Some? && IsNode(w, ParentNode(w, x).value)
    ensures var y, i := ParentNode(w, x).value, Index(w, x);
      && IsPoint(w, y, i) && IsPoint(w, y, i + 1)
      && PosOf(w, y, i) + 1 == PosOf(w, x, 0) && PosOf(w, y, i + 1) == PosOf(w, x, Len(Get(w, x))) + 1
      && PosOf(w, x, Len(Get(w, x))) == PosOf(w, x, 0) + Len(Get(w, x))
      && TextOffOf(w, y, i) == TextOffOf(w, x, 0) && TextOffOf(w, y, i + 1) == TextOffOf(w, x, 0) + Len(Get(w, x))
  {
    var p := Where(w, x);
    var f, i, n := Front(p), Last(p), Get(w, x);
    assert p == f + [i];
    ParentAt(w, p);
    AtPrefix(w, p, |f|);
    WhereAt(w, f);
    AtAppend(w, f, [i]);
    PosText(At(w, f), i, 0);
    PosText(At(w, f), i, |n.data|);
    PointContext(w, f, [i], 0);
    PointContext(w, f, [i], |n.data|);
    PointContext(w, f, [], i);
    PointContext(w, f, [], i + 1);
    assert f + [] == f;
    WidthStep(At(w, f).kids, i);
    Singleton(n);
  }

  /** Intersecting a text node, in positions. */
  lemma TextMeets(w: Node, r: RangeState, x: Id)
    requires Distinct(w) && ValidRange(w, r) && TextNode(w, x)
    ensures Intersects(w, r, x) <==>
      PosOf(w, x, 0) <= PosOf(w, r.endContainer, r.endOffset)
      && PosOf(w, x, 0) + Len(Get(w, x)) >= PosOf(w, r.startContainer, r.startOffset)
  {
    TextExtent(w, x);
    var y, i := ParentNode(w, x).value, Index(w, x);
    CmpIsPos(w, Where(w, y), i, Where(w, r.endContainer), r.endOffset);
    CmpIsPos(w, Where(w, y), i + 1, Where(w, r.startContainer), r.startOffset);
  }

  /** A text node that intersects a range lies below the range's common ancestor, or is it. */
  lemma MeetsBelow(w: Node, r: RangeState, x: Id)
    requires Distinct(w) && ValidRange(w, r) && TextNode(w, x) && Intersects(w, r, x)
    ensures RootPath(w, r) <= Where(w, x)
  {
    RangeShape(w, r);
    TextMeets(w, r, x);
    var c, t, k := RootPath(w, r), Where(w, x), Len(Get(w, x));
    if t <= c {
      AtPrefix(w, c, |t|);
      assert c[..|t|] == t && c[|t|..] == [];
      assert t == c;
    } else if !(c <= t) {
      ApartMisses(w, r, x);
    }
  }

  /** A text node beside the common ancestor lies before or after the whole range. */
  lemma ApartMisses(w: Node, r: RangeState, x: Id)
    requires Distinct(w) && ValidRange(w, r) && TextNode(w, x)
    requires !(RootPath(w, r) <= Where(w, x)) && !(Where(w, x) <= RootPath(w, r))
    ensures !Intersects(w, r, x)
  {
    hide Find, Flat;
    RangeShape(w, r);
    TextMeets(w, r, x);
    TextPos(w, x, Len(Get(w, x)));
    var c, t, k := RootPath(w, r), Where(w, x), Len(Get(w, x));
    Diverge(t, k, c, StartBelow(w, r), r.startOffset);
    Diverge(t, 0, c, EndBelow(w, r), r.endOffset);
    CmpIsPos(w, t, 0, Where(w, r.endContainer), r.endOffset);
    CmpIsPos(w, t, k, Where(w, r.startContainer), r.startOffset);
    CmpZero(t, k, Where(w, r.startContainer), r.startOffset);
    assert c <= c + StartBelow(w, r);
  }

  /** The text nodes of a range are those that intersect it. */
  lemma TextNodesOf(w: Node, r: RangeState, nodes: seq<Id>, accept: Seen -> bool)
    requires Distinct(w) && ValidRange(w, r) && !r.collapsed && Attached(w, r)
    requires forall v :: accept(v) == IsText(v)
    requires nodes == Accepted(w, Hits(w, r, Candidates(w, r)), accept)
    ensures forall x :: x in nodes <==> TextNode(w, x) && Intersects(w, r, x)
  {
    AcceptedMembers(w, Hits(w, r, Candidates(w, r)), accept);
    HitsMembers(w, r, Candidates(w, r));
    forall x ensures x in nodes <==> TextNode(w, x) && Intersects(w, r, x) {
      if x in nodes {
        ParentAt(w, Where(w, x));
      } else if TextNode(w, x) && Intersects(w, r, x) {
        MeetsBelow(w, r, x);
        BelowIsCandidate(w, r, x);
      }
    }
  }

  // ----- the characters those text nodes hold -----

  /** Positions inside a text node belong to the text node alone. */
  lemma NotWithin(w: Node, x: Id, y: Id, o: nat)
    requires Distinct(w) && TextNode(w, x) && IsPoint(w, y, o) && y != x
    ensures PosOf(w, y, o) < PosOf(w, x, 0) || PosOf(w, y, o) > PosOf(w, x, 0) + Len(Get(w, x))
  {
    if PosOf(w, x, 0) <= PosOf(w, y, o) <= PosOf(w, x, 0) + Len(Get(w, x)) {
      var k := PosOf(w, y, o) - PosOf(w, x, 0);
      TextPos(w, x, k);
      PointsOrdered(w, x, k, y, o);
    }
  }

  lemma TextPos(w: Node, x: Id, k: nat)
    requires Distinct(w) && TextNode(w, x) && k <= Len(Get(w, x))
    ensures IsPoint(w, x, k) && PosOf(w, x, k) == PosOf(w, x, 0) + k && TextOffOf(w, x, k) == TextOffOf(w, x, 0) + k
  {
    PointContext(w, Where(w, x), [], k);
    PointContext(w, Where(w, x), [], 0);
    assert Where(w, x) + [] == Where(w, x);
  }

  lemma TextOffMono(w: Node, x: Id, a: nat, y: Id, b: nat)
    requires Distinct(w) && IsPoint(w, x, a) && IsPoint(w, y, b) && PosOf(w, x, a) <= PosOf(w, y, b)
    ensures TextOffOf(w, x, a) <= TextOffOf(w, y, b)
  {
    CmpIsPos(w, Where(w, x), a, Where(w, y), b);
  }

  /** The first character that gets the status: that of the start's text node, or that at the start. */
  function From(w: Node, r: RangeState): nat
    requires ValidRange(w, r)
  {
    if Get(w, r.startContainer).Text? then TextOffOf(w, r.startContainer, 0)
    else TextOffOf(w, r.startContainer, r.startOffset)
  }

  /** One past the last. */
  function To(w: Node, r: RangeState): nat
    requires ValidRange(w, r)
  {
    if Get(w, r.endContainer).Text? then TextOffOf(w, r.endContainer, 0) + Len(Get(w, r.endContainer))
    else TextOffOf(w, r.endContainer, r.endOffset)
  }

  /** A text node intersects a range, or ends before it. */
  lemma FromSide(w: Node, r: RangeState, x: Id)
    requires Distinct(w) && ValidRange(w, r) && TextNode(w, x) && TextNodeOrElem(w, r.startContainer)
    ensures PosOf(w, x, 0) + Len(Get(w, x)) >= PosOf(w, r.startContainer, r.startOffset) ==>
        From(w, r) <= TextOffOf(w, x, 0)
    ensures PosOf(w, x, 0) + Len(Get(w, x)) < PosOf(w, r.startContainer, r.startOffset) ==>
      TextOffOf(w, x, 0) + Len(Get(w, x)) <= From(w, r)
  {
    var s, o, k := r.startContainer, r.startOffset, Len(Get(w, x));
    var y, z := s, if Get(w, s).Text? then 0 else o;
    TextPos(w, x, k);
    if s != x {
      NotWithin(w, x, s, o);
      NotWithin(w, x, y, z);
      if Get(w, s).Text? {
        TextPos(w, s, o);
        NotWithin(w, s, x, 0);
      }
      if PosOf(w, s, o) > PosOf(w, x, k) {
        TextOffMono(w, x, k, y, z);
      } else {
        TextOffMono(w, y, z, x, 0);
      }
    } else {
      TextPos(w, x, o);
    }
  }

  predicate TextNodeOrElem(w: Node, x: Id) {
    IsNode(w, x) && (Get(w, x).Text? ==> TextNode(w, x))
  }

  lemma ToSide(w: Node, r: RangeState, x: Id)
    requires Distinct(w) && ValidRange(w, r) && TextNode(w, x) && TextNodeOrElem(w, r.endContainer)
    ensures PosOf(w, x, 0) <= PosOf(w, r.endContainer, r.endOffset) ==> TextOffOf(w, x, 0) + Len(Get(w, x)) <= To(w, r)
    ensures PosOf(w, x, 0) > PosOf(w, r.endContainer, r.endOffset) ==> To(w, r) <= TextOffOf(w, x, 0)
  {
    var e, o, k := r.endContainer, r.endOffset, Len(Get(w, x));
    var y, z := e, if Get(w, e).Text? then Len(Get(w, e)) else o;
    TextPos(w, x, k);
    if e != x {
      NotWithin(w, x, e, o);
      NotWithin(w, x, y, z);
      if Get(w, e).Text? {
        TextPos(w, e, o);
        TextPos(w, e, z);
        NotWithin(w, e, x, k);
      }
      if PosOf(w, e, o) < PosOf(w, x, 0) {
        TextOffMono(w, y, z, x, 0);
      } else {
        TextOffMono(w, x, k, y, z);
      }
    } else {
      TextPos(w, x, o);
    }
  }

  /** The characters of the range's text nodes are exactly those from `From` to `To`. */
  lemma SelectedSpan(ap: Applier, w: Node, r: RangeState, nodes: seq<Id>, i: nat)
    requires Distinct(w) && ValidRange(w, r) && PlainRoot(ap, w) && i < |Flat([w])|
    requires forall x :: x in nodes <==> TextNode(w, x) && Intersects(w, r, x)
    ensures InSome(w, nodes, i) <==> From(w, r) <= i < To(w, r)
  {
    AllTexts(ap, w, r.startContainer);
    AllTexts(ap, w, r.endContainer);
    LeavesText([w]);
    var k := LeafAtChar(Leaves([w]), i);
    var p := LeafPath(w, k);
    var y := At(w, p).id;
    WhereAt(w, p);
    AllTexts(ap, w, y);
    TextMeets(w, r, y);
    FromSide(w, r, y);
    ToSide(w, r, y);
    if InSome(w, nodes, i) {
      var x :| x in nodes && TextNode(w, x) && TextOffOf(w, x, 0) <= i < TextOffOf(w, x, 0) + Len(Get(w, x));
      TextMeets(w, r, x);
      FromSide(w, r, x);
      ToSide(w, r, x);
    }
    if From(w, r) <= i < To(w, r) {
      assert y in nodes;
    }
  }

  lemma AllTexts(ap: Applier, w: Node, x: Id)
    requires PlainRoot(ap, w) && IsNode(w, x)
    ensures TextNodeOrElem(w, x)
  {
    var p := Where(w, x);
    if |p| == 1 {
      assert p[1..] == [];
    }
  }

  /** The characters that end up formatted: those of the range, and those of a text node that a boundary
      touches from the wrong side. */
  function PaintFrom(w: Node, s: RangeState): int
    requires ValidRange(w, s)
  {
    TextOffOf(w, s.startContainer, s.startOffset) - (if StartAtEnd(w, s) then s.startOffset else 0)
  }

  function PaintTo(w: Node, s: RangeState): int
    requires ValidRange(w, s)
  {
    TextOffOf(w, s.endContainer, s.endOffset) + (if EndAtStart(w, s) then Len(Get(w, s.endContainer)) else 0)
  }

  lemma PaintSpan(ap: Applier, w: Node, s: RangeState, v: Node, r: RangeState)
    requires Distinct(w) && ValidRange(w, s) && !s.collapsed && Distinct(v) && ValidRange(v, r) && PlainRoot(ap, v)
    requires Marks(w, s, v, r.startContainer, r.startOffset, r.endContainer, r.endOffset)
    requires StartClear(w, s, v, r.startContainer, r.startOffset) && EndClear(w, s, v, r.endContainer, r.endOffset)
    ensures From(v, r) == PaintFrom(w, s) && To(v, r) == PaintTo(w, s)
  {
    AllTexts(ap, v, r.startContainer);
    AllTexts(ap, v, r.endContainer);
    if Get(v, r.startContainer).Text? {
      TextPos(v, r.startContainer, r.startOffset);
    }
    if Get(v, r.endContainer).Text? {
      TextPos(v, r.endContainer, r.endOffset);
    }
  }

  /** The status of every character after formatting a range that is not collapsed. */
  ghost predicate Repainted(ap: Applier, w: Node, s: RangeState, u: Node)
    requires ValidRange(w, s)
  {
    && Flat([u]) == Flat([w]) && |Statuses(ap, u)| == |Statuses(ap, w)| && OthersKept(ap, w, u)
    && forall i :: 0 <= i < |Statuses(ap, w)| ==>
         Statuses(ap, u)[i] == (Statuses(ap, w)[i] || PaintFrom(w, s) <= i < PaintTo(w, s))
  }

  lemma StillPlain(ap: Applier, w: Node, v: Node)
    requires PlainRoot(ap, w) && SameTop(w, v)
    ensures PlainRoot(ap, v)
  {
  }

  lemma TopElem(ap: Applier, w: Node, x: Id)
    requires PlainRoot(ap, w) && IsNode(w, x)
    ensures HasPath(w, Where(w, x)[..1]) && At(w, Where(w, x)[..1]).Elem?
  {
    AtPrefix(w, Where(w, x), 1);
  }

  /** Formatting the text nodes of the split range is repainting its span. */
  lemma AfterFormat(ap: Applier, w: Node, s: RangeState, v: Node, r: RangeState, nodes: seq<Id>, u: Node)
    requires Distinct(w) && ValidRange(w, s) && !s.collapsed && Distinct(v) && ValidRange(v, r) && PlainRoot(ap, v)
    requires Marks(w, s, v, r.startContainer, r.startOffset, r.endContainer, r.endOffset)
    requires StartClear(w, s, v, r.startContainer, r.startOffset) && EndClear(w, s, v, r.endContainer, r.endOffset)
    requires forall x :: x in nodes <==> TextNode(v, x) && Intersects(v, r, x)
    requires Spread(ap, v, nodes, u)
    ensures Repainted(ap, w, s, u)
  {
    PaintSpan(ap, w, s, v, r);
    LeavesText([v]);
    LeavesText([u]);
    StatusLength(ap, [v], false);
    assert Statuses(ap, v) == Statuses(ap, w);
    forall other | Unrelated(ap, other) ensures Statuses(other, u) == Statuses(other, w) {
      assert Statuses(other, v) == Statuses(other, w);
    }
    forall i | 0 <= i < |Statuses(ap, w)|
      ensures Statuses(ap, u)[i] == (Statuses(ap, w)[i] || PaintFrom(w, s) <= i < PaintTo(w, s))
    {
      SelectedSpan(ap, v, r, nodes, i);
    }
  }

  lemma SpreadNone(ap: Applier, v: Node)
    requires v.Elem?
    ensures Spread(ap, v, [], v)
  {
  }

  /** A text node that holds a boundary intersects the range. */
  lemma BoundariesMeet(ap: Applier, w: Node, s: RangeState)
    requires Distinct(w) && ValidRange(w, s) && PlainRoot(ap, w)
    ensures Get(w, s.startContainer).Text? ==> TextNode(w, s.startContainer) && Intersects(w, s, s.startContainer)
    ensures Get(w, s.endContainer).Text? ==> TextNode(w, s.endContainer) && Intersects(w, s, s.endContainer)
  {
    AllTexts(ap, w, s.startContainer);
    AllTexts(ap, w, s.endContainer);
    CmpIsPos(w, Where(w, s.startContainer), s.startOffset, Where(w, s.endContainer), s.endOffset);
    if Get(w, s.startContainer).Text? {
      TextMeets(w, s, s.startContainer);
      TextPos(w, s.startContainer, s.startOffset);
    }
    if Get(w, s.endContainer).Text? {
      TextMeets(w, s, s.endContainer);
      TextPos(w, s.endContainer, s.endOffset);
    }
  }

  // ----- where the range ends up -----

  /** The range meets some text node. */
  ghost predicate MeetsText(w: Node, s: RangeState)
    requires ValidRange(w, s)
  {
    exists x :: TextNode(w, x) && Intersects(w, s, x)
  }

  /** From the start of a text node to the end of one. */
  predicate Framed(u: Node, r: RangeState) {
    && TextNode(u, r.startContainer) && r.startOffset == 0
    && TextNode(u, r.endContainer) && r.endOffset == Len(Get(u, r.endContainer))
  }

  /** The boundaries stand at two text offsets. */
  predicate StandsAt(u: Node, r: RangeState, a: int, b: int) {
    && ValidRange(u, r)
    && TextOffOf(u, r.startContainer, r.startOffset) == a && TextOffOf(u, r.endContainer, r.endOffset) == b
  }

  /** Some text nodes of the document, in document order. */
  ghost predicate InDocumentOrder(w: Node, nodes: seq<Id>) {
    forall i, j :: 0 <= i < j < |nodes| ==> Precedes(w, nodes[i], nodes[j])
  }

  /** The first text node of a range begins where its characters do. */
  lemma FirstNode(ap: Applier, w: Node, r: RangeState, nodes: seq<Id>)
    requires Distinct(w) && ValidRange(w, r) && PlainRoot(ap, w) && nodes != [] && InDocumentOrder(w, nodes)
    requires forall x :: x in nodes <==> TextNode(w, x) && Intersects(w, r, x)
    ensures TextNode(w, nodes[0]) && TextOffOf(w, nodes[0], 0) == From(w, r)
  {
    hide Intersects, TextOffOf, From, To, Status, Flat;
    var first := nodes[0];
    assert first in nodes;
    Within(ap, w, r, first);
    TextEnds(w, first);
    if From(w, r) < TextOffOf(w, first, 0) {
      SelectedSpan(ap, w, r, nodes, From(w, r));
      var y := Holding(w, nodes, From(w, r));
      NotBefore(w, first, y);
    }
  }

  /** The last one ends where they do. */
  lemma LastNode(ap: Applier, w: Node, r: RangeState, nodes: seq<Id>)
    requires Distinct(w) && ValidRange(w, r) && PlainRoot(ap, w) && nodes != [] && InDocumentOrder(w, nodes)
    requires forall x :: x in nodes <==> TextNode(w, x) && Intersects(w, r, x)
    ensures TextNode(w, nodes[|nodes| - 1])
    ensures TextOffOf(w, nodes[|nodes| - 1], 0) + Len(Get(w, nodes[|nodes| - 1])) == To(w, r)
  {
    hide Intersects, TextOffOf, From, To, Status, Flat;
    var last := nodes[|nodes| - 1];
    assert last in nodes;
    Within(ap, w, r, last);
    TextEnds(w, last);
    var b := TextOffOf(w, last, 0) + Len(Get(w, last));
    if b < To(w, r) {
      SpanLength(w, r);
      SelectedSpan(ap, w, r, nodes, b);
      var y := Holding(w, nodes, b);
      NotBefore(w, y, last);
    }
  }

  /** The text node that holds a character. */
  lemma Holding(w: Node, nodes: seq<Id>, i: int) returns (y: Id)
    requires InSome(w, nodes, i)
    ensures y in nodes && TextNode(w, y) && TextOffOf(w, y, 0) <= i < TextOffOf(w, y, 0) + Len(Get(w, y))
  {
    y :| y in nodes && TextNode(w, y) && TextOffOf(w, y, 0) <= i < TextOffOf(w, y, 0) + Len(Get(w, y));
  }

  /** A text node's characters are characters of the document. */
  lemma TextEnds(w: Node, x: Id)
    requires Distinct(w) && TextNode(w, x)
    ensures TextOffOf(w, x, 0) + Len(Get(w, x)) <= |Flat([w])|
  {
    FlatContext(w, Where(w, x));
    Singleton(Get(w, x));
  }

  /** A text node that meets a range lies between the text offsets of the range's characters. */
  lemma Within(ap: Applier, w: Node, r: RangeState, x: Id)
    requires Distinct(w) && ValidRange(w, r) && PlainRoot(ap, w) && TextNode(w, x) && Intersects(w, r, x)
    ensures From(w, r) <= TextOffOf(w, x, 0) && TextOffOf(w, x, 0) + Len(Get(w, x)) <= To(w, r)
  {
    AllTexts(ap, w, r.startContainer);
    AllTexts(ap, w, r.endContainer);
    TextMeets(w, r, x);
    FromSide(w, r, x);
    ToSide(w, r, x);
  }

  /** A text node that does not come after another one begins and ends no later. */
  lemma NotBefore(w: Node, x: Id, y: Id)
    requires Distinct(w) && TextNode(w, x) && TextNode(w, y) && (x == y || Precedes(w, x, y))
    ensures TextOffOf(w, x, 0) <= TextOffOf(w, y, 0)
    ensures TextOffOf(w, x, 0) + Len(Get(w, x)) <= TextOffOf(w, y, 0) + Len(Get(w, y))
    ensures PosOf(w, x, 0) <= PosOf(w, y, Len(Get(w, y)))
  {
    TextPos(w, x, Len(Get(w, x)));
    TextPos(w, y, Len(Get(w, y)));
    if x != y {
      CmpIsPos(w, Where(w, x), 0, Where(w, y), 0);
      NotWithin(w, x, y, 0);
      TextOffMono(w, x, Len(Get(w, x)), y, 0);
    }
  }

  /** A range that spans no character is not split. */
  lemma EmptySpanUnsplit(ap: Applier, w: Node, s: RangeState)
    requires Distinct(w) && ValidRange(w, s) && !s.collapsed && PlainRoot(ap, w) && PaintFrom(w, s) >= PaintTo(w, s)
    ensures Unsplit(w, s)
  {
    AllTexts(ap, w, s.startContainer);
    AllTexts(ap, w, s.endContainer);
    CmpIsPos(w, Where(w, s.startContainer), s.startOffset, Where(w, s.endContainer), s.endOffset);
    PointsOrdered(w, s.startContainer, s.startOffset, s.endContainer, s.endOffset);
    if StrictlyInside(w, s.startContainer, s.startOffset) {
      TextBefore(w, s.startContainer, s.startOffset, s.endContainer, s.endOffset);
    } else if StrictlyInside(w, s.endContainer, s.endOffset) {
      TextBehind(w, s.startContainer, s.startOffset, s.endContainer, s.endOffset);
    }
  }

  /** A point behind one strictly inside a text node has more text before it. */
  lemma TextBefore(w: Node, x: Id, a: nat, y: Id, b: nat)
    requires Distinct(w) && TextNode(w, x) && a < Len(Get(w, x)) && IsPoint(w, y, b) && IsPoint(w, x, a)
    requires PosOf(w, x, a) < PosOf(w, y, b)
    ensures TextOffOf(w, x, a) < TextOffOf(w, y, b)
  {
    TextPos(w, x, a);
    TextPos(w, x, Len(Get(w, x)));
    if y == x {
      TextPos(w, x, b);
    } else {
      NotWithin(w, x, y, b);
      TextOffMono(w, x, Len(Get(w, x)), y, b);
    }
  }

  lemma TextBehind(w: Node, y: Id, b: nat, x: Id, a: nat)
    requires Distinct(w) && TextNode(w, x) && 0 < a <= Len(Get(w, x)) && IsPoint(w, y, b) && IsPoint(w, x, a)
    requires PosOf(w, y, b) < PosOf(w, x, a)
    ensures TextOffOf(w, y, b) < TextOffOf(w, x, a)
  {
    TextPos(w, x, a);
    if y == x {
      TextPos(w, x, b);
    } else {
      NotWithin(w, x, y, b);
      TextOffMono(w, y, b, x, 0);
    }
  }

  /** If the range met a text node before the split, it meets one after it. */
  lemma StillMeets(ap: Applier, w: Node, s: RangeState, v: Node, r: RangeState, nodes: seq<Id>)
    requires Distinct(w) && ValidRange(w, s) && !s.collapsed && Distinct(v) && ValidRange(v, r)
    requires PlainRoot(ap, w) && PlainRoot(ap, v) && MeetsText(w, s)
    requires BothCut(w, s, v, r.startContainer, r.startOffset, r.endContainer, r.endOffset)
    requires Unsplit(w, s) ==> v == w && r == s
    requires forall x :: x in nodes <==> TextNode(v, x) && Intersects(v, r, x)
    ensures nodes != []
  {
    if PaintFrom(w, s) < PaintTo(w, s) {
      PaintSpan(ap, w, s, v, r);
      SpanLength(v, r);
      SelectedSpan(ap, v, r, nodes, From(v, r));
    } else {
      EmptySpanUnsplit(ap, w, s);
      var x :| TextNode(w, x) && Intersects(w, s, x);
      assert x in nodes;
    }
  }

  lemma SpanLength(w: Node, r: RangeState)
    requires Distinct(w) && ValidRange(w, r)
    ensures To(w, r) <= |Flat([w])|
  {
    RangeText(w, r);
    if Get(w, r.endContainer).Text? {
      FlatContext(w, Where(w, r.endContainer));
      Singleton(Get(w, r.endContainer));
    }
  }

  /** A range that meets no text node has its boundaries in elements. */
  lemma NoTextBounds(ap: Applier, w: Node, s: RangeState, v: Node, r: RangeState)
    requires Distinct(w) && ValidRange(w, s) && !s.collapsed && Distinct(v) && ValidRange(v, r) && PlainRoot(ap, v)
    requires BothCut(w, s, v, r.startContainer, r.startOffset, r.endContainer, r.endOffset)
    requires !MeetsText(v, r)
    ensures StandsAt(v, r, PaintFrom(w, s), PaintTo(w, s))
  {
    BoundariesMeet(ap, v, r);
  }

  /** The range is set around the formatted text nodes. */
  method SetAround(w: Node, range: Range, first: Id, last: Id)
    requires Distinct(w) && TextNode(w, first) && TextNode(w, last) && ValidRange(w, range.State())
    modifies range
    ensures ValidRange(w, range.State()) && End(range.State()) == Boundary(last, Len(Get(w, last)))
    ensures Ordered(w, Boundary(first, 0), End(range.State())) ==> Start(range.State()) == Boundary(first, 0)
  {
    range.SetRangeStart(w, first, 0);
    range.SetRangeEnd(w, last, Len(Get(w, last)));
  }

  /** Formatting does not change the order of the text nodes. */
  lemma StillOrdered(w: Node, u: Node, first: Id, last: Id)
    requires Distinct(w) && TextNode(w, first) && TextNode(w, last) && SameTree(w, first, last)
    requires first == last || Precedes(w, first, last)
    requires KeepsRanges(w, u) && IsNode(u, last) && Get(u, last) == Get(w, last)
    ensures Ordered(u, Boundary(first, 0), Boundary(last, Len(Get(u, last))))
  {
    NotBefore(w, first, last);
    TextPos(w, last, Len(Get(w, last)));
    CmpIsPos(w, Where(w, first), 0, Where(w, last), Len(Get(w, last)));
    SameTreeCommon(w, first, last);
    var k := Len(Get(w, last));
    var r := RangeState(first, 0, last, k, first == last && k == 0, CommonAncestor(w, first, last).value);
    assert ValidRange(w, r);
    assert ValidRange(u, r);
  }

  /** The second half of applyToRange: split the boundaries and format the text nodes. */
  method FormatRange(d: Document, ap: Applier, range: Range)
    requires d.Valid() && WellSet(ap) && PlainRoot(ap, d.world) && ValidRange(d.world, range.State())
    modifies d, range
    ensures d.Valid() && ValidRange(d.world, range.State())
    ensures !old(range.State()).collapsed ==> Repainted(ap, old(d.world), old(range.State()), d.world)
    ensures !old(range.State()).collapsed ==>
      StandsAt(d.world, range.State(), PaintFrom(old(d.world), old(range.State())),
        PaintTo(old(d.world), old(range.State())))
    ensures !old(range.State()).collapsed && MeetsText(old(d.world), old(range.State())) ==>
        Framed(d.world, range.State())
    ensures old(range.State()).collapsed ==> SameContent(old(d.world), d.world)
  {
    ghost var w, s := d.world, range.State();
    TopElem(ap, w, s.startContainer);
    SplitBoundaries(d, range);
    ghost var v, r := d.world, range.State();
    StillPlain(ap, w, v);
    TopElem(ap, v, r.startContainer);
    var isText: Seen -> bool := (x: Seen) => x.text.Some?;
    var textNodes := GetNodes(d.world, range.State(), isText);
    if textNodes != [] {
      FormatTexts(d, ap, range, textNodes, isText, w, s);
    } else if !s.collapsed {
      NotCollapsed(w, s, v, r);
      TextNodesOf(v, r, textNodes, isText);
      SpreadNone(ap, v);
      AfterFormat(ap, w, s, v, r, textNodes, v);
      assert !MeetsText(v, r) by {
        assert forall x :: TextNode(v, x) && Intersects(v, r, x) ==> x in textNodes;
      }
      NoTextBounds(ap, w, s, v, r);
      if MeetsText(w, s) {
        StillMeets(ap, w, s, v, r, textNodes);
      }
    }
  }

  lemma NotCollapsed(w: Node, s: RangeState, v: Node, r: RangeState)
    requires ValidRange(w, s) && Distinct(v) && ValidRange(v, r)
    requires Marks(w, s, v, r.startContainer, r.startOffset, r.endContainer, r.endOffset)
    ensures r.collapsed == s.collapsed
  {
    PointsOrdered(v, r.startContainer, r.startOffset, r.endContainer, r.endOffset);
  }

  /** Format the text nodes of the split range, and set the range around them. */
  method FormatTexts(d: Document, ap: Applier, range: Range, textNodes: seq<Id>, ghost isText: Seen -> bool,
                     ghost w: Node, ghost s: RangeState)
    requires d.Valid() && WellSet(ap) && PlainRoot(ap, d.world) && ValidRange(d.world, range.State())
    requires ValidRange(w, s) && Distinct(w) && Attached(d.world, range.State()) && textNodes != []
    requires BothCut(w, s, d.world, range.startContainer, range.startOffset, range.endContainer, range.endOffset)
    requires forall v :: isText(v) == IsText(v)
    requires range.collapsed ==> textNodes == []
    requires !range.collapsed ==>
      textNodes == Accepted(d.world, Hits(d.world, range.State(), Candidates(d.world, range.State())), isText)
    modifies d, range
    ensures d.Valid() && !s.collapsed && Repainted(ap, w, s, d.world)
    ensures Framed(d.world, range.State()) && StandsAt(d.world, range.State(), PaintFrom(w, s), PaintTo(w, s))
  {
    hide Find, Status, Flat;
    ghost var v, r := d.world, range.State();
    NotCollapsed(w, s, v, r);
    TextNodesOf(v, r, textNodes, isText);
    NodesOfRange(v, r, textNodes, isText);
    var first, last := textNodes[0], textNodes[|textNodes| - 1];
    FirstNode(ap, v, r, textNodes);
    LastNode(ap, v, r, textNodes);
    PaintSpan(ap, w, s, v, r);
    FormatNodes(d, ap, textNodes);
    ghost var u := d.world;
    AfterFormat(ap, w, s, v, r, textNodes, u);
    KeepsTextNode(v, u, first);
    KeepsTextNode(v, u, last);
    assert first in textNodes && last in textNodes;
    OneTree(v, r, first, last);
    StillOrdered(v, u, first, last);
    SetAround(d.world, range, first, last);
    TextPos(u, last, Len(Get(u, last)));
  }

  /** Nodes that meet a range are nodes of its tree. */
  lemma OneTree(w: Node, r: RangeState, x: Id, y: Id)
    requires Distinct(w) && ValidRange(w, r) && TextNode(w, x) && TextNode(w, y) && Intersects(w, r, x)
    requires Intersects(w, r, y)
    ensures SameTree(w, x, y)
  {
    RangeShape(w, r);
    MeetsBelow(w, r, x);
    MeetsBelow(w, r, y);
    assert RootPath(w, r)[0] == Where(w, x)[0] == Where(w, y)[0];
  }

  /** No unselected character changes its status just when no boundary touches unformatted text from the
      wrong side; every selected character is formatted in any case. */
  lemma OnlySelectedChange(ap: Applier, w: Node, s: RangeState, u: Node)
    requires Distinct(w) && ValidRange(w, s) && !s.collapsed && PlainRoot(ap, w) && Repainted(ap, w, s, u)
    ensures TextOffOf(w, s.startContainer, s.startOffset) <= TextOffOf(w, s.endContainer, s.endOffset)
    ensures TextOffOf(w, s.endContainer, s.endOffset) <= |Statuses(ap, w)|
    ensures |Statuses(ap, u)| == |Statuses(ap, w)|
    ensures forall i ::
        TextOffOf(w, s.startContainer, s.startOffset) <= i < TextOffOf(w, s.endContainer, s.endOffset)
        ==> Statuses(ap, u)[i]
    ensures (forall i :: 0 <= i < |Statuses(ap, w)|
              && !(TextOffOf(w, s.startContainer, s.startOffset) <= i < TextOffOf(w, s.endContainer, s.endOffset))
              ==> Statuses(ap, u)[i] == Statuses(ap, w)[i])
      <==> (StartAtEnd(w, s) ==> Formatted(ap, w, s.startContainer))
           && (EndAtStart(w, s) ==> Formatted(ap, w, s.endContainer))
  {
    var a, b := TextOffOf(w, s.startContainer, s.startOffset), TextOffOf(w, s.endContainer, s.endOffset);
    StatusLength(ap, [w], false);
    RangeText(w, s);
    if StartAtEnd(w, s) {
      AllTexts(ap, w, s.startContainer);
      StatusOfText(ap, w, s.startContainer);
      TextPos(w, s.startContainer, s.startOffset);
    }
    if EndAtStart(w, s) {
      AllTexts(ap, w, s.endContainer);
      StatusOfText(ap, w, s.endContainer);
      assert Statuses(ap, w)[b] == Formatted(ap, w, s.endContainer);
    }
    if StartAtEnd(w, s) && !Formatted(ap, w, s.startContainer) {
      assert !Statuses(ap, w)[a - 1] && Statuses(ap, u)[a - 1];
    }
    if EndAtStart(w, s) && !Formatted(ap, w, s.endContainer) {
      assert !Statuses(ap, w)[b] && Statuses(ap, u)[b];
    }
  }

  /** All characters of a text node have the status of the node. */
  lemma StatusOfText(ap: Applier, w: Node, x: Id)
    requires Distinct(w) && TextNode(w, x)
    ensures TextOffOf(w, x, 0) + Len(Get(w, x)) <= |Statuses(ap, w)|
    ensures forall i :: TextOffOf(w, x, 0) <= i < TextOffOf(w, x, 0) + Len(Get(w, x)) ==>
        Statuses(ap, w)[i] == Formatted(ap, w, x)
  {
    var n, t, k := Get(w, x), TextOffOf(w, x, 0), Len(Get(w, x));
    StatusContext(ap, w, Where(w, x), false);
    StatusOne(ap, n, Formatted(ap, w, x));
    Singleton(n);
    forall i | t <= i < t + k ensures Statuses(ap, w)[i] == Formatted(ap, w, x) {
      assert Statuses(ap, w)[i] == Statuses(ap, w)[t..][..k][i - t];
    }
  }

  // ----- an unselected character that gets formatted -----

  /** A document with a paragraph of two texts, "a" and "b". */
  const SAMPLE := Elem(0, Tag("", []),
    [Elem(1, Tag("#document", []), [Elem(2, Tag("p", []), [Text(3, "a"), Text(4, "b")])])])

  /** From behind the "a" to behind the "b". */
  const SAMPLE_RANGE := RangeState(3, 1, 4, 1, false, 2)

  lemma SampleFacts()
    ensures Distinct(SAMPLE) && ValidRange(SAMPLE, SAMPLE_RANGE) && StartAtEnd(SAMPLE, SAMPLE_RANGE)
    ensures Where(SAMPLE, 3) == [0, 0, 0] && Where(SAMPLE, 4) == [0, 0, 1]
    ensures TextOffOf(SAMPLE, 3, 1) == 1 && TextOffOf(SAMPLE, 4, 1) == 2
  {
    hide Count, TextOff, Flat;
    SampleDistinct();
    SampleOffsets();
  }

  lemma SampleDistinct()
    ensures Distinct(SAMPLE)
  {
    var p := SAMPLE.kids[0].kids[0];
    assert p.kids[1..] == [Text(4, "b")];
    forall id: Id ensures Count([SAMPLE], id) <= 1 {
      assert Count(p.kids[1..], id) == (if id == 4 then 1 else 0);
      assert Count(p.kids, id) == (if id == 3 || id == 4 then 1 else 0);
      assert Count([p], id) == (if 2 <= id <= 4 then 1 else 0);
      assert Count(SAMPLE.kids, id) == (if 1 <= id <= 4 then 1 else 0);
    }
  }

  lemma SampleOffsets()
    ensures HasPath(SAMPLE, [0, 0, 0]) && TextOff(SAMPLE, [0, 0, 0], 1) == 1
    ensures HasPath(SAMPLE, [0, 0, 1]) && TextOff(SAMPLE, [0, 0, 1], 1) == 2
  {
    var p := SAMPLE.kids[0].kids[0];
    assert p.kids[..1] == [Text(3, "a")] && Flat(p.kids[..1]) == "a";
    assert TextOff(p, [1], 1) == 2;
  }

  /** The "a" is not selected and not formatted, and every way of formatting the range formats it. */
  lemma UnselectedFormatted(ap: Applier)
    requires WellSet(ap) && "" !in ap.tagNames && "#document" !in ap.tagNames && "p" !in ap.tagNames
    ensures Distinct(SAMPLE) && ValidRange(SAMPLE, SAMPLE_RANGE) && PlainRoot(ap, SAMPLE)
    ensures TextOffOf(SAMPLE, 3, 1) == 1 && Statuses(ap, SAMPLE) == [false, false]
    ensures forall u :: Repainted(ap, SAMPLE, SAMPLE_RANGE, u) ==> Statuses(ap, u)[0]
  {
    SampleFacts();
    var p := SAMPLE.kids[0].kids[0];
    assert p.kids[1..] == [Text(4, "b")];
    assert Status(ap, p.kids[1..], false) == [false];
    assert Status(ap, p.kids, false) == [false, false];
    assert Status(ap, [p], false) == [false, false];
    assert Status(ap, SAMPLE.kids, false) == [false, false];
    assert !Accepts(ap, SAMPLE.tag) && Status(ap, [SAMPLE][1..], false) == [];
  }
}

/** insertNodeAtPosition and surroundContents: an element put around the content of a range. */
module Surround {
  import opened Wrappers
  import opened Tree
  import opened Positions
  import opened Navigation
  import opened Slices
  import opened Ranges
  import opened RangeIterators
  import opened RangeQueries
  import opened RangeContents
  import opened RangeEditing
  import opened Documents
  import opened DomRange
  import opened Splitting
  import opened BoundarySplits
  import opened Formatting

  // ----- a node between two children -----

  function WithKids(n: Node, j: nat, ks: seq<Node>): Node
    requires n.Elem? && j <= |n.kids|
  {
    n.(kids := n.kids[..j] + ks + n.kids[j..])
  }

  /** A new empty element, placed in a document: nothing is moved, and it stands at a given text offset. */
  ghost predicate PutIn(w: Node, v: Node, x: Node, t: nat) {
    && SameContent(w, v) && IsNode(v, x.id) && Get(v, x.id) == x && |Where(v, x.id)| > 1
    && IsPoint(v, x.id, 0) && TextOffOf(v, x.id, 0) == t
  }

  lemma KidPlaced(w: Node, f: Path, j: nat, x: Node)
    requires Distinct(w) && HasPath(w, f) && f != [] && At(w, f).Elem? && j <= |At(w, f).kids|
    requires x.Elem? && x.kids == [] && Distinct(Put(w, f, WithKids(At(w, f), j, [x])))
    ensures ValidPoint(w, f, j) && PutIn(w, Put(w, f, WithKids(At(w, f), j, [x])), x, TextOff(w, f, j))
  {
    hide Pos, Distinct, Find;
    var n, m := At(w, f), WithKids(At(w, f), j, [x]);
    var v := Put(w, f, m);
    EmptyKid(n, j, x);
    FlatPut(w, f, m);
    FlatContext(w, f);
    Unmoved(Flat([w]), TextOff(w, f, 0), |Flat([n])|, Flat([m]));
    PutRootTag(w, f, m);
    forall ap: Applier ensures Status(ap, [v], false) == Status(ap, [w], false) {
      EmptyKidStatus(ap, n, j, x, Inherits(ap, w, f, false));
      StatusPut(ap, w, f, m, false);
      StatusContext(ap, w, f, false);
      Unmoved(Status(ap, [w], false), TextOff(w, f, 0), |Flat([n])|, Status(ap, [m], Inherits(ap, w, f, false)));
    }
    AtPut(w, f, m);
    assert m.kids[j] == x;
    KidAt(v, f, j);
    PointContext(w, f, [], j);
    PointContext(v, f, [j], 0);
    assert f + [] == f;
    assert m.kids[..j] == n.kids[..j];
    assert [j][1..] == [] && x.kids[..0] == [];
  }

  lemma EmptyKid(n: Node, j: nat, x: Node)
    requires n.Elem? && j <= |n.kids| && x.Elem? && x.kids == []
    ensures Flat([WithKids(n, j, [x])]) == Flat([n])
  {
    hide Flat;
    FlatElem(n);
    FlatElem(WithKids(n, j, [x]));
    FlatElem(x);
    FlatConcat(n.kids[..j] + [x], n.kids[j..]);
    FlatConcat(n.kids[..j], [x]);
    FlatHalf(n.kids, j);
    NoText();
  }

  lemma NoText()
    ensures Flat([]) == ""
  {
  }

  lemma NoStatus(ap: Applier, inherited: bool)
    ensures Status(ap, [], inherited) == []
  {
  }

  lemma EmptyKidStatus(ap: Applier, n: Node, j: nat, x: Node, inherited: bool)
    requires n.Elem? && j <= |n.kids| && x.Elem? && x.kids == []
    ensures Status(ap, [WithKids(n, j, [x])], inherited) == Status(ap, [n], inherited)
  {
    hide Status, Accepts;
    var inh := inherited || Accepts(ap, n.tag);
    NoStatus(ap, inh || Accepts(ap, x.tag));
    StatusOne(ap, n, inherited);
    StatusOne(ap, WithKids(n, j, [x]), inherited);
    StatusOne(ap, x, inh);
    StatusConcat(ap, n.kids[..j] + [x], n.kids[j..], inh);
    StatusConcat(ap, n.kids[..j], [x], inh);
    StatusConcat(ap, n.kids[..j], n.kids[j..], inh);
    assert n.kids == n.kids[..j] + n.kids[j..];
  }

  lemma KidOffset(w: Node, f: Path, j: nat)
    requires HasPath(w, f) && At(w, f).Elem? && j <= |At(w, f).kids|
    ensures ValidPoint(w, f, j) && TextOff(w, f, j) <= |Flat([w])|
    ensures ValidPoint(w, f, 0) && TextOff(w, f, j) == TextOff(w, f, 0) + |Flat(At(w, f).kids[..j])|
  {
    var n := At(w, f);
    assert TextOff(n, [], j) == |Flat(n.kids[..j])|;
    hide Flat, TextOff;
    PointContext(w, f, [], j);
    PosInside(w, f, j);
    assert f + [] == f;
  }

  /** Any node between two children: its text comes in at the point. */
  lemma KidText(w: Node, f: Path, j: nat, ks: seq<Node>)
    requires HasPath(w, f) && At(w, f).Elem? && j <= |At(w, f).kids|
    ensures ValidPoint(w, f, j) && TextOff(w, f, j) <= |Flat([w])|
    ensures Flat([Put(w, f, WithKids(At(w, f), j, ks))])
      == Flat([w])[..TextOff(w, f, j)] + Flat(ks) + Flat([w])[TextOff(w, f, j)..]
  {
    hide Flat, TextOff, ValidPoint, Put, At;
    var n, m := At(w, f), WithKids(At(w, f), j, ks);
    KidOffset(w, f, j);
    FlatHalf(n.kids, j);
    FlatElem(n);
    FlatElem(m);
    FlatConcat(n.kids[..j] + ks, n.kids[j..]);
    FlatConcat(n.kids[..j], ks);
    FlatPut(w, f, m);
    FlatContext(w, f);
    ComesIn(Flat([w]), TextOff(w, f, 0), Flat(n.kids[..j]), Flat(n.kids[j..]), Flat(ks));
  }

  lemma ComesIn(t: string, i: nat, a: string, b: string, x: string)
    requires i + |a + b| <= |t| && t[i..][..|a + b|] == a + b
    ensures t[..i] + (a + x + b) + t[i + |a + b|..] == t[..i + |a|] + x + t[i + |a|..]
  {
    var u, v := t[..i], t[i + |a + b|..];
    Unmoved(t, i, |a + b|, a + b);
    SliceConcat(u, a + b, v, |a|);
    assert (a + b)[..|a|] == a && (a + b)[|a|..] == b;
    assert u + (a + x + b) + v == (u + a) + x + (b + v);
  }

  // ----- insertNodeAtPosition -----

  /** The place between two children where nodes go, and the document with the text split there if need be. */
  datatype Spot = Spot(world: Node, path: Path, index: nat)

  /** A node can be inserted at a point: a text that holds the point has a parent. */
  predicate Insertable(w: Node, n: Id, o: nat) {
    IsPoint(w, n, o) && (Get(w, n).Text? ==> ParentNode(w, n).Some?)
  }

  function SpotOf(w: Node, n: Id, o: nat, newId: Id): Spot
    requires Insertable(w, n, o)
  {
    var p := Where(w, n);
    if Get(w, n).Elem? then Spot(w, p, o)
    else if o == Len(Get(w, n)) then Spot(w, Front(p), Last(p) + 1)
    else if o == 0 then Spot(w, Front(p), Last(p))
    else Spot(SplitWorld(w, n, o, newId), Front(p), Last(p) + 1)
  }

  predicate ValidSpot(s: Spot) {
    HasPath(s.world, s.path) && s.path != [] && At(s.world, s.path).Elem? && s.index <= |At(s.world, s.path).kids|
  }

  function Filled(s: Spot, ks: seq<Node>): Node
    requires ValidSpot(s)
  {
    Put(s.world, s.path, WithKids(At(s.world, s.path), s.index, ks))
  }

  /** The place has the text offset of the point, and nothing has changed yet but for a split. */
  lemma SpotFacts(w: Node, n: Id, o: nat, newId: Id)
    requires Distinct(w) && Insertable(w, n, o) && Distinct(SpotOf(w, n, o, newId).world)
    ensures var s := SpotOf(w, n, o, newId);
      && ValidSpot(s) && SameContent(w, s.world) && ValidPoint(s.world, s.path, s.index)
      && TextOff(s.world, s.path, s.index) == TextOffOf(w, n, o)
      && forall y: Id :: y != newId ==> Count([s.world], y) == Count([w], y)
  {
    var p := Where(w, n);
    if Get(w, n).Elem? {
      NothingChanged(w);
    } else {
      ParentAt(w, p);
      TextBeside(w, n, o);
      if 0 < o < Len(Get(w, n)) {
        var v := SplitWorld(w, n, o, newId);
        SplitHalves(w, n, o, newId);
        SplitContent(w, n, o, newId);
        SplitCount(w, n, o, newId);
        ParentAt(v, Where(v, newId));
        TextBeside(v, newId, 0);
      } else {
        NothingChanged(w);
      }
    }
  }

  lemma NothingChanged(w: Node)
    requires w.Elem?
    ensures SameContent(w, w)
  {
  }

  /** What is new in the document is the nodes, and perhaps the half of a text. */
  ghost predicate OnlyAdds(w: Node, v: Node, ks: seq<Node>, firstId: Id) {
    forall y: Id :: y < firstId ==> Count([v], y) == Count([w], y) + Count(ks, y)
  }

  /** A new node, or the nodes of a fragment, at a point; returns the first of them. */
  method InsertNodeAtPosition(d: Document, nodes: seq<Node>, n: Id, o: nat) returns (first: Option<Id>)
    requires d.Valid() && Insertable(d.world, n, o) && Loose(d.world, d.nextId, nodes)
    modifies d
    ensures d.Valid() && d.nextId >= old(d.nextId)
    ensures Distinct(SpotOf(old(d.world), n, o, old(d.nextId)).world)
    ensures var s := SpotOf(old(d.world), n, o, old(d.nextId)); ValidSpot(s) && d.world == Filled(s, nodes)
    ensures first == if nodes == [] then None else Some(nodes[0].id)
  {
    ghost var w := d.world;
    first := if nodes == [] then None else Some(nodes[0].id);
    ParentAt(w, Where(w, n));
    if Get(d.world, n).Text? {
      TextBeside(w, n, o);
      if o == Len(Get(d.world, n)) {
        AddedAfter(w, Front(Where(w, n)), Last(Where(w, n)), nodes);
        d.InsertAfter(nodes, n);
      } else if o == 0 {
        AddedBefore(w, Front(Where(w, n)), Last(Where(w, n)), nodes);
        d.InsertBefore(nodes, n);
      } else {
        InsertWithin(d, nodes, n, o);
      }
    } else if o >= |ChildNodes(d.world, n)| {
      d.AppendChild(nodes, n);
      AddedAtEnd(w, Where(w, n), nodes);
    } else {
      var before := ChildNodes(d.world, n)[o].id;
      AddedBefore(w, Where(w, n), o, nodes);
      d.InsertBefore(nodes, before);
    }
  }

  /** Strictly inside a text node: the node is split first. */
  method InsertWithin(d: Document, nodes: seq<Node>, n: Id, o: nat)
    requires d.Valid() && Insertable(d.world, n, o) && Get(d.world, n).Text? && 0 < o < Len(Get(d.world, n))
    requires Loose(d.world, d.nextId, nodes)
    modifies d
    ensures d.Valid() && d.nextId >= old(d.nextId)
    ensures Distinct(SpotOf(old(d.world), n, o, old(d.nextId)).world)
    ensures var s := SpotOf(old(d.world), n, o, old(d.nextId)); ValidSpot(s) && d.world == Filled(s, nodes)
  {
    ghost var w := d.world;
    ParentAt(w, Where(w, n));
    var rest := SplitDataNode(d, n, o);
    ghost var v := d.world;
    SplitHalves(w, n, o, rest);
    SplitCount(w, n, o, rest);
    ParentAt(v, Where(v, rest));
    TextBeside(v, rest, 0);
    AddedBefore(v, Front(Where(v, rest)), Last(Where(v, rest)), nodes);
    d.InsertBefore(nodes, rest);
  }

  /** Whatever is inserted, its text comes in at the point and its nodes are added. */
  lemma Inserted(w: Node, n: Id, o: nat, newId: Id, ks: seq<Node>)
    requires Distinct(w) && Insertable(w, n, o) && Distinct(SpotOf(w, n, o, newId).world)
    ensures var s, t := SpotOf(w, n, o, newId), TextOffOf(w, n, o);
      && ValidSpot(s) && t <= |Flat([w])| && Flat([Filled(s, ks)]) == Flat([w])[..t] + Flat(ks) + Flat([w])[t..]
      && OnlyAdds(w, Filled(s, ks), ks, newId)
  {
    var s := SpotOf(w, n, o, newId);
    SpotFacts(w, n, o, newId);
    KidText(s.world, s.path, s.index, ks);
    KidCount(s.world, s.path, s.index, ks);
  }

  /** An empty element changes neither the text nor the formatting of any character. */
  lemma EmptyInserted(w: Node, n: Id, o: nat, newId: Id, x: Node)
    requires Distinct(w) && Insertable(w, n, o) && Distinct(SpotOf(w, n, o, newId).world) && x.Elem? && x.kids == []
    requires ValidSpot(SpotOf(w, n, o, newId)) && Distinct(Filled(SpotOf(w, n, o, newId), [x]))
    ensures PutIn(w, Filled(SpotOf(w, n, o, newId), [x]), x, TextOffOf(w, n, o))
  {
    var s := SpotOf(w, n, o, newId);
    SpotFacts(w, n, o, newId);
    KidPlaced(s.world, s.path, s.index, x);
    SameTrans(w, s.world, Filled(s, [x]));
  }

  lemma AddedAtEnd(w: Node, f: Path, ks: seq<Node>)
    requires HasPath(w, f) && At(w, f).Elem?
    ensures At(w, f).(kids := At(w, f).kids + ks) == WithKids(At(w, f), |At(w, f).kids|, ks)
  {
    var kids := At(w, f).kids;
    assert kids[..|kids|] + ks + kids[|kids|..] == kids + ks;
  }

  lemma AddedBefore(w: Node, f: Path, j: nat, ks: seq<Node>)
    requires Distinct(w) && HasPath(w, f) && f != [] && At(w, f).Elem? && j < |At(w, f).kids|
    ensures IsNode(w, At(w, f).kids[j].id) && Get(w, At(w, f).kids[j].id) == At(w, f).kids[j]
    ensures Replaced(w, At(w, f).kids[j].id, ks + [At(w, f).kids[j]]) == Put(w, f, WithKids(At(w, f), j, ks))
  {
    var n := At(w, f);
    KidAt(w, f, j);
    ReplacedBelow(w, f, j, ks + [n.kids[j]]);
    assert Splice(n, j, ks + [n.kids[j]]).kids == n.kids[..j] + ks + n.kids[j..];
  }

  lemma AddedAfter(w: Node, f: Path, j: nat, ks: seq<Node>)
    requires Distinct(w) && HasPath(w, f) && f != [] && At(w, f).Elem? && j < |At(w, f).kids|
    ensures IsNode(w, At(w, f).kids[j].id) && Get(w, At(w, f).kids[j].id) == At(w, f).kids[j]
    ensures Replaced(w, At(w, f).kids[j].id, [At(w, f).kids[j]] + ks) == Put(w, f, WithKids(At(w, f), j + 1, ks))
  {
    var n := At(w, f);
    KidAt(w, f, j);
    ReplacedBelow(w, f, j, [n.kids[j]] + ks);
    assert Splice(n, j, [n.kids[j]] + ks).kids == n.kids[..j + 1] + ks + n.kids[j + 1..];
  }

  lemma KidCount(w: Node, f: Path, j: nat, ks: seq<Node>)
    requires HasPath(w, f) && At(w, f).Elem? && j <= |At(w, f).kids|
    ensures forall y: Id :: Count([Put(w, f, WithKids(At(w, f), j, ks))], y) == Count([w], y) + Count(ks, y)
  {
    var n, m := At(w, f), WithKids(At(w, f), j, ks);
    forall y: Id ensures Count([Put(w, f, m)], y) == Count([w], y) + Count(ks, y) {
      CountPut(w, f, m, y);
      CountElem(n, y);
      CountElem(m, y);
      CountConcat(n.kids[..j] + ks, n.kids[j..], y);
      CountConcat(n.kids[..j], ks, y);
      CountConcat(n.kids[..j], n.kids[j..], y);
      assert n.kids == n.kids[..j] + n.kids[j..];
    }
  }

  /** The points in front of and behind a text node, in its parent. */
  lemma TextBeside(w: Node, n: Id, o: nat)
    requires Distinct(w) && IsPoint(w, n, o) && Get(w, n).Text? && |Where(w, n)| > 1
    ensures var f, j := Front(Where(w, n)), Last(Where(w, n));
      && HasPath(w, f) && At(w, f).Elem? && j < |At(w, f).kids| && At(w, f).kids[j] == Get(w, n)
      && ValidPoint(w, f, j) && ValidPoint(w, f, j + 1)
      && TextOffOf(w, n, o) == TextOff(w, f, j) + o && TextOff(w, f, j + 1) == TextOff(w, f, j) + Len(Get(w, n))
  {
    var p := Where(w, n);
    var f, j := Front(p), Last(p);
    assert p == f + [j];
    AtPrefix(w, p, |f|);
    AtAppend(w, f, [j]);
    PosText(At(w, f), j, o);
    PointContext(w, f, [j], o);
    PointContext(w, f, [], j);
    PointContext(w, f, [], j + 1);
    assert f + [] == f;
    WidthStep(At(w, f).kids, j);
    Singleton(Get(w, n));
  }

  lemma PosBeside(w: Node, n: Id, o: nat)
    requires Distinct(w) && IsPoint(w, n, o) && Get(w, n).Text? && |Where(w, n)| > 1
    ensures var f, j := Front(Where(w, n)), Last(Where(w, n));
      && ValidPoint(w, f, j) && ValidPoint(w, f, j + 1)
      && PosOf(w, n, o) == Pos(w, f, j) + 1 + o && Pos(w, f, j + 1) == Pos(w, f, j) + Len(Get(w, n)) + 2
  {
    TextBeside(w, n, o);
    var p := Where(w, n);
    var f, j := Front(p), Last(p);
    assert p == f + [j];
    PosText(At(w, f), j, o);
    PointContext(w, f, [j], o);
    PointContext(w, f, [], j);
    PointContext(w, f, [], j + 1);
    assert f + [] == f;
    WidthStep(At(w, f).kids, j);
    Singleton(Get(w, n));
  }

  /** The place is the point itself in an element, and else the other side of the nearest tag of the text: of
      its opening tag at its beginning, and of a closing tag, its own or its first half's, behind it. */
  lemma SpotStands(w: Node, n: Id, o: nat, newId: Id)
    requires Distinct(w) && Insertable(w, n, o) && Distinct(SpotOf(w, n, o, newId).world)
    ensures var s := SpotOf(w, n, o, newId);
      && ValidPoint(s.world, s.path, s.index)
      && Pos(s.world, s.path, s.index) == PosOf(w, n, o)
           + (if Get(w, n).Elem? then 0 else if o == 0 < Len(Get(w, n)) then -1 else 1)
  {
    if Get(w, n).Text? {
      ParentAt(w, Where(w, n));
      PosBeside(w, n, o);
      if 0 < o < Len(Get(w, n)) {
        var v := SplitWorld(w, n, o, newId);
        SplitHalves(w, n, o, newId);
        ParentAt(v, Where(v, newId));
        PosBeside(v, newId, 0);
      }
    }
  }

  lemma SplitCount(w: Node, n: Id, o: nat, newId: Id)
    requires Distinct(w) && Splittable(w, n, o)
    ensures forall y: Id :: y != newId ==> Count([SplitWorld(w, n, o, newId)], y) == Count([w], y)
  {
    var t, x := Where(w, n), Get(w, n);
    var x1, x2 := Text(x.id, x.data[..o]), Text(newId, x.data[o..]);
    assert SplitWorld(w, n, o, newId) == Replaced(w, n, [x1, x2]);
    assert [x][1..] == [] && [x1][1..] == [] && [x2][1..] == [] && [x1, x2] == [x1] + [x2];
    forall y: Id | y != newId ensures Count([SplitWorld(w, n, o, newId)], y) == Count([w], y) {
      CountReplaced(w, n, [x1, x2], y);
      CountConcat([x1], [x2], y);
    }
  }

  // ----- surroundContents -----

  /** An element that the range reaches into, with a boundary in or on it. */
  predicate IsCut(w: Node, range: RangeState, n: Node)
    requires IsNode(w, n.id) && IsNode(w, range.startContainer) && IsNode(w, range.endContainer)
  {
    n.Elem? && (Holds(w, n.id, range.startContainer) || Holds(w, n.id, range.endContainer))
  }

  /** Some child of the common ancestor is an element that a boundary cuts. */
  ghost predicate CutsElement(w: Node, range: RangeState)
    requires Distinct(w) && ValidRange(w, range)
  {
    exists k :: 0 <= k < |Stops(w, range)| && IsNode(w, Stops(w, range)[k].id) && IsCut(w, range, Stops(w, range)[k])
  }

  lemma OnlyOneHeld(w: Node, range: RangeState, k: nat)
    requires Distinct(w) && ValidRange(w, range) && k < |Stops(w, range)| && Root(w, range).Elem?
    ensures var x := Stops(w, range)[k].id;
      IsNode(w, x) && !(Holds(w, x, range.startContainer) && Holds(w, x, range.endContainer))
  {
    StopHolds(w, range, k);
    RangeShape(w, range);
  }

  /** The child of the common ancestor towards a node that holds one boundary alone is cut. */
  lemma TowardsHolder(w: Node, range: RangeState, x: Id)
    requires Distinct(w) && ValidRange(w, range) && IsNode(w, x) && Get(w, x).Elem?
    requires Holds(w, x, range.startContainer) != Holds(w, x, range.endContainer)
    ensures CutsElement(w, range)
  {
    RangeShape(w, range);
    var c, p, q := RootPath(w, range), StartBelow(w, range), EndBelow(w, range);
    if Holds(w, x, range.startContainer) {
      HolderBelow(w, x, c, p, q);
      StopIndex(w, range);
      StopHolds(w, range, 0);
      StopAt(w, range, 0);
    } else {
      HolderBelow(w, x, c, q, p);
      StopIndex(w, range);
      StopHolds(w, range, |Stops(w, range)| - 1);
      StopAt(w, range, |Stops(w, range)| - 1);
    }
  }

  /** A node on the way to one of two nodes, and not to the other. */
  lemma HolderBelow(w: Node, x: Id, c: Path, p: Path, q: Path)
    requires Distinct(w) && IsNode(w, x) && Get(w, x).Elem? && HasPath(w, c + p)
    requires Where(w, x) <= c + p && !(Where(w, x) <= c + q)
    ensures p != [] && HasPath(w, c + [p[0]]) && At(w, c + [p[0]]).Elem? && HasPath(w, c) && At(w, c).Elem?
  {
    var y := Where(w, x);
    assert |y| <= |c| ==> y <= c + q;
    assert y[..|c|] == c && y[|c|] == p[0] && y[..|c| + 1] == c + [p[0]];
    AtPrefix(w, y, |c|);
    AtPrefix(w, y, |c| + 1);
  }

  /** A boundary cuts an element just when some element, wherever it is, holds one boundary and not the other. */
  lemma CutExactly(w: Node, range: RangeState)
    requires Distinct(w) && ValidRange(w, range)
    ensures CutsElement(w, range) <==> exists x: Id ::
        IsNode(w, x) && Get(w, x).Elem? && Holds(w, x, range.startContainer) != Holds(w, x, range.endContainer)
  {
    if CutsElement(w, range) {
      var k: int :| 0 <= k < |Stops(w, range)| && IsNode(w, Stops(w, range)[k].id)
                    && IsCut(w, range, Stops(w, range)[k]);
      StopAt(w, range, k);
      StopIndex(w, range);
      OnlyOneHeld(w, range, k);
      assert Get(w, Stops(w, range)[k].id).Elem?;
    }
    forall x: Id | IsNode(w, x) && Get(w, x).Elem?
                   && Holds(w, x, range.startContainer) != Holds(w, x, range.endContainer)
      ensures CutsElement(w, range)
    {
      TowardsHolder(w, range, x);
    }
  }

  /** Only the first and the last child that the range reaches into can hold a boundary. */
  lemma OnlyEndsCut(w: Node, range: RangeState, k: nat)
    requires Distinct(w) && ValidRange(w, range) && 0 < k < |Stops(w, range)| - 1
    ensures IsNode(w, Stops(w, range)[k].id) && !IsCut(w, range, Stops(w, range)[k])
  {
    StopIndex(w, range);
    StopHolds(w, range, k);
  }

  /** canSurroundContents: it is enough to look at the first and the last node. */
  method CanSurroundContents(w: Node, range: RangeState) returns (ok: bool)
    requires Distinct(w) && ValidRange(w, range)
    ensures ok <==> !CutsElement(w, range)
  {
    var it := new RangeIterator(w, range, true);
    ok := true;
    if it.first.Some? {
      StopAt(w, range, 0);
      var cut := IsNonTextPartiallySelected(w, it.first.value, range);
      if cut {
        assert IsCut(w, range, Stops(w, range)[0]);
        return false;
      }
    }
    if it.last.Some? {
      StopAt(w, range, |Stops(w, range)| - 1);
      var cut := IsNonTextPartiallySelected(w, it.last.value, range);
      if cut {
        assert IsCut(w, range, Stops(w, range)[|Stops(w, range)| - 1]);
        return false;
      }
    }
    forall k | 0 <= k < |Stops(w, range)|
      ensures IsNode(w, Stops(w, range)[k].id) && !IsCut(w, range, Stops(w, range)[k])
    {
      if 0 < k < |Stops(w, range)| - 1 {
        OnlyEndsCut(w, range, k);
      }
    }
  }

  method IsNonTextPartiallySelected(w: Node, node: Id, range: RangeState) returns (b: bool)
    requires Distinct(w) && IsNode(w, node) && ValidRange(w, range)
    ensures b <==> Get(w, node).Elem? && (Holds(w, node, range.startContainer) || Holds(w, node, range.endContainer))
  {
    b := false;
    if Get(w, node).Elem? {
      b := IsAncestorOf(w, node, range.startContainer, true);
      if !b {
        b := IsAncestorOf(w, node, range.endContainer, true);
      }
    }
  }

  /** The document after a range was surrounded by an element: the text is what it was, and the selected
      characters stand under the element. */
  ghost predicate Surrounded(w: Node, s: RangeState, v: Node, x: Node)
    requires Distinct(w) && ValidRange(w, s) && x.Elem?
  {
    var a, b := TextOffOf(w, s.startContainer, s.startOffset), TextOffOf(w, s.endContainer, s.endOffset);
    && Flat([v]) == Flat([w]) && SameTop(w, v) && a <= b <= |Flat([w])|
    && IsNode(v, x.id) && |Where(v, x.id)| > 1 && Get(v, x.id).Elem? && Get(v, x.id).tag == x.tag
    && Shape(Get(v, x.id).kids) == Shape(Content(w, s))
    && IsPoint(v, x.id, 0) && TextOffOf(v, x.id, 0) == a
    && forall ap: Applier ::
         && BesideKept(Status(ap, [w], false), a, b, Status(ap, [v], false))
         && (Accepts(ap, x.tag) ==> Overlaid(Status(ap, [w], false), a, b, Status(ap, [v], false)))
  }

  /** Before `a` and from `b` on everything is as before. */
  predicate BesideKept<T(==)>(s: seq<T>, a: nat, b: nat, t: seq<T>) {
    a <= b <= |s| == |t| && t[..a] == s[..a] && t[b..] == s[b..]
  }

  /** From `a` to `b` everything is true; elsewhere it is as before. */
  ghost predicate Overlaid(s: seq<bool>, a: nat, b: nat, t: seq<bool>) {
    a <= b <= |s| && t == s[..a] + Const(b - a, true) + s[b..]
  }

  /** If the contents can be surrounded, the content of the range is taken out, the node put in its place,
      and the content put into the node; otherwise an exception is raised and nothing changes. */
  method SurroundContents(d: Document, range: Range, node: Node) returns (ok: bool)
    requires d.Valid() && ValidRange(d.world, range.State()) && Attached(d.world, range.State())
    requires forall i :: 0 <= i < |d.world.kids| ==> d.world.kids[i].Elem?
    requires node.Elem? && node.id < d.nextId && Count([d.world], node.id) == 0
    modifies d, range
    ensures d.Valid() && ValidRange(d.world, range.State())
    ensures ok <==> !CutsElement(old(d.world), old(range.State()))
    ensures !ok ==> d.world == old(d.world) && range.State() == old(range.State())
    ensures ok ==> Surrounded(old(d.world), old(range.State()), d.world, node)
    ensures ok ==> Selects(d.world, range.State(), node.id)
  {
    hide Surrounded, CutsElement;
    ok := CanSurroundContents(d.world, range.State());
    if ok {
      Enclose(d, range, node);
    }
  }

  /** What surroundContents does when nothing is in its way. */
  method Enclose(d: Document, range: Range, node: Node)
    requires d.Valid() && ValidRange(d.world, range.State()) && Attached(d.world, range.State())
    requires forall i :: 0 <= i < |d.world.kids| ==> d.world.kids[i].Elem?
    requires node.Elem? && node.id < d.nextId && Count([d.world], node.id) == 0
    modifies d, range
    ensures d.Valid() && ValidRange(d.world, range.State())
    ensures Surrounded(old(d.world), old(range.State()), d.world, node)
    ensures Selects(d.world, range.State(), node.id)
  {
    hide Surrounded, Shape, Status;
    ghost var w, s, a := d.world, range.State(), d.nextId;
    var content := ExtractContents(d, range);
    ghost var v, b := d.world, d.nextId;
    var bare := Emptied(node);
    StillAbsent(w, a, v, b, bare, content);
    DeletedTop(w, s);
    InnerText(v, range.startContainer);
    ParentAt(v, Where(v, range.startContainer));
    ghost var n, o := range.startContainer, range.startOffset;
    var _ := InsertNodeAtPosition(d, [bare], range.startContainer, range.startOffset);
    ghost var u := d.world;
    Inserted(v, n, o, b, [bare]);
    EmptyInserted(v, n, o, b, bare);
    StillLoose(w, a, v, b, content, u, bare, d.nextId);
    d.AppendChild(content, bare.id);
    assert bare.kids + content == content;
    SurroundEffect(w, s, u, d.world, bare, content);
    SameSurround(w, s, d.world, bare, node);
    SelectNodeIn(d.world, range, node.id);
  }

  /** The loop that takes the last child off until none is left. */
  method Emptied(node: Node) returns (bare: Node)
    requires node.Elem?
    ensures bare == node.(kids := [])
  {
    bare := node;
    while bare.kids != []
      invariant bare.Elem? && bare.id == node.id && bare.tag == node.tag
      decreases |bare.kids|
    {
      bare := bare.(kids := bare.kids[..|bare.kids| - 1]);
    }
  }

  lemma SameSurround(w: Node, s: RangeState, v: Node, x: Node, y: Node)
    requires Distinct(w) && ValidRange(w, s) && x.Elem? && Surrounded(w, s, v, x)
    requires y.Elem? && x.id == y.id && x.tag == y.tag
    ensures Surrounded(w, s, v, y) && IsNode(v, y.id) && |Where(v, y.id)| > 1
  {
  }

  /** From directly in front of a node to directly behind it. */
  predicate Selects(w: Node, r: RangeState, node: Id) {
    DomRange.Placed(w, node) && Start(r) == BeforeNode(w, node) && End(r) == AfterNode(w, node)
  }

  /** selectNode */
  method SelectNodeIn(w: Node, range: Range, node: Id)
    requires Distinct(w) && IsNode(w, node) && |Where(w, node)| > 1
    modifies range
    ensures ValidRange(w, range.State()) && Selects(w, range.State(), node)
  {
    ParentAt(w, Where(w, node));
    PlacedPoints(w, node);
    var i := GetNodeIndex(w, node);
    var parent := ParentNode(w, node).value;
    range.Update(w, parent, i, parent, i + 1);
  }

  // ----- why that keeps the text -----

  lemma StillAbsent(w: Node, a: Id, v: Node, b: Id, x: Node, content: seq<Node>)
    requires Conserved(w, a, v, b, content) && x.Elem? && x.kids == [] && x.id < a <= b && Count([w], x.id) == 0
    ensures Loose(v, b, [x])
  {
    assert ConservedAt(w, a, v, b, content, x.id);
    assert [x][1..] == [];
  }

  lemma StillLoose(w: Node, a: Id, v: Node, b: Id, content: seq<Node>, u: Node, n: Node, c: Id)
    requires Distinct(w) && Conserved(w, a, v, b, content) && n.Elem? && n.kids == [] && n.id < a <= b <= c
    requires Count([w], n.id) == 0 && OnlyAdds(v, u, [n], b)
    ensures Loose(u, c, content)
  {
    forall x: Id ensures Count(content, x) <= 1 && (Count(content, x) == 1 ==> Count([u], x) == 0 && x < c) {
      assert ConservedAt(w, a, v, b, content, x);
      assert ConservedAt(w, a, v, b, content, n.id);
      assert Count([w], x) <= 1;
      assert [n][1..] == [];
    }
  }

  lemma DeletedTop(w: Node, s: RangeState)
    requires Distinct(w) && ValidRange(w, s) && w.Elem? && forall i :: 0 <= i < |w.kids| ==> w.kids[i].Elem?
    ensures SameTop(w, Deleted(w, s))
  {
    if !s.collapsed {
      RangeShape(w, s);
      if CutRoot(w, s).Elem? {
        PutRootTag(w, RootPath(w, s), CutRoot(w, s));
      } else {
        PutBelowTop(w, RootPath(w, s), CutRoot(w, s));
      }
    }
  }

  lemma PutBelowTop(w: Node, c: Path, x: Node)
    requires HasPath(w, c) && |c| > 0 && At(w, c).Text? && x.Text?
    requires forall i :: 0 <= i < |w.kids| ==> w.kids[i].Elem?
    ensures SameTop(w, Put(w, c, x))
  {
    assert c[1..] != [];
    assert Put(w.kids[c[0]], c[1..], x).Elem?;
  }

  lemma SameTopTrans(w: Node, v: Node, u: Node)
    requires SameTop(w, v) && SameTop(v, u)
    ensures SameTop(w, u)
  {
  }

  lemma InnerText(w: Node, x: Id)
    requires IsNode(w, x) && w.Elem? && forall i :: 0 <= i < |w.kids| ==> w.kids[i].Elem?
    ensures Get(w, x).Text? ==> |Where(w, x)| > 1
  {
    var p := Where(w, x);
    if |p| == 1 {
      assert p[1..] == [];
    }
  }

  lemma StatusDeleted(ap: Applier, w: Node, s: RangeState)
    requires Distinct(w) && ValidRange(w, s)
    ensures TextOffOf(w, s.startContainer, s.startOffset) <= TextOffOf(w, s.endContainer, s.endOffset)
    ensures TextOffOf(w, s.endContainer, s.endOffset) <= |Status(ap, [w], false)|
    ensures Status(ap, [Deleted(w, s)], false)
      == Status(ap, [w], false)[..TextOffOf(w, s.startContainer, s.startOffset)]
         + Status(ap, [w], false)[TextOffOf(w, s.endContainer, s.endOffset)..]
  {
    RangeText(w, s);
    StatusLength(ap, [w], false);
    if !s.collapsed {
      RangeShape(w, s);
      var n, c, p, q := Root(w, s), RootPath(w, s), StartBelow(w, s), EndBelow(w, s);
      StatusCutNode(ap, n, p, s.startOffset, q, s.endOffset, Inherits(ap, w, c, false));
      StatusCutBelow(ap, w, c, p, s.startOffset, q, s.endOffset, CutRoot(w, s));
    }
  }

  lemma StatusCutNode(ap: Applier, n: Node, p: Path, so: nat, q: Path, eo: nat, inherited: bool)
    requires ValidPoint(n, p, so) && ValidPoint(n, q, eo)
    requires if n.Text? then so <= eo <= |n.data| else Spans(n, p, so, q, eo)
    ensures TextOff(n, p, so) <= |Status(ap, [n], inherited)| == |Flat([n])| && TextOff(n, q, eo) <= |Flat([n])|
    ensures Status(ap, [CutNode(n, p, so, q, eo)], inherited)
      == Status(ap, [n], inherited)[..TextOff(n, p, so)] + Status(ap, [n], inherited)[TextOff(n, q, eo)..]
  {
    StatusLength(ap, [n], inherited);
    PosInside(n, p, so);
    PosInside(n, q, eo);
    if n.Elem? {
      StatusCut(ap, n, p, so, q, eo, inherited);
    } else {
      StatusOne(ap, n, inherited);
      StatusOne(ap, CutNode(n, p, so, q, eo), inherited);
    }
  }

  lemma StatusCutBelow(ap: Applier, w: Node, c: Path, p: Path, so: nat, q: Path, eo: nat, x: Node)
    requires HasPath(w, c) && ValidPoint(At(w, c), p, so) && ValidPoint(At(w, c), q, eo)
    requires TextOff(At(w, c), p, so) <= |Flat([At(w, c)])| && TextOff(At(w, c), q, eo) <= |Flat([At(w, c)])|
    requires |Status(ap, [At(w, c)], Inherits(ap, w, c, false))| == |Flat([At(w, c)])|
    requires Status(ap, [x], Inherits(ap, w, c, false))
      == Status(ap, [At(w, c)], Inherits(ap, w, c, false))[..TextOff(At(w, c), p, so)]
         + Status(ap, [At(w, c)], Inherits(ap, w, c, false))[TextOff(At(w, c), q, eo)..]
    ensures ValidPoint(w, c + p, so) && ValidPoint(w, c + q, eo)
    ensures TextOff(w, c + p, so) <= |Status(ap, [w], false)| && TextOff(w, c + q, eo) <= |Status(ap, [w], false)|
    ensures Status(ap, [Put(w, c, x)], false)
      == Status(ap, [w], false)[..TextOff(w, c + p, so)] + Status(ap, [w], false)[TextOff(w, c + q, eo)..]
  {
    hide *;
    PointContext(w, c, p, so);
    PointContext(w, c, q, eo);
    StatusPut(ap, w, c, x, false);
    StatusContext(ap, w, c, false);
    OuterCut(Status(ap, [w], false), TextOff(w, c, 0), Status(ap, [At(w, c)], Inherits(ap, w, c, false)),
      TextOff(At(w, c), p, so), TextOff(At(w, c), q, eo));
  }

  /** The text taken out is put back, now under the new element. */
  lemma SurroundEffect(w: Node, s: RangeState, u: Node, z: Node, x: Node, content: seq<Node>)
    requires Distinct(w) && ValidRange(w, s) && Distinct(u) && Distinct(z)
    requires w.Elem? && forall i :: 0 <= i < |w.kids| ==> w.kids[i].Elem?
    requires x.Elem? && x.kids == [] && Shape(content) == Shape(Content(w, s))
    requires PutIn(Deleted(w, s), u, x, TextOffOf(w, s.startContainer, s.startOffset))
    requires z == Put(u, Where(u, x.id), x.(kids := content))
    ensures Surrounded(w, s, z, x)
  {
    var v, c, m := Deleted(w, s), Where(u, x.id), x.(kids := content);
    var a, b := TextOffOf(w, s.startContainer, s.startOffset), TextOffOf(w, s.endContainer, s.endOffset);
    ExtractedText(w, s, content);
    DeletedTop(w, s);
    PutRootTag(u, c, m);
    SameTopTrans(w, v, u);
    SameTopTrans(w, u, z);
    AtPut(u, c, m);
    WhereAt(z, c);
    FlatPut(u, c, m);
    FlatElem(x);
    FlatElem(m);
    NoText();
    StartsAtZero(m);
    PointContext(z, c, [], 0);
    assert c + [] == c;
    BackIn(Flat([w]), a, b);
    forall ap: Applier
      ensures BesideKept(Status(ap, [w], false), a, b, Status(ap, [z], false))
      ensures Accepts(ap, x.tag) ==> Overlaid(Status(ap, [w], false), a, b, Status(ap, [z], false))
    {
      SurroundStatus(ap, w, s, u, x, content);
    }
  }

  lemma SurroundStatus(ap: Applier, w: Node, s: RangeState, u: Node, x: Node, content: seq<Node>)
    requires Distinct(w) && ValidRange(w, s) && Distinct(u) && x.Elem? && x.kids == []
    requires PutIn(Deleted(w, s), u, x, TextOffOf(w, s.startContainer, s.startOffset))
    requires |Flat(content)|
        == TextOffOf(w, s.endContainer, s.endOffset) - TextOffOf(w, s.startContainer, s.startOffset)
    ensures TextOffOf(w, s.startContainer, s.startOffset) <= TextOffOf(w, s.endContainer, s.endOffset)
    ensures BesideKept(Status(ap, [w], false), TextOffOf(w, s.startContainer, s.startOffset),
              TextOffOf(w, s.endContainer, s.endOffset),
              Status(ap, [Put(u, Where(u, x.id), x.(kids := content))], false))
    ensures Accepts(ap, x.tag) ==>
        Overlaid(Status(ap, [w], false), TextOffOf(w, s.startContainer, s.startOffset),
          TextOffOf(w, s.endContainer, s.endOffset),
          Status(ap, [Put(u, Where(u, x.id), x.(kids := content))], false))
  {
    var c, m := Where(u, x.id), x.(kids := content);
    var a, b := TextOffOf(w, s.startContainer, s.startOffset), TextOffOf(w, s.endContainer, s.endOffset);
    assert Status(ap, [u], false) == Status(ap, [Deleted(w, s)], false);
    assert Flat([x]) == "" by { FlatElem(x); NoText(); }
    assert TextOff(u, c, 0) == a;
    hide Status, Flat, Deleted, TextOff, Inherits;
    StatusDeleted(ap, w, s);
    StatusPut(ap, u, c, m, false);
    var inside := Status(ap, [m], Inherits(ap, u, c, false));
    StatusOne(ap, m, Inherits(ap, u, c, false));
    StatusLength(ap, content, Inherits(ap, u, c, false) || Accepts(ap, x.tag));
    Insertion(Status(ap, [w], false), a, b, inside);
    if Accepts(ap, x.tag) {
      StatusInherited(ap, content);
    }
  }

  lemma BackIn(t: string, a: nat, b: nat)
    requires a <= b <= |t|
    ensures (t[..a] + t[b..])[..a] + t[a..b] + (t[..a] + t[b..])[a..] == t
  {
  }

  lemma Insertion<T>(t: seq<T>, a: nat, b: nat, x: seq<T>)
    requires a <= b <= |t|
    ensures (t[..a] + t[b..])[..a] + x + (t[..a] + t[b..])[a..] == t[..a] + x + t[b..]
    ensures |x| == b - a ==> (t[..a] + x + t[b..])[..a] == t[..a] && (t[..a] + x + t[b..])[b..] == t[b..]
  {
  }
}

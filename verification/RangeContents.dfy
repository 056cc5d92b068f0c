/** Taking the content of a range out of the document: deleteContents and extractContents. */
module RangeContents {
  import opened Wrappers
  import opened Tree
  import opened Positions
  import opened Navigation
  import opened Slices
  import opened Ranges
  import opened RangeIterators
  import opened Documents

  // ----- what is left of a stop -----

  /** The nodes that remain where the iterator stopped: what of the node lies outside the range, and
      nothing for a node wholly inside. */
  function LeftOver(r: RangeState, n: Node): seq<Node>
    requires Fits(r, n)
  {
    if n.Text? then
      if n.id == r.startContainer || n.id == r.endContainer
      then [n.(data := n.data[..CutFrom(r, n)] + n.data[CutTo(r, n)..])]
      else []
    else if Find(n, r.startContainer).Some? then [Head(n, Find(n, r.startContainer).value, r.startOffset)]
    else if Find(n, r.endContainer).Some? then [Tail(n, Find(n, r.endContainer).value, r.endOffset)]
    else []
  }

  /** Where the removal starts in a text node. */
  function CutFrom(r: RangeState, n: Node): nat {
    if n.id == r.startContainer then r.startOffset else 0
  }

  function CutTo(r: RangeState, n: Node): nat {
    if n.id == r.endContainer then r.endOffset else Len(n)
  }

  /** The boundaries that lie in a node are points of it, and an element holds at most one of them. */
  predicate Fits(r: RangeState, n: Node) {
    if n.Text? then CutFrom(r, n) <= CutTo(r, n) <= |n.data|
    else
      var p, q := Find(n, r.startContainer), Find(n, r.endContainer);
      (p.None? || q.None?)
      && (p.Some? ==> ValidPoint(n, p.value, r.startOffset))
      && (q.Some? ==> ValidPoint(n, q.value, r.endOffset))
  }

  /** Holding a boundary is finding it below. */
  lemma HoldsFind(w: Node, id: Id, x: Id)
    requires Distinct(w) && IsNode(w, id) && IsNode(w, x)
    ensures Holds(w, id, x) <==> Find(Get(w, id), x).Some?
    ensures Holds(w, id, x) ==> Find(Get(w, id), x) == Some(Inside(w, id, x))
  {
    var c, p, n := Where(w, id), Where(w, x), Get(w, id);
    DistinctAt(w, c);
    if Holds(w, id, x) {
      AtPrefix(w, p, |c|);
      assert p[..|c|] == c;
      FindAt(n, p[|c|..]);
    } else if Find(n, x).Some? {
      var q := Find(n, x).value;
      AtAppend(w, c, q);
      PathUnique(w, c + q, p);
    }
  }

  /** remove: deletes the selected part of a boundary text node, and any other node altogether. */
  method RemoveCurrent(d: Document, it: RangeIterator, ghost n: Node)
    requires d.Valid() && it.current == Some(n.id) && IsNode(d.world, n.id) && Get(d.world, n.id) == n
    requires |Where(d.world, n.id)| > 1 && Fits(it.range, n)
    requires n.Elem? ==> Find(n, it.range.startContainer).None? && Find(n, it.range.endContainer).None?
    modifies d`world
    ensures d.Valid() && d.world == Replaced(old(d.world), n.id, LeftOver(it.range, n))
  {
    var current, r := it.current.value, it.range;
    var node := Get(d.world, current);
    if node.Text? && (current == r.startContainer || current == r.endContainer) {
      var start := if current == r.startContainer then r.startOffset else 0;
      var end := if current == r.endContainer then r.endOffset else |node.data|;
      ReplacedOne(d.world, n.id, LeftOver(r, n)[0]);
      if start != end {
        d.SetData(current, node.data[..start] + node.data[end..]);
      } else {
        assert node.data[..start] + node.data[end..] == node.data;
        PutSame(d.world, Where(d.world, n.id));
      }
    } else {
      d.Remove(current);
    }
  }

  // ----- the document while the iterator advances -----

  function CutNode(n: Node, p: Path, so: nat, q: Path, eo: nat): Node
    requires if n.Text? then so <= eo <= |n.data| else Spans(n, p, so, q, eo)
  {
    if n.Text? then n.(data := n.data[..so] + n.data[eo..]) else Cut(n, p, so, q, eo)
  }

  /** The world with the content of a range taken out. */
  function Deleted(w: Node, r: RangeState): Node
    requires Distinct(w) && ValidRange(w, r)
  {
    RangeShape(w, r);
    if r.collapsed then w else Put(w, RootPath(w, r), CutRoot(w, r))
  }

  /** The common ancestor with the content of the range taken out. */
  function CutRoot(w: Node, r: RangeState): Node
    requires Distinct(w) && ValidRange(w, r)
  {
    RangeShape(w, r);
    CutNode(Root(w, r), StartBelow(w, r), r.startOffset, EndBelow(w, r), r.endOffset)
  }

  // ----- no node is doubled -----

  /** A half of a tree has no node more often than the children it reaches into. */
  lemma {:induction false} CountHalf(n: Node, p: Path, off: nat, id: Id)
    requires ValidPoint(n, p, off)
    ensures Count([Head(n, p, off)], id) <= Count([n], id)
    ensures Count([Tail(n, p, off)], id) <= Count([n], id)
    decreases |p|, 1
  {
    if n.Elem? {
      CountHalfKids(n, p, off, id);
      CountUpTo(n.kids, |n.kids|, First(p, off), id);
      CountUpTo(n.kids, |n.kids|, Limit(p, off), id);
      assert n.kids[..|n.kids|] == n.kids;
      CountElem(n, id);
      CountElem(Head(n, p, off), id);
      CountElem(Tail(n, p, off), id);
    } else {
      assert [n][1..] == [] && [Head(n, p, off)][1..] == [] && [Tail(n, p, off)][1..] == [];
    }
  }

  lemma {:induction false} CountHalfKids(n: Node, p: Path, off: nat, id: Id)
    requires n.Elem? && ValidPoint(n, p, off)
    ensures First(p, off) <= |n.kids| && Limit(p, off) <= |n.kids|
    ensures Count(Head(n, p, off).kids, id) <= Count(n.kids[..First(p, off)], id)
    ensures Count(Tail(n, p, off).kids, id) <= Count(n.kids[Limit(p, off)..], id)
    decreases |p|, 0
  {
    if p != [] {
      var i, k := p[0], n.kids[p[0]];
      CountHalf(k, p[1..], off, id);
      assert n.kids[..i + 1] == n.kids[..i] + [k] && n.kids[i..] == [k] + n.kids[i + 1..];
      CountConcat(n.kids[..i], [k], id);
      CountConcat(n.kids[..i], [Head(k, p[1..], off)], id);
      CountConcat([k], n.kids[i + 1..], id);
      CountConcat([Tail(k, p[1..], off)], n.kids[i + 1..], id);
    }
  }

  lemma CountUpTo(ks: seq<Node>, j: nat, i: nat, id: Id)
    requires i <= j <= |ks|
    ensures Count(ks[..i], id) + Count(ks[i..j], id) == Count(ks[..j], id)
  {
    assert ks[..j] == ks[..i] + ks[i..j];
    CountConcat(ks[..i], ks[i..j], id);
  }

  lemma CountCut(n: Node, p: Path, so: nat, q: Path, eo: nat, id: Id)
    requires if n.Text? then so <= eo <= |n.data| else Spans(n, p, so, q, eo)
    ensures Count([CutNode(n, p, so, q, eo)], id) <= Count([n], id)
  {
    var x := CutNode(n, p, so, q, eo);
    if n.Text? {
      assert [n][1..] == [] && [x][1..] == [];
    } else {
      var ks := n.kids;
      CountHalfKids(n, p, so, id);
      CountHalfKids(n, q, eo, id);
      CountConcat(Head(n, p, so).kids, Tail(n, q, eo).kids, id);
      CountUpTo(ks, Limit(q, eo), First(p, so), id);
      CountUpTo(ks, |ks|, Limit(q, eo), id);
      assert ks[..|ks|] == ks;
      CountElem(n, id);
      CountElem(x, id);
    }
  }

  lemma DeletedDistinct(w: Node, r: RangeState)
    requires Distinct(w) && ValidRange(w, r)
    ensures Distinct(Deleted(w, r))
  {
    if !r.collapsed {
      RangeShape(w, r);
      forall id ensures Count([Deleted(w, r)], id) <= 1 {
        CountPut(w, RootPath(w, r), CutRoot(w, r), id);
        CountCut(Root(w, r), StartBelow(w, r), r.startOffset, EndBelow(w, r), r.endOffset, id);
      }
    }
  }

  function LeftOvers(r: RangeState, ks: seq<Node>): seq<Node>
    requires forall n :: n in ks ==> Fits(r, n)
  {
    if ks == [] then [] else LeftOver(r, ks[0]) + LeftOvers(r, ks[1..])
  }

  lemma {:induction false} LeftOversAppend(r: RangeState, a: seq<Node>, b: seq<Node>)
    requires forall n :: n in a + b ==> Fits(r, n)
    ensures forall n :: n in a ==> n in a + b
    ensures forall n :: n in b ==> n in a + b
    ensures LeftOvers(r, a + b) == LeftOvers(r, a) + LeftOvers(r, b)
  {
    if a == [] {
      assert a + b == b;
    } else {
      assert (a + b)[1..] == a[1..] + b;
      LeftOversAppend(r, a[1..], b);
    }
  }

  /** A stop of a range fits it, and what is left of it follows from the boundaries it holds. */
  lemma StopFits(w: Node, r: RangeState, k: nat)
    requires Distinct(w) && ValidRange(w, r) && k < |Stops(w, r)|
    ensures Fits(r, Stops(w, r)[k])
  {
    StopAt(w, r, k);
    ContentAt(w, r, k);
    RangeShape(w, r);
    var n := Stops(w, r)[k];
    HoldsFind(w, n.id, r.startContainer);
    HoldsFind(w, n.id, r.endContainer);
    if n.Text? {
      TextHolds(w, n.id, r.startContainer);
      TextHolds(w, n.id, r.endContainer);
    }
  }

  lemma StopsFit(w: Node, r: RangeState)
    requires Distinct(w) && ValidRange(w, r)
    ensures forall n :: n in Stops(w, r) ==> Fits(r, n)
  {
    forall k | 0 <= k < |Stops(w, r)| ensures Fits(r, Stops(w, r)[k]) {
      StopFits(w, r, k);
    }
  }

  /** What is left of a child of the common ancestor. */
  lemma KidLeft(w: Node, r: RangeState, k: nat)
    requires Distinct(w) && ValidRange(w, r) && k < |Stops(w, r)| && Root(w, r).Elem?
    ensures var n, i, p, q := Stops(w, r)[k], Lo(w, r) + k, StartBelow(w, r), EndBelow(w, r);
      && Fits(r, n)
      && (p != [] && p[0] == i ==>
        ValidPoint(n, p[1..], r.startOffset) && LeftOver(r, n) == [Head(n, p[1..], r.startOffset)])
      && (q != [] && q[0] == i ==>
        ValidPoint(n, q[1..], r.endOffset) && LeftOver(r, n) == [Tail(n, q[1..], r.endOffset)])
      && ((p == [] || p[0] != i) && (q == [] || q[0] != i) ==> LeftOver(r, n) == [])
  {
    StopAt(w, r, k);
    StopFits(w, r, k);
    StopHolds(w, r, k);
    RangeShape(w, r);
    var n := Stops(w, r)[k];
    HoldsFind(w, n.id, r.startContainer);
    HoldsFind(w, n.id, r.endContainer);
    if n.Text? {
      TextHolds(w, n.id, r.startContainer);
      TextHolds(w, n.id, r.endContainer);
      assert n.data[..0] + n.data[CutTo(r, n)..] == n.data[CutTo(r, n)..];
      assert n.data[..CutFrom(r, n)] + n.data[|n.data|..] == n.data[..CutFrom(r, n)];
    }
  }

  /** What the first k stops leave. */
  function Done(w: Node, r: RangeState, k: nat): seq<Node>
    requires Distinct(w) && ValidRange(w, r) && k <= |Stops(w, r)|
  {
    StopsFit(w, r);
    LeftOvers(r, Stops(w, r)[..k])
  }

  lemma DoneStep(w: Node, r: RangeState, k: nat)
    requires Distinct(w) && ValidRange(w, r) && k < |Stops(w, r)|
    ensures Fits(r, Stops(w, r)[k]) && Done(w, r, k + 1) == Done(w, r, k) + LeftOver(r, Stops(w, r)[k])
  {
    hide ValidRange, Stops, Fits, LeftOver;
    StopsFit(w, r);
    var stops := Stops(w, r);
    assert stops[..k + 1] == stops[..k] + [stops[k]];
    LeftOversAppend(r, stops[..k], [stops[k]]);
    OneLeft(r, [stops[k]]);
  }

  /** The children of the common ancestor when the first k stops have been dealt with. */
  function KidsAt(w: Node, r: RangeState, k: nat): seq<Node>
    requires Distinct(w) && ValidRange(w, r) && !r.collapsed && Root(w, r).Elem? && k <= |Stops(w, r)|
  {
    RangeShape(w, r);
    Root(w, r).kids[..Lo(w, r)] + Done(w, r, k) + Root(w, r).kids[Lo(w, r) + k..]
  }

  /** The index among the stops of the first and of one past the last stop that is wholly inside. */
  function WholeFrom(w: Node, r: RangeState): nat
    requires Distinct(w) && ValidRange(w, r)
  {
    First(StartBelow(w, r), r.startOffset) - Lo(w, r)
  }

  function WholeTo(w: Node, r: RangeState): nat
    requires Distinct(w) && ValidRange(w, r) && Root(w, r).Elem?
  {
    RangeShape(w, r);
    Limit(EndBelow(w, r), r.endOffset) - Lo(w, r)
  }

  lemma WholeBounds(w: Node, r: RangeState)
    requires Distinct(w) && ValidRange(w, r) && !r.collapsed && Root(w, r).Elem?
    ensures WholeFrom(w, r) <= WholeTo(w, r) <= |Stops(w, r)|
    ensures Lo(w, r) + |Stops(w, r)| == Hi(w, r) <= |Root(w, r).kids|
    ensures forall n :: n in Stops(w, r) ==> Fits(r, n)
  {
    RangeShape(w, r);
    StopsFit(w, r);
  }

  /** Only the first and the last stop can leave something. */
  lemma OnlyEnds(w: Node, r: RangeState)
    requires Distinct(w) && ValidRange(w, r) && !r.collapsed && Root(w, r).Elem?
    ensures WholeFrom(w, r) <= WholeTo(w, r) <= |Stops(w, r)|
    ensures forall n :: n in Stops(w, r) ==> Fits(r, n)
    ensures LeftOvers(r, Stops(w, r))
      == LeftOvers(r, Stops(w, r)[..WholeFrom(w, r)]) + LeftOvers(r, Stops(w, r)[WholeTo(w, r)..])
  {
    WholeBounds(w, r);
    var stops, i, j := Stops(w, r), WholeFrom(w, r), WholeTo(w, r);
    forall k | i <= k < j ensures LeftOver(r, stops[k]) == [] {
      WholeKid(w, r, k);
    }
    MiddleEmpty(r, stops, i, j);
  }

  lemma WholeKid(w: Node, r: RangeState, k: nat)
    requires Distinct(w) && ValidRange(w, r) && !r.collapsed && Root(w, r).Elem? && k < |Stops(w, r)|
    requires WholeFrom(w, r) <= k < WholeTo(w, r)
    ensures Fits(r, Stops(w, r)[k]) && LeftOver(r, Stops(w, r)[k]) == []
  {
    KidLeft(w, r, k);
  }

  lemma MiddleEmpty(r: RangeState, stops: seq<Node>, i: nat, j: nat)
    requires i <= j <= |stops| && forall n :: n in stops ==> Fits(r, n)
    requires forall k :: i <= k < j ==> LeftOver(r, stops[k]) == []
    ensures LeftOvers(r, stops) == LeftOvers(r, stops[..i]) + LeftOvers(r, stops[j..])
  {
    hide *;
    assert stops == stops[..i] + (stops[i..j] + stops[j..]);
    LeftOversAppend(r, stops[..i], stops[i..j] + stops[j..]);
    LeftOversAppend(r, stops[i..j], stops[j..]);
    NothingLeft(r, stops[i..j]);
  }

  /** When all stops have been dealt with, the common ancestor is the cut one. */
  lemma KidsLeft(w: Node, r: RangeState)
    requires Distinct(w) && ValidRange(w, r) && !r.collapsed && Root(w, r).Elem?
    ensures KidsAt(w, r, |Stops(w, r)|) == CutRoot(w, r).kids
  {
    hide ValidRange, Distinct, Find, Where, RootPath, Pos, Order, Fits, LeftOvers;
    OnlyEnds(w, r);
    WholeBounds(w, r);
    LeftPart(w, r);
    RightPart(w, r);
    var stops := Stops(w, r);
    assert stops[..|stops|] == stops;
    Rejoin(Root(w, r).kids[..Lo(w, r)], LeftOvers(r, stops[..WholeFrom(w, r)]), LeftOvers(r, stops[WholeTo(w, r)..]),
      Root(w, r).kids[Hi(w, r)..], CutLeft(w, r), CutRight(w, r));
  }

  lemma Rejoin<T>(a: seq<T>, b: seq<T>, c: seq<T>, d: seq<T>, l: seq<T>, r: seq<T>)
    requires a + b == l && c + d == r
    ensures a + (b + c) + d == l + r
  {
  }

  lemma LeftPart(w: Node, r: RangeState)
    requires Distinct(w) && ValidRange(w, r) && !r.collapsed && Root(w, r).Elem?
    ensures forall n :: n in Stops(w, r) ==> Fits(r, n)
    ensures WholeFrom(w, r) <= |Stops(w, r)| && Lo(w, r) <= |Root(w, r).kids|
    ensures Root(w, r).kids[..Lo(w, r)] + LeftOvers(r, Stops(w, r)[..WholeFrom(w, r)]) == CutLeft(w, r)
  {
    hide ValidRange, Distinct, Find, Where, RootPath, Fits, Pos, Order;
    WholeBounds(w, r);
    RangeShape(w, r);
    if StartBelow(w, r) != [] {
      KidLeft(w, r, 0);
      OneLeft(r, Stops(w, r)[..1]);
    }
  }

  /** The end point lies in the last stop, unless it stands between two children. */
  lemma EndStop(w: Node, r: RangeState)
    requires Distinct(w) && ValidRange(w, r) && !r.collapsed && Root(w, r).Elem? && EndBelow(w, r) != []
    ensures var q, k := EndBelow(w, r), WholeTo(w, r);
      && ValidPoint(Root(w, r), q, r.endOffset) && q[0] < |Root(w, r).kids| && Hi(w, r) == q[0] + 1
      && k + 1 == |Stops(w, r)| && Fits(r, Stops(w, r)[k])
      && LeftOver(r, Stops(w, r)[k]) == [Tail(Root(w, r).kids[q[0]], q[1..], r.endOffset)]
  {
    hide Distinct, RootPath, Fits, Pos, Order, Tail, Head, LeftOver;
    WholeBounds(w, r);
    RangeShape(w, r);
    KidLeft(w, r, WholeTo(w, r));
    StopIndex(w, r);
  }

  lemma TailKids(n: Node, q: Path, off: nat)
    requires ValidPoint(n, q, off) && n.Elem?
    ensures Tail(n, q, off).kids
      == if q == [] then n.kids[off..] else [Tail(n.kids[q[0]], q[1..], off)] + n.kids[q[0] + 1..]
  {
  }

  lemma RightPart(w: Node, r: RangeState)
    requires Distinct(w) && ValidRange(w, r) && !r.collapsed && Root(w, r).Elem?
    ensures forall n :: n in Stops(w, r) ==> Fits(r, n)
    ensures WholeTo(w, r) <= |Stops(w, r)| && Hi(w, r) <= |Root(w, r).kids|
    ensures LeftOvers(r, Stops(w, r)[WholeTo(w, r)..]) + Root(w, r).kids[Hi(w, r)..] == CutRight(w, r)
  {
    hide ValidRange, Distinct, RootPath, Fits, Pos, Order, Tail, Head, LeftOver, Stops, EndBelow, Root, Lo;
    WholeBounds(w, r);
    RangeShape(w, r);
    TailKids(Root(w, r), EndBelow(w, r), r.endOffset);
    if EndBelow(w, r) != [] {
      EndStop(w, r);
      OneLeft(r, Stops(w, r)[WholeTo(w, r)..]);
    }
  }

  /** The children before the start point, and those after the end point. */
  function CutLeft(w: Node, r: RangeState): seq<Node>
    requires Distinct(w) && ValidRange(w, r) && Root(w, r).Elem?
  {
    RangeShape(w, r);
    Head(Root(w, r), StartBelow(w, r), r.startOffset).kids
  }

  function CutRight(w: Node, r: RangeState): seq<Node>
    requires Distinct(w) && ValidRange(w, r) && Root(w, r).Elem?
  {
    RangeShape(w, r);
    Tail(Root(w, r), EndBelow(w, r), r.endOffset).kids
  }

  lemma OneLeft(r: RangeState, ks: seq<Node>)
    requires |ks| == 1 && Fits(r, ks[0])
    ensures LeftOvers(r, ks) == LeftOver(r, ks[0])
  {
    assert ks[1..] == [];
  }

  lemma {:induction false} NothingLeft(r: RangeState, ks: seq<Node>)
    requires forall n :: n in ks ==> Fits(r, n)
    requires forall k :: 0 <= k < |ks| ==> LeftOver(r, ks[k]) == []
    ensures LeftOvers(r, ks) == []
  {
    if ks != [] {
      NothingLeft(r, ks[1..]);
    }
  }

  /** The world when the first k stops have been dealt with. */
  function WorldAt(w: Node, r: RangeState, k: nat): Node
    requires Distinct(w) && ValidRange(w, r) && k <= |Stops(w, r)|
  {
    RangeShape(w, r);
    StopsFit(w, r);
    var n := Root(w, r);
    if k == 0 then w
    else if n.Text? then Deleted(w, r)
    else Put(w, RootPath(w, r), n.(kids := KidsAt(w, r, k)))
  }

  lemma WorldEnd(w: Node, r: RangeState)
    requires Distinct(w) && ValidRange(w, r)
    ensures WorldAt(w, r, |Stops(w, r)|) == Deleted(w, r)
  {
    RangeShape(w, r);
    if !r.collapsed && Root(w, r).Elem? {
      KidsLeft(w, r);
    }
  }

  /** What stands at the common ancestor's place. */
  lemma WorldKids(w: Node, r: RangeState, k: nat)
    requires Distinct(w) && ValidRange(w, r) && !r.collapsed && Root(w, r).Elem? && k <= |Stops(w, r)|
    ensures HasPath(w, RootPath(w, r)) && HasPath(WorldAt(w, r, k), RootPath(w, r))
    ensures WorldAt(w, r, k) == Put(w, RootPath(w, r), At(WorldAt(w, r, k), RootPath(w, r)))
    ensures At(WorldAt(w, r, k), RootPath(w, r)) == Root(w, r).(kids := KidsAt(w, r, k))
  {
    RangeShape(w, r);
    AtPut(w, RootPath(w, r), Root(w, r).(kids := KidsAt(w, r, k)));
    if k == 0 {
      assert Stops(w, r)[..0] == [];
      assert KidsAt(w, r, 0) == Root(w, r).kids;
      PutSame(w, RootPath(w, r));
    }
  }

  /** Dealing with one stop leads from one world to the next. */
  lemma WorldStep(w: Node, r: RangeState, k: nat)
    requires Distinct(w) && ValidRange(w, r) && k < |Stops(w, r)| && Distinct(WorldAt(w, r, k)) && Attached(w, r)
    ensures Fits(r, Stops(w, r)[k])
    ensures var v, id := WorldAt(w, r, k), Stops(w, r)[k].id;
      IsNode(v, id) && |Where(v, id)| > 1 && Get(v, id) == Stops(w, r)[k]
      && Replaced(v, id, LeftOver(r, Stops(w, r)[k])) == WorldAt(w, r, k + 1)
  {
    StopFits(w, r, k);
    StopAt(w, r, k);
    RangeShape(w, r);
    if Root(w, r).Text? {
      TextStep(w, r);
    } else {
      KidStep(w, r, k);
    }
  }

  /** The range lies in a document or fragment, not in a text node that has no parent. */
  predicate Attached(w: Node, r: RangeState)
    requires ValidRange(w, r)
  {
    At(w, Where(w, r.startContainer)[..1]).Elem?
  }

  lemma TextStep(w: Node, r: RangeState)
    requires Distinct(w) && ValidRange(w, r) && !r.collapsed && Root(w, r).Text? && Attached(w, r)
    ensures Fits(r, Stops(w, r)[0]) && IsNode(w, Stops(w, r)[0].id) && |Where(w, Stops(w, r)[0].id)| > 1
    ensures Replaced(w, Stops(w, r)[0].id, LeftOver(r, Stops(w, r)[0])) == Deleted(w, r)
  {
    StopFits(w, r, 0);
    StopAt(w, r, 0);
    RangeShape(w, r);
    var c := RootPath(w, r);
    assert c + [] == c;
    assert c[..1] == c || |c| > 1;
    ReplacedOne(w, Stops(w, r)[0].id, LeftOver(r, Stops(w, r)[0])[0]);
  }

  lemma KidStep(w: Node, r: RangeState, k: nat)
    requires Distinct(w) && ValidRange(w, r) && k < |Stops(w, r)| && Distinct(WorldAt(w, r, k)) && Root(w, r).Elem?
    requires Fits(r, Stops(w, r)[k])
    ensures var v, id := WorldAt(w, r, k), Stops(w, r)[k].id;
      IsNode(v, id) && |Where(v, id)| > 1 && Get(v, id) == Stops(w, r)[k]
      && Replaced(v, id, LeftOver(r, Stops(w, r)[k])) == WorldAt(w, r, k + 1)
  {
    RangeShape(w, r);
    assert !r.collapsed && RootPath(w, r) != [];
    WorldKids(w, r, k);
    WorldKids(w, r, k + 1);
    KidsStep(w, r, k);
    SwapKid(w, RootPath(w, r), WorldAt(w, r, k), WorldAt(w, r, k + 1), KidsAt(w, r, k), KidsAt(w, r, k + 1),
      Lo(w, r) + |Done(w, r, k)|, LeftOver(r, Stops(w, r)[k]));
  }

  /** Two worlds that differ in one child of one node. */
  lemma SwapKid(w: Node, c: Path, v: Node, u: Node, ks: seq<Node>, ls: seq<Node>, i: nat, xs: seq<Node>)
    requires HasPath(w, c) && c != [] && At(w, c).Elem? && i < |ks| && Distinct(v)
    requires v == Put(w, c, At(w, c).(kids := ks)) && u == Put(w, c, At(w, c).(kids := ls))
    requires ks[..i] + xs + ks[i + 1..] == ls
    ensures var id := ks[i].id;
      IsNode(v, id) && |Where(v, id)| > 1 && Get(v, id) == ks[i] && Replaced(v, id, xs) == u
  {
    hide Distinct, Where, IsNode, Find;
    var n := At(w, c).(kids := ks);
    AtPut(w, c, n);
    KidAt(v, c, i);
    ReplacedBelow(v, c, i, xs);
    PutPut(w, c, n, Splice(n, i, xs));
  }

  lemma KidsStep(w: Node, r: RangeState, k: nat)
    requires Distinct(w) && ValidRange(w, r) && !r.collapsed && Root(w, r).Elem? && k < |Stops(w, r)|
    ensures Fits(r, Stops(w, r)[k])
    ensures var i := Lo(w, r) + |Done(w, r, k)|;
      i < |KidsAt(w, r, k)| && KidsAt(w, r, k)[i] == Stops(w, r)[k]
      && (k + 1 < |Stops(w, r)| ==> i + 1 < |KidsAt(w, r, k)| && KidsAt(w, r, k)[i + 1] == Stops(w, r)[k + 1])
      && KidsAt(w, r, k)[..i] + LeftOver(r, Stops(w, r)[k]) + KidsAt(w, r, k)[i + 1..] == KidsAt(w, r, k + 1)
  {
    StopIndex(w, r);
    DoneStep(w, r, k);
    hide ValidRange, Distinct, LeftOver, LeftOvers, Done, Stops, Root, Fits, Lo, Hi, RootPath;
    SpliceStep(Root(w, r).kids, Lo(w, r), Lo(w, r) + k, Done(w, r, k), LeftOver(r, Stops(w, r)[k]),
      KidsAt(w, r, k), KidsAt(w, r, k + 1));
  }

  lemma SpliceStep<T>(s: seq<T>, lo: nat, k: nat, done: seq<T>, x: seq<T>, cur: seq<T>, next: seq<T>)
    requires lo <= k < |s| && cur == s[..lo] + done + s[k..] && next == s[..lo] + (done + x) + s[k + 1..]
    ensures var i := lo + |done|;
      i < |cur| && cur[i] == s[k] && (k + 1 < |s| ==> i + 1 < |cur| && cur[i + 1] == s[k + 1])
      && cur[..i] + x + cur[i + 1..] == next
  {
  }

  /** The stops not yet reached stand as they did. */
  lemma WorldStanding(w: Node, r: RangeState, k: nat)
    requires Distinct(w) && ValidRange(w, r) && k < |Stops(w, r)| && Distinct(WorldAt(w, r, k)) && Attached(w, r)
    ensures Standing(WorldAt(w, r, k), Stops(w, r), k)
  {
    WorldStep(w, r, k);
    if k + 1 < |Stops(w, r)| {
      NextStop(w, r, k);
      RangeShape(w, r);
      WorldKids(w, r, k);
      KidsStep(w, r, k);
      KidAt(WorldAt(w, r, k), RootPath(w, r), Lo(w, r) + |Done(w, r, k)|);
    }
  }
}

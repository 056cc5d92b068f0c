/** The iterator over the children of a range's common ancestor, and the nested iteration built on it. */
module RangeIterators {
  import opened Wrappers
  import opened Tree
  import opened Positions
  import opened Navigation
  import opened Slices
  import opened Ranges
  import opened Traversal

  // ----- what a range covers -----

  /** The nodes the iterator stops at: the children of the common ancestor that the range reaches into. */
  function Stops(w: Node, r: RangeState): seq<Node>
    requires Distinct(w) && ValidRange(w, r)
  {
    RangeShape(w, r);
    if r.collapsed then []
    else if Root(w, r).Text? then [Root(w, r)]
    else Root(w, r).kids[Lo(w, r)..Hi(w, r)]
  }

  /** The content of a range: for every stop the part of it inside the range. */
  function Content(w: Node, r: RangeState): seq<Node>
    requires Distinct(w) && ValidRange(w, r)
  {
    RangeShape(w, r);
    var n := Root(w, r);
    if r.collapsed then []
    else if n.Text? then [n.(data := n.data[r.startOffset..r.endOffset])]
    else MidKids(n, StartBelow(w, r), r.startOffset, EndBelow(w, r), r.endOffset)
  }

  function StopPath(w: Node, r: RangeState, k: nat): Path
    requires Distinct(w) && ValidRange(w, r)
  {
    if Root(w, r).Text? then RootPath(w, r) else RootPath(w, r) + [Lo(w, r) + k]
  }

  /** Whether a boundary lies in or on a node. */
  predicate Holds(w: Node, id: Id, container: Id)
    requires IsNode(w, id) && IsNode(w, container)
  {
    Where(w, id) <= Where(w, container)
  }

  lemma StopAt(w: Node, r: RangeState, k: nat)
    requires Distinct(w) && ValidRange(w, r) && k < |Stops(w, r)|
    ensures HasPath(w, StopPath(w, r, k)) && At(w, StopPath(w, r, k)) == Stops(w, r)[k]
    ensures IsNode(w, Stops(w, r)[k].id) && Where(w, Stops(w, r)[k].id) == StopPath(w, r, k)
    ensures Get(w, Stops(w, r)[k].id) == Stops(w, r)[k]
  {
    RangeShape(w, r);
    if Root(w, r).Elem? {
      KidAt(w, RootPath(w, r), Lo(w, r) + k);
      AtAppend(w, RootPath(w, r), [Lo(w, r) + k]);
    }
  }

  lemma NextStop(w: Node, r: RangeState, k: nat)
    requires Distinct(w) && ValidRange(w, r) && k + 1 < |Stops(w, r)|
    ensures IsNode(w, Stops(w, r)[k].id)
    ensures NextSibling(w, Stops(w, r)[k].id) == Some(Stops(w, r)[k + 1].id)
    ensures Stops(w, r)[k].id != Stops(w, r)[|Stops(w, r)| - 1].id
  {
    hide Distinct, Find;
    StopIndex(w, r);
    RangeShape(w, r);
    hide Root, RootPath, Lo, Hi, Stops, StartBelow, EndBelow, ValidRange, Spans, Order;
    KidAt(w, RootPath(w, r), Lo(w, r) + k);
    KidAt(w, RootPath(w, r), Hi(w, r) - 1);
  }

  lemma StopIndex(w: Node, r: RangeState)
    requires Distinct(w) && ValidRange(w, r) && !r.collapsed
    ensures Root(w, r).Text? ==> |Stops(w, r)| == 1
    ensures Root(w, r).Elem? ==> Lo(w, r) < Hi(w, r) <= |Root(w, r).kids| && |Stops(w, r)| == Hi(w, r) - Lo(w, r)
    ensures Root(w, r).Elem? ==> forall k :: 0 <= k < |Stops(w, r)| ==> Stops(w, r)[k] == Root(w, r).kids[Lo(w, r) + k]
  {
    RangeShape(w, r);
  }

  lemma ContentLength(w: Node, r: RangeState)
    requires Distinct(w) && ValidRange(w, r)
    ensures |Content(w, r)| == |Stops(w, r)|
  {
    RangeShape(w, r);
    if !r.collapsed && Root(w, r).Elem? {
      MidKidsAt(Root(w, r), StartBelow(w, r), r.startOffset, EndBelow(w, r), r.endOffset, 0);
    }
  }

  /** Which boundary a child of the common ancestor holds. */
  lemma StopHolds(w: Node, r: RangeState, k: nat)
    requires Distinct(w) && ValidRange(w, r) && k < |Stops(w, r)| && Root(w, r).Elem?
    ensures var id, i, p, q := Stops(w, r)[k].id, Lo(w, r) + k, StartBelow(w, r), EndBelow(w, r);
      && IsNode(w, id)
      && (Holds(w, id, r.startContainer) <==> p != [] && p[0] == i)
      && (Holds(w, id, r.startContainer) ==> Inside(w, id, r.startContainer) == p[1..])
      && (Holds(w, id, r.endContainer) <==> q != [] && q[0] == i)
      && (Holds(w, id, r.endContainer) ==> Inside(w, id, r.endContainer) == q[1..])
  {
    RangeShape(w, r);
    StopAt(w, r, k);
    OnPath(RootPath(w, r), Lo(w, r) + k, StartBelow(w, r));
    OnPath(RootPath(w, r), Lo(w, r) + k, EndBelow(w, r));
  }

  /** The part of a stop that is in the range. */
  predicate Covered(w: Node, r: RangeState, n: Node, x: Node)
    requires IsNode(w, n.id) && IsNode(w, r.startContainer) && IsNode(w, r.endContainer)
  {
    if n.Text? then x == Shortened(n, r)
    else if Holds(w, n.id, r.startContainer) then
      !Holds(w, n.id, r.endContainer)
      && ValidPoint(n, Inside(w, n.id, r.startContainer), r.startOffset)
      && x == Tail(n, Inside(w, n.id, r.startContainer), r.startOffset)
    else if Holds(w, n.id, r.endContainer) then
      ValidPoint(n, Inside(w, n.id, r.endContainer), r.endOffset)
      && x == Head(n, Inside(w, n.id, r.endContainer), r.endOffset)
    else x == n
  }

  lemma ContentAt(w: Node, r: RangeState, k: nat)
    requires Distinct(w) && ValidRange(w, r) && k < |Stops(w, r)|
    ensures |Content(w, r)| == |Stops(w, r)| && IsNode(w, Stops(w, r)[k].id)
    ensures Covered(w, r, Stops(w, r)[k], Content(w, r)[k])
  {
    ContentLength(w, r);
    StopAt(w, r, k);
    if Root(w, r).Elem? {
      ContentAtKid(w, r, k);
    } else {
      RangeShape(w, r);
      assert RootPath(w, r) + [] == RootPath(w, r);
    }
  }

  lemma ContentAtKid(w: Node, r: RangeState, k: nat)
    requires Distinct(w) && ValidRange(w, r) && k < |Stops(w, r)| && Root(w, r).Elem?
    requires |Content(w, r)| == |Stops(w, r)|
    ensures IsNode(w, Stops(w, r)[k].id) && Covered(w, r, Stops(w, r)[k], Content(w, r)[k])
  {
    hide Distinct, Find, Order, Pos, TextOff, Covered, PieceOf;
    RangeShape(w, r);
    StopAt(w, r, k);
    var n, x, i, p, q := Stops(w, r)[k], Content(w, r)[k], Lo(w, r) + k, StartBelow(w, r), EndBelow(w, r);
    StopHolds(w, r, k);
    MidKidsAt(Root(w, r), p, r.startOffset, q, r.endOffset, k);
    CoveredKid(w, r, n, x, i, p, q);
  }

  /** A piece of a child, read off the boundaries the child holds. */
  lemma CoveredKid(w: Node, r: RangeState, n: Node, x: Node, i: nat, p: Path, q: Path)
    requires Distinct(w) && IsNode(w, n.id) && Get(w, n.id) == n && IsNode(w, r.startContainer)
    requires IsNode(w, r.endContainer)
    requires Holds(w, n.id, r.startContainer) <==> p != [] && p[0] == i
    requires Holds(w, n.id, r.startContainer) ==> Inside(w, n.id, r.startContainer) == p[1..]
    requires Holds(w, n.id, r.endContainer) <==> q != [] && q[0] == i
    requires Holds(w, n.id, r.endContainer) ==> Inside(w, n.id, r.endContainer) == q[1..]
    requires PieceOf(n, i, p, r.startOffset, q, r.endOffset, x)
    ensures Covered(w, r, n, x)
  {
    hide Where, Find, IsNode, Get, Distinct, Holds;
    if n.Text? {
      TextHolds(w, n.id, r.startContainer);
      TextHolds(w, n.id, r.endContainer);
      TextPieces(n, r, p, q);
    }
  }

  /** What slicing does to a text node that is a boundary container. */
  lemma TextPieces(n: Node, r: RangeState, p: Path, q: Path)
    requires n.Text?
    ensures p != [] && ValidPoint(n, p[1..], r.startOffset) ==>
        Tail(n, p[1..], r.startOffset) == n.(data := n.data[r.startOffset..])
    ensures q != [] && ValidPoint(n, q[1..], r.endOffset) ==>
        Head(n, q[1..], r.endOffset) == n.(data := n.data[..r.endOffset])
  {
  }

  /** The path from a node to a container it holds. */
  function Inside(w: Node, id: Id, container: Id): Path
    requires IsNode(w, id) && IsNode(w, container) && Holds(w, id, container)
  {
    Where(w, container)[|Where(w, id)|..]
  }

  lemma OnPath(c: Path, i: nat, p: Path)
    ensures c + [i] <= c + p <==> p != [] && p[0] == i
    ensures c + [i] <= c + p ==> (c + p)[|c + [i]|..] == p[1..]
  {
    if p != [] && p[0] == i {
      assert c + p == c + [i] + p[1..];
    }
    if c + [i] <= c + p {
      assert (c + p)[|c|] == (c + [i])[|c|];
    }
  }

  lemma TextHolds(w: Node, id: Id, container: Id)
    requires Distinct(w) && IsNode(w, id) && IsNode(w, container) && Get(w, id).Text?
    ensures Holds(w, id, container) <==> id == container
  {
    var a, p := Where(w, id), Where(w, container);
    if a <= p {
      AtPrefix(w, p, |a|);
      assert p[..|a|] == a;
      assert p[|a|..] == [];
    }
  }

  /** A boundary text node cut down to the range, as the iterator presents it when it clones. */
  function Shortened(n: Node, r: RangeState): Node
    requires n.Text?
  {
    var upTo := if n.id == r.endContainer && r.endOffset <= |n.data| then n.data[..r.endOffset] else n.data;
    n.(data := if n.id == r.startContainer && r.startOffset <= |upTo| then upTo[r.startOffset..] else upTo)
  }

  function Presented(n: Node, r: RangeState, cloneText: bool): Node {
    if n.Text? && cloneText then Shortened(n, r) else n
  }

  // ----- the iterator -----

  lemma SingleText(w: Node, r: RangeState)
    requires Distinct(w) && ValidRange(w, r)
    requires r.startContainer == r.endContainer && Get(w, r.startContainer).Text?
    ensures Root(w, r) == Get(w, r.startContainer)
  {
    SameTreeCommon(w, r.startContainer, r.endContainer);
    RangeShape(w, r);
  }

  /** If the range is not inside one text node, its common ancestor is an element, and a container is that
      element just when nothing lies between them. */
  lemma NotSingle(w: Node, r: RangeState)
    requires Distinct(w) && ValidRange(w, r)
    requires !(r.startContainer == r.endContainer && Get(w, r.startContainer).Text?)
    ensures Root(w, r).Elem?
    ensures StartBelow(w, r) == [] <==> r.startContainer == r.commonAncestorContainer
    ensures EndBelow(w, r) == [] <==> r.endContainer == r.commonAncestorContainer
  {
    RangeShape(w, r);
    assert RootPath(w, r) + [] == RootPath(w, r);
  }

  method FirstStop(w: Node, r: RangeState) returns (first: Option<Id>)
    requires Distinct(w) && ValidRange(w, r) && !r.collapsed
    requires !(r.startContainer == r.endContainer && Get(w, r.startContainer).Text?)
    ensures Root(w, r).Elem? && Stops(w, r) != [] && first == Some(Stops(w, r)[0].id)
  {
    NotSingle(w, r);
    StopIndex(w, r);
    RangeShape(w, r);
    if r.startContainer == r.commonAncestorContainer && !Get(w, r.startContainer).Text? {
      first := Some(ChildNodes(w, r.startContainer)[r.startOffset].id);
    } else {
      ChildIndex(w, RootPath(w, r), RootPath(w, r) + StartBelow(w, r));
      first := GetClosestAncestorIn(w, r.startContainer, r.commonAncestorContainer, true);
    }
  }

  method LastStop(w: Node, r: RangeState) returns (last: Option<Id>)
    requires Distinct(w) && ValidRange(w, r) && !r.collapsed
    requires !(r.startContainer == r.endContainer && Get(w, r.startContainer).Text?)
    ensures Stops(w, r) != [] && last == Some(Stops(w, r)[|Stops(w, r)| - 1].id)
  {
    NotSingle(w, r);
    StopIndex(w, r);
    RangeShape(w, r);
    if r.endContainer == r.commonAncestorContainer && !Get(w, r.endContainer).Text? {
      last := Some(ChildNodes(w, r.endContainer)[r.endOffset - 1].id);
    } else {
      ChildIndex(w, RootPath(w, r), RootPath(w, r) + EndBelow(w, r));
      last := GetClosestAncestorIn(w, r.endContainer, r.commonAncestorContainer, true);
    }
  }

  class RangeIterator {
    const range: RangeState
    const cloneText: bool
    var first: Option<Id>
    var last: Option<Id>
    var current: Option<Id>
    var next: Option<Id>
    var single: bool

    constructor (w: Node, range: RangeState, cloneText: bool)
      requires Distinct(w) && ValidRange(w, range)
      ensures this.range == range && this.cloneText == cloneText
      ensures Ready(w)
    {
      this.range := range;
      this.cloneText := cloneText;
      first, last, current, next, single := None, None, None, None, false;
      new;
      if !range.collapsed {
        var sc := range.startContainer;
        if sc == range.endContainer && Get(w, sc).Text? {
          SingleText(w, range);
          single := true;
          first, last, next := Some(sc), Some(sc), Some(sc);
        } else {
          first := FirstStop(w, range);
          last := LastStop(w, range);
          next := first;
        }
      }
    }

    /** Set to walk over all stops of the range. */
    ghost predicate Ready(w: Node)
      reads this
    {
      && Distinct(w) && ValidRange(w, range)
      && current == None && next == first && single == (!range.collapsed && Root(w, range).Text?)
      && first == (if Stops(w, range) == [] then None else Some(Stops(w, range)[0].id))
      && last == (if Stops(w, range) == [] then None else Some(Stops(w, range)[|Stops(w, range)| - 1].id))
    }

    method Reset()
      modifies this`current, this`next
      ensures current == None && next == first
    {
      current := None;
      next := first;
    }

    /** Moves on; when cloning, a boundary text node is presented as a shortened copy. */
    method Next(w: Node) returns (r: Option<Node>)
      requires next.Some? ==> IsNode(w, next.value)
      modifies this`current, this`next
      ensures current == old(next)
      ensures next == if current.None? || current == last then None else NextSibling(w, current.value)
      ensures current.None? ==> r == None
      ensures current.Some? ==> r == Some(Presented(Get(w, current.value), range, cloneText))
    {
      current := next;
      r := None;
      if current.Some? {
        next := if current != last then NextSibling(w, current.value) else None;
        var node := Get(w, current.value);
        if node.Text? && cloneText {
          if current == Some(range.endContainer) && range.endOffset <= |node.data| {
            node := node.(data := node.data[..range.endOffset]);
          }
          if current == Some(range.startContainer) && range.startOffset <= |node.data| {
            node := node.(data := node.data[range.startOffset..]);
          }
        }
        r := Some(node);
      }
    }

    method IsPartiallySelectedSubtree(w: Node) returns (b: bool)
      requires Distinct(w) && current.Some? && IsNode(w, current.value)
      requires IsNode(w, range.startContainer) && IsNode(w, range.endContainer)
      ensures b <==> Get(w, current.value).Elem?
                     && (Holds(w, current.value, range.startContainer) || Holds(w, current.value, range.endContainer))
    {
      b := false;
      if Get(w, current.value).Elem? {
        b := IsAncestorOf(w, current.value, range.startContainer, true);
        if !b {
          b := IsAncestorOf(w, current.value, range.endContainer, true);
        }
      }
    }

    /** The iterator over the part of the current node that is in the range.  A single text node is never
        partially selected, so the branch for it is dead. */
    method GetSubtreeIterator(w: Node) returns (sub: RangeIterator)
      requires Distinct(w) && current.Some? && IsNode(w, current.value) && Get(w, current.value).Elem? && !single
      requires IsNode(w, range.startContainer) && IsNode(w, range.endContainer)
      requires !(Holds(w, current.value, range.startContainer) && Holds(w, current.value, range.endContainer))
      requires Holds(w, current.value, range.startContainer) ==> range.startOffset <= Len(Get(w, range.startContainer))
      requires Holds(w, current.value, range.endContainer) ==> range.endOffset <= Len(Get(w, range.endContainer))
      ensures fresh(sub) && sub.Ready(w) && sub.cloneText == cloneText
      ensures SubRange(w, range, current.value, sub.range)
    {
      if single {
        assert false;
      }
      var n := current.value;
      var sc, so, ec, eo := n, 0, n, Len(Get(w, n));
      var startInside := IsAncestorOf(w, n, range.startContainer, true);
      if startInside {
        sc, so := range.startContainer, range.startOffset;
      }
      var endInside := IsAncestorOf(w, n, range.endContainer, true);
      if endInside {
        ec, eo := range.endContainer, range.endOffset;
      }
      SubOrder(w, n, sc, so, ec, eo);
      var subRange := UpdateBoundaries(w, sc, so, ec, eo);
      sub := new RangeIterator(w, subRange, cloneText);
    }
  }

  /** The range restricted to one node: its boundaries where they lie in the node, else the node's ends. */
  predicate SubRange(w: Node, r: RangeState, n: Id, s: RangeState)
    requires IsNode(w, n) && IsNode(w, r.startContainer) && IsNode(w, r.endContainer)
  {
    && ValidRange(w, s)
    && s.startContainer == (if Holds(w, n, r.startContainer) then r.startContainer else n)
    && s.startOffset == (if Holds(w, n, r.startContainer) then r.startOffset else 0)
    && s.endContainer == (if Holds(w, n, r.endContainer) then r.endContainer else n)
    && s.endOffset == (if Holds(w, n, r.endContainer) then r.endOffset else Len(Get(w, n)))
  }

  lemma SubOrder(w: Node, n: Id, sc: Id, so: nat, ec: Id, eo: nat)
    requires Distinct(w) && IsNode(w, n) && Get(w, n).Elem? && IsPoint(w, sc, so) && IsPoint(w, ec, eo)
    requires Holds(w, n, sc) && Holds(w, n, ec)
    requires (sc == n && so == 0) || (ec == n && eo == Len(Get(w, n)))
    ensures SameTree(w, sc, ec) && Order(w, sc, so, ec, eo) <= 0
  {
    var c, s, e := Where(w, n), Where(w, sc), Where(w, ec);
    SplitCodes(c, s, so, e, eo);
    AtPrefix(w, s, |c|);
    AtPrefix(w, e, |c|);
    assert s[..|c|] == c && e[..|c|] == c;
  }

  /** A range restricted to an element that holds one of its boundaries hangs below that element. */
  lemma SubShape(w: Node, r: RangeState, id: Id, s: RangeState)
    requires Distinct(w) && IsNode(w, id) && Get(w, id).Elem? && IsNode(w, r.startContainer)
    requires IsNode(w, r.endContainer)
    requires Holds(w, id, r.startContainer) != Holds(w, id, r.endContainer) && SubRange(w, r, id, s)
    ensures Root(w, s) == Get(w, id) && RootPath(w, s) == Where(w, id)
    ensures Holds(w, id, r.startContainer) ==>
        StartBelow(w, s) == Inside(w, id, r.startContainer) && EndBelow(w, s) == []
    ensures Holds(w, id, r.endContainer) ==> EndBelow(w, s) == Inside(w, id, r.endContainer) && StartBelow(w, s) == []
  {
    var c := Where(w, id);
    PrefixCommon(c, Where(w, s.startContainer), Where(w, s.endContainer));
    assert RootPath(w, s) == c;
    RangeShape(w, s);
  }

  /** The content of the restricted range is what the node's part in the range has inside. */
  lemma SubContent(w: Node, r: RangeState, id: Id, s: RangeState, x: Node)
    requires Distinct(w) && IsNode(w, id) && Get(w, id).Elem? && IsNode(w, r.startContainer)
    requires IsNode(w, r.endContainer)
    requires Holds(w, id, r.startContainer) || Holds(w, id, r.endContainer)
    requires Covered(w, r, Get(w, id), x) && SubRange(w, r, id, s)
    ensures x.Elem? && x.tag == Get(w, id).tag && Content(w, s) == x.kids && Root(w, s) == Get(w, id)
  {
    var n := Get(w, id);
    SubShape(w, r, id, s);
    RangeShape(w, s);
    if s.collapsed {
      assert StartBelow(w, s) == [] && EndBelow(w, s) == [];
    } else if Holds(w, id, r.startContainer) {
      MidToEnd(n, StartBelow(w, s), s.startOffset);
    } else {
      MidFromStart(n, EndBelow(w, s), s.endOffset);
    }
  }

  lemma MidToEnd(n: Node, p: Path, so: nat)
    requires n.Elem? && ValidPoint(n, p, so)
    ensures Spans(n, p, so, [], |n.kids|) && MidKids(n, p, so, [], |n.kids|) == Tail(n, p, so).kids
  {
  }

  lemma MidFromStart(n: Node, q: Path, eo: nat)
    requires n.Elem? && ValidPoint(n, q, eo)
    ensures Spans(n, [], 0, q, eo) && MidKids(n, [], 0, q, eo) == Head(n, q, eo).kids
  {
  }

  // ----- stepping through the stops -----

  /** The iterator will next arrive at stop k. */
  ghost predicate Heading(it: RangeIterator, stops: seq<Node>, k: nat)
    reads it
  {
    && it.next == (if k < |stops| then Some(stops[k].id) else None)
    && it.last == (if stops == [] then None else Some(stops[|stops| - 1].id))
  }

  /** The iterator is at stop k, or past the last one. */
  ghost predicate Arrived(it: RangeIterator, stops: seq<Node>, k: nat, node: Option<Node>)
    reads it
  {
    && Heading(it, stops, k + 1) && (node.Some? <==> k < |stops|)
    && (k < |stops| ==> it.current == Some(stops[k].id) && node == Some(Presented(stops[k], it.range, it.cloneText)))
  }

  /** Stop k stands in the world as it did, with stop k+1 behind it. */
  predicate Standing(w: Node, stops: seq<Node>, k: nat) {
    k < |stops| ==>
      && IsNode(w, stops[k].id) && Get(w, stops[k].id) == stops[k]
      && (k + 1 < |stops| ==> NextSibling(w, stops[k].id) == Some(stops[k + 1].id)
                              && stops[k].id != stops[|stops| - 1].id)
  }

  lemma Steady(w: Node, r: RangeState, k: nat)
    requires Distinct(w) && ValidRange(w, r) && k < |Stops(w, r)|
    ensures Standing(w, Stops(w, r), k)
  {
    StopAt(w, r, k);
    if k + 1 < |Stops(w, r)| {
      NextStop(w, r, k);
    }
  }

  method Arrive(w: Node, it: RangeIterator, ghost stops: seq<Node>, ghost k: nat) returns (node: Option<Node>)
    requires Heading(it, stops, k) && Standing(w, stops, k)
    modifies it`current, it`next
    ensures Arrived(it, stops, k, node)
  {
    node := it.Next(w);
  }

  // ----- nested iteration -----

  /** The visits to a forest cut out of the world: as it is, or node by node as they stand in the world. */
  function SeenAs(w: Node, ks: seq<Node>, cloneText: bool): seq<Seen> {
    if cloneText then Seens(ks) else Live(w, Pre(ks))
  }

  lemma SeenAsConcat(w: Node, a: seq<Node>, b: seq<Node>, cloneText: bool)
    ensures SeenAs(w, a + b, cloneText) == SeenAs(w, a, cloneText) + SeenAs(w, b, cloneText)
  {
    hide Seens, Live, Pre;
    SeensConcat(a, b);
    PreConcat(a, b);
    LiveConcat(w, Pre(a), Pre(b));
  }

  lemma SeenAsNone(w: Node, cloneText: bool)
    ensures SeenAs(w, [], cloneText) == []
  {
  }

  lemma SeenAsElem(w: Node, n: Node, x: Node, cloneText: bool)
    requires IsNode(w, n.id) && Get(w, n.id) == n && n.Elem? && x.Elem? && x.id == n.id
    ensures SeenAs(w, [x], cloneText) == [See(n)] + SeenAs(w, x.kids, cloneText)
  {
    SeensElem(x);
    PreElem(x);
    assert Live(w, [n.id]) == [See(n)];
    LiveConcat(w, [n.id], Pre(x.kids));
  }

  /** Visits, in document order, every node the range covers. */
  method IterateSubtree(w: Node, it: RangeIterator) returns (visited: seq<Seen>)
    requires it.Ready(w)
    modifies it`current, it`next
    ensures visited == SeenAs(w, Content(w, it.range), it.cloneText)
    decreases Root(w, it.range), 2
  {
    ContentLength(w, it.range);
    assert it.single ==> Root(w, it.range).Text?;
    visited := IterateStops(w, it, Stops(w, it.range), Content(w, it.range));
  }

  method IterateStops(w: Node, it: RangeIterator, ghost stops: seq<Node>, ghost content: seq<Node>)
    returns (visited: seq<Seen>)
    requires Distinct(w) && ValidRange(w, it.range)
    requires stops == Stops(w, it.range) && content == Content(w, it.range) && |content| == |stops|
    requires Heading(it, stops, 0)
    requires it.single ==> Root(w, it.range).Text?
    modifies it`current, it`next
    ensures visited == SeenAs(w, content, it.cloneText)
    decreases Root(w, it.range), 1
  {
    visited := [];
    hide SeenAs, ValidRange, Distinct, Standing, Presented, Stops, Content, Root;
    SeenAsNone(w, it.cloneText);
    assert content[..0] == [];
    ghost var k := 0;
    if stops != [] {
      Steady(w, it.range, 0);
    }
    var node := Arrive(w, it, stops, 0);
    while node.Some?
      invariant 0 <= k <= |stops|
      invariant visited == SeenAs(w, content[..k], it.cloneText)
      invariant Arrived(it, stops, k, node)
      decreases |stops| - k
    {
      var seen := VisitStop(w, it, node.value, k, stops[k], content[k]);
      SeenAsConcat(w, content[..k], [content[k]], it.cloneText);
      assert content[..k + 1] == content[..k] + [content[k]];
      visited := visited + seen;
      k := k + 1;
      if k < |stops| {
        Steady(w, it.range, k);
      }
      node := Arrive(w, it, stops, k);
    }
    assert content[..k] == content;
  }

  /** One turn of the loop: the node, and what is below it in the range. */
  method VisitStop(w: Node, it: RangeIterator, node: Node, ghost k: nat, ghost n: Node, ghost x: Node)
    returns (seen: seq<Seen>)
    requires Distinct(w) && ValidRange(w, it.range) && k < |Stops(w, it.range)| == |Content(w, it.range)|
    requires n == Stops(w, it.range)[k] && x == Content(w, it.range)[k]
    requires it.current == Some(n.id) && (it.single ==> Root(w, it.range).Text?)
    requires node == Presented(n, it.range, it.cloneText)
    ensures seen == SeenAs(w, [x], it.cloneText)
    decreases Root(w, it.range), 0
  {
    ghost var r := it.range;
    StopAt(w, r, k);
    ContentAt(w, r, k);
    var partial := it.IsPartiallySelectedSubtree(w);
    if partial {
      PartialStop(w, r, k);
      var sub := it.GetSubtreeIterator(w);
      SubContent(w, r, n.id, sub.range, x);
      SeenAsElem(w, n, x, it.cloneText);
      seen := IterateSubtree(w, sub);
      seen := [See(node)] + seen;
    } else if node.Text? {
      // A text node, live or a copy, has nothing below it.
      seen := [See(node)];
      SeenAsText(w, n, x, it.cloneText);
    } else {
      seen := IterateNode(w, node.id);
      SeensLiveAt(w, StopPath(w, r, k));
    }
  }

  lemma PartialStop(w: Node, r: RangeState, k: nat)
    requires Distinct(w) && ValidRange(w, r) && k < |Stops(w, r)| && Stops(w, r)[k].Elem?
    requires IsNode(w, Stops(w, r)[k].id)
    requires Holds(w, Stops(w, r)[k].id, r.startContainer) || Holds(w, Stops(w, r)[k].id, r.endContainer)
    ensures Root(w, r).Elem? && Stops(w, r)[k] in Root(w, r).kids
    ensures !(Holds(w, Stops(w, r)[k].id, r.startContainer) && Holds(w, Stops(w, r)[k].id, r.endContainer))
  {
    ContentAt(w, r, k);
    RangeShape(w, r);
    assert Root(w, r).kids[Lo(w, r) + k] == Stops(w, r)[k];
  }

  lemma SeenAsText(w: Node, n: Node, x: Node, cloneText: bool)
    requires IsNode(w, n.id) && Get(w, n.id) == n && n.Text? && x.Text? && x.id == n.id
    ensures SeenAs(w, [x], cloneText) == [See(if cloneText then x else n)]
  {
    SeensLeaf(x);
    assert Pre([x]) == [x.id] by { assert [x][1..] == []; }
  }
}

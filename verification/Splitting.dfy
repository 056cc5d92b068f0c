/** Splitting nodes in place: splitDataNode and what it does to points elsewhere, splitNodeAt, splitBoundaries. */
module Splitting {
  import opened Wrappers
  import opened Tree
  import opened Positions
  import opened Navigation
  import opened Slices
  import opened Ranges
  import opened Documents

  // ----- splitting one text node -----

  /** The tree with the text node at path `t` cut in two at offset `i`. */
  function SplitText(n: Node, t: Path, i: nat, newId: Id): Node
    requires t != [] && HasPath(n, t) && At(n, t).Text? && i <= Len(At(n, t))
  {
    AtPrefix(n, t, |t| - 1);
    var x := At(n, t);
    Put(n, Front(t), Splice(At(n, Front(t)), Last(t), [Text(x.id, x.data[..i]), Text(newId, x.data[i..])]))
  }

  /** Where a point goes when the text node at path `t` is cut at offset `i`. */
  function Moved(t: Path, i: nat, p: Path, off: nat): (Path, nat)
    requires t != []
  {
    if |t| == 1 then
      if p == [] then ([], if off > t[0] then off + 1 else off)
      else if p[0] > t[0] then ([p[0] + 1] + p[1..], off)
      else if p == t && off > i then ([t[0] + 1], off - i)
      else (p, off)
    else if p == [] || p[0] != t[0] then (p, off)
    else
      var (q, o) := Moved(t[1..], i, p[1..], off);
      ([p[0]] + q, o)
  }

  /** A point of `n` and its place in `m`: the same text before it, and two tags more if it lies behind
      position `cut`. */
  predicate MovesTo(n: Node, p: Path, off: nat, m: Node, q: Path, o: nat, cut: nat) {
    && ValidPoint(n, p, off) && ValidPoint(m, q, o) && TextOff(m, q, o) == TextOff(n, p, off)
    && Pos(m, q, o) == Pos(n, p, off) + (if Pos(n, p, off) > cut then 2 else 0)
  }

  lemma SplitTextKid(n: Node, t: Path, i: nat, newId: Id)
    requires |t| > 1 && HasPath(n, t) && At(n, t).Text? && i <= Len(At(n, t))
    ensures SplitText(n, t, i, newId) == n.(kids := n.kids[t[0] := SplitText(n.kids[t[0]], t[1..], i, newId)])
  {
    AtPrefix(n, t, |t| - 1);
    AtPrefix(n.kids[t[0]], t[1..], |t| - 2);
    assert Front(t)[1..] == Front(t[1..]);
  }

  /** Points keep the text before them; those behind the cut get two tags more in front of them. */
  lemma {:induction false} SplitMoves(n: Node, t: Path, i: nat, newId: Id, p: Path, off: nat)
    requires t != [] && HasPath(n, t) && At(n, t).Text? && i <= Len(At(n, t)) && ValidPoint(n, p, off)
    ensures ValidPoint(n, t, i)
    ensures var m, (q, o) := SplitText(n, t, i, newId), Moved(t, i, p, off);
      MovesTo(n, p, off, m, q, o, Pos(n, t, i))
      && At(m, q).id == (if p == t && off > i then newId else At(n, p).id)
      && Width([m]) == Width([n]) + 2 && Flat([m]) == Flat([n])
  {
    hide Flat, Width, SplitText;
    if |t| == 1 {
      SplitMovesHere(n, t, i, newId, p, off);
    } else {
      SplitTextKid(n, t, i, newId);
      var k, l := n.kids[t[0]], SplitText(n.kids[t[0]], t[1..], i, newId);
      if p != [] && p[0] == t[0] {
        SplitMoves(k, t[1..], i, newId, p[1..], off);
        assert p == t <==> p[1..] == t[1..] by { assert p == [p[0]] + p[1..] && t == [t[0]] + t[1..]; }
      } else {
        SplitMoves(k, t[1..], i, newId, [], 0);
        assert p != t;
      }
      SwapSame(n, t[0], l);
      SplitMovesBeside(n, t, i, l, p, off);
    }
  }

  /** Exchanging a child for one of equal text. */
  lemma SwapSame(n: Node, i: nat, l: Node)
    requires n.Elem? && i < |n.kids| && Flat([l]) == Flat([n.kids[i]]) && Width([l]) == Width([n.kids[i]]) + 2
    ensures var m := n.(kids := n.kids[i := l]); Flat([m]) == Flat([n]) && Width([m]) == Width([n]) + 2
    ensures forall j :: 0 <= j <= |n.kids| ==>
      Flat(n.kids[i := l][..j]) == Flat(n.kids[..j])
        && Width(n.kids[i := l][..j]) == Width(n.kids[..j]) + (if j > i then 2 else 0)
  {
    var ls := n.kids[i := l];
    forall j | 0 <= j <= |n.kids|
      ensures Flat(ls[..j]) == Flat(n.kids[..j]) && Width(ls[..j]) == Width(n.kids[..j]) + (if j > i then 2 else 0)
    {
      if j <= i {
        assert ls[..j] == n.kids[..j];
      } else {
        hide Flat, Width;
        assert ls[..j][..i] == n.kids[..j][..i] && ls[..j][i + 1..] == n.kids[..j][i + 1..];
        FlatSplit(ls[..j], i);
        FlatSplit(n.kids[..j], i);
        WidthSplit(ls[..j], i);
        WidthSplit(n.kids[..j], i);
      }
    }
    assert ls[..|ls|] == ls && n.kids[..|ls|] == n.kids;
    FlatElem(n);
    FlatElem(n.(kids := ls));
    WidthElem(n);
    WidthElem(n.(kids := ls));
  }

  /** The points of the container and of its other children when one child has been split deeper down. */
  lemma SplitMovesBeside(n: Node, t: Path, i: nat, l: Node, p: Path, off: nat)
    requires |t| > 1 && HasPath(n, t) && ValidPoint(n, t, i) && ValidPoint(n, p, off)
    requires forall j :: 0 <= j <= |n.kids| ==>
      Flat(n.kids[t[0] := l][..j]) == Flat(n.kids[..j])
        && Width(n.kids[t[0] := l][..j]) == Width(n.kids[..j]) + (if j > t[0] then 2 else 0)
    requires p != [] && p[0] == t[0] ==> var k, (q, o) := n.kids[t[0]], Moved(t[1..], i, p[1..], off);
      MovesTo(k, p[1..], off, l, q, o, Pos(k, t[1..], i))
    ensures var m, (q, o) := n.(kids := n.kids[t[0] := l]), Moved(t, i, p, off);
      MovesTo(n, p, off, m, q, o, Pos(n, t, i))
  {
    hide Flat, Width;
    PosInside(n.kids[t[0]], t[1..], i);
    if p == [] {
      OffsetPath(n, off, t, i);
    } else if p[0] != t[0] {
      PathPath(n, p, off, t, i);
      PathPath(n, t, i, p, off);
    }
  }

  lemma SplitMovesHere(n: Node, t: Path, i: nat, newId: Id, p: Path, off: nat)
    requires |t| == 1 && HasPath(n, t) && At(n, t).Text? && i <= Len(At(n, t)) && ValidPoint(n, p, off)
    ensures ValidPoint(n, t, i)
    ensures var m, (q, o) := SplitText(n, t, i, newId), Moved(t, i, p, off);
      MovesTo(n, p, off, m, q, o, Pos(n, t, i))
      && At(m, q).id == (if p == t && off > i then newId else At(n, p).id)
      && Width([m]) == Width([n]) + 2 && Flat([m]) == Flat([n])
  {
    hide Flat, Width, Pos, TextOff, MovesTo, SplitText;
    SplitTextHere(n, t, i, newId);
    var j, x := t[0], n.kids[t[0]];
    var x1, x2 := Text(x.id, x.data[..i]), Text(newId, x.data[i..]);
    if p == [] {
      MovesContainer(n, j, x1, x2, i, off);
    } else if p[0] != j {
      MovesSibling(n, j, x1, x2, i, p, off);
    } else {
      OnlyKid(n, p);
      MovesInside(n, j, x1, x2, i, off);
    }
  }

  lemma OnlyKid(n: Node, p: Path)
    requires p != [] && HasPath(n, p) && n.kids[p[0]].Text?
    ensures p == [p[0]]
  {
    assert p == [p[0]] + p[1..];
  }

  /** Splitting a child that is a text node. */
  lemma SplitTextHere(n: Node, t: Path, i: nat, newId: Id)
    requires |t| == 1 && HasPath(n, t) && At(n, t).Text? && i <= Len(At(n, t))
    ensures n.Elem? && t == [t[0]] && t[0] < |n.kids| && n.kids[t[0]].Text? && i <= Len(n.kids[t[0]])
    ensures ValidPoint(n, t, i)
    ensures var x := n.kids[t[0]]; var x1, x2 := Text(x.id, x.data[..i]), Text(newId, x.data[i..]);
      && SplitText(n, t, i, newId) == Paired(n, t[0], x1, x2)
      && Flat([x1, x2]) == Flat([x]) && Width([x1, x2]) == Width([x]) + 2
    ensures Width([SplitText(n, t, i, newId)]) == Width([n]) + 2 && Flat([SplitText(n, t, i, newId)]) == Flat([n])
  {
    hide Flat, Width, Pos, TextOff;
    var j, x := t[0], n.kids[t[0]];
    assert t == [j] && Front(t) == [] && t[1..] == [];
    TextPair(x, Text(x.id, x.data[..i]), Text(newId, x.data[i..]), i);
    PairWhole(n, j, Text(x.id, x.data[..i]), Text(newId, x.data[i..]));
  }

  function Paired(n: Node, j: nat, x1: Node, x2: Node): Node
    requires n.Elem? && j < |n.kids|
  {
    n.(kids := n.kids[..j] + [x1, x2] + n.kids[j + 1..])
  }

  lemma PairWhole(n: Node, j: nat, x1: Node, x2: Node)
    requires n.Elem? && j < |n.kids|
    requires Flat([x1, x2]) == Flat([n.kids[j]]) && Width([x1, x2]) == Width([n.kids[j]]) + 2
    ensures Flat([Paired(n, j, x1, x2)]) == Flat([n]) && Width([Paired(n, j, x1, x2)]) == Width([n]) + 2
  {
    hide Flat, Width;
    var m := Paired(n, j, x1, x2);
    PairInside(n.kids, j, x1, x2, |n.kids|);
    assert m.kids[..|m.kids|] == m.kids && n.kids[..|n.kids|] == n.kids;
    FlatElem(n);
    FlatElem(m);
    WidthElem(n);
    WidthElem(m);
  }

  lemma MovesContainer(n: Node, j: nat, x1: Node, x2: Node, i: nat, off: nat)
    requires n.Elem? && j < |n.kids| && off <= |n.kids| && ValidPoint(n, [j], i)
    requires Flat([x1, x2]) == Flat([n.kids[j]]) && Width([x1, x2]) == Width([n.kids[j]]) + 2
    ensures var m, o := Paired(n, j, x1, x2), if off > j then off + 1 else off;
      MovesTo(n, [], off, m, [], o, Pos(n, [j], i))
  {
    hide Flat, Width;
    OffsetPath(n, off, [j], i);
    PairInside(n.kids, j, x1, x2, off);
  }

  lemma MovesSibling(n: Node, j: nat, x1: Node, x2: Node, i: nat, p: Path, off: nat)
    requires n.Elem? && j < |n.kids| && ValidPoint(n, p, off) && p != [] && p[0] != j && ValidPoint(n, [j], i)
    requires Flat([x1, x2]) == Flat([n.kids[j]]) && Width([x1, x2]) == Width([n.kids[j]]) + 2
    ensures var m, q := Paired(n, j, x1, x2), if p[0] > j then [p[0] + 1] + p[1..] else p;
      MovesTo(n, p, off, m, q, off, Pos(n, [j], i))
      && At(m, q).id == At(n, p).id
  {
    hide Flat, Width;
    var m, q := Paired(n, j, x1, x2), if p[0] > j then [p[0] + 1] + p[1..] else p;
    PathPath(n, p, off, [j], i);
    PathPath(n, [j], i, p, off);
    PairInside(n.kids, j, x1, x2, p[0]);
    assert m.kids[q[0]] == n.kids[p[0]] && q[1..] == p[1..];
  }

  lemma MovesInside(n: Node, j: nat, x1: Node, x2: Node, i: nat, off: nat)
    requires n.Elem? && j < |n.kids| && n.kids[j].Text? && i <= Len(n.kids[j]) && off <= Len(n.kids[j])
    requires x1.Text? && x2.Text? && Len(x1) == i && i + Len(x2) == Len(n.kids[j])
    ensures var m, q, o := Paired(n, j, x1, x2), if off > i then [j + 1] else [j], if off > i then off - i else off;
      ValidPoint(n, [j], i) && MovesTo(n, [j], off, m, q, o, Pos(n, [j], i))
      && At(m, q) == if off > i then x2 else x1
  {
    hide Flat, Width;
    var m := Paired(n, j, x1, x2);
    PosText(n, j, i);
    PosText(n, j, off);
    assert m.kids[..j] == n.kids[..j] && m.kids[j] == x1 && m.kids[j + 1] == x2;
    assert [j][1..] == [] && [j + 1][1..] == [];
    if off > i {
      PosText(m, j + 1, off - i);
      WidthStep(m.kids, j);
      Singleton(x1);
    } else {
      PosText(m, j, off);
    }
  }

  lemma TextPair(x: Node, x1: Node, x2: Node, i: nat)
    requires x.Text? && i <= |x.data| && x1.Text? && x2.Text? && x1.data == x.data[..i] && x2.data == x.data[i..]
    ensures Flat([x1, x2]) == Flat([x]) == x.data && Width([x1, x2]) == Width([x]) + 2
    ensures Flat([x1]) == x.data[..i] && Width([x1]) == 2 + i
  {
    assert [x1, x2] == [x1] + [x2];
    FlatConcat([x1], [x2]);
    WidthConcat([x1], [x2]);
    Singleton(x);
    Singleton(x1);
    Singleton(x2);
    assert x.data == x.data[..i] + x.data[i..];
  }

  lemma Singleton(x: Node)
    requires x.Text?
    ensures Flat([x]) == x.data && Width([x]) == 2 + |x.data|
  {
    assert [x][1..] == [];
  }

  lemma PosText(n: Node, j: nat, i: nat)
    requires n.Elem? && j < |n.kids| && n.kids[j].Text? && i <= Len(n.kids[j])
    ensures ValidPoint(n, [j], i)
    ensures Pos(n, [j], i) == 2 + Width(n.kids[..j]) + i && TextOff(n, [j], i) == |Flat(n.kids[..j])| + i
  {
    assert [j][1..] == [];
  }

  /** The children up to a point when one of them has become a pair. */
  lemma PairInside(ks: seq<Node>, j: nat, x1: Node, x2: Node, a: nat)
    requires j < |ks| && a <= |ks|
    requires Flat([x1, x2]) == Flat([ks[j]]) && Width([x1, x2]) == Width([ks[j]]) + 2
    ensures var ls := ks[..j] + [x1, x2] + ks[j + 1..];
      |ls| == |ks| + 1
      && (a <= j ==> ls[..a] == ks[..a])
      && (a > j ==> Flat(ls[..a + 1]) == Flat(ks[..a]) && Width(ls[..a + 1]) == Width(ks[..a]) + 2)
  {
    hide Flat, Width;
    var ls := ks[..j] + [x1, x2] + ks[j + 1..];
    if a > j {
      assert ls[..a + 1] == ks[..j] + [x1, x2] + ks[j + 1..a];
      assert ks[..a] == ks[..j] + [ks[j]] + ks[j + 1..a];
      FlatConcat(ks[..j] + [x1, x2], ks[j + 1..a]);
      FlatConcat(ks[..j], [x1, x2]);
      FlatConcat(ks[..j] + [ks[j]], ks[j + 1..a]);
      FlatConcat(ks[..j], [ks[j]]);
      WidthConcat(ks[..j] + [x1, x2], ks[j + 1..a]);
      WidthConcat(ks[..j], [x1, x2]);
      WidthConcat(ks[..j] + [ks[j]], ks[j + 1..a]);
      WidthConcat(ks[..j], [ks[j]]);
    } else {
      assert ls[..a] == ks[..a];
    }
  }

  // ----- the same, by node -----

  lemma {:induction false} MovedShape(t: Path, i: nat, p: Path, off: nat)
    requires t != []
    ensures |Moved(t, i, p, off).0| == |p|
    ensures |t| > 1 && p != [] ==> Moved(t, i, p, off).0[0] == p[0]
    ensures Moved(t, i, p, off).1 ==
      if p == Front(t) && off > Last(t) then off + 1 else if p == t && off > i then off - i else off
  {
    if |t| > 1 && p != [] && p[0] == t[0] {
      MovedShape(t[1..], i, p[1..], off);
      assert p == [p[0]] + p[1..] && t == [t[0]] + t[1..] && Front(t) == [t[0]] + Front(t[1..]);
      assert p == t <==> p[1..] == t[1..];
      assert p == Front(t) <==> p[1..] == Front(t[1..]);
    } else if |t| > 1 {
      assert Front(t)[0] == t[0];
    }
  }

  /** A text node that can be split: it has a parent. */
  predicate Splittable(w: Node, node: Id, i: nat) {
    IsNode(w, node) && Get(w, node).Text? && i <= Len(Get(w, node)) && ParentNode(w, node).Some?
  }

  function SplitWorld(w: Node, node: Id, i: nat, newId: Id): Node
    requires Splittable(w, node, i)
  {
    SplitText(w, Where(w, node), i, newId)
  }

  /** splitDataNode: the new node takes the text from the index on and stands right behind the old one. */
  method SplitDataNode(d: Document, node: Id, index: nat) returns (newNode: Id)
    requires d.Valid() && Splittable(d.world, node, index)
    modifies d
    ensures d.Valid() && newNode == old(d.nextId) && d.nextId == newNode + 1
    ensures d.world == SplitWorld(old(d.world), node, index, newNode)
  {
    ghost var w := d.world;
    var data := Get(d.world, node).data;
    newNode := d.FreshId();
    var copy := Text(newNode, data[index..]);
    d.SetData(node, data[..index]);
    SetThenInsert(w, Where(w, node), Text(node, data[..index]), copy);
    ghost var v := d.world;
    assert [copy][1..] == [];
    forall x: Id | Count([copy], x) == 1 ensures Count([d.world], x) == 0 {
      CountPut(w, Where(w, node), Text(node, data[..index]), x);
      assert [Get(w, node)][1..] == [] && [Text(node, data[..index])][1..] == [];
    }
    d.InsertAfter([copy], node);
    assert [Get(v, node)] + [copy] == [Get(v, node), copy];
  }

  lemma SetThenInsert(w: Node, t: Path, x1: Node, x2: Node)
    requires Distinct(w) && HasPath(w, t) && t != [] && x1.id == At(w, t).id && Distinct(Put(w, t, x1))
    ensures var v := Put(w, t, x1);
      IsNode(v, x1.id) && Where(v, x1.id) == t && Get(v, x1.id) == x1
      && HasPath(w, Front(t)) && At(w, Front(t)).Elem? && Last(t) < |At(w, Front(t)).kids|
      && Replaced(v, x1.id, [x1, x2]) == Put(w, Front(t), Splice(At(w, Front(t)), Last(t), [x1, x2]))
  {
    var v, f, j := Put(w, t, x1), Front(t), Last(t);
    assert t == f + [j];
    AtPrefix(w, t, |f|);
    AtPut(w, t, x1);
    WhereAt(v, t);
    var n := At(w, f);
    PutAppend(w, f, [j], x1);
    AtPut(w, f, Put(n, [j], x1));
    PutPut(w, f, Put(n, [j], x1), Splice(n, j, [x1, x2]));
    assert Put(n, [j], x1) == n.(kids := n.kids[j := x1]);
    assert Splice(Put(n, [j], x1), j, [x1, x2]) == Splice(n, j, [x1, x2]);
  }

  /** The offset of a point of another node after a split: children behind the cut have moved up. */
  function OffsetAfter(w: Node, node: Id, x: Id, off: nat): nat
    requires IsNode(w, node)
  {
    if ParentNode(w, node) == Some(x) && off > Index(w, node) then off + 1 else off
  }

  /** A point, given by node and offset, before and after a split. */
  predicate Carried(w: Node, x: Id, off: nat, v: Node, y: Id, o: nat, cut: nat) {
    && IsPoint(w, x, off) && IsPoint(v, y, o) && TextOffOf(v, y, o) == TextOffOf(w, x, off)
    && PosOf(v, y, o) == PosOf(w, x, off) + (if PosOf(w, x, off) > cut then 2 else 0)
    && Where(v, y)[0] == Where(w, x)[0]
  }

  lemma SplitCarries(w: Node, node: Id, i: nat, newId: Id, x: Id, off: nat)
    requires Distinct(w) && Splittable(w, node, i) && Distinct(SplitWorld(w, node, i, newId)) && IsPoint(w, x, off)
    ensures x == node && off > i ==>
        Carried(w, x, off, SplitWorld(w, node, i, newId), newId, off - i, PosOf(w, node, i))
    ensures !(x == node && off > i) ==>
      Carried(w, x, off, SplitWorld(w, node, i, newId), x, OffsetAfter(w, node, x, off), PosOf(w, node, i))
  {
    var v, t, p := SplitWorld(w, node, i, newId), Where(w, node), Where(w, x);
    SplitMoves(w, t, i, newId, p, off);
    MovedShape(t, i, p, off);
    ParentAt(w, t);
    AtPrefix(w, t, |t| - 1);
    if p == Front(t) {
    } else if ParentNode(w, node) == Some(x) {
      PathUnique(w, p, Front(t));
    }
    var (q, o) := Moved(t, i, p, off);
    WhereAt(v, q);
  }

  /** The two halves. */
  lemma SplitHalves(w: Node, node: Id, i: nat, newId: Id)
    requires Distinct(w) && Splittable(w, node, i) && Distinct(SplitWorld(w, node, i, newId))
    ensures var v := SplitWorld(w, node, i, newId);
      && v.id == w.id && Flat([v]) == Flat([w])
      && IsNode(v, node) && Get(v, node) == Text(node, Get(w, node).data[..i]) && Where(v, node) == Where(w, node)
      && IsNode(v, newId) && Get(v, newId) == Text(newId, Get(w, node).data[i..])
      && Where(v, newId) == Front(Where(w, node)) + [Last(Where(w, node)) + 1]
      && ParentNode(v, newId) == ParentNode(w, node) == ParentNode(v, node) && Index(v, newId) == Index(w, node) + 1
      && PosOf(v, newId, 0) == PosOf(w, node, i) + 2 && TextOffOf(v, newId, 0) == TextOffOf(w, node, i)
  {
    var v, t := SplitWorld(w, node, i, newId), Where(w, node);
    var f, j := Front(t), Last(t);
    var x1, x2 := Text(node, Get(w, node).data[..i]), Text(newId, Get(w, node).data[i..]);
    AtPrefix(w, t, |f|);
    assert t == f + [j];
    SplitMoves(w, t, i, newId, [], 0);
    AtPut(w, f, Splice(At(w, f), j, [x1, x2]));
    var m := At(v, f);
    assert m.kids[j] == x1 && m.kids[j + 1] == x2;
    ParentAt(w, t);
    assert v.id == w.id by { if f == [] { assert false; } }
    WhereAt(v, f);
    KidAt(v, f, j);
    KidAt(v, f, j + 1);
    HalfPositions(w, f, j, i, v, x1, x2);
  }

  lemma HalfPositions(w: Node, f: Path, j: nat, i: nat, v: Node, x1: Node, x2: Node)
    requires HasPath(w, f) && At(w, f).Elem? && j < |At(w, f).kids| && At(w, f).kids[j].Text?
    requires i <= Len(At(w, f).kids[j])
    requires x1.Text? && x2.Text? && Len(x1) == i && v == Put(w, f, Paired(At(w, f), j, x1, x2))
    ensures ValidPoint(w, f + [j], i) && ValidPoint(v, f + [j + 1], 0)
    ensures Pos(v, f + [j + 1], 0) == Pos(w, f + [j], i) + 2 && TextOff(v, f + [j + 1], 0) == TextOff(w, f + [j], i)
  {
    hide Pos, TextOff, Width, Flat, ValidPoint;
    var n, m := At(w, f), Paired(At(w, f), j, x1, x2);
    FlatPut(w, f, m);
    PosPut(w, f, m);
    AtPut(w, f, m);
    assert m.kids[..j] == n.kids[..j] && m.kids[j] == x1 && m.kids[j + 1] == x2;
    PosText(n, j, i);
    PosText(m, j + 1, 0);
    WidthStep(m.kids, j);
    Singleton(x1);
    PointContext(w, f, [j], i);
    PointContext(v, f, [j + 1], 0);
  }

  lemma {:induction false} PosPut(n: Node, c: Path, x: Node)
    requires HasPath(n, c)
    ensures HasPath(Put(n, c, x), c) && ValidPoint(n, c, 0) && Pos(Put(n, c, x), c, 0) == Pos(n, c, 0)
  {
    AtPut(n, c, x);
    if c == [] {
      assert n.Elem? ==> n.kids[..0] == [];
      assert x.Elem? ==> x.kids[..0] == [];
    } else {
      PosPut(n.kids[c[0]], c[1..], x);
      assert Put(n, c, x).kids[..c[0]] == n.kids[..c[0]];
    }
  }
}

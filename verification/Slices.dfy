/** Slices of a tree: what lies before a point, from a point on, between two points, and around them.

    They are defined top-down on the tree.  The range code reaches the same trees with iterators that
    climb parent links and hop between siblings; the lemmas here say what slices mean in terms of the
    text and of the positions of `Positions`. */
module Slices {
  import opened Tree
  import opened Positions

  /** The part of `n` before a point. */
  function Head(n: Node, p: Path, off: nat): (r: Node)
    requires ValidPoint(n, p, off)
    ensures r.Elem? == n.Elem? && r.id == n.id
  {
    if p == [] then (if n.Text? then n.(data := n.data[..off]) else n.(kids := n.kids[..off]))
    else n.(kids := n.kids[..p[0]] + [Head(n.kids[p[0]], p[1..], off)])
  }

  /** The part of `n` from a point on. */
  function Tail(n: Node, p: Path, off: nat): (r: Node)
    requires ValidPoint(n, p, off)
    ensures r.Elem? == n.Elem? && r.id == n.id
  {
    if p == [] then (if n.Text? then n.(data := n.data[off..]) else n.(kids := n.kids[off..]))
    else n.(kids := [Tail(n.kids[p[0]], p[1..], off)] + n.kids[p[0] + 1..])
  }

  // ----- two points whose paths part at n -----

  /** The first child that lies wholly after a start point. */
  function First(p: Path, off: nat): nat {
    if p == [] then off else p[0] + 1
  }

  /** One past the last child that lies wholly before an end point. */
  function Limit(q: Path, off: nat): nat {
    if q == [] then off else q[0]
  }

  /** Two points of an element, the first not after the second, with no common child above them. */
  predicate Spans(n: Node, p: Path, so: nat, q: Path, eo: nat) {
    n.Elem? && ValidPoint(n, p, so) && ValidPoint(n, q, eo) && First(p, so) <= Limit(q, eo)
  }

  /** The remainder of the child that holds the start point, if a child does. */
  function StartPiece(n: Node, p: Path, off: nat): seq<Node>
    requires ValidPoint(n, p, off)
  {
    if p == [] then [] else [Tail(n.kids[p[0]], p[1..], off)]
  }

  function EndPiece(n: Node, q: Path, off: nat): seq<Node>
    requires ValidPoint(n, q, off)
  {
    if q == [] then [] else [Head(n.kids[q[0]], q[1..], off)]
  }

  /** What lies between the two points. */
  function MidKids(n: Node, p: Path, so: nat, q: Path, eo: nat): seq<Node>
    requires Spans(n, p, so, q, eo)
  {
    SpanBounds(n, p, so, q, eo);
    StartPiece(n, p, so) + n.kids[First(p, so)..Limit(q, eo)] + EndPiece(n, q, eo)
  }

  /** The slice child by child. */
  lemma MidKidsAt(n: Node, p: Path, so: nat, q: Path, eo: nat, k: nat)
    requires Spans(n, p, so, q, eo) && Limit(p, so) + k < First(q, eo)
    ensures First(q, eo) <= |n.kids| && |MidKids(n, p, so, q, eo)| == First(q, eo) - Limit(p, so)
    ensures PieceOf(n.kids[Limit(p, so) + k], Limit(p, so) + k, p, so, q, eo, MidKids(n, p, so, q, eo)[k])
  {
    SpanBounds(n, p, so, q, eo);
    assert |StartPiece(n, p, so)| == First(p, so) - Limit(p, so);
    assert |EndPiece(n, q, eo)| == First(q, eo) - Limit(q, eo);
  }

  /** The part of the i-th child that lies between two points that part above it. */
  predicate PieceOf(c: Node, i: nat, p: Path, so: nat, q: Path, eo: nat, x: Node) {
    if p != [] && i == p[0] then
      (q == [] || i != q[0]) && ValidPoint(c, p[1..], so) && x == Tail(c, p[1..], so)
    else if q != [] && i == q[0] then ValidPoint(c, q[1..], eo) && x == Head(c, q[1..], eo)
    else x == c
  }

  /** What is left when the part between the points is taken out. */
  function Cut(n: Node, p: Path, so: nat, q: Path, eo: nat): (r: Node)
    requires Spans(n, p, so, q, eo)
    ensures r.id == n.id && r.Elem?
  {
    n.(kids := Head(n, p, so).kids + Tail(n, q, eo).kids)
  }

  lemma SpanBounds(n: Node, p: Path, so: nat, q: Path, eo: nat)
    requires Spans(n, p, so, q, eo)
    ensures Limit(q, eo) <= |n.kids|
  {
  }

  // ----- slices of the text -----

  lemma SliceConcat<T>(a: seq<T>, b: seq<T>, c: seq<T>, t: nat)
    requires t <= |b|
    ensures (a + b + c)[..|a| + t] == a + b[..t]
    ensures (a + b + c)[|a| + t..] == b[t..] + c
  {
  }

  lemma {:induction false} FlatHalves(n: Node, p: Path, off: nat)
    requires ValidPoint(n, p, off)
    ensures TextOff(n, p, off) <= |Flat([n])|
    ensures Flat([Head(n, p, off)]) == Flat([n])[..TextOff(n, p, off)]
    ensures Flat([Tail(n, p, off)]) == Flat([n])[TextOff(n, p, off)..]
  {
    hide Flat;
    if p == [] {
      HalvesHere(n, off);
    } else {
      var k := n.kids[p[0]];
      FlatHalves(k, p[1..], off);
      FlatStep(n.kids, p[0], Head(k, p[1..], off), Tail(k, p[1..], off), TextOff(k, p[1..], off));
      FlatElem(n);
      FlatElem(Head(n, p, off));
      FlatElem(Tail(n, p, off));
    }
  }

  lemma HalvesHere(n: Node, off: nat)
    requires off <= Len(n)
    ensures TextOff(n, [], off) <= |Flat([n])|
    ensures Flat([Head(n, [], off)]) == Flat([n])[..TextOff(n, [], off)]
    ensures Flat([Tail(n, [], off)]) == Flat([n])[TextOff(n, [], off)..]
  {
    if n.Elem? {
      FlatHalf(n.kids, off);
    }
  }

  /** If one tree of a forest is cut, the forest is cut. */
  lemma FlatStep(ks: seq<Node>, i: nat, h: Node, t: Node, x: nat)
    requires i < |ks| && x <= |Flat([ks[i]])|
    requires Flat([h]) == Flat([ks[i]])[..x] && Flat([t]) == Flat([ks[i]])[x..]
    ensures |Flat(ks[..i])| + x <= |Flat(ks)|
    ensures Flat(ks[..i] + [h]) == Flat(ks)[..|Flat(ks[..i])| + x]
    ensures Flat([t] + ks[i + 1..]) == Flat(ks)[|Flat(ks[..i])| + x..]
  {
    hide Flat;
    FlatSplit(ks, i);
    FlatConcat(ks[..i], [h]);
    FlatConcat([t], ks[i + 1..]);
    SliceConcat(Flat(ks[..i]), Flat([ks[i]]), Flat(ks[i + 1..]), x);
  }

  lemma FlatElem(n: Node)
    requires n.Elem?
    ensures Flat([n]) == Flat(n.kids)
  {
  }

  lemma FlatHalf(ks: seq<Node>, i: nat)
    requires i <= |ks|
    ensures Flat(ks) == Flat(ks[..i]) + Flat(ks[i..])
  {
    hide Flat;
    assert ks == ks[..i] + ks[i..];
    FlatConcat(ks[..i], ks[i..]);
  }

  /** The children from an end point's boundary child on, cut at the end point. */
  lemma FlatEnd(n: Node, q: Path, eo: nat)
    requires n.Elem? && ValidPoint(n, q, eo)
    ensures Flat(EndPiece(n, q, eo)) + Flat(Tail(n, q, eo).kids) == Flat(n.kids[Limit(q, eo)..])
  {
    if q != [] {
      var k := n.kids[q[0]];
      FlatHalves(k, q[1..], eo);
      FlatConcat([Tail(k, q[1..], eo)], n.kids[q[0] + 1..]);
      FlatConcat([k], n.kids[q[0] + 1..]);
      assert n.kids[q[0]..] == [k] + n.kids[q[0] + 1..];
    }
  }

  lemma FlatStart(n: Node, p: Path, so: nat)
    requires n.Elem? && ValidPoint(n, p, so)
    ensures First(p, so) <= |n.kids|
    ensures Flat(StartPiece(n, p, so)) + Flat(n.kids[First(p, so)..]) == Flat(Tail(n, p, so).kids)
  {
    if p != [] {
      FlatConcat([Tail(n.kids[p[0]], p[1..], so)], n.kids[p[0] + 1..]);
    }
  }

  /** Between two points lies the text from the one text offset to the other. */
  lemma FlatMid(n: Node, p: Path, so: nat, q: Path, eo: nat)
    requires Spans(n, p, so, q, eo)
    ensures TextOff(n, p, so) <= TextOff(n, q, eo) <= |Flat([n])|
    ensures Flat(MidKids(n, p, so, q, eo)) == Flat([n])[TextOff(n, p, so)..TextOff(n, q, eo)]
  {
    hide Flat;
    var lo, hi := First(p, so), Limit(q, eo);
    var s, m, e := StartPiece(n, p, so), n.kids[lo..hi], EndPiece(n, q, eo);
    var t, rest := Flat([n]), Flat(Tail(n, q, eo).kids);
    FlatHalves(n, p, so);
    FlatHalves(n, q, eo);
    FlatStart(n, p, so);
    FlatEnd(n, q, eo);
    FlatHalf(n.kids[lo..], hi - lo);
    assert n.kids[lo..][hi - lo..] == n.kids[hi..] && n.kids[lo..][..hi - lo] == m;
    FlatConcat(s + m, e);
    FlatConcat(s, m);
    FlatElem(Tail(n, p, so));
    FlatElem(Tail(n, q, eo));
    Regroup(Flat(s), Flat(m), Flat(e), rest);
    MidOf(t, TextOff(n, p, so), TextOff(n, q, eo), Flat(s + m + e));
  }

  lemma Regroup<T>(a: seq<T>, b: seq<T>, c: seq<T>, d: seq<T>)
    ensures a + (b + (c + d)) == a + b + c + d
  {
  }

  /** Taking out what lies between two points takes out that text and no other. */
  lemma FlatCut(n: Node, p: Path, so: nat, q: Path, eo: nat)
    requires Spans(n, p, so, q, eo)
    ensures TextOff(n, p, so) <= |Flat([n])| && TextOff(n, q, eo) <= |Flat([n])|
    ensures Flat([Cut(n, p, so, q, eo)]) == Flat([n])[..TextOff(n, p, so)] + Flat([n])[TextOff(n, q, eo)..]
  {
    hide Flat;
    FlatHalves(n, p, so);
    FlatHalves(n, q, eo);
    FlatConcat(Head(n, p, so).kids, Tail(n, q, eo).kids);
    FlatElem(Head(n, p, so));
    FlatElem(Tail(n, q, eo));
    FlatElem(Cut(n, p, so, q, eo));
  }

  lemma MidOf<T>(t: seq<T>, a: nat, b: nat, m: seq<T>)
    requires a <= |t| && b <= |t| && t[a..] == m + t[b..]
    ensures a <= b && t[a..b] == m
  {
    assert |t| - a == |m| + (|t| - b);
    assert t[a..b] == t[a..][..|m|];
  }

  // ----- slices of the document order -----

  /** In document order, the nodes whose extent from opening to closing tag meets the open interval
      (lo, hi), where the first tag of the forest is at position `b`. */
  function Meeting(ks: seq<Node>, b: nat, lo: nat, hi: nat): seq<Id> {
    if ks == [] then []
    else
      (if b < hi && b + Width([ks[0]]) > lo then [ks[0].id] else [])
      + (if ks[0].Elem? then Meeting(ks[0].kids, b + 1, lo, hi) else [])
      + Meeting(ks[1..], b + Width([ks[0]]), lo, hi)
  }

  lemma MeetingCons(ks: seq<Node>, b: nat, lo: nat, hi: nat)
    requires ks != []
    ensures Meeting(ks, b, lo, hi) == Meeting([ks[0]], b, lo, hi) + Meeting(ks[1..], b + Width([ks[0]]), lo, hi)
  {
    assert [ks[0]][1..] == [];
  }

  lemma {:induction false} MeetingConcat(x: seq<Node>, y: seq<Node>, b: nat, lo: nat, hi: nat)
    ensures Meeting(x + y, b, lo, hi) == Meeting(x, b, lo, hi) + Meeting(y, b + Width(x), lo, hi)
  {
    if x == [] {
      assert x + y == y;
    } else {
      hide Width, Meeting;
      assert (x + y)[1..] == x[1..] + y;
      MeetingCons(x, b, lo, hi);
      MeetingCons(x + y, b, lo, hi);
      MeetingConcat(x[1..], y, b + Width([x[0]]), lo, hi);
      WidthCons(x);
      SeqAssoc(Meeting([x[0]], b, lo, hi), Meeting(x[1..], b + Width([x[0]]), lo, hi),
        Meeting(y, b + Width(x), lo, hi));
    }
  }

  lemma SeqAssoc<T>(a: seq<T>, b: seq<T>, c: seq<T>)
    ensures a + (b + c) == a + b + c
  {
  }

  lemma WidthCons(ks: seq<Node>)
    requires ks != []
    ensures Width(ks) == Width([ks[0]]) + Width(ks[1..])
  {
    assert ks == [ks[0]] + ks[1..];
    WidthConcat([ks[0]], ks[1..]);
  }

  lemma WidthElem(n: Node)
    requires n.Elem?
    ensures Width([n]) == 2 + Width(n.kids)
  {
  }

  lemma {:induction false} MeetingAll(ks: seq<Node>, b: nat, lo: nat, hi: nat)
    requires lo <= b && b + Width(ks) <= hi
    ensures Meeting(ks, b, lo, hi) == Pre(ks)
  {
    if ks != [] {
      WidthCons(ks);
      if ks[0].Elem? {
        WidthElem(ks[0]);
        MeetingAll(ks[0].kids, b + 1, lo, hi);
      }
      MeetingAll(ks[1..], b + Width([ks[0]]), lo, hi);
    }
  }

  lemma {:induction false} MeetingNone(ks: seq<Node>, b: nat, lo: nat, hi: nat)
    requires b + Width(ks) <= lo || hi <= b
    ensures Meeting(ks, b, lo, hi) == []
  {
    if ks != [] {
      WidthCons(ks);
      if ks[0].Elem? {
        WidthElem(ks[0]);
        MeetingNone(ks[0].kids, b + 1, lo, hi);
      }
      MeetingNone(ks[1..], b + Width([ks[0]]), lo, hi);
    }
  }

  lemma MeetingElem(n: Node, b: nat, lo: nat, hi: nat)
    requires n.Elem? && b < hi && b + Width([n]) > lo
    ensures Meeting([n], b, lo, hi) == [n.id] + Meeting(n.kids, b + 1, lo, hi)
  {
    assert Meeting([n][1..], b + Width([n]), lo, hi) == [];
  }

  /** Cutting a forest at position i, with everything on one side outside the interval. */
  lemma MeetingSplit(ks: seq<Node>, i: nat, b: nat, lo: nat, hi: nat)
    requires i <= |ks|
    ensures Meeting(ks, b, lo, hi) == Meeting(ks[..i], b, lo, hi) + Meeting(ks[i..], b + Width(ks[..i]), lo, hi)
    ensures Width(ks) == Width(ks[..i]) + Width(ks[i..])
  {
    hide Meeting, Width;
    assert ks == ks[..i] + ks[i..];
    MeetingConcat(ks[..i], ks[i..], b, lo, hi);
    WidthConcat(ks[..i], ks[i..]);
  }

  lemma {:induction false} MeetingTail(n: Node, b: nat, p: Path, off: nat, hi: nat)
    requires ValidPoint(n, p, off) && b + Width([n]) <= hi
    ensures Meeting([n], b, b + Pos(n, p, off), hi) == Pre([Tail(n, p, off)])
    decreases |p|, 1
  {
    var lo := b + Pos(n, p, off);
    PosInside(n, p, off);
    if n.Text? {
      assert [n][1..] == [];
    } else {
      MeetingElem(n, b, lo, hi);
      WidthElem(n);
      MeetingTailKids(n, b, p, off, hi);
      PreElem(Tail(n, p, off));
    }
  }

  lemma PreElem(n: Node)
    requires n.Elem?
    ensures Pre([n]) == [n.id] + Pre(n.kids)
  {
  }

  lemma {:induction false} MeetingTailKids(n: Node, b: nat, p: Path, off: nat, hi: nat)
    requires n.Elem? && ValidPoint(n, p, off) && b + 1 + Width(n.kids) <= hi
    ensures Meeting(n.kids, b + 1, b + Pos(n, p, off), hi) == Pre(Tail(n, p, off).kids)
    decreases |p|, 0
  {
    hide Meeting;
    hide Pre;
    hide Width;
    var lo, i := b + Pos(n, p, off), Limit(p, off);
    var c := b + 1 + Width(n.kids[..i]);
    MeetingSplit(n.kids, i, b + 1, lo, hi);
    MeetingNone(n.kids[..i], b + 1, lo, hi) by { PosLimit(n, p, off); }
    if p == [] {
      MeetingAll(n.kids[i..], c, lo, hi);
    } else {
      var rest := n.kids[i..];
      assert rest[..1] == [n.kids[i]] && rest[1..] == n.kids[i + 1..];
      MeetingSplit(rest, 1, c, lo, hi);
      MeetingTail(n.kids[i], c, p[1..], off, hi);
      PosInside(n.kids[i], p[1..], off);
      MeetingAll(n.kids[i + 1..], c + Width([n.kids[i]]), lo, hi);
      PreConcat([Tail(n.kids[i], p[1..], off)], n.kids[i + 1..]);
    }
  }

  lemma PosLimit(n: Node, p: Path, off: nat)
    requires n.Elem? && ValidPoint(n, p, off)
    ensures Limit(p, off) <= |n.kids|
    ensures 1 + Width(n.kids[..Limit(p, off)]) <= Pos(n, p, off)
  {
  }

  lemma {:induction false} MeetingHead(n: Node, b: nat, q: Path, off: nat, lo: nat)
    requires ValidPoint(n, q, off) && lo <= b
    ensures Meeting([n], b, lo, b + Pos(n, q, off)) == Pre([Head(n, q, off)])
    decreases |q|, 2
  {
    var hi := b + Pos(n, q, off);
    PosInside(n, q, off);
    if n.Text? {
      assert [n][1..] == [];
    } else {
      MeetingElem(n, b, lo, hi);
      MeetingHeadKids(n, b, q, off, lo);
      PreElem(Head(n, q, off));
    }
  }

  lemma {:induction false} MeetingHeadKids(n: Node, b: nat, q: Path, off: nat, lo: nat)
    requires n.Elem? && ValidPoint(n, q, off) && lo <= b
    ensures Meeting(n.kids, b + 1, lo, b + Pos(n, q, off)) == Pre(Head(n, q, off).kids)
    decreases |q|, 1
  {
    hide Meeting;
    hide Pre;
    hide Width;
    var hi, i := b + Pos(n, q, off), Limit(q, off);
    var c := b + 1 + Width(n.kids[..i]);
    PosLimit(n, q, off);
    MeetingSplit(n.kids, i, b + 1, lo, hi);
    MeetingAll(n.kids[..i], b + 1, lo, hi);
    MeetingEnd(n, c, q, off, lo, hi);
    PreConcat(n.kids[..i], EndPiece(n, q, off));
    assert Head(n, q, off).kids == n.kids[..i] + EndPiece(n, q, off);
  }

  /** The children from the end point's boundary child on. */
  lemma {:induction false} MeetingEnd(n: Node, c: nat, q: Path, off: nat, lo: nat, hi: nat)
    requires n.Elem? && ValidPoint(n, q, off) && lo <= c
    requires hi + 1 + Width(n.kids[..Limit(q, off)]) == c + Pos(n, q, off)
    ensures Meeting(n.kids[Limit(q, off)..], c, lo, hi) == Pre(EndPiece(n, q, off))
    decreases |q|, 0
  {
    var i := Limit(q, off);
    if q == [] {
      MeetingNone(n.kids[i..], c, lo, hi);
    } else {
      hide Meeting, Pre, Width, Flat, TextOff, Head;
      var rest := n.kids[i..];
      assert rest[..1] == [n.kids[i]] && rest[1..] == n.kids[i + 1..];
      MeetingSplit(rest, 1, c, lo, hi);
      PosInside(n.kids[i], q[1..], off);
      assert Pos(n, q, off) == 1 + Width(n.kids[..i]) + Pos(n.kids[i], q[1..], off);
      MeetingHead(n.kids[i], c, q[1..], off, lo);
      MeetingNone(n.kids[i + 1..], c + Width([n.kids[i]]), lo, hi);
    }
  }

  /** The nodes below `n` that meet the interval between two points are the nodes of the slice. */
  lemma MeetingMid(n: Node, b: nat, p: Path, so: nat, q: Path, eo: nat)
    requires Spans(n, p, so, q, eo)
    ensures Meeting(n.kids, b + 1, b + Pos(n, p, so), b + Pos(n, q, eo)) == Pre(MidKids(n, p, so, q, eo))
  {
    hide Meeting;
    hide Pre;
    hide Width;
    var lo, hi := b + Pos(n, p, so), b + Pos(n, q, eo);
    var j, k := First(p, so), Limit(q, eo);
    var c := b + 1 + Width(n.kids[..j]);
    MeetingSplit(n.kids, j, b + 1, lo, hi);
    MeetingUpTo(n, b, p, so, lo, hi) by { SpanOrder(n, p, so, q, eo); }
    MeetingSplit(n.kids[j..], k - j, c, lo, hi);
    assert n.kids[j..][..k - j] == n.kids[j..k] && n.kids[j..][k - j..] == n.kids[k..];
    WidthConcat(n.kids[..j], n.kids[j..k]);
    assert n.kids[..k] == n.kids[..j] + n.kids[j..k];
    StartEdge(n, p, so);
    PosLimit(n, q, eo);
    MeetingAll(n.kids[j..k], c, lo, hi);
    MeetingEnd(n, c + Width(n.kids[j..k]), q, eo, lo, hi);
    PreConcat(StartPiece(n, p, so) + n.kids[j..k], EndPiece(n, q, eo));
    PreConcat(StartPiece(n, p, so), n.kids[j..k]);
  }

  lemma SpanOrder(n: Node, p: Path, so: nat, q: Path, eo: nat)
    requires Spans(n, p, so, q, eo)
    ensures 1 + Width(n.kids[..First(p, so)]) <= Pos(n, q, eo)
  {
    PosLimit(n, q, eo);
    WidthMono(n.kids, First(p, so), Limit(q, eo));
  }

  lemma MeetingUpTo(n: Node, b: nat, p: Path, so: nat, lo: nat, hi: nat)
    requires n.Elem? && ValidPoint(n, p, so) && First(p, so) <= |n.kids|
    requires lo == b + Pos(n, p, so) && b + 1 + Width(n.kids[..First(p, so)]) <= hi
    ensures Meeting(n.kids[..First(p, so)], b + 1, lo, hi) == Pre(StartPiece(n, p, so))
  {
    hide Meeting;
    hide Pre;
    hide Width;
    var i, j := Limit(p, so), First(p, so);
    PosLimit(n, p, so);
    var ks := n.kids[..j];
    assert ks[..i] == n.kids[..i] && ks[i..] == n.kids[i..j];
    MeetingSplit(ks, i, b + 1, lo, hi);
    MeetingNone(ks[..i], b + 1, lo, hi);
    MeetingStart(n, b + 1 + Width(n.kids[..i]), p, so, lo, hi);
  }

  lemma StartEdge(n: Node, p: Path, so: nat)
    requires n.Elem? && ValidPoint(n, p, so)
    ensures First(p, so) <= |n.kids|
    ensures Pos(n, p, so) <= 1 + Width(n.kids[..First(p, so)])
  {
    if p != [] {
      PosInside(n.kids[p[0]], p[1..], so);
      WidthStep(n.kids, p[0]);
    }
  }

  lemma MeetingStart(n: Node, c: nat, p: Path, so: nat, lo: nat, hi: nat)
    requires n.Elem? && ValidPoint(n, p, so) && First(p, so) <= |n.kids|
    requires lo + 1 + Width(n.kids[..Limit(p, so)]) == c + Pos(n, p, so)
    requires c + Width(n.kids[Limit(p, so)..First(p, so)]) <= hi
    ensures Meeting(n.kids[Limit(p, so)..First(p, so)], c, lo, hi) == Pre(StartPiece(n, p, so))
  {
    if p == [] {
      assert n.kids[so..so] == [];
    } else {
      assert n.kids[p[0]..p[0] + 1] == [n.kids[p[0]]];
      MeetingTail(n.kids[p[0]], c, p[1..], so, hi);
    }
  }

  // ----- a subtree in its surroundings -----

  /** Positions and text offsets inside a subtree are those of the whole tree, shifted. */
  lemma {:induction false} PointContext(n: Node, c: Path, p: Path, off: nat)
    requires HasPath(n, c) && ValidPoint(At(n, c), p, off)
    ensures ValidPoint(n, c + p, off) && ValidPoint(n, c, 0)
    ensures Pos(n, c + p, off) + 1 == Pos(n, c, 0) + Pos(At(n, c), p, off)
    ensures TextOff(n, c + p, off) == TextOff(n, c, 0) + TextOff(At(n, c), p, off)
  {
    AtAppend(n, c, p);
    if c == [] {
      assert c + p == p;
      assert n.Elem? ==> n.kids[..0] == [];
    } else {
      assert (c + p)[1..] == c[1..] + p;
      PointContext(n.kids[c[0]], c[1..], p, off);
    }
  }

  /** The text of a subtree is a slice of the text of the whole. */
  lemma {:induction false} FlatContext(n: Node, c: Path)
    requires HasPath(n, c)
    ensures ValidPoint(n, c, 0) && TextOff(n, c, 0) + |Flat([At(n, c)])| <= |Flat([n])|
    ensures Flat([n])[TextOff(n, c, 0)..][..|Flat([At(n, c)])|] == Flat([At(n, c)])
  {
    if c == [] {
      assert n.Elem? ==> n.kids[..0] == [];
    } else {
      var k := n.kids[c[0]];
      FlatContext(k, c[1..]);
      FlatSplit(n.kids, c[0]);
      FlatElem(n);
      WithinMiddle(Flat(n.kids[..c[0]]), Flat([k]), Flat(n.kids[c[0] + 1..]), TextOff(k, c[1..], 0),
        |Flat([At(n, c)])|);
    }
  }

  lemma WithinMiddle<T>(a: seq<T>, b: seq<T>, c: seq<T>, i: nat, k: nat)
    requires i + k <= |b|
    ensures (a + b + c)[|a| + i..][..k] == b[i..][..k]
  {
  }

  /** Replacing a subtree replaces its text and moves nothing before it. */
  lemma {:induction false} FlatPut(n: Node, c: Path, x: Node)
    requires HasPath(n, c)
    ensures ValidPoint(n, c, 0) && TextOff(n, c, 0) + |Flat([At(n, c)])| <= |Flat([n])|
    ensures Flat([Put(n, c, x)]) == Flat([n])[..TextOff(n, c, 0)] + Flat([x])
        + Flat([n])[TextOff(n, c, 0) + |Flat([At(n, c)])|..]
    ensures HasPath(Put(n, c, x), c) && TextOff(Put(n, c, x), c, 0) == TextOff(n, c, 0)
  {
    hide Flat;
    if c == [] {
      StartsAtZero(n);
      StartsAtZero(x);
      assert Flat([n])[..0] + Flat([x]) + Flat([n])[|Flat([n])|..] == Flat([x]);
    } else {
      var i, k := c[0], n.kids[c[0]];
      var l := Put(k, c[1..], x);
      FlatPut(k, c[1..], x);
      FlatSwap(n.kids, i, l, TextOff(k, c[1..], 0), |Flat([At(n, c)])|, Flat([x]));
      FlatElem(n);
      FlatElem(Put(n, c, x));
      assert n.kids[i := l][..i] == n.kids[..i];
    }
  }

  lemma StartsAtZero(n: Node)
    ensures TextOff(n, [], 0) == 0
  {
    assert n.Elem? ==> n.kids[..0] == [];
  }

  /** A forest with the text of one tree changed in the middle. */
  lemma FlatSwap(ks: seq<Node>, i: nat, l: Node, t: nat, m: nat, x: string)
    requires i < |ks| && t + m <= |Flat([ks[i]])|
    requires Flat([l]) == Flat([ks[i]])[..t] + x + Flat([ks[i]])[t + m..]
    ensures |Flat(ks[..i])| + t + m <= |Flat(ks)|
    ensures Flat(ks[i := l]) == Flat(ks)[..|Flat(ks[..i])| + t] + x + Flat(ks)[|Flat(ks[..i])| + t + m..]
  {
    hide Flat;
    var ls := ks[i := l];
    assert ls[..i] == ks[..i] && ls[i + 1..] == ks[i + 1..];
    FlatSplit(ks, i);
    FlatSplit(ls, i);
    ReplaceMiddle(Flat(ks[..i]), Flat([ks[i]]), Flat(ks[i + 1..]), t, m, x, Flat([l]));
  }

  lemma ReplaceMiddle<T>(a: seq<T>, b: seq<T>, c: seq<T>, i: nat, k: nat, x: seq<T>, y: seq<T>)
    requires i + k <= |b| && y == b[..i] + x + b[i + k..]
    ensures a + y + c == (a + b + c)[..|a| + i] + x + (a + b + c)[|a| + i + k..]
  {
    SliceConcat(a, b, c, i);
    SliceConcat(a, b, c, i + k);
  }

  /** The outer tags of a child, seen from its parent. */
  lemma KidPlaces(n: Node, i: nat)
    requires n.Elem? && i < |n.kids|
    ensures ValidPoint(n, [], i) && ValidPoint(n, [], i + 1)
    ensures ValidPoint(n, [i], 0) && ValidPoint(n, [i], Len(n.kids[i]))
    ensures Pos(n, [i], 0) == Pos(n, [], i) + 1 && Pos(n, [i], Len(n.kids[i])) == Pos(n, [], i + 1) - 1
  {
    var k := n.kids[i];
    assert [i][1..] == [] && [k][1..] == [];
    WidthStep(n.kids, i);
    if k.Elem? {
      assert k.kids[..|k.kids|] == k.kids && k.kids[..0] == [];
    }
  }

  lemma KidExtent(w: Node, f: Path, i: nat)
    requires HasPath(w, f) && At(w, f).Elem? && i < |At(w, f).kids|
    ensures HasPath(w, f + [i]) && At(w, f + [i]) == At(w, f).kids[i]
    ensures ValidPoint(w, f, i) && ValidPoint(w, f, i + 1)
    ensures ValidPoint(w, f + [i], 0) && ValidPoint(w, f + [i], Len(At(w, f + [i])))
    ensures Pos(w, f + [i], 0) == Pos(w, f, i) + 1
    ensures Pos(w, f + [i], Len(At(w, f + [i]))) == Pos(w, f, i + 1) - 1
  {
    hide Pos, TextOff, Width, Flat, ValidPoint;
    var n := At(w, f);
    var k := n.kids[i];
    AtAppend(w, f, [i]);
    assert f + [] == f;
    KidPlaces(n, i);
    PointContext(w, f, [], i);
    PointContext(w, f, [], i + 1);
    PointContext(w, f, [i], 0);
    PointContext(w, f, [i], Len(k));
  }
}

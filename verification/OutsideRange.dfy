/** Deleting and extracting leave alone what lies outside a range. */
module OutsideRange {
  import opened Tree
  import opened Positions
  import opened Navigation
  import opened Slices
  import opened Ranges
  import opened RangeContents

  /** A path that neither leads to a point nor comes after it. */
  predicate BeforePoint(q: Path, p: Path, off: nat) {
    !(q <= p) && Cmp(Code(q, 0), Code(p, off)) < 0
  }

  predicate BehindPoint(q: Path, p: Path, off: nat) {
    !(q <= p) && Cmp(Code(q, 0), Code(p, off)) > 0
  }

  lemma {:induction false} KeptInHead(n: Node, p: Path, off: nat, q: Path)
    requires ValidPoint(n, p, off) && HasPath(n, q) && BeforePoint(q, p, off)
    ensures q != [] && HasPath(Head(n, p, off), q) && At(Head(n, p, off), q) == At(n, q)
  {
    if p != [] && q[0] == p[0] {
      assert q == [q[0]] + q[1..] && p == [p[0]] + p[1..];
      assert !(q[1..] <= p[1..]);
      KeptInHead(n.kids[p[0]], p[1..], off, q[1..]);
    }
  }

  /** Where a path behind a point leads in the part from the point on. */
  function FromPoint(q: Path, p: Path, off: nat): Path
    requires q != [] && BehindPoint(q, p, off)
  {
    if p == [] then [if q[0] >= off then q[0] - off else 0] + q[1..]
    else if q[0] == p[0] then
      assert q == [q[0]] + q[1..] && p == [p[0]] + p[1..];
      [0] + (if q[1..] != [] then FromPoint(q[1..], p[1..], off) else [])
    else [if q[0] >= p[0] then q[0] - p[0] else 0] + q[1..]
  }

  lemma {:induction false} KeptInTail(n: Node, p: Path, off: nat, q: Path)
    requires ValidPoint(n, p, off) && HasPath(n, q) && q != [] && BehindPoint(q, p, off)
    ensures HasPath(Tail(n, p, off), FromPoint(q, p, off)) && At(Tail(n, p, off), FromPoint(q, p, off)) == At(n, q)
    ensures FromPoint(q, p, off) != []
  {
    var r := FromPoint(q, p, off);
    if p == [] {
      assert r[1..] == q[1..];
    } else if q[0] == p[0] {
      assert q == [q[0]] + q[1..] && p == [p[0]] + p[1..];
      assert q[1..] != [];
      KeptInTail(n.kids[p[0]], p[1..], off, q[1..]);
      assert r[1..] == FromPoint(q[1..], p[1..], off);
    } else {
      assert r[1..] == q[1..];
    }
  }

  /** A node outside the two points is still there when what lies between them is taken out. */
  lemma CutKeeps(n: Node, p: Path, so: nat, q: Path, eo: nat, x: Path) returns (y: Path)
    requires Spans(n, p, so, q, eo) && HasPath(n, x) && x != []
    requires BeforePoint(x, p, so) || BehindPoint(x, q, eo)
    ensures HasPath(Cut(n, p, so, q, eo), y) && y != [] && At(Cut(n, p, so, q, eo), y) == At(n, x)
  {
    var h, t := Head(n, p, so).kids, Tail(n, q, eo).kids;
    if BeforePoint(x, p, so) {
      KeptInHead(n, p, so, x);
      y := x;
    } else {
      KeptInTail(n, q, eo, x);
      var z := FromPoint(x, q, eo);
      y := [|h| + z[0]] + z[1..];
      assert (h + t)[|h| + z[0]] == t[z[0]] && y[1..] == z[1..];
    }
  }

  lemma {:induction false} PutElsewhere(n: Node, c: Path, x: Node, p: Path)
    requires HasPath(n, c) && HasPath(n, p) && !(c <= p) && !(p <= c)
    ensures HasPath(Put(n, c, x), p) && At(Put(n, c, x), p) == At(n, p)
  {
    if p[0] == c[0] {
      assert p == [p[0]] + p[1..] && c == [c[0]] + c[1..];
      assert !(c[1..] <= p[1..]) && !(p[1..] <= c[1..]);
      PutElsewhere(n.kids[c[0]], c[1..], x, p[1..]);
    }
  }

  /** A node that holds neither boundary, and begins before the range or after it. */
  predicate Outside(w: Node, r: RangeState, x: Id)
    requires ValidRange(w, r) && IsNode(w, x)
  {
    && !(Where(w, x) <= Where(w, r.startContainer)) && !(Where(w, x) <= Where(w, r.endContainer))
    && (Order(w, x, 0, r.startContainer, r.startOffset) < 0 || Order(w, x, 0, r.endContainer, r.endOffset) > 0)
  }

  /** Such a node, with all that is below it, is what it was. */
  lemma OutsideUntouched(w: Node, r: RangeState, x: Id)
    requires Distinct(w) && ValidRange(w, r) && IsNode(w, x) && Outside(w, r, x)
    ensures IsNode(Deleted(w, r), x) && Get(Deleted(w, r), x) == Get(w, x)
  {
    DeletedDistinct(w, r);
    if !r.collapsed {
      RangeShape(w, r);
      var c, t, n := RootPath(w, r), Where(w, x), Root(w, r);
      var p, q, v := StartBelow(w, r), EndBelow(w, r), Deleted(w, r);
      if c <= t {
        var b := t[|c|..];
        assert t == c + b;
        AtAppend(w, c, b);
        CmpShift(c, b, 0, p, r.startOffset);
        CmpShift(c, b, 0, q, r.endOffset);
        assert b <= p ==> t <= c + p;
        assert b <= q ==> t <= c + q;
        assert b != [];
        var y := CutKeeps(n, p, r.startOffset, q, r.endOffset, b);
        AtPut(w, c, CutRoot(w, r));
        AtAppend(v, c, y);
        WhereAt(v, c + y);
      } else {
        assert t <= c ==> t <= c + p;
        PutElsewhere(w, c, CutRoot(w, r), t);
        WhereAt(v, t);
      }
    }
  }

  // ----- which nodes are gone -----

  lemma LaterKid(ks: seq<Node>, i: nat, k: nat, q: Path, id: Id)
    requires i <= k < |ks| && HasPath(ks[k], q) && At(ks[k], q).id == id && Count(ks, id) <= 1
    ensures Count(ks[..i], id) == 0
  {
    CountAt(ks[k], q, id);
    CountSplit(ks, k, id);
    CountUpTo(ks, k, i, id);
  }

  lemma EarlierKid(ks: seq<Node>, i: nat, k: nat, q: Path, id: Id)
    requires k < i <= |ks| && HasPath(ks[k], q) && At(ks[k], q).id == id && Count(ks, id) <= 1
    ensures Count(ks[i..], id) == 0
  {
    CountAt(ks[k], q, id);
    CountSplit(ks, k, id);
    CountConcat(ks[k + 1..i], ks[i..], id);
    assert ks[k + 1..] == ks[k + 1..i] + ks[i..];
  }

  lemma BelowOnce(n: Node, q: Path, id: Id)
    requires n.Elem? && q != [] && HasPath(n, q) && At(n, q).id == id && Count([n], id) <= 1
    ensures n.id != id && Count(n.kids, id) <= 1 && Count([n.kids[q[0]]], id) <= 1
  {
    CountElem(n, id);
    CountSplit(n.kids, q[0], id);
    CountAt(n.kids[q[0]], q[1..], id);
  }

  /** A node behind a point is not in the part before it. */
  lemma {:induction false} NotInHead(n: Node, p: Path, off: nat, q: Path, id: Id)
    requires ValidPoint(n, p, off) && HasPath(n, q) && q != [] && BehindPoint(q, p, off)
    requires At(n, q).id == id && Count([n], id) <= 1
    ensures n.Elem? && Count(Head(n, p, off).kids, id) == 0
  {
    BelowOnce(n, q, id);
    if p == [] {
      LaterKid(n.kids, off, q[0], q[1..], id);
    } else {
      assert q == [q[0]] + q[1..] && p == [p[0]] + p[1..];
      var k := n.kids[p[0]];
      var h := Head(k, p[1..], off);
      LaterKid(n.kids, p[0], q[0], q[1..], id);
      CountConcat(n.kids[..p[0]], [h], id);
      if q[0] == p[0] {
        assert q[1..] != [];
        NotInHead(k, p[1..], off, q[1..], id);
        BelowOnce(k, q[1..], id);
        CountElem(h, id);
      } else {
        LaterKid(n.kids, p[0] + 1, q[0], q[1..], id);
        CountSplit(n.kids[..p[0] + 1], p[0], id);
        CountHalf(k, p[1..], off, id);
      }
    }
  }

  /** A node before a point is not in the part from the point on. */
  lemma {:induction false} NotInTail(n: Node, p: Path, off: nat, q: Path, id: Id)
    requires ValidPoint(n, p, off) && HasPath(n, q) && q != [] && BeforePoint(q, p, off)
    requires At(n, q).id == id && Count([n], id) <= 1
    ensures n.Elem? && Count(Tail(n, p, off).kids, id) == 0
  {
    BelowOnce(n, q, id);
    if p == [] {
      EarlierKid(n.kids, off, q[0], q[1..], id);
    } else {
      assert q == [q[0]] + q[1..] && p == [p[0]] + p[1..];
      var k := n.kids[p[0]];
      var t := Tail(k, p[1..], off);
      EarlierKid(n.kids, p[0] + 1, q[0], q[1..], id);
      CountConcat([t], n.kids[p[0] + 1..], id);
      if q[0] == p[0] {
        assert q[1..] != [] && !(q[1..] <= p[1..]);
        NotInTail(k, p[1..], off, q[1..], id);
        BelowOnce(k, q[1..], id);
        CountElem(t, id);
      } else {
        EarlierKid(n.kids, p[0], q[0], q[1..], id);
        assert n.kids[p[0]..] == [k] + n.kids[p[0] + 1..];
        CountConcat([k], n.kids[p[0] + 1..], id);
        CountHalf(k, p[1..], off, id);
      }
    }
  }

  // ----- which nodes are left -----

  /** The nodes on the way to a point are in both parts. */
  lemma {:induction false} OnWayInHead(n: Node, p: Path, off: nat, b: Path)
    requires ValidPoint(n, p, off) && b <= p
    ensures HasPath(n, b) && HasPath(Head(n, p, off), b) && At(Head(n, p, off), b).id == At(n, b).id
  {
    if b != [] {
      OnWayInHead(n.kids[p[0]], p[1..], off, b[1..]);
    }
  }

  lemma {:induction false} OnWayInTail(n: Node, p: Path, off: nat, b: Path) returns (y: Path)
    requires ValidPoint(n, p, off) && b <= p
    ensures HasPath(n, b) && HasPath(Tail(n, p, off), y) && At(Tail(n, p, off), y).id == At(n, b).id
    ensures b != [] ==> y != []
  {
    if b == [] {
      y := [];
    } else {
      var z := OnWayInTail(n.kids[p[0]], p[1..], off, b[1..]);
      y := [0] + z;
      assert y[1..] == z;
    }
  }

  lemma OnWayInCut(n: Node, p: Path, so: nat, q: Path, eo: nat, b: Path) returns (y: Path)
    requires Spans(n, p, so, q, eo) && b != [] && (b <= p || b <= q)
    ensures HasPath(n, b) && HasPath(Cut(n, p, so, q, eo), y) && At(Cut(n, p, so, q, eo), y).id == At(n, b).id
  {
    var h, t := Head(n, p, so).kids, Tail(n, q, eo).kids;
    if b <= p {
      OnWayInHead(n, p, so, b);
      y := b;
    } else {
      var z := OnWayInTail(n, q, eo, b);
      y := [|h| + z[0]] + z[1..];
      assert (h + t)[|h| + z[0]] == t[z[0]] && y[1..] == z[1..];
    }
  }

  lemma {:induction false} PutAbove(n: Node, c: Path, x: Node, t: Path)
    requires HasPath(n, c) && t <= c && x.id == At(n, c).id
    ensures HasPath(n, t) && HasPath(Put(n, c, x), t) && At(Put(n, c, x), t).id == At(n, t).id
  {
    if t != [] {
      PutAbove(n.kids[c[0]], c[1..], x, t[1..]);
    }
  }

  /** A node that holds a boundary. */
  predicate HoldsBoundary(w: Node, r: RangeState, x: Id)
    requires ValidRange(w, r) && IsNode(w, x)
  {
    Where(w, x) <= Where(w, r.startContainer) || Where(w, x) <= Where(w, r.endContainer)
  }

  lemma HolderStays(w: Node, r: RangeState, x: Id)
    requires Distinct(w) && ValidRange(w, r) && !r.collapsed && IsNode(w, x) && HoldsBoundary(w, r, x)
    ensures IsNode(Deleted(w, r), x)
  {
    RangeShape(w, r);
    DeletedDistinct(w, r);
    var c, t, n, v := RootPath(w, r), Where(w, x), Root(w, r), Deleted(w, r);
    if t <= c {
      PutAbove(w, c, CutRoot(w, r), t);
      WhereAt(v, t);
    } else {
      var b := t[|c|..];
      assert t == c + b && b != [];
      assert b <= StartBelow(w, r) || b <= EndBelow(w, r);
      assert n.Elem?;
      AtAppend(w, c, b);
      var y := OnWayInCut(n, StartBelow(w, r), r.startOffset, EndBelow(w, r), r.endOffset, b);
      AtPut(w, c, CutRoot(w, r));
      AtAppend(v, c, y);
      assert c + y != [];
      WhereAt(v, c + y);
    }
  }

  /** A node between the boundaries that holds neither is gone. */
  lemma BetweenGoes(w: Node, r: RangeState, x: Id)
    requires Distinct(w) && ValidRange(w, r) && !r.collapsed && IsNode(w, x) && !HoldsBoundary(w, r, x)
    requires !Outside(w, r, x)
    ensures !IsNode(Deleted(w, r), x)
  {
    RangeShape(w, r);
    var c, t, n, v := RootPath(w, r), Where(w, x), Root(w, r), Deleted(w, r);
    var p, q := StartBelow(w, r), EndBelow(w, r);
    CmpZero(t, 0, Where(w, r.startContainer), r.startOffset);
    CmpZero(t, 0, Where(w, r.endContainer), r.endOffset);
    if c <= t {
      var b := t[|c|..];
      assert t == c + b;
      AtAppend(w, c, b);
      CmpShift(c, b, 0, p, r.startOffset);
      CmpShift(c, b, 0, q, r.endOffset);
      assert b <= p ==> t <= c + p;
      assert b <= q ==> t <= c + q;
      assert b != [];
      CountAt(w, c, x);
      InnerGone(n, p, r.startOffset, q, r.endOffset, b, x);
      CountPut(w, c, CutRoot(w, r), x);
      CountAt(n, b, x);
      if IsNode(v, x) {
        CountAt(v, Where(v, x), x);
      }
    } else {
      assert t <= c ==> t <= c + p;
      Diverge(t, 0, c, p, r.startOffset);
      Diverge(t, 0, c, q, r.endOffset);
    }
  }

  lemma InnerGone(n: Node, p: Path, so: nat, q: Path, eo: nat, b: Path, x: Id)
    requires n.Elem? && Spans(n, p, so, q, eo) && b != [] && HasPath(n, b) && At(n, b).id == x && Count([n], x) <= 1
    requires BehindPoint(b, p, so) && BeforePoint(b, q, eo)
    ensures Count([Cut(n, p, so, q, eo)], x) == 0
  {
    NotInHead(n, p, so, b, x);
    NotInTail(n, q, eo, b, x);
    BelowOnce(n, b, x);
    CountConcat(Head(n, p, so).kids, Tail(n, q, eo).kids, x);
    CountElem(Cut(n, p, so, q, eo), x);
  }

  /** The nodes that are left are exactly those outside and those that hold a boundary. */
  lemma DeletedExactly(w: Node, r: RangeState, x: Id)
    requires Distinct(w) && ValidRange(w, r) && !r.collapsed && IsNode(w, x)
    ensures IsNode(Deleted(w, r), x) <==> Outside(w, r, x) || HoldsBoundary(w, r, x)
  {
    if Outside(w, r, x) {
      OutsideUntouched(w, r, x);
    } else if HoldsBoundary(w, r, x) {
      HolderStays(w, r, x);
    } else {
      BetweenGoes(w, r, x);
    }
  }
}

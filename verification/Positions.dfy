/** Boundary points of a tree and their order (section 2.5 of DOM Level 2 Traversal and Range).

    A point is a path to a container and an offset in it.  Two independent readings of "before" are
    given: the lexicographic order of point codes, which follows the shape of the paths, and the
    number of tags and characters that precede the point, which follows the written-out document. */
module Positions {
  import opened Tree

  predicate ValidPoint(n: Node, p: Path, off: nat) {
    HasPath(n, p) && off <= Len(At(n, p))
  }

  /** How many tags and characters of `n` precede the point. */
  function Pos(n: Node, p: Path, off: nat): nat
    requires ValidPoint(n, p, off)
  {
    if p == [] then 1 + (if n.Text? then off else Width(n.kids[..off]))
    else 1 + Width(n.kids[..p[0]]) + Pos(n.kids[p[0]], p[1..], off)
  }

  /** How many characters of `n` precede the point. */
  function TextOff(n: Node, p: Path, off: nat): nat
    requires ValidPoint(n, p, off)
  {
    if p == [] then (if n.Text? then off else |Flat(n.kids[..off])|)
    else |Flat(n.kids[..p[0]])| + TextOff(n.kids[p[0]], p[1..], off)
  }

  /** A child index i becomes 2i+1 and the offset o becomes 2o. */
  function Code(p: Path, off: nat): (c: seq<nat>)
    ensures |c| == |p| + 1
  {
    if p == [] then [2 * off] else [2 * p[0] + 1] + Code(p[1..], off)
  }

  /** Lexicographic comparison. */
  function Cmp(x: seq<nat>, y: seq<nat>): int {
    if x == [] then (if y == [] then 0 else -1)
    else if y == [] then 1
    else if x[0] < y[0] then -1
    else if x[0] > y[0] then 1
    else Cmp(x[1..], y[1..])
  }

  function Sign(i: int): int {
    if i < 0 then -1 else if i == 0 then 0 else 1
  }

  // ----- codes are a strict total order on points -----

  lemma {:induction false} CmpAntisymmetric(x: seq<nat>, y: seq<nat>)
    ensures Cmp(x, y) == -Cmp(y, x)
  {
    if x != [] && y != [] && x[0] == y[0] {
      CmpAntisymmetric(x[1..], y[1..]);
    }
  }

  lemma {:induction false} CmpTransitive(x: seq<nat>, y: seq<nat>, z: seq<nat>)
    requires Cmp(x, y) < 0 && Cmp(y, z) < 0
    ensures Cmp(x, z) < 0
  {
    if x != [] && y != [] && z != [] && x[0] == y[0] == z[0] {
      CmpTransitive(x[1..], y[1..], z[1..]);
    }
  }

  /** Only equal points compare equal. */
  lemma {:induction false} CmpZero(p: Path, a: nat, q: Path, b: nat)
    ensures Cmp(Code(p, a), Code(q, b)) == 0 <==> p == q && a == b
  {
    if p != [] && q != [] && p[0] == q[0] {
      CmpZero(p[1..], a, q[1..], b);
      assert p == [p[0]] + p[1..] && q == [q[0]] + q[1..];
    }
  }

  lemma {:induction false} CmpShift(c: Path, p: Path, a: nat, q: Path, b: nat)
    ensures Cmp(Code(c + p, a), Code(c + q, b)) == Cmp(Code(p, a), Code(q, b))
  {
    if c == [] {
      assert c + p == p && c + q == q;
    } else {
      assert (c + p)[1..] == c[1..] + p && (c + q)[1..] == c[1..] + q;
      CmpShift(c[1..], p, a, q, b);
    }
  }

  // ----- the two readings agree -----

  lemma WidthMono(ks: seq<Node>, i: nat, j: nat)
    requires i <= j <= |ks|
    ensures Width(ks[..i]) <= Width(ks[..j])
    ensures |Flat(ks[..i])| <= |Flat(ks[..j])|
  {
    assert ks[..j] == ks[..i] + ks[i..j];
    WidthConcat(ks[..i], ks[i..j]);
    FlatConcat(ks[..i], ks[i..j]);
  }

  lemma WidthStep(ks: seq<Node>, i: nat)
    requires i < |ks|
    ensures Width(ks[..i + 1]) == Width(ks[..i]) + Width([ks[i]])
    ensures |Flat(ks[..i + 1])| == |Flat(ks[..i])| + |Flat([ks[i]])|
  {
    assert ks[..i + 1] == ks[..i] + [ks[i]];
    WidthConcat(ks[..i], [ks[i]]);
    FlatConcat(ks[..i], [ks[i]]);
  }

  /** A point of a tree lies strictly between the tree's outer tags. */
  lemma {:induction false} PosInside(n: Node, p: Path, off: nat)
    requires ValidPoint(n, p, off)
    ensures 1 <= Pos(n, p, off) < Width([n])
    ensures TextOff(n, p, off) <= |Flat([n])|
  {
    if p == [] {
      if n.Elem? {
        WidthMono(n.kids, off, |n.kids|);
        assert n.kids[..|n.kids|] == n.kids;
      }
    } else {
      PosInside(n.kids[p[0]], p[1..], off);
      WidthStep(n.kids, p[0]);
      WidthMono(n.kids, p[0] + 1, |n.kids|);
      assert n.kids[..|n.kids|] == n.kids;
    }
  }

  /** Comparing codes is comparing positions in the written-out document. */
  lemma {:induction false} CmpIsPos(n: Node, p: Path, a: nat, q: Path, b: nat)
    requires ValidPoint(n, p, a) && ValidPoint(n, q, b)
    ensures Cmp(Code(p, a), Code(q, b)) == Sign(Pos(n, p, a) - Pos(n, q, b))
    ensures Pos(n, p, a) <= Pos(n, q, b) ==> TextOff(n, p, a) <= TextOff(n, q, b)
  {
    if p == [] && q == [] {
      OffsetOrder(n, a, b);
    } else if q == [] {
      OffsetPath(n, b, p, a);
    } else if p == [] {
      OffsetPath(n, a, q, b);
    } else if p[0] == q[0] {
      CmpIsPos(n.kids[p[0]], p[1..], a, q[1..], b);
    } else {
      PathPath(n, p, a, q, b);
      PathPath(n, q, b, p, a);
    }
  }

  lemma OffsetOrder(n: Node, a: nat, b: nat)
    requires a <= Len(n) && b <= Len(n)
    ensures Sign(a - b) == Sign(Pos(n, [], a) - Pos(n, [], b))
    ensures a <= b ==> TextOff(n, [], a) <= TextOff(n, [], b)
  {
    if n.Elem? && a < b {
      WidthStep(n.kids, a);
      WidthMono(n.kids, a + 1, b);
    } else if n.Elem? && b < a {
      WidthStep(n.kids, b);
      WidthMono(n.kids, b + 1, a);
    }
  }

  /** An offset in a container against a point inside one of the container's children. */
  lemma OffsetPath(n: Node, a: nat, q: Path, b: nat)
    requires a <= Len(n) && ValidPoint(n, q, b) && q != []
    ensures a <= q[0] ==> Pos(n, [], a) < Pos(n, q, b) && TextOff(n, [], a) <= TextOff(n, q, b)
    ensures a > q[0] ==> Pos(n, [], a) > Pos(n, q, b) && TextOff(n, [], a) >= TextOff(n, q, b)
    ensures Cmp(Code([], a), Code(q, b)) == if a <= q[0] then -1 else 1
    ensures Cmp(Code(q, b), Code([], a)) == if a <= q[0] then 1 else -1
  {
    PosInside(n.kids[q[0]], q[1..], b);
    if a <= q[0] {
      WidthMono(n.kids, a, q[0]);
    } else {
      WidthStep(n.kids, q[0]);
      WidthMono(n.kids, q[0] + 1, a);
    }
  }

  lemma PathPath(n: Node, p: Path, a: nat, q: Path, b: nat)
    requires ValidPoint(n, p, a) && ValidPoint(n, q, b) && p != [] && q != []
    ensures p[0] < q[0] ==> Pos(n, p, a) < Pos(n, q, b) && TextOff(n, p, a) <= TextOff(n, q, b)
    ensures p[0] < q[0] ==> Cmp(Code(p, a), Code(q, b)) == -1
    ensures p[0] > q[0] ==> Cmp(Code(p, a), Code(q, b)) == 1
  {
    if p[0] < q[0] {
      PosInside(n.kids[p[0]], p[1..], a);
      WidthStep(n.kids, p[0]);
      WidthMono(n.kids, p[0] + 1, q[0]);
    }
  }

  /** Points at paths that part stand on the same side of each other, whatever follows. */
  lemma {:induction false} Diverge(t: Path, a: nat, c: Path, p: Path, b: nat)
    requires !(t <= c) && !(c <= t)
    ensures Cmp(Code(t, a), Code(c + p, b)) == Cmp(Code(t, 0), Code(c, 0))
  {
    if t[0] == c[0] {
      assert (c + p)[1..] == c[1..] + p;
      assert t[1..] <= c[1..] ==> t <= c;
      assert c[1..] <= t[1..] ==> c <= t;
      Diverge(t[1..], a, c[1..], p, b);
    }
  }
}

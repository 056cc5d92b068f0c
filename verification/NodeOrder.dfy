/** The order and the extent of what getNodes returns. */
module NodeOrder {
  import opened Tree
  import opened Positions
  import opened Navigation
  import opened Slices
  import opened Ranges
  import opened Traversal
  import opened RangeQueries

  /** Nodes at or below a path, at increasing positions from one bound up to another. */
  ghost predicate Ascending(w: Node, c: Path, ids: seq<Id>, lo: int, hi: int) {
    && (forall i :: 0 <= i < |ids| ==> IsPoint(w, ids[i], 0) && c <= Where(w, ids[i]) && lo <= PosOf(w, ids[i], 0) < hi)
    && (forall i, j :: 0 <= i < j < |ids| ==> PosOf(w, ids[i], 0) < PosOf(w, ids[j], 0))
  }

  lemma AscendingConcat(w: Node, c: Path, a: seq<Id>, b: seq<Id>, lo: int, mid: int, hi: int)
    requires lo <= mid <= hi && Ascending(w, c, a, lo, mid) && Ascending(w, c, b, mid, hi)
    ensures Ascending(w, c, a + b, lo, hi)
  {
  }

  lemma {:induction false} TreeAscends(w: Node, p: Path)
    requires Distinct(w) && HasPath(w, p) && p != []
    ensures ValidPoint(w, p, 0) && ValidPoint(w, p, Len(At(w, p))) && Pos(w, p, 0) <= Pos(w, p, Len(At(w, p)))
    ensures Ascending(w, p, Pre([At(w, p)]), Pos(w, p, 0), Pos(w, p, Len(At(w, p))) + 1)
    decreases At(w, p), 1
  {
    var n := At(w, p);
    assert [n][1..] == [];
    WhereAt(w, p);
    PointContext(w, p, [], 0);
    PointContext(w, p, [], Len(n));
    assert p + [] == p;
    if n.Elem? {
      ForestAscends(w, p, |n.kids|);
      assert n.kids[..|n.kids|] == n.kids;
      AscendingConcat(w, p, [n.id], Pre(n.kids), Pos(w, p, 0), Pos(w, p, 0) + 1, Pos(w, p, |n.kids|) + 1);
    }
  }

  lemma {:induction false} ForestAscends(w: Node, f: Path, i: nat)
    requires Distinct(w) && HasPath(w, f) && f != [] && At(w, f).Elem? && i <= |At(w, f).kids|
    ensures ValidPoint(w, f, 0) && ValidPoint(w, f, i) && Pos(w, f, 0) <= Pos(w, f, i)
    ensures Ascending(w, f, Pre(At(w, f).kids[..i]), Pos(w, f, 0) + 1, Pos(w, f, i) + 1)
    decreases At(w, f), 0, i
  {
    var kids := At(w, f).kids;
    if i > 0 {
      ForestAscends(w, f, i - 1);
      KidExtent(w, f, i - 1);
      TreeAscends(w, f + [i - 1]);
      assert kids[..i] == kids[..i - 1] + [kids[i - 1]];
      PreConcat(kids[..i - 1], [kids[i - 1]]);
      AscendingConcat(w, f, Pre(kids[..i - 1]), Pre([kids[i - 1]]),
        Pos(w, f, 0) + 1, Pos(w, f, i - 1) + 1, Pos(w, f, i) + 1);
    }
  }

  /** Dropping nodes keeps the rest ascending. */
  lemma {:induction false} HitsAscend(w: Node, r: RangeState, c: Path, ids: seq<Id>, lo: int, hi: int)
    requires Ascending(w, c, ids, lo, hi)
    ensures Ascending(w, c, Hits(w, r, ids), lo, hi)
  {
    if ids != [] {
      hide Intersects;
      var next := PosOf(w, ids[0], 0) + 1;
      HitsAscend(w, r, c, ids[1..], next, hi);
      var kept := if Intersects(w, r, ids[0]) then [ids[0]] else [];
      AscendingConcat(w, c, kept, Hits(w, r, ids[1..]), lo, next, hi);
    }
  }

  lemma {:induction false} AcceptedAscend(w: Node, c: Path, ids: seq<Id>, accept: Seen -> bool, lo: int, hi: int)
    requires Ascending(w, c, ids, lo, hi)
    ensures Ascending(w, c, Accepted(w, ids, accept), lo, hi)
  {
    if ids != [] {
      var next := PosOf(w, ids[0], 0) + 1;
      AcceptedAscend(w, c, ids[1..], accept, next, hi);
      var kept := if accept(See(Get(w, ids[0]))) then [ids[0]] else [];
      AscendingConcat(w, c, kept, Accepted(w, ids[1..], accept), lo, next, hi);
    }
  }

  /** The nodes a range can contain, by their place in the tree. */
  predicate Eligible(w: Node, r: RangeState, x: Id)
    requires ValidRange(w, r)
  {
    IsNode(w, x) && RootPath(w, r) <= Where(w, x) && (Root(w, r).Elem? ==> RootPath(w, r) != Where(w, x))
  }

  lemma CandidatesAre(w: Node, r: RangeState)
    requires Distinct(w) && ValidRange(w, r)
    ensures exists lo: int, hi: int :: Ascending(w, RootPath(w, r), Candidates(w, r), lo, hi)
    ensures forall x :: x in Candidates(w, r) <==> Eligible(w, r, x)
  {
    RangeShape(w, r);
    var n, c := Root(w, r), RootPath(w, r);
    var lo, hi := CandidatesAscend(w, r);
    forall x ensures x in Candidates(w, r) <==> Eligible(w, r, x) {
      if x in Candidates(w, r) {
        var i :| 0 <= i < |Candidates(w, r)| && Candidates(w, r)[i] == x;
      } else if Eligible(w, r, x) {
        BelowIsCandidate(w, r, x);
      }
    }
  }

  lemma CandidatesAscend(w: Node, r: RangeState) returns (lo: int, hi: int)
    requires Distinct(w) && ValidRange(w, r)
    ensures Ascending(w, RootPath(w, r), Candidates(w, r), lo, hi)
    ensures Root(w, r).Elem? ==> forall i :: 0 <= i < |Candidates(w, r)| ==>
        Where(w, Candidates(w, r)[i]) != RootPath(w, r)
  {
    RangeShape(w, r);
    var n, c := Root(w, r), RootPath(w, r);
    assert Candidates(w, r) == if n.Text? then Pre([n]) else Pre(n.kids);
    hide Candidates, RootPath, Root, Spans, StartBelow, EndBelow, Lo, Hi, ValidRange, Pos;
    TreeAscends(w, c);
    if n.Text? {
      lo, hi := Pos(w, c, 0), Pos(w, c, Len(n)) + 1;
    } else {
      ForestAscends(w, c, |n.kids|);
      assert n.kids[..|n.kids|] == n.kids;
      lo, hi := Pos(w, c, 0) + 1, Pos(w, c, |n.kids|) + 1;
    }
  }

  ghost predicate Precedes(w: Node, a: Id, b: Id) {
    IsNode(w, a) && IsNode(w, b) && Order(w, a, 0, b, 0) < 0
  }

  /** What getNodes returns is in document order, has no node twice, and is exactly the accepted nodes below
      the common ancestor that intersect the range. */
  lemma NodesOfRange(w: Node, r: RangeState, nodes: seq<Id>, accept: Seen -> bool)
    requires Distinct(w) && ValidRange(w, r) && nodes == Accepted(w, Hits(w, r, Candidates(w, r)), accept)
    ensures forall i, j :: 0 <= i < j < |nodes| ==> Precedes(w, nodes[i], nodes[j])
    ensures forall x :: x in nodes <==> Eligible(w, r, x) && Intersects(w, r, x) && accept(See(Get(w, x)))
  {
    CandidatesAre(w, r);
    var ids, c := Candidates(w, r), RootPath(w, r);
    var lo: int, hi: int :| Ascending(w, c, ids, lo, hi);
    HitsAscend(w, r, c, ids, lo, hi);
    AcceptedAscend(w, c, Hits(w, r, ids), accept, lo, hi);
    HitsMembers(w, r, ids);
    AcceptedMembers(w, Hits(w, r, ids), accept);
    forall i, j | 0 <= i < j < |nodes| ensures Precedes(w, nodes[i], nodes[j]) {
      CmpIsPos(w, Where(w, nodes[i]), 0, Where(w, nodes[j]), 0);
    }
  }
}

/** What selectNode and selectNodeContents select. */
module Selecting {
  import opened Tree
  import opened Navigation
  import opened Ranges
  import opened RangeIterators
  import opened DomRange

  lemma SameContainer(w: Node, r: RangeState)
    requires Distinct(w) && ValidRange(w, r) && r.startContainer == r.endContainer
    ensures RootPath(w, r) == Where(w, r.startContainer) && Root(w, r) == Get(w, r.startContainer)
    ensures StartBelow(w, r) == EndBelow(w, r) == []
  {
    var p := Where(w, r.startContainer);
    PrefixCommon(p, p, p);
    assert p[|p|..] == [];
  }

  /** After selectNode the content of the range is the node, whole and alone. */
  lemma NodeSelected(w: Node, s: RangeState, n: Id, t: RangeState)
    requires Distinct(w) && ValidRange(w, t) && Placed(w, n) && !IsRootType(Get(w, n))
    requires Becomes(w, s, SelectNode(n), t)
    ensures Content(w, t) == [Get(w, n)]
  {
    var p := Where(w, n);
    ParentAt(w, p);
    AtPrefix(w, p, |p| - 1);
    WhereAt(w, Front(p));
    assert p == Front(p) + [Last(p)];
    AtAppend(w, Front(p), [Last(p)]);
    SameContainer(w, t);
    assert [] + Root(w, t).kids[Last(p)..Last(p) + 1] + [] == [Get(w, n)];
  }

  /** After selectNodeContents it is what is in the node: its children, or its text if there is any. */
  lemma ContentsSelected(w: Node, s: RangeState, n: Id, t: RangeState)
    requires Distinct(w) && ValidRange(w, t) && IsNode(w, n)
    requires Becomes(w, s, SelectNodeContents(n), t)
    ensures Get(w, n).Elem? ==> Content(w, t) == Get(w, n).kids
    ensures Get(w, n).Text? ==> Content(w, t) == if Get(w, n).data == "" then [] else [Get(w, n)]
  {
    SameContainer(w, t);
    if Get(w, n).Elem? {
      var ks := Get(w, n).kids;
      assert [] + ks[0..|ks|] + [] == ks;
    } else {
      var d := Get(w, n).data;
      assert d[0..|d|] == d;
    }
  }
}

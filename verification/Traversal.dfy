/** What a callback sees of a node, and the iterator that walks one subtree in document order. */
module Traversal {
  import opened Wrappers
  import opened Tree
  import opened Navigation

  /** A visit to a node: which node, and the text it showed if it was a text node.  A partially
      selected text node may be visited as a shortened copy; the copy keeps the identity here. */
  datatype Seen = Seen(id: Id, text: Option<string>)

  function See(n: Node): Seen {
    Seen(n.id, if n.Text? then Some(n.data) else None)
  }

  /** A visit to every node of a forest in document order. */
  function Seens(ks: seq<Node>): seq<Seen> {
    if ks == [] then []
    else [See(ks[0])] + (if ks[0].Elem? then Seens(ks[0].kids) else []) + Seens(ks[1..])
  }

  lemma {:induction false} SeensConcat(a: seq<Node>, b: seq<Node>)
    ensures Seens(a + b) == Seens(a) + Seens(b)
  {
    if a == [] {
      assert a + b == b;
    } else {
      assert (a + b)[1..] == a[1..] + b;
      SeensConcat(a[1..], b);
    }
  }

  lemma SeensElem(n: Node)
    requires n.Elem?
    ensures Seens([n]) == [See(n)] + Seens(n.kids)
  {
    assert [n][1..] == [];
  }

  /** The texts of the visited text nodes, joined. */
  function Texts(vs: seq<Seen>): string {
    if vs == [] then ""
    else (if vs[0].text.Some? then vs[0].text.value else "") + Texts(vs[1..])
  }

  lemma {:induction false} TextsConcat(a: seq<Seen>, b: seq<Seen>)
    ensures Texts(a + b) == Texts(a) + Texts(b)
  {
    if a == [] {
      assert a + b == b;
    } else {
      assert (a + b)[1..] == a[1..] + b;
      TextsConcat(a[1..], b);
    }
  }

  lemma {:induction false} TextsOfSeens(ks: seq<Node>)
    ensures Texts(Seens(ks)) == Flat(ks)
  {
    if ks != [] {
      var inner := if ks[0].Elem? then Seens(ks[0].kids) else [];
      if ks[0].Elem? {
        TextsOfSeens(ks[0].kids);
      }
      TextsOfSeens(ks[1..]);
      TextsConcat([See(ks[0])] + inner, Seens(ks[1..]));
      TextsConcat([See(ks[0])], inner);
    }
  }

  /** Visits to the nodes of a world as they stand. */
  function Live(w: Node, ids: seq<Id>): seq<Seen> {
    seq(|ids|, i requires 0 <= i < |ids| => if IsNode(w, ids[i]) then See(Get(w, ids[i])) else Seen(ids[i], None))
  }

  lemma LiveConcat(w: Node, a: seq<Id>, b: seq<Id>)
    ensures Live(w, a + b) == Live(w, a) + Live(w, b)
  {
  }

  lemma LiveOne(w: Node, c: Path)
    requires Distinct(w) && c != [] && HasPath(w, c)
    ensures Live(w, [At(w, c).id]) == [See(At(w, c))]
  {
    WhereAt(w, c);
  }

  /** Walking a subtree of the world shows its nodes as they stand. */
  lemma {:induction false} SeensLive(w: Node, c: Path, i: nat)
    requires Distinct(w) && c != [] && HasPath(w, c) && At(w, c).Elem? && i <= |At(w, c).kids|
    ensures Seens(At(w, c).kids[i..]) == Live(w, Pre(At(w, c).kids[i..]))
    decreases At(w, c).kids[i..]
  {
    var ks := At(w, c).kids[i..];
    if ks != [] {
      KidAt(w, c, i);
      assert ks[1..] == At(w, c).kids[i + 1..];
      if ks[0].Elem? {
        SeensLive(w, c + [i], 0);
        assert ks[0].kids[0..] == ks[0].kids;
      }
      SeensLive(w, c, i + 1);
      LiveOne(w, c + [i]);
      hide Live;
      var inner := if ks[0].Elem? then Pre(ks[0].kids) else [];
      LiveConcat(w, [ks[0].id] + inner, Pre(ks[1..]));
      LiveConcat(w, [ks[0].id], inner);
    }
  }

  lemma SeensLiveAt(w: Node, c: Path)
    requires Distinct(w) && c != [] && HasPath(w, c)
    ensures Seens([At(w, c)]) == Live(w, Pre([At(w, c)]))
  {
    var n := At(w, c);
    LiveOne(w, c);
    hide Live;
    assert [n][1..] == [];
    if n.Elem? {
      SeensLive(w, c, 0);
      assert n.kids[0..] == n.kids;
      LiveConcat(w, [n.id], Pre(n.kids));
    }
  }

  // ----- the node iterator -----

  /** What follows a subtree at a path within the ancestor at depth `d`: its later siblings, then what
      follows its parent. */
  function After(w: Node, p: Path, d: nat): seq<Seen>
    requires HasPath(w, p) && d <= |p|
    decreases |p|
  {
    if |p| == d then []
    else
      AtPrefix(w, p, |p| - 1);
      Seens(At(w, Front(p)).kids[Last(p) + 1..]) + After(w, Front(p), d)
  }

  /** The rest of a walk, at depth `d` or below, that has arrived at a path. */
  function Rest(w: Node, p: Path, d: nat): seq<Seen>
    requires HasPath(w, p) && d <= |p|
  {
    Seens([At(w, p)]) + After(w, p, d)
  }

  lemma RestKid(w: Node, p: Path, i: nat, d: nat)
    requires HasPath(w, p) && At(w, p).Elem? && i < |At(w, p).kids| && d <= |p|
    ensures HasPath(w, p + [i]) && At(w, p + [i]) == At(w, p).kids[i]
    ensures Rest(w, p + [i], d) == Seens(At(w, p).kids[i..]) + After(w, p, d)
  {
    hide Seens;
    var ks := At(w, p).kids;
    AtAppend(w, p, [i]);
    SeensConcat([ks[i]], ks[i + 1..]);
    assert ks[i..] == [ks[i]] + ks[i + 1..];
    assert Front(p + [i]) == p;
  }

  class NodeIterator {
    const root: Id
    var current: Option<Id>
    var next: Option<Id>

    constructor (root: Id)
      ensures this.root == root && next == Some(root) && current == None
    {
      this.root := root;
      current, next := None, Some(root);
    }

    ghost predicate Valid(w: Node)
      reads this
    {
      && Distinct(w) && IsNode(w, root)
      && (next.Some? ==> IsNode(w, next.value) && Where(w, root) <= Where(w, next.value))
    }

    /** The visits still to come. */
    ghost function Remaining(w: Node): seq<Seen>
      requires Valid(w)
      reads this
    {
      if next.None? then [] else Rest(w, Where(w, next.value), |Where(w, root)|)
    }

    method Next(w: Node) returns (r: Option<Id>)
      requires Valid(w)
      modifies this`current, this`next
      ensures Valid(w) && r == current == old(next)
      ensures r.Some? ==> IsNode(w, r.value)
      ensures old(Remaining(w)) == if r.None? then [] else [See(Get(w, r.value))] + Remaining(w)
    {
      r := next;
      current := next;
      if r.Some? {
        ghost var p := Where(w, r.value);
        var child := FirstChild(w, r.value);
        if child.Some? {
          next := child;
          KidAt(w, p, 0);
          RestKid(w, p, 0, |Where(w, root)|);
          assert At(w, p).kids[0..] == At(w, p).kids;
          SeensElem(At(w, p));
        } else {
          next := Climb(w, r.value);
          SeensLeaf(At(w, p));
        }
      }
    }

    /** From a finished node up to the next ancestor-or-self that has a following sibling. */
    method Climb(w: Node, start: Id) returns (next: Option<Id>)
      requires Distinct(w) && IsNode(w, root) && IsNode(w, start) && Where(w, root) <= Where(w, start)
      ensures next.Some? ==> IsNode(w, next.value) && Where(w, root) <= Where(w, next.value)
      ensures After(w, Where(w, start), |Where(w, root)|)
        == if next.None? then [] else Rest(w, Where(w, next.value), |Where(w, root)|)
    {
      hide Seens;
      ghost var c, d := Where(w, root), |Where(w, root)|;
      var n := start;
      next := None;
      if n != root {
        BelowRoot(w, root, n);
        FromParent(w, n, d);
        next := NextSibling(w, n);
      }
      while n != root && next.None?
        invariant IsNode(w, n) && c <= Where(w, n)
        invariant After(w, Where(w, n), d) == After(w, Where(w, start), d)
        invariant n == root ==> next == None
        invariant n != root ==> d < |Where(w, n)| && next == NextSibling(w, n)
        decreases |Where(w, n)|
      {
        FromParent(w, n, d);
        assert c <= Front(Where(w, n));
        n := ParentNode(w, n).value;
        if n != root {
          BelowRoot(w, root, n);
          FromParent(w, n, d);
          next := NextSibling(w, n);
        }
      }
      if n != root {
        FromParent(w, n, d);
        assert c <= Front(Where(w, n));
      }
    }
  }

  lemma SeensLeaf(n: Node)
    requires n.Text? || n.kids == []
    ensures Seens([n]) == [See(n)]
  {
    assert [n][1..] == [];
  }

  lemma BelowRoot(w: Node, root: Id, id: Id)
    requires Distinct(w) && IsNode(w, root) && IsNode(w, id) && Where(w, root) <= Where(w, id) && root != id
    ensures |Where(w, root)| < |Where(w, id)|
  {
    assert Where(w, root) != Where(w, id);
  }

  /** One step of the climb: to the next sibling, or up to the parent when there is none. */
  lemma FromParent(w: Node, id: Id, d: nat)
    requires Distinct(w) && IsNode(w, id) && 0 < d < |Where(w, id)|
    ensures NextSibling(w, id).None? ==> ParentNode(w, id).Some?
    ensures NextSibling(w, id).None? ==> var m := ParentNode(w, id).value;
      IsNode(w, m) && Where(w, m) == Front(Where(w, id)) && After(w, Where(w, id), d) == After(w, Where(w, m), d)
    ensures NextSibling(w, id).Some? ==> var m := NextSibling(w, id).value;
      IsNode(w, m) && Front(Where(w, m)) == Front(Where(w, id)) && d < |Where(w, m)|
      && After(w, Where(w, id), d) == Rest(w, Where(w, m), d)
  {
    hide Seens;
    var q := Where(w, id);
    var f, i := Front(q), Last(q);
    assert q == f + [i];
    AtPrefix(w, q, |f|);
    assert q[..|f|] == f;
    ParentAt(w, q);
    WhereAt(w, f);
    AtAppend(w, f, [i]);
    var ks := At(w, f).kids;
    if i + 1 < |ks| {
      KidAt(w, f, i + 1);
      RestKid(w, f, i + 1, d);
      assert Front(f + [i + 1]) == f;
    } else {
      assert ks[i + 1..] == [];
      NoSeens();
    }
  }

  lemma NoSeens()
    ensures Seens([]) == []
  {
  }

  /** Before its first step an iterator has the whole subtree to visit. */
  lemma BeforeAll(w: Node, it: NodeIterator)
    requires Distinct(w) && IsNode(w, it.root) && it.next == Some(it.root)
    ensures it.Valid(w) && it.Remaining(w) == Seens([Get(w, it.root)])
  {
    hide Seens;
  }

  /** The loop that visits every node of a wholly selected subtree. */
  method IterateNode(w: Node, node: Id) returns (visited: seq<Seen>)
    requires Distinct(w) && IsNode(w, node)
    ensures visited == Seens([Get(w, node)])
  {
    hide *;
    visited := [];
    var it := new NodeIterator(node);
    ghost var all := Seens([Get(w, node)]);
    BeforeAll(w, it);
    var n := it.Next(w);
    while n.Some?
      invariant it.Valid(w) && fresh(it)
      invariant n.Some? ==> IsNode(w, n.value)
      invariant all == visited + if n.None? then [] else [See(Get(w, n.value))] + it.Remaining(w)
      decreases |all| - |visited| + if n.None? then 0 else 1
    {
      visited := visited + [See(Get(w, n.value))];
      n := it.Next(w);
    }
  }
}

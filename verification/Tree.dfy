/** The document tree the range code works on: elements and text nodes, each with an identity.

    A node reference of the program is a node's `id`.  All trees that exist at one time hang below
    one virtual node, the world; a child of the world is a document or a detached tree, and has no
    parent as far as the program can see.  A path is the list of child indices that leads from a
    node to one of its descendants. */
module Tree {
  import opened Wrappers

  type Id = nat
  type Path = seq<nat>

  /** What the formatting code looks at in an element: its lower-case tag name and its class tokens. */
  datatype Tag = Tag(name: string, classes: seq<string>)

  datatype Node =
    | Text(id: Id, data: string)
    | Elem(id: Id, tag: Tag, kids: seq<Node>)

  /** getNodeLength */
  function Len(n: Node): nat {
    if n.Text? then |n.data| else |n.kids|
  }

  // ----- measures of a forest -----

  /** How often a node occurs in a forest. */
  function Count(ks: seq<Node>, id: Id): nat {
    if ks == [] then 0
    else (if ks[0].id == id then 1 else 0) + (if ks[0].Elem? then Count(ks[0].kids, id) else 0) + Count(ks[1..], id)
  }

  /** The identities in document order. */
  function Pre(ks: seq<Node>): seq<Id> {
    if ks == [] then []
    else [ks[0].id] + (if ks[0].Elem? then Pre(ks[0].kids) else []) + Pre(ks[1..])
  }

  /** The text of a forest. */
  function Flat(ks: seq<Node>): string {
    if ks == [] then ""
    else (if ks[0].Elem? then Flat(ks[0].kids) else ks[0].data) + Flat(ks[1..])
  }

  /** The number of tags and characters in a forest; a text node has an opening and a closing tag too. */
  function Width(ks: seq<Node>): nat {
    if ks == [] then 0
    else 2 + (if ks[0].Elem? then Width(ks[0].kids) else |ks[0].data|) + Width(ks[1..])
  }

  lemma {:induction false} CountConcat(a: seq<Node>, b: seq<Node>, id: Id)
    ensures Count(a + b, id) == Count(a, id) + Count(b, id)
  {
    if a == [] {
      assert a + b == b;
    } else {
      assert (a + b)[1..] == a[1..] + b;
      CountConcat(a[1..], b, id);
    }
  }

  lemma {:induction false} PreConcat(a: seq<Node>, b: seq<Node>)
    ensures Pre(a + b) == Pre(a) + Pre(b)
  {
    if a == [] {
      assert a + b == b;
    } else {
      assert (a + b)[1..] == a[1..] + b;
      PreConcat(a[1..], b);
    }
  }

  lemma {:induction false} FlatConcat(a: seq<Node>, b: seq<Node>)
    ensures Flat(a + b) == Flat(a) + Flat(b)
  {
    if a == [] {
      assert a + b == b;
    } else {
      assert (a + b)[1..] == a[1..] + b;
      FlatConcat(a[1..], b);
    }
  }

  lemma {:induction false} WidthConcat(a: seq<Node>, b: seq<Node>)
    ensures Width(a + b) == Width(a) + Width(b)
  {
    if a == [] {
      assert a + b == b;
    } else {
      assert (a + b)[1..] == a[1..] + b;
      WidthConcat(a[1..], b);
    }
  }

  lemma SeqSplit<T>(s: seq<T>, i: nat)
    requires i < |s|
    ensures s == s[..i] + [s[i]] + s[i + 1..]
  {
  }

  /** Cutting a forest at one of its trees. */
  lemma CountSplit(ks: seq<Node>, i: nat, id: Id)
    requires i < |ks|
    ensures Count(ks, id) == Count(ks[..i], id) + Count([ks[i]], id) + Count(ks[i + 1..], id)
  {
    hide Count;
    SeqSplit(ks, i);
    CountConcat(ks[..i] + [ks[i]], ks[i + 1..], id);
    CountConcat(ks[..i], [ks[i]], id);
  }

  lemma PreSplit(ks: seq<Node>, i: nat)
    requires i < |ks|
    ensures Pre(ks) == Pre(ks[..i]) + Pre([ks[i]]) + Pre(ks[i + 1..])
  {
    hide Pre;
    SeqSplit(ks, i);
    PreConcat(ks[..i] + [ks[i]], ks[i + 1..]);
    PreConcat(ks[..i], [ks[i]]);
  }

  lemma FlatSplit(ks: seq<Node>, i: nat)
    requires i < |ks|
    ensures Flat(ks) == Flat(ks[..i]) + Flat([ks[i]]) + Flat(ks[i + 1..])
  {
    hide Flat;
    SeqSplit(ks, i);
    FlatConcat(ks[..i] + [ks[i]], ks[i + 1..]);
    FlatConcat(ks[..i], [ks[i]]);
  }

  lemma WidthSplit(ks: seq<Node>, i: nat)
    requires i < |ks|
    ensures Width(ks) == Width(ks[..i]) + Width([ks[i]]) + Width(ks[i + 1..])
  {
    hide Width;
    SeqSplit(ks, i);
    WidthConcat(ks[..i] + [ks[i]], ks[i + 1..]);
    WidthConcat(ks[..i], [ks[i]]);
  }

  /** The forest with the identities forgotten. */
  function Shape(ks: seq<Node>): seq<Node> {
    if ks == [] then []
    else [if ks[0].Elem? then Elem(0, ks[0].tag, Shape(ks[0].kids)) else Text(0, ks[0].data)] + Shape(ks[1..])
  }

  lemma {:induction false} ShapeConcat(a: seq<Node>, b: seq<Node>)
    ensures Shape(a + b) == Shape(a) + Shape(b)
  {
    if a == [] {
      assert a + b == b;
    } else {
      assert (a + b)[1..] == a[1..] + b;
      ShapeConcat(a[1..], b);
    }
  }

  /** Forests of one shape have one text. */
  lemma {:induction false} ShapeFlat(ks: seq<Node>)
    ensures Flat(Shape(ks)) == Flat(ks)
  {
    if ks != [] {
      if ks[0].Elem? {
        ShapeFlat(ks[0].kids);
      }
      ShapeFlat(ks[1..]);
    }
  }

  // ----- paths -----

  predicate HasPath(n: Node, p: Path) {
    p == [] || (n.Elem? && p[0] < |n.kids| && HasPath(n.kids[p[0]], p[1..]))
  }

  function At(n: Node, p: Path): Node
    requires HasPath(n, p)
  {
    if p == [] then n else At(n.kids[p[0]], p[1..])
  }

  /** The tree with the subtree at a path replaced. */
  function Put(n: Node, p: Path, x: Node): Node
    requires HasPath(n, p)
  {
    if p == [] then x else n.(kids := n.kids[p[0] := Put(n.kids[p[0]], p[1..], x)])
  }

  lemma {:induction false} AtAppend(n: Node, p: Path, q: Path)
    requires HasPath(n, p)
    ensures HasPath(n, p + q) <==> HasPath(At(n, p), q)
    ensures HasPath(n, p + q) ==> At(n, p + q) == At(At(n, p), q)
  {
    if p == [] {
      assert p + q == q;
    } else {
      assert (p + q)[1..] == p[1..] + q;
      AtAppend(n.kids[p[0]], p[1..], q);
    }
  }

  /** A prefix of a path is a path. */
  lemma AtPrefix(n: Node, p: Path, k: nat)
    requires HasPath(n, p) && k <= |p|
    ensures HasPath(n, p[..k]) && HasPath(At(n, p[..k]), p[k..])
    ensures At(n, p) == At(At(n, p[..k]), p[k..])
    decreases k
  {
    if k > 0 {
      assert p[..k][1..] == p[1..][..k - 1];
      AtPrefix(n.kids[p[0]], p[1..], k - 1);
      assert p[k..] == p[1..][k - 1..];
    } else {
      assert p[..0] == [] && p[0..] == p;
    }
  }

  lemma {:induction false} PutAppend(n: Node, p: Path, q: Path, x: Node)
    requires HasPath(n, p) && HasPath(At(n, p), q)
    ensures HasPath(n, p + q)
    ensures Put(n, p + q, x) == Put(n, p, Put(At(n, p), q, x))
  {
    AtAppend(n, p, q);
    if p == [] {
      assert p + q == q;
    } else {
      assert (p + q)[1..] == p[1..] + q;
      PutAppend(n.kids[p[0]], p[1..], q, x);
    }
  }

  lemma {:induction false} AtPut(n: Node, p: Path, x: Node)
    requires HasPath(n, p)
    ensures HasPath(Put(n, p, x), p) && At(Put(n, p, x), p) == x
  {
    if p != [] {
      AtPut(n.kids[p[0]], p[1..], x);
    }
  }

  lemma {:induction false} PutPut(n: Node, p: Path, x: Node, y: Node)
    requires HasPath(n, p)
    ensures HasPath(Put(n, p, x), p) && Put(Put(n, p, x), p, y) == Put(n, p, y)
  {
    AtPut(n, p, x);
    if p != [] {
      PutPut(n.kids[p[0]], p[1..], x, y);
    }
  }

  lemma {:induction false} PutSame(n: Node, p: Path)
    requires HasPath(n, p)
    ensures Put(n, p, At(n, p)) == n
  {
    if p != [] {
      PutSame(n.kids[p[0]], p[1..]);
    }
  }

  lemma {:induction false} CountPut(n: Node, p: Path, x: Node, id: Id)
    requires HasPath(n, p)
    ensures Count([Put(n, p, x)], id) + Count([At(n, p)], id) == Count([n], id) + Count([x], id)
  {
    if p != [] {
      var k := Put(n.kids[p[0]], p[1..], x);
      CountPut(n.kids[p[0]], p[1..], x, id);
      CountUpdate(n.kids, p[0], k, id);
      CountElem(n, id);
      CountElem(Put(n, p, x), id);
    }
  }

  lemma CountElem(n: Node, id: Id)
    requires n.Elem?
    ensures Count([n], id) == (if n.id == id then 1 else 0) + Count(n.kids, id)
  {
  }

  lemma CountUpdate(ks: seq<Node>, i: nat, k: Node, id: Id)
    requires i < |ks|
    ensures Count(ks[i := k], id) + Count([ks[i]], id) == Count(ks, id) + Count([k], id)
  {
    CountSplit(ks, i, id);
    var ls := ks[i := k];
    CountSplit(ls, i, id);
    assert ls[..i] == ks[..i] && ls[i + 1..] == ks[i + 1..];
  }

  // ----- identity -----

  /** No two nodes of the tree are the same node. */
  ghost predicate Distinct(n: Node) {
    forall id :: Count([n], id) <= 1
  }

  /** A node at a path occurs in the tree, at least as often as in the subtree there. */
  lemma {:induction false} CountAt(n: Node, p: Path, id: Id)
    requires HasPath(n, p)
    ensures Count([At(n, p)], id) <= Count([n], id)
    ensures At(n, p).id == id ==> Count([n], id) >= 1
  {
    if p != [] {
      CountAt(n.kids[p[0]], p[1..], id);
      CountSplit(n.kids, p[0], id);
      CountElem(n, id);
    }
  }

  /** Two paths to one node are the same path. */
  lemma {:induction false} PathUnique(n: Node, p: Path, q: Path)
    requires Distinct(n) && HasPath(n, p) && HasPath(n, q)
    requires At(n, p).id == At(n, q).id
    ensures p == q
  {
    var id := At(n, p).id;
    if p == [] && q == [] {
    } else if p == [] {
      IdBelow(n, q);
      assert false;
    } else if q == [] {
      IdBelow(n, p);
      assert false;
    } else if p[0] == q[0] {
      DistinctKid(n, p[0]);
      PathUnique(n.kids[p[0]], p[1..], q[1..]);
      assert p == [p[0]] + p[1..] && q == [q[0]] + q[1..];
    } else {
      CountAt(n.kids[p[0]], p[1..], id);
      CountAt(n.kids[q[0]], q[1..], id);
      KidsDisjoint(n, p[0], q[0], id);
    }
  }

  lemma IdBelow(n: Node, p: Path)
    requires Distinct(n) && HasPath(n, p) && p != []
    ensures At(n, p).id != n.id
  {
    var id := At(n, p).id;
    CountAt(n.kids[p[0]], p[1..], id);
    CountSplit(n.kids, p[0], id);
    CountElem(n, id);
  }

  lemma DistinctKid(n: Node, i: nat)
    requires Distinct(n) && n.Elem? && i < |n.kids|
    ensures Distinct(n.kids[i])
  {
    forall id ensures Count([n.kids[i]], id) <= 1 {
      CountAt(n, [i], id);
    }
  }

  lemma DistinctAt(n: Node, p: Path)
    requires Distinct(n) && HasPath(n, p)
    ensures Distinct(At(n, p))
  {
    forall id ensures Count([At(n, p)], id) <= 1 {
      CountAt(n, p, id);
    }
  }

  lemma KidsDisjoint(n: Node, i: nat, j: nat, id: Id)
    requires Distinct(n) && n.Elem? && i < |n.kids| && j < |n.kids| && i != j
    ensures Count([n.kids[i]], id) == 0 || Count([n.kids[j]], id) == 0
  {
    if i > j {
      KidsDisjoint(n, j, i, id);
    } else {
      CountSplit(n.kids, i, id);
      CountSplit(n.kids[i + 1..], j - i - 1, id);
      CountElem(n, id);
      assert Count([n], id) <= 1;
    }
  }

  /** Where a node is, if it is in the tree at all. */
  function Find(n: Node, id: Id): (r: Option<Path>)
    ensures r.Some? ==> HasPath(n, r.value) && At(n, r.value).id == id
  {
    if n.id == id then Some([])
    else if n.Text? then None
    else match FindIn(n.kids, id)
      case None => None
      case Some(p) => Some(p)
  }

  function FindIn(ks: seq<Node>, id: Id): (r: Option<Path>)
    ensures r.Some? ==> r.value != [] && r.value[0] < |ks| && HasPath(ks[r.value[0]], r.value[1..])
                        && At(ks[r.value[0]], r.value[1..]).id == id
  {
    if ks == [] then None
    else match Find(ks[0], id)
      case Some(p) => Some([0] + p)
      case None =>
        match FindIn(ks[1..], id)
        case None => None
        case Some(p) => Some([p[0] + 1] + p[1..])
  }

  lemma {:induction false} FindComplete(n: Node, p: Path)
    requires HasPath(n, p)
    ensures Find(n, At(n, p).id).Some?
  {
    if p != [] && n.id != At(n, p).id {
      FindInComplete(n.kids, p[0], p[1..]);
    }
  }

  lemma {:induction false} FindInComplete(ks: seq<Node>, i: nat, p: Path)
    requires i < |ks| && HasPath(ks[i], p)
    ensures FindIn(ks, At(ks[i], p).id).Some?
  {
    if i == 0 {
      FindComplete(ks[0], p);
    } else {
      FindInComplete(ks[1..], i - 1, p);
    }
  }

  /** In a tree without repeated nodes, looking a node up undoes following a path to it. */
  lemma FindAt(n: Node, p: Path)
    requires Distinct(n) && HasPath(n, p)
    ensures Find(n, At(n, p).id) == Some(p)
  {
    FindComplete(n, p);
    PathUnique(n, p, Find(n, At(n, p).id).value);
  }
}

/** The live document: the world of trees as a field that edits replace, and the browser's edit operations. */
module Documents {
  import opened Tree
  import opened Navigation

  /** The children of an element with the child at one index replaced by some nodes. */
  function Splice(n: Node, i: nat, xs: seq<Node>): Node
    requires n.Elem? && i < |n.kids|
  {
    n.(kids := n.kids[..i] + xs + n.kids[i + 1..])
  }

  /** The world with a node replaced by some nodes in its parent. */
  function Replaced(w: Node, id: Id, xs: seq<Node>): Node
    requires IsNode(w, id)
  {
    var p := Where(w, id);
    AtPrefix(w, p, |p| - 1);
    Put(w, Front(p), Splice(At(w, Front(p)), Last(p), xs))
  }

  /** Replacing a node below some path is replacing it in the subtree there. */
  lemma ReplacedBelow(w: Node, c: Path, i: nat, xs: seq<Node>)
    requires Distinct(w) && HasPath(w, c) && At(w, c).Elem? && i < |At(w, c).kids|
    ensures IsNode(w, At(w, c).kids[i].id) && Where(w, At(w, c).kids[i].id) == c + [i]
    ensures Replaced(w, At(w, c).kids[i].id, xs) == Put(w, c, Splice(At(w, c), i, xs))
  {
    AtAppend(w, c, [i]);
    WhereAt(w, c + [i]);
    assert Front(c + [i]) == c;
  }

  /** Replacing a node by another, seen from above. */
  lemma ReplacedOne(w: Node, id: Id, x: Node)
    requires IsNode(w, id)
    ensures Replaced(w, id, [x]) == Put(w, Where(w, id), x)
  {
    var p := Where(w, id);
    AtPrefix(w, p, |p| - 1);
    var n, i := At(w, Front(p)), Last(p);
    assert p == Front(p) + [i];
    PutAppend(w, Front(p), [i], x);
    assert Put(n, [i], x) == n.(kids := n.kids[i := x]);
    assert n.kids[i := x] == n.kids[..i] + [x] + n.kids[i + 1..];
  }

  lemma CountReplaced(w: Node, id: Id, xs: seq<Node>, x: Id)
    requires IsNode(w, id)
    ensures Count([Replaced(w, id, xs)], x) + Count([Get(w, id)], x) == Count([w], x) + Count(xs, x)
  {
    var p := Where(w, id);
    AtPrefix(w, p, |p| - 1);
    var n, i := At(w, Front(p)), Last(p);
    CountPut(w, Front(p), Splice(n, i, xs), x);
    CountSplice(n, i, xs, x);
  }

  lemma CountSplice(n: Node, i: nat, xs: seq<Node>, x: Id)
    requires n.Elem? && i < |n.kids|
    ensures Count([Splice(n, i, xs)], x) + Count([n.kids[i]], x) == Count([n], x) + Count(xs, x)
  {
    hide Count;
    CountSplit(n.kids, i, x);
    CountConcat(n.kids[..i] + xs, n.kids[i + 1..], x);
    CountConcat(n.kids[..i], xs, x);
    CountElem(n, x);
    CountElem(Splice(n, i, xs), x);
  }

  /** Nodes that could be added to a document as they are: each is new there, and occurs once. */
  ghost predicate Loose(w: Node, nextId: Id, ks: seq<Node>) {
    forall x: Id :: (Count(ks, x) <= 1) && (Count(ks, x) == 1 ==> Count([w], x) == 0 && x < nextId)
  }

  // ----- taking a node out -----

  /** Where a node is found when another one has been taken out. */
  lemma {:induction false} Around(n: Node, f: Path, j: nat, q: Path) returns (r: Path)
    requires HasPath(n, f) && At(n, f).Elem? && j < |At(n, f).kids| && HasPath(n, q) && !(f + [j] <= q)
    ensures var v := Put(n, f, Splice(At(n, f), j, []));
      HasPath(v, r) && At(v, r).id == At(n, q).id && At(v, r).Elem? == At(n, q).Elem? && (q != [] ==> r != [])
  {
    if q == [] {
      r := [];
    } else if f == [] {
      assert f + [j] == [j];
      assert q == [q[0]] + q[1..];
      r := [if q[0] < j then q[0] else q[0] - 1] + q[1..];
      assert r[1..] == q[1..];
      assert Splice(n, j, []).kids[r[0]] == n.kids[q[0]];
    } else if q[0] == f[0] {
      assert f + [j] == [f[0]] + (f[1..] + [j]) && q == [q[0]] + q[1..];
      var z := Around(n.kids[f[0]], f[1..], j, q[1..]);
      r := [q[0]] + z;
      assert r[1..] == z;
    } else {
      r := q;
    }
  }

  /** A node that is not taken out stays a node of its kind. */
  lemma TakenOut(w: Node, n: Id, x: Id)
    requires Distinct(w) && IsNode(w, n) && IsNode(w, x) && !(Where(w, n) <= Where(w, x))
    requires Distinct(Replaced(w, n, []))
    ensures IsNode(Replaced(w, n, []), x) && Get(Replaced(w, n, []), x).Elem? == Get(w, x).Elem?
  {
    var p := Where(w, n);
    AtPrefix(w, p, |p| - 1);
    assert p == Front(p) + [Last(p)];
    AtAppend(w, Front(p), [Last(p)]);
    var r := Around(w, Front(p), Last(p), Where(w, x));
    WhereAt(Replaced(w, n, []), r);
  }

  /** What is above a node is above its parent, or the node. */
  lemma AboveParent(w: Node, n: Id, x: Id)
    requires IsNode(w, n) && IsNode(w, x) && n != x && Where(w, n) <= Where(w, x)
    ensures Where(w, n) <= Front(Where(w, x))
  {
    var p, q := Where(w, n), Where(w, x);
    assert |p| == |q| ==> p == q;
  }

  lemma LooseThen(w: Node, n: Id, nextId: Id)
    requires Distinct(w) && IsNode(w, n) && forall x: Id :: x >= nextId ==> Count([w], x) == 0
    ensures Distinct(Replaced(w, n, [])) && forall x: Id :: x >= nextId ==> Count([Replaced(w, n, [])], x) == 0
    ensures Loose(Replaced(w, n, []), nextId, [Get(w, n)])
  {
    forall x: Id
      ensures Count([Replaced(w, n, [])], x) + Count([Get(w, n)], x) == Count([w], x) <= 1
      ensures x >= nextId ==> Count([w], x) == 0
    {
      CountReplaced(w, n, [], x);
    }
  }

  class Document {
    var world: Node
    var nextId: Id

    /** No node occurs twice, and identities are handed out in increasing order. */
    ghost predicate Valid()
      reads this
    {
      world.Elem? && Distinct(world) && forall id :: id >= nextId ==> Count([world], id) == 0
    }

    method FreshId() returns (id: Id)
      requires Valid()
      modifies this`nextId
      ensures Valid() && id == old(nextId) && nextId == id + 1
    {
      id := nextId;
      nextId := nextId + 1;
    }

    /** insertData, deleteData and assignments to data. */
    method SetData(id: Id, data: string)
      requires Valid() && IsNode(world, id) && Get(world, id).Text?
      modifies this`world
      ensures Valid()
      ensures world == Put(old(world), Where(old(world), id), Text(id, data))
    {
      ghost var w := world;
      world := Replaced(world, id, [Text(id, data)]);
      ReplacedOne(w, id, Text(id, data));
      forall x ensures Count([world], x) == Count([w], x) {
        CountReplaced(w, id, [Text(id, data)], x);
      }
    }

    /** removeChild on the parent of a node; a node without a parent stays where it is. */
    method Remove(id: Id)
      requires Valid() && IsNode(world, id)
      modifies this`world
      ensures Valid()
      ensures world == if ParentNode(old(world), id).Some? then Replaced(old(world), id, []) else old(world)
    {
      ghost var w := world;
      if ParentNode(world, id).Some? {
        world := Replaced(world, id, []);
        assert world.Elem? by { AtPut(w, [], w); }
        forall x ensures Count([world], x) <= Count([w], x) {
          CountReplaced(w, id, [], x);
        }
      }
    }

    // The calls that put new nodes in: one node, or the nodes of a fragment.

    /** insertAfter: directly behind an existing node. */
    method InsertAfter(ns: seq<Node>, id: Id)
      requires Valid() && IsNode(world, id) && Loose(world, nextId, ns)
      modifies this`world
      ensures Valid()
      ensures world == Replaced(old(world), id, [Get(old(world), id)] + ns)
    {
      ghost var w, g := world, Get(world, id);
      world := Replaced(world, id, [Get(world, id)] + ns);
      forall x ensures Count([world], x) == Count([w], x) + Count(ns, x) {
        CountReplaced(w, id, [g] + ns, x);
        CountConcat([g], ns, x);
      }
    }

    /** insertBefore: directly in front of an existing node. */
    method InsertBefore(ns: seq<Node>, id: Id)
      requires Valid() && IsNode(world, id) && Loose(world, nextId, ns)
      modifies this`world
      ensures Valid()
      ensures world == Replaced(old(world), id, ns + [Get(old(world), id)])
    {
      ghost var w, g := world, Get(world, id);
      world := Replaced(world, id, ns + [Get(world, id)]);
      forall x ensures Count([world], x) == Count([w], x) + Count(ns, x) {
        CountReplaced(w, id, ns + [g], x);
        CountConcat(ns, [g], x);
      }
    }

    /** appendChild */
    method AppendChild(ns: seq<Node>, parent: Id)
      requires Valid() && IsNode(world, parent) && Get(world, parent).Elem? && Loose(world, nextId, ns)
      modifies this`world
      ensures Valid()
      ensures world == Put(old(world), Where(old(world), parent),
        Get(old(world), parent).(kids := Get(old(world), parent).kids + ns))
    {
      ghost var w, g := world, Get(world, parent);
      var grown := Get(world, parent).(kids := Get(world, parent).kids + ns);
      world := Replaced(world, parent, [grown]);
      ReplacedOne(w, parent, grown);
      forall x ensures Count([world], x) == Count([w], x) + Count(ns, x) {
        CountReplaced(w, parent, [grown], x);
        CountConcat(g.kids, ns, x);
        CountElem(g, x);
        CountElem(grown, x);
      }
    }

    // The same calls with a node that is in a tree already: it is taken out first.  A node that would come
    // to stand below itself is refused (HierarchyRequestError).

    /** insertBefore on the parent of an existing node. */
    method MoveBefore(n: Id, id: Id) returns (ok: bool)
      requires Valid() && IsNode(world, n) && IsNode(world, id) && ParentNode(world, id).Some?
      modifies this`world
      ensures Valid()
      ensures ok <==> !(Where(old(world), n) <= Front(Where(old(world), id)))
      ensures !ok || n == id ==> world == old(world)
      ensures ok && n != id ==> IsNode(Replaced(old(world), n, []), id)
      ensures ok && n != id ==>
        var v := Replaced(old(world), n, []); world == Replaced(v, id, [Get(old(world), n), Get(v, id)])
    {
      ParentAt(world, Where(world, id));
      WhereAt(world, Front(Where(world, id)));
      var below := IsAncestorOf(world, n, ParentNode(world, id).value, true);
      if below {
        return false;
      }
      ok := true;
      if n != id {
        if Where(world, n) <= Where(world, id) {
          AboveParent(world, n, id);
        }
        LooseThen(world, n, nextId);
        TakenOut(world, n, id);
        var node := Get(world, n);
        world := Replaced(world, n, []);
        ghost var v := world;
        InsertBefore([node], id);
        assert [node] + [Get(v, id)] == [node, Get(v, id)];
      }
    }

    /** The program's insertAfter. */
    method MoveAfter(n: Id, id: Id) returns (ok: bool)
      requires Valid() && IsNode(world, n) && IsNode(world, id) && ParentNode(world, id).Some?
      modifies this`world
      ensures Valid()
      ensures ok <==> !(Where(old(world), n) <= Front(Where(old(world), id)))
      ensures !ok || n == id ==> world == old(world)
      ensures ok && n != id ==> IsNode(Replaced(old(world), n, []), id)
      ensures ok && n != id ==>
        var v := Replaced(old(world), n, []); world == Replaced(v, id, [Get(v, id), Get(old(world), n)])
    {
      ParentAt(world, Where(world, id));
      WhereAt(world, Front(Where(world, id)));
      var below := IsAncestorOf(world, n, ParentNode(world, id).value, true);
      if below {
        return false;
      }
      ok := true;
      if n != id {
        if Where(world, n) <= Where(world, id) {
          AboveParent(world, n, id);
        }
        LooseThen(world, n, nextId);
        TakenOut(world, n, id);
        var node := Get(world, n);
        world := Replaced(world, n, []);
        ghost var v := world;
        InsertAfter([node], id);
        assert [Get(v, id)] + [node] == [Get(v, id), node];
      }
    }

    /** appendChild */
    method MoveInto(n: Id, parent: Id) returns (ok: bool)
      requires Valid() && IsNode(world, n) && IsNode(world, parent) && Get(world, parent).Elem?
      modifies this`world
      ensures Valid()
      ensures ok <==> !(Where(old(world), n) <= Where(old(world), parent))
      ensures !ok ==> world == old(world)
      ensures ok ==> IsNode(Replaced(old(world), n, []), parent) && Get(Replaced(old(world), n, []), parent).Elem?
      ensures ok ==>
        var v := Replaced(old(world), n, []);
        world == Put(v, Where(v, parent), Get(v, parent).(kids := Get(v, parent).kids + [Get(old(world), n)]))
    {
      var below := IsAncestorOf(world, n, parent, true);
      if below {
        return false;
      }
      ok := true;
      LooseThen(world, n, nextId);
      TakenOut(world, n, parent);
      var node := Get(world, n);
      world := Replaced(world, n, []);
      AppendChild([node], parent);
    }

    /** An assignment to className. */
    method SetTag(id: Id, tag: Tag)
      requires Valid() && IsNode(world, id) && Get(world, id).Elem?
      modifies this`world
      ensures Valid()
      ensures world == Put(old(world), Where(old(world), id), Get(old(world), id).(tag := tag))
    {
      ghost var w, g := world, Get(world, id);
      var n := Get(world, id).(tag := tag);
      world := Replaced(world, id, [n]);
      ReplacedOne(w, id, n);
      forall x ensures Count([world], x) == Count([w], x) {
        CountReplaced(w, id, [n], x);
        CountElem(g, x);
        CountElem(n, x);
      }
    }

    /** An assignment of plain text to innerHTML: the children give way to one new text node. */
    method SetInnerText(id: Id, text: string)
      requires Valid() && IsNode(world, id) && Get(world, id).Elem?
      modifies this
      ensures Valid() && nextId == old(nextId) + 1
      ensures world == Put(old(world), Where(old(world), id), Get(old(world), id).(kids := [Text(old(nextId), text)]))
    {
      ghost var w, g := world, Get(world, id);
      var t := Text(nextId, text);
      var n := Get(world, id).(kids := [t]);
      world := Replaced(world, id, [n]);
      nextId := nextId + 1;
      ReplacedOne(w, id, n);
      assert [t][1..] == [];
      forall x: Id
        ensures Count([world], x) <= 1
        ensures x >= nextId ==> Count([world], x) == 0
      {
        CountReplaced(w, id, [n], x);
        CountElem(g, x);
        CountElem(n, x);
        assert Count([w], t.id) == 0;
      }
    }
  }
}

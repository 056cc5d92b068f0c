/** Which characters of a document stand under an element that an applier accepts. */
module Formatting {
  import opened Wrappers
  import opened Tree
  import opened Positions
  import opened Slices

  /** The settings of an HTMLApplier: tag names in lower case, the class, and which class tokens the
      regular expression for similar classes matches. */
  datatype Applier = Applier(tagNames: seq<string>, cssClass: string, similar: string -> bool)

  /** What the program expects of its settings: a tag name, and a regular expression that matches the class. */
  predicate WellSet(ap: Applier) {
    ap.tagNames != [] && (ap.cssClass == "" || ap.similar(ap.cssClass))
  }

  function LastSimilar(ap: Applier, classes: seq<string>): Option<string> {
    if classes == [] then None
    else if ap.similar(classes[|classes| - 1]) then Some(classes[|classes| - 1])
    else LastSimilar(ap, classes[..|classes| - 1])
  }

  /** hasClass: the last similar class is the wanted one. */
  predicate HasClass(ap: Applier, tag: Tag) {
    LastSimilar(ap, tag.classes) == Some(ap.cssClass)
  }

  function Dissimilar(ap: Applier, classes: seq<string>): seq<string> {
    if classes == [] then []
    else (if ap.similar(classes[0]) then [] else [classes[0]]) + Dissimilar(ap, classes[1..])
  }

  /** addClass: drops the similar classes and appends the wanted one. */
  function AddClass(ap: Applier, tag: Tag): Tag {
    tag.(classes := Dissimilar(ap, tag.classes) + [ap.cssClass])
  }

  /** The test getAncestorWithClass makes of an element. */
  predicate Accepts(ap: Applier, tag: Tag) {
    tag.name in ap.tagNames && (ap.cssClass == "" || HasClass(ap, tag))
  }

  /** createContainer */
  function ContainerTag(ap: Applier): Tag
    requires ap.tagNames != []
  {
    Tag(ap.tagNames[0], if ap.cssClass == "" then [] else [ap.cssClass])
  }

  lemma ContainerAccepted(ap: Applier)
    requires WellSet(ap)
    ensures Accepts(ap, ContainerTag(ap))
  {
  }

  /** Some elements of a sequence in their order, taken from the places f: all those a test accepts. */
  ghost predicate PickedAt<T>(s: seq<T>, keep: T -> bool, r: seq<T>, f: seq<nat>) {
    && |f| == |r| && (forall i, j :: 0 <= i < j < |f| ==> f[i] < f[j])
    && (forall k :: 0 <= k < |f| ==> f[k] < |s| && r[k] == s[f[k]])
    && (forall i :: 0 <= i < |s| ==> (keep(s[i]) <==> i in f))
  }

  ghost predicate Picked<T(!new)>(s: seq<T>, keep: T -> bool, r: seq<T>) {
    exists f :: PickedAt(s, keep, r, f)
  }

  /** The classes the regular expression does not match. */
  function Foreign(ap: Applier): string -> bool {
    (c: string) => !ap.similar(c)
  }

  lemma {:induction false} DissimilarPicks(ap: Applier, classes: seq<string>) returns (f: seq<nat>)
    ensures PickedAt(classes, Foreign(ap), Dissimilar(ap, classes), f)
  {
    if classes == [] {
      f := [];
    } else {
      var g := DissimilarPicks(ap, classes[1..]);
      f := PickedMore(classes, Foreign(ap), Dissimilar(ap, classes[1..]), g);
    }
  }

  lemma PickedMore<T>(s: seq<T>, keep: T -> bool, r: seq<T>, g: seq<nat>) returns (f: seq<nat>)
    requires s != [] && PickedAt(s[1..], keep, r, g)
    ensures PickedAt(s, keep, (if keep(s[0]) then [s[0]] else []) + r, f)
  {
    var h := NextPlaces(g);
    Shifted(s, keep, r, g, h);
    if keep(s[0]) {
      f := [0] + h;
      Prepended(s, keep, r, h);
    } else {
      f := h;
      assert [] + r == r;
    }
  }

  lemma Shifted<T>(s: seq<T>, keep: T -> bool, r: seq<T>, g: seq<nat>, h: seq<nat>)
    requires s != [] && PickedAt(s[1..], keep, r, g)
    requires |h| == |g| && forall k :: 0 <= k < |g| ==> h[k] == g[k] + 1
    requires forall i: nat :: i in h <==> i > 0 && i - 1 in g
    ensures |h| == |r| && (forall i, j :: 0 <= i < j < |h| ==> h[i] < h[j])
    ensures forall k :: 0 <= k < |h| ==> 0 < h[k] < |s| && r[k] == s[h[k]]
    ensures forall i :: 0 < i < |s| ==> (keep(s[i]) <==> i in h)
    ensures 0 !in h
  {
    forall i | 0 < i < |s| ensures keep(s[i]) <==> i in h {
      assert s[i] == s[1..][i - 1];
    }
  }

  lemma Prepended<T>(s: seq<T>, keep: T -> bool, r: seq<T>, h: seq<nat>)
    requires s != [] && keep(s[0])
    requires |h| == |r| && (forall i, j :: 0 <= i < j < |h| ==> h[i] < h[j])
    requires forall k :: 0 <= k < |h| ==> 0 < h[k] < |s| && r[k] == s[h[k]]
    requires forall i :: 0 < i < |s| ==> (keep(s[i]) <==> i in h)
    ensures PickedAt(s, keep, [s[0]] + r, [0] + h)
  {
    var f := [0] + h;
    forall i: nat | i < |s| ensures keep(s[i]) <==> i in f {
      FirstOrLater(h, i);
    }
    forall k | 0 <= k < |f| ensures f[k] < |s| && ([s[0]] + r)[k] == s[f[k]] {
      assert k > 0 ==> f[k] == h[k - 1];
    }
    StillAscending(h);
  }

  lemma StillAscending(h: seq<nat>)
    requires (forall i, j :: 0 <= i < j < |h| ==> h[i] < h[j]) && forall k :: 0 <= k < |h| ==> 0 < h[k]
    ensures forall i, j :: 0 <= i < j < |[0] + h| ==> ([0] + h)[i] < ([0] + h)[j]
  {
  }

  lemma FirstOrLater(h: seq<nat>, i: nat)
    ensures i in [0] + h <==> i == 0 || i in h
  {
    var f := [0] + h;
    if i in h {
      var k :| 0 <= k < |h| && h[k] == i;
      assert f[k + 1] == i;
    }
    assert f[0] == 0;
  }

  lemma NextPlaces(g: seq<nat>) returns (h: seq<nat>)
    ensures |h| == |g| && forall k :: 0 <= k < |g| ==> h[k] == g[k] + 1
    ensures forall i: nat :: i in h <==> i > 0 && i - 1 in g
  {
    h := seq(|g|, k requires 0 <= k < |g| => g[k] + 1);
    forall i: nat | i in h ensures i > 0 && i - 1 in g {
      var k :| 0 <= k < |h| && h[k] == i;
      assert g[k] == i - 1;
    }
    forall i: nat | i > 0 && i - 1 in g ensures i in h {
      var k :| 0 <= k < |g| && g[k] == i - 1;
      assert h[k] == i;
    }
  }

  /** What adding the class does to an element: the name and all dissimilar classes stay, in their order, and
      the wanted class comes last. */
  lemma AddClassKeeps(ap: Applier, tag: Tag)
    ensures var u := AddClass(ap, tag);
      && u.name == tag.name && u.classes != [] && u.classes[|u.classes| - 1] == ap.cssClass
      && Picked(tag.classes, Foreign(ap), u.classes[..|u.classes| - 1])
  {
    var f := DissimilarPicks(ap, tag.classes);
    assert AddClass(ap, tag).classes[..|AddClass(ap, tag).classes| - 1] == Dissimilar(ap, tag.classes);
  }

  /** An element has the class just when the class is on it and no similar one follows. */
  lemma {:induction false} HasClassExactly(ap: Applier, tag: Tag)
    ensures HasClass(ap, tag) <==> ap.similar(ap.cssClass) && exists i ::
        0 <= i < |tag.classes| && tag.classes[i] == ap.cssClass
        && forall j :: i < j < |tag.classes| ==> !ap.similar(tag.classes[j])
    decreases |tag.classes|
  {
    hide Dissimilar;
    var n := |tag.classes| - 1;
    if n >= 0 && !ap.similar(tag.classes[n]) {
      var t := tag.(classes := tag.classes[..n]);
      HasClassExactly(ap, t);
      if HasClass(ap, t) {
        var i :| 0 <= i < n && t.classes[i] == ap.cssClass && forall j :: i < j < n ==> !ap.similar(t.classes[j]);
        assert forall j :: i < j < n ==> tag.classes[j] == t.classes[j];
        assert tag.classes[i] == ap.cssClass;
      }
      if ap.similar(ap.cssClass) {
        forall i | 0 <= i < |tag.classes| && tag.classes[i] == ap.cssClass
                   && forall j :: i < j < |tag.classes| ==> !ap.similar(tag.classes[j])
          ensures HasClass(ap, t)
        {
          assert i < n && t.classes[i] == ap.cssClass;
        }
      }
    } else if n >= 0 {
      assert HasClass(ap, tag) <==> tag.classes[n] == ap.cssClass;
      if ap.similar(ap.cssClass) {
        forall i | 0 <= i < |tag.classes| && tag.classes[i] == ap.cssClass
                   && forall j :: i < j < |tag.classes| ==> !ap.similar(tag.classes[j])
          ensures i == n
        {
        }
      }
    }
  }

  lemma AcceptsExactly(ap: Applier, tag: Tag)
    ensures ap.cssClass == "" ==> (Accepts(ap, tag) <==> tag.name in ap.tagNames)
    ensures ap.cssClass != "" ==>
        (Accepts(ap, tag) <==> tag.name in ap.tagNames && ap.similar(ap.cssClass) && exists i ::
        0 <= i < |tag.classes| && tag.classes[i] == ap.cssClass
        && forall j :: i < j < |tag.classes| ==> !ap.similar(tag.classes[j]))
  {
    HasClassExactly(ap, tag);
  }

  // ----- other formats -----

  /** A format that has nothing to do with this one: no class is similar for both, and the new element is
      not accepted. */
  ghost predicate Unrelated(ap: Applier, other: Applier) {
    && ap.tagNames != [] && !Accepts(other, ContainerTag(ap))
    && (other.cssClass == "" || ap.cssClass == "" || forall c :: !(ap.similar(c) && other.similar(c)))
  }

  lemma {:induction false} DissimilarAppend(ap: Applier, a: seq<string>, b: seq<string>)
    ensures Dissimilar(ap, a + b) == Dissimilar(ap, a) + Dissimilar(ap, b)
  {
    if a == [] {
      assert a + b == b;
    } else {
      assert (a + b)[1..] == a[1..] + b;
      DissimilarAppend(ap, a[1..], b);
    }
  }

  lemma {:induction false} LastOther(ap: Applier, other: Applier, classes: seq<string>)
    requires forall c :: !(ap.similar(c) && other.similar(c))
    ensures LastSimilar(other, Dissimilar(ap, classes)) == LastSimilar(other, classes)
    decreases |classes|
  {
    if classes != [] {
      var front, c := classes[..|classes| - 1], classes[|classes| - 1];
      assert classes == front + [c];
      LastOther(ap, other, front);
      DissimilarAppend(ap, front, [c]);
      assert Dissimilar(ap, [c]) == if ap.similar(c) then [] else [c];
      var d := Dissimilar(ap, front);
      assert (d + [c])[..|d|] == d && d + [] == d;
    }
  }

  /** Adding the class does not make or break any unrelated format. */
  lemma OtherStays(ap: Applier, other: Applier, tag: Tag)
    requires WellSet(ap) && ap.cssClass != "" && Unrelated(ap, other)
    ensures Accepts(other, AddClass(ap, tag)) == Accepts(other, tag)
  {
    if other.cssClass != "" {
      LastOther(ap, other, tag.classes);
      var d := Dissimilar(ap, tag.classes);
      assert (d + [ap.cssClass])[..|d|] == d;
    }
  }

  lemma AddedAccepted(ap: Applier, tag: Tag)
    requires WellSet(ap) && ap.cssClass != "" && tag.name in ap.tagNames
    ensures Accepts(ap, AddClass(ap, tag))
  {
  }

  // ----- the status of every character -----

  function Const(k: nat, b: bool): (r: seq<bool>)
    ensures |r| == k && forall i :: 0 <= i < k ==> r[i] == b
  {
    seq(k, _ => b)
  }

  /** For every character whether it has an accepted ancestor, where `inherited` says this of the forest. */
  function Status(ap: Applier, ks: seq<Node>, inherited: bool): seq<bool> {
    if ks == [] then []
    else
      (if ks[0].Elem? then Status(ap, ks[0].kids, inherited || Accepts(ap, ks[0].tag))
        else Const(|ks[0].data|, inherited))
      + Status(ap, ks[1..], inherited)
  }

  lemma {:induction false} StatusLength(ap: Applier, ks: seq<Node>, inherited: bool)
    ensures |Status(ap, ks, inherited)| == |Flat(ks)|
  {
    if ks != [] {
      if ks[0].Elem? {
        StatusLength(ap, ks[0].kids, inherited || Accepts(ap, ks[0].tag));
      }
      StatusLength(ap, ks[1..], inherited);
    }
  }

  lemma {:induction false} StatusConcat(ap: Applier, a: seq<Node>, b: seq<Node>, inherited: bool)
    ensures Status(ap, a + b, inherited) == Status(ap, a, inherited) + Status(ap, b, inherited)
  {
    if a == [] {
      assert a + b == b;
    } else {
      assert (a + b)[1..] == a[1..] + b;
      StatusConcat(ap, a[1..], b, inherited);
    }
  }

  lemma StatusSplit(ap: Applier, ks: seq<Node>, i: nat, inherited: bool)
    requires i < |ks|
    ensures Status(ap, ks, inherited)
      == Status(ap, ks[..i], inherited) + Status(ap, [ks[i]], inherited) + Status(ap, ks[i + 1..], inherited)
  {
    hide Status;
    SeqSplit(ks, i);
    StatusConcat(ap, ks[..i] + [ks[i]], ks[i + 1..], inherited);
    StatusConcat(ap, ks[..i], [ks[i]], inherited);
  }

  lemma StatusOne(ap: Applier, n: Node, inherited: bool)
    ensures n.Elem? ==> Status(ap, [n], inherited) == Status(ap, n.kids, inherited || Accepts(ap, n.tag))
    ensures n.Text? ==> Status(ap, [n], inherited) == Const(|n.data|, inherited)
  {
    assert [n][1..] == [];
  }

  /** Below an accepted element every character has its status. */
  lemma {:induction false} StatusInherited(ap: Applier, ks: seq<Node>)
    ensures Status(ap, ks, true) == Const(|Flat(ks)|, true)
  {
    if ks != [] {
      if ks[0].Elem? {
        StatusInherited(ap, ks[0].kids);
      }
      StatusInherited(ap, ks[1..]);
    }
  }

  /** What the node at a path inherits. */
  predicate Inherits(ap: Applier, n: Node, p: Path, inherited: bool)
    requires HasPath(n, p)
  {
    if p == [] then inherited else Inherits(ap, n.kids[p[0]], p[1..], inherited || Accepts(ap, n.tag))
  }

  /** Replacing a subtree replaces the status of its characters. */
  lemma {:induction false} StatusPut(ap: Applier, n: Node, c: Path, x: Node, inherited: bool)
    requires HasPath(n, c)
    ensures ValidPoint(n, c, 0) && TextOff(n, c, 0) + |Flat([At(n, c)])| <= |Status(ap, [n], inherited)| == |Flat([n])|
    ensures Status(ap, [Put(n, c, x)], inherited)
      == Status(ap, [n], inherited)[..TextOff(n, c, 0)] + Status(ap, [x], Inherits(ap, n, c, inherited))
         + Status(ap, [n], inherited)[TextOff(n, c, 0) + |Flat([At(n, c)])|..]
  {
    hide Status, Flat;
    FlatContext(n, c);
    StatusLength(ap, [n], inherited);
    if c == [] {
      StartsAtZero(n);
      assert Status(ap, [n], inherited)[..0] + Status(ap, [x], inherited) + Status(ap, [n], inherited)[|Flat([n])|..]
          == Status(ap, [x], inherited);
    } else {
      var i, k := c[0], n.kids[c[0]];
      var l, inh := Put(k, c[1..], x), inherited || Accepts(ap, n.tag);
      StatusPut(ap, k, c[1..], x, inh);
      StatusSwap(ap, n.kids, i, l, TextOff(k, c[1..], 0), |Flat([At(n, c)])|,
        Status(ap, [x], Inherits(ap, n, c, inherited)), inh);
      StatusOne(ap, n, inherited);
      StatusOne(ap, Put(n, c, x), inherited);
    }
  }

  lemma StatusSwap(ap: Applier, ks: seq<Node>, i: nat, l: Node, t: nat, m: nat, x: seq<bool>, inherited: bool)
    requires i < |ks| && t + m <= |Status(ap, [ks[i]], inherited)|
    requires Status(ap, [l], inherited) == Status(ap, [ks[i]], inherited)[..t] + x
        + Status(ap, [ks[i]], inherited)[t + m..]
    ensures |Flat(ks[..i])| + t + m <= |Status(ap, ks, inherited)|
    ensures Status(ap, ks[i := l], inherited)
      == Status(ap, ks, inherited)[..|Flat(ks[..i])| + t] + x + Status(ap, ks, inherited)[|Flat(ks[..i])| + t + m..]
  {
    hide Status, Flat;
    var ls := ks[i := l];
    assert ls[..i] == ks[..i] && ls[i + 1..] == ks[i + 1..];
    StatusLength(ap, ks[..i], inherited);
    StatusSplit(ap, ks, i, inherited);
    StatusSplit(ap, ls, i, inherited);
    ReplaceMiddle(Status(ap, ks[..i], inherited), Status(ap, [ks[i]], inherited), Status(ap, ks[i + 1..], inherited),
      t, m, x,
      Status(ap, [l], inherited));
  }

  /** The status of a subtree's characters, in the subtree and in the whole. */
  lemma StatusContext(ap: Applier, n: Node, c: Path, inherited: bool)
    requires HasPath(n, c)
    ensures ValidPoint(n, c, 0) && TextOff(n, c, 0) + |Flat([At(n, c)])| <= |Status(ap, [n], inherited)|
    ensures Status(ap, [n], inherited)[TextOff(n, c, 0)..][..|Flat([At(n, c)])|]
      == Status(ap, [At(n, c)], Inherits(ap, n, c, inherited))
  {
    StatusPut(ap, n, c, At(n, c), inherited);
    PutSame(n, c);
    StatusLength(ap, [At(n, c)], Inherits(ap, n, c, inherited));
    MiddleOf(Status(ap, [n], inherited), TextOff(n, c, 0), |Flat([At(n, c)])|,
      Status(ap, [At(n, c)], Inherits(ap, n, c, inherited)));
  }

  lemma MiddleOf<T>(s: seq<T>, i: nat, k: nat, x: seq<T>)
    requires i + k <= |s| && |x| == k && s == s[..i] + x + s[i + k..]
    ensures s[i..][..k] == x
  {
    assert s[i..][..k] == (s[..i] + x + s[i + k..])[i..][..k];
  }

  /** Inheriting is having an accepted element on the way. */
  lemma {:induction false} InheritsWay(ap: Applier, n: Node, p: Path, inherited: bool)
    requires HasPath(n, p)
    ensures forall k :: 0 <= k <= |p| ==> HasPath(n, p[..k])
    ensures Inherits(ap, n, p, inherited) <==>
      inherited || exists k :: 0 <= k < |p| && At(n, p[..k]).Elem? && Accepts(ap, At(n, p[..k]).tag)
  {
    forall k | 0 <= k <= |p| ensures HasPath(n, p[..k]) {
      AtPrefix(n, p, k);
    }
    if p != [] {
      InheritsWay(ap, n.kids[p[0]], p[1..], inherited || Accepts(ap, n.tag));
      assert p[..0] == [];
      forall k | 0 < k <= |p|
        ensures p[..k][1..] == p[1..][..k - 1] && At(n, p[..k]) == At(n.kids[p[0]], p[1..][..k - 1])
      {
      }
      var kid, q := n.kids[p[0]], p[1..];
      if exists k :: 0 <= k < |q| && At(kid, q[..k]).Elem? && Accepts(ap, At(kid, q[..k]).tag) {
        var k :| 0 <= k < |q| && At(kid, q[..k]).Elem? && Accepts(ap, At(kid, q[..k]).tag);
        assert At(n, p[..k + 1]) == At(kid, q[..k]);
      }
      if exists k :: 0 <= k < |p| && At(n, p[..k]).Elem? && Accepts(ap, At(n, p[..k]).tag) {
        var k :| 0 <= k < |p| && At(n, p[..k]).Elem? && Accepts(ap, At(n, p[..k]).tag);
        assert k > 0 ==> At(n, p[..k]) == At(n.kids[p[0]], p[1..][..k - 1]);
      }
    }
  }

  /** The status of the characters of the two halves of a tree. */
  lemma {:induction false} StatusHalves(ap: Applier, n: Node, p: Path, off: nat, inherited: bool)
    requires ValidPoint(n, p, off)
    ensures TextOff(n, p, off) <= |Status(ap, [n], inherited)|
    ensures Status(ap, [Head(n, p, off)], inherited) == Status(ap, [n], inherited)[..TextOff(n, p, off)]
    ensures Status(ap, [Tail(n, p, off)], inherited) == Status(ap, [n], inherited)[TextOff(n, p, off)..]
  {
    hide Status, Flat;
    StatusLength(ap, [n], inherited);
    PosInside(n, p, off);
    StatusOne(ap, n, inherited);
    StatusOne(ap, Head(n, p, off), inherited);
    StatusOne(ap, Tail(n, p, off), inherited);
    if p == [] {
      if n.Elem? {
        var inh := inherited || Accepts(ap, n.tag);
        StatusLength(ap, n.kids[..off], inh);
        StatusConcat(ap, n.kids[..off], n.kids[off..], inh);
        assert n.kids == n.kids[..off] + n.kids[off..];
      }
    } else {
      var k, inh := n.kids[p[0]], inherited || Accepts(ap, n.tag);
      StatusHalves(ap, k, p[1..], off, inh);
      StatusStep(ap, n.kids, p[0], Head(k, p[1..], off), Tail(k, p[1..], off), TextOff(k, p[1..], off), inh);
    }
  }

  lemma StatusStep(ap: Applier, ks: seq<Node>, i: nat, h: Node, t: Node, x: nat, inherited: bool)
    requires i < |ks| && x <= |Status(ap, [ks[i]], inherited)|
    requires Status(ap, [h], inherited) == Status(ap, [ks[i]], inherited)[..x]
    requires Status(ap, [t], inherited) == Status(ap, [ks[i]], inherited)[x..]
    ensures |Flat(ks[..i])| + x <= |Status(ap, ks, inherited)|
    ensures Status(ap, ks[..i] + [h], inherited) == Status(ap, ks, inherited)[..|Flat(ks[..i])| + x]
    ensures Status(ap, [t] + ks[i + 1..], inherited) == Status(ap, ks, inherited)[|Flat(ks[..i])| + x..]
  {
    hide Status, Flat;
    StatusLength(ap, ks[..i], inherited);
    StatusSplit(ap, ks, i, inherited);
    StatusConcat(ap, ks[..i], [h], inherited);
    StatusConcat(ap, [t], ks[i + 1..], inherited);
    SliceConcat(Status(ap, ks[..i], inherited), Status(ap, [ks[i]], inherited), Status(ap, ks[i + 1..], inherited), x);
  }

  /** Taking out what lies between two points. */
  lemma StatusCut(ap: Applier, n: Node, p: Path, so: nat, q: Path, eo: nat, inherited: bool)
    requires Spans(n, p, so, q, eo)
    ensures TextOff(n, p, so) <= |Status(ap, [n], inherited)| && TextOff(n, q, eo) <= |Status(ap, [n], inherited)|
    ensures Status(ap, [Cut(n, p, so, q, eo)], inherited)
      == Status(ap, [n], inherited)[..TextOff(n, p, so)] + Status(ap, [n], inherited)[TextOff(n, q, eo)..]
  {
    hide Status;
    var inh := inherited || Accepts(ap, n.tag);
    StatusHalves(ap, n, p, so, inherited);
    StatusHalves(ap, n, q, eo, inherited);
    StatusConcat(ap, Head(n, p, so).kids, Tail(n, q, eo).kids, inh);
    StatusOne(ap, Head(n, p, so), inherited);
    StatusOne(ap, Tail(n, q, eo), inherited);
    StatusOne(ap, Cut(n, p, so, q, eo), inherited);
  }

  // ----- the text nodes -----

  /** The text nodes in document order. */
  function Leaves(ks: seq<Node>): seq<Node> {
    if ks == [] then []
    else (if ks[0].Elem? then Leaves(ks[0].kids) else [ks[0]]) + Leaves(ks[1..])
  }

  lemma {:induction false} LeavesConcat(a: seq<Node>, b: seq<Node>)
    ensures Leaves(a + b) == Leaves(a) + Leaves(b)
  {
    if a == [] {
      assert a + b == b;
    } else {
      assert (a + b)[1..] == a[1..] + b;
      LeavesConcat(a[1..], b);
    }
  }

  lemma LeavesSplit(ks: seq<Node>, i: nat)
    requires i < |ks|
    ensures Leaves(ks) == Leaves(ks[..i]) + Leaves([ks[i]]) + Leaves(ks[i + 1..])
  {
    hide Leaves;
    SeqSplit(ks, i);
    LeavesConcat(ks[..i] + [ks[i]], ks[i + 1..]);
    LeavesConcat(ks[..i], [ks[i]]);
  }

  lemma LeavesOne(n: Node)
    ensures Leaves([n]) == if n.Elem? then Leaves(n.kids) else [n]
  {
    assert [n][1..] == [];
  }

  lemma {:induction false} LeavesText(ks: seq<Node>)
    ensures Flat(Leaves(ks)) == Flat(ks)
    ensures forall x :: x in Leaves(ks) ==> x.Text?
  {
    if ks != [] {
      var a := if ks[0].Elem? then Leaves(ks[0].kids) else [ks[0]];
      if ks[0].Elem? {
        LeavesText(ks[0].kids);
      } else {
        assert [ks[0]][1..] == [];
      }
      LeavesText(ks[1..]);
      FlatConcat(a, Leaves(ks[1..]));
    }
  }

  /** Replacing a subtree by one with the same text nodes. */
  lemma {:induction false} LeavesPut(n: Node, c: Path, x: Node)
    requires HasPath(n, c) && Leaves([x]) == Leaves([At(n, c)])
    ensures Leaves([Put(n, c, x)]) == Leaves([n])
  {
    if c != [] {
      hide Leaves;
      var l := Put(n.kids[c[0]], c[1..], x);
      LeavesPut(n.kids[c[0]], c[1..], x);
      var ls := n.kids[c[0] := l];
      assert ls[..c[0]] == n.kids[..c[0]] && ls[c[0] + 1..] == n.kids[c[0] + 1..];
      LeavesSplit(n.kids, c[0]);
      LeavesSplit(ls, c[0]);
      LeavesOne(n);
      LeavesOne(Put(n, c, x));
    }
  }

  /** Every text node is a leaf, at the text offset its path gives. */
  lemma {:induction false} LeafOf(n: Node, p: Path) returns (k: nat)
    requires HasPath(n, p) && At(n, p).Text?
    ensures k < |Leaves([n])| && Leaves([n])[k] == At(n, p)
    ensures ValidPoint(n, p, 0) && |Flat(Leaves([n])[..k])| == TextOff(n, p, 0)
  {
    hide Status;
    LeavesOne(n);
    if p == [] {
      k := 0;
    } else {
      hide Leaves, Flat;
      var j := LeafOf(n.kids[p[0]], p[1..]);
      var a, b := Leaves(n.kids[..p[0]]), Leaves([n.kids[p[0]]]);
      LeavesSplit(n.kids, p[0]);
      LeavesText(n.kids[..p[0]]);
      k := |a| + j;
      assert Leaves(n.kids)[..k] == a + b[..j];
      FlatConcat(a, b[..j]);
    }
  }

  /** Every leaf is a text node, at the path whose text offset it has. */
  lemma {:induction false} LeafPath(n: Node, k: nat) returns (p: Path)
    requires k < |Leaves([n])|
    ensures HasPath(n, p) && At(n, p) == Leaves([n])[k] && At(n, p).Text?
    ensures ValidPoint(n, p, 0) && TextOff(n, p, 0) == |Flat(Leaves([n])[..k])|
    decreases n, 1
  {
    LeavesOne(n);
    if n.Text? {
      p := [];
    } else {
      var i, q := LeafPathIn(n.kids, k);
      p := [i] + q;
    }
  }

  lemma {:induction false} LeafPathIn(ks: seq<Node>, k: nat) returns (i: nat, q: Path)
    requires k < |Leaves(ks)|
    ensures i < |ks| && HasPath(ks[i], q) && At(ks[i], q) == Leaves(ks)[k] && At(ks[i], q).Text?
    ensures ValidPoint(ks[i], q, 0) && |Flat(ks[..i])| + TextOff(ks[i], q, 0) == |Flat(Leaves(ks)[..k])|
    decreases ks, 0
  {
    LeavesCons(ks);
    hide Leaves, Flat;
    var a, b := Leaves([ks[0]]), Leaves(ks[1..]);
    if k < |a| {
      i := 0;
      q := LeafPath(ks[0], k);
      assert Leaves(ks)[..k] == a[..k] && ks[..0] == [];
    } else {
      var j, r := LeafPathIn(ks[1..], k - |a|);
      i, q := j + 1, r;
      assert Leaves(ks)[..k] == a + b[..k - |a|];
      FlatConcat(a, b[..k - |a|]);
      LeavesText([ks[0]]);
      assert ks[..i] == [ks[0]] + ks[1..][..j];
      FlatConcat([ks[0]], ks[1..][..j]);
    }
  }

  lemma LeavesCons(ks: seq<Node>)
    ensures ks != [] ==> Leaves(ks) == Leaves([ks[0]]) + Leaves(ks[1..])
    ensures ks == [] ==> Leaves(ks) == []
    ensures Flat([]) == ""
  {
    if ks != [] {
      LeavesOne(ks[0]);
    }
  }

  /** Every character belongs to a leaf. */
  lemma {:induction false} LeafAtChar(ls: seq<Node>, i: nat) returns (k: nat)
    requires i < |Flat(ls)| && forall x :: x in ls ==> x.Text?
    ensures k < |ls| && |Flat(ls[..k])| <= i < |Flat(ls[..k])| + |ls[k].data|
  {
    if i < |ls[0].data| {
      k := 0;
    } else {
      var j := LeafAtChar(ls[1..], i - |ls[0].data|);
      k := j + 1;
      assert ls[..k] == [ls[0]] + ls[1..][..j];
    }
  }

  /** The same virtual root, and no text node has lost its parent. */
  predicate SameTop(w: Node, v: Node) {
    && w.Elem? && v.Elem? && v.id == w.id && v.tag == w.tag
    && forall i :: 0 <= i < |v.kids| && v.kids[i].Text? ==> i < |w.kids| && w.kids[i] == v.kids[i]
  }

  lemma PutRootTag(w: Node, f: Path, m: Node)
    requires HasPath(w, f) && f != [] && m.Elem?
    ensures SameTop(w, Put(w, f, m))
  {
  }
}

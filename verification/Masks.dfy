/** Masks of the masked-input plugin: which positions are slots, and what a buffer keeps. */
module Masks {
  import opened Wrappers

  type Test = char -> bool

  /** For every position the test of a slot, or nothing at a literal. */
  type Mask = seq<Option<Test>>

  predicate Slot(h: Mask, a: int) {
    0 <= a < |h| && h[a].Some?
  }

  /** What the seek loop of `n` returns: the next slot, or a position behind the end. */
  function Next(h: Mask, a: int): (b: int)
    requires a >= -1
    ensures b > a && (b < |h| ==> Slot(h, b))
    ensures forall c :: a < c < b ==> !Slot(h, c)
    decreases |h| - a
  {
    if a + 1 > |h| || Slot(h, a + 1) then a + 1 else Next(h, a + 1)
  }

  lemma {:induction false} NextEnd(h: Mask, a: int)
    requires -1 <= a <= |h|
    ensures Next(h, a) <= |h| + 1 && Next(h, a) != |h|
    decreases |h| - a
  {
    if a < |h| && !Slot(h, a + 1) {
      NextEnd(h, a + 1);
    }
  }

  /** What the seek loop of `o` returns: the previous slot, or -1. */
  function Prev(h: Mask, a: int): (b: int)
    requires a >= 0
    ensures -1 <= b < a && (b >= 0 ==> Slot(h, b))
    ensures forall c :: b < c < a ==> !Slot(h, c)
  {
    if a - 1 < 0 || Slot(h, a - 1) then a - 1 else Prev(h, a - 1)
  }

  /** Literals are those of the mask, and a slot holds the placeholder or what its test accepts. */
  predicate Kept(h: Mask, literals: seq<char>, ph: char, l: seq<char>) {
    && |literals| == |l| == |h|
    && forall c :: 0 <= c < |h| ==> if h[c].None? then l[c] == literals[c] else l[c] == ph || h[c].value(l[c])
  }

  // ----- the three edits -----

  /** `t`: the slots from a to b are emptied. */
  function Cleared(h: Mask, ph: char, l: seq<char>, a: int, b: int): (r: seq<char>)
    requires |l| == |h|
    ensures |r| == |l|
  {
    seq(|l|, i requires 0 <= i < |l| => if a <= i < b && Slot(h, i) then ph else l[i])
  }

  /** `q`: from position b on every slot takes the character of the slot before it, the first one c, until
      a character does not fit. */
  function Pushed(h: Mask, ph: char, l: seq<char>, b: nat, c: char): (r: seq<char>)
    requires |l| == |h|
    ensures |r| == |l|
    decreases |h| - b
  {
    if b >= |h| then l
    else if !Slot(h, b) then Pushed(h, ph, l, b + 1, c)
    else
      var d, m := Next(h, b), l[b := c];
      if d < |h| && h[d].value(l[b]) then Pushed(h, ph, m, b + 1, l[b]) else m
  }

  /** `p`: from position c on every slot takes the character at d and the slots behind it, until one does
      not fit. */
  function Pulled(h: Mask, ph: char, l: seq<char>, c: nat, d: nat): (r: seq<char>)
    requires |l| == |h| && (d < |h| ==> Slot(h, d))
    ensures |r| == |l|
    decreases |h| - c
  {
    if c >= |h| then l
    else if !Slot(h, c) then Pulled(h, ph, l, c + 1, d)
    else if d < |h| && h[c].value(l[d]) then Pulled(h, ph, l[c := l[d]][d := ph], c + 1, Next(h, d))
    else l
  }

  lemma ClearedKeeps(h: Mask, literals: seq<char>, ph: char, l: seq<char>, a: int, b: int)
    requires Kept(h, literals, ph, l)
    ensures Kept(h, literals, ph, Cleared(h, ph, l, a, b))
  {
  }

  /** A character that may go into the first slot from b on. */
  predicate FitsNext(h: Mask, ph: char, b: nat, c: char) {
    c == ph || var s := Next(h, b - 1); s < |h| ==> h[s].value(c)
  }

  lemma {:induction false} PushedKeeps(h: Mask, literals: seq<char>, ph: char, l: seq<char>, b: nat, c: char)
    requires Kept(h, literals, ph, l) && FitsNext(h, ph, b, c)
    ensures Kept(h, literals, ph, Pushed(h, ph, l, b, c))
    decreases |h| - b
  {
    if b < |h| {
      if !Slot(h, b) {
        PushedKeeps(h, literals, ph, l, b + 1, c);
      } else {
        var d, m := Next(h, b), l[b := c];
        assert Kept(h, literals, ph, m);
        if d < |h| && h[d].value(l[b]) {
          PushedKeeps(h, literals, ph, m, b + 1, l[b]);
        }
      }
    }
  }

  lemma {:induction false} PulledKeeps(h: Mask, literals: seq<char>, ph: char, l: seq<char>, c: nat, d: nat)
    requires Kept(h, literals, ph, l) && (d < |h| ==> Slot(h, d))
    ensures Kept(h, literals, ph, Pulled(h, ph, l, c, d))
    decreases |h| - c
  {
    if c < |h| {
      if !Slot(h, c) {
        PulledKeeps(h, literals, ph, l, c + 1, d);
      } else if d < |h| && h[c].value(l[d]) {
        var m := l[c := l[d]][d := ph];
        assert Kept(h, literals, ph, m);
        PulledKeeps(h, literals, ph, m, c + 1, Next(h, d));
      }
    }
  }

  // ----- the two keys -----

  /** A character typed with the caret at pos: it goes into the next slot, after the rest has moved on. */
  function Typed(h: Mask, ph: char, l: seq<char>, pos: nat, x: char): (r: seq<char>)
    requires |l| == |h|
    ensures |r| == |l|
  {
    var d := Next(h, pos - 1);
    if d < |h| && h[d].value(x) then Pushed(h, ph, l, d, ph)[d := x] else l
  }

  /** Backspace or delete over the positions from a to b. */
  function Erased(h: Mask, ph: char, l: seq<char>, a: int, b: nat): (r: seq<char>)
    requires |l| == |h|
    ensures |r| == |l|
  {
    var m := Cleared(h, ph, l, a, b);
    if a < 0 then m else Pulled(h, ph, m, a, Next(h, b - 1))
  }

  lemma TypedKeeps(h: Mask, literals: seq<char>, ph: char, l: seq<char>, pos: nat, x: char)
    requires Kept(h, literals, ph, l)
    ensures Kept(h, literals, ph, Typed(h, ph, l, pos, x))
  {
    PushedKeeps(h, literals, ph, l, Next(h, pos - 1), ph);
  }

  lemma ErasedKeeps(h: Mask, literals: seq<char>, ph: char, l: seq<char>, a: int, b: nat)
    requires Kept(h, literals, ph, l)
    ensures Kept(h, literals, ph, Erased(h, ph, l, a, b))
  {
    ClearedKeeps(h, literals, ph, l, a, b);
    if a >= 0 {
      PulledKeeps(h, literals, ph, Cleared(h, ph, l, a, b), a, Next(h, b - 1));
    }
  }

  // ----- the slots alone -----

  /** The characters in the slots. */
  function Vals(h: Mask, l: seq<char>): seq<char>
    requires |l| == |h|
  {
    if h == [] then [] else (if h[0].Some? then [l[0]] else []) + Vals(h[1..], l[1..])
  }

  /** The slots from a position on. */
  function ValsFrom(h: Mask, l: seq<char>, b: nat): seq<char>
    requires |l| == |h| && b <= |h|
  {
    Vals(h[b..], l[b..])
  }

  lemma ValsStep(h: Mask, l: seq<char>, b: nat)
    requires |l| == |h| && b < |h|
    ensures Slot(h, b) ==> ValsFrom(h, l, b) == [l[b]] + ValsFrom(h, l, b + 1)
    ensures !Slot(h, b) ==> ValsFrom(h, l, b) == ValsFrom(h, l, b + 1)
  {
    assert h[b..][1..] == h[b + 1..] && l[b..][1..] == l[b + 1..];
  }

  /** The first slot from a position on is the next one. */
  lemma {:induction false} ValsNext(h: Mask, l: seq<char>, b: nat)
    requires |l| == |h| && b <= |h|
    ensures ValsFrom(h, l, b) == [] <==> Next(h, b - 1) >= |h|
    ensures Next(h, b - 1) < |h| ==>
      ValsFrom(h, l, b) == [l[Next(h, b - 1)]] + ValsFrom(h, l, Next(h, b - 1) + 1)
    decreases |h| - b
  {
    if b < |h| {
      ValsStep(h, l, b);
      if !Slot(h, b) {
        ValsNext(h, l, b + 1);
      }
    }
  }

  lemma ValsSame(h: Mask, l: seq<char>, m: seq<char>, b: nat)
    requires |l| == |m| == |h| && b <= |h| && l[b..] == m[b..]
    ensures ValsFrom(h, l, b) == ValsFrom(h, m, b)
  {
  }

  /** Buffers with the same literals and slots are the same. */
  lemma {:induction false} ValsDetermine(h: Mask, literals: seq<char>, ph: char, l: seq<char>, m: seq<char>, b: nat)
    requires Kept(h, literals, ph, l) && Kept(h, literals, ph, m) && b <= |h|
    ensures ValsFrom(h, l, b) == ValsFrom(h, m, b) <==> l[b..] == m[b..]
    decreases |h| - b
  {
    if b < |h| {
      ValsStep(h, l, b);
      ValsStep(h, m, b);
      ValsDetermine(h, literals, ph, l, m, b + 1);
      assert l[b..] == [l[b]] + l[b + 1..] && m[b..] == [m[b]] + m[b + 1..];
      if Slot(h, b) {
        HeadTail(l[b], ValsFrom(h, l, b + 1), m[b], ValsFrom(h, m, b + 1));
      }
      HeadTail(l[b], l[b + 1..], m[b], m[b + 1..]);
    }
  }

  lemma HeadTail<T>(x: T, s: seq<T>, y: T, t: seq<T>)
    ensures [x] + s == [y] + t <==> x == y && s == t
  {
    assert ([x] + s)[0] == x && ([x] + s)[1..] == s;
    assert ([y] + t)[0] == y && ([y] + t)[1..] == t;
  }

  // ----- one test for all slots -----

  ghost predicate Uniform(h: Mask, f: Test, ph: char) {
    !f(ph) && forall c :: 0 <= c < |h| && h[c].Some? ==> h[c].value == f
  }

  function PushVals(f: Test, vs: seq<char>, c: char): seq<char> {
    if vs == [] then []
    else [c] + (if |vs| > 1 && f(vs[0]) then PushVals(f, vs[1..], vs[0]) else vs[1..])
  }

  function PullVals(f: Test, ph: char, vs: seq<char>): seq<char>
    decreases |vs|
  {
    if |vs| > 1 && f(vs[1]) then [vs[1]] + PullVals(f, ph, [ph] + vs[2..]) else vs
  }

  lemma {:induction false} PushedVals(h: Mask, f: Test, ph: char, l: seq<char>, b: nat, c: char)
    requires |l| == |h| && Uniform(h, f, ph) && b <= |h|
    ensures Pushed(h, ph, l, b, c)[..b] == l[..b]
    ensures ValsFrom(h, Pushed(h, ph, l, b, c), b) == PushVals(f, ValsFrom(h, l, b), c)
    decreases |h| - b, 1
  {
    if b < |h| {
      hide ValsFrom;
      if Slot(h, b) {
        PushedSlot(h, f, ph, l, b, c);
      } else {
        var r := Pushed(h, ph, l, b, c);
        PushedVals(h, f, ph, l, b + 1, c);
        ValsStep(h, l, b);
        ValsStep(h, r, b);
        Shorter(r, l, b);
      }
    } else {
      assert h[b..] == [];
    }
  }

  lemma Shorter<T>(r: seq<T>, l: seq<T>, b: nat)
    requires b < |r| == |l| && r[..b + 1] == l[..b + 1]
    ensures r[..b] == l[..b] && r[b] == l[b]
  {
    assert r[..b] == r[..b + 1][..b];
    assert r[b] == r[..b + 1][b];
  }

  lemma {:induction false} PushedSlot(h: Mask, f: Test, ph: char, l: seq<char>, b: nat, c: char)
    requires |l| == |h| && Uniform(h, f, ph) && b < |h| && Slot(h, b)
    ensures Pushed(h, ph, l, b, c)[..b] == l[..b]
    ensures ValsFrom(h, Pushed(h, ph, l, b, c), b) == PushVals(f, ValsFrom(h, l, b), c)
    decreases |h| - b, 0
  {
    var r, m := Pushed(h, ph, l, b, c), l[b := c];
    ValsSame(h, l, m, b + 1);
    hide ValsFrom;
    ValsStep(h, l, b);
    ValsStep(h, r, b);
    ValsStep(h, m, b);
    ValsNext(h, l, b + 1);
    assert ValsFrom(h, l, b)[1..] == ValsFrom(h, l, b + 1);
    if Next(h, b) < |h| && f(l[b]) {
      PushedVals(h, f, ph, m, b + 1, l[b]);
      Shorter(r, m, b);
      assert m[..b] == l[..b];
    } else {
      assert r == m;
    }
  }

  lemma {:induction false} PulledVals(h: Mask, f: Test, ph: char, l: seq<char>, c: nat)
    requires |l| == |h| && Uniform(h, f, ph) && c <= |h|
    ensures var d := Next(h, Next(h, c - 1));
      && Pulled(h, ph, l, c, d)[..c] == l[..c]
      && ValsFrom(h, Pulled(h, ph, l, c, d), c) == PullVals(f, ph, ValsFrom(h, l, c))
    decreases |h| - c, 1
  {
    if c < |h| {
      hide ValsFrom;
      if Slot(h, c) {
        PulledSlot(h, f, ph, l, c);
      } else {
        var r := Pulled(h, ph, l, c, Next(h, Next(h, c - 1)));
        PulledVals(h, f, ph, l, c + 1);
        ValsStep(h, l, c);
        ValsStep(h, r, c);
        Shorter(r, l, c);
      }
    } else {
      assert h[c..] == [];
    }
  }

  lemma PulledTurn(h: Mask, f: Test, ph: char, l: seq<char>, c: nat)
    requires |l| == |h| && Uniform(h, f, ph) && c < |h| && Slot(h, c)
    ensures Next(h, c - 1) == c
    ensures var d := Next(h, c);
      Pulled(h, ph, l, c, d)
      == if d < |h| && f(l[d]) then Pulled(h, ph, l[c := l[d]][d := ph], c + 1, Next(h, d)) else l
  {
  }

  lemma PullTurn(f: Test, ph: char, x: char, rest: seq<char>)
    ensures rest == [] || !f(rest[0]) ==> PullVals(f, ph, [x] + rest) == [x] + rest
    ensures rest != [] && f(rest[0]) ==>
        PullVals(f, ph, [x] + rest) == [rest[0]] + PullVals(f, ph, [ph] + rest[1..])
  {
    if rest != [] {
      assert ([x] + rest)[2..] == rest[1..];
    }
  }

  lemma {:induction false} PulledSlot(h: Mask, f: Test, ph: char, l: seq<char>, c: nat)
    requires |l| == |h| && Uniform(h, f, ph) && c < |h| && Slot(h, c)
    ensures Next(h, c - 1) == c
    ensures Pulled(h, ph, l, c, Next(h, c))[..c] == l[..c]
    ensures ValsFrom(h, Pulled(h, ph, l, c, Next(h, c)), c) == PullVals(f, ph, ValsFrom(h, l, c))
    decreases |h| - c, 0
  {
    hide ValsFrom, Pulled, PullVals;
    var d := Next(h, c);
    var r := Pulled(h, ph, l, c, d);
    PulledTurn(h, f, ph, l, c);
    ValsStep(h, l, c);
    ValsStep(h, r, c);
    ValsNext(h, l, c + 1);
    PullTurn(f, ph, l[c], ValsFrom(h, l, c + 1));
    if d < |h| && f(l[d]) {
      var m := l[c := l[d]][d := ph];
      ValsSame(h, l, m, d + 1);
      PulledVals(h, f, ph, m, c + 1);
      ValsNext(h, m, c + 1);
      Shorter(r, m, c);
      assert m[..c] == l[..c];
      assert ValsFrom(h, l, c + 1)[1..] == ValsFrom(h, l, d + 1);
    }
  }

  // ----- typing, and then backspace -----

  /** There is a gap before the next characters are lost, and no character right behind it. */
  predicate Room(f: Test, vs: seq<char>) {
    vs != [] && if f(vs[0]) then Room(f, vs[1..]) else |vs| == 1 || !f(vs[1])
  }

  /** In the slots alone: pushing and pulling cancel out just when there is room. */
  lemma {:induction false} PushPull(f: Test, ph: char, vs: seq<char>, c: char)
    requires vs != [] && !f(ph) && forall i :: 0 <= i < |vs| ==> vs[i] == ph || f(vs[i])
    ensures PushVals(f, vs, c) != []
    ensures PullVals(f, ph, [ph] + PushVals(f, vs, c)[1..]) == vs <==> Room(f, vs)
  {
    if f(vs[0]) && |vs| > 1 {
      PushPull(f, ph, vs[1..], vs[0]);
      var p := PushVals(f, vs[1..], vs[0]);
      assert PushVals(f, vs, c)[1..] == p && p[0] == vs[0];
      var q := [ph] + p;
      assert q[2..] == p[1..];
      assert PullVals(f, ph, q) == [vs[0]] + PullVals(f, ph, [ph] + p[1..]);
      assert vs == [vs[0]] + vs[1..];
      HeadTail(vs[0], PullVals(f, ph, [ph] + p[1..]), vs[0], vs[1..]);
    } else if f(vs[0]) {
      assert PushVals(f, vs, c)[1..] == [];
      assert [ph] + [] == [ph];
      assert PullVals(f, ph, [ph]) == [ph];
    } else {
      assert PushVals(f, vs, c)[1..] == vs[1..];
      assert [ph] + vs[1..] == vs;
      if |vs| > 1 && f(vs[1]) {
        assert PullVals(f, ph, vs)[0] == vs[1];
      }
    }
  }

  // ----- what typing and erasing leave in the slots -----

  /** The characters at the front that the test accepts. */
  predicate Run(f: Test, vs: seq<char>, n: nat) {
    n <= |vs| && (forall i :: 0 <= i < n ==> f(vs[i])) && (n == |vs| || !f(vs[n]))
  }

  function Gaps(ph: char, k: nat): (g: seq<char>)
    ensures |g| == k && forall i :: 0 <= i < k ==> g[i] == ph
  {
    seq(k, _ => ph)
  }

  /** A pushed character comes first, and the run moves on into the gap behind it, or loses its last one. */
  lemma {:induction false} PushValsAre(f: Test, vs: seq<char>, c: char, n: nat)
    requires Run(f, vs, n) && vs != []
    ensures PushVals(f, vs, c) == if n == |vs| then [c] + vs[..n - 1] else [c] + vs[..n] + vs[n + 1..]
  {
    if |vs| > 1 && f(vs[0]) {
      PushValsAre(f, vs[1..], vs[0], n - 1);
      assert vs[..n] == [vs[0]] + vs[1..][..n - 1];
      if n == |vs| {
        assert vs[..n - 1] == [vs[0]] + vs[1..][..n - 2];
      } else {
        assert vs[n + 1..] == vs[1..][n..];
      }
    } else if f(vs[0]) {
      assert vs[..0] == [];
    } else {
      assert vs[..0] == [] && [c] + [] == [c];
    }
  }

  /** Typing: the character goes into the next slot, and the run of characters that stood from there on moves
      on by one slot, into the gap behind it; without a gap the last one is lost. */
  lemma TypingMoves(h: Mask, f: Test, ph: char, l: seq<char>, pos: nat, x: char, n: nat)
    requires |l| == |h| && Uniform(h, f, ph) && Next(h, pos - 1) < |h| && f(x)
    requires Run(f, ValsFrom(h, l, Next(h, pos - 1)), n)
    ensures var d, r := Next(h, pos - 1), Typed(h, ph, l, pos, x);
      var vs := ValsFrom(h, l, d);
      && vs != [] && r[..d] == l[..d]
      && ValsFrom(h, r, d) == if n == |vs| then [x] + vs[..n - 1] else [x] + vs[..n] + vs[n + 1..]
  {
    var d := Next(h, pos - 1);
    var m := Pushed(h, ph, l, d, ph);
    assert h[d].value == f && Typed(h, ph, l, pos, x) == m[d := x];
    PushedVals(h, f, ph, l, d, ph);
    ValsStep(h, l, d);
    ValsSame(h, m, m[d := x], d + 1);
    hide ValsFrom, Pushed, PushVals, Next, Typed, Uniform;
    ValsStep(h, m, d);
    ValsStep(h, m[d := x], d);
    PushValsAre(f, ValsFrom(h, l, d), ph, n);
    FirstReplaced(ValsFrom(h, l, d), ph, x, n, ValsFrom(h, m, d + 1));
  }

  lemma FirstReplaced(vs: seq<char>, c: char, x: char, n: nat, rest: seq<char>)
    requires n <= |vs| && vs != []
    requires [c] + rest == if n == |vs| then [c] + vs[..n - 1] else [c] + vs[..n] + vs[n + 1..]
    ensures [x] + rest == if n == |vs| then [x] + vs[..n - 1] else [x] + vs[..n] + vs[n + 1..]
  {
    var other := if n == |vs| then vs[..n - 1] else vs[..n] + vs[n + 1..];
    assert [c] + rest == [c] + other;
    HeadTail(c, rest, c, other);
  }

  /** Between two positions there are only gaps. */
  predicate OnlyGaps(h: Mask, ph: char, l: seq<char>, c: nat, d: nat)
    requires |l| == |h|
  {
    forall i :: c <= i < d && Slot(h, i) ==> l[i] == ph
  }

  /** The slots between two positions. */
  function Slots(h: Mask, c: nat, d: nat): nat
    decreases d - c
  {
    if c >= d then 0 else (if Slot(h, c) then 1 else 0) + Slots(h, c + 1, d)
  }

  /** A run of n characters is moved over k gaps; if there is no gap, it is erased. */
  function MovedOver(vs: seq<char>, n: nat, ph: char, k: nat): seq<char>
    requires n <= |vs|
  {
    if k > 0 then vs[..n] + Gaps(ph, k) + vs[n..] else Gaps(ph, n) + vs[n..]
  }

  lemma FirstMoved(vs: seq<char>, n: nat, ph: char, k: nat)
    requires 0 < n <= |vs|
    ensures MovedOver(vs, n, ph, k) == [if k > 0 then vs[0] else ph] + MovedOver(vs[1..], n - 1, ph, k)
  {
    assert vs[1..][n - 1..] == vs[n..];
    if k > 0 {
      assert vs[..n] == [vs[0]] + vs[1..][..n - 1];
    } else {
      assert Gaps(ph, n) == [ph] + Gaps(ph, n - 1);
    }
  }

  lemma NoneMoved(vs: seq<char>, ph: char, k: nat)
    ensures MovedOver(vs, 0, ph, k) == Gaps(ph, k) + vs
  {
    assert vs[..0] == [] && Gaps(ph, 0) == [] && [] + vs == vs;
  }

  lemma {:induction false} SlotsSplit(h: Mask, c: nat, d: nat, e: nat)
    requires c <= d <= e
    ensures Slots(h, c, e) == Slots(h, c, d) + Slots(h, d, e)
    decreases d - c
  {
    if c < d {
      SlotsSplit(h, c + 1, d, e);
    }
  }

  lemma {:induction false} SlotsNone(h: Mask, c: nat, d: nat)
    requires forall i :: c <= i < d ==> !Slot(h, i)
    ensures Slots(h, c, d) == 0
    decreases d - c
  {
    if c < d {
      SlotsNone(h, c + 1, d);
    }
  }

  lemma {:induction false} GapsThen(h: Mask, ph: char, l: seq<char>, c: nat, d: nat)
    requires |l| == |h| && c <= d && c <= |h| && OnlyGaps(h, ph, l, c, d)
    ensures ValsFrom(h, l, c) == Gaps(ph, Slots(h, c, d)) + ValsFrom(h, l, if d < |h| then d else |h|)
    decreases d - c
  {
    if c == |h| {
      SlotsNone(h, c, d);
    } else if c < d {
      ValsStep(h, l, c);
      GapsThen(h, ph, l, c + 1, d);
      hide ValsFrom;
      assert Slot(h, c) ==> Gaps(ph, Slots(h, c, d)) == [ph] + Gaps(ph, Slots(h, c + 1, d));
    }
  }

  /** One pull. */
  lemma {:induction false} PulledMore(h: Mask, f: Test, ph: char, l: seq<char>, c: nat, d: nat, n: nat)
    requires |l| == |h| && Uniform(h, f, ph) && c <= d < |h| && Slot(h, c) && Slot(h, d) && f(l[d])
    requires OnlyGaps(h, ph, l, c, d) && Run(f, ValsFrom(h, l, d), n)
    ensures var r, k, vs := Pulled(h, ph, l, c, d), Slots(h, c, d), ValsFrom(h, l, d);
      && r[..c] == l[..c]
      && ValsFrom(h, r, c) == MovedOver(vs, n, ph, k)
    decreases |h| - c, 0
  {
    var vs, m, e := ValsFrom(h, l, d), l[c := l[d]][d := ph], Next(h, d);
    var r, k := Pulled(h, ph, l, c, d), Slots(h, c, d);
    assert h[c].value == f && r == Pulled(h, ph, m, c + 1, e);
    OnePulled(h, f, ph, l, c, d, n);
    hide ValsFrom, Pulled, MovedOver, Gaps, Slots, Run, OnlyGaps, Uniform, Next;
    PulledOver(h, f, ph, m, c + 1, e, n - 1);
    ValsStep(h, r, c);
    Shorter(r, m, c);
    FirstMoved(vs, n, ph, k);
  }

  /** The buffer after one pull. */
  lemma OnePulled(h: Mask, f: Test, ph: char, l: seq<char>, c: nat, d: nat, n: nat)
    requires |l| == |h| && c <= d < |h| && Slot(h, c) && Slot(h, d) && f(l[d])
    requires OnlyGaps(h, ph, l, c, d) && Run(f, ValsFrom(h, l, d), n)
    ensures var vs, m, e := ValsFrom(h, l, d), l[c := l[d]][d := ph], Next(h, d);
      && d < e <= |h| + 1 && (e < |h| ==> Slot(h, e)) && n > 0 && |vs| >= n
      && m[..c] == l[..c] && m[c] == (if Slots(h, c, d) > 0 then vs[0] else ph)
      && OnlyGaps(h, ph, m, c + 1, e) && Run(f, vs[1..], n - 1)
      && vs[1..] == ValsFrom(h, m, if e < |h| then e else |h|) && Slots(h, c + 1, e) == Slots(h, c, d)
  {
    var vs, m, e := ValsFrom(h, l, d), l[c := l[d]][d := ph], Next(h, d);
    NextEnd(h, d);
    assert m[d + 1..] == l[d + 1..];
    PulledBehind(h, l, m, d);
    hide ValsFrom, Next;
    assert vs[0] == l[d];
    SlotsNone(h, d + 1, e);
    SlotsSplit(h, c, d, e);
    assert Slots(h, d, e) == 1 && Slots(h, c, e) == 1 + Slots(h, c + 1, e);
    assert c == d ==> Slots(h, c, d) == 0;
    assert c < d ==> Slots(h, c, d) > 0;
  }

  lemma PulledBehind(h: Mask, l: seq<char>, m: seq<char>, d: nat)
    requires |l| == |m| == |h| && d < |h| && Slot(h, d) && m[d + 1..] == l[d + 1..]
    ensures var e := Next(h, d);
      && ValsFrom(h, l, d) == [l[d]] + ValsFrom(h, m, if e < |h| then e else |h|)
      && ValsFrom(h, l, d)[1..] == ValsFrom(h, m, if e < |h| then e else |h|)
  {
    ValsStep(h, l, d);
    ValsSame(h, l, m, d + 1);
    NextFrom(h, m, d + 1);
  }

  lemma {:induction false} NextFrom(h: Mask, m: seq<char>, b: nat)
    requires |m| == |h| && b <= |h|
    ensures var e := Next(h, b - 1); ValsFrom(h, m, b) == ValsFrom(h, m, if e < |h| then e else |h|)
    decreases |h| - b
  {
    if b < |h| && !Slot(h, b) {
      ValsStep(h, m, b);
      NextFrom(h, m, b + 1);
    }
  }

  /** Pulling over gaps: the run moves to the front, and the gaps behind it.  With no gap in between, the
      characters of the run are erased one after the other. */
  lemma {:induction false} PulledOver(h: Mask, f: Test, ph: char, l: seq<char>, c: nat, d: nat, n: nat)
    requires |l| == |h| && Uniform(h, f, ph) && c <= d <= |h| + 1 && c <= |h| && (d < |h| ==> Slot(h, d))
    requires OnlyGaps(h, ph, l, c, d) && Run(f, ValsFrom(h, l, if d < |h| then d else |h|), n)
    ensures var r, k, vs := Pulled(h, ph, l, c, d), Slots(h, c, d), ValsFrom(h, l, if d < |h| then d else |h|);
      && r[..c] == l[..c]
      && ValsFrom(h, r, c) == MovedOver(vs, n, ph, k)
    decreases |h| - c, 1
  {
    var vs := ValsFrom(h, l, if d < |h| then d else |h|);
    var r := Pulled(h, ph, l, c, d);
    if c == |h| {
      assert h[c..] == [];
    } else if !Slot(h, c) {
      PulledOver(h, f, ph, l, c + 1, d, n);
      ValsStep(h, r, c);
      Shorter(r, l, c);
    } else if d < |h| && f(l[d]) {
      PulledMore(h, f, ph, l, c, d, n);
    } else {
      assert h[c].value == f && r == l;
      GapsThen(h, ph, l, c, d);
      if d < |h| {
        ValsStep(h, l, d);
        assert vs[0] == l[d];
      } else {
        assert h[|h|..] == [] && vs == [];
      }
      assert n == 0;
      NoneMoved(vs, ph, Slots(h, c, d));
    }
  }

  /** Erasing a span: the run of characters behind it moves to its front, over as many gaps as the span has
      slots; a span without slots erases the run. */
  lemma ErasingMoves(h: Mask, f: Test, ph: char, l: seq<char>, a: nat, b: nat, n: nat)
    requires |l| == |h| && Uniform(h, f, ph) && a <= b <= |h| && Run(f, ValsFrom(h, l, b), n)
    ensures Erased(h, ph, l, a, b)[..a] == l[..a]
    ensures ValsFrom(h, Erased(h, ph, l, a, b), a) == MovedOver(ValsFrom(h, l, b), n, ph, Slots(h, a, b))
  {
    var m, d := Cleared(h, ph, l, a, b), Next(h, b - 1);
    NextEnd(h, b - 1);
    NextFrom(h, m, b);
    assert m[b..] == l[b..] && m[..a] == l[..a];
    ValsSame(h, l, m, b);
    hide ValsFrom, MovedOver;
    SlotsNone(h, b, d);
    SlotsSplit(h, a, b, d);
    PulledOver(h, f, ph, m, a, d, n);
  }

  /** The characters behind an erased span are still there just when the span has a slot, or none follow. */
  lemma ErasingKeeps(h: Mask, f: Test, ph: char, l: seq<char>, a: nat, b: nat, n: nat)
    requires |l| == |h| && Uniform(h, f, ph) && a <= b <= |h| && Run(f, ValsFrom(h, l, b), n)
    ensures var vs := ValsFrom(h, l, b);
      ValsFrom(h, Erased(h, ph, l, a, b), a) == vs[..n] + Gaps(ph, Slots(h, a, b)) + vs[n..]
      <==> Slots(h, a, b) > 0 || n == 0
  {
    ErasingMoves(h, f, ph, l, a, b, n);
    var vs, k := ValsFrom(h, l, b), Slots(h, a, b);
    if k == 0 {
      assert Gaps(ph, 0) == [] && vs[..n] + [] + vs[n..] == vs;
      if n > 0 {
        assert (Gaps(ph, n) + vs[n..])[0] == ph && f(vs[0]);
      } else {
        assert Gaps(ph, 0) + vs[0..] == vs;
      }
    }
  }

  /** "1-2" with the dash selected: erasing it takes the "2". */
  lemma LiteralErases(digit: Test)
    requires forall c :: digit(c) <==> '0' <= c <= '9'
    ensures var h: Mask := [Some(digit), None, Some(digit)]; Erased(h, '_', "1-2", 1, 2) == "1-_"
  {
    var h: Mask := [Some(digit), None, Some(digit)];
    assert Cleared(h, '_', "1-2", 1, 2) == "1-2";
    assert Next(h, 1) == 2;
    assert "1-2"[2 := '2'][2 := '_'] == "1-_";
    assert Pulled(h, '_', "1-2", 1, 2) == Pulled(h, '_', "1-2", 2, 2) == Pulled(h, '_', "1-_", 3, Next(h, 2));
  }
}

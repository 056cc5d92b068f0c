/** The buffer of a masked input, and its key handlers. */
module MaskedInputs {
  import opened Wrappers
  import opened Masks

  // ----- what typing and backspace undo -----

  /** Where the caret goes behind a character typed into slot d. */
  function CaretAfter(h: Mask, d: nat): (c: nat)
    ensures c <= |h|
  {
    if Next(h, d) <= |h| then Next(h, d) else |h|
  }

  lemma CaretFacts(h: Mask, d: nat)
    requires Slot(h, d)
    ensures d < CaretAfter(h, d) && Prev(h, CaretAfter(h, d)) == d
    ensures Next(h, CaretAfter(h, d) - 1) == Next(h, d) && Next(h, d - 1) == d
    ensures forall c :: d < c < CaretAfter(h, d) ==> !Slot(h, c)
  {
    NextEnd(h, d);
    NextEnd(h, CaretAfter(h, d) - 1);
  }

  /** A typed character that the backspace behind it takes away again leaves the buffer as it was just when
      the characters from the slot on had a gap to move into, with no character right behind it. */
  lemma TypeThenBackspace(h: Mask, f: Test, ph: char, literals: seq<char>, l: seq<char>, pos: nat, x: char)
    requires Kept(h, literals, ph, l) && Uniform(h, f, ph) && Next(h, pos - 1) < |h| && f(x)
    ensures var d, m := Next(h, pos - 1), Typed(h, ph, l, pos, x);
      var caret := CaretAfter(h, d);
      Prev(h, caret) == d && (Erased(h, ph, m, d, caret) == l <==> Room(f, ValsFrom(h, l, d)))
  {
    var d, m := Next(h, pos - 1), Typed(h, ph, l, pos, x);
    var caret := CaretAfter(h, d);
    assert h[d].value == f && m == Pushed(h, ph, l, d, ph)[d := x];
    hide Typed, Erased, Pushed, Pulled, ValsFrom, Room, Kept, Next, Prev, CaretAfter, Uniform;
    CaretFacts(h, d);
    TypedErased(h, f, ph, l, d, x, caret);
    SlotsBack(h, f, ph, literals, l, d);
    TypedKeeps(h, literals, ph, l, pos, x);
    ErasedKeeps(h, literals, ph, m, d, caret);
    var z := Erased(h, ph, m, d, caret);
    ValsDetermine(h, literals, ph, z, l, d);
    assert z == z[..d] + z[d..] && l == l[..d] + l[d..];
  }

  /** Erasing the typed character is pulling what was pushed. */
  lemma TypedErased(h: Mask, f: Test, ph: char, l: seq<char>, d: nat, x: char, caret: nat)
    requires |l| == |h| && Uniform(h, f, ph) && Slot(h, d) && f(x) && caret == CaretAfter(h, d)
    ensures Erased(h, ph, Pushed(h, ph, l, d, ph)[d := x], d, caret)
        == Pulled(h, ph, Pushed(h, ph, l, d, ph), d, Next(h, d))
  {
    var r := Pushed(h, ph, l, d, ph);
    CaretFacts(h, d);
    PushedVals(h, f, ph, l, d, ph);
    ValsNext(h, r, d);
    ValsNext(h, l, d);
    assert ValsFrom(h, r, d)[0] == ph;
    hide Pushed, Pulled;
    assert Cleared(h, ph, r[d := x], d, caret) == r;
  }

  lemma SlotsBack(h: Mask, f: Test, ph: char, literals: seq<char>, l: seq<char>, d: nat)
    requires Kept(h, literals, ph, l) && Uniform(h, f, ph) && Slot(h, d)
    ensures var z := Pulled(h, ph, Pushed(h, ph, l, d, ph), d, Next(h, d));
      z[..d] == l[..d] && (ValsFrom(h, z, d) == ValsFrom(h, l, d) <==> Room(f, ValsFrom(h, l, d)))
  {
    var r := Pushed(h, ph, l, d, ph);
    assert Next(h, d - 1) == d;
    PushedVals(h, f, ph, l, d, ph);
    PulledVals(h, f, ph, r, d);
    ValsKept(h, f, ph, literals, l, d);
    ValsNext(h, l, d);
    hide Pushed, Pulled, ValsFrom, Room;
    var vs := ValsFrom(h, l, d);
    PushPull(f, ph, vs, ph);
    assert PushVals(f, vs, ph) == [ph] + PushVals(f, vs, ph)[1..];
  }

  lemma {:induction false} ValsKept(h: Mask, f: Test, ph: char, literals: seq<char>, l: seq<char>, b: nat)
    requires Kept(h, literals, ph, l) && Uniform(h, f, ph) && b <= |h|
    ensures forall i :: 0 <= i < |ValsFrom(h, l, b)| ==> ValsFrom(h, l, b)[i] == ph || f(ValsFrom(h, l, b)[i])
    decreases |h| - b
  {
    if b < |h| {
      ValsStep(h, l, b);
      ValsKept(h, f, ph, literals, l, b + 1);
    }
  }

  /** No slot with a character comes after a gap, and the last slots are gaps. */
  predicate GapFreeNotFull(h: Mask, f: Test, l: seq<char>)
    requires |l| == |h|
  {
    && (forall a, b :: 0 <= a < b < |h| && Slot(h, a) && Slot(h, b) && f(l[b]) ==> f(l[a]))
    && (exists a :: 0 <= a < |h| && Slot(h, a) && !f(l[a]))
  }

  lemma {:induction false} GapFreeRoom(h: Mask, f: Test, l: seq<char>, b: nat)
    requires |l| == |h| && b <= |h| && GapFreeNotFull(h, f, l) && exists a :: b <= a < |h| && Slot(h, a) && !f(l[a])
    ensures Room(f, ValsFrom(h, l, b))
    decreases |h| - b
  {
    ValsStep(h, l, b);
    ValsNext(h, l, b + 1);
    if !Slot(h, b) || f(l[b]) {
      GapFreeRoom(h, f, l, b + 1);
      assert Slot(h, b) ==> ValsFrom(h, l, b)[1..] == ValsFrom(h, l, b + 1);
    }
  }

  /** A buffer without gaps that is not full is restored by backspace, wherever the character was typed. */
  lemma GapFreeRestored(h: Mask, f: Test, ph: char, literals: seq<char>, l: seq<char>, pos: nat, x: char)
    requires Kept(h, literals, ph, l) && Uniform(h, f, ph) && Next(h, pos - 1) < |h| && f(x)
    requires GapFreeNotFull(h, f, l)
    ensures var d, m := Next(h, pos - 1), Typed(h, ph, l, pos, x);
      var caret := CaretAfter(h, d);
      Erased(h, ph, m, Prev(h, caret), caret) == l
  {
    TypeThenBackspace(h, f, ph, literals, l, pos, x);
    var d := Next(h, pos - 1);
    var a :| 0 <= a < |h| && Slot(h, a) && !f(l[a]);
    assert a < d ==> !f(l[d]);
    GapFreeRoom(h, f, l, d);
  }

  /** In a full buffer the last character is lost. */
  lemma FullBufferLoses(h: Mask, f: Test, ph: char, literals: seq<char>, l: seq<char>, pos: nat, x: char)
    requires Kept(h, literals, ph, l) && Uniform(h, f, ph) && Next(h, pos - 1) < |h| && f(x)
    requires forall a :: 0 <= a < |h| && Slot(h, a) ==> f(l[a])
    ensures var d, m := Next(h, pos - 1), Typed(h, ph, l, pos, x);
      Erased(h, ph, m, d, CaretAfter(h, d)) != l
  {
    TypeThenBackspace(h, f, ph, literals, l, pos, x);
    FullHasNoRoom(h, f, l, Next(h, pos - 1));
  }

  lemma {:induction false} FullHasNoRoom(h: Mask, f: Test, l: seq<char>, b: nat)
    requires |l| == |h| && b <= |h| && forall a :: 0 <= a < |h| && Slot(h, a) ==> f(l[a])
    ensures !Room(f, ValsFrom(h, l, b))
    decreases |h| - b
  {
    if b < |h| {
      ValsStep(h, l, b);
      FullHasNoRoom(h, f, l, b + 1);
      assert Slot(h, b) ==> ValsFrom(h, l, b)[1..] == ValsFrom(h, l, b + 1);
    }
  }

  /** Two slots for digits that hold "12": after "3" and backspace in front they hold "1_". */
  lemma SecondDigitLost(digit: Test)
    requires forall c :: digit(c) <==> '0' <= c <= '9'
    ensures var h: Mask := [Some(digit), Some(digit)];
      var m := Typed(h, '_', "12", 0, '3');
      m == "31" && Erased(h, '_', m, 0, 1) == "1_"
  {
    var h: Mask := [Some(digit), Some(digit)];
    assert Next(h, -1) == 0 && Next(h, 0) == 1;
    assert Pushed(h, '_', "12", 0, '_') == Pushed(h, '_', "_2", 1, '1') == "_1";
    assert Typed(h, '_', "12", 0, '3') == "31";
    assert Cleared(h, '_', "31", 0, 1) == "_1";
    assert Pulled(h, '_', "_1", 0, 1) == Pulled(h, '_', "1_", 1, Next(h, 1)) == "1_";
  }

  // ----- the mask of a text -----

  /** The characters of a mask without the question marks, which only say where the optional part begins. */
  function Positions(mask: string): string {
    if mask == [] then []
    else (if mask[0] == '?' then [] else [mask[0]]) + Positions(mask[1..])
  }

  /** Positions of masks one after the other, and of single characters. */
  lemma {:induction false} PositionsExactly(s: string, t: string, c: char)
    ensures Positions(s + t) == Positions(s) + Positions(t)
    ensures Positions([c]) == if c == '?' then [] else [c]
  {
    assert [c][1..] == [];
    if s == [] {
      assert s + t == t;
    } else {
      PositionsExactly(s[1..], t, c);
      assert (s + t)[1..] == s[1..] + t;
    }
  }

  function TestsOf(literals: string, definitions: map<char, Test>): (h: Mask)
    ensures |h| == |literals|
  {
    seq(|literals|, i requires 0 <= i < |literals| =>
      if literals[i] in definitions then Some(definitions[literals[i]]) else None)
  }

  /** A mask with one test alone is uniform, if the test refuses the placeholder. */
  lemma UniformTests(literals: string, definitions: map<char, Test>, f: Test, ph: char)
    requires !f(ph) && forall c :: c in definitions ==> definitions[c] == f
    ensures Uniform(TestsOf(literals, definitions), f, ph)
    ensures forall a :: 0 <= a < |literals| ==>
        (Slot(TestsOf(literals, definitions), a) <==> literals[a] in definitions)
  {
  }

  datatype Key = Backspace | Delete

  class MaskedInput {
    const h: Mask
    const literals: string
    const placeholder: char
    /** The first slot. */
    const first: Option<nat>
    const l: array<char>

    ghost predicate Valid()
      reads l
    {
      l.Length == |h| && Kept(h, literals, placeholder, l[..]) && FirstIs()
    }

    predicate FirstIs() {
      first == if Next(h, -1) < |h| then Some(Next(h, -1)) else None
    }

    constructor (mask: string, definitions: map<char, Test>, placeholder: char)
      ensures Valid() && fresh(l) && this.placeholder == placeholder
      ensures literals == Positions(mask) && h == TestsOf(literals, definitions)
      ensures forall c :: 0 <= c < |h| ==> l[c] == if h[c].Some? then placeholder else literals[c]
      ensures first.Some? <==> Next(h, -1) < |h|
      ensures first.Some? ==> first.value == Next(h, -1)
    {
      var text := Positions(mask);
      var tests := TestsOf(text, definitions);
      h, literals, this.placeholder := tests, text, placeholder;
      var s := Next(tests, -1);
      first := if s < |tests| then Some(s) else None;
      l := new char[|text|](i requires 0 <= i < |text| => if tests[i].Some? then placeholder else text[i]);
    }

    /** Where the caret goes after an edit at position a: there, but not before the first slot. */
    function CaretAt(a: int): (r: Option<int>)
      requires FirstIs()
      ensures r.None? <==> a < 0
      ensures a >= 0 && (exists c :: 0 <= c <= a && Slot(h, c)) ==> r == Some(a)
      ensures a >= 0 && (forall c :: 0 <= c <= a ==> !Slot(h, c)) && Next(h, a) < |h| ==> r == Some(Next(h, a))
      ensures a >= 0 && (forall c :: 0 <= c < |h| ==> !Slot(h, c)) ==> r == Some(a)
    {
      if a < 0 then None else Some(if first.Some? && first.value > a then first.value else a)
    }

    /** n */
    method SeekNext(a: int) returns (b: int)
      requires a >= -1
      ensures b == Next(h, a)
    {
      b := a + 1;
      while b <= |h| && !Slot(h, b)
        invariant b > a && Next(h, b - 1) == Next(h, a)
        decreases |h| - b
      {
        b := b + 1;
      }
    }

    /** o */
    method SeekPrev(a: nat) returns (b: int)
      ensures b == Prev(h, a)
    {
      b := a - 1;
      while b >= 0 && !Slot(h, b)
        invariant -1 <= b < a && Prev(h, b + 1) == Prev(h, a)
      {
        b := b - 1;
      }
    }

    /** t */
    method ClearBuffer(a: int, b: int)
      requires Valid()
      modifies l
      ensures Valid() && l[..] == Cleared(h, placeholder, old(l[..]), a, b)
    {
      ghost var goal := Cleared(h, placeholder, l[..], a, b);
      var c := a;
      while c < b && c < |h|
        invariant a <= c
        invariant forall i :: 0 <= i < |h| ==> l[i] == if i < c then goal[i] else old(l[i])
        decreases |h| - c
      {
        if Slot(h, c) {
          l[c] := placeholder;
        }
        c := c + 1;
      }
      assert l[..] == goal;
      ClearedKeeps(h, literals, placeholder, old(l[..]), a, b);
    }

    /** p; the caret it sets is behind the literals at the front. */
    method ShiftLeft(a: int, b: int) returns (caret: Option<int>)
      requires Valid() && a <= b + 1 && (a >= 0 ==> b >= -1)
      modifies l
      ensures a < 0 ==> l[..] == old(l[..])
      ensures a >= 0 ==> l[..] == Pulled(h, placeholder, old(l[..]), a, Next(h, b))
      ensures caret == CaretAt(a)
      ensures Valid()
    {
      if a < 0 {
        return None;
      }
      ghost var goal := Pulled(h, placeholder, l[..], a, Next(h, b));
      PulledKeeps(h, literals, placeholder, l[..], a, Next(h, b));
      var c := a;
      var d := SeekNext(b);
      while c < |h|
        invariant a <= c && d >= 0 && (d < |h| ==> Slot(h, d))
        invariant Pulled(h, placeholder, l[..], c, d) == goal
        decreases |h| - c
      {
        if Slot(h, c) {
          if d < |h| && h[c].value(l[d]) {
            ghost var m := l[..];
            l[c] := l[d];
            l[d] := placeholder;
            assert l[..] == m[c := m[d]][d := placeholder];
          } else {
            break;
          }
          d := SeekNext(d);
        }
        c := c + 1;
      }
      assert l[..] == goal;
      caret := CaretAt(a);
    }

    /** q */
    method ShiftRight(a: nat)
      requires Valid()
      modifies l
      ensures Valid() && l[..] == Pushed(h, placeholder, old(l[..]), a, placeholder)
    {
      ghost var goal := Pushed(h, placeholder, l[..], a, placeholder);
      PushedKeeps(h, literals, placeholder, l[..], a, placeholder);
      var b, c := a, placeholder;
      while b < |h|
        invariant a <= b
        invariant Pushed(h, placeholder, l[..], b, c) == goal
        decreases |h| - b
      {
        if Slot(h, b) {
          var d := SeekNext(b);
          var f := l[b];
          ghost var m := l[..];
          l[b] := c;
          assert l[..] == m[b := c];
          if d < |h| && h[d].value(f) {
            c := f;
          } else {
            break;
          }
        }
        b := b + 1;
      }
      assert l[..] == goal;
    }

    /** r, for backspace and delete: what is selected, or else the slot beside the caret, is erased. */
    method KeyDown(key: Key, begin: nat, end: nat) returns (caret: Option<int>)
      requires Valid() && begin <= end <= |h|
      modifies l
      ensures Valid()
      ensures begin < end ==> l[..] == Erased(h, placeholder, old(l[..]), begin, end) && caret == CaretAt(begin)
      ensures begin == end && key == Backspace ==>
        l[..] == Erased(h, placeholder, old(l[..]), Prev(h, begin), end) && caret == CaretAt(Prev(h, begin))
      ensures begin == end && key == Delete ==>
        l[..] == Erased(h, placeholder, old(l[..]), Next(h, begin - 1), Next(h, Next(h, begin - 1)))
        && caret == CaretAt(Next(h, begin - 1))
    {
      var e: int, g: int := begin, end;
      if g - e == 0 {
        if key == Backspace {
          e := SeekPrev(begin);
        } else {
          g := SeekNext(begin - 1);
          e := g;
          g := SeekNext(g);
        }
      }
      caret := Erase(e, g);
    }

    /** What both handlers do to a span: t, and then p. */
    method Erase(e: int, g: nat) returns (caret: Option<int>)
      requires Valid() && e <= g
      modifies l
      ensures Valid() && l[..] == Erased(h, placeholder, old(l[..]), e, g) && caret == CaretAt(e)
    {
      hide Cleared, Pulled, Next;
      ClearBuffer(e, g);
      caret := ShiftLeft(e, g - 1);
    }

    /** s, for a character key: the selection is erased, and the character goes into the next slot if the
        slot's test accepts it. */
    method KeyPress(x: char, begin: nat, end: nat) returns (caret: Option<int>)
      requires Valid() && begin <= end <= |h|
      modifies l
      ensures Valid()
      ensures var m := if begin < end then Erased(h, placeholder, old(l[..]), begin, end) else old(l[..]);
        l[..] == Typed(h, placeholder, m, begin, x)
      ensures var d := Next(h, begin - 1);
        caret == if d < |h| && h[d].value(x) then Some(CaretAfter(h, d))
          else if begin < end then CaretAt(begin)
          else None
    {
      caret := None;
      if end - begin != 0 {
        caret := Erase(begin, end);
      }
      ghost var m := l[..];
      var d := SeekNext(begin - 1);
      if d < |h| && h[d].value(x) {
        TypedKeeps(h, literals, placeholder, m, begin, x);
        ShiftRight(d);
        l[d] := x;
        assert l[..] == Typed(h, placeholder, m, begin, x);
        var i := SeekNext(d);
        caret := Some(if i <= |h| then i else |h|);
      }
    }
  }
}

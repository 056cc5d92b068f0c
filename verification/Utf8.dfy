/** Well-formed bytes are exactly the encodings of texts, section 3 of RFC 3629. */
module Utf8 {
  import opened Wire

  /** A Unicode scalar value. */
  predicate Scalar(c: int) {
    0 <= c < 0xD800 || 0xE000 <= c < 0x11_0000
  }

  /** Its encoding: the bits of the number, six to a byte but for the first one. */
  function CharBytes(c: int): seq<Byte>
    requires Scalar(c)
  {
    if c < 0x80 then [c]
    else if c < 0x800 then [0xC0 + c / 0x40, 0x80 + c % 0x40]
    else if c < 0x1_0000 then [0xE0 + c / 0x1000, 0x80 + c / 0x40 % 0x40, 0x80 + c % 0x40]
    else [0xF0 + c / 0x4_0000, 0x80 + c / 0x1000 % 0x40, 0x80 + c / 0x40 % 0x40, 0x80 + c % 0x40]
  }

  predicate IsText(cs: seq<int>) {
    forall i :: 0 <= i < |cs| ==> Scalar(cs[i])
  }

  function TextBytes(cs: seq<int>): seq<Byte>
    requires IsText(cs)
  {
    if cs == [] then [] else CharBytes(cs[0]) + TextBytes(cs[1..])
  }

  /** The number is found again in its groups of six bits. */
  lemma Grouped(c: int)
    requires 0 <= c
    ensures c == c / 0x40 * 0x40 + c % 0x40
    ensures c == c / 0x1000 * 0x1000 + c / 0x40 % 0x40 * 0x40 + c % 0x40
    ensures c == c / 0x4_0000 * 0x4_0000 + c / 0x1000 % 0x40 * 0x1000 + c / 0x40 % 0x40 * 0x40 + c % 0x40
  {
    assert c / 0x40 / 0x40 == c / 0x1000;
    assert c / 0x1000 / 0x40 == c / 0x4_0000;
  }

  lemma CharLengthOf(c: int, rest: seq<Byte>)
    requires Scalar(c)
    ensures CharLength(CharBytes(c) + rest) == |CharBytes(c)|
  {
    Grouped(c);
    var b := CharBytes(c) + rest;
    assert b[..|CharBytes(c)|] == CharBytes(c);
  }

  lemma Digits(a: int, x: int, y: int, z: int)
    requires 0 <= a && 0 <= x < 0x40 && 0 <= y < 0x40 && 0 <= z < 0x40
    ensures var c := a * 0x4_0000 + x * 0x1000 + y * 0x40 + z;
      c % 0x40 == z && c / 0x40 % 0x40 == y && c / 0x1000 % 0x40 == x && c / 0x4_0000 == a
  {
    var c := a * 0x4_0000 + x * 0x1000 + y * 0x40 + z;
    assert c / 0x40 == a * 0x1000 + x * 0x40 + y;
    assert c / 0x1000 == a * 0x40 + x;
  }

  /** The character that well-formed bytes begin with. */
  lemma FirstChar(b: seq<Byte>) returns (c: int)
    requires CharLength(b) > 0
    ensures Scalar(c) && b[..CharLength(b)] == CharBytes(c)
  {
    var k := CharLength(b);
    var x: int := b[0];
    if k == 1 {
      c := x;
    } else if k == 2 {
      var y: int := b[1];
      c := (x - 0xC0) * 0x40 + (y - 0x80);
      Digits(0, 0, x - 0xC0, y - 0x80);
      assert c / 0x40 == x - 0xC0;
    } else if k == 3 {
      var y: int, z: int := b[1], b[2];
      c := (x - 0xE0) * 0x1000 + (y - 0x80) * 0x40 + (z - 0x80);
      Digits(0, x - 0xE0, y - 0x80, z - 0x80);
      assert c / 0x1000 == x - 0xE0;
    } else {
      var y: int, z: int, u: int := b[1], b[2], b[3];
      c := (x - 0xF0) * 0x4_0000 + (y - 0x80) * 0x1000 + (z - 0x80) * 0x40 + (u - 0x80);
      Digits(x - 0xF0, y - 0x80, z - 0x80, u - 0x80);
    }
  }

  lemma {:induction false} TextIsWellFormed(cs: seq<int>)
    requires IsText(cs)
    ensures WellFormed(TextBytes(cs))
  {
    if cs != [] {
      var rest := TextBytes(cs[1..]);
      CharLengthOf(cs[0], rest);
      TextIsWellFormed(cs[1..]);
      assert (CharBytes(cs[0]) + rest)[|CharBytes(cs[0])|..] == rest;
    }
  }

  lemma {:induction false} WellFormedIsText(b: seq<Byte>) returns (cs: seq<int>)
    requires WellFormed(b)
    ensures IsText(cs) && TextBytes(cs) == b
    decreases |b|
  {
    if b == [] {
      cs := [];
    } else {
      var k := CharLength(b);
      var c := FirstChar(b);
      var ds := WellFormedIsText(b[k..]);
      cs := [c] + ds;
      assert cs[1..] == ds && b == b[..k] + b[k..];
    }
  }

  lemma WellFormedExactly(b: seq<Byte>)
    ensures WellFormed(b) <==> exists cs :: IsText(cs) && TextBytes(cs) == b
  {
    if WellFormed(b) {
      var cs := WellFormedIsText(b);
    }
    forall cs | IsText(cs) && TextBytes(cs) == b ensures WellFormed(b) {
      TextIsWellFormed(cs);
    }
  }
}

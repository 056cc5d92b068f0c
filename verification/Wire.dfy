/** The bytes of the wire format: tags, little-endian numbers, and strings as UTF-8. */
module Wire {
  import opened Wrappers

  /** A byte, taken as unsigned. */
  type Byte = x: int | 0 <= x < 0x100

  type Int32 = x: int | -0x8000_0000 <= x < 0x8000_0000

  type Int64 = x: int | -0x8000_0000_0000_0000 <= x < 0x8000_0000_0000_0000

  /** The 64 bits of a double. */
  type Word = x: int | 0 <= x < 0x1_0000_0000_0000_0000

  const MAX_INT := 0x7FFF_FFFF

  const TYPE_NIL: Byte := 127
  const TYPE_FALSE: Byte := 0
  const TYPE_TRUE: Byte := 1
  const TYPE_INT: Byte := 4
  const TYPE_STRING: Byte := 5
  const TYPE_TABLE: Byte := 8
  const TYPE_BYTES: Byte := 9
  const TYPE_LONG: Byte := 10
  const TYPE_LIST: Byte := 12
  const TYPE_INTEGER_ARRAY: Byte := 13
  const TYPE_STRING_ARRAY: Byte := 14
  const TYPE_DOUBLE: Byte := 15
  const TYPE_LONG_ARRAY: Byte := 16
  const STR_0: Byte := 50
  const STR_32: Byte := 76


  // ----- little-endian numbers -----

  function Pow256(n: nat): nat {
    if n == 0 then 1 else 0x100 * Pow256(n - 1)
  }

  function ToBytes(n: nat, x: nat): (b: seq<Byte>)
    ensures |b| == n
  {
    if n == 0 then [] else [x % 0x100] + ToBytes(n - 1, x / 0x100)
  }

  function FromBytes(b: seq<Byte>): (x: nat)
    ensures x < Pow256(|b|)
  {
    if b == [] then 0 else b[0] + 0x100 * FromBytes(b[1..])
  }

  lemma {:induction false} BytesBack(n: nat, x: nat)
    requires x < Pow256(n)
    ensures FromBytes(ToBytes(n, x)) == x
  {
    if n > 0 {
      BytesBack(n - 1, x / 0x100);
      assert ToBytes(n, x)[1..] == ToBytes(n - 1, x / 0x100);
    }
  }

  /** The number in [0, 256^n) that a two's complement number is stored as. */
  function Unsigned(n: nat, v: int): int {
    if v < 0 then v + Pow256(n) else v
  }

  function Signed(n: nat, x: nat): int {
    if 2 * x < Pow256(n) then x else x - Pow256(n)
  }

  lemma Powers()
    ensures Pow256(4) == 0x1_0000_0000 && Pow256(8) == 0x1_0000_0000_0000_0000
  {
    assert Pow256(1) == 0x100;
    assert Pow256(2) == 0x1_0000;
    assert Pow256(3) == 0x100_0000;
    assert Pow256(5) == 0x100 * Pow256(4);
    assert Pow256(6) == 0x100 * Pow256(5);
    assert Pow256(7) == 0x100 * Pow256(6);
  }

  /** An int that counted past its largest value goes on from its smallest. */
  function Wrapped(x: int): (v: Int32)
    ensures -0x8000_0000 <= x <= MAX_INT ==> v == x
  {
    (x + 0x8000_0000) % 0x1_0000_0000 - 0x8000_0000
  }

  function IntBytes(v: Int32): (b: seq<Byte>)
    ensures |b| == 4
  {
    Powers();
    ToBytes(4, Unsigned(4, v))
  }

  function IntOf(b: seq<Byte>): Int32
    requires |b| == 4
  {
    Powers();
    Signed(4, FromBytes(b))
  }

  function LongBytes(v: Int64): (b: seq<Byte>)
    ensures |b| == 8
  {
    Powers();
    ToBytes(8, Unsigned(8, v))
  }

  function LongOf(b: seq<Byte>): Int64
    requires |b| == 8
  {
    Powers();
    Signed(8, FromBytes(b))
  }

  function WordBytes(v: Word): (b: seq<Byte>)
    ensures |b| == 8
  {
    ToBytes(8, v)
  }

  function WordOf(b: seq<Byte>): Word
    requires |b| == 8
  {
    Powers();
    FromBytes(b)
  }

  lemma NumbersBack(i: Int32, l: Int64, w: Word)
    ensures IntOf(IntBytes(i)) == i && LongOf(LongBytes(l)) == l && WordOf(WordBytes(w)) == w
  {
    Powers();
    BytesBack(4, Unsigned(4, i));
    BytesBack(8, Unsigned(8, l));
    BytesBack(8, w);
  }

  // ----- strings -----

  /** A continuation byte. */
  predicate Follows(b: seq<Byte>, i: nat) {
    i < |b| && 0x80 <= b[i] < 0xC0
  }

  /** The bits of a byte above a base, moved up. */
  function Bits(b: seq<Byte>, i: nat, base: int, unit: int): int
    requires i < |b|
  {
    var x: int := b[i];
    (x - base) * unit
  }

  /** The length of the character that some bytes begin with, or 0 if they begin with none:
      section 3 of RFC 3629, without overlong forms, surrogates and numbers above 10FFFF. */
  function CharLength(b: seq<Byte>): (k: nat)
    ensures k <= |b|
  {
    if b == [] then 0
    else if b[0] < 0x80 then 1
    else if 0xC0 <= b[0] < 0xE0 && Follows(b, 1) && 0x80 <= Bits(b, 0, 0xC0, 0x40) + Bits(b, 1, 0x80, 1) then 2
    else if 0xE0 <= b[0] < 0xF0 && Follows(b, 1) && Follows(b, 2) then
      var c := Bits(b, 0, 0xE0, 0x1000) + Bits(b, 1, 0x80, 0x40) + Bits(b, 2, 0x80, 1);
      if 0x800 <= c && !(0xD800 <= c < 0xE000) then 3 else 0
    else if 0xF0 <= b[0] < 0xF8 && Follows(b, 1) && Follows(b, 2) && Follows(b, 3) then
      var c := Bits(b, 0, 0xF0, 0x4_0000) + Bits(b, 1, 0x80, 0x1000) + Bits(b, 2, 0x80, 0x40) + Bits(b, 3, 0x80, 1);
      if 0x1_0000 <= c < 0x11_0000 then 4 else 0
    else 0
  }

  predicate WellFormed(b: seq<Byte>) {
    b == [] || (CharLength(b) > 0 && WellFormed(b[CharLength(b)..]))
  }

  /** How bytes are made a string, given by the string's own UTF-8 bytes, or refused. */
  type Charset = seq<Byte> -> Option<seq<Byte>>

  /** A charset that reads well-formed bytes as what they are. */
  ghost predicate Faithful(cs: Charset) {
    forall b: seq<Byte> :: WellFormed(b) ==> cs(b) == Some(b)
  }

  /** The charset that refuses malformed bytes. */
  const STRICT: Charset := (b: seq<Byte>) => if WellFormed(b) then Some(b) else None

  /** Short strings have a tag of their own. */
  predicate Compact(length: int) {
    0 <= length <= 25 || length == 32
  }

  function CompactTag(length: nat): Byte
    requires Compact(length)
  {
    if length == 32 then STR_32 else STR_0 + length
  }

  predicate IsCompactTag(tag: Byte) {
    STR_0 <= tag <= STR_32
  }

  function CompactLength(tag: Byte): (length: nat)
    requires IsCompactTag(tag)
    ensures Compact(length) && CompactTag(length) == tag
  {
    if tag == STR_32 then 32 else tag - STR_0
  }
}

/** The wire format in numbers. */
module WireFormat {
  import opened Wire
  import opened Values
  import opened Encoding
  import opened Decoding

  /** The four bytes of a number, the lowest first. */
  function Four(x: int): seq<Byte>
    requires 0 <= x < 0x1_0000_0000
  {
    [x % 0x100, x / 0x100 % 0x100, x / 0x1_0000 % 0x100, x / 0x100_0000]
  }

  /** Bytes are the bytes of the number they make. */
  lemma {:induction false} BytesAre(b: seq<Byte>)
    ensures ToBytes(|b|, FromBytes(b)) == b
  {
    if b != [] {
      BytesAre(b[1..]);
      var x := FromBytes(b[1..]);
      assert FromBytes(b) % 0x100 == b[0] && FromBytes(b) / 0x100 == x;
      assert b == [b[0]] + b[1..];
    }
  }

  lemma FourMake(x: int, rest: seq<Byte>)
    requires 0 <= x < 0x1_0000_0000
    ensures FromBytes(Four(x) + rest) == x + 0x1_0000_0000 * FromBytes(rest)
  {
    var b := Four(x) + rest;
    assert b[1..][1..][1..][1..] == rest;
    assert x == x % 0x100 + 0x100 * (x / 0x100 % 0x100) + 0x1_0000 * (x / 0x1_0000 % 0x100)
      + 0x100_0000 * (x / 0x100_0000) by {
      assert x / 0x100 / 0x100 == x / 0x1_0000 && x / 0x1_0000 / 0x100 == x / 0x100_0000;
    }
    assert FromBytes(b[1..][1..][1..]) == x / 0x100_0000 + 0x100 * FromBytes(rest);
    assert FromBytes(b[1..][1..]) == x / 0x1_0000 % 0x100 + 0x100 * FromBytes(b[1..][1..][1..]);
    assert FromBytes(b[1..]) == x / 0x100 % 0x100 + 0x100 * FromBytes(b[1..][1..]);
  }

  lemma FourBytes(x: int)
    requires 0 <= x < 0x1_0000_0000
    ensures ToBytes(4, x) == Four(x)
  {
    assert Four(x) + [] == Four(x);
    FourMake(x, []);
    BytesAre(Four(x));
  }

  lemma EightBytes(x: int)
    requires 0 <= x < 0x1_0000_0000_0000_0000
    ensures ToBytes(8, x) == Four(x % 0x1_0000_0000) + Four(x / 0x1_0000_0000)
  {
    var lo, hi := x % 0x1_0000_0000, x / 0x1_0000_0000;
    FourMake(lo, Four(hi));
    assert Four(hi) + [] == Four(hi);
    FourMake(hi, []);
    BytesAre(Four(lo) + Four(hi));
  }

  /** Ints, longs and doubles: the lowest byte first, negative numbers in two's complement. */
  lemma NumberBytes(i: Int32, l: Int64, w: Word)
    ensures var u: int, v: int := (if i < 0 then i + 0x1_0000_0000 else i),
        (if l < 0 then l + 0x1_0000_0000_0000_0000 else l);
      && IntBytes(i) == Four(u)
      && LongBytes(l) == Four(v % 0x1_0000_0000) + Four(v / 0x1_0000_0000)
      && WordBytes(w) == Four(w % 0x1_0000_0000) + Four(w / 0x1_0000_0000)
  {
    Powers();
    FourBytes(if i < 0 then i + 0x1_0000_0000 else i);
    EightBytes(if l < 0 then l + 0x1_0000_0000_0000_0000 else l);
    EightBytes(w);
  }

  /** What is written for values without parts. */
  lemma ScalarCodes(i: Int32, l: Int64, w: Word, s: seq<Byte>)
    requires |s| <= 0x7FFF_FFFF
    ensures Enc(Null) == [127] && Enc(Bool(false)) == [0] && Enc(Bool(true)) == [1]
    ensures Enc(Int(i)) == [4] + IntBytes(i) && Enc(Long(l)) == [10] + LongBytes(l)
    ensures Enc(Double(w)) == [15] + WordBytes(w)
    ensures Enc(Bytes(s)) == [9] + Four(|s|) + s
    ensures Enc(Date(s)) == Enc(Str(s))
      == if |s| <= 25 then [50 + |s|] + s else if |s| == 32 then [76] + s else [5] + Four(|s|) + s
  {
    CountBytes(|s|);
  }

  lemma CountBytes(n: nat)
    requires n <= 0x7FFF_FFFF
    ensures LengthBytes(n) == Four(n)
  {
    NumberBytes(n, 0, 0);
  }

  function Joined(parts: seq<seq<Byte>>): seq<Byte> {
    if parts == [] then [] else parts[0] + Joined(parts[1..])
  }

  function Codes(vs: seq<Value>): seq<seq<Byte>> {
    seq(|vs|, i requires 0 <= i < |vs| => Enc(vs[i]))
  }

  function EntryCodes(es: seq<Entry>): seq<seq<Byte>> {
    seq(|es|, i requires 0 <= i < |es| => Enc(es[i].key) + Enc(es[i].value))
  }

  /** Behind each number, from p on, an element. */
  function NumberedCodes(vs: seq<Value>, p: nat): seq<seq<Byte>>
    requires p + |vs| <= 0x8000_0000
  {
    seq(|vs|, i requires 0 <= i < |vs| => [4] + Four(p + i) + Enc(vs[i]))
  }

  lemma {:induction false} AllCodes(vs: seq<Value>)
    requires forall i :: 0 <= i < |vs| ==> Known(vs[i])
    ensures EncAll(vs) == Joined(Codes(vs))
  {
    if vs != [] {
      AllCodes(vs[1..]);
      assert Codes(vs)[1..] == Codes(vs[1..]);
    }
  }

  lemma {:induction false} AllEntryCodes(es: seq<Entry>)
    requires forall i :: 0 <= i < |es| ==> KnownEntry(es[i])
    ensures EncEntries(es) == Joined(EntryCodes(es))
  {
    if es != [] {
      AllEntryCodes(es[1..]);
      assert EntryCodes(es)[1..] == EntryCodes(es[1..]);
    }
  }

  lemma PositionCode(p: nat)
    requires p < 0x8000_0000
    ensures IntCode(Wrapped(p)) == [4] + Four(p)
  {
    NumberBytes(p, 0, 0);
  }

  lemma FirstNumbered(vs: seq<Value>, p: nat)
    requires p + |vs| <= 0x8000_0000 && vs != [] && Known(vs[0])
    ensures EncNumbered(vs, p) == [4] + Four(p) + Enc(vs[0]) + EncNumbered(vs[1..], p + 1)
    ensures Joined(NumberedCodes(vs, p)) == [4] + Four(p) + Enc(vs[0]) + Joined(NumberedCodes(vs[1..], p + 1))
  {
    PositionCode(p);
    hide Four, IntCode, Wrapped, Enc;
    assert NumberedCodes(vs, p)[1..] == NumberedCodes(vs[1..], p + 1);
  }

  lemma {:induction false} AllNumberedCodes(vs: seq<Value>, p: nat)
    requires p + |vs| <= 0x8000_0000 && forall i :: 0 <= i < |vs| ==> Known(vs[i])
    ensures EncNumbered(vs, p) == Joined(NumberedCodes(vs, p))
  {
    if vs != [] {
      AllNumberedCodes(vs[1..], p + 1);
      FirstNumbered(vs, p);
    }
  }

  /** What is written for containers of known elements: a tag, the number of elements, and the elements one
      after the other; those of a set behind the numbers 1, 2, and so on. */
  lemma ContainerCodes(kind: Kind, vs: seq<Value>, es: seq<Entry>)
    requires |vs| <= 0x7FFF_FFFF && |es| <= 0x7FFF_FFFF
    requires (forall i :: 0 <= i < |vs| ==> Known(vs[i])) && (forall i :: 0 <= i < |es| ==> KnownEntry(es[i]))
    ensures var tag: Byte := match kind case AnyList => 12 case Integers => 13 case Strings => 14 case Longs => 16;
      Enc(Items(kind, vs)) == [tag] + Four(|vs|) + Joined(Codes(vs))
    ensures Enc(Map(es)) == [8] + Four(|es|) + Joined(EntryCodes(es))
    ensures Enc(SetOf(vs)) == [8] + Four(|vs|) + Joined(NumberedCodes(vs, 1))
  {
    hide Joined, Codes, EntryCodes, NumberedCodes, Four, EncAll, EncEntries, EncNumbered, LengthBytes;
    AllCodes(vs);
    AllEntryCodes(es);
    AllNumberedCodes(vs, 1);
    CountBytes(|vs|);
    CountBytes(|es|);
  }

  // ----- which tags the reader knows -----

  lemma UnknownTags(cs: Charset, b: seq<Byte>)
    requires b != []
    ensures var t := b[0];
      Dec(cs, b) == Failed(UnknownTag, 1) <==> !(t in {0, 1, 4, 5, 8, 9, 10, 12, 13, 14, 15, 16, 127} || 50 <= t <= 76)
  {
    hide DecBody, LongOf, WordOf, IntOf;
  }

  /** What a missing, or a negative, number behind the tag leads to. */
  lemma BadNumbers(cs: Charset, b: seq<Byte>)
    requires b != []
    ensures |b| < 5 && b[0] in {4, 5, 8, 9, 12, 13, 14, 16} ==> Dec(cs, b) == Failed(Underflow, 1)
    ensures |b| < 9 && b[0] in {10, 15} ==> Dec(cs, b) == Failed(Underflow, 1)
    ensures |b| >= 5 && IntOf(b[1..5]) < 0 ==>
      && (b[0] in {9, 13, 14, 16} ==> Dec(cs, b) == Failed(NegativeSize, 5))
      && (b[0] == 5 ==> Dec(cs, b) == Got(Str([]), 5))
      && (b[0] == 8 ==> Dec(cs, b) == Got(Map([]), 5))
      && (b[0] == 12 ==> Dec(cs, b) == Got(Items(AnyList, []), 5))
  {
    hide IntOf, LongOf, WordOf;
    if |b| >= 5 && IntOf(b[1..5]) < 0 {
      assert DecEntries(cs, b[5..], IntOf(b[1..5]), []) == Got([], 0);
      assert DecItems(cs, b[5..], IntOf(b[1..5]), AnyList, []) == Got([], 0);
    }
  }
}

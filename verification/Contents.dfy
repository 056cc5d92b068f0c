/** The laws of the codec on concrete contents. */
module Contents {
  import opened Wrappers
  import opened Wire
  import opened Values
  import opened Encoding
  import opened Decoding
  import opened RoundTrip

  // ----- arrays of boxed elements -----

  /** null, or a string that UTF-8 can say. */
  predicate NullOrString(v: Value) {
    v == Null || (v.Str? && |v.utf8| <= 0x7FFF_FFFF && WellFormed(v.utf8))
  }

  /** A value without parts that comes back as it is. */
  predicate Leaf(v: Value) {
    NullOrString(v) || v.Bool? || v.Int? || v.Long?
  }

  lemma LeafFacts(v: Value)
    requires Leaf(v)
    ensures Supported(v) && ScalarKeys(v) && ScalarKey(v) && Plain(v) && Norm(v) == v
  {
  }

  lemma LeafItems(kind: Kind, items: seq<Value>)
    requires |items| <= MAX_INT && forall i :: 0 <= i < |items| ==> Leaf(items[i]) && Fits(kind, items[i])
    ensures Supported(Items(kind, items)) && ScalarKeys(Items(kind, items))
    ensures Norm(Items(kind, items)) == Items(kind, items)
  {
    forall i | 0 <= i < |items| ensures Supported(items[i]) && ScalarKeys(items[i]) && Norm(items[i]) == items[i] {
      LeafFacts(items[i]);
    }
    assert Norm(Items(kind, items)).items == items;
  }

  lemma StringsBack(cs: Charset, items: seq<Value>, tail: seq<Byte>)
    requires Faithful(cs) && |items| <= 0x7FFF_FFFF && forall i :: 0 <= i < |items| ==> NullOrString(items[i])
    ensures Dec(cs, Enc(Items(Strings, items)) + tail) == Got(Items(Strings, items), |Enc(Items(Strings, items))|)
  {
    LeafItems(Strings, items);
    RoundTrip.RoundTrip(cs, Items(Strings, items), tail);
  }

  lemma IntegersBack(cs: Charset, items: seq<Value>, tail: seq<Byte>)
    requires Faithful(cs) && |items| <= 0x7FFF_FFFF && forall i :: 0 <= i < |items| ==>
        items[i] == Null || items[i].Int?
    ensures Dec(cs, Enc(Items(Integers, items)) + tail) == Got(Items(Integers, items), |Enc(Items(Integers, items))|)
  {
    LeafItems(Integers, items);
    RoundTrip.RoundTrip(cs, Items(Integers, items), tail);
  }

  lemma LongsBack(cs: Charset, items: seq<Value>, tail: seq<Byte>)
    requires Faithful(cs) && |items| <= 0x7FFF_FFFF && forall i :: 0 <= i < |items| ==>
        items[i] == Null || items[i].Long?
    ensures Dec(cs, Enc(Items(Longs, items)) + tail) == Got(Items(Longs, items), |Enc(Items(Longs, items))|)
  {
    LeafItems(Longs, items);
    RoundTrip.RoundTrip(cs, Items(Longs, items), tail);
  }

  /** Values of the class that an array of boxed elements holds. */
  predicate OfArray(tag: Byte, v: Value) {
    v == Null || (tag == 13 && v.Int?) || (tag == 14 && NullOrString(v)) || (tag == 16 && v.Long?)
  }

  predicate OtherClass(tag: Byte, v: Value) {
    v != Null && (tag == 13 ==> !v.Int?) && (tag == 14 ==> !v.Str?) && (tag == 16 ==> !v.Long?)
  }

  /** An element of another class raises ClassCastException, when it has been read. */
  lemma OtherClassRefused(cs: Charset, tag: Byte, n: nat, good: seq<Value>, rest: seq<Byte>, v: Value, k: nat)
    requires Faithful(cs) && tag in {13, 14, 16} && |good| < n <= 0x7FFF_FFFF
    requires forall i :: 0 <= i < |good| ==> OfArray(tag, good[i])
    requires Dec(cs, rest) == Got(v, k) && OtherClass(tag, v)
    ensures Dec(cs, [tag] + LengthBytes(n) + EncAll(good) + rest) == Failed(ClassCast, 5 + |EncAll(good)| + k)
  {
    var kind := KindOf(tag).value;
    forall i | 0 <= i < |good| ensures Plain(good[i]) && Supported(good[i]) && Fits(kind, good[i]) {
      LeafFacts(good[i]);
    }
    OtherElement(cs, kind, n, good, rest, v, k, []);
    var b := [tag] + LengthBytes(n) + EncAll(good) + rest;
    assert b == Header(tag, n) + (EncAll(good) + rest);
    ArrayBody(cs, tag, n, EncAll(good) + rest);
  }

  lemma ArrayBody(cs: Charset, tag: Byte, n: nat, body: seq<Byte>)
    requires tag in {13, 14, 16} && n <= MAX_INT
    ensures var r := DecItems(cs, body, n, KindOf(tag).value, []);
      r.Failed? ==> Dec(cs, Header(tag, n) + body) == Failed(r.error, 5 + r.used)
  {
    hide DecItems, DecEntries, DecStr, DecLength, Header, IntOf;
    HeaderBack(tag, n, body);
  }

  lemma {:induction false} OtherElement(cs: Charset, kind: Kind, n: nat, good: seq<Value>, rest: seq<Byte>, v: Value,
                                        k: nat, acc: seq<Value>)
    requires Faithful(cs) && |good| < n && Dec(cs, rest) == Got(v, k) && !Fits(kind, v)
    requires forall i :: 0 <= i < |good| ==> Plain(good[i]) && Supported(good[i]) && Fits(kind, good[i])
    ensures DecItems(cs, EncAll(good) + rest, n, kind, acc) == Failed(ClassCast, |EncAll(good)| + k)
    decreases good
  {
    hide Dec, Plain, Supported, Fits, AsRead;
    if good == [] {
      assert EncAll(good) + rest == rest;
    } else {
      var w, body := good[0], EncAll(good[1..]);
      SupportedKnown(w);
      PlainBack(cs, w, body + rest);
      FitsAsRead(kind, w);
      OtherElement(cs, kind, n - 1, good[1..], rest, v, k, acc + [AsRead(w)]);
      ElementThen(cs, kind, n, Enc(w), body, rest, AsRead(w), acc);
    }
  }

  lemma ElementThen(cs: Charset, kind: Kind, n: nat, code: seq<Byte>, body: seq<Byte>, rest: seq<Byte>, v: Value,
                    acc: seq<Value>)
    requires n > 0 && Dec(cs, code + (body + rest)) == Got(v, |code|) && Fits(kind, v)
    ensures DecItems(cs, (code + body) + rest, n, kind, acc)
      == Plus(|code|, DecItems(cs, body + rest, n - 1, kind, acc + [v]))
  {
    hide Dec, Fits;
    assert (code + body) + rest == code + (body + rest);
    assert (code + (body + rest))[|code|..] == body + rest;
  }

  // ----- what the laws assume, content by content -----

  /** Which values the laws are about. */
  lemma SupportedScalars(b: bool, i: Int32, l: Int64, w: Word)
    ensures Supported(Null) && Supported(Bool(b)) && Supported(Int(i)) && Supported(Long(l)) && Supported(Double(w))
  {
  }

  /** Whatever a charset makes of malformed bytes. */
  lemma FaithfulCharsets(f: Charset)
    ensures Faithful((b: seq<Byte>) => if WellFormed(b) then Some(b) else f(b)) && Faithful(STRICT)
  {
  }

  lemma ScalarKeyContents(kind: Kind, items: seq<Value>, es: seq<Entry>)
    ensures (forall i :: 0 <= i < |items| ==> ScalarKeys(items[i])) ==>
        ScalarKeys(Items(kind, items)) && ScalarKeys(SetOf(items))
    ensures (forall i :: 0 <= i < |es| ==> Leaf(es[i].key) && ScalarKeys(es[i].value)) ==>
        (forall i, j :: 0 <= i < j < |es| ==> es[i].key != es[j].key) ==> ScalarKeys(Map(es))
  {
  }

  lemma SupportedContents(text: seq<Byte>, kind: Kind, items: seq<Value>, es: seq<Entry>)
    requires |text| <= 0x7FFF_FFFF && |items| <= 0x7FFF_FFFF && |es| <= 0x7FFF_FFFF
    ensures Supported(Bytes(text)) && (WellFormed(text) ==> Supported(Str(text)) && Supported(Date(text)))
    ensures (forall i :: 0 <= i < |items| ==> Supported(items[i])) ==>
        Supported(Items(AnyList, items)) && Supported(SetOf(items))
    ensures (forall i :: 0 <= i < |es| ==> Supported(es[i].key) && Supported(es[i].value)) ==> Supported(Map(es))
  {
  }

  /** Sets, dates and arrays of primitives come back as what stands for them. */
  lemma SetsBack(cs: Charset, elems: seq<Value>, tail: seq<Byte>) returns (es: seq<Entry>)
    requires Faithful(cs) && |elems| <= 0x7FFF_FFFF
    requires forall i :: 0 <= i < |elems| ==> Supported(elems[i]) && ScalarKeys(elems[i])
    ensures |es| == |elems| && forall i :: 0 <= i < |es| ==> es[i] == Entry(Int(i + 1), Norm(elems[i]))
    ensures Dec(cs, Enc(SetOf(elems)) + tail) == Got(Map(es), |Enc(SetOf(elems))|)
  {
    es := Norm(SetOf(elems)).entries;
    RoundTrip.RoundTrip(cs, SetOf(elems), tail);
  }

  lemma PrimitivesBack(cs: Charset, ints: seq<Int32>, longs: seq<Int64>, bools: seq<bool>, date: seq<Byte>,
                       tail: seq<Byte>)
    returns (a: seq<Value>, b: seq<Value>, c: seq<Value>)
    requires Faithful(cs) && |ints| <= 0x7FFF_FFFF && |longs| <= 0x7FFF_FFFF && |bools| <= 0x7FFF_FFFF
    requires |date| <= 0x7FFF_FFFF && WellFormed(date)
    ensures |a| == |ints| && (forall i :: 0 <= i < |a| ==> a[i] == Int(ints[i]))
    ensures Dec(cs, Enc(IntArr(ints)) + tail) == Got(Items(Integers, a), |Enc(IntArr(ints))|)
    ensures |b| == |longs| && (forall i :: 0 <= i < |b| ==> b[i] == Long(longs[i]))
    ensures Dec(cs, Enc(LongArr(longs)) + tail) == Got(Items(Longs, b), |Enc(LongArr(longs))|)
    ensures |c| == |bools| && (forall i :: 0 <= i < |c| ==> c[i] == Bool(bools[i]))
    ensures Dec(cs, Enc(BoolArr(bools)) + tail) == Got(Items(AnyList, c), |Enc(BoolArr(bools))|)
    ensures Dec(cs, Enc(Date(date)) + tail) == Got(Str(date), |Enc(Date(date))|)
  {
    hide Dec, WellFormed, Faithful;
    a, b, c := Norm(IntArr(ints)).items, Norm(LongArr(longs)).items, Norm(BoolArr(bools)).items;
    RoundTrip.RoundTrip(cs, IntArr(ints), tail);
    RoundTrip.RoundTrip(cs, LongArr(longs), tail);
    RoundTrip.RoundTrip(cs, BoolArr(bools), tail);
    RoundTrip.RoundTrip(cs, Date(date), tail);
  }

  lemma LeafEntries(es: seq<Entry>)
    requires |es| <= MAX_INT && forall i :: 0 <= i < |es| ==> Leaf(es[i].key) && Leaf(es[i].value)
    requires forall i, j :: 0 <= i < j < |es| ==> es[i].key != es[j].key
    ensures Supported(Map(es)) && ScalarKeys(Map(es)) && Norm(Map(es)) == Map(es)
  {
    forall i | 0 <= i < |es|
      ensures Supported(es[i].key) && Supported(es[i].value) && ScalarKey(es[i].key) && ScalarKeys(es[i].value)
      ensures Norm(es[i].key) == es[i].key && Norm(es[i].value) == es[i].value
    {
      LeafFacts(es[i].key);
      LeafFacts(es[i].value);
    }
    assert Norm(Map(es)).entries == es;
  }

  /** Maps from null, booleans, ints, longs and strings come back whole, in particular. */
  lemma MapsBack(cs: Charset, es: seq<Entry>, tail: seq<Byte>)
    requires Faithful(cs) && |es| <= 0x7FFF_FFFF
    requires forall i :: 0 <= i < |es| ==>
        Leaf(es[i].key) && Leaf(es[i].value)
    requires forall i, j :: 0 <= i < j < |es| ==> es[i].key != es[j].key
    ensures Dec(cs, Enc(Map(es)) + tail) == Got(Map(es), |Enc(Map(es))|)
  {
    LeafEntries(es);
    RoundTrip.RoundTrip(cs, Map(es), tail);
  }

  // ----- tables -----

  /** The first entry with an equal key. */
  predicate FirstSame(es: seq<Entry>, key: Value, i: int) {
    0 <= i < |es| && SameKey(key, es[i].key) && forall j :: 0 <= j < i ==> !SameKey(key, es[j].key)
  }

  /** Putting: an equal key keeps its place and its first form and gets the new value, and a new one comes
      last; every other entry stays. */
  lemma {:induction false} PutExactly(es: seq<Entry>, key: Value, value: Value)
    ensures (forall i :: 0 <= i < |es| ==> !SameKey(key, es[i].key)) ==> Put(es, key, value) == es + [Entry(key, value)]
    ensures forall i :: FirstSame(es, key, i) ==> Put(es, key, value) == es[i := Entry(es[i].key, value)]
  {
    PutNew(es, key, value);
    if es != [] && !SameKey(key, es[0].key) {
      PutExactly(es[1..], key, value);
      forall i | FirstSame(es, key, i) ensures Put(es, key, value) == es[i := Entry(es[i].key, value)] {
        assert es[i] == es[1..][i - 1] && FirstSame(es[1..], key, i - 1);
        assert es[i := Entry(es[i].key, value)] == [es[0]] + es[1..][i - 1 := Entry(es[i].key, value)];
      }
    }
  }

  /** equals of keys: the same class and contents; all doubles that are not numbers are equal. */
  lemma KeysEqual(a: Value, b: Value)
    ensures a.Null? || a.Bool? || a.Int? || a.Long? || a.Str? ==> (SameKey(a, b) <==> a == b)
    ensures a.Double? ==> (SameKey(a, b) <==> a == b || (b.Double? && NotNumber(a.word) && NotNumber(b.word)))
    ensures a.Bytes? || (a.Items? && a.kind != AnyList) ==> !SameKey(a, b)
    ensures a.Items? && a.kind == AnyList ==>
        (SameKey(a, b) <==> b.Items? && b.kind == AnyList && |b.items| == |a.items|
                            && forall i :: 0 <= i < |a.items| ==> SameKey(a.items[i], b.items[i]))
  {
  }

  /** The bits of the doubles above infinity, of either sign. */
  predicate NotNumber(w: Word) {
    0x7FF0_0000_0000_0000 < w < 0x8000_0000_0000_0000 || 0xFFF0_0000_0000_0000 < w
  }
}

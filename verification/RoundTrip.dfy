/** Reading what was written. */
module RoundTrip {
  import opened Wire
  import opened Values
  import opened Encoding
  import opened Decoding

  lemma HeaderBack(tag: Byte, n: nat, rest: seq<Byte>)
    requires n <= MAX_INT
    ensures var b := Header(tag, n) + rest; b[0] == tag && |b| >= 5 && DecLength(b) == Got(n, 5) && b[5..] == rest
  {
    assert (Header(tag, n) + rest)[1..5] == LengthBytes(n);
  }

  lemma ScalarBack(cs: Charset, w: Value, tail: seq<Byte>)
    requires w.Null? || w.Bool? || w.Int? || w.Long? || w.Double?
    ensures Dec(cs, Enc(w) + tail) == Got(w, |Enc(w)|)
  {
    hide IntOf, LongOf, WordOf, DecItems, DecEntries, DecStr;
    var b := Enc(w) + tail;
    match w
    case Null =>
    case Bool(_) =>
    case Int(i) =>
      NumbersBack(i, 0, 0);
      assert b[1..5] == IntBytes(i);
    case Long(l) =>
      NumbersBack(0, l, 0);
      assert b[1..9] == LongBytes(l);
    case Double(x) =>
      NumbersBack(0, 0, x);
      assert b[1..9] == WordBytes(x);
  }

  lemma StrBack(cs: Charset, s: seq<Byte>, tail: seq<Byte>)
    requires Faithful(cs) && WellFormed(s) && |s| <= MAX_INT
    ensures Dec(cs, StrCode(s) + tail) == Got(Str(s), |StrCode(s)|)
  {
    var b := StrCode(s) + tail;
    if Compact(|s|) {
      assert b[1..1 + |s|] == s;
      assert b[0] == CompactTag(|s|) && CompactLength(b[0]) == |s|;
    } else {
      LongStrBack(cs, s, tail);
    }
  }

  lemma LongStrBack(cs: Charset, s: seq<Byte>, tail: seq<Byte>)
    requires Faithful(cs) && WellFormed(s) && |s| <= MAX_INT && !Compact(|s|)
    ensures Dec(cs, StrCode(s) + tail) == Got(Str(s), |StrCode(s)|)
  {
    hide WellFormed, LengthBytes, DecLength;
    var b := StrCode(s) + tail;
    assert b == Header(TYPE_STRING, |s|) + (s + tail);
    HeaderBack(TYPE_STRING, |s|, s + tail);
    assert b[5..5 + |s|] == s;
  }

  lemma BytesValueBack(cs: Charset, d: seq<Byte>, tail: seq<Byte>)
    requires |d| <= MAX_INT
    ensures Dec(cs, Enc(Bytes(d)) + tail) == Got(Bytes(d), |Enc(Bytes(d))|)
  {
    var b := Enc(Bytes(d)) + tail;
    assert b == Header(TYPE_BYTES, |d|) + (d + tail);
    HeaderBack(TYPE_BYTES, |d|, d + tail);
    assert b[5..5 + |d|] == d;
  }

  /** What was written for a value of a reader's class is read as that value, its maps put together again,
      and exactly the bytes after it are left. */
  lemma {:induction false} PlainBack(cs: Charset, w: Value, tail: seq<Byte>)
    requires Faithful(cs) && Plain(w) && Supported(w)
    ensures Dec(cs, Enc(w) + tail) == Got(AsRead(w), |Enc(w)|)
    decreases w
  {
    match w
    case Str(s) => StrBack(cs, s, tail);
    case Bytes(d) => BytesValueBack(cs, d, tail);
    case Items(kind, items) =>
      ItemsBack(cs, items, tail, kind, []);
      assert [] + AsReadAll(items) == AsReadAll(items);
      ListBack(cs, kind, |items|, EncAll(items), tail, AsReadAll(items));
    case Map(es) =>
      EntriesBack(cs, es, tail, []);
      TableBack(cs, |es|, EncEntries(es), tail, PutAll([], EntriesAsRead(es)));
    case _ => ScalarBack(cs, w, tail);
  }

  lemma ContainerBack(tag: Byte, n: nat, body: seq<Byte>, tail: seq<Byte>)
    requires n <= MAX_INT
    ensures var b := Header(tag, n) + body + tail;
      b[0] == tag && |b| >= 5 && DecLength(b) == Got(n, 5) && b[5..] == body + tail
  {
    assert Header(tag, n) + body + tail == Header(tag, n) + (body + tail);
    HeaderBack(tag, n, body + tail);
  }

  lemma ListBack(cs: Charset, kind: Kind, n: nat, body: seq<Byte>, tail: seq<Byte>, vs: seq<Value>)
    requires n <= MAX_INT && DecItems(cs, body + tail, n, kind, []) == Got(vs, |body|)
    ensures Dec(cs, Header(KindTag(kind), n) + body + tail) == Got(Items(kind, vs), 5 + |body|)
  {
    hide DecItems, DecEntries, DecLength, Header;
    ContainerBack(KindTag(kind), n, body, tail);
  }

  lemma TableBack(cs: Charset, n: nat, body: seq<Byte>, tail: seq<Byte>, es: seq<Entry>)
    requires n <= MAX_INT && DecEntries(cs, body + tail, n, []) == Got(es, |body|)
    ensures Dec(cs, Header(TYPE_TABLE, n) + body + tail) == Got(Map(es), 5 + |body|)
  {
    hide DecItems, DecEntries, DecLength, Header;
    ContainerBack(TYPE_TABLE, n, body, tail);
  }

  lemma FitsAsRead(kind: Kind, w: Value)
    ensures Fits(kind, AsRead(w)) == Fits(kind, w)
  {
  }

  lemma {:induction false} ItemsBack(cs: Charset, ws: seq<Value>, tail: seq<Byte>, kind: Kind, acc: seq<Value>)
    requires Faithful(cs)
    requires forall i :: 0 <= i < |ws| ==> Plain(ws[i]) && Supported(ws[i]) && Fits(kind, ws[i])
    ensures DecItems(cs, EncAll(ws) + tail, |ws|, kind, acc) == Got(acc + AsReadAll(ws), |EncAll(ws)|)
    decreases ws
  {
    if ws == [] {
      assert acc + [] == acc;
    } else {
      var w, body := ws[0], EncAll(ws[1..]);
      SupportedKnown(w);
      assert EncAll(ws) == Enc(w) + body && AsReadAll(ws) == [AsRead(w)] + AsReadAll(ws[1..]);
      PlainBack(cs, w, body + tail);
      FitsAsRead(kind, w);
      ItemsBack(cs, ws[1..], tail, kind, acc + [AsRead(w)]);
      ItemsStep(cs, Enc(w), body, tail, |ws|, kind, acc, AsRead(w), AsReadAll(ws[1..]));
    }
  }

  lemma ItemsOne(cs: Charset, b: seq<Byte>, n: nat, kind: Kind, acc: seq<Value>,
                 v: Value, k: nat, vs: seq<Value>, m: nat)
    requires n > 0 && k <= |b| && Dec(cs, b) == Got(v, k) && Fits(kind, v)
    requires DecItems(cs, b[k..], n - 1, kind, acc + [v]) == Got(vs, m)
    ensures DecItems(cs, b, n, kind, acc) == Got(vs, k + m)
  {
    hide Dec, Fits;
  }

  lemma ItemsStep(cs: Charset, code: seq<Byte>, body: seq<Byte>, tail: seq<Byte>, n: nat, kind: Kind, acc: seq<Value>,
                  v: Value, vs: seq<Value>)
    requires n > 0 && Dec(cs, code + (body + tail)) == Got(v, |code|) && Fits(kind, v)
    requires DecItems(cs, body + tail, n - 1, kind, acc + [v]) == Got(acc + [v] + vs, |body|)
    ensures DecItems(cs, (code + body) + tail, n, kind, acc) == Got(acc + ([v] + vs), |code + body|)
  {
    hide *;
    assert (code + body) + tail == code + (body + tail);
    assert (code + (body + tail))[|code|..] == body + tail;
    assert acc + [v] + vs == acc + ([v] + vs);
    ItemsOne(cs, code + (body + tail), n, kind, acc, v, |code|, acc + [v] + vs, |body|);
  }

  lemma EntriesStep(cs: Charset, code: seq<Byte>, body: seq<Byte>, tail: seq<Byte>, n: nat, acc: seq<Entry>,
                    e: Entry, k: nat, m: nat, es: seq<Entry>)
    requires n > 0 && k + m == |code|
    requires Dec(cs, code + (body + tail)) == Got(e.key, k)
    requires Dec(cs, (code + (body + tail))[k..]) == Got(e.value, m)
    requires DecEntries(cs, body + tail, n - 1, Put(acc, e.key, e.value)) == Got(es, |body|)
    ensures DecEntries(cs, (code + body) + tail, n, acc) == Got(es, |code + body|)
  {
    hide Dec, Put, DecEntries;
    Behind(code, body + tail, k, m);
    assert (code + body) + tail == code + (body + tail);
    EntriesUnfold(cs, code + (body + tail), n, acc, e, k, m);
  }

  lemma EntriesUnfold(cs: Charset, b: seq<Byte>, n: nat, acc: seq<Entry>, e: Entry, k: nat, m: nat)
    requires n > 0 && k <= |b| && m <= |b[k..]|
    requires Dec(cs, b) == Got(e.key, k) && Dec(cs, b[k..]) == Got(e.value, m)
    ensures DecEntries(cs, b, n, acc) == Plus(k + m, DecEntries(cs, b[k..][m..], n - 1, Put(acc, e.key, e.value)))
  {
    hide Dec, Put;
  }

  lemma Behind<T>(a: seq<T>, b: seq<T>, k: nat, m: nat)
    requires k + m == |a|
    ensures (a + b)[k..][m..] == b
  {
  }

  lemma {:induction false} EntriesBack(cs: Charset, es: seq<Entry>, tail: seq<Byte>, acc: seq<Entry>)
    requires Faithful(cs)
    requires forall i :: 0 <= i < |es| ==>
        Plain(es[i].key) && Supported(es[i].key) && Plain(es[i].value) && Supported(es[i].value)
    ensures DecEntries(cs, EncEntries(es) + tail, |es|, acc) == Got(PutAll(acc, EntriesAsRead(es)), |EncEntries(es)|)
    decreases es
  {
    if es != [] {
      var body, e := EncEntries(es[1..]), EntryAsRead(es[0]);
      var fs := EntriesAsRead(es[1..]);
      EntryBack(cs, es[0], body + tail);
      assert EncEntries(es) == EncEntry(es[0]) + body;
      assert EntriesAsRead(es) == [e] + fs && PutAll(acc, [e] + fs) == PutAll(Put(acc, e.key, e.value), fs);
      EntriesBack(cs, es[1..], tail, Put(acc, e.key, e.value));
      EntriesStep(cs, EncEntry(es[0]), body, tail, |es|, acc, e, |Enc(es[0].key)|, |Enc(es[0].value)|,
        PutAll(Put(acc, e.key, e.value), fs));
    }
  }

  lemma {:induction false} EntryBack(cs: Charset, e: Entry, rest: seq<Byte>)
    requires Faithful(cs) && Plain(e.key) && Supported(e.key) && Plain(e.value) && Supported(e.value)
    ensures KnownEntry(e)
    ensures var b, k := EncEntry(e) + rest, |Enc(e.key)|;
      && Dec(cs, b) == Got(AsRead(e.key), k)
      && Dec(cs, b[k..]) == Got(AsRead(e.value), |Enc(e.value)|)
      && b[k..][|Enc(e.value)|..] == rest && |EncEntry(e)| == k + |Enc(e.value)|
    decreases e
  {
    SupportedKnown(e.key);
    SupportedKnown(e.value);
    var b, k := EncEntry(e) + rest, |Enc(e.key)|;
    assert b == Enc(e.key) + (Enc(e.value) + rest);
    PlainBack(cs, e.key, Enc(e.value) + rest);
    assert b[k..] == Enc(e.value) + rest;
    PlainBack(cs, e.value, rest);
    assert b[k..][|Enc(e.value)|..] == rest;
  }

  // ----- when maps come back whole -----

  /** Putting an entry whose key is new. */
  lemma {:induction false} PutNew(es: seq<Entry>, key: Value, value: Value)
    ensures |Put(es, key, value)| <= |es| + 1
    ensures (forall i :: 0 <= i < |es| ==> !SameKey(key, es[i].key)) ==> Put(es, key, value) == es + [Entry(key, value)]
    ensures (exists i :: 0 <= i < |es| && SameKey(key, es[i].key)) ==> |Put(es, key, value)| == |es|
    ensures |es| <= |Put(es, key, value)|
    ensures forall i :: 0 <= i < |es| ==> Put(es, key, value)[i].key == es[i].key
    ensures |Put(es, key, value)| == |es| + 1 ==> Put(es, key, value) == es + [Entry(key, value)]
  {
    if es == [] {
      assert es + [Entry(key, value)] == [Entry(key, value)];
    } else if !SameKey(key, es[0].key) {
      PutNew(es[1..], key, value);
      assert es + [Entry(key, value)] == [es[0]] + (es[1..] + [Entry(key, value)]);
    }
  }

  /** Keys are new when they are put. */
  predicate AllNew(acc: seq<Entry>, es: seq<Entry>) {
    forall i, j :: 0 <= i < j < |acc + es| && j >= |acc| ==> !SameKey((acc + es)[j].key, (acc + es)[i].key)
  }

  /** Nothing is lost just when every key is new. */
  lemma {:induction false} PutAllWhole(acc: seq<Entry>, es: seq<Entry>)
    ensures |PutAll(acc, es)| <= |acc| + |es|
    ensures AllNew(acc, es) <==> |PutAll(acc, es)| == |acc| + |es|
    ensures |PutAll(acc, es)| == |acc| + |es| ==> PutAll(acc, es) == acc + es
    decreases es
  {
    if es == [] {
      assert acc + es == acc;
    } else {
      var e, fs := es[0], es[1..];
      var put := Put(acc, e.key, e.value);
      assert PutAll(acc, es) == PutAll(put, fs);
      PutNew(acc, e.key, e.value);
      PutAllWhole(put, fs);
      hide Put, SameKey, AllNew, PutAll;
      assert es == [e] + fs && acc + es == (acc + [e]) + fs && e == Entry(e.key, e.value);
      AllNewStep(acc, e, fs);
    }
  }

  lemma AllNewStep(acc: seq<Entry>, e: Entry, fs: seq<Entry>)
    ensures AllNew(acc, [e] + fs)
        <==> (forall i :: 0 <= i < |acc| ==> !SameKey(e.key, acc[i].key)) && AllNew(acc + [e], fs)
  {
    assert acc + ([e] + fs) == (acc + [e]) + fs;
    var all := (acc + [e]) + fs;
    assert all[|acc|] == e;
    if AllNew(acc, [e] + fs) {
      forall i | 0 <= i < |acc| ensures !SameKey(e.key, acc[i].key) {
        assert acc[i] == all[i];
      }
    }
    if (forall i :: 0 <= i < |acc| ==> !SameKey(e.key, acc[i].key)) && AllNew(acc + [e], fs) {
      forall i, j | 0 <= i < j < |all| && j >= |acc| ensures !SameKey(all[j].key, all[i].key) {
        assert j == |acc| ==> all[i] == acc[i];
      }
    }
  }

  lemma NewFromNone(es: seq<Entry>)
    ensures AllNew([], es) <==> forall i, j :: 0 <= i < j < |es| ==> !SameKey(es[j].key, es[i].key)
  {
    assert [] + es == es;
  }

  lemma MapBackWhole(es: seq<Entry>)
    requires forall i :: 0 <= i < |es| ==> (AsRead(es[i].key) == es[i].key <==> Apart(es[i].key))
    requires forall i :: 0 <= i < |es| ==> (AsRead(es[i].value) == es[i].value <==> Apart(es[i].value))
    ensures PutAll([], EntriesAsRead(es)) == es <==> Apart(Map(es))
  {
    hide *;
    var fs := EntriesAsRead(es);
    PartsBackWhole(es);
    ApartParts(es);
    PutAllWhole([], fs);
    assert [] + fs == fs;
  }

  lemma ApartParts(es: seq<Entry>)
    ensures Apart(Map(es)) <==> PartsApart(es) && AllNew([], es)
  {
    hide SameKey;
    NewFromNone(es);
  }

  predicate PartsApart(es: seq<Entry>) {
    forall i :: 0 <= i < |es| ==> Apart(es[i].key) && Apart(es[i].value)
  }

  lemma PartsBackWhole(es: seq<Entry>)
    requires forall i :: 0 <= i < |es| ==> (AsRead(es[i].key) == es[i].key <==> Apart(es[i].key))
    requires forall i :: 0 <= i < |es| ==> (AsRead(es[i].value) == es[i].value <==> Apart(es[i].value))
    ensures EntriesAsRead(es) == es <==> PartsApart(es)
  {
    var fs := EntriesAsRead(es);
    assert forall i :: 0 <= i < |es| ==> fs[i] == Entry(AsRead(es[i].key), AsRead(es[i].value));
    hide AsRead, Apart, EntriesAsRead;
    if PartsApart(es) {
      assert forall i :: 0 <= i < |es| ==> fs[i] == es[i];
    } else {
      var i :| 0 <= i < |es| && !(Apart(es[i].key) && Apart(es[i].value));
      assert fs[i] != es[i];
    }
  }

  /** A value is read back as it is just when no map in it holds two equal keys. */
  lemma {:induction false} ReadBackWhole(w: Value)
    ensures AsRead(w) == w <==> Apart(w)
    decreases w
  {
    match w
    case Items(_, items) =>
      forall i | 0 <= i < |items| ensures AsRead(items[i]) == items[i] <==> Apart(items[i]) { ReadBackWhole(items[i]); }
      if Apart(w) {
        assert AsReadAll(items) == items;
      }
    case Map(es) =>
      forall i | 0 <= i < |es|
        ensures (AsRead(es[i].key) == es[i].key <==> Apart(es[i].key))
            && (AsRead(es[i].value) == es[i].value <==> Apart(es[i].value))
      {
        ReadBackWhole(es[i].key);
        ReadBackWhole(es[i].value);
      }
      MapBackWhole(es);
    case _ =>
  }

  // ----- the round trip -----

  /** For every supported value and any bytes behind it, the reader returns what its normal form becomes
      when its maps are built again, and has consumed exactly what was written. */
  lemma ReadAfterWrite(cs: Charset, v: Value, tail: seq<Byte>)
    requires Faithful(cs) && Supported(v)
    ensures Dec(cs, Enc(v) + tail) == Got(AsRead(Norm(v)), |Enc(v)|)
    ensures (Enc(v) + tail)[|Enc(v)|..] == tail
  {
    SupportedKnown(v);
    NormSupported(v);
    EncNorm(v);
    PlainBack(cs, Norm(v), tail);
  }

  /** The normal form comes back just when its maps have no equal keys. */
  lemma RoundTripExact(cs: Charset, v: Value, tail: seq<Byte>)
    requires Faithful(cs) && Supported(v)
    ensures Dec(cs, Enc(v) + tail) == Got(Norm(v), |Enc(v)|) <==> Apart(Norm(v))
  {
    ReadAfterWrite(cs, v, tail);
    ReadBackWhole(Norm(v));
  }

  predicate ScalarKey(v: Value) {
    v.Null? || v.Bool? || v.Int? || v.Long? || v.Str?
  }

  /** All map keys are null, booleans, Integers, Longs or Strings, and those of a map differ. */
  predicate ScalarKeys(v: Value) {
    match v
    case Items(_, items) => forall i :: 0 <= i < |items| ==> ScalarKeys(items[i])
    case SetOf(elems) => forall i :: 0 <= i < |elems| ==> ScalarKeys(elems[i])
    case Map(es) =>
      && (forall i :: 0 <= i < |es| ==> ScalarKey(es[i].key) && ScalarKeys(es[i].value))
      && (forall i, j :: 0 <= i < j < |es| ==> es[i].key != es[j].key)
    case _ => true
  }

  lemma {:induction false} ScalarKeysApart(v: Value)
    requires Supported(v) && ScalarKeys(v)
    ensures Apart(Norm(v)) && ScalarKeys(Norm(v))
    decreases v
  {
    match v
    case Items(_, items) =>
      forall i | 0 <= i < |items|
        ensures Apart(Norm(items[i])) && ScalarKeys(Norm(items[i]))
      {
        ScalarKeysApart(items[i]);
      }
    case SetOf(elems) =>
      forall i | 0 <= i < |elems|
        ensures Apart(Norm(elems[i])) && ScalarKeys(Norm(elems[i]))
      {
        ScalarKeysApart(elems[i]);
      }
      NumberedApart(Norm(v).entries);
    case Map(es) =>
      forall i | 0 <= i < |es|
        ensures Apart(Norm(es[i].value)) && ScalarKeys(Norm(es[i].value)) && Norm(es[i].key) == es[i].key
        ensures Apart(es[i].key)
      {
        ScalarKeysApart(es[i].value);
      }
      MapApart(Norm(v).entries);
    case IntArr(xs) => BoxedApart(Norm(v));
    case LongArr(xs) => BoxedApart(Norm(v));
    case BoolArr(xs) => BoxedApart(Norm(v));
    case _ =>
  }

  lemma MapApart(es: seq<Entry>)
    requires forall i :: 0 <= i < |es| ==> ScalarKey(es[i].key) && Apart(es[i].value) && ScalarKeys(es[i].value)
    requires forall i, j :: 0 <= i < j < |es| ==> es[i].key != es[j].key
    ensures Apart(Map(es)) && ScalarKeys(Map(es))
  {
  }

  lemma NumberedApart(es: seq<Entry>)
    requires |es| <= MAX_INT && forall i :: 0 <= i < |es| ==> es[i].key == Int(Wrapped(i + 1))
    requires forall i :: 0 <= i < |es| ==> Apart(es[i].value) && ScalarKeys(es[i].value)
    ensures Apart(Map(es)) && ScalarKeys(Map(es))
  {
    forall i, j | 0 <= i < j < |es| ensures !SameKey(es[j].key, es[i].key) && es[i].key != es[j].key {
      assert Wrapped(i + 1) == i + 1 && Wrapped(j + 1) == j + 1;
    }
  }

  lemma BoxedApart(v: Value)
    requires v.Items? && forall i :: 0 <= i < |v.items| ==> (v.items[i].Int? || v.items[i].Long? || v.items[i].Bool?)
    ensures Apart(v) && ScalarKeys(v)
  {
  }

  /** The round trip of every supported value with scalar keys. */
  lemma RoundTrip(cs: Charset, v: Value, tail: seq<Byte>)
    requires Faithful(cs) && Supported(v) && ScalarKeys(v)
    ensures Dec(cs, Enc(v) + tail) == Got(Norm(v), |Enc(v)|)
    ensures (Enc(v) + tail)[|Enc(v)|..] == tail
  {
    ScalarKeysApart(v);
    RoundTripExact(cs, v, tail);
  }

  /** A date and its text are different keys, but become the same one. */
  lemma DateKeyLost(cs: Charset, text: seq<Byte>)
    requires Faithful(cs) && WellFormed(text) && |text| <= MAX_INT
    ensures var v := Map([Entry(Date(text), Bool(true)), Entry(Str(text), Bool(false))]);
      Dec(cs, Enc(v)) == Got(Map([Entry(Str(text), Bool(false))]), |Enc(v)|)
  {
    var v := Map([Entry(Date(text), Bool(true)), Entry(Str(text), Bool(false))]);
    var a, b := Entry(Str(text), Bool(true)), Entry(Str(text), Bool(false));
    DateEntries(text);
    assert AsRead(Map([a, b])) == Map(PutAll([], EntriesAsRead([a, b])));
    hide *;
    ReadAfterWrite(cs, v, []);
    assert Enc(v) + [] == Enc(v);
    TwoPut(a, b);
  }

  lemma DateEntries(text: seq<Byte>)
    requires WellFormed(text) && |text| <= MAX_INT
    ensures var v := Map([Entry(Date(text), Bool(true)), Entry(Str(text), Bool(false))]);
      Supported(v) && Norm(v) == Map([Entry(Str(text), Bool(true)), Entry(Str(text), Bool(false))])
  {
    hide WellFormed;
    var es := [Entry(Date(text), Bool(true)), Entry(Str(text), Bool(false))];
    assert forall i :: 0 <= i < |es| ==> Supported(es[i].key) && Supported(es[i].value);
    assert Norm(Map(es)).entries == [Entry(Str(text), Bool(true)), Entry(Str(text), Bool(false))];
  }

  lemma TwoPut(a: Entry, b: Entry)
    requires a.key == b.key && a.key.Str? && a.value.Bool? && b.value.Bool?
    ensures PutAll([], EntriesAsRead([a, b])) == [b]
  {
    assert EntryAsRead(a) == a && EntryAsRead(b) == b;
    assert EntriesAsRead([a, b]) == [a, b];
    assert [a, b][1..] == [b] && [b][1..] == [] && [a][1..] == [];
    assert Put([], a.key, a.value) == [a];
    assert Put([a], b.key, b.value) == [b];
    assert PutAll([b], []) == [b];
    assert PutAll([a], [b]) == PutAll([b], []);
  }
}

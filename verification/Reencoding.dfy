/** Messages from elsewhere: what the reader accepts, and what becomes of it when it is written again. */
module Reencoding {
  import opened Wire
  import opened Values
  import opened Encoding
  import opened Decoding
  import opened RoundTrip

  // ----- the reader does not look ahead -----

  /** What the reader returns depends on the bytes it consumes alone. */
  lemma {:induction false} OnlyReads(cs: Charset, b: seq<Byte>, t: seq<Byte>)
    requires Dec(cs, b).Got?
    ensures Dec(cs, b[..Dec(cs, b).used] + t) == Dec(cs, b)
    decreases |b|, 0
  {
    var k := Dec(cs, b).used;
    var c := b[..k] + t;
    assert c[0] == b[0];
    if b[0] in {TYPE_INT, TYPE_STRING, TYPE_BYTES, TYPE_TABLE} || KindOf(b[0]).Some? {
      OnlyReadsBody(cs, b, IntOf(b[1..5]), t);
    } else if IsCompactTag(b[0]) && b[0] != STR_0 {
      OnlyReadsStr(cs, b, 1, CompactLength(b[0]), t);
    } else if b[0] == TYPE_LONG || b[0] == TYPE_DOUBLE {
      assert c[1..9] == b[1..9];
    }
  }

  /** What was cut off before its end is not accepted. */
  lemma CutOffRefused(cs: Charset, b: seq<Byte>, k: nat)
    requires Dec(cs, b).Got? && k < Dec(cs, b).used
    ensures Dec(cs, b[..k]).Failed?
  {
    var r := Dec(cs, b[..k]);
    if r.Got? {
      assert b[..k][..r.used] + b[r.used..] == b;
      OnlyReads(cs, b[..k], b[r.used..]);
    }
  }

  lemma OnlyReadsStr(cs: Charset, b: seq<Byte>, at: nat, n: int, t: seq<Byte>)
    requires at <= |b| && DecStr(cs, b, at, n).Got?
    ensures DecStr(cs, b[..DecStr(cs, b, at, n).used] + t, at, n) == DecStr(cs, b, at, n)
  {
    var k := DecStr(cs, b, at, n).used;
    if n > 0 {
      assert (b[..k] + t)[at..at + n] == b[at..at + n];
    }
  }

  lemma {:induction false} OnlyReadsBody(cs: Charset, b: seq<Byte>, n: int, t: seq<Byte>)
    requires |b| >= 5 && n == IntOf(b[1..5])
    requires b[0] in {TYPE_INT, TYPE_STRING, TYPE_BYTES, TYPE_TABLE} || KindOf(b[0]).Some?
    requires DecBody(cs, b, n).Got?
    ensures DecBody(cs, b, n).used >= 5
    ensures var c := b[..DecBody(cs, b, n).used] + t; c[1..5] == b[1..5] && DecBody(cs, c, n) == DecBody(cs, b, n)
    decreases |b| - 1, 2
  {
    hide DecItems, DecEntries, DecStr, IntOf, FromBytes;
    BodyUsed(cs, b, n);
    var k := DecBody(cs, b, n).used;
    BodyAgain(b, k, t);
    if b[0] == TYPE_STRING {
      OnlyReadsStr(cs, b, 5, n, t);
      assert DecBody(cs, b[..k] + t, n) == DecBody(cs, b, n);
    } else if b[0] == TYPE_BYTES {
      assert (b[..5 + n] + t)[5..5 + n] == b[5..5 + n];
      assert DecBody(cs, b[..k] + t, n) == DecBody(cs, b, n);
    } else if b[0] == TYPE_TABLE {
      OnlyReadsEntries(cs, b[5..], n, [], t);
      assert DecBody(cs, b[..k] + t, n) == DecBody(cs, b, n);
    } else if b[0] != TYPE_INT {
      OnlyReadsItems(cs, b[5..], n, KindOf(b[0]).value, [], t);
      assert DecBody(cs, b[..k] + t, n) == DecBody(cs, b, n);
    }
  }

  lemma BodyUsed(cs: Charset, b: seq<Byte>, n: int)
    requires |b| >= 5 && n == IntOf(b[1..5])
    requires b[0] in {TYPE_INT, TYPE_STRING, TYPE_BYTES, TYPE_TABLE} || KindOf(b[0]).Some?
    requires DecBody(cs, b, n).Got?
    ensures 5 <= DecBody(cs, b, n).used <= |b|
  {
  }

  lemma BodyAgain(b: seq<Byte>, k: nat, t: seq<Byte>)
    requires 5 <= k <= |b|
    ensures var c := b[..k] + t; c[0] == b[0] && c[1..5] == b[1..5] && c[5..] == b[5..][..k - 5] + t
  {
  }

  lemma {:induction false} OnlyReadsItems(cs: Charset, b: seq<Byte>, n: int, kind: Kind, acc: seq<Value>, t: seq<Byte>)
    requires DecItems(cs, b, n, kind, acc).Got?
    ensures DecItems(cs, b[..DecItems(cs, b, n, kind, acc).used] + t, n, kind, acc) == DecItems(cs, b, n, kind, acc)
    decreases |b|, 1
  {
    if n > 0 {
      var v, k, m := Dec(cs, b).value, Dec(cs, b).used, DecItems(cs, b, n, kind, acc).used;
      var more := DecItems(cs, b[k..], n - 1, kind, acc + [v]);
      assert m == k + more.used;
      var c := b[..m] + t;
      assert c == b[..k] + (b[k..][..more.used] + t);
      OnlyReads(cs, b, b[k..][..more.used] + t);
      assert c[k..] == b[k..][..more.used] + t;
      OnlyReadsItems(cs, b[k..], n - 1, kind, acc + [v], t);
    }
  }

  lemma {:induction false} OnlyReadsEntries(cs: Charset, b: seq<Byte>, n: int, acc: seq<Entry>, t: seq<Byte>)
    requires DecEntries(cs, b, n, acc).Got?
    ensures DecEntries(cs, b[..DecEntries(cs, b, n, acc).used] + t, n, acc) == DecEntries(cs, b, n, acc)
    decreases |b|, 2
  {
    if n > 0 {
      OnlyReadsMore(cs, b, n, acc, t);
    }
  }

  lemma {:induction false} OnlyReadsMore(cs: Charset, b: seq<Byte>, n: nat, acc: seq<Entry>, t: seq<Byte>)
    requires n > 0 && DecEntries(cs, b, n, acc).Got?
    ensures DecEntries(cs, b[..DecEntries(cs, b, n, acc).used] + t, n, acc) == DecEntries(cs, b, n, acc)
    decreases |b|, 1
  {
    hide Dec, DecEntries, Put;
    var e, k, m, r := EntriesParts(cs, b, n, acc);
    var rest, next := b[k..][m..], Put(acc, e.key, e.value);
    var s := rest[..r] + t;
    Behead(b, k, m, r, t);
    OnlyReadsEntries(cs, rest, n - 1, next, t);
    OnlyReads(cs, b[k..], s);
    OnlyReads(cs, b, b[k..][..m] + s);
    EntriesUnfold(cs, b[..k + m + r] + t, n, acc, e, k, m);
  }

  /** The first key and value of a table, and the rest. */
  lemma EntriesParts(cs: Charset, b: seq<Byte>, n: nat, acc: seq<Entry>) returns (e: Entry, k: nat, m: nat, r: nat)
    requires n > 0 && DecEntries(cs, b, n, acc).Got?
    ensures k + m + r == DecEntries(cs, b, n, acc).used <= |b| && k > 0 && m > 0
    ensures Dec(cs, b) == Got(e.key, k) && Dec(cs, b[k..]) == Got(e.value, m)
    ensures DecEntries(cs, b[k..][m..], n - 1, Put(acc, e.key, e.value)) == Got(DecEntries(cs, b, n, acc).value, r)
  {
    hide Dec, Put;
    k := Dec(cs, b).used;
    m := Dec(cs, b[k..]).used;
    e := Entry(Dec(cs, b).value, Dec(cs, b[k..]).value);
    r := DecEntries(cs, b[k..][m..], n - 1, Put(acc, e.key, e.value)).used;
  }

  lemma Behead<T>(b: seq<T>, k: nat, m: nat, r: nat, t: seq<T>)
    requires k + m + r <= |b|
    ensures var s := b[k..][m..][..r] + t; var c := b[..k + m + r] + t;
      c == b[..k] + (b[k..][..m] + s) && c[k..] == b[k..][..m] + s && c[k..][m..] == s
  {
  }

  // ----- well-formed messages -----

  /** A message that is accepted without a malformed string means the same to every faithful charset. */
  lemma {:induction false} StrictAgrees(cs: Charset, b: seq<Byte>)
    requires Faithful(cs) && Dec(STRICT, b).Got?
    ensures Dec(cs, b) == Dec(STRICT, b)
    decreases |b|, 0
  {
    if b[0] == TYPE_TABLE {
      StrictAgreesEntries(cs, b[5..], IntOf(b[1..5]), []);
    } else if KindOf(b[0]).Some? {
      StrictAgreesItems(cs, b[5..], IntOf(b[1..5]), KindOf(b[0]).value, []);
    }
  }

  lemma {:induction false} StrictAgreesItems(cs: Charset, b: seq<Byte>, n: int, kind: Kind, acc: seq<Value>)
    requires Faithful(cs) && DecItems(STRICT, b, n, kind, acc).Got?
    ensures DecItems(cs, b, n, kind, acc) == DecItems(STRICT, b, n, kind, acc)
    decreases |b|, 1
  {
    if n > 0 {
      StrictAgrees(cs, b);
      var v, k := Dec(cs, b).value, Dec(cs, b).used;
      StrictAgreesItems(cs, b[k..], n - 1, kind, acc + [v]);
    }
  }

  lemma {:induction false} StrictAgreesEntries(cs: Charset, b: seq<Byte>, n: int, acc: seq<Entry>)
    requires Faithful(cs) && DecEntries(STRICT, b, n, acc).Got?
    ensures DecEntries(cs, b, n, acc) == DecEntries(STRICT, b, n, acc)
    decreases |b|, 2
  {
    if n > 0 {
      StrictAgreesMore(cs, b, n, acc);
    }
  }

  lemma {:induction false} StrictAgreesMore(cs: Charset, b: seq<Byte>, n: nat, acc: seq<Entry>)
    requires Faithful(cs) && n > 0 && DecEntries(STRICT, b, n, acc).Got?
    ensures DecEntries(cs, b, n, acc) == DecEntries(STRICT, b, n, acc)
    decreases |b|, 1
  {
    hide Dec, DecEntries, Put, Faithful;
    var e, k, m, _ := EntriesParts(STRICT, b, n, acc);
    StrictAgrees(cs, b);
    StrictAgrees(cs, b[k..]);
    StrictAgreesEntries(cs, b[k..][m..], n - 1, Put(acc, e.key, e.value));
    EntriesUnfold(cs, b, n, acc, e, k, m);
    EntriesUnfold(STRICT, b, n, acc, e, k, m);
  }

  /** A value as the reader builds it. */
  predicate Good(v: Value) {
    Supported(v) && Plain(v) && Apart(v)
  }

  predicate GoodEntries(es: seq<Entry>) {
    && (forall i :: 0 <= i < |es| ==> Good(es[i].key) && Good(es[i].value))
    && AllNew([], es)
  }

  predicate GoodItems(kind: Kind, vs: seq<Value>) {
    forall i :: 0 <= i < |vs| ==> Good(vs[i]) && Fits(kind, vs[i])
  }

  lemma GoodMap(es: seq<Entry>)
    requires GoodEntries(es) && |es| <= MAX_INT
    ensures Good(Map(es))
  {
    ApartParts(es);
  }

  lemma GoodList(kind: Kind, vs: seq<Value>)
    requires GoodItems(kind, vs) && |vs| <= MAX_INT
    ensures Good(Items(kind, vs))
  {
  }

  lemma {:induction false} EncAllAppend(vs: seq<Value>, v: Value)
    requires forall i :: 0 <= i < |vs| ==> Supported(vs[i])
    ensures |EncAll(vs + [v])| == |EncAll(vs)| + |Enc(v)|
  {
    if vs == [] {
      assert vs + [v] == [v] && [v][1..] == [];
    } else {
      SupportedKnown(vs[0]);
      assert (vs + [v])[1..] == vs[1..] + [v];
      EncAllAppend(vs[1..], v);
    }
  }

  /** Putting an entry adds at most its own bytes. */
  lemma {:induction false} PutLength(es: seq<Entry>, key: Value, value: Value)
    requires forall i :: 0 <= i < |es| ==> Supported(es[i].key) && Supported(es[i].value)
    requires Supported(key) && Supported(value)
    ensures |EncEntries(Put(es, key, value))| <= |EncEntries(es)| + |Enc(key)| + |Enc(value)|
  {
    SupportedKnown(key);
    SupportedKnown(value);
    if es == [] {
      assert [Entry(key, value)][1..] == [];
    } else {
      SupportedKnown(es[0].key);
      SupportedKnown(es[0].value);
      if SameKey(key, es[0].key) {
        assert Put(es, key, value)[1..] == es[1..];
      } else {
        PutLength(es[1..], key, value);
        assert Put(es, key, value)[1..] == Put(es[1..], key, value);
      }
    }
  }

  lemma PutGood(es: seq<Entry>, key: Value, value: Value)
    requires GoodEntries(es) && Good(key) && Good(value)
    ensures GoodEntries(Put(es, key, value))
  {
    var fs := Put(es, key, value);
    PutParts(es, key, value);
    PutNew(es, key, value);
    NewFromNone(es);
    NewFromNone(fs);
    hide Put, SameKey, Good, AllNew;
    forall i, j | 0 <= i < j < |fs| ensures !SameKey(fs[j].key, fs[i].key) {
      if j < |es| {
        assert fs[i].key == es[i].key && fs[j].key == es[j].key;
      }
    }
  }

  /** Every key and value of the new map is an old or the new one. */
  lemma {:induction false} PutParts(es: seq<Entry>, key: Value, value: Value)
    ensures forall i :: 0 <= i < |Put(es, key, value)| ==>
      var e := Put(es, key, value)[i]; (e.key == key || exists j :: 0 <= j < |es| && es[j].key == e.key)
    ensures forall i :: 0 <= i < |Put(es, key, value)| ==>
      var e := Put(es, key, value)[i]; (e.value == value || exists j :: 0 <= j < |es| && es[j].value == e.value)
  {
    if es != [] && !SameKey(key, es[0].key) {
      PutParts(es[1..], key, value);
      forall i | 0 <= i < |Put(es, key, value)|
        ensures var e := Put(es, key, value)[i]; (e.key == key || exists j :: 0 <= j < |es| && es[j].key == e.key)
        ensures var e := Put(es, key, value)[i];
          e.value == value || exists j :: 0 <= j < |es| && es[j].value == e.value
      {
        assert i > 0 ==> Put(es, key, value)[i] == Put(es[1..], key, value)[i - 1];
      }
    }
  }

  /** What the reader builds from a well-formed message, and how long it is when it is written again. */
  lemma {:induction false} ReadIsGood(b: seq<Byte>)
    requires Dec(STRICT, b).Got?
    ensures Good(Dec(STRICT, b).value) && |Enc(Dec(STRICT, b).value)| <= Dec(STRICT, b).used
    decreases |b|, 0
  {
    if b[0] == TYPE_TABLE {
      var n := IntOf(b[1..5]);
      ReadEntriesGood(b[5..], n, []);
      hide DecEntries, GoodEntries, Good, EncEntries;
      TableGood(b, DecEntries(STRICT, b[5..], n, []), n);
    } else if KindOf(b[0]).Some? {
      var n, kind := IntOf(b[1..5]), KindOf(b[0]).value;
      ReadItemsGood(b[5..], n, kind, []);
      hide DecItems, GoodItems, Good, EncAll;
      ListGood(b, DecItems(STRICT, b[5..], n, kind, []), n, kind);
    } else {
      hide DecEntries, DecItems;
      LeafGood(b);
    }
  }

  lemma TableGood(b: seq<Byte>, r: Read<seq<Entry>>, n: Int32)
    requires EntriesGood(r, n, [])
    ensures Good(Map(r.value)) && |Enc(Map(r.value))| <= 5 + r.used
  {
    GoodMap(r.value);
  }

  lemma ListGood(b: seq<Byte>, r: Read<seq<Value>>, n: Int32, kind: Kind)
    requires r.Got? && GoodItems(kind, r.value) && |r.value| <= (if n > 0 then n else 0) && |EncAll(r.value)| <= r.used
    ensures Good(Items(kind, r.value)) && |Enc(Items(kind, r.value))| <= 5 + r.used
  {
    GoodList(kind, r.value);
  }

  lemma LeafGood(b: seq<Byte>)
    requires Dec(STRICT, b).Got? && b[0] != TYPE_TABLE && KindOf(b[0]).None?
    ensures Good(Dec(STRICT, b).value) && |Enc(Dec(STRICT, b).value)| <= Dec(STRICT, b).used
  {
    hide IntOf, LongOf, WordOf, IntBytes, LongBytes, WordBytes, DecItems, DecEntries;
  }

  lemma {:induction false} ReadItemsGood(b: seq<Byte>, n: int, kind: Kind, acc: seq<Value>)
    requires DecItems(STRICT, b, n, kind, acc).Got? && GoodItems(kind, acc)
    ensures var r := DecItems(STRICT, b, n, kind, acc);
      && GoodItems(kind, r.value) && |r.value| == |acc| + (if n > 0 then n else 0)
      && |EncAll(r.value)| <= |EncAll(acc)| + r.used
    decreases |b|, 1
  {
    if n > 0 {
      ReadIsGood(b);
      var v, k := Dec(STRICT, b).value, Dec(STRICT, b).used;
      EncAllAppend(acc, v);
      ReadItemsGood(b[k..], n - 1, kind, acc + [v]);
    }
  }

  lemma {:induction false} ReadEntriesGood(b: seq<Byte>, n: int, acc: seq<Entry>)
    requires DecEntries(STRICT, b, n, acc).Got? && GoodEntries(acc)
    ensures EntriesGood(DecEntries(STRICT, b, n, acc), n, acc)
    decreases |b|, 2
  {
    if n > 0 {
      ReadMoreGood(b, n, acc);
    }
  }

  predicate EntriesGood(r: Read<seq<Entry>>, n: int, acc: seq<Entry>) {
    && r.Got? && GoodEntries(r.value) && |r.value| <= |acc| + (if n > 0 then n else 0)
    && |EncEntries(r.value)| <= |EncEntries(acc)| + r.used
  }

  lemma {:induction false} ReadMoreGood(b: seq<Byte>, n: nat, acc: seq<Entry>)
    requires n > 0 && DecEntries(STRICT, b, n, acc).Got? && GoodEntries(acc)
    ensures EntriesGood(DecEntries(STRICT, b, n, acc), n, acc)
    decreases |b|, 1
  {
    hide Dec, DecEntries, Put, GoodEntries, EncEntries, Enc, Good;
    var e, k, m, _ := EntriesParts(STRICT, b, n, acc);
    ReadIsGood(b);
    ReadIsGood(b[k..]);
    PutOne(acc, e);
    ReadEntriesGood(b[k..][m..], n - 1, Put(acc, e.key, e.value));
  }

  lemma PutOne(acc: seq<Entry>, e: Entry)
    requires GoodEntries(acc) && Good(e.key) && Good(e.value)
    ensures GoodEntries(Put(acc, e.key, e.value)) && |Put(acc, e.key, e.value)| <= |acc| + 1
    ensures |EncEntries(Put(acc, e.key, e.value))| <= |EncEntries(acc)| + |Enc(e.key)| + |Enc(e.value)|
  {
    assert forall i :: 0 <= i < |acc| ==> Good(acc[i].key) && Good(acc[i].value);
    hide Put, GoodEntries, EncEntries, Enc, Plain, Apart, Supported;
    PutGood(acc, e.key, e.value);
    PutLength(acc, e.key, e.value);
    PutNew(acc, e.key, e.value);
  }

  lemma {:induction false} NormPlain(v: Value)
    requires Plain(v)
    ensures Norm(v) == v
  {
    match v
    case Items(_, items) =>
      forall i | 0 <= i < |items| ensures Norm(items[i]) == items[i] { NormPlain(items[i]); }
      assert Norm(v).items == items;
    case Map(es) =>
      forall i | 0 <= i < |es| ensures Entry(Norm(es[i].key), Norm(es[i].value)) == es[i] {
        NormPlain(es[i].key);
        NormPlain(es[i].value);
      }
      assert Norm(v).entries == es;
    case _ =>
  }

  /** An accepted message with well-formed strings, written again, is read as the same value, and has not
      become longer. */
  lemma Reencode(cs: Charset, b: seq<Byte>, tail: seq<Byte>)
    requires Faithful(cs) && Dec(STRICT, b).Got?
    ensures var v := Dec(STRICT, b).value;
      && Dec(cs, b) == Dec(STRICT, b) && Good(v)
      && |Enc(v)| <= Dec(cs, b).used && Dec(cs, Enc(v) + tail) == Got(v, |Enc(v)|)
  {
    StrictAgrees(cs, b);
    ReadIsGood(b);
    var v := Dec(cs, b).value;
    NormPlain(v);
    RoundTripExact(cs, v, tail);
  }
}

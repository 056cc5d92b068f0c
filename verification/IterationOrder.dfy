/** A HashMap gives its entries in an order of its own: what does not depend on it. */
module IterationOrder {
  import opened Wire
  import opened Values
  import opened Encoding
  import opened Decoding
  import opened RoundTrip
  import opened Reencoding

  /** The same value, with the entries of its maps in any order. */
  ghost predicate Shuffled(v: Value, u: Value) {
    match v
    case Items(kind, xs) =>
      u.Items? && u.kind == kind && |u.items| == |xs| && forall i :: 0 <= i < |xs| ==> Shuffled(xs[i], u.items[i])
    case Map(es) =>
      u.Map? && exists gs: seq<Entry> ::
        |gs| == |es| && multiset(gs) == multiset(u.entries)
        && forall i :: 0 <= i < |es| ==> Shuffled(es[i].key, gs[i].key) && Shuffled(es[i].value, gs[i].value)
    case _ => u == v
  }

  /** Entries can stand in any order, and so can those of what is inside. */
  lemma {:induction false} SameOrder(v: Value)
    ensures Shuffled(v, v)
    decreases v
  {
    match v
    case Items(_, xs) => forall i | 0 <= i < |xs| ensures Shuffled(xs[i], xs[i]) { SameOrder(xs[i]); }
    case Map(es) =>
      forall i | 0 <= i < |es| ensures Shuffled(es[i].key, es[i].key) && Shuffled(es[i].value, es[i].value) {
        SameOrder(es[i].key);
        SameOrder(es[i].value);
      }
      InsideShuffled(AnyList, [], [], es, es, es);
    case _ =>
  }

  lemma InsideShuffled(kind: Kind, xs: seq<Value>, ys: seq<Value>, es: seq<Entry>, gs: seq<Entry>, fs: seq<Entry>)
    requires |ys| == |xs| && forall i :: 0 <= i < |xs| ==> Shuffled(xs[i], ys[i])
    requires |gs| == |es| && forall i :: 0 <= i < |es| ==> Shuffled(es[i].key, gs[i].key)
    requires forall i :: 0 <= i < |es| ==> Shuffled(es[i].value, gs[i].value)
    requires multiset(gs) == multiset(fs)
    ensures Shuffled(Items(kind, xs), Items(kind, ys)) && Shuffled(Map(es), Map(fs))
  {
    assert Map(fs).entries == fs;
  }

  lemma {:induction false} TwoOf<T>(s: seq<T>, x: T) returns (i: nat, j: nat)
    requires multiset(s)[x] >= 2
    ensures i < j < |s| && s[i] == x && s[j] == x
  {
    assert s == [s[0]] + s[1..];
    if s[0] == x {
      i := 0;
      assert x in multiset(s[1..]);
      j :| 0 < j < |s| && s[j] == x;
    } else {
      i, j := TwoOf(s[1..], x);
      i, j := i + 1, j + 1;
    }
  }

  /** Keys that differ still differ in another order. */
  lemma DistinctInAnyOrder(gs: seq<Entry>, fs: seq<Entry>, i: nat, j: nat)
    requires multiset(gs) == multiset(fs) && i < j < |fs|
    requires forall a, b :: 0 <= a < b < |gs| ==> gs[a].key != gs[b].key
    ensures fs[i].key != fs[j].key
  {
    if fs[i] == fs[j] {
      assert fs == fs[..j] + [fs[j]] + fs[j + 1..];
      assert fs[i] in multiset(fs[..j]);
      assert multiset(fs)[fs[i]] >= 2;
      var a, b := TwoOf(gs, fs[i]);
      assert false;
    } else {
      assert fs[i] in multiset(gs) && fs[j] in multiset(gs);
      var a :| 0 <= a < |gs| && gs[a] == fs[i];
      var b :| 0 <= b < |gs| && gs[b] == fs[j];
    }
  }

  lemma {:induction false} EncEntriesConcat(a: seq<Entry>, b: seq<Entry>)
    requires forall i :: 0 <= i < |a| ==> KnownEntry(a[i])
    ensures EncEntries(a + b) == EncEntries(a) + EncEntries(b)
  {
    hide EncEntry, KnownEntry;
    if a == [] {
      assert a + b == b;
    } else {
      assert (a + b)[1..] == a[1..] + b;
      EncEntriesConcat(a[1..], b);
    }
  }

  /** Entries in another order have as many bytes. */
  lemma {:induction false} LengthInAnyOrder(gs: seq<Entry>, fs: seq<Entry>)
    requires multiset(gs) == multiset(fs) && forall i :: 0 <= i < |gs| ==> KnownEntry(gs[i])
    ensures |EncEntries(fs)| == |EncEntries(gs)|
  {
    if gs == [] {
      assert |fs| == |multiset(fs)| == |multiset(gs)| == 0;
    } else {
      var k := Without(gs, fs);
      forall i | 0 <= i < |fs| ensures KnownEntry(fs[i]) {
        assert fs[i] in multiset(gs);
      }
      LengthWithout(fs, k);
      LengthInAnyOrder(gs[1..], fs[..k] + fs[k + 1..]);
    }
  }

  lemma Without<T>(gs: seq<T>, fs: seq<T>) returns (k: nat)
    requires multiset(gs) == multiset(fs) && gs != []
    ensures k < |fs| && fs[k] == gs[0] && multiset(gs[1..]) == multiset(fs[..k] + fs[k + 1..])
  {
    assert gs[0] in multiset(fs);
    k :| 0 <= k < |fs| && fs[k] == gs[0];
    Removed(fs, k);
    Removed(gs, 0);
    assert gs[..0] + gs[1..] == gs[1..];
  }

  lemma Removed<T>(s: seq<T>, k: nat)
    requires k < |s|
    ensures multiset(s[..k] + s[k + 1..]) == multiset(s) - multiset{s[k]}
  {
    assert s == s[..k] + ([s[k]] + s[k + 1..]);
  }

  lemma LengthWithout(fs: seq<Entry>, k: nat)
    requires k < |fs| && forall i :: 0 <= i < |fs| ==> KnownEntry(fs[i])
    ensures |EncEntries(fs)| == |EncEntries(fs[..k] + fs[k + 1..])| + |EncEntry(fs[k])|
  {
    var x := fs[k];
    assert [x][1..] == [] && EncEntries([x]) == EncEntry(x);
    hide EncEntries, EncEntry, KnownEntry;
    assert fs == fs[..k] + [x] + fs[k + 1..];
    EncEntriesConcat(fs[..k] + [x], fs[k + 1..]);
    EncEntriesConcat(fs[..k], [x]);
    EncEntriesConcat(fs[..k], fs[k + 1..]);
  }

  lemma {:induction false} LengthPointwise(es: seq<Entry>, gs: seq<Entry>)
    requires |es| == |gs|
    requires forall i :: 0 <= i < |es| ==>
        KnownEntry(es[i]) && KnownEntry(gs[i]) && |EncEntry(es[i])| == |EncEntry(gs[i])|
    ensures |EncEntries(es)| == |EncEntries(gs)|
  {
    hide EncEntry, KnownEntry;
    if es != [] {
      LengthPointwise(es[1..], gs[1..]);
    }
  }

  lemma {:induction false} LengthOfItems(xs: seq<Value>, ys: seq<Value>)
    requires |xs| == |ys|
    requires forall i :: 0 <= i < |xs| ==> Known(xs[i]) && Known(ys[i]) && |Enc(xs[i])| == |Enc(ys[i])|
    ensures |EncAll(xs)| == |EncAll(ys)|
  {
    hide Enc, Known;
    if xs != [] {
      LengthOfItems(xs[1..], ys[1..]);
    }
  }

  /** The other order of a good value is as good and as long. */
  predicate SameWeight(v: Value, u: Value) {
    Good(u) && ScalarKeys(u) && |Enc(u)| == |Enc(v)|
  }

  lemma {:induction false} ShuffledIsGood(v: Value, u: Value)
    requires Good(v) && ScalarKeys(v) && Shuffled(v, u)
    ensures SameWeight(v, u)
    decreases v
  {
    match v
    case Items(kind, xs) =>
      forall i | 0 <= i < |xs| ensures SameWeight(xs[i], u.items[i]) { ShuffledIsGood(xs[i], u.items[i]); }
      ItemsWeight(kind, xs, u.items);
    case Map(es) =>
      var gs: seq<Entry> :| |gs| == |es| && multiset(gs) == multiset(u.entries)
        && forall i :: 0 <= i < |es| ==> Shuffled(es[i].key, gs[i].key) && Shuffled(es[i].value, gs[i].value);
      forall i | 0 <= i < |es| ensures gs[i].key == es[i].key && SameWeight(es[i].value, gs[i].value) {
        ShuffledIsGood(es[i].value, gs[i].value);
      }
      MapWeight(es, gs, u.entries);
    case _ =>
  }

  lemma ItemsWeight(kind: Kind, xs: seq<Value>, ys: seq<Value>)
    requires Good(Items(kind, xs)) && |ys| == |xs|
    requires forall i :: 0 <= i < |xs| ==> SameWeight(xs[i], ys[i]) && Fits(kind, ys[i])
    ensures SameWeight(Items(kind, xs), Items(kind, ys))
  {
    forall i | 0 <= i < |xs| ensures Known(xs[i]) && Known(ys[i]) {
      SupportedKnown(xs[i]);
      SupportedKnown(ys[i]);
    }
    LengthOfItems(xs, ys);
  }

  lemma MapWeight(es: seq<Entry>, gs: seq<Entry>, fs: seq<Entry>)
    requires Good(Map(es)) && ScalarKeys(Map(es)) && |gs| == |es| && multiset(gs) == multiset(fs)
    requires forall i :: 0 <= i < |es| ==> gs[i].key == es[i].key && SameWeight(es[i].value, gs[i].value)
    ensures SameWeight(Map(es), Map(fs))
  {
    hide Good, GoodEntry, KnownEntry, ScalarKeys, Enc, EncEntries;
    MapFacts(es);
    MapFacts(fs);
    EntriesWeight(es, gs);
    LengthInAnyOrder(gs, fs);
    assert |fs| == |multiset(fs)| == |multiset(gs)| == |gs|;
    forall i | 0 <= i < |fs| ensures GoodEntry(fs[i]) {
      assert fs[i] in multiset(gs);
    }
    forall i, j | 0 <= i < j < |fs| ensures fs[i].key != fs[j].key {
      DistinctInAnyOrder(gs, fs, i, j);
    }
    MapGoodAgain(fs);
  }

  predicate GoodEntry(e: Entry) {
    ScalarKey(e.key) && Good(e.key) && Good(e.value) && ScalarKeys(e.value)
  }

  lemma MapFacts(es: seq<Entry>)
    ensures |Enc(Map(es))| == 5 + |EncEntries(es)|
    ensures Good(Map(es)) && ScalarKeys(Map(es)) ==>
        |es| <= MAX_INT && forall i, j :: 0 <= i < j < |es| ==> es[i].key != es[j].key
  {
  }

  lemma MapGoodAgain(fs: seq<Entry>)
    requires |fs| <= MAX_INT && forall i :: 0 <= i < |fs| ==> GoodEntry(fs[i])
    requires forall i, j :: 0 <= i < j < |fs| ==> fs[i].key != fs[j].key
    ensures Good(Map(fs)) && ScalarKeys(Map(fs))
  {
    MapApart(fs);
  }

  lemma EntriesWeight(es: seq<Entry>, gs: seq<Entry>)
    requires Good(Map(es)) && ScalarKeys(Map(es)) && |gs| == |es|
    requires forall i :: 0 <= i < |es| ==> gs[i].key == es[i].key && SameWeight(es[i].value, gs[i].value)
    ensures |EncEntries(gs)| == |EncEntries(es)|
    ensures forall i :: 0 <= i < |gs| ==> GoodEntry(gs[i]) && KnownEntry(gs[i])
  {
    forall i | 0 <= i < |es|
      ensures KnownEntry(es[i]) && KnownEntry(gs[i]) && |EncEntry(es[i])| == |EncEntry(gs[i])| && GoodEntry(gs[i])
    {
      SupportedKnown(es[i].key);
      SupportedKnown(es[i].value);
      SupportedKnown(gs[i].value);
    }
    LengthPointwise(es, gs);
  }

  /** An accepted message with well-formed strings and scalar keys, written again in any iteration order of
      its maps, is read as the same value, and has not become longer. */
  lemma ReencodeInAnyOrder(cs: Charset, b: seq<Byte>, u: Value, tail: seq<Byte>)
    requires Faithful(cs) && Dec(STRICT, b).Got? && ScalarKeys(Dec(STRICT, b).value)
    requires Shuffled(Dec(STRICT, b).value, u)
    ensures Dec(cs, b) == Dec(STRICT, b)
    ensures Dec(cs, Enc(u) + tail) == Got(u, |Enc(u)|) && |Enc(u)| <= Dec(cs, b).used
  {
    Reencode(cs, b, []);
    ShuffledIsGood(Dec(cs, b).value, u);
    NormPlain(u);
    RoundTripExact(cs, u, tail);
  }

  /** A value without sets and maps. */
  predicate TableFree(v: Value) {
    match v
    case Items(_, items) => forall i :: 0 <= i < |items| ==> TableFree(items[i])
    case SetOf(_) => false
    case Map(_) => false
    case _ => true
  }

  lemma TableFreeContents(v: Value, kind: Kind, items: seq<Value>)
    ensures v.Null? || v.Bool? || v.Int? || v.Long? || v.Double? || v.Str? || v.Date? || v.Bytes? ==> TableFree(v)
    ensures v.IntArr? || v.LongArr? || v.BoolArr? ==> TableFree(v)
    ensures (forall i :: 0 <= i < |items| ==> TableFree(items[i])) ==> TableFree(Items(kind, items))
  {
  }

  lemma {:induction false} OneOrder(v: Value, u: Value)
    requires TableFree(v) && Shuffled(v, u)
    ensures u == v
  {
    match v
    case Items(_, items) =>
      forall i | 0 <= i < |items| ensures u.items[i] == items[i] { OneOrder(items[i], u.items[i]); }
      assert u.items == items;
    case _ =>
  }

  lemma {:induction false} NormTableFree(v: Value)
    requires TableFree(v)
    ensures TableFree(Norm(v)) && Apart(Norm(v))
  {
    match v
    case Items(_, items) =>
      forall i | 0 <= i < |items|
        ensures TableFree(Norm(items[i])) && Apart(Norm(items[i]))
      {
        NormTableFree(items[i]);
      }
    case IntArr(xs) => BoxedFree(Norm(v));
    case LongArr(xs) => BoxedFree(Norm(v));
    case BoolArr(xs) => BoxedFree(Norm(v));
    case _ =>
  }

  lemma BoxedFree(v: Value)
    requires v.Items? && forall i :: 0 <= i < |v.items| ==> (v.items[i].Int? || v.items[i].Long? || v.items[i].Bool?)
    ensures TableFree(v) && Apart(v)
  {
  }

  /** What was written for a value without sets and maps is written byte for byte again after reading. */
  lemma TableFreeBytes(cs: Charset, v: Value, u: Value, tail: seq<Byte>)
    requires Faithful(cs) && Supported(v) && TableFree(v)
    requires Dec(cs, Enc(v) + tail).Got? && Shuffled(Dec(cs, Enc(v) + tail).value, u)
    ensures u == Norm(v) && Enc(u) == Enc(v)
  {
    NormTableFree(v);
    RoundTripExact(cs, v, tail);
    OneOrder(Norm(v), u);
    SupportedKnown(v);
    EncNorm(v);
  }
}

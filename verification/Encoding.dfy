/** What the writer appends for a value. */
module Encoding {
  import opened Wire
  import opened Values

  function LengthBytes(n: nat): (b: seq<Byte>)
    ensures |b| == 4
    ensures n <= MAX_INT ==> IntOf(b) == n
  {
    NumbersBack(Wrapped(n), 0, 0);
    IntBytes(Wrapped(n))
  }

  function BoolCode(b: bool): seq<Byte> {
    [if b then TYPE_TRUE else TYPE_FALSE]
  }

  function IntCode(i: Int32): seq<Byte> {
    [TYPE_INT] + IntBytes(i)
  }

  function LongCode(l: Int64): seq<Byte> {
    [TYPE_LONG] + LongBytes(l)
  }

  function DoubleCode(w: Word): seq<Byte> {
    [TYPE_DOUBLE] + WordBytes(w)
  }

  function StrCode(s: seq<Byte>): seq<Byte> {
    if Compact(|s|) then [CompactTag(|s|)] + s else [TYPE_STRING] + LengthBytes(|s|) + s
  }

  function KindTag(kind: Kind): Byte {
    match kind
    case AnyList => TYPE_LIST
    case Integers => TYPE_INTEGER_ARRAY
    case Longs => TYPE_LONG_ARRAY
    case Strings => TYPE_STRING_ARRAY
  }

  function Header(tag: Byte, n: nat): (b: seq<Byte>)
    ensures |b| == 5
  {
    [tag] + LengthBytes(n)
  }

  function Each<T>(xs: seq<T>, f: T -> seq<Byte>): seq<Byte> {
    if xs == [] then [] else f(xs[0]) + Each(xs[1..], f)
  }

  /** The bytes written for a value; for one that is not known, those written until the exception. */
  function Enc(v: Value): seq<Byte> {
    match v
    case Null => [TYPE_NIL]
    case Bool(b) => BoolCode(b)
    case Int(i) => IntCode(i)
    case Long(l) => LongCode(l)
    case Double(w) => DoubleCode(w)
    case Str(s) => StrCode(s)
    case Date(s) => StrCode(s)
    case Bytes(d) => Header(TYPE_BYTES, |d|) + d
    case Items(kind, items) => Header(KindTag(kind), |items|) + EncAll(items)
    case SetOf(elems) => Header(TYPE_TABLE, |elems|) + EncNumbered(elems, 1)
    case Map(entries) => Header(TYPE_TABLE, |entries|) + EncEntries(entries)
    case IntArr(xs) => Header(TYPE_INTEGER_ARRAY, |xs|) + Each(xs, IntCode)
    case LongArr(xs) => Header(TYPE_LONG_ARRAY, |xs|) + Each(xs, LongCode)
    case BoolArr(xs) => Header(TYPE_LIST, |xs|) + Each(xs, BoolCode)
    case Unsupported => []
  }

  function EncAll(vs: seq<Value>): seq<Byte> {
    if vs == [] then []
    else Enc(vs[0]) + (if Known(vs[0]) then EncAll(vs[1..]) else [])
  }

  function EncNumbered(vs: seq<Value>, p: nat): seq<Byte> {
    if vs == [] then []
    else IntCode(Wrapped(p)) + Enc(vs[0]) + (if Known(vs[0]) then EncNumbered(vs[1..], p + 1) else [])
  }

  function EncEntries(es: seq<Entry>): seq<Byte> {
    if es == [] then []
    else EncEntry(es[0]) + (if KnownEntry(es[0]) then EncEntries(es[1..]) else [])
  }

  function EncEntry(e: Entry): seq<Byte> {
    Enc(e.key) + (if Known(e.key) then Enc(e.value) else [])
  }

  predicate KnownEntry(e: Entry) {
    Known(e.key) && Known(e.value)
  }

  // ----- normalisation does not change the bytes -----

  lemma {:induction false} EncNorm(v: Value)
    requires Known(v)
    ensures Known(Norm(v)) && Enc(Norm(v)) == Enc(v)
  {
    match v
    case Items(_, items) =>
      forall i | 0 <= i < |items| ensures Known(Norm(items[i])) { EncNorm(items[i]); }
      EncNormAll(items, Norm(v).items);
    case SetOf(elems) =>
      forall i | 0 <= i < |elems| ensures Known(Norm(elems[i])) { EncNorm(elems[i]); }
      EncNormNumbered(elems, Norm(v).entries, 1);
    case Map(entries) =>
      forall i | 0 <= i < |entries| ensures Known(Norm(entries[i].key)) && Known(Norm(entries[i].value)) {
        EncNorm(entries[i].key);
        EncNorm(entries[i].value);
      }
      EncNormEntries(entries, Norm(v).entries);
    case IntArr(xs) => EncBoxed(xs, Norm(v).items, IntCode);
    case LongArr(xs) => EncBoxed(xs, Norm(v).items, LongCode);
    case BoolArr(xs) => EncBoxed(xs, Norm(v).items, BoolCode);
    case _ =>
  }

  lemma {:induction false} EncNormAll(vs: seq<Value>, ns: seq<Value>)
    requires |ns| == |vs| && forall i :: 0 <= i < |vs| ==> Known(vs[i]) && ns[i] == Norm(vs[i])
    ensures EncAll(ns) == EncAll(vs)
  {
    if vs != [] {
      EncNorm(vs[0]);
      EncNormAll(vs[1..], ns[1..]);
    }
  }

  lemma {:induction false} EncNormNumbered(vs: seq<Value>, es: seq<Entry>, p: nat)
    requires |es| == |vs|
    requires forall i :: 0 <= i < |vs| ==> Known(vs[i]) && es[i] == Entry(Int(Wrapped(p + i)), Norm(vs[i]))
    ensures EncEntries(es) == EncNumbered(vs, p)
  {
    if vs != [] {
      EncNorm(vs[0]);
      hide Norm, Wrapped, IntBytes;
      assert es[0] == Entry(Int(Wrapped(p + 0)), Norm(vs[0]));
      assert EncEntry(es[0]) == IntCode(Wrapped(p)) + Enc(vs[0]);
      forall i | 0 <= i < |vs[1..]| ensures es[1..][i] == Entry(Int(Wrapped(p + 1 + i)), Norm(vs[1..][i])) {
        assert es[i + 1] == Entry(Int(Wrapped(p + (i + 1))), Norm(vs[i + 1]));
      }
      EncNormNumbered(vs[1..], es[1..], p + 1);
      assert KnownEntry(es[0]);
    }
  }

  lemma {:induction false} EncNormEntries(es: seq<Entry>, ns: seq<Entry>)
    requires |ns| == |es|
    requires forall i :: 0 <= i < |es| ==> Known(es[i].key) && Known(es[i].value)
    requires forall i :: 0 <= i < |es| ==> ns[i] == Entry(Norm(es[i].key), Norm(es[i].value))
    ensures EncEntries(ns) == EncEntries(es)
  {
    if es != [] {
      EncNormEntry(es[0]);
      EncNormEntries(es[1..], ns[1..]);
    }
  }

  lemma {:induction false} EncNormEntry(e: Entry)
    requires KnownEntry(e)
    ensures KnownEntry(Entry(Norm(e.key), Norm(e.value))) && EncEntry(Entry(Norm(e.key), Norm(e.value))) == EncEntry(e)
  {
    EncNorm(e.key);
    EncNorm(e.value);
  }

  lemma {:induction false} EncBoxed<T>(xs: seq<T>, vs: seq<Value>, f: T -> seq<Byte>)
    requires |vs| == |xs| && forall i :: 0 <= i < |xs| ==> Known(vs[i]) && Enc(vs[i]) == f(xs[i])
    ensures EncAll(vs) == Each(xs, f)
  {
    if xs != [] {
      EncBoxed(xs[1..], vs[1..], f);
    }
  }

  lemma {:induction false} NormSupported(v: Value)
    requires Supported(v)
    ensures Supported(Norm(v)) && Plain(Norm(v))
  {
    match v
    case Items(kind, items) =>
      forall i | 0 <= i < |items|
        ensures Supported(Norm(items[i])) && Plain(Norm(items[i]))
      {
        NormSupported(items[i]);
      }
    case SetOf(elems) =>
      forall i | 0 <= i < |elems|
        ensures Supported(Norm(elems[i])) && Plain(Norm(elems[i]))
      {
        NormSupported(elems[i]);
      }
    case Map(entries) =>
      forall i | 0 <= i < |entries|
        ensures Supported(Norm(entries[i].key)) && Plain(Norm(entries[i].key))
        ensures Supported(Norm(entries[i].value)) && Plain(Norm(entries[i].value))
      {
        NormSupported(entries[i].key);
        NormSupported(entries[i].value);
      }
    case IntArr(xs) => BoxedSupported(Norm(v));
    case LongArr(xs) => BoxedSupported(Norm(v));
    case BoolArr(xs) => BoxedSupported(Norm(v));
    case _ =>
      assert Norm(v) == v || v.Date?;
  }

  lemma BoxedSupported(v: Value)
    requires v.Items? && |v.items| <= MAX_INT
    requires forall i :: 0 <= i < |v.items| ==>
        (v.items[i].Int? || v.items[i].Long? || v.items[i].Bool?) && Fits(v.kind, v.items[i])
    ensures Supported(v) && Plain(v)
  {
    forall i | 0 <= i < |v.items| ensures Supported(v.items[i]) && Plain(v.items[i]) {
    }
  }
}

/** What the reader makes of arbitrary bytes. */
module Decoding {
  import opened Wrappers
  import opened Wire
  import opened Values

  /** The reader's exceptions.  `Malformed` is only raised by a charset that refuses some bytes. */
  datatype Error = Underflow | UnknownTag | NegativeSize | ClassCast | Malformed

  /** A value or an exception, and how far the cursor has moved. */
  datatype Read<+T> = Got(value: T, used: nat) | Failed(error: Error, used: nat)

  function Plus<T>(k: nat, r: Read<T>): Read<T> {
    r.(used := k + r.used)
  }

  // ----- tables -----

  /** Not a number. */
  predicate IsNaN(w: Word) {
    (w / 0x10_0000_0000_0000) % 0x800 == 0x7FF && w % 0x10_0000_0000_0000 != 0
  }

  /** equals of the objects that the reader builds; two arrays are different objects. */
  predicate SameKey(a: Value, b: Value) {
    match a
    case Double(x) => b.Double? && (x == b.word || (IsNaN(x) && IsNaN(b.word)))
    case Items(kind, xs) =>
      kind == AnyList && b.Items? && b.kind == AnyList && |b.items| == |xs|
      && forall i :: 0 <= i < |xs| ==> SameKey(xs[i], b.items[i])
    case Map(es) =>
      b.Map? && |b.entries| == |es|
      && forall i :: 0 <= i < |es| ==>
           exists j ::
             0 <= j < |b.entries| && SameKey(es[i].key, b.entries[j].key) && SameKey(es[i].value, b.entries[j].value)
    case Bytes(_) => false
    case _ => a == b
  }

  /** HashMap.put: an equal key keeps its place, and gets the new value. */
  function Put(es: seq<Entry>, key: Value, value: Value): seq<Entry> {
    if es == [] then [Entry(key, value)]
    else if SameKey(key, es[0].key) then [Entry(es[0].key, value)] + es[1..]
    else [es[0]] + Put(es[1..], key, value)
  }

  // ----- objects -----

  function KindOf(tag: Byte): Option<Kind> {
    if tag == TYPE_LIST then Some(AnyList)
    else if tag == TYPE_INTEGER_ARRAY then Some(Integers)
    else if tag == TYPE_LONG_ARRAY then Some(Longs)
    else if tag == TYPE_STRING_ARRAY then Some(Strings)
    else None
  }

  /** readStringImpl, at an offset. */
  function DecStr(cs: Charset, b: seq<Byte>, at: nat, n: int): (r: Read<Value>)
    requires at <= |b|
    ensures at <= r.used <= |b| && (r.Got? ==> r.value.Str?)
  {
    if n <= 0 then Got(Str([]), at)
    else if |b| - at < n then Failed(Underflow, at)
    else match cs(b[at..at + n])
      case None => Failed(Malformed, at + n)
      case Some(s) => Got(Str(s), at + n)
  }

  /** getInt behind the tag. */
  function DecLength(b: seq<Byte>): Read<int>
    requires b != []
  {
    if |b| < 5 then Failed(Underflow, 1) else Got(IntOf(b[1..5]), 5)
  }

  /** read_object */
  function Dec(cs: Charset, b: seq<Byte>): (r: Read<Value>)
    ensures r.used <= |b| && (r.Got? ==> r.used >= 1)
    decreases |b|, 0
  {
    if b == [] then Failed(Underflow, 0)
    else if b[0] == TYPE_NIL then Got(Null, 1)
    else if b[0] == TYPE_FALSE then Got(Bool(false), 1)
    else if b[0] == TYPE_TRUE then Got(Bool(true), 1)
    else if b[0] == TYPE_LONG then (if |b| < 9 then Failed(Underflow, 1) else Got(Long(LongOf(b[1..9])), 9))
    else if b[0] == TYPE_DOUBLE then (if |b| < 9 then Failed(Underflow, 1) else Got(Double(WordOf(b[1..9])), 9))
    else if IsCompactTag(b[0]) then
      (if b[0] == STR_0 then Got(Str([]), 1) else DecStr(cs, b, 1, CompactLength(b[0])))
    else if b[0] in {TYPE_INT, TYPE_STRING, TYPE_BYTES, TYPE_TABLE} || KindOf(b[0]).Some? then
      match DecLength(b)
      case Failed(e, k) => Failed(e, k)
      case Got(n, _) => DecBody(cs, b, n)
    else Failed(UnknownTag, 1)
  }

  /** The objects that begin with a tag and an int. */
  function DecBody(cs: Charset, b: seq<Byte>, n: int): (r: Read<Value>)
    requires |b| >= 5 && -0x8000_0000 <= n <= MAX_INT
    requires b[0] in {TYPE_INT, TYPE_STRING, TYPE_BYTES, TYPE_TABLE} || KindOf(b[0]).Some?
    ensures 5 <= r.used <= |b|
    decreases |b| - 1, 2
  {
    if b[0] == TYPE_INT then Got(Int(n), 5)
    else if b[0] == TYPE_STRING then DecStr(cs, b, 5, n)
    else if b[0] == TYPE_BYTES then
      (if n < 0 then Failed(NegativeSize, 5)
       else if |b| - 5 < n then Failed(Underflow, |b|)
       else Got(Bytes(b[5..5 + n]), 5 + n))
    else if b[0] == TYPE_TABLE then
      match DecEntries(cs, b[5..], n, [])
      case Failed(e, k) => Failed(e, 5 + k)
      case Got(es, k) => Got(Map(es), 5 + k)
    else
      var kind := KindOf(b[0]).value;
      if n < 0 && kind != AnyList then Failed(NegativeSize, 5)
      else
        match DecItems(cs, b[5..], n, kind, [])
        case Failed(e, k) => Failed(e, 5 + k)
        case Got(vs, k) => Got(Items(kind, vs), 5 + k)
  }

  /** The loop that reads the elements of a container, each of which is cast when it is stored. */
  function DecItems(cs: Charset, b: seq<Byte>, n: int, kind: Kind, acc: seq<Value>): (r: Read<seq<Value>>)
    ensures r.used <= |b|
    decreases |b|, 1
  {
    if n <= 0 then Got(acc, 0)
    else
      match Dec(cs, b)
      case Failed(e, k) => Failed(e, k)
      case Got(v, k) =>
        if !Fits(kind, v) then Failed(ClassCast, k)
        else Plus(k, DecItems(cs, b[k..], n - 1, kind, acc + [v]))
  }

  /** The loop that reads keys and values and puts them into a map. */
  function DecEntries(cs: Charset, b: seq<Byte>, n: int, acc: seq<Entry>): (r: Read<seq<Entry>>)
    ensures r.used <= |b|
    decreases |b|, 1
  {
    if n <= 0 then Got(acc, 0)
    else
      match Dec(cs, b)
      case Failed(e, k) => Failed(e, k)
      case Got(key, k) =>
        match Dec(cs, b[k..])
        case Failed(e, m) => Failed(e, k + m)
        case Got(value, m) => Plus(k + m, DecEntries(cs, b[k..][m..], n - 1, Put(acc, key, value)))
  }

  // ----- what keeps keys apart -----

  /** No two keys of a map are equal, at any depth. */
  predicate Apart(v: Value) {
    match v
    case Items(_, items) => forall i :: 0 <= i < |items| ==> Apart(items[i])
    case Map(es) =>
      && (forall i :: 0 <= i < |es| ==> Apart(es[i].key) && Apart(es[i].value))
      && (forall i, j :: 0 <= i < j < |es| ==> !SameKey(es[j].key, es[i].key))
    case _ => true
  }

  /** What a map becomes whose entries are put one by one. */
  function AsRead(v: Value): Value {
    match v
    case Items(kind, items) => Items(kind, AsReadAll(items))
    case Map(es) => Map(PutAll([], EntriesAsRead(es)))
    case _ => v
  }

  function AsReadAll(vs: seq<Value>): (r: seq<Value>)
    ensures |r| == |vs| && forall i :: 0 <= i < |vs| ==> r[i] == AsRead(vs[i])
  {
    if vs == [] then [] else [AsRead(vs[0])] + AsReadAll(vs[1..])
  }

  function EntriesAsRead(es: seq<Entry>): (r: seq<Entry>)
    ensures |r| == |es| && forall i :: 0 <= i < |es| ==> r[i] == EntryAsRead(es[i])
  {
    if es == [] then [] else [EntryAsRead(es[0])] + EntriesAsRead(es[1..])
  }

  function EntryAsRead(e: Entry): Entry {
    Entry(AsRead(e.key), AsRead(e.value))
  }

  function PutAll(acc: seq<Entry>, es: seq<Entry>): seq<Entry>
    decreases es
  {
    if es == [] then acc else PutAll(Put(acc, es[0].key, es[0].value), es[1..])
  }
}

/** The dynamically typed values of the codec, the form they have after a round trip, and their bytes. */
module Values {
  import opened Wire

  /** The families of ordered containers: lists, and arrays of boxed elements. */
  datatype Kind = AnyList | Integers | Longs | Strings

  /** A Java value.  Sets and maps are given in their iteration order, dates by the text they are
      formatted as, strings by their UTF-8 bytes. */
  datatype Value =
    | Null
    | Bool(b: bool)
    | Int(i: Int32)
    | Long(l: Int64)
    | Double(word: Word)
    | Str(utf8: seq<Byte>)
    | Date(text: seq<Byte>)
    | Bytes(data: seq<Byte>)
    | Items(kind: Kind, items: seq<Value>)
    | SetOf(elems: seq<Value>)
    | Map(entries: seq<Entry>)
    | IntArr(ints: seq<Int32>)
    | LongArr(longs: seq<Int64>)
    | BoolArr(bools: seq<bool>)
    | Unsupported

  datatype Entry = Entry(key: Value, value: Value)

  /** What may stand in a container of a kind: the casts of the reader. */
  predicate Fits(kind: Kind, v: Value) {
    match kind
    case AnyList => true
    case Integers => v.Null? || v.Int?
    case Longs => v.Null? || v.Long?
    case Strings => v.Null? || v.Str?
  }

  // ----- values that can be written -----

  /** Whether the writer knows the classes of a value and of all its parts. */
  predicate Known(v: Value) {
    match v
    case Items(_, items) => forall i :: 0 <= i < |items| ==> Known(items[i])
    case SetOf(elems) => forall i :: 0 <= i < |elems| ==> Known(elems[i])
    case Map(entries) => forall i :: 0 <= i < |entries| ==> Known(entries[i].key) && Known(entries[i].value)
    case Unsupported => false
    case _ => true
  }

  /** What every Java value satisfies (containers hold at most 2^31 - 1 elements, arrays what their type
      says), with well-formed strings and classes that the writer knows. */
  predicate Supported(v: Value) {
    match v
    case Str(s) => |s| <= MAX_INT && WellFormed(s)
    case Date(s) => |s| <= MAX_INT && WellFormed(s)
    case Bytes(d) => |d| <= MAX_INT
    case Items(kind, items) =>
      |items| <= MAX_INT && forall i :: 0 <= i < |items| ==> Supported(items[i]) && Fits(kind, items[i])
    case SetOf(elems) => |elems| <= MAX_INT && forall i :: 0 <= i < |elems| ==> Supported(elems[i])
    case Map(entries) =>
      |entries| <= MAX_INT
      && forall i :: 0 <= i < |entries| ==> Supported(entries[i].key) && Supported(entries[i].value)
    case IntArr(xs) => |xs| <= MAX_INT
    case LongArr(xs) => |xs| <= MAX_INT
    case BoolArr(xs) => |xs| <= MAX_INT
    case Unsupported => false
    case _ => true
  }

  lemma {:induction false} SupportedKnown(v: Value)
    requires Supported(v)
    ensures Known(v)
  {
    match v
    case Items(_, items) => forall i | 0 <= i < |items| ensures Known(items[i]) { SupportedKnown(items[i]); }
    case SetOf(elems) => forall i | 0 <= i < |elems| ensures Known(elems[i]) { SupportedKnown(elems[i]); }
    case Map(entries) =>
      forall i | 0 <= i < |entries| ensures Known(entries[i].key) && Known(entries[i].value) {
        SupportedKnown(entries[i].key);
        SupportedKnown(entries[i].value);
      }
    case _ =>
  }

  // ----- what the reader can build -----

  /** The values of the classes that the reader builds. */
  predicate Plain(v: Value) {
    match v
    case Items(_, items) => forall i :: 0 <= i < |items| ==> Plain(items[i])
    case Map(entries) => forall i :: 0 <= i < |entries| ==> Plain(entries[i].key) && Plain(entries[i].value)
    case Date(_) => false
    case SetOf(_) => false
    case IntArr(_) => false
    case LongArr(_) => false
    case BoolArr(_) => false
    case Unsupported => false
    case _ => true
  }

  /** A set becomes a table keyed from 1, a primitive array one of boxed elements, a boolean array a list,
      and a date its text. */
  function Norm(v: Value): Value {
    match v
    case Date(s) => Str(s)
    case Items(kind, items) => Items(kind, seq(|items|, i requires 0 <= i < |items| => Norm(items[i])))
    case SetOf(elems) => Map(seq(|elems|, i requires 0 <= i < |elems| => Entry(Int(Wrapped(i + 1)), Norm(elems[i]))))
    case Map(entries) =>
      Map(seq(|entries|, i requires 0 <= i < |entries| => Entry(Norm(entries[i].key), Norm(entries[i].value))))
    case IntArr(xs) => Items(Integers, seq(|xs|, i requires 0 <= i < |xs| => Int(xs[i])))
    case LongArr(xs) => Items(Longs, seq(|xs|, i requires 0 <= i < |xs| => Long(xs[i])))
    case BoolArr(xs) => Items(AnyList, seq(|xs|, i requires 0 <= i < |xs| => Bool(xs[i])))
    case _ => v
  }
}

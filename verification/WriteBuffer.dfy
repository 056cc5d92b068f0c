/** The writer: every call appends to the buffer what the encoding says. */
module WriteBuffers {
  import opened Wrappers
  import opened Wire
  import opened Values
  import opened Encoding

  /** What is written behind an element, if it could be written. */
  function RestOfEntries(es: seq<Entry>, i: nat): seq<Byte>
    requires i < |es|
  {
    if KnownEntry(es[i]) then EncEntries(es[i + 1..]) else []
  }

  function RestOfNumbered(vs: seq<Value>, i: nat, p: nat): seq<Byte>
    requires i < |vs|
  {
    if Known(vs[i]) then EncNumbered(vs[i + 1..], p + 1) else []
  }

  function RestOfItems(vs: seq<Value>, i: nat): seq<Byte>
    requires i < |vs|
  {
    if Known(vs[i]) then EncAll(vs[i + 1..]) else []
  }

  lemma Joined<T>(a: seq<T>, b: seq<T>, c: seq<T>)
    ensures a + (b + c) == a + b + c
    ensures c == [] ==> a + (b + c) == a + b
  {
  }

  class WriteBuffer {
    var buff: seq<Byte>

    /** allocate: an auto-expanding, little-endian buffer. */
    constructor Allocate()
      ensures buff == []
    {
      buff := [];
    }

    method Put(b: seq<Byte>)
      modifies this
      ensures buff == old(buff) + b
    {
      buff := buff + b;
    }

    /** The type, and the number of elements. */
    method PutHeader(tag: Byte, n: nat)
      modifies this
      ensures buff == old(buff) + Header(tag, n)
    {
      Put([tag]);
      Put(LengthBytes(n));
    }

    method WriteStr(s: seq<Byte>)
      modifies this
      ensures buff == old(buff) + StrCode(s)
    {
      hide LengthBytes, Compact, CompactTag;
      if Compact(|s|) {
        Put([CompactTag(|s|)]);
        Put(s);
      } else {
        Put([TYPE_STRING]);
        Put(LengthBytes(|s|));
        Put(s);
      }
    }

    method WriteBytes(d: seq<Byte>)
      modifies this
      ensures buff == old(buff) + Enc(Bytes(d))
    {
      PutHeader(TYPE_BYTES, |d|);
      Put(d);
    }

    /** write_table for a map: key and value of every entry. */
    method WriteMap(v: Value) returns (ok: bool)
      requires v.Map?
      modifies this
      ensures buff == old(buff) + Enc(v) && ok == Known(v)
      decreases v, 0
    {
      var es := v.entries;
      ghost var whole := buff + Enc(v);
      PutHeader(TYPE_TABLE, |es|);
      assert es[0..] == es && es[|es|..] == [];
      for i := 0 to |es|
        invariant whole == buff + EncEntries(es[i..])
        invariant forall j :: 0 <= j < i ==> KnownEntry(es[j])
      {
        assert es[i..][1..] == es[i + 1..] && EncEntries(es[i..]) == EncEntry(es[i]) + RestOfEntries(es, i);
        Joined(buff, EncEntry(es[i]), RestOfEntries(es, i));
        ok := WriteEntry(es[i]);
        if !ok {
          assert RestOfEntries(es, i) == [];
          return;
        }
      }
      ok := true;
    }

    method WriteEntry(e: Entry) returns (ok: bool)
      modifies this
      ensures buff == old(buff) + EncEntry(e) && ok == KnownEntry(e)
      decreases e, 0
    {
      ok := WriteObject(e.key);
      if ok {
        ok := WriteObject(e.value);
      }
    }

    /** write_table for a set: its elements under the keys 1, 2, ... */
    method WriteSet(v: Value) returns (ok: bool)
      requires v.SetOf?
      modifies this
      ensures buff == old(buff) + Enc(v) && ok == Known(v)
      decreases v, 0
    {
      var vs := v.elems;
      ghost var whole := buff + Enc(v);
      PutHeader(TYPE_TABLE, |vs|);
      assert vs[0..] == vs && vs[|vs|..] == [];
      var p := 1;
      for i := 0 to |vs|
        invariant p == i + 1
        invariant whole == buff + EncNumbered(vs[i..], p)
        invariant forall j :: 0 <= j < i ==> Known(vs[j])
      {
        assert vs[i..][1..] == vs[i + 1..];
        assert EncNumbered(vs[i..], p) == IntCode(Wrapped(p)) + Enc(vs[i]) + RestOfNumbered(vs, i, p);
        Joined(buff, IntCode(Wrapped(p)) + Enc(vs[i]), RestOfNumbered(vs, i, p));
        ok := WriteNumbered(p, vs[i]);
        if !ok {
          assert RestOfNumbered(vs, i, p) == [];
          return;
        }
        p := p + 1;
      }
      ok := true;
    }

    method WriteNumbered(p: nat, o: Value) returns (ok: bool)
      modifies this
      ensures buff == old(buff) + (IntCode(Wrapped(p)) + Enc(o)) && ok == Known(o)
      decreases o, 2
    {
      Joined(buff, IntCode(Wrapped(p)), Enc(o));
      Put(IntCode(Wrapped(p)));
      ok := WriteObject(o);
    }

    /** write_list, and write_array for boxed elements. */
    method WriteItems(v: Value) returns (ok: bool)
      requires v.Items?
      modifies this
      ensures buff == old(buff) + Enc(v) && ok == Known(v)
      decreases v, 0
    {
      var vs := v.items;
      ghost var whole := buff + Enc(v);
      PutHeader(KindTag(v.kind), |vs|);
      assert vs[0..] == vs && vs[|vs|..] == [];
      for i := 0 to |vs|
        invariant whole == buff + EncAll(vs[i..])
        invariant forall j :: 0 <= j < i ==> Known(vs[j])
      {
        assert vs[i..][1..] == vs[i + 1..] && EncAll(vs[i..]) == Enc(vs[i]) + RestOfItems(vs, i);
        Joined(buff, Enc(vs[i]), RestOfItems(vs, i));
        ok := WriteObject(vs[i]);
        if !ok {
          assert RestOfItems(vs, i) == [];
          return;
        }
      }
      ok := true;
    }

    /** write_array for primitive elements. */
    method WriteEach<T>(tag: Byte, xs: seq<T>, f: T -> seq<Byte>)
      modifies this
      ensures buff == old(buff) + (Header(tag, |xs|) + Each(xs, f))
    {
      ghost var whole := buff + (Header(tag, |xs|) + Each(xs, f));
      PutHeader(tag, |xs|);
      assert xs[0..] == xs && xs[|xs|..] == [];
      for i := 0 to |xs|
        invariant whole == buff + Each(xs[i..], f)
      {
        assert xs[i..][1..] == xs[i + 1..];
        Joined(buff, f(xs[i]), Each(xs[i + 1..], f));
        Put(f(xs[i]));
      }
    }

    /** write_object: an object of an unknown class raises an exception, and what was written stays. */
    method WriteObject(o: Value) returns (ok: bool)
      modifies this
      ensures buff == old(buff) + Enc(o) && ok == Known(o)
      decreases o, 1
    {
      ok := true;
      match o {
        case Null => Put([TYPE_NIL]);
        case SetOf(_) => ok := WriteSet(o);
        case Map(_) => ok := WriteMap(o);
        case Items(_, _) => ok := WriteItems(o);
        case Int(i) => Put(IntCode(i));
        case IntArr(xs) => WriteEach(TYPE_INTEGER_ARRAY, xs, IntCode);
        case Str(s) => WriteStr(s);
        case Bool(b) => Put(BoolCode(b));
        case Bytes(d) => WriteBytes(d);
        case Date(s) => WriteStr(s);
        case Long(l) => Put(LongCode(l));
        case Double(w) => Put(DoubleCode(w));
        case BoolArr(xs) => WriteEach(TYPE_LIST, xs, BoolCode);
        case LongArr(xs) => WriteEach(TYPE_LONG_ARRAY, xs, LongCode);
        case Unsupported => ok := false;
      }
    }

    /** toByteArray: a copy of what has been written. */
    method ToByteArray() returns (b: array<Byte>)
      ensures fresh(b) && b[..] == buff
    {
      b := new Byte[|buff|];
      for n := 0 to |buff|
        invariant forall i :: 0 <= i < n ==> b[i] == buff[i]
      {
        b[n] := buff[n];
      }
    }
  }

  /** objectToBytes */
  method ObjectToBytes(o: Value) returns (ret: Option<array<Byte>>)
    ensures ret.Some? <==> Known(o)
    ensures ret.Some? ==> ret.value[..] == Enc(o)
  {
    var out := new WriteBuffer.Allocate();
    var ok := out.WriteObject(o);
    if !ok {
      return None;
    }
    var b := out.ToByteArray();
    ret := Some(b);
  }
}

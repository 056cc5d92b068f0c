/** The reader: a cursor over some bytes, moved by every call. */
module ReadBuffers {
  import opened Wire
  import opened Values
  import opened Decoding

  datatype Result<+T> = Ok(value: T) | Err(error: Error)

  class ReadBuffer {
    const src: seq<Byte>
    const charset: Charset
    var pos: nat

    ghost predicate Valid()
      reads this
    {
      pos <= |src|
    }

    /** What is left to read. */
    function Left(): seq<Byte>
      requires Valid()
      reads this
    {
      src[pos..]
    }

    /** warp */
    constructor Warp(src: seq<Byte>, charset: Charset)
      ensures Valid() && this.src == src && this.charset == charset && Left() == src
    {
      this.src, this.charset, pos := src, charset, 0;
    }

    /** A result is what the specification says, and the cursor is where it says, after an exception as well. */
    ghost predicate Reads<T>(spec: Read<T>, r: Result<T>, from: nat)
      reads this
    {
      Valid() && pos == from + spec.used && r == (if spec.Got? then Ok(spec.value) else Err(spec.error))
    }

    method GetByte() returns (r: Result<Byte>)
      requires Valid()
      modifies this
      ensures Reads(if old(Left()) == [] then Failed(Underflow, 0) else Got(old(Left())[0], 1), r, old(pos))
    {
      if pos == |src| {
        return Err(Underflow);
      }
      r := Ok(src[pos]);
      pos := pos + 1;
    }

    method GetBytes(n: nat) returns (r: Result<seq<Byte>>)
      requires Valid()
      modifies this
      ensures Reads(if |old(Left())| < n then Failed(Underflow, 0) else Got(old(Left())[..n], n), r, old(pos))
    {
      if |src| - pos < n {
        return Err(Underflow);
      }
      assert Left()[..n] == src[pos..pos + n];
      r := Ok(src[pos..pos + n]);
      pos := pos + n;
    }

    /** Helper.getBytes: byte by byte, so that what there is has been read when the bytes run out. */
    method GetEach(n: nat) returns (r: Result<seq<Byte>>)
      requires Valid()
      modifies this
      ensures Reads(
        if |old(Left())| < n then Failed(Underflow, |old(Left())|) else Got(old(Left())[..n], n), r, old(pos))
    {
      ghost var left, start := Left(), pos;
      var b := new Byte[n];
      for i := 0 to n
        invariant Valid() && pos == start + i && fresh(b)
        invariant forall j :: 0 <= j < i ==> b[j] == left[j]
      {
        var x := GetByte();
        if x.Err? {
          return Err(x.error);
        }
        b[i] := x.value;
      }
      assert b[..] == left[..n];
      r := Ok(b[..]);
    }

    method ReadStringImpl(length: int) returns (r: Result<Value>)
      requires Valid()
      modifies this
      ensures Reads(DecStr(charset, old(Left()), 0, length), r, old(pos))
    {
      if length <= 0 {
        return Ok(Str([]));
      }
      var bytes := GetBytes(length);
      match bytes {
        case Err(e) => r := Err(e);
        case Ok(b) =>
          match charset(b) {
            case None => r := Err(Malformed);
            case Some(s) => r := Ok(Str(s));
          }
      }
    }

    /** The loop over the elements of a list or an array. */
    method ReadItems(n: int, kind: Kind) returns (r: Result<seq<Value>>)
      requires Valid()
      modifies this
      ensures Reads(DecItems(charset, old(Left()), n, kind, []), r, old(pos))
      decreases |src| - pos, 1
    {
      hide Dec, DecItems, Fits;
      ghost var start := pos;
      ghost var spec := DecItems(charset, Left(), n, kind, []);
      var vs := [];
      var i := 0;
      while i < n
        invariant Valid() && start <= pos && 0 <= i && (n >= 0 ==> i <= n) && (n < 0 ==> i == 0)
        invariant spec == Plus(pos - start, DecItems(charset, Left(), n - i, kind, vs))
        decreases n - i
      {
        ghost var left := Left();
        ItemsTurn(charset, left, n - i, kind, vs);
        var o := ReadObject();
        if o.Err? {
          return Err(o.error);
        }
        if !Fits(kind, o.value) {
          return Err(ClassCast);
        }
        assert Left() == left[Dec(charset, left).used..];
        vs := vs + [o.value];
        i := i + 1;
      }
      ItemsTurn(charset, Left(), n - i, kind, vs);
      r := Ok(vs);
    }

    /** The loop over the entries of a table. */
    method ReadEntries(n: int) returns (r: Result<seq<Entry>>)
      requires Valid()
      modifies this
      ensures Reads(DecEntries(charset, old(Left()), n, []), r, old(pos))
      decreases |src| - pos, 1
    {
      hide Dec, DecEntries, Decoding.Put;
      ghost var start := pos;
      ghost var spec := DecEntries(charset, Left(), n, []);
      var es := [];
      var i := 0;
      while i < n
        invariant Valid() && start <= pos && 0 <= i && (n >= 0 ==> i <= n) && (n < 0 ==> i == 0)
        invariant spec == Plus(pos - start, DecEntries(charset, Left(), n - i, es))
        decreases n - i
      {
        ghost var left := Left();
        EntriesTurn(charset, left, n - i, es);
        var key := ReadObject();
        if key.Err? {
          return Err(key.error);
        }
        ghost var k := Dec(charset, left).used;
        assert Left() == left[k..];
        var value := ReadObject();
        if value.Err? {
          return Err(value.error);
        }
        assert Left() == left[k..][Dec(charset, left[k..]).used..];
        es := Put(es, key.value, value.value);
        i := i + 1;
      }
      EntriesTurn(charset, Left(), n - i, es);
      r := Ok(es);
    }

    /** read_object */
    method ReadObject() returns (r: Result<Value>)
      requires Valid()
      modifies this
      ensures Reads(Dec(charset, old(Left())), r, old(pos))
      decreases |src| - pos, 0
    {
      ghost var b := Left();
      var t := GetByte();
      if t.Err? {
        return Err(t.error);
      }
      var tag := t.value;
      assert Left() == b[1..];
      if tag == TYPE_NIL {
        r := Ok(Null);
      } else if tag == TYPE_FALSE {
        r := Ok(Bool(false));
      } else if tag == TYPE_TRUE {
        r := Ok(Bool(true));
      } else if tag == TYPE_LONG || tag == TYPE_DOUBLE {
        var x := GetBytes(8);
        if x.Err? {
          return Err(x.error);
        }
        assert x.value == b[1..9];
        r := Ok(if tag == TYPE_LONG then Long(LongOf(x.value)) else Double(WordOf(x.value)));
      } else if tag == STR_0 {
        r := Ok(Str([]));
      } else if IsCompactTag(tag) {
        r := ReadStringImpl(CompactLength(tag));
        AtOffset(charset, b, 1, CompactLength(tag));
      } else if tag in {TYPE_INT, TYPE_STRING, TYPE_BYTES, TYPE_TABLE} || KindOf(tag).Some? {
        var x := GetBytes(4);
        if x.Err? {
          return Err(x.error);
        }
        assert x.value == b[1..5] && Left() == b[5..];
        r := ReadBody(tag, IntOf(x.value), b);
      } else {
        r := Err(UnknownTag);
      }
    }

    /** The rest of an object behind its tag and its int. */
    method ReadBody(tag: Byte, n: Int32, ghost b: seq<Byte>) returns (r: Result<Value>)
      requires Valid() && |b| >= 5 && b[0] == tag && Left() == b[5..]
      requires tag in {TYPE_INT, TYPE_STRING, TYPE_BYTES, TYPE_TABLE} || KindOf(tag).Some?
      modifies this
      requires pos >= 5
      ensures pos >= old(pos) && Reads(DecBody(charset, b, n), r, old(pos) - 5)
      decreases |src| - pos, 2
    {
      if tag == TYPE_INT {
        r := Ok(Int(n));
      } else if tag == TYPE_STRING {
        r := ReadStringImpl(n);
        AtOffset(charset, b, 5, n);
      } else if tag == TYPE_BYTES {
        if n < 0 {
          return Err(NegativeSize);
        }
        var d := GetEach(n);
        assert n <= |b| - 5 ==> b[5..][..n] == b[5..5 + n];
        r := if d.Ok? then Ok(Bytes(d.value)) else Err(d.error);
      } else if tag == TYPE_TABLE {
        var es := ReadEntries(n);
        r := if es.Ok? then Ok(Map(es.value)) else Err(es.error);
      } else {
        var kind := KindOf(tag).value;
        if n < 0 && kind != AnyList {
          return Err(NegativeSize);
        }
        var vs := ReadItems(n, kind);
        r := if vs.Ok? then Ok(Items(kind, vs.value)) else Err(vs.error);
      }
    }
  }

  /** One turn of the loop over the elements, or its end. */
  lemma ItemsTurn(cs: Charset, b: seq<Byte>, n: int, kind: Kind, acc: seq<Value>)
    ensures n <= 0 ==> DecItems(cs, b, n, kind, acc) == Got(acc, 0)
    ensures n > 0 && Dec(cs, b).Failed? ==> DecItems(cs, b, n, kind, acc) == Failed(Dec(cs, b).error, Dec(cs, b).used)
    ensures n > 0 && Dec(cs, b).Got? && !Fits(kind, Dec(cs, b).value) ==>
      DecItems(cs, b, n, kind, acc) == Failed(ClassCast, Dec(cs, b).used)
    ensures n > 0 && Dec(cs, b).Got? && Fits(kind, Dec(cs, b).value) ==>
      var k := Dec(cs, b).used;
      k <= |b| && DecItems(cs, b, n, kind, acc) == Plus(k, DecItems(cs, b[k..], n - 1, kind, acc + [Dec(cs, b).value]))
  {
    hide Dec, Fits;
  }

  /** One turn of the loop over the entries, or its end. */
  lemma EntriesTurn(cs: Charset, b: seq<Byte>, n: int, acc: seq<Entry>)
    ensures n <= 0 ==> DecEntries(cs, b, n, acc) == Got(acc, 0)
    ensures n > 0 && Dec(cs, b).Failed? ==> DecEntries(cs, b, n, acc) == Failed(Dec(cs, b).error, Dec(cs, b).used)
    ensures n > 0 && Dec(cs, b).Got? && Dec(cs, b[Dec(cs, b).used..]).Failed? ==>
      var k := Dec(cs, b).used;
      var value := Dec(cs, b[k..]);
      DecEntries(cs, b, n, acc) == Failed(value.error, k + value.used)
    ensures n > 0 && Dec(cs, b).Got? && Dec(cs, b[Dec(cs, b).used..]).Got? ==>
      var k := Dec(cs, b).used;
      var value := Dec(cs, b[k..]);
      && value.used <= |b[k..]|
      && DecEntries(cs, b, n, acc)
         == Plus(k + value.used, DecEntries(cs, b[k..][value.used..], n - 1, Put(acc, Dec(cs, b).value, value.value)))
  {
    hide Dec, Put;
  }

  lemma AtOffset(cs: Charset, b: seq<Byte>, at: nat, n: int)
    requires at <= |b|
    ensures DecStr(cs, b, at, n) == Plus(at, DecStr(cs, b[at..], 0, n))
  {
    if 0 < n <= |b| - at {
      assert b[at..][0..n] == b[at..at + n];
    }
  }

  /** objectFromBytes */
  method ObjectFromBytes(b: seq<Byte>, charset: Charset) returns (r: Result<Value>)
    ensures match Dec(charset, b) case Got(v, _) => r == Ok(v) case Failed(e, _) => r == Err(e)
  {
    var reader := new ReadBuffer.Warp(b, charset);
    r := reader.ReadObject();
  }
}

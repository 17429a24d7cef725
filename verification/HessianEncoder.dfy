/**
  * The Encoder of encode.go: a growing buffer and the classes already defined in it.
  */
module HessianEncoder {
  import opened GoBase
  import opened Unicode
  import opened HessianInt
  import opened HessianString
  import opened HessianBinary
  import opened HessianValue

  /** Every object inside belongs to a registered class and has its number of fields. */
  predicate Registered(g: Schema, v: Value) {
    match v
    case List(elems) => forall i | 0 <= i < |elems| :: Registered(g, elems[i])
    case Map(entries) => forall i | 0 <= i < |entries| :: RegisteredEntry(g, entries[i])
    case Obj(java, fields) =>
      java in g && |fields| == |g[java]| && forall i | 0 <= i < |fields| :: Registered(g, fields[i])
    case ZeroStruct => false
    case _ => true
  }

  predicate RegisteredEntry(g: Schema, e: Entry) {
    Registered(g, e.key) && Registered(g, e.val)
  }

  class Encoder {
    const schema: Schema
    var buffer: bytes
    var classInfoList: seq<ClassDef>

    constructor (g: Schema)
      ensures schema == g && buffer == [] && classInfoList == []
    {
      schema := g;
      buffer := [];
      classInfoList := [];
    }

    /** The pieces written so far together with what is still to be written for `todo`. */
    ghost predicate Promises(target: Out, todo: Out)
      reads this
    {
      buffer + todo.b == target.b && todo.tbl == target.tbl
    }

    method Append(buf: bytes)
      modifies this
      ensures buffer == old(buffer) + buf && classInfoList == old(classInfoList)
    {
      buffer := buffer + buf;
    }

    method Encode(v: Value)
      requires Registered(schema, v)
      modifies this
      ensures var o := Enc(schema, v, old(classInfoList));
              buffer == old(buffer) + o.b && classInfoList == o.tbl
      decreases v, 1
    {
      match v
      case Null => buffer := buffer + [0x4e];
      case Bool(b) => buffer := buffer + [if b then 0x54 else 0x46];
      case Int32(i) => buffer := buffer + EncInt32(i);
      case Int64(l) => buffer := buffer + EncInt64(l);
      case Str(s) =>
        buffer := EncodeString(Utf8(s), buffer);
        RunesOfUtf8(s);
      case Bin(data) => buffer := EncodeBinary(data, buffer);
      case List(elems) => EncUntypedList(elems);
      case Map(entries) => EncUntypedMap(entries);
      case Obj(java, fields) => EncStruct(java, fields);
    }

    /** Encodes the elements of a list, or the fields of a struct, in order. */
    method EncodeAll(vs: seq<Value>)
      requires forall i | 0 <= i < |vs| :: Registered(schema, vs[i])
      modifies this
      ensures var o := EncSeq(schema, vs, old(classInfoList));
              buffer == old(buffer) + o.b && classInfoList == o.tbl
      decreases vs, 0
    {
      ghost var all := EncSeq(schema, vs, classInfoList);
      ghost var target := Out(buffer + all.b, all.tbl);
      for i := 0 to |vs|
        invariant Promises(target, EncSeq(schema, vs[i..], classInfoList))
      {
        ghost var first := Enc(schema, vs[i], classInfoList);
        ghost var others := EncSeq(schema, vs[i + 1..], first.tbl);
        assert vs[i..][1..] == vs[i + 1..];
        Concat(buffer, first.b, others.b);
        Encode(vs[i]);
      }
      assert EncSeq(schema, vs[|vs|..], classInfoList) == Out([], classInfoList);
    }

    method EncUntypedList(elems: seq<Value>)
      requires Registered(schema, List(elems))
      modifies this
      ensures var o := Enc(schema, List(elems), old(classInfoList));
              buffer == old(buffer) + o.b && classInfoList == o.tbl
      decreases elems, 1
    {
      ghost var r := EncSeq(schema, elems, classInfoList);
      Concat4(buffer, [0x58], EncInt32(Wrap32(|elems|)), r.b);
      buffer := buffer + [0x58];
      buffer := buffer + EncInt32(Wrap32(|elems|));
      EncodeAll(elems);
    }

    method EncodeEntry(e: Entry)
      requires RegisteredEntry(schema, e)
      modifies this
      ensures var o := EncEntry(schema, e, old(classInfoList));
              buffer == old(buffer) + o.b && classInfoList == o.tbl
      decreases e, 0
    {
      ghost var k := Enc(schema, e.key, classInfoList);
      Concat(buffer, k.b, Enc(schema, e.val, k.tbl).b);
      Encode(e.key);
      Encode(e.val);
    }

    /** encUntypedMap and encMap, over the entries in iteration order. */
    method EncUntypedMap(entries: seq<Entry>)
      requires Registered(schema, Map(entries))
      modifies this
      ensures var o := Enc(schema, Map(entries), old(classInfoList));
              buffer == old(buffer) + o.b && classInfoList == o.tbl
      decreases entries, 0
    {
      if |entries| == 0 {
        return;
      }
      ghost var r := EncEntries(schema, entries, classInfoList);
      Concat4(buffer, [0x48], r.b, [0x5a]);
      buffer := buffer + [0x48];
      ghost var target := Out(buffer + r.b, r.tbl);
      for i := 0 to |entries|
        invariant Promises(target, EncEntries(schema, entries[i..], classInfoList))
      {
        ghost var first := EncEntry(schema, entries[i], classInfoList);
        ghost var others := EncEntries(schema, entries[i + 1..], first.tbl);
        assert entries[i..][1..] == entries[i + 1..];
        Concat(buffer, first.b, others.b);
        EncodeEntry(entries[i]);
      }
      assert EncEntries(schema, entries[|entries|..], classInfoList) == Out([], classInfoList);
      buffer := buffer + [0x5a];
    }

    /** The position of a class among those already defined, or -1. */
    method FindClass(java: string) returns (idx: int)
      ensures idx == if Index(classInfoList, java) < |classInfoList| then Index(classInfoList, java) else -1
    {
      for i := 0 to |classInfoList|
        invariant forall j | 0 <= j < i :: classInfoList[j].java != java
      {
        if java == classInfoList[i].java {
          return i;
        }
      }
      idx := -1;
    }

    method EncStruct(java: string, fields: seq<Value>)
      requires Registered(schema, Obj(java, fields))
      modifies this
      ensures var o := Enc(schema, Obj(java, fields), old(classInfoList));
              buffer == old(buffer) + o.b && classInfoList == o.tbl
      decreases fields, 1
    {
      ghost var start := buffer;
      var idx := FindClass(java);
      var def := DefOf(schema, java);
      ghost var defined := idx == -1;
      if idx == -1 {
        idx := |classInfoList|;
        classInfoList := classInfoList + [def];
        buffer := buffer + ([0x43] + EncClassBody(def));
      }
      ghost var r, mid := EncSeq(schema, fields, classInfoList), buffer;
      if Byte(idx) <= 0x0f {
        buffer := buffer + [0x60 + Byte(idx)];
      } else {
        buffer := buffer + ([0x4f] + EncInt32(Wrap32(idx)));
      }
      EncodeAll(fields);
      Concat(mid, ObjectHeader(idx), r.b);
      if defined {
        Concat4(start, [0x43], EncClassBody(def), ObjectHeader(idx) + r.b);
        Concat(start, [0x43], EncClassBody(def));
      }
    }
  }
}

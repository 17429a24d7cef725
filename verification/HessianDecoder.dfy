/**
  * The Decoder of decode.go: a reader that advances and a class table that grows. Each method is
  * proved against its function in HessianDecode; `flag` is a tag already read, or TAG_READ.
  */
module HessianDecoder {
  import opened GoBase
  import opened Unicode
  import opened HessianInt
  import HS = HessianString
  import HB = HessianBinary
  import opened HessianValue
  import D = HessianDecode

  const TAG_READ := -1

  /** One turn of decClassDef's name loop. */
  lemma NextName(n: nat, acc: seq<string>, s: bytes)
    requires n > 0
    ensures var name := HS.ReadString(s);
            D.DecNames(n, acc, s) ==
            if name.err != None then Res([], name.err, name.rest) else D.DecNames(n - 1, acc + [name.val], name.rest)
  {
  }

  /** decMapByValue once the map's tag is known. */
  lemma AfterMapTag(g: Schema, kt: Elem, vt: Elem, st: D.St)
    ensures var r, t := D.DecMapByValue(g, kt, vt, st), D.St(Tail(st.s), st.cls);
            && (Head(st.s) == 0x48 ==> r == D.DecPairs(g, kt, vt, [], t))
            && (Head(st.s) == 0x4d ==>
                  var name := HS.ReadString(t.s);
                  var u := D.St(name.rest, st.cls);
                  r == if name.err in {Panic, Unmodelled} then D.Ret(Null, name.err, u) else D.DecPairs(g, kt, vt, [], u))
            && (Head(st.s) !in {0x48, 0x4d} ==> r == D.Ret(Null, Fail, t))
  {
  }

  class Decoder {
    const schema: Schema
    var unread: bytes
    var classInfoList: seq<ClassDef>

    constructor (g: Schema, b: bytes)
      ensures schema == g && unread == b && classInfoList == []
    {
      schema := g;
      unread := b;
      classInfoList := [];
    }

    function State(): D.St
      reads this
    {
      D.St(unread, classInfoList)
    }

    /** The state once the tag is known. */
    function AfterTag(flag: int): D.St
      reads this
    {
      if flag == TAG_READ then D.St(Tail(unread), classInfoList) else State()
    }

    function TagOf(flag: int): byte
      reads this
    {
      if flag == TAG_READ then Head(unread) else Byte(flag)
    }

    /** `tag, _ := d.readByte()`. */
    method ReadByte() returns (b: byte)
      modifies this`unread
      ensures b == Head(old(unread)) && unread == Tail(old(unread))
    {
      if unread == [] {
        b := 0;
      } else {
        b := unread[0];
        unread := unread[1..];
      }
    }

    method TakeTag(flag: int) returns (tag: byte)
      modifies this`unread
      ensures tag == old(TagOf(flag)) && State() == old(AfterTag(flag))
    {
      if flag != TAG_READ {
        tag := Byte(flag);
      } else {
        tag := ReadByte();
      }
    }

    method ReadInt32Value(flag: int) returns (val: int32, err: Error)
      modifies this`unread
      ensures Res(val, err, unread) == DecInt32(old(TagOf(flag)), old(AfterTag(flag)).s)
    {
      var tag := TakeTag(flag);
      var buf;
      if 0x80 <= tag <= 0xbf {
        return Byte(tag as int - 0x90), None;
      } else if 0xc0 <= tag <= 0xcf {
        buf, err := ReadFully(1);
        return if err != None then 0 else Byte(tag as int - 0xc8) * 0x100 + buf[0], err;
      } else if 0xd0 <= tag <= 0xd7 {
        buf, err := ReadFully(2);
        return if err != None then 0 else Byte(tag as int - 0xd4) * 0x1_0000 + Num2(buf), err;
      } else if tag == 0x49 {
        buf, err := ReadFully(4);
        return if err != None then 0 else Wrap32(Num4(buf)), err;
      }
      return 0, Fail;
    }

    method ReadInt64Value(flag: int) returns (val: int64, err: Error)
      modifies this`unread
      ensures Res(val, err, unread) == DecInt64(old(TagOf(flag)), old(AfterTag(flag)).s)
    {
      var tag := TakeTag(flag);
      var buf;
      if tag == 0x4e || tag == 0x46 || tag == 0x5b {
        return 0, None;
      } else if tag == 0x54 || tag == 0x5c {
        return 1, None;
      } else if 0x80 <= tag <= 0xd7 {
        val, err := ReadInt32Value(tag);
      } else if tag == 0x5d {
        val := ReadByte();
        err := None;
      } else if tag == 0x5e {
        buf, err := ReadFully(2);
        return if err != None then 0 else Num2(buf), err;
      } else if tag == 0x49 || tag == 0x59 || tag == 0x5f {
        val, err := ReadInt32Value(TAG_READ);
      } else if 0xd8 <= tag <= 0xef {
        return Byte(tag as int - 0xe0), None;
      } else if 0xf0 <= tag <= 0xff {
        buf, err := ReadFully(1);
        return if err != None then 0 else Byte(tag as int - 0xf8) * 0x100 + buf[0], err;
      } else if 0x38 <= tag <= 0x3f {
        buf, err := ReadFully(2);
        return if err != None then 0 else Byte(tag as int - 0x3c) * 0x1_0000 + Num2(buf), err;
      } else if tag == 0x4c {
        buf, err := ReadFully(8);
        return if err != None then 0 else Wrap64(Num8(buf)), err;
      } else {
        return 0, Fail;
      }
    }

    method GetStringLength(tag: byte) returns (length: int, err: Error)
      modifies this`unread
      ensures Res(length, err, unread) == HS.StringLength(tag, old(unread))
    {
      var buf;
      if tag <= 0x1f {
        return tag, None;
      } else if 0x30 <= tag <= 0x33 {
        buf, err := ReadFully(1);
        if err != None {
          return -1, err;
        }
        return (tag as int - 0x30) * 0x100 + buf[0], None;
      } else if tag == 0x52 || tag == 0x53 {
        buf, err := ReadFully(2);
        if err != None {
          return -1, err;
        }
        return Num2(buf), None;
      }
      return -1, None;
    }

    method DecString(flag: int) returns (s: string, err: Error)
      modifies this`unread
      ensures Res(s, err, unread) == HS.DecString(old(TagOf(flag)), old(AfterTag(flag)).s)
    {
      var tag := TakeTag(flag);
      if !HS.IsStringTag(tag) {
        s, err := PrintScalar(tag);
        return;
      }
      var length;
      length, err := GetStringLength(tag);
      if err != None {
        return "", Fail;
      }
      s, err := ReadRunes(length, tag != 0x52);
    }

    method ReadString() returns (s: string, err: Error)
      modifies this`unread
      ensures Res(s, err, unread) == HS.ReadString(old(unread))
    {
      s, err := DecString(TAG_READ);
    }

    /** The scalar branches of decString. */
    method PrintScalar(tag: byte) returns (s: string, err: Error)
      requires !HS.IsStringTag(tag)
      modifies this`unread
      ensures Res(s, err, unread) == HS.PrintScalar(tag, old(unread))
    {
      if tag == 0x4e {
        return "null", None;
      } else if tag == 0x54 {
        return "true", None;
      } else if tag == 0x46 {
        return "false", None;
      } else if IsInt32Tag(tag) || IsInt64Tag(tag) {
        var i64;
        i64, err := ReadInt64Value(tag);
        if err != None {
          return "", Fail;
        }
        return Itoa(i64), None;
      } else if tag == 0x5b {
        return "0.0", None;
      } else if tag == 0x5c {
        return "1.0", None;
      }
      return "", if tag == 0x5d || tag == 0x5e then Unmodelled else Fail;
    }

    /** The rune loop of decString: `runeDate` is the part of the rune slice filled so far. */
    method ReadRunes(first: nat, firstIsLast: bool) returns (s: string, err: Error)
      modifies this`unread
      ensures Res(s, err, unread) == HS.Fill("", first, firstIsLast, old(unread))
    {
      var length, last := first as int, firstIsLast;
      var runeDate := "";
      var i := 0;
      while true
        invariant 0 <= i == |runeDate| <= length
        invariant HS.Fill(runeDate, length - i, last, unread) == HS.Fill("", first, firstIsLast, old(unread))
        decreases |unread|, length - i, if last then 0 else 1
      {
        if i == length {
          if last {
            return runeDate, None;
          }
          var b := ReadByte();
          var l;
          l, err := GetStringLength(b);
          if err != None {
            return "", Fail;
          }
          if l < 0 {
            return "", if length != 0 && unread == [] then Fail else Panic;
          }
          last := b != 0x52;
          length := length + l;
        } else {
          if unread == [] {
            return "", Fail;
          }
          var r := DecRune(unread);
          runeDate := runeDate + [r.c];
          unread := unread[r.width..];
          i := i + 1;
        }
      }
    }

    method GetBinaryLength(tag: byte) returns (length: nat, err: Error)
      modifies this`unread
      ensures Res(length, err, unread) == HB.BinaryLength(tag, old(unread))
    {
      var buf;
      if 0x20 <= tag <= 0x2f {
        return tag as int - 0x20, None;
      }
      if 0x34 <= tag <= 0x37 {
        buf, err := ReadFully(1);
        if err != None {
          return 0, err;
        }
        return (tag as int - 0x34) * 0x100 + buf[0], None;
      }
      if tag != 0x41 && tag != 0x42 {
        return 0, Fail;
      }
      buf, err := ReadFully(2);
      if err != None {
        return 0, err;
      }
      return Num2(buf), None;
    }

    method ReadFully(n: nat) returns (b: bytes, err: Error)
      modifies this`unread
      ensures Res(b, err, unread) == ReadFull(n, old(unread))
    {
      var r := ReadFull(n, unread);
      unread := r.rest;
      return r.val, r.err;
    }

    method DecBinary(flag: int) returns (data: bytes, err: Error)
      modifies this`unread
      ensures Res(data, err, unread) == HB.DecBinary(old(TagOf(flag)), old(AfterTag(flag)).s)
    {
      var tag := TakeTag(flag);
      if tag == 0x4e {
        return [], None;
      }
      ghost var whole := HB.ReadChunks([], tag, unread);
      data := [];
      var length, chunk;
      while tag == 0x41
        invariant HB.ReadChunks(data, tag, unread) == whole
        decreases |unread|, if tag == 0x41 then 1 else 0
      {
        length, err := GetBinaryLength(tag);
        if err != None || HB.CHUNK_SIZE < length {
          return [], err;
        }
        chunk, err := ReadFully(length);
        if err != None {
          return [], err;
        }
        data := data + chunk;
        tag := ReadByte();
      }
      length, err := GetBinaryLength(tag);
      if err != None || HB.CHUNK_SIZE < length {
        return [], err;
      }
      chunk, err := ReadFully(length);
      if err != None {
        return [], err;
      }
      return data + chunk, None;
    }

    method Decode() returns (val: Value, err: Error)
      modifies this
      ensures D.Ret(val, err, State()) == D.Decode(schema, old(State()))
      decreases |unread|, 3
    {
      if unread == [] {
        return Null, EOF;
      }
      var tag := ReadByte();
      if tag == 0x5a || tag == 0x4e {
        return Null, None;
      } else if tag == 0x54 {
        return Bool(true), None;
      } else if tag == 0x46 {
        return Bool(false), None;
      } else if IsInt32Tag(tag) {
        var i;
        i, err := ReadInt32Value(tag);
        val := Int32(i);
      } else if IsInt64Tag(tag) {
        var l;
        l, err := ReadInt64Value(tag);
        val := Int64(l);
      } else if HS.IsStringTag(tag) {
        var s;
        s, err := DecString(tag);
        val := Str(s);
      } else if HB.IsBinaryTag(tag) {
        var b;
        b, err := DecBinary(tag);
        val := Bin(b);
      } else if D.IsUntypedListTag(tag) || D.IsTypedListTag(tag) {
        val, err := DecList(tag);
      } else if tag == 0x48 {
        val, err := DecMap();
      } else if D.IsObjectTag(tag) {
        val, err := DecObject(tag);
      } else if D.IsUnmodelledTag(tag) {
        return Null, Unmodelled;
      } else {
        return Null, Fail;
      }
    }

    /** decList after its tag. */
    method DecList(tag: byte) returns (val: Value, err: Error)
      modifies this
      ensures D.Ret(val, err, State()) == D.DecList(schema, tag, old(State()))
      decreases |unread|, 5
    {
      var size: int;
      if D.IsTypedListTag(tag) {
        return Null, Unmodelled;
      } else if 0x78 <= tag <= 0x7f {
        size := tag - 0x78;
      } else if tag == 0x58 || tag == 0x57 {
        size, err := ReadInt32Value(TAG_READ);
        if err != None {
          return Null, Fail;
        }
        if size < 0 {
          return Null, Panic;
        }
      } else {
        return Null, Fail;
      }
      val, err := ReadElems(size, tag == 0x57);
    }

    /** The element loop of decList, counting the elements still to be read. */
    method ReadElems(size: nat, variable: bool) returns (val: Value, err: Error)
      modifies this
      ensures D.Ret(val, err, State()) == D.DecElems(schema, size, [], variable, old(State()))
      decreases |unread|, 4
    {
      var arr := [];
      var todo := size;
      while todo > 0
        invariant |unread| <= old(|unread|)
        invariant D.DecElems(schema, todo, arr, variable, State()) == D.DecElems(schema, size, [], variable, old(State()))
      {
        todo := todo - 1;
        var it;
        it, err := Decode();
        if err != None {
          return Null, Trace(err);
        }
        arr := arr + [it];
      }
      if variable {
        var _ := ReadByte();
      }
      return List(arr), None;
    }

    /** decMap after the tag of an untyped map. */
    method DecMap() returns (val: Value, err: Error)
      modifies this
      ensures D.Ret(val, err, State()) == D.DecMap(schema, [], old(State()))
      decreases |unread|, 4
    {
      ghost var whole := D.DecMap(schema, [], State());
      var m := [];
      while true
        invariant |unread| <= old(|unread|)
        invariant D.DecMap(schema, m, State()) == whole
        decreases |unread|
      {
        if unread == [] {
          return Null, Panic;
        }
        if unread[0] == 0x5a {
          break;
        }
        var k, v;
        k, err := Decode();
        if err == EOF {
          break;
        }
        if err != None {
          return Null, err;
        }
        v, err := Decode();
        if err != None {
          return Null, err;
        }
        if !D.Hashable(k) {
          return Null, Panic;
        }
        m := Put(m, k, v);
      }
      var _ := ReadByte();
      return Map(m), None;
    }

    /** decMapByValue, returning the map instead of setting the field. */
    method DecMapByValue(kt: Elem, vt: Elem) returns (val: Value, err: Error)
      modifies this
      ensures D.Ret(val, err, State()) == D.DecMapByValue(schema, kt, vt, old(State()))
      decreases |unread|, 5
    {
      AfterMapTag(schema, kt, vt, State());
      var tag := ReadByte();
      if tag == 0x4d {
        var name;
        name, err := ReadString();
        if err == Panic || err == Unmodelled {
          return Null, err;
        }
      } else if tag != 0x48 {
        return Null, Fail;
      }
      val, err := ReadPairs(kt, vt);
    }

    /** The loop of decMapByValue. */
    method ReadPairs(kt: Elem, vt: Elem) returns (val: Value, err: Error)
      modifies this
      ensures D.Ret(val, err, State()) == D.DecPairs(schema, kt, vt, [], old(State()))
      decreases |unread|, 4
    {
      var m := [];
      while true
        invariant |unread| <= old(|unread|)
        invariant D.DecPairs(schema, kt, vt, m, State()) == D.DecPairs(schema, kt, vt, [], old(State()))
        decreases |unread|
      {
        var k, v;
        k, err := Decode();
        if err == EOF {
          break;
        }
        if err != None {
          return Null, err;
        }
        if k.Null? {
          break;
        }
        v, err := Decode();
        if err == Panic || err == Unmodelled {
          return Null, err;
        }
        if !Fits(k, kt) || !D.Hashable(k) {
          return Null, Panic;
        }
        if v.Null? {
          m := Delete(m, k);
        } else if !Fits(v, vt) {
          return Null, Panic;
        } else {
          m := Put(m, k, v);
        }
      }
      return Map(m), None;
    }

    method DecClassDef() returns (def: ClassDef, err: Error)
      modifies this`unread
      ensures Res(def, err, unread) == D.DecClassDef(old(unread))
    {
      def := ClassDef("", []);
      var clsName;
      clsName, err := ReadString();
      if err != None {
        return;
      }
      var fieldNum;
      fieldNum, err := ReadInt32Value(TAG_READ);
      if err != None {
        return;
      }
      if fieldNum < 0 {
        return def, Panic;
      }
      var fieldList;
      fieldList, err := DecFieldNames(fieldNum);
      if err != None {
        return;
      }
      return ClassDef(clsName, fieldList), None;
    }

    /** The name loop of decClassDef, counting the names still to be read. */
    method DecFieldNames(fieldNum: nat) returns (fieldList: seq<string>, err: Error)
      modifies this`unread
      ensures Res(fieldList, err, unread) == D.DecNames(fieldNum, [], old(unread))
    {
      fieldList, err := [], None;
      var todo := fieldNum;
      ghost var all := D.DecNames(fieldNum, [], unread);
      while todo > 0
        invariant D.DecNames(todo, fieldList, unread) == all && err == None
        decreases todo
      {
        todo := todo - 1;
        fieldList, err := OneFieldName(fieldList, todo, all);
        if err != None {
          return;
        }
      }
    }

    method OneFieldName(read: seq<string>, ghost n: nat, ghost all: Res<seq<string>>) returns (fieldList: seq<string>, err: Error)
      requires D.DecNames(n + 1, read, unread) == all
      modifies this`unread
      ensures all == if err == None then D.DecNames(n, fieldList, unread) else Res(fieldList, err, unread)
    {
      NextName(n + 1, read, unread);
      var fieldName;
      fieldName, err := ReadString();
      fieldList := if err == None then read + [fieldName] else [];
    }

    /** decObject after its tag. */
    method DecObject(tag: byte) returns (val: Value, err: Error)
      modifies this
      ensures D.Ret(val, err, State()) == D.DecObject(schema, tag, old(State()))
      decreases |unread|, 9
    {
      if tag == 0x43 {
        var def;
        def, err := DecClassDef();
        if err != None {
          return Null, err;
        }
        classInfoList := classInfoList + [def];
        val, err := Decode();
      } else if tag == 0x4f {
        var idx;
        idx, err := ReadInt32Value(TAG_READ);
        if err != None {
          return Null, err;
        }
        val, err := DecInstance(idx);
      } else if 0x60 <= tag <= 0x6f {
        val, err := DecInstance(tag - 0x60);
      } else {
        return Null, Fail;
      }
    }

    /** getStructDefByIndex and decInstance. */
    method DecInstance(idx: int) returns (val: Value, err: Error)
      modifies this
      ensures D.Ret(val, err, State()) == D.DecInstance(schema, idx, old(State()))
      decreases |unread|, 8
    {
      if |classInfoList| <= idx || idx < 0 || classInfoList[idx].java !in schema {
        return Null, Fail;
      }
      var cls := classInfoList[idx];
      var typ := schema[cls.java];
      var vals := D.Zeros(typ);
      ghost var whole := D.DecFields(schema, typ, cls.java, cls.names, vals, State());
      for i := 0 to |cls.names|
        invariant |vals| == |typ| && |unread| <= old(|unread|)
        invariant D.DecFields(schema, typ, cls.java, cls.names[i..], vals, State()) == whole
      {
        assert cls.names[i..][1..] == cls.names[i + 1..];
        var index := D.FindField(typ, cls.names[i]);
        if index < |typ| {
          var field;
          field, err := DecField(typ[index].kind, vals[index]);
          if err == Fail && typ[index].kind.SliceKind? {
            return Null, None;
          }
          if err != None {
            return Null, err;
          }
          vals := vals[index := field];
        }
      }
      return Obj(cls.java, vals), None;
    }

    /** One turn of decInstance's loop: the field's new value, given its present one. */
    method DecField(kind: Kind, cur: Value) returns (val: Value, err: Error)
      modifies this
      ensures D.Ret(val, err, State()) == D.DecField(schema, kind, cur, old(State()))
      decreases |unread|, 6
    {
      match kind
      case StringKind =>
        var s;
        s, err := ReadString();
        val := Str(s);
      case Int32Kind =>
        var i;
        i, err := ReadInt32Value(TAG_READ);
        val := Int32(i);
      case Int64Kind =>
        var l;
        l, err := ReadInt64Value(TAG_READ);
        val := Int64(l);
      case BoolKind =>
        val, err := Decode();
        if err != None {
          return cur, Trace(err);
        }
        if !val.Bool? {
          return cur, Panic;
        }
      case MapKind(kt, vt) =>
        val, err := DecMapByValue(kt, vt);
        if err == Panic || err == Unmodelled {
          return cur, err;
        }
        if err != None {
          return cur, None;
        }
      case SliceKind(t) =>
        if unread == [] {
          return cur, Fail;
        }
        var tag := ReadByte();
        val, err := DecList(tag);
        if err != None {
          return cur, err;
        }
        if |val.elems| == 0 {
          return cur, None;
        }
        for j := 0 to |val.elems|
          invariant forall k | 0 <= k < j :: !val.elems[k].Null? && Fits(val.elems[k], t)
        {
          if val.elems[j].Null? || !Fits(val.elems[j], t) {
            assert val.elems[j] in val.elems;
            return cur, Panic;
          }
        }
      case StructKind(java) =>
        if unread == [] {
          return cur, Fail;
        }
        var tag := ReadByte();
        val, err := DecObject(tag);
        if err != None {
          return cur, Trace(err);
        }
        if val.Null? {
          return cur, None;
        }
        if !val.Obj? || val.java != java {
          return cur, Panic;
        }
      case FloatOrTimeKind => return cur, Unmodelled;
      case OtherKind => return cur, Fail;
    }
  }
}

/**
  * The wire forms by the letter of the Hessian 2.0 Serialization Protocol: what the encoder writes for
  * each kind of value (sections 4.1 to 4.12), and what the decoder makes of forms that this encoder
  * never writes.
  */
module HessianWire {
  import opened GoBase
  import opened Unicode
  import opened HessianInt
  import opened HessianString
  import opened HessianBinary
  import opened HessianValue
  import opened HessianDecode
  import opened HessianLeaves
  import opened HessianRoundTrip

  // ----- What the encoder writes -----

  /** Section 4.5: the four forms of an int, and the value each denotes. */
  lemma Int32Wire(v: int32)
    ensures var b := EncInt32(v);
            if -16 <= v <= 47 then |b| == 1 && 0x80 <= b[0] <= 0xbf && b[0] as int - 0x90 == v
            else if -2048 <= v <= 2047 then |b| == 2 && 0xc0 <= b[0] <= 0xcf && (b[0] as int - 0xc8) * 256 + b[1] as int == v
            else if -262144 <= v <= 262143 then
              |b| == 3 && 0xd0 <= b[0] <= 0xd7 && (b[0] as int - 0xd4) * 65536 + b[1] as int * 256 + b[2] as int == v
            else
              && |b| == 5 && b[0] == 0x49
              && b[1] as int * 0x100_0000 + b[2] as int * 0x1_0000 + b[3] as int * 0x100 + b[4] as int
                 == if v >= 0 then v else v + 0x1_0000_0000
  {
    if !(-262144 <= v <= 262143) {
      Word4Bytes(v);
      Unsigned(v);
    } else if !(-2048 <= v <= 2047) {
      HighBytes(v);
    }
  }

  lemma HighBytes(v: int)
    requires -262144 <= v <= 262143
    ensures 0xd0 <= 0xd4 + v / 0x1_0000 <= 0xd7 && Byte(0xd4 + v / 0x1_0000) == 0xd4 + v / 0x1_0000
    ensures v / 0x1_0000 * 0x1_0000 + Word2(v)[0] as int * 256 + Word2(v)[1] as int == v
  {
    NumOfWord2(v);
  }

  /** Section 4.7: the forms of a long that the encoder uses. */
  lemma Int64Wire(v: int64)
    ensures var b := EncInt64(v);
            if -8 <= v <= 15 then |b| == 1 && 0xd8 <= b[0] <= 0xef && b[0] as int - 0xe0 == v
            else if -2048 <= v <= 2047 then |b| == 2 && 0xf0 <= b[0] <= 0xff && (b[0] as int - 0xf8) * 256 + b[1] as int == v
            else if -262144 <= v <= 262143 then
              |b| == 3 && 0x38 <= b[0] <= 0x3f && (b[0] as int - 0x3c) * 65536 + b[1] as int * 256 + b[2] as int == v
            else
              && |b| == 9 && b[0] == 0x4c
              && (b[1] as int * 0x100_0000 + b[2] as int * 0x1_0000 + b[3] as int * 0x100 + b[4] as int) * 0x1_0000_0000
                 + (b[5] as int * 0x100_0000 + b[6] as int * 0x1_0000 + b[7] as int * 0x100 + b[8] as int)
                 == if v >= 0 then v else v + 0x1_0000_0000_0000_0000
  {
    if !(-262144 <= v <= 262143) {
      Word8Bytes(v);
      Unsigned(v);
    } else if !(-2048 <= v <= 2047) {
      HighBytes(v);
    }
  }

  /** Section 3 of RFC 3629: the bytes of a character, and the number they denote. */
  lemma Utf8Wire(c: char)
    ensures var b, n := EncRune(c), c as int;
            if n < 0x80 then b == [n]
            else if n < 0x800 then
              |b| == 2 && 0xc0 <= b[0] <= 0xdf && 0x80 <= b[1] <= 0xbf && (b[0] as int - 0xc0) * 64 + (b[1] as int - 0x80) == n
            else if n < 0x1_0000 then
              && |b| == 3 && 0xe0 <= b[0] <= 0xef && 0x80 <= b[1] <= 0xbf && 0x80 <= b[2] <= 0xbf
              && (b[0] as int - 0xe0) * 4096 + (b[1] as int - 0x80) * 64 + (b[2] as int - 0x80) == n
            else
              && |b| == 4 && 0xf0 <= b[0] <= 0xf7 && 0x80 <= b[1] <= 0xbf && 0x80 <= b[2] <= 0xbf && 0x80 <= b[3] <= 0xbf
              && (b[0] as int - 0xf0) * 262144 + (b[1] as int - 0x80) * 4096 + (b[2] as int - 0x80) * 64 + (b[3] as int - 0x80) == n
  {
    Sextets(c as int);
  }

  /** Section 4.12: a string of up to 31, 1023 and 4096 characters, and a longer one. */
  lemma StringWire(rs: string)
    ensures var b, n := EncString(rs), |rs|;
            if n <= 31 then b == [n] + Utf8(rs)
            else if n <= 1023 then 0x30 <= b[0] <= 0x33 && |b| >= 2 && (b[0] as int - 0x30) * 256 + b[1] as int == n && b[2..] == Utf8(rs)
            else if n <= 4096 then |b| >= 3 && b[0] == 0x53 && b[1] as int * 256 + b[2] as int == n && b[3..] == Utf8(rs)
            else |b| >= 3 && b[..3] == [0x52, 0x10, 0x00] && b[3..] == Utf8(rs[..4096]) + EncString(rs[4096..])
  {
    var n := |rs|;
    if n > 4096 {
      assert Word2(4096) == [0x10, 0x00];
      Split(StringHeader(4096, false), Utf8(rs[..4096]) + EncString(rs[4096..]));
    } else {
      Split(StringHeader(n, true), Utf8(rs));
      NumOfWord2(n);
    }
  }

  /** Section 4.1: binary data of 0, up to 15, 1023 and 4096 bytes, and more. */
  lemma BinaryWire(v: bytes)
    ensures var b, n := EncBinary(v), |v|;
            if n == 0 then b == [0x4e]
            else if n <= 15 then b == [0x20 + n] + v
            else if n <= 1023 then 0x34 <= b[0] <= 0x37 && |b| >= 2 && (b[0] as int - 0x34) * 256 + b[1] as int == n && b[2..] == v
            else if n <= 4096 then |b| >= 3 && b[0] == 0x42 && b[1] as int * 256 + b[2] as int == n && b[3..] == v
            else |b| >= 3 && b[..3] == [0x41, 0x10, 0x00] && b[3..] == v[..4096] + EncBinary(v[4096..])
  {
    var n := |v|;
    if n > 4096 {
      assert Word2(4096) == [0x10, 0x00];
      Split(BinaryHeader(4096, false), v[..4096] + Chunked(v[4096..]));
    } else if n > 0 {
      Split(BinaryHeader(n, true), v);
      NumOfWord2(n);
    }
  }

  /** Sections 4.2, 4.6, 4.8 and 4.9: booleans, lists, maps and null. */
  lemma ValueWire(g: Schema, b: bool, elems: seq<Value>, es: seq<Entry>, tbl: seq<ClassDef>)
    requires |elems| < 0x8000_0000
    ensures Enc(g, Null, tbl).b == [0x4e] && Enc(g, Bool(b), tbl).b == [if b then 0x54 else 0x46]
    ensures Enc(g, List(elems), tbl).b == [0x58] + (EncInt32(|elems|) + EncSeq(g, elems, tbl).b)
    ensures es != [] ==> Enc(g, Map(es), tbl).b == [0x48] + (EncEntries(g, es, tbl).b + [0x5a])
  {
  }

  /** Section 4.10: an object of a class that was defined, and of a new one with its definition. */
  lemma ObjWire(g: Schema, java: string, fields: seq<Value>, tbl: seq<ClassDef>)
    requires java in g && |g[java]| < 0x8000_0000
    ensures var i, o := Index(tbl, java), Enc(g, Obj(java, fields), tbl);
            if i < |tbl| then o.b == ObjectHeader(i) + EncSeq(g, fields, tbl).b
            else o.b == [0x43] + (EncClassBody(DefOf(g, java)) + (ObjectHeader(i) + EncSeq(g, fields, tbl + [DefOf(g, java)]).b))
    ensures Index(tbl, java) <= |tbl| && (Index(tbl, java) == |tbl| <==> forall k | 0 <= k < |tbl| :: tbl[k].java != java)
  {
  }

  lemma DefinitionWire(g: Schema, java: string)
    requires java in g && |g[java]| < 0x8000_0000
    ensures DefOf(g, java) == ClassDef(java, Lowers(g[java]))
    ensures EncClassBody(DefOf(g, java)) == EncString(java) + (EncInt32(|g[java]|) + EncNames(Lowers(g[java])))
  {
  }

  /** Section 4.10: the direct form for the first sixteen classes, else the tag and the index. */
  lemma ObjectWire(i: nat)
    requires i < 0x100
    ensures ObjectHeader(i) == if i <= 15 then [0x60 + i] else [0x4f] + EncInt32(i)
  {
  }

  /** Elements, entries and names are written one after the other, an entry's key before its value. */
  lemma PartsWire(g: Schema, v: Value, vs: seq<Value>, e: Entry, es: seq<Entry>, name: string, names: seq<string>, tbl: seq<ClassDef>)
    ensures EncSeq(g, [v] + vs, tbl).b == Enc(g, v, tbl).b + EncSeq(g, vs, Enc(g, v, tbl).tbl).b
    ensures EncEntries(g, [e] + es, tbl).b == EncEntry(g, e, tbl).b + EncEntries(g, es, EncEntry(g, e, tbl).tbl).b
    ensures EncEntry(g, e, tbl).b == Enc(g, e.key, tbl).b + Enc(g, e.val, Enc(g, e.key, tbl).tbl).b
    ensures EncNames([name] + names) == EncString(name) + EncNames(names)
    ensures EncSeq(g, [], tbl).b == [] && EncEntries(g, [], tbl).b == [] && EncNames([]) == []
  {
    assert ([v] + vs)[1..] == vs && ([e] + es)[1..] == es && ([name] + names)[1..] == names;
  }

  // ----- Lists in other forms -----

  /** Section 4.6: a short list of up to seven elements, its length in its tag. */
  lemma ShortList(g: Schema, vs: seq<Value>, tbl: seq<ClassDef>, rest: bytes)
    requires |vs| <= 7 && (forall i | 0 <= i < |vs| :: Encodable(g, vs[i]))
    requires TableOK(g, tbl) && |EncSeq(g, vs, tbl).tbl| <= 0x100
    ensures var o := EncSeq(g, vs, tbl);
            Decode(g, St([0x78 + |vs|] + (o.b + rest), tbl)) == Ret(List(Images(vs)), None, St(rest, o.tbl))
  {
    var o := EncSeq(g, vs, tbl);
    var s := [0x78 + |vs|] + (o.b + rest);
    assert s[1..] == o.b + rest;
    Dispatch(g, s, tbl);
    ElemsOf(g, vs, false, tbl, rest);
  }

  /** A variable-length list: a count, its elements, and one more byte at its end, whatever it is. */
  lemma VariableList(g: Schema, vs: seq<Value>, end: byte, tbl: seq<ClassDef>, rest: bytes)
    requires |vs| < 0x8000_0000 && (forall i | 0 <= i < |vs| :: Encodable(g, vs[i]))
    requires TableOK(g, tbl) && |EncSeq(g, vs, tbl).tbl| <= 0x100
    ensures var o := EncSeq(g, vs, tbl);
            Decode(g, St([0x57] + (EncInt32(|vs|) + (o.b + ([end] + rest))), tbl)) == Ret(List(Images(vs)), None, St(rest, o.tbl))
  {
    var o := EncSeq(g, vs, tbl);
    var s := [0x57] + (EncInt32(|vs|) + (o.b + ([end] + rest)));
    assert s[1..] == EncInt32(|vs|) + (o.b + ([end] + rest));
    Dispatch(g, s, tbl);
    ReadCount(|vs|, o.b + ([end] + rest));
    ElemsOf(g, vs, true, tbl, [end] + rest);
    assert ([end] + rest)[1..] == rest;
  }

  lemma ElemsOf(g: Schema, vs: seq<Value>, variable: bool, tbl: seq<ClassDef>, rest: bytes)
    requires (forall i | 0 <= i < |vs| :: Encodable(g, vs[i])) && TableOK(g, tbl) && |EncSeq(g, vs, tbl).tbl| <= 0x100
    ensures var o := EncSeq(g, vs, tbl);
            DecElems(g, |vs|, [], variable, St(o.b + rest, tbl))
            == Ret(List(Images(vs)), None, St(if variable then Tail(rest) else rest, o.tbl))
  {
    ElemsFrom(g, vs, [], variable, tbl, rest);
    Ends(Images(vs));
  }

  lemma {:induction false} ElemsFrom(g: Schema, vs: seq<Value>, acc: seq<Value>, variable: bool, tbl: seq<ClassDef>, rest: bytes)
    requires (forall i | 0 <= i < |vs| :: Encodable(g, vs[i])) && TableOK(g, tbl) && |EncSeq(g, vs, tbl).tbl| <= 0x100
    ensures var o := EncSeq(g, vs, tbl);
            DecElems(g, |vs|, acc, variable, St(o.b + rest, tbl))
            == Ret(List(acc + Images(vs)), None, St(if variable then Tail(rest) else rest, o.tbl))
    decreases |vs|
  {
    if vs == [] {
      Ends(rest);
      Ends(acc);
    } else {
      var first := Enc(g, vs[0], tbl);
      var others := EncSeq(g, vs[1..], first.tbl);
      Concat(first.b, others.b, rest);
      RoundTrip(g, vs[0], tbl, others.b + rest);
      ElemsFrom(g, vs[1..], acc + [Image(vs[0])], variable, first.tbl, rest);
      Shift(acc, Images(vs));
    }
  }

  // ----- Null and other values in fields of another type -----

  /** What null gives in a struct's field of each kind. In a slice or struct field it is an error; in a
      map field it is passed over. */
  lemma NullInFields(g: Schema, cur: Value, kt: Elem, vt: Elem, java: string, rest: bytes, cls: seq<ClassDef>)
    ensures var st, after := St([0x4e] + rest, cls), St(rest, cls);
            && DecField(g, StringKind, cur, st) == Ret(Str("null"), None, after)
            && DecField(g, Int64Kind, cur, st) == Ret(Int64(0), None, after)
            && DecField(g, Int32Kind, cur, st).err == Fail
            && DecField(g, BoolKind, cur, st).err == Panic
            && DecField(g, MapKind(kt, vt), cur, st) == Ret(cur, None, after)
            && DecField(g, SliceKind(vt), cur, st) == Ret(cur, Fail, after)
            && DecField(g, StructKind(java), cur, st) == Ret(cur, Fail, after)
  {
    NullScalars(rest);
    NullInScalarFields(g, cur, rest, cls);
    NullInContainers(g, cur, kt, vt, java, rest, cls);
  }

  lemma NullScalars(rest: bytes)
    ensures ReadString([0x4e] + rest) == Res("null", None, rest)
    ensures ReadInt64([0x4e] + rest) == Res(0, None, rest) && ReadInt32([0x4e] + rest).err == Fail
  {
    assert ([0x4e] + rest)[1..] == rest;
  }

  lemma NullInScalarFields(g: Schema, cur: Value, rest: bytes, cls: seq<ClassDef>)
    ensures var st, after := St([0x4e] + rest, cls), St(rest, cls);
            && DecField(g, StringKind, cur, st) == Ret(Str("null"), None, after)
            && DecField(g, Int64Kind, cur, st) == Ret(Int64(0), None, after)
            && DecField(g, Int32Kind, cur, st).err == Fail
            && DecField(g, BoolKind, cur, st).err == Panic
  {
    NullScalars(rest);
    assert Decode(g, St([0x4e] + rest, cls)) == Ret(Null, None, St(rest, cls)) by {
      assert ([0x4e] + rest)[1..] == rest;
    }
  }

  lemma NullInContainers(g: Schema, cur: Value, kt: Elem, vt: Elem, java: string, rest: bytes, cls: seq<ClassDef>)
    ensures var st, after := St([0x4e] + rest, cls), St(rest, cls);
            && DecField(g, MapKind(kt, vt), cur, st) == Ret(cur, None, after)
            && DecField(g, SliceKind(vt), cur, st) == Ret(cur, Fail, after)
            && DecField(g, StructKind(java), cur, st) == Ret(cur, Fail, after)
  {
    var st, after := St([0x4e] + rest, cls), St(rest, cls);
    assert st.s[1..] == rest;
    assert DecMapByValue(g, kt, vt, st) == Ret(Null, Fail, after);
    assert DecList(g, 0x4e, after) == Ret(Null, Fail, after);
    assert DecObject(g, 0x4e, after) == Ret(Null, Fail, after);
  }

  /** A field whose reader fails ends the instance with its error; but for a failing slice it is the
      wrong error that is looked at, and the instance comes back as nil without one. */
  lemma FailedField(g: Schema, typ: seq<Field>, java: string, names: seq<string>, vals: seq<Value>, st: St, j: nat)
    requires names != [] && j < |vals| == |typ| && FindField(typ, names[0]) == j
    requires DecField(g, typ[j].kind, vals[j], st).err != None
    ensures var d, r := DecField(g, typ[j].kind, vals[j], st), DecFields(g, typ, java, names, vals, st);
            r == Ret(Null, if typ[j].kind.SliceKind? && d.err == Fail then None else d.err, d.st)
  {
  }

  /** Booleans in string and integer fields. */
  lemma BoolInFields(b: bool, rest: bytes)
    ensures ReadString([if b then 0x54 else 0x46] + rest) == Res(if b then "true" else "false", None, rest)
    ensures ReadInt64([if b then 0x54 else 0x46] + rest) == Res(if b then 1 else 0, None, rest)
    ensures ReadInt32([if b then 0x54 else 0x46] + rest).err == Fail
  {
    assert ([if b then 0x54 else 0x46] + rest)[1..] == rest;
  }

  /** Doubles of the short forms in an int64 field. */
  lemma DoublesInFields(a: byte, b: byte, rest: bytes)
    ensures ReadInt64([0x5b] + rest) == Res(0, None, rest) && ReadInt64([0x5c] + rest) == Res(1, None, rest)
    ensures ReadInt64([0x5d, a] + rest) == Res(a, None, rest)
    ensures ReadInt64([0x5e, a, b] + rest) == Res(a as int * 256 + b as int, None, rest)
  {
    assert ([0x5b] + rest)[1..] == rest && ([0x5c] + rest)[1..] == rest;
    assert ([0x5d, a] + rest)[1..] == [a] + rest && ([a] + rest)[1..] == rest;
    assert ([0x5e, a, b] + rest)[1..] == [a, b] + rest && ([a, b] + rest)[..2] == [a, b] && ([a, b] + rest)[2..] == rest;
  }

  /** In a string field they are printed. */
  lemma DoublesInStrings(rest: bytes)
    ensures ReadString([0x5b] + rest) == Res("0.0", None, rest) && ReadString([0x5c] + rest) == Res("1.0", None, rest)
  {
    assert ([0x5b] + rest)[1..] == rest && ([0x5c] + rest)[1..] == rest;
  }

  /** Three tags of an int64 field are followed by a whole compact or four-byte int of its own. */
  lemma TaggedInts(tag: byte, i: int32, rest: bytes)
    requires tag in {0x49, 0x59, 0x5f}
    ensures ReadInt64([tag] + (EncInt32(i) + rest)) == Res(Shifted32(i), None, rest)
  {
    var s := EncInt32(i) + rest;
    assert ([tag] + s)[1..] == s;
    Split(EncInt32(i), rest);
    RoundTrip32By(false, i, rest);
  }

  /** A long in a string field is printed in decimal, as it is read, and an int32 field refuses it. */
  lemma Int64InFields(l: int64, rest: bytes)
    ensures ReadString(EncInt64(l) + rest).err == None && ReadString(EncInt64(l) + rest).rest == rest
    ensures Atoi(ReadString(EncInt64(l) + rest).val) == Shifted64(l)
    ensures ReadInt32(EncInt64(l) + rest).err == Fail
  {
    Split(EncInt64(l), rest);
    RoundTrip64By(false, l, rest);
    AtoiOfItoa(Shifted64(l));
  }

  /** In a map field a typed map is read as an untyped one, once its type's name has been passed over. */
  lemma TypedMapField(g: Schema, kt: Elem, vt: Elem, name: string, rest: bytes, cls: seq<ClassDef>)
    ensures DecMapByValue(g, kt, vt, St([0x4d] + (EncString(name) + rest), cls)) == DecMapByValue(g, kt, vt, St([0x48] + rest, cls))
  {
    assert ([0x4d] + (EncString(name) + rest))[1..] == EncString(name) + rest && ([0x48] + rest)[1..] == rest;
    StringRoundTrip(name, rest);
  }

  // ----- Errors -----

  /** Tags that begin no value. */
  lemma IllegalTags(g: Schema, tag: byte, rest: bytes, cls: seq<ClassDef>)
    requires tag in {0x40, 0x45, 0x47, 0x50}
    ensures Decode(g, St([tag] + rest, cls)).err == Fail
  {
    assert ([tag] + rest)[1..] == rest;
  }

  /** An object of a class that was not defined, or of one that has no registered type. */
  lemma NoSuchClass(g: Schema, i: nat, rest: bytes, cls: seq<ClassDef>)
    requires i <= 15 && (i >= |cls| || cls[i].java !in g)
    ensures Decode(g, St([0x60 + i] + rest, cls)).err == Fail
  {
    assert ([0x60 + i] + rest)[1..] == rest;
    Dispatch(g, [0x60 + i] + rest, cls);
  }

  /** A chunk of more than 4096 bytes: no data, and no error either. */
  lemma LongChunk(tag: byte, n: nat, rest: bytes)
    requires tag in {0x41, 0x42} && 4096 < n <= 65535
    ensures DecBinary(tag, [n / 256, n % 256] + rest) == Res([], None, rest)
  {
    var s: bytes := [n / 256, n % 256];
    assert (s + rest)[..2] == s && (s + rest)[2..] == rest;
  }

  /** A map that is not ended, a list with too few elements, nothing at all. */
  lemma EndOfInput(g: Schema, n: nat, cls: seq<ClassDef>)
    requires 1 <= n <= 7
    ensures Decode(g, St([], cls)).err == EOF
    ensures Decode(g, St([0x48], cls)).err == Panic
    ensures Decode(g, St([0x78 + n], cls)).err == Fail
  {
    Dispatch(g, [0x48], cls);
    Dispatch(g, [0x78 + n], cls);
  }
}

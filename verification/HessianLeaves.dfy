/**
  * The parts of encoded values: tags, scalars, class definitions and object headers, and what the
  * decoder does on meeting each.
  */
module HessianLeaves {
  import opened GoBase
  import opened HessianInt
  import opened HessianString
  import opened HessianBinary
  import opened HessianValue
  import opened HessianDecode

  /** The codec inverts itself on `v`, up to its image. */
  predicate Inverts(g: Schema, v: Value, tbl: seq<ClassDef>, rest: bytes) {
    var o := Enc(g, v, tbl);
    Decode(g, St(o.b + rest, tbl)) == Ret(Image(v), None, St(rest, o.tbl))
  }

  // ----- Tags -----

  /** Every encoding is non-empty and none starts with the map terminator 'Z'. */
  lemma FirstByte(g: Schema, v: Value, tbl: seq<ClassDef>)
    requires Encodable(g, v)
    ensures Enc(g, v, tbl).b != [] && Enc(g, v, tbl).b[0] != 0x5a
  {
    match v
    case Int32(i) => RoundTrip32By(false, i, []);
    case Int64(l) => RoundTrip64By(false, l, []);
    case Str(s) => StringRoundTrip(s, []);
    case Bin(data) => BinaryRoundTrip(data, []);
    case Obj(java, fields) => HeaderTag(Index(tbl, java));
    case _ =>
  }

  lemma HeaderTag(i: nat)
    ensures IsObjectTag(ObjectHeader(i)[0]) && ObjectHeader(i)[0] != 0x43
  {
  }

  /** A tagged encoding of two parts, followed by anything: the tag, and what remains after it. */
  lemma Tagged(tag: byte, a: bytes, b: bytes, rest: bytes)
    ensures var s := [tag] + (a + b) + rest;
            s != [] && s[0] == tag && s[1..] == a + (b + rest)
  {
  }

  lemma ReadCount(n: int32, rest: bytes)
    requires 0 <= n
    ensures ReadInt32(EncInt32(n) + rest) == Res(n, None, rest)
  {
    Int32Exact(n, rest);
  }

  // ----- Leaves -----

  /** Decode dispatches on the tag: each form goes to its own decoder. */
  lemma DispatchLeaf(g: Schema, s: bytes, cls: seq<ClassDef>)
    requires s != []
    ensures var tag, t := s[0], s[1..];
            var d := Decode(g, St(s, cls));
            && (IsInt32Tag(tag) ==> var r := DecInt32(tag, t); d == Ret(Int32(r.val), r.err, St(r.rest, cls)))
            && (IsInt64Tag(tag) ==> var r := DecInt64(tag, t); d == Ret(Int64(r.val), r.err, St(r.rest, cls)))
            && (IsStringTag(tag) ==> var r := DecString(tag, t); d == Ret(Str(r.val), r.err, St(r.rest, cls)))
            && (IsBinaryTag(tag) ==> var r := DecBinary(tag, t); d == Ret(Bin(r.val), r.err, St(r.rest, cls)))
  {
  }

  lemma Dispatch(g: Schema, s: bytes, cls: seq<ClassDef>)
    requires s != []
    ensures var tag, t := s[0], St(s[1..], cls);
            var d := Decode(g, St(s, cls));
            && (IsObjectTag(tag) ==> d == DecObject(g, tag, t))
            && (IsUntypedListTag(tag) ==> d == DecList(g, tag, t))
            && (tag == 0x48 ==> d == DecMap(g, [], t))
  {
  }

  lemma Int32Inverts(g: Schema, i: int32, tbl: seq<ClassDef>, rest: bytes)
    ensures Inverts(g, Int32(i), tbl, rest)
  {
    Split(EncInt32(i), rest);
    RoundTrip32By(false, i, rest);
    DispatchLeaf(g, EncInt32(i) + rest, tbl);
  }

  lemma Int64Inverts(g: Schema, l: int64, tbl: seq<ClassDef>, rest: bytes)
    ensures Inverts(g, Int64(l), tbl, rest)
  {
    Split(EncInt64(l), rest);
    RoundTrip64By(false, l, rest);
    DispatchLeaf(g, EncInt64(l) + rest, tbl);
  }

  lemma StringInverts(g: Schema, s: string, tbl: seq<ClassDef>, rest: bytes)
    ensures Inverts(g, Str(s), tbl, rest)
  {
    Split(EncString(s), rest);
    StringRoundTrip(s, rest);
    DispatchLeaf(g, EncString(s) + rest, tbl);
  }

  lemma BinaryInverts(g: Schema, data: bytes, tbl: seq<ClassDef>, rest: bytes)
    ensures Inverts(g, Bin(data), tbl, rest)
  {
    var b := EncBinary(data);
    Split(b, rest);
    if data != [] {
      BinaryAhead(data, rest);
      DispatchLeaf(g, b + rest, tbl);
    }
  }

  lemma BinaryAhead(data: bytes, rest: bytes)
    requires data != []
    ensures var s := EncBinary(data) + rest;
            s != [] && IsBinaryTag(s[0]) && DecBinary(s[0], s[1..]) == Res(data, None, rest)
  {
    BinaryRoundTrip(data, rest);
    Split(EncBinary(data), rest);
  }

  lemma LeafInverts(g: Schema, v: Value, tbl: seq<ClassDef>, rest: bytes)
    requires !v.List? && !v.Map? && !v.Obj? && !v.ZeroStruct?
    ensures Inverts(g, v, tbl, rest)
  {
    match v
    case Null => Split([0x4e], rest);
    case Bool(b) => Split([if b then 0x54 else 0x46], rest);
    case Int32(i) => Int32Inverts(g, i, tbl, rest);
    case Int64(l) => Int64Inverts(g, l, tbl, rest);
    case Str(s) => StringInverts(g, s, tbl, rest);
    case Bin(data) => BinaryInverts(g, data, tbl, rest);
  }

  // ----- Class definitions and object headers -----

  /** decClassDef's loop reads one more field name. */
  lemma OneName(names: seq<string>, acc: seq<string>, rest: bytes)
    requires names != []
    ensures DecNames(|names|, acc, EncNames(names) + rest)
         == DecNames(|names| - 1, acc + [names[0]], EncNames(names[1..]) + rest)
  {
    Concat(EncString(names[0]), EncNames(names[1..]), rest);
    StringRoundTrip(names[0], EncNames(names[1..]) + rest);
  }

  lemma {:induction false} NamesRoundTrip(names: seq<string>, acc: seq<string>, rest: bytes)
    ensures DecNames(|names|, acc, EncNames(names) + rest) == Res(acc + names, None, rest)
    decreases |names|
  {
    if names == [] {
      Ends(rest);
      Ends(acc);
    } else {
      assert DecNames(|names| - 1, acc + [names[0]], EncNames(names[1..]) + rest) == Res(acc + names, None, rest) by {
        NamesRoundTrip(names[1..], acc + [names[0]], rest);
        Shift(acc, names);
      }
      OneName(names, acc, rest);
    }
  }

  /** decClassDef is its three reads in a row. */
  lemma ClassDefParts(def: ClassDef, a: bytes, n: bytes, names: bytes, rest: bytes)
    requires |def.names| < 0x8000_0000
    requires ReadString(a + (n + names + rest)) == Res(def.java, None, n + names + rest)
    requires ReadInt32(n + (names + rest)) == Res(|def.names|, None, names + rest)
    requires DecNames(|def.names|, [], names + rest) == Res(def.names, None, rest)
    ensures DecClassDef(a + (n + names) + rest) == Res(def, None, rest)
  {
    Concat(a, n + names, rest);
    Concat(n, names, rest);
  }

  /** decClassDef reads an encoded class definition back exactly. */
  lemma ClassDefRoundTrip(def: ClassDef, rest: bytes)
    requires |def.names| < 0x8000_0000
    ensures DecClassDef(EncClassBody(def) + rest) == Res(def, None, rest)
  {
    var a, n, names := EncString(def.java), EncInt32(|def.names|), EncNames(def.names);
    StringRoundTrip(def.java, n + names + rest);
    ReadCount(|def.names|, names + rest);
    NamesRoundTrip(def.names, [], rest);
    Ends(def.names);
    ClassDefParts(def, a, n, names, rest);
  }

  /** The class index that an object header decodes to. */
  function HeaderIndex(h: bytes): int
    requires h != []
  {
    if h[0] == 0x4f then ReadInt32(h[1..]).val else h[0] as int - 0x60
  }

  /** An object header names its own class exactly when the index's low byte is not mistaken for a
      direct index: for the first 256 classes, and from there on outside the first sixteen of each
      further 256. */
  lemma HeaderExact(idx: nat)
    requires idx < 0x8000_0000
    ensures HeaderIndex(ObjectHeader(idx)) == idx <==> idx < 0x100 || idx % 0x100 > 0x0f
  {
    if Byte(idx) > 0x0f {
      assert ObjectHeader(idx)[1..] == EncInt32(idx) + [];
      ReadCount(idx, []);
    }
  }

  /** An object header of one of the first 256 classes leads to an instance of that class. */
  lemma HeaderInverts(g: Schema, i: nat, st: St)
    requires i < 0x100
    ensures var s := ObjectHeader(i) + st.s;
            && IsObjectTag(s[0]) && s[0] != 0x43
            && DecObject(g, s[0], St(s[1..], st.cls)) == DecInstance(g, i, st)
  {
    Split(ObjectHeader(i), st.s);
    if i <= 0x0f {
      assert ObjectHeader(i)[1..] + st.s == st.s;
    } else {
      assert ObjectHeader(i)[1..] == EncInt32(i);
      ReadCount(i, st.s);
    }
  }

  // ----- Containers and objects -----

  lemma CountedList(g: Schema, n: int32, count: bytes, b: bytes, rest: bytes, cls: seq<ClassDef>)
    requires 0 <= n && ReadInt32(count + (b + rest)) == Res(n, None, b + rest)
    ensures Decode(g, St([0x58] + (count + b) + rest, cls)) == DecElems(g, n, [], false, St(b + rest, cls))
  {
    Tagged(0x58, count, b, rest);
    Dispatch(g, [0x58] + (count + b) + rest, cls);
  }

  lemma TaggedMap(g: Schema, b: bytes, rest: bytes, cls: seq<ClassDef>)
    ensures var s := [0x48] + (b + [0x5a]) + rest;
            var body := St(b + ([0x5a] + rest), cls);
            && Decode(g, St(s, cls)) == DecMap(g, [], body)
            && forall kt, vt :: DecMapByValue(g, kt, vt, St(s, cls)) == DecPairs(g, kt, vt, [], body)
  {
    Tagged(0x48, b, [0x5a], rest);
    Dispatch(g, [0x48] + (b + [0x5a]) + rest, cls);
  }

  /** An object met for the first time: its definition goes ahead of it and both tables grow. */
  lemma Defined(g: Schema, def: ClassDef, body: bytes, tbl: seq<ClassDef>, rest: bytes)
    requires |def.names| < 0x8000_0000
    ensures Decode(g, St([0x43] + (EncClassBody(def) + body) + rest, tbl)) == Decode(g, St(body + rest, tbl + [def]))
  {
    Tagged(0x43, EncClassBody(def), body, rest);
    Dispatch(g, [0x43] + (EncClassBody(def) + body) + rest, tbl);
    ClassDefRoundTrip(def, body + rest);
  }

  /** A wire name finds the field it came from exactly when no earlier field answers to it. */
  lemma FindFieldExact(typ: seq<Field>)
    ensures (forall j | 0 <= j < |typ| :: FindField(typ, typ[j].lower) == j) <==> FieldNamesDistinct(typ)
  {
    if FieldNamesDistinct(typ) {
      forall j | 0 <= j < |typ| ensures FindField(typ, typ[j].lower) == j {
        var i := FindField(typ, typ[j].lower);
      }
    } else {
      var i, j :| 0 <= i < j < |typ| && (typ[i].name == typ[j].lower || typ[i].lower == typ[j].lower);
      assert FindField(typ, typ[j].lower) <= i;
    }
  }

  lemma ObjTag(g: Schema, v: Value, tbl: seq<ClassDef>)
    requires v.Obj?
    ensures Enc(g, v, tbl).b != [] && IsObjectTag(Enc(g, v, tbl).b[0])
  {
    HeaderTag(Index(tbl, v.java));
  }

  /** A struct field reads what Decode reads. */
  lemma StructAhead(g: Schema, h: Schema, v: Value, tbl: seq<ClassDef>, rest: bytes)
    requires v.Obj?
    ensures var s := Enc(h, v, tbl).b + rest;
            s != [] && Decode(g, St(s, tbl)) == DecObject(g, s[0], St(s[1..], tbl))
  {
    var b := Enc(h, v, tbl).b;
    ObjTag(h, v, tbl);
    Split(b, rest);
    assert b + rest != [] && IsObjectTag((b + rest)[0]);
    Dispatch(g, b + rest, tbl);
  }

  /** It holds the struct read, unless that is nil. */
  lemma StructTakes(g: Schema, java: string, st: St)
    requires st.s != []
    ensures var r, d := DecObject(g, st.s[0], St(st.s[1..], st.cls)), DecField(g, StructKind(java), ZeroStruct, st);
            d == if r.err != None then Ret(ZeroStruct, Trace(r.err), r.st)
            else if r.val.Null? then Ret(ZeroStruct, None, r.st)
            else if !r.val.Obj? || r.val.java != java then Ret(ZeroStruct, Panic, r.st)
            else r
  {
  }

  /** A slice field takes a list of elements of its type, none of them nil. */
  lemma SliceGiven(g: Schema, t: Elem, vs: seq<Value>, st: St)
    requires st.s != [] && forall v | v in vs :: !v.Null? && Fits(v, t)
    requires var r := DecList(g, st.s[0], St(st.s[1..], st.cls)); r.err == None && r.val == List(vs)
    ensures DecField(g, SliceKind(t), List([]), st) == Ret(List(vs), None, DecList(g, st.s[0], St(st.s[1..], st.cls)).st)
  {
  }

  // ----- Maps -----

  /** One turn of decMap's loop, from what its two Decode calls return. */
  lemma OneEntry(g: Schema, m: seq<Entry>, st: St, w: Entry)
    requires st.s != [] && st.s[0] != 0x5a && Hashable(w.key)
    requires Decode(g, st).err == None && Decode(g, st).val == w.key
    requires var k := Decode(g, st); Decode(g, k.st).err == None && Decode(g, k.st).val == w.val
    ensures DecMap(g, m, st) == DecMap(g, Put(m, w.key, w.val), Decode(g, Decode(g, st).st).st)
  {
  }

  // ----- Map fields -----

  lemma SolidImage(v: Value, t: Elem)
    requires Solid(v)
    ensures !Image(v).Null? && (Fits(v, t) ==> Fits(Image(v), t))
  {
  }

  /** `SetMapIndex`: a null value deletes the key. */
  function Store(m: seq<Entry>, e: Entry): seq<Entry> {
    if e.val.Null? then Delete(m, e.key) else Put(m, e.key, e.val)
  }

  function StoreAll(m: seq<Entry>, es: seq<Entry>): seq<Entry>
    decreases |es|
  {
    if es == [] then m else StoreAll(Store(m, ImageOfEntry(es[0])), es[1..])
  }

  lemma StoreAllSolid(m: seq<Entry>, es: seq<Entry>)
    requires forall i | 0 <= i < |es| :: Solid(es[i].val)
    ensures StoreAll(m, es) == PutAll(m, es)
    decreases |es|
  {
    if es != [] {
      SolidImage(es[0].val, AnyElem);
      StoreAllSolid(Store(m, ImageOfEntry(es[0])), es[1..]);
    }
  }

  /** What a typed map's loop can take: a value of the element type, or one that goes out as null. */
  predicate PairOK(g: Schema, kt: Elem, vt: Elem, e: Entry) {
    Scalar(e.key) && Encodable(g, e.val) && !e.key.Null? && Fits(e.key, kt) && (Solid(e.val) ==> Fits(e.val, vt))
  }

  /** Decode reads the terminator as nil, which ends the loop. */
  lemma PairsEnd(g: Schema, kt: Elem, vt: Elem, m: seq<Entry>, rest: bytes, cls: seq<ClassDef>)
    ensures DecPairs(g, kt, vt, m, St([0x5a] + rest, cls)) == Ret(Map(m), None, St(rest, cls))
  {
    Split([0x5a], rest);
  }

  /** One turn of decMapByValue's loop, from what its two Decode calls return. */
  lemma OnePair(g: Schema, kt: Elem, vt: Elem, m: seq<Entry>, st: St, w: Entry)
    requires !w.key.Null? && Fits(w.key, kt) && Hashable(w.key) && (w.val.Null? || Fits(w.val, vt))
    requires Decode(g, st).err == None && Decode(g, st).val == w.key
    requires var k := Decode(g, st); Decode(g, k.st).err == None && Decode(g, k.st).val == w.val
    ensures DecPairs(g, kt, vt, m, st) == DecPairs(g, kt, vt, Store(m, w), Decode(g, Decode(g, st).st).st)
  {
  }
}

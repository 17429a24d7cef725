/**
  * What Go's types alone demand of a value that is encoded, and a decoder that stays in step: the
  * encoding of a value whose structs are encodable is read token by token, struct by struct, and no
  * map read from it is empty.
  */
module HessianInStep {
  import opened GoBase
  import opened HessianInt
  import opened HessianString
  import opened HessianBinary
  import opened HessianValue
  import opened HessianDecode
  import opened HessianLeaves
  import opened HessianRoundTrip

  predicate Typed(g: Schema, v: Value)
    decreases v, 0
  {
    match v
    case List(elems) =>
      |elems| < 0x8000_0000 && forall i | 0 <= i < |elems| :: Typed(g, elems[i])
    case Map(entries) =>
      && (forall i, j | 0 <= i < j < |entries| :: entries[i].key != entries[j].key)
      && forall i | 0 <= i < |entries| :: Scalar(entries[i].key) && Typed(g, entries[i].val)
    case Obj(java, fields) =>
      && java in g
      && |fields| == |g[java]| < 0x8000_0000
      && FieldNamesDistinct(g[java])
      && forall i | 0 <= i < |fields| :: TypedField(g, g[java][i].kind, fields[i])
    case ZeroStruct => false
    case _ => true
  }

  /** A struct field: what does not go out as null has the static type. An empty map in a map field is
      treated apart, by EmptyMapField. */
  predicate TypedField(g: Schema, kind: Kind, v: Value)
    decreases v, 1
  {
    && Typed(g, v)
    && match kind
       case StringKind => v.Str?
       case Int32Kind => v.Int32?
       case Int64Kind => v.Int64?
       case BoolKind => v.Bool?
       case MapKind(kt, vt) =>
         && v.Map? && v.entries != [] && KeysReadable(kt, vt)
         && forall i | 0 <= i < |v.entries| :: FitsEntry(kt, vt, v.entries[i])
       case SliceKind(t) =>
         v.List? && forall i | 0 <= i < |v.elems| :: Solid(v.elems[i]) ==> Fits(v.elems[i], t)
       case StructKind(java) => v.Obj? && v.java == java
       case FloatOrTimeKind => false
       case OtherKind => false
  }

  predicate FitsEntry(kt: Elem, vt: Elem, e: Entry) {
    (!e.key.Null? ==> Fits(e.key, kt)) && (Solid(e.val) ==> Fits(e.val, vt))
  }

  /** Every struct inside is encodable. */
  predicate ObjsEncodable(g: Schema, v: Value) {
    match v
    case List(elems) => forall i | 0 <= i < |elems| :: ObjsEncodable(g, elems[i])
    case Map(entries) => forall i | 0 <= i < |entries| :: ObjsEncodable(g, entries[i].val)
    case Obj(_, _) => Encodable(g, v)
    case _ => true
  }

  /** Every map inside holds encodable values only. */
  predicate MapsEncodable(g: Schema, v: Value) {
    match v
    case List(elems) => forall i | 0 <= i < |elems| :: MapsEncodable(g, elems[i])
    case Map(entries) => forall i | 0 <= i < |entries| :: Encodable(g, entries[i].val)
    case Obj(_, fields) => forall i | 0 <= i < |fields| :: MapsEncodable(g, fields[i])
    case _ => true
  }

  // ----- Encodable structs: the decoder stays in step -----

  /** No empty map anywhere inside. */
  predicate NoEmptyMap(v: Value) {
    match v
    case List(elems) => forall i | 0 <= i < |elems| :: NoEmptyMap(elems[i])
    case Map(entries) => entries != [] && forall i | 0 <= i < |entries| :: NoEmptyMap(entries[i].key) && NoEmptyMap(entries[i].val)
    case Obj(_, fields) => forall i | 0 <= i < |fields| :: NoEmptyMap(fields[i])
    case _ => true
  }

  predicate IsKeyTag(tag: byte) {
    tag in {0x4e, 0x54, 0x46} || IsInt32Tag(tag) || IsInt64Tag(tag) || IsStringTag(tag)
  }

  /** Read one token after the other, under the class table `cls`: each map tag is followed by a key,
      and each struct is read as a whole, holds no empty map and leaves the table for what follows. */
  predicate InStep(g: Schema, s: bytes, cls: seq<ClassDef>)
    decreases |s|
  {
    if s == [] then true
    else
      var tag, t := s[0], s[1..];
      if tag in {0x5a, 0x4e, 0x54, 0x46} then InStep(g, t, cls)
      else if IsInt32Tag(tag) then InStep(g, DecInt32(tag, t).rest, cls)
      else if IsInt64Tag(tag) then InStep(g, DecInt64(tag, t).rest, cls)
      else if IsStringTag(tag) then InStep(g, DecString(tag, t).rest, cls)
      else if IsBinaryTag(tag) then InStep(g, DecBinary(tag, t).rest, cls)
      else if tag == 0x58 then InStep(g, ReadInt32(t).rest, cls)
      else if tag == 0x48 then t != [] && IsKeyTag(t[0]) && InStep(g, t, cls)
      else if IsObjectTag(tag) then
        var d := Decode(g, St(s, cls));
        d.err == None && NoEmptyMap(d.val) && InStep(g, d.st.s, d.st.cls)
      else false
  }

  predicate NoEmptyEntries(m: seq<Entry>) {
    forall i | 0 <= i < |m| :: NoEmptyMap(m[i].key) && NoEmptyMap(m[i].val)
  }

  /** What a decoder in step reads holds no empty map, and it stays in step. */
  lemma {:induction false} StaysInStep(g: Schema, st: St)
    requires InStep(g, st.s, st.cls)
    ensures var r := Decode(g, st);
            && (r.err == None ==> InStep(g, r.st.s, r.st.cls) && NoEmptyMap(r.val))
            && (r.err == EOF ==> r.st.s == [])
            && (st.s != [] && IsKeyTag(st.s[0]) ==> r.err != EOF)
    decreases |st.s|, 3
  {
    if st.s != [] {
      var tag, t := st.s[0], St(st.s[1..], st.cls);
      if tag == 0x58 {
        ListStaysInStep(g, tag, t);
      } else if tag == 0x48 {
        MapStaysInStep(g, [], t);
      }
    }
  }

  lemma ListStaysInStep(g: Schema, tag: byte, st: St)
    requires tag == 0x58 && InStep(g, ReadInt32(st.s).rest, st.cls)
    ensures var r := DecList(g, tag, st);
            && (r.err == None ==> InStep(g, r.st.s, r.st.cls) && NoEmptyMap(r.val))
            && r.err != EOF
    decreases |st.s|, 5
  {
    var n := ReadInt32(st.s);
    if n.err == None && n.val >= 0 {
      ElemsStayInStep(g, n.val, [], St(n.rest, st.cls));
    }
  }

  lemma {:induction false} ElemsStayInStep(g: Schema, n: nat, acc: seq<Value>, st: St)
    requires InStep(g, st.s, st.cls) && forall i | 0 <= i < |acc| :: NoEmptyMap(acc[i])
    ensures var r := DecElems(g, n, acc, false, st);
            r.err == None ==> InStep(g, r.st.s, r.st.cls) && NoEmptyMap(r.val)
    decreases |st.s|, 4, n
  {
    if n > 0 {
      StaysInStep(g, st);
      var r := Decode(g, st);
      if r.err == None {
        ElemsStayInStep(g, n - 1, acc + [r.val], r.st);
      }
    }
  }

  lemma PutKeeps(m: seq<Entry>, k: Value, v: Value)
    requires NoEmptyEntries(m) && NoEmptyMap(k) && NoEmptyMap(v)
    ensures NoEmptyEntries(Put(m, k, v)) && Put(m, k, v) != []
  {
  }

  lemma {:induction false} MapStaysInStep(g: Schema, m: seq<Entry>, st: St)
    requires InStep(g, st.s, st.cls) && NoEmptyEntries(m)
    requires m == [] ==> st.s != [] && IsKeyTag(st.s[0])
    ensures var r := DecMap(g, m, st);
            && (r.err == None ==> InStep(g, r.st.s, r.st.cls) && NoEmptyMap(r.val))
            && (r.err == EOF ==> r.st.s == [])
    decreases |st.s|, 4
  {
    if st.s != [] && st.s[0] != 0x5a {
      StaysInStep(g, st);
      var k := Decode(g, st);
      if k.err == None {
        StaysInStep(g, k.st);
        var v := Decode(g, k.st);
        if v.err == None && Hashable(k.val) {
          PutKeeps(m, k.val, v.val);
          MapStaysInStep(g, Put(m, k.val, v.val), v.st);
        }
      }
    }
  }

  // ----- The class table, for any typed value -----

  lemma {:induction false} TableStays(g: Schema, v: Value, tbl: seq<ClassDef>)
    requires Typed(g, v) && TableOK(g, tbl)
    ensures TableOK(g, Enc(g, v, tbl).tbl)
    decreases v, 2
  {
    match v
    case List(elems) => SeqTableStays(g, elems, tbl);
    case Map(entries) =>
      if entries != [] {
        EntriesTableStays(g, entries, tbl);
      }
    case Obj(java, fields) => SeqTableStays(g, fields, if Index(tbl, java) < |tbl| then tbl else tbl + [DefOf(g, java)]);
    case _ =>
  }

  lemma {:induction false} SeqTableStays(g: Schema, vs: seq<Value>, tbl: seq<ClassDef>)
    requires (forall i | 0 <= i < |vs| :: Typed(g, vs[i])) && TableOK(g, tbl)
    ensures TableOK(g, EncSeq(g, vs, tbl).tbl)
    decreases vs, 1
  {
    if vs != [] {
      TableStays(g, vs[0], tbl);
      SeqTableStays(g, vs[1..], Enc(g, vs[0], tbl).tbl);
    }
  }

  lemma {:induction false} EntriesTableStays(g: Schema, es: seq<Entry>, tbl: seq<ClassDef>)
    requires (forall i | 0 <= i < |es| :: Scalar(es[i].key) && Typed(g, es[i].val)) && TableOK(g, tbl)
    ensures TableOK(g, EncEntries(g, es, tbl).tbl)
    decreases es, 1
  {
    if es != [] {
      EntryTableStays(g, es[0], tbl);
      EntriesTableStays(g, es[1..], EncEntry(g, es[0], tbl).tbl);
    }
  }

  lemma EntryTableStays(g: Schema, e: Entry, tbl: seq<ClassDef>)
    requires Scalar(e.key) && Typed(g, e.val) && TableOK(g, tbl)
    ensures TableOK(g, EncEntry(g, e, tbl).tbl)
    decreases e, 3
  {
    assert Enc(g, e.key, tbl).tbl == tbl;
    TableStays(g, e.val, tbl);
  }

  // ----- Encodings are in step -----

  lemma LeafInStep(g: Schema, v: Value, tbl: seq<ClassDef>, rest: bytes)
    requires !v.List? && !v.Map? && !v.Obj? && !v.ZeroStruct? && InStep(g, rest, tbl)
    ensures InStep(g, Enc(g, v, tbl).b + rest, tbl) && Enc(g, v, tbl).tbl == tbl
    ensures Scalar(v) ==> IsKeyTag(Enc(g, v, tbl).b[0])
  {
    Split(Enc(g, v, tbl).b, rest);
    match v
    case Null => Ends(rest);
    case Bool(b) => Ends(rest);
    case Int32(i) => RoundTrip32By(false, i, rest);
    case Int64(l) => RoundTrip64By(false, l, rest);
    case Str(s) => StringRoundTrip(s, rest);
    case Bin(data) => BinaryRoundTrip(data, rest);
  }

  lemma {:induction false} PutAllKeeps(g: Schema, m: seq<Entry>, es: seq<Entry>)
    requires NoEmptyEntries(m) && forall i | 0 <= i < |es| :: Scalar(es[i].key) && Encodable(g, es[i].val)
    ensures NoEmptyEntries(PutAll(m, es)) && (m != [] || es != [] ==> PutAll(m, es) != [])
    decreases es, 1
  {
    if es != [] {
      var w := ImageOfEntry(es[0]);
      EntryImageNoEmptyMap(g, es[0]);
      PutKeeps(m, w.key, w.val);
      PutAllKeeps(g, Put(m, w.key, w.val), es[1..]);
    }
  }

  lemma EntryImageNoEmptyMap(g: Schema, e: Entry)
    requires Scalar(e.key) && Encodable(g, e.val)
    ensures NoEmptyMap(ImageOfEntry(e).key) && NoEmptyMap(ImageOfEntry(e).val)
    decreases e, 1
  {
    ImageNoEmptyMap(g, e.val);
  }

  /** What an encodable value comes back as holds no empty map. */
  lemma {:induction false} ImageNoEmptyMap(g: Schema, v: Value)
    requires Encodable(g, v)
    ensures NoEmptyMap(Image(v))
    decreases v, 0
  {
    match v
    case List(elems) =>
      forall i | 0 <= i < |elems| ensures NoEmptyMap(Images(elems)[i]) {
        ImageNoEmptyMap(g, elems[i]);
      }
    case Map(entries) => PutAllKeeps(g, [], entries);
    case Obj(_, fields) =>
      forall i | 0 <= i < |fields| ensures NoEmptyMap(Images(fields)[i]) {
        ImageNoEmptyMap(g, fields[i]);
      }
    case _ =>
  }

  lemma ObjInStep(g: Schema, v: Value, tbl: seq<ClassDef>, rest: bytes)
    requires v.Obj? && Encodable(g, v) && TableOK(g, tbl) && |Enc(g, v, tbl).tbl| <= 0x100
    requires InStep(g, rest, Enc(g, v, tbl).tbl)
    ensures InStep(g, Enc(g, v, tbl).b + rest, tbl)
  {
    var b := Enc(g, v, tbl).b;
    RoundTrip(g, v, tbl, rest);
    ImageNoEmptyMap(g, v);
    ObjTag(g, v, tbl);
    Split(b, rest);
  }

  lemma ListHeaderInStep(g: Schema, n: int32, b: bytes, tbl: seq<ClassDef>, rest: bytes)
    requires 0 <= n && InStep(g, b + rest, tbl)
    ensures InStep(g, [0x58] + (EncInt32(n) + b) + rest, tbl)
  {
    Tagged(0x58, EncInt32(n), b, rest);
    ReadCount(n, b + rest);
  }

  lemma MapHeaderInStep(g: Schema, b: bytes, tbl: seq<ClassDef>, rest: bytes)
    requires var s := b + ([0x5a] + rest); s != [] && IsKeyTag(s[0]) && InStep(g, s, tbl)
    ensures InStep(g, [0x48] + (b + [0x5a]) + rest, tbl)
  {
    Tagged(0x48, b, [0x5a], rest);
  }

  lemma EndInStep(g: Schema, tbl: seq<ClassDef>, rest: bytes)
    requires InStep(g, rest, tbl)
    ensures InStep(g, [0x5a] + rest, tbl)
  {
    assert ([0x5a] + rest)[1..] == rest;
  }

  /** The encoding of a value whose structs are encodable is in step, when what comes after it is. */
  lemma {:induction false} EncInStep(g: Schema, v: Value, tbl: seq<ClassDef>, rest: bytes)
    requires Typed(g, v) && ObjsEncodable(g, v) && TableOK(g, tbl) && |Enc(g, v, tbl).tbl| <= 0x100
    requires InStep(g, rest, Enc(g, v, tbl).tbl)
    ensures InStep(g, Enc(g, v, tbl).b + rest, tbl)
    decreases v, 2
  {
    match v
    case List(elems) =>
      SeqInStep(g, elems, tbl, rest);
      ListHeaderInStep(g, |elems|, EncSeq(g, elems, tbl).b, tbl, rest);
    case Map(entries) =>
      if entries == [] {
        Ends(rest);
      } else {
        EndInStep(g, Enc(g, v, tbl).tbl, rest);
        EntriesInStep(g, entries, tbl, [0x5a] + rest);
        MapHeaderInStep(g, EncEntries(g, entries, tbl).b, tbl, rest);
      }
    case Obj(_, _) => ObjInStep(g, v, tbl, rest);
    case _ => LeafInStep(g, v, tbl, rest);
  }

  lemma {:induction false} SeqInStep(g: Schema, vs: seq<Value>, tbl: seq<ClassDef>, rest: bytes)
    requires forall i | 0 <= i < |vs| :: Typed(g, vs[i]) && ObjsEncodable(g, vs[i])
    requires TableOK(g, tbl) && |EncSeq(g, vs, tbl).tbl| <= 0x100 && InStep(g, rest, EncSeq(g, vs, tbl).tbl)
    ensures InStep(g, EncSeq(g, vs, tbl).b + rest, tbl)
    decreases vs, 1
  {
    if vs == [] {
      Ends(rest);
    } else {
      var first := Enc(g, vs[0], tbl);
      var others := EncSeq(g, vs[1..], first.tbl);
      Concat(first.b, others.b, rest);
      TableStays(g, vs[0], tbl);
      SeqInStep(g, vs[1..], first.tbl, rest);
      EncInStep(g, vs[0], tbl, others.b + rest);
    }
  }

  lemma {:induction false} EntriesInStep(g: Schema, es: seq<Entry>, tbl: seq<ClassDef>, rest: bytes)
    requires forall i | 0 <= i < |es| :: Scalar(es[i].key) && Typed(g, es[i].val) && ObjsEncodable(g, es[i].val)
    requires TableOK(g, tbl) && |EncEntries(g, es, tbl).tbl| <= 0x100 && InStep(g, rest, EncEntries(g, es, tbl).tbl)
    ensures var s := EncEntries(g, es, tbl).b + rest;
            InStep(g, s, tbl) && (es != [] ==> s != [] && IsKeyTag(s[0]))
    decreases es, 1
  {
    if es == [] {
      Ends(rest);
    } else {
      var first := EncEntry(g, es[0], tbl);
      var others := EncEntries(g, es[1..], first.tbl);
      Concat(first.b, others.b, rest);
      EntryTableStays(g, es[0], tbl);
      EntriesInStep(g, es[1..], first.tbl, rest);
      EntryInStep(g, es[0], tbl, others.b + rest);
    }
  }

  lemma EntryInStep(g: Schema, e: Entry, tbl: seq<ClassDef>, rest: bytes)
    requires Scalar(e.key) && Typed(g, e.val) && ObjsEncodable(g, e.val)
    requires TableOK(g, tbl) && |EncEntry(g, e, tbl).tbl| <= 0x100 && InStep(g, rest, EncEntry(g, e, tbl).tbl)
    ensures var s := EncEntry(g, e, tbl).b + rest;
            InStep(g, s, tbl) && s != [] && IsKeyTag(s[0])
    decreases e, 3
  {
    var k := Enc(g, e.key, tbl);
    var v := Enc(g, e.val, k.tbl);
    assert k.tbl == tbl;
    EncInStep(g, e.val, k.tbl, rest);
    LeafInStep(g, e.key, tbl, v.b + rest);
    Concat(k.b, v.b, rest);
    Split(k.b, v.b + rest);
  }

  lemma EntryConcat(k: bytes, v: bytes, others: bytes, rest: bytes)
    ensures k + v + others + rest == k + (v + (others + rest))
  {
  }

  lemma {:induction false} ObjsEncodableSuffice(g: Schema, v: Value)
    requires Typed(g, v) && ObjsEncodable(g, v) && NoEmptyMap(v)
    ensures Encodable(g, v)
    decreases v
  {
    match v
    case List(elems) =>
      forall i | 0 <= i < |elems| ensures Encodable(g, elems[i]) {
        ObjsEncodableSuffice(g, elems[i]);
      }
    case Map(entries) =>
      forall i | 0 <= i < |entries| ensures Encodable(g, entries[i].val) {
        var e := entries[i];
        ObjsEncodableSuffice(g, e.val);
      }
    case _ =>
  }
}

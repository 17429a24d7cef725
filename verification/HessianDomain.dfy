/**
  * Exactly which values make the round trip. `Typed` is what Go's types alone demand of a value;
  * `Encodable` leaves out empty maps, and null where a struct's slice or map field cannot take it.
  * On typed values that condition is necessary as well as sufficient.
  */
module HessianDomain {
  import opened GoBase
  import opened HessianInt
  import opened HessianString
  import opened HessianBinary
  import opened HessianValue
  import opened HessianDecode
  import opened HessianLeaves
  import opened HessianRoundTrip
  import opened HessianFidelity
  import opened HessianInStep

  // ----- Values with structs: the first difference -----

  /** No map is empty where `s` is read, whatever classes are known. */
  ghost predicate Quiet(g: Schema, s: bytes) {
    forall cls: seq<ClassDef> :: Decode(g, St(s, cls)).err == None ==> Decode(g, St(s, cls)).val != Map([])
  }

  /** Elements read already stay at the front of the list. */
  lemma {:induction false} ElemsKept(g: Schema, n: nat, acc: seq<Value>, variable: bool, st: St)
    ensures var r := DecElems(g, n, acc, variable, st);
            r.err == None ==> r.val.List? && |acc| + n == |r.val.elems| && acc <= r.val.elems
    decreases n
  {
    if n > 0 {
      var r := Decode(g, st);
      if r.err == None {
        ElemsKept(g, n - 1, acc + [r.val], variable, r.st);
      }
    }
  }

  lemma {:induction false} MapGrows(g: Schema, m: seq<Entry>, st: St)
    requires m != []
    ensures var r := DecMap(g, m, st);
            r.err == None ==> r.val.Map? && r.val.entries != []
    decreases |st.s|
  {
    if st.s != [] && st.s[0] != 0x5a {
      var k := Decode(g, st);
      if k.err == None {
        var v := Decode(g, k.st);
        if v.err == None && Hashable(k.val) {
          MapGrows(g, Put(m, k.val, v.val), v.st);
        }
      }
    }
  }

  /** Instances are structs, or nil. */
  lemma {:induction false} InstanceKind(g: Schema, typ: seq<Field>, java: string, names: seq<string>, vals: seq<Value>, st: St)
    requires |vals| == |typ|
    ensures var r := DecFields(g, typ, java, names, vals, st);
            r.err == None ==> r.val.Null? || (r.val.Obj? && r.val.java == java && |r.val.fields| == |typ|)
    decreases |names|
  {
    if names != [] {
      var j := FindField(typ, names[0]);
      if j == |typ| {
        InstanceKind(g, typ, java, names[1..], vals, st);
      } else {
        var r := DecField(g, typ[j].kind, vals[j], st);
        if r.err == None {
          InstanceKind(g, typ, java, names[1..], vals[j := r.val], r.st);
        }
      }
    }
  }

  lemma HeaderQuiet(g: Schema, i: nat, s: bytes)
    ensures Quiet(g, ObjectHeader(i) + s)
  {
    var b := ObjectHeader(i) + s;
    HeaderTag(i);
    Split(ObjectHeader(i), s);
    forall cls: seq<ClassDef> ensures Decode(g, St(b, cls)).err == None ==> Decode(g, St(b, cls)).val != Map([]) {
      Dispatch(g, b, cls);
      NoMapFromObject(g, b[0], St(b[1..], cls));
    }
  }

  lemma NoMapFromObject(g: Schema, tag: byte, st: St)
    requires tag != 0x43
    ensures var r := DecObject(g, tag, st);
            r.err == None ==> r.val.Null? || r.val.Obj?
  {
    forall idx: int, st': St
      ensures DecInstance(g, idx, st').err == None ==> DecInstance(g, idx, st').val.Null? || DecInstance(g, idx, st').val.Obj?
    {
      if 0 <= idx < |st'.cls| && st'.cls[idx].java in g {
        var def := st'.cls[idx];
        InstanceKind(g, g[def.java], def.java, def.names, Zeros(g[def.java]), st');
      }
    }
  }

  /** Why structs are a case of their own: a field of type int64 that meets a four-byte int32 stops
      inside it, and what is read next may be an empty map that nobody wrote. */
  lemma StructsLoseStep(g: Schema, cls: seq<ClassDef>)
    ensures var r := ReadInt64(EncInt32(-0x7fb7_a600));
            && r.err == None
            && Decode(g, St(r.rest, cls)) == Ret(Map([]), None, St([0x00], cls))
  {
    PayloadAsTag();
    EmptyMapAhead(g, cls);
  }

  lemma FourByteForm()
    ensures EncInt32(-0x7fb7_a600) == [0x49, 0x80, 0x48, 0x5a, 0x00]
  {
    assert Word2(-0x7fb8) == [0x80, 0x48] && Word2(-0x7fb7_a600) == [0x5a, 0x00];
    assert EncInt32(-0x7fb7_a600) == [0x49] + (Word2(-0x7fb8) + Word2(-0x7fb7_a600));
  }

  /** The second tag is read where the number begins. */
  lemma SecondTag(t: bytes)
    requires t != []
    ensures ReadInt64([0x49] + t) == Res(DecInt32(t[0], t[1..]).val, DecInt32(t[0], t[1..]).err, DecInt32(t[0], t[1..]).rest)
  {
    assert ([0x49] + t)[1..] == t;
  }

  lemma PayloadAsTag()
    ensures ReadInt64(EncInt32(-0x7fb7_a600)) == Res(0xf0, None, [0x48, 0x5a, 0x00])
  {
    var t: bytes := [0x80, 0x48, 0x5a, 0x00];
    FourByteForm();
    assert EncInt32(-0x7fb7_a600) == [0x49] + t;
    SecondTag(t);
    assert t[1..] == [0x48, 0x5a, 0x00];
  }

  lemma EmptyMapAhead(g: Schema, cls: seq<ClassDef>)
    ensures Decode(g, St([0x48, 0x5a, 0x00], cls)) == Ret(Map([]), None, St([0x00], cls))
  {
    var s: bytes := [0x48, 0x5a, 0x00];
    assert s[1..] == [0x5a, 0x00] && s[1..][1..] == [0x00];
    Dispatch(g, s, cls);
    assert DecMap(g, [], St(s[1..], cls)) == Ret(Map([]), None, St(s[1..][1..], cls));
  }

  /** A value's encoding does not read as an empty map, unless it is one and hence is nothing. */
  lemma EncQuiet(g: Schema, v: Value, tbl: seq<ClassDef>, rest: bytes)
    requires Typed(g, v)
    ensures if v == Map([]) then Enc(g, v, tbl).b == [] else Quiet(g, Enc(g, v, tbl).b + rest)
  {
    var s := Enc(g, v, tbl).b + rest;
    match v
    case Map(entries) =>
      if entries != [] {
        MapQuiet(g, entries, tbl, rest);
      }
    case List(elems) =>
      var o := EncSeq(g, elems, tbl);
      Tagged(0x58, EncInt32(|elems|), o.b, rest);
      forall cls: seq<ClassDef> ensures Decode(g, St(s, cls)).err == None ==> Decode(g, St(s, cls)).val != Map([]) {
        Dispatch(g, s, cls);
      }
    case Obj(java, fields) =>
      var i, def := Index(tbl, java), DefOf(g, java);
      if i < |tbl| {
        Concat(ObjectHeader(i), EncSeq(g, fields, tbl).b, rest);
        HeaderQuiet(g, i, EncSeq(g, fields, tbl).b + rest);
      } else {
        var b := EncSeq(g, fields, tbl + [def]).b;
        HeaderQuiet(g, i, b + rest);
        Concat(ObjectHeader(i), b, rest);
        forall cls: seq<ClassDef> ensures Decode(g, St(s, cls)).err == None ==> Decode(g, St(s, cls)).val != Map([]) {
          Defined(g, def, ObjectHeader(i) + b, cls, rest);
          assert Decode(g, St(ObjectHeader(i) + (b + rest), cls + [def])).err == None ==>
              Decode(g, St(ObjectHeader(i) + (b + rest), cls + [def])).val != Map([]);
        }
      }
    case ZeroStruct =>
    case _ =>
      forall cls: seq<ClassDef> ensures Decode(g, St(s, cls)).err == None ==> Decode(g, St(s, cls)).val != Map([]) {
        LeafInverts(g, v, cls, rest);
      }
  }

  lemma MapQuiet(g: Schema, entries: seq<Entry>, tbl: seq<ClassDef>, rest: bytes)
    requires entries != [] && Scalar(entries[0].key)
    ensures Quiet(g, Enc(g, Map(entries), tbl).b + rest)
  {
    var s := Enc(g, Map(entries), tbl).b + rest;
    var k := Enc(g, entries[0].key, tbl);
    var v := Enc(g, entries[0].val, k.tbl);
    var others := EncEntries(g, entries[1..], v.tbl);
    var b := EncEntries(g, entries, tbl).b;
    var tail := v.b + (others.b + ([0x5a] + rest));
    assert EncEntry(g, entries[0], tbl) == Out(k.b + v.b, v.tbl);
    EntryConcat(k.b, v.b, others.b, [0x5a] + rest);
    forall cls: seq<ClassDef> ensures Decode(g, St(s, cls)).err == None ==> Decode(g, St(s, cls)).val != Map([]) {
      TaggedMap(g, b, rest, cls);
      KeyAhead(g, entries[0].key, tbl, cls, tail);
      OneEntryAtLeast(g, St(k.b + tail, cls));
    }
  }

  /** A key is read as a key under any class table. */
  lemma KeyAhead(g: Schema, k: Value, tbl: seq<ClassDef>, cls: seq<ClassDef>, tail: bytes)
    requires Scalar(k)
    ensures var s := Enc(g, k, tbl).b + tail;
            s != [] && s[0] != 0x5a && Decode(g, St(s, cls)).err == None
  {
    FirstByte(g, k, cls);
    assert Enc(g, k, tbl).b == Enc(g, k, cls).b;
    Split(Enc(g, k, cls).b, tail);
    LeafInverts(g, k, cls, tail);
  }

  lemma OneEntryAtLeast(g: Schema, st: St)
    requires st.s != [] && st.s[0] != 0x5a && Decode(g, st).err == None
    ensures var r := DecMap(g, [], st);
            r.err == None ==> r.val.Map? && r.val.entries != []
  {
    var k := Decode(g, st);
    var v := Decode(g, k.st);
    if v.err == None && Hashable(k.val) {
      MapGrows(g, Put([], k.val, v.val), v.st);
    }
  }

  lemma {:induction false} SeqQuiet(g: Schema, vs: seq<Value>, tbl: seq<ClassDef>, rest: bytes)
    requires (forall i | 0 <= i < |vs| :: Typed(g, vs[i])) && Quiet(g, rest)
    ensures Quiet(g, EncSeq(g, vs, tbl).b + rest)
    decreases |vs|
  {
    if vs == [] {
      Ends(rest);
    } else {
      var first := Enc(g, vs[0], tbl);
      var others := EncSeq(g, vs[1..], first.tbl);
      Concat(first.b, others.b, rest);
      EncQuiet(g, vs[0], tbl, others.b + rest);
      if vs[0] == Map([]) {
        SeqQuiet(g, vs[1..], first.tbl, rest);
        Ends(others.b + rest);
      }
    }
  }

  /** What a decoder makes of a value outside the domain is not that value. */
  predicate Misses(g: Schema, v: Value, tbl: seq<ClassDef>, rest: bytes) {
    var r := Decode(g, St(Enc(g, v, tbl).b + rest, tbl));
    r.err == None ==> r.val != v
  }

  /** Up to the first element outside the domain all is read as it should be; that one is not, and what
      stands in its place stays there. */
  lemma {:induction false} ElemsMiss(g: Schema, vs: seq<Value>, acc: seq<Value>, want: seq<Value>, tbl: seq<ClassDef>, rest: bytes)
    requires (forall i | 0 <= i < |vs| :: Typed(g, vs[i]) && MapsEncodable(g, vs[i])) && exists i :: 0 <= i < |vs| && !Encodable(g, vs[i])
    requires TableOK(g, tbl) && |EncSeq(g, vs, tbl).tbl| <= 0x100 && Quiet(g, rest)
    requires |want| == |acc| + |vs| && want[|acc|..] == vs
    ensures var r := DecElems(g, |vs|, acc, false, St(EncSeq(g, vs, tbl).b + rest, tbl));
            r.err == None ==> r.val != List(want)
    decreases vs, 4
  {
    var first := Enc(g, vs[0], tbl);
    var others := EncSeq(g, vs[1..], first.tbl);
    var st := St(first.b + (others.b + rest), tbl);
    Concat(first.b, others.b, rest);
    if Encodable(g, vs[0]) {
      RoundTrip(g, vs[0], tbl, others.b + rest);
      assert want[|acc| + 1..] == want[|acc|..][1..];
      ElemsMiss(g, vs[1..], acc + [Image(vs[0])], want, first.tbl, rest);
    } else {
      SeqQuiet(g, vs[1..], first.tbl, rest);
      ValueMisses(g, vs[0], tbl, others.b + rest);
      FirstElem(g, |vs|, acc, st);
      assert want[|acc|] == want[|acc|..][0];
    }
  }

  lemma FirstElem(g: Schema, n: nat, acc: seq<Value>, st: St)
    requires n > 0
    ensures var r := DecElems(g, n, acc, false, st);
            r.err == None ==> Decode(g, st).err == None && r.val.List? && |acc| < |r.val.elems| && r.val.elems[|acc|] == Decode(g, st).val
  {
    var d := Decode(g, st);
    if d.err == None {
      ElemsKept(g, n - 1, acc + [d.val], false, d.st);
    }
  }

  lemma {:induction false} ValueMisses(g: Schema, v: Value, tbl: seq<ClassDef>, rest: bytes)
    requires Typed(g, v) && MapsEncodable(g, v) && !Encodable(g, v)
    requires TableOK(g, tbl) && |Enc(g, v, tbl).tbl| <= 0x100 && Quiet(g, rest)
    ensures Misses(g, v, tbl, rest)
    decreases v, 6
  {
    match v
    case List(elems) => ListMisses(g, elems, tbl, rest);
    case Map(entries) => Ends(rest);
    case Obj(java, fields) => ObjMisses(g, java, fields, tbl, rest);
  }

  lemma ListMisses(g: Schema, elems: seq<Value>, tbl: seq<ClassDef>, rest: bytes)
    requires Typed(g, List(elems)) && MapsEncodable(g, List(elems)) && !Encodable(g, List(elems))
    requires TableOK(g, tbl) && |EncSeq(g, elems, tbl).tbl| <= 0x100 && Quiet(g, rest)
    ensures Misses(g, List(elems), tbl, rest)
    decreases elems, 5
  {
    var r := EncSeq(g, elems, tbl);
    ReadCount(|elems|, r.b + rest);
    CountedList(g, |elems|, EncInt32(|elems|), r.b, rest, tbl);
    assert elems[0..] == elems;
    ElemsMiss(g, elems, [], elems, tbl, rest);
  }

  lemma ObjMisses(g: Schema, java: string, fields: seq<Value>, tbl: seq<ClassDef>, rest: bytes)
    requires Typed(g, Obj(java, fields)) && MapsEncodable(g, Obj(java, fields)) && !Encodable(g, Obj(java, fields))
    requires TableOK(g, tbl) && |Enc(g, Obj(java, fields), tbl).tbl| <= 0x100 && Quiet(g, rest)
    ensures Misses(g, Obj(java, fields), tbl, rest)
    decreases fields, 5
  {
    var i, def := Index(tbl, java), DefOf(g, java);
    if i < |tbl| {
      InstanceMisses(g, java, fields, tbl, i, rest);
    } else {
      var body := ObjectHeader(i) + EncSeq(g, fields, tbl + [def]).b;
      Defined(g, def, body, tbl, rest);
      InstanceMisses(g, java, fields, tbl + [def], i, rest);
    }
  }

  /** After an object's header decInstance starts on the fields, all at their zero values. */
  lemma InstanceAhead(g: Schema, java: string, fields: seq<Value>, tbl: seq<ClassDef>, i: nat, b: bytes, rest: bytes)
    requires TableOK(g, tbl) && i < |tbl| <= 0x100 && tbl[i].java == java && |fields| == |g[java]|
    ensures Decode(g, St(ObjectHeader(i) + b + rest, tbl)) ==
            DecFields(g, g[java], java, Lowers(g[java])[0..], Partial(g, java, fields, 0), St(b + rest, tbl))
  {
    var st := St(b + rest, tbl);
    Concat(ObjectHeader(i), b, rest);
    HeaderInverts(g, i, st);
    Dispatch(g, ObjectHeader(i) + st.s, tbl);
    assert Lowers(g[java])[0..] == Lowers(g[java]);
    assert Partial(g, java, fields, 0) == Zeros(g[java]);
  }

  lemma InstanceMisses(g: Schema, java: string, fields: seq<Value>, tbl: seq<ClassDef>, i: nat, rest: bytes)
    requires Typed(g, Obj(java, fields)) && MapsEncodable(g, Obj(java, fields)) && !Encodable(g, Obj(java, fields))
    requires TableOK(g, tbl) && i < |tbl| && tbl[i].java == java
    requires |EncSeq(g, fields, tbl).tbl| <= 0x100 && Quiet(g, rest)
    ensures var r := Decode(g, St(ObjectHeader(i) + EncSeq(g, fields, tbl).b + rest, tbl));
            r.err == None ==> r.val != Obj(java, fields)
    decreases fields, 4
  {
    assert fields[0..] == fields;
    InstanceAhead(g, java, fields, tbl, i, EncSeq(g, fields, tbl).b, rest);
    FieldsMiss(g, java, fields, 0, tbl, rest);
  }

  lemma {:induction false} FieldsMiss(g: Schema, java: string, fields: seq<Value>, j: nat, tbl: seq<ClassDef>, rest: bytes)
    requires Typed(g, Obj(java, fields)) && MapsEncodable(g, Obj(java, fields)) && j <= |fields|
    requires exists k :: j <= k < |fields| && !EncodableField(g, g[java][k].kind, fields[k])
    requires TableOK(g, tbl) && |EncSeq(g, fields[j..], tbl).tbl| <= 0x100 && Quiet(g, rest)
    ensures var r := DecFields(g, g[java], java, Lowers(g[java])[j..], Partial(g, java, fields, j), St(EncSeq(g, fields[j..], tbl).b + rest, tbl));
            r.err == None ==> r.val != Obj(java, fields)
    decreases fields, 3, |fields| - j
  {
    var typ := g[java];
    var first := Enc(g, fields[j], tbl);
    var others := EncSeq(g, fields[j + 1..], first.tbl);
    assert fields[j..][1..] == fields[j + 1..];
    Concat(first.b, others.b, rest);
    if EncodableField(g, typ[j].kind, fields[j]) {
      FieldInverts(g, typ[j].kind, fields[j], tbl, others.b + rest);
      OneField(g, java, fields, j, St(first.b + (others.b + rest), tbl), St(others.b + rest, first.tbl));
      FieldsMiss(g, java, fields, j + 1, first.tbl, rest);
    } else {
      SeqQuiet(g, fields[j + 1..], first.tbl, rest);
      FieldMisses(g, typ[j].kind, fields[j], tbl, others.b + rest);
      WrongField(g, java, fields, j, Partial(g, java, fields, j), St(first.b + (others.b + rest), tbl));
    }
  }

  lemma WrongField(g: Schema, java: string, fields: seq<Value>, j: nat, vals: seq<Value>, st: St)
    requires java in g && |fields| == |vals| == |g[java]| && FieldNamesDistinct(g[java]) && j < |fields|
    requires var d := DecField(g, g[java][j].kind, vals[j], st); d.err == None ==> d.val != fields[j]
    ensures var r := FieldsFrom(g, java, j, vals, st);
            r.err == None ==> r.val != Obj(java, fields)
  {
    FieldTurn(g, java, j, vals, st);
    var d := DecField(g, g[java][j].kind, vals[j], st);
    if d.err == None {
      FieldKept(g, java, j, j + 1, vals[j := d.val], d.st);
    }
  }

  /** What an instance holds at `j`, if there is one. */
  predicate HoldsAt(r: Ret, j: nat, x: Value) {
    r.err == None ==> r.val.Null? || (r.val.Obj? && j < |r.val.fields| && r.val.fields[j] == x)
  }

  /** Later fields do not touch an earlier one. */
  lemma {:induction false} FieldKept(g: Schema, java: string, j: nat, k: nat, vals: seq<Value>, st: St)
    requires java in g && |vals| == |g[java]| && FieldNamesDistinct(g[java]) && j < k <= |vals|
    ensures HoldsAt(FieldsFrom(g, java, k, vals, st), j, vals[j])
    decreases |vals| - k
  {
    if k == |vals| {
      assert Lowers(g[java])[k..] == [];
    } else {
      FieldTurn(g, java, k, vals, st);
      var d := DecField(g, g[java][k].kind, vals[k], st);
      if d.err == None {
        FieldKept(g, java, j, k + 1, vals[k := d.val], d.st);
      }
    }
  }

  lemma FieldMisses(g: Schema, kind: Kind, v: Value, tbl: seq<ClassDef>, rest: bytes)
    requires TypedField(g, kind, v) && MapsEncodable(g, v) && !EncodableField(g, kind, v)
    requires TableOK(g, tbl) && |Enc(g, v, tbl).tbl| <= 0x100 && Quiet(g, rest)
    ensures var d := DecField(g, kind, Zero(kind), St(Enc(g, v, tbl).b + rest, tbl));
            d.err == None ==> d.val != v
    decreases v, 8
  {
    match kind
    case SliceKind(t) => SliceFieldMisses(g, t, v.elems, tbl, rest);
    case MapKind(kt, vt) => MapFieldMisses(g, kt, vt, v.entries, tbl, rest);
    case StructKind(java) =>
      ValueMisses(g, v, tbl, rest);
      StructAhead(g, g, v, tbl, rest);
      StructTakes(g, java, St(Enc(g, v, tbl).b + rest, tbl));
  }

  /** A slice field takes a list if and only if nothing in it went out as null. */
  lemma SliceFieldExact(g: Schema, t: Elem, elems: seq<Value>, tbl: seq<ClassDef>, rest: bytes)
    requires Encodable(g, List(elems)) && TableOK(g, tbl) && |EncSeq(g, elems, tbl).tbl| <= 0x100
    requires forall i | 0 <= i < |elems| :: Solid(elems[i]) ==> Fits(elems[i], t)
    ensures var d := DecField(g, SliceKind(t), List([]), St(Enc(g, List(elems), tbl).b + rest, tbl));
            && d.err in {None, Panic}
            && (d.err == None <==> forall i | 0 <= i < |elems| :: Solid(elems[i]))
  {
    if i :| 0 <= i < |elems| && !Solid(elems[i]) {
      ListAhead(g, elems, tbl, rest);
      NilElement(g, t, Images(elems), i, St(Enc(g, List(elems), tbl).b + rest, tbl));
    } else {
      SliceFieldInverts(g, t, elems, tbl, rest);
    }
  }

  lemma ListAhead(g: Schema, elems: seq<Value>, tbl: seq<ClassDef>, rest: bytes)
    requires Encodable(g, List(elems)) && TableOK(g, tbl) && |EncSeq(g, elems, tbl).tbl| <= 0x100
    ensures var s := Enc(g, List(elems), tbl).b + rest;
            s != [] && DecList(g, s[0], St(s[1..], tbl)) == Ret(List(Images(elems)), None, St(rest, EncSeq(g, elems, tbl).tbl))
  {
    ListInverts(g, elems, tbl, rest);
    Tagged(0x58, EncInt32(|elems|), EncSeq(g, elems, tbl).b, rest);
    Dispatch(g, Enc(g, List(elems), tbl).b + rest, tbl);
  }

  lemma NilElement(g: Schema, t: Elem, vs: seq<Value>, i: nat, st: St)
    requires st.s != [] && i < |vs| && vs[i].Null?
    requires var r := DecList(g, st.s[0], St(st.s[1..], st.cls)); r.err == None && r.val == List(vs)
    ensures DecField(g, SliceKind(t), List([]), st).err == Panic
  {
    assert vs[i] in vs;
  }

  /** A struct whose `[]interface{}` field holds nil. */
  lemma NilInSlice(g: Schema, rest: bytes)
    ensures DecField(g, SliceKind(AnyElem), List([]), St(Enc(g, List([Null]), []).b + rest, [])).err == Panic
  {
    SliceFieldExact(g, AnyElem, [Null], [], rest);
    assert !Solid([Null][0]);
  }

  lemma SliceFieldMisses(g: Schema, t: Elem, elems: seq<Value>, tbl: seq<ClassDef>, rest: bytes)
    requires TypedField(g, SliceKind(t), List(elems)) && MapsEncodable(g, List(elems)) && !EncodableField(g, SliceKind(t), List(elems))
    requires TableOK(g, tbl) && |EncSeq(g, elems, tbl).tbl| <= 0x100 && Quiet(g, rest)
    ensures var d := DecField(g, SliceKind(t), List([]), St(Enc(g, List(elems), tbl).b + rest, tbl));
            d.err == None ==> d.val != List(elems)
    decreases elems, 6
  {
    if forall i | 0 <= i < |elems| :: Encodable(g, elems[i]) {
      SliceFieldExact(g, t, elems, tbl, rest);
    } else {
      var st := St(Enc(g, List(elems), tbl).b + rest, tbl);
      ListMisses(g, elems, tbl, rest);
      Tagged(0x58, EncInt32(|elems|), EncSeq(g, elems, tbl).b, rest);
      Dispatch(g, st.s, tbl);
      SliceTakes(g, t, st);
    }
  }

  /** A slice field holds the list read, unless that is empty. */
  lemma SliceTakes(g: Schema, t: Elem, st: St)
    requires st.s != []
    ensures var r, d := DecList(g, st.s[0], St(st.s[1..], st.cls)), DecField(g, SliceKind(t), List([]), st);
            d.err == None ==> r.err == None && d.val == r.val
  {
  }

  predicate NoNulls(m: seq<Entry>) {
    forall i | 0 <= i < |m| :: !m[i].key.Null? && !m[i].val.Null?
  }

  /** What one turn of decMapByValue's loop may do to the map it builds: end with it, or go on with
      one more entry, whose key is not null. */
  lemma PairTurn(g: Schema, kt: Elem, vt: Elem, m: seq<Entry>, st: St)
    ensures var r, k := DecPairs(g, kt, vt, m, st), Decode(g, st);
            var v := Decode(g, k.st);
            || (r.err == None ==> r.val == Map(m))
            || (k.err == None && !k.val.Null? && r == DecPairs(g, kt, vt, Store(m, Entry(k.val, v.val)), v.st))
  {
  }

  lemma StoreNoNulls(m: seq<Entry>, w: Entry)
    requires NoNulls(m) && !w.key.Null?
    ensures NoNulls(Store(m, w))
  {
  }

  /** A map field never holds a null key or value, whatever it is read from. */
  lemma {:induction false} PairsNoNulls(g: Schema, kt: Elem, vt: Elem, m: seq<Entry>, st: St)
    requires NoNulls(m)
    ensures var r := DecPairs(g, kt, vt, m, st);
            r.err == None ==> r.val.Map? && NoNulls(r.val.entries)
    decreases |st.s|
  {
    var k := Decode(g, st);
    var v := Decode(g, k.st);
    PairTurn(g, kt, vt, m, st);
    if k.err == None && !k.val.Null? {
      StoreNoNulls(m, Entry(k.val, v.val));
      PairsNoNulls(g, kt, vt, Store(m, Entry(k.val, v.val)), v.st);
    }
  }

  lemma ImageSolid(v: Value)
    ensures Image(v) != Bin([])
  {
    match v
    case _ =>
  }

  lemma StoreSolid(m: seq<Entry>, w: Entry)
    requires w.val != Bin([]) && forall i | 0 <= i < |m| :: Solid(m[i].val)
    ensures forall i | 0 <= i < |Store(m, w)| :: Solid(Store(m, w)[i].val)
  {
  }

  lemma {:induction false} StoreAllSolidValues(m: seq<Entry>, es: seq<Entry>)
    requires forall i | 0 <= i < |m| :: Solid(m[i].val)
    ensures forall i | 0 <= i < |StoreAll(m, es)| :: Solid(StoreAll(m, es)[i].val)
    decreases |es|
  {
    if es != [] {
      var w := ImageOfEntry(es[0]);
      ImageSolid(es[0].val);
      StoreSolid(m, w);
      StoreAllSolidValues(Store(m, w), es[1..]);
    }
  }

  lemma MapFieldMisses(g: Schema, kt: Elem, vt: Elem, entries: seq<Entry>, tbl: seq<ClassDef>, rest: bytes)
    requires TypedField(g, MapKind(kt, vt), Map(entries)) && MapsEncodable(g, Map(entries))
    requires !EncodableField(g, MapKind(kt, vt), Map(entries))
    requires TableOK(g, tbl) && |EncEntries(g, entries, tbl).tbl| <= 0x100
    ensures var d := DecField(g, MapKind(kt, vt), Map([]), St(Enc(g, Map(entries), tbl).b + rest, tbl));
            d.err == None ==> d.val != Map(entries)
  {
    var st := St(Enc(g, Map(entries), tbl).b + rest, tbl);
    if i :| 0 <= i < |entries| && entries[i].key.Null? {
      TaggedMap(g, EncEntries(g, entries, tbl).b, rest, tbl);
      PairsNoNulls(g, kt, vt, [], St(EncEntries(g, entries, tbl).b + ([0x5a] + rest), tbl));
    } else {
      forall i | 0 <= i < |entries| ensures PairOK(g, kt, vt, entries[i]) {
        assert FitsEntry(kt, vt, entries[i]);
      }
      NullValueMisses(g, kt, vt, entries, tbl, rest);
    }
    MapTakes(g, kt, vt, st);
  }

  /** A map field holds the map read, or stays empty when that fails. */
  lemma MapTakes(g: Schema, kt: Elem, vt: Elem, st: St)
    ensures var r, d := DecMapByValue(g, kt, vt, st), DecField(g, MapKind(kt, vt), Map([]), st);
            d.err == None ==> d.val == if r.err == None then r.val else Map([])
  {
  }

  lemma NullValueMisses(g: Schema, kt: Elem, vt: Elem, entries: seq<Entry>, tbl: seq<ClassDef>, rest: bytes)
    requires entries != [] && TableOK(g, tbl) && |EncEntries(g, entries, tbl).tbl| <= 0x100
    requires forall i | 0 <= i < |entries| :: PairOK(g, kt, vt, entries[i])
    requires exists i :: 0 <= i < |entries| && !Solid(entries[i].val)
    ensures DecMapByValue(g, kt, vt, St(Enc(g, Map(entries), tbl).b + rest, tbl)).val != Map(entries)
  {
    MapFieldReads(g, kt, vt, entries, tbl, rest);
    StoreAllSolidValues([], entries);
    var i :| 0 <= i < |entries| && !Solid(entries[i].val);
    assert StoreAll([], entries) != entries;
  }

  // ----- The domain -----

  /** What encoding and decoding must do for a value to come back: the value itself, exactly what
      followed, and the same class table. */
  ghost predicate ComesBack(g: Schema, v: Value, tbl: seq<ClassDef>) {
    forall rest: bytes :: Decode(g, St(Enc(g, v, tbl).b + rest, tbl)) == Ret(v, None, St(rest, Enc(g, v, tbl).tbl))
  }

  /** A typed value comes back if and only if it is encodable and faithful: it has no empty map at any
      depth, no null in a struct's slice or map, no compact negative integer and no empty binary data.
      A value that holds a struct outside this domain must not also hold, in a map, a value outside. */
  lemma RoundTripDomain(g: Schema, v: Value, tbl: seq<ClassDef>)
    requires Typed(g, v) && (ObjsEncodable(g, v) || MapsEncodable(g, v))
    requires TableOK(g, tbl) && |Enc(g, v, tbl).tbl| <= 0x100
    ensures ComesBack(g, v, tbl) <==> Encodable(g, v) && Faithful(v)
  {
    var b := Enc(g, v, tbl).b;
    if Encodable(g, v) {
      forall rest: bytes
        ensures Decode(g, St(b + rest, tbl)) == Ret(v, None, St(rest, Enc(g, v, tbl).tbl)) <==> Faithful(v)
      {
        RoundTripExact(g, v, tbl, rest);
      }
    } else {
      assert Misses(g, v, tbl, []) by {
        if ObjsEncodable(g, v) {
          EncInStep(g, v, tbl, []);
          StaysInStep(g, St(b + [], tbl));
          if NoEmptyMap(v) {
            ObjsEncodableSuffice(g, v);
          }
        } else {
          ValueMisses(g, v, tbl, []);
        }
      }
    }
  }

  // ----- Empty maps in struct fields -----

  /** An empty map in a map field is written as nothing, and its reader takes the next byte for the
      map's tag. Another value's tag is lost, and the field stays empty; a map that follows is taken
      for the field's own. Either way some of what follows is gone, unless nothing follows. */
  lemma EmptyMapField(g: Schema, kt: Elem, vt: Elem, st: St)
    ensures var d := DecField(g, MapKind(kt, vt), Map([]), st);
            && (Head(st.s) !in {0x48, 0x4d} ==> d == Ret(Map([]), None, St(Tail(st.s), st.cls)))
            && (st.s != [] ==> |d.st.s| < |st.s|)
  {
  }

  /** A struct that ends in an empty map, its other fields being encodable: what it comes back as and
      what follows are both right if and only if nothing follows. */
  lemma LastFieldEmptyMap(g: Schema, java: string, fields: seq<Value>, tbl: seq<ClassDef>, i: nat, rest: bytes)
    requires java in g && fields != [] && |fields| == |g[java]| && FieldNamesDistinct(g[java])
    requires var n := |fields| - 1;
             && g[java][n].kind.MapKind? && fields[n] == Map([])
             && forall k | 0 <= k < n :: EncodableField(g, g[java][k].kind, fields[k])
    requires TableOK(g, tbl) && i < |tbl| && tbl[i].java == java && |EncSeq(g, fields, tbl).tbl| <= 0x100
    ensures var o := EncSeq(g, fields, tbl);
            Decode(g, St(ObjectHeader(i) + o.b + rest, tbl)) == Ret(Obj(java, Images(fields)), None, St(rest, o.tbl)) <==> rest == []
  {
    assert fields[0..] == fields;
    InstanceAhead(g, java, fields, tbl, i, EncSeq(g, fields, tbl).b, rest);
    FieldsThenEmptyMap(g, java, fields, 0, tbl, rest);
  }

  /** What is left of `rest` after the last of the fields from `j` on. */
  lemma {:induction false} FieldsThenEmptyMap(g: Schema, java: string, fields: seq<Value>, j: nat, tbl: seq<ClassDef>, rest: bytes)
    requires java in g && j < |fields| == |g[java]| && FieldNamesDistinct(g[java])
    requires var n := |fields| - 1;
             && g[java][n].kind.MapKind? && fields[n] == Map([])
             && forall k | 0 <= k < n :: EncodableField(g, g[java][k].kind, fields[k])
    requires TableOK(g, tbl) && |EncSeq(g, fields[j..], tbl).tbl| <= 0x100
    ensures var o := EncSeq(g, fields[j..], tbl);
            var r := DecFields(g, g[java], java, Lowers(g[java])[j..], Partial(g, java, fields, j), St(o.b + rest, tbl));
            if rest == [] then r == Ret(Obj(java, Images(fields)), None, St([], o.tbl)) else |r.st.s| < |rest|
    decreases |fields| - j
  {
    var kind := g[java][j].kind;
    var first := Enc(g, fields[j], tbl);
    var others := EncSeq(g, fields[j + 1..], first.tbl);
    assert fields[j..][1..] == fields[j + 1..];
    Concat(first.b, others.b, rest);
    if j == |fields| - 1 {
      Ends(rest);
      EmptyMapLast(g, java, fields, tbl, rest);
    } else {
      FieldInverts(g, kind, fields[j], tbl, others.b + rest);
      OneField(g, java, fields, j, St(first.b + (others.b + rest), tbl), St(others.b + rest, first.tbl));
      FieldsThenEmptyMap(g, java, fields, j + 1, first.tbl, rest);
    }
  }

  lemma EmptyMapLast(g: Schema, java: string, fields: seq<Value>, tbl: seq<ClassDef>, rest: bytes)
    requires java in g && fields != [] && |fields| == |g[java]| && FieldNamesDistinct(g[java])
    requires g[java][|fields| - 1].kind.MapKind? && fields[|fields| - 1] == Map([])
    ensures var n := |fields| - 1;
            var r := DecFields(g, g[java], java, Lowers(g[java])[n..], Partial(g, java, fields, n), St(rest, tbl));
            if rest == [] then r == Ret(Obj(java, Images(fields)), None, St([], tbl)) else |r.st.s| < |rest|
  {
    var n := |fields| - 1;
    var kind, st := g[java][n].kind, St(rest, tbl);
    EmptyMapField(g, kind.key, kind.val, st);
    if rest == [] {
      OneField(g, java, fields, n, st, st);
      NoneLeft(g, java, fields, st);
    } else {
      LastTurn(g, java, Partial(g, java, fields, n), st);
    }
  }

  lemma NoneLeft(g: Schema, java: string, fields: seq<Value>, st: St)
    requires java in g && |fields| == |g[java]|
    ensures var n := |fields|;
            DecFields(g, g[java], java, Lowers(g[java])[n..], Partial(g, java, fields, n), st) == Ret(Obj(java, Images(fields)), None, st)
  {
    Ends(Images(fields));
    assert Lowers(g[java])[|fields|..] == [];
  }

  /** decInstance's last turn leaves what its field leaves. */
  lemma LastTurn(g: Schema, java: string, vals: seq<Value>, st: St)
    requires java in g && vals != [] && |vals| == |g[java]| && FieldNamesDistinct(g[java])
    ensures var n := |vals| - 1;
            DecFields(g, g[java], java, Lowers(g[java])[n..], vals, st).st == DecField(g, g[java][n].kind, vals[n], st).st
  {
    var typ, n := g[java], |vals| - 1;
    FindFieldExact(typ);
    assert Lowers(typ)[n..] == [typ[n].lower];
    assert [typ[n].lower][1..] == [];
  }
}

/**
  * Decoding what a peer encodes. The peer's structs may list their fields in another order and lack
  * some of the decoder's: `h` is the peer's schema, `g` the decoder's. A value's fields are found by
  * their wire names; what the peer does not have stays at its zero value.
  */
module HessianPeer {
  import opened GoBase
  import opened HessianInt
  import opened HessianString
  import opened HessianValue
  import opened HessianDecode
  import opened HessianLeaves

  /** Every field of the peer's structs is one of the decoder's, by wire name and kind. (A struct whose
      names are not distinct cannot be encoded.) */
  ghost predicate Peers(g: Schema, h: Schema) {
    forall java | java in h && FieldNamesDistinct(h[java]) ::
      && java in g && FieldNamesDistinct(g[java])
      && forall k | 0 <= k < |h[java]| :: HasField(g[java], h[java][k])
  }

  ghost predicate HasField(typ: seq<Field>, p: Field) {
    exists j :: 0 <= j < |typ| && SameField(typ[j], p)
  }

  predicate SameField(f: Field, p: Field) {
    f.lower == p.lower && f.kind == p.kind
  }

  /** The peer's position of a wire name, or the number of its fields. */
  function WireIndex(peer: seq<Field>, lower: string): (k: nat)
    ensures k <= |peer|
    ensures k < |peer| ==> peer[k].lower == lower
    ensures forall i | 0 <= i < k :: peer[i].lower != lower
  {
    if peer == [] then 0 else if peer[0].lower == lower then 0 else 1 + WireIndex(peer[1..], lower)
  }

  // ----- A peer's value with the decoder's fields -----

  function Lay(g: Schema, h: Schema, v: Value): Value
    decreases v, 1
  {
    match v
    case List(elems) => List(LaySeq(g, h, elems))
    case Map(entries) => Map(LayEntries(g, h, entries))
    case Obj(java, fields) =>
      if java in g && java in h && |fields| == |h[java]|
      then Obj(java, Rearranged(g[java], h[java], LaySeq(g, h, fields)))
      else v
    case _ => v
  }

  function LaySeq(g: Schema, h: Schema, vs: seq<Value>): (ws: seq<Value>)
    ensures |ws| == |vs|
    ensures forall i | 0 <= i < |vs| :: ws[i] == Lay(g, h, vs[i])
    decreases vs, 0
  {
    if vs == [] then [] else [Lay(g, h, vs[0])] + LaySeq(g, h, vs[1..])
  }

  function LayEntry(g: Schema, h: Schema, e: Entry): Entry
    decreases e, 0
  {
    Entry(Lay(g, h, e.key), Lay(g, h, e.val))
  }

  function LayEntries(g: Schema, h: Schema, es: seq<Entry>): (ws: seq<Entry>)
    ensures |ws| == |es|
    ensures forall i | 0 <= i < |es| :: ws[i] == LayEntry(g, h, es[i])
    decreases es, 0
  {
    if es == [] then [] else [LayEntry(g, h, es[0])] + LayEntries(g, h, es[1..])
  }

  /** The value of each field: the peer's under the same wire name, else the zero value. */
  function Rearranged(typ: seq<Field>, peer: seq<Field>, vals: seq<Value>): (ws: seq<Value>)
    requires |vals| == |peer|
    ensures |ws| == |typ|
  {
    seq(|typ|, j requires 0 <= j < |typ| =>
      var k := WireIndex(peer, typ[j].lower); if k < |vals| then vals[k] else Zero(typ[j].kind))
  }

  /** Scalars stay as they are, and nothing else becomes one. */
  lemma LayScalar(g: Schema, h: Schema, v: Value, k: Value)
    requires Scalar(k)
    ensures Lay(g, h, v) == k <==> v == k
  {
    match v
    case _ =>
  }

  lemma {:induction false} LayKeyIndex(g: Schema, h: Schema, m: seq<Entry>, k: Value)
    requires Scalar(k)
    ensures KeyIndex(LayEntries(g, h, m), k) == KeyIndex(m, k)
    decreases |m|
  {
    if m != [] {
      LayScalar(g, h, m[0].key, k);
      LayKeyIndex(g, h, m[1..], k);
      assert LayEntries(g, h, m)[1..] == LayEntries(g, h, m[1..]);
    }
  }

  lemma LayConcat(g: Schema, h: Schema, a: seq<Entry>, b: seq<Entry>)
    ensures LayEntries(g, h, a + b) == LayEntries(g, h, a) + LayEntries(g, h, b)
  {
    var w := LayEntries(g, h, a + b);
    forall i | 0 <= i < |a + b| ensures w[i] == (LayEntries(g, h, a) + LayEntries(g, h, b))[i] {
    }
  }

  lemma LaySlices(g: Schema, h: Schema, m: seq<Entry>, i: nat)
    requires i <= |m|
    ensures LayEntries(g, h, m[..i]) == LayEntries(g, h, m)[..i] && LayEntries(g, h, m[i..]) == LayEntries(g, h, m)[i..]
  {
  }

  lemma LayPut(g: Schema, h: Schema, m: seq<Entry>, k: Value, v: Value)
    requires Scalar(k)
    ensures LayEntries(g, h, Put(m, k, v)) == Put(LayEntries(g, h, m), k, Lay(g, h, v))
  {
    var i, e := KeyIndex(m, k), Entry(k, v);
    LayKeyIndex(g, h, m, k);
    LayScalar(g, h, k, k);
    if i < |m| {
      var w := LayEntries(g, h, m[i := e]);
      forall j | 0 <= j < |m| ensures w[j] == LayEntries(g, h, m)[i := LayEntry(g, h, e)][j] {
      }
    } else {
      LayConcat(g, h, m, [e]);
      assert LayEntries(g, h, [e]) == [LayEntry(g, h, e)];
    }
  }

  lemma LayDelete(g: Schema, h: Schema, m: seq<Entry>, k: Value)
    requires Scalar(k)
    ensures LayEntries(g, h, Delete(m, k)) == Delete(LayEntries(g, h, m), k)
  {
    LayKeyIndex(g, h, m, k);
    var i := KeyIndex(m, k);
    if i < |m| {
      DeleteAt(m, k);
      DeleteAt(LayEntries(g, h, m), k);
      LayConcat(g, h, m[..i], m[i + 1..]);
      LaySlices(g, h, m, i);
      LaySlices(g, h, m, i + 1);
    }
  }

  lemma DeleteAt(m: seq<Entry>, k: Value)
    requires Scalar(k) && KeyIndex(m, k) < |m|
    ensures Delete(m, k) == m[..KeyIndex(m, k)] + m[KeyIndex(m, k) + 1..]
  {
  }

  lemma LayStore(g: Schema, h: Schema, m: seq<Entry>, e: Entry)
    requires Scalar(e.key)
    ensures LayEntries(g, h, Store(m, e)) == Store(LayEntries(g, h, m), LayEntry(g, h, e))
  {
    LayScalar(g, h, e.key, e.key);
    LayKind(g, h, e.val, AnyElem);
    if e.val.Null? {
      LayDelete(g, h, m, e.key);
    } else {
      LayPut(g, h, m, e.key, e.val);
    }
  }

  /** Laying out keeps what the decoder asks of a value. */
  lemma LayKind(g: Schema, h: Schema, v: Value, t: Elem)
    ensures (Lay(g, h, v).Null? <==> v.Null?) && (Fits(Lay(g, h, v), t) <==> Fits(v, t)) && (Hashable(Lay(g, h, v)) <==> Hashable(v))
  {
  }

  lemma ScalarStays(g: Schema, h: Schema, k: Value)
    requires Scalar(k)
    ensures Scalar(Image(k)) && Lay(g, h, Image(k)) == Image(k)
  {
  }

  // ----- The round trip -----

  /** What the peer writes for `v` is read as `v`'s image with the decoder's fields. */
  predicate Reads(g: Schema, h: Schema, v: Value, tbl: seq<ClassDef>, rest: bytes) {
    var o := Enc(h, v, tbl);
    Decode(g, St(o.b + rest, tbl)) == Ret(Lay(g, h, Image(v)), None, St(rest, o.tbl))
  }

  lemma PeerLeaf(g: Schema, h: Schema, v: Value, tbl: seq<ClassDef>, rest: bytes)
    requires !v.List? && !v.Map? && !v.Obj? && !v.ZeroStruct?
    ensures Reads(g, h, v, tbl, rest) && Enc(h, v, tbl).tbl == tbl
  {
    LeafInverts(g, v, tbl, rest);
    assert Enc(h, v, tbl) == Enc(g, v, tbl);
    assert Lay(g, h, Image(v)) == Image(v);
  }

  lemma PeerList(g: Schema, h: Schema, elems: seq<Value>, tbl: seq<ClassDef>, rest: bytes)
    requires Peers(g, h) && Encodable(h, List(elems)) && TableOK(h, tbl) && |EncSeq(h, elems, tbl).tbl| <= 0x100
    ensures Reads(g, h, List(elems), tbl, rest)
    ensures TableOK(h, EncSeq(h, elems, tbl).tbl)
    decreases elems, 5
  {
    var r := EncSeq(h, elems, tbl);
    ReadCount(|elems|, r.b + rest);
    CountedList(g, |elems|, EncInt32(|elems|), r.b, rest, tbl);
    ElemsInvert(g, h, elems, [], tbl, rest);
    Ends(LaySeq(g, h, Images(elems)));
  }

  lemma {:induction false} ElemsInvert(g: Schema, h: Schema, vs: seq<Value>, acc: seq<Value>, tbl: seq<ClassDef>, rest: bytes)
    requires Peers(g, h) && forall i | 0 <= i < |vs| :: Encodable(h, vs[i])
    requires TableOK(h, tbl) && |EncSeq(h, vs, tbl).tbl| <= 0x100
    ensures var o := EncSeq(h, vs, tbl);
            && DecElems(g, |vs|, acc, false, St(o.b + rest, tbl)) == Ret(List(acc + LaySeq(g, h, Images(vs))), None, St(rest, o.tbl))
            && TableOK(h, o.tbl)
    decreases vs, 4
  {
    if vs == [] {
      Ends(rest);
      Ends(acc);
    } else {
      var first := Enc(h, vs[0], tbl);
      var others := EncSeq(h, vs[1..], first.tbl);
      var w := Lay(g, h, Image(vs[0]));
      Concat(first.b, others.b, rest);
      PeerRoundTrip(g, h, vs[0], tbl, others.b + rest);
      ElemsInvert(g, h, vs[1..], acc + [w], first.tbl, rest);
      LayTail(g, h, vs);
      Shift(acc, LaySeq(g, h, Images(vs)));
    }
  }

  lemma LayTail(g: Schema, h: Schema, vs: seq<Value>)
    requires vs != []
    ensures var ws := LaySeq(g, h, Images(vs));
            ws != [] && ws[0] == Lay(g, h, Image(vs[0])) && ws[1..] == LaySeq(g, h, Images(vs[1..]))
  {
    assert Images(vs)[1..] == Images(vs[1..]);
  }

  /** Decoding what a peer encodes, for any value, any starting table and anything that follows: the
      value comes back with its fields by wire name, exactly what followed is left, and the decoder's
      class table is the peer's. */
  lemma {:induction false} PeerRoundTrip(g: Schema, h: Schema, v: Value, tbl: seq<ClassDef>, rest: bytes)
    requires Peers(g, h) && Encodable(h, v) && TableOK(h, tbl) && |Enc(h, v, tbl).tbl| <= 0x100
    ensures Reads(g, h, v, tbl, rest)
    ensures TableOK(h, Enc(h, v, tbl).tbl)
    decreases v, 6
  {
    match v
    case List(elems) => PeerList(g, h, elems, tbl, rest);
    case Map(entries) => PeerMap(g, h, entries, tbl, rest);
    case Obj(java, fields) => PeerObj(g, h, java, fields, tbl, rest);
    case _ => PeerLeaf(g, h, v, tbl, rest);
  }

  // ----- Maps -----

  lemma PeerMap(g: Schema, h: Schema, entries: seq<Entry>, tbl: seq<ClassDef>, rest: bytes)
    requires Peers(g, h) && Encodable(h, Map(entries)) && TableOK(h, tbl) && |EncEntries(h, entries, tbl).tbl| <= 0x100
    ensures Reads(g, h, Map(entries), tbl, rest)
    ensures TableOK(h, EncEntries(h, entries, tbl).tbl)
    decreases entries, 5
  {
    TaggedMap(g, EncEntries(h, entries, tbl).b, rest, tbl);
    EntriesInvert(g, h, entries, [], tbl, rest);
  }

  /** Entry by entry, an untyped map's loop sees no terminator before the real one. */
  lemma {:induction false} EntriesInvert(g: Schema, h: Schema, es: seq<Entry>, m: seq<Entry>, tbl: seq<ClassDef>, rest: bytes)
    requires Peers(g, h) && forall i | 0 <= i < |es| :: Scalar(es[i].key) && Encodable(h, es[i].val)
    requires TableOK(h, tbl) && |EncEntries(h, es, tbl).tbl| <= 0x100
    ensures var o := EncEntries(h, es, tbl);
            && DecMap(g, LayEntries(g, h, m), St(o.b + ([0x5a] + rest), tbl)) == Ret(Map(LayEntries(g, h, PutAll(m, es))), None, St(rest, o.tbl))
            && TableOK(h, o.tbl)
    decreases es, 4
  {
    var end := [0x5a] + rest;
    if es == [] {
      Ends(end);
      Split([0x5a], rest);
    } else {
      var e, first := ImageOfEntry(es[0]), EncEntry(h, es[0], tbl);
      var others := EncEntries(h, es[1..], first.tbl);
      EntryInverts(g, h, es[0], m, tbl, others.b + end);
      EntriesInvert(g, h, es[1..], Put(m, e.key, e.val), first.tbl, rest);
      Concat(first.b, others.b, end);
    }
  }

  lemma EntryInverts(g: Schema, h: Schema, e: Entry, m: seq<Entry>, tbl: seq<ClassDef>, rest: bytes)
    requires Peers(g, h) && Scalar(e.key) && Encodable(h, e.val)
    requires TableOK(h, tbl) && |EncEntry(h, e, tbl).tbl| <= 0x100
    ensures var o, w := EncEntry(h, e, tbl), ImageOfEntry(e);
            && DecMap(g, LayEntries(g, h, m), St(o.b + rest, tbl)) == DecMap(g, LayEntries(g, h, Put(m, w.key, w.val)), St(rest, o.tbl))
            && TableOK(h, o.tbl)
    decreases e, 7
  {
    var k, w := Enc(h, e.key, tbl), ImageOfEntry(e);
    var v := Enc(h, e.val, k.tbl);
    Concat(k.b, v.b, rest);
    FirstByte(h, e.key, tbl);
    Split(k.b, v.b + rest);
    PeerLeaf(g, h, e.key, tbl, v.b + rest);
    ScalarStays(g, h, e.key);
    PeerRoundTrip(g, h, e.val, k.tbl, rest);
    LayPut(g, h, m, w.key, w.val);
    OneEntry(g, LayEntries(g, h, m), St(k.b + (v.b + rest), tbl), LayEntry(g, h, w));
  }

  // ----- Objects -----

  lemma PeerObj(g: Schema, h: Schema, java: string, fields: seq<Value>, tbl: seq<ClassDef>, rest: bytes)
    requires Peers(g, h) && Encodable(h, Obj(java, fields)) && TableOK(h, tbl) && |Enc(h, Obj(java, fields), tbl).tbl| <= 0x100
    ensures Reads(g, h, Obj(java, fields), tbl, rest)
    ensures TableOK(h, Enc(h, Obj(java, fields), tbl).tbl)
    decreases fields, 5
  {
    var i, def := Index(tbl, java), DefOf(h, java);
    if i < |tbl| {
      PeerInstance(g, h, java, fields, tbl, i, rest);
    } else {
      var body := ObjectHeader(i) + EncSeq(h, fields, tbl + [def]).b;
      Defined(g, def, body, tbl, rest);
      PeerInstance(g, h, java, fields, tbl + [def], i, rest);
    }
  }

  /** The instance part of an object whose class sits at `i` in both tables. */
  lemma PeerInstance(g: Schema, h: Schema, java: string, fields: seq<Value>, tbl: seq<ClassDef>, i: nat, rest: bytes)
    requires Peers(g, h) && Encodable(h, Obj(java, fields)) && TableOK(h, tbl)
    requires i < |tbl| && tbl[i].java == java
    requires |EncSeq(h, fields, tbl).tbl| <= 0x100
    ensures var o := EncSeq(h, fields, tbl);
            && Decode(g, St(ObjectHeader(i) + o.b + rest, tbl)) == Ret(Lay(g, h, Obj(java, Images(fields))), None, St(rest, o.tbl))
            && TableOK(h, o.tbl)
    decreases fields, 4
  {
    var o := EncSeq(h, fields, tbl);
    var st := St(o.b + rest, tbl);
    Concat(ObjectHeader(i), o.b, rest);
    HeaderInverts(g, i, st);
    Dispatch(g, ObjectHeader(i) + st.s, tbl);
    FieldsInvert(g, h, java, fields, 0, tbl, rest);
    assert fields[0..] == fields && Lowers(h[java])[0..] == Lowers(h[java]);
    NoneRead(g, h, java, fields);
    AllRead(g, h, java, fields);
  }

  /** The decoder's fields once the first `n` of the peer's have been read. */
  function Sofar(g: Schema, h: Schema, java: string, fields: seq<Value>, n: nat): (vals: seq<Value>)
    requires java in g && java in h && |fields| == |h[java]|
    ensures |vals| == |g[java]|
  {
    var typ, ws := g[java], LaySeq(g, h, Images(fields));
    seq(|typ|, j requires 0 <= j < |typ| =>
      var k := WireIndex(h[java], typ[j].lower); if k < n && k < |ws| then ws[k] else Zero(typ[j].kind))
  }

  lemma NoneRead(g: Schema, h: Schema, java: string, fields: seq<Value>)
    requires java in g && java in h && |fields| == |h[java]|
    ensures Sofar(g, h, java, fields, 0) == Zeros(g[java])
  {
  }

  lemma AllRead(g: Schema, h: Schema, java: string, fields: seq<Value>)
    requires java in g && java in h && |fields| == |h[java]|
    ensures Obj(java, Sofar(g, h, java, fields, |fields|)) == Lay(g, h, Obj(java, Images(fields)))
  {
    assert Sofar(g, h, java, fields, |fields|) == Rearranged(g[java], h[java], LaySeq(g, h, Images(fields)));
  }

  /** The decoder's field for the peer's field `n`. */
  lemma FieldFound(g: Schema, h: Schema, java: string, n: nat) returns (j: nat)
    requires Peers(g, h) && java in h && n < |h[java]| && FieldNamesDistinct(h[java])
    ensures j < |g[java]| && SameField(g[java][j], h[java][n]) && FindField(g[java], h[java][n].lower) == j
    ensures forall i | 0 <= i < |g[java]| :: WireIndex(h[java], g[java][i].lower) == n <==> i == j
  {
    var typ, peer := g[java], h[java];
    assert HasField(typ, peer[n]);
    j :| 0 <= j < |typ| && SameField(typ[j], peer[n]);
    FindFieldExact(typ);
    forall i | 0 <= i < |typ| ensures WireIndex(peer, typ[i].lower) == n <==> i == j {
      WireIndexIs(peer, n, typ[i].lower);
    }
  }

  lemma WireIndexIs(peer: seq<Field>, n: nat, lower: string)
    requires n < |peer| && FieldNamesDistinct(peer)
    ensures WireIndex(peer, lower) == n <==> peer[n].lower == lower
  {
  }

  /** It is untouched until then, and is all that changes. */
  lemma FieldSet(g: Schema, h: Schema, java: string, fields: seq<Value>, n: nat, j: nat)
    requires java in g && java in h && n < |fields| == |h[java]| && j < |g[java]|
    requires forall i | 0 <= i < |g[java]| :: WireIndex(h[java], g[java][i].lower) == n <==> i == j
    ensures Sofar(g, h, java, fields, n)[j] == Zero(g[java][j].kind)
    ensures Sofar(g, h, java, fields, n)[j := Lay(g, h, Image(fields[n]))] == Sofar(g, h, java, fields, n + 1)
  {
  }

  lemma OnePeerField(g: Schema, h: Schema, java: string, fields: seq<Value>, n: nat, st: St, more: St)
    requires Peers(g, h) && java in h && |fields| == |h[java]| && n < |fields| && FieldNamesDistinct(h[java])
    requires DecField(g, h[java][n].kind, Zero(h[java][n].kind), st) == Ret(Lay(g, h, Image(fields[n])), None, more)
    ensures DecFields(g, g[java], java, Lowers(h[java])[n..], Sofar(g, h, java, fields, n), st)
         == DecFields(g, g[java], java, Lowers(h[java])[n + 1..], Sofar(g, h, java, fields, n + 1), more)
  {
    var j := FieldFound(g, h, java, n);
    FieldSet(g, h, java, fields, n, j);
    var names := Lowers(h[java]);
    assert names[n..][0] == h[java][n].lower && names[n..][1..] == names[n + 1..];
  }

  /** The fields of an instance are read in the peer's order, with the definitions of nested classes
      anywhere among them, and each is set under its own name. */
  lemma {:induction false} FieldsInvert(g: Schema, h: Schema, java: string, fields: seq<Value>, n: nat, tbl: seq<ClassDef>, rest: bytes)
    requires Peers(g, h) && Encodable(h, Obj(java, fields)) && TableOK(h, tbl) && n <= |fields|
    requires |EncSeq(h, fields[n..], tbl).tbl| <= 0x100
    ensures var o := EncSeq(h, fields[n..], tbl);
            && DecFields(g, g[java], java, Lowers(h[java])[n..], Sofar(g, h, java, fields, n), St(o.b + rest, tbl))
               == Ret(Obj(java, Sofar(g, h, java, fields, |fields|)), None, St(rest, o.tbl))
            && TableOK(h, o.tbl)
    decreases fields, 3, |fields| - n
  {
    if n == |fields| {
      Ends(rest);
      assert Lowers(h[java])[n..] == [];
    } else {
      var first := Enc(h, fields[n], tbl);
      var others := EncSeq(h, fields[n + 1..], first.tbl);
      assert fields[n..][1..] == fields[n + 1..];
      Concat(first.b, others.b, rest);
      PeerField(g, h, h[java][n].kind, fields[n], tbl, others.b + rest);
      OnePeerField(g, h, java, fields, n, St(first.b + (others.b + rest), tbl), St(others.b + rest, first.tbl));
      FieldsInvert(g, h, java, fields, n + 1, first.tbl, rest);
    }
  }

  /** A struct field of each kind reads its value back through the method for that kind. */
  lemma PeerField(g: Schema, h: Schema, kind: Kind, v: Value, tbl: seq<ClassDef>, rest: bytes)
    requires Peers(g, h) && EncodableField(h, kind, v) && TableOK(h, tbl) && |Enc(h, v, tbl).tbl| <= 0x100
    ensures var o := Enc(h, v, tbl);
            && DecField(g, kind, Zero(kind), St(o.b + rest, tbl)) == Ret(Lay(g, h, Image(v)), None, St(rest, o.tbl))
            && TableOK(h, o.tbl)
    decreases v, 8
  {
    var o := Enc(h, v, tbl);
    Split(o.b, rest);
    match kind
    case StringKind => StringRoundTrip(v.s, rest);
    case Int32Kind => RoundTrip32By(false, v.i, rest);
    case Int64Kind => RoundTrip64By(false, v.l, rest);
    case BoolKind => PeerRoundTrip(g, h, v, tbl, rest);
    case MapKind(kt, vt) => PeerMapField(g, h, kt, vt, v.entries, tbl, rest);
    case SliceKind(t) => PeerSliceField(g, h, t, v.elems, tbl, rest);
    case StructKind(java) => PeerStructField(g, h, v, tbl, rest);
  }

  lemma PeerStructField(g: Schema, h: Schema, v: Value, tbl: seq<ClassDef>, rest: bytes)
    requires Peers(g, h) && v.Obj? && Encodable(h, v) && TableOK(h, tbl) && |Enc(h, v, tbl).tbl| <= 0x100
    ensures var o := Enc(h, v, tbl);
            && DecField(g, StructKind(v.java), ZeroStruct, St(o.b + rest, tbl)) == Ret(Lay(g, h, Image(v)), None, St(rest, o.tbl))
            && TableOK(h, o.tbl)
    decreases v, 7
  {
    PeerRoundTrip(g, h, v, tbl, rest);
    StructAhead(g, h, v, tbl, rest);
    StructTakes(g, v.java, St(Enc(h, v, tbl).b + rest, tbl));
    LayObject(g, h, Image(v));
  }

  lemma LayObject(g: Schema, h: Schema, v: Value)
    requires v.Obj?
    ensures Lay(g, h, v).Obj? && Lay(g, h, v).java == v.java
  {
  }

  lemma PeerSliceField(g: Schema, h: Schema, t: Elem, elems: seq<Value>, tbl: seq<ClassDef>, rest: bytes)
    requires Peers(g, h) && EncodableField(h, SliceKind(t), List(elems)) && TableOK(h, tbl) && |EncSeq(h, elems, tbl).tbl| <= 0x100
    ensures var o := Enc(h, List(elems), tbl);
            && DecField(g, SliceKind(t), List([]), St(o.b + rest, tbl)) == Ret(Lay(g, h, Image(List(elems))), None, St(rest, o.tbl))
            && TableOK(h, o.tbl)
    decreases elems, 7
  {
    var ws := LaySeq(g, h, Images(elems));
    PeerListAhead(g, h, elems, tbl, rest);
    forall v | v in ws ensures !v.Null? && Fits(v, t) {
      var i :| 0 <= i < |ws| && v == ws[i];
      SolidImage(elems[i], t);
      LayKind(g, h, Image(elems[i]), t);
    }
    SliceGiven(g, t, ws, St(Enc(h, List(elems), tbl).b + rest, tbl));
  }

  lemma PeerListAhead(g: Schema, h: Schema, elems: seq<Value>, tbl: seq<ClassDef>, rest: bytes)
    requires Peers(g, h) && Encodable(h, List(elems)) && TableOK(h, tbl) && |EncSeq(h, elems, tbl).tbl| <= 0x100
    ensures var s, o := Enc(h, List(elems), tbl).b + rest, EncSeq(h, elems, tbl);
            && s != [] && DecList(g, s[0], St(s[1..], tbl)) == Ret(List(LaySeq(g, h, Images(elems))), None, St(rest, o.tbl))
            && TableOK(h, o.tbl)
    decreases elems, 6
  {
    PeerList(g, h, elems, tbl, rest);
    Tagged(0x58, EncInt32(|elems|), EncSeq(h, elems, tbl).b, rest);
    Dispatch(g, Enc(h, List(elems), tbl).b + rest, tbl);
  }

  /** A map field reads back the entries whose values are not null; the others are deleted. */
  lemma PeerMapReads(g: Schema, h: Schema, kt: Elem, vt: Elem, entries: seq<Entry>, tbl: seq<ClassDef>, rest: bytes)
    requires Peers(g, h) && entries != [] && (forall i | 0 <= i < |entries| :: PairOK(h, kt, vt, entries[i])) && TableOK(h, tbl)
    requires |EncEntries(h, entries, tbl).tbl| <= 0x100
    ensures var o := Enc(h, Map(entries), tbl);
            && DecMapByValue(g, kt, vt, St(o.b + rest, tbl)) == Ret(Map(LayEntries(g, h, StoreAll([], entries))), None, St(rest, o.tbl))
            && TableOK(h, o.tbl)
    decreases entries, 5
  {
    TaggedMap(g, EncEntries(h, entries, tbl).b, rest, tbl);
    PairsInvert(g, h, kt, vt, entries, [], tbl, rest);
  }

  lemma PeerMapField(g: Schema, h: Schema, kt: Elem, vt: Elem, entries: seq<Entry>, tbl: seq<ClassDef>, rest: bytes)
    requires Peers(g, h) && EncodableField(h, MapKind(kt, vt), Map(entries)) && TableOK(h, tbl)
    requires |EncEntries(h, entries, tbl).tbl| <= 0x100
    ensures var o := Enc(h, Map(entries), tbl);
            && DecField(g, MapKind(kt, vt), Map([]), St(o.b + rest, tbl)) == Ret(Lay(g, h, Image(Map(entries))), None, St(rest, o.tbl))
            && TableOK(h, o.tbl)
    decreases entries, 6
  {
    PeerMapReads(g, h, kt, vt, entries, tbl, rest);
    StoreAllSolid([], entries);
  }

  /** The typed map's loop, which stops at the first key that decodes to nil, reads the same entries
      as the untyped one, which peeks for 'Z'. */
  lemma {:induction false} PairsInvert(g: Schema, h: Schema, kt: Elem, vt: Elem, es: seq<Entry>, m: seq<Entry>, tbl: seq<ClassDef>, rest: bytes)
    requires Peers(g, h) && forall i | 0 <= i < |es| :: PairOK(h, kt, vt, es[i])
    requires TableOK(h, tbl) && |EncEntries(h, es, tbl).tbl| <= 0x100
    ensures var o := EncEntries(h, es, tbl);
            && DecPairs(g, kt, vt, LayEntries(g, h, m), St(o.b + ([0x5a] + rest), tbl))
               == Ret(Map(LayEntries(g, h, StoreAll(m, es))), None, St(rest, o.tbl))
            && TableOK(h, o.tbl)
    decreases es, 4
  {
    var end := [0x5a] + rest;
    if es == [] {
      Ends(end);
      PairsEnd(g, kt, vt, LayEntries(g, h, m), rest, tbl);
    } else {
      var first := EncEntry(h, es[0], tbl);
      var others := EncEntries(h, es[1..], first.tbl);
      PairInverts(g, h, kt, vt, es[0], m, tbl, others.b + end);
      var m' := Store(m, ImageOfEntry(es[0]));
      assert StoreAll(m, es) == StoreAll(m', es[1..]);
      PairsInvert(g, h, kt, vt, es[1..], m', first.tbl, rest);
      Concat(first.b, others.b, end);
    }
  }

  lemma PairInverts(g: Schema, h: Schema, kt: Elem, vt: Elem, e: Entry, m: seq<Entry>, tbl: seq<ClassDef>, rest: bytes)
    requires Peers(g, h) && PairOK(h, kt, vt, e)
    requires TableOK(h, tbl) && |EncEntry(h, e, tbl).tbl| <= 0x100
    ensures var o := EncEntry(h, e, tbl);
            && DecPairs(g, kt, vt, LayEntries(g, h, m), St(o.b + rest, tbl))
               == DecPairs(g, kt, vt, LayEntries(g, h, Store(m, ImageOfEntry(e))), St(rest, o.tbl))
            && TableOK(h, o.tbl)
    decreases e, 7
  {
    var k, w := Enc(h, e.key, tbl), ImageOfEntry(e);
    var v := Enc(h, e.val, k.tbl);
    Concat(k.b, v.b, rest);
    PeerLeaf(g, h, e.key, tbl, v.b + rest);
    ScalarStays(g, h, e.key);
    PeerRoundTrip(g, h, e.val, k.tbl, rest);
    SolidImage(e.key, kt);
    if Solid(e.val) {
      SolidImage(e.val, vt);
    }
    LayKind(g, h, w.val, vt);
    LayStore(g, h, m, w);
    OnePair(g, kt, vt, LayEntries(g, h, m), St(k.b + (v.b + rest), tbl), LayEntry(g, h, w));
  }

  // ----- What it means for one object -----

  /** An object from a peer, field by field: under each wire name that the peer has too, the image of
      what it wrote under that name, wherever it listed it; under every other, the zero value. */
  lemma PeerObject(g: Schema, h: Schema, java: string, fields: seq<Value>, tbl: seq<ClassDef>, rest: bytes)
    requires Peers(g, h) && Encodable(h, Obj(java, fields)) && TableOK(h, tbl) && |Enc(h, Obj(java, fields), tbl).tbl| <= 0x100
    ensures var o := Enc(h, Obj(java, fields), tbl);
            var r := Decode(g, St(o.b + rest, tbl));
            && r.err == None && r.st == St(rest, o.tbl)
            && r.val.Obj? && r.val.java == java && |r.val.fields| == |g[java]|
            && (forall j, k | 0 <= j < |g[java]| && 0 <= k < |h[java]| && g[java][j].lower == h[java][k].lower ::
                  r.val.fields[j] == Lay(g, h, Image(fields[k])))
            && (forall j | 0 <= j < |g[java]| && (forall k | 0 <= k < |h[java]| :: h[java][k].lower != g[java][j].lower) ::
                  r.val.fields[j] == Zero(g[java][j].kind))
  {
    PeerRoundTrip(g, h, Obj(java, fields), tbl, rest);
    var typ, peer := g[java], h[java];
    forall j, k | 0 <= j < |typ| && 0 <= k < |peer| && typ[j].lower == peer[k].lower
      ensures WireIndex(peer, typ[j].lower) == k
    {
    }
  }

  /** A peer that lists two string fields the other way round: each gets its own. */
  lemma OtherOrder(java: string, a: Field, b: Field, x: string, y: string, rest: bytes)
    requires a.kind.StringKind? && b.kind.StringKind? && FieldNamesDistinct([a, b]) && FieldNamesDistinct([b, a])
    ensures var g, h := map[java := [a, b]], map[java := [b, a]];
            var o := Enc(h, Obj(java, [Str(y), Str(x)]), []);
            Decode(g, St(o.b + rest, [])) == Ret(Obj(java, [Str(x), Str(y)]), None, St(rest, [ClassDef(java, [b.lower, a.lower])]))
  {
    var g, h := map[java := [a, b]], map[java := [b, a]];
    var fields := [Str(y), Str(x)];
    SwappedPeers(java, a, b);
    OneNewClass(h, java, fields);
    assert forall i | 0 <= i < 2 :: EncodableField(h, h[java][i].kind, fields[i]);
    PeerObject(g, h, java, fields, [], rest);
    var r := Decode(g, St(Enc(h, Obj(java, fields), []).b + rest, []));
    assert g[java][0].lower == h[java][1].lower && g[java][1].lower == h[java][0].lower;
    assert r.val.fields == [Str(x), Str(y)];
  }

  lemma SwappedPeers(java: string, a: Field, b: Field)
    requires FieldNamesDistinct([a, b])
    ensures Peers(map[java := [a, b]], map[java := [b, a]])
  {
    assert SameField([a, b][0], a) && SameField([a, b][1], b);
    assert HasField([a, b], a) && HasField([a, b], b);
  }

  lemma OneNewClass(h: Schema, java: string, fields: seq<Value>)
    requires java in h && |fields| == 2 && fields[0].Str? && fields[1].Str? && |h[java]| == 2
    ensures Enc(h, Obj(java, fields), []).tbl == [ClassDef(java, [h[java][0].lower, h[java][1].lower])]
  {
    var def := DefOf(h, java);
    assert fields[1..] == [fields[1]] && fields[1..][1..] == [];
    assert EncSeq(h, fields[1..], [def]).tbl == [def];
    assert EncSeq(h, fields, [def]).tbl == [def];
    assert [] + [def] == [def];
    assert def.names == [h[java][0].lower, h[java][1].lower];
    assert Index([], java) == 0;
  }
}

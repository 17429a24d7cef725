/**
  * Decoding undoes encoding. For every encodable value, decoding its bytes followed by anything
  * yields the value's image, leaves exactly what followed, and leaves the decoder's class table
  * equal to the encoder's: the case of a peer with the decoder's own schema.
  */
module HessianRoundTrip {
  import opened GoBase
  import opened HessianInt
  import opened HessianString
  import opened HessianValue
  import opened HessianDecode
  import opened HessianLeaves
  import opened HessianPeer

  // ----- The decoder's own schema -----

  lemma OwnPeer(g: Schema)
    ensures Peers(g, g)
  {
    forall java, k | java in g && 0 <= k < |g[java]| ensures HasField(g[java], g[java][k]) {
      assert SameField(g[java][k], g[java][k]);
    }
  }

  /** Laying out with the same fields changes nothing. */
  lemma {:induction false} LaySame(g: Schema, v: Value)
    requires Encodable(g, v)
    ensures Lay(g, g, Image(v)) == Image(v)
    decreases v, 1
  {
    match v
    case List(elems) => LaySameSeq(g, elems);
    case Map(entries) => LaySamePutAll(g, [], entries);
    case Obj(java, fields) =>
      forall i | 0 <= i < |fields| ensures Encodable(g, fields[i]) {
        assert EncodableField(g, g[java][i].kind, fields[i]);
      }
      LaySameSeq(g, fields);
      OwnOrder(g[java], Images(fields));
    case _ =>
  }

  lemma LaySameSeq(g: Schema, vs: seq<Value>)
    requires forall i | 0 <= i < |vs| :: Encodable(g, vs[i])
    ensures LaySeq(g, g, Images(vs)) == Images(vs)
    decreases vs, 0
  {
    forall i | 0 <= i < |vs| ensures LaySeq(g, g, Images(vs))[i] == Images(vs)[i] {
      LaySame(g, vs[i]);
    }
  }

  lemma OwnOrder(typ: seq<Field>, vals: seq<Value>)
    requires |vals| == |typ| && FieldNamesDistinct(typ)
    ensures Rearranged(typ, typ, vals) == vals
  {
    forall j | 0 <= j < |typ| ensures Rearranged(typ, typ, vals)[j] == vals[j] {
      assert WireIndex(typ, typ[j].lower) == j;
    }
  }

  lemma LaySameEntry(g: Schema, e: Entry)
    requires Scalar(e.key) && Encodable(g, e.val)
    ensures LayEntry(g, g, ImageOfEntry(e)) == ImageOfEntry(e) && Scalar(ImageOfEntry(e).key)
    decreases e, 1
  {
    ScalarStays(g, g, e.key);
    LaySame(g, e.val);
  }

  lemma {:induction false} LaySamePutAll(g: Schema, m: seq<Entry>, es: seq<Entry>)
    requires LayEntries(g, g, m) == m && forall i | 0 <= i < |es| :: Scalar(es[i].key) && Encodable(g, es[i].val)
    ensures LayEntries(g, g, PutAll(m, es)) == PutAll(m, es)
    decreases es, 1
  {
    if es != [] {
      var w := ImageOfEntry(es[0]);
      LaySameEntry(g, es[0]);
      LayPut(g, g, m, w.key, w.val);
      LaySamePutAll(g, Put(m, w.key, w.val), es[1..]);
    }
  }

  lemma {:induction false} LaySameStoreAll(g: Schema, m: seq<Entry>, es: seq<Entry>)
    requires LayEntries(g, g, m) == m && forall i | 0 <= i < |es| :: Scalar(es[i].key) && Encodable(g, es[i].val)
    ensures LayEntries(g, g, StoreAll(m, es)) == StoreAll(m, es)
    decreases |es|
  {
    if es != [] {
      var w := ImageOfEntry(es[0]);
      LaySameEntry(g, es[0]);
      LayStore(g, g, m, w);
      LaySameStoreAll(g, Store(m, w), es[1..]);
    }
  }

  // ----- The round trip -----

  /** Encode then decode, for any value, any starting table and anything that follows: the value's
      image comes back, exactly what followed is left, and the two class tables stay equal. */
  lemma RoundTrip(g: Schema, v: Value, tbl: seq<ClassDef>, rest: bytes)
    requires Encodable(g, v) && TableOK(g, tbl) && |Enc(g, v, tbl).tbl| <= 0x100
    ensures Inverts(g, v, tbl, rest)
    ensures TableOK(g, Enc(g, v, tbl).tbl)
  {
    OwnPeer(g);
    PeerRoundTrip(g, g, v, tbl, rest);
    LaySame(g, v);
  }

  lemma ListInverts(g: Schema, elems: seq<Value>, tbl: seq<ClassDef>, rest: bytes)
    requires Encodable(g, List(elems)) && TableOK(g, tbl) && |EncSeq(g, elems, tbl).tbl| <= 0x100
    ensures Inverts(g, List(elems), tbl, rest)
    ensures TableOK(g, EncSeq(g, elems, tbl).tbl)
  {
    RoundTrip(g, List(elems), tbl, rest);
  }

  /** A struct field of each kind reads its value back through the method for that kind. */
  lemma FieldInverts(g: Schema, kind: Kind, v: Value, tbl: seq<ClassDef>, rest: bytes)
    requires EncodableField(g, kind, v) && TableOK(g, tbl) && |Enc(g, v, tbl).tbl| <= 0x100
    ensures var o := Enc(g, v, tbl);
            && DecField(g, kind, Zero(kind), St(o.b + rest, tbl)) == Ret(Image(v), None, St(rest, o.tbl))
            && TableOK(g, o.tbl)
  {
    OwnPeer(g);
    PeerField(g, g, kind, v, tbl, rest);
    LaySame(g, v);
  }

  lemma SliceFieldInverts(g: Schema, t: Elem, elems: seq<Value>, tbl: seq<ClassDef>, rest: bytes)
    requires EncodableField(g, SliceKind(t), List(elems)) && TableOK(g, tbl) && |EncSeq(g, elems, tbl).tbl| <= 0x100
    ensures var o := Enc(g, List(elems), tbl);
            && DecField(g, SliceKind(t), List([]), St(o.b + rest, tbl)) == Ret(Image(List(elems)), None, St(rest, o.tbl))
            && TableOK(g, o.tbl)
  {
    FieldInverts(g, SliceKind(t), List(elems), tbl, rest);
  }

  /** A map field reads back the entries whose values are not null; the others are deleted. */
  lemma MapFieldReads(g: Schema, kt: Elem, vt: Elem, entries: seq<Entry>, tbl: seq<ClassDef>, rest: bytes)
    requires entries != [] && (forall i | 0 <= i < |entries| :: PairOK(g, kt, vt, entries[i])) && TableOK(g, tbl)
    requires |EncEntries(g, entries, tbl).tbl| <= 0x100
    ensures var o := Enc(g, Map(entries), tbl);
            && DecMapByValue(g, kt, vt, St(o.b + rest, tbl)) == Ret(Map(StoreAll([], entries)), None, St(rest, o.tbl))
            && TableOK(g, o.tbl)
  {
    OwnPeer(g);
    PeerMapReads(g, g, kt, vt, entries, tbl, rest);
    LaySameStoreAll(g, [], entries);
  }

  // ----- An instance, field by field -----

  /** The field values once the first `j` fields have been read. */
  function Partial(g: Schema, java: string, fields: seq<Value>, j: nat): (vals: seq<Value>)
    requires java in g && j <= |fields| == |g[java]|
    ensures |vals| == |g[java]|
    ensures j < |fields| ==> vals[j] == Zero(g[java][j].kind)
  {
    Images(fields)[..j] + Zeros(g[java])[j..]
  }

  /** decInstance from the field at `k` on. */
  function FieldsFrom(g: Schema, java: string, k: nat, vals: seq<Value>, st: St): Ret
    requires java in g && |vals| == |g[java]| && k <= |vals|
  {
    DecFields(g, g[java], java, Lowers(g[java])[k..], vals, st)
  }

  /** One turn of its loop: it ends without an instance, or goes on with that field set. */
  lemma FieldTurn(g: Schema, java: string, k: nat, vals: seq<Value>, st: St)
    requires java in g && k < |vals| == |g[java]| && FieldNamesDistinct(g[java])
    ensures var d := DecField(g, g[java][k].kind, vals[k], st);
            var r := FieldsFrom(g, java, k, vals, st);
            if d.err == None then r == FieldsFrom(g, java, k + 1, vals[k := d.val], d.st) else r.err == None ==> r.val == Null
  {
    var typ := g[java];
    FindFieldExact(typ);
    assert Lowers(typ)[k..][0] == typ[k].lower && Lowers(typ)[k..][1..] == Lowers(typ)[k + 1..];
  }

  /** decInstance's loop reads one more field, found under its own wire name. */
  lemma OneField(g: Schema, java: string, fields: seq<Value>, j: nat, st: St, more: St)
    requires java in g && |fields| == |g[java]| && FieldNamesDistinct(g[java]) && j < |fields|
    requires DecField(g, g[java][j].kind, Zero(g[java][j].kind), st) == Ret(Image(fields[j]), None, more)
    ensures var typ := g[java];
            DecFields(g, typ, java, Lowers(typ)[j..], Partial(g, java, fields, j), st)
            == DecFields(g, typ, java, Lowers(typ)[j + 1..], Partial(g, java, fields, j + 1), more)
  {
    FieldTurn(g, java, j, Partial(g, java, fields, j), st);
    PartialStep(g, java, fields, j);
  }

  lemma PartialStep(g: Schema, java: string, fields: seq<Value>, j: nat)
    requires java in g && j < |fields| == |g[java]|
    ensures Partial(g, java, fields, j)[j := Image(fields[j])] == Partial(g, java, fields, j + 1)
  {
  }
}

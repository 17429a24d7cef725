/**
  * Go iterates maps in an order of its own choosing. The class table that a map leaves has the same
  * size in every order, and what the decoder makes of the map is the same if and only if keys that
  * collide on the wire carry equal values.
  */
module HessianOrder {
  import opened GoBase
  import opened HessianValue
  import opened HessianDecode
  import opened HessianLeaves
  import opened HessianRoundTrip
  import opened HessianFidelity
  import opened HessianInStep

  // ----- Class tables -----

  function Names(tbl: seq<ClassDef>): set<string> {
    set i | 0 <= i < |tbl| :: tbl[i].java
  }

  /** The classes of all structs inside. */
  function Classes(v: Value): set<string>
    decreases v, 1
  {
    match v
    case List(elems) => ClassesOfSeq(elems)
    case Map(entries) => ClassesOfEntries(entries)
    case Obj(java, fields) => {java} + ClassesOfSeq(fields)
    case _ => {}
  }

  function ClassesOfSeq(vs: seq<Value>): set<string>
    decreases vs, 0
  {
    if vs == [] then {} else Classes(vs[0]) + ClassesOfSeq(vs[1..])
  }

  function ClassesOfEntry(e: Entry): set<string>
    decreases e, 0
  {
    Classes(e.val)
  }

  function ClassesOfEntries(es: seq<Entry>): set<string>
    decreases es, 0
  {
    if es == [] then {} else ClassesOfEntry(es[0]) + ClassesOfEntries(es[1..])
  }

  /** Encoding a value adds exactly its classes to the table. */
  lemma {:induction false} NamesAfter(g: Schema, v: Value, tbl: seq<ClassDef>)
    requires Typed(g, v)
    ensures Names(Enc(g, v, tbl).tbl) == Names(tbl) + Classes(v)
    decreases v, 2
  {
    match v
    case List(elems) => NamesAfterSeq(g, elems, tbl);
    case Map(entries) =>
      if entries != [] {
        NamesAfterEntries(g, entries, tbl);
      }
    case Obj(java, fields) =>
      var i, def := Index(tbl, java), DefOf(g, java);
      if i < |tbl| {
        assert tbl[i].java in Names(tbl);
        NamesAfterSeq(g, fields, tbl);
      } else {
        NamesOfOneMore(tbl, def);
        NamesAfterSeq(g, fields, tbl + [def]);
      }
    case _ =>
  }

  lemma NamesOfOneMore(tbl: seq<ClassDef>, def: ClassDef)
    ensures Names(tbl + [def]) == Names(tbl) + {def.java}
  {
    var more := tbl + [def];
    forall c | c in Names(tbl) + {def.java} ensures c in Names(more) {
      if c in Names(tbl) {
        var i :| 0 <= i < |tbl| && tbl[i].java == c;
        assert more[i].java == c;
      } else {
        assert more[|tbl|].java == c;
      }
    }
  }

  lemma {:induction false} NamesAfterSeq(g: Schema, vs: seq<Value>, tbl: seq<ClassDef>)
    requires forall i | 0 <= i < |vs| :: Typed(g, vs[i])
    ensures Names(EncSeq(g, vs, tbl).tbl) == Names(tbl) + ClassesOfSeq(vs)
    decreases vs, 1
  {
    if vs != [] {
      NamesAfter(g, vs[0], tbl);
      NamesAfterSeq(g, vs[1..], Enc(g, vs[0], tbl).tbl);
    }
  }

  lemma NamesAfterEntry(g: Schema, e: Entry, tbl: seq<ClassDef>)
    requires Scalar(e.key) && Typed(g, e.val)
    ensures Names(EncEntry(g, e, tbl).tbl) == Names(tbl) + ClassesOfEntry(e)
    decreases e, 3
  {
    assert Enc(g, e.key, tbl).tbl == tbl;
    NamesAfter(g, e.val, tbl);
  }

  lemma {:induction false} NamesAfterEntries(g: Schema, es: seq<Entry>, tbl: seq<ClassDef>)
    requires forall i | 0 <= i < |es| :: Scalar(es[i].key) && Typed(g, es[i].val)
    ensures Names(EncEntries(g, es, tbl).tbl) == Names(tbl) + ClassesOfEntries(es)
    decreases es, 1
  {
    if es != [] {
      NamesAfterEntry(g, es[0], tbl);
      NamesAfterEntries(g, es[1..], EncEntry(g, es[0], tbl).tbl);
    }
  }

  lemma {:induction false} NamesCount(tbl: seq<ClassDef>)
    requires forall i, j | 0 <= i < j < |tbl| :: tbl[i].java != tbl[j].java
    ensures |Names(tbl)| == |tbl|
    decreases |tbl|
  {
    if tbl != [] {
      var n := |tbl| - 1;
      NamesCount(tbl[..n]);
      assert tbl == tbl[..n] + [tbl[n]];
      NamesOfOneMore(tbl[..n], tbl[n]);
      assert tbl[n].java !in Names(tbl[..n]);
    }
  }

  lemma {:induction false} ClassesOfEntriesExact(es: seq<Entry>, c: string)
    ensures c in ClassesOfEntries(es) <==> exists i :: 0 <= i < |es| && c in ClassesOfEntry(es[i])
    decreases |es|
  {
    if es != [] {
      ClassesOfEntriesExact(es[1..], c);
      if i :| 0 <= i < |es| && c in ClassesOfEntry(es[i]) {
        assert i > 0 ==> es[1..][i - 1] == es[i];
      }
      if i :| 0 <= i < |es| - 1 && c in ClassesOfEntry(es[1..][i]) {
        assert es[i + 1] == es[1..][i];
      }
    }
  }

  lemma SomeClasses(es: seq<Entry>, fs: seq<Entry>)
    requires multiset(fs) == multiset(es)
    ensures ClassesOfEntries(es) <= ClassesOfEntries(fs)
  {
    forall c | c in ClassesOfEntries(es) ensures c in ClassesOfEntries(fs) {
      ClassesOfEntriesExact(es, c);
      ClassesOfEntriesExact(fs, c);
      var i :| 0 <= i < |es| && c in ClassesOfEntry(es[i]);
      assert es[i] in multiset(es);
      assert es[i] in multiset(fs);
      var j :| 0 <= j < |fs| && fs[j] == es[i];
    }
  }

  lemma TableSizeIs(g: Schema, es: seq<Entry>, tbl: seq<ClassDef>)
    requires Typed(g, Map(es)) && TableOK(g, tbl)
    ensures |Enc(g, Map(es), tbl).tbl| == |Names(tbl) + ClassesOfEntries(es)|
  {
    NamesAfter(g, Map(es), tbl);
    TableStays(g, Map(es), tbl);
    NamesCount(Enc(g, Map(es), tbl).tbl);
  }

  /** In every order the table gets the same number of classes. */
  lemma TableSize(g: Schema, es: seq<Entry>, fs: seq<Entry>, tbl: seq<ClassDef>)
    requires Typed(g, Map(es)) && Typed(g, Map(fs)) && TableOK(g, tbl) && multiset(fs) == multiset(es)
    ensures |Enc(g, Map(fs), tbl).tbl| == |Enc(g, Map(es), tbl).tbl|
  {
    SomeClasses(es, fs);
    SomeClasses(fs, es);
    assert ClassesOfEntries(es) == ClassesOfEntries(fs);
    TableSizeIs(g, es, tbl);
    TableSizeIs(g, fs, tbl);
  }

  // ----- Orders -----

  lemma TwiceCounted(es: seq<Entry>, i: nat, j: nat)
    requires i < j < |es| && es[i] == es[j]
    ensures multiset(es)[es[i]] >= 2
  {
    assert es == es[..j] + es[j..];
    assert es[i] in multiset(es[..j]) && es[j] in multiset(es[j..]) by {
      assert es[..j][i] == es[i] && es[j..][0] == es[j];
    }
  }

  lemma {:induction false} OnceCounted(es: seq<Entry>, e: Entry)
    requires forall i, j | 0 <= i < j < |es| :: es[i].key != es[j].key
    ensures multiset(es)[e] <= 1
    decreases |es|
  {
    if es != [] {
      OnceCounted(es[1..], e);
      assert es == [es[0]] + es[1..];
      if e == es[0] {
        assert e !in es[1..];
      }
    }
  }

  /** A map is encodable in every order or in none. */
  lemma OrderEncodable(g: Schema, es: seq<Entry>, fs: seq<Entry>)
    requires Encodable(g, Map(es)) && multiset(fs) == multiset(es)
    ensures Encodable(g, Map(fs))
  {
    assert |multiset(fs)| == |fs| && |multiset(es)| == |es|;
    forall i | 0 <= i < |fs| ensures fs[i] in es && Scalar(fs[i].key) && Encodable(g, fs[i].val) {
      assert fs[i] in multiset(fs);
      assert fs[i] in multiset(es);
      var j :| 0 <= j < |es| && es[j] == fs[i];
    }
    forall i, j | 0 <= i < j < |fs| ensures fs[i].key != fs[j].key {
      if fs[i].key == fs[j].key {
        var k :| 0 <= k < |es| && es[k] == fs[i];
        var l :| 0 <= l < |es| && es[l] == fs[j];
        assert k == l;
        TwiceCounted(fs, i, j);
        OnceCounted(es, fs[i]);
      }
    }
  }

  lemma {:induction false} EncodableIsTyped(g: Schema, v: Value)
    requires Encodable(g, v)
    ensures Typed(g, v)
    decreases v, 0
  {
    match v
    case List(elems) =>
      forall i | 0 <= i < |elems| ensures Typed(g, elems[i]) {
        EncodableIsTyped(g, elems[i]);
      }
    case Map(entries) =>
      forall i | 0 <= i < |entries| ensures Typed(g, entries[i].val) {
        var e := entries[i];
        EncodableIsTyped(g, e.val);
      }
    case Obj(java, fields) =>
      forall i | 0 <= i < |fields| ensures TypedField(g, g[java][i].kind, fields[i]) {
        assert EncodableField(g, g[java][i].kind, fields[i]);
        EncodableIsTyped(g, fields[i]);
      }
    case _ =>
  }


  /** Both are maps, with the same entries. */
  ghost predicate SameMap(r: Ret, q: Ret) {
    r.err == None && q.err == None && r.val.Map? && q.val.Map? && forall e :: e in r.val.entries <==> e in q.val.entries
  }

  /** What the decoder returns for the order `es`. */
  function Decoded(g: Schema, es: seq<Entry>, tbl: seq<ClassDef>, rest: bytes): Ret {
    Decode(g, St(Enc(g, Map(es), tbl).b + rest, tbl))
  }

  lemma DecodedAs(g: Schema, es: seq<Entry>, fs: seq<Entry>, tbl: seq<ClassDef>, rest: bytes)
    requires Encodable(g, Map(es)) && TableOK(g, tbl) && |Enc(g, Map(es), tbl).tbl| <= 0x100
    requires multiset(fs) == multiset(es)
    ensures var r := Decoded(g, fs, tbl, rest);
            r.err == None && r.val == Map(PutAll([], fs)) && r.st.s == rest
  {
    OrderEncodable(g, es, fs);
    EncodableIsTyped(g, Map(es));
    EncodableIsTyped(g, Map(fs));
    TableSize(g, es, fs, tbl);
    RoundTrip(g, Map(fs), tbl, rest);
  }

  /** The decoder returns the same map for every order in which the encoder may go through it if and
      only if keys that collide on the wire carry equal values. */
  lemma OrderDecodes(g: Schema, es: seq<Entry>, tbl: seq<ClassDef>, rest: bytes)
    requires Encodable(g, Map(es)) && TableOK(g, tbl) && |Enc(g, Map(es), tbl).tbl| <= 0x100
    ensures (forall fs: seq<Entry> | multiset(fs) == multiset(es) ::
               SameMap(Decoded(g, fs, tbl, rest), Decoded(g, es, tbl, rest)))
       <==> MergesSafely(es)
  {
    OrderExact(es);
    DecodedAs(g, es, es, tbl, rest);
    if MergesSafely(es) {
      forall fs: seq<Entry> | multiset(fs) == multiset(es)
        ensures SameMap(Decoded(g, fs, tbl, rest), Decoded(g, es, tbl, rest))
      {
        DecodedAs(g, es, fs, tbl, rest);
      }
    } else {
      var fs: seq<Entry> :| multiset(fs) == multiset(es) && !(forall e :: e in PutAll([], fs) <==> e in PutAll([], es));
      DecodedAs(g, es, fs, tbl, rest);
      assert !SameMap(Decoded(g, fs, tbl, rest), Decoded(g, es, tbl, rest));
    }
  }
}

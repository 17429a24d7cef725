/**
  * When what comes back is what went in, when the order of a map's entries matters, when the two
  * map readers agree, and how the class tables of a long session stay in step.
  */
module HessianFidelity {
  import opened GoBase
  import opened HessianInt
  import opened HessianString
  import opened HessianValue
  import opened HessianDecode
  import opened HessianLeaves
  import opened HessianRoundTrip

  // ----- Exactly which values survive -----

  /** No compact negative integer and no empty binary data anywhere inside. */
  predicate Faithful(v: Value) {
    match v
    case Int32(i) => i >= 0 || i < -0x40000
    case Int64(l) => l >= 0 || l < -0x40000
    case Bin(data) => data != []
    case List(elems) => forall i | 0 <= i < |elems| :: Faithful(elems[i])
    case Map(entries) => forall i | 0 <= i < |entries| :: Faithful(entries[i].key) && Faithful(entries[i].val)
    case Obj(_, fields) => forall i | 0 <= i < |fields| :: Faithful(fields[i])
    case _ => true
  }

  function ImageEntries(es: seq<Entry>): (ws: seq<Entry>)
    ensures |ws| == |es|
    ensures forall i | 0 <= i < |es| :: ws[i] == ImageOfEntry(es[i])
  {
    if es == [] then [] else [ImageOfEntry(es[0])] + ImageEntries(es[1..])
  }

  predicate HasKey(m: seq<Entry>, k: Value) {
    exists i :: 0 <= i < |m| && m[i].key == k
  }

  predicate KeysDistinct(m: seq<Entry>) {
    forall i, j | 0 <= i < j < |m| :: m[i].key != m[j].key
  }

  lemma ScalarImage(k: Value)
    requires Scalar(k)
    ensures Scalar(Image(k)) && Faithful(Image(k)) && (Image(k) == k <==> Faithful(k))
  {
  }

  /** Keys that do not collide on the wire are appended one after the other. */
  lemma {:induction false} PutAllDistinct(m: seq<Entry>, es: seq<Entry>)
    requires KeysDistinct(m + ImageEntries(es))
    ensures PutAll(m, es) == m + ImageEntries(es)
    decreases |es|
  {
    if es == [] {
      Ends(m);
    } else {
      var w := ImageEntries(es);
      assert (m + w)[|m|] == w[0];
      forall i | 0 <= i < |m| ensures m[i].key != w[0].key {
        assert (m + w)[i] == m[i];
      }
      assert Put(m, w[0].key, w[0].val) == m + [w[0]];
      Shift(m, w);
      PutAllDistinct(m + [w[0]], es[1..]);
    }
  }

  /** Every key of a decoded map is the image of some encoded key. */
  lemma {:induction false} PutAllKeys(m: seq<Entry>, es: seq<Entry>, e: Entry)
    requires e in PutAll(m, es)
    ensures HasKey(m, e.key) || HasKey(ImageEntries(es), e.key)
    decreases |es|
  {
    if es == [] {
      var i :| 0 <= i < |m| && m[i] == e;
    } else {
      var w := ImageOfEntry(es[0]);
      PutAllKeys(Put(m, w.key, w.val), es[1..], e);
      if HasKey(ImageEntries(es[1..]), e.key) {
        var i :| 0 <= i < |es| - 1 && ImageEntries(es[1..])[i].key == e.key;
        assert ImageEntries(es)[i + 1].key == e.key;
      } else {
        assert HasKey(Put(m, w.key, w.val), e.key);
        assert ImageEntries(es)[0] == w;
      }
    }
  }

  /** A map is its own image exactly when all its keys and values are. */
  lemma MapFixed(es: seq<Entry>)
    requires KeysDistinct(es) && forall i | 0 <= i < |es| :: Scalar(es[i].key)
    ensures PutAll([], es) == es <==> forall i | 0 <= i < |es| :: Image(es[i].key) == es[i].key && Image(es[i].val) == es[i].val
  {
    var w := ImageEntries(es);
    if PutAll([], es) == es {
      forall i | 0 <= i < |es| ensures w[i].key == es[i].key {
        PutAllKeys([], es, es[i]);
        var j :| 0 <= j < |es| && w[j].key == es[i].key;
        ScalarImage(es[j].key);
        ScalarImage(es[i].key);
      }
      assert KeysDistinct([] + w);
      PutAllDistinct([], es);
      Ends(w);
    } else if forall i | 0 <= i < |es| :: w[i] == es[i] {
      assert w == es && KeysDistinct([] + w);
      PutAllDistinct([], es);
      Ends(w);
      assert false;
    }
  }

  /** The image of a value is the value itself exactly when it is faithful. */
  lemma {:induction false} ImageFixed(g: Schema, v: Value)
    requires Encodable(g, v)
    ensures Image(v) == v <==> Faithful(v)
    decreases v
  {
    match v
    case List(elems) => ImagesFixed(g, elems);
    case Obj(java, fields) => ImagesFixed(g, fields);
    case Map(entries) =>
      MapFixed(entries);
      forall i | 0 <= i < |entries|
        ensures Image(entries[i].key) == entries[i].key <==> Faithful(entries[i].key)
        ensures Image(entries[i].val) == entries[i].val <==> Faithful(entries[i].val)
      {
        var e := entries[i];
        ScalarImage(e.key);
        ImageFixed(g, e.val);
      }
    case _ =>
  }

  lemma ImagesFixed(g: Schema, vs: seq<Value>)
    requires forall i | 0 <= i < |vs| :: Encodable(g, vs[i])
    ensures Images(vs) == vs <==> forall i | 0 <= i < |vs| :: Faithful(vs[i])
    decreases vs
  {
    forall i | 0 <= i < |vs| ensures Image(vs[i]) == vs[i] <==> Faithful(vs[i]) {
      ImageFixed(g, vs[i]);
    }
  }

  /** The structured round trip, exactly: decoding an encoded value always succeeds, leaves exactly
      what followed it and leaves equal class tables, and it returns the value itself if and only if
      the value holds no compact negative integer and no empty binary data. */
  lemma RoundTripExact(g: Schema, v: Value, tbl: seq<ClassDef>, rest: bytes)
    requires Encodable(g, v) && TableOK(g, tbl) && |Enc(g, v, tbl).tbl| <= 0x100
    ensures var o := Enc(g, v, tbl);
            var r := Decode(g, St(o.b + rest, tbl));
            && r.err == None && r.st == St(rest, o.tbl)
            && (r.val == v <==> Faithful(v))
  {
    RoundTrip(g, v, tbl, rest);
    ImageFixed(g, v);
  }

  /** An empty map is written as nothing, so a list of one promises an element it does not have, and
      takes it from what follows, whatever that is. Alone it cannot be read. */
  lemma EmptyMapVanishes(g: Schema, rest: bytes)
    ensures Enc(g, Map([]), []).b == []
    ensures var d, r := Decode(g, St(rest, [])), Decode(g, St(Enc(g, List([Map([])]), []).b + rest, []));
            r == if d.err == None then Ret(List([d.val]), None, d.st) else Ret(Null, Trace(d.err), d.st)
    ensures rest == [] ==> Decode(g, St(Enc(g, List([Map([])]), []).b + rest, [])).err == Fail
  {
    NothingInside(g);
    TakesNext(g, rest);
  }

  lemma TakesNext(g: Schema, rest: bytes)
    ensures var d, r := Decode(g, St(rest, [])), Decode(g, St([0x58, 0x91] + rest, []));
            r == if d.err == None then Ret(List([d.val]), None, d.st) else Ret(Null, Trace(d.err), d.st)
  {
    var s := [0x58, 0x91] + rest;
    assert s[1..] == [0x91] + rest && s[1..][1..] == rest;
    Dispatch(g, s, []);
    assert ReadInt32([0x91] + rest) == Res(1, None, rest);
    OneElement(g, St(rest, []));
  }

  lemma OneElement(g: Schema, st: St)
    ensures var d := Decode(g, st);
            DecElems(g, 1, [], false, st) == if d.err == None then Ret(List([d.val]), None, d.st) else Ret(Null, Trace(d.err), d.st)
  {
    var d := Decode(g, st);
    if d.err == None {
      assert [] + [d.val] == [d.val];
    }
  }

  lemma NothingInside(g: Schema)
    ensures Enc(g, List([Map([])]), []).b == [0x58, 0x91]
  {
    assert EncSeq(g, [Map([])], []).b == [] by {
      assert [Map([])][1..] == [];
    }
    assert EncInt32(1) == [0x91];
  }

  // ----- Map iteration order -----

  /** Whether entries whose keys collide on the wire also agree on their values. */
  predicate MergesSafely(es: seq<Entry>) {
    var w := ImageEntries(es);
    forall i, j | 0 <= i < |w| && 0 <= j < |w| && w[i].key == w[j].key :: w[i].val == w[j].val
  }

  /** The value a decoded map holds at a key that was put last stays. */
  lemma PutLast(m: seq<Entry>, k: Value, v: Value)
    requires KeysDistinct(m) && Scalar(k)
    ensures KeysDistinct(Put(m, k, v))
    ensures forall e :: e in Put(m, k, v) <==> e == Entry(k, v) || (e in m && e.key != k)
  {
    var i, p := KeyIndex(m, k), Put(m, k, v);
    forall e ensures e in p <==> e == Entry(k, v) || (e in m && e.key != k) {
      if e in p {
        var j :| 0 <= j < |p| && p[j] == e;
      }
      if e in m && e.key != k {
        var j :| 0 <= j < |m| && m[j] == e;
        assert p[j] == e;
      }
      assert p[if i < |m| then i else |m|] == Entry(k, v);
    }
  }

  lemma {:induction false} PutAllLast(m: seq<Entry>, es: seq<Entry>, last: Entry)
    requires KeysDistinct(m) && Scalar(last.key) && forall i | 0 <= i < |es| :: Scalar(es[i].key)
    ensures KeysDistinct(PutAll(m, es))
    ensures forall e :: e in PutAll(m, es + [last]) && e.key == Image(last.key) ==> e == ImageOfEntry(last)
    ensures ImageOfEntry(last) in PutAll(m, es + [last])
    decreases |es|
  {
    var w := ImageOfEntry(if es == [] then last else es[0]);
    ScalarImage(if es == [] then last.key else es[0].key);
    PutLast(m, w.key, w.val);
    if es == [] {
      assert es + [last] == [last] && [last][1..] == [];
    } else {
      assert (es + [last])[0] == es[0] && (es + [last])[1..] == es[1..] + [last];
      PutAllLast(Put(m, w.key, w.val), es[1..], last);
    }
  }

  /** When collisions agree, a decoded map holds the images of the entries and nothing else. */
  lemma {:induction false} PutAllSafe(m: seq<Entry>, es: seq<Entry>)
    requires KeysDistinct(m) && forall i | 0 <= i < |es| :: Scalar(es[i].key)
    requires forall e, f | e in m + ImageEntries(es) && f in m + ImageEntries(es) && e.key == f.key :: e == f
    ensures forall e :: e in PutAll(m, es) <==> e in m || e in ImageEntries(es)
    decreases |es|
  {
    if es != [] {
      var w, p := ImageOfEntry(es[0]), Put(m, ImageOfEntry(es[0]).key, ImageOfEntry(es[0]).val);
      ScalarImage(es[0].key);
      PutLast(m, w.key, w.val);
      assert ImageEntries(es) == [w] + ImageEntries(es[1..]);
      forall e ensures e in p <==> e in m || e == w {
        assert w in m + ImageEntries(es);
        if e in m {
          assert e in m + ImageEntries(es);
        }
      }
      forall e ensures e in p + ImageEntries(es[1..]) <==> e in m + ImageEntries(es) {
      }
      PutAllSafe(p, es[1..]);
    }
  }

  lemma ImagesOfPermutation(es: seq<Entry>, fs: seq<Entry>)
    requires multiset(es) == multiset(fs)
    ensures forall e :: e in ImageEntries(es) ==> e in ImageEntries(fs)
  {
    forall e | e in ImageEntries(es) ensures e in ImageEntries(fs) {
      var i :| 0 <= i < |es| && ImageEntries(es)[i] == e;
      assert es[i] in multiset(es);
      assert es[i] in multiset(fs);
      var j :| 0 <= j < |fs| && fs[j] == es[i];
      assert ImageEntries(fs)[j] == e;
    }
  }

  /** `es` with the entry at `i` moved to the end. */
  function MovedLast(es: seq<Entry>, i: nat): (fs: seq<Entry>)
    requires i < |es|
    ensures multiset(fs) == multiset(es)
  {
    assert es == es[..i] + [es[i]] + es[i + 1..];
    es[..i] + es[i + 1..] + [es[i]]
  }

  lemma MovedLastWins(es: seq<Entry>, i: nat)
    requires i < |es| && forall k | 0 <= k < |es| :: Scalar(es[k].key)
    ensures var m, w := PutAll([], MovedLast(es, i)), ImageOfEntry(es[i]);
            w in m && forall e | e in m && e.key == w.key :: e == w
  {
    var fs := MovedLast(es, i);
    ScalarsOf(es, fs);
    PutAllLast([], fs[..|es| - 1], es[i]);
    assert fs[..|es| - 1] + [es[i]] == fs;
  }

  /** All iteration orders of a map decode to maps with the same entries if and only if keys that
      collide on the wire carry equal values. */
  lemma OrderExact(es: seq<Entry>)
    requires forall i | 0 <= i < |es| :: Scalar(es[i].key)
    ensures (forall fs: seq<Entry> | multiset(fs) == multiset(es) ::
               forall e :: e in PutAll([], fs) <==> e in PutAll([], es))
       <==> MergesSafely(es)
  {
    if MergesSafely(es) {
      forall fs: seq<Entry> | multiset(fs) == multiset(es)
        ensures forall e :: e in PutAll([], fs) <==> e in PutAll([], es)
      {
        SafeOrder(es, fs);
        SafeOrder(es, es);
      }
    } else {
      var w := ImageEntries(es);
      var i, j :| 0 <= i < |w| && 0 <= j < |w| && w[i].key == w[j].key && w[i].val != w[j].val;
      MovedLastWins(es, i);
      MovedLastWins(es, j);
      assert w[i] in PutAll([], MovedLast(es, i)) && w[i] !in PutAll([], MovedLast(es, j));
    }
  }

  lemma ScalarsOf(es: seq<Entry>, fs: seq<Entry>)
    requires multiset(es) == multiset(fs) && forall i | 0 <= i < |es| :: Scalar(es[i].key)
    ensures |fs| == |es| && forall i | 0 <= i < |fs| :: Scalar(fs[i].key)
  {
    assert |multiset(es)| == |es| && |multiset(fs)| == |fs|;
    forall i | 0 <= i < |fs| ensures Scalar(fs[i].key) {
      assert fs[i] in multiset(fs);
      assert fs[i] in multiset(es);
    }
  }

  lemma SafeOrder(es: seq<Entry>, fs: seq<Entry>)
    requires multiset(es) == multiset(fs) && MergesSafely(es)
    requires forall i | 0 <= i < |es| :: Scalar(es[i].key)
    ensures forall e :: e in PutAll([], fs) <==> e in ImageEntries(es)
  {
    ScalarsOf(es, fs);
    ImagesOfPermutation(es, fs);
    ImagesOfPermutation(fs, es);
    Ends(ImageEntries(fs));
    PutAllSafe([], fs);
  }

  // ----- The two map readers -----

  lemma StoreNotNull(m: seq<Entry>, e: Entry)
    requires forall i | 0 <= i < |m| :: !m[i].val.Null?
    ensures forall i | 0 <= i < |Store(m, e)| :: !Store(m, e)[i].val.Null?
  {
  }

  lemma {:induction false} StoreAllNotNull(m: seq<Entry>, es: seq<Entry>)
    requires forall i | 0 <= i < |m| :: !m[i].val.Null?
    ensures forall i | 0 <= i < |StoreAll(m, es)| :: !StoreAll(m, es)[i].val.Null?
    decreases |es|
  {
    if es != [] {
      var m' := Store(m, ImageOfEntry(es[0]));
      assert StoreAll(m, es) == StoreAll(m', es[1..]);
      StoreNotNull(m, ImageOfEntry(es[0]));
      StoreAllNotNull(m', es[1..]);
    }
  }

  predicate HasNull(m: seq<Entry>) {
    exists i :: 0 <= i < |m| && m[i].val.Null?
  }

  lemma NullIsKept(es: seq<Entry>, i: nat)
    requires PutAll([], es) == ImageEntries(es) && i < |es| && !Solid(es[i].val)
    ensures HasNull(PutAll([], es))
  {
    assert ImageEntries(es)[i] == ImageOfEntry(es[i]);
  }

  lemma NullIsDropped(es: seq<Entry>)
    ensures !HasNull(StoreAll([], es))
  {
    StoreAllNotNull([], es);
  }

  lemma PutAllFromEmpty(es: seq<Entry>)
    requires KeysDistinct(ImageEntries(es))
    ensures PutAll([], es) == ImageEntries(es)
  {
    Ends(ImageEntries(es));
    PutAllDistinct([], es);
  }

  lemma StoresAgreeExact(es: seq<Entry>)
    requires PutAll([], es) == ImageEntries(es)
    ensures StoreAll([], es) == PutAll([], es) <==> forall i | 0 <= i < |es| :: Solid(es[i].val)
  {
    if i :| 0 <= i < |es| && !Solid(es[i].val) {
      NullIsKept(es, i);
      NullIsDropped(es);
    } else {
      StoreAllSolid([], es);
    }
  }

  /** On an encoded map with non-null keys that do not collide, the reader of map fields returns what
      the untyped reader returns if and only if no value goes out as null. */
  lemma ReadersAgreeExact(g: Schema, es: seq<Entry>, tbl: seq<ClassDef>, rest: bytes)
    requires Encodable(g, Map(es)) && KeysDistinct(ImageEntries(es))
    requires forall i | 0 <= i < |es| :: !es[i].key.Null?
    requires TableOK(g, tbl) && |Enc(g, Map(es), tbl).tbl| <= 0x100
    ensures var st := St(Enc(g, Map(es), tbl).b + rest, tbl);
            DecMapByValue(g, AnyElem, AnyElem, st) == Decode(g, st) <==> forall i | 0 <= i < |es| :: Solid(es[i].val)
  {
    var o := Enc(g, Map(es), tbl);
    var st := St(o.b + rest, tbl);
    assert Decode(g, st) == Ret(Map(PutAll([], es)), None, St(rest, o.tbl)) by {
      RoundTrip(g, Map(es), tbl, rest);
    }
    assert DecMapByValue(g, AnyElem, AnyElem, st) == Ret(Map(StoreAll([], es)), None, St(rest, o.tbl)) by {
      MapFieldReads(g, AnyElem, AnyElem, es, tbl, rest);
    }
    PutAllFromEmpty(es);
    StoresAgreeExact(es);
  }

  /** Keys that collide on the wire are another matter: here a null value goes out and the readers
      agree, for the next entry takes its place with both. */
  lemma ReadersAgreeOnCollision(g: Schema, rest: bytes)
    ensures var es := [Entry(Int32(-0x10), Null), Entry(Int32(0xf0), Bool(true))];
            var st := St(Enc(g, Map(es), []).b + rest, []);
            !Solid(es[0].val) && DecMapByValue(g, AnyElem, AnyElem, st) == Decode(g, st)
  {
    var es := [Entry(Int32(-0x10), Null), Entry(Int32(0xf0), Bool(true))];
    BothReaders(g, es, rest);
    CollisionStores(es);
  }

  /** What the two readers make of a map of null or scalar values. */
  lemma BothReaders(g: Schema, es: seq<Entry>, rest: bytes)
    requires es != [] && forall i, j | 0 <= i < j < |es| :: es[i].key != es[j].key
    requires forall i | 0 <= i < |es| :: Scalar(es[i].key) && !es[i].key.Null? && Scalar(es[i].val)
    ensures var o := Enc(g, Map(es), []);
            var st := St(o.b + rest, []);
            && Decode(g, st) == Ret(Map(PutAll([], es)), None, St(rest, o.tbl))
            && DecMapByValue(g, AnyElem, AnyElem, st) == Ret(Map(StoreAll([], es)), None, St(rest, o.tbl))
  {
    NoNewClasses(g, es);
    RoundTrip(g, Map(es), [], rest);
    MapFieldReads(g, AnyElem, AnyElem, es, [], rest);
  }

  lemma {:induction false} NoNewClasses(g: Schema, es: seq<Entry>)
    requires forall i | 0 <= i < |es| :: Scalar(es[i].key) && Scalar(es[i].val)
    ensures EncEntries(g, es, []).tbl == []
    decreases |es|
  {
    if es != [] {
      assert EncEntry(g, es[0], []).tbl == [];
      NoNewClasses(g, es[1..]);
    }
  }

  lemma CollisionStores(es: seq<Entry>)
    requires es == [Entry(Int32(-0x10), Null), Entry(Int32(0xf0), Bool(true))]
    ensures StoreAll([], es) == PutAll([], es) == [Entry(Int32(0xf0), Bool(true))]
  {
    var v, w := Entry(Int32(0xf0), Null), Entry(Int32(0xf0), Bool(true));
    assert ImageOfEntry(es[0]) == v && ImageOfEntry(es[1]) == w;
    assert es[1..] == [es[1]] && es[1..][1..] == [];
    assert Put([], v.key, v.val) == [v] && Put([v], w.key, w.val) == [w] && Put([], w.key, w.val) == [w];
    assert PutAll([], es) == PutAll([v], es[1..]) && StoreAll([], es) == StoreAll([], es[1..]);
  }

  // ----- Class tables over a session -----

  /** Successive Decode calls on one decoder: the values so far, and the state reached. */
  function DecodeMany(g: Schema, n: nat, acc: seq<Value>, st: St): (r: (seq<Value>, Error, St))
    decreases n
  {
    if n == 0 then (acc, None, st)
    else
      var d := Decode(g, st);
      if d.err != None then (acc, d.err, d.st) else DecodeMany(g, n - 1, acc + [d.val], d.st)
  }

  lemma {:induction false} TablesGrow(g: Schema, vs: seq<Value>, k: nat, tbl: seq<ClassDef>)
    requires k <= |vs|
    ensures EncSeq(g, vs[..k], tbl).tbl <= EncSeq(g, vs, tbl).tbl
    decreases k
  {
    if k > 0 {
      assert vs[..k][1..] == vs[1..][..k - 1];
      TablesGrow(g, vs[1..], k - 1, Enc(g, vs[0], tbl).tbl);
    }
  }

  /** Values encoded one after the other by one encoder come back in order from one decoder, and
      after each of them the decoder's class table is the encoder's: every later class index names
      the same class on both sides. */
  lemma {:induction false} LockStep(g: Schema, vs: seq<Value>, k: nat, acc: seq<Value>, tbl: seq<ClassDef>, rest: bytes)
    requires k <= |vs| && forall i | 0 <= i < |vs| :: Encodable(g, vs[i])
    requires TableOK(g, tbl) && |EncSeq(g, vs, tbl).tbl| <= 0x100
    ensures var mid := EncSeq(g, vs[..k], tbl).tbl;
            && DecodeMany(g, k, acc, St(EncSeq(g, vs, tbl).b + rest, tbl))
               == (acc + Images(vs[..k]), None, St(EncSeq(g, vs[k..], mid).b + rest, mid))
            && TableOK(g, mid)
    decreases k
  {
    if k == 0 {
      assert vs[0..] == vs;
      Ends(acc);
    } else {
      var first := Enc(g, vs[0], tbl);
      var others := EncSeq(g, vs[1..], first.tbl);
      Concat(first.b, others.b, rest);
      RoundTrip(g, vs[0], tbl, others.b + rest);
      assert vs[..k][1..] == vs[1..][..k - 1] && vs[1..][k - 1..] == vs[k..];
      LockStep(g, vs[1..], k - 1, acc + [Image(vs[0])], first.tbl, rest);
      assert Images(vs[..k]) == [Image(vs[0])] + Images(vs[1..][..k - 1]);
      Concat(acc, [Image(vs[0])], Images(vs[1..][..k - 1]));
    }
  }
}

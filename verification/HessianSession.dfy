/**
  * A whole session: one Encoder object writing a run of values, one Decoder object reading them.
  */
module HessianSession {
  import opened GoBase
  import opened HessianValue
  import opened HessianDecode
  import opened HessianFidelity
  import opened HessianEncoder
  import opened HessianDecoder

  lemma EncodableIsRegistered(g: Schema, v: Value)
    requires Encodable(g, v)
    ensures Registered(g, v)
    decreases v
  {
    match v
    case List(elems) =>
      forall i | 0 <= i < |elems| ensures Registered(g, elems[i]) {
        EncodableIsRegistered(g, elems[i]);
      }
    case Map(entries) =>
      forall i | 0 <= i < |entries| ensures RegisteredEntry(g, entries[i]) {
        var e := entries[i];
        EncodableIsRegistered(g, e.val);
      }
    case Obj(java, fields) =>
      forall i | 0 <= i < |fields| ensures Registered(g, fields[i]) {
        EncodableIsRegistered(g, fields[i]);
      }
    case _ =>
  }

  /** Encoding a run of values with one encoder and decoding it with one decoder: every value's image
      comes back in order, the bytes that follow the run stay unread, and both objects end with the
      same class table. */
  method Transfer(g: Schema, vs: seq<Value>, trailing: bytes)
    returns (ws: seq<Value>, left: bytes, sent: seq<ClassDef>, received: seq<ClassDef>)
    requires forall i | 0 <= i < |vs| :: Encodable(g, vs[i])
    requires |EncSeq(g, vs, []).tbl| <= 0x100
    ensures ws == Images(vs) && left == trailing && sent == received
    ensures (forall i | 0 <= i < |vs| :: Faithful(vs[i])) <==> ws == vs
  {
    var e := new Encoder(g);
    forall i | 0 <= i < |vs| ensures Registered(g, vs[i]) {
      EncodableIsRegistered(g, vs[i]);
    }
    e.EncodeAll(vs);
    SessionEnd(g, vs, trailing);
    ghost var o := EncSeq(g, vs, []);
    assert e.buffer == o.b by { Ends(o.b); }
    var d := new Decoder(g, e.buffer + trailing);
    ws := ReadAll(d, |vs|);
    left, sent, received := d.unread, e.classInfoList, d.classInfoList;
    assert d.State() == St(trailing, sent);
    ImagesFixed(g, vs);
  }

  /** `n` successive Decode calls, none of which fails. */
  method ReadAll(d: Decoder, n: nat) returns (ws: seq<Value>)
    requires DecodeMany(d.schema, n, [], d.State()).1 == None
    modifies d
    ensures (ws, Error.None, d.State()) == DecodeMany(d.schema, n, [], old(d.State()))
  {
    ws := [];
    ghost var all, todo := DecodeMany(d.schema, n, [], d.State()), n;
    for i := 0 to n
      invariant todo == n - i
      invariant DecodeMany(d.schema, todo, ws, d.State()) == all
    {
      OneMore(d.schema, todo, ws, d.State());
      todo := todo - 1;
      var v, err := d.Decode();
      ws := ws + [v];
    }
  }

  lemma OneMore(g: Schema, n: nat, acc: seq<Value>, st: St)
    requires n > 0 && DecodeMany(g, n, acc, st).1 == None
    ensures var d := Decode(g, st);
            d.err == None && DecodeMany(g, n, acc, st) == DecodeMany(g, n - 1, acc + [d.val], d.st)
  {
  }

  lemma SessionEnd(g: Schema, vs: seq<Value>, trailing: bytes)
    requires forall i | 0 <= i < |vs| :: Encodable(g, vs[i])
    requires |EncSeq(g, vs, []).tbl| <= 0x100
    ensures var o := EncSeq(g, vs, []);
            DecodeMany(g, |vs|, [], St(o.b + trailing, [])) == (Images(vs), None, St(trailing, o.tbl))
  {
    LockStep(g, vs, |vs|, [], [], trailing);
    assert vs[..|vs|] == vs;
    Ends(Images(vs));
    Ends(trailing);
  }
}

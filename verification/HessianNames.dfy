/**
  * Instances of classes that were defined with any names in any order: a value goes to the field that
  * its wire name names.
  */
module HessianNames {
  import opened GoBase
  import opened HessianValue
  import opened HessianDecode
  import opened HessianLeaves

  /** The name belongs to no field. */
  predicate Unknown(typ: seq<Field>, name: string) {
    forall j | 0 <= j < |typ| :: typ[j].name != name && typ[j].lower != name
  }

  /** Reading under `names`, one after the other: a field's own reader turns state k into state k + 1
      and gives x[k]; for a name that belongs to no field nothing is read. */
  ghost predicate ReadsUnder(g: Schema, typ: seq<Field>, names: seq<string>, xs: seq<Value>, sts: seq<St>) {
    |xs| == |names| && |sts| == |names| + 1 && forall k | 0 <= k < |names| :: ReadsOne(g, typ, names[k], xs[k], sts[k], sts[k + 1])
  }

  ghost predicate ReadsOne(g: Schema, typ: seq<Field>, name: string, x: Value, st: St, more: St) {
    if Unknown(typ, name) then more == st
    else exists j :: 0 <= j < |typ| && typ[j].lower == name && DecField(g, typ[j].kind, Zero(typ[j].kind), st) == Ret(x, None, more)
  }

  function NameIndex(names: seq<string>, name: string): (k: nat)
    ensures k <= |names|
    ensures k < |names| ==> names[k] == name
    ensures forall i | 0 <= i < k :: names[i] != name
  {
    if names == [] then 0 else if names[0] == name then 0 else 1 + NameIndex(names[1..], name)
  }

  /** The fields once the first `n` names have been gone through. */
  function NamedSofar(typ: seq<Field>, names: seq<string>, xs: seq<Value>, n: nat): (vals: seq<Value>)
    requires |xs| == |names|
    ensures |vals| == |typ|
  {
    seq(|typ|, j requires 0 <= j < |typ| =>
      var k := NameIndex(names, typ[j].lower); if k < n && k < |xs| then xs[k] else Zero(typ[j].kind))
  }

  predicate NamesDistinct(names: seq<string>) {
    forall i, j | 0 <= i < j < |names| :: names[i] != names[j]
  }

  lemma PassedOver(g: Schema, java: string, typ: seq<Field>, names: seq<string>, vals: seq<Value>, st: St)
    requires names != [] && |vals| == |typ| && Unknown(typ, names[0])
    ensures DecFields(g, typ, java, names, vals, st) == DecFields(g, typ, java, names[1..], vals, st)
  {
    UnknownName(typ, names[0]);
  }

  lemma SetUnder(g: Schema, java: string, typ: seq<Field>, names: seq<string>, vals: seq<Value>, st: St, j: nat, x: Value, more: St)
    requires names != [] && j < |vals| == |typ| && FindField(typ, names[0]) == j
    requires DecField(g, typ[j].kind, vals[j], st) == Ret(x, None, more)
    ensures DecFields(g, typ, java, names, vals, st) == DecFields(g, typ, java, names[1..], vals[j := x], more)
  {
  }

  /** What ReadsUnder says of one name. */
  lemma ReadsAt(g: Schema, typ: seq<Field>, names: seq<string>, xs: seq<Value>, sts: seq<St>, n: nat) returns (known: bool, j: nat)
    requires ReadsUnder(g, typ, names, xs, sts) && n < |names|
    ensures !known ==> Unknown(typ, names[n]) && sts[n + 1] == sts[n]
    ensures known ==> j < |typ| && typ[j].lower == names[n]
                      && DecField(g, typ[j].kind, Zero(typ[j].kind), sts[n]) == Ret(xs[n], None, sts[n + 1])
  {
    known, j := !Unknown(typ, names[n]), 0;
    assert ReadsOne(g, typ, names[n], xs[n], sts[n], sts[n + 1]);
    if known {
      j :| 0 <= j < |typ| && typ[j].lower == names[n] && DecField(g, typ[j].kind, Zero(typ[j].kind), sts[n]) == Ret(xs[n], None, sts[n + 1]);
    }
  }

  lemma UnknownStep(typ: seq<Field>, names: seq<string>, xs: seq<Value>, n: nat)
    requires NamesDistinct(names) && |xs| == |names| && n < |names| && Unknown(typ, names[n])
    ensures NamedSofar(typ, names, xs, n) == NamedSofar(typ, names, xs, n + 1)
  {
    forall j | 0 <= j < |typ| ensures NameIndex(names, typ[j].lower) != n {
      NameIndexIs(names, typ[j].lower, n);
    }
  }

  lemma KnownStep(typ: seq<Field>, names: seq<string>, xs: seq<Value>, n: nat, j: nat)
    requires FieldNamesDistinct(typ) && NamesDistinct(names) && |xs| == |names| && n < |names|
    requires j < |typ| && typ[j].lower == names[n]
    ensures FindField(typ, names[n]) == j
    ensures NamedSofar(typ, names, xs, n)[j] == Zero(typ[j].kind)
    ensures NamedSofar(typ, names, xs, n)[j := xs[n]] == NamedSofar(typ, names, xs, n + 1)
  {
    FindFieldExact(typ);
    forall i | 0 <= i < |typ| ensures NameIndex(names, typ[i].lower) == n <==> typ[i].lower == names[n] {
      NameIndexIs(names, typ[i].lower, n);
    }
    NameSet(typ, names, xs, n, j);
  }

  lemma OneMoreName(g: Schema, java: string, typ: seq<Field>, names: seq<string>, xs: seq<Value>, sts: seq<St>, n: nat)
    requires FieldNamesDistinct(typ) && NamesDistinct(names) && ReadsUnder(g, typ, names, xs, sts) && n < |names|
    ensures DecFields(g, typ, java, names[n..], NamedSofar(typ, names, xs, n), sts[n])
         == DecFields(g, typ, java, names[n + 1..], NamedSofar(typ, names, xs, n + 1), sts[n + 1])
  {
    var known, j := ReadsAt(g, typ, names, xs, sts, n);
    OneTurn(g, java, typ, names, xs, n, known, j, sts[n], sts[n + 1]);
  }

  lemma OneTurn(g: Schema, java: string, typ: seq<Field>, names: seq<string>, xs: seq<Value>, n: nat, known: bool, j: nat, st: St, more: St)
    requires FieldNamesDistinct(typ) && NamesDistinct(names) && |xs| == |names| && n < |names|
    requires !known ==> Unknown(typ, names[n]) && more == st
    requires known ==> j < |typ| && typ[j].lower == names[n] && DecField(g, typ[j].kind, Zero(typ[j].kind), st) == Ret(xs[n], None, more)
    ensures DecFields(g, typ, java, names[n..], NamedSofar(typ, names, xs, n), st)
         == DecFields(g, typ, java, names[n + 1..], NamedSofar(typ, names, xs, n + 1), more)
  {
    assert names[n..][0] == names[n] && names[n..][1..] == names[n + 1..];
    var vals := NamedSofar(typ, names, xs, n);
    if known {
      KnownStep(typ, names, xs, n, j);
      SetUnder(g, java, typ, names[n..], vals, st, j, xs[n], more);
    } else {
      UnknownStep(typ, names, xs, n);
      PassedOver(g, java, typ, names[n..], vals, st);
    }
  }

  lemma NameIndexIs(names: seq<string>, name: string, n: nat)
    requires NamesDistinct(names) && n < |names|
    ensures NameIndex(names, name) == n <==> name == names[n]
  {
  }

  lemma UnknownName(typ: seq<Field>, name: string)
    requires Unknown(typ, name)
    ensures FindField(typ, name) == |typ|
  {
  }

  lemma NameSet(typ: seq<Field>, names: seq<string>, xs: seq<Value>, n: nat, j: nat)
    requires |xs| == |names| && n < |names| && j < |typ| && FieldNamesDistinct(typ) && typ[j].lower == names[n]
    requires forall i | 0 <= i < |typ| :: NameIndex(names, typ[i].lower) == n <==> typ[i].lower == names[n]
    ensures NamedSofar(typ, names, xs, n)[j] == Zero(typ[j].kind)
    ensures NamedSofar(typ, names, xs, n)[j := xs[n]] == NamedSofar(typ, names, xs, n + 1)
  {
    forall i | 0 <= i < |typ| && i != j ensures typ[i].lower != names[n] {
    }
  }

  lemma {:induction false} NamesRead(g: Schema, java: string, typ: seq<Field>, names: seq<string>, xs: seq<Value>, sts: seq<St>, n: nat)
    requires FieldNamesDistinct(typ) && NamesDistinct(names) && ReadsUnder(g, typ, names, xs, sts) && n <= |names|
    ensures DecFields(g, typ, java, names[n..], NamedSofar(typ, names, xs, n), sts[n])
         == Ret(Obj(java, NamedSofar(typ, names, xs, |names|)), None, sts[|names|])
    decreases |names| - n
  {
    if n < |names| {
      OneMoreName(g, java, typ, names, xs, sts, n);
      NamesRead(g, java, typ, names, xs, sts, n + 1);
    } else {
      assert names[n..] == [];
    }
  }

  /** An instance of a class defined with any distinct names, in any order: the field with the wire name
      gets what was read under that name, every other field keeps its zero value, and a name that belongs
      to no field is passed over with nothing read. */
  lemma InstanceByName(g: Schema, names: seq<string>, xs: seq<Value>, sts: seq<St>, i: nat)
    requires i < 0x100 && |sts| > 0 && i < |sts[0].cls| && sts[0].cls[i].names == names && sts[0].cls[i].java in g
    requires var typ := g[sts[0].cls[i].java];
             FieldNamesDistinct(typ) && NamesDistinct(names) && ReadsUnder(g, typ, names, xs, sts)
    ensures var java := sts[0].cls[i].java;
            var typ := g[java];
            var r := Decode(g, St(ObjectHeader(i) + sts[0].s, sts[0].cls));
            && r.err == None && r.st == sts[|names|] && r.val.Obj? && r.val.java == java && |r.val.fields| == |typ|
            && (forall j, k | 0 <= j < |typ| && 0 <= k < |names| && typ[j].lower == names[k] :: r.val.fields[j] == xs[k])
            && (forall j | 0 <= j < |typ| && typ[j].lower !in names :: r.val.fields[j] == Zero(typ[j].kind))
  {
    var java := sts[0].cls[i].java;
    var typ := g[java];
    HeaderInverts(g, i, sts[0]);
    Dispatch(g, ObjectHeader(i) + sts[0].s, sts[0].cls);
    assert names[0..] == names;
    assert NamedSofar(typ, names, xs, 0) == Zeros(typ);
    NamesRead(g, java, typ, names, xs, sts, 0);
    forall j, k | 0 <= j < |typ| && 0 <= k < |names| && typ[j].lower == names[k]
      ensures NamedSofar(typ, names, xs, |names|)[j] == xs[k]
    {
      NameIndexIs(names, typ[j].lower, k);
    }
  }

  /** The zero values. */
  lemma ZeroValues(kt: Elem, vt: Elem, java: string)
    ensures Zero(StringKind) == Str("") && Zero(Int32Kind) == Int32(0) && Zero(Int64Kind) == Int64(0)
    ensures Zero(BoolKind) == Bool(false) && Zero(MapKind(kt, vt)) == Map([]) && Zero(SliceKind(vt)) == List([])
    ensures Zero(StructKind(java)) == ZeroStruct
  {
  }
}

/**
  * What each method of the Hessian decoder returns and where it leaves the input (decode.go), as
  * functions of the unread bytes and the class table. They are total: decoding ends on every byte
  * string, well formed or not, with the unread bytes as the measure of its mutual recursion.
  */
module HessianDecode {
  import opened GoBase
  import opened HessianInt
  import opened HessianString
  import opened HessianBinary
  import opened HessianValue

  /** The decoder's mutable state: unread bytes and class definitions seen so far. */
  datatype St = St(s: bytes, cls: seq<ClassDef>)

  /** The (interface{}, error) pair of a decoding method, with the state it leaves. */
  datatype Ret = Ret(val: Value, err: Error, st: St)

  predicate IsUntypedListTag(tag: byte) {
    0x78 <= tag <= 0x7f || tag == 0x58 || tag == 0x57
  }

  predicate IsTypedListTag(tag: byte) {
    0x70 <= tag <= 0x77 || tag == 0x56 || tag == 0x55
  }

  predicate IsObjectTag(tag: byte) {
    tag == 0x43 || tag == 0x4f || 0x60 <= tag <= 0x6f
  }

  /** Dates, doubles, typed maps and references. */
  predicate IsUnmodelledTag(tag: byte) {
    tag == 0x4a || tag == 0x4b || 0x5b <= tag <= 0x5f || tag == 0x44 || tag == 0x4d || tag == 0x51
  }

  function Decode(g: Schema, st: St): (r: Ret)
    ensures |r.st.s| <= |st.s|
    ensures st.s == [] ==> r.err == EOF
    ensures st.s != [] ==> |r.st.s| < |st.s|
    decreases |st.s|, 3
  {
    if st.s == [] then Ret(Null, EOF, st)
    else
      var tag, t := st.s[0], St(st.s[1..], st.cls);
      if tag == 0x5a || tag == 0x4e then Ret(Null, None, t)
      else if tag == 0x54 then Ret(Bool(true), None, t)
      else if tag == 0x46 then Ret(Bool(false), None, t)
      else if IsInt32Tag(tag) then
        var r := DecInt32(tag, t.s);
        Ret(Int32(r.val), r.err, St(r.rest, st.cls))
      else if IsInt64Tag(tag) then
        var r := DecInt64(tag, t.s);
        Ret(Int64(r.val), r.err, St(r.rest, st.cls))
      else if IsStringTag(tag) then
        var r := DecString(tag, t.s);
        Ret(Str(r.val), r.err, St(r.rest, st.cls))
      else if IsBinaryTag(tag) then
        var r := DecBinary(tag, t.s);
        Ret(Bin(r.val), r.err, St(r.rest, st.cls))
      else if IsUntypedListTag(tag) || IsTypedListTag(tag) then DecList(g, tag, t)
      else if tag == 0x48 then DecMap(g, [], t)
      else if IsObjectTag(tag) then DecObject(g, tag, t)
      else if IsUnmodelledTag(tag) then Ret(Null, Unmodelled, t)
      else Ret(Null, Fail, t)
  }

  /** decList after its tag. `make` panics on a negative length. */
  function DecList(g: Schema, tag: byte, st: St): (r: Ret)
    ensures |r.st.s| <= |st.s|
    ensures r.err != EOF
    ensures r.err == None ==> r.val.List?
    decreases |st.s|, 5
  {
    if IsTypedListTag(tag) then Ret(Null, Unmodelled, st)
    else if 0x78 <= tag <= 0x7f then DecElems(g, tag - 0x78, [], false, st)
    else if tag == 0x58 || tag == 0x57 then
      var n := ReadInt32(st.s);
      if n.err != None then Ret(Null, Fail, St(n.rest, st.cls))
      else if n.val < 0 then Ret(Null, Panic, St(n.rest, st.cls))
      else DecElems(g, n.val, [], tag == 0x57, St(n.rest, st.cls))
    else Ret(Null, Fail, st)
  }

  /** The element loop of decList; a variable-length list drops one more byte at its end. */
  function DecElems(g: Schema, n: nat, acc: seq<Value>, variable: bool, st: St): (r: Ret)
    ensures |r.st.s| <= |st.s|
    ensures r.err != EOF
    ensures r.err == None ==> r.val.List?
    decreases |st.s|, 4, n
  {
    if n == 0 then Ret(List(acc), None, if variable then St(Tail(st.s), st.cls) else st)
    else
      var r := Decode(g, st);
      if r.err != None then Ret(Null, Trace(r.err), r.st)
      else DecElems(g, n - 1, acc + [r.val], variable, r.st)
  }

  predicate Hashable(v: Value) {
    !v.List? && !v.Map? && !v.Bin?
  }

  /** The loop of decMap over an untyped map: it peeks for the terminator, and peeking at the end of
      input panics. */
  function DecMap(g: Schema, m: seq<Entry>, st: St): (r: Ret)
    ensures |r.st.s| <= |st.s|
    decreases |st.s|, 4
  {
    if st.s == [] then Ret(Null, Panic, st)
    else if st.s[0] == 0x5a then Ret(Map(m), None, St(st.s[1..], st.cls))
    else
      var k := Decode(g, st);
      if k.err == EOF then Ret(Map(m), None, St(Tail(k.st.s), k.st.cls))
      else if k.err != None then Ret(Null, k.err, k.st)
      else
        var v := Decode(g, k.st);
        if v.err != None then Ret(Null, v.err, v.st)
        else if !Hashable(k.val) then Ret(Null, Panic, v.st)
        else DecMap(g, Put(m, k.val, v.val), v.st)
  }

  /** decMapByValue: fills a map field whose static key and element types are `kt` and `vt`. */
  function DecMapByValue(g: Schema, kt: Elem, vt: Elem, st: St): (r: Ret)
    ensures |r.st.s| <= |st.s|
    decreases |st.s|, 5
  {
    var tag, t := Head(st.s), St(Tail(st.s), st.cls);
    if tag == 0x4d then
      var name := ReadString(t.s);
      if name.err == Panic || name.err == Unmodelled then Ret(Null, name.err, St(name.rest, st.cls))
      else DecPairs(g, kt, vt, [], St(name.rest, st.cls))
    else if tag == 0x48 then DecPairs(g, kt, vt, [], t)
    else Ret(Null, Fail, t)
  }

  /** The loop of decMapByValue: it ends when a key decodes to nil, and ignores a value's error. */
  function DecPairs(g: Schema, kt: Elem, vt: Elem, m: seq<Entry>, st: St): (r: Ret)
    ensures |r.st.s| <= |st.s|
    decreases |st.s|, 4
  {
    var k := Decode(g, st);
    if k.err == EOF then Ret(Map(m), None, k.st)
    else if k.err != None then Ret(Null, k.err, k.st)
    else if k.val.Null? then Ret(Map(m), None, k.st)
    else
      var v := Decode(g, k.st);
      if v.err == Panic || v.err == Unmodelled then Ret(Null, v.err, v.st)
      else if !Fits(k.val, kt) || !Hashable(k.val) then Ret(Null, Panic, v.st)
      // reflect's SetMapIndex with the zero Value deletes the key
      else if v.val.Null? then DecPairs(g, kt, vt, Delete(m, k.val), v.st)
      else if !Fits(v.val, vt) then Ret(Null, Panic, v.st)
      else DecPairs(g, kt, vt, Put(m, k.val, v.val), v.st)
  }

  /** decClassDef. Names missing at the end of input read as empty strings. */
  function DecClassDef(s: bytes): (r: Res<ClassDef>)
    ensures |r.rest| <= |s|
    ensures r.err != EOF
  {
    var none := ClassDef("", []);
    var java := ReadString(s);
    if java.err != None then Res(none, java.err, java.rest)
    else
      var n := ReadInt32(java.rest);
      if n.err != None then Res(none, n.err, n.rest)
      else if n.val < 0 then Res(none, Panic, n.rest)
      else
        var names := DecNames(n.val, [], n.rest);
        if names.err != None then Res(none, names.err, names.rest)
        else Res(ClassDef(java.val, names.val), None, names.rest)
  }

  function DecNames(n: nat, acc: seq<string>, s: bytes): (r: Res<seq<string>>)
    ensures |r.rest| <= |s|
    ensures r.err != EOF
    decreases n
  {
    if n == 0 then Res(acc, None, s)
    else
      var name := ReadString(s);
      if name.err != None then Res([], name.err, name.rest)
      else DecNames(n - 1, acc + [name.val], name.rest)
  }

  /** decObject after its tag. A class definition is stored and decoding starts over. */
  function DecObject(g: Schema, tag: byte, st: St): (r: Ret)
    ensures |r.st.s| <= |st.s|
    decreases |st.s|, 9
  {
    if tag == 0x43 then
      var def := DecClassDef(st.s);
      if def.err != None then Ret(Null, def.err, St(def.rest, st.cls))
      else Decode(g, St(def.rest, st.cls + [def.val]))
    else if tag == 0x4f then
      var i := ReadInt32(st.s);
      if i.err != None then Ret(Null, i.err, St(i.rest, st.cls))
      else DecInstance(g, i.val, St(i.rest, st.cls))
    else if 0x60 <= tag <= 0x6f then DecInstance(g, tag - 0x60, st)
    else Ret(Null, Fail, st)
  }

  /** getStructDefByIndex followed by decInstance. */
  function DecInstance(g: Schema, idx: int, st: St): (r: Ret)
    ensures |r.st.s| <= |st.s|
    decreases |st.s|, 8
  {
    if !(0 <= idx < |st.cls|) || st.cls[idx].java !in g then Ret(Null, Fail, st)
    else
      var def := st.cls[idx];
      DecFields(g, g[def.java], def.java, def.names, Zeros(g[def.java]), st)
  }

  function Zero(kind: Kind): Value {
    match kind
    case StringKind => Str("")
    case Int32Kind => Int32(0)
    case Int64Kind => Int64(0)
    case BoolKind => Bool(false)
    case MapKind(_, _) => Map([])
    case SliceKind(_) => List([])
    case _ => ZeroStruct
  }

  function Zeros(typ: seq<Field>): (vs: seq<Value>)
    ensures |vs| == |typ|
    ensures forall i | 0 <= i < |typ| :: vs[i] == Zero(typ[i].kind)
  {
    seq(|typ|, i requires 0 <= i < |typ| => Zero(typ[i].kind))
  }

  /** findField: the first field whose Go name, or its lower-case form, is the wire name. */
  function FindField(typ: seq<Field>, name: string): (i: nat)
    ensures i <= |typ|
    ensures i < |typ| ==> name == typ[i].name || name == typ[i].lower
    ensures forall j | 0 <= j < i :: name != typ[j].name && name != typ[j].lower
  {
    if typ == [] then 0
    else if name == typ[0].name || name == typ[0].lower then 0
    else 1 + FindField(typ[1..], name)
  }

  /** The loop of decInstance over the wire field names; unknown names are skipped without reading
      anything. A failing slice returns the wrong (nil) error variable, so the instance comes back
      as nil without an error. */
  function DecFields(g: Schema, typ: seq<Field>, java: string, names: seq<string>, vals: seq<Value>, st: St): (r: Ret)
    requires |vals| == |typ|
    ensures |r.st.s| <= |st.s|
    decreases |st.s|, 7, |names|
  {
    if names == [] then Ret(Obj(java, vals), None, st)
    else
      var j := FindField(typ, names[0]);
      if j == |typ| then DecFields(g, typ, java, names[1..], vals, st)
      else
        var r := DecField(g, typ[j].kind, vals[j], st);
        if r.err == None then DecFields(g, typ, java, names[1..], vals[j := r.val], r.st)
        else if r.err == Fail && typ[j].kind.SliceKind? then Ret(Null, None, r.st)
        else Ret(Null, r.err, r.st)
  }

  /** One field of decInstance: its new value, given the value it holds. */
  function DecField(g: Schema, kind: Kind, cur: Value, st: St): (r: Ret)
    ensures |r.st.s| <= |st.s|
    decreases |st.s|, 6
  {
    match kind
    case StringKind =>
      var r := ReadString(st.s);
      Ret(Str(r.val), r.err, St(r.rest, st.cls))
    case Int32Kind =>
      var r := ReadInt32(st.s);
      Ret(Int32(r.val), r.err, St(r.rest, st.cls))
    case Int64Kind =>
      var r := ReadInt64(st.s);
      Ret(Int64(r.val), r.err, St(r.rest, st.cls))
    case BoolKind =>
      var r := Decode(g, st);
      if r.err != None then Ret(cur, Trace(r.err), r.st)
      else if !r.val.Bool? then Ret(cur, Panic, r.st)
      else r
    case MapKind(kt, vt) =>
      // the error is dropped and the field keeps its value
      var r := DecMapByValue(g, kt, vt, st);
      if r.err == Panic || r.err == Unmodelled then Ret(cur, r.err, r.st)
      else if r.err != None then Ret(cur, None, r.st)
      else r
    case SliceKind(t) =>
      if st.s == [] then Ret(cur, Fail, st)
      else
        var r := DecList(g, st.s[0], St(st.s[1..], st.cls));
        if r.err != None then Ret(cur, r.err, r.st)
        else if r.val.elems == [] then Ret(cur, None, r.st)
        // reflect's Set panics on nil elements and on elements of another type
        else if exists v | v in r.val.elems :: v.Null? || !Fits(v, t) then Ret(cur, Panic, r.st)
        else r
    case StructKind(java) =>
      if st.s == [] then Ret(cur, Fail, st)
      else
        var r := DecObject(g, st.s[0], St(st.s[1..], st.cls));
        if r.err != None then Ret(cur, Trace(r.err), r.st)
        else if r.val.Null? then Ret(cur, None, r.st)
        else if !r.val.Obj? || r.val.java != java then Ret(cur, Panic, r.st)
        else r
    case FloatOrTimeKind => Ret(cur, Unmodelled, st)
    case OtherKind => Ret(cur, Fail, st)
  }
}

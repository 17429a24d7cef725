/**
  * Go values as the Hessian encoder sees them, and what Encoder.Encode writes for them
  * (encode.go). Struct reflection is replaced by a schema: an ordered list of typed fields for
  * each Java class name.
  */
module HessianValue {
  import opened GoBase
  import opened HessianInt
  import opened HessianString
  import opened HessianBinary

  /** A Go value. A map is listed in the order in which the Go runtime happens to iterate it, so a
      statement about every entry list is a statement about every iteration order. `Int64` also
      stands for Go's `int`. `ZeroStruct` is a struct-typed field still at its Go zero value. */
  datatype Value =
    | Null
    | Bool(b: bool)
    | Int32(i: int32)
    | Int64(l: int64)
    | Str(s: string)
    | Bin(data: bytes)
    | List(elems: seq<Value>)
    | Map(entries: seq<Entry>)
    | Obj(java: string, fields: seq<Value>)
    | ZeroStruct

  datatype Entry = Entry(key: Value, val: Value)

  /** The static element type of a Go slice or map. `AnyElem` is `interface{}`; `OtherElem` is a
      type no decoded value has, such as `int` or a struct. */
  datatype Elem = AnyElem | BoolElem | Int32Elem | Int64Elem | StringElem | BytesElem | ListElem | MapElem | OtherElem

  /** The reflect.Kind of a struct field as decInstance distinguishes them. */
  datatype Kind =
    | StringKind
    | Int32Kind
    | Int64Kind
    | BoolKind
    | MapKind(key: Elem, val: Elem)
    | SliceKind(elem: Elem)
    | StructKind(java: string)
    | FloatOrTimeKind
    | OtherKind

  /** An exported struct field: its Go name, `strings.ToLower` of that name, and its kind. */
  datatype Field = Field(name: string, lower: string, kind: Kind)

  /** The registered struct type of each Java class name. */
  type Schema = map<string, seq<Field>>

  /** A class definition as both sides store it: the Java name and the wire field names. */
  datatype ClassDef = ClassDef(java: string, names: seq<string>)

  function Lowers(fields: seq<Field>): (ns: seq<string>)
    ensures |ns| == |fields|
    ensures forall i | 0 <= i < |fields| :: ns[i] == fields[i].lower
  {
    seq(|fields|, i requires 0 <= i < |fields| => fields[i].lower)
  }

  function DefOf(g: Schema, java: string): ClassDef {
    ClassDef(java, if java in g then Lowers(g[java]) else [])
  }

  /** The position of a class in a table, or the table's length. */
  function Index(tbl: seq<ClassDef>, java: string): (i: nat)
    ensures i <= |tbl|
    ensures i < |tbl| ==> tbl[i].java == java
    ensures forall j | 0 <= j < i :: tbl[j].java != java
  {
    if tbl == [] then 0
    else if tbl[0].java == java then 0
    else 1 + Index(tbl[1..], java)
  }

  function EncNames(names: seq<string>): bytes {
    if names == [] then [] else EncString(names[0]) + EncNames(names[1..])
  }

  /** A class definition after its 'C' tag. */
  function EncClassBody(def: ClassDef): bytes {
    EncString(def.java) + (EncInt32(Wrap32(|def.names|)) + EncNames(def.names))
  }

  /** The tag of an object of the class at `idx`. The test for the direct form looks at the low
      byte of the index only. */
  function ObjectHeader(idx: nat): (b: bytes)
    ensures b != []
  {
    if Byte(idx) <= 0x0f then [0x60 + Byte(idx)] else [0x4f] + EncInt32(Wrap32(idx))
  }

  /** Bytes appended and the class table afterwards. */
  datatype Out = Out(b: bytes, tbl: seq<ClassDef>)

  function Enc(g: Schema, v: Value, tbl: seq<ClassDef>): (o: Out)
    ensures tbl <= o.tbl
    decreases v, 1
  {
    match v
    case Null => Out([0x4e], tbl)
    case Bool(b) => Out([if b then 0x54 else 0x46], tbl)
    case Int32(i) => Out(EncInt32(i), tbl)
    case Int64(l) => Out(EncInt64(l), tbl)
    case Str(s) => Out(EncString(s), tbl)
    case Bin(data) => Out(EncBinary(data), tbl)
    case List(elems) =>
      var r := EncSeq(g, elems, tbl);
      Out([0x58] + (EncInt32(Wrap32(|elems|)) + r.b), r.tbl)
    case Map(entries) =>
      if entries == [] then Out([], tbl)
      else
        var r := EncEntries(g, entries, tbl);
        Out([0x48] + (r.b + [0x5a]), r.tbl)
    case Obj(java, fields) =>
      var i := Index(tbl, java);
      if i < |tbl| then
        var r := EncSeq(g, fields, tbl);
        Out(ObjectHeader(i) + r.b, r.tbl)
      else
        var def := DefOf(g, java);
        var r := EncSeq(g, fields, tbl + [def]);
        Out([0x43] + (EncClassBody(def) + (ObjectHeader(i) + r.b)), r.tbl)
    case ZeroStruct => Out([], tbl)
  }

  function EncSeq(g: Schema, vs: seq<Value>, tbl: seq<ClassDef>): (o: Out)
    ensures tbl <= o.tbl
    decreases vs, 0
  {
    if vs == [] then Out([], tbl)
    else
      var first := Enc(g, vs[0], tbl);
      var others := EncSeq(g, vs[1..], first.tbl);
      Out(first.b + others.b, others.tbl)
  }

  function EncEntry(g: Schema, e: Entry, tbl: seq<ClassDef>): (o: Out)
    ensures tbl <= o.tbl
    decreases e, 0
  {
    var k := Enc(g, e.key, tbl);
    var v := Enc(g, e.val, k.tbl);
    Out(k.b + v.b, v.tbl)
  }

  function EncEntries(g: Schema, es: seq<Entry>, tbl: seq<ClassDef>): (o: Out)
    ensures tbl <= o.tbl
    decreases es, 0
  {
    if es == [] then Out([], tbl)
    else
      var first := EncEntry(g, es[0], tbl);
      var others := EncEntries(g, es[1..], first.tbl);
      Out(first.b + others.b, others.tbl)
  }

  /** Values that can be Go map keys here: hashable and compared by value. */
  predicate Scalar(v: Value) {
    v.Null? || v.Bool? || v.Int32? || v.Int64? || v.Str?
  }

  /** Whether a decoded value may be stored where the static type is `t`. */
  predicate Fits(v: Value, t: Elem) {
    match t
    case AnyElem => true
    case BoolElem => v.Bool?
    case Int32Elem => v.Int32?
    case Int64Elem => v.Int64?
    case StringElem => v.Str?
    case BytesElem => v.Bin?
    case ListElem => v.List?
    case MapElem => v.Map?
    case OtherElem => false
  }

  /** Whether a value goes out as something other than null. */
  predicate Solid(v: Value) {
    !v.Null? && v != Bin([])
  }

  /** No wire name of an earlier field answers to a later one. */
  predicate FieldNamesDistinct(fields: seq<Field>) {
    forall i, j | 0 <= i < j < |fields| :: fields[i].name != fields[j].lower && fields[i].lower != fields[j].lower
  }

  /** The values Go can hand to the encoder under a schema. Empty maps are left out, for they
      are written as no bytes at all. */
  predicate Encodable(g: Schema, v: Value)
    decreases v, 0
  {
    match v
    case List(elems) =>
      |elems| < 0x8000_0000 && forall i | 0 <= i < |elems| :: Encodable(g, elems[i])
    case Map(entries) =>
      && entries != []
      && (forall i, j | 0 <= i < j < |entries| :: entries[i].key != entries[j].key)
      && forall i | 0 <= i < |entries| :: Scalar(entries[i].key) && Encodable(g, entries[i].val)
    case Obj(java, fields) =>
      && java in g
      && |fields| == |g[java]| < 0x8000_0000
      && FieldNamesDistinct(g[java])
      && forall i | 0 <= i < |fields| :: EncodableField(g, g[java][i].kind, fields[i])
    case ZeroStruct => false
    case _ => true
  }

  /** A struct field holds a value of its kind; the elements of typed containers are non-null. */
  predicate EncodableField(g: Schema, kind: Kind, v: Value)
    decreases v, 1
  {
    && Encodable(g, v)
    && match kind
       case StringKind => v.Str?
       case Int32Kind => v.Int32?
       case Int64Kind => v.Int64?
       case BoolKind => v.Bool?
       case MapKind(kt, vt) =>
         && v.Map? && KeysReadable(kt, vt)
         && forall i | 0 <= i < |v.entries| :: var e := v.entries[i];
                                               !e.key.Null? && Fits(e.key, kt) && Solid(e.val) && Fits(e.val, vt)
       case SliceKind(t) =>
         v.List? && forall i | 0 <= i < |v.elems| :: Solid(v.elems[i]) && Fits(v.elems[i], t)
       case StructKind(java) => v.Obj? && v.java == java
       case FloatOrTimeKind => false
       case OtherKind => false
  }

  /** Maps keyed by `interface{}` are encoded only when their elements are too: getMapKey knows no such
      keys. */
  predicate KeysReadable(kt: Elem, vt: Elem) {
    kt == AnyElem ==> vt == AnyElem
  }

  function KeyIndex(m: seq<Entry>, k: Value): (i: nat)
    ensures i <= |m|
    ensures i < |m| ==> m[i].key == k
    ensures forall j | 0 <= j < i :: m[j].key != k
  {
    if m == [] then 0 else if m[0].key == k then 0 else 1 + KeyIndex(m[1..], k)
  }

  /** `m[k] = v`. A decoded struct is a fresh pointer, so as a key it never equals an older one. */
  function Put(m: seq<Entry>, k: Value, v: Value): seq<Entry> {
    var i := KeyIndex(m, k);
    if i < |m| && !k.Obj? then m[i := Entry(k, v)] else m + [Entry(k, v)]
  }

  /** `delete(m, k)`. */
  function Delete(m: seq<Entry>, k: Value): seq<Entry> {
    var i := KeyIndex(m, k);
    if i < |m| && !k.Obj? then m[..i] + m[i + 1..] else m
  }

  /** What comes back for a value: compact negative integers are shifted, empty binary data is
      null, and map entries whose shifted keys collide are merged. */
  function Image(v: Value): (w: Value)
    decreases v, 1
  {
    match v
    case Int32(i) => Int32(Shifted32(i))
    case Int64(l) => Int64(Shifted64(l))
    case Bin(data) => if data == [] then Null else v
    case List(elems) => List(Images(elems))
    case Map(entries) => Map(PutAll([], entries))
    case Obj(java, fields) => Obj(java, Images(fields))
    case _ => v
  }

  function Images(vs: seq<Value>): (ws: seq<Value>)
    ensures |ws| == |vs|
    ensures forall i | 0 <= i < |vs| :: ws[i] == Image(vs[i])
    decreases vs, 0
  {
    if vs == [] then [] else [Image(vs[0])] + Images(vs[1..])
  }

  function PutAll(m: seq<Entry>, es: seq<Entry>): seq<Entry>
    decreases es, 0
  {
    if es == [] then m
    else
      var e := ImageOfEntry(es[0]);
      PutAll(Put(m, e.key, e.val), es[1..])
  }

  function ImageOfEntry(e: Entry): Entry
    decreases e, 0
  {
    Entry(Image(e.key), Image(e.val))
  }

  /** Every class of the table is registered and defined as registered, and none repeats. */
  predicate TableOK(g: Schema, tbl: seq<ClassDef>) {
    && (forall i | 0 <= i < |tbl| :: tbl[i].java in g && tbl[i] == DefOf(g, tbl[i].java))
    && forall i, j | 0 <= i < j < |tbl| :: tbl[i].java != tbl[j].java
  }
}

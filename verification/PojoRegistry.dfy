/**
  * The global registry of Go types and their pre-encoded Java class definitions (pojo.go).
  */
module PojoRegistry {
  import opened GoBase
  import opened Unicode
  import opened HessianInt
  import opened HessianString
  import opened HessianValue
  import opened HessianDecode
  import opened HessianLeaves
  import opened HessianRoundTrip

  /** A Go type that implements POJO, or POJOEnum when `isEnum`. */
  datatype Pojo = Pojo(goName: string, javaName: string, fields: seq<Field>, isEnum: bool)

  datatype ClassInfo = ClassInfo(javaName: string, fieldNameList: seq<string>, buffer: bytes)

  datatype StructInfo = StructInfo(pojo: Pojo, index: nat)

  /** The registry's fields: `registry` is keyed by Go name, `j2g` by Java name. */
  datatype Reg = Reg(classInfoList: seq<ClassInfo>, j2g: map<string, string>, registry: map<string, StructInfo>)

  const Empty := Reg([], map[], map[])

  /** The wire field names: lower-cased Go names, or the single name of an enum. */
  function NamesOf(p: Pojo): seq<string> {
    if p.isEnum then ["name"] else Lowers(p.fields)
  }

  function InfoOf(p: Pojo): ClassInfo {
    ClassInfo(p.javaName, NamesOf(p), [0x43] + EncClassBody(ClassDef(p.javaName, NamesOf(p))))
  }

  /** RegisterPOJO and RegisterJavaEnum. The test for an earlier registration looks the Java name
      up among Go names. */
  function Register(r: Reg, p: Pojo): (Reg, int) {
    if p.javaName in r.registry then (r, -1)
    else
      var i := |r.classInfoList|;
      (Reg(r.classInfoList + [InfoOf(p)], r.j2g[p.javaName := p.goName], r.registry[p.goName := StructInfo(p, i)]), i)
  }

  function RegisterAll(r: Reg, ps: seq<Pojo>): Reg
    decreases |ps|
  {
    if ps == [] then r else RegisterAll(Register(r, ps[0]).0, ps[1..])
  }

  function CheckPOJORegistry(r: Reg, goName: string): (nat, bool) {
    if goName in r.registry then (r.registry[goName].index, true) else (0, false)
  }

  datatype Lookup = Missing | Found(pojo: Pojo, info: ClassInfo)

  /** getStructDefByIndex. */
  function GetStructDefByIndex(r: Reg, idx: int): Lookup {
    if !(0 <= idx < |r.classInfoList|) then Missing
    else
      var cls := r.classInfoList[idx];
      if cls.javaName in r.j2g && r.j2g[cls.javaName] in r.registry
      then Found(r.registry[r.j2g[cls.javaName]].pojo, cls)
      else Missing
  }

  /** Go names and Java names correspond one to one among the types of a program. */
  predicate OneToOne(types: set<Pojo>) {
    forall p, q | p in types && q in types && (p.goName == q.goName || p.javaName == q.javaName) :: p == q
  }

  /** Every registered type's index and Java name lead back to it, and every class information is
      that of a registered type. */
  ghost predicate Consistent(r: Reg, types: set<Pojo>) {
    && (forall go | go in r.registry :: Entered(r, types, go))
    && forall i | 0 <= i < |r.classInfoList| ::
         Backed(r, r.classInfoList[i])
  }

  /** A registered type's index and Java name lead back to it. */
  ghost predicate Entered(r: Reg, types: set<Pojo>, go: string)
    requires go in r.registry
  {
    var s := r.registry[go];
    && s.pojo in types && s.pojo.goName == go
    && s.index < |r.classInfoList| && r.classInfoList[s.index] == InfoOf(s.pojo)
    && s.pojo.javaName in r.j2g && r.j2g[s.pojo.javaName] == go
  }

  /** Some registered type has this class information. */
  ghost predicate Backed(r: Reg, info: ClassInfo) {
    exists go :: go in r.registry && info == InfoOf(r.registry[go].pojo)
  }

  lemma RegisterKeeps(r: Reg, p: Pojo, types: set<Pojo>)
    requires OneToOne(types) && p in types && Consistent(r, types)
    ensures Consistent(Register(r, p).0, types)
  {
    var r' := Register(r, p).0;
    if p.javaName !in r.registry {
      forall go | go in r'.registry ensures Entered(r', types, go) {
        StillEntered(r, p, types, go);
      }
      forall i | 0 <= i < |r'.classInfoList| ensures Backed(r', r'.classInfoList[i]) {
        if i < |r.classInfoList| {
          assert r'.classInfoList[i] == r.classInfoList[i];
          StillBacked(r, p, types, r.classInfoList[i]);
        } else {
          assert p.goName in r'.registry && r'.classInfoList[i] == InfoOf(r'.registry[p.goName].pojo);
        }
      }
    }
  }

  lemma StillEntered(r: Reg, p: Pojo, types: set<Pojo>, go: string)
    requires OneToOne(types) && p in types && Consistent(r, types) && p.javaName !in r.registry
    requires go in Register(r, p).0.registry
    ensures Entered(Register(r, p).0, types, go)
  {
    if go != p.goName {
      assert Entered(r, types, go);
      assert r.registry[go].pojo != p;
    }
  }

  lemma StillBacked(r: Reg, p: Pojo, types: set<Pojo>, info: ClassInfo)
    requires OneToOne(types) && p in types && Consistent(r, types) && Backed(r, info)
    ensures Backed(Register(r, p).0, info)
  {
    var r' := Register(r, p).0;
    var go :| go in r.registry && info == InfoOf(r.registry[go].pojo);
    if go == p.goName {
      assert r.registry[go].pojo == p;
    }
    assert go in r'.registry && info == InfoOf(r'.registry[go].pojo);
  }

  /** Over any run of registrations the registry stays consistent and class indexes are permanent. */
  lemma {:induction false} RunKeeps(r: Reg, ps: seq<Pojo>, types: set<Pojo>)
    requires OneToOne(types) && (forall p | p in ps :: p in types) && Consistent(r, types)
    ensures Consistent(RegisterAll(r, ps), types)
    ensures r.classInfoList <= RegisterAll(r, ps).classInfoList
    decreases |ps|
  {
    if ps != [] {
      RegisterKeeps(r, ps[0], types);
      RunKeeps(Register(r, ps[0]).0, ps[1..], types);
    }
  }

  /** An index handed out at any point of a run finds, at any later point, the class information and
      the type it was handed out for; what it finds is the pre-encoded definition that decClassDef
      parses back to exactly that class. */
  lemma IndexIsForever(ps: seq<Pojo>, p: Pojo, qs: seq<Pojo>, types: set<Pojo>, rest: bytes)
    requires OneToOne(types) && p in types
    requires (forall q | q in ps :: q in types) && (forall q | q in qs :: q in types)
    requires |NamesOf(p)| < 0x8000_0000
    ensures var (r, i) := Register(RegisterAll(Empty, ps), p);
            var later := RegisterAll(r, qs);
            i != -1 ==>
              && GetStructDefByIndex(later, i) == Found(p, InfoOf(p))
              && InfoOf(p).buffer[0] == 0x43
              && DecClassDef(InfoOf(p).buffer[1..] + rest) == Res(ClassDef(p.javaName, NamesOf(p)), None, rest)
  {
    var before := RegisterAll(Empty, ps);
    var (r, i) := Register(before, p);
    var later := RegisterAll(r, qs);
    RunKeeps(Empty, ps, types);
    RegisterKeeps(before, p, types);
    RunKeeps(r, qs, types);
    if i != -1 {
      assert later.classInfoList[i] == InfoOf(p);
      assert Backed(later, later.classInfoList[i]);
      var go :| go in later.registry && later.classInfoList[i] == InfoOf(later.registry[go].pojo);
      assert later.registry[go].pojo == p;
      ClassDefRoundTrip(ClassDef(p.javaName, NamesOf(p)), rest);
      assert InfoOf(p).buffer[1..] == EncClassBody(ClassDef(p.javaName, NamesOf(p)));
    }
  }

  /** What a registration stores: under the next index, the Java name and the wire field names, which
      are the lower-cased Go names, or the single name of an enum; nothing that was there changes. */
  lemma RegisterStores(r: Reg, p: Pojo)
    requires p.javaName !in r.registry
    ensures var (r', i) := Register(r, p);
            && i == |r.classInfoList| && |r'.classInfoList| == i + 1 && r'.classInfoList[..i] == r.classInfoList
            && r'.classInfoList[i].javaName == p.javaName
            && (p.isEnum ==> r'.classInfoList[i].fieldNameList == ["name"])
            && (!p.isEnum ==>
                  && |r'.classInfoList[i].fieldNameList| == |p.fields|
                  && forall k | 0 <= k < |p.fields| :: r'.classInfoList[i].fieldNameList[k] == p.fields[k].lower)
            && p.javaName in r'.j2g && r'.j2g[p.javaName] == p.goName
            && p.goName in r'.registry && r'.registry[p.goName] == StructInfo(p, i)
            && (forall java | java in r.j2g && java != p.javaName :: java in r'.j2g && r'.j2g[java] == r.j2g[java])
            && (forall go | go in r.registry && go != p.goName :: go in r'.registry && r'.registry[go] == r.registry[go])
  {
  }

  /** The comment on RegisterPOJO promises -1 for a type registered before. The code returns -1
      exactly when the Java name is the Go name of a registered type; any other type registered
      again gets a second definition under a new index. */
  lemma RegisterAgainExact(r: Reg, p: Pojo)
    requires p.javaName !in r.registry
    ensures var (r1, i) := Register(r, p);
            var (r2, j) := Register(r1, p);
            && (j == -1 <==> p.javaName == p.goName)
            && (j != -1 ==> j == i + 1 && r2.classInfoList == r1.classInfoList + [InfoOf(p)])
  {
  }

  /** `com.bdt.info.Department`, registered twice. */
  lemma RegisterAgainExample()
    ensures var p := Pojo("hessian.Department", "com.bdt.info.Department", [], false);
            Register(Register(Empty, p).0, p).1 == 1
  {
    var p := Pojo("hessian.Department", "com.bdt.info.Department", [], false);
    assert p.javaName[0] == 'c' && p.goName[0] == 'h';
    RegisterAgainExact(Empty, p);
  }

  /** The struct types a decoder finds by Java name. */
  function SchemaOf(r: Reg): Schema {
    map java | java in r.j2g && r.j2g[java] in r.registry :: r.registry[r.j2g[java]].pojo.fields
  }

  /** What encStruct finds for the first object of a class: its definition under the schema that the
      decoder works with, whether the type was registered beforehand or is now, if and only if the type
      is known or no registered type's Go name is its Java name. Otherwise it finds nothing, and the
      object goes out without a definition. */
  lemma EncStructDefinition(r: Reg, p: Pojo, types: set<Pojo>)
    requires OneToOne(types) && p in types && !p.isEnum && Consistent(r, types)
    ensures var (idx, known) := CheckPOJORegistry(r, p.goName);
            var r' := if known then r else Register(r, p).0;
            var found := GetStructDefByIndex(r', if known then idx else Register(r, p).1);
            && (found == Found(p, InfoOf(p)) <==> known || p.javaName !in r.registry)
            && (found.Missing? <==> !known && p.javaName in r.registry)
            && (found.Found? ==>
                  && p.javaName in SchemaOf(r') && SchemaOf(r')[p.javaName] == p.fields
                  && InfoOf(p).buffer == [0x43] + EncClassBody(DefOf(SchemaOf(r'), p.javaName)))
  {
    var known := CheckPOJORegistry(r, p.goName).1;
    var r' := if known then r else Register(r, p).0;
    RegisterKeeps(r, p, types);
    if known || p.javaName !in r.registry {
      assert r'.registry[p.goName].pojo == p;
    }
  }

  /** A type whose Java name is the Go name of another one. */
  lemma EncStructExample()
    ensures var p, q := Pojo("hessian.User", "com.bdt.info.User", [], false), Pojo("main.Person", "hessian.User", [], false);
            var r := Register(Empty, p).0;
            !CheckPOJORegistry(r, q.goName).1 && GetStructDefByIndex(Register(r, q).0, Register(r, q).1).Missing?
  {
    var p, q := Pojo("hessian.User", "com.bdt.info.User", [], false), Pojo("main.Person", "hessian.User", [], false);
    assert p.goName[0] == 'h' && q.goName[0] == 'm' && p.javaName[0] == 'c';
    assert p.goName == q.javaName;
  }

  class Registry {
    var classInfoList: seq<ClassInfo>
    var j2g: map<string, string>
    var registry: map<string, StructInfo>

    constructor ()
      ensures Contents() == Empty
    {
      classInfoList, j2g, registry := [], map[], map[];
    }

    function Contents(): Reg
      reads this
    {
      Reg(classInfoList, j2g, registry)
    }

    /** Builds the class definition's bytes field by field. */
    method EncodeClass(javaName: string, names: seq<string>) returns (b: bytes)
      ensures b == [0x43] + EncClassBody(ClassDef(javaName, names))
    {
      b := [0x43];
      b := EncodeString(Utf8(javaName), b);
      RunesOfUtf8(javaName);
      b := b + EncInt32(Wrap32(|names|));
      Concat4([0x43], EncString(javaName), EncInt32(Wrap32(|names|)), EncNames(names));
      for i := 0 to |names|
        invariant b + EncNames(names[i..]) == [0x43] + EncClassBody(ClassDef(javaName, names))
      {
        assert names[i..][1..] == names[i + 1..];
        Concat(b, EncString(names[i]), EncNames(names[i + 1..]));
        b := EncodeString(Utf8(names[i]), b);
        RunesOfUtf8(names[i]);
      }
      Ends(b);
    }

    method RegisterPOJO(o: Pojo) returns (i: int)
      requires !o.isEnum
      modifies this
      ensures (Contents(), i) == Register(old(Contents()), o)
    {
      if o.javaName !in registry {
        j2g := j2g[o.javaName := o.goName];
        var l := [];
        for k := 0 to |o.fields|
          invariant l == Lowers(o.fields)[..k]
        {
          l := l + [o.fields[k].lower];
        }
        assert l == NamesOf(o);
        var b := EncodeClass(o.javaName, l);
        i := |classInfoList|;
        classInfoList := classInfoList + [ClassInfo(o.javaName, l, b)];
        registry := registry[o.goName := StructInfo(o, i)];
      } else {
        i := -1;
      }
    }

    method RegisterJavaEnum(o: Pojo) returns (i: int)
      requires o.isEnum
      modifies this
      ensures (Contents(), i) == Register(old(Contents()), o)
    {
      if o.javaName !in registry {
        j2g := j2g[o.javaName := o.goName];
        var l := ["name"];
        var b := EncodeClass(o.javaName, l);
        i := |classInfoList|;
        classInfoList := classInfoList + [ClassInfo(o.javaName, l, b)];
        registry := registry[o.goName := StructInfo(o, i)];
      } else {
        i := -1;
      }
    }
  }
}

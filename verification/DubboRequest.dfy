/**
  * The Dubbo request frame built by packRequest (request.go): a 16-byte header whose length field
  * is patched in place once the body is known, and a body of Hessian values.
  */
module DubboRequest {
  import opened GoBase
  import opened HessianInt
  import opened HessianValue
  import opened HessianDecode
  import opened HessianFidelity
  import opened HessianOrder
  import opened HessianEncoder
  import opened HessianSession

  const HEADER_LENGTH := 16
  const DEFAULT_LEN := 8388608
  const DUBBO_VERSION := "2.5.4"

  datatype Message = Message(id: int64, heartbeat: bool, target: string, version: string, methodName: string,
                             servicePath: string, timeoutNanos: int64)

  /** An argument: a Go `int` goes out as a long but is typed as an int; `Untyped` is a value of a kind
      that getArgType has no name for. */
  datatype Arg = GoInt(i: int64) | Plain(v: Value) | Untyped
  {
    function ToValue(): Value {
      match this
      case GoInt(i) => Int64(i)
      case Plain(v) => v
      case Untyped => Null
    }
  }

  // ----- Argument types -----

  function GetArgType(a: Arg): string {
    match a
    case GoInt(_) => "I"
    case Untyped => ""
    case Plain(v) =>
      match v
      case Null => "V"
      case Bool(_) => "Z"
      case Int32(_) => "I"
      case Int64(_) => "J"
      case Str(_) => "java.lang.String"
      case Bin(_) => "[B"
      case List(_) => "java.util.List"
      case Map(_) => "java.util.Map"
      case Obj(_, _) => "java.lang.Object"
      case ZeroStruct => "java.lang.Object"
  }

  function Slashed(s: string): (t: string)
    ensures |t| == |s|
  {
    seq(|s|, i requires 0 <= i < |s| => if s[i] == '.' then '/' else s[i])
  }

  function DescriptorOf(typ: string): string {
    if '.' !in typ then typ else "L" + Slashed(typ) + ";"
  }

  function Descriptor(a: Arg): string {
    DescriptorOf(GetArgType(a))
  }

  function ArgsTypes(args: seq<Arg>): string {
    if args == [] then "" else Descriptor(args[0]) + ArgsTypes(args[1..])
  }

  lemma TypeNamed(a: Arg)
    ensures |GetArgType(a)| == 0 <==> a.Untyped?
  {
  }

  predicate AllTyped(args: seq<Arg>) {
    forall i | 0 <= i < |args| :: !args[i].Untyped?
  }

  method GetArgsTypeList(args: seq<Arg>) returns (types: string, ok: bool)
    ensures ok <==> AllTyped(args)
    ensures ok ==> types == ArgsTypes(args)
  {
    types := "";
    for i := 0 to |args|
      invariant types + ArgsTypes(args[i..]) == ArgsTypes(args)
      invariant forall j | 0 <= j < i :: !args[j].Untyped?
    {
      var typ := GetArgType(args[i]);
      TypeNamed(args[i]);
      if |typ| == 0 {
        return types, false;
      }
      assert args[i..][1..] == args[i + 1..];
      Concat(types, Descriptor(args[i]), ArgsTypes(args[i + 1..]));
      if '.' !in typ {
        types := types + typ;
      } else {
        types := types + ("L" + Slashed(typ) + ";");
      }
    }
    Ends(types);
    ok := true;
  }

  /** How a Java peer splits a type list: a class name runs to its semicolon, an array takes its
      element type along, anything else is one character. */
  function FirstLength(s: string): (n: nat)
    requires s != ""
    ensures 1 <= n <= |s|
  {
    if s[0] == 'L' then ToSemicolon(s)
    else if s[0] == '[' && |s| > 1 then 2
    else 1
  }

  function ToSemicolon(s: string): (n: nat)
    requires s != ""
    ensures 1 <= n <= |s|
  {
    if s[0] == ';' || |s| == 1 then 1 else 1 + ToSemicolon(s[1..])
  }

  function SplitTypes(s: string): seq<string> {
    if s == "" then [] else var n := FirstLength(s); [s[..n]] + SplitTypes(s[n..])
  }

  lemma {:induction false} SemicolonAfter(body: string, rest: string)
    requires ';' !in body
    ensures ToSemicolon(body + ";" + rest) == |body| + 1
    decreases |body|
  {
    if body != "" {
      assert (body + ";" + rest)[1..] == body[1..] + ";" + rest;
      assert body[0] in body;
      SemicolonAfter(body[1..], rest);
    }
  }

  /** The descriptor of each kind of argument. */
  lemma Descriptors(i: int64, v: Value)
    requires !v.ZeroStruct?
    ensures Descriptor(GoInt(i)) == "I"
    ensures Descriptor(Plain(v)) ==
            match v
            case Null => "V"
            case Bool(_) => "Z"
            case Int32(_) => "I"
            case Int64(_) => "J"
            case Str(_) => "Ljava/lang/String;"
            case Bin(_) => "[B"
            case List(_) => "Ljava/util/List;"
            case Map(_) => "Ljava/util/Map;"
            case Obj(_, _) => "Ljava/lang/Object;"
  {
    Short("I");
    match v
    case Null => Short("V");
    case Bool(_) => Short("Z");
    case Int32(_) => Short("I");
    case Int64(_) => Short("J");
    case Str(_) => Long("java.lang.String", "Ljava/lang/String;");
    case Bin(_) => Short("[B");
    case List(_) => Long("java.util.List", "Ljava/util/List;");
    case Map(_) => Long("java.util.Map", "Ljava/util/Map;");
    case Obj(_, _) => Long("java.lang.Object", "Ljava/lang/Object;");
  }

  lemma Short(typ: string)
    requires |typ| <= 2 && forall i | 0 <= i < |typ| :: typ[i] != '.'
    ensures DescriptorOf(typ) == typ
  {
  }

  lemma Long(typ: string, d: string)
    requires |d| == |typ| + 2 && |typ| > 4 && typ[4] == '.' && d[0] == 'L' && d[|d| - 1] == ';'
    requires forall i | 0 <= i < |typ| :: d[i + 1] == if typ[i] == '.' then '/' else typ[i]
    ensures DescriptorOf(typ) == d
  {
    assert typ[4] in typ;
    assert "L" + Slashed(typ) + ";" == d;
  }

  lemma DescriptorIsFirst(a: Arg, rest: string)
    requires !a.Untyped?
    ensures Descriptor(a) != "" && FirstLength(Descriptor(a) + rest) == |Descriptor(a)|
  {
    var typ, d := GetArgType(a), Descriptor(a);
    if '.' in typ {
      var body := "L" + Slashed(typ);
      assert ';' !in typ;
      assert ';' !in body;
      assert d + rest == body + ";" + rest;
      SemicolonAfter(body, rest);
    } else {
      assert (d + rest)[0] == d[0];
      assert |d| == 1 || d == "[B";
    }
  }

  /** The type list is read back as one descriptor for each argument, in order. */
  lemma {:induction false} TypesSplitBack(args: seq<Arg>)
    requires AllTyped(args)
    ensures |SplitTypes(ArgsTypes(args))| == |args|
    ensures forall i | 0 <= i < |args| :: SplitTypes(ArgsTypes(args))[i] == Descriptor(args[i])
    decreases |args|
  {
    if args != [] {
      var d, others := Descriptor(args[0]), ArgsTypes(args[1..]);
      DescriptorIsFirst(args[0], others);
      assert (d + others)[..|d|] == d && (d + others)[|d|..] == others;
      TypesSplitBack(args[1..]);
    }
  }

  // ----- Header and body -----

  /** `byte(m.ID & SERIAL_MASK)`. */
  function SerialBits(id: int64): int {
    id % 0x20
  }

  /** The third header byte: the flags OR-ed with the low bits of the request id, which land where
      the protocol keeps the serialization id. */
  function FlagByte(m: Message): byte {
    if m.heartbeat then (if SerialBits(m.id) >= 0x10 then 0xff else 0xef) else 0xc0 + SerialBits(m.id)
  }

  /** The third byte of the two header templates: request and two-way, and for heartbeats event and
      the low four bits. */
  const FLAGS: byte := 0xc0
  const HEARTBEAT_FLAGS: byte := 0xef

  /** Bit `k` of a two's complement integer. */
  predicate Bit(x: int, k: nat)
    decreases k
  {
    if k == 0 then x % 2 == 1 else Bit(x / 2, k - 1)
  }

  /** The flag byte is the bitwise OR of the template with `byte(m.ID & SERIAL_MASK)`. */
  lemma FlagByteIsOr(m: Message, k: nat)
    requires k < 8
    ensures Bit(FlagByte(m), k) <==> Bit(if m.heartbeat then HEARTBEAT_FLAGS else FLAGS, k) || (k < 5 && Bit(m.id, k))
  {
    var s := SerialBits(m.id);
    assert FlagByte(m) == if m.heartbeat then (if s >= 0x10 then 0xff else 0xef) else 0xc0 + s;
    LowBits(m.id / 0x20, s, k);
    RequestFlags(s, k);
    HeartbeatFlags(s, k);
  }

  /** The low five bits of an integer are those of its remainder. */
  lemma LowBits(q: int, s: int, k: nat)
    requires 0 <= s < 0x20
    ensures k < 5 ==> (Bit(0x20 * q + s, k) <==> Bit(s, k))
  {
    var x := 0x20 * q + s;
    assert x / 2 == 0x10 * q + s / 2 && x / 2 / 2 == 8 * q + s / 2 / 2 && x / 2 / 2 / 2 == 4 * q + s / 2 / 2 / 2;
    assert x / 2 / 2 / 2 / 2 == 2 * q + s / 2 / 2 / 2 / 2;
    if k < 5 {
      Unfold(x, k);
      Unfold(s, k);
    }
  }

  lemma Unfold(x: int, k: nat)
    requires k < 8
    ensures Bit(x, k) <==>
            (if k == 0 then x
             else if k == 1 then x / 2
             else if k == 2 then x / 2 / 2
             else if k == 3 then x / 2 / 2 / 2
             else if k == 4 then x / 2 / 2 / 2 / 2
             else if k == 5 then x / 2 / 2 / 2 / 2 / 2
             else if k == 6 then x / 2 / 2 / 2 / 2 / 2 / 2
             else x / 2 / 2 / 2 / 2 / 2 / 2 / 2) % 2 == 1
  {
  }

  lemma RequestFlags(s: int, k: nat)
    requires 0 <= s < 0x20 && k < 8
    ensures Bit(0xc0 + s, k) <==> Bit(0xc0, k) || (k < 5 && Bit(s, k))
  {
    LowBits(6, s, k);
    Unfold(0xc0 + s, k);
    Unfold(0xc0, k);
  }

  lemma HeartbeatFlags(s: int, k: nat)
    requires 0 <= s < 0x20 && k < 8
    ensures Bit(if s >= 0x10 then 0xff else 0xef, k) <==> Bit(0xef, k) || (k < 5 && Bit(s, k))
  {
    Unfold(s, k);
    Unfold(0xff, k);
    Unfold(0xef, k);
    if k == 4 {
      assert s / 2 / 2 / 2 / 2 == if s >= 0x10 then 1 else 0;
    }
  }

  /** The serialization id of a frame sent is what the header was given if and only if the request id
      leaves it alone: no low bits for a request, no fifth bit for a heartbeat. */
  lemma SerializationIdExact(m: Message)
    ensures FlagByte(m) % 0x20 == (if m.heartbeat then 0x0f else 0)
       <==> if m.heartbeat then m.id % 0x20 < 0x10 else m.id % 0x20 == 0
  {
  }

  function Header(m: Message, bodyLength: int): (b: bytes)
    ensures |b| == HEADER_LENGTH
  {
    [0xda, 0xbb, FlagByte(m), 0x00] + Word8(m.id) + Word4(bodyLength)
  }

  /** Go's integer division truncates toward zero. */
  function Millis(nanos: int): int {
    if nanos >= 0 then nanos / 1_000_000 else -((-nanos) / 1_000_000)
  }

  /** The service parameters in one order; the version entry is never added, since the variable it
      is taken from is never set. */
  function Params(m: Message): (es: seq<Entry>)
    ensures |es| >= 2
  {
    [Entry(Str("path"), Str(m.servicePath)), Entry(Str("interface"), Str(m.target))]
    + if m.timeoutNanos != 0 then [Entry(Str("timeout"), Str(Itoa(Millis(m.timeoutNanos))))] else []
  }

  /** The values of a body, given the order in which the runtime iterates the parameter map. */
  function BodyValues(m: Message, args: seq<Arg>, params: seq<Entry>): seq<Value> {
    if m.heartbeat then [Null] else Preamble(m, args) + (Values(args) + [Map(params)])
  }

  function Preamble(m: Message, args: seq<Arg>): seq<Value> {
    [Str(DUBBO_VERSION), Str(m.target), Str(m.version), Str(m.methodName), Str(ArgsTypes(args))]
  }

  function Values(args: seq<Arg>): (vs: seq<Value>)
    ensures |vs| == |args|
    ensures forall i | 0 <= i < |args| :: vs[i] == args[i].ToValue()
  {
    seq(|args|, i requires 0 <= i < |args| => args[i].ToValue())
  }

  datatype Packed = Sent(frame: bytes) | TooLarge | NoType

  function Pack(g: Schema, m: Message, args: seq<Arg>, params: seq<Entry>): Packed {
    var body := EncSeq(g, BodyValues(m, args, params), []).b;
    if !m.heartbeat && !AllTyped(args) then NoType
    else if HEADER_LENGTH + |body| > DEFAULT_LEN then TooLarge
    else Sent(Header(m, |body|) + body)
  }

  /** The request id and the body length as a peer reads them from a frame. */
  function FrameId(f: bytes): int64
    requires |f| >= HEADER_LENGTH
  {
    Wrap64(Num8(f[4..12]))
  }

  function FrameLength(f: bytes): int
    requires |f| >= HEADER_LENGTH
  {
    Num4(f[12..16])
  }

  lemma HeaderId(m: Message, n: int, body: bytes)
    ensures FrameId(Header(m, n) + body) == m.id
  {
    assert (Header(m, n) + body)[4..12] == Word8(m.id);
    NumOfWord8(m.id);
    WrapBack(m.id, Num8(Word8(m.id)));
  }

  lemma HeaderLength(m: Message, n: int, body: bytes)
    requires 0 <= n < 0x1_0000_0000
    ensures FrameLength(Header(m, n) + body) == n
  {
    assert (Header(m, n) + body)[12..16] == Word4(n);
    NumOfWord4(n);
  }

  /** What the header of every frame sent says, and that it leads to the body. */
  lemma FrameHeader(g: Schema, m: Message, args: seq<Arg>, params: seq<Entry>)
    requires Pack(g, m, args, params).Sent?
    ensures var f := Pack(g, m, args, params).frame;
            && HEADER_LENGTH <= |f| <= DEFAULT_LEN
            && f[0] == 0xda && f[1] == 0xbb
            && FrameId(f) == m.id
            && FrameLength(f) == |f| - HEADER_LENGTH
            && f[HEADER_LENGTH..] == EncSeq(g, BodyValues(m, args, params), []).b
  {
    var body := EncSeq(g, BodyValues(m, args, params), []).b;
    HeaderId(m, |body|, body);
    HeaderLength(m, |body|, body);
    Split(Header(m, |body|), body);
  }

  /** A frame is sent if and only if its arguments have types and it has at most 8388608 bytes. */
  lemma SentExact(g: Schema, m: Message, args: seq<Arg>, params: seq<Entry>)
    ensures Pack(g, m, args, params).Sent? <==>
            (m.heartbeat || AllTyped(args)) && 16 + |EncSeq(g, BodyValues(m, args, params), []).b| <= 8388608
  {
  }

  /** The first four bytes of every frame sent: the magic, the template's flags OR-ed with the low five
      bits of the id, and a zero status. */
  lemma FrameFlags(g: Schema, m: Message, args: seq<Arg>, params: seq<Entry>, k: nat)
    requires Pack(g, m, args, params).Sent? && k < 8
    ensures var f := Pack(g, m, args, params).frame;
            && |f| >= 16 && f[0] == 0xda && f[1] == 0xbb && f[3] == 0
            && (Bit(f[2], k) <==> Bit(if m.heartbeat then 0xef else 0xc0, k) || (k < 5 && Bit(m.id, k)))
  {
    FlagByteIsOr(m, k);
    HeaderPlaces(m, |EncSeq(g, BodyValues(m, args, params), []).b|, EncSeq(g, BodyValues(m, args, params), []).b);
  }

  /** The other twelve: the id and the length of the body, most significant byte first. */
  lemma FrameNumbers(g: Schema, m: Message, args: seq<Arg>, params: seq<Entry>)
    requires Pack(g, m, args, params).Sent?
    ensures var f := Pack(g, m, args, params).frame;
            && |f| >= 16
            && (f[4] as int * 0x100_0000 + f[5] as int * 0x1_0000 + f[6] as int * 0x100 + f[7] as int) * 0x1_0000_0000
               + (f[8] as int * 0x100_0000 + f[9] as int * 0x1_0000 + f[10] as int * 0x100 + f[11] as int)
               == (if m.id >= 0 then m.id else m.id + 0x1_0000_0000_0000_0000)
            && f[12] as int * 0x100_0000 + f[13] as int * 0x1_0000 + f[14] as int * 0x100 + f[15] as int == |f| - 16
  {
    var body := EncSeq(g, BodyValues(m, args, params), []).b;
    IdPlaces(m, |body|, body);
    LengthPlaces(m, |body|, body);
    HeaderPlaces(m, |body|, body);
  }

  lemma IdPlaces(m: Message, n: int, body: bytes)
    ensures var f := Header(m, n) + body;
            && |f| >= 16
            && (f[4] as int * 0x100_0000 + f[5] as int * 0x1_0000 + f[6] as int * 0x100 + f[7] as int) * 0x1_0000_0000
               + (f[8] as int * 0x100_0000 + f[9] as int * 0x1_0000 + f[10] as int * 0x100 + f[11] as int)
               == (if m.id >= 0 then m.id else m.id + 0x1_0000_0000_0000_0000)
  {
    Word8Bytes(m.id);
    Unsigned(m.id);
    HeaderPlaces(m, n, body);
  }

  lemma LengthPlaces(m: Message, n: int, body: bytes)
    requires 0 <= n < 0x1_0000_0000
    ensures var f := Header(m, n) + body;
            |f| >= 16 && f[12] as int * 0x100_0000 + f[13] as int * 0x1_0000 + f[14] as int * 0x100 + f[15] as int == n
  {
    Word4Bytes(n);
    HeaderPlaces(m, n, body);
  }

  lemma HeaderPlaces(m: Message, n: int, body: bytes)
    ensures var f := Header(m, n) + body;
            && |f| == 16 + |body| && f[0] == 0xda && f[1] == 0xbb && f[2] == FlagByte(m) && f[3] == 0
            && f[4] == Word8(m.id)[0] && f[5] == Word8(m.id)[1] && f[6] == Word8(m.id)[2] && f[7] == Word8(m.id)[3]
            && f[8] == Word8(m.id)[4] && f[9] == Word8(m.id)[5] && f[10] == Word8(m.id)[6] && f[11] == Word8(m.id)[7]
            && f[12] == Word4(n)[0] && f[13] == Word4(n)[1] && f[14] == Word4(n)[2] && f[15] == Word4(n)[3]
  {
    var h := [0xda, 0xbb, FlagByte(m), 0x00];
    assert forall i | 0 <= i < 4 :: (Header(m, n) + body)[i] == h[i];
    assert forall i | 0 <= i < 8 :: (Header(m, n) + body)[4 + i] == Word8(m.id)[i];
    assert forall i | 0 <= i < 4 :: (Header(m, n) + body)[12 + i] == Word4(n)[i];
  }

  /** A message whose body the codec can carry. */
  predicate Sendable(g: Schema, m: Message, args: seq<Arg>, params: seq<Entry>) {
    && (forall i | 0 <= i < |args| :: Encodable(g, args[i].ToValue()))
    && multiset(params) == multiset(Params(m))
    && |EncSeq(g, BodyValues(m, args, params), []).tbl| <= 0x100
  }

  lemma ParamsEncodable(g: Schema, m: Message, params: seq<Entry>)
    requires multiset(params) == multiset(Params(m))
    ensures Encodable(g, Map(params)) && Faithful(Map(params))
  {
    var es := Params(m);
    assert |multiset(params)| == |params| && |multiset(es)| == |es|;
    forall i | 0 <= i < |params|
      ensures params[i].key.Str? && params[i].val.Str?
      ensures Encodable(g, params[i].val) && Faithful(params[i].key) && Faithful(params[i].val)
    {
      assert params[i] in multiset(params);
      assert params[i] in multiset(es);
      assert params[i] in es;
    }
    forall i, j | 0 <= i < j < |params| ensures params[i].key != params[j].key {
      if params[i].key == params[j].key {
        assert params[i] in multiset(params) && params[j] in multiset(params);
        ParamsOnce(m, params[i], params[j]);
        TwiceCounted(params, i, j);
      }
    }
  }

  lemma ParamsOnce(m: Message, e: Entry, f: Entry)
    requires e in multiset(Params(m)) && f in multiset(Params(m)) && e.key == f.key
    ensures e == f && multiset(Params(m))[e] == 1
  {
    var es := Params(m);
    assert |es[0].key.s| == 4 && |es[1].key.s| == 9 && (|es| > 2 ==> |es[2].key.s| == 7);
    assert es == [es[0], es[1]] + es[2..];
  }

  /** No order of the parameters has a version: the variable it would be taken from is never set. */
  lemma NoVersion(m: Message, params: seq<Entry>)
    requires multiset(params) == multiset(Params(m))
    ensures forall i | 0 <= i < |params| :: params[i].key != Str("version")
  {
    var es := Params(m);
    forall i | 0 <= i < |params| ensures params[i].key != Str("version") {
      assert params[i] in multiset(params);
      assert params[i] in multiset(es);
      var j :| 0 <= j < |es| && es[j] == params[i];
      NamesOfParams(m, j);
    }
  }

  lemma NamesOfParams(m: Message, j: nat)
    requires j < |Params(m)|
    ensures Params(m)[j].key == Str(if j == 0 then "path" else if j == 1 then "interface" else "timeout")
    ensures Params(m)[j].key != Str("version")
  {
    var key: string := if j == 0 then "path" else if j == 1 then "interface" else "timeout";
    assert key[0] != "version"[0];
  }

  lemma BodyEncodable(g: Schema, m: Message, args: seq<Arg>, params: seq<Entry>)
    requires Sendable(g, m, args, params)
    ensures forall i | 0 <= i < |BodyValues(m, args, params)| :: Encodable(g, BodyValues(m, args, params)[i])
  {
    ParamsEncodable(g, m, params);
  }

  /** Decoding what follows the header yields, in order and with nothing left over, the protocol
      version, target, service version, method, type list, the arguments' images and the parameter
      map; a heartbeat carries a single null. */
  lemma BodyDecodes(g: Schema, m: Message, args: seq<Arg>, params: seq<Entry>)
    requires Sendable(g, m, args, params) && Pack(g, m, args, params).Sent?
    ensures var n := |BodyValues(m, args, params)|;
            var (ws, err, st) := DecodeMany(g, n, [], St(Pack(g, m, args, params).frame[HEADER_LENGTH..], []));
            && err == None && st.s == []
            && ws == if m.heartbeat then [Null] else Preamble(m, args) + (Images(Values(args)) + [Map(params)])
  {
    var vs := BodyValues(m, args, params);
    FrameHeader(g, m, args, params);
    BodyEncodable(g, m, args, params);
    SessionEnd(g, vs, []);
    Ends(EncSeq(g, vs, []).b);
    BodyImages(g, m, args, params);
  }

  /** The body's values one by one: protocol version, target, service version, method, type list,
      each argument's image, and the parameter map. */
  lemma DecodedValues(g: Schema, m: Message, args: seq<Arg>, params: seq<Entry>)
    requires !m.heartbeat && Sendable(g, m, args, params) && Pack(g, m, args, params).Sent?
    ensures var (ws, err, st) := DecodeMany(g, 6 + |args|, [], St(Pack(g, m, args, params).frame[16..], []));
            && err == None && st.s == [] && |ws| == 6 + |args|
            && ws[0] == Str("2.5.4") && ws[1] == Str(m.target) && ws[2] == Str(m.version) && ws[3] == Str(m.methodName)
            && ws[4] == Str(ArgsTypes(args))
            && (forall i | 0 <= i < |args| :: ws[5 + i] == match args[i]
                                                           case GoInt(n) => Int64(Shifted64(n))
                                                           case Plain(v) => Image(v)
                                                           case Untyped => Null)
            && ws[5 + |args|] == Map(params)
  {
    BodyDecodes(g, m, args, params);
    ValuesAt(m, args, Map(params));
    forall i | 0 <= i < |args|
      ensures Image(args[i].ToValue()) == match args[i]
                                          case GoInt(n) => Int64(Shifted64(n))
                                          case Plain(v) => Image(v)
                                          case Untyped => Null
    {
      ArgValue(args[i]);
    }
    assert |BodyValues(m, args, params)| == 6 + |args|;
  }

  lemma ValuesAt(m: Message, args: seq<Arg>, last: Value)
    ensures var ws := Preamble(m, args) + (Images(Values(args)) + [last]);
            && |ws| == 6 + |args|
            && ws[0] == Str("2.5.4") && ws[1] == Str(m.target) && ws[2] == Str(m.version) && ws[3] == Str(m.methodName)
            && ws[4] == Str(ArgsTypes(args))
            && (forall i | 0 <= i < |args| :: ws[5 + i] == Image(args[i].ToValue()))
            && ws[5 + |args|] == last
  {
    Joined(Preamble(m, args), Images(Values(args)), last);
  }

  lemma Joined(a: seq<Value>, b: seq<Value>, last: Value)
    ensures var ws := a + (b + [last]);
            && |ws| == |a| + |b| + 1
            && (forall i | 0 <= i < |a| :: ws[i] == a[i])
            && (forall i | 0 <= i < |b| :: ws[|a| + i] == b[i])
            && ws[|a| + |b|] == last
  {
  }

  lemma ArgValue(a: Arg)
    ensures Image(a.ToValue()) == match a
                                  case GoInt(n) => Int64(Shifted64(n))
                                  case Plain(v) => Image(v)
                                  case Untyped => Null
  {
  }

  /** And the parameter map entry by entry: the service path, the target as interface, and, if there is
      a timeout, its whole milliseconds, the fraction cut off toward zero; nothing else. */
  lemma DecodedParams(m: Message, params: seq<Entry>)
    requires multiset(params) == multiset(Params(m))
    ensures Entry(Str("path"), Str(m.servicePath)) in params && Entry(Str("interface"), Str(m.target)) in params
    ensures m.timeoutNanos == 0 ==> |params| == 2
    ensures m.timeoutNanos != 0 ==>
              && |params| == 3
              && exists text :: Entry(Str("timeout"), Str(text)) in params
                                && var ms := Atoi(text);
                                && (m.timeoutNanos > 0 ==> 0 <= ms * 1_000_000 <= m.timeoutNanos < (ms + 1) * 1_000_000)
                                && (m.timeoutNanos < 0 ==> (ms - 1) * 1_000_000 < m.timeoutNanos <= ms * 1_000_000 <= 0)
  {
    var es := Params(m);
    assert |multiset(params)| == |params| && |multiset(es)| == |es|;
    forall i | 0 <= i < |es| ensures es[i] in params {
      assert es[i] in multiset(es);
      assert es[i] in multiset(params);
    }
    assert es[0] in params && es[1] in params;
    if m.timeoutNanos != 0 {
      assert es[2] in params;
      AtoiOfItoa(Millis(m.timeoutNanos));
      MillisExact(m.timeoutNanos);
    }
  }

  lemma MillisExact(nanos: int)
    ensures nanos >= 0 ==> 0 <= Millis(nanos) * 1_000_000 <= nanos < (Millis(nanos) + 1) * 1_000_000
    ensures nanos < 0 ==> (Millis(nanos) - 1) * 1_000_000 < nanos <= Millis(nanos) * 1_000_000 <= 0
  {
  }

  lemma {:induction false} ImagesAppend(a: seq<Value>, b: seq<Value>)
    ensures Images(a + b) == Images(a) + Images(b)
  {
    forall i | 0 <= i < |a + b| ensures Images(a + b)[i] == (Images(a) + Images(b))[i] {
    }
  }

  lemma BodyImages(g: Schema, m: Message, args: seq<Arg>, params: seq<Entry>)
    requires multiset(params) == multiset(Params(m))
    ensures Images(BodyValues(m, args, params))
         == if m.heartbeat then [Null] else Preamble(m, args) + (Images(Values(args)) + [Map(params)])
  {
    if m.heartbeat {
      assert Images([Null]) == [Null];
    } else {
      ImagesAppend(Preamble(m, args), Values(args) + [Map(params)]);
      ImagesAppend(Values(args), [Map(params)]);
      assert Images(Preamble(m, args)) == Preamble(m, args);
      ParamsEncodable(g, m, params);
      ImageFixed(g, Map(params));
      assert Images([Map(params)]) == [Map(params)];
    }
  }

  // ----- packRequest -----

  /** `binary.BigEndian.PutUint..` into part of a byte slice: the rest of the slice stays. */
  method PutWord(a: array<byte>, off: nat, w: bytes)
    requires off + |w| <= a.Length
    modifies a
    ensures a[..] == old(a[..off]) + w + old(a[off + |w|..])
  {
    for i := 0 to |w|
      invariant forall k | 0 <= k < i :: a[off + k] == w[k]
      invariant forall k | 0 <= k < a.Length && !(off <= k < off + i) :: a[k] == old(a[k])
    {
      a[off + i] := w[i];
    }
  }

  method NewHeader(m: Message) returns (byteArray: array<byte>)
    ensures fresh(byteArray) && byteArray[..] == Header(m, 0)
  {
    byteArray := new byte[HEADER_LENGTH](_ => 0);
    byteArray[0], byteArray[1] := 0xda, 0xbb;
    byteArray[2] := FlagByte(m);
    assert byteArray[..4] == [0xda, 0xbb, FlagByte(m), 0x00];
    PutWord(byteArray, 4, Word8(m.id));
    assert Word4(0) == [0, 0, 0, 0];
  }

  method PackRequest(g: Schema, m: Message, args: seq<Arg>, params: seq<Entry>) returns (out: Packed)
    requires forall i | 0 <= i < |args| :: Registered(g, args[i].ToValue())
    requires multiset(params) == multiset(Params(m))
    ensures out == Pack(g, m, args, params)
  {
    var byteArray := NewHeader(m);
    var encoder := new Encoder(g);
    encoder.Append(byteArray[..]);
    assert encoder.buffer == Header(m, 0) by { Ends(Header(m, 0)); }
    if m.heartbeat {
      encoder.EncodeAll([Null]);
    } else {
      var ok := EncodeBody(encoder, m, args, params);
      if !ok {
        return NoType;
      }
    }
    out := Finish(m, encoder.buffer, EncSeq(g, BodyValues(m, args, params), []).b);
  }

  /** The calls of packRequest that write a request body. */
  method EncodeBody(encoder: Encoder, m: Message, args: seq<Arg>, params: seq<Entry>) returns (ok: bool)
    requires !m.heartbeat && encoder.classInfoList == []
    requires forall i | 0 <= i < |args| :: Registered(encoder.schema, args[i].ToValue())
    requires multiset(params) == multiset(Params(m))
    modifies encoder
    ensures ok <==> AllTyped(args)
    ensures ok ==> encoder.buffer == old(encoder.buffer) + EncSeq(encoder.schema, BodyValues(m, args, params), []).b
  {
    var types;
    types, ok := GetArgsTypeList(args);
    if !ok {
      return;
    }
    ParamsRegistered(encoder.schema, m, params);
    BodyInParts(encoder.schema, m, args, params, encoder.buffer);
    encoder.EncodeAll([Str(DUBBO_VERSION), Str(m.target), Str(m.version), Str(m.methodName), Str(types)]);
    encoder.EncodeAll(Values(args));
    encoder.EncodeAll([Map(params)]);
  }

  lemma {:induction false} EncSeqAppend(g: Schema, a: seq<Value>, b: seq<Value>, tbl: seq<ClassDef>)
    ensures var x := EncSeq(g, a, tbl);
            var y := EncSeq(g, b, x.tbl);
            EncSeq(g, a + b, tbl) == Out(x.b + y.b, y.tbl)
    decreases |a|
  {
    if a == [] {
      Ends(b);
      Ends(EncSeq(g, b, tbl).b);
    } else {
      var first := Enc(g, a[0], tbl);
      assert (a + b)[0] == a[0] && (a + b)[1..] == a[1..] + b;
      EncSeqAppend(g, a[1..], b, first.tbl);
      var x := EncSeq(g, a[1..], first.tbl);
      Concat(first.b, x.b, EncSeq(g, b, x.tbl).b);
    }
  }

  /** Writing the preamble, the arguments and the parameters one after the other writes the body. */
  lemma BodyInParts(g: Schema, m: Message, args: seq<Arg>, params: seq<Entry>, start: bytes)
    requires !m.heartbeat
    ensures var x := EncSeq(g, Preamble(m, args), []);
            var y := EncSeq(g, Values(args), x.tbl);
            var z := EncSeq(g, [Map(params)], y.tbl);
            start + x.b + y.b + z.b == start + EncSeq(g, BodyValues(m, args, params), []).b
  {
    var x := EncSeq(g, Preamble(m, args), []);
    var y := EncSeq(g, Values(args), x.tbl);
    EncSeqAppend(g, Preamble(m, args), Values(args) + [Map(params)], []);
    EncSeqAppend(g, Values(args), [Map(params)], x.tbl);
    Concat4(start, x.b, y.b, EncSeq(g, [Map(params)], y.tbl).b);
  }

  /** The end of packRequest: `byteArray` is the encoder's own buffer, so patching the length into it
      changes the bytes that are then written, and only those four. */
  method Finish(m: Message, contents: bytes, ghost body: bytes) returns (out: Packed)
    requires contents == Header(m, 0) + body
    ensures out == if HEADER_LENGTH + |body| > DEFAULT_LEN then TooLarge else Sent(Header(m, |body|) + body)
  {
    var buffer := new byte[|contents|](i requires 0 <= i < |contents| => contents[i]);
    var byteArray := buffer;
    assert buffer[..] == contents;
    if buffer.Length > DEFAULT_LEN {
      return TooLarge;
    }
    PutWord(byteArray, 12, Word4(buffer.Length - HEADER_LENGTH));
    assert contents[..12] == Header(m, |body|)[..12];
    assert contents[16..] == body;
    assert buffer[..] == Header(m, |body|) + body;
    out := Sent(buffer[..]);
  }

  lemma ParamsRegistered(g: Schema, m: Message, params: seq<Entry>)
    requires multiset(params) == multiset(Params(m))
    ensures Registered(g, Map(params))
  {
    ParamsEncodable(g, m, params);
    EncodableIsRegistered(g, Map(params));
  }
}

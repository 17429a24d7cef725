/**
  * Compact 32-bit and 64-bit integers of Hessian 2.0 (sections 4.5 and 4.7 of the Hessian 2.0
  * Serialization Protocol): encInt32/encInt64 of encode.go and decInt32/decInt64 of decode.go.
  */
module HessianInt {
  import opened GoBase

  function EncInt32(v: int32): (b: bytes)
    ensures b != []
  {
    if -0x10 <= v <= 0x2f then [Byte(0x90 + v)]
    else if -0x800 <= v <= 0x7ff then [Byte(0xc8 + v / 0x100), Byte(v)]
    else if -0x40000 <= v <= 0x3ffff then [Byte(0xd4 + v / 0x1_0000)] + Word2(v)
    else [0x49] + Word4(v)
  }

  function EncInt64(v: int64): (b: bytes)
    ensures b != []
  {
    if -0x08 <= v <= 0x0f then [Byte(0xe0 + v)]
    else if -0x800 <= v <= 0x7ff then [Byte(0xf8 + v / 0x100), Byte(v)]
    else if -0x40000 <= v <= 0x3ffff then [Byte(0x3c + v / 0x1_0000)] + Word2(v)
    // the 0x59 form is guarded by 0x80000000 <= v && v <= 0x7fffffff, which no v meets
    else [0x4c] + Word8(v)
  }

  /** A compact tag's offset from its zero tag. The code subtracts bytes, so it wraps; the
      protocol means a signed difference. */
  function Offset(signed: bool, tag: int, zero: int): int {
    if signed || tag >= zero then tag - zero else tag - zero + 0x100
  }

  predicate IsInt32Tag(tag: byte) {
    0x80 <= tag <= 0xd7 || tag == 0x49
  }

  predicate IsInt64Tag(tag: byte) {
    0xd8 <= tag <= 0xff || 0x38 <= tag <= 0x3f || tag == 0x59 || tag == 0x4c
  }

  /** decInt32 after its tag, over the way a compact tag is read. */
  function DecInt32By(signed: bool, tag: byte, s: bytes): (r: Res<int32>)
    ensures |r.rest| <= |s|
    ensures r.err in {None, Fail}
  {
    if 0x80 <= tag <= 0xbf then Res(Offset(signed, tag, 0x90), None, s)
    else if 0xc0 <= tag <= 0xcf then
      var b := ReadFull(1, s);
      if b.err != None then Res(0, b.err, b.rest)
      else Res(Offset(signed, tag, 0xc8) * 0x100 + b.val[0], None, b.rest)
    else if 0xd0 <= tag <= 0xd7 then
      var b := ReadFull(2, s);
      if b.err != None then Res(0, b.err, b.rest)
      else Res(Offset(signed, tag, 0xd4) * 0x1_0000 + Num2(b.val), None, b.rest)
    else if tag == 0x49 then
      var b := ReadFull(4, s);
      if b.err != None then Res(0, b.err, b.rest) else Res(Wrap32(Num4(b.val)), None, b.rest)
    else Res(0, Fail, s)
  }

  function DecInt32(tag: byte, s: bytes): (r: Res<int32>)
    ensures |r.rest| <= |s|
    ensures r.err in {None, Fail}
  {
    DecInt32By(false, tag, s)
  }

  /** decInt32(TAG_READ). */
  function ReadInt32(s: bytes): (r: Res<int32>)
    ensures |r.rest| <= |s|
    ensures r.err in {None, Fail}
    ensures r.err == None ==> |r.rest| < |s|
  {
    DecInt32(Head(s), Tail(s))
  }

  /** decInt64 after its tag, over the way a compact tag is read. */
  function DecInt64By(signed: bool, tag: byte, s: bytes): (r: Res<int64>)
    ensures |r.rest| <= |s|
    ensures r.err in {None, Fail}
  {
    if tag == 0x4e || tag == 0x46 || tag == 0x5b then Res(0, None, s)
    else if tag == 0x54 || tag == 0x5c then Res(1, None, s)
    else if 0x80 <= tag <= 0xd7 then
      // the compact int forms are read as they are by decInt32
      var r := DecInt32By(signed, tag, s);
      Res(r.val, r.err, r.rest)
    else if tag == 0x5d then Res(Head(s), None, Tail(s))
    else if tag == 0x5e then
      var b := ReadFull(2, s);
      if b.err != None then Res(0, b.err, b.rest)
      else Res(Num2(b.val), None, b.rest)
    else if tag == 0x49 || tag == 0x59 || tag == 0x5f then
      // a second tag is read here instead of the four bytes of the integer
      var r := DecInt32By(signed, Head(s), Tail(s));
      Res(r.val, r.err, r.rest)
    else if 0xd8 <= tag <= 0xef then Res(Offset(signed, tag, 0xe0), None, s)
    else if 0xf0 <= tag <= 0xff then
      var b := ReadFull(1, s);
      if b.err != None then Res(0, b.err, b.rest)
      else Res(Offset(signed, tag, 0xf8) * 0x100 + b.val[0], None, b.rest)
    else if 0x38 <= tag <= 0x3f then
      var b := ReadFull(2, s);
      if b.err != None then Res(0, b.err, b.rest)
      else Res(Offset(signed, tag, 0x3c) * 0x1_0000 + Num2(b.val), None, b.rest)
    else if tag == 0x4c then
      var b := ReadFull(8, s);
      if b.err != None then Res(0, b.err, b.rest) else Res(Wrap64(Num8(b.val)), None, b.rest)
    else Res(0, Fail, s)
  }

  function DecInt64(tag: byte, s: bytes): (r: Res<int64>)
    ensures |r.rest| <= |s|
    ensures r.err in {None, Fail}
  {
    DecInt64By(false, tag, s)
  }

  /** decInt64(TAG_READ). */
  function ReadInt64(s: bytes): (r: Res<int64>)
    ensures |r.rest| <= |s|
    ensures r.err in {None, Fail}
  {
    DecInt64(Head(s), Tail(s))
  }

  /** What an int32 comes back as: each compact negative form is off by the weight of its tag byte. */
  function Shifted32(v: int32): int32 {
    if -0x10 <= v < 0 then v + 0x100
    else if -0x800 <= v < -0x10 then v + 0x1_0000
    else if -0x40000 <= v < -0x800 then v + 0x100_0000
    else v
  }

  function Shifted64(v: int64): int64 {
    if -0x08 <= v < 0 then v + 0x100
    else if -0x800 <= v < -0x08 then v + 0x1_0000
    else if -0x40000 <= v < -0x800 then v + 0x100_0000
    else v
  }

  /** A compact tag carries its high part `q` exactly when read signed, and `q` modulo 256 when
      read by byte subtraction. */
  lemma CompactTag(signed: bool, zero: byte, q: int)
    requires 0 <= zero + q < 0x100 && -0x80 <= q
    ensures Byte(zero + q) == zero + q
    ensures Offset(signed, Byte(zero + q), zero) == if signed || q >= 0 then q else q + 0x100
  {
  }

  lemma HighAndLow(v: int)
    ensures v == v / 0x100 * 0x100 + Byte(v)
    ensures v == v / 0x1_0000 * 0x1_0000 + Num2(Word2(v))
  {
    NumOfWord2(v);
  }

  // One lemma a wire form: the tag's high part together with the low bytes that follow it.

  lemma TwoByteForm(signed: bool, zero: byte, v: int, rest: bytes)
    requires -0x800 <= v <= 0x7ff && zero in {0xc8, 0xf8}
    ensures var s := [Byte(v)] + rest;
            var r := if signed || v >= 0 then v else v + 0x1_0000;
            var tag := Byte(zero + v / 0x100);
            && (zero == 0xc8 ==> IsInt32Tag(tag) && DecInt32By(signed, tag, s) == Res(r, None, rest))
            && (zero == 0xf8 ==> IsInt64Tag(tag) && DecInt64By(signed, tag, s) == Res(r, None, rest))
  {
    CompactTag(signed, zero, v / 0x100);
    HighAndLow(v);
    Split([Byte(v)], rest);
  }

  lemma ThreeByteForm(signed: bool, zero: byte, v: int, rest: bytes)
    requires -0x40000 <= v <= 0x3ffff && zero in {0xd4, 0x3c}
    ensures var s := Word2(v) + rest;
            var r := if signed || v >= 0 then v else v + 0x100_0000;
            var tag := Byte(zero + v / 0x1_0000);
            && (zero == 0xd4 ==> IsInt32Tag(tag) && DecInt32By(signed, tag, s) == Res(r, None, rest))
            && (zero == 0x3c ==> IsInt64Tag(tag) && DecInt64By(signed, tag, s) == Res(r, None, rest))
  {
    CompactTag(signed, zero, v / 0x1_0000);
    HighAndLow(v);
    Split(Word2(v), rest);
  }

  lemma FullForm32(signed: bool, v: int32, rest: bytes)
    ensures DecInt32By(signed, 0x49, Word4(v) + rest) == Res(v, None, rest)
  {
    Split(Word4(v), rest);
    assert ReadFull(4, Word4(v) + rest) == Res(Word4(v), None, rest);
    NumOfWord4(v);
    WrapBack(v, Num4(Word4(v)));
  }

  lemma FullForm64(signed: bool, v: int64, rest: bytes)
    ensures DecInt64By(signed, 0x4c, Word8(v) + rest) == Res(v, None, rest)
  {
    Split(Word8(v), rest);
    assert ReadFull(8, Word8(v) + rest) == Res(Word8(v), None, rest);
    NumOfWord8(v);
    WrapBack(v, Num8(Word8(v)));
  }

  /** Decoding an encoded int32 consumes exactly its bytes and yields the value itself with the
      protocol's signed tags, and the shifted value with the code's byte subtraction. */
  predicate ReadsBack32(signed: bool, v: int32, rest: bytes) {
    var b := EncInt32(v);
    && IsInt32Tag(b[0])
    && DecInt32By(signed, b[0], b[1..] + rest) == Res(if signed then v else Shifted32(v), None, rest)
  }

  predicate ReadsBack64(signed: bool, v: int64, rest: bytes) {
    var b := EncInt64(v);
    && IsInt64Tag(b[0])
    && DecInt64By(signed, b[0], b[1..] + rest) == Res(if signed then v else Shifted64(v), None, rest)
  }

  lemma OneByteReadsBack(signed: bool, v: int, rest: bytes)
    ensures -0x10 <= v <= 0x2f ==> ReadsBack32(signed, v, rest)
    ensures -0x08 <= v <= 0x0f ==> ReadsBack64(signed, v, rest)
  {
    if -0x10 <= v <= 0x2f {
      CompactTag(signed, 0x90, v);
      assert EncInt32(v)[1..] + rest == rest;
    }
    if -0x08 <= v <= 0x0f {
      CompactTag(signed, 0xe0, v);
      assert EncInt64(v)[1..] + rest == rest;
    }
  }

  lemma TwoBytesReadBack32(signed: bool, v: int32, rest: bytes)
    requires -0x800 <= v <= 0x7ff && !(-0x10 <= v <= 0x2f)
    ensures ReadsBack32(signed, v, rest)
  {
    assert EncInt32(v)[1..] == [Byte(v)];
    TwoByteForm(signed, 0xc8, v, rest);
  }

  lemma TwoBytesReadBack64(signed: bool, v: int64, rest: bytes)
    requires -0x800 <= v <= 0x7ff && !(-0x08 <= v <= 0x0f)
    ensures ReadsBack64(signed, v, rest)
  {
    assert EncInt64(v)[1..] == [Byte(v)];
    TwoByteForm(signed, 0xf8, v, rest);
  }

  lemma ThreeBytesReadBack32(signed: bool, v: int32, rest: bytes)
    requires -0x40000 <= v <= 0x3ffff && !(-0x800 <= v <= 0x7ff)
    ensures ReadsBack32(signed, v, rest)
  {
    assert EncInt32(v)[1..] == Word2(v);
    ThreeByteForm(signed, 0xd4, v, rest);
  }

  lemma ThreeBytesReadBack64(signed: bool, v: int64, rest: bytes)
    requires -0x40000 <= v <= 0x3ffff && !(-0x800 <= v <= 0x7ff)
    ensures ReadsBack64(signed, v, rest)
  {
    assert EncInt64(v)[1..] == Word2(v);
    ThreeByteForm(signed, 0x3c, v, rest);
  }

  lemma RoundTrip32By(signed: bool, v: int32, rest: bytes)
    ensures ReadsBack32(signed, v, rest)
  {
    if -0x10 <= v <= 0x2f {
      OneByteReadsBack(signed, v, rest);
    } else if -0x800 <= v <= 0x7ff {
      TwoBytesReadBack32(signed, v, rest);
    } else if -0x40000 <= v <= 0x3ffff {
      ThreeBytesReadBack32(signed, v, rest);
    } else {
      assert EncInt32(v)[1..] == Word4(v);
      FullForm32(signed, v, rest);
    }
  }

  lemma RoundTrip64By(signed: bool, v: int64, rest: bytes)
    ensures ReadsBack64(signed, v, rest)
  {
    if -0x08 <= v <= 0x0f {
      OneByteReadsBack(signed, v, rest);
    } else if -0x800 <= v <= 0x7ff {
      TwoBytesReadBack64(signed, v, rest);
    } else if -0x40000 <= v <= 0x3ffff {
      ThreeBytesReadBack64(signed, v, rest);
    } else {
      assert EncInt64(v)[1..] == Word8(v);
      FullForm64(signed, v, rest);
    }
  }

  /** The code round-trips an int32 exactly outside the compact negative ranges; against the
      protocol's signed tags the same encoder round-trips every int32. */
  lemma Int32Exact(v: int32, rest: bytes)
    ensures ReadInt32(EncInt32(v) + rest).err == None && ReadInt32(EncInt32(v) + rest).rest == rest
    ensures ReadInt32(EncInt32(v) + rest).val == v <==> v >= 0 || v < -0x40000
    ensures DecInt32By(true, EncInt32(v)[0], EncInt32(v)[1..] + rest) == Res(v, None, rest)
  {
    Split(EncInt32(v), rest);
    RoundTrip32By(false, v, rest);
    RoundTrip32By(true, v, rest);
  }

  lemma Int64Exact(v: int64, rest: bytes)
    ensures ReadInt64(EncInt64(v) + rest).err == None && ReadInt64(EncInt64(v) + rest).rest == rest
    ensures ReadInt64(EncInt64(v) + rest).val == v <==> v >= 0 || v < -0x40000
    ensures DecInt64By(true, EncInt64(v)[0], EncInt64(v)[1..] + rest) == Res(v, None, rest)
  {
    Split(EncInt64(v), rest);
    RoundTrip64By(false, v, rest);
    RoundTrip64By(true, v, rest);
  }

  /** The int64 reader takes the four-byte int32 form for a tag followed by another tag. It reads an
      int32 as the int32 reader does if and only if that form is not used. */
  lemma Int32AsInt64Exact(i: int32, rest: bytes)
    ensures ReadInt64(EncInt32(i) + rest) == Res(Shifted32(i), None, rest) <==> -0x40000 <= i <= 0x3ffff
  {
    if -0x40000 <= i <= 0x3ffff {
      CompactAsInt64(i, rest);
    } else {
      assert EncInt32(i) == [0x49] + Word4(i);
      FourBytesAsInt64(Word4(i), rest);
    }
  }

  lemma CompactAsInt64(i: int32, rest: bytes)
    requires -0x40000 <= i <= 0x3ffff
    ensures ReadInt64(EncInt32(i) + rest) == Res(Shifted32(i), None, rest)
  {
    Split(EncInt32(i), rest);
    RoundTrip32By(false, i, rest);
    CompactTags(i);
    SameCompactForms(EncInt32(i)[0], EncInt32(i)[1..] + rest);
  }

  lemma FourBytesAsInt64(w: bytes, rest: bytes)
    requires |w| == 4
    ensures ReadInt64([0x49] + w + rest).rest != rest || ReadInt64([0x49] + w + rest).err != None
  {
    SecondRead(w[0], w[1..] + rest, rest);
    assert [0x49] + w + rest == [0x49, w[0]] + (w[1..] + rest);
  }

  lemma CompactTags(i: int32)
    requires -0x40000 <= i <= 0x3ffff
    ensures 0x80 <= EncInt32(i)[0] <= 0xd7
  {
  }

  lemma SameCompactForms(tag: byte, s: bytes)
    requires 0x80 <= tag <= 0xd7
    ensures var r := DecInt32(tag, s);
            DecInt64(tag, s) == Res(r.val, r.err, r.rest)
  {
  }

  /** Whatever tag the number's first byte is, reading on from it does not end where the number ends. */
  lemma SecondRead(tag: byte, s: bytes, rest: bytes)
    requires |s| == 3 + |rest|
    ensures ReadInt64([0x49, tag] + s).rest != rest || ReadInt64([0x49, tag] + s).err != None
  {
    var t: bytes := [0x49, tag] + s;
    assert t[1..] == [tag] + s && t[1..][1..] == s;
    var r := DecInt32By(false, tag, s);
    assert r.err == None ==> |r.rest| != |rest|;
  }
}

/**
  * Chunked binary data of Hessian 2.0 (section 4.1 of the Hessian 2.0 Serialization Protocol):
  * encBinary of encode.go and decBinary of decode.go.
  */
module HessianBinary {
  import opened GoBase
  import opened HessianInt

  const CHUNK_SIZE := 4096

  /** The header of a chunk of `n` bytes. */
  function BinaryHeader(n: nat, last: bool): (b: bytes)
    requires n <= CHUNK_SIZE
    ensures 1 <= |b| <= 3
  {
    if !last then [0x41] + Word2(n)
    else if n <= 0x0f then [0x20 + n]
    else if n <= 0x3ff then [0x34 + n / 0x100, Byte(n)]
    else [0x42] + Word2(n)
  }

  /** The chunks of a non-empty byte string. */
  function Chunked(v: bytes): (b: bytes)
    ensures b != []
  {
    if |v| > CHUNK_SIZE then
      BinaryHeader(CHUNK_SIZE, false) + (v[..CHUNK_SIZE] + Chunked(v[CHUNK_SIZE..]))
    else
      BinaryHeader(|v|, true) + v
  }

  /** encBinary: empty data is written as null. */
  function EncBinary(v: bytes): (b: bytes)
    ensures b != []
  {
    if v == [] then [0x4e] else Chunked(v)
  }

  predicate IsBinaryTag(tag: byte) {
    0x20 <= tag <= 0x2f || 0x34 <= tag <= 0x37 || tag == 0x41 || tag == 0x42
  }

  function BinaryLength(tag: byte, s: bytes): (r: Res<nat>)
    ensures |r.rest| <= |s|
    ensures r.err in {None, Fail}
    ensures r.err == None ==> IsBinaryTag(tag)
    ensures r.err == None && tag == 0x41 ==> |r.rest| + 2 == |s|
  {
    if 0x20 <= tag <= 0x2f then Res(tag - 0x20, None, s)
    else if 0x34 <= tag <= 0x37 then
      var b := ReadFull(1, s);
      if b.err != None then Res(0, Fail, b.rest) else Res((tag - 0x34) * 0x100 + b.val[0], None, b.rest)
    else if tag != 0x41 && tag != 0x42 then Res(0, Fail, s)
    else
      var b := ReadFull(2, s);
      if b.err != None then Res(0, Fail, b.rest) else Res(Num2(b.val), None, b.rest)
  }

  /** The chunk loop of decBinary. A chunk longer than 4096 bytes stops it with nil data and,
      since the error it annotates is nil, no error. */
  function ReadChunks(data: bytes, tag: byte, s: bytes): (r: Res<bytes>)
    ensures |r.rest| <= |s|
    ensures r.err in {None, Fail}
    decreases |s|
  {
    var l := BinaryLength(tag, s);
    if l.err != None then Res([], Fail, l.rest)
    else if CHUNK_SIZE < l.val then Res([], None, l.rest)
    else
      var c := ReadFull(l.val, l.rest);
      if c.err != None then Res([], Fail, c.rest)
      else if tag == 0x41 then
        assert |Tail(c.rest)| <= |c.rest| <= |l.rest| < |s|;
        ReadChunks(data + c.val, Head(c.rest), Tail(c.rest))
      else Res(data + c.val, None, c.rest)
  }

  /** decBinary after its tag. */
  function DecBinary(tag: byte, s: bytes): (r: Res<bytes>)
    ensures |r.rest| <= |s|
    ensures r.err in {None, Fail}
  {
    if tag == 0x4e then Res([], None, s) else ReadChunks([], tag, s)
  }

  lemma BinaryHeaderLength(n: nat, last: bool, rest: bytes)
    requires n <= CHUNK_SIZE
    ensures var h := BinaryHeader(n, last);
            && IsBinaryTag(h[0]) && (h[0] != 0x41 <==> last)
            && BinaryLength(h[0], h[1..] + rest) == Res(n, None, rest)
  {
    var h := BinaryHeader(n, last);
    Split(h[1..], rest);
    if !last || n > 0x3ff {
      assert h[1..] == Word2(n);
      NumOfWord2(n);
    } else {
      HighAndLow(n);
    }
  }

  lemma ReadOneChunk(data: bytes, n: nat, last: bool, c: bytes, more: bytes)
    requires |c| == n <= CHUNK_SIZE
    ensures var h := BinaryHeader(n, last);
            ReadChunks(data, h[0], h[1..] + (c + more)) ==
            if last then Res(data + c, None, more) else ReadChunks(data + c, Head(more), Tail(more))
  {
    BinaryHeaderLength(n, last, c + more);
    Split(c, more);
  }

  lemma {:induction false} ReadChunked(data: bytes, v: bytes, rest: bytes)
    ensures var b := Chunked(v);
            IsBinaryTag(b[0]) && ReadChunks(data, b[0], b[1..] + rest) == Res(data + v, None, rest)
    decreases |v|
  {
    if |v| > CHUNK_SIZE {
      var first, others := v[..CHUNK_SIZE], v[CHUNK_SIZE..];
      Peel(BinaryHeader(CHUNK_SIZE, false), first, Chunked(others), rest);
      BinaryHeaderLength(CHUNK_SIZE, false, []);
      ReadOneChunk(data, CHUNK_SIZE, false, first, Chunked(others) + rest);
      Split(Chunked(others), rest);
      ReadChunked(data + first, others, rest);
      Concat(data, first, others);
      assert first + others == v;
    } else {
      Peel(BinaryHeader(|v|, true), v, [], rest);
      BinaryHeaderLength(|v|, true, []);
      ReadOneChunk(data, |v|, true, v, rest);
    }
  }

  /** decBinary inverts encBinary on data of any length. The empty byte string goes out as null, so
      it alone is not recognised as binary by its tag. */
  lemma BinaryRoundTrip(v: bytes, rest: bytes)
    ensures var b := EncBinary(v);
            && DecBinary(b[0], b[1..] + rest) == Res(v, None, rest)
            && (IsBinaryTag(b[0]) <==> v != [])
            && (v == [] ==> b == [0x4e])
  {
    if v == [] {
      assert EncBinary(v)[1..] + rest == rest;
    } else {
      ReadChunked([], v, rest);
      assert [] + v == v;
    }
  }

  /** The size of an encoding: the data, three bytes for each full chunk before the last one, and
      the last chunk's header of one, two or three bytes. */
  lemma {:induction false} BinarySize(v: bytes)
    requires v != []
    ensures var last := (|v| - 1) % CHUNK_SIZE + 1;
            var h := if last <= 0x0f then 1 else if last <= 0x3ff then 2 else 3;
            |EncBinary(v)| == |v| + 3 * ((|v| - 1) / CHUNK_SIZE) + h
    decreases |v|
  {
    if |v| > CHUNK_SIZE {
      var others := v[CHUNK_SIZE..];
      BinarySize(others);
      assert (|v| - 1) / CHUNK_SIZE == (|others| - 1) / CHUNK_SIZE + 1;
      assert (|v| - 1) % CHUNK_SIZE == (|others| - 1) % CHUNK_SIZE;
    }
  }

  /** encBinary: the loop slices chunks off the front of `v`. */
  method EncodeBinary(v: bytes, b: bytes) returns (out: bytes)
    ensures out == b + EncBinary(v)
  {
    if |v| == 0 {
      return b + [0x4e];
    }
    out := b;
    var left := v;
    while |left| > 0
      invariant (if left == [] then out else out + Chunked(left)) == b + EncBinary(v)
      decreases |left|
    {
      ghost var before := out;
      var length;
      if |left| > CHUNK_SIZE {
        length := CHUNK_SIZE;
        out := out + ([0x41] + Word2(length));
      } else {
        length := |left|;
        if |left| <= 0x0f {
          out := out + [0x20 + |left|];
        } else if |left| <= 0x3ff {
          out := out + [0x34 + |left| / 0x100, Byte(|left|)];
        } else {
          out := out + ([0x42] + Word2(|left|));
        }
      }
      Concat4(before, BinaryHeader(length, |left| <= CHUNK_SIZE), left[..length], Chunked(left[length..]));
      Concat(before, BinaryHeader(length, |left| <= CHUNK_SIZE), left[..length]);
      out := out + left[..length];
      assert |left| <= CHUNK_SIZE ==> left[..length] == left;
      left := left[length..];
    }
  }
}

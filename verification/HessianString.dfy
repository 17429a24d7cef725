/**
  * Chunked strings of Hessian 2.0 (section 4.12 of the Hessian 2.0 Serialization Protocol):
  * encString of encode.go and decString of decode.go. Lengths count runes, payloads are UTF-8.
  */
module HessianString {
  import opened GoBase
  import opened HessianInt
  import opened Unicode

  const CHUNK_SIZE := 4096

  /** The header of a chunk of `n` runes. */
  function StringHeader(n: nat, last: bool): (b: bytes)
    requires n <= CHUNK_SIZE
    ensures 1 <= |b| <= 3
  {
    if !last then [0x52] + Word2(n)
    else if n <= 0x1f then [n]
    else if n <= 0x3ff then [0x30 + n / 0x100, Byte(n)]
    else [0x53] + Word2(n)
  }

  function EncString(rs: string): (b: bytes)
    ensures b != []
  {
    if |rs| > CHUNK_SIZE then
      StringHeader(CHUNK_SIZE, false) + (Utf8(rs[..CHUNK_SIZE]) + EncString(rs[CHUNK_SIZE..]))
    else
      StringHeader(|rs|, true) + Utf8(rs)
  }

  predicate IsStringTag(tag: byte) {
    tag <= 0x1f || 0x30 <= tag <= 0x33 || tag == 0x52 || tag == 0x53
  }

  /** getStringLength: an unknown tag yields -1 and, because no error was raised, a nil error. */
  function StringLength(tag: byte, s: bytes): (r: Res<int>)
    ensures |r.rest| <= |s|
    ensures r.err in {None, Fail} && r.val >= -1
    ensures r.err == None ==> (r.val >= 0 <==> IsStringTag(tag))
  {
    if tag <= 0x1f then Res(tag, None, s)
    else if 0x30 <= tag <= 0x33 then
      var b := ReadFull(1, s);
      if b.err != None then Res(-1, Fail, b.rest) else Res((tag - 0x30) * 0x100 + b.val[0], None, b.rest)
    else if tag == 0x52 || tag == 0x53 then
      var b := ReadFull(2, s);
      if b.err != None then Res(-1, Fail, b.rest) else Res(Num2(b.val), None, b.rest)
    else Res(-1, None, s)
  }

  /** The rune loop of decString with `n` runes of the current chunk still to read. A chunk that
      was not the last is followed by the tag of the next one, whatever that byte is. */
  function Fill(acc: string, n: nat, last: bool, s: bytes): (r: Res<string>)
    ensures |r.rest| <= |s|
    ensures r.err in {None, Fail, Panic}
    decreases |s|, n, if last then 0 else 1
  {
    if n > 0 then
      if s == [] then Res("", Fail, [])
      else var c := DecRune(s); Fill(acc + [c.c], n - 1, last, s[c.width..])
    else if last then Res(acc, None, s)
    else
      var tag := Head(s);
      var l := StringLength(tag, Tail(s));
      if l.err != None then Res("", Fail, l.rest)
      else if l.val >= 0 then Fill(acc, l.val, tag != 0x52, l.rest)
      // an unknown tag shrinks the rune slice by one: make panics on a negative length, and the
      // next rune read is stored out of range
      else if acc != [] && l.rest == [] then Res("", Fail, [])
      else Res("", Panic, l.rest)
  }

  /** Null, booleans and numbers are accepted where a string is expected, and printed. */
  function PrintScalar(tag: byte, s: bytes): (r: Res<string>)
    requires !IsStringTag(tag)
    ensures |r.rest| <= |s|
    ensures r.err != EOF
  {
    if tag == 0x4e then Res("null", None, s)
    else if tag == 0x54 then Res("true", None, s)
    else if tag == 0x46 then Res("false", None, s)
    else if IsInt32Tag(tag) || IsInt64Tag(tag) then
      var i := DecInt64(tag, s);
      if i.err != None then Res("", Fail, i.rest) else Res(Itoa(i.val), None, i.rest)
    else if tag == 0x5b then Res("0.0", None, s)
    else if tag == 0x5c then Res("1.0", None, s)
    else if tag == 0x5d || tag == 0x5e then Res("", Unmodelled, s)
    else Res("", Fail, s)
  }

  /** decString after its tag. */
  function DecString(tag: byte, s: bytes): (r: Res<string>)
    ensures |r.rest| <= |s|
    ensures r.err != EOF
  {
    if !IsStringTag(tag) then PrintScalar(tag, s)
    else
      var l := StringLength(tag, s);
      if l.err != None then Res("", Fail, l.rest) else Fill("", l.val, tag != 0x52, l.rest)
  }

  /** decString(TAG_READ): at the end of input the ignored read error leaves tag 0, which reads as
      the empty string. */
  function ReadString(s: bytes): (r: Res<string>)
    ensures |r.rest| <= |s|
    ensures r.err != EOF
  {
    DecString(Head(s), Tail(s))
  }

  lemma FillOne(acc: string, c: char, n: nat, last: bool, more: bytes)
    ensures Fill(acc, n + 1, last, EncRune(c) + more) == Fill(acc + [c], n, last, more)
  {
    DecRuneOfEncRune(c, more);
    Split(EncRune(c), more);
  }

  lemma OneRune(acc: string, rs: string, last: bool, rest: bytes)
    requires rs != []
    ensures Fill(acc, |rs|, last, Utf8(rs) + rest) == Fill(acc + [rs[0]], |rs| - 1, last, Utf8(rs[1..]) + rest)
  {
    Concat(EncRune(rs[0]), Utf8(rs[1..]), rest);
    FillOne(acc, rs[0], |rs| - 1, last, Utf8(rs[1..]) + rest);
  }

  lemma {:induction false} FillRunes(acc: string, rs: string, last: bool, rest: bytes)
    ensures Fill(acc, |rs|, last, Utf8(rs) + rest) == Fill(acc + rs, 0, last, rest)
    decreases |rs|
  {
    if rs == [] {
      Ends(rest);
      Ends(acc);
    } else {
      assert Fill(acc + [rs[0]], |rs| - 1, last, Utf8(rs[1..]) + rest) == Fill(acc + rs, 0, last, rest) by {
        FillRunes(acc + [rs[0]], rs[1..], last, rest);
        Shift(acc, rs);
      }
      OneRune(acc, rs, last, rest);
    }
  }

  lemma HeaderLength(n: nat, last: bool, rest: bytes)
    requires n <= CHUNK_SIZE
    ensures var h := StringHeader(n, last);
            && IsStringTag(h[0]) && (h[0] != 0x52 <==> last)
            && StringLength(h[0], h[1..] + rest) == Res(n, None, rest)
  {
    var h := StringHeader(n, last);
    Split(h[1..], rest);
    if !last || n > 0x3ff {
      assert h[1..] == Word2(n);
      NumOfWord2(n);
    } else {
      HighAndLow(n);
    }
  }

  /** The runes of the first chunk, and the encoding of the others. */
  function FirstRunes(rs: string): string {
    if |rs| > CHUNK_SIZE then rs[..CHUNK_SIZE] else rs
  }

  function MoreChunks(rs: string): bytes {
    if |rs| > CHUNK_SIZE then EncString(rs[CHUNK_SIZE..]) else []
  }

  lemma FirstChunk(rs: string, rest: bytes)
    ensures var b := EncString(rs);
            var first := FirstRunes(rs);
            && IsStringTag(b[0]) && (b[0] == 0x52 <==> |rs| > CHUNK_SIZE)
            && StringLength(b[0], b[1..] + rest) == Res(|first|, None, Utf8(first) + (MoreChunks(rs) + rest))
  {
    var first := FirstRunes(rs);
    var h := StringHeader(|first|, |rs| <= CHUNK_SIZE);
    Peel(h, Utf8(first), MoreChunks(rs), rest);
    assert EncString(rs) == h + (Utf8(first) + MoreChunks(rs));
    HeaderLength(|first|, |rs| <= CHUNK_SIZE, Utf8(first) + (MoreChunks(rs) + rest));
  }

  lemma NextChunk(acc: string, s: bytes)
    requires s != [] && IsStringTag(s[0]) && StringLength(s[0], s[1..]).err == None
    ensures var l := StringLength(s[0], s[1..]);
            && Fill(acc, 0, false, s) == Fill(acc, l.val, s[0] != 0x52, l.rest)
            && DecString(s[0], s[1..]) == Fill("", l.val, s[0] != 0x52, l.rest)
  {
  }

  /** Reading the first chunk of an encoded string leaves the encoding of its other runes. */
  lemma FillFirst(acc: string, rs: string, rest: bytes)
    ensures var s := EncString(rs) + rest;
            var after := Fill(acc + FirstRunes(rs), 0, |rs| <= CHUNK_SIZE, MoreChunks(rs) + rest);
            && IsStringTag(s[0])
            && Fill(acc, 0, false, s) == after
            && (acc == "" ==> DecString(s[0], s[1..]) == after)
  {
    Split(EncString(rs), rest);
    FirstChunk(rs, rest);
    NextChunk(acc, EncString(rs) + rest);
    FillRunes(acc, FirstRunes(rs), |rs| <= CHUNK_SIZE, MoreChunks(rs) + rest);
  }

  lemma {:induction false} FillChunks(acc: string, rs: string, rest: bytes)
    ensures Fill(acc, 0, false, EncString(rs) + rest) == Res(acc + rs, None, rest)
    decreases |rs|
  {
    FillFirst(acc, rs, rest);
    FillRest(acc, rs, rest);
  }

  lemma FillRest(acc: string, rs: string, rest: bytes)
    ensures Fill(acc + FirstRunes(rs), 0, |rs| <= CHUNK_SIZE, MoreChunks(rs) + rest) == Res(acc + rs, None, rest)
    decreases |rs|, 0
  {
    if |rs| > CHUNK_SIZE {
      FillChunks(acc + rs[..CHUNK_SIZE], rs[CHUNK_SIZE..], rest);
      assert acc + rs[..CHUNK_SIZE] + rs[CHUNK_SIZE..] == acc + rs;
    } else {
      assert [] + rest == rest;
    }
  }

  /** Splitting a string of any length into rune-counted chunks and rejoining them gives it back,
      whatever follows on the wire. */
  lemma StringRoundTrip(rs: string, rest: bytes)
    ensures IsStringTag(EncString(rs)[0])
    ensures DecString(EncString(rs)[0], EncString(rs)[1..] + rest) == Res(rs, None, rest)
    ensures IsStringTag(Head(EncString(rs) + rest))
    ensures ReadString(EncString(rs) + rest) == Res(rs, None, rest)
  {
    Split(EncString(rs), rest);
    FillFirst("", rs, rest);
    FillRest("", rs, rest);
    assert "" + rs == rs;
  }

  /** The number of chunks a string of `n` runes is cut into. */
  function Chunks(n: nat): nat {
    if n == 0 then 1 else (n - 1) / CHUNK_SIZE + 1
  }

  lemma ChunksStep(n: nat)
    requires n > CHUNK_SIZE
    ensures Chunks(n) == 1 + Chunks(n - CHUNK_SIZE)
  {
  }

  /** Chunking costs at most three bytes for every started chunk of 4096 runes. */
  lemma {:induction false} StringOverhead(rs: string)
    ensures |Utf8(rs)| < |EncString(rs)| <= |Utf8(rs)| + 3 * Chunks(|rs|)
    decreases |rs|
  {
    if |rs| > CHUNK_SIZE {
      StringOverhead(rs[CHUNK_SIZE..]);
      assert |Utf8(rs)| == |Utf8(rs[..CHUNK_SIZE])| + |Utf8(rs[CHUNK_SIZE..])| by {
        Utf8Append(rs[..CHUNK_SIZE], rs[CHUNK_SIZE..]);
        assert rs[..CHUNK_SIZE] + rs[CHUNK_SIZE..] == rs;
      }
      ChunksStep(|rs|);
    }
  }

  /** A Go string, taken as its bytes, comes back unchanged exactly when it is valid UTF-8. */
  lemma GoStringRoundTrip(v: bytes, rest: bytes)
    ensures var r := ReadString(EncString(Runes(v)) + rest);
            && r.err == None && r.rest == rest
            && (Utf8(r.val) == v <==> exists rs: string :: Utf8(rs) == v)
  {
    StringRoundTrip(Runes(v), rest);
    ValidUtf8(v);
  }

  /** The `vChunk` closure of encString: `length` ReadRune calls on `vBuf`. */
  method CopyRunes(vBuf: bytes, length: nat, b: bytes) returns (left: bytes, out: bytes)
    requires length <= |Runes(vBuf)|
    ensures Runes(left) == Runes(vBuf)[length..]
    ensures out == b + Utf8(Runes(vBuf)[..length])
  {
    left, out := vBuf, b;
    ghost var rs := Runes(vBuf);
    for i := 0 to length
      invariant Runes(left) == rs[i..]
      invariant out == b + Utf8(rs[..i])
    {
      var r := DecRune(left);
      assert r.c == rs[i] && Runes(left[r.width..]) == rs[i + 1..] by {
        assert rs[i..][0] == rs[i] && rs[i..][1..] == rs[i + 1..];
      }
      OneMoreRune(rs, i);
      Concat(b, Utf8(rs[..i]), EncRune(r.c));
      out := out + EncRune(r.c);
      left := left[r.width..];
    }
  }

  lemma OneMoreRune(rs: string, i: nat)
    requires i < |rs|
    ensures Utf8(rs[..i + 1]) == Utf8(rs[..i]) + EncRune(rs[i])
  {
    assert rs[..i] + [rs[i]] == rs[..i + 1];
    Utf8Append(rs[..i], [rs[i]]);
    assert Utf8([rs[i]]) == EncRune(rs[i]) + Utf8([]);
  }

  /** encString over the bytes of a Go string. */
  method EncodeString(v: bytes, b: bytes) returns (out: bytes)
    ensures out == b + EncString(Runes(v))
  {
    if v == [] {
      return b + [0x00];
    }
    out := b;
    var vBuf := v;
    ghost var done := false;
    while true
      invariant done <==> Runes(vBuf) == []
      invariant (if done then out else out + EncString(Runes(vBuf))) == b + EncString(Runes(v))
      decreases |Runes(vBuf)|
    {
      ghost var rs, before := Runes(vBuf), out;
      var vLen := |Runes(vBuf)|;
      if vLen == 0 {
        break;
      }
      if vLen > CHUNK_SIZE {
        out := out + ([0x52] + Word2(CHUNK_SIZE));
        vBuf, out := CopyRunes(vBuf, CHUNK_SIZE, out);
        Concat4(before, StringHeader(CHUNK_SIZE, false), Utf8(rs[..CHUNK_SIZE]), EncString(rs[CHUNK_SIZE..]));
      } else {
        if vLen <= 0x1f {
          out := out + [vLen];
        } else if vLen <= 0x3ff {
          out := out + [0x30 + vLen / 0x100, Byte(vLen)];
        } else {
          out := out + ([0x53] + Word2(vLen));
        }
        vBuf, out := CopyRunes(vBuf, vLen, out);
        assert rs[..vLen] == rs;
        Concat(before, StringHeader(vLen, true), Utf8(rs));
        done := true;
      }
    }
  }
}

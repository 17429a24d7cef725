/**
  * The parts of Go that the modelled code leans on: bytes, sized integers, big-endian
  * words, read results and decimal printing.
  */
module GoBase {
  type byte = x: int | 0 <= x < 0x100
  type bytes = seq<byte>
  type int32 = x: int | -0x8000_0000 <= x < 0x8000_0000
  type int64 = x: int | -0x8000_0000_0000_0000 <= x < 0x8000_0000_0000_0000

  /** How a Go call ends. `EOF` is the bare `io.EOF` that callers compare against; `Fail` is any
      other error value; `Panic` is a run-time panic; `Unmodelled` marks wire forms this model
      leaves out (dates, doubles, typed lists, typed maps, references). */
  datatype Error = None | EOF | Fail | Panic | Unmodelled

  /** A Go error after `jerrors.Trace`/`Annotate`: no longer equal to `io.EOF`. */
  function Trace(e: Error): Error {
    if e == EOF then Fail else e
  }

  /** The value and error a reading function returns, with the bytes it left unread. */
  datatype Res<T> = Res(val: T, err: Error, rest: bytes)

  /** Go's conversion `byte(x)` of a two's complement integer. */
  function Byte(x: int): byte {
    if 0 <= x < 0x100 then x else x % 0x100
  }

  /** Go's conversion `int32(x)`. */
  function Wrap32(x: int): int32 {
    if -0x8000_0000 <= x < 0x8000_0000 then x else (x + 0x8000_0000) % 0x1_0000_0000 - 0x8000_0000
  }

  /** Go's conversion `int64(x)`. */
  function Wrap64(x: int): int64 {
    if -0x8000_0000_0000_0000 <= x < 0x8000_0000_0000_0000 then x
    else (x + 0x8000_0000_0000_0000) % 0x1_0000_0000_0000_0000 - 0x8000_0000_0000_0000
  }

  /** The big-endian words of `binary.BigEndian.PutUint16/32/64` over the low bits of `x`. */
  function Word2(x: int): (b: bytes)
    ensures |b| == 2
  {
    [Byte(x / 0x100), Byte(x)]
  }

  function Word4(x: int): (b: bytes)
    ensures |b| == 4
  {
    Word2(x / 0x1_0000) + Word2(x)
  }

  function Word8(x: int): (b: bytes)
    ensures |b| == 8
  {
    Word4(x / 0x1_0000_0000) + Word4(x)
  }

  function Num2(b: bytes): (n: int)
    requires |b| == 2
    ensures 0 <= n < 0x1_0000
  {
    var hi, lo: int := b[0], b[1];
    hi * 0x100 + lo
  }

  function Num4(b: bytes): (n: int)
    requires |b| == 4
    ensures 0 <= n < 0x1_0000_0000
  {
    Num2(b[..2]) * 0x1_0000 + Num2(b[2..])
  }

  function Num8(b: bytes): (n: int)
    requires |b| == 8
    ensures 0 <= n < 0x1_0000_0000_0000_0000
  {
    Num4(b[..4]) * 0x1_0000_0000 + Num4(b[4..])
  }

  /** Reading a big-endian word back gives the integer modulo the word's width. */
  lemma NumOfWord2(x: int)
    ensures Num2(Word2(x)) == x % 0x1_0000
  {
  }

  lemma Halves32(x: int)
    ensures x / 0x1_0000 % 0x1_0000 * 0x1_0000 + x % 0x1_0000 == x % 0x1_0000_0000
  {
    var k, r := x / 0x1_0000_0000, x % 0x1_0000_0000;
    assert x / 0x1_0000 == k * 0x1_0000 + r / 0x1_0000;
  }

  lemma Halves64(x: int)
    ensures x / 0x1_0000_0000 % 0x1_0000_0000 * 0x1_0000_0000 + x % 0x1_0000_0000 == x % 0x1_0000_0000_0000_0000
  {
    var k, r := x / 0x1_0000_0000_0000_0000, x % 0x1_0000_0000_0000_0000;
    assert x / 0x1_0000_0000 == k * 0x1_0000_0000 + r / 0x1_0000_0000;
  }

  lemma NumOfHalves(hi: bytes, lo: bytes)
    ensures |hi| == 2 == |lo| ==> Num4(hi + lo) == Num2(hi) * 0x1_0000 + Num2(lo)
    ensures |hi| == 4 == |lo| ==> Num8(hi + lo) == Num4(hi) * 0x1_0000_0000 + Num4(lo)
  {
    Split(hi, lo);
  }

  lemma NumOfWord4(x: int)
    ensures Num4(Word4(x)) == x % 0x1_0000_0000
  {
    var hi := x / 0x1_0000;
    NumOfHalves(Word2(hi), Word2(x));
    NumOfWord2(hi);
    NumOfWord2(x);
    Halves32(x);
  }

  lemma NumOfWord8(x: int)
    ensures Num8(Word8(x)) == x % 0x1_0000_0000_0000_0000
  {
    var hi := x / 0x1_0000_0000;
    NumOfHalves(Word4(hi), Word4(x));
    NumOfWord4(hi);
    NumOfWord4(x);
    Halves64(x);
  }

  lemma Positions4(b: bytes)
    requires |b| == 4
    ensures Num4(b) == b[0] as int * 0x100_0000 + b[1] as int * 0x1_0000 + b[2] as int * 0x100 + b[3] as int
  {
  }

  lemma Positions8(b: bytes)
    requires |b| == 8
    ensures Num8(b) == (b[0] as int * 0x100_0000 + b[1] as int * 0x1_0000 + b[2] as int * 0x100 + b[3] as int) * 0x1_0000_0000
                       + (b[4] as int * 0x100_0000 + b[5] as int * 0x1_0000 + b[6] as int * 0x100 + b[7] as int)
  {
    var hi, lo := b[..4], b[4..];
    Positions4(hi);
    Positions4(lo);
    assert lo[0] == b[4] && lo[1] == b[5] && lo[2] == b[6] && lo[3] == b[7];
  }

  /** The bytes of the words, most significant first. */
  lemma Word4Bytes(x: int)
    ensures var b := Word4(x);
            b[0] as int * 0x100_0000 + b[1] as int * 0x1_0000 + b[2] as int * 0x100 + b[3] as int == x % 0x1_0000_0000
  {
    NumOfWord4(x);
    Positions4(Word4(x));
  }

  lemma Word8Bytes(x: int)
    ensures var b := Word8(x);
            (b[0] as int * 0x100_0000 + b[1] as int * 0x1_0000 + b[2] as int * 0x100 + b[3] as int) * 0x1_0000_0000
            + (b[4] as int * 0x100_0000 + b[5] as int * 0x1_0000 + b[6] as int * 0x100 + b[7] as int)
            == x % 0x1_0000_0000_0000_0000
  {
    NumOfWord8(x);
    Positions8(Word8(x));
  }

  /** Two's complement. */
  lemma Unsigned(x: int)
    ensures -0x8000_0000 <= x < 0x8000_0000 ==> x % 0x1_0000_0000 == if x >= 0 then x else x + 0x1_0000_0000
    ensures -0x8000_0000_0000_0000 <= x < 0x8000_0000_0000_0000 ==>
              x % 0x1_0000_0000_0000_0000 == if x >= 0 then x else x + 0x1_0000_0000_0000_0000
  {
  }

  /** A sized integer is recovered from its value modulo the width. */
  lemma WrapBack(v: int, n: int)
    ensures -0x8000_0000 <= v < 0x8000_0000 && n == v % 0x1_0000_0000 ==> Wrap32(n) == v
    ensures -0x8000_0000_0000_0000 <= v < 0x8000_0000_0000_0000 && n == v % 0x1_0000_0000_0000_0000 ==> Wrap64(n) == v
  {
  }

  /** `io.ReadFull`: all `n` bytes, or an error with everything consumed. */
  function ReadFull(n: nat, s: bytes): (r: Res<bytes>)
    ensures |r.rest| <= |s|
    ensures r.err == None <==> n <= |s|
    ensures r.err == None ==> |r.val| == n && r.val + r.rest == s
  {
    if n <= |s| then Res(s[..n], None, s[n..]) else Res([], Fail, [])
  }

  /** `tag, _ := readByte()`: the ignored error leaves the zero byte. */
  function Head(s: bytes): byte {
    if s == [] then 0 else s[0]
  }

  function Tail(s: bytes): (t: bytes)
    ensures |t| <= |s|
    ensures s != [] ==> |t| < |s|
  {
    if s == [] then [] else s[1..]
  }

  function Digits(n: nat): string {
    if n < 10 then ['0' + n as char] else Digits(n / 10) + ['0' + (n % 10) as char]
  }

  /** `strconv.Itoa`. */
  function Itoa(i: int): string {
    if i < 0 then "-" + Digits(-i) else Digits(i)
  }

  /** The number that a decimal numeral stands for, sign first. */
  function Decimal(s: string): int
    decreases |s|
  {
    if s == "" then 0
    else Decimal(s[..|s| - 1]) * 10 + (s[|s| - 1] as int - '0' as int)
  }

  function Atoi(s: string): int {
    if s != "" && s[0] == '-' then -Decimal(s[1..]) else Decimal(s)
  }

  lemma {:induction false} DecimalOfDigits(n: nat)
    ensures Digits(n) != "" && Decimal(Digits(n)) == n && '0' <= Digits(n)[0] <= '9'
    decreases n
  {
    if n >= 10 {
      DecimalOfDigits(n / 10);
      var d := Digits(n / 10) + ['0' + (n % 10) as char];
      assert d[..|d| - 1] == Digits(n / 10);
    } else {
      assert ['0' + n as char][..0] == "";
    }
  }

  /** Printing an integer and reading it back gives it back. */
  lemma AtoiOfItoa(i: int)
    ensures Atoi(Itoa(i)) == i
  {
    DecimalOfDigits(if i < 0 then -i else i);
    if i < 0 {
      assert ("-" + Digits(-i))[1..] == Digits(-i);
    }
  }

  /** Appending `a` and then `b` and reading past `a` leaves `b`. */
  lemma Split(a: bytes, b: bytes)
    ensures (a + b)[..|a|] == a && (a + b)[|a|..] == b
    ensures a != [] ==> a + b != [] && (a + b)[0] == a[0] && (a + b)[1..] == a[1..] + b
  {
  }

  /** A header, its payload and a tail: what is left of them, and of what follows, after the tag. */
  lemma Peel(h: bytes, p: bytes, t: bytes, rest: bytes)
    requires h != []
    ensures (h + (p + t))[0] == h[0]
    ensures (h + (p + t))[1..] + rest == h[1..] + (p + (t + rest))
    ensures (h + p)[1..] + rest == h[1..] + (p + rest)
  {
  }

  lemma Concat<T>(a: seq<T>, b: seq<T>, c: seq<T>)
    ensures a + b + c == a + (b + c)
  {
  }

  lemma Concat4(a: bytes, b: bytes, c: bytes, d: bytes)
    ensures a + b + c + d == a + (b + (c + d))
  {
  }

  lemma Ends<T>(s: seq<T>)
    ensures [] + s == s && s + [] == s
  {
  }

  /** Moving the head of what is to come to the end of what is done changes nothing overall. */
  lemma Shift<T>(done: seq<T>, todo: seq<T>)
    requires todo != []
    ensures done + [todo[0]] + todo[1..] == done + todo
  {
  }
}

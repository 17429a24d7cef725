/**
  * UTF-8 as Go's unicode/utf8 and bufio.Reader.ReadRune treat it (section 3 of RFC 3629).
  * A Dafny `char` is a Unicode scalar value, hence a valid Go rune.
  */
module Unicode {
  import opened GoBase

  /** The bytes of `string(r)`. */
  function EncRune(c: char): (b: bytes)
    ensures 1 <= |b| <= 4
  {
    var x := c as int;
    if x < 0x80 then [x]
    else if x < 0x800 then [0xc0 + x / 0x40, 0x80 + x % 0x40]
    else if x < 0x1_0000 then [0xe0 + x / 0x1000, 0x80 + x / 0x40 % 0x40, 0x80 + x % 0x40]
    else [0xf0 + x / 0x4_0000, 0x80 + x / 0x1000 % 0x40, 0x80 + x / 0x40 % 0x40, 0x80 + x % 0x40]
  }

  const RuneError: char := '\U{FFFD}'

  predicate Cont(b: byte) {
    0x80 <= b <= 0xbf
  }

  /** Whether the second byte of a three- or four-byte sequence may follow the first: overlong
      forms, surrogates and code points past U+10FFFF are refused. */
  predicate Second(b0: byte, b1: byte) {
    && Cont(b1)
    && (b0 == 0xe0 ==> 0xa0 <= b1)
    && (b0 == 0xed ==> b1 <= 0x9f)
    && (b0 == 0xf0 ==> 0x90 <= b1)
    && (b0 == 0xf4 ==> b1 <= 0x8f)
  }

  /** The code point spelled by a lead byte, less its marker, and up to three sextets. */
  function Join(lead: int, marker: int, cs: bytes): int
    requires 1 <= |cs| <= 3
  {
    var x := (lead - marker) * 0x40 + Low6(cs[0]);
    var y := if |cs| > 1 then x * 0x40 + Low6(cs[1]) else x;
    if |cs| > 2 then y * 0x40 + Low6(cs[2]) else y
  }

  function Low6(b: int): int {
    b - 0x80
  }

  datatype Rune = Rune(c: char, width: nat)

  /** `utf8.DecodeRune`: the first rune and its width, or (RuneError, 1) on malformed input. */
  function DecRune(s: bytes): (r: Rune)
    requires s != []
    ensures 1 <= r.width <= |s|
  {
    var b0 := s[0];
    if b0 < 0x80 then Rune(b0 as char, 1)
    else if 0xc2 <= b0 <= 0xdf && |s| >= 2 && Cont(s[1]) then
      Rune(Join(b0, 0xc0, [s[1]]) as char, 2)
    else if 0xe0 <= b0 <= 0xef && |s| >= 3 && Second(b0, s[1]) && Cont(s[2]) then
      Rune(Join(b0, 0xe0, [s[1], s[2]]) as char, 3)
    else if 0xf0 <= b0 <= 0xf4 && |s| >= 4 && Second(b0, s[1]) && Cont(s[2]) && Cont(s[3]) then
      Rune(Join(b0, 0xf0, [s[1], s[2], s[3]]) as char, 4)
    else Rune(RuneError, 1)
  }

  /** The bytes of a valid Go string holding these runes. */
  function Utf8(rs: string): (b: bytes)
    ensures |rs| <= |b| <= 4 * |rs|
  {
    if rs == [] then [] else EncRune(rs[0]) + Utf8(rs[1..])
  }

  /** The runes a Go loop over the bytes of a string visits. */
  function Runes(s: bytes): (rs: string)
    ensures |rs| <= |s|
    ensures s != [] ==> rs != []
  {
    if s == [] then [] else var r := DecRune(s); [r.c] + Runes(s[r.width..])
  }

  lemma Sextets(x: nat)
    ensures x == x / 0x40 * 0x40 + x % 0x40
    ensures x / 0x40 == x / 0x1000 * 0x40 + x / 0x40 % 0x40
    ensures x / 0x1000 == x / 0x4_0000 * 0x40 + x / 0x1000 % 0x40
  {
  }

  lemma DecRuneOfEncRune(c: char, rest: bytes)
    ensures EncRune(c) + rest != []
    ensures DecRune(EncRune(c) + rest) == Rune(c, |EncRune(c)|)
  {
    var b := EncRune(c);
    var s := b + rest;
    Sextets(c as int);
    assert forall i | 0 <= i < |b| :: s[i] == b[i];
    if c as int < 0x800 {
    } else if c as int < 0x1_0000 {
      assert Join(b[0], 0xe0, [b[1], b[2]]) == c as int;
    } else {
      assert Join(b[0], 0xf0, [b[1], b[2], b[3]]) == c as int;
    }
  }

  lemma {:induction false} RunesOfUtf8(rs: string)
    ensures Runes(Utf8(rs)) == rs
  {
    if rs != [] {
      DecRuneOfEncRune(rs[0], Utf8(rs[1..]));
      Split(EncRune(rs[0]), Utf8(rs[1..]));
      RunesOfUtf8(rs[1..]);
    }
  }

  lemma {:induction false} Utf8Append(a: string, b: string)
    ensures Utf8(a + b) == Utf8(a) + Utf8(b)
  {
    if a == [] {
      assert a + b == b;
    } else {
      assert (a + b)[1..] == a[1..] + b;
      Utf8Append(a[1..], b);
    }
  }

  /** A Go string survives conversion to runes and back exactly when it is valid UTF-8. */
  lemma ValidUtf8(s: bytes)
    ensures Utf8(Runes(s)) == s <==> exists rs: string :: Utf8(rs) == s
  {
    forall rs: string | Utf8(rs) == s ensures Utf8(Runes(s)) == s {
      RunesOfUtf8(rs);
    }
  }

  /** A byte that begins no character is read alone, as U+FFFD. */
  lemma BrokenByte(s: bytes)
    requires s != [] && (0x80 <= s[0] <= 0xc1 || 0xf5 <= s[0])
    ensures DecRune(s) == Rune('\U{FFFD}', 1)
  {
  }
}

/** The encoder of the HTTP client's credentials (beken378/app/http/utils_httpc.c): an accumulator of 32
    bits that is never cleared, against section 4 of RFC 4648.  The build makes `char` a signed type
    (application.mk), so a byte of 0x80 or more enters the accumulator with ones above it. */
module Base64 {
  import opened Numbers

  type Byte = n: nat | n < 0x100

  const UPPER := "ABCDEFGHIJKLMNOPQRSTUVWXYZ"
  const LOWER := "abcdefghijklmnopqrstuvwxyz"
  const DIGITS := "0123456789"
  const CODE := UPPER + LOWER + DIGITS + "+/"
  const PAD := '='

  function Code(n: nat): char
    requires n < 64
  {
    CODE[n]
  }

  // ------------------------------------------------------------------------------------------------
  // RFC 4648, section 4.

  /** Three bytes give four letters; one or two bytes at the end give two or three, and padding. */
  function Encode(s: seq<Byte>): string {
    if |s| == 0 then ""
    else if |s| == 1 then [Code(s[0] / 4), Code(s[0] % 4 * 16), PAD, PAD]
    else if |s| == 2 then [Code(s[0] / 4), Code(s[0] % 4 * 16 + s[1] / 16), Code(s[1] % 16 * 4), PAD]
    else Group(s[0], s[1], s[2]) + Encode(s[3..])
  }

  function Group(a: Byte, b: Byte, c: Byte): (t: string)
    ensures |t| == 4
  {
    [Code(a / 4), Code(a % 4 * 16 + b / 16), Code(b % 16 * 4 + c / 64), Code(c % 64)]
  }

  datatype Option<T> = None | Some(value: T)

  /** The value of a letter. */
  function Value(c: char): Option<nat> {
    if 'A' <= c <= 'Z' then Some((c - 'A') as nat)
    else if 'a' <= c <= 'z' then Some((c - 'a') as nat + 26)
    else if '0' <= c <= '9' then Some((c - '0') as nat + 52)
    else if c == '+' then Some(62)
    else if c == '/' then Some(63)
    else None
  }

  /** The decoder: whole groups of four letters, padding in the last one only. */
  function Decode(t: string): Option<seq<Byte>> {
    if t == "" then Some([])
    else if |t| < 4 then None
    else if |t| == 4 && t[2] == PAD && t[3] == PAD then DecodeTwo(Value(t[0]), Value(t[1]))
    else if |t| == 4 && t[3] == PAD then DecodeThree(Value(t[0]), Value(t[1]), Value(t[2]))
    else Joined(DecodeFour(Value(t[0]), Value(t[1]), Value(t[2]), Value(t[3])), Decode(t[4..]))
  }

  function DecodeTwo(a: Option<nat>, b: Option<nat>): Option<seq<Byte>> {
    if a.Some? && b.Some? then Some([(a.value * 4 + b.value / 16) % 0x100]) else None
  }

  function DecodeThree(a: Option<nat>, b: Option<nat>, c: Option<nat>): Option<seq<Byte>> {
    if a.Some? && b.Some? && c.Some? then
      Some([(a.value * 4 + b.value / 16) % 0x100, (b.value % 16 * 16 + c.value / 4) % 0x100])
    else None
  }

  function DecodeFour(a: Option<nat>, b: Option<nat>, c: Option<nat>, d: Option<nat>): Option<seq<Byte>> {
    if a.Some? && b.Some? && c.Some? && d.Some? then
      Some([(a.value * 4 + b.value / 16) % 0x100, (b.value % 16 * 16 + c.value / 4) % 0x100,
            (c.value % 4 * 64 + d.value) % 0x100])
    else None
  }

  function Joined(a: Option<seq<Byte>>, b: Option<seq<Byte>>): Option<seq<Byte>> {
    if a.Some? && b.Some? then Some(a.value + b.value) else None
  }

  lemma Upper(k: nat)
    requires k < 26
    ensures UPPER[k] == 'A' + k as char
  {
    assert k == 0 || k == 1 || k == 2 || k == 3 || k == 4 || k == 5 || k == 6 || k == 7 || k == 8 || k == 9 ||
           k == 10 || k == 11 || k == 12 || k == 13 || k == 14 || k == 15 || k == 16 || k == 17 || k == 18 ||
           k == 19 || k == 20 || k == 21 || k == 22 || k == 23 || k == 24 || k == 25;
  }

  lemma Lower(k: nat)
    requires k < 26
    ensures LOWER[k] == 'a' + k as char
  {
    assert k == 0 || k == 1 || k == 2 || k == 3 || k == 4 || k == 5 || k == 6 || k == 7 || k == 8 || k == 9 ||
           k == 10 || k == 11 || k == 12 || k == 13 || k == 14 || k == 15 || k == 16 || k == 17 || k == 18 ||
           k == 19 || k == 20 || k == 21 || k == 22 || k == 23 || k == 24 || k == 25;
  }

  lemma Digit(k: nat)
    requires k < 10
    ensures DIGITS[k] == '0' + k as char
  {
    assert k == 0 || k == 1 || k == 2 || k == 3 || k == 4 || k == 5 || k == 6 || k == 7 || k == 8 || k == 9;
  }

  /** Table 1 of RFC 4648: the letters in order, capitals first, the digits, plus and slash. */
  lemma Alphabet(n: nat)
    requires n < 64
    ensures n < 26 ==> Code(n) == 'A' + n as char
    ensures 26 <= n < 52 ==> Code(n) == 'a' + (n - 26) as char
    ensures 52 <= n < 62 ==> Code(n) == '0' + (n - 52) as char
    ensures Code(62) == '+' && Code(63) == '/'
  {
    if n < 26 {
      assert Code(n) == UPPER[n];
      Upper(n);
    } else if n < 52 {
      assert Code(n) == LOWER[n - 26];
      Lower(n - 26);
    } else if n < 62 {
      assert Code(n) == DIGITS[n - 52];
      Digit(n - 52);
    }
  }

  lemma LetterHasValue(n: nat)
    requires n < 64
    ensures Value(Code(n)) == Some(n) && Code(n) != PAD && Code(n) != '\0'
  {
    hide Code;
    Alphabet(n);
  }

  /** The bits of a byte are split over two letters and put together again. */
  lemma HighSix(a: Byte, y: nat)
    requires y < 16
    ensures (a / 4 * 4 + (a % 4 * 16 + y) / 16) % 0x100 == a && (a % 4 * 16 + y) % 16 == y && a % 4 * 16 + y < 64
  {
  }

  lemma HighFour(b: Byte, z: nat)
    requires z < 4
    ensures (b / 16 * 16 + (b % 16 * 4 + z) / 4) % 0x100 == b && (b % 16 * 4 + z) % 4 == z && b % 16 * 4 + z < 64
  {
  }

  lemma HighTwo(c: Byte)
    ensures (c / 64 * 64 + c % 64) % 0x100 == c
  {
  }

  lemma GroupDecodes(a: Byte, b: Byte, c: Byte)
    ensures var t := Group(a, b, c);
            t[3] != PAD && DecodeFour(Value(t[0]), Value(t[1]), Value(t[2]), Value(t[3])) == Some([a, b, c])
  {
    hide Value, Code;
    HighSix(a, b / 16);
    HighFour(b, c / 64);
    HighTwo(c);
    LetterHasValue(a / 4);
    LetterHasValue(a % 4 * 16 + b / 16);
    LetterHasValue(b % 16 * 4 + c / 64);
    LetterHasValue(c % 64);
  }

  lemma OneDecodes(a: Byte)
    ensures Decode(Encode([a])) == Some([a])
  {
    hide Value, Code;
    LetterHasValue(a / 4);
    LetterHasValue(a % 4 * 16);
    HighSix(a, 0);
  }

  lemma TwoDecode(a: Byte, b: Byte)
    ensures Decode(Encode([a, b])) == Some([a, b])
  {
    hide Value, Code;
    LetterHasValue(a / 4);
    LetterHasValue(a % 4 * 16 + b / 16);
    LetterHasValue(b % 16 * 4);
    HighSix(a, b / 16);
    HighFour(b, 0);
  }

  /** Decoding inverts encoding, for every sequence of bytes. */
  lemma {:induction false} RoundTrip(s: seq<Byte>)
    ensures Decode(Encode(s)) == Some(s)
  {
    hide Value, Code, DecodeFour, Group;
    if |s| == 1 {
      OneDecodes(s[0]);
      assert s == [s[0]];
    } else if |s| == 2 {
      TwoDecode(s[0], s[1]);
      assert s == [s[0], s[1]];
    } else if |s| > 2 {
      var g, rest := Group(s[0], s[1], s[2]), Encode(s[3..]);
      GroupDecodes(s[0], s[1], s[2]);
      RoundTrip(s[3..]);
      assert (g + rest)[4..] == rest;
      assert s == [s[0], s[1], s[2]] + s[3..];
    }
  }

  lemma {:induction false} EncodeLength(s: seq<Byte>)
    ensures |Encode(s)| == (|s| + 2) / 3 * 4 && '\0' !in Encode(s)
  {
    hide Value, Code;
    forall n: nat | n < 64
      ensures Code(n) != '\0'
    {
      LetterHasValue(n);
    }
    if |s| > 2 {
      EncodeLength(s[3..]);
    }
  }

  /** Whole groups of bytes are encoded on their own. */
  lemma {:induction false} EncodeSplits(s: seq<Byte>, t: seq<Byte>)
    requires |s| % 3 == 0
    ensures Encode(s + t) == Encode(s) + Encode(t)
  {
    hide Code, Group;
    if s == [] {
      assert s + t == t;
    } else {
      assert (s + t)[3..] == s[3..] + t;
      EncodeSplits(s[3..], t);
    }
  }

  lemma SomeLetters()
    ensures Code(25) == 'Z' && Code(32) == 'g' && Code(38) == 'm' && Code(60) == '8' && Code(61) == '9' && Code(47) == 'v'
    ensures Code(24) == 'Y' && Code(4) == 'E' && Code(5) == 'F' && Code(50) == 'y'
  {
    hide Code;
    Alphabet(25);
    Alphabet(32);
    Alphabet(38);
    Alphabet(60);
    Alphabet(61);
    Alphabet(47);
    Alphabet(24);
    Alphabet(4);
    Alphabet(5);
    Alphabet(50);
  }

  lemma ShortVectors()
    ensures Encode([]) == "" && Encode([0x66]) == "Zg==" && Encode([0x66, 0x6F]) == "Zm8="
    ensures Encode([0x62]) == "Yg==" && Encode([0x62, 0x61]) == "YmE="
  {
    hide Code;
    SomeLetters();
  }

  /** The vectors of section 10 of RFC 4648: f, fo, foo, foob, fooba, foobar. */
  lemma Vectors()
    ensures Encode([]) == "" && Encode([0x66]) == "Zg==" && Encode([0x66, 0x6F]) == "Zm8="
    ensures Encode([0x66, 0x6F, 0x6F]) == "Zm9v" && Encode([0x66, 0x6F, 0x6F, 0x62]) == "Zm9vYg=="
    ensures Encode([0x66, 0x6F, 0x6F, 0x62, 0x61]) == "Zm9vYmE="
    ensures Encode([0x66, 0x6F, 0x6F, 0x62, 0x61, 0x72]) == "Zm9vYmFy"
  {
    hide Code, Encode;
    SomeLetters();
    ShortVectors();
    var g: seq<Byte> := [0x66, 0x6F, 0x6F];
    GroupOnly(0x66, 0x6F, 0x6F);
    GroupOnly(0x62, 0x61, 0x72);
    EncodeSplits(g, [0x62]);
    EncodeSplits(g, [0x62, 0x61]);
    EncodeSplits(g, [0x62, 0x61, 0x72]);
    assert g + [0x62] == [0x66, 0x6F, 0x6F, 0x62];
    assert g + [0x62, 0x61] == [0x66, 0x6F, 0x6F, 0x62, 0x61];
    assert g + [0x62, 0x61, 0x72] == [0x66, 0x6F, 0x6F, 0x62, 0x61, 0x72];
  }

  lemma EncodeInjective(s: seq<Byte>, t: seq<Byte>)
    requires Encode(s) == Encode(t)
    ensures s == t
  {
    RoundTrip(s);
    RoundTrip(t);
  }

  // ------------------------------------------------------------------------------------------------
  // What the signed characters do.

  /** The byte a reader of the output gets for byte `i`: the bits that were still in the accumulator
      when a byte of 0x80 or more followed are ones. */
  function HeardAt(s: seq<Byte>, i: nat): Byte
    requires i < |s|
  {
    if i + 1 == |s| || s[i + 1] < 0x80 then s[i]
    else if i % 3 == 0 then s[i] / 4 * 4 + 3
    else if i % 3 == 1 then s[i] / 16 * 16 + 15
    else s[i]
  }

  function Heard(s: seq<Byte>): (h: seq<Byte>)
    ensures |h| == |s|
  {
    seq(|s|, i requires 0 <= i < |s| => HeardAt(s, i))
  }

  /** Every byte of 0x80 or more begins a group, or finds only ones in the accumulator. */
  predicate Clean(s: seq<Byte>) {
    forall i :: 0 < i < |s| ==> CleanAt(s, i)
  }

  predicate CleanAt(s: seq<Byte>, i: nat)
    requires 0 < i < |s|
  {
    s[i] < 0x80 || i % 3 == 0 || (i % 3 == 1 && s[i - 1] % 4 == 3) || (i % 3 == 2 && s[i - 1] % 16 == 15)
  }

  lemma HeardNext(s: seq<Byte>, i: nat)
    requires i + 1 < |s|
    ensures HeardAt(s, i) == s[i] <==> CleanAt(s, i + 1)
  {
  }

  /** The code's output is the standard encoding exactly of the clean texts. */
  lemma StandardExactlyIfClean(s: seq<Byte>)
    ensures Encode(Heard(s)) == Encode(s) <==> Clean(s)
  {
    hide Encode, HeardAt, CleanAt;
    if Clean(s) {
      forall i | 0 <= i < |s|
        ensures Heard(s)[i] == s[i]
      {
        if i + 1 < |s| {
          assert CleanAt(s, i + 1);
          HeardNext(s, i);
        } else {
          HeardLast(s);
        }
      }
      assert Heard(s) == s;
    } else {
      var i :| 0 < i < |s| && !CleanAt(s, i);
      HeardNext(s, i - 1);
      assert Heard(s)[i - 1] != s[i - 1];
      if Encode(Heard(s)) == Encode(s) {
        EncodeInjective(Heard(s), s);
      }
    }
  }

  lemma HeardLast(s: seq<Byte>)
    requires s != []
    ensures HeardAt(s, |s| - 1) == s[|s| - 1]
  {
  }

  /** Text of seven-bit characters is encoded as the standard says. */
  lemma AsciiIsClean(s: seq<Byte>)
    requires forall i :: 0 <= i < |s| ==> s[i] < 0x80
    ensures Encode(Heard(s)) == Encode(s)
  {
    StandardExactlyIfClean(s);
  }

  /** The letter a and an accented letter in Latin-1: not the standard encoding, and the same output as for
      the letter c instead of a. */
  lemma AccentIsMisencoded()
    ensures Encode(Heard([0x61, 0xC3])) != Encode([0x61, 0xC3])
    ensures Encode(Heard([0x61, 0xC3])) == Encode([0x63, 0xC3])
  {
    var s: seq<Byte> := [0x61, 0xC3];
    assert !CleanAt(s, 1);
    StandardExactlyIfClean(s);
    assert Heard(s) == [0x63, 0xC3];
  }

  /** Whole groups are heard on their own. */
  lemma HeardSplits(g: seq<Byte>, s: seq<Byte>)
    requires |g| % 3 == 0
    ensures Heard(g + s) == Heard(g) + Heard(s)
  {
    var h, k := Heard(g + s), Heard(g) + Heard(s);
    forall i | 0 <= i < |h|
      ensures h[i] == k[i]
    {
      if i < |g| {
        assert (g + s)[i] == g[i] && (i + 1 < |g| ==> (g + s)[i + 1] == g[i + 1]);
        assert i + 1 == |g| ==> i % 3 == 2;
      } else {
        SamePlace(i - |g|, |g|);
        assert (g + s)[i] == s[i - |g|] && (i + 1 < |h| ==> (g + s)[i + 1] == s[i + 1 - |g|]);
      }
    }
  }

  lemma SamePlace(i: nat, n: nat)
    requires n % 3 == 0
    ensures (i + n) % 3 == i % 3
  {
    DivUnique(i + n, 3, i / 3 + n / 3, i % 3);
  }

  // ------------------------------------------------------------------------------------------------
  // The code.

  /** A signed character as a 32-bit operand. */
  function Widened(b: Byte): nat {
    if b < 0x80 then b else U32(b - 0x100)
  }

  /** `x << 8 | *in`. */
  function ShiftIn(x: nat, b: Byte): nat {
    Or(U32(x * 0x100), Widened(b))
  }

  /** What stands above the byte: what was there, or ones. */
  function Above(x: nat, b: Byte): nat {
    if b < 0x80 then x else 0xFF_FFFF
  }

  lemma ShiftInIs(x: nat, b: Byte)
    ensures ShiftIn(x, b) == U32(Above(x, b) * 0x100 + b)
  {
    hide Or;
    var h := x % 0x100_0000;
    Powers();
    assert Pow2(8) == 0x100 by { assert Pow2(7) == 128; }
    assert Pow2(24) == 0x100_0000 by { assert Pow2(10) == 1024 && Pow2(12) == 4096 && Pow2(16) == 0x1_0000 && Pow2(20) == 0x10_0000; }
    Upper24(x);
    if b < 0x80 {
      OrBelow(h, 0, b, 8);
      assert Or(h, 0) == h by { OrZero(h); }
      LowByte(x, b);
    } else {
      OrBelow(h, 0xFF_FFFF, b, 8);
      OrOnes(h, 24);
    }
  }

  lemma OrZero(x: nat)
    ensures Or(x, 0) == x
  {
  }

  lemma Upper24(x: nat)
    ensures U32(x * 0x100) == x % 0x100_0000 * 0x100
  {
    var q, h := x / 0x100_0000, x % 0x100_0000;
    DivUnique(x * 0x100, WRAP, q, h * 0x100);
  }

  lemma LowByte(x: nat, b: Byte)
    ensures U32(x * 0x100 + b) == x % 0x100_0000 * 0x100 + b
  {
    var q, h := x / 0x100_0000, x % 0x100_0000;
    DivUnique(x * 0x100 + b, WRAP, q, h * 0x100 + b);
  }

  /** The letters that come out of `l` bits of the accumulator. */
  function Letters(x: nat, l: nat): string
    requires l <= 12
    decreases l
  {
    if l < 6 then "" else [Code(x / Pow2(l - 6) % 64)] + Letters(x, l - 6)
  }

  /** What is out after some bytes, where `r` of them are beyond the last whole group. */
  function Pending(s: seq<Byte>): string
    requires |s| < 3
  {
    if |s| == 0 then ""
    else if |s| == 1 then [Code(s[0] / 4)]
    else [Code(s[0] / 4), Code(s[0] % 4 * 16 + s[1] / 16)]
  }

  /** The bits of the accumulator that are still to come out. */
  predicate Carried(s: seq<Byte>, x: nat, l: nat)
    requires |s| < 3
  {
    if |s| == 0 then l == 0
    else if |s| == 1 then l == 2 && x % 4 == s[0] % 4
    else l == 4 && x % 16 == s[1] % 16
  }

  lemma Powers()
    ensures Pow2(0) == 1 && Pow2(2) == 4 && Pow2(4) == 16 && Pow2(6) == 64
  {
    assert Pow2(1) == 2 && Pow2(3) == 8 && Pow2(5) == 32;
  }

  /** The low twelve bits after a shift do not feel the wrap at 32 bits. */
  lemma AfterShift(x: nat, b: Byte) returns (q: nat)
    ensures U32(x * 0x100 + b) == 0x1000 * q + x % 16 * 0x100 + b
  {
    var z := x * 0x100 + b;
    assert Pow2(12) == 0x1000 by { Powers(); assert Pow2(8) == 256 && Pow2(10) == 1024; }
    WrapKeepsIndex(z, 12);
    DivUnique(z, 0x1000, x / 16, x % 16 * 0x100 + b);
    q := U32(z) / 0x1000;
  }

  /** Six bits of `64 q + r`. */
  lemma SixBits(q: nat, r: nat)
    requires r < 64
    ensures (64 * q + r) % 64 == r
  {
  }

  lemma Split(d: nat, q: nat, b: nat)
    requires d > 0
    ensures (d * q + b) / d == q + b / d && (d * q + b) % d == b % d
  {
    var e, r := b / d, b % d;
    assert b == d * e + r;
    Distribute(d, q, e);
    DivUnique(d * q + b, d, q + e, r);
  }

  lemma OneLetter(x: nat, b: Byte)
    ensures U32(x * 0x100 + b) / 4 % 64 == b / 4 && U32(x * 0x100 + b) % 4 == b % 4
  {
    hide U32;
    var q := AfterShift(x, b);
    Split(4, 64 * (16 * q + x % 16), b);
    SixBits(16 * q + x % 16, b / 4);
  }

  lemma TwoLetters(x: nat, b: Byte)
    ensures U32(x * 0x100 + b) / 16 % 64 == x % 4 * 16 + b / 16 && U32(x * 0x100 + b) % 16 == b % 16
  {
    hide U32;
    var q := AfterShift(x, b);
    var h, m := x % 16 / 4, x % 4;
    assert x % 16 == 4 * h + m;
    Split(16, 64 * (4 * q + h) + 16 * m, b);
    SixBits(4 * q + h, m * 16 + b / 16);
  }

  lemma ThreeLetters(x: nat, b: Byte)
    ensures U32(x * 0x100 + b) / 64 % 64 == x % 16 * 4 + b / 64 && U32(x * 0x100 + b) % 64 == b % 64
  {
    hide U32;
    var q := AfterShift(x, b);
    Split(64, 64 * q + x % 16 * 4, b);
    SixBits(q, x % 16 * 4 + b / 64);
  }

  lemma LettersOf(x: nat)
    ensures Letters(x, 8) == [Code(x / 4 % 64)] && Letters(x, 10) == [Code(x / 16 % 64)]
    ensures Letters(x, 12) == [Code(x / 64 % 64), Code(x % 64)]
  {
    hide Code;
    Powers();
    assert Letters(x, 0) == "" && Letters(x, 2) == "" && Letters(x, 4) == "";
    assert Letters(x, 6) == [Code(x % 64)];
  }

  /** One byte more: the letters are those of what stands above it. */
  lemma NextByte(s: seq<Byte>, x: nat, l: nat, b: Byte)
    requires |s| < 3 && Carried(s, x, l)
    ensures var h := Heard(s + [b]);
            Letters(ShiftIn(x, b), l + 8) == if |s| == 0 then [Code(b / 4)]
                                             else if |s| == 1 then [Code(h[0] % 4 * 16 + b / 16)]
                                             else [Code(h[1] % 16 * 4 + b / 64), Code(b % 64)]
    ensures Carried(if |s| == 2 then [] else s + [b], ShiftIn(x, b), (l + 8) % 6)
  {
    hide Code, U32, Letters, ShiftIn, Heard, Above;
    ShiftInIs(x, b);
    var y := Above(x, b);
    LettersOf(ShiftIn(x, b));
    OneLetter(y, b);
    TwoLetters(y, b);
    ThreeLetters(y, b);
    HeardBits(s, x, l, b);
  }

  /** The bits carried below what stands above the byte are those heard. */
  lemma HeardBits(s: seq<Byte>, x: nat, l: nat, b: Byte)
    requires |s| < 3 && Carried(s, x, l)
    ensures |s| == 1 ==> Heard(s + [b])[0] % 4 == Above(x, b) % 4
    ensures |s| == 2 ==> Heard(s + [b])[1] % 16 == Above(x, b) % 16
  {
    if |s| == 1 && b >= 0x80 {
      SetBits(s[0], 4);
    } else if |s| == 2 && b >= 0x80 {
      SetBits(s[1], 16);
    }
  }

  lemma SetBits(a: nat, d: nat)
    requires d > 0
    ensures (a / d * d + (d - 1)) % d == d - 1
  {
    DivUnique(a / d * d + (d - 1), d, a / d, d - 1);
  }

  /** What is out after the whole groups `g` and `s` of the next one. */
  predicate Out(g: seq<Byte>, s: seq<Byte>, out: string) {
    |g| % 3 == 0 && |s| < 3 && out == Encode(Heard(g)) + Pending(Heard(s))
  }

  lemma Nothing(out: string)
    requires out == ""
    ensures Out([], [], out) && Carried([], 0, 0)
  {
  }

  lemma OutNext(g: seq<Byte>, s: seq<Byte>, out: string, x: nat, l: nat, b: Byte)
    requires Out(g, s, out) && Carried(s, x, l)
    ensures l <= 4
    ensures var more := out + Letters(ShiftIn(x, b), l + 8);
            if |s| == 2 then Out(g + s + [b], [], more) else Out(g, s + [b], more)
    ensures Carried(if |s| == 2 then [] else s + [b], ShiftIn(x, b), (l + 8) % 6)
  {
    hide Code, Letters, Encode, ShiftIn;
    NextByte(s, x, l, b);
    if |s| == 2 {
      var h := Heard(s + [b]);
      assert h == [h[0], h[1], b] && g + s + [b] == g + (s + [b]);
      HeardSplits(g, s + [b]);
      EncodeSplits(Heard(g), h);
      GroupOnly(h[0], h[1], b);
    }
  }

  lemma GroupOnly(a: Byte, b: Byte, c: Byte)
    ensures Encode([a, b, c]) == Group(a, b, c)
  {
    hide Code;
    assert [a, b, c][3..] == [] && Encode([]) == "";
  }

  /** The letters out so far fit what is expected in the end. */
  lemma OutFits(g: seq<Byte>, s: seq<Byte>, out: string, n: nat)
    requires Out(g, s, out) && |g| + |s| <= n
    ensures |out| <= (n + 2) / 3 * 4
  {
    hide Code, Encode;
    EncodeLength(Heard(g));
  }

  /** What is missing at the end. */
  lemma Ending(g: seq<Byte>, s: seq<Byte>, out: string, x: nat, l: nat)
    requires Out(g, s, out) && Carried(s, x, l)
    ensures l == 0 ==> Encode(Heard(g + s)) == out && |out| % 4 == 0
    ensures l > 0 ==> l <= 4 && Encode(Heard(g + s)) == out + [Code(U32(x * Pow2(6 - l)) % 64)] + Padding(l)
    ensures l > 0 ==> |out| % 4 == if l == 2 then 1 else 2
  {
    hide Code, Encode;
    HeardSplits(g, s);
    EncodeSplits(Heard(g), Heard(s));
    EncodeLength(Heard(g));
    ShortEnds(Heard(s), x, l);
  }

  function Padding(l: nat): string {
    if l == 2 then [PAD, PAD] else [PAD]
  }

  lemma ShortEnds(s: seq<Byte>, x: nat, l: nat)
    requires |s| < 3 && Carried(s, x, l)
    ensures l == 0 ==> Encode(s) == "" == Pending(s)
    ensures l > 0 ==> l <= 4 && Encode(s) == Pending(s) + [Code(U32(x * Pow2(6 - l)) % 64)] + Padding(l)
  {
    hide Code, U32;
    Powers();
    if l > 0 {
      WrapKeepsIndex(x * Pow2(6 - l), 6);
      if l == 2 {
        Shifted(x, 4, 16);
      } else {
        Shifted(x, 16, 4);
      }
    }
  }

  lemma Shifted(x: nat, c: nat, d: nat)
    requires (c == 4 && d == 16) || (c == 16 && d == 4)
    ensures x * d % 64 == x % c * d
  {
    var q, r := x / c, x % c;
    assert x * d == 64 * q + r * d;
    SixBits(q, r * d);
  }

  /** The inner loop: all letters that the `l` bits hold. */
  method EmitLetters(out: array<char>, at: nat, x: nat, bits: nat) returns (i: nat, l: nat)
    requires 8 <= bits <= 12 && at + |Letters(x, bits)| <= out.Length
    modifies out
    ensures i == at + |Letters(x, bits)| && l == bits % 6
    ensures out[..i] == old(out[..at]) + Letters(x, bits)
  {
    hide Code, Pow2;
    i, l := at, bits;
    while l >= 6
      invariant l <= bits && l % 6 == bits % 6 && at <= i && i + |Letters(x, l)| == at + |Letters(x, bits)|
      invariant out[..i] + Letters(x, l) == old(out[..at]) + Letters(x, bits)
    {
      ghost var done := out[..i];
      out[i] := Code(x / Pow2(l - 6) % 64);
      assert out[..i + 1] == done + [Code(x / Pow2(l - 6) % 64)];
      i := i + 1;
      l := l - 6;
    }
  }

  lemma OneByteMore(bytes: seq<Byte>, n: nat, g: seq<Byte>, s: seq<Byte>)
    requires n < |bytes| && bytes[..n] == g + s
    ensures bytes[..n + 1] == g + (s + [bytes[n]]) && bytes[..n + 1] == (g + s + [bytes[n]]) + []
  {
    assert bytes[..n + 1] == bytes[..n] + [bytes[n]];
  }

  /** The loop over the bytes. */
  method EncodeBytes(out: array<char>, bytes: seq<Byte>)
    returns (i: nat, x: nat, l: nat, ghost g: seq<Byte>, ghost s: seq<Byte>)
    requires (|bytes| + 2) / 3 * 4 < out.Length
    modifies out
    ensures i <= out.Length && |s| < 3 && bytes == g + s && Out(g, s, out[..i]) && Carried(s, x, l)
  {
    hide Code, Encode, Pending, Carried, ShiftIn, Letters, Out, Heard;
    i, x, l := 0, 0, 0;
    g, s := [], [];
    Nothing(out[..0]);
    for n := 0 to |bytes|
      invariant i <= out.Length && |s| < 3 && bytes[..n] == g + s
      invariant Out(g, s, out[..i]) && Carried(s, x, l)
    {
      var b := bytes[n];
      OneByteMore(bytes, n, g, s);
      OutNext(g, s, out[..i], x, l, b);
      if |s| == 2 {
        g, s := g + s + [b], [];
      } else {
        s := s + [b];
      }
      x := ShiftIn(x, b);
      OutFits(g, s, out[..i] + Letters(x, l + 8), |bytes|);
      i, l := EmitLetters(out, i, x, l + 8);
    }
    assert bytes[..|bytes|] == bytes;
  }

  /** `httpclient_base64enc` writes the encoding of the bytes as they are heard, and a terminator; this is
      the encoding of the bytes before the terminator exactly if they are clean. */
  method Base64Enc(out: array<char>, bytes: seq<Byte>)
    requires (|bytes| + 2) / 3 * 4 < out.Length
    modifies out
    ensures |Encode(Heard(bytes))| == |Encode(bytes)| == (|bytes| + 2) / 3 * 4
    ensures out[..|Encode(bytes)|] == Encode(Heard(bytes)) && out[|Encode(bytes)|] == '\0'
    ensures out[..|Encode(bytes)|] == Encode(bytes) <==> Clean(bytes)
    ensures Decode(out[..|Encode(bytes)|]) == Some(Heard(bytes))
  {
    hide Encode, Decode, Heard, Clean;
    EncodeLength(bytes);
    EncodeLength(Heard(bytes));
    StandardExactlyIfClean(bytes);
    RoundTrip(Heard(bytes));
    var i, x, l, g, s := EncodeBytes(out, bytes);
    Finish(out, i, x, l, g, s, bytes);
  }

  /** The last letter, the padding and the terminator. */
  method Finish(out: array<char>, at: nat, acc: nat, l: nat, ghost g: seq<Byte>, ghost s: seq<Byte>, ghost bytes: seq<Byte>)
    requires at <= out.Length && |s| < 3 && bytes == g + s && Out(g, s, out[..at]) && Carried(s, acc, l)
    requires (|bytes| + 2) / 3 * 4 < out.Length
    modifies out
    ensures var e := Encode(Heard(bytes)); |e| < out.Length && out[..|e|] == e && out[|e|] == '\0'
  {
    hide Code, Encode, Pending, Carried, U32, Out, Heard, Pow2;
    ghost var e := Encode(Heard(bytes));
    EncodeLength(Heard(bytes));
    Ending(g, s, out[..at], acc, l);
    var i := at;
    if l > 0 {
      var x := U32(acc * Pow2(6 - l));
      ghost var w := out[..i];
      out[i] := Code(x % 64);
      i := i + 1;
      assert out[..i] == w + [Code(x % 64)];
    }
    Pad(out, i, e);
  }

  /** The padding and the terminator. */
  method Pad(out: array<char>, at: nat, ghost e: string)
    requires at <= |e| < out.Length && |e| - at < 4 && |e| % 4 == 0
    requires e == out[..at] + seq(|e| - at, _ => PAD)
    modifies out
    ensures out[..|e|] == e && out[|e|] == '\0'
  {
    var i := at;
    while i % 4 != 0
      invariant at <= i <= |e| && e == out[..i] + seq(|e| - i, _ => PAD)
      decreases |e| - i
    {
      ghost var w := out[..i];
      out[i] := PAD;
      i := i + 1;
      assert out[..i] == w + [PAD];
    }
    out[i] := '\0';
  }

  const AUTHB_SIZE := 128

  /** The bytes of a text. */
  function Bytes(s: string): seq<Byte>
    requires forall i :: 0 <= i < |s| ==> s[i] as nat < 0x100
  {
    seq(|s|, i requires 0 <= i < |s| => s[i] as nat)
  }

  /** `httpclient_send_auth`: for credentials that `httpclient_basic_auth` accepts both buffers are long enough, and the line is the
      encoding of "user:password" as it is heard, and a newline. */
  method SendAuth(user: string, password: string) returns (line: string)
    requires |user| + |password| < 128
    requires forall i :: 0 <= i < |user + ":" + password| ==> (user + ":" + password)[i] as nat < 0x100
    ensures line == Encode(Heard(Bytes(user + ":" + password))) + "\n"
    ensures line == Encode(Bytes(user + ":" + password)) + "\n" <==> Clean(Bytes(user + ":" + password))
  {
    hide Encode, Decode, Bytes, Heard, Clean;
    var bAuth := new char[(AUTHB_SIZE + 3) * 4 / 3 + 1];
    var base64buff := new char[AUTHB_SIZE + 3];
    var text := user + ":" + password;
    forall i | 0 <= i < |text| { base64buff[i] := text[i]; }
    base64buff[|text|] := '\0';
    BytesLength(text);
    Base64Enc(bAuth, Bytes(text));
    ghost var e := Encode(Heard(Bytes(text)));
    EncodeLength(Heard(Bytes(text)));
    forall j | 0 <= j < |e|
      ensures bAuth[j] != '\0'
    {
      assert bAuth[..|e|][j] in e;
    }
    var n := Strlen(bAuth, |e|);
    bAuth[n + 1] := '\0';
    bAuth[n] := '\n';
    line := bAuth[..n + 1];
    assert line == e + "\n";
    SameBeforeNewline(e, Encode(Bytes(text)));
    StandardExactlyIfClean(Bytes(text));
  }

  lemma SameBeforeNewline(s: string, t: string)
    ensures s + "\n" == t + "\n" <==> s == t
  {
    if s + "\n" == t + "\n" {
      assert (s + "\n")[..|s|] == (t + "\n")[..|t|];
    }
  }

  lemma BytesLength(s: string)
    requires forall i :: 0 <= i < |s| ==> s[i] as nat < 0x100
    ensures |Bytes(s)| == |s|
  {
  }

  /** `os_strlen` of a terminated text. */
  method Strlen(a: array<char>, ghost end: nat) returns (n: nat)
    requires end < a.Length && a[end] == '\0' && forall j :: 0 <= j < end ==> a[j] != '\0'
    ensures n == end
  {
    n := 0;
    while a[n] != '\0'
      invariant n <= end
      decreases end - n
    {
      n := n + 1;
    }
  }
}

/** Numbers of four bytes, the lowest first. */
module LittleEndian {

  /** A little-endian number. */
  function Le(d: seq<bv8>): nat {
    if d == [] then 0 else d[0] as nat + 0x100 * Le(d[1..])
  }

  function Le32Bytes(n: nat): (d: seq<bv8>)
    ensures |d| == 4
  {
    [ToByte(n % 0x100), ToByte(n / 0x100 % 0x100), ToByte(n / 0x1_0000 % 0x100), ToByte(n / 0x100_0000 % 0x100)]
  }

  function ToByte(x: nat): bv8
    requires x < 0x100
  {
    x as bv8
  }

  lemma LeOfFour(d: seq<bv8>)
    requires |d| == 4
    ensures Le(d) == d[0] as nat + 0x100 * (d[1] as nat + 0x100 * (d[2] as nat + 0x100 * d[3] as nat))
  {
    assert d[1..][1..] == d[2..] && d[2..][1..] == d[3..] && d[3..][1..] == [];
    assert Le(d[3..]) == d[3] as nat;
    assert Le(d[2..]) == d[2] as nat + 0x100 * Le(d[3..]);
    assert Le(d[1..]) == d[1] as nat + 0x100 * Le(d[2..]);
  }

  lemma Digits(n: nat)
    requires n < 0x1_0000_0000
    ensures n == n % 0x100 + 0x100 * (n / 0x100 % 0x100 + 0x100 * (n / 0x1_0000 % 0x100 + 0x100 * (n / 0x100_0000 % 0x100)))
  {
    assert n / 0x1_0000 == n / 0x100 / 0x100 && n / 0x100_0000 == n / 0x1_0000 / 0x100;
  }

  lemma Increment(b: bv8)
    requires b != 255
    ensures (b + 1) as nat == b as nat + 1
  {
  }

  lemma There(b: bv8)
    ensures (b as nat) as bv8 == b
  {
  }

  /** Every number below 256 is the number of a byte. */
  lemma {:induction false} ByteOf(x: nat) returns (b: bv8)
    requires x < 0x100
    ensures b as nat == x
  {
    if x == 0 {
      b := 0;
    } else {
      b := ByteOf(x - 1);
      Increment(b);
      b := b + 1;
    }
  }

  lemma Byte(x: nat)
    requires x < 0x100
    ensures ToByte(x) as nat == x
  {
    var b := ByteOf(x);
    There(b);
  }

  lemma LeInverts(n: nat)
    requires n < 0x1_0000_0000
    ensures Le(Le32Bytes(n)) == n
  {
    hide Le, ToByte;
    LeOfFour(Le32Bytes(n));
    Digits(n);
    Byte(n % 0x100);
    Byte(n / 0x100 % 0x100);
    Byte(n / 0x1_0000 % 0x100);
    Byte(n / 0x100_0000 % 0x100);
  }

  function Number(a: nat, b: nat, c: nat, e: nat): nat {
    a + 0x100 * (b + 0x100 * (c + 0x100 * e))
  }

  /** The bytes of a number given by its digits. */
  lemma FromDigits(a: nat, b: nat, c: nat, e: nat)
    requires a < 0x100 && b < 0x100 && c < 0x100 && e < 0x100
    ensures Number(a, b, c, e) < 0x1_0000_0000
    ensures Le32Bytes(Number(a, b, c, e)) == [ToByte(a), ToByte(b), ToByte(c), ToByte(e)]
  {
    hide ToByte;
    var n := Number(a, b, c, e);
    assert n / 0x100 == b + 0x100 * (c + 0x100 * e);
    assert n / 0x1_0000 == c + 0x100 * e;
    assert n / 0x100_0000 == e;
  }

  /** Four bytes survive their number. */
  lemma BytesOfLe(d: seq<bv8>)
    requires |d| == 4
    ensures Le(d) < 0x1_0000_0000 && Le32Bytes(Le(d)) == d
  {
    hide Le, Le32Bytes, ToByte, Number;
    NumberOf(d);
    FromDigits(d[0] as nat, d[1] as nat, d[2] as nat, d[3] as nat);
    SameByte(d[0] as nat, d[0]);
    SameByte(d[1] as nat, d[1]);
    SameByte(d[2] as nat, d[2]);
    SameByte(d[3] as nat, d[3]);
  }

  lemma NumberOf(d: seq<bv8>)
    requires |d| == 4
    ensures Le(d) == Number(d[0] as nat, d[1] as nat, d[2] as nat, d[3] as nat)
  {
    hide Le;
    LeOfFour(d);
  }

  lemma SameByte(x: nat, b: bv8)
    requires x == b as nat
    ensures ToByte(x) == b
  {
    There(b);
  }

  /** Numbers as long are equal only if their bytes are. */
  lemma {:induction false} LeInjective(d: seq<bv8>, e: seq<bv8>)
    requires |d| == |e|
    ensures Le(d) == Le(e) <==> d == e
  {
    if d != [] {
      LeInjective(d[1..], e[1..]);
      if Le(d) == Le(e) {
        There(d[0]);
        There(e[0]);
        assert d[0] as nat == e[0] as nat;
        assert d == [d[0]] + d[1..] && e == [e[0]] + e[1..];
      }
    }
  }
}

/** Unsigned 32-bit numbers as four octets, the most significant first. */
module Words {

  type Octet = x: int | 0 <= x < 256

  type Quad = s: seq<Octet> | |s| == 4 witness [0, 0, 0, 0]

  function Weighted(a: int, b: int, c: int, d: int): int {
    a * 0x100_0000 + b * 0x1_0000 + c * 0x100 + d
  }

  lemma Digit(v: nat, q: nat, r: Octet)
    ensures v == 256 * q + r <==> v / 256 == q && v % 256 == r
  {
  }

  lemma Digits(v: nat, a: Octet, b: Octet, c: Octet, d: Octet)
    ensures v == Weighted(a, b, c, d)
      <==> v / 0x100_0000 == a && v / 0x1_0000 % 0x100 == b && v / 0x100 % 0x100 == c && v % 0x100 == d
  {
    Digit(v, Weighted(0, a, b, c), d);
    Digit(v / 0x100, Weighted(0, 0, a, b), c);
    Digit(v / 0x1_0000, a, b);
    assert v / 0x1_0000 == v / 0x100 / 0x100;
    assert v / 0x100_0000 == v / 0x1_0000 / 0x100;
  }

  function Value(q: Quad): (v: nat)
    ensures v < 0x1_0000_0000
  {
    Weighted(q[0], q[1], q[2], q[3])
  }

  function BigEndian(v: nat): Quad
    requires v < 0x1_0000_0000
  {
    [v / 0x100_0000, v / 0x1_0000 % 0x100, v / 0x100 % 0x100, v % 0x100]
  }

  lemma BigEndianRoundTrip(v: nat, q: Quad)
    requires v < 0x1_0000_0000
    ensures Value(BigEndian(v)) == v
    ensures BigEndian(Value(q)) == q
  {
    Digits(v, v / 0x100_0000, v / 0x1_0000 % 0x100, v / 0x100 % 0x100, v % 0x100);
    Digits(Value(q), q[0], q[1], q[2], q[3]);
  }

  lemma HighBit(v: nat)
    requires v < 0x8000_0000
    ensures BigEndian(v)[0] < 128
    ensures BigEndian(v + 0x8000_0000) == [BigEndian(v)[0] + 128] + BigEndian(v)[1..]
  {
    hide BigEndian;
    var q := BigEndian(v);
    BigEndianRoundTrip(v, q);
    var h: Quad := [q[0] + 128, q[1], q[2], q[3]];
    assert Value(h) == v + 0x8000_0000;
    BigEndianRoundTrip(v, h);
  }
}

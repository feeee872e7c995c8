/** Octets and little-endian words, as they lie in a message. */
module Words {

  type Octet = b: int | 0 <= b < 256

  const WORD16: nat := 0x1_0000
  const WORD32: nat := 0x1_0000_0000
  const WORD64: nat := 0x1_0000_0000_0000_0000

  function Le16(v: nat): (octets: seq<Octet>)
    ensures |octets| == 2
  {
    [v % 256, v / 256 % 256]
  }

  function Le32(v: nat): (octets: seq<Octet>)
    ensures |octets| == 4
  {
    [v % 256, v / 256 % 256, v / 0x1_0000 % 256, v / 0x100_0000 % 256]
  }

  function Get16(m: seq<Octet>, i: nat): (v: nat)
    requires i + 2 <= |m|
    ensures v < WORD16
  {
    var lo: int, hi: int := m[i], m[i + 1];
    lo + 256 * hi
  }

  function Get32(m: seq<Octet>, i: nat): (v: nat)
    requires i + 4 <= |m|
    ensures v < WORD32
  {
    var a: int, b: int, c: int, d: int := m[i], m[i + 1], m[i + 2], m[i + 3];
    a + 256 * b + 0x1_0000 * c + 0x100_0000 * d
  }

  /** The octets stand in `m` at position `i`. */
  ghost predicate Has(m: seq<Octet>, i: nat, octets: seq<Octet>) {
    i + |octets| <= |m| && m[i..i + |octets|] == octets
  }

  lemma HasWhole(m: seq<Octet>)
    ensures Has(m, 0, m)
  {
  }

  lemma HasSplit(m: seq<Octet>, i: nat, a: seq<Octet>, b: seq<Octet>)
    ensures Has(m, i, a + b) <==> Has(m, i, a) && Has(m, i + |a|, b)
  {
    if Has(m, i, a + b) {
      assert m[i..i + |a|] == m[i..i + |a + b|][..|a|];
      assert m[i + |a|..i + |a| + |b|] == m[i..i + |a + b|][|a|..];
    }
    if Has(m, i, a) && Has(m, i + |a|, b) {
      assert m[i..i + |a + b|] == m[i..i + |a|] + m[i + |a|..i + |a| + |b|];
    }
  }

  /** Reading a word where one stands gives that word, and the octets of the word read stand there. */
  lemma Word16(m: seq<Octet>, i: nat, v: nat)
    requires i + 2 <= |m| && v < WORD16
    ensures Has(m, i, Le16(v)) <==> Get16(m, i) == v
  {
    if Has(m, i, Le16(v)) {
      assert m[i] == m[i..i + 2][0] && m[i + 1] == m[i..i + 2][1];
    }
    if Get16(m, i) == v {
      assert m[i..i + 2] == Le16(v);
    }
  }

  lemma Word32(m: seq<Octet>, i: nat, v: nat)
    requires i + 4 <= |m| && v < WORD32
    ensures Has(m, i, Le32(v)) <==> Get32(m, i) == v
  {
    if Has(m, i, Le32(v)) {
      assert m[i] == m[i..i + 4][0] && m[i + 1] == m[i..i + 4][1] && m[i + 2] == m[i..i + 4][2] && m[i + 3] == m[i..i + 4][3];
      Digits(v);
    }
    if Get32(m, i) == v {
      Quotients(m[i], m[i + 1], m[i + 2], m[i + 3]);
      assert m[i..i + 4] == Le32(v);
    }
  }

  lemma Digits(v: nat)
    requires v < WORD32
    ensures v == v % 256 + 256 * (v / 256 % 256) + 0x1_0000 * (v / 0x1_0000 % 256) + 0x100_0000 * (v / 0x100_0000 % 256)
  {
    assert v / 0x1_0000 == v / 256 / 256;
    assert v / 0x100_0000 == v / 256 / 256 / 256;
  }

  lemma Quotients(a: int, b: int, c: int, d: int)
    requires 0 <= a < 256 && 0 <= b < 256 && 0 <= c < 256 && 0 <= d < 256
    ensures var v := a + 256 * b + 0x1_0000 * c + 0x100_0000 * d;
      v % 256 == a && v / 256 % 256 == b && v / 0x1_0000 % 256 == c && v / 0x100_0000 % 256 == d
  {
    var v := a + 256 * b + 0x1_0000 * c + 0x100_0000 * d;
    assert v / 256 == b + 256 * c + 0x1_0000 * d;
    assert v / 0x1_0000 == c + 256 * d;
  }

  /** The value of octets of which the first counts least. */
  function Value(octets: seq<Octet>): nat {
    if octets == [] then 0 else octets[0] + 256 * Value(octets[1..])
  }

  lemma ValueOf(a: Octet, rest: seq<Octet>)
    ensures Value([a] + rest) == a + 256 * Value(rest)
  {
    assert ([a] + rest)[1..] == rest;
  }

  /** Words are read with the least significant octet first. */
  lemma LittleEndian(m: seq<Octet>, i: nat)
    ensures i + 2 <= |m| ==> Get16(m, i) == Value(m[i..i + 2])
    ensures i + 4 <= |m| ==> Get32(m, i) == Value(m[i..i + 4])
  {
    if i + 2 <= |m| {
      ValueOf(m[i], [m[i + 1]]);
      ValueOf(m[i + 1], []);
      assert m[i..i + 2] == [m[i]] + [m[i + 1]] && [m[i + 1]] == [m[i + 1]] + [];
    }
    if i + 4 <= |m| {
      var d := [m[i + 3]];
      var c := [m[i + 2]] + d;
      var b := [m[i + 1]] + c;
      ValueOf(m[i + 3], []);
      ValueOf(m[i + 2], d);
      ValueOf(m[i + 1], c);
      ValueOf(m[i], b);
      assert m[i..i + 4] == [m[i]] + b && d == d + [];
    }
  }

  /** Adding the same to equal remainders. */
  lemma ShiftedModulo(a: nat, b: nat, k: nat)
    requires a % WORD32 == b % WORD32
    ensures (a + k) % WORD32 == (b + k) % WORD32
  {
  }
}

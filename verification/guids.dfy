/**
 * `System.Guid` and its default string form, `Guid.ToString()` ("D" format:
 * 32 lower-case hexadecimal digits grouped 8-4-4-4-12 by hyphens).
 * The fields mirror the struct's layout: a 32-bit, two 16-bit and eight
 * 8-bit components, printed in that order.
 */
module Guids {
  import opened Nullables
  import opened Text

  newtype uint8 = x: int | 0 <= x < 0x100
  newtype uint16 = x: int | 0 <= x < 0x1_0000
  newtype uint32 = x: int | 0 <= x < 0x1_0000_0000

  datatype Guid = Guid(a: uint32, b: uint16, c: uint16,
                       d: uint8, e: uint8, f: uint8, g: uint8,
                       h: uint8, i: uint8, j: uint8, k: uint8)

  const HexAlphabet: string := "0123456789abcdef"

  predicate IsHexDigit(ch: char) {
    ch in HexAlphabet
  }

  function Pow16(width: nat): (p: nat)
    ensures p > 0
  {
    if width == 0 then 1 else 16 * Pow16(width - 1)
  }

  /** The value of one hexadecimal digit (0 for any other character). */
  function HexValue(ch: char): (v: nat)
    ensures v < 16
  {
    if '0' <= ch <= '9' then ch as int - '0' as int
    else if 'a' <= ch <= 'f' then ch as int - 'a' as int + 10
    else 0
  }

  /** `n` as exactly `width` lower-case hexadecimal digits, most significant
      first; digits above `width` are dropped. */
  function Hex(n: nat, width: nat): (r: string)
    ensures |r| == width
    ensures forall x :: 0 <= x < |r| ==> IsHexDigit(r[x])
  {
    if width == 0 then ""
    else Hex(n / 16, width - 1) + [HexAlphabet[n % 16]]
  }

  /** Reads a string of hexadecimal digits back as a number. */
  function ParseHex(s: string): nat {
    if |s| == 0 then 0 else 16 * ParseHex(s[..|s| - 1]) + HexValue(s[|s| - 1])
  }

  lemma ModOfSplit(n: nat, p: nat)
    requires p > 0
    ensures n % (16 * p) == 16 * ((n / 16) % p) + n % 16
  {
    var q := n / 16;
    var q1 := q / p;
    var r1 := q % p;
    assert n == 16 * q + n % 16;
    assert q == p * q1 + r1;
    assert n == (16 * p) * q1 + (16 * r1 + n % 16);
    assert 0 <= 16 * r1 + n % 16 < 16 * p;
    ModUnique(n, 16 * p, q1, 16 * r1 + n % 16);
  }

  lemma ModUnique(n: nat, m: nat, q: nat, r: nat)
    requires m > 0 && r < m && n == m * q + r
    ensures n % m == r
  {
    var q' := n / m;
    if q' > q {
      MulStep(m, q', q);
      assert false;
    } else if q' < q {
      MulStep(m, q, q');
      assert false;
    }
  }

  lemma {:induction false} MulStep(m: nat, x: nat, y: nat)
    requires x > y
    ensures m * x >= m * y + m
    decreases x - y
  {
    assert m * x == m * (x - 1) + m;
    if x > y + 1 {
      MulStep(m, x - 1, y);
    }
  }

  lemma HexValueOfDigit(d: nat)
    requires d < 16
    ensures HexValue(HexAlphabet[d]) == d
  {
  }

  /** Hex and ParseHex are inverse on the digits kept. */
  lemma {:induction false} HexRoundTrip(n: nat, width: nat)
    ensures ParseHex(Hex(n, width)) == n % Pow16(width)
  {
    if width > 0 {
      var s := Hex(n, width);
      var prefix := Hex(n / 16, width - 1);
      assert s == prefix + [HexAlphabet[n % 16]];
      assert s[..|s| - 1] == prefix;
      HexValueOfDigit(n % 16);
      HexRoundTrip(n / 16, width - 1);
      assert ParseHex(s) == 16 * ((n / 16) % Pow16(width - 1)) + n % 16;
      ModOfSplit(n, Pow16(width - 1));
    }
  }

  /** A Guid's "D" string form: 8, 4, 4, 4 and 12 lower-case hexadecimal
      digits separated by hyphens, so 36 characters with hyphens at positions
      8, 13, 18 and 23 and hexadecimal digits everywhere else. */
  function GuidString(id: Guid): (r: string)
    ensures |r| == 36
    ensures forall x :: 0 <= x < 36 ==> if x in {8, 13, 18, 23} then r[x] == '-' else IsHexDigit(r[x])
  {
    Hex(id.a as nat, 8) + "-" + Hex(id.b as nat, 4) + "-" + Hex(id.c as nat, 4) + "-"
    + Hex(id.d as nat, 2) + Hex(id.e as nat, 2) + "-"
    + Hex(id.f as nat, 2) + Hex(id.g as nat, 2) + Hex(id.h as nat, 2)
    + Hex(id.i as nat, 2) + Hex(id.j as nat, 2) + Hex(id.k as nat, 2)
  }

  /** The string form of a Guid is never null, empty or blank. */
  lemma GuidStringNotBlank(id: Guid)
    ensures !IsNullOrWhiteSpace(Value(GuidString(id)))
  {
    var s := GuidString(id);
    assert IsHexDigit(s[0]);
    assert !IsWhiteSpace(s[0]);
    NotBlankWitness(s, 0);
  }

}

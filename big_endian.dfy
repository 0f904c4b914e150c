/** Fixed-width integers on the wire: `sizeof(T)` octets, most significant
    first, negative values in two's complement. */
module BigEndian {
  import opened Bytes

  /** An integer type `T` that `writeInt<T>` is instantiated with: its
      `sizeof(T)` and whether it is signed. */
  datatype IntType = IntType(width: nat, signed: bool)

  /** The widths the codec supports: `uint8_t` … `int64_t`. */
  predicate ValidType(t: IntType) {
    t.width == 1 || t.width == 2 || t.width == 4 || t.width == 8
  }

  function Pow2(n: nat): (r: nat)
    ensures r >= 1
  {
    if n == 0 then 1 else 2 * Pow2(n - 1)
  }

  /** The values a variable of type `t` can hold. */
  predicate InRange(v: int, t: IntType)
    requires ValidType(t)
  {
    if t.signed then -(Pow2(8 * t.width - 1) as int) <= v < Pow2(8 * t.width - 1)
    else 0 <= v < Pow2(8 * t.width)
  }

  /** `v >> n`: a right shift of a (possibly negative, hence sign-filling)
      operand, which rounds toward minus infinity. */
  function ShiftRight(v: int, n: nat): int {
    v / Pow2(n)
  }

  /** `v & 0xFF`: the low octet of the two's complement representation. */
  function LowOctet(v: int): Byte {
    v % 256
  }

  /** Reference encoding: the `w` low octets of `v` in two's complement,
      most significant first, built from the least significant end. */
  function Encode(v: int, w: nat): (r: seq<Byte>)
    ensures |r| == w
    decreases w
  {
    if w == 0 then [] else Encode(v / 256, w - 1) + [v % 256]
  }

  /** The unsigned number a big-endian octet string denotes. */
  function Unsigned(s: seq<Byte>): nat {
    if s == [] then 0 else Unsigned(s[..|s| - 1]) * 256 + s[|s| - 1]
  }

  /** The value of type `t` that a big-endian octet string denotes: the
      unsigned number, read as two's complement when `t` is signed. */
  function Interpret(s: seq<Byte>, t: IntType): int
    requires |s| >= 1
  {
    var u := Unsigned(s);
    if t.signed && u >= Pow2(8 * |s| - 1) then u - Pow2(8 * |s|) else u
  }

  lemma Pow2Add(a: nat, b: nat)
    ensures Pow2(a + b) == Pow2(a) * Pow2(b)
  {
    if a > 0 {
      Pow2Add(a - 1, b);
    }
  }

  lemma DivModUnique(v: int, d: int, q: int, r: int)
    requires d > 0 && v == d * q + r && 0 <= r < d
    ensures v / d == q && v % d == r
  {
    var q', r' := v / d, v % d;
    assert d * (q - q') == r' - r;
    if q > q' {
      MulAtLeast(d, q - q');
    } else if q < q' {
      MulAtLeast(d, q' - q);
    }
  }

  lemma MulAtLeast(d: int, k: int)
    requires d > 0 && k >= 1
    ensures d * k >= d
  {
  }

  lemma MulDistributes(a: int, x: int, y: int)
    ensures a * (x + y) == a * x + a * y
  {
  }

  lemma MulAssociates(a: int, b: int, c: int)
    ensures a * (b * c) == (a * b) * c
  {
  }

  lemma MulMonotone(a: int, x: int, y: int)
    requires a >= 0 && x <= y
    ensures a * x <= a * y
  {
    MulDistributes(a, x, y - x);
  }

  /** Dividing by `a` and then by `b` is dividing by `a * b`; the
      remainders combine accordingly. */
  lemma DivModNest(v: int, a: int, b: int)
    requires a > 0 && b > 0
    ensures v / a / b == v / (a * b)
    ensures (v / a) % b * a + v % a == v % (a * b)
  {
    var q, r := v / a, v % a;
    var q2, r2 := q / b, q % b;
    assert v == a * q + r;
    assert q == b * q2 + r2;
    MulDistributes(a, b * q2, r2);
    MulAssociates(a, b, q2);
    assert v == (a * b) * q2 + (a * r2 + r);
    MulMonotone(a, r2, b - 1);
    MulDistributes(a, b, -1);
    assert 0 <= a * r2 + r < a * b;
    DivModUnique(v, a * b, q2, a * r2 + r);
    assert r2 * a == a * r2;
  }

  /** Octet `i` of the reference encoding is what `writeInt` pushes at
      step `i`: `(value >> ((w - i - 1) * 8)) & 0xFF`. */
  lemma {:induction false} EncodeOctetAt(v: int, w: nat, i: nat)
    requires i < w
    decreases w
    ensures Encode(v, w)[i] == LowOctet(ShiftRight(v, (w - i - 1) * 8))
  {
    if i < w - 1 {
      EncodeOctetAt(v / 256, w - 1, i);
      var k := (w - 1 - i - 1) * 8;
      Pow2Add(8, k);
      assert Pow2(8) == 256;
      DivModNest(v, 256, Pow2(k));
      assert (w - i - 1) * 8 == 8 + k;
    }
  }

  /** The encoding denotes `v` modulo `2^(8w)`. */
  lemma {:induction false} UnsignedEncode(v: int, w: nat)
    ensures Unsigned(Encode(v, w)) == v % Pow2(8 * w)
    decreases w
  {
    if w > 0 {
      var s := Encode(v, w);
      assert s[..w - 1] == Encode(v / 256, w - 1);
      UnsignedEncode(v / 256, w - 1);
      Pow2Add(8, 8 * (w - 1));
      assert Pow2(8) == 256;
      DivModNest(v, 256, Pow2(8 * (w - 1)));
    }
  }

  /** Reading back what `writeInt<T>` wrote, as a `T`, gives the value
      that was written, for every value a `T` can hold. */
  lemma IntRoundTrip(v: int, t: IntType)
    requires ValidType(t) && InRange(v, t)
    ensures Interpret(Encode(v, t.width), t) == v
  {
    var n := 8 * t.width;
    UnsignedEncode(v, t.width);
    Pow2Add(1, n - 1);
    assert Pow2(1) == 2;
    if v < 0 {
      DivModUnique(v, Pow2(n), -1, v + Pow2(n));
    } else {
      DivModUnique(v, Pow2(n), 0, v);
    }
  }
}

/** Bytes, decimal numerals and 64-bit wrap-around. */
module Bytes {
  type Byte = b: int | 0 <= b < 256

  const NUL: Byte := 0
  const CR: Byte := 13
  const LF: Byte := 10
  const CRLF: seq<Byte> := [CR, LF]
  const ZERO: Byte := 48
  const PLUS: Byte := 43
  const MINUS: Byte := 45
  const COLON: Byte := 58
  const DOLLAR: Byte := 36
  const STAR: Byte := 42

  const TWO_63: int := 0x8000_0000_0000_0000
  const TWO_64: int := 0x1_0000_0000_0000_0000
  const TWO_31: int := 0x8000_0000
  const TWO_32: int := 0x1_0000_0000

  /** The value a 64-bit signed integer holds when x is stored in it. */
  function Wrap64(x: int): (w: int)
    ensures -TWO_63 <= w < TWO_63
    ensures -TWO_63 <= x < TWO_63 ==> w == x
  {
    if -TWO_63 <= x < TWO_63 then x
    else
      var r := x % TWO_64;
      if r < TWO_63 then r else r - TWO_64
  }

  /** The value a 32-bit int holds when x is stored in it. */
  function Wrap32(x: int): (w: int)
    ensures -TWO_31 <= w < TWO_31
    ensures -TWO_31 <= x < TWO_31 ==> w == x
  {
    if -TWO_31 <= x < TWO_31 then x
    else
      var r := x % TWO_32;
      if r < TWO_31 then r else r - TWO_32
  }

  predicate IsDigit(c: Byte) { ZERO <= c < ZERO + 10 }

  /** The decimal numeral of n, without leading zeros. */
  function Dec(n: nat): (s: seq<Byte>)
    ensures s != [] && forall i :: 0 <= i < |s| ==> IsDigit(s[i])
  {
    if n < 10 then [ZERO + n] else Dec(n / 10) + [ZERO + n % 10]
  }

  function DecInt(n: int): seq<Byte> {
    if n < 0 then [MINUS] + Dec(-n) else Dec(n)
  }

  lemma {:induction false} Regroup(a: seq<Byte>, b: seq<Byte>, c: seq<Byte>)
    ensures a + b + c == a + (b + c)
  {
  }

  lemma {:induction false} DecLength(v: nat)
    ensures v < 10 ==> |Dec(v)| == 1
    ensures v >= 10 ==> |Dec(v)| == |Dec(v / 10)| + 1
  {
  }

  lemma {:induction false} Wrap32Shift(x: int, k: int)
    ensures Wrap32(x + k * TWO_32) == Wrap32(x)
  {
    assert (x + k * TWO_32) % TWO_32 == x % TWO_32;
  }

  lemma {:induction false} Wrap32Multiple(x: int) returns (q: int)
    ensures Wrap32(x) == x + q * TWO_32
  {
    q := (Wrap32(x) - x) / TWO_32;
    assert Wrap32(x) - x == (Wrap32(x) - x) / TWO_32 * TWO_32;
  }

  /** Sums may be cut to 64 and to 32 bits on the way. */
  lemma {:induction false} Wrap32Sum(x: int, y: int)
    ensures Wrap32(Wrap32(x) + y % TWO_64) == Wrap32(x + y)
  {
    var q := Wrap32Multiple(x);
    assert Wrap32(x) + y % TWO_64 == x + y + (q - y / TWO_64 * TWO_32) * TWO_32;
    Wrap32Shift(x + y, q - y / TWO_64 * TWO_32);
  }

  /** So may either operand of a sum or a difference. */
  lemma {:induction false} Wrap32Both(x: int, y: int, k: int)
    requires k == y || k == Wrap32(y)
    ensures Wrap32(Wrap32(x) + k) == Wrap32(x + y)
    ensures Wrap32(Wrap32(x) - k) == Wrap32(x - y)
  {
    var q := Wrap32Multiple(x);
    var r := 0;
    if k != y { r := Wrap32Multiple(y); }
    assert Wrap32(x) + k == x + y + (q + r) * TWO_32;
    assert Wrap32(x) - k == x - y + (q - r) * TWO_32;
    Wrap32Shift(x + y, q + r);
    Wrap32Shift(x - y, q - r);
  }
}

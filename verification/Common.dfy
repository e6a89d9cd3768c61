/** Notions that several modules share. */
module Common {
  datatype Option<T> = None | Some(value: T)

  // The number of values of a 32-bit integer.
  const TWO_32: nat := 0x1_0000_0000
}

/** Division with remainder. */
module Arithmetic {
  lemma DivModUnique(a: int, m: int, q: int, r: int)
    requires 0 <= r < m && a == q * m + r
    ensures a / m == q && a % m == r
  {
    var d := a / m - q;
    assert d * m == r - a % m;
    assert d >= 1 ==> d * m >= m;
    assert d <= -1 ==> d * m <= -m;
  }

  lemma ModAdd(a: nat, j: nat, m: nat)
    requires 0 < m
    ensures (a % m + j) % m == (a + j) % m
  {
    var b := a % m + j;
    assert a + j == (a / m + b / m) * m + b % m;
    DivModUnique(a + j, m, a / m + b / m, b % m);
  }
}

/** Bits of a byte. */
module Bits {

  // 1 << n
  function Mask(n: nat): bv8
    requires n < 8
  {
    match n
    case 0 => 0x01 case 1 => 0x02 case 2 => 0x04 case 3 => 0x08
    case 4 => 0x10 case 5 => 0x20 case 6 => 0x40 case 7 => 0x80
  }

  predicate Bit(b: bv8, n: nat)
    requires n < 8
  {
    b & Mask(n) != 0
  }

  lemma ClearBit(b: bv8, n: nat, j: nat)
    requires n < 8 && j < 8
    ensures Bit(b & !Mask(n), j) <==> Bit(b, j) && j != n
  {
  }

  lemma SetBit(b: bv8, n: nat, j: nat)
    requires n < 8 && j < 8
    ensures Bit(b | Mask(n), j) <==> Bit(b, j) || j == n
  {
  }
}

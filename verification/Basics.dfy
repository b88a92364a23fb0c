/** Types and functions shared by the models. */
module Basics {

  type Byte = x: int | 0 <= x < 256

  datatype Option<+T> = None | Some(value: T)

  function Min(x: int, y: int): int {
    if x < y then x else y
  }

  function Max(x: int, y: int): int {
    if x > y then x else y
  }

  function Pow2(n: nat): (r: nat)
    ensures r >= 1
  {
    if n == 0 then 1 else 2 * Pow2(n - 1)
  }

  // Bit i of a.
  predicate Bit(a: nat, i: nat) {
    if i == 0 then a % 2 == 1 else Bit(a / 2, i - 1)
  }

  lemma AtLeast(a: nat, b: nat)
    requires a >= 1
    ensures a * b >= b && b * a >= b
  {
  }

  // a * b + c is a and c again, by division.
  lemma Divided(a: nat, b: nat, c: nat)
    requires c < b
    ensures (c + a * b) / b == a && (c + a * b) % b == c
  {
    var x := c + a * b;
    var q, r := x / b, x % b;
    assert x == q * b + r;
    if q < a {
      assert (a - q) * b >= b by { AtLeast(a - q, b); }
    } else if q > a {
      assert (q - a) * b >= b by { AtLeast(q - a, b); }
    }
  }
}

/** Arithmetic and sequence facts shared by the audio path's modules. */
module Basics {
  function Min(a: nat, b: nat): nat {
    if a < b then a else b
  }

  lemma MulLe(a: int, b: int, d: nat)
    requires a <= b
    ensures a * d <= b * d
  {
  }

  lemma MulLess(a: int, b: int, d: nat)
    requires a * d < b * d
    ensures a < b
  {
    if a >= b {
      MulLe(b, a, d);
    }
  }

  lemma Distribute(a: int, b: int, d: int)
    ensures (a + b) * d == a * d + b * d
  {
  }

  lemma DivBounds(x: nat, d: nat)
    requires d > 0
    ensures x == x / d * d + x % d
    ensures x / d * d <= x < (x / d + 1) * d == x / d * d + d
  {
  }

  lemma DivModUnique(x: nat, d: nat, q: nat, r: nat)
    requires r < d && x == q * d + r
    ensures x / d == q && x % d == r
  {
    var k := x / d - q;
    assert x == (x / d) * d + x % d;
    assert k * d == r - x % d;
    if k != 0 {
      MulLe(1, if k > 0 then k else -k, d);
    }
  }

  lemma AppendAssoc<T>(a: seq<T>, b: seq<T>, c: seq<T>)
    ensures (a + b) + c == a + (b + c)
  {
  }
}

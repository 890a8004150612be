/** Division by a positive number that is not a constant. */
module Arith {
  lemma DivUnique(n: nat, i: nat, j: nat)
    requires n > 0 && j < n
    ensures (i * n + j) / n == i && (i * n + j) % n == j
  {
    var x := i * n + j;
    QuotientUnique(n, x / n, x % n, i, j);
  }

  lemma QuotientUnique(n: nat, q: nat, r: nat, q': nat, r': nat)
    requires r < n && r' < n && q * n + r == q' * n + r'
    ensures q == q' && r == r'
  {
    if q < q' {
      MulMono(n, q + 1, q');
    } else if q' < q {
      MulMono(n, q' + 1, q);
    }
  }

  lemma MulMono(n: nat, a: nat, b: nat)
    requires a <= b
    ensures a * n <= b * n
  {
  }

  /** Division and remainder, by repeated subtraction. */
  function Quot(x: nat, b: nat): nat
    requires b > 0
  {
    if x < b then 0 else 1 + Quot(x - b, b)
  }

  function Rem(x: nat, b: nat): (r: nat)
    requires b > 0
    ensures r < b
  {
    if x < b then x else Rem(x - b, b)
  }

  lemma {:induction false} QuotRem(x: nat, b: nat)
    requires b > 0
    ensures x == Quot(x, b) * b + Rem(x, b)
  {
    if x >= b {
      QuotRem(x - b, b);
      assert (1 + Quot(x - b, b)) * b == Quot(x - b, b) * b + b;
    }
  }

  lemma QuotIsDiv(x: nat, b: nat)
    requires b > 0
    ensures Quot(x, b) == x / b && Rem(x, b) == x % b
  {
    QuotRem(x, b);
    QuotientUnique(b, x / b, x % b, Quot(x, b), Rem(x, b));
  }

  /** Positions within one block of b bytes, counted from its start. */
  lemma SameBlock(b: nat, pos: nat, k: nat)
    requires b > 0 && Rem(pos, b) + k < b
    ensures Quot(pos + k, b) == Quot(pos, b) && Rem(pos + k, b) == Rem(pos, b) + k
  {
    QuotRem(pos, b);
    QuotRem(pos + k, b);
    QuotientUnique(b, Quot(pos + k, b), Rem(pos + k, b), Quot(pos, b), Rem(pos, b) + k);
  }

  /** A position below size lies in one of the blocks that size needs. */
  lemma InBlocks(b: nat, pos: nat, size: nat)
    requires b > 0 && pos < size
    ensures Quot(pos, b) < (size + b - 1) / b
  {
    QuotRem(pos, b);
    CeilAbove(b, size, Quot(pos, b));
  }

  lemma DivMono(b: nat, x: nat, y: nat)
    requires b > 0 && x <= y
    ensures x / b <= y / b
  {
    assert x == (x / b) * b + x % b && y == (y / b) * b + y % b;
    if y / b < x / b {
      MulMono(b, y / b + 1, x / b);
    }
  }

  /** x units need more than q blocks exactly when x exceeds q full ones. */
  lemma CeilAbove(b: nat, x: nat, q: nat)
    requires b > 0
    ensures q < (x + b - 1) / b <==> q * b < x
  {
    var y := x + b - 1;
    assert y == (y / b) * b + y % b;
    if q < y / b {
      MulMono(b, q + 1, y / b);
    } else {
      MulMono(b, y / b, q);
    }
  }
}

/** User virtual addresses, as PDX, PTX and PGOFF take them apart, and addresses at or above UTOP. */
module Addresses {
  import opened Arith

  datatype Va = High | Low(pdx: nat, ptx: nat, off: nat)

  const NULL_VA := Low(0, 0, 0)

  /** Address a, with pages of pg bytes, n pages to a table, and UTOP after dirs tables. */
  function Split(pg: nat, n: nat, dirs: nat, a: nat): Va
    requires pg > 0 && n > 0
  {
    var pn := Quot(a, pg);
    if Quot(pn, n) >= dirs then High else Low(Quot(pn, n), Rem(pn, n), Rem(a, pg))
  }

  lemma QuotAbove(b: nat, x: nat, q: nat)
    requires b > 0
    ensures Quot(x, b) >= q <==> x >= q * b
  {
    QuotRem(x, b);
    if Quot(x, b) >= q {
      MulMono(b, q, Quot(x, b));
    } else {
      MulMono(b, Quot(x, b) + 1, q);
      assert (Quot(x, b) + 1) * b == Quot(x, b) * b + b;
    }
  }

  lemma Rejoin(pg: nat, n: nat, a: nat)
    requires pg > 0 && n > 0
    ensures var pn := Quot(a, pg); a == (Quot(pn, n) * n + Rem(pn, n)) * pg + Rem(a, pg)
  {
    QuotRem(a, pg);
    QuotRem(Quot(a, pg), n);
  }

  /** Taking an address apart loses nothing, and the three tests the kernel makes on it can
      be made on the parts. */
  lemma SplitIs(pg: nat, n: nat, dirs: nat, a: nat)
    requires pg > 0 && n > 0
    ensures var v := Split(pg, n, dirs, a);
      && (v.High? <==> a >= dirs * n * pg)
      && (v.Low? ==> a == (v.pdx * n + v.ptx) * pg + v.off && v.pdx < dirs && v.ptx < n && v.off < pg)
      && (v.Low? ==> (v.off == 0 <==> a % pg == 0))
      && (v.Low? ==> (v == NULL_VA <==> a == 0))
  {
    QuotAbove(n, Quot(a, pg), dirs);
    QuotAbove(pg, a, dirs * n);
    QuotIsDiv(a, pg);
    Rejoin(pg, n, a);
  }
}

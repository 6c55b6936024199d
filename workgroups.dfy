/**
  Work-group sizing shared by the dispatch code: nwg(n, l) is the number of
  work groups of local size l that cover n items, (n + l - 1) / l in size_t
  arithmetic, and the global size is l * nwg(n, l), also in size_t.
  MapImageOCL.hpp (HostArgs::nwg, CMapImageOCL::nwg), ocl2.cpp
  (CImageOCL::nwg) and ocl1.cpp (HostArgs::nwg) all compute this.
*/
module WorkGroups {
  import opened CInt

  /** nwg: ceil(n / l) whenever n + l - 1 does not wrap in size_t. */
  function Nwg(n: SizeT, l: SizeT): (r: SizeT)
    requires l > 0
    ensures n + l <= Word64 ==> r * l >= n && r * l < n + l
    ensures n + l <= Word64 && n > 0 ==> r > 0
  {
    var s := ToSizeT(n + l - 1);
    CeilDivision(n, l);
    s / l
  }

  /** Lemma: (n + l - 1) / l is the least multiple count of l reaching n. */
  lemma CeilDivision(n: nat, l: nat)
    requires l > 0
    ensures ((n + l - 1) / l) * l >= n
    ensures ((n + l - 1) / l) * l < n + l
  {
    var q, m := (n + l - 1) / l, (n + l - 1) % l;
    assert n + l - 1 == q * l + m;
  }

  /** The global work size l * nwg(n, l), as stored into a size_t. */
  function GlobalSize(n: SizeT, l: SizeT): (g: SizeT)
    requires l > 0
  {
    ToSizeT(l * Nwg(n, l))
  }

  /** Lemma: without size_t wrap-around the global size is a multiple of the
      local size, covers all n items, and over-dispatches by less than one group. */
  lemma GlobalSizeCovers(n: SizeT, l: SizeT)
    requires l > 0 && n + l <= Word64
    ensures GlobalSize(n, l) % l == 0
    ensures n <= GlobalSize(n, l) < n + l
    ensures GlobalSize(n, l) == l * Nwg(n, l)
  {
    var q := Nwg(n, l);
    assert q * l < Word64;
    assert l * q == q * l;
    MultipleMod(q, l);
  }

  /** Lemma: a multiple of l leaves no remainder. */
  lemma MultipleMod(q: nat, l: nat)
    requires l > 0
    ensures (l * q) % l == 0
  {
    var p := l * q;
    assert p == l * (p / l) + p % l;
    var d := q - p / l;
    assert l * d == p % l;
    assert d == 0;
  }
}

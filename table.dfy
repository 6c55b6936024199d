/**
  Model of Table.hpp: CTable, a fixed-capacity element array with a fill
  count `n` and a limit `max` (one less than the capacity), and
  CIndexedTable, a pair of such tables (elements and indices).

  The count type TCount is modelled as `nat`: every count the code stores is
  non-negative (allocate, setN and commit never store a negative value).
  A NULL element pointer is a null array.
*/
module Table {
  import opened Wrappers

  class CTable<T(0)> {
    var pE: array?<T>
    var n: nat
    var max: nat

    /** The table invariant: the count never exceeds the limit, no storage
        means a zero limit, and the last slot index is `max`. */
    ghost predicate Valid()
      reads this
    {
      && n <= max
      && (pE == null ==> max == 0)
      && (pE != null ==> pE.Length == max + 1)
    }

    /** CTable(m): starts empty, then tries allocate(m). */
    constructor (m: int)
      ensures Valid()
      ensures m > 0 ==> pE != null && fresh(pE) && pE.Length == m && n == 0 && max == m - 1
      ensures m <= 0 ==> pE == null && n == 0 && max == 0
    {
      pE, n, max := null, 0, 0;
      new;
      var _ := Allocate(m);
    }

    /** allocate(m): succeeds only for a positive size when no storage exists. */
    method Allocate(m: int) returns (ok: bool)
      requires Valid()
      modifies this
      ensures Valid()
      ensures ok <==> m > 0 && old(pE) == null
      ensures ok ==> pE != null && fresh(pE) && pE.Length == m && n == 0 && max == m - 1
      ensures !ok ==> unchanged(this)
    {
      if m > 0 && pE == null {
        n, max := 0, 0;
        pE := new T[m];
        max := m - 1;
        return true;
      }
      return false;
    }

    /** release(): drops the storage and zeroes both counters; always true. */
    method Release() returns (ok: bool)
      requires Valid()
      modifies this
      ensures Valid()
      ensures ok && pE == null && n == 0 && max == 0
    {
      n, max := 0, 0;
      if pE != null {
        pE := null;
      }
      return true;
    }

    /** valid(): storage exists, which is exactly when end() has a slot to
        give; without storage both counters are zero. */
    predicate IsValid()
      requires Valid()
      reads this
      ensures IsValid() <==> End().Some?
      ensures !IsValid() ==> n == 0 && max == 0
    {
      pE != null
    }

    /** full(): the count has reached the limit; since it never passes the
        limit, it is then exactly at it. */
    predicate Full()
      requires Valid()
      reads this
      ensures Full() <==> n == max
    {
      n >= max
    }

    /** avail(): room left below the limit; it is zero exactly when the table is full. */
    function Avail(): (r: int)
      requires Valid()
      reads this
      ensures r >= 0
      ensures r == 0 <==> Full()
      ensures n + r == max
    {
      max - n
    }

    /** commit(m): accepts only 0 < m < avail(), so a commit never fills the table. */
    method Commit(m: int) returns (r: int)
      requires Valid()
      modifies this`n
      ensures Valid()
      ensures 0 < m < old(Avail()) ==> r == m && n == old(n) + m
      ensures !(0 < m < old(Avail())) ==> r == 0 && n == old(n)
      ensures r > 0 ==> !Full()
      ensures !old(Full()) ==> !Full()
    {
      if m > 0 && m < Avail() {
        n := n + m;
        return m;
      }
      return 0;
    }

    /** end(): the slot just past the committed elements, or NULL without storage.
        The source assumes n <= max; the invariant makes that slot always exist. */
    function End(): (r: Option<nat>)
      requires Valid()
      reads this
      ensures r.Some? <==> pE != null
      ensures r.Some? ==> r.value == n && r.value < pE.Length
    {
      if pE == null then None else Some(n)
    }

    /** setN(i): clamps i into [0, max], stores and returns it. */
    method SetN(i: int) returns (r: int)
      requires Valid()
      modifies this`n
      ensures Valid()
      ensures r == n && 0 <= r <= max
      ensures i < 0 ==> r == 0
      ensures i > max ==> r == max
      ensures 0 <= i <= max ==> r == i
    {
      var j := i;
      if j < 0 { j := 0; }
      if j > max { j := max; }
      n := j;
      return n;
    }

    /** endMark(em): writes em at slot n when storage exists, otherwise nothing. */
    method EndMark(em: T)
      requires Valid()
      modifies pE
      ensures pE != null ==> pE[n] == em
      ensures pE != null ==> forall j :: 0 <= j < pE.Length && j != n ==> pE[j] == old(pE[j])
    {
      var p := End();
      if p.Some? {
        pE[p.value] := em;
      }
    }

    /** fillFrom(e, i): writes e to the slots i .. max-1 and to no other slot
        (in particular, slot max keeps its value). */
    method FillFrom(e: T, i: nat)
      requires Valid()
      modifies pE
      ensures pE != null ==> forall j :: 0 <= j < pE.Length ==>
        pE[j] == (if i <= j < max then e else old(pE[j]))
    {
      var k := i;
      while k < max
        invariant i <= k && (k <= max || k == i)
        invariant pE != null ==> forall j :: 0 <= j < pE.Length ==>
          pE[j] == (if i <= j < k then e else old(pE[j]))
        decreases max - k
      {
        pE[k] := e;
        k := k + 1;
      }
    }

    /** setLimits(e): writes e at the first and the last slot, nowhere else.
        The source dereferences pE unconditionally, so storage must exist. */
    method SetLimits(e: T)
      requires Valid() && pE != null
      modifies pE
      ensures pE[0] == e && pE[max] == e
      ensures forall j :: 0 < j < max ==> pE[j] == old(pE[j])
    {
      pE[0] := e;
      pE[max] := e;
    }
  }

  /** CIndexedTable: an element table and an index table of counts. */
  class CIndexedTable<T(0)> {
    const elem: CTable<T>
    const idx: CTable<nat>

    ghost predicate Valid()
      reads this, elem, idx
    {
      elem as object != idx as object && elem.Valid() && idx.Valid()
    }

    /** CIndexedTable(mI, mE): constructs elem{mE} and idx{mI}. */
    constructor (mI: int, mE: int)
      ensures Valid() && fresh(elem) && fresh(idx)
      ensures elem.IsValid() <==> mE > 0
      ensures idx.IsValid() <==> mI > 0
      ensures mE > 0 ==> fresh(elem.pE) && elem.pE.Length == mE && elem.n == 0 && elem.max == mE - 1
      ensures mE <= 0 ==> elem.pE == null && elem.n == 0 && elem.max == 0
      ensures mI > 0 ==> fresh(idx.pE) && idx.pE.Length == mI && idx.n == 0 && idx.max == mI - 1
      ensures mI <= 0 ==> idx.pE == null && idx.n == 0 && idx.max == 0
    {
      elem := new CTable(mE);
      idx := new CTable(mI);
    }

    /** allocate(mI, mE) = elem.allocate(mE) || idx.allocate(mI): when the
        element table allocates, the index table is not even attempted. */
    method Allocate(mI: int, mE: int) returns (ok: bool)
      requires Valid()
      modifies elem, idx
      ensures Valid()
      ensures ok <==> (mE > 0 && old(elem.pE) == null) || (mI > 0 && old(idx.pE) == null)
      ensures mE > 0 && old(elem.pE) == null ==>
        unchanged(idx) && elem.pE != null && fresh(elem.pE) && elem.pE.Length == mE && elem.n == 0 && elem.max == mE - 1
      ensures !(mE > 0 && old(elem.pE) == null) ==> unchanged(elem)
      ensures !(mE > 0 && old(elem.pE) == null) && mI > 0 && old(idx.pE) == null ==>
        idx.pE != null && fresh(idx.pE) && idx.pE.Length == mI && idx.n == 0 && idx.max == mI - 1
      ensures !ok ==> unchanged(elem) && unchanged(idx)
    {
      ok := elem.Allocate(mE);
      if !ok {
        ok := idx.Allocate(mI);
      }
    }

    /** release() = elem.release() && idx.release(); both always succeed. */
    method Release() returns (ok: bool)
      requires Valid()
      modifies elem, idx
      ensures Valid()
      ensures ok
      ensures elem.pE == null && elem.n == 0 && elem.max == 0
      ensures idx.pE == null && idx.n == 0 && idx.max == 0
    {
      ok := elem.Release();
      if ok {
        ok := idx.Release();
      }
    }

    /** valid(): both tables hold storage, so both have an end() slot. */
    predicate IsValid()
      requires Valid()
      reads this, elem, idx
      ensures IsValid() <==> elem.End().Some? && idx.End().Some?
    {
      elem.IsValid() && idx.IsValid()
    }

    /** full(): either table has no room left. */
    predicate Full()
      requires Valid()
      reads this, elem, idx
      ensures Full() <==> elem.Avail() == 0 || idx.Avail() == 0
    {
      elem.Full() || idx.Full()
    }

    /** operator[](i): elem.pE + idx.pE[i], the element that index slot i
        records. The source checks nothing, so the slot must exist. The model
        gives the offset when that pointer lands on an element of the
        storage, and None when it cannot be dereferenced: no element
        storage, or an offset past the limit slot. */
    function At(i: int): (r: Option<nat>)
      requires Valid() && idx.pE != null && 0 <= i < idx.pE.Length
      reads this, elem, idx, idx.pE
      ensures r.Some? <==> elem.pE != null && idx.pE[i] <= elem.max
      ensures r.Some? ==> r.value == idx.pE[i] && r.value < elem.pE.Length
    {
      if elem.pE != null && idx.pE[i] < elem.pE.Length then Some(idx.pE[i]) else None
    }

    /** Lemma: an index slot that records a committed position (at most the
        element count) yields a dereferenceable element, the one at that
        offset, or the end() slot. */
    lemma AtCommitted(i: int)
      requires Valid() && idx.pE != null && 0 <= i < idx.pE.Length
      requires elem.IsValid() && idx.pE[i] <= elem.n
      ensures At(i).Some? && At(i).value <= elem.End().value
    {
    }
  }
}

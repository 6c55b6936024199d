/**
  Model of StrTab.hpp: CStrTabBase<signed char, uint16_t> together with its
  only specialisation CStrTabASCII, merged into one class.

  The table holds up to maxI strings in one element array pE of signed chars.
  Index slot pI[i] holds the offset at which string i starts; nI counts the
  committed strings and nE the committed elements. Every string starts out
  pointing at pE[maxE], which setup() makes a nul, so it reads as empty.

  Counts and limits are uint16_t, so the limits set by allocate are the
  requested sizes reduced modulo 2^16. In the source the step of nE past a
  non-nul last element wraps to 0 when maxE is 65535; the model's commit
  stops at maxE instead (CommitElemsAsWrittenWrapsToStart).
*/
module StrTab {
  import opened Wrappers
  import opened CInt

  /** What operator[] yields: an offset into the element array,
      or the shared one-element nul string. */
  datatype StrRef = Nul | Chars(offset: nat)

  /** The effect of commitE on the element array:
      success flag, new element count, new element contents. */
  datatype ElemCommit = ElemCommit(ok: bool, nE: UInt16, elems: seq<SChar>)

  /** commitE(k) AS WRITTEN in the source: after accepting the k elements
      it steps nE past the last one when that is not nul, and only then
      writes the nul, at the NEW nE, one slot beyond the committed ones. */
  function CommitElemsAsWritten(e: seq<SChar>, nE: UInt16, maxE: UInt16, k: int): (r: ElemCommit)
    requires maxE < |e| && nE <= maxE + 1
    ensures |r.elems| == |e|
    ensures r.ok <==> 0 < k <= maxE - nE
    ensures !r.ok ==> r.nE == nE && r.elems == e
    ensures r.ok && nE + k + 1 < Word16 ==> r.elems[nE..nE + k] == e[nE..nE + k]
  {
    if 0 < k <= maxE - nE then
      var m := nE + k;
      if e[m - 1] != 0 then
        var m' := ToUInt16(m + 1);
        ElemCommit(true, m', if m' < maxE then e[m' := 0] else e)
      else
        ElemCommit(true, m, e)
    else
      ElemCommit(false, nE, e)
  }

  /** commitE(k) as evidently intended ("ensure nul termination"): a nul is
      written in the first slot after the committed elements, then nE
      steps past it, unless that step would wrap the uint16_t count, in
      which case nE stays at maxE and the space reads as used up. This is
      the definition the class uses. */
  function CommitElems(e: seq<SChar>, nE: UInt16, maxE: UInt16, k: int): (r: ElemCommit)
    requires maxE < |e| && nE <= maxE + 1
    ensures |r.elems| == |e|
    ensures r.ok <==> 0 < k <= maxE - nE
    ensures !r.ok ==> r.nE == nE && r.elems == e
    ensures r.ok ==> r.elems[nE..nE + k] == e[nE..nE + k]
    ensures r.ok ==> nE + k <= r.nE <= nE + k + 1 && r.nE <= maxE + 1
    ensures r.ok ==> (r.nE == nE + k + 1 <==> e[nE + k - 1] != 0 && nE + k + 1 < Word16)
    ensures forall j :: 0 <= j < |e| && !(r.ok && j == nE + k < maxE) ==> r.elems[j] == e[j]
  {
    if 0 < k <= maxE - nE then
      var m := nE + k;
      if e[m - 1] != 0 then
        ElemCommit(true, if m + 1 < Word16 then m + 1 else m, if m < maxE then e[m := 0] else e)
      else
        ElemCommit(true, m, e)
    else
      ElemCommit(false, nE, e)
  }

  /** Lemma: the corrected commitE leaves the committed elements followed by a
      nul: the last slot it consumes holds 0, and nE never skips a slot that
      was not written. */
  lemma CommitElemsTerminates(e: seq<SChar>, nE: UInt16, maxE: UInt16, k: int)
    requires maxE < |e| && nE <= maxE + 1
    requires 0 < k && nE + k < maxE
    ensures CommitElems(e, nE, maxE, k).ok
    ensures CommitElems(e, nE, maxE, k).nE > 0
    ensures CommitElems(e, nE, maxE, k).elems[CommitElems(e, nE, maxE, k).nE - 1] == 0
  {
  }

  /** Lemma (counterexample): with elements "ABC" and a nul, committing the
      single element 'A' as written leaves string 0 reading "AB": the nul
      lands at index 2, index 1 keeps 'B', and nE moves to 2, so the last
      consumed slot is not a nul. */
  lemma CommitElemsAsWrittenLeavesGap()
    ensures CommitElemsAsWritten([65, 66, 67, 0], 0, 3, 1) == ElemCommit(true, 2, [65, 66, 0, 0])
    ensures CommitElemsAsWritten([65, 66, 67, 0], 0, 3, 1).elems[1] != 0
    ensures CommitElems([65, 66, 67, 0], 0, 3, 1) == ElemCommit(true, 2, [65, 0, 67, 0])
  {
  }

  /** Lemma (counterexample): nE is a uint16_t, so when maxE is 65535 the
      step past a non-nul last element wraps nE to 0 as written; the whole
      element space then reads as free again, and since 0 < maxE the nul
      store overwrites element 0, the first element of string 0. The
      corrected commit leaves nE at maxE and element 0 alone. */
  lemma CommitElemsAsWrittenWrapsToStart(e: seq<SChar>)
    requires |e| == Word16 && e[0] != 0 && e[Word16 - 2] != 0
    ensures CommitElemsAsWritten(e, Word16 - 2, Word16 - 1, 1) == ElemCommit(true, 0, e[0 := 0])
    ensures CommitElemsAsWritten(e, Word16 - 2, Word16 - 1, 1).elems[0] != e[0]
    ensures CommitElems(e, Word16 - 2, Word16 - 1, 1) == ElemCommit(true, Word16 - 1, e)
  {
  }

  /** The index slot that commitI AS WRITTEN stores into (pI[++nI]), if any. */
  function CommitIAsWrittenSlot(nI: UInt16, maxI: UInt16): (r: Option<nat>)
    ensures r.Some? <==> nI < maxI
    ensures r.Some? ==> r.value == nI + 1 && r.value <= maxI
  {
    if nI < maxI then Some(nI + 1) else None
  }

  /** Lemma (counterexample): allocate gives pI exactly mI slots and sets
      maxI = mI, so the commitI that takes nI from mI - 1 to mI stores into
      slot mI, one past the end (slot 32 of a default 32-string table). */
  lemma CommitIAsWrittenOverruns(mI: int)
    requires 0 < mI < Word16
    ensures CommitIAsWrittenSlot(mI - 1, ToUInt16(mI)) == Some(mI)
  {
  }

  /** The offset that commit(k) AS WRITTEN records for the next string:
      commitE as written, then commitI stores the new nE unchanged
      (pI[++nI] = nE); None when commitE refuses. */
  function CommitStartAsWritten(e: seq<SChar>, nE: UInt16, maxE: UInt16, k: int): (r: Option<nat>)
    requires maxE < |e| && nE <= maxE + 1
    ensures r.Some? <==> 0 < k <= maxE - nE
    ensures r.Some? ==> r.value <= maxE + 1
  {
    var c := CommitElemsAsWritten(e, nE, maxE, k);
    if c.ok then Some(c.nE as nat) else None
  }

  /** The offset the corrected commitI records for the next string: nE, or
      the final nul at maxE once nE has stepped past it, so that the next
      string reads as empty, like every string setup() prepares. */
  function NextStart(nE: UInt16, maxE: UInt16): (r: UInt16)
    ensures r <= maxE
    ensures nE <= maxE ==> r == nE
    ensures nE > maxE ==> r == maxE
  {
    if nE <= maxE then nE else maxE
  }

  /** Lemma (as written): filling the element space with a string whose last
      element is not a nul steps nE to maxE + 1, and commitI records that as
      the next string's start: with maxE = mE - 1 that is offset mE of an
      mE-element array, one past its end. */
  lemma {:induction false} CommitAsWrittenPointsPastEnd(e: seq<SChar>, nE: UInt16, maxE: UInt16)
    requires maxE < |e| && nE < maxE && maxE + 1 < Word16 && e[maxE - 1] != 0
    ensures CommitStartAsWritten(e, nE, maxE, maxE - nE) == Some(maxE + 1)
    ensures NextStart(CommitElems(e, nE, maxE, maxE - nE).nE, maxE) == maxE
  {
    assert ToUInt16(maxE + 1) == maxE + 1;
    assert CommitElemsAsWritten(e, nE, maxE, maxE - nE).nE == maxE + 1;
  }

  /** Lemma (counterexample): a table with maxE = 3 over "ABC" and a nul.
      Committing the three elements as written records offset 4 for the next
      string, which is the length of the element array. */
  lemma CommitAsWrittenPastEndExample()
    ensures CommitStartAsWritten([65, 66, 67, 0], 0, 3, 3) == Some(|[65, 66, 67, 0]|)
  {
    CommitAsWrittenPointsPastEnd([65, 66, 67, 0], 0, 3);
  }

  class StrTabASCII {
    var pI: array?<UInt16>
    var pE: array?<SChar>
    var maxI: UInt16
    var maxE: UInt16
    var nI: UInt16
    var nE: UInt16

    /** Both arrays exist or neither does; without storage all counters are
        zero; with storage the limits fit the arrays and the counts stay
        within the limits (nE may overshoot maxE by the terminator slot). */
    ghost predicate Shape()
      reads this
    {
      && (pI == null <==> pE == null)
      && (pI == null ==> maxI == 0 && maxE == 0 && nI == 0 && nE == 0)
      && (pI != null ==> pI as object != pE && maxI <= pI.Length && maxE < pE.Length && nI <= maxI && nE <= maxE + 1)
    }

    /** The table invariant: the shape above, and every string slot holds an
        offset at most maxE, so every string starts inside the element array. */
    ghost predicate Valid()
      reads this, pI
    {
      && Shape()
      && (pI != null ==> forall i :: 0 <= i < maxI ==> pI[i] <= maxE)
    }

    /** The state setup() leaves: empty counts, nul at both ends of the
        element array, string 0 at offset 0 and every other string at maxE. */
    ghost predicate SetUp()
      reads this, pI, pE
    {
      && nI == 0 && nE == 0
      && (pE != null && 0 < maxE < pE.Length ==> pE[0] == 0 && pE[maxE] == 0)
      && (pI != null && 0 < maxI <= pI.Length ==>
            pI[0] == 0 && forall i :: 1 <= i < maxI ==> pI[i] == maxE)
    }

    /** CStrTabASCII(maxS, expectLenS) = CStrTabBase(maxS, maxS * (expectLenS + 1)).
        The source leaves maxI and maxE uninitialised when allocation is not
        attempted; the model starts every counter at 0. */
    constructor (maxS: Int32, expectLenS: Int32)
      ensures Valid() && SetUp()
      ensures maxS > 0 && maxS * (expectLenS + 1) > 0 ==>
        && pI != null && pE != null && fresh(pI) && fresh(pE)
        && pI.Length == maxS && pE.Length == maxS * (expectLenS + 1)
        && maxI == ToUInt16(maxS) && maxE == ToUInt16(maxS * (expectLenS + 1) - 1)
      ensures !(maxS > 0 && maxS * (expectLenS + 1) > 0) ==> pI == null && pE == null
    {
      pI, pE := null, null;
      maxI, maxE, nI, nE := 0, 0, 0, 0;
      new;
      var _ := Allocate(maxS, maxS * (expectLenS + 1));
    }

    /** allocate(mI, mE): with both sizes positive, creates whichever array
        is missing (maxI = mI, maxE = mE - 1, truncated to uint16_t); then,
        in every case, returns setup(). */
    method Allocate(mI: int, mE: int) returns (ok: bool)
      requires Shape()
      modifies this, pI, pE
      ensures Valid() && SetUp()
      ensures ok <==> pI != null && pE != null
      ensures ok <==> old(pI) != null || (mI > 0 && mE > 0)
      ensures old(pI) == null && mI > 0 && mE > 0 ==>
        && pI != null && pE != null && fresh(pI) && fresh(pE)
        && pI.Length == mI && pE.Length == mE
        && maxI == ToUInt16(mI) && maxE == ToUInt16(mE - 1)
      ensures old(pI) != null || !(mI > 0 && mE > 0) ==>
        pI == old(pI) && pE == old(pE) && maxI == old(maxI) && maxE == old(maxE)
    {
      if mI > 0 && mE > 0 {
        if pI == null {
          pI := new UInt16[mI];
          maxI := ToUInt16(mI);
        }
        if pE == null {
          pE := new SChar[mE];
          maxE := ToUInt16(mE - 1);
        }
      }
      ok := Setup();
    }

    /** release(): frees both arrays and zeroes all counters; always true. */
    method Release() returns (ok: bool)
      requires Valid()
      modifies this
      ensures Valid()
      ensures ok && pI == null && pE == null
      ensures nI == 0 && maxI == 0 && nE == 0 && maxE == 0
    {
      if pI != null { pI := null; }
      nI, maxI := 0, 0;
      if pE != null { pE := null; }
      nE, maxE := 0, 0;
      return true;
    }

    /** setup(): resets both counts, nul-terminates the element array at both
        ends, points string 0 at offset 0 and strings 1 .. maxI-1 at the
        final nul; returns valid(). Nothing else is written. */
    method Setup() returns (ok: bool)
      requires Shape()
      modifies this`nI, this`nE, pI, pE
      ensures Valid() && SetUp()
      ensures ok <==> pI != null && pE != null
      ensures pE != null ==> forall j :: 0 <= j < pE.Length && !(maxE > 0 && (j == 0 || j == maxE)) ==>
        pE[j] == old(pE[j])
      ensures pI != null ==> forall j :: maxI <= j < pI.Length ==> pI[j] == old(pI[j])
      ensures ok ==> forall i :: 1 <= i < maxI ==> At(i) == Chars(maxE)
      ensures ok && maxI > 0 ==> At(0) == Chars(0)
    {
      nI, nE := 0, 0;
      if maxE > 0 {
        if pE != null {
          pE[0] := 0;
          pE[maxE] := 0;
        }
      }
      if pI != null && maxI > 0 {
        pI[0] := 0;
        for i := 1 to maxI
          modifies pI
          invariant pI[0] == 0
          invariant forall j :: 1 <= j < i ==> pI[j] == maxE
          invariant forall j :: i <= j < pI.Length ==> pI[j] == old(pI[j])
        {
          pI[i] := maxE;
        }
      }
      ok := pI != null && pE != null;
    }

    /** valid(): both arrays exist; without them every limit and count is
        zero, with them the limits fit the arrays. */
    predicate IsValid()
      requires Valid()
      reads this, pI
      ensures !IsValid() ==> maxI == 0 && maxE == 0 && nI == 0 && nE == 0
      ensures IsValid() ==> maxI <= pI.Length && maxE < pE.Length
    {
      pI != null && pE != null
    }

    /** elemAvail(): elements still free, maxE - nE; at most one below zero
        (after the step past a non-nul last element), and at most zero
        exactly when the element space is used up. */
    function ElemAvail(): (r: int)
      requires Valid()
      reads this, pI
      ensures r >= -1
      ensures nE + r == maxE
      ensures r <= 0 <==> nE >= maxE
    {
      maxE - nE
    }

    /** full(): the string slots are used up or no element is free. */
    predicate Full()
      requires Valid()
      reads this, pI
      ensures Full() <==> nI >= maxI || ElemAvail() <= 0
    {
      nI >= maxI || nE >= maxE
    }

    /** commitE(k): accepts 0 < k <= elemAvail() elements written at nE and
        nul-terminates them (the corrected definition CommitElems). */
    method CommitE(k: int) returns (ok: bool)
      requires Valid()
      modifies this`nE, pE
      ensures Valid()
      ensures pE == null ==> !ok && nE == old(nE)
      ensures pE != null ==> ElemCommit(ok, nE, pE[..]) == CommitElems(old(pE[..]), old(nE), maxE, k)
    {
      if 0 < k && k <= ElemAvail() {
        nE := nE + k;
        if pE[nE - 1] != 0 {
          if nE < maxE {
            pE[nE] := 0;
          }
          if nE < Word16 - 1 {
            nE := nE + 1;
          }
        }
        return true;
      }
      return false;
    }

    /** commitI(): nul at pE[nE] if there is room, then, if a string slot is
        left, counts the string and records where the next one starts.
        The source stores that start in pI[nI] even when nI has reached
        maxI, one past the array; the model stores it only into slots that
        exist (CommitIAsWrittenSlot states the written behaviour). The source
        also records nE itself, which can be maxE + 1, past the element
        array (CommitAsWrittenPointsPastEnd); the model records NextStart. */
    method CommitI() returns (ok: bool)
      requires Valid()
      modifies this`nI, pI, pE
      ensures Valid()
      ensures pE != null ==> forall j :: 0 <= j < pE.Length ==>
        pE[j] == (if j == nE < maxE then 0 else old(pE[j]))
      ensures ok <==> old(nI) < maxI
      ensures ok ==> nI == old(nI) + 1
      ensures !ok ==> nI == old(nI)
      ensures pI != null ==> forall j :: 0 <= j < pI.Length ==>
        pI[j] == (if ok && j == nI < maxI then NextStart(nE, maxE) else old(pI[j]))
    {
      if nE < maxE {
        pE[nE] := 0;
      }
      if nI < maxI {
        nI := nI + 1;
        if nI < maxI {
          pI[nI] := NextStart(nE, maxE);
        }
        return true;
      }
      return false;
    }

    /** next(): where the caller should write the next string, or NULL when
        the table is invalid or full. */
    function Next(): (r: Option<nat>)
      requires Valid()
      reads this, pI
      ensures r.Some? <==> pI != null && pE != null && nI < maxI && nE < maxE
      ensures r.Some? ==> r.value == pI[nI] && r.value < pE.Length
    {
      if IsValid() && !Full() then Some(pI[nI]) else None
    }

    /** commit(k) = commitE(k) && commitI(): commitI runs only when commitE
        accepted the elements. */
    method Commit(k: int) returns (ok: bool)
      requires Valid()
      modifies this`nE, this`nI, pI, pE
      ensures Valid()
      ensures !(0 < k <= old(ElemAvail())) ==> !ok && nE == old(nE) && nI == old(nI)
      ensures !(0 < k <= old(ElemAvail())) && pE != null ==> pE[..] == old(pE[..])
      ensures !(0 < k <= old(ElemAvail())) && pI != null ==> pI[..] == old(pI[..])
      ensures ok <==> 0 < k <= old(ElemAvail()) && old(nI) < maxI
      ensures ok ==> nI == old(nI) + 1
      ensures !ok ==> nI == old(nI)
      ensures 0 < k <= old(ElemAvail()) ==>
        var c := CommitElems(old(pE[..]), old(nE), maxE, k);
        pE != null && nE == c.nE && pE[..] == (if c.nE < maxE then c.elems[c.nE := 0] else c.elems)
      ensures pI != null ==> forall j :: 0 <= j < pI.Length ==>
        pI[j] == (if ok && j == nI < maxI then NextStart(nE, maxE) else old(pI[j]))
    {
      ok := CommitE(k);
      if ok {
        ok := CommitI();
      }
    }

    /** operator[](i): string i for 0 <= i < maxI on a valid table,
        otherwise the shared nul string. */
    function At(i: int): (r: StrRef)
      requires Valid()
      reads this, pI
      ensures r.Chars? <==> 0 <= i < maxI && pI != null && pE != null
      ensures r.Chars? ==> r.offset == pI[i] && r.offset < pE.Length
    {
      if 0 <= i < maxI && IsValid() then Chars(pI[i]) else Nul
    }
  }
}

/**
  Model of ocl1.cpp: the host side of a vector addition r = a + b. Three
  host buffers of n floats, three device buffers of the same byte size,
  the global work size rounded up to whole work groups, and the kernel's
  index guard. Float contents and arithmetic are not modelled: the buffers
  hold `Scalar`, a stand-in for float.
*/
module Ocl1 {
  import opened CInt
  import opened Wrappers
  import WorkGroups

  /** Stand-in for the float elements; their values play no part here. */
  type Scalar = real

  /** The element that work item g of the vecAdd kernel writes: its global
      id is stored into an int, compared with n after conversion back to
      size_t, and pR[id] is written only when id < n. */
  function VecAddIndex(g: SizeT, n: SizeT): (r: Option<nat>)
    ensures r.Some? ==> r.value < n
    ensures g <= IntMax ==> (r.Some? <==> g < n) && (r.Some? ==> r.value == g)
  {
    var id := ToInt32(g);
    var idz := ToSizeT(id);
    if idz < n then Some(idz) else None
  }

  /** The work items below gws that write element i. */
  function VecAddWriters(i: nat, n: SizeT, gws: nat): set<nat>
  {
    set g: nat | g < gws && g < Word64 && VecAddIndex(g, n) == Some(i)
  }

  /** Lemma: when the grid covers n and fits in int ids, each element is
      written by exactly one work item, the one with that id, and the items
      at n and beyond write nothing. */
  lemma {:induction false} VecAddWritesOnce(i: nat, n: SizeT, gws: nat)
    requires i < n <= gws <= IntMax + 1
    ensures VecAddWriters(i, n, gws) == {i}
    ensures forall g: SizeT :: n <= g < gws ==> VecAddIndex(g, n).None?
  {
    assert VecAddIndex(i, n) == Some(i);
    forall g | g in VecAddWriters(i, n, gws)
      ensures g == i
    {
      assert VecAddIndex(g, n) == Some(g);
    }
    forall g: SizeT | n <= g < gws
      ensures VecAddIndex(g, n).None?
    {
      assert g <= IntMax;
    }
  }

  /** Lemma: beyond 2^32 items the int id wraps around, so item 2^32 + 3
      writes element 3 again and item 2^31 (id INT_MIN) writes nothing. */
  lemma VecAddIdWraps()
    ensures VecAddIndex(Word32 + 3, 10) == Some(3)
    ensures VecAddIndex(0x8000_0000, Word32) == None
  {
  }

  /** Lemma: the demo's run, 2^20 elements with local size 32, dispatches
      exactly 2^20 work items, and each element gets exactly one writer. */
  lemma {:induction false} VecAddDemo()
    ensures WorkGroups.GlobalSize(0x10_0000, 32) == 0x10_0000
    ensures forall i: nat :: i < 0x10_0000 ==> VecAddWriters(i, 0x10_0000, WorkGroups.GlobalSize(0x10_0000, 32)) == {i}
  {
    WorkGroups.GlobalSizeCovers(0x10_0000, 32);
    var gws := WorkGroups.GlobalSize(0x10_0000, 32);
    assert gws == 0x10_0000 by {
      assert gws % 32 == 0;
    }
    forall i: nat | i < 0x10_0000
      ensures VecAddWriters(i, 0x10_0000, gws) == {i}
    {
      VecAddWritesOnce(i, 0x10_0000, gws);
    }
  }

  class HostArgs {
    var pR: array?<Scalar>
    var pA: array?<Scalar>
    var pB: array?<Scalar>
    var n: SizeT

    /** The three buffers exist together, with n elements each. */
    ghost predicate Valid()
      reads this
    {
      && (pR == null <==> pA == null) && (pA == null <==> pB == null)
      && (pR != null ==> pR.Length == n && pA.Length == n && pB.Length == n)
    }

    constructor ()
      ensures Valid() && pR == null && n == 0
    {
      pR, pA, pB, n := null, null, null, 0;
    }

    /** allocate(nElem): when nElem > 0 and no buffer exists, three buffers
        of nElem elements, n = nElem, and the byte size of one buffer
        (4 * nElem in size_t) returned; otherwise 0 and no change. */
    method Allocate(nElem: SizeT) returns (bytes: SizeT)
      requires Valid()
      modifies this
      ensures Valid()
      ensures nElem > 0 && old(pR) == null ==>
        pR != null && fresh(pR) && fresh(pA) && fresh(pB) && n == nElem && bytes == ToSizeT(4 * nElem)
      ensures !(nElem > 0 && old(pR) == null) ==> bytes == 0 && unchanged(this)
    {
      if nElem > 0 && pR == null && pA == null && pB == null {
        pR, pA, pB := new Scalar[nElem], new Scalar[nElem], new Scalar[nElem];
        n := nElem;
        return ToSizeT(n * 4);
      }
      return 0;
    }

    /** release(): drops the three buffers and returns true; n keeps its
        value. */
    method Release() returns (ok: bool)
      modifies this
      ensures ok && pR == null && pA == null && pB == null && n == old(n)
    {
      pR, pA, pB := null, null, null;
      return true;
    }

    /** nwg(l): the number of work groups of size l covering n. */
    function Nwg(l: SizeT): (r: SizeT)
      requires l > 0
      reads this
      ensures n + l <= Word64 ==> n <= r * l < n + l
    {
      WorkGroups.Nwg(n, l)
    }
  }

  class DeviceArgs {
    var hR: nat
    var hA: nat
    var hB: nat
    var bytes: SizeT

    constructor ()
      ensures hR == 0 && hA == 0 && hB == 0 && bytes == 0
    {
      hR, hA, hB, bytes := 0, 0, 0, 0;
    }

    /** allocate(buffBytes, ctx): with a non-zero size and no handles yet,
        creates the three buffers (handles and statuses as clCreateBuffer
        would give them) and records the size when all three statuses are
        non-negative. */
    method Allocate(buffBytes: SizeT, h: (nat, nat, nat), r: (Int32, Int32, Int32)) returns (ok: bool)
      modifies this
      ensures ok <==> buffBytes > 0 && old(hR) == 0 && old(hA) == 0 && old(hB) == 0 && r.0 >= 0 && r.1 >= 0 && r.2 >= 0
      ensures !(buffBytes > 0 && old(hR) == 0 && old(hA) == 0 && old(hB) == 0) ==> unchanged(this)
      ensures buffBytes > 0 && old(hR) == 0 && old(hA) == 0 && old(hB) == 0 ==>
        hR == h.0 && hA == h.1 && hB == h.2 && bytes == (if ok then buffBytes else old(bytes))
    {
      if buffBytes > 0 && hR == 0 && hA == 0 && hB == 0 {
        hR, hA, hB := h.0, h.1, h.2;
        if r.0 >= 0 && r.1 >= 0 && r.2 >= 0 {
          bytes := buffBytes;
          return true;
        }
      }
      return false;
    }

    /** release(): drops all three handles; true when every status is
        non-negative. */
    method Release(r: (Int32, Int32, Int32)) returns (ok: bool)
      modifies this`hR, this`hA, this`hB
      ensures hR == 0 && hA == 0 && hB == 0
      ensures ok <==> r.0 >= 0 && r.1 >= 0 && r.2 >= 0
    {
      hR, hA, hB := 0, 0, 0;
      ok := r.0 >= 0 && r.1 >= 0 && r.2 >= 0;
    }
  }

  /** One clSetKernelArg of execute(): slot, size and value. */
  datatype ArgValue = Buffer(handle: nat) | Count(n: SizeT)
  datatype KernelArg = KernelArg(slot: nat, size: SizeT, value: ArgValue)

  class CVecAddOCL {
    const host: HostArgs
    const device: DeviceArgs

    ghost predicate Valid()
      reads this, host
    {
      host.Valid() && host as object != device as object
    }

    constructor ()
      ensures Valid() && host.pR == null && device.hR == 0 && device.hA == 0 && device.hB == 0
      ensures fresh(host) && fresh(device)
    {
      host := new HostArgs();
      device := new DeviceArgs();
    }

    /** createArgs(nElem): false for nElem == 0 without allocating;
        otherwise the host buffers, then device buffers of the byte size
        the host side returned. */
    method CreateArgs(nElem: SizeT, h: (nat, nat, nat), r: (Int32, Int32, Int32)) returns (ok: bool)
      requires Valid()
      modifies host, device
      ensures Valid()
      ensures nElem == 0 ==> !ok && unchanged(host) && unchanged(device)
      ensures ok ==> old(host.pR) == null && host.n == nElem && device.bytes == ToSizeT(4 * nElem) > 0
      ensures nElem > 0 && old(host.pR) == null && old(device.hR) == 0 && old(device.hA) == 0 && old(device.hB) == 0 ==>
        (ok <==> ToSizeT(4 * nElem) > 0 && r.0 >= 0 && r.1 >= 0 && r.2 >= 0)
      ensures old(host.pR) != null ==> !ok && unchanged(host) && unchanged(device)
      ensures nElem > 0 && old(host.pR) == null && ToSizeT(4 * nElem) == 0 ==> !ok && unchanged(device)
      ensures ok ==> device.hR == h.0 && device.hA == h.1 && device.hB == h.2
      ensures nElem > 0 && old(host.pR) == null ==>
        host.pR != null && fresh(host.pR) && fresh(host.pA) && fresh(host.pB) && host.n == nElem
      ensures (nElem > 0 && old(host.pR) == null && ToSizeT(4 * nElem) > 0
        && old(device.hR) == 0 && old(device.hA) == 0 && old(device.hB) == 0) ==>
        device.hR == h.0 && device.hA == h.1 && device.hB == h.2
    {
      if nElem > 0 {
        var b := host.Allocate(nElem);
        ok := device.Allocate(b, h, r);
        return;
      }
      return false;
    }

    /** execute(lws): the global size lws * nwg(lws), the arguments bound in
        order (the three buffers, then n), and the outcome from the statuses
        of the enqueue and the read-back; the input copies' statuses and
        clFinish's are not looked at. */
    method Execute(lws: SizeT, rEnq: Int32, rRead: Int32) returns (ok: bool, gws: SizeT, plan: seq<KernelArg>)
      requires Valid() && lws > 0
      ensures gws == WorkGroups.GlobalSize(host.n, lws)
      ensures host.n + lws <= Word64 ==> host.n <= gws < host.n + lws && gws % lws == 0
      ensures plan == [KernelArg(0, 8, Buffer(device.hR)), KernelArg(1, 8, Buffer(device.hA)),
                       KernelArg(2, 8, Buffer(device.hB)), KernelArg(3, 8, Count(host.n))]
      ensures ok <==> rEnq >= 0 && rRead >= 0
    {
      gws := ToSizeT(lws * host.Nwg(lws));
      if host.n + lws <= Word64 {
        WorkGroups.GlobalSizeCovers(host.n, lws);
      }
      plan := [KernelArg(0, 8, Buffer(device.hR)), KernelArg(1, 8, Buffer(device.hA)),
               KernelArg(2, 8, Buffer(device.hB)), KernelArg(3, 8, Count(host.n))];
      var res := rEnq;
      if res >= 0 {
        res := rRead;
      }
      ok := res >= 0;
    }

    /** release(all): host, then device, then (with all) the build objects
        whose outcome rBuild is foreign. */
    method Release(all: bool, r: (Int32, Int32, Int32), rBuild: bool) returns (ok: bool)
      requires Valid()
      modifies host, device`hR, device`hA, device`hB
      ensures Valid() && host.pR == null && host.n == old(host.n)
      ensures device.hR == 0 && device.hA == 0 && device.hB == 0
      ensures ok <==> r.0 >= 0 && r.1 >= 0 && r.2 >= 0 && (all ==> rBuild)
    {
      var hr := host.Release();
      var d := false;
      if hr {
        d := device.Release(r);
      }
      ok := hr && d;
      if all {
        ok := ok && rBuild;
      }
    }

  }
}

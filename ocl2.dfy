/**
  Model of ocl2.cpp: an index-image demo. A w x h buffer of uint32 is
  allocated on host and device, the "image" kernel stores each element's
  own linear index into it over a grid rounded up to whole work groups,
  and verify() counts the elements that hold their index. The kernel is
  modelled as the host loop that performs the same per-item writes, applied
  directly to the host buffer (the device copy and the read-back are
  foreign calls).
*/
module Ocl2 {
  import opened CInt
  import opened Wrappers
  import WorkGroups

  /** Number of positions i of s with s[i] == i. */
  function FixedPoints(s: seq<int>): (c: nat)
    ensures c <= |s|
  {
    if s == [] then 0
    else FixedPoints(s[..|s| - 1]) + (if s[|s| - 1] == |s| - 1 then 1 else 0)
  }

  /** Lemma: every position is a fixed point exactly when s is the
      identity map 0, 1, ..., |s| - 1. */
  lemma {:induction false} FixedPointsAll(s: seq<int>)
    ensures FixedPoints(s) == |s| <==> forall i :: 0 <= i < |s| ==> s[i] == i
  {
    if s != [] {
      var p := s[..|s| - 1];
      FixedPointsAll(p);
      assert forall i :: 0 <= i < |p| ==> p[i] == s[i];
    }
  }

  /** The write that work item (iw, ih) of the image kernel performs: the
      linear index j = ih * w + iw, stored as a uint, when iw < w and ih < h;
      no write otherwise. */
  function KernelWrite(iw: nat, ih: nat, w: nat, h: nat): (r: Option<(nat, UInt32)>)
    ensures r.Some? <==> iw < w && ih < h
    ensures r.Some? ==> r.value.0 == ih * w + iw && r.value.1 == r.value.0 % Word32
  {
    if iw < w && ih < h then Some((ih * w + iw, ToUInt32(ih * w + iw))) else None
  }

  /** The work items of a gws0 x gws1 grid that write element j. */
  function Writers(j: nat, w: nat, h: nat, gws0: nat, gws1: nat): set<(nat, nat)>
  {
    set iw: nat, ih: nat | iw < gws0 && ih < gws1 && KernelWrite(iw, ih, w, h).Some?
      && KernelWrite(iw, ih, w, h).value.0 == j :: (iw, ih)
  }

  /** Lemma: a quotient and remainder that add back up to j are j's. */
  lemma DivModUnique(j: nat, w: nat, q: nat, r: nat)
    requires r < w && j == q * w + r
    ensures j / w == q && j % w == r
  {
    var q', r' := j / w, j % w;
    assert (q - q') * w == r' - r;
    if q > q' {
      MulMono(1, q - q', w);
    } else if q < q' {
      MulMono(1, q' - q, w);
    }
  }

  /** Lemma: on a grid covering w x h, each element of the buffer is written
      by exactly one work item, (j % w, j / w), and no item writes outside
      the buffer; so the order the items run in does not matter. */
  lemma WritersExactlyOne(j: nat, w: nat, h: nat, gws0: nat, gws1: nat)
    requires w <= gws0 && h <= gws1 && j < w * h
    ensures Writers(j, w, h, gws0, gws1) == {(j % w, j / w)}
    ensures forall iw: nat, ih: nat :: KernelWrite(iw, ih, w, h).Some? ==> KernelWrite(iw, ih, w, h).value.0 < w * h
  {
    var q, r := j / w, j % w;
    assert j == q * w + r;
    assert q < h by {
      if q >= h { MulMono(h, q, w); }
    }
    assert KernelWrite(r, q, w, h).Some?;
    forall p | p in Writers(j, w, h, gws0, gws1)
      ensures p == (r, q)
    {
      DivModUnique(j, w, p.1, p.0);
    }
    forall iw: nat, ih: nat | KernelWrite(iw, ih, w, h).Some?
      ensures KernelWrite(iw, ih, w, h).value.0 < w * h
    {
      RowStep(ih, w, h);
    }
  }

  class HostArgs {
    var pI: array?<UInt32>
    var w: UInt32
    var h: UInt32

    /** No buffer means 0 x 0; a buffer has w * h elements as computed in
        size_t, so its length agrees with the uint32 product modulo 2^32. */
    ghost predicate Valid()
      reads this
    {
      && (pI == null ==> w == 0 && h == 0)
      && (pI != null ==> pI.Length % Word32 == (w * h) % Word32)
    }

    constructor ()
      ensures Valid() && pI == null
    {
      pI, w, h := null, 0, 0;
    }

    /** allocate(nW, nH): only when no buffer exists, nW * nH elements (in
        size_t), with w and h the sizes stored into uint32; returns the
        element count. Otherwise 0 and nothing changes. */
    method Allocate(nW: SizeT, nH: SizeT) returns (n: SizeT)
      requires Valid()
      modifies this
      ensures Valid()
      ensures old(pI) == null ==>
        pI != null && fresh(pI) && n == pI.Length == ToSizeT(nW * nH) && w == ToUInt32(nW) && h == ToUInt32(nH)
      ensures old(pI) != null ==> n == 0 && unchanged(this)
    {
      if pI == null {
        n := ToSizeT(nW * nH);
        pI := new UInt32[n];
        w, h := ToUInt32(nW), ToUInt32(nH);
        ModWord64ThenWord32(nW * nH);
        ProductModWord32(nW, nH);
        ModWord64ThenWord32(w * h);
        return n;
      }
      return 0;
    }

    /** release(): frees the buffer and sets w = h = 0; always true. */
    method Release() returns (ok: bool)
      requires Valid()
      modifies this
      ensures Valid() && ok && pI == null && w == 0 && h == 0
    {
      if pI != null {
        pI := null;
        w, h := 0, 0;
      }
      return true;
    }

    /** The image kernel over a gws0 x gws1 grid: item (iw, ih) stores
        j = ih * w + iw at pI[j] when iw < w and ih < h. Needs the buffer to
        hold the untruncated w * h elements. A covering grid leaves every
        element holding its own index; any grid writes only that. */
    method ImageKernel(gws0: nat, gws1: nat)
      requires Valid() && pI != null && pI.Length == w * h
      modifies pI
      ensures forall j :: 0 <= j < pI.Length ==> pI[j] == old(pI[j]) || pI[j] == j % Word32
      ensures w <= gws0 && h <= gws1 ==> forall j :: 0 <= j < pI.Length ==> pI[j] == j % Word32
    {
      for ih := 0 to gws1
        invariant forall j :: 0 <= j < pI.Length ==> pI[j] == old(pI[j]) || pI[j] == j % Word32
        invariant w <= gws0 ==> forall j :: 0 <= j < pI.Length && j < (if ih < h then ih else h) * w ==> pI[j] == j % Word32
      {
        KernelRow(ih, gws0);
      }
    }

    /** The work items (0, ih) .. (gws0 - 1, ih) of the image kernel. When
        gws0 covers w and ih < h, row ih holds its indices afterwards. */
    method KernelRow(ih: nat, gws0: nat)
      requires Valid() && pI != null && pI.Length == w * h
      requires w <= gws0 ==> forall j :: 0 <= j < pI.Length && j < (if ih < h then ih else h) * w ==> pI[j] == j % Word32
      modifies pI
      ensures forall j :: 0 <= j < pI.Length ==> pI[j] == old(pI[j]) || pI[j] == j % Word32
      ensures w <= gws0 ==> forall j :: 0 <= j < pI.Length && j < (if ih + 1 < h then ih + 1 else h) * w ==> pI[j] == j % Word32
    {
      ghost var W: nat, H: nat := w, h;
      ghost var lo: nat := (if ih < H then ih else H) * W;
      if ih < H {
        RowStep(ih, W, H);
      }
      for iw := 0 to gws0
        invariant forall j :: 0 <= j < pI.Length ==> pI[j] == old(pI[j]) || pI[j] == j % Word32
        invariant W <= gws0 ==> forall j :: 0 <= j < pI.Length && j < lo ==> pI[j] == j % Word32
        invariant W <= gws0 && ih < H ==>
          forall j :: lo <= j < pI.Length && j < lo + (if iw < W then iw else W) ==> pI[j] == j % Word32
      {
        if iw < w {
          if ih < h {
            var j: nat := ih * w + iw;
            pI[j] := ToUInt32(j);
          }
        }
      }
      assert (if ih + 1 < H then ih + 1 else H) * W == (if ih < H then lo + W else lo);
    }
  }

  class DeviceArgs {
    var hI: nat
    var bytes: SizeT

    constructor ()
      ensures hI == 0 && bytes == 0
    {
      hI, bytes := 0, 0;
    }

    /** allocate(nElem, ctx): the buffer size is 4 * nElem bytes (in
        size_t); handle and r stand for clCreateBuffer's results. Returns the
        size when r >= 0, else 0. */
    method Allocate(nElem: SizeT, handle: nat, r: Int32) returns (b: SizeT)
      modifies this
      ensures bytes == ToSizeT(4 * nElem) && hI == handle
      ensures b == (if r >= 0 then bytes else 0)
    {
      bytes := ToSizeT(4 * nElem);
      hI := handle;
      if r >= 0 { return bytes; }
      return 0;
    }

    /** release(): drops the handle; true when the status r is non-negative. */
    method Release(r: Int32) returns (ok: bool)
      modifies this`hI
      ensures hI == 0 && (ok <==> r >= 0)
    {
      hI := 0;
      ok := r >= 0;
    }
  }

  /** One clSetKernelArg of execute(): slot, size and value. */
  datatype ArgValue = DeviceBuffer(handle: nat) | Width(w: UInt32) | Height(h: UInt32)
  datatype KernelArg = KernelArg(slot: nat, size: SizeT, value: ArgValue)

  class CImageOCL {
    const host: HostArgs
    const device: DeviceArgs

    ghost predicate Valid()
      reads this, host
    {
      host.Valid() && host as object != device as object
    }

    constructor ()
      ensures Valid() && host.pI == null && fresh(host) && fresh(device)
    {
      host := new HostArgs();
      device := new DeviceArgs();
    }

    /** createArgs(w, h): false without allocating when w or h is 0;
        otherwise the host buffer, then, if it has elements, the device
        buffer; true when the device side reports a non-zero size. */
    method CreateArgs(w: SizeT, h: SizeT, handle: nat, r: Int32) returns (ok: bool)
      requires Valid()
      modifies host, device
      ensures Valid()
      ensures w == 0 || h == 0 ==> !ok && unchanged(host) && unchanged(device)
      ensures w > 0 && h > 0 && old(host.pI) == null ==>
        host.pI != null && fresh(host.pI) && host.pI.Length == ToSizeT(w * h)
        && host.w == ToUInt32(w) && host.h == ToUInt32(h)
      ensures ok ==> (old(host.pI) == null && host.pI != null && host.pI.Length > 0
        && device.bytes == ToSizeT(4 * host.pI.Length) && device.hI == handle && r >= 0)
      ensures w > 0 && h > 0 && old(host.pI) == null && ToSizeT(w * h) > 0 ==>
        (ok <==> r >= 0 && ToSizeT(4 * ToSizeT(w * h)) > 0)
      ensures old(host.pI) != null ==> !ok && unchanged(host) && unchanged(device)
      ensures w > 0 && h > 0 && old(host.pI) == null && ToSizeT(w * h) == 0 ==> !ok && unchanged(device)
      ensures w > 0 && h > 0 && old(host.pI) == null && ToSizeT(w * h) > 0 ==>
        device.hI == handle && device.bytes == ToSizeT(4 * ToSizeT(w * h))
    {
      if w > 0 && h > 0 {
        var nElem := host.Allocate(w, h);
        if nElem > 0 {
          var bytes := device.Allocate(nElem, handle, r);
          return bytes > 0;
        }
      }
      return false;
    }

    /** execute(lws): the global size per axis, the arguments bound in order
        (device buffer, w, h), and the outcome from the statuses of the
        enqueue and the read-back; clFinish's status is not looked at. */
    method Execute(lws: array<SizeT>, rEnq: Int32, rRead: Int32)
      returns (ok: bool, gws: seq<SizeT>, plan: seq<KernelArg>)
      requires Valid() && lws.Length == 2 && lws[0] > 0 && lws[1] > 0
      ensures gws == [WorkGroups.GlobalSize(host.w, lws[0]), WorkGroups.GlobalSize(host.h, lws[1])]
      ensures plan == [KernelArg(0, 8, DeviceBuffer(device.hI)), KernelArg(1, 4, Width(host.w)), KernelArg(2, 4, Height(host.h))]
      ensures ok <==> rEnq >= 0 && rRead >= 0
    {
      gws := [lws[0] * WorkGroups.Nwg(host.w, lws[0]) % Word64, lws[1] * WorkGroups.Nwg(host.h, lws[1]) % Word64];
      plan := [KernelArg(0, 8, DeviceBuffer(device.hI)), KernelArg(1, 4, Width(host.w)), KernelArg(2, 4, Height(host.h))];
      var r := rEnq;
      if r >= 0 {
        r := rRead;
      }
      ok := r >= 0;
    }

    /** release(all): host, then device, then (with all) the build objects
        whose outcome rBuild is foreign. */
    method Release(all: bool, rDev: Int32, rBuild: bool) returns (ok: bool)
      requires Valid()
      modifies host, device`hI
      ensures Valid() && host.pI == null && device.hI == 0
      ensures ok <==> rDev >= 0 && (all ==> rBuild)
    {
      var hr := host.Release();
      var d := false;
      if hr {
        d := device.Release(rDev);
      }
      ok := hr && d;
      if all {
        ok := ok && rBuild;
      }
    }

    /** verify(): -1 without a buffer or with a zero uint32 element count
        n = w * h; otherwise how many of the first n elements hold their own
        index. The int loop counter needs n <= INT_MAX. */
    method Verify() returns (r: int)
      requires Valid()
      requires host.pI != null ==> (host.w * host.h) % Word32 <= IntMax
      ensures host.pI == null || (host.w * host.h) % Word32 == 0 ==> r == -1
      ensures host.pI != null && (host.w * host.h) % Word32 > 0 ==>
        (host.w * host.h) % Word32 <= host.pI.Length && r == FixedPoints(host.pI[..(host.w * host.h) % Word32])
    {
      r := -1;
      var n := ToUInt32(host.w * host.h);
      if host.pI != null && n > 0 {
        var v: UInt32 := 0;
        r := 0;
        for i := 0 to n
          invariant v == i && r == FixedPoints(host.pI[..i])
        {
          assert host.pI[..i + 1][..i] == host.pI[..i];
          if v == host.pI[i] { r := r + 1; }
          v := ToUInt32(v + 1);
        }
      }
    }
  }

  /** The demo's run: a 256 x 256 image, lws = (32, 32); after the kernel
      verify() reports all 65536 elements correct. */
  method Demo() returns (r: int)
    ensures r == 65536
  {
    var img := new CImageOCL();
    var ok := img.CreateArgs(256, 256, 1, 0);
    var g0, g1 := WorkGroups.GlobalSize(256, 32), WorkGroups.GlobalSize(256, 32);
    WorkGroups.GlobalSizeCovers(256, 32);
    img.host.ImageKernel(g0, g1);
    r := img.Verify();
    ghost var s := img.host.pI[..65536];
    assert forall i :: 0 <= i < |s| ==> s[i] == i;
    FixedPointsAll(s);
  }
}

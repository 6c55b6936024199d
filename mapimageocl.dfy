/**
  Model of MapImageOCL.hpp: the host side of a 2D image kernel dispatch.
  HostArgs owns the host image (a CMapImage2D of MapImage.hpp), DeviceArgs
  the device buffer handle and its size, and CMapImageOCL plans a dispatch:
  the global work size per axis and the kernel arguments bound, in order.
  Every OpenCL call is foreign: the handles and status codes it would
  return are parameters.
*/
module MapImageOCL {
  import opened CInt
  import opened Wrappers
  import MapImage
  import WorkGroups

  /** Geometry arguments of a kernel: none, or the Mandelbrot view of
      ocl3.cpp, four floats (lower bound and resolution, not modelled) passed
      as two pairs. */
  datatype GeomArgs = EmptyGeomArgs | MandelGeomArgs
  {
    /** nArgs(): how many geometry arguments the kernel takes. */
    function NArgs(): (n: Byte)
      ensures n <= 2
      ensures n == 0 <==> this.EmptyGeomArgs?
    {
      if this.EmptyGeomArgs? then 0 else 2
    }

    /** get(bytes, i): the byte count and the float offset into the payload
        of geometry argument i, or 0 bytes and no pointer. */
    function Get(i: Byte): (r: (SizeT, Option<nat>))
      ensures r.1.Some? <==> i < NArgs()
      ensures r.1.None? ==> r.0 == 0
      ensures r.1.Some? ==> r.0 == 8 && r.1.value == 2 * i && r.1.value + 2 <= 4
    {
      match this
      case EmptyGeomArgs => (0, None)
      case MandelGeomArgs => if i == 0 || i == 1 then (8, Some(2 * i as nat)) else (0, None)
    }
  }

  /** A kernel: its source, entry point and geometry arguments. */
  datatype KernInfo = KernInfo(src: string, entryPoint: string, pA: Option<GeomArgs>)

  /** The KernInfo constructor with its defaults: no geometry, entry "image"
      (KernInfoDefaults states them). */
  function MakeKernInfo(s: string, p: Option<GeomArgs> := None, e: string := "image"): KernInfo
  {
    KernInfo(s, e, p)
  }

  /** Lemma: a kernel given only its source runs entry point "image" with
      no geometry. */
  lemma KernInfoDefaults(s: string)
    ensures MakeKernInfo(s).entryPoint == "image" && MakeKernInfo(s).pA.None?
    ensures MakeKernInfo(s, Some(MandelGeomArgs)).entryPoint == "image"
  {
  }

  /** Where the value bound to a kernel argument slot comes from. */
  datatype ArgValue =
    | DeviceBuffer(handle: nat)
    | Definition(x: UInt16, y: UInt16)
    | Geometry(offset: Option<nat>)

  /** One clSetKernelArg: slot, size in bytes and value. */
  datatype KernelArg = KernelArg(slot: nat, size: SizeT, value: ArgValue)

  /** sizeof(cl_mem) and sizeof(cl_ushort2) on a 64-bit host. */
  const HandleBytes: SizeT := 8
  const DefBytes: SizeT := 4

  class HostArgs {
    const image: MapImage.MapImage2D

    ghost predicate Valid()
      reads this, image
    {
      image.Valid()
    }

    constructor ()
      ensures Valid() && image.pI == null && fresh(image)
    {
      image := new MapImage.MapImage2D();
    }

    /** allocate(w, h): the image allocation in bytes (4 per element); the
        sizes are truncated to the 16-bit Def1D on the way. 0 when a buffer
        already exists. */
    method Allocate(w: SizeT, h: SizeT) returns (bytes: SizeT)
      requires Valid()
      modifies image
      ensures Valid()
      ensures old(image.pI) == null ==>
        image.pI != null && fresh(image.pI) && image.defX == ToUInt16(w) && image.defY == ToUInt16(h)
        && bytes == 4 * image.NumElem()
      ensures old(image.pI) != null ==> bytes == 0 && unchanged(image)
    {
      var n := image.Allocate(ToUInt16(w), ToUInt16(h));
      bytes := n * 4;
    }

    /** def.s[i]: the image definition on axis i. */
    function Def(i: nat): UInt16
      requires i < 2
      reads this, image
    {
      if i == 0 then image.defX else image.defY
    }

    /** setGWS(gws, l): on both axes, the global size l[i] * nwg(def.s[i], l[i]). */
    method SetGWS(gws: array<SizeT>, l: array<SizeT>)
      requires gws.Length >= 2 && l.Length >= 2 && l[0] > 0 && l[1] > 0
      requires gws != l
      modifies gws
      ensures forall i :: 0 <= i < 2 ==> gws[i] == WorkGroups.GlobalSize(Def(i), l[i])
      ensures forall i :: 2 <= i < gws.Length ==> gws[i] == old(gws[i])
    {
      for i := 0 to 2
        invariant forall k :: 0 <= k < i ==> gws[k] == WorkGroups.GlobalSize(Def(k), l[k])
        invariant forall k :: i <= k < gws.Length ==> gws[k] == old(gws[k])
      {
        gws[i] := WorkGroups.GlobalSize(Def(i), l[i]);
      }
    }
  }

  /** Lemma: each axis of setGWS is a whole number of work groups covering
      the image with less than one group to spare. */
  lemma SetGWSCovers(d: UInt16, l: SizeT)
    requires 0 < l && l + 0xFFFF <= Word64
    ensures WorkGroups.GlobalSize(d, l) % l == 0
    ensures d <= WorkGroups.GlobalSize(d, l) < d + l
  {
    WorkGroups.GlobalSizeCovers(d, l);
  }

  class DeviceArgs {
    var hI: nat
    var bytes: SizeT

    constructor ()
      ensures hI == 0 && bytes == 0
    {
      hI, bytes := 0, 0;
    }

    /** allocate(buffBytes, ctx): for a non-zero size, creates the buffer
        (handle and status r as clCreateBuffer would give them) and records
        its size when r >= 0. A zero size creates nothing. */
    method Allocate(buffBytes: SizeT, handle: nat, r: Int32) returns (ok: bool)
      modifies this
      ensures ok <==> buffBytes > 0 && r >= 0
      ensures buffBytes == 0 ==> unchanged(this)
      ensures buffBytes > 0 ==> hI == handle && bytes == (if r >= 0 then buffBytes else old(bytes))
    {
      if buffBytes > 0 {
        hI := handle;
        if r >= 0 {
          bytes := buffBytes;
          return true;
        }
      }
      return false;
    }

    /** release(): drops the handle; true when clReleaseMemObject's status
        r is non-negative. */
    method Release(r: Int32) returns (ok: bool)
      modifies this`hI
      ensures hI == 0 && (ok <==> r >= 0)
    {
      hI := 0;
      ok := r >= 0;
    }
  }

  /** The kernel arguments execute() binds, in order: the device buffer,
      def, then one slot per geometry argument up to two. */
  function BindPlan(hI: nat, x: UInt16, y: UInt16, ga: GeomArgs): (plan: seq<KernelArg>)
    ensures |plan| == 2 + ga.NArgs() as nat
    ensures forall k :: 0 <= k < |plan| ==> plan[k].slot == k
    ensures plan[0] == KernelArg(0, HandleBytes, DeviceBuffer(hI))
    ensures plan[1] == KernelArg(1, DefBytes, Definition(x, y))
    ensures forall k :: 2 <= k < |plan| ==>
      plan[k].size == ga.Get(k - 2).0 == 8 && plan[k].value == Geometry(ga.Get(k - 2).1)
  {
    var fixed := [KernelArg(0, HandleBytes, DeviceBuffer(hI)), KernelArg(1, DefBytes, Definition(x, y))];
    var n := ga.NArgs();
    if n > 0 then
      var g0 := [KernelArg(2, ga.Get(0).0, Geometry(ga.Get(0).1))];
      if n > 1 then fixed + g0 + [KernelArg(3, ga.Get(1).0, Geometry(ga.Get(1).1))]
      else fixed + g0
    else fixed
  }

  class CMapImageOCL {
    const host: HostArgs
    const device: DeviceArgs

    ghost predicate Valid()
      reads this, host, host.image
    {
      host.Valid()
    }

    constructor ()
      ensures Valid() && host.image.pI == null && device.hI == 0
      ensures fresh(host) && fresh(host.image) && fresh(device)
    {
      host := new HostArgs();
      device := new DeviceArgs();
    }

    /** createArgs(w, h): allocates the host image and then a device buffer
        of the same byte size; handle and r stand for clCreateBuffer's
        results. When the host side yields 0 bytes no device buffer is
        created and the result is false. */
    method CreateArgs(w: SizeT, h: SizeT, handle: nat, r: Int32) returns (ok: bool)
      requires Valid()
      modifies host.image, device
      ensures Valid()
      ensures old(host.image.pI) != null ==> !ok && unchanged(host.image) && unchanged(device)
      ensures old(host.image.pI) == null ==>
        host.image.defX == ToUInt16(w) && host.image.defY == ToUInt16(h) && fresh(host.image.pI)
      ensures old(host.image.pI) == null && host.image.NumElem() == 0 ==> !ok && unchanged(device)
      ensures host.image.NumElem() > 0 && old(host.image.pI) == null ==>
        (ok <==> r >= 0) && device.hI == handle && (ok ==> device.bytes == 4 * host.image.NumElem())
    {
      var b := host.Allocate(w, h);
      ok := device.Allocate(b, handle, r);
    }

    /** execute(lws, ga): the global work size of each axis, the kernel
        arguments bound in order, and the outcome. rEnq, rFinish and rRead
        stand for the statuses of clEnqueueNDRangeKernel, clFinish and
        clEnqueueReadBuffer; the read's status overwrites the finish status,
        so only the enqueue and the read decide the outcome. */
    method Execute(lws: array<SizeT>, ga: GeomArgs, rEnq: Int32, rFinish: Int32, rRead: Int32)
      returns (ok: bool, gws: seq<SizeT>, plan: seq<KernelArg>)
      requires Valid() && lws.Length == 2 && lws[0] > 0 && lws[1] > 0
      ensures |gws| == 2 && forall i :: 0 <= i < 2 ==> gws[i] == WorkGroups.GlobalSize(host.Def(i), lws[i])
      ensures plan == BindPlan(device.hI, host.image.defX, host.image.defY, ga)
      ensures ok <==> rEnq >= 0 && rRead >= 0
    {
      var g := new SizeT[2];
      host.SetGWS(g, lws);
      gws := g[..];
      plan := [KernelArg(0, HandleBytes, DeviceBuffer(device.hI)),
               KernelArg(1, DefBytes, Definition(host.image.defX, host.image.defY))];
      var n := ga.NArgs();
      if n > 0 {
        var b, p := ga.Get(0).0, ga.Get(0).1;
        plan := plan + [KernelArg(2, b, Geometry(p))];
        if n > 1 {
          b, p := ga.Get(1).0, ga.Get(1).1;
          plan := plan + [KernelArg(3, b, Geometry(p))];
        }
      }
      var r := rEnq;
      if r >= 0 {
        r := rFinish;
        r := rRead;
      }
      ok := r >= 0;
    }

    /** release(all): releases host then device (the host side always
        succeeds, so the device is always released); with all, also the
        build objects, whose outcome rBuild is foreign. */
    method Release(all: bool, rDev: Int32, rBuild: bool) returns (ok: bool)
      requires Valid()
      modifies host.image, device`hI
      ensures Valid() && host.image.pI == null && device.hI == 0
      ensures ok <==> rDev >= 0 && (all ==> rBuild)
    {
      var h := host.image.Release();
      var d := false;
      if h {
        d := device.Release(rDev);
      }
      ok := h && d;
      if all {
        ok := ok && rBuild;
      }
    }

    /** save(fileName): the host image saved in format 3 (RGB). */
    method Save() returns (bytes: nat, out: seq<Byte>)
      requires Valid() && host.image.Encodable(3)
      ensures out == MapImage.SaveOutput(host.image.Pixels(), 3)
      ensures bytes == |out| == 3 * host.image.NumElem()
    {
      bytes, out := host.image.Save(3);
    }
  }
}

# Compute OpenCL demos: a Dafny model of the host-side core

This project models the host side of the OpenCL demo programs in Compute:

- the fixed-capacity tables of `Table.hpp` (`CTable`, `CIndexedTable`);
- the string table of `StrTab.hpp` (`CStrTabBase<signed char, uint16_t>` with its only specialisation `CStrTabASCII`);
- the two 2D image containers (`CMapImage2D` over signed `int` in `MapImage.hpp`, over `uint32_t` in `Image.hpp`), including the pixel encoders and the bytes `save()` writes;
- the dispatch code of `MapImageOCL.hpp`, `ocl2.cpp` (index image) and `ocl1.cpp` (vector addition):
  - sizing allocations;
  - computing the global work size from the local size;
  - the kernel arguments bound, in order;
  - how the OpenCL status codes decide each call's result;
  - what each kernel writes, and where.

C integer widths are explicit (module `CInt`). `uint8_t`, `uint16_t`, `uint32_t`, `size_t` (64-bit), `int` and `signed char` are subset types of `int`. Every store into a narrower type goes through a truncating conversion: `ToByte`, `ToUInt16`, `ToUInt32`, `ToSizeT`, `ToInt32`. C's truncating division is `CDiv`.

Objects whose fields the C++ updates in place are classes with `modifies` clauses. Buffers are arrays, and a NULL pointer is a null array. C++ `new` throws rather than returning NULL, so allocation always succeeds in the model.

Every OpenCL call is foreign to the model. The handle and status code a `cl*` call would return are parameters of the method that makes the call. A kernel is modelled by the writes its work items perform:

- for `ocl2`, as a host loop over the grid that makes the same writes to the host buffer;
- for `ocl1`, as the index each work item writes.

In both cases a lemma states that every element has exactly one writer covering it. So the order in which work items run does not matter.

Saving to a file is modelled as the byte sequence written, plus the count `save()` returns.

The grey encoding truncates rather than saturates: `i2u8Hack` stores `|v|` into a `uint8_t`, which reduces it modulo 256. `MapImage.Grey` does the same (`MapImage.GreyTruncates`).

## Model

| member | source | states |
|---|---|---|
| Table.CTable.constructor | OpenCL/Common/Table.hpp:22 | a positive size gives an empty table with storage for m elements and limit m - 1; otherwise no storage and zero counters |
| Table.CTable.Allocate | OpenCL/Common/Table.hpp:25-34 | succeeds exactly for m > 0 without existing storage: fresh m-slot storage, n = 0, max = m - 1; otherwise nothing changes |
| Table.CTable.Release | OpenCL/Common/Table.hpp:36-41 | always true; storage dropped and both counters zero |
| Table.CTable.Avail | OpenCL/Common/Table.hpp:44-46 | room left is non-negative, n + avail = max, and it is 0 exactly when full() holds |
| Table.CTable.IsValid | OpenCL/Common/Table.hpp:43 | valid() holds exactly when end() has a slot to give; without storage both counters are zero |
| Table.CTable.Full | OpenCL/Common/Table.hpp:44 | full() holds exactly when the count is at the limit, which it never passes |
| Table.CTable.Commit | OpenCL/Common/Table.hpp:48-56 | accepts exactly 0 < m < avail() and adds m to n; otherwise returns 0 and n is unchanged; a table that was not full stays not full |
| Table.CTable.End | OpenCL/Common/Table.hpp:58-62 | NULL exactly without storage (valid() false); otherwise slot n, which always lies inside the storage |
| Table.CTable.SetN | OpenCL/Common/Table.hpp:64-70 | stores and returns i clamped into [0, max]: 0 below, max above, i itself in range |
| Table.CTable.EndMark | OpenCL/Common/Table.hpp:72 | with storage, slot n holds em and every other slot is unchanged |
| Table.CTable.FillFrom | OpenCL/Common/Table.hpp:74 | slots i .. max - 1 hold e; every other slot, slot max included, is unchanged |
| Table.CTable.SetLimits | OpenCL/Common/Table.hpp:75 | slots 0 and max hold e; the slots between them are unchanged |
| Table.CIndexedTable.constructor | OpenCL/Common/Table.hpp:84 | elem{mE} and idx{mI}: each table, for a positive size m, is empty with fresh storage of m slots and limit m - 1; otherwise it has no storage and zero counters |
| Table.CIndexedTable.Allocate | OpenCL/Common/Table.hpp:87 | short-circuit or: when the element table allocates (fresh mE slots, n = 0, max = mE - 1), the index table is untouched; otherwise the element table is unchanged and the index table is tried, with the same new state for mI; true exactly when one of them allocated |
| Table.CIndexedTable.Release | OpenCL/Common/Table.hpp:88 | true; both tables without storage and with zero counters |
| Table.CIndexedTable.IsValid | OpenCL/Common/Table.hpp:89 | valid() holds exactly when both tables have an end() slot |
| Table.CIndexedTable.Full | OpenCL/Common/Table.hpp:90 | full() holds exactly when either table has no room left (avail() = 0) |
| Table.CIndexedTable.At | OpenCL/Common/Table.hpp:92 | elem.pE + idx.pE[i] lands on an element exactly when the element table has storage and the recorded offset is at most its limit; the offset is then inside the storage |
| Table.CIndexedTable.AtCommitted | OpenCL/Common/Table.hpp:92 | a recorded offset within the element count always lands inside the storage, at most at end() |
| StrTab.StrTabASCII.constructor | OpenCL/Common/StrTab.hpp:150 | CStrTabASCII(maxS, len) allocates fresh arrays of maxS index slots and maxS * (len + 1) elements when both are positive, with maxI = maxS and maxE = maxS * (len + 1) - 1 as uint16_t; otherwise no arrays; the table is set up |
| StrTab.StrTabASCII.Allocate | OpenCL/Common/StrTab.hpp:67-83 | with both sizes positive, creates each missing array with maxI = mI and maxE = mE - 1 (as uint16_t); always ends with setup(); true exactly when both arrays exist |
| StrTab.StrTabASCII.Release | OpenCL/Common/StrTab.hpp:85-92 | true; both arrays dropped; every count and limit 0 |
| StrTab.StrTabASCII.Setup | OpenCL/Common/StrTab.hpp:121-134 | counts reset; with maxE > 0, nul at elements 0 and maxE and nowhere else; string 0 at offset 0, strings 1 .. maxI - 1 at maxE (each reads as empty); result is valid() |
| StrTab.StrTabASCII.IsValid | OpenCL/Common/StrTab.hpp:136 | without both arrays every limit and count is zero; with them the limits fit the arrays |
| StrTab.StrTabASCII.ElemAvail | OpenCL/Common/StrTab.hpp:138 | nE + elemAvail() = maxE; at least -1; at most 0 exactly when the element space is used up |
| StrTab.StrTabASCII.Full | OpenCL/Common/StrTab.hpp:137 | full() holds exactly when no string slot or no element is left (elemAvail() <= 0) |
| StrTab.CommitElemsAsWritten | OpenCL/Common/StrTab.hpp:94-107 | commitE as written: accepts exactly 0 < k <= elemAvail(); a rejected commit changes nothing; the committed elements keep their values |
| StrTab.CommitElems | OpenCL/Common/StrTab.hpp:94-107 | corrected commitE: same acceptance; nE advances by k, plus 1 for a terminator exactly when the last element is not nul and the uint16_t count has room, so it never wraps and never passes maxE + 1; only slot nE + k, the terminator, can change |
| StrTab.CommitElemsTerminates | OpenCL/Common/StrTab.hpp:99-101 | after a corrected commit with room to spare, the last slot consumed holds a nul |
| StrTab.CommitElemsAsWrittenLeavesGap | OpenCL/Common/StrTab.hpp:98-101 | as written, committing 'A' over "ABC" leaves index 1 holding 'B' with nE = 2, so string 0 reads "AB"; the corrected commit writes the nul at index 1 |
| StrTab.CommitElemsAsWrittenWrapsToStart | OpenCL/Common/StrTab.hpp:98-101 | as written, with maxE = 65535 the step past a non-nul last element wraps nE to 0 and the nul store overwrites element 0; the corrected commit leaves nE at maxE and the elements unchanged |
| StrTab.StrTabASCII.CommitE | OpenCL/Common/StrTab.hpp:94-107 | the new count and elements are those of the corrected CommitElems; no storage means no commit |
| StrTab.CommitIAsWrittenSlot | OpenCL/Common/StrTab.hpp:112 | as written, commitI stores into index slot nI + 1 exactly when nI < maxI, and that slot can be maxI itself |
| StrTab.CommitIAsWrittenOverruns | OpenCL/Common/StrTab.hpp:112 | for an mI-slot index array (maxI = mI), the commit that takes nI to mI stores into slot mI, one past the end (slot 32 of the default table) |
| StrTab.CommitStartAsWritten | OpenCL/Common/StrTab.hpp:98-112 | as written, commit(k) records the new nE as the next string's start; it accepts exactly 0 < k <= elemAvail(), and the start can be maxE + 1 |
| StrTab.NextStart | OpenCL/Common/StrTab.hpp:112 | corrected: the recorded start is nE while nE <= maxE, else maxE (the final nul); never past maxE |
| StrTab.CommitAsWrittenPointsPastEnd | OpenCL/Common/StrTab.hpp:98-112 | as written, filling the element space with a string whose last element is not nul records start maxE + 1, one past an mE-element array; the corrected start is maxE |
| StrTab.CommitAsWrittenPastEndExample | OpenCL/Common/StrTab.hpp:98-112 | as written, committing "ABC" into a 4-element table with maxE = 3 records start 4, the array's length |
| StrTab.StrTabASCII.CommitI | OpenCL/Common/StrTab.hpp:109-115 | nul at nE when nE < maxE and no other element changed; true exactly when nI < maxI, then nI + 1; the next string's start (NextStart) is stored only into a slot that exists, every other slot unchanged |
| StrTab.StrTabASCII.Next | OpenCL/Common/StrTab.hpp:152-157 | a position exactly when the table is valid and not full, and then it is pI[nI], inside the element array |
| StrTab.StrTabASCII.Commit | OpenCL/Common/StrTab.hpp:159 | commitE && commitI: a rejected commitE changes nothing; once the elements are accepted, nE and the elements are CommitElems followed by commitI's nul at the new nE, whether or not a string slot is left; true exactly when one is left, and then nI grows by one, its start is recorded and every other index slot is unchanged |
| StrTab.StrTabASCII.At | OpenCL/Common/StrTab.hpp:161-167 | string i for 0 <= i < maxI on a valid table (offset pI[i], inside the element array); the shared nul string otherwise |
| WorkGroups.Nwg | OpenCL/Common/MapImageOCL.hpp:61 | without size_t wrap, the least number of groups of size l covering n: r * l >= n and r * l < n + l; positive for n > 0 |
| WorkGroups.GlobalSizeCovers | OpenCL/Common/MapImageOCL.hpp:68 | without size_t wrap, l * nwg(n, l) is a multiple of l with n <= gws < n + l |
| CInt.RawDumpAt | OpenCL/Common/MapImage.hpp:113-114 | writing the element buffer raw places element i, little-endian, at bytes 4i .. 4i + 3 |
| CInt.LittleEndian32 | OpenCL/Common/Image.hpp:73-74 | four bytes whose base-256 value is the element modulo 2^32 |
| MapImage.MapImage2D.NumElem | OpenCL/Common/MapImage.hpp:28 | def.x * def.y, equal to the buffer length (0 without a buffer), below 2^32 |
| MapImage.MapImage2D.Allocate | OpenCL/Common/MapImage.hpp:30-39 | only without a buffer: fresh w * h elements, def = (w, h), returns w * h; otherwise 0 and no change |
| MapImage.MapImage2D.Release | OpenCL/Common/MapImage.hpp:41-50 | true; no buffer and def = (0, 0) |
| MapImage.GreyTruncates | OpenCL/Common/MapImage.hpp:57 | the grey byte of v is v on 0..255, the same for -v and v, and repeats every 256 (256 gives 0, -300 gives 44) |
| MapImage.MapImage2D.I2U8Hack | OpenCL/Common/MapImage.hpp:52-59 | byte i of u is the grey byte of element i for i < nI; the rest of u is unchanged |
| MapImage.Rgb | OpenCL/Common/MapImage.hpp:66-78 | black for 0 and above 255; for 1..255 green 0x20, red above 0x20, blue below 0xC0; red equals blue for negative values |
| MapImage.RgbRamp | OpenCL/Common/MapImage.hpp:68-73 | along 1..255 red never decreases and blue never increases; red is 255 from 223 on, blue is 0 from 192 on |
| MapImage.RgbNegative | OpenCL/Common/MapImage.hpp:74-78 | for v < 0, red = blue = (0x20 + |v| / 2) mod 256 with C's truncating division, and green = (0x40 + |v|) mod 256 |
| MapImage.MapImage2D.I2RgbHack | OpenCL/Common/MapImage.hpp:61-81 | bytes 3i .. 3i + 2 hold the three components of element i for i < nI; the rest of rgb is unchanged |
| MapImage.GreyLineAt | OpenCL/Common/MapImage.hpp:54-57 | byte i of a grey-encoded line encodes element i |
| MapImage.RgbLineAt | OpenCL/Common/MapImage.hpp:64-79 | byte k of an RGB-encoded line is component k mod 3 of element k / 3 |
| MapImage.OutFormat | OpenCL/Common/MapImage.hpp:94 | save() writes format 0, 1 or 3; formats 0, 1 and 3 are kept, and 2 and anything above 3 become 1 |
| MapImage.SaveOutput | OpenCL/Common/MapImage.hpp:83-120 | a saved image has ElemBytes(outFmt) bytes per element: 4 raw, 1 grey, 3 RGB |
| MapImage.EncodeLineAppend | OpenCL/Common/MapImage.hpp:99-107 | encoding two runs one after the other is encoding their concatenation, so row-by-row output equals whole-buffer output |
| MapImage.SaveOutputAt | OpenCL/Common/MapImage.hpp:102-105 | byte k of an RGB save is component k mod 3 of element k / 3; byte k of a grey save is the grey byte of element k |
| MapImage.SaveRowMajor | OpenCL/Common/MapImage.hpp:95-107 | in a w x h image, the bytes of row l, column i lie at (l * w + i) * fmt inside the output and encode element l * w + i |
| MapImage.MapImage2D.EncodeRow | OpenCL/Common/MapImage.hpp:102-103 | the line buffer holds the encoding of the def.x elements starting at o |
| MapImage.MapImage2D.AppendRow | OpenCL/Common/MapImage.hpp:100-106 | after row l, which starts at o = l * def.x, the output is the encoding of the first (l + 1) * def.x elements |
| MapImage.MapImage2D.SaveRows | OpenCL/Common/MapImage.hpp:95-107 | the def.y rows written in order are the encoding of the whole buffer |
| MapImage.MapImage2D.Save | OpenCL/Common/MapImage.hpp:83-120 | the bytes written are SaveOutput of the elements; the count returned is their number, NumElem * ElemBytes(outFmt) |
| Image.HbLine | OpenCL/Common/Image.hpp:61-65 | a 256-byte line holding the row's low bytes at the front and the previous contents after |
| Image.LowBytes | OpenCL/Common/Image.hpp:65 | one byte per element, each the element modulo 256 |
| Image.MapImage2D.NumElem | OpenCL/Common/Image.hpp:28 | def.x * def.y, equal to the buffer length (0 without a buffer) |
| Image.MapImage2D.Allocate | OpenCL/Common/Image.hpp:30-39 | only without a buffer: fresh w * h elements, def = (w, h), returns w * h; otherwise 0 and no change |
| Image.MapImage2D.Release | OpenCL/Common/Image.hpp:41-50 | true; no buffer and def = (0, 0) |
| Image.MapImage2D.FillLine | OpenCL/Common/Image.hpp:65 | the first w bytes of hb are the low bytes of the row; the rest of hb is unchanged |
| Image.MapImage2D.AppendHbRow | OpenCL/Common/Image.hpp:63-68 | as written, after row l the output is the first l + 1 full hb lines, and hb beyond def.x still holds its initial contents |
| Image.MapImage2D.Depth1AsWritten | OpenCL/Common/Image.hpp:61-69 | as written, the output is one full 256-byte hb per row, 256 * def.y bytes |
| Image.Depth1FirstRow | OpenCL/Common/Image.hpp:63-67 | as written, the first 256 bytes of the output are the first row's hb line: its def.x low bytes, then hb's initial contents |
| Image.MapImage2D.SaveAsWritten | OpenCL/Common/Image.hpp:52-80 | as written: nothing for an empty image; depth 1 gives 256 bytes per row; any other depth gives the raw dump with 4 bytes per element |
| Image.Depth1AsWrittenPadsRows | OpenCL/Common/Image.hpp:61-67 | as written, an image narrower than 256 saved at depth 1 gives 256 bytes per row, more than one per element (512 for 2 x 2), and bytes def.x .. 255 of the first row are stale stack contents, not pixels |
| Image.MapImage2D.AppendLowRow | OpenCL/Common/Image.hpp:63-68 | corrected: after row l the output is the low bytes of the first (l + 1) * def.x elements |
| Image.MapImage2D.Save | OpenCL/Common/Image.hpp:52-80 | corrected: depth 1 writes exactly the low byte of each element in order, one byte per element; other depths as written |
| MapImageOCL.GeomArgs.NArgs | OpenCL/ocl3.cpp:59 | at most two geometry arguments; none exactly for EmptyGeomArgs |
| MapImageOCL.GeomArgs.Get | OpenCL/ocl3.cpp:61-70 | a payload pointer exactly for i < nArgs(), with 8 bytes (two floats) at float offset 2i; otherwise 0 bytes and NULL |
| MapImageOCL.KernInfoDefaults | OpenCL/Common/MapImageOCL.hpp:39-46 | the KernInfo constructor (`MapImageOCL.MakeKernInfo`) given only its source has no geometry and entry point "image"; given geometry, the entry point still defaults to "image" |
| MapImageOCL.HostArgs.Allocate | OpenCL/Common/MapImageOCL.hpp:56-59 | the image is allocated with the sizes truncated to 16 bits; returns 4 bytes per element, 0 when a buffer already exists |
| MapImageOCL.HostArgs.SetGWS | OpenCL/Common/MapImageOCL.hpp:64-70 | on both axes, gws[i] = l[i] * nwg(def.s[i], l[i]) in size_t; nothing else in gws changes |
| MapImageOCL.SetGWSCovers | OpenCL/Common/MapImageOCL.hpp:64-70 | each axis is a whole number of work groups covering the image, with less than one group to spare |
| MapImageOCL.DeviceArgs.Allocate | OpenCL/Common/MapImageOCL.hpp:80-93 | true exactly for a non-zero size and a non-negative status; records the handle and, on success, the size; a zero size creates nothing |
| MapImageOCL.DeviceArgs.Release | OpenCL/Common/MapImageOCL.hpp:95-102 | the handle becomes 0; true exactly for a non-negative status |
| MapImageOCL.BindPlan | OpenCL/Common/MapImageOCL.hpp:137-150 | the arguments bound, in slot order: the device buffer (8 bytes), def (4 bytes), then each geometry argument with the size and pointer get() gives |
| MapImageOCL.CMapImageOCL.CreateArgs | OpenCL/Common/MapImageOCL.hpp:116-119 | host image of the truncated sizes, then a device buffer of 4 bytes per element; false, with no device buffer, when the host side yields 0 bytes |
| MapImageOCL.CMapImageOCL.Execute | OpenCL/Common/MapImageOCL.hpp:126-175 | gws per axis as setGWS gives it, the bindings of BindPlan, and true exactly when the enqueue and the read-back both give a non-negative status (clFinish's status is overwritten) |
| MapImageOCL.CMapImageOCL.Release | OpenCL/Common/MapImageOCL.hpp:177-182 | host and device released; true exactly when the device status is non-negative and, with all, the build release succeeded |
| MapImageOCL.CMapImageOCL.Save | OpenCL/Common/MapImageOCL.hpp:186 | the host image saved in format 3: three bytes per element |
| Ocl2.FixedPoints | OpenCL/ocl2.cpp:179 | the count of elements holding their own index is at most the element count |
| Ocl2.FixedPointsAll | OpenCL/ocl2.cpp:179 | every element holds its index exactly when the count equals the length (both directions) |
| Ocl2.KernelWrite | OpenCL/ocl2.cpp:29-34 | work item (iw, ih) writes exactly when iw < w and ih < h, at j = ih * w + iw, the value j as a uint |
| Ocl2.WritersExactlyOne | OpenCL/ocl2.cpp:29-34 | on a grid covering w x h, element j is written by exactly one work item, (j mod w, j / w), and no item writes outside the w * h buffer |
| Ocl2.HostArgs.Allocate | OpenCL/ocl2.cpp:43-53 | only without a buffer: nW * nH elements in size_t, w and h the sizes stored as uint32; returns the element count; otherwise 0 and no change |
| Ocl2.HostArgs.Release | OpenCL/ocl2.cpp:55-64 | true; no buffer and w = h = 0 |
| Ocl2.HostArgs.ImageKernel | OpenCL/ocl2.cpp:29-34 | every element keeps its value or holds its own index; on a covering grid every element holds its own index |
| Ocl2.HostArgs.KernelRow | OpenCL/ocl2.cpp:29-34 | the work items of row ih write only indices, and on a covering grid rows 0 .. ih hold their indices afterwards |
| Ocl2.DeviceArgs.Allocate | OpenCL/ocl2.cpp:74-82 | the size 4 * nElem in size_t and the handle recorded; returns the size for a non-negative status, else 0 |
| Ocl2.DeviceArgs.Release | OpenCL/ocl2.cpp:84-91 | the handle becomes 0; true exactly for a non-negative status |
| Ocl2.CImageOCL.CreateArgs | OpenCL/ocl2.cpp:105-120 | false without allocating when w or h is 0; with an existing host buffer, false with host and device unchanged; otherwise the host buffer, kept whatever the device does; for a non-empty buffer the device records the handle and 4 bytes per element even when its status is negative (an empty buffer leaves the device alone); true exactly when the status is non-negative and the device size is non-zero |
| Ocl2.CImageOCL.Execute | OpenCL/ocl2.cpp:127-162 | gws per axis lws * nwg in size_t, bindings buffer, w, h in order, and true exactly when the enqueue and read-back statuses are non-negative |
| Ocl2.CImageOCL.Release | OpenCL/ocl2.cpp:164-169 | host and device released; true exactly when the device status is non-negative and, with all, the build release succeeded |
| Ocl2.CImageOCL.Verify | OpenCL/ocl2.cpp:171-182 | -1 without a buffer or when w * h (as uint32) is 0; otherwise the number of the first w * h elements holding their own index |
| Ocl2.Demo | OpenCL/ocl2.cpp:202-215 | the demo's 256 x 256 image with work groups of 32 x 32 verifies all 65536 elements |
| Ocl1.VecAddIndex | OpenCL/ocl1.cpp:36 | work item g writes only an index below n; for ids that fit an int it writes exactly when g < n, at g |
| Ocl1.VecAddWritesOnce | OpenCL/ocl1.cpp:36 | when the grid covers n and fits int ids, each element has exactly one writer, the item with its id, and items n and beyond write nothing |
| Ocl1.VecAddIdWraps | OpenCL/ocl1.cpp:36 | beyond 2^31 items the int id wraps: item 2^32 + 3 writes element 3, item 2^31 writes nothing |
| Ocl1.VecAddDemo | OpenCL/ocl1.cpp:222-236 | the demo's 2^20 elements with local size 32 dispatch exactly 2^20 items, each element with exactly one writer |
| Ocl1.HostArgs.Allocate | OpenCL/ocl1.cpp:45-58 | for nElem > 0 and no buffers: three fresh buffers of nElem elements, n = nElem, returns 4 * nElem bytes; otherwise 0 and no change |
| Ocl1.HostArgs.Release | OpenCL/ocl1.cpp:60-67 | true; the three buffers dropped; n keeps its value |
| Ocl1.HostArgs.Nwg | OpenCL/ocl1.cpp:70 | without size_t wrap, n <= nwg(l) * l < n + l |
| Ocl1.DeviceArgs.Allocate | OpenCL/ocl1.cpp:79-94 | only for a non-zero size and no handles: three handles recorded; true exactly when all three statuses are non-negative, and then the size is recorded |
| Ocl1.DeviceArgs.Release | OpenCL/ocl1.cpp:96-104 | all three handles become 0; true exactly when all three statuses are non-negative |
| Ocl1.CVecAddOCL.CreateArgs | OpenCL/ocl1.cpp:135-140 | false without allocating for nElem = 0; with existing host buffers, false with host and device unchanged; otherwise three fresh host buffers of nElem elements, kept whatever the device does; then device buffers of the host's byte size, whose handles are recorded (when none were held) even if a status is negative (a zero size leaves the device alone); true exactly when that size is non-zero and all statuses are non-negative |
| Ocl1.CVecAddOCL.Execute | OpenCL/ocl1.cpp:147-184 | gws = lws * nwg(lws), a multiple of lws covering n; bindings hR, hA, hB, n in order; true exactly when the enqueue and read-back statuses are non-negative |
| Ocl1.CVecAddOCL.Release | OpenCL/ocl1.cpp:192-197 | host and device released; true exactly when all device statuses are non-negative and, with all, the build release succeeded |

## Left out

- Float contents of the buffers and the float arithmetic are not modelled: `vecAdd`, `initData`, `sum`, `sumR`, `hostTest`, and the Mandelbrot geometry values of `ocl3.cpp`. The buffers of `ocl1` hold a stand-in type. `getN` only returns `n`.
- `Timing.hpp` (elapsed time, the `pDT` timings) and `SimpleOCL.hpp` (platform query, context, build) are not part of this model. The build release `CBuildOCL::release` is the `rBuild` parameter.
- The OpenCL calls are parameters: handles and statuses. The statuses of `clSetKernelArg`, `clEnqueueWriteBuffer` and the discarded `clFinish` are ignored by the code, so they are not parameters.
- Device-side execution, the copy of the inputs and the read-back are not modelled. The `ocl2` kernel is modelled by its per-item writes, applied to the host buffer. The `ocl1` kernel is modelled by the index each item writes.
- File output (`fstream`) is the returned byte sequence. Open and write failures are not modelled, since the code does not check them either.
- The raw dump (format 0, byte depth other than 1) is the buffer's bytes on a little-endian host.
- `main` of each program is left out, as are the kernel source strings and the `ocl3.cpp` program. The exception is the `ocl2` and `ocl1` demo values (`Ocl2.Demo`, `Ocl1.VecAddDemo`).
- `CStrTabB2` and the second `CTable` declared in `StrTab.hpp` are not modelled. Only `CStrTabASCII` instantiates the base class, so `CStrTabBase` and `CStrTabASCII` are merged into one class.
- StrTab.StrTabASCII.constructor: the C++ leaves `maxI` and `maxE` uninitialised when a size is not positive; the model starts them at 0.
- StrTab.StrTabASCII.constructor: the `int` product `maxS * (expectLenS + 1)` is taken without bound; its C overflow is undefined behaviour and is not modelled.
- Default arguments are not modelled: `CTable(m=0)`, `CStrTabBase(mI=0, mE=0)`, `CStrTabASCII(maxS=32, expectLenS=29)`, `CMapImage2D::save(..., outFmt=3)` and `save(..., outByteDepth=1)`. Every member takes all its arguments explicitly. The one exception is `KernInfo`, whose defaults (no geometry, entry point "image") `MapImageOCL.MakeKernInfo` keeps.
- Console logging (`std::cout`, for example `ocl2.cpp:89`, `ocl2.cpp:160`, `ocl1.cpp:174`, `ocl1.cpp:182`) is output only and is left out.
- Table.CTable: the count type `TCount` is `nat`. Every count the code stores is non-negative.
- The constructor `CVecAddOCL(nElem)` calls `createArgs`. In the model that is a separate call to `Ocl1.CVecAddOCL.CreateArgs`.
- MapImage.MapImage2D.I2U8Hack: requires no element be `INT_MIN`, because `-v` overflows there (undefined behaviour in C).
- MapImage.MapImage2D.I2RgbHack: requires no element be at or below `INT_MIN + 64`, for the same reason with `0x40 - v`.
- MapImage.MapImage2D.Save: requires the same of every encoded element.
- Ocl2.HostArgs.ImageKernel: requires the buffer to hold the untruncated `w * h` elements. When `nW * nH` wraps in `size_t`, the kernel writes beyond the buffer, and that is not modelled.
- Ocl2.CImageOCL.Verify: requires `w * h` (as `uint32_t`) to be at most `INT_MAX`, since the `int` loop counter would overflow beyond it.
- Table.CIndexedTable.At: requires the index slot to exist. The source checks nothing.
- Table.CTable.SetLimits: requires storage, since the source dereferences the element pointer unconditionally.
- The work-group functions require a positive local size. The source divides by it.
- Image.MapImage2D.SaveAsWritten: requires `def.x <= 256` at byte depth 1. Beyond that the source writes past the 256-byte stack buffer, which the model cannot express.
- Image.MapImage2D.SaveAsWritten: the buffer's initial contents are a parameter (`stale`), since C leaves them uninitialised.

## Findings

| source | as written | input that shows it | evidently intended | confidence | as-written member | corrected member |
|---|---|---|---|---|---|---|
| OpenCL/Common/StrTab.hpp:112 | `commitI` stores the next string's start into `pI[++nI]`; when `nI` reaches `maxI` that is slot `maxI` of an array allocated with `maxI` slots (line 73) | a default `CStrTabASCII` (32 strings) and a 32nd `commit`: the store goes to `pI[32]` | store only while the new `nI` is below `maxI` | medium, not executed | StrTab.CommitIAsWrittenOverruns | StrTab.StrTabASCII.CommitI |
| OpenCL/Common/StrTab.hpp:98-101 | `commitE` increments `nE` before writing the terminating nul, so the nul goes to old `nE + k + 1` and slot old `nE + k` is never written | elements "ABC" then a nul, `commitE(1)` at `nE = 0`: index 1 still holds 'B', so string 0 reads "AB" | write the nul at `nE + k`, then step past it | medium, not executed | StrTab.CommitElemsAsWrittenLeavesGap | StrTab.CommitElemsTerminates |
| OpenCL/Common/StrTab.hpp:98-112 | when the last committed element is not nul and fills the element space, `commitE` steps `nE` to `maxE + 1` and `commitI` records it as the next string's start, so `operator[]` for that string returns `pE + mE`, one past the array | `maxI = 2`, `mE = 4` (`maxE = 3`), elements "ABC" then a nul, `commit(3)`: `pI[1] = 4` and string 1 is read at `pE[4]` | record the final nul `maxE` as the next start, as `setup()` does for unused strings | medium, not executed | StrTab.CommitAsWrittenPointsPastEnd | StrTab.StrTabASCII.At |
| OpenCL/Common/StrTab.hpp:99-101 | `++nE` on the `uint16_t` count wraps to 0 when the element space is 65535 long; the whole space then reads as free, and since `0 < maxE` the nul store overwrites `pE[0]`, the first element of string 0 | `maxE = 65535`, `nE = 65534`, `commit(1)` of a non-nul element: `nE` becomes 0 and `pE[0]` becomes 0 | stop at `maxE`, so that the space reads as used up | low, not executed | StrTab.CommitElemsAsWrittenWrapsToStart | StrTab.CommitElems |
| OpenCL/Common/Image.hpp:61-67 | the depth-1 save writes all 256 bytes of `hb` per row whatever `def.x` is | any image narrower than 256, e.g. 2 x 2: 512 bytes, with stack contents at bytes 2 .. 255 (and for `def.x > 256` the copy overruns `hb`) | `def.x` bytes per row, one per element | high, not executed | Image.Depth1AsWrittenPadsRows | Image.MapImage2D.Save |

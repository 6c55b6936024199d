/**
  Model of Image.hpp: CMapImage2D over unsigned 32-bit elements. Its save()
  writes, for byte depth 1, one 256-byte stack line per row whatever the
  row width; any other depth dumps the elements raw. The stack line's
  contents before the first row are a parameter (C leaves them
  uninitialised).
*/
module Image {
  import opened CInt

  /** The fixed size of save()'s stack line buffer hb. */
  const HbSize: nat := 256

  /** hb after one row of the depth-1 loop: the low bytes of the row's
      elements at the front, the previous contents of hb after them. */
  function HbLine(row: seq<int>, hb: seq<Byte>): (r: seq<Byte>)
    requires |row| <= HbSize && |hb| == HbSize
    ensures |r| == HbSize && r[|row|..] == hb[|row|..]
    ensures forall i :: 0 <= i < |row| ==> r[i] == ToByte(row[i])
  {
    seq(HbSize, i requires 0 <= i < HbSize => if i < |row| then ToByte(row[i]) else hb[i])
  }

  /** What the first h rows of the depth-1 save write as written: a full hb
      line per row of w elements. Bytes at and beyond w in hb are never
      written, so every row carries the initial contents there. */
  function Depth1Rows(pix: seq<int>, w: nat, h: nat, stale: seq<Byte>): (r: seq<Byte>)
    requires w <= HbSize && |stale| == HbSize && h * w <= |pix|
    ensures |r| == HbSize * h
  {
    if h == 0 then []
    else
      RowStep(h - 1, w, h);
      Depth1Rows(pix, w, h - 1, stale) + HbLine(pix[(h - 1) * w .. h * w], stale)
  }

  /** Lemma: a 256-byte buffer holding a row's low bytes followed by the
      initial contents is that row's hb line. */
  lemma HbLineOf(hb: seq<Byte>, row: seq<int>, stale: seq<Byte>)
    requires |hb| == HbSize == |stale| && |row| <= HbSize
    requires hb[..|row|] == LowBytes(row) && hb[|row|..] == stale[|row|..]
    ensures hb == HbLine(row, stale)
  {
    forall i | 0 <= i < HbSize
      ensures hb[i] == HbLine(row, stale)[i]
    {
      if i < |row| {
        assert hb[i] == hb[..|row|][i];
      } else {
        assert hb[i] == hb[|row|..][i - |row|];
      }
    }
  }

  /** The low byte of every element, in order: one byte per element. */
  function LowBytes(pix: seq<int>): (r: seq<Byte>)
    ensures |r| == |pix|
    ensures forall i :: 0 <= i < |pix| ==> r[i] as int == pix[i] % 256
  {
    seq(|pix|, i requires 0 <= i < |pix| => ToByte(pix[i]))
  }

  /** Lemma: an hb line is the row's low bytes followed by what hb held
      beyond the row. */
  lemma HbLineParts(row: seq<int>, hb: seq<Byte>)
    requires |row| <= HbSize && |hb| == HbSize
    ensures HbLine(row, hb)[..|row|] == LowBytes(row)
    ensures HbLine(row, hb)[|row|..] == hb[|row|..]
  {
  }

  /** Lemma: a slice inside the first part of a concatenation is a slice
      of that part, and the slice past it is the second part. */
  lemma ConcatSlices(d: seq<Byte>, e: seq<Byte>, a: nat, n: nat)
    requires a + n <= |d|
    ensures (d + e)[a .. a + n] == d[a .. a + n]
    ensures (d + e)[|d| .. |d| + |e|] == e
  {
  }

  /** Lemma: the first 256 bytes of the as-written depth-1 output are the
      hb line of the first row. */
  lemma {:induction false} Depth1FirstRow(pix: seq<int>, w: nat, h: nat, stale: seq<Byte>)
    requires w <= HbSize && |stale| == HbSize && h * w <= |pix| && 0 < h
    ensures w <= |pix|
    ensures Depth1Rows(pix, w, h, stale)[..HbSize] == HbLine(pix[..w], stale)
  {
    MulMono(1, h, w);
    var d := Depth1Rows(pix, w, h - 1, stale);
    var last := HbLine(pix[(h - 1) * w .. h * w], stale);
    assert Depth1Rows(pix, w, h, stale) == d + last;
    if h == 1 {
      assert d == [];
      assert pix[(h - 1) * w .. h * w] == pix[..w];
    } else {
      MulMono(h - 1, h, w);
      Depth1FirstRow(pix, w, h - 1, stale);
      ConcatSlices(d, last, 0, HbSize);
    }
  }

  /** Lemma (as written): for any image less than 256 elements wide, the
      depth-1 output has 256 bytes per row, more than one per element, and
      bytes w .. 255 of the first row are the stale initial contents of hb,
      not pixels. A 2 x 2 image gives 512 bytes for 4 elements. */
  lemma Depth1AsWrittenPadsRows(pix: seq<int>, w: nat, h: nat, stale: seq<Byte>)
    requires w < HbSize && 0 < h && |pix| == h * w && |stale| == HbSize
    ensures |Depth1Rows(pix, w, h, stale)| == HbSize * h > |LowBytes(pix)|
    ensures Depth1Rows(pix, w, h, stale)[..w] == LowBytes(pix[..w])
    ensures Depth1Rows(pix, w, h, stale)[w .. HbSize] == stale[w..]
  {
    MulMono(w + 1, HbSize, h);
    var d := Depth1Rows(pix, w, h, stale);
    Depth1FirstRow(pix, w, h, stale);
    var r0 := HbLine(pix[..w], stale);
    HbLineParts(pix[..w], stale);
    assert d[..w] == r0[..w];
    assert d[w .. HbSize] == r0[w..];
  }

  class MapImage2D {
    var pI: array?<UInt32>
    var defX: UInt16
    var defY: UInt16

    /** No buffer means a 0 x 0 definition; a buffer holds def.x * def.y elements. */
    ghost predicate Valid()
      reads this
    {
      && (pI == null ==> defX == 0 && defY == 0)
      && (pI != null ==> pI.Length == defX * defY)
    }

    constructor ()
      ensures Valid() && pI == null
    {
      pI, defX, defY := null, 0, 0;
    }

    /** numElem(): def.x * def.y, which is the buffer's length. */
    function NumElem(): (r: nat)
      requires Valid()
      reads this
      ensures pI != null ==> r == pI.Length
      ensures pI == null ==> r == 0
    {
      defX * defY
    }

    /** allocate(w, h): only when no buffer exists, create w * h elements,
        set def = (w, h) and return w * h; otherwise return 0. */
    method Allocate(w: UInt16, h: UInt16) returns (r: nat)
      requires Valid()
      modifies this
      ensures Valid()
      ensures old(pI) == null ==> pI != null && fresh(pI) && defX == w && defY == h && r == w * h
      ensures old(pI) != null ==> r == 0 && unchanged(this)
    {
      if pI == null {
        var n := w * h;
        pI := new UInt32[n];
        defX, defY := w, h;
        return n;
      }
      return 0;
    }

    /** release(): frees the buffer and resets def to (0, 0); always true. */
    method Release() returns (ok: bool)
      requires Valid()
      modifies this
      ensures Valid()
      ensures ok && pI == null && defX == 0 && defY == 0
    {
      if pI != null {
        pI := null;
        defX, defY := 0, 0;
      }
      return true;
    }

    /** The depth-1 inner loop: hb[i] = pI[o + i] truncated to 8 bits for
        i < w; the rest of hb keeps its contents. */
    method FillLine(hb: array<Byte>, o: nat, w: nat)
      requires pI != null && w <= hb.Length && o + w <= pI.Length
      modifies hb
      ensures hb[..w] == LowBytes(pI[o .. o + w])
      ensures hb[w..] == old(hb[w..])
    {
      for i := 0 to w
        invariant forall k :: 0 <= k < i ==> hb[k] == ToByte(pI[o + k])
        invariant hb[w..] == old(hb[w..])
      {
        hb[i] := ToByte(pI[o + i]);
      }
    }

    /** One pass of the as-written depth-1 loop: fill hb from row l, which
        starts at o, and append all of hb. */
    method AppendHbRow(hb: array<Byte>, l: nat, o: nat, stale: seq<Byte>, out: seq<Byte>) returns (o': nat, out': seq<Byte>)
      requires Valid() && pI != null && |stale| == HbSize && defX <= HbSize
      requires hb.Length == HbSize && hb[defX..] == stale[defX..]
      requires l < defY && o == l * defX <= pI.Length && out == Depth1Rows(pI[..], defX, l, stale)
      modifies hb
      ensures o' == (l + 1) * defX <= pI.Length
      ensures hb[defX..] == stale[defX..]
      ensures out' == Depth1Rows(pI[..], defX, l + 1, stale)
    {
      RowStep(l, defX, defY);
      FillLine(hb, o, defX);
      HbLineOf(hb[..], pI[o .. o + defX], stale);
      out' := out + hb[..];
      o' := o + defX;
    }

    /** The depth-1 row loop of save() as written: hb starts with `stale`,
        each row overwrites its first def.x bytes and all 256 are written. */
    method Depth1AsWritten(stale: seq<Byte>) returns (out: seq<Byte>)
      requires Valid() && pI != null && |stale| == HbSize && defX <= HbSize
      ensures out == Depth1Rows(pI[..], defX, defY, stale) && |out| == HbSize * defY
    {
      out := [];
      var hb := new Byte[HbSize];
      forall k | 0 <= k < HbSize { hb[k] := stale[k]; }
      var o: nat := 0;
      for l := 0 to defY
        invariant o == l * defX <= pI.Length
        invariant hb[defX..] == stale[defX..]
        invariant out == Depth1Rows(pI[..], defX, l, stale)
      {
        o, out := AppendHbRow(hb, l, o, stale, out);
      }
    }

    /** save(fileName, outByteDepth) as written. Depth 1 fills the 256-byte
        hb with each row's low bytes and writes all of hb per row, so it
        needs def.x <= 256 (beyond that it writes past hb); `stale` is hb's
        initial contents. Other depths dump the elements raw. */
    method SaveAsWritten(outByteDepth: Byte, stale: seq<Byte>) returns (bytes: nat, out: seq<Byte>)
      requires Valid() && |stale| == HbSize
      requires outByteDepth == 1 && defY > 0 ==> defX <= HbSize
      ensures NumElem() == 0 ==> bytes == 0 && out == []
      ensures NumElem() > 0 && outByteDepth == 1 ==>
        out == Depth1Rows(pI[..], defX, defY, stale) && bytes == |out| == HbSize * defY
      ensures NumElem() > 0 && outByteDepth != 1 ==>
        out == RawDump(pI[..]) && bytes == |out| == 4 * NumElem()
    {
      bytes, out := 0, [];
      var n := NumElem();
      if n > 0 {
        if outByteDepth == 1 {
          out := Depth1AsWritten(stale);
          bytes := |out|;
        } else {
          bytes := n * 4;
          out := RawDump(pI[..]);
        }
      }
    }

    /** One pass of the corrected depth-1 loop: fill the def.x-byte line from
        row l, which starts at o, and append it. */
    method AppendLowRow(hb: array<Byte>, l: nat, o: nat, out: seq<Byte>) returns (o': nat, out': seq<Byte>)
      requires Valid() && pI != null && hb.Length == defX
      requires l < defY && o == l * defX && out == LowBytes(pI[..o])
      modifies hb
      ensures o' == (l + 1) * defX == o + defX <= pI.Length
      ensures out' == LowBytes(pI[..o'])
    {
      RowStep(l, defX, defY);
      FillLine(hb, o, defX);
      assert hb[..] == hb[..defX];
      assert LowBytes(pI[..o]) + hb[..] == LowBytes(pI[..o + defX]);
      out' := out + hb[..];
      o' := o + defX;
    }

    /** save() at depth 1 as evidently intended: def.x bytes per row (the low
        byte of each element), so the file holds exactly one byte per
        element and no stack contents; other depths as written. */
    method Save(outByteDepth: Byte) returns (bytes: nat, out: seq<Byte>)
      requires Valid()
      ensures NumElem() == 0 ==> bytes == 0 && out == []
      ensures NumElem() > 0 && outByteDepth == 1 ==>
        out == LowBytes(pI[..]) && bytes == |out| == NumElem()
      ensures NumElem() > 0 && outByteDepth != 1 ==>
        out == RawDump(pI[..]) && bytes == |out| == 4 * NumElem()
    {
      bytes, out := 0, [];
      var n := NumElem();
      if n > 0 {
        if outByteDepth == 1 {
          var hb := new Byte[defX];
          var o: nat := 0;
          for l := 0 to defY
            invariant o == l * defX <= n
            invariant out == LowBytes(pI[..o])
            invariant bytes == o
          {
            o, out := AppendLowRow(hb, l, o, out);
            bytes := bytes + defX;
          }
          assert pI[..o] == pI[..];
        } else {
          bytes := n * 4;
          out := RawDump(pI[..]);
        }
      }
    }
  }
}

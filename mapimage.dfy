/**
  Model of MapImage.hpp: CMapImage2D over signed 32-bit map elements, with
  its allocate/release lifecycle, the two pixel encoders and the bytes that
  save() writes. The file itself is not modelled: save() returns the byte
  sequence it would write together with the count it returns.
*/
module MapImage {
  import opened CInt

  /** |v| stored into a uint8_t: the magnitude reduced modulo 256
      (truncation, not saturation). */
  function Grey(v: int): (b: Byte)
  {
    ToByte(if v < 0 then -v else v)
  }

  /** Lemma: the grey encoding is the identity on 0..255, symmetric in the
      sign, and wraps every 256 (so 256 encodes as 0 and -300 as 44). */
  lemma GreyTruncates(v: int)
    ensures 0 <= v < 256 ==> Grey(v) == v
    ensures Grey(-v) == Grey(v)
    ensures v >= 0 ==> Grey(v + 256) == Grey(v)
    ensures Grey(256) == 0 && Grey(-300) == 44 && Grey(-255) == 255
  {
  }

  /** C forms -v in int; only INT_MIN overflows. */
  predicate GreyDefined(v: int)
  {
    v != IntMin
  }

  /** The RGB triple that i2rgbHack writes for one value: black for 0 and for
      values above 255; a blue -> magenta -> red ramp for 1..255; a grey/green
      ramp with red equal to blue for negative values. */
  function Rgb(v: int): (p: (Byte, Byte, Byte))
    ensures v == 0 || v > 255 ==> p == (0, 0, 0)
    ensures 0 < v <= 255 ==> p.1 == 0x20 && p.0 > 0x20 && p.2 < 0xC0
    ensures v < 0 ==> p.0 == p.2
  {
    if v > 255 || v == 0 then (0, 0, 0)
    else if v > 0 then (if 0x20 + v < 0xFF then 0x20 + v else 0xFF, 0x20, 0xC0 - (if 0xC0 < v then 0xC0 else v))
    else (ToByte(0x20 - CDiv(v, 2)), ToByte(0x40 - v), ToByte(0x20 - CDiv(v, 2)))
  }

  /** Lemma: along the positive ramp red never decreases, blue never increases,
      green stays at 0x20; red saturates at 255 from 223 on and blue bottoms out
      at 0 from 192 on. */
  lemma RgbRamp(v: int, v': int)
    requires 0 < v <= v' <= 255
    ensures Rgb(v).0 <= Rgb(v').0 && Rgb(v).2 >= Rgb(v').2 && Rgb(v).1 == Rgb(v').1 == 0x20
    ensures v >= 223 ==> Rgb(v).0 == 0xFF
    ensures v >= 192 ==> Rgb(v).2 == 0
  {
  }

  /** Lemma: for a negative value, red and blue are 32 plus half the magnitude
      (C division truncates toward zero) and green is 64 plus the magnitude,
      each reduced modulo 256. */
  lemma RgbNegative(v: int)
    requires v < 0
    ensures Rgb(v).0 == (0x20 + (-v) / 2) % 256
    ensures Rgb(v).1 == (0x40 + (-v)) % 256
    ensures Rgb(-1) == (32, 65, 32) && Rgb(-3) == (33, 67, 33)
  {
  }

  /** C forms 0x40 - v in int, which overflows for v <= INT_MIN + 64. */
  predicate RgbDefined(v: int)
  {
    v > IntMin + 0x40
  }

  function RgbByte(v: int, c: nat): Byte
    requires c < 3
  {
    if c == 0 then Rgb(v).0 else if c == 1 then Rgb(v).1 else Rgb(v).2
  }

  /** The bytes i2u8Hack produces for a line, one per element. */
  function GreyLine(line: seq<int>): (r: seq<Byte>)
    ensures |r| == |line|
  {
    if line == [] then [] else [Grey(line[0])] + GreyLine(line[1..])
  }

  /** The bytes i2rgbHack produces for a line, three per element. */
  function RgbLine(line: seq<int>): (r: seq<Byte>)
    ensures |r| == 3 * |line|
  {
    if line == [] then []
    else [RgbByte(line[0], 0), RgbByte(line[0], 1), RgbByte(line[0], 2)] + RgbLine(line[1..])
  }

  /** Lemma: byte i of a grey line encodes element i. */
  lemma {:induction false} GreyLineAt(line: seq<int>, i: nat)
    requires i < |line|
    ensures GreyLine(line)[i] == Grey(line[i])
  {
    if i > 0 {
      GreyLineAt(line[1..], i - 1);
    }
  }

  /** Lemma: byte k of an RGB line is component k % 3 of element k / 3. */
  lemma {:induction false} RgbLineAt(line: seq<int>, k: nat)
    requires k < 3 * |line|
    ensures RgbLine(line)[k] == RgbByte(line[k / 3], k % 3)
  {
    if k >= 3 {
      RgbLineAt(line[1..], k - 3);
      assert (k - 3) / 3 == k / 3 - 1 && (k - 3) % 3 == k % 3;
    }
  }

  /** save() treats format 2 and every format above 3 as format 1. */
  function OutFormat(outFmt: Byte): (f: nat)
    ensures f == 0 || f == 1 || f == 3
    ensures outFmt == 0 || outFmt == 1 || outFmt == 3 ==> f == outFmt
  {
    if outFmt > 1 && outFmt != 3 then 1 else outFmt
  }

  /** Bytes per element in a saved file: 4 for the raw dump, else 1 or 3. */
  function ElemBytes(outFmt: Byte): (b: nat)
    ensures b == 1 || b == 3 || b == 4
  {
    if OutFormat(outFmt) == 0 then 4 else OutFormat(outFmt)
  }

  function EncodeLine(line: seq<int>, fmt: nat): (r: seq<Byte>)
    ensures fmt == 3 ==> |r| == 3 * |line|
    ensures fmt != 3 ==> |r| == |line|
  {
    if fmt == 3 then RgbLine(line) else GreyLine(line)
  }

  /** Everything save(outFmt) writes for an image whose elements, row after
      row, are pix: nothing for an empty image, the raw dump for format 0,
      else every element encoded in order (rows are contiguous, so the rows
      written one after the other are the encoding of the whole buffer). */
  function SaveOutput(pix: seq<int>, outFmt: Byte): (r: seq<Byte>)
    ensures |r| == |pix| * ElemBytes(outFmt)
  {
    if |pix| == 0 then []
    else if OutFormat(outFmt) == 0 then RawDump(pix)
    else EncodeLine(pix, OutFormat(outFmt))
  }

  /** Lemma: encoding two lines one after the other is encoding their
      concatenation; the save loop relies on it row by row. */
  lemma {:induction false} EncodeLineAppend(a: seq<int>, b: seq<int>, fmt: nat)
    ensures EncodeLine(a + b, fmt) == EncodeLine(a, fmt) + EncodeLine(b, fmt)
  {
    if a != [] {
      EncodeLineAppend(a[1..], b, fmt);
      assert (a + b)[1..] == a[1..] + b;
    } else {
      assert a + b == b;
    }
  }

  /** Lemma: byte k of a saved RGB image is component k % 3 of element
      k / 3, and byte k of a grey image encodes element k. */
  lemma SaveOutputAt(pix: seq<int>, outFmt: Byte, k: nat)
    requires OutFormat(outFmt) != 0 && k < |SaveOutput(pix, outFmt)|
    ensures OutFormat(outFmt) == 1 ==> SaveOutput(pix, outFmt)[k] == Grey(pix[k])
    ensures OutFormat(outFmt) == 3 ==> SaveOutput(pix, outFmt)[k] == RgbByte(pix[k / 3], k % 3)
  {
    if OutFormat(outFmt) == 1 {
      GreyLineAt(pix, k);
    } else {
      RgbLineAt(pix, k);
    }
  }

  /** Lemma: in a w x h image saved in format 1 or 3, the fmt bytes of row
      l, column i start at (l * w + i) * fmt and encode pix[l * w + i]; so
      the rows come out in order, each encoding its own def.x elements. */
  lemma SaveRowMajor(pix: seq<int>, w: nat, h: nat, outFmt: Byte, l: nat, i: nat, c: nat)
    requires |pix| == w * h && OutFormat(outFmt) != 0
    requires l < h && i < w && c < OutFormat(outFmt)
    ensures l * w + i < |pix|
    ensures (l * w + i) * OutFormat(outFmt) + c < |SaveOutput(pix, outFmt)|
    ensures OutFormat(outFmt) == 1 ==> SaveOutput(pix, outFmt)[l * w + i] == Grey(pix[l * w + i])
    ensures OutFormat(outFmt) == 3 ==>
      SaveOutput(pix, outFmt)[3 * (l * w + i) + c] == RgbByte(pix[l * w + i], c)
  {
    RowStep(l, w, h);
    var p := l * w + i;
    var f := OutFormat(outFmt);
    MulMono(p + 1, |pix|, f);
    if f == 3 {
      assert (3 * p + c) / 3 == p && (3 * p + c) % 3 == c;
      SaveOutputAt(pix, outFmt, 3 * p + c);
    } else {
      SaveOutputAt(pix, outFmt, p);
    }
  }

  /** The elements of s are free of C signed overflow in the encoder of
      format fmt. */
  predicate EncodableAll(s: seq<int>, fmt: nat)
  {
    forall i :: 0 <= i < |s| ==>
      (fmt == 1 ==> GreyDefined(s[i])) && (fmt == 3 ==> RgbDefined(s[i]))
  }

  lemma EncodeEmpty(fmt: nat)
    ensures EncodeLine([], fmt) == []
  {
  }

  /** Lemma: appending the encoding of the next w elements extends the
      encoded prefix by those elements. */
  lemma EncodePrefixStep(s: seq<int>, o: nat, w: nat, fmt: nat)
    requires o + w <= |s|
    ensures EncodeLine(s[..o], fmt) + EncodeLine(s[o .. o + w], fmt) == EncodeLine(s[..o + w], fmt)
  {
    EncodeLineAppend(s[..o], s[o .. o + w], fmt);
    assert s[..o] + s[o .. o + w] == s[..o + w];
  }

  /** Lemma: the same step, stated on a buffer's elements. */
  lemma EncodeArrayStep(a: array<Int32>, o: nat, w: nat, fmt: nat, out: seq<Byte>, row: seq<Byte>)
    requires o + w <= a.Length
    requires out == EncodeLine(a[..o], fmt) && row == EncodeLine(a[o .. o + w], fmt)
    ensures out + row == EncodeLine(a[..o + w], fmt)
  {
    EncodeLineAppend(a[..o], a[o .. o + w], fmt);
    assert a[..o] + a[o .. o + w] == a[..o + w];
  }

  lemma ProductBound(x: UInt16, y: UInt16)
    ensures x * y < Word32
  {
    MulMono(x, 0xFFFF, y);
    MulMono(y, 0xFFFF, 0xFFFF);
  }

  class MapImage2D {
    var pI: array?<Int32>
    var defX: UInt16
    var defY: UInt16

    /** No buffer means a 0 x 0 definition; a buffer holds def.x * def.y elements. */
    ghost predicate Valid()
      reads this
    {
      && (pI == null ==> defX == 0 && defY == 0)
      && (pI != null ==> pI.Length == defX * defY)
    }

    constructor ()
      ensures Valid() && pI == null
    {
      pI, defX, defY := null, 0, 0;
    }

    /** numElem(): def.x * def.y, which is the buffer's length. */
    function NumElem(): (r: nat)
      requires Valid()
      reads this
      ensures pI != null ==> r == pI.Length
      ensures pI == null ==> r == 0
      ensures r < Word32
    {
      ProductBound(defX, defY);
      defX * defY
    }

    /** The elements as a sequence (none without a buffer). */
    function Pixels(): (s: seq<int>)
      requires Valid()
      reads this, pI
      ensures |s| == NumElem()
    {
      if pI == null then [] else pI[..]
    }

    /** allocate(w, h): only when no buffer exists, create w * h elements, set
        def = (w, h) and return w * h. A 0-element buffer is still a buffer and
        blocks later allocations. */
    method Allocate(w: UInt16, h: UInt16) returns (r: nat)
      requires Valid()
      modifies this
      ensures Valid()
      ensures old(pI) == null ==> pI != null && fresh(pI) && defX == w && defY == h && r == w * h
      ensures old(pI) != null ==> r == 0 && unchanged(this)
    {
      if pI == null {
        var n := w * h;
        pI := new Int32[n];
        defX, defY := w, h;
        return n;
      }
      return 0;
    }

    /** release(): frees the buffer and resets def to (0, 0); always true. */
    method Release() returns (ok: bool)
      requires Valid()
      modifies this
      ensures Valid()
      ensures ok && pI == null && defX == 0 && defY == 0
    {
      if pI != null {
        pI := null;
        defX, defY := 0, 0;
      }
      return true;
    }

    /** i2u8Hack(u, lineI + o, nI): u[i] = |lineI[o + i]| truncated to 8 bits
        for i < nI; no other byte of u changes. */
    method I2U8Hack(u: array<Byte>, lineI: array<Int32>, o: nat, nI: nat)
      requires nI <= u.Length && o + nI <= lineI.Length
      requires forall i :: o <= i < o + nI ==> GreyDefined(lineI[i])
      modifies u
      ensures forall i :: 0 <= i < u.Length ==> u[i] == (if i < nI then Grey(lineI[o + i]) else old(u[i]))
    {
      var i := 0;
      while i < nI
        invariant i <= nI
        invariant forall k :: 0 <= k < u.Length ==> u[k] == (if k < i then Grey(lineI[o + k]) else old(u[k]))
        decreases nI - i
      {
        var v := lineI[o + i];
        if v < 0 { u[i] := ToByte(-v); } else { u[i] := ToByte(v); }
        i := i + 1;
      }
    }

    /** i2rgbHack(rgb, lineI + o, nI): pixel i goes to rgb[3i .. 3i+2]
        for i < nI; no other byte of rgb changes. */
    method I2RgbHack(rgb: array<Byte>, lineI: array<Int32>, o: nat, nI: nat)
      requires 3 * nI <= rgb.Length && o + nI <= lineI.Length
      requires forall i :: o <= i < o + nI ==> RgbDefined(lineI[i])
      modifies rgb
      ensures forall k :: 0 <= k < rgb.Length ==>
        rgb[k] == (if k < 3 * nI then RgbByte(lineI[o + k / 3], k % 3) else old(rgb[k]))
    {
      var j := 0;
      var i := 0;
      while i < nI
        invariant i <= nI && j == 3 * i
        invariant forall k :: 0 <= k < rgb.Length ==>
          rgb[k] == (if k < j then RgbByte(lineI[o + k / 3], k % 3) else old(rgb[k]))
        decreases nI - i
      {
        var v := lineI[o + i];
        if v > 255 || v == 0 {
          rgb[j + 0], rgb[j + 1], rgb[j + 2] := 0, 0, 0;
        } else if v > 0 {
          rgb[j + 0] := if 0xFF < 0x20 + v then 0xFF else 0x20 + v;
          rgb[j + 1] := 0x20;
          rgb[j + 2] := 0xC0 - (if 0xC0 < v then 0xC0 else v);
        } else {
          var rb := ToByte(0x20 - CDiv(v, 2));
          rgb[j + 0], rgb[j + 2] := rb, rb;
          rgb[j + 1] := ToByte(0x40 - v);
        }
        assert (j + 0) / 3 == i && (j + 1) / 3 == i && (j + 2) / 3 == i;
        assert (j + 0) % 3 == 0 && (j + 1) % 3 == 1 && (j + 2) % 3 == 2;
        j := j + 3;
        i := i + 1;
      }
    }

    /** The elements that a save in format outFmt encodes must be free of C
        signed overflow in the encoder it uses. */
    predicate Encodable(outFmt: Byte)
      requires Valid()
      reads this, pI
    {
      EncodableAll(Pixels(), OutFormat(outFmt))
    }

    /** The same condition stated on the buffer itself. */
    predicate ElemsEncodable(fmt: nat)
      reads this, pI
    {
      pI != null && forall i :: 0 <= i < pI.Length ==>
        (fmt == 1 ==> GreyDefined(pI[i])) && (fmt == 3 ==> RgbDefined(pI[i]))
    }

    /** One pass of save()'s row loop body: encodes the def.x elements
        starting at o into the line buffer, which holds exactly one row. */
    method EncodeRow(pB: array<Byte>, o: nat, fmt: nat)
      requires Valid() && pI != null && (fmt == 1 || fmt == 3)
      requires o + defX <= pI.Length && pB.Length == (if fmt == 3 then 3 * defX else defX)
      requires ElemsEncodable(fmt)
      modifies pB
      ensures pB[..] == EncodeLine(pI[o .. o + defX], fmt)
    {
      ghost var line := pI[o .. o + defX];
      if fmt == 3 {
        I2RgbHack(pB, pI, o, defX);
        forall k | 0 <= k < pB.Length
          ensures pB[k] == RgbLine(line)[k]
        {
          RgbLineAt(line, k);
        }
      } else {
        I2U8Hack(pB, pI, o, defX);
        forall k | 0 <= k < pB.Length
          ensures pB[k] == GreyLine(line)[k]
        {
          GreyLineAt(line, k);
        }
      }
      assert pB[..] == EncodeLine(line, fmt);
    }

    /** Encodes row l, which starts at o, and appends it to what was written. */
    method AppendRow(pB: array<Byte>, l: nat, o: nat, fmt: nat, out: seq<Byte>) returns (o': nat, out': seq<Byte>)
      requires Valid() && pI != null && (fmt == 1 || fmt == 3)
      requires l < defY && o == l * defX && pB.Length == (if fmt == 3 then 3 * defX else defX)
      requires ElemsEncodable(fmt)
      requires out == EncodeLine(pI[..o], fmt)
      modifies pB
      ensures o' == (l + 1) * defX <= pI.Length
      ensures out' == EncodeLine(pI[..o'], fmt)
    {
      RowStep(l, defX, defY);
      EncodeRow(pB, o, fmt);
      out' := out + pB[..];
      if fmt == 3 {
        EncodeArrayStep(pI, o, defX, 3, out, pB[..]);
      } else {
        EncodeArrayStep(pI, o, defX, 1, out, pB[..]);
      }
      o' := o + defX;
    }

    /** The row loop of save() for formats 1 and 3: def.y rows, each encoded
        into the one line buffer of def.x * fmt bytes and appended. */
    method SaveRows(fmt: nat) returns (out: seq<Byte>)
      requires Valid() && pI != null && (fmt == 1 || fmt == 3)
      requires ElemsEncodable(fmt)
      ensures out == EncodeLine(pI[..], fmt)
    {
      out := [];
      var pB := new Byte[if fmt == 3 then 3 * defX else defX];
      var o: nat := 0;
      assert pI[..o] == [];
      EncodeEmpty(fmt);
      for l := 0 to defY
        invariant o == l * defX && o <= pI.Length
        invariant out == EncodeLine(pI[..o], fmt)
      {
        o, out := AppendRow(pB, l, o, fmt, out);
      }
      assert pI[..o] == pI[..];
    }

    /** save(fileName, outFmt): the bytes written and the count returned.
        Nothing for an empty image; format 0 dumps the elements (4 bytes
        each); formats 1 and 3 write def.y rows of def.x * fmt bytes. */
    method Save(outFmt: Byte) returns (bytes: nat, out: seq<Byte>)
      requires Valid() && Encodable(outFmt)
      ensures out == SaveOutput(Pixels(), outFmt)
      ensures bytes == |out| == NumElem() * ElemBytes(outFmt)
    {
      bytes, out := 0, [];
      var n := NumElem();
      if n > 0 {
        var fmt := outFmt;
        if fmt > 0 {
          if fmt > 1 && fmt != 3 { fmt := 1; }
          assert fmt == OutFormat(outFmt) && Pixels() == pI[..];
          assert forall i :: 0 <= i < pI.Length ==> pI[i] == Pixels()[i];
          out := SaveRows(fmt as nat);
          bytes := |out|;
        } else {
          bytes := n * 4;
          out := RawDump(pI[..]);
        }
      }
    }
  }
}

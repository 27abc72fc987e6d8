/** Bytes, fixed-width unsigned integers in network byte order, and fixed-layout
    runs of such integers (the shape of every header of the wire formats).

    Models the byte helpers of src/core/import/core_bytes.cppm. */
module Bytes {

  type byte = b: int | 0 <= b < 0x100
  type u16 = v: int | 0 <= v < 0x1_0000
  type u32 = v: int | 0 <= v < 0x1_0000_0000
  type u64 = v: int | 0 <= v < 0x1_0000_0000_0000_0000

  const U16_MAX: nat := 0xFFFF
  const U32_MAX: nat := 0xFFFF_FFFF

  datatype Option<+T> = None | Some(value: T)

  /** The number of values that fit in `width` bytes. */
  function Capacity(width: nat): (c: nat)
    ensures c > 0
  {
    if width == 0 then 1 else 0x100 * Capacity(width - 1)
  }

  /** The most significant byte first. */
  function BigEndian(value: nat, width: nat): (bytes: seq<byte>)
    ensures |bytes| == width
  {
    if width == 0 then [] else BigEndian(value / 0x100, width - 1) + [value % 0x100]
  }

  function FromBigEndian(bytes: seq<byte>): (value: nat)
    ensures value < Capacity(|bytes|)
  {
    if bytes == [] then 0
    else 0x100 * FromBigEndian(bytes[..|bytes| - 1]) + bytes[|bytes| - 1]
  }

  lemma {:induction false} BigEndianRoundTrip(value: nat, width: nat)
    requires value < Capacity(width)
    ensures FromBigEndian(BigEndian(value, width)) == value
  {
    if width > 0 {
      var bytes := BigEndian(value, width);
      assert bytes[..width - 1] == BigEndian(value / 0x100, width - 1);
      BigEndianRoundTrip(value / 0x100, width - 1);
    }
  }

  lemma {:induction false} FromBigEndianRoundTrip(bytes: seq<byte>)
    ensures BigEndian(FromBigEndian(bytes), |bytes|) == bytes
  {
    if bytes != [] {
      FromBigEndianRoundTrip(bytes[..|bytes| - 1]);
      assert bytes == bytes[..|bytes| - 1] + [bytes[|bytes| - 1]];
    }
  }

  /** One `read_big_endian` at `offset`: nothing when the bytes run out. */
  function ReadBigEndian(bytes: seq<byte>, offset: nat, width: nat): (value: Option<nat>)
    ensures value.Some? <==> offset + width <= |bytes|
    ensures value.Some? ==> value.value < Capacity(width)
  {
    if offset + width <= |bytes| then Some(FromBigEndian(bytes[offset..offset + width])) else None
  }

  // ---------------------------------------------------------------- layouts

  /** The widths, in bytes, of consecutive integers. */
  type Layout = seq<nat>

  function LayoutBytes(layout: Layout): nat {
    if layout == [] then 0 else layout[0] + LayoutBytes(layout[1..])
  }

  ghost predicate Fits(values: seq<nat>, layout: Layout) {
    |values| == |layout| && forall i :: 0 <= i < |layout| ==> values[i] < Capacity(layout[i])
  }

  /** A chain of `append_big_endian` calls. */
  function WriteFields(values: seq<nat>, layout: Layout): (bytes: seq<byte>)
    requires |values| == |layout|
    ensures |bytes| == LayoutBytes(layout)
  {
    if layout == [] then []
    else BigEndian(values[0], layout[0]) + WriteFields(values[1..], layout[1..])
  }

  /** A chain of `read_big_endian` calls joined by `&&`, starting at `offset`. */
  function ReadFields(bytes: seq<byte>, offset: nat, layout: Layout): (values: Option<seq<nat>>)
    ensures values.Some? <==> offset + LayoutBytes(layout) <= |bytes| || layout == []
    ensures values.Some? ==> Fits(values.value, layout)
    decreases layout
  {
    if layout == [] then Some([])
    else
      var first := ReadBigEndian(bytes, offset, layout[0]);
      if first.None? then None
      else
        var rest := ReadFields(bytes, offset + layout[0], layout[1..]);
        if rest.None? then None else Some([first.value] + rest.value)
  }

  lemma WriteNext(values: seq<nat>, layout: Layout)
    requires |values| == |layout| > 0
    ensures WriteFields(values, layout) == BigEndian(values[0], layout[0]) + WriteFields(values[1..], layout[1..])
  {
    hide BigEndian;
  }

  lemma ReadNext(bytes: seq<byte>, offset: nat, layout: Layout)
    requires layout != []
    ensures var first, rest := ReadBigEndian(bytes, offset, layout[0]),
        ReadFields(bytes, offset + layout[0], layout[1..]);
      ReadFields(bytes, offset, layout)
      == if first.None? || rest.None? then None else Some([first.value] + rest.value)
    ensures |layout| == 1 ==> ReadFields(bytes, offset + layout[0], layout[1..]) == Some([])
  {
    hide ReadBigEndian;
  }

  lemma ReadTwo(bytes: seq<byte>, offset: nat, w: Layout)
    requires |w| == 2
    ensures var a, b := ReadBigEndian(bytes, offset, w[0]), ReadBigEndian(bytes, offset + w[0], w[1]);
      ReadFields(bytes, offset, w) == if a.None? || b.None? then None else Some([a.value, b.value])
  {
    hide ReadBigEndian, ReadFields;
    var rest := w[1..];
    assert rest[0] == w[1];
    ReadNext(bytes, offset, w);
    ReadNext(bytes, offset + w[0], rest);
    var a, b := ReadBigEndian(bytes, offset, w[0]), ReadBigEndian(bytes, offset + w[0], w[1]);
    if a.Some? && b.Some? {
      assert [b.value] + [] == [b.value];
      assert [a.value] + [b.value] == [a.value, b.value];
    }
  }

  lemma ReadThree(bytes: seq<byte>, offset: nat, w: Layout)
    requires |w| == 3
    ensures var a, b, c := ReadBigEndian(bytes, offset, w[0]), ReadBigEndian(bytes, offset + w[0], w[1]),
                           ReadBigEndian(bytes, offset + w[0] + w[1], w[2]);
      ReadFields(bytes, offset, w)
      == if a.None? || b.None? || c.None? then None else Some([a.value, b.value, c.value])
  {
    hide ReadBigEndian, ReadFields;
    var rest := w[1..];
    assert rest[0] == w[1] && rest[1] == w[2];
    ReadNext(bytes, offset, w);
    ReadTwo(bytes, offset + w[0], rest);
    var a, b := ReadBigEndian(bytes, offset, w[0]), ReadBigEndian(bytes, offset + w[0], w[1]);
    var c := ReadBigEndian(bytes, offset + w[0] + w[1], w[2]);
    if a.Some? && b.Some? && c.Some? {
      assert [a.value] + [b.value, c.value] == [a.value, b.value, c.value];
    }
  }

  lemma ReadFour(bytes: seq<byte>, offset: nat, w: Layout)
    requires |w| == 4
    ensures var a := ReadBigEndian(bytes, offset, w[0]);
      var b := ReadBigEndian(bytes, offset + w[0], w[1]);
      var c := ReadBigEndian(bytes, offset + w[0] + w[1], w[2]);
      var d := ReadBigEndian(bytes, offset + w[0] + w[1] + w[2], w[3]);
      ReadFields(bytes, offset, w)
      == if a.None? || b.None? || c.None? || d.None? then None else Some([a.value, b.value, c.value, d.value])
  {
    hide ReadBigEndian, ReadFields;
    var w1, w2, w3 := w[1..], w[1..][1..], w[1..][1..][1..];
    var o1, o2, o3 := offset + w[0], offset + w[0] + w[1], offset + w[0] + w[1] + w[2];
    assert w1[0] == w[1] && w2[0] == w[2] && w3[0] == w[3] && w3[1..] == [];
    ReadNext(bytes, o3, w3);
    ReadNext(bytes, o2, w2);
    ReadNext(bytes, o1, w1);
    ReadNext(bytes, offset, w);
    var a, b := ReadBigEndian(bytes, offset, w[0]), ReadBigEndian(bytes, o1, w[1]);
    var c, d := ReadBigEndian(bytes, o2, w[2]), ReadBigEndian(bytes, o3, w[3]);
    if a.Some? && b.Some? && c.Some? && d.Some? {
      assert [a.value] + ([b.value] + ([c.value] + ([d.value] + []))) == [a.value, b.value, c.value, d.value];
    }
  }

  /** Reading what was written gives the values back, wherever it stands. */
  lemma {:induction false} ReadWritten(bytes: seq<byte>, offset: nat, values: seq<nat>, layout: Layout)
    requires Fits(values, layout)
    requires offset + LayoutBytes(layout) <= |bytes|
    requires bytes[offset..offset + LayoutBytes(layout)] == WriteFields(values, layout)
    ensures ReadFields(bytes, offset, layout) == Some(values)
    decreases layout
  {
    hide Capacity, BigEndian, FromBigEndian;
    if layout != [] {
      var all := bytes[offset..offset + LayoutBytes(layout)];
      var width := layout[0];
      assert bytes[offset..offset + width] == all[..width] == BigEndian(values[0], width);
      BigEndianRoundTrip(values[0], width);
      assert bytes[offset + width..offset + LayoutBytes(layout)] == all[width..]
          == WriteFields(values[1..], layout[1..]);
      ReadWritten(bytes, offset + width, values[1..], layout[1..]);
      assert values == [values[0]] + values[1..];
    }
  }

  /** A shorter chain of reads finds the first of the same values. */
  lemma {:induction false} ReadPrefix(bytes: seq<byte>, offset: nat, layout: Layout, n: nat)
    requires ReadFields(bytes, offset, layout).Some? && n <= |layout|
    ensures ReadFields(bytes, offset, layout[..n]) == Some(ReadFields(bytes, offset, layout).value[..n])
    decreases n
  {
    hide ReadBigEndian;
    if n > 0 {
      ReadPrefix(bytes, offset + layout[0], layout[1..], n - 1);
      assert layout[..n][1..] == layout[1..][..n - 1];
      var rest := ReadFields(bytes, offset + layout[0], layout[1..]).value;
      var values := ReadFields(bytes, offset, layout).value;
      assert values == [values[0]] + rest;
      assert values[..n] == [values[0]] + rest[..n - 1];
    }
  }

  /** The bytes that were read are exactly the encoding of the values read. */
  lemma {:induction false} WriteRead(bytes: seq<byte>, offset: nat, layout: Layout)
    requires offset + LayoutBytes(layout) <= |bytes|
    ensures WriteFields(ReadFields(bytes, offset, layout).value, layout)
         == bytes[offset..offset + LayoutBytes(layout)]
    decreases layout
  {
    hide Capacity, BigEndian, FromBigEndian;
    if layout != [] {
      FromBigEndianRoundTrip(bytes[offset..offset + layout[0]]);
      WriteRead(bytes, offset + layout[0], layout[1..]);
      var values := ReadFields(bytes, offset, layout).value;
      assert values[1..] == ReadFields(bytes, offset + layout[0], layout[1..]).value;
    }
  }

  lemma Capacities()
    ensures Capacity(1) == 0x100
    ensures Capacity(2) == 0x1_0000
    ensures Capacity(4) == 0x1_0000_0000
    ensures Capacity(8) == 0x1_0000_0000_0000_0000
  {
    assert Capacity(2) == 0x100 * Capacity(1);
    assert Capacity(3) == 0x100 * Capacity(2);
    assert Capacity(4) == 0x100 * Capacity(3);
    assert Capacity(5) == 0x100 * Capacity(4);
    assert Capacity(6) == 0x100 * Capacity(5);
    assert Capacity(7) == 0x100 * Capacity(6);
  }
}

/** The bit stream of the packed record layout, most significant bit first. The packed record has the
    bytes of the octahedral-heading record, so the record model covers it; and what a reader finds at any
    bit offset is what a writer put there.

    Models src/pipeline/private/pipeline_bitpack.cppm and the packed records of
    src/pipeline/private/pipeline_records.cppm. */
module BitPack {
  import opened Bytes
  import opened Snapshot
  import opened Records

  type bit = b: nat | b < 2

  function Pow2(n: nat): (p: nat)
    ensures p > 0
  {
    if n == 0 then 1 else 2 * Pow2(n - 1)
  }

  /** The low `width` bits of a value, most significant first. */
  function Bits(value: nat, width: nat): (bits: seq<bit>)
    ensures |bits| == width
  {
    if width == 0 then [] else Bits(value / 2, width - 1) + [value % 2]
  }

  function Number(bits: seq<bit>): nat {
    if bits == [] then 0 else 2 * Number(bits[..|bits| - 1]) + bits[|bits| - 1]
  }

  function Unpack(bytes: seq<byte>): (bits: seq<bit>)
    ensures |bits| == 8 * |bytes|
  {
    if bytes == [] then [] else Unpack(bytes[..|bytes| - 1]) + Bits(bytes[|bytes| - 1], 8)
  }

  // ---------------------------------------------------------------- numbers and bits

  /** A shift to the right. */
  function Shifted(value: nat, n: nat): nat {
    if n == 0 then value else Shifted(value / 2, n - 1)
  }

  /** A shift to the left. */
  function Raised(value: nat, n: nat): nat {
    if n == 0 then value else 2 * Raised(value, n - 1)
  }

  lemma {:induction false} NumberOfBits(value: nat, width: nat)
    requires value < Pow2(width)
    ensures Number(Bits(value, width)) == value
  {
    if width > 0 {
      NumberOfBits(value / 2, width - 1);
    }
  }

  lemma {:induction false} BitAt(value: nat, width: nat, k: nat)
    requires k < width
    ensures Bits(value, width)[k] == Shifted(value, width - 1 - k) % 2
  {
    if k < width - 1 {
      BitAt(value / 2, width - 1, k);
    }
  }

  lemma {:induction false} BitsSplit(value: nat, high: nat, low: nat)
    ensures Bits(value, high + low) == Bits(Shifted(value, low), high) + Bits(value, low)
  {
    if low > 0 {
      BitsSplit(value / 2, high, low - 1);
    }
  }

  /** Raising appends zeros. */
  lemma {:induction false} BitsRaised(value: nat, width: nat, n: nat)
    requires value < Pow2(width)
    ensures Bits(Raised(value, n), width + n) == Bits(value, width) + Bits(0, n)
    ensures Raised(value, n) < Pow2(width + n)
  {
    if n > 0 {
      BitsRaised(value, width, n - 1);
    }
  }

  lemma ByteOfBits()
    ensures Pow2(8) == 0x100
  {
    assert Pow2(4) == 16;
    assert Pow2(8) == 16 * Pow2(4);
  }

  lemma {:induction false} ShiftedTwice(v: nat, n: nat)
    ensures Shifted(v, n + 2) == Shifted(v, n) / 4
  {
    if n == 0 {
      assert Shifted(v, 2) == Shifted(v / 2, 1) == Shifted(v / 2 / 2, 0);
    } else {
      ShiftedTwice(v / 2, n - 1);
    }
  }

  lemma ShiftedByte(v: nat)
    ensures Shifted(v, 8) == v / 0x100
  {
    ShiftedTwice(v, 0);
    ShiftedTwice(v, 2);
    ShiftedTwice(v, 4);
    ShiftedTwice(v, 6);
  }

  lemma RaisedTwice(v: nat, n: nat)
    ensures Raised(v, n + 2) == 4 * Raised(v, n)
  {
  }

  lemma RaisedByte(v: nat)
    ensures Raised(v, 8) == 0x100 * v
  {
    RaisedTwice(v, 0);
    RaisedTwice(v, 2);
    RaisedTwice(v, 4);
    RaisedTwice(v, 6);
  }

  /** What stands above the width does not matter. */
  lemma {:induction false} LowBits(high: nat, low: nat, width: nat)
    ensures Bits(Raised(high, width) + low, width) == Bits(low, width)
  {
    if width > 0 {
      LowBits(high, low / 2, width - 1);
    }
  }

  lemma LowByteBits(v: nat)
    ensures Bits(v % 0x100, 8) == Bits(v, 8)
  {
    hide Bits, Raised;
    RaisedByte(v / 0x100);
    LowBits(v / 0x100, v % 0x100, 8);
  }

  lemma {:induction false} CapacityIsPower(width: nat)
    ensures Capacity(width) == Pow2(8 * width)
  {
    if width > 0 {
      CapacityIsPower(width - 1);
      PowerByEight(8 * (width - 1));
    }
  }

  lemma PowerByEight(n: nat)
    ensures Pow2(n + 8) == 0x100 * Pow2(n)
  {
    assert Pow2(n + 2) == 4 * Pow2(n);
    assert Pow2(n + 4) == 4 * Pow2(n + 2);
    assert Pow2(n + 6) == 4 * Pow2(n + 4);
    assert Pow2(n + 8) == 4 * Pow2(n + 6);
  }

  /** Bytes in network order are the number's bits in order. */
  lemma {:induction false} BigEndianBits(value: nat, width: nat)
    ensures Unpack(BigEndian(value, width)) == Bits(value, 8 * width)
  {
    hide Bits, Shifted;
    if width > 0 {
      var bytes := BigEndian(value, width);
      assert bytes[..width - 1] == BigEndian(value / 0x100, width - 1);
      BigEndianBits(value / 0x100, width - 1);
      BitsSplit(value, 8 * (width - 1), 8);
      ShiftedByte(value);
      LowByteBits(value);
    } else {
      NoBits(value);
    }
  }

  lemma NoBits(value: nat)
    ensures Bits(value, 0) == []
  {
  }

  lemma PowerOfNone()
    ensures Pow2(0) == 1
  {
  }

  lemma {:induction false} UnpackConcat(a: seq<byte>, b: seq<byte>)
    ensures Unpack(a + b) == Unpack(a) + Unpack(b)
  {
    if b == [] {
      assert a + b == a;
    } else {
      UnpackConcat(a, b[..|b| - 1]);
      assert (a + b)[..|a + b| - 1] == a + b[..|b| - 1];
    }
  }

  lemma ConcatSplits(a: seq<bit>, b: seq<bit>, c: seq<bit>, d: seq<bit>)
    requires a + b == c + d && |a| == |c|
    ensures a == c && b == d
  {
    assert a == (a + b)[..|a|] && c == (c + d)[..|c|];
    assert b == (a + b)[|a|..] && d == (c + d)[|c|..];
  }

  lemma ByteOfItsBits(a: byte, b: byte)
    requires Bits(a, 8) == Bits(b, 8)
    ensures a == b
  {
    ByteOfBits();
    NumberOfBits(a, 8);
    NumberOfBits(b, 8);
  }

  lemma {:induction false} UnpackInjective(a: seq<byte>, b: seq<byte>)
    requires Unpack(a) == Unpack(b)
    ensures a == b
  {
    hide Bits;
    assert |a| == |b|;
    if a != [] {
      var last := |a| - 1;
      ConcatSplits(Unpack(a[..last]), Bits(a[last], 8), Unpack(b[..last]), Bits(b[last], 8));
      UnpackInjective(a[..last], b[..last]);
      ByteOfItsBits(a[last], b[last]);
      assert a == a[..last] + [a[last]] && b == b[..last] + [b[last]];
    }
  }

  lemma {:induction false} UnpackAt(bytes: seq<byte>, i: nat)
    requires i < 8 * |bytes|
    ensures Unpack(bytes)[i] == Shifted(bytes[i / 8], 7 - i % 8) % 2
  {
    hide Bits, Shifted;
    var last := |bytes| - 1;
    if i < 8 * last {
      UnpackAt(bytes[..last], i);
    } else {
      BitAt(bytes[last], 8, i - 8 * last);
      assert i / 8 == last;
    }
  }

  // ---------------------------------------------------------------- writing

  class BitWriter {
    var bytes: seq<byte>
    var scratch: nat
    var usedBits: nat
    /** Everything written so far. */
    ghost var written: seq<bit>

    ghost predicate Valid()
      reads this
    {
      usedBits < 8 && scratch < Pow2(usedBits) && written == Unpack(bytes) + Bits(scratch, usedBits)
    }

    constructor (bytes: seq<byte>)
      ensures Valid() && this.bytes == bytes && usedBits == 0 && written == Unpack(bytes)
    {
      this.bytes, scratch, usedBits := bytes, 0, 0;
      written := Unpack(bytes);
    }

    method WriteBit(b: bit)
      requires Valid()
      modifies this
      ensures Valid() && written == old(written) + [b]
    {
      hide Unpack;
      ghost var grown := 2 * scratch + b;
      assert Bits(grown, usedBits + 1) == Bits(scratch, usedBits) + [b];
      scratch := 2 * scratch + b;
      usedBits := usedBits + 1;
      written := written + [b];
      if usedBits == 8 {
        ByteOfBits();
        PushedByte(bytes, scratch);
        bytes := bytes + [scratch];
        scratch := 0;
        usedBits := 0;
      }
    }

    method WriteBits(value: nat, count: nat)
      requires Valid()
      modifies this
      ensures Valid() && written == old(written) + Bits(value, count)
    {
      hide Bits, Unpack, Shifted;
      var bitIndex: nat := count;
      ghost var all := Bits(value, count);
      while bitIndex > 0
        invariant Valid() && bitIndex <= count
        invariant written == old(written) + all[..count - bitIndex]
      {
        BitAt(value, count, count - bitIndex);
        WriteBit(Shifted(value, bitIndex - 1) % 2);
        bitIndex := bitIndex - 1;
      }
      assert all[..count] == all;
    }

    /** Pads the last byte with zeros. */
    method FlushBits()
      requires Valid()
      modifies this
      ensures Valid() && usedBits == 0 && written == Unpack(bytes)
      ensures written == old(written) + if old(usedBits) == 0 then [] else Bits(0, 8 - old(usedBits))
      ensures old(usedBits) == 0 ==> bytes == old(bytes)
    {
      hide Bits, Unpack, Raised, Pow2;
      if usedBits == 0 {
        NoBits(scratch);
        return;
      }
      ghost var pad := 8 - usedBits;
      BitsRaised(scratch, usedBits, pad);
      ByteOfBits();
      PowerOfNone();
      PushedByte(bytes, Raised(scratch, pad));
      bytes := bytes + [Raised(scratch, 8 - usedBits)];
      written := Unpack(bytes);
      scratch, usedBits := 0, 0;
      NoBits(0);
    }
  }

  lemma PushedByte(bytes: seq<byte>, b: byte)
    ensures Unpack(bytes + [b]) == Unpack(bytes) + Bits(b, 8)
  {
    assert (bytes + [b])[..|bytes|] == bytes;
  }

  /** From a byte boundary, whole bytes of bits are the number in network order. */
  lemma Aligned(before: seq<byte>, after: seq<byte>, scratch: nat, used: nat, value: nat, width: nat)
    requires used < 8 && Unpack(after) + Bits(scratch, used) == Unpack(before) + Bits(value, 8 * width)
    ensures used == 0 && after == before + BigEndian(value, width)
  {
    hide Unpack, Bits, BigEndian;
    assert 8 * |after| + used == 8 * |before| + 8 * width;
    assert used == 0;
    NoBits(scratch);
    assert Unpack(after) + [] == Unpack(after);
    BigEndianBits(value, width);
    UnpackConcat(before, BigEndian(value, width));
    UnpackInjective(after, before + BigEndian(value, width));
  }

  method WriteField(writer: BitWriter, value: nat, width: nat)
    requires writer.Valid() && writer.usedBits == 0
    modifies writer
    ensures writer.Valid() && writer.usedBits == 0
    ensures writer.bytes == old(writer.bytes) + BigEndian(value, width)
  {
    writer.WriteBits(value, 8 * width);
    Aligned(old(writer.bytes), writer.bytes, writer.scratch, writer.usedBits, value, width);
  }

  const OCT_LAYOUT: Layout := [4, 1, 2, 2, 2, 2, 2, 1]

  function OctValues(layout: RecordLayout, e: EntityState): (values: seq<nat>)
    requires layout.quantized && layout.octHeading
    ensures |values| == |OCT_LAYOUT|
  {
    var position, heading := PositionTokens(layout, e.position), HeadingTokens(layout, e.heading);
    [e.id, e.classification, position[0], position[1], position[2], heading[0], heading[1], e.hue]
  }

  /** The fields from the `k`-th on. */
  function Rest(values: seq<nat>, widths: Layout, k: nat): seq<byte>
    requires |values| == |widths| && k <= |values|
  {
    WriteFields(values[k..], widths[k..])
  }

  /** One more field has been written. */
  lemma WriteStep(prefix: seq<byte>, values: seq<nat>, widths: Layout, k: nat)
    requires |values| == |widths| && k < |values|
    ensures prefix + Rest(values, widths, k) == prefix + BigEndian(values[k], widths[k]) + Rest(values, widths, k + 1)
  {
    hide BigEndian, WriteFields;
    WriteNext(values[k..], widths[k..]);
    assert values[k..][1..] == values[k + 1..] && widths[k..][1..] == widths[k + 1..];
  }

  /** The packed record is, byte for byte, the octahedral-heading record. */
  method WriteBitpackedRecord(bytes: seq<byte>, layout: RecordLayout, e: EntityState) returns (out: seq<byte>)
    requires layout.quantized && layout.octHeading
    ensures out == bytes + WriteRecord(layout, e)
  {
    hide BigEndian, Unpack, Bits, WriteFields, WriteRecord, PositionTokens, HeadingTokens, Rest;
    ghost var values: seq<nat> := OctValues(layout, e);
    ghost var widths := OCT_LAYOUT;
    OctRecord(layout, e);
    var position, heading := PositionTokens(layout, e.position), HeadingTokens(layout, e.heading);
    var writer := new BitWriter(bytes);
    WriteStep(writer.bytes, values, widths, 0);
    WriteField(writer, e.id, 4);
    WriteStep(writer.bytes, values, widths, 1);
    WriteField(writer, e.classification, 1);
    WriteStep(writer.bytes, values, widths, 2);
    WriteField(writer, position[0], 2);
    WriteStep(writer.bytes, values, widths, 3);
    WriteField(writer, position[1], 2);
    WriteStep(writer.bytes, values, widths, 4);
    WriteField(writer, position[2], 2);
    WriteStep(writer.bytes, values, widths, 5);
    WriteField(writer, heading[0], 2);
    WriteStep(writer.bytes, values, widths, 6);
    WriteField(writer, heading[1], 2);
    WriteStep(writer.bytes, values, widths, 7);
    WriteField(writer, e.hue, 1);
    writer.FlushBits();
    NothingLeft(writer.bytes, values, widths);
    out := writer.bytes;
  }

  lemma NothingLeft(bytes: seq<byte>, values: seq<nat>, widths: Layout)
    requires |values| == |widths|
    ensures bytes + Rest(values, widths, |values|) == bytes
  {
  }

  lemma RestSplit(values: seq<nat>, widths: Layout, k: nat, n: nat)
    requires |values| == |widths| && k + n <= |values|
    ensures Rest(values, widths, k) == WriteFields(values[k..k + n], widths[k..k + n]) + Rest(values, widths, k + n)
  {
    hide WriteFields;
    WriteSplit(values[k..], widths[k..], n);
    assert values[k..][..n] == values[k..k + n] && widths[k..][..n] == widths[k..k + n];
    assert values[k..][n..] == values[k + n..] && widths[k..][n..] == widths[k + n..];
  }

  lemma OctParts(layout: RecordLayout, e: EntityState)
    requires layout.quantized && layout.octHeading
    ensures var values, widths := OctValues(layout, e), OCT_LAYOUT;
      && values[0] == e.id && widths[0] == 4
      && values[1..2] == [e.classification as nat] && widths[1..2] == [1]
      && values[2..5] == PositionTokens(layout, e.position) && widths[2..5] == PositionWidths(layout)
      && values[5..7] == HeadingTokens(layout, e.heading) && widths[5..7] == HeadingWidths(layout)
      && values[7..8] == [e.hue as nat] && widths[7..8] == [1]
  {
    var position, heading := PositionTokens(layout, e.position), HeadingTokens(layout, e.heading);
    hide PositionTokens, HeadingTokens;
    assert position == [position[0], position[1], position[2]] && heading == [heading[0], heading[1]];
  }

  lemma OctRecord(layout: RecordLayout, e: EntityState)
    requires layout.quantized && layout.octHeading
    ensures WriteRecord(layout, e) == Rest(OctValues(layout, e), OCT_LAYOUT, 0)
  {
    var values, widths := OctValues(layout, e), OCT_LAYOUT;
    OctParts(layout, e);
    hide BigEndian, WriteFields, PositionTokens, HeadingTokens, Rest, OctValues, PositionWidths, HeadingWidths;
    WriteStep([], values, widths, 0);
    RestSplit(values, widths, 1, 1);
    RestSplit(values, widths, 2, 3);
    RestSplit(values, widths, 5, 2);
    RestSplit(values, widths, 7, 1);
    NothingLeft(WriteFields(values[7..8], widths[7..8]), values, widths);
    assert [] + Rest(values, widths, 0) == Rest(values, widths, 0);
    assert [] + BigEndian(e.id, 4) == BigEndian(e.id, 4);
  }

  lemma {:induction false} WriteSplit(values: seq<nat>, layout: Layout, n: nat)
    requires |values| == |layout| && n <= |values|
    ensures WriteFields(values, layout) == WriteFields(values[..n], layout[..n]) + WriteFields(values[n..], layout[n..])
  {
    hide BigEndian;
    if n == 0 {
      assert values[0..] == values && layout[0..] == layout;
    } else {
      WriteSplit(values[1..], layout[1..], n - 1);
      assert values[1..][..n - 1] == values[..n][1..] && layout[1..][..n - 1] == layout[..n][1..];
      assert values[1..][n - 1..] == values[n..] && layout[1..][n - 1..] == layout[n..];
    }
  }

  // ---------------------------------------------------------------- reading

  class BitReader {
    const bytes: seq<byte>
    var bitOffset: nat

    constructor (bytes: seq<byte>)
      ensures this.bytes == bytes && bitOffset == 0
    {
      this.bytes := bytes;
      bitOffset := 0;
    }

    /** The number that the next bits spell, wherever the reader stands. */
    method ReadBits(count: nat) returns (ok: bool, value: nat)
      modifies this
      ensures ok <==> old(bitOffset) + count <= 8 * |bytes|
      ensures ok ==> value == Number(Unpack(bytes)[old(bitOffset)..old(bitOffset) + count])
      ensures bitOffset == if ok then old(bitOffset) + count else old(bitOffset)
    {
      hide Unpack, Shifted;
      value := 0;
      if bitOffset + count > 8 * |bytes| {
        return false, 0;
      }
      ghost var bits := Unpack(bytes)[bitOffset..bitOffset + count];
      for index := 0 to count
        invariant bitOffset == old(bitOffset) && value == Number(bits[..index])
      {
        var absolute := bitOffset + index;
        UnpackAt(bytes, absolute);
        assert bits[index] == Unpack(bytes)[absolute];
        assert bits[..index + 1][..index] == bits[..index];
        value := 2 * value + Shifted(bytes[absolute / 8], 7 - absolute % 8) % 2;
      }
      assert bits[..count] == bits;
      bitOffset := bitOffset + count;
      ok := true;
    }
  }

  /** Whatever widths are written one after the other, aligned or not, reading the same widths gives the
      values back. */
  lemma {:induction false} StreamRoundTrip(before: seq<bit>, value: nat, width: nat, after: seq<bit>)
    requires value < Pow2(width)
    ensures Number((before + Bits(value, width) + after)[|before|..|before| + width]) == value
  {
    NumberOfBits(value, width);
    assert (before + Bits(value, width) + after)[|before|..|before| + width] == Bits(value, width);
  }

  lemma {:induction false} UnpackSlice(bytes: seq<byte>, from: nat, to: nat)
    requires from <= to <= |bytes|
    ensures Unpack(bytes)[8 * from..8 * to] == Unpack(bytes[from..to])
  {
    var a, b, c := bytes[..from], bytes[from..to], bytes[to..];
    assert bytes == a + (b + c);
    UnpackConcat(a, b + c);
    UnpackConcat(b, c);
  }

  lemma NumberOfBytes(bytes: seq<byte>)
    ensures Number(Unpack(bytes)) == FromBigEndian(bytes)
  {
    hide Unpack, Bits, Number, Pow2, Capacity, FromBigEndian, BigEndian;
    FromBigEndianRoundTrip(bytes);
    BigEndianBits(FromBigEndian(bytes), |bytes|);
    CapacityIsPower(|bytes|);
    NumberOfBits(FromBigEndian(bytes), 8 * |bytes|);
  }

  /** From a byte boundary, whole bytes of bits are read as a number in network order. */
  lemma AlignedRead(bytes: seq<byte>, from: nat, width: nat)
    requires from + width <= |bytes|
    ensures Number(Unpack(bytes)[8 * from..8 * (from + width)]) == FromBigEndian(bytes[from..from + width])
  {
    hide Unpack, Number, FromBigEndian;
    UnpackSlice(bytes, from, from + width);
    NumberOfBytes(bytes[from..from + width]);
  }

  method ReadField(reader: BitReader, ghost at: nat, width: nat) returns (ok: bool, value: nat)
    requires reader.bitOffset == 8 * at
    modifies reader
    ensures ok <==> at + width <= |reader.bytes|
    ensures ok ==> reader.bitOffset == 8 * (at + width) && value == FromBigEndian(reader.bytes[at..at + width])
    ensures ok ==> value < Capacity(width)
  {
    hide Unpack, FromBigEndian, Capacity, Number;
    ok, value := reader.ReadBits(8 * width);
    if ok {
      AlignedRead(reader.bytes, at, width);
    }
  }

  /** The record's fields, in the order they are packed. */
  method ReadPackedFields(record: seq<byte>) returns (fields: seq<nat>)
    requires |record| == 16
    ensures fields == PackedFields(record)
  {
    hide FromBigEndian, Capacity;
    var reader := new BitReader(record);
    var ok, id := ReadField(reader, 0, 4);
    var classification, px, py, pz, hx, hy, hue;
    ok, classification := ReadField(reader, 4, 1);
    ok, px := ReadField(reader, 5, 2);
    ok, py := ReadField(reader, 7, 2);
    ok, pz := ReadField(reader, 9, 2);
    ok, hx := ReadField(reader, 11, 2);
    ok, hy := ReadField(reader, 13, 2);
    ok, hue := ReadField(reader, 15, 1);
    fields := [id, classification, px, py, pz, hx, hy, hue];
  }

  function PackedFields(r: seq<byte>): (fields: seq<nat>)
    requires |r| == 16
    ensures |fields| == 8
  {
    [FromBigEndian(r[0..4]), FromBigEndian(r[4..5]), FromBigEndian(r[5..7]), FromBigEndian(r[7..9]),
     FromBigEndian(r[9..11]), FromBigEndian(r[11..13]), FromBigEndian(r[13..15]), FromBigEndian(r[15..16])]
  }

  predicate FieldsFit(f: seq<nat>) {
    && |f| == 8 && f[0] <= U32_MAX && f[1] < 0x100 && f[7] < 0x100
    && f[2] <= U16_MAX && f[3] <= U16_MAX && f[4] <= U16_MAX && f[5] <= U16_MAX && f[6] <= U16_MAX
  }

  lemma PackedFit(r: seq<byte>)
    requires |r| == 16
    ensures FieldsFit(PackedFields(r))
  {
    hide FromBigEndian, Capacity;
    Capacities();
  }

  function PackedEntity(f: seq<nat>, layout: RecordLayout): EntityState
    requires FieldsFit(f)
  {
    EntityState(f[0], f[1], layout.numerics.dequantizePosition(f[2], f[3], f[4]),
                layout.numerics.decodeOctHeading(f[5], f[6]), f[7])
  }

  /** The packed record is read as the octahedral-heading record is. */
  method ReadBitpackedRecord(bytes: seq<byte>, offset: nat, layout: RecordLayout) returns (read: Option<Cursor>)
    requires layout.quantized && layout.octHeading
    ensures read == ReadRecord(bytes, offset, layout)
  {
    hide ReadRecord, PackedFields, FieldsFit;
    OctRead(bytes, offset, layout);
    if offset + 16 > |bytes| {
      return None;
    }
    var fields := ReadPackedFields(bytes[offset..offset + 16]);
    PackedFit(bytes[offset..offset + 16]);
    read := Some(Cursor(PackedEntity(fields, layout), offset + 16));
  }

  lemma OctRead(bytes: seq<byte>, offset: nat, layout: RecordLayout)
    requires layout.quantized && layout.octHeading
    ensures offset + 16 > |bytes| ==> ReadRecord(bytes, offset, layout).None?
    ensures offset + 16 <= |bytes| ==>
              var f := PackedFields(bytes[offset..offset + 16]);
              FieldsFit(f) && ReadRecord(bytes, offset, layout) == Some(Cursor(PackedEntity(f, layout), offset + 16))
  {
    hide ReadClassification, ReadPosition, ReadHeading, ReadHue, ReadBigEndian, FromBigEndian, Capacity;
    Widths();
    OctTooShort(bytes, offset, layout);
    if offset + 16 <= |bytes| {
      var r := bytes[offset..offset + 16];
      var f := PackedFields(r);
      PackedFit(r);
      PackedParts(bytes, offset);
      var a := Cursor(BLANK.(id := f[0]), offset + 4);
      OctByte(bytes, a);
      var b := Cursor(a.entity.(classification := f[1]), offset + 5);
      OctPosition(bytes, b, layout);
      var c := Cursor(b.entity.(position := layout.numerics.dequantizePosition(f[2], f[3], f[4])), offset + 11);
      OctHeading(bytes, c, layout);
      var d := Cursor(c.entity.(heading := layout.numerics.decodeOctHeading(f[5], f[6])), offset + 15);
      OctByte(bytes, d);
    }
  }

  lemma OctTooShort(bytes: seq<byte>, offset: nat, layout: RecordLayout)
    requires layout.quantized && layout.octHeading
    ensures offset + 16 > |bytes| ==> ReadRecord(bytes, offset, layout).None?
  {
    hide FromBigEndian, Capacity, ReadFields;
    WidthBytes(layout);
  }

  /** The parts of a record are where the fields say. */
  lemma PackedParts(bytes: seq<byte>, offset: nat)
    requires offset + 16 <= |bytes|
    ensures var f := PackedFields(bytes[offset..offset + 16]);
      && ReadBigEndian(bytes, offset, 4) == Some(f[0]) && ReadBigEndian(bytes, offset + 4, 1) == Some(f[1])
      && ReadBigEndian(bytes, offset + 5, 2) == Some(f[2]) && ReadBigEndian(bytes, offset + 7, 2) == Some(f[3])
      && ReadBigEndian(bytes, offset + 9, 2) == Some(f[4]) && ReadBigEndian(bytes, offset + 11, 2) == Some(f[5])
      && ReadBigEndian(bytes, offset + 13, 2) == Some(f[6]) && ReadBigEndian(bytes, offset + 15, 1) == Some(f[7])
  {
    hide FromBigEndian, Capacity;
    Part(bytes, offset, 0, 4);
    Part(bytes, offset, 4, 5);
    Part(bytes, offset, 5, 7);
    Part(bytes, offset, 7, 9);
    Part(bytes, offset, 9, 11);
    Part(bytes, offset, 11, 13);
    Part(bytes, offset, 13, 15);
    Part(bytes, offset, 15, 16);
  }

  lemma Part(bytes: seq<byte>, offset: nat, from: nat, to: nat)
    requires offset + 16 <= |bytes| && from <= to <= 16
    ensures bytes[offset..offset + 16][from..to] == bytes[offset + from..offset + to]
  {
    var record := bytes[offset..offset + 16];
    var a, b := record[from..to], bytes[offset + from..offset + to];
    assert |a| == |b|;
    forall k | 0 <= k < |a|
      ensures a[k] == b[k]
    {
      assert a[k] == record[from + k] == bytes[offset + (from + k)];
      assert b[k] == bytes[offset + from + k];
    }
  }

  lemma OctByte(bytes: seq<byte>, at: Cursor)
    requires at.offset + 1 <= |bytes|
    ensures ReadBigEndian(bytes, at.offset, 1).Some? && ReadBigEndian(bytes, at.offset, 1).value < 0x100
    ensures ReadClassification(bytes, at, true)
         == Some(Cursor(at.entity.(classification := ReadBigEndian(bytes, at.offset, 1).value), at.offset + 1))
    ensures ReadHue(bytes, at, true)
         == Some(Cursor(at.entity.(hue := ReadBigEndian(bytes, at.offset, 1).value), at.offset + 1))
  {
    hide FromBigEndian, Capacity;
    Widths();
  }

  lemma OctPosition(bytes: seq<byte>, at: Cursor, layout: RecordLayout)
    requires layout.quantized && at.offset + 6 <= |bytes|
    ensures var x, y, z := ReadBigEndian(bytes, at.offset, 2), ReadBigEndian(bytes, at.offset + 2, 2),
                           ReadBigEndian(bytes, at.offset + 4, 2);
      && x.Some? && y.Some? && z.Some? && x.value <= U16_MAX && y.value <= U16_MAX && z.value <= U16_MAX
      && ReadPosition(bytes, at, layout, true)
           == Some(Cursor(at.entity.(position := layout.numerics.dequantizePosition(x.value, y.value, z.value)),
               at.offset + 6))
  {
    hide FromBigEndian, Capacity, ReadFields;
    Widths();
    WidthBytes(layout);
    ReadThree(bytes, at.offset, PositionWidths(layout));
  }

  lemma OctHeading(bytes: seq<byte>, at: Cursor, layout: RecordLayout)
    requires layout.quantized && layout.octHeading && at.offset + 4 <= |bytes|
    ensures var x, y := ReadBigEndian(bytes, at.offset, 2), ReadBigEndian(bytes, at.offset + 2, 2);
      && x.Some? && y.Some? && x.value <= U16_MAX && y.value <= U16_MAX
      && ReadHeading(bytes, at, layout, true)
           == Some(Cursor(at.entity.(heading := layout.numerics.decodeOctHeading(x.value, y.value)), at.offset + 4))
  {
    hide FromBigEndian, Capacity, ReadFields;
    Widths();
    WidthBytes(layout);
    ReadTwo(bytes, at.offset, HeadingWidths(layout));
  }
}

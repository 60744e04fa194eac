/**
 * `UnrealEngineSaveFileUtils`: turning the bytes of a `.sav` file into a
 * `GvasObject`. A file is a 12-byte header of three little-endian ints
 * (uncompressed length, compressed length, magic) followed by zlib data that
 * is inflated once or twice, as the top byte of the magic int says.
 */
module UnrealEngineSaveFileUtils {
  import opened JavaInt
  import opened Wrappers
  import opened ByteBuffers
  import opened Entity
  import opened Inflaters

  /** What the Java code throws, one case per failure it can reach. */
  datatype DecodeError =
    | BufferUnderflow                                   // getInt with fewer than 4 bytes left
    | UnknownSaveType(typeByte: JByte)                  // no SaveType has this value
    | CorruptStream                                     // DataFormatException from the Inflater
    | IntermediateLengthMismatch(declared: I32, actual: nat)  // double zlib: first pass vs compressed length
    | FinalLengthMismatch(declared: I32, actual: nat)         // payload vs uncompressed length

  /** A decoding step returns a value, throws, or never returns (a stalled inflate loop). */
  datatype Outcome<+T> = Done(value: T) | Failed(error: DecodeError) | Diverges

  /** The three ints at the front of the file. */
  datatype Header = Header(uncompressedLen: I32, compressedLen: I32, magic: I32)

  /** The header as three consecutive `getInt()` calls read it, or `None` on underflow. */
  function ReadHeader(data: seq<JByte>): (r: Option<Header>)
    ensures r.Some? <==> |data| >= 12
    ensures r.Some? ==>
              && LittleEndianBytes(r.value.uncompressedLen) == data[0..4]
              && LittleEndianBytes(r.value.compressedLen) == data[4..8]
              && LittleEndianBytes(r.value.magic) == data[8..12]
  {
    if |data| < 12 then None
    else
      BytesRoundTrip(data[0..4]);
      BytesRoundTrip(data[4..8]);
      BytesRoundTrip(data[8..12]);
      Some(Header(LittleEndianInt(data[0..4]), LittleEndianInt(data[4..8]), LittleEndianInt(data[8..12])))
  }

  /** `(byte) (magicInt >> 24)`: the byte that selects the save type, the top byte of `magic` read as signed. */
  function TypeByte(magic: I32): (b: JByte)
    ensures b * 0x100_0000 <= magic < (b + 1) * 0x100_0000
  {
    Pow2Constants();
    ToByteOfByte(ShiftRight(magic, 24));
    ToByte(ShiftRight(magic, 24))
  }

  /** `magicBytes(magic)`: bits 16-23, 8-15 and 0-7 of the magic int, in that order. */
  function MagicBytes(magic: I32): (marker: seq<JByte>)
    ensures |marker| == 3
    ensures LittleEndianInt([marker[2], marker[1], marker[0], TypeByte(magic)]) == magic
  {
    var marker := [ToByte(ShiftRight(magic, 16)), ToByte(ShiftRight(magic, 8)), ToByte(magic)];
    assert [marker[2], marker[1], marker[0], TypeByte(magic)] == LittleEndianBytes(magic);
    IntRoundTrip(magic);
    marker
  }

  /** What one `decompress` call yields, given what the library makes of its input. */
  function InflateOnce(zlib: seq<JByte> -> Inflation, data: seq<JByte>): Outcome<seq<JByte>>
  {
    match zlib(data)
    case Inflated(output) => Done(output)
    case Corrupt => Failed(CorruptStream)
    case Stalls => Diverges
  }

  /**
   * The bytes left after the inflate passes the save type calls for; for
   * double zlib the first pass must be as long as the declared compressed length.
   */
  function Payload(zlib: seq<JByte> -> Inflation, saveType: SaveType, compressedLen: I32, body: seq<JByte>)
    : (r: Outcome<seq<JByte>>)
    ensures saveType == SingleZlib ==> (r.Done? <==> zlib(body).Inflated?)
    ensures saveType == SingleZlib && r.Done? ==> r.value == zlib(body).output
    ensures saveType == DoubleZlib ==>
              (r.Done? <==> && zlib(body).Inflated? && |zlib(body).output| == compressedLen
                            && zlib(zlib(body).output).Inflated?)
    ensures saveType == DoubleZlib && r.Done? ==> r.value == zlib(zlib(body).output).output
    ensures r.Failed? && r.error != CorruptStream ==>
              && saveType == DoubleZlib && zlib(body).Inflated?
              && r.error == IntermediateLengthMismatch(compressedLen, |zlib(body).output|)
  {
    match InflateOnce(zlib, body)
    case Done(stage1) =>
      if saveType.SingleZlib? then Done(stage1)
      else if compressedLen != |stage1| then Failed(IntermediateLengthMismatch(compressedLen, |stage1|))
      else InflateOnce(zlib, stage1)
    case Failed(e) => Failed(e)
    case Diverges => Diverges
  }

  /** What `decompressSavToGvas(byte[])` returns, throws, or whether it hangs, on `data`. */
  function Decode(zlib: seq<JByte> -> Inflation, data: seq<JByte>): (r: Outcome<GvasObject>)
    ensures r == Failed(BufferUnderflow) <==> |data| < 12
  {
    match ReadHeader(data)
    case None => Failed(BufferUnderflow)
    case Some(header) => DecodeBody(zlib, header, data[12..])
  }

  /** Everything after the header is read: type resolution, inflation, the final length check. */
  function DecodeBody(zlib: seq<JByte> -> Inflation, header: Header, body: seq<JByte>): (r: Outcome<GvasObject>)
    ensures r != Failed(BufferUnderflow)
    ensures r.Done? ==>
              && |r.value.uncompressedData| == header.uncompressedLen
              && r.value.saveType.GetValue() == TypeByte(header.magic)
              && r.value.magicBytes == MagicBytes(header.magic)
  {
    var typeByte := TypeByte(header.magic);
    match Lookup(Values(), typeByte)
    case None => Failed(UnknownSaveType(typeByte))
    case Some(saveType) =>
      match Payload(zlib, saveType, header.compressedLen, body)
      case Done(payload) =>
        if header.uncompressedLen != |payload| then Failed(FinalLengthMismatch(header.uncompressedLen, |payload|))
        else Done(GvasObject(payload, saveType, MagicBytes(header.magic)))
      case Failed(e) => Failed(e)
      case Diverges => Diverges
  }

  /**
   * `decompress(data)`: a fresh Inflater on `data`, drained through a
   * 1024-byte buffer into a growing output until it reports itself finished.
   * The loop only ends when the inflater does not stall.
   */
  method Decompress(zlib: seq<JByte> -> Inflation, data: seq<JByte>) returns (r: Outcome<seq<JByte>>)
    requires !zlib(data).Stalls?
    ensures r == InflateOnce(zlib, data)
  {
    var inflater := new Inflater(zlib, data);
    var buf := new JByte[1024];
    var output: seq<JByte> := [];
    while !inflater.Finished()
      invariant inflater.Valid() && inflater.outcome == zlib(data)
      invariant inflater.outcome.Inflated? ==> output == inflater.outcome.output[..inflater.produced]
      decreases if inflater.outcome.Inflated? then |inflater.outcome.output| - inflater.produced else 0
    {
      var bytesRead := inflater.Inflate(buf);
      if bytesRead.None? {
        return Failed(CorruptStream);
      }
      output := output + buf[..bytesRead.value];
    }
    assert output == inflater.outcome.output[..|inflater.outcome.output|] == inflater.outcome.output;
    return Done(output);
  }

  /**
   * The three `getInt()` calls that open `decompressSavToGvas(byte[])`, on a
   * little-endian buffer wrapping `data`; `None` when one of them underflows.
   */
  method GetHeader(data: seq<JByte>) returns (r: Option<Header>)
    ensures r == ReadHeader(data)
  {
    var buffer := new ByteBuffer.Wrap(data);
    var uncompressedLen := buffer.GetInt();
    if uncompressedLen.None? {
      return None;
    }
    var compressedLen := buffer.GetInt();
    if compressedLen.None? {
      return None;
    }
    var magicInt := buffer.GetInt();
    if magicInt.None? {
      return None;
    }
    return Some(Header(uncompressedLen.value, compressedLen.value, magicInt.value));
  }

  /**
   * `decompressSavToGvas(byte[])`: read the header, resolve the save type,
   * inflate the body once or twice and check the declared lengths.
   */
  method DecompressSavToGvas(zlib: seq<JByte> -> Inflation, data: seq<JByte>) returns (r: Outcome<GvasObject>)
    requires !Decode(zlib, data).Diverges?
    ensures r == Decode(zlib, data)
  {
    var header := GetHeader(data);
    if header.None? {
      return Failed(BufferUnderflow);
    }
    var uncompressedLen, compressedLen, magicInt := header.value.uncompressedLen, header.value.compressedLen, header.value.magic;
    assert Decode(zlib, data) == DecodeBody(zlib, header.value, data[12..]);

    var typeByte := TypeByte(magicInt);
    var saveType := FromValue(typeByte);
    if saveType.None? {
      return Failed(UnknownSaveType(typeByte));
    }

    var compressedData := data[12..];
    ghost var expected := Payload(zlib, saveType.value, compressedLen, compressedData);
    var uncompressedData := Decompress(zlib, compressedData);
    if uncompressedData.Failed? {
      assert expected == Failed(uncompressedData.error);
      return Failed(uncompressedData.error);
    }
    var payload := uncompressedData.value;

    if saveType.value == DoubleZlib {
      if compressedLen != |payload| {
        assert expected == Failed(IntermediateLengthMismatch(compressedLen, |payload|));
        return Failed(IntermediateLengthMismatch(compressedLen, |payload|));
      }
      uncompressedData := Decompress(zlib, payload);
      if uncompressedData.Failed? {
        assert expected == Failed(uncompressedData.error);
        return Failed(uncompressedData.error);
      }
      payload := uncompressedData.value;
    }
    assert expected == Done(payload);

    if uncompressedLen != |payload| {
      return Failed(FinalLengthMismatch(uncompressedLen, |payload|));
    }
    return Done(GvasObject(payload, saveType.value, MagicBytes(magicInt)));
  }

  /** The save type byte is the last byte of the magic int's encoding; the marker is the other three, reversed. */
  lemma MagicIntBytes(b: seq<JByte>)
    requires |b| == 4
    ensures TypeByte(LittleEndianInt(b)) == b[3]
    ensures MagicBytes(LittleEndianInt(b)) == [b[2], b[1], b[0]]
  {
    LittleEndianIntBytes(b);
    ToByteOfByte(b[3]);
  }

  /** Fewer than 12 bytes fail in the header, whatever the inflater would do. */
  lemma ShortInputFails(zlib: seq<JByte> -> Inflation, data: seq<JByte>)
    requires |data| < 12
    ensures Decode(zlib, data) == Failed(BufferUnderflow)
  {
  }

  /**
   * A type byte other than 0x31 and 0x32 fails before anything is inflated:
   * the outcome is the same whatever the inflater does.
   */
  lemma UnknownSaveTypeFailsBeforeInflating(zlib: seq<JByte> -> Inflation, other: seq<JByte> -> Inflation,
                                             data: seq<JByte>)
    requires |data| >= 12 && data[11] != 0x31 && data[11] != 0x32
    ensures Decode(zlib, data) == Decode(other, data) == Failed(UnknownSaveType(data[11]))
  {
    MagicIntBytes(data[8..12]);
    LookupValues(data[11]);
  }

  /**
   * Single zlib: decoding succeeds exactly when inflating the bytes after the
   * header succeeds with as many bytes as the first header int declares, and
   * then returns those bytes; the compressed length is not looked at.
   */
  lemma SingleZlibDecoding(zlib: seq<JByte> -> Inflation, data: seq<JByte>)
    requires |data| >= 12 && data[11] == 0x31
    ensures Decode(zlib, data).Done?
        <==> zlib(data[12..]).Inflated? && |zlib(data[12..]).output| == LittleEndianInt(data[0..4])
    ensures Decode(zlib, data).Done? ==>
              Decode(zlib, data).value == GvasObject(zlib(data[12..]).output, SingleZlib, [data[10], data[9], data[8]])
  {
    MagicIntBytes(data[8..12]);
    LookupValues(data[11]);
  }

  /**
   * Double zlib: decoding succeeds exactly when the first inflate succeeds
   * with as many bytes as the second header int declares, inflating those
   * succeeds with as many bytes as the first header int declares, and then
   * returns the second result.
   */
  lemma DoubleZlibDecoding(zlib: seq<JByte> -> Inflation, data: seq<JByte>)
    requires |data| >= 12 && data[11] == 0x32
    ensures Decode(zlib, data).Done?
        <==> && zlib(data[12..]).Inflated?
             && |zlib(data[12..]).output| == LittleEndianInt(data[4..8])
             && zlib(zlib(data[12..]).output).Inflated?
             && |zlib(zlib(data[12..]).output).output| == LittleEndianInt(data[0..4])
    ensures Decode(zlib, data).Done? ==>
              Decode(zlib, data).value
              == GvasObject(zlib(zlib(data[12..]).output).output, DoubleZlib, [data[10], data[9], data[8]])
  {
    MagicIntBytes(data[8..12]);
    LookupValues(data[11]);
  }

  /** For single zlib the compressed-length field (bytes 4 to 7) has no effect at all. */
  lemma SingleZlibIgnoresCompressedLength(zlib: seq<JByte> -> Inflation, data: seq<JByte>, other: seq<JByte>)
    requires |data| == |other| >= 12 && data[11] == 0x31
    requires forall i :: 0 <= i < |data| && !(4 <= i < 8) ==> data[i] == other[i]
    ensures Decode(zlib, data) == Decode(zlib, other)
  {
    assert data[0..4] == other[0..4];
    assert data[8..12] == other[8..12];
    assert data[12..] == other[12..];
    MagicIntBytes(data[8..12]);
    LookupValues(data[11]);
    var h, h' := ReadHeader(data).value, ReadHeader(other).value;
    assert h' == h.(compressedLen := h'.compressedLen);
    assert Payload(zlib, SingleZlib, h.compressedLen, data[12..]) == Payload(zlib, SingleZlib, h'.compressedLen, data[12..]);
  }

  /**
   * The low three bytes of the magic int (bytes 8 to 10) only ever end up in
   * the marker: they change neither the save type nor whether decoding
   * succeeds, and on success only `magicBytes` differs.
   */
  lemma MarkerDoesNotAffectDecoding(zlib: seq<JByte> -> Inflation, data: seq<JByte>, other: seq<JByte>)
    requires |data| == |other| >= 12
    requires forall i :: 0 <= i < |data| && !(8 <= i < 11) ==> data[i] == other[i]
    ensures Decode(zlib, data).Done? <==> Decode(zlib, other).Done?
    ensures !Decode(zlib, data).Done? ==> Decode(zlib, other) == Decode(zlib, data)
    ensures Decode(zlib, data).Done? ==>
              Decode(zlib, other).value == Decode(zlib, data).value.(magicBytes := [other[10], other[9], other[8]])
  {
    MagicIntBytes(data[8..12]);
    MagicIntBytes(other[8..12]);
    assert data[0..4] == other[0..4];
    assert data[4..8] == other[4..8];
    assert data[12..] == other[12..];
    var h, h' := ReadHeader(data).value, ReadHeader(other).value;
    assert h' == h.(magic := h'.magic);
    assert TypeByte(h.magic) == TypeByte(h'.magic);
    assert Decode(zlib, data) == DecodeBody(zlib, h, data[12..]);
    assert Decode(zlib, other) == DecodeBody(zlib, h', data[12..]);
  }

  /**
   * A length field with its top bit set is a negative Java int, which no byte
   * count can equal: such a file never decodes. For double zlib this holds
   * for the compressed length too.
   */
  lemma NegativeLengthNeverDecodes(zlib: seq<JByte> -> Inflation, data: seq<JByte>)
    requires |data| >= 12
    requires data[3] < 0 || (data[11] == 0x32 && data[7] < 0)
    ensures !Decode(zlib, data).Done?
  {
    LittleEndianIntDigits(data[0..4]);
    LittleEndianIntDigits(data[4..8]);
    if data[11] == 0x32 {
      DoubleZlibDecoding(zlib, data);
    } else if data[11] == 0x31 {
      SingleZlibDecoding(zlib, data);
    } else {
      UnknownSaveTypeFailsBeforeInflating(zlib, zlib, data);
    }
  }

  /**
   * Whatever decodes has a full header; its payload is as long as the first
   * header int declares, its save type is the one byte 11 names, and its
   * marker is bytes 10, 9 and 8.
   */
  lemma DecodedAgreesWithHeader(zlib: seq<JByte> -> Inflation, data: seq<JByte>)
    requires Decode(zlib, data).Done?
    ensures |data| >= 12
    ensures |Decode(zlib, data).value.uncompressedData| == LittleEndianInt(data[0..4])
    ensures Decode(zlib, data).value.saveType.GetValue() == data[11]
    ensures Decode(zlib, data).value.magicBytes == [data[10], data[9], data[8]]
  {
    MagicIntBytes(data[8..12]);
    var saveType := Decode(zlib, data).value.saveType;
    assert Lookup(Values(), data[11]) == Some(saveType);
  }

  /**
   * A file written as three little-endian ints and a body reads back as
   * exactly that header, with exactly that body passed to the first inflate.
   */
  lemma HeaderLayout(uncompressedLen: I32, compressedLen: I32, magic: I32, body: seq<JByte>)
    ensures var data := LittleEndianBytes(uncompressedLen) + LittleEndianBytes(compressedLen)
                        + LittleEndianBytes(magic) + body;
            ReadHeader(data) == Some(Header(uncompressedLen, compressedLen, magic)) && data[12..] == body
  {
    var data := LittleEndianBytes(uncompressedLen) + LittleEndianBytes(compressedLen)
                + LittleEndianBytes(magic) + body;
    assert data[0..4] == LittleEndianBytes(uncompressedLen);
    assert data[4..8] == LittleEndianBytes(compressedLen);
    assert data[8..12] == LittleEndianBytes(magic);
    IntRoundTrip(uncompressedLen);
    IntRoundTrip(compressedLen);
    IntRoundTrip(magic);
  }

  /**
   * Magic 0x31AABBCC selects single zlib and yields the marker bytes 0xAA,
   * 0xBB, 0xCC, whatever the rest of the file; a file with that magic that
   * decodes carries both in its result.
   */
  lemma MagicExample(zlib: seq<JByte> -> Inflation, uncompressedLen: I32, compressedLen: I32, body: seq<JByte>)
    ensures Lookup(Values(), TypeByte(0x31AA_BBCC)) == Some(SingleZlib)
    ensures MagicBytes(0x31AA_BBCC) == [ToByte(0xAA), ToByte(0xBB), ToByte(0xCC)]
    ensures var data := LittleEndianBytes(uncompressedLen) + LittleEndianBytes(compressedLen)
                        + LittleEndianBytes(0x31AA_BBCC) + body;
            Decode(zlib, data).Done? ==>
              && Decode(zlib, data).value.saveType == SingleZlib
              && Decode(zlib, data).value.magicBytes == [ToByte(0xAA), ToByte(0xBB), ToByte(0xCC)]
  {
    HeaderLayout(uncompressedLen, compressedLen, 0x31AA_BBCC, body);
    Pow2Constants();
    assert TypeByte(0x31AA_BBCC) == 0x31;
    LookupValues(0x31);
  }
}

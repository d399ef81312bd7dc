/** PacketType101: a batch of time-series samples.
      bytes 0-1          Int16    TypeID (101)
      bytes 2-5          Int32    Data.Count
      bytes 6 + 14i ...  14 bytes Data[i], a PacketType101DataPoint
    Lengths and offsets are computed in unchecked Int32 arithmetic, as the
    source does. */
module Packet101 {
  import opened Wrappers
  import opened LittleEndian
  import opened Historian

  const TypeID: int16 := 101
  const HeaderLength: int := 6
  /** PacketType101DataPoint.FixedLength. */
  const RecordLength: int := 14

  /** 2 + 4 + count * 14 in Int32 arithmetic: BinaryLength of a batch of
      `count` points, and the length the parser demands once a header
      announces `count` points. */
  function ImageLength(count: int): (n: int32)
    ensures 0 <= count && HeaderLength + RecordLength * count < 0x8000_0000
      ==> n == HeaderLength + RecordLength * count
  {
    Int32(HeaderLength + Int32(count * RecordLength))
  }

  /** startIndex + 6 + i * 14 in Int32 arithmetic: where record i starts. */
  function RecordOffset(startIndex: int, i: int): (offset: int32)
    ensures 0 <= startIndex && 0 <= i && startIndex + HeaderLength + RecordLength * i < 0x8000_0000
      ==> offset == startIndex + HeaderLength + RecordLength * i
  {
    Int32(Int32(startIndex + HeaderLength) + Int32(i * RecordLength))
  }

  /** What the parser's loop gets in round i: the record decoded at
      RecordOffset(startIndex, i), told that `length - offset` bytes are
      valid (also in Int32 arithmetic). */
  function Rounds(codec: RecordCodec, buffer: seq<byte>, startIndex: int, length: int): nat -> Result<DataPoint, Error> {
    i => var offset := RecordOffset(startIndex, i); codec.decode(buffer, offset, Int32(length - offset))
  }

  /** The records the parser's loop appends in its first n rounds, and the
      exception that ended the loop early, if any. */
  function DecodeRecords(round: nat -> Result<DataPoint, Error>, n: nat): (res: (seq<DataPoint>, Option<Error>))
    ensures |res.0| <= n
    ensures res.1.None? ==> |res.0| == n
  {
    if n == 0 then ([], None)
    else
      var (points, error) := DecodeRecords(round, n - 1);
      if error.Some? then (points, error)
      else
        match round(n - 1)
        case Success(p) => (points + [p], None)
        case Failure(e) => (points, Some(e))
  }

  /** The points are the records of the first rounds, in order; when the
      loop stopped early, the round after them is the one that failed. */
  lemma {:induction false} DecodedInOrder(round: nat -> Result<DataPoint, Error>, n: nat)
    ensures var (points, error) := DecodeRecords(round, n);
      && (forall i: nat :: i < |points| ==> round(i) == Success(points[i]))
      && (error.Some? ==> round(|points|) == Failure(error.value))
  {
    if n > 0 {
      DecodedInOrder(round, n - 1);
    }
  }

  /** Once a round has failed, later rounds change nothing. */
  lemma {:induction false} DecodeStops(round: nat -> Result<DataPoint, Error>, i: nat, n: nat)
    requires i <= n && DecodeRecords(round, i).1.Some?
    ensures DecodeRecords(round, n) == DecodeRecords(round, i)
  {
    if i < n {
      DecodeStops(round, i, n - 1);
    }
  }

  /** When each of the first n rounds yields the matching point, the loop's
      first n rounds collect exactly those points. */
  lemma {:induction false} DecodeAll(round: nat -> Result<DataPoint, Error>, points: seq<DataPoint>, n: nat)
    requires n <= |points|
    requires forall i: nat :: i < n ==> round(i) == Success(points[i])
    ensures DecodeRecords(round, n) == (points[..n], None)
  {
    if n > 0 {
      DecodeAll(round, points, n - 1);
      assert points[..n] == points[..n - 1] + [points[n - 1]];
    }
  }

  /** ParseBinaryImage: the new Data and the outcome (bytes consumed, or the
      exception raised) of parsing `length` valid bytes at startIndex. */
  function ParseImage(data: seq<DataPoint>, codec: RecordCodec, buffer: seq<byte>, startIndex: int, length: int)
    : (res: (seq<DataPoint>, Result<int, Error>))
    requires length >= HeaderLength ==> 0 <= startIndex && startIndex + HeaderLength <= |buffer|
    // No header yet: nothing consumed, Data untouched.
    ensures length < HeaderLength ==> res == (data, Success(0))
    // A wrong type id is refused and Data is untouched.
    ensures length >= HeaderLength && ToInt16(buffer, startIndex) != TypeID
      ==> res == (data, Failure(PacketIDMismatch(ToInt16(buffer, startIndex))))
    // A header whose records have not all arrived: nothing consumed, Data untouched.
    ensures length >= HeaderLength && ToInt16(buffer, startIndex) == TypeID
         && length < ImageLength(ToInt32(buffer, startIndex + 2))
      ==> res == (data, Success(0))
    // Otherwise Data is replaced by the records decoded before the first
    // failing one, and success means all `count` of them were decoded.
    ensures length >= HeaderLength && ToInt16(buffer, startIndex) == TypeID
         && length >= ImageLength(ToInt32(buffer, startIndex + 2))
      ==> var count := ToInt32(buffer, startIndex + 2);
          && |res.0| <= (if count < 0 then 0 else count)
          && (res.1.Success? ==> |res.0| == (if count < 0 then 0 else count) && res.1.value == ImageLength(|res.0|))
  {
    if length < HeaderLength then (data, Success(0))
    else
      var packetID := ToInt16(buffer, startIndex);
      if packetID != TypeID then (data, Failure(PacketIDMismatch(packetID)))
      else
        var dataCount := ToInt32(buffer, startIndex + 2);
        if length < ImageLength(dataCount) then (data, Success(0))
        else
          var (points, error) := DecodeRecords(Rounds(codec, buffer, startIndex, length), if dataCount < 0 then 0 else dataCount);
          match error
          case Some(e) => (points, Failure(e))
          case None => (points, Success(ImageLength(|points|)))
  }

  /** Where no Int32 operation overflows, round i decodes the record at
      startIndex + 6 + 14i, told that length minus that offset bytes are
      valid. */
  lemma RoundAt(codec: RecordCodec, buffer: seq<byte>, startIndex: int, length: int, i: nat)
    requires 0 <= startIndex && startIndex + HeaderLength + RecordLength * i < 0x8000_0000
    requires 0 <= length < 0x8000_0000
    ensures var offset := startIndex + HeaderLength + RecordLength * i;
      Rounds(codec, buffer, startIndex, length)(i) == codec.decode(buffer, offset, length - offset)
  {
    var offset := startIndex + HeaderLength + RecordLength * i;
    assert RecordOffset(startIndex, i) == offset;
    assert Int32(length - offset) == length - offset;
  }

  /** Once the header is accepted, Data is whatever the loop collected and
      the outcome is its exception, or the new BinaryLength. */
  lemma ParseDecodes(data: seq<DataPoint>, codec: RecordCodec, buffer: seq<byte>, startIndex: int, length: int)
    requires 0 <= startIndex && HeaderLength <= length && startIndex + HeaderLength <= |buffer|
    requires ToInt16(buffer, startIndex) == TypeID
    requires length >= ImageLength(ToInt32(buffer, startIndex + 2))
    ensures var count := ToInt32(buffer, startIndex + 2);
      var (points, error) := DecodeRecords(Rounds(codec, buffer, startIndex, length), if count < 0 then 0 else count);
      ParseImage(data, codec, buffer, startIndex, length)
      == (points, if error.Some? then Failure(error.value) else Success(ImageLength(|points|)))
  {
  }

  /** A complete, well-formed batch: Data becomes exactly `count` records,
      record i decoded from offset startIndex + 6 + 14i in order, and the
      parser returns the new BinaryLength, 6 + 14 * count. */
  lemma {:induction false} ParseComplete(data: seq<DataPoint>, codec: RecordCodec, buffer: seq<byte>, startIndex: int, length: int)
    requires 0 <= startIndex && HeaderLength <= length && startIndex + length <= |buffer| < 0x8000_0000
    requires ToInt16(buffer, startIndex) == TypeID
    requires var count := ToInt32(buffer, startIndex + 2);
      0 <= count && HeaderLength + RecordLength * count <= length
    requires ParseImage(data, codec, buffer, startIndex, length).1.Success?
    ensures var count := ToInt32(buffer, startIndex + 2);
      var (points, r) := ParseImage(data, codec, buffer, startIndex, length);
      && |points| == count
      && r == Success(HeaderLength + RecordLength * count)
      && forall i :: 0 <= i < count ==>
           var offset := startIndex + HeaderLength + RecordLength * i;
           codec.decode(buffer, offset, length - offset) == Success(points[i])
  {
    var count := ToInt32(buffer, startIndex + 2);
    DecodedInOrder(Rounds(codec, buffer, startIndex, length), count);
    var points := ParseImage(data, codec, buffer, startIndex, length).0;
    forall i | 0 <= i < count
      ensures codec.decode(buffer, startIndex + HeaderLength + RecordLength * i,
                           length - (startIndex + HeaderLength + RecordLength * i)) == Success(points[i])
    {
      RoundAt(codec, buffer, startIndex, length, i);
    }
  }

  /** A header announcing a negative count (down to -153391689, where
      count * 14 still fits an Int32) passes the completeness check: Data is
      cleared and the parser reports 6 bytes consumed. */
  lemma NegativeCountClears(data: seq<DataPoint>, codec: RecordCodec, buffer: seq<byte>, startIndex: int, length: int)
    requires 0 <= startIndex && HeaderLength <= length && startIndex + HeaderLength <= |buffer|
    requires ToInt16(buffer, startIndex) == TypeID
    requires -153391689 <= ToInt32(buffer, startIndex + 2) < 0
    ensures ParseImage(data, codec, buffer, startIndex, length) == ([], Success(HeaderLength))
  {
  }

  /** The records' images, one after the other. */
  function Records(codec: RecordCodec, points: seq<DataPoint>): (b: seq<byte>)
    ensures |b| == RecordLength * |points|
  {
    if points == [] then [] else Records(codec, points[..|points| - 1]) + codec.encode(points[|points| - 1])
  }

  lemma {:induction false} RecordAt(codec: RecordCodec, points: seq<DataPoint>, i: int)
    requires 0 <= i < |points|
    ensures Records(codec, points)[RecordLength * i..RecordLength * i + RecordLength] == codec.encode(points[i])
  {
    var n := |points| - 1;
    var front := points[..n];
    assert Records(codec, points) == Records(codec, front) + codec.encode(points[n]);
    if i < n {
      RecordAt(codec, front, i);
      assert Records(codec, points)[RecordLength * i..RecordLength * i + RecordLength]
          == Records(codec, front)[RecordLength * i..RecordLength * i + RecordLength];
    }
  }

  /** The binary image GenerateBinaryImage writes. */
  function Image(codec: RecordCodec, points: seq<DataPoint>): (b: seq<byte>)
    requires |points| < 0x8000_0000
    ensures |b| == HeaderLength + RecordLength * |points|
  {
    GetBytes16(TypeID) + GetBytes32(|points|) + Records(codec, points)
  }

  /** The header of the image reads back as the type id and the count. */
  lemma ImageHeader(codec: RecordCodec, points: seq<DataPoint>)
    requires |points| < 0x8000_0000
    ensures ToInt16(Image(codec, points), 0) == TypeID && ToInt32(Image(codec, points), 2) == |points|
  {
    var b := Image(codec, points);
    ToInt16OfGetBytes(TypeID);
    ToInt32OfGetBytes(|points|);
    assert b[0..2] == GetBytes16(TypeID)[0..2];
    assert b[2..6] == GetBytes32(|points|)[0..4];
  }

  /** Record i of the image stands at 6 + 14i. */
  lemma ImageRecordAt(codec: RecordCodec, points: seq<DataPoint>, i: int)
    requires |points| < 0x8000_0000 && 0 <= i < |points|
    ensures var offset := HeaderLength + RecordLength * i;
      Image(codec, points)[offset..offset + RecordLength] == codec.encode(points[i])
  {
    RecordAt(codec, points, i);
    var header := GetBytes16(TypeID) + GetBytes32(|points|);
    assert Image(codec, points) == header + Records(codec, points);
    assert |header| == HeaderLength;
  }

  /** Record i of a generated image standing at startIndex decodes back to
      points[i] when the decoder is told `length - offset` valid bytes. */
  lemma RecordDecodes(points: seq<DataPoint>, codec: RecordCodec, buffer: seq<byte>, startIndex: int, length: int, i: int)
    requires 6 + 14 * |points| < 0x8000_0000 && 0 <= i < |points|
    requires 0 <= startIndex && startIndex + length <= |buffer| < 0x8000_0000
    requires startIndex + |Image(codec, points)| <= length
    requires buffer[startIndex..startIndex + |Image(codec, points)|] == Image(codec, points)
    requires ReadsBack(codec, points[i])
    ensures Rounds(codec, buffer, startIndex, length)(i) == Success(points[i])
  {
    var lo := HeaderLength + RecordLength * i;
    var offset := startIndex + lo;
    RoundAt(codec, buffer, startIndex, length, i);
    ImageRecordAt(codec, points, i);
    WindowSlice(buffer, startIndex, Image(codec, points), lo, lo + RecordLength);
    assert buffer[offset..offset + RecordLength] == codec.encode(points[i]);
  }

  /** Round trip: parsing a generated batch (into any packet) yields the same
      count and the same points in the same order, provided each record
      reads back. Because every record is told `length - offset` valid bytes,
      with offset counted from the start of the buffer and not from
      startIndex, the available length must reach startIndex + BinaryLength
      for the last record to be told it has its 14 bytes. */
  lemma ParseOfImage(points: seq<DataPoint>, data: seq<DataPoint>, codec: RecordCodec, buffer: seq<byte>, startIndex: int, length: int)
    requires 6 + 14 * |points| < 0x8000_0000
    requires 0 <= startIndex && startIndex + length <= |buffer| < 0x8000_0000
    requires startIndex + |Image(codec, points)| <= length
    requires buffer[startIndex..startIndex + |Image(codec, points)|] == Image(codec, points)
    requires forall i :: 0 <= i < |points| ==> ReadsBack(codec, points[i])
    ensures ParseImage(data, codec, buffer, startIndex, length) == (points, Success(ImageLength(|points|)))
  {
    var img := Image(codec, points);
    ImageHeader(codec, points);
    WindowSlice(buffer, startIndex, img, 0, 2);
    WindowSlice(buffer, startIndex, img, 2, 6);
    assert ToInt16(buffer, startIndex) == ToInt16(img, 0);
    assert ToInt32(buffer, startIndex + 2) == ToInt32(img, 2) == |points|;
    var round := Rounds(codec, buffer, startIndex, length);
    forall i: nat | i < |points|
      ensures round(i) == Success(points[i])
    {
      RecordDecodes(points, codec, buffer, startIndex, length, i);
    }
    DecodeAll(round, points, |points|);
    assert points[..|points|] == points;
  }

  /** The record loop of ParseBinaryImage: count rounds (none when count is
      negative), each appending the record it decodes, until a record raises
      an exception. */
  method ReadRecords(round: nat -> Result<DataPoint, Error>, count: int32)
    returns (points: seq<DataPoint>, error: Option<Error>)
    ensures (points, error) == DecodeRecords(round, if count < 0 then 0 else count)
  {
    ghost var rounds: nat := if count < 0 then 0 else count;
    points := [];
    var i := 0;
    while i < count
      invariant 0 <= i <= rounds
      invariant DecodeRecords(round, i) == (points, None)
    {
      var record := round(i);
      if record.Failure? {
        DecodeStops(round, i + 1, rounds);
        return points, Some(record.error);
      }
      points := points + [record.value];
      i := i + 1;
    }
    return points, None;
  }

  /** The bytes after the first i records have been written behind
      prefix, over rest. */
  ghost function PartlyWritten(codec: RecordCodec, data: seq<DataPoint>, i: int, prefix: seq<byte>, rest: seq<byte>): seq<byte>
    requires 0 <= i <= |data| && RecordLength * |data| <= |rest|
  {
    prefix + Records(codec, data[..i]) + rest[RecordLength * i..]
  }

  /** One round of GenerateBinaryImage's record loop: writing record i
      behind the first i records extends them by one. */
  lemma RecordWritten(codec: RecordCodec, data: seq<DataPoint>, i: int, prefix: seq<byte>, rest: seq<byte>, cur: seq<byte>, next: seq<byte>)
    requires 0 <= i < |data| && RecordLength * |data| <= |rest|
    requires cur == PartlyWritten(codec, data, i, prefix, rest)
    requires var offset := |prefix| + RecordLength * i;
      next == cur[..offset] + codec.encode(data[i]) + cur[offset + RecordLength..]
    ensures next == PartlyWritten(codec, data, i + 1, prefix, rest)
  {
    var done := prefix + Records(codec, data[..i]);
    var tail := rest[RecordLength * i..];
    assert cur == done + tail;
    Splice(done, tail, codec.encode(data[i]));
    assert data[..i + 1][..i] == data[..i];
    assert Records(codec, data[..i + 1]) == Records(codec, data[..i]) + codec.encode(data[i]);
    assert tail[RecordLength..] == rest[RecordLength * (i + 1)..];
  }

  /** Before the loop nothing is written; after it, all of data is. */
  lemma WrittenEnds(codec: RecordCodec, data: seq<DataPoint>, prefix: seq<byte>, rest: seq<byte>)
    requires RecordLength * |data| <= |rest|
    ensures PartlyWritten(codec, data, 0, prefix, rest) == prefix + rest
    ensures PartlyWritten(codec, data, |data|, prefix, rest) == prefix + Records(codec, data) + rest[RecordLength * |data|..]
  {
    assert data[..0] == [];
    assert data[..|data|] == data;
  }

  /** The two header fields, written in turn over `before`. */
  lemma HeaderWritten(before: seq<byte>, startIndex: int, id: seq<byte>, count: seq<byte>, middle: seq<byte>, headed: seq<byte>)
    requires |id| == 2 && |count| == 4 && 0 <= startIndex && startIndex + HeaderLength <= |before|
    requires middle == before[..startIndex] + id + before[startIndex + 2..]
    requires headed == middle[..startIndex + 2] + count + middle[startIndex + HeaderLength..]
    ensures headed == before[..startIndex] + id + count + before[startIndex + HeaderLength..]
  {
    var front := before[..startIndex];
    var rest2 := before[startIndex + 2..];
    assert middle == (front + id) + rest2;
    assert middle[..startIndex + 2] == front + id;
    assert middle[startIndex + HeaderLength..] == rest2[4..] == before[startIndex + HeaderLength..];
  }

  /** Bytes written behind a freshly written header extend it. */
  lemma WrittenBehind(before: seq<byte>, startIndex: int, header: seq<byte>, body: seq<byte>, headed: seq<byte>, after: seq<byte>)
    requires 0 <= startIndex && startIndex + |header| + |body| <= |before|
    requires headed == before[..startIndex] + header + before[startIndex + |header|..]
    requires after == headed[..startIndex + |header|] + body + headed[startIndex + |header| + |body|..]
    ensures after == before[..startIndex] + (header + body) + before[startIndex + |header| + |body|..]
  {
    var front := before[..startIndex] + header;
    var rest := before[startIndex + |header|..];
    assert headed == front + rest;
    assert headed[..startIndex + |header|] == front;
    assert headed[startIndex + |header| + |body|..] == rest[|body|..];
  }

  /** The records written behind the header complete the image of the
      batch. */
  lemma ImageWritten(codec: RecordCodec, data: seq<DataPoint>, before: seq<byte>, startIndex: int, headed: seq<byte>, after: seq<byte>)
    requires HeaderLength + RecordLength * |data| < 0x8000_0000
    requires 0 <= startIndex && startIndex + HeaderLength + RecordLength * |data| <= |before|
    requires headed == before[..startIndex] + GetBytes16(TypeID) + GetBytes32(|data|) + before[startIndex + HeaderLength..]
    requires var offset := startIndex + HeaderLength;
      after == headed[..offset] + Records(codec, data) + headed[offset + RecordLength * |data|..]
    ensures after == before[..startIndex] + Image(codec, data) + before[startIndex + HeaderLength + RecordLength * |data|..]
  {
    var header := GetBytes16(TypeID) + GetBytes32(|data|);
    assert headed == before[..startIndex] + header + before[startIndex + |header|..];
    WrittenBehind(before, startIndex, header, Records(codec, data), headed, after);
  }

  /** The record loop of GenerateBinaryImage: each point's record image,
      written in turn from offset on. */
  method WriteRecords(codec: RecordCodec, data: seq<DataPoint>, buffer: array<byte>, offset: int)
    requires 0 <= offset && offset + RecordLength * |data| <= buffer.Length
    modifies buffer
    ensures buffer[..] == old(buffer[..offset]) + Records(codec, data) + old(buffer[offset + RecordLength * |data|..])
  {
    ghost var prefix := buffer[..offset];
    ghost var rest := buffer[offset..];
    WrittenEnds(codec, data, prefix, rest);
    var i := 0;
    while i < |data|
      invariant 0 <= i <= |data|
      invariant buffer[..] == PartlyWritten(codec, data, i, prefix, rest)
    {
      ghost var cur := buffer[..];
      BlockCopy(codec.encode(data[i]), buffer, offset + i * RecordLength);
      RecordWritten(codec, data, i, prefix, rest, cur, buffer[..]);
      i := i + 1;
    }
    assert rest[RecordLength * |data|..] == old(buffer[offset + RecordLength * |data|..]);
  }

  /** The batch packet; Data is the list ParseBinaryImage clears and refills
      in place. */
  class PacketType101 {
    var data: seq<DataPoint>
    var ackArmed: bool
    var archive: Archive?

    /** The parameterless constructor: an empty batch whose PreProcessHandler
        is set from the start. */
    constructor ()
      ensures data == [] && ackArmed && archive == null
    {
      data := [];
      ackArmed := true;
      archive := null;
    }

    /** The constructor from a collection of data points: one record per
        point, in order. */
    constructor FromDataPoints(points: seq<DataPoint>)
      ensures data == points && ackArmed && archive == null
    {
      data := [];
      ackArmed := true;
      archive := null;
      new;
      for i := 0 to |points|
        invariant data == points[..i] && ackArmed && archive == null
      {
        data := data + [points[i]];
      }
    }

    function BinaryLength(): (n: int32)
      reads this
      ensures HeaderLength + RecordLength * |data| < 0x8000_0000 ==> n == HeaderLength + RecordLength * |data|
    {
      ImageLength(|data|)
    }

    method ParseBinaryImage(codec: RecordCodec, buffer: array?<byte>, startIndex: int, length: int)
      returns (r: Result<int, Error>)
      requires length >= HeaderLength ==> buffer != null && 0 <= startIndex && startIndex + HeaderLength <= buffer.Length
      modifies this
      ensures (data, r) == ParseImage(old(data), codec, if buffer == null then [] else buffer[..], startIndex, length)
      ensures ackArmed == old(ackArmed) && archive == old(archive)
    {
      if length < HeaderLength {
        return Success(0);
      }
      var bytes := buffer[..];
      var packetID := ToInt16(bytes, startIndex);
      if packetID != TypeID {
        return Failure(PacketIDMismatch(packetID));
      }
      var dataCount := ToInt32(bytes, startIndex + 2);
      if length < ImageLength(dataCount) {
        return Success(0);
      }
      ParseDecodes(old(data), codec, bytes, startIndex, length);
      var points, error := ReadRecords(Rounds(codec, bytes, startIndex, length), dataCount);
      data := points;
      if error.Some? {
        return Failure(error.value);
      }
      return Success(BinaryLength());
    }

    method GenerateBinaryImage(codec: RecordCodec, buffer: array?<byte>, startIndex: int)
      returns (r: Result<int, Error>)
      requires HeaderLength + RecordLength * |data| < 0x8000_0000
      modifies buffer
      ensures r == (match ValidateParameters(buffer, startIndex, BinaryLength())
                    case Pass => Success(BinaryLength())
                    case Fail(e) => Failure(e))
      ensures buffer != null && r.Failure? ==> buffer[..] == old(buffer[..])
      ensures buffer != null && r.Success? ==>
        buffer[..] == old(buffer[..startIndex]) + Image(codec, data) + old(buffer[startIndex + BinaryLength()..])
    {
      var length := BinaryLength();
      var check := ValidateParameters(buffer, startIndex, length);
      if check.Fail? {
        return Failure(check.error);
      }
      ghost var before := buffer[..];
      BlockCopy(GetBytes16(TypeID), buffer, startIndex);
      ghost var middle := buffer[..];
      BlockCopy(GetBytes32(|data|), buffer, startIndex + 2);
      ghost var headed := buffer[..];
      HeaderWritten(before, startIndex, GetBytes16(TypeID), GetBytes32(|data|), middle, headed);
      WriteRecords(codec, data, buffer, startIndex + 6);
      ImageWritten(codec, data, before, startIndex, headed, buffer[..]);
      return Success(length);
    }

    /** The points handed to the archive: Data, in order. */
    function ExtractTimeSeriesData(): (points: seq<DataPoint>)
      reads this
      ensures |points| == |data|
      ensures forall i :: 0 <= i < |data| ==> points[i] == data[i]
    {
      data
    }

    /** Without an archive nothing happens; otherwise every extracted point is
        written to it, in order. No response buffers are returned. */
    method Process()
      modifies archive
      ensures archive != null ==> archive.written == old(archive.written) + ExtractTimeSeriesData()
    {
      if archive == null {
        return;
      }
      var points := ExtractTimeSeriesData();
      for i := 0 to |points|
        invariant archive.written == old(archive.written) + points[..i]
      {
        archive.WriteData(points[i]);
      }
    }

    /** The response of the PreProcessHandler, which the constructors set. */
    function PreProcess(): (r: Option<seq<seq<byte>>>)
      reads this
      ensures r.Some? <==> ackArmed
      ensures r.Some? ==> r.value == AckResponse()
    {
      if ackArmed then Some(AckResponse()) else None
    }
  }
}

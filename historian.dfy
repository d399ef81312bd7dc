/** What the three packet types share: the errors they raise, the
    time-series sample, the TimeTag bounds, the collaborators whose code is
    not part of this model (the floating-point conversions, the 14-byte
    PacketType101DataPoint record, the archive), Buffer.BlockCopy, the
    parameter check of GenerateBinaryImage and the "ACK" acknowledgement. */
module Historian {
  import opened Wrappers
  import opened LittleEndian

  /** The exceptions the packets raise, one constructor per cause. */
  datatype Error =
    | PacketIDMismatch(packetID: int)  // ArgumentException: unexpected packet id
    | HistorianIDNotPositive           // ArgumentException from the HistorianID setter
    | TimeOutOfRange                   // ArgumentException from the Time setter
    | TimeNotRepresentable             // OverflowException of the double-to-decimal cast
    | BufferNull                       // ArgumentNullException from ValidateParameters
    | RangeOutOfBounds                 // ArgumentOutOfRangeException from ValidateParameters

  type Bytes4 = b: seq<byte> | |b| == 4 witness [0, 0, 0, 0]
  type Bytes8 = b: seq<byte> | |b| == 8 witness [0, 0, 0, 0, 0, 0, 0, 0]
  type Bytes14 = b: seq<byte> | |b| == 14 witness [0, 0, 0, 0, 0, 0, 0, 0, 0, 0, 0, 0, 0, 0]

  /** TimeTag.MinValue and TimeTag.MaxValue, in decimal seconds since
      01/01/1995: the first and the last instant the Time setter accepts. */
  const MinTime: real := 0.0
  const MaxTime: real := 2147483647.999

  /** The Time setter's check; both bounds are accepted. */
  predicate InTimeRange(t: real) {
    MinTime <= t <= MaxTime
  }

  /** One time-series sample (IDataPoint / ArchiveDataPoint). The value is a
      single-precision float, kept as its 4-byte little-endian image. */
  datatype DataPoint = DataPoint(historianID: int32, time: real, value: Bytes4, quality: int32)

  /** The floating-point conversions of the Time field. toDecimal is
      (decimal)LittleEndian.ToDouble of an 8-byte image; None stands for the
      OverflowException the cast raises for NaN, infinities and values
      beyond decimal's range. toDouble is LittleEndian.GetBytes((double)t). */
  datatype DoubleConversion = DoubleConversion(toDecimal: Bytes8 -> Option<real>, toDouble: real -> Bytes8)

  /** The 14-byte PacketType101DataPoint record. encode is its
      GenerateBinaryImage; decode(buffer, offset, length) is its constructor
      from a buffer, an offset and a "valid number of bytes" argument. */
  datatype RecordCodec = RecordCodec(
    encode: DataPoint -> Bytes14,
    decode: (seq<byte>, int, int) -> Result<DataPoint, Error>)

  /** The record image of p reads back as p, wherever it stands in a buffer,
      as long as the decoder is told that at least 14 bytes are valid. */
  ghost predicate ReadsBack(codec: RecordCodec, p: DataPoint) {
    forall buffer: seq<byte>, offset: int, length: int {:trigger codec.decode(buffer, offset, length)} ::
      0 <= offset && offset + 14 <= |buffer| && buffer[offset..offset + 14] == codec.encode(p) && length >= 14
      ==> codec.decode(buffer, offset, length) == Success(p)
  }

  /** The bytes Encoding.ASCII gives for a string of ASCII characters. */
  function Ascii(s: string): (b: seq<byte>)
    requires forall i :: 0 <= i < |s| ==> s[i] as int < 128
    ensures |b| == |s|
    ensures forall i :: 0 <= i < |s| ==> b[i] == s[i] as int
  {
    if s == [] then [] else [s[0] as int] + Ascii(s[1..])
  }

  /** What every PreProcess returns: one buffer holding the ASCII bytes of
      "ACK". */
  function AckResponse(): (r: seq<seq<byte>>)
    ensures |r| == 1 && r[0] == [0x41, 0x43, 0x4B]
  {
    [Ascii("ACK")]
  }

  /** The argument check ValidateParameters makes before an image of
      `length` bytes is written at startIndex. */
  function ValidateParameters(buffer: array?<byte>, startIndex: int, length: int): (r: Outcome<Error>)
    ensures r.Pass? <==> buffer != null && 0 <= startIndex && 0 <= length && startIndex + length <= buffer.Length
    ensures r.Fail? ==> r.error == (if buffer == null then BufferNull else RangeOutOfBounds)
  {
    if buffer == null then Fail(BufferNull)
    else if startIndex < 0 || length < 0 || startIndex + length > buffer.Length then Fail(RangeOutOfBounds)
    else Pass
  }

  /** Slices of a window are slices of the buffer it was taken from. */
  lemma WindowSlice(buffer: seq<byte>, start: int, window: seq<byte>, lo: int, hi: int)
    requires 0 <= start && start + |window| <= |buffer| && buffer[start..start + |window|] == window
    requires 0 <= lo <= hi <= |window|
    ensures buffer[start + lo..start + hi] == window[lo..hi]
  {
    var a, b := buffer[start + lo..start + hi], window[lo..hi];
    forall k | 0 <= k < |a|
      ensures a[k] == b[k]
    {
      assert a[k] == buffer[start + lo + k] == buffer[start..start + |window|][lo + k];
    }
  }

  /** Overwriting the front of `rest` with `chunk`, behind an untouched
      prefix. */
  lemma Splice(prefix: seq<byte>, rest: seq<byte>, chunk: seq<byte>)
    requires |chunk| <= |rest|
    ensures (prefix + rest)[..|prefix|] + chunk + (prefix + rest)[|prefix| + |chunk|..] == prefix + chunk + rest[|chunk|..]
  {
    assert (prefix + rest)[..|prefix|] == prefix;
    assert (prefix + rest)[|prefix| + |chunk|..] == rest[|chunk|..];
  }

  /** Buffer.BlockCopy of a whole source into dst at dstIndex. */
  method BlockCopy(src: seq<byte>, dst: array<byte>, dstIndex: int)
    requires 0 <= dstIndex && dstIndex + |src| <= dst.Length
    modifies dst
    ensures dst[..] == old(dst[..dstIndex]) + src + old(dst[dstIndex + |src|..])
  {
    forall i | dstIndex <= i < dstIndex + |src| {
      dst[i] := src[i - dstIndex];
    }
  }

  /** The summary that record id has in summaries, or None when there is
      no such record. */
  function SummaryOf(summaries: map<int, seq<byte>>, id: int): (r: Option<seq<byte>>)
    ensures r.Some? <==> id in summaries
    ensures r.Some? ==> r.value == summaries[id]
  {
    if id in summaries then Some(summaries[id]) else None
  }

  /** The archive a packet is processed against: the summaries it answers
      ReadStateDataSummary with, and the log of the points written to it. */
  class Archive {
    const summaries: map<int, seq<byte>>
    var written: seq<DataPoint>

    constructor (summaries: map<int, seq<byte>>)
      ensures this.summaries == summaries && written == []
    {
      this.summaries := summaries;
      written := [];
    }

    /** The summary of record id, or None (a null array) when there is no
        such record. */
    function ReadStateDataSummary(id: int): (r: Option<seq<byte>>)
      ensures r.Some? <==> id in summaries
      ensures r.Some? ==> r.value == summaries[id]
    {
      SummaryOf(summaries, id)
    }

    method WriteData(p: DataPoint)
      modifies this
      ensures written == old(written) + [p]
    {
      written := written + [p];
    }
  }
}

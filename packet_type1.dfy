/** PacketType1: one time-series sample in a fixed 22-byte little-endian
    image.
      bytes  0-1   Int16   TypeID (1)
      bytes  2-5   Int32   HistorianID
      bytes  6-13  Double  Time
      bytes 14-17  Int32   Quality
      bytes 18-21  Single  Value */
module Packet1 {
  import opened Wrappers
  import opened LittleEndian
  import opened Historian

  const TypeID: int16 := 1
  const FixedLength: int := 22

  /** Everything a PacketType1 holds besides its archive. ackArmed records
      whether its PreProcessHandler has been set. */
  datatype Fields = Fields(historianID: int32, time: real, quality: int32, value: Bytes4, ackArmed: bool)

  /** The HistorianID setter: values below 1 are refused and leave every
      field as it was; any other value is stored and nothing else changes. */
  function WithHistorianID(f: Fields, id: int32): (res: (Fields, Outcome<Error>))
    ensures res.1.Pass? <==> id >= 1
    ensures res.1.Fail? ==> res == (f, Fail(HistorianIDNotPositive))
    ensures res.1.Pass? ==> res.0.historianID == id && res.0 == f.(historianID := res.0.historianID)
  {
    if id < 1 then (f, Fail(HistorianIDNotPositive)) else (f.(historianID := id), Pass)
  }

  /** The Time setter: times outside [MinTime, MaxTime] are refused and leave
      every field as it was; both bounds are accepted. */
  function WithTime(f: Fields, t: real): (res: (Fields, Outcome<Error>))
    ensures res.1.Pass? <==> MinTime <= t && t <= MaxTime
    ensures res.1.Fail? ==> res == (f, Fail(TimeOutOfRange))
    ensures res.1.Pass? ==> res.0.time == t && res.0 == f.(time := res.0.time)
  {
    if !InTimeRange(t) then (f, Fail(TimeOutOfRange)) else (f.(time := t), Pass)
  }

  /** The binary image GenerateBinaryImage writes: each field at its fixed
      offset. */
  function Image(f: Fields, conv: DoubleConversion): (b: seq<byte>)
    ensures |b| == FixedLength
    ensures ToInt16(b, 0) == TypeID && ToInt32(b, 2) == f.historianID
    ensures b[6..14] == conv.toDouble(f.time)
    ensures ToInt32(b, 14) == f.quality && b[18..22] == f.value
  {
    var b := GetBytes16(TypeID) + GetBytes32(f.historianID) + conv.toDouble(f.time) + GetBytes32(f.quality) + f.value;
    ToInt16OfGetBytes(TypeID);
    ToInt32OfGetBytes(f.historianID);
    ToInt32OfGetBytes(f.quality);
    assert b[0..2] == GetBytes16(TypeID)[0..2];
    assert b[2..6] == GetBytes32(f.historianID)[0..4];
    assert b[14..18] == GetBytes32(f.quality)[0..4];
    b
  }

  /** The assignments ParseBinaryImage makes once the type id matched, from
      the values read out of the image: the HistorianID setter, the cast and
      setter of Time, then Quality and Value, and the ACK when `exact` (the
      image is all that is available). */
  function AssignFields(f: Fields, conv: DoubleConversion, id: int32, timeImage: Bytes8, quality: int32, value: Bytes4, exact: bool)
    : (res: (Fields, Result<int, Error>))
    ensures id < 1 ==> res == (f, Failure(HistorianIDNotPositive))
    ensures id >= 1 && conv.toDecimal(timeImage).None?
      ==> res == (f.(historianID := id), Failure(TimeNotRepresentable))
    ensures id >= 1 && conv.toDecimal(timeImage).Some? && !InTimeRange(conv.toDecimal(timeImage).value)
      ==> res == (f.(historianID := id), Failure(TimeOutOfRange))
    ensures id >= 1 && conv.toDecimal(timeImage).Some? && InTimeRange(conv.toDecimal(timeImage).value)
      ==> res == (Fields(id, conv.toDecimal(timeImage).value, quality, value, f.ackArmed || exact), Success(FixedLength))
  {
    var (f1, set1) := WithHistorianID(f, id);
    if set1.Fail? then (f1, Failure(set1.error))
    else match conv.toDecimal(timeImage)
      case None => (f1, Failure(TimeNotRepresentable))
      case Some(t) =>
        var (f2, set2) := WithTime(f1, t);
        if set2.Fail? then (f2, Failure(set2.error))
        else (f2.(quality := quality, value := value, ackArmed := f2.ackArmed || exact), Success(FixedLength))
  }

  /** ParseBinaryImage: the new fields and the outcome (bytes consumed, or
      the exception raised) of parsing `length` valid bytes at startIndex. */
  function ParseImage(f: Fields, conv: DoubleConversion, buffer: seq<byte>, startIndex: int, length: int)
    : (res: (Fields, Result<int, Error>))
    requires length >= FixedLength ==> 0 <= startIndex && startIndex + FixedLength <= |buffer|
    // Too few bytes: nothing is consumed and nothing changes.
    ensures length < FixedLength ==> res == (f, Success(0))
    // A wrong type id is refused before any field is assigned.
    ensures length >= FixedLength && ToInt16(buffer, startIndex) != TypeID
      ==> res == (f, Failure(PacketIDMismatch(ToInt16(buffer, startIndex))))
    // A full window is never answered with "need more bytes".
    ensures length >= FixedLength ==> res.1 != Success(0)
    // A HistorianID below 1 is refused by its setter; nothing has changed yet.
    ensures length >= FixedLength && ToInt16(buffer, startIndex) == TypeID
         && ToInt32(buffer, startIndex + 2) < 1
      ==> res == (f, Failure(HistorianIDNotPositive))
    // A Time the cast cannot represent, or one out of range, is refused after
    // the new HistorianID has been stored.
    ensures length >= FixedLength && ToInt16(buffer, startIndex) == TypeID
         && ToInt32(buffer, startIndex + 2) >= 1
         && conv.toDecimal(buffer[startIndex + 6..startIndex + 14]).None?
      ==> res == (f.(historianID := ToInt32(buffer, startIndex + 2)), Failure(TimeNotRepresentable))
    ensures length >= FixedLength && ToInt16(buffer, startIndex) == TypeID
         && ToInt32(buffer, startIndex + 2) >= 1
         && conv.toDecimal(buffer[startIndex + 6..startIndex + 14]).Some?
         && !InTimeRange(conv.toDecimal(buffer[startIndex + 6..startIndex + 14]).value)
      ==> res == (f.(historianID := ToInt32(buffer, startIndex + 2)), Failure(TimeOutOfRange))
    // Success consumes exactly 22 bytes, exactly when every field is acceptable.
    ensures res.1.Success? ==> res.1.value == 0 || res.1.value == FixedLength
    ensures res.1 == Success(FixedLength) <==>
      && length >= FixedLength
      && ToInt16(buffer, startIndex) == TypeID
      && ToInt32(buffer, startIndex + 2) >= 1
      && conv.toDecimal(buffer[startIndex + 6..startIndex + 14]).Some?
      && InTimeRange(conv.toDecimal(buffer[startIndex + 6..startIndex + 14]).value)
    ensures res.1 == Success(FixedLength) ==>
      && res.0.historianID == ToInt32(buffer, startIndex + 2)
      && Some(res.0.time) == conv.toDecimal(buffer[startIndex + 6..startIndex + 14])
      && res.0.quality == ToInt32(buffer, startIndex + 14)
      && res.0.value == buffer[startIndex + 18..startIndex + 22]
    // The ACK is armed by, and only by, a successful parse of exactly 22 bytes.
    ensures res.0.ackArmed <==> f.ackArmed || (res.1 == Success(FixedLength) && length == FixedLength)
    // A failure leaves every field but HistorianID (assigned first) as it was.
    ensures res.1.Failure? ==> res.0 == f.(historianID := res.0.historianID)
  {
    if length < FixedLength then (f, Success(0))
    else
      var packetID := ToInt16(buffer, startIndex);
      if packetID != TypeID then (f, Failure(PacketIDMismatch(packetID)))
      else
        AssignFields(f, conv, ToInt32(buffer, startIndex + 2), buffer[startIndex + 6..startIndex + 14],
                     ToInt32(buffer, startIndex + 14), buffer[startIndex + 18..startIndex + 22], length == FixedLength)
  }

  /** Round trip: parsing a generated image (into any packet) restores
      HistorianID, Time, Quality and Value, consumes 22 bytes and arms the
      ACK when the image is all that is available. */
  lemma {:induction false} ParseOfImage(f: Fields, g: Fields, conv: DoubleConversion, buffer: seq<byte>, startIndex: int, length: int)
    requires 0 <= startIndex && FixedLength <= length && startIndex + FixedLength <= |buffer|
    requires buffer[startIndex..startIndex + FixedLength] == Image(f, conv)
    requires f.historianID >= 1 && InTimeRange(f.time)
    requires conv.toDecimal(conv.toDouble(f.time)) == Some(f.time)
    ensures ParseImage(g, conv, buffer, startIndex, length)
         == (f.(ackArmed := g.ackArmed || length == FixedLength), Success(FixedLength))
  {
    var img := Image(f, conv);
    WindowSlice(buffer, startIndex, img, 0, 2);
    WindowSlice(buffer, startIndex, img, 2, 6);
    WindowSlice(buffer, startIndex, img, 6, 14);
    WindowSlice(buffer, startIndex, img, 14, 18);
    WindowSlice(buffer, startIndex, img, 18, 22);
    assert ToInt16(buffer, startIndex) == ToInt16(img, 0);
    assert ToInt32(buffer, startIndex + 2) == ToInt32(img, 2);
    assert ToInt32(buffer, startIndex + 14) == ToInt32(img, 14);
  }

  /** The other round trip: when the time conversion is exact on the bytes
      received, a successful parse regenerates the very bytes it consumed. */
  lemma {:induction false} ImageOfParse(f: Fields, conv: DoubleConversion, buffer: seq<byte>, startIndex: int, length: int)
    requires length >= FixedLength ==> 0 <= startIndex && startIndex + FixedLength <= |buffer|
    requires ParseImage(f, conv, buffer, startIndex, length).1 == Success(FixedLength)
    requires conv.toDecimal(buffer[startIndex + 6..startIndex + 14]).Some?
    requires conv.toDouble(conv.toDecimal(buffer[startIndex + 6..startIndex + 14]).value)
          == buffer[startIndex + 6..startIndex + 14]
    ensures Image(ParseImage(f, conv, buffer, startIndex, length).0, conv)
         == buffer[startIndex..startIndex + FixedLength]
  {
    var g := ParseImage(f, conv, buffer, startIndex, length).0;
    var window := buffer[startIndex..startIndex + FixedLength];
    WindowSlice(buffer, startIndex, window, 0, 2);
    WindowSlice(buffer, startIndex, window, 2, 6);
    WindowSlice(buffer, startIndex, window, 6, 14);
    WindowSlice(buffer, startIndex, window, 14, 18);
    WindowSlice(buffer, startIndex, window, 18, 22);
    GetBytesOfToInt16(buffer, startIndex);
    GetBytesOfToInt32(buffer, startIndex + 2);
    GetBytesOfToInt32(buffer, startIndex + 14);
    assert GetBytes16(TypeID) == window[0..2];
    assert GetBytes32(g.historianID) == window[2..6];
    assert conv.toDouble(g.time) == window[6..14];
    assert GetBytes32(g.quality) == window[14..18];
    assert g.value == window[18..22];
    Split5(window);
  }

  lemma Split5(w: seq<byte>)
    requires |w| == 22
    ensures w == w[0..2] + w[2..6] + w[6..14] + w[14..18] + w[18..22]
  {
  }

  /** The single-sample packet, with the fields ParseBinaryImage and the
      setters update in place. */
  class PacketType1 {
    var historianID: int32
    var time: real
    var quality: int32
    var value: Bytes4
    var ackArmed: bool
    var archive: Archive?

    function State(): Fields
      reads this
    {
      Fields(historianID, time, quality, value, ackArmed)
    }

    /** The parameterless constructor: Time is TimeTag.MinValue, the other
        fields keep their defaults, no PreProcessHandler is set and there is
        no archive. */
    constructor ()
      ensures State() == Fields(0, MinTime, 0, [0, 0, 0, 0], false) && archive == null
    {
      historianID := 0;
      time := MinTime;
      quality := 0;
      value := [0, 0, 0, 0];
      ackArmed := false;
      archive := null;
    }

    /** The HistorianID setter, in place. */
    method SetHistorianID(id: int32) returns (r: Outcome<Error>)
      modifies this
      ensures (State(), r) == WithHistorianID(old(State()), id)
      ensures archive == old(archive)
    {
      if id < 1 {
        return Fail(HistorianIDNotPositive);
      }
      historianID := id;
      return Pass;
    }

    /** The Time setter, in place. */
    method SetTime(t: real) returns (r: Outcome<Error>)
      modifies this
      ensures (State(), r) == WithTime(old(State()), t)
      ensures archive == old(archive)
    {
      if t < MinTime || t > MaxTime {
        return Fail(TimeOutOfRange);
      }
      time := t;
      return Pass;
    }

    /** The length of the image GenerateBinaryImage writes. */
    function BinaryLength(): (n: int)
      reads this
      ensures forall conv :: |Image(State(), conv)| == n
    {
      FixedLength
    }

    method ParseBinaryImage(conv: DoubleConversion, buffer: array?<byte>, startIndex: int, length: int)
      returns (r: Result<int, Error>)
      requires length >= FixedLength ==> buffer != null && 0 <= startIndex && startIndex + FixedLength <= buffer.Length
      modifies this
      ensures (State(), r) == ParseImage(old(State()), conv, if buffer == null then [] else buffer[..], startIndex, length)
      ensures archive == old(archive)
    {
      if length < FixedLength {
        return Success(0);
      }
      var packetID := ToInt16(buffer[..], startIndex);
      if packetID != TypeID {
        return Failure(PacketIDMismatch(packetID));
      }
      var outcome := SetHistorianID(ToInt32(buffer[..], startIndex + 2));
      if outcome.Fail? {
        return Failure(outcome.error);
      }
      var t := conv.toDecimal(buffer[startIndex + 6..startIndex + 14]);
      if t.None? {
        return Failure(TimeNotRepresentable);
      }
      outcome := SetTime(t.value);
      if outcome.Fail? {
        return Failure(outcome.error);
      }
      quality := ToInt32(buffer[..], startIndex + 14);
      value := buffer[startIndex + 18..startIndex + 22];
      if length == FixedLength {
        ackArmed := true;
      }
      return Success(FixedLength);
    }

    method GenerateBinaryImage(conv: DoubleConversion, buffer: array?<byte>, startIndex: int)
      returns (r: Result<int, Error>)
      modifies buffer
      ensures r == (match ValidateParameters(buffer, startIndex, FixedLength)
                    case Pass => Success(FixedLength)
                    case Fail(e) => Failure(e))
      ensures buffer != null && r.Failure? ==> buffer[..] == old(buffer[..])
      ensures buffer != null && r.Success? ==>
        buffer[..] == old(buffer[..startIndex]) + Image(State(), conv) + old(buffer[startIndex + FixedLength..])
    {
      var check := ValidateParameters(buffer, startIndex, FixedLength);
      if check.Fail? {
        return Failure(check.error);
      }
      // Image is the concatenation of the five field images the source
      // copies one after the other.
      BlockCopy(Image(State(), conv), buffer, startIndex);
      return Success(FixedLength);
    }

    /** The one sample the packet carries. */
    function ExtractTimeSeriesData(): (points: seq<DataPoint>)
      reads this
      ensures |points| == 1
      ensures points[0].historianID == historianID && points[0].time == time
      ensures points[0].value == value && points[0].quality == quality
    {
      [DataPoint(historianID, time, value, quality)]
    }

    /** Without an archive nothing happens; otherwise the extracted sample is
        written to it. No response buffers are returned. */
    method Process()
      modifies archive
      ensures archive != null ==> archive.written == old(archive.written) + ExtractTimeSeriesData()
    {
      if archive == null {
        return;
      }
      archive.WriteData(DataPoint(historianID, time, value, quality));
    }

    /** The response of the PreProcessHandler, when one is set. */
    function PreProcess(): (r: Option<seq<seq<byte>>>)
      reads this
      ensures r.Some? <==> ackArmed
      ensures r.Some? ==> r.value == AckResponse()
    {
      if ackArmed then Some(AckResponse()) else None
    }
  }
}

# GSF historian packets in Dafny

This project models the binary packet layer of the GSF historian's wire
protocol: the three packet classes that turn byte buffers into time-series
samples or summary queries and back, and the archive operations their
Process handlers drive.

- **PacketType1** (`packet_type1.dfy`, module `Packet1`): one sample in a
  fixed 22-byte little-endian image. The fields are the mutable fields of
  class `Packet1.PacketType1`. The HistorianID and Time setters are methods
  that can fail. ParseBinaryImage is proved against the pure function
  `Packet1.ParseImage`, and GenerateBinaryImage writes `Packet1.Image` into
  the caller's array. Whether the "ACK" PreProcessHandler has been set is
  the flag `ackArmed`.
- **PacketType101** (`packet_type101.dfy`, module `Packet101`): a batch
  with a 2-byte type id, a 4-byte count and `count` records of 14 bytes.
  ParseBinaryImage replaces Data by what its record loop collects
  (`Packet101.ReadRecords`, specified by `Packet101.DecodeRecords`).
  GenerateBinaryImage writes the header, then each record at
  `startIndex + 6 + 14i` (`Packet101.WriteRecords`). The length check,
  the offsets and BinaryLength use C#'s unchecked Int32 arithmetic
  (`LittleEndian.Int32`), so the model keeps the source's edge cases.
- **PacketType11** (`packet_type11.dfy`, module `Packet11`): the summary
  query. Process either walks ids 1, 2, ... up to the first id without a
  record, or walks the requested ids in order and skips the missing ones.
  With an archive present it then appends the end-of-transmission summary.
  Its lazily yielded buffers are returned as one finite sequence, specified
  by `Packet11.Response`.

Shared pieces live in `historian.dfy` (module `Historian`). These are the
exceptions as an `Error` datatype, the sample `DataPoint`, the TimeTag
bounds, Buffer.BlockCopy, ValidateParameters, the "ACK" buffer and the
`Archive` class. The archive has a fixed map of record summaries and an
append-only log of the points written to it. `little_endian.dfy` (module
`LittleEndian`) holds the Int16/Int32 little-endian two's complement
codec. `wrappers.dfy` holds `Option`, `Result` and `Outcome`.

Collaborators whose code is not part of this model are parameters:

- the double/decimal conversions of Time (`Historian.DoubleConversion`);
- the 14-byte PacketType101DataPoint record (`Historian.RecordCodec`).
  The batch round trip assumes that each record reads back
  (`Historian.ReadsBack`);
- the summary of StateRecord -1 (the `eot` argument of
  `Packet11.PacketType11.Process`).

Where the code and the protocol's written description differ, the model
follows the code:

- A parse is not all-or-nothing. If PacketType1's Time is unrepresentable
  or out of range after HistorianID was accepted, the new HistorianID stays
  (`Packet1.ParseImage`).
- If a PacketType101 record raises, Data keeps the records decoded before
  it, because Data was already cleared (`Packet101.DecodedInOrder`).
- PacketType101's completeness check multiplies the count in Int32. A
  negative count down to -153391689 passes the check. Data is then
  cleared and 6 is returned (`Packet101.NegativeCountClears`).
- Each PacketType101 record is told `length - offset` valid bytes. The
  offset counts from the start of the buffer, not from startIndex. The
  batch round trip therefore needs `startIndex + BinaryLength <= length`
  (`Packet101.ParseOfImage`).

## Model

| member | source | states |
|---|---|---|
| LittleEndian.Int32 | Source/Libraries/GSF.Historian/Packets/PacketType101.cs:168 | Unchecked Int32 arithmetic leaves a result that fits the Int32 range unchanged |
| LittleEndian.Int32Wraps | Source/Libraries/GSF.Historian/Packets/PacketType101.cs:168 | An unchecked Int32 result agrees with the exact result modulo 2^32 |
| LittleEndian.ToInt16OfGetBytes | Source/Libraries/GSF.Historian/Packets/PacketType1.cs:242 | ToInt16 reads back the Int16 that GetBytes wrote |
| LittleEndian.ToInt32OfGetBytes | Source/Libraries/GSF.Historian/Packets/PacketType1.cs:243 | ToInt32 reads back the Int32 that GetBytes wrote |
| LittleEndian.GetBytesOfToInt16 | Source/Libraries/GSF.Historian/Packets/PacketType1.cs:207 | Writing back the Int16 read at an index gives the same two bytes |
| LittleEndian.GetBytesOfToInt32 | Source/Libraries/GSF.Historian/Packets/PacketType1.cs:213 | Writing back the Int32 read at an index gives the same four bytes |
| Historian.Ascii | Source/Libraries/GSF.Historian/Packets/PacketType1.cs:281 | The ASCII encoding has one byte per character, equal to its code |
| Historian.AckResponse | Source/Libraries/GSF.Historian/Packets/PacketType1.cs:279-282 | PreProcess's response is one buffer holding exactly the bytes 0x41 0x43 0x4B ("ACK") |
| Historian.BlockCopy | Source/Libraries/GSF.Historian/Packets/PacketType1.cs:242-246 | Buffer.BlockCopy puts the source bytes at dstIndex and leaves every other byte of the destination as it was |
| Historian.SummaryOf | Source/Libraries/GSF.Historian/Packets/PacketType11.cs:94-97 | A summary is found exactly for the ids that have a record, and it is that record's summary |
| Historian.ValidateParameters | Source/Libraries/GSF.Historian/Packets/PacketType1.cs:238-240 | The check passes exactly for a non-null buffer whose window [startIndex, startIndex + length) lies inside it; a null buffer fails with ArgumentNullException, any other failure with ArgumentOutOfRangeException |
| Historian.Archive.ReadStateDataSummary | Source/Libraries/GSF.Historian/Packets/PacketType11.cs:94 | The archive returns a summary exactly for the ids that have a record, and it is that record's summary |
| Historian.Archive.WriteData | Source/Libraries/GSF.Historian/Packets/PacketType1.cs:270 | Writing a point appends it to the archive's log |
| Packet1.Image | Source/Libraries/GSF.Historian/Packets/PacketType1.cs:236-249 | The image is 22 bytes: type id 1 at 0, HistorianID at 2, the Time image at 6, Quality at 14 and the Value image at 18 |
| Packet1.ParseImage | Source/Libraries/GSF.Historian/Packets/PacketType1.cs:200-223 | Fewer than 22 bytes: returns 0 and nothing changes; a full window never returns 0. A wrong type id fails before any field is set. A HistorianID below 1 fails with nothing changed. An unrepresentable Time, or one out of range, fails with the new HistorianID stored and nothing else changed. 22 is returned exactly when the id, HistorianID >= 1 and a representable in-range Time are present, and then the fields are read from offsets 2, 6, 14 and 18. The ACK is armed exactly by such a parse with length 22 |
| Packet1.AssignFields | Source/Libraries/GSF.Historian/Packets/PacketType1.cs:213-222 | Once the type id matched: a HistorianID below 1 fails with nothing changed; an unrepresentable or out-of-range Time fails with only the new HistorianID stored; otherwise all four fields take the values read, the ACK is armed when the image is all that is available, and 22 is returned |
| Packet1.ParseOfImage | Source/Libraries/GSF.Historian/Packets/PacketType1.cs:200-249 | For a packet with HistorianID >= 1 and Time in range, whose Time survives the conversion to double and back, parsing its generated image into any packet restores all four fields, returns 22 and arms the ACK when the image is all that is available |
| Packet1.ImageOfParse | Source/Libraries/GSF.Historian/Packets/PacketType1.cs:200-249 | A successful parse regenerates the 22 bytes it consumed when the Time conversion is exact on them |
| Packet1.PacketType1.constructor | Source/Libraries/GSF.Historian/Packets/PacketType1.cs:83-88 | A new packet has Time at TimeTag.MinValue, no ACK armed and no archive |
| Packet1.WithHistorianID | Source/Libraries/GSF.Historian/Packets/PacketType1.cs:146-156 | Values below 1 fail and keep every field; any other value is stored and no other field changes |
| Packet1.WithTime | Source/Libraries/GSF.Historian/Packets/PacketType1.cs:162-172 | Times outside [MinValue, MaxValue] fail and keep every field; both bounds are accepted; no other field changes |
| Packet1.PacketType1.SetHistorianID | Source/Libraries/GSF.Historian/Packets/PacketType1.cs:146-156 | The packet's new fields and the outcome are those of WithHistorianID on the old fields; the archive does not change |
| Packet1.PacketType1.SetTime | Source/Libraries/GSF.Historian/Packets/PacketType1.cs:162-172 | The packet's new fields and the outcome are those of WithTime on the old fields; the archive does not change |
| Packet1.PacketType1.BinaryLength | Source/Libraries/GSF.Historian/Packets/PacketType1.cs:187 | BinaryLength is the length of the generated image, whatever the fields |
| Packet1.PacketType1.ParseBinaryImage | Source/Libraries/GSF.Historian/Packets/PacketType1.cs:200-223 | The new fields, ACK flag and result are those of ParseImage on the old state |
| Packet1.PacketType1.GenerateBinaryImage | Source/Libraries/GSF.Historian/Packets/PacketType1.cs:236-249 | A null buffer or an out-of-range window fails and writes nothing; otherwise exactly bytes startIndex..startIndex+21 become the image and 22 is returned |
| Packet1.PacketType1.ExtractTimeSeriesData | Source/Libraries/GSF.Historian/Packets/PacketType1.cs:255-258 | Exactly one point, carrying the packet's HistorianID, Time, Value and Quality |
| Packet1.PacketType1.Process | Source/Libraries/GSF.Historian/Packets/PacketType1.cs:264-273 | With an archive, the extracted point is appended to its log |
| Packet1.PacketType1.PreProcess | Source/Libraries/GSF.Historian/Packets/PacketType1.cs:279-282 | A response exists exactly when the ACK is armed, and it is the "ACK" buffer |
| Packet101.ImageLength | Source/Libraries/GSF.Historian/Packets/PacketType101.cs:140 | Without Int32 overflow, a batch of count points takes 6 + 14 * count bytes |
| Packet101.RecordOffset | Source/Libraries/GSF.Historian/Packets/PacketType101.cs:178 | Without Int32 overflow, record i starts at startIndex + 6 + 14i |
| Packet101.Rounds | Source/Libraries/GSF.Historian/Packets/PacketType101.cs:178-179 | The decode call of round i, with the offset and the valid length in Int32 arithmetic; its value without overflow is stated by RoundAt |
| Packet101.DecodeRecords | Source/Libraries/GSF.Historian/Packets/PacketType101.cs:176-180 | The loop collects at most one point per round, and one per round when no record fails |
| Packet101.DecodedInOrder | Source/Libraries/GSF.Historian/Packets/PacketType101.cs:176-180 | Point i is what round i decoded, in order; after an early stop, the next round is the one that failed, with that error |
| Packet101.DecodeStops | Source/Libraries/GSF.Historian/Packets/PacketType101.cs:176-180 | After a record fails, later rounds change nothing |
| Packet101.DecodeAll | Source/Libraries/GSF.Historian/Packets/PacketType101.cs:176-180 | When every round decodes the matching point, the loop collects exactly those points |
| Packet101.ParseImage | Source/Libraries/GSF.Historian/Packets/PacketType101.cs:153-183 | Fewer than 6 bytes: returns 0 and keeps Data. A wrong type id fails and keeps Data. A body shorter than 6 + count * 14 returns 0 and keeps Data. Otherwise Data holds at most count points; on success it holds exactly count points and the new BinaryLength is returned |
| Packet101.RoundAt | Source/Libraries/GSF.Historian/Packets/PacketType101.cs:178-179 | Without overflow, round i decodes the record at startIndex + 6 + 14i and is told length minus that offset is valid |
| Packet101.ParseComplete | Source/Libraries/GSF.Historian/Packets/PacketType101.cs:174-182 | A successful parse of a complete batch with count >= 0 yields exactly count points, point i decoded from startIndex + 6 + 14i, and returns 6 + 14 * count |
| Packet101.NegativeCountClears | Source/Libraries/GSF.Historian/Packets/PacketType101.cs:166-182 | A count between -153391689 and -1 passes the length check, clears Data and returns 6 |
| Packet101.Records | Source/Libraries/GSF.Historian/Packets/PacketType101.cs:205-206 | The record images take 14 bytes per point |
| Packet101.RecordAt | Source/Libraries/GSF.Historian/Packets/PacketType101.cs:205-206 | Point i's record image stands at 14i among the records |
| Packet101.Image | Source/Libraries/GSF.Historian/Packets/PacketType101.cs:196-209 | The image of n points takes 6 + 14n bytes |
| Packet101.ImageHeader | Source/Libraries/GSF.Historian/Packets/PacketType101.cs:202-203 | The image starts with type id 101 and then the point count |
| Packet101.ImageRecordAt | Source/Libraries/GSF.Historian/Packets/PacketType101.cs:205-206 | Point i's record image stands at 6 + 14i in the image |
| Packet101.RecordDecodes | Source/Libraries/GSF.Historian/Packets/PacketType101.cs:178-179 | In a generated image, the parser's round i decodes back point i |
| Packet101.ParseOfImage | Source/Libraries/GSF.Historian/Packets/PacketType101.cs:153-209 | Parsing a generated batch into any packet yields the same points in the same order and returns BinaryLength |
| Packet101.ReadRecords | Source/Libraries/GSF.Historian/Packets/PacketType101.cs:174-180 | The parser's loop collects what DecodeRecords describes: count rounds, none for a negative count, stopping at the first failure |
| Packet101.WriteRecords | Source/Libraries/GSF.Historian/Packets/PacketType101.cs:205-206 | The generator's loop writes the record images from offset on and changes no other byte |
| Packet101.PacketType101.constructor | Source/Libraries/GSF.Historian/Packets/PacketType101.cs:74-80 | A new batch is empty, has the ACK handler set and has no archive |
| Packet101.PacketType101.FromDataPoints | Source/Libraries/GSF.Historian/Packets/PacketType101.cs:86-94 | The batch holds the given points in the given order, with the ACK handler set |
| Packet101.PacketType101.BinaryLength | Source/Libraries/GSF.Historian/Packets/PacketType101.cs:140 | Without overflow, BinaryLength is 6 + 14 * the number of points |
| Packet101.PacketType101.ParseBinaryImage | Source/Libraries/GSF.Historian/Packets/PacketType101.cs:153-183 | The new Data and the result are those of ParseImage on the old Data; the handlers and the archive do not change |
| Packet101.PacketType101.GenerateBinaryImage | Source/Libraries/GSF.Historian/Packets/PacketType101.cs:196-209 | A null buffer or an out-of-range window fails and writes nothing; otherwise exactly the BinaryLength bytes at startIndex become the image and BinaryLength is returned |
| Packet101.PacketType101.ExtractTimeSeriesData | Source/Libraries/GSF.Historian/Packets/PacketType101.cs:215-218 | The extracted points are Data's points, same length, same order |
| Packet101.PacketType101.Process | Source/Libraries/GSF.Historian/Packets/PacketType101.cs:224-233 | With an archive, every extracted point is appended to its log, in order |
| Packet101.PacketType101.PreProcess | Source/Libraries/GSF.Historian/Packets/PacketType101.cs:239-242 | A response exists exactly when the handler is set, which the constructors always do, and it is the "ACK" buffer |
| Packet11.AllRecordsRequested | Source/Libraries/GSF.Historian/Packets/PacketType11.cs:87 | Every record is requested exactly when RequestIDs is empty or is the single id -1 |
| Packet11.AllFromAt | Source/Libraries/GSF.Historian/Packets/PacketType11.cs:90-101 | The j-th summary of the all-records walk from id is the summary of record id + j |
| Packet11.AllFromStops | Source/Libraries/GSF.Historian/Packets/PacketType11.cs:94-97 | The walk stops at an id that has no record |
| Packet11.AllFromConsecutive | Source/Libraries/GSF.Historian/Packets/PacketType11.cs:90-101 | The walk yields the summaries of consecutive ids in increasing order and ends just before the first missing id |
| Packet11.Requested | Source/Libraries/GSF.Historian/Packets/PacketType11.cs:106-115 | A specific-ids query yields at most one summary per requested id |
| Packet11.RequestedOne | Source/Libraries/GSF.Historian/Packets/PacketType11.cs:106-115 | One requested id yields its summary, or nothing when it has no record |
| Packet11.RequestedAppend | Source/Libraries/GSF.Historian/Packets/PacketType11.cs:106-115 | Requests are answered one by one in order: the answer to a + b is the answer to a followed by the answer to b |
| Packet11.RequestedAllPresent | Source/Libraries/GSF.Historian/Packets/PacketType11.cs:106-115 | When every requested id has a record, the answer is their summaries in request order, duplicates included |
| Packet11.RequestedNonePresent | Source/Libraries/GSF.Historian/Packets/PacketType11.cs:106-115 | When no requested id has a record, the answer is empty |
| Packet11.PresentCount | Source/Libraries/GSF.Historian/Packets/PacketType11.cs:106-115 | At most one hit per requested id |
| Packet11.RequestedLength | Source/Libraries/GSF.Historian/Packets/PacketType11.cs:106-115 | The answer has one summary per requested id that has a record |
| Packet11.Response | Source/Libraries/GSF.Historian/Packets/PacketType11.cs:80-119 | Without an archive nothing is yielded; with one, the last buffer is the end-of-transmission summary |
| Packet11.ResponseAllRecords | Source/Libraries/GSF.Historian/Packets/PacketType11.cs:87-118 | An all-records query yields the summaries of ids 1, 2, ... in order, stops before the first missing id, and ends with the end-of-transmission summary |
| Packet11.ResponseRequested | Source/Libraries/GSF.Historian/Packets/PacketType11.cs:103-118 | A specific-ids query yields the found summaries in request order and then the end-of-transmission summary: one more buffer than the ids found |
| Packet11.PacketType11.constructor | Source/Libraries/GSF.Historian/Packets/PacketType11.cs:54-58 | A new query requests every record and has no archive |
| Packet11.PacketType11.Process | Source/Libraries/GSF.Historian/Packets/PacketType11.cs:80-119 | The buffers Process yields are exactly Response for the packet's archive and RequestIDs |

## Left out

- The GUI tool `Source/Tools/SELPDCImporter/MainForm.cs`: it is file dialogs, settings and database access with no statable behaviour.
- Floating point: Value is kept as its 4-byte single-precision image, so ToSingle and GetBytes(float) are the identity on those bytes. The double/decimal conversions of Time are parameters, and their NaN and overflow behaviour is only the `None` case of `toDecimal`.
- TimeTag is its decimal seconds value; MinValue and MaxValue are the constants 0 and 2147483647.999.
- Quality is the Int32 that the enum is cast to and from.
- The LittleEndian class, PacketType101DataPoint, StateRecord, QueryPacketBase and ArchiveFile are not part of this model. Their behaviour is modelled only at the boundary described above. RequestIDs is a field, not parsed from a buffer.
- The constructors taking IMeasurement depend on the time-series library's casts and quality mapping.
- The PacketType1 constructors taking a HistorianID or an IDataPoint are the parameterless constructor followed by the modelled setters. A Dafny constructor cannot fail, so they are not modelled separately.
- The constructors taking a buffer are the parameterless constructor followed by ParseBinaryImage.
- Packet101.PacketType101.FromDataPoints: the ArgumentNullException for a null collection is not modelled, because a sequence cannot be null.
- The handlers are not delegates. PreProcessHandler is the `ackArmed` flag, and ProcessHandler is the Process method. Process's null result is left out.
- Packet11.PacketType11.Process: the lazy `yield` stream is returned as one finite sequence. The archive's finite map always bounds the all-records walk. An archive with a record for every id up to Int32.MaxValue, where `++id` would wrap, is not modelled.
- Packet1.ParseImage and Packet1.PacketType1.ParseBinaryImage require, when at least 22 bytes are claimed, a non-null buffer with the 22 bytes read at startIndex inside it. The source would raise from LittleEndian's reads otherwise. A null buffer with fewer than 22 bytes claimed returns 0, as in the source.
- Packet101.ParseImage and Packet101.PacketType101.ParseBinaryImage require, when at least 6 bytes are claimed, a non-null buffer with the 6-byte header at startIndex inside it. The source would raise from LittleEndian's reads otherwise. A null buffer with fewer than 6 bytes claimed returns 0, as in the source. Records beyond the buffer are the record decoder's concern, which may fail.
- Packet1.ParseOfImage assumes a valid packet (HistorianID >= 1, Time in range) and that the decimal cast of the parser undoes the double cast of the generator on the packet's Time. The decimal cast keeps at most 15 significant digits, so this holds for times of at most 15 significant digits (every millisecond-resolution time in range) and fails for longer ones; the round trip is not promised for those.
- Packet101.PacketType101.GenerateBinaryImage requires BinaryLength not to overflow Int32, that is, fewer than 153391689 points.
- Packet1.PacketType1.GenerateBinaryImage copies the five field images in one BlockCopy of their concatenation. The result is the same, since the five windows are adjacent and disjoint.
- Archive failures and its I/O are not modelled; WriteData only appends to a log.

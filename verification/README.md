# GPS-tracker receiver: protocol proofs

The receiver takes position reports from GPS trackers over TCP, modems and serial ports. This project
models its byte-level protocols and proves what they keep. It holds no code of the receiver.

## What is modelled

- **Checksums.** `Division` treats machine words as bit lists and a reflected CRC as polynomial
  division. `Crc16` is the CRC that `get_crc`, the FMB920 `crc16` and the Bitrek `crc16` all compute;
  `Crc32` is the table-driven CRC-32 with its global table and register, related to section 8 of RFC 1952.
- **Teltonika TCP session.** `TcpStream` cuts the read buffer into a handshake and CRC-protected frames;
  `Session` recognises connections and acknowledges packets, in the order of the driver loop
  (drv_devices/device_gsm_udp.cpp, lines 302-350); `Codec7`, `Codec7Values`, `Codec7Parser`, `Codec8`,
  `Codec8Values`, `Codec8Parser` and `ElementStore` parse frames into records and store their elements;
  `Codec12` builds command frames; `Batches` puts a whole session together.
- **Bitrek.** `BitrekStream`, `BitrekSplitter` and `BitrekDelivery` are the splitter for two frame formats,
  `BitrekAnswers` the header check and the walk over answers, and `ParamTypes`, `ParamVectors`,
  `ParamExchange`, `BitrekParams`, `BitrekExchange`, `BitrekRun`, `BitrekFaults` and `BitrekDevice` the parameter
  exchange.
- **Codecs.** `Armour` is the Aviarm text armour, `Utf8` the conversion between 16-bit characters and UTF-8
  (section 3 of RFC 3629).
- **State.** `SortedLists` and `Pantrack` are the latched alarms, `ComPort` and `ComPortReader` the
  serial receive buffer with its line reader.
- `Bytes`, `Records` and `CountedFrame` hold what several of these share.

Objects the source updates in place are classes with the same fields; loops are methods with
invariants. Each is proved equal to a function of the old state, and the properties below are proved about
these functions for all inputs and all runs.

## Conventions

- A byte is an integer from 0 to 255; fields are big-endian as on the wire. Shifts and masks on bytes are
  written as division and remainder; words of a checksum are bit lists, least significant bit first.
  A negative number shifted left is taken in two's complement.
- What comes from outside is a parameter: arriving chunks, what the driver delivers, whether a sleep ended
  undisturbed, whether the address is valid. A list of polls that runs out is a timeout.
- Where the source would read outside its data the model says so in its result (`Overrun`, `overrun`,
  `Overread`, `None`) instead of demanding that it cannot happen. After such a result nothing is claimed
  about the state.
- Without its two length bytes a Bitrek short frame makes the source read two bytes behind its data. Whatever
  they are, the frame comes out as too long to be complete, so the model tests for the bytes first.

## What the proofs show about the code

- The GH splitter adds 12 to the length field in 32 bits and compares as a signed number. It is right for
  fields below 2^31-12 and leaves its buffer for all others (`TcpStream.OverrunExactly`).
- The splitter takes the first bytes for the handshake without looking at them; only `is_my_connection` looks.
- A frame can be taken for a connect packet only by an id whose length is a multiple of 65536
  (`Session.ConfusionExactly`); such an id exists (`Session.LongIdIsConfused`).
- Frames without records are shorter than 20 bytes and are not looked into by either codec.
- Digital inputs of codec 8 are decoded and stored as raw elements too, because the return behind the
  decoding is commented out.
- The Bitrek splitter depends on how its stream is cut (`BitrekSplitter.CutChangesThePackets`), and
  `BitrekSplitter.PatientExactly` says exactly when it does not.
- A repeated answer can complete a parameter exchange too early (`BitrekFaults.RepeatCompletesEarly`), or keep it
  from ever being complete (`BitrekFaults.RepeatNeverCompletes`, `BitrekFaults.OverfullNeverCompletes`);
  `BitrekRun.CompletionExactly` says exactly when completion and the answers agree.
- The parser ignores the length of a string value and reads on into the next answer, or behind the packet, if
  the string does not bring its zero (`BitrekFaults.StringReadsOn`, `BitrekExchange.ReadAsSent`).
- A status answer overwrites the kind its parameter is read by, so a value behind it is read as a single byte
  (`BitrekFaults.StatusThenValue`).
- The UTF-8 decoder gets the second half of every character above U+FFFF wrong and the first half of those
  whose second byte has bits 4 and 5 clear (`Utf8.FourBytesExactly`).
- A frame is acknowledged by its declared count, even if it holds fewer whole records
  (`Session.OverstatedExactly`, `Batches.OverstatedFrame`).
- A nearly full serial buffer drops one byte per read: the size of the counter divided by three.

## Model

| member | source | states |
|---|---|---|
| `Crc16.GetCrc` | drv_objects/teltonika/obj_teltonikaGH12.cpp:121-137 | the shift-and-xor loop returns the checksum `Of` the bytes, which `OfIsSerial` identifies with polynomial division |
| `Crc16.OfIsSerial` | drv_objects/teltonika/obj_teltonikaGH12.cpp:121-137 | the byte-wise loop is the division of the whole message, bit by bit, least significant bit first, by the polynomial 0xA001 |
| `Crc16.DetectsBurst` | drv_objects/teltonika/obj_teltonikaGH12.cpp:121-137 | two payloads of equal length that differ only within sixteen consecutive bits have equal checksums if and only if they are equal |
| `Crc16.DetectsTwoAdjacentBytes` | drv_objects/teltonika/obj_teltonikaGH12.cpp:121-137 | so any damage confined to two adjacent bytes changes the checksum |
| `Crc16.FieldRoundTrip` | drv_objects/bitrek/obj_bitrek.cpp:172-181 | a checksum written high byte first is read back unchanged |
| `Crc16.ZerosHaveZeroCrc` | drv_objects/bitrek/obj_bitrek.cpp:156-171 | the checksum of any run of zero bytes is zero, which is why an empty long frame can appear inside zero bytes |
| `Crc16.CheckValue` | drv_objects/teltonika/obj_teltonikaGH12.cpp:121-137 | the message of the single byte 0x80 has the checksum field A0 01 |
| `Crc32.LookupIsEightBits` | drv_objects/mega_gps_m25/obj_mega_gps_m25.h:99-121 | one table lookup equals eight single-bit divisions by 0xEDB88320, for every register value and byte |
| `Crc32.ReferenceAfterOneMore` | drv_objects/mega_gps_m25/obj_mega_gps_m25.h:110-122 | the value returned after one more byte is the RFC 1952 CRC of the message extended by that byte |
| `Crc32.Crc32State.constructor` | drv_objects/mega_gps_m25/obj_mega_gps_m25.h:99-113 | builds the table and starts a message: a valid state that has seen nothing |
| `Crc32.Crc32State.Init` | drv_objects/mega_gps_m25/obj_mega_gps_m25.h:99-108 | fills the table with the 256 remainders and leaves the register with the last of them |
| `Crc32.Crc32State.Reset` | drv_objects/mega_gps_m25/obj_mega_gps_m25.h:110-113 | starts a message: nothing seen yet, all ones in the register |
| `Crc32.Crc32State.Crc32` | drv_objects/mega_gps_m25/obj_mega_gps_m25.h:115-122 | each returned value is the bit-by-bit CRC of section 8 of RFC 1952 of all buffers passed since the reset, concatenated |
| `Crc32.DetectsBurst` | drv_objects/mega_gps_m25/obj_mega_gps_m25.h:99-122 | messages that differ only within 32 consecutive bits have different CRC-32 values unless they are equal |
| `Crc32.CheckValue` | drv_objects/mega_gps_m25/obj_mega_gps_m25.h:99-122 | the message FF FF FF 7F has checksum 0x12477CDF |
| `Crc32.CheckValueOfOnes` | drv_objects/mega_gps_m25/obj_mega_gps_m25.h:110-122 | the message FF FF FF FF has checksum 0xFFFFFFFF |
| `Bytes.BigEndian` | drv_objects/teltonika/obj_teltonikaGH12.cpp:203-207 | fields of two and four bytes are read most significant byte first |
| `TcpStream.OverrunExactly` | drv_objects/teltonika/obj_teltonikaGH12.cpp:99-108 | the loop leaves its buffer exactly when the length field it meets is 2^31-12 or more; this is the hypothesis under which frame sizes are right |
| `TcpStream.CutIsStable` | drv_objects/teltonika/obj_teltonikaGH12.cpp:99-117 | once a pass has decided, bytes arriving later cannot change the decision |
| `TcpStream.FramesInTwoSteps` | drv_objects/teltonika/obj_teltonikaGH12.cpp:84-118 | scanning a buffer at once gives the packets and leftover of scanning a prefix first and its leftover together with the rest afterwards |
| `TcpStream.FeedInTwoSteps` | drv_objects/teltonika/obj_teltonikaGH12.cpp:73-119 | two arrivals give the packets, leftover and outcome of their concatenation, also across the handshake |
| `TcpStream.ChunkingIndependence` | drv_objects/teltonika/obj_teltonikaGH12.cpp:73-119 | for every way of cutting a stream into arrivals the packets, the leftover buffer, the accepted flag and the outcome are those of a single arrival of the whole stream |
| `TcpStream.CutShape` | drv_objects/teltonika/obj_teltonikaGH12.cpp:99-117 | whatever is cut off is four zeros, a length field that matches, payload and checksum field; it is kept exactly when the checksum matches; only bytes in front of the first four zeros are lost |
| `TcpStream.HeadFrameIsCut` | drv_objects/teltonika/obj_teltonikaGH12.cpp:99-117 | a frame at the head of the buffer below the size limit is cut off whole, whatever follows it |
| `TcpStream.DamagedFrameIsDropped` | drv_objects/teltonika/obj_teltonikaGH12.cpp:99-137 | a valid frame damaged within sixteen consecutive payload bits is dropped and the intact frame right behind it is delivered |
| `TcpStream.TwoDamagedBytesAreDropped` | drv_objects/teltonika/obj_teltonikaGH12.cpp:99-137 | the same for damage to any two adjacent payload bytes |
| `TcpStream.HandshakeFirst` | drv_objects/teltonika/obj_teltonikaGH12.cpp:86-96 | before acceptance nothing but the first id length+2 bytes can come out, whatever they are |
| `TcpStream.FrameNext` | drv_objects/teltonika/obj_teltonikaGH12.cpp:99-117 | one pass on an accepted stream delivers the next frame if its checksum matches and goes on behind it |
| `TcpStream.Connection.constructor` | tcp_server.h:41-46 | a new connection has received nothing |
| `TcpStream.Connection.Read` | tcp_server.h:39-49 | received bytes are appended to the read buffer |
| `TcpStream.Tracker.constructor` | car.h:310-325 | a tracker that has accepted no stream |
| `TcpStream.Tracker.SplitTcpStream` | drv_objects/teltonika/obj_teltonikaGH12.cpp:73-119 | the loop that erases from the read buffer and sets the accepted stream returns exactly the packets and leaves exactly the state of `Split`; without a connection nothing changes |
| `Codec12.BuildCodec12Packet` | drv_objects/teltonika/obj_teltonikaFMB920.cpp:52-81 | growing and patching the vector appends the packet of the command to the output buffer |
| `Codec12.CommandIsInside` | drv_objects/teltonika/obj_teltonikaFMB920.cpp:52-81 | the packet holds codec 12, one command of type 5, the command followed by CR LF at exactly the stated size, the closing quantity, two zeros and the checksum of all from the codec on |
| `Codec12.PacketsAreSplit` | drv_objects/teltonika/obj_teltonikaFMB920.cpp:52-81 | concatenated packets of any commands are split into exactly these packets in order with nothing left |
| `Codec12.BuilderThenSplitter` | drv_objects/teltonika/obj_teltonikaFMB920.cpp:52-81 | an accepted stream of built packets hands over exactly these packets and ends with an empty buffer |
| `Codec12.DeliveredExactly` | drv_objects/teltonika/obj_teltonikaFMB920.cpp:52-81 | a built packet comes through if its payload is below 2^31-12 bytes, and otherwise drives the splitter out of its buffer |
| `Codec12.OversizedFrameOverruns` | drv_objects/teltonika/obj_teltonikaGH12.cpp:103-107 | a frame whose length field is 2^31-12 or more is never delivered |
| `Session.MyConnectionExactly` | drv_objects/teltonika/obj_teltonikaGH12.cpp:139-148 | a fresh connection is claimed exactly when its bytes begin with the 16-bit length of the id and the id |
| `Session.ConnectPacketExactly` | drv_objects/teltonika/obj_teltonikaGH12.cpp:65-71 | a packet is a connect packet exactly when it is the handshake |
| `Session.RunDependsOnBytes` | drv_objects/teltonika/obj_teltonikaGH12.cpp:73-148 | packets, claim and leftover of a session depend only on the bytes that arrived, and nothing is delivered unless they begin with the handshake |
| `Session.FramesAreDelivered` | drv_objects/teltonika/obj_teltonikaGH12.cpp:84-118 | every frame delivered is a whole wrapped payload guarded by its checksum |
| `Session.ConfusionExactly` | drv_objects/teltonika/obj_teltonikaGH12.cpp:65-71 | a delivered frame is taken for a connect packet exactly when the id has a length divisible by 65536 and the frame is two zeros and the id; for ids of 1 to 65535 bytes this cannot happen |
| `Session.LongIdIsConfused` | drv_objects/teltonika/obj_teltonikaGH12.cpp:42-71 | an id of 65536 bytes for which it does happen |
| `Session.HandshakeIsAnswered` | drv_objects/teltonika/obj_teltonikaGH12.cpp:42-49 | the handshake is answered by the single byte 1 |
| `Session.AnswerExactly` | drv_objects/teltonika/obj_teltonikaGH12.cpp:42-63 | nothing is answered without a valid address; a handshake adds the byte 1 to what is there, any other packet of 15 bytes or more replaces it by three zeros and its tenth byte, and a shorter one leaves it |
| `Session.DeliveredFrameIsAnswered` | drv_objects/teltonika/obj_teltonikaGH12.cpp:51-62 | a frame of 15 bytes or more is answered by four bytes ending in its declared record count, and neither codec parses more records than that; shorter frames are not answered |
| `Session.SentRecordsAreAcknowledged` | drv_objects/teltonika/obj_teltonikaGH12.cpp:51-62 | a frame built from codec 7 records is acknowledged with their number, and as many are parsed from it |
| `Session.SentFmRecordsAreAcknowledged` | drv_objects/teltonika/obj_teltonikaFM.cpp:417-419 | the same for codec 8 |
| `Session.OverstatedExactly` | drv_objects/teltonika/obj_teltonikaGH12.cpp:51-62 | a delivered frame of 15 bytes or more is acknowledged with more records than a codec parses exactly when it announces some and is not a frame of that codec, or the lengths its masks and counts give the announced records do not fit in front of its last five bytes |
| `Batches.OverstatedFrame` | drv_objects/teltonika/obj_teltonikaGH12.cpp:51-62 | for each codec an intact frame of 20 bytes that is acknowledged with one record and holds none |
| `Batches.SessionDelivers` | drv_objects/teltonika/obj_teltonikaGH12.cpp:42-371 | however a handshake and any batches of codec 7 and codec 8 records are cut into arrivals: exactly the handshake and the frames are delivered, the answers are 1 and the number of records of each batch, nothing is kept, and each frame is parsed into the records sent in it |
| `Session.SessionKeepsProtocol` | drv_objects/teltonika/obj_teltonikaGH12.cpp:42-148 | over every run, however cut: the first packet is the handshake answered by 1, no later frame is taken for it, each is answered as its size demands, and packets appear exactly when the stream begins with the handshake |
| `Session.IsMyConnectionOf` | drv_objects/teltonika/obj_teltonikaGH12.cpp:139-148 | the imperative check agrees with the recognition `MyConnectionExactly` characterises |
| `Session.NeedAnswerOf` | drv_objects/teltonika/obj_teltonikaGH12.cpp:42-63 | the imperative acknowledgement agrees with the one the session lemmas are about |
| `Session.DoReadConnection` | drv_objects/teltonika/obj_teltonikaGH12.cpp:42-148 | one arrival, handled as the driver does: recognise, split, answer each packet; it moves tracker and connection as `Arrive` says and writes exactly the answers of its packets, in order |
| `Codec7.ParseRecord` | drv_objects/teltonika/obj_teltonikaGH12.cpp:200-369 | a record is accepted only with the cursor at or before size-5 |
| `Codec7.RecordExtent` | drv_objects/teltonika/obj_teltonikaGH12.cpp:200-369 | a record is accepted exactly if the length its masks and count bytes give it ends at or before size-5, and that is how far the cursor moves |
| `Codec7.ParsedExactly` | drv_objects/teltonika/obj_teltonikaGH12.cpp:190-371 | all announced records are parsed exactly if their lengths fit in front of size-5 |
| `Codec7.WholeOnesAreKept` | drv_objects/teltonika/obj_teltonikaGH12.cpp:190-371 | of the announced records exactly as many are kept as lie whole in front of size-5, each as it is read at its own place |
| `Codec7.CursorExactly` | drv_objects/teltonika/obj_teltonikaGH12.cpp:190-371 | the cursor ends behind the last record kept |
| `Codec7.OthersAreIgnored` | drv_objects/teltonika/obj_teltonikaGH12.cpp:190-194 | no record is taken from a frame shorter than 20 bytes, without four zeros in front, or of another codec |
| `Codec7.TruncationGivesPrefix` | drv_objects/teltonika/obj_teltonikaGH12.cpp:190-371 | parsing any prefix of a frame yields a prefix of the records of the whole frame |
| `Codec7.FrameReadsBack` | drv_objects/teltonika/obj_teltonikaGH12.cpp:190-371 | for any list of under 256 records serialised with any field mask, the parser returns each of them in order and stops at size-5 |
| `Codec7.FieldsInClosedForm` | drv_objects/teltonika/obj_teltonikaGH12.cpp:216-298 | every position field announced by the mask sets its own value and no other |
| `Codec7.ParamsInClosedForm` | drv_objects/teltonika/obj_teltonikaGH12.cpp:300-367 | a parameter ends with the last value sent for its id; unknown ids change nothing |
| `Codec7Values.PlaceReadsBack` | drv_objects/teltonika/obj_teltonikaGH12.cpp:216-298 | a position part whose values are written with their own widths (4+4, 2, 1, 1, 1, 2+2, 1, 4 bytes) in the order of the mask bits gives each value back |
| `Codec7Values.ReportsReadBack` | drv_objects/teltonika/obj_teltonikaGH12.cpp:190-371 | any reports sent come back value by value in order, and what was not sent is absent: the whole record is given by the values sent and numbers alone |
| `Codec7Parser.ParseFix` | drv_objects/teltonika/obj_teltonikaGH12.cpp:190-371 | the cursor loop returns exactly the records of the specification |
| `Codec7Parser.ReadRecord` | drv_objects/teltonika/obj_teltonikaGH12.cpp:202-367 | one pass moves the cursor and fills the record as specified, or stops where the specification has no record |
| `Codec7Parser.ReadGps` | drv_objects/teltonika/obj_teltonikaGH12.cpp:216-298 | the position part, field by field under its mask |
| `Codec7Parser.ReadParams` | drv_objects/teltonika/obj_teltonikaGH12.cpp:300-367 | one counted parameter list; it takes up its count byte and width+1 bytes for each parameter |
| `Codec8.ParseElement` | drv_objects/teltonika/obj_teltonikaFM.cpp:223-295 | a record is accepted only with the cursor at or before size-5 |
| `Codec8.RecordExtent` | drv_objects/teltonika/obj_teltonikaFM.cpp:223-295 | a record is accepted exactly if the length its four count bytes give it ends at or before size-5, and that is how far the cursor moves |
| `Codec8.ParsedExactly` | drv_objects/teltonika/obj_teltonikaFM.cpp:197-295 | all announced records are parsed exactly if their lengths fit in front of size-5 |
| `Codec8.WholeOnesAreKept` | drv_objects/teltonika/obj_teltonikaFM.cpp:170-221 | of the announced records exactly as many are kept as lie whole in front of size-5, each as it is read at its own place |
| `Codec8.OthersAreIgnored` | drv_objects/teltonika/obj_teltonikaFM.cpp:170-174 | no record is taken from a frame shorter than 20 bytes, without four zeros in front, or of another codec |
| `Codec8.TruncationGivesPrefix` | drv_objects/teltonika/obj_teltonikaFM.cpp:170-295 | parsing any prefix of a frame yields a prefix of the records of the whole frame |
| `Codec8.FrameReadsBack` | drv_objects/teltonika/obj_teltonikaFM.cpp:197-295 | for any list of under 256 records in the TCP layout the parser recovers time, priority, position, speed, event id and all elements of each record in order, and ends with the cursor at size-5 |
| `Codec8Values.LevelIsLast` | drv_objects/teltonika/obj_teltonikaFM.cpp:297-303 | an input keeps the level of the last element that names it, and is marked as seen exactly if one does |
| `Codec8Values.RecordValues` | drv_objects/teltonika/obj_teltonikaFM.cpp:223-411 | the element-by-element scan of a record is this closed form |
| `Codec8Values.RecordInFull` | drv_objects/teltonika/obj_teltonikaFM.cpp:223-411 | the record received, by itself and with the ids as numbers: each named value is that of the last element with its id and absent if there is none, numbered readings and unnamed elements are exactly those sent, in order |
| `Codec8Values.InputsInFull` | drv_objects/teltonika/obj_teltonikaFM.cpp:297-303 | an input is known exactly if an element names it, and on exactly if the last such element is not zero |
| `Codec8Values.RecordStoresRaw` | drv_objects/teltonika/obj_teltonikaFM.cpp:297-415 | the elements no rule names are stored in order, each paired with its own bytes; digital inputs are stored as well as decoded |
| `Codec8Parser.Scan1` | drv_objects/teltonika/obj_teltonikaFM.cpp:297-327 | updates the event in place as specified for a one-byte element |
| `Codec8Parser.Scan2` | drv_objects/teltonika/obj_teltonikaFM.cpp:329-368 | the same for two bytes |
| `Codec8Parser.Scan4` | drv_objects/teltonika/obj_teltonikaFM.cpp:370-402 | the same for four bytes |
| `Codec8Parser.Scan8` | drv_objects/teltonika/obj_teltonikaFM.cpp:404-415 | the same for eight bytes |
| `Codec8Parser.ParseOneElement` | drv_objects/teltonika/obj_teltonikaFM.cpp:223-295 | the reference cursor, the fix, the event and the event id end as specified, also where the source stops half way |
| `Codec8Parser.ParseEvents` | drv_objects/teltonika/obj_teltonikaFM.cpp:197-220 | three parallel vectors that hold the records of the specification |
| `Codec8Parser.ParseFix` | drv_objects/teltonika/obj_teltonikaFM.cpp:170-195 | priority, satellites and fix of each record of the specification |
| `ElementStore.RunStoresEverything` | device_data/teltonika/teltonikaFM_commands.cpp:194-241 | after any run of the add and set methods each data vector is as long as its width times its ids, and holds exactly what was added, in order |
| `ElementStore.StableSortSorts` | device_data/teltonika/teltonikaFM_commands.cpp:260 | the result is sorted by id and a permutation of the input |
| `ElementStore.StableSortKeepsOrder` | device_data/teltonika/teltonikaFM_commands.cpp:260 | elements of one id keep their order |
| `ElementStore.StableSortIsUnique` | device_data/teltonika/teltonikaFM_commands.cpp:243-261 | there is only one list with these properties, so they say completely what the ordering returns |
| `ElementStore.CommonFm.Add1` | device_data/teltonika/teltonikaFM_commands.cpp:194-198 | appends an id and its byte and changes nothing else |
| `ElementStore.CommonFm.Add2` | device_data/teltonika/teltonikaFM_commands.cpp:200-204 | appends an id and its two bytes |
| `ElementStore.CommonFm.Add4` | device_data/teltonika/teltonikaFM_commands.cpp:206-210 | appends an id and its four bytes |
| `ElementStore.CommonFm.Add8` | device_data/teltonika/teltonikaFM_commands.cpp:212-216 | appends an id and its eight bytes |
| `ElementStore.CommonFm.SetInput` | device_data/teltonika/teltonikaFM_commands.cpp:218-223 | sets or clears one input bit and marks it as seen |
| `ElementStore.CommonFm.AddZone` | device_data/teltonika/teltonikaFM_commands.cpp:225-229 | appends a zone number and its state |
| `ElementStore.CommonFm.AddAnalogInput` | device_data/teltonika/teltonikaFM_commands.cpp:231-235 | appends an analog number and its reading |
| `ElementStore.CommonFm.AddTemperature` | device_data/teltonika/teltonikaFM_commands.cpp:237-241 | appends a sensor number and its reading |
| `ElementStore.CommonFm.OrderDataElements` | device_data/teltonika/teltonikaFM_commands.cpp:243-261 | the four collecting loops and the sort return the stable order of all stored elements, each with its own bytes |
| `BitrekStream.ComputeCrc` | drv_objects/bitrek/obj_bitrek.cpp:213-228 | builds the short frame of the data |
| `BitrekStream.NothingIsLost` | drv_objects/bitrek/obj_bitrek.cpp:74-153 | frames cut off, bytes skipped in front of them and leftover concatenate back to the buffer |
| `BitrekStream.OnlyFramesArePushed` | drv_objects/bitrek/obj_bitrek.cpp:74-153 | every packet pushed is a short or a long frame with matching length and checksum |
| `BitrekStream.NextCut` | drv_objects/bitrek/obj_bitrek.cpp:89-152 | each pass that does not end the loop shrinks the buffer |
| `BitrekSplitter.Accounting` | drv_objects/bitrek/obj_bitrek.cpp:59-154 | handshake, pushed frames, discarded bytes and leftover make up the stream, and all packets behind the handshake are intact frames |
| `BitrekSplitter.ArrivalsAreAccounted` | drv_objects/bitrek/obj_bitrek.cpp:59-154 | over any number of arrivals, however cut: the packets and the leftover account for the whole stream in order, up to the bytes skipped and the frames whose checksum fails, and every packet behind the handshake is an intact frame |
| `BitrekSplitter.PatientExactly` | drv_objects/bitrek/obj_bitrek.cpp:89-152 | what is cut off a buffer is independent of what arrives later exactly when no pass took a long frame while a short frame that had begun was incomplete |
| `BitrekSplitter.ChunkingIndependence` | drv_objects/bitrek/obj_bitrek.cpp:59-154 | if no arrival ends at such a point, the packets, the leftover and the outcome are those of a single arrival |
| `BitrekSplitter.CutChangesThePackets` | drv_objects/bitrek/obj_bitrek.cpp:89-152 | an intact short frame of zeros that comes whole in one arrival is torn apart, and an invented frame delivered, when the arrival ends after 16 bytes |
| `BitrekDelivery.FramesAreDelivered` | drv_objects/bitrek/obj_bitrek.cpp:89-152 | any mixture of whole short and long frames is taken apart into exactly these frames, and what follows is scanned as if it stood alone |
| `BitrekDelivery.DeliveredExactly` | drv_objects/bitrek/obj_bitrek.cpp:59-154 | after any handshake whole frames come out one packet each, in order, with an empty buffer |
| `BitrekDelivery.ShortHeadIsCut` | drv_objects/bitrek/obj_bitrek.cpp:89-133 | a short frame at the head is cut off before any long frame is looked for |
| `BitrekDelivery.DamagedShortIsDropped` | drv_objects/bitrek/obj_bitrek.cpp:89-152 | a short frame damaged within sixteen consecutive payload bits is dropped whole, and the pass goes on behind it |
| `BitrekDelivery.SplitTcpStream` | drv_objects/bitrek/obj_bitrek.cpp:59-154 | the loop with both formats returns exactly the packets and leaves exactly the state of the specification |
| `BitrekAnswers.CheckHeader` | drv_objects/bitrek/obj_bitrek.cpp:328-337 | accepts exactly the frames `compute_crc` makes of 1 to 65535 bytes |
| `BitrekAnswers.AcceptsExactly` | drv_objects/bitrek/obj_bitrek.cpp:328-337 | preamble, size and checksum tests together hold if and only if the packet is such a frame |
| `BitrekAnswers.LongMessageIsRefused` | drv_objects/bitrek/obj_bitrek.cpp:213-227 | a message of 65536 bytes or more is framed with its size modulo 65536 and refused by its own parser |
| `BitrekAnswers.SplitterAndParserAgree` | drv_objects/bitrek/obj_bitrek.cpp:93-133 | the short frames the splitter lets through are exactly the packets the parsers accept |
| `BitrekAnswers.FindAnswer` | drv_objects/bitrek/obj_bitrek.cpp:230-275 | the pointer walk returns the positions of the specification, or reports that it left its data |
| `BitrekAnswers.StepFrom` | drv_objects/bitrek/obj_bitrek.cpp:244-269 | one step of the walk by the tag and length it meets |
| `BitrekAnswers.FoundExactly` | drv_objects/bitrek/obj_bitrek.cpp:230-275 | over any list of under 256 answers, whatever follows them, the walk finds exactly the answers with the wanted tag, in order |
| `BitrekAnswers.UnknownTagEndsWalk` | drv_objects/bitrek/obj_bitrek.cpp:230-275 | a byte that is no tag ends the walk behind any list of answers, however many were announced |
| `BitrekAnswers.WalkLeavesItsData` | drv_objects/bitrek/obj_bitrek.cpp:230-275 | if more answers are announced than there are and the data ends behind them, the walk leaves its data |
| `BitrekAnswers.PositionsAreOffsets` | drv_objects/bitrek/obj_bitrek.cpp:230-275 | at each position found lies the whole answer it stands for |
| `BitrekAnswers.AnswersSurviveTheFrame` | drv_objects/bitrek/obj_bitrek.cpp:213-275 | from end to end: answers framed by `compute_crc` pass the header check and are found again |
| `ParamTypes.GetTypeForParam` | device_data/bitrek/bitrek_commands.cpp:182-245 | the ranges and tables give a kind from 1 to 4 |
| `ParamTypes.TypeForParam` | device_data/bitrek/bitrek_commands.cpp:182-245 | the kind is that of the first listing, strings before 16-bit before 32-bit numbers, and 1 for an id that is in none of them; ids 20 to 179 are strings |
| `ParamVectors.IndexOf` | drv_objects/bitrek/obj_bitrek.cpp:812-814 | the first slot of an id, or the number of slots |
| `ParamExchange.Merge` | drv_objects/bitrek/obj_bitrek.cpp:914-927 | the merge loop leaves the exchange the specification describes, or reports a read outside a vector |
| `ParamExchange.StateAfter` | drv_objects/bitrek/obj_bitrek.cpp:914-927 | after any answers the counter is the number of answers to requested ids, and each slot holds the last answer to its own id or what the request held |
| `ParamExchange.CompleteExactly` | drv_objects/bitrek/obj_bitrek.cpp:929-932 | without a repeated answer the counter reaches the number of ids exactly when all ids are answered; when it has reached it, all are answered if and only if no answer was repeated |
| `BitrekExchange.ValueReadsBack` | drv_objects/bitrek/obj_bitrek.cpp:861-903 | an answer is read by its kind: a number of the width of its kind as it is, of any other width as zero; a string up to the first zero in its value or in the bytes behind it, and if there is none the source reads on behind the packet |
| `BitrekExchange.KindIsRequested` | drv_objects/bitrek/obj_bitrek.cpp:847-858 | a requested id is read by the kind of its first slot, any other by the kind of the table |
| `BitrekExchange.CarriedExactly` | drv_objects/bitrek/obj_bitrek.cpp:885-890 | what is read is the value the answer carries exactly if it is no string, or the string brings its zero or is followed by one |
| `BitrekExchange.PacketIsGathered` | drv_objects/bitrek/obj_bitrek.cpp:768-938 | for any framed packet of answers: it is refused exactly when it has no answer about parameters, it is read beyond its end exactly when one of its strings has no zero behind it, and otherwise exactly its rows are put into the exchange, which is reported complete exactly when the counter matches |
| `BitrekExchange.ReadAsSent` | drv_objects/bitrek/obj_bitrek.cpp:861-903 | a packet that is not read beyond its end is read as it was sent exactly if each of its strings brings its zero, or is the last answer of the packet and the first byte of the checksum is zero |
| `BitrekRun.RunIsGathered` | drv_objects/bitrek/obj_bitrek.cpp:768-938 | after any number of packets, whether they carry values, statuses, both or neither, the exchange is the request with all their rows put in, in order, unless one of their strings has no zero behind it; no value may follow a status for the same id |
| `BitrekRun.RunReadAsSent` | drv_objects/bitrek/obj_bitrek.cpp:861-903 | a run that is not read beyond a packet is read as it was sent exactly if all its strings are terminated |
| `BitrekRun.KindKeptExactly` | drv_objects/bitrek/obj_bitrek.cpp:849-858 | in the middle of a run a value is read by the kind of its request exactly when no status for its requested id has come or that kind is 1 |
| `BitrekRun.NoRepeatKeepsKinds` | drv_objects/bitrek/obj_bitrek.cpp:849-858 | when no requested id is answered twice, no value follows a status for its requested id, so every value is read by the kind of its request |
| `BitrekRun.SlotsHoldTheirAnswers` | drv_objects/bitrek/obj_bitrek.cpp:768-938 | at the end of such a run every slot holds what was read from the last answer to its own id, or what the request held, and the counter is the number of answers to requested ids |
| `BitrekRun.SlotsHoldWhatWasSent` | drv_objects/bitrek/obj_bitrek.cpp:768-938 | with distinct ids, none answered twice, and terminated strings every slot holds the value its own answer carries, over any number of packets in any mixture |
| `BitrekRun.CompletionExactly` | drv_objects/bitrek/obj_bitrek.cpp:929-932 | the last packet completes the exchange exactly when the answers to requested ids are as many as the ids; that agrees with all ids being answered exactly if none was answered twice, or one is missing and the repeated answers do not make up the number |
| `BitrekRun.CompletesWhenAllAnswered` | drv_objects/bitrek/obj_bitrek.cpp:768-938 | for any run over distinct ids, none answered twice, the last packet completes the exchange exactly when all ids have been answered; it is refused exactly when it has no answer about parameters |
| `BitrekFaults.StringReadsOn` | drv_objects/bitrek/obj_bitrek.cpp:885-890 | the string A without its zero in front of a status: the slot ends up with A and the tag of the status, and the exchange is complete |
| `BitrekFaults.StatusThenValue` | drv_objects/bitrek/obj_bitrek.cpp:774-858 | a status followed by a value for the same requested id: the value is read as a single byte, whatever kind was requested |
| `BitrekFaults.RepeatCompletesEarly` | drv_objects/bitrek/obj_bitrek.cpp:919-932 | a request for two ids and a device that sends the value of the first twice: the second packet completes the exchange with the slot of the other id untouched |
| `BitrekFaults.RepeatNeverCompletes` | drv_objects/bitrek/obj_bitrek.cpp:919-932 | a device that sends the first value and then both: every slot holds its value, but neither packet completes the exchange |
| `BitrekFaults.OverfullNeverCompletes` | drv_objects/bitrek/obj_bitrek.cpp:919-932 | once the counter has passed the number of ids, nothing that may arrive completes the exchange |
| `BitrekDevice.GetBodyNamesIds` | drv_objects/bitrek/obj_bitrek.cpp:715-722 | a get request names the low sixteen bits of every id, in order |
| `BitrekDevice.SetValueReadsBack` | drv_objects/bitrek/obj_bitrek.cpp:726-758 | wherever an entry of a set request lies, it names the low sixteen bits of its id, has the size of its kind, and its value reads back: numbers in the width of their kind, strings up to their first zero; the receiver itself never reads a set request, its reader of values (lines 861-903) stands for the device |
| `BitrekDevice.SetRequestSays` | drv_objects/bitrek/obj_bitrek.cpp:703-762 | a set request holds the number of ids and then, in order, an entry for every id: the low sixteen bits of the id and the value of its kind |
| `BitrekDevice.SetRequestReadsBack` | drv_objects/bitrek/obj_bitrek.cpp:703-762 | a device that walks a set request by the kinds of its parameters reads exactly what was to be set, in order, if no string has more than 255 bytes |
| `BitrekDevice.GetRequestSays` | drv_objects/bitrek/obj_bitrek.cpp:703-722 | a get request holds the number of ids and then the low sixteen bits of every id, in order |
| `BitrekDevice.CarBitrek.constructor` | drv_objects/bitrek/obj_bitrek.cpp:17-21 | a device without an exchange |
| `BitrekDevice.CarBitrek.BuildGetParam` | drv_objects/bitrek/obj_bitrek.cpp:703-766 | stores the request, clears the counter and builds the frame |
| `BitrekDevice.CarBitrek.ParseGetParam` | drv_objects/bitrek/obj_bitrek.cpp:768-938 | moves the stored exchange as specified and hands it out exactly when it is complete |
| `Armour.CharsAreTheAlphabet` | drv_objects/aviarm/obj_aviarm.cpp:124-136 | six-bit values and the characters 0x30..0x5A, 0x61..0x75 correspond one to one |
| `Armour.CharRoundTripExactly` | drv_objects/aviarm/obj_aviarm.cpp:124-136 | with wrap-around the two single-byte maps undo each other exactly for bytes below 208, and for characters 0..5, 0x30..0x5A and from 0x61 on |
| `Armour.CharsIncrease` | drv_objects/aviarm/obj_aviarm.cpp:124-136 | the characters stand for the values in increasing order, so the alphabet determines them |
| `Armour.Bin2TxtByte` | drv_objects/aviarm/obj_aviarm.cpp:124-129 | the single-byte encoder |
| `Armour.Txt2BinByte` | drv_objects/aviarm/obj_aviarm.cpp:131-136 | the single-byte decoder |
| `Armour.Bin2Txt` | drv_objects/aviarm/obj_aviarm.cpp:77-98 | the loop writes the text whose characters carry the bytes six bits at a time |
| `Armour.Txt2Bin` | drv_objects/aviarm/obj_aviarm.cpp:100-122 | or-ing bits into the zeroed buffer, and dropping the surplus byte, gives the bytes the characters carry |
| `Armour.SextetsAreTheBits` | drv_objects/aviarm/obj_aviarm.cpp:77-98 | bit j of character i is bit 6i+j of the bytes, least significant first, and zero behind their end |
| `Armour.RoundTrip` | drv_objects/aviarm/obj_aviarm.cpp:77-136 | every byte string of every length survives encoding and decoding, and the text stays in the alphabet |
| `Armour.TextRoundTripExactly` | drv_objects/aviarm/obj_aviarm.cpp:77-136 | a text survives decoding and encoding exactly when its characters are in the alphabet, its length is not 1 modulo 4 and its padding bits are zero |
| `Utf8.WcharToUtf8` | device_data/common_commands.cpp:277-302 | the loop writes the encoding of the characters in front of the terminating zero |
| `Utf8.Utf8ToWchar` | device_data/common_commands.cpp:211-260 | the pointer walk returns the decoded characters, or reports that a cut-off sequence made it read behind the terminating zero |
| `Utf8.RoundTrip` | device_data/common_commands.cpp:206-302 | decoding the encoding of any sequence of 16-bit units gives it back |
| `Utf8.FourBytesExactly` | device_data/common_commands.cpp:245-258 | of the two units for a character above U+FFFF the first is the right surrogate exactly when bits 4 and 5 of the second byte are not both zero; the second is never a surrogate |
| `Utf8.FourBytesDecode` | device_data/common_commands.cpp:245-258 | a lead byte from F0 to F7 and the three bytes behind it give two units |
| `Utf8.SmileyIsTorn` | device_data/common_commands.cpp:245-258 | U+1F600 is decoded as D83D 02DC instead of D83D DE00 |
| `Utf8.CutShort` | device_data/common_commands.cpp:211-260 | what a sequence that is cut short decodes to, and when the terminating zero is passed |
| `Utf8.TextRoundTrip` | device_data/common_commands.cpp:206-302 | for a zero-terminated text that is the part in front of its first zero, at one to three bytes per unit |
| `Utf8.LostLeadByte` | device_data/common_commands.cpp:211-260 | if the lead byte of a character is lost, only that character is missing from the result |
| `SortedLists.SetDifference` | drv_objects/pantrack/obj_pantrack.cpp:492-498 | the merge loop returns the difference |
| `SortedLists.SetUnion` | drv_objects/pantrack/obj_pantrack.cpp:495 | the merge loop returns the union |
| `SortedLists.DifferenceIsSetDifference` | drv_objects/pantrack/obj_pantrack.cpp:492-498 | on increasing lists the merge is the set difference, increasing again |
| `SortedLists.UnionIsSetUnion` | drv_objects/pantrack/obj_pantrack.cpp:495 | and the other merge the set union, without repetitions |
| `Pantrack.ClassifiedExactly` | drv_objects/pantrack/obj_pantrack.cpp:461-486 | both lists are sorted, and a condition is in one of them exactly as the fields of the packet say: power (bit 7) and the signal always, ignition, movement, door (bit 1) and the five inputs (bits 2 to 6) as active only while the signal is on |
| `Pantrack.AcceptIsSetAlgebra` | drv_objects/pantrack/obj_pantrack.cpp:488-501 | fired = active minus latched; newly latched = (latched union active) minus inactive, sorted and free of repetitions |
| `Pantrack.LatchedExactly` | drv_objects/pantrack/obj_pantrack.cpp:436-501 | over any run of packets a condition is latched exactly when the last packet that classified it called it active |
| `Pantrack.FiresExactly` | drv_objects/pantrack/obj_pantrack.cpp:436-501 | it fires exactly on packets that call it active while it is not latched |
| `Pantrack.NeverTwice` | drv_objects/pantrack/obj_pantrack.cpp:436-501 | between two alarms of one condition there is always a packet that calls it inactive |
| `Pantrack.OnlyConditionsAreLatched` | drv_objects/pantrack/obj_pantrack.cpp:461-501 | nothing but the ten conditions is ever latched |
| `Pantrack.ConditionState.constructor` | drv_objects/pantrack/obj_pantrack.cpp:435-438 | nothing is latched at first |
| `Pantrack.ConditionState.CheckStates` | drv_objects/pantrack/obj_pantrack.cpp:461-486 | the pushes and sorts return the two classified lists |
| `Pantrack.ConditionState.AcceptStates` | drv_objects/pantrack/obj_pantrack.cpp:488-501 | the merge loops overwrite the latched list and return what fires |
| `Pantrack.ConditionState.ParseConditionPacket` | drv_objects/pantrack/obj_pantrack.cpp:436-459 | a packet raises one trigger per fired condition, in order, and is reported exactly if there is one |
| `ComPort.LinesExactly` | comport.h:411-424 | text without CR, LF and NUL holds no line until one of them follows, and is one line then |
| `ComPort.LinesAreTheText` | comport.h:416-424 | lines are nonempty, hold no CR, LF or NUL, and concatenated are the text in front of the last separator |
| `ComPort.LinesConcat` | comport.h:411-425 | behind a separator the lines begin afresh |
| `ComPort.RunConserves` | comport.h:224-428 | over any sequence of reads, drops, flushes and line reads: bytes consumed followed by bytes buffered are the bytes received, and fewer than 50000 are buffered |
| `ComPort.AnswersAreTheLines` | comport.h:405-428 | while bytes leave only as lines, the answers returned, followed by the lines still buffered, are the nonempty pieces of all that was received, in order |
| `ComPort.AnswersAreTheResults` | comport.h:405-428 | the recorded answers are the results of the successful line reads of the run, in order |
| `ComPort.ResultsAreTheLines` | comport.h:354-428 | in a run of openings, closings, reads and line reads that has room for what arrives, these results followed by the lines still buffered are the nonempty pieces of all that was received |
| `ComPort.FittingRunHasRoom` | comport.h:354-371 | there is room whenever all that arrives comes to at most 49936 bytes |
| `ComPort.AnswerIsRecorded` | comport.h:405-428 | a successful call returns the one line it took off, a failing call takes off none |
| `ComPort.AnswerKeepsIntact` | comport.h:354-359 | nothing but lines leaves the buffer as long as it stays out of its last 64 bytes |
| `ComPort.ReadKeepsAnswers` | comport.h:354-371 | a read loses a byte exactly when the open buffer is nearly full |
| `ComPort.ReadExactly` | comport.h:354-371 | a read of an open port with more than 49936 bytes buffered drops the oldest one; then as much is appended as 49999 bytes have room for |
| `ComPort.FlushEmpties` | comport.h:224-231 | flushing an open port leaves its buffer empty, what arrives last included |
| `ComPort.AnswerExactly` | comport.h:405-428 | with room for what arrives, a line read succeeds exactly if the port is open and at some poll a terminated nonempty piece has come to the front, one poll having gone to each empty piece before it, every read having delivered and every sleep having ended undisturbed; it returns that piece |
| `ComPort.EnoughPolls` | comport.h:405-428 | a line that is there after a poll is returned if one more poll is left for each empty piece in front of it |
| `ComPortReader.Reader.constructor` | comport.h:130-137 | an empty closed port |
| `ComPortReader.Reader.SetHandle` | comport.h:170-245 | opening and closing the port leave the buffer as it is |
| `ComPortReader.Reader.Read` | comport.h:354-371 | drops one byte when nearly full, then takes what the driver has room to deliver |
| `ComPortReader.Reader.DropFirst` | comport.h:388-394 | moves the rest of the buffer to its front |
| `ComPortReader.Reader.Flush` | comport.h:224-231 | reads once more and empties the buffer |
| `ComPortReader.Reader.ReadLine` | comport.h:405-428 | the waiting loop returns the next nonempty line, or fails when a read, a sleep or the time fails |

## Left out

- User interface, sockets, threads, locks, logging, COM port handles and clocks.
- The UDP path of codec 8, whose frames keep the five-byte tail of TCP although they carry no CRC.
- Coordinates, courses and times as floating point: they stay the integers or bit patterns of the frame.
- String fixes and string packets of the GH device, and all text parsing of other devices.
- Closing a connection for too much unparsed data or for idleness.
- `is_my_udp_packet`, poll packets and the search over all trackers for the owner of a connection: a session has one tracker that can claim it.
- `pack`, `unpack` and equality of the data structures.
- `ComPort::read` into a caller's buffer (comport.h:329-352), which does not keep the order of the stream; `read_in_time`, `read_some` and writing.
- The conversions to Windows-1251.
- Bitrek commands other than the parameter exchange, and the extra inputs 5 and 6 of its `scan1`.
- Alarms of the Radom device, whose base class is not part of this model; the Pantrack packet parser `scan_input_packet`.
- The values of condition ids beyond being different.
- Sizes are unbounded except where the source truncates them on the wire or in the splitter; in particular the products in the armour sizes do not wrap around at 2^32, and the counter of a parameter exchange does not overflow.
- BitrekDevice.CarBitrek.BuildGetParam: requires the six vectors of a set request to be equally long, because the source indexes them all by the ids; a get request needs nothing.
- BitrekRun.RunIsGathered: requires that no value follows a status for the same requested id unless its kind is 1, because a status overwrites the kind; `BitrekRun.KindKeptExactly` gives the exact condition, `BitrekFaults.StatusThenValue` the input, and `BitrekRun.NoRepeatKeepsKinds` shows that it holds when no id is answered twice.
- BitrekRun.SlotsHoldWhatWasSent: requires terminated strings, because the source ignores the length of a string; `BitrekExchange.ReadAsSent` gives the exact condition and `BitrekFaults.StringReadsOn` an input.
- BitrekExchange.PacketIsGathered: requires kinds from 1 to 4, the only ones `getTypeForParam` gives; for any other kind in a request the parser pushes an id and no value.
- ParamTypes.TypeForParam: the three tables of ids are data taken over number by number; what is proved is in which order they are consulted, not what they list.
- ComPort.AnswerExactly: requires room for what arrives (49936 bytes in all), because a nearly full buffer drops bytes; `ComPort.ReadExactly` says which.
- BitrekDevice.CarBitrek.ParseGetParam: takes the result object to be fresh, and says nothing of it when the exchange is not complete.
- Utf8.WcharToUtf8: requires a terminating zero, which the source walks to.
- `std::sort`, `std::stable_sort`, `memmove` and string constructors are modelled by what they compute, not by their loops.

# TinyAPRS: a verified model of its protocol and algorithm core

TinyAPRS is firmware for an APRS radio modem on AVR processors, built on a copy of BeRTOS. This
project models the parts of it that are state machines or exact integer algorithms, in the form the
C code has (classes with fields that methods update, loops over arrays, pure functions where the
code is one expression), and proves for all inputs, all runs or all reachable states what they are
meant to do. `dafny verify dfyconfig.toml` checks everything.

| module | what is modelled | main results |
|---|---|---|
| `Bytes` | bytes, signed numbers of 8 and 32 bits, optional values, sequences with a stretch replaced | shared by the others |
| `Dataflash` | the write-back page cache in front of an AT45 flash chip | over every run of read, write, seek, flush, reopen and close, the driver is one flat byte file |
| `Rle` | the run-length encoder that backs up inside its loop, and the decoder | round trip, prefix-freeness, tight size bound |
| `Fletcher` | the streaming Fletcher-32 context | the digest of the whole message for any cutting; no 32 bit overflow; 360 is the largest chunk; reads outside the buffer are dead |
| `Kiss`, `KissConfig` | the KISS decoder and encoder, configuration commands with their checksum | any list of frames arrives from any decoder state; exactly when one frame gets through; damaged requests are ignored |
| `Digi`, `DigiHash`, `DigiNetwork` | the WIDEn-N digipeater and networks of them | a repeat costs a hop; the ring is the last eight records; no early second repeat; one changed byte changes the hash; every chain is short, and as long as the bound along a line; every run of a network ends |
| `CrcTheory`, `CrcWords`, `CrcCcitt`, `Crc16` | both table-driven CRCs | table equals bit by bit; residue, in both directions; damage inside two adjacent bytes is always seen |
| `SoftSerial` | the receive ring between interrupt and reader | a queue of 31 bytes with interrupts between any two accesses of the reader |
| `Ramp` | the fixed-point acceleration ramp | error bound against the exact formula, range, monotonicity; exactly when it divides by zero and for which wavelengths a result is cut off |
| `Md2` | the MD2 context that is fed in pieces | the digest of RFC 1319 for any cutting, with the checksum fed back from the context itself |
| `Tea` | the TEA loops in place on a block | each direction undoes the other for every key, block, round count and byte order |
| `Callsign` | callsigns to text and back | the round trip holds if and only if a checkable condition on the call and SSID does |

Integer widths are explicit: a value that the C code keeps in 8, 16 or 32 bits is reduced where it is
assigned, or has a type whose bounds are proved at each assignment. Signed overflow wraps, as it does on
the processors the firmware is built for. The clock, the serial line, the
radio, the chip's main memory and interrupts are parameters.

## What the code does otherwise than its documentation or its callers might expect

- `kfile_genericSeek` accepts any position. Past the end, the clamp in `dataflash_read` and
  `dataflash_write` turns a negative number into a large `size_t` (`ClampPastEnd`), and a 32 bit size
  from 2^31 on turns negative in its cast and is not clamped at all (`ClampOfHugeSize`).
  `ClampIsSafeIff` is the exact condition; a run is required to read and write from positions inside
  the file, with sizes that survive the cast.
- The KISS decoder's length has eight bits, so the 256th byte empties the frame, and the encoder does
  not escape the header byte. `GetsThroughIff` is the exact condition. The test for a buffer about to
  overflow, at 328 bytes, can never hold.
- `calc_crc` has an eight bit index and does not end for more than 255 bytes (`CrcEndsIff`).
- `settings_get_beacon_text` gets the buffer length 330 in eight bits, as 74, so a stored text reads
  back only up to 73 bytes (`TextReadsBackIff`).
- In the first 15 seconds, the blank slots of the duplicate ring match a hash of zero (`DuplicateIff`,
  `BlankSlotMatches`). A message dropped for lack of room in its path is recorded all the same, and
  has lost a hop (`Node.HandleMessage`).
- The ramp's documentation excludes the clock value 0; the code divides by zero as long as the scaled
  time is 0, which lasts for several clocks (`DividesByZeroIff`, `FirstClocksDivideByZero`). Equal
  wavelengths pass the assertion but their ratio is cut to 0 (`EqualWavelengths`). Results are cut to
  16 bits for wavelengths too far apart (`NeverCutIff`, `LongWavelengthCutOff`).
- A callsign text takes 11 bytes, not 10, in exactly one case (`TextFits`).

## Model

| member | source | states |
|---|---|---|
| `Dataflash.SupportedDevices` | TinyAPRS/bertos/drv/dataflash.c:63-98 | in every supported memory a page fits the span its address bits leave for it, and all page addresses fit 24 bits |
| `Dataflash.AddressRoundTrip` | TinyAPRS/bertos/drv/dataflash.c:117-156 | the three address bytes, each cut to eight bits, are read by the chip as the page and the offset that were meant, for every page and offset of every addressable memory |
| `Dataflash.AddressNumber` | TinyAPRS/bertos/drv/dataflash.c:117-156 | the three address bytes, most significant first, are the page times 512, 1024 or 2048 plus the offset |
| `Dataflash.Capacities` | TinyAPRS/bertos/drv/dataflash.c:63-98 | the four memories hold 540672, 1081344, 2162688 and 8650752 bytes |
| `Dataflash.MemoryIsSmall` | TinyAPRS/bertos/drv/dataflash.c:63-98 | every addressable memory holds at most 2^24 bytes, so that sizes and positions fit a signed offset of 32 bits |
| `Dataflash.Driver.constructor` | TinyAPRS/bertos/drv/dataflash.c:545-590 | for any chip and any configured device, initialisation succeeds exactly when the density bits of the status register are those of the device; then the file seen is main memory at position 0, and otherwise the chip is untouched |
| `Dataflash.Driver.CleanView` | TinyAPRS/bertos/drv/dataflash.c:417-428 | as long as nothing is dirty, the file that callers see is main memory itself |
| `Dataflash.Driver.LoadPage` | TinyAPRS/bertos/drv/dataflash.c:274-277 | the buffer then holds exactly the selected page of main memory |
| `Dataflash.Driver.FlushPage` | TinyAPRS/bertos/drv/dataflash.c:373-385 | nothing a caller sees changes, and afterwards main memory alone is the file |
| `Dataflash.Driver.ReopenFile` | TinyAPRS/bertos/drv/dataflash.c:401-414 | the file keeps its contents, is at position 0, and is wholly in main memory |
| `Dataflash.Driver.SeekTo` | TinyAPRS/bertos/io/kfile.c:211-240 | the position moves as in the flat file, from any of the three origins, is kept in 32 bits and returned |
| `Dataflash.Driver.ReadBlock` | TinyAPRS/bertos/drv/dataflash.c:230-248 | a read from a position returns exactly that slice of main memory, across page ends |
| `Dataflash.Driver.ReadBytes` | TinyAPRS/bertos/drv/dataflash.c:429-466 | for every size that survives the cast, the bytes returned are the flat file's, clipped at its end, and the position moves past them |
| `Dataflash.Driver.SelectPage` | TinyAPRS/bertos/drv/dataflash.c:507-516 | changing the page in the buffer changes nothing a caller sees |
| `Dataflash.Driver.WriteBlock` | TinyAPRS/bertos/drv/dataflash.c:258-268 | bytes put into the buffer replace exactly the stretch of the file at that offset of the current page |
| `Dataflash.Driver.WriteChunk` | TinyAPRS/bertos/drv/dataflash.c:494-528 | each turn of the write loop makes progress and leaves the file with a prefix of the request stored at the position |
| `Dataflash.Driver.WriteBytes` | TinyAPRS/bertos/drv/dataflash.c:479-532 | for every size that survives the cast, a write over any number of pages is one write to the flat file, with its count |
| `Dataflash.Driver.Execute` | TinyAPRS/bertos/drv/dataflash.c:373-532 | one operation has the reply and the effect it has on the flat file; after flush, close, reopen and read main memory alone is the file |
| `Dataflash.Driver.Perform` | TinyAPRS/bertos/drv/dataflash.c:373-532 | for every run of operations whose reads and writes start inside the file with sizes that survive the cast, all replies and the resulting file are those of the flat file |
| `Dataflash.RunAppend` | TinyAPRS/bertos/drv/dataflash.c:373-532 | the effect and the replies of a run are those of its parts one after the other |
| `Dataflash.WriteInPieces` | TinyAPRS/bertos/drv/dataflash.c:468-478 | two writes one after the other are the same as one, wherever page ends fall and wherever the file ends |
| `Dataflash.ReadInPieces` | TinyAPRS/bertos/drv/dataflash.c:429-466 | reading goes on where it stopped: two reads return what one would have, and leave the position where it would |
| `Dataflash.ReadAll` | TinyAPRS/bertos/drv/dataflash.c:401-466 | after a reopen, one read returns the whole file and the next one nothing |
| `Dataflash.SeekBack` | TinyAPRS/bertos/io/kfile.c:211-240 | n back from the end are the last n bytes; back over what was just read is where it started; zero from the current position changes nothing, nor do flush and close |
| `Dataflash.CountIsDistance` | TinyAPRS/bertos/drv/dataflash.c:429-532 | the count of a write and the length of a read are the distance the position moved, and less than asked for only at the end of the file |
| `Dataflash.ReadBack` | TinyAPRS/bertos/drv/dataflash.c:417-478 | what was written is read back, and no byte outside the write has changed |
| `Dataflash.ClampIsClip` | TinyAPRS/bertos/drv/dataflash.c:489-490 | for positions in the file and sizes that survive the cast, the 16 and 32 bit clamp is the distance to the end or the size, whichever is less |
| `Dataflash.ClampIsSafeIff` | TinyAPRS/bertos/drv/dataflash.c:438-439 | for every size, every 32 bit position and both widths of sizes: no byte outside the file is transferred if and only if the position is in the file and the size survives the cast, or it is in front of the file and nothing is asked for, or it lies beyond by a multiple of 65536 and sizes have 16 bits |
| `Dataflash.ClampPastEnd` | TinyAPRS/bertos/drv/dataflash.c:489-490 | one byte past the end a request for one byte becomes one for 65535 bytes, and 65536 bytes past the end one for none |
| `Dataflash.ClampOfHugeSize` | TinyAPRS/bertos/drv/dataflash.c:438-439 | a 32 bit size of all ones at the start of any file is not clamped |
| `Rle.FindRepeatEnd` | TinyAPRS/bertos/algo/rle.c:59-64 | the scan stops at the first byte that differs, at the end of the input or after 127 bytes |
| `Rle.FindLiteralEnd` | TinyAPRS/bertos/algo/rle.c:68-88 | the loop with its back-up of two bytes ends where the specified literal run ends |
| `Rle.LiteralAdvances` | TinyAPRS/bertos/algo/rle.c:66-88 | even after the back-up a literal run covers at least one byte, so that the outer loop ends |
| `Rle.PassEnd` | TinyAPRS/bertos/algo/rle.c:57-103 | every pass covers between 1 and 127 bytes |
| `Rle.WritePass` | TinyAPRS/bertos/algo/rle.c:57-103 | one pass writes its run at the output position, touches nothing else, and moves on to the end of the run |
| `Rle.Compress` | TinyAPRS/bertos/algo/rle.c:48-109 | the buffer then starts with the encoding of the input, the rest of it is as before, and the length is returned |
| `Rle.Expand` | TinyAPRS/bertos/algo/rle.c:119-150 | a complete stream is turned into the bytes it stands for, the rest of the buffer is as before, and the length is returned |
| `Rle.HeadInNumbers` | TinyAPRS/bertos/algo/rle.c:128-147 | a count of 1 to 127 stands for so many copies of the next byte, 128 to 255 for the next 256 minus count bytes |
| `Rle.PassIsRun` | TinyAPRS/bertos/algo/rle.c:90-100 | what a pass writes is one complete run, and it stands for the bytes the pass covered |
| `Rle.RoundTrip` | TinyAPRS/bertos/algo/rle.c:48-150 | for every byte string, decoding its encoding gives it back and stops right behind the end marker, whatever follows |
| `Rle.ThereAndBack` | TinyAPRS/bertos/algo/rle.c:48-150 | the two routines run one after the other restore every input, through any buffer as large as the size bound |
| `Rle.PrefixFree` | TinyAPRS/bertos/algo/rle.c:105-108 | no encoding is a prefix of the encoding of another string |
| `Rle.EarlyEnd` | TinyAPRS/bertos/algo/rle.c:72-85 | a literal run that ends before the input and before 127 bytes stops in front of three equal bytes |
| `Rle.FirstTriple` | TinyAPRS/bertos/algo/rle.c:70-88 | a literal run stops at the first three equal bytes the scan sees whole, and otherwise only at the end of the input or after 127 bytes |
| `Rle.NoTripleInLiteral` | TinyAPRS/bertos/algo/rle.c:72-85 | no literal run contains three equal bytes |
| `Rle.PassIs` | TinyAPRS/bertos/algo/rle.c:57-103 | the end and the output of a pass are determined: where two equal bytes start, all equal ones up to 127 are replicated; elsewhere bytes are copied up to the first triple in sight, the end or 127 |
| `Rle.CutShort` | TinyAPRS/bertos/algo/rle.c:80-84 | such a run is followed by a replicate run of at least three bytes |
| `Rle.SizeBound` | TinyAPRS/bertos/algo/rle.c:48-109 | the encoding is never longer than the input by more than one byte per 127 begun, and the end marker |
| `Rle.SizeBoundReached` | TinyAPRS/bertos/algo/rle.c:66-94 | every input without two equal neighbours reaches the bound |
| `Fletcher.Context.constructor` | TinyAPRS/bertos/algo/fletcher32.c:41-46 | a fresh context stands for the empty message |
| `Fletcher.Context.AddWord` | TinyAPRS/bertos/algo/fletcher32.c:76-77 | both sums stand for one word more, and neither leaves 32 bits |
| `Fletcher.Context.AddChunk` | TinyAPRS/bertos/algo/fletcher32.c:72-83 | up to 360 words with their prefetch and one reduction keep both sums in their residue class and bring them back below 65896 and 131071 |
| `Fletcher.Context.Begin` | TinyAPRS/bertos/algo/fletcher32.c:50-69 | the carried byte, the first word and the number of words are those of the message so far with the new piece, for odd, even and empty pieces |
| `Fletcher.Context.Update` | TinyAPRS/bertos/algo/fletcher32.c:48-85 | the context then stands for the message with the piece appended, whatever lies outside the piece in memory |
| `Fletcher.Context.Final` | TinyAPRS/bertos/algo/fletcher32.c:87-106 | both halves are the representatives in 1..65535 of the sum of words and the sum of prefix sums |
| `Fletcher.BoundedFits` | TinyAPRS/bertos/algo/fletcher32.c:69-84 | sums within the bounds between chunks cannot overflow during up to 360 words, and one reduction restores the bounds |
| `Fletcher.Checksum` | TinyAPRS/bertos/algo/fletcher32.c:41-106 | however a message is cut into pieces, the result is the digest of the whole message |
| `Fletcher.DigestOverBytes` | TinyAPRS/bertos/algo/fletcher32.c:48-106 | over the bytes: the low half is in 1..65535 and congruent to the sum of even bytes plus 256 times the odd ones, the high half likewise with each byte weighted by the number of words from its own to the last |
| `Fletcher.ZeroPadded` | TinyAPRS/bertos/algo/fletcher32.c:93-99 | a zero byte appended to a message of odd length leaves the digest as it is |
| `Fletcher.ChunkIsLargest` | TinyAPRS/bertos/algo/fletcher32.c:72-72 | 360 words of all ones fit 32 bits from a fresh context, 361 do not |
| `Kiss.InTime` | TinyAPRS/TinyAPRS/net/kiss.c:88-94 | up to two seconds of true time are never taken for a timeout, wherever the tick counter wraps |
| `Kiss.LateIff` | TinyAPRS/TinyAPRS/net/kiss.c:88-94 | as long as the counter has not wrapped half, a byte is late if and only if more than 2000 ticks have passed |
| `Kiss.Reader.Poll` | TinyAPRS/TinyAPRS/net/kiss.c:79-129 | one poll moves the decoder as specified and delivers what the byte completes, through a buffer and an eight bit length |
| `Kiss.LengthFits` | TinyAPRS/TinyAPRS/reader.h:33-33 | in every reachable state the length fits eight bits, and no frame delivered is empty or longer than 255 bytes |
| `Kiss.Serial.Begin` | TinyAPRS/TinyAPRS/net/kiss.c:305-309 | a delimiter and the header go out, the header with port and command in one half each |
| `Kiss.Serial.Send` | TinyAPRS/TinyAPRS/net/kiss.c:311-326 | the wire form of every byte goes out in order |
| `Kiss.Serial.SendFrame` | TinyAPRS/TinyAPRS/net/kiss.c:333-357 | exactly one encoded frame goes out |
| `Kiss.EscapeAppend` | TinyAPRS/TinyAPRS/net/kiss.c:311-326 | data may be sent in pieces: their wire forms join to that of the whole |
| `Kiss.WireInNumbers` | TinyAPRS/TinyAPRS/net/kiss.c:305-331 | 0xC0 goes out as 0xDB 0xDC and 0xDB as 0xDB 0xDD, all others as they are, between 0xC0, the header byte and 0xC0 |
| `Kiss.Resync` | TinyAPRS/TinyAPRS/net/kiss.c:103-109 | a delimiter puts the decoder between frames, whatever state it was in |
| `Kiss.AfterEscapeInNumbers` | TinyAPRS/TinyAPRS/net/kiss.c:103-128 | after an escape 0xDC stands for 0xC0 and 0xDD for 0xDB, other bytes for themselves; a delimiter there drops the frame |
| `Kiss.PayloadBytes` | TinyAPRS/TinyAPRS/net/kiss.c:110-128 | the escaped form of a payload adds exactly the payload to the frame and delivers nothing |
| `Kiss.OneFrame` | TinyAPRS/TinyAPRS/net/kiss.c:79-129 | the encoding of a frame delivers exactly that frame and leaves the decoder between frames |
| `Kiss.Delivered` | TinyAPRS/TinyAPRS/net/kiss.c:79-129 | from any decoder state and after any bytes ending in a delimiter, the encodings of any list of frames deliver exactly those frames in order, if no gap between stored bytes exceeds two seconds |
| `Kiss.PollAll` | TinyAPRS/TinyAPRS/net/kiss.c:79-129 | polling every byte of a stream takes the reader through the specified states and delivers the specified frames |
| `Kiss.SendAll` | TinyAPRS/TinyAPRS/net/kiss.c:333-357 | sending a list of frames puts their encodings on the line in order |
| `Kiss.ThereAndBack` | TinyAPRS/TinyAPRS/net/kiss.c:79-357 | any list of frames sent through the encoder and polled byte by byte by a decoder between frames comes out as it was, and leaves the decoder between frames |
| `Kiss.HeldBound` | TinyAPRS/TinyAPRS/net/kiss.c:79-129 | the decoder invents nothing: bytes delivered and held never exceed those that came in and were neither delimiter nor escape |
| `Kiss.LateLoses` | TinyAPRS/TinyAPRS/net/kiss.c:88-94 | a byte that comes too late always costs bytes that were collected before it |
| `Kiss.GetsThroughIff` | TinyAPRS/TinyAPRS/net/kiss.c:79-129 | a frame on its own comes out whole if and only if its header is neither delimiter nor escape, it has at most 254 payload bytes and no byte comes too late |
| `KissConfig.ComputeCrc` | TinyAPRS/TinyAPRS/utils.c:140-147 | up to 255 bytes, the loop computes the complement of the sum of all bytes in eight bits |
| `KissConfig.CrcEndsIff` | TinyAPRS/TinyAPRS/utils.c:140-147 | the eight bit index reaches the end if and only if there are at most 255 bytes |
| `KissConfig.VerifiedIffSum` | TinyAPRS/TinyAPRS/net/kiss.c:375-382 | a payload passes the check if and only if the sum of all its bytes, the checksum included, is 255 modulo 256 |
| `KissConfig.OneChangeDetected` | TinyAPRS/TinyAPRS/net/kiss.c:375-382 | changing any one byte of a payload that passes makes it fail |
| `KissConfig.VerifyConfig` | TinyAPRS/TinyAPRS/net/kiss.c:375-382 | the check with its checksum loop accepts exactly the payloads whose last byte is the checksum of the others |
| `KissConfig.Respond` | TinyAPRS/TinyAPRS/net/kiss.c:400-407 | data and checksum sent in two pieces are one encoded frame |
| `KissConfig.ResponseAccepted` | TinyAPRS/TinyAPRS/net/kiss.c:400-461 | every response with at most 253 data bytes passes the device's own decoder and its own check |
| `KissConfig.TextReadsBackIff` | TinyAPRS/TinyAPRS/settings.c:233-261 | a beacon text reads back as written if and only if it has no NUL and at most 73 bytes |
| `KissConfig.Device.HandleFrame` | TinyAPRS/TinyAPRS/net/kiss.c:135-229 | for every frame the decoder can deliver, settings, bytes sent and the action for the modem or a restart are those specified, malformed and unverified frames included |
| `KissConfig.Device.HandleConfigCommand` | TinyAPRS/TinyAPRS/net/kiss.c:409-494 | each of the four commands reads or writes as specified, and data of a wrong length is ignored |
| `KissConfig.RequestHandled` | TinyAPRS/TinyAPRS/net/kiss.c:160-188 | a request with its checksum reaches its handler with exactly its data |
| `KissConfig.OnlyVerifiedFramesAct` | TinyAPRS/TinyAPRS/net/kiss.c:135-229 | a frame whose checksum is wrong changes no setting, sends nothing and does not restart the device |
| `KissConfig.DataGoesToModem` | TinyAPRS/TinyAPRS/net/kiss.c:160-164 | a frame goes to the modem if and only if its header is 0 and it has a payload; then the payload goes there whole, and nothing else happens |
| `KissConfig.OthersIgnored` | TinyAPRS/TinyAPRS/net/kiss.c:135-229 | frames that are too short, for another port or for no known command have no effect |
| `KissConfig.QueriesAnswered` | TinyAPRS/TinyAPRS/net/kiss.c:409-461 | in numbers: parameters, call data and text are answered with what is stored, a text that was never set with the default one, an empty one not at all |
| `KissConfig.MagicsAnswered` | TinyAPRS/TinyAPRS/net/kiss.c:463-494 | in numbers: one magic is answered with the version 1.0 build 2332, the other with an empty response and a restart |
| `KissConfig.WritesAnswered` | TinyAPRS/TinyAPRS/net/kiss.c:409-461 | in numbers: 11 bytes of parameters, 28 of call data or any text are stored and acknowledged, other lengths ignored |
| `KissConfig.StoreTextIs` | TinyAPRS/TinyAPRS/settings.c:255-261 | up to 127 bytes of a text are stored with a zero behind them, and the rest of the store is kept |
| `KissConfig.Relay` | TinyAPRS/TinyAPRS/net/kiss.c:79-164 | a data frame of 1 to 254 bytes, encoded and polled byte by byte, ends as exactly its payload at the modem |
| `KissConfig.EachCommandItsOwn` | TinyAPRS/TinyAPRS/net/kiss.c:135-494 | whatever frame comes in, each part of the settings changes only at the verified request of its own command and to what the request carries, a change is acknowledged, and only one magic restarts the device |
| `KissConfig.AnswerIsOneResponse` | TinyAPRS/TinyAPRS/net/kiss.c:400-494 | whatever frame comes in, the answer is nothing or one response short enough for the device's own decoder |
| `KissConfig.DamagedRequestIgnored` | TinyAPRS/TinyAPRS/net/kiss.c:135-229 | a request with any one payload byte changed has no effect |
| `KissConfig.SettingsReadBack` | TinyAPRS/TinyAPRS/net/kiss.c:409-461 | parameters and call data read back as written, and writing one leaves the other alone |
| `Digi.FirstFrom` | TinyAPRS/TinyAPRS/digi.c:149-153 | the entry chosen asks for a repeat and no earlier one does |
| `Digi.WideIff` | TinyAPRS/TinyAPRS/digi.c:151-151 | in numbers: the names that count are WIDE1, WIDE2 and WIDE3, each letter in either case |
| `Digi.WideInAnyCase` | TinyAPRS/TinyAPRS/digi.c:151-151 | whether an entry is wanted does not depend on the case of its letters |
| `Digi.NewPathShape` | TinyAPRS/TinyAPRS/digi.c:169-187 | the path never exceeds its maximum; this station stands at the chosen entry, what is left of the hops behind it, and all other entries are as they were |
| `Digi.HandedOnIsWanted` | TinyAPRS/TinyAPRS/digi.c:169-187 | what is handed on is the next entry to be taken up: the same five characters, one hop less, not repeated |
| `Digi.RoomInNumbers` | TinyAPRS/TinyAPRS/digi.c:171-183 | a path has at most eight entries, and only the eighth with more than one hop left has no room |
| `Digi.RepeatCostsAHop` | TinyAPRS/TinyAPRS/digi.c:149-190 | the sum of SSIDs over unrepeated WIDE entries strictly decreases on every repeat, even when the next entry is overwritten |
| `Digi.Packet.CalcHash` | TinyAPRS/TinyAPRS/digi.c:65-83 | the three loops compute a 16 bit hash of source, destination and payload, and of nothing else |
| `DigiHash.HashIsPolynomial` | TinyAPRS/TinyAPRS/digi.c:65-83 | the hash is the polynomial in 31, modulo 65536, whose coefficients are the call characters as signed bytes, the SSIDs and the payload in order |
| `DigiHash.OneByteTold` | TinyAPRS/TinyAPRS/digi.c:65-83 | messages that differ in exactly one byte of source, destination or payload have different hashes |
| `Digi.Node.Search` | TinyAPRS/TinyAPRS/digi.c:88-98 | the backward search of the ring finds a match if and only if one of the last eight records matches |
| `Digi.Node.Append` | TinyAPRS/TinyAPRS/digi.c:99-104 | the ring keeps holding the last eight records when one is added |
| `Digi.Node.CheckDuplicated` | TinyAPRS/TinyAPRS/digi.c:88-106 | the answer is that of the last eight records, and exactly the messages that are new are recorded |
| `Digi.Node.RewritePath` | TinyAPRS/TinyAPRS/digi.c:169-187 | the slots rewritten in place hold the specified new path |
| `Digi.Node.HandleMessage` | TinyAPRS/TinyAPRS/digi.c:116-193 | what is sent and what is recorded are as specified; a message not sent is unchanged, or has lost one hop if it was dropped for lack of room |
| `Digi.SpoiledCosts` | TinyAPRS/TinyAPRS/digi.c:169-183 | a message dropped for lack of room has lost exactly one hop and nothing else |
| `Digi.RecordedIff` | TinyAPRS/TinyAPRS/digi.c:149-190 | exactly the new messages that ask for a repeat are recorded, room or not, and of those exactly the ones with room are repeated |
| `Digi.DuplicateIff` | TinyAPRS/TinyAPRS/digi.c:92-98 | a message counts as a duplicate if and only if one of the last eight records matches, or the ring is not full, its hash is zero and the clock is below 15 seconds |
| `Digi.OldRecordsDoNotCount` | TinyAPRS/TinyAPRS/digi.c:94-94 | records at least 15 seconds old make no duplicates |
| `Digi.RecentRecordCounts` | TinyAPRS/TinyAPRS/digi.c:92-98 | a record among the last eight and less than 15 seconds old does |
| `Digi.BlankSlotMatches` | TinyAPRS/TinyAPRS/digi.c:92-98 | two messages of different content, of which a node that has just started repeats the first and takes the second for a duplicate although nothing like it was recorded |
| `Digi.RecordsAreKept` | TinyAPRS/TinyAPRS/digi.c:99-104 | over every run, records are only ever added |
| `Digi.NoEarlyRepeat` | TinyAPRS/TinyAPRS/digi.c:88-190 | in every run, two messages of equal source, destination and payload are both repeated less than 15 seconds apart only if eight records were made after the first |
| `Digi.EchoIsDropped` | TinyAPRS/TinyAPRS/digi.c:156-188 | a repeat heard back within 15 seconds, through whatever path, is not taken up again |
| `DigiNetwork.RepeatCosts` | TinyAPRS/TinyAPRS/digi.c:149-190 | whatever a node repeats is well formed and has fewer hops left |
| `DigiNetwork.StepKeeps` | TinyAPRS/TinyAPRS/digi.c:149-190 | every step of a network keeps hops made plus hops left within the original hop count |
| `DigiNetwork.ChainsAreShort` | TinyAPRS/TinyAPRS/digi.c:149-190 | in every run of a network of any number of nodes, no chain of repeats is longer than the hop count the message started with |
| `DigiNetwork.StepWeighsLess` | TinyAPRS/TinyAPRS/digi.c:149-190 | every step lowers a weight of what is on the air, whoever hears what |
| `DigiNetwork.DiesOut` | TinyAPRS/TinyAPRS/digi.c:149-190 | every run of a network ends, after at most that weight of steps |
| `DigiNetwork.OneMessageDiesOut` | TinyAPRS/TinyAPRS/digi.c:149-190 | one message among n nodes causes at most n times (n + 1) to the power of its hop count receptions |
| `DigiNetwork.RepeatedAlong` | TinyAPRS/TinyAPRS/digi.c:149-190 | along a line of stations that have just started, WIDEn-N with n from 1 to 3 is repeated by N of them up to eight, by seven for more, and by no further one; each leaves its call, marked, and one hop less |
| `DigiNetwork.AlongBudget` | TinyAPRS/TinyAPRS/digi.c:149-190 | hops left and stations passed make up the hops it started with |
| `DigiNetwork.ChainReachesBound` | TinyAPRS/TinyAPRS/digi.c:149-190 | in such a network there is a run in which the chain of repeats is that long, so that the bound on chains is reached |
| `CrcTheory.TwoBytes` | TinyAPRS/bertos/algo/crc_ccitt.h:56-59 | two bytes go through the register as one word through sixteen shifts |
| `CrcTheory.PairErrorDetected` | TinyAPRS/bertos/algo/crc_ccitt.c:75-82 | for every lawful register, messages of equal length that differ only inside one adjacent pair of bytes differ in checksum |
| `CrcTheory.SerialIsShifts` | TinyAPRS/bertos/algo/crc_ccitt.h:56-59 | adding the bits of a byte one at a time comes to the same as adding them all in front |
| `CrcTheory.Loop` | TinyAPRS/bertos/algo/crc.c:94-101 | a loop over a buffer with an update that does eight shifts computes the checksum defined shift by shift |
| `CrcTheory.FoldIsCrc` | TinyAPRS/bertos/algo/crc.c:94-101 | any step that does for each byte what eight shifts do gives the same checksum for every message |
| `CrcCcitt.TableIsEightShifts` | TinyAPRS/bertos/algo/crc_ccitt.c:40-73 | each of the 256 entries is its index after eight shifts by the reflected polynomial 0x8408 |
| `CrcCcitt.UpdateIsFeed` | TinyAPRS/bertos/algo/crc_ccitt.h:56-59 | the table step is eight shifts of the register, for every byte and register |
| `CrcCcitt.TableAndBitsAgree` | TinyAPRS/bertos/algo/crc_ccitt.h:56-59 | the table step equals feeding the eight bits one by one, low bit first |
| `CrcCcitt.BitByBit` | TinyAPRS/bertos/algo/crc_ccitt.c:75-82 | for every message, feeding all bits one by one, low bit first, is the CRC defined by shifts of whole bytes |
| `CrcCcitt.Compute` | TinyAPRS/bertos/algo/crc_ccitt.c:75-82 | for every message and start value the table-driven loop computes the CRC shift by shift, and the CRC with every bit of every byte fed by the conditional step with 0x8408 |
| `CrcCcitt.Residue` | TinyAPRS/bertos/algo/crc_ccitt.c:75-82 | a message followed by its complemented CRC, low byte first, leaves 0xF0B8, as in section C.2 of RFC 1662 |
| `CrcCcitt.CheckValue` | TinyAPRS/bertos/algo/crc_ccitt.c:40-82 | the digits 1 to 9 have the CRC 0x6F91 from the start value 0xFFFF |
| `CrcCcitt.ResidueOnlyOf` | TinyAPRS/bertos/algo/crc_ccitt.c:75-82 | no other two bytes leave that residue |
| `CrcCcitt.PairErrors` | TinyAPRS/bertos/algo/crc_ccitt.c:75-82 | damage inside one adjacent pair of bytes always changes the CRC |
| `Crc16.StepIsWired` | TinyAPRS/bertos/algo/crc.c:56-92 | the shift with its conditional exclusive or of 0x1021 is a fixed wiring, which makes it linear |
| `Crc16.TableIsEightShifts` | TinyAPRS/bertos/algo/crc.c:59-92 | each of the 256 entries is its index, in the high byte, after eight shifts by 0x1021 |
| `Crc16.UpdateIsFeed` | TinyAPRS/bertos/algo/crc.h:87-94 | the table step is eight shifts of the register, for every byte and register |
| `Crc16.BitByBit` | TinyAPRS/bertos/algo/crc.c:94-101 | for every message, feeding all bits one by one, high bit first, is the CRC defined by shifts of whole bytes |
| `Crc16.Compute` | TinyAPRS/bertos/algo/crc.c:94-101 | for every message and start value the table-driven loop computes the CRC shift by shift, and the CRC with every bit of every byte fed by the conditional step with 0x1021 |
| `Crc16.ZeroIff` | TinyAPRS/bertos/algo/crc.c:94-101 | a message followed by two bytes leaves zero if and only if they are its CRC, high byte first |
| `Crc16.CheckValue` | TinyAPRS/bertos/algo/crc.c:59-101 | the digits 1 to 9 have the CRC 0x31C3 from the start value 0 |
| `Crc16.PairErrors` | TinyAPRS/bertos/algo/crc.c:94-101 | damage inside one adjacent pair of bytes always changes the CRC |
| `SoftSerial.Push` | TinyAPRS/TinyAPRS/hw/hw_softser.c:334-337 | storing at the tail of a ring that is not full appends to the queue and changes no unread byte |
| `SoftSerial.FullIff` | TinyAPRS/TinyAPRS/hw/hw_softser.c:334-334 | the ring counts as full if and only if 31 bytes are unread |
| `SoftSerial.Pop` | TinyAPRS/TinyAPRS/hw/hw_softser.c:198-199 | moving the head takes away the oldest byte, which is the one found there |
| `SoftSerial.Port.Receive` | TinyAPRS/TinyAPRS/hw/hw_softser.c:333-343 | a byte is appended, or lost with the overflow flag set exactly when 31 bytes are unread |
| `SoftSerial.Port.Interrupts` | TinyAPRS/TinyAPRS/hw/hw_softser.c:333-343 | of any burst exactly as many bytes are accepted, in order, as there is room for |
| `SoftSerial.Port.Read` | TinyAPRS/TinyAPRS/hw/hw_softser.c:188-205 | with arbitrary interrupts in every gap between accesses and in either order of the two compared, the reader gets the oldest byte, finds nothing only if nothing was unread when the tail was read, and loses nothing that was accepted |
| `SoftSerial.Port.Available` | TinyAPRS/TinyAPRS/hw/hw_softser.c:207-213 | the count lies between what was unread before and what is unread after, in either order of the two accesses |
| `SoftSerial.Session` | TinyAPRS/TinyAPRS/hw/hw_softser.c:188-343 | over any session, what the reader got followed by what is in the ring is what was accepted |
| `Ramp.Ramp.Compute` | TinyAPRS/bertos/algo/ramp.c:109-136 | the ratio is the true one of different wavelengths, and the reciprocal that of the length, each rounded down at the last place |
| `Ramp.Ramp.Evaluate` | TinyAPRS/bertos/algo/ramp.c:189-196 | within the ramp, from where clock times reciprocal reaches 65536, it does not divide by zero; for roomy wavelengths the result lies between the shortest one and the bound set by the ratio, and near the exact value of the formula |
| `Ramp.TimeFits` | TinyAPRS/bertos/algo/ramp.c:191-191 | within the ramp the scaled time is the plain quotient: nothing is cut off |
| `Ramp.TimeError` | TinyAPRS/bertos/algo/ramp.c:191-191 | the scaled time is never ahead of the true fraction of the ramp and less than 258/65536 behind it |
| `Ramp.TimeGrows` | TinyAPRS/bertos/algo/ramp.c:191-191 | the scaled time does not decrease with the clock |
| `Ramp.DenominatorIs` | TinyAPRS/bertos/algo/ramp.c:184-192 | for a time other than zero no step of the denominator wraps, it fits 16 bits and is at least the ratio |
| `Ramp.DenominatorZeroIff` | TinyAPRS/bertos/algo/ramp.c:192-192 | the denominator is zero if and only if the scaled time is |
| `Ramp.DividesByZeroIff` | TinyAPRS/bertos/algo/ramp.c:189-196 | the code divides by zero if and only if clock times reciprocal is below 65536 |
| `Ramp.FirstClocksDivideByZero` | TinyAPRS/bertos/algo/ramp.c:189-196 | an accepted ramp on which the first 20 clocks all divide by zero |
| `Ramp.RatioIs` | TinyAPRS/bertos/algo/ramp.c:124-124 | for different wavelengths the ratio is the rounded quotient and fits 16 bits |
| `Ramp.RatioExceedsIff` | TinyAPRS/bertos/algo/ramp.c:124-124 | wavelengths are roomy, min * (65536 - max) >= max, if and only if the scaled ratio exceeds the shorter one |
| `Ramp.ShortWavelengthsAreRoomy` | TinyAPRS/bertos/algo/ramp.c:124-124 | all different wavelengths up to 32768 are roomy |
| `Ramp.EqualWavelengths` | TinyAPRS/bertos/algo/ramp.c:111-124 | equal wavelengths pass the assertion and have their ratio cut to zero |
| `Ramp.DenominatorError` | TinyAPRS/bertos/algo/ramp.c:184-192 | the denominator lies at most at, and less than two below, the exact scaled value |
| `Ramp.DenominatorGrows` | TinyAPRS/bertos/algo/ramp.c:184-192 | the denominator does not decrease with time |
| `Ramp.ResultRange` | TinyAPRS/bertos/algo/ramp.c:189-196 | for all roomy wavelengths the result is not cut off and lies between the shortest wavelength and the bound set by the ratio |
| `Ramp.ResultError` | TinyAPRS/bertos/algo/ramp.c:189-196 | for all roomy wavelengths the result is less than one below the exact value of the formula, and above it by no more than an error of two in the scaled denominator |
| `Ramp.ResultIsSound` | TinyAPRS/bertos/algo/ramp.c:189-196 | for all roomy wavelengths every result is in range and near the exact value |
| `Ramp.ResultShrinks` | TinyAPRS/bertos/algo/ramp.c:189-196 | for all roomy wavelengths, later on the ramp the result is never longer |
| `Ramp.UncutIff` | TinyAPRS/bertos/algo/ramp.c:193-193 | one result is the true quotient if and only if its denominator exceeds the shortest wavelength |
| `Ramp.NeverCutIff` | TinyAPRS/bertos/algo/ramp.c:109-196 | of the wavelengths that ramp_compute accepts, no result of any accepted ramp is cut off if and only if they differ and min * (65536 - max) >= max |
| `Ramp.LongWavelengthCutOff` | TinyAPRS/bertos/algo/ramp.c:189-196 | an accepted ramp of 2^20 clocks between wavelengths 1 and 65535 whose result at clock 20 is zero |
| `Md2.PermIsPermutation` | TinyAPRS/bertos/algo/md2.c:100-109 | the computed substitution is a permutation of the bytes: each byte is the image of exactly one |
| `Md2.PermValues` | TinyAPRS/bertos/algo/md2.c:100-109 | four of its values |
| `Md2.PaddedTells` | TinyAPRS/bertos/algo/md2.c:120-133 | no two messages are equal once padded |
| `Md2.CarriedByte` | TinyAPRS/bertos/algo/md2.c:176-176 | between blocks, the last byte of the checksum is the byte that RFC 1319 carries from one block to the next |
| `Md2.Encrypt` | TinyAPRS/bertos/algo/md2.c:163-172 | the nested loops in place compute the rounds of section 3.4 of RFC 1319, for every substitution and round count |
| `Md2.UpdateChecksum` | TinyAPRS/bertos/algo/md2.c:176-182 | a checksum of whole blocks becomes the checksum of one block more, as section 3.2 with its erratum defines it over the whole message |
| `Md2.Compute` | TinyAPRS/bertos/algo/md2.c:135-189 | state and checksum of the blocks so far become those of one block more |
| `Md2.MixIsCells` | TinyAPRS/bertos/algo/md2.c:163-172 | the rounds as a recurrence: each byte is its value one round before, combined with the substitute of what was made just before it |
| `Md2.AbsorbIsCells` | TinyAPRS/bertos/algo/md2.c:151-172 | each byte of the state after one block more is a value of that recurrence from state, block and their combination side by side |
| `Md2.ChecksumIsTrace` | TinyAPRS/bertos/algo/md2.c:176-182 | the checksum as a recurrence: the byte made for each message byte is the one made sixteen before, combined with a substitute; the checksum is the last sixteen |
| `Md2.Context.constructor` | TinyAPRS/bertos/algo/md2.c:196-201 | a fresh context holds the empty message |
| `Md2.Context.Update` | TinyAPRS/bertos/algo/md2.c:206-247 | the context then holds the message with the input appended, also when the input is the context's own checksum or state and is used up before they change |
| `Md2.Context.FillUp` | TinyAPRS/bertos/algo/md2.c:256-269 | the context then holds the message padded as in section 3.1 |
| `Md2.Context.End` | TinyAPRS/bertos/algo/md2.c:256-278 | the array returned is the context's state and holds the digest of RFC 1319 of everything that was fed |
| `Md2.DigestIsLastBlock` | TinyAPRS/bertos/algo/md2.c:256-278 | the digest is the state after the padded message and then those sixteen bytes as a block of their own |
| `Md2.DigestInPieces` | TinyAPRS/bertos/algo/md2.c:196-278 | wherever a message is cut into updates, the result is the digest of the whole message |
| `Md2.FirmwareDigest` | TinyAPRS/bertos/algo/md2.c:86-278 | the digest of RFC 1319 for every cipher with 18 rounds, the exclusive or, addition modulo 256 and the firmware's substitution |
| `Md2.DigestAlike` | TinyAPRS/bertos/algo/md2.c:135-278 | the digest depends on the values of substitution, combination and addition and on nothing else |
| `Tea.RoundsUndo` | TinyAPRS/bertos/algo/tea.c:92-126 | one round of each kind undoes one of the other, in both orders |
| `Tea.FuncBits` | TinyAPRS/bertos/algo/tea.c:69-72 | in products and quotients modulo 2^32: each bit of tea_func is the sum without carry of that bit of 16 x + k0, of x + sum and of x / 32 + k1 |
| `Tea.XorBits` | TinyAPRS/bertos/algo/tea.c:69-72 | each bit of an exclusive or is the sum of the two bits without carry |
| `Tea.RoundInNumbers` | TinyAPRS/bertos/algo/tea.c:92-97 | which half each step of round n + 1 changes, with which key words, in which order and with the sum 0x9E3779B9 times n + 1 |
| `Tea.WordsAsTheyAre` | TinyAPRS/bertos/algo/tea.c:86-100 | on a little-endian processor the words of block and key are taken and left as they are |
| `Tea.ProductIsStart` | TinyAPRS/bertos/algo/tea.c:113-113 | DELTA times n modulo 2^32, where decryption starts, is the sum after n additions of DELTA |
| `Tea.SumsClimb` | TinyAPRS/bertos/algo/tea.c:92-97 | after n rounds the ascending sum is the one decryption starts from |
| `Tea.SumsFall` | TinyAPRS/bertos/algo/tea.c:113-126 | the descending sums pass through the same values back to zero |
| `Tea.Encipher` | TinyAPRS/bertos/algo/tea.c:81-101 | the block in memory is replaced by the specified encryption of it |
| `Tea.Decipher` | TinyAPRS/bertos/algo/tea.c:110-130 | the block in memory is replaced by the specified decryption of it |
| `Tea.FirmwareEncipher` | TinyAPRS/bertos/algo/tea.c:69-101 | with tea_func and 32 rounds the block is replaced by the specified encryption |
| `Tea.FirmwareDecipher` | TinyAPRS/bertos/algo/tea.c:69-130 | with tea_func and 32 rounds the block is replaced by the specified decryption |
| `Tea.DecipherUndoesEncipher` | TinyAPRS/bertos/algo/tea.c:69-130 | decryption undoes encryption for every block, key, round count and byte order |
| `Tea.EncipherUndoesDecipher` | TinyAPRS/bertos/algo/tea.c:69-130 | encryption undoes decryption for every block, key, round count and byte order |
| `Tea.ThereAndBack` | TinyAPRS/bertos/algo/tea.c:81-130 | encryption and then decryption in place leave the block in memory as it was |
| `Tea.FirmwareThereAndBack` | TinyAPRS/bertos/algo/tea.c:69-130 | the same for tea_func and 32 rounds |
| `Tea.SameOnEitherCpu` | TinyAPRS/bertos/algo/tea.c:81-130 | the same bytes in memory become the same bytes on processors of either byte order |
| `Callsign.Call.ToString` | TinyAPRS/TinyAPRS/utils.c:80-104 | the buffer then starts with the text and its terminator, the rest of it is as before, and the length with terminator is returned |
| `Callsign.Call.FromString` | TinyAPRS/TinyAPRS/utils.c:110-135 | the structure is what the text names, for every text and with the length cut to eight bits |
| `Callsign.SsidBack` | TinyAPRS/TinyAPRS/utils.c:88-101 | an SSID printed is read back if it is below 100, and as its last digit otherwise |
| `Callsign.SuffixInNumbers` | TinyAPRS/TinyAPRS/utils.c:88-101 | in numbers: a dash and one or two digits, and a star behind for the top bit |
| `Callsign.AnyCase` | TinyAPRS/TinyAPRS/utils.c:110-135 | texts that differ only in the case of their letters name the same station, in upper case |
| `Callsign.LongCallIsCut` | TinyAPRS/TinyAPRS/utils.c:119-128 | of a call longer than six characters the first six are taken, and its SSID is read all the same |
| `Callsign.OnlyDigitsCount` | TinyAPRS/TinyAPRS/utils.c:130-132 | whatever is no digit is passed over in an SSID |
| `Callsign.ThreeDigits` | TinyAPRS/TinyAPRS/utils.c:130-132 | an SSID of three digits is taken modulo 256 |
| `Callsign.RoundTripIff` | TinyAPRS/TinyAPRS/utils.c:80-135 | printing and parsing give the station back if and only if its call is zero-padded, without dash or lower case, and its SSID is at most 99 |
| `Callsign.ParsedIsStable` | TinyAPRS/TinyAPRS/utils.c:110-135 | whatever text was parsed, printing and parsing again change nothing if and only if its SSID is at most 99 |
| `Callsign.TextFits` | TinyAPRS/TinyAPRS/utils.c:80-104 | the text with its terminator takes at most 11 bytes, and more than 10 only for six characters, two digits and the repeated mark together |
| `Callsign.PrintAndParse` | TinyAPRS/TinyAPRS/utils.c:80-135 | the two routines run through one buffer copy a station if and only if that condition holds |
| `Callsign.BufferHoldsText` | TinyAPRS/TinyAPRS/utils.c:80-135 | a buffer that a station was printed to is parsed as exactly its text, whatever lies behind it |

## Left out

- Assertions of debug builds are not modelled as failures; where one excludes an input that the code itself handles, the input is in the model.
- Chip reset, chip select, status polling, opcodes and dummy bits of the flash chip: the chip is main memory pages, one buffer and a status byte.
- The section of dataflash.c that is switched off, and failure of the serial channel to the chip.
- Fletcher.Context.Update: does not model the wrap-around of the incremented length for a piece as long as the whole address space.
- Rle.Expand: a stream without an end marker makes the C code read beyond its input; the model asks for a complete stream and room for the result.
- The second reading of the timer in kiss_poll_serial is taken to be the same as the first, and so are the two readings in the duplicate check.
- kiss_send_to_modem: its loop ends only under assumptions about the random source and the radio channel; the model records that a payload was handed to it.
- KissConfig.Device.HandleFrame: the defaults for call data that was never stored are part of the settings, and settings_load and the EEPROM layout are not modelled.
- DigiNetwork.OneMessageDiesOut: transmissions arrive unchanged or not at all; AX.25 framing, bit stuffing and the AFSK modem are not part of this model.
- The hash of the digipeater is not free of collisions, and nothing is claimed about messages of different content with the same hash.
- SoftSerial.Port.Read: sampling of bits, switching between ports and the output side are left out, and each access to a one byte index is atomic.
- Ramp.Ramp.Evaluate: the floating point variant, ramp_setup and the unused fix_mult32 are left out.
- Md2.Encrypt: the standard substitution table is covered only as one of all possible substitutions, and the clearing of the temporary array is not stated.
- Tea.Encipher: the mixing function and the number of rounds are parameters, because nothing in the undoing depends on them; FirmwareEncipher and FirmwareDecipher fix them.
- GPS parsing, great-circle distance, smart beaconing, PID control: floating point.
- Console commands, run modes, LCD, ConfigTool and drivers: input and output or single branches.

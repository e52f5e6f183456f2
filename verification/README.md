# ANITA flight software: verified models of the codecs and stores

This project models, in Dafny, the parts of the ANITA flight software that turn
waveforms into telemetry and keep its configuration, and proves what they
promise. `dafny verify dfyconfig.toml` checks all of it.

* **Bits and cursors** (`Bits`, `BitCursor`, `CodeScan`, `Records`): a byte
  buffer is also one flat bit string, bit `8 * byte + bit`. The writing loop
  that the encoders repeat, the reading of a field through a 32-bit window and
  the search for a codeword in that window are proved once against that view.
* **Fibonacci codes** (`Fibonacci`): greedy coding over a table of any length,
  Zeckendorf's theorem, unique decodability.
* **Packing routines** (`CompUtils`, `Pack12Bit`): `bitpack`/`bitstrip`,
  `codepack`/`codeunpack`, the zig-zag map, four 12-bit values in three words.
* **Waveform encodings** (`WaveBinary`, `WaveFibonacci`, `WaveBinFib`,
  `WaveBinFibDecode`, `ComboRecovery`, `ComboExact`, `ComboTail`, `ComboWide`):
  encoder and decoder of each, and which waveforms come back: exactly, but for
  the combined encoding of ranges from 1024 on.
* **Channel and event** (`Encoding`, `Checksum`, `Channel`, `ChannelCodec`,
  `ChannelTrip`, `EventFormat`, `EventPack`, `EventUnpack`, `EventTrip`,
  `EventAltered`, `Formats`): the checksummed channel record, the event of 12
  times 9 records in a wrapper, their round trips, what one altered word does to
  an event, what lies where in the bytes, and what the decoders refuse.
* **Telemetry frames** (`TelemWrap`): the frame writer with its counter, and
  the loop that walks a recorded stream.
* **Link queues** (`WatchCache`, `LinkWatch`): heap-allocated doubly linked
  lists that refine sequences, and the one-entry lookup cache.
* **Key/value store**, as a table of texts (`KvpText`, `KvpValidate`, `KvpFloats`,
  `KvpStore`, `KvpTrip`, `KvpInts`, `KvpCodes`, `KvpRefusal`, `KvpLetters`): the
  parser, the printer and the number scanner of the configuration library, the
  grammars the scanner accepts, the result code of each call, their round trips,
  and what a refused record costs.
* **Key/value store**, as it lies in memory (`KvpMemory`, `KvpParser`,
  `KvpBuffer`, `KvpOps`, `KvpPlaces`, `KvpSetters`, `KvpSteps`, `KvpTable`):
  offsets into one buffer of characters in which records are copied, cut by
  zeros and grown; the class works in place on arrays, and while all texts lie
  below the free space it does to memory what the table of texts says.
* **Runs of the key/value store** (`KvpLatest`, `KvpRuns`, `KvpBooks`,
  `KvpExposed`, `KvpNext`, `KvpOverwrite`): what every call keeps; the texts, the
  buffer's size and the free space over a whole run, told from the calls alone;
  exactly when the next record, update or set can be relied on after a refused
  record, and an input after which it could not.

Code that works step by step is modelled by methods and classes with the same
loops and fields; each is proved against a function of its inputs or its old
state, and the theorems are about those functions. Shifts, masks and ORs are
functions on natural numbers with their bit-by-bit laws; every 16-bit or 32-bit
truncation of the source is written out. What C leaves undefined becomes a
parameter nothing is assumed about: the memory behind a record, the value of
bit 32 of an `int` (a function of the position), the memory of the decoder's
table and of the samples. The mu-law decoder and the filling of generic headers
are parameters too.

What the proofs bring to light:

* The Fibonacci waveform encoder keeps a code of up to 24 bits in an unsigned
  short; exactly the waveforms within -798..797 of the stored mean survive.
* The lossless binary encoder changes one kind of sample only: when the range
  holds exactly 2^b values, the largest comes back as the mean. Ranges of 0 and
  of 2048 upwards are announced as 12-bit and then refused by the decoder.
* The combined encoding is safe exactly up to 256 samples outside with tail
  numbers of 16 bits, provided zeros follow; nothing in a record ends the
  decoder's search, and bytes 0xFF behind it overrun the table of 256. Four zero
  bytes d bytes behind the record suffice while 4 d + 4 slots are left.
* For ranges of 1024 and more the combined encoding writes fields wider than the
  ten bits the decoder reads: the wave is lost, unless the first field read
  happens to be a flag.
* The lookup cache answers wrongly exactly for the cached descriptor after a
  search that found nothing. A refresh that begins with that descriptor leaves
  its queue undrained and empties another one.
* Refreshing gives every queue its directory's list, whatever it held, if and
  only if no directory is watched twice. Of two watches of one directory the
  first ends empty and the other is never drained, so it grows with each refresh.
* A telemetry payload of 65535 bytes gives a frame with size 0 and checksum 0.
  The walking loop fits frames with a 4-byte counter.
* Storing a string in the key/value store asks for one byte too few. The text
  loses its last character exactly when just the characters asked for are free,
  or when the buffer is full of texts and is grown by just that many: the first
  string in a fresh store, if key and string have 20479 characters.
  Formatting into a buffer of just the text's size is accepted though the last
  character is lost.
* kvpParse moves `spare` only when it accepts a record, but counts the entries of
  a refused one. The next record is copied over their texts: after
  `A#I=1;B#I=2;C#I=x;` and `B#I=1;B#I=2;` two valid entries have the key B, both
  are printed, and A is gone. Whatever the next record, the latest definition
  still wins exactly when every entry the refused one added is invalid and no
  valid entry before it has a key that fits the buffer where its own begins.
* While no text has come to lie in the free space, which a run's calls alone
  decide, the buffer never runs short: whenever it has to grow, all texts and what
  is asked for fit the new one, and every text is kept.
* A refused record invalidates the old entry of the key it was refused at; no
  other key loses its value but one whose last pair in the record has a letter
  the parser does not know where the type table still holds an invalid type.
* The code sets KVP_E_TERMINATOR for a missing semicolon, as its change log
  says, but overwrites it with KVP_E_OK before it returns.
* setupLinkWatchDir returns the descriptor, not the index its comment promises.

## Model

| member | source | states |
|---|---|---|
| BitCursor.PutBits | common/compressLib/compressLib.c:730-754 | the writing loop: bits before and after the field unchanged, the field's bits ORed in at the cursor across byte borders, cursor advanced by their number |
| BitCursor.GetBits | common/compressLib/compressLib.c:1027-1032 | the reading loop: the number whose bits are those of the window from the cursor on |
| BitCursor.ReadField | common/compressLib/compressLib.c:1025-1032 | a field read through the 32-bit window is the number spelt by those bits of the flat bit string |
| CodeScan.FindWord | common/compressLib/compressLib.c:975-1012 | the search for two ones finds the first pair in the window and returns the bits up to it |
| CodeScan.FoundCodeword | common/compressLib/compressLib.c:978-989 | a codeword at the cursor that ends within the window is what the search finds, whatever follows and whatever bit 32 reads as |
| Fibonacci.FNIsTable | common/compressLib/fibonacci.c:10-13 | the table holds the first 24 Fibonacci numbers |
| Fibonacci.EncodeFibonacci | common/compressLib/fibonacci.c:21-42 | for a table of any length and every value below its last entry, the greedy code of the value and its number of bits |
| Fibonacci.FibCodeSound | common/compressLib/fibonacci.c:21-42 | the code of every v >= 1 ends in 11, has no other neighbouring ones, and its bits below the terminator sum to v |
| Fibonacci.FibCodeComplete | common/compressLib/fibonacci.c:21-42 | every such bit string is the code of the number it denotes (Zeckendorf) |
| Fibonacci.Unfibonacci | common/compressLib/fibonacci.c:45-59 | for any word and table, the 16-bit sum of the digits below the first pair |
| Fibonacci.UnfibOfCode | common/compressLib/fibonacci.c:21-59 | decoding the code of v gives v, for a table of any length that covers v |
| Fibonacci.PrefixFree | common/compressLib/fibonacci.c:21-42 | read from the least significant bit, no codeword is a proper prefix of another |
| Fibonacci.UniquelyDecodable | common/compressLib/compUtils.c:136-159 | two different lists of codewords never concatenate to the same bits |
| Fibonacci.SplitConcat | common/compressLib/compUtils.c:178-189 | cutting a stream at each 11 undoes concatenation, padding without a pair adding nothing |
| CompUtils.UnbifurcateBifurcate | common/compressLib/compUtils.c:23-46 | the zig-zag map is undone exactly for every short but -32768 |
| CompUtils.BifurcateUnbifurcate | common/compressLib/compUtils.c:23-46 | and in the other direction exactly for every code but 0 |
| Formats.ZigZagOrder | common/compressLib/compUtils.c:23-46 | 0 goes to 1, and each step away from it to the next odd number above or the next even one below |
| CompUtils.BitPack | common/compressLib/compUtils.c:90-121 | the bytes are the low bits of all words one behind the other, zero-padded; the length is ceil(nwords*nbits/8) |
| CompUtils.WordBitsAt | common/compressLib/compUtils.c:99-118 | bit k*nbits+j of that string is bit j of word k |
| CompUtils.BitStrip | common/compressLib/compUtils.c:78-84 | every word shifted right in place |
| CompUtils.BitpackBitstrip | common/compressLib/compUtils.c:78-121 | packed field and stripped word rebuild the word |
| CompUtils.CountBits | common/compressLib/compUtils.c:138-139 | the number of bits without leading zeros |
| CompUtils.CodePack | common/compressLib/compUtils.c:125-163 | the bytes are the codes one behind the other without their leading zeros, zero-padded |
| CompUtils.CodeUnpack | common/compressLib/compUtils.c:167-191 | the words cut after each 11 or after 32 bits, as numbers, and how many |
| CompUtils.WordsExactly | common/compressLib/compUtils.c:167-191 | the words cut from any bits come from their front in order, each ends at its first pair of ones or else after 32 bits, and what is left over holds no pair and fewer than 32 bits |
| CompUtils.CodepackRoundTrip | common/compressLib/compUtils.c:125-191 | for every list of codes, unpacking the packed bytes gives that list and its length; padding adds no word |
| CompUtils.ShortsRoundTrip | common/compressLib/compUtils.c:23-46 | zig-zag, Fibonacci code, packing and all of it back is the identity on a list of shorts if and only if -32768 is not in it |
| Encoding.WidthsAgree | common/compressLib/compressLib.c:1415-1497 | the width read back from an encoding type is the one written exactly for 1..12, or 1..10 in the combined encoding |
| WaveBinary.EncodeLosslessBinary | common/compressLib/compressLib.c:577-655 | the record: middle of the range, then the codes cut to the least width for the range; the type that names the width |
| WaveBinary.DecodeLosslessBinary | common/compressLib/compressLib.c:657-700 | the samples of any input, how many are stored before a size error, and exactly when that error comes |
| Formats.StoredExactly | common/compressLib/compressLib.c:693-696 | those stored are all up to the first that ends behind the size in the header, and that one |
| Formats.BinaryLayout | common/compressLib/compressLib.c:577-655 | the middle of the range in the first two bytes, low byte first, and sample k's zig-zag code in the k-th b bits behind them |
| WaveBinary.BinaryRoundTrip | common/compressLib/compressLib.c:577-700 | the record decodes to the waveform, whatever follows, if and only if every sample's 16-bit distance from the mean is below 2^(b-1) |
| WaveBinary.ExactWidth | common/compressLib/compressLib.c:577-700 | with all samples in the range, only a sample at the maximum of a range of exactly 2^b values changes, to the mean |
| WaveFibonacci.EncodeLosslessFibonacci | common/compressLib/compressLib.c:702-761 | the record: the mean byte nearest to the channel's mean, then the codes with what an unsigned short keeps of them |
| WaveFibonacci.FibMean | common/compressLib/compressLib.c:712-723 | the first byte, read as a signed char, is the number of -127..127 nearest to the channel's mean |
| ChannelTrip.NearMeanBack | common/compressLib/compressLib.c:702-806 | for a mean of -127..127 the channel comes back if every sample lies within -798..797 of the channel's own mean |
| WaveFibonacci.DecodeLosslessFibonacci | common/compressLib/compressLib.c:763-806 | the samples and result code of any input, samples without a codeword in their window keeping what memory held |
| WaveFibonacci.SizeExactly | common/compressLib/compressLib.c:763-806 | a waveform within -798..797 of the mean, with any size n in its header, gives a size error if and only if its codes take 8 n bits or more |
| Formats.NoPairNoSample | common/compressLib/compressLib.c:778-800 | where the window holds no two neighbouring ones, the sample and the place in the input stay |
| WaveFibonacci.FibRoundTrip | common/compressLib/compressLib.c:702-806 | if every sample lies within -798..797 of the mean, the waveform comes back and the size test never fires |
| WaveFibonacci.FibExact | common/compressLib/compressLib.c:729-729 | and only then: the condition is necessary as well, for whatever follows the record, lies in memory, or bit 32 reads as |
| WaveBinFib.MainCodeSound | common/compressLib/compressLib.c:855-862 | in-range codes lie in 1..2^b-2, never equal the flag, and determine the sample |
| WaveBinFib.TailNumberExact | common/compressLib/compressLib.c:867-872 | the number of a sample outside gives the sample back if and only if it fits 16 bits |
| WaveBinFib.PlaceSample | common/compressLib/compressLib.c:858-935 | one sample through both writers: the fixed-width part and the tail part each grow by its code and leave each other's bits alone, shared byte included |
| WaveBinFib.EncodeCombo | common/compressLib/compressLib.c:808-941 | the record: the mean byte nearest to the channel's mean, fixed-width codes of the least width that serves, which the type names, tail codes right behind them, and everything else in the buffer unchanged |
| WaveBinFib.ComboWidthLeast | common/compressLib/compressLib.c:831-835 | the width is the least of at least two whose codes number more than the range |
| WaveBinFib.TypeOfRange | common/compressLib/compressLib.c:1457-1497 | for a range of 1..1023 the written type is read as that width, which is 2..10 |
| WaveBinFib.ComboMean | common/compressLib/compressLib.c:822-846 | the first byte is the mean nearest to the channel's, as in the Fibonacci encoding |
| WaveBinFib.WithinExactly | common/compressLib/compressLib.c:838-840 | a sample is inside if and only if its zig-zag code lies in 1..2^b-2 |
| WaveBinFib.TailOrder | common/compressLib/compressLib.c:867-872 | tail numbers count outwards: the nearest sample outside is 1 above and 2 below, and each further one is two more |
| WaveBinFib.TailSampleOrder | common/compressLib/compressLib.c:997-1004 | read back, 1 and 2 are the samples at the two cut-off points, and two more is one step further out, for any number whatever |
| ChannelTrip.NearMeanComboBack | common/compressLib/compressLib.c:369-521 | for a range of 1..1023 and a mean of -127..127 the channel comes back if at most 256 samples lie outside the cut-off points of the least width for the range around that mean, with tail numbers of 16 bits |
| WaveBinFibDecode.FillTable | common/compressLib/compressLib.c:973-1018 | the search loop stores exactly the entries of the table function, over whatever memory the table had, and counts them |
| WaveBinFibDecode.DecodeCombo | common/compressLib/compressLib.c:943-1051 | the samples of any input, and whether the run filled or read behind the 256 slots |
| ComboRecovery.TableSound | common/compressLib/compressLib.c:974-1018 | every tail code lies in the window, is found, and the entries are the samples outside, in order |
| ComboRecovery.ComboYields | common/compressLib/compressLib.c:1024-1049 | from any record: samples inside come back, the i-th outside takes slot i, and the run leaves the table just when entries found or samples outside exceed 256 |
| ComboRecovery.ComboRoundTrip | common/compressLib/compressLib.c:808-1051 | for width 2..10, at most 256 samples outside and tail numbers of 16 bits, the waveform comes back, whatever follows |
| ComboExact.ComboSafeExactly | common/compressLib/compressLib.c:952-974 | with zeros behind the record, every run stays in the table and gives back the waveform if and only if those conditions hold |
| ComboExact.EntryCount | common/compressLib/compressLib.c:974-1018 | a stream of codewords and of codes wrapped to 0 never yields more entries than codes |
| ComboExact.OnesOverrun | common/compressLib/compressLib.c:952-974 | with bytes 0xFF behind it, every such record makes the decoder fill 260 entries |
| ComboTail.TailBound | common/compressLib/compressLib.c:974-1018 | with four zero bytes d bytes behind such a record, the decoder finds at most 4 d + 4 entries more than there are samples outside |
| ComboTail.TailSafe | common/compressLib/compressLib.c:952-1018 | while those fit 256, every run stays in the table and gives back the waveform, whatever else follows |
| ComboWide.WideRangeLost | common/compressLib/compressLib.c:1415-1497 | for a range of 1024 or more no channel comes back, whatever follows and whatever memory holds, unless its first code ends in ten ones |
| Pack12Bit.PackFour | common/compressLib/pack12bit.c:35-47 | the six bytes: low twelve bits of three values, the fourth's nibbles above them, the rest of the buffer unchanged |
| Pack12Bit.UnpackFour | common/compressLib/pack12bit.c:15-32 | the four values of six bytes |
| Pack12Bit.UnpackPack | common/compressLib/pack12bit.c:14-47 | of any four values the low twelve bits come back |
| Pack12Bit.PackUnpack | common/compressLib/pack12bit.c:14-47 | any six bytes come back from the values unpacked from them |
| Pack12Bit.Encode12Bit | common/compressLib/compressLib.c:549-561 | the record of all groups of four samples, offset by 2048 |
| Pack12Bit.Decode12Bit | common/compressLib/compressLib.c:563-575 | the samples, or a size error that changes nothing |
| Pack12Bit.RoundTrip12 | common/compressLib/compressLib.c:549-575 | the samples come back if and only if all lie in -2048..2047 |
| Checksum.SimpleCrcShort | common/compressLib/compressLib.c:1499-1508 | the negated 16-bit sum of the words |
| Checksum.CrcDetects | common/compressLib/compressLib.c:1499-1508 | altering any single word alters the checksum |
| Checksum.CrcOfWord | common/compressLib/compressLib.c:1499-1508 | the checksum of one word x is 65536 - x, or 0 for 0 |
| Checksum.CrcJoin | common/compressLib/compressLib.c:1499-1508 | the checksum of two stretches one behind the other is the sum of theirs modulo 2^16 |
| Channel.HeaderBack | common/includes/anitaStructures.h:495-500 | the twelve header bytes read back as the header written |
| Formats.HeaderLayout | common/includes/anitaStructures.h:495-500 | which byte of the header holds what: the raw header, then type, size and checksum with their low bytes first |
| Formats.TypeNumbers | common/includes/anitaStructures.h:273-330 | the number of every width's type, and how any other number is read |
| Channel.NoneBack | common/compressLib/compressLib.c:524-545 | unencoded samples come back whatever follows |
| Formats.NoneLayout | common/compressLib/compressLib.c:524-545 | sample k lies in bytes 2k and 2k+1, low byte first |
| Formats.PackedLayout | common/compressLib/pack12bit.c:35-47 | word by word: twelve bits of each of three values, and above them the fourth's nibbles, lowest first |
| ChannelCodec.EncodePSChannel | common/compressLib/compressLib.c:369-434 | the channel's record in the zeroed stretch: raw header, the type that names the width, size and checksum of the wave, the wave; nothing else changed |
| ChannelCodec.DecodePSChannel | common/compressLib/compressLib.c:436-521 | result code, header and samples for any header and input; a wrong checksum changes nothing |
| Formats.RefusedExactly | common/compressLib/compressLib.c:442-521 | exactly when a size or code error comes: a type no decoder knows, a size other than 520 or 390, or a binary wave's less than 2 + 260 b / 8 |
| Formats.ChecksumFirst | common/compressLib/compressLib.c:439-440 | a wrong checksum is told before anything else, and changes nothing |
| ChannelTrip.BodySize | common/compressLib/compressLib.c:430-433 | every encoded wave is at most 1300 bytes, so its size fits the header field |
| ChannelTrip.ChannelRoundTrip | common/compressLib/compressLib.c:369-521 | reading where the encoder wrote gives the header written and OK with the same raw header and samples, for every wave the type carries |
| ChannelTrip.CarriedExactly | common/compressLib/compressLib.c:369-521 | for every lossless type but the combined one, a wave always comes back if and only if it meets the type's condition; for the binary type that includes a width of 1..11 |
| ChannelTrip.AlteredWord | common/compressLib/compressLib.c:439-440 | altering any single 16-bit word under the checksum gives a checksum error and changes nothing |
| ChannelTrip.LastByteUnseen | common/compressLib/compressLib.c:431-432 | of a wave of odd size the last byte can be altered unnoticed |
| EventPack.PackPedSubbedEvent | common/compressLib/compressLib.c:57-94 | refused exactly when the record exceeds the limit, otherwise the record stands at the front of the buffer and the rest is unchanged |
| Formats.PacketLayout | common/includes/anitaStructures.h:996-1000 | each packet: code 0x122, the event's number and the pedestal run at bytes 16 and 20, the records from byte 24 |
| Formats.WrapperLayout | common/includes/anitaStructures.h:1363-1367 | the wrapper: code 0x126, the event's number at byte 16, at byte 20 the bytes behind the wrapper |
| Formats.SurfLayout | common/compressLib/compressLib.c:76-84 | a packet's records are those of its SURF's nine channels, in order |
| EventTrip.TakeBack | common/compressLib/compressLib.c:227-246 | the step at a record that was packed reports no error, ends behind the record, and leaves its header, samples, type and size in place besides all before |
| EventUnpack.UnpackToPedSubbedEventWithStats | common/compressLib/compressLib.c:202-254 | for any input: result code, every channel, both numbers, types and sizes found, and the bytes walked, equal the walk's function |
| EventTrip.EventRoundTrip | common/compressLib/compressLib.c:57-254 | the packed event with anything behind it unpacks to the same event, with each record's type and size, and the walk ends at the bytes the wrapper held |
| EventAltered.ErrorStops | common/compressLib/compressLib.c:238-240 | whatever goes wrong with a record is the result of the walk, which stops there with only that record's channel changed |
| EventAltered.OkMeansRight | common/compressLib/compressLib.c:227-246 | a walk that reports OK found the checksum right and the record within the packet |
| EventAltered.AlteredEvent | common/compressLib/compressLib.c:202-254 | with one word altered under the checksum of record i: a checksum error, the channels before i back, and those from i on as they were before the call |
| EventAltered.NumbersOfLast | common/compressLib/compressLib.c:223-225 | the event's numbers are those of the last packet, whatever the others said |
| EventAltered.WrapperStripped | common/compressLib/compressLib.c:216-219 | a wrapper is stripped whatever it says beside its code, one within another too; a lone one is read as a packet |
| TelemWrap.Wrapper.Init | common/losLib/telemwrap.c:29-42 | each call for SIP raises the identifier once more, none lowers it |
| TelemWrap.Wrapper.Wrap | common/losLib/telemwrap.c:44-93 | the frame of the payload with the current counter at the front of the buffer, the rest unchanged, the counter one up modulo its width |
| TelemWrap.FrameCloses | common/losLib/telemwrap.c:72-87 | payload words and checksum sum to 0 modulo 2^16 for payloads below 65535 bytes; for 65535 the checksum is 0 |
| TelemWrap.CounterRange | common/losLib/telemwrap.c:60-60 | the counter wraps at 2^32 or 2^64 |
| TelemWrap.WideCounter | common/losLib/telemwrap.c:58-60 | a counter of eight bytes is little-endian, too |
| TelemWrap.StreamSnoc | common/losLib/telemwrap.c:58-60 | one more call appends a frame whose counter is that many calls on |
| TelemWrap.Walk | testing/writeGpsLocFile.c:59-93 | the loop finds exactly the positions of the visiting function |
| TelemWrap.StepExact | testing/writeGpsLocFile.c:73-87 | with a 4-byte counter the step from a header reaches the end of its frame if and only if the payload is below 65535 bytes |
| TelemWrap.StreamVisited | testing/writeGpsLocFile.c:59-93 | for any list of payloads the walk visits exactly their frames and then goes on behind them |
| TelemWrap.FrameFields | testing/writeGpsLocFile.c:70-75 | at the k-th position visited stand the identifier, the counter c+k modulo 2^32, the size, the k-th payload with 0xDA behind it if it is odd, its checksum, and the three end words where the reader takes them |
| TelemWrap.FramesFound | testing/writeGpsLocFile.c:59-93 | with no 0xF00D in the buffer behind the stream, the frames are all that is found |
| TelemWrap.FramesFoundBehind | testing/writeGpsLocFile.c:59-93 | nor does it matter what lies in front, and from where in it reading begins |
| WatchCache.CacheState | common/linkWatchLib/linkWatchLib.c:50-64 | what the two static variables hold after any run |
| WatchCache.LookupExact | common/linkWatchLib/linkWatchLib.c:50-64 | on any run of registrations and lookups, the answer is the first matching index unless the descriptor is the cached one and the last search missed: if and only if |
| WatchCache.LookupsAgree | common/linkWatchLib/linkWatchLib.c:50-64 | without a miss in the run every cached answer agrees with linear search |
| WatchCache.MissSpoils | common/linkWatchLib/linkWatchLib.c:53-61 | three calls after which the cached answer is wrong |
| LinkWatch.Links.GetWatchIndex | common/linkWatchLib/linkWatchLib.c:50-64 | answer and static variables afterwards, as the lookup function says |
| LinkWatch.Links.AddLink | common/linkWatchLib/linkWatchLib.c:242-268 | the watch's queue grows by the name at its end, chains stay mirrored, other queues untouched |
| LinkWatch.Links.GetLastLink | common/linkWatchLib/linkWatchLib.c:270-294 | the newest name, taken off that end; none exactly when the queue is empty; other queues untouched |
| LinkWatch.Links.GetFirstLink | common/linkWatchLib/linkWatchLib.c:297-324 | the oldest name likewise |
| LinkWatch.NamesComeOut | common/linkWatchLib/linkWatchLib.c:242-324 | over any run of adding and taking at either end, each name of at most 99 characters comes out as the very string put in, a longer one as its first 99 characters |
| LinkWatch.Links.GetNumLinks | common/linkWatchLib/linkWatchLib.c:231-240 | the length of the queue of the first watch with that descriptor, -1 without one |
| LinkWatch.Links.SetupLinkWatchDir | common/linkWatchLib/linkWatchLib.c:86-125 | a new watch with its directory's links, or refusal that changes nothing |
| LinkWatch.Links.RefreshLinkDirs | common/linkWatchLib/linkWatchLib.c:127-140 | the drain ends, and queues and static variables are what refreshing watch by watch makes of them, also after a lookup that missed |
| LinkWatch.RefreshOutcome | common/linkWatchLib/linkWatchLib.c:127-140 | each queue after a whole refresh: the list for the first watch of a directory, nothing if the directory is watched again, and what it had with the list on top for every later watch of it |
| LinkWatch.RefreshListsExactly | common/linkWatchLib/linkWatchLib.c:127-140 | every queue ends as its directory's list if and only if twice watched directories are empty and their later queues were |
| LinkWatch.RefreshDistinct | common/linkWatchLib/linkWatchLib.c:127-140 | it does so for all queues and lists if and only if no directory is watched twice |
| LinkWatch.RefreshThere | common/linkWatchLib/linkWatchLib.c:127-140 | for directories of names of at most 99 characters, the same exact condition for every queue to end as its directory's list itself |
| LinkWatch.RefreshThereDistinct | common/linkWatchLib/linkWatchLib.c:127-140 | and it does for all queues and lists of such names if and only if no directory is watched twice |
| LinkWatch.StaleRefresh | common/linkWatchLib/linkWatchLib.c:53-61 | a refresh that begins with the descriptor of a search that missed leaves its queue undrained and empties the one the cache points at |
| LinkWatch.StaleUnnoticed | common/linkWatchLib/linkWatchLib.c:53-61 | a refresh that begins with another descriptor is that of a cache that agrees, and puts it right |
| KvpText.StrtolPrinted | common/kvpLib/keyValuePair.c:406-409 | strtol undoes "%i" for every 32-bit int, whatever non-alphanumeric text follows |
| KvpText.StrtolHex | common/kvpLib/keyValuePair.c:543-549 | and "%#x" for every unsigned one |
| KvpCodes.StrtolHeld | common/kvpLib/keyValuePair.c:662-662 | numbers beyond a long are held to its bounds |
| KvpCodes.StrtolOctal | common/kvpLib/keyValuePair.c:978-978 | a leading 0 makes a number octal |
| KvpCodes.StrtolSigned | common/kvpLib/keyValuePair.c:978-978 | a plus sign and a prefix 0X are read as well |
| KvpCodes.StrtolNothing | common/kvpLib/keyValuePair.c:979-982 | text that begins with no number takes no characters |
| KvpText.StripTrims | common/kvpLib/keyValuePair.c:102-122 | stripping leaves no space at either end |
| KvpCodes.StripExactly | common/kvpLib/keyValuePair.c:102-122 | what is stripped are spaces at both ends, nothing else, and all of them |
| KvpValidate.ValidateValue | common/kvpLib/keyValuePair.c:124-236 | the scanner's count or refusal for any value and type |
| KvpValidate.ValidInts | common/kvpLib/keyValuePair.c:124-236 | as integers it accepts exactly the values whose pieces between separators all match the token grammar, and counts the pieces |
| KvpFloats.ValidFloats | common/kvpLib/keyValuePair.c:124-236 | as floats it accepts exactly the values whose pieces are digits, signs, at most one point and at most one exponent, a sign first of its piece or behind the exponent, and counts the pieces holding a digit or a sign |
| KvpFloats.ValidPlain | common/kvpLib/keyValuePair.c:124-236 | as a type no letter names, exactly the values whose pieces are digits with at most a sign in front, each counted |
| KvpFloats.SeparatorsPart | common/kvpLib/keyValuePair.c:124-236 | a space, a tab or a comma between two integers makes a value of two elements |
| KvpValidate.TokensOfJoined | common/kvpLib/keyValuePair.c:403-410 | splitting at separators undoes joining with commas |
| KvpStore.UniqueFound | common/kvpLib/keyValuePair.c:247-273 | a valid entry is the one a lookup of its key finds |
| KvpStore.ParseRoom | common/kvpLib/keyValuePair.c:596-721 | the texts of the entries a record adds, refused or not, take no more bytes than the record |
| KvpCodes.PairCodes | common/kvpLib/keyValuePair.c:642-702 | a pair with a stated count: refused as a bad number, or as a wrong count if another than the real one is stated, and otherwise an entry of the letter's type with the real count |
| KvpCodes.NoCountStated | common/kvpLib/keyValuePair.c:662-668 | with nothing between letter and = any count is right |
| KvpCodes.OpenPair | common/kvpLib/keyValuePair.c:675-680 | a last pair without its semicolon is taken as well |
| KvpCodes.OtherRefusals | common/kvpLib/keyValuePair.c:633-706 | a pair without its = is bad input, and a table of 1000 entries refuses any pair |
| KvpCodes.CommentStops | common/kvpLib/keyValuePair.c:642-645 | from a key that begins with two slashes on, a record is not read |
| KvpRefusal.LostKeys | common/kvpLib/keyValuePair.c:649-702 | of the keys with a valid entry a refused record leaves without one exactly that of the pair it was refused at, unless the table was full, and those whose last pair in it got an invalid type |
| KvpRefusal.LostKeysClean | common/kvpLib/keyValuePair.c:649-702 | where no unused type is invalid, exactly the key of the refused pair, and none if the table was full |
| KvpLetters.LostByLetters | common/kvpLib/keyValuePair.c:649-702 | the same exact condition on the record's keys and type letters and the type table before the call, with the number of pairs in front of the one refused |
| KvpRefusal.RefusalLosesKey | common/kvpLib/keyValuePair.c:649-702 | the input that shows it: a defined key, and a record refused at its new value |
| KvpTrip.ParserUndoesPrinter | common/kvpLib/keyValuePair.c:596-721 | parsing what the printer wrote gives exactly the valid entries, in order, with key, type, count and value |
| KvpCodes.FormatLines | common/kvpLib/keyValuePair.c:1359-1405 | the printed text line by line: valid entries only, each line ended but the table's last |
| KvpInts.JoinedSize | common/kvpLib/keyValuePair.c:361-364 | twelve bytes an integer are always enough for a printed list |
| KvpInts.PrintedValid | common/kvpLib/keyValuePair.c:124-236 | the scanner accepts every printed decimal or hexadecimal list and counts exactly its numbers |
| KvpInts.SetUnique | common/kvpLib/keyValuePair.c:347-352 | setting and updating keep at most one valid entry a key |
| KvpCodes.SetCodes | common/kvpLib/keyValuePair.c:326-465 | which cause gives which refusal of a set, in order, exactly, and what changes otherwise |
| KvpCodes.UpdateCodes | common/kvpLib/keyValuePair.c:478-584 | and of an update |
| KvpCodes.GetCodes | common/kvpLib/keyValuePair.c:956-997 | and of reading an array, with how many values are given |
| KvpInts.EntrySurvives | common/kvpLib/keyValuePair.c:1359-1405 | after printing and parsing, a lookup finds every valid entry's own fields |
| KvpInts.IntArrayTrip | common/kvpLib/keyValuePair.c:956-997 | integers set in any printable table, printed, parsed and read come back the same |
| KvpInts.HexArrayTrip | common/kvpLib/keyValuePair.c:542-551 | unsigned ones that update an integer entry come back as the ints of the same bits |
| KvpParser.TurnViews | common/kvpLib/keyValuePair.c:628-710 | while all texts end below the place of the pair, the turn that cuts key and value in the buffer does what the turn on the table of texts does, and the texts still end below what comes next |
| KvpOps.RecordViews | common/kvpLib/keyValuePair.c:596-721 | with all texts below the free space, parsing in memory comes to what parsing on the table of texts comes to; accepted, it leaves them so, with at least 0 bytes free, or -1 without a last semicolon |
| KvpBuffer.GrownKeeps | common/kvpLib/keyValuePair.c:41-81 | growing keeps every text, wherever it stood and however texts overlapped, leaves all of them below the free space, and frees at least what was asked for |
| KvpSetters.JustEnoughExactly | common/kvpLib/keyValuePair.c:369-371 | seen before the call, when exactly the characters asked for will be free, growing and first use included |
| KvpSetters.NeededExactly | common/kvpLib/keyValuePair.c:361-371 | twelve characters are asked for an int, fourteen for a float, and a string's own |
| KvpSetters.SetViews | common/kvpLib/keyValuePair.c:326-465 | the code and the table after setting, the value whole, or a string without its last character if and only if just enough is free before the call |
| KvpSetters.UpdateViews | common/kvpLib/keyValuePair.c:478-584 | updating likewise |
| KvpSetters.FirstStringShort | common/kvpLib/keyValuePair.c:369-371 | the inputs that show it: a fresh store, key and string of 20479 characters together |
| KvpLatest.RecordKept | common/kvpLib/keyValuePair.c:596-721 | in memory with nothing exposed any record, refused or not, leaves every valid entry the one found under its key, and an accepted one exposes nothing |
| KvpRuns.SetKept | common/kvpLib/keyValuePair.c:326-465 | setting keeps it too, and exposes nothing |
| KvpRuns.UpdateKept | common/kvpLib/keyValuePair.c:478-584 | and so does updating |
| KvpExposed.RefusedExposes | common/kvpLib/keyValuePair.c:649-702 | a refused one exposes something if and only if an entry it added could do harm |
| KvpRuns.HeededIsCareful | common/kvpLib/keyValuePair.c:596-721 | in a run where each refused record is directly followed by a reset, or added no entry, or only harmless ones, every call but a reset finds nothing exposed; the run ends with something exposed just when its last call is a record that leaves harm |
| KvpRuns.LatestWins | common/kvpLib/keyValuePair.c:649-653 | after any such run of parsing, setting, updating and resetting from reset tables, every valid entry is the one found under its key |
| KvpRuns.PrintedOnce | common/kvpLib/keyValuePair.c:1370-1374 | after any such run the printer prints no key twice |
| KvpBooks.BooksKept | common/kvpLib/keyValuePair.c:41-81 | over any run from settled tables, strings included, books kept from the calls alone give the texts, the size of the buffer and the free space; while they stand open all texts lie below the free space |
| KvpBooks.RoomThroughout | common/kvpLib/keyValuePair.c:609-617 | and at every call of such a run all texts and what is asked for fit the buffer, grown if need be |
| KvpBooks.RunTold | common/kvpLib/keyValuePair.c:326-721 | over records, lists of numbers and resets, memory holds just the texts of the same run on the table of texts |
| KvpBooks.BooksWin | common/kvpLib/keyValuePair.c:649-653 | in a run the books can tell, with trimmed keys, the tables are known, there is room for every call, and the latest definition wins |
| KvpExposed.NextRecordExactly | common/kvpLib/keyValuePair.c:616-622 | whatever the next record, it keeps that, if and only if nothing is exposed |
| KvpExposed.RefusedPlaced | common/kvpLib/keyValuePair.c:649-702 | a record refused on settled tables leaves the texts that were there below the free space and the entries it added in it |
| KvpExposed.AfterRefusal | common/kvpLib/keyValuePair.c:616-702 | so the record after it, whatever it is, keeps that the latest definition wins if and only if each entry it added is invalid and none that is valid before it has a key that fits where it stands |
| KvpNext.NextUpdateExactly | common/kvpLib/keyValuePair.c:522-568 | where there is a valid string to update, updates keep it if and only if nothing is exposed |
| KvpNext.NextSetExactly | common/kvpLib/keyValuePair.c:381-452 | where the table is not full and no key is empty, sets of trimmed keys keep it if and only if all that is exposed are invalid entries at the very beginning of the free space |
| KvpNext.FullTableKeeps | common/kvpLib/keyValuePair.c:354-358 | on a full table no set breaks it |
| KvpOverwrite.TwoValid | common/kvpLib/keyValuePair.c:616-713 | the input that shows it: a record refused at its third pair, then one that is accepted, and of four entries two valid ones with one key, both printed |
| KvpTable.Kvp.FindIndex | common/kvpLib/keyValuePair.c:247-273 | the last entry of the trimmed key, or -1 |
| KvpTable.Kvp.Realloc | common/kvpLib/keyValuePair.c:41-81 | the loop of strcpy: every text found at its new place as it was, all below the free space, which is what the texts leave and at least what was asked for |
| KvpTable.Kvp.Init | common/kvpLib/keyValuePair.c:742-756 | an empty buffer of the size asked for, or of 20480 |
| KvpTable.Kvp.Reset | common/kvpLib/keyValuePair.c:732-740 | no entries and no buffer, the types kept |
| KvpTable.Kvp.StripSpaces | common/kvpLib/keyValuePair.c:102-122 | where the stripped text begins, and a 0 behind its last character, or one place on for a text of spaces only |
| KvpTable.Kvp.Parse | common/kvpLib/keyValuePair.c:596-721 | buffer, offsets, counts, types and free space, the number of keys or -1, and the error, for any record on any tables, those a refused record left included |
| KvpTable.Kvp.Set | common/kvpLib/keyValuePair.c:326-465 | the tables in memory with key and value at the front of the free space, or the first of the errors that applies, for any tables and values, empty ones included; the test for too little space never strikes |
| KvpTable.Kvp.SetIntArray | common/kvpLib/keyValuePair.c:1175-1182 | on settled tables, a new entry with the printed list, or an error and no change |
| KvpTable.Kvp.SetString | common/kvpLib/keyValuePair.c:1158-1164 | on settled tables, a new entry with the string, short of its last character exactly when just enough was free before the call |
| KvpTable.Kvp.Update | common/kvpLib/keyValuePair.c:478-584 | the new value at the front of the free space and the entry pointing at it, all else kept, or an error and no change, for any tables and values |
| KvpTable.Kvp.UpdateUnsignedIntArray | common/kvpLib/keyValuePair.c:1293-1297 | on settled tables, the entry's value and count replaced by the printed list |
| KvpTable.Kvp.UpdateString | common/kvpLib/keyValuePair.c:1274-1280 | likewise for a string, short of its last character exactly when just enough was free before the call |
| KvpTable.Kvp.GetIntArray | common/kvpLib/keyValuePair.c:956-997 | result code, values and their number |
| KvpTable.Kvp.Format | common/kvpLib/keyValuePair.c:1359-1405 | -1 exactly when the text is longer than the buffer; otherwise its length, the buffer holding as much of it as fits with a final 0 |

## Left out

- EncodeCombo: needs 1 <= range < 32768; with 0 the source shifts by -1, with more its cut-off points overflow their shorts.
- EncodeLosslessBinary: takes the least width whose codes number at least range + 1 where the source rounds a float logarithm, so a rounding error of that logarithm is not modelled.
- DecodeCombo: once a run has left the table of 256 entries, its result stands only for a machine where the memory behind the table is that given; C gives it no meaning.
- EventRoundTrip: says that no table is overrun only for events without the combined encoding; with it that depends on the records that follow, and OnesOverrun shows it can happen.
- ChannelRoundTrip: for the combined encoding the condition is proved exact in ComboSafeExactly, with zeros behind the record, and not for ranges from 1024 on.
- WideRangeLost: leaves open the waves whose first code ends in ten ones; there the first sample is what the search finds in the misread stream, or what memory held.
- TailSafe: is sufficient only; which other bytes behind a record keep the decoder within 256 entries depends on how many pairs of ones it meets in them.
- PackPedSubbedEvent: needs room for one record behind the limit, since the source tests the size only after writing.
- UnpackToPedSubbedEventWithStats: the two optional outputs are always there, and byte counts are not negative.
- DecodePSChannel: does not refill minimum, maximum, mean and rms of the channel, which is floating point.
- PackFour: the four values are passed by value, not as an array.
- Parse: needs all texts and the record to fit the grown buffer if it has to grow, which only overlapping texts left by refused records can fail, since the source would write behind the buffer otherwise (Set and Update likewise); what a record that ends at a '#' does, behind whose end the source reads on, is left open.
- LatestWins: says nothing once the parser has read on behind a record or texts did not fit a grown buffer, until the next reset; BooksWin says for which runs that does not happen.
- NextSetExactly: leaves out tables with an entry whose key is empty, and NextUpdateExactly those without a valid string; there a set or an update can write less freely.
- BooksKept: once a record was refused behind entries it had added, any call but a reset closes the books for good, and so does an empty list or an empty string without room for its final 0.
- SetString: an empty string is left out of the statement on the table of texts where just enough is free: the source then writes no final 0; an empty array in SetIntArray likewise, whose value is whatever the free space held. Set and Update cover both, in memory.
- Realloc: a text without a final 0 in the buffer is taken to end with the buffer; the source would read on.
- GetIntArray: a long has 64 bits.
- AddLink: the byte behind a name of 99 characters or more, which the source leaves unset in all but the first item of a queue.
- Walk: the payload the reader hands on begins three words behind where the writer puts it; handing it on is not part of this model.
- The types and offsets kept beyond the entries in use: offsets there are not compared, types are.
- How "%g" prints a float: the texts it yields are taken as given, as short as the source assumes.
- Mu-law encoding and its tables, packwave and unpackwave, unpackOneSurfToPedSubbedEvent and unpackOneWaveToPedSubbedEvent.
- The raw event (packEvent, unpackEvent), which repeats the same walk with unencoded channels only.
- Pedestal statistics, magnetic field model and map coordinates: floating point.
- inotify, select, directory scans, files, sockets, logging and the daemons' main loops.

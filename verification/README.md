# A verified model of droidbox's checksums, exchanges and descriptors

droidbox talks to Android devices over USB in C. This project models the parts of it that
hold state, loops or arithmetic, and proves what they do on all inputs:

- **Checksums** (`lib/adb/adb.c`): `crc16`, `crc32`, the two polynomial searches, and the byte
  sum that goes on the wire. `Lfsr` is the theory of the shift register at any width, `Gf2`
  that of polynomials over GF(2), `Crc` holds the loops, `CrcProperties` what they detect and
  compute, `CrcSearch` the searches, `Checksum` the sum.
- **ADB exchange** (`lib/adb/adb.c`): `AdbMessage` is the framing, `AdbExchange` one request and
  its response, `AdbCalls` the public calls and what they leave with their caller, `AdbRuns` whole
  runs of calls against a device.
- **PTP transactions** (`lib/ptp/ptp.c`): `PtpCommand` is the command containers, `PtpReceiver` the
  nested receive loops and the call around them, `PtpTransactions` what they make of a device
  that follows the protocol, `PtpRuns` and `PtpCalls` whole runs and the public calls. The
  container is the one of section 7 of the USB Still Image Capture Device Definition.
- **USB descriptors** (`lib/usb/usb.c`): `UsbWalk` is the walk the dump and the tree parser share,
  `UsbTree` the tree, `UsbParser` the parser, `UsbLayout` where it stores what, `UsbConfig` the
  round trip, `UsbString` string descriptors. Layouts are those of sections 9.6.3, 9.6.5, 9.6.6 and 9.6.7 of
  the USB 2.0 specification.

`Words` holds bytes, their bits and little-endian fields; `Bus` the scripted bulk pipes; `Prelude`
a few shared notions. `dafny verify dfyconfig.toml` checks the whole project.

## How the source is represented

- A C register of 16 or 32 bits is the sequence of its bits, least significant first, and `^`,
  `&`, `>>` and conversions act on bits. One loop therefore serves every width, and one proof
  covers both. The results the functions return are numbers.
- A device is a script: the fate of every coming send, and what every coming receive delivers.
  A script that has run out fails, as a transfer to a device that is gone does.
- Buffers that the source leaves uninitialised on its stack are inputs (`stack`), so a result
  that would depend on them says so.
- `Undefined`, or `None` from the descriptor parser and the string reader, marks where the
  source's own behaviour ends: a store outside what was allocated, an overrun, or a receive
  failure it does not check. The PTP methods require that the call does not end there;
  `PtpRuns.CallAnswered` says exactly which well-formed transactions satisfy that.
- The pipe's `memcpy`, allocation and `printf` become array updates, an allocator that numbers its
  blocks, and returned sequences of what is printed.

## Where the code does less than it is for

These are proved as exact conditions, with the code kept as it is.

- `crc16` detects every burst of 16 bits and no 16-bit polynomial detects every burst of 17. A
  16-bit polynomial detects all 16-bit bursts exactly when it is at least 0x8000.
- `crc32` is `crc16` in a wider word: its upper half is constant.
- The header field `data_crc32` is documented as a CRC (`lib/adb/adb.h:12`), but the code puts the
  byte sum there (`lib/adb/adb.c:24`). The sum sees every change of one byte, no change of order,
  and is exact for all buffers of a length exactly up to 16843009 bytes.
- An ADB call returns its whole reply, and leaves the stream at the next reply, exactly when
  the payload fits one 512-byte packet. The library itself asks for payloads of up to 4096
  bytes (`main.c:200`).
- `adb_auth` takes a null pointer, but the device cannot tell that from empty data; every other
  call is read back as itself.
- No caller looks at how much a send took. A run of calls returns the same replies whether or
  not sends are cut short, but every request arrives as sent exactly when none is.
- `ptp_format_store` sends the code of object deletion (`lib/ptp/ptp.c:419`); every other command
  call is understood by the device as what it is.
- A PTP transaction is received exactly when its data containers together have at most 2048
  bytes (`lib/ptp/ptp.c:68` copies them into a buffer of that size, line 105) and its response,
  when the caller wants the parameters, has at most three of the five the protocol allows
  (line 90). Any larger object overruns the stack buffer, however it is cut.
- The data loop ends only where packets add up to the announced length exactly; a container with
  more bytes than it announces is read on until the buffer overruns or a receive fails.
- After a data container, a trailing empty packet is read as whatever header the last packet
  left in the receive buffer; it is harmless exactly when that stale header names neither a
  response nor a data container of nonzero length.
- A PTP call with a buffer but without a data phase copies from the uninitialised stack, unless
  the stale length or the buffer's length is zero.
- The configuration parser steps its slot indices by descriptor sizes in bytes
  (`lib/usb/usb.c:485-490`), takes the endpoint count of the first interface (line 483) and sizes
  endpoint arrays by `size_t` (line 484). On well-formed configurations its stores stay within
  what it allocates exactly when there is at most one interface with at most one endpoint.
  With one element per step every well-formed configuration is parsed to its tree. `Layout`
  selects between the two.
- Releasing a parsed configuration frees all its blocks exactly when there is one interface
  (`lib/usb/usb.c:519`). Without any interface the pointer it frees first was never set.
- Either descriptor walk ends exactly when it meets no descriptor of length zero.
- `usb_get_string` gives back a string exactly when every code unit is between 1 and 255. Its
  reads and writes stay in bounds exactly when the device's length byte is at most 126, the
  size of the receive buffer (`lib/usb/usb.c:428`, `lib/usb/usb.c:438-440`), and the caller's
  buffer has room for the text and its NUL.

## Model

| member | source | states |
|---|---|---|
| Crc.CheckBits | lib/adb/adb.c:29-34 | The bit loop is eight steps of the shift register. |
| Crc.FoldBuffer | lib/adb/adb.c:45-53 | The byte-folded loop ends in the register of the plain bit-serial CRC, for every buffer, polynomial and width of at least 8. |
| Crc.FoldedByteIsFeed | lib/adb/adb.c:49-51 | One round of the folded loop equals feeding the eight bits of the byte one by one, at every register, byte and polynomial. |
| Crc.Crc16 | lib/adb/adb.c:45-54 | The result is the complemented bit-serial register at 16 bits. |
| Crc.Crc32 | lib/adb/adb.c:56-65 | The result is the complemented bit-serial register at 32 bits. |
| Lfsr.FeedIsWholeRegister | lib/adb/adb.c:29-34 | Adding up to a register's width of bits at once and stepping is the same as feeding them serially. |
| Lfsr.StepsFold | lib/adb/adb.c:49-51 | Stepping a register is stepping its low bits alone and adding the shifted rest. |
| Lfsr.FeedXor | lib/adb/adb.c:47-52 | The register is linear in its start and in the message. |
| Lfsr.FeedSplit | lib/adb/adb.c:47-52 | A message splits: the head's register is stepped on, the tail starts from zero. |
| Lfsr.StepBijectiveIffTopBit | lib/adb/adb.c:29-34 | The step is injective, and surjective, exactly when the polynomial has its top bit set. |
| Lfsr.FeedInjective | lib/adb/adb.c:71-79 | With the top bit set, one message never merges two distinct registers. |
| Lfsr.DetectsBurstsIffTopBit | lib/adb/adb.c:29-53 | All bursts up to the register's width are detected exactly when the top bit is set, at any width. |
| Lfsr.LongerBurstMissed | lib/adb/adb.c:29-53 | Every polynomial misses some burst one bit longer than the register. |
| Gf2.FeedIsDivision | lib/adb/adb.c:45-53 | Message times x^w plus register is quotient times divisor; the quotient is the bits fed back. |
| Gf2.FeedIsRemainder | lib/adb/adb.c:45-53 | The register is a remainder of the message times x^w. |
| Gf2.RemainderUnique | lib/adb/adb.c:45-53 | There is only one remainder. |
| Gf2.MulMonomial | lib/adb/adb.c:45-53 | Multiplying by a power of x is a shift. |
| Gf2.MulAdd | lib/adb/adb.c:45-53 | The product is linear in its second factor. |
| Gf2.MulCommutes | lib/adb/adb.c:45-53 | The product in which division is stated commutes, as that of polynomials does. |
| Gf2.CollideIffDivides | lib/adb/adb.c:45-53 | Two messages of one length collide exactly when the divisor divides their difference. |
| CrcProperties.Crc16DetectsBursts | lib/adb/adb.c:45-54 | Distinct buffers that differ only inside 16 consecutive bits have distinct crc16. |
| CrcProperties.LongerBurstMissedBy | lib/adb/adb.c:67-79 | For every 16-bit polynomial two buffers differing inside 17 bits collide. |
| CrcProperties.DetectsBufferBurstsIff | lib/adb/adb.c:67-79 | A 16-bit polynomial detects all 16-bit bursts over buffers exactly when it is at least 0x8000. |
| CrcProperties.CrcIsRemainder | lib/adb/adb.c:67-88 | A polynomial is the remainder of the message exactly when it is the uncomplemented result, at any width and polynomial. |
| CrcProperties.Crc16IsRemainder | lib/adb/adb.c:45-54 | The same for crc16, with the divisor 0x93FC encodes written out. |
| CrcProperties.GeneratorOfPolynomial | lib/adb/adb.c:50 | 0x93FC encodes x^16 + x^13 + ... + x^6 + x^3 + 1, bit-reflected. |
| CrcProperties.Crc16CollidesIffDivides | lib/adb/adb.c:45-54 | An error goes unnoticed exactly when the generator divides the error polynomial. |
| CrcProperties.RegisterXor | lib/adb/adb.c:47-52 | The register of the exclusive or of two buffers is that of their registers. |
| CrcProperties.CrcAffine | lib/adb/adb.c:45-54 | The results are affine in the buffer, at every width and polynomial. |
| CrcProperties.RegisterConcat | lib/adb/adb.c:47-52 | The register of a concatenation from the registers of its parts. |
| CrcProperties.CrcValueWiden | lib/adb/adb.c:91-111 | Under any 16-bit polynomial the 32-bit result is the 16-bit one plus 0xFFFF0000. |
| CrcProperties.Crc32IsCrc16 | lib/adb/adb.c:56-65 | crc32 is crc16 plus 0xFFFF0000, for every buffer. |
| CrcSearch.SearchCrc16 | lib/adb/adb.c:67-89 | Reports exactly the matching polynomials below 0xFFFF, in increasing order, and returns the value for 0xFFFE. |
| CrcSearch.SearchLeast | lib/adb/adb.c:91-112 | The search stops at the least matching polynomial, and otherwise returns the value for the last one. |
| CrcSearch.SearchCrc32 | lib/adb/adb.c:91-112 | Returns 0x232 exactly when a polynomial below 0xFFFFFFFF gives it, and otherwise the value for 0xFFFFFFFE; the one reported is the least and has more than 16 bits. |
| CrcSearch.NoneBelowIff | lib/adb/adb.c:95-109 | What "no match below n" means. |
| CrcSearch.NarrowNeverMatches | lib/adb/adb.c:95-107 | A polynomial that matches at 32 bits has more than 16 bits. |
| Checksum.Checksum | lib/adb/adb.c:36-43 | The wrapping loop computes the byte sum modulo 2^32. |
| Checksum.ChecksumConcat | lib/adb/adb.c:36-43 | The checksum is additive over concatenation. |
| Checksum.ChecksumOfPermutation | lib/adb/adb.c:36-43 | The order of the bytes does not matter. |
| Checksum.ChecksumSeesOneByte | lib/adb/adb.c:36-43 | A change of one byte never goes unseen. |
| Checksum.ExactIffShort | lib/adb/adb.c:36-43 | The checksum is the exact sum for all buffers of a length exactly when that length is at most 16843009. |
| AdbMessage.MessageStruct.Set | lib/adb/adb.c:18-27 | The macro leaves the structure that the specification names, with its null-pointer case. |
| AdbMessage.DecodeEncodeHeader | lib/adb/adb.c:206 | All six header fields are read back from the 24 bytes. |
| AdbMessage.ParseEncode | lib/adb/adb.c:232-323 | A receiver that checks the redundant fields reads back each of the seven calls with its arguments and payload. |
| AdbMessage.ReadAsSentIff | lib/adb/adb.c:258-270 | Every call is read back as itself, except an authentication with a null pointer or with part of a buffer. |
| AdbMessage.FramingFields | lib/adb/adb.c:199-213 | The bytes are header and payload; the check field is the payload's checksum, and magic and command add up to 0xFFFFFFFF. |
| AdbMessage.EncodeIsWords | lib/adb/adb.c:232-323 | The six little-endian words of every call, as numbers, and its payload behind them. |
| AdbMessage.NameOnTheWire | lib/adb/adb.c:12-27 | Every call starts with the four letters of its name; the four bytes of magic are their complements to 0xFF. |
| AdbExchange.SendParts | lib/adb/adb.c:131-150 | The header goes out first, then the rest if there is any; a failed send stops the request. |
| AdbExchange.ReceiveInto | lib/adb/adb.c:155-176 | One receive is appended to the data buffer. |
| AdbExchange.ReceiveResponse | lib/adb/adb.c:152-191 | The receive loop takes one packet, or two when the first announces data, and returns their bytes and the command. |
| AdbExchange.SendRequest | lib/adb/adb.c:119-195 | The whole exchange; the result is written only when all of it succeeds. |
| AdbExchange.HandleRequest | lib/adb/adb.c:197-230 | The caller gets the first min(length, len) bytes; failed allocation changes nothing. |
| AdbCalls.FillIn | lib/adb/adb.c:232-323 | Each public call fills in the message of its specification. |
| AdbCalls.Perform | lib/adb/adb.c:197-323 | The seven public calls: 0 exactly when memory, both sends and the receives suffice; then the length and the first min(length, len) bytes of the packets read are the caller's, and otherwise nothing of the caller's has changed. |
| AdbCalls.SucceedsIff | lib/adb/adb.c:119-195 | When a call returns 0 and when -1, and that a failed call leaves the caller's buffer and structure alone. |
| AdbCalls.NothingRead | lib/adb/adb.c:131-204 | A call without memory transfers nothing; one whose send is refused sends no more and receives nothing. |
| AdbCalls.SuccessGives | lib/adb/adb.c:154-221 | On any packets: the length, the code at bytes 0 to 3, the delivered bytes and what stays unread, with the length field at bytes 12 to 15 deciding on a second packet. |
| AdbRuns.OneReply | lib/adb/adb.c:154-191 | A payload of one packet is returned whole, a longer one is cut at 512 bytes and the rest stays unread. |
| AdbRuns.FirstTurn | lib/adb/adb.c:119-195 | A call returns its reply whole exactly when the payload fits one packet, and is then aligned. |
| AdbRuns.RunAligned | lib/adb/adb.c:119-195 | Over a whole run call k returns reply k, and exactly the replies are consumed. |
| AdbRuns.CallServedIff | lib/adb/adb.c:197-230 | A public call returns its own reply to the caller's buffer and structure, and stays aligned, exactly when one packet holds the payload. |
| AdbRuns.RunServedIff | lib/adb/adb.c:197-323 | Over a whole run every public call k sets the length and code of reply k, delivers the first min(length, len) bytes of it and leaves the stream at reply k + 1, exactly when every payload fits one packet. |
| AdbRuns.RunTransfers | lib/adb/adb.c:131-150 | Over a whole run the device receives, in order, what it takes of every request. |
| AdbRuns.ArrivesWholeIff | lib/adb/adb.c:131-150 | A request arrives as it was sent exactly when neither of its sends is cut short. |
| AdbRuns.RunArrivesIff | lib/adb/adb.c:131-150 | Over a whole run every request arrives as it was sent exactly when no send is cut short. |
| AdbRuns.RunWholeIff | lib/adb/adb.c:119-195 | All calls of a run return their own whole replies exactly when all payloads fit one packet. |
| AdbRuns.DeviceReadsCall | lib/adb/adb.c:131-150 | The two sends of a request join to the bytes from which the device reads the call. |
| Bus.Pipe.Send | lib/usb/usb.c:332-346 | A send transfers as much as the device takes and returns that size, or -1. |
| Bus.Pipe.Receive | lib/usb/usb.c:348-361 | A receive puts a packet over the start of the buffer and returns its size, or -1. |
| PtpCommand.ContainerStruct.Fill | lib/ptp/ptp.c:127-681 | The structure's first length bytes are the container of the call. |
| PtpCommand.DecodeEncode | lib/ptp/ptp.c:127-681 | Kind 1, code and parameters are read back, with the transaction number given, or 0 for opening a session; the length field counts the bytes. |
| PtpCommand.NumberShows | lib/ptp/ptp.c:122-125 | Two sends of one call are the same bytes exactly when their transaction numbers are, except for opening a session. |
| PtpCommand.EncodeIsWords | lib/ptp/ptp.c:127-681 | The little-endian words of every call, as numbers: length, operation code and kind, transaction, parameters in order. |
| PtpCommand.UnderstoodIff | lib/ptp/ptp.c:412-430 | A device understands every call as itself, except formatting a store. |
| PtpCommand.SameBytesIff | lib/ptp/ptp.c:127-681 | Two calls send the same bytes exactly when they amount to the same call and have the same transaction number, which for opening a session does not matter. |
| PtpReceiver.CollectOne | lib/ptp/ptp.c:68-80 | One turn of the inner loop, with the length taken from the start of the data. |
| PtpReceiver.CollectData | lib/ptp/ptp.c:67-81 | The inner loop, and that it ends. |
| PtpReceiver.RecordResponse | lib/ptp/ptp.c:87-90 | Code and parameters come from the response container. |
| PtpReceiver.ReceiveReply | lib/ptp/ptp.c:61-95 | Both loops together, up to and including a response container, and that they end. |
| PtpReceiver.SendRequest | lib/ptp/ptp.c:53-99 | A failed send returns -1 and reads nothing; before a data phase nothing is read. |
| PtpReceiver.HandleRequest | lib/ptp/ptp.c:101-120 | The caller gets the first min(length, len) bytes of the response buffer. |
| PtpTransactions.CollectChunks | lib/ptp/ptp.c:67-81 | However a container is cut, the inner loop ends exactly at its end with exactly its bytes. |
| PtpTransactions.CollectEndsIff | lib/ptp/ptp.c:67-81 | On any packets the inner loop ends exactly when some number of them adds up to the announced length, within the buffer. |
| PtpTransactions.CollectEnds | lib/ptp/ptp.c:67-81 | It then stops at the first such packet, has collected exactly those bytes and, if asked, records the length at the start of the data. |
| PtpTransactions.ReceiveItems | lib/ptp/ptp.c:61-95 | A transaction of any containers leaves its data joined, the first length, the code and the parameters. |
| PtpTransactions.CollectOverruns | lib/ptp/ptp.c:67-81 | However a container is cut, more bytes than there is room for overrun the response buffer. |
| PtpTransactions.ItemsOverrun | lib/ptp/ptp.c:61-95 | A transaction with too much data, or too many parameters for the caller's structure, overruns it. |
| PtpTransactions.TransactionReceived | lib/ptp/ptp.c:61-95 | The loops come to a defined end exactly when the transaction fits the buffers, having consumed exactly it and reporting exactly what it carries. |
| PtpTransactions.CuttingIrrelevant | lib/ptp/ptp.c:61-95 | Two ways of cutting the same containers are received or not, and reported, alike. |
| PtpTransactions.ObjectReceivedIff | lib/ptp/ptp.c:61-95 | For every size there is a well-formed object, and for every number of parameters a response; exactly those of at most 2048 bytes and, when wanted, three parameters are received. |
| PtpTransactions.FirstContainer | lib/ptp/ptp.c:74 | The length read from the data is the first container's size. |
| PtpTransactions.EmptyPacketHarmlessIff | lib/ptp/ptp.c:62-65 | A trailing empty packet goes unnoticed exactly when the stale header is harmless. |
| PtpTransactions.EmptyPacketAfterOneChunk | lib/ptp/ptp.c:62-81 | After a container of one packet an empty packet always changes the outcome. |
| PtpRuns.CallAnswered | lib/ptp/ptp.c:101-120 | One call is defined exactly when its transaction suits it; then it reads exactly that and delivers exactly its reply. |
| PtpRuns.CallGives | lib/ptp/ptp.c:61-113 | A call puts the first min(size, len) bytes of the first container, the code and the parameters over what the caller had, and changes no other byte. |
| PtpRuns.RunGives | lib/ptp/ptp.c:53-120 | The same for every call k of a run, with the stream left at transaction k + 1. |
| PtpRuns.CallRefused | lib/ptp/ptp.c:56-57 | After a failed send the call returns -1, reads nothing and changes nothing of the caller's. |
| PtpRuns.CallBeforeData | lib/ptp/ptp.c:60-113 | Before a data phase nothing is read; a buffer given is filled from the stack. |
| PtpRuns.RunAnswered | lib/ptp/ptp.c:53-120 | Over a whole run call k returns reply k and leaves the stream at transaction k + 1. |
| PtpRuns.RunDefinedIff | lib/ptp/ptp.c:53-120 | A run of well-formed transactions is defined throughout exactly when each suits its call. |
| PtpRuns.UntouchedWithoutDataIff | lib/ptp/ptp.c:109-113 | Without data the caller's buffer is independent of the stack exactly when nothing is copied. |
| PtpCalls.Perform | lib/ptp/ptp.c:127-681 | The public calls, from arguments to the caller's structures. |
| PtpCalls.CommandAnswered | lib/ptp/ptp.c:101-120 | The device reads the command meant exactly when the send is not cut short, and the caller gets the reply exactly when it fits. |
| UsbWalk.EndsIff | lib/usb/usb.c:407 | A walk ends exactly when no descriptor it meets has length zero. |
| UsbWalk.OffsetsIncrease | lib/usb/usb.c:477-494 | The offsets increase and stay below the total length. |
| UsbWalk.WalkersAgree | lib/usb/usb.c:406-422 | Parser and dump stop at the same offsets and see the same interfaces and endpoints. |
| UsbWalk.DumpConfig | lib/usb/usb.c:406-422 | The dump prints the interfaces, endpoints and associations the walk meets, each once and in order. |
| UsbWalk.ShownIsDump | lib/usb/usb.c:406-422 | An offset met is printed exactly when its kind is 4, 5 or 11, from nine, seven or eight bytes there, and offsets increase. |
| UsbWalk.WalkableIff | lib/usb/usb.c:477-494 | With room after the total length, a walk stays in bounds exactly when it meets no length of zero. |
| UsbTree.FlattenTreeOfIff | lib/usb/usb.c:477-494 | Flattening the tree built gives the descriptors back exactly when no endpoint precedes the first interface. |
| UsbTree.TreeOfFlatten | lib/usb/usb.c:477-494 | Building undoes flattening, for every tree. |
| UsbTree.FlattenOne | lib/usb/usb.c:477-494 | An interface is written as kind 4 with its bytes, then each endpoint in order as kind 5. |
| UsbTree.FlattenConcat | lib/usb/usb.c:477-494 | Interfaces are written one after the other. |
| UsbParser.PlaceIsStored | lib/usb/usb.c:469-493 | For either layout every store is in bounds exactly when there are no orphans and the tree fits, and then exactly the tree is stored. |
| UsbParser.EveryStepStored | lib/usb/usb.c:477-494 | At every step what is stored is the tree of the prefix read. |
| UsbLayout.PlacedIff | lib/usb/usb.c:469-493 | For any descriptors and either layout, in slot and element numbers and bytes: when every store has its place, and that the slots then hold exactly the tree. |
| UsbLayout.StoredHolds | lib/usb/usb.c:480-490 | Interface k is in slot k, or 9k as written, with an array of 9 times its own byte 4, or 8 times that of the first; endpoint j is element j, or 7j as written. |
| UsbLayout.OneElementHasRoom | lib/usb/usb.c:475-490 | With one element per step every well-formed configuration has the room it needs. |
| UsbLayout.AsWrittenHasRoomIff | lib/usb/usb.c:475-490 | As written a well-formed configuration has room exactly with no interface, or with one whose byte 4 is at most 1. |
| UsbParser.StoreInterface | lib/usb/usb.c:480-486 | The interface case of the switch. |
| UsbParser.StoreEndpoint | lib/usb/usb.c:487-491 | The endpoint case of the switch. |
| UsbParser.StoreAll | lib/usb/usb.c:477-494 | The walk makes exactly the stores specified, and allocates one array per interface. |
| UsbParser.ParseConfig | lib/usb/usb.c:461-496 | The parser returns the header and the stored tree in fresh blocks, for either layout. |
| UsbParser.ReleaseConfig | lib/usb/usb.c:517-522 | Release frees the first endpoint array, the slots and the structure. |
| UsbParser.ParseThenRelease | lib/usb/usb.c:461-522 | Parsing and releasing is defined exactly when something is stored and every store has its place, and then leaves the heap as it was exactly when there is one interface. |
| UsbConfig.WalkSerialised | lib/usb/usb.c:477-494 | Either walk of a serialised configuration meets its descriptors and ends exactly at the total length. |
| UsbConfig.ParseSerialised | lib/usb/usb.c:461-496 | Bytes of a tree whose byte-4 counts are right, with other descriptors between, are parsed to that tree with one element per step; as written exactly without interfaces, or with one whose byte 4 is at most 1. |
| UsbConfig.DumpSerialised | lib/usb/usb.c:406-422 | The dump of a serialised configuration shows its tree in order. |
| UsbConfig.TreeMatchesDumpIff | lib/usb/usb.c:406-494 | On any bytes the tree flattens to what the dump shows exactly without orphans. |
| UsbString.GetString | lib/usb/usb.c:426-444 | The text is the nonzero bytes from position 2 to the length, then a NUL, and nothing else is touched; reads and writes stay in bounds exactly when the length byte is at most 126 and the buffer is large enough. |
| UsbString.KeptIsText | lib/usb/usb.c:437-440 | Each nonzero byte from position 2 up to the length stands in the text after as many bytes as there were nonzero ones before it, and there are no others. |
| UsbString.StringRoundTripIff | lib/usb/usb.c:426-444 | An encoded string comes back exactly when every code unit is between 1 and 255. |

## Left out

- ioctl, URB submission and reaping, the EINTR retry and the control transfers: replaced by scripts and byte sources.
- Receive failures in PTP: the source does not check them, so its behaviour is not defined there and the methods exclude them.
- ADB payloads of 2^32 - 24 bytes or more, for which the source's request size wraps around.
- Endpoint arrays: each is a value in its interface's slot, so pointers into them and aliasing between them are not captured.
- `ptp_send_object_info` and `ptp_send_object`: their payloads are marked unfinished in the source; the phase that precedes them is the `dataPhase` of `PtpReceiver.HandleRequest`.
- `ptp_initiate_capture` and `rsa_public_key`: stubs.
- The random choice of PTP transaction numbers: a parameter.
- The device branch of `parse_descriptor` and `release_descriptor`, which copies and frees one structure.
- Kernel headers: `linux/usb/ch9.h` is not part of this model; its sizes, kinds and `USB_MAX_STRING_LEN` are constants here, and `size_t` has 8 bytes.
- Key tables, signing, the demonstration in `main.c`, the socket in `daemon/daemon.c`, the label and error tables, and all printed text.

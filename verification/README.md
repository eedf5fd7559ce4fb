# Verification of the network library

A Dafny model of the parts of the Stm32NetX library that parse, frame, count and hand over data, with
proofs of what they promise. Running `dafny verify dfyconfig.toml` in this directory checks everything.

What is modelled:

- **URIs** (`Text`, `Query`, `UriSyntax`, `UriTokens`, `UriLaws`, `UriNormal`, `UriErrors`,
  `Uri`). The URI class with its cursor
  scans, its printer and its query dictionary. `UriSyntax.Parse` and `UriSyntax.Print` say what a text means
  and how components are written; the methods of `Uri.Uri` are the scans as they stand in the program and
  are proved to compute `Parse`. `UriLaws` proves exactly which components survive printing and parsing and
  exactly which texts have a normal form, `UriNormal` exactly when a printed form prints unchanged,
  `UriTokens` that nothing is lost on the way, `UriErrors` which exception a text raises and what its
  dictionary holds. The component split
  is that of sections 3.1 to 3.5 and the printed form that of section 5.3 of RFC 3986.
- **The trace decoder** (`SwoStream`, `Itm`, `Tcl`, `SwoParser`). Three stacked incremental parsers: messages
  cut out of a socket's bytes, ITM packets cut out of the hexadecimal payload of those messages, lines cut
  out of the text of those packets. The theorems say that no cutting of the input into pieces shows in the
  output, and what comes out for what a device sends.
- **The Ethernet driver** (`EthFrame`, `EthModel`, `EthChecksum`, `EthPacket`, `EthDriver`, `EthReceive`,
  `DeferredEvents`).
  `EthModel` is the driver as a state machine over commands and completions, with theorems over every run.
  The methods of `EthDriver.EthDriver` act on packets in memory (prepend pointer, length word, next links,
  payload bytes) and are proved to be steps of that machine. `DeferredEvents` takes the handshake between
  interrupt callbacks and IP thread, and the initialisations between them, apart into single reads and
  writes that interleave freely.
- **The supervision loop** (`Supervisor`), over every trace of observations.
- **Addresses and netmasks** (`Address`, `Netmask`), on the 32-bit words of `Machine`.

What the surroundings are taken to guarantee: a packet is accepted exactly when `HAL_ETH_Transmit_IT`
answers 0 (the parameter `accepted`), `HAL_ETH_TxFreeCallback` runs at most once for an accepted packet and
for no other (`EthModel.Possible`), the IP layer sends only packets it owns and leaves 16 bytes in front of
them, a freshly allocated receive packet has a null `next`, an interrupt callback runs to its end before the
IP thread goes on and does not start while interrupts are masked, and two callbacks do not interrupt each
other. Answers of the PHY, the packet pool and the status checks are parameters.

Where the program does not do what its comments or the standards it follows say, the model follows the
program:

- The payload size of a trace packet is `2**(header & 0x03 - 1)`, which the language groups as
  `2**(header & 2)`: packets of two bytes, size code 2 of appendix D4 of the ARMv7-M Architecture Reference
  Manual, are read as packets of four. `Itm.SizeAgreesIff` and `Itm.TextIsDecodedIff` say when this matters,
  `Itm.TwoBytePacketIsMisread` gives an input. On streams from 16 on, or on streams nobody listens to, two
  misreadings can make up for one another (`Itm.HighStreamsCanHideIt`, `Itm.UnknownStreamsCanHideIt`).
- `@` is looked for in all of the content, so one in the path makes the parser look for user information:
  `UriLaws.AtInPathIsNotKept`.
- Characters behind a bracketed IP literal other than `:` and `/` end the host scan without an error, and all
  of the content becomes the path: `UriLaws.TextAfterLiteralIsPath`.
- Initialising the driver while the link is enabled leaves the mark of the IP instance standing:
  `EthModel.AgreesIff`, with the commands of `EthModel.ReinitLeavesMark`.
- Initialising the driver clears its IP pointer first and sets it again last, or not at all, with interrupts
  enabled in between. A callback that calls for a wakeup meanwhile passes a null pointer and reaches no IP
  instance; the word it leaves non-zero keeps every later callback silent. `DeferredEvents.WakeupsArriveIff`
  says exactly when, `DeferredEvents.InitializationMissesWakeup` gives a run, and
  `DeferredEvents.StuckStays` shows that only another initialisation ends it.
- Initialising the driver clears the deferred events word, whatever is in it: an event that an interrupt has
  raised and the thread has not seen is lost. `DeferredEvents.WordHoldsAllIff` says exactly when,
  `DeferredEvents.InitializationLosesEvent` gives a run that loses a received packet's event.
- The MTU comparison adds the header size in 32 bits, so that the fourteen greatest lengths pass it:
  `EthModel.MtuGuardIff`, `EthModel.HandedIff`, and `EthModel.GreatLengthIsHanded` for an input.
- A packet that asks for no checksum is sent with the checksum control that an earlier packet left behind:
  `EthChecksum.SentAsAskedIff`, with the packets of `EthChecksum.ArpBehindTcp`.
- A received frame of several buffers is handed on by its first packet, whose length field counts the first
  buffer only: `EthReceive.RxPath.ReceiveFrame` says exactly when that is the length of the frame.
- A colon in a path without authority becomes a port by printing, and may then print differently:
  `UriNormal.PrintsAgainIff`, with the text of `UriNormal.LeadingZeroPrintsDifferently`.
- An address text with a number above 255 is accepted, and the number spills into the byte to its left:
  `Address.AssignedBytesIff`, with the text of `Address.GreatNumberSpills`.

## Model

| member | source | states |
|---|---|---|
| Uri.Uri.FromText | src/Address/Uri.hpp:432-454 | constructing from a text gives the object whose fields are exactly the components the text denotes, or the exception that `Parse` predicts, and then no object |
| Uri.Uri.Setup | src/Address/Uri.hpp:432-454 | scheme, content, optional query, optional fragment and dictionary steps in order leave exactly the parsed components, or stop at the first failing step's exception |
| Uri.Uri.ParseScheme | src/Address/Uri.hpp:465-490 | the scan ends at the first colon and stores the lower-case scheme; invalid character, missing colon and empty scheme are told apart in the program's order |
| Uri.Uri.ParseContent | src/Address/Uri.hpp:500-552 | the content is everything up to the first `?` or `#`; a hierarchical one fills the fields with the components of `ParseHierarchy` or fails with its exception |
| Uri.Uri.ParseAuthorityPath | src/Address/Uri.hpp:513-549 | the chained scans over user information, host, port and path, each starting where the last stopped, compute `ParseAuthority` |
| Uri.Uri.ParseUsername | src/Address/Uri.hpp:564-579 | although the loop has no end check it stops inside the content whenever an `@` lies ahead, at the first `:` or `@`, and fails exactly at `@` |
| Uri.Uri.ParsePassword | src/Address/Uri.hpp:589-599 | the loop without end check stops at the first `@` ahead, inside the content |
| Uri.Uri.ParseHost | src/Address/Uri.hpp:612-648 | the nested loops stop behind the first `]` after a `[`, or before the first `:` or `/`, or at the end; the exception is raised exactly for an unclosed literal |
| Uri.Uri.ParsePort | src/Address/Uri.hpp:663-678 | the port is the value of the digits up to `/` or the end; a non-digit, no digit and a value of 2^32 or more fail each with their exception |
| Uri.Uri.InitQueryDictionary | src/Address/Uri.hpp:724-754 | the npos-driven loop ends for every query, takes no substring past the end and fills the dictionary with the reference split of the query, or reports a repeated key exactly when there is one |
| Query.SplitIsExact | src/Address/Uri.hpp:731-736 | joining the stanzas with the separator gives the query back, no stanza has a separator in it, and there is one more stanza than separators |
| Query.BuildIsExact | src/Address/Uri.hpp:724-754 | a query is accepted if and only if no two stanzas share a key; the dictionary then holds exactly the stanzas' entries and, for a non-empty query, one more than there are separators |
| Query.StanzaIsEntered | src/Address/Uri.hpp:731-746 | in the dictionary of an accepted query a stanza k=v gives k the value v, whatever = signs v has, and a stanza k without = gives k the empty value |
| Query.KeyComesFromStanza | src/Address/Uri.hpp:731-746 | every key of the dictionary comes from such a stanza with its value |
| Query.RefusedIff | src/Address/Uri.hpp:743-745 | a query is refused if and only if two of its stanzas give one key, each alone or followed by = and a value |
| UriTokens.TokensAreLossless | src/Address/Uri.hpp:432-454 | every accepted text is raw scheme, colon, content, optional query, optional fragment, each free of the delimiters that end it, and the stored components are these tokens |
| UriTokens.CutIsUnique | src/Address/Uri.hpp:500-507 | the cut into content, query and fragment is the only one whose parts are free of their delimiters |
| UriTokens.AuthorityIsLossless | src/Address/Uri.hpp:513-549 | in an accepted authority whose host scan stops at `:`, `/` or the end, user information, host, port text and path with their delimiters concatenate back to the content |
| UriTokens.SplitUserIsExact | src/Address/Uri.hpp:564-599 | username, `:`, password, `@` and what follows are the authority again; the username is free of `:` and `@`, the password of `@` |
| UriTokens.HostIsExact | src/Address/Uri.hpp:612-648 | the scanned host has no `[`, `:` or `/`, or ends in its one bracketed literal, and what follows starts with `:` or `/` unless a literal was scanned |
| UriLaws.RoundTrip | src/Address/Uri.hpp:364-420 | print then parse is the identity on all well-formed components, hierarchical or not, and yields the query's dictionary |
| UriLaws.RoundTripIff | src/Address/Uri.hpp:364-713 | printing and parsing gives the components back if and only if they are well formed, for every record of components |
| UriLaws.ParsedIsWellFormedIff | src/Address/Uri.hpp:500-678 | the components of an accepted hierarchical text are well formed if and only if its content is normal: with an authority, user information complete or absent and the host scan stopping at `:`, `/` or the end; without one, empty or rooted and free of `@` |
| UriLaws.NormalForm | src/Address/Uri.hpp:394-420 | for accepted texts with normal content the printed form is accepted, keeps components and dictionary, and printing after parsing is idempotent |
| UriLaws.NonHierarchicalNormalForm | src/Address/Uri.hpp:394-420 | every accepted non-hierarchical text yields well-formed components, and printing after parsing is accepted, keeps them and is idempotent |
| UriLaws.AtInPathIsNotKept | src/Address/Uri.hpp:516-523 | a concrete URI with `@` in its path does not come back |
| UriLaws.TextAfterLiteralIsPath | src/Address/Uri.hpp:525-549 | a content with text behind an IP literal is parsed without an exception, ends up whole in the path and is not normal |
| UriLaws.TextAfterLiteralIsAccepted | src/Address/Uri.hpp:432-549 | a URI with such a content is accepted, and its components are not well formed |
| UriNormal.CanonicalIff | src/Address/Uri.hpp:394-415 | a content with an authority is accepted and printed unchanged if and only if its user information is complete or absent, its host is followed by a port, a path or nothing, and its port has no leading zero |
| UriNormal.PrintsAgainIff | src/Address/Uri.hpp:394-420 | for every accepted hierarchical text, normal or not, the printed form is accepted and printed unchanged if and only if its authority and path are canonical in that sense |
| UriNormal.RootedPrintsAgain | src/Address/Uri.hpp:394-420 | for every accepted text whose content is empty or starts with a slash, printing after parsing is idempotent if the user information is complete or host and path are free of `@` |
| UriNormal.LeadingZeroPrintsDifferently | src/Address/Uri.hpp:394-420 | "http:foo:007" is accepted, prints as "http://foo:007", and that prints differently |
| Uri.ToStringReadsBackIff | src/Address/Uri.hpp:394-420 | the text of a URI object parses to the object's components if and only if they are well formed |
| Uri.ResourceIsRest | src/Address/Uri.hpp:364-383 | the resource is what the text ends with, and is cut into the path with its slash if rooted, the query with its ? and the fragment with its # |
| UriErrors.LowerIs | src/Address/Uri.hpp:488-488 | the letters A to Z of a scheme become a to z and nothing else changes |
| UriErrors.SchemeCharIff | src/Address/Uri.hpp:469-470 | exactly digits, letters, +, - and . may stand in a scheme |
| UriErrors.SchemeErrorsIff | src/Address/Uri.hpp:467-486 | each of the three exceptions of the scheme scan, with exactly the texts that raise it |
| UriErrors.FirstErrors | src/Address/Uri.hpp:432-440 | the empty-URI exception is raised exactly for the empty text, and a scheme exception goes before any other |
| UriErrors.UserErrorIff | src/Address/Uri.hpp:564-579 | user information is refused if and only if no colon comes before its @ |
| UriErrors.HostErrorIff | src/Address/Uri.hpp:612-648 | a host is refused if and only if its first bracket, before any colon or slash, is not closed |
| UriErrors.PortIs | src/Address/Uri.hpp:663-678 | the characters behind the colon are refused for a non-digit, for being none and for 2^32 or more, and else are the port |
| UriErrors.DictionaryIsOfStanzas | src/Address/Uri.hpp:724-754 | the dictionary of an accepted URI is that of the stanzas between ampersands, or between semicolons |
| UriErrors.FullIsParsed | src/Address/Uri.hpp:432-713 | every component of http://user:pw@host:80/dir/file?key=value#frag |
| Text.DecimalRoundTrip | src/Address/Uri.hpp:408-411 | reading the decimal text of a number gives the number |
| Text.DecimalTextIsShortest | src/Address/Uri.hpp:676-676 | printing a number never takes more digits than it was read from |
| Text.DecimalTextIsSameIff | src/Address/Uri.hpp:408-411 | printing a number gives back the digits it was read from if and only if they have no leading zero |
| Text.DecimalTextIs | src/Address/Uri.hpp:408-411 | a digit prints as itself, a greater number as the number without its last digit and that digit |
| SwoStream.Conservation | examples/nucleo-f429zi/swo_parser.py:44-62 | what a stream has put out, newlines included, followed by its buffer is exactly its input |
| SwoStream.BodiesAreInput | examples/nucleo-f429zi/swo_parser.py:44-62 | emitted bodies and buffer equal the input once newlines are removed from both |
| SwoStream.Bounds | examples/nucleo-f429zi/swo_parser.py:44-58 | after every input the buffer has at most 1024 characters and no newline, a line is shorter than 1024, an overflow flush has exactly 1025 and a newline at most as its last character |
| SwoStream.AddCharsConcat | examples/nucleo-f429zi/swo_parser.py:60-62 | feeding two texts emits the same lines and leaves the same buffer as feeding their concatenation |
| SwoStream.LineIsPutOut | examples/nucleo-f429zi/swo_parser.py:44-58 | a line of up to 1023 characters is put out at its newline, behind the stream's header |
| SwoStream.OverflowIsPutOut | examples/nucleo-f429zi/swo_parser.py:45-51 | 1024 characters without a newline and one more, whichever, are put out behind the header and a warning |
| SwoStream.Stream.AddCharacter | examples/nucleo-f429zi/swo_parser.py:44-58 | buffer and output afterwards, for overflow with its warning, newline and any other character |
| SwoStream.Stream.AddCharacters | examples/nucleo-f429zi/swo_parser.py:60-62 | the loop puts out exactly the lines of the whole text, behind what was put out before |
| Itm.DecodeConcat | examples/nucleo-f429zi/swo_parser.py:115-137 | decoding a part and then the retained bytes with the rest makes the same calls and retains the same bytes as decoding all at once |
| Itm.ChunkingIsIrrelevant | examples/nucleo-f429zi/swo_parser.py:108-137 | any chunks, of any sizes, give the calls in their global order and the retained bytes of the concatenation |
| Itm.RetainedIsPartialPacket | examples/nucleo-f429zi/swo_parser.py:129-131 | what is retained is nothing, or at most four bytes starting with a valid header whose packet they do not complete |
| Itm.HeaderIff | examples/nucleo-f429zi/swo_parser.py:120-124 | a byte starts a packet if and only if it is 1, 2 or 3 modulo 8, that is, if it is the header of some packet of the format |
| Itm.NoiseIsSkipped | examples/nucleo-f429zi/swo_parser.py:122-124 | bytes that start no packet are skipped |
| Itm.DecodedTextIsBytes | examples/nucleo-f429zi/swo_parser.py:134-134 | for arbitrary bytes, the codes of the decoded text are exactly the bytes below 128, in order |
| Itm.CodesAreDecoded | examples/nucleo-f429zi/swo_parser.py:134-134 | the codes of a text are decoded to the text |
| Itm.DeviceTextIsDecoded | examples/nucleo-f429zi/swo_parser.py:118-137 | the text a device writes to a stream, in packets of one and four bytes among those of others, is the text the calls bring to that stream |
| Itm.DecodeOfEncode | examples/nucleo-f429zi/swo_parser.py:118-137 | packets of one and four bytes are decoded to exactly the calls they stand for |
| Itm.SizeAgreesIff | examples/nucleo-f429zi/swo_parser.py:122-127 | for every header of the packet format port and header test are right, and the payload size is if and only if the packet does not have two bytes |
| Itm.TextIsDecodedIff | examples/nucleo-f429zi/swo_parser.py:118-137 | a trace on known streams below 16, with any payload bytes, is decoded exactly if and only if no packet has two bytes |
| Itm.HighStreamsCanHideIt | examples/nucleo-f429zi/swo_parser.py:118-137 | with a stream of 16 or more a trace with a two-byte packet can still be decoded exactly |
| Itm.UnknownStreamsCanHideIt | examples/nucleo-f429zi/swo_parser.py:133-137 | so can one on an unknown stream |
| Itm.TwoBytePacketIsMisread | examples/nucleo-f429zi/swo_parser.py:126-126 | a two-byte packet swallows the packet behind it |
| Tcl.FramingIgnoresChunks | examples/nucleo-f429zi/swo_parser.py:183-210 | the message sequence and the remaining buffer do not depend on how the socket splits the bytes |
| Tcl.FramesOfWire | examples/nucleo-f429zi/swo_parser.py:201-210 | messages without the terminator are framed back one by one |
| Tcl.HexConversionIsBytewise | examples/nucleo-f429zi/swo_parser.py:104-105 | for every non-empty even run of hex digits the conversion through one big integer equals decoding digit pairs, leading zero bytes included |
| Tcl.OddHexConversionIff | examples/nucleo-f429zi/swo_parser.py:104-105 | an odd number of digits converts if and only if the first is zero, which is dropped; otherwise the conversion raises |
| Tcl.ParseOfTraceLine | examples/nucleo-f429zi/swo_parser.py:101-106 | a trace message carrying any non-empty bytes yields those bytes |
| Tcl.ReceptionIgnoresChunks | examples/nucleo-f429zi/swo_parser.py:174-210 | end to end, calls, retained bytes and whether an exception ends the program are those of all bytes arriving at once |
| Tcl.MessagesAreDecoded | examples/nucleo-f429zi/swo_parser.py:101-137 | where trace bytes are cut into messages does not matter to the calls |
| Tcl.TraceArrives | examples/nucleo-f429zi/swo_parser.py:101-210 | packets of one and four bytes, grouped into messages at will and received in any chunks, make exactly their calls and leave nothing behind |
| Tcl.DeviceTextArrives | examples/nucleo-f429zi/swo_parser.py:101-210 | and it arrives through any grouping into messages and any receptions |
| Tcl.HexDigitsAre | examples/nucleo-f429zi/swo_parser.py:104-104 | the sixteen digits in either case, and no other byte |
| Tcl.HexPairAt | examples/nucleo-f429zi/swo_parser.py:104-105 | the k-th byte is the k-th pair of digits, the high digit first |
| Tcl.HexIntAdmits | examples/nucleo-f429zi/swo_parser.py:104-104 | white space around the digits, either sign and the prefix 0x are admitted, and mean what they mean |
| Tcl.UnderscoreIsAdmitted | examples/nucleo-f429zi/swo_parser.py:104-104 | one underscore between two digits is read over |
| Tcl.NegativeRaises | examples/nucleo-f429zi/swo_parser.py:104-105 | a minus sign before a number that is not zero raises |
| Tcl.TraceIff | examples/nucleo-f429zi/swo_parser.py:101-103 | exactly the messages with the prefix and the carriage return and newline at the end are looked at |
| SwoParser.StreamManager.ParseItmBytes | examples/nucleo-f429zi/swo_parser.py:108-137 | the loop makes the decoded calls in order, retains the decoded rest and feeds every stream its texts and nothing else |
| SwoParser.StreamManager.ParseTclMessage | examples/nucleo-f429zi/swo_parser.py:101-106 | a message is ignored, decoded or raises as specified, and every stream is fed accordingly |
| SwoParser.Connection.OnReceive | examples/nucleo-f429zi/swo_parser.py:201-210 | the splitting loop handles every completed message in order, stops at an exception, and otherwise keeps the incomplete rest |
| SwoParser.Connection.ReceiveAll | examples/nucleo-f429zi/swo_parser.py:174-210 | over any receptions every stream's buffer and output, the calls, the retained bytes and the exception are those of the concatenated bytes |
| SwoParser.DeviceTextIsFed | examples/nucleo-f429zi/swo_parser.py:101-210 | what a device writes to a stream is what the stream is fed |
| EthFrame.StoredIsHeader | src/Driver/nx_stm32_eth_driver.c:784-827 | for all addresses the four word stores and swaps leave destination, source and type in network order in memory (clauses 3.2.4 to 3.2.6 of IEEE 802.3), behind two bytes that are not part of the frame |
| EthFrame.SwapIsNetworkOrder | src/Driver/nx_stm32_eth_driver.c:823-827 | a swapped word lies in memory most significant byte first |
| EthFrame.HeaderIsRouted | src/Driver/nx_stm32_eth_driver.c:1337-1386 | a frame with the header of a send command is routed to the queue of that command |
| EthFrame.HeaderIsRead | src/Driver/nx_stm32_eth_driver.c:784-827 | read most significant octet first, the header is the addresses and the type that went in |
| EthFrame.MemoryIsLittleEndian | src/Driver/nx_stm32_eth_driver.c:823-827 | a word lies in memory least significant byte first |
| EthFrame.TypeFieldOfHeader | src/Driver/nx_stm32_eth_driver.c:796-821 | the type octets are 08 06 exactly for the ARP commands, 80 35 for RARP, 86 DD for the others with IPv6 and 08 00 without |
| EthFrame.RouteIs | src/Driver/nx_stm32_eth_driver.c:1337-1386 | the four type fields that are routed, to which queue, and that every other is discarded |
| EthDriver.EthDriver.WriteHeader | src/Driver/nx_stm32_eth_driver.c:784-827 | the stores put the header in front of the payload and change only the two bytes before it besides |
| EthDriver.EthDriver.TransferToNetx | src/Driver/nx_stm32_eth_driver.c:1326-1387 | the queue follows from the type bytes, of the IP instance the driver points to; all but an unknown type lose their header; packets in flight are not disturbed |
| EthDriver.EthDriver.FrameComesBack | src/Driver/nx_stm32_eth_driver.c:774-827 | pushing a header and receiving the frame restores prepend pointer and length and delivers to the queue matching the command |
| EthDriver.EthDriver.PacketSend | src/Driver/nx_stm32_eth_driver.c:746-878 | every send is one step of the machine: released with the supplied header fields when the link is down, the packet too long, the chain too long or the hardware refuses, else in flight; the header bytes, the type field in octets for each command, the checksum control and the frame handed on are as specified, and the frame of a packet whose length is the sum of its chain has exactly that length, with the header, unless the guard's sum wrapped around |
| EthDriver.EthDriver.SendOnWire | src/Driver/nx_stm32_eth_driver.c:746-878 | the bytes that the gather list of a sent chain describes to the hardware are the header followed by the payload of the chain as the IP layer gave it |
| EthDriver.EthDriver.HardwarePacketSend | src/Driver/nx_stm32_eth_driver.c:1656-1725 | succeeds exactly when the chain ends within the descriptors and the hardware accepts; the hardware gets the chain's frame under the checksum control that the packet's flags or, without any, the packet before decide |
| EthDriver.EthDriver.TxFreeCallback | src/Driver/nx_stm32_eth_driver.c:1903-1912 | a completion takes the packet out of flight and releases it with its header removed |
| EthDriver.EthDriver.Initialize | src/Driver/nx_stm32_eth_driver.c:404-472 | state, IP pointer, checksum control and status after initialising with and without a pool; the mark of the IP instance stays |
| EthDriver.EthDriver.Enable | src/Driver/nx_stm32_eth_driver.c:517-615 | state, mark and status in each of the five outcomes, and for each PHY state the MAC speed and duplex |
| EthDriver.EthDriver.Disable | src/Driver/nx_stm32_eth_driver.c:660-701 | only an enabled link is disabled, which takes mark and state back together |
| EthDriver.SendCases | src/Driver/nx_stm32_eth_driver.c:758-877 | on every refusal the released prepend pointer and length are exactly those supplied, although the header was pushed and popped in between |
| EthDriver.FrameLengthIff | src/Driver/nx_stm32_eth_driver.c:829-852 | for a packet that passes the MTU guard and whose length is the sum of its chain, the bytes in the gather list, the announced length and the length field behind the push are one number of at most 1514 if and only if the guard's sum did not wrap around |
| EthDriver.LengthFieldIff | src/Driver/nx_stm32_eth_driver.c:778-782 | for any chain and length, the announced length is the length field behind the push if and only if the supplied length was the extent of the chain modulo 2^32 |
| EthDriver.AnnouncedLengthIsExact | src/Driver/nx_stm32_eth_driver.c:1676-1712 | for any chain, ill-formed ones included, the announced length is congruent modulo 2^32 to the sum of the lengths in the gather list, with the header and without |
| EthChecksum.SentAsAskedIff | src/Driver/nx_stm32_eth_driver.c:1696-1710 | over every run a packet goes out with the checksum control it asks for if and only if it asks for one, or no packet handed on since the last initialisation with a pool asked for one |
| EthChecksum.ControlIff | src/Driver/nx_stm32_eth_driver.c:1696-1710 | the control is what the last packet that asked for one asked for |
| EthChecksum.FlagsDecide | src/Driver/nx_stm32_eth_driver.c:1697-1707 | which control each flag asks for |
| EthChecksum.ArpBehindTcp | src/Driver/nx_stm32_eth_driver.c:1696-1710 | an ARP packet behind a TCP packet goes out with the TCP packet's control |
| EthDriver.PushOntoChain | src/Driver/nx_stm32_eth_driver.c:777-782 | pushing the header onto the first packet changes the chain's frame in its first element and total only |
| EthPacket.Gather | src/Driver/nx_stm32_eth_driver.c:1662-1694 | the loop ends for every chain; it succeeds if and only if the chain ends within the list, which then visits the chain in order with correct links and a null tail |
| EthPacket.CyclicNeverEnds | src/Driver/nx_stm32_eth_driver.c:1668-1674 | a chain that runs into a cycle is rejected for every descriptor count |
| EthPacket.FirstIsOnce | src/Driver/nx_stm32_eth_driver.c:1668-1674 | a chain that ends meets its first packet only once |
| EthModel.RunConserves | src/Driver/nx_stm32_eth_driver.c:746-878 | over every run each send is in flight or released and never both, is released at most once, and is released with exactly the supplied prepend pointer and length |
| EthModel.RunCounts | src/Driver/nx_stm32_eth_driver.c:746-878 | over every run sends are as many as packets in flight and releases together |
| EthModel.PopOfPush | src/Driver/nx_stm32_eth_driver.h:72-76 | header removal undoes the push on every 32-bit length, wrap-around included |
| EthModel.MtuGuardIff | src/Driver/nx_stm32_eth_driver.c:829-830 | the comparison lets a length pass if and only if it is at most 1500 or among the fourteen greatest words |
| EthModel.HandedIff | src/Driver/nx_stm32_eth_driver.c:758-852 | exactly which packets reach the hardware: link enabled, chain within the descriptors, length at most 1500 or among the fourteen greatest |
| EthModel.GreatLengthIsHanded | src/Driver/nx_stm32_eth_driver.c:829-852 | an enabled driver hands on a packet whose length field is 2^32 - 10 |
| EthModel.RunStates | src/Driver/nx_stm32_eth_driver.c:404-701 | over every run the state is 0, 1, 3 or 4, and link-enabled implies that the IP instance is marked up |
| EthModel.StatusTells | src/Driver/nx_stm32_eth_driver.c:404-878 | from the status one can tell the state behind a command, and that the packet of a send is in flight |
| EthModel.AgreesIff | src/Driver/nx_stm32_eth_driver.c:404-701 | link-enabled and marked up are equivalent throughout a run if and only if no initialisation in it follows commands that have enabled the link |
| EthModel.ReinitLeavesMark | src/Driver/nx_stm32_eth_driver.c:404-472 | initialise, enable, initialise: not enabled and still marked up |
| EthModel.EnabledIff | src/Driver/nx_stm32_eth_driver.c:404-701 | the link is enabled if and only if the run's last initialisation had a pool and a successful enable behind it was not undone |
| EthModel.HandedOnlyWhenEnabled | src/Driver/nx_stm32_eth_driver.c:758-770 | packets reach the hardware only by a send while the commands so far have enabled the link |
| EthReceive.RxPath.RxAllocate | src/Driver/nx_stm32_eth_driver.c:1925-1943 | subtracting the fixed offset from the buffer handed out recovers the packet; an empty pool gives no buffer |
| EthReceive.RxPath.RxLink | src/Driver/nx_stm32_eth_driver.c:1977-2004 | the packet becomes the last of the chain, with append pointer and length from the callback |
| EthReceive.RxPath.RxLinkAll | src/Driver/nx_stm32_eth_driver.c:1977-2004 | any sequence of callbacks on distinct fresh packets links exactly them in callback order |
| EthReceive.RxPath.ReceiveFrame | src/Driver/nx_stm32_eth_driver.c:1925-2004 | of buffers handed out by the allocate callback any are filled, in any order; following next from the first packet visits exactly the packets they were made from, in that order, and ends at the recorded last; the length field of the first is the length of the frame if and only if all other buffers are empty |
| EthReceive.ChainIsWalked | src/Driver/nx_stm32_eth_driver.c:1990-2003 | following next from the first packet visits exactly the linked packets and ends |
| DeferredEvents.MoveKeepsHandshakeIff | src/Driver/nx_stm32_eth_driver.c:1243-1277 | a single read, write, wakeup or mask change keeps the handshake invariant, and loses no wakeup, if and only if it is not a callback that calls for a wakeup while the IP pointer is null and nobody is on the way |
| DeferredEvents.MoveKeepsHandshake | src/Driver/nx_stm32_eth_driver.c:1243-1277 | every other step keeps the handshake invariant |
| DeferredEvents.MoveKeepsDiscipline | src/Driver/nx_stm32_eth_driver.c:1243-1277 | every step keeps what callbacks and thread know of the word |
| DeferredEvents.MoveKeepsBooks | src/Driver/nx_stm32_eth_driver.c:2054-2082 | every such step keeps word, snapshots and work in line with the bits raised since the last snapshot or initialisation |
| DeferredEvents.BooksAreKept | src/Driver/nx_stm32_eth_driver.c:1243-1277 | in every interleaving word and snapshots hold exactly the bits raised since the last snapshot or initialisation, and the work done is that of the snapshots in order |
| DeferredEvents.WakeupsArriveIff | src/Driver/nx_stm32_eth_driver.c:421-442 | over every run the word is never non-zero with nobody to look at it if and only if no callback calls for a wakeup while the IP pointer is null and nobody is on the way |
| DeferredEvents.AttachedNeverMisses | src/Driver/nx_stm32_eth_driver.c:421-442 | it suffices that callbacks finish only while the IP pointer is set |
| DeferredEvents.NoWakeupIsLost | src/Driver/nx_stm32_eth_driver.c:1243-1277 | in every interleaving without such a callback a non-zero word has a wakeup pending or a thread before its snapshot (or the callback about to wake it), and the books are kept |
| DeferredEvents.StuckStays | src/Driver/nx_stm32_eth_driver.c:2054-2082 | once a wakeup is missed the waiting thread is not woken by any later interrupt, until an initialisation clears the word |
| DeferredEvents.InitializationMissesWakeup | src/Driver/nx_stm32_eth_driver.c:421-442 | a run in which a receive callback during a second initialisation misses its wakeup, the transmit callback behind it stays silent, and the thread is stuck |
| DeferredEvents.WordHoldsAllIff | src/Driver/nx_stm32_eth_driver.c:429-430 | over every run the word holds at every moment exactly the bits raised since the last snapshot if and only if no initialisation clears it while it is not zero |
| DeferredEvents.MoveHoldsAllIff | src/Driver/nx_stm32_eth_driver.c:429-430 | the same for a single step |
| DeferredEvents.WorkIsDone | src/Driver/nx_stm32_eth_driver.c:1260-1273 | on every run without such an initialisation, when the thread waits, the work done is for each snapshot a release if a transmit interrupt came since the snapshot before, and behind it a reception if a receive interrupt came |
| DeferredEvents.WorkIsCounted | src/Driver/nx_stm32_eth_driver.c:1260-1273 | receptions and releases are as many as the snapshots with a receive and with a transmit interrupt since the snapshot before |
| DeferredEvents.PacketIsReceived | src/Driver/nx_stm32_eth_driver.c:1260-1273 | a receive interrupt behind an initialisation, and the thread's pass: packets are received and none released |
| DeferredEvents.EveryBitIsSeen | src/Driver/nx_stm32_eth_driver.c:1251-1259 | on runs without such an initialisation every bit raised since one snapshot is in the next, and no other |
| DeferredEvents.NoBitIsInvented | src/Driver/nx_stm32_eth_driver.c:2054-2082 | on every run no bit is in the word or in a snapshot that was not raised since the snapshot before |
| DeferredEvents.InitializationLosesEvent | src/Driver/nx_stm32_eth_driver.c:429-430 | a run in which a second initialisation discards a receive event: the thread's snapshot is empty and nothing is received |
| DeferredEvents.WaitingThreadIsWoken | src/Driver/nx_stm32_eth_driver.c:2054-2082 | on runs that miss no wakeup a waiting thread with events outstanding and no callback running can be woken |
| Supervisor.NetX.Supervise | src/Stm32NetX.cpp:143-235 | one iteration: states, every flag operation and every outside call in order |
| Supervisor.NetX.NetworkThread | src/Stm32NetX.cpp:143-235 | any number of iterations, likewise |
| Supervisor.IterationKeeps | src/Stm32NetX.cpp:143-235 | at the end of an iteration each flag says what its state says, and in between no flag operation shows an address without a link |
| Supervisor.RunIsEdgeDetector | src/Stm32NetX.cpp:143-235 | over every trace the DNS server is added as often as the link-up-with-address condition is entered, flags and states follow the last observation, no flag operation shows an address without a link, and foreign flags are untouched |
| Supervisor.RunConfigures | src/Stm32NetX.cpp:208-231 | over every trace DHCP is started as often as an iteration finds a link, no address and DHCP chosen, each time directly behind enabling the link, stopping and reinitialising DHCP; addresses are set as often as one finds them chosen instead, directly behind enabling and stopping; and each with the gateway of that configuration behind it, cleared if and only if it is zero |
| Supervisor.CallsAre | src/Stm32NetX.cpp:208-231 | the calls of one such iteration, in order |
| Address.GreatNumberSpills | src/Address/Address.hpp:50-58 | "1.2.3.256" is accepted and assigns 1.2.3.0 |
| Address.TextsDiffer | src/Address/AddressPrinter.hpp:71-80 | different addresses have different texts |
| Address.AddressWriter.UpdateString | src/Address/AddressPrinter.hpp:71-80 | the cleared 16-byte field holds exactly the dotted text, zero-terminated |
| Address.AddressWriter.constructor | src/Address/AddressPrinter.hpp:26-30 | a writer made from an address holds its text |
| Address.Address.AssignText | src/Address/Address.hpp:46-61 | four conversions, each with the white space and sign that %u admits, make an IPv4 address; fewer leave no version and a zero address |
| Address.DottedTextFits | src/Address/AddressPrinter.hpp:74-79 | text and terminator of every 32-bit address fit 16 bytes |
| Address.PrintedAddressReadsBack | src/Address/Address.hpp:46-61 | assigning the printed text gives the address back, for every 32-bit address |
| Address.FirstIsMostSignificant | src/Address/Address.hpp:50-58 | four bytes as decimal text with dots assign the address whose most significant byte is the first |
| Address.FieldAdmits | src/Address/Address.hpp:50-51 | white space before a number is skipped, a plus sign read over, and a minus sign negates modulo 2^32 |
| Address.GreatNumberSaturates | src/Address/Address.hpp:50-51 | a number past 32 bits is stored as the greatest word |
| Address.AssignedBytesIff | src/Address/Address.hpp:50-58 | an accepted text's numbers are kept if and only if all four are below 256 |
| Netmask.CountBits | src/IpInstance.cpp:113-121 | the loop ends with the number of set bits, at most 32 |
| Netmask.ClearTakesOne | src/IpInstance.cpp:117-118 | clearing the lowest set bit takes exactly one from the count, for every non-zero word |
| Netmask.PrefixLength | src/IpInstance.cpp:113-121 | for the mask of k leading ones the count is k |

## Left out

- The constructors of the URI class from components and with replacements, which do not rebuild the query dictionary, its getters with their `domain_error` guards, and copying: each is settled by reading its body.
- Characters outside ASCII in a scheme or port: `isalnum` and `isdigit` are undefined for negative `char` values.
- The exception texts: the model keeps which exception is raised, not its message.
- IPv6 addresses: they have a printer but no parser.
- Address.AddressWriter.UpdateString: models the IPv4 branch of the 16-byte field only.
- Address.Address.AssignText: for a number past 32 bits, which the C standard leaves undefined, the model saturates as strtoul does.
- Socket connection, `select`, reconnection and the closing messages of the trace program.
- SwoStream.Stream.AddCharacter: the encoding and escaping of the echo to the Tcl server are not modelled; output is the list of texts.
- NetX Duo, ThreadX and the HAL as implementations: pools, queues, DHCP, DNS, ARP, DMA descriptors and registers.
- EthDriver.EthDriver.Enable: of the MAC configuration only speed and duplex are modelled.
- EthDriver.EthDriver.Initialize: the interface's MTU and physical address and the DMA configuration are not modelled.
- DeferredEvents.InitializationMissesWakeup: what NetX does with a null IP pointer is its own affair; the model takes it to wake nobody.
- EthDriver.EthDriver.HardwarePacketSend: cache maintenance is not modelled; the descriptor count is a parameter, and the build is the one with interface capabilities.
- EthReceive.RxPath.RxLink: the 16-bit width of the callback's length is not modelled.
- The loop over `HAL_ETH_ReadData`, multicast counting, capabilities, error decoding and logging.
- DeferredEvents.NoWakeupIsLost: the device-reset bit, which nothing raises, and nesting of interrupt priorities are not modelled.
- Supervisor.NetX.Supervise: sleeping and logging are not modelled, the build is the one with DHCP, and the configuration may change between iterations but not within one.
- The wrappers that log and forward one library call each, and the tables of return values.

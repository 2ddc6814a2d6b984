# tinySOCK in Dafny

tinySOCK is a small TCP/IP stack for DOS, written from scratch in C. Everything in it is
sequential and works on fixed-size buffers. This project models its core and proves
properties of the model:

- **link framing**
  - `SED.C`: Ethernet framing with preamble and SFD, padding to 60 bytes, the nibble-table
    CRC appended as FCS, and per-byte MAC acceptance (modules `Ethernet` and `FrameCheck`).
  - `SEDSLIP.C`: SLIP byte stuffing after RFC 1055, with its encoder and its streaming
    decoder (module `Slip`).
- **checksums and headers**
  - The sized integers, the byte-order swaps, and the constants and field macros of
    `tinysock.h` (module `Wire`).
  - The Internet checksum of RFC 1071, `checksum`/`lchecksum` (module `InetChecksum`).
  - The IP header that the ICMP, UDP and TCP senders build (module `Ip`).
- **ARP**
  - `TINYARP.C`: the responder, the resolver with its bounded retry that falls back to
    broadcast, and `do_arp` (module `Arp`).
  - `ARP.C`: the older host-order variant (module `ArpLegacy`).
- **ICMP** echo of `TINYICMP.c` (module `Icmp`), and **UDP** send and receive of
  `TINYUDP.C` with the pseudo-header checksum (module `Udp`).
- **TCP** of `TINYTCP.C`:
  - segment building and parsing (module `TcpSegment`);
  - the per-socket state machine as functions on socket values (module `TcpState`);
  - the engine as a class holding the socket registry (module `Tcp`). It covers
    `tcp_Open`, `tcp_Listen`, `tcp_Unthread`, `tcp_Write`, `tcp_Flush`, `tcp_Close`,
    `tcp_Abort`, `tcp_Handler`, `tcp_ProcessData`, `tcp_Send`, `tcp_Retransmitter`, and
    one turn of the `tcp()` loop.
  - The link is an abstract environment: the frames written to the wire, the frames that
    arrive at each poll, and a millisecond clock.
  - The data-handler callbacks are an appended log of (socket, data, length) events.
- **small string cores**
  - `fixup_filename` and `my_open` of `FILEIO.C` (module `FileIo`).
  - The control-line assembler, `get_a_number`, the PORT and RETR parsing, the command
    dispatch and the keyboard line editor of `TINYFTP.C` (module `Ftp`).
  - The request-line classifier, the resource path and `recv_new` of `TINYHTTP.C`
    (module `Http`).
  - `parse_IP` of `TINYSOCK.C` (module `DottedQuad`).
  - The C string helpers they share (module `CText`).

Each module follows the source's own form:

- Code that updates state step by step is a class or a method with loops. This covers the
  NIC's buffers, the SLIP link, the ICMP and UDP senders, the TCP engine, the FTP
  station, and `fixup_filename`'s static buffer.
- Every such method is proved against a specification function of the module.
- The properties the stack promises are lemmas about those functions: round trips,
  invariants kept, orderings, and what each path leaves unchanged.

Where the code as written differs from what it evidently intends, both versions are
modelled. "## Findings" lists each pair.

## Model

| member | source | states |
|---|---|---|
| Wire.StateNumbering | src/tinySOCK/tinysock.h:140-178 | the TCP state constants number 1 to 11 in the order the header declares them, and each flag bit has its declared value |
| Wire.ToInt32 | src/tinySOCK/tinysock.h:45-47 | the (int) of an unsigned 32-bit value is its two's-complement reading: unchanged below 2^31, less 2^32 above |
| Wire.ToShort | src/tinySOCK/tinysock.h:185 | the (short) of an int lies in -32768..32767 and is congruent to it modulo 2^16 |
| Wire.SwapBytes | src/tinySOCK/TINYTCP.C:710-720 | swapBytes exchanges the high and low byte of a Word |
| Wire.SwapByte | src/tinySOCK/TINYTCP.C:710-720 | rev_word of a value below 256 moves it into the high byte |
| Wire.SwapBytesInvolutive | src/tinySOCK/TINYTCP.C:710-720 | swapping the bytes twice gives the Word back |
| Wire.SwapWordsReversesBytes | src/tinySOCK/TINYTCP.C:721-731 | swapWords puts byte i of the Longword at byte 3 - i |
| Wire.SwapWordsInvolutive | src/tinySOCK/TINYTCP.C:721-731 | swapWords applied twice gives the Longword back |
| Wire.AddrRoundTrip | src/tinySOCK/tinysock.h:31-35 | IP_1B..IP_4B recover the four bytes ADDR packs, and ADDR of an address's four bytes rebuilds the address |
| Wire.HBytesIsFourHLen | src/tinySOCK/tinysock.h:106-111 | for every vht word IP_HBYTES is four times IP_HLEN |
| Wire.HeaderFieldPacking | src/tinySOCK/tinysock.h:110-147 | TTL and protocol, the TCP data offset and the flag bits sit in disjoint bits of their words, so each reads back as packed |
| Wire.FieldRoundTrip | src/tinySOCK/proto.h:21-27 | a Word or Longword stored and loaded in the same byte order reads back unchanged; a native load of big-endian bytes is the byte swap |
| Wire.NativeStoreOfSwap | src/tinySOCK/TINYTCP.C:710-720 | a native store of rev_word(w) lays w down in network order |
| Wire.NativeStoreOfSwapWords | src/tinySOCK/TINYTCP.C:721-731 | a native store of rev_longword(l) lays l down in network order |
| Wire.Put | src/tinySOCK/proto.h:31 | Move copies a byte string into an array at an offset and leaves every other byte unchanged |
| Wire.PutSwapped | src/tinySOCK/TINYTCP.C:564-569 | storing rev_word(w) in a header field leaves the two bytes of w in network order and nothing else changed |
| Wire.PutSwappedLong | src/tinySOCK/TINYTCP.C:564-569 | storing rev_longword(l) in a header field leaves the four bytes of l in network order and nothing else changed |
| InetChecksum.Window | src/tinySOCK/TINYTCP.C:638-649 | the bytes lchecksum reads: exactly n of them from the offset, those past the buffer read as 0 |
| InetChecksum.LChecksum | src/tinySOCK/TINYTCP.C:638-649 | for a length up to 0x10000 the unreduced sum lchecksum returns stays below 2^31, so its Longword never wraps |
| InetChecksum.WordSumAppend | src/tinySOCK/TINYTCP.C:638-649 | summing a buffer split at an even offset is summing the two parts |
| InetChecksum.WordSumField | src/tinySOCK/TINYTCP.C:644-646 | a 16-bit field at an even offset adds exactly its value to the sum |
| InetChecksum.WordSumUpdate | src/tinySOCK/TINYTCP.C:644-646 | changing one byte changes the sum by its difference times 0x100 at an even offset and times 1 at an odd one |
| InetChecksum.FoldCongruent | src/tinySOCK/TINYTCP.C:630-631 | the carry-folding loop keeps the sum's residue modulo 0xFFFF |
| InetChecksum.FoldZero | src/tinySOCK/TINYTCP.C:630-631 | the folded sum is zero exactly when the sum is zero |
| InetChecksum.FoldAllOnes | src/tinySOCK/TINYTCP.C:630-631 | the folded sum is 0xFFFF exactly when the sum is a positive multiple of 0xFFFF |
| InetChecksum.FoldNotLarger | src/tinySOCK/TINYTCP.C:630-631 | folding never increases a sum |
| InetChecksum.FoldStepFits | src/tinySOCK/TINYTCP.C:630-631 | every step of the 32-bit folding loop stays below 2^32, so the unbounded fold is what the C loop computes |
| InetChecksum.FoldValue | src/tinySOCK/TINYTCP.C:630-631 | the folded sum is determined by the residue modulo 0xFFFF and by whether the sum is zero |
| InetChecksum.FoldInStages | src/tinySOCK/TINYTCP.C:610-614 | folding the pseudo-header sum before adding the segment's sum, as tcp_Send does, gives the same fold as summing everything first |
| InetChecksum.ComplementCompletes | src/tinySOCK/TINYTCP.C:596 | adding the complement of the folded sum to the sum makes it fold to 0xFFFF |
| InetChecksum.StoredComplementVerifies | src/tinySOCK/TINYTCP.C:593-596 | a header whose checksum field holds the complement of the fold of its sum with the field zeroed sums to 0xFFFF at the receiver |
| InetChecksum.SingleByteChangeDetected | src/tinySOCK/TINYTCP.C:190-191 | once a buffer verifies, changing any one byte makes the receiver's fold differ from 0xFFFF |
| FrameCheck.Nibbles | src/tinySOCK/SED.C:90-93 | GetFCS feeds the table two nibbles per byte, the low nibble first |
| FrameCheck.GetFcs | src/tinySOCK/SED.C:82-95 | the loop over data_size bytes from the frame's start returns the table CRC of exactly those bytes |
| FrameCheck.FcsByte | src/tinySOCK/SED.C:90-91 | one loop iteration feeds the whole byte to the first table step, which uses only its low nibble, then the high nibble |
| FrameCheck.TableEntry | src/tinySOCK/SED.C:86-89 | every crc_table entry is the complement of four serial CRC-32 steps on the complemented index |
| FrameCheck.NibbleComplement | src/tinySOCK/SED.C:90-91 | the table step on a complemented register is the complemented serial step |
| FrameCheck.FcsIsCrc32 | src/tinySOCK/SED.C:82-95 | GetFCS computes the IEEE 802.3 CRC-32 (preset all ones, reflected polynomial 0xEDB88320, complemented result) |
| FrameCheck.FcsOfEmpty | src/tinySOCK/SED.C:82-95 | the FCS of no bytes is 0, as is the CRC-32 |
| Ethernet.FrameHeader | src/tinySOCK/SED.C:106-120 | sed_FormatPacket lays down 22 bytes: seven 0x55 and the SFD, the destination MAC, the local MAC and the type stored natively |
| Ethernet.FrameLength | src/tinySOCK/SED.C:150-155 | the frame length is the payload plus the 14-byte header, raised to the 60-byte minimum when shorter |
| Ethernet.Padding | src/tinySOCK/SED.C:152-153 | each pad byte holds its own offset in the frame, up to the 60-byte minimum |
| Ethernet.Padded | src/tinySOCK/SED.C:150-155 | the padding loop keeps the transmit buffer's size; PaddedFrame states its contents |
| Ethernet.SendBuffer | src/tinySOCK/SED.C:146-168 | sed_Send keeps the buffer's size; FrameLayout and SendKeepsPayload state its contents |
| Ethernet.BodyLayout | src/tinySOCK/SED.C:106-120 | the destination, source, type and payload sit at offsets 0, 6, 12 and 14 of the frame body |
| Ethernet.FrameLayout | src/tinySOCK/SED.C:146-168 | a sent frame is the preamble and SFD, at least 60 bytes of body and the IEEE 802.3 CRC-32 of that body, low byte first |
| Ethernet.SentFrameIsFrameOf | src/tinySOCK/SED.C:146-168 | a buffer that holds the header and payload is sent as exactly the frame of that destination, type and payload |
| Ethernet.SendKeepsPayload | src/tinySOCK/SED.C:146-168 | sed_Send leaves the header and the payload it was handed unchanged |
| Ethernet.PaddedFrame | src/tinySOCK/SED.C:150-155 | after the padding loop the buffer holds the preamble, the SFD and the frame body with its pad |
| Ethernet.MacAcceptance | src/tinySOCK/SED.C:231-246 | sed_checkMAC passes the local and the broadcast address and, since it judges byte by byte, a mixture of them; one foreign byte fails it |
| Ethernet.Delivered | src/tinySOCK/SED.C:191-225 | rcv_frame copies at most the 1518-byte MTU of a frame into the receive buffer and keeps the buffer's size |
| Ethernet.Polled | src/tinySOCK/SED.C:191-225 | after n polls the receive buffer still has its size |
| Ethernet.FrameArrives | src/tinySOCK/SED.C:257-289 | a frame sent to the local or broadcast MAC and received passes the MAC test, and the receiver finds its type and payload where the sender put them |
| Ethernet.BodyArrives | src/tinySOCK/SED.C:257-280 | a received frame body reads back with the type at 12 and the payload from 14 |
| Ethernet.CheckPacketIsNetworkOrder | src/tinySOCK/SED.C:285-289 | comparing the natively read type with rev_word(expected) is comparing the type read in network order with expected |
| Ethernet.Env.constructor | src/tinySOCK/SED.C:296-314 | the environment starts with no clock reading, no poll and nothing on the wire |
| Ethernet.Env.Now | src/tinySOCK/SED.C:296-314 | MsecClock returns the next clock reading and changes nothing else |
| Ethernet.Env.Poll | src/tinySOCK/SED.C:191-225 | rcv_frame yields the next arrival and changes nothing else |
| Ethernet.Env.Transmit | src/tinySOCK/SED.C:124-138 | xmt_frame appends the frame to the wire and changes nothing else |
| Ethernet.Nic.constructor | src/tinySOCK/SED.C:34-70 | sed_Init makes fresh 4096-byte buffers and no local IP address; the peer MAC is all zeros, because their_ethernet_address is a zero-initialised static that sed_Init never writes (only ARP does) |
| Ethernet.Nic.FormatPacket | src/tinySOCK/SED.C:106-120 | sed_FormatPacket writes the frame header over the front of the transmit buffer and returns the payload offset 22 |
| Ethernet.Nic.Send | src/tinySOCK/SED.C:146-168 | sed_Send pads the frame, stores its FCS after it, puts the first length + 12 bytes on the wire and returns 1 |
| Ethernet.Nic.CheckMac | src/tinySOCK/SED.C:231-246 | the result is true exactly when every destination byte is the local byte or 0xFF |
| Ethernet.Nic.IsPacket | src/tinySOCK/SED.C:257-280 | one poll: the payload offset 14 exactly when a frame arrived and passed the MAC test, else none |
| Ethernet.Nic.CheckPacket | src/tinySOCK/SED.C:285-289 | true exactly when the frame's type, read in network order, is the expected one |
| Ethernet.Nic.Receive | src/tinySOCK/SED.C:175-183 | a packet exactly when a frame arrived, passed the MAC test and carries the requested type |
| Ip.Seal | src/tinySOCK/TINYTCP.C:593-596 | sealing keeps the header's length; SealVerifies states what the seal achieves |
| Ip.SealVerifies | src/tinySOCK/TINYTCP.C:593-596 | a header sealed as `checksum = 0; checksum = rev_word(~checksum(header))` sums to 0xFFFF at the receiver |
| Ip.SealedHeaderFields | src/tinySOCK/TINYTCP.C:589-596 | a receiver reads back from the sealed header the version/length/TOS word 0x4500, the total length, the identification, TTL and protocol, both addresses, and a checksum that verifies |
| Ip.ChecksumOfSlice | src/tinySOCK/TINYTCP.C:626-633 | checksum over n bytes inside the buffer is the fold of their word sum |
| Ip.WriteIpHeader | src/tinySOCK/TINYTCP.C:589-596 | the IP header stores leave the sealed header at offset 22 of the transmit buffer and every other byte unchanged |
| Ip.IpHeaderWritten | src/tinySOCK/TINYUDP.C:58-68 | the field stores, each through rev_word or rev_longword, lay the unsealed header down at offset 22 |
| Ip.SealAt | src/tinySOCK/TINYUDP.C:67-68 | computing and storing the checksum over a header in place seals it and changes nothing else |
| Ip.HeaderAddresses | src/tinySOCK/TINYTCP.C:594-595 | the source and destination addresses of the header spliced at 22 sit at offsets 34 and 38 |
| Ip.SealWritten | src/tinySOCK/TINYTCP.C:596 | storing the complement of the fold at the checksum word of an unsealed header gives the sealed header |
| Ip.PacketSent | src/tinySOCK/SED.C:146-168 | after sed_FormatPacket for IP and the packet stores, sed_Send puts exactly the Ethernet frame of that packet on the wire and leaves the packet in the buffer |
| Ip.SendIp | src/tinySOCK/TINYTCP.C:622 | sed_Send of a built IP packet appends its frame to the wire, leaves the packet in the buffer and reads no clock or frame |
| Slip.Escape | src/tinySOCK/SEDSLIP.C:80-91 | each byte goes out as one or two bytes |
| Slip.Stuff | src/tinySOCK/SEDSLIP.C:79-93 | the escaped body is at least as long as the packet and at most twice as long |
| Slip.StuffStep | src/tinySOCK/SEDSLIP.C:79-93 | one loop iteration appends the escape of one byte |
| Slip.StuffHasNoEnd | src/tinySOCK/SEDSLIP.C:79-93 | no FR_END appears inside an escaped body, so a frame ends only at its own FR_END |
| Slip.StuffEscapesWellFormed | src/tinySOCK/SEDSLIP.C:79-93 | every FR_ESC in an escaped body is followed by T_FR_END or T_FR_ESC |
| Slip.Consume | src/tinySOCK/SEDSLIP.C:134-164 | what the decoder leaves unread is no longer than its input |
| Slip.ConsumeKeepsResting | src/tinySOCK/SEDSLIP.C:134-164 | consuming bytes never counts more than two FR_ENDs and keeps the packet start within the receive buffer |
| Slip.ReceiveKeepsResting | src/tinySOCK/SEDSLIP.C:121-186 | a call of sed_IsPacket keeps the decoder consistent, and when it returns no packet fewer than two FR_ENDs are counted |
| Slip.ConsumeStuff | src/tinySOCK/SEDSLIP.C:137-161 | decoding an escaped body appends exactly the original bytes to the receive buffer |
| Slip.ConsumeEscape | src/tinySOCK/SEDSLIP.C:137-148 | decoding the escape of one byte appends that byte |
| Slip.ConsumeNoise | src/tinySOCK/SEDSLIP.C:159-161 | bytes that are neither FR_END nor FR_ESC are copied as they are |
| Slip.FrameRoundTrip | src/tinySOCK/SEDSLIP.C:66-186 | a frame sed_Send emits is delivered by sed_IsPacket as exactly the packet sent, the decoder is reset and the following bytes are left unread |
| Slip.NoiseIgnored | src/tinySOCK/SEDSLIP.C:150-161 | bytes before a frame that hold no FR_END or FR_ESC do not stop the frame being delivered intact |
| Slip.SplitDelivery | src/tinySOCK/SEDSLIP.C:121-186 | a frame that arrives in two calls is delivered by the second one, the first returning no packet |
| Slip.UnknownEscapeKept | src/tinySOCK/SEDSLIP.C:145-147 | an FR_ESC followed by any other byte stores that byte |
| Slip.SlipLink.constructor | src/tinySOCK/SEDSLIP.C:41-46 | the link starts with an empty receive buffer, no FR_END counted, no escape pending and nothing sent |
| Slip.SlipLink.FormatPacket | src/tinySOCK/SEDSLIP.C:58-62 | the packet is built at offset 0 of the transmit buffer |
| Slip.SlipLink.CheckPacket | src/tinySOCK/SEDSLIP.C:190-197 | every packet is taken to be IP: the check holds exactly when the expected type is 0x800 |
| Slip.SlipLink.Send | src/tinySOCK/SEDSLIP.C:66-100 | a positive length puts FR_END, the escaped packet and FR_END on the line; zero or less sends nothing; it returns 1 |
| Slip.SlipLink.PutStuffed | src/tinySOCK/SEDSLIP.C:79-93 | the loop puts the escaped first n bytes of the transmit buffer on the line |
| Slip.SlipLink.PutEscaped | src/tinySOCK/SEDSLIP.C:80-91 | the switch puts the escape of one byte on the line |
| Slip.SlipLink.EnableReceive | src/tinySOCK/SEDSLIP.C:109-113 | sed_Receive does nothing and returns 1 |
| Slip.SlipLink.IsPacket | src/tinySOCK/SEDSLIP.C:121-186 | sed_IsPacket advances the decoder over the waiting input as the decoding function does and returns the packet it completes, if any |
| Arp.ReplyFields | src/tinySOCK/TINYARP.C:46-53 | the reply fields arp_checkpacket writes, hardware type to target MAC, are 24 bytes |
| Arp.ReplyBuffer | src/tinySOCK/TINYARP.C:45-53 | the transmit buffer holding the reply keeps its size; ReplySent states what goes on the wire |
| Arp.CheckPacket | src/tinySOCK/TINYARP.C:29-58 | arp_checkpacket sets the local address and returns 1 exactly for an Ethernet/IP ARP request for that address; then it sends the reply frame, copies the sender IP into the request's target IP and records the requester's MAC, and returns 0 with nothing changed otherwise |
| Arp.WriteReply | src/tinySOCK/TINYARP.C:46-53 | the stores put the reply fields at offset 22 of the transmit buffer and the request's sender IP into its target IP field, nothing else |
| Arp.ReplyWritten | src/tinySOCK/TINYARP.C:46-53 | the sequence of field stores leaves exactly the reply fields spliced in |
| Arp.RequestFields | src/tinySOCK/TINYARP.C:75-81 | the request fields sar_MapIn2Eth writes make a 28-byte ARP header |
| Arp.WriteRequest | src/tinySOCK/TINYARP.C:75-81 | the stores put the request fields at offset 22, the never-written target MAC keeping its old bytes |
| Arp.RequestWritten | src/tinySOCK/TINYARP.C:75-81 | the sequence of field stores leaves exactly the request fields spliced in |
| Arp.SendRequest | src/tinySOCK/TINYARP.C:73-84 | one request frame for ina from the local address is appended to the wire; no clock reading or poll is used |
| Arp.RequestSent | src/tinySOCK/TINYARP.C:73-84 | the buffer sed_Send is handed carries the request frame, and the target MAC field keeps its old bytes |
| Arp.PollReply | src/tinySOCK/TINYARP.C:88-97 | one poll: it reports a hit exactly when the frame polled is an answer, using one poll and no clock reading |
| Arp.RequestsExtend | src/tinySOCK/TINYARP.C:72-84 | appending one more request frame keeps every frame from the start on a request for ina |
| Arp.SpacedAppend | src/tinySOCK/TINYARP.C:86 | a reading more than 250 ms after the last one keeps the send times spaced |
| Arp.SpacedPairs | src/tinySOCK/TINYARP.C:86-87 | in spaced send times every two successive requests are more than 250 ms apart |
| Arp.AwaitReply | src/tinySOCK/TINYARP.C:86-99 | the inner loop polls until an answer or a clock reading of at least rxMitTime, and sends nothing |
| Arp.PollOnce | src/tinySOCK/TINYARP.C:87-98 | one test of the clock and, while time is left, one poll; nothing is sent |
| Arp.Request | src/tinySOCK/TINYARP.C:73-84 | one pass of the outer loop's send part appends one request frame and leaves the target MAC field as it was |
| Arp.Attempt | src/tinySOCK/TINYARP.C:72-99 | one outer iteration sends one request, takes rxMitTime from a fresh clock reading and ends on an answer or once 250 ms have passed |
| Arp.MapIn2Eth | src/tinySOCK/TINYARP.C:65-102 | sar_MapIn2Eth returns 1 with the answering MAC in ethap and their_ethernet_address when a polled frame answers; else 0 with ethap unchanged after at least 2000 ms; every frame it sends is the request for ina, and the requests are more than 250 ms apart |
| Arp.Resolve | src/tinySOCK/TINYARP.C:72-100 | the outer loop sends only requests for ina, spaced more than 250 ms, and ends on an answer or on a clock reading of at least endTime |
| Arp.DoArp | src/tinySOCK/TINYARP.C:110-125 | do_arp returns 1 with their_ethernet_address the answering MAC when the last poll answered, and 0 with the broadcast address when no poll did |
| Arp.ReplySent | src/tinySOCK/TINYARP.C:45-56 | the frame arp_checkpacket puts on the wire goes to the requester with type ARP, the reply fields, then the four stale bytes where the target IP belongs |
| Arp.RequestFieldsDecode | src/tinySOCK/TINYARP.C:75-81 | a receiver reads the request fields as an ARP request for ina from src with the local MAC as sender |
| Arp.RequestReachesPeer | src/tinySOCK/TINYARP.C:29-42 | a broadcast request delivered to any host passes its MAC test, has type ARP and is accepted by arp_checkpacket on the host with address ina |
| Arp.ReplyReachesRequester | src/tinySOCK/TINYARP.C:88-96 | the reply arp_checkpacket sends, delivered to the requester, ends its sar_MapIn2Eth, and the MAC it reports is the responder's |
| Arp.ReplyFieldsDecode | src/tinySOCK/TINYARP.C:46-53 | a receiver reads the reply fields as an IP ARP reply from ina carrying the local MAC |
| Arp.ReplyMacDecode | src/tinySOCK/TINYARP.C:52 | the sender MAC of the delivered reply is the responder's MAC |
| ArpLegacy.Widen | src/tinySOCK/ARP.C:29-32 | the header read through a pointer is at least 28 bytes long, reading 0 past the bytes received |
| ArpLegacy.OpWords | src/tinySOCK/ARP.C:38-41 | the four native word stores make 8 bytes |
| ArpLegacy.PutOpWords | src/tinySOCK/ARP.C:38-41 | the four word stores leave their 8 bytes at the front of the transmit buffer and nothing else changed |
| ArpLegacy.OpWordsWritten | src/tinySOCK/ARP.C:38-41 | the word stores in sequence leave exactly those 8 bytes spliced in |
| ArpLegacy.ReplyFields | src/tinySOCK/ARP.C:38-45 | the reply fields sar_CheckPacket writes make a 28-byte header |
| ArpLegacy.CheckPacket | src/tinySOCK/ARP.C:25-50 | sar_CheckPacket returns 1 exactly for a native-order request for the local address; then it writes the reply, sends its SLIP frame and copies the local address into the request's target IP; it returns 0 with nothing changed otherwise |
| ArpLegacy.WriteReply | src/tinySOCK/ARP.C:38-45 | the stores put the reply fields at the front of the transmit buffer, the target IP keeping its old bytes |
| ArpLegacy.ReplyWritten | src/tinySOCK/ARP.C:38-45 | the field stores in sequence leave exactly the reply fields spliced in |
| ArpLegacy.RequestFields | src/tinySOCK/ARP.C:64-70 | the request fields sar_MapIn2Eth writes make a 28-byte header |
| ArpLegacy.Repeated | src/tinySOCK/ARP.C:61-90 | n copies of a frame are n times its length |
| ArpLegacy.WriteRequest | src/tinySOCK/ARP.C:64-70 | the stores put the request fields at the front of the transmit buffer, the target MAC keeping its old bytes |
| ArpLegacy.RequestWritten | src/tinySOCK/ARP.C:64-70 | the field stores in sequence leave exactly the request fields spliced in |
| ArpLegacy.MapIn2Eth | src/tinySOCK/ARP.C:53-92 | over the SLIP link sed_CheckPacket(0x806) never holds, so sar_MapIn2Eth sends only copies of the request frame and returns 0 with ethap unchanged after at least 2000 ms |
| ArpLegacy.Attempt | src/tinySOCK/ARP.C:61-89 | one outer iteration puts one request frame on the line and reads the clock at least once more |
| ArpLegacy.Wait | src/tinySOCK/ARP.C:75-89 | the inner loop sends nothing and ends on a fresh clock reading |
| ArpLegacy.SendRequest | src/tinySOCK/ARP.C:62-73 | the request stores and sed_Send put one request frame on the line |
| ArpLegacy.Listen | src/tinySOCK/ARP.C:76-89 | the inner loop ends on a clock reading of at least rxMitTime, having sent nothing |
| ArpLegacy.RequestReachesPeer | src/tinySOCK/ARP.C:25-33 | the request frame reaches the peer's decoder intact and passes the peer's request test for ina |
| ArpLegacy.ReplyAnswers | src/tinySOCK/ARP.C:38-45 | the reply to a request for ina is a reply from ina carrying the local MAC and addressed to the requester's MAC |
| ArpLegacy.RepeatedSplit | src/tinySOCK/ARP.C:61-90 | n copies of a frame are k copies followed by n - k copies |
| Icmp.IcmpHeader | src/tinySOCK/TINYICMP.c:50-54 | the ICMP header icmp_check and icmp_send write is 8 bytes |
| Icmp.Packet | src/tinySOCK/TINYICMP.c:41-55 | an ICMP packet, IP header and ICMP header, is 28 bytes |
| Icmp.ReplyPacket | src/tinySOCK/TINYICMP.c:41-55 | the echo reply icmp_check builds is a 28-byte packet |
| Icmp.RequestPacket | src/tinySOCK/TINYICMP.c:77-92 | the echo request icmp_send builds is a 28-byte packet |
| Icmp.PacketLayout | src/tinySOCK/TINYICMP.c:41-55 | an ICMP packet is its sealed IP header followed by its sealed ICMP header |
| Icmp.PacketDecode | src/tinySOCK/TINYICMP.c:41-55 | a receiver reads back protocol ICMP, both addresses, type, code, ID and sequence, and both checksums verify |
| Icmp.WriteIcmpHeader | src/tinySOCK/TINYICMP.c:50-55 | the ICMP header stores and the checksum store leave the sealed ICMP header at offset 42 and nothing else changed |
| Icmp.IcmpHeaderWritten | src/tinySOCK/TINYICMP.c:50-54 | the ICMP field stores in sequence leave exactly the unsealed header spliced in |
| Icmp.WritePacket | src/tinySOCK/TINYICMP.c:41-55 | the IP and ICMP stores leave exactly the packet at offset 22 |
| Icmp.AsWrittenIgnoresNothing | src/tinySOCK/TINYICMP.c:30-35 | rev_word of the one-byte type is never 8, so the guard as written never returns 0 |
| Icmp.AsWrittenAnswersEchoReplies | src/tinySOCK/TINYICMP.c:30-35 | an echo reply addressed to this host passes the guard as written, although it is no echo request |
| Icmp.EchoBuffer | src/tinySOCK/TINYICMP.c:38-55 | the transmit buffer holding the echo reply keeps its size |
| Icmp.Pinger.constructor | src/tinySOCK/TINYICMP.c:18-23 | the pinger starts with the message counter nMsg at 0 |
| Icmp.Pinger.Check | src/tinySOCK/TINYICMP.c:24-59 | icmp_check as written answers every packet it is handed: it sends the echo reply built from it to the MAC it came from, increments nMsg and returns 1 |
| Icmp.Pinger.Answer | src/tinySOCK/TINYICMP.c:24-59 | icmp_check as evidently intended returns 1 and replies exactly for an ICMP echo request to the local address; otherwise it returns 0 and sends nothing |
| Icmp.Pinger.Reply | src/tinySOCK/TINYICMP.c:38-57 | the reply part sends the echo reply to the packet received, increments nMsg and uses no clock reading or poll |
| Icmp.Pinger.WriteReply | src/tinySOCK/TINYICMP.c:38-55 | the reply stores leave the echo reply buffer and increment nMsg |
| Icmp.Pinger.Send | src/tinySOCK/TINYICMP.c:67-117 | icmp_send sends one echo request to dst, then returns 1 when a polled frame is the matching echo reply, or 0 once the clock has reached the start plus timeout with no such reply |
| Icmp.Pinger.SendRequest | src/tinySOCK/TINYICMP.c:74-94 | the request stores and sed_Send put one echo request from the local address to dst on the wire and increment nMsg |
| Icmp.Pinger.WriteRequest | src/tinySOCK/TINYICMP.c:74-92 | the request stores leave the frame header and the echo request in the transmit buffer and increment nMsg |
| Icmp.PollEcho | src/tinySOCK/TINYICMP.c:99-114 | one poll: a hit exactly when the frame polled is the matching echo reply |
| Icmp.TestEcho | src/tinySOCK/TINYICMP.c:101-108 | the test holds exactly when the packet is an ICMP echo reply from the host pinged to this host with ID 0x11 and sequence 0 |
| Icmp.PollOnce | src/tinySOCK/TINYICMP.c:98-115 | one pass of the do-while loop: one poll, then one clock test; nothing is sent |
| Icmp.AwaitEcho | src/tinySOCK/TINYICMP.c:96-116 | the loop polls until the matching reply or the expiry time, and sends nothing |
| Icmp.RequestReachesPeer | src/tinySOCK/TINYICMP.c:74-94 | an echo request delivered to the host pinged is an IP frame, passes its MAC test as the destination MAC does, both checksums verify and the responder's echo request test holds |
| Icmp.RequestAddresses | src/tinySOCK/TINYICMP.c:83-84 | the request's source and destination addresses sit at offsets 34 and 38 of the transmit buffer |
| Icmp.RequestDecode | src/tinySOCK/TINYICMP.c:77-92 | a receiver reads the request as an echo request for the peer from the local address, with ID 0x11, sequence 0 and verifying checksums |
| Icmp.ReplyReachesPinger | src/tinySOCK/TINYICMP.c:38-57 | the echo reply icmp_check sends for our request, delivered back, passes icmp_send's test, both checksums verify, and it goes to the MAC the request came from |
| Icmp.ReplyDecode | src/tinySOCK/TINYICMP.c:41-55 | a receiver reads the reply as the echo reply icmp_send waits for, with verifying checksums |
| Icmp.AsWrittenRepliesBounce | src/tinySOCK/TINYICMP.c:30-35 | our echo reply, delivered to a peer running icmp_check as written, is answered again although it is no echo request |
| Udp.NativeSumAppend | src/tinySOCK/TINYUDP.C:32-36 | the native word sum of a buffer split at an even offset is the sum of the parts |
| Udp.NativeSumField | src/tinySOCK/TINYUDP.C:32-36 | a native word field contributes exactly its value to the native sum |
| Udp.NativeSumBound | src/tinySOCK/TINYUDP.C:32-36 | the native sum of n bytes is at most 0x8000 times n, so for a packet it fits the Longword |
| Udp.NativeWordCongruent | src/tinySOCK/TINYUDP.C:32-37 | the native sum is the network sum times 0x100 modulo 0xFFFF, and one is zero exactly when the other is |
| Udp.NativeSumIsSwapped | src/tinySOCK/TINYUDP.C:32-43 | folding the native sum gives the byte swap of folding the network sum, so summing without rev_word is sound once the result is stored natively |
| Udp.FoldOnceLosesCarry | src/tinySOCK/TINYUDP.C:41-43 | udp_checksum's single fold equals the full fold when adding the halves does not carry, and is one less when it does |
| Udp.HalvesFold | src/tinySOCK/TINYUDP.C:41-43 | a sum of two halves (at most 0x1FFFE) below 0x10000 folds to itself, and a larger one to itself less 0xFFFF |
| Udp.PseudoSum | src/tinySOCK/TINYUDP.C:25-40 | the loop over addresses, header and payload plus the protocol and the native length gives the native sum of those bytes plus those two terms |
| Udp.PseudoHeader | src/tinySOCK/TINYUDP.C:21-24 | the pseudo header of RFC 768 is 12 bytes |
| Udp.SegmentSum | src/tinySOCK/TINYUDP.C:25-40 | the sum udp_checksum builds is the native sum of the pseudo header and the segment |
| Udp.PseudoSumIsNative | src/tinySOCK/TINYUDP.C:29-39 | summing the addresses and the segment and then adding protocol times 0x100 and the natively read length, as udp_checksum does, is the native sum of pseudo header and segment |
| Udp.NativeOfNetworkWord | src/tinySOCK/TINYUDP.C:39 | a network-order length read back natively is the native load of the same bytes |
| Udp.Unsealed | src/tinySOCK/TINYUDP.C:69-76 | the UDP header and payload before the checksum store are 8 bytes more than the payload |
| Udp.WithChecksum | src/tinySOCK/TINYUDP.C:76-77 | storing the checksum keeps the segment's length |
| Udp.Segment | src/tinySOCK/TINYUDP.C:69-77 | the segment with the complement of the full fold is 8 bytes more than its payload; SegmentVerifies states its checksum |
| Udp.SegmentAsWritten | src/tinySOCK/TINYUDP.C:69-77 | the segment as udp_send builds it, with the complement of the single fold, is 8 bytes more than its payload |
| Udp.UnsealedFields | src/tinySOCK/TINYUDP.C:69-77 | a receiver reads back both ports, the length 8 + payload length, the stored checksum and the payload |
| Udp.StoredChecksum | src/tinySOCK/TINYUDP.C:76-77 | storing c in the zeroed checksum field adds c to the sum and leaves the length |
| Udp.VerifiesWithChecksum | src/tinySOCK/TINYUDP.C:76-77 | a segment with c stored verifies exactly when the sum with the field zeroed plus c folds to 0xFFFF |
| Udp.SegmentVerifies | src/tinySOCK/TINYUDP.C:76-77 | with the full fold the segment always passes the receiver's RFC 768 test |
| Udp.OnceFoldedComplement | src/tinySOCK/TINYUDP.C:41-43 | adding the complement of the single fold makes the sum fold to 0xFFFF exactly when its halves do not carry |
| Udp.OneMoreNotAllOnes | src/tinySOCK/TINYUDP.C:41-43 | one more than a multiple of 0xFFFF never folds to 0xFFFF |
| Udp.AsWrittenVerifiesIff | src/tinySOCK/TINYUDP.C:25-77 | the segment udp_send sends passes the receiver's test exactly when adding the two halves of its sum does not carry |
| Udp.AsWrittenDropped | src/tinySOCK/TINYUDP.C:41-43 | a datagram from 192.168.1.2 to 192.168.1.1 port 7 with payload 7D 78 fails the receiver's test as written and passes it with the full fold |
| Udp.ExampleSum | src/tinySOCK/TINYUDP.C:25-40 | the sum for that datagram is 0x1FFFF |
| Udp.ExampleNativeSum | src/tinySOCK/TINYUDP.C:32-36 | the native word sum of that datagram's pseudo header and segment is 0x1E4FF |
| Udp.Datagram | src/tinySOCK/TINYUDP.C:54-77 | the datagram udp_send builds is 28 bytes more than its payload |
| Udp.WriteSegment | src/tinySOCK/TINYUDP.C:69-74 | the port, length and payload stores leave the unsealed segment at offset 42 and nothing else changed |
| Udp.SealSegment | src/tinySOCK/TINYUDP.C:76-77 | the checksum store leaves the segment as written, with the complement of the single fold, at offset 42 |
| Udp.SumInPlace | src/tinySOCK/TINYUDP.C:29-39 | the sum read over the transmit buffer in place is the segment sum of the addresses and segment |
| Udp.ChecksumInPlace | src/tinySOCK/TINYUDP.C:77 | storing the checksum natively at offset 48 is storing it into the segment at 42 |
| Udp.DatagramJoined | src/tinySOCK/TINYUDP.C:58-77 | the sealed IP header at 22 and the segment at 42 make up the datagram at 22 |
| Udp.ReceivedLength | src/tinySOCK/TINYUDP.C:82-102 | udp_receive returns 0 unless the packet is UDP for the local address and port, else the announced payload length cut to maxlen |
| Udp.DatagramDecode | src/tinySOCK/TINYUDP.C:54-77 | a receiver reads the datagram as addressed to dstIp and the port, with the payload length and payload sent, the addresses, a verifying IP checksum and the UDP checksum as stored |
| Udp.HeaderDecode | src/tinySOCK/TINYUDP.C:58-68 | a receiver reads protocol UDP and both addresses, and the IP checksum verifies |
| Udp.SegmentDecode | src/tinySOCK/TINYUDP.C:69-77 | a receiver reads the port, the payload length and the payload |
| Udp.DatagramReachesPeer | src/tinySOCK/TINYUDP.C:82-102 | a datagram udp_send sends, delivered, is taken by udp_receive on its port, which returns the payload cut to maxlen; the IP checksum verifies, and the UDP checksum does exactly when its sum's halves do not carry |
| Udp.UdpLayer.constructor | src/tinySOCK/TINYUDP.C:16 | the UDP layer starts with the message counter at 0 |
| Udp.UdpLayer.WriteDatagram | src/tinySOCK/TINYUDP.C:54-77 | the stores leave the frame header and the datagram as written in the transmit buffer and increment the counter |
| Udp.UdpLayer.Send | src/tinySOCK/TINYUDP.C:47-79 | udp_send puts exactly one frame, the datagram as written to their_ethernet_address, on the wire and increments the counter |
| Udp.UdpLayer.Receive | src/tinySOCK/TINYUDP.C:82-102 | udp_receive returns the received length and copies exactly that many payload bytes to the message buffer |
| TcpSegment.Header | src/tinySOCK/TINYTCP.C:562-571 | the TCP header tcp_Send writes is 20 bytes |
| TcpSegment.Unsealed | src/tinySOCK/TINYTCP.C:562-586 | the segment before its checksum is the 20-byte header followed by the option on a SYN or the data otherwise |
| TcpSegment.PseudoHeader | src/tinySOCK/TINYTCP.C:599-603 | the pseudo header summed by tcp_Send is 12 bytes, its checksum word left out |
| TcpSegment.Sealed | src/tinySOCK/TINYTCP.C:610-616 | storing the checksum keeps the segment's length |
| TcpSegment.Packet | src/tinySOCK/TINYTCP.C:588-616 | the IP packet is the 20-byte IP header followed by the segment |
| TcpSegment.FlagsFieldLayout | src/tinySOCK/TINYTCP.C:569-575 | the flags word sent keeps the socket's flags and announces a header of five dwords, six on a SYN |
| TcpSegment.FlagsFieldSum | src/tinySOCK/TINYTCP.C:569-575 | the data offset lands above the flags bits without carrying into them |
| TcpSegment.SealedVerifies | src/tinySOCK/TINYTCP.C:286-296 | whatever the segment holds, the checksum tcp_Send stores makes tcp_Handler's fold over pseudo header and segment come out 0xFFFF |
| TcpSegment.SumInStages | src/tinySOCK/TINYTCP.C:610-614 | folding the pseudo-header sum, adding the segment's sum and folding again is the fold of the whole sum |
| TcpSegment.Regrouped | src/tinySOCK/TINYTCP.C:616 | the segment with c stored is the segment's first 16 bytes, c, and the rest |
| TcpSegment.WriteSegment | src/tinySOCK/TINYTCP.C:562-586 | the stores at offset 42 leave the transmit buffer holding exactly the unsealed segment there and nothing else changed |
| TcpSegment.WriteHeader | src/tinySOCK/TINYTCP.C:564-571 | the header stores leave exactly the 20-byte header at offset 42 |
| TcpSegment.WriteSynOption | src/tinySOCK/TINYTCP.C:573-583 | on a SYN the flags word is raised by one dword of offset and the MSS option 0x02040578 follows the header |
| TcpSegment.HeaderWritten | src/tinySOCK/TINYTCP.C:564-571 | the eight field stores together are the header spliced at 42 |
| TcpSegment.FlagsAt | src/tinySOCK/TINYTCP.C:575 | the flags word re-read from the header in place is the one stored |
| TcpSegment.FlagsRewritten | src/tinySOCK/TINYTCP.C:575 | storing another flags word over the header in place gives the header with that word |
| TcpSegment.SealSegment | src/tinySOCK/TINYTCP.C:599-616 | the checksum computation over the segment in place leaves the sealed segment at 42 |
| TcpSegment.ChecksumStored | src/tinySOCK/TINYTCP.C:616 | storing the checksum at 58 over a segment at 42 is splicing the segment holding it |
| TcpSegment.PacketJoined | src/tinySOCK/TINYTCP.C:588-616 | the IP header at 22 carries the addresses the pseudo header reads, does not overlap the segment, and together they form the packet |
| TcpSegment.WritePacket | src/tinySOCK/TINYTCP.C:552-616 | the stores of tcp_Send put exactly the packet at 22 and compute the IP total length as 40 plus the data, or 44 on a SYN |
| TcpSegment.SendPacket | src/tinySOCK/TINYTCP.C:552-622 | tcp_Send puts exactly one frame on the wire, the segment's frame to the peer's MAC, and the clock is not touched |
| TcpSegment.Parse | src/tinySOCK/TINYTCP.C:254-256 | the length tcp_Handler works with is the IP total length less IP_HBYTES, and the TCP view starts after that header |
| TcpSegment.PacketDecode | src/tinySOCK/TINYTCP.C:254-298 | a received packet built by tcp_Send decodes to the sender's address, the length, ports, numbers, flags word and body sent, with both checksums verifying |
| TcpSegment.HeaderDecode | src/tinySOCK/TINYTCP.C:254-256 | the IP header tcp_Send builds reads back as 20 bytes with its length, protocol 6, addresses and a valid checksum |
| TcpSegment.SegmentDecode | src/tinySOCK/TINYTCP.C:256-298 | the sealed segment read back gives its ports, numbers, flags word and body, and its checksum verifies |
| TcpSegment.SegmentFieldsDecode | src/tinySOCK/TINYTCP.C:256-298 | the ports, numbers, flags word and body of the sealed segment read back as sent |
| TcpSegment.SegmentSumDecode | src/tinySOCK/TINYTCP.C:286-296 | the received sealed segment passes tcp_Handler's checksum test |
| TcpSegment.SealedKeepsFields | src/tinySOCK/TINYTCP.C:616 | sealing changes only the checksum word |
| TcpSegment.HBytesOfVersionFour | src/tinySOCK/TINYTCP.C:589 | IP_HBYTES of the header word 0x4500 is 20 |
| TcpSegment.UnsealedFields | src/tinySOCK/TINYTCP.C:562-586 | the ports, numbers, flags word, zero checksum and body sit where the TCP header layout puts them |
| TcpSegment.SegmentReachesPeer | src/tinySOCK/TINYTCP.C:536-623 | the frame tcp_Send puts on the wire is accepted by the peer's driver exactly when its MAC passes, and tcp_Handler reads back every field and the body sent, with both checksums verifying |
| TcpState.FirstActive | src/tinySOCK/TINYTCP.C:259-264 | the index found is the first from k whose socket matches both ports and the peer address, and none is found only when no socket from k matches |
| TcpState.FirstPassive | src/tinySOCK/TINYTCP.C:266-268 | the index found is the first from k whose socket has no peer port and the destination port, and none only when no such socket exists |
| TcpState.Demux | src/tinySOCK/TINYTCP.C:258-276 | the socket chosen is the first active match; a passive one is chosen only when no socket matches actively and it is the first passive match; the segment is dropped exactly when no socket matches either way |
| TcpState.Compacted | src/tinySOCK/TINYTCP.C:402 | moving the acknowledged bytes to the front keeps the 512-byte buffer |
| TcpState.AckCount | src/tinySOCK/TINYTCP.C:397-405 | the bytes an acknowledgement covers are never negative and never more than are pending |
| TcpState.Expire | src/tinySOCK/TINYTCP.C:125-136 | a socket that ran out of time always ends CLOSED and unthreaded; TIME-WAIT tells the handler 0 and sends nothing, any other state tells it -1 |
| TcpState.Turns | src/tinySOCK/TINYTCP.C:115-142 | there is one turn per socket of the registry |
| TcpState.TurnsAt | src/tinySOCK/TINYTCP.C:116-136 | the turn of socket i is one retransmitter pass over that socket |
| TcpState.Cut | src/tinySOCK/TINYTCP.C:131-141 | the walk takes no more turns than there are sockets or than the budget |
| TcpState.Sweep | src/tinySOCK/TINYTCP.C:114-142 | tcp_Retransmitter visits no more sockets than the registry holds or the limit allows |
| TcpState.Updated | src/tinySOCK/TINYTCP.C:115-142 | after the walk the visited sockets hold their outcomes and the others are as they were |
| TcpState.AllSentStep | src/tinySOCK/TINYTCP.C:117-118 | the segments sent by one more turn follow those sent before |
| TcpState.CutStep | src/tinySOCK/TINYTCP.C:131-141 | after one more turn the walk goes on exactly when that turn kept its socket and the limit is not reached, and otherwise it has taken all its turns |
| TcpState.CutAll | src/tinySOCK/TINYTCP.C:115 | a walk that reached the end of the registry took every turn |
| TcpState.CutPrefix | src/tinySOCK/TINYTCP.C:131-141 | the walk takes exactly the first n turns when the n-th is the first to unthread or the last the limit allows |
| TcpState.CutWhole | src/tinySOCK/TINYTCP.C:115-142 | the walk takes every turn when none unthreads and the limit is not reached |
| TcpState.WriteAppends | src/tinySOCK/TINYTCP.C:219-241 | tcp_Write returns 0 and changes nothing outside ESTAB; in ESTAB it returns len cut to the free room, appends exactly those bytes to the pending data, sets PUSH and sends the socket, and changes nothing when the count is not positive |
| TcpState.PushSet | src/tinySOCK/TINYTCP.C:238 | or-ing in PUSH makes PUSH present |
| TcpState.AckedDropsPrefix | src/tinySOCK/TINYTCP.C:397-405 | an acknowledgement drops exactly the bytes it covers from the front of the pending data, moves seqnum past them and changes no other field |
| TcpState.AckedAll | src/tinySOCK/TINYTCP.C:397-406 | acknowledging everything pending empties the buffer at that sequence number; an acknowledgement at or behind seqnum changes nothing |
| TcpState.AckedAsWrittenAgrees | src/tinySOCK/TINYTCP.C:397-406 | while the acknowledgement stays within the pending bytes the step as written and the corrected step agree |
| TcpState.AckBeyondPendingAsWritten | src/tinySOCK/TINYTCP.C:397-406 | with nothing pending, an acknowledgement one past seqnum drives dataSize to -1 as written, while the corrected step leaves the socket as it was |
| TcpState.CloseSendsFinOnce | src/tinySOCK/TINYTCP.C:683-690 | tcp_Close is idempotent, changes the socket exactly from ESTAB or SYN-RECEIVED, and then the next retransmitter pass sends FIN and ACK |
| TcpState.AbortCloses | src/tinySOCK/TINYTCP.C:693-707 | tcp_Abort always ends CLOSED with an empty buffer, not unhappy, unthreaded, the handler told -1; it sends RST and ACK exactly when the socket was neither LISTEN nor CLOSED nor never opened |
| TcpState.OverlapDelivered | src/tinySOCK/TINYTCP.C:483-532 | as written, a segment overlapping d already-seen bytes hands only the new bytes to the handler, moves acknum to the segment's end, sets the timeout and acknowledges |
| TcpState.ProcessDataAdvances | src/tinySOCK/TINYTCP.C:483-532 | the corrected tcp_ProcessData hands the handler a count equal to the bytes handed, never negative, and acknum advances by exactly that count, at most 0x10000 in all |
| TcpState.TakenAdvance | src/tinySOCK/TINYTCP.C:497-503 | taking n new bytes moves acknum by n, and by one more for a FIN |
| TcpState.KeepAliveAsWritten | src/tinySOCK/TINYTCP.C:483-500 | a keep-alive probe one byte behind acknum makes the code as written call the handler with -1 and move acknum back by one; the corrected step only acknowledges it |
| TcpState.ProcessDataAgrees | src/tinySOCK/TINYTCP.C:483-500 | the step as written and the corrected step agree on every segment that starts after acknum or holds at least the bytes before it |
| TcpState.StaleSegmentAsWritten | src/tinySOCK/TINYTCP.C:483-500 | a well-formed segment without FIN lying k bytes wholly before acknum moves acknum back by k as written and tells the handler -k; the corrected step leaves acknum and tells nothing |
| TcpState.FinTransitions | src/tinySOCK/TINYTCP.C:502-525 | as written, a FIN at or after acknum moves ESTAB to LAST-ACK sending FIN, FIN-WAIT-1 to CLOSING and FIN-WAIT-2 to TIME-WAIT, and acknum counts the new bytes and the FIN |
| TcpState.FinSet | src/tinySOCK/TINYTCP.C:511 | or-ing in FIN makes FIN present |
| TcpState.ActiveOpenHandshake | src/tinySOCK/TINYTCP.C:47-77 | tcp_Open sends a SYN from sequence number 0 on lport or the clock's port, and the peer's SYN and ACK of it establishes the connection at 1 without the engine sending an ACK |
| TcpState.PassiveOpenHandshake | src/tinySOCK/TINYTCP.C:82-102 | a listening socket answers a SYN to its port with SYN and ACK to the sender, and the ACK of that SYN is answered with an ACK and establishes the connection at 1 |
| TcpState.ResetCloses | src/tinySOCK/TINYTCP.C:300-309 | a RST closes the socket in any state, sends nothing, tells the handler -1 and unthreads it, having saved the sender's MAC |
| TcpState.HandleUnthreads | src/tinySOCK/TINYTCP.C:300-461 | a segment unthreads its socket exactly on a RST or, in LAST-ACK, on the acknowledgement of our FIN |
| TcpState.RespondUnthreads | src/tinySOCK/TINYTCP.C:311-461 | the state switch unthreads only in LAST-ACK on the acknowledgement of our FIN |
| TcpState.ProcessDataStates | src/tinySOCK/TINYTCP.C:502-525 | from ESTAB, FIN-WAIT-1 and FIN-WAIT-2 tcp_ProcessData as written leads only to those or to LAST-ACK, CLOSING and TIME-WAIT, never to the data offset stored in x |
| TcpState.HandleNamed | src/tinySOCK/TINYTCP.C:300-461 | tcp_Handler keeps a socket in a named state, CLOSE-WAIT never being used |
| TcpState.CallsNamed | src/tinySOCK/TINYTCP.C:107-143 | the retransmitter pass, tcp_Close, tcp_Abort, tcp_Write and tcp_Flush keep a socket in a named state |
| TcpState.IdleConnectionKept | src/tinySOCK/TINYTCP.C:116-125 | an established socket with nothing to send is left alone by the retransmitter, its timeout not counted down |
| TcpState.TimeWaitCountdown | src/tinySOCK/TINYTCP.C:123 | a TIME-WAIT socket with m seconds left has m - j left after j passes |
| TcpState.TimeWaitTick | src/tinySOCK/TINYTCP.C:123-125 | one pass over a TIME-WAIT socket with more than a second left takes exactly a second off and keeps it |
| TcpState.TimeWaitCloses | src/tinySOCK/TINYTCP.C:123-131 | a TIME-WAIT socket closes on pass m exactly, telling the handler 0, and not before; tcp_TIMEOUT is twenty seconds |
| TcpState.StepKeepsResidue | src/tinySOCK/TINYTCP.C:123 | a 32-bit step of 1000 keeps a timeout's residue modulo 8 |
| TcpState.ListenNeverExpires | src/tinySOCK/TINYTCP.C:117-125 | a listening socket whose timeout is not a multiple of 8 counts down with 32-bit wrap-around, never reaches 0 and is never aborted |
| TcpState.ListenTick | src/tinySOCK/TINYTCP.C:117-125 | one pass over such a listening socket steps its timeout down with wrap-around and sends nothing |
| TcpState.ListenZeroIsForever | src/tinySOCK/TINYTCP.C:90 | tcp_Listen with timeout 0 listens for ever |
| TcpState.SweepVisitsInOrder | src/tinySOCK/TINYTCP.C:114-142 | the retransmitter gives the sockets their passes in registry order, and stops early only after a socket it unthreads |
| TcpState.SweepTicksEach | src/tinySOCK/TINYTCP.C:115-136 | each visited socket gets one pass |
| TcpState.CutTakesPrefix | src/tinySOCK/TINYTCP.C:115-142 | the walk's turns are the first turns of the registry |
| TcpState.SweepStops | src/tinySOCK/TINYTCP.C:131-141 | no visited socket but the last is unthreaded, and a walk that stops early stopped on one that was |
| TcpState.CutStops | src/tinySOCK/TINYTCP.C:131-141 | the cut walk keeps every socket but possibly the last, and an early stop is on an unthreading turn |
| TcpState.HandleKeepsBuffer | src/tinySOCK/TINYTCP.C:300-461 | tcp_Handler keeps dataSize within 0..512 and the buffer 512 bytes |
| TcpState.EstablishedKeepsBuffer | src/tinySOCK/TINYTCP.C:393-410 | the ESTAB case keeps dataSize within 0..512 |
| TcpState.ProcessDataKeepsBuffer | src/tinySOCK/TINYTCP.C:468-533 | tcp_ProcessData as written does not touch the send buffer |
| TcpState.CallsKeepBuffer | src/tinySOCK/TINYTCP.C:107-241 | the retransmitter pass, tcp_Close, tcp_Abort, tcp_Write and tcp_Flush keep dataSize within 0..512 |
| Tcp.Socket.constructor | src/tinySOCK/TINYTCP.C:31 | a socket structure starts all zero: state 0, no handler, a zeroed 512-byte buffer |
| Tcp.Socket.Restart | src/tinySOCK/TINYTCP.C:68-72 | the stores tcp_Open and tcp_Listen share: sequence number 0, an empty buffer, the flags, unhappy and the handler, every other field kept |
| Tcp.Socket.SetListen | src/tinySOCK/TINYTCP.C:88-99 | the socket's new fields are exactly tcp_Listen's stores |
| Tcp.Socket.Aim | src/tinySOCK/TINYTCP.C:58-67 | the peer's MAC, address and port are stored and nothing else |
| Tcp.Socket.SetOpen | src/tinySOCK/TINYTCP.C:53-72 | the socket's new fields are exactly tcp_Open's stores |
| Tcp.Socket.Ack | src/tinySOCK/TINYTCP.C:397-406 | the socket after the acknowledgement step is Acked of the old one (never more than the pending bytes dropped), only data, dataSize and seqnum written |
| Tcp.Socket.Finish | src/tinySOCK/TINYTCP.C:502-525 | the FIN step moves acknum, state, flags and unhappy as Finished says |
| Tcp.Socket.Greet | src/tinySOCK/TINYTCP.C:315-318 | a SYN in LISTEN stores acknum one past its sequence number, the peer's port and address, and SYN and ACK |
| Tcp.Socket.Await | src/tinySOCK/TINYTCP.C:320-322 | a new state, unhappy and the connection timeout are stored and nothing else |
| Tcp.Socket.SynSeen | src/tinySOCK/TINYTCP.C:332-334 | acknum counts the SYN, ACK is readied and the timeout rearmed |
| Tcp.Socket.Establish | src/tinySOCK/TINYTCP.C:339-342 | SYN-SENT establishes: seqnum counts our SYN, acknum follows the peer's SYN, not unhappy |
| Tcp.Socket.Promote | src/tinySOCK/TINYTCP.C:377-380 | SYN-RECEIVED establishes: seqnum counts our SYN, not unhappy, timeout rearmed |
| Tcp.Socket.Mark | src/tinySOCK/TINYTCP.C:353-361 | new flags and sequence number are stored and nothing else |
| Tcp.Socket.Mark2 | src/tinySOCK/TINYTCP.C:415-418 | a new state and flags are stored and nothing else |
| Tcp.Socket.Append | src/tinySOCK/TINYTCP.C:226-227 | the bytes are copied behind the pending ones and dataSize grows by their count |
| Tcp.Socket.Drop | src/tinySOCK/TINYTCP.C:699-701 | the socket is CLOSED, not unhappy, with nothing pending |
| Tcp.Socket.Close | src/tinySOCK/TINYTCP.C:683-690 | the socket's new fields are exactly tcp_Close's stores |
| Tcp.Tagged | src/tinySOCK/TINYTCP.C:129 | each handler call is recorded with the socket it was made for, in order |
| Tcp.LogStep | src/tinySOCK/TINYTCP.C:115-142 | the handler calls recorded after one more socket's turn follow those recorded before |
| Tcp.DistinctApart | src/tinySOCK/TINYTCP.C:74-75 | two places of a registry without repeats hold two different sockets |
| Tcp.SegmentOf | src/tinySOCK/TINYTCP.C:552-586 | the segment built from a socket holds the 20-byte header and at most 512 bytes of data |
| Tcp.TransmittedNone | src/tinySOCK/TINYTCP.C:550 | sending nothing leaves the wire as it was |
| Tcp.TransmittedOne | src/tinySOCK/TINYTCP.C:552-622 | the frame tcp_Send puts on the wire is the transmission of its socket's snapshot |
| Tcp.FrameSent | src/tinySOCK/TINYTCP.C:552-622 | the one frame sent is the frame of the snapshot with the current identification |
| Tcp.TransmittedJoin | src/tinySOCK/TINYTCP.C:590 | two sends in a row transmit the snapshots of both, identifications running on |
| Tcp.FramesJoin | src/tinySOCK/TINYTCP.C:590 | the frames of two runs of snapshots are those of the first followed by those of the second, numbered on |
| Tcp.NumberedJoin | src/tinySOCK/TINYTCP.C:590 | numbering a concatenation numbers the second part on from where the first ends |
| Tcp.Classify | src/tinySOCK/TINYTCP.C:175-199 | a frame goes to tcp_Handler only when its IP protocol is 6, and every frame is ARP, foreign IP, TCP or other |
| Tcp.Engine.constructor | src/tinySOCK/TINYTCP.C:38-42 | tcp_Init leaves no socket threaded and the identification 0 |
| Tcp.Engine.Send | src/tinySOCK/TINYTCP.C:536-623 | unless the socket is in state 0 or CLOSED one frame of its segment goes out with identification tcp_id, which then counts up; otherwise nothing is sent |
| Tcp.Engine.Notify | src/tinySOCK/TINYTCP.C:499-500 | the handler call is recorded when the socket has a handler, nothing otherwise |
| Tcp.Engine.Flush | src/tinySOCK/TINYTCP.C:234-241 | the socket, the wire and the record move as tcp_Flush's transition says |
| Tcp.Engine.Write | src/tinySOCK/TINYTCP.C:219-231 | the count returned and the new socket and wire are tcp_Write's transition; WriteAppends states what that is |
| Tcp.Engine.Abort | src/tinySOCK/TINYTCP.C:693-707 | the socket moves as tcp_Abort's transition says and leaves the registry, the others keeping their order |
| Tcp.Engine.Reset | src/tinySOCK/TINYTCP.C:695-698 | RST and ACK go out unless the socket is LISTEN or CLOSED |
| Tcp.Engine.Find | src/tinySOCK/TINYTCP.C:258-276 | the two searches give the place Demux picks, or the registry's length exactly when no socket matches |
| Tcp.Engine.Handler | src/tinySOCK/TINYTCP.C:244-462 | the segment moves the socket demultiplexing picks as Handle says, unthreading it when that says so, and no other socket changes; without a match nothing changes |
| Tcp.Engine.Dispatch | src/tinySOCK/TINYTCP.C:282-462 | the chosen socket moves as Handle says and leaves the registry exactly when that unthreads it |
| Tcp.Engine.Receive | src/tinySOCK/TINYTCP.C:298-462 | after the MAC save the socket moves as Receive says: a RST or LAST-ACK's close unthreads it |
| Tcp.Engine.OnReset | src/tinySOCK/TINYTCP.C:300-309 | a RST makes the socket CLOSED, records the handler told -1 and takes it out of the registry |
| Tcp.Engine.Respond | src/tinySOCK/TINYTCP.C:311-461 | the switch cases other than LAST-ACK move the socket and the wire as Respond says |
| Tcp.Engine.OnListen | src/tinySOCK/TINYTCP.C:313-328 | the LISTEN case moves the socket and the wire as OnListen says |
| Tcp.Engine.OnSynSent | src/tinySOCK/TINYTCP.C:330-365 | the SYN-SENT case moves the socket and the wire as OnSynSent says |
| Tcp.Engine.OnSynReceived | src/tinySOCK/TINYTCP.C:367-391 | the SYN-RECEIVED case moves the socket and the wire as OnSynReceived says |
| Tcp.Engine.Resyn | src/tinySOCK/TINYTCP.C:368-373 | a repeated SYN has SYN and ACK sent again and the timeout rearmed |
| Tcp.Engine.Confirm | src/tinySOCK/TINYTCP.C:374-380 | the ACK of our SYN has an ACK sent and establishes the connection |
| Tcp.Engine.OnEstablished | src/tinySOCK/TINYTCP.C:393-410 | the ESTAB case moves the socket, the wire and the record as OnEstablished says |
| Tcp.Engine.OnFinSent | src/tinySOCK/TINYTCP.C:412-422 | the FIN-WAIT-1 case moves the socket, the wire and the record as OnFinSent says |
| Tcp.Engine.OnFinAcked | src/tinySOCK/TINYTCP.C:424-427 | the FIN-WAIT-2 case moves the socket, the wire and the record as OnFinAcked says |
| Tcp.Engine.OnFinReceived | src/tinySOCK/TINYTCP.C:429-434 | the CLOSING case moves to TIME-WAIT on the ACK of our FIN and sends nothing |
| Tcp.Engine.OnTimeWait | src/tinySOCK/TINYTCP.C:458-460 | the TIME-WAIT case sends an ACK |
| Tcp.Engine.OnLastAck | src/tinySOCK/TINYTCP.C:436-456 | the LAST-ACK case closes and unthreads the socket on the ACK of our FIN, telling the handler 0, and otherwise sends FIN and ACK again |
| Tcp.Engine.ProcessData | src/tinySOCK/TINYTCP.C:468-533 | the socket, the wire and the record move as ProcessDataAsWritten says, negative counts included; OverlapDelivered, FinTransitions and StaleSegmentAsWritten state what that is |
| Tcp.Engine.Unseen | src/tinySOCK/TINYTCP.C:483-488 | diff is acknum less the segment's sequence number, one less on a SYN, as a 32-bit int |
| Tcp.Engine.Consume | src/tinySOCK/TINYTCP.C:494-532 | the new bytes are taken and then acknowledged, as Take says |
| Tcp.Engine.Take | src/tinySOCK/TINYTCP.C:495-525 | the handler gets the new bytes and their count, acknum moves past them, and a FIN is consumed |
| Tcp.Engine.Acknowledge | src/tinySOCK/TINYTCP.C:531-532 | the connection timeout is set and the socket's segment sent |
| Tcp.Engine.Unthread | src/tinySOCK/TINYTCP.C:146-162 | the socket leaves the registry if it is on it, the others keeping their order; nothing changes for null |
| Tcp.Engine.Listen | src/tinySOCK/TINYTCP.C:82-102 | the socket takes tcp_Listen's stores and goes to the head of the registry |
| Tcp.Engine.Open | src/tinySOCK/TINYTCP.C:47-77 | the socket takes tcp_Open's stores with the ARP answer or broadcast as peer MAC, goes to the head of the registry, and exactly one SYN frame follows the ARP requests on the wire |
| Tcp.Engine.Prepare | src/tinySOCK/TINYTCP.C:53-72 | the local port is the clock's reading when lport is 0, the peer's MAC is resolved or broadcast, and the wire only gains ARP requests |
| Tcp.Engine.Tick | src/tinySOCK/TINYTCP.C:116-136 | one socket's turn moves it as TickOne says and reports whether it left the registry |
| Tcp.Engine.Countdown | src/tinySOCK/TINYTCP.C:123-136 | the timeout is counted down when something was sent or the socket is not established, and a socket whose timeout is then 0 or less expires |
| Tcp.Engine.Expire | src/tinySOCK/TINYTCP.C:125-136 | a socket that ran out of time moves as Expire says and leaves the registry |
| Tcp.Engine.Retransmitter | src/tinySOCK/TINYTCP.C:107-143 | the walk's outcomes are Sweep of the registry: their segments go out in order with identifications counting up, their handler calls are recorded, the visited sockets hold their outcomes and only the last visited may have left |
| Tcp.Engine.Walk | src/tinySOCK/TINYTCP.C:114-142 | the loop takes exactly the turns Cut allows and leaves each visited socket holding its outcome |
| Tcp.Engine.Visit | src/tinySOCK/TINYTCP.C:116-141 | one more socket takes its turn, and the registry loses it exactly when the turn unthreads it |
| Tcp.Engine.Step | src/tinySOCK/TINYTCP.C:165-213 | one turn of tcp(): a frame accepted by the driver is dispatched as Classify says; without one the registry is swept exactly when the clock is past the deadline, and the next deadline is 1000 ms on; nothing else touches the sockets |
| Tcp.Engine.Poll | src/tinySOCK/TINYTCP.C:175-204 | sed_IsPacket gives a frame exactly when one arrived and passed the MAC test, and that frame is dispatched; otherwise nothing is sent |
| Tcp.Engine.Arrival | src/tinySOCK/TINYTCP.C:176-204 | the received frame is answered by ARP, dropped for a foreign address, or handed to tcp_Handler when its protocol is 6 |
| Tcp.Engine.Resolve | src/tinySOCK/TINYTCP.C:178-181 | an ARP frame gets an answer exactly when it is a request for this host, and no socket changes |
| Tcp.Engine.Network | src/tinySOCK/TINYTCP.C:183-199 | a non-ARP frame for another address is dropped, and one with protocol 6 goes to tcp_Handler whatever its IP checksum |
| Tcp.Engine.Wait | src/tinySOCK/TINYTCP.C:205-209 | the sweep runs exactly when the clock is past the deadline, and the next deadline is the second reading plus 1000 |
| Tcp.Engine.Rearm | src/tinySOCK/TINYTCP.C:207-208 | tcp_Retransmitter sweeps the registry and the next deadline is the clock's reading plus 1000 |
| Tcp.PeerMac | src/tinySOCK/TINYTCP.C:58-64 | the peer's MAC is the ARP answer when ARP resolves the address and broadcast otherwise; the wire only gains ARP requests for it |
| Tcp.RemoveOnly | src/tinySOCK/TINYTCP.C:146-162 | unthreading removes that socket and no other |
| Tcp.RemoveKeepsDistinct | src/tinySOCK/TINYTCP.C:146-162 | unthreading keeps a registry free of repeats |
| Tcp.RemoveAt | src/tinySOCK/TINYTCP.C:152-160 | unthreading the socket at place i cuts exactly that place out |
| Tcp.RemoveAbsent | src/tinySOCK/TINYTCP.C:154 | unthreading a socket not on the registry changes nothing |
| DottedQuad.AtoiOfRender | src/tinySOCK/TINYSOCK.C:177 | atoi reads a decimal rendering of n back as n, and the byte stored is n's low byte |
| DottedQuad.Fields | src/tinySOCK/TINYSOCK.C:174-183 | every string, the empty one too, has at least one '.'-separated component |
| DottedQuad.JoinFields | src/tinySOCK/TINYSOCK.C:174-183 | the components of a string joined with '.' give the string back |
| DottedQuad.FieldsJoin | src/tinySOCK/TINYSOCK.C:174-183 | dot-free components joined with '.' split back into the same components |
| DottedQuad.Bytes | src/tinySOCK/TINYSOCK.C:169-183 | ib after the loop holds four bytes |
| DottedQuad.Parse | src/tinySOCK/TINYSOCK.C:165-185 | parse_IP has an address exactly when the string has at most four components; a fifth would be stored past ib |
| DottedQuad.ParseFour | src/tinySOCK/TINYSOCK.C:174-184 | four dot-free components give ADDR of their atoi bytes, most significant first |
| DottedQuad.JoinFour | src/tinySOCK/TINYSOCK.C:174-183 | four components joined are w.x.y.z |
| DottedQuad.ByteOfRender | src/tinySOCK/TINYSOCK.C:177 | atoi of a rendered byte stores that byte |
| DottedQuad.ParseDottedQuad | src/tinySOCK/TINYSOCK.C:165-185 | the text "a.b.c.d" of four bytes parses to ADDR(a,b,c,d) whatever the stack held |
| DottedQuad.ShortAddressShowsStack | src/tinySOCK/TINYSOCK.C:169-184 | with fewer than four components the last byte of the address is whatever uninitialised ib held |
| DottedQuad.FieldsAt | src/tinySOCK/TINYSOCK.C:175-180 | the component starting at t ends at the first '.' or the end |
| DottedQuad.FieldsFrom | src/tinySOCK/TINYSOCK.C:175-180 | splitting from a component's start yields that component next |
| DottedQuad.AtTerminator | src/tinySOCK/TINYSOCK.C:176-177 | once the NUL is written at i, atoi at t reads exactly the component from t to i |
| DottedQuad.CutNext | src/tinySOCK/TINYSOCK.C:175-182 | one more position: a '.' becomes a NUL and anything else stays |
| DottedQuad.BytesNext | src/tinySOCK/TINYSOCK.C:177-178 | converting one more component fills the next byte of ib |
| DottedQuad.SkipStep | src/tinySOCK/TINYSOCK.C:182 | a character that ends no component keeps the loop's invariant |
| DottedQuad.StoreStep | src/tinySOCK/TINYSOCK.C:175-181 | a terminator while ib has room stores its component's byte and starts the next component |
| DottedQuad.FifthStep | src/tinySOCK/TINYSOCK.C:175-178 | a terminator when four bytes are already stored means the string has a fifth component |
| DottedQuad.Terminate | src/tinySOCK/TINYSOCK.C:176-177 | `*s = 0` cuts the string at i and atoi of the component from t gives the byte stored |
| DottedQuad.CutOnlyDots | src/tinySOCK/TINYSOCK.C:176 | the loop changes nothing but dots into NULs |
| DottedQuad.Scan | src/tinySOCK/TINYSOCK.C:173-183 | the loop over strlen + 1 positions succeeds exactly when there are at most four components, and then ib holds their bytes with the stack's bytes for the rest |
| DottedQuad.ParseIp | src/tinySOCK/TINYSOCK.C:165-185 | parse_IP returns Parse of the C string in the buffer, and changes nothing in the buffer but dots into NULs |
| FileIo.After | src/tinySOCK/FILEIO.C:59-63 | the text after the last c is the longest suffix without c, and the character before it is c |
| FileIo.ComponentHasNoSeparator | src/tinySOCK/FILEIO.C:59-63 | the component fixup_filename keeps holds neither '/' nor '\\' and is a suffix of the name |
| FileIo.Upper | src/tinySOCK/FILEIO.C:71 | upper-casing leaves no lower-case letter and changes only lower-case letters |
| FileIo.Uppered | src/tinySOCK/FILEIO.C:71 | upper-casing keeps the length |
| FileIo.Clean | src/tinySOCK/FILEIO.C:66-78 | the copy loop writes no more characters than it reads |
| FileIo.CleanKeeps | src/tinySOCK/FILEIO.C:66-78 | what the copy loop writes keeps, in order, upper-cased characters that are neither blank, control nor above 126, with at most one dot |
| FileIo.CleanDropsCr | src/tinySOCK/FILEIO.C:70 | a trailing carriage return is dropped like any control character |
| FileIo.FixedIsPlain | src/tinySOCK/FILEIO.C:51-80 | the name fixup_filename produces has no separator, no blank or control character, no lower-case letter and at most one dot |
| FileIo.UpperedKeepsSeparatorsOut | src/tinySOCK/FILEIO.C:71 | upper-casing introduces no separator |
| FileIo.SubsequenceKeeps | src/tinySOCK/FILEIO.C:68-78 | every character kept by the copy loop comes from its input |
| FileIo.OverTwice | src/tinySOCK/FILEIO.C:77-79 | copying a shorter text over a longer one without a terminator leaves the longer one's tail readable |
| FileIo.FixedHasNoNul | src/tinySOCK/FILEIO.C:68-78 | the cleaned name holds no NUL |
| FileIo.AfterAbsent | src/tinySOCK/FILEIO.C:59-63 | a name without the separator keeps all of itself |
| FileIo.CleanPlain | src/tinySOCK/FILEIO.C:68-78 | a component of kept characters without a dot is copied whole, upper-cased |
| FileIo.FixedPlain | src/tinySOCK/FILEIO.C:51-80 | a plain name with no separator, blank, control character or dot is opened upper-cased |
| FileIo.UpperedNoLower | src/tinySOCK/FILEIO.C:71 | a name without lower-case letters is its own upper-casing |
| FileIo.StaleTail | src/tinySOCK/FILEIO.C:67-79 | as written, a long name followed by a shorter one leaves the long name's tail behind the short one in the returned name |
| FileIo.FixedUpperName | src/tinySOCK/FILEIO.C:51-80 | a plain upper-case name is kept as it is |
| FileIo.StaleTailExample | src/tinySOCK/FILEIO.C:67-79 | in the zeroed buffer, after "ABC" the name "X" comes back as "XBC", not "X" |
| FileIo.TerminatedReadsBack | src/tinySOCK/FILEIO.C:77-79 | with a NUL written after the copy, the buffer reads back as exactly the cleaned name |
| FileIo.CopySkip | src/tinySOCK/FILEIO.C:70 | a blank, control or non-ASCII character is skipped and the loop's invariant kept |
| FileIo.CopyStop | src/tinySOCK/FILEIO.C:73-75 | a second dot ends the name with everything cleaned so far written |
| FileIo.CopyWrite | src/tinySOCK/FILEIO.C:71-77 | any other character is written upper-cased at p, a first dot counted |
| FileIo.Names.constructor | src/tinySOCK/FILEIO.C:55 | the static 42-byte buffer starts all NUL |
| FileIo.Names.Copy | src/tinySOCK/FILEIO.C:66-78 | the loop writes exactly the cleaned component over the front of the buffer, leaving the rest as it was, and stops after it |
| FileIo.Names.FixupFilename | src/tinySOCK/FILEIO.C:51-80 | as written: the buffer holds the cleaned component over what it held, and the name returned is the buffer read up to its first NUL |
| FileIo.Names.FixupTerminated | src/tinySOCK/FILEIO.C:51-80 | corrected with a terminator: the name returned is exactly the cleaned last component |
| FileIo.Names.MyOpen | src/tinySOCK/FILEIO.C:14-30 | the name is fixed up whatever the mode; read mode opens it "rb", write mode "wb", any other mode gives 0, and an open that fails gives 0 |
| Ftp.Blanks | src/tinySOCK/TINYFTP.C:173 | the blank skip stops at the first non-blank from i, or the end |
| Ftp.Digits | src/tinySOCK/TINYFTP.C:175-176 | the digit loop stops at the first non-digit from j, or the end |
| Ftp.ModTen | src/tinySOCK/TINYFTP.C:176 | taking a digit into the unsigned short accumulator agrees, modulo 2^16, with taking it into an unbounded one |
| Ftp.DecimalStep | src/tinySOCK/TINYFTP.C:176 | one more digit multiplies the value by ten and adds the digit |
| Ftp.DigitsFrom | src/tinySOCK/TINYFTP.C:175-176 | after reading digits up to j the loop holds their decimal value |
| Ftp.NumberValue | src/tinySOCK/TINYFTP.C:168-180 | get_a_number skips the blanks, stops at the first non-digit after them, and reads the decimal value of the digits between, 0 when there are none |
| Ftp.GetANumber | src/tinySOCK/TINYFTP.C:168-180 | the loop returns where reading stopped and the value of the digits modulo 2^16, as the unsigned short holds it |
| Ftp.AtSlice | src/tinySOCK/TINYFTP.C:224-243 | where a text occurs, the slice holds it |
| Ftp.AtParts | src/tinySOCK/TINYFTP.C:224-243 | where x + y occurs, x occurs and y right after it |
| Ftp.NumberAt | src/tinySOCK/TINYFTP.C:168-180 | a run of digits after some blanks reads as its value and reading stops right after it |
| Ftp.BlanksAt | src/tinySOCK/TINYFTP.C:173 | the blank skip stops exactly at the first non-blank |
| Ftp.FieldAt | src/tinySOCK/TINYFTP.C:228-230 | a field "digits," after some blanks reads as its value and stops at the comma |
| Ftp.NoCr | src/tinySOCK/TINYFTP.C:95 | the line without carriage returns holds none and is no longer than the text |
| Ftp.LineBounded | src/tinySOCK/TINYFTP.C:93-108 | whatever is received, the unfinished line never reaches 120 characters, so b_response never overflows, and no completed line is lost |
| Ftp.FeedLine | src/tinySOCK/TINYFTP.C:93-108 | within a line the assembler holds what was received, without carriage returns, cut at 119 characters |
| Ftp.CompleteLine | src/tinySOCK/TINYFTP.C:96-101 | a line ending in LF is handed on without carriage returns, cut at 119 characters, and the next line starts empty |
| Ftp.RetrNameCleans | src/tinySOCK/TINYFTP.C:251-265 | for "RETR name" CR LF the name copied keeps the blank and the carriage return, and fixup_filename makes of it what it makes of the name alone |
| Ftp.RetrCommand | src/tinySOCK/TINYFTP.C:253-260 | "RETR name" CR LF is a RETR, and strncpy copies the blank, the name and the carriage return |
| Ftp.FixedOfPadded | src/tinySOCK/FILEIO.C:66-78 | a leading blank and a trailing carriage return make no difference to the name opened |
| Ftp.ComponentOfPlain | src/tinySOCK/FILEIO.C:59-63 | a name without separators is its own last component |
| Ftp.Answer | src/tinySOCK/TINYFTP.C:212-308 | a command other than RETR always gets a reply except an empty one after the first; the greeting is the reply exactly to the first empty call |
| Ftp.CommasOfList | src/tinySOCK/TINYFTP.C:227-242 | reading k comma-terminated numbers after some blanks ends just after the last comma with the last number's value |
| Ftp.CommasHead | src/tinySOCK/TINYFTP.C:228-230 | reading the first number and its comma leaves the rest of the list |
| Ftp.CommasStep | src/tinySOCK/TINYFTP.C:228-242 | one number and its comma read, the rest is read from after the comma |
| Ftp.PortCommand | src/tinySOCK/TINYFTP.C:224-245 | "PORT h1,h2,h3,h4,p1,p2" sets the data port to p1 times 256 plus p2, each cut to 16 bits |
| Ftp.PortNumbers | src/tinySOCK/TINYFTP.C:227-243 | the five comma-terminated numbers are read to the fifth comma, and the sixth after it |
| Ftp.LastNumber | src/tinySOCK/TINYFTP.C:243 | the sixth number reads as its value |
| Ftp.FiveNumbers | src/tinySOCK/TINYFTP.C:227-242 | the five comma-terminated numbers of a PORT command are read and the fifth kept |
| Ftp.PortOfParts | src/tinySOCK/TINYFTP.C:243-245 | the port is the fifth number shifted by 8 plus the sixth |
| Ftp.PortFitsInt | src/tinySOCK/TINYFTP.C:245 | the data port computed from two 16-bit numbers lies in 0..0x100FEFF, so the 32-bit `int` cast keeps it exactly |
| Ftp.PortParts | src/tinySOCK/TINYFTP.C:224-227 | after "PORT" come the blank and the list, then the last number |
| Ftp.Keyed | src/tinySOCK/TINYFTP.C:333-363 | a carriage return submits the line with CR LF and empties the buffer exactly when the line is not empty, and the buffer never grows past 81 characters |
| Ftp.BackspaceUndoes | src/tinySOCK/TINYFTP.C:333-345 | a printable key typed with room, then a backspace, leaves the buffer as it was |
| Ftp.TypedLine | src/tinySOCK/TINYFTP.C:333-360 | printable text of at most 81 characters is held as typed, and a carriage return submits it followed by CR LF |
| Ftp.Drain | src/tinySOCK/TINYFTP.C:367-384 | what tcp_Write takes followed by what is moved down is the queue: nothing lost, order kept, as much taken as there is room for |
| Ftp.FileBytesKept | src/tinySOCK/TINYFTP.C:387-409 | while a file is open and there are bytes, one write goes out and the bytes written followed by those kept are the pending bytes, or the chunk just read |
| Ftp.FeedSnoc | src/tinySOCK/TINYFTP.C:93-108 | receiving one more character is one more step of the assembler |
| Ftp.Station.constructor | src/tinySOCK/TINYFTP.C:43-61 | the buffers start empty, no file is open, the greeting is due and the data port is 0x1010 |
| Ftp.Station.CtlHandler | src/tinySOCK/TINYFTP.C:68-112 | a null pointer aborts the data connection and leaves the line alone; otherwise the text is fed to the response assembler a character at a time |
| Ftp.Station.CommaField | src/tinySOCK/TINYFTP.C:228-230 | a number and the comma after it: no result exactly where the comma is missing and the command is a syntax error |
| Ftp.Station.ParsePort | src/tinySOCK/TINYFTP.C:227-245 | the PORT branch gives PortOf of the command |
| Ftp.Station.Retrieve | src/tinySOCK/TINYFTP.C:251-280 | the name after RETR is fixed up and opened for reading; when that fails 550 is queued, otherwise a data connection is opened from 0x1010 to the client's data port and 150 is queued |
| Ftp.Station.OpenRetr | src/tinySOCK/TINYFTP.C:259-265 | send_filename is the name copied out of the command and the file opened is the fixed-up name when readable |
| Ftp.Station.AnswerRetr | src/tinySOCK/TINYFTP.C:266-280 | 550 when the file did not open, else the data connection and 150 |
| Ftp.Station.ServerHandler | src/tinySOCK/TINYFTP.C:183-309 | a close changes nothing; other commands queue Answer's reply, clear the greeting after the first call and set the data port from a well-formed PORT; a RETR opens the file and answers as Retrieve says |
| Ftp.Station.Keyboard | src/tinySOCK/TINYFTP.C:325-364 | a key updates userbuffer as Typed says; a submitted line is queued unless it is local, a RETR names the file to receive, control-X closes the control connection |
| Ftp.Station.SendCommands | src/tinySOCK/TINYFTP.C:367-374 | the client's command queue loses exactly what tcp_Write took, which is written and flushed |
| Ftp.Station.SendResponses | src/tinySOCK/TINYFTP.C:377-384 | the server's reply queue loses exactly what tcp_Write took, which is written and flushed |
| Ftp.Station.SendFile | src/tinySOCK/TINYFTP.C:387-410 | the file transfer moves as FileStep says, 226 queued at end of file, and the pending bytes stay within the 1024-byte buffer |
| Ftp.Station.Application | src/tinySOCK/TINYFTP.C:319-411 | one call handles the key, drains both queues and sends the file, in that order, keeping every buffer within its size |
| Http.Classify | src/tinySOCK/TINYHTTP.C:72-84 | a request is looked at exactly when it is at least 32 bytes long, and it is served only when it also starts with "GET " |
| Http.Resource | src/tinySOCK/TINYHTTP.C:85-89 | the path opened always starts with the web root ".\\" |
| Http.FileSizeNeverFlagged | src/tinySOCK/TINYHTTP.C:25-30 | get_file_size never returns the -1 http_connect tests for: a failed fstat gives 1 and a size is never negative |
| Http.Read | src/tinySOCK/TINYHTTP.C:103-106 | read takes no more bytes than the file holds |
| Http.Reply | src/tinySOCK/TINYHTTP.C:90-109 | the reply starts with 200 exactly when the file opens, and then carries the server line and the file read as a C string; otherwise the four 404 strings |
| Http.HttpConnect | src/tinySOCK/TINYHTTP.C:64-115 | the socket is flushed last on every path; a GET is answered with one tcp_Write per text of Reply for its resource, after " HTTP/" is cut to a NUL; a non-GET only has its 33rd byte cut; short and non-HTTP requests change nothing; neither gets a write |
| Http.LastOfTarget | src/tinySOCK/TINYHTTP.C:85 | the byte ptr[strlen(ptr) - 1] reads is '/' exactly when the target ends in '/'; for an empty target it is the blank before it |
| Http.GetRoundTrip | src/tinySOCK/TINYHTTP.C:72-84 | a request "GET path HTTP/..." of at least 32 bytes, with a path free of blanks and NULs, is classified as a GET of exactly that path |
| Http.FindMark | src/tinySOCK/TINYHTTP.C:75 | strstr finds " HTTP/" right after the path of such a request |
| Http.NoMarkAt | src/tinySOCK/TINYHTTP.C:75 | one mismatching byte means " HTTP/" does not occur at that place |
| Http.CStrKeeps | src/tinySOCK/TINYHTTP.C:75 | a prefix free of NULs is kept by reading the C string |
| Http.EolScan | src/tinySOCK/TINYHTTP.C:48-58 | when the scan as written reports an end of line, CR LF does occur just before it |
| Http.ScanFixedFinds | src/tinySOCK/TINYHTTP.C:48-58 | the corrected scan, which counts a CR that breaks a match as a new start, finds the first CR LF from where the match began |
| Http.ScanFixedIsFind | src/tinySOCK/TINYHTTP.C:48-58 | from the start, the corrected scan stops exactly after the first CR LF |
| Http.EolMissedAsWritten | src/tinySOCK/TINYHTTP.C:49-56 | on CR CR LF the scan as written misses the end of line that occurs at 1, while the corrected scan finds it |
| Http.RecvNew | src/tinySOCK/TINYHTTP.C:40-60 | as written: with no data it returns 0; with CR LF found it writes the NUL over the CR and returns the length of the text after the LF; without it the loop runs past the buffer |
| Http.RecvLine | src/tinySOCK/TINYHTTP.C:40-60 | corrected: within the received bytes, the CR of the first CR LF pair is replaced by a NUL (in "a\rb\r\n" that is offset 3, not the lone CR at 1) and the length of the C string before it returned; 0 and no change when there is no CR LF |
| Http.LineLength | src/tinySOCK/TINYHTTP.C:52-53 | after the NUL at f the string is at most f long, exactly f when no NUL came before |
| Http.RecvCountAsWritten | src/tinySOCK/TINYHTTP.C:52-53 | on "ab" CR LF the code as written returns 1, the bytes after the LF, where the line holds 2 |

## Left out

- Hardware and operating-system I/O are not modelled: the port writes of `sed_Init`, the loops of `xmt_frame`/`rcv_frame`, `MsecClock`, the Win32 serial driver `comdrvr.c`, `inp_char`/`outp_char`, and `fopen`/`fread`/`fwrite`/`open`/`malloc`. They become an environment. The clock and the frames that arrive are fixed sequences given in advance. The wire and the serial output are append-only logs. Files are a set of readable names and byte streams handed in.
- `printf` logging, `tcp_DumpHeader`, the console's `kbhit`/`getch` (a key is a parameter), `exit`, the demo `TinySOCK()` harnesses and the `ftp()`/`http()` drivers that only loop over `tcp()` are not modelled.
- The `COMMDRIVER` build of `SED.C` is not modelled. That build reads frames through the serial driver and hands out `&sed_rx[1]`. The model follows the default build, which receives through `rcv_frame` at `sed_rx[0]`.
- Clock arithmetic is unbounded. The deadlines the source computes in 32-bit `Longword`s are not wrapped: ARP's +2000 ms and +250 ms, the timeouts of ICMP and TCP, and the +1000 ms of the `tcp()` loop. A deadline past 2^32 ms (about 49.7 days of uptime) therefore behaves differently in the source. `Env.clock` is a natural number.
- Slip.SlipLink.IsPacket: the receive buffer is a sequence without a bound. The source's `recvbuffer[8192]` can be overrun by a frame of more than 8192 bytes between FR_END bytes, which is not modelled.
- TcpSegment.ReceivedTcpSum and TcpSegment.ReceivedIpSum are computed, but the engine never acts on them. TINYTCP.C:190-195 and 296 only print a bad checksum and carry on, and the model drops the print.
- Tcp.Engine.Open and Tcp.Engine.Listen require that the socket is not already on the registry. The source re-opens a socket that may still be threaded: `s_ic_data` on every RETR (TINYFTP.C:273), `s_og_ctl` (TINYFTP.C:434 and 455) and `s_data` (TINYSOCK.C:253). That would thread it twice and make the registry cyclic, which a sequence of distinct sockets cannot represent.
- Tcp.Engine.Step does not call `application()`. The `tcp()` loop calls it on every turn without a frame. Its FTP instance is modelled separately as Ftp.Station.Application, whose socket calls are a log of requests.
- Tcp.Socket.Ack drops at most the pending bytes (the corrected Acked), where TINYTCP.C:397-405 caps the count at 512 only. An acknowledgement beyond the pending bytes drives `dataSize` negative in the source. From there `tcp_Send` and `tcp_Write` call `Move` with a negative count or a negative index, which is undefined behaviour with no continuation to model. The step as written is TcpState.AckedAsWritten, and "## Findings" shows the input that parts them.
- Tcp.Engine.Write requires `len` to be no more than the bytes given, where the C caller passes a pointer and a length.
- Ftp.Station.Application takes the typed key, the room `sock_write` finds on each socket, and the next chunk read from the file as parameters. Its effects on the sockets are requests in a log, not calls into the engine.
- Udp.UdpLayer.Send and Udp.UdpLayer.WriteDatagram require the payload to fit the transmit buffer; the source would write past `sed_tx`.
- Ethernet.Nic.Send and Slip.SlipLink.Send require the frame length to fit the transmit buffer, for the same reason.
- DottedQuad.Parse: a fifth component makes `parse_IP` store a byte at `ib[4]`, past the array, which is undefined behaviour. The model answers None there.
- FileIo.Names.FixupFilename and FileIo.Names.MyOpen require the cleaned name to fit the 42-byte `fixed_filename`, because the source writes past the array otherwise.
- Ftp.Station.Retrieve, Ftp.Station.OpenRetr and Ftp.Station.ServerHandler require the same of the RETR name. ServerHandler also does not restate the station's invariant after a RETR.
- Ftp: the `strcat`/`strncpy` overruns of the command and response buffers, `strncmp` reading past `len`, and a negative `len` handed to the control handler (TINYFTP.C:68-112) are not modelled.
- Ftp: `ftp_local_command`, `ftp_dataHandler`, `ftp_Abort` and the printing of `ftp_process_response` are not modelled.
- Ftp.Station.ServerHandler keeps `his_data_port` as a mathematical integer. On the 32-bit host the source's `int` holds `(h << 8) + l` exactly, since it is at most 0x100FEFF (`Ftp.PortFitsInt`), so the two agree. Only the low 16 bits reach the `Word` port parameter of `tcp_Open`, and the model reduces the value modulo 2^16 at that point.
- Http: `strstr`/`strlen` reading past the received bytes, the overrun of `resource[512]`, the file body not being NUL-terminated after `read`, and partial writes of `send_str` are not modelled.
- Http: the `idle_application` callback is not modelled.
- Http.RecvNew: the loop of `recv_new` never decrements `dataSize` (TINYHTTP.C:48-58), so with no CR LF it reads past the buffer. The model stops there with `Overrun`.
- Http.RecvLine bounds the corrected scan by `dataSize`.

## Findings

| source | as written | input that shows it | evidently intended | confidence | as-written member | corrected member |
|---|---|---|---|---|---|---|
| src/tinySOCK/TINYICMP.c:30-35 | the guard takes `rev_word` of the one-byte ICMP type, so it is never 8, and the inverted test never rejects anything | an echo reply addressed to this host is answered with another reply | answer exactly the echo requests for the local address | not executed | Icmp.AsWrittenIgnoresNothing | Icmp.Pinger.Answer |
| src/tinySOCK/TINYUDP.C:41-43 | `udp_checksum` folds the carry into the sum only once | a datagram 192.168.1.2 to 192.168.1.1 port 7 with payload 7D 78: the sum is 0x1FFFF, and the checksum sent fails the receiver's test | fold until no carry is left, so that every segment sent verifies | not executed | Udp.AsWrittenDropped | Udp.SegmentVerifies |
| src/tinySOCK/TINYTCP.C:397-405 | ESTAB caps the acknowledged count at 512, not at the pending bytes | dataSize 0 and an acknowledgement of seqnum + 1 leave dataSize at -1 | drop at most the pending bytes | not executed | TcpState.AckBeyondPendingAsWritten | TcpState.AckedDropsPrefix |
| src/tinySOCK/TINYTCP.C:489-497 | `tcp_ProcessData` takes `len - diff` as new whenever `diff >= 0`, even when the segment lies wholly before acknum | a keep-alive one byte before acknum with no data: the handler is told -1 (read as a close) and acknum moves back by one | only acknowledge a segment that holds nothing new | not executed | TcpState.KeepAliveAsWritten | TcpState.ProcessDataAdvances |
| src/tinySOCK/FILEIO.C:67-79 | `fixup_filename` never terminates `fixed_filename`, so the tail of a longer earlier name stays behind | "ABC" and then "X" in the zeroed buffer: the second call returns "XBC" | terminate the cleaned name, so that it reads back exactly | not executed | FileIo.StaleTailExample | FileIo.Names.FixupTerminated |
| src/tinySOCK/TINYHTTP.C:49-56 | the end-of-line scan restarts after a CR that breaks a match without counting that CR as a new start | "\r\r\n": the CR LF at offset 1 is missed | find the first CR LF | not executed | Http.EolMissedAsWritten | Http.ScanFixedIsFind |
| src/tinySOCK/TINYHTTP.C:52-53 | `recv_new` returns the bytes after the LF, not the length of the line | "ab\r\n" returns 1 where the line holds 2 bytes | return the length of the line | not executed | Http.RecvCountAsWritten | Http.LineLength |

# Link-layer models of DMesh

DMesh carries a mesh over whatever radio a node has. This project models the parts of it that turn
bytes into messages, hand out addresses and keep small state machines, and proves what they keep.

- `bytes.dfy`: octets and options, shared by all.
- `dns_name.dfy`, `dns_text.dfy`, `dns_txt.dfy`, `dns_disc.dfy`: the DNS-SD codec of Wi-Fi Direct. A compressed-name
  reader with escapes, pointers and a moving length limit; TXT records; the whole discovery message.
- `dhcp.dfy`: the DHCP lease server of a P2P group, message by message and over whole runs.
- `tlv.dfy`: elements with 8-bit and attributes with 16-bit lengths, parsed by two index loops.
- `nan_gate.dfy`: the gate that spaces NAN transmissions, over interleavings of calls and events.
- `nan_frames.dfy`, `nan_esp.dfy`: NAN (Wi-Fi Aware) frames, built in Go and in C into shared buffers,
  and the C walk over received attributes, compared with the Go parser.
- `wifi_db.dfy`: the database of known networks, updated in place from scans.
- `ble.dfy`: sending long data over BLE in numbered pieces.
- `bpf.dfy`: the monitor interface's packet filter under an interpreter.
- `station.dfy`: station counters from attributes in any order.
- `lora.dfy`: the LoRa radio's register setters, seen as independent fields, and its receive modes.

Code that works in place is a class or a method with loops, proved against a function of its inputs;
the properties are then lemmas about that function. A Go panic in a parser is an outcome of its own
(`None`, `Panics`), so the models say which inputs cause it. Sends append to a ghost log; clock
readings, random starts, map enumeration orders and failures of foreign calls are parameters or free
choices, so that results hold for all of them.

Where the code differs from what its comments or the standards suggest, the models follow the code:

- The TXT slice of a discovery message is counted from the wrong base and takes five bytes of what
  follows (`DnsDisc.DiscRoundTrip`, `DnsDisc.TailOverridesPsk`).
- The TXT parser accepts a last record that is one byte short and reads one byte too far
  (`DnsTxt.ParseFromCloses`, `DnsTxt.OneShortReadsOn`).
- A Discover can be answered with an expired slot of another client, which Request then refuses
  (`Dhcp.OfferThenRequest`, `Dhcp.ExpiredOfferIsRefused`, `Dhcp.ExpiryFreesNothing`).
- The gate spaces transmissions by 100 ms only up to the delay between reading the clock and
  sending, and only between calls that do not overlap. A stamp stored late can undo it for others,
  and so can a status that clears the stamp of a frame that is about to go out
  (`NanGate.DelayShortensSpacing`, `NanGate.SpacingExactly`, `NanGate.InversionBreaksSpacing`,
  `NanGate.StatusInsideBreaksSpacing`).
- The C walk gives up at an empty attribute, which the Go parser accepts (`NanEsp.WalkAgreesWithParser`,
  `NanEsp.EmptyAttributeStops`), and overwrites the tag behind a follow-up
  (`NanEsp.TagBehindFollowupIsLost`). It takes an attribute that reaches into the checksum, which
  the Go parser refuses (`NanEsp.ChecksumIsTaken`).
- A Go sender that once sent a non-sync beacon sends no sync beacon afterwards (`NanEsp.BeaconKind`).
- The eight-bit piece counter wraps behind piece 255, and a count of 256 or more wraps before the
  loop, so that from 255 pieces on data is lost or accesses leave the buffers (`Ble.Server.BleSend`).
- A wide counter or rate that is zero counts as absent, so that order can matter
  (`Station.OrderMattersExactly`, `Station.RateOrderMattersExactly`).

`dafny verify dfyconfig.toml` checks everything.

## Model

| member | source | states |
|---|---|---|
| DnsName.UnpackDomainName | pkg/l2/wpa_dnssd.go:197-298 | The reader, with its offset, first-pointer offset, pointer count and moving limit, returns for every byte string and offset the name, end and error that the label-level definition `Unpack` gives; it terminates on cyclic pointers and never reads outside the message; and what it has built when it stops, on refusals too, is the text of the labels `Taken`. Loop invariant: `len(s)-(maxLen-255)` is the number of unescaped octets. |
| DnsName.AppendEscaped | pkg/l2/wpa_dnssd.go:221-244 | One byte is appended in its presentation form, and the limit rises by exactly the bytes the escape adds. |
| DnsName.AppendLabel | pkg/l2/wpa_dnssd.go:220-246 | A label is appended escaped and with its dot; written length minus the raised limit grows by the octets of the label plus one. |
| DnsName.SegmentsRoundTrip | pkg/l2/wpa_dnssd.go:203-297 | Labels laid out in segments linked by pointers, anywhere in any message, ended by a zero byte or a pointer to a fixed offset: refused exactly when more than ten pointers are needed, or the end is a zero byte and the unescaped length 255 or more, however many escapes; otherwise the end is just past the first pointer or the zero byte, and the text reads back as exactly the labels, joined, and those of the offset. A refusal ends at the length of the message, with no text in the first case and the whole in the second. |
| DnsName.QueryPointerAddsEmptyLabel | pkg/l2/wpa_dnssd.go:268-272 | A pointer to offset 0x27 gives a name that reads back with an empty label, which no name on the wire has. |
| DnsName.FollowChain | pkg/l2/wpa_dnssd.go:203-287 | Such a chain is followed to its end if the pointers suffice, and else refused. |
| DnsName.NameRoundTrip | pkg/l2/wpa_dnssd.go:203-297 | A list of labels laid out at any offset and ended by a zero byte is refused exactly when it takes 255 bytes or more on the wire without that zero; accepted, the end is just past the zero byte. Either way undoing the escapes of the text gives exactly the labels. |
| DnsName.DomainRoundTrip | pkg/l2/wpa_dnssd.go:268-281 | The plain case with a pointer to a fixed offset, which adds that offset's labels; such a name is never too long. |
| DnsName.PresentationInjective | pkg/l2/wpa_dnssd.go:220-246 | Different label lists have different presentation forms. |
| DnsName.ReadEscapeAll | pkg/l2/wpa_dnssd.go:221-244 | Reading back undoes the escapes of any bytes, whatever stands around them. |
| DnsName.PointerJoins | pkg/l2/wpa_dnssd.go:248-268 | A pointer that is not one of the fixed offsets continues the name with the labels at its target, and fixes the end at the two bytes behind it. |
| DnsName.UnpackBounds | pkg/l2/wpa_dnssd.go:197-298 | For every byte string, cyclic pointers and refusals included: the reader builds at most 44 times the message length, and the name returned is at most 11 bytes longer than what was built; on success the end lies above the start and inside the message. |
| DnsName.TakenOctets | pkg/l2/wpa_dnssd.go:203-287 | The octets of the labels taken, whatever the outcome, are at most the pointers left times the message length plus the bytes left. |
| DnsName.FollowTaken | pkg/l2/wpa_dnssd.go:203-287 | An accepted name is made of exactly the labels taken. |
| DnsName.AcceptedReadsBack | pkg/l2/wpa_dnssd.go:197-298 | For every byte string and offset: an accepted name reads back as the labels taken, each of 1 to 63 bytes, followed by those of a fixed offset if it ends there. |
| DnsName.EndIsLocal | pkg/l2/wpa_dnssd.go:259-261 | The end is fixed by the bytes up to it: two messages that agree there, and both parse, give the same end. |
| DnsName.TooManyHops | pkg/l2/wpa_dnssd.go:262-264 | A chain of more pointers than are left is refused. |
| DnsName.LoopsAreRefused | pkg/l2/wpa_dnssd.go:262-264 | Any cycle of labels and pointers back to the start is refused. |
| DnsText.NameIsText | pkg/l2/wpa_dnssd.go:215-246 | Whatever the message and offset, in the text returned every byte is from 32 to 126; each of . ( ) ; space @ " \ inside a label stands behind a backslash, three digits behind a backslash write a byte below 32 or from 127 on, and every other byte stands as itself. |
| DnsText.ByteText | pkg/l2/wpa_dnssd.go:221-246 | Every byte, alone in a label: its text in literal bytes, with the dot, and the end. |
| DnsText.RootText | pkg/l2/wpa_dnssd.go:210-213 | A zero byte at the start is the root, a single dot. |
| DnsText.PointerOutcome | pkg/l2/wpa_dnssd.go:248-281 | Labels up to a pointer, its target written out as bits of the two bytes: for 0x27, 0x0c, 0x11 and 0x1c the name ends there with ".QRY.", "_tcp.local.", "local." or "_udp.local." added, and for every other target it goes on there. |
| DnsText.HopOfPointer | pkg/l2/wpa_dnssd.go:248-268 | The first hop from any labels leads where the pointer behind them points, and nowhere for the four fixed offsets. |
| DnsText.BrokenRefused | pkg/l2/wpa_dnssd.go:206-219 | Behind any labels: the end of the message, a length byte from 0x40 to 0xBF, a label or pointer that is cut off. The name is refused with no text and the length of the message. |
| DnsText.DoneIsChain | pkg/l2/wpa_dnssd.go:203-287 | Whatever is followed to an end is a chain of segments with at most ten pointers: the chains of the round trip are all the names there are. |
| DnsText.AcceptedIsChain | pkg/l2/wpa_dnssd.go:197-298 | Every accepted name is such a chain, with fewer than 255 octets if it ends at a zero byte. |
| DnsText.RefusedMeans | pkg/l2/wpa_dnssd.go:197-298 | Every refusal ends at the length of the message and returns nothing, or a text that reads back as labels of 255 bytes or more. |
| DnsTxt.ParseDns | pkg/l2/wpa_dnssd.go:170-191 | The scan returns the entries `ParseTxt` defines, or `None` where the code would index behind the backing array. |
| DnsTxt.ParseFromCloses | pkg/l2/wpa_dnssd.go:178-182 | From any offset the scan yields the entries of all complete records, and a rest with a record one byte short is read over the end of the slice, into what lies behind it. |
| DnsTxt.PackTxtBytes | pkg/l2/wpa_dnssd.go:160-168 | The buffer grows by the records of the map in the order the map is walked. |
| DnsTxt.OneShortReadsOn | pkg/l2/wpa_dnssd.go:178-182 | Three concrete bytes, one short of their record: the parser takes whatever byte stands behind the slice, and panics if there is none. |
| DnsTxt.EntryOfRecord | pkg/l2/wpa_dnssd.go:183-187 | A key and value written as one record come back as that pair exactly when neither holds an equals sign, and otherwise as nothing. |
| DnsTxt.ParsedIsClean | pkg/l2/wpa_dnssd.go:183-187 | Whatever is parsed has no equals sign in keys or values, and every pair fits a record of 255 bytes. |
| DnsTxt.ParseOfPacked | pkg/l2/wpa_dnssd.go:160-191 | Packed records in front of any further bytes parse to their kept entries overlaid with what those bytes parse to, for every enumeration order. |
| DnsTxt.TxtRoundTrip | pkg/l2/wpa_dnssd.go:160-191 | Parsing the packed form gives the map back, for every enumeration order, exactly when no key or value holds an equals sign and every record fits 255 bytes. |
| DnsTxt.ParseOfCut | pkg/l2/wpa_dnssd.go:160-191 | A slice that ends inside packed records, whatever is behind them, parses to the records of an initial part of the order: as many as fit one byte more than the slice. |
| DnsTxt.TxtOfOne | pkg/l2/wpa_dnssd.go:160-164 | A pair goes out as its length in one byte, the key, 0x3d and the value. |
| DnsTxt.TxtInOrder | pkg/l2/wpa_dnssd.go:160-168 | Pairs go out one behind the other in the order of enumeration. |
| DnsTxt.PairParses | pkg/l2/wpa_dnssd.go:170-191 | Those bytes parse to the pair when neither side holds 0x3d and they fit 255, whatever is behind the slice. |
| DnsTxt.NoPairParses | pkg/l2/wpa_dnssd.go:183-187 | A record with no 0x3d, or with more than one, parses to nothing. |
| DnsDisc.PackDns | pkg/l2/wpa_dnssd.go:126-149 | The message is the patched length, the protocol type, the transaction id taken from the request, the status, the name and the TXT records; a request under four bytes panics. |
| DnsDisc.ParseDisc | pkg/l2/wpa_dnssd.go:66-124 | The device gets as PSK, SSID and Net what the parsed map holds under the keys "p", "s" and "c", or the empty string, exactly when `ParseMessage` accepts; on every refusal and panic they keep their values. |
| DnsDisc.ReadsOwnName | pkg/l2/wpa_dnssd.go:91-101 | The nine name bytes every message starts with read as the own service name. |
| DnsDisc.DiscRoundTrip | pkg/l2/wpa_dnssd.go:66-149 | A packed message below 65536 bytes, followed by anything: it panics with fewer than five bytes behind it; otherwise it is accepted with its entries overlaid by what the five bytes behind it parse to. For every map order and transaction id. |
| DnsDisc.DiscFields | pkg/l2/wpa_dnssd.go:66-149 | With five bytes behind it of which the first is 0 or above 5, a message of clean records gives back the whole map. |
| DnsDisc.TailOverridesPsk | pkg/l2/wpa_dnssd.go:115-120 | A concrete record behind the message replaces the key it carries: the TXT slice takes five bytes too many. |
| DnsDisc.TailHarmlessExactly | pkg/l2/wpa_dnssd.go:115-120 | What follows lets every clean map come back whole exactly when it has five bytes and these parse, as a TXT slice of their own, to no entry. |
| DnsDisc.LengthWraps | pkg/l2/wpa_dnssd.go:75-92 | A stated length of 0 to 2, or of 65534 or 65535, which wrap in 16 bits, panics. |
| DnsDisc.LongMessage | pkg/l2/wpa_dnssd.go:75-149 | A packed message of 65536 bytes or more, by its length modulo 65536: a panic below 5, refused from 5 to 13, a panic at 14 and 15, and from 16 on accepted with what the TXT slice that this length cuts off parses to. Whatever follows. |
| DnsDisc.LongMessageRecords | pkg/l2/wpa_dnssd.go:75-149 | For a map whose records fit, that is the records of an initial part of the order: as many as the cut leaves whole or a byte short. |
| DnsDisc.MessageBytes | pkg/l2/wpa_dnssd.go:126-149 | The bytes of a packed message: the length behind itself with the low byte first, 1, the transaction id, 0, the twelve name and type bytes, and the records. |
| DnsDisc.OutcomeExactly | pkg/l2/wpa_dnssd.go:66-124 | For every buffer: refused exactly when not all was decoded, byte 2 is not 1, byte 4 not 0, the name in the bytes up to the stated length is broken or not "dm._dm._udp.local.", or the byte behind its zero is not 0x10; the panics; and otherwise accepted with the records two bytes on. |
| DnsDisc.PackAndParse | pkg/l2/wpa_dnssd.go:66-149 | Packing a map of clean records and parsing it on the other side, with a tail that starts with 0 or a byte above 5, sets the device's PSK, SSID and Net to the map's "p", "s" and "c", or to the empty string. |
| Dhcp.DHCPHandler.ServeDHCP | pkg/l2/dhcp.go:53-102 | Every message takes the table and the reply through one step of the protocol, `Step`, whatever order the table is walked in. |
| Dhcp.DHCPHandler.FreeLease | pkg/l2/dhcp.go:104-115 | The two loops return the first slot, cyclically from the random start, that is vacant or expired, and -1 when there is none. |
| Dhcp.DHCPHandler.FindLease | pkg/l2/dhcp.go:57-64 | The walk finds a slot of the client if it has one, and reports -1 only if it has none. |
| Dhcp.DHCPHandler.DropLease | pkg/l2/dhcp.go:91-99 | Release and Decline remove one slot of the client, or nothing if it has none. |
| Dhcp.ServeAll | pkg/l2/dhcp.go:53-102 | Serving any messages one after the other on a new handler is a valid run: the runs of the lemmas below are those of the handler. |
| Dhcp.UnansweredExactly | pkg/l2/dhcp.go:57-67 | Discover stays unanswered exactly when the client has no lease and every slot holds an unexpired one. |
| Dhcp.FirstFreeIsUnique | pkg/l2/dhcp.go:104-115 | The free slot is determined by table, time and start. |
| Dhcp.SlotOfOffer | pkg/l2/dhcp.go:68-82 | The address offered for a slot is the one that a Request maps back to that slot. |
| Dhcp.AddressOfSlot | pkg/l2/dhcp.go:81-86 | The address acknowledged for a slot is the start address plus the slot. |
| Dhcp.OfferThenRequest | pkg/l2/dhcp.go:57-89 | An offer followed directly by a Request for it is acknowledged and recorded at the same slot exactly when the slot is vacant or the client's own; otherwise it is refused, and then the slot holds an expired lease. |
| Dhcp.RequestElsewhere | pkg/l2/dhcp.go:73-75 | A Request whose server id is neither our four bytes nor those behind the IPv6-mapped prefix is not answered and changes nothing. |
| Dhcp.RequestInRange | pkg/l2/dhcp.go:73-89 | Any other Request for an address of the range, by the option or by the client's own address without it: acknowledged and recorded exactly when the slot has no lease or one of the client's, expired or not, and else refused with no change. |
| Dhcp.RequestOutOfRange | pkg/l2/dhcp.go:76-89 | And for anything else, of whatever length: refused with no change. |
| Dhcp.OwnSlotIsOffered | pkg/l2/dhcp.go:57-69 | A client with a lease is offered one of its own slots. |
| Dhcp.NearestIsOffered | pkg/l2/dhcp.go:65-69 | Any other is offered the first slot round the range from the random start that has no lease or an expired one. |
| Dhcp.OneLeaseIsDropped | pkg/l2/dhcp.go:91-99 | A Release or Decline takes one lease of the sender out of the table, if it has one, and nothing else. |
| Dhcp.OthersAreIgnored | pkg/l2/dhcp.go:53-102 | Messages of other types are not answered and change nothing. |
| Dhcp.ExpiredOfferIsRefused | pkg/l2/dhcp.go:83-89 | A run of three messages in which an expired slot is offered and then refused. |
| Dhcp.StaysHeld | pkg/l2/dhcp.go:83-99 | Over every run a client keeps a slot it holds until its own Release or Decline. |
| Dhcp.AckOwnership | pkg/l2/dhcp.go:53-102 | Over every run, two acknowledgements of one address to different clients have a Release or Decline of the first client between them. |
| Dhcp.OtherServersRequests | pkg/l2/dhcp.go:73-75 | Over every run a Request to another server is passed over in silence and leaves the table as it was. |
| Dhcp.RenewalIsGranted | pkg/l2/dhcp.go:76-89 | Over every run a client that was acknowledged an address and sent no Release or Decline since is acknowledged it again, by the option or by its own address alone, however late, with a new lease. |
| Dhcp.ExpiryFreesNothing | pkg/l2/dhcp.go:83-89 | Over every run, once all slots are in the table under other clients and none of their holders sends a Release or Decline, a client is never acknowledged, however many leases have expired. |
| Dhcp.SlotsInRange | pkg/l2/dhcp.go:81-86 | Over every run every index in the table lies in the lease range. |
| Dhcp.LeaseComesFromLastAck | pkg/l2/dhcp.go:53-102 | Over every run each lease in the table is the one that the last acknowledgement of its slot granted: its client, its time plus the duration. |
| Dhcp.ReplyInRange | pkg/l2/dhcp.go:68-86 | Over every run each address offered or acknowledged is one of the range. |
| Dhcp.P2pAddresses | pkg/l2/dhcp.go:17-28 | Over every run of the P2P server each address offered or acknowledged is 192.168.(49 + (n + 2) / 256).((n + 2) mod 256) for a slot n below 8000, for 7200 seconds, and never the server's own. |
| Dhcp.P2pRequests | pkg/l2/dhcp.go:17-28 | Over every run it answers requests for its addresses with no server id, 192.168.49.1 or that behind the IPv6-mapped prefix, and no others. |
| Tlv.ParseATTs | pkg/l2/wifi/nan.go:705-736 | The index loop over attributes with 16-bit lengths computes `Decode`. |
| Tlv.ParseIEs | pkg/l2/wifi/wifi.go:238-267 | The index loop over elements with 8-bit lengths computes `Decode`. |
| Tlv.DecodeOfEncode | pkg/l2/wifi/nan.go:705-736 | In both formats parsing the concatenation of any elements returns them. |
| Tlv.EncodeOfDecode | pkg/l2/wifi/nan.go:705-736 | In both formats whatever parses re-encodes to the input. |
| Tlv.FailsExactly | pkg/l2/wifi/wifi.go:238-267 | In both formats parsing fails exactly on the inputs that are no concatenation of complete elements. |
| Tlv.AttributeBytes | pkg/l2/wifi/nan.go:705-736 | An attribute byte by byte: id, length with the low byte first, content; with less content than that, or less than the three bytes in front, parsing fails. |
| Tlv.ElementBytes | pkg/l2/wifi/wifi.go:238-267 | The same of an element with its single length byte. |
| NanGate.Spacing | pkg/l2/wifi/nan.go:350-357 | In every log of calls that do not overlap and read the clock in turn, with status events anywhere: any two transmissions without a status since the first one's stamp was stored happen at least 100 ms apart, less the longest time any call took from its first reading to its sending. The same holds for any two without a status between them if none comes between a call's storing and its sending. |
| NanGate.DelayShortensSpacing | pkg/l2/wifi/nan.go:350-357 | That cannot be improved: for every delay up to 100 ms, two calls that do not overlap, with no status anywhere, transmit 100 ms less that delay apart. |
| NanGate.StatusInsideBreaksSpacing | pkg/l2/wifi/nan.go:141-141 | A concrete log of three calls that do not overlap and have no delay: a status between the second one's storing and sending clears its stamp, and the third one passes the gate and follows after 1 ms, with no status between the two transmissions. |
| NanGate.SpacingExactly | pkg/l2/wifi/nan.go:350-357 | In every interleaving of finished calls in which no status comes between a call's storing and its sending, with calls that overlap, store and send in any order but send within d, less than 50 ms, of their first reading: all transmissions without a status between them happen at least 100 ms less d apart exactly when, of any two of them, the second call reached the gate after the first one had stored. |
| NanGate.SlowCallsHideOverlap | pkg/l2/wifi/nan.go:350-357 | From delays of 50 ms on that fails: two overlapping calls can be as far apart. |
| NanGate.HeldBackExactly | pkg/l2/wifi/nan.go:351-355 | In every interleaving a call is held back exactly when no status came since a stamp was last stored and that stamp is less than 100 ms old. |
| NanGate.OverlapBreaksSpacing | pkg/l2/wifi/nan.go:350-357 | A concrete interleaving of two overlapping calls that transmit 1 ns apart. |
| NanGate.InversionBreaksSpacing | pkg/l2/wifi/nan.go:350-355 | A concrete interleaving in which an older stamp is stored last: the gate opens 50 ms past the reading of a call whose transmission no status answered, for a call that overlaps none, which sends 40 ms after the newest transmission. |
| NanFrames.Nan.SendFrameRaw | pkg/l2/wifi/nan.go:297-367 | The address is filled in; the frame goes out exactly when the gate is open, which then stores the first clock reading; a failed send counts an error. Status events may come before the test, before storing and before sending. With a clock that does not go back, after every call all transmissions of the object without a status since the first one's stamp was stored are 100 ms apart, less the longest delay, and so are those without one between them as long as none came between storing and sending. |
| NanFrames.Nan.SendDiscovery | pkg/l2/wifi/nan.go:511-545 | The shared buffer is overwritten so that the frame sent is the discovery frame for the data, whatever was in the buffer. |
| NanFrames.Nan.SendFollowup | pkg/l2/wifi/nan.go:549-592 | The same for the follow-up frame. |
| NanFrames.Nan.SendBeacon | pkg/l2/wifi/nan.go:492-508 | The beacon goes out with time, master and source filled in, then a discovery frame, each if the gate lets it; once a non-sync beacon was sent the interval never returns to 512. |
| NanFrames.Nan.OnTxStatus | pkg/l2/wifi/nan.go:127-141 | A TX status clears the stamp and is logged. |
| NanFrames.DiscoveryParses | pkg/l2/wifi/nan.go:511-545 | From byte 30 every discovery frame parses to the four intended attributes, with the data intact, for any address. |
| NanFrames.FollowupParses | pkg/l2/wifi/nan.go:549-592 | From byte 30 every follow-up frame parses to one service descriptor around the data, for any address. |
| NanFrames.BeaconParses | pkg/l2/wifi/nan.go:378-427 | From byte 36 every beacon parses as one vendor element, whose content parses as master indication, cluster and service id list. |
| NanFrames.DiscoveryBytes | pkg/l2/wifi/nan.go:430-488 | A discovery frame byte by byte around the three fixed attributes. |
| NanFrames.FixedAttributeBytes | pkg/l2/wifi/nan.go:452-470 | The 49 bytes of the three fixed attributes. |
| NanFrames.FollowupBytes | pkg/l2/wifi/nan.go:549-592 | A follow-up byte by byte. |
| NanFrames.BeaconBytes | pkg/l2/wifi/nan.go:378-427 | A beacon byte by byte, its interval 0x0200, or 0x0080 once a non-sync one was sent. |
| NanEsp.Sender.NanSendNow | esp32/components/esp-nan-aware/nan.c:235-288 | The static buffer is overwritten so that the frame sent is the message frame for the first 255 bytes of the data. |
| NanEsp.Sender.NanSendPublish | esp32/components/esp-nan-aware/nan.c:148-201 | The frame sent is the publication with own address and cluster. |
| NanEsp.Receiver.Sniff | esp32/components/esp-nan-aware/nan.c:487-554 | A frame is walked exactly when it is a management frame, bytes 16 to 18 are 50 6F 9A, byte 0 is D0 and bytes 24 to 29 are 04 09 50 6F 9A 13; the packet counter moves exactly when all but the last of these hold, the other counters by what the walk saw; every other frame is left as it was. |
| NanEsp.KindExactly | esp32/components/esp-nan-aware/nan.c:506-551 | For each kind, exactly the frames it stands for in literal bytes; a sync beacon is one whose bytes 32 and 33 are 00 02. |
| NanEsp.Receiver.HandleDAF | esp32/components/esp-nan-aware/nan.c:365-483 | The walk, which writes into the received frame as it goes, sees what `Walk` defines and moves the counters by it; it stops at every access outside the buffer. |
| NanEsp.TurnAt | esp32/components/esp-nan-aware/nan.c:387-406 | Each turn that goes on advances by at least four bytes and stays inside the frame. |
| NanEsp.WalkOfEncoded | esp32/components/esp-nan-aware/nan.c:387-477 | Over a body of attributes whose descriptors state their inner length, the walk finds the attributes in order up to the first empty one, where it gives up; the zero it writes behind a follow-up falls on the next tag. |
| NanEsp.WalkFinds | esp32/components/esp-nan-aware/nan.c:387-477 | On frames whose body the Go parser takes apart into such attributes, the walk finds the same contents in the same order, with the texts of the follow-ups it meets, and reaches the end exactly when none is empty. |
| NanEsp.WalkAgreesWithParser | esp32/components/esp-nan-aware/nan.c:387-477 | On such frames the C walk sees the very attributes of the Go parser, and finishes, exactly when none is empty and no follow-up has a tag other than zero behind it. |
| NanEsp.TagBehindFollowupIsLost | esp32/components/esp-nan-aware/nan.c:459-459 | Two attributes, a follow-up and any other: the other is found with tag zero. |
| NanEsp.WalkStaysInside | esp32/components/esp-nan-aware/nan.c:387-477 | With 267 bytes behind the frame the walk, the read for a PING reply included, stays inside the receive buffer, for every content and length. |
| NanEsp.SmallerBufferIsLeft | esp32/components/esp-nan-aware/nan.c:387-459 | A frame of 35 bytes on which the walk leaves every smaller buffer. |
| NanEsp.ChecksumIsTaken | esp32/components/esp-nan-aware/nan.c:395-395 | An attribute that lacks up to four bytes, which the Go parser refuses, is taken by the walk with the start of the checksum. |
| NanEsp.MissingMoreStops | esp32/components/esp-nan-aware/nan.c:395-400 | One that lacks five bytes or more stops the walk. |
| NanEsp.NoChecksumStops | esp32/components/esp-nan-aware/nan.c:387-400 | A length below four wraps, and the walk stops at the first three bytes it finds. |
| NanEsp.EmptyAttributeStops | esp32/components/esp-nan-aware/nan.c:395-400 | A frame with one empty attribute, which the Go parser takes and the C walk gives up at. |
| NanEsp.MessageParses | esp32/components/esp-nan-aware/nan.c:235-271 | The Go parser takes an ESP32 message apart into one service descriptor around the cut data. |
| NanEsp.MessageBytes | esp32/components/esp-nan-aware/nan.c:235-271 | An ESP32 message byte by byte. |
| NanEsp.PublishAgreesWithDiscovery | esp32/components/esp-nan-aware/nan.c:148-176 | An ESP32 publication is broadcast with its own address and cluster, and carries byte for byte the attributes of a Go discovery frame for the data "123456780000Wxh7". |
| NanEsp.FollowupDelivered | esp32/components/esp-nan-aware/nan.c:487-554 | A Go follow-up of at most 255 bytes, with any checksum, passes the sniffer and is read as one message with exactly that payload. |
| NanEsp.DiscoveryDelivered | esp32/components/esp-nan-aware/nan.c:387-435 | A Go discovery frame of at most 255 bytes of data, with any checksum, passes the sniffer and is walked as its four attributes, one of them a publication. |
| NanEsp.DescriptorDelivered | esp32/components/esp-nan-aware/nan.c:408-459 | One descriptor byte by byte, of any service: control 0x11 counts as a subscription, 0x10 as a publication, and any other is a message with exactly its text. |
| NanEsp.MessageDelivered | esp32/components/esp-nan-aware/nan.c:235-288 | A message between two ESP32s is read as one message with the first 255 bytes. |
| NanEsp.BeaconKind | esp32/components/esp-nan-aware/nan.c:322-325 | The ESP32 takes a Go beacon for a sync beacon exactly until the first non-sync one was sent. |
| WifiDb.Wifi.OnNetStatus | pkg/lmnet/wifi.go:109-177 | Scan and visible devices are the winners; the database becomes the old one merged with the keys the winners report; every winner ends with the database's key, or none if there is none; entries stay the objects they were and new ones take the name of their device; the flag is set exactly if the database changed. |
| WifiDb.Wifi.MergeOne | pkg/lmnet/wifi.go:144-175 | One entry: a reported key is stored or changes the stored one, a missing one is filled in, in the objects themselves. |
| WifiDb.Wifi.Strongest | pkg/lmnet/wifi.go:110-117 | The scan keeps the winner of each SSID. |
| WifiDb.WinnerIsFirstStrongest | pkg/lmnet/wifi.go:112-117 | The winner is the first entry of maximal level, and there is one if the SSID occurs. |
| WifiDb.Run | pkg/lmnet/wifi.go:109-177 | A run of messages on an empty database ends in the database of the run of their reports, with the flag set exactly when some message changed it. |
| WifiDb.DbIsLastReport | pkg/lmnet/wifi.go:144-175 | Over every run an SSID is known exactly if some winner reported a key for it, and its key is the last one reported. |
| WifiDb.NothingVanishes | pkg/lmnet/wifi.go:144-175 | Over every run an entry, once there, stays and never has an empty key. |
| Ble.Server.BleSend | esp32/components/l2-ble-bt/ble_spp_server.c:182-236 | Data that fits goes out as it is; longer data as exactly its numbered pieces in order if these are at most 254; nothing goes out when not connected or without memory. Above 254 pieces nothing goes out if the count is a multiple of 256, and otherwise an access outside data or buffer follows the pieces stated. |
| Ble.PieceCountIsCeiling | esp32/components/l2-ble-bt/ble_spp_server.c:195-199 | The count is the size divided by the payload of a piece, rounded up. |
| Ble.PiecesFit | esp32/components/l2-ble-bt/ble_spp_server.c:207-229 | Every piece is "##", the count, its number and the bytes of the data from its place on, not empty and at most three bytes under the MTU in all. |
| Ble.Reassembles | esp32/components/l2-ble-bt/ble_spp_server.c:207-229 | Joining the pieces by number gives the data back, in whatever order and however often they arrive. |
| Ble.LastPieceFitsExactly | esp32/components/l2-ble-bt/ble_spp_server.c:207-229 | What is left from a piece on fits the buffer exactly when that piece is the last. |
| Bpf.FilterAccepts | pkg/l2/mon.go:89-103 | Interpreted instruction by instruction, the filter keeps 0x40000 bytes of a packet when the little-endian radiotap length plus 20 is within it and the four bytes 16 behind the header are 50 6F 9A 01, and none of any other. |
| Bpf.OrDisjoint | pkg/l2/mon.go:90-95 | Or-ing a shifted high byte and a low byte is adding them. |
| Station.StationInfo.ParseAttributes | pkg/l2/wifi/client_linux.go:592-648 | The loop leaves in the fields what `Parse` folds, or fails where that fails. |
| Station.ParseRateInfo | pkg/l2/wifi/client_linux.go:658-684 | The loop computes the folded bit rate in bits per second. |
| Station.ParseIsSaid | pkg/l2/wifi/client_linux.go:592-648 | With one attribute of a kind and agreeing pairs, each field is what the attributes say: the wide counter if present, else the narrow one, else zero. |
| Station.LastShows | pkg/l2/wifi/client_linux.go:592-634 | Whatever was in the fields and whatever stands before it, the last attribute of a kind decides its field: the signal lies in -128..127 and differs from its value by a multiple of 256, a wide counter, if not zero or with no narrow one behind it, in the signed 64-bit range by a multiple of 2^64; times in nanoseconds, rates times 100000, all others as they are. |
| Station.NarrowShown | pkg/l2/wifi/client_linux.go:635-644 | The last narrow counter decides its field if that is zero when its turn comes and no wide one is behind it. |
| Station.AbsentKeeps | pkg/l2/wifi/client_linux.go:592-648 | A field that no attribute speaks of keeps what it was. |
| Station.OrderDoesNotMatter | pkg/l2/wifi/client_linux.go:592-648 | Lists with the same attributes then parse alike. |
| Station.OrderMattersExactly | pkg/l2/wifi/client_linux.go:635-644 | With one attribute of a kind, every reordering parses alike exactly when no wide counter is zero beside a narrow one that is not. |
| Station.OrderMattersOtherwise | pkg/l2/wifi/client_linux.go:635-641 | Two attributes that give two results in their two orders. |
| Station.BrokenFails | pkg/l2/wifi/client_linux.go:616-620 | Parsing fails exactly when some bit rate cannot be taken apart. |
| Station.WideRateDecidesExactly | pkg/l2/wifi/client_linux.go:665-676 | The last wide rate is the result, whatever stands before it, exactly when it is not zero or no narrow rate behind it is other than zero. |
| Station.NarrowRateDecides | pkg/l2/wifi/client_linux.go:671-676 | With one attribute of a kind and no wide rate the narrow rate is the result. |
| Station.RateOrderMattersExactly | pkg/l2/wifi/client_linux.go:658-684 | With one attribute of a kind, every reordering gives the same rate exactly when no zero wide rate stands beside a narrow one that is not zero. |
| Station.RateOrderMattersOtherwise | pkg/l2/wifi/client_linux.go:665-676 | A zero wide rate and a narrow one that give two rates in their two orders. |
| Lora.Radio.ExplicitHeaderMode | esp32/components/l2lora/lora_drv.c:187-192 | The header bit and its copy are cleared; every other field of every register reads as before. |
| Lora.Radio.ImplicitHeaderMode | esp32/components/l2lora/lora_drv.c:199-205 | The header bit and its copy are set and the length register holds the size; every other field reads as before. |
| Lora.Radio.SetTxPower | esp32/components/l2lora/lora_drv.c:241-248 | The power register holds the clamped level; nothing else changes. |
| Lora.Radio.SetFrequency | esp32/components/l2lora/lora_drv.c:254-264 | The carrier registers together hold the step count; nothing else changes. |
| Lora.Radio.SetSpreadingFactor | esp32/components/l2lora/lora_drv.c:270-285 | Spreading factor and detection registers take the clamped factor; the CRC bit and all else stay. |
| Lora.Radio.SetBandwidth | esp32/components/l2lora/lora_drv.c:291-307 | The bandwidth field takes the code; coding rate, header bit and all else stay. |
| Lora.WidthCode | esp32/components/l2lora/lora_drv.c:295-305 | The code is that of the narrowest bandwidth that is at least the one asked for, the widest if none is. |
| Lora.Radio.SetCodingRate | esp32/components/l2lora/lora_drv.c:313-321 | The coding rate takes the clamped denominator; bandwidth, header bit and all else stay. |
| Lora.Radio.SetCrc | esp32/components/l2lora/lora_drv.c:347-375 | The CRC bit takes the setting; spreading factor and all else stay. |
| Lora.Radio.InvertIq | esp32/components/l2lora/lora_drv.c:355-366 | Both inversion registers take the values of the setting; nothing else changes. |
| Lora.Radio.DoAll | esp32/components/l2lora/lora_drv.c:187-375 | After any sequence of setters every field of the registers reads as its last setting, or as before if it had none, and the driver's copy of the header mode agrees. |
| Lora.LastSettingWins | esp32/components/l2lora/lora_drv.c:187-375 | A field holds what the last call that sets it asked for, whatever other fields were set since. |
| Lora.NeverSet | esp32/components/l2lora/lora_drv.c:187-375 | A field that no call sets keeps what it held. |
| Lora.RunsCompose | esp32/components/l2lora/lora_drv.c:187-375 | One sequence of calls after another is their concatenation. |
| Lora.FieldsAreEverything | esp32/components/l2lora/lora_drv.c:16-45 | The fields together are all the bits: registers that read alike are equal. |
| Lora.DetectionFollows | esp32/components/l2lora/lora_drv.c:276-282 | After any sequence that sets the spreading factor, and from any state that already agrees, the detection registers are those of factor 6 exactly when the factor is 6. |
| Lora.FrequencyWithinStep | esp32/components/l2lora/lora_drv.c:258-262 | The carrier registers hold the frequency to within one step of 61 Hz exactly when it is not negative and below 1024 MHz. |
| Lora.ModeWritten | esp32/components/l2lora/lora_drv.c:211-235 | Idle, sleep and receive write 0x81, 0x80 and 0x85 to register 0x01 and leave every other byte. |
| Lora.HeaderWritten | esp32/components/l2lora/lora_drv.c:187-205 | The header mode is bit 0 of register 0x1D, and the size goes to 0x22; every other bit stays. |
| Lora.SwitchesWritten | esp32/components/l2lora/lora_drv.c:347-375 | The CRC is bit 2 of register 0x1E; IQ inversion writes 0x66 and 0x19, or 0x27 and 0x1D, to 0x33 and 0x3B; every other bit stays. |
| Lora.PowerByte | esp32/components/l2lora/lora_drv.c:241-248 | The power, from 2 to 17, less two and with bit 7, is in register 0x09; every other byte stays. |
| Lora.SyncWordByte | esp32/components/l2lora/lora_drv.c:337-341 | The sync word is in register 0x39; every other byte stays. |
| Lora.PreambleBytes | esp32/components/l2lora/lora_drv.c:327-331 | The preamble length is in registers 0x20 and 0x21; every other byte stays. |
| Lora.CarrierBytes | esp32/components/l2lora/lora_drv.c:254-264 | From 0 to below 1024 MHz registers 0x06 to 0x08 hold the frequency times 2^19 over 32 MHz; every other byte stays. |
| Lora.FactorBytes | esp32/components/l2lora/lora_drv.c:270-285 | The factor, from 6 to 12, is the high half of register 0x1E, and 0x31 and 0x37 hold C5 and 0C for 6, C3 and 0A for others; every other bit stays. |
| Lora.BandwidthBytes | esp32/components/l2lora/lora_drv.c:291-307 | The code is the high half of register 0x1D; every other bit stays. |
| Lora.CodeOf | esp32/components/l2lora/lora_drv.c:295-305 | The code of every bandwidth, bound by bound. |
| Lora.CodingBytes | esp32/components/l2lora/lora_drv.c:313-321 | The denominator, from 5 to 8, less four, is bits 1 to 3 of register 0x1D; every other bit stays. |
| Lora.Radio.ReceiveBeacon | esp32/components/l2lora/lora_drv.c:600-609 | Listening for a beacon is the six settings, on the channel of the current band. |
| Lora.Radio.ReceiveUpstream | esp32/components/l2lora/lora_drv.c:611-625 | Listening for data is the six settings, on the first channel with the stored factor and rate. |
| Lora.Radio.Received | esp32/components/l2lora/lora.c:61-149 | After a packet the radio listens again in its mode, on the next band after a beacon. |
| Lora.Radio.ReadTask | esp32/components/l2lora/lora.c:79-82 | Over any number of packets the band stays below 8 and goes round in turn, and after each the registers are those of its channel, with bandwidth and CRC untouched. |
| Lora.BeaconReady | esp32/components/l2lora/lora_drv.c:600-609 | After the beacon settings the radio is on 923.3 MHz plus 600 kHz a band, within a step, IQ not inverted, with implicit headers of the beacon's size, factor 12 and rate 4/5. |
| Lora.DataReady | esp32/components/l2lora/lora_drv.c:611-625 | After the data settings it is on 923.3 MHz, IQ inverted, with explicit headers and the clamped factor and rate. |

## Left out

- WifiDb.Run: the devices of different messages are different objects, as they are when each message is decoded anew; a device object kept from one message to the next is not modelled.
- WifiDb.Wifi.OnNetStatus: the SSID and AP fields of the connection, scan time and callbacks are not modelled; the database starts empty, so that entries with an empty key, which a stored file could hold, are not covered.
- Ble.Server.BleSend: MTUs up to 7, which the attribute protocol does not allow and which divide by zero or turn negative; what happens behind an access outside data or buffer.
- Ble.Reassembles: the receiver is the definition of joining by number; the repository has none in this file.
- NanFrames.Nan.SendFrameRaw: more than one status event in the same gap of a call, which changes nothing further; a hand-over that fails stands in the log like one that succeeds; the netlink encoding of the request, its timing statistics and sequence number; a frame shorter than 16 bytes, which the callers never pass.
- NanFrames.Nan.Valid: one object is modelled; the beacon and output buffers are package variables that all objects of a process share.
- NanFrames.Nan.SendDiscovery: data that does not fit the 4096-byte buffer, on which slicing panics; the same for SendFollowup.
- NanFrames.Nan.SendBeacon: the mutex it holds, and the data race of the shared buffer with calls that do not hold it; frames are modelled for calls that do not overlap.
- NanEsp.Receiver.HandleDAF: the PING reply, the publication sent back, peer bookkeeping and the cluster taken over from the sender; apart from the copy for a PING reply, they do not change the frame being walked. An access outside the receive buffer ends the modelled walk.
- NanEsp.FollowupDelivered: for a payload that starts with "PING" the code first copies a reply, four bytes and as many as the payload has, into a 64-byte buffer that is declared constant; the bytes read for it are modelled, but not whether the walk survives the write, which exceeds that buffer above 60 bytes of payload.
- NanEsp.MessageDelivered: the same for data that starts with "PING".
- NanEsp.Receiver.Sniff: what is done with a beacon beyond telling its kind; receive buffers are at least 34 bytes.
- Station.StationInfo.ParseAttributes: attribute data is taken as the decoded number; wrong lengths, on which decoding panics, are not modelled.
- Lora.Radio.ReadTask: packets sent in between, which switch to explicit headers until the next receive call, and the FIFO and interrupt registers; the beacon's clock setting.
- Bpf.FilterAccepts: classic BPF instructions that the program does not use.
- Hexadecimal decoding of discovery messages: its result and length are parameters of `DnsDisc.ParseDisc`, and `packTxt` only adds hexadecimal encoding to `PackTxtBytes`.
- DHCP packet encoding and reply options, and the listener around the handler.
- The device key and the packet-ring sizes of the monitor interface (`Uint64`, `afpacketComputeSize`): single expressions.
- The command and response matching of wpa_supplicant, the per-peer queue of the ESP32 and its beacon timer: the code does not settle what they should keep.
- Sockets, netlink, SPI and Bluetooth stacks, consoles, displays, generated constants: foreign calls or tables.

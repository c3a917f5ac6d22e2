# tcpdump: checksums, addresses, name tables and packet walks

This project models the parts of tcpdump that compute something about a packet rather than print it, and
proves what they are for. Each module follows one source file or one routine of it.

- **`InternetChecksum`** is `in_cksum.c`: the one's-complement sum over a vector of chunks, with its
  byte-swapped path for odd addresses, its pending octet between chunks and its delayed folding. It is proved
  equal to the sum of section 1 of RFC 1071 over the concatenated packet, for every split, every alignment and
  both host byte orders, within the range of its signed accumulator. The repair of a checksum field is proved on top.
- **`Crc10`**, **`FletcherChecksum`** and **`FrameCheck802154`** are the other checks: the table-driven CRC-10 of
  ITU-T I.610, the OSI checksum of ISO 8473-1, and the CRC-16 and CRC-32 of IEEE 802.15.4 with the detection of a
  frame check sequence. Each is compared with its bit-serial or modular definition; CRC-10 with polynomial
  division.
- **`AddressText`** defines the text of addresses and a reader for it; **`AddressPrinter`** is `addrtostr.c` and
  `intoa`, which write that text into buffers, and the round trip through the reader.
- **`HashChains`**, **`NameTables`** and **`KeyTables`** are the tables of `addrtoname.c`: linked records in
  buckets, a block allocator that several tables share, and the lookups. They are proved to be finite maps over
  every run.
- **`TlvWalk`** and **`BabelPrefixes`** are the TLV loop and prefix decoder of `print-babel.c`. **`BabelMessages`** lays
  out the TLVs by the fields of RFC 6126 and its extensions, and **`BabelSender`** is a sender of them. The packets that
  the loop accepts are characterised, and it is proved to agree with that sender over whole packets.
- **`Elements80211`** is the element parser of `print-802_11.c`, proved to be the inverse of serialization.
  **`ElementLayout80211`** says what each element puts into the frame's record, octet by octet.
- **`Cpack`** and **`Radiotap`** are the aligned cursor of `cpack.c` and the walk over the presence words,
  namespaces and fields of a radiotap header. **`RadiotapLayout`** compares where the walk reads fields with where
  the comments on them put them.
- **`PacketStack`** is the stack of packet limits of `netdissect.c`.
- **`Octets`**, **`Registers`**, **`LittleWords`**, **`Sequences`** and **`Options`** hold what the others share: machine
  words and byte orders, operations on registers, the bits of little-endian words, facts about sequences, and optional
  values.

Code that changes things in place is modelled by methods and classes, proved against functions on sequences.
Pointers into a packet are offsets; octets are integers below 256 except in the CRC modules and in the bit tricks
of `Radiotap`, which use bit-vectors. The host's byte order, whether an allocation succeeds, and the answers of
name resolvers and databases are parameters.

Where the code departs from what it is meant to do, the model follows the code and says exactly when the
departure shows:

- The corrections of the OSI checksum (`checksum.c:142-150`) turn a negative raw value that is 1 modulo 255 into
  255 instead of 1; the stored checksum verifies if and only if neither raw value is of that kind and the sums
  have not wrapped by an amount that matters (`StoredChecksumVerifies`, `MiscorrectionExample`).
- A frame followed by its CRC-16 loses exactly these two octets if and only if it has at least two octets and
  the whole does not happen to pass the CRC-32 test made first (`SentWithCrc16`); frames of zeros do pass it
  (`ZeroFrameLosesFour`).
- `nd_change_snaplen` reads its bound one record below the one its comment describes (`netdissect.c:228-280`). It
  can move the limit past the one atop which it was pushed if and only if the limit it reads is past that one
  (`ChangeStaysBelowIff`, `ChangePassesExample`), and with one record it can never raise it (`ChangeRaisesIff`,
  `ChangeCannotRaiseExample`). The limit never passes the outermost one (`LimitNeverPasses`).
- The vendor namespace item of a radiotap header is not aligned before its OUI is read, since
  `nd_cpack_align_and_reserve` does not move the cursor; the OUI is read at the right place if and only if the
  cursor is even, and the skip length always is (`VendorItemPlace`, `VendorItemExample`).
- An Update with an address encoding other than IPv4 and IPv6 and the prefix flag becomes the IPv6 default
  (`print-babel.c:561-566`); `OtherEncodings` says when that changes it, and `OtherEncodingExample` is a case.
- The comments on radiotap fields give FHSS and TX attenuation in dB as 16-bit values (`print-802_11.c:2428`,
  `print-802_11.c:2473`); the code reads two octets and one octet. `WordAgreesIff` says for which presence words
  every field is still read where the comments put it; `AttenuationExample` and `FhssExample` are cases in which not.

## Model

| member | source | states |
|---|---|---|
| InternetChecksum.Reduce | tcpdump/in_cksum.c:53-54 | adding the two halves of the accumulator and the carry gives the canonical one's-complement residue of any 32-bit value |
| InternetChecksum.Times256Swaps | tcpdump/in_cksum.c:95-102 | shifting the sum by eight bits is, in one's-complement arithmetic, summing with even and odd octets exchanged |
| InternetChecksum.OnesSumIsWeighted | tcpdump/in_cksum.c:56-148 | the RFC 1071 sum with end-around carries is the residue of the weighted octet sum |
| InternetChecksum.FoldedIsOnesSum | tcpdump/in_cksum.c:146-147 | a host-order sum, folded and complemented, is in memory the complement of the RFC sum, on either byte order |
| InternetChecksum.SumUnrolled | tcpdump/in_cksum.c:107-119 | the unrolled loops add exactly the words they pass over, without folding, and leave fewer than eight octets, or the exact sum of the words up to some point does not fit the accumulator |
| InternetChecksum.BeginChunk | tcpdump/in_cksum.c:76-102 | an octet that completes a word split over two chunks, and a shift for an odd address, keep what the accumulator stands for |
| InternetChecksum.SumWords | tcpdump/in_cksum.c:107-125 | the words of a chunk are added, whether or not the early exit is taken |
| InternetChecksum.EndSwapped | tcpdump/in_cksum.c:126-135 | shifting back, with the saved octet used or kept, restores what the accumulator stands for |
| InternetChecksum.EndEven | tcpdump/in_cksum.c:136-137 | an octet left over is saved and counted as pending |
| InternetChecksum.AddChunk | tcpdump/in_cksum.c:73-138 | one chunk of any length and address parity extends what the accumulator and the pending octet stand for by its octets |
| InternetChecksum.FinishSum | tcpdump/in_cksum.c:139-147 | padding, folding and complementing give the checksum of all octets seen |
| InternetChecksum.InCksum | tcpdump/in_cksum.c:56-148 | for every vector of chunks and either byte order the result is the RFC 1071 checksum of the concatenation, unless the signed 32-bit accumulator overflows, which no packet within its capacity makes it do; every value assigned to it is within its range |
| InternetChecksum.CapacityLimits | tcpdump/in_cksum.c:60-125 | the packets within that capacity are exactly those of up to 65,024 octets, and of up to 65,536 if the swapped path is never taken |
| InternetChecksum.CapacityIsSharp | tcpdump/in_cksum.c:107-119 | one aligned chunk of 65,544 octets, all ones, makes the unrolled loops leave the accumulator's range |
| InternetChecksum.SwappedCapacityIsSharp | tcpdump/in_cksum.c:95-119 | so does one of 65,033 octets at an odd address after two such octets |
| InternetChecksum.InCksumShouldbe | tcpdump/in_cksum.c:156-200 | the repaired field is the one's-complement sum of the field and the computed checksum |
| InternetChecksum.RepairMakesChecksumZero | tcpdump/in_cksum.c:156-200 | overwriting the field at an even offset with it makes the checksum zero, for every packet; a packet whose checksum was zero keeps its field |
| FletcherChecksum.CorrectX | tcpdump/checksum.c:139-149 | C's remainder and the correction steps for x give the stored octet of the raw value |
| FletcherChecksum.CorrectY | tcpdump/checksum.c:140-152 | the same for y |
| FletcherChecksum.Stored | tcpdump/checksum.c:142-150 | the stored octet is never zero, and is congruent to the raw value unless that is negative and 1 modulo 255 |
| FletcherChecksum.Accumulate | tcpdump/checksum.c:117-132 | the two running sums over the PDU with its checksum field taken as zero, the second modulo 2^32 |
| FletcherChecksum.CreateOsiCksum | tcpdump/checksum.c:105-156 | the two octets returned are the stored octets of the two raw values |
| FletcherChecksum.SumsLeft | tcpdump/checksum.c:134-150 | what both Fletcher sums of the stored PDU are modulo 255, in every case |
| FletcherChecksum.StoredChecksumVerifies | tcpdump/checksum.c:105-156 | storing the checksum makes both Fletcher sums zero modulo 255 if and only if no raw value is miscorrected and the wrap-around is a multiple of 255 |
| FletcherChecksum.ShortPduDoesNotWrap | tcpdump/checksum.c:117-132 | nothing wraps for PDUs of up to 5803 octets |
| FletcherChecksum.FieldIsIgnored | tcpdump/checksum.c:120-132 | the checksum does not depend on what the field holds |
| FletcherChecksum.MiscorrectionExample | tcpdump/checksum.c:142-150 | a PDU whose stored checksum does not verify |
| Crc10.Table | tcpdump/checksum.c:52-86 | every table entry is eight bit-serial steps on the entry's index |
| Crc10.AdvanceIsSerial | tcpdump/checksum.c:93-97 | one pass of the loop is eight steps of bit-serial division |
| Crc10.VerifyCrc10 | tcpdump/checksum.c:88-99 | the function is the bit-serial remainder of all the octets, from any starting value |
| Crc10.SerialConcat | tcpdump/checksum.c:88-99 | the remainder splits over concatenation |
| Crc10.SerialLinear | tcpdump/checksum.c:88-99 | the remainder is XOR-linear in register and message |
| Crc10.UniqueTrailer | tcpdump/checksum.c:88-99 | for any leading bits exactly one ten-bit trailer gives zero, and it is named |
| Crc10.DivisionTheorem | tcpdump/checksum.c:88-99 | the message polynomial is a multiple of the generator 0x633 plus the remainder |
| Crc10.RegisterPolyDegree | tcpdump/checksum.c:88-99 | the remainder polynomial has degree below ten |
| Crc10.MultipleIsLong | tcpdump/checksum.c:37-44 | a multiple of the generator is zero or has degree ten or more |
| Crc10.RemainderIsUnique | tcpdump/checksum.c:88-99 | whatever multiple of the generator is taken off the message, a rest of degree below ten is the remainder computed |
| Crc10.SerialWithin | tcpdump/checksum.c:88-99 | the register stays within ten bits |
| Crc10.GeneratorBits | tcpdump/checksum.c:37-44 | the constant 0x633 is the generator x^10 + x^9 + x^5 + x^4 + x + 1 |
| FrameCheck802154.Shifted16IsSerial | tcpdump/print-802_15_4.c:438-447 | the shift-and-XOR step with bit reversal is eight reflected bit-serial steps |
| FrameCheck802154.Crc16 | tcpdump/print-802_15_4.c:425-456 | the CRC-16 of every octet string is the reflected bit-serial CRC with polynomial 0x8408 |
| FrameCheck802154.Reverse32Involution | tcpdump/print-802_15_4.c:461-470 | reversing the bits of a word twice changes nothing |
| FrameCheck802154.Next32IsSerial | tcpdump/print-802_15_4.c:492-498 | one pass of the inner loop is one reflected step of register and octet together |
| FrameCheck802154.Crc32Octet | tcpdump/print-802_15_4.c:487-498 | one pass of the outer loop is the reflected CRC of one octet |
| FrameCheck802154.Crc32 | tcpdump/print-802_15_4.c:477-504 | the CRC-32 of every octet string is the reflected bit-serial CRC with initial value 0 and no final XOR |
| FrameCheck802154.PolynomialTerms | tcpdump/print-802_15_4.c:420-496 | the two polynomials, term by term |
| FrameCheck802154.Trailer16 | tcpdump/print-802_15_4.c:425-456 | appending two octets gives CRC-16 zero if and only if they are the CRC, least significant first |
| FrameCheck802154.Trailer32 | tcpdump/print-802_15_4.c:477-504 | the same for four octets and CRC-32 |
| FrameCheck802154.FrameLength | tcpdump/print-802_15_4.c:1803-1828 | what is cut off the end is the CRC-32 or the CRC-16 of what stays; a frame of four octets or more keeps all of them if and only if it ends in neither, and loses four if it ends in its CRC-32; a shorter one keeps all |
| FrameCheck802154.EndsInCrc32Iff | tcpdump/print-802_15_4.c:1803-1828 | a frame ends in the CRC-32 of the rest, least significant octet first, if and only if its own CRC-32 is zero |
| FrameCheck802154.SentWithCrc32 | tcpdump/print-802_15_4.c:1803-1828 | every frame followed by its CRC-32 loses exactly these four octets |
| FrameCheck802154.SentWithCrc16 | tcpdump/print-802_15_4.c:1803-1828 | a frame followed by its CRC-16 loses exactly these two octets if and only if it is long enough and does not pass the CRC-32 test |
| FrameCheck802154.ZeroFrameLosesFour | tcpdump/print-802_15_4.c:1803-1828 | every frame of two or more zero octets, sent with its CRC-16, loses two octets too many |
| AddressPrinter.FindRun | tcpdump/addrtostr.c:126-144 | the run found is the leftmost of the longest runs of at least two zero words, or there is none |
| AddressPrinter.BestRunIsUnique | tcpdump/addrtostr.c:126-144 | section 4.2 of RFC 5952 settles the run |
| AddressPrinter.PutOctet | tcpdump/addrtostr.c:74-87 | the digits of one octet without leading zeros |
| AddressPrinter.AddrToStr | tcpdump/addrtostr.c:61-93 | writes the dotted-decimal text and a NUL and nothing else, and refuses exactly the buffers under 16 characters |
| AddressPrinter.PutOctetBackwards | tcpdump/addrtoname.c:238-246 | the digits of one octet from right to left |
| AddressPrinter.Intoa | tcpdump/addrtoname.c:224-252 | the text that ends at the end of the buffer is the dotted-decimal text of the address in network order |
| AddressPrinter.IntoaAgrees | tcpdump/addrtoname.c:224-252 | both IPv4 printers give the same text for every address in memory, on either byte order, and a reader gives the address back |
| AddressPrinter.PutPiece | tcpdump/addrtostr.c:159-196 | one word of the loop appends its piece or reports that the room is used up |
| AddressPrinter.PutEmbedded | tcpdump/addrtostr.c:170-186 | an embedded IPv4 address is appended exactly when 17 characters are left |
| AddressPrinter.Terminate | tcpdump/addrtostr.c:198-202 | the colon of a trailing run and the NUL |
| AddressPrinter.PutPieces | tcpdump/addrtostr.c:159-196 | the loop appends the pieces in order and fails only when they do not fit |
| AddressPrinter.Format | tcpdump/addrtostr.c:146-204 | for a given run, the buffer holds the compressed text and a NUL, or it was too small in the stated sense |
| AddressPrinter.Strlen | tcpdump/addrtostr.c:182 | the length of the string just written, found in the buffer |
| AddressPrinter.AddrToStr6 | tcpdump/addrtostr.c:98-205 | for every address and buffer the text is the one of section 4.2 of RFC 5952, and it is refused exactly when the text and its NUL, with room for any embedded IPv4 address, do not fit; an IPv4-mapped address is written as ::ffff: and its dotted form, an IPv4-compatible one as :: and its dotted form |
| AddressText.DottedExactly | tcpdump/addrtostr.c:173-186 | on the sixteen octets: ten zeros and two octets of ones give ::ffff: and the dotted last four; twelve zeros and not two more give :: and the dotted last four; no other text has a dot |
| AddressText.GapIsRun | tcpdump/addrtostr.c:159-202 | the :: of a text stands for the run and nothing else: what is left of it reads as the words before the run, what is right of it as the words after, and without a run there is none |
| AddressText.NoLeadingZero | tcpdump/addrtostr.c:188-195 | a group or an octet starts with the digit 0 only if it is zero |
| AddressPrinter.LongestDotted | tcpdump/addrtostr.c:61-93 | the size the printer asks for is the least that always suffices, and is used up exactly by four octets of three digits |
| AddressPrinter.AlwaysFits | tcpdump/addrtostr.c:98-205 | a buffer of 40 characters is never refused, so the usual one of 46 is not |
| AddressPrinter.LongestFits | tcpdump/addrtostr.c:98-205 | an address of eight groups of four digits is refused any smaller one |
| AddressText.ReadText6 | tcpdump/addrtostr.c:146-204 | a reader of section 2.2 of RFC 4291 undoes the text, whatever run of zeros was compressed |
| AddressText.ReadDottedOfDotted | tcpdump/addrtostr.c:61-93 | a dotted-decimal reader gives the four octets back |
| AddressPrinter.AddressReadsBack | tcpdump/addrtostr.c:98-205 | reading the text of every 16-octet address gives that address |
| AddressPrinter.TextIsInjective | tcpdump/addrtostr.c:98-205 | no two addresses have the same text |
| HashChains.PlaceInChain | tcpdump/addrtoname.c:124-128 | a record is in one chain only, at one place, and only the last has no successor |
| NameTables.AnswerSnoc | tcpdump/addrtoname.c:287-292 | a record added at the end of a chain answers only for an address that had no record |
| NameTables.ApplyAnswers | tcpdump/addrtoname.c:278-331 | one operation names its own address unless that has a name, and changes no other answer of any table |
| NameTables.RunIsMap | tcpdump/addrtoname.c:278-331 | over every run of lookups and additions the bucketed tables are a map that keeps the first name given for each key |
| NameTables.PerformAll | tcpdump/addrtoname.c:278-331 | the same of every run of the tables themselves: they hold what the run prescribes, and every answer given on the way is still the answer |
| NameTables.EndTestsAgree | tcpdump/addrtoname.c:839-840 | the tests for the end of a chain by the name and by the link find the same record |
| NameTables.ChainsAreDisjoint | tcpdump/addrtoname.c:1293-1311 | the chains of all tables sharing the allocator are disjoint and acyclic and hold none of its unused records |
| NameTables.Tables.constructor | tcpdump/addrtoname.c:130-135 | zeroed bucket arrays are empty tables |
| NameTables.Tables.NewHnamemem | tcpdump/addrtoname.c:1293-1311 | returns a zeroed record that is in no chain and that no call returned before, in any run, from the current block or a new one |
| NameTables.Tables.Extend | tcpdump/addrtoname.c:291-292 | filling the last record and linking a new one adds one entry to one chain, and keeps every other record in place |
| NameTables.Tables.FindName | tcpdump/addrtoname.c:278-331 | find-or-insert by the links: returns the name the tables have for the address from then on |
| NameTables.Tables.AddName | tcpdump/addrtoname.c:821-854 | appends by the names, also when the address is there already |
| KeyTables.MacHalves | tcpdump/addrtoname.c:438-464 | the half-words of a MAC address's key are the address, as one big-endian number |
| KeyTables.ByteStringHalves | tcpdump/addrtoname.c:471-517 | those of a byte string's key are its first six octets, or the first four if there are not six, or zero if there are not four |
| KeyTables.NsapHalves | tcpdump/addrtoname.c:521-561 | those of an NSAP's key are its last six octets, or zero if there are not more than six; the octets compared begin with their number |
| KeyTables.ProtoidFields | tcpdump/addrtoname.c:565-589 | the fields of a protocol identifier's key are its OUI and its protocol as big-endian numbers |
| KeyTables.MacKeyIsUnique | tcpdump/addrtoname.c:438-464 | the three half-words compared determine the six octets |
| KeyTables.ByteStringKeyIsUnique | tcpdump/addrtoname.c:471-517 | the length, half-words and octets compared determine the byte string |
| KeyTables.NsapKeyIsUnique | tcpdump/addrtoname.c:521-561 | the length octet, half-words and octets compared determine the NSAP |
| KeyTables.ProtoidKeyIsUnique | tcpdump/addrtoname.c:565-589 | the OUI and protocol compared determine the five octets |
| KeyTables.Table.Search | tcpdump/addrtoname.c:449-455 | the walk along a bucket finds the key's record if and only if the table has the key, and the record that ends the chain otherwise |
| KeyTables.Table.Add | tcpdump/addrtoname.c:456-459 | a new key gets the record that ended its chain; all other keys keep theirs |
| KeyTables.Table.Lookup | tcpdump/addrtoname.c:438-464 | the table is a map from whole keys to records: finds the key's record or adds a new one without a name, and changes no name |
| KeyTables.Table.StringOf | tcpdump/addrtoname.c:591-641 | the name of a key is fixed by its first call, and other names do not change |
| KeyTables.Table.ViewIsInjective | tcpdump/addrtoname.c:438-589 | no two keys share a record, though only part of a key is hashed |
| KeyTables.SameRecordIffSameKey | tcpdump/addrtoname.c:438-589 | over every run of lookups from a map without shared records two calls return the same record if and only if their whole keys agree |
| KeyTables.EmptyTable | tcpdump/addrtoname.c:188-219 | zeroed bucket arrays are a table without keys |
| KeyTables.Lookups | tcpdump/addrtoname.c:438-589 | the same of every run of the table itself, from any state, and the record returned is the key's from then on |
| KeyTables.MacLookups | tcpdump/addrtoname.c:438-464 | from the empty table, two calls return the same record if and only if the six octets agree |
| BabelPrefixes.NetworkPrefix | tcpdump/print-babel.c:201-264 | the buffer filled and the octets consumed are what the encoding decodes to; on error the caller's buffer is untouched |
| BabelPrefixes.FillV4 | tcpdump/print-babel.c:224-236 | an IPv4 prefix from its default, the octets sent and zeros |
| BabelPrefixes.FillV6 | tcpdump/print-babel.c:237-248 | the same for IPv6 |
| BabelPrefixes.FillLinkLocal | tcpdump/print-babel.c:249-257 | the same for link-local prefixes |
| BabelPrefixes.UpdateCase | tcpdump/print-babel.c:526-571 | an Update is decoded against the default of its encoding, and becomes that default if the prefix flag is set |
| TlvWalk.FramingIsWire | tcpdump/print-babel.c:389-408 | the checks on a header find a TLV if and only if its octets are there, captured and within the body and the packet |
| TlvWalk.MoreIsCaptured | tcpdump/print-babel.c:389-408 | a TLV found wrong stays wrong, and one found stays found, however much more had been captured |
| TlvWalk.CutOffIsNotWrong | tcpdump/print-babel.c:389-408 | a TLV reported as cut off by the capture could have been a good one |
| TlvWalk.WalkOfWire | tcpdump/print-babel.c:388-817 | where the octets of TLVs accepted in turn are, the walk gets to their end with the state they make |
| TlvWalk.WireOfWalk | tcpdump/print-babel.c:388-817 | a walk that gets to the end has passed over the octets of TLVs accepted in turn |
| TlvWalk.WireIsUnique | tcpdump/print-babel.c:388-408 | octets split into TLVs in one way only |
| TlvWalk.AcceptedIff | tcpdump/print-babel.c:378-817 | a body is accepted if and only if it was captured, is within the packet and splits completely into TLVs that are well-formed in turn; the split is unique |
| BabelPrefixes.BabelTlvs | tcpdump/print-babel.c:378-817 | the loop is the walk over the TLVs from the defaults of a new packet; what the walk takes for well-formed is said of every kind of TLV by the rows of BabelSender |
| BabelPrefixes.DecodedV4IsMapped | tcpdump/print-babel.c:224-236 | an IPv4 prefix decoded against an IPv4-mapped default is IPv4-mapped, so the default always is |
| BabelSender.DecodesIff | tcpdump/print-babel.c:201-264 | a prefix is decoded if and only if its encoding and lengths are right and as many octets are there as its length in bits demands without those omitted; it takes just those |
| BabelSender.WholeAddress | tcpdump/print-babel.c:266-271 | the sixteen octets that a whole address of each encoding stands for |
| BabelSender.UpdateAcceptedIff | tcpdump/print-babel.c:544-555 | an Update is well-formed if and only if it has its ten octets and those of its prefix |
| BabelSender.FirstUpdate | tcpdump/print-babel.c:384-386 | from the defaults of a new packet, the octets an Update omits are zero, after the IPv4-mapped ones if it is for IPv4 |
| BabelSender.MessageAcceptedIff | tcpdump/print-babel.c:410-811 | for every other TLV, all values of its fields, all octets after them and all defaults: it is accepted if and only if all that is needed of its fields is there, so every proper prefix of its fixed part is refused; it changes no default |
| BabelSender.AcceptedIsMessage | tcpdump/print-babel.c:410-811 | every accepted TLV but an Update has the fields of one of the messages, with more octets after them at most |
| BabelSender.HelloExample | tcpdump/print-babel.c:446-468 | the walk over the eight octets of one Hello gets to the end |
| BabelSender.DecodeWhatIsSent | tcpdump/print-babel.c:201-264 | decoding what a sender puts in for a prefix gives the prefix and takes exactly the octets sent |
| BabelSender.UnitIsAccepted | tcpdump/print-babel.c:410-817 | the receiver makes of one TLV what the sender expects |
| BabelSender.Agreement | tcpdump/print-babel.c:378-817 | whatever a sender may send, from any defaults and whatever octets follow, the receiver gets to the end, sees every prefix as meant, and ends with the sender's defaults |
| BabelSender.PacketAgreement | tcpdump/print-babel.c:820-856 | the same for a whole packet body, with or without a trailer |
| BabelPrefixes.OtherEncodings | tcpdump/print-babel.c:561-566 | an Update of another encoding leaves the defaults alone if and only if its prefix flag is clear or the IPv6 default is the wildcard or link-local prefix that its octets write |
| BabelPrefixes.OtherEncodingExample | tcpdump/print-babel.c:561-566 | a wildcard Update that replaces the IPv6 default by zeros |
| Elements80211.FirstIsFirst | tcpdump/print-802_11.c:1184-1381 | the element kept for a tag is the first of it worth keeping |
| Elements80211.ElementAtIsWire | tcpdump/print-802_11.c:1172-1181 | an element is read at an offset if and only if its octets are there, captured and within the frame |
| Elements80211.ParseOfSerialized | tcpdump/print-802_11.c:1146-1397 | the parse of a serialized list of elements finds that list |
| Elements80211.ParseSerializes | tcpdump/print-802_11.c:1146-1397 | what a successful parse finds serializes to exactly the octets of the frame |
| Elements80211.ParseSucceedsIff | tcpdump/print-802_11.c:1146-1397 | the parse succeeds if and only if the octets were captured and are a list of elements none of which is oversized, and that list is unique |
| Elements80211.KeptSnoc | tcpdump/print-802_11.c:1184-1381 | filling a slot only when it is empty keeps the first element worth keeping of every tag |
| Elements80211.MgmtBody.CopyCase | tcpdump/print-802_11.c:1184-1265 | SSID, challenge, rates and mesh ID: refused if too long for the record, else stepped over and kept if the first |
| Elements80211.MgmtBody.DsCase | tcpdump/print-802_11.c:1266-1289 | DS parameters: kept if the first of length 1, stepped over in any case |
| Elements80211.MgmtBody.CfCase | tcpdump/print-802_11.c:1290-1322 | CF parameters: kept if the first of length 6, stepped over in any case |
| Elements80211.MgmtBody.TimCase | tcpdump/print-802_11.c:1323-1357 | TIM: kept if the first longer than 3, refused if its bitmap is over 251 octets |
| Elements80211.MgmtBody.OneElement | tcpdump/print-802_11.c:1171-1391 | one pass of the loop keeps offset plus length and takes one element off the parse, or is at its first fault |
| Elements80211.ParseElements | tcpdump/print-802_11.c:1146-1397 | the result and every slot are those of the parse of the frame; what that is, octet by octet, is in the rows of ElementLayout80211 |
| ElementLayout80211.ParseReaches | tcpdump/print-802_11.c:1146-1397 | the elements a frame begins with are found whatever follows them, and the rest is parsed as if it began there |
| ElementLayout80211.SsidSlot | tcpdump/print-802_11.c:1184-1207 | tag 0 after elements of other tags, whatever follows: up to 32 octets are the SSID kept, more are refused |
| ElementLayout80211.RatesSlot | tcpdump/print-802_11.c:1234-1265 | tag 1: 1 to 16 octets are the rates kept, none are passed over, more are refused |
| ElementLayout80211.DsSlot | tcpdump/print-802_11.c:1266-1289 | tag 3: one octet is the channel kept, any other length is passed over |
| ElementLayout80211.CfSlot | tcpdump/print-802_11.c:1290-1322 | tag 4: six octets are kept as two octets and two little-endian words, any other length is passed over |
| ElementLayout80211.TimSlot | tcpdump/print-802_11.c:1323-1357 | tag 5: three octets and a bitmap of 1 to 251 octets are kept, a longer bitmap is refused, a missing one passed over |
| ElementLayout80211.ChallengeSlot | tcpdump/print-802_11.c:1208-1233 | tag 16: up to 253 octets are the challenge kept, more are refused |
| ElementLayout80211.MeshIdSlot | tcpdump/print-802_11.c:1358-1381 | tag 114: up to 32 octets are the mesh ID kept, more are refused |
| ElementLayout80211.OtherTag | tcpdump/print-802_11.c:1382-1390 | any other tag is passed over and leaves all slots alone |
| Cpack.NextBoundaryIsNext | tcpdump/cpack.c:43-52 | the boundary is the least multiple of the alignment not below the cursor |
| Cpack.OctetOfNumber | tcpdump/cpack.c:96-205 | octet i of what is read is octet i of the number, counted from the least significant, and the number has no more |
| Cpack.CpackState.constructor | tcpdump/cpack.c:84-94 | a new cursor is at the start of the buffer |
| Cpack.CpackState.AlignAndReserve | tcpdump/cpack.c:58-71 | gives the least aligned offset from the cursor on if it has room for the word, and nothing when no aligned offset has; moves nothing |
| Cpack.CpackState.Advance | tcpdump/cpack.c:74-82 | moves by the octets to skip exactly when they are there |
| Cpack.CpackState.Unpack | tcpdump/cpack.c:96-205 | reads a little-endian number at its own alignment, or fails without moving |
| Radiotap.BitNoOfMask | tcpdump/print-802_11.c:3226-3230 | the macros give the number of a single bit |
| Radiotap.SetBitsAscend | tcpdump/print-802_11.c:3236-3262 | the bits visited are the set bits of the word, each once, in ascending order |
| Radiotap.NextBit | tcpdump/print-802_11.c:3240-3247 | clearing the least significant set bit takes the first of them off, and the macro names it |
| Radiotap.FittingConcat | tcpdump/print-802_11.c:2757-3218 | reading two lists of numbers in turn is reading their concatenation |
| Radiotap.ReadNumbers | tcpdump/print-802_11.c:2757-3218 | consecutive unpackings read each number at its own alignment after the one before, up to the first that does not fit |
| Radiotap.PrintRadiotapField | tcpdump/print-802_11.c:2751-3218 | the reads of a field are those of its widths; it fails on the first that does not fit and on a field of unknown size |
| Radiotap.PrintInRadiotapNamespace | tcpdump/print-802_11.c:3221-3267 | the reads for a word are those of all its set bits below 29 in ascending order, and success means that all are known and fit |
| Radiotap.LastPresent | tcpdump/print-802_11.c:3317-3329 | finds the first word that is not extended and puts the cursor right after it, or all words within the header are extended |
| Radiotap.PresenceBit | tcpdump/print-802_11.c:3275-3276 | bit k of presence word j is bit k % 8 of octet 4 + 4j + k / 8 of the header, by division of the octet |
| Radiotap.SpecialBits | tcpdump/print-802_11.c:3386-3455 | bit 31 extends the presence words; bit 29 alone switches to the radiotap namespace, bit 30 alone to a vendor's, both together are illegal |
| Radiotap.VisitWord | tcpdump/print-802_11.c:3345-3455 | one word: its fields or the octets to skip, and the switch of namespaces |
| Radiotap.NeverSwitched | tcpdump/print-802_11.c:3386-3396 | without a switch the words are of the radiotap namespace and number their bits consecutively |
| Radiotap.SwitchedSince | tcpdump/print-802_11.c:3386-3446 | after the last switch the namespace is the one it names, and the numbering starts again |
| Radiotap.IllegalIsIgnored | tcpdump/print-802_11.c:3448-3454 | both switch bits together leave namespace and numbering as they were |
| Radiotap.VendorOctetsAreSkipped | tcpdump/print-802_11.c:3352-3370 | a word of a vendor namespace reads nothing, and the walk goes on after exactly the octets its item announced |
| Radiotap.VendorSkipLength | tcpdump/print-802_11.c:3412-3446 | the octets to skip are the little-endian number four octets after the next even offset |
| Radiotap.WalkHeader | tcpdump/print-802_11.c:3317-3456 | the whole walk is the one its presence words prescribe, given up exactly when they do not end within the header |
| Radiotap.RadioPrint | tcpdump/print-802_11.c:3270-3456 | from the captured octets: the header is walked if and only if it is captured as far as octets 2 and 3 say, has at least eight octets and a presence word that is not extended; the walk is then the one its presence words prescribe |
| Radiotap.HeaderIsOneReading | tcpdump/print-802_11.c:3317-3456 | without a vendor namespace the whole walk is one fold of align-then-add over the widths of all fields of all words, up to the first of unknown size or the end of the header |
| Radiotap.WalkIsOrderly | tcpdump/print-802_11.c:3317-3456 | for all presence words every read is aligned, after the presence words, within the header, and no two overlap |
| Radiotap.VendorItemPlace | tcpdump/print-802_11.c:3412-3446 | where the vendor namespace item is read, and when that is where it should be |
| Radiotap.VendorItemExample | tcpdump/print-802_11.c:3345-3456 | a header whose walk reads the OUI at offset 13 instead of 14 |
| RadiotapLayout.FittingIsLaid | tcpdump/print-802_11.c:2757-3218 | what is read is the layout of the numbers, as far as the header reaches |
| RadiotapLayout.FlatIsLaid | tcpdump/print-802_11.c:3221-3267 | the numbers of some fields, laid out, take up the extents of the fields one after the other |
| RadiotapLayout.WidthsAgreeIff | tcpdump/print-802_11.c:2411-2531 | the code knows the fields that the comments give a size for, and no others, and reads each as the numbers of its comment if and only if it is not FHSS and not the attenuation in dB |
| RadiotapLayout.FieldAgreesIff | tcpdump/print-802_11.c:2411-2531 | a field takes up the octets that the comments give it, from any cursor, if and only if it is not the attenuation in dB and not FHSS at an odd offset |
| RadiotapLayout.FieldsAgreeIff | tcpdump/print-802_11.c:2411-2531 | all of some fields do if and only if the attenuation is not among them and FHSS, if present, is come to at an even offset |
| RadiotapLayout.PlanIsFlat | tcpdump/print-802_11.c:3221-3267 | the numbers read for a word are those of its fields up to the first of unknown size |
| RadiotapLayout.PlanKnownIff | tcpdump/print-802_11.c:3236-3264 | the reading of a word stops early if and only if a bit below 29 names a field without a comment |
| RadiotapLayout.FhssCursor | tcpdump/print-802_11.c:2757-2860 | when that offset is even, by the fields before FHSS that are present |
| RadiotapLayout.WordAgreesIff | tcpdump/print-802_11.c:2411-2531 | the presence words for which every field is read where the comments put it, by their bits 0 to 4 and 9 and the cursor |
| RadiotapLayout.LaterWordsReadNothing | tcpdump/print-802_11.c:3388-3396 | the words after the first of a namespace name no field that is read |
| RadiotapLayout.AttenuationExample | tcpdump/print-802_11.c:2915-2935 | a header whose walk reads octets 8 and 9 where the comments put a 16-bit number and an octet |
| RadiotapLayout.FhssExample | tcpdump/print-802_11.c:2861-2873 | with flags before FHSS the code reads it one octet early |
| RadiotapLayout.FlagsHeader | tcpdump/print-802_11.c:3270-3456 | a header with the presence octets 2, 0, 0, 0 has its flags read at offset 8 and nothing else |
| RadiotapLayout.FlagsOnly | tcpdump/print-802_11.c:3270-3456 | the same through the code, for every header of nine octets |
| PacketStack.NetdissectOptions.NdPushBuffer | tcpdump/netdissect.c:150-169 | saves start and limit and installs the buffer, or changes nothing |
| PacketStack.NetdissectOptions.NdPushSnaplen | tcpdump/netdissect.c:171-226 | saves start and limit and lowers the limit if the length fits within it |
| PacketStack.NetdissectOptions.NdChangeSnaplen | tcpdump/netdissect.c:228-280 | moves the limit if the length fits within the limit consulted |
| PacketStack.NetdissectOptions.NdPopPacketInfo | tcpdump/netdissect.c:282-294 | restores the newest record |
| PacketStack.NetdissectOptions.NdPopAllPacketInfo | tcpdump/netdissect.c:296-301 | pops until the stack is empty |
| PacketStack.RecordsKept | tcpdump/netdissect.c:150-301 | a run that stays above its start leaves the records below alone |
| PacketStack.BalancedRunRestores | tcpdump/netdissect.c:150-301 | a push, any balanced run of pushes, changes and pops, and the pop restore start, limit and stack exactly |
| PacketStack.PopAllRestores | tcpdump/netdissect.c:296-301 | after any run, popping everything restores the outermost values |
| PacketStack.LimitNeverPasses | tcpdump/netdissect.c:171-280 | in runs without new buffers and with pointers within the limits consulted, the limit never passes the outermost capture end |
| PacketStack.SnaplenIsLower | tcpdump/netdissect.c:171-226 | a push of a length limits the packet to the lower of where the length ends and where the packet ended |
| PacketStack.BufferLimits | tcpdump/netdissect.c:150-226 | after a push of a buffer the limit is at its end, and no length pushed within it goes past that |
| PacketStack.ChangeStaysBelowIff | tcpdump/netdissect.c:228-280 | no change moves the limit past the one atop which it was pushed if and only if the limit consulted is not past that one |
| PacketStack.ChangeRaisesIff | tcpdump/netdissect.c:228-280 | some change raises the limit if and only if the limit consulted is above it; with one record none does |
| PacketStack.ChangePassesExample | tcpdump/netdissect.c:228-280 | a run in which a change goes past it |
| PacketStack.ChangeCannotRaiseExample | tcpdump/netdissect.c:228-280 | a run after which a change within the outermost limit is refused |

## Left out

- InternetChecksum.InCksum: has no result when the accumulator overflows, because that is undefined in C; of the packets past the capacity it does not say which do, since that depends on their octets.
- FletcherChecksum.CreateOsiCksum: PDUs over the largest capture, 262,144 octets, are excluded; the products of the source are then no longer bounded by its 32-bit arithmetic.
- BabelPrefixes.BabelTlvs: the printing without -v, which decodes nothing and keeps no defaults; sub-TLVs, of which only the octets left for them are kept.
- Radiotap.PrintRadiotapField: the values read are not interpreted, and the flags that are passed on to the frame printer are not kept.
- KeyTables.Table.StringOf: the rendering is a parameter. The byte-string table holds names made by two routines with different renderings under the same key (addrtoname.c:653-714), so nothing is said about which of them a name is.
- KeyTables.HashOf: which bucket a key goes to shows in no lookup, and nothing is stated about it but its range.
- NameTables.Slot: likewise; nor does it show how many records are allocated at a time.
- NameTables.Tables.FindName: the name for a new address is a parameter that stands for a resolver's answer or the numeric text; running out of memory ends the program and is not modelled.
- PacketStack.NetdissectOptions.NdPopPacketInfo: the linked list of records is a sequence, and the freeing of a popped buffer is not modelled.
- The IPv6 host table, which is like the IPv4 one with a longer key and an allocator of its own.
- All printed output and the lookups in tables of names for it.
- The 802.15.4 frame apart from its check sequence, and the other 802.11 frames and fields.
- The NTP, NFS and other printers, whose walks are simple and bounded.

# DNS wire codec and iterative resolver, modelled in Dafny

This project models a small DNS toolkit in three Python files:

- `part_1.py` is a stub resolver's query encoder. It packs the message header and one question big-endian, and turns a dotted name into length-prefixed labels. It builds queries with recursion desired (flags `0x0100`).
- `part_2.py` is a response decoder. It walks a byte buffer with a seekable cursor: a 12-byte header, the questions, and resource records whose names may end in a 14-bit compression pointer (RFC 1035 section 4.1.4).
- `part_3.py` is an iterative resolver. It decodes A records to dotted-quad text and NS records to names. It starts at the root server `198.41.0.4` and, in each round, follows in order: an A answer, a glue address, or a nameserver name resolved recursively.

Modelling choices:

- **Bytes.** A byte is an `int` in 0..255 and a buffer is a `seq` of them. The cursor is a `nat`. Every strict reader returns `Ok((value, next position))` or an `Err`; the lenient `Cursor.ReadUpTo` returns a plain pair and never fails.
- **Short reads.** The model keeps the program's mix of strict and lenient reads.
  - `BytesIO.read(n)` hands back whatever is left and never fails (`Cursor.ReadUpTo`).
  - A read that feeds `struct.unpack` fails unless all bytes are there (`Cursor.ReadExact`).
  - `read(1)[0]` fails at the end of the buffer (`Cursor.ReadByte`).
  - So a truncated label inside a name makes the next length read fail. A truncated record payload is returned short.
- **Errors.** Exceptions become constructors of `Results.Error`:
  - `Truncated` for struct errors and index errors;
  - `FieldRange` when `struct.pack` gets a value out of range;
  - `NotAscii`;
  - `LabelTooLong` for `bytes([n])` with `n >= 256`;
  - `PointerDepth`;
  - `NotBytes` for `.decode` called on text;
  - `Transport`;
  - `NoReferral` for "something went wrong";
  - `OutOfFuel`.
- **Record data.** Python record data is either bytes or a string. It becomes `Decoder.Data`, which is `Raw(bytes)` or `Text(string)`.
- **Pointer depth.** `decode_name` recurses through pointers without limit. The model threads a depth bound. Each pointer followed costs one unit, and running out is `PointerDepth`. Record parsers use depth `|buf|`. A successful decode never follows more pointers than the buffer has bytes: `Depths.DepthSuffices` proves that depth `|buf|` gives the same result as any depth that succeeds.
- **The resolver.**
  - A `Transport` maps a server and a query datagram to a reply datagram or a failure.
  - `Resolver.SendQuery` builds the query, exchanges it and parses the reply.
  - `Resolver.Decide` turns a parsed response into the round's next step.
  - The resolution loop (`Resolver.ResolveFrom`) is written over an `Oracle` from rounds to steps. `Resolver.Exchange` is the real oracle, and the lemmas about the loop hold for every oracle.
  - Fuel bounds the loop and the nested resolutions. Each run records the rounds it sent, in order; these stand in for the `Querying … for …` lines the program prints.

Where the code departs from RFC 1035, the model follows the code:

- **Label length.** Section 2.3.4 of RFC 1035 limits labels to 63 octets. The code only fails at 256 bytes or more. `Names.LongLabelIsPointer` shows what happens to a first label of 64..255 bytes: it encodes, and then its length byte reads as a pointer.
- **Pointer test.** Section 4.1.4 of RFC 1035 marks a pointer with its two top bits set, a length byte of 192 or more. The code's test `length & 192` makes any byte of 64 or more a pointer (`Decoder.IsPointer`, `Decoder.PointerMasks`).
- **Empty labels.** RFC 1035 ends a name with the single zero-length root label. The code splits on every dot, so an empty label (a trailing dot as in `example.com.`, a leading dot, or two dots in a row) is written as a zero byte inside the name. A fully-qualified name with a trailing dot therefore encodes an extra zero byte and does not parse back: the decoder stops at the first zero, and in a query it reads the question's type and class one byte early (`Names.TrailingDotCutShort`). The round-trip lemmas are stated for names without empty labels.
- **Pointer loops.** The code has no loop guard: `decode_name` and `decode_compressed_name` recurse until Python's recursion limit. The model's depth bound makes such a loop fail with `PointerDepth`. `Names.SelfPointerFails` covers a pointer to itself, and `Depths.NoPointerTwice` shows that no successful decode follows the same pointer twice.

## Model

| member | source | states |
|---|---|---|
| Bytes.PackU16 | part_1.py:29 | `struct.pack('!H', x)` succeeds exactly for 0..65535 and gives two bytes whose big-endian value is `x` |
| Bytes.EncodeAscii | part_1.py:34 | `encode('ascii')` succeeds exactly on ASCII text and keeps every character's code, in order |
| Encoder.PackU16s | part_1.py:25 | packing u16 fields fails exactly when one is out of range; otherwise field `i` is the big-endian pair at `2i` |
| Encoder.HeaderToBytes | part_1.py:23-25 | twelve bytes, holding id, flags and the four counts as big-endian u16 in declaration order; fails exactly when a field lies outside 0..65535 |
| Encoder.QuestionToBytes | part_1.py:28-29 | the name bytes unchanged, then type and class big-endian; length `|name| + 4`; fails exactly when type or class is out of range |
| Encoder.EncodeLabels | part_1.py:34-36 | each part as its length byte and its bytes, in order, then one zero byte; fails exactly when a part has 256 bytes or more |
| Encoder.EncodeDnsName | part_1.py:32-36 | succeeds exactly for an ASCII name whose dot-separated labels are under 256 bytes; the result is those labels length-prefixed, ends in a zero byte, and is two bytes longer than the name |
| Encoder.QueryShape | part_1.py:44-50 | a query is header then question: id, flags, one question, three zero counts, the encoded name, the type and class IN; it fails exactly when the name does not encode or the type is out of range |
| Encoder.BuildQuery | part_1.py:44-50 | the stub resolver's query has exactly that layout with the recursion-desired flag `0x0100` |
| Encoder.Query | part_1.py:44-50 | the body both `build_query` functions share, over a flags word; no contract of its own: `Encoder.QueryShape` states its layout and when it fails |
| Seqs.JoinSplit | part_1.py:34 | joining the parts of a split with the separator gives back the original bytes |
| Seqs.SplitJoin | part_2.py:29 | splitting a join of separator-free parts gives back the parts |
| Seqs.JoinLength | part_1.py:34-36 | a join is as long as its parts together plus one separator between each two |
| Seqs.CountJoin | part_2.py:102 | a join of separator-free parts holds exactly one separator fewer than it has parts |
| Cursor.ReadUpTo | part_2.py:28 | `read(n)` returns the bytes from the cursor up to `n` or the end, whichever comes first, and never fails; past the end it returns nothing |
| Cursor.ReadExact | part_2.py:18 | a read fed to `struct.unpack` succeeds exactly when all `n` bytes remain, and advances by `n` |
| Cursor.ReadByte | part_2.py:27 | `read(1)[0]` succeeds exactly before the end of the buffer |
| Decoder.ParseHeader | part_2.py:17-19 | succeeds exactly when twelve bytes remain; consumes exactly twelve; each field is the big-endian u16 at its offset, in declaration order |
| RoundTrips.HeaderRoundTrip | part_2.py:17-19 | reading a header back from its twelve packed bytes, anywhere in a buffer, gives the same header and advances by twelve |
| Decoder.SimpleLabels | part_2.py:25-29 | a successful label walk ends just past a zero byte inside the buffer |
| Decoder.DecodeNameSimple | part_2.py:25-29 | a successful simple decode ends just past the terminating zero byte |
| Names.SimpleLabelsWire | part_2.py:25-29 | on length-prefixed non-empty labels followed by a zero byte, the walk returns exactly those labels and stops just past the zero |
| Names.SimpleRoundTrip | part_2.py:25-29 | decoding an encoded name whose labels are all non-empty, without pointer following, gives back its ASCII bytes, with the cursor `|name| + 2` further on |
| Names.TrailingDotCutShort | part_1.py:34-36 | a name with a trailing dot, `a.`, encodes with two zero bytes at the end, and the simple decoder stops after the first: name `a`, cursor one byte short of the encoded name's end |
| Decoder.ParseQuestion | part_2.py:32-36 | succeeds exactly when the simple name decodes and four more bytes remain; the question's name is that decoded name, and type and class are the big-endian u16 after it |
| Decoder.PointerMasks | part_2.py:53-63 | the model's pointer test is exactly the code's `length & 192` being non-zero, and its pointer target is exactly `((length & 63) << 8) + next` |
| Names.PointerBytesTarget | part_2.py:61-63 | the two bytes written for an offset below `0x4000` read as a pointer whose target is that offset |
| Decoder.NameParts | part_2.py:50-58 | a successful label walk ends strictly after its start and inside the buffer |
| Decoder.DecodeCompressedName | part_2.py:61-68 | following a pointer yields the name decoded at its target, with one unit less depth; the cursor is restored to just past the two pointer bytes; at depth zero it fails |
| Decoder.DecodeName | part_2.py:50-58 | a successful decode ends strictly after its start and inside the buffer |
| Names.LiteralPartsAgree | part_2.py:50-58 | where no length byte on the walk is a pointer, `decode_name`'s walk and `decode_name_simple`'s give the same labels and end |
| Names.NoPointerAgreement | part_2.py:50-58 | on input with no pointer bytes, `decode_name` returns the same name and cursor as `decode_name_simple`, at every depth |
| Names.RoundTrip | part_2.py:50-58 | an encoded name whose labels are non-empty and under 64 bytes decodes back to its ASCII bytes, anywhere in a buffer, with the cursor just past it |
| Names.LongLabelIsPointer | part_1.py:35 | an encoded first label of 64 or more bytes starts with a length byte the decoder takes for a pointer |
| Names.PointerAtCursor | part_2.py:61-68 | a pointer at the cursor contributes the target's whole name as one part, and the cursor ends two bytes on |
| Names.PartsBeforePointer | part_2.py:52-55 | labels followed by a pointer give the labels in order and then the target's name, ending just past the pointer |
| Names.PointerEndsName | part_2.py:53-55 | a name of labels and a pointer decodes to the labels joined with the target's name, with the cursor just past the pointer |
| Names.SelfPointerFails | part_2.py:61-68 | a pointer to its own offset never resolves: the decode fails with a depth error at every depth |
| Names.NamePartsDepth | part_2.py:50-58 | a label walk that did not run out of depth gives the same result with any larger depth |
| Names.CompressedDepth | part_2.py:61-68 | a pointer that did not run out of depth gives the same result with any larger depth |
| Names.DecodeNameDepth | part_2.py:50-68 | a name decode that did not run out of depth gives the same result with any larger depth |
| Depths.PointersDepthFree | part_2.py:50-68 | the pointers a successful decode follows, and their order, are the same whatever depth it is given |
| Depths.EnoughDepth | part_2.py:50-68 | a successful decode gives the same result with any depth at least the number of pointers it follows |
| Depths.NoPointerTwice | part_2.py:61-68 | a successful decode never follows two pointers at the same offset, so a chain that comes back to a pointer already followed never succeeds |
| Depths.PointersDistinct | part_2.py:50-68 | the pointers a successful decode follows sit at pairwise distinct offsets inside the buffer |
| Depths.DepthSuffices | part_2.py:50-68 | a name that decodes at some depth decodes to the same name and cursor at depth `|buf|`, the depth the record parsers use |
| Decoder.ParsePreamble | part_2.py:72-74 | a record's name, then type, class, ttl and data length as u16, u16, u32, u16 from the ten bytes after it; fails exactly when the name fails or ten bytes do not remain |
| Decoder.ParseRecord | part_2.py:71-76 | the record carries the preamble's fields and the raw bytes after it, up to `data_len` or the buffer's end; the cursor advances by the name, ten and `data_len`, stopping at the end |
| Decoder.ParseSection | part_2.py:94-97 | a section comprehension returns exactly as many entries as asked for, read in turn: the first at the starting cursor, each next one where the previous one left the cursor, the section ending where the last one left it |
| Decoder.SectionDetermined | part_2.py:94-97 | conversely, any entries that can be read in turn from a cursor are exactly what the comprehension returns, with the same end; so it fails only where an entry of the chain fails |
| Decoder.ParsePacketWith | part_2.py:91-98 | the header comes from offset 0; the four sections hold exactly as many entries as its counts say, and are read in turn from one cursor: questions from offset 12, then answers, authorities and additionals, each starting where the previous section ended |
| Decoder.PacketDetermined | part_2.py:91-98 | conversely, a packet whose header sits at offset 0 and whose sections, as long as the header counts, can be read in that order from offset 12 is exactly what `parse_dns_packet` returns |
| Decoder.ParsePacket | part_2.py:91-98 | the response decoder's header comes from offset 0, its section lengths equal the header counts, and its sections are read in turn from one cursor with the raw record parser |
| Decoder.IpToString | part_2.py:101-102 | no contract of its own; `RoundTrips.IpRoundTrip` states what the text holds |
| RoundTrips.QueryParsesBack | part_2.py:91-98 | a query built by the encoder for a name with no empty label parses back to its header, the one question with the name in dotted form, and three empty record sections |
| Numerals.ToDecimal | part_2.py:102 | `str(x)` of a number is a non-empty string of digits without a leading zero |
| Numerals.DecimalRoundTrip | part_2.py:102 | reading back the decimal digits of a number gives the number |
| RoundTrips.IpRoundTrip | part_2.py:101-102 | `ip_to_string` of `n` bytes, for one or more bytes, has `n` dot-separated components and `n - 1` dots, and reading it back gives the bytes |
| Typed.ParseTypedRecord | part_3.py:35-45 | NS data is the name decoded at the cursor, and the cursor follows that name, not `data_len`; A data is the dotted text of `data_len` bytes; other data stays raw; data is text exactly in A records; fails exactly when the preamble or an NS name fails |
| Typed.ParseTypedPacket | part_3.py:52-59 | the header comes from offset 0, section lengths equal the header counts, the sections are read in turn from one cursor with the typed record parser, and in every record section data is text exactly for A records |
| Typed.FirstOfType | part_3.py:63-65 | the first record of the given type, with none of that type before it, or none exactly when no record has the type |
| Typed.GetAnswer | part_3.py:62-65 | the data of the first A answer, whatever type was asked for, or none exactly when no answer is an A record |
| Typed.GetNameserverIp | part_3.py:68-71 | the data of the first A additional record, or none exactly when there is no such record |
| Typed.GetNameserver | part_3.py:87-90 | none exactly when no authority is NS; it succeeds exactly when there is none or the first NS authority's data is bytes that decode; a name it returns is the decoded text of the first NS authority's data |
| Bytes.DecodeAscii | part_3.py:90 | decoding bytes to text succeeds exactly when every byte is below 128, keeping each code |
| Bytes.AsciiRoundTrip | part_3.py:90 | decoded text encodes back to the same bytes |
| Resolver.BuildQuery | part_3.py:10-15 | the resolver's query has the query layout with flags 0 |
| Resolver.QueriesDifferInFlags | part_3.py:13 | the resolver's query and the stub resolver's succeed together and are byte for byte equal except the flags word, which is 0 in one and `0x0100` in the other |
| Resolver.SendQuery | part_3.py:21-26 | a query that does not build fails with the builder's error; a failed exchange fails with `Transport`; otherwise the result is exactly the typed parse of the reply, whose answers and additionals are text exactly in A records |
| Resolver.Decide | part_3.py:98-105 | a round acts on the first truthy option in this order: an A answer, a glue address, a nameserver name; otherwise it stops with the nameserver decode's error if that failed, and with `NoReferral` ('something went wrong') if not |
| Resolver.Resolve | part_3.py:93-96 | a resolution sends no query exactly when it has no fuel, and then runs out of fuel; otherwise its first query asks the root `198.41.0.4` for the name and type given |
| Resolver.ResolveFrom | part_3.py:95-105 | the loop sends no query exactly when it has no fuel; otherwise its first query asks the current nameserver for the name and type given |
| Resolver.ResolveWrong | part_3.py:74-78 | the same for `resolve_wrong`: no query only without fuel, otherwise the first query asks the root for the name and type given |
| Resolver.ResolveWrongFrom | part_3.py:76-84 | the same for the loop of `resolve_wrong` from the current nameserver |
| Resolver.ResolveFromFuel | part_3.py:95-105 | a resolution that did not run out of fuel gives the same result and rounds with any more fuel |
| Resolver.ResolveFuel | part_3.py:93-105 | the same, for a resolution from the root |
| Resolver.ResolveFromAnswered | part_3.py:98-103 | a returned value is the answer drawn by the last round, and that round asked for the original name and type |
| Resolver.ResolveAnswered | part_3.py:93-99 | the same, for a resolution from the root |
| Resolver.AnswerIsText | part_3.py:98-99 | an answer from the real exchange is the truthy data of the first A answer of the response, so it is text |
| Resolver.ResolveReturnsText | part_3.py:93-105 | a successful resolution returns text: the first A answer of the last response, to a query for the original name and type |
| Resolver.OneQuery | part_3.py:96-99 | a resolution succeeds after exactly one query if and only if the root's response is an answer, and it then returns that answer |
| Resolver.GlueThenAnswer | part_3.py:100-101 | glue from the root, then an answer from the glue server: exactly those two queries, and the second answer is returned |
| Resolver.ReferralResolvesNameserver | part_3.py:102-103 | a referral starts a nested resolution of the nameserver name for type A from the root; its rounds come right after the referring round, and its answer is the next server asked |
| Resolver.WrongStopsAtReferral | part_3.py:74-84 | at any server, `resolve_wrong` fails after that one query when the server refers to a nameserver name without glue, while `resolve`, given fuel for two rounds, goes on querying |
| Resolver.WrongAgreesWhenOk | part_3.py:74-84 | whatever `resolve_wrong` resolves, `resolve` resolves with the same result and the same rounds |

## Left out

- Socket I/O is not modelled. `send_query`'s UDP exchange and its 1024-byte receive buffer become the abstract `Transport`, and any transport failure becomes `Transport`.
- `lookup_domain` (`part_2.py:109-115`) is not modelled: it is the same exchange with a fixed server.
- The `print` lines of the resolver loops are not modelled. They are represented by the list of rounds each run records.
- `random.randint` is not modelled. The transaction id is a parameter in 0..65535, and one id serves a whole resolution.
- The first `parse_record` in `part_2.py` (lines 42-47) is not modelled. It is dead code, because line 71 rebinds the name before any call.
- `dataclasses.astuple` is not modelled. `Encoder.Fields` lists the header fields in declaration order instead.
- Resolver.ResolveFrom: fuel bounds both the loop and the nested resolutions, so a resolution that never ends (cyclic referrals) is `OutOfFuel` rather than a hang. The fuel lemmas show that more fuel never changes a result that did not run out.
- Decoder.DecodeName: the depth bound replaces Python's recursion limit, so a pointer loop is `PointerDepth` rather than a `RecursionError`. The recursion limit (1000 frames by default) also rejects long chains without a loop: about 500 chained two-byte pointers fit in a 1024-byte reply and take two frames each. Depth `|buf|` accepts such a chain.
- Typed.GetNameserver: `decode('utf-8')` is modelled as an ASCII decode. A non-ASCII name would fail in the next round's `encode('ascii')` anyway.
- Bytes.DecodeAscii: narrows `decode('utf-8')` to ASCII. For a nameserver name that is valid UTF-8 but not ASCII, the program prints a nested round to `198.41.0.4` and then fails in `encode('ascii')`; the model fails in `Resolver.Decide`, so its run records one round fewer.
- Resolver.SendQuery: the 1024-byte receive limit is part of the transport, not of the model.
- Encoding of resource records is not modelled; the code never encodes them.

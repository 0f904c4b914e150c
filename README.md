# DHCP option-data codec

A Dafny model of the primitive value codec of the DHCP library: the
routines that turn typed option values (integers, IP addresses, raw
strings and domain names) into octet buffers and back, as exercised by
`OptionDataTypesTest`.

The model has two sources of behaviour:

- **Transcribed code.** The fixture's writers `writeAddress`, `writeInt<T>`
  and `writeString` are transcribed as methods on an `OptionBuffer` object
  whose `data` field stands for the caller's `std::vector<uint8_t>`. Each
  keeps the loop or the append the C++ performs.
- **Pinned contracts.** `OptionDataTypeUtil::readAddress`, `writeAddress`,
  `readFqdn` and `writeFqdn` are modelled from the behaviour their tests
  pin. `readFqdn` is a loop that walks length octets, and `writeFqdn` is a
  loop that appends labels. Each is proved against a reference function:
  `DecodeFrom` for reading and `ParseFqdn` with `EncodeName` for writing.
  The lemmas about those functions give the properties the tests rely on.

Domain names use the length-prefixed label format of section 3.1 of
RFC 1035:

- each label is one length octet (1 to 63, from section 2.3.4) followed by
  that many octets;
- the name ends with the root's zero octet.

`readFqdn` renders a name with a dot after every label, so `.` alone stands
for the root. `writeFqdn` accepts a name with or without its final dot. It
rejects the empty name, an empty label (a leading dot, or two dots in a
row) and any label longer than 63 octets.

Files:

- `wrappers.dfy`: `BadDataTypeCast` as a `Result` / `Outcome` failure.
- `bytes.dfy`: octets (`Byte`) and the octet view of a `std::string`.
- `big_endian.dfy`: the big-endian two's complement encoding of the
  `writeInt<T>` widths.
- `address.dfy`: `IOAddress` as a family code and its raw octets.
- `fqdn.dfy`: the RFC 1035 label format, its text form and the name parsing
  `writeFqdn` performs.
- `option_buffer.dfy`: the caller-owned output buffer.
- `fixture.dfy`: the test fixture's writers.
- `util.dfy`: `OptionDataTypeUtil`'s readers and writers.
- `scenarios.dfy`: the four `TEST_F` bodies, as methods whose contracts are
  the values the tests assert.

## Model

| member | source | states |
|---|---|---|
| DataTypesFixture.WriteAddress | src/lib/dhcp/tests/option_data_types_unittest.cc:35-47 | An IPv4 address appends its 4 octets and an IPv6 address its 16; any other family leaves the buffer as it was. The old contents always stay as an unchanged prefix. |
| DataTypesFixture.WriteInt | src/lib/dhcp/tests/option_data_types_unittest.cc:54-59 | The loop appends exactly `sizeof(T)` octets, octet i being `(value >> ((w-i-1)*8)) & 0xFF`, after the old contents. Together these form the big-endian two's complement encoding `Encode(value, w)`. |
| DataTypesFixture.WriteString | src/lib/dhcp/tests/option_data_types_unittest.cc:65-70 | The buffer is grown by the string's length and the string is copied backwards into the new tail. The result is the old contents followed by the string's octets in order. |
| BigEndian.EncodeOctetAt | src/lib/dhcp/tests/option_data_types_unittest.cc:56-57 | Octet i of the reference encoding is the low octet of the value shifted right by `(w-i-1)*8`, so the most significant octet comes first. |
| BigEndian.UnsignedEncode | src/lib/dhcp/tests/option_data_types_unittest.cc:54-59 | Read back as an unsigned big-endian number, the w octets give the value modulo 2^(8w). This is two's complement for negative values. |
| BigEndian.IntRoundTrip | src/lib/dhcp/tests/option_data_types_unittest.cc:54-59 | Take any width of 1, 2, 4 or 8 and any value in the signed or unsigned range of that width. Interpreting its encoding, signed as two's complement, gives the value back. |
| OptionDataTypeUtil.ReadAddress | src/lib/dhcp/tests/option_data_types_unittest.cc:76-91 | Reading succeeds if and only if the family is AF_INET or AF_INET6 and the buffer holds at least 4 or 16 octets respectively. The result has that family and exactly the buffer's first 4 or 16 octets. Otherwise the read fails with BadDataTypeCast. |
| OptionDataTypeUtil.DotInLabelText | src/lib/dhcp/tests/option_data_types_unittest.cc:125-147 | A read label holding the octet `.` is printed as it is: the one-label name `a.b` and the two-label name `a`, `b` decode to different labels but read as the same text `a.b.`. |
| OptionDataTypeUtil.AddressRoundTrip | src/lib/dhcp/tests/option_data_types_unittest.cc:78-90 | Reading, with the address's own family, from a buffer that starts with the address's octets gives the same address back, whatever follows. |
| OptionDataTypeUtil.WriteAddress | src/lib/dhcp/tests/option_data_types_unittest.cc:96-117 | An IPv4 or IPv6 address appends its octets and passes. Any other family fails with BadDataTypeCast and leaves the buffer unchanged. |
| OptionDataTypeUtil.ReadFqdn | src/lib/dhcp/tests/option_data_types_unittest.cc:125-161 | The loop over length octets returns exactly what the reference decoding `DecodeFrom(buf, 0)` gives: the dotted text and the consumed length, or BadDataTypeCast. |
| OptionDataTypeUtil.ReadFqdnResult | src/lib/dhcp/tests/option_data_types_unittest.cc:141-147 | On success the text ends with the root's dot. The consumed length is at least 1 and within the buffer, the consumed octets are exactly the encoding of the labels read, and the last of them is the zero octet. |
| OptionDataTypeUtil.WriteFqdn | src/lib/dhcp/tests/option_data_types_unittest.cc:167-229 | A name the parser accepts has its encoding appended after the old contents, and the call passes. A rejected name fails with BadDataTypeCast and leaves the buffer unchanged. |
| OptionDataTypeUtil.AppendName | src/lib/dhcp/tests/option_data_types_unittest.cc:167-196 | Appending each label's length octet and octets in order, then a zero octet, extends the buffer by exactly `EncodeName(labels)`. |
| Fqdn.ParseFqdnSound | src/lib/dhcp/tests/option_data_types_unittest.cc:167-176 | Every accepted name yields at least one label. Each label has 1 to 63 octets and no dot, and the labels, each followed by a dot, spell the name with its final dot. |
| Fqdn.ParseFqdnComplete | src/lib/dhcp/tests/option_data_types_unittest.cc:167-176 | Every non-empty list of valid labels is accepted in both spellings of its text, with and without the final dot, and parses back to exactly those labels. |
| Fqdn.RejectsEmptyLabels | src/lib/dhcp/tests/option_data_types_unittest.cc:216-229 | The empty name, a name with a leading dot, and a name with two dots in a row are rejected with BadDataTypeCast. |
| Fqdn.AcceptedShape | src/lib/dhcp/tests/option_data_types_unittest.cc:216-229 | An accepted name is non-empty, does not start with a dot and never has two dots in a row. |
| Fqdn.DottedSplit | src/lib/dhcp/tests/option_data_types_unittest.cc:167-176 | Splitting a text on its dots and writing each segment back with a dot after it gives the text plus one dot: the splitter loses nothing. |
| Fqdn.SplitDotted | src/lib/dhcp/tests/option_data_types_unittest.cc:167-176 | Splitting the dotted text of dot-free labels gives those labels back, followed by the empty segment after the final dot. |
| Fqdn.DecodeEncoded | src/lib/dhcp/tests/option_data_types_unittest.cc:125-147 | The encoding of any label list, wherever it sits in a buffer, decodes to exactly those labels. The decoder stops just past the encoding, whatever follows it. |
| Fqdn.DecodeExact | src/lib/dhcp/tests/option_data_types_unittest.cc:141-147 | Whatever decodes successfully consumed exactly the encoding of the labels it produced, and stayed within the buffer. |
| Fqdn.DecodeTruncated | src/lib/dhcp/tests/option_data_types_unittest.cc:149-160 | Every proper prefix of an encoded name fails to decode with BadDataTypeCast. This includes the empty buffer and a buffer cut inside a label. |
| Fqdn.PackedNames | src/lib/dhcp/tests/option_data_types_unittest.cc:198-214 | Two encodings written back to back decode one after the other. The second starts where the first's consumed length ends. |
| Fqdn.FqdnRoundTrip | src/lib/dhcp/tests/option_data_types_unittest.cc:129-144 | Encoding an accepted name and decoding the result gives back its labels, whose text is the name with its final dot, and consumes exactly what was written. |
| Fqdn.EncodeLabelsAppend | src/lib/dhcp/tests/option_data_types_unittest.cc:198-203 | The encoding of two label lists joined is the two encodings joined. |
| OptionDataTypesTest.ReadAddressTest | src/lib/dhcp/tests/option_data_types_unittest.cc:76-91 | 192.168.0.1, written by the fixture and read back as AF_INET, is the same address. |
| OptionDataTypesTest.WriteAddressTest | src/lib/dhcp/tests/option_data_types_unittest.cc:96-117 | An AF_INET6 address holding the 16 reference octets is written as exactly those octets, and the write passes. |
| OptionDataTypesTest.ReadFqdnTest | src/lib/dhcp/tests/option_data_types_unittest.cc:125-161 | The 22 reference octets read as `mydomain.example.com.` and consume all 22. Cut to 5 octets, or emptied, the buffer fails with BadDataTypeCast. |
| OptionDataTypesTest.WriteFqdnTest | src/lib/dhcp/tests/option_data_types_unittest.cc:167-229 | `mydomain.example.com` is accepted (the write passes) and written as the 22 reference octets, with 8, 7, 3, 0 at offsets 0, 9, 17, 21 and the three labels between them. `hello.net` is accepted and grows the buffer to 33 octets, with 5 and 3 at offsets 22 and 28. `""` and `example..com` fail. |
| OptionDataTypesTest.MyDomainEncoded | src/lib/dhcp/tests/option_data_types_unittest.cc:129-134 | The reference octets are exactly the encoding of the labels `mydomain`, `example`, `com`. |
| OptionDataTypesTest.MyDomainParsed | src/lib/dhcp/tests/option_data_types_unittest.cc:169-172 | `mydomain.example.com` is accepted and parsed into those three labels. |
| OptionDataTypesTest.DoubleDotRejected | src/lib/dhcp/tests/option_data_types_unittest.cc:225-229 | `example..com` is rejected with BadDataTypeCast. |

## Left out

- The file that implements `OptionDataTypeUtil` is not part of this model. The contracts of `readAddress`, `writeAddress`, `readFqdn` and `writeFqdn` follow what the tests assert. Where the tests are silent, they follow the RFC 1035 label format.
- Text forms of addresses are foreign library calls and are not modelled: the `IOAddress` text constructor, `toText()`, and asio's `to_v4()`, `to_v6()` and `to_bytes()`. An address is a family code with its 4 or 16 raw octets, and addresses are compared octet by octet.
- `AF_INET` and `AF_INET6` take their Linux values (2 and 10). Only their distinctness matters.
- OptionDataTypeUtil.WriteAddress: the failure for a family other than AF_INET or AF_INET6 is modelled, although a real `IOAddress` never has one.
- OptionDataTypeUtil.ReadAddress: a buffer longer than the address is read from its first octets. The tests only use buffers of exactly the right length.
- OptionDataTypeUtil.ReadFqdn: the consumed length, an out-parameter `len` in the source, is returned in a pair with the text.
- Compression pointers are not supported. A length octet above 63, which includes every pointer form (0xC0 and above), fails with BadDataTypeCast.
- The 255-octet limit on a whole name is not modelled. Only the 63-octet label limit is.
- The text `.` alone is rejected by `ParseFqdn`, because its only segment before the final dot is empty. Reading the root alone still renders it as `.`.
- Label text has no escapes. Only `writeFqdn` keeps dots out of labels, because it splits the name on them. A label that is read may hold any octet, and its text is its raw octets.
- OptionDataTypeUtil.ReadFqdn: a `.` octet inside a label is printed as it is, with no escape, so such a name reads as the same text as the name whose labels are split at that dot (`DotInLabelText`).
- `readInt`, `readString` and the other value kinds of `OptionDataTypeUtil` are not exercised by the tests and are not modelled. The fixture's `writeInt` and `writeString` are.
- DataTypesFixture.WriteInt: the C++ `int` promotion and implementation-defined right shift of negative values are modelled as an arithmetic shift (floor division by a power of two).
- `src/bin/dhcp6/main.cc` (process start-up, logging, the session loop) is not modelled: it is outside the DHCP option-data codec.
- The gtest macros and the exception machinery are reduced to the single error `BadDataTypeCast`.

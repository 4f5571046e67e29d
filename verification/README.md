# Models of the gateway's protocol and data cores

The gateway daemon under `software/das` moves measurements from meters to servers. Around its sockets and its
database it holds self-contained cores: a cipher and two digests for registration, four framing protocols with their
checks, an update image format, two queues, and three tables that are updated in place. This project models those cores
in Dafny and proves what they are for.

| files | core | main results |
|---|---|---|
| `Sha1.dfy`, `Md5.dfy`, `Md5Sine.dfy` | streaming digests | any split of a message gives the one-shot digest; the customised MD5 is plain MD5, its constants derived from the sine; the exact message length up to which the SHA padding is standard |
| `DesTables.dfy`, `Des.dfy`, `DesStandard.dfy`, `DesIsStandard.dfy`, `RegId.dfy` | block cipher and registration id | the table-driven cipher equals FIPS 46-3 for every key and block; both directions undo each other for every table; the id determines code and hardware |
| `CrcTables.dfy`, `Crc.dfy`, `ModbusGateway.dfy` | checks and frame acceptance | table forms equal polynomial forms; acceptance if and only if the check is right |
| `UpdateImage.dfy`, `UpdateWalk.dfy`, `Update.dfy` | update images | exactly when the loops over an image end with its segments read in order; a checked image is then applied in full exactly when its segments agree on each path |
| `Hjt212Frame.dfy`, `Hjt212Fields.dfy`, `Hjt212Parse.dfy`, `Bjdc.dfy`, `Dlt645.dfy` | framing protocols | exactly which payloads arrive, under any chunking; field round trips |
| `ByteFifo.dfy`, `BlockQueue.dfy` | queues under locks | refinement of a bounded queue for every run, exactly for sizes that divide 2^32; exactly when a condition wait under `if` is harmless |
| `ZigbeeTable.dfy`, `ZigbeeRecords.dfy`, `Zigbee.dfy`, `NetStates.dfy`, `MqttGrouping.dfy` | linked and indexed tables | heap structures refine sequences and maps over whole runs; every field of a record told from the run; a lifecycle bound; a stable partition |

Code that updates state is modelled as methods on arrays and classes, each proved against a function on values; the
theorems about whole streams and runs are lemmas about those functions. A section that holds a lock is one step, and a
wait splits an operation into two sections. `Bytes.dfy` and `Hex.dfy` hold the words, byte orders and digits all of them
share.

The results that are conditions rather than promises: the SHA length field wraps at 2^38 bytes; the HJ 212 and building
data receivers keep the first bytes of a failed start and never search on; a DL/T 645 length field is not checked; the
marker addition differs from the per-byte rule once a low byte exceeds 0xCC, and a reply with such a marker is not
understood; a length word of 2^31 or more in an update image can send the loops back for ever; the byte queue loses its
place at the counter wrap unless its size divides 2^32; a receive that wakes on an empty message queue leaves it reading
as full; learn steps of 429496730 seconds and more drop zigbee nodes early or never; a socket opened again behind a
cleared node is listed twice.

## Model

| member | source | states |
|---|---|---|
| Sha1Spec.PadWith | software/das/reg/rtu_sha.c:197-239 | a padded message is a whole number of 64-byte blocks, whatever its length and its length field |
| Bytes.RotlPlaces | software/das/reg/rtu_sha.c:6 | of a rotation by n places the low n bits are the top n of x, and the others are x moved up, for every x and n |
| Bytes.AddCounts | software/das/reg/rtu_sha.c:149-154 | adding a word counts up from the other, modulo 2^32 |
| Bytes.BePlaces | software/das/reg/rtu_des.c:9-15 | the four bytes of a big-endian word stand at its four places, the first at the top |
| Bytes.LePlaces | software/das/sdccp/cc_md5.c:103-108 | and of a little-endian word the first at the bottom |
| Sha1Spec.ChSelects | software/das/reg/rtu_sha.c:52 | Ch, which F1 writes with exclusive ors, takes y where x has a one and z where it has a zero |
| Sha1Spec.MajVotes | software/das/reg/rtu_sha.c:54 | Maj, which F3 writes with fewer operations, goes with y and z where they agree and with x where they differ |
| Sha1Spec.ParityFlips | software/das/reg/rtu_sha.c:53-55 | Parity, which is F2 and F4, is the difference of x and y, or its complement, according to z |
| Sha1Spec.Xor4Back | software/das/reg/rtu_sha.c:58-60 | the schedule can be run backwards: any of the four words is recovered from the others and the result |
| Sha1Spec.TwentyRoundsEach | software/das/reg/rtu_sha.c:48-147 | each of the four constants serves twenty rounds on end |
| Sha1.LogicalForms | software/das/reg/rtu_sha.c:52-55 | the four logical macros are Ch, Parity, Maj, Parity of section 4.1.1 of FIPS 180-4 |
| Sha1.NextWord | software/das/reg/rtu_sha.c:58-60 | the 16-word schedule rolled in place yields word t of the 80-word expansion in every round |
| Sha1.RenamedRound | software/das/reg/rtu_sha.c:62-67 | one expansion of R, which renames nothing, is the standard's round with relabelled registers |
| Sha1.EightyRounds | software/das/reg/rtu_sha.c:68-147 | eighty expansions with rotating names are eighty rounds on the expanded schedule |
| Sha1.Context.Transform | software/das/reg/rtu_sha.c:23-155 | the chaining words become the compression of the old ones with the block |
| Sha1.Context.Write | software/das/reg/rtu_sha.c:161-187 | buffer, chaining words and counters always stand for exactly the bytes written so far, for any length and alignment of the input |
| Sha1.Context.BitCount | software/das/reg/rtu_sha.c:204-216 | msb:lsb is 8*(64*nblocks+count), carries between the halves included |
| Sha1.Context.PadBuffer | software/das/reg/rtu_sha.c:218-229 | 0x80 and the zeros up to the length field, in one block or two, compress to the state of the padded prefix |
| Sha1.Context.Final | software/das/reg/rtu_sha.c:197-251 | the first twenty bytes of the buffer become the digest of the padded message |
| Sha1.HashChunks | software/das/reg/rtu_sha.c:161-251 | any split into writes gives the one-shot digest; below 2^38 bytes that is the digest over the padding of section 5.1.1 of FIPS 180-4 |
| Sha1.CountWraps | software/das/reg/rtu_sha.c:204-216 | the length field is the bit count modulo 2^41, because the block counter has 32 bits |
| Sha1.PaddingExact | software/das/reg/rtu_sha.c:197-239 | the padding is that of FIPS 180-4 if and only if the message has fewer than 2^38 bytes |
| Md5Spec.TableIsRfc | software/das/sdccp/cc_md5.c:160-257 | operation i uses the word and the shift that the access pattern of RFC 1321 gives it |
| Md5Sine.ConstantsAreSines | software/das/sdccp/cc_md5.c:160-257 | the constant of operation i is the integer part of 2^32 times the sine of i + 1 radians without its sign, for every pair of functions with the series of sine and cosine at 1 and their addition theorem |
| Md5Spec.FSelects | software/das/sdccp/cc_md5.c:20 | F is y where x has a one, and z where it has a zero |
| Md5Spec.GSelects | software/das/sdccp/cc_md5.c:21 | G is x where z has a one, and y where it has a zero |
| Md5Spec.HSelects | software/das/sdccp/cc_md5.c:22 | H is the difference of x and z, or its complement, according to y |
| Md5Spec.ISelects | software/das/sdccp/cc_md5.c:23 | I is the difference of x and y where z has a one, and the complement of y where it has a zero |
| Md5Spec.InitialBytes | software/das/sdccp/cc_md5.c:69-73 | the four registers start as the bytes 01 23 45 to 32 10 of section 3.3 of RFC 1321 |
| Md5.Enc | software/das/reg/rtu_md5.c:155-206 | each of the four helpers returns its constant, for every word and whatever the CRC functions compute |
| Md5.Operate | software/das/reg/rtu_md5.c:32-51 | one macro expansion of either copy is one step of RFC 1321 |
| Md5.Operations | software/das/sdccp/cc_md5.c:160-257 | the 64 lines with rotating register names are the 64 steps |
| Md5.Context.Count | software/das/sdccp/cc_md5.c:90-95 | i[1]:i[0] moves on by 8*inLen modulo 2^64, with the carry as the code finds it |
| Md5.Context.Update | software/das/sdccp/cc_md5.c:81-113 | the context stands for everything written, and the counter for its bit length modulo 2^64 |
| Md5.Context.PadBuffer | software/das/sdccp/cc_md5.c:130-135 | feeding PADDING through the update leaves 56 bytes of a block and the padded message |
| Md5.Context.Final | software/das/sdccp/cc_md5.c:119-156 | the digest bytes are the one-shot digest of the message |
| Md5.FinalWords | software/das/sdccp/cc_md5.c:119-156 | the state the streaming code ends in determines the fold over the whole padded message |
| Md5.HashChunks | software/das/reg/rtu_md5.c:53-153 | both copies, over any split of the message, compute the same digest: that of sections 3.1 to 3.5 of RFC 1321 |
| DesCipher.IpThenFp | software/das/reg/rtu_des.c:203-225 | DES_FP undoes DES_IP |
| DesCipher.FpThenIp | software/das/reg/rtu_des.c:203-225 | DES_IP undoes DES_FP |
| DesCipher.RoundsUnwind | software/das/reg/rtu_des.c:228-240 | the Feistel rounds unwind under the reversed schedule, whatever the tables hold |
| DesCipher.AllUnwind | software/das/reg/rtu_des.c:319-341 | every buffer of whole blocks is recovered under the reversed schedule, for every table and schedule |
| Des.Context.MainKs | software/das/reg/rtu_des.c:242-305 | the array holds the sixteen subkeys in order |
| Des.Context.SetKey | software/das/reg/rtu_des.c:307-317 | dsk holds the same pairs in reverse order |
| Des.Crypt | software/das/reg/rtu_des.c:319-341 | eight bytes of the output become the enciphered block, the rest of the buffer is untouched |
| Des.CryptBuffer | software/das/reg/rtu_des.c:359-367 | block after block, also when input and output are one buffer; the bytes behind the span stay |
| Des.Encrypt | software/das/reg/rtu_des.c:355-368 | the returned length is what is left of the counter, never positive |
| Des.Decrypt | software/das/reg/rtu_des.c:371-385 | the same buffer loop under the reversed schedule |
| Des.EncryptDecrypt | software/das/reg/rtu_des.c:355-385 | for every key and every buffer of whole blocks each direction undoes the other |
| Des.InPlaceRoundTrip | software/das/reg/rtu_des.c:355-385 | encrypting and then decrypting in place restores the buffer |
| DesIsStandard.IpIs | software/das/reg/rtu_des.c:203-212 | DES_IP is the initial permutation of FIPS 46-3 with both halves turned one place |
| DesIsStandard.FpIs | software/das/reg/rtu_des.c:215-225 | DES_FP of turned halves is the final permutation |
| DesIsStandard.LookupsAre | software/das/reg/rtu_des.c:9-183 | the eight combined tables are the eight selection functions under the permutation P |
| DesIsStandard.RoundIs | software/das/reg/rtu_des.c:228-240 | a round combines in f(R, K) of the standard, for every R and subkey |
| DesIsStandard.KeyHalvesAre | software/das/reg/rtu_des.c:246-265 | exchanges and spreading tables are permuted choice 1 |
| DesIsStandard.WordsAreChoice2 | software/das/reg/rtu_des.c:282-303 | the two masked words of a round are permuted choice 2 |
| DesIsStandard.KeysAre | software/das/reg/rtu_des.c:242-305 | the schedule is KS of the standard, K1 to K16, for every key |
| DesIsStandard.CipherIs | software/das/reg/rtu_des.c:319-341 | one block under a schedule is the enciphering computation of the standard |
| DesIsStandard.EncryptionIsDes | software/das/reg/rtu_des.c:355-385 | for every key and buffer, encryption and decryption are those of FIPS 46-3, block by block |
| RegId.RegetId | software/das/reg/rtu_reg.c:156-179 | the id is encrypt-decrypt-encrypt of the forty-character layout, and its length is 40 |
| RegId.LayoutReads | software/das/reg/rtu_reg.c:168-172 | of the ten digits of part i the first two read as byte i of the code, and the other eight and word i of the identity add up to 2^32 - 1 |
| RegId.Recover | software/das/reg/rtu_reg.c:174-178 | the three passes can be taken back in reverse order |
| RegId.IdInjective | software/das/reg/rtu_reg.c:168-178 | two registrations with the same id have the same code and hardware identity |
| Hex.HexByteRoundTrip | software/das/board/xfer_net.c:25-37 | two upper-case digits read back as the byte they were printed from |
| Hex.NumberOfByte | software/das/reg/rtu_reg.c:168-172 | the two digits of a byte, read as a hexadecimal number, are the byte |
| Hex.NumberOfWord | software/das/reg/rtu_reg.c:168-172 | and the eight digits of a word are the word |
| Crc16.TableStep | software/das/das_util.c:300-311 | one step through the two byte tables is eight shifts of the reflected polynomial 0xA001 |
| Crc16.DasCrc16 | software/das/das_util.c:300-311 | the table loop is the bitwise CRC of section 6.2.2 of MODBUS over Serial Line V1.02 |
| Crc16.FrameCheck | software/das/das_util.c:300-311 | the CRC of a frame is zero if and only if its last two bytes are the CRC of the rest, low byte first |
| Crc32.TableStep | software/das/board/rtcrc32.c:60-71 | one table step is eight shifts of the polynomial 0xEDB88320 |
| Crc32.RtCrc32 | software/das/board/rtcrc32.c:60-71 | the table loop is the bitwise CRC of section 8 of RFC 1952 |
| Crc32.CrcConcat | software/das/board/rtcrc32.c:60-71 | the CRC composes over concatenation, so over any chunking |
| Crc32.Residue | software/das/board/rtcrc32.c:60-71 | data with their own check behind them, low-order byte first, always leave the check 0x2144DF1C |
| Crc32.ZeroSeen | software/das/board/rtcrc32.c:60-71 | leading zeros are seen: a single zero byte has the check 0xD202EF8D |
| CrcCcitt.TableStep | software/das/sdccp/cc_bjdc.c:131-158 | one table step is eight shifts of the polynomial 0x1021, most significant bit first |
| CrcCcitt.GetCrc16 | software/das/sdccp/cc_bjdc.c:150-158 | the table loop is the bitwise CRC with initial value 0 |
| CrcFold.RunConcat | software/das/board/rtcrc32.c:60-71 | a byte-wise register run over a concatenation is the two runs in turn |
| ModbusGateway.AsciiLrc | software/das/board/xfer_net.c:27-46 | the loop returns minus the sum of the character pairs behind the colon, for every length |
| ModbusGateway.Receive | software/das/board/xfer_net.c:59-88 | RTU: accepted exactly with 4 or more bytes ending in their check; ASCII: exactly with 7 or more whose pair sum is 0; and with which slave address |
| ModbusGateway.AsciiAccepts | software/das/board/xfer_net.c:27-46 | a well-formed frame is accepted if and only if its last byte is the two's complement of the sum of the others |
| ModbusGateway.AsciiAddress | software/das/board/xfer_net.c:48-57 | the address taken from a well-formed frame is its first byte |
| Update.Disk.FileCrc | software/das/board/update.c:127-146 | the accumulated check is that of the whole file, however the reads cut it; 0 for a missing file |
| Update.Disk.BodyCrc | software/das/board/update.c:76-94 | the check of the next length bytes, or of what the image still has |
| Update.Disk.CheckSegments | software/das/board/update.c:69-106 | after any number of rounds the loop stands where the step relation leads, a seek by a length word of 2^31 or more going back |
| Update.Disk.UpdateCheck | software/das/board/update.c:53-125 | what the function has returned after that many rounds, if anything, and that a refused image and nothing else is removed |
| Update.Disk.WriteBody | software/das/board/update.c:176-204 | the target file becomes exactly the body, as far as the image holds it; written to the image itself, it truncates it and nothing is left to read |
| Update.Disk.DoSegments | software/das/board/update.c:163-213 | files and position after any number of rounds, seeks that go back included |
| Update.Disk.UpdateDo | software/das/board/update.c:148-221 | the whole new state of the disk after that many rounds, and whether the function has returned |
| Update.Disk.CheckAndDo | software/das/board/update.c:223-228 | where no seek goes back, a good image is accepted and its segments are applied in order; then every non-firmware file has the check of its header if and only if the segments agree on each path |
| Update.CheckedExactly | software/das/board/update.c:53-125 | where no firmware segment seeks back, the check returns whether the image is acceptable |
| Update.PerformedExactly | software/das/board/update.c:148-221 | where no skipped segment seeks back, the files besides the image become those of the segments applied in order |
| UpdateWalk.CheckInOrderExactly | software/das/board/update.c:69-106 | the check ends with the segments read in order if and only if no firmware segment, up to the first wrong one, seeks back to a whole header |
| UpdateWalk.CheckEndsExactly | software/das/board/update.c:69-106 | the check of an image ends at all if and only if it has ended after one round more than the image has bytes |
| UpdateWalk.DoInOrderExactly | software/das/board/update.c:163-213 | applying ends with the segments read in order if and only if no segment skipped in its turn seeks back and none but the last is written to the image |
| UpdateWalk.ApplyAgainExactly | software/das/board/update.c:168-172 | an applied image is applied again in order, by the skip branch throughout and with nothing changed, if and only if no segment at all seeks back |
| UpdateWalk.FirmwareLoops | software/das/board/update.c:100-102 | a firmware segment with length word 0xFFFFFE78 is checked for ever |
| UpdateWalk.MissingFileLoops | software/das/board/update.c:169-172 | the same length with check 0 and a missing file passes the check and is applied for ever |
| UpdateImage.AppliedExactly | software/das/board/update.c:148-221 | a checked image is applied in full if and only if its segments agree on each path |
| UpdateImage.ApplyAgain | software/das/board/update.c:168-172 | once applied, every segment is one to skip, and applying the list again changes nothing |
| Hjt212Frame.GetCrc16 | software/das/sdccp/hjt212.c:49-83 | the loops compute the check of Appendix A of HJ 212-2017 |
| Hjt212Frame.HexTextReads | software/das/sdccp/hjt212.c:153-154 | the four characters of a check, read as a hexadecimal number, are the check |
| Hjt212Frame.FrameAt | software/das/sdccp/hjt212.c:416-526 | two hashes, the length as a decimal number in four characters, the payload, its check as a hexadecimal number in four, CR LF, each at its place |
| Hjt212Frame.FeedConcat | software/das/sdccp/hjt212.c:111-173 | feeding a stream is feeding its parts in turn, so chunking does not matter |
| Hjt212Frame.HoldPrefix | software/das/sdccp/hjt212.c:120-137 | from two hashes on, bytes are only stored as long as no end mark shows at 18 or later |
| Hjt212Frame.QuietExactly | software/das/sdccp/hjt212.c:136 | an end mark shows early in a frame if and only if the payload holds a CR LF pair from its eleventh byte on |
| Hjt212Frame.AcceptsOnlyWhole | software/das/sdccp/hjt212.c:139-160 | a frame cut at an end mark passes the length and check tests only at its true end |
| Hjt212Frame.Delivers | software/das/sdccp/hjt212.c:111-173 | a deliverable payload arrives unchanged, whatever the buffer held, and the receiver is reset |
| Hjt212Frame.DeliversExactly | software/das/sdccp/hjt212.c:111-173 | a frame delivers its payload and nothing else if and only if the payload has 6 to 2035 bytes and no CR LF pair from its eleventh byte on |
| Hjt212Frame.StreamDelivers | software/das/sdccp/hjt212.c:111-173 | any concatenation of frames delivers exactly the payloads, in order |
| Hjt212Frame.Deaf | software/das/sdccp/hjt212.c:123-131 | after a first byte that is no hash the receiver never delivers again |
| Hjt212Frame.RetainedHash | software/das/sdccp/hjt212.c:123-131 | a retained hash outlives any stream without a hash |
| Hjt212Frame.RetainedDelivers | software/das/sdccp/hjt212.c:123-131 | a retained hash stands for the first byte of the next frame |
| Hjt212Receiver.Receiver.PutBytes | software/das/sdccp/hjt212.c:111-173 | the loop over the buffer in place is the byte machine, across calls |
| Hjt212Receiver.ReceiveChunks | software/das/sdccp/hjt212.c:111-173 | frames back to back, cut anywhere into calls, give the payloads in order and a reset receiver |
| Hjt212Fields.PutField | software/das/sdccp/hjt212.c:419-476 | one field block appends key, value cut at its limit, and separator |
| Hjt212Fields.PutDigits | software/das/sdccp/hjt212.c:506-510 | four decimal digits written from the last one back, the rest untouched |
| Hjt212Fields.Encode | software/das/sdccp/hjt212.c:416-526 | the buffer holds the frame of the payload of the fields, its length is returned, and the four characters before the CR LF read as the check of the payload |
| Hjt212Fields.PayloadSpelt | software/das/sdccp/hjt212.c:419-504 | the seven fields in their order, each with its key, cut at its limit, and its separator |
| Hjt212Fields.KeysSpelt | software/das/sdccp/hjt212.c:419-457 | the keys of the first four fields, character by character |
| Hjt212Fields.MoreKeysSpelt | software/das/sdccp/hjt212.c:466-504 | the other three keys and the separator |
| Hjt212Parse.KeyFound | software/das/sdccp/hjt212.c:208-243 | a key is first found where it was written, behind text that uses other keys |
| Hjt212Parse.EntryFound | software/das/sdccp/hjt212.c:208-243 | every field of a clean header is read back, whatever follows the header |
| Hjt212Parse.FieldsRecovered | software/das/sdccp/hjt212.c:194-243 | every present field is recovered as the encoder cut it, even when the command part repeats its key |
| Hjt212Parse.AbsentFields | software/das/sdccp/hjt212.c:208-243 | a field that was not written is read as if the search began behind the header, in the command part and the memory after it; behind an empty flag it reads nothing |
| Hjt212Parse.EmptyExactly | software/das/sdccp/hjt212.c:208-243 | a field is read as empty if and only if its key does not occur, or a semicolon or the end follows its first occurrence |
| Hjt212Parse.FlagRecovered | software/das/sdccp/hjt212.c:239-243 | the flag is recovered as its first character, or as nothing when it was empty |
| Hjt212Parse.CpRecovered | software/das/sdccp/hjt212.c:245-253 | a non-empty command part without ampersands is recovered up to 1024 characters, behind a non-empty or absent flag |
| Hjt212Parse.EndToEnd | software/das/sdccp/hjt212.c:111-253 | from the encoder through any reset receiver to the parser: all fields come back |
| BjdcFrame.LengthTest | software/das/sdccp/cc_bjdc.c:191 | the 32-bit sum of the length test has one solution only |
| BjdcFrame.FrameAt | software/das/sdccp/cc_bjdc.c:548-567 | preamble, length of type and body as a number, type 0, body, check and end mark, each at its place |
| BjdcFrame.CheckBytesRead | software/das/sdccp/cc_bjdc.c:565-567 | the two bytes behind the body are the low and then the high byte of the check |
| BjdcFrame.FeedConcat | software/das/sdccp/cc_bjdc.c:161-214 | feeding a stream is feeding its parts in turn |
| BjdcFrame.QuietExactly | software/das/sdccp/cc_bjdc.c:183 | the end mark shows early if and only if it occurs from the third byte of the body to the end of the check |
| BjdcFrame.AcceptsOnlyWhole | software/das/sdccp/cc_bjdc.c:185-201 | a frame cut at an end mark passes the tests only at its true end |
| BjdcFrame.DeliversExactly | software/das/sdccp/cc_bjdc.c:161-214 | a frame delivers its deciphered body and nothing else if and only if it fits the buffer and has no early end mark |
| BjdcFrame.StreamDelivers | software/das/sdccp/cc_bjdc.c:161-214 | any concatenation of frames delivers exactly the bodies, in order, although deciphering overwrites the buffer |
| BjdcFrame.Deaf | software/das/sdccp/cc_bjdc.c:171-179 | after two first bytes that do not start the preamble the receiver never delivers again |
| BjdcFrame.RetainedDelivers | software/das/sdccp/cc_bjdc.c:171-179 | two retained preamble bytes stand for the first two of the next frame |
| BjdcLink.SendXmlPack | software/das/sdccp/cc_bjdc.c:542-576 | the sent buffer is the frame of the enciphered, padded text |
| BjdcLink.Receiver.PutBytes | software/das/sdccp/cc_bjdc.c:161-214 | the loop over the buffer in place is the byte machine, across calls |
| BjdcLink.ReceiveChunks | software/das/sdccp/cc_bjdc.c:161-214 | frames cut anywhere into calls give the bodies in order and a reset receiver |
| BjdcLink.TextArrives | software/das/sdccp/cc_bjdc.c:193-200 | the parser reads the sent text back as the C string it is handed, if deciphering undoes enciphering |
| Dlt645.SumIsModular | software/das/sdccp/dlt645.c:52-60 | the byte sum is the arithmetic sum modulo 256 |
| Dlt645.SumSeesChange | software/das/sdccp/dlt645.c:52-60 | the sum differs after any change of one byte |
| Dlt645.CheckSum | software/das/sdccp/dlt645.c:52-60 | the loop computes the running sum |
| Dlt645.FrameAt | software/das/sdccp/dlt645.c:68-107 | 68H, six address bytes, 68H, control, length and data, each at its place, then the sum of all before modulo 256, and 16H |
| Dlt645.Packets.CreatePaket | software/das/sdccp/dlt645.c:68-107 | the static buffer holds the frame; a null data pointer leaves the length field and no data |
| Dlt645.PutBytes | software/das/sdccp/dlt645.c:424-453 | skip, marker tests, checksum test and hand-over decide as the receive function, or the code reads behind the message |
| Dlt645.RoundTripExactly | software/das/sdccp/dlt645.c:424-453 | behind noise the parser reads the address, control, length and data of the frame if and only if the noise, from its first 68H on, sums to zero and starts, with the frame behind it, like the frame |
| Dlt645.RoundTrip | software/das/sdccp/dlt645.c:424-453 | so it does behind any noise without a 68H |
| Dlt645.CopyAhead | software/das/sdccp/dlt645.c:424-453 | for every frame there is also noise that starts with a 68H behind which it does |
| Dlt645.SingleByteError | software/das/sdccp/dlt645.c:439-446 | any change of one byte behind the first makes a frame rejected |
| Dlt645.LengthUnchecked | software/das/sdccp/dlt645.c:424-453 | a frame passes whatever its length field says, and what the field announces is data of the message if and only if there are as many |
| Dlt645.MarkerRoundTrip | software/das/sdccp/dlt645.c:201-203 | adding and subtracting 0x33333333 undo each other modulo 2^32 |
| Dlt645.MarkerPerByte | software/das/sdccp/dlt645.c:201-203 | the word addition is the per-byte rule of section 5.2 of DL/T 645-2007 if and only if the three low bytes are at most 0xCC |
| Dlt645.MarkerSeenExactly | software/das/sdccp/dlt645.c:402-412 | a marker biased byte by byte is read back if and only if its three low bytes are at most 0xCC |
| Dlt645.ReplyUnderstood | software/das/sdccp/dlt645.c:402-412 | a reply with every byte biased gives its marker and its value bytes back, behind any noise without a 68H, if and only if the three low bytes of the marker are at most 0xCC |
| Dlt645.VoltageBlockLost | software/das/sdccp/dlt645.c:201-217 | the marker 0x0201FF00 of the voltage block comes back as 0x0200FF00 |
| Dlt645.DataToText | software/das/sdccp/dlt645.c:221-241 | the data are un-biased in place and printed last byte first |
| Dlt645.ValueRead | software/das/sdccp/dlt645.c:221-241 | a biased packed decimal of one to four bytes is printed as the number it stands for |
| Dlt645.DemandRead | software/das/sdccp/dlt645.c:221-241 | of the eight biased bytes of a maximum demand the last three are printed as the number they stand for |
| ByteRing.ReadAfterWrite | software/das/sdccp/bfifo.c:178-187 | the two-segment write behind what is stored appends to what the two-segment read returns |
| ByteRing.EmptyWakeup | software/das/sdccp/bfifo.c:165-253 | waking with nothing to take, or with no room, changes nothing |
| ByteRing.StepRefines | software/das/sdccp/bfifo.c:165-253 | each locked section is one step of a bounded queue, counter wrap-around included |
| ByteRing.RunRefines | software/das/sdccp/bfifo.c:165-253 | every run hands out what the bounded queue hands out, if the size divides 2^32 or the bytes since a reset stay below 2^32 |
| ByteRing.WrapBreaks | software/das/sdccp/bfifo.c:176-190 | for any other size, two bytes pushed across the wrap are not read back |
| ByteRing.RefinesExactly | software/das/sdccp/bfifo.c:105-253 | all runs refine the bounded queue if and only if the size divides 2^32 |
| ByteFifo.Fifo.PushEnter | software/das/sdccp/bfifo.c:168-175 | a push proceeds exactly when there is room, gives up exactly when full without timeout, and otherwise waits |
| ByteFifo.Fifo.PushFinish | software/das/sdccp/bfifo.c:176-195 | the section after the wait clamps again and appends the longest prefix that fits |
| ByteFifo.Fifo.PullEnter | software/das/sdccp/bfifo.c:222-229 | the same three ways for a pull |
| ByteFifo.Fifo.PullFinish | software/das/sdccp/bfifo.c:230-249 | the section after the wait takes the longest prefix available |
| ByteFifo.Fifo.Peek | software/das/sdccp/bfifo.c:255-277 | the bytes a pull would take, with nothing changed, from a queue that is not empty |
| ByteFifo.Fifo.Count | software/das/sdccp/bfifo.c:279-287 | the number of bytes stored |
| ByteFifo.Fifo.Reset | software/das/sdccp/bfifo.c:136-146 | nothing is stored afterwards |
| MsgRing.SendAppends | software/das/block_msg_queue.c:90-112 | a send appends the padded message, or reports FULL exactly at the requested capacity, or SIZE |
| MsgRing.TakeFirst | software/das/block_msg_queue.c:148-152 | from a queue with messages the oldest is taken |
| MsgRing.EmptyTake | software/das/block_msg_queue.c:148-152 | a take from an empty queue makes the queue read as full, and every send fail |
| BlockMsgQueue.MsgQueue.constructor | software/das/block_msg_queue.c:15-38 | one slot more than asked for, all slots distinct, queue empty |
| BlockMsgQueue.MsgQueue.Send | software/das/block_msg_queue.c:90-112 | indices, slots and result are those of the send on values |
| BlockMsgQueue.MsgQueue.RecvEnter | software/das/block_msg_queue.c:115-145 | refused, taken or waiting, and what each leaves of the queue |
| BlockMsgQueue.MsgQueue.RecvWake | software/das/block_msg_queue.c:148-152 | the section after the wait takes without looking |
| BlockMsgQueue.MsgQueue.Messages | software/das/block_msg_queue.c:68-77 | the modular difference is the number of stored messages |
| BlockMsgQueue.MsgQueue.Remain | software/das/block_msg_queue.c:79-88 | stored and remaining messages add up to the requested capacity |
| BlockMsgQueue.MsgQueue.Reset | software/das/block_msg_queue.c:57-66 | the queue is empty afterwards |
| MsgQueueRuns.StepExactly | software/das/block_msg_queue.c:90-160 | a locked section is a step of a plain queue if and only if it is not a wakeup on an empty queue, for any number of senders and receivers |
| MsgQueueRuns.WaitsExactly | software/das/block_msg_queue.c:115-145 | the wait of a receive can run out if and only if the queue was empty, the size fits and the timeout is positive; with timeout 0 nothing waits |
| MsgQueueRuns.WakesExactly | software/das/block_msg_queue.c:90-112 | an accepted send wakes the receiver it signals and no other, a refused one wakes nobody |
| MsgQueueRuns.FirstInFirstOut | software/das/block_msg_queue.c:90-160 | in every run without a reset and without such a wakeup, received messages are the accepted ones in order, none lost or made up |
| MsgQueueRuns.OneReceiver | software/das/block_msg_queue.c:115-160 | no second receiver, no spurious wakeup and no reset between signal and wakeup: no wait ends on an empty queue |
| MsgQueueRuns.OneReceiverInOrder | software/das/block_msg_queue.c:90-160 | one receiver of whole messages gets a prefix of the accepted ones, in lock order |
| MsgQueueRuns.PoliteExactly | software/das/block_msg_queue.c:115-160 | without spurious wakeups and resets before a wakeup, no wait of any run ends on an empty queue if and only if there is no second receiver |
| MsgQueueRuns.TwoReceivers | software/das/block_msg_queue.c:121-144 | with any number of receivers from two on, one can leave another to wake on an empty queue |
| MsgQueueRuns.SpuriousWakeup | software/das/block_msg_queue.c:121-144 | so can a spurious wakeup |
| MsgQueueRuns.ResetRace | software/das/block_msg_queue.c:57-66 | and a reset between signal and wakeup |
| ZigbeeTable.InsertReplaces | software/das/board/zgb_std.c:111-147 | a scan replaces the addresses of its kind and leaves the other kinds alone, and no kind is listed twice |
| ZigbeeTable.InsertUnique | software/das/board/zgb_std.c:266-316 | an insert keeps netids unique and at most one list of a kind on a node |
| ZigbeeTable.LookupAfterInsert | software/das/board/zgb_std.c:178-192 | after a scan its netid is found where it was or at the end; every other lookup is as before |
| ZigbeeTable.RemoveUnique | software/das/board/zgb_std.c:226-248 | a removal unlists its netid and keeps every other node |
| ZigbeeTable.PassUnique | software/das/board/zgb_std.c:331-362 | a check keeps netids and kinds unique |
| ZigbeeTable.PassExactly | software/das/board/zgb_std.c:331-362 | a node stays listed if and only if its own test keeps it, and a node online at the start always does |
| ZigbeeTable.JudgeExactly | software/das/board/zgb_std.c:340-358 | where three learn steps and one more do not overflow, the 32-bit test compares true times |
| ZigbeeTable.RunOk | software/das/board/zgb_std.c:226-362 | every run of scans, checks and removals keeps the table unique and each record with the time of its last scan, whatever the clock and the learn step |
| ZigbeeRecords.RunTold | software/das/board/zgb_std.c:226-362 | in every run every record has the workmode and signal of the last scan of its netid, the mac of the scan that listed it, as uptime the time of the first scan since it was listed or last marked offline, as offtime 0 or the time of that mark set back, and of every kind the addresses of the last scan of that kind |
| ZigbeeRecords.RunInOrder | software/das/board/zgb_std.c:226-362 | in every run the nodes stand in the order in which they were listed |
| ZigbeeRecords.LifeExactly | software/das/board/zgb_std.c:226-362 | after each step of any run, exactly when a netid is listed and when it is online |
| ZigbeeTable.RunTimes | software/das/board/zgb_std.c:226-362 | under a monotone clock and with such a step, no record is marked too early or set back too far in any run |
| ZigbeeTable.DroppedOffline | software/das/board/zgb_std.c:340-358 | in every run, a node that a check drops was offline when the check began |
| ZigbeeTable.AlwaysLateExactly | software/das/board/zgb_std.c:331-362 | every drop of every run under a monotone clock comes at least eleven learn steps after the last scan if and only if ten steps do not overflow, or overflow to more than is left of the clock behind a mark |
| ZigbeeTable.NeverDropped | software/das/board/zgb_std.c:349 | in the second case no check of any such run drops a node |
| Zigbee.MNode.FindAddr | software/das/board/zgb_std.c:53-70 | the nested walk finds an address of a kind if and only if it is listed |
| Zigbee.MNode.RmOne | software/das/board/zgb_std.c:73-94 | the doubly linked list loses exactly the first list of the kind and stays linked |
| Zigbee.MNode.InsertSub | software/das/board/zgb_std.c:111-147 | the old list of the kind goes, the new one stands at the end, links intact |
| Zigbee.Registry.FindNet | software/das/board/zgb_std.c:178-192 | the node of the netid, or null |
| Zigbee.Registry.FindAddr | software/das/board/zgb_std.c:195-210 | the first node with the address, or null |
| Zigbee.Registry.Unlink | software/das/board/zgb_std.c:235-240 | one node leaves the doubly linked list, everything else as before |
| Zigbee.Registry.RmWithId | software/das/board/zgb_std.c:226-248 | the table is the old one without the netid, links intact |
| Zigbee.Registry.Insert | software/das/board/zgb_std.c:266-316 | the table is the old one after the scan, list nodes of different nodes stay apart |
| Zigbee.Registry.Num | software/das/board/zgb_std.c:318-329 | the number of nodes listed |
| Zigbee.Registry.RmAll | software/das/board/zgb_std.c:251-263 | an empty table |
| Zigbee.Registry.CheckOnline | software/das/board/zgb_std.c:331-362 | the pass with removals on the way leaves exactly the kept nodes, links intact |
| StateCells.OpenTidyExactly | software/das/board/net_helper.c:74-102 | an open keeps one node a socket if and only if the socket is not open behind a cleared node |
| StateCells.ShadowSurvives | software/das/board/net_helper.c:74-122 | otherwise the socket stays in the list after its close |
| StateCells.ReopenSame | software/das/board/net_helper.c:74-102 | a second open at once finds the same node and changes nothing |
| StateCells.CloseTidy | software/das/board/net_helper.c:105-122 | after a close the socket is not found, and one node a socket remains |
| StateCells.RunStands | software/das/board/net_helper.c:44-122 | every careful run keeps the list in step with a map of the open sockets |
| StateCells.ListIsBook | software/das/board/net_helper.c:44-122 | the list finds exactly the open sockets with their own fields, and is as long as the most ever open at once |
| StateCells.ClientIsCareful | software/das/board/net_helper.c:628-679 | the TCP client's order, open, write, open again, is careful |
| NetStates.States.Get | software/das/board/net_helper.c:44-57 | the node of the socket, or null |
| NetStates.States.OpenState | software/das/board/net_helper.c:74-102 | the linked list changes as the sequence of cells does, and the returned node is the one opened |
| NetStates.States.CloseState | software/das/board/net_helper.c:105-122 | one node is cleared and stays linked, no other is touched |
| MeterGroups.FirstsDistinct | software/das/sdccp/sdccp_mqtt.c:207-223 | no meter appears twice among the firsts |
| MeterGroups.FirstsNames | software/das/sdccp/sdccp_mqtt.c:207-223 | the firsts name exactly the meters of the variables |
| MeterGroups.DropLater | software/das/sdccp/sdccp_mqtt.c:207-223 | deleting a later variable of a meter does not change the firsts |
| MeterGroups.PlacesAll | software/das/sdccp/sdccp_mqtt.c:376-387 | a group holds all variables of its meter and no other |
| MeterGroups.PlacesAscend | software/das/sdccp/sdccp_mqtt.c:376-387 | in their original order |
| MeterGroups.GroupIsPlaces | software/das/sdccp/sdccp_mqtt.c:376-387 | a group is the variables at those places |
| MeterGroups.StablePartition | software/das/sdccp/sdccp_mqtt.c:358-392 | every variable is in exactly one group, and the counts add up to var_nums |
| MqttGrouping.DelStruct | software/das/sdccp/sdccp_mqtt.c:197-205 | the variables behind k move down by one |
| MqttGrouping.DropEqual | software/das/sdccp/sdccp_mqtt.c:213-218 | one pass, although it skips the variable moved into a deleted place, keeps the firsts, and deletes nothing only if no later variable is equal |
| MqttGrouping.FindKey | software/das/sdccp/sdccp_mqtt.c:207-223 | the restarting search ends with exactly the first variable of each meter, in order of first occurrence |
| MqttGrouping.GroupVars | software/das/sdccp/sdccp_mqtt.c:358-392 | each used row is the group of its meter under its name |

## Left out

- Sockets, select loops, serial ports, the database, CGI, JSON and XML conversion, time strings and logging: effects around the modelled logic.
- AES, atof, printf and the C library: `InPlace` and `Inverse` state what is needed of the block cipher, and texts stand for what is handed to atof.
- Null handles and failed allocations: the functions that only return an error for them are modelled for live handles and successful allocations.
- Freed memory: nodes taken out of a list are not reused, so the model does not see a stale pointer to one.
- The target is 32-bit little-endian ARM: `off_t` and `int` have 32 bits, plain `char` is unsigned; a seek forward past 2^31 is taken to leave the position behind the end of the image, as the kernel's 64-bit position does.
- Md5.Enc: the two CRC functions of rtu_md5.c are arbitrary functions here, because they are never called with a positive length.
- Md5Sine.ConstantsAreSines: that the sine and cosine of analysis have these properties is not part of this model.
- Md5.Context.Update: one call takes fewer than 2^32 bytes, the range of its length argument.
- Des.Encrypt: a length that is no multiple of 8 is rounded up to whole blocks, which must lie in both buffers, as in the C loop.
- ModbusGateway.AsciiAccepts: frames below 2^16 characters, because the length argument of the LRC function has 16 bits; Receive covers the truncation.
- Update.Disk.UpdateDo: I/O errors and the making of directories are left out; `rounds` bounds the loop, so that a run that does not end can be spoken of.
- UpdateWalk.DoInOrderExactly: when a run that steps back ends all the same is characterised for the check (`CheckEndsExactly`), not for applying.
- Hjt212Frame.Accepts: the length test decides first, while the C code computes the check over the announced length before it and can then read behind the buffer.
- Hjt212Fields.Encode: the terminating NUL that sprintf writes behind each pair of digits is overwritten by what follows and not shown.
- BjdcLink.SendXmlPack: texts within the 32-bit address space, where RT_ALIGN does not wrap.
- Dlt645.PutBytes: reads behind a message that is too short are reported as Outside and not modelled further; the signed conversion of the same file is left out, because its sign test is always taken for a non-zero byte.
- Dlt645.Packets.CreatePaket: at most 52 data bytes, the room of the static buffer.
- ByteFifo.Fifo.Peek: on an empty queue the C function returns with the lock held; only the other case is modelled. The descriptor registry of the same file is left out.
- BlockMsgQueue.MsgQueue.Send: message sizes are not negative; timeouts are a choice of the run and not a clock.
- NetStates.States.Get: one interface's list; the lookup by port is the same walk.
- MqttGrouping.GroupVars: fewer than 128 variables and at most 32 meters, the sizes of the static arrays; the averages are one value.

# A verified model of the utilities' hard kernels

The repository is a collection of C utilities. This project models the parts of it that carry
real proofs, states what each is for, and proves it for every input, every run or every
interleaving. Loops stay loops, buffers written in place stay arrays, and objects whose fields
change stay classes; each such method is proved against a specification function, and what the
code promises is proved about that function.

| module | models |
|---|---|
| GaloisField, AesCipher, AesKeySchedule, AesInPlace | the AES-128 block cipher (FIPS 197, sections 4 and 5), its algebra, and the in-place round steps of `aes.c` |
| AesExample | the example of FIPS 197, appendices A.1 and B, round by round |
| AesCbc, AesCtr, AesPkcs7 | CBC and CTR modes with the initial vector carried in the context (NIST SP 800-38A, sections 6.2 and 6.5) and the padding of section 6.3 of RFC 5652 |
| Md5Spec, Md5 | RFC 1321, sections 3.1 to 3.5, and the incremental implementation |
| Md5Example | the digest of the empty message of RFC 1321, appendix A.5, four steps at a time |
| FrameQueue | the single-writer, single-reader ring of frames, as interleaved atomic steps |
| PsDemux | the RTP header parser and the program-stream parser that carries a cut payload across packets |
| ListHead | the intrusive circular list |
| MqttReader, MqttQueue, MqttCodec | the MQTT server's non-blocking reader, its outgoing queue, and the packet codec |
| ImageCrop | cropping and converting planar and NV12 images |
| Crc16, StrStr2, Multipart, Base64 | the checksum, the wildcard search, the multipart parser, and base 64 |
| Arithmetic, Octets, Options | division facts; bytes as integers and memcpy; a value that may be missing |

How the sources' machine types are modelled: bytes and registers whose bits are mixed are
bit-vectors of the width the code uses (AES, MD5, CRC). Where the code counts or indexes, integers
are unbounded and every truncation the code relies on is written out: the MD5 counter modulo 2^61,
the 8- and 16-bit offsets and lengths of the MQTT codec, the byte sums of base 64. Products and sums
of image sizes and buffer positions are not truncated.

Where the world decides, the model lets it decide anything the code's callers may see: `read` and
`send` return any number of bytes from one up to what was asked for, would block, or fail; the two
threads of the frame queue take their steps in any order and wake up without cause.

## What the code does not do as described

Each line names the exact condition under which the code does what it is for, and the theorem.

* A padded plaintext is recognised as padded exactly when it is not empty (`AesPkcs7.PaddingRecognised`).
* The frame queue needs two slots; with one it deadlocks (`FrameQueue.NeverBothBlocked`,
  `FrameQueue.SingleSlotDeadlocks`). In keep-last mode `next` releases the slot it moves to, so from the
  second call on no frame is kept, and the first frame is never released but written over
  (`FrameQueue.KeptBetweenCalls`, `FrameQueue.AllButTheFirstReleased`,
  `FrameQueue.FirstFrameOverwritten`).
* `strstr2` does what its comment says, on every non-empty text, exactly for the patterns without `%%` that do not
  end in `%*` or consist of `%*` only (`StrStr2.ExactlyRight`; `StrStr2.TrailingManyMisses` and
  `StrStr2.DoublePercentMisses` show one failure of each kind).
* The error code of the base 64 decoder is 1, which is also the length of a one-byte result; the result
  tells whether a text was rejected exactly when it was not and does not have two characters before the
  first outside the alphabet (`Base64.OutcomeTold`, `Base64.ErrorLooksLikeLength`).
* The publish parsers find the payload exactly when it starts within 255 bytes, and the message id
  exactly when it starts within 255 (`MqttCodec.PublishParsed`, `MqttCodec.MsgIdParsed`); the string builder
  agrees with the data builder exactly while the remaining length, as 16 bits keep it, is at most 16383
  (`MqttCodec.BuildersAgree`).
* An RTP packet's payload is found exactly when the packet lists no contributing source, or by accident of
  the first identifier listed (`PsDemux.PayloadFound`).
* A publish reports success exactly when its send callback returns the size of the packet, or more, or a
  negative number, since the comparison is unsigned (`MqttCodec.VerdictExact`, `MqttCodec.VerdictWrong`).
* When the peer closes inside a packet the reader's payload loop turns for ever; it ends exactly when the
  peer still sends what is missing (`MqttReader.Session.Turns`).
* Cropping planes to NV12 reads the V rows by the stride of U; the output is the crop exactly when the
  strides are equal or the crop is empty or of chroma line 0 only (`ImageCrop.StrideServesExactly`).
* Sixteen bits are the longest burst the checksum is sure to notice, and of those of seventeen it misses
  the polynomial only (`Crc16.BurstDetected`, `Crc16.SeventeenBitBurst`, `Crc16.PolynomialMissed`).

## Preconditions taken from the sources

* Crop rectangles and image sizes are even, as the comment on `image_crop_nv12to420p` demands, and lie
  inside their planes.
* RTP: packets of payload type 96, version 2, without padding.
* Program streams: the length of a PES packet covers its header, packets are cut only inside payloads,
  and a continuation does not begin with a start code the parser recognises.
* MQTT reader: command bytes are not zero, payloads are shorter than 2^28 bytes, a fixed header arrives
  whole, and the peer sends whole packets before it closes. A read that fails ends the session; what
  was dispatched before stays as proved.
* MQTT queue: packets pushed are not empty, which the server's never are.
* List operations get nodes that are on rings as the operation asks: an entry is on its list, a new node
  is on neither, and spliced lists share no node. Ghost parameters name the rings.
* Multipart bodies: every part has a header line, lines end in CR LF, the boundary has no CR or LF, and
  no content, preamble or epilogue contains two dashes and the boundary; a preamble ends with CR LF.

## Model

| member | source | states |
|---|---|---|
| `GaloisField.TablesInverse` | 3-work/linux/aes/aes.c:80-115 | the two substitution tables are inverse permutations of the 256 bytes, in both directions |
| `GaloisField.SBoxIsAffineOfInverse` | 3-work/linux/aes/aes.c:80-97 | the forward table is the affine map of the multiplicative inverse in GF(2^8) (zero mapped to itself), as section 5.1.1 of FIPS 197 defines it |
| `GaloisField.MultiplyIsTimes` | 3-work/linux/aes/aes.c:323-340 | on every multiplier below 2^5 the five-term product of the decryptor is multiplication in GF(2^8) |
| `AesCipher.SubBytesInverse` | 3-work/linux/aes/aes.c:257-267 | substituting and substituting back restores every state, in both orders |
| `AesCipher.ShiftRowsInverse` | 3-work/linux/aes/aes.c:272-298 | the row rotations of encryption and decryption cancel, in both orders |
| `AesCipher.MixColumnsInverse` | 3-work/linux/aes/aes.c:300-360 | the inverse column matrix undoes the forward one and the other way round |
| `AesCipher.InvCipherUndoesCipher` | 3-work/linux/aes/aes.c:407-455 | for every state and every expanded key, deciphering what was enciphered gives the state back |
| `AesCipher.CipherUndoesInvCipher` | 3-work/linux/aes/aes.c:407-455 | and enciphering what was deciphered does too: the cipher is a permutation of the states |
| `AesCipher.EachRoundKeyCounts` | 3-work/linux/aes/aes.c:407-430 | each of the eleven round keys counts: expanded keys that differ in bytes 16n to 16n + 15 only, for any n up to 10, encipher every state differently |
| `AesKeySchedule.RconIsPower` | 3-work/linux/aes/aes.c:117-122 | the round constants are the powers of x in GF(2^8) |
| `AesKeySchedule.ScheduleWord` | 3-work/linux/aes/aes.c:152-223 | word i of the flat schedule is word i of the recursive definition in section 5.2 of FIPS 197 |
| `AesKeySchedule.KeyExpansion` | 3-work/linux/aes/aes.c:152-223 | the in-place loop leaves exactly that schedule in the round-key array |
| `AesExample.Round1` | 3-work/linux/aes/aes.c:152-319 | the first round of the example in appendices A.1 and B of FIPS 197: the round key, and the state after each of the four steps, are the printed ones |
| `AesExample.CipherExample` | 3-work/linux/aes/aes.c:407-430 | ten such rounds give the ciphertext printed in appendix B, from its sixteen key bytes and its sixteen bytes of plaintext |
| `AesInPlace.AddRoundKeyInPlace` | 3-work/linux/aes/aes.c:243-253 | the round key is added to the sixteen bytes at the offset and nothing else changes |
| `AesInPlace.SubBytesInPlace` | 3-work/linux/aes/aes.c:257-267 | the in-place loop substitutes every byte of the state at the offset |
| `AesInPlace.ShiftRowsInPlace` | 3-work/linux/aes/aes.c:272-298 | the swaps through a temporary rotate row r by r places |
| `AesInPlace.MixColumnsInPlace` | 3-work/linux/aes/aes.c:306-319 | the shift-and-xor update of each column is the matrix product of section 5.1.3 of FIPS 197 |
| `AesInPlace.InvMixColumnsInPlace` | 3-work/linux/aes/aes.c:344-360 | the decryptor's column update is the inverse matrix product |
| `AesInPlace.InvSubBytesInPlace` | 3-work/linux/aes/aes.c:365-375 | the in-place loop substitutes back every byte of the state |
| `AesInPlace.InvShiftRowsInPlace` | 3-work/linux/aes/aes.c:377-403 | the swaps rotate row r back by r places |
| `AesInPlace.CipherInPlace` | 3-work/linux/aes/aes.c:407-430 | the round loop on the buffer computes the cipher of the state at the offset; bytes outside are untouched |
| `AesInPlace.InvCipherInPlace` | 3-work/linux/aes/aes.c:432-455 | the round loop with keys in reverse order computes the inverse cipher; bytes outside are untouched |
| `AesCbc.AesCtx.constructor` | 3-work/linux/aes/aes.c:230-234 | a fresh context holds the expanded key and a copy of the initial vector |
| `AesCbc.AesCtx.SetIv` | 3-work/linux/aes/aes.c:235-238 | the context holds a copy of the new initial vector |
| `AesCbc.XorWithIv` | 3-work/linux/aes/aes.c:486-493 | a block is replaced by its sum with the chaining block, which may lie earlier in the same buffer |
| `AesCbc.CbcEncryptAt` | 3-work/linux/aes/aes.c:495-509 | every ciphertext block is the cipher of its plaintext block added to the ciphertext block before it, the first one to the initial vector |
| `AesCbc.AesCtx.CbcEncryptBuffer` | 3-work/linux/aes/aes.c:495-509 | the buffer becomes its CBC encryption in place, the last ciphertext block is kept as the next initial vector, the rest of the buffer is untouched |
| `AesCbc.AesCtx.CbcDecryptBuffer` | 3-work/linux/aes/aes.c:511-524 | the buffer becomes its CBC decryption in place although each ciphertext block is overwritten before its successor is decrypted; the chaining block is carried over |
| `AesCbc.CbcDecryptUndoesEncrypt` | 3-work/linux/aes/aes.c:495-524 | CBC decryption from the same initial vector restores what was encrypted |
| `AesCbc.CbcEncryptSplits` | 3-work/linux/aes/aes.c:495-509 | encrypting in two block-aligned calls with the carried vector equals one call |
| `AesCbc.CbcDecryptSplits` | 3-work/linux/aes/aes.c:511-524 | decrypting in two block-aligned calls with the carried vector equals one call |
| `AesCbc.BlocksInjective` | 3-work/linux/aes/aes.c:495-524 | equality of blocks is equality of buffers, so the statements on blocks are statements on bytes |
| `AesCtr.IncrementIv` | 3-work/linux/aes/aes.c:547-558 | the carry loop increments the counter array in place |
| `AesCtr.IncrementedAddsOne` | 3-work/linux/aes/aes.c:547-558 | the carry loop adds one to the vector read as a big-endian number, modulo 2^128 |
| `AesCtr.CounterOfAdvance` | 3-work/linux/aes/aes.c:533-564 | after n key blocks the counter is the starting value plus n modulo 2^128 |
| `AesCtr.AdvanceTwice` | 3-work/linux/aes/aes.c:533-564 | advancing by m and then by n is advancing by m + n |
| `AesCtr.CounterPeriod` | 3-work/linux/aes/aes.c:533-564 | two counter blocks are the same if and only if their distance is a multiple of 2^128; none repeats within 2^128 steps |
| `AesCtr.CtrXcryptBuffer` | 3-work/linux/aes/aes.c:533-564 | each byte is added to its key-stream byte in place, and the vector advances by the number of blocks begun |
| `AesCtr.CtrXcryptAt` | 3-work/linux/aes/aes.c:533-564 | byte i is the old byte added to byte i mod 16 of the cipher of that block whose value, as a big-endian number, is the vector's plus i div 16, modulo 2^128 |
| `AesCtr.CtrTwiceRestores` | 3-work/linux/aes/aes.c:533-564 | applying the transformation twice from the same vector restores the data |
| `AesCtr.CtrSplits` | 3-work/linux/aes/aes.c:533-564 | block-aligned splitting with the advanced vector equals one call |
| `AesPkcs7.Pkcs7Length` | 3-work/linux/aes/aes2.c:24-28 | the padded length is the next multiple of sixteen strictly above the input length |
| `AesPkcs7.Pkcs7DecodePaddingLength` | 3-work/linux/aes/aes2.c:30-38 | a result n other than 0 means that n bytes of value n end the data and something precedes them; 0 is returned exactly when the last byte is 0, or not less than the length, or as far back as it counts there is a different byte |
| `AesPkcs7.PaddingRecognised` | 3-work/linux/aes/aes2.c:24-38 | removing the recognised padding gives the plaintext back if and only if the plaintext is not empty |
| `AesPkcs7.EncryptPkcs7` | 3-work/linux/aes/aes2.c:40-62 | the output is the CBC encryption of the input under the expanded key |
| `AesPkcs7.DecryptPkcs7` | 3-work/linux/aes/aes2.c:64-84 | the output is the CBC decryption of the input under the expanded key |
| `AesPkcs7.EncryptPkcs7Ex` | 3-work/linux/aes/aes2.c:86-115 | the output is the CBC encryption of the padded input, in a fresh buffer of the padded length |
| `AesPkcs7.PadEncryptDecryptUnpad` | 3-work/linux/aes/aes2.c:24-115 | pad, encrypt, decrypt and unpad returns the plaintext if and only if it is not empty |
| `Md5.RoundFunctions` | 3-work/linux/onvif/md5_.c:51-55 | the AND-NOT-free forms compute the auxiliary functions of RFC 1321 |
| `Md5.Round1` | 3-work/linux/onvif/md5_.c:112-128 | the sixteen steps of round 1, with the words, constants and rotations written in the code, compute what RFC 1321 specifies |
| `Md5.Round2` | 3-work/linux/onvif/md5_.c:130-146 | the sixteen steps of round 2, with the words, constants and rotations written in the code, compute what RFC 1321 specifies |
| `Md5.Round3` | 3-work/linux/onvif/md5_.c:148-164 | the sixteen steps of round 3, with the words, constants and rotations written in the code, compute what RFC 1321 specifies although two forms of one function alternate |
| `Md5.Round4` | 3-work/linux/onvif/md5_.c:166-182 | the sixteen steps of round 4, with the words, constants and rotations written in the code, compute what RFC 1321 specifies |
| `Md5.Body` | 3-work/linux/onvif/md5_.c:93-198 | the block loop folds the compression function over one or more whole blocks |
| `Md5Spec.FoldSplits` | 3-work/linux/onvif/md5_.c:93-198 | folding a concatenation at a block boundary is folding one part after the other |
| `Md5.CounterCarries` | 3-work/linux/onvif/md5_.c:215-218 | the counter split at bit 29 counts bytes: the low part wraps exactly when the high part must take a carry |
| `Md5.Md5Ctx.Init` | 3-work/linux/onvif/md5_.c:200-209 | a fresh context, with the four initial registers of the code, has absorbed the empty message |
| `Md5Example.InitialBytes` | 3-work/linux/onvif/md5_.c:202-205 | the initial registers hold the bytes 01 23 45 67 89 ab cd ef fe dc ba 98 76 54 32 10, low-order bytes first, as section 3.3 of RFC 1321 lists them |
| `Md5.Md5Ctx.Count` | 3-work/linux/onvif/md5_.c:215-218 | the two counter fields hold the byte count modulo 2^61 after the update as before |
| `Md5.Md5Ctx.Update` | 3-work/linux/onvif/md5_.c:211-243 | a context that has absorbed m has absorbed m followed by the new bytes, whatever their number: registers fold the whole blocks, the buffer holds the tail, the counter the length |
| `Md5.LengthBytes` | 3-work/linux/onvif/md5_.c:262-270 | the length field read off the split counter is the bit count of the message modulo 2^64, low byte first |
| `Md5Spec.LengthField` | 3-work/linux/onvif/md5_.c:262-270 | those eight bytes, low-order byte first, are eight times the message length modulo 2^64 |
| `Md5Spec.BytesOfWord` | 3-work/linux/onvif/md5_.c:73-88 | splitting a word into bytes, low-order byte first, undoes reading it |
| `Md5.PaddedEndInOne` | 3-work/linux/onvif/md5_.c:245-272 | when the tail leaves room, one block closes the padded message |
| `Md5.PaddedEndInTwo` | 3-work/linux/onvif/md5_.c:245-272 | when it does not, two blocks close it |
| `Md5.Md5Ctx.Final` | 3-work/linux/onvif/md5_.c:245-294 | the result is the RFC 1321 digest of the absorbed message |
| `Md5.DigestOfChunks` | 3-work/linux/onvif/md5_.c:200-294 | for every way of cutting a message into updates, empty ones included, the digest is that of the concatenation |
| `Md5Example.EmptyDigest` | 3-work/linux/onvif/md5_.c:93-293 | the digest of the empty message is d41d8cd98f00b204e9800998ecf8427e, as appendix A.5 of RFC 1321 prints it, by sixteen groups of four literal steps |
| `FrameQueue.WriterStepInv` | 3-work/ffmpeg/media_stream/media_stream.c:412-473 | every atomic step of the writer keeps the invariant |
| `FrameQueue.ReaderStepInv` | 3-work/ffmpeg/media_stream/media_stream.c:428-492 | every atomic step of the reader keeps the invariant |
| `FrameQueue.RunInv` | 3-work/ffmpeg/media_stream/media_stream.c:375-492 | the invariant holds in every state of every interleaving |
| `FrameQueue.FramesReadInOrder` | 3-work/ffmpeg/media_stream/media_stream.c:412-492 | the k-th read returns the k-th pushed frame |
| `FrameQueue.SlotsNeverCollide` | 3-work/ffmpeg/media_stream/media_stream.c:412-492 | the writer's slot is never the slot being read or released, nor that of an unread frame, nor, once a frame has been shown, the slot at rindex |
| `FrameQueue.ReaderSeesTheNextFrame` | 3-work/ffmpeg/media_stream/media_stream.c:428-441 | the slot a reader is given still holds the next unread frame, and the frame shown last is still there until it is released |
| `FrameQueue.AllButTheFirstReleased` | 3-work/ffmpeg/media_stream/media_stream.c:476-492 | every frame but the first is released exactly once, in the order pushed; the first never is |
| `FrameQueue.KeptBetweenCalls` | 3-work/ffmpeg/media_stream/media_stream.c:476-492 | the slot at rindex holds the first frame after the first call of next and nothing after any later one |
| `FrameQueue.FirstFrameOverwritten` | 3-work/ffmpeg/media_stream/media_stream.c:412-425 | the writer is given an empty slot, except for frame max_size, whose slot still holds the first frame |
| `FrameQueue.NeverBothBlocked` | 3-work/ffmpeg/media_stream/media_stream.c:412-441 | with at least two slots, writer and reader are never blocked at once, nor both asleep without a wake-up on its way |
| `FrameQueue.SingleSlotDeadlocks` | 3-work/ffmpeg/media_stream/media_stream.c:412-492 | two slots are needed: with one there is a run that leaves both sides asleep |
| `PsDemux.Demultiplexer.ParseLoop` | 3-work/linux/gb28181/udp_ps_recv.c:346-471 | the recursion over a packet changes the two globals and the output as the parse function says, and terminates |
| `PsDemux.Demultiplexer.RtpParse` | 3-work/linux/gb28181/udp_ps_recv.c:516-560 | the fixed and extended header are skipped, and payload type 96 is parsed to the end of the packet |
| `PsDemux.RtpParsed` | 3-work/linux/gb28181/udp_ps_recv.c:516-560 | a datagram that holds an RTP packet as section 5.1 of RFC 3550 lays it out, with or without header extension and without contributing sources, is parsed from the first byte of its payload to the last |
| `PsDemux.PayloadFound` | 3-work/linux/gb28181/udp_ps_recv.c:520-549 | with contributing sources the payload is found if and only if there is an extension and the low half of the first identifier happens to count the identifiers and the extension words |
| `PsDemux.UnitsParsed` | 3-work/linux/gb28181/udp_ps_recv.c:346-445 | whole packs, system headers, maps and PES units followed by a unit cut inside its payload: all payload bytes present are written, and the remaining length is what is still owed |
| `PsDemux.PacketParsed` | 3-work/linux/gb28181/udp_ps_recv.c:346-471 | for any packet cut inside a payload, output plus the bytes still owed stays the same |
| `PsDemux.NothingLost` | 3-work/linux/gb28181/udp_ps_recv.c:346-471 | after any number of RTP packets so laid out, output followed by what is still owed is the concatenation of all payloads |
| `PsDemux.DeclaredSoFar` | 3-work/linux/gb28181/udp_ps_recv.c:346-471 | bytes written plus the carried raw-data length equals the payload bytes declared so far |
| `PsDemux.StreamRecovered` | 3-work/linux/gb28181/udp_ps_recv.c:346-471 | whatever the cuts and the header extensions, the bytes written are the concatenated PES payloads |
| `PsDemux.Receive` | 3-work/linux/gb28181/udp_ps_recv.c:516-560 | the class, fed the datagrams one by one, writes what the specification function gives |
| `ListHead.InitListHead` | 3-work/linux/public_tools/list.h:76-79 | the node alone is a ring |
| `ListHead.Tests` | 3-work/linux/public_tools/list.h:216-266 | on any ring the empty, careful-empty, singular and last tests answer whether the list is empty, has one entry, or ends there |
| `ListHead.AddBetween` | 3-work/linux/public_tools/list.h:88-94 | the node is linked between two nodes |
| `ListHead.ListAdd` | 3-work/linux/public_tools/list.h:109-111 | the node becomes the first entry |
| `ListHead.ListAddTail` | 3-work/linux/public_tools/list.h:122-124 | the node becomes the last entry |
| `ListHead.DelEntry` | 3-work/linux/public_tools/list.h:133-148 | the ring closes around the entry, at any position |
| `ListHead.ListDel` | 3-work/linux/public_tools/list.h:150-154 | the entry leaves the ring and its links are the two poison values |
| `ListHead.ListDelInit` | 3-work/linux/public_tools/list.h:185-188 | the entry leaves the ring and is a ring of its own |
| `ListHead.ListReplace` | 3-work/linux/public_tools/list.h:168-173 | the new node stands in the old one's place; an empty head is replaced by an empty head |
| `ListHead.ListReplaceInit` | 3-work/linux/public_tools/list.h:175-179 | the same, and the old node is a ring of its own |
| `ListHead.ListMoveWithin` | 3-work/linux/public_tools/list.h:195-198 | moving inside one ring takes the entry out of its place and puts it first |
| `ListHead.ListMoveTailWithin` | 3-work/linux/public_tools/list.h:205-209 | moving inside one ring takes the entry out of its place and puts it last |
| `ListHead.ListMoveAcross` | 3-work/linux/public_tools/list.h:195-198 | moving between disjoint rings takes the entry out of one and puts it first in the other |
| `ListHead.ListMoveTailAcross` | 3-work/linux/public_tools/list.h:205-209 | moving between disjoint rings takes the entry out of one and puts it last in the other |
| `ListHead.ListRotateLeft` | 3-work/linux/public_tools/list.h:251-258 | the first entry becomes the last; an empty list stays |
| `ListHead.CutAt` | 3-work/linux/public_tools/list.h:268-277 | exactly the prefix through the entry moves to the new head, the rest stays in order |
| `ListHead.ListCutPosition` | 3-work/linux/public_tools/list.h:293-306 | the guards: an empty list is left alone, a head as entry cuts nothing and empties the target, otherwise the prefix is cut |
| `ListHead.SpliceBetween` | 3-work/linux/public_tools/list.h:308-318 | the entries are linked, in order, between two adjoining nodes |
| `ListHead.ListSplice` | 3-work/linux/public_tools/list.h:325-330 | the entries come in order before those of the target |
| `ListHead.ListSpliceTail` | 3-work/linux/public_tools/list.h:337-342 | the entries come in order behind those of the target |
| `ListHead.ListSpliceInit` | 3-work/linux/public_tools/list.h:351-357 | the same as splicing in front, and the source is an empty list |
| `ListHead.ListSpliceTailInit` | 3-work/linux/public_tools/list.h:367-373 | the same as splicing behind, and the source is an empty list |
| `ListHead.CutThenSplice` | 3-work/linux/public_tools/list.h:268-357 | cutting anywhere and splicing back restores the original list |
| `MqttReader.OrDisjoint` | 3-work/linux/mqtt_lib_c/main_mqtt_server.c:210-210 | or-ing in seven bits shifted past all bits present is adding them |
| `MqttReader.LengthByte` | 3-work/linux/mqtt_lib_c/main_mqtt_server.c:205-215 | each length byte adds its seven bits, the last one completes the length, and no length below 2^28 needs a fifth |
| `MqttReader.Session.ReadLength` | 3-work/linux/mqtt_lib_c/main_mqtt_server.c:205-222 | the down-counting loop ends with the length and its size |
| `MqttReader.Session.StartPayload` | 3-work/linux/mqtt_lib_c/main_mqtt_server.c:228-236 | the header is put back in front of the buffer and position plus remaining need is the packet length |
| `MqttReader.Session.ReadPayload` | 3-work/linux/mqtt_lib_c/main_mqtt_server.c:239-254 | any sequence of partial reads fills the packet in order; the consistency check that would return -402 never fires |
| `MqttReader.Session.ReadTurn` | 3-work/linux/mqtt_lib_c/main_mqtt_server.c:239-254 | one turn of the payload loop: it takes what there is, leaves when a read blocks or fails, and at the end of the flow changes nothing |
| `MqttReader.Session.Turns` | 3-work/linux/mqtt_lib_c/main_mqtt_server.c:239-254 | unless a read blocks or fails, the payload loop is over after as many turns as bytes are missing when the peer still sends them, and after no number of turns when it does not |
| `MqttReader.Session.ReadMessage` | 3-work/linux/mqtt_lib_c/main_mqtt_server.c:183-333 | one readiness event keeps the session consistent: every byte sent is dispatched, buffered or still to come |
| `MqttReader.Serve` | 3-work/linux/mqtt_lib_c/main_mqtt_server.c:183-333 | over any number of events and any schedule of partial reads, the packets dispatched are the first ones sent, each once, in order, byte for byte; when everything has been read they are all of them, also when the peer has closed |
| `MqttReader.FramingUnambiguous` | 3-work/linux/mqtt_lib_c/main_mqtt_server.c:189-254 | two packet sequences with the same bytes on the wire are the same |
| `MqttQueue.Session.PushPacket` | 3-work/linux/mqtt_lib_c/main_mqtt_server.c:119-145 | the packet is queued behind the others and the session waits for writability |
| `MqttQueue.Session.PushMsg` | 3-work/linux/mqtt_lib_c/main_mqtt_server.c:335-358 | the bytes the socket takes leave the head in order; a packet sent in full is released |
| `MqttQueue.Session.OnWritable` | 3-work/linux/mqtt_lib_c/main_mqtt_server.c:491-512 | a writability event keeps the queue consistent, and the session stays armed exactly while it is not empty |
| `MqttQueue.Run` | 3-work/linux/mqtt_lib_c/main_mqtt_server.c:119-358 | in any run of pushes and sends, bytes sent followed by bytes queued are the bytes pushed; a session that is not armed has sent everything |
| `MqttCodec.RemLenSize` | 3-work/linux/mqtt_lib_c/libemqtt.c:406-419 | the ranges of length that take one, two, three and four bytes |
| `MqttCodec.RemLenExamples` | 3-work/linux/mqtt_lib_c/libemqtt.c:406-419 | the encodings at the limits of each size and of 321, as section 2.2.3 of MQTT 3.1.1 gives them |
| `MqttCodec.RemainLen2Bytes` | 3-work/linux/mqtt_lib_c/libemqtt.c:406-419 | the loop writes the Remaining Length encoding of section 2.2.3 of MQTT 3.1.1 and nothing else |
| `MqttCodec.ParseRemLen` | 3-work/linux/mqtt_lib_c/libemqtt.c:63-80 | for every terminated field, of whatever size, the 16-bit accumulator returns the encoded value modulo 2^16 |
| `MqttCodec.RemValueOfRemLen` | 3-work/linux/mqtt_lib_c/libemqtt.c:406-419 | decoding an encoded length gives the length back |
| `MqttCodec.LengthRoundTrip` | 3-work/linux/mqtt_lib_c/libemqtt.c:46-80 | for every length below 2^28 the size function agrees with the encoder and the parser returns the length modulo 2^16 |
| `MqttCodec.Broker.PublishData` | 3-work/linux/mqtt_lib_c/libemqtt.c:421-489 | the packet handed to the send callback, the message counter modulo 2^16, and the unsigned comparison that decides the result |
| `MqttCodec.Broker.PublishWithQos` | 3-work/linux/mqtt_lib_c/libemqtt.c:335-404 | the same for the builder for strings, with its two-byte length |
| `MqttCodec.VerdictExact` | 3-work/linux/mqtt_lib_c/libemqtt.c:398-403 | a publish reports success if and only if the callback returned a negative number or at least the packet size |
| `MqttCodec.VerdictWrong` | 3-work/linux/mqtt_lib_c/libemqtt.c:482-488 | so a callback that returns -1 is taken for success, and one that returns 0, as the queue of the server does, for failure |
| `MqttCodec.BuildersAgree` | 3-work/linux/mqtt_lib_c/libemqtt.c:335-489 | the two builders emit the same packet if and only if the remaining length, as 16 bits keep it, is at most 16383 |
| `MqttCodec.PublishParsed` | 3-work/linux/mqtt_lib_c/libemqtt.c:125-186 | the topic is always recovered; the payload position is right if and only if it fits in eight bits, and then so is its length |
| `MqttCodec.MsgIdParsed` | 3-work/linux/mqtt_lib_c/libemqtt.c:82-110 | every message id of a publish comes back modulo 256 if and only if its place in the packet fits in eight bits |
| `MqttCodec.NoMsgId` | 3-work/linux/mqtt_lib_c/libemqtt.c:82-110 | a publish without quality of service has id 0 |
| `MqttCodec.OtherIdParsed` | 3-work/linux/mqtt_lib_c/libemqtt.c:101-107 | from PUBACK to UNSUBACK, whatever the flags, the length below 2^28 and what follows, the id behind the fixed header comes back modulo 256, and no byte behind it is needed |
| `MqttCodec.NoIdOutside` | 3-work/linux/mqtt_lib_c/libemqtt.c:82-110 | packets of the other types have id 0 |
| `MqttCodec.NotPublish` | 3-work/linux/mqtt_lib_c/libemqtt.c:125-186 | packets that are no publish have neither topic nor payload |
| `MqttCodec.FirstByteParsed` | 3-work/linux/mqtt_lib_c/libemqtt.c:335-489 | the first byte of a publish gives back its type, its quality of service and its retain flag |
| `ImageCrop.CropPixel` | 3-work/ffmpeg/ffmpegex.c:33-37 | pixel (r, c) of a crop is pixel (y + r, x + c) of the plane |
| `ImageCrop.Yuv420pCrop` | 3-work/ffmpeg/ffmpegex.c:5-67 | the output is the crop of the planes as the code reads them, planar or interleaved as the format asks, nothing else is written, and where the U stride serves for V it is the crop of the planes |
| `ImageCrop.StrideServesExactly` | 3-work/ffmpeg/ffmpegex.c:57-62 | the NV12 output is the crop of the planes for every content of V if and only if both strides are equal, the crop is empty, or it takes chroma line 0 only |
| `ImageCrop.MarkedPlane` | 3-work/ffmpeg/ffmpegex.c:57-62 | otherwise a V plane with a single marked sample shows the difference |
| `ImageCrop.Nv12Crop` | 3-work/ffmpeg/ffmpegex.c:69-110 | the output holds the crop of luma and chroma, interleaved or split as the format asks, and nothing else is written |
| `ImageCrop.PairedSample` | 3-work/ffmpeg/ffmpegex.c:69-110 | sample (r, c) of the chroma plane of an NV12 crop to NV12 is sample (y / 2 + r, x + c) of the source |
| `ImageCrop.SplitSample` | 3-work/ffmpeg/ffmpegex.c:69-110 | to planar, sample (r, c) of U is sample (y / 2 + r, x + 2c) of the source, and that of V the one behind it |
| `ImageCrop.ImageCropNv12To420p` | 3-work/ffmpeg/jpg_crop.c:92-117 | the separate loops with their parity test write the same as the NV12 crop to planar |
| `ImageCrop.Nv12ToYuv420p` | 3-work/ffmpeg/Tool_ffmpeg.c:400-425 | the conversion loop writes luma, then the even, then the odd chroma samples |
| `ImageCrop.Yuv420pFrameToNv12Data` | 3-work/ffmpeg/Tool_ffmpeg.c:428-457 | the conversion writes luma rows and the alternating chroma samples of the frame's planes |
| `ImageCrop.CropThenSplit` | 3-work/ffmpeg/ffmpegex.c:69-110 | cropping straight to planar equals cropping as NV12 and converting the result |
| `ImageCrop.CropAfterSplit` | 3-work/ffmpeg/ffmpegex.c:5-110 | on packed sources, converting to planar and cropping the planes equals cropping the NV12 image, in every output format |
| `ImageCrop.JoinUndoesSplit` | 3-work/ffmpeg/Tool_ffmpeg.c:400-457 | making a packed NV12 image planar and joining the planes again restores it |
| `ImageCrop.SplitUndoesJoin` | 3-work/ffmpeg/Tool_ffmpeg.c:400-457 | joining the planes of a packed planar image and splitting again restores it |
| `Crc16.Crc16` | 3-work/linux/public_tools/tools.c:62-82 | the nested loops compute the shift register run over the message bits |
| `Crc16.DigitsCheck` | 3-work/linux/public_tools/tools.c:62-82 | the check of the digits 1 to 9 is E5CC, byte by byte |
| `Crc16.EmptyCheck` | 3-work/linux/public_tools/tools.c:68-68 | the check of no bytes is 1D0F |
| `Crc16.BurstDetected` | 3-work/linux/public_tools/tools.c:62-82 | two messages of equal length that differ only within sixteen consecutive bits have different checks |
| `Crc16.CheckAppended` | 3-work/linux/public_tools/tools.c:62-82 | a message followed by its check, high byte first, drives the register to zero |
| `Crc16.RunLinear` | 3-work/linux/public_tools/tools.c:67-80 | the register run is linear in its start value and the message bits together |
| `Crc16.OnlyDifferenceMatters` | 3-work/linux/public_tools/tools.c:67-80 | two messages of equal length collide if and only if their difference alone leaves a zero register |
| `Crc16.SeventeenBitBurst` | 3-work/linux/public_tools/tools.c:62-82 | sixteen is the limit: two messages of equal length whose difference lies within seventeen consecutive bits have the same check if and only if they are equal or differ by the polynomial, wherever it lies |
| `Crc16.PolynomialMissed` | 3-work/linux/public_tools/tools.c:67-80 | two messages of three bytes that differ by the polynomial in their last seventeen bits have the same check |
| `StrStr2.StrStr2` | 3-work/linux/public_tools/stringex.c:98-139 | the search returns the leftmost place where the pattern matches with something left of the text at each %*, or none: giving up after a %* whose rest is not found loses no match |
| `StrStr2.StrictIsPlain` | 3-work/linux/public_tools/stringex.c:112-127 | for patterns that do not end in %* this is ordinary wildcard matching |
| `StrStr2.TrailingMany` | 3-work/linux/public_tools/stringex.c:112-127 | a final %* matches as if %? came after it |
| `StrStr2.ReadAsDescribed` | 3-work/linux/public_tools/stringex.c:91-127 | a pattern is read as its description says if and only if it has no %% |
| `StrStr2.MatchNeeds` | 3-work/linux/public_tools/stringex.c:98-139 | a match takes a character for each literal and each %?, and fits them one by one when there are no more |
| `StrStr2.ToldApart` | 3-work/linux/public_tools/stringex.c:98-139 | two patterns whose literals and %? differ are told apart by a text: one matches at its start, the other nowhere in it |
| `StrStr2.DoublePercentDiffers` | 3-work/linux/public_tools/stringex.c:112-127 | a pattern with %% is read with other literals and %? than described |
| `StrStr2.ExactlyRight` | 3-work/linux/public_tools/stringex.c:91-139 | the search returns the leftmost match of the pattern as described, on every non-empty text, if and only if the pattern has no %% and does not end in %* unless it is made of %* alone |
| `StrStr2.Search` | 3-work/linux/public_tools/stringex.c:91-139 | the leftmost match of the pattern as described, for the patterns that allow it |
| `StrStr2.TrailingManyMisses` | 3-work/linux/public_tools/stringex.c:112-127 | on the text a the pattern a%* finds nothing, although it should match |
| `StrStr2.DoublePercentMisses` | 3-work/linux/public_tools/stringex.c:112-127 | the pattern %% does not find a percent sign, against its description |
| `Multipart.FindNext` | 3-work/linux/libevent2/http_from_parse.c:84-95 | the loop returns the distance to the next delimiter, or -1 |
| `Multipart.FromDataParse` | 3-work/linux/libevent2/http_from_parse.c:109-222 | the loops invoke the callback as the parse function says, for every memory content |
| `Multipart.DelimiterFound` | 3-work/linux/libevent2/http_from_parse.c:59-95 | behind a content without the delimiter the next delimiter is the one after its line break |
| `Multipart.HeadersSkipped` | 3-work/linux/libevent2/http_from_parse.c:183-195 | the scan for the empty line stops behind the headers, not earlier |
| `Multipart.BodyParsed` | 3-work/linux/libevent2/http_from_parse.c:109-222 | wherever it lies in memory, a printed body that no delimiter follows parses to its parts, in order, each with exactly its content |
| `Multipart.BodyFound` | 3-work/linux/libevent2/http_from_parse.c:109-222 | the same behind text that holds no delimiter |
| `Multipart.ParsePrinted` | 3-work/linux/libevent2/http_from_parse.c:109-222 | the parser on a printed body with any preamble and epilogue section 5.1.1 of RFC 2046 allows, as long as neither holds a delimiter, invokes the callback once per part |
| `Base64.AlphabetRead` | 3-work/linux/aes/base64.c:8-48 | the decoding table inverts the alphabet |
| `Base64.GroupValue` | 3-work/linux/aes/base64.c:50-72 | three bytes and their four sextets are the same number, most significant part first |
| `Base64.PaddedVectors` | 3-work/linux/aes/base64.c:50-85 | f, fo and foo encode to Zg==, Zm8= and Zm9v, the vectors of section 10 of RFC 4648 |
| `Base64.BytesOfSextets` | 3-work/linux/aes/base64.c:50-125 | regrouping bytes into sextets and back is the identity |
| `Base64.SextetsLength` | 3-work/linux/aes/base64.c:50-85 | the encoded length is a third more, rounded up to a multiple of four |
| `Base64.Encode` | 3-work/linux/aes/base64.c:50-85 | the byte-by-byte loop writes the group-wise encoding of section 4 of RFC 4648, with its padding, and nothing else |
| `Base64.Decode` | 3-work/linux/aes/base64.c:87-125 | for any input: the bytes of the characters before the first one outside the alphabet, which output positions may be written, and a result that is their number, or 1 if that character is not padding |
| `Base64.ResultRead` | 3-work/linux/aes/base64.c:87-125 | a result other than 1 is a length; the result is 1 exactly when the text is rejected or has two characters before the first outside the alphabet |
| `Base64.ErrorLooksLikeLength` | 3-work/linux/aes/base64.c:87-125 | an exclamation mark is rejected and QQ== decodes to one byte, and both return 1 |
| `Base64.OutcomeTold` | 3-work/linux/aes/base64.c:87-125 | the result tells whether a text was rejected if and only if it was not, and does not have exactly two characters before the first outside the alphabet |
| `Base64.EncodedDecodes` | 3-work/linux/aes/base64.c:50-125 | the decoder reads all of the encoder's output, gives the original bytes and writes no position beyond them |
| `Base64.RoundTrip` | 3-work/linux/aes/base64.c:50-125 | encode, then decode into a buffer of exactly the original size, returns the size and the bytes |

## Left out

- Failing allocations, logging, file and socket set-up, and the removal of closed sessions.
- AES-192 and AES-256, the ECB wrappers and the OpenSSL branch of `aes2.c`.
- Of the frame queue: the abort flag, the mode without keep-last, and the peek functions that do not wait; creation and destruction of the frames themselves.
- Of the demultiplexer: the H.264 inspection inside the write, the older parsers, RTP packets with padding, which the code does not remove, and what it makes of contributing sources.
- Lists: one C function for moving is two methods here, for entries of the same ring and of another one; the poison addresses are parameters; iteration macros and the hash lists are not modelled.
- Of the MQTT reader: the replies the dispatcher builds, which overwrite the buffer after the packet has been handed over; headers that arrive in pieces; a peer that closes inside a packet.
- Of the MQTT queue: the poll set itself; it appears as the flag `armed`, and writability events come only while it is set.
- Of the MQTT codec: connect, subscribe and the other fixed packets; the copying wrappers around the topic and message parsers.
- Of the images: odd sizes, where the code's chroma cursors drift, and the crop of a whole frame object.
- Of the wildcard search: the empty text, on which the search finds nothing, not even the empty pattern.
- Of the multipart parser: the scraping of header values into fixed buffers, which does not move the parser; the callback gets the position and size of the content only.
- Of base 64: the value the encoder returns, which is constant, and empty input to it.
- The checksum of a whole file.

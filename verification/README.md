# Verification of the box's protocol code

A Dafny model of the parts of the repository whose meaning is more than their text: the CRC-16 engine
and the byte packing of `src/utils.c`, the intrusive circular list of `src/include/list.h`, the outgoing
telemetry queue of `src/json.c` and `src/mqtt.c`, and the padding, ECB and base64 pipeline of
`src/encrypt.c`. `dafny verify dfyconfig.toml` checks everything.

| modules | what they are about |
|---|---|
| `Register`, `CrcEngine` | the register step, the bit-serial reference, and the two C loops proved to compute it |
| `Gf2`, `CrcRemainder` | polynomials over GF(2) with long division; the CRC is the remainder the MODBUS serial line guide (V1.02, sections 2.5.1.2 and 6.2.2) asks for |
| `CrcDetection`, `CrcOrder`, `CrcFrame` | which errors the checksum finds, exactly, and what a receiver sees in a whole frame |
| `Memory`, `Packing`, `PackedRecord` | writes into buffers, the wire order of words on hosts of both byte orders, and records of packed fields |
| `LinkedList`, `ListSplicing`, `ListIteration` | every list operation on real nodes, against a sequence per head |
| `Telemetry`, `TelemetryQueue` | the queue as a state machine over whole runs, and the C functions refining it on the linked list |
| `Base64`, `Encrypt`, `EncryptBuffers` | the base64 block functions, the pipeline as functions, and the two C functions refining them |
| `Upload` | from the JSON text that is posted to what a receiver decrypts |

How the model relates to the code:

- The CRC loops are methods over `array<bv8>` with a `bv16` register and the loops of the C code. The
  reference they are proved against is bit-serial, and the reference is proved equal to the remainder of a
  polynomial division that does not mention registers or shifts.
- A `struct list_head` is an object with two pointers. `IsList(h, s)` says that the nodes `s` hang on the
  head `h` in that order, in both directions, each once. The methods write the pointers in the order of
  the C code; their `modifies` clauses name the fields they write, and `LinkedList.Untouched` turns such
  a frame into the statement that any list without those nodes is as it was.
- A `struct msg_queue` is an entry of the map `structs`, keyed by its list head, and its two strings are
  entries of `texts` and `topics`, keyed by address: `malloc` and `strdup` add an entry, `free` removes it.
  Only live ones can be looked up, so each is freed at most once. Freeing a node also leaves arbitrary
  values in its links, so that a loop that goes on from a freed node no longer verifies.
- The mosquitto thread may flip the connection flag between any two messages of a drain; `schedule` says
  what it does before each message and what `mosquitto_publish` returns for it. It is an arbitrary function.
- AES under a key is an arbitrary bijection of blocks. `EVP_DecryptUpdate` is modelled with its habit of
  holding back the last block when its input ends on a block boundary, since no Final call follows;
  `holdBack = false` is the primitive with padding switched off.
- `EVP_DecodeBlock` strips white space in front of a text, and line ends, white space and dashes behind it,
  before it decodes. `Before` says what the buffers from `malloc` hold, because the code feeds the cipher
  three quarters of the length it was given, also when some of the text was stripped.

Where code and documentation disagree, the model follows the code. The comment at `src/encrypt.c:20` says
that `outLen` is the length of the base64 text; the code returns the length of the ciphertext
(`AesEcbPkcs5Encrypt`), which is shorter (`TextFits`), so a caller has to measure the text itself. The
comment at `src/encrypt.c:75-83` promises the plaintext; the code returns it exactly in the cases that
`RoundTrip` names, `HeldBackResult` says what it returns otherwise, and `LostMessage` is one message that
does not come back. `RoundTripByOutLen` says what follows when a caller believes the first comment.

## Model

| member | source | states |
|---|---|---|
| CrcEngine.CrcBe16 | src/utils.c:211-228 | the nested loop computes the bit-serial CRC (start 0xffff, low bit of each byte first) of the bytes it is given, for every length, negative ones included |
| CrcEngine.CrcLe16 | src/utils.c:192-209 | the same with the two bytes of the result exchanged |
| CrcEngine.ByteIsSerial | src/utils.c:196-205 | xoring a whole byte and shifting eight times equals feeding its bits one at a time |
| CrcEngine.CrcConcat | src/utils.c:196-205 | the CRC of a concatenation continues from the register of the first part |
| Register.ShiftInjective | src/utils.c:198-204 | the register step is injective: the bit shifted out can be read off the feedback |
| Register.ShiftXor | src/utils.c:198-204 | the register step is linear |
| CrcRemainder.CrcIsRemainder | src/utils.c:211-228 | the register is the bit-reversed remainder of M(x)·x^16 + (x^15+…+1)·x^(8n) divided by x^16+x^15+x^2+1, the remainder being computed by schoolbook long division |
| Gf2.RemainderSound | src/utils.c:211-228 | that long division yields a polynomial of degree below 16 congruent to the dividend |
| Gf2.RemainderUnique | src/utils.c:211-228 | no other polynomial of degree below 16 is congruent to it |
| CrcRemainder.CollisionIsDivisibility | src/utils.c:211-228 | two messages of equal length have the same CRC if and only if the generator divides their difference |
| CrcRemainder.BurstDetected | src/utils.c:196-205 | different messages of equal length whose differing bits lie in one window of 16 serial bits, at any offset and whatever follows, have different CRCs |
| CrcFrame.BurstBoundIsTight | src/utils.c:196-205 | 16 cannot be raised: behind any prefix and before any tail there is a 17-bit burst that goes unnoticed |
| CrcFrame.SameEffect | src/utils.c:196-205 | byte strings whose difference has syndrome zero drive every register to the same value |
| CrcDetection.CrcIsAffine | src/utils.c:211-228 | the CRC of the xor of three messages of equal length is the xor of their CRCs |
| CrcDetection.SwappedCrcIsAffine | src/utils.c:192-209 | the same for the byte-swapped checksum |
| CrcDetection.CollisionIsZeroSyndrome | src/utils.c:192-228 | the xor of two CRCs depends only on the bits in which the messages differ |
| CrcDetection.ShiftKeepsParity | src/utils.c:198-204 | a register step keeps the parity of the register |
| CrcDetection.CrcParity | src/utils.c:211-228 | the parity of the CRC is the parity of all message bits |
| CrcDetection.OddErrorsDetected | src/utils.c:196-205 | messages of equal length that differ in an odd number of bits have different CRCs |
| CrcDetection.WeightAppend | src/utils.c:196-205 | the weight of a difference counts its ones |
| CrcOrder.OrderOfX | src/utils.c:198-204 | d steps bring the register that stands for the polynomial 1 back to itself, that is x^d is 1 modulo the generator, if and only if 32767 divides d |
| CrcOrder.BinomialDivisible | src/utils.c:198-204 | the generator divides x^d + 1 if and only if 32767 divides d |
| CrcOrder.TwoBitErrors | src/utils.c:211-228 | messages of equal length that differ in exactly two serial bits have the same CRC if and only if the distance is a multiple of 32767; so every two-bit error closer than that is found |
| CrcOrder.MinimumDistance | src/utils.c:211-228 | in messages of at most 32767 bits every error of one, two or three bits is found |
| CrcOrder.DistanceIsTight | src/utils.c:211-228 | from 4096 bytes on there are messages that differ in two bits and have the same CRC |
| CrcDetection.FrameResidue | src/utils.c:192-228 | a message followed by two bytes has CRC 0 if and only if they are the low and the high byte of its CRC |
| CrcFrame.ChecksumBytes | src/utils.c:111-151 | packing the first checksum little-endian and the second big-endian writes the same two bytes, low byte first |
| CrcFrame.FrameAccepted | src/utils.c:192-228 | a frame of two or more bytes has CRC 0 if and only if it ends in the packed checksum of the rest |
| Packing.SwapReverses | src/utils.c:15-49 | the byte swap of 16, 32 and 64 bits reverses the bytes |
| Packing.BytesSpellTheWord | src/utils.c:14-157 | for every width, the bytes of a word in little-endian order, and in big-endian order from the other end, spell its value: each byte stands below the number that the later ones spell |
| Packing.HostBranches | src/utils.c:14-157 | a host swaps exactly the words of the other order, and stores and loads words in its own |
| Packing.StoreIsHostIndependent | src/utils.c:14-157 | both host branches put the same bytes on the wire for either wire order and every width |
| Packing.LoadIsHostIndependent | src/utils.c:14-157 | both host branches read the same value back |
| Packing.BytesRoundTrip | src/utils.c:14-157 | reading what was written in the same order gives the value |
| Packing.BytesOnto | src/utils.c:14-157 | writing what was read gives the bytes back |
| PackedRecord.PackWord | src/utils.c:15-151 | writes exactly the bytes of the value in the wire order, returns their number and leaves the rest of the buffer |
| PackedRecord.UnpackWord | src/utils.c:21-157 | returns the value in those bytes, and their number |
| PackedRecord.PackU8 | src/utils.c:160-164 | writes one byte and nothing else |
| PackedRecord.UnpackU8 | src/utils.c:166-170 | reads one byte |
| PackedRecord.PackStr | src/utils.c:172-177 | copies the bytes and nothing else, and returns their number |
| PackedRecord.PackZero | src/utils.c:179-183 | fills the span and nothing else, and returns its length |
| PackedRecord.UnpackStr | src/utils.c:185-190 | copies the bytes out, and returns their number |
| Memory.WrittenBytes | src/utils.c:172-190 | after a write, the bytes written stand where they belong and every other byte is as it was |
| PackedRecord.RecordRoundTrip | src/utils.c:14-190 | any list of fields, encoded and followed by anything, decodes with its own shape to the same fields |
| PackedRecord.FieldBytes | src/utils.c:14-190 | a byte is itself, a word its bytes in its order, a string its bytes as they are |
| PackedRecord.EncodeConcat | src/utils.c:14-190 | a record is its fields one behind the other, in order |
| PackedRecord.PackFields | src/utils.c:14-190 | packing by advancing with each return value writes the encoding of the whole list and touches nothing outside |
| PackedRecord.UnpackFields | src/utils.c:14-190 | unpacking by advancing with each return value decodes the whole list and consumes its length |
| PackedRecord.SendAndReceive | src/utils.c:14-190 | a record packed on a host of either byte order is unpacked unchanged on a host of either byte order, over the same length |
| LinkedList.InitListHead | src/include/list.h:24-28 | the node becomes an empty list |
| LinkedList.ListInsert | src/include/list.h:30-38 | the new node stands between the two neighbours, in both directions |
| LinkedList.ListAdd | src/include/list.h:47-50 | the list becomes the new node followed by what it was |
| LinkedList.ListAddTail | src/include/list.h:61-64 | the list becomes what it was followed by the new node |
| LinkedList.Join | src/include/list.h:73-77 | the two nodes become neighbours, whether or not they are the same node |
| LinkedList.ListDel | src/include/list.h:91-94 | the list loses exactly that entry; the entry keeps its links |
| LinkedList.RemovePositions | src/include/list.h:91-94 | the entries that remain close up in order |
| LinkedList.ListDelInit | src/include/list.h:127-131 | the list loses exactly that entry, and the entry becomes an empty list |
| LinkedList.ListReplace | src/include/list.h:107-114 | the new node takes the old one's place in the ring; if the old one was alone the new one ends up self-linked, and only then do the old node's links change |
| LinkedList.ListReplaceEntry | src/include/list.h:107-114 | seen from the head, the entry at that index is replaced and every other stays |
| LinkedList.ListReplaceInit | src/include/list.h:116-121 | the same, and the old node becomes an empty list |
| LinkedList.ListMove | src/include/list.h:138-143 | one contract for moving within a list and between two: the entry comes first, and the other entries of both lists keep their order |
| LinkedList.ListMoveTail | src/include/list.h:149-154 | the same, with the entry last |
| LinkedList.ListRotateLeft | src/include/list.h:199-207 | the first entry becomes the last; an empty list is left as it is |
| LinkedList.RotateTimesMeaning | src/include/list.h:199-207 | on sequences: k rotations of n > 0 entries give s[k mod n..] followed by s[..k mod n] |
| LinkedList.RotateMany | src/include/list.h:199-207 | k calls on a list of n > 0 nodes leave the list s[k mod n..] followed by s[..k mod n]; an empty one is left as it is |
| LinkedList.FullTurns | src/include/list.h:199-207 | any number of full turns is the identity |
| LinkedList.TestsMeanLengths | src/include/list.h:171-216 | both emptiness tests mean length 0 and the singularity test means length 1 |
| LinkedList.IsLastMeansLast | src/include/list.h:161-165 | the test holds of the final entry only |
| LinkedList.RingIsUnique | src/include/list.h:30-327 | a head determines its sequence: no two sequences hang on the same head |
| LinkedList.AnyNodeIsHead | src/include/list.h:107-121 | the ring read from any of its entries is a list headed by that entry |
| LinkedList.Untouched | src/include/list.h:30-327 | a list none of whose nodes has changed is the same list |
| ListSplicing.CutAt | src/include/list.h:218-227 | the entries up to the cut go to the new head, the rest stay |
| ListSplicing.ListCutPosition | src/include/list.h:244-256 | the same for every entry including the head itself, with the guards for an empty and a singular list, where nothing at all is written |
| ListSplicing.SpliceBetween | src/include/list.h:258-270 | the entries of one list stand behind the given node of the other |
| ListSplicing.ListSplice | src/include/list.h:277-282 | the spliced entries come first; the old head keeps its stale links |
| ListSplicing.ListSpliceTail | src/include/list.h:289-294 | the spliced entries come last; the old head keeps its stale links |
| ListSplicing.ListSpliceInit | src/include/list.h:303-310 | the spliced entries come first and the old head is an empty list |
| ListSplicing.ListSpliceTailInit | src/include/list.h:320-327 | the spliced entries come last and the old head is an empty list |
| ListSplicing.CutAndRejoin | src/include/list.h:244-310 | cutting into an empty list and splicing back at the same head restores the list and every link in it, and writes nothing if the entry is not of the list |
| ListIteration.ListForEach | src/include/list.h:374-386 | the loop ends and visits the entries in order |
| ListIteration.ListForEachPrev | src/include/list.h:396-398 | the loop ends and visits the entries in reverse order |
| ListIteration.ListForEachSafe | src/include/list.h:406-408 | while any chosen entries are deleted on the way and their links overwritten, the loop visits every entry once, in order, and the others stay in order |
| ListIteration.WithoutLast | src/include/list.h:406-408 | an entry at the end remains if and only if it was not chosen |
| Telemetry.TopicSupported | src/json.c:65-66 | however long its parts are, the truncated topic starts with "/paas/", which publishing asks for |
| Telemetry.TopicLayout | src/json.c:65-66 | every character of the topic, for parts of any length: product, device and suffix stand in this order behind "/paas/", separated by slashes and cut behind 79 characters in all |
| Telemetry.TopicReads | src/json.c:65-66 | if it all fits and product and device hold no slash, splitting the topic at its slashes gives "", "paas", the product, the device and the levels of the suffix |
| Telemetry.DeliverCases | src/mqtt.c:22-46 | what becomes of a message: nothing without a text, unsupported without the prefix, offline without a connection, published with result 0 and failed with any other |
| Telemetry.ExitMeansRefused | src/mqtt.c:59-61 | on every run from a live state, the process has ended if and only if some step is a connect with a result code other than 0, and only the last step can be one |
| Telemetry.StepKeepsInv | src/json.c:57-224 | on every step, what became of the messages followed by the queue is the history of acceptance, message by message |
| Telemetry.RunKeepsInv | src/json.c:57-224 | the same for whole runs, with callbacks anywhere between two messages of a drain |
| Telemetry.Conservation | src/json.c:57-224 | on every run the number accepted is the number of records published, plus those refused by mosquitto, dropped while offline and without a text, plus the number still queued |
| Telemetry.PublishedInOrderOnce | src/json.c:212-224 | on every run the published messages are a subsequence of the accepted ones, each at most once and unchanged |
| Telemetry.PublishedAppend | src/mqtt.c:30-35 | a record with the outcome published adds its message behind the published ones, any other adds nothing |
| Telemetry.HistoryGrows | src/json.c:57-224 | what became of a message is never revised |
| Telemetry.FlagIsLastCallback | src/mqtt.c:57-82 | the connection flag is what the last disconnect or successful connect of our own client left |
| Telemetry.PublishedIffConnected | src/mqtt.c:22-82 | wherever the callbacks fall, a message with a text is published if and only if the last one before it was a connect and mosquitto takes it |
| Telemetry.DrainHandlesWholeQueue | src/json.c:212-224 | a drain handles every message queued when it began, in order, and leaves the queue empty |
| TelemetryQueue.Sender.constructor | src/json.c:21 | the list starts empty, the client disconnected, no string allocated and nothing sent |
| TelemetryQueue.Sender.CjsonMsgAdd | src/json.c:57-79 | without a known device or without memory nothing changes; otherwise one fresh node at the tail stands for a message with the next number, a copy of the text unless that could not be made, and the topic of product, device and suffix |
| TelemetryQueue.Sender.MqttConnectCallback | src/mqtt.c:57-74 | the process ends if and only if the result code is not 0; the flag is set if it is 0 and the client is ours, and is unchanged otherwise |
| TelemetryQueue.Sender.MqttDisconnectCallback | src/mqtt.c:76-82 | the flag is cleared if the client is ours and unchanged otherwise |
| TelemetryQueue.Sender.DoTtyMsgPublish | src/mqtt.c:22-46 | with a connection and a topic that starts with "/paas/" mosquitto is called once, with this text and topic, and its result returned; in every other case it is not called and -1 is returned |
| TelemetryQueue.Sender.Send | src/json.c:217-221 | mosquitto is called with the message's own topic and text if it has a text, a connection and a supported topic, and otherwise not; both strings of a message with a text are freed, and no string of one without |
| TelemetryQueue.Sender.Free | src/json.c:223 | the struct is gone and nothing is known of the node's links, while the list is as it was |
| TelemetryQueue.OwnedHandled | src/json.c:217-221 | the strings of the next message are live, and once it is handled the live strings are again those of the messages to come and the topics of messages without a text |
| TelemetryQueue.Sender.SendAndFree | src/json.c:217-223 | the first message leaves the queue and its outcome is recorded behind the earlier ones, its node is unlinked and its struct freed |
| TelemetryQueue.Sender.MqttSendRun | src/json.c:212-224 | under any schedule of callbacks and results the drain follows exactly the script the schedule stands for, and enqueues nothing; every node is unlinked and freed once, in order, and its links are gone from then on; at the end the head is self-linked, no struct and no text is live, and the live topics are those of the messages whose text could not be duplicated; if the process exits on the way, the steps so far are a beginning of that script |
| TelemetryQueue.Sender.RunCallbacks | src/mqtt.c:57-82 | the callbacks come one after the other until one of them ends the process, and change nothing but the connection |
| TelemetryQueue.TakenArePublished | src/mqtt.c:30-35 | mosquitto took exactly the messages recorded as published, each with its own text and topic, in that order |
| TelemetryQueue.TakenConcat | src/mqtt.c:30-35 | the calls taken in a sequence of calls are those taken in its first part followed by those in its second |
| TelemetryQueue.TakenOne | src/mqtt.c:30-35 | a single call is taken if and only if its result is 0 |
| Base64.Alphabet | src/encrypt.c:58 | the letters for 0 to 63 are A to Z, a to z, 0 to 9, + and /, and the padding character is =, as table 1 of RFC 4648 has it |
| Base64.LettersAre | src/encrypt.c:91 | no other byte is a letter, and each letter is read as the value it stands for |
| Base64.EncodingKeepsBits | src/encrypt.c:58 | the bits of the characters, six each from the most significant one down, are the bits of the data, eight each, followed by zero bits up to a whole group |
| Base64.PaddingCharacters | src/encrypt.c:58 | the last (3 - n mod 3) mod 3 characters of the text are =, and no others |
| Base64.DecodedBits | src/encrypt.c:91 | whatever text is decoded, the bits of the bytes delivered are those of the characters that were not stripped |
| Base64.Refused | src/encrypt.c:91-95 | a text is refused if and only if what is left of it does not come in fours or has a character that is neither a letter nor = |
| Base64.TrimMeaning | src/encrypt.c:91 | what is stripped and what is left: nothing more could be stripped on either side |
| Base64.StrippedCharacters | src/encrypt.c:91 | blanks and tabs are stripped in front, and behind also line ends and dashes |
| Base64.DecodeEncode | src/encrypt.c:58-91 | decoding an encoding gives the data and one zero byte per padding character |
| Base64.DecodeSurrounded | src/encrypt.c:91 | the same with white space in front of the text and line ends, white space and dashes behind it |
| Base64.DecodeCut | src/encrypt.c:91 | a text cut behind j groups of four decodes to the first 3j bytes |
| Base64.EncodingHasNoZero | src/encrypt.c:58 | an encoding is a C string |
| Encrypt.PadLength | src/encrypt.c:30-37 | padding yields a positive multiple of 16 |
| Encrypt.PadTells | src/encrypt.c:34-37 | the padded message begins with the message, and each of the 1 to 16 bytes added says how many were |
| Encrypt.PadInjective | src/encrypt.c:30-37 | different messages have different paddings |
| Encrypt.EcbInverse | src/encrypt.c:51-111 | block by block, decryption undoes encryption |
| Encrypt.EcbBlocks | src/encrypt.c:51-111 | each block of the result is one application of the cipher to the block in the same place |
| Encrypt.CiphertextBlocks | src/encrypt.c:30-51 | block k of the ciphertext is the cipher of block k of the padded message |
| Encrypt.DecryptUpdateBlocks | src/encrypt.c:106-111 | how many bytes are delivered, and that each block delivered is one deciphering of the block in the same place |
| Encrypt.TextFits | src/encrypt.c:57-58 | the text and its terminator fit in twice the length of the ciphertext, and the text is longer than the ciphertext |
| Encrypt.DecryptOfSent | src/encrypt.c:90-124 | the result is the message, or a message cut short to its whole blocks if the last block is held back |
| Encrypt.RoundTrip | src/encrypt.c:25-126 | in both modes decryption returns a message with its length and a terminator if and only if the cipher's input does not end on a block boundary (in base64 mode: (n/16+1) mod 3 is not 0), or the message itself ends on one with a zero byte |
| Encrypt.HeldBackResult | src/encrypt.c:106-124 | what it returns otherwise: a prefix whose length depends on a message byte, or nothing the model defines when that falls outside the buffer |
| Encrypt.RoundTripWithoutHoldBack | src/encrypt.c:25-126 | with a primitive that returns every whole block every message comes back, in both modes |
| Encrypt.LostMessage | src/encrypt.c:25-126 | 32 times the letter a, in base64 mode, never comes back |
| Encrypt.RoundTripSurrounded | src/encrypt.c:90-124 | with characters around the text that the decoder strips, and that add less than a block to what the cipher is fed, the message comes back if and only if they and the text's padding add anything, or it ends on a boundary with a zero byte |
| Encrypt.RoundTripByOutLen | src/encrypt.c:20-91 | if *outLen is passed on as the length of the text, only a part of the message arrives, and it comes back if and only if it has 16 or 32 bytes and ends in a zero byte |
| EncryptBuffers.PaddedBuffer | src/encrypt.c:30-37 | filling the buffer with the pad byte and copying the message over it yields the padded message |
| EncryptBuffers.CipherBuffer | src/encrypt.c:39-51 | each block of the buffer is one application of the cipher to the block of the input in the same place, and the length is that of the input |
| EncryptBuffers.AesEcbPkcs5Encrypt | src/encrypt.c:25-73 | the buffer holds the ciphertext, or in base64 mode its text as a C string; outLen is the ciphertext's length in both |
| EncryptBuffers.UnpadInPlace | src/encrypt.c:122-124 | the last byte is taken off the length and a terminator written there, exactly where both stay inside the buffer, and no other byte changes |
| EncryptBuffers.AesEcbPkcs5Decrypt | src/encrypt.c:84-126 | the buffer and the length are those of the pipeline, also when the decoder strips part of the text, and when the text does not decode and the code goes on with an unwritten buffer |
| Upload.PostData | src/json.c:159-182 | what is queued is the base64 text of the encrypted JSON, as a C string |
| Upload.PublishedOrigins | src/json.c:57-224 | on every run the published messages can be traced to the calls that posted them, in the same order |
| Upload.TakenWerePosted | src/json.c:57-224 | when a sender's model is the outcome of a run, what mosquitto took are texts posted in that run, byte for byte and under the topics of their posts, in the order they were posted, each at most once |
| Upload.ReceiverSide | src/encrypt.c:84-126 | whatever its buffers held before, a receiver decrypting a published text reads the JSON text; with the code's own decryption exactly under the condition of the round trip |
| Upload.ReceiverReadsWhatWasPosted | src/json.c:159-224 | when a sender's model is the outcome of a run whose enqueues come from posts, a receiver can read what mosquitto took: a subsequence of the posted JSON texts |
| Upload.Session | src/json.c:159-224 | end to end, without any assumption on the run: for every sequence of posts, timers and callbacks from the start of the process, the state reached is the one the state machine gives, and what a receiver decrypts of what mosquitto took is a subsequence of the posted JSON texts, each under the topic of its post; with the code's own decryption each is readable if and only if (n/16+1) mod 3 is not 0 |

## Left out

- AES itself and its key schedule: one bijection per key stands for them; `keyLen` is never read by the code.
- Failures inside OpenSSL other than text that does not decode (`src/encrypt.c:3-13`, `src/encrypt.c:43-54`).
- Lengths so large that `srcLen * 3`, or a buffer size, would not fit in a C `int`; negative lengths except in the CRC functions.
- Overlapping buffers in `pack_str` and `unpack_str`, for which the C standard defines nothing.
- What the code does after an access outside its buffer: the model stops there (`OutOfBounds`).
- The iteration macros that start in the middle or go backwards while deleting (`src/include/list.h:416-419`, `src/include/list.h:451-571`): they add no new pointer writes.
- `container_of` (`src/include/list.h:341-361`): a struct is found by its list head, without address arithmetic.
- `g_mutex` (`src/json.c:14`): enqueue and drain run on the same thread, so it excludes nothing.
- Failure of `strdup(topic)` and of the buffers in `src/encrypt.c`; failures of `malloc` and of `strdup(data)` in `cjson_msg_add` are modelled.
- The refresh of the device id by `get_device_id` (`src/json.c:26-31`): each call of `cjson_msg_add` is given the id it finds and the id it refreshes to.
- What the JSON contains, ubus queries, UUIDs, timestamps and logging: a message is an arbitrary text.
- Inside mosquitto and uloop: a publish returns an arbitrary code, callbacks and timers come in any order, subscriptions are not modelled.
- `src/uci.c`, `src/main.c`, `src/serv_ubus.c` and the rest of `src/utils.c` and `src/mqtt.c`: configuration, process start, wrappers and shell commands.

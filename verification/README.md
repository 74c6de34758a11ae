# Proofs about the record, handshake and encoding code of LibreSSL's TLS library

This project models the parts of `third-party/libressl-4.0.0/ssl` whose correctness rests on more than one
function: code that is branch-free, edits data in place, or keeps an invariant over a whole run. The code that
changes state step by step is imperative here too (classes, arrays, loops), and each such method is proved
against a specification function about which the lemmas prove what the code is for.

| files | what is proved |
|---|---|
| `Bits`, `ConstantTime`, `CbcPadding`, `CbcCopyMac`, `Hmac`, `CbcDigest` | the constant-time CBC code: removing padding, extracting the MAC and computing it over a message of secret length are the plain operations of RFC 5246 and RFC 2104, for any compression function |
| `Cbb`, `Layout`, `Sizes`, `WriteTree`, `BuilderRuns`, `Der`, `Cbs`, `ReadBack` | the byte builder, whose length prefixes are written late and move the contents, always holds a layout of the tree of writes; any run of calls gives the recursive serialisation of that tree exactly when lengths and room allow it, the byte reader reads it back, and DER headers and integers are canonical |
| `Ber`, `BerForest`, `BerStrings`, `BerConverter` | converting indefinite lengths: exactly what is accepted and written, that the strict parser accepts the result at every level, and exactly when the result is the DER of what the input denotes |
| `SessionCodec`, `SessionOctets`, `Session` | encoding a session, octet by octet, and decoding it again |
| `CipherRules`, `CipherSelection`, `CipherList`, `CipherRuns`, `CipherDefaults` | the doubly linked list of ciphers, edited while it is traversed; the sort made of moves to the tail is *the* stable sort; what any run of rules leaves; the default order |
| `PriorityQueue`, `ReplayWindow`, `RecordStates`, `DtlsRecords` | which DTLS records are accepted over any run of reads, buffered records and epoch changes, and exactly when one is accepted twice |
| `ReassemblyBitmask`, `HandshakeHeader`, `HandshakeFragment`, `HandshakeStream`, `DtlsDelivery`, `DtlsReceive`, `DtlsReceiveRuns` | whatever order, overlap, repetition or loss of fragments, handshake messages are delivered in order, without a gap and byte for byte; exactly when one is, and when none is any more |
| `DtlsSend`, `DtlsHandshake`, `DtlsInOrder` | fragmenting in place under a changing MTU, each record within it, and retransmission in order under the saved epochs; whatever records of the sender are lost, repeated or reordered, the receiver's transcript is a prefix of the sender's, and all of it if nothing is lost |
| `TlsReadBuffer`, `TlsWriteBuffer` | the input buffer is a queue of octets whatever the network does; the output is sent exactly once whatever retries there are |
| `Bytes`, `Wrappers` | octet strings and `Option` |

Six results say that the code does less than its names, comments or design promise, each with an input that shows it
and the condition:

- A DTLS record that is queued for the next epoch is not marked in the replay window: `dtls1_buffer_record` clears
  `rrec` before its caller marks the number in it, so that zero is marked. The same record arriving again makes the
  read fail, or is accepted a second time after the epoch has changed, exactly when its number is not zero
  (`RecordStates.QueuedAgain`, `RecordStates.AcceptedAgain`), and the genuine record zero is lost
  (`RecordStates.ZeroLost`). `RecordStates.RunArriving` says for any run, in terms of the arriving records, when slots
  stay distinct.
- Converting indefinite lengths does not keep every string that comes in pieces. The header of a piece within a piece
  becomes data, so does the count of unused bits in every piece of a bit string, a string in pieces of definite length
  stays in pieces, and an explicit tag around a primitive value, or the structure of an EXTERNAL, is lost
  (`BerStrings.HeaderBecomesData`, `BerStrings.CountBecomesData`, `BerStrings.StaysConstructed`,
  `BerStrings.ExplicitTagLost`, `BerStrings.ExternalLost`). `BerStrings.StringKept`
  and `BerStrings.BitsKept` give the condition for one string, `BerStrings.ConvertKeeps` for any input.
- Converting `20 80 00 00` succeeds and leaves an end-of-contents element in the output, which a second conversion
  refuses (`Ber.EocWritten`; `BerForest.ConvertTwice` gives the condition on the input).
- A session does not come back from its own encoding when its timeout is zero, its ticket is present but empty, or its
  time is zero (`SessionCodec.TimeoutLost`, `SessionCodec.TicketLost`, `SessionCodec.TimeLost`;
  `SessionCodec.SessionRoundTrip` gives the condition).
- A fragment of a handshake message that is longer than any that is put together is left unread without an alert, and
  the next call takes octets of its body for a fragment: it can deliver a message that no one sent
  (`DtlsReceiveRuns.LongMessageRun`; `DtlsDelivery.TooLongExact` says which fragments these are).
- When a message comes in one piece while the queue holds a part of it, that part stays at the head of the queue, and
  from then on nothing leaves the queue: a message that comes in fragments is not delivered even when all of it has
  arrived (`DtlsReceiveRuns.BlockedRun`; `DtlsDelivery.WholeAfterPart` says when this begins, `DtlsDelivery.RunBlocked`
  that it never ends, and `DtlsDelivery.Delivers` that nothing else is in the way).

The helpers of the constant-time code are right for less than their comments say, but for all that their callers pass:
`constant_time_lt` and `constant_time_ge` compare operands whose difference fits a signed `int`, and
`constant_time_eq_8` fails for operands that differ in the top bit and another one (`ConstantTime.ComparisonsExact`,
`ConstantTime.EqualityExact`); all callers stay below 2^31.

What is outside the code is a parameter: the hash function (its compression function, initial state and output),
the octets each call of the network returns or takes, whether an arriving record authenticates and which records
arrive, the MTU of each write, the clock and the order of the cipher table.

## Model

| member | source | states |
|---|---|---|
| ConstantTime.ComparisonsExact | third-party/libressl-4.0.0/ssl/s3_cbc.c:80-93 | constant_time_lt and constant_time_ge give all ones or zero as their operands compare exactly when the difference of the operands fits a signed int; their comments promise it always |
| ConstantTime.ComparisonsBelow31Bits | third-party/libressl-4.0.0/ssl/s3_cbc.c:80-102 | below 2^31, where the callers stay, the masks of a < b, a >= b and a == b are what their comments promise |
| ConstantTime.EqualityExact | third-party/libressl-4.0.0/ssl/s3_cbc.c:96-102 | constant_time_eq_8 tells equality exactly on operands that do not differ in the top bit and another one; its comment promises it always |
| ConstantTime.ComparisonsFail | third-party/libressl-4.0.0/ssl/s3_cbc.c:80-102 | operands for which each of the three gives the wrong answer; no caller passes operands of 2^31 or more |
| CbcPadding.RemovePadding | third-party/libressl-4.0.0/ssl/s3_cbc.c:115-173 | the result is 1 exactly when, behind the explicit IV, the record has room for the overhead and its last p+1 octets all equal p, and then it is p+1 octets shorter; otherwise the result is -1 or 0, and a publicly long enough record keeps its length without IV (section 6.2.3.2 of RFC 5246) |
| CbcPadding.CheckPadding | third-party/libressl-4.0.0/ssl/s3_cbc.c:136-156 | the loop over at most 256 octets keeps all low bits of good exactly when the padding is well formed |
| CbcPadding.DuplicateLowBits | third-party/libressl-4.0.0/ssl/s3_cbc.c:158-166 | and-ing the low octet together and duplicating it gives all ones exactly when the low octet was all ones |
| CbcPadding.ReturnCode | third-party/libressl-4.0.0/ssl/s3_cbc.c:172-172 | (good & 1) or (not good & -1) is 1 for all ones and -1 for zero |
| CbcCopyMac.CopyMac | third-party/libressl-4.0.0/ssl/s3_cbc.c:194-253 | for every even md_size up to 64 and every length with length >= md_size and orig_len - 256 <= length <= orig_len, exactly data[length - md_size .. length) is written |
| CbcCopyMac.ScanRecord | third-party/libressl-4.0.0/ssl/s3_cbc.c:236-243 | after the scan window, slot j of the rotating buffer holds the MAC octet j - rotate_offset modulo md_size |
| CbcCopyMac.SpoilerIsMultiple | third-party/libressl-4.0.0/ssl/s3_cbc.c:225-234 | the div_spoiler trick computes a true remainder modulo md_size: the spoiler is a multiple of it |
| CbcDigest.WindowBound | third-party/libressl-4.0.0/ssl/s3_cbc.c:485-522 | num_starting_blocks <= index_a <= index_b <= num_starting_blocks + variance_blocks, for 64- and 128-octet blocks and every secret size at most 256 below the public size |
| CbcDigest.Place | third-party/libressl-4.0.0/ssl/s3_cbc.c:504-515 | index_a, c and index_b are the places of the 0x80 octet and of the length field in the padded message |
| CbcDigest.BuildBlock | third-party/libressl-4.0.0/ssl/s3_cbc.c:565-599 | each block of the window, built with masks alone, is the block of the padded message where it exists |
| CbcDigest.BlockByteCorrect | third-party/libressl-4.0.0/ssl/s3_cbc.c:569-598 | octet by octet: data, 0x80, zero or length octet according to the place in the padded message |
| CbcDigest.LengthBytes | third-party/libressl-4.0.0/ssl/s3_cbc.c:524-547 | the octet of weight 256^k of the bit count stands k places before the end of the field for a big-endian hash, and k places behind its start for MD5 |
| CbcDigest.HashStartingBlocks | third-party/libressl-4.0.0/ssl/s3_cbc.c:533-556 | the state after the starting blocks is that of the masked key, the header and the data up to k |
| CbcDigest.HashVariableBlocks | third-party/libressl-4.0.0/ssl/s3_cbc.c:558-606 | the digest kept is that of the block with the length field, that is, of the whole padded message |
| Hmac.PadOctets | third-party/libressl-4.0.0/ssl/s3_cbc.c:504-547 | the padded message octet by octet: the message, 0x80, zeros, and in the last octets of the last block the bit count in the byte order of the hash; no smaller number of blocks would do |
| CbcDigest.DigestRecord | third-party/libressl-4.0.0/ssl/s3_cbc.c:378-628 | with any compression function the result is HMAC (section 2 of RFC 2104) of the header followed by data[..data_plus_mac_size - md_size], for every secret size at most 256 below the public size and every key of up to 128 octets, of which the code uses as many as a block has; a longer key is cut off and not hashed as HMAC wants |
| Der.ParseBuilt | third-party/libressl-4.0.0/ssl/bs_cbs.c:357-441 | every element built with a minimal header and any contents is parsed back, strictly or not, with what follows it left over |
| Der.ParseCanonical | third-party/libressl-4.0.0/ssl/bs_cbs.c:357-441 | the strict parser accepts only minimal headers: what it accepts is the header of its tag and length followed by the contents (section 10.1 of X.690) |
| Der.StrictIffBuilt | third-party/libressl-4.0.0/ssl/bs_cbs.c:357-441 | the strict parser accepts exactly the strings that begin with an element CBB_flush would write |
| Der.LaxIffStrictOrIndefinite | third-party/libressl-4.0.0/ssl/bs_cbs.c:357-441 | the lax parser accepts exactly what the strict one does and, besides, constructed tags with length octet 0x80 (section 8.1.3 of X.690) |
| Der.UintRoundTrip | third-party/libressl-4.0.0/ssl/bs_cbs.c:492-528 | an INTEGER is accepted as a uint64 v exactly when its contents are those CBB_add_asn1_uint64 writes for v (section 8.3.2 of X.690) |
| ByteReader.Cbs.Get | third-party/libressl-4.0.0/ssl/bs_cbs.c:39-49 | n octets are taken from the front exactly when there are as many; otherwise nothing changes |
| ByteReader.Cbs.GetU | third-party/libressl-4.0.0/ssl/bs_cbs.c:147-166 | one to four octets are read as a big-endian number; otherwise nothing changes |
| ByteReader.Cbs.GetU8 | third-party/libressl-4.0.0/ssl/bs_cbs.c:168-178 | one octet is read exactly when there is one |
| ByteReader.Cbs.GetLengthPrefixed | third-party/libressl-4.0.0/ssl/bs_cbs.c:244-253 | the contents announced by a length prefix are split off; on failure the prefix has been consumed exactly when it was there |
| ByteReader.Cbs.GetAnyElement | third-party/libressl-4.0.0/ssl/bs_cbs.c:357-441 | the step-by-step parser agrees with the element grammar: it succeeds exactly on elements, gives tag, header length and octets, and leaves the rest |
| ByteReader.Cbs.GetAsn1Contents | third-party/libressl-4.0.0/ssl/bs_cbs.c:443-473 | the contents of a strict element with the wanted tag, or failure |
| ByteReader.Cbs.GetUint64 | third-party/libressl-4.0.0/ssl/bs_cbs.c:492-528 | exactly the minimal non-negative INTEGERs below 2^64 are read |
| ByteReader.Cbs.GetOptionalAsn1 | third-party/libressl-4.0.0/ssl/bs_cbs.c:530-542 | an element with the tag is read if it is next, absence is not an error |
| ByteReader.Cbs.GetOptionalOctetString | third-party/libressl-4.0.0/ssl/bs_cbs.c:544-565 | an explicitly tagged OCTET STRING without anything behind it, or absence |
| ByteReader.Cbs.GetOptionalUint64 | third-party/libressl-4.0.0/ssl/bs_cbs.c:567-585 | an explicitly tagged INTEGER, or the default when absent |
| WriteTree.CloseKeepsTree | third-party/libressl-4.0.0/ssl/bs_cbb.c:186-274 | closing the innermost child does not change the tree of writes |
| WriteTree.CollapseKeepsTree | third-party/libressl-4.0.0/ssl/bs_cbb.c:186-274 | closing any number of children does not change the tree of writes |
| WriteTree.GrowInserts | third-party/libressl-4.0.0/ssl/bs_cbb.c:91-127 | appending to the innermost builder inserts a node at its depth of the tree |
| WriteTree.OpenInserts | third-party/libressl-4.0.0/ssl/bs_cbb.c:291-311 | opening a child inserts an empty nested node at its depth of the tree |
| Layout.LaidClose | third-party/libressl-4.0.0/ssl/bs_cbb.c:205-265 | with the length written in front of the innermost contents, shifted if need be, the buffer is laid out for the tree with that child closed |
| Layout.LaidAppend | third-party/libressl-4.0.0/ssl/bs_cbb.c:91-127 | octets behind the contents are a node of the innermost builder |
| Layout.LaidOpen | third-party/libressl-4.0.0/ssl/bs_cbb.c:291-366 | a tag and room for a length behind the contents are a new open child |
| ByteBuilder.Buffer.Add | third-party/libressl-4.0.0/ssl/bs_cbb.c:91-127 | room for n octets behind the contents, in a grown copy or, for a fixed buffer, only if they fit; the contents stay |
| ByteBuilder.Buffer.PutLongLength | third-party/libressl-4.0.0/ssl/bs_cbb.c:238-263 | the long form of a length: the contents move up and the length octets come before them |
| ByteBuilder.Buffer.PutLength | third-party/libressl-4.0.0/ssl/bs_cbb.c:205-265 | the length goes in front of the contents exactly when it can be announced, and otherwise nothing in the contents changes |
| ByteBuilder.Cbb.Flush | third-party/libressl-4.0.0/ssl/bs_cbb.c:186-274 | all open children inside are closed, the tree of writes stays, closed children can no longer write; it fails only if some length cannot be announced or a fixed buffer has no room for the serialisation of the tree |
| ByteBuilder.Cbb.FlushChild | third-party/libressl-4.0.0/ssl/bs_cbb.c:197-201 | the child is flushed first, then its length is written |
| ByteBuilder.Cbb.WritePrefix | third-party/libressl-4.0.0/ssl/bs_cbb.c:203-273 | the pending length is written and the child is detached |
| ByteBuilder.Cbb.AddBytes | third-party/libressl-4.0.0/ssl/bs_cbb.c:368-378 | the tree grows by the octets at the depth of the builder, after children are closed |
| ByteBuilder.Cbb.AddU | third-party/libressl-4.0.0/ssl/bs_cbb.c:129-149 | the tree grows by the big-endian octets of the number |
| ByteBuilder.Cbb.AddUint | third-party/libressl-4.0.0/ssl/bs_cbb.c:390-424 | numbers too large for their width are refused and nothing is written for them |
| ByteBuilder.Cbb.AddLengthPrefixed | third-party/libressl-4.0.0/ssl/bs_cbb.c:291-335 | a child with a fixed-width prefix is opened at the depth of the builder |
| ByteBuilder.Cbb.AddAsn1 | third-party/libressl-4.0.0/ssl/bs_cbb.c:337-366 | a child with a tag is opened; only low tag numbers are accepted |
| ByteBuilder.Cbb.AddAsn1Uint64 | third-party/libressl-4.0.0/ssl/bs_cbb.c:439-490 | the tree grows by the INTEGER with the minimal octets of the value |
| ByteBuilder.Cbb.AddUintContents | third-party/libressl-4.0.0/ssl/bs_cbb.c:449-487 | the loop skips leading zeros and writes a zero octet before a set top bit or for zero |
| ByteBuilder.Cbb.Finish | third-party/libressl-4.0.0/ssl/bs_cbb.c:151-179 | a top-level builder gives the serialisation of the tree of writes exactly when every length in it can be announced, a fixed buffer has room for it and there is no buffer yet where it is to go |
| ByteBuilder.Cbb.FinishBytes | third-party/libressl-4.0.0/ssl/bs_cbb.c:151-179 | the finished octets are the recursive serialisation of the tree of writes |
| BuilderRuns.Run | third-party/libressl-4.0.0/ssl/bs_cbb.c:91-490 | any run of calls on the builders that are open, with any flushes and from any capacity, gives the serialisation of its tree of writes, exactly when every call is in range, every length can be announced and a fixed buffer has room for that serialisation |
| Sizes.UsedBound | third-party/libressl-4.0.0/ssl/bs_cbb.c:91-366 | at no time do the builders use more room than the serialisation of what has been written takes with all lengths filled in |
| Sizes.InsertGrows | third-party/libressl-4.0.0/ssl/bs_cbb.c:205-265 | what cannot be announced stays so however much more is written |
| BuilderRuns.RunIsRead | third-party/libressl-4.0.0/ssl/bs_cbs.c:232-271 | what any run writes is read back by the getters that match it |
| BuilderRuns.RunAndRead | third-party/libressl-4.0.0/ssl/bs_cbs.c:232-271 | the builder's run and then the getters' run give back the tree of writes |
| ReadBack.WrittenIsRead | third-party/libressl-4.0.0/ssl/bs_cbs.c:232-271 | the getters that match a tree of writes (raw octets, 8- to 32-bit length prefixes, DER elements) read it back unchanged |
| ReadBack.ReadWasWritten | third-party/libressl-4.0.0/ssl/bs_cbs.c:232-271 | whatever those getters read is the serialisation of what they return: reading and writing are inverse |
| ReadBack.ReadAll | third-party/libressl-4.0.0/ssl/bs_cbs.c:244-271 | the getters called one after the other read what ReadNodes says, or fail exactly when it does |
| Ber.ConvertIsStrict | third-party/libressl-4.0.0/ssl/bs_ber.c:120-240 | whenever conversion succeeds the strict parser accepts its output at every level, so no indefinite length is left |
| Ber.ConvertWritesElements | third-party/libressl-4.0.0/ssl/bs_ber.c:120-240 | what conversion writes are elements with minimal definite lengths only, all the way down |
| Ber.StrictUnchanged | third-party/libressl-4.0.0/ssl/bs_ber.c:120-240 | input that the strict parser accepts at every level is converted exactly when it has no end-of-contents element and is not nested deeper than the limit, and then it comes out byte for byte |
| Ber.EocWritten | third-party/libressl-4.0.0/ssl/bs_ber.c:120-240 | the concrete input for which converting twice fails: 20 80 00 00 becomes 00 00, which is refused |
| BerForest.ConvertExact | third-party/libressl-4.0.0/ssl/bs_ber.c:120-240 | conversion succeeds exactly on elements with minimal length octets or indefinite lengths, none of them end-of-contents, nested no deeper than the limit; it writes definite lengths and, for what it takes for a string in pieces, the contents of the values inside one after the other under the primitive tag (what that means for the value is BerStrings.ConvertKeeps) |
| BerForest.ValuesConverted | third-party/libressl-4.0.0/ssl/bs_ber.c:120-240 | the same for every state of the recursion: headers dropped or kept, end-of-contents expected or not |
| BerForest.ConvertedValues | third-party/libressl-4.0.0/ssl/bs_ber.c:120-240 | whatever is converted is the encoding of some values |
| BerForest.ConvertTwice | third-party/libressl-4.0.0/ssl/bs_ber.c:120-240 | converting the result again succeeds exactly when the input has no value of universal tag zero sent in pieces that are all empty, wherever the converter writes its header, and then changes nothing |
| BerStrings.JoinsExact | third-party/libressl-4.0.0/ssl/bs_ber.c:90-185 | which values of indefinite length the converter takes for strings in pieces, by class and number: any universal type but SEQUENCE (16) and SET (17), and a context-specific one that begins with a definite, non-empty value of such a type |
| BerStrings.GroupKept | third-party/libressl-4.0.0/ssl/bs_ber.c:147-236 | a constructed value that is a SEQUENCE, a SET or of an application or private class is written under its own tag, with an element of its own for each value inside |
| BerStrings.ConvertKeeps | third-party/libressl-4.0.0/ssl/bs_ber.c:120-240 | the result of a conversion is the DER of what the input denotes (sections 8.6.4, 8.7.3 and 10.2 of X.690) exactly when every value in it is kept: no string is in pieces of definite length, those of indefinite length are flat, bit strings among them have one piece, and no context-specific value looks like pieces |
| BerStrings.FormsKept | third-party/libressl-4.0.0/ssl/bs_ber.c:120-240 | the same for any values whose lengths can be announced, at every depth |
| BerStrings.StringKept | third-party/libressl-4.0.0/ssl/bs_ber.c:147-236 | what is written for a string are the octets it denotes exactly when nothing constructed and not empty stands among its pieces, at any depth, other than pieces of indefinite length; otherwise it is longer by two octets or more |
| BerStrings.BitsKept | third-party/libressl-4.0.0/ssl/bs_ber.c:147-236 | what is written for a bit string are its contents exactly when it has one primitive piece and is flat: of several pieces every count of unused bits stays in as data |
| BerStrings.FlatOneType | third-party/libressl-4.0.0/ssl/bs_ber.c:90-96 | when all pieces have the type of the string, flat means that no piece of definite length has pieces inside |
| BerStrings.HeaderBecomesData | third-party/libressl-4.0.0/ssl/bs_ber.c:214-228 | 24 80 24 03 04 01 aa 00 00, the octet string aa, becomes the octet string 04 01 aa |
| BerStrings.CountBecomesData | third-party/libressl-4.0.0/ssl/bs_ber.c:214-233 | 23 80 03 02 00 aa 03 02 00 bb 00 00, the bit string aa bb, becomes the bit string aa 00 bb |
| BerStrings.StaysConstructed | third-party/libressl-4.0.0/ssl/bs_ber.c:214-228 | 24 03 04 01 aa comes out as it is, though DER wants one piece |
| BerStrings.ExplicitTagLost | third-party/libressl-4.0.0/ssl/bs_ber.c:160-194 | a0 80 02 01 05 00 00, the integer 5 under an explicit tag, becomes 80 01 05 |
| BerStrings.ExternalLost | third-party/libressl-4.0.0/ssl/bs_ber.c:90-194 | 28 80 06 01 2a 00 00, an EXTERNAL, becomes 08 01 2a: the type is a sequence by another tag and is taken for a string |
| BerConverter.ConvertIndefinite | third-party/libressl-4.0.0/ssl/bs_ber.c:120-240 | the recursive loop over cursor and builder writes exactly what the conversion function says, or fails when it does |
| BerConverter.ConvertOne | third-party/libressl-4.0.0/ssl/bs_ber.c:132-236 | one turn of that loop |
| BerConverter.ToDefinite | third-party/libressl-4.0.0/ssl/bs_ber.c:262-270 | the converting part succeeds exactly when the input encodes values whose lengths can be announced once they are definite; the output is accepted strictly at every level and is the DER of what the values denote by class and number of their tags exactly when all of them are kept; input accepted strictly at every level comes out unchanged |
| SessionCodec.DecodeEncoded | third-party/libressl-4.0.0/ssl/ssl_asn1.c:238-409 | decoding an encoding, whatever follows it, gives the fields in normal form |
| SessionCodec.SessionRoundTrip | third-party/libressl-4.0.0/ssl/ssl_asn1.c:46-409 | every serialised field comes back unchanged exactly when time is set (or it is time zero now), timeout is set and the ticket is absent or not empty |
| SessionCodec.TimeoutLost | third-party/libressl-4.0.0/ssl/ssl_asn1.c:310-317 | a session whose timeout is zero comes back with three seconds |
| SessionCodec.TicketLost | third-party/libressl-4.0.0/ssl/ssl_asn1.c:381-390 | a session whose ticket is empty comes back without one |
| SessionCodec.TimeLost | third-party/libressl-4.0.0/ssl/ssl_asn1.c:300-307 | a session whose time is zero comes back with the time of decoding |
| SessionCodec.SmallSessionFits | third-party/libressl-4.0.0/ssl/ssl_asn1.c:46-186 | every session with certificate, hostname and ticket of at most 2^28 octets can be encoded |
| SessionOctets.SessionEncoded | third-party/libressl-4.0.0/ssl/ssl_asn1.c:46-186 | an encoded session octet by octet: a SEQUENCE of the version of the format, protocol version, cipher, session id and master key, and under tags 1 to 6, 9 and 10 the other fields, each with the tags and contents it has |
| Session.SslSession.Encode | third-party/libressl-4.0.0/ssl/ssl_asn1.c:46-186 | encoding succeeds exactly when no field is negative, the certificate is not empty and the lengths can be announced, and gives the serialisation of the parts |
| Session.PutPart | third-party/libressl-4.0.0/ssl/ssl_asn1.c:61-171 | each step of the encoder adds its part of the document, or none when the field is not set |
| Session.SslSession.DecodeFrom | third-party/libressl-4.0.0/ssl/ssl_asn1.c:238-409 | the step-by-step decoder fills the fields the decoding function gives, or fails exactly when it does |
| Session.SslSession.DecodeStart | third-party/libressl-4.0.0/ssl/ssl_asn1.c:264-297 | the mandatory elements |
| Session.SslSession.DecodeFirst | third-party/libressl-4.0.0/ssl/ssl_asn1.c:299-344 | the optional elements 1 to 4, with their defaults |
| Session.SslSession.DecodeRest | third-party/libressl-4.0.0/ssl/ssl_asn1.c:346-390 | the optional elements 5 to 10, with their defaults |
| CipherPreference.CipherList.AppendTail | third-party/libressl-4.0.0/ssl/ssl_ciph.c:543-559 | the list stays well linked in both directions and the entry is now last, the others as before |
| CipherPreference.CipherList.AppendHead | third-party/libressl-4.0.0/ssl/ssl_ciph.c:561-577 | the list stays well linked in both directions and the entry is now first, the others as before |
| CipherPreference.CipherList.Unlink | third-party/libressl-4.0.0/ssl/ssl_ciph.c:794-809 | the list stays well linked without the entry, also when it was first, last or alone |
| CipherPreference.CipherList.Treat | third-party/libressl-4.0.0/ssl/ssl_ciph.c:744-809 | one visited entry: taken exactly when it matches and its activity fits the rule, and moved to the end the rule asks for |
| CipherPreference.CipherList.ApplyRule | third-party/libressl-4.0.0/ssl/ssl_ciph.c:713-814 | editing the list while it is traversed, forwards or backwards, amounts to taking the matching entries out in order and putting them in order at the end or the front |
| CipherSelection.MatchesExact | third-party/libressl-4.0.0/ssl/ssl_ciph.c:746-770 | a rule selects a cipher exactly when it has the value the rule names, if it names one, and the strength in bits the rule names or else, for every mask that is not empty, one of its bits; of the mask of strength classes bits 2 to 8 count |
| CipherSelection.RuleSelects | third-party/libressl-4.0.0/ssl/ssl_ciph.c:713-814 | entries that a rule does not select keep activity and order; those it selects are gone after a kill and otherwise all there, active after an addition, inactive after a deletion, as before after a reordering |
| CipherSelection.OneCipher | third-party/libressl-4.0.0/ssl/ssl_ciph.c:746-747 | a rule that names one cipher by its value takes that cipher and no other |
| CipherPreference.CipherList.MaxStrengthBits | third-party/libressl-4.0.0/ssl/ssl_ciph.c:827-834 | the highest strength of an active entry |
| CipherPreference.CipherList.CountUses | third-party/libressl-4.0.0/ssl/ssl_ciph.c:836-850 | a count is positive exactly for the strengths that active entries have |
| CipherPreference.CipherList.StrengthSort | third-party/libressl-4.0.0/ssl/ssl_ciph.c:816-861 | the passes together leave the inactive entries first in their old order, then the active ones by descending strength, ties in their old order |
| CipherPreference.CipherList.Process | third-party/libressl-4.0.0/ssl/ssl_ciph.c:1072-1104 | a run of parsed commands has the effect of the commands one after the other, and says whether a rule names TLS 1.3 or one of its ciphers |
| CipherPreference.CipherList.Configure | third-party/libressl-4.0.0/ssl/ssl_ciph.c:1246-1266 | the commands of the default list and then those behind it; whether TLS 1.3 was named is what the last of them saw |
| CipherPreference.CipherList.MentionsTls13 | third-party/libressl-4.0.0/ssl/ssl_ciph.c:1040-1097 | a rule is about TLS 1.3 exactly when its protocol mask is that of TLS 1.3 or it names a known cipher of TLS 1.3 |
| CipherPreference.CipherList.Select | third-party/libressl-4.0.0/ssl/ssl_ciph.c:1268-1312 | the stack is the configured TLS 1.3 ciphers, then the chosen ones in list order, or nothing if none is active |
| CipherSelection.StackParts | third-party/libressl-4.0.0/ssl/ssl_ciph.c:1268-1312 | if any cipher is active the stack is the configured ciphers of TLS 1.3 and behind them, in list order, the active ones and those of TLS 1.3 that are neither configured apart nor named; otherwise it is empty |
| CipherPreference.CipherList.Collect | third-party/libressl-4.0.0/ssl/ssl_ciph.c:579-644 | the usable ciphers of the table, from its end to its start, inactive and well linked |
| CipherSelection.UsableExact | third-party/libressl-4.0.0/ssl/ssl_ciph.c:606-616 | a cipher is usable exactly when no bit of any of its algorithms is disabled |
| CipherSelection.AvailableExact | third-party/libressl-4.0.0/ssl/ssl_ciph.c:594-624 | the initial list has exactly the usable ciphers of the table, the last of the table first, none active |
| CipherPreference.CipherList.Link | third-party/libressl-4.0.0/ssl/ssl_ciph.c:612-642 | the array of entries becomes a doubly linked list in its order |
| CipherPreference.CreateCipherList | third-party/libressl-4.0.0/ssl/ssl_ciph.c:1167-1318 | the stack is that of the default list and of the commands behind it on the default order of the usable ciphers; inactive TLS 1.3 ciphers are included exactly when the last string processed does not mention TLS 1.3 |
| CipherRules.SortStep | third-party/libressl-4.0.0/ssl/ssl_ciph.c:851-857 | one pass moves one more strength behind the stronger ones already sorted |
| CipherRules.SortSkip | third-party/libressl-4.0.0/ssl/ssl_ciph.c:855-857 | a pass for an unused strength would change nothing |
| CipherRuns.RunKeeps | third-party/libressl-4.0.0/ssl/ssl_ciph.c:713-861 | after any run of rules and sorts the list holds exactly the initial ciphers minus those ever killed, each once and with the activity the rules that match it left |
| CipherRuns.RunIdleFirst | third-party/libressl-4.0.0/ssl/ssl_ciph.c:713-861 | after any run every inactive cipher stands before every active one, if that was so at first |
| CipherRuns.SortedOrders | third-party/libressl-4.0.0/ssl/ssl_ciph.c:816-861 | the sorted list is ordered and keeps each class of entries in its old order |
| CipherRuns.SortedIsTheOnly | third-party/libressl-4.0.0/ssl/ssl_ciph.c:816-861 | no other list is so ordered with the same classes: order and stability determine the result |
| CipherRuns.SortedPermutes | third-party/libressl-4.0.0/ssl/ssl_ciph.c:816-861 | the sort loses and invents nothing |
| CipherRuns.StackExact | third-party/libressl-4.0.0/ssl/ssl_ciph.c:1300-1312 | which ciphers end up in the stack depends, cipher by cipher, on the rules alone and not on any reordering |
| CipherDefaults.FrontStep | third-party/libressl-4.0.0/ssl/ssl_ciph.c:1175-1176 | adding and then deleting a group brings it to the front of an inactive list, both parts in their old order |
| CipherDefaults.ThreeAdds | third-party/libressl-4.0.0/ssl/ssl_ciph.c:1178-1199 | the additions of AES, CHACHA20 and everything else order the list by class of symmetric cipher |
| CipherDefaults.DefaultOrder | third-party/libressl-4.0.0/ssl/ssl_ciph.c:1172-1225 | the calls that set up the default order sort the initial list stably by TLS 1.3 first, strength, not RC4, not plain RSA key exchange, authenticated, not MD5, preferred symmetric cipher, ephemeral ECDH, with nothing active, lost or added |
| CipherSelection.PreferenceExact | third-party/libressl-4.0.0/ssl/ssl_ciph.c:1172-1225 | the eight criteria of that order in terms of single bits of the algorithm masks |
| PriorityQueue.MemcmpOrder | third-party/libressl-4.0.0/ssl/pqueue.c:116-119 | comparing big-endian octets with memcmp compares the numbers |
| PriorityQueue.PQueue.Insert | third-party/libressl-4.0.0/ssl/pqueue.c:104-137 | a duplicate priority is refused and nothing changes; otherwise the linked list is the old one with the item in its place |
| PriorityQueue.InsertedAscending | third-party/libressl-4.0.0/ssl/pqueue.c:104-137 | an insertion keeps strict ascending order and adds one entry, nothing else |
| PriorityQueue.PQueue.Pop | third-party/libressl-4.0.0/ssl/pqueue.c:145-154 | the first item is taken off, or null from an empty queue |
| PriorityQueue.PQueue.Find | third-party/libressl-4.0.0/ssl/pqueue.c:156-167 | the item with this priority, or null exactly when there is none |
| PriorityQueue.PQueue.Next | third-party/libressl-4.0.0/ssl/pqueue.c:175-188 | the iterator visits the items in the order of the list |
| PriorityQueue.PQueue.Size | third-party/libressl-4.0.0/ssl/pqueue.c:190-201 | the length of the list |
| ReplayWindow.SatSub64Be | third-party/libressl-4.0.0/ssl/d1_pkt.c:158-179 | the byte-wise borrow loop gives the exact difference within [-128, 128] and otherwise a value of the same sign and of magnitude at least 128, for all pairs of 64-bit values |
| ReplayWindow.BorrowStep | third-party/libressl-4.0.0/ssl/d1_pkt.c:162-173 | one octet more keeps borrow, higher octets and low octet equal to the difference, and says when all higher octets are 0 or 0xff |
| ReplayWindow.MarkNew | third-party/libressl-4.0.0/ssl/d1_pkt.c:1073-1079 | shifting the map for a new maximum keeps bit k set exactly for received numbers max - k, also when the shift leaves the word |
| ReplayWindow.MarkOld | third-party/libressl-4.0.0/ssl/d1_pkt.c:1080-1084 | a number inside the window sets its bit and no other |
| ReplayWindow.Bitmap.ReplayCheck | third-party/libressl-4.0.0/ssl/d1_pkt.c:1046-1063 | accepted exactly when above the maximum, or inside the window of as many numbers as an unsigned long has bits and not yet marked (section 4.1.2.6 of RFC 6347) |
| ReplayWindow.Bitmap.Update | third-party/libressl-4.0.0/ssl/d1_pkt.c:1065-1085 | after any run of updates bit k is set exactly when max - k was marked |
| DtlsRecords.RecordLayer.BufferRecord | third-party/libressl-4.0.0/ssl/d1_pkt.c:206-250 | a full queue drops the record; otherwise rrec is cleared, and the record queued in its place unless the queue has its number |
| DtlsRecords.RecordLayer.ProcessBufferedRecord | third-party/libressl-4.0.0/ssl/d1_pkt.c:332-354 | only in the epoch of the queue, the record with the lowest number is taken out; an empty queue moves on to the next epoch |
| DtlsRecords.RecordLayer.GetBitmap | third-party/libressl-4.0.0/ssl/d1_pkt.c:1087-1109 | the window of the current epoch, that of the next one for handshake and alert records, or none |
| DtlsRecords.RecordLayer.Receive | third-party/libressl-4.0.0/ssl/d1_pkt.c:497-541 | one complete record is taken, queued, dropped or makes the read fail exactly as RecordStates.Received says; a queued record leaves zero marked instead of its number |
| DtlsRecords.RecordLayer.GetRecord | third-party/libressl-4.0.0/ssl/d1_pkt.c:407-541 | the read is the step Got of the state: first the queue, then the network record by record |
| DtlsRecords.RecordLayer.ChangeEpoch | third-party/libressl-4.0.0/ssl/d1_pkt.c:1111-1116 | the window of the next epoch becomes the current one, and the next one is empty |
| DtlsRecords.RecordLayer.Run | third-party/libressl-4.0.0/ssl/d1_pkt.c:332-541 | over any run of reads, epoch changes and handshakes the queue never exceeds 100 and is drained in increasing order, no slot is accepted more than twice, and none twice exactly when no arriving record repeats one that the queue has given |
| RecordStates.ReceivingSound | third-party/libressl-4.0.0/ssl/d1_pkt.c:497-541 | one complete record: the invariant is kept, the record is taken exactly when it is fresh, of the current epoch and opens without a fatal alert, and the read fails exactly when the queue has the number of an early record already |
| RecordStates.DrainingSound | third-party/libressl-4.0.0/ssl/d1_pkt.c:332-354 | what the queue gives was never accepted before, and the invariant is kept |
| RecordStates.WireExact | third-party/libressl-4.0.0/ssl/d1_pkt.c:407-541 | one read from the network fails exactly when a record collides with the queue, and accepts a slot again exactly when a record repeats one the queue has given |
| RecordStates.RunExact | third-party/libressl-4.0.0/ssl/d1_pkt.c:332-541 | over any run accepted slots are distinct exactly when no arriving record repeats one the queue has given; the queue is bounded and drained in order |
| RecordStates.RunArriving | third-party/libressl-4.0.0/ssl/d1_pkt.c:332-541 | from the state that clearing leaves, accepted slots are distinct exactly when no record that is taken has the slot of one that was put into the queue earlier in the run: a condition on the arriving records |
| RecordStates.RunNotZero | third-party/libressl-4.0.0/ssl/d1_pkt.c:522-531 | a record that is accepted a second time never has the number zero |
| RecordStates.AtMostTwice | third-party/libressl-4.0.0/ssl/d1_pkt.c:332-541 | a slot is accepted once out of the queue and once from the network at most |
| RecordStates.RunDifferent | third-party/libressl-4.0.0/ssl/d1_pkt.c:332-541 | if all arriving records have different slots no insertion meets a duplicate and no slot is accepted twice |
| RecordStates.QueuesExact | third-party/libressl-4.0.0/ssl/d1_pkt.c:497-531 | a record of another epoch is queued exactly when it is a handshake or alert record of the next one, not empty, during a handshake, neither seen nor queued, with room for it; nothing else changes the queue |
| RecordStates.QueuedAgain | third-party/libressl-4.0.0/ssl/d1_pkt.c:206-250 | the same early record arriving again makes the read fail exactly when its number is not zero (and the queue is not full by then): the comment that insertion should not fail does not hold |
| RecordStates.ZeroLost | third-party/libressl-4.0.0/ssl/d1_pkt.c:522-531 | once any early record is queued the genuine record with number zero is refused |
| RecordStates.AcceptedAgain | third-party/libressl-4.0.0/ssl/d1_pkt.c:332-541 | an early record, a ChangeCipherSpec and the early record again: it is accepted twice exactly when its number is not zero |
| RecordStates.UnauthenticatedRefused | third-party/libressl-4.0.0/ssl/d1_pkt.c:497-541 | a record of the current epoch that fails authentication changes nothing when it is not fresh or empty; otherwise no record of its epoch and number, the genuine one included, is taken in any run that follows |
| RecordStates.InitialSound | third-party/libressl-4.0.0/ssl/d1_lib.c:187-210 | the state that clearing leaves satisfies the invariant |
| RecordStates.Discarded | third-party/libressl-4.0.0/ssl/d1_pkt.c:469-480 | a record is thrown away unread exactly when it is longer than 16384 + 256 + 64 octets, of another major version or, once the version is settled, of another minor one |
| ReassemblyBitmask.MarkInterval | third-party/libressl-4.0.0/ssl/d1_both.c:132-141 | on the bitwise and on the bytewise path exactly the bits of the interval are set in addition |
| ReassemblyBitmask.TableBits | third-party/libressl-4.0.0/ssl/d1_both.c:151-156 | the table entries are the bits from j on and the bits below j |
| ReassemblyBitmask.MaskComplete | third-party/libressl-4.0.0/ssl/d1_both.c:143-149 | complete exactly when the bits below msg_len are all set and no others |
| ReassemblyBitmask.Reassembly.Mark | third-party/libressl-4.0.0/ssl/d1_both.c:132-141 | after any marks a bit is set exactly when some marked interval contains it (section 4.2.3 of RFC 6347) |
| ReassemblyBitmask.Reassembly.IsComplete | third-party/libressl-4.0.0/ssl/d1_both.c:143-149 | complete exactly when the marked intervals cover [0, msg_len) |
| HandshakeFragment.HmFragment.AddSlice | third-party/libressl-4.0.0/ssl/d1_both.c:611-626 | the slice is copied in place; the bitmask is dropped exactly when the slices cover the message, and then the octets are the body |
| HandshakeFragment.HmFragment.WholeIffAllGot | third-party/libressl-4.0.0/ssl/d1_both.c:617-626 | the bitmask is gone exactly when all octets of the message have arrived |
| HandshakeHeader.GetMessageHeader | third-party/libressl-4.0.0/ssl/d1_both.c:1171-1198 | twelve octets are the header that writes them |
| HandshakeHeader.WriteMessageHeader | third-party/libressl-4.0.0/ssl/d1_both.c:1120-1147 | the header is written exactly when all its fields fit, into its twelve octets and nowhere else |
| HandshakeHeader.OctetsInjective | third-party/libressl-4.0.0/ssl/d1_both.c:1120-1198 | different headers have different octets |
| HandshakeStream.Stream.ReadBytes | third-party/libressl-4.0.0/ssl/d1_pkt.c:741-900 | a read gives what is next in the current record or the next one that is not empty, and never reaches beyond it |
| HandshakeStream.Stream.Discard | third-party/libressl-4.0.0/ssl/d1_both.c:597-606 | exactly the data of the fragment are read and forgotten |
| DtlsReceive.Receiver.PreprocessFragment | third-party/libressl-4.0.0/ssl/d1_both.c:434-481 | the header is noted and the buffer has room exactly when the fragment is within message and limit |
| DtlsReceive.Receiver.RetrieveBufferedFragment | third-party/libressl-4.0.0/ssl/d1_both.c:483-534 | the entry at the head is taken out exactly when it is that of the next message and all its octets are there, and delivered exactly when it is within the limit; otherwise nothing changes |
| DtlsReceive.Receiver.ReassembleFragment | third-party/libressl-4.0.0/ssl/d1_both.c:552-649 | whatever order, overlap or repetition, exactly the octets of the fragment are added to those in the queue, unless the message is longer than both 12 + 16384 + 256 + 64 octets and max_cert_list, and then nothing is read |
| DtlsReceive.Receiver.ProcessOutOfSeqMessage | third-party/libressl-4.0.0/ssl/d1_both.c:652-736 | exactly the fragments of wanted messages are queued, unless they are whole and the queue has an entry; others are read and dropped; the octets in the queue grow by exactly what is queued; only a fragment of a message above both limits stays unread |
| DtlsReceive.Receiver.TakeWhole | third-party/libressl-4.0.0/ssl/d1_both.c:817-855 | an unfragmented message whose turn it is is delivered exactly when it is within the limit; otherwise a fatal alert is sent |
| DtlsReceive.Receiver.Dispatch | third-party/libressl-4.0.0/ssl/d1_both.c:780-855 | every fragment is delivered, queued, dropped, skipped as a HelloRequest, rejected with an alert or left unread in the stream, each exactly when FateOf says so; only queueing one changes the queue |
| DtlsDelivery.TooLongExact | third-party/libressl-4.0.0/ssl/d1_both.c:541-562 | which fragments are too long: those of messages above both limits, where they would be put together or kept for later |
| DtlsReceive.Receiver.ReadyExact | third-party/libressl-4.0.0/ssl/d1_both.c:497-509 | the head of the queue can be delivered exactly when all octets of the expected message have arrived and nothing of an older message is in the queue |
| DtlsReceive.Receiver.GetMessageFragment | third-party/libressl-4.0.0/ssl/d1_both.c:739-863 | either the attempt to get message handshake_read_seq has ended as Waiting.Awaited says of what is in the queue and to come, or one fragment has been queued or dropped and it has not |
| DtlsReceive.Receiver.GetMessage | third-party/libressl-4.0.0/ssl/d1_both.c:371-432 | whether the expected message is delivered, an alert is sent, a fragment stays unread or input is lacking, what is in the queue then and which fragments are left, is exactly what Waiting.Awaited says; a delivered message is there byte for byte behind its rebuilt header, which also goes to the transcript, and the number goes up by one |
| DtlsReceive.Receiver.ReceiveMessages | third-party/libressl-4.0.0/ssl/d1_both.c:371-432 | over any run of arrivals and calls the transcript is exactly that of messages 0, 1, 2, ... in order and without a gap, and how many they are, what is in the queue and what is left is what AfterAll says |
| DtlsDelivery.Delivers | third-party/libressl-4.0.0/ssl/d1_both.c:371-855 | with nothing older in the queue and no message above the limits, the expected message is given as soon as all of its octets have come, in whatever order, overlap and company |
| DtlsDelivery.RefusedWhy | third-party/libressl-4.0.0/ssl/d1_both.c:434-453 | an alert is sent only for a message beyond the caller's limit or for a HelloRequest with a body |
| DtlsDelivery.UnreadWhy | third-party/libressl-4.0.0/ssl/d1_both.c:558-562 | what stays unread is a fragment of a message above both limits |
| DtlsDelivery.WholeAfterPart | third-party/libressl-4.0.0/ssl/d1_both.c:817-855 | a message that comes in one piece while the queue holds a part of it leaves that part there, older than what is expected then |
| DtlsDelivery.RunBlocked | third-party/libressl-4.0.0/ssl/d1_both.c:497-509 | while anything of an older message is in the queue nothing leaves it in any run, and a message is given only if it has come in one piece |
| DtlsDelivery.RunOver | third-party/libressl-4.0.0/ssl/d1_both.c:371-432 | a run fails for another reason than lack of input only if some message is above the limits or a HelloRequest with a body |
| DtlsReceiveRuns.BlockedRun | third-party/libressl-4.0.0/ssl/d1_both.c:371-534 | for any messages of two octets and more: message 0 comes in part and then in one piece, message 1 in two parts; all octets of message 1 are then in the queue, no alert is sent and nothing lost, but message 1 is not delivered |
| DtlsReceiveRuns.FirstCall | third-party/libressl-4.0.0/ssl/d1_both.c:558-560 | the call that meets the first part of a message that is too long fails without an alert, and what the fragment carries stays in the stream |
| DtlsReceiveRuns.LongMessageRun | third-party/libressl-4.0.0/ssl/d1_both.c:371-560 | that call and the next one, for any length and any message whose octets stand at the front of the long body: the next call delivers that message, which no one sent, as message 0 |
| DtlsReceive.CompleteIffArrived | third-party/libressl-4.0.0/ssl/d1_both.c:617-626 | an entry of the queue is complete exactly when all octets of its message are in the queue |
| DtlsSend.Sender.SendFragment | third-party/libressl-4.0.0/ssl/d1_both.c:279-341 | the header is written over octets already sent and the record carries the slice; no unsent octet is overwritten |
| DtlsSend.Sender.CurrentMtu | third-party/libressl-4.0.0/ssl/d1_both.c:247-259 | the room for a record and its overhead is what the MTU leaves beside the octets pending, or all of the MTU when that is no more than a fragment header and the network has to be flushed |
| DtlsSend.Sender.NextFragment | third-party/libressl-4.0.0/ssl/d1_both.c:247-341 | any usable MTU gives a slice that is not empty, unless the body is; its record with header and overhead keeps to the MTU, together with what is pending unless that had to be flushed, and fills that room unless it is the last |
| DtlsSend.Sender.DoWriteHandshake | third-party/libressl-4.0.0/ssl/d1_both.c:210-362 | under any sequence of usable sizes the records carry consecutive slices that cover the body exactly once, each keeps to the room of its turn under the MTU and each but the last fills it, and the transcript gets the single-fragment header and the whole body (section 4.2.6 of RFC 6347) |
| DtlsSend.CutsCoverOnce | third-party/libressl-4.0.0/ssl/d1_both.c:247-362 | every octet of the body is in one slice and slices do not overlap |
| DtlsSend.CarriedIsGenuine | third-party/libressl-4.0.0/ssl/d1_both.c:279-291 | the records sent are fragments the receiver model takes as genuine, in the format it reads |
| DtlsSend.PriorityOrder | third-party/libressl-4.0.0/ssl/d1_both.c:893-908 | priorities are ordered like the messages, with a ChangeCipherSpec before the Finished of its number, and never collide |
| DtlsSend.Sender.BufferMessage | third-party/libressl-4.0.0/ssl/d1_both.c:938-989 | the message is kept behind all earlier ones with its content, session and epoch |
| DtlsSend.Sender.UseWriteEpoch | third-party/libressl-4.0.0/ssl/tls12_record_layer.c:307-324 | the write epoch is switched exactly when that protection still exists |
| DtlsSend.Sender.RetransmitMessage | third-party/libressl-4.0.0/ssl/d1_both.c:991-1063 | the message is found by its priority and sent under its saved epoch exactly when that still exists, in records that keep to the MTU; then epoch and session are restored and the transcript is untouched |
| DtlsSend.Sender.RetransmitBufferedMessages | third-party/libressl-4.0.0/ssl/d1_both.c:910-936 | all kept messages are sent again in the order first buffered, each under its saved epoch and within the MTU, exactly when all epochs still exist; then everything is restored |
| DtlsHandshake.Exchange | third-party/libressl-4.0.0/ssl/d1_both.c:210-432 | from sender to receiver: however messages are cut up and sent again, and whatever records are lost, repeated or reordered, the receiver's transcript is that of the first messages and a prefix of the sender's |
| DtlsHandshake.ExchangeInOrder | third-party/libressl-4.0.0/ssl/d1_both.c:210-855 | if nothing is lost and the order is kept, the receiver's transcript is the sender's: all messages are delivered, provided the receiver accepts each of them at all |
| DtlsInOrder.InOrderDelivers | third-party/libressl-4.0.0/ssl/d1_both.c:371-855 | when the slices of all messages come one after the other, in order, as many calls as there are messages give them all and leave nothing in the queue |
| DtlsHandshake.SendAll | third-party/libressl-4.0.0/ssl/d1_both.c:210-362 | the sender's transcript is that of all messages, and every record ever written carries a genuine fragment and keeps to the MTU |
| DtlsHandshake.OutputsGenuinely | third-party/libressl-4.0.0/ssl/d1_both.c:910-1063 | what retransmission writes are genuine fragments again |
| TlsReadBuffer.ReadBuffer.ReadN | third-party/libressl-4.0.0/ssl/ssl_pkt.c:152-289 | finished packets, the packet in the making and the octets behind it are always exactly what was read, in order; n octets join the packet exactly when they are there already, or there is room and they come before a read fails; otherwise the result is -1 for lack of room or what the failing read gave, with all that came before it kept; without read-ahead no more is read than asked for |
| TlsReadBuffer.ReadBuffer.StartPacket | third-party/libressl-4.0.0/ssl/ssl_pkt.c:174-198 | starting a packet, with or without the alignment move, loses no octet that was read ahead |
| TlsReadBuffer.ReadBuffer.MoveToFront | third-party/libressl-4.0.0/ssl/ssl_pkt.c:218-228 | the move to the front keeps packet and pending octets |
| TlsReadBuffer.ReadBuffer.BioRead | third-party/libressl-4.0.0/ssl/ssl_pkt.c:250-259 | a read fails exactly when nothing is ready, and otherwise takes some of what is |
| TlsReadBuffer.ReadBuffer.Fill | third-party/libressl-4.0.0/ssl/ssl_pkt.c:246-280 | short reads append what was read, in order, until n octets are there, exactly when so many come before a read fails; otherwise all that came is there and the result is that of the failing read |
| TlsReadBuffer.ReadBuffer.PacketRead | third-party/libressl-4.0.0/ssl/ssl_pkt.c:291-303 | a new packet of the wanted length exactly when its octets are there or come in time and have room; otherwise none, and why |
| TlsReadBuffer.ReadBuffer.PacketExtend | third-party/libressl-4.0.0/ssl/ssl_pkt.c:305-321 | the packet has the wanted length exactly when its octets are there or come in time and have room; otherwise it is unchanged, and why |
| TlsReadBuffer.ReadBuffer.Run | third-party/libressl-4.0.0/ssl/ssl_pkt.c:152-321 | over any run in which packets are extended between their start and their end, the octets of the packets are those of the network, first in first out |
| TlsWriteBuffer.Writer.WritePending | third-party/libressl-4.0.0/ssl/ssl_pkt.c:632-676 | a retry with other arguments is refused; otherwise all is sent exactly when the network takes it before a write fails, and if not the result is that of the failing write and what was taken is gone from the buffer; nothing is lost or repeated |
| TlsWriteBuffer.Writer.DoWrite | third-party/libressl-4.0.0/ssl/ssl_pkt.c:532-629 | data are sealed only when nothing is left to send, once, behind an empty record where one is due; the call fails for a retry with other arguments or as the network does, and succeeds when the network takes all that is sealed |
| TlsWriteBuffer.Writer.WriteBytes | third-party/libressl-4.0.0/ssl/ssl_pkt.c:474-530 | however many calls fail before one succeeds, from whatever addresses and of whatever lengths, each octet of the message is sealed once and in order, and the network has the sealed octets once, in order; if all calls give the whole message all records but the last are full; a call that repeats what was sealed or has more to send fails only as the network does |
| TlsWriteBuffer.ChunksCover | third-party/libressl-4.0.0/ssl/ssl_pkt.c:503-529 | the chunks together are the message, none empty and none above the maximum |

## Left out

Deliberately narrower contracts:

- CbcPadding.RemovePadding: lengths below 2^31 only, as everywhere in the callers; the exact behaviour of the comparisons beyond that is ConstantTime.ComparisonsExact.
- CbcCopyMac.CopyMac: an odd md_size is outside the contract, as the source itself demands an even one, and lengths are below 2^31; the alignment of rotated_mac and the volatile read of a second cache line have no functional effect and are not there.
- CbcDigest.DigestRecord: failing allocations are left out, and a key of more than 128 octets, which the source's own assertion refuses.
- BerConverter.ToDefinite: the part of CBS_asn1_indefinite_to_definite that converts; the pre-check cbs_find_indefinite, which decides whether it is reached at all, is left out because it can miss nested indefinite elements.
- BerStrings.ConvertKeeps: a bit string one of whose pieces has no octet at all, not even the count of unused bits, denotes nothing and is outside it. Unused bits in pieces before the last are not looked at, and values of primitive types other than strings are taken as they are. A context-specific constructed value is taken as a group of values, as under an explicit tag; what an implicit tag means depends on a schema.
- ByteBuilder.Buffer.Add: overflow of size_t and failing allocations are left out; a buffer either grows or is fixed.
- BuilderRuns.Run: octets, numbers, DER children and 8-, 16-, 24- and 32-bit prefixes; CBB_discard_child is left out (on an ASN.1 child it leaves the tag octet behind).
- SessionCodec.SessionRoundTrip: a certificate is opaque octets and a function says what d2i_X509 finds at the front of some octets; sessions whose encoding is too long for a DER length are outside it.
- CipherPreference.CipherList.Process: commands are given parsed; the text of a rule string, the table of aliases and the lookup of cipher names in ssl_cipher_process_rulestr are left out, and so are SECLEVEL, strings that cannot be parsed and TLS 1.3 names in a specification that selects nothing.
- CipherPreference.CreateCipherList: rule strings come parsed and do not fail.
- CipherPreference.CipherList.StrengthSort: number_uses is an array indexed by strength as in the source; failing allocations are left out.
- ReplayWindow.SatSub64Be: the byte-wise loop; the big-endian 64-bit shortcut before it is left out.
- DtlsRecords.RecordLayer.Receive: the branches for listen mode are left out.
- DtlsRecords.RecordLayer.GetRecord: a header or body that is still to come when the read returns, with rstate kept for the next one, is left out.
- DtlsRecords.RecordLayer.Run: a record that fails authentication counts as accepted too, because the code marks it in the window (RecordStates.UnauthenticatedRefused). Wrap-around of sequence numbers and epochs is left out, an epoch changes only after a ChangeCipherSpec from the network, and partly received headers or bodies in dtls1_get_record are records that are dropped.
- DtlsReceive.Receiver.ReceiveMessages: empty fragments of messages that are not empty are assumed away, since the code takes one for the whole message, and so are records that end before their last fragment does: the code would go on with a short body. After a message that is too long the run is not followed any further, but for DtlsReceiveRuns.LongMessageRun.
- DtlsReceive.Receiver.GetMessage: the path for a message that is to be used again (reuse_message) and listen mode are left out.
- DtlsReceive.Receiver.Dispatch: the callbacks of a HelloRequest are left out.
- DtlsSend.Sender.DoWriteHandshake: every write of a record succeeds and every usable size is more than the header of a message; the retry after an exceeded MTU and entering again after a failed write are left out, because the code adjusts init_off twice or starts frag_off again there.
- HandshakeStream.Stream.ReadBytes: ssl_read_bytes as far as handshake records go; alerts, other content, timeouts and errors of the network are left out.
- DtlsSend.PriorityOrder: numbers below 2^15, a ChangeCipherSpec numbered like the Finished that follows, whose number is not zero.
- DtlsSend.Sender.BufferMessage: numbers below 2^15, whose priorities fit two octets, and a message that is behind all those kept; one with the priority of another would be refused by the queue, and the code does not look at that.
- DtlsSend.Sender.RetransmitMessage: every write succeeds.
- DtlsSend.Sender.RetransmitBufferedMessages: every write succeeds, and the messages were buffered in the order of their priorities, as the handshake does.
- DtlsHandshake.ExchangeInOrder: the same as for DtlsHandshake.Exchange.
- DtlsHandshake.Exchange: all messages are under epoch 0 without a ChangeCipherSpec, each record carries one fragment and goes to the receiver without a record layer between, and records that were altered or made by someone else are outside it.
- TlsReadBuffer.ReadBuffer.ReadN: the DTLS branch, the mode that releases buffers and a missing buffer or BIO are left out; the alignment of the buffer's address is a parameter.
- TlsWriteBuffer.Writer.DoWrite: sealing is an uninterpreted function that never fails, and the buffer has room for two sealed records; sending alerts first, the alignment for two headers, a handshake in the middle of a write and the DTLS branch are left out.
- TlsWriteBuffer.Writer.WriteBytes: a retry gives octets that agree with those sealed so far as far as both go; the code compares address, length and kind, and not the octets.

Not modelled at all:

- `example/` and `src/`: sockets, logging and crash dumps.
- BIOs, timers, locks, error queues, SSL_ctrl and accessors.
- The protection of records, key derivation, X.509 and the hash functions themselves; where they matter they are parameters.
- The handshake state machines of client and server, signature algorithms and security levels: one-branch claims, or dependent on code outside the directory.
- DTLS listen mode, the queue of application data that arrives during a handshake, and HelloRequests elsewhere than in dtls1_get_message_fragment.
- How long the constant-time code takes: only what it computes is stated.

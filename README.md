# genicam-rs core, modelled in Dafny

This project models the logic core of genicam-rs, a Rust implementation of the
GigE Vision transport layer and of GenApi, the GenICam feature-description
standard. The model covers:

- the byte-level codecs of the control protocols:
  - GenCP command encoding and acknowledgement decoding;
  - GVCP request headers, discovery acknowledgements and resend acknowledgements;
  - event-channel (EVENTDATA) packets;
  - the action-command payload;
  - chunk value decoding;
- GenApi bitfield extraction and insertion on 1 to 8 byte registers;
- the XML-independent helper logic of the GenApi XML loader:
  - the bitfield and addressing builders;
  - number, URL, access-mode, byte-order and enum-entry parsing;
- the SwissKnife expression lexer, parser and identifier collection, plus the
  error paths of evaluation;
- the stateful parts of the transport:
  - the GVCP retry loop and its backoff;
  - request-id wrapping;
  - `read_mem`/`write_mem` chunking;
  - the timestamp sample windows and the least-squares fit with its outlier refit, on exact reals;
  - the statistics counters;
  - the single-block GVSP reassembly step;
  - the stream builder's configuration resolution;
- the small parsers and formatters of the `gencamctl` tool and of the soak benchmark:
  - selector lists;
  - MAC formatting;
  - Netpbm headers;
  - device selection;
  - duration suffixes;
  - argument validation.

Each Rust source file becomes one Dafny module:

- Pure code becomes datatypes, functions and lemmas.
- Code that changes state step by step becomes methods with loops and invariants.
- Structs whose fields are updated in place become classes.

Unsigned integer widths are subset types of `int` (`u8` … `u64`), and wrap-around is written out
explicitly. The shared helpers are in four modules:

- `Wrappers` (Option, Result);
- `Bytes` (big- and little-endian codecs);
- `Text` (Rust's Unicode `trim`, ASCII case, splitting, integer parsing with `ParseIntError`'s messages, and decimal/hex formatting);
- `Utf8` (`String::from_utf8_lossy`: maximal ill-formed subparts become U+FFFD).

Sockets, clocks and random numbers are not modelled as such. The bytes a socket would
deliver, the jitter and the random request ids become inputs, and transports become
sequences of replies or abstract results.

## Model

| member | source | states |
|---|---|---|
| Nic.SaturatingSub | crates/tl-gige/src/nic.rs:19 | `saturating_sub`: the difference when it is non-negative, otherwise 0 |
| Nic.MaxPayloadFromMtu | crates/tl-gige/src/nic.rs:16-20 | mtu − 36 when mtu ≥ 36, else 0; never larger than the MTU |
| Nic.MaxPayloadMonotone | crates/tl-gige/src/nic.rs:19 | a larger MTU never gives a smaller payload, and the payload grows by at most the MTU difference |
| Nic.DefaultBindAddr | crates/tl-gige/src/nic.rs:28-30 | the default bind address is IPv4 0.0.0.0 |
| BitOps.ValidateRange | crates/genapi-core/src/bitops.rs:28-48 | accepts exactly the in-range configurations; an empty or over-8-byte register is UnsupportedWidth, a length of 0 or over 64 is UnsupportedLength, an extent beyond the register is OutOfRange, checked in that order |
| BitOps.MaskFor | crates/genapi-core/src/bitops.rs:50-56 | the mask plus one is 2^length, so `mask_for(64)` is `u64::MAX` |
| BitOps.RegisterValue | crates/genapi-core/src/bitops.rs:63-77 | the register read as one integer in the given byte order stays below 2^(8·n) |
| BitOps.Encode | crates/genapi-core/src/bitops.rs:118-125 | the n-byte payload written back from an integer has exactly n bytes |
| BitOps.InsertSpec | crates/genapi-core/src/bitops.rs:92-126 | a successful insert keeps the payload length |
| BitOps.ReadRegister | crates/genapi-core/src/bitops.rs:63-72 | the byte loop accumulates exactly the register value for the byte order (byte 0 least significant in little endian, most significant in big endian) |
| BitOps.WriteRegister | crates/genapi-core/src/bitops.rs:118-125 | the write-back loop leaves the array holding the encoding of the new register value |
| BitOps.Extract | crates/genapi-core/src/bitops.rs:59-89 | `extract` returns the specified field value or error, and every value fits the mask |
| BitOps.Insert | crates/genapi-core/src/bitops.rs:92-126 | `insert` succeeds exactly when the specification does and leaves the specified bytes; on an error the array is unchanged |
| BitOps.ClearThenSet | crates/genapi-core/src/bitops.rs:107-121 | clearing the field with the mask and OR-ing in the shifted value is the splice of the value into the field |
| BitOps.SpliceField | crates/genapi-core/src/bitops.rs:120-121 | after the splice the field holds exactly the inserted value |
| BitOps.SpliceKeepsBit | crates/genapi-core/src/bitops.rs:107-108 | every bit outside the field survives the splice |
| BitOps.RegisterValueOfEncode | crates/genapi-core/src/bitops.rs:63-77 | reading back an encoded register gives the same integer, in both byte orders |
| BitOps.ExtractFitsMask | crates/genapi-core/src/bitops.rs:61-77 | an extracted value is at most the mask, that is below 2^bit_length |
| BitOps.InsertOutcome | crates/genapi-core/src/bitops.rs:93-100 | for an in-range field, insert succeeds exactly when the value fits; a wider value is ValueTooWide |
| BitOps.InsertExtractRoundTrip | crates/genapi-core/src/bitops.rs:101-126 | extracting after inserting an in-range value gives the value back, in both byte orders |
| BitOps.InsertKeepsOtherBits | crates/genapi-core/src/bitops.rs:107-108 | every register bit outside the field is the same before and after insert |
| BitOps.ExtractLittleExample | crates/genapi-core/src/bitops.rs:151-157 | [12 34 56 78], offset 8, length 8, little endian extracts 0x34 |
| BitOps.ExtractBigExample | crates/genapi-core/src/bitops.rs:159-165 | [A0 F0], offset 0, length 3, big endian extracts 0b101 |
| BitOps.InsertLittleExample | crates/genapi-core/src/bitops.rs:167-175 | inserting 0xAB at offset 8 of a zero little-endian register gives [00 AB 00 00] |
| BitOps.InsertBigExample | crates/genapi-core/src/bitops.rs:177-185 | inserting 2 at offset 0, length 3 of big-endian [80 00] gives [40 00] |
| BitOps.InsertTooWideExample | crates/genapi-core/src/bitops.rs:187-193 | 0x20 into a 4-bit field is ValueTooWide(4, 0x20) |
| GenCp.CommandFlags.Bits | crates/genicp/src/lib.rs:15-17 | the raw flag word has bit 0 exactly for ACK_REQUIRED and bit 15 exactly for BROADCAST |
| GenCp.OpCodeTable | crates/genicp/src/lib.rs:32-50 | ReadMem is 0x0084 and WriteMem 0x0086, each ack code is the command code plus one, and `from_command` inverts `command_code` |
| GenCp.FromAckInvertsAckCode | crates/genicp/src/lib.rs:53-59 | `from_ack` succeeds exactly on 0x0085 and 0x0087 and inverts `ack_code`; any other code is UnknownOpcode of that code |
| GenCp.ToRawFromRaw | crates/genicp/src/lib.rs:83-106 | `to_raw(from_raw(r)) == r` for every u16 r |
| GenCp.FromRawToRaw | crates/genicp/src/lib.rs:83-106 | `from_raw(to_raw(s)) == s` exactly for the statuses `from_raw` can produce |
| GenCp.EncodeCmd | crates/genicp/src/lib.rs:167-176 | the command is 8 + payload bytes: big-endian flags, command code, length and request id, then the payload verbatim |
| GenCp.DecodeAck | crates/genicp/src/lib.rs:179-207 | under 8 bytes is "too short"; a total length other than 8 + length field is "length mismatch", checked before the opcode; otherwise success exactly for a known ack opcode, keeping status, opcode, length and request id, with the payload exactly the bytes after the header |
| GenCp.AckBytes | crates/genicp/src/lib.rs:196-206 | the wire form of an acknowledgement is 8 + payload bytes |
| GenCp.DecodeAckBytes | crates/genicp/src/lib.rs:179-207 | decoding the bytes of a well-formed acknowledgement gives it back |
| GenCp.DecodeAckThenEncode | crates/genicp/src/lib.rs:179-207 | a decoded acknowledgement re-encodes to exactly the bytes it came from |
| GenCp.DecodeReadMemAckExample | crates/genicp/src/lib.rs:242-258 | the unit test's ReadMem ack decodes to status Success, request id 0x4242 and payload AA AA AA AA |
| GenCp.DecodeWriteMemAckExample | crates/genicp/src/lib.rs:260-272 | the unit test's empty WriteMem ack decodes with request id 0x1001 |
| GenCp.DecodeLengthMismatchExample | crates/genicp/src/lib.rs:189-194 | a length field disagreeing with the datagram is rejected even with an unknown opcode |
| GenCp.EncodeCmdExample | crates/genicp/src/lib.rs:213-240 | the unit test's ReadMem command encodes to the expected header, address and length bytes |
| EventMessage.EventOf | crates/tl-gige/src/message.rs:100-142 | the packet keeps the sender and the event id at offset 8; its payload is the tail of the datagram, as long as a non-zero declared payload length says |
| EventMessage.ParseEvent | crates/tl-gige/src/message.rs:45-142 | a datagram under 10 bytes is "packet too short" and one over 2048 bytes "packet too large"; parse succeeds exactly on well-formed event datagrams (status 0, opcode 0x000D, length + 8 equal to the datagram, the mandatory reserved field, a non-zero declared payload length matching the rest) and returns the fields at their offsets, with timestamp (high << 32) \| low and the payload exactly the remaining bytes |
| EventMessage.ChannelFieldsGap | crates/tl-gige/src/message.rs:102-118 | a 26- or 27-byte datagram is always rejected, because the channel fields are read and the reserved field then no longer fits; an accepted datagram under 26 bytes has stream channel 0 |
| EventMessage.EventHead | crates/tl-gige/src/message.rs:210-228 | the test packet's GVCP header: status 0, opcode EVENTDATA_ACK, length 20 + payload |
| EventMessage.EventBody | crates/tl-gige/src/message.rs:210-228 | the test packet's 20-byte event header holds event id, timestamp, channel, block and payload length at their offsets |
| EventMessage.BuildEvent | crates/tl-gige/src/message.rs:210-228 | a full event datagram is 28 bytes plus the payload |
| EventMessage.BuildEventFields | crates/tl-gige/src/message.rs:45-142 | in a built datagram the status, opcode, length, event id, timestamp, channel, block and payload size sit at the offsets the parser reads them from, and the payload follows byte 28 |
| EventMessage.BuildThenParse | crates/tl-gige/src/message.rs:45-142 | any datagram built with all fields parses back to every field and the payload |
| EventMessage.UnitTestPacket | crates/tl-gige/src/message.rs:210-240 | the unit test's 32-byte packet parses to event 0x1234, timestamp 0x0002_0003_0004_0005, channel 7, block 8, payload 1 2 3 4 |
| EventMessage.Received | crates/tl-gige/src/message.rs:176-178 | the 2048-byte receive buffer holds at most 2048 bytes, and a datagram that fits unchanged |
| EventMessage.Recv | crates/tl-gige/src/message.rs:175-191 | `recv` never returns a malformed packet: everything before the returned one was discarded, a receive error is passed on, and the returned packet is the parse of the first well-formed datagram |
| Action.EncodePayload | crates/tl-gige/src/action.rs:50-61 | the payload is exactly 24 bytes: device key, group key, group mask, scheduled time high and low words (0 when absent), channel, then 0 |
| Action.PayloadTicks | crates/tl-gige/src/action.rs:55 | the two time words read as one u64 are the scheduled time, and an absent time is 0 ticks |
| Action.PayloadLayoutExample | crates/tl-gige/src/action.rs:181-198 | the unit test's payload has its fields at the expected offsets |
| Action.ParseAck | crates/tl-gige/src/action.rs:63-80 | fails exactly on input shorter than 8 bytes; otherwise status, command, length and request id are the four big-endian words |
| Action.ParseAckOfHeader | crates/tl-gige/src/action.rs:200-210 | any header a device sends parses back whatever follows it |
| Action.ActionPacket | crates/tl-gige/src/action.rs:107-120 | the datagram is 32 bytes, ACK_REQUIRED always and BROADCAST exactly for 255.255.255.255, ACTION_CMD, length 24, the request id, then the payload |
| Action.Wait | crates/tl-gige/src/action.rs:131-163 | the wait loop only ever adds sources to the counted set, and fails only on a reply it reached |
| Action.WaitSources | crates/tl-gige/src/action.rs:141-163 | the counted sources are exactly those of acknowledgements with opcode 0x0081, the request id and status Success that arrive before the loop stops |
| Action.WaitFails | crates/tl-gige/src/action.rs:140 | the wait fails exactly when it reaches a datagram too short for a GVCP header |
| Action.RepeatedAckCountsOnce | crates/tl-gige/src/action.rs:160-162 | two acknowledgements from one device count once |
| Action.SendAction | crates/tl-gige/src/action.rs:87-179 | IPv6 is InvalidInput and sends nothing; an IPv4 send emits exactly the action datagram; a failed send is an error; a zero timeout gives sent 1, acks 0; otherwise acks is the number of distinct counted sources |
| Action.WaitForAcks | crates/tl-gige/src/action.rs:131-170 | the receive loop returns the size of the counted-source set, or the wait's error |
| Gvcp.GvcpRequestHeader.Encode | crates/tl-gige/src/gvcp.rs:95-103 | an 8-byte big-endian header (flags, command, length, request id) followed by the payload verbatim |
| Gvcp.EncodeMatchesGenCp | crates/tl-gige/src/gvcp.rs:95-103 | a GVCP request carrying a GenCP command code is byte for byte the GenCP command encoding |
| Gvcp.RequestHeaderExample | crates/tl-gige/src/gvcp.rs:735-750 | the unit test's header 0x1234 / 4 / 0xBEEF encodes to the expected 12 bytes |
| Gvcp.FromAckHeader | crates/tl-gige/src/gvcp.rs:120-127 | the conversion keeps status, length and request id, and the raw command decodes back to the opcode |
| Gvcp.AckHeaderConversionExample | crates/tl-gige/src/gvcp.rs:753-765 | a DeviceBusy ReadMem acknowledgement converts to command 0x0085 |
| Gvcp.AsciiWhitespace | crates/tl-gige/src/gvcp.rs:340 | an ASCII byte decodes to a Unicode whitespace character exactly when it is one of the ASCII whitespace bytes (tab to carriage return, space) |
| Gvcp.ParseString | crates/tl-gige/src/gvcp.rs:337-346 | `parse_string` is None exactly when the lossy UTF-8 decoding of the bytes before the first NUL is all Unicode whitespace; otherwise the string is trimmed on both ends, no longer than the bytes, and printable ASCII without spaces comes back unchanged (`first_cstring` at crates/genapi-xml/src/lib.rs:2097-2106 is the same function) |
| Gvcp.ParseStringGraphic | crates/tl-gige/src/gvcp.rs:337-346 | printable ASCII without spaces decodes to itself, one character per byte, and the trim keeps all of it |
| Gvcp.ParseStringAscii | crates/tl-gige/src/gvcp.rs:337-346 | on ASCII bytes the string is absent exactly when every byte before the NUL is ASCII whitespace |
| Gvcp.ParseStringUtf8Example | crates/tl-gige/src/gvcp.rs:340 | the bytes C3 A9 give the string "é" |
| Gvcp.ParseStringNoBreakSpace | crates/tl-gige/src/gvcp.rs:340-342 | the bytes C2 A0 decode to a no-break space, which the trim removes, so the string is absent |
| Gvcp.ParseStringTerminated | crates/tl-gige/src/gvcp.rs:338-341 | bytes after the terminating NUL never reach the string |
| Gvcp.ReadFixedString | crates/tl-gige/src/gvcp.rs:320-327 | a 32-byte string field reads successfully exactly when the payload holds it |
| Gvcp.ParseDiscoveryPayloadAsWritten | crates/tl-gige/src/gvcp.rs:289-318 | the parser as written panics exactly for payloads of 32 or 33 bytes |
| Gvcp.DiscoveryPayloadPanicExample | crates/tl-gige/src/gvcp.rs:290-300 | a zero-filled 32-byte payload passes the size check and then panics |
| Gvcp.ParseDiscoveryPayload | crates/tl-gige/src/gvcp.rs:289-318 | succeeds exactly when the payload holds both strings; too small and truncated payloads give their errors; the MAC, IPv4 address, manufacturer and model are read from their offsets |
| Gvcp.DiscoveryPayloadAgrees | crates/tl-gige/src/gvcp.rs:289-318 | outside the two panicking lengths the corrected parser agrees with the source |
| Gvcp.ParseDiscoveryAck | crates/tl-gige/src/gvcp.rs:259-287 | under 8 bytes is an error; a foreign request id gives Ok(None) before the opcode and status are checked; then a wrong opcode is "unexpected discovery opcode 0x…" and a nonzero status "discovery returned status 0x…", each with the value in four lower-case hexadecimal digits; a truncated payload is an error exactly when the header is otherwise good; a device is the parse of exactly the declared payload |
| Gvcp.DiscoveryMessagesDiffer | crates/tl-gige/src/gvcp.rs:271-286 | the two formatted messages differ from each other and from every fixed discovery message |
| Gvcp.DiscoveryAckMessages | crates/tl-gige/src/gvcp.rs:271-280 | the opcode message is returned exactly when the id matches and the opcode is wrong, the status message exactly when the id and opcode match and the status is nonzero |
| Gvcp.NextId | crates/tl-gige/src/gvcp.rs:395-402 | the counter step is a 16-bit increment that wraps to 1, never to 0 |
| Gvcp.IdAfterClosedForm | crates/tl-gige/src/gvcp.rs:385-402 | from a nonzero start the counter cycles through 1..65535 |
| Gvcp.IdsDistinct | crates/tl-gige/src/gvcp.rs:385-402 | no id handed out from a nonzero start is 0, and any 65535 consecutive ids are distinct |
| Gvcp.SaturatingSub | crates/tl-gige/src/gvcp.rs:496 | Rust's `saturating_sub`: the difference or 0 |
| Gvcp.BackoffBase | crates/tl-gige/src/gvcp.rs:495-503 | the base delay lies between 20 ms and 160 ms |
| Gvcp.BackoffDelay | crates/tl-gige/src/gvcp.rs:495-503 | the delay is the base delay plus the jitter (at most 10 ms) |
| Gvcp.BackoffSchedule | crates/tl-gige/src/gvcp.rs:495-503 | 20 × 2^min(attempt − 1, 3) ms: 20, 20, 40, 80, then 160 ms |
| Gvcp.BackoffMonotone | crates/tl-gige/src/gvcp.rs:495-503 | later attempts never wait less |
| Gvcp.Truncate | crates/tl-gige/src/gvcp.rs:436-444 | the receive buffer keeps a prefix of the datagram of at most its size, and a datagram that fits unchanged |
| Gvcp.AttemptOutcome | crates/tl-gige/src/gvcp.rs:411-493 | the fourth attempt always ends the loop |
| Gvcp.AckOf | crates/tl-gige/src/gvcp.rs:441-444 | an exchange yields an acknowledgement exactly when a datagram arrived and decodes |
| Gvcp.AttemptOutcomeCases | crates/tl-gige/src/gvcp.rs:441-473 | an attempt succeeds exactly on a decoded acknowledgement of this request and opcode with status Success; an opcode mismatch on this request fails at once; an undecodable datagram fails at once |
| Gvcp.TransactFrom | crates/tl-gige/src/gvcp.rs:404-493 | the loop makes at most four attempts |
| Gvcp.Transact | crates/tl-gige/src/gvcp.rs:404-493 | between one and four attempts are made |
| Gvcp.AllTimeouts | crates/tl-gige/src/gvcp.rs:483-490 | four timeouts end in Timeout after exactly four attempts |
| Gvcp.BusyRetriedWhileAttemptsRemain | crates/tl-gige/src/gvcp.rs:466-471 | DeviceBusy is retried exactly while attempt < 4, and is the final error on the fourth |
| Gvcp.FirstSuccess | crates/tl-gige/src/gvcp.rs:465 | a matching successful first acknowledgement ends the loop after one attempt with that acknowledgement |
| Gvcp.AttemptCommand | crates/tl-gige/src/gvcp.rs:415-423 | every attempt's command has ACK_REQUIRED only, the attempt's request id and the payload |
| Gvcp.PayloadLength | crates/tl-gige/src/gvcp.rs:419 | `len() as u16` is the exact length for every payload up to 65535 bytes |
| Gvcp.GigeDevice.Open | crates/tl-gige/src/gvcp.rs:373-388 | a fresh channel's request-id counter starts at 1 |
| Gvcp.GigeDevice.NextRequestId | crates/tl-gige/src/gvcp.rs:395-402 | returns the current id and advances the counter by one step |
| Gvcp.GigeDevice.TransactWithRetry | crates/tl-gige/src/gvcp.rs:404-503 | the result and attempt count are those of the retry loop; attempt k sends the command with the k-th consecutive request id; each retry waits the backoff its jitter gives; the counter advances once per attempt |
| Gvcp.GigeDevice.RequestResend | crates/tl-gige/src/gvcp.rs:671-727 | sends exactly the resend request with the current id, the result is the acknowledgement check, and the counter advances once |
| Gvcp.ChunkCount | crates/tl-gige/src/gvcp.rs:511-526 | the number of requests is the least n with n · block ≥ len |
| Gvcp.ChunkSize | crates/tl-gige/src/gvcp.rs:512 | each request is at most a block, and a request that starts before the end is non-empty and stays inside the transfer |
| Gvcp.ReadRequest | crates/tl-gige/src/gvcp.rs:513-515 | the ReadMem payload is 12 bytes |
| Gvcp.ReadRequestFields | crates/tl-gige/src/gvcp.rs:513-515 | the ReadMem payload holds the big-endian address and byte count |
| Gvcp.ChunkIndexBound | crates/tl-gige/src/gvcp.rs:511 | chunk i exists exactly when it starts before the end of the transfer |
| Gvcp.ChunkStartFits | crates/tl-gige/src/gvcp.rs:509-513 | when the last chunk's start address fits a u64, so does every chunk's `addr + offset` |
| Gvcp.ReadMemory | crates/tl-gige/src/gvcp.rs:507-528 | requests go out at consecutive addresses in blocks of at most 512 bytes, and the outcome is the read specification |
| Gvcp.ReadFrom | crates/tl-gige/src/gvcp.rs:511-527 | the chunk loop of `read_mem` from chunk i: it never goes back, a failure is counted as one more request, and a success from a chunk inside the transfer returns exactly the remaining bytes |
| Gvcp.ReadFromAccepted | crates/tl-gige/src/gvcp.rs:516-521 | a read succeeds exactly when every request is acknowledged with exactly its chunk size |
| Gvcp.ReadFromCount | crates/tl-gige/src/gvcp.rs:511-526 | at most one request per chunk, and one per chunk when the read succeeds |
| Gvcp.ReadFromError | crates/tl-gige/src/gvcp.rs:516-521 | a failed read stops at the first refused request: the transport's error, or "expected {chunk} bytes but device returned {n}" with that chunk's size and the payload length; every earlier request was accepted |
| Gvcp.ReadFromData | crates/tl-gige/src/gvcp.rs:522-527 | a successful read returns len bytes, each chunk's payload at its block's offset |
| Gvcp.WriteRequest | crates/tl-gige/src/gvcp.rs:539-541 | the WriteMem payload is 8 bytes plus the data |
| Gvcp.WriteRequestFields | crates/tl-gige/src/gvcp.rs:539-541 | the WriteMem payload holds the big-endian address, then the data |
| Gvcp.WriteChunk | crates/tl-gige/src/gvcp.rs:534-538 | every write chunk holds between 1 and 504 bytes |
| Gvcp.WriteMemory | crates/tl-gige/src/gvcp.rs:531-551 | chunk i of at most 504 bytes goes to addr + offset, and the outcome is the write specification |
| Gvcp.WriteFrom | crates/tl-gige/src/gvcp.rs:537-550 | the chunk loop of `write_mem` from chunk i never goes back, and a failure is counted as one more request |
| Gvcp.WriteFromAccepted | crates/tl-gige/src/gvcp.rs:542-547 | a write succeeds exactly when every acknowledgement carries no payload |
| Gvcp.WriteFromOutcome | crates/tl-gige/src/gvcp.rs:542-550 | a failed write stops at the first refused request, with the transport's error or the unexpected-payload error; a successful one sends every chunk |
| Gvcp.WriteChunksCover | crates/tl-gige/src/gvcp.rs:533-549 | the chunks, concatenated in order, give back the data |
| Gvcp.MessageDestinationWrites | crates/tl-gige/src/gvcp.rs:554-565 | the IPv4 address goes to 0x0900_0200 and the big-endian port to 0x0900_0204 |
| Gvcp.StreamReg | crates/tl-gige/src/gvcp.rs:567-569 | the channel and offset can be read back from a stream-channel register address |
| Gvcp.StreamRegInjective | crates/tl-gige/src/gvcp.rs:567-569 | registers of different channels or offsets never collide |
| Gvcp.StreamDestinationWrites | crates/tl-gige/src/gvcp.rs:572-584 | host address and host port go to the channel's destination registers |
| Gvcp.EffectiveMtu | crates/tl-gige/src/gvcp.rs:620 | the MTU is the interface MTU, capped by the target when one is set |
| Gvcp.PacketDelayFor | crates/tl-gige/src/gvcp.rs:622-630 | 2 µs in 80 ns ticks (25) up to 1500 bytes, 0 above |
| Gvcp.NegotiateStream | crates/tl-gige/src/gvcp.rs:609-643 | a missing IPv4 address and an unreadable MTU are the errors; otherwise the parameters follow the MTU rules, and destination, packet size and packet delay are written in that order |
| Gvcp.EventRegister | crates/tl-gige/src/gvcp.rs:647-649 | the mask register lies in the block at 0x0900_0300 |
| Gvcp.EventRegisterShared | crates/tl-gige/src/gvcp.rs:647-649 | two events share a register exactly when they are in the same group of 32 |
| Gvcp.EventShift | crates/tl-gige/src/gvcp.rs:650 | the bit position is id % 32 |
| Gvcp.UpdateMaskBits | crates/tl-gige/src/gvcp.rs:659-663 | only bit id % 32 changes, and it becomes the requested state |
| Gvcp.UpdateMask | crates/tl-gige/src/gvcp.rs:648-662 | the event's own bit id % 32 becomes set when enabling and clear when disabling |
| Gvcp.EnableEvent | crates/tl-gige/src/gvcp.rs:646-668 | a read error passes through and a read that is not 4 bytes is an error; otherwise the register 0x0900_0300 + (id/32)·4 is rewritten with only the event's bit changed |
| Gvcp.ResendPayload | crates/tl-gige/src/gvcp.rs:677-681 | block id, a reserved zero, first and last packet id, 8 bytes |
| Gvcp.ResendRequest | crates/tl-gige/src/gvcp.rs:683-690 | the resend request is 16 bytes: ACK_REQUIRED, PACKETRESEND_CMD, length 8, the request id and the payload fields |
| Gvcp.ResendAckCheck | crates/tl-gige/src/gvcp.rs:699-726 | success exactly for a full 8-byte PACKETRESEND_ACK with length 0, this request id and status 0; otherwise the first failing check names the error: a short buffer, then a wrong opcode, then a non-zero length field ("resend ack carried payload"), then a wrong id ("resend ack request id mismatch"), then the device status; a timeout is Timeout and a send or receive failure is Io |
| Gvcp.DiscoveryInterfaces | crates/tl-gige/src/gvcp.rs:181-195 | discovery uses exactly the interfaces with an IPv4 address that is not loopback and, when a name is given, has that name |
| Gvcp.DiscoveryInterfacesInOrder | crates/tl-gige/src/gvcp.rs:181-203 | the eligible interfaces keep their input order, which fixes each one's index and so its request id: the selection distributes over concatenation and keeps one interface exactly when it is eligible |
| Gvcp.DiscoveryRequestId | crates/tl-gige/src/gvcp.rs:203 | interface number idx broadcasts with request id 0x0100 + idx |
| Gvcp.DiscoveryDestination | crates/tl-gige/src/gvcp.rs:209 | the discovery broadcast goes to the interface's broadcast address, or to 255.255.255.255 when it has none |
| Gvcp.DiscoveryRequest | crates/tl-gige/src/gvcp.rs:212-218 | the discovery command is an 8-byte header with no payload |
| Gvcp.DiscoveryRequestExample | crates/tl-gige/src/gvcp.rs:212-218 | the first interface's request is 80 01 00 02 00 00 01 00 |
| Gvcp.Responses | crates/tl-gige/src/gvcp.rs:228-232 | each datagram is parsed on its own, in arrival order |
| Gvcp.ResponseOf | crates/tl-gige/src/gvcp.rs:223-235 | a received datagram is parsed as a discovery acknowledgement from at most the 2048 buffered bytes: a datagram that fits is parsed whole, one under 8 bytes is "GVCP ack too short", and one with another request id is skipped |
| Gvcp.GatheredError | crates/tl-gige/src/gvcp.rs:228-240 | gathering on one interface fails exactly when some response is malformed, and reports the first error |
| Gvcp.GatheredDevices | crates/tl-gige/src/gvcp.rs:228-240 | a successful gathering holds exactly the devices the responses describe |
| Gvcp.CollectResponses | crates/tl-gige/src/gvcp.rs:223-240 | the receive loop returns the gathering of the parsed responses |
| Gvcp.FirstOf | crates/tl-gige/src/gvcp.rs:247-250 | the device kept for a key is one of the inputs with that key |
| Gvcp.Dedupe | crates/tl-gige/src/gvcp.rs:245-252 | keys (ip, mac) are distinct, each kept device is the first seen with its key, and every input key is represented |
| Gvcp.InsertByIp | crates/tl-gige/src/gvcp.rs:254-255 | insertion adds exactly the new device |
| Gvcp.InsertByIpSorted | crates/tl-gige/src/gvcp.rs:254-255 | insertion keeps the list sorted by address |
| Gvcp.SortByIp | crates/tl-gige/src/gvcp.rs:254-255 | `sort_by_key(ip)` gives a permutation sorted by address |
| Gvcp.MergeDiscovered | crates/tl-gige/src/gvcp.rs:242-256 | discovery fails exactly when some interface failed, with the first failure; otherwise it returns the first-seen device of every (ip, mac), sorted by address |
| Chunks.KindOf | crates/genicam/src/chunks.rs:55-87 | exactly the ids 1 to 4 are known chunk kinds |
| Chunks.LineBuffer | crates/genicam/src/chunks.rs:81-83 | the line-status buffer always has 8 bytes |
| Chunks.FillLineBuffer | crates/genicam/src/chunks.rs:81-83 | the copy into the zeroed 8-byte array leaves at most 8 data bytes followed by zeros |
| Chunks.LineStatusAligned | crates/genicam/src/chunks.rs:80-86 | a chunk shorter than 8 bytes is left-aligned in the big-endian value; 8 or more bytes read their first 8 as a big-endian u64 |
| Chunks.LineStatusOneByteExample | crates/genicam/src/chunks.rs:80-86 | a one-byte chunk 0x01 reads as 0x0100_0000_0000_0000 |
| Chunks.DecodeChunk | crates/genicam/src/chunks.rs:56-86 | Timestamp, ExposureTime and Gain fail with InvalidPayload(id) exactly when the data is not 8 bytes; LineStatusAll never fails |
| Chunks.DecodeRawChunks | crates/genicam/src/chunks.rs:51-91 | the loop over the chunks returns the decode specification |
| Chunks.ErrorSticks | crates/genicam/src/chunks.rs:57-59 | once a prefix fails, the whole decode fails with the same error |
| Chunks.DecodeAllError | crates/genicam/src/chunks.rs:57-59 | the decode fails exactly when some known chunk is malformed, and then with the id of the first one; no partial map is returned |
| Chunks.DecodeAllKinds | crates/genicam/src/chunks.rs:62-85 | a successful map has an entry exactly for the chunk kinds that occur among the raw chunks |
| Chunks.DecodeAllLastWins | crates/genicam/src/chunks.rs:62-85 | each entry of a successful map is the decoding of the last chunk of that kind: a later chunk overwrites an earlier one |
| Chunks.SkipUnknown | crates/genicam/src/chunks.rs:87 | a chunk with an unknown id leaves the result unchanged |
| Chunks.ParseChunkBytes | crates/genicam/src/chunks.rs:94-97 | a framing error becomes a Gvsp error, otherwise the framed chunks are decoded |
| ChunksCmd.KeepTrimmed | crates/gencamctl/src/cmd_chunks.rs:18-20 | trimming and filtering never yields more pieces than it was given |
| ChunksCmd.ParseSelectors | crates/gencamctl/src/cmd_chunks.rs:16-22 | every selector is non-empty, has no surrounding whitespace and contains no ',' |
| ChunksCmd.ParseSelectorsEmpty | crates/gencamctl/src/cmd_chunks.rs:16-22 | "" gives no selectors |
| ChunksCmd.ParseSelectorsAppend | crates/gencamctl/src/cmd_chunks.rs:16-22 | the selectors of two comma-joined lists are those of the first, then those of the second, so the input order is kept |
| ChunksCmd.ParseSelectorsPadded | crates/gencamctl/src/cmd_chunks.rs:18 | whitespace before a list does not change its selectors |
| ChunksCmd.ParseSelectorsSingle | crates/gencamctl/src/cmd_chunks.rs:16-22 | a single selector parses to itself |
| ChunksCmd.ParseSelectorsCons | crates/gencamctl/src/cmd_chunks.rs:16-22 | a selector, a ',' and padding in front of a list add that selector in front |
| ChunksCmd.ParseSelectorsJoin | crates/gencamctl/src/cmd_chunks.rs:16-22 | joining selectors with ',' and any whitespace, then parsing, gives them back |
| ChunksCmd.Summary | crates/gencamctl/src/cmd_chunks.rs:55-59 | no selectors are reported as "no selectors"; a non-empty summary lists the selectors, so parsing it gives them back |
| ChunksCmd.Report | crates/gencamctl/src/cmd_chunks.rs:55-64 | the printed line starts "Chunk mode ", says "enabled" exactly when enabling, and ends with the summary in parentheses |
| ChunksCmd.Status | crates/gencamctl/src/cmd_chunks.rs:48-53 | the JSON status mirrors `enable` and the parsed list exactly |
| StreamCmd.ChunkMapOf | crates/gencamctl/src/cmd_stream.rs:179-189 | empty chunk data or data that fails to decode gives no map; otherwise the map is the decoding of the data |
| StreamCmd.Step | crates/gencamctl/src/cmd_stream.rs:153-175 | a block is completed only by a trailer whose block id matches the block in progress |
| StreamCmd.LeaderReplaces | crates/gencamctl/src/cmd_stream.rs:154-163 | a leader replaces any block in progress with a fresh empty one for its id and metadata, and emits nothing |
| StreamCmd.TrailerEnds | crates/gencamctl/src/cmd_stream.rs:171-175 | a trailer always clears the block in progress, and completes it exactly on a block id match |
| StreamCmd.RunAccumulates | crates/gencamctl/src/cmd_stream.rs:164-170 | payload packets leave the metadata alone and append exactly the data of those for the active block id, in arrival order |
| StreamCmd.RunIdle | crates/gencamctl/src/cmd_stream.rs:165 | payload packets with no block in progress are dropped |
| StreamCmd.NoTrailerNoFrames | crates/gencamctl/src/cmd_stream.rs:171-199 | without a trailer no frame is emitted |
| StreamCmd.RunAfterLeader | crates/gencamctl/src/cmd_stream.rs:154-170 | after a leader and payload packets the block holds the leader's metadata and the matching data |
| StreamCmd.RunSplit | crates/gencamctl/src/cmd_stream.rs:112-216 | running over two packet sequences is running over the second from where the first ended |
| StreamCmd.OneBlockOneFrame | crates/gencamctl/src/cmd_stream.rs:153-199 | leader, payloads and trailer of one block give exactly one frame with the leader's metadata, the payload data in arrival order and the trailer's chunk map |
| StreamCmd.Receiver.constructor | crates/gencamctl/src/cmd_stream.rs:100-101 | the loop starts with no block and both counters at 0 |
| StreamCmd.Receiver.HandlePacket | crates/gencamctl/src/cmd_stream.rs:153-211 | one packet moves the state by one step; the frame index grows once per emitted frame, and the save counter only for an emitted frame saved successfully while under the cap, so at most `save` frames are saved |
| StreamCmd.Receiver.Receive | crates/gencamctl/src/cmd_stream.rs:112-216 | the run over all packets ends in the specified state and emits exactly the specified frames, saving no more frames than were emitted |
| StreamCmd.ParseMode | crates/gencamctl/src/cmd_stream.rs:242-248 | "unicast" and "multicast" are accepted in any ASCII case, and everything else is rejected |
| StreamCmd.ParseModeIgnoresCase | crates/gencamctl/src/cmd_stream.rs:243 | upper- or lower-casing the option does not change the result |
| CtlCommon.HexParts | crates/gencamctl/src/common.rs:27-28 | each byte becomes its two-digit upper-case hex text, in order |
| CtlCommon.JoinPairs | crates/gencamctl/src/common.rs:29-30 | joining two-character pieces with ':' puts piece i at 3i and a ':' after every piece but the last |
| CtlCommon.FormatMac | crates/gencamctl/src/common.rs:26-31 | six upper-case two-digit hex bytes joined by ':', 17 characters in all |
| CtlCommon.MacRoundTrip | crates/gencamctl/src/common.rs:26-31 | reading the six hex pairs of a formatted MAC address gives the MAC back |
| CtlCommon.AsciiBytes | crates/gencamctl/src/common.rs:159-161 | ASCII header text becomes one byte per character |
| CtlCommon.Header | crates/gencamctl/src/common.rs:159-176 | the header bytes are exactly as long as "{magic}\n{w} {h}\n255\n" |
| CtlCommon.CheckedMul | crates/gencamctl/src/common.rs:153 | `checked_mul` on a 64-bit usize succeeds exactly when the product fits, and is then the product |
| CtlCommon.AreaFits | crates/gencamctl/src/common.rs:149-153 | a u32 × u32 area always fits a 64-bit usize, so the overflow error cannot occur there |
| CtlCommon.EncodePgm | crates/gencamctl/src/common.rs:147-164 | succeeds exactly when the data holds w·h bytes; the output is "P5\n{w} {h}\n255\n" followed by the data; otherwise the mismatch message |
| CtlCommon.PgmTwoByTwo | crates/gencamctl/src/common.rs:194-200 | 2×2 with four bytes gives the 11-byte header plus the four bytes |
| CtlCommon.PgmPayloadRecoverable | crates/gencamctl/src/common.rs:159-163 | the header and the data can be cut back out of the encoding |
| CtlCommon.EncodePpmAsWritten | crates/gencamctl/src/common.rs:166-181 | as written, succeeds exactly when the data holds w·h bytes, under a P6 header |
| CtlCommon.PpmAsWrittenRejectsTwoByTwo | crates/gencamctl/src/common.rs:202-208 | the test's 12-byte 2×2 colour image is rejected by the code as written |
| CtlCommon.EncodePpm | crates/gencamctl/src/common.rs:166-181 | corrected: succeeds exactly when the data holds 3·w·h bytes, under a P6 header, and overflow is an error |
| CtlCommon.PpmTwoByTwo | crates/gencamctl/src/common.rs:202-208 | the corrected encoder accepts the test's image and gives the header plus 12 bytes |
| CtlCommon.FindByIp | crates/gencamctl/src/common.rs:57 | finds the first discovered device with the address, and none exactly when no device has it |
| CtlCommon.SelectDevice | crates/gencamctl/src/common.rs:48-81 | `select_device` fails when both or neither selector is given; a selected device comes from a successful discovery, has the requested address, or is the discovered device at the requested index |
| CtlCommon.SelectDeviceNeedsOneSelector | crates/gencamctl/src/common.rs:75-80 | giving both or neither of ip and index is an error, whatever discovery finds |
| CtlCommon.SelectByIp | crates/gencamctl/src/common.rs:55-66 | selecting by address succeeds whenever discovery does and yields a device with that address: the first discovered, or a synthesised one with a zero MAC and no names |
| CtlCommon.SelectByIndex | crates/gencamctl/src/common.rs:67-74 | selecting by index succeeds exactly for an index within the discovered list, and gives that device; otherwise "no device at index" |
| CtlCommon.SelectDiscoveryFails | crates/gencamctl/src/common.rs:56-68 | a failed discovery is passed on when exactly one selector is given |
| SoakBench.WrapU64 | crates/genicam/examples/soak_bench.rs:64-68 | the u64 product wraps modulo 2^64 and is exact when it fits |
| SoakBench.ParseU64 | crates/genicam/examples/soak_bench.rs:58-70 | `str::parse::<u64>`: accepts exactly an optional '+' and decimal digits whose value fits u64 |
| SoakBench.ParseDecimal | crates/genicam/examples/soak_bench.rs:70 | the decimal text of a number parses back to it |
| SoakBench.ParseDuration | crates/genicam/examples/soak_bench.rs:57-72 | an empty text is the empty-string error, and an accepted duration ends in a digit or one of the units s, m, h |
| SoakBench.ParseSeconds | crates/genicam/examples/soak_bench.rs:57-71 | "N" and "Ns" are N seconds |
| SoakBench.ParseMinutes | crates/genicam/examples/soak_bench.rs:62-65 | "Nm" is 60·N seconds, wrapping modulo 2^64 |
| SoakBench.ParseHours | crates/genicam/examples/soak_bench.rs:66-69 | "Nh" is 3600·N seconds, wrapping modulo 2^64 |
| SoakBench.ParseDurationExact | crates/genicam/examples/soak_bench.rs:57-72 | without overflow, minutes and hours scale exactly |
| SoakBench.ParseDurationUnknownUnit | crates/genicam/examples/soak_bench.rs:70 | a text ending in neither a digit nor s, m or h is rejected |
| SoakBench.NinetyMinutes | crates/genicam/examples/soak_bench.rs:62-65 | "90m" is 5400 seconds |
| SoakBench.TwoHours | crates/genicam/examples/soak_bench.rs:66-69 | "2h" is 7200 seconds |
| SoakBench.NotANumber | crates/genicam/examples/soak_bench.rs:59 | a unit after a non-number is rejected |
| SoakBench.Finish | crates/genicam/examples/soak_bench.rs:156-164 | a run has the given duration, interface and mode, a ttl of at most 255, and in multicast mode both a group and a port |
| SoakBench.StepAt | crates/genicam/examples/soak_bench.rs:87-153 | each step moves past its flag (and its value), and a step that stops never yields a run |
| SoakBench.ScanFrom | crates/genicam/examples/soak_bench.rs:87-164 | every run the loop yields passes the final checks |
| SoakBench.ParseArgsLoop | crates/genicam/examples/soak_bench.rs:74-170 | the argument loop returns the `parse_args` specification |
| SoakBench.ScanArg | crates/genicam/examples/soak_bench.rs:88-127 | the loop body for `--duration`, `--iface`, `--dest`, `--group` and `--port` (and, through `ScanOtherArg`, every other argument) takes exactly the step `StepAt` describes: the same early return, or the same updated flags and next position |
| SoakBench.ScanOtherArg | crates/genicam/examples/soak_bench.rs:128-152 | for the remaining flags, `--help` and an unknown argument, the loop body takes exactly the step `StepAt` describes |
| SoakBench.StepSetsOwnFlag | crates/genicam/examples/soak_bench.rs:89-115 | a step sets duration, interface or mode only when its argument is that flag |
| SoakBench.ParseArgs | crates/genicam/examples/soak_bench.rs:74-170 | `parse_args`: every run names --duration, --iface and --dest, has ttl ≤ 255, and in multicast mode has both --group and --port |
| SoakBench.MinimalCommandLine | crates/genicam/examples/soak_bench.rs:76-172 | the three required flags alone give ttl 1, no group, port or JSON path, stream 0 and no other flags |
| SoakBench.DestModeCaseSensitive | crates/genicam/examples/soak_bench.rs:105-114 | --dest is matched case-sensitively: "Unicast" is an error |
| SoakBench.UnknownArgument | crates/genicam/examples/soak_bench.rs:152 | an unknown argument is an error naming it |
| SoakBench.MulticastNeedsPort | crates/genicam/examples/soak_bench.rs:162-164 | multicast without --port is rejected after the loop |
| StreamSetup.StreamDest.WithPort | crates/genicam/src/stream.rs:93-109 | moving a destination to another port keeps its kind and address, and for multicast its loopback and TTL |
| StreamSetup.WithDestinationPort | crates/genicam/src/stream.rs:90-112 | `destination_port` stores the port and moves an existing destination to it; nothing else changes |
| StreamSetup.WithMulticast | crates/genicam/src/stream.rs:115-127 | a group gives a multicast destination on the current port with loopback off and TTL 1; None clears the destination; nothing else changes |
| StreamSetup.DefaultPort | crates/genicam/src/stream.rs:149-153 | port 0 resolves to 0x5FFF, any other port to itself |
| StreamSetup.ResolveDest | crates/genicam/src/stream.rs:154-169 | a missing destination is unicast to the interface address on the default port; a set destination keeps its port unless it is 0; the port is never 0 |
| StreamSetup.PacketDelayOf | crates/genicam/src/stream.rs:181-190 | in auto mode 25 ticks of 80 ns up to a 1500-byte MTU and 0 above; in manual mode the override, or 0 |
| StreamSetup.Resolve | crates/genicam/src/stream.rs:143-171 | the errors come in order: no interface, no IPv4 address, no MTU; resolution succeeds exactly when none applies |
| StreamSetup.ResolvedStream | crates/genicam/src/stream.rs:142-255 | the port is never 0; the MTU is the interface MTU capped by the target; the packet size is the NIC rule on the MTU in auto mode, else the override or the rule on 1500; the delay follows the mode; the parameters describe the destination |
| StreamSetup.UnicastOnly | crates/genicam/src/stream.rs:192-247 | resends and the source filter (the destination address) are on exactly for unicast; only unicast writes the destination registers; packet size and delay are always written last |
| StreamSetup.DefaultDestination | crates/genicam/src/stream.rs:149-157 | with no destination set the stream is unicast to the interface address on the default port |
| StreamSetup.DestinationPortWins | crates/genicam/src/stream.rs:90-169 | after `destination_port(p)` with p ≠ 0 the stream uses port p whatever destination was set |
| StreamSetup.StreamBuilder.constructor | crates/genicam/src/stream.rs:38-51 | a new builder has auto packet size on, channel 0, port 0 and no interface, destination or overrides |
| StreamSetup.StreamBuilder.Iface | crates/genicam/src/stream.rs:54-57 | sets only the interface |
| StreamSetup.StreamBuilder.Dest | crates/genicam/src/stream.rs:60-63 | sets only the destination |
| StreamSetup.StreamBuilder.AutoPacketSize | crates/genicam/src/stream.rs:66-69 | sets only the auto flag |
| StreamSetup.StreamBuilder.TargetMtu | crates/genicam/src/stream.rs:72-75 | sets only the target MTU |
| StreamSetup.StreamBuilder.PacketSize | crates/genicam/src/stream.rs:78-81 | sets only the packet-size override |
| StreamSetup.StreamBuilder.PacketDelay | crates/genicam/src/stream.rs:84-87 | sets only the packet-delay override |
| StreamSetup.StreamBuilder.DestinationPort | crates/genicam/src/stream.rs:90-112 | the settings become those of `destination_port` |
| StreamSetup.StreamBuilder.SetMulticast | crates/genicam/src/stream.rs:115-127 | the settings become those of `multicast` |
| StreamSetup.StreamBuilder.RcvbufBytes | crates/genicam/src/stream.rs:130-133 | sets only the receive buffer size |
| StreamSetup.StreamBuilder.Channel | crates/genicam/src/stream.rs:136-139 | sets only the channel |
| StreamSetup.StreamBuilder.DestFor | crates/genicam/src/stream.rs:149-169 | the in-place destination update of `build` yields `ResolveDest` of the builder's destination, interface address and port: never port 0 |
| StreamSetup.StreamBuilder.Build | crates/genicam/src/stream.rs:142-260 | the configuration resolution of `build` returns the resolution specification of the current settings |
| GenicamTime.WindowedSuffix | crates/genicam/src/time.rs:49-52 | the window is always a suffix of the recorded samples, and the newest sample is its last element |
| GenicamTime.WindowedIsLatest | crates/genicam/src/time.rs:49-52 | with a capacity of at least 1 the window holds exactly the last min(len, cap) samples, so it never exceeds cap |
| GenicamTime.ZeroCapacityUnbounded | crates/genicam/src/time.rs:49-52 | with capacity 0 the length check never fires and the window keeps every sample |
| GenicamTime.LeastSquares | crates/genicam/src/time.rs:181-208 | `compute_fit` returns a line exactly when there are at least two samples and the squared x deviations reach `f64::EPSILON` |
| GenicamTime.LineOf | crates/genicam/src/time.rs:202-207 | no line exactly when the denominator is below `f64::EPSILON` in absolute value |
| GenicamTime.ComputeFit | crates/genicam/src/time.rs:181-208 | the two loops over the samples compute the least-squares line `LeastSquares` |
| GenicamTime.Sums | crates/genicam/src/time.rs:185-190 | the first loop computes the sums of the x and y coordinates |
| GenicamTime.Deviations | crates/genicam/src/time.rs:194-201 | the second loop computes the sums of squared x deviations and of x-y deviation products |
| GenicamTime.Sxx | crates/genicam/src/time.rs:194-201 | the sum of squared deviations is never negative |
| GenicamTime.SumOnLine | crates/genicam/src/time.rs:185-190 | the y sum of points on y = m x + c is m times the x sum plus n c |
| GenicamTime.CrossOnLine | crates/genicam/src/time.rs:194-201 | for points on a line of slope m the slope numerator is m times the denominator |
| GenicamTime.LineFitExact | crates/genicam/src/time.rs:181-208 | samples lying exactly on a line are fitted by that line whenever a fit exists |
| GenicamTime.Residuals | crates/genicam/src/time.rs:121-128 | one residual per sample, each paired with that sample's index |
| GenicamTime.InsertByResidual | crates/genicam/src/time.rs:129-132 | inserting into a residual-ordered list keeps it ordered and adds exactly that element |
| GenicamTime.SortByResidual | crates/genicam/src/time.rs:129-132 | the sort orders the residuals and is a permutation of them |
| GenicamTime.SortedIndices | crates/genicam/src/time.rs:135-138 | every index of the sorted residuals names a sample |
| GenicamTime.Middle | crates/genicam/src/time.rs:135-138 | the kept samples are those whose residuals sit between the dropped tenths of the sorted order |
| GenicamTime.RefitGuardHolds | crates/genicam/src/time.rs:120-143 | from ten samples on the trim is positive and leaves at least eight samples, so the guard `trim > 0 && len > 2 trim` always holds |
| GenicamTime.RefitOnLine | crates/genicam/src/time.rs:119-143 | the refit of samples on a line keeps that line |
| GenicamTime.RefitLine | crates/genicam/src/time.rs:119-143 | the sort, trim and second fit compute `Refit`: the first line below ten samples or when the second fit fails, otherwise the fit of the trimmed samples |
| GenicamTime.Points | crates/genicam/src/time.rs:108-117 | one point per sample: ticks less the first sample's ticks, and host seconds since the origin |
| GenicamTime.FitOf | crates/genicam/src/time.rs:100-103 | fewer than two samples give no fit |
| GenicamTime.FitOfOnLine | crates/genicam/src/time.rs:119-148 | a window whose points lie on a line is fitted by that line, with the intercept moved from relative to absolute ticks |
| GenicamTime.FitRecoversLinearClock | crates/genicam/src/time.rs:100-149 | a device clock exactly linear in host time is recovered exactly whenever the window can be fitted |
| GenicamTime.PointsOnLine | crates/genicam/src/time.rs:108-117 | samples of a linear clock give points on the line rebased to the first sample's ticks |
| GenicamTime.TimeSync.constructor | crates/genicam/src/time.rs:31-41 | a new synchroniser has an empty window, coefficients (0, 0), no frequency and no origin |
| GenicamTime.TimeSync.Update | crates/genicam/src/time.rs:44-53 | the first sample sets the origin and later ones never change it; a full window drops its oldest sample before the new one is appended; the coefficients are untouched |
| GenicamTime.TimeSync.Len | crates/genicam/src/time.rs:56-58 | the number of samples in the window |
| GenicamTime.TimeSync.Capacity | crates/genicam/src/time.rs:66-68 | the capacity given at construction |
| GenicamTime.TimeSync.SampleBounds | crates/genicam/src/time.rs:91-95 | None exactly when the window is empty, otherwise its first and last samples |
| GenicamTime.TimeSync.Fit | crates/genicam/src/time.rs:100-149 | with fewer than two samples the result is None and nothing changes; otherwise a given frequency is stored and the result is `FitOf` the window: the least-squares line, refitted without outliers from ten samples on, with the intercept in absolute ticks; a result is stored as (a, b), and no result leaves the coefficients as they were; the window and origin never change |
| GigeTime.WriteU32Be | crates/tl-gige/src/time.rs:42-44 | four bytes holding the value big-endian |
| GigeTime.ParseU64Be | crates/tl-gige/src/time.rs:46-53 | succeeds exactly on 8 bytes, with their big-endian value; otherwise "unexpected register size" |
| GigeTime.ParseU64BeRoundTrip | crates/tl-gige/src/time.rs:46-53 | the eight big-endian bytes of a u64 parse back to it |
| GigeTime.ControlWords | crates/tl-gige/src/time.rs:20-44 | the reset word is 00 00 00 01 and the latch word 00 00 00 02 |
| GigeTime.ControlChannel.ReadRegister | crates/tl-gige/src/time.rs:37-38 | a read returns what the device answers |
| GigeTime.ControlChannel.WriteRegister | crates/tl-gige/src/time.rs:37-39 | a write is logged and returns what the device answers |
| GigeTime.TimestampReset | crates/tl-gige/src/time.rs:55-60 | writes exactly 00 00 00 01 to 0x0900_0100 |
| GigeTime.TimestampLatch | crates/tl-gige/src/time.rs:62-67 | writes exactly 00 00 00 02 to 0x0900_0100 |
| GigeTime.ReadTimestampValue | crates/tl-gige/src/time.rs:69-73 | reads 8 bytes at 0x0900_0104: the channel's error, or the big-endian parse |
| GigeTime.ReadTickFrequency | crates/tl-gige/src/time.rs:75-79 | reads 8 bytes at 0x0900_010C: the channel's error, or the big-endian parse |
| GigeTime.SlideLatest | crates/tl-gige/src/time.rs:152-155 | sliding the latest 32 samples over a new one gives the latest 32 of the longer history: never more than 32, with the new sample last |
| GigeTime.TimeSync.constructor | crates/tl-gige/src/time.rs:93-103 | a new mapping is (1, 0) with an empty window and anchors from the clocks |
| GigeTime.TimeSync.Recompute | crates/tl-gige/src/time.rs:110-144 | fewer than two samples, or a vanishing denominator, leave (a, b) unchanged; otherwise they become the regression's result |
| GigeTime.TimeSync.Update | crates/tl-gige/src/time.rs:147-157 | the anchors are reset only when the window is empty; a full window drops its oldest sample; the new sample is appended last and the mapping recomputed |
| Stats.WrappingAdd | crates/tl-gige/src/stats.rs:36-50 | `fetch_add` on a u64 counter: the exact sum, or the sum less 2^64 when it wraps; adding 0 changes nothing |
| Stats.CounterGrows | crates/tl-gige/src/stats.rs:36-70 | a counter grows unless it wraps, and it wraps exactly when the sum reaches 2^64 |
| Stats.StreamStats.Snapshot | crates/tl-gige/src/stats.rs:73-86 | a snapshot copies every counter as it stands |
| Stats.StreamStats.constructor | crates/tl-gige/src/stats.rs:21-34 | every counter starts at 0 |
| Stats.StreamStats.RecordPacket | crates/tl-gige/src/stats.rs:36-39 | only the packet counter grows, by 1 |
| Stats.StreamStats.RecordResend | crates/tl-gige/src/stats.rs:41-44 | only the resend counter grows, by 1 |
| Stats.StreamStats.RecordResendRanges | crates/tl-gige/src/stats.rs:46-51 | only the range counter grows, by n, and n = 0 changes nothing |
| Stats.StreamStats.RecordDrop | crates/tl-gige/src/stats.rs:53-56 | only the dropped-frame counter grows, by 1 |
| Stats.StreamStats.RecordBackpressureDrop | crates/tl-gige/src/stats.rs:58-61 | only the backpressure counter grows, by 1 |
| Stats.StreamStats.RecordLateFrame | crates/tl-gige/src/stats.rs:63-66 | only the late-frame counter grows, by 1 |
| Stats.StreamStats.RecordPoolExhaustion | crates/tl-gige/src/stats.rs:68-71 | only the pool-exhaustion counter grows, by 1 |
| Stats.CountPackets | crates/tl-gige/src/stats.rs:21-39 | a fresh counter set that records n packets (n < 2^64) reads back as n packets and zeros elsewhere |
| Stats.EventStats.Snapshot | crates/tl-gige/src/stats.rs:145-153 | a snapshot copies the three counters |
| Stats.EventStats.constructor | crates/tl-gige/src/stats.rs:120-128 | every counter starts at 0 |
| Stats.EventStats.RecordEvent | crates/tl-gige/src/stats.rs:130-133 | only the received counter grows, by 1 |
| Stats.EventStats.RecordMalformed | crates/tl-gige/src/stats.rs:135-138 | only the malformed counter grows, by 1 |
| Stats.EventStats.RecordFiltered | crates/tl-gige/src/stats.rs:140-143 | only the filtered counter grows, by 1 |
| Stats.ActionStats.Snapshot | crates/tl-gige/src/stats.rs:204-210 | a snapshot copies the three counters |
| Stats.ActionStats.constructor | crates/tl-gige/src/stats.rs:180-187 | every counter starts at 0 |
| Stats.ActionStats.RecordSend | crates/tl-gige/src/stats.rs:189-192 | only the sent counter grows, by 1 |
| Stats.ActionStats.RecordAck | crates/tl-gige/src/stats.rs:194-197 | only the acknowledgement counter grows, by 1 |
| Stats.ActionStats.RecordFailure | crates/tl-gige/src/stats.rs:199-202 | only the failure counter grows, by 1 |
| Stats.TimeStats.Snapshot | crates/tl-gige/src/stats.rs:261-268 | a snapshot copies the three counters |
| Stats.TimeStats.constructor | crates/tl-gige/src/stats.rs:237-244 | every counter starts at 0 |
| Stats.TimeStats.RecordSample | crates/tl-gige/src/stats.rs:246-249 | only the sample counter grows, by 1 |
| Stats.TimeStats.RecordLatch | crates/tl-gige/src/stats.rs:251-254 | only the latch counter grows, by 1 |
| Stats.TimeStats.RecordReset | crates/tl-gige/src/stats.rs:256-259 | only the reset counter grows, by 1 |
| GenApiXml.RemoveChar | crates/genapi-xml/src/lib.rs:2039-2045 | the result holds no occurrence of the removed character, is no longer than the input and is the input itself when the character is absent |
| GenApiXml.ParseU64 | crates/genapi-xml/src/lib.rs:2036-2047 | every failure is an `Invalid` error |
| GenApiXml.ParseI64 | crates/genapi-xml/src/lib.rs:2049-2060 | a success lies in the range of `i64`; every failure is an `Invalid` error |
| GenApiXml.ParseU64Decimal | crates/genapi-xml/src/lib.rs:2043-2046 | every `u64` written in decimal parses back to itself |
| GenApiXml.ParseU64Hex | crates/genapi-xml/src/lib.rs:2038-2041 | a byte written as `0x` and two hexadecimal digits parses back to itself |
| GenApiXml.ParseU64GroupedHex | crates/genapi-xml/src/lib.rs:2038-2041 | underscores inside a hexadecimal value are ignored: `0xAA_BB` reads as the two bytes combined, as the register addresses in the test XML are written |
| GenApiXml.ParseU64RejectsMinus | crates/genapi-xml/src/lib.rs:2043-2046 | a negative decimal is refused as an unsigned value with the invalid-integer error |
| GenApiXml.ParseI64Decimal | crates/genapi-xml/src/lib.rs:2049-2060 | every `i64`, negative ones included, written in decimal parses back to itself |
| GenApiXml.AccessModeNamed | crates/genapi-xml/src/lib.rs:83-88 | a mode found for a name is the mode of that name |
| GenApiXml.ParseAccessMode | crates/genapi-xml/src/lib.rs:82-89 | an unknown mode is reported with the trimmed, upper-cased text |
| GenApiXml.ParseAccessModeExactly | crates/genapi-xml/src/lib.rs:82-89 | a mode is parsed exactly from the texts that trim and upper-case to `RO`, `WO` or `RW` |
| GenApiXml.AccessModeCaseInsensitive | crates/genapi-xml/src/lib.rs:83 | the case of the text does not change the parse |
| GenApiXml.ByteOrderNamed | crates/genapi-xml/src/lib.rs:124-128 | an order found for a name is the order of that name |
| GenApiXml.ParseByteOrder | crates/genapi-xml/src/lib.rs:123-130 | an order is parsed exactly from the texts that trim and lower-case to `littleendian` or `bigendian`, and it is the order so named |
| GenApiXml.ByteOrderCaseInsensitive | crates/genapi-xml/src/lib.rs:124 | the case of the text does not change the parse |
| GenApiXml.NonBlank | crates/genapi-xml/src/lib.rs:1903-1918 | an attribute is kept, trimmed, exactly when it is present and not blank |
| GenApiXml.BuildEnumEntry | crates/genapi-xml/src/lib.rs:1897-1942 | the entry keeps its name and display name; it fails exactly when no provider is given and the literal is missing or not an `i64`; with neither it reports the missing value |
| GenApiXml.EnumProviderPreferred | crates/genapi-xml/src/lib.rs:1920-1931 | a `pValue` provider wins whatever the literal `Value` says |
| GenApiXml.EnumBlankIsAbsent | crates/genapi-xml/src/lib.rs:1903-1918 | a blank `Value` or `pValue` behaves as a missing one |
| GenApiXml.EnumLiteralDecimal | crates/genapi-xml/src/lib.rs:1931-1932 | a decimal literal without a provider becomes the entry's literal value, as the `Fixed10` entry of the test at lines 2318-2355 |
| GenApiXml.ParseScale | crates/genapi-xml/src/lib.rs:1944-1966 | blank text is an error; a ratio has a non-zero denominator and an `i64` numerator; the result is a ratio exactly when the text holds a `/` |
| GenApiXml.ScaleRatioRoundTrip | crates/genapi-xml/src/lib.rs:1949-1955 | a ratio of two decimal numbers, the denominator not zero, reads back as that ratio |
| GenApiXml.ResolveScale | crates/genapi-xml/src/lib.rs:1221-1226 | a Float node has a scale exactly when it has a numerator and no zero denominator; a lone numerator is over 1 |
| GenApiXml.LocalKeyCaseInsensitive | crates/genapi-xml/src/lib.rs:2141 | the keys of a local URL are compared without regard to case |
| GenApiXml.LocalUrl | crates/genapi-xml/src/lib.rs:2130-2134 | a `local:` URL whose text after the scheme is blank is exactly the "empty local URL" error |
| GenApiXml.ParseLocalUrl | crates/genapi-xml/src/lib.rs:2130-2168 | the loop over the `;`/`,` tokens, with its early returns, computes the specification `LocalUrl` |
| GenApiXml.ParseUrl | crates/genapi-xml/src/lib.rs:2116-2128 | `local:` URLs are parsed by the local scan; `http://` and `https://` URLs are HTTP, `file://` URLs are files and any other scheme is unsupported |
| GenApiXml.LocalNeedsBoth | crates/genapi-xml/src/lib.rs:2163-2166 | a `Local` location's address and length were each set by a token, and every token let the scan continue |
| GenApiXml.LocalUrlNeedsBoth | crates/genapi-xml/src/lib.rs:2130-2168 | a URL read as `Local(x, y)` holds an address token for `x` and a length token for `y` |
| GenApiXml.LocalNamedReached | crates/genapi-xml/src/lib.rs:2158-2160 | a bare name ends the scan as `LocalNamed` once every token before it has passed |
| GenApiXml.LocalNamedFound | crates/genapi-xml/src/lib.rs:2158-2160 | a `LocalNamed` result comes from the first token that does not pass, and that token is the bare name |
| GenApiBuilders.Lookup | crates/genapi-xml/src/lib.rs:456 | a selector value finds nothing exactly when no pair of the table carries it |
| GenApiBuilders.Upsert | crates/genapi-xml/src/lib.rs:456-460 | a pair with the same selector value is overwritten in place; a new value is appended; the table grows by one only for a new value |
| GenApiBuilders.UpsertLookup | crates/genapi-xml/src/lib.rs:456-460 | after the update the selector value finds the new block and every other value what it found before |
| GenApiBuilders.UpsertDistinct | crates/genapi-xml/src/lib.rs:456-460 | the update keeps the selector values of the table distinct |
| GenApiBuilders.TableOf | crates/genapi-xml/src/lib.rs:449-461 | the table is built exactly when every entry has a length (its own, the node's or the default); a built table has distinct values and no more pairs than entries |
| GenApiBuilders.TableErrorSticks | crates/genapi-xml/src/lib.rs:450-455 | the first entry without a length ends the loop with its error, whatever follows |
| GenApiBuilders.TableFirstError | crates/genapi-xml/src/lib.rs:450-455 | a failing table names the first entry that has no length, all entries before it having one |
| GenApiBuilders.TableKeyFrom | crates/genapi-xml/src/lib.rs:449-461 | every selector value of the table comes from some `<Selected>` entry |
| GenApiBuilders.TableLastWins | crates/genapi-xml/src/lib.rs:456-460 | for the last entry of each selector value the table holds that entry's address and resolved length |
| GenApiBuilders.TableDuplicateInPlace | crates/genapi-xml/src/lib.rs:456-460 | a duplicate selector value keeps the table's size and the other pairs; a new value is appended after the old pairs |
| GenApiBuilders.ResolveAddressing | crates/genapi-xml/src/lib.rs:442-501 | the result is a selector table exactly when there are selected entries, indirect exactly when there are none and a `pAddress` is given; fixed and indirect blocks take the node's length, else the default |
| GenApiBuilders.SelectorTableWins | crates/genapi-xml/src/lib.rs:462-475 | with any selected entry the `pAddress` and the fixed address are ignored |
| GenApiBuilders.IndirectWins | crates/genapi-xml/src/lib.rs:482-493 | without selected entries a `pAddress` makes the fixed address irrelevant, as the test at lines 2358-2409 relies on |
| GenApiBuilders.AddressingErrors | crates/genapi-xml/src/lib.rs:443-500 | resolution fails exactly for selected entries without `pSelected`, an entry without any length, a missing length, or a missing address with neither entries nor `pAddress`; the missing-selector and missing-length messages are given |
| GenApiBuilders.AddressingBuilder.constructor | crates/genapi-xml/src/lib.rs:376-385 | every field starts empty |
| GenApiBuilders.AddressingBuilder.SetFixedAddress | crates/genapi-xml/src/lib.rs:395-397 | only the fixed address changes |
| GenApiBuilders.AddressingBuilder.SetLength | crates/genapi-xml/src/lib.rs:399-401 | only the node length changes |
| GenApiBuilders.AddressingBuilder.SetPAddressNode | crates/genapi-xml/src/lib.rs:403-405 | only the address node changes |
| GenApiBuilders.AddressingBuilder.RegisterSelector | crates/genapi-xml/src/lib.rs:407-411 | the first `pSelected` is kept; later ones change nothing |
| GenApiBuilders.AddressingBuilder.PushSelectedValue | crates/genapi-xml/src/lib.rs:413-416 | the value becomes pending and any pending length is dropped |
| GenApiBuilders.AddressingBuilder.ApplyLength | crates/genapi-xml/src/lib.rs:418-424 | a length goes to the pending selected value if there is one, else to the node |
| GenApiBuilders.AddressingBuilder.AttachSelectedAddress | crates/genapi-xml/src/lib.rs:426-440 | an address completes the pending entry, an explicit length winning over the pending one; without a pending value it is the fixed address, with the explicit length as the node's |
| GenApiBuilders.AddressingBuilder.Finalize | crates/genapi-xml/src/lib.rs:442-501 | the loop over the entries computes `ResolveAddressing` of the collected fields |
| GenApiBuilders.TrailingZeros | crates/genapi-xml/src/lib.rs:678 | the result is the position of the lowest set bit |
| GenApiBuilders.ContiguousMask | crates/genapi-xml/src/lib.rs:677-679 | a run of `len` ones at bit `off` has `off` trailing zeros and `len` ones |
| GenApiBuilders.UniqueLength | crates/genapi-xml/src/lib.rs:592-607 | a successful scan of a non-empty list yields a length |
| GenApiBuilders.UniqueLengthAgreed | crates/genapi-xml/src/lib.rs:598-606 | once a length is recorded the scan succeeds exactly when every remaining length equals it |
| GenApiBuilders.RegisterLengthsAgree | crates/genapi-xml/src/lib.rs:592-607 | the register lengths pass exactly when they are all the same non-zero length, which is the result |
| GenApiBuilders.RangeExtent | crates/genapi-xml/src/lib.rs:617-635 | `Lsb`/`Msb` give the lower bit and the length up to the upper bit, in either order |
| GenApiBuilders.MaskExtent | crates/genapi-xml/src/lib.rs:643-654 | a mask gives its trailing zeros and its count of ones, and a zero mask is an error |
| GenApiBuilders.Extent | crates/genapi-xml/src/lib.rs:616-642 | the recorded source picks the rule; `Bit` gives its bit and its length, 1 by default |
| GenApiBuilders.PlaceField | crates/genapi-xml/src/lib.rs:656-699 | placement succeeds exactly for a length of 1 to 64 inside the register whose offsets fit `u16`; a little-endian offset is kept, a big-endian one counted from the most significant end |
| GenApiBuilders.ResolveBitfield | crates/genapi-xml/src/lib.rs:583-700 | no source means no bitfield; no register length is an error; the byte order defaults to little-endian |
| GenApiBuilders.FinishedFieldFits | crates/genapi-xml/src/lib.rs:583-700 | a resolved field comes from agreeing non-zero register lengths and lies inside them, so the register accessors accept it |
| GenApiBuilders.BigEndianLsbMsbExample | crates/genapi-xml/src/lib.rs:2412-2441 | `Lsb` 8, `Msb` 15, big-endian, in a 4-byte register is offset 16, length 8 |
| GenApiBuilders.BitDefaultLengthExample | crates/genapi-xml/src/lib.rs:2443-2467 | `Bit` 3 alone in a 1-byte register is offset 3, length 1 |
| GenApiBuilders.MaskExample | crates/genapi-xml/src/lib.rs:2469-2494 | mask `0xFF00` in a 4-byte register is offset 8, length 8 |
| GenApiBuilders.BitfieldBuilder.constructor | crates/genapi-xml/src/lib.rs:511-520 | every field starts empty |
| GenApiBuilders.BitfieldBuilder.NoteLsb | crates/genapi-xml/src/lib.rs:523-533 | `Lsb` is taken, recording `Lsb`/`Msb` as the source, unless another source was recorded first |
| GenApiBuilders.BitfieldBuilder.NoteMsb | crates/genapi-xml/src/lib.rs:535-545 | `Msb` is taken, recording `Lsb`/`Msb` as the source, unless another source was recorded first |
| GenApiBuilders.BitfieldBuilder.NoteBit | crates/genapi-xml/src/lib.rs:547-557 | `Bit` is taken, recording `Bit`/`BitLength` as the source, unless another source was recorded first |
| GenApiBuilders.BitfieldBuilder.NoteBitLength | crates/genapi-xml/src/lib.rs:559-569 | `BitLength` is taken, recording `Bit`/`BitLength` as the source, unless another source was recorded first |
| GenApiBuilders.BitfieldBuilder.NoteMask | crates/genapi-xml/src/lib.rs:571-577 | a mask is taken only while no source has been recorded |
| GenApiBuilders.BitfieldBuilder.NoteByteOrder | crates/genapi-xml/src/lib.rs:579-581 | the byte order is taken whatever the source, the last one winning |
| GenApiBuilders.BitfieldBuilder.Finish | crates/genapi-xml/src/lib.rs:583-700 | the loop over the register lengths computes `ResolveBitfield` of the collected fields |
| SwissKnife.LeadByte | crates/genapi-core/src/swissknife.rs:204-207 | an ASCII character is reported as itself; any other as the lead byte of its UTF-8 encoding |
| SwissKnife.SkipWs | crates/genapi-core/src/swissknife.rs:211-219 | the scan stops at the first position that is not ASCII whitespace, having passed only whitespace |
| SwissKnife.IdentEnd | crates/genapi-core/src/swissknife.rs:251-264 | an identifier extends over identifier characters up to the first other one |
| SwissKnife.NextTokenAt | crates/genapi-core/src/swissknife.rs:172-209 | a token never moves the position backwards, every token but `End` consumes input, and `End` is returned only when nothing but whitespace is left |
| SwissKnife.NumberScanShape | crates/genapi-core/src/swissknife.rs:221-238 | the number scan takes digits and at most one '.', reports whether it took a digit and stops before any further digit |
| SwissKnife.NumberTokenShape | crates/genapi-core/src/swissknife.rs:221-249 | a number token is a well-formed literal with at least one digit and the longest one at that point |
| SwissKnife.IdentTokenShape | crates/genapi-core/src/swissknife.rs:251-264 | an identifier token starts with a letter or '_' and is the longest identifier at that point |
| SwissKnife.LoneDotRejected | crates/genapi-core/src/swissknife.rs:239-241 | a '.' followed by no digit is an invalid number literal |
| SwissKnife.UnexpectedCharacter | crates/genapi-core/src/swissknife.rs:204-207 | a character outside the expression alphabet is an error naming it |
| SwissKnife.LexFrom | crates/genapi-core/src/swissknife.rs:172-209 | the pulled tokens end with `End` exactly when no lexing error occurred, and every position lies in the text |
| SwissKnife.LexFromAt | crates/genapi-core/src/swissknife.rs:172-209 | each token of the sequence is what `next_token` returns after the ones before it, and the failure is what it returns after all of them |
| SwissKnife.AdvanceFrom | crates/genapi-core/src/swissknife.rs:376-379 | advancing moves to the next token, or fails with the lexing error when no token is left |
| SwissKnife.Expr | crates/genapi-core/src/swissknife.rs:280-306 | a parsed expression consumes at least one token and leaves a lookahead |
| SwissKnife.ExprTail | crates/genapi-core/src/swissknife.rs:282-304 | the `+`/`-` loop never moves backwards |
| SwissKnife.Term | crates/genapi-core/src/swissknife.rs:308-334 | a parsed term consumes at least one token and leaves a lookahead |
| SwissKnife.TermTail | crates/genapi-core/src/swissknife.rs:310-332 | the `*`/`/` loop never moves backwards |
| SwissKnife.Factor | crates/genapi-core/src/swissknife.rs:336-374 | a parsed factor consumes at least one token and leaves a lookahead |
| SwissKnife.Lexer.constructor | crates/genapi-core/src/swissknife.rs:165-170 | the lexer starts at position 0 of the text |
| SwissKnife.Lexer.SkipWhitespace | crates/genapi-core/src/swissknife.rs:211-219 | the loop moves the position to `SkipWs` of the old one |
| SwissKnife.Lexer.LexNumber | crates/genapi-core/src/swissknife.rs:221-249 | the loop takes the literal the number scan describes, or reports an invalid literal when it holds no digit |
| SwissKnife.Lexer.LexIdent | crates/genapi-core/src/swissknife.rs:251-264 | the loop takes the identifier up to `IdentEnd` |
| SwissKnife.Lexer.NextToken | crates/genapi-core/src/swissknife.rs:172-209 | the token and the new position are those of `NextTokenAt` |
| SwissKnife.Parser.constructor | crates/genapi-core/src/swissknife.rs:274-278 | the parser holds the lexer positioned after the first token, which is the lookahead |
| SwissKnife.Parser.New | crates/genapi-core/src/swissknife.rs:274-278 | the parser starts on the first token of the text, or fails with the error that lexing it gives |
| SwissKnife.Parser.Advance | crates/genapi-core/src/swissknife.rs:376-379 | the lookahead moves as `AdvanceFrom` says, or its error is returned |
| SwissKnife.Parser.ParseExpr | crates/genapi-core/src/swissknife.rs:280-306 | the loop computes `Expr` from the current token |
| SwissKnife.Parser.ParseTerm | crates/genapi-core/src/swissknife.rs:308-334 | the loop computes `Term` from the current token |
| SwissKnife.Parser.ParseFactor | crates/genapi-core/src/swissknife.rs:336-374 | the recursion computes `Factor` from the current token |
| SwissKnife.ParseTokens | crates/genapi-core/src/swissknife.rs:86-93 | a lexing error in the first token is returned as it is, and a successful parse lexed its whole input without error |
| SwissKnife.Parse | crates/genapi-core/src/swissknife.rs:86-93 | `parse_expression` succeeds only on a text that lexes without error |
| SwissKnife.ParseBlank | crates/genapi-core/src/swissknife.rs:371 | an empty or blank text is "unexpected end of expression" |
| SwissKnife.ParseExpression | crates/genapi-core/src/swissknife.rs:86-93 | running the lexer and parser objects yields the specification `Parse` |
| SwissKnife.IdentifiersMentioned | crates/genapi-core/src/swissknife.rs:132-145 | the collected names are exactly the variables the AST mentions |
| SwissKnife.CollectIdentifiers | crates/genapi-core/src/swissknife.rs:132-145 | the names of the AST are added to the set and nothing else |
| SwissKnife.EvaluateReadsIdentifiers | crates/genapi-core/src/swissknife.rs:99-130 | evaluation consults the resolver only on the AST's own identifiers |
| SwissKnife.Evaluate | crates/genapi-core/src/swissknife.rs:99-130 | `evaluate`: a successful evaluation resolved every identifier of the AST |
| SwissKnife.EvaluateErrorOrigin | crates/genapi-core/src/swissknife.rs:96-130 | every error other than division by zero is the resolver's own error for one of the identifiers |
| SwissKnife.LexBlank | crates/genapi-core/src/swissknife.rs:211-219 | a blank text lexes to the single token `End` at its end, without error |
| SwissKnife.Precedence | crates/genapi-core/src/swissknife.rs:280-334 | for any two binary operators between three operands, the second operator groups first exactly when it is `*` or `/` and the first is `+` or `-`; otherwise the operators group from the left |
| SwissKnife.LeftAssociative | crates/genapi-core/src/swissknife.rs:280-306 | `a - b - c` groups as `(a - b) - c` |
| SwissKnife.ProductBindsTighter | crates/genapi-core/src/swissknife.rs:280-334 | `a + b * c` multiplies first |
| SwissKnife.UnaryNests | crates/genapi-core/src/swissknife.rs:336-352 | signs nest and bind tighter than `*` |
| SwissKnife.MissingParen | crates/genapi-core/src/swissknife.rs:362-365 | an unclosed parenthesis is reported as missing |
| SwissKnife.TrailingTokens | crates/genapi-core/src/swissknife.rs:89-91 | tokens after a complete expression are an error |
| SwissKnife.LexErrorOnlyWhenReached | crates/genapi-core/src/swissknife.rs:86-93 | a lexing error matters only once the parser advances onto it |
| SwissKnife.SampleParses | crates/genapi-core/src/swissknife.rs:388-399 | the text `(A + 2) * 3 - B / 4` parses to the parenthesised sum times 3, less the quotient of B by 4 |
| SwissKnife.SampleEvaluates | crates/genapi-core/src/swissknife.rs:388-399 | with A = 4 and B = 8 the sample expression is 16 |
| SwissKnife.UnaryParses | crates/genapi-core/src/swissknife.rs:401-413 | the text `-A + 10 / (B - 5)` parses to the negated A plus the quotient of 10 by the parenthesised difference |
| SwissKnife.UnaryEvaluates | crates/genapi-core/src/swissknife.rs:401-413 | with A = 3 and B = 7 that expression is 2 |
| SwissKnife.DivisionByZeroExample | crates/genapi-core/src/swissknife.rs:415-425 | the text `A / B` parses as one quotient, and with B = 0 its evaluation is a division by zero |
| Utf8.Char2 | crates/tl-gige/src/gvcp.rs:340 | a two-byte sequence encodes a code point in U+0080..U+07FF |
| Utf8.Char3 | crates/tl-gige/src/gvcp.rs:340 | a three-byte sequence encodes a code point in U+0800..U+FFFF |
| Utf8.Char4 | crates/tl-gige/src/gvcp.rs:340 | a four-byte sequence encodes a code point in U+10000..U+10FFFF |
| Utf8.DecodeStep | crates/tl-gige/src/gvcp.rs:340 | one decoding step takes one to four bytes; an ASCII byte is itself and only an ASCII byte decodes in one step to that byte's character; a byte that cannot start a sequence is one U+FFFD |
| Utf8.Utf8Lossy | crates/tl-gige/src/gvcp.rs:340 | `String::from_utf8_lossy` never yields more characters than bytes, and yields at least one for non-empty input |
| Utf8.AsciiDecodes | crates/tl-gige/src/gvcp.rs:340 | ASCII bytes decode to the characters of the same code, one per byte |
| Utf8.EncodeChar | crates/tl-gige/src/gvcp.rs:340 | a character's UTF-8 encoding has one to four bytes |
| Utf8.Encode | crates/tl-gige/src/gvcp.rs:340 | a string's encoding has between one and four bytes per character |
| Utf8.DecodeTwo | crates/tl-gige/src/gvcp.rs:340 | a two-byte encoding of v decodes to v |
| Utf8.DecodeThree | crates/tl-gige/src/gvcp.rs:340 | a three-byte encoding of v decodes to v |
| Utf8.DecodeFour | crates/tl-gige/src/gvcp.rs:340 | a four-byte encoding of v decodes to v |
| Utf8.DecodeEncodedChar | crates/tl-gige/src/gvcp.rs:340 | the decoder reads back exactly an encoded character and its width, whatever follows |
| Utf8.DecodeEncoded | crates/tl-gige/src/gvcp.rs:340 | decoding an encoded string followed by any bytes gives the string followed by the decoding of those bytes |
| Utf8.RoundTrip | crates/tl-gige/src/gvcp.rs:340 | the lossy decoding of a valid encoding is the encoded string |
| Utf8.TwoByteExample | crates/tl-gige/src/gvcp.rs:340 | C3 A9 decodes to "é" |
| Utf8.TruncatedExample | crates/tl-gige/src/gvcp.rs:340 | E2 82 41 decodes to one U+FFFD for the cut-off sequence, then "A" |
| Utf8.OverlongExample | crates/tl-gige/src/gvcp.rs:340 | F0 80 decodes to two U+FFFD, since 80 cannot follow F0 |
| Utf8.StrayByte | crates/tl-gige/src/gvcp.rs:340 | a byte that cannot start a sequence becomes one U+FFFD and decoding resumes after it |
| Text.Trim | crates/tl-gige/src/gvcp.rs:340 | `str::trim`: no longer than the text, and neither starts nor ends with Unicode whitespace |
| Text.TrimInfix | crates/tl-gige/src/gvcp.rs:340 | what `str::trim` keeps is the infix of the text that starts right after its leading whitespace and is followed by whitespace only, so only whitespace is dropped, and only at the ends |
| Text.TrimStart | crates/tl-gige/src/gvcp.rs:340 | the trimmed start is a suffix of the text, everything dropped is whitespace, and it does not start with whitespace |
| Text.TrimEnd | crates/tl-gige/src/gvcp.rs:340 | the trimmed end is a prefix of the text, everything dropped is whitespace, and it does not end with whitespace |
| Text.TrimEmpty | crates/tl-gige/src/gvcp.rs:341 | the trim is empty exactly when the text is all whitespace |
| Text.TrimIdempotent | crates/tl-gige/src/gvcp.rs:340 | trimming twice is trimming once |
| Text.ScanDigitsMeaning | crates/genapi-xml/src/lib.rs:2040-2044 | the digit scan succeeds exactly on a digit string whose value is within the bound, and returns that value |
| Text.ParseUnsigned | crates/genapi-xml/src/lib.rs:2040-2044 | `from_str_radix` for an unsigned type succeeds exactly on an optional `+` and a non-empty digit string within the maximum, returning its value; empty text is "cannot parse integer from empty string", and every other failure is an invalid digit or an overflow |
| Text.ParseUnsignedOverflowFirst | crates/genapi-xml/src/lib.rs:2040-2044 | digits already past the maximum report overflow even when a bad character follows |
| Text.ParseUnsignedInvalidFirst | crates/genapi-xml/src/lib.rs:2040-2044 | a bad character met while the value still fits reports an invalid digit, whatever follows |
| Text.OverflowBeforeBadDigitExample | crates/genapi-xml/src/lib.rs:2043-2045 | "70000x" read as a u16 is "number too large to fit in target type" |
| Text.ParseSigned | crates/genapi-xml/src/lib.rs:2053-2057 | `from_str_radix` for a signed type succeeds exactly on an optional sign and a non-empty digit string whose signed value is in range, returning that value; too small is reported only after a `-`, too large only without one |
| Text.HexWord | crates/tl-gige/src/gvcp.rs:273 | `{:#06x}` of a 16-bit value is `0x` and four lower-case hexadecimal digits whose value is the number |
| Text.NatToDecimal | crates/tl-gige/src/gvcp.rs:519 | `{n}` is a non-empty string of decimal digits |
| Text.DecimalRoundTrip | crates/tl-gige/src/gvcp.rs:519 | the decimal digits read back to the number |
| Text.ToAsciiLower | crates/genapi-xml/src/lib.rs:124 | `to_ascii_lowercase` keeps the length and lower-cases each character on its own |
| Text.SplitOnce | crates/genapi-xml/src/lib.rs:1949 | `split_once` is None exactly when the character is absent; otherwise the text is the part before, the character and the part after, and the part before does not hold it |
| Text.Split | crates/gencamctl/src/cmd_chunks.rs:17 | `split` always yields at least one piece and no piece holds a separator |
| Text.JoinSplit | crates/gencamctl/src/cmd_chunks.rs:17 | joining the pieces of a split on one character with that character gives back the text |
| Text.UntilNul | crates/tl-gige/src/gvcp.rs:338-339 | the bytes before the first NUL: a prefix free of NUL, followed by a NUL unless it is all of the input |
| Gvcp.DiscoveryAckPayloadErrors | crates/tl-gige/src/gvcp.rs:281-286 | once the header is accepted the only errors are the truncation and the payload parser's own |

## Left out

- Floating point. The model leaves out these float computations:
  - the least-squares coefficients of `recompute` in `crates/tl-gige/src/time.rs`;
  - `to_host_time`;
  - the frequency estimate of `time_calibrate`;
  - `parse_f64`, the Float `Min`/`Max` values and the decimal branch of `parse_scale` (kept as `DecimalText`, its conversion and zero check not modelled);
  - the statistics' `elapsed` and `packets_per_second`.
- Chunk `f64` values are kept as their raw 64 bits.
- SwissKnife.Evaluate computes on exact reals instead of `f64`, so rounding, infinities and NaN are not modelled. The number literals keep their text, whose exact decimal value is `LiteralValue`.
- Sockets and OS I/O. These become inputs or sequences of replies:
  - the UDP sockets of `discover_filtered`, `GigeDevice::open`, `EventSocket::bind`, `send_action` and the NIC binding helpers;
  - the device writes and socket creation that follow the pure configuration in `StreamBuilder::build`;
  - all file writing (`save_image`, the PGM/PPM writers, JSON output).
- `nic::mtu`, `best_packet_size` and `gvsp::parse_chunks` are foreign calls and become function parameters.
- Concurrency. The tokio `select!`, `JoinSet` and Mutex usage and `block_on` are not modelled. The relaxed atomic counters of the statistics are plain fields, updated one call at a time.
- Randomness. The `fastrand` backoff jitter and the random initial request id are inputs within their stated ranges.
- `crates/tl-gige/src/gvsp.rs` `parse_packet` always fails in the source. Packets are modelled only as the leader, payload and trailer values the stream command consumes. No reassembly, resend or frame pool exists to model.
- The quick_xml-driven loops of the XML loader are not part of this model: `parse`, `parse_into_minimal_nodes`, the per-node-type `parse_*` functions, `skip_element`, `read_text_start` and `attribute_value`. Only the builders and helpers they call are modelled.
- Also not part of this model:
  - the `Camera` facade of `crates/genicam/src/lib.rs` and the NodeMap stub it relies on;
  - `crates/genicam/src/events.rs` and `crates/genicam/src/frame.rs`;
  - the constant-only crates.
- Not part of this model in `gencamctl`:
  - `main.rs`, `cmd_get`, `cmd_set` and `cmd_list`;
  - `cmd_events.rs`, whose selector parser is the same as `cmd_chunks.rs`'s;
  - `cmd_bench.rs`, whose packet step and mode parser are the same as `cmd_stream.rs`'s.
- The demo examples other than `soak_bench.rs` are not part of this model.
- SoakBench.ParseArgs: the standard library's `Ipv4Addr` parser used for `--iface` and `--group` (soak_bench.rs:99, 120) is not part of this model; it enters as the parameter `parseIpv4`, and a text it rejects gives the fixed message `BAD_IPV4` ("invalid IPv4 address syntax").
- SoakBench.ParseMinutes: the multiplication by 60 or 3600 is modelled as wrapping modulo 2^64, as a release build computes it. A debug build panics on overflow instead.
- SoakBench.ParseHours: the same wrapping multiplication as ParseMinutes.
- GenicamTime.LeastSquares: `compute_fit` is modelled on exact reals instead of `f64`, so rounding in the sums, the means and the slope is not modelled. Only the guard against `f64::EPSILON` keeps its constant.
- GenicamTime.TimeSync.Fit: the same exact reals as GenicamTime.LeastSquares, and the `u64` ticks convert to reals exactly where `as f64` rounds above 2^53. The trim count `floor(len * 0.1)` is `len / 10`. The `trace!` logging of the residuals after the fit is left out.
- GenicamTime.WindowedIsLatest: requires a capacity of at least 1. With capacity 0 the source never drops a sample, so the window is unbounded (GenicamTime.ZeroCapacityUnbounded states this).
- SoakBench: the `main` loop's per-packet state, the printing and the timers are not part of this model.
- Stats.CountPackets is a client loop written for the model, showing that repeated records add up. It does not correspond to a loop in the source.
- `first_cstring` in `crates/genapi-xml/src/lib.rs:2097-2106` is the same function as `parse_string` in `gvcp.rs`. It is modelled once, as Gvcp.ParseString.
- Gvcp.ReadMemory: requires that every chunk's start address `addr + offset` fits a u64 (Gvcp.ChunkStartsFit). Past that the source's `addr + offset as u64` overflows, which panics in a debug build and wraps in a release build. Neither outcome is modelled.
- Gvcp.WriteMemory: the same u64 bound on chunk start addresses as Gvcp.ReadMemory.
- Gvcp.ParseDiscoveryAck: the discovery path uses the corrected payload parser, which reports a 32- or 33-byte payload as too small. In the source that payload panics the interface's discovery task, and `discover_filtered` then fails with "discovery task failed: …" (crates/tl-gige/src/gvcp.rs:248). The panic outcome is not modelled; Gvcp.ParseDiscoveryPayloadAsWritten records where it happens.
- Gvcp.GatheredError: states what one interface gathers with the corrected parser. With the source's parser, a 32- or 33-byte discovery payload ends the gathering with a task panic rather than an error result. That outcome is not modelled.
- SwissKnife.Evaluate: the resolver is a pure function of the identifier. The source's resolver is a `FnMut` that may keep state between calls, and is called in evaluation order, left operand first. Effects of that order on a stateful resolver are not modelled.
- `UrlLocation::Local`'s conversion of the length to `usize` is not modelled, because on 64-bit targets it cannot fail.

## Findings

| source | as written | input that shows it | evidently intended | confidence | as-written member | corrected member |
|---|---|---|---|---|---|---|
| crates/gencamctl/src/common.rs:173 | `encode_ppm` writes a P6 (RGB) header but requires `width * height` payload bytes, one per pixel | a 2 × 2 image with 12 bytes, which the test at lines 202-208 expects to encode, is rejected as a length mismatch | three bytes per pixel: `width * height * 3`, checked for overflow | high (not executed) | CtlCommon.EncodePpmAsWritten, with CtlCommon.PpmAsWrittenRejectsTwoByTwo | CtlCommon.EncodePpm, with CtlCommon.PpmTwoByTwo |
| crates/tl-gige/src/gvcp.rs:291 | `parse_discovery_payload` accepts any payload of at least 32 bytes, but reads 34 bytes of fixed fields before the strings | a 32- or 33-byte discovery payload passes the check and then panics in the cursor read of the gateway | a minimum of 34 bytes, so that a short payload is reported as too small | high (not executed) | Gvcp.ParseDiscoveryPayloadAsWritten, with Gvcp.DiscoveryPayloadPanicExample | Gvcp.ParseDiscoveryPayload, with Gvcp.DiscoveryPayloadAgrees |

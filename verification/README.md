# Verified model of the ESP32 switch firmware

This project models the stateful algorithms of an ESP32 wall switch and proves
what they keep over whole runs. `dafny verify dfyconfig.toml` checks all of it.

| files | subject |
|---|---|
| `JsonGenerator`, `JsonText`, `JsonClient` | the streaming JSON generator: a printer over a fixed buffer with a flush callback, one comma flag in place of a stack, and a mode that only measures |
| `MqttPacket`, `MqttReceiver` | the resumable packet reader of the MQTT client over a transport with short reads, and the delivery of PUBLISH packets that do not fit the buffer |
| `MqttIdentifiers`, `MqttPublisher` | the packet identifiers, the message builder and the sending of PUBLISH packets in fragments |
| `MqttSession` | what is received and what is answered, over whole connections |
| `MqttOutbox`, `MqttPending` | the outbox, and the counter of pending messages beside it |
| `MqttBooks`, `MqttInterleaved` | calls of the application and packets of the broker in any order |
| `BitSets`, `ScheduleWeek`, `ScheduleDate`, `ScheduleTrigger`, `Recurrence`, `ScheduleEngine`, `ScheduleDated` | the calendar arithmetic of the schedule engine on bit masks, and its re-arming timer for weekly schedules and for dates, repeating or not |
| `ScheduleStore`, `ScheduleLoader` | the persisted schedules, their counter, and the start-up that loads them and sweeps out the expired ones |
| `FlashQueue`, `FlashLog` | the two-bank flash log as a queue of bytes |
| `ButtonMachine`, `Button` | the button debouncer with its timers and its deferred callback |
| `WifiStrategy` | the delays between Wi-Fi connection attempts |
| `UartScanner` | the frame scanner on the serial line to the dimmer |
| `Common` | shared vocabulary |

Code that changes things step by step is modelled as classes whose methods
follow the C functions; each is proved against a function of the old state or
against the property itself, and the theorems are about those functions and
about whole runs. Bit masks are natural numbers with `&`, `^`, `<<`, `ffs` and
`fls` written out. Input from outside (bytes of a transport, failing flash, the
time, the order in which timers are served) is a parameter or left open, so the
theorems hold for all of it.

## Where the code differs from what one would expect

The model follows the code. Each of these has a lemma that says exactly when it
happens:

- The packet reader, resumed on a complete header, may take body bytes for
  length bytes (`mqtt_client.c:1086-1087`): `MisreadPossible`, `Received`.
- Its size test for oversized packets leaves out the two bytes of the topic
  length (`mqtt_client.c:1140`): `SizeTestSlack`, `DeliveredIsPayload`. The
  identifier of such a packet is then read from behind the buffer, as the length
  passed is the packet's (`mqtt_client.c:1200`): `GetId`, `IdentifierAsPayload`.
- The `msg_id` of a data event is taken with the length of the payload, not of the
  packet (`mqtt_client.c:959`), and missing when the payload is short: `EventId`.
- A read that fails while an oversized packet is delivered goes unnoticed: the
  negative result is kept as an unsigned length (`mqtt_client.c:980-988`):
  `PostEvents`, `SpoiledIsNoDelivery`.
- A PUBLISH that has been delivered, even one that needs no answer, costs the
  connection when the outbound message is empty, as a refused publish leaves it
  (`mqtt_client.c:1230-1233`): `Process`, `PublishThenProcess`. A retransmission in
  between leaves its own length there and so prevents that: `Publisher.Resend`,
  `MqttInterleaved.Run`. A failed write of
  a PUBREL or PUBCOMP goes unnoticed, and the identifier 0, which no packet may
  carry, is acknowledged as another one: `Process`.
- An oversized message of quality of service 0 that is enqueued without being
  stored leaves its length behind for the next packet that is built:
  `EnqueueThenPing`.
- The header file of the message builder promises a data offset of zero for
  messages that are not fragmented; `fini_message` always subtracts from it
  (`mqtt_msg.c:129`), and an oversized message that is only stored leaves it
  positive: `WireIsPacket`, `StoreThenPublish`. If it is positive by more than the
  next payload is long, memory before that payload is sent: `Publish`.
- A fragmented publish with a length of zero, which stands for the whole string,
  sends its first fragment only: `WireIsPacket`.
- The DUP flag is set in the stored copy of a message that has never been sent, and
  when the write fails (`mqtt_client.c:1296-1298`): `Resend`.
- The pending counter is raised before it is known whether the message could be
  stored, and messages of quality of service 0 and those dropped at the end of
  the client task are not counted down: `Valid` of `MqttPending.Client` accounts for
  the difference.
- `ESP_SCHEDULE_MONTH_ALL` lists seven months: `MonthAllIsHalfAYear`.
- The expiry test of dated schedules is strict: at the very second of the last
  moment the schedule is armed once more: `ExpiryGap`, `SpuriousMonth`,
  `Schedule.TimerCallback` of `ScheduleDated`.
- The period of the schedule timer wraps at 2 to the 32 milliseconds, some 49 days:
  a yearly schedule is armed right from every instant only if it lists all twelve
  months, and otherwise triggers when none of its moments has come:
  `Schedule.StartTimer` and `TriggerEarly` of `ScheduleDated`, `ReachIsEveryMonth`,
  `SomewhereOutOfReach`.
- Adding a schedule to a store without a counter writes it and reports an
  error: `Store.Add`. A counter that is too small lets the loader write beyond
  its array, and one that is positive although nothing is stored is handed back
  beside a NULL list (`esp_schedule_nvs.c:232-235`): `GetAll`, `BoundsAreCount`.
- The log's check for room leaves out the timestamp: `SpaceCheck`,
  `SpillDamages`, `CheckMisses`.
- The serial scanner does not check the sum of a frame, and goes on at the sum:
  `HitsAreFrames`, `SumMayMislead`.

## Model

| member | source | states |
|---|---|---|
| JsonGenerator.FlagIsTopOfStack | components/esp-rainmaker/components/json_generator/upstream/json_generator.c:95-178 | for every sequence of calls, at every nesting depth, the single comma flag equals "the current container already has an element" of a printer that keeps a stack, and both write the same text |
| JsonGenerator.RunConcat | components/esp-rainmaker/components/json_generator/upstream/json_generator.c:95-178 | what calls print is determined by the text and the flag before them: runs compose |
| JsonGenerator.RunGrows | components/esp-rainmaker/components/json_generator/upstream/json_generator.c:37-69 | a longer run of calls never has a shorter text, which makes overflow sticky |
| JsonGenerator.ChunksAreBlocks | components/esp-rainmaker/components/json_generator/upstream/json_generator.c:46-65 | the chunks handed to the callback are the consecutive blocks of buf_size - 1 characters of the text |
| JsonGenerator.JsonGen.constructor | components/esp-rainmaker/components/json_generator/upstream/json_generator.c:72-81 | a fresh generator has printed nothing, into a buffer, a flushed buffer or no buffer at all |
| JsonGenerator.JsonGen.Append | components/esp-rainmaker/components/json_generator/upstream/json_generator.c:46-68 | the copy loop ends with everything taken when there is a callback, and otherwise with exactly the prefix there is room for and -1 if something was dropped; the write position stays inside the buffer |
| JsonGenerator.JsonGen.AddToStr | components/esp-rainmaker/components/json_generator/upstream/json_generator.c:37-69 | appending extends the ideal text; the result is 0 exactly when nothing so far was dropped (or nothing was appended) |
| JsonGenerator.JsonGen.End | components/esp-rainmaker/components/json_generator/upstream/json_generator.c:83-93 | the size counts the whole text and its NUL; the buffer ends as the longest prefix with room, or the rest goes to the callback |
| JsonGenerator.JsonGen.StartObject | components/esp-rainmaker/components/json_generator/upstream/json_generator.c:110-115 | prints a comma where one is due and the brace; reports overflow so far |
| JsonGenerator.JsonGen.EndObject | components/esp-rainmaker/components/json_generator/upstream/json_generator.c:117-149 | prints the brace; the enclosing container now has an element (also as json_gen_pop_object) |
| JsonGenerator.JsonGen.StartArray | components/esp-rainmaker/components/json_generator/upstream/json_generator.c:124-129 | prints a comma where one is due and the bracket |
| JsonGenerator.JsonGen.EndArray | components/esp-rainmaker/components/json_generator/upstream/json_generator.c:131-170 | prints the bracket; the enclosing container now has an element (also as json_gen_pop_array) |
| JsonGenerator.JsonGen.PushObject | components/esp-rainmaker/components/json_generator/upstream/json_generator.c:137-143 | prints comma, quoted name, colon and brace; the new container is empty |
| JsonGenerator.JsonGen.PushArray | components/esp-rainmaker/components/json_generator/upstream/json_generator.c:159-165 | prints comma, quoted name, colon and bracket; the new container is empty |
| JsonGenerator.JsonGen.PushRaw | components/esp-rainmaker/components/json_generator/upstream/json_generator.c:151-178 | prints comma, name and the given text; an empty text is the one case whose result is unreliable |
| JsonGenerator.JsonGen.ObjSet | components/esp-rainmaker/components/json_generator/upstream/json_generator.c:188-302 | a named value of any kind: its result is 0 exactly when everything so far was kept, although the results of the appends before the last are discarded |
| JsonGenerator.JsonGen.ArrSet | components/esp-rainmaker/components/json_generator/upstream/json_generator.c:195-308 | the same for an unnamed value |
| JsonGenerator.JsonGen.SetString | components/esp-rainmaker/components/json_generator/upstream/json_generator.c:242-248 | a string value prints its quotes around it and reports the overflow of all of them |
| JsonGenerator.JsonGen.ObjStartLong | components/esp-rainmaker/components/json_generator/upstream/json_generator.c:270-275 | a long string is opened after comma and name |
| JsonGenerator.JsonGen.ArrStartLong | components/esp-rainmaker/components/json_generator/upstream/json_generator.c:277-281 | a long string is opened as an array element |
| JsonGenerator.JsonGen.AddToLong | components/esp-rainmaker/components/json_generator/upstream/json_generator.c:283-286 | a piece of a long string is appended |
| JsonGenerator.JsonGen.EndLong | components/esp-rainmaker/components/json_generator/upstream/json_generator.c:288-291 | a long string is closed |
| JsonClient.Replay | components/esp-rainmaker/components/json_generator/upstream/json_generator.c:37-69 | over any sequence of calls: each result is 0 exactly as long as everything so far has been kept, and -1 from then on for calls that report reliably |
| JsonClient.Measure | components/esp-rainmaker/components/json_generator/upstream/json_generator.c:83-93 | a run against a NULL buffer returns exactly the size that is needed |
| JsonClient.Print | components/esp-rainmaker/components/json_generator/upstream/json_generator.c:37-93 | without a callback the buffer holds the text's prefix of length buf_size - 1, and errors are sticky |
| JsonClient.MeasureThenPrint | components/esp-rainmaker/components/json_generator/upstream/json_generator.c:37-93 | a buffer of the measured size loses nothing, and every call returns 0 |
| JsonClient.Stream | components/esp-rainmaker/components/json_generator/upstream/json_generator.c:27-93 | with a callback and at least two characters of buffer, the chunks are the whole text in blocks of buf_size - 1 characters and one shorter rest, and no call fails |
| JsonClient.PrintTree | components/esp-rainmaker/components/json_generator/upstream/json_generator.c:37-302 | measuring and printing the calls of a tree leaves its compact text, which parses back to the tree exactly when nothing in it needs escaping |
| JsonText.RoundTrip | components/esp-rainmaker/components/json_generator/upstream/json_generator.c:95-302 | a text parses as a tree if and only if the tree is free of characters that need an escape and the text is its compact rendering (sections 2 to 7 of RFC 8259) |
| JsonText.RenderParses | components/esp-rainmaker/components/json_generator/upstream/json_generator.c:95-302 | the rendering of a clean tree is parsed back whatever follows it |
| JsonText.ParsedIsRendered | components/esp-rainmaker/components/json_generator/upstream/json_generator.c:95-302 | whatever the parser accepts is the rendering of the clean tree it returns, and what it leaves |
| JsonText.WalkPrints | components/esp-rainmaker/components/json_generator/upstream/json_generator.c:110-302 | the walk of emitter calls for a tree, from any state of the generator, appends a comma where one is due and the compact text |
| JsonText.MemberPrints | components/esp-rainmaker/components/json_generator/upstream/json_generator.c:102-302 | the same for a named member of an object |
| JsonText.LongMember | components/esp-rainmaker/components/json_generator/upstream/json_generator.c:262-291 | a long string in any number of pieces prints, as a member, what the joined string prints |
| JsonText.LongElem | components/esp-rainmaker/components/json_generator/upstream/json_generator.c:262-291 | and as an element of an array |
| JsonText.PushRendered | components/esp-rainmaker/components/json_generator/upstream/json_generator.c:151-178 | pushing a member that has been rendered prints what the calls for that member print |
| JsonText.WalkRoundTrip | components/esp-rainmaker/components/json_generator/upstream/json_generator.c:95-302 | the walk of a whole tree writes its rendering, and the parser returns the tree exactly when it is clean |
| MqttPacket.LowSumIsGroups | patch/component_lib/mqtt/esp-mqtt/lib/mqtt_msg.c:147-165 | weighing the seven-bit groups one by one gives the number of section 2.2.3 of MQTT 3.1.1, defined from the most significant group down |
| MqttPacket.GetTotalLength | patch/component_lib/mqtt/esp-mqtt/lib/mqtt_msg.c:147-165 | the loop returns the length of the whole packet and of its fixed header, and the sum over the bytes that are there when the header is not complete |
| MqttPacket.HeaderLocal | patch/component_lib/mqtt/esp-mqtt/lib/mqtt_msg.c:167-196 | header and length depend on the bytes of the header alone |
| MqttPacket.GetPublishTopic | patch/component_lib/mqtt/esp-mqtt/lib/mqtt_msg.c:198-225 | finds the topic exactly when header, length field and all its bytes are in the buffer |
| MqttPacket.GetPublishData | patch/component_lib/mqtt/esp-mqtt/lib/mqtt_msg.c:227-273 | finds the part of the payload that is in the buffer, and nothing when the header does not end before it |
| MqttPacket.GetId | patch/component_lib/mqtt/esp-mqtt/lib/mqtt_msg.c:275-330 | the identifier of section 2.3.1 of MQTT 3.1.1, for every kind of packet that has one, read from a buffer that may hold the front of the packet only; zero for the others and for a PUBLISH whose header is cut short; what lies behind the buffer is read if and only if the packet is a PUBLISH above quality of service 0 with a header longer than the buffer |
| MqttPacket.EventId | patch/component_lib/mqtt/esp-mqtt/mqtt_client.c:957-960 | the event's msg_id, taken with the length of the payload at hand: the packet's identifier if and only if that payload is no shorter than the header, otherwise zero |
| MqttPacket.DupKeeps | patch/component_lib/mqtt/esp-mqtt/lib/include/mqtt_msg.h:113-116 | setting the DUP flag of section 3.3.1.1 of MQTT 3.1.1 in a PUBLISH changes neither its topic, payload, identifier, quality of service and retain flag nor where it ends |
| MqttPacket.ValidFirstByteIs | patch/component_lib/mqtt/esp-mqtt/lib/mqtt_msg.c:576-610 | the first bytes that are accepted, one by one: those of table 2.2 of MQTT 3.1.1, and of a PUBLISH without quality of service 3 and without the DUP flag at 0 |
| MqttPacket.EncodeDecodes | patch/component_lib/mqtt/esp-mqtt/lib/mqtt_msg.c:107-126 | an encoded length reads back as the number, whatever follows it |
| MqttPacket.EncodeWidth | patch/component_lib/mqtt/esp-mqtt/lib/mqtt_msg.c:107-126 | four length bytes are enough exactly for lengths below 128 to the fourth |
| MqttPacket.FramedLength | patch/component_lib/mqtt/esp-mqtt/lib/mqtt_msg.c:97-138 | type byte, length field and body make a packet whose announced length is its length |
| MqttReceiver.Receiver.Draw | patch/component_lib/mqtt/esp-mqtt/mqtt_client.c:1060-1174 | the input buffer is always exactly the bytes drawn from the stream for this packet, in order, and never beyond its end |
| MqttReceiver.Receiver.ReadLength | patch/component_lib/mqtt/esp-mqtt/mqtt_client.c:1086-1109 | the length loop reads up to the first byte without the top bit, or six bytes, or pauses with the byte it stopped at asking for more |
| MqttReceiver.LoopEnds | patch/component_lib/mqtt/esp-mqtt/mqtt_client.c:1086-1109 | after the loop the fixed header is complete; it has read beyond the packet exactly when the resume was a misread |
| MqttReceiver.LoopPauses | patch/component_lib/mqtt/esp-mqtt/mqtt_client.c:1086-1109 | when the loop runs out of data the packet is not complete, except on a misread |
| MqttReceiver.LoopSkipped | patch/component_lib/mqtt/esp-mqtt/mqtt_client.c:1086-1087 | when the loop is skipped the header is complete and nothing has been misread |
| MqttReceiver.MisreadPossible | patch/component_lib/mqtt/esp-mqtt/mqtt_client.c:1086-1087 | some resume of a packet takes a body byte for a length byte if and only if the packet has at most five bytes, two or more after the fixed header, the last two with their top bits set |
| MqttReceiver.MisreadOnlyTiny | patch/component_lib/mqtt/esp-mqtt/mqtt_client.c:1086-1087 | a misread packet has three to five bytes |
| MqttReceiver.MisreadHappens | patch/component_lib/mqtt/esp-mqtt/mqtt_client.c:1086-1087 | an acknowledgement of identifier 0x8080 resumed after three bytes is misread |
| MqttReceiver.Receiver.PlanOversized | patch/component_lib/mqtt/esp-mqtt/mqtt_client.c:1114-1152 | an oversized packet is given up unless it is a PUBLISH whose header passes the size test; the missing part of the topic length is drawn first |
| MqttReceiver.SizeTestSlack | patch/component_lib/mqtt/esp-mqtt/mqtt_client.c:1137-1200 | the size test leaves out the two bytes of the topic length: it passes for headers up to two bytes longer than the buffer; read next to the definition of IdBeyond, which GetId ties to the code: of these, the packets above quality of service 0 are the ones whose identifier is then looked for behind the buffer |
| MqttReceiver.Receiver.ReadHeader | patch/component_lib/mqtt/esp-mqtt/mqtt_client.c:1060-1109 | the reads up to the end of the fixed header, over any earlier calls |
| MqttReceiver.Receiver.ReadBody | patch/component_lib/mqtt/esp-mqtt/mqtt_client.c:1110-1174 | from the header to the packet, or to a full buffer of an oversized PUBLISH |
| MqttReceiver.Receiver.Receive | patch/component_lib/mqtt/esp-mqtt/mqtt_client.c:1053-1178 | across any number of calls and short reads of one packet: 1 comes exactly with the packet, or a full buffer of an oversized PUBLISH, and message_length is the length of section 2.2.3 of MQTT 3.1.1; more than the packet is held exactly on a misread; 0 means it is not complete; -1 means the transport failed or the packet is one to be refused |
| MqttReceiver.Receiver.Locate | patch/component_lib/mqtt/esp-mqtt/mqtt_client.c:942-955 | topic and first stretch of the payload, from the buffer |
| MqttReceiver.Receiver.ReadMore | patch/component_lib/mqtt/esp-mqtt/mqtt_client.c:980-985 | the next stretch of an oversized packet, read over the last one; it may be empty, and the read may fail |
| MqttReceiver.Receiver.PostEvents | patch/component_lib/mqtt/esp-mqtt/mqtt_client.c:962-989 | unless a read fails, the events carry the topic first, the constant total, the sum of the earlier lengths as offset, and together exactly the bytes from the first event's to the end of the packet; an empty read ends the loop with the events of a proper front of them; a failed read does not end it but leaves an event of negative length, however the 32-bit counters then wrap; the loop ends in every case |
| MqttReceiver.Receiver.DeliverPublish | patch/component_lib/mqtt/esp-mqtt/mqtt_client.c:933-991 | on success without a failed read exactly one packet has been consumed and the events deliver it from where the buffered payload starts; it fails only on an empty read or without its topic in the buffer, and has then posted nothing, or a proper front of the payload; after a failed read the events are spoiled, whether success is reported or not |
| MqttReceiver.SpoiledIsNoDelivery | patch/component_lib/mqtt/esp-mqtt/mqtt_client.c:977-985 | events with a negative length among them deliver no message whatever |
| MqttReceiver.WrapIs | patch/component_lib/mqtt/esp-mqtt/mqtt_client.c:977-985 | the unsigned counters of 32 bits and their conversion back to int |
| MqttReceiver.DeliveredIsPayload | patch/component_lib/mqtt/esp-mqtt/mqtt_client.c:933-991 | what is delivered is the payload of section 3.3.3 of MQTT 3.1.1 if and only if the whole header was in the buffer |
| MqttReceiver.IdentifierAsPayload | patch/component_lib/mqtt/esp-mqtt/mqtt_client.c:1137-1200 | a 14-byte PUBLISH and a buffer of 10 bytes: the identifier is looked for behind the buffer, and delivered as payload |
| MqttSession.Process | patch/component_lib/mqtt/esp-mqtt/mqtt_client.c:1180-1288 | one round on a good packet, both halves of the client: once it has been delivered the call fails if and only if the outbound message is empty (for a PUBLISH of any quality of service, and for what must be answered) or the answer to a PUBLISH could not be written; otherwise it fails only after an empty or failed read, having posted a proper front of the payload, or spoiled events, and touched nothing else; the wire gets exactly the answer with the packet's identifier, or its front, and the stored messages and events change as the packet says, or not at all when it cannot be answered; as long as no total length is left over, a PUBLISH of quality of service 1 is answered with 0x40 0x02 and the identifier, one of 2 with 0x50 0x02, a PUBREC with 0x62 0x02, a PUBREL with 0x70 0x02, and nothing else is answered; in place of the identifier zero the next own one is used |
| MqttSession.AnswerIs | patch/component_lib/mqtt/esp-mqtt/mqtt_client.c:1221-1273 | the answer that is built for each first byte is the one in these numbers, and its flag bits are the ones required |
| MqttSession.KeepsLinkIs | patch/component_lib/mqtt/esp-mqtt/mqtt_client.c:1221-1273 | what costs the connection after a delivery, in numbers: a PUBLISH over an empty outbound message or an answer that is due and could not be written, a PUBREC or PUBREL over an empty outbound message, nothing else |
| MqttSession.SettlesByType | patch/component_lib/mqtt/esp-mqtt/mqtt_client.c:1203-1279 | which stored message a packet settles, in numbers: a PUBACK or PUBCOMP a PUBLISH, a SUBACK a SUBSCRIBE, an UNSUBACK an UNSUBSCRIBE, with the same identifier; a PUBREC marks it |
| MqttSession.PublishThenProcess | patch/component_lib/mqtt/esp-mqtt/mqtt_client.c:1219-1233 | an incoming PUBLISH of quality of service 0 right after a call of publish, whatever that call leaves behind: the connection is given up over it if and only if the call was refused; without a connection nothing is received |
| MqttSession.Settle | patch/component_lib/mqtt/esp-mqtt/mqtt_client.c:1203-1279 | an acknowledgement takes the first stored message of its identity out of the outbox and reports it; PUBREC marks it |
| MqttSession.Identify | patch/component_lib/mqtt/esp-mqtt/mqtt_client.c:1196-1202 | type and identifier are taken before the delivery writes over the buffer; the identifier is the packet's, unless the header goes beyond the buffer, which is when it is read from behind it |
| MqttSession.Pump | patch/component_lib/mqtt/esp-mqtt/mqtt_client.c:1180-1288 | over whole connections of good packets, however reads and writes are cut up: the packets handled are a prefix of those sent, each with its full effect in order on the application, on the stored messages and their reports and, while writes succeed, on the wire; none is lost, read twice or answered twice, and none that has arrived is left waiting. The connection is given up only after an empty or failed read, a failed write of an answer, or with an empty outbound message, and never with an empty one if it was not empty at first and the buffer takes an acknowledgement; all this holds then as well: the next packet has been delivered, or a proper front of it, or spoiled by a failed read, it has settled nothing, and at most a proper front of its answer is on the wire behind the answers to the others. In numbers, as long as no total length is left over and packets that are answered have an identifier: the wire has exactly the answers of Process to the packets handled, in order, and at most a proper front of the next one's |
| MqttSession.Turn | patch/component_lib/mqtt/esp-mqtt/mqtt_client.c:1180-1288 | one call in such a run keeps that |
| MqttSession.FrameLies | patch/component_lib/mqtt/esp-mqtt/mqtt_client.c:1180-1288 | where each packet of a connection lies in its stream |
| MqttPublisher.PublishReadsBack | patch/component_lib/mqtt/esp-mqtt/lib/mqtt_msg.c:434-473 | a built PUBLISH packet is well formed and reads back as the topic, payload, quality of service and retain flag it was built from |
| MqttPublisher.PublishCarriesId | patch/component_lib/mqtt/esp-mqtt/lib/mqtt_msg.c:275-473 | a PUBLISH packet built with an identifier gives it back to mqtt_get_id |
| MqttPublisher.AckCarriesId | patch/component_lib/mqtt/esp-mqtt/lib/mqtt_msg.c:275-509 | so does an acknowledgement, with the flag bits that are required |
| MqttPublisher.Publisher.AppendString | patch/component_lib/mqtt/esp-mqtt/lib/mqtt_msg.c:48-60 | a string goes in with its length, or not at all when there is no room |
| MqttPublisher.Publisher.AppendMessageId | patch/component_lib/mqtt/esp-mqtt/lib/mqtt_msg.c:62-82 | identifier zero asks for the next one of the counter, which is never zero, and takes it even if there is no room; the loop ends |
| MqttIdentifiers.IdsDiffer | patch/component_lib/mqtt/esp-mqtt/lib/mqtt_msg.c:62-82 | any 65535 identifiers taken one after the other are pairwise different, and none is zero |
| MqttPublisher.Publisher.EncodedLength | patch/component_lib/mqtt/esp-mqtt/lib/mqtt_msg.c:107-126 | the loop writes the length field that EncodeDecodes reads back |
| MqttPublisher.Publisher.FiniMessage | patch/component_lib/mqtt/esp-mqtt/lib/mqtt_msg.c:97-138 | the fixed header ends right before the body, whatever the width of its length field; for a fragmented message it counts the whole body; the data offset moves along whether it is meaningful or not |
| MqttPublisher.Publisher.BuildAck | patch/component_lib/mqtt/esp-mqtt/lib/mqtt_msg.c:475-509 | an acknowledgement of the given identifier, or of the next own one in place of zero; refused exactly when the buffer has fewer than seven bytes |
| MqttPublisher.Publisher.BuildBare | patch/component_lib/mqtt/esp-mqtt/lib/mqtt_msg.c:554-570 | a packet without a body |
| MqttPublisher.Publisher.EnqueueThenPing | patch/component_lib/mqtt/esp-mqtt/mqtt_client.c:1825-1839 | the packet built after a call of enqueue is 0xC0 0x00, a PINGREQ, if and only if the call did not build an oversized message of quality of service 0 without storing it; otherwise it announces the length of that message |
| MqttPublisher.Publisher.BuildPublish | patch/component_lib/mqtt/esp-mqtt/lib/mqtt_msg.c:434-473 | refused exactly under Refused; otherwise the message is the packet, or the part of it that the buffer holds, and the two fields tell the caller how much is missing |
| MqttPublisher.Publisher.Write | patch/component_lib/mqtt/esp-mqtt/mqtt_client.c:580-599 | partial writes add up: it succeeds if and only if exactly the message has gone out, and otherwise a proper prefix of it has |
| MqttPublisher.Publisher.StorePending | patch/component_lib/mqtt/esp-mqtt/mqtt_client.c:1007-1042 | an oversized message is stored as the full packet, a small one as it is, if there is memory; it is counted in either case |
| MqttPublisher.Publisher.EnqueuePriv | patch/component_lib/mqtt/esp-mqtt/mqtt_client.c:1690-1730 | what is stored for quality of service above 0 is the same full packet, fragmented or not, if there is memory for it, which the caller is not told |
| MqttPublisher.Publisher.LoadNext | patch/component_lib/mqtt/esp-mqtt/mqtt_client.c:1784-1800 | the next stretch of the payload, as much as the buffer takes |
| MqttPublisher.Publisher.SendAll | patch/component_lib/mqtt/esp-mqtt/mqtt_client.c:1771-1804 | the fragments sent are the message and the rest of the payload, no byte lost or repeated, and when a write fails a prefix of that; the loop ends |
| MqttPublisher.Publisher.Publish | patch/component_lib/mqtt/esp-mqtt/mqtt_client.c:1732-1823 | effect on wire, outbox, outbound length and the two fields that outlive the call, in every case: refused, offline, sent, broken off (then a prefix of what would have been sent is on the wire); the outbound message is empty afterwards if and only if the call was refused; bytes from before the start of the payload are read if and only if a leftover offset reaches beyond its end, and as many as it does; above quality of service 0 the message gets the next identifier, which a refused call may have taken as well |
| MqttPublisher.WireIsPacket | patch/component_lib/mqtt/esp-mqtt/mqtt_client.c:1766-1804 | for every leftover offset: exactly the packet goes out if and only if a fragmented message comes with its length, and no leftover offset reaches beyond the payload's place, or only so far that a length not above zero makes up for it |
| MqttPublisher.Publisher.StoreThenPublish | patch/component_lib/mqtt/esp-mqtt/mqtt_client.c:1732-1839 | an oversized message is stored and then a small one published: the wire has the second packet and, if the first one's headers are longer than the place of the second's payload, the end of its payload once more, or all of it behind bytes that lie before it in memory; exactly the packet if and only if they are not |
| MqttPublisher.LeftoverIs | patch/component_lib/mqtt/esp-mqtt/mqtt_client.c:1766-1804 | how far the offset left behind reaches, from the topics, payload length and quality of service of the two |
| MqttPublisher.Publisher.Enqueue | patch/component_lib/mqtt/esp-mqtt/mqtt_client.c:1825-1839 | stores the full packet if there is memory, or refuses; what it leaves in the two fields |
| MqttPublisher.Publisher.SendMessage | patch/component_lib/mqtt/esp-mqtt/mqtt_client.c:897-908 | a message goes out whole, or a proper prefix of it and the failure is reported |
| MqttPublisher.Publisher.Session | patch/component_lib/mqtt/esp-mqtt/mqtt_client.c:1599-1823 | over any sequence of calls on a live connection the wire carries their packets one after the other, nothing lost, nothing twice; when the connection breaks, the finished packets and a prefix of the next one |
| MqttPublisher.Publisher.Resend | patch/component_lib/mqtt/esp-mqtt/mqtt_client.c:1290-1315 | the stored bytes, with the DUP flag, go out, or a proper front of them, and then the connection is given up; from then on the outbound message has their length |
| MqttPublisher.Publisher.Retransmit | patch/component_lib/mqtt/esp-mqtt/mqtt_client.c:1415-1431 | a round sends at most one stored message again, the one that is due, with that effect; when none is due nothing changes |
| MqttPublisher.Publisher.PublishThenRetransmit | patch/component_lib/mqtt/esp-mqtt/mqtt_client.c:1415-1823 | a message above quality of service 0 that has been published into an empty outbox: within the second a round sends nothing; afterwards, and more than a second after the last retransmission, it sends the same packet with its DUP flag |
| MqttOutbox.Outbox.Enqueue | patch/component_lib/mqtt/esp-mqtt/lib/mqtt_outbox.c:32-54 | appends the message as queued, or leaves the list alone when there is no memory |
| MqttOutbox.Outbox.Get | patch/component_lib/mqtt/esp-mqtt/lib/mqtt_outbox.c:56-65 | the first item with the identifier |
| MqttOutbox.Outbox.Dequeue | patch/component_lib/mqtt/esp-mqtt/lib/mqtt_outbox.c:67-79 | the first item in the given state |
| MqttOutbox.Outbox.Delete | patch/component_lib/mqtt/esp-mqtt/lib/mqtt_outbox.c:107-121 | success removes exactly one item, the first that matches identifier and type; otherwise nothing changes |
| MqttOutbox.Outbox.SetPending | patch/component_lib/mqtt/esp-mqtt/lib/mqtt_outbox.c:135-143 | marks the first item with the identifier and changes nothing else |
| MqttOutbox.Outbox.SetTick | patch/component_lib/mqtt/esp-mqtt/lib/mqtt_outbox.c:145-153 | sets the time of the first item with the identifier and changes nothing else |
| MqttOutbox.Outbox.DeleteSingleExpired | patch/component_lib/mqtt/esp-mqtt/lib/mqtt_outbox.c:168-183 | removes the first expired item and returns its identifier |
| MqttOutbox.Outbox.DeleteExpired | patch/component_lib/mqtt/esp-mqtt/lib/mqtt_outbox.c:185-199 | removes exactly the expired items and counts them |
| MqttOutbox.KeptFacts | patch/component_lib/mqtt/esp-mqtt/lib/mqtt_outbox.c:185-199 | what is kept is what was there and has not expired |
| MqttOutbox.OneByOneIsAll | patch/component_lib/mqtt/esp-mqtt/lib/mqtt_outbox.c:168-199 | deleting expired items one by one, as long as their identifiers are positive, comes to the same as deleting them all at once, list and count |
| MqttOutbox.Outbox.Cleanup | patch/component_lib/mqtt/esp-mqtt/lib/mqtt_outbox.c:213-225 | the size limit removes confirmed items only: the others stay, in order |
| MqttOutbox.CleanedKeepsLive | patch/component_lib/mqtt/esp-mqtt/lib/mqtt_outbox.c:213-225 | the same of the list function behind it |
| MqttOutbox.CleanupIsIdle | patch/component_lib/mqtt/esp-mqtt/lib/mqtt_outbox.c:213-225 | as no item of this client is ever confirmed, it removes nothing |
| MqttOutbox.Outbox.GetSize | patch/component_lib/mqtt/esp-mqtt/lib/mqtt_outbox.c:201-211 | the sum of the message lengths |
| MqttPending.Client.Store | patch/component_lib/mqtt/esp-mqtt/mqtt_client.c:1636-1727 | a stored message is counted, and counted before it is known to be stored |
| MqttPending.Client.Acknowledge | patch/component_lib/mqtt/esp-mqtt/mqtt_client.c:993-1005 | an acknowledgement is accepted if and only if a message of that identity is stored, and consumes exactly the first one: the zero test never turns one away |
| MqttPending.FirstWaits | patch/component_lib/mqtt/esp-mqtt/mqtt_client.c:993-1005 | the search of the outbox finds a message of that identity exactly when there is one |
| MqttPending.Client.DeleteExpiredMessages | patch/component_lib/mqtt/esp-mqtt/mqtt_client.c:1317-1340 | the counter goes down by what was deleted and never below zero, so the correction at the end never applies |
| MqttPending.Client.DeleteReported | patch/component_lib/mqtt/esp-mqtt/mqtt_client.c:1319-1331 | the loop that reports each deletion ends and counts each once |
| MqttPending.Client.Retransmit | patch/component_lib/mqtt/esp-mqtt/mqtt_client.c:1415-1431 | which item is sent again, and what that does to the outbox: unsent items go first, then those that have waited for more than a second, at most one a round |
| MqttPending.DueNextIs | patch/component_lib/mqtt/esp-mqtt/mqtt_client.c:1415-1431 | which item a round sends, in numbers: one never sent; otherwise, more than a second after the last retransmission, the first that waits, if for more than a second; and nothing else |
| MqttPending.NotSentAgain | patch/component_lib/mqtt/esp-mqtt/mqtt_client.c:1415-1431 | in any outbox, an item that was sent within the last second is not sent again and left alone, unless another one has its identifier |
| MqttPending.Client.Resend | patch/component_lib/mqtt/esp-mqtt/mqtt_client.c:1290-1315 | what sending again does to the outbox: above quality of service 0 the DUP flag is set in the stored copy, whether it was ever sent and whether the write succeeds; a message of quality of service 0 is forgotten once sent, and the counter is not told |
| MqttPending.Client.Cleanup | patch/component_lib/mqtt/esp-mqtt/mqtt_client.c:1459 | the size cleanup of each round changes nothing |
| MqttPending.Client.StopTask | patch/component_lib/mqtt/esp-mqtt/mqtt_client.c:1494 | the outbox is emptied, the counter is not: the excess is what the counter was not told of |
| MqttPending.Client.Sent | patch/component_lib/mqtt/esp-mqtt/mqtt_client.c:1639-1810 | after a subscribe, unsubscribe or publish the first message with the identifier waits for its acknowledgement, after a publish from now on |
| MqttPending.EventConserves | patch/component_lib/mqtt/esp-mqtt/mqtt_client.c:1205-1279 | an event takes one message out of those stored |
| MqttPending.Client.Perform | patch/component_lib/mqtt/esp-mqtt/mqtt_client.c:1180-1498 | every step keeps stored = acknowledged + removed + still there, and the counter at least the number stored |
| MqttPending.Client.Run | patch/component_lib/mqtt/esp-mqtt/mqtt_client.c:1180-1839 | over any run the number of stored messages is at most pending_msg_count, and each SUBSCRIBED, UNSUBSCRIBED or PUBLISHED event stands for a stored message of its own |
| MqttInterleaved.Run | patch/component_lib/mqtt/esp-mqtt/mqtt_client.c:1180-1839 | for any interleaving of calls of publish and enqueue, rounds of the client task and good packets, however reads and writes are cut up: every step has an entry in the log that is what can come of it (Explains: a call that is not refused enters the message it was given, a round with a connection its time), and outbox, reports, connection and the emptiness of the outbound message are exactly what the log makes of them; the packets in the log are the first of those sent, in order, each once, with their full effect on the application, and none that has arrived is left waiting; the connection is given up over a packet only after an empty or failed read, over an empty outbound message, or over an answer that cannot be written, and then that packet has been delivered, or a proper front of it, or spoiled, and has settled nothing |
| MqttInterleaved.Turn | patch/component_lib/mqtt/esp-mqtt/mqtt_client.c:1180-1839 | one step keeps that, and enters what can come of this step |
| MqttInterleaved.Call | patch/component_lib/mqtt/esp-mqtt/mqtt_client.c:1290-1839 | a call, or a round of expiry and retransmission, does to the books what its entry says, and the entry is what can come of it |
| MqttBooks.DeliveredOnce | patch/component_lib/mqtt/esp-mqtt/mqtt_client.c:1180-1839 | whatever else is called and received in between: a message above quality of service 0 that a call has stored, and that a packet acknowledges within 30 seconds, leaves the outbox and is reported, exactly once, if no other message has its identity |
| MqttBooks.EachDeliveredOnce | patch/component_lib/mqtt/esp-mqtt/mqtt_client.c:1180-1839 | in a run that begins with an empty outbox and takes fewer than 65536 identifiers, this holds of every message |
| MqttBooks.NewIsUnique | patch/component_lib/mqtt/esp-mqtt/lib/mqtt_msg.c:62-82 | since in such a run no two stored messages have the same identity |
| MqttBooks.MessagesDiffer | patch/component_lib/mqtt/esp-mqtt/lib/mqtt_msg.c:62-82 | over any run of calls, rounds and packets two messages have different identifiers, unless 65535 have been taken from one to the other, also by refused calls and by answers to the identifier zero |
| MqttBooks.AcknowledgedByType | patch/component_lib/mqtt/esp-mqtt/mqtt_client.c:1203-1279 | the shortest run for each type of message and each acknowledgement, in the numbers of the packets |
| MqttBooks.OldAreGone | patch/component_lib/mqtt/esp-mqtt/mqtt_client.c:1317-1340 | a round drops exactly the messages stored more than 30 seconds ago, if no identifier is zero where each deletion is reported |
| MqttBooks.PublishedAndAcknowledged | patch/component_lib/mqtt/esp-mqtt/mqtt_client.c:1205-1823 | the shortest such run: from an empty outbox, any message above quality of service 0 that is published and stored, and then its PUBACK |
| MqttBooks.StoredUntilThen | patch/component_lib/mqtt/esp-mqtt/mqtt_client.c:1180-1839 | as long as no packet acknowledges it, it is not reported, and is still stored until it can have expired |
| MqttBooks.ReportsAreAcks | patch/component_lib/mqtt/esp-mqtt/mqtt_client.c:993-1279 | over any log the reports of an identity are, in number, exactly its acknowledgements that found such a message stored |
| MqttBooks.KeptOrReported | patch/component_lib/mqtt/esp-mqtt/mqtt_client.c:1180-1839 | a message above quality of service 0 stays in the outbox or is reported: no call, round or other packet takes it away before it can have expired |
| MqttBooks.SettlesOne | patch/component_lib/mqtt/esp-mqtt/mqtt_client.c:993-1279 | an acknowledgement of a stored message takes one message of its identity out of the outbox and is reported once; any other acknowledgement does nothing |
| MqttBooks.LogConserves | patch/component_lib/mqtt/esp-mqtt/mqtt_client.c:1180-1839 | over any log there are no more reports and stored messages of an identity than there have been stored |
| MqttBooks.ReportedOnce | patch/component_lib/mqtt/esp-mqtt/mqtt_client.c:1180-1839 | so a message of an identity that was stored once, when it has been reported, was reported exactly once and is stored no more |
| ScheduleWeek.NoOfDaysIsLeast | components/esp-rainmaker/components/esp_schedule/src/esp_schedule.c:27-75 | the bit arithmetic finds the least number of days that a search day by day finds: zero only while today's time is ahead, at most seven |
| ScheduleWeek.NextIsNext | components/esp-rainmaker/components/esp_schedule/src/esp_schedule.c:197-249 | the timer is armed for the first occurrence strictly after now, at most a week ahead, and the difference in milliseconds fits 32 bits |
| ScheduleWeek.OccursOn | components/esp-rainmaker/components/esp_schedule/src/esp_schedule.c:206-211 | the day found carries an occurrence and no earlier instant after now does |
| ScheduleWeek.OccursIs | components/esp-rainmaker/components/esp_schedule/include/esp_schedule.h:59-68 | the rule in numbers: at the time of day, on a day d of the epoch whose bit, counted from Monday and with day 4 a Monday, is set |
| ScheduleWeek.OnItsDay | components/esp-rainmaker/components/esp_schedule/include/esp_schedule.h:59-68 | a schedule for one day goes off exactly on that day of the week |
| ScheduleWeek.WeekdayLater | components/esp-rainmaker/components/esp_schedule/src/esp_schedule.c:27-31 | the engine's weekday numbering moves on with the days |
| ScheduleDate.MktimeMonotone | components/esp-rainmaker/components/esp_schedule/src/esp_schedule.c:224-243 | among dates that exist the order of instants is the order of the calendar |
| ScheduleDate.DaysOfYears | components/esp-rainmaker/components/esp_schedule/src/esp_schedule.c:224-243 | the calendar behind mktime is the Gregorian one: the days before a year in closed form |
| ScheduleDate.DaysOfMonths | components/esp-rainmaker/components/esp_schedule/src/esp_schedule.c:224-243 | and the days before a month |
| ScheduleDate.NextMonthIsLeast | components/esp-rainmaker/components/esp_schedule/src/esp_schedule.c:77-151 | repeating every year: the month found is the least from now on whose bit is set and which, if it is the current one, is still ahead |
| ScheduleDate.NextMonthThisYear | components/esp-rainmaker/components/esp_schedule/src/esp_schedule.c:77-151 | not repeating: the least such month of this year, and zero if and only if there is none |
| ScheduleDate.MonthAllIsHalfAYear | components/esp-rainmaker/components/esp_schedule/include/esp_schedule.h:62-75 | the constant for all months lists January to July only |
| ScheduleDate.LastIsLast | components/esp-rainmaker/components/esp_schedule/src/esp_schedule.c:279-297 | the highest bit is the last listed month |
| ScheduleDate.ExpiryGap | components/esp-rainmaker/components/esp_schedule/src/esp_schedule.c:252-302 | not expired and yet without a month left: exactly at the very second of the last moment |
| ScheduleDate.StillToCome | components/esp-rainmaker/components/esp_schedule/src/esp_schedule.c:252-302 | as long as the last listed occurrence lies strictly ahead, the schedule is neither expired nor out of months |
| ScheduleDate.SpuriousMonth | components/esp-rainmaker/components/esp_schedule/src/esp_schedule.c:212-224 | served within that second, the timer is armed again for a moment that is not the schedule's |
| ScheduleDate.TargetIsNext | components/esp-rainmaker/components/esp_schedule/src/esp_schedule.c:153-224 | the moment scheduled is the first of the schedule's moments after now |
| ScheduleDate.OnceIsNext | components/esp-rainmaker/components/esp_schedule/src/esp_schedule.c:77-224 | without a list of months: the first time after now that the day comes, if the month aimed at has that day |
| ScheduleEngine.Schedule.StartTimer | components/esp-rainmaker/components/esp_schedule/src/esp_schedule.c:309-327 | nothing before the clock is set; otherwise armed for the first occurrence after now, in the numbers of OccursIs |
| ScheduleEngine.Schedule.Disable | components/esp-rainmaker/components/esp_schedule/src/esp_schedule.c:402-414 | no timer and no instant left |
| ScheduleEngine.Schedule.TimerCallback | components/esp-rainmaker/components/esp_schedule/src/esp_schedule.c:329-345 | triggers once for the armed instant; a one-day schedule is not armed again, another is armed from the time of serving |
| ScheduleEngine.Schedule.ServeAll | components/esp-rainmaker/components/esp_schedule/src/esp_schedule.c:309-345 | over any run the triggers are the armed instants, one each |
| ScheduleEngine.Schedule.RunRepeating | components/esp-rainmaker/components/esp_schedule/src/esp_schedule.c:309-345 | over any run served before the next occurrence, the triggers are exactly the occurrences after enabling, in the numbers of OccursIs, in order, each once |
| ScheduleEngine.Schedule.IsExpired | components/esp-rainmaker/components/esp_schedule/src/esp_schedule.c:264-270 | decides as the test at start-up does at the same time: a schedule for a single day whose instant has come, and no other |
| ScheduleEngine.Schedule.RunOnce | components/esp-rainmaker/components/esp_schedule/src/esp_schedule.c:392-400 | a one-day schedule triggers exactly once per enabling, at the first occurrence, and is not armed again |
| ScheduleEngine.SearchFinds | components/esp-rainmaker/components/esp_schedule/src/esp_schedule.c:27-249 | the search of the engine finds the first occurrence after any instant |
| ScheduleDated.Schedule.StartTimer | components/esp-rainmaker/components/esp_schedule/src/esp_schedule.c:309-327 | dated schedules, repeating every year or not: the timer is due at the first listed moment after now if and only if that is at most 4294967 seconds away, and otherwise before it, since the milliseconds are an unsigned number of 32 bits; with no moment left it is armed for a later instant that is none |
| ScheduleDated.Schedule.TimerCallback | components/esp-rainmaker/components/esp_schedule/src/esp_schedule.c:329-345 | once the last moment of a schedule that does not repeat is past, its timer is not started again; within the very second of it, it is, for an instant that is no moment; otherwise for the next moment |
| ScheduleDated.Schedule.IsExpired | components/esp-rainmaker/components/esp_schedule/src/esp_schedule.c:252-302 | decides as the test at start-up does at the same time: all its moments are behind, and it does not repeat |
| ScheduleTrigger.ExpiredIsPast | components/esp-rainmaker/components/esp_schedule/src/esp_schedule.c:252-302 | the one test for all kinds is right: what goes off once has expired when the instant set for it has come, a schedule on dates of one year exactly when every moment of it lies before now, one that repeats every week or every year never |
| ScheduleTrigger.SameTest | components/esp-rainmaker/components/esp_schedule/src/esp_schedule.c:276-299 | for a schedule that lists months it is the test on the date that ExpiryGap is about |
| ScheduleDated.Schedule.TriggerEarly | components/esp-rainmaker/components/esp_schedule/src/esp_schedule.c:309-345 | enabled when the next moment is further away, a schedule triggers when none of its moments has come |
| ScheduleDated.SomewhereOutOfReach | components/esp-rainmaker/components/esp_schedule/src/esp_schedule.c:309-327 | every yearly schedule that leaves out a month has an instant at which that happens |
| ScheduleDated.Schedule.RunYearly | components/esp-rainmaker/components/esp_schedule/src/esp_schedule.c:309-345 | over any run within that reach and served in time, the triggers are exactly the listed moments after enabling, in order, each once |
| ScheduleDated.Schedule.RunToEnd | components/esp-rainmaker/components/esp_schedule/src/esp_schedule.c:252-345 | a schedule that does not repeat, within reach and served in time: the triggers are exactly its moments after enabling, in order, each once, and after the last of them the timer stays stopped |
| ScheduleDated.ReachIsEveryMonth | components/esp-rainmaker/components/esp_schedule/src/esp_schedule.c:77-249 | the next moment is within reach from every instant if and only if the schedule lists all twelve months |
| ScheduleDated.EveryMonthReaches | components/esp-rainmaker/components/esp_schedule/src/esp_schedule.c:309-345 | so a schedule that lists all months is always armed right, over any run |
| ScheduleDated.SearchFinds | components/esp-rainmaker/components/esp_schedule/src/esp_schedule.c:153-302 | the search of the engine finds the first listed moment after any instant, as long as there is one |
| ScheduleDated.NextDateLater | components/esp-rainmaker/components/esp_schedule/src/esp_schedule.c:153-243 | and it aims at a later instant even when there is none |
| ScheduleDated.EndIsLast | components/esp-rainmaker/components/esp_schedule/src/esp_schedule.c:252-302 | the expiry test compares with the last moment the schedule has |
| ScheduleDated.PeriodIsRight | components/esp-rainmaker/components/esp_schedule/src/esp_schedule.c:326 | seconds to ticks: right if and only if the milliseconds fit 32 bits, too short otherwise; in any case it is what is left of the milliseconds modulo 2 to the 32, in whole ticks |
| ScheduleDated.LocalTimeIs | components/esp-rainmaker/components/esp_schedule/src/esp_schedule.c:206-224 | every instant has a date that exists and that mktime turns back into it |
| Recurrence.NoneMissed | components/esp-rainmaker/components/esp_schedule/src/esp_schedule.c:329-345 | serving late misses no occurrence if and only if the next one has not come yet |
| Recurrence.EachOnce | components/esp-rainmaker/components/esp_schedule/src/esp_schedule.c:329-345 | for any rule of occurrence: the instants armed are exactly the occurrences since the start |
| Recurrence.ServedAreOccurrences | components/esp-rainmaker/components/esp_schedule/src/esp_schedule.c:329-345 | and so are the triggers, in order |
| Recurrence.ArmedAscend | components/esp-rainmaker/components/esp_schedule/src/esp_schedule.c:329-345 | the instants armed ascend |
| ScheduleStore.Store.Add | components/esp-rainmaker/components/esp_schedule/src/esp_schedule_nvs.c:28-82 | unless the flash fails, an add succeeds if and only if the store is enabled and the schedule is known or there is a counter; without a counter the schedule is written all the same; a success keeps the counter right as long as there are fewer than 256 schedules |
| ScheduleStore.Store.Remove | components/esp-rainmaker/components/esp_schedule/src/esp_schedule_nvs.c:113-148 | unless the flash fails, a removal succeeds if and only if the store is enabled, the schedule is known and there is a counter; it keeps the counter right |
| ScheduleStore.Store.RemoveAll | components/esp-rainmaker/components/esp_schedule/src/esp_schedule_nvs.c:84-111 | after a successful clearing the counter is right, whatever it was before |
| ScheduleStore.Store.GetCount | components/esp-rainmaker/components/esp_schedule/src/esp_schedule_nvs.c:150-172 | the counter, or zero when it is missing, disabled or unreadable |
| ScheduleStore.Store.Run | components/esp-rainmaker/components/esp_schedule/src/esp_schedule_nvs.c:28-148 | any run of successful calls keeps the counter equal to the number of schedules |
| ScheduleStore.BoundsAreCount | components/esp-rainmaker/components/esp_schedule/src/esp_schedule_nvs.c:218-248 | every write of the loading loop is inside the array exactly when the last one is; when all entries are readable, exactly when there are no more of them than the counter says |
| ScheduleLoader.GetAll | components/esp-rainmaker/components/esp_schedule/src/esp_schedule_nvs.c:211-249 | whatever the counter says: the places written to are those of BoundsAreCount for the entries that could be read, all inside the array until it is overrun; it is not when there are at most as many entries as places, and if all can be read exactly then; the handles are copies of stored schedules, no two the same, and all of them when every read succeeds; without an array the count handed back is positive only if it is the counter of a store that holds no schedule |
| ScheduleLoader.Get | components/esp-rainmaker/components/esp_schedule/src/esp_schedule_nvs.c:174-209 | a fresh copy of the stored schedule, or none |
| ScheduleLoader.SweepSorts | components/esp-rainmaker/components/esp_schedule/src/esp_schedule.c:533-551 | moving the last entry into the gap loses nothing: what stays has not expired, what goes has, and together they are all that was loaded |
| ScheduleLoader.DropStep | components/esp-rainmaker/components/esp_schedule/src/esp_schedule.c:541-546 | one removal, with the index going back by one, keeps the list free of removed handles; first and last entry included |
| ScheduleLoader.Heap.Delete | components/esp-rainmaker/components/esp_schedule/src/esp_schedule.c:464-478 | a handle is deleted at most once, and its blob with it unless the erase fails |
| ScheduleLoader.Heap.StartSchedules | components/esp-rainmaker/components/esp_schedule/src/esp_schedule.c:533-551 | the loop ends, never touches a freed handle, deletes each expired schedule once, arms each survivor once and leaves the survivors at the front of the list; what it deletes is past in the sense of ExpiredIsPast, and what it arms is not |
| ScheduleLoader.NamesSplit | components/esp-rainmaker/components/esp_schedule/src/esp_schedule.c:533-551 | the survivors are exactly the stored schedules that have not expired |
| ScheduleLoader.Init | components/esp-rainmaker/components/esp_schedule/src/esp_schedule.c:504-554 | after loading, unless the array is overrun, the list holds live copies of unexpired schedules, each armed once; when every read and erase succeeds it holds all of them, the store holds nothing else, and a counter that was right is right; without a list nothing is armed or changed, and the count is positive only if it is the counter of a store without schedules; what is deleted is past in the sense of ExpiredIsPast, so never a repeating schedule, and with every read and erase successful a stored schedule goes if and only if it is past |
| FlashQueue.ProgramBlank | components/esp-qcloud/src/log/esp_qcloud_log_flash.c:240-252 | writing erased flash stores the data and changes nothing else |
| FlashQueue.ProgrammedBits | components/esp-qcloud/src/log/esp_qcloud_log_flash.c:240-252 | flash in bits: a bit is set after a write if it was before and, where something is written, if it is in what is written |
| FlashQueue.ProgramOver | components/esp-qcloud/src/log/esp_qcloud_log_flash.c:240-252 | writing over other data leaves it intact if and only if every bit that would be cleared is clear already |
| FlashQueue.SurvivesBits | components/esp-qcloud/src/log/esp_qcloud_log_flash.c:240-252 | in bits: no bit that is set where something is written over is missing in what is written |
| FlashQueue.RotatedSound | components/esp-qcloud/src/log/esp_qcloud_log_flash.c:210-217 | rotation gives up what is unread in the older bank and nothing else |
| FlashQueue.AppendedSound | components/esp-qcloud/src/log/esp_qcloud_log_flash.c:240-252 | writing where there is room keeps the banks in order |
| FlashQueue.WriteQueue | components/esp-qcloud/src/log/esp_qcloud_log_flash.c:194-265 | a record that fits goes to the end of the queue behind a timestamp that is due; a rotation drops only the oldest bytes, and never one of the last bankful; the next timestamp is due exactly after a line end |
| FlashQueue.SpaceCheck | components/esp-qcloud/src/log/esp_qcloud_log_flash.c:210-252 | one write: the bank keeps to its size if and only if timestamp and record fit; a record no longer than a bank goes beyond it by a timestamp at most |
| FlashQueue.RunBounded | components/esp-qcloud/src/log/esp_qcloud_log_flash.c:194-310 | over any run of reads and of writes of records no longer than a bank, fitting or not, a log within these bounds stays within them |
| FlashQueue.LogBounded | components/esp-qcloud/src/log/esp_qcloud_log_flash.c:154-310 | so offset <= size <= bank + timestamp for both banks in every state that a new log can reach |
| FlashQueue.SpillDamages | components/esp-qcloud/src/log/esp_qcloud_log_flash.c:210-252 | any write, with or without rotation and timestamp: the unread bytes of the older bank survive if and only if no set bit of theirs is cleared by the text written at the end of the other bank, and beyond |
| FlashQueue.CheckMisses | components/esp-qcloud/src/log/esp_qcloud_log_flash.c:210-243 | in any log with banks of at least 24 bytes: after three records from new, all of which fit, one more byte passes the check, succeeds, and its timestamp damages the first unread byte of the other bank |
| FlashQueue.AfterThree | components/esp-qcloud/src/log/esp_qcloud_log_flash.c:194-265 | the state those three records lead to |
| FlashQueue.GiveBothQueue | components/esp-qcloud/src/log/esp_qcloud_log_flash.c:285-306 | what is read and what is left are the queue as it was |
| FlashQueue.GiveBothSound | components/esp-qcloud/src/log/esp_qcloud_log_flash.c:285-306 | reading gives min(size, length of the queue) bytes |
| FlashQueue.NewLog | components/esp-qcloud/src/log/esp_qcloud_log_flash.c:154-171 | a new log is an empty queue |
| FlashQueue.RunQueue | components/esp-qcloud/src/log/esp_qcloud_log_flash.c:194-310 | over any run of reads and of writes that fit, what leaves the queue is what entered it, in order, byte for byte, and the rest is still there |
| FlashQueue.NothingLost | components/esp-qcloud/src/log/esp_qcloud_log_flash.c:194-310 | as long as no unread byte is rotated away, all that is written is read, in order, or still to be read |
| FlashLog.Log.constructor | components/esp-qcloud/src/log/esp_qcloud_log_flash.c:154-173 | the first start on a device without a log |
| FlashLog.Log.Write | components/esp-qcloud/src/log/esp_qcloud_log_flash.c:194-265 | the write, step by step over the two bank records and the flash, has the effect that WriteQueue and SpaceCheck are about |
| FlashLog.Log.ReadBanks | components/esp-qcloud/src/log/esp_qcloud_log_flash.c:285-306 | the loop over both banks, with the place to write to moved by the whole count each time, puts the two pieces one behind the other |
| FlashLog.Log.Read | components/esp-qcloud/src/log/esp_qcloud_log_flash.c:267-310 | the read has the effect that GiveBothQueue and GiveBothSound are about; it fails exactly when nothing was read |
| FlashLog.Log.Size | components/esp-qcloud/src/log/esp_qcloud_log_flash.c:329-344 | the size reported is the length of the queue |
| FlashLog.Log.Process | components/esp-qcloud/src/log/esp_qcloud_log_flash.c:194-344 | any run of the operations reads what the run of their functions says |
| ButtonMachine.RunsQueued | components/esp-rainmaker/components/button/button/button.c:68-145 | in every state that any edges and any order of timers can reach: both queues are full or both empty, full only while the button is not idle, and they hold a callback with its own argument |
| ButtonMachine.NextQueued | components/esp-rainmaker/components/button/button/button.c:68-186 | every handler keeps that |
| ButtonMachine.WorkDrops | components/esp-rainmaker/components/button/button/button.c:85-145 | serving timers comes to an end: the push timer starts the release timer at most once |
| ButtonMachine.ShortPulse | components/esp-rainmaker/components/button/button/button.c:85-186 | a pulse shorter than the debounce time runs nothing, however long one waits |
| ButtonMachine.QuietRunsNothing | components/esp-rainmaker/components/button/button/button.c:111-145 | while the pin is up and the button idle no timer shows anything |
| ButtonMachine.HeldServes | components/esp-rainmaker/components/button/button/button.c:68-101 | while the button is down the callbacks are served in the order of their thresholds, whatever the order among timers due together |
| ButtonMachine.ReleaseServes | components/esp-rainmaker/components/button/button/button.c:111-145 | the release timer runs the deferred callback, the tap and the release, once, and leaves all timers stopped |
| ButtonMachine.CleanPress | components/esp-rainmaker/components/button/button/button.c:68-186 | a press held for H, no shorter than the debounce time: the push, the immediate callbacks with thresholds up to H in order, at the release the last deferred one, a tap exactly when no threshold was reached, then the release |
| ButtonMachine.BouncedRelease | components/esp-rainmaker/components/button/button/button.c:68-186 | when the release of such a press bounces for less than the debounce time, it shows the same, the release once |
| ButtonMachine.UpServes | components/esp-rainmaker/components/button/button/button.c:85-145 | with the pin up and the debounce or the release timer running, in whatever order they are served, the release is shown once |
| ButtonMachine.LastIsLongest | components/esp-rainmaker/components/button/button/button.c:75-79 | the deferred callback that runs is the one with the greatest threshold reached, if there is any |
| Button.Device.AddOnPress | components/esp-rainmaker/components/button/button/button.c:318-334 | a new callback goes to the head of the list; a threshold of zero is refused |
| Button.Device.AddOnRelease | components/esp-rainmaker/components/button/button/button.c:336-352 | the same for a deferred callback, which also switches the queues on |
| Button.Device.PinChanges | components/esp-rainmaker/components/button/button/button.c:157-186 | an edge restarts the debounce timer, and on a press the timers of all callbacks |
| Button.Device.PressDue | components/esp-rainmaker/components/button/button/button.c:68-83 | runs or defers the callback while the pin is down, and nothing otherwise |
| Button.Device.PushDue | components/esp-rainmaker/components/button/button/button.c:85-109 | accepts the press, or starts the release timer when the pin is up again |
| Button.Device.ReleaseDue | components/esp-rainmaker/components/button/button/button.c:111-145 | stops all press timers, runs what is due and goes idle, or nothing while the pin is down |
| Button.Device.ServeUntil | components/esp-rainmaker/components/button/button/button.c:68-145 | the timer service fires whatever is due first until nothing is due, and ends |
| Button.Device.PressAndRelease | components/esp-rainmaker/components/button/button/button.c:68-186 | pressing and releasing the device shows exactly what ShortPulse and CleanPress say |
| Button.Device.PressAndBounce | components/esp-rainmaker/components/button/button/button.c:68-186 | a press whose release bounces shows on the device exactly what BouncedRelease says |
| WifiStrategy.PositionStep | projects/single_live_wire_switch/main/app_event.c:151-187 | phase and counter after n failures, in closed form, step as the machine does; the counter stays below its maximum |
| WifiStrategy.WaitedClosed | projects/single_live_wire_switch/main/app_event.c:147-191 | the total delay after n failures in closed form: 3840 seconds a round of fifteen |
| WifiStrategy.Strategy.constructor | projects/single_live_wire_switch/main/app_event.c:118-144 | no failures, no delay, all counters zero |
| WifiStrategy.Strategy.Fail | projects/single_live_wire_switch/main/app_event.c:147-191 | after n failures in a row the delay is 0 for n below 3, then 300 seconds twelve times and 80 seconds three times, over and over; only the current phase's counter can be other than zero |
| WifiStrategy.Strategy.Success | projects/single_live_wire_switch/main/app_event.c:193-204 | the loop clears every counter and a new row starts |
| WifiStrategy.Strategy.Run | projects/single_live_wire_switch/main/app_event.c:147-204 | over any run of failures and successes every delay is the one for the failures since the last success |
| UartScanner.HitsAreFrames | projects/single_live_wire_switch/main/app_uart.c:175-276 | for any frames with any sums and any bytes between: the scanner sees frames exactly where they are if and only if no sum and no stray byte makes a head with its successor while more than four bytes remain |
| UartScanner.ScanFinds | projects/single_live_wire_switch/main/app_uart.c:175-276 | then exactly the frames' commands are recognised, in order, although a hit moves on by four bytes only |
| UartScanner.PlainNoiseIsHarmless | projects/single_live_wire_switch/main/app_uart.c:182-185 | noise without 0x55 and 0xAA is always harmless |
| UartScanner.SumMayMislead | projects/single_live_wire_switch/main/app_uart.c:182-185 | a sum of 0x55 followed by 0xAA is taken for the head of another frame |
| UartScanner.Switch.DealWith | projects/single_live_wire_switch/main/app_uart.c:175-278 | the loop with its 8-bit index stays inside the buffer, never wraps, and obeys exactly the commands that Scan finds in the first num bytes: afterwards the status is the data of the last on/off command, the brightness that of the last brightness command of at most 100, or what they were; there are as many resets as reset commands; and the replies are, in order and byte by byte, those to the on/off and brightness commands whose data are not what is set, and to the resets |
| UartScanner.ObeyAllIs | projects/single_live_wire_switch/main/app_uart.c:187-268 | the same of any commands |
| UartScanner.LastDecides | projects/single_live_wire_switch/main/app_uart.c:187-268 | a command of a kind that no other of its kind follows decides |
| UartScanner.FrameIsFound | projects/single_live_wire_switch/main/app_uart.c:182-186 | the shortest stream with a frame, in numbers |
| UartScanner.ObeyKeeps | projects/single_live_wire_switch/main/app_uart.c:187-268 | over any commands the brightness stays a percentage, and every answer is a whole reply to one of them |
| UartScanner.ObeyTwice | projects/single_live_wire_switch/main/app_uart.c:189-245 | switching, or dimming in range, again has no further effect and no answer |
| UartScanner.Reply | projects/single_live_wire_switch/main/app_uart.c:178 | a reply is five bytes and does not look like a command to this scanner |

## Left out

- WifiStrategy.Strategy.Fail: the timer service that fires the reconnect timer; delays are those the timer is started with.
- MqttPublisher.Publisher.Publish: bodies of 268435456 bytes and more; and NULL data with a length that is negative by more than the header is long, for which the unsigned sum wraps and the C code copies from NULL. Both are excluded by Sensible.
- MqttPublisher.Publisher.Session: starts with no leftover offset and with calls the builder does not refuse; what happens otherwise is stated by Publish, WireIsPacket, StoreThenPublish and EnqueueThenPing.
- MqttPublisher.Publisher.FiniMessage: bodies of 268435456 bytes and more, for which the C code writes a fifth length byte beyond its array of four before it refuses them.
- MqttPublisher.Publisher.BuildPublish: the same bodies.
- MqttPublisher.Publisher.EnqueuePriv: the same bodies, and lengths that Sensible excludes.
- MqttPublisher.Publisher.Enqueue: the same bodies, and lengths that Sensible excludes.
- MqttPublisher.Publisher.EnqueueThenPing: the same bodies, and lengths that Sensible excludes.
- MqttPublisher.Publisher.StoreThenPublish: the same bodies.
- MqttPacket.GetId: a PUBLISH of which the buffer does not even hold the length field and the two bytes after it; the reader gives such a packet up before it asks for its identifier.
- MqttReceiver.Receiver.PostEvents: the events carry no msg_id; EventId says which one the C code puts into them.
- MqttReceiver.Receiver.ReadLength: length fields of five bytes, which section 2.2.3 of MQTT 3.1.1 does not allow and whose sum overflows in the C code; excluded by ShortField.
- MqttReceiver.Receiver.ReadHeader: the same length fields.
- MqttReceiver.Receiver.ReadBody: the same length fields.
- MqttReceiver.Receiver.Receive: the same length fields.
- MqttSession.Pump: packets that are not good in the sense of GoodFrame, for which Receive, DeliveredIsPayload, SizeTestSlack and MisreadPossible say what happens; after a failed read in the middle of a delivery that the C code reports as a success, the run is not followed any further, while the client reads on; calls of the application between two rounds, which MqttInterleaved has; and bytes on the wire after an answer other than to a PUBLISH could not be written.
- MqttSession.Process: packets that are not good, as for Pump.
- MqttSession.Turn: the same packets.
- MqttSession.PublishThenProcess: the same packets, and calls that Sensible excludes.
- MqttInterleaved.Run: the same packets and calls; subscriptions and pings; and the bytes on the wire are not followed over a run: Publish, Retransmit and Process say what each step writes. After the connection has been given up no new one is made, and as in Pump no more packets are looked at after a failed read. Whether there is memory for a message, and how much a read or a write takes, is left open.
- MqttInterleaved.Turn: the same.
- MqttBooks.DeliveredOnce: identifiers come round again after 65535, and the client cannot tell two messages of one identity apart: another one is excluded by Unique, which EachDeliveredOnce has from the identifiers themselves.
- MqttBooks.EachDeliveredOnce: runs that take 65536 identifiers and more, or begin with messages in the outbox.
- MqttPending.Client.Resend: the outbox only; MqttPublisher.Publisher.Resend has the wire, the outbound length and the connection.
- MqttPending.Client.Retransmit: the outbox only; MqttPublisher.Publisher.Retransmit has the rest.
- MqttReceiver.Receiver.Locate: a PUBLISH with an empty topic, or with a header longer than the length it announces, which section 3.3 of MQTT 3.1.1 does not allow.
- MqttReceiver.Receiver.DeliverPublish: the same packets.
- MqttPending.Client.Run: the identifiers of two stored messages may be equal, as in the source; which of two equal ones an acknowledgement meant is not modelled.
- ScheduleEngine.Schedule.TimerCallback: weekly and one-day schedules; those on dates are run by ScheduleDated. Schedules relative to the moment of setting, and those on a day without a list of months, are not run.
- ScheduleDated.Schedule.StartTimer: the tick divides 1000 milliseconds, and the timer is started at a full second.
- ScheduleDated.PeriodIsRight: the same ticks.
- ScheduleDated.Schedule.TimerCallback: the same ticks; and a schedule on a day that some listed month does not have, or of a year before 1970 without repetition, for which mktime is not modelled.
- ScheduleDated.Schedule.RunToEnd: every callback comes before the next moment and none within the second of the last one, for which TimerCallback says what happens; every moment is within reach of the timer, for which TriggerEarly says what happens otherwise.
- ScheduleEngine.Schedule.RunRepeating: the callback must come before the next occurrence; NoneMissed says that this is exactly what is needed.
- ScheduleDate.TargetIsNext: the day must exist in every listed month; what mktime makes of 31 April is not modelled.
- ScheduleDate.OnceIsNext: the day must exist in the month aimed at.
- ScheduleStore.Store.Add: a schedule whose name is the counter's own key is not modelled.
- ScheduleTrigger.ExpiredIsPast: schedules that ScheduleDate.Dated excludes; the test itself is modelled for them too.
- ScheduleLoader.Init: all schedules are tested at one instant; what happens after the array has been overrun is not modelled.
- FlashQueue.WriteQueue: records that do not fit, for which only SpaceCheck, SpillDamages and CheckMisses say what happens.
- FlashQueue.RunQueue: the same records; RunBounded has them.
- FlashQueue.NothingLost: the same records.
- FlashLog.Log.Read: the partition is a sequence of bytes in a field instead of a device, and only accesses outside it fail.
- FlashLog.Log.constructor: the start on a device that has a log already (which takes the smaller bank for the current one, not the newer), esp_qcloud_log_flash_erase, the full-log event and the copies of the bank records in non-volatile storage.
- ButtonMachine.CleanPress: callbacks with equal thresholds, whose order is up to the timer service, and thresholds not longer than the debounce time are excluded; timers due at the tick of an edge are served before it.
- ButtonMachine.ShortPulse: the same thresholds.
- ButtonMachine.BouncedRelease: the same thresholds, and a single bounce.
- Button.Device.PressAndBounce: the same.
- Button.Device.PressAndRelease: the same thresholds.
- Button.Device.PressDue: the repeating serial callback and the removal of callbacks; press callbacks are never NULL.
- UartScanner.Switch.DealWith: the caller cuts the number of bytes received to eight bits; logging, power saving and the cloud report are left out, and so is the command that setting the brightness sends back.
- JsonText.ParseText: white space and escape sequences, which the generator never writes.
- JsonGenerator.JsonGen.SetScalar: numbers are given as texts; how integers and floats are formatted is not modelled.
- JsonGenerator.JsonGen.constructor: a buffer without room for a NUL, or a flushed buffer of a single character, for which the C loop does not make progress.
- Configuration, connecting, subscribing packets and the event dispatch of mqtt_client.c: each call is one atomic step under the API lock, and only what it does to input, output, outbox and counter is followed.
- Integer overflow of the text length in the JSON generator.
- Time zones, daylight saving and clock changes: a fixed offset and a clock that does not go back.
- The command line tools, provisioning, cloud messages, TLS, GPIO, LED, ADC and brightness code: calls into other libraries, or easy members.

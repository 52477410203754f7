# Verification model of the vendor storage, the MQTT client and the DVFS and DMA-buffer drivers

These modules model five parts of the repository and prove what they promise. `dafny verify dfyconfig.toml` checks
all of them.

| files | part |
|---|---|
| `VendorImage`, `VendorFlash`, `VendorStorage`, `VendorLimits` | the key-value store of `flash_vendor_storage.c`: its image and layout, its four flash slots and power losses, the entry points that update the image in place, and inputs on which data is lost |
| `MqttWire`, `MqttPublish`, `MqttSubscribe`, `MqttConnect`, `MqttReader`, `MqttTransfer` | the MQTT 3.1.1 packet codec, its blocking and resumable readers, and a message from writer to reader |
| `TopicMatch`, `MqttSession` | the topic matcher, and the C++ client's session with QoS 1 and 2 compiled in |
| `OppTable`, `BusVoltage`, `DmcVoltage`, `CpuVoltage` | the order of regulator and clock calls in three DVFS drivers |
| `PllSearch`, `DeferredFree`, `PagePool`, `PageTraffic` | the D-PHY divider search, the deferred-free list and the page pools, alone and among other threads |

`Octets` holds the fixed-width integers, `Optional` values that may be absent, and `Histories` growing sequences.

How the outside world appears: the flash is four byte slots and a commit may stop after any number of its eight
512-byte sectors; the network yields any bytes in any portions and accepts any part of a write; a timer may expire at
any look; regulator and clock calls answer anything the kernel's contract allows, and every state of the hardware and
every call of it is recorded. In `DeferredFree` and `PageTraffic` other threads run wherever the code drops its lock: `Others`
lets them take any number of turns. `PagePool` is the same code without interference. `log`, `trace`, `calls`, `taken`
and similar fields record history for the specifications.

Some results are about where the code does less than one might expect, with the exact condition and, where a
second name is given, an input: `AllOrNothing`, `OrderMatters` and `MixedWritesRecovered` (sectors out of order),
`CompletedUnlessWrapped` and `WrappedWriteIsLost` (the version limit), `PacketLenIsSafe` (the size estimate),
`DeserializePublish`, `CutIdentifier` and `EmptyBodyAccepted` (a packet cut off), `DeserializeConnect` and
`EmptyPasswordRejected` (section 3.1.3 of MQTT 3.1.1 allows an empty password), `StandardIsMatch`,
`EmptyLevelRefused` and `ParentOfHash` (topic matching), `ReadersAgree` and `CutLengthDelivered` (a broken length
field), `PublishReplaces` (a publish lost without an acknowledgement), `PublishQoS0` (a QoS 0 message sent again),
`Subscribe` (a refusal reported as success), `OppHelper` and `UndervoltsHappens` (the CPU rollback), `MissedExactly`
and `GapAt24MHz` (a rate on offer that is not found), `EndsUnlessFull` and `NeverEnds` (a search that does not end),
`ShrinkScan` and `ZeroPagesStop` (an item without pages). A QoS 2
message with the forbidden identifier 0 is never handed over, because 0 marks the free slots. The node's count in
`PagePool` can be negative for a moment, when a block is removed before its addition was counted.

## Model

| member | source | states |
|---|---|---|
| VendorFlash.CrashAtomicity | yangfan/kernel/src/driv/soc/flash_vendor_storage.c:70-221 | Over every run of boots, writes, refused writes and power losses after any number of a commit's 8 sectors, from erased flash, the next start-up recovers an image that stands for exactly the map of the completed writes, and RAM holds that same image |
| VendorFlash.StepIsAtomic | yangfan/kernel/src/driv/soc/flash_vendor_storage.c:70-221 | One step of such a run keeps the flash invariant (the slot due next never holds the recoverable image, no stale tail can complete a later commit) and changes the recoverable image only by a completed commit |
| VendorFlash.CompletedUnlessWrapped | yangfan/kernel/src/driv/soc/flash_vendor_storage.c:185-193 | A completed commit is what start-up recovers if and only if its 32-bit version did not wrap to zero |
| VendorFlash.OrderMatters | yangfan/kernel/src/driv/soc/flash_vendor_storage.c:88-93 | Two accepted writes cut off one after the other, the first with only its last sector down and the second with only its first, leave a slot that passes the version check and wins although six sectors of it belong to neither |
| VendorFlash.AllOrNothing | yangfan/kernel/src/driv/soc/flash_vendor_storage.c:88-94 | For any set of the 8 sectors of an accepted write that arrive: start-up recovers the old or the new image and nothing in between if and only if the slot fails the version check or every missing sector already held the bytes it was to get |
| VendorFlash.AnyOrder | yangfan/kernel/src/driv/soc/flash_vendor_storage.c:88-94 | For any such set: the slot wins exactly when the last sector arrived and the first one did too or was already there with this version; otherwise start-up recovers the old image |
| VendorFlash.PartialCommit | yangfan/kernel/src/driv/soc/flash_vendor_storage.c:88-94 | A commit cut off between two sectors is rejected by the head and tail versions whatever the slot held, and the old image is still recovered |
| VendorFlash.CompletedCommit | yangfan/kernel/src/driv/soc/flash_vendor_storage.c:88-101 | After a completed commit of the next version the new image is the recoverable one and the next slot due is another |
| VendorFlash.NewestWins | yangfan/kernel/src/driv/soc/flash_vendor_storage.c:88-101 | A slot that offers the next version is chosen over all three others |
| VendorFlash.HeldIsRecovered | yangfan/kernel/src/driv/soc/flash_vendor_storage.c:81-109 | The image that strictly wins among the slots is what start-up leaves in RAM; with no valid slot it is the blank one |
| VendorFlash.BestIsHighest | yangfan/kernel/src/driv/soc/flash_vendor_storage.c:81-95 | The scan picks the first slot with the highest valid version |
| VendorFlash.NewestIsLoaded | yangfan/kernel/src/driv/soc/flash_vendor_storage.c:81-109 | Start-up loads the first of the slots with the highest version among those with the tag, equal versions and a version above 0; with no such slot it builds the blank image |
| VendorFlash.BytesRoundTrip | yangfan/kernel/src/driv/soc/flash_vendor_storage.c:38-49 | The 4096-byte little-endian slot read back is the image that was committed, all 62 entries and 3576 data bytes |
| VendorFlash.SlotBytes | yangfan/kernel/src/driv/soc/flash_vendor_storage.c:38-49 | At which bytes of a slot each header field, the data, the hash and the second version lie, lowest byte first |
| VendorFlash.EntryBytes | yangfan/kernel/src/driv/soc/flash_vendor_storage.c:30-49 | At which bytes the four fields of each table entry lie |
| VendorFlash.FieldsRoundTrip | yangfan/kernel/src/driv/soc/flash_vendor_storage.c:38-49 | Every 4096 bytes are the encoding of the image they read back as, so no two slots read as the same image |
| VendorLimits.WrappedWriteIsLost | yangfan/kernel/src/driv/soc/flash_vendor_storage.c:185-193 | With version 2^32 - 1 in slot 0 a one-byte write to slot 1 completes and start-up recovers the image from before it |
| VendorLimits.MixedWritesRecovered | yangfan/kernel/src/driv/soc/flash_vendor_storage.c:88-93 | From erased flash, writes of any two bytes other than 0 whose last and first sectors arrive leave an image that is neither the old one nor either new one |
| VendorFlash.TornFields | yangfan/kernel/src/driv/soc/flash_vendor_storage.c:185-193 | What head and tail version a commit leaves after any number of its sectors |
| VendorImage.TableNeverOverruns | yangfan/kernel/src/driv/soc/flash_vendor_storage.c:38-49 | Every laid-out image has at most 55 items, and fewer when a block is still free, so the unchecked 62-entry table is never overrun |
| VendorImage.BlocksAreOrdered | yangfan/kernel/src/driv/soc/flash_vendor_storage.c:148-179 | Items lie in index order in disjoint 64-byte blocks below the free offset |
| VendorImage.FindReadsView | yangfan/kernel/src/driv/soc/flash_vendor_storage.c:122-131 | The scan finds an id exactly when the map has it, and its bytes are the map's |
| VendorImage.RefusedExactly | yangfan/kernel/src/driv/soc/flash_vendor_storage.c:151-198 | Told from the stored map: an item that fits its blocks is never refused, and one that is new or outgrown exactly when its rounded size exceeds the free space |
| VendorImage.RearrangedView | yangfan/kernel/src/driv/soc/flash_vendor_storage.c:158-175 | Moving and renumbering blocks changes the stored map at the written id only |
| VendorImage.SpaceIsConserved | yangfan/kernel/src/driv/soc/flash_vendor_storage.c:148-205 | Rounded bytes held plus free bytes are conserved by a write, except for the blocks that an item rewritten in place no longer needs |
| VendorStorage.VendorInfo.MoveDown | yangfan/kernel/src/driv/soc/flash_vendor_storage.c:166-168 | The downward byte copy delivers the old source bytes even where the ranges overlap and touches nothing else |
| VendorStorage.VendorInfo.SlideDown | yangfan/kernel/src/driv/soc/flash_vendor_storage.c:157-170 | The compaction loop moves every later item with its bytes over the freed block; no block is overwritten before it was moved |
| VendorStorage.VendorInfo.Grow | yangfan/kernel/src/driv/soc/flash_vendor_storage.c:154-189 | An item that outgrows its block becomes the last one, keeps the layout and changes the map at its id only |
| VendorStorage.VendorInfo.Rewrite | yangfan/kernel/src/driv/soc/flash_vendor_storage.c:179-189 | An item rewritten in place keeps the layout and changes the map at its id only |
| VendorStorage.VendorInfo.Append | yangfan/kernel/src/driv/soc/flash_vendor_storage.c:198-212 | A new item keeps the layout and adds its id to the map |
| VendorStorage.Driver.Write | yangfan/kernel/src/driv/soc/flash_vendor_storage.c:135-221 | An item that still fits its blocks is written; one that is new or has outgrown them exactly when its blocks fit the free space; -1 changes nothing, and 0 is one completed commit step of the crash model: the new image in the slot that was due, no other slot touched, the next slot due |
| VendorStorage.Driver.WriteCut | yangfan/kernel/src/driv/soc/flash_vendor_storage.c:135-221 | The same call with power lost after any number of the commit's sectors is exactly one such step, or no change to flash when refused |
| VendorStorage.Driver.RunThenRead | yangfan/kernel/src/driv/soc/flash_vendor_storage.c:70-221 | After any sequence of writes, writes cut off at any sector, power losses and start-ups, from erased flash, and one more start-up, a read returns the bytes of the last completed write of the id, cut to the request, and -1 for an id that no completed write had |
| VendorStorage.Driver.Run | yangfan/kernel/src/driv/soc/flash_vendor_storage.c:70-221 | Over every such sequence the flash invariant holds and the image that start-up would load stands for the map of the completed writes |
| VendorStorage.Driver.Perform | yangfan/kernel/src/driv/soc/flash_vendor_storage.c:135-221 | One call or power event changes that map at the written id alone and only if the write was accepted and completed; a write is refused exactly when there is no image or no room |
| VendorStorage.VendorInfo.Store | yangfan/kernel/src/driv/soc/flash_vendor_storage.c:135-221 | The write in RAM: always room for an item that fits its blocks, else exactly when the free space holds its blocks; without room nothing changes, with room what the write promises |
| VendorStorage.Driver.Read | yangfan/kernel/src/driv/soc/flash_vendor_storage.c:115-133 | The stored bytes of the id cut to the requested size, or -1 exactly when the id is not stored |
| VendorStorage.Driver.Init | yangfan/kernel/src/driv/soc/flash_vendor_storage.c:70-113 | Start-up is the boot step of the crash model whatever the slots hold, and leaves a usable driver when the image that wins is laid out |
| VendorStorage.Driver.Newest | yangfan/kernel/src/driv/soc/flash_vendor_storage.c:81-95 | The loop over the slots finds the first one with the highest valid version |
| VendorStorage.SlideStep | yangfan/kernel/src/driv/soc/flash_vendor_storage.c:158-170 | One turn of the compaction loop moves one block and keeps all that were moved before |
| VendorStorage.GrownWrote | yangfan/kernel/src/driv/soc/flash_vendor_storage.c:154-189 | The image after compaction and the final copy is what the write promises: layout, map, entry order and free space |
| VendorStorage.RewrittenWrote | yangfan/kernel/src/driv/soc/flash_vendor_storage.c:179-189 | The same for a rewrite in place |
| VendorStorage.AppendedWrote | yangfan/kernel/src/driv/soc/flash_vendor_storage.c:198-212 | The same for a new item |
| MqttWire.LengthRoundTrip | yangfan/common/mqtt/mqttpacket/src/MQTTPacket.c:29-81 | A remaining length decodes from its encoding, whatever bytes follow, exactly when it fits the number of bytes the reader accepts (section 2.2.3 of MQTT 3.1.1) |
| MqttWire.RemDigits | yangfan/common/mqtt/mqttpacket/src/MQTTPacket.c:29-45 | The length field is the base-128 digits, lowest first, with the top bit on every byte but the last |
| MqttWire.RemBorders | yangfan/common/mqtt/mqttpacket/src/MQTTPacket.c:29-45 | The eight border values of table 2.4 of MQTT 3.1.1 |
| MqttWire.PacketLenIsSafe | yangfan/common/mqtt/mqttpacket/src/MQTTPacket.c:84-98 | The size estimate covers the packet exactly up to 268435455 and is one too large exactly at 127, 16383, 2097150 and 2097151 |
| MqttWire.Encode | yangfan/common/mqtt/mqttpacket/src/MQTTPacket.c:29-45 | Writes exactly the base-128 digits of the length and nothing else |
| MqttWire.DecodeBuf | yangfan/common/mqtt/mqttpacket/src/MQTTPacket.c:54-117 | Value and byte count of the field at the position, or a count of 5 when the fourth byte is not the last |
| MqttWire.StringRoundTrip | yangfan/common/mqtt/mqttpacket/src/MQTTPacket.c:194-234 | A written string reads back exactly when its length is below 65536 |
| MqttWire.IntRoundTrip | yangfan/common/mqtt/mqttpacket/src/MQTTPacket.c:125-170 | A written 16-bit number reads back |
| MqttWire.HeaderRoundTrip | yangfan/common/mqtt/mqttpacket/src/MQTTPacket.h:50-79 | Type, DUP, QoS and RETAIN have their places in the first byte and survive packing |
| MqttWire.ReadLenString | yangfan/common/mqtt/mqttpacket/src/MQTTPacket.c:215-234 | Succeeds exactly when prefix and text end within the data, and returns the text and the place after it |
| MqttWire.WriteMQTTString | yangfan/common/mqtt/mqttpacket/src/MQTTPacket.c:194-206 | Writes the length-prefixed text and nothing else, the counted form when both are given; that is the text whose length was counted when only one is |
| MqttWire.StrLen | yangfan/common/mqtt/mqttpacket/src/MQTTPacket.c:242-251 | The length of the text the string stands for |
| MqttWire.FramedIsPacket | yangfan/common/mqtt/mqttpacket/src/MQTTPacket.c:290-316 | A reader taking header, length and body in turn sees a packet exactly where the writer put one, and the packet has the declared size |
| MqttPublish.PublishLength | yangfan/common/mqtt/mqttpacket/src/MQTTSerializePublish.c:31-39 | The declared length is the size of the body of every packet with this QoS, topic and payload length |
| MqttPublish.PublishBytes | yangfan/common/mqtt/mqttpacket/src/MQTTSerializePublish.c:70-85 | The bytes of a PUBLISH by section 3.3: first byte, length, topic after its length, identifier at QoS 1 and above, payload |
| MqttPublish.AckFirstIs | yangfan/common/mqtt/mqttpacket/src/MQTTSerializePublish.c:115-118 | The first byte of each acknowledgement, with the reserved bits of PUBREL |
| MqttPublish.SerializePublish | yangfan/common/mqtt/mqttpacket/src/MQTTSerializePublish.c:55-91 | Writes exactly the PUBLISH packet inside the buffer and returns its size, or reports a short buffer and writes nothing |
| MqttPublish.DeserializePublish | yangfan/common/mqtt/mqttpacket/src/MQTTDeserializePublish.c:36-69 | On any bytes: 1 exactly for a PUBLISH whose topic fits, or whose length field takes one byte, and then all fields from their places; the payload's length is negative exactly when the topic fits and the identifier does not |
| MqttPublish.CutIdentifier | yangfan/common/mqtt/mqttpacket/src/MQTTDeserializePublish.c:54-62 | A packet of four bytes, cut off before its identifier, that is read with a payload of length -2 |
| MqttPublish.EmptyBodyAccepted | yangfan/common/mqtt/mqttpacket/src/MQTTDeserializePublish.c:54-57 | A PUBLISH without a body is reported as read although its topic does not fit |
| MqttPublish.WrittenIsReadable | yangfan/common/mqtt/mqttpacket/src/MQTTDeserializePublish.c:36-69 | Every serialized PUBLISH is found with its flags, QoS, identifier, topic and payload in their places, whatever follows it in the buffer |
| MqttPublish.RoundTrip | yangfan/common/mqtt/mqttpacket/src/MQTTDeserializePublish.c:36-69 | Serialized and deserialized, every PUBLISH that passes the size check comes back field for field |
| MqttPublish.SerializeAck | yangfan/common/mqtt/mqttpacket/src/MQTTSerializePublish.c:104-127 | Writes exactly the four bytes of an acknowledgement, or nothing when the buffer is too short |
| MqttPublish.DeserializeAck | yangfan/common/mqtt/mqttpacket/src/MQTTDeserializePublish.c:82-106 | On any bytes: type, DUP, and the identifier exactly when the declared length has room for it; without one the size of the length field is returned, which for one byte reads as success |
| MqttPublish.AckRoundTrip | yangfan/common/mqtt/mqttpacket/src/MQTTDeserializePublish.c:82-106 | Type, DUP and identifier of every serialized acknowledgement are read back |
| MqttPublish.SerializeZero | yangfan/common/mqtt/mqttpacket/src/MQTTConnectClient.c:169-190 | Writes exactly the two bytes of a packet without a body, or nothing |
| MqttSubscribe.SubscribeLength | yangfan/common/mqtt/mqttpacket/src/MQTTSubscribeClient.c:28-36 | The declared length is the size of the body that is written, for any list |
| MqttSubscribe.RequestBytes | yangfan/common/mqtt/mqttpacket/src/MQTTSubscribeClient.c:66-80 | The bytes of SUBSCRIBE and UNSUBSCRIBE by sections 3.8 and 3.10 |
| MqttSubscribe.LastTopicBytes | yangfan/common/mqtt/mqttpacket/src/MQTTSubscribeClient.c:76-80 | Each filter follows the ones before it, after its length and before its QoS |
| MqttSubscribe.SerializeSubscribe | yangfan/common/mqtt/mqttpacket/src/MQTTSubscribeClient.c:50-86 | Writes exactly the SUBSCRIBE packet inside the buffer, or reports a short buffer and writes nothing |
| MqttSubscribe.DeserializeSubscribe | yangfan/common/mqtt/mqttpacket/src/MQTTSubscribeServer.c:35-70 | Recovers identifier, count and the exact list in order, and leaves the rest of the caller's arrays alone |
| MqttSubscribe.RoundTrip | yangfan/common/mqtt/mqttpacket/src/MQTTSubscribeServer.c:35-70 | Serialized and deserialized, every list of filters and QoS values that fits comes back exactly and in order |
| MqttSubscribe.ReadTopics | yangfan/common/mqtt/mqttpacket/src/MQTTSubscribeServer.c:55-63 | The reading loop delivers every filter and QoS in order and the exact count |
| MqttSubscribe.SerializeUnsubscribe | yangfan/common/mqtt/mqttpacket/src/MQTTUnsubscribeClient.c:48-84 | Writes exactly the UNSUBSCRIBE packet for one filter inside the buffer, or reports a short buffer and writes nothing |
| MqttConnect.ConnectLength | yangfan/common/mqtt/mqttpacket/src/MQTTConnectClient.c:27-48 | The declared length is right for protocol levels 3 and 4 and 12 bytes short for any other |
| MqttConnect.StandardExample | yangfan/common/mqtt/mqttpacket/src/MQTTConnectClient.c:79-105 | The variable header of figure 3.6 of MQTT 3.1.1 byte for byte, and the protocol name of level 3 |
| MqttConnect.PayloadOrder | yangfan/common/mqtt/mqttpacket/src/MQTTConnectClient.c:106-115 | Client identifier, will topic, will message, username, password |
| MqttConnect.SerializeConnect | yangfan/common/mqtt/mqttpacket/src/MQTTConnectClient.c:58-121 | Writes exactly the CONNECT packet inside the buffer, or reports a short buffer and writes nothing |
| MqttConnect.DeserializeConnect | yangfan/common/mqtt/mqttpacket/src/MQTTConnectServer.c:51-108 | On a serialized CONNECT returns 1 exactly when a password comes with a username and the last credential is not empty, and then recovers every option |
| MqttConnect.RoundTrip | yangfan/common/mqtt/mqttpacket/src/MQTTConnectServer.c:51-108 | Serialized and deserialized, each option comes back as it was given if and only if there is no credential, or a username whose last credential is not empty; the protocol level is checked but not handed on |
| MqttConnect.EmptyPasswordRejected | yangfan/common/mqtt/mqttpacket/src/MQTTConnectServer.c:93-99 | A username with an empty password is a valid CONNECT that is turned away |
| MqttConnect.FlagsRoundTrip | yangfan/common/mqtt/mqttpacket/src/MQTTConnectClient.c:90-102 | All fields of the connect flags survive packing into one byte |
| MqttReader.ReadNbUntil | yangfan/common/mqtt/mqttpacket/src/MQTTPacket.c:362-411 | However the stream is cut up, repeated calls pass over the packets of the reserved type 0 that come first and end in the verdict the bytes after them determine: that packet in the buffer with its type and the rest of the stream untouched, or an error when no packet can be there or the transport failed; and they end once there are more calls than call-again answers and bytes together, the bytes passed over counted twice |
| MqttReader.ReadBoth | yangfan/common/mqtt/mqttpacket/src/MQTTPacket.c:290-411 | On one stream, what the non-blocking reader delivers however the stream is cut up is what the blocking one delivers, unless that packet has the reserved type 0 |
| MqttReader.ReadNb | yangfan/common/mqtt/mqttpacket/src/MQTTPacket.c:362-411 | One call keeps every byte received, asks to be called again only when it got less than it wanted, and otherwise delivers exactly the packet at the head of the stream or fails; the reserved type 0 is delivered under the call-again code |
| MqttReader.Transport.DecodeNb | yangfan/common/mqtt/mqttpacket/src/MQTTPacket.c:324-352 | The resumable length decoder has read exactly the digits of the field it reports, across any number of calls |
| MqttReader.Transport.HeaderStage | yangfan/common/mqtt/mqttpacket/src/MQTTPacket.c:367-377 | State 0 takes one byte into the buffer or nothing |
| MqttReader.Transport.LengthStage | yangfan/common/mqtt/mqttpacket/src/MQTTPacket.c:380-387 | State 1 reaches the body with the length field encoded anew, or rejects exactly what cannot be a packet |
| MqttReader.Transport.BodyStage | yangfan/common/mqtt/mqttpacket/src/MQTTPacket.c:389-403 | State 2 keeps header plus bytes so far in the buffer and ends with the whole packet there |
| MqttReader.ParseStable | yangfan/common/mqtt/mqttpacket/src/MQTTPacket.c:362-411 | Bytes that arrive later do not change a verdict |
| MqttReader.PacketIsParsed | yangfan/common/mqtt/mqttpacket/src/MQTTPacket.c:290-411 | A packet that a writer puts at the head of a stream is what both readers see there, to the byte, whatever follows, if and only if it fits the buffer |
| MqttReader.ParsedIsPacket | yangfan/common/mqtt/mqttpacket/src/MQTTPacket.c:362-411 | Whatever is seen as a packet is the first byte of the stream with the body its length field declares |
| MqttTransfer.Transfer | yangfan/common/mqtt/mqttpacket/src/MQTTPacket.c:362-411 | A PUBLISH sent through a transport that cuts the stream up at will is read and deserialized to the fields the writer was given, with the rest of the stream left, by every reader that has room and is called often enough, unless the transport fails |
| MqttTransfer.TransferBlocking | yangfan/common/mqtt/mqttpacket/src/MQTTPacket.c:290-316 | The blocking reader gets the same fields from the stream in one piece exactly when it has room |
| MqttTransfer.SentIsDelivered | yangfan/common/mqtt/mqttpacket/src/MQTTPacket.c:290-411 | A PUBLISH at the head of a stream is delivered whole, and what follows it is left |
| MqttReader.Read | yangfan/common/mqtt/mqttpacket/src/MQTTPacket.c:290-316 | The blocking reader delivers the packet its stream begins with, or -1, wherever its transport fails |
| MqttReader.Decode | yangfan/common/mqtt/mqttpacket/src/MQTTPacket.c:54-81 | Value and byte count of the field at the head of a stream that may break off or fail |
| MqttReader.ReadersAgree | yangfan/common/mqtt/mqttpacket/src/MQTTPacket.c:290-411 | On a stream without faults both verdicts agree wherever the non-blocking one sees a packet, and the blocking one sees more exactly when the length field has no last byte |
| MqttReader.CutLengthDelivered | yangfan/common/mqtt/mqttpacket/src/MQTTPacket.c:300-315 | A first byte and one unfinished length byte are an empty packet to the blocking reader and unfinished to the other |
| TopicMatch.IsTopicMatched | yangfan/common/mqtt/mqttclient_c/src/MQTTClient.c:186-211 | On every well-formed filter the two-pointer loop ends and answers exactly whether the levels match |
| TopicMatch.MatchIsStandard | yangfan/common/mqtt/mqttclient_c/src/MQTTClient.c:186-211 | Every match is a match by section 4.7.1 of MQTT 3.1.1 |
| TopicMatch.StandardIsMatch | yangfan/common/mqtt/mqttclient_c/src/MQTTClient.c:186-211 | On all names the converse holds exactly when no `+` stands against an empty level and a final `#` stands against a level that is there and not empty |
| TopicMatch.EmptyLevelRefused | yangfan/common/mqtt/mqttclient_c/src/MQTTClient.c:192-203 | `+/+` matches `/f` by section 4.7.1.3 and is refused |
| TopicMatch.ParentOfHash | yangfan/common/mqtt/mqttclient_c/src/MQTTClient.c:192-210 | For names without empty levels the only difference is that `#` does not match its parent level |
| TopicMatch.SkipLevel | yangfan/common/mqtt/mqttclient_c/src/MQTTClient.c:200-202 | The inner loop ends on the last character of the level |
| TopicMatch.Round | yangfan/common/mqtt/mqttclient/src/MQTTClient.h:503-519 | One turn of the loop leaves the question of the match as it was |
| TopicMatch.GiveUp | yangfan/common/mqtt/mqttclient/src/MQTTClient.h:503-521 | Where the loop stops, the rest matches exactly when both texts are used up |
| MqttSession.Client.Run | yangfan/common/mqtt/mqttclient/src/MQTTClient.h:558-1050 | Over every run of connect, publish, subscribe, unsubscribe, yield and disconnect calls, incoming packets, partial writes and failures: two deliveries of one QoS 2 id have its answered release or a clean session in between, every arrival is handed over when it is due, every QoS 1 or 2 publish ever kept in a lasting session is still kept to the byte unless a PUBACK at QoS 1 or a PUBCOMP at QoS 2 acknowledged it, one acknowledged another identifier while it waited, or a clean session dropped it, and every acknowledgement counted was read off the network |
| MqttSession.Client.Perform | yangfan/common/mqtt/mqttclient/src/MQTTClient.h:558-1050 | One call of the application keeps all that, and drops the session state only if a session is clean |
| MqttSession.Client.HandlePublish | yangfan/common/mqtt/mqttclient/src/MQTTClient.h:600-639 | A PUBLISH is logged, handed over exactly when admitted, and then answered by the right acknowledgement |
| MqttSession.Client.HandOver | yangfan/common/mqtt/mqttclient/src/MQTTClient.h:610-622 | A QoS 2 message is handed over exactly when its id is not open and fewer ids are open than there are slots |
| MqttSession.Client.HandleRelease | yangfan/common/mqtt/mqttclient/src/MQTTClient.h:641-656 | A PUBREL frees its id only after its PUBCOMP went out in full |
| MqttSession.Client.Release | yangfan/common/mqtt/mqttclient/src/MQTTClient.h:654-655 | An answered PUBREL closes its id and no other |
| MqttSession.Client.IsQoS2MsgIdFree | yangfan/common/mqtt/mqttclient/src/MQTTClient.h:338-346 | True exactly when the id is not in the table |
| MqttSession.Client.UseQoS2MsgId | yangfan/common/mqtt/mqttclient/src/MQTTClient.h:350-361 | Succeeds exactly when a slot is free, and then changes one free slot |
| MqttSession.Client.FreeQoS2MsgId | yangfan/common/mqtt/mqttclient/src/MQTTClient.h:365-375 | Clears one slot with the id and changes nothing else |
| MqttSession.Client.SendPacket | yangfan/common/mqtt/mqttclient/src/MQTTClient.h:380-409 | Success means exactly the packet went out in order, whatever the partial writes; failure means a part of it did |
| MqttSession.Client.Cycle | yangfan/common/mqtt/mqttclient/src/MQTTClient.h:579-676 | One packet keeps the session invariant, logs every arrival and with it its delivery if it is due, and leaves the kept publish alone or drops it with the session |
| MqttSession.Client.WaitFor | yangfan/common/mqtt/mqttclient/src/MQTTClient.h:715-728 | Ends only when the time is up or something was read, with the packet awaited or with an error that closed the session; the invariant is kept and nothing is newly kept |
| MqttSession.Client.AwaitAck | yangfan/common/mqtt/mqttclient/src/MQTTClient.h:941-972 | Success means that a well-formed packet of the awaited kind was read and nothing is waiting any more: the kept publish was acknowledged and dropped, or stays behind after a foreign acknowledgement |
| MqttSession.Client.SendPublish | yangfan/common/mqtt/mqttclient/src/MQTTClient.h:935-979 | Success means the packet was sent and at QoS 1 a PUBACK, at QoS 2 a PUBCOMP was read and nothing is waiting any more; any failure closes the session |
| MqttSession.Client.SendAndWait | yangfan/common/mqtt/mqttclient/src/MQTTClient.h:939-972 | Offers exactly the packet to the network; success means it went out and, at QoS 1, a PUBACK was read last, at QoS 2 a PUBCOMP; it gives up only when sending failed, the time was up or something was read |
| MqttSession.Client.Publish | yangfan/common/mqtt/mqttclient/src/MQTTClient.h:984-1022 | A packet that passes the size check is always offered to the network, and a failure closes the session; success means it was sent and, at QoS 1, PUBACK, at QoS 2, PUBCOMP answered; in a lasting session a QoS 1 or 2 message is kept to the byte under a fresh identifier, one at QoS 0 under the caller's if that is not 0 |
| MqttSession.Client.Keep | yangfan/common/mqtt/mqttclient/src/MQTTClient.h:1007-1016 | Keeping a publish for sending again loses none that is still waiting |
| MqttSession.Client.PublishReplaces | yangfan/common/mqtt/mqttclient/src/MQTTClient.h:1007-1016 | What is still kept while connected, left behind by a foreign acknowledgement or a QoS 0 publish, is gone after the next publish under another identifier |
| MqttSession.Client.PublishQoS0 | yangfan/common/mqtt/mqttclient/src/MQTTClient.h:777-789 | A QoS 0 message with an identifier in a lasting session is sent again, to the byte, each time the client comes up again, and is still kept after any number of times; without an identifier it is not kept |
| MqttSession.Client.Subscribe | yangfan/common/mqtt/mqttclient/src/MQTTClient.h:853-888 | The request goes out in full under a fresh identifier; success means that a SUBACK came in, and one that refuses the filter or cannot be read is success too; failure leaves the session closed, and a lasting one keeps its publish |
| MqttSession.Client.Unsubscribe | yangfan/common/mqtt/mqttclient/src/MQTTClient.h:900-931 | Success means the request went out in full and an UNSUBACK came in; failure leaves the session closed, and a lasting one keeps its publish |
| MqttSession.SendsGrow | yangfan/common/mqtt/mqttclient/src/MQTTClient.h:773-789 | Each packet that goes out again raises the number of times it was sent |
| MqttSession.Client.Connect | yangfan/common/mqtt/mqttclient/src/MQTTClient.h:732-790 | CONNECT is offered if it passes the size check; with nothing in flight the result is the code of the CONNACK that answers it; a publish in flight is sent again to the byte, and the connection comes up only once its own kind of acknowledgement was read and nothing is waiting any more |
| MqttSession.Client.Handshake | yangfan/common/mqtt/mqttclient/src/MQTTClient.h:744-762 | CONNECT goes out, and the result is the code of a well-formed CONNACK, or a failure |
| MqttSession.Client.KeepAlive | yangfan/common/mqtt/mqttclient/src/MQTTClient.h:680-709 | A ping goes out when one is due and none is outstanding; one that is due while another is unanswered is a failure; otherwise nothing happens |
| MqttSession.Client.Work | yangfan/common/mqtt/mqttclient/src/MQTTClient.h:584-667 | What each kind of packet causes, and the keep-alive check after it |
| MqttSession.WaitingUntilOver | yangfan/common/mqtt/mqttclient/src/MQTTClient.h:935-979 | A publish that was kept is waiting, or was acknowledged by the packet kind of its QoS, crossed by one for another identifier, or dropped since |
| MqttSession.OrderlyMeans | yangfan/common/mqtt/mqttclient/src/MQTTClient.h:600-656 | An orderly history delivers QoS 2 messages at most once, answers every release, and counts only acknowledgements that were read |
| MqttSession.OrderlyIsPrompt | yangfan/common/mqtt/mqttclient/src/MQTTClient.h:610-622 | In an orderly history every first arrival is handed over at once while a slot is free, and nothing else is |
| MqttSession.FreeSlot | yangfan/common/mqtt/mqttclient/src/MQTTClient.h:350-361 | A slot is free exactly while fewer ids are open than there are slots |
| MqttSession.Client.CloseSession | yangfan/common/mqtt/mqttclient/src/MQTTClient.h:318-324 | A clean session drops ids and the kept publish; a lasting one keeps both |
| MqttSession.Client.DropSession | yangfan/common/mqtt/mqttclient/src/MQTTClient.h:299-314 | No id and no kept publish is left |
| MqttSession.Client.NextPacketId | yangfan/common/mqtt/mqttclient/src/MQTTClient.h:91-94 | Identifiers count from 1 to 65535 and round again, never 0 |
| MqttSession.Client.Yield | yangfan/common/mqtt/mqttclient/src/MQTTClient.h:559-575 | Cycles until the time is up, or until a failure closes the session; the invariant is kept |
| MqttSession.Client.Disconnect | yangfan/common/mqtt/mqttclient/src/MQTTClient.h:1041-1050 | Leaves the client disconnected, with the kept publish of a lasting session still kept |
| MqttSession.DeliverKeepsAtMostOnce | yangfan/common/mqtt/mqttclient/src/MQTTClient.h:610-622 | Handing over an id whose last delivery was released keeps at-most-once delivery |
| MqttSession.TookId | yangfan/common/mqtt/mqttclient/src/MQTTClient.h:350-361 | Taking a slot keeps the table in step with the open deliveries, each id once |
| MqttSession.FreedId | yangfan/common/mqtt/mqttclient/src/MQTTClient.h:365-375 | Freeing a slot keeps the table in step with the open deliveries |
| MqttSession.OpenSince | yangfan/common/mqtt/mqttclient/src/MQTTClient.h:641-656 | A delivery that is no longer open was released or dropped since |
| OppTable.NeedMonotone | yangfan/kernel/src/driv/devfreq/rockchip_bus.c:188-193 | In a monotone operating-point table a slower clock never needs more voltage |
| OppTable.NeedAt | yangfan/kernel/src/driv/devfreq/rockchip_bus.c:288-294 | At an operating point the table search yields that point's voltage |
| BusVoltage.Bus.Serve | yangfan/kernel/src/driv/devfreq/rockchip_bus.c:269-344 | Over every sequence of requests with arbitrary regulator and clock failures the rail is never below what the running clock needs; when no call of the last request fails, that request is met |
| BusVoltage.Bus.CpufreqTarget | yangfan/kernel/src/driv/devfreq/rockchip_bus.c:269-344 | The calls made on every path with their arguments and answers: voltage then rate going up, rate then voltage going down, only the voltage at the same rate, nothing after a failure; the result is the answer of the last, and the invariant is kept |
| BusVoltage.Bus.Move | yangfan/kernel/src/driv/devfreq/rockchip_bus.c:312-343 | Exactly these calls in this order, every moment safe, caches change only together and only on success |
| BusVoltage.Bus.TableVolt | yangfan/kernel/src/driv/devfreq/rockchip_bus.c:185-193 | The loop finds the voltage of the slowest sufficient operating point |
| BusVoltage.Bus.ClkfreqTarget | yangfan/kernel/src/driv/devfreq/rockchip_bus.c:182-207 | The rail ends sufficient for the announced rate, or unchanged with -EINVAL |
| BusVoltage.Bus.Notify | yangfan/kernel/src/driv/devfreq/rockchip_bus.c:209-240 | Asks the regulator for what the new rate needs before a rise and after a fall, and for what the old one needs when a rise is called off, and otherwise for nothing; keeps the rail sufficient |
| BusVoltage.Bus.ChangeRate | yangfan/kernel/src/driv/devfreq/rockchip_bus.c:209-240 | An announced rate change, carried out, refused or aborted, is safe at every moment |
| BusVoltage.Bus.Follow | yangfan/kernel/src/driv/devfreq/rockchip_bus.c:209-240 | The same over every sequence of rate changes |
| DmcVoltage.Dmcfreq.Serve | yangfan/kernel/src/driv/devfreq/rockchip_dmc.c:348-513 | Over every sequence of requests, whatever fails, the rail is never below the need and the cached rate is the clock's; when the hardware does what the last request asks, that request is met |
| DmcVoltage.Dmcfreq.Target | yangfan/kernel/src/driv/devfreq/rockchip_dmc.c:360-513 | The calls made on every path by what the hardware answers: voltage then rate going up, rate then voltage going down, the old voltage again when the rate was not taken; with working hardware the rate and the point's voltage are set |
| DmcVoltage.Dmcfreq.Move | yangfan/kernel/src/driv/devfreq/rockchip_dmc.c:428-503 | The rate change with its restores is safe at every moment, also when the clock silently stays |
| CpuVoltage.Cpu.OppHelper | yangfan/kernel/src/driv/cpufreq/rockchip-cpufreq.c:142-217 | The calls made for every pattern of answers: mem, vdd, clock going up; clock, vdd, mem going down; then on failure the clock if it had changed, mem and vdd at the old point. Both rails suffice at every step exactly unless the mem request fails after vdd was lowered below the old need and the clock went back; success ends at the new point, a failure with working restores at the old |
| CpuVoltage.UndervoltsHappens | yangfan/kernel/src/driv/cpufreq/rockchip-cpufreq.c:188-214 | A run from 1200 to 600 MHz that undervolts |
| CpuVoltage.Cpu.RestoreVoltage | yangfan/kernel/src/driv/cpufreq/rockchip-cpufreq.c:212-214 | Which moments of the rollback are safe |
| PllSearch.RoundRate | yangfan/kernel/src/driv/phy/phy-rockchip-inno-mipi-dphy.c:518-577 | For every reference for which the loop ends: 0 exactly when no pre-divider it goes through is admissible, and then the dividers stay; otherwise the first of the closest, never above the request. Up to 1274 MHz that is the best of all settings on offer, less than 21 MHz below a request that is not capped |
| PllSearch.Search | yangfan/kernel/src/driv/phy/phy-rockchip-inno-mipi-dphy.c:547-569 | The loop finds the first of the admissible pre-dividers with the least error |
| PllSearch.ReachedBounds | yangfan/kernel/src/driv/phy/phy-rockchip-inno-mipi-dphy.c:553-562 | An admissible setting never overshoots and never truncates to zero, and in range it misses by at most 40 MHz |
| PllSearch.FeedbackIsLargest | yangfan/kernel/src/driv/phy/phy-rockchip-inno-mipi-dphy.c:553-553 | For each pre-divider the search takes the largest feedback divider that does not overshoot |
| PllSearch.ClosestIsBest | yangfan/kernel/src/driv/phy/phy-rockchip-inno-mipi-dphy.c:547-569 | What the search finds is the best of every setting the hardware offers at or below the target, although it looks at one per pre-divider and skips some |
| PllSearch.MissedExactly | yangfan/kernel/src/driv/phy/phy-rockchip-inno-mipi-dphy.c:553-559 | A setting on offer is missed exactly when no pre-divider is admissible and one is skipped |
| PllSearch.BetterThan14 | yangfan/kernel/src/driv/phy/phy-rockchip-inno-mipi-dphy.c:553-559 | Where feedback 15 is skipped, an admissible pre-divider does at least as well as 14 there |
| PllSearch.BetterThan511 | yangfan/kernel/src/driv/phy/phy-rockchip-inno-mipi-dphy.c:553-559 | Where more than 511 is skipped, an admissible pre-divider does at least as well as 511 there |
| PllSearch.EndsUnlessFull | yangfan/kernel/src/driv/phy/phy-rockchip-inno-mipi-dphy.c:547-550 | The loop with its eight-bit counter ends if and only if a fifth of the reference is not 255 modulo 256 |
| PllSearch.NeverEnds | yangfan/kernel/src/driv/phy/phy-rockchip-inno-mipi-dphy.c:547-550 | It runs forever at 1275 to 1279 and 2555 to 2559 MHz |
| PllSearch.TriedIsInRange | yangfan/kernel/src/driv/phy/phy-rockchip-inno-mipi-dphy.c:546-550 | Up to 1274 MHz the loop goes through exactly the pre-dividers that divide the reference into 5 to 40 MHz |
| PllSearch.GapAt24MHz | yangfan/kernel/src/driv/phy/phy-rockchip-inno-mipi-dphy.c:547-569 | With a 24 MHz reference nothing is found exactly below 72 MHz and from 90 to 95 MHz, where 84 MHz is missed |
| PllSearch.Target | yangfan/kernel/src/driv/phy/phy-rockchip-inno-mipi-dphy.c:540-544 | The capped internal target stays at or below twice the requested rate in MHz and within 2 MHz of it when uncapped |
| DeferredFree.ExactlyOnce | yangfan/kernel/src/driv/dma-buf/deferred-free-helper.c:25-63 | In every interleaving each deferred item is on the list once, or held by one thread, or freed once, and no other item is anywhere |
| DeferredFree.AllFreed | yangfan/kernel/src/driv/dma-buf/deferred-free-helper.c:25-119 | Once the list is empty and nobody holds an item, every deferred item was freed exactly once |
| DeferredFree.FreeList.ShrinkScan | yangfan/kernel/src/driv/dma-buf/deferred-free-helper.c:82-100 | With other threads interleaved at will, a scan returns exactly the pages it freed, overshoots only by its last item, and stops early only on an empty list or, exactly, an item of zero pages |
| DeferredFree.ZeroPagesStop | yangfan/kernel/src/driv/dma-buf/deferred-free-helper.c:90-94 | An interleaving in which an item without pages stops a scan while another item is listed |
| DeferredFree.FreeList.FreeOneItem | yangfan/kernel/src/driv/dma-buf/deferred-free-helper.c:44-63 | Takes the head and frees it, or reports an empty list; the thread's own events are exactly those |
| DeferredFree.FreeList.Take | yangfan/kernel/src/driv/dma-buf/deferred-free-helper.c:50-59 | The locked section removes the newest item and its pages from the count |
| DeferredFree.FreeList.DeferredFree | yangfan/kernel/src/driv/dma-buf/deferred-free-helper.c:25-41 | The item goes to the head and its pages to the count |
| DeferredFree.NewestFirst | yangfan/kernel/src/driv/dma-buf/deferred-free-helper.c:25-63 | The item handed over last is the next one to come off |
| DeferredFree.FreeList.ShrinkCount | yangfan/kernel/src/driv/dma-buf/deferred-free-helper.c:76-80 | The count is the pages of the items listed |
| DeferredFree.FreeList.Others | yangfan/kernel/src/driv/dma-buf/deferred-free-helper.c:25-119 | Any turns of other threads keep the count equal to the sum over the list and leave a thread's own history alone |
| DeferredFree.FreeList.Worker | yangfan/kernel/src/driv/dma-buf/deferred-free-helper.c:109-119 | In every round the worker either tries to free an item or saw the listed items without pages |
| DeferredFree.EmptyWhenSeen | yangfan/kernel/src/driv/dma-buf/deferred-free-helper.c:50-54 | A thread that reported an empty list looked at one |
| DeferredFree.PagesShown | yangfan/kernel/src/driv/dma-buf/deferred-free-helper.c:109-113 | The count that wakes the worker is positive exactly when some listed item has pages |
| PagePool.Pools.Shrink | yangfan/kernel/src/driv/dma-buf/page_pool.c:190-219 | Without interference: frees at least the request or empties every pool, overshoots by less than one block of the last pool, reports exactly what it freed, gives every block back from the front; with a request of 0 it returns all pooled pages, without high memory those in low blocks, and changes nothing |
| PagePool.Pools.Enqueue | yangfan/kernel/src/driv/dma-buf/page_pool.c:44-47 | The block is at the end of its list and its pages are owed to the count |
| PagePool.Pools.ShrinkPools | yangfan/kernel/src/driv/dma-buf/page_pool.c:200-216 | Earlier pools end empty, later ones untouched, the total is exactly what went |
| PagePool.Pools.CountPools | yangfan/kernel/src/driv/dma-buf/page_pool.c:201-205 | Returns all pooled pages, or without high memory those in low blocks, and changes nothing |
| PagePool.Pool.DoShrink | yangfan/kernel/src/driv/dma-buf/page_pool.c:158-188 | Gives back the shortest run of blocks, low ones first, that reaches the request, or everything |
| PagePool.Pools.Remove | yangfan/kernel/src/driv/dma-buf/page_pool.c:52-67 | Takes the oldest block of the list or nothing, with the count kept in balance |
| PagePool.Pools.Alloc | yangfan/kernel/src/driv/dma-buf/page_pool.c:69-92 | Without interference: the first high block, else the first low one, else the system's answer, with the balance kept |
| PagePool.Pools.Destroy | yangfan/kernel/src/driv/dma-buf/page_pool.c:138-155 | Without interference: the pool leaves the list and all its blocks go back in order, with the balance kept |
| PagePool.Pools.Create | yangfan/kernel/src/driv/dma-buf/page_pool.c:114-135 | A new empty pool at the head of the list |
| PagePool.Pool.Remove | yangfan/kernel/src/driv/dma-buf/page_pool.c:52-67 | Each count stays the length of its list |
| PagePool.FetchedKeeps | yangfan/kernel/src/driv/dma-buf/page_pool.c:69-78 | An allocation takes one block and leaves every other |
| PagePool.CutKeeps | yangfan/kernel/src/driv/dma-buf/page_pool.c:172-185 | The blocks given back are the front of the queue and the rest is what stays |
| PagePool.TotalZero | yangfan/kernel/src/driv/dma-buf/page_pool.c:200-216 | The total is zero exactly when every pool is empty |
| PagePool.CountableIsTotal | yangfan/kernel/src/driv/dma-buf/page_pool.c:104-112 | The counting scan adds up every page, or without high memory the pages in low blocks |
| PagePool.ShiftedIs | yangfan/kernel/src/driv/dma-buf/page_pool.c:104-112 | A block of order k is 2^k pages, twice a block of order k - 1 |
| PagePool.UsualOrders | yangfan/kernel/src/driv/dma-buf/page_pool.c:104-112 | Blocks of orders 0, 4 and 8 are 1, 16 and 256 pages |
| PageTraffic.Accounted | yangfan/kernel/src/driv/dma-buf/page_pool.c:35-67 | In every interleaving each block is in at most one list, there once, and in a list exactly as often as it was put there and not taken out again |
| PageTraffic.Traffic.Add | yangfan/kernel/src/driv/dma-buf/page_pool.c:35-50 | Among other threads the block goes into its list and its pages into the count, once each, and what the threads still owe makes up the difference to the pooled pages all along |
| PageTraffic.Traffic.Take | yangfan/kernel/src/driv/dma-buf/page_pool.c:52-67 | The head of a list comes off, or the list was empty, and the log says which |
| PageTraffic.Traffic.Others | yangfan/kernel/src/driv/dma-buf/page_pool.c:35-67 | Any interleaving of additions, late updates and removals is a legal log, keeps lists and count in step with it, and leaves a thread's own history alone |
| PageTraffic.Traffic.Alloc | yangfan/kernel/src/driv/dma-buf/page_pool.c:69-92 | Among other threads: a high block, else a low one, else the system's answer, and that only after both lists were seen empty |
| PageTraffic.Traffic.DoShrink | yangfan/kernel/src/driv/dma-buf/page_pool.c:158-188 | Among other threads: exactly the pages this thread took, less than one block above the request, and short of it only if both lists were seen empty; a high block only right after the low list was seen empty |
| PageTraffic.Traffic.Shrink | yangfan/kernel/src/driv/dma-buf/page_pool.c:190-219 | The same over all pools: short of the request only if each list of each pool was seen empty |

## Left out

- VendorStorage.Driver.Write: the caller gives 1 <= size <= the buffer's length with size + 63 below 2^32 and an id below 65536; the code checks none of these, and with an empty item, a wrapping size or a wider id the table and the data area are not protected. The calls of `Run` are of that kind.
- VendorStorage.Driver.Init: the code checks only tag and versions, so an image that is not laid out is taken over as it is and nothing more is said of the driver; `CrashAtomicity` proves the layout of every image the driver itself wrote. A missing read function is not modelled.
- VendorFlash.CrashAtomicity: a write error while the system keeps running is not modelled, only power loss; the driver ignores the result of the flash write. The unused `hash` field is carried along.
- MqttReader.Read: the transport function of the blocking reader returns all it was asked for or fails, at any of its calls.
- MqttConnect.SerializeConnect: only protocol levels 3 and 4, for which the declared length is right (`ConnectLength`).
- MqttConnect.DeserializeConnect: packets the serializer did not write are not covered.
- MqttSubscribe.DeserializeSubscribe: the caller's arrays must hold the list; the code never compares the count with `maxcount`.
- MqttPublish.SerializePublish: like the other serializers, for a string in one of its two forms, not both; length and writing prefer different ones (`WriteMQTTString`).
- MqttPublish.DeserializePublish: the buffer holds the body that its length field declares, as after `readPacket`, and the memory behind it the up to two bytes that the code reads past a cut-off identifier.
- MqttSession.Client.Run: the topic and payload of incoming messages and the handlers they go to are not modelled, so delivery is one event; the session is not tied to `MqttReader`, since anything may arrive. Whether a ping is due is decided from outside.
- MqttSession.Client.Connect: the branch that resends PUBREL is left out, because nothing sets its flag. As in the code, a successful resend brings the connection up even if CONNACK refused it.
- BusVoltage.Bus.Serve: the invariant holds at the start; the driver's cached rate begins at 0 whatever the clock's rate is. The regulator reading used when the cached voltage is 0 never fails. `clk_set_rate` settles at or below the request, and an error leaves the rate; the results turn on that.
- DmcVoltage.Dmcfreq.Serve: a failed clock call leaves the old rate, and rounding does not exceed the operating point. Changing the CPU's frequency around the call is left out.
- CpuVoltage.Cpu.OppHelper: the memory read margin is left out, and a failing cluster lookup, which does nothing.
- PllSearch.RoundRate: a reference below 1 MHz, for which the code divides by zero; `unsigned long` has 64 bits.
- DeferredFree.FreeList.Worker: a number of rounds instead of an endless loop; the wait queue and the freezer are left out, and so is the reason passed to the free function.
- PagePool.Pools.Destroy: without other threads in between, and pools are not created or destroyed while `PageTraffic` runs. A caller gives back only a block that is in no pool, as its owner would. Counts do not overflow.
- The server's side of unsubscribing (the loop of its deserializer cannot be reached), SUBACK and CONNACK, the packet formatters, and the partial-write loop of the C client, which offers the wrong length.
- MqttSession.Client.Subscribe: the table of message handlers is not modelled; it has room for a handler or it has not.
- The rest of the DMC and bus drivers: load policies, firmware calls, and filling the operating-point table from the device tree; the table is taken as given, with rates increasing and voltages not decreasing.

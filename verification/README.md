# Verification of the ESP8266 MQTT sensor firmware

A Dafny model of the firmware's stateful cores, and proofs about it:

- **The outbound queue** (`RingBuf`, `Proto`, `Queue`, `Overflow`): a circular byte buffer carrying byte-stuffed
  frames. A put that fails leaves a fragment of a frame behind, and the parser is started with a flag nobody sets; the
  queue is a message FIFO all the same. The "put; if full, drop the oldest and retry" loop has an exact outcome.
- **The MQTT codec** (`Packets`, `Connect`, `Msg`): what the builders write, the readers read back, and so does a strict
  reader of MQTT 3.1.1 that shares nothing with them (`Mqtt311`, `Wire`).
- **The MQTT client** (`ClientSpec`, `ClientRuns`, `ClientLife`, `ClientCalls`, `ClientAccepts`, `Client`): each
  callback, timer tick, task and user call is one step of a state machine. Conservation and order of messages, session safety,
  send pacing, reconnecting, keeping alive, what each call queues and light sleep are proved for every run;
  `Client.MqttClient.Drive` shows that the imperative client does nothing but such runs.
- **Drivers**: the SDIO sender's four buffers on two lists (`Sdio`), the UART rings (`Uart`), the bit-banged I2C master
  heard by a reference listener (`I2c`), the SPI bus switch (`SpiOverlap`).
- **Persistence and encodings**: the two-slot configuration under power failures (`ConfigStore`), form decoding
  (`Form`), the flash image (`Image`) and a boot loader for it (`Loader`, over `Records`).

Code that updates state is modelled by classes and methods with loops, each proved against a specification on values;
the main results are lemmas about the specifications.

Where the code falls short of its evident intent the model follows the code, with the exact condition or a
counterexample: a message can be lost although it fits an empty queue (`Overflow.LostAlthoughItFitsAnEmptyRing`),
exactly when it fits neither the free space nor any one group of the ring (`Overflow.OverflowOutcome`); an empty
payload hides the packet id (`Packets.PublishReadBack`); UNSUBSCRIBE has no id to read (`Packets.UnsubscribeReadsZero`)
and SUBSCRIBE only for topics up to 122 bytes; CONNECT can be built with flags a server must reject
(`Connect.ConnectReadBack`); an idle SDIO sender whose first load has no bytes, or 512 or more, is never started by any
load (`Sdio.Sender.LoadsFromIdle`); an empty section shifts those behind it in the image (`Loader.EmptySectionShifts`),
and `Loader.ImageLoads` says exactly which files a loader finds to be what was built, `Loader.LoadsByLuck` being the
case that keeps the condition from being simpler; overlap mode and the chip select set-up time share a bit
(`SpiOverlap.SetupBitTellsHistory`); initialising a device again can leave the selected one wrongly set up
(`SpiOverlap.Switch.DevInit`, with two such inputs in `SpiOverlap.StaleAfterInit` and `SpiOverlap.PinTakenByInit`); a
subscribe that builds nothing queues an empty message and reports success (`ClientAccepts.AcceptedIsWellFormed`).

Assumptions:

- Every callback, timer, task and interrupt handler is one atomic step. The network, the clock, the host, the slave on
  the bus and power failures are parameters or events.
- `MQTT_BUF_SIZE` and `QUEUE_BUFFER_SIZE` are parameters: at least 16 bytes, so that the readers never leave the buffer,
  and at most 16386, so that a packet's remaining length fits two bytes; and at least 2 bytes for the ring.
- Frames are counted in 16 bits and the count is returned signed.
- Flags collected with `|=` into clear bits are added. Registers of the SPI controller are records of the bits that the
  switch touches and a rest.

`dafny verify dfyconfig.toml` checks everything.

## Model

| member | source | states |
|---|---|---|
| `RingBuf.Ring.Init` | `src/mqtt/ringbuf.c:16-25` | refuses a missing buffer or a size below 2, else the ring is empty |
| `RingBuf.Ring.Put` | `src/mqtt/ringbuf.c:32-46` | appends at the write pointer, wrapping; -1 and no change exactly when full |
| `RingBuf.Ring.Get` | `src/mqtt/ringbuf.c:53-67` | takes the oldest byte, wrapping; -1 exactly when empty |
| `Proto.StuffHasNoMarks` | `src/mqtt/proto.c:106-128` | a stuffed packet holds neither mark and is at most twice as long |
| `Proto.ToggleIs` | `src/mqtt/proto.c:13-47` | the XOR with 0x20 changes bit 5 and no other |
| `Proto.FrameBytes` | `src/mqtt/proto.c:106-128` | a frame begins with 0x7E and ends with 0x7F; of the bytes between, 0x7D, 0x7E and 0x7F and no others are written as two, 0x7D and the byte XOR 0x20 |
| `Proto.FramePrefixIsFragment` | `src/mqtt/proto.c:106-128` | what a put that runs out of room leaves is a begin mark followed by no mark |
| `Proto.FeedStuff` | `src/mqtt/proto.c:13-47` | unstuffing undoes stuffing for every packet, cut to the size of the reader's buffer |
| `Proto.FeedFrame` | `src/mqtt/proto.c:13-47` | whatever bytes came before, and whatever state the parser was in, a begin mark resynchronises: the packet behind it is read back exactly |
| `Proto.Parser.constructor` | `src/mqtt/proto.c:3-11` | the initial state; nothing is known of isBegin, which is never set |
| `Proto.Parser.ParseByte` | `src/mqtt/proto.c:13-47` | one step of the parser as a function of its state; 0 exactly on an end mark |
| `Proto.AddStuffed` | `src/mqtt/proto.c:110-123` | the loop over the packet: its stuffed form, cut at the ring's size |
| `Proto.AddRb` | `src/mqtt/proto.c:106-128` | the ring afterwards is the old bytes and the frame, cut at the ring's size; the count of bytes added, or -1 when it did not all fit |
| `Proto.ParseRb` | `src/mqtt/proto.c:56-69` | consumes up to and including the first end mark and returns what the parser makes of it; -1 and an empty ring when there is none |
| `Queue.AppendMessages` | `src/mqtt/queue.c:42-50` | the messages of two stretches of ring, one behind the other |
| `Queue.AfterPutOk` | `src/mqtt/queue.c:42-45` | a put, successful or not, leaves frames and fragments and nothing else |
| `Queue.AfterPutBytes` | `src/mqtt/queue.c:42-45` | in bytes a put is the old ring and the frame cut at the size: success appends exactly the message, failure changes no message and leaves the ring full |
| `Queue.OnlyFragments` | `src/mqtt/proto.c:106-128` | a message is queued if and only if the ring holds an end mark |
| `Queue.OldestBytes` | `src/mqtt/proto.c:56-69` | where the oldest message ends, past any fragments in front of it |
| `Queue.ParsedBytes` | `src/mqtt/proto.c:56-69` | reading from a ring of segments yields the oldest message, for either value of the uninitialised isBegin |
| `Queue.BytesDetermineMessages` | `src/mqtt/queue.c:42-50` | the message list is a function of the ring's bytes alone: two readings of the same bytes as segments hold the same messages |
| `Queue.MsgQueue.constructor` | `src/mqtt/queue.c:37-41` | an empty queue over a fresh ring |
| `Queue.CountReadBack` | `src/mqtt/proto.c:106-128` | the count returned for a frame that fits is its length up to 32767, and reads as a failure exactly for a frame of 65535 bytes |
| `Queue.MsgQueue.Puts` | `src/mqtt/queue.c:42-45` | when the frame fits, the message is appended and the count of its bytes, read back as a signed 16-bit number, is returned; when not, -1, a full ring and the same messages |
| `Queue.MsgQueue.Gets` | `src/mqtt/queue.c:46-50` | the oldest message cut to maxLen whenever there is one; otherwise -1 and an empty ring |
| `Queue.MsgQueue.IsEmpty` | `src/mqtt/queue.c:52-57` | true exactly when the ring holds nothing, fragments included |
| `Overflow.RingRefinesFifo` | `src/mqtt/queue.c:42-57` | every run of puts, failed puts and gets gives replies that a message FIFO allows, ending in the same messages |
| `Overflow.RefusedMeansFull` | `src/mqtt/queue.c:42-45` | a put is refused exactly for want of room; then the ring is full and the messages are as before |
| `Overflow.FailedPutThenGet` | `src/mqtt/mqtt.c:512-518` | a failed put changes no group; the get behind it frees exactly the oldest group |
| `Overflow.DropOne` | `src/mqtt/mqtt.c:512-518` | the outcome of the loop is the same before and after one round |
| `Overflow.OverflowOutcome` | `src/mqtt/mqtt.c:512-518` | nothing is dropped if the frame fits; else the first i + 1 messages, for the least i whose group (fragments and frame) is at least as long; else all, and the ring ends empty |
| `Overflow.PutDroppingKeeps` | `src/mqtt/mqtt.c:512-518` | the loop keeps the ring well formed |
| `Overflow.PutOrDrop` | `src/mqtt/mqtt.c:512-518` | one round of the loop |
| `Overflow.PutDroppingOldest` | `src/mqtt/mqtt.c:512-518` | the loop terminates, for it takes a message each round, with the outcome above |
| `Overflow.LostAlthoughItFitsAnEmptyRing` | `src/mqtt/mqtt.c:512-518` | a message that would fit an empty ring is lost together with the queued one: room freed in two pieces is filled with fragments |
| `Packets.NthIdIs` | `src/mqtt/mqtt_msg.c:76-90` | the n-th generated id in closed form |
| `Packets.IdsAreDistinct` | `src/mqtt/mqtt_msg.c:76-90` | ids are never 0, and any 65535 in a row are pairwise distinct across the 16-bit wrap (section 2.3.1 of MQTT 3.1.1) |
| `Packets.IdsRepeat` | `src/mqtt/mqtt_msg.c:76-90` | the 65536th repeats the first |
| `Packets.RemLenBack` | `src/mqtt/mqtt_msg.c:105-126` | a remaining length of at most 16383 is read back from its one or two bytes (section 2.2.3 of MQTT 3.1.1) |
| `Packets.FirstByteBits` | `src/mqtt/mqtt_msg.c:108-120` | type, dup, QoS and retain are at bits 7-4, 3, 2-1 and 0 (section 2.2 of MQTT 3.1.1) |
| `Packets.FixedHeader` | `src/mqtt/mqtt_msg.c:105-152` | type, dup, QoS, retain and total length come back out of any built packet, whatever follows it |
| `Packets.CutBeforeTopic` | `src/mqtt/mqtt_msg.c:154-289` | a PUBLISH cut off before its topic has no topic, no payload and no id for the readers |
| `Packets.PublishReadBack` | `src/mqtt/mqtt_msg.c:135-289` | PUBLISH round trip: type, QoS, total length, topic, payload and id, except that an empty payload hides itself and the id from a reader told the exact length |
| `Packets.BuiltPublishReadBack` | `src/mqtt/mqtt_msg.c:363-387` | whatever mqtt_msg_publish builds is read back, with its retain bit, dup clear, and the id that was assigned |
| `Packets.AckReadBack` | `src/mqtt/mqtt_msg.c:229-289` | mqtt_get_id inverts PUBACK, PUBREC, PUBREL and PUBCOMP |
| `Packets.ServerAckReadBack` | `src/mqtt/mqtt_msg.c:274-289` | and the server's SUBACK and UNSUBACK |
| `Packets.SubscribeReadBack` | `src/mqtt/mqtt_msg.c:274-289` | and SUBSCRIBE exactly for topics of at most 122 bytes |
| `Packets.UnsubscribeReadsZero` | `src/mqtt/mqtt_msg.c:274-289` | and never UNSUBSCRIBE, which its switch leaves out |
| `Packets.BuiltFits` | `src/mqtt/mqtt_msg.c:363-473` | no packet of any builder but CONNECT is longer than the buffer it is built in |
| `Wire.LengthRead` | `src/mqtt/mqtt_msg.c:105-126` | the remaining length of any built packet, read by the algorithm of section 2.2.3 of MQTT 3.1.1, is that of its body |
| `Wire.PublishOnTheWire` | `src/mqtt/mqtt_msg.c:363-387` | a PUBLISH is built exactly when there is a topic and everything fits; a strict reader finds dup clear and the QoS, retain flag, topic, id and payload asked for if and only if the QoS is 0, 1 or 2; the id is the next of 1 to 65535 |
| `Wire.AckOnTheWire` | `src/mqtt/mqtt_msg.c:389-419` | a strict reader finds the four acknowledgements with the id given, or a fresh one for 0 |
| `Wire.SubscribeOnTheWire` | `src/mqtt/mqtt_msg.c:421-439` | a SUBSCRIBE is built exactly when there is a topic and it fits; a strict reader finds a fresh id, the topic and the requested QoS, and rejects it exactly when that is above 2 |
| `Wire.UnsubscribeOnTheWire` | `src/mqtt/mqtt_msg.c:441-455` | an UNSUBSCRIBE is built exactly when there is a topic and it fits; a strict reader finds a fresh id and the topic |
| `Wire.EmptyOnTheWire` | `src/mqtt/mqtt_msg.c:457-473` | a strict reader finds a PINGREQ, a PINGRESP and a DISCONNECT |
| `Connect.FlagByteBits` | `src/mqtt/mqtt_msg.c:315-358` | each connect flag comes back out of the flag byte |
| `Connect.ConnectIs` | `src/mqtt/mqtt_msg.c:291-361` | the flag byte collected branch by branch says exactly what was given |
| `Connect.LegalWhen` | `src/mqtt/mqtt_msg.c:315-358` | when section 3.1.2 of MQTT 3.1.1 accepts that byte |
| `Connect.PayloadBack` | `src/mqtt/mqtt_msg.c:322-358` | a decoder driven by the flag byte recovers client id, will, user name and password and leaves no byte over |
| `Connect.ConnectFits` | `src/mqtt/mqtt_msg.c:291-361` | and neither is a CONNECT |
| `Connect.ConnectReadBack` | `src/mqtt/mqtt_msg.c:291-361` | CONNECT round trip: a strict server recovers every setting, and keepalive mod 65536, if and only if there is no password without a user name and no will QoS of 3 |
| `Msg.Connection.constructor` | `src/mqtt/mqtt_msg.c:128-133` | an empty message and id counter 0 |
| `Msg.Connection.AppendString` | `src/mqtt/mqtt_msg.c:63-74` | length prefix and bytes, or -1 and nothing written exactly when they do not fit |
| `Msg.Connection.AppendMessageId` | `src/mqtt/mqtt_msg.c:76-90` | a zero id is replaced by the next non-zero one, in at most two rounds; 0 exactly when there is no room |
| `Msg.Connection.Fail` | `src/mqtt/mqtt_msg.c:98-103` | a failed builder leaves length 0 |
| `Msg.Connection.Finish` | `src/mqtt/mqtt_msg.c:105-126` | the fixed header is put in front of the body, in three bytes or in two with the message shifted by one |
| `Msg.Connection.Publish` | `src/mqtt/mqtt_msg.c:363-387` | the buffer holds the PUBLISH of the specification, or nothing; never past the buffer |
| `Msg.Connection.Ack` | `src/mqtt/mqtt_msg.c:389-419` | the same for the four acknowledgements |
| `Msg.Connection.Subscribe` | `src/mqtt/mqtt_msg.c:421-439` | the same for SUBSCRIBE; the id is spent even if the topic does not fit |
| `Msg.Connection.Unsubscribe` | `src/mqtt/mqtt_msg.c:441-455` | the same for UNSUBSCRIBE |
| `Msg.Connection.Empty` | `src/mqtt/mqtt_msg.c:457-473` | PINGREQ, PINGRESP and DISCONNECT |
| `Msg.Connection.ConnectMessage` | `src/mqtt/mqtt_msg.c:291-361` | a CONNECT for the given settings exactly when it fits and there is a client id, else length 0 |
| `Msg.ScanLength` | `src/mqtt/mqtt_msg.c:140-149` | the loop of all readers over the remaining length, with its shifts, computes the value and where it ends |
| `Msg.GetTotalLength` | `src/mqtt/mqtt_msg.c:135-152` | the total length as a function of the bytes |
| `Msg.GetPublishTopic` | `src/mqtt/mqtt_msg.c:154-181` | the topic as a stretch of the buffer, or NULL |
| `Msg.GetPublishData` | `src/mqtt/mqtt_msg.c:183-227` | the payload as a stretch of the buffer, or NULL |
| `Msg.ReadId` | `src/mqtt/mqtt_msg.c:229-289` | the id as a function of the bytes |
| `ClientSpec.OfferSound` | `src/mqtt/mqtt.c:276-279` | a single put keeps the queue well formed |
| `ClientSpec.OnPacketSound` | `src/mqtt/mqtt.c:248-332` | so does handling any inbound packet |
| `ClientSpec.ReadPacketsStep` | `src/mqtt/mqtt.c:235-351` | one turn of the READPACKET loop handles the first packet, and goes on with the rest exactly if that was a PUBLISH with something behind it |
| `ClientSpec.ReadInbound` | `src/mqtt/mqtt.c:238-240` | on the input buffer, stale bytes included, the readers see each inbound packet as it was sent |
| `ClientRuns.EnqueueKeeps` | `src/mqtt/mqtt.c:512-518` | an overflow loop accounts for every message it drops |
| `ClientRuns.OnPacketKeeps` | `src/mqtt/mqtt.c:264-332` | an answer is accepted or refused, and nothing else of the client changes |
| `ClientRuns.OnReceiveKeeps` | `src/mqtt/mqtt.c:225-356` | a chunk resets the keepalive counter and may end the wait for a CONNACK; all else is queueing |
| `ClientRuns.OnTaskKeeps` | `src/mqtt/mqtt.c:604-675` | the task hands over the oldest message uncut |
| `ClientRuns.HandleKeeps` | `src/mqtt/mqtt.c:225-675` | every callback, tick, task and user call keeps conservation, order and the timer bounds |
| `ClientRuns.Run` | `src/mqtt/mqtt.c:225-675` | over every run: accepted messages are exactly, in order, those handed to send or dropped followed by those queued; sendTimeout <= 5, reconnectTick <= 5, keepAliveTick <= keepalive in MQTT_DATA, and while the CONNACK is awaited the pending type is CONNECT if that fitted |
| `ClientRuns.SessionSafety` | `src/mqtt/mqtt.c:107-141` | in every run MQTT_DATA and MQTT_KEEPALIVE_SEND mean a TCP connect, a CONNACK since, and since the connect neither a teardown nor a keepalive that failed to go out; MQTT_CONNECT_SENDING means the same but for the CONNACK |
| `ClientRuns.ConnAfter` | `src/mqtt/mqtt.c:380-486` | which steps can enter or leave the connected states |
| `ClientRuns.NoInvalidPacket` | `src/mqtt/mqtt.c:243-266` | a CONNACK that is awaited never reaches the "Invalid packet" branch |
| `ClientRuns.CountDown` | `src/mqtt/mqtt.c:401-402` | a counter that only ticks decrease outlasts that many ticks |
| `ClientRuns.TaskHands` | `src/mqtt/mqtt.c:647-673` | the task hands over exactly the oldest message, whole, and exactly when it is in MQTT_DATA with the send timeout at 0 and a message queued; the timeout is then 5 and the message gone from the queue |
| `ClientRuns.HandleHands` | `src/mqtt/mqtt.c:225-675` | no other event hands anything to espconn_send out of the queue |
| `ClientRuns.SendStep` | `src/mqtt/mqtt.c:648-671` | wherever in a run a message is handed over, the step is one of the task and takes the send timeout from 0 to 5 |
| `ClientRuns.SendPacing` | `src/mqtt/mqtt.c:648-671` | between any two steps that hand over a message there is a sent callback or there are at least five ticks, whatever else happens |
| `ClientRuns.AnswerFirst` | `src/mqtt/mqtt.c:277-290` | the answer to a PUBLISH is offered to the queue before the message is delivered |
| `ClientRuns.ChunkLogs` | `src/mqtt/mqtt.c:264-332` | each packet handled has its own topic and payload delivered once, and exactly the answer that section 4.3 of MQTT 3.1.1 asks for, with its id, offered to the queue, in order |
| `ClientRuns.HandledIs` | `src/mqtt/mqtt.c:334-351` | the packets handled are those up to and including the first that is not a PUBLISH |
| `ClientRuns.ReceiveLogs` | `src/mqtt/mqtt.c:225-356` | for a whole chunk in a session: deliveries and answers are those of the packets handled |
| `ClientRuns.LightSleepIsSafe` | `src/modules/sleep.c:155-181` | after any run: when light sleep is selected no accepted message is queued; the device stays awake with no message queued exactly when the ring holds fragments alone, and the next step of the task that looks at the queue clears those |
| `ClientLife.DisconnectLeads` | `src/mqtt/mqtt.c:406-425` | from a disconnect by the user, whatever happens short of a teardown, the disconnect callback ends in TCP_DISCONNECTED |
| `ClientLife.DeleteLeads` | `src/mqtt/mqtt.c:406-425` | from a deletion in MQTT_DELETED |
| `ClientLife.LossLeads` | `src/mqtt/mqtt.c:406-425` | and any other in TCP_RECONNECT_REQ |
| `ClientLife.Waits` | `src/mqtt/mqtt.c:389-395` | up to the fifth tick nothing but a teardown ends the wait for a reconnect |
| `ClientLife.Reconnects` | `src/mqtt/mqtt.c:389-395` | the sixth tick does, whatever else happens, and the next activation of the task connects, with both tick counters at 0 |
| `ClientLife.KeepsCounting` | `src/mqtt/mqtt.c:383-388` | in a silent session the client stays in MQTT_DATA for as many ticks as the keepalive time |
| `ClientLife.KeepaliveFires` | `src/mqtt/mqtt.c:383-388` | and the tick after that asks for a PINGREQ |
| `ClientLife.KeepaliveSent` | `src/mqtt/mqtt.c:107-141` | the task sends it and the session goes on, with the counter at 0 |
| `ClientLife.KeepaliveFails` | `src/mqtt/mqtt.c:107-141` | or, if it cannot be sent, the client disconnects and then reconnects |
| `ClientLife.ConnectLeads` | `src/mqtt/mqtt.c:435-486` | where the calls and callbacks around connecting lead; a TCP connect starts the ids again |
| `ClientLife.ChunkIgnored` | `src/mqtt/mqtt.c:238-354` | a chunk that is empty, too long or out of place only resets the keepalive counter |
| `ClientLife.TimeoutRunsOut` | `src/mqtt/mqtt.c:401-402` | with nothing to set it again, the send timeout is over after five ticks |
| `ClientLife.SentEndsTimeout` | `src/mqtt/mqtt.c:364-378` | a sent callback ends it at once, and the next activation of the task hands over the oldest message |
| `ClientCalls.RunCounter` | `src/mqtt/mqtt_msg.c:76-90` | in every run the id counter is a 16-bit value |
| `ClientCalls.PublishAsked` | `src/mqtt/mqtt.c:499-521` | at any point of any run MQTT_Publish returns TRUE if and only if one message is accepted, and a strict reader takes that message for a PUBLISH of exactly this topic, payload, QoS and retain flag |
| `ClientCalls.SubscribeAsked` | `src/mqtt/mqtt.c:531-549` | the same for MQTT_Subscribe |
| `ClientCalls.UnsubscribeAsked` | `src/mqtt/mqtt.c:558-575` | the same for MQTT_UnSubscribe |
| `ClientCalls.PingAsked` | `src/mqtt/mqtt.c:583-602` | the same for MQTT_Ping |
| `ClientCalls.AnswersRead` | `src/mqtt/mqtt.c:264-332` | a strict reader takes each answer for the acknowledgement of section 4.3 of MQTT 3.1.1, with the id to acknowledge |
| `ClientAccepts.HandleAdds` | `src/mqtt/mqtt.c:225-602` | a step adds to the accepted messages only packets that are as long as they say, and an empty message exactly when it is a subscribe or unsubscribe that could not be built and reports success |
| `ClientAccepts.AcceptedIsWellFormed` | `src/mqtt/mqtt.c:531-575` | over every run: each accepted message is a packet of a type the client sends, as long as its remaining length says, except for as many empty ones as there were calls that built nothing and reported success |
| `Client.MqttClient.constructor` | `src/mqtt/mqtt.c:686-754` | a cleared client |
| `Client.MqttClient.UserConnect` | `src/mqtt/mqtt.c:779-816` | the step of a user connect |
| `Client.MqttClient.UserDisconnect` | `src/mqtt/mqtt.c:819-824` | the step of a user disconnect |
| `Client.MqttClient.UserDelete` | `src/mqtt/mqtt.c:827-832` | the step of a user delete |
| `Client.MqttClient.EnqueueMessage` | `src/mqtt/mqtt.c:512-518` | the overflow loop over the message just built, with what it drops recorded |
| `Client.MqttClient.UserPublish` | `src/mqtt/mqtt.c:499-521` | build, and queue only if that succeeded; TRUE exactly if it is queued |
| `Client.MqttClient.UserSubscribe` | `src/mqtt/mqtt.c:531-549` | build and queue without looking, so a failed build queues an empty message; TRUE exactly if that is queued |
| `Client.MqttClient.UserUnsubscribe` | `src/mqtt/mqtt.c:558-575` | the same |
| `Client.MqttClient.UserPing` | `src/mqtt/mqtt.c:583-602` | queue a PINGREQ; TRUE exactly if it is queued |
| `Client.MqttClient.DnsFound` | `src/mqtt/mqtt.c:59-88` | the connection state after name resolution |
| `Client.MqttClient.TcpConnected` | `src/mqtt/mqtt.c:435-467` | a CONNECT for the settings is handed to the network if it fits, else nothing; the id counter starts again |
| `Client.MqttClient.TcpDisconnected` | `src/mqtt/mqtt.c:406-425` | the connection state by what was going on |
| `Client.MqttClient.TcpReconnect` | `src/mqtt/mqtt.c:475-486` | asks for a reconnect |
| `Client.MqttClient.Sent` | `src/mqtt/mqtt.c:364-378` | clears the send timeout and the keepalive counter |
| `Client.MqttClient.Timer` | `src/mqtt/mqtt.c:380-403` | keepalive, reconnect and send timeout counters |
| `Client.MqttClient.SendKeepalive` | `src/mqtt/mqtt.c:108-141` | a PINGREQ is handed to the network; a reconnect when it cannot be sent |
| `Client.MqttClient.SendFromQueue` | `src/mqtt/mqtt.c:647-673` | the oldest message goes to espconn_send if the send timeout is 0 and there is one, and nothing otherwise |
| `Client.MqttClient.TaskStep` | `src/mqtt/mqtt.c:604-675` | the step of the task in every connection state, and exactly what it gives to espconn_send |
| `Client.MqttClient.OfferMessage` | `src/mqtt/mqtt.c:276-279` | a put whose failure is only logged |
| `Client.MqttClient.DeliverPublish` | `src/mqtt/mqtt.c:93-105` | the data callback gets the topic and payload found in the chunk |
| `Client.MqttClient.HandlePacket` | `src/mqtt/mqtt.c:248-332` | one inbound packet does to the client what the specification says |
| `Client.MqttClient.ReadPacket` | `src/mqtt/mqtt.c:235-351` | one turn from READPACKET: the step of the first packet, and whether and where the next begins |
| `Client.MqttClient.Receive` | `src/mqtt/mqtt.c:225-356` | a chunk of whole packets: the loop terminates and takes the step of the specification |
| `Client.MqttClient.Dispatch` | `src/mqtt/mqtt.c:225-832` | any event takes the step that the runs are made of |
| `Client.MqttClient.Continue` | `src/mqtt/mqtt.c:225-832` | one more event continues a run |
| `Client.MqttClient.Drive` | `src/mqtt/mqtt.c:225-832` | a new client driven by any events is in the state of the corresponding run, so that all results about runs hold of it |
| `Client.MqttClient.GoToSleep` | `src/modules/sleep.c:155-181` | light sleep exactly when the ring is empty |
| `Sdio.Relink` | `driver_lib/driver/sdio_slv.c:368-377` | moving the head of one list behind the tail of the other keeps two disjoint acyclic lists over all four nodes |
| `Sdio.Sender.constructor` | `driver_lib/driver/sdio_slv.c:122-139` | four linked free buffers |
| `Sdio.Sender.MoveLinks` | `driver_lib/driver/sdio_slv.c:368-377` | the pointer assignments of a move |
| `Sdio.Sender.LoadDone` | `driver_lib/driver/sdio_slv.c:304-338` | a transfer is started unless it has no bytes |
| `Sdio.Sender.TryToLoad` | `driver_lib/driver/sdio_slv.c:401-412` | loads the descriptor only if the last transfer was read and something waits |
| `Sdio.Sender.CopyAll` | `driver_lib/driver/sdio_slv.c:350-385` | the copy loop terminates having taken everything or filled every buffer |
| `Sdio.Sender.Load` | `driver_lib/driver/sdio_slv.c:340-399` | accepts, in order, as many bytes as there is room for; from idle a transfer starts if and only if there are between 1 and 511, and the driver is never idle afterwards; the value returned is 0 if no buffer was filled, and else the bytes accepted less those in the buffer that was begun |
| `Sdio.Sender.LoadAll` | `driver_lib/driver/sdio_slv.c:340-399` | any number of loads on a driver that is not idle take together, in order, what there is room for, and none starts or changes a transfer |
| `Sdio.Sender.LoadsFromIdle` | `driver_lib/driver/sdio_slv.c:340-399` | from idle the first load decides for good: over any run of loads a transfer is started if and only if the first had between 1 and 511 bytes |
| `Sdio.Sender.RecycleLinks` | `driver_lib/driver/sdio_slv.c:418-427` | the pointer assignments that free a buffer |
| `Sdio.Sender.ReadDone` | `driver_lib/driver/sdio_slv.c:414-449` | the host has one more buffer of bytes, and the driver goes idle if and only if everything accepted has been delivered |
| `ConfigStore.SlotWritten` | `src/modules/config.c:45-61` | after the slot is programmed it holds the configuration, and the other slot is as before |
| `ConfigStore.OldWhileSlot` | `src/modules/config.c:45-61` | until the flag is touched the old configuration is selected |
| `ConfigStore.EitherWhileFlag` | `src/modules/config.c:45-61` | whatever the flag sector reads as while it changes, it selects the old configuration or the new |
| `ConfigStore.SaveCompletes` | `src/modules/config.c:45-61` | a completed save is what the next load finds |
| `ConfigStore.CrashAtomic` | `src/modules/config.c:45-61` | a save interrupted anywhere, torn erases and writes included, leaves the old configuration or the new one complete |
| `ConfigStore.TornErase` | `src/modules/config.c:63-78` | which of the two after a torn erase of the flag: a blank flag reads as slot 1 |
| `ConfigStore.NeverLost` | `src/modules/config.c:45-91` | over any run of saves, any of them interrupted: the selected configuration is the last completed save or one interrupted since |
| `ConfigStore.Store.Save` | `src/modules/config.c:45-61` | issues exactly those four operations in that order |
| `ConfigStore.Store.Load` | `src/modules/config.c:63-91` | the selected slot, or the defaults, saved at once, when the holder does not match |
| `Uart.CopyAppends` | `driver_lib/driver/uart.c:431-452` | a chunk copied to the write position continues the stored bytes |
| `Uart.TakeFront` | `driver_lib/driver/uart.c:469-503` | advancing the read position drops the oldest bytes |
| `Uart.UartBuffer.constructor` | `driver_lib/driver/uart.c:407-427` | an empty ring |
| `Uart.UartBuffer.Cpy` | `driver_lib/driver/uart.c:431-452` | one chunk or two around the end: appended, as byte by byte |
| `Uart.UartBuffer.Deq` | `driver_lib/driver/uart.c:469-503` | the oldest bytes, as many as asked for or as there are; right because the ring is never full |
| `Uart.UartBuffer.RxEnq` | `driver_lib/driver/uart.c:507-532` | the whole hardware FIFO, or nothing where that would fill the ring |
| `Uart.Transmitter.Enq` | `driver_lib/driver/uart.c:549-563` | all or nothing |
| `Uart.Transmitter.FifoInsert` | `driver_lib/driver/uart.c:568-579` | enqueued bytes are those moved to the hardware followed by those in the ring |
| `Uart.Transmitter.Start` | `driver_lib/driver/uart.c:588-609` | fills the hardware FIFO as far as the ring allows and never beyond 128 bytes |
| `Uart.Transmitter.HardwareSends` | `driver_lib/driver/uart.c:590-591` | what the hardware has sent lowers the FIFO count the driver reads |
| `Uart.Transmitter.Run` | `driver_lib/driver/uart.c:549-609` | over any run of offers, interrupts and bytes sent: what was sent is the beginning of what was accepted, in order, at most a hardware FIFO and a ring behind |
| `Uart.Transmitter.Drain` | `driver_lib/driver/uart.c:588-609` | with an interrupt each time the hardware FIFO is empty, everything accepted is sent |
| `I2c.ByteValue` | `driver_lib/driver/i2c_master.c:306-330` | the bits of a byte, most significant first, have its value |
| `I2c.AssembleExpected` | `driver_lib/driver/i2c_master.c:306-330` | a listener that hears START and each byte with its acknowledge bit recovers exactly those bytes and acknowledges |
| `I2c.HighAndLow` | `driver_lib/driver/i2c_master.c:286-293` | the bits read, each shifted into its place, add up to the byte |
| `I2c.Master.constructor` | `driver_lib/driver/i2c_master.c:83-136` | from the released lines a listener hears 27 one bits, START and STOP |
| `I2c.Master.SetDC` | `driver_lib/driver/i2c_master.c:43-59` | both lines, open drain, as a listener after sections 3.1.3 to 3.1.6 of UM10204 hears them |
| `I2c.Master.Start` | `driver_lib/driver/i2c_master.c:145-153` | one START; on a held bus a STOP before it |
| `I2c.Master.Stop` | `driver_lib/driver/i2c_master.c:162-172` | one STOP; on a free bus a START before it |
| `I2c.Master.SetAck` | `driver_lib/driver/i2c_master.c:181-193` | exactly that bit is heard |
| `I2c.Master.GetAck` | `driver_lib/driver/i2c_master.c:202-218` | exactly the slave's bit is heard and returned |
| `I2c.Master.WriteByte` | `driver_lib/driver/i2c_master.c:306-330` | exactly the bits of the byte are heard, and no START, STOP or glitch |
| `I2c.Master.ReadByte` | `driver_lib/driver/i2c_master.c:266-297` | exactly the slave's bits are heard, and the byte returned is the one it drives |
| `I2c.Master.Transaction` | `driver_lib/driver/i2c_master.c:145-330` | any transaction is heard as START, its bytes and acknowledges, STOP, and the master learns what the slave sent |
| `Form.HTMLEntityDecode` | `src/modules/http_config.c:98-133` | the returned buffer reads as the decoded text, up to a decoded NUL |
| `Form.HexDigitsAre` | `src/modules/http_config.c:118-121` | the digits strtol takes, in both cases, and their values |
| `Form.MalformedPercent` | `src/modules/http_config.c:118-121` | a percent sign with one hexadecimal digit, behind a space or a sign or before another character, decodes to what strtol makes of it |
| `Form.DecodeSent` | `src/modules/http_config.c:98-133` | whatever legal way a value is written (section 17.13.4.1 of HTML 4.01), it decodes to the value |
| `Form.WrittenAll` | `src/modules/http_config.c:98-133` | every text has such an encoding |
| `Form.FindAt` | `src/modules/http_config.c:282-299` | strstr cuts at the first occurrence |
| `Form.PairsOfBody` | `src/modules/http_config.c:275-301` | the body is cut into exactly the fields that were sent, though values may hold =, % and + |
| `Form.AtoiOfDecimal` | `src/modules/http_config.c:316-327` | numbers come back from their decimal form, with a space or a sign in front and anything behind |
| `Form.HttpConfig.SetData` | `src/modules/http_config.c:257-359` | the loop terminates with every field it finds assigned in order |
| `Form.HttpConfig.CutField` | `src/modules/http_config.c:282-301` | one field off the front |
| `Form.HttpConfig.Assign` | `src/modules/http_config.c:307-354` | a known name sets its field, any other none |
| `Form.AskedIs` | `src/modules/http_config.c:257-301` | what a form asks for is the meaning of the last input of that name |
| `Form.NumbersArrive` | `src/modules/http_config.c:316-327` | mqtt_port and mqtt_keepalive become the number whose decimal form was sent |
| `Form.TextsArrive` | `src/modules/http_config.c:307-354` | each of the ten text fields becomes the text sent |
| `Form.ScalesArrive` | `src/modules/http_config.c:307-354` | each of the four factors becomes what os_atof makes of the text sent |
| `Form.OthersStay` | `src/modules/http_config.c:307-354` | a setting the form does not name, or cannot name, stays as loaded |
| `Form.FormRoundTrip` | `src/modules/http_config.c:257-359` | a submitted form sets each field to the last value given for it and leaves every other setting as loaded, those it cannot name included |
| `Image.WordOfLe32` | `tools/gen_appbin.py:85-85` | little-endian words come back |
| `Image.FoldConcat` | `tools/gen_appbin.py:90-104` | a checksum over two stretches is one over both |
| `Image.Generator.CombineBin` | `tools/gen_appbin.py:67-105` | a section with its header and padding, or nothing when empty; the checksum covers data and padding |
| `Image.Generator.GenAppbin` | `tools/gen_appbin.py:221-281` | the whole file |
| `Image.Generator.WriteSections` | `tools/gen_appbin.py:233-248` | header and three sections behind what is there |
| `Image.Generator.WriteTrailer` | `tools/gen_appbin.py:259-281` | irom0 in mode 1, the CRC word in modes 1 and 2 |
| `Image.XorBitsIs` | `tools/gen_appbin.py:90-104` | each bit of the exclusive or is set exactly where the bits differ |
| `Image.SumIsParity` | `tools/gen_appbin.py:90-104` | each bit of the checksum is the parity of that bit over the bytes summed |
| `Image.ChecksumIsParity` | `tools/gen_appbin.py:80-257` | each bit of the last byte of the image is the parity of that bit over 0xEF and the padded sections |
| `Image.BlockBytes` | `tools/gen_appbin.py:80-104` | a section byte by byte: address and rounded length little-endian, the data, zeros |
| `Image.HeaderBytes` | `tools/gen_appbin.py:221-237` | the first four bytes of each header by mode, and the entry address behind them |
| `Image.CrcWordIs` | `tools/gen_appbin.py:274-281` | the word at the end is the CRC plus one, or its complement when it is negative, little-endian |
| `Image.FileEnds` | `tools/gen_appbin.py:259-281` | what follows the checksum, mode by mode |
| `Image.OneByteShows` | `tools/gen_appbin.py:90-104` | a single wrong byte anywhere in the sections changes the checksum |
| `Image.FillerEndsTheLine` | `tools/gen_appbin.py:251-256` | the zeros end one byte short of a line of 16, and never take a line of their own |
| `Image.LoadableIsAligned` | `tools/gen_appbin.py:224-257` | in every mode, empty sections or not, the image up to the checksum is a multiple of 16 bytes and ends in 0xEF xor all section bytes |
| `Image.IromAt64K` | `tools/gen_appbin.py:259-268` | irom0 starts at 64 KB when the front leaves room, right behind it otherwise |
| `Records.TakeBack` | `tools/gen_appbin.py:80-104` | records written one behind the other are taken back in order, whatever is taken after them |
| `Records.TakeAtMost` | `tools/gen_appbin.py:80-104` | with nothing behind them exactly as many can be taken as are present |
| `Records.TakenExactly` | `tools/gen_appbin.py:80-104` | although some are missing, as many come back as were written, and the same, if and only if those missing are the last and what follows reads as them |
| `Records.TakenFrom` | `tools/gen_appbin.py:80-104` | the same where a record can be read from one form only: what follows starts with just that |
| `Loader.TakeBlockBack` | `tools/gen_appbin.py:85-104` | a loader takes a section back off the front |
| `Loader.SectionsBack` | `tools/gen_appbin.py:240-248` | and all three, if none is empty |
| `Loader.SectionsTaken` | `tools/gen_appbin.py:233-248` | the header promises three sections, and three can be taken if and only if none is empty |
| `Loader.EmptySectionShifts` | `tools/gen_appbin.py:233-248` | if one section is empty, whichever it is, the loader takes those behind it in its place |
| `Loader.IromTaken` | `tools/gen_appbin.py:224-232` | in mode 2 the first block taken is irom0, leaving exactly the flash header and what follows, if and only if irom0 is not empty |
| `Loader.WithoutIrom` | `tools/gen_appbin.py:224-281` | without irom0 a mode 2 file, CRC word and all, is never loaded as it was built |
| `Loader.ImageRoundTrip` | `tools/gen_appbin.py:224-281` | a loader walking the image recovers the entry address and the three sections, zero-padded to 4, and agrees with the checksum, whatever is written behind it, if no section is empty, or only rodata is, at address 0, where the zeros before the checksum stand in for it |
| `Loader.OutcomeIs` | `tools/gen_appbin.py:233-281` | with any bytes behind the checksum: the sections are found if and only if the empty ones are the last, the bytes from the filler on read as their headers, and the checksum is at the end of the line behind those |
| `Loader.ShortTrailer` | `tools/gen_appbin.py:251-281` | with less than 16 bytes behind the checksum that means: no section is empty, or only the last, at address 0, with eight zeros before the checksum |
| `Loader.FilledTrailer` | `tools/gen_appbin.py:259-264` | and it means the same with at least 16 bytes of 0xFF |
| `Loader.ImageLoads` | `tools/gen_appbin.py:224-281` | exactly when a loader finds in the whole file, in every mode, what was built; unless the front of a mode 1 file reaches 64 KB: irom0 is not empty in mode 2, and no section is empty, or only rodata is, at address 0, with eight zeros to stand in for it |
| `Loader.LoadsByLuck` | `tools/gen_appbin.py:251-268` | the proviso is needed: in mode 1 with a front of 64 KB, a checksum of 0 completes the header of an empty rodata, and a zero in irom0 passes for the checksum |
| `SpiOverlap.DividerFields` | `driver_lib/driver/spi_overlap.c:31-31` | the divider word packs 2d+1, d and 2d+1 without overlap if and only if d <= 0x1f |
| `SpiOverlap.Switch.OverlapInit` | `driver_lib/driver/spi_overlap.c:49-58` | flash bus, priorities and the set-up bit |
| `SpiOverlap.Switch.OverlapDeinit` | `driver_lib/driver/spi_overlap.c:64-73` | the reverse |
| `SpiOverlap.Switch.TakeFlash` | `driver_lib/driver/spi_overlap.c:216-221` | the flash's registers, clock, edge and chip select |
| `SpiOverlap.Switch.TakeDevice` | `driver_lib/driver/spi_overlap.c:203-210` | a device's clock, edge and chip select |
| `SpiOverlap.Switch.LeaveDevice` | `driver_lib/driver/spi_overlap.c:197-223` | selecting from HSPI_CS_DEV sets up any device |
| `SpiOverlap.Switch.LeaveOverlap` | `driver_lib/driver/spi_overlap.c:225-280` | so does selecting from either device on the flash bus |
| `SpiOverlap.Switch.LeaveFlash` | `driver_lib/driver/spi_overlap.c:282-308` | and from the flash |
| `SpiOverlap.Switch.LeaveIdle` | `driver_lib/driver/spi_overlap.c:310-349` | and from nothing |
| `SpiOverlap.Switch.Select` | `driver_lib/driver/spi_overlap.c:182-352` | whatever was selected before, the controller ends set up for the device; only the set-up bit of HSPI_CS_DEV tells where it came from, and exactly how; bus, priority, chip selects, clock fields and user bits are those of the device |
| `SpiOverlap.Switch.DevInit` | `driver_lib/driver/spi_overlap.c:117-179` | takes the backups once, with the clock and read mode of the flash as given, and records the device; the controller stays set up for the selected device if and only if the call does not take the pin of HSPI_CS_DEV from the others and gives the selected device no other edge and no other divider that it uses |
| `SpiOverlap.Switch.SelectAll` | `driver_lib/driver/spi_overlap.c:182-352` | after any run of selections the controller is set up for the last initialised device named |
| `SpiOverlap.HistoryIndependence` | `driver_lib/driver/spi_overlap.c:182-352` | being set up for a device fixes everything a transfer depends on, the set-up bit of HSPI_CS_DEV excepted |
| `SpiOverlap.RunsAgree` | `driver_lib/driver/spi_overlap.c:182-352` | two controllers with the same driver data agree after any two runs of selections that end on the same device, whatever else was selected |
| `SpiOverlap.SetupBitTellsHistory` | `driver_lib/driver/spi_overlap.c:49-73` | except that bit 5 of SPI_USER is both the overlap switch and the chip select set-up time, and differs |
| `SpiOverlap.StaleAfterInit` | `driver_lib/driver/spi_overlap.c:150-152` | a failing input: another divider for the selected HSPI_CS_DEV leaves the old clock in force |
| `SpiOverlap.PinTakenByInit` | `driver_lib/driver/spi_overlap.c:154-161` | another: initialising HSPI_CS_DEV while something on the flash bus is selected gives the pin back to it |

## Left out

- Queue.MsgQueue.constructor: sizes below 2, for which RINGBUF_Init refuses and QUEUE_Init goes on with a ring that was
  never set up.
- Queue.MsgQueue.Puts: lengths from 32768 on, which PROTO_AddRb takes as negative.
- Msg.Connection.constructor: buffers too short for a fixed header, which the builders would overrun.
- Msg.ScanLength: the overflow of the shift for a malformed remaining length of more than four bytes.
- Msg.GetTotalLength: the same.
- Msg.GetPublishData: the same.
- Client.MqttClient.HandlePacket: packets that are malformed or cut short, which the switch handles unchecked.
- Client.MqttClient.ReadPacket: the same.
- Client.MqttClient.Receive: chunks that are not made of whole, well-formed packets; the code keeps their lengths in 16
  bits and does not check them.
- Client.MqttClient: TLS, name resolution races, the callbacks to the application, freeing memory, pending_msg_id (it is
  only logged) and the return code of CONNACK, which the code does not inspect.
- Sdio.Sender: nodes are numbers and their buffers sequences, so that allocation and aliasing of the structures are not
  modelled; neither is the receive path of the SDIO slave.
- Uart.UartBuffer.Cpy: chunks longer than the space, which the first call of tx_buff_enq, the one that creates the ring,
  passes on without checking.
- Uart.UartBuffer: interrupt enable bits, which the flow control toggles, and running out of memory.
- Form.HTMLEntityDecode: texts of 64 characters and more, which overrun the C buffer.
- Form.HttpConfig.SetData: the same for names and values, and texts longer than their field. Conversion of decimal
  fractions (os_atof) is kept as text, and integers are unbounded.
- Form.HttpConfig.Assign: texts longer than their field.
- Image.Generator: finding the addresses in the symbol table, and CRC-32, which is a parameter.
- SpiOverlap.Switch: the pin functions of the data lines, waiting for the controller to be idle, and reading the flash.
- I2c.Master: waiting times and clock stretching.
- PROTO_Add, which takes its length from the packet and is not used by the queue.
- MQTT_InitLWT, MQTT_OnConnected and the like: they store their arguments.
- wifi.c, gpio16.c, key.c, spi_interface.c, hw_timer.c, utils.c and the sensor code: register and string code without
  state to keep.

# Proofs about the Arduino core for the W800

A Dafny model of the parts of this repository that move bytes around in place: the lwmqtt client,
the `String` class, the TCP and UDP contexts over pbuf chains, the circular list, the bit-banged I2C
master, and the number and address printers and parsers. Each is modelled in the form the source
has (classes with fields, arrays, loops), proved against a specification, and the promises are then
proved about the specification: over every input, every fragmentation by the network, every
failure of the allocator or of the stack, and every run.

| files | about |
|---|---|
| `Helpers`, `Packet`, `PacketProperties`, `Broker` | the MQTT 3.1.1 packet codec: bit fields, variable-length numbers, encoders, decoders, and an independent reading of what a server receives |
| `Network`, `Client`, `ClientProperties`, `ClientRuns` | the MQTT client over a network that delivers any part of what is asked and may fail halfway; histories, and whole runs of operations |
| `PacketBytes` | the packets that are written, read and answered, in plain bytes |
| `Substitution`, `WString` | text substitution, and the `String` class with its buffer |
| `Pbufs`, `DataSources`, `ClientContext`, `ConnectionRuns`, `UdpContext`, `SocketRuns` | pbuf chains with reference counts, the TCP and UDP contexts on top, and whole runs of them |
| `DlList` | the intrusive ring |
| `I2cBus`, `SoftwareI2C`, `Wire` | the two wires and a watcher that reads them; the master; the buffered transactions |
| `Sequences`, `Arithmetic` | regrouping, flattening, powers of two |
| `Numerals`, `Printers`, `StreamSearch`, `StreamReader`, `IPAddress` | numerals, their printers and parsers, stream search, dotted addresses |

How to read it. A method ties the new state to a function of the old state; the lemmas beside it say
what that function means. Memory that the source hands out and takes back (pbufs) carries a ghost
flag that says whether it is still in use. What the surroundings decide (an allocation, a partial
write, a closing connection, a slave's answer) is left open, so every claim holds for all of it, and it is
noted in ghost state: an operation that fails has the cause that its contract names, a refused allocation,
a network fault, time that has passed, or bytes that were wrong.

Where the code does less than its purpose, the exact condition under which it does it is proved:

* `lwmqtt_varnum_length` agrees with the bytes written except at exactly 2097151, where it says one too
  many, and 268435455, where it reports an overflow (`Helpers.VarnumLengthExact`).
* CONNECT declares its own length, and can be read back, exactly unless there is a password without a
  user name (`PacketProperties.ConnectIsFrame`, `Broker.ConnectRoundTrip`).
* The count of bytes read survives a run exactly when no packet was dropped
  (`ClientProperties.ReadCountExact`).
* A SUBACK writes one code past the caller's array exactly when it declares more codes than were asked for
  and their bytes are there, whether it is then accepted, with one code too many, or rejected
  (`PacketProperties.SubackOverrunsIff`, `PacketProperties.SubackAcceptsOneMore`).
* The growing branch of `String::replace` keeps to its buffer, for all texts, exactly when no proper suffix
  of the pattern begins the replacement; `"aab"` with `"ab"` replaced by thirty characters that start with
  b is an input that overruns it (`WString.FitsIffNoOverhang`, `WString.OverrunExample`).
* The growing branch of `String::replace` substitutes from left to right, for all texts, exactly when no
  proper suffix of the pattern begins the pattern or the replacement (`Substitution.FromRightIsSubst`).
* `ClientContext::read()` and `peek()` answer the next byte exactly when nothing is queued or the first pbuf
  has a byte left; behind an empty pbuf, which the stack makes of a partly repeated segment, they answer
  what stands in memory (`ClientContext.ClientContext.FrontByteRightIff`, `ConnectionRuns.StaleRead`).
* The place where `UdpContext::append` goes on writing is right exactly when tot_len has wrapped around as
  often for the current pbuf as for the first; an append that takes the chain to 64 KiB is refused but
  leaves it wrapped around (`UdpContext.StartRightIff`, `UdpContext.WrapsAt64K`).
* `TwoWire::requestFrom` leaves its buffer exactly when the length is negative and the address is
  acknowledged (`Wire.TwoWire.RequestFrom`).
* `Stream::findUntil` finds every occurrence exactly when the target is its own beginning wherever its
  first character comes again (`StreamSearch.FindsAllIffSteady`).
* With a terminator, `Stream::findUntil` stops where it should, for all steady targets and all texts, exactly
  when the terminator repeats one character; the terminator "ab" is missed in "aab"
  (`StreamSearch.EndsRightlyIffUniform`, `StreamSearch.TerminatorExamples`).
* `Stream::parseInt` keeps its sums within a long exactly up to 2147483599
  (`StreamReader.ParseIntFitsIff`).

## Model

| member | source | states |
|---|---|---|
| Helpers.WriteBitsBit | libraries/MQTT/helpers.c:9-11 | every bit of the written byte: the field shows the value's bits, the others keep theirs, and bits of a value too wide spill upwards |
| Helpers.ReadBitsBit | libraries/MQTT/helpers.c:5-7 | every bit of the field read: the byte's bits from the position on, and zero beyond the field |
| Helpers.WriteBitsFields | libraries/MQTT/helpers.c:5-11 | a field written with a fitting value reads back, and every field that does not overlap it is as before |
| Helpers.ReadVarnum | libraries/MQTT/helpers.c:172-214 | the loop decodes the bytes before `end` as section 2.2.3 of MQTT 3.1.1 says, with the same three outcomes, and moves past exactly the bytes of the number |
| Helpers.VarnumLengthExact | libraries/MQTT/helpers.c:153-170 | the computed length is the length of the written number for every value below 2^28 except exactly 2097151, where it is one too many, and 268435455, where an overflow is reported |
| Helpers.VarnumRoundTrip | libraries/MQTT/helpers.c:172-251 | reading inverts writing for every value below 2^28, whatever follows |
| Helpers.VarnumPrefixTooShort | libraries/MQTT/helpers.c:172-214 | every strict prefix of a written number reads as too short |
| Helpers.VarnumShortest | libraries/MQTT/helpers.c:172-251 | no byte string that reads as a value is shorter than the written form of that value |
| Helpers.VarnumLocal | libraries/MQTT/helpers.c:172-214 | reading depends on no byte after the number |
| Helpers.VarnumByteByByte | libraries/MQTT/client.c:179-200 | asking again after each byte gives the same answer as reading at once, and ends within five bytes |
| Helpers.Packer.WriteData | libraries/MQTT/helpers.c:34-52 | all bytes are appended, or nothing changes when the rest of the buffer is too small |
| Helpers.Packer.WriteString | libraries/MQTT/helpers.c:106-120 | the string goes out behind its 16-bit length |
| Helpers.Packer.WriteVarnum | libraries/MQTT/helpers.c:216-251 | on success exactly the number's encoding is appended; a value of 2^28 or more is an overflow |
| Packet.EncodeConnect | libraries/MQTT/packet.c:58-202 | on success the buffer starts with the CONNECT packet of these options and this will, and the length is that of its bytes |
| Packet.DecodeConnack | libraries/MQTT/packet.c:204-276 | the error and the two answer fields as functions of the buffer's bytes |
| Packet.DecodeAck | libraries/MQTT/packet.c:303-339 | the error and the packet id as functions of the buffer's bytes |
| Packet.EncodeAck | libraries/MQTT/packet.c:341-378 | on success the buffer starts with the acknowledgement frame, with flags 0010 for PUBREL only |
| Packet.EncodeZero | libraries/MQTT/packet.c:278-301 | on success the buffer starts with a frame without a body |
| Packet.DecodePublish | libraries/MQTT/packet.c:380-466 | success exactly when the bytes are a publish, and then all five fields are what the bytes mean |
| Packet.EncodePublish | libraries/MQTT/packet.c:468-532 | on success the buffer starts with everything of the packet but the payload |
| Packet.EncodeSubscribe | libraries/MQTT/packet.c:534-599 | the error is determined by the filters and the room, and on success the buffer starts with the frame of these filters and service levels |
| Packet.EncodeUnsubscribe | libraries/MQTT/packet.c:671-729 | the error is determined by the filters and the room, and on success the buffer starts with the frame of these filters |
| Packet.FiltersRem | libraries/MQTT/packet.c:540-544 | the added-up remaining length is the number of bytes of the body that follows, in 32-bit arithmetic, for any list of topics |
| Packet.DecodeSuback | libraries/MQTT/packet.c:601-669 | the error and the number of codes stored are functions of the buffer's bytes, also when the packet is rejected; every stored code, in the array or past its end, is the granted level of its byte, the cell past an array of max_count codes is written exactly when max_count + 1 codes are declared and their bytes are there, and the rest of the array is untouched |
| Packet.ConnectDeclaresItsLength | libraries/MQTT/packet.c:58-100 | the declared length exceeds the bytes that follow by the password length plus two when there is a password without a user name, and by nothing otherwise |
| PacketProperties.FrameIffLength | libraries/MQTT/packet.c:58-202 | bytes behind a header and a length field are one frame exactly when the field says how many they are |
| PacketProperties.ConnectIsFrame | libraries/MQTT/packet.c:58-202 | CONNECT is one well-formed frame exactly unless a password comes without a user name |
| PacketProperties.PublishIsFrame | libraries/MQTT/packet.c:468-532 | head and payload together are one frame exactly when their length fits 32 bits |
| PacketProperties.PublishHeaderFields | libraries/MQTT/packet.c:487-500 | type, dup, service level and retained flag read back from the header byte built field by field |
| PacketProperties.SubscribeHeaderFields | libraries/MQTT/packet.c:553-560 | the header byte has its type and the service level 1 that the standard reserves |
| PacketProperties.PublishMeansOne | libraries/MQTT/packet.c:380-466 | no bytes mean two different publishes |
| PacketProperties.PublishRoundTrip | libraries/MQTT/packet.c:380-532 | what was encoded decodes to the same dup, service level, flag, id, topic and payload, whatever stale bytes follow, exactly when the service level is at most 2 |
| PacketProperties.AckRoundTrip | libraries/MQTT/packet.c:303-378 | an encoded acknowledgement decodes to the same packet id, whatever follows |
| PacketProperties.DecodingIsLocal | libraries/MQTT/packet.c:204-669 | two buffers that agree on the frame give the same result in every decoder, whatever follows it |
| PacketProperties.SubackOverrunsIff | libraries/MQTT/packet.c:637-642 | the cell past an array of max_count codes is written exactly when the header is good, max_count + 1 codes are declared, and their bytes are in the buffer |
| PacketProperties.SubackAcceptsOneMore | libraries/MQTT/packet.c:637-642 | for every whole SUBACK: it is accepted exactly with 1 to max_count + 1 codes, the cell past the array is written exactly with max_count + 1 or more, both at once exactly with max_count + 1, and a rejection after the store is always the array overflow error |
| PacketProperties.SubackOverrunExamples | libraries/MQTT/packet.c:637-642 | two codes for one filter are accepted and three are rejected, and in both cases the second one is stored past the array |
| Broker.ConnectRoundTrip | libraries/MQTT/packet.c:58-202 | a server that reads CONNECT by the standard recovers every option and the will exactly unless a password comes without a user name |
| Broker.FiltersRoundTrip | libraries/MQTT/packet.c:582-593 | a server that reads a SUBSCRIBE or UNSUBSCRIBE body recovers the list of filters |
| Client.PublishHasMeaning | libraries/MQTT/packet.c:380-466 | every packet that decodes as a publish means one, so the decoder's answer is never empty |
| Client.PublishWireIsPacket | libraries/MQTT/client.c:486-505 | the bytes that publish sends are one packet that decodes to the message it was given |
| Client.MqttClient.NextPacketId | libraries/MQTT/client.c:57-68 | ids count up and start again at 1 after 65535, never 0 |
| Client.MqttClient.ReadFromNetwork | libraries/MQTT/client.c:70-100 | the bytes that came, all of them on success, stand in the buffer in stream order behind what was there, however the network cuts them; a timeout needs the time to be over or a read that timed out |
| Client.MqttClient.DrainNetwork | libraries/MQTT/client.c:102-130 | on success exactly the asked number of bytes has left the stream |
| Client.MqttClient.WriteToNetwork | libraries/MQTT/client.c:132-157 | what went out is a prefix of the data, all of it on success, under any partial writes |
| Client.MqttClient.ReadLength | libraries/MQTT/client.c:179-200 | the length loop ends within five bytes with the value of the bytes it consumed, or with the overflow that these bytes are |
| Client.MqttClient.ReadPacketInBuffer | libraries/MQTT/client.c:159-234 | a successful read has taken exactly one whole packet, which stands in the buffer and is added to the caller's count, or was too long, is skipped and counted, and zeroes that count; or it has taken nothing, and the time was over or a read timed out; an error names what kept the bytes from being a packet: a type that is not received, a length field of five bytes, no room, or the network |
| Client.MqttClient.CycleOnce | libraries/MQTT/client.c:249-370 | one cycle takes one packet, gives the one reply it calls for before anything else is read, hands one message to the callback per publish, and counts a skipped packet once; it takes none only when none came in time, and a failure has its cause: bytes that make no packet, a packet that cannot be decoded, or a reply that did not go out |
| Client.MqttClient.CycleUntil | libraries/MQTT/client.c:372-397 | a successful cycle is a run of whole packets that ends with the awaited one, which came as the last and not before; or it is not in the run, and the time is over, or all announced bytes have been counted, or one packet was enough |
| Client.MqttClient.Publish | libraries/MQTT/client.c:460-541 | a fresh id is the successor of the last one, and a caller's id is used again with the dup flag; exactly one frame goes out before anything is received, and at service level 0 to 2 it carries this message under this id; PUBACK at level 1 and PUBCOMP at level 2 end the run, and every other outcome has its cause |
| Client.MqttClient.Connect | libraries/MQTT/client.c:399-458 | success exactly when the server's return code is zero; the CONNECT of these options goes out, or a part of it and an error; session flag and return code are those of the CONNACK that ends the run, or false and unknown without one; an earlier ping is forgotten, the keep-alive timer set, and exactly one connection counted |
| Client.MqttClient.Subscribe | libraries/MQTT/client.c:543-588 | the id is the successor of the last one; success means that exactly this frame went out and the SUBACK in the buffer refuses no filter; whenever a SUBACK came, the result is what its bytes call for; the store past the array of granted levels happens exactly when it came and holds more codes than there are filters |
| Client.MqttClient.Unsubscribe | libraries/MQTT/client.c:595-630 | the id is the successor of the last one; success means that exactly this frame went out and a good UNSUBACK ended the run |
| Client.MqttClient.Disconnect | libraries/MQTT/client.c:636-654 | the two bytes E0 00 go out, or a part of them and an error, and nothing is read |
| Client.MqttClient.Yield | libraries/MQTT/client.c:656-668 | a successful yield is a run of whole packets within the available bytes, and it stops early only when the time is over, a read timed out, or a packet was skipped |
| Client.MqttClient.KeepAlive | libraries/MQTT/client.c:670-708 | the timer is asked exactly when keep-alive is on; when it says that a ping is due and none is open, C0 00 goes out and is noted as pending, or the write failed; with one open the answer is a pong timeout; otherwise nothing happens |
| ClientProperties.PingOpenMeans | libraries/MQTT/client.c:670-708 | the pending flag is true after a history exactly when a ping was sent and neither a pong nor a new connection came after it |
| ClientProperties.NoTwoPingsInARow | libraries/MQTT/client.c:670-708 | between two pings of a history there is a pong or a new connection |
| ClientProperties.NoResetBetween | libraries/MQTT/client.c:399-420 | between two moments with the same count of connections the history notes no new connection, so nothing but connect can stand between two pings besides a pong |
| ClientProperties.WholeMeans | libraries/MQTT/client.c:159-234 | every packet that the history notes as read or skipped is a whole packet, also when the operation failed afterwards |
| ClientProperties.RunWrites | libraries/MQTT/client.c:249-370 | over a whole run the bytes written are the in-order concatenation of the reply each packet calls for, and the bytes read are its packets |
| ClientProperties.RunTakesPackets | libraries/MQTT/client.c:159-234 | when the server sends a sequence of packets, a run takes the first of them one by one and leaves the stream at the start of the next |
| ClientProperties.OnePacketInFront | libraries/MQTT/client.c:159-234 | no byte string starts with two different packets |
| ClientProperties.ReadCountExact | libraries/MQTT/client.c:205-220 | the running count never exceeds the bytes taken, and equals them exactly when no packet was dropped |
| ClientProperties.CountAfterIs | libraries/MQTT/client.c:205-220 | over a run the counter of skipped packets goes up by one per skipped packet, in 32 bits |
| ClientProperties.SkippedExample | libraries/MQTT/client.c:205-220 | a packet of two bytes that a buffer of one cannot hold is skipped, and the count of bytes read stays at zero |
| ClientProperties.YieldStaysWithinAvailable | libraries/MQTT/client.c:372-397 | without drops, all packets of a yield but the last lie within the available bytes |
| ClientProperties.IdAfterIs | libraries/MQTT/client.c:57-68 | the id after any number of steps in closed form |
| ClientProperties.IdsAreDistinct | libraries/MQTT/client.c:57-68 | any 65535 consecutive ids are different and none is zero |
| PacketBytes.ReplyBytes | libraries/MQTT/client.c:249-370 | a PUBLISH of level 1 is answered with 40 02 and of level 2 with 50 02 and the two bytes behind its topic, PUBREC with 62 02 and PUBREL with 70 02 and the two bytes they end with, and no other packet at all |
| PacketBytes.DeliveryBytes | libraries/MQTT/client.c:258-274 | the callback gets one message for a packet of type 3 and none for any other |
| PacketBytes.ComplaintBytes | libraries/MQTT/client.c:249-370 | only packets of type 3, 5 and 6 can be found wrong by a cycle, and exactly when topic and id do not fit or the body is not two bytes |
| PacketBytes.ReceivableBytes | libraries/MQTT/packet.c:3-39 | the header bytes that a client takes: 20 to 7F, 90 to 9F, B0 to BF and D0 to DF |
| PacketBytes.ParseVarnumBytes | libraries/MQTT/helpers.c:172-214 | the value of up to four length bytes, seven bits each, and what is too short or too long |
| PacketBytes.VarnumBytes | libraries/MQTT/helpers.c:216-251 | the one to four bytes of every length below 2^28 |
| PacketBytes.FirstBytes | libraries/MQTT/packet.c:58-729 | the header byte of every packet without flags of its own |
| PacketBytes.PublishFirstByte | libraries/MQTT/packet.c:487-500 | the header byte of a PUBLISH is 30 plus 8 for dup, twice the level, and 1 for retained |
| PacketBytes.PublishBytes | libraries/MQTT/packet.c:380-466 | where a whole PUBLISH has its flags, topic, id and payload, by position |
| PacketBytes.ErrorBytes | libraries/MQTT/packet.c:204-466 | why a whole CONNACK, acknowledgement or PUBLISH is refused, by its length |
| PacketBytes.ConnackBytes | libraries/MQTT/packet.c:204-276 | the session flag is bit 0 of the last byte but one, the return code the last byte, with one code for all beyond 5 |
| PacketBytes.SubackBytes | libraries/MQTT/packet.c:601-669 | what subscribing makes of the codes behind the id: none, too many, all at most 2, or a refusal |
| PacketBytes.GrantedBytes | libraries/MQTT/packet.c:651-665 | 0, 1 and 2 are stored as they are and everything else as 80 |
| PacketBytes.PublishWireBytes | libraries/MQTT/packet.c:468-532 | the PUBLISH as it goes out: header byte, length, topic behind its length, and the id exactly above level 0 |
| PacketBytes.FilterWireBytes | libraries/MQTT/packet.c:582-593 | each filter goes out as its length, its text, and in a SUBSCRIBE its level |
| PacketBytes.FiltersErrorBytes | libraries/MQTT/packet.c:534-729 | a list is refused from a body of 268435455 bytes on, or when header, length field and body exceed the buffer |
| PacketBytes.ConnectFlagsByte | libraries/MQTT/packet.c:120-143 | the flags byte of CONNECT as the sum of its bits |
| PacketBytes.ConnectBytes | libraries/MQTT/packet.c:108-202 | the body of CONNECT byte by byte |
| ClientRuns.Run | libraries/MQTT/client.c:399-708 | over any sequence of connects, publishes, subscriptions, yields, keep-alives and disconnects, whatever fails: the reports join, each says how its operation ended and why, all bytes read and written are accounted for, the connections noted are the connects, each operation sets the command timer once, and a due ping goes out |
| ClientRuns.PongTimeoutMeans | libraries/MQTT/client.c:670-708 | in any run only keep-alive gives up for a missing pong, when the timer has run out, and then a ping was sent and since then neither a pong nor a connect came |
| ClientRuns.DuePingsGoOut | libraries/MQTT/client.c:670-708 | in any run, a keep-alive that ends well while the timer says a ping is due has sent C0 00 |
| ClientRuns.PingsApart | libraries/MQTT/client.c:670-708 | between two pings of a run, whichever operations sent them, there is a pong or a connect |
| ClientRuns.FreshIdAt | libraries/MQTT/client.c:57-68 | in any run, the n-th operation that takes a fresh packet id gets the n-th successor of the id before the run |
| ClientRuns.FreshIdsDiffer | libraries/MQTT/client.c:57-68 | fresh ids of a run that are fewer than 65535 apart are different |
| ClientRuns.FreshIdGoesOut | libraries/MQTT/client.c:460-630 | whenever the packet of such an operation went out, the id on the wire is that id, whatever became of the operation |
| ClientRuns.WireIdsDiffer | libraries/MQTT/client.c:460-630 | so packets sent with fresh ids, fewer than 65535 apart, carry different ids on the wire |
| ClientRuns.RunNew | libraries/MQTT/client.c:5-45 | a new client starts with an empty history, so the run accounts for everything it ever read and wrote |
| Substitution.CleanAgrees | cores/w800/WString.cpp:646-654 | for a clean pattern, substituting from the right gives the left-to-right substitution of every text |
| Substitution.UncleanDiffers | cores/w800/WString.cpp:646-654 | for every other pattern and longer replacement there is a text, without a NUL when the pattern has none, on which the two differ |
| Substitution.UncleanExample | cores/w800/WString.cpp:646-654 | for the pattern "aa" the two differ on "aaa" |
| Substitution.FromRightIsSubst | cores/w800/WString.cpp:613-656 | the two agree on all texts exactly when the pattern is clean |
| Substitution.NoOverhangSameLength | cores/w800/WString.cpp:636-654 | when no proper suffix of the pattern begins the replacement, the right-to-left result is as long as the left-to-right one, for every text |
| Substitution.OverhangRunsOver | cores/w800/WString.cpp:636-654 | otherwise there is a text whose right-to-left result is longer than the left-to-right one by more than any given amount |
| Substitution.SubstJoins | cores/w800/WString.cpp:613-656 | whatever pieces the pattern cuts a text into from left to right, the substitution is the same pieces with the replacement between them |
| Substitution.CutExists | cores/w800/WString.cpp:613-656 | every text is cut into such pieces, so this says what every substitution is |
| WString.StrStr | cores/w800/WString.cpp:620-652 | the first occurrence at or after the position within the terminated text, or none |
| WString.WString.ChangeBuffer | cores/w800/WString.cpp:121-135 | the capacity becomes the next full block of sixteen, what fits of the old buffer is kept, also when it shrinks, and what is new is zeroed; without memory nothing changes |
| WString.WString.Reserve | cores/w800/WString.cpp:110-119 | the text is unchanged and the room is there, or an allocation was refused and nothing has changed; the capacity stays when it is enough |
| WString.WString.Copy | cores/w800/WString.cpp:141-149 | the string is the new text, or empty without a buffer exactly when an allocation was refused |
| WString.WString.Assign | cores/w800/WString.cpp:151-161 | the string becomes the other's text unless an allocation was refused; the other is unchanged, and assigning to itself does nothing |
| WString.WString.ConcatChars | cores/w800/WString.cpp:213-224 | success appends the text; failure changes nothing and only comes of a refused allocation |
| WString.WString.Concat | cores/w800/WString.cpp:193-211 | success appends the other text, also when the other is the string itself; failure changes nothing and only comes of a missing buffer or a refused allocation; the other is unchanged |
| WString.WString.Remove | cores/w800/WString.cpp:665-679 | exactly the characters from the index on, at most `count`, are gone |
| WString.WString.Trim | cores/w800/WString.cpp:697-710 | the text without its leading and trailing white space |
| WString.LeadingSpaces | cores/w800/WString.cpp:700-702 | everything before it is white space and the next character is not |
| WString.TrimmedEnd | cores/w800/WString.cpp:703-705 | everything after it is white space and the character before it is not |
| WString.IsSpaceMeans | cores/w800/WString.cpp:697-710 | white space is exactly the six characters of isspace |
| WString.TrimmedParts | cores/w800/WString.cpp:697-710 | every text is white space, the trimmed text, and white space, and the trimmed text begins and ends with none |
| WString.TrimmedIs | cores/w800/WString.cpp:697-710 | and no other text is between such ends |
| WString.WString.LastIndexOfChar | cores/w800/WString.cpp:550-560 | the last position up to the index, the terminator's for NUL, and the buffer is as it was before the cut |
| WString.WString.LastIndexOf | cores/w800/WString.cpp:566-580 | the last occurrence that starts at the index or before, overlapping ones included |
| WString.WString.Substring | cores/w800/WString.cpp:582-598 | the text between the two positions in either order unless the allocation for it was refused, and the buffer is as it was before the cut |
| WString.WString.ReplaceSame | cores/w800/WString.cpp:619-623 | overwriting in place computes the left-to-right substitution, for every text and pattern |
| WString.WString.ReplaceShorter | cores/w800/WString.cpp:624-635 | closing up in place computes the left-to-right substitution, for every text and pattern |
| WString.WString.SizeFor | cores/w800/WString.cpp:637-641 | the size added up in advance is the length of the left-to-right substitution |
| WString.WString.ReplaceLonger | cores/w800/WString.cpp:636-655 | the growing loop ends with the right-to-left substitution, which then fits, or memory ran out and the text is unchanged, or a write would leave the buffer, and then the result does not fit it |
| WString.WString.Replace | cores/w800/WString.cpp:613-656 | the three branches together for any text, pattern and replacement: the substitution, or in the growing branch the right-to-left one, no memory, or an overrun that happens only when the result does not fit; an empty text or pattern changes nothing |
| WString.FitsIffNoOverhang | cores/w800/WString.cpp:636-655 | the growing branch stays within its buffer, for all texts and capacities, exactly when no proper suffix of the pattern begins the replacement |
| WString.OverhangOverruns | cores/w800/WString.cpp:636-655 | for every other pattern there is a text that overruns, in every buffer with no more room than is made for that text |
| WString.OverrunExample | cores/w800/WString.cpp:636-655 | replacing "ab" in "aab" by thirty characters that start with b gives 59 characters in a buffer for 31 |
| WString.CleanFits | cores/w800/WString.cpp:636-655 | for a clean pattern the result fits the room made in advance and is the left-to-right substitution |
| WString.LastAfter | cores/w800/WString.cpp:572-578 | what one forward search tells about the last occurrence |
| WString.SameRest | cores/w800/WString.cpp:620-635 | a search sees only the text from where it starts, so editing before that point does not disturb it |
| Pbufs.TotLenIsBytes | cores/w800/sdk/src/network/lwip2.1.3/core/pbuf.c:852-875 | in a chain the first node's tot_len is the number of bytes of the chain, in sixteen bits |
| Pbufs.PbufCat | cores/w800/sdk/src/network/lwip2.1.3/core/pbuf.c:852-875 | two separate chains become one whose bytes are those of the first, then those of the second, with every tot_len added up in sixteen bits, also when that wraps around |
| Pbufs.ChainIs | cores/w800/sdk/src/network/lwip2.1.3/core/pbuf.c:852-875 | a chain with one owner, read from the front, is one whose nodes are all different, in use, linked in order, and counted right |
| Pbufs.PbufFree | cores/w800/sdk/src/network/lwip2.1.3/core/pbuf.c:725-800 | exactly the nodes before the first one that someone else holds go back; that one loses a reference |
| Pbufs.FreeAll | cores/w800/sdk/src/network/lwip2.1.3/core/pbuf.c:725-800 | a chain with one owner goes back as a whole |
| Pbufs.DropHead | libraries/W600WiFi/ClientContext.h:489-499 | taking a reference to the second node before freeing the first leaves the rest of the chain whole, with one owner |
| ClientContext.SpellsIs | libraries/W600WiFi/ClientContext.h:213-255 | a queue that holds the received bytes node after node is one whose bytes are the rest of those received |
| Pbufs.MakeChain | cores/w800/sdk/src/network/lwip2.1.3/core/pbuf.c:852-875 | a chain built pbuf by pbuf has these contents in order, empty ones included |
| DataSources.BufferDataSource.ReleaseBuffer | libraries/W600WiFi/DataSource.h:37-42 | exactly the released bytes leave the front of what is left |
| DataSources.BufferedStreamDataSource.GetBuffer | libraries/W600WiFi/DataSource.h:64-97 | the buffer shows the next bytes of what is left, also those read ahead earlier, and nothing is consumed |
| DataSources.BufferedStreamDataSource.ReleaseBuffer | libraries/W600WiFi/DataSource.h:99-117 | exactly the released bytes leave the front, and what was read ahead stays in step with the stream |
| DataSources.ProgmemStream.ReadBytes | libraries/W600WiFi/DataSource.h:137-144 | the next bytes of the block, as many as there are, at the given place |
| DataSources.DataSource.GetBuffer | libraries/W600WiFi/DataSource.h:8-15 | one contract for both sources: the view shows the source's bytes from the released position on |
| DataSources.DataSource.ReleaseBuffer | libraries/W600WiFi/DataSource.h:8-15 | one contract for both sources: the released position moves by exactly that much |
| ClientContext.ClientContext.Recv | libraries/W600WiFi/ClientContext.h:502-522 | the received bytes join the queue in order behind the nodes already there, empty pbufs included, nothing is lost or credited; a null pbuf, and nothing else, ends the connection; no pbuf is forgotten |
| ClientContext.ClientContext.Consume | libraries/W600WiFi/ClientContext.h:476-500 | exactly `size` bytes leave the queue, or as many as the first pbuf has left, which then goes back, so that every pbuf handed over is queued or given back; bytes credited plus bytes held in the chain stay equal to the bytes received |
| ClientContext.ClientContext.FrontByteRightIff | libraries/W600WiFi/ClientContext.h:222-264 | read() and peek() answer the next byte, whatever stands in memory, exactly when nothing is queued or the first pbuf has a byte left |
| ClientContext.ClientContext.FrontIsNext | libraries/W600WiFi/ClientContext.h:222-264 | a byte that the first pbuf has is the next one received, and without empty pbufs it has one whenever one is pending |
| ClientContext.ClientContext.Read | libraries/W600WiFi/ClientContext.h:222-231 | it moves on by one byte exactly when the first pbuf has one, and a pbuf that is used up or empty goes back |
| ClientContext.ClientContext.ReadBytes | libraries/W600WiFi/ClientContext.h:233-255 | the next bytes received, in order, across as many pbufs as it takes, as many as asked for or there are |
| ClientContext.ClientContext.Peek | libraries/W600WiFi/ClientContext.h:257-264 | the byte that a read would give |
| ClientContext.ClientContext.PeekBytes | libraries/W600WiFi/ClientContext.h:266-281 | the next bytes received, up to the end of the first pbuf; nothing is taken |
| ClientContext.ClientContext.DiscardReceived | libraries/W600WiFi/ClientContext.h:283-294 | everything queued is gone and credited |
| ClientContext.ClientContext.GetSize | libraries/W600WiFi/ClientContext.h:213-220 | the bytes received and neither read nor discarded |
| ClientContext.ClientContext.WriteSome | libraries/W600WiFi/ClientContext.h:417-457 | the bytes the stack took are the next bytes of the source, exactly as many as were released and counted: all that the window and the data allow, offered in chunks of 256, unless the stack refuses one or the connection is closed; what was taken is flushed once |
| ClientContext.ClientContext.WriteFromSource | libraries/W600WiFi/ClientContext.h:389-415 | it ends, the stack has taken exactly the first `n` bytes of the source, and flushed them; fewer than all only on a closed connection, or when the time allowed has passed since the call and since the stack last took a byte; the write itself never gives the connection up; the receiving side and its credit balance are as before |
| ClientContext.ClientContext.StillQueued | libraries/W600WiFi/ClientContext.h:389-415 | whatever the sending side does, the receiving side stays in order while its own fields and pbufs are unchanged |
| ClientContext.ClientContext.Write | libraries/W600WiFi/ClientContext.h:318-324 | the stack has taken exactly the first `n` bytes of the block, and fewer than all for the same two reasons only; the receiving side is as before |
| ClientContext.ClientContext.WriteProgmem | libraries/W600WiFi/ClientContext.h:334-341 | the same through the buffering source |
| ConnectionRuns.Step | libraries/W600WiFi/ClientContext.h:222-522 | each operation moves what it has to: a chain comes in unless the queue would reach 64 KiB, a read takes as much as is asked for or pending, a single byte whenever there is one and no empty pbuf is queued, a discard everything, a write all of its data or a part of it when the connection is closed or the time is over |
| ConnectionRuns.Run | libraries/W600WiFi/ClientContext.h:222-522 | over any interleaving of arrivals, reads, discards, writes and the end of the connection: the bytes taken and those still pending are the bytes that were pending or arrived, in order; window credit and bytes held make up all bytes received while the connection lasts; the stack has taken exactly what the writes say; no pbuf gets lost |
| ConnectionRuns.RunNew | libraries/W600WiFi/ClientContext.h:34-46 | from a new connection on, everything that arrived was taken or is pending, and the window credit accounts for it |
| ConnectionRuns.StaleRead | libraries/W600WiFi/ClientContext.h:222-231 | behind an empty pbuf read() answers whatever stands there first and the byte only then |
| UdpContext.StartIsPrefix | libraries/W600WiFi/UdpContext.h:260-262 | the difference of two tot_len fields is the number of bytes in front of a node, in any chain that sixteen bits can count |
| UdpContext.StartRightIff | libraries/W600WiFi/UdpContext.h:260-262 | for any chain, the difference is right exactly when tot_len has wrapped around as often for the node as for the first |
| UdpContext.WrapsAt64K | libraries/W600WiFi/UdpContext.h:260-262 | a chain of 64 KiB says it is empty, and the difference is below zero from the second node on |
| UdpContext.UdpContext.Append | libraries/W600WiFi/UdpContext.h:245-275 | for data of any size: all of it is pending afterwards, or the pending data is unchanged because an allocation was refused or the chain would reach 64 KiB; in that last case only sending goes on; the write position never leaves the chain, no pbuf gets lost, and the receiving side is not touched |
| UdpContext.UdpContext.Reserve | libraries/W600WiFi/UdpContext.h:326-358 | for any size: pending data and write position are unchanged, and there is room, but no more than one unit too much, or an allocation was refused, or tot_len has wrapped around and says less than the size; the receiving side is not touched |
| UdpContext.UdpContext.Send | libraries/W600WiFi/UdpContext.h:277-322 | one datagram with exactly the pending data is handed over, or none when memory ran out, also after tot_len has wrapped around; nothing is pending afterwards, every pbuf has been given back, and the receiving side is not touched |
| UdpContext.UdpContext.Recv | libraries/W600WiFi/UdpContext.h:368-391 | the arriving pbufs queue up behind those not yet presented, however many bytes they are |
| UdpContext.UdpContext.Next | libraries/W600WiFi/UdpContext.h:180-201 | the pbuf that the receiving machine calls for is presented, and the machine moves on |
| UdpContext.Inbox.NextInOrder | libraries/W600WiFi/UdpContext.h:180-201 | next() presents each pbuf once, in the order of arrival, from its beginning, and says that none is left exactly when all have been presented |
| UdpContext.Inbox.ReadInOrder | libraries/W600WiFi/UdpContext.h:213-226 | reads give the bytes of the current pbuf one after the other, as many as asked for or left |
| UdpContext.UdpContext.Read | libraries/W600WiFi/UdpContext.h:213-226 | exactly the bytes that the receiving machine calls for, from the pbuf being presented, none of the following one |
| SocketRuns.Run | libraries/W600WiFi/UdpContext.h:180-391 | over any interleaving of append, send, arrivals, next and read: each send hands over exactly what was appended since the last send, and every answer of the receiving side is the one its machine determines |
| SocketRuns.PresentedInOrder | libraries/W600WiFi/UdpContext.h:180-201 | in any run the pbufs presented are, in order and each once, those that arrived after the ones presented before |
| SocketRuns.RunNew | libraries/W600WiFi/UdpContext.h:180-391 | from a new socket on, the datagrams are those the appends and sends call for, and the pbufs presented are the first that arrived |
| DlList.Add | cores/w800/sdk/include/list.h:72-78 | the ring is the old one with the item right after the given link |
| DlList.AddTail | cores/w800/sdk/include/list.h:90-93 | the ring is the old one with the item right before the given link |
| DlList.Del | cores/w800/sdk/include/list.h:104-110 | the ring is the old one without this link, whose own pointers are null |
| DlList.EmptyMeans | cores/w800/sdk/include/list.h:122-125 | the test says that the ring has no item |
| DlList.Len | cores/w800/sdk/include/list.h:136-143 | the walk comes back after as many steps as there are items |
| DlList.Walks | cores/w800/sdk/include/list.h:22-25 | walking forward from any link visits the ring in order, walking backward in the opposite order |
| DlList.Run | cores/w800/sdk/include/list.h:56-110 | after any sequence of additions and deletions from an initialised list, the ring holds exactly the sequence of items that should be there |
| I2cBus.ObserveFrame | cores/w800/SoftwareI2C.cpp:131-151 | nine clocks within a transfer are one byte, most significant bit first, and its acknowledgement, for anyone watching the wires |
| I2cBus.SeenAll | cores/w800/SoftwareI2C.cpp:108-151 | a watcher's state tells the exact sequence of starts, bits and stops that it has seen |
| I2cBus.EdgeMeans | cores/w800/SoftwareI2C.cpp:108-140 | on a high clock a falling SDA is a start and a rising one a stop, a rising clock is a bit, and nothing else means anything |
| I2cBus.SpelledBits | cores/w800/SoftwareI2C.cpp:131-151 | the nine bits of a frame one by one: the byte from bit 7 down, then low for acknowledged |
| I2cBus.Bus.SclWrite | cores/w800/SoftwareI2C.cpp:72-74 | a rising clock shows one bit to the watcher, a falling one shows nothing and lets the slave go on |
| I2cBus.Bus.NothingMissed | cores/w800/SoftwareI2C.cpp:56-74 | what the watcher has seen is what the levels of the two wires show |
| SoftwareI2C.ByteSpelled | cores/w800/SoftwareI2C.cpp:131-140 | the bits that the shift loop puts out spell the byte |
| SoftwareI2C.SoftwareI2C.SdaSet | cores/w800/SoftwareI2C.cpp:56-64 | while SCL is low no one takes notice of SDA; while it is high a change is a start or a stop, and an input pin that becomes an output shows its old level first |
| SoftwareI2C.SoftwareI2C.SendStart | cores/w800/SoftwareI2C.cpp:108-110 | on an idle bus a watcher sees a transfer begin |
| SoftwareI2C.SoftwareI2C.SendStop | cores/w800/SoftwareI2C.cpp:118-123 | a watcher sees one more clock and a stop, and the bus is idle |
| SoftwareI2C.SoftwareI2C.SendByte | cores/w800/SoftwareI2C.cpp:131-140 | a watcher sees exactly the eight bits of the byte and neither a start nor a stop |
| SoftwareI2C.SoftwareI2C.GetAck | cores/w800/SoftwareI2C.cpp:83-100 | the answer is the slave's, and a watcher sees the same |
| SoftwareI2C.SoftwareI2C.SendByteAck | cores/w800/SoftwareI2C.cpp:148-151 | a watcher sees one frame with this byte and the slave's answer |
| SoftwareI2C.SoftwareI2C.Read | cores/w800/SoftwareI2C.cpp:226-260 | the byte is what the slave put on the wire; all but the last are acknowledged, the last is refused and ends the transfer |
| Wire.TwoWire.Write | cores/w800/Wire.cpp:136-149 | the byte is stacked unless the buffer is full |
| Wire.TwoWire.WriteArray | cores/w800/Wire.cpp:154-164 | as much of the array as there is room for is stacked, in order |
| Wire.TwoWire.EndTransmission | cores/w800/Wire.cpp:55-84 | zero exactly when every byte was acknowledged and 1 exactly when the address was not; the wires have shown exactly a start, the address and data bytes up to the first refused one, and a stop exactly on success; the clock says how many bits that was |
| Wire.TwoWire.RequestFrom | cores/w800/Wire.cpp:95-122 | the wires have shown exactly one transfer with the read address and the received bytes, all but the last acknowledged, then a second stop; the bytes are the slave's; a refused address is all that was shown; the clock says how many bits it was; the loop leaves the buffer exactly when the length is negative and the address is acknowledged |
| Wire.TwoWire.Read | cores/w800/Wire.cpp:204-212 | the received bytes come out in order, then -1 |
| Numerals.DigitsSpell | cores/w800/Print.cpp:45-51 | the digits of a number, in any base, spell it |
| Numerals.NoLeadingZero | cores/w800/Print.cpp:45-51 | only zero is written with a leading zero |
| Numerals.DigitsFit | cores/w800/Print.cpp:37-38 | a number below 2^k has at most k digits in any base, so the buffer is large enough |
| Numerals.DivisionIs | cores/w800/Print.cpp:47-49 | the quotient and remainder of the model are those of the machine's division |
| Numerals.NumeralMeans | cores/w800/Print.cpp:195-211 | reading a decimal numeral gives the number back |
| Numerals.DigitCharIs | cores/w800/Print.cpp:49-50 | the characters are 0 to 9 and then the letters in order, in upper or lower case, and beyond Z whatever follows in the character set |
| Numerals.TextAt | cores/w800/Print.cpp:45-51 | every digit has its character at its place |
| Printers.PrintNumber | cores/w800/Print.cpp:35-54 | filling the buffer from the back writes the digits in order, in decimal for a base below 2 |
| Printers.PrintLong | cores/w800/Print.cpp:195-211 | in decimal the sign and the numeral of the absolute value, for every long; base zero writes one raw byte; in other bases the digits of the two's complement in the low byte of the base |
| Printers.Reverse | cores/w800/stdlib_noniso.c:8-18 | swapping from both ends reverses the first `n` characters and touches no other |
| Printers.Ultoa | cores/w800/stdlib_noniso.c:45-64 | filling forwards and reversing leaves the terminated digits, or an empty text for a base outside 2 to 16 |
| Printers.Ltoa | cores/w800/stdlib_noniso.c:20-43 | the same with a minus sign in front of negative numbers |
| Printers.SamePrint | cores/w800/stdlib_noniso.c:45-64 | ultoa and printNumber write the same digits up to the case of the letters |
| Printers.ReversedAt | cores/w800/stdlib_noniso.c:8-18 | what reversing means, position by position |
| StreamSearch.ScanSound | cores/w800/Stream.cpp:88-114 | a successful search has just read the target |
| StreamSearch.ScanExact | cores/w800/Stream.cpp:88-114 | for a steady target the search stops right after the first occurrence, and fails exactly when there is none |
| StreamSearch.ScanMisses | cores/w800/Stream.cpp:97-105 | for every other target there is an input that contains it and is not found |
| StreamSearch.UnsteadyExample | cores/w800/Stream.cpp:97-105 | the target "aab" is not steady and is missed in "aaab" |
| StreamSearch.FindsAllIffSteady | cores/w800/Stream.cpp:88-114 | the search is right about every text exactly when the target is steady |
| StreamSearch.NoRecurrenceIsSteady | cores/w800/Stream.cpp:97-105 | a target whose first character does not come again is steady |
| StreamSearch.ScanSplits | cores/w800/Stream.cpp:88-114 | for any target and terminator the two are matched independently, and whichever is complete first decides, the target when both are |
| StreamSearch.StopsSound | cores/w800/Stream.cpp:107-111 | the terminator ends the search only when it has just been read |
| StreamSearch.StopsExact | cores/w800/Stream.cpp:107-111 | a terminator that repeats one character ends the search right after its first occurrence |
| StreamSearch.FindsAsWanted | cores/w800/Stream.cpp:88-114 | for a steady target and such a terminator: found behind the first target unless the terminator was complete before, failed behind the terminator when it was, failed at the end when there is neither |
| StreamSearch.EndsRightlyIffUniform | cores/w800/Stream.cpp:88-114 | with a terminator, every steady target is found where it should be in every text exactly when the terminator repeats one character |
| StreamSearch.NulEnds | cores/w800/Stream.cpp:95-95 | a NUL ends the search as the end of the text does, except that it is read too |
| StreamSearch.TerminatorExamples | cores/w800/Stream.cpp:107-111 | "b" is not found behind ";" in "a;b", and the terminator "ab" is missed in "aabz" |
| StreamReader.Stream.FindUntil | cores/w800/Stream.cpp:88-114 | the loop gives the search's answer and stops where it stops, with any target and any terminator |
| StreamReader.Stream.PeekNextDigit | cores/w800/Stream.cpp:47-59 | everything before the next digit or minus sign, and nothing else, has been read |
| StreamReader.Stream.ParseInt | cores/w800/Stream.cpp:125-149 | the loop computes the parsed value and stops where the number ends |
| StreamReader.AccumulateMeans | cores/w800/Stream.cpp:135-144 | the number goes on over digits and skipped characters and no further, and its value is that of the digits that were not skipped |
| StreamReader.ParsedMeans | cores/w800/Stream.cpp:125-149 | for every text and every character to skip, what value is read from where to where |
| StreamReader.ParseIntInvertsPrint | cores/w800/Stream.cpp:125-149 | the parser recovers every number that print(long) writes, behind any text without digits and minus signs, and stops behind it |
| StreamReader.ParseIntFitsIff | cores/w800/Stream.cpp:141-141 | no sum on the way leaves the range of a long exactly when the absolute value is at most 2147483599 |
| IPAddress.SplitJoins | cores/w800/IPAddress.cpp:103-111 | the fields joined by dots are the text |
| IPAddress.HopelessForGood | cores/w800/IPAddress.cpp:95-116 | once the scan gives up, nothing that follows would make the text an address |
| IPAddress.AddressIs | cores/w800/IPAddress.cpp:86-125 | any four such fields with dots between them are an address with their values |
| IPAddress.AddressParts | cores/w800/IPAddress.cpp:86-125 | and every address is four such fields |
| IPAddress.ClosedBefore | cores/w800/IPAddress.cpp:95-116 | where the scan gives up, the bytes written are those of the fields closed before that place, whatever follows |
| IPAddress.IPAddress.FromString | cores/w800/IPAddress.cpp:86-125 | it accepts exactly four dot-separated, possibly empty digit fields worth at most 255, and stores their values; a text that is refused has changed exactly the bytes of the good fields that were closed by a dot before the first bad one |
| IPAddress.IPAddress.PrintTo | cores/w800/IPAddress.cpp:173-183 | the four numbers in decimal with dots between them |
| IPAddress.DottedReadsBack | cores/w800/IPAddress.cpp:86-183 | what is printed is accepted and gives the same four bytes |

## Left out

- Client.MqttClient.Publish: asks for a topic and payload that fit a 32-bit address space; at service levels that do not exist it says which bytes go out, not what they mean.
- Client.MqttClient.Subscribe: acknowledgements are not matched to packet ids and QoS 2 is not deduplicated, because the code does neither; the cell past the array holds what was stored there, and no other effect of that store is modelled.
- WString.WString.Replace: asks that the pattern and the replacement are other objects; nothing is said about memory after a write that leaves the buffer; memcpy and strcpy over touching regions are taken as memmove.
- WString.WString.Concat: lengths of 2^32 and texts with inner NULs are not modelled.
- ClientContext.ClientContext.Recv: the bytes held stay below 2^16, as the receive window ensures; in a run a chain that would pass this does not come in.
- ClientContext.ClientContext.WriteFromSource: the counter of waiting sends only shortens delays and is not modelled; pbufs that arrive during a delay are separate steps.
- ClientContext.ClientContext.WriteProgmem: writing from an arbitrary Stream that gives fewer bytes than it announced is not modelled.
- UdpContext.UdpContext.Append: an append after one that took the chain to 64 KiB and before the next send is not modelled, because the place it writes to is then wrong.
- Pbufs.PbufCat: the payload of a pbuf is a sequence held by its node, so two pbufs that share memory are not modelled.
- Wire.TwoWire.EndTransmission: the slave leaves SDA to the master during data bits and the stop; clock stretching and recovery after a refused byte are not modelled.
- Printers.Ltoa: the most negative long is excluded, because its absolute value stays negative and the digit table is then read out of bounds.
- Printers.PrintLong: the negation of the most negative long is taken to wrap around.
- Wire.TwoWire.RequestFrom: nothing is said about memory once the loop has left the buffer.
- StreamReader.Stream.FindUntil: bytes that come after a timeout are not part of the input, so timedRead and timedPeek are taken at their contract.
- The MQTT C++ wrapper, re-entrant use of the client from its callback, and real clocks; a timer runs down by any amount between two looks.
- Floating-point printing and parsing, `sprintf`-based conversions, and the remaining `String` conversions and comparisons, which would only add easy members.
- GPIO, PWM, ADC, SPI, UART, hardware I2C, WiFi station and access point code, and lwIP beyond the three pbuf routines.

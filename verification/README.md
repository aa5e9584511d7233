# Link Kit: CoAP, secure channel and device model

A Dafny model of the core of the Aliyun Link Kit embedded client: the CoAP codec and its message
builder, the list of pending requests with its retransmission timers, request paths and tokens, the CBC
and Base64 codecs, the intrusive linked list, and the bounded stores of the device model. The loops and
in-place updates it models are methods and classes, proved against functions on values; the theorems are
about those functions, over every input and every run. What is not modelled is listed at the end.

`dafny verify dfyconfig.toml` checks all of it.

## Where to start

| file | what is proved there |
|---|---|
| `Words.dfy` | machine words, bitwise operators, stores into a buffer |
| `CoapWire.dfy` | the wire format, printing and parsing as inverses, option numbers as wrapped differences |
| `CoapMessage.dfy`, `CoapSerialize.dfy`, `CoapDeserialize.dfy` | the message record, the writer with its separate length functions, the parser |
| `Retransmit.dfy`, `RetransmitFate.dfy`, `RetransmitTime.dfy` | the retransmission machine, safety over runs, timing over runs |
| `CoapClient.dfy`, `Correlation.dfy`, `UriPath.dfy` | the client that takes those steps in place, tokens, paths |
| `LinkedList.dfy` | the pointer ring as a sequence |
| `Cbc.dfy`, `Base64.dfy` | the two byte codecs |
| `MessageCache.dfy`, `Interleaving.dfy` | the request cache with its event queue, one task and many |
| `DeviceRegistry.dfy`, `ServerKeys.dfy` | device numbers and names, server keys |
| `Subscribe.dfy`, `JsonKeys.dfy` | the retry walk over the topics, the flattening of documents |

## What the code turned out to do

Where a property one would expect is false, the model keeps the code's behaviour and the theorem gives the
exact condition:

- The builder remembers the last option number in an unsigned char, so only the last number added may
  exceed 255 (`CoapWire.DeltaExact`); the options of a request meet this (`UriPath.RequestNarrow`).
- The integer reader ORs into the caller's variable, so it has to be zero (`CoapMessage.UintReadExact`).
  Values above 65535 take four bytes even where three would do.
- A datagram that ends with its options is read correctly only because the receive buffer was cleared
  (`CoapWire.PayloadLenExact`).
- Message ids run from 1 to 65534 and are 1 from then on (`CoapClient.MsgidRepeats`).
- The test of the send list against its maximum compares two addresses, so the list has no bound and
  `count`, an unsigned char, is its length modulo 256.
- A path loses segments beyond the twelfth without an error, and its last segment is cut at 127 bytes
  (`UriPath.PathOverTheWire`, `UriPath.EmittedExact`).
- The local scheme chains its last block to the IV, which is not CBC except in one case (`Cbc.RestartIsCbc`).
- The cache tests its size outside the mutex, so k tasks can overrun the limit by k - 1
  (`Interleaving.CacheSizes`).
- The subscription loop does not reset its retry count when the filter turns an entry down
  (`Subscribe.NewEntryCount`). In the table of the sources only entry 0 carries the filtered name, and
  entry 0 has a loop of its own.
- The subscription loop tries again without counting when a URI cannot be built. It ends exactly if as
  many URIs can be built as it needs, which is at most three for each entry (`Subscribe.WalkEnds`,
  `Subscribe.NeededBound`).
- A token can be drawn and never sent, as for a path that is refused; responses are still matched
  correctly (`Correlation.ResponseCorrelation`).
- The key list tests its length before it drops weaker keys, so a full list refuses stronger ones
  (`ServerKeys.FullRefuses`), and of two equal prefixes the older key is found (`ServerKeys.AddThenFind`).
- A field name can be taken for a longer path exactly if it holds the delimiter or ends with a bracketed
  index (`JsonKeys.PlainExact`). An array index is printed into ten bytes, so the items of an array have
  distinct keys exactly up to 10^9 of them (`JsonKeys.ItoaExact`).

## Model

| member | source | states |
|---|---|---|
| CoapWire.OptionInverse | project/iot_esp32/iot_component/iotkit_alios/iotkit-embedded/coap_cloud/CoAPDeserialize_common.c:30-71 | an option as the serializer writes it, with anything behind it, does not begin with the payload marker, is parsed over exactly its own bytes, and gives back its value and the running number modulo 2^16 |
| CoapWire.OptionsInverse | project/iot_esp32/iot_component/iotkit_alios/iotkit-embedded/coap_cloud/CoAPDeserialize_common.c:73-91 | parsing a run of serialized options stops exactly at its end, whether nothing or the 0xFF marker follows, and yields one option per option written |
| CoapWire.MsgInverse | project/iot_esp32/iot_component/iotkit_alios/iotkit-embedded/coap_cloud/CoAPDeserialize_common.c:108-139 | parsing what was serialized gives the message back for every payload, 0xFF bytes included, with option numbers summed up |
| CoapWire.CodecInverse | project/iot_esp32/iot_component/iotkit_alios/iotkit-embedded/coap_cloud/CoAPDeserialize_common.c:108-139 | the whole codec: the message comes back with the numbers and values that were added if and only if every number but the last is at most 255 |
| CoapWire.PayloadLenExact | project/iot_esp32/iot_component/iotkit_alios/iotkit-embedded/coap_cloud/CoAPDeserialize_common.c:93-106 | the payload length is read correctly if and only if something follows the options or the byte behind the datagram is not 0xFF |
| CoapWire.DeltaExact | project/iot_esp32/iot_component/iotkit_alios/iotkit-embedded/coap_cloud/CoAPMessage_common.c:50-71 | wrapped prefix sums over the stored differences are the numbers added, in any order, if and only if all but the last fit the one byte the builder remembers |
| CoapWire.SortedDeltas | project/iot_esp32/iot_component/iotkit_alios/iotkit-embedded/coap_cloud/CoAPMessage_common.c:50-71 | numbers added in non-decreasing order are stored as their plain differences, the deltas of section 3.1 of RFC 7252 |
| CoapWire.HeaderFormat | project/iot_esp32/iot_component/iotkit_alios/iotkit-embedded/coap_cloud/CoAPSerialize_common.c:13-26 | the header bytes by what they are worth: version, type and token length in the first, the code, the message id high byte first |
| CoapWire.OptionFormat | project/iot_esp32/iot_component/iotkit_alios/iotkit-embedded/coap_cloud/CoAPSerialize_common.c:41-92 | an option as written is two nibbles below 15, the extensions that make them the difference and the length, and the value, with the numbers 13 and 269 of section 3.1 of RFC 7252 |
| CoapWire.ParsedFormat | project/iot_esp32/iot_component/iotkit_alios/iotkit-embedded/coap_cloud/CoAPDeserialize_common.c:30-71 | an option as read, from any bytes it fits: the difference and the length its nibbles and extensions stand for, wrapped at 16 bits, and the value behind them |
| CoapWire.PayloadFormat | project/iot_esp32/iot_component/iotkit_alios/iotkit-embedded/coap_cloud/CoAPSerialize_common.c:162-177 | a payload stands behind the byte 0xFF, an empty one leaves no byte |
| CoapMessage.UintInverse | project/iot_esp32/iot_component/iotkit_alios/iotkit-embedded/coap_cloud/CoAPMessage_common.c:94-132 | every 32-bit value is read back from the option bytes it was stored as |
| CoapMessage.UintReadExact | project/iot_esp32/iot_component/iotkit_alios/iotkit-embedded/coap_cloud/CoAPMessage_common.c:134-172 | the reader, which ORs into its result, returns the stored value for all values if and only if the result variable was zero |
| CoapMessage.UintWidth | project/iot_esp32/iot_component/iotkit_alios/iotkit-embedded/coap_cloud/CoAPMessage_common.c:94-132 | an integer is stored in no byte exactly if it is 0, in one exactly from 1 to 255, in two exactly from 256 to 65535, in four above, and the bytes are its digits to the base 256 |
| CoapMessage.UintReadValue | project/iot_esp32/iot_component/iotkit_alios/iotkit-embedded/coap_cloud/CoAPMessage_common.c:134-172 | the reader, given 0, returns the number that one to four bytes stand for, and 0 for any other length |
| Words.OrBits | project/iot_esp32/iot_component/iotkit_alios/iotkit-embedded/coap_cloud/CoAPMessage_common.c:151-163 | the bitwise or that the reader uses, bit by bit |
| CoapMessage.FirstOptAt | project/iot_esp32/iot_component/iotkit_alios/iotkit-embedded/coap_cloud/CoAPMessage_common.c:73-91 | the option a search finds is the one at the first place with the number |
| CoapMessage.CoAPMessage.ViewReal | project/iot_esp32/iot_component/iotkit_alios/iotkit-embedded/coap_cloud/CoAPMessage_common.c:274-300 | the message the theorems speak of is what stands in the fields of the record |
| CoapMessage.CoAPMessage.Init | project/iot_esp32/iot_component/iotkit_alios/iotkit-embedded/coap_cloud/CoAPMessage_common.c:274-300 | a fresh message: version 1, type ACK, no token, options or payload, difference memory zero |
| CoapMessage.CoAPMessage.TypeSet | project/iot_esp32/iot_component/iotkit_alios/iotkit-embedded/coap_cloud/CoAPMessage_common.c:197-209 | the four types are taken, any other byte is refused and changes nothing |
| CoapMessage.CoAPMessage.TokenSet | project/iot_esp32/iot_component/iotkit_alios/iotkit-embedded/coap_cloud/CoAPMessage_common.c:229-242 | a token of up to eight bytes becomes the token; a longer one is refused and changes nothing |
| CoapMessage.CoAPMessage.PayloadSet | project/iot_esp32/iot_component/iotkit_alios/iotkit-embedded/coap_cloud/CoAPMessage_common.c:262-272 | the payload becomes the bytes behind the pointer; a null pointer with a length is refused and changes nothing |
| CoapMessage.CoAPMessage.AppendOption | project/iot_esp32/iot_component/iotkit_alios/iotkit-embedded/coap_cloud/CoAPMessage_common.c:57-70 | with a free place the option is appended as a difference and the low byte of its number remembered, so the stored options stay the differences of the added ones |
| CoapMessage.CoAPMessage.StrOptionAdd | project/iot_esp32/iot_component/iotkit_alios/iotkit-embedded/coap_cloud/CoAPMessage_common.c:50-71 | appends the option while there is a free place; a full message is left alone |
| CoapMessage.CoAPMessage.UintOptionAdd | project/iot_esp32/iot_component/iotkit_alios/iotkit-embedded/coap_cloud/CoAPMessage_common.c:94-132 | the same for an integer option, whose stored value has 0, 1, 2 or 4 bytes for 0, up to 255, up to 65535 and above, and is the number highest byte first |
| CoapMessage.CoAPMessage.StrOptionGet | project/iot_esp32/iot_component/iotkit_alios/iotkit-embedded/coap_cloud/CoAPMessage_common.c:73-91 | finds the first option of the number; a value longer than the caller's buffer gives an error and no data |
| CoapMessage.CoAPMessage.UintOptionGet | project/iot_esp32/iot_component/iotkit_alios/iotkit-embedded/coap_cloud/CoAPMessage_common.c:134-172 | finds the first option of the number and returns its bytes ORed into what the caller passed |
| CoapSerialize.SerializeHeader | project/iot_esp32/iot_component/iotkit_alios/iotkit-embedded/coap_cloud/CoAPSerialize_common.c:13-26 | writes the four header bytes if they fit, and no other byte |
| CoapSerialize.SerializeToken | project/iot_esp32/iot_component/iotkit_alios/iotkit-embedded/coap_cloud/CoAPSerialize_common.c:28-39 | writes the token if it fits, and no other byte |
| CoapSerialize.SerializeOption | project/iot_esp32/iot_component/iotkit_alios/iotkit-embedded/coap_cloud/CoAPSerialize_common.c:41-92 | writes exactly the bytes of section 3.1 of RFC 7252 for the option and returns how many |
| CoapSerialize.SerializeOptions | project/iot_esp32/iot_component/iotkit_alios/iotkit-embedded/coap_cloud/CoAPSerialize_common.c:94-112 | writes all options end to end and returns the sum of their sizes |
| CoapSerialize.SerializePayload | project/iot_esp32/iot_component/iotkit_alios/iotkit-embedded/coap_cloud/CoAPSerialize_common.c:162-177 | writes the marker and the payload if both fit; nothing for an empty payload |
| CoapSerialize.SerializeMessage | project/iot_esp32/iot_component/iotkit_alios/iotkit-embedded/coap_cloud/CoAPSerialize_common.c:195-222 | the buffer holds header, token, options and payload in order, a part that does not fit left out, and every other byte is unchanged |
| CoapSerialize.WrittenExact | project/iot_esp32/iot_component/iotkit_alios/iotkit-embedded/coap_cloud/CoAPSerialize_common.c:195-222 | what is written is the whole message if and only if the message fits the buffer |
| CoapSerialize.WrittenCut | project/iot_esp32/iot_component/iotkit_alios/iotkit-embedded/coap_cloud/CoAPSerialize_common.c:195-222 | what is left out of a message that does not fit: the payload, a token that has no room behind the header, the header itself below four bytes |
| Words.SpliceAt | project/iot_esp32/iot_component/iotkit_alios/iotkit-embedded/coap_cloud/CoAPSerialize_common.c:195-222 | a write puts its bytes at its place and keeps every other byte |
| CoapSerialize.SerializeOptionLen | project/iot_esp32/iot_component/iotkit_alios/iotkit-embedded/coap_cloud/CoAPSerialize_common.c:114-138 | the size announced for an option is the number of bytes written for it, modulo 2^16 |
| CoapSerialize.SerializeOptionsLen | project/iot_esp32/iot_component/iotkit_alios/iotkit-embedded/coap_cloud/CoAPSerialize_common.c:141-159 | the sizes announced for all options add up to what is written if and only if that is below 2^16 |
| CoapSerialize.SerializeMessageLength | project/iot_esp32/iot_component/iotkit_alios/iotkit-embedded/coap_cloud/CoAPSerialize_common.c:180-193 | the announced message length is the number of bytes of the message if and only if that is below 2^16 |
| CoapDeserialize.DeserializeHeader | project/iot_esp32/iot_component/iotkit_alios/iotkit-embedded/coap_cloud/CoAPDeserialize_common.c:12-22 | splits the four header bytes into the five header fields |
| CoapDeserialize.DeserializeToken | project/iot_esp32/iot_component/iotkit_alios/iotkit-embedded/coap_cloud/CoAPDeserialize_common.c:24-28 | copies as many token bytes as the header announced |
| CoapDeserialize.DeserializeOption | project/iot_esp32/iot_component/iotkit_alios/iotkit-embedded/coap_cloud/CoAPDeserialize_common.c:30-71 | stores the parsed option at its index, returns its size and the running 16-bit number |
| CoapDeserialize.DeserializeOptions | project/iot_esp32/iot_component/iotkit_alios/iotkit-embedded/coap_cloud/CoAPDeserialize_common.c:73-91 | the option loop stores all options of the datagram and stops at the payload marker or the end |
| CoapDeserialize.DeserializePayload | project/iot_esp32/iot_component/iotkit_alios/iotkit-embedded/coap_cloud/CoAPDeserialize_common.c:93-106 | the payload is what follows the marker; with nothing left, the byte behind the datagram decides the length |
| CoapDeserialize.DeserializeMessage | project/iot_esp32/iot_component/iotkit_alios/iotkit-embedded/coap_cloud/CoAPDeserialize_common.c:108-139 | into a cleared record, a datagram becomes the message the wire format assigns to it; less than four bytes is an error |
| CoapDeserialize.UintOverTheWire | project/iot_esp32/iot_component/iotkit_alios/iotkit-embedded/coap_cloud/CoAPMessage_common.c:134-172 | an integer option comes back from the wire as the value that was added, for every 32-bit value |
| CoapDeserialize.OverTheWire | project/iot_esp32/iot_component/iotkit_alios/iotkit-embedded/coap_cloud/CoAPDeserialize_common.c:108-139 | the writer and the parser on one buffer: a built message arrives with everything it was given if and only if all its option numbers but the last are at most 255 |
| RetransmitFate.RunSafe | project/iot_esp32/iot_component/iotkit_alios/iotkit-embedded/coap_cloud/CoAPMessage.c:137-311 | over every run of sends, datagrams and cycles from a safe state: each request ever listed is still listed, answered or expired, exactly one of them; its handler ran once if answered and never otherwise; count is the list length modulo 256 |
| Retransmit.SendExact | project/iot_esp32/iot_component/iotkit_alios/iotkit-embedded/coap_cloud/CoAPMessage.c:98-134 | a sent message that is too long is dropped; else it is written, and listed with its timers exactly if the network took it and it is a request (codes 1 to 31) or a confirmable 2.05 |
| Retransmit.AckExact | project/iot_esp32/iot_component/iotkit_alios/iotkit-embedded/coap_cloud/CoAPMessage.c:137-149 | after an acknowledgement every node has its place and all its fields but the mark; a node is marked exactly if it was before or is the first with the message id |
| Retransmit.AckBytes | project/iot_esp32/iot_component/iotkit_alios/iotkit-embedded/coap_cloud/CoAPMessage.c:151-157 | the four bytes of an empty acknowledgement |
| Retransmit.RespExact | project/iot_esp32/iot_component/iotkit_alios/iotkit-embedded/coap_cloud/CoAPMessage.c:159-200 | a response (codes 64 to 191): acknowledged first if confirmable, then the first node with its non-empty token has its handler run and leaves the list, the others stay |
| Retransmit.OtherIgnored | project/iot_esp32/iot_component/iotkit_alios/iotkit-embedded/coap_cloud/CoAPMessage.c:202-241 | any other datagram changes nothing |
| Retransmit.PassExact | project/iot_esp32/iot_component/iotkit_alios/iotkit-embedded/coap_cloud/CoAPMessage.c:275-308 | a cycle over one node in numbers: count down, or double and write again while tries are left and there is no mark, then give up beyond the span or the tries |
| Retransmit.PassConcat | project/iot_esp32/iot_component/iotkit_alios/iotkit-embedded/coap_cloud/CoAPMessage.c:273-310 | a cycle over a list is the cycles over its parts, first to last |
| RetransmitFate.OneFatePerRequest | project/iot_esp32/iot_component/iotkit_alios/iotkit-embedded/coap_cloud/CoAPMessage.c:98-311 | the same from the empty context, for all timer constants |
| RetransmitFate.AcknowledgedWaits | project/iot_esp32/iot_component/iotkit_alios/iotkit-embedded/coap_cloud/CoAPMessage.c:137-149 | from a state in which all that is listed under an id is confirmable and acknowledged with tries left, no run writes or expires it |
| RetransmitTime.AcknowledgedUntilAnswered | project/iot_esp32/iot_component/iotkit_alios/iotkit-embedded/coap_cloud/CoAPMessage.c:137-311 | in every state a run reaches and every run from there: an acknowledged confirmable request is never written again and never expires; it is listed until it is answered, once, and its handler runs with the answer |
| RetransmitTime.AcknowledgementStopsWrites | project/iot_esp32/iot_component/iotkit_alios/iotkit-embedded/coap_cloud/CoAPMessage.c:137-311 | from every reachable state: once the acknowledgement of a listed confirmable request arrives that is the first with its message id, no later run writes or expires it, and it is listed until it is answered |
| RetransmitFate.RunSameBytes | project/iot_esp32/iot_component/iotkit_alios/iotkit-embedded/coap_cloud/CoAPMessage.c:267-311 | over every run all datagrams sent for one request are the same bytes |
| RetransmitTime.DoublingFits | project/iot_esp32/iot_component/iotkit_alios/iotkit-embedded/coap_cloud/CoAPMessage.c:275-279 | in every state a run reaches, doubling the time-out does not overflow its unsigned short |
| RetransmitTime.RunBackedOff | project/iot_esp32/iot_component/iotkit_alios/iotkit-embedded/coap_cloud/CoAPMessage.c:58-96 | over every run a listed confirmable request waits ACK_TIMEOUT * 2^retrans_count and its timer is at most that |
| RetransmitTime.TickRank | project/iot_esp32/iot_component/iotkit_alios/iotkit-embedded/coap_cloud/CoAPMessage.c:267-311 | every cycle lowers the rank of an unacknowledged request by one, removes it exactly at rank one, and makes the writes the rank predicts |
| RetransmitTime.PassesClosedForm | project/iot_esp32/iot_component/iotkit_alios/iotkit-embedded/coap_cloud/CoAPMessage.c:267-311 | k writes take ACK_TIMEOUT * (2^k - 1) + k cycles |
| RetransmitTime.CloudSchedule | project/iot_esp32/iot_component/iotkit_alios/iotkit-embedded/coap_cloud/CoAPMessage.c:34-40 | with the client's constants, in the small and the large build: 4 writes and 17 cycles for a confirmable request, 1 write and 11 cycles for a non-confirmable one |
| RetransmitTime.SilentRun | project/iot_esp32/iot_component/iotkit_alios/iotkit-embedded/coap_cloud/CoAPMessage.c:98-311 | whatever other requests and datagrams a run contains, a request nobody answers is listed with its remaining rank before the rank is used up, and has expired once with all predicted writes made afterwards |
| RetransmitTime.SilentRequest | project/iot_esp32/iot_component/iotkit_alios/iotkit-embedded/coap_cloud/CoAPMessage.c:98-311 | from every reachable state: a silent confirmable request is written exactly 4 times and removed on its 17th cycle, a non-confirmable one once and on its 11th |
| RetransmitTime.AnyRun | project/iot_esp32/iot_component/iotkit_alios/iotkit-embedded/coap_cloud/CoAPMessage.c:98-311 | in every run whatsoever a request is written at most as often as its timers allow, and after as many cycles as its rank it is off the list or acknowledged |
| RetransmitTime.AnyRequest | project/iot_esp32/iot_component/iotkit_alios/iotkit-embedded/coap_cloud/CoAPMessage.c:98-311 | from every reachable state and whatever follows: at most 4 writes and 17 cycles for a confirmable request, 1 write and 11 cycles for a non-confirmable one |
| CoapClient.SendNode.constructor | project/iot_esp32/iot_component/iotkit_alios/iotkit-embedded/coap_cloud/CoAPMessage.c:58-96 | the timers and retry count a new node starts with |
| CoapClient.CoapContext.constructor | project/iot_esp32/iot_component/iotkit_alios/iotkit-embedded/coap_cloud/CoAPMessage.c:42-47 | an empty list and message id 1 |
| CoapClient.CoapContext.NodesReal | project/iot_esp32/iot_component/iotkit_alios/iotkit-embedded/coap_cloud/CoAPMessage.c:58-96 | the nodes the theorems speak of are the fields of the nodes on the list |
| CoapClient.CoapContext.MessageIdGen | project/iot_esp32/iot_component/iotkit_alios/iotkit-embedded/coap_cloud/CoAPMessage.c:42-47 | the n-th call returns the n-th id: 1 to 65534, then 1 |
| CoapClient.MsgidRepeats | project/iot_esp32/iot_component/iotkit_alios/iotkit-embedded/coap_cloud/CoAPMessage.c:42-47 | two calls return the same id if and only if the later one comes after the counter has stuck and the earlier one gave 1 too |
| CoapClient.CoapContext.MessageListAdd | project/iot_esp32/iot_component/iotkit_alios/iotkit-embedded/coap_cloud/CoAPMessage.c:58-96 | the node goes to the tail and count goes up modulo 256, whatever the length of the list |
| CoapClient.CoapContext.MessageSend | project/iot_esp32/iot_component/iotkit_alios/iotkit-embedded/coap_cloud/CoAPMessage.c:98-134 | takes the send step: too long is an error, a failed write is an error and leaves the list, a request or confirmable response that was written is listed |
| CoapClient.CoapContext.AckHandle | project/iot_esp32/iot_component/iotkit_alios/iotkit-embedded/coap_cloud/CoAPMessage.c:137-149 | marks the first node with the message id, in place: the step of Retransmit.AckExact |
| CoapClient.CoapContext.AckMessageSend | project/iot_esp32/iot_component/iotkit_alios/iotkit-embedded/coap_cloud/CoAPMessage.c:151-157 | writes an empty acknowledgement and leaves the list alone |
| CoapClient.CoapContext.RespHandle | project/iot_esp32/iot_component/iotkit_alios/iotkit-embedded/coap_cloud/CoAPMessage.c:159-200 | acknowledges a confirmable response, runs the handler of the first node with the token and takes that node off |
| CoapClient.CoapContext.MessageHandle | project/iot_esp32/iot_component/iotkit_alios/iotkit-embedded/coap_cloud/CoAPMessage.c:202-241 | one datagram is parsed and handled as acknowledgement, response or neither: the run of the input it is |
| CoapClient.CoapContext.CycleNode | project/iot_esp32/iot_component/iotkit_alios/iotkit-embedded/coap_cloud/CoAPMessage.c:275-308 | the timer of one node counts down, or fires: it is doubled and the retry counted, or the node is given up |
| CoapClient.CoapContext.CycleAt | project/iot_esp32/iot_component/iotkit_alios/iotkit-embedded/coap_cloud/CoAPMessage.c:273-310 | the same on the list: given up means taken off, count lowered, expiry recorded |
| CoapClient.CoapContext.CyclePass | project/iot_esp32/iot_component/iotkit_alios/iotkit-embedded/coap_cloud/CoAPMessage.c:273-310 | the loop that takes nodes off while it walks leaves the list, count and trace the step function gives |
| CoapClient.CoapContext.MessageCycle | project/iot_esp32/iot_component/iotkit_alios/iotkit-embedded/coap_cloud/CoAPMessage.c:243-311 | the state after a cycle is that of the run over all waiting datagrams in order and one pass, so the theorems about runs apply |
| CoapClient.InputsExact | project/iot_esp32/iot_component/iotkit_alios/iotkit-embedded/coap_cloud/CoAPMessage.c:243-266 | each datagram is one input, in the order they came |
| Correlation.TokensDistinct | project/iot_esp32/iot_component/iotkit_alios/iotkit-embedded/coap_cloud/iotx_coap_api.c:232-241 | the tokens of two requests are equal if and only if the requests are a multiple of 2^32 apart |
| Correlation.TokenInverse | project/iot_esp32/iot_component/iotkit_alios/iotkit-embedded/coap_cloud/iotx_coap_api.c:768-784 | reading a token undoes its little-endian encoding |
| Correlation.TokenDigits | project/iot_esp32/iot_component/iotkit_alios/iotkit-embedded/coap_cloud/iotx_coap_api.c:232-241 | the four bytes of a token are the counter's digits to the base 256, lowest first |
| Correlation.IotxCoap.GetCoapToken | project/iot_esp32/iot_component/iotkit_alios/iotkit-embedded/coap_cloud/iotx_coap_api.c:232-241 | the k-th call encodes the k-th token and moves the counter on modulo 2^32 |
| Correlation.GetMessageToken | project/iot_esp32/iot_component/iotkit_alios/iotkit-embedded/coap_cloud/iotx_coap_api.c:768-784 | reads the first four token bytes, lowest first |
| Correlation.ResponseCorrelation | project/iot_esp32/iot_component/iotkit_alios/iotkit-embedded/coap_cloud/CoAPMessage.c:159-200 | in any run, with draws of the token counter that were never sent in between, as long as the tokens sent were drawn within 2^32 draws of each other: a response with the token of request k answers request k if it is listed, running its handler and no other, and otherwise changes nothing on the list and runs no handler |
| UriPath.JoinSegments | project/iot_esp32/iot_component/iotkit_alios/iotkit-embedded/coap_cloud/iotx_coap_api.c:548-586 | the segments are non-empty and free of slashes, and joined they are the path without repeated and trailing slashes |
| UriPath.SegmentsJoin | project/iot_esp32/iot_component/iotkit_alios/iotkit-embedded/coap_cloud/iotx_coap_api.c:548-586 | splitting a joined path gives the segments back |
| UriPath.EmittedExact | project/iot_esp32/iot_component/iotkit_alios/iotkit-embedded/coap_cloud/iotx_coap_api.c:548-586 | the splitter emits exactly the segments if and only if none is longer than 127 bytes |
| UriPath.EmittedCut | project/iot_esp32/iot_component/iotkit_alios/iotkit-embedded/coap_cloud/iotx_coap_api.c:548-586 | each piece emitted is its segment, cut at 127 bytes |
| UriPath.PiecesFitIf | project/iot_esp32/iot_component/iotkit_alios/iotkit-embedded/coap_cloud/iotx_coap_api.c:548-586 | the paths the splitter is stated for: all whose segments are at most 127 bytes long, and only paths whose segments before the last are |
| UriPath.RoomExact | project/iot_esp32/iot_component/iotkit_alios/iotkit-embedded/coap_cloud/iotx_coap_api.c:548-586 | a path option has the number 11, and the first twelve options find a place |
| UriPath.RequestExact | project/iot_esp32/iot_component/iotkit_alios/iotkit-embedded/coap_cloud/iotx_coap_api.c:600-712 | the options of a request in numbers and bytes: content format 60 for CBOR and 50 for JSON, accept 42, token, sequence number |
| UriPath.SplitPath2Option | project/iot_esp32/iot_component/iotkit_alios/iotkit-embedded/coap_cloud/iotx_coap_api.c:548-586 | the two-pointer walk adds the emitted pieces as Uri-Path options in order, as far as the twelve places go; a path over 135 bytes is refused |
| UriPath.AddRequestOptions | project/iot_esp32/iot_component/iotkit_alios/iotkit-embedded/coap_cloud/iotx_coap_api.c:600-712 | the options a request ends up with, in order, when the errors of the add functions are ignored |
| UriPath.RequestNarrow | project/iot_esp32/iot_component/iotkit_alios/iotkit-embedded/coap_cloud/iotx_coap_api.c:600-712 | of the numbers a request adds only the last can exceed 255 |
| UriPath.PathOverTheWire | project/iot_esp32/iot_component/iotkit_alios/iotkit-embedded/coap_cloud/iotx_coap_api.c:548-586 | after serializing and parsing, the Uri-Path options join to the path asked for if and only if it has at most twelve segments and none over 127 bytes |
| LinkedList.InitListHead | project/iot_esp32/iot_common/include/iot_esp_list.h:48-51 | a head alone is the ring of the empty sequence |
| LinkedList.ListEmpty | project/iot_esp32/iot_common/include/iot_esp_list.h:90-92 | empty if and only if the sequence is |
| LinkedList.ListAdd | project/iot_esp32/iot_common/include/iot_esp_list.h:100-107 | inserts between two neighbours: next still visits the sequence with the new entry at its place, prev is its inverse |
| LinkedList.AddTail | project/iot_esp32/iot_common/include/iot_esp_list.h:117-119 | appends |
| LinkedList.AddHead | project/iot_esp32/iot_common/include/iot_esp_list.h:129-131 | prepends |
| LinkedList.ListDelBetween | project/iot_esp32/iot_common/include/iot_esp_list.h:140-143 | joins the neighbours of one entry, whose own pointers stay |
| LinkedList.Del | project/iot_esp32/iot_common/include/iot_esp_list.h:153-157 | takes exactly that entry out of the sequence and poisons its pointers |
| Words.RemoveAtExact | project/iot_esp32/iot_common/include/iot_esp_list.h:153-157 | taking an element off keeps those before it and moves those behind it up by one |
| LinkedList.ForEachSafe | project/iot_esp32/iot_common/include/iot_esp_list.h:80-83 | the safe walk visits every original entry once, in order, while any subset is deleted, and leaves the ring of the others in order |
| LinkedList.KeptExact | project/iot_esp32/iot_common/include/iot_esp_list.h:80-83 | what is left is each entry that was not deleted, as often as before, and no other |
| LinkedList.KeptConcat | project/iot_esp32/iot_common/include/iot_esp_list.h:80-83 | what is left is in order: the walk over two lists end to end leaves what it leaves of each, end to end |
| LinkedList.RingExact | project/iot_esp32/iot_common/include/iot_esp_list.h:48-51 | the ring link by link: next leads from the head through all entries in order and back, prev the other way round, no entry twice |
| Cbc.CbcInverse | project/iot_esp32/iot_component/iotkit_alios/wrappers/wrapper_crypto.c:51-105 | decryption undoes encryption block by block for every invertible block cipher |
| Cbc.CbcEncConcat | project/iot_esp32/iot_component/iotkit_alios/wrappers/wrapper_crypto.c:79-105 | two calls on one handle encrypt like one call on the concatenation |
| Cbc.CbcDecConcat | project/iot_esp32/iot_component/iotkit_alios/wrappers/wrapper_crypto.c:51-77 | two calls on one handle decrypt like one call on the concatenation |
| Cbc.CbcEncBlocks | project/iot_esp32/iot_component/iotkit_alios/wrappers/wrapper_crypto.c:79-105 | each cipher block is the encryption of its plaintext block combined with the cipher block before it, the first with the IV |
| Cbc.CbcDecBlocks | project/iot_esp32/iot_component/iotkit_alios/wrappers/wrapper_crypto.c:51-77 | the same for decryption |
| Cbc.XorBlockBits | project/iot_esp32/iot_component/iotkit_alios/wrappers/wrapper_crypto.c:51-105 | blocks are combined bit by bit |
| Cbc.AesHandle.Encrypt | project/iot_esp32/iot_component/iotkit_alios/wrappers/wrapper_crypto.c:79-105 | the block loop writes the CBC encryption of the blocks, nothing else, and leaves the last cipher block in the handle |
| Cbc.AesHandle.Decrypt | project/iot_esp32/iot_component/iotkit_alios/wrappers/wrapper_crypto.c:51-77 | the block loop writes the CBC decryption and leaves the last cipher block in the handle |
| Cbc.PaddingInverse | project/iot_esp32/iot_component/iotkit_alios/iotkit-embedded/dev_model/alcs_api.c:286-368 | removing the padding undoes adding it, for every length |
| Cbc.PaddedExact | project/iot_esp32/iot_component/iotkit_alios/iotkit-embedded/dev_model/alcs_api.c:286-312 | the padded text begins with the message, is a multiple of 16, and is filled with 1 to 16 bytes each equal to their number (section 6.3 of RFC 5652) |
| Cbc.EncryptedLenLeast | project/iot_esp32/iot_component/iotkit_alios/iotkit-embedded/dev_model/alcs_api.c:430-439 | the length the caller reserves is the least multiple of 16 above the plaintext length and the length of the padded text |
| Cbc.CloudInverse | project/iot_esp32/iot_component/iotkit_alios/iotkit-embedded/coap_cloud/iotx_coap_api.c:345-413 | the cloud scheme decrypts to the plaintext for every length, and the ciphertext has the reserved length |
| Cbc.AlcsInverse | project/iot_esp32/iot_component/iotkit_alios/iotkit-embedded/dev_model/alcs_api.c:286-368 | the same for the local scheme, whose last block starts from the IV again |
| Cbc.CloudPlain | project/iot_esp32/iot_component/iotkit_alios/iotkit-embedded/coap_cloud/iotx_coap_api.c:345-370 | decrypted block by block, the cloud ciphertext is the message and that padding |
| Cbc.AlcsPlain | project/iot_esp32/iot_component/iotkit_alios/iotkit-embedded/dev_model/alcs_api.c:286-312 | the same for the local scheme |
| Cbc.RestartBlocks | project/iot_esp32/iot_component/iotkit_alios/iotkit-embedded/dev_model/alcs_api.c:286-312 | in the local scheme the last plaintext block is combined with the IV, every other one with the cipher block before it |
| Cbc.RestartDecBlocks | project/iot_esp32/iot_component/iotkit_alios/iotkit-embedded/dev_model/alcs_api.c:314-368 | the same for decryption |
| Cbc.RestartIsCbc | project/iot_esp32/iot_component/iotkit_alios/iotkit-embedded/dev_model/alcs_api.c:286-312 | restarting the last block gives ordinary CBC if and only if there is one block or the block before encrypted to the IV |
| Cbc.AesCbcEncrypt | project/iot_esp32/iot_component/iotkit_alios/iotkit-embedded/coap_cloud/iotx_coap_api.c:345-370 | writes the CBC encryption of the padded message and returns its length; decrypted, what stands in the buffer is the message followed by as many bytes as are missing, each their number |
| Cbc.AesCbcDecrypt | project/iot_esp32/iot_component/iotkit_alios/iotkit-embedded/coap_cloud/iotx_coap_api.c:372-413 | writes the plaintext without what its last byte says, ends it with a zero byte and returns its length |
| Cbc.AlcsEncrypt | project/iot_esp32/iot_component/iotkit_alios/iotkit-embedded/dev_model/alcs_api.c:286-312 | writes the local scheme's ciphertext and returns its length; decrypted, what stands in the buffer is the message followed by as many bytes as are missing, each their number |
| Cbc.AlcsDecrypt | project/iot_esp32/iot_component/iotkit_alios/iotkit-embedded/dev_model/alcs_api.c:314-368 | writes the plaintext without what its last byte says, ends it with a zero byte and returns its length |
| Cbc.AddSecureOptions | project/iot_esp32/iot_component/iotkit_alios/iotkit-embedded/dev_model/alcs_api.c:421-428 | the observe, content-format and session options are added in that order, as far as there are places |
| Cbc.SecureExact | project/iot_esp32/iot_component/iotkit_alios/iotkit-embedded/dev_model/alcs_api.c:421-428 | these options in numbers and bytes: 6 without a value, 12 with the value 42, 71 with the session number |
| Cbc.DoSecureSend | project/iot_esp32/iot_component/iotkit_alios/iotkit-embedded/dev_model/alcs_api.c:382-398 | the message is sent with its payload encrypted, from a buffer that is long enough, has its own payload back afterwards, and the answer of the network is returned |
| Cbc.InternalSecureSend | project/iot_esp32/iot_component/iotkit_alios/iotkit-embedded/dev_model/alcs_api.c:402-440 | the message gains its options and is otherwise unchanged; what is sent is that message with the encrypted payload |
| Base64.DecodeInverse | project/iot_esp32/iot_component/iotkit_alios/iotkit-embedded/dev_model/alcs_base64.c:42-132 | decoding undoes encoding for every non-empty input and the reported length is exact |
| Base64.EncodePadding | project/iot_esp32/iot_component/iotkit_alios/iotkit-embedded/dev_model/alcs_base64.c:42-76 | the padding of an encoding tells the input length modulo 3 |
| Base64.Alphabet | project/iot_esp32/iot_component/iotkit_alios/iotkit-embedded/dev_model/alcs_base64.c:12-20 | the 64 digits are those of section 4 of RFC 4648 |
| Base64.EncodeGroups | project/iot_esp32/iot_component/iotkit_alios/iotkit-embedded/dev_model/alcs_base64.c:42-76 | the k-th four digits and the k-th three bytes are the same 24-bit number, and padding stands exactly where bytes are missing |
| Base64.GroupNumber | project/iot_esp32/iot_component/iotkit_alios/iotkit-embedded/dev_model/alcs_base64.c:107-127 | any four characters are decoded to the three bytes of the same number |
| Base64.ValueExact | project/iot_esp32/iot_component/iotkit_alios/iotkit-embedded/dev_model/alcs_base64.c:25-40 | a byte that is no digit counts as zero |
| Base64.PatchedEncode | project/iot_esp32/iot_component/iotkit_alios/iotkit-embedded/dev_model/alcs_base64.c:42-76 | the encoder's two loops, digits for zero-filled groups and then padding over the end, give the encoding of section 4 of RFC 4648 |
| Base64.Base64Encode | project/iot_esp32/iot_component/iotkit_alios/iotkit-embedded/dev_model/alcs_base64.c:42-76 | writes the encoding into the first 4*ceil(n/3) bytes and no other, or refuses a buffer that is too small |
| Base64.Decoder.BuildDecodingTable | project/iot_esp32/iot_component/iotkit_alios/iotkit-embedded/dev_model/alcs_base64.c:25-40 | after the first use the table inverts the digit table |
| Base64.Decoder.Base64Decode | project/iot_esp32/iot_component/iotkit_alios/iotkit-embedded/dev_model/alcs_base64.c:78-132 | accepts a multiple of four that fits the output, writes the decoded bytes and no other, and reports their number |
| MessageCache.TickFresh | project/iot_esp32/iot_component/iotkit_alios/iotkit-embedded/dev_model/dm_message_cache.c:151-176 | after a tick every entry left is between 0 and 9999 ms old, even if the clock went back |
| MessageCache.TickPlaces | project/iot_esp32/iot_component/iotkit_alios/iotkit-embedded/dev_model/dm_message_cache.c:151-176 | each entry has its own place, in list order: one under 10000 ms old stays, with a creation time ahead of the clock pulled back to it, any other raises its event once |
| MessageCache.TickPartition | project/iot_esp32/iot_component/iotkit_alios/iotkit-embedded/dev_model/dm_message_cache.c:151-176 | no entry is lost or doubled by a tick |
| MessageCache.TickIdempotent | project/iot_esp32/iot_component/iotkit_alios/iotkit-embedded/dev_model/dm_message_cache.c:151-176 | a second tick at the same time changes nothing and raises nothing |
| MessageCache.TicksFilter | project/iot_esp32/iot_component/iotkit_alios/iotkit-embedded/dev_model/dm_message_cache.c:151-176 | over any list and any sequence of clock readings: what is left is, in order, exactly the entries for which each reading is within ten seconds of the earliest time seen so far, with that time |
| MessageCache.RunConserves | project/iot_esp32/iot_component/iotkit_alios/iotkit-embedded/dev_model/dm_message_cache.c:73-176 | over every run of inserts, removes and ticks: inserted = listed + removed + timed out, at most MAXLEN listed |
| MessageCache.OfferedConcat | project/iot_esp32/iot_component/iotkit_alios/iotkit-embedded/dev_model/dm_ipc.c:77-108 | offering events to the bounded queue in two batches or in one makes no difference |
| MessageCache.OfferedExact | project/iot_esp32/iot_component/iotkit_alios/iotkit-embedded/dev_model/dm_ipc.c:77-108 | the queue keeps what it has in front and takes the events in order, as many as there are free places |
| MessageCache.Cache.CacheInsert | project/iot_esp32/iot_component/iotkit_alios/iotkit-embedded/dev_model/dm_message_cache.c:73-102 | appends unless the size is at its limit |
| MessageCache.Cache.EntriesReal | project/iot_esp32/iot_component/iotkit_alios/iotkit-embedded/dev_model/dm_message_cache.c:73-102 | the entries the theorems speak of are the fields of the nodes on the list, dmc_list_size their number |
| MessageCache.Cache.Search | project/iot_esp32/iot_component/iotkit_alios/iotkit-embedded/dev_model/dm_message_cache.c:104-124 | finds the first node of a positive message id; a result pointer that is already set is refused |
| MessageCache.Cache.CacheRemove | project/iot_esp32/iot_component/iotkit_alios/iotkit-embedded/dev_model/dm_message_cache.c:126-149 | takes the first node of the message id off, or fails and changes nothing |
| MessageCache.Cache.CacheTick | project/iot_esp32/iot_component/iotkit_alios/iotkit-embedded/dev_model/dm_message_cache.c:151-176 | the walk leaves the fresh entries in order, dmc_list_size their number, and the queue keeps its elements in front and gains the timeout events in list order, exactly as many as it has free places |
| MessageCache.IpcQueue.MsgInsert | project/iot_esp32/iot_component/iotkit_alios/iotkit-embedded/dev_model/dm_ipc.c:77-108 | succeeds exactly below max_size and then appends the element; otherwise the queue is unchanged |
| MessageCache.IpcQueue.SizeReal | project/iot_esp32/iot_component/iotkit_alios/iotkit-embedded/dev_model/dm_ipc.c:77-108 | the size field is the number of elements listed |
| MessageCache.IpcQueue.MsgNext | project/iot_esp32/iot_component/iotkit_alios/iotkit-embedded/dev_model/dm_ipc.c:110-135 | hands out the oldest element, or nothing from an empty queue or to a pointer that is already set |
| Interleaving.CacheBound | project/iot_esp32/iot_component/iotkit_alios/iotkit-embedded/dev_model/dm_message_cache.c:73-102 | with k tasks whose test and append interleave in any way, at most MAXLEN + k - 1 entries are listed or about to be, and conservation holds |
| Interleaving.CacheSizes | project/iot_esp32/iot_component/iotkit_alios/iotkit-embedded/dev_model/dm_message_cache.c:73-102 | the list sizes k tasks can reach are exactly those up to MAXLEN + k - 1 |
| Interleaving.NextExact | project/iot_esp32/iot_component/iotkit_alios/iotkit-embedded/dev_model/dm_message_cache.c:73-102 | the steps in plain terms: a task that finds less than 50 entries appends its entry later, whatever happens in between |
| Interleaving.QueueBound | project/iot_esp32/iot_component/iotkit_alios/iotkit-embedded/dev_model/dm_ipc.c:77-135 | with any number of tasks the queue never exceeds max_size and hands out what it accepted, in that order |
| Interleaving.CalledExact | project/iot_esp32/iot_component/iotkit_alios/iotkit-embedded/dev_model/dm_ipc.c:77-135 | a put below the bound is accepted at the end and at the bound it changes nothing; a get takes the oldest element |
| DeviceRegistry.RunSound | project/iot_esp32/iot_component/iotkit_alios/iotkit-embedded/dev_model/dm_manager.c:213-300 | over every run of create and destroy: numbers strictly rise along the list and stay below the counter, key and name pairs are distinct, the local node stays first and unchanged |
| DeviceRegistry.LookupsInverse | project/iot_esp32/iot_component/iotkit_alios/iotkit-embedded/dev_model/dm_manager.c:39-79 | searching by number and by key and name find each device at its own place, so each undoes the other |
| DeviceRegistry.NeverReused | project/iot_esp32/iot_component/iotkit_alios/iotkit-embedded/dev_model/dm_manager.c:32-37 | a number given up never comes back |
| DeviceRegistry.DestroyExact | project/iot_esp32/iot_component/iotkit_alios/iotkit-embedded/dev_model/dm_manager.c:267-300 | destroying a number takes the device that has it off, and no other; a number once given out is absent afterwards |
| DeviceRegistry.DestroyedForever | project/iot_esp32/iot_component/iotkit_alios/iotkit-embedded/dev_model/dm_manager.c:213-300 | a destroyed number stays absent over every later run |
| DeviceRegistry.CreateThenDestroy | project/iot_esp32/iot_component/iotkit_alios/iotkit-embedded/dev_model/dm_manager.c:213-300 | destroying what was just created restores the list; creating it again gives a new number |
| DeviceRegistry.WalkEnumerates | project/iot_esp32/iot_component/iotkit_alios/iotkit-embedded/dev_model/dm_manager.c:336-358 | asking for the next number from the local node on visits every device exactly once, in list order, and ends |
| DeviceRegistry.Manager.constructor | project/iot_esp32/iot_component/iotkit_alios/iotkit-embedded/dev_model/dm_manager.c:155-196 | the local node alone, number 0, not yet authorized, counter 1 |
| DeviceRegistry.Manager.FindByDevid | project/iot_esp32/iot_component/iotkit_alios/iotkit-embedded/dev_model/dm_manager.c:39-56 | the first node with the number |
| DeviceRegistry.Manager.FindByPkdn | project/iot_esp32/iot_component/iotkit_alios/iotkit-embedded/dev_model/dm_manager.c:58-79 | the first node with the key and name |
| DeviceRegistry.Manager.DeviceCreate | project/iot_esp32/iot_component/iotkit_alios/iotkit-embedded/dev_model/dm_manager.c:213-265 | bad lengths or null pointers are refused; a known key and name fails and reports the number it has; otherwise the device is appended under the next number |
| DeviceRegistry.Manager.DeviceDestroy | project/iot_esp32/iot_component/iotkit_alios/iotkit-embedded/dev_model/dm_manager.c:267-300 | succeeds if and only if the number is positive and listed, and then exactly the devices with other numbers are left; the local node cannot be destroyed |
| DeviceRegistry.Manager.DeviceNumber | project/iot_esp32/iot_component/iotkit_alios/iotkit-embedded/dev_model/dm_manager.c:302-313 | the length of the list |
| DeviceRegistry.Manager.GetDevidByIndex | project/iot_esp32/iot_component/iotkit_alios/iotkit-embedded/dev_model/dm_manager.c:315-334 | the number at the index, errors for an index below or beyond the list |
| DeviceRegistry.Manager.GetNextDevid | project/iot_esp32/iot_component/iotkit_alios/iotkit-embedded/dev_model/dm_manager.c:336-358 | the number after the given one, failure for the last and for unknown ones |
| Subscribe.WalkCovers | project/iot_esp32/iot_component/iotkit_alios/iotkit-embedded/dev_model/dm_client.c:120-153 | with a steady filter every matching entry left behind was subscribed after fewer than 3 failures, turned down once, or tried exactly 3 times, others were not tried; and the retry count is 0 whenever a new entry is reached |
| Subscribe.FinishedExact | project/iot_esp32/iot_component/iotkit_alios/iotkit-embedded/dev_model/dm_client.c:120-153 | the same in plain terms: no bit of the device type in common, no call; the filtered name with the filter on, one refusal; otherwise a success after at most two failures, or three failures |
| Subscribe.RoundsAnswered | project/iot_esp32/iot_component/iotkit_alios/iotkit-embedded/dev_model/dm_client.c:120-153 | every subscription of the walk is in the trace with the answer it got, in order |
| Subscribe.FirstAnswered | project/iot_esp32/iot_component/iotkit_alios/iotkit-embedded/dev_model/dm_client.c:86-108 | the same for entry 0 |
| Subscribe.NewEntryCount | project/iot_esp32/iot_component/iotkit_alios/iotkit-embedded/dev_model/dm_client.c:120-153 | on moving on, the retry count is 0 unless the filter turned the entry down after a failed try of it |
| Subscribe.UnsteadyShortens | project/iot_esp32/iot_component/iotkit_alios/iotkit-embedded/dev_model/dm_client.c:137-141 | a filter that changes its mind gives the next entry fewer than 3 tries: a concrete run |
| Subscribe.WalkEnds | project/iot_esp32/iot_component/iotkit_alios/iotkit-embedded/dev_model/dm_client.c:120-153 | in every world: the walk ends if and only if, from where it starts, as many URIs can ever be built as it needs |
| Subscribe.NeededBound | project/iot_esp32/iot_component/iotkit_alios/iotkit-embedded/dev_model/dm_client.c:120-153 | it needs at most 3 for each entry that is left |
| Subscribe.EndsUnlessStuck | project/iot_esp32/iot_component/iotkit_alios/iotkit-embedded/dev_model/dm_client.c:120-153 | the same said of its rounds: it ends if and only if, whenever it waits for a URI, one can still be built |
| Subscribe.StuckWithoutUri | project/iot_esp32/iot_component/iotkit_alios/iotkit-embedded/dev_model/dm_client.c:130-135 | if none can be built any more, a waiting walk stays at its entry for ever |
| Subscribe.FirstTries | project/iot_esp32/iot_component/iotkit_alios/iotkit-embedded/dev_model/dm_client.c:86-108 | entry 0 is tried at most 3 times and not after a success |
| Subscribe.FirstCalls | project/iot_esp32/iot_component/iotkit_alios/iotkit-embedded/dev_model/dm_client.c:86-108 | entry 0 makes one call for each URI that is built, the refusal exactly if it carries the filtered name and the filter, asked once for each call, is on |
| Subscribe.FirstExact | project/iot_esp32/iot_component/iotkit_alios/iotkit-embedded/dev_model/dm_client.c:86-108 | with URIs at hand and no filter in the way, entry 0 is tried like the others |
| Subscribe.FirstEntry | project/iot_esp32/iot_component/iotkit_alios/iotkit-embedded/dev_model/dm_client.c:86-108 | the counted loop makes the calls of the step function |
| Subscribe.WalkRound | project/iot_esp32/iot_component/iotkit_alios/iotkit-embedded/dev_model/dm_client.c:120-153 | one turn of the loop that steps its index back to try an entry again |
| Subscribe.Walk | project/iot_esp32/iot_component/iotkit_alios/iotkit-embedded/dev_model/dm_client.c:120-153 | the loop, in every world in which it ends |
| Subscribe.SubscribeAll | project/iot_esp32/iot_component/iotkit_alios/iotkit-embedded/dev_model/dm_client.c:72-160 | the whole procedure, in every world in which it ends: on a table whose only filtered name is that of entry 0, every matching entry from 1 on was subscribed or tried exactly 3 times, the others not at all, and the answers recorded are those that were given |
| ServerKeys.RunSound | project/iot_esp32/iot_component/iotkit_alios/iotkit-embedded/dev_model/alcs_server.c:307-397 | over every run of add and remove all keys have one priority and are at most 10; without removals the priority never falls |
| ServerKeys.AddExact | project/iot_esp32/iot_component/iotkit_alios/iotkit-embedded/dev_model/alcs_server.c:327-369 | on a list of one priority an add does nothing, appends, or starts afresh with the new key |
| ServerKeys.FullRefuses | project/iot_esp32/iot_component/iotkit_alios/iotkit-embedded/dev_model/alcs_server.c:334-336 | a full list refuses every key, stronger ones too, over any run of adds |
| ServerKeys.AddThenFind | project/iot_esp32/iot_component/iotkit_alios/iotkit-embedded/dev_model/alcs_server.c:142-149 | an accepted key is the first with its prefix if and only if no stored key of its priority has the prefix |
| ServerKeys.AddThenLookup | project/iot_esp32/iot_component/iotkit_alios/iotkit-embedded/dev_model/alcs_server.c:113-167 | what the whole lookup then gives: refusal if the sequence is revoked, else the accepted key or the older one with its prefix |
| ServerKeys.LookupExact | project/iot_esp32/iot_component/iotkit_alios/iotkit-embedded/dev_model/alcs_server.c:113-167 | the lookup in plain terms: revoked exactly if the sequence stands at a multiple of three in the revocation text; then no server keys, the first server key with the prefix, the first group key with it, or nothing |
| ServerKeys.KeyList.IsLegalKey | project/iot_esp32/iot_component/iotkit_alios/iotkit-embedded/dev_model/alcs_server.c:113-167 | revoked sequences first, then an empty list, then the first server key with the prefix, then the first group key |
| ServerKeys.AddThenRemove | project/iot_esp32/iot_component/iotkit_alios/iotkit-embedded/dev_model/alcs_server.c:327-397 | removing a prefix just added leaves the keys as they were, or none if weaker ones were dropped |
| ServerKeys.RemoveExact | project/iot_esp32/iot_component/iotkit_alios/iotkit-embedded/dev_model/alcs_server.c:378-397 | removing a prefix takes the first key with it off and no other, or changes nothing |
| ServerKeys.AtLeastExact | project/iot_esp32/iot_component/iotkit_alios/iotkit-embedded/dev_model/alcs_server.c:307-325 | dropping weaker keys keeps each key of at least the priority as often as it was there, and no other |
| ServerKeys.AtLeastConcat | project/iot_esp32/iot_component/iotkit_alios/iotkit-embedded/dev_model/alcs_server.c:307-325 | in order |
| ServerKeys.KeyList.RemoveLowPriorityKey | project/iot_esp32/iot_component/iotkit_alios/iotkit-embedded/dev_model/alcs_server.c:307-325 | leaves the keys of at least the priority, in order, svr_count their number |
| ServerKeys.KeyList.AddSvrKey | project/iot_esp32/iot_component/iotkit_alios/iotkit-embedded/dev_model/alcs_server.c:327-369 | the new list and the three results: length or limit, stronger key present, added |
| ServerKeys.KeyList.CountReal | project/iot_esp32/iot_component/iotkit_alios/iotkit-embedded/dev_model/alcs_server.c:327-369 | svr_count is the number of keys listed, at most 10 |
| ServerKeys.KeyList.RemoveSvrKey | project/iot_esp32/iot_component/iotkit_alios/iotkit-embedded/dev_model/alcs_server.c:378-397 | takes the first key with the prefix off |
| JsonKeys.FieldsFlatten | project/iot_esp32/iot_component/iotkit_alios/iotkit-embedded/dev_model/dm_message.c:2214-2265 | what is set for an object is each leaf of it, in document order, under the key of its path |
| JsonKeys.ItemsFlatten | project/iot_esp32/iot_component/iotkit_alios/iotkit-embedded/dev_model/dm_message.c:2267-2326 | the same for an array |
| JsonKeys.LeavesExact | project/iot_esp32/iot_component/iotkit_alios/iotkit-embedded/dev_model/dm_message.c:2214-2326 | whatever the document, the list of leaves holds every path to a number or string exactly once, and nothing else |
| JsonKeys.KeyInjective | project/iot_esp32/iot_component/iotkit_alios/iotkit-embedded/dev_model/dm_message.c:2214-2326 | two leaves never share a key in a document whose objects have distinct names without the delimiter or a bracketed index at their end, and whose arrays have at most 10^9 items |
| JsonKeys.KeyExact | project/iot_esp32/iot_component/iotkit_alios/iotkit-embedded/dev_model/dm_message.c:2225-2301 | the key of a path grows step by step: a name behind a dot unless it comes first, an index in brackets |
| JsonKeys.PlainExact | project/iot_esp32/iot_component/iotkit_alios/iotkit-embedded/dev_model/dm_message.c:2225-2243 | a name can be taken for another path, by some document, if and only if it holds the delimiter or ends with a bracketed index |
| JsonKeys.DelimiterCollides | project/iot_esp32/iot_component/iotkit_alios/iotkit-embedded/dev_model/dm_message.c:2240-2243 | for every name with a delimiter in it there is a document in which two leaves share a key |
| JsonKeys.BracketCollides | project/iot_esp32/iot_component/iotkit_alios/iotkit-embedded/dev_model/dm_message.c:2293-2301 | the same for every name that ends with a bracketed index, against any array with that index |
| JsonKeys.ItoaExact | project/iot_esp32/iot_component/iotkit_alios/iotkit-embedded/dev_model/dm_utils.c:125-147 | the indices of an array all print differently if and only if there are at most 10^9 of them |
| JsonKeys.ItoaInjective | project/iot_esp32/iot_component/iotkit_alios/iotkit-embedded/dev_model/dm_utils.c:125-147 | index texts differ below 10^9 |
| JsonKeys.ItoaCollides | project/iot_esp32/iot_component/iotkit_alios/iotkit-embedded/dev_model/dm_utils.c:134-134 | from ten digits on the text loses its last digit |
| JsonKeys.DecimalReads | project/iot_esp32/iot_component/iotkit_alios/iotkit-embedded/dev_model/dm_utils.c:125-147 | the text of a number is its decimal digits without a leading zero |
| JsonKeys.ItoaReads | project/iot_esp32/iot_component/iotkit_alios/iotkit-embedded/dev_model/dm_utils.c:125-147 | up to nine digits the index text is the number, of a longer one the first nine digits are kept |
| JsonKeys.SetAllVisits | project/iot_esp32/iot_component/iotkit_alios/iotkit-embedded/dev_model/dm_message.c:2259-2262 | all leaves are visited if and only if the shadow refuses none; otherwise the visits end with the first refusal |
| JsonKeys.DocumentStored | project/iot_esp32/iot_component/iotkit_alios/iotkit-embedded/dev_model/dm_message.c:2214-2326 | after an accepted document the shadow holds, under the key of each path, the leaf the path leads to |
| JsonKeys.AnswerExact | project/iot_esp32/iot_component/iotkit_alios/iotkit-embedded/dev_model/dm_message.c:2129-2212 | a number goes under the five number types and a text under the two text types; it is refused without the key or if the setter fails |
| JsonKeys.Device.SetNumber | project/iot_esp32/iot_component/iotkit_alios/iotkit-embedded/dev_model/dm_message.c:2129-2171 | a number is stored under a key of one of the five number types, of no use under another type, refused without the key |
| JsonKeys.Device.SetString | project/iot_esp32/iot_component/iotkit_alios/iotkit-embedded/dev_model/dm_message.c:2173-2212 | the same for a text under the two text types |
| JsonKeys.Device.SetObject | project/iot_esp32/iot_component/iotkit_alios/iotkit-embedded/dev_model/dm_message.c:2214-2265 | the recursive loop sets the flattened object up to the first refusal and reports whether there was one |
| JsonKeys.Device.SetArray | project/iot_esp32/iot_component/iotkit_alios/iotkit-embedded/dev_model/dm_message.c:2267-2326 | the same for an array |

## Left out

- CoapDeserialize.DeserializeMessage: for datagrams whose options keep to their declared lengths and number at most twelve, because the parser trusts those lengths and does not count; less than four bytes is handled.
- CoapDeserialize.DeserializeToken: for a token length up to the eight bytes of the field, which the parser does not check.
- CoapDeserialize.DeserializeOption: the value is a copy; in the source it points into the receive buffer.
- CoapDeserialize.DeserializeOptions: the same datagrams.
- CoapSerialize.SerializeOptions: for options that fit the buffer and 16 bits.
- CoapSerialize.SerializeMessage: for options that fit the buffer, because the writer of options does not look at the space left.
- CoapMessage.CoAPMessage.PayloadSet: the payload is a value; the source keeps the caller's pointer.
- CoapDeserialize.DeserializePayload: a datagram that fills the receive buffer and ends with its options has no byte behind it to look at; with a payload such a datagram is handled.
- CoapClient.CoapContext.MessageSend: for messages below 2^16 bytes; the announced length of a longer one wraps, so it can pass the size test and be written without its payload.
- CoapClient.CoapContext.MessageHandle: the event notifications; datagrams as for the parser.
- CoapClient.CoapContext.MessageCycle: what the network hands over is a parameter, and one answer stands for all writes of acknowledgements.
- UriPath.SplitPath2Option: for paths whose inner segments fit the local buffer of the source, because it copies them without a bound.
- UriPath.EmittedExact: the same paths.
- UriPath.PathOverTheWire: the same paths.
- UriPath.AddRequestOptions: the same paths; the signature, sequence and authentication token are parameters.
- Cbc.AesCbcEncrypt: the cipher calls on whole blocks succeed; so for the other calls into the block cipher.
- Cbc.AlcsEncrypt: the same.
- Cbc.AesCbcDecrypt: for whole blocks whose last plaintext byte is below 0x80 and not above the length; beyond that the source writes outside the text, and from 0x80 on it depends on the sign of a char. Source and destination may be the same buffer there.
- Cbc.AlcsDecrypt: the same.
- Cbc.InternalSecureSend: the response handler that is wrapped before sending.
- MessageCache.IpcQueue.MsgInsert: the refusal of a null element.
- Base64.Decoder.Base64Decode: for non-empty input; with none the source reads before the buffer.
- Base64.Base64Encode: for inputs whose encoded length fits 32 bits.
- DeviceRegistry.Manager.DeviceCreate: the number counter is unbounded; availability and shadow of a device are not modelled.
- Subscribe.SubscribeAll: the persisted subscription flag.
- JsonKeys.Device.SetNumber: the conversion of the number text to the stored type, and its rounding to a float.
- JsonKeys.Device.SetObject: the document is a tree, some items of which may be unreadable; the JSON text parser is not part of this model.
- ServerKeys.KeyList.IsLegalKey: the list of group keys is a parameter.
- Sockets, TLS, clocks and the network: parameters, or a trace of what was written.
- Allocation failures, logging and formatting of messages.
- AES, HMAC and MD5 themselves: an abstract block cipher with its inverse stands for AES. CFB mode is not modelled.
- Handlers that call back into the client, such as the authentication callback.
- The authentication handshake of client and server as an agreement: the two sides do not sign the same bytes.
- The lists of the stores and of the client are sequences; LinkedList relates the pointer structure to them.
- The second copies of the CoAP files and of the path splitter, which hold the same code.

# go-pvaccess: verification model

go-pvaccess is a pvAccess server. This project models the parts of it that carry its correctness and proves what they
promise: the self-describing codec of `pvdata/values.go`, message headers, requests and responses of
`internal/proto/proto.go`, the framing of a connection in `internal/connection/connection.go`, the delivery of values
from `SimpleChannel` through a watcher and a monitor to the client (`channels.go`,
`internal/server/monitor/monitor.go`), and the request table of a server connection (`server.go`).

`dafny verify dfyconfig.toml` checks everything.

## How it is built

| file | content |
|---|---|
| `Bytes.dfy`, `Sizes.dfy`, `BitSet.dfy` | fixed-width integers in both byte orders, sizes and text, bit sets |
| `Values.dfy`, `Partial.dfy` | values, leaves, nested structures, partial structures and structure differences |
| `Descriptors.dfy`, `Variant.dfy`, `Naming.dfy` | introspection data, zero values, self-describing values and the names they may have |
| `Records.dfy`, `Proto.dfy` | statuses, message structures, header, requests |
| `Encoder.dfy`, `Decoder.dfy` | `EncoderState` and `DecoderState`: the methods that write and read, with their mutable state |
| `Framing.dfy`, `Connection.dfy`, `Exchange.dfy` | the incoming stream, the connection object, two connections together |
| `Monitor.dfy`, `Channels.dfy`, `Waiting.dfy` | the monitor over its history of calls; channel, watcher, monitor and client as one system; a watcher asleep on its condition variable |
| `Requests.dfy`, `Server.dfy` | requests and executions as a step system; the objects and the table changed in place |
| `Specimens.dfy` | bytes written out, many of them those the repository's tests expect |

Each operation appears as a function, whose properties are lemmas, and, where the program works by changing state, as a
method proved to compute that function (`Follows` ties a decode method to its function, errors included). A value is a
tree of leaves, arrays of leaves and named fields; a scalar is the bit pattern of its Go value. A negative length
from the wire, where Go panics, is the fault `Panic`, as are the panics of `createZero`. Concurrency is modelled by one atomic step per mutex-protected
body, in any interleaving.

Where the code does not keep what one would expect of it, the exact condition is proved, or a run is given:

- An array with a 16-bit length of 65536 or more elements does not come back (`Values.ShortArrayExact`).
- Descriptors of bounded strings, structure and union arrays and lone IDs are not read back as written
  (`Descriptors.DescExact`), so the descriptor of a value comes back exactly when no bounded string is in it
  (`Variant.DescOfExact`).
- Decoding a descriptor never resets what the receiver already holds: over a prepared one it comes back exactly when
  that one is clear (`Descriptors.DescOverExact`).
- A status of type byte 0xFF does not come back (`Records.StatusRoundTrip`), nor does a creation request for 32768 or
  more channels; one with a name over 500 bytes is not sent (`Proto.CreateRequestRoundTrip`).
- A client may get the older initial value of a monitored channel behind a newer one (`Channels.LateInitialValue`);
  otherwise, and only then, it sees versions in order (`Channels.ClientSeesHistory`).
- A cancelled watcher sleeps on if the broadcast for its cancellation falls between its look at the context and `Wait`
  (`Waiting.StrandedExactly`).
- A completing execution may remove a newer request from the table instead of its own
  (`Requests.CompletionRemovesAnother`).
- A request cancelled while nothing is running never executes again (`Requests.WithdrawnForGood`).

The comment on structure decoding (`pvdata/values.go:601-602`) leaves open whether a structure's bit covers the fields
of its child structures. In the code it does not: a leaf is read for its own bit or that of its immediate structure
(`Partial.WalkIsFlat`).

## Model

| member | source | states |
|---|---|---|
| Bytes.PutGet | pvdata/values.go:35-49 | An unsigned integer written in n bytes in either byte order is what reading those bytes yields. |
| Bytes.ReadWritten | pvdata/values.go:75-95 | Reading n bytes at the front of any stream yields the integer written there and leaves the rest. |
| Sizes.SizeRoundTrip | pvdata/values.go:123-169 | Every size from -1 on comes back from the front of any stream in both byte orders, across the 1, 5 and 13 byte forms; anything below -1 comes back as -1. |
| Sizes.SizePrefixFree | pvdata/values.go:123-169 | No encoded size is a prefix of another: equal streams start with equal sizes and go on equally. |
| Sizes.TextRoundTrip | pvdata/values.go:497-515 | Every string comes back, whatever follows it. |
| Specimens.SizeBytes | pvdata/values_test.go:42-45 | The bytes of -1, 0, 253 and 254 in both byte orders. |
| Specimens.SizeForms | pvdata/values.go:123-141 | The three forms of a size with their limits and bytes written out. |
| Specimens.SizeRead | pvdata/values.go:142-169 | How each first byte of a size is read, the 64-bit form as a signed integer. |
| Specimens.NullLengths | pvdata/values.go:441-448 | A null length is a panic in front of a string, array elements or field descriptors, and no bits for a bit set. |
| Values.ScalarBytes | pvdata/values.go:175-361 | Each of the eleven scalar kinds takes exactly 1, 2, 4 or 8 bytes, the number written out. |
| Values.ScalarRead | pvdata/values.go:181-358 | Reading each kind consumes exactly that many bytes or finds the stream too short; a Boolean is true for any byte but zero. |
| Specimens.ByteBytes | pvdata/values_test.go:47-56 | The bytes of Booleans and 8-bit integers. |
| Specimens.ShortBytes | pvdata/values_test.go:57-61 | The bytes of 16-bit integers in both byte orders. |
| Specimens.IntBytes | pvdata/values_test.go:62-71 | The bytes of 32-bit integers and a float. |
| Specimens.LongBytes | pvdata/values_test.go:67-72 | The bytes of 64-bit integers and a double. |
| Specimens.ArrayBytes | pvdata/values_test.go:73-74 | The bytes of a variable and of a fixed array. |
| Specimens.ShortArrayBytes | pvdata/values_test.go:89-92 | The bytes of an array with a 16-bit length. |
| Specimens.StatusBytes | pvdata/values_test.go:80-81 | The bytes of an OK and of a fatal status. |
| Specimens.BitSetBytes | pvdata/values_test.go:93-95 | The bytes of bit sets shorter than a byte. |
| Specimens.EightByteBitSets | pvdata/values_test.go:99-102 | The bytes of the sets of bit 56 and of bit 64 alone, with the eight-byte group in both byte orders. |
| BitSet.BitSetRoundTrip | pvdata/values.go:804-879 | Every bit set comes back without its trailing falses, in both byte orders, whatever follows it. |
| BitSet.TrimGet | pvdata/values.go:797-802 | Losing trailing falses is invisible to Get at every index. |
| BitSet.TrimUnique | pvdata/values.go:846-877 | Cutting behind the last bit that is set gives the one list without trailing falses. |
| BitSet.BitSetLayout | pvdata/values.go:804-836 | Exactly ceil(n/8) bytes follow the size; in little-endian order they are the naive packing, eight bits a byte. |
| BitSet.BitPosition | pvdata/values.go:809-834 | In either byte order, bit k sits in byte k/8 at place k%8, that byte being mirrored inside its group of eight when the group is full and the order big-endian. |
| BitSet.SingleBit | pvdata/values_test.go:96-103 | The encoding of any one bit alone: all bytes zero but one, at its place in the byte order. |
| BitSet.FirstGroup | pvdata/values.go:811-820 | The packing of the first 64 bits is one 64-bit integer in the byte order. |
| BitSet.UnpackGroup | pvdata/values.go:849-862 | Shifting the bits out of one 64-bit integer undoes one group. |
| Encoder.EncoderState.EncodeBitSet | pvdata/values.go:804-836 | The two nested loops write the specified layout behind what was there. |
| Encoder.EncoderState.EncodeLastBytes | pvdata/values.go:822-832 | The loop over the last bytes writes the packing of the bits left over. |
| Encoder.Collect | pvdata/values.go:812-828 | The bit loop makes the integer whose binary digits are the next bits, first bit lowest. |
| Encoder.NewBitSetWithBits | pvdata/values.go:781-795 | Exactly the listed bits are set, and the result has no trailing falses, so it comes back unchanged. |
| Decoder.AppendBits | pvdata/values.go:854-861 | The shifting loop appends the bits of the integer, lowest first, and keeps the position of the last bit set. |
| Decoder.DecoderState.DecodeBitSet | pvdata/values.go:838-879 | Group loop, byte loop and cut together read what the layout says, or fail where it says. |
| Encoder.EncoderState.EncodeSize | pvdata/values.go:123-141 | Appends the specified size form. |
| Encoder.EncoderState.EncodeText | pvdata/values.go:497-503 | Appends length and bytes. |
| Encoder.EncoderState.EncodeElem | pvdata/values.go:175-362 | Appends the encoding of a scalar or string. |
| Encoder.EncoderState.EncodeArray | pvdata/values.go:379-420 | Appends length and elements, contributes no changed bits, and leaves the bit set switched as it was. |
| Partial.EncodableLeaves | pvdata/values.go:528-533 | A value can be encoded exactly when no bounded string in it is longer than its bound. |
| Encoder.EncoderState.EncodeValue | pvdata/values.go:523-596 | Fails exactly when some bounded string exceeds its bound; otherwise appends the value's bytes and one changed bit for each node below it. |
| Encoder.EncoderState.EncodeStructure | pvdata/values.go:569-596 | The same for a structure's fields, each field's bit in front of those of its own nodes. |
| Decoder.DecoderState.DecodeSize | pvdata/values.go:142-169 | Reads what the size specification reads, errors included. |
| Decoder.DecoderState.DecodeText | pvdata/values.go:504-515 | Reads length and bytes; a negative length is a panic. |
| Decoder.DecoderState.DecodeElem | pvdata/values.go:181-358 | Reads a scalar or string, a Boolean from any byte. |
| Decoder.DecoderState.DecodeLength | pvdata/values.go:430-444 | Reads the element count in the array's form. |
| Decoder.DecoderState.DecodeArray | pvdata/values.go:421-461 | Reads count and elements with the bit set switched off, and restores the switch on success and on failure. |
| Values.LeafRoundTrip | pvdata/values.go:379-461 | Scalars, strings and arrays, whose 16-bit lengths fit, come back into any target of their type. |
| Values.ShortArrayExact | pvdata/values.go:434-439 | An array with a 16-bit length comes back exactly when it has fewer than 65536 elements. |
| Specimens.LeafNodes | pvdata/values.go:604-610 | Every field is a node, and array elements are none. |
| Specimens.DiffBitsWritten | pvdata/values.go:694-705 | The bit set of a difference: one bit more than there are nodes, the first false, the others true. |
| Partial.WalkIsFlat | pvdata/values.go:597-628 | For every structure, bit set and input, well-formed or not: decoding overwrites exactly the leaves whose own bit or whose immediate structure's bit is set, reads exactly them in preorder, keeps the others, fails where reading them fails, and advances the bit index by the number of nodes whichever bits are set. |
| Partial.SlotsNumbered | pvdata/values.go:605-610 | The leaves of a structure carry strictly increasing preorder numbers, each behind that of its immediate structure. |
| Partial.FlatKeeps | pvdata/values.go:616-620 | Leaves that are not selected keep their value, and no leaf changes its type. |
| Partial.FlatReads | pvdata/values.go:616-620 | Exactly the concatenated encodings of the selected leaves are consumed. |
| Partial.MergedAt | pvdata/values.go:616-620 | Leaf by leaf: the new value where selected, the old one elsewhere. |
| Partial.PartialUpdate | pvdata/values.go:714-720 | A sender that writes any bit set and then the leaves of w it selects turns the receiver's structure into itself with exactly those leaves replaced, the only such value, and leaves what follows untouched. |
| Partial.FlatTrim | pvdata/values.go:797-802 | The trailing falses a bit set loses on the wire select nothing. |
| Partial.LeavesDetermine | pvdata/values.go:543-546 | Type and leaves determine a value, so the lemmas about leaves determine the decoded structure. |
| Partial.WalkRoundTrip | pvdata/values.go:569-628 | Reading all of a value's encoding, with no bit set or with all its bits, yields the value and advances the index by its nodes. |
| Partial.DiffRoundTrip | pvdata/values.go:694-720 | Decoding a structure difference into any target of the same type yields the sent value and leaves trailing bytes untouched, in both byte orders. |
| Encoder.DiffBitsCollected | pvdata/values.go:698-704 | The bits collected for a value are false for the structure itself, then true for each node below it. |
| Encoder.EncoderState.EncodeDiff | pvdata/values.go:694-712 | Whatever bits earlier messages left in the encoder, exactly bit set and value are written; a value that does not encode writes nothing; the writer is restored. |
| Decoder.DecoderState.DecodeDiff | pvdata/values.go:714-720 | The received bits select for this value only: bit set, switch and index are restored, on failure too. |
| Decoder.DecoderState.DecodeValue | pvdata/values.go:421-461 | Decodes into a value under the selection in force, advancing the index. |
| Decoder.DecoderState.DecodeStructure | pvdata/values.go:597-628 | The field loop with its mutable index computes the recursive walk. |
| Descriptors.DescOverExact | pvdata/values.go:1030-1084 | Decoded over any prepared descriptor, a readable one comes back exactly when the prepared one has no ID or tag the wire lacks, nothing where the encoding is silent, and the same for its fields if the slice is long enough to be reused. |
| Descriptors.HeldFields | pvdata/values.go:445-459 | Fields the receiver holds matter only if there are at least as many as arrive, and then each in its place. |
| Descriptors.DescRoundTrip | pvdata/values.go:982-1084 | Over a zero descriptor every readable descriptor, nested structures and unions and ID or ID and tag forms included, decodes to itself with the fields the wire does not carry erased, from the front of any stream. |
| Descriptors.DescPrefixFree | pvdata/values.go:982-1084 | Readable descriptors of different content never share an encoding, nor is one a prefix of the other. |
| Descriptors.DescExact | pvdata/values.go:1011-1082 | With readable fields, a descriptor comes back exactly when its own type code is one the decoder undoes. |
| Descriptors.DescribedExact | pvdata/values.go:1011-1082 | At any depth, a descriptor made of readable ones and of bounded strings as the repository describes them comes back exactly when there is no bounded string in it. |
| Variant.DescOfExact | pvdata/values.go:533-538 | The descriptor of any value comes back exactly when no bounded string is in the value, however deep. |
| Descriptors.StructArrayUnread | pvdata/values.go:1016-1026 | A structure array's marker, name and fields stay in the stream. |
| Descriptors.BoundedStringUnread | pvdata/values.go:1022-1026 | A bounded string's descriptor leaves an empty name and field list in the stream. |
| Specimens.ScalarCodes | pvdata/values.go:956-968 | The descriptor of each scalar kind and of a string is one byte, written out. |
| Specimens.ArrayCodes | pvdata/values.go:462-480 | An array's descriptor is its elements' with 0x08 added, or with 0x18 and the length if it is fixed. |
| Specimens.OtherCodes | pvdata/values.go:533-538 | Bounded strings are 0x86 with bound, empty name and no fields; structures 0x80 with ID and fields. |
| Specimens.IdentityBytes | pvdata/values.go:982-1010 | The bytes of the forms with ID and tag, with ID, and of an ID alone. |
| Specimens.StructArrayBytes | pvdata/values.go:1016-1026 | The bytes of an empty structure array and union array descriptor. |
| Specimens.ZeroValues | pvdata/values.go:1086-1125 | Which type codes have no zero value, and what a bounded string's is. |
| Encoder.EncoderState.EncodeDesc | pvdata/values.go:982-1028 | Appends the specified descriptor bytes. |
| Encoder.EncoderState.EncodeDescs | pvdata/values.go:1022-1026 | Appends count, names and descriptors of the fields, and no changed bits. |
| Decoder.DecoderState.DecodeDesc | pvdata/values.go:1030-1084 | Decodes into a prepared descriptor what the specification reads there, errors included. |
| Decoder.DecoderState.DecodeDetail | pvdata/values.go:1070-1083 | Reads size, name and fields as the inner type code demands. |
| Decoder.DecoderState.DecodeDescs | pvdata/values.go:445-459 | Reads a list of field descriptors over the elements held, if there are enough; a negative count is a panic. |
| Variant.ZeroOfDesc | pvdata/values.go:1086-1174 | From the received descriptor of a plain value, createZero builds that value's zero exactly when its type has no arrays and legal, distinct field names. |
| Decoder.BuildZero | pvdata/values.go:1086-1174 | createZero with its error, panic and fixed-layout cases. |
| Decoder.BuildFields | pvdata/values.go:1139-1161 | The loop over a structure's fields builds their zeros in order, or stops at the first that has none. |
| Variant.AnyRoundTrip | pvdata/values.go:739-767 | A plain value sent as PVAny comes back with its type codes, structure IDs, field names and values, and nothing behind it touched, exactly when createZero can build its type. |
| Naming.VariantExact | pvdata/values.go:1139-1173 | Structures of scalars and strings, at any depth, sent as variants come back exactly when their field names are ASCII identifiers that stay different once capitalised, at every depth; otherwise the decoder panics. |
| Naming.NamesClash | pvdata/values.go:1145-1162 | A name starting with a digit, or two that differ only in the case of their first letter, are a panic. |
| Naming.OneInteger | pvdata/values.go:739-767 | A structure of one integer called v comes back. |
| Naming.LayoutStops | pvdata/values.go:1128-1134 | The seven structure IDs with a fixed layout, written out, stop the decoder there. |
| Variant.NullRoundTrip | pvdata/values.go:743-760 | An empty variant comes back. |
| Encoder.EncoderState.EncodeAny | pvdata/values.go:739-751 | Appends descriptor and value. |
| Decoder.DecoderState.DecodeAny | pvdata/values.go:752-767 | Descriptor, zero value and decoding in turn, each failure passed on. |
| Records.StatusRoundTrip | pvdata/values.go:896-922 | A status comes back exactly when its type byte is not 0xFF. |
| Encoder.EncoderState.EncodeStatus | pvdata/values.go:896-905 | Appends the short OK form or the long form. |
| Decoder.DecoderState.DecodeStatus | pvdata/values.go:906-922 | Reads either form. |
| Records.RecordRoundTrip | pvdata/values.go:589-593 | A message structure of members that come back over the prepared ones comes back: every member up to a breakonerror status above WARNING, then what the receiver prepared. |
| Records.HeadEncoding | internal/proto/proto.go:255-269 | The bytes of a response with a breakonerror status: ID, subcommand, status, and the rest unless the status ends it. |
| Records.ResponseBytes | internal/proto/proto.go:255-318 | Init, get and RPC responses end with the status for type bytes 2 to 127; for all others the descriptor, difference or variant follows. |
| Records.ErrorCompatible | internal/proto/proto.go:213-218 | The common error response has the bytes of each breakonerror response with the same ID, subcommand and status, exactly when the status is above WARNING or that response has no more bytes to send. |
| Records.ErrorIsEachResponse | internal/proto/proto.go:255-318 | For a status above WARNING, the common error response has exactly the bytes of an init, a get and an RPC response with the same ID, subcommand and status. |
| Records.ErrorReceived | pvdata/values.go:621-625 | Decoded as any breakonerror response, an error above WARNING is read to its end: the status arrives, the other members keep what was prepared, nothing further is read. |
| Encoder.EncoderState.EncodeMember | pvdata/values.go:569-596 | Appends one member, or fails exactly when it cannot be encoded. |
| Encoder.EncoderState.EncodeRecord | pvdata/values.go:569-596 | Appends the members up to one that ends the structure, whatever state the encoder's bit set was left in. |
| Decoder.DecoderState.DecodeMember | pvdata/values.go:597-628 | Reads one member over the prepared one. |
| Decoder.DecoderState.DecodeRecord | pvdata/values.go:597-628 | Reads members up to one that ends the structure and keeps the prepared rest. |
| Proto.HeaderRoundTrip | internal/proto/proto.go:34-60 | A header written in the order its reader will use comes back, whatever follows it. |
| Proto.EncodeHeader | internal/proto/proto.go:34-39 | Appends magic, version, flags, command and size. |
| Proto.DecodeHeader | internal/proto/proto.go:40-60 | Reads a header; unless the order is forced, the 0x80 flag sets the decoder's order before the size is read. |
| Proto.RequestBytes | internal/proto/proto.go:236-244 | Requested fields are sent exactly when bit 3 of the subcommand is set, pipeline fields when bit 7 is. |
| Proto.CreateRequestBytes | internal/proto/proto.go:172-184 | The bytes of a creation request, sent for names of up to 500 bytes. |
| Proto.GetRequestRead | internal/proto/proto.go:236-253 | What a get request carries for its subcommand comes back. |
| Proto.GetRequestRoundTrip | internal/proto/proto.go:236-253 | A get request comes back exactly when it has no requested fields that its subcommand does not carry. |
| Proto.MonitorRequestRoundTrip | internal/proto/proto.go:343-374 | A monitor request comes back exactly when the fields absent for its subcommand are zero. |
| Proto.CreateRequestRoundTrip | internal/proto/proto.go:172-197 | A channel creation request is sent and comes back exactly when no name exceeds 500 bytes and it names fewer than 32768 channels. |
| Proto.EncodeGetRequest | internal/proto/proto.go:236-244 | Appends the request; fails exactly when carried fields cannot be encoded. |
| Proto.DecodeGetRequest | internal/proto/proto.go:245-253 | Reads IDs and subcommand, and the requested fields only for an init. |
| Proto.EncodeMonitorRequest | internal/proto/proto.go:343-358 | Appends the request with its pipeline fields only when flagged; fails exactly when carried fields cannot be encoded. |
| Proto.DecodeMonitorRequest | internal/proto/proto.go:359-374 | Reads the fields its subcommand announces. |
| Proto.EncodeCreateRequest | internal/proto/proto.go:172-184 | Appends the 16-bit count and the channels; fails exactly when a name exceeds 500 bytes. |
| Proto.DecodeCreateRequest | internal/proto/proto.go:185-197 | Reads the signed count and that many channels. |
| Framing.NextConsumes | internal/connection/connection.go:182-217 | Next terminates: whatever it absorbs first, it has consumed at least a header when it returns a message. |
| Framing.ServeStream | internal/connection/connection.go:182-217 | For every sequence of control and application frames, each in its own byte order until one freezes it, repeated Next returns exactly the non-echo messages in order, sends exactly the required replies in order, and ends at the end of the stream. |
| Framing.ServeFrame | internal/connection/connection.go:148-172 | One frame in front of any stream: what it adds to what is returned and replied. |
| Framing.ControlServed | internal/connection/connection.go:148-165 | A control frame, bytes written out, in front of any stream: 0 is answered by (1, size), 3 by (4, size), nothing else is; 2 with size 0 freezes the order. |
| Framing.EchoServed | internal/connection/connection.go:167-172 | An echo in front of any stream is answered with its data for version bytes 2 to 127, with an empty echo for all others, and not returned. |
| Framing.MessageServed | internal/connection/connection.go:203-215 | Any other message is returned as it is and not answered. |
| Framing.SessionEnds | internal/connection/connection.go:203-206 | A negative size is a panic, missing data an end of stream. |
| Framing.MagicRefused | internal/proto/proto.go:41-47 | A frame that does not start with 0xCA is refused. |
| Framing.RequestsSurvive | internal/connection/connection.go:219-226 | A get request sent in changing byte orders among control messages, echoes and messages of any kind decodes as sent from the message in its place. |
| Framing.ByteOrderFreezes | internal/connection/connection.go:155-158 | On any input: up to and including the first SET_BYTE_ORDER of size 0 the order behind each header is the one its 0x80 flag announces; afterwards it never changes, whatever the flags say. |
| Framing.DeliveriesSeen | internal/connection/connection.go:182-217 | Every message returned was read behind one of those headers, in the order in force there. |
| Framing.NextSeen | internal/connection/connection.go:182-217 | The same for one call of Next, and the headers of later calls are among those of the session. |
| Connection.Connection.constructor | internal/connection/connection.go:30-42 | A new connection sends in little-endian order, has sent nothing, and its byte order is not frozen. |
| Connection.FrameBytesWritten | internal/connection/connection.go:76-146 | The frames of clients and servers in both byte orders, header bytes written out. |
| Connection.Connection.SendCtrl | internal/connection/connection.go:76-95 | Sends one control frame; the wire remains what fresh encoders would have written for all messages sent. |
| Connection.Connection.EncodePayload | internal/connection/connection.go:98-105 | Returns the structure's bytes or fails exactly when it cannot be encoded; the connection's writer is restored. |
| Connection.Connection.SendApp | internal/connection/connection.go:111-146 | Sends one frame as a fresh encoder would, whatever earlier messages left in the encoder; a payload that does not encode adds no bytes. |
| Connection.Connection.HandleControlMessage | internal/connection/connection.go:148-165 | Answers a mark with an acknowledgement and an echo request with a response, and freezes the byte order on SET_BYTE_ORDER with size 0. |
| Connection.Connection.HandleAppEcho | internal/connection/connection.go:167-172 | Echoes the data to a peer of version 2 or later, nothing to others. |
| Connection.Connection.Receive | internal/connection/connection.go:182-217 | Next: the message, the replies sent, the byte order, the freeze and the remaining stream are those of the specification, failures included. |
| Connection.Connection.Decode | internal/connection/connection.go:219-226 | Decodes a message's data in the connection's order and gives the connection its own stream back. |
| Exchange.SentIsReceived | internal/connection/connection.go:111-217 | For everything a connection ever sends, each payload below 2^31 bytes, the other side's Next returns exactly the application messages sent, in order, and answers exactly those that need an answer. |
| Exchange.MessageAt | internal/connection/connection.go:182-217 | Among everything a connection sends, a message other than control messages and echoes arrives in the place that counts such messages before it, with its command, version, order and payload. |
| Exchange.StructureSurvives | internal/connection/connection.go:111-226 | Any message structure sent on one connection, among control messages, echoes and other messages, is decoded on the other to the end of its payload, from what the Next call in its place returned. |
| Monitor.DeliveryInOrder | internal/server/monitor/monitor.go:51-87 | Over every history of real offers, the values sent are offered values in their order, none twice; a pending value is the latest offer and was not sent. |
| Monitor.OffersAccounted | internal/server/monitor/monitor.go:72-87 | Offers are the values sent, those overwritten while waiting, and the one pending. |
| Monitor.LatestSent | internal/server/monitor/monitor.go:72-87 | With nothing pending, the latest offer is the last value sent. |
| Monitor.NothingSendable | internal/server/monitor/monitor.go:51-87 | After every call, a value still pending is one that may not be sent. |
| Monitor.CreditConserved | internal/server/monitor/monitor.go:65-80 | In pipeline mode, values sent plus credit left equal the sum of all acknowledgements, negative ones included, and values sent never exceed the largest that sum has been. |
| Monitor.CreditTaken | internal/server/monitor/monitor.go:65-80 | In both modes a call sends at most one value, adds what it acknowledges, and takes a credit for a value sent if there is one. |
| Monitor.RunningIsStarted | internal/server/monitor/monitor.go:51-63 | The monitor runs exactly when its last start or stop was a start. |
| Monitor.SilentWhileStopped | internal/server/monitor/monitor.go:51-87 | A call that leaves the monitor stopped sends nothing. |
| Monitor.CaughtUp | internal/server/monitor/monitor.go:51-87 | A started monitor with credit left, or needing none, has sent the latest offer. |
| Monitor.Monitor.DrainLocked | internal/server/monitor/monitor.go:72-80 | Sends the pending value and takes one credit, if running and allowed. |
| Monitor.Monitor.Start | internal/server/monitor/monitor.go:51-56 | State and values sent are those of the history with a start added. |
| Monitor.Monitor.Stop | internal/server/monitor/monitor.go:58-63 | The same for a stop. |
| Monitor.Monitor.Ack | internal/server/monitor/monitor.go:65-70 | The same for an acknowledgement. |
| Monitor.Monitor.Send | internal/server/monitor/monitor.go:82-87 | The same for an offer. |
| Channels.SimpleChannel.Set | channels.go:102-108 | The history of the channel grows by the value, and its version with it. |
| Channels.Watch.Poll | channels.go:134-143 | A watcher behind the channel gets the current version with the value of that version; otherwise it gives up if cancelled and waits if not, so a new watcher never waits. |
| Channels.VersionsIncrease | channels.go:125-144 | In any interleaving, the versions returned to a watcher strictly increase, never exceed the channel's, and come with the values the channel held at them. |
| Channels.InvariantHolds | internal/server/monitor/monitor.go:37-87 | Every reachable state of writer, watcher, handler and client keeps the invariants: genuine values, the newest on its way, watched values in order, nothing older than the initial value. |
| Channels.NewestIsWatched | internal/server/monitor/monitor.go:37-49 | Once anything was offered, the newest of the value in the watcher's hand, the pending value and the last value sent is the watcher's version, exactly when the handler's older initial value was not offered last behind a watched one. |
| Channels.ClientIsCurrent | internal/server/monitor/monitor.go:37-87 | With the watcher caught up and empty-handed and the monitor free to send, the client's last value is the channel's current one, exactly under that same condition. |
| Channels.ClientSeesHistory | internal/server/monitor/monitor.go:37-87 | Every value the client receives is one the channel held at its version; versions strictly increase exactly when the initial value, if it was sent, was sent first, as it is if offered before any watched value; in every run each watched value is newer than all sent before it. |
| Channels.HistoryIsValues | channels.go:102-108 | In any run the channel's history grows by exactly the values set, one version each. |
| Channels.ForwardedIsReturned | internal/server/monitor/monitor.go:37-49 | Everything Next returned goes to the monitor, in order, but for what is still in the watcher's hand. |
| Channels.SystemIsMonitor | internal/server/monitor/monitor.go:51-87 | In any run the system's monitor and the values sent are those of a monitor on its own under the calls the events make. |
| Channels.StoppedIsSilent | internal/server/monitor/monitor.go:58-63 | After a stop with no later start the client gets nothing more, whatever the other parties do. |
| Channels.ClientCredit | internal/server/monitor/monitor.go:65-80 | In pipeline mode, in any run, values sent plus credit equal the client's acknowledgements, and values sent never exceed the largest their sum has been. |
| Channels.WatcherCatchesUp | internal/server/monitor/monitor.go:37-49 | From every reachable state without cancellation the watcher alone can reach the current version with nothing in hand. |
| Channels.WatcherLeaves | internal/server/monitor/monitor.go:37-49 | From every reachable cancelled state the watcher alone can leave. |
| Channels.AtMostOneAfterTerminate | internal/server/monitor/monitor.go:89-95 | After termination Next returns at most one more value to the watcher. |
| Channels.LateInitialValue | server.go:513-541 | A run in which the client receives version 1 and then version 0. |
| Waiting.NoSetMissed | channels.go:102-144 | In every interleaving of writer, watcher and broadcasts, a watcher behind the channel is not asleep, and its next look returns the current version. |
| Waiting.StrandedExactly | channels.go:130-139 | In every reachable state, a watcher is asleep with its cancellation and its broadcast behind it exactly when that broadcast fell between its look at the context and Wait, and none has found it asleep since. |
| Waiting.StrandedStays | channels.go:134-139 | Such a watcher sleeps on until a value is set or another call broadcasts. |
| Waiting.CancellationHeard | channels.go:130-137 | Any other cancelled watcher leaves Next at its next look once the broadcast was made. |
| Waiting.StrandedRun | channels.go:130-139 | A run that strands a watcher. |
| Requests.InvariantHolds | server.go:149-188 | Every step of every run keeps executions exclusive and the table tidy. |
| Requests.ExecutionsNeverOverlap | server.go:422-461 | In every reachable state a request has at most one execution in flight, READY means none, REQUEST_IN_PROGRESS means exactly one that was not cancelled, and no execution is ever cancelled twice, though completions may follow cancels and destroys. |
| Requests.AddSucceedsWhenAbsent | server.go:149-159 | In every reachable state no entry is DESTROYED, so adding succeeds exactly when the ID is absent. |
| Requests.WithdrawnOnce | server.go:161-188 | Cancel and destroy leave a running execution cancelled exactly once, and touch no execution of another request. |
| Requests.CompletionRemovesAnother | server.go:422-459 | Over any run from the start of a destroying execution to its completion: the completion removes another request exactly when, in between, the ID was taken out of the table and taken again, and is still there. |
| Requests.EntryReplaced | server.go:149-188 | Over any run, an ID names another request in the end exactly when it was taken out of the table and added again. |
| Requests.NewerRequestRemoved | server.go:668-673 | A run in which that happens. |
| Requests.IdsLive | server.go:149-188 | Over any run, each ID is absent, idle, running or withdrawn as the events so far say, and every request for it is answered accordingly: an execution is admitted exactly when the ID is idle and offers it. |
| Requests.WithdrawnForGood | server.go:161-188 | A request cancelled with nothing of it running, or destroyed, executes in no continuation. |
| Requests.WithdrawnRefused | server.go:425-431 | Right behind a cancel, running or not, an execution is refused as not READY; behind a destroy the ID is unknown. |
| Requests.ExecutesAgain | server.go:425-459 | Some continuation executes a request again exactly when it is in the table, has something to do, and is READY or runs an execution that will not destroy it. |
| Server.ServerConn.AddRequest | server.go:149-159 | Table and objects become those of the step system; refused while a request that is not DESTROYED has the ID. |
| Server.ServerConn.Execute | server.go:423-438 | Admits an execution only for a READY request of the right kind, and stores its cancel function. |
| Server.ServerConn.Begin | server.go:436-438 | Status, execution and stored cancel function of an admitted request. |
| Server.ServerConn.Complete | server.go:453-460 | Sets READY whatever happened meanwhile, or DESTROYED and removes the entry under the captured ID. |
| Server.ServerConn.Finish | server.go:668-673 | Status and execution of the completing goroutine, everything else unchanged. |
| Server.ServerConn.Withdraw | server.go:166-169 | Calls the stored cancel function once and forgets it. |
| Server.ServerConn.CancelRequest | server.go:161-173 | Cancels a known request, leaving it in the table. |
| Server.ServerConn.DestroyRequest | server.go:175-188 | Destroys a known request and removes it in the same step. |

## Left out

- Reflection and struct tags: which nodes are leaves, arrays or structures is part of the value; `omitifnil`, `always`, `name` and conversions from Go values are not modelled.
- Floating-point meaning: a float is its 32 or 64 bit pattern.
- Structure types with a fixed Go layout (`pvdata/nt.go`): decoding a variant into one stops with the fault `NtLayout`.
- Arrays whose elements are structures or arrays: the encoder writes a presence byte that the decoder does not read.
- Variants, statuses, bit sets and descriptors as fields of nested structures: they are members of top-level messages only.
- A nil `*PVAny`, which writes nothing.
- Field names outside ASCII: they count as illegal for a Go struct, though Go accepts some of them.
- Go integers that overflow: channel versions and monitor credit are unbounded.
- What a decode that fails has already written into its target and taken from the stream.
- Decoding through pointers: a target is a value passed in and a value returned, so two pointers to one variable are not captured.
- Aliasing of writers and readers other than the push and restore around nested payloads.
- The bit loops set distinct bits with `|=`; the model adds their powers of two.
- Bits that request codecs append to a bit set left switched on; they never reach the wire.
- `breakonerror` inside nested structures; the repository uses it in messages only.
- Segmented messages, flushing, I/O errors while writing, logging, contexts and timers.
- A connection's byte order before its first header, which Go leaves nil: the model starts from an arbitrary one.
- The handler of a connection: which message goes to which request or channel, and the responses it composes.
- Channel creation through providers, search, status channel, beacons and UDP.
- Channels.SimpleChannel.Set: the broadcast at its end is an event of module Waiting.
- Channels.Watch.Poll: one look of the loop; waiting and waking are module Waiting, which counts versions and carries no values.
- Execute of an unknown request ID, a nil dereference in Go, ends the process; the model reports it and goes on.
- Descriptors.DescExact: states the condition for one level, given readable fields. Bounded strings at any depth are covered by Descriptors.DescribedExact; an unreadable field of another kind leaves bytes of its own choosing, which later fields may be read from.
- Slice capacity: a prepared slice of field descriptors is reused up to its length, where Go reuses it up to its capacity.
- Decoder.DecoderState.DecodeText: a length too large for Go to allocate, a panic there, is an end of stream here, as no stream is that long; likewise for the lengths of arrays and of field lists.

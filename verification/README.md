# A verified model of a Matter stack

The repository is a Matter device stack written in Python, with an Aliro door lock on top of it. This project
models its protocol core and proves what that core is for: that encoded messages come back, that replayed and
misdirected traffic is handled as the code says, and that the tables of one device stay consistent over every
run of its handlers.

Exceptions are `Failure` results, a Python `None` is `Option`, time is a real number, hashes, HMAC, the AEAD
cipher and the elliptic curve are parameters. Handlers are atomic steps. Loops and objects that change in place
are methods and classes, each proved equal to a function on values; the laws are lemmas about those functions.

- **Encoding.** `Bytes`, `Sets`, `Utf8`, `BitStruct` and `BitMask` are the ground: integers as octets, strict UTF-8,
  the bit packer and bit masks. `Tlv` is the element codec (`TlvWire`: its octets, written out), `Schema` the typed
  layer over it with the schema as a value, so that its theorems cover every message and not one (`SchemaDecoding`:
  what it accepts). `Frames` and `SecureMessages` are the two headers and the cipher's inputs (`MessageWire`: their
  octets).
- **Message layer.** `Replay` is the reception window (`ReplayCircular`: the modes without a greatest counter), `Node`
  the sessions, fabrics, access entries and subscriptions of one device (`NodeHandlers`: its handlers in place,
  `NodeEffects`: what they change, `NodeOwners`: what they do not depend on), `Delivery` the outgoing queue and the
  chunking of reports.
- **Interaction model.** `Acl` is the privilege computation, `Reads` concrete and wildcard reads (`ReadReports`: which
  reports and keys they give), `Subscriptions` the report timer.
- **Small cores.** `Verhoeff`, `Onboarding` (Base-38, QR and manual code; `OnboardingWire`: their digits and bits),
  `Pake` (SPAKE2+ as in section 3.3 of RFC 9383, the transcript, HKDF; `PakeFormulas`: their formulas).
- **Door lock.** `DoorLock` is the user and credential store (`LockEffects`: what each command leaves in it).

The modules ending in `Codec` or `Handlers`, and the classes inside the other modules, hold the code in its
imperative form. The modules ending in `Theorems`, `RoundTrip`, `Wire`, `Decoding`, `Effects`, `Reports`, `Circular` and
`Formulas` hold laws, stated with the numbers of the formats and not with the functions they are about.

A fabric is known by its index in a table, and an index is used again after a removal. So that the laws can tell
one fabric from the next, each fabric added carries an identity, and sessions, access entries and subscriptions
record the identity of the fabric they were made for. No handler decides on that record
(`NodeOwners.OwnersDecideNothing`), so no run depends on it (`NodeOwners.RunSame`).

Some results are about what the code does not do, each with an input and the exact condition:

- An old maximum counter can be accepted a second time (`Replay.OldMaximumReplayed`, `Replay.ReplayedIff`); the
  variant that records it cannot (`Replay.RecordingAcceptsOnce`).
- A session made by a CASE handshake can outlive its fabric (`Node.OrphanedSession`), and can come to act under the
  index of another fabric (`Node.ReusedIndex`); it belongs to the fabric it was authenticated for exactly when
  nothing has removed that fabric meanwhile (`Node.LateSessionIff`).
- A handshake that fails never gives its session id back, so 65535 failed handshakes end the making of sessions for
  good (`Node.NoMoreSessions`); an id is lost exactly in the ways that `Node.StepLosesIff` lists.
- A profile tag can be written so that it is not found again (`SchemaTheorems.ProfileTagLost`,
  `SchemaTheorems.TagRecognisedIff`).
- A required member of a tagged list comes back as a one-element list (`SchemaRoundTrip.RequiredListMemberWrapped`,
  `SchemaRoundTrip.MessageComesBackIff`).
- A frame with two destinations, a long id or a version of sixteen or more does not come back
  (`Frames.TwoDestinations`, `Frames.FrameRoundTripIff`).
- An access list with a zero id or an empty list reads back differently (`Acl.ZeroEndpointLost`,
  `Acl.ReadAfterReplaceIff`), and a list of one entry for endpoint 0 alone makes every later privilege computation
  of its subjects raise (`Acl.EndpointZeroLocksOut`, `Acl.ReplacedScanFailsIff`, `Acl.AddedScanFailsIff`).
- A read of one cluster on every endpoint passes over an endpoint that lacks it, where the read on that endpoint
  alone scans the access list and can raise (`Reads.ScanSkipped`, `Reads.PairSameIff`).
- Adding a lock credential without a user never answers success, and can leave a user without a credential
  (`DoorLock.UserLeftBehind`, `DoorLock.AddAloneStoresIff`).
- Replacing a lock credential's data always raises once the data is replaced (`DoorLock.DataReplaced`,
  `DoorLock.ReplaceIff`), and until that credential goes no change of the lock is answered with success
  (`DoorLock.RawBlocks`).
- The next credential index of a SetCredential reply can lie at or before the credential's own
  (`DoorLock.ReplyLooksBack`, `DoorLock.ReplyNextIff`).

## Model

| member | source | states |
|---|---|---|
| `Utf8.RoundTrip` | matter_aliro/matter/encoding/__init__.py:402-420 | every string decodes from its UTF-8 octets |
| `Utf8.Canonical` | matter_aliro/matter/encoding/__init__.py:299-314 | octets that decode are the only encoding of what they decode to |
| `Utf8.DecodeRaises` | matter_aliro/matter/encoding/__init__.py:299-314 | octets that are no string raise one exception |
| `TlvTheorems.EncodeSucceedsIff` | matter_aliro/matter/encoding/__init__.py:365-493 | encoding raises nothing exactly when every tag and number is in range and there is no float |
| `TlvTheorems.RoundTrip` | matter_aliro/matter/encoding/__init__.py:227-493 | decoding an encoding followed by any octets gives the element and exactly its length |
| `TlvTheorems.PrefixFree` | matter_aliro/matter/encoding/__init__.py:365-493 | octets split in at most one way into an encoding and a rest |
| `TlvTheorems.ReencodeFits` | matter_aliro/matter/encoding/__init__.py:227-493 | what decodes is well shaped and, without floats, encodes in no more octets than were consumed |
| `TlvTheorems.DecodeEncodeDecode` | matter_aliro/matter/encoding/__init__.py:227-493 | re-encoding a decoded element loses nothing and is never longer |
| `TlvTheorems.DictOfFacts` | matter_aliro/matter/encoding/__init__.py:333-339 | the dictionary of a structure has distinct tags, keeps every property of its entries and never grows |
| `TlvTheorems.DictOfIs` | matter_aliro/matter/encoding/__init__.py:333-339 | the dictionary has the tags of the items in the order of their first appearance, each with the data of its last item |
| `TlvWire.EncodesAsWire` | matter_aliro/matter/encoding/__init__.py:365-493 | every element that encodes has the octets of the format, spelled out for each tag form, width and type with its own numbers |
| `TlvWire.DecodesWire` | matter_aliro/matter/encoding/__init__.py:227-363 | those octets are read back as the element, whatever follows |
| `TlvWire.ContainersEnd` | matter_aliro/matter/encoding/__init__.py:465-485 | every container's encoding ends with 0x18 |
| `TlvWire.SmallStructure` | matter_aliro/matter/encoding/__init__.py:227-493 | a structure of one boolean is four octets, both ways; of context tag 1 and true, [0x15, 0x29, 0x01, 0x18] |
| `TlvWire.NumbersDecode` | matter_aliro/matter/encoding/__init__.py:277-288 | an unsigned number is read at every width that holds it |
| `TlvWire.SignedNumbersDecode` | matter_aliro/matter/encoding/__init__.py:265-276 | the same for signed numbers, in two's complement |
| `TlvWire.ReservedRefused` | matter_aliro/matter/encoding/__init__.py:358-361 | no element type lies above 0x17 |
| `TlvWire.EncodeRaises` | matter_aliro/matter/encoding/__init__.py:365-493 | what a number or tag out of range, and a float, raise |
| `TlvWire.DecodeRaises` | matter_aliro/matter/encoding/__init__.py:227-363 | what missing octets, and a tagged array item, raise |
| `TlvCodec.EncodeToBytes` | matter_aliro/matter/encoding/__init__.py:365-493 | the recursive encoder with its output buffer computes the specified encoding |
| `TlvCodec.EncodeSequence` | matter_aliro/matter/encoding/__init__.py:465-485 | the container loops append the items' encodings in order, or fail with the first failure |
| `TlvCodec.DecodeFromBytes` | matter_aliro/matter/encoding/__init__.py:227-363 | the recursive decoder with its running offset computes the specified element and offset |
| `TlvCodec.DecodeContainer` | matter_aliro/matter/encoding/__init__.py:333-357 | the container loops stop at the end-of-container octet with the items read and the offset after it |
| `ControlOctet.Packed` | matter_aliro/matter/encoding/__init__.py:145-153 | the packed control octet is the type plus 32 times the tag control |
| `ControlOctet.Unpacked` | matter_aliro/matter/encoding/__init__.py:145-153 | the unpacked control octet is the remainder and the quotient by 32 |
| `BitStruct.EncodeToBytes` | matter_aliro/matter/encoding/__init__.py:25-60 | the nested loops output the little-endian octets of the sum of every value times two to its offset |
| `BitStruct.DecodeFromBytes` | matter_aliro/matter/encoding/__init__.py:63-102 | the nested loops read every named field from its own bits, or report too few octets |
| `BitStruct.GetValue` | matter_aliro/matter/encoding/__init__.py:74-88 | one field's loop returns the bits from its offset on, cut to its width |
| `BitStruct.RoundTrip` | matter_aliro/matter/encoding/__init__.py:25-102 | what encodes is recovered field by field, cut to its width, whatever follows |
| `BitStruct.ExactRoundTrip` | matter_aliro/matter/encoding/__init__.py:25-102 | values within their widths always encode and come back unchanged |
| `BitStruct.CutExactly` | matter_aliro/matter/encoding/__init__.py:43-58 | a value survives the cut exactly when it lies within its width |
| `BitStruct.LowBitsIsMod` | matter_aliro/matter/encoding/__init__.py:43-58 | the bits kept and the bits left over are the remainder and the quotient by two to the width |
| `BitStruct.EncodesIff` | matter_aliro/matter/encoding/__init__.py:25-60 | encoding fails exactly when a value is negative or exceeds the whole octets of its width; the octets are the fewest that hold all widths |
| `BitStruct.DecodesIff` | matter_aliro/matter/encoding/__init__.py:63-72 | decoding fails exactly when the octets hold fewer bits than the fields |
| `BitStruct.UnpackAt` | matter_aliro/matter/encoding/__init__.py:74-102 | each named field is the quotient by two to the widths before it, cut to its width; a nameless one is skipped |
| `BitMask.EncodeToBytes` | matter_aliro/matter/encoding/__init__.py:108-126 | the loop sets and clears bits of a buffer in place, and fails outside it |
| `BitMask.DecodeFromBytes` | matter_aliro/matter/encoding/__init__.py:129-142 | the loop reads each flag from its bit, or reports too few octets |
| `BitMask.RoundTrip` | matter_aliro/matter/encoding/__init__.py:105-142 | a mask encodes exactly when every position lies within its octets, and each flag is read back, the last one of a position counting, whatever follows |
| `BitMask.RoundTripIff` | matter_aliro/matter/encoding/__init__.py:105-142 | the flags come back unchanged exactly when flags at one position agree |
| `BitMask.DecodeRaises` | matter_aliro/matter/encoding/__init__.py:129-142 | too few octets and a position outside them raise differently |
| `SchemaTheorems.TagCmpIsOrder` | matter_aliro/matter/encoding/tlv.py:68-97 | tag comparison is the order stated without it: anonymous first, context tags by number, profile tags by vendor, profile and number |
| `SchemaTheorems.SortFieldsSorted` | matter_aliro/matter/encoding/tlv.py:291-296 | sorting puts members in ascending tag order and keeps members with one tag in their declared order |
| `SchemaTheorems.OrderedIs` | matter_aliro/matter/encoding/tlv.py:291-296 | a structure is written and expected in that order, or as declared |
| `SchemaTheorems.StructEncodesAs` | matter_aliro/matter/encoding/tlv.py:350-375 | a structure encodes as the dictionary of its written members in that order; of two members with one tag the second counts, in the place of the first |
| `SchemaDecoding.DeclaredOneZero` | matter_aliro/matter/encoding/tlv.py:289-375 | members declared 1, 0 are written 0, 1 in literal octets, and refused in the order 1, 0 |
| `SchemaDecoding.ScalarDecodes` | matter_aliro/matter/encoding/tlv.py:127-235 | exactly which data each scalar type accepts |
| `SchemaDecoding.KindsDecode` | matter_aliro/matter/encoding/tlv.py:254-439 | the container each composite type decodes from; null only where the type is nullable |
| `SchemaDecoding.DecodedWithin` | matter_aliro/matter/encoding/tlv.py:127-439 | whatever decodes lies within every bound of its type at every depth, null only where nullable, absent only where optional |
| `SchemaDecoding.MessageDecodesIff` | matter_aliro/matter/encoding/tlv.py:338-348 | a message decodes exactly from an untagged container of its type, with the exception of each failure |
| `SchemaDecoding.DecodeRaises` | matter_aliro/matter/encoding/tlv.py:127-281 | what the wrong container, bare data of a choice and an undecided order raise |
| `SchemaDecoding.ChoiceRaises` | matter_aliro/matter/encoding/tlv.py:472-487 | what an element without a matching option raises |
| `SchemaDecoding.ListRaises` | matter_aliro/matter/encoding/tlv.py:395-439 | what a missing member and a run of the wrong length raise |
| `SchemaDecoding.AlignRaises` | matter_aliro/matter/encoding/tlv.py:310-326 | an entry left over and a required member without entry raise differently |
| `SchemaDecoding.EncodeRaises` | matter_aliro/matter/encoding/tlv.py:254-281 | what a value of another type and an unknown variant raise |
| `SchemaDecoding.MakeTagRaises` | matter_aliro/matter/encoding/tlv.py:236-252 | exactly which tags cannot be made for lack of a vendor or profile in the class |
| `SchemaTheorems.TagRecognisedIff` | matter_aliro/matter/encoding/tlv.py:99-124 | exactly which tags are recognised in the form in which they are written |
| `SchemaTheorems.TagMatchesIff` | matter_aliro/matter/encoding/tlv.py:99-124 | exactly which wire tags each member answers to, implicit ones by the vendor and profile of the class |
| `SchemaTheorems.ProfileTagLost` | matter_aliro/matter/encoding/tlv.py:236-252 | in a class with an implicit profile, a vendor and profile that differ are written as the vendor twice, and not recognised |
| `SchemaTheorems.AlignIff` | matter_aliro/matter/encoding/tlv.py:310-326 | the order walk succeeds exactly for ascending members with every required one present, and lists the absent ones |
| `SchemaTheorems.StructureAcceptsIff` | matter_aliro/matter/encoding/tlv.py:289-326 | the tag checks pass exactly when the entries are a subsequence of the sorted members containing every required one |
| `SchemaTheorems.MatchEntriesFailsIff` | matter_aliro/matter/encoding/tlv.py:299-308 | the first loop fails at the first unknown or repeated entry, with the exception of its kind |
| `SchemaTheorems.DecodedAttributes` | matter_aliro/matter/encoding/tlv.py:289-335 | an object that decodes has the decoded value of each entry under its member, and None exactly for members without an entry |
| `SchemaRoundTrip.TypeRoundTrip` | matter_aliro/matter/encoding/tlv.py:127-281 | every conforming value of every well-formed schema type encodes, and decodes to its normal form |
| `SchemaRoundTrip.MessageRoundTrip` | matter_aliro/matter/encoding/tlv.py:338-463 | the same for whole messages through the octets, with anything following |
| `SchemaRoundTrip.NormalFormIffPlain` | matter_aliro/matter/encoding/tlv.py:350-439 | the normal form is the value exactly when there is no optional empty list and no required list member |
| `SchemaRoundTrip.MessageComesBackIff` | matter_aliro/matter/encoding/tlv.py:338-463 | a message comes back unchanged from its octets exactly when it is plain |
| `SchemaRoundTrip.ChoiceRoundTrip` | matter_aliro/matter/encoding/tlv.py:472-496 | a tagged choice in a list encodes and decodes to the same variant |
| `SchemaRoundTrip.RequiredListMemberWrapped` | matter_aliro/matter/encoding/tlv.py:395-421 | a tagged list whose required member is 7 encodes, and its octets decode to the member [7] whatever follows |
| `SchemaCodec.MatchFields` | matter_aliro/matter/encoding/tlv.py:299-308 | the first decoding loop finds each entry's member, or refuses an unknown tag, a repeat or a second unknown tag, each with its own exception |
| `SchemaCodec.CheckOrder` | matter_aliro/matter/encoding/tlv.py:310-326 | the index walk over the members computes the specified alignment |
| `SchemaCodec.EncodeFields` | matter_aliro/matter/encoding/tlv.py:350-375 | the encoding loop fills the dictionary in member order, leaving out absent optional members |
| `SchemaCodec.DecodeRun` | matter_aliro/matter/encoding/tlv.py:403-406 | the inner list loop decodes exactly the leading run of elements with the member's tag |
| `SchemaCodec.DecodeMembers` | matter_aliro/matter/encoding/tlv.py:395-421 | the outer list loop consumes the runs member by member with their count bounds |
| `Frames.FrameRoundTripIff` | matter_aliro/matter/message/messages.py:78-155 | an encoded frame always decodes, and to itself exactly when version, destinations and id lengths allow it |
| `Frames.TwoDestinations` | matter_aliro/matter/message/messages.py:78-155 | of a node id and a group id only the node id comes back |
| `Frames.FrameEncodesIff` | matter_aliro/matter/message/messages.py:78-103 | a frame encodes exactly when its numbers fit their octets |
| `Frames.Layout` | matter_aliro/matter/message/messages.py:78-103 | where every header field of an encoded frame lies |
| `Frames.FlagOctets` | matter_aliro/matter/message/messages.py:78-103 | the two flag octets bit by bit, reserved bits zero |
| `Frames.DecodeRaises` | matter_aliro/matter/message/messages.py:106-155 | whatever is wrong with a frame, decoding raises one exception |
| `FrameCodec.EncodeMatterFrame` | matter_aliro/matter/message/messages.py:78-103 | the buffer-extending encoder computes the specified octets |
| `FrameCodec.DecodeMatterFrame` | matter_aliro/matter/message/messages.py:106-155 | the decoder computes the specified frame |
| `FrameCodec.DecodeBody` | matter_aliro/matter/message/messages.py:113-155 | the advancing offset reads the optional fields in their places |
| `FrameCodec.EncodeProtocolMessage` | matter_aliro/matter/message/messages.py:189-209 | the buffer-extending encoder computes the specified octets |
| `FrameCodec.DecodeProtocolMessage` | matter_aliro/matter/message/messages.py:212-252 | the advancing offset computes the specified message |
| `SecureMessages.MessageEncodesIff` | matter_aliro/matter/message/messages.py:189-209 | a message encodes exactly when its numbers fit their octets |
| `SecureMessages.MessageRoundTrip` | matter_aliro/matter/message/messages.py:189-252 | every protocol message that encodes decodes to itself, for all combinations of optional fields |
| `SecureMessages.SendSucceedsIff` | matter_aliro/matter/message/message_layer.py:586-623 | a message is sent exactly when ids and counter fit |
| `SecureMessages.SameCipherInputs` | matter_aliro/matter/message/message_layer.py:345-366 | the receiver rebuilds the sender's key, nonce and associated data and passes on its ciphertext |
| `SecureMessages.Delivered` | matter_aliro/matter/message/message_layer.py:586-623 | with a cipher that opens what it sealed, the message sent is the message decoded |
| `SecureMessages.NonceRepeatsIff` | matter_aliro/matter/message/message_layer.py:602-617 | two messages of a session share a nonce exactly when their numbers agree modulo 2^32 |
| `SecureMessages.LiveNoncesDistinct` | matter_aliro/matter/message/message_layer.py:602-617 | no nonce is used twice before the counter wraps |
| `MessageWire.ExchangeBits` | matter_aliro/matter/message/messages.py:189-209 | the first octet of a protocol message bit by bit |
| `MessageWire.MessageDecodesIff` | matter_aliro/matter/message/messages.py:212-252 | two octets are enough to decode, and what is missing after them reads as zero |
| `MessageWire.MessageRaises` | matter_aliro/matter/message/messages.py:189-209 | a number that does not fit raises, an opcode differently from the others |
| `MessageWire.SentIs` | matter_aliro/matter/message/message_layer.py:586-623 | the octets of the header, the nonce and the key given to the cipher, and what is sent |
| `MessageWire.LaterSent` | matter_aliro/matter/message/message_layer.py:586-623 | after i messages header and nonce carry the first counter plus i, starting again at 2^32 |
| `SecureMessages.SecureSession.SendWithSession` | matter_aliro/matter/message/message_layer.py:586-623 | the frame is the specified one, only the counter changes, and the wrap is signalled |
| `Replay.MessageReceptionState.ProcessReceptionEncrypted` | matter_aliro/matter/message/message_layer.py:106-124 | the method updates the two fields as specified and reports exactly the duplicates |
| `Replay.MessageReceptionState.ProcessReceptionUnencrypted` | matter_aliro/matter/message/message_layer.py:128-135 | the same for unencrypted messages |
| `Replay.MessageReceptionState.CounterInRange` | matter_aliro/matter/message/message_layer.py:88-90 | the set of 32 counters is the window modulo 2^32 |
| `Replay.RepeatedAtOnce` | matter_aliro/matter/message/message_layer.py:92-135 | in every mode a counter repeated at once is a duplicate and changes nothing |
| `Replay.RunRefines` | matter_aliro/matter/message/message_layer.py:81-124 | over every run the shifted, unmasked bitmap gives the verdicts of a set of seen counters |
| `Replay.BitmapMeaning` | matter_aliro/matter/message/message_layer.py:92-103 | bit p is set exactly when counter max - 1 - p is negative within the first window or came through the window |
| `Replay.MaximumIncreases` | matter_aliro/matter/message/message_layer.py:106-118 | a new maximum exceeds every counter accepted before |
| `Replay.AcceptedAtMostTwice` | matter_aliro/matter/message/message_layer.py:92-118 | a counter is accepted at most once as a maximum and then at most once through the window |
| `Replay.ReplayedIff` | matter_aliro/matter/message/message_layer.py:92-118 | an accepted counter is accepted again exactly when it is in the window and has not come through it |
| `Replay.FreshAcceptedIff` | matter_aliro/matter/message/message_layer.py:106-124 | a counter not accepted before is accepted exactly when it is ahead of the maximum or one of the 32 below it |
| `Replay.OldMaximumReplayed` | matter_aliro/matter/message/message_layer.py:100-103 | counters 1, 2, 1 are all accepted |
| `Replay.RecordingAcceptsOnce` | matter_aliro/matter/message/message_layer.py:100-103 | setting the old maximum's bit as well makes every accepted counter a duplicate ever after |
| `ReplayCircular.RunRefines` | matter_aliro/matter/message/message_layer.py:106-135 | over every run without a greatest counter, unencrypted or encrypted, the bitmap receiver gives the verdicts of one that does not wrap around |
| `ReplayCircular.FreshAcceptedIff` | matter_aliro/matter/message/message_layer.py:106-135 | exactly when a counter not received before is accepted in the two modes |
| `ReplayCircular.MovedBy` | matter_aliro/matter/message/message_layer.py:102-104 | how far the maximum moves with each counter |
| `Node.Pigeonhole` | matter_aliro/matter/message/message_layer.py:683-690 | an id is free exactly when fewer than 65535 are allocated |
| `Node.AllocatedLeast` | matter_aliro/matter/message/message_layer.py:683-690 | a handshake takes the least free id, and fails without a trace exactly when all are allocated |
| `Node.StepLosesIff` | matter_aliro/matter/crypto/secure_channel.py:156-267 | an allocated id without a session comes about exactly by a failed or rejected handshake, one started over, an unusable key or a wrapped counter, and is never given back |
| `Node.AllLost` | matter_aliro/matter/message/message_layer.py:683-690 | with every id lost, every run leaves no live or pending session |
| `Node.NoMoreSessions` | matter_aliro/matter/crypto/secure_channel.py:245-257 | after 65535 PASE handshakes with a wrong confirmation no session is ever established again |
| `Node.StepKeepsIds` | matter_aliro/matter/message/message_layer.py:602-700 | every handler keeps live and pending ids distinct and allocated |
| `Node.RunKeepsIds` | matter_aliro/matter/crypto/secure_channel.py:156-267 | over every run live and pending sessions have distinct, allocated ids in 1..0xFFFF |
| `Node.NodeInvariant` | matter_aliro/matter/interaction_model/root_node.py:826-959 | from an empty node: ids distinct, fabrics numbered 1..253, labels and identities unique, and every reference to the very fabric it was made for unless a fabric goes under a pending handshake |
| `Node.StepKeepsFabrics` | matter_aliro/matter/interaction_model/root_node.py:889-909 | every handler keeps fabric numbers in range and non-empty labels unique |
| `Node.StepKeepsRefs` | matter_aliro/matter/interaction_model/root_node.py:911-947 | every handler keeps access entries, sessions, handshakes and subscriptions on the installed fabric they were made for |
| `Node.AddNocAssigns` | matter_aliro/matter/interaction_model/root_node.py:826-879 | the least free index and a new identity are assigned with the administrator entry, and TableFull is answered exactly when all 253 are taken |
| `NodeEffects.AddNocGrants` | matter_aliro/matter/interaction_model/root_node.py:861-867 | the named administrator gains every privilege on the new index, and nobody else by another id, mode or fabric gains or loses anything |
| `NodeEffects.NewFabricGrants` | matter_aliro/matter/interaction_model/root_node.py:826-879 | on a fabric just added each operational subject is granted everything or nothing, as it is the administrator or not |
| `NodeEffects.LabelledExactly` | matter_aliro/matter/interaction_model/root_node.py:889-908 | when a label is refused, and that otherwise the fabric of the session is the only one with it and nothing else has changed |
| `NodeEffects.WriteAclExactly` | matter_aliro/matter/interaction_model/root_node.py:104-186 | a write through a session replaces, or adds to, the entries of the session's fabric only |
| `NodeEffects.ReplacementReadBackIff` | matter_aliro/matter/interaction_model/root_node.py:67-145 | a list replaced through a session reads back as written exactly when it is plain |
| `NodeEffects.TerminationExactly` | matter_aliro/matter/message/message_layer.py:692-700 | ending the PASE sessions ends exactly those and frees exactly their ids |
| `NodeEffects.UnknownFabricRefused` | matter_aliro/matter/interaction_model/root_node.py:911-920 | removing a fabric that is not there is refused and changes nothing |
| `NodeEffects.SubscribeExactly` | matter_aliro/matter/interaction_model/interaction_model.py:510-530 | which subscriptions outlive a new one of the same subscriber, and when and under which number the new one is stored |
| `Node.RemoveFabricExactly` | matter_aliro/matter/interaction_model/root_node.py:911-944 | exactly the fabric's entries, sessions, ids and subscriptions go |
| `Node.RemovedIsPowerless` | matter_aliro/matter/interaction_model/root_node.py:922-923 | after removal the list grants the fabric's subjects nothing |
| `Node.RemoveKeepsRefsIff` | matter_aliro/matter/interaction_model/root_node.py:922-944 | removal keeps every reference on its own fabric exactly when no CASE handshake for the fabric is pending |
| `Node.StepInstalled` | matter_aliro/matter/interaction_model/root_node.py:826-922 | a fabric stays under its index exactly until a removal of that index, and no later fabric is the same one |
| `Node.RunInstalled` | matter_aliro/matter/interaction_model/root_node.py:826-922 | the same over every run |
| `Node.LateSessionIff` | matter_aliro/matter/crypto/secure_channel.py:391-516 | over every run between the first and the last message: the session belongs to the fabric it was authenticated for exactly when that same fabric is still installed, which is when nothing has removed it |
| `Node.OrphanedSession` | matter_aliro/matter/crypto/secure_channel.py:391-399 | a run of six events ends with a live session of a removed fabric, whose index is empty |
| `Node.ReusedIndex` | matter_aliro/matter/crypto/secure_channel.py:391-399 | a run of nine events ends with a live session whose index is that of a fabric added after its own was removed |
| `NodeOwners.OwnersDecideNothing` | matter_aliro/matter/interaction_model/root_node.py:826-959 | states that differ only in recorded owners step to states that differ only in them |
| `NodeOwners.RunSame` | matter_aliro/matter/interaction_model/root_node.py:826-959 | and run to states that differ only in them, over every run |
| `NodeHandlers.Device.AllocateSessionId` | matter_aliro/matter/message/message_layer.py:683-690 | the search loop takes the least free id or raises |
| `NodeHandlers.Device.TerminateAllPaseSessions` | matter_aliro/matter/message/message_layer.py:692-700 | exactly the PASE sessions and their ids go, and releasing an id never fails |
| `NodeHandlers.Device.PbkdfParamRequest` | matter_aliro/matter/crypto/secure_channel.py:168-217 | the new pending session of an exchange |
| `NodeHandlers.Device.PasePake3` | matter_aliro/matter/crypto/secure_channel.py:245-267 | the pending session goes live exactly when confirmed, and is dropped either way |
| `NodeHandlers.Device.CaseSigma1` | matter_aliro/matter/crypto/secure_channel.py:269-400 | the new pending session on the named fabric; an unusable key costs an id |
| `NodeHandlers.Device.CaseSigma3` | matter_aliro/matter/crypto/secure_channel.py:402-522 | the pending session goes live exactly when accepted |
| `NodeHandlers.Device.HandleFailureReport` | matter_aliro/matter/crypto/secure_channel.py:156-166 | a failure report drops both pending sessions of the exchange |
| `NodeHandlers.Device.CountSent` | matter_aliro/matter/message/message_layer.py:602-604 | the counter advances, and a wrapped session is dropped with its id kept |
| `NodeHandlers.Device.HandleAddNoc` | matter_aliro/matter/interaction_model/root_node.py:826-879 | a session without a fabric joins the new one, which gets its administrator entry; a full table or a rejected certificate changes nothing |
| `NodeHandlers.Device.HandleUpdateFabricLabel` | matter_aliro/matter/interaction_model/root_node.py:889-909 | the conflict loop comes before the missing fabric's exception |
| `NodeHandlers.Device.HandleRemoveFabric` | matter_aliro/matter/interaction_model/root_node.py:911-959 | the collecting loops delete exactly the fabric's rows |
| `NodeHandlers.Device.CancelSubscriptionsForFabric` | matter_aliro/matter/interaction_model/interaction_model.py:257-264 | exactly the fabric's subscriptions go |
| `NodeHandlers.Device.HandleSubscribe` | matter_aliro/matter/interaction_model/interaction_model.py:510-575 | the subscriber's old subscriptions go unless kept; the new one is stored under the least free id when readable |
| `Acl.GetGrantedPrivileges` | matter_aliro/matter/interaction_model/acl.py:47-123 | the nested loops with early exits compute the specified scan, failed assertions included |
| `Acl.MatchSubject` | matter_aliro/matter/interaction_model/acl.py:73-94 | the flag says whether some subject matches by node id or by an authenticated tag of the same id and no newer version |
| `Acl.MatchTarget` | matter_aliro/matter/interaction_model/acl.py:96-119 | a match, or an exception exactly when a malformed target is reached first |
| `Acl.GrantedIsUnion` | matter_aliro/matter/interaction_model/acl.py:35-123 | the result is the union of the closures of all matching entries and the commissioning grant, and downward closed |
| `Acl.WellFormedSucceeds` | matter_aliro/matter/interaction_model/acl.py:100-104 | a list without malformed targets never raises |
| `Acl.ScanFailsIff` | matter_aliro/matter/interaction_model/acl.py:100-104 | exactly when the computation raises |
| `Acl.GrantedMonotone` | matter_aliro/matter/interaction_model/acl.py:56-123 | the result depends on the set of entries only, and grows with it |
| `Acl.ClosureIs` | matter_aliro/matter/interaction_model/acl.py:35-44 | a privilege brings those with smaller wire numbers |
| `Acl.SubjectMatchesIff` | matter_aliro/matter/interaction_model/acl.py:74-90 | a subject of an entry stands for the node id, or for an authenticated tag of its id at no higher a version |
| `Acl.WrittenEntryGrants` | matter_aliro/matter/interaction_model/root_node.py:104-145 | whom a written entry without targets grants what, by the numbers it is written with |
| `Acl.AcceptableIff` | matter_aliro/matter/interaction_model/root_node.py:110-138 | exactly which privilege and mode numbers may be written |
| `Acl.CommissionerGranted` | matter_aliro/matter/interaction_model/acl.py:52-54 | a commissioner over PASE has every privilege whatever the list says, and without a list nobody else has any |
| `Acl.AccessControl.ReplaceAcl` | matter_aliro/matter/interaction_model/root_node.py:104-145 | the writer's entries are replaced, or nothing changes on a constraint error |
| `Acl.AccessControl.AddAcl` | matter_aliro/matter/interaction_model/root_node.py:147-186 | the new entries are appended, or nothing changes on a constraint error |
| `Acl.AccessControl.ReadAcl` | matter_aliro/matter/interaction_model/root_node.py:67-102 | the loop lists the fabric's own entries |
| `Acl.OtherFabricsUnaffected` | matter_aliro/matter/interaction_model/root_node.py:140-182 | a write by one fabric never changes what a subject of another is granted, or how it fails |
| `Acl.ReadAfterReplaceIff` | matter_aliro/matter/interaction_model/root_node.py:67-145 | a replaced list reads back as written exactly when no id is zero and no list empty |
| `Acl.ZeroEndpointLost` | matter_aliro/matter/interaction_model/root_node.py:133-137 | a target for endpoint 0 reads back with no endpoint |
| `Acl.StoredTargetWellFormedIff` | matter_aliro/matter/interaction_model/root_node.py:133-137 | exactly which written targets can be scanned later |
| `Acl.ReplacedScanFailsIff` | matter_aliro/matter/interaction_model/root_node.py:104-145 | from the written data, exactly when the privileges of the writer's subjects cannot be computed after a replacement |
| `Acl.AddedScanFailsIff` | matter_aliro/matter/interaction_model/root_node.py:147-186 | the same after an addition, from the data and the list before |
| `Acl.EndpointZeroLocksOut` | matter_aliro/matter/interaction_model/root_node.py:133-137 | after an entry for endpoint 0 alone every computation for a CASE subject of the fabric raises |
| `Reads.ReadAttribute` | matter_aliro/matter/interaction_model/interaction_model.py:733-984 | the loops compute the specified concrete or wildcard read |
| `Reads.ReadOnePair` | matter_aliro/matter/interaction_model/interaction_model.py:929-982 | the attribute loop of one endpoint and cluster |
| `Reads.CollectPairs` | matter_aliro/matter/interaction_model/interaction_model.py:914-927 | the list of endpoint and cluster pairs, or an exception for a missing endpoint |
| `Reads.PairSameIff` | matter_aliro/matter/interaction_model/interaction_model.py:929-982 | reading one pair is reading its attributes one by one, although supported ones are filtered first, exactly when both scan the access list or it can be scanned |
| `Reads.ScanSkipped` | matter_aliro/matter/interaction_model/interaction_model.py:914-935 | on a node whose one endpoint lacks the cluster, a read on every endpoint gives nothing where the concrete read it stands for raises |
| `Reads.WellFormedScansAlike` | matter_aliro/matter/interaction_model/acl.py:100-104 | a list without malformed targets can be scanned for every pair |
| `Reads.WildcardIsConcrete` | matter_aliro/matter/interaction_model/interaction_model.py:770-984 | a wildcard read is its concrete reads in order, data results kept: same reports, keys and exceptions, a scan that raises included |
| `ReadReports.WildcardExactly` | matter_aliro/matter/interaction_model/cluster.py:395-421 | a wildcard reports exactly the attributes in range that may be read and are news, each with its version and own value, and registers exactly those that may change, do not omit changes and are subscribed |
| `ReadReports.ConcreteExactly` | matter_aliro/matter/interaction_model/cluster.py:395-421 | the same for one path, and exactly when each status is due |
| `Subscriptions.Subscription.SendReport` | matter_aliro/matter/interaction_model/interaction_model.py:123-186 | a report takes all that was collected and arms the next timer |
| `Subscriptions.Subscription.ReportNow` | matter_aliro/matter/interaction_model/interaction_model.py:188-196 | a report at once, or one scheduled for the end of the minimum interval |
| `Subscriptions.Subscription.AttributesChanged` | matter_aliro/matter/interaction_model/interaction_model.py:234-240 | exactly the subscribed keys are recorded, and only they ask for a report |
| `Subscriptions.Subscription.NewEvent` | matter_aliro/matter/interaction_model/interaction_model.py:117-121 | the event waits under its key, and only an urgent one asks for a report |
| `Subscriptions.Subscription.TimerFires` | matter_aliro/matter/interaction_model/interaction_model.py:123-125 | a task that has slept its time reports, and a cancelled one does nothing |
| `Subscriptions.RunArmed` | matter_aliro/matter/interaction_model/interaction_model.py:104-196 | over every run exactly one timer task is armed, between the two intervals, and changes wait only for the minimum |
| `Subscriptions.ReportGaps` | matter_aliro/matter/interaction_model/interaction_model.py:184-196 | consecutive reports are at least the minimum and at most the larger interval apart |
| `Subscriptions.ReportedWhenDue` | matter_aliro/matter/interaction_model/interaction_model.py:114-196 | the report after a change is sent exactly at the later of the change and the end of the minimum interval |
| `Subscriptions.QuietReports` | matter_aliro/matter/interaction_model/interaction_model.py:104-196 | while nothing asks for a report the next one comes exactly 5 seconds before the maximum interval ends, or half of it after the start, but not before the minimum |
| `Subscriptions.SentAtOnceIff` | matter_aliro/matter/interaction_model/interaction_model.py:188-196 | a report asked for is sent in the same step exactly when none is scheduled and the minimum interval is over |
| `Subscriptions.TimerReports` | matter_aliro/matter/interaction_model/interaction_model.py:123-125 | a timer that fires sends one report |
| `Subscriptions.ReportsExactly` | matter_aliro/matter/interaction_model/interaction_model.py:129-151 | each report carries exactly the attributes changed in its turn |
| `Subscriptions.EventsExactly` | matter_aliro/matter/interaction_model/interaction_model.py:117-174 | each event is carried once and in order, or still waits |
| `Delivery.Protocol.SendMessage` | matter_aliro/matter/message/protocol.py:51-74 | a message goes out, or waits behind the one in flight |
| `Delivery.Protocol.ReleaseNextMessage` | matter_aliro/matter/message/protocol.py:76-91 | the first waiting message goes out, or the exchange becomes idle |
| `Delivery.RunDelivers` | matter_aliro/matter/message/protocol.py:51-91 | transmitted then waiting messages are the submitted ones in order; an exchange is in flight exactly while its last transmission has not been released; a release lies between transmissions |
| `Delivery.SentAtOnceIff` | matter_aliro/matter/message/protocol.py:66-74 | over every run a submission is transmitted in the same step exactly when nothing of its exchange is on the wire |
| `Delivery.ReleaseTransmits` | matter_aliro/matter/message/protocol.py:76-91 | a release transmits the first waiting message, and none exactly when none waits |
| `Delivery.ReleasesDrain` | matter_aliro/matter/message/protocol.py:76-91 | as many releases as messages wait put everything on the wire |
| `Delivery.ChunkReportData` | matter_aliro/matter/interaction_model/interaction_model.py:413-461 | the chunks concatenate to the reports, a flushed chunk first reaches 900 with its last report, and only the last may say that nothing follows |
| `Verhoeff.Checksum` | matter_aliro/matter/verhoeff.py:24-28 | the loop computes the fold over the digits from the right, or fails on a non-digit |
| `Verhoeff.Validate` | matter_aliro/matter/verhoeff.py:31-40 | exactly the non-empty digit strings of checksum zero are valid |
| `Verhoeff.CalcCheckDigit` | matter_aliro/matter/verhoeff.py:43-44 | the digit returned is the only one that makes the string valid |
| `Verhoeff.Associative` | matter_aliro/matter/verhoeff.py:1-11 | the multiplication table is associative |
| `Verhoeff.PermPower` | matter_aliro/matter/verhoeff.py:13-21 | each permutation row is the row before followed by row 1, with period 8 |
| `Verhoeff.SingleChangeDetected` | matter_aliro/matter/verhoeff.py:24-40 | changing one digit of a valid string of any length makes it invalid |
| `Verhoeff.AdjacentSwapDetected` | matter_aliro/matter/verhoeff.py:24-40 | swapping two different neighbours of a valid string of any length makes it invalid |
| `Onboarding.Base38Encode` | matter_aliro/matter/device.py:19-38 | the loops with right-hand padding give fixed groups of little-endian digits |
| `Onboarding.Base38RoundTrip` | matter_aliro/matter/device.py:19-38 | Base-38 is invertible on every octet string |
| `Onboarding.QrReadBack` | matter_aliro/matter/device.py:318-333 | unpacking the decoded string gives every onboarding field, cut to its width |
| `Onboarding.EncodesIff` | matter_aliro/matter/device.py:318-333 | the QR string exists exactly when every number fits its whole octets |
| `Onboarding.QrSameIff` | matter_aliro/matter/device.py:372-391 | two onboarding data give one string exactly when they agree after the cut |
| `Onboarding.QrDetermines` | matter_aliro/matter/device.py:372-391 | data within the field widths always encode and are determined by the string |
| `Onboarding.DeviceQrDetermines` | matter_aliro/matter/device.py:318-333 | a device's string determines its vendor, product, discriminator and passcode |
| `Onboarding.ManualDiscoveryString` | matter_aliro/matter/device.py:335-344 | ten digits, a check digit that validates them, and the hyphens |
| `Onboarding.ManualSameIff` | matter_aliro/matter/device.py:336-342 | the ten digits agree exactly when passcode and top four discriminator bits do |
| `Onboarding.ManualCodeSameIff` | matter_aliro/matter/device.py:335-344 | the same for the printed code |
| `OnboardingWire.ManualDigitsAre` | matter_aliro/matter/device.py:336-342 | each of the ten digits from discriminator and passcode |
| `OnboardingWire.QrNumber` | matter_aliro/matter/device.py:373-391 | the 11 octets of the QR code as one number, each field at its bit, reserved bits zero |
| `OnboardingWire.MaskBits` | matter_aliro/matter/device.py:356-369 | the octet of the discovery capabilities bit by bit |
| `OnboardingWire.FlowsAre` | matter_aliro/matter/device.py:349-352 | the numbers of the commissioning flows |
| `Pake.SharedAgree` | matter_aliro/matter/crypto/__init__.py:116-144 | both sides compute the same Z and V for all scalars whose shares can be encoded |
| `Pake.ViewsAgree` | matter_aliro/matter/crypto/__init__.py:131-194 | from one passcode both sides reach the same confirmation values and key, and reach them exactly when the points of the transcript have encodings that fit their lengths |
| `Pake.EncodeElements` | matter_aliro/matter/crypto/__init__.py:176-181 | the loop computes the length-prefixed transcript |
| `Pake.PrefixedInjective` | matter_aliro/matter/crypto/__init__.py:176-181 | the transcript determines its list of elements |
| `Pake.PrefixedSucceedsIff` | matter_aliro/matter/crypto/__init__.py:177-179 | a transcript exists exactly when every length fits eight octets |
| `Pake.TranscriptsDiffer` | matter_aliro/matter/crypto/__init__.py:147-181 | equal transcripts mean equal w0, shares, Z, V and context hash |
| `Pake.HkdfExpand` | matter_aliro/matter/crypto/__init__.py:52-66 | the loop gives the blocks of section 2.3 of RFC 5869, and fails exactly above 127 blocks |
| `Pake.KdfLengths` | matter_aliro/matter/crypto/__init__.py:73-76 | a derived key has the length asked for and extends every shorter one |
| `PakeFormulas.SecretsAre` | matter_aliro/matter/crypto/__init__.py:84-109 | the secrets are the two halves of the stretched passcode, reduced |
| `PakeFormulas.SharesAre` | matter_aliro/matter/crypto/__init__.py:116-125 | the shares are the encodings of x G + w0 M and y G + w0 N |
| `PakeFormulas.SharedIs` | matter_aliro/matter/crypto/__init__.py:131-144 | both sides reach Z = h x y G and V = h w1 y G |
| `PakeFormulas.TranscriptIs` | matter_aliro/matter/crypto/__init__.py:147-181 | the ten elements of the transcript in order, each after its length, w0 as 32 octets most significant first |
| `PakeFormulas.BlocksChain` | matter_aliro/matter/crypto/__init__.py:52-76 | each block of a derived key is the HMAC of the block before, the info and its number |
| `PakeFormulas.KdfFailsIff` | matter_aliro/matter/crypto/__init__.py:52-76 | there is a key exactly up to 4064 octets |
| `PakeFormulas.ConfirmIs` | matter_aliro/matter/crypto/__init__.py:187-194 | which halves of which hashes confirm whose share, and the session secret |
| `PakeFormulas.LabelIs` | matter_aliro/matter/crypto/__init__.py:190 | the label is "ConfirmationKeys" |
| `DoorLock.DoorLockCluster.SaveState` | matter_aliro/device.py:121-137 | saving raises exactly when some credential's data are plain octets |
| `DoorLock.DoorLockCluster.HandleSetUser` | matter_aliro/cluster.py:255-323 | the whole new state and answer, partial updates before an exception and a failing save included |
| `DoorLock.DoorLockCluster.HandleGetUser` | matter_aliro/cluster.py:325-369 | the user, exactly that user's credentials each once, and the least index above |
| `DoorLock.DoorLockCluster.HandleClearUser` | matter_aliro/cluster.py:371-412 | the collecting loops delete the user and the user's credentials |
| `DoorLock.DoorLockCluster.HandleSetCredential` | matter_aliro/cluster.py:436-623 | every branch's new state and whole reply, with a user that stays when the key is no curve point and data that stay replaced when saving raises |
| `DoorLock.DoorLockCluster.HandleGetCredentialStatus` | matter_aliro/cluster.py:625-659 | the credential and the least index above; an exception exactly for a number that is no type or a replaced credential |
| `DoorLock.DoorLockCluster.HandleClearCredential` | matter_aliro/cluster.py:661-717 | one, one type's or all credentials go, then the rest is saved |
| `DoorLock.RunConsistent` | matter_aliro/cluster.py:255-717 | in every state of every run each credential belongs to an existing user made by the same fabric |
| `DoorLock.StepProtects` | matter_aliro/cluster.py:287-308 | users keep their creator and are renamed only by its fabric; credentials keep user and creator, and only that fabric changes their data |
| `DoorLock.ClearUserExactly` | matter_aliro/cluster.py:391-399 | exactly the user's credentials go and all others stay |
| `LockEffects.UserAdded` | matter_aliro/cluster.py:256-285 | exactly when a user is added, and each field from what was sent |
| `LockEffects.UserModified` | matter_aliro/cluster.py:287-323 | exactly when a user is modified, and each field, up to an unknown number |
| `LockEffects.CredentialAdded` | matter_aliro/cluster.py:511-570 | exactly when a credential is added to a user, what is stored, and every answer |
| `LockEffects.CredentialAddedAlone` | matter_aliro/cluster.py:455-509 | the user made and the credential stored without a user |
| `LockEffects.AloneRefused` | matter_aliro/cluster.py:455-470 | every answer to adding without a user when none is made, all 65534 indexes taken included |
| `LockEffects.ReplacementRefused` | matter_aliro/cluster.py:572-600 | a replacement for another user, another fabric or no credential is refused and changes nothing |
| `LockEffects.ReplyTells` | matter_aliro/cluster.py:447-509 | the reply names the user made and the least stored index above the number of the type |
| `LockEffects.OneCleared` | matter_aliro/cluster.py:702-717 | clearing one credential takes that one and leaves every other and every user |
| `LockEffects.ManyCleared` | matter_aliro/cluster.py:662-701 | the index 0xFFFE clears one type, and null clears all |
| `LockEffects.AllUsersCleared` | matter_aliro/cluster.py:372-390 | the index 0xFFFE clears every user and credential |
| `LockEffects.UserCleared` | matter_aliro/cluster.py:391-412 | clearing one user succeeds unless something left cannot be saved; an unknown one is refused |
| `DoorLock.AddAloneStoresIff` | matter_aliro/cluster.py:455-509 | exactly when a user is made and when the credential is stored; the answer is never success |
| `DoorLock.UserLeftBehind` | matter_aliro/cluster.py:462-485 | 65 octets that are no curve point leave a user and no credential |
| `DoorLock.ReplaceIff` | matter_aliro/cluster.py:579-621 | a replacement is made exactly for the credential's user and fabric, and then always raises |
| `DoorLock.DataReplaced` | matter_aliro/cluster.py:602-603 | from the empty lock, a fabric that adds a key and replaces it loses it, and the command raises |
| `DoorLock.StepSaves` | matter_aliro/cluster.py:255-717 | success means that every credential stored can be saved, and replaced data stay until their credential goes |
| `DoorLock.RawBlocks` | matter_aliro/cluster.py:255-717 | over every run, after a replacement no command succeeds until that credential goes |
| `DoorLock.ReplyNextIff` | matter_aliro/cluster.py:447-454 | the next index of a SetCredential reply is the one above the credential's exactly when no stored index lies between it and the type's number |
| `DoorLock.ReplyLooksBack` | matter_aliro/cluster.py:447-454 | from the empty lock, with key 7 stored the reply to adding key 8 names 7 as the next |
| `DoorLock.FollowsVisitsAll` | matter_aliro/cluster.py:326-331 | following the next index visits every higher user index once, ascending |
| `DoorLock.FollowsEnds` | matter_aliro/cluster.py:326-331 | following the next index ends |

## Left out

- Network, storage and logging: sockets, mDNS, CoAP, QR printing, and JSON state files but for whether a lock can be saved.
- Real cryptography, certificate checks and the Aliro transaction: the outcome of such a check is an argument of the step that uses it.
- Interleavings at await points inside a handler, and tasks that run after it: each handler is one step.
- Retransmission, standalone acknowledgements and exchange matching: only the queue of outgoing messages is modelled.
- Group sessions and unsecured session tables; `ReplayCircular` covers their counters.
- Strings are sequences of Unicode scalar values; a lone surrogate, which cannot be encoded, is not a value here.
- TLV floats keep their raw bits; they decode and do not encode.
- Recursion limits of the decoder on deeply nested input.
- Lists of untyped elements, and values whose Python class differs from the declared type.
- A choice as a whole message: its decoder hands over data without the tag it needs, so it always fails.
- Schema objects whose types refer back to themselves: a schema here is a finite tree.
- The schema compiler, which names the implicit vendor differently from the field the codec reads.
- Event reads, writes, invokes, timed requests and path decompression.
- Subscription reports skip attributes that cannot be read; the model's subscribed attributes can all be read.
- A subscription replaced without cancelling its timer keeps reporting; only stored subscriptions are modelled.
- Exhaustion of the 4294967295 subscription ids: the source then stores under a null key.
- Digits other than ASCII, which the check digit code would also accept.

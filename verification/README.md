# Goldstone management framework: a model and its proofs

Goldstone manages optical and Ethernet network devices. South daemons apply configuration to hardware,
translators map vendor-neutral models onto native ones, system daemons stream telemetry, and north daemons
speak SNMP, gNMI and others to the operator. This project models the parts of it that keep a protocol or a
pair of representations straight, and proves that they do.

- `OidOrder`, `Encodings`, `Pdu`, `PduStream`, `PduObjects`: the AgentX subagent's codec (RFC 2741). Byte
  strings and values determine each other, and a stream of concatenated PDUs is read back as it was written.
  `Pdu` and `PduStream` hold the decoding functions and their laws; `PduObjects` holds the constructors that
  chomp a buffer, proved against them. `Wire` states the RFC's layouts on the bytes alone and shows that a buffer
  decodes to a PDU if and only if the PDU is laid out at its front.
- `MibIndex`, `MibWalk`, `Lldp`: the ordered index of managed objects. GetNext is compared with the least
  instance above the start, and a manager's walk is shown to be complete.
- `Agent`: the two together, from the bytes of a buffer of requests to the bytes of the responses, and a whole
  walk over the wire.
- `Transactions`: the change, done, abort and timeout machine that every south daemon and translator runs on,
  with theorems over all runs, reverts that raise included. `LineRate` is a handler family shown to meet its undo
  assumption, with the exact condition. `OpenConfig` is one that commits before the machine may ask for the undo,
  and `VlanServer` one that has no undo; each gets its own theorems over all runs.
- `Telemetry`, `Relay`: the streaming telemetry server with its store, and the gNMI server's hand-over of the
  notifications. A client that applies them holds the sampled tree.
- `Breakout`, `Vlan`: SONiC lane and port allocation with its inverse, and VLAN membership kept twice.
- `XPath`: the netlink daemon's path parser against a printer of paths.

A component that changes state is a class or a method over a mutable buffer, proved against a function on
values; the main results are about that function, for every input or every run. Beside those there are, for each
component, theorems that say what it does in terms of its inputs alone: which bytes, which value, which leaf or
row, and when it refuses. An exception of the original is a `Raised` result, and a panic of the Rust parser is one
of its failures.

## Where the code and what is promised for it differ

Each of these is a theorem giving the exact condition under which the promise holds. Where the inputs on which it
fails are not plain from the condition, another theorem gives one.

- The search for the registered prefix of an OID looks only at its nearest registered predecessor. It is a
  prefix search if and only if the registrations are prefix-free (`PrefixSearchNeedsPrefixFree`, which builds the
  OID it misses otherwise).
- Get answers from a scalar for OIDs below it, where RFC 2741 section 7.2.3.1 wants noSuchInstance, and answers
  noSuchInstance under a registered prefix without instances, where its clause (3) wants noSuchObject
  (`MibTable.GetExact`, `GetForInstance`). GetNext asked to include its start answers from a scalar above it, too.
- GetNext bounds registered prefixes by the end of the range, where RFC 2741 section 7.2.3.2 bounds instances
  and takes a null end for no bound. `GetNextExact` gives the condition on the registrations and the request
  under which neither this nor the scalars make a difference to an answer; `Disagreement` and `ScalarOverreaches`
  build tables where they do.
- A tuple that is the internet prefix alone, or goes on with a zero, is not represented faithfully
  (`FromIterableFaithful`).
- A Get request built from OIDs counts its header in the payload length, and a request with a non-default
  context counts the context; both are decoded only at the end of a buffer (`ConstructedRequestFits`,
  `RightLengthFits`).
- The LLDP updater drops a lost neighbour's sub-ids by comparing the time mark with the interface index
  (`DropsInterfaceExactly`, `KeptForInstance`).
- A line rate refused by the device after host interfaces were created or removed leaves them so; the change
  reports failure but the module is not as before (`LineRate.OwnUndoExact`, `LineRate.HandlersLawfulExact`,
  `RefusedForInstance`).
- One translator handler's revert alone may delete an interface its sibling created, or put back a leaf it
  changed. Only the whole list, reverted in reverse, restores the session (`OpenConfig.OwnUndoExact`, `ListUndo`).
- The translator commits and stops its session before the transaction waits for "done" or "abort". An abort or a
  timeout then reverts into the stopped session, and the running datastore keeps the transaction
  (`OpenConfig.UndoneExactly`, with the exact condition under which that makes no difference; `CreationStays`). If
  a stopped session raises, the revert does exactly when the transaction touched anything (`RevertRaisesExactly`).
- A revert that raises leaves its transaction pending without a timer, and every later change is refused as busy
  (`RevertRaisedStays`). `RevertsSucceed` says that under the undo law there is no such run.
- When `post` raises on a changed device, the changes stay applied with nobody to revert them: the transaction is
  stranded (`ChangeEventExactly`, `StrandedForInstance`). The ledger of `DeviceAlways` counts it with those that
  last; `CommittedOnly` is the theorem for a `post` that succeeds.
- Starting again or polling merges into the telemetry store: leaves that disappeared since stay stored and are
  sent again, until the next sampling round (`MergeHolds`, `StreamSubscription.Serve`, `StaleForInstance`).
- An updates-only client never gets the leaves that suppression holds back, since the store counts them as known
  (`ServedExactly`, `NeverCaughtUp`).
- The chip's port list leads back to interface names only for some lane and channel counts
  (`NamesReturnExactly`); eight-lane masters only unbroken (`FourLanesReadable`).
- An access-vlan change to a missing VLAN is refused after the old membership was removed (`AccessSettles`,
  `Vlan.RefusedForInstance`).
- The membership handlers have no revert: an abort, a timeout or a failing sibling leaves what was applied
  (`AbortRestoresExactly` and `FailureLeavesExactly`, with the exact condition under which that is what was there
  before; `MovedForInstance`).
- A malformed path can panic instead of returning an error (`FailsExactly` says which paths do which, and
  `EndsAtQuote` gives a family of each). Which characters outside ASCII are word characters is a parameter.

## Model

| member | source | states |
|---|---|---|
| `OidOrder.SubtreeConvex` | src/north/snmp/src/ax_interface/mib.py:301-310 | a registered subtree is an interval of the tuple order: what lies between two of its OIDs is in it |
| `OidOrder.SubtreesApart` | src/north/snmp/src/ax_interface/mib.py:379-389 | of two registered prefixes, neither extending the other, one has its whole subtree below the other's, so subtrees can be visited in the order of their prefixes |
| `OidOrder.SortSorts` | src/north/snmp/src/ax_interface/mib.py:382-382 | sorting the registered prefixes gives their ascending rearrangement, nothing lost |
| `OidOrder.BisectRightSplits` | src/north/snmp/src/ax_interface/mib.py:382-389 | the insertion point separates what is not above the OID from what is above it |
| `Encodings.UnpackPack` | src/north/snmp/src/ax_interface/encodings.py:54-63 | a fixed-width integer is read back from its bytes in either byte order |
| `Encodings.PackUnpack` | src/north/snmp/src/ax_interface/encodings.py:85-111 | every byte string of the width is the encoding of what is read from it |
| `Encodings.FromIterableFaithful` | src/north/snmp/src/ax_interface/encodings.py:77-83 | which tuples survive the compressed form: exactly those whose sub-id after the internet prefix is not zero (and is present) |
| `Encodings.OidSize` | src/north/snmp/src/ax_interface/encodings.py:47-63 | an OID's encoding is as long as its size, a multiple of four |
| `Encodings.OidExact` | src/north/snmp/src/ax_interface/encodings.py:85-111 | a buffer decodes to an OID if and only if the OID is well formed and the buffer starts with its encoding |
| `Encodings.IncrementBoundsSubtree` | src/north/snmp/src/ax_interface/encodings.py:65-70 | the half-open interval from a sub-id sequence to its increment is exactly the sequences extending it |
| `Encodings.IncCoversSubtree` | src/north/snmp/src/ax_interface/pdu_implementations.py:180-183 | the range a Get request builds from an OID covers exactly the OID's subtree; increment raises exactly when no sub-id is encoded |
| `Encodings.RangeSize` | src/north/snmp/src/ax_interface/encodings.py:133-138 | a search range's encoding is as long as its size, a multiple of four |
| `Encodings.RangeExact` | src/north/snmp/src/ax_interface/encodings.py:140-147 | a buffer decodes to a search range if and only if it starts with the range's encoding |
| `Encodings.PyModExact` | src/north/snmp/src/ax_interface/util.py:69-79 | Python's remainder: what rounding down leaves, between zero and the divisor, negative divisors included |
| `Encodings.PadReachesMultipleOfFour` | src/north/snmp/src/ax_interface/util.py:69-79 | padding is the least number of bytes, below four, that reaches a multiple of four |
| `Encodings.OctetsSize` | src/north/snmp/src/ax_interface/encodings.py:157-174 | an octet string's encoding is as long as its size, a multiple of four |
| `Encodings.OctetsExact` | src/north/snmp/src/ax_interface/encodings.py:176-204 | a buffer decodes to an octet string, padding included, if and only if it starts with its encoding |
| `Encodings.TypeCodeExact` | src/north/snmp/src/ax_interface/constants.py:35-54 | the value-type codes and types correspond one to one; other codes raise |
| `Encodings.DataSize` | src/north/snmp/src/ax_interface/encodings.py:246-262 | value data is encoded in the size its type gives, a multiple of four |
| `Encodings.DataExact` | src/north/snmp/src/ax_interface/encodings.py:286-336 | a buffer decodes to value data of a type if and only if it starts with the data's encoding and integers are within their wire width |
| `Encodings.VarBindSize` | src/north/snmp/src/ax_interface/encodings.py:246-262 | a binding's encoding is as long as its size, a multiple of four and at least eight |
| `Encodings.VarBindExact` | src/north/snmp/src/ax_interface/encodings.py:358-394 | a buffer decodes to a binding if and only if the binding is well formed, its integers fit the wire and the buffer starts with its encoding |
| `Encodings.VarBindRoundTrip` | src/north/snmp/src/ax_interface/encodings.py:338-394 | decoding an encoding followed by any bytes gives the same type and name, with integers reduced modulo 2^32 or 2^64 |
| `Encodings.TypecastSays` | src/north/snmp/src/ax_interface/encodings.py:266-284 | a binding built from the value a callable gave carries it under its type and name: the octets and their number with zeros for padding, the OID with its sub-ids counted, the integer; it raises exactly when an OID is the bare internet prefix |
| `MibIndex.FirstIsLeast` | src/north/snmp/src/ax_interface/mib.py:358-417 | a registered entry iterated from its start gives its least key, or has no valued key at all |
| `MibIndex.PrecedingIsGreatest` | src/north/snmp/src/ax_interface/mib.py:301-310 | the bisection finds the greatest registered prefix not above the OID |
| `MibIndex.FindParentPrefix` | src/north/snmp/src/ax_interface/mib.py:301-310 | whatever the search returns is registered and a prefix of the OID |
| `MibIndex.FindParentPrefixExact` | src/north/snmp/src/ax_interface/mib.py:301-310 | with prefix-free registrations the search returns a prefix if and only if it is registered and covers the OID |
| `MibIndex.PrefixSearchNeedsPrefixFree` | src/north/snmp/src/ax_interface/mib.py:301-310 | the search finds something for exactly the covered OIDs if and only if the registrations are prefix-free |
| `MibIndex.MibTable.GetExact` | src/north/snmp/src/ax_interface/mib.py:334-356 | Get is the Get of RFC 2741, section 7.2.3.1, if and only if the request neither reaches below a valued scalar nor falls under a registered prefix without instances |
| `MibIndex.MibTable.GetAnswers` | src/north/snmp/src/ax_interface/mib.py:334-356 | noSuchObject exactly when no registered prefix covers the OID; noSuchInstance exactly when one does, no valued scalar is strictly above it and nothing is instantiated there; for an instance the value its entry holds; below a valued scalar the scalar's; always under the requested name |
| `MibIndex.MibTable.NextAnswers` | src/north/snmp/src/ax_interface/mib.py:358-417 | what GetNext answers with: the value that the owner of the least candidate holds for it, under its type and name; END_OF_MIB_VIEW when there is none; a scalar's value for an including request below it |
| `MibIndex.GetForInstance` | src/north/snmp/src/ax_interface/mib.py:334-356 | a request below a scalar valued 7 is answered with 7, where the RFC wants noSuchInstance; one below an empty subtree with noSuchInstance, where it wants noSuchObject |
| `MibIndex.MibTable.GetNext` | src/north/snmp/src/ax_interface/mib.py:358-417 | the loop over the remaining subtrees returns the binding of the least instance among those the agent looks at, with the value its entry holds, or END_OF_MIB_VIEW when there is none |
| `MibIndex.MibTable.InParent` | src/north/snmp/src/ax_interface/mib.py:312-332 | what the start's own entry contributes to GetNext, for each of its outcomes |
| `MibIndex.MibTable.FoundAhead` | src/north/snmp/src/ax_interface/mib.py:391-410 | the first non-empty subtree ahead whose prefix precedes the end holds the least candidate |
| `MibIndex.MibTable.NothingAhead` | src/north/snmp/src/ax_interface/mib.py:391-417 | when no remaining prefix precedes the end there is no candidate left |
| `MibWalk.NextIsRfcNext` | src/north/snmp/src/ax_interface/mib.py:358-417 | when the end respects the registered subtrees the agent chooses the instance that RFC 2741, section 7.2.3.2, does: the least above the start and below the end |
| `MibWalk.EndConditionExact` | src/north/snmp/src/ax_interface/mib.py:358-417 | that condition is exact for the choice: it holds if and only if the two choose alike whatever the registered entries contain |
| `MibWalk.ScalarOverreaches` | src/north/snmp/src/ax_interface/mib.py:321-332 | an including request strictly below a scalar, with table contents for which it is answered with a name that is no instance |
| `MibWalk.GetNextExact` | src/north/snmp/src/ax_interface/mib.py:358-417 | GetNext answers as the RFC asks, whatever the registered entries contain, if and only if the end respects the registered subtrees and no including request starts strictly below a scalar |
| `MibWalk.Disagreement` | src/north/snmp/src/ax_interface/mib.py:389-389 | for a prefix that breaks the condition, a table with one instance that one of the agent and the RFC chooses and the other does not |
| `MibWalk.AnswerIsNext` | src/north/snmp/src/ax_interface/mib.py:358-417 | every answer but END_OF_MIB_VIEW is the binding of the successor, strictly above the start; END_OF_MIB_VIEW is given exactly when there is none |
| `MibWalk.SuccessorsComplete` | src/north/snmp/src/ax_interface/mib.py:358-417 | following successors lists the instances strictly between start and end, each once, ascending |
| `MibWalk.WalkComplete` | src/north/snmp/src/ax_interface/mib.py:358-417 | so does a GetNext walk, each answer's name being the next start |
| `MibWalk.WalkBindings` | src/north/snmp/src/ax_interface/mib.py:358-417 | each answer of a walk carries its own instance's value, and the walk ends with END_OF_MIB_VIEW |
| `Lldp.NextInMeetsContract` | src/north/snmp/src/gs_ax_impl/mibs/ieee802_1ab.py:409-417 | on an ascending list the bisection is the iterator contract: the least stored sub-id strictly above the argument |
| `Lldp.EntryOverListMeets` | src/north/snmp/src/ax_interface/mib.py:179-219 | a subtree entry over such a list is one the MIB table may hold |
| `Lldp.Iterate` | src/north/snmp/src/ax_interface/mib.py:184-197 | iterating a subtree entry yields each key above the empty one once, ascending, and stops, duplicates in the list or not |
| `Lldp.RemTableUpdater.UpdateData` | src/north/snmp/src/gs_ax_impl/mibs/ieee802_1ab.py:419-449 | a completed update leaves, sorted, a sub-id of zero, the interface and the remote index for each interface with a neighbour and no other, and next answers over them; it raises exactly when a remote index or a capability text cannot be read, and leaves what it had appended by then, the latter's own sub-id included |
| `Lldp.ManAddrUpdater.UpdateRemIfMgmt` | src/north/snmp/src/gs_ax_impl/mibs/ieee802_1ab.py:501-537 | a neighbour with a usable management address adds the sub-id of its time mark, interface, index, subtype and address, and the list stays sorted; one without changes nothing; a part that is no number raises and changes nothing |
| `Lldp.ManAddrUpdater.Deleted` | src/north/snmp/src/gs_ax_impl/mibs/ieee802_1ab.py:539-554 | a "del" notification drops the sub-ids whose first element is the index, adds the one found again, and next answers over the rest |
| `Lldp.DropsInterfaceExactly` | src/north/snmp/src/gs_ax_impl/mibs/ieee802_1ab.py:539-554 | that filter, which compares the time mark, drops exactly the interface's sub-ids if and only if time mark and interface index agree on which those are |
| `Lldp.KeptForInstance` | src/north/snmp/src/gs_ax_impl/mibs/ieee802_1ab.py:539-554 | a lost neighbour whose time mark is not its interface index keeps its sub-id, and another interface may lose one |
| `Pdu.ReadManyExact` | src/north/snmp/src/ax_interface/pdu_implementations.py:169-178 | a reading loop returns these items and leaves these bytes if and only if the bytes are the items' encodings followed by the rest and the byte count stops it there |
| `Pdu.HeaderExact` | src/north/snmp/src/ax_interface/pdu.py:115-141 | twenty bytes are a header if and only if they are its encoding |
| `Pdu.ReadContextExact` | src/north/snmp/src/ax_interface/pdu.py:244-257 | the optional context is read exactly when the header flags it |
| `Pdu.ReadOpenExact` | src/north/snmp/src/ax_interface/pdu_implementations.py:22-52 | an Open body is read back from exactly its encoding |
| `Pdu.ReadRegisterExact` | src/north/snmp/src/ax_interface/pdu_implementations.py:112-152 | a Register body, with its upper bound exactly when a range sub-id is given, is read back from exactly its encoding |
| `Pdu.ReadRequestExact` | src/north/snmp/src/ax_interface/pdu_implementations.py:163-190 | a Get or GetNext body is read back from exactly its encoding when the payload length stops its loop |
| `Pdu.ReadResponseExact` | src/north/snmp/src/ax_interface/pdu_implementations.py:477-506 | a Response body is read back from exactly its encoding when the payload length stops its loop |
| `PduStream.ReadBodyExact` | src/north/snmp/src/ax_interface/pdu.py:200-220 | the type byte selects the constructor that reads the body |
| `PduStream.DecodeExact` | src/north/snmp/src/ax_interface/pdu.py:200-220 | decoding gives a framed PDU and leaves the rest if and only if the bytes are its encoding followed by the rest and its payload length stops its loop |
| `PduStream.DecodeShrinks` | src/north/snmp/src/ax_interface/pdu.py:158-171 | every decoded PDU, of any type, leaves at least a header's length fewer bytes |
| `PduStream.RightLengthFits` | src/north/snmp/src/ax_interface/pdu_implementations.py:169-178 | a PDU with the right payload length is decoded whatever follows, unless it is a request with a non-default context followed by more |
| `PduStream.ConstructedRequestFits` | src/north/snmp/src/ax_interface/pdu_implementations.py:180-190 | a request built from OIDs counts its header too: it is decoded if and only if nothing follows it |
| `PduStream.StreamRoundTrip` | src/north/snmp/src/ax_interface/pdu.py:158-171 | any list of well-formed PDUs in any mix of byte orders is read back from the concatenation of their encodings |
| `PduStream.StreamIsConcatenation` | src/north/snmp/src/ax_interface/pdu.py:158-171 | a stream that ends without error on framed PDUs was the concatenation of their encodings |
| `Wire.FourReads` | src/north/snmp/src/ax_interface/encodings.py:54-63 | four bytes read in network order are the number whose first byte counts most, otherwise the number whose last does |
| `Wire.EightReads` | src/north/snmp/src/ax_interface/encodings.py:319-321 | the same for eight bytes |
| `Wire.HeaderLaidExactly` | src/north/snmp/src/ax_interface/pdu.py:115-141 | twenty bytes are a header's encoding if and only if its tags are the first four and its four ids the other sixteen, most significant byte first exactly when bit 0x10 of the flags is set |
| `Wire.OidLaidExactly` | src/north/snmp/src/ax_interface/encodings.py:54-63 | bytes are an OID's encoding if and only if they are the sub-id count, prefix, include flag, a reserved byte and four bytes for each sub-id in the byte order |
| `Wire.NameLaid` | src/north/snmp/src/ax_interface/encodings.py:77-83 | the name that stands in such bytes: after a prefix byte x other than zero it is 1.3.6.1.x and the sub-ids |
| `Wire.OctetsLaidExactly` | src/north/snmp/src/ax_interface/encodings.py:172-174 | bytes are an octet string's encoding if and only if they are four bytes of length, the octets, and fewer than four more up to a multiple of four |
| `Wire.DataLaidExactly` | src/north/snmp/src/ax_interface/encodings.py:338-357 | the same for value data of each of the thirteen types |
| `Wire.VarBindLaidExactly` | src/north/snmp/src/ax_interface/encodings.py:338-357 | the same for a binding: the number of its type in section 5.4 of RFC 2741, the reserved field, the name, the data |
| `Wire.LaidExactly` | src/north/snmp/src/ax_interface/pdu.py:222-233 | a framed PDU's encoding is the bytes that sections 5 and 6 of RFC 2741 lay it out in, field by field, and there are no others |
| `Wire.DecodesAsLaid` | src/north/snmp/src/ax_interface/pdu.py:200-220 | a buffer decodes to a framed PDU if and only if the PDU is laid out at its front and the payload length stops its loop there |
| `Wire.UnsupportedExactly` | src/north/snmp/src/ax_interface/pdu.py:200-220 | a buffer is of an unsupported type exactly when its header is whole and its type number none of the eleven |
| `Wire.CloseExactly` | src/north/snmp/src/ax_interface/pdu_implementations.py:86-99 | a Close is decoded exactly from its header, a reason and three reserved bytes, which stay in the buffer; its payload length is set to four |
| `Wire.TestSetExactly` | src/north/snmp/src/ax_interface/pdu_implementations.py:321-329 | a TestSet is decoded exactly from a context and bindings that reach to the end of the buffer |
| `PduObjects.PduObject.ChompContext` | src/north/snmp/src/ax_interface/pdu.py:244-251 | the constructor consumes the context from the front of the buffer when the header flags it, or raises |
| `PduObjects.PduObject.ChompMany` | src/north/snmp/src/ax_interface/pdu_implementations.py:169-178 | the loop chomping items while bytes and budget last consumes exactly what the reading function does |
| `PduObjects.PduObject.ParseOpen` | src/north/snmp/src/ax_interface/pdu_implementations.py:22-43 | the Open constructor reads the body from the front of the buffer and keeps the rest |
| `PduObjects.PduObject.ParseRegister` | src/north/snmp/src/ax_interface/pdu_implementations.py:112-137 | the Register constructor likewise, its upper bound only when it has a range sub-id |
| `PduObjects.PduObject.ParseRequest` | src/north/snmp/src/ax_interface/pdu_implementations.py:163-178 | the Get constructor likewise, its context first |
| `PduObjects.PduObject.ParseResponse` | src/north/snmp/src/ax_interface/pdu_implementations.py:477-497 | the Response constructor likewise, its bindings within the payload length |
| `PduObjects.PduObject.ParseTestSet` | src/north/snmp/src/ax_interface/pdu_implementations.py:321-329 | the TestSet constructor reads bindings to the end of the buffer |
| `PduObjects.PduObject.ParseBody` | src/north/snmp/src/ax_interface/pdu.py:200-220 | the registered constructor for the header's type runs on the payload; an unknown type has none |
| `PduObjects.Decode` | src/north/snmp/src/ax_interface/pdu.py:200-220 | the decoder built from these objects is the decoding function of the round trip |
| `PduObjects.ReadStream` | src/north/snmp/src/ax_interface/pdu.py:158-171 | iterating a stream yields the PDUs of the round trip and stops at the end or the first error |
| `PduObjects.MakeGetResponse` | src/north/snmp/src/ax_interface/pdu_implementations.py:192-237 | one binding for each range, each the table's Get, or an error when one of them cannot be encoded |
| `PduObjects.MakeGetNextResponse` | src/north/snmp/src/ax_interface/pdu_implementations.py:251-312 | one binding for each range, each the table's GetNext, or an error when one of them cannot be encoded |
| `PduObjects.ResponseDelivered` | src/north/snmp/src/ax_interface/pdu_implementations.py:499-506 | a response decodes, wherever it stands in a stream, to its bindings with integers reduced to their wire width |
| `Agent.Respond` | src/north/snmp/src/ax_interface/pdu_implementations.py:251-302 | the response to one PDU: the encoded lookups of all its ranges, or nothing when it warrants none or one cannot be encoded |
| `Agent.DataReceived` | src/north/snmp/src/ax_interface/protocol.py:138-153 | a received buffer makes the agent write the responses to its requests in order, up to the first PDU that raises |
| `Agent.RequestsAnswered` | src/north/snmp/src/ax_interface/protocol.py:138-147 | a buffer of requests that can be answered makes it write bytes that read back as one response for each, in order, with the request's ids, no error, and one binding for each range: what Get or GetNext gives, reduced to the wire |
| `Agent.ExchangeExact` | src/north/snmp/src/ax_interface/protocol.py:138-147 | encoding a GetNext request, decoding it, answering it, encoding the response and decoding that gives the table's next binding, reduced to the wire |
| `Agent.WireWalkIs` | src/north/snmp/src/ax_interface/mib.py:358-417 | a walk over the wire, each name read back being the next start, reads the agent's walk with its integers reduced |
| `Agent.WireWalkComplete` | src/north/snmp/src/ax_interface/mib.py:358-417 | such a walk reads exactly the instances strictly between start and end, each once, ascending, each with its entry's type and the value that holds: octets and OIDs as they are, integers modulo their width |
| `Transactions.GetHandler` | src/lib/goldstone/lib/core.py:71-81 | the cursor loop finds the handler class at the first leaf on the path, NoOp at an inner node, none off the tree |
| `Transactions.LookupExactly` | src/lib/goldstone/lib/core.py:71-81 | there is no handler class exactly for a path that leaves the tree at an inner node; a path that meets a leaf has the leaf's class, and one that ends inside has NoOp |
| `Transactions.Server.PrepareChanges` | src/lib/goldstone/lib/core.py:163-182 | handlers are made and validated in the order of the changes; the first that fails decides; a deleted change without handler is skipped |
| `Transactions.RejectedExactly` | src/lib/goldstone/lib/core.py:158-182 | with nothing pending a change is rejected, and nothing applied, if and only if pre raises, or some change that is no deletion has a path that leaves the tree, or some change meets a leaf whose class raises for it |
| `Transactions.Server.ApplyHandlers` | src/lib/goldstone/lib/core.py:183-188 | handlers are applied in order; when one raises those before it are reverted, last first |
| `Transactions.Server.Handle` | src/lib/goldstone/lib/core.py:121-200 | each event takes the machine from its state to that of the step function, with its outcome |
| `Transactions.Server.Finish` | src/lib/goldstone/lib/core.py:129-151 | done and abort cancel the timer before comparing ids; a mismatch stops the server |
| `Transactions.TimersAlways` | src/lib/goldstone/lib/core.py:129-157 | on every run, while the stop event is unset and no revert has raised, a transaction is pending if and only if exactly one revert timer is live, and it is that transaction's |
| `Transactions.AcceptedBalance` | src/lib/goldstone/lib/core.py:129-200 | on every run the accepted changes are as many as those committed, aborted or timed out, and one more while one is pending |
| `Transactions.ResolvedOnce` | src/lib/goldstone/lib/core.py:129-200 | on every run two resolutions have an acceptance between them and two acceptances a resolution, so an accepted change is resolved at most once |
| `Transactions.HarmlessEvents` | src/lib/goldstone/lib/core.py:129-157 | after any run: with every accepted change resolved a late done, abort or timer does nothing to the device; with one unresolved neither a second change nor an id mismatch does; a done never does |
| `Transactions.StoppedExactly` | src/lib/goldstone/lib/core.py:129-151 | on every run the stop event is set if and only if a done or abort came with nothing pending, or with another id |
| `Transactions.AnsweredExactly` | src/lib/goldstone/lib/core.py:129-200 | after any run, told from its outcomes and the pending transaction: which events are refused as busy, unexpected or mismatched, which commit, undo or raise, and that a done or abort leaves no timer |
| `Transactions.DeviceTouched` | src/lib/goldstone/lib/core.py:129-200 | after any run, only a change with nothing pending, an abort with the accepted id or the pending transaction's timer can alter device state |
| `Transactions.RevertRaisedStays` | src/lib/goldstone/lib/core.py:129-157 | after any run ending with a raising revert the transaction stays pending without a timer: whatever follows, short of its own done or abort, changes nothing and every change is refused as busy; when the revert task raised, not even those end it |
| `Transactions.RevertsSucceed` | src/lib/goldstone/lib/core.py:183-196 | with handlers that meet the undo law no revert of any run raises |
| `Transactions.DeviceAlways` | src/lib/goldstone/lib/core.py:121-200 | on every run the device is the in-order replay of the transactions that were committed or stranded by a raising post, then of the pending one, whose undo leads back to that replay |
| `Transactions.ChangeEventExactly` | src/lib/goldstone/lib/core.py:163-200 | after a change event on an idle server the device is unchanged or the transaction is pending, if and only if it is not the case that post raises and what was applied differs from the device |
| `Transactions.StrandedForInstance` | src/lib/goldstone/lib/core.py:183-200 | a change that adds one, under a post that raises, stays applied with nothing pending |
| `Transactions.CommittedOnly` | src/lib/goldstone/lib/core.py:121-200 | with a post that succeeds the device is the replay of exactly the committed transactions and the pending one |
| `Transactions.OwnUndosCompose` | src/lib/goldstone/lib/core.py:183-196 | handlers that each undo themselves undo a whole transaction in reverse order, at failure or later |
| `Transactions.LawfulTreeKeepsLaw` | src/lib/goldstone/lib/core.py:163-196 | so a handler tree of such handlers, with hooks that leave the device alone, meets the assumption of the run theorem |
| `OpenConfig.ValidateIsValidated` | src/xlate/openconfig/goldstone/xlate/openconfig/lib.py:135-147 | validation raises exactly when the value has no translation; otherwise it records the original leaf and whether the interface was absent |
| `OpenConfig.ListUndo` | src/xlate/openconfig/goldstone/xlate/openconfig/lib.py:149-166 | in one open session, any list of handlers validated against its contents, applied and then reverted in reverse, restores the contents exactly, though one revert may delete an interface a sibling also created |
| `OpenConfig.OwnUndoExact` | src/xlate/openconfig/goldstone/xlate/openconfig/lib.py:156-166 | one handler alone is undone by its revert if and only if it touches nothing, or no sibling has created its interface or changed its leaf since validation |
| `OpenConfig.LeafAfterList` | src/xlate/openconfig/goldstone/xlate/openconfig/lib.py:149-154 | after a list of handlers each leaf is what the last one that touches it leaves |
| `OpenConfig.ListIdleExactly` | src/xlate/openconfig/goldstone/xlate/openconfig/lib.py:149-154 | a list of handlers leaves the store as it is if and only if each managed leaf ends with its old value |
| `OpenConfig.ApplyNear` | src/xlate/openconfig/goldstone/xlate/openconfig/interfaces.py:58-82 | applying a handler touches its own leaf and at most creates its own interface |
| `OpenConfig.RevertNear` | src/xlate/openconfig/goldstone/xlate/openconfig/lib.py:156-166 | undoing the last handler leaves a store that only the earlier handlers have touched |
| `OpenConfig.OpenConfigChangeHandler.Validate` | src/xlate/openconfig/goldstone/xlate/openconfig/lib.py:135-147 | the handler's fields after validation, and when it raises |
| `OpenConfig.OpenConfigChangeHandler.SetItem` | src/xlate/openconfig/goldstone/xlate/openconfig/interfaces.py:115-117 | the name leaf is written before the handler's leaf |
| `OpenConfig.OpenConfigChangeHandler.Apply` | src/xlate/openconfig/goldstone/xlate/openconfig/lib.py:149-154 | the session after apply: the item's edits are added, or one is refused and all are discarded |
| `OpenConfig.OpenConfigChangeHandler.Revert` | src/xlate/openconfig/goldstone/xlate/openconfig/lib.py:156-166 | the session after revert: the item's revert edits are added, open or stopped; or it raises, with an edit refused or the session stopped and raising |
| `OpenConfig.OpenConfigServer.PreTransaction` | src/xlate/openconfig/goldstone/xlate/openconfig/lib.py:280-291 | a transaction begins with a new open session without edits |
| `OpenConfig.OpenConfigServer.PostTransaction` | src/xlate/openconfig/goldstone/xlate/openconfig/lib.py:293-308 | it ends with the session committed and stopped, or with its edits discarded and the datastore unchanged |
| `OpenConfig.Session.ApplyChanges` | src/xlate/openconfig/goldstone/xlate/openconfig/lib.py:302-304 | an accepted commit makes the running datastore what the session shows, a refused one leaves it |
| `OpenConfig.HandlersGive` | src/xlate/openconfig/goldstone/xlate/openconfig/interfaces.py:477-503 | the handler tree sends exactly the enabled and fec-mode paths to their handlers |
| `OpenConfig.AppliesInSession` | src/xlate/openconfig/goldstone/xlate/openconfig/lib.py:149-154 | applying prepared handlers collects their edits, or ends at a refused one with the running datastore as it was |
| `OpenConfig.BeginsExactly` | src/xlate/openconfig/goldstone/xlate/openconfig/lib.py:280-308 | a change event commits the whole list and stops the session, or fails with the running datastore as it was |
| `OpenConfig.AcceptedMeans` | src/xlate/openconfig/goldstone/xlate/openconfig/interfaces.py:44-130 | an accepted transaction leaves in each managed leaf what its changes asked for last |
| `OpenConfig.EnabledMeans` | src/xlate/openconfig/goldstone/xlate/openconfig/interfaces.py:47-76 | an accepted transaction whose last change to an interface's enabled leaf sets it leaves admin-status UP when it was set to true and DOWN otherwise, and the interface's name; one whose last change deletes it leaves none, if there was one |
| `OpenConfig.FecModeMeans` | src/xlate/openconfig/goldstone/xlate/openconfig/interfaces.py:88-130 | the same for the FEC mode: FC, RS or NONE by the identity |
| `OpenConfig.IdentityMeans` | src/xlate/openconfig/goldstone/xlate/openconfig/interfaces.py:97-104 | an identity means the same with and without its module prefix |
| `OpenConfig.RemoveFirst` | src/xlate/openconfig/goldstone/xlate/openconfig/interfaces.py:97-98 | removing a piece takes out its first occurrence and goes on behind it |
| `OpenConfig.RemoveNothing` | src/xlate/openconfig/goldstone/xlate/openconfig/interfaces.py:97-98 | and leaves a text alone that has none |
| `OpenConfig.TranslatorRejectsExactly` | src/xlate/openconfig/goldstone/xlate/openconfig/interfaces.py:477-503 | with nothing pending a change is rejected if and only if it holds a change, no deletion, of an unknown path or to a FEC mode that is none of the five |
| `OpenConfig.TranslatorRaisesExactly` | src/xlate/openconfig/goldstone/xlate/openconfig/lib.py:149-154 | and otherwise fails in a handler if and only if the session refuses one of the edits its changes ask for |
| `OpenConfig.RevertedTooLate` | src/xlate/openconfig/goldstone/xlate/openconfig/lib.py:156-166 | reverting after the commit leaves the running datastore as committed; it completes exactly when the stopped session takes every revert edit, and then holds what would have restored the datastore |
| `OpenConfig.UndosDraft` | src/xlate/openconfig/goldstone/xlate/openconfig/lib.py:156-166 | reverting a list only adds to the session, and raises exactly when the session refuses one of the revert edits |
| `OpenConfig.TranslatorAlways` | src/xlate/openconfig/goldstone/xlate/openconfig/lib.py:280-308 | on every run of events, reverts that raise included, the running datastore is what all accepted transactions lead to in order, the aborted and timed-out ones included |
| `OpenConfig.UndoneExactly` | src/xlate/openconfig/goldstone/xlate/openconfig/lib.py:156-166 | after any run, every failing change leaves the running datastore as it was; an abort or a timeout gets back the datastore from before its transaction if and only if that asked of every managed leaf what it already held |
| `OpenConfig.RevertRaisesExactly` | src/xlate/openconfig/goldstone/xlate/openconfig/lib.py:156-166 | when stopped sessions raise: after any run the abort and the timer of the pending transaction raise if and only if one of its changes sets a leaf, or deletes one that was there before it; otherwise they end it |
| `OpenConfig.CreationStays` | src/xlate/openconfig/goldstone/xlate/openconfig/lib.py:156-166 | an interface created and then aborted is still there: the abort reports success, or raises where stopped sessions do |
| `LineRate.ApplyKeepsConsistent` | src/south/tai/goldstone/south/tai/transponder.py:172-212 | a successful change leaves exactly the host interfaces the line rate lists, each watched, and its revert gives the module back exactly |
| `LineRate.AlwaysConsistent` | src/south/tai/goldstone/south/tai/transponder.py:147-212 | after any sequence of changes and last-in-first-out reverts that stays so |
| `LineRate.OwnUndoExact` | src/south/tai/goldstone/south/tai/transponder.py:172-197 | a failed setting leaves the module as it was if and only if it is not a refused line rate that had host interfaces to switch |
| `LineRate.HandlersLawfulExact` | src/south/tai/goldstone/south/tai/transponder.py:275-291 | the server's handler tree meets the assumption of the run theorem if and only if every line rate that passes validation and is refused by the device lists the same host interfaces as all others |
| `LineRate.ModuleAlways` | src/south/tai/goldstone/south/tai/transponder.py:275-291 | under that condition, on every run of the transponder server the module is consistent and is the replay of the committed changes and the pending one, whose undo leads back |
| `LineRate.AcceptedSets` | src/south/tai/goldstone/south/tai/transponder.py:110-212 | an accepted transaction leaves in each attribute of the module and its network interface what the last change that names it asked for, as its capability has it, in the others what was there, and exactly the host interfaces of its line rate |
| `LineRate.TransponderRefusesExactly` | src/south/tai/goldstone/south/tai/transponder.py:49-170 | when the server rejects a change: while initialising, or for an unknown path that is not deleted, a value a capability rules out, or a line rate without platform information; and when a handler raises: an attribute that cannot be read, or a value the device refuses |
| `LineRate.RefusedForInstance` | src/south/tai/goldstone/south/tai/transponder.py:172-197 | a change to a refused rate fails and leaves that rate's host interface in place of the old one |
| `LineRate.Module.Create` | src/south/tai/goldstone/south/tai/transponder.py:190-195 | creating a host interface starts exactly one task for it |
| `LineRate.Module.Remove` | src/south/tai/goldstone/south/tai/transponder.py:181-187 | removing one ends its task |
| `LineRate.Module.Initialize` | src/south/tai/goldstone/south/tai/transponder.py:432-481 | initialisation leaves exactly the host interfaces of the reported line rate, all of them when none is reported, each with one live task; an unknown rate raises |
| `LineRate.Module.Cleanup` | src/south/tai/goldstone/south/tai/transponder.py:483-512 | cleanup leaves no host interface and no live task |
| `LineRate.LineRateHandler.Apply` | src/south/tai/goldstone/south/tai/transponder.py:172-197 | the module and the recorded created and removed indices after apply, on success and on refusal |
| `LineRate.LineRateHandler.Switch` | src/south/tai/goldstone/south/tai/transponder.py:172-195 | the loop leaves exactly the listed host interfaces and records each created or removed one once |
| `LineRate.LineRateHandler.Revert` | src/south/tai/goldstone/south/tai/transponder.py:199-212 | revert puts the attribute back, removes what was created and restores what was removed |
| `Telemetry.PrunedDetermined` | src/system/telemetry/goldstone/system/telemetry/store.py:87-134 | stores without empty levels are determined by their leaves |
| `Telemetry.InMemoryTelemetryStore.Set` | src/system/telemetry/goldstone/system/telemetry/store.py:96-106 | one leaf is set, no other leaf changes, no level is left empty |
| `Telemetry.InMemoryTelemetryStore.Delete` | src/system/telemetry/goldstone/system/telemetry/store.py:108-117 | one leaf is deleted with the levels it empties; false when it was not there |
| `Telemetry.LeafByTurn` | src/system/telemetry/goldstone/system/telemetry/telemetry.py:264-281 | turns on distinct paths do not disturb one another: each leaf ends as its own turn leaves it |
| `Telemetry.UpdateByTurn` | src/system/telemetry/goldstone/system/telemetry/telemetry.py:264-281 | the updates sent in a round are exactly those of the leaves neither suppressed nor held back |
| `Telemetry.ClientByTurn` | src/system/telemetry/goldstone/system/telemetry/telemetry.py:264-281 | a client shows a sampled leaf's new value if it was sent and what it showed before otherwise |
| `Telemetry.RoundStore` | src/system/telemetry/goldstone/system/telemetry/telemetry.py:264-294 | after a round the store holds exactly the sampled values |
| `Telemetry.RoundNews` | src/system/telemetry/goldstone/system/telemetry/telemetry.py:245-294 | what a round sends, told from the stored leaves, the sample and the clock: an update for each leaf due when it begins, none for a leaf not due when it ends, a deletion for each leaf that is gone, nothing else; a leaf is due unless the subscription is on-change or suppressing, the value stored the same and the heartbeat off or not run out |
| `Telemetry.RoundFresh` | src/system/telemetry/goldstone/system/telemetry/telemetry.py:245-281 | under a heartbeat no leaf in the store after a round is older, at the round's beginning, than one heartbeat |
| `Telemetry.RoundReplay` | src/system/telemetry/goldstone/system/telemetry/telemetry.py:264-294 | after a round the client holds exactly the sample if and only if it already showed every leaf held back and nothing the store did not know; always when it mirrored the store |
| `Telemetry.MergeHolds` | src/system/telemetry/goldstone/system/telemetry/telemetry.py:115-120 | a start or poll leaves the sample in the store if and only if nothing was stored at a path the sample lacks |
| `Telemetry.StaleForInstance` | src/system/telemetry/goldstone/system/telemetry/telemetry.py:115-120 | a leaf stored before a start that samples nothing is still stored after it |
| `Telemetry.ServedExactly` | src/system/telemetry/goldstone/system/telemetry/telemetry.py:221-233 | over any rounds a client that was sent nothing at the start holds the latest sample, once there was one, if and only if each leaf it did not show already was sent or reported gone in some round |
| `Telemetry.PlainRoundCatchesUp` | src/system/telemetry/goldstone/system/telemetry/telemetry.py:245-281 | one round without suppression tells an updates-only client of every leaf stored at its start |
| `Telemetry.NeverCaughtUp` | src/system/telemetry/goldstone/system/telemetry/telemetry.py:245-281 | a leaf that every round finds unchanged, under suppression without a heartbeat, is never told to an updates-only client, though the store has it |
| `Telemetry.FreshEnough` | src/system/telemetry/goldstone/system/telemetry/telemetry.py:245-262 | a leaf under heartbeat was stored at most a heartbeat before a round looked at it |
| `Telemetry.KeptUntilSent` | src/system/telemetry/goldstone/system/telemetry/telemetry.py:245-281 | what a leaf was last sent with is what the store keeps until it is sent again |
| `Telemetry.HeartbeatBeats` | src/system/telemetry/goldstone/system/telemetry/telemetry.py:245-281 | rounds at most one period apart send a present leaf again within a heartbeat and one period |
| `Telemetry.RepeatsOnlyOnHeartbeat` | src/system/telemetry/goldstone/system/telemetry/telemetry.py:245-281 | for an on-change or suppressing subscription an unchanged value is repeated only when more than a heartbeat has passed, and never without one |
| `Telemetry.LeafTimeline` | src/system/telemetry/goldstone/system/telemetry/telemetry.py:264-294 | over consecutive rounds that find a leaf, what the store has for it depends on its own turns alone |
| `Telemetry.HeartbeatOverRounds` | src/system/telemetry/goldstone/system/telemetry/telemetry.py:245-281 | over any consecutive rounds that find a leaf: two updates with none between are at most a heartbeat and a period apart, and more than a heartbeat when the value is the same |
| `Telemetry.StreamSubscription.Retrieve` | src/system/telemetry/goldstone/system/telemetry/telemetry.py:115-120 | sampled leaves are stored, none is removed, nobody else's are touched |
| `Telemetry.StreamSubscription.SendCurrent` | src/system/telemetry/goldstone/system/telemetry/telemetry.py:122-135 | the client is told every stored leaf of the subscription |
| `Telemetry.StreamSubscription.Start` | src/system/telemetry/goldstone/system/telemetry/telemetry.py:137-143 | store and client after a start, updates-only or not, closed by a sync response |
| `Telemetry.StreamSubscription.Poll` | src/system/telemetry/goldstone/system/telemetry/telemetry.py:333-344 | store and client after a poll, which sends whatever updates-only says |
| `Telemetry.StreamSubscription.UpdateLeaves` | src/system/telemetry/goldstone/system/telemetry/telemetry.py:270-281 | the first loop: leaves, clock and updates sent, as one turn for each sampled path |
| `Telemetry.StreamSubscription.DeleteLeaves` | src/system/telemetry/goldstone/system/telemetry/telemetry.py:282-294 | the second loop: every stored leaf no longer sampled is deleted and told deleted |
| `Telemetry.StreamSubscription.SampleAndNotify` | src/system/telemetry/goldstone/system/telemetry/telemetry.py:264-294 | a whole round: exactly the notifications that are due, the store holding exactly the sample, a mirroring client holding it too, other subscriptions untouched |
| `Telemetry.StreamSubscription.Serve` | src/system/telemetry/goldstone/system/telemetry/telemetry.py:221-233 | a start and any sequence of rounds, updates-only or not: when the store, a client that was sent the stored leaves, and an updates-only client hold the latest sample of each subscription |
| `Relay.ReversedLast` | src/north/gnmi/goldstone/north/gnmi/server.py:463-469 | the order of leaving: the last of the list first, then the rest in the order it would leave |
| `Relay.SubscribeRequest.PushNotif` | src/north/gnmi/goldstone/north/gnmi/server.py:427-456 | a response joins behind those waiting; an unknown kind is dropped |
| `Relay.SubscribeRequest.PullNotifs` | src/north/gnmi/goldstone/north/gnmi/server.py:463-469 | pulling hands over everything waiting, in order of arrival |
| `Relay.SubscribeRequest.Serve` | src/north/gnmi/goldstone/north/gnmi/server.py:427-469 | however pushes and pulls interleave every response is delivered once, in order |
| `Breakout.Located` | src/south/sonic/goldstone/south/sonic/k8s_api.py:276-299 | every position of a generated list belongs to one sub-interface of one master |
| `Breakout.CreatePortConfig` | src/south/sonic/goldstone/south/sonic/k8s_api.py:272-299 | the nested loops list every sub-interface of every master in order with its lanes, and nothing else; a zero channel count raises |
| `Breakout.CreateChipConfig` | src/south/sonic/goldstone/south/sonic/k8s_api.py:211-233 | the same for the chip configuration's port numbers and first lanes |
| `Breakout.RowsSay` | src/south/sonic/goldstone/south/sonic/k8s_api.py:215-299 | the rows of each sub-interface in the two lists: its name, its run of lanes, the port, index and alias moved along, and one speed for all of a master, the given one only when the channel count is given too |
| `Breakout.LanesDisjoint` | src/south/sonic/goldstone/south/sonic/k8s_api.py:276-299 | no lane is given to two sub-interfaces, whatever the channel counts, when the masters' lanes do not overlap |
| `Breakout.RowInside` | src/south/sonic/goldstone/south/sonic/k8s_api.py:288-294 | a sub-interface's lanes are the run at its offset and stay inside its master's block |
| `Breakout.BlockPartitioned` | src/south/sonic/goldstone/south/sonic/k8s_api.py:286-294 | a master's sub-interfaces use up its lanes if and only if the channel count divides the lane count |
| `Breakout.ReadsGrow` | src/south/sonic/goldstone/south/sonic/k8s_api.py:57-76 | reading one more line keeps, for each name, the last line placed at it |
| `Breakout.UpdatePortmap` | src/south/sonic/goldstone/south/sonic/k8s_api.py:57-76 | the loops over the chip's ports leave each name with the last line placed at it and no other name |
| `Breakout.PlaceExactly` | src/south/sonic/goldstone/south/sonic/k8s_api.py:62-76 | a line of the chip's list goes to the last template with the nearest port at its index or up to three below: first sub-interface at the port itself, second for two lanes, otherwise counted by the distance |
| `Breakout.PlaceNowhere` | src/south/sonic/goldstone/south/sonic/k8s_api.py:62-76 | with no template port that near it goes nowhere |
| `Breakout.PlaceInside` | src/south/sonic/goldstone/south/sonic/k8s_api.py:62-76 | where a port at an offset of a master's block is placed: offsets beyond three nowhere |
| `Breakout.ComesBackExactly` | src/south/sonic/goldstone/south/sonic/k8s_api.py:62-76 | a sub-interface is found under its own name if and only if it is the first, or of width one up to the fourth, or the second of width two |
| `Breakout.AllComeBackExactly` | src/south/sonic/goldstone/south/sonic/k8s_api.py:62-76 | the same for all sub-interfaces of a master, as a condition on its channel count and width |
| `Breakout.FourLanesReadable` | src/south/sonic/goldstone/south/sonic/k8s_api.py:62-76 | with four lanes that is any channel count up to four; with eight only one |
| `Breakout.NamesReturnExactly` | src/south/sonic/goldstone/south/sonic/k8s_api.py:57-76 | the port map leads every name of the port configuration back to its port in the chip configuration if and only if every master meets the condition |
| `Breakout.NoOtherNames` | src/south/sonic/goldstone/south/sonic/k8s_api.py:57-76 | and then it holds no other name |
| `Vlan.SplitJoin` | src/south/sonic/goldstone/south/sonic/sonic.py:190-194 | splitting undoes joining for names without a comma; the empty list comes back as one empty piece |
| `Vlan.JoinSet` | src/south/sonic/goldstone/south/sonic/sonic.py:190-194 | joining a set in any order and splitting gives the set back |
| `Vlan.WithName` | src/south/sonic/goldstone/south/sonic/sonic.py:190-194 | the members field with a name added lists exactly the old names and it |
| `Vlan.WithoutName` | src/south/sonic/goldstone/south/sonic/sonic.py:210-212 | the members field with a name removed lists exactly the others; KeyError exactly when it is not there |
| `Vlan.VlansSettle` | src/south/sonic/goldstone/south/sonic/sonic.py:170-182 | creating a VLAN adds it and removing one takes it away, which is refused exactly when it has members; neither touches a membership |
| `Vlan.SingleAccessKept` | src/south/sonic/goldstone/south/sonic/interfaces.py:172-198 | no event, refused or not, gives an interface a second access VLAN |
| `Vlan.AccessSettles` | src/south/sonic/goldstone/south/sonic/interfaces.py:172-183 | an access change leaves the interface untagged in exactly the VLAN asked for; when that VLAN is missing it is refused, and nothing has changed if and only if the interface was untagged nowhere |
| `Vlan.RefusedForInstance` | src/south/sonic/goldstone/south/sonic/interfaces.py:172-183 | an interface in VLAN 10, asked for VLAN 20 which is not there, is refused and ends in none |
| `Vlan.SonicDb.CreateVlan` | src/south/sonic/goldstone/south/sonic/sonic.py:170-172 | a VLAN row appears, memberships stay |
| `Vlan.SonicDb.RemoveVlan` | src/south/sonic/goldstone/south/sonic/sonic.py:178-182 | refused exactly when it has members; otherwise its row goes |
| `Vlan.SonicDb.SetVlanMember` | src/south/sonic/goldstone/south/sonic/sonic.py:184-202 | both representations gain the member, or an unknown VLAN is refused and nothing changes |
| `Vlan.SonicDb.RemoveVlanMember` | src/south/sonic/goldstone/south/sonic/sonic.py:204-216 | both lose it; nothing happens without a members field; KeyError when the field lacks it |
| `Vlan.SonicDb.ClearAccess` | src/south/sonic/goldstone/south/sonic/interfaces.py:173-178 | the loop over the interface's member keys removes exactly its untagged memberships |
| `Vlan.SonicDb.ApplyAccess` | src/south/sonic/goldstone/south/sonic/interfaces.py:172-183 | keeps the representations equal and has the effect on memberships |
| `Vlan.SonicDb.ApplyTrunkAdded` | src/south/sonic/goldstone/south/sonic/interfaces.py:186-189 | likewise for an added trunk VLAN |
| `Vlan.SonicDb.ApplyTrunkDeleted` | src/south/sonic/goldstone/south/sonic/interfaces.py:192-198 | likewise for a deleted one: only a tagged membership goes |
| `Vlan.SonicDb.Run` | src/south/sonic/goldstone/south/sonic/interfaces.py:172-198 | over any sequence of events the names listed for a VLAN are exactly those with a member row, each interface has at most one access VLAN, and memberships are what the events add up to |
| `VlanServer.HandlersGive` | src/south/sonic/goldstone/south/sonic/interfaces.py:274-313 | the handler tree sends access-vlan and trunk-vlans changes to the membership handlers, and the others where they cannot touch memberships |
| `VlanServer.PreparedReaches` | src/lib/goldstone/lib/core.py:183-188 | applying prepared handlers leaves the effect of the membership events they got through, the raising one included, and nothing to revert |
| `VlanServer.RestoredExactly` | src/south/sonic/goldstone/south/sonic/interfaces.py:172-198 | a list of membership events leaves the memberships as they were if and only if each interface and VLAN, followed on its own, ends as it was |
| `VlanServer.FailureLeavesExactly` | src/lib/goldstone/lib/core.py:129-200 | after any run a failing change leaves its events' effect, and the memberships as before exactly under that condition; everything but a change leaves them alone, aborts and timers included |
| `VlanServer.AbortRestoresExactly` | src/lib/goldstone/lib/core.py:129-157 | a transaction accepted after any run, pending through any events and ended by any, its abort or timer included, leaves the memberships as they were before it if and only if its events, interface by interface and VLAN by VLAN, change none |
| `VlanServer.OneAccessChange` | src/south/sonic/goldstone/south/sonic/interfaces.py:172-183 | a single access change to an existing VLAN does so if and only if the interface was untagged there and nowhere else |
| `VlanServer.AcceptedSets` | src/south/sonic/goldstone/south/sonic/interfaces.py:172-198 | after any run an accepted transaction leaves each interface in each VLAN as its changes say in turn: untagged where the access VLAN was set and no longer where it was before, tagged for a created trunk VLAN, out for a deleted one |
| `VlanServer.InterfacesRejectExactly` | src/south/sonic/goldstone/south/sonic/interfaces.py:25-43 | when the server rejects a change: pre raises, a path is unknown and not deleted, an interface is unknown, or a sibling rejects it |
| `VlanServer.RaisesExactly` | src/south/sonic/goldstone/south/sonic/sonic.py:184-188 | and when a handler raises: a VLAN to join is missing, or a sibling raises |
| `VlanServer.MovedForInstance` | src/south/sonic/goldstone/south/sonic/interfaces.py:172-183 | a move from VLAN 10 to VLAN 20 does not |
| `XPath.MatchName` | src/south/netlink/src/xpath.rs:5-8 | a match takes something off the front and leaves the rest of the path as it was |
| `XPath.WordChars` | src/south/netlink/src/xpath.rs:5-8 | which one-byte characters belong to a name: letters, digits, underscore, hyphen, and the asterisk outside a prefix |
| `XPath.Find` | src/south/netlink/src/xpath.rs:23-45 | the first occurrence, or none |
| `XPath.ParseElem` | src/south/netlink/src/xpath.rs:21-58 | every turn of the outer loop consumes input |
| `XPath.SplitConds` | src/south/netlink/src/xpath.rs:29-52 | the inner loop over the index returns the conditions of the suffix and where they end |
| `XPath.SplitCond` | src/south/netlink/src/xpath.rs:31-51 | one condition: key, quote and value, or the error or panic |
| `XPath.Split` | src/south/netlink/src/xpath.rs:12-62 | the two loops over the index are the parser on suffixes, with its errors and panics |
| `XPath.ParsedElems` | src/south/netlink/src/xpath.rs:12-62 | whatever is returned is non-empty, with legal names and keys |
| `XPath.NameBack` | src/south/netlink/src/xpath.rs:5-8 | a printed name comes back with its prefix, whichever of them it has |
| `XPath.CondBack` | src/south/netlink/src/xpath.rs:31-51 | a printed condition comes back if its value lacks the quote, and never otherwise |
| `XPath.CondsBack` | src/south/netlink/src/xpath.rs:29-52 | so do all conditions of an element |
| `XPath.ParsePrintExactly` | src/north/gnmi/goldstone/north/gnmi/server.py:32-40 | splitting a printed path gives its elements back if and only if there are some, names and keys are legal and no value holds the quote |
| `XPath.ParsePrintParse` | src/south/netlink/src/xpath.rs:12-62 | whatever parses can be printed and parsed again to the same elements, if its values leave a quote to print with |
| `XPath.CondFailsExactly` | src/south/netlink/src/xpath.rs:34-49 | how a condition fails, told from its text: no equals sign, no closing quote, or no one-byte character where the quote or the closing bracket should be |
| `XPath.FailsExactly` | src/south/netlink/src/xpath.rs:12-62 | a path panics or errs if and only if it is complete elements followed by one whose name is missing or whose next condition is bad in that way |
| `XPath.ParsesExactly` | src/south/netlink/src/xpath.rs:12-62 | a path parses if and only if it is complete elements throughout, and to what they say |
| `XPath.EndsAtQuote` | src/south/netlink/src/xpath.rs:42-48 | one family of each: a path ending at a closing quote panics, one ending before it is an error |

## Left out

- Sockets, asyncio transport, gRPC, NETCONF, Redis, Kubernetes, TAI and ONLP clients: foreign calls, replaced by
  maps, sequences and functions given as parameters.
- The command line, argument parsing, start-up wiring, OpenROADM, OcNOS and counter or optical formatting: flat
  mappings or library-bound.
- `OidMIBEntry` and `OverlayAdpaterMIBEntry`: special cases of entries. Every registered entry is assumed to have
  a finite set of keys, an iterator giving the least key above, and values of its declared type.
- `MIBTable` background tasks and reinitialisation: only the lookups are modelled, on a table at rest.
- The remaining LLDP updaters, and the text of database values: what an interface's neighbour advertises is an
  input, readable or not.
- Lldp.RemTableUpdater.UpdateData: does not model the counters kept beside the list, because next never reads them.
- Close and the set PDUs inside a stream round trip: Close does not consume its payload and TestSet reads to the end
  of the buffer, so they are not framed. They are decoded by the model and covered by PduStream.DecodeShrinks.
- Encodings.VarBindRoundTrip: text given to an octet string is taken after its latin-1 encoding, because the value
  on the wire is bytes.
- PduStream.StreamRoundTrip: requests with a non-default context are left out unless last, because the code does
  not decode them otherwise; see PduStream.RightLengthFits.
- Transactions.DeviceAlways: assumes the undo law, by which reverts do not raise and a raising apply leaves its own
  target as it was, because that is what the machine asks of handlers; LineRate.HandlersLawfulExact settles it for
  one family. OpenConfig and VlanServer have run theorems without it, and RevertRaisedStays is about its failure.
- Transactions.Server.Handle: does not model the interleaving of a suspended asynchronous revert with other events,
  because reverts suspend only for coroutines; a timeout is one step.
- OpenConfig.TranslatorAlways: what the datastore library does with a stopped session is not part of this model;
  whether it collects edits that nobody commits or raises is a parameter, and the theorems cover both. Nobody else
  is taken to write the datastore meanwhile.
- Agent.DataReceived: an established session, where responses received are passed over; the opening handshake and the
  registrations sent after it are not followed.
- OpenConfig.ListUndo: assumes that existing interfaces carry their name leaf and that deleting an absent node does
  nothing, because the native model's list key guarantees the first and the datastore the second.
- LineRate.ModuleAlways: does not follow the attributes of host interfaces, which a removed one loses; the model looks
  at the line rate, the module's and the network interface's attributes, and which host interfaces exist and are
  watched. One function stands for metadata and capability checks, conflicting configuration included.
- LineRate.Module.Create: one task stands for all monitors of a host interface, because they are started and
  cancelled together.
- Telemetry paths and sampled values are inputs; the parser that flattens a tree into leaves is not part of this
  model. Equality of values is Dafny's, without Python's equality of 1 and true.
- Telemetry.StreamSubscription.SampleAndNotify: heartbeats are in units of the clock, because the conversion from
  nanoseconds is a constant factor; sends are taken to succeed.
- Breakout.CreatePortConfig: names are pairs of numbers and not text, and the rendering of the templates, the virtual
  switch's lane map and the interface types are left out, because nothing depends on them.
- Breakout.UpdatePortmap: takes the parsed port list, because the text of the chip's answer is foreign.
- Vlan.SonicDb.Run: does not cover reconciliation, which sets memberships without clearing; member keys are pairs
  and not text matched by patterns, so interface names with the separators of the database are excluded.
- The name of a VLAN and other VLAN leaves: they touch neither representation.
- VlanServer.FailureLeavesExactly: the other interface handlers are known only by whether they are rejected or raise,
  because none of them writes memberships; VLANs are taken not to come and go while one transaction applies.
- XPath.Split: which characters outside ASCII match `\w` is a parameter, because the tables behind it are not part of
  this model; the theorems hold for every choice.
- The gNMI server's conversion of notifications to responses, timestamps included: a response is opaque to the relay.

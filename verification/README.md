# rest-smpp-herald: a verified model

rest-smpp-herald connects REST clients with SMPP v5.0 short message centres, and acts as such a centre
itself. This project models its stateful core in Dafny and proves what that core keeps:

- **PDU codec** (`Bytes`, `Base64`, `Values`, `Codec`, `FieldCodec`, `CommandIds`, `Tables`, `Pdu`,
  `Message`, `PduLaws`, `WireLaws`, `LayoutLaws`, `Forwarding`, `ReceivedLaws`): the field codecs, the
  command and TLV tables, encoding and decoding of whole PDUs for every order in which the optional fields
  are visited, their octets position by position, the projection of a submit_multi and the relabelling of
  any received submit_sm. The in-place codecs are methods on a buffer, proved against the functions
  `Encode`/`Decode` and `EncodePdu`/`DecodePdu`.
- **Stream reassembly** (`Framing`): the receive buffer, for every way a stream is cut into chunks.
- **Pending-message store** (`Storage`, `StorageLaws`, `MessageStorage`, `SqlCancel`, `DeliveryQueue`): the
  two maps in memory and their invariants over every run, the text and bound values of the generated
  `DELETE` and its agreement with the store in memory, and the queue kept by binary search.
- **Requests and responses** (`Correlation`, `Transactions`, `ConnectionManager`, `EsmClasses`,
  `Receipts`): senders, reader and timeouts as interleaved steps, the server's waiters for
  acknowledgements, failover and round robin, and receipt registrations that expire.
- **Server** (`StatusCodes`, `Responses`, `Server`, `ServerLaws`, `SubmissionLaws`, `RequestLaws`, `MultiLaws`,
  `FanOutLaws`, `ServerStream`, `ServerConnection`): what each received request does to the store, to what is
  handed on and to the octets of its answer, the submit_multi fan-out, and the whole connection from received
  octets to written responses, including the runs that end in a panic.

Classes and methods update state in place as the source does; functions say what they compute, and lemmas
prove what that means. Strings are their octets, times are integers, and the clock is read once per
operation. The two time parsers, the message handler, user authentication, message ids, the outcome of
each write and the iteration order of hash maps are parameters, quantified over in every theorem.

## What the code does in cases worth knowing

Each is a theorem below, for all inputs of its kind.

- A TLV decodes to null when it is empty, cut short or unreadable to its codec; the last TLV of a tag decides.
  A null (other than alert_on_message_delivery) cannot be encoded: forwarding such a submit_sm in transaction
  mode, or delivering it from the store, panics. A data_sm always panics there, because deliver_sm needs a
  short_message. A connection on which no write fails dies of exactly the PDUs that panic in transaction mode.
- A dest_addr_np_country of 0 is written without octets, so a forwarded submit_sm loses it. Everything else
  arrives, strings cut to the length of their field.
- An empty short_message encodes but does not decode, so a submit_sm from the wire always has text and
  predefined texts never replace it.
- dest_addr_np_country comes back with its octets reversed.
- A short_message that is not base64 goes out as its own octets and comes back as base64 of them.
- Without any message mode, neither in esm_class nor by default, a submission is accepted and dropped.
- A length word of 0 makes the extraction loop spin for ever.
- While a request awaits its response it holds the writer. A deliver_sm that arrives meanwhile makes the
  reader wait for the writer, so the response is not read: a request without its response can succeed exactly
  while the reader has nothing to write.
- An acknowledgement that arrives before the transaction's waiter is registered is lost; a later one reaches it.
- Once 2^32 numbers have been taken while a request waits, a new request takes over its callback and its response.
- A delivered message stays in the store in memory and is delivered again at every tick until it expires,
  except while a later entry of its id is ready. The delivery handler itself never reports a failure.
- Removing a message whose delivery failed leaves its pair in the user index.
- A message with empty schedule_delivery_time and validity_period is refused by the store in memory.
- A cancel_sm without criteria empties the store in memory; SQL refuses it.
- A submit_multi stores all its messages under one id. When it names one text address with two types of
  number, a cancel_sm for one type removes one message and loses the other from the user index; two messages
  no cancel_sm can tell apart stay together.
- With round robin and no connection the remainder by zero panics before the empty list is noticed.
- A registration that asks for both a receipt and an intermediate notification is consumed by no event.
- Requests the server does not implement get no octets at all: their responses lack mandatory fields, or
  have no table entry.

## Model

| member | source | states |
|---|---|---|
| Bytes.NulIndexOfCString | src/message.rs:224-238 | A C-octet string at the head of a buffer ends at its own terminator exactly when it holds no NUL. |
| Bytes.BytesMut.SplitTo | src/message.rs:189-195 | Removing a prefix splits the buffer and loses nothing. |
| Bytes.BytesMut.ReadU16 | src/message.rs:181-183 | Two octets big-endian, or nothing consumed when there are fewer. |
| Bytes.BytesMut.ReadU32 | src/message.rs:185-187 | Four octets big-endian, or nothing consumed when there are fewer. |
| Bytes.BytesMut.Read | src/message.rs:189-195 | Refuses length 0 and lengths beyond the buffer, otherwise consumes exactly that many octets. |
| Bytes.BytesMut.ReadCOctetStr | src/message.rs:224-233 | Consumes up to and including the first NUL, and fails without one. |
| Base64.DecodeEncode | src/field_codec.rs:245-284 | Decoding a payload's base64 text gives the payload back (section 4 of RFC 4648). |
| Base64.EncodeDecode | src/field_codec.rs:245-284 | Text that decodes is the canonical encoding of what it decodes to. |
| Base64.EncodeInjective | src/field_codec.rs:264-284 | Different payloads have different texts. |
| Base64.GroupOfThree | src/field_codec.rs:264-284 | Three octets are taken as one number of 24 bits and written as its four digits to the base 64. |
| Codec.Exact | src/field_codec.rs:73-545 | For every codec and value: decoding the encoding, with anything after it, gives the normal form and stops there exactly when the value is good. |
| Codec.ExactItems | src/field_codec.rs:351-387 | The same for a counted list of items. |
| Codec.ExactMembers | src/field_codec.rs:398-427 | The same for a composite; a spoilt member shows in the decoded object. |
| Codec.Reencode | src/field_codec.rs:73-545 | A value that survived is written with the same octets again. |
| Codec.DecodedIsEncodable | src/field_codec.rs:73-545 | Whatever a codec decodes, it can encode. |
| Codec.VarLengthIntReversesOctets | src/field_codec.rs:138-167 | The variable-length integer comes back with its octets reversed, and unchanged exactly for palindromes. |
| Codec.VarLengthIntExample | src/field_codec.rs:138-167 | 0x0102 goes out as 02 01 and comes back as 0x0201. |
| Codec.TextOnTheWire | src/field_codec.rs:245-275 | An octet string is written as what its text is base64 for, or as its own octets when it is not base64, behind a length field that is read back as their number. |
| Codec.ShortTextOnTheWire | src/field_codec.rs:245-275 | With at most 255 octets: one octet of length, then those octets. |
| Codec.ShortTextReadBack | src/field_codec.rs:245-284 | A text that is not base64 is read back as base64 of exactly its octets. |
| FieldCodec.EncodeField | src/field_codec.rs:73-545 | The in-place encoders append what `Encode` specifies and succeed exactly when it does. |
| FieldCodec.EncodeScalar | src/field_codec.rs:73-335 | The scalar encoders, including the truncation of strings and numbers. |
| FieldCodec.EncodeDestination | src/field_codec.rs:432-458 | The tagged union of an address and a distribution list, with missing ton and npi as 0. |
| FieldCodec.EncodeDigits | src/field_codec.rs:139-154 | The loop that writes low octets first. |
| FieldCodec.EncodeList | src/field_codec.rs:352-371 | Items one after the other; the first that fails fails the list. |
| FieldCodec.EncodeComposite | src/field_codec.rs:399-411 | Members in table order; a missing member fails. |
| FieldCodec.DecodeField | src/field_codec.rs:73-545 | The in-place decoders read what `Decode` specifies and leave the same rest. |
| FieldCodec.DecodeScalar | src/field_codec.rs:87-284 | The scalar decoders. |
| FieldCodec.DecodeDestAddress | src/field_codec.rs:460-500 | Reads the tag and one of the two forms. |
| FieldCodec.DecodeDigits | src/field_codec.rs:156-167 | The loop that reads high octets first in 64 bits. |
| FieldCodec.DecodeList | src/field_codec.rs:373-387 | Exactly the announced number of items. |
| FieldCodec.DecodeComposite | src/field_codec.rs:413-427 | All members in order. |
| CommandIds.NumbersAreUnique | src/command_ids.rs:51-99 | A number denotes a command exactly when it is that command's number. |
| CommandIds.ParseHexText | src/command_ids.rs:101-110 | The eight hexadecimal digits of a number are read back as it. |
| CommandIds.FromHexText | src/command_ids.rs:101-162 | The text `0x%08X` of an identifier is read back as that identifier. |
| Tables.TlvNamed | src/field_codec.rs:999-1008 | A tag names exactly the optional field that has it. |
| Tables.FieldsAreSound | src/message.rs:629-905 | No command names a field twice or uses a header word as a field; message_state is the one field that is also a TLV. |
| Tables.TlvsAreSound | src/field_codec.rs:598-986 | Every TLV codec is well formed and no TLV is a header word. |
| Pdu.TlvLoopIsFold | src/message.rs:490-505 | On well-formed TLVs, up to a stray octet, the decoder's loop ends with the fold of their values. |
| Pdu.LastOccurrenceWins | src/message.rs:490-505 | In that fold the last occurrence of each field wins and other fields stay. |
| Pdu.ReadTlvValue | src/message.rs:197-210 | Each turn of the loop consumes at least two octets, also when the value is short or empty. |
| Pdu.OrderExists | src/field_codec.rs:988-997 | The table of optional fields has an iteration order, so the theorems over every order say something. |
| PduLaws.Layout | src/message.rs:350-427 | A PDU is length, identifier, status, number, mandatory part and TLVs. |
| PduLaws.RoundTrip | src/message.rs:350-508 | For every command, message and order of the optional fields: decoding the encoding gives the normal form exactly when the PDU is good. |
| PduLaws.RoundTripGood | src/message.rs:350-508 | Mandatory part and optional part both come back, message_state written twice included. |
| PduLaws.RoundTripBadMandatory | src/message.rs:429-488 | A spoilt mandatory field always shows in the result. |
| PduLaws.RoundTripLongTlv | src/message.rs:244-248 | A TLV value of 65536 octets or more never comes back. |
| PduLaws.TlvLoopKeeps | src/message.rs:490-505 | Reading optional fields changes no other field. |
| LayoutLaws.RequestOctets | src/message.rs:350-427 | The octets of a bind, submit_sm, deliver_sm, data_sm, submit_multi, query_sm, cancel_sm, replace_sm, unbind or enquire_link: identifier, status, number and each mandatory field or its default in its place, as SMPP v5.0 numbers and orders them, then the TLVs. |
| LayoutLaws.RequestArrives | src/message.rs:429-508 | Whatever fits its place arrives: texts as far as they fit, low octets, and a short text as base64 of the octets it stood for. |
| LayoutLaws.PlainTextArrives | src/field_codec.rs:245-284 | The short_message of a submit_sm that is not base64 and has 1 to 255 octets arrives as base64 of exactly itself. |
| LayoutLaws.AnswerOctets | src/message.rs:299-348 | The octets of an answer with sufficient fields: the identifier with the response bit, status, the request's number and the fields in their places. |
| SmppMessage.EncodeTlv | src/field_codec.rs:563-575 | Tag, length and value are appended, or nothing. |
| SmppMessage.ReadTlv | src/message.rs:197-210 | Reads one TLV as `ReadTlvValue` says. |
| SmppMessage.DecodeTlv | src/field_codec.rs:577-592 | The value of a TLV, null when it is short or empty. |
| SmppMessage.EncodeMandatoryPart | src/message.rs:368-402 | The loop over the field table, with defaults for missing fields. |
| SmppMessage.EncodeOptionalPart | src/message.rs:404-424 | The loop over the TLV table in any order. |
| SmppMessage.EncodeMessageWithFields | src/message.rs:350-427 | The method that builds a PDU computes `EncodePdu`. |
| SmppMessage.UpdateLength | src/message.rs:128-131 | The length word is overwritten and nothing else. |
| SmppMessage.ToJson | src/message.rs:429-508 | The method that reads a PDU computes `DecodePdu`. |
| SmppMessage.DecodeMandatoryPart | src/message.rs:470-488 | The loop over the field table. |
| SmppMessage.DecodeOptionalPart | src/message.rs:490-505 | The TLV loop, which ends on every input. |
| WireLaws.ReencodeAs | src/message.rs:350-508 | Re-encoding a decoded message gives the same mandatory part, and the same TLVs up to permutation exactly when dest_addr_np_country is a palindrome. |
| WireLaws.WireStability | src/message.rs:319-508 | For every good message whose country octets are a palindrome: decoding its PDU and encoding it again, through the hexadecimal identifier, gives the same octets up to the order of the TLVs. |
| WireLaws.PermutedLength | src/message.rs:404-424 | The order of the TLVs does not change the length of the PDU. |
| WireLaws.SubmitRelabelledAsDeliver | src/smsc_server/smsc_server.rs:881-887 | For a good submit_sm: decoded and relabelled as deliver_sm it encodes, and differs in its two header words and the order of its TLVs only. |
| Forwarding.DecodedMembersSound | src/message.rs:429-508 | A decoded message has every mandatory field of its command with an encodable value, and nothing but header, fields and TLVs. |
| Forwarding.RelabelledEncodesIff | src/smsc_server/smsc_server.rs:881-887 | A message with the fields of a submit_sm can be sent on as deliver_sm exactly when no null TLV is in its way. |
| Forwarding.ForwardingSubmitSm | src/smsc_server/smsc_server.rs:1349-1354 | For any received submit_sm: it can be sent on exactly when, of each tag but that of alert_on_message_delivery, the last TLV is whole, non-empty and readable by its codec. |
| Forwarding.NoNullsIffReadable | src/field_codec.rs:577-592 | That condition on the received octets holds exactly when the decoded message has no null that cannot be encoded. |
| Forwarding.LastTlvDecides | src/message.rs:490-505 | On any octets that decode, an optional field has the value of the last TLV with its tag. |
| Forwarding.ForwardingDataSm | src/smsc_server/smsc_server.rs:51-72 | A received data_sm can never be sent on as deliver_sm. |
| Forwarding.ProjectionRoundTrip | src/smsc_server/smsc_server.rs:1212-1265 | Every submit_sm projected from a decoded submit_multi encodes, and decodes to the shared fields and the destination exactly when the address has no NUL in its first 21 octets. |
| ReceivedLaws.ReceivedIsReadOn | src/smsc_server/smsc_server.rs:881-887 | Whatever submit_sm was received and can be sent on: the receiver of the deliver_sm reads its normal form exactly when there is no country code of zero. |
| ReceivedLaws.ReadOnFields | src/smsc_server/smsc_server.rs:881-887 | Field by field, that normal form is the received message: strings cut to their field, country codes reversed, a missing alert octet 0, everything else as it was. |
| ReceivedLaws.TlvPassed | src/field_codec.rs:563-592 | An optional field of a received submit_sm can be encoded again and read back, and is written as nothing exactly when it is a country code of zero. |
| Framing.SmppMessageBuffer.Write | src/message.rs:86-88 | Octets are appended. |
| Framing.SmppMessageBuffer.ExtractMessage | src/message.rs:67-78 | A PDU is extracted exactly when header and announced length are there; it and the rest are the old buffer. |
| Framing.SmppMessageBuffer.ExtractAll | src/smsc_server/smsc_server.rs:139-155 | The extraction loop computes `Drain`, and reports when it would not end. |
| Framing.SmppMessageBuffer.Receive | src/smsc_client/smsc_connection.rs:442-449 | One turn of the receiving loop. |
| Framing.DrainConserves | src/message.rs:67-78 | What is extracted, followed by what is left, is the input. |
| Framing.LoopEndsIff | src/smsc_server/smsc_server.rs:139-155 | The extraction loop ends exactly when it meets no length of zero. |
| Framing.DrainMore | src/message.rs:67-88 | Octets that arrive later never change what was extracted before. |
| Framing.ChunkingIndependence | src/smsc_server/smsc_server.rs:129-155 | However a stream is cut into chunks, the same PDUs are extracted and the same octets left. |
| Framing.DrainPdus | src/smsc_client/smsc_connection.rs:442-449 | A series of correct PDUs comes out as it went in, and an incomplete end stays. |
| Framing.PdusAnyChunking | src/smsc_client/smsc_connection.rs:418-452 | The same for any chunking of the stream. |
| Framing.StreamRoundTrip | src/message.rs:350-508 | Messages encoded, concatenated, cut into any chunks, extracted and decoded arrive in order as their normal forms. |
| StorageLaws.EveryRunFromEmpty | src/message_storage.rs:264-357 | Over every run no list is empty; while no id is saved twice for a destination the user index covers every entry, exactly as long as no failed delivery was removed. |
| StorageLaws.StepKeeps | src/message_storage.rs:264-425 | Each operation keeps these invariants. |
| StorageLaws.SiftedKeeps | src/message_storage.rs:284-357 | Every pass that drops entries and their index pairs keeps them. |
| StorageLaws.RemoveAtKeeps | src/message_storage.rs:274-282 | Removal after a failed delivery leaves no empty list and keeps the index covering the entries. |
| StorageLaws.RemoveAtExactIff | src/message_storage.rs:274-282 | It loses exactness exactly when its id is stored: the pair of the removed entry stays indexed. |
| StorageLaws.SaveKeeps | src/message_storage.rs:409-425 | A fresh save keeps all three. |
| StorageLaws.ReplaceKeeps | src/message_storage.rs:615-770 | A replacement keeps all three. |
| StorageLaws.SavedIsAlive | src/message_storage.rs:362-426 | A saved entry is unexpired, its schedule is not after its validity, and it stands at the end of its list. |
| StorageLaws.SavedValidity | src/message_storage.rs:30-46 | A saved message expires as its validity_period says, or after its qos_time_to_live, or else the default after its schedule, or after now. |
| StorageLaws.WithoutTimesRefused | src/message_storage.rs:385-390 | Empty schedule and validity texts, as decoding gives them, are refused. |
| StorageLaws.UnreadableValidityNeverExpires | src/message_storage.rs:30-46 | An unreadable validity with a readable schedule is stored and never expires. |
| StorageLaws.CancelRemovesMatching | src/message_storage.rs:461-612 | Cancellation leaves exactly the entries that do not match the eight criteria. |
| StorageLaws.CancelChangesIff | src/message_storage.rs:593-612 | It changes the store exactly when some entry matches. |
| StorageLaws.NoCriterionCancelsAll | src/message_storage.rs:461-612 | Without any criterion it removes every message. |
| StorageLaws.CancelCoversIff | src/message_storage.rs:593-612 | Cancellation keeps the index covering the store exactly when it tells no two entries of one id and one user apart. |
| StorageLaws.SeparatedPairIsLost | src/message_storage.rs:264-272 | When it does, the entry that stays is stored and no longer indexed. |
| StorageLaws.CoverageCanBeLost | src/message_storage.rs:593-612 | Such a run from the empty store exists. |
| StorageLaws.CleanRemovesExpired | src/message_storage.rs:284-313 | Cleaning takes away every copy of each entry whose validity ended before, and of no other. |
| StorageLaws.PassRemovesStale | src/message_storage.rs:325-344 | A pass looks at the entries of an id from the end back to the last one in time; of those it takes away exactly those due whose validity ended before, and all others stay. |
| StorageLaws.PassChooses | src/message_storage.rs:315-357 | It hands out the last entry of an id that is due and unexpired; up to it nothing moves. |
| StorageLaws.PassIsComplete | src/message_storage.rs:346-347 | One message is handed out for exactly the ids that have one ready. |
| StorageLaws.HandedOutIff | src/message_storage.rs:315-357 | What a pass hands out is exactly the last entry of its id whose schedule has come and whose validity has not ended. |
| StorageLaws.HandedOutAgainIff | src/message_storage.rs:443-455 | A message whose delivery did not fail stays at its place over any saves and ticks; until it expires it is handed out again exactly when no later entry of its id is ready. |
| StorageLaws.ListAfterFollowUp | src/message_storage.rs:443-455 | With saves between a pass and its removals, each id loses exactly the entry that failed and gains exactly the entries saved, at its end. |
| StorageLaws.PositionIsStable | src/message_storage.rs:409-418 | The position handed out denotes the same entry after any saves and removals for other ids. |
| StorageLaws.PositionAfterCancel | src/message_storage.rs:593-598 | After a cancellation it is lower by the entries removed before it, and unchanged exactly when there were none. |
| StorageLaws.UpdatedFrame | src/message_storage.rs:739-765 | An entry is updated exactly when each given source ton, npi and address is its own; then it takes over the new text, times, default text number and registered_delivery, and no other field. |
| StorageLaws.ReplaceTouches | src/message_storage.rs:615-770 | An accepted replace_sm updates exactly the entries of its id whose source agrees, each in its place; every other entry and the user index stay. |
| StorageLaws.ReplaceAcceptedIff | src/message_storage.rs:615-705 | A replace_sm is accepted exactly when it names a stored id, brings a text or the number of one, and no time that cannot be read; otherwise the store stays. |
| StorageLaws.RunShowsTimes | src/message_storage.rs:751-761 | Over every run each stored entry's times are what its message's text was read as when it was saved or replaced. |
| MessageStorage.InMemoryMessageStorage.Save | src/message_storage.rs:362-426 | The method refuses in the source's order and otherwise does what `Storage.Save` specifies. |
| MessageStorage.InMemoryMessageStorage.RemoveUserMessageId | src/message_storage.rs:264-272 | Every copy of the id leaves the user's list, and an emptied list leaves the map. |
| MessageStorage.InMemoryMessageStorage.RemoveMessageById | src/message_storage.rs:274-282 | One position of one list is removed, and an emptied list leaves the map; it panics exactly when the list is there and too short. |
| MessageStorage.CancelScan | src/message_storage.rs:503-597 | The backward loop with removal computes an order-preserving filter and the pairs it removed. |
| MessageStorage.InMemoryMessageStorage.CancelMessage | src/message_storage.rs:461-612 | The whole cancellation; true exactly when some entry matched. |
| MessageStorage.InMemoryMessageStorage.CleanScan | src/message_storage.rs:288-301 | The backward expiry loop computes the filter and removes the pairs. |
| MessageStorage.InMemoryMessageStorage.CleanExpiredMessages | src/message_storage.rs:284-313 | The whole cleaning, in any order of the ids. |
| MessageStorage.InMemoryMessageStorage.DeliverScan | src/message_storage.rs:320-348 | The backward loop that stops at the message to deliver. |
| MessageStorage.InMemoryMessageStorage.GetDeliveryMessages | src/message_storage.rs:315-357 | The whole pass; the deliveries are those of `Deliveries`, one for each id. |
| MessageStorage.InMemoryMessageStorage.DeliveryTick | src/message_storage.rs:443-455 | After a tick with nothing in between, exactly the entries whose delivery failed are gone. |
| MessageStorage.UpdateEntry | src/message_storage.rs:711-766 | One entry is updated as `Updated` specifies. |
| MessageStorage.InMemoryMessageStorage.ReplaceMessage | src/message_storage.rs:615-770 | The whole replacement, with the source's order of refusals. |
| SqlCancel.QueryFields | src/message_storage.rs:1150-1175 | The growing list holds exactly the columns with a criterion, in order. |
| SqlCancel.ConditionText | src/message_storage.rs:1184-1196 | The numbered clauses joined by AND. |
| SqlCancel.CancelQuery | src/message_storage.rs:1113-1226 | Text and bound values of the statement, or a refusal without criteria. |
| SqlCancel.EvaluateClauses | src/message_storage.rs:1184-1226 | Clause j compares its column with the value bound under its number. |
| SqlCancel.StatementMeansCriteria | src/message_storage.rs:1150-1226 | On every row the text, read word by word with its bound values, is the conjunction of exactly the given criteria. |
| SqlCancel.OneCriterionText | src/message_storage.rs:1150-1226 | A cancel_sm with one criterion becomes a statement about the column of that name. |
| SqlCancel.CriteriaAgree | src/message_storage.rs:499-597 | With numbers of one octet, the criteria on a saved row are the in-memory criteria. |
| SqlCancel.DeleteRefinesCancel | src/message_storage.rs:1150-1235 | On a table that mirrors the store, the DELETE leaves a table that mirrors the store after its own cancellation. |
| SqlCancel.DeletedSomethingIff | src/message_storage.rs:1228-1235 | Both report success on the same condition. |
| SqlCancel.RefusedIffNoCriterion | src/message_storage.rs:1177-1182 | With numbers of one octet, SQL refuses exactly the cancel_sm without criteria, the one that empties the store in memory. |
| SqlCancel.WideNumberDiffers | src/message_storage.rs:1124-1127 | 256 is a criterion to SQL and none in memory; no cancel_sm from the wire carries such a number. |
| SqlCancel.SaveMirrors | src/message_storage.rs:1029-1072 | An appended row of a saved message keeps the table a mirror. |
| SqlCancel.SaveMirrorsIff | src/message_storage.rs:981-1072 | Without replacement, saving in both keeps the table a mirror exactly when both accept or both refuse. |
| SqlCancel.ReplacedIsAlone | src/message_storage.rs:916-965 | With replace_if_present_flag an accepted message is afterwards the only one with its service type, source and destination. |
| DeliveryQueue.CompareIsOrder | src/message_storage.rs:101-132 | The comparison is the intended order except for an unscheduled message held against a scheduled one. |
| DeliveryQueue.InsertKeepsOrderIff | src/message_storage.rs:158-173 | Insertion at a position keeps the order exactly when everything left of it is before and everything right after. |
| DeliveryQueue.SearchFits | src/message_storage.rs:161-164 | When the message can be compared with the whole queue, every position the search may return fits. |
| DeliveryQueue.InsertionIsSafeIff | src/message_storage.rs:158-173 | Every position the search may return keeps the order exactly when the message is unscheduled or no unscheduled one is queued. |
| DeliveryQueue.DeliveryMessageInfoManager.BinarySearch | src/message_storage.rs:161-164 | A binary search, whatever it probes, returns such a position. |
| DeliveryQueue.DeliveryMessageInfoManager.AddDeliveryMessage | src/message_storage.rs:158-173 | The message is inserted there; the contents grow by it. |
| DeliveryQueue.DeliveryMessageInfoManager.GetDeliveryMessage | src/message_storage.rs:175-187 | The front leaves when due; while ordered, nothing is returned exactly when nothing queued is due. |
| DeliveryQueue.RunConserves | src/message_storage.rs:158-187 | Over every run, what was added is queued or was handed out. |
| DeliveryQueue.RunKeepsOrder | src/message_storage.rs:158-187 | The order holds over every run that adds scheduled messages only while no unscheduled one is queued. |
| Correlation.StepKeeps | src/smsc_client/smsc_connection.rs:723-756 | Every step keeps the writer exclusive, callbacks sound and responses with their own number. |
| Correlation.EveryRunIsSafe | src/smsc_client/smsc_connection.rs:723-756 | On every interleaving at most one request is between write and completion, none while the reader replies, and success means a response of the own number. |
| Correlation.OutcomeTells | src/smsc_client/smsc_connection.rs:723-756 | How a request finishes: by its timer, with the response its channel holds, or because its write failed or its channel was closed; the writer is free afterwards. |
| Correlation.ReaderComesBack | src/smsc_client/smsc_connection.rs:618-645 | From every state the reader can get back to reading with the writer free, without anything from the other side: a reply ends, and so does every request. |
| Correlation.ReceivedAfterRegistration | src/smsc_client/response_manager.rs:24-31 | A response a sender holds was received after it registered. |
| Correlation.StepRoutes | src/smsc_client/response_manager.rs:24-70 | Within 2^32 allocations every registered request is found under its number or has its response. |
| Correlation.NoResponseIsLost | src/smsc_client/smsc_connection.rs:515-525 | A response handled between write and timeout is never lost: the request can only complete with it. |
| Correlation.DisplacedIff | src/smsc_client/response_manager.rs:24-31 | Registering a request displaces a waiting one exactly when a multiple of 2^32 lies between them. |
| Correlation.WrapMisroutes | src/sequence_number_allocator.rs:25-27 | After 2^32 allocations a waiting request fails and its response goes to the request that took its number. |
| Correlation.WrapIsReachable | src/sequence_number_allocator.rs:25-27 | The whole run, from the initial state on. |
| Correlation.ReplyStarvesRequest | src/smsc_client/smsc_connection.rs:723-756 | While the reader wants the writer that a waiting request holds, that request cannot succeed on any run. |
| Correlation.WaitingCanSucceedIff | src/smsc_client/smsc_connection.rs:723-756 | A waiting request without its response can succeed on some run exactly when the reader has nothing to write. |
| Correlation.ArrivalDecidesSuccess | src/smsc_client/smsc_connection.rs:618-645 | After any run from the start within 2^32 allocations: it can succeed until a message to be acknowledged arrives, and then it cannot. |
| Correlation.SequenceNumberAllocator.Next | src/sequence_number_allocator.rs:25-27 | The n-th number is n modulo 2^32. |
| Correlation.ResponseManager.RegisterCallback | src/smsc_client/response_manager.rs:24-31 | A fresh channel under the number; an earlier one is closed and no other is touched. |
| Correlation.ResponseManager.ResponseReceived | src/smsc_client/response_manager.rs:62-70 | The response fills the channel of its number, which is used up. |
| Correlation.RegisterRefines | src/smsc_client/response_manager.rs:24-31 | Registering on the manager object is the step Register of the machine. |
| Correlation.ReceiveRefines | src/smsc_client/response_manager.rs:62-70 | Handing a response to the manager object is the step Receive of the machine. |
| Transactions.ResolvedIsOver | src/smsc_server/transaction_response_manager.rs:37-59 | A resolved waiter has a response of its number or none, its entry is gone and, within the window, so is any entry of its number. |
| Transactions.ResolvedStays | src/smsc_server/transaction_response_manager.rs:37-59 | A waiter resolves once. |
| Transactions.WaiterProgresses | src/smsc_server/transaction_response_manager.rs:44-59 | An unresolved waiter always has a move of its own towards resolution, and no other move sets it back. |
| Transactions.AnswerArrivedAfterEntering | src/smsc_server/smsc_server.rs:925-931 | An answer arrived after its waiter was registered. |
| Transactions.AcknowledgementReachesIff | src/smsc_server/smsc_server.rs:925-931 | On every interleaving within the window an acknowledgement reaches its waiter exactly when the waiter is registered by then; a quicker one is lost. |
| Transactions.MovesFind | src/smsc_server/transaction_response_manager.rs:37-42 | Every registered waiter without an answer is found under its number, over every run within the window. |
| Transactions.AnswerStays | src/smsc_server/transaction_response_manager.rs:44-59 | Once there, the answer is what the waiter resolves with, unless its timer branch is taken. |
| Transactions.SuccessWasAcknowledged | src/smsc_server/smsc_server.rs:926-950 | Status 0 is reported only for a response with status 0 and the forwarded number that arrived after registration. |
| Transactions.TransactionResponseManager.ResponseReceived | src/smsc_server/transaction_response_manager.rs:25-29 | The response fills the channel of its number. |
| Transactions.TransactionResponseManager.BeginWait | src/smsc_server/transaction_response_manager.rs:37-42 | A fresh channel is registered. |
| Transactions.TransactionResponseManager.EndWait | src/smsc_server/transaction_response_manager.rs:44-59 | The answer, or none and the entry of the number removed. |
| ConnectionManager.SmscConnectionManager.GetConnections | src/smsc_client/smsc_connection_manager.rs:94-111 | The k-th connection to try is the k-th after the index with round robin and the k-th of the list otherwise; with round robin and no connection the remainder panics. |
| ConnectionManager.TryInOrder | src/smsc_client/smsc_connection_manager.rs:69-88 | Connections are tried at most once, in order, until the first that answers. |
| ConnectionManager.SmscConnectionManager.SendMessage | src/smsc_client/smsc_connection_manager.rs:59-90 | The first answer along the rotation, and each way of failing. |
| ConnectionManager.RoundRobinIsFair | src/smsc_client/smsc_connection_manager.rs:99-110 | Of any k consecutive counter values below 2^32, k/n select each of n places, rounded down or up. |
| ConnectionManager.CallsAreFair | src/smsc_client/smsc_connection_manager.rs:94-111 | In any k calls in a row within one turn of the counter, counting the try orders they return, each of n connections is the first k/n times, rounded down or up. |
| ConnectionManager.SmscConnectionManager.AddConnection | src/smsc_client/smsc_connection_manager.rs:35-38 | A connection is added at the end. |
| ConnectionManager.WrapKeepsRotationIff | src/smsc_client/smsc_connection_manager.rs:99-105 | The wrap of the counter leaves the rotation undisturbed exactly when n divides 2^32. |
| EsmClasses.OctetRoundTripIff | src/esm_class.rs:242-264 | Splitting an octet and joining it gives it back exactly when it has network bits and not both type bits. |
| EsmClasses.MergeIsAMonoid | src/esm_class.rs:227-240 | Merging is associative and idempotent, with the default as unit. |
| EsmClasses.LastSays | src/esm_class.rs:227-240 | In a series of merged classes each part is that of the last class in which it says something. |
| Receipts.SatisfiableIff | src/smsc_client/delivery_receipt_manager.rs:86-112 | Some event satisfies a registration exactly when it does not ask for both a receipt and an intermediate notification. |
| Receipts.SatisfiedIff | src/smsc_client/delivery_receipt_manager.rs:86-112 | By the bits of the two octets: which esm_class satisfies which registered_delivery. |
| Receipts.OctetSatisfiableIff | src/registered_delivery.rs:199-227 | The same of the received octet: a receipt is asked for by bits 0 and 1, a notification by bit 4. |
| Receipts.RegistrationStays | src/smsc_client/delivery_receipt_manager.rs:25-131 | Over every run a registration stays until it is removed, replaced, swept after expiry or satisfied by one event. |
| Receipts.OnlyTheseEnd | src/smsc_client/delivery_receipt_manager.rs:25-117 | The step that ends an unexpired registration is one of those. |
| Receipts.RegistrationAfter | src/smsc_client/delivery_receipt_manager.rs:25-131 | What each step makes of a registration: another of its id replaces it, others sweep it when it has expired and a sweep is due, and an event or a removal of its id takes it away, the event exactly when it is all that was asked for. |
| Receipts.BothKindsNeverConsumed | src/smsc_client/delivery_receipt_manager.rs:86-112 | A registration for both kinds is consumed by no series of events. |
| Receipts.RegisteredIsFound | src/smsc_client/delivery_receipt_manager.rs:58-84 | Until it ends, a registration answers with its URL exactly during the hour after it was made. |
| Receipts.SweepRemovesExpired | src/smsc_client/delivery_receipt_manager.rs:119-131 | Right after a sweep nothing expired is left, and the next is five minutes later. |
| Receipts.SeenIsIgnored | src/smsc_client/delivery_receipt_manager.rs:70-72 | The classes merged from earlier events never influence any later answer. |
| Receipts.DeliveryReceiptManager.RegisterReceiptUrl | src/smsc_client/delivery_receipt_manager.rs:25-56 | Ignored when nothing is requested; otherwise swept and registered. |
| Receipts.DeliveryReceiptManager.GetReceiptUrl | src/smsc_client/delivery_receipt_manager.rs:58-84 | The URL of an unexpired registration, and the state after the event. |
| Receipts.DeliveryReceiptManager.CleanExpiredEntries | src/smsc_client/delivery_receipt_manager.rs:119-131 | The sweep, when it is due. |
| Receipts.DeliveryReceiptManager.RemoveReceiptInfo | src/smsc_client/delivery_receipt_manager.rs:114-117 | Explicit removal. |
| Responses.ResponseEncodesIff | src/message.rs:299-348 | A response can be encoded exactly when its command exists and the fields suffice for its table. |
| Responses.ResponseAnswers | src/message.rs:299-317 | Such a response carries the request's identifier with the high bit and the request's number; any other is sent as nothing. |
| Responses.MultiResponseSufficesIff | src/field_codec.rs:351-371 | A submit_multi_resp can list at most 255 failures. |
| Responses.UnansweredRequests | src/smsc_server/smsc_server.rs:361-395 | The responses to broadcast_sm, query_broadcast_sm, outbind, alert_notification and deliver_sm cannot be encoded. |
| ServerLaws.DecodedCommand | src/smsc_server/smsc_server.rs:181-187 | The dispatch sees the command and number of the received header. |
| ServerLaws.FixedAnswer | src/smsc_server/smsc_server.rs:188-430 | Bind, unbind, enquire_link, query_sm, cancel_sm, replace_sm and cancel_broadcast_sm are always answered once, under their number, and a failed write ends no more than the batch. |
| RequestLaws.CancelRequest | src/smsc_server/smsc_server.rs:300-327 | A received cancel_sm: exactly the entries that meet each of its eight given criteria leave the store, with their ids in the user index, nothing else changes, and the answer says whether there were any. |
| RequestLaws.ReplaceRequest | src/smsc_server/smsc_server.rs:328-354 | A received replace_sm: when it is acceptable, the entries of its id whose source agrees take over what it brings and the answer has status 0; otherwise nothing changes. |
| RequestLaws.BindRequest | src/smsc_server/smsc_server.rs:190-224 | A bind leaves the store as it is; the answer, also a refusal, repeats its system_id and gives the interface version. |
| RequestLaws.QueryRequest | src/smsc_server/smsc_server.rs:271-299 | A query_sm changes nothing and is answered with a failure that repeats its message_id, with state 5 as field and as TLV. |
| RequestLaws.PlainRequest | src/smsc_server/smsc_server.rs:225-232 | unbind, enquire_link and cancel_broadcast_sm change nothing, and their answers are headers. |
| RequestLaws.ResponseReceived | src/smsc_server/smsc_server.rs:425-437 | A received deliver_sm_resp is handed to the waiters once, with its number and as it was read; other responses do nothing. |
| ServerLaws.UnimplementedIsSilent | src/smsc_server/smsc_server.rs:361-465 | Unimplemented requests get no octets and change nothing. |
| ServerLaws.ResponsesAreNotAnswered | src/smsc_server/smsc_server.rs:411-465 | Received responses are not answered. |
| ServerLaws.SubmissionAnswer | src/smsc_server/smsc_server.rs:605-719 | A received submit_sm or data_sm is answered once under its original number, or forwarding in transaction mode panics. |
| SubmissionLaws.PreparedIs | src/smsc_server/smsc_server.rs:617-630 | The message handled is the received one field by field, with a number of the server, the default service type when it gives none, and a named predefined text struck out. |
| SubmissionLaws.StoredSubmission | src/smsc_server/smsc_server.rs:682-695 | esm_class 3 in its low bits, or 0 with that default: exactly when no time is past, no schedule after its validity and a destination and a time are there, its entry is the one more under its id and for its user, and the answer is that id with status 0; otherwise the store stays and the answer says why. Nothing is handed on. |
| SubmissionLaws.DatagramSubmission | src/smsc_server/smsc_server.rs:658-669 | 1: handed on once as deliver_sm, otherwise as it was handled, and answered with status 0; nothing is stored. |
| SubmissionLaws.TransactionSubmission | src/smsc_server/smsc_server.rs:670-681 | 2: handed on once and answered with the status of the acknowledgement, 0xFF when it has none and 0x45 when none came, or a panic; nothing is stored. |
| SubmissionLaws.DroppedSubmission | src/smsc_server/smsc_server.rs:696-714 | 0 without a default: answered with status 0 and dropped. |
| SubmissionLaws.LocalSubmission | src/smsc_server/smsc_server.rs:783-869 | For an address of the message handler: its answer's id and optional fields are passed on, or an error when there is none or they cannot be written; nothing is stored or handed on. |
| ServerLaws.ForwardingPanicsIff | src/smsc_server/smsc_server.rs:908-968 | It panics for every data_sm, and for a submit_sm exactly when the last TLV of some tag but that of alert_on_message_delivery is empty, cut short or unreadable. |
| ServerLaws.DiesIffKills | src/smsc_server/smsc_server.rs:605-719 | Whether a submission panics the connection depends on its octets, its mode and whether its address is local, on no server state. |
| ServerLaws.StoredIff | src/smsc_server/smsc_server.rs:970-1064 | A message is stored exactly when it has a destination and some time, nothing of it is in the past and it is not scheduled after its validity; otherwise the store stays as it is. |
| ServerLaws.AcceptedWasAcknowledged | src/smsc_server/smsc_server.rs:926-957 | A message accepted in transaction mode was forwarded once, under a number for which a response with status 0 arrived after its waiter was registered. |
| ServerLaws.ReportedSuccess | src/smsc_server/smsc_server.rs:605-719 | From octets to octets: a received submit_sm that is to be forwarded is answered with status 0 only in that case. |
| ServerLaws.ScheduledPanicsIff | src/smsc_server/smsc_server.rs:1341-1376 | Delivering a stored message panics under the same condition on the octets it was received as. |
| SubmissionLaws.ScheduledDelivery | src/smsc_server/smsc_server.rs:1341-1376 | A stored submission that is due is handed on once as deliver_sm, under a number of the server and otherwise as it was stored, unless that panics. |
| MultiLaws.DestinationsOfDecoded | src/message.rs:532-586 | The destinations of a received submit_multi are the in-order expansion of its addresses and distribution lists. |
| MultiLaws.FanOutConserves | src/smsc_server/smsc_server.rs:1079-1166 | Every destination is dispatched exactly once and in order, and the failures are a subsequence. |
| MultiLaws.FanOutFails | src/smsc_server/smsc_server.rs:1079-1166 | Exactly the destinations not reached fail, in order, whatever the store holds. |
| MultiLaws.FanOutNeverPanics | src/smsc_server/smsc_server.rs:1079-1166 | No projected submit_sm panics on its way. |
| MultiLaws.MultiAnswer | src/smsc_server/smsc_server.rs:1066-1210 | A received submit_multi is answered under its number, with exactly the destinations not reached as failures and status 0 exactly when there is none; the answer can be encoded exactly for at most 255 failures. |
| MultiLaws.FailuresReadBack | src/smsc_server/smsc_server.rs:1167-1206 | A response with at most 255 failures decodes to its id and, in order, one object for each: ton, npi, the first 21 octets of the address and the status 0xFF, nothing else. |
| MultiLaws.SenderReadsFailures | src/smsc_server/smsc_server.rs:1066-1210 | What the sender of a submit_multi reads: its id and, in that form, exactly the destinations not reached, in order. |
| FanOutLaws.MultiAnswerOctets | src/smsc_server/smsc_server.rs:1066-1210 | The octets of the answer to any submit_multi: its number, status 0 exactly when everything was reached, the id and exactly the destinations not reached; nothing at all for more than 255. |
| FanOutLaws.MultiDispatched | src/smsc_server/smsc_server.rs:1079-1166 | Its addresses and the members of its lists are dispatched one after the other, in order: local ones to the handler, in datagram and transaction mode handed on, in the other modes stored under the one id unless something speaks against it. |
| FanOutLaws.ProjectionIs | src/smsc_server/smsc_server.rs:1212-1265 | The submit_sm for one destination, field by field: twelve fields as they are, the prepared service type and default text number, the destination and a number of the server. |
| MultiLaws.PredefinedNeverUsed | src/smsc_server/smsc_server.rs:721-750 | A received submit_sm keeps its own text. |
| MultiLaws.DecodedNumbersAreOctets | src/field_codec.rs:87-100 | Received submit_sm and cancel_sm are in the range where both stores cancel alike. |
| MultiLaws.RepeatedAddressLosesIndex | src/smsc_server/smsc_server.rs:1146-1161 | One text address named with two types of number and both stored: a cancel_sm for one type loses the other message from the user index. |
| MultiLaws.SameDestinationStaysTogether | src/message_storage.rs:461-612 | No cancel_sm tells apart the two messages of a destination named twice. |
| ServerStream.HandledInOrder | src/smsc_server/smsc_server.rs:125-155 | Whatever fails or panics, the PDUs handled are the first of the stream in order; while the connection lives, those buffered and to come are the rest, and a connection that spins has handled them all. |
| ServerStream.RunHistory | src/smsc_server/smsc_server.rs:125-187 | On every run each PDU is handled by the server as the one before it left it, and what is written for it is what handling it gives, or nothing when the write fails. |
| ServerStream.EveryRunAnswers | src/smsc_server/smsc_server.rs:125-171 | On every run, also one that dies: each PDU handled whose write succeeded got what fits it and the others nothing; a connection dies only of octets that kill it or of a submit_multi answer that cannot be written. |
| ServerStream.FrameIsAnswered | src/smsc_server/smsc_server.rs:137-171 | One PDU: the connection ends exactly when its octets kill it or a submit_multi answer cannot be written; otherwise each request gets one response under its number, except a submit_multi with over 255 destinations, whose failures may be too many to list. |
| ServerStream.StreamIsAnswered | src/smsc_server/smsc_server.rs:125-171 | When no write fails, the connection lives exactly when no PDU sent kills it: then exactly those PDUs are handled in order, each answered with what fits it. Otherwise it dies of the first that kills, everything before that answered. |
| ServerStream.ClientReadsAnswers | src/smsc_server/smsc_server.rs:1277-1282 | The client extracts exactly those responses, one after the other. |
| ServerConnection.ExtractDestinationAddresses | src/message.rs:532-586 | The loop collects the destinations in order. |
| ServerConnection.SmscServerConnection.SendMessageInDatagramMode | src/smsc_server/smsc_server.rs:871-906 | Accepted at once, one number taken. |
| ServerConnection.SmscServerConnection.SendMessageInTransactionMode | src/smsc_server/smsc_server.rs:908-968 | Forwarded, then answered with the waiter's status; or a panic. |
| ServerConnection.SmscServerConnection.StoreAndForwardMessage | src/smsc_server/smsc_server.rs:970-1064 | Stored or refused, with the response that says why. |
| ServerConnection.SmscServerConnection.HandleDataSubmitSm | src/smsc_server/smsc_server.rs:605-719 | The handler of submit_sm and data_sm. |
| ServerConnection.SmscServerConnection.DispatchDestination | src/smsc_server/smsc_server.rs:1080-1165 | One destination of the fan-out. |
| ServerConnection.SmscServerConnection.HandleSubmitMultiSm | src/smsc_server/smsc_server.rs:1066-1210 | The fan-out loop computes `FanOut` and the answer. |
| ServerConnection.SmscServerConnection.HandleMessage | src/smsc_server/smsc_server.rs:181-466 | The dispatch does what `Handle` specifies to store, counter and log. |
| ServerConnection.SmscServerConnection.HandleScheduleDeliveryMessage | src/smsc_server/smsc_server.rs:1341-1376 | The delivery of a stored message. |
| ServerConnection.Session.OnChunk | src/smsc_server/smsc_server.rs:137-155 | The loop over one read, stopping at an error. |
| ServerConnection.Session.Run | src/smsc_server/smsc_server.rs:125-171 | The whole connection. |

## Left out

- Sockets, TLS, REST routing, HTTP calls, alarms, metrics, logging and configuration files: a read is a chunk, a write succeeds or fails.
- The Redis and RabbitMQ stores and the execution of SQL: of SQL the columns, the generated DELETE, saving and an abstract table are kept; delivery, cleaning and replace_sm in SQL are not.
- Calendar arithmetic and time formats: parsers are parameters, times are integers, and one reading of the clock serves an operation.
- Invalid UTF-8, and truncation inside a multi-byte character: strings are octets and stay as they are.
- Names of TLVs and of enumerations: an optional field goes by its tag; entries of the codec table that no command uses are not listed.
- Regular expressions of client ranges and of the message handler: which addresses are local is an arbitrary predicate.
- Which client receives a forwarded message, and the enquire_link task of the server: only what is handed on, and its encoding, is modelled.
- The closing of the connection after unbind: later writes simply fail.
- The number counter the server's connections share: a connection sees some next number, and nothing proved depends on which.
- List lengths that do not fit 32 bits, and overflow of time arithmetic.
- The bind handshake and the reconnect loop of the client: a connection is there once a writer is put in place.
- Transactions.TransactionResponseManager.EndWait: the branch the select takes when both are ready is a parameter.
- DeliveryQueue.DeliveryMessageInfoManager.BinarySearch: the elements probed are chosen arbitrarily, so the theorems hold for every binary search; the one of the standard library may avoid some positions that break the order.
- StorageLaws.PositionIsStable: cancellation, cleaning and replacement between a pass and its removals are excluded; PositionAfterCancel says what a cancellation does to the position.
- StorageLaws.HandedOutAgainIff: runs of saves, removals for other ids and ticks; a cancellation, cleaning or replacement in between may take the message away.

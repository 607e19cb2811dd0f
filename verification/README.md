# A model of the DNS library and of two data paths of the proxy

The proxy carries its own copy of the dnspython library under `dns/`, and its SOCKS5 and
HTTP servers under `lib/`. This project models the parts of both that keep state across many
steps, and proves what they promise over whole runs. `dafny verify dfyconfig.toml` checks it.

Code that works by changing things step by step is modelled the same way: classes with the
fields of the original, methods with its loops. Each such method is tied to a function of the
inputs or of the state before; the lemmas beside it say what that function means, and for the
functions at the bottom of it all they do so in numbers, octets and characters.

| files | what they model |
|---|---|
| `Common` | octets, optional values, outcomes |
| `Names`, `NameOrder` | names as tuples of labels, validation, and the canonical order |
| `NameWire`, `Wire` | the compressed wire form: a shared table from name suffix to offset, and the parser that follows pointers |
| `Records`, `Rendering`, `Renderer` | records with a patched RDLENGTH; the renderer with its size limit and its rollback |
| `Messages`, `MessageRoundTrip`, `MessageObjects` | whole messages, written and read back; the reader with its index of sets |
| `WireOctets` | what stands where in a record and a message, octet by octet, and which types hold names |
| `ZoneData`, `ZoneVersion`, `VersionedZone` | sets, nodes, copy-on-write versions, pinned readers, pruning, and the queue for the single writer |
| `Transactions`, `Xfr`, `XfrInbound`, `XfrReplay`, `XfrRuns`, `XfrChains` | transactions on a version, and the inbound AXFR and IXFR machine |
| `LruCache`, `Resolution` | the bounded answer cache, a circular list with a dictionary, and the retry machine |
| `TokenText`, `NameText`, `Tokenizer`, `TextRoundTrip` | names and quoted strings as text, and the tokenizer |
| `Splitting`, `Ipv4`, `Ipv6` | addresses as text |
| `NameDict` | the dictionary with deepest match |
| `UdpForwarder`, `HttpBody`, `HttpGrammar` | the UDP association, the forwarding of request bodies, and chunked bodies by their grammar |

The main results, and where they are:

- Compressed names: whatever is written through one table reads back, reading is defined by the
  layout of the octets alone, and writing by the longest suffix written before
  (`NameWire.SharedTableRoundTrip`, `NameWire.ReadNameIff`, `NameWire.EmitOctets`,
  `NameWire.EmitEntries`).
- Messages: reading back what was rendered gives an equal message
  (`MessageRoundTrips.MessageRoundTrip`).
- Overflow: an add that is too big leaves no trace; over any run of adds, failed ones of any
  kind included, the compression table stays right, and the limit is kept exactly under a stated
  condition (`Renderers.Renderer.AddRRset`, `Renderers.RunKeepsTable`, `Renderers.RunKeepsLimitIff`).
- Zones: committed versions never change, whatever writers do
  (`VersionedZone.Zone`, whose invariant every step keeps: `VersionsOk` says that each retained
  version still holds what it held when it was committed and is numbered consecutively up to the
  length of the history, `QueueOk` that writers are served in the order they came and no wake-up
  is lost). One method is one lock section, so any interleaving is a sequence of these methods.
- Transfers: atomic over any messages, independent of how they are split, and equal to the replay
  of the differences (`Xfr.TransferAtomic`, `XfrRuns.SplitAnyhow`, `XfrRuns.IxfrTransfer`). Behind
  a committed IXFR is a chain of serials whenever its receiver stops at the first error; for one
  that carries on there is an exact condition (`XfrChains.CommittedChain`,
  `XfrChains.CommittedChainIff`).
- The cache: what get returns, what it keeps and what it evicts, over any history
  (`LruCache.History`, `LruCache.Retained`).
- Resolution: bounded retries, and every outcome only for cause: what was learned last says how
  it ends (`Resolution.TriesBounded`, `Resolution.Resolve`).
- Text: names and strings however they are laid out over lines, and addresses, read back
  (`TextRoundTrips.LayoutRoundTrip`, `Ipv6.RoundTrip`, `Ipv6.GroupsRead`, `Ipv4.AtonIff`).
- Proxy: one client, solicited replies only (`UdpForwarders.AlwaysInv`); bodies copied exactly
  (`HttpBody.ForwardRequestBody`, `HttpBody.AcceptedIff`), every chunked body of RFC 9112 within
  the limits among them, and exactly when it is one (`HttpGrammar.RfcBodyTaken`,
  `HttpGrammar.ForwardedIsRfcIff`).

Where the code does not do what its surroundings lead one to expect, the model follows the code:

- `WritableVersion.delete_rdataset` finds the node under the validated name but deletes an
  emptied node under the name as given (dns/zone.py:1061-1064). A name of the other relativity
  then raises `KeyError` and leaves an empty node. `ZoneVersion.DeleteRaises` is the exact
  condition in the contract of `ZoneVersion.WritableVersion.DeleteRdataset`, and
  `ZoneVersion.DeleteByAbsoluteNameRaises` is an input.
- After an IXFR is answered in the style of an AXFR, the question check of later messages uses the
  changed type (dns/xfr.py:108-112), so that the question of the request itself is refused:
  `XfrRuns.RepeatedQuestion`.
- `NameDict` counts a key again each time it is set (dns/namedict.py:54-68), so the number of
  deepest items is an upper bound only; the bound is what the search needs.
- `from_text` lets three digits above 255 fail in `struct.pack` rather than as a bad escape
  (dns/name.py:1003-1005): `NameText.PackError`.
- A chunk's size may have white space around it, any of the six kinds that `strip` takes, a trailer
  may be anything but blank and end in a bare line feed, and so may the blank line
  (lib/http_proxy_server.py:238-271); all of it is forwarded as it came.
  `HttpGrammar.ForwardedIsRfcIff` is the exact condition for what is forwarded to be a chunked body
  of RFC 9112; `HttpGrammar.BareLineFeedAccepted` and `HttpGrammar.WhiteSpaceAccepted` are inputs.
- `_track_size` does not roll back when an add raises anything but by its size
  (dns/renderer.py:130-136): rdata that cannot be written leaves octets, which are never compared
  with the limit. `Renderers.AddKeepsLimitIff` and `Renderers.RunKeepsLimitIff` give the exact
  condition, `Renderers.LeftBeyondLimit` an input.
- A transfer whose caller carries on after a base serial mismatch can be committed as an IXFR
  without a chain of serials, since the SOA after the mismatch is taken for the end of that
  difference (dns/xfr.py:160-201): `XfrChains.CarryingOn`. The library's own receiver
  (dns/query.py:1419-1442) stops at the first error.
- A set without rdata given to `delete_exact` stands for its whole name, of whatever class and type
  (dns/transaction.py:481-502): `Transactions.DeleteNameRecords`.

## Model

| member | source | states |
|---|---|---|
| Names.ValidateLabels | dns/name.py:311-338 | The constructor's checks, in their order: an over-long label before an over-long name before an empty label that is not last; accepted exactly when the labels form a valid name. |
| Names.CheckLabels | dns/name.py:311-338 | Labels are accepted exactly when every label has at most 63 octets, the whole at most 255, and only the last may be empty. |
| Names.SuffixValid | dns/name.py:703-704 | Every suffix of a valid name is a valid name of the same relativity, so the names built for the suffixes while writing never raise. |
| Names.SameNameRelativity | dns/name.py:526-530 | Names that compare equal have the same number of labels, relativity and validity. |
| Names.SameNameMeans | dns/name.py:526-536 | Names are equal exactly when their labels agree one by one, octet by octet up to the case of the letters A to Z. |
| Names.CheckMeans | dns/name.py:311-338 | Each error of the constructor in numbers: a label of more than 63 octets, a name of more than 255 octets counting a length for each label, an empty label before the last. |
| Names.CompleteMeans | dns/name.py:676-701 | A relative name is written as itself followed by an absolute origin if both come to at most 255 octets; without such an origin, or beyond that, it is refused. |
| NameOrder.FullCompare | dns/name.py:415-489 | Relation, order and number of shared labels of two names, for all names: relative before absolute, then label by label from the root end. |
| NameOrder.OrderSame | dns/name.py:526-560 | The order is zero exactly for names that are the same ignoring case, and otherwise exactly one of two names comes first. |
| NameOrder.OrderTransitive | dns/name.py:538-560 | The order of names is transitive. |
| NameOrder.SubdomainIff | dns/name.py:491-503 | A name is at or under another exactly when it ends in it, ignoring case. |
| NameOrder.SubdomainsTogether | dns/name.py:415-489 | In this order a name and all names under it stand together, as the canonical order of RFC 4034 promises. |
| NameOrder.LessMeans | dns/name.py:453-470 | Labels stand in the order of their octets: the lower one where they first differ comes first, and a label before any that it begins. |
| NameOrder.OrderMeans | dns/name.py:415-489 | A name comes before another exactly when it is relative and the other is not, or, counted from the root, has the lower label where they first differ, case aside, or none any more. |
| NameOrder.RelationMeans | dns/name.py:415-489 | The relation of two names of one relativity: equal when they are the same, subdomain and superdomain when the longer ends in the shorter, none when their last labels differ. |
| NameWire.SharedTableRoundTrip | dns/name.py:694-727 | Names written to one buffer through one shared table, with any octets between, all read back from their own start, up to case, and reading each ends exactly where it ended. |
| NameWire.NameRoundTrip | dns/name.py:703-727 | One name written with a good table reads back from where it began; the table stays good and only gains entries at or beyond that place. |
| NameWire.EmitOctets | dns/name.py:703-727 | What is written for a name with a table: its labels up to the longest suffix that has an entry, as they are or in lower case, and in place of that suffix C0 00 plus its offset, in two octets; without one, all labels. |
| NameWire.PlainOctets | dns/name.py:694-701 | Without a table: every label behind its length, as it is or in lower case. |
| NameWire.EmitEntries | dns/name.py:716-719 | What a name leaves in the table: each suffix of two labels or more that was written out and whose first octet went to an offset up to 3FFF is a key at that offset; nothing else is new, and nothing goes or changes. |
| NameWire.CompressedLength | dns/name.py:703-727 | A name whose longest suffix in the table begins at label i takes the octets of the labels before it and two more. |
| NameWire.SuffixShared | dns/name.py:703-727 | Of two names written with a fresh table the second is cut short at their longest common suffix, case aside, and points to where the first wrote it. |
| NameWire.NameRepeated | dns/name.py:703-727 | www.example. at the start of a buffer takes 13 octets, and C0 00 from then on. |
| NameWire.EmitItemsTable | dns/name.py:703-727 | Whatever is written, every table entry still decodes in the buffer to the name that is its key, by strictly decreasing pointers. |
| NameWire.DecodeLocal | dns/name.py:1044-1060 | What a name decodes to depends on no octet outside those it covers. |
| NameWire.DecodeSound | dns/name.py:1044-1060 | What is decoded is laid out in the buffer as runs of labels joined by pointers, each strictly below the one before and below the start. |
| NameWire.DecodeComplete | dns/name.py:1044-1060 | Every such layout is decoded, to the labels it spells. |
| NameWire.ReadNameIff | dns/name.py:1031-1061 | On any octets and any start: a name is read exactly when such a layout of a valid name begins there, and then it is that name; otherwise there is an error. |
| NameWire.DecodeErrors | dns/name.py:1044-1060 | What is wrong where reading stops: octets that end too early, a length octet between 40 and BF, a pointer that does not lead back. |
| NameWire.DecodeNext | dns/name.py:1042-1061 | Reading goes on behind the last octet of the layout that is furthest on, be it a zero, or a pointer. |
| NameWire.ReadName | dns/name.py:1031-1061 | Reading ends, whatever the octets; a name that is read is absolute and valid, and lies within the buffer. |
| NameWire.EmitItemsShift | dns/name.py:703-727 | Writing does not look at the octets already in the buffer, so a header written later changes nothing. |
| Wire.NameToWire | dns/name.py:694-727 | The loop that writes a name to a file, wherever in its contents it is positioned, and to a compression dictionary, in place: what NameWire.Emit says, pinned down by NameWire.EmitOctets and NameWire.EmitEntries, goes over what was there and into the dictionary, and what is beyond them stays; a relative name without an absolute origin leaves both alone. |
| Wire.Parser.GetBytes | dns/wire.py:24-31 | The next octets and how far has been read, or FormError with nothing changed. |
| Wire.Parser.Seek | dns/wire.py:61-66 | Moving within the end; anywhere else is FormError. |
| Wire.Parser.GetName | dns/name.py:1042-1061 | The parser's loop over labels and pointers reads exactly that name, and in every case goes on from the furthest octet read. |
| Wire.Parser.ReadLabels | dns/name.py:1044-1060 | Termination on any octets: the biggest pointer and then the distance to the end decrease. |
| Records.RecordRoundTrip | dns/message.py:1079-1123 | A record written, whatever follows it, reads back as the same record up to the case of names, and reading ends where it ended. |
| Records.RecordTable | dns/rdataset.py:328-344 | Writing a record keeps every table entry right, RDLENGTH patched in included. |
| Records.PatchedLength | dns/rdataset.py:332-343 | Going back to patch the length gives the same octets as writing the length in the first place. |
| Records.FieldsRoundTrip | dns/rdata.py:212-238 | The fields of rdata, compressed names among them, read back within exactly the octets they took. |
| WireOctets.NameRdata | dns/rdtypes/nsbase.py:52-54 | Rdata of types 2, 5 and 12 in [start, end) is read exactly when a name begins at start and ends at end, pointers followed, and is then that one name. |
| WireOctets.MxRdata | dns/rdtypes/mxbase.py:58-62 | Rdata of type 15 is two octets and a name that ends with it. |
| WireOctets.SoaRdata | dns/rdtypes/ANY/SOA.py:84-88 | Rdata of type 6 is two names, one after the other, and exactly twenty octets behind them. |
| WireOctets.OctetRdata | dns/rdata.py:647-649 | Rdata of type 46 is eighteen octets and any more; rdata of any other type is its own octets. |
| WireOctets.TargetIsQuestion | dns/message.py:1107-1110 | Rdata C0 0C of type 5 in a message with a name at offset 12 is that name. |
| WireOctets.RecordReads | dns/message.py:1078-1123 | A record is read exactly when a name stands there, type, class, TTL and length follow at their places, and rdata of that type fills that length; octet by octet. |
| WireOctets.RecordOctets | dns/rdataset.py:328-344 | A record as it is written: owner through the table, ten octets in numbers, among them the length of what follows, and the rdata through the table. |
| WireOctets.TargetCompressed | dns/rdtypes/nsbase.py:48-49 | Rdata that is one name takes the labels before its longest suffix in the table and two octets. |
| WireOctets.EmptySetOctets | dns/rdataset.py:315-325 | An empty set is one record with neither TTL nor rdata, of the class of a deletion if it is one. |
| WireOctets.RepeatedOwner | dns/rdataset.py:328-344 | Records under a name already in the table, with plain rdata of some size, take twelve octets more than that each. |
| WireOctets.TwentyAddresses | dns/renderer.py:130-157 | A question for www.example. and twenty addresses of it come to 349 octets: they fit a limit of 349 and are too big for 348. |
| WireOctets.QuestionOctets | dns/renderer.py:138-145 | A question as it is written: its name through the table, and two octets each of type and class. |
| WireOctets.TypeNumbers | dns/rdatatype.py:150-156 | Which types are singletons (5, 6, 30, 39, 47), which are read elsewhere (41, 250), what a signature covers, and that a TTL with its first bit set is read as 0. |
| Rendering.RecordToWire | dns/rdataset.py:328-344 | One record of a set written by append, seek back, patch, seek to the end; when its rdata cannot be written, exactly what is left in the file: owner, fixed part with a length of zero, and the fields before the one at fault. |
| Rendering.RRsetToWire | dns/rdataset.py:309-345 | A set written record by record, in the order given, or as one empty record; the number of records written, or the records before the one that cannot be written and what is left of that one. |
| Rendering.WrittenKeepsTable | dns/renderer.py:138-157 | Every add keeps every table entry right and only adds entries beyond where it began. |
| Renderers.RollbackRestores | dns/renderer.py:100-113 | Dropping the entries at or beyond the cut restores the table exactly as it was. |
| Rendering.AddLeftValid | dns/renderer.py:130-157 | One add, whatever came of it, octets left by rdata that could not be written included: what was there stays, and every table entry decodes to its key. |
| Renderers.RunKeepsTable | dns/renderer.py:130-157 | So too over any run of adds whose caller carries on after each failure, of whatever kind. |
| Renderers.AddKeepsLimitIff | dns/renderer.py:130-157 | An add keeps every size limit, from every state of the renderer, exactly when its owner name is refused or every rdata can be completed and is less than 64 KiB then: what is left of rdata that cannot be written is not undone. |
| Renderers.RunKeepsLimitIff | dns/renderer.py:130-157 | So does a run of adds whose caller carries on after each failure, exactly when that holds of each of them, however many are too big. |
| Renderers.LeftBeyondLimit | dns/renderer.py:130-136 | An input on which it is not: ten octets below the limit, an NS record of the root with a relative target and no origin. |
| Renderers.Renderer.Rollback | dns/renderer.py:100-113 | The loops that collect and delete entries leave exactly those below the cut, and the output is cut there. |
| Renderers.Renderer.SetSection | dns/renderer.py:115-128 | Sections come in order, or FormError. |
| Renderers.Renderer.TrackSize | dns/renderer.py:130-136 | Beyond the limit, buffer and table are what they were; within it, nothing is undone. |
| Renderers.Renderer.AddQuestion | dns/renderer.py:138-145 | A question is added in full, or raises and leaves buffer, table and counts as before; the limit is kept. |
| Renderers.Renderer.AddRRset | dns/renderer.py:147-157 | A set is added in full, or is too big and leaves buffer, table and counts as before; if its rdata cannot be written, the octets left are stated, the table stays right, and the counts stay as they were. |
| Renderers.Renderer.WriteHeader | dns/renderer.py:286-306 | The header goes over the first twelve octets and disturbs no table entry; a count beyond sixteen bits raises. |
| Renderers.Renderer.Reserve | dns/renderer.py:313-320 | Reserving takes from the limit, and is refused beyond it. |
| Renderers.Renderer.ReleaseReserved | dns/renderer.py:322-325 | What was reserved goes back to the limit. |
| MessageRoundTrips.MessageRoundTrip | dns/message.py:496-573 | Whenever a well-formed message is rendered, in whatever order its rdata were shuffled, reading the octets back gives an equal message, consumes every octet, and the counts in the header are the records written. |
| MessageRoundTrips.HeaderFirst | dns/renderer.py:286-306 | Writing the header last gives the same octets as writing it first. |
| MessageRoundTrips.ReadSets | dns/message.py:1068-1162 | Sets rendered one after another are reassembled from their records into the same sets, in order. |
| MessageRoundTrips.SectionCounts | dns/renderer.py:147-157 | The count of a section is the number of records written for it. |
| WireOctets.HeaderOctets | dns/renderer.py:286-306 | The twelve octets of a header: identifier, flags and the four counts, each highest octet first. |
| WireOctets.QuestionReads | dns/message.py:1049-1062 | A question is read exactly when a name stands there and four octets follow, two of type and two of class. |
| WireOctets.MessageReads | dns/message.py:1164-1198 | A message as it is read: from twelve octets identifier, flags and counts, by their places; then so many questions, answers, authority and additional records, in this order; fewer than twelve octets, opcodes without a name and octets left over are errors. |
| WireOctets.SameKeyMeans | dns/message.py:341-409 | A record joins a set of the same name, case aside, class, type and covered type that is no deletion, or one of the same class. |
| WireOctets.LimitMeans | dns/message.py:531-540 | The limit rendered to: the one asked for, or the payload of the request, or 65535, but never below 512 or above 65535. |
| Messages.CountsBound | dns/message.py:532-555 | Within the size limit every count fits its sixteen bits, so the header can be written. |
| Messages.Place | dns/message.py:341-409 | The first set of a section with a given name, class, type, covered type and deleting class, or none. |
| Messages.InsertJoins | dns/message.py:1143-1156 | A record is never refused: it joins the first set with its name, class, type and covered type, which takes the lower TTL and holds the record and, unless the type allows but one, what it held; or it starts a set of its own at the end; no other set changes. |
| MessageObjects.ToWire | dns/message.py:529-573 | Rendering a message with the renderer object gives exactly those octets, or raises the same error. |
| MessageObjects.WireReader.FindRrset | dns/message.py:341-409 | Looking a set up in the index finds the same set as searching the section, and the index stays right. |
| MessageObjects.WireReader.GetRecord | dns/message.py:1078-1156 | One turn of the loop over a section: the record that ReadRecord finds, pinned down by WireOctets.RecordReads and the lemmas on rdata by type number, goes into its section as Messages.InsertJoins says. |
| MessageObjects.WireReader.GetSection | dns/message.py:1068-1162 | A section read in place is the section read as a value. |
| MessageObjects.WireReader.GetQuestion | dns/message.py:1049-1063 | The question section likewise. |
| MessageObjects.WireReader.Read | dns/message.py:1164-1196 | The whole message likewise, short headers and trailing octets refused. |
| ZoneData.AddAllItems | dns/rdataset.py:101-138 | A union holds both sets' rdata; of a singleton type it holds only the last added. |
| ZoneData.UnionTtl | dns/rdataset.py:86-99 | A union has the class, type and covered type of the first set and the lower of both TTLs, or that of the second if the first holds nothing. |
| ZoneData.AddMeans | dns/rdataset.py:136-138 | New rdata goes to the end of a set, and replaces what was there for types 5, 6, 30, 39 and 47. |
| ZoneData.EqualsMeans | dns/rdataset.py:185-195 | Sets are equal exactly when class, type and covered type are and they hold the same rdata. |
| ZoneData.IntersectionEquals | dns/transaction.py:485-488 | The test of an exact delete holds exactly when everything to delete is there. |
| ZoneData.DifferenceItems | dns/set.py:178-187 | A difference holds exactly the rdata of the one set and not the other. |
| ZoneData.ReplaceMembers | dns/node.py:269-293 | After replacing, a node holds the new set and exactly those others of another key that do not conflict with it: never a CNAME beside other data. |
| ZoneData.RemoveMembers | dns/node.py:247-267 | Deleting takes exactly the set under the key. |
| ZoneData.ClassifyNodeIff | dns/node.py:295-314 | Looking at the first set that is not neutral tells the kind of the whole node. |
| ZoneData.KindByNumber | dns/node.py:34-70 | The kind of a set by type number: CNAME for 5 and signatures (46) of 5, neutral for 25, 47, 50 and signatures of these, and regular for all others. |
| ZoneData.CnameStays | dns/node.py:142-170 | Putting a set at a name that holds a CNAME leaves the CNAME exactly when the set is of type 5, 25, 47 or 50 or signs one of these; putting a CNAME leaves exactly such sets. |
| ZoneData.NoneByCname | dns/node.py:76-88 | In a well-formed node nothing but such sets stands by a CNAME. |
| ZoneVersion.ValidateNameMeans | dns/zone.py:967-983 | Exactly when each error is raised; otherwise the result is in the zone's own relativity and stands for the same absolute name. |
| ZoneVersion.RelativizeRoundTrip | dns/name.py:781-811 | What relativizing to a non-empty absolute origin takes away, derelativizing puts back, up to case. |
| ZoneVersion.UnderName | dns/name.py:491-503 | Labels in front of a name make a name under it, case aside, and no shorter name is under it. |
| ZoneVersion.EffectiveStands | dns/zone.py:857-872 | The origin's own name in a zone is of the zone's relativity and stands for the origin. |
| ZoneVersion.Node.AppendRdataset | dns/node.py:141-167 | The sets a new one cannot stand beside go, and it is appended. |
| ZoneVersion.Node.ReplaceRdataset | dns/node.py:269-293 | A well-formed node stays one: it holds the new set and of the others exactly those of another key that can stand beside it. |
| ZoneVersion.Node.DeleteRdataset | dns/node.py:247-267 | A well-formed node stays one and loses exactly the set under the key, found by the loop of find_rdataset. |
| ZoneVersion.WritableVersion.constructor | dns/zone.py:1005-1019 | A version starts from the nodes of the zone, or from nothing, with nothing changed. |
| ZoneVersion.WritableVersion.MaybeCow | dns/zone.py:1021-1041 | The node returned is this version's own, reachable from no other version, and holds what the name held. |
| ZoneVersion.WritableVersion.PutRdataset | dns/zone.py:1049-1053 | Putting changes the sets at one name and no node of the base version. |
| ZoneVersion.WritableVersion.DeleteNode | dns/zone.py:1043-1047 | Deleting a name takes its node from this version alone. |
| ZoneVersion.WritableVersion.DeleteRdataset | dns/zone.py:1055-1064 | Deleting a set takes an emptied node with it, except that for a name of the other relativity the emptied node stays and KeyError is raised. |
| ZoneVersion.DeleteByAbsoluteNameRaises | dns/zone.py:1061-1064 | An input on which that happens: the last set at an absolute name in a zone that holds relative names. |
| VersionedZone.Zone.constructor | dns/versioned.py:48-83 | One empty version, number one, no readers, no writer. |
| VersionedZone.Zone.TryWriter | dns/versioned.py:121-152 | The slot goes to the earliest caller not yet served, only when it is free; a caller that was woken never waits again; anyone else joins the end of the queue. |
| VersionedZone.Zone.SetupVersion | dns/versioned.py:166-168 | Made outside the lock, after whatever else happened, the version still has the last number plus one and starts from the last committed contents. |
| VersionedZone.Zone.NextId | dns/versioned.py:265-270 | The next number is the length of the history plus one. |
| VersionedZone.Zone.EndWriteUnlocked | dns/versioned.py:242-245 | The slot is freed and the first waiter, if any, is woken: with no writer and nobody woken, nobody waits. |
| VersionedZone.Zone.EndWrite | dns/zone.py:1137-1139 | Rolling back changes no version. |
| VersionedZone.Zone.Put | dns/zone.py:1107-1109 | A writer's put changes its own version and nothing that was committed. |
| VersionedZone.Zone.DeleteName | dns/zone.py:1111-1113 | So does deleting a name. |
| VersionedZone.Zone.Delete | dns/zone.py:1115-1117 | So does deleting a set, for every name, KeyError for an emptied node of the other relativity included. |
| VersionedZone.Zone.Freeze | dns/zone.py:1067-1086 | The nodes committed hold what the writer's held, and every changed one is new. |
| VersionedZone.Zone.Commit | dns/zone.py:1128-1139 | A version with changes joins the history with what the writer's version held, then the oldest are pruned; one without changes is dropped; either way the slot goes on. |
| VersionedZone.Zone.PruneVersionsUnlocked | dns/versioned.py:181-197 | Pruning stops at the oldest version a reader has open, or the current one. |
| VersionedZone.PrunedIsSuffix | dns/versioned.py:181-197 | Whatever the policy answers each time it is asked, what is kept is a suffix, holds every version from that one on, and begins where the policy first refused. |
| VersionedZone.Zone.LeastKept | dns/versioned.py:190-193 | The smallest version a reader has open, or the current one when there is no reader. |
| VersionedZone.Zone.OpenReader | dns/versioned.py:115-119 | A reader sees what the current version held when it was committed. |
| VersionedZone.Zone.OpenReaderAt | dns/versioned.py:91-98 | A reader by number finds the version exactly when it is retained. |
| VersionedZone.Zone.OpenReaderBySerial | dns/versioned.py:99-114 | A reader by serial finds the latest retained version with that serial, or KeyError when there is none. |
| VersionedZone.SerialOfVersion | dns/versioned.py:101-116 | The serial of a version is the first of the five numbers of the SOA (6) at the origin's own name, whatever the two names in it; a version without one has none. |
| ZoneData.SerialInPlace | dns/rdtypes/ANY/SOA.py:75-82 | The serial read from the canonical form of SOA rdata is its serial, for all two names and all five numbers; the form is the names in lower case, uncompressed, and the numbers. |
| VersionedZone.Zone.EndRead | dns/versioned.py:237-240 | The reader goes and pruning runs. |
| VersionedZone.Zone.SetMaxVersions | dns/versioned.py:199-215 | With no reader exactly as many of the newest versions are left as the maximum says, or all if there are fewer; with readers as many, or back to the oldest one open; a maximum below one is refused. |
| VersionedZone.Zone.SetPruningPolicy | dns/versioned.py:217-235 | The policy changes and pruning runs by it. |
| Transactions.Transaction.AddRdataset | dns/transaction.py:398-440 | Add and replace on a version of nodes have the effect of the union with, or the replacement of, the set that is there, or raise the same error with nothing changed. |
| Transactions.Transaction.DeleteRdataset | dns/transaction.py:442-504 | An exact delete on a version of nodes takes exactly the rdata given, or the whole name if given none, or raises the same error: some are missing, the name is unknown, or an emptied node was named in the other relativity. |
| Transactions.DeleteNameRecords | dns/transaction.py:499-502 | Deleting by a set without rdata takes all the records of a known name and no others. |
| Transactions.PutRecords | dns/zone.py:1049-1053 | Record by record, what putting a set changes in a zone. |
| Transactions.DeleteRecords | dns/zone.py:1055-1064 | Record by record, what deleting a set changes in a zone; the name itself goes with its last set, and no other name does. |
| Transactions.AddErrors | dns/transaction.py:398-440 | Adding and replacing are refused exactly for another class, an SOA (6) that is not the origin's, and a name the zone cannot hold, in this order, and then change nothing. |
| Transactions.DeleteErrors | dns/transaction.py:442-522 | An exact delete is refused as not exact exactly when some rdata to delete is not there, or a whole name to delete is not known, and then changes nothing; other classes and names are refused before. |
| Xfr.StepCommits | dns/xfr.py:152-188 | A commit takes place only at an origin SOA equal to the first, never straight after it in an IXFR, and in an IXFR only when the serial reached is the one announced. |
| Xfr.TransferAtomic | dns/xfr.py:89-247 | Any messages at all, their sets of one record or of several, whatever each raised, and then __exit__: at most one commit, and without it the zone is exactly what it was and no transaction is open. |
| Xfr.ProcessAtomic | dns/xfr.py:89-235 | One message at a time likewise. |
| Xfr.SerialLessMeans | dns/serial.py:28-39 | One serial comes before another exactly when the way from it to the other, in 32 bits, is more than 0 and less than half of all serials. |
| Xfr.FirstMessage | dns/xfr.py:99-149 | What the first message may raise, in order: its error code; a question not for the origin or not of type 251 or 252; no SOA (6) of the origin in front; a serial that went back; a lone newer SOA over UDP. An IXFR from the serial announced is done at once; a UDP message without an error ends the transfer. |
| Xfr.StepErrors | dns/xfr.py:152-229 | Each error of the loop over the records, with exactly when it is raised. |
| XfrReplay.DeleteOne | dns/transaction.py:442-504 | A set deleted exactly takes its records and leaves every other record of the zone. |
| XfrReplay.AddOne | dns/transaction.py:398-440 | A set added, of one record or of several, adds its records and leaves every other record of the zone. |
| XfrReplay.DiffSteps | dns/xfr.py:152-228 | One difference: its deletions, the new SOA, its additions, and the serial moves on. |
| XfrReplay.IxfrReplay | dns/xfr.py:152-228 | A chain of differences commits the old zone with each difference's deletions and then additions applied in order, and the origin SOA replaced by the final one. |
| XfrRuns.SplitAnyhow | dns/xfr.py:89-235 | However the answers are split into messages, the transfer ends with the same error or none and the same zone as if they had come in one. |
| XfrChains.CommittedChain | dns/query.py:1419-1442 | Messages received up to the first that raises, valid or not, and whatever was refused after the commit: behind a committed IXFR is a chain of serials, without a gap, from the one requested to the one announced, among the records up to the announced SOA's return. |
| XfrChains.CommittedChainIff | dns/xfr.py:89-235 | For a caller that carries on after raises the chain is not certain: there is one, among the records looked at, exactly when no message raised an empty sequence, an unexpected end or a base serial mismatch. |
| XfrChains.CarryingOn | dns/xfr.py:190-201 | An input on which there is none: serial 1 requested, 3 announced, and after a base serial mismatch at 2 the announced SOA twice more; the IXFR is committed. |
| XfrRuns.IxfrTransfer | dns/xfr.py:89-235 | A whole IXFR over TCP, from the request on and split anyhow, leaves the zone with its differences applied. |
| XfrRuns.OneDifference | dns/xfr.py:152-229 | One difference in one message, record by record: what stands behind the old SOA is gone, what stands behind the new one is there, and nothing else but the SOA has changed. |
| XfrRuns.AxfrTransfer | dns/xfr.py:89-235 | A whole AXFR, split anyhow, its records in sets of one or of several, leaves exactly the records sent, whatever the zone held. |
| XfrRuns.FallbackTransfer | dns/xfr.py:209-228 | So does an IXFR that is answered in the style of an AXFR. |
| XfrRuns.RepeatedQuestion | dns/xfr.py:108-112 | A message that repeats the IXFR question is refused exactly when the transfer has fallen back to AXFR; otherwise the question makes no difference. |
| XfrRuns.RefusedAfterFallback | dns/xfr.py:209-223 | So the second message of a response that falls back and repeats the question in every message is refused, from the request on. |
| XfrInbound.Inbound.ProcessMessage | dns/xfr.py:89-235 | The method with its fields and its loop does what the state machine says, and raises the same errors; what it may raise is in Xfr.FirstMessage and Xfr.StepErrors, and what serials it compares in ZoneData.SerialInPlace; either way the zone is what it was at the start, or there was one commit that ended the transfer. |
| XfrInbound.Inbound.ReceiveAll | dns/xfr.py:152-228 | The loop over the answer section likewise. |
| XfrInbound.Inbound.Leave | dns/xfr.py:244-247 | After leaving no transaction is open, and unless the transfer was done the zone is what it was when it began. |
| LruCache.Node.LinkAfter | dns/resolver.py:450-454 | Four assignments put a node after the first of a circle of distinct nodes, and it is a circle again. |
| LruCache.Node.Unlink | dns/resolver.py:456-458 | Two assignments take a node out, and the rest is a circle. |
| LruCache.LRUCache.Get | dns/resolver.py:488-514 | The list and the dictionary stay in step; a hit moves to the front and is counted, an expired answer goes. |
| LruCache.LRUCache.GetHitsForKey | dns/resolver.py:516-523 | The hits recorded for a key, or none if its answer is missing or expired. |
| LruCache.LRUCache.Put | dns/resolver.py:525-545 | The answer goes to the front, any old one under the key goes, and only the tail is evicted, to leave at most the maximum. |
| LruCache.LRUCache.Flush | dns/resolver.py:547-569 | One key goes, or every node is unlinked and the dictionary is empty. |
| LruCache.LRUCache.SetMaxSize | dns/resolver.py:483-486 | A maximum below one becomes one. |
| LruCache.History | dns/resolver.py:461-569 | After any history each entry holds the answer last put under its key and the number of gets since, and entries stand in the order of their last use. |
| LruCache.GetReturnsLastPut | dns/resolver.py:488-514 | After any history get returns nothing but the last answer put under the key, not flushed since and not expired. |
| LruCache.Retained | dns/resolver.py:525-545 | An answer is not evicted as long as fewer other keys than there is room for have been used since it was. |
| LruCache.GetFindsRetained | dns/resolver.py:488-514 | So get finds it, while it has not expired. |
| Resolution.RemoveNeverFails | dns/resolver.py:716-814 | The server asked is always one of those not taken out, so taking it out cannot raise. |
| Resolution.NextRequestSound | dns/resolver.py:622-691 | Asking for the next request keeps the bookkeeping right, and NXDOMAIN is raised only with a response recorded for every name. |
| Resolution.NextNameserverSound | dns/resolver.py:693-714 | Choosing a server keeps it right, and there is none to choose exactly when all were taken out. |
| Resolution.QueryResultSound | dns/resolver.py:716-814 | Handling any reply keeps it right: the untried servers with the one asked are a sub-multiset of those not taken out. |
| Resolution.TriesBounded | dns/resolver.py:693-814 | If every failure takes its server out or asks for TCP, a request ends within two tries for each server. |
| Resolution.QueryResultAccounted | dns/resolver.py:716-814 | Every server is still in the mix or was taken out by a failure on record. |
| Resolution.QueryResultMeans | dns/resolver.py:716-814 | What becomes of each reply, by response code: a usable NOERROR (0) is the answer if it has an rrset or raising is off, and raises NoAnswer otherwise; a usable NXDOMAIN (3) goes on record for the name; YXDOMAIN (6) is raised; any other goes on record as a failure, and which of them take the server out. |
| Resolution.NextNameserverMeans | dns/resolver.py:693-714 | Which server is asked, over what and after how long a wait: the same over TCP, the next of the round, or the first of another round after a wait that doubles up to two seconds. |
| Resolution.DenialsMeans | dns/resolver.py:772-788 | Every response on record for a name was a usable NXDOMAIN for it or the cache's, and every name denied has one. |
| Resolution.Resolution.AskNext | dns/resolver.py:622-691 | The loop over the names, each looked up in the cache as it is then: a request with the bookkeeping right and afresh, or NXDOMAIN with a response on record for every name. |
| Resolution.Resolution.ChooseServer | dns/resolver.py:693-714 | A server that was not taken out, with the bookkeeping kept right; none exactly when the failures on record took out every server. |
| Resolution.Resolution.Handle | dns/resolver.py:716-814 | Exactly which replies are the answer, have no answer, deny the name, or are YXDOMAIN, by response code, rrset and raise_on_no_answer; which take their server out; taking it out cannot raise, and the bookkeeping is right for the next server or the next name. |
| Resolution.AskServers | dns/resolver.py:1199-1237 | The inner loop: servers are asked about one name until a reply ends the resolution or denies the name; what ended it is the last thing learned. |
| Resolution.Resolve | dns/resolver.py:1185-1237 | A whole resolution, with the cache and the order of servers free to differ at each request: it learns from the cache and then from replies, name by name, and the last thing learned says how it ends: an answer with an rrset, or with raising off, is returned, one without is NoAnswer, YXDOMAIN is that reply; NXDOMAIN only with a response for every name to try, NoNameservers only when failures on record took out every server. |
| TokenText.Escapify | dns/name.py:138-153 | The loop that escapes a label or a string writes each octet as itself, behind a backslash, or as three digits. |
| TokenText.Decimal | dns/rdata.py:111-111 | Three digits that spell the octet. |
| NameText.ParseText | dns/name.py:982-1025 | The loop over the text, with its five variables, parses as the specification does, and fails with the same errors. |
| NameText.TextRoundTrip | dns/name.py:568-587 | Every name's text parses back, without an origin, to exactly its labels. |
| NameText.TextRoundTripOmittingDot | dns/name.py:582-587 | So does an absolute name's text without its final dot, with the root as origin. |
| NameText.TextWithOrigin | dns/name.py:1019-1025 | Text read with any origin: an absolute name is that name, and a relative one is completed by the origin if both come to at most 255 octets, and too long otherwise. |
| NameText.OmittedDotWithOrigin | dns/name.py:568-589 | Without its final dot the text of an absolute name reads as the relative one, so the origin takes the place of the root. |
| NameText.LabelOctet | dns/name.py:138-151 | What stands for each octet of a label: a backslash before any of the eight special characters, itself from ! to ~, three decimal digits otherwise. |
| NameText.NameTextMeans | dns/name.py:579-589 | Labels stand with a dot between them; the empty name is an at sign, the root a dot. |
| NameText.SomeText | dns/name.py:568-589 | An example, with a dot and a zero octet in a label. |
| NameText.EscapeMeans | dns/name.py:983-1005 | What a backslash takes: one character that is no digit, or three digits; fewer digits are a bad escape, and more than 255 fails to pack. |
| Tokenizers.Tokenizer.GetChar | dns/tokenizer.py:281-296 | The next character, the one put back first; nothing at the end. |
| Tokenizers.Tokenizer.UngetChar | dns/tokenizer.py:307-321 | A character put back, or the end, is the next to come; a second one is refused. |
| Tokenizers.Tokenizer.SkipWhitespace | dns/tokenizer.py:323-341 | White space is passed over and counted, newlines too between parentheses. |
| Tokenizers.Tokenizer.Get | dns/tokenizer.py:343-452 | The next token: one put back, white space, a comment, or whatever the loop finds, with the same errors and the same text left. |
| Tokenizers.Tokenizer.ScanToken | dns/tokenizer.py:373-452 | The main loop, quotes, parentheses, comments and escapes included. |
| Tokenizers.Tokenizer.Unget | dns/tokenizer.py:454-468 | The next get returns this token and leaves the text alone, unless its caller wants none of its kind and gets what the text holds; a second token is refused. |
| Tokenizers.GotAgain | dns/tokenizer.py:358-372 | A token that was got and put back is got again by the same call. |
| TextRoundTrips.UnescapeToBytes | dns/tokenizer.py:136-196 | The loop that takes escapes apart yields the octets, or an error for an incomplete or too large one. |
| TextRoundTrips.StringRoundTrip | dns/rdata.py:96-112 | Unescaping what was escaped gives the same octets. |
| TextRoundTrips.FieldReads | dns/tokenizer.py:343-452 | A name or quoted string, behind any white space, parentheses and comments, is one token that reads back as it. |
| TextRoundTrips.LineRoundTrip | dns/rdtypes/txtbase.py:56-93 | Any list of names and strings written on one line tokenizes to one identifier or quoted string each, which read back as the very same names and octets, and then the end. |
| TextRoundTrips.LayoutRoundTrip | dns/tokenizer.py:343-452 | Names and strings laid out in any way, with white space between them, parentheses opened and closed anywhere, and line feeds and comments within these, read back as the very same, one token each, and then the input ends. |
| TextRoundTrips.LineEnds | dns/tokenizer.py:343-452 | Behind the last field: the end of the input, or an error with a parenthesis open; a line feed ends the line; a closing parenthesis without an open one is an error. |
| TextRoundTrips.CommentEnds | dns/tokenizer.py:398-427 | A comment outside parentheses ends the line, or the input, and goes with that token; one that ends the input within parentheses is an error. |
| TextRoundTrips.QuoteOpen | dns/tokenizer.py:382-443 | A quoted string broken by a line feed is a syntax error, and one that is not closed, or ends in a backslash, an unexpected end. |
| TextRoundTrips.WantedTokens | dns/tokenizer.py:361-365 | To a caller that wants them a comment, with its line feed still to come, and leading white space are tokens. |
| TextRoundTrips.QuotedOctet | dns/rdata.py:93-112 | What stands for each octet between quotes: a backslash before a quote or a backslash, itself from space to ~, three decimal digits otherwise. |
| TextRoundTrips.UnescapeErrors | dns/tokenizer.py:162-196 | Escapes that are refused: nothing behind the backslash, fewer than three digits, and more than 255. |
| Splitting.SplitJoin | dns/ipv6.py:165-165 | Splitting undoes joining, for parts without the separator. |
| Splitting.JoinSplit | dns/ipv4.py:53-54 | Joining undoes splitting, and no part holds the separator. |
| Ipv4.InetAton | dns/ipv4.py:40-65 | Four decimal parts without leading zeros, each at most 255, or an error. |
| Ipv4.RoundTrip | dns/ipv4.py:27-65 | Every IPv4 address reads back from its text. |
| Ipv4.AtonIff | dns/ipv4.py:40-65 | Exactly the texts that are written for addresses are read, each as the address it was written for. |
| Ipv4.DigitsMeans | dns/ipv4.py:27-37 | An octet in decimal, with no more digits than it takes. |
| Ipv6.FindRun | dns/ipv6.py:59-80 | The scan finds the leftmost of the longest runs of zero chunks. |
| Ipv6.BestRunUnique | dns/ipv6.py:59-80 | There is only one such run. |
| Ipv6.InetNtoa | dns/ipv6.py:31-97 | The loops over the digits and the chunks write exactly that text, and only 16 octets are an address. |
| Ipv6.InetAton | dns/ipv6.py:105-195 | The steps from text to octets, scope, dotted quad and colons included, or an error. |
| Ipv6.CanonicalChunks | dns/ipv6.py:165-195 | The loop that makes eight chunks of four digits. |
| Ipv6.RoundTrip | dns/ipv6.py:31-195 | Every address reads back from its text, compressed or not, with an embedded IPv4 address or without. |
| Ipv6.GroupsRead | dns/ipv6.py:105-197 | Eight groups of up to four hexadecimal digits, or fewer with :: anywhere for those of zero that are missing, are read as the octets they stand for. |
| Ipv6.AtonIff | dns/ipv6.py:105-197 | Exactly which texts without a dot are read: eight groups of one to four hexadecimal digits, or fewer with :: once in place of all that are missing; with Ipv6.GroupsRead, also as what. |
| Ipv6.QuadRead | dns/ipv6.py:142-153 | A dotted quad behind the last colon stands for two groups. |
| Ipv6.ScopeMeans | dns/ipv6.py:123-129 | A scope that is to be ignored is what follows the one percent sign; two are an error. |
| Ipv6.GroupMeans | dns/ipv6.py:175-197 | The two octets that a group of one to four digits stands for, digit by digit, in either case. |
| Ipv6.ChunkMeans | dns/ipv6.py:43-58 | A chunk is written in lower case with no more digits than it takes, and is a zero chunk exactly when both octets are. |
| Ipv6.NtoaMeans | dns/ipv6.py:86-102 | Which text is written: all eight chunks, or :: for the leftmost of the longest runs of two or more zero chunks, or an embedded IPv4 address. |
| Ipv6.MappedText | dns/ipv6.py:86-93 | A mapped address is written ::ffff: and as its IPv4 address. |
| Ipv6.ZerosText | dns/ipv6.py:94-100 | The unspecified address is written ::, and the loopback address ::1. |
| Ipv6.AtonSize | dns/ipv6.py:105-195 | Whatever text is accepted gives 16 octets. |
| NameDicts.NameDict.SetItem | dns/namedict.py:64-68 | A key gets a value; no key is deeper than max_depth and at most max_depth_items are as deep, although a key set again is counted again. |
| NameDicts.NameDict.DelItem | dns/namedict.py:70-77 | A key goes, or KeyError; the bounds still hold. |
| NameDicts.NameDict.Recount | dns/namedict.py:74-77 | When the count runs out, depth and count are made exact. |
| NameDicts.NameDict.GetDeepestMatch | dns/namedict.py:88-109 | Starting at the bound finds the same match as trying every suffix, the empty name last. |
| NameDicts.LongestIsDeepest | dns/namedict.py:91-98 | That match is the longest of all keys that the name ends in. |
| UdpForwarders.ReplyReads | lib/socks5_server.py:42-53 | A reply's header reads back, as a request's does, to its sender and data. |
| UdpForwarders.RequestIff | lib/socks5_server.py:192-199 | Exactly which datagrams are requests, octet by octet: fragment number 0, and an address of type 1 with 4 octets, type 4 with 16, or type 3 with a length and as many; the port; the data. |
| UdpForwarders.ReplyOctets | lib/socks5_server.py:232-232 | A reply is three zeros, the sender's address in that form, and the data. |
| UdpForwarders.PruneBounds | lib/socks5_server.py:168-179 | Pruning keeps the limit and the time to live, drops for room no mapping used later than one it keeps, and drops none for room unless the table is full without it. |
| UdpForwarders.NewestStays | lib/socks5_server.py:175-179 | The mapping just added is never dropped. |
| UdpForwarders.ForwardInv | lib/socks5_server.py:203-212 | A forwarded datagram leaves its mapping in the table and everything that always holds. |
| UdpForwarders.AlwaysInv | lib/socks5_server.py:156-234 | Over any interleaving, with a clock that never goes back: the limit holds, every mapping belongs to the one client, replies go to it alone and come only from addresses it has sent to. |
| UdpForwarders.ServerStepMeans | lib/socks5_server.py:219-234 | A server's datagram is sent to the client of its mapping, which is renewed, exactly when there is one used within its time to live; no other mapping in use goes. |
| UdpForwarders.ClientStepMeans | lib/socks5_server.py:181-202 | A client's datagram is to be resolved exactly when it comes from the one client expected and is a request; nothing is sent before. |
| UdpForwarders.UdpForwarder.ClientAllowed | lib/socks5_server.py:156-166 | Allowed exactly if expected and either the one client already or the first; once there is a client it stays, and the invariant holds. |
| UdpForwarders.UdpForwarder.PruneMappings | lib/socks5_server.py:168-179 | The loops that pop the expired and then the oldest mappings prune exactly those. |
| UdpForwarders.UdpForwarder.OnClientDatagram | lib/socks5_server.py:181-200 | The part of a client's datagram before the wait for its destination; the invariant holds, and the client stays who it was. |
| UdpForwarders.UdpForwarder.OnResolved | lib/socks5_server.py:202-217 | The part after it, for any of those waiting: the payload goes to the address resolved, the mapping for its replies is in the table after pruning, and the invariant holds. |
| UdpForwarders.UdpForwarder.OnServerDatagram | lib/socks5_server.py:219-234 | A server's datagram goes to the client of its mapping, which is renewed, or is dropped; the invariant holds. |
| HttpBody.ForwardRequestBody | lib/http_proxy_server.py:228-283 | For every stream and every split of its reads: on success exactly the body goes upstream and is counted; even on failure what went is a prefix of the stream, and counted. Sizes are those of HttpGrammar.NumberIff. |
| HttpBody.CopyChunked | lib/http_proxy_server.py:229-273 | The loops over chunks, data and trailers take exactly the chunked body the stream starts with. |
| HttpBody.CopyLength | lib/http_proxy_server.py:274-283 | Exactly the announced number of octets, or an error when the stream ends before. |
| HttpBody.BodyReads | lib/http_proxy_server.py:229-273 | Every body that passes the forwarder's tests, whatever follows it, is taken as exactly that. |
| HttpBody.BodyFound | lib/http_proxy_server.py:229-273 | Whatever is taken is a body that passes those tests line by line. |
| HttpBody.AcceptedIff | lib/http_proxy_server.py:229-273 | A prefix of the stream is taken exactly when it is a body that passes those tests. |
| HttpGrammar.NumberIff | lib/http_proxy_server.py:239-241 | A chunk's size reads as n exactly when its characters are hexadecimal digits, in either case, whose sum by powers of sixteen is n. |
| HttpGrammar.SizeRoundTrip | lib/http_proxy_server.py:241-241 | Every number reads back from its digits in base 16, in either case and behind any zeros. |
| HttpGrammar.SizeInLine | lib/http_proxy_server.py:238-241 | The digits may have white space on both sides, and an extension behind them. |
| HttpGrammar.SixteenOctets | lib/http_proxy_server.py:229-273 | A chunk of sixteen octets announced as 10, and the last chunk, are taken whole. |
| HttpGrammar.ChunkRefused | lib/http_proxy_server.py:231-262 | Why a stream is refused at a chunk, in order, by octets and with the limit of 8192. |
| HttpGrammar.TrailersMeans | lib/http_proxy_server.py:255-272 | Where the trailers end, or why they are refused: over, beyond the limit, or at a line of CR LF or LF. |
| HttpGrammar.RfcBodyTaken | lib/http_proxy_server.py:229-273 | A chunked body by the grammar of section 7.1 of RFC 9112, whatever follows it, is taken whole exactly when its lines and trailers are within the two limits, and otherwise nothing is. |
| HttpGrammar.ForwardedIsRfcIff | lib/http_proxy_server.py:229-273 | What goes upstream, taken apart in the only way there is, is such a body exactly when each chunk line is hexadecimal digits and extensions, the last one's digits are zeros, each trailer is a field line, and the blank line is CRLF. |
| HttpGrammar.SameBody | lib/http_proxy_server.py:229-273 | A stream starts with at most one body of the form accepted, limits aside. |
| HttpGrammar.SomeRfcBody | lib/http_proxy_server.py:229-273 | A body by the grammar, with a chunk extension and a trailer, to show that it has some. |
| HttpGrammar.BareLineFeedAccepted | lib/http_proxy_server.py:271-271 | An input that is taken and is no such body: a bare line feed for the blank line. |
| HttpGrammar.WhiteSpaceAccepted | lib/http_proxy_server.py:238-239 | Another: a vertical tab before a chunk's size and a space after it. |

## Left out

- XfrRuns.IxfrTransfer: each difference must apply cleanly (records to delete are there, records to add conflict with none and are not a second rdata of a singleton type), and TTLs are not compared; the transfer machine itself is modelled, and its atomicity proved, without these.
- MessageRoundTrips.MessageRoundTrip: names come back up to case, and rdata in the order of the shuffle, which is a parameter.
- OPT and TSIG records, dynamic updates, and reading with continue_on_error: a record or opcode of these kinds is reported as not modelled.
- The xfr flag of a message, which keeps SOA records apart while reading; transfers are given the sets that reading makes, none of them empty.
- Rdata types: NS, CNAME, PTR, MX and SOA have their fields, and RRSIG the eighteen octets before its signer; the rest of an RRSIG, signer included, and every other type is opaque octets, names in it neither checked nor decompressed.
- Tokenizers.Tokenizer.UngetChar: the end of input is put back only where the input has ended, as get does it.
- IDNA and the path for text that is not ASCII; token text is ASCII.
- The random order of rdata and of servers: any order that is a permutation.
- A zone's origin set later by $ORIGIN, and Zone.nodes shared with an immutable dictionary: the origin is fixed, and maps are values.
- Transactions as context managers, update_serial, and check hooks.
- A transfer's transaction is held by its contents; Transactions.Transaction ties the operations on contents to those on versions.
- Locks: one method is one lock section, and time is a parameter of each call.
- The plain Cache, and building requests and answers (EDNS, TSIG, chaining of CNAMEs): a reply carries whether an Answer could be made of it.
- The comparison of a resolution's lifetime with the clock: a resolution is given the replies that arrive in time.
- The regular expressions of dns/ipv6.py are modelled by what they match.
- Header validation of the HTTP proxy, and the limit on one line of its stream reader.
- Opening and closing transports; text forms of socket addresses stand for their octets, and a domain is not decoded.
- Wildcards, IDNA codecs, DNSSEC, TSIG, sockets, event loops and user interface.

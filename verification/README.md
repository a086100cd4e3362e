# PlainApp core logic, modelled and verified in Dafny

This project models the parts of the desktop core whose correctness is not
visible from reading one function: the mDNS codec with its responder and
browser, the group-channel roster protocol, the virtual audio playback queue,
the nearby-device cache, and the arithmetic behind timestamps, ids and base64.

Each module follows one source file or one component. Code that updates state
in place is a class whose methods are proved against functions on the abstract
state; the theorems are lemmas about those functions.

| modules | what they model |
|---|---|
| `Bits`, `Text` | shift-and-mask arithmetic; splitting and joining byte strings |
| `DnsNames`, `DnsMessages`, `AddressText` | `src/mdns/packet_codec.rs`: names, messages, address text |
| `ServiceInfo`, `Responder` | `src/mdns/service_info.rs`, `src/mdns/service_response_builder.rs` |
| `BrowserState`, `Browser`, `Discovery` | `src/mdns/service_browser.rs` and the end-to-end theorems |
| `ChannelRules`, `ChannelService`, `ChannelRounds`, `ChannelProtocol` | `src/chat/channel`: one node's rules, the service, exchanges of two nodes, all nodes together |
| `PlaybackOrder`, `TextPaging`, `Playback`, `AudioQueue` | `src/library/audio_queue.rs` over `src/library/db/audio_queue.rs` |
| `NearbyCache` | `src/chat/db/nearby_device.rs` and the passes of the discovery manager |
| `DbTime`, `ShortId`, `Base64` | `src/utils` and the second calendar of `file_query.rs` |

## What the theorems say together

* **Discovery.** Whatever state a browser is in and however its hash maps are
  walked, the bytes printed for a PTR query make it know exactly the published
  service and hand it to its consumer (`Discovery.QueryToConsumer`), a goodbye
  removes exactly that service (`Discovery.GoodbyeIsExact`), and every run over
  arbitrary packets keeps the state consistent (`Discovery.RunKeepsInvariant`).
* **Channels.** A run with loss, duplication and reordering keeps every row a
  copy of a version the owner assigned exactly when each rename in it by another
  node repeats what the owner published next (`ChannelProtocol.RunAgreesIff`);
  updates converge whatever their order.
* **Playback.** The order that is never materialised is exactly a duplicate-free
  list of all source and queued tracks, and its pages are slices of the ranks.
  Exact conditions say when text paging is filtering and then slicing
  (`TextPaging.TextPagingExactIff`), when "next" does not end (`Playback.HangsIff`)
  and when it returns a track (`Playback.WalkedIff`, `Playback.NeverStallsIff`).
* **Cache.** A stale-record delete removes a row exactly when nothing wrote the
  device since the row was read (`NearbyCache.DeleteOnlyUnwritten`).

## Assumptions

* Strings on the wire are byte sequences, lowercasing is ASCII, and
  `from_utf8_lossy` is the identity (valid UTF-8).
* A packet handler and a channel handler are one atomic step. In the code
  `handle_packet` takes its lock three times and the database mutex covers
  single statements.
* The sender of a channel message is authenticated and a node is not handed its
  own messages. A signature is the signed payload with its signer; checking is
  permissive when the key or the signature is missing, as in the code. Every
  node's key pair has its 64 bytes, and a channel key is empty or decodes to
  at least one byte.
* Channel names are taken as already trimmed. Versions, ranks and offsets do not
  overflow their integer types.
* The library is one fixed sequence of tracks with distinct paths, whatever it
  is sorted by. Queue and playlist tables are sequences in sort order.
* The wall clock does not run backwards during a session of the nearby cache. A
  verification pass reads all rows in one step and takes its cutoff in a later one.
* Hash-map iteration order and the shuffle target are arbitrary choices.

## Where the code and its documentation disagree

The model follows the code.

* `src/utils/dbtime.rs:42-51` promises that text order is time order because the
  text has a fixed width. From year 10000 on it has not: `DbTime.TextOrderHoldsUpTo`
  gives the exact bound.
* `src/library/audio_queue.rs:609-612` promises that filtering precedes paging.
  The reader advances by the length of the visible page, so this holds for every
  text exactly when superseded source copies come last; otherwise the path of a
  track that is read twice, or never, is a failing text
  (`TextPaging.TextPagingExactIff`).
* `src/library/audio_queue.rs:528-530` promises nothing only when there is nothing
  to play. The skipping walk may not end (`Playback.HangsIff`), and it returns
  nothing when two neighbouring copies of one track come before a playable one
  (`Playback.WalkedIff`). It starts beside the current track only within the
  visible total (`Playback.StartsBesideIff`); queueing the next source track is such a case
  (`Playback.QueueingTheNextTrackStalls`).
* `play_next` puts tracks at the front of the queue, which is what comes next unless
  the current track is a queued one (`AudioQueue.PlayNextIff`).
* `enqueue` is documented to move duplicates; with a path twice among the incoming
  tracks it changes nothing, and so does `reorder_queued` with a path listed twice:
  the second insert fails on the primary key and the transaction is rolled back.
* `update_channel_name` has no owner check. A rename by another node keeps the rows
  in agreement exactly when it repeats the owner's next version
  (`ChannelProtocol.StepAgreesIff`), and a run from the start diverges for good
  (`ChannelProtocol.RenameRunDiverges`).
* The kick broadcast by `delete_channel` is signed for the empty target. A member
  that holds the owner's key ignores it; one that has the owner's peer row without
  a key is kicked (`ChannelProtocol.DeletionKickTakesEffectIff`).
* A kick carries no freshness: a run from the start puts a member out that the
  owner has invited again (`ChannelProtocol.KickReplayRun`).
* `encode_name` truncates a label length to one byte and drops empty labels, and
  `read_name` takes every length from 192 on as a pointer. A printed name is read
  back exactly when its labels have at most 191 bytes (`DnsNames.NameRoundTrip`),
  which covers the 63 of section 2.3.4 of RFC 1035.

## Model

| member | source | states |
|---|---|---|
| Bits.OrDisjoint | src/mdns/packet_codec.rs:292-301 | `(d << k) \| c` is addition when `c` fits in the low `k` bits; the fact under every shift-and-or of the codecs |
| Bits.AndMask | src/mdns/packet_codec.rs:267-275 | masking with `2^k - 1` is the remainder modulo `2^k` |
| DnsNames.ReadByShifts | src/mdns/packet_codec.rs:292-301 | the shift-and-or expressions of `read_u16` and `read_u32` are the big-endian values |
| DnsNames.PointerByMasks | src/mdns/packet_codec.rs:267-275 | both pointer tests and the target mask, as arithmetic, for every pair of bytes |
| DnsNames.NameAt | src/mdns/packet_codec.rs:254-290 | reading ends on every byte string, cyclic pointers included; a name read ends after its start and inside the packet |
| DnsNames.NameReadIff | src/mdns/packet_codec.rs:254-290 | on every byte string: a name is read if and only if labels and pointers stand there that end in a closing zero within the depth limit |
| DnsNames.PointerFollowed | src/mdns/packet_codec.rs:267-280 | labels followed by a pointer read as those labels and the labels at the target; the reader goes on after the pointer |
| DnsNames.CompressedNameReadIff | src/mdns/packet_codec.rs:254-290 | a name spread over any chain of pointers is read whole, and the reader goes on after the first pointer, if and only if the chain is within the depth limit; section 4.1.4 of RFC 1035 |
| DnsNames.SelfPointer | src/mdns/packet_codec.rs:254-258 | a name that points back at itself reads as nothing |
| DnsNames.ReadName | src/mdns/packet_codec.rs:254-290 | the loop over offset, labels and pointers computes `NameAt` |
| DnsNames.EncodeName | src/mdns/packet_codec.rs:243-252 | the encoder writes the non-empty labels with truncated length bytes, and a closing zero |
| DnsNames.NameReadBack | src/mdns/packet_codec.rs:243-290 | wherever a printed name stands in a packet, it is read back with its empty labels dropped, and the reader stops right after it |
| DnsNames.NameRoundTrip | src/mdns/packet_codec.rs:243-290 | wherever a printed name stands, it is read back with its empty labels dropped if and only if every label has at most 191 bytes, and as itself if and only if it also has no empty label; for a longer label the reader goes wrong whatever the bytes |
| DnsNames.LongLabelCut | src/mdns/packet_codec.rs:243-290 | a reader that still stops right after a name with a label of 192 bytes or more has cut one label short |
| DnsMessages.RecordsAt | src/mdns/packet_codec.rs:152-179 | on any bytes: as many records as asked for or none, every RDATA window inside the packet |
| DnsMessages.ReadRecords | src/mdns/packet_codec.rs:152-179 | the record loop computes `RecordsAt` |
| DnsMessages.Parse | src/mdns/packet_codec.rs:124-150 | whatever the bytes, every record of a parsed message has its RDATA inside the packet |
| DnsMessages.ParseResponse | src/mdns/packet_codec.rs:124-150 | the parser computes `Parse`: questions and authority skipped, answers and additional kept |
| DnsMessages.ReadQuestions | src/mdns/packet_codec.rs:182-214 | none for a response, a short packet or no question; otherwise the questions with their unicast bit |
| DnsMessages.ClassByMasks | src/mdns/packet_codec.rs:186-212 | the class and response masks split a 16-bit field at bit 15 |
| DnsMessages.PacketBuffer.WriteHeader | src/mdns/packet_codec.rs:218-225 | six big-endian 16-bit fields with the truncated counts are appended |
| DnsMessages.PacketBuffer.WriteRecord | src/mdns/packet_codec.rs:227-241 | name, type, class, TTL, length and RDATA are appended in wire order |
| DnsMessages.BuildQuery | src/mdns/packet_codec.rs:87-106 | a header with one question, and that question |
| DnsMessages.RecordReadBack | src/mdns/packet_codec.rs:152-241 | a printed record is read back with its name, type, TTL and RDATA, and the reader stops right after it |
| DnsMessages.MessageReadBack | src/mdns/packet_codec.rs:124-241 | for any questions, answers, authority and additional records within the wire bounds, parsing returns the same answers and additional records in order |
| DnsMessages.QueryReadBack | src/mdns/packet_codec.rs:87-214 | `read_questions` undoes `build_query`, unicast bit included |
| DnsMessages.QueryMessageReadBack | src/mdns/packet_codec.rs:182-214 | any number of printed questions is read back, all and in order; a message without questions is no query, and no query parses as a response |
| DnsMessages.ResponseIsNoQuery | src/mdns/packet_codec.rs:186-190 | no response is taken for a query, whatever questions it repeats |
| AddressText.IpReadBack | src/mdns/packet_codec.rs:315-319 | `ip_to_bytes` undoes the dotted-quad text that the `ip` accessor prints |
| AddressText.LongestZeroRun | src/mdns/packet_codec.rs:332-351 | the scan finds the leftmost of the longest zero runs |
| AddressText.LeftmostLongestUnique | src/mdns/packet_codec.rs:332-351 | there is only one leftmost longest run |
| AddressText.Ipv6ToString | src/mdns/packet_codec.rs:323-367 | the printer computes the text for that run |
| AddressText.Ipv6CompressesLeftmostLongest | src/mdns/packet_codec.rs:323-367 | every 16-byte address prints with exactly its leftmost longest zero run compressed, and no run of one; sections 4.2.2 and 4.2.3 of RFC 5952 |
| AddressText.Ipv6CompressedIff | src/mdns/packet_codec.rs:352-366 | the text holds a double colon if and only if two zero groups stand side by side: a single zero group is never compressed |
| AddressText.TextExamples | src/mdns/packet_codec.rs:393-432 | digits most significant first, hexadecimal ones in lower case |
| AddressText.Ipv6ReadBack | src/mdns/packet_codec.rs:323-367 | an independent reader of IPv6 text gets back all eight groups |
| AddressText.Ipv6Injective | src/mdns/packet_codec.rs:323-367 | different addresses print differently |
| ServiceInfo.ParseTxtStrings | src/mdns/service_info.rs:98-112 | the loop yields the strings up to the first that overruns the RDATA, and reads only inside the packet |
| ServiceInfo.TxtReadBack | src/mdns/service_info.rs:98-112 | TXT strings of at most 255 bytes are read back as published |
| ServiceInfo.TxtReadsWindow | src/mdns/service_info.rs:98-112 | on any RDATA: the strings read, printed again, are the bytes of the window up to its end or to a string that would overrun it |
| ServiceInfo.EqIgnoreCaseIff | src/mdns/service_response_builder.rs:36-38 | names compare letter by letter, up to case, and everything else exactly |
| ServiceInfo.SrvReadBack | src/mdns/service_info.rs:56-67 | port and target of a printed SRV record are read back |
| Responder.CollectWants | src/mdns/service_response_builder.rs:28-56 | the flag loop computes the wanted records |
| Responder.WantsMean | src/mdns/service_response_builder.rs:28-56 | a record is wanted if and only if some IN question asks for its type, or for ANY, at its own name in any casing |
| Responder.WriteAnswers | src/mdns/service_response_builder.rs:61-79 | the answer bytes are the printed answer records, and the count is their number |
| Responder.WriteAdditional | src/mdns/service_response_builder.rs:81-104 | the same for the additional records of section 12 of RFC 6763 |
| Responder.BuildResponseIfMatch | src/mdns/service_response_builder.rs:18-111 | no response when nothing is wanted or no address is known, otherwise header, answers and additional records |
| Responder.ResponseReadBack | src/mdns/service_response_builder.rs:61-111 | for every combination of wanted records, parsing returns exactly the answers and the additional records if and only if their numbers fit the 16-bit counts |
| Responder.PtrQueryAnswered | src/mdns/service_response_builder.rs:18-111 | a PTR question for the service type, in any casing, is always answered with PTR, SRV, TXT and addresses |
| Responder.QueryAnsweredIff | src/mdns/service_response_builder.rs:18-111 | for any questions: there is an answer if and only if some address is known and something is asked for, and it is the one for exactly the record types asked for |
| Responder.AnswersMean | src/mdns/service_response_builder.rs:61-104 | each of PTR, SRV, TXT and address records is an answer if and only if wanted, and an additional record if and only if it rides along with a wanted one and is no answer itself |
| Responder.OnlyPtrIsShared | src/mdns/service_response_builder.rs:113-199 | every record has the live TTL, and all but the shared PTR carry the cache-flush bit; section 10.2 of RFC 6762 |
| Responder.BuildGoodbye | src/mdns/service_response_builder.rs:172-179 | PTR, SRV and TXT with TTL zero |
| Responder.GoodbyeReadBack | src/mdns/service_response_builder.rs:172-179 | a goodbye parses as those three records and nothing else |
| Responder.BuildHostResponseIfMatch | src/mdns/packet_codec.rs:44-83 | an answer exactly for A or ANY questions at our hostname, with the questions it matched |
| Responder.HostAnsweredIff | src/mdns/packet_codec.rs:44-83 | for any questions: the hostname answers if and only if it has addresses and some question asks for them |
| Responder.MatchingHostIff | src/mdns/packet_codec.rs:53-61 | the matched questions are exactly the IN questions for A or ANY at the hostname, in any casing |
| Responder.HostResponseReadBack | src/mdns/packet_codec.rs:44-83 | the host answer parses as one A record per address |
| BrowserState.EntriesSetAttributes | src/mdns/service_browser.rs:488-503 | id, device type, version and platform are each the value of the last entry with its own key, and stay as they were without one; nothing else changes |
| Browser.GoodbyeInstanceKeys | src/mdns/service_browser.rs:631-647 | the withdrawn instance keys of a packet |
| Browser.GroupAddresses | src/mdns/service_browser.rs:413-440 | the addresses of one record type, per lowercased hostname |
| Browser.ServiceBrowser.MergeAll | src/mdns/service_browser.rs:451-511 | the record loop computes the merged instances, hostnames, touched keys and discoveries |
| Browser.ServiceBrowser.ApplyAddressGroups | src/mdns/service_browser.rs:512-536 | each hostname's address set replaces its instance's, in some order of the hash map |
| Browser.ServiceBrowser.AskForDiscovered | src/mdns/service_browser.rs:550-568 | newly discovered incomplete instances are stamped and asked for |
| Browser.ServiceBrowser.CollectFound | src/mdns/service_browser.rs:582-606 | exactly the touched, complete instances with a foreign id are emitted |
| Browser.ServiceBrowser.HandlePacket | src/mdns/service_browser.rs:379-624 | on any bytes: own and unparsable packets change nothing; a response leads to the merged state, emissions and follow-ups of its records; the invariant is kept |
| Browser.ServiceBrowser.BrowseOnce | src/mdns/service_browser.rs:264-309 | exactly the incomplete instances whose last question is old enough are asked for and stamped |
| Browser.DueKeys | src/mdns/service_browser.rs:264-296 | an instance is due if and only if it is incomplete and was last asked for at least the retry time ago; for addresses also only once its host is known |
| Browser.NotAskedTwice | src/mdns/service_browser.rs:264-309 | an instance just asked for is not asked for again within the retry time |
| Browser.ServiceBrowser.ClearInstances | src/mdns/service_browser.rs:223-225 | the state becomes empty |
| Discovery.MergePacketSound | src/mdns/service_browser.rs:379-546 | any packet merged into a consistent state leaves it consistent, and only live instances are touched |
| Discovery.StepKeepsInvariant | src/mdns/service_browser.rs:223-546 | packets, browse cycles and clears keep: hostnames map to live instances, each stored under its own lowercased service name |
| Discovery.RunKeepsInvariant | src/mdns/service_browser.rs:84-546 | the same for every sequence of arbitrary packets, cycles and clears |
| Discovery.InstanceKeyIff | src/mdns/service_browser.rs:666-678 | a name is an instance of ours if and only if it ends in our service type, in any casing, with room for a label |
| Discovery.AddressesWithdrawNothing | src/mdns/service_browser.rs:631-647 | withdrawn address records withdraw no instance |
| Discovery.OwnRecordsResolve | src/mdns/service_browser.rs:379-546 | all live records of a service, in any order and whatever else the packet withdraws, resolve it from what is left of any state |
| Discovery.PtrDiscovers | src/mdns/service_browser.rs:454-463 | a bare PTR record makes an unknown instance known under its published name and asks for it at once; a known one stays and is not asked for |
| Discovery.PtrAnswerResolves | src/mdns/service_browser.rs:379-546 | from any browser state, merging the responder's PTR answer leaves the instance complete with exactly the published port, target, TXT strings, attributes and addresses, and otherwise exactly as it was; section 12.1 of RFC 6763 |
| Discovery.QueryToConsumer | src/mdns/service_browser.rs:379-624 | from query bytes to consumer: the answer to a PTR query hands every other node exactly that device |
| Discovery.DeviceDiscovered | src/mdns/service_info.rs:136-161 | a device that advertises itself is found with its own id, type, version, platform, port and addresses, under its published name or, up to case, the name it is already known by |
| Discovery.HostAnswerReplacesAddresses | src/mdns/service_browser.rs:413-536 | an address answer replaces the addresses of the instance known under the hostname and changes nothing else |
| Discovery.AddressesReplaceKinds | src/mdns/service_browser.rs:413-536 | a packet of IPv4 and IPv6 addresses of a known host replaces each kind it carries by exactly its own and changes nothing else |
| Discovery.GoodbyeIsExact | src/mdns/service_browser.rs:400-450 | merging a goodbye into any state removes that instance, its hostnames and its follow-up times, and nothing else; section 10.1 of RFC 6762 |
| ChannelService.ChatService.BuildMemberPeers | src/chat/channel/sender.rs:347-384 | the sender's own key first, then the members with a known peer row |
| ChannelService.ChatService.SendToMembers | src/chat/channel/sender.rs:203-219 | one message to every listed member but the sender whose peer row exists |
| ChannelService.ChatService.HandleInvite | src/chat/channel/handler.rs:80-230 | row, peer table, outbox and result are those of the invite rule; other channels untouched |
| ChannelService.ChatService.HandleInviteAccept | src/chat/channel/handler.rs:234-345 | the same for an acceptance: pending becomes joined, the version is raised and broadcast |
| ChannelService.ChatService.HandleInviteDecline | src/chat/channel/handler.rs:349-384 | the same for a refusal: the pending member goes |
| ChannelService.ChatService.HandleUpdate | src/chat/channel/handler.rs:388-468 | the same for an update: only a newer, verified one from the owner is taken |
| ChannelService.ChatService.HandleKick | src/chat/channel/handler.rs:472-528 | the same for a kick: only a verified one for this node is taken |
| ChannelService.ChatService.HandleLeave | src/chat/channel/handler.rs:532-599 | the same for a leave: the owner drops the sender and broadcasts |
| ChannelService.ChatService.CreateChannel | src/chat/channel/ops.rs:34-41 | a row owned by this node, version 1, with itself as joined member |
| ChannelService.ChatService.UpdateChannelName | src/chat/channel/ops.rs:43-69 | any node's row gets the name and the next version; only the owner broadcasts |
| ChannelService.ChatService.DeleteChannel | src/chat/channel/ops.rs:71-96 | the row goes; an owner first broadcasts a kick |
| ChannelService.ChatService.LeaveTheChannel | src/chat/channel/ops.rs:98-128 | a member tells the owner and drops itself |
| ChannelService.ChatService.AddChannelMember | src/chat/channel/ops.rs:130-166 | only the owner adds; a pending member, a new version, an invite and a broadcast |
| ChannelService.ChatService.RemoveChannelMember | src/chat/channel/ops.rs:168-217 | only the owner removes; a kick to the member and a broadcast of the new version |
| ChannelService.ChatService.AcceptChannelInvite | src/chat/channel/ops.rs:219-242 | the acceptance goes to the owner |
| ChannelService.ChatService.DeclineChannelInvite | src/chat/channel/ops.rs:244-267 | the refusal goes to the owner and the row goes |
| ChannelProtocol.WithoutDistinct | src/chat/channel/ops.rs:168-217 | removing a peer keeps rosters duplicate-free and removes exactly that peer |
| ChannelProtocol.AcceptedDistinct | src/chat/channel/handler.rs:295-306 | accepting keeps rosters duplicate-free and changes only the accepting peer |
| ChannelProtocol.StepAgrees | src/chat/channel/handler.rs:80-599 | every operation and delivery that is not a foreign rename keeps agreement |
| ChannelProtocol.RunAgrees | src/chat/channel/handler.rs:80-599 | in every run with loss, duplication and reordering where only the owner renames: each row names the creator as owner and a version it assigned, joined rows equal that version's name and roster, rows that are out differ at most by the member itself, and no roster lists a peer twice |
| ChannelProtocol.StepAgreesIff | src/chat/channel/ops.rs:43-69 | from any agreeing state every event keeps agreement, except exactly a rename by another node that does not repeat the name and roster of the owner's next version |
| ChannelProtocol.RunAgreesIff | src/chat/channel/handler.rs:80-599 | every prefix of a run agrees if and only if every rename in it by another node repeats the owner's next version |
| ChannelProtocol.UpdatesConverge | src/chat/channel/handler.rs:388-468 | after any sequence of the owner's updates the row is the one with the highest version among its start and the updates |
| ChannelProtocol.OrderDoesNotMatter | src/chat/channel/handler.rs:388-468 | two delivery orders of the same set of updates, repeats allowed, end in the same row |
| ChannelProtocol.VersionNeverDrops | src/chat/channel/handler.rs:234-599 | no message but an invite lowers a row's version |
| ChannelProtocol.LatestUpdateCatchesUp | src/chat/channel/handler.rs:388-468 | delivering the owner's latest update makes a following member's row equal to the owner's |
| ChannelProtocol.InviteIsAccepted | src/chat/channel/handler.rs:80-230 | an invite is taken by every invitee that knows the owner and is not in already; its row is then the owner's and no known key is replaced |
| ChannelProtocol.OwnerChangeReachesMembers | src/chat/channel/sender.rs:168-220 | every other member with a peer row is sent the row the owner ended up with |
| ChannelProtocol.JoinHandshake | src/chat/channel/ops.rs:130-242 | add, invite, accept, broadcast: afterwards both rows agree, two versions later, with the peer joined |
| ChannelProtocol.ForeignRenameDiverges | src/chat/channel/ops.rs:43-69 | the lasting case: when an up-to-date member renames and the owner renames differently, one version has two names and the owner's update is ignored as stale |
| ChannelProtocol.JoinRun | src/chat/channel/ops.rs:130-166 | from the start, a run of an add and a delivered invite ends with the member in and both rows equal |
| ChannelProtocol.RenameRunDiverges | src/chat/channel/ops.rs:43-69 | a run from the start ends in that case, the owner's update delivered |
| ChannelProtocol.KickTakesEffectIff | src/chat/channel/handler.rs:472-528 | for every receiver: an owner's kick takes effect if and only if the row names that owner, its peer row exists, and it has no key or has the owner's and the kick was signed for this receiver; otherwise nothing changes |
| ChannelProtocol.DeletionKickTakesEffectIff | src/chat/channel/sender.rs:266-305 | for every receiver: a deletion's kick takes effect if and only if the receiver follows the owner and has no key for it (or has the empty id); the row is then kicked, otherwise nothing changes |
| ChannelProtocol.KickReplayUndoesReinvite | src/chat/channel/handler.rs:472-528 | from any such state, an old kick delivered again after a re-invite puts the member out while the owner lists it |
| ChannelProtocol.KickReplayRun | src/chat/channel/handler.rs:472-528 | a run from the start gets there: add, invite, remove, kick, add, invite, the first kick again |
| ChannelRounds.UpdateTakesEffectIff | src/chat/channel/handler.rs:388-468 | for every receiver: an update takes effect if and only if its sender owns the row, is known, its signature holds or cannot be checked, and it is newer; then name, roster and version are its own and its members are introduced |
| ChannelRounds.InviteTakesEffectIff | src/chat/channel/handler.rs:80-230 | for every receiver: an invite takes effect if and only if the owner itself sent it to this invitee and the invitee knows the owner; the row written, or kept when already in, is given |
| ChannelRounds.ForgedIgnored | src/chat/channel/handler.rs:36-41 | an update or kick signed by another, or for other content, is ignored by everyone who can check it |
| ChannelRounds.UncheckedTaken | src/chat/channel/handler.rs:36-41 | where there is no key or no signature, an owner's update or kick is taken unchecked |
| ChannelRounds.PeersIntroduced | src/chat/channel/sender.rs:347-384 | whoever takes an invite or an update learns exactly the members its owner knows, under the owner's keys, and keeps every key it had |
| ChannelRounds.AnnouncementArrives | src/chat/channel/sender.rs:168-220 | whoever an announcement is sent to, follows the owner and is behind, ends with the owner's name, roster and version |
| ChannelRounds.LeaveRound | src/chat/channel/ops.rs:98-128 | leaving and its delivery: the member is out and only the owner is told; the owner's roster closes the gap and keeps everyone else in place, one version higher, announced to the others when there is a channel key |
| ChannelRounds.DeclineRound | src/chat/channel/ops.rs:244-267 | declining and its delivery: the invitee forgets the channel; the owner's roster loses exactly it, one version higher, and nothing is sent |
| ChannelRounds.AcceptRound | src/chat/channel/handler.rs:234-345 | an acceptance marks exactly the accepter joined, in place, one version higher; a missing key is learned, a known one kept; announced when there is a channel key |
| ChannelRounds.AddRound | src/chat/channel/ops.rs:130-166 | a new peer is listed last as pending, one version higher, and only it is sent an invite; a listed one changes nothing |
| ChannelRounds.RemoveRound | src/chat/channel/ops.rs:168-217 | removing drops exactly that member, one version higher; it is sent a kick that puts it out, everyone who stays the new roster |
| ChannelRounds.RenameRound | src/chat/channel/ops.rs:43-69 | renaming changes name and version only; only an owner tells the others |
| ChannelRounds.DeleteRound | src/chat/channel/ops.rs:71-96 | deleting forgets the row; only an owner sends kicks, one to every other member it knows |
| ChannelRounds.OnlyOwnersTake | src/chat/channel/handler.rs:234-599 | only the owner takes acceptances, refusals and leaves |
| ChannelRounds.WithoutMiddle | src/chat/channel/ops.rs:168-217 | dropping a listed peer closes the gap and leaves everyone else in place |
| PlaybackOrder.TrackAtIsSlot | src/library/audio_queue.rs:407-425 | the rank lookup reads the list head, manual queue, tail, and nothing outside it |
| PlaybackOrder.RanksAreSlots | src/library/audio_queue.rs:407-425 | every source track and every manual slot has exactly one rank, and every rank is one of them |
| PlaybackOrder.RenderedIsExact | src/library/audio_queue.rs:452-607 | the rendered queue has no duplicate path, shows exactly the source and queued paths, and has `queue_total` entries |
| PlaybackOrder.RenderedIsThreeParts | src/library/audio_queue.rs:650-690 | what is shown is the source up to the current track, the whole manual queue, and the rest of the source, both source parts without the queued paths |
| PlaybackOrder.WithoutPathsAppend | src/library/audio_queue.rs:650-690 | leaving paths out keeps the order of the rest |
| PlaybackOrder.QueuePageUnfiltered | src/library/audio_queue.rs:650-690 | the three-segment loop returns the visible tracks of the ranks asked for, for every offset and limit |
| PlaybackOrder.AdjacentPages | src/library/audio_queue.rs:650-690 | adjacent pages concatenate to the page of both |
| TextPaging.QueuePageText | src/library/audio_queue.rs:613-648 | the chunk loop ends and computes the page of the tracks whose lowercased title, artist or path contains the trimmed, lowercased text; blank text takes the unfiltered branch |
| TextPaging.MatchesIff | src/library/audio_queue.rs:643-648 | a track matches if and only if the trimmed text stands somewhere in its title, artist or path, in any casing |
| TextPaging.TrimMeans | src/library/audio_queue.rs:622-624 | trimming takes white space off both ends and nothing else |
| TextPaging.TextPagingExactIff | src/library/audio_queue.rs:613-648 | text paging is filtering the whole queue and then slicing, for every non-blank text, offset and limit, if and only if no visible slot comes after a superseded one |
| TextPaging.ExactWhenHiddenLast | src/library/audio_queue.rs:613-648 | under that condition it is exact whatever the paths are |
| TextPaging.NothingSuperseded | src/library/audio_queue.rs:452-484 | with no queued path in the source that condition holds |
| Playback.TotalPositive | src/library/audio_queue.rs:541-549 | a non-empty order has something to show, so the zero-total return is never taken |
| Playback.WalkSkipping | src/library/audio_queue.rs:565-592 | when the walk can stop it ends, and returns the first non-superseded track of the walk unless a superseded pair blocks it |
| Playback.StopsWithinOneRound | src/library/audio_queue.rs:565-586 | a walk that can stop stops within one round of the order, from any start |
| Playback.WalkFinds | src/library/audio_queue.rs:565-592 | a non-superseded track reached before any stop is the one returned |
| Playback.WalksForever | src/library/audio_queue.rs:565-586 | a walk that cannot stop does not stop after any number of steps |
| Playback.HangsIff | src/library/audio_queue.rs:565-586 | that happens exactly when source and manual queue hold the same paths and no neighbouring slots share one |
| Playback.TwoTracksHang | src/library/audio_queue.rs:565-586 | two tracks, both queued in the other order, are such a case |
| Playback.WalkedIff | src/library/audio_queue.rs:565-592 | from any start, a step returns a track if and only if a playable slot comes before two neighbouring slots with one path |
| Playback.NeverStallsIff | src/library/audio_queue.rs:565-592 | a step returns a track from every start if and only if source and manual queue differ as sets of paths and no superseded slot has its own copy next to it |
| Playback.QueueingTheNextTrackStalls | src/library/audio_queue.rs:565-592 | the everyday case: queueing exactly the next source track makes "next" return nothing |
| Playback.PlainStep | src/library/audio_queue.rs:531-596 | with an empty manual queue a step moves one position around the source |
| Playback.StepFromSlot | src/library/audio_queue.rs:531-596 | where no path is both queued and in the source, a step from the current track's slot moves to the slot beside it, around the whole order |
| Playback.StartsBesideIff | src/library/audio_queue.rs:394-562 | with superseded paths a queued current track counts by its manual slot; the walk starts in the slot beside the current one if and only if that is within the visible total, by which the code wraps around |
| Playback.StartFromNowhere | src/library/audio_queue.rs:551-562 | with no current track "next" begins at the first slot and "previous" at the last visible one |
| Playback.StepsUndo | src/library/audio_queue.rs:531-596 | "previous" undoes "next", and the other way round, exactly when the current track is in the source |
| Playback.TourVisitsAll | src/library/audio_queue.rs:531-596 | n "next" steps visit each of the n source tracks exactly once and return to the start |
| AudioQueue.LibraryDb.ReplaceQueueItems | src/library/db/audio_queue.rs:214-236 | all rows or none: a duplicate path leaves the table as it was |
| AudioQueue.EnqueuedIsExact | src/library/audio_queue.rs:223-249 | an enqueued list has no duplicate path exactly when the incoming one has none, and holds exactly the old and the new paths |
| AudioQueue.EnqueuedAtEnd | src/library/audio_queue.rs:223-249 | with "play next" the queue starts with the incoming tracks, without it it ends with them; the others keep their order |
| AudioQueue.PlayNextIff | src/library/audio_queue.rs:223-249 | where nothing is superseded, the first track enqueued to play next is the one "next" returns if and only if the current track is not itself queued, or closes a queue with no source behind it |
| AudioQueue.LibraryDb.Enqueue | src/library/audio_queue.rs:223-249 | incoming tracks go to one end, their old entries leave, the rest keeps its order; no queued path is ever doubled |
| AudioQueue.ReorderTakesEffectIff | src/library/audio_queue.rs:257-278 | a reordering takes effect exactly when it lists no queued path twice |
| AudioQueue.ReorderedIsPermutation | src/library/audio_queue.rs:257-278 | one that takes effect is a permutation |
| AudioQueue.ReorderedInOrder | src/library/audio_queue.rs:257-278 | the listed tracks come first, in the order listed, then the others in their old order |
| AudioQueue.LibraryDb.ReorderQueued | src/library/audio_queue.rs:257-278 | the queue is the listed tracks in that order, then the others; always a permutation of what it was |
| AudioQueue.LibraryDb.RemoveQueued | src/library/audio_queue.rs:251-253 | exactly that path leaves the queue |
| AudioQueue.LibraryDb.ClearQueue | src/library/audio_queue.rs:302-305 | queue and source become empty |
| AudioQueue.LibraryDb.RemovePaths | src/library/audio_queue.rs:281-298 | deleted files leave the queue and every playlist, and are no longer current |
| AudioQueue.AddedIsExact | src/library/audio_queue.rs:875-901 | adding to a playlist keeps what was there in place, adds every missing path and doubles none |
| AudioQueue.AddedInOrder | src/library/audio_queue.rs:875-901 | new tracks are added at the end, in their order |
| AudioQueue.LibraryDb.AddPlaylistItems | src/library/audio_queue.rs:875-901 | the playlist becomes that list with growing sort orders; the result counts the tracks added; other playlists untouched |
| AudioQueue.LibraryDb.RemovePlaylistItem | src/library/audio_queue.rs:910-913 | exactly that path leaves exactly that playlist |
| AudioQueue.KeptRowsTracks | src/library/db/audio_queue.rs:390-398 | the tracks that stay in a playlist are the others, in their order |
| AudioQueue.LibraryDb.DeletePlaylist | src/library/audio_queue.rs:862-871 | the playlist goes, and the source with it when it was the source |
| AudioQueue.LibraryDb.SetPlaylistSource | src/library/audio_queue.rs:725-760 | the queue is cleared and playback starts at the path asked for, or at the first track |
| AudioQueue.LibraryDb.OnPlaying | src/library/audio_queue.rs:199-215 | a manual jump sets the current path and forgets a cached library position |
| AudioQueue.LibraryDb.CurrentPosInSource | src/library/audio_queue.rs:339-378 | any cached index, stale or not, gives the position of a full lookup |
| AudioQueue.LibraryDb.LoadOrder | src/library/audio_queue.rs:380-391 | the order loaded is the one of the stored source, queue and current path |
| AudioQueue.LibraryDb.CountQueue | src/library/audio_queue.rs:602-607 | the total is the length of a rendered queue that shows every source or queued path once |
| AudioQueue.LibraryDb.PageQueue | src/library/audio_queue.rs:650-690 | the page of the current order |
| AudioQueue.LibraryDb.ResolveNext | src/library/audio_queue.rs:531-596 | a track is returned if and only if the walk reaches one; it is not superseded, is the one at the rank the walk ends at, and becomes the stored current path with its source position; where nothing is superseded it is the track in the slot beside the current one |
| AudioQueue.LibraryDb.SaveCurrent | src/library/audio_queue.rs:486-523 | the stored index is the position of the rank in a library source, negative for a manual slot; the position of the path in a playlist source, -1 when it is not in it; -1 without a source |
| NearbyCache.DeviceCache.Save | src/chat/db/nearby_device.rs:45-59 | insert, or overwrite with a `last_seen` that grows |
| NearbyCache.DeviceCache.RefreshIfMatches | src/chat/db/nearby_device.rs:61-72 | the row is refreshed exactly when its `last_seen` is the one given |
| NearbyCache.DeviceCache.DeleteIfMatches | src/chat/db/nearby_device.rs:74-84 | the row is deleted exactly when its `last_seen` is the one given |
| NearbyCache.DeviceCache.Announce | src/local_api/discover/nearby_discover_manager.rs:560-604 | the device is saved, and emitted exactly when it or its pairing status differs from what this session emitted last |
| NearbyCache.SameDiscoveredIff | src/local_api/discover/nearby_discover_manager.rs:684-693 | two announcements count as the same if and only if all fields and the status agree, the addresses up to their order |
| NearbyCache.DeviceCache.Settle | src/local_api/discover/nearby_discover_manager.rs:397-429 | refresh after a good ping, delete otherwise; unreachable is reported exactly when a row was deleted |
| NearbyCache.RunSound | src/local_api/discover/nearby_discover_manager.rs:380-430 | in every interleaving a row that was read is unchanged, or was written since and is newer, or is gone and was older than the clock |
| NearbyCache.MatchesIffUnwritten | src/local_api/discover/nearby_discover_manager.rs:380-430 | a snapshot still matches exactly when no write of that device took effect since, deletion and re-insertion included; then the row is the one read |
| NearbyCache.DeleteOnlyUnwritten | src/local_api/discover/nearby_discover_manager.rs:380-430 | a stale-record delete removes a row exactly when nothing wrote the device since the snapshot, and touches no other device |
| NearbyCache.WritesRaiseLastSeen | src/chat/db/nearby_device.rs:45-72 | every write raises `last_seen`, also when the clock stands still, and makes the old value stale |
| NearbyCache.SavedRow | src/chat/db/nearby_device.rs:45-59 | a save stores the announced fields, at the announced time or just above the last, and leaves other devices alone |
| NearbyCache.SettledRow | src/chat/db/nearby_device.rs:61-84 | a refresh keeps the fields, a delete drops only its row, and neither does anything unless `last_seen` matches |
| NearbyCache.ReinsertedMatchesIff | src/chat/db/nearby_device.rs:45-84 | a row deleted and inserted again matches an old snapshot exactly when the clock reads the old value; the staleness age rules it out |
| DbTime.SplitUnixSecs | src/utils/dbtime.rs:54-89 | the split is a valid civil date whose unix time is the input, for all seconds |
| DbTime.UnixSecsToIso | src/utils/dbtime.rs:42-45 | the text of that date |
| DbTime.UnixMillisToIso | src/utils/dbtime.rs:47-51 | the same with milliseconds |
| DbTime.IsoFromUnixMillis | src/utils/dbtime.rs:34-36 | negative times are clamped and sub-second digits dropped |
| DbTime.FileQueryIso | src/local_api/schema/file_query.rs:80-116 | the second calendar's own loops print the same text for every positive second, and nothing up to the epoch |
| DbTime.BeforeIsEarlier | src/utils/dbtime.rs:54-89 | civil order is time order, and a time has one civil date |
| DbTime.OnlyCivilAt | src/utils/dbtime.rs:54-89 | a time has exactly one valid civil date, so whatever computes one prints the same text |
| DbTime.TextReadBack | src/utils/dbtime.rs:42-89 | before year 10000 the text reads back as the civil date of its time, separators in place and every field the number it names, milliseconds included |
| DbTime.MonthLengthRule | src/utils/dbtime.rs:70-74 | thirty days have April, June, September and November |
| DbTime.FixedWidthIff | src/utils/dbtime.rs:42-89 | the text has width 20 exactly before year 10000 |
| DbTime.TextOrderIsTimeOrder | src/utils/dbtime.rs:42-89 | before year 10000 text order is time order |
| DbTime.MillisOrderIsTimeOrder | src/utils/dbtime.rs:42-89 | the same for milliseconds, at width 24 |
| DbTime.OrderBreaksAtYear10000 | src/utils/dbtime.rs:42-89 | the first second of year 10000 sorts before the second it follows |
| DbTime.TextOrderHoldsUpTo | src/utils/dbtime.rs:42-89 | text order is time order on all times up to a bound exactly when the bound is before year 10000 |
| ShortId.ShiftInByte | src/utils/shortid.rs:31-43 | the in-place digit loop with `\|` and the carry computes the shifted number, digits below 57 |
| ShortId.Encode | src/utils/shortid.rs:27-56 | the loops compute the padded text of the number |
| ShortId.NumberValue | src/utils/shortid.rs:27-45 | the digit list has the big-endian value of the bytes, no leading zero and digits below 57 |
| ShortId.ShiftInValue | src/utils/shortid.rs:31-43 | one byte shifted in multiplies the value by 256 and adds the byte |
| ShortId.ShiftInAt | src/utils/shortid.rs:31-43 | the carry stays a byte, so `\|` is addition in every step |
| ShortId.EncodedReadBack | src/utils/shortid.rs:27-56 | an id read as a base-57 number is the number of the bytes |
| ShortId.EncodedLength | src/utils/shortid.rs:27-56 | sixteen bytes give exactly 22 characters |
| ShortId.EncodedInjective | src/utils/shortid.rs:27-56 | different inputs of one length give different ids |
| ShortId.LetterIsAlphabetEntry | src/utils/shortid.rs:14-14 | the letter ranges are the alphabet, entry by entry |
| ShortId.LetterReadBack | src/utils/shortid.rs:14-14 | the letters are distinct, and none is `0`, `O`, `1`, `I` or `l` |
| Base64.CharIsTableEntry | src/utils/base64.rs:3-3 | the character ranges are the encoder's table, entry by entry |
| Base64.Base64Encode | src/utils/base64.rs:2-31 | the chunk loop computes the encoding |
| Base64.Base64Decode | src/utils/base64.rs:34-61 | the chunk loop computes the decoding, padding dropped |
| Base64.ShiftsAndMasks | src/utils/base64.rs:2-31 | the shifts and masks regroup 8-bit into 6-bit digits without overlap |
| Base64.ChunkDigits | src/utils/base64.rs:5-29 | the four characters are the 24 bits of a chunk in digits of six, most significant first, with a pad exactly where no byte reaches |
| Base64.DecodedBits | src/utils/base64.rs:46-59 | any four characters decode to the three bytes of their 24 bits, fewer to the bytes they fill |
| Base64.Base64RoundTrip | src/utils/base64.rs:2-61 | decoding undoes encoding for every byte string, both paddings included; section 4 of RFC 4648 |
| Base64.EncodedLength | src/utils/base64.rs:2-31 | four characters for every started group of three bytes |

## Left out

- AudioQueue.LibraryDb.ResolveNext: requires that the walk over a non-empty order can stop, because the code's loop does not end otherwise; `Playback.HangsIff` says exactly when.
- Discovery.PtrAnswerResolves: covers names with non-empty labels of at most 191 bytes, TXT strings of at most 255 bytes, canonical IPv4 text, RDATA within 16-bit lengths and record counts within 16 bits; for the labels of a name and for the counts, `DnsNames.NameRoundTrip` and `Responder.ResponseReadBack` show that the bound is exact.
- TextPaging.TextPagingExactIff: takes paths to be non-blank, so that every track can be asked for by its path; lowercasing and trimming are ASCII.
- ChannelProtocol.RunAgrees: excludes renames by other nodes; `ChannelProtocol.RunAgreesIff` says exactly which of them keep agreement.
- ChannelService.ChatService.SendToMembers: a send is an entry in an outbox; transport, retries and delivery results are not modelled.
- Text-level details: Unicode case mapping, invalid UTF-8, JSON encoding of rosters and payloads.
- Timestamps of rows, channel-key encryption, signature and key primitives.
- `elect_leader` and the message fan-out of chat messages.
- Play history, play modes, library source selection, sort orders, tags and GraphQL resolvers.
- Sockets, threads, interface enumeration, the QU fallback, unicast re-queries and snapshots of the browser.
- The scan of discovered devices beyond the save step, pairing and presence events.
- Short-id randomness and the version bits that `new_id` sets in the random bytes.
- Integer overflow of versions, ranks, offsets and clock values.

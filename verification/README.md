# MeshIRCd: a Dafny model of its algorithms, its federation protocol and its caches

MeshIRCd is an IRC server whose instances federate: they exchange signed events, keep a Lamport clock,
drop events they have seen, flood the rest to their peers, and merge channel state when a partition
heals. This project models the parts of it that compute or keep something, in the form the program has
them: classes whose methods update fields, loops over arrays and strings, and plain functions where the
program computes a value. Each method is proved against a function on values, and the properties are
proved about those functions, over all inputs, all runs or all reachable states.

| file | models |
|---|---|
| `Glob.dfy` | ban-mask matching |
| `Radix.dfy`, `Base58.dfy`, `Did.dfy` | base-58 conversion in place, and did:key identifiers |
| `Modes.dfy`, `ModeLine.dfy`, `ModeRequest.dfy` | the MODE interpreter with the reader of its delta, the line it broadcasts, and the requests it reads |
| `Merge.dfy`, `Channel.dfy` | the partition-heal merge, and the channel object that it and the interpreter update |
| `Decimal.dfy`, `Urns.dfy`, `Lamport.dfy`, `Dedupe.dfy`, `EventStore.dfy` | resource names, the clock and the conflict order, the deduplication window, the event log |
| `Federation.dfy`, `Network.dfy`, `Causality.dfy` | one server's federation manager; any number of servers with messages in flight; causality |
| `Flood.dfy`, `FloodLimits.dfy`, `DeltaSync.dfy` | flooding, how long the windows protect it, and delta sync, over runs of the network |
| `Canonical.dfy`, `JsonText.dfy`, `Envelope.dfy` | canonical JSON, Go's text of primitive values, signing and the wire |
| `RemoteUsers.dfy` | the table of users on other servers |
| `Nicks.dfy`, `Messaging.dfy` | the nicks clients can have and the map of clients; PRIVMSG and NOTICE with their message ids |
| `History.dfy`, `Paging.dfy` | history ring buffers, and CHATHISTORY requests |
| `Lines.dfy`, `TagEscape.dfy`, `TaggedLine.dfy` | IRC lines, tag values and tagged lines |
| `FloodControl.dfy` | the token bucket of the read loop |
| `Text.dfy` | options, results and string helpers |

Limits and capacities (window size and age, event retention, history capacity) are parameters. So are case
folding, upper-casing, parsing of numbers and timestamps, the clock readings, the signature scheme,
rounding an integer to a float64, and how Go prints a float64. In the network model whether a message
verifies is an arbitrary function of sender, receiver and event, connections are chosen anew at every step,
and messages may be delivered in any order or lost.

Where the code does not do what its documentation or its own purpose suggests, the model follows the code
and a theorem says exactly when it does:

- The mask matcher reads a literal `*` in the matched string as equal to a `*` of the mask before it looks
  for wildcards, so it misses some masks for exactly the strings that contain a `*` (`Glob.ExactIffNoStar`).
- A tag value survives escaping and unescaping exactly when no backslash in it precedes one of the letters
  `:`, `s`, `r`, `n`: unescaping replaces in five passes instead of one (`TagEscape.RoundTripIff`, `TagEscape.BackslashN`).
- A MODE line is read as what was changed exactly when every mask and every new key of the request is a word
  without a leading colon: the last one is joined without a mark, so a key set with a space in it is announced
  as its first word
  (`ModeLines.ModeLineIff`, `ModeLines.KeyWithSpace`).
- By the advertised CHANMODES `-k` takes a parameter, by the interpreter it does not. They read a request alike
  exactly when no `k` under a minus sign comes before a letter that takes a parameter
  (`ModeRequests.AlikeIff`, `ModeRequests.RemoveKeyThenOp`).
- `BETWEEN` excludes the message at the position of its earlier bound. With timestamps, which `IRCV3.md` lines
  256-262 document, that is the first message at or after the earlier one, whether or not it is at that time;
  so it excludes just the messages at the bounds exactly when one message is at the earlier one, or none is in
  the range (`Paging.BetweenTimestamps`, `Paging.BetweenExclusiveIff`, `Paging.BetweenMisses`).
- Replaying an event out of a sync response never takes effect, because its id is marked before it is
  handed on (`Federation.SyncReplayDropped`).
- Users announced under another spelling of a server's name are not removed when it disconnects, and no user of
  a server whose name has a colon ever is: a name is compared up to its first colon when a user is announced,
  and as a whole when users are removed (`RemoteUsers.NoneLeftIff`, `RemoteUsers.OtherSpellingStays`,
  `RemoteUsers.ColonPeerKept`).
- Two connected clients can have one nick. A client that has quit keeps its nick, and a NICK of it that was
  read before is still handled: it removes whoever has that nick by then from the map. A NICK leaves every
  connected client listed exactly when it does not displace one that way (`Nicks.Registry.HandleNick`,
  `Nicks.Registry.OnlyQuitDisplaces`, `Nicks.LateNick`).
- Message ids are not unique, against `IRCV3.md` line 124: a message to several targets is stored under one id
  for all of them. The logs of channels and of pairs of nicks repeat no id exactly as long as no message is sent
  to one of its targets twice (`Messaging.Server.Privmsg`, `Messaging.UniqueIff`, `Messaging.SendTwice`); the
  history of all of a nick's messages repeats one as soon as two copies concern the nick
  (`Messaging.AllUniqueIff`, `Messaging.SendToBoth`). Paging by ids shows everything exactly when none is
  repeated; otherwise BEFORE skips messages, and AFTER may return one page forever (`Paging.PagingTilesIff`,
  `Paging.BeforeSkips`, `Paging.PagesForwardIff`, `Paging.AfterRepeats`).
- The topic after a merge depends on the order of the events exactly when two events of the latest time
  disagree (`Merge.TopicConvergesIff`).

## Model

| member | source | states |
|---|---|---|
| Glob.MatchMask | main.go:2846-2875 | The loop terminates; what it accepts matches the declarative `*`/`?` relation; it decides that relation when the string or the mask has no `*`. |
| Glob.Complete | main.go:2846-2875 | Backtracking to the last star only loses no match when no star can be read literally. |
| Glob.ExactIffNoStar | main.go:2846-2875 | For a folded string, the matcher decides the wildcard relation for every mask if and only if the string has no `*`. |
| Glob.StarlessMatches | main.go:2846-2875 | In the wildcard relation a mask without a star is as long as the string and agrees with it wherever it has no question mark. |
| Glob.StarMatches | main.go:2846-2875 | A star between two masks stands for whatever is between what they match. |
| Base58.BufferEnough | identity.go:571-573 | A buffer of `len*138/100 + 1` base-58 digits holds every number of `len` bytes. |
| Base58.Convert | identity.go:571-590 | The nested in-place loops never index below the buffer, leave no carry, and end with the buffer holding the bytes' number, zeros up to `high`. |
| Base58.EncodeBase58 | identity.go:556-602 | The result is one `1` per leading zero byte and then the base-58 digits of the number, most significant first. |
| Base58.DecodeBase58 | identity.go:127-168 | The result is one zero byte per leading `1` and then the bytes of the number; the first character outside the alphabet is the error. |
| Base58.DecodeEncode | identity.go:126-168 | Decoding an encoded non-empty byte string returns it, leading zeros included. |
| Base58.EncodeDecode | identity.go:555-602 | Encoding a decoded non-empty base-58 string returns it, leading ones included. |
| Base58.AlphabetText | identity.go:123-124 | The 58 letters in their order. |
| Base58.FirstInvalidAt | identity.go:126-150 | The character named by the error is the first one outside the alphabet. |
| Dids.DeriveInvertsCreate | identity.go:173-205 | A DID yields an Ed25519 key if and only if, up to its fragment, it is the did:key made from that 32-byte key. |
| Dids.KeyMethod | identity.go:85-108 | Only strings that start with `did:key:` parse to the method `key`, and the rest before the fragment is the identifier. |
| Dids.DidParts | identity.go:85-108 | A DID is parsed into its method, its identifier up to the `#`, and the fragment after it. |
| Dids.DidRefused | identity.go:85-108 | A string is refused if and only if it does not start with `did:` or has fewer than two colons before any `#`. |
| Dids.NoKeyBecause | identity.go:173-205 | Which error each DID without a key gives, and the key of every other. |
| Dids.KeysLookAlike | identity.go:604-610 | Every DID made from a 32-byte key starts with `did:key:z6Mk`. |
| Modes.DeltaExact | main.go:784-897 | A reader of the grouped mode string and the parameter list, by the advertised CHANMODES and PREFIX, moves from the state before to the state after and consumes every parameter; nothing emitted means nothing changed. |
| Modes.RequestDone | main.go:784-881 | Each letter takes effect in turn with the next unused parameter when the interpreter takes one for it, and letters that are unknown, lack a parameter, or have one naming nobody or no positive number have none. |
| Modes.CompressReads | main.go:882-912 | Grouping the signs does not change what is read. |
| Modes.HandleExact | main.go:706-914 | The same for the whole command: queries, list queries and refusals change nothing and emit nothing; otherwise the mode string and parameters carry exactly the change, and no line is sent only if nothing changed. |
| Modes.WhoMayChange | main.go:706-782 | Mode strings of signs alone, and those of `b`, `e`, `I` and signs without parameters, are queries; of all others those of members whose status has an `o` are carried out, and only those. |
| Modes.QueryShows | main.go:733-777 | A query shows the key to members only, the limit when there is one, and changes nothing. |
| Modes.SingleLetter | main.go:784-881 | What a request of one letter with one parameter makes of each field of the channel. |
| Modes.LetterReplies | main.go:784-881 | The replies each letter adds: the bans, a client that is no member, an unknown letter. |
| ModeLines.ModeLineIff | main.go:898-900 | The broadcast line is parsed into the channel, the mode string and the parameters if and only if the prefix has no space and the channel, every mask and every new key of the request that the interpreter reaches are words without a leading colon. |
| ModeLines.LineReadExact | main.go:898-900 | A client that reads the line of such a request ends up with what the channel has become. |
| ModeLines.ParamsMiddleIff | main.go:784-881 | After every letter the parameters of the change are such words if and only if the masks and keys passed on so far are. |
| ModeLines.ParamsMiddle | main.go:784-881 | All parameters of a change are such words whenever those of the command and the nicks of clients are. |
| ModeLines.KeyWithSpace | main.go:898-900 | `MODE #c +k :a b` sets the key to `a b`, and its line is read as `+k a b`, of which a reader takes the key `a`. |
| ModeLines.RelayedLine | federation.go:1619-1623 | The changes relayed make the same line on the other servers. |
| ModeRequests.AlikeIff | main.go:1555 | For all states, parameters and clients the interpreter and the advertised rules agree after every letter of a request if and only if no `k` under a minus sign comes before a letter that takes a parameter. |
| ModeRequests.AdvertisedTakes | main.go:1555 | The advertised rules for a request take parameters for the same letters as the reader of the answer does. |
| ModeRequests.RequestAdvertised | main.go:784-881 | A request without such a `k` leaves the channel as the advertised rules say. |
| ModeRequests.RemoveKeyThenOp | main.go:842-857 | `-ko key bob` looks for a client named `key` and leaves `bob` an operator. |
| Channels.Channel.HandleMode | main.go:706-914 | The channel object after the command, every reply, the line broadcast and the changes relayed to other servers are those of the interpreter's function; nothing changes unless the client is a member with an `o`; members hold no letter twice. |
| Channels.Channel.HandleLetter | main.go:789-881 | One round of the loop over the mode string: parameter index, sign, channel, changes and replies. |
| Merge.MergedModes | federation.go:1692-1695 | After any merges the flags are the union of all flags. |
| Merge.MergedBans | federation.go:1697-1713 | After any merges the folded ban masks are the union of all folded masks carried. |
| Merge.MergedTopic | federation.go:1683-1690 | The topic time is the maximum of the readable ones and the initial one, and the topic is that of an event of that time. |
| Merge.MergeConverges | federation.go:1681-1718 | Any order and repetition of the same events gives the same flags, the same folded ban masks and the same topic time. |
| Merge.TopicConvergesIff | federation.go:1683-1690 | The topic converges for all orders and repetitions if and only if the events of the latest time carry one topic. |
| Merge.TopicTaken | federation.go:1683-1690 | A merge takes the three fields of the topic when its time is given, readable and later, and else none. |
| Merge.BanTaken | federation.go:1697-1713 | Of the entries with one folded mask the last is kept as it came, its time zero when unreadable. |
| Merge.BanKept | federation.go:1697-1713 | A ban that is not listed stays as it is. |
| Channels.Channel.HandleRemoteMerge | federation.go:1681-1718 | The channel object is updated as one merge step. |
| Urns.HostnameOfServer | s2s.go:676-689 | The host name comes back from a server's name if and only if it is not empty. |
| Urns.EventIDUnique | s2s.go:663-684 | Events of non-empty hosts share an id only if host and sequence number agree. |
| Urns.EmptyHostCollides | s2s.go:663-684 | An empty host name shares every event id with the host named like the prefix of server names. |
| Urns.Names | s2s.go:663-694 | The names of one server, one of its users and one of its events, letter by letter. |
| Lamport.LamportClock.Next | s2s.go:330-335 | The clock goes up by one and returns the new number. |
| Lamport.LamportClock.Merge | s2s.go:347-359 | The clock's number and vector after a merge are those of the merge function. |
| Lamport.MergeAdvances | s2s.go:347-359 | A merge moves the clock past both numbers by at least one, and by no more than one past the larger; no vector entry goes down. |
| Lamport.CompareTotalOrder | s2s.go:384-399 | Compare is a strict total order on number and origin. |
| Lamport.CompareIff | s2s.go:384-399 | The smaller number comes first, and on equal numbers the origin that, at the first position where the two differ, has ended or has the smaller character. |
| Lamport.LexLessAt | s2s.go:391-396 | That is what the order of strings is. |
| Dedupe.Deduplicator.IsDuplicate | s2s.go:615-631 | It answers whether the id is in the window, and the window becomes the marked and pruned one. |
| Dedupe.Deduplicator.PruneOld | s2s.go:634-653 | Both pruning loops together drop exactly the aged entries and then the excess, from list and map alike. |
| Dedupe.AfterValid | s2s.go:594-653 | In every run the map has exactly the listed ids, each listed once with its time, within the size limit. |
| Dedupe.AfterOrdered | s2s.go:615-653 | With clock readings that do not decrease the listed times are in order. |
| Dedupe.NewTwice | s2s.go:615-653 | One id is answered new twice only if more than the age limit passed or at least the size limit of other ids were accepted in between. |
| Dedupe.WindowExact | s2s.go:615-653 | With clock readings that do not decrease the window holds exactly those accepted calls that are among the last of the size limit and not older, at the last of them, than the age limit. |
| Dedupe.NewIff | s2s.go:615-631 | So a call is answered new if and only if its id is not that of such a call. |
| Events.EventStore.StoreEvent | federation.go:85-103 | The three indexes after storing and pruning are those of the store function. |
| Events.PutHolds | federation.go:85-132 | The event list is a recent part of the history within the count, the index by id holds listed events only, and the index by origin is the whole history of each origin in order. |
| Events.PutExact | federation.go:85-132 | Storing drops the fewest events at the front that leaves no more than the count and no old event in front, and their ids. |
| Events.PutByOrigin | federation.go:101-103 | By origin every event is kept. |
| Events.FromMember | federation.go:101-103 | An origin's list holds the stored events of that origin and no others. |
| Federation.FederationManager.HandlePeerMessage | federation.go:316-407 | A message that does not verify, or whose id is in the window, changes nothing and goes nowhere; any other is handled, marked, merged and stored unless transient, and forwarded to all connected but its source; the log stays covered. |
| Federation.FederationManager.CreateEvent | federation.go:1378-1395 | A new event carries the next number and its id; only a broadcast one is stored; the log stays covered. |
| Federation.FederationManager.SelectForSync | federation.go:469-493 | Whatever the order of the vector, each text is selected exactly as often as there are stored events with it, of the server's own or a vector origin, numbered above the peer's entry, or above 0 where it has none. |
| Federation.MissingByOrigin | federation.go:477-491 | Selecting origin by origin neither loses nor repeats an event. |
| Federation.ReceiveCovered | federation.go:342-352 | Merging and storing an event numbered from 1 keeps every stored origin a vector key, with its numbers within the entry. |
| Federation.SelectionCompleteIff | federation.go:469-493 | The selection is complete for every peer's vector if and only if every stored origin is the server's own or a vector key. |
| DeltaSync.ReachableStores | federation.go:342-352 | In every reachable state every stored origin is the server's own or a key of its vector, with numbers within what it knows, and everything handled that is not transient, and everything broadcast, is stored. |
| DeltaSync.SelectionComplete | federation.go:469-493 | In every reachable state, for every peer's vector and every history the store records, the selection is all missing events. |
| DeltaSync.AnswerSync | federation.go:469-493 | A server of a reachable network answers with each text as often as it has stored events with it numbered above the peer's entry, or above 0 where it has none; among them is everything of that kind it ever handled or broadcast. |
| Federation.SyncReplayDropped | federation.go:933-948 | An event replayed from a sync response is taken for a duplicate and changes nothing. |
| Federation.VerdictMeans | federation.go:331-356 | What becomes of the memory of a server in each of the three cases, field by field; five kinds of message are not stored. |
| Federation.MissingWanted | federation.go:469-493 | The selection has each text as often as it is wanted. |
| Network.StepKeeps | federation.go:316-407 | Every step of the network keeps the invariant: clocks within the trace, valid windows, every packet and every processed event created by some server, numbers above all earlier ones at the server. |
| Network.OnlyVerified | federation.go:331-335 | In every reachable state everything a server handled had verified for the peer it came from. |
| Network.StepSpreads | federation.go:401-407 | Where each step puts events: a created one to the connected peers, a handled one to those but its source. |
| Causality.CausalityRespected | s2s.go:330-359 | In every reachable state an event that causally precedes another, through any chain of servers, has the smaller number and the smaller place in the conflict order. |
| Causality.EventsDistinct | s2s.go:663-684 | In every reachable state, with distinct non-empty host names, all created events have distinct ids and distinct places in the conflict order. |
| Causality.ClocksBounded | s2s.go:330-359 | No clock exceeds the number of events created and processed. |
| Flood.StepLowers | federation.go:336-407 | Every delivery of a copy of an id lowers the potential of unmarked servers and copies; no other step raises it while windows keep the id. |
| Flood.FloodEnds | federation.go:336-407 | In every run the deliveries of an id are at most the potential used up, so its flood ends. |
| Flood.HandledOnce | federation.go:336-398 | While windows keep the id, every server runs its handlers, and forwards it, at most once. |
| Flood.FloodBound | federation.go:401-407 | From its creation among n servers, at most n*n - n - 1 copies of an event are delivered, in any topology and schedule, while windows keep its id. |
| FloodLimits.ShortRunKeeps | s2s.go:615-653 | A run in which each window accepts fewer other ids than the size limit, and whose markings fall within the age limit, makes no window forget an id marked during it. |
| FloodLimits.FloodWithinLimits | federation.go:401-407 | Through every such run the flood of a new event keeps to its bound and each server handles it at most once. |
| Flood.ForwardedFew | peer.go:560-566 | A server forwards an event to at most n - 2 servers, never to itself or its source. |
| Canonical.CanonicalizeMap | s2s.go:425-458 | The printer's text depends on the value alone, whatever the order in which the map's keys are visited. |
| Canonical.CanonicalizeArray | s2s.go:474-491 | The same for arrays, in order, with commas between items. |
| Canonical.OrderIrrelevant | s2s.go:427-431 | Two visits of the same keys sort to the same sequence. |
| Canonical.KeysAscend | s2s.go:430-430 | The keys of an object are printed in the one order in which, of every two, the earlier has ended or has the smaller character where they first differ. |
| Canonical.ObjectText | s2s.go:425-458 | The text of an object is its fields, in that order, with colons and commas, in braces. |
| Canonical.ArrayText | s2s.go:474-491 | The text of an array is its items, in order, with commas, in brackets. |
| Canonical.OriginBeforeSeq | s2s.go:427-431 | Of the fields `seq` and `origin`, `origin` is printed first. |
| Canonical.CanonUnique | s2s.go:425-491 | Equal texts, each followed by something that ends a value, come from equal values, at any nesting. |
| JsonText.CanonicalDecodable | s2s.go:425-491 | With Go's text of strings and literals, and any printing that keeps numbers apart, parsed values with equal canonical text are equal. |
| JsonText.DecimalPrints | s2s.go:425-491 | Some printings do keep numbers apart: decimal numerals. |
| JsonText.QuotedUnique | s2s.go:442-446 | Go's quoted strings are injective and self-delimiting. |
| JsonText.BodyRead | s2s.go:442-446 | A reader of strings by section 7 of RFC 8259 gets back what was quoted. |
| JsonText.QuotedIsSafe | s2s.go:442-446 | No quoted text has a control character, or one that Go escapes for HTML and JavaScript. |
| JsonText.Literals | s2s.go:468-470 | The text of null, of the truth values and of two numbers. |
| Envelopes.MarshalFields | s2s.go:79-95 | The flattened fields are the common ones, the signature's if there is one, and the payload's, which win. |
| Envelopes.UnmarshalJSON | s2s.go:98-140 | Fields of the wrong type are left at their zero value; the payload is everything but the eight reserved names. |
| Envelopes.WireNames | s2s.go:79-95 | What is on the wire under each name. |
| Envelopes.ReadMeans | s2s.go:98-140 | What is read into each field, and when it is left at its zero value. |
| Envelopes.EnvelopeReturnsIff | s2s.go:79-140 | Writing and reading an envelope returns it, numbers rounded, if and only if its payload uses no reserved name and it has no algorithm without a signature. |
| Envelopes.Envelope.Sign | s2s.go:494-508 | Signing replaces the signature and the algorithm and nothing else; the bytes signed are the canonical ones without both. |
| Envelopes.VerifyEnvelopeData | s2s.go:557-590 | The five outcomes of a verification, in the order in which they are checked, decoding the signature before the bytes. |
| Envelopes.AcceptedIff | s2s.go:557-590 | Fields are accepted if and only if they name `ed25519` and have a signature valid for the canonical text of all other fields. |
| Envelopes.SignedBytesSurvive | s2s.go:494-508 | For every envelope and payload the bytes checked after the wire are the bytes that were signed. |
| Envelopes.HopsKeep | federation.go:401-407 | Parsing and forwarding any number of times leaves the fields unchanged. |
| Envelopes.SignedVerifiesIff | s2s.go:557-590 | After any number of hops a signed envelope verifies if and only if its payload overrides neither algorithm nor signature, or does so with valid ones. |
| Envelopes.SignedContentIff | s2s.go:538-590 | The signed bytes of parsed fields are equal if and only if all fields but the signature's two are. |
| RemoteUsers.HomeOfUserURN | s2s.go:692-694 | The host comes back from a user's name if and only if it has no colon. |
| RemoteUsers.ApplyKeeps | federation.go:553-662 | Every message keeps each key equal to its record's name, its fourth part equal to the record's server, and each announcement made by the user's home. |
| RemoteUsers.AlwaysWellHomed | federation.go:553-662 | The same after any messages in any order. |
| RemoteUsers.DisconnectExact | federation.go:1101-1113 | In every reachable table a disconnect removes exactly the keys homed on the peer and leaves the other records alone. |
| RemoteUsers.NoneLeftIff | federation.go:1429-1445 | For every peer, no user it could announce remains after its disconnect if and only if all users whose server folds like its name up to a colon have its whole name for server. |
| RemoteUsers.OtherSpellingStays | federation.go:1101-1113 | A user announced under another spelling of the peer's name, or under the part before its colon, stays. |
| RemoteUsers.ColonPeerKept | federation.go:1101-1113 | The disconnect of a peer with a colon in its name, which discovery.go lines 100-114 accept, removes nobody. |
| RemoteUsers.HomeOfServerURN | federation.go:1437-1443 | What is found of a host in a server's name is the part before its first colon. |
| RemoteUsers.OwnedIff | federation.go:1429-1445 | A user named by a server is a peer's if and only if their hosts, up to a colon, fold to one. |
| RemoteUsers.FederationUsers.CheckNickCollision | federation.go:1076-1098 | A local holder wins; without a holder the newcomer does; otherwise some remote holder of the nick decides by the conflict order. |
| RemoteUsers.OutcomeDetermined | federation.go:1076-1098 | With at most one holder the newcomer loses if and only if a local client has the nick, or the holder has the smaller number, or the same and the smaller origin. |
| RemoteUsers.FederationUsers.HandleUserOnline | federation.go:553-615 | The table after the message; an owned user is stored unless the collision rule makes it lose; distinct keys hold distinct records. |
| RemoteUsers.OnlineMeans | federation.go:579-612 | Each field of the record stored, and that nothing else changes. |
| RemoteUsers.FederationUsers.HandleUserOffline | federation.go:618-635 | The user's key is removed and nothing else. |
| RemoteUsers.OfflineMeans | federation.go:618-635 | The table without the one record. |
| RemoteUsers.FederationUsers.HandleNickChange | federation.go:638-662 | Unless the collision rule makes it lose, the same record object, renamed in place, moves to its new key. |
| RemoteUsers.RenameMeans | federation.go:649-657 | The record under its new name, its other fields, and that nothing else changes. |
| RemoteUsers.FederationUsers.HandleIdentityUpdate | federation.go:1320-1375 | Only the identity and DID of an owned, known user change. |
| RemoteUsers.IdentifyMeans | federation.go:1332-1375 | What each kind of update makes of the identity and the DID. |
| RemoteUsers.FederationUsers.ProcessFullSyncUsers | federation.go:963-1017 | The peer's own users are stored one after the other; others are skipped. |
| RemoteUsers.SyncMeans | federation.go:963-1017 | An owned user has the record it was last listed with, without number and origin. |
| RemoteUsers.SyncKeepsOthers | federation.go:963-1017 | Users of others, and those not listed, are as before. |
| RemoteUsers.FederationUsers.RemoveUsersFromServer | federation.go:1101-1113 | Collecting and deleting in two loops removes exactly the users whose server is the one named. |
| History.HistoryBuffer.Add | chathistory.go:47-53 | The ring then holds the last messages of the old contents and the new one. |
| History.HistoryBuffer.GetAll | chathistory.go:56-71 | The messages come out oldest first. |
| History.ChatHistoryStore.GetChannelHistory | chathistory.go:126-135 | A channel's history is the last messages of the global log for that folded channel. |
| History.ChatHistoryStore.GetDMHistory | chathistory.go:138-147 | With logged nicks that fold to no colon, a pair's history is the last messages between the two, in either direction, whatever nicks are asked for. |
| History.ChatHistoryStore.GetAllDMsForUser | chathistory.go:150-170 | With such nicks, the messages the nick sent or received, sorted by time, but for those followed by as many between the same two as the buffer holds. |
| History.ChatHistoryStore.StoreDMMessage | chathistory.go:112-123 | Storing logs the message under the pair's key and leaves channels alone. |
| History.DmKeyInjective | chathistory.go:88-95 | A key of nicks that fold to no colon is the key of no other unordered pair of any nicks, and belongs to exactly its two. |
| History.PairKeyOrder | chathistory.go:88-95 | The smaller name comes first in a key. |
| History.GatherRetained | chathistory.go:150-163 | Gathering every history of a nick gives exactly its retained messages. |
| History.NoneDropped | chathistory.go:150-163 | None of a nick's messages is missing while no two nicks exchanged more than a buffer holds. |
| Nicks.Registry.HandleNick | main.go:1453-1485 | NICK truncates, refuses what is not a valid nick or is another client's in any case, and otherwise moves the client to its new nick; all connected clients stay listed in the map if and only if the client's old nick is not by then that of another one. |
| Nicks.Registry.MovedListsIff | main.go:1477-1485 | The same of the map alone: moving a client unlists another one exactly when it displaces it. |
| Nicks.Registry.OnlyQuitDisplaces | main.go:1232-1251 | While all are listed, only a client that has quit can displace another. |
| Nicks.Registry.RemoveClient | main.go:1232-1251 | The client's nick leaves the map once, and the client keeps it. |
| Nicks.LateNick | main.go:306-331 | The run in which a NICK behind a QUIT makes two connected clients have one nick, and the nick it asked for stays taken. |
| Nicks.Registry.NicksUnique | main.go:1468-1484 | While the map lists all connected clients, no two of them have nicks of one folding. |
| Nicks.ValidNoColon | main.go:2810-2829 | A valid nick has no colon, in lower case either. |
| Nicks.NickRange | main.go:2810-2829 | Valid nicks are those of 1 to 30 characters from `A` to `}`, after the first also digits and hyphens. |
| Nicks.Registry.VerdictIff | main.go:1453-1475 | NICK is refused if and only if no nick is given, it is not valid once cut at 30, or some other client in the map has it in any case. |
| Nicks.LowerCases | main.go:1468-1484 | Of ASCII only capital letters are lowered, each to its own small one. |
| Messaging.Server.Privmsg | main.go:1750-1885 | What every PRIVMSG and NOTICE is answered, and what it stores: one message per target that is an open channel or a client, all with the next id; while no log of a channel or pair repeats an id, this stays so if and only if no two targets are one channel or one client. |
| Messaging.Server.Deliver | main.go:1785-1885 | One target: stored for the channel, or between the nicks of the two clients, or not at all. |
| Messaging.SendVerdictMeans | main.go:1750-1775 | Which sends are refused, and which silently; at most three commas part the targets. |
| Messaging.CopyMeans | main.go:1814-1824 | Each field of the message stored for a target. |
| Messaging.PlaceMeans | main.go:1785-1834 | A target is stored under an open channel's folded name, or for the client it names, or nowhere. |
| Messaging.StoredMeans | main.go:1785-1824 | One entry for each target with a key, in order. |
| Messaging.SentMeans | main.go:1834-1882 | One direct message for each target that is a client, in order. |
| Messaging.ChannelShape | main.go:2831-2844 | Channel names are a `#` and from 1 to 49 characters other than space, comma and bell. |
| Messaging.ChannelNotNick | main.go:2810-2844 | No channel name is a nick. |
| Messaging.Server.StoreForClient | main.go:1870-1882 | A direct message is logged between the nicks of its two clients; every logged nick is valid. |
| Messaging.Server.NextID | ircv3.go:98-101 | The next id is in no log. |
| Messaging.NumberOfID | ircv3.go:98-101 | The number comes back from an id, so ids of different numbers differ. |
| Messaging.IDExample | ircv3.go:98-101 | The id of message 7 of a server. |
| Messaging.UniqueIff | IRCV3.md:120-128 | All histories of a log have distinct ids if and only if no two entries of one key have one id. |
| Messaging.SendUniqueIff | main.go:1778-1885 | A send under a new id keeps it so if and only if no two of its targets are stored under one key. |
| Messaging.AfterSend | main.go:1778-1885 | Keys of the two tables repeat if and only if two targets are one channel or one client. |
| Messaging.AllUniqueIff | chathistory.go:150-170 | After a send the ids of all of a nick's messages are distinct if and only if at most one copy concerns the nick. |
| Messaging.SendTwice | main.go:1778-1785 | `PRIVMSG bob,bob` in any spelling, whatever was said before: the history with bob has one id twice. |
| Messaging.SendToBoth | main.go:1778-1785 | `PRIVMSG bob,carol`: the sender's history of all has one id twice. |
| Messaging.BobToBob | main.go:1778-1785 | From a new server: a client that sends one message to itself twice cannot page through its history for every limit. |
| Messaging.Server.ChannelHistory | chathistory.go:408-429 | A channel's history is the last messages logged for it, with distinct ids while no log repeats one. |
| Messaging.Server.HistoryWith | chathistory.go:408-429 | A client's history with any text it gives for a nick is the last messages between the two folded nicks, with distinct ids while no log repeats one. |
| Messaging.Server.HistoryOfAll | chathistory.go:408-429 | The history of all is the messages the client's nick sent or received, retained and sorted by time, with distinct ids while those of all its messages are. |
| Paging.FindByReference | chathistory.go:432-459 | The first message with the id, the first at or after the time, the end for a later time, or nothing. |
| Paging.IdNames | chathistory.go:432-443 | An id names the first message that has it. |
| Paging.TimeNames | chathistory.go:444-459 | A time names the first message at or after it, or the end. |
| Paging.BeforeMeans | chathistory.go:257-285 | BEFORE is the messages right before the one named, as many as there are and fit. |
| Paging.AfterMeans | chathistory.go:288-321 | AFTER is those right after it. |
| Paging.LatestMeans | chathistory.go:214-254 | LATEST is the last messages, or with a reference what BEFORE gives. |
| Paging.UnknownReference | chathistory.go:214-405 | A reference that names nothing gives an empty page. |
| Paging.PagingTilesIff | chathistory.go:214-285 | LATEST `*` and then BEFORE on the first message of each page ends for every log; the pages in reverse order are exactly the log, for every limit, if and only if no two messages have one id. |
| Paging.BeforeSkips | chathistory.go:257-285 | With one message a page and two copies at the end, only the later copy and what precedes both is shown. |
| Paging.LimitIs | chathistory.go:507-516 | The limit is the number asked for when it is one from 1 to 500, else 500. |
| Paging.PagesForwardIff | chathistory.go:288-321 | Repeated AFTER on the last message of each page ends with exactly the rest of the log, from every message and for every limit, if and only if no two messages have one id. |
| Paging.AfterRepeats | chathistory.go:288-321 | From the first of two copies in a row, pages of one message are the second copy without end. |
| Paging.AfterID | chathistory.go:288-321 | AFTER an id is the page behind the first message with it, or nothing. |
| Paging.AroundSplits | chathistory.go:324-360 | AROUND any reference to a message is half a page BEFORE it, the message, and the other half AFTER it. |
| Paging.Around | chathistory.go:324-360 | The page has at most one message more than the limit and contains the referenced message. |
| Paging.BetweenRefs | chathistory.go:363-405 | BETWEEN any two references, in either order, is what comes AFTER the first and before the second. |
| Paging.BetweenTimestamps | chathistory.go:363-405 | For two timestamps, in either order and for every limit, it is the range from the earlier to before the later without its first message, as much as fits. |
| Paging.BetweenExclusiveIff | chathistory.go:363-405 | With the bounds in either order it excludes just the messages at them if and only if exactly one message is at the earlier bound or none is in the range. |
| Paging.BetweenMisses | chathistory.go:363-405 | Two logs of two messages for which it does not. |
| Lines.SendParsesIff | main.go:150-181 | A sent line parses to the same prefix, command and parameters if and only if the prefix has no space, middle parameters are words without a leading colon, and the last is a word, or is marked and does not end in a line end. |
| Lines.BareParsesIff | main.go:150-181 | A command and parameters without a prefix, as clients send them, parse to the upper-cased command and the parameters if and only if the command has no leading colon and the parameters are sendable. |
| Lines.BareReturnsIff | main.go:150-181 | With the command left as it is, for every command and all parameters: if and only if also the command is a word. |
| Lines.SpacedParsed | main.go:173-181 | Words come back whatever white space and line ends are around them. |
| Lines.TrailingParsed | main.go:167-171 | A trailing parameter is all that follows the first space and colon, but for line ends. |
| Lines.LineEnds | main.go:151-151 | Line ends, and no other characters, are cut off the end of a line. |
| Lines.WhiteSpace | main.go:170-173 | The 25 characters at which words are split. |
| Lines.SentText | main.go:294-302 | The text sent, character by character: the last parameter has a colon before it exactly when it is empty, starts with a colon or has a space. |
| Lines.SendableMeans | main.go:150-181 | Which parameters come back, written out in characters. |
| Lines.Send | main.go:292-304 | The line written, and the caller's slice with its last parameter marked. |
| Lines.ResendIff | main.go:292-304 | Sending a slice again would write the same line if and only if its last parameter needed no mark; no call passes a slice. |
| TagEscape.EscapedIsSafe | ircv3.go:194-201 | An escaped value has no semicolon, space or line end. |
| TagEscape.EscapeTable | ircv3.go:194-201 | The five escapes; every other character stands for itself. |
| TagEscape.EscapeAppend | ircv3.go:194-201 | Escaping goes character by character. |
| TagEscape.UnescapeEscape | ircv3.go:184-201 | What the five passes make of every escaped value. |
| TagEscape.RoundTripIff | ircv3.go:184-201 | A value comes back if and only if no backslash in it precedes an escape letter. |
| TagEscape.BackslashN | ircv3.go:184-201 | A backslash and an `n` come back as a backslash and a line feed. |
| TaggedLines.FormatTags | ircv3.go:204-218 | The text of the tags in some order of the map's keys. |
| TaggedLines.ParseMessageWithTags | ircv3.go:144-181 | Tags are split at semicolons and first equals signs, a later one replacing an earlier, and the rest is parsed as a line. |
| TaggedLines.TaggedRoundTripIff | ircv3.go:144-218 | Formatted tags followed by a sent line come back, for every order of the tags, if and only if keys are clean, values unambiguous and the line comes back. |
| TaggedLines.TaggedBareIff | ircv3.go:144-218 | The same of tags before a command without a prefix, as a client sends them. |
| TaggedLines.TagMeans | ircv3.go:163-170 | A tag is split at its first equals sign; without one its value is empty. |
| TaggedLines.LastTagCounts | ircv3.go:162-171 | Of several tags with one key the last counts. |
| FloodControl.Client.Admit | main.go:313-324 | Whether a message is accepted, and the bucket afterwards. |
| FloodControl.TokensInRange | main.go:313-324 | In every run the tokens stay between 0 and 10. |
| FloodControl.RateBound | main.go:313-324 | The messages accepted from one arrival to another number at most 10 plus 5 per second between them. |
| FloodControl.SpacedAccepted | main.go:313-324 | A message at least a fifth of a second after the one before it is accepted. |
| FloodControl.AllAcceptedIff | main.go:313-324 | Every message of a run is accepted if and only if no window of it has more than 10 and 5 for each second: ten at once are, eleven are not. |

## Left out

- TLS, sockets, HTTP fetching, discovery, key generation, flags, reconnection and its backoff, caches on disk.
- Ed25519, base64 and SHA-256: a signer and a checker are parameters.
- Commands that only format replies (WHOIS, LUSERS), and the lists that MONITOR, WATCH and METADATA keep, which no operation modelled here reads.
- Of PRIVMSG and NOTICE only what is stored: delivery, echoes, away replies, replies about single targets, and targets on other servers, for which nothing is stored. Which channels are open is a parameter.
- Interleavings of goroutines: every handler is one atomic step.
- 64-bit wrap-around: clocks, sequence numbers, numbers of messages and indexes are unbounded; `Causality.ClocksBounded` says how many events it takes to reach a number.
- Multi-hop delivery and quiescence of the whole network: verification uses the direct peer's key, and a Hello is always answered with a Hello. What a handler sends is a creation step of its own.
- Uniqueness of nicks among remote users: a newcomer with the lower number and origin is added without removing the holder, and which holder decides depends on the order of the map.
- The members a channel keeps under a remote user's old name after a nick change.
- The bound on the index by origin of the event store: it is never pruned, and the model keeps it so.
- Reading the system clock twice in one operation: one reading is used where the order of two does not matter, and a MODE command takes one reading for all the bans it sets.
- Channel members are identified by nick.
- A nick is cut at 30 characters, not bytes: one cut inside a character is refused either way.
- JSON text is not parsed: marshalling and parsing again is the map on values that turns integers into float64s. Negative zero, text that is not valid UTF-8 and numbers outside the range of float64 are not modelled.
- sort.Strings and sort.Slice are stood in for by insertion sorts; the order of messages of equal time is not part of any contract.
- The single functions for loops split out of longer methods (`WriteDigits`, `DropAged`, `Attach` and others) are helpers of the methods above.
- Merge.MergeConverges: says nothing of who set a ban and when, because the entry of the last event with that folded mask stays, so these do not converge.
- FloodControl.RateBound: uses real-valued tokens and times, not float64 and nanoseconds.

# pyDHT: a verified model

pyDHT is a crawler for the BitTorrent Mainline DHT. It keeps a Kademlia routing table, speaks KRPC with bencoded
messages, looks up peers for every infohash it sees, downloads the torrent metadata from them and stores the result.
This project models its stateful core in Dafny and proves what the program relies on.

| files | what they model |
|---|---|
| `XorMetric`, `Tiling` | the distance metric, and how ranges cut at integer midpoints relate to it |
| `NearestFirst` | sorting by distance and keeping a prefix, for the routing table and the lookup |
| `RoutingModel`, `RoutingProperties`, `Nearest`, `Snapshots` | the routing table as a value: its operations, its invariant over every run, `closest`, snapshot and restore |
| `RoutingHistory`, `RoutingEffects` | what every entry says, read off the operations of a run; queues and stamps of buckets |
| `RoutingTable` | the same table as objects updated in place (`Contact`, `Bucket`, `RoutingTable`), proved against the value model |
| `Bytes`, `Decimal`, `Bencode`, `BencodeProofs`, `BencodeCanonical`, `BencodeForm` | the bencode printer and parser and their theorems; key order, numerals and markers byte by byte |
| `BencodeCodec` | the decoder object with its shared item counter and loops |
| `BencodeEncoder` | the encoder over everything a Python caller may pass, with its sorted dictionary loop |
| `Metadata`, `MetadataProofs`, `MetadataDownload` | the pipelined metadata download, against a peer that may send any bytes |
| `MetadataMessages` | what each message of the peer means, and the extension number of every request of a session |
| `MetadataHonest` | the same download, from a peer that answers in any order and says other things in between |
| `Candidates`, `CandidateSafety`, `CandidateAttempts`, `CandidateProgress`, `CandidateTiming`, `CandidateHistory`, `RecentKeys` | the life of a discovered infohash: queue, reservations, durable rows, workers, restarts; how often it is fetched; whether work on it can get lost; when it is fetched again; what rows and reservations say, read off the steps; the cache of recent keys |
| `CandidateManagers`, `Crawler` | the candidate manager and table as objects, and the process that takes every step of that life on them |
| `Tokens` | rotating announce tokens |
| `Endpoints`, `Lru`, `PeerStore` | bounded expiring caches against the log of what was put into them; the store of announced peers |
| `RateLimiter` | the prioritised token bucket |
| `Lookup` | the iterative lookup, against arbitrary responders |
| `Packing` | replies that fit into one datagram |
| `LogRotation` | the rotating event log |

Code that computes a value is a function; code that changes things step by step is a class or a method with loops,
proved against such a function. Node identifiers are numbers below 2^160 (`Bytes.FromBytes` of 20 bytes, which is
injective). Clock readings are parameters, and every theorem that needs it requires that they do not decrease. Preconditions
on the configuration are the bounds that `validate_config` checks (includes/debug.py:40-110), except where a row below
says otherwise.

## Model

| member | source | states |
|---|---|---|
| XorMetric.XorInjective | includes/dht.py:52-55 | The distance to a fixed target is injective: two identifiers at one distance from it are the same |
| XorMetric.XorBelow | includes/dht.py:52-55 | Two identifiers are closer than 2^k exactly when they agree above their k lowest bits |
| XorMetric.XorBit | includes/dht.py:52-55 | Every binary digit of the distance says whether the two identifiers differ there |
| XorMetric.XorBall | includes/dht.py:155-157 | An aligned range of 2^k identifiers is the ball of radius 2^k around each of its members |
| Bytes.FromBytesInjective | includes/dht.py:155-157 | Reading identifiers of one length as big-endian numbers loses nothing |
| Bytes.ByteAt | includes/dht.py:155-157 | The byte k places from the end of an identifier counts 256^k: the number is big-endian |
| Bytes.FromToBytes | includes/dht.py:302-314 | Writing an identifier out as 20 bytes and reading it back gives the same number |
| Tilings.TilingSplit | includes/dht.py:191-202 | Cutting the range of the local identifier at its integer midpoint takes the tiling at depth i to the one at depth i - 1, so the buckets are determined by the local identifier and their number |
| Tilings.SiblingIsShell | includes/dht.py:191-193 | The half that does not hold the local identifier is exactly a shell of distances 2^j to 2^(j+1) |
| Tilings.TilingShells | includes/dht.py:155-202 | Every range of a tiling is the ball of the local identifier or a shell, with its exponent |
| Tilings.FinerInsideCoarser | includes/dht.py:191-202 | Every range of a finer tiling lies inside one range of a coarser one |
| RoutingModel.SplitWidth | includes/dht.py:243-245 | A bucket that the loop splits is at least 16 wide: K contacts, the local and the new identifier have to fit (pigeonhole) |
| RoutingModel.InvSplit | includes/dht.py:191-202 | A split keeps the routing invariant, and the bucket it cuts has no replacements, so none is ever dropped |
| RoutingModel.SplitWhileFull | includes/dht.py:243-245 | The split loop terminates, keeps the invariant, and ends with a bucket that has room or does not hold the local identifier |
| RoutingModel.InvObserve | includes/dht.py:210-264 | `observe` keeps the invariant, from every table that satisfies it and for every sighting |
| RoutingModel.InvMarkFailure | includes/dht.py:266-282 | `mark_failure` keeps the invariant, including the promotion of a replacement |
| RoutingModel.BucketCovers | includes/dht.py:168-173 | Exactly one bucket covers an identifier, so the coverage assertion cannot fail |
| RoutingProperties.Run | includes/dht.py:160-282 | Every sequence of sightings, failures and restampings, from the empty table, is defined throughout and ends in a table that satisfies the inductive invariant |
| RoutingProperties.EveryRunKeepsTheInvariant | includes/dht.py:160-282 | After every run of `observe`, `mark_failure` and bucket restamping: the buckets partition the identifier space in order, every entry lies in its bucket, lists hold at most K, the local identifier is never stored, all identifiers are distinct across contacts and replacements, and a bucket with replacements is full, without the local identifier and without a BAD contact |
| RoutingProperties.InvDistinct | includes/dht.py:210-264 | No identifier occurs twice anywhere in a table, in contacts or replacements, although the code never compares the two lists |
| RoutingProperties.BucketsAreShells | includes/dht.py:155-202 | The local bucket is exactly the ball 2^i; every other bucket is exactly the shell 2^j with j >= i, and no two of them share an exponent |
| RoutingProperties.BucketBound | includes/dht.py:191-202 | With 160-bit identifiers there are never more than 158 buckets, and no bucket of a split table is narrower than 8 |
| RoutingProperties.RoundsAddBuckets | includes/dht.py:243-245 | The split loop adds exactly one bucket in every round |
| RoutingProperties.SplitsOfARun | includes/dht.py:191-245 | The splits of a whole run, counted over all its operations, are exactly the buckets less one: with 160-bit identifiers at most 157 |
| RoutingProperties.ObserveConserves | includes/dht.py:210-264 | A sighting adds at most the sighted identifier and loses at most one contact, which was BAD |
| RoutingProperties.ObserveRemembers | includes/dht.py:210-264 | The sighted identifier ends up in the contacts or replacements of its bucket, unless it is new and read-only, when the table does not change |
| RoutingProperties.MarkFailureEffect | includes/dht.py:266-282 | A failure changes one contact only; it leaves exactly when it has turned BAD and a replacement exists, and then the most recent replacement takes its place |
| RoutingProperties.GoodMeansAnswered | includes/dht.py:135-232 | Over every run, an entry is GOOD only if a direct answer from exactly its stored endpoint was seen at its recorded time: hearsay never makes a contact GOOD |
| RoutingHistory.EveryEntryTells | includes/dht.py:210-282 | After every run, each contact and replacement says exactly what was said about its identifier since it was stored: `failures` are those since the last direct answer, response and query times are those of the last direct and the last incoming sighting, the endpoint is that of the last direct answer or else of the first sighting, read-only is the last word, the version the last one that is not empty |
| RoutingHistory.StateExactly | includes/dht.py:135-143 | GOOD if and only if there was a direct answer, fewer failures than allowed came after it, and it or the last incoming query is recent; BAD if and only if there were that many failures |
| RoutingHistory.ClosestOverARun | includes/dht.py:284-289 | In the same terms: `closest` returns the nearest of the contacts whose last sighting was not read-only and, if asked for, that are GOOD |
| RoutingHistory.ReplacementHearsNothing | includes/dht.py:259-264 | A sighting of a waiting replacement changes nothing in the table |
| RoutingHistory.PromotedUnproven | includes/dht.py:259-280 | So the direct answers of a waiting replacement are lost: if it had not answered before, it is not GOOD however often it answers while it waits |
| RoutingEffects.NewcomerComesLast | includes/dht.py:246-264 | A new identifier goes to the end of the contacts of its bucket, which stamps it, or to the end of its queue, and a full queue then loses its oldest entry and no other |
| RoutingEffects.StampsTell | includes/dht.py:191-282 | A bucket that was there before an operation with the same range and members keeps its stamp; every other bucket carries the time of the operation |
| RoutingEffects.ObserveReturns | includes/dht.py:210-264 | What `observe` returns is the contact the table now has for the identifier or, if it has none, one that says what this sighting says; nothing for the local identifier |
| Nearest.ClosestIsNearest | includes/dht.py:284-289 | `closest` returns eligible contacts in strictly ascending distance, nothing nearer is left out, and it is short only when nothing is left |
| Nearest.ClosestIsTheOnlyNearest | includes/dht.py:284-289 | A list is the nearest list if and only if it is the one `closest` returns |
| Nearest.ClosestByXor | includes/dht.py:284-289 | `closest` in terms of the metric and the states: strictly ascending, not read-only, GOOD if asked for, and whoever is left out is farther than all that are returned, of which there are then as many as the limit |
| Snapshots.RestoreLosesNothing | includes/dht.py:294-318 | For every table that satisfies the invariant, a fresh table fed its snapshot in any order holds exactly the same identifiers at the same endpoints, all QUESTIONABLE, without replacements, and every original bucket lies inside one restored bucket; the restored buckets are the coarsest possible |
| Snapshots.RestoreOrderIrrelevant | includes/dht.py:294-318 | The restored buckets depend on neither the order of the records nor the buckets before |
| Snapshots.CoarsestIsUnique | includes/dht.py:243-245 | Two coarsest tables with the same identifiers have the same buckets |
| Snapshots.SnapshotReads | includes/dht.py:294-306 | A snapshot is a header and one record for each contact, with its identifier, endpoint and state |
| Snapshots.RestoresExactly | includes/dht.py:308-318 | A record that is no contact record, lacks a field or has an identifier of another length restores nothing; any other is observed as an indirect sighting, whatever state it saved |
| RoutingTables.RoutingTable.constructor | includes/dht.py:160-166 | A new table is one bucket over the whole space |
| RoutingTables.RoutingTable.BucketFor | includes/dht.py:168-173 | The search finds the bucket that covers the identifier; it never falls off the end |
| RoutingTables.RemoveEqual | includes/dht.py:252-280 | Removing by equality of all fields removes the intended object wherever identifiers are distinct |
| RoutingTables.RoutingTable.IndexOfEqual | includes/dht.py:200 | Searching the bucket list by equality of all fields finds the intended bucket |
| RoutingTables.RoutingTable.ValidContactUnshared | includes/dht.py:160-282 | No contact object sits in two list positions of a table, so an update in place reaches one entry |
| RoutingTables.RoutingTable.Split | includes/dht.py:191-202 | The in-place split, with its two distribution loops, gives the table of the value model |
| RoutingTables.RoutingTable.SplitWhileFull | includes/dht.py:243-245 | The loop over objects computes the split loop of the value model and ends at the right bucket |
| RoutingTables.RoutingTable.Observe | includes/dht.py:210-264 | `observe` on objects gives the table and the returned contact of the value model, and keeps the invariant |
| RoutingTables.RoutingTable.MarkFailure | includes/dht.py:266-282 | `mark_failure` on objects gives the table of the value model, and keeps the invariant |
| RoutingTables.RoutingTable.Closest | includes/dht.py:284-289 | Returns contact objects whose values are the one nearest list of the table |
| RoutingTables.RoutingTable.SnapshotRecords | includes/dht.py:294-306 | Writes the header and one record for each contact |
| RoutingTables.RoutingTable.RestoreContacts | includes/dht.py:308-318 | Feeding the records one by one gives the restored table of the value model |
| Decimal.NatStrVal | includes/bencode.py:91-107 | A decimal numeral without superfluous zeros is the one that printing its value gives |
| Bencode.Parse | includes/bencode.py:31-70 | Parsing terminates: every position it returns lies strictly behind the start and inside the data |
| BencodeProofs.SortedKeysUnique | includes/bencode.py:169-178 | A set of keys has only one strictly ascending list |
| BencodeForm.LessIsBytewise | includes/bencode.py:63-64 | A key comes before another if and only if it is a proper prefix of it or has the smaller byte where they first differ |
| BencodeForm.DictForm | includes/bencode.py:169-189 | Every dictionary is written between `d` and `e` with all its keys, each before the next in that order |
| BencodeForm.EntryForm | includes/bencode.py:179-187 | An entry is the length of the key in decimal, a colon, the key and the encoding of its value |
| BencodeForm.IntForm | includes/bencode.py:159-160 | An integer is written between `i` and `e`, with a minus sign only if it is negative |
| BencodeForm.StrForm | includes/bencode.py:161-162 | A byte string is its length in decimal, a colon and its bytes |
| BencodeForm.ListForm | includes/bencode.py:167-168 | A list is its items one after the other between `l` and `e` |
| BencodeForm.DigitAt | includes/bencode.py:159-162 | The character k places from the right of a numeral is the decimal digit that counts 10^k |
| BencodeForm.DigitCount | includes/bencode.py:159-162 | A numeral has exactly the digits its number needs |
| BencodeProofs.ParseEncoded | includes/bencode.py:31-107 | At any position, depth and item count, parsing an encoding gives its value, end and item count if it is within the limits, and an error if it is not |
| BencodeCanonical.CanonicalValue | includes/bencode.py:31-107 | What strict parsing accepts at a position is exactly the encoding of the value it returns |
| BencodeCanonical.CountedValue | includes/bencode.py:26-70 | Whatever is parsed, in either mode, is within the limits, and the counter counts exactly nodes plus keys |
| BencodeCanonical.TolerantAgrees | includes/bencode.py:63-65 | Wherever strict parsing succeeds, tolerant parsing gives the same result |
| BencodeCanonical.TolerantAnyOrder | includes/bencode.py:63-64 | Tolerant `decode` takes the entries of a dictionary in whatever order they are written, and gives that dictionary if and only if it is within the limits |
| BencodeCanonical.DecodePrefixOfEncoding | includes/bencode.py:110-131 | For every value and every suffix, `decode_prefix` of the encoding returns the value and its exact length if and only if depth, item count and longest string are within the limits |
| BencodeCanonical.RoundTrip | includes/bencode.py:134-190 | `decode(encode(v))` returns v if and only if v is within the three limits |
| BencodeCanonical.StrictIsCanonical | includes/bencode.py:134-152 | Strict `decode` of some bytes returns v if and only if they are the encoding of v and v is within the limits |
| BencodeCanonical.StrictIsInjective | includes/bencode.py:134-152 | Two byte strings that strictly decode to one value are the same |
| BencodeCanonical.TolerantRefinesStrict | includes/bencode.py:120-126 | Tolerant `decode` agrees with strict where that succeeds; re-encoding what it accepts strictly decodes to the same value under the same limits |
| BencodeCodec.Decoder.ParseValue | includes/bencode.py:31-70 | The recursive method with its loops and its shared counter gives the value, position, counter and error of the parser function |
| BencodeCodec.Decoder.ParseInteger | includes/bencode.py:72-89 | The checks on an integer, in their order |
| BencodeCodec.Decoder.ParseBytes | includes/bencode.py:91-107 | The checks on a byte string, in their order |
| BencodeCodec.DecodeAll | includes/bencode.py:134-152 | `decode` as a whole, including trailing data |
| BencodeEncoder.SortKeys | includes/bencode.py:170-178 | Collecting and sorting the keys gives every key once, in the order of their bytes, or finds a key that is neither a string nor bytes |
| BencodeEncoder.EncodeDict | includes/bencode.py:169-189 | The sorted loop writes the canonical encoding, and its check for equal neighbours refuses exactly the dictionaries in which a string key and a bytes key are written alike |
| BencodeEncoder.EncodeItems | includes/bencode.py:167-168 | Lists and tuples are written alike, item by item |
| BencodeEncoder.EncodeValue | includes/bencode.py:155-190 | For any bool, int, bytes, bytearray, string, list, tuple or dictionary, nested in any way: encoding succeeds if and only if no type is unsupported and no two keys of a dictionary are written alike, and then gives the canonical encoding of the value it stands for; each error is raised only for its own reason |
| BencodeEncoder.LiftIsPlain | includes/bencode.py:155-190 | What decoding returns can always be encoded, and stands for itself |
| Metadata.ParseMessage | includes/peer.py:201-232 | An accepted message has a type 0 to 2, a piece in range and, for data, exactly the bytes of that piece; everything else is an error |
| MetadataProofs.FramingIsExact | includes/peer.py:201-232 | A header within the limits followed by any payload is read back as that header and exactly that payload |
| MetadataProofs.RequestReadsBack | includes/peer.py:187-192 | Under limits that admit a dictionary of two integers, the payload of a request parses as a request for that piece |
| MetadataProofs.NumberRange | includes/peer.py:147-152 | An advertised extension number is at most 255 |
| MetadataMessages.HandshakeExactly | includes/peer.py:123-180 | A handshake is accepted if and only if it is a dictionary whose `metadata_size`, if present, is from 1 to the maximum; it advertises n if and only if its `m` is a dictionary whose `ut_metadata` is the integer n in 0..255 |
| MetadataMessages.HandshakeReadsBack | includes/peer.py:123-180 | The same of every dictionary within the limits that the peer may write |
| MetadataMessages.MessageExactly | includes/peer.py:201-232 | A message is accepted as (type, piece, data) if and only if its header says so with a type 0 to 2 and a piece in range, data states the true total and has exactly the bytes of that piece, and nothing follows a request or reject |
| MetadataMessages.RequestIsRefused | includes/peer.py:503-507 | A request of the peer is answered with a reject and changes nothing else |
| MetadataMessages.RejectEnds | includes/peer.py:508-511 | A reject ends the session if and only if the piece is under way |
| MetadataMessages.DataSettles | includes/peer.py:512-520 | Data for a piece under way is kept and its request settled, and the next pieces are requested in order; unsolicited data and data that differs from what is here end the session; equal data changes nothing |
| MetadataMessages.StartsExactly | includes/peer.py:451-454 | A session starts if and only if the size is from 1 to the maximum |
| MetadataMessages.LimitExactly | includes/peer.py:452 | The pipeline is the peer's wish up to the configured one, all of it without a wish, and at least one request |
| MetadataMessages.InForceIsLast | includes/peer.py:486-495 | The number in force after some messages is the one that the last of them to advertise one advertised |
| MetadataMessages.RequestsCarryTheNumber | includes/peer.py:448-525 | Over a whole session with any peer: the first requests carry the number of the first handshake, the requests that a message brings about carry the number in force after it, nothing sent is lost, the session ends with the message it refuses, and a handshake that advertises 0 is always refused |
| MetadataProofs.FillUnderway | includes/peer.py:459-466 | Filling the pipeline keeps the session invariant and stops only when it is full or every piece was requested |
| MetadataProofs.StepUnderway | includes/peer.py:470-520 | Every message of the peer either fails the session or keeps its invariant: requested pieces are here or under way and never both, at most the pipeline limit is under way, requests ascend without repetition and carry an extension number in 1..255, also across changes of that number |
| MetadataProofs.WaitingIsOwed | includes/peer.py:469-471 | An incomplete session that waits has a request under way |
| MetadataProofs.DataMakesProgress | includes/peer.py:517-519 | Data for a piece under way is always accepted and completes one more piece |
| MetadataProofs.DownloadSound | includes/peer.py:448-525 | For every byte stream: the length check at the end never fails; a returned value has the announced size, its pieces were requested exactly once in ascending order, and it agrees with every accepted data message |
| MetadataProofs.HonestDownload | includes/peer.py:448-525 | If the accepted data messages carry true slices of M, the result is M, whatever the order, the repetitions and the messages in between |
| MetadataHonest.AnsweredDownload | includes/peer.py:448-525 | From a peer that answers as many requests as there are pieces with true slices of m, each while the request is under way, in any order, the download ends and returns m; in between the peer may repeat data of pieces already here, request pieces itself, reject pieces not under way, shake hands again with any extension number in 1..255 or none, keep alive, and send messages the session ignores |
| MetadataHonest.AnyNextAnswer | includes/peer.py:459-520 | Such a peer is never without a request to answer before the end, and may answer any of those under way next |
| MetadataHonest.DeliverableWithin | includes/peer.py:470-475 | The configured message size leaves room for the message of every piece, for sizes of up to 400 digits and limits that admit its three-entry header |
| MetadataHonest.NoteWithin | includes/peer.py:470-475 | It leaves room for every request and reject of the peer, under the same bound on the digits |
| MetadataHonest.StepItem | includes/peer.py:475-520 | Each of these messages moves the session exactly as it should: an answer is accepted and the pipeline filled, a repetition is only logged, a request is refused, a handshake sets the extension number, everything else changes nothing |
| MetadataProofs.ArrivalOrderIrrelevant | includes/peer.py:448-525 | Two sessions with different peers that accept data of the same M return the same bytes |
| MetadataDownload.Downloader.FillPipeline | includes/peer.py:459-466 | The loop over the mutable session computes the filling function |
| MetadataDownload.Downloader.Receive | includes/peer.py:475-520 | One message updates the mutable session as the step function says; a failure leaves it unchanged |
| MetadataDownload.Downloader.Fetch | includes/peer.py:468-525 | The reading loop over everything the peer sends computes the run function |
| MetadataDownload.DownloadMetadata | includes/peer.py:448-525 | The whole download: a returned value has the announced size and its pieces were requested once each in order; the length mismatch is unreachable |
| CandidateSafety.InitSafe | main.py:290-308 | On an empty database, an empty queue and idle workers satisfy the safety invariant |
| CandidateSafety.StartSafe | includes/storage.py:109-127 | So does a process that starts on the database of an earlier one, whose interrupted fetches it recovers |
| CandidateSafety.ApplySafe | main.py:36-175 | Every step of every worker, submission, exception and restart keeps the safety invariant |
| CandidateSafety.EveryRunIsSafe | main.py:36-175 | Over every interleaving: no key is queued twice, queued while held, or held by two workers; the reserved keys are exactly the queued, held and abandoned ones; a row says `fetching` only while its key is held or abandoned; attempts never exceed the configured maximum plus the number of restarts |
| CandidateSafety.SettledIsForever | main.py:62-69 | A complete or exhausted row keeps its state, attempts and schedule forever, whatever is submitted and however often the process restarts |
| CandidateSafety.FetchUsesAttempt | includes/storage.py:301-311 | A fetch starts only on a reserved key whose row has attempts left, always changes the row, and uses up one attempt |
| CandidateSafety.AbandonedUntilRestart | main.py:47-48 | A key whose worker left through an exception stays reserved until the next restart and is not enqueued again before |
| CandidateSafety.ReservationExact | includes/dht.py:435-468 | The reservations are exactly the queued and held keys if and only if no worker has left through an exception since the start |
| CandidateAttempts.MaximumHolds | main.py:150-159 | Attempts never exceed the configured maximum itself in any run in which no restart comes in the middle of the last permitted fetch of a row, however many restarts there are |
| CandidateAttempts.MaximumBroken | includes/storage.py:117-126 | For every maximum, a restart that does come at such a moment makes the row due at once, and the retry exceeds the maximum |
| CandidateAttempts.MaximumExactly | includes/storage.py:117-126 | While rows are within the maximum, restarting now keeps it in every continuation without a further such restart if and only if no row is in the middle of its last permitted fetch |
| CandidateAttempts.RestartGrantsAttempt | includes/storage.py:117-126 | Whatever the maximum, n restarts can bring a row to n + 1 attempts |
| CandidateAttempts.RunKeepsKeys | includes/dht.py:435-437 | Every key that is ever queued, held or stored is a 20-byte infohash |
| CandidateProgress.LostIsNew | includes/storage.py:330-339 | In every safe state a row is lost (unsettled, neither held nor abandoned, and never selected by the retry scan) if and only if it is new and neither held nor abandoned |
| CandidateProgress.LosesExactly | main.py:53-160 | From a safe state without lost rows, a step loses a row if and only if it is a restart that finds a new row |
| CandidateProgress.EveryRunLosesNothing | main.py:53-160 | Over every run whose restarts find no new row, each stored row is settled, in hand, or scheduled for the retry scan |
| CandidateProgress.RestartLosesNewRow | includes/storage.py:117-126 | For every key, a restart between its first upsert and its fetch leaves a new row that nobody has and that the retry scan selects at no later time |
| CandidateProgress.SightingRecovers | includes/dht.py:435-458 | Where nothing is reserved or remembered as recent and a worker is idle, a lost row is fetched after the next sighting of its key |
| CandidateTiming.FailureSchedules | main.py:149-159 | A failure at t after a attempts writes no next attempt if a has reached the maximum, and else exactly t + min(maximum delay, base * 2^min(a - 1, 30)) seconds; attempts and sightings stay, the error is kept up to its configured length |
| CandidateTiming.RetryWaits | main.py:61-72 | Whatever happens after it, restarts included, the row is not fetched and not changed in state, attempts and schedule as long as every worker reads the clock before that time, and the retry scan does not select it before; with the attempts used up it is never fetched |
| CandidateTiming.DecidesExactly | main.py:61-69 | A worker goes on with a row if and only if it is new, or has failed and is due by the reading it took; otherwise it releases the key |
| CandidateTiming.DueIsFetched | main.py:163-170 | Where nothing is reserved and a worker is idle, what the retry scan selects is fetched and its attempts grow by one |
| CandidateHistory.EveryRowTells | includes/storage.py:274-388 | Over every run, a key has a row if and only if something was written to it, and then every field is what the steps say: first and latest sighting, number of fetches, time of the last attempt, and state, error, schedule and torrent as the last outcome left them |
| CandidateHistory.EveryReservationGathers | includes/dht.py:435-458 | Over every run, every reservation has the sources of all submissions since the key was reserved, the times of the first and the last one, and the hints offered first, in their order, up to the configured number |
| CandidateHistory.AcceptsExactly | includes/dht.py:435-458 | A submission of a 20-byte key is accepted if and only if the key is reserved, or there is room in the queue and it is a retry or not recent; only a newly accepted key is enqueued, at the end |
| CandidateHistory.FirstComeFirstServed | main.py:36-42 | Without a restart, workers take keys exactly in the order in which they were accepted |
| CandidateHistory.SeesExactly | includes/storage.py:274-292 | A sighting moves the last sighting of the torrent that the row names forward, never backwards, and no other |
| CandidateSafety.HintsStayBounded | includes/dht.py:435-454 | Over every run, the peer hints of every reservation are distinct and at most as many as configured |
| CandidateSafety.Backoff | main.py:21-23 | The retry delay starts at the base, never shrinks, never exceeds the maximum and, up to 31 attempts and below the maximum, exactly doubles |
| CandidateManagers.CandidateManager.Submit | includes/dht.py:435-458 | The method, which reserves first and rolls back on a full queue, gives the state and answer of the submission function |
| CandidateManagers.CandidateManager.Finish | includes/dht.py:463-468 | Unreserves the key and records it as recent |
| CandidateManagers.CandidateManager.PruneRecent | includes/dht.py:427-433 | The popping loop computes the pruning function |
| CandidateManagers.CandidateTable.Recover | includes/storage.py:117-126 | Row after row, the recovery turns every interrupted fetch into a due failure and changes nothing else |
| CandidateManagers.CandidateTable.UpsertSeen | includes/storage.py:274-292 | Inserts a new row or moves the last sighting forward, and with it that of the torrent the row names; never backwards |
| CandidateManagers.CandidateTable.MarkFetching | includes/storage.py:301-311 | Counts an attempt on any row that is neither complete nor unsupported, and says whether it did |
| CandidateManagers.CandidateTable.MarkFetchFailed | includes/storage.py:313-322 | Records the failure, its text cut to the configured length, and the next attempt on any row that is not complete |
| CandidateManagers.CandidateTable.Persist | includes/storage.py:341-388 | Completes the candidate row and stores the torrent with its last sighting, in one step |
| Crawlers.Crawler.constructor | main.py:290-308 | A first start, without a database: an empty queue and idle workers, in a safe state |
| Crawlers.Crawler.Reopen | includes/storage.py:109-127 | A start on the database that an earlier process left behind: an empty queue, idle workers, interrupted fetches recovered and nothing else changed, in a safe state in which complete rows name stored torrents |
| Crawlers.Crawler.Submit | includes/dht.py:435-458 | A submission to the manager is the step of the transition system, keeps every safety property of `CandidateSafety.Safe`, and answers as that step says |
| Crawlers.Crawler.Take | main.py:38-44 | Taking a key from the queue is a step, and safe |
| Crawlers.Crawler.Upsert | main.py:56-60 | Upserting and reading the row is a step, and safe; complete rows name stored torrents |
| Crawlers.Crawler.Decide | main.py:61-69 | Going on or finishing by the row that was read is a step, and safe |
| Crawlers.Crawler.MarkFetching | main.py:70 | Starting the fetch is a step, and safe |
| Crawlers.Crawler.Resume | main.py:70-72 | Going on or finishing by whether the row was marked is a step, and safe |
| Crawlers.Crawler.Persist | main.py:132-144 | Storing the result is a step, and safe; complete rows name stored torrents |
| Crawlers.Crawler.GiveUp | main.py:149-150 | Reading the attempts back is a step, and safe |
| Crawlers.Crawler.MarkFailed | main.py:150-159 | Scheduling the retry, or none once the attempts are used up, is a step, and safe |
| Crawlers.Crawler.Finish | main.py:160 | Releasing the key is a step, and safe |
| Crawlers.Crawler.Raise | main.py:43-50 | An exception is a step that keeps the reservation, and safe |
| Crawlers.Crawler.Restart | includes/storage.py:109-127 | A restart keeps the table, recovers it and nothing else, and is safe |
| RecentKeys.PruneIsExpire | includes/dht.py:427-433 | On a cache in time order and within its size, popping from the front removes exactly the expired entries |
| RecentKeys.RunTracks | includes/dht.py:427-468 | After every run of submissions, takes and finishes, the recent cache is exactly what the log of finished keys says was alive at the last pruning |
| RecentKeys.RefusedExactly | includes/dht.py:449-450 | A key that is not reserved, with room in the queue, is refused if and only if the submission is not a retry and the key was finished within the lifetime with fewer than the cache size of other keys finished since |
| Tokens.TokenManager.RotateIfDue | includes/dht.py:331-347 | The in-place rotation computes the rotation function, including missed rotations |
| Tokens.TokenManager.Issue | includes/dht.py:354-356 | The token is derived from the current secret after a rotation that was due |
| Tokens.TokenManager.Validate | includes/dht.py:358-364 | The answer and the new state of a validation, with its two clock readings |
| Tokens.RunTracks | includes/dht.py:331-347 | After every run of calls a secret is current, previous or gone, and it is gone only two intervals after it was made |
| Tokens.AcceptanceWindow | includes/dht.py:321-364 | With interval I and validity V <= 2I, over every sequence of calls: a token issued at t is accepted for the same address up to t + (V - I), never after t + V, also after missed rotations, and never for another address |
| Lru.ExpireExact | includes/dht.py:371-382 | Removing expired entries keeps a cache exactly the part of the log that is alive, at the later cutoff |
| Lru.TouchExact | includes/dht.py:384-397 | Moving a key to the end and evicting the oldest entry over the bound keeps a cache exactly the part of the log that is alive: used since the cutoff, with fewer than the bound of distinct other keys used after it |
| Lru.SinceCount | includes/dht.py:384-397 | The entries behind a cached key are exactly the distinct other keys used since |
| PeerStores.PruneAgrees | includes/dht.py:371-382 | Pruning both levels keeps the store in agreement with the log of announcements; a key goes exactly when its last peer does |
| PeerStores.AddAgrees | includes/dht.py:384-397 | An announcement keeps the agreement, whether the key is present, new, or new in a full store |
| PeerStores.PeerStore.Prune | includes/dht.py:371-382 | The nested loops compute the pruning; the log does not change |
| PeerStores.PeerStore.Add | includes/dht.py:384-397 | After every announcement, keys and peers of the store are exactly, in order of last use, what the extended log says is alive, the peers within the current residence of their key |
| PeerStores.PeerStore.Get | includes/dht.py:399-402 | Returns, least recently announced first and without repetition, exactly the peers alive in the current residence of a key that is alive, and nothing for any other key |
| PeerStores.PeerStore.Keys | includes/dht.py:404-406 | Returns, in order of last announcement, exactly the keys announced within the lifetime with fewer than the bound of distinct other keys announced since |
| RateLimiter.RunInBounds | includes/dht.py:481-497 | Over every run the tokens stay between 0 and the capacity |
| RateLimiter.EveryWindowIsBounded | includes/dht.py:471-497 | In every window of time of length T, after any history, at most burst + rate * T calls are granted |
| RateLimiter.WaitersCount | includes/dht.py:479-497 | The waiter counters are the callers that came in and have neither been granted nor cancelled |
| RateLimiter.GrantedByPriority | includes/dht.py:481-497 | After every run, an attempt is granted if and only if the tokens plus rate times the time since the last attempt make a whole token and no caller of higher priority is inside |
| RateLimiter.TokensExactly | includes/dht.py:486-493 | After an attempt the tokens are the smaller of the capacity and what was there plus rate times the time since the last attempt, less one if it was granted |
| RateLimiter.NothingIsWasted | includes/dht.py:486-493 | Over every run, what was there and what the rate brought in, up to the capacity, was granted or is still there |
| RateLimiter.BurstIsGranted | includes/dht.py:471-497 | From any state in bounds, k callers of one priority that attempt at one time with nobody of higher priority inside are all granted whenever k is at most the capacity and at most the tokens plus rate times the time since the last attempt |
| RateLimiter.DelaySuffices | includes/dht.py:494 | A caller refused for want of a token finds one after the computed delay, if nothing happens in between |
| RateLimiter.TokenBucket.Try | includes/dht.py:486-493 | One attempt under the lock, on the mutable fields, is the step of the transition system |
| RateLimiter.TokenBucket.Arrive | includes/dht.py:482-483 | Coming in counts a waiter of the clamped priority |
| RateLimiter.TokenBucket.Leave | includes/dht.py:496-497 | Leaving uncounts a waiter of the clamped priority |
| Lookup.GetPeers | includes/dht.py:989-1040 | Against arbitrary replies the lookup terminates without the clock; the queries sent are exactly the batches of its rounds, in order; every round starts in time and below both limits from exactly the nodes and peers that the queries before it gave, and asks exactly the nearest allowed nodes not asked before; no node is asked twice; at most the query limit plus parallelism - 1 queries are sent; it ends as exhausted or converged exactly by the rule of `Plan`, so that no allowed node among the K nearest known is then unasked, and no round before met that rule; the result is distinct, allowed, within the limit, and complete when below it |
| Lookup.Plan | includes/dht.py:998-1006 | The head of a round decides exactly: exhausted if and only if no known allowed node anywhere is unasked; converged if and only if some node is, but the K nearest are those of the round before and all of them were asked; else ask the nearest unasked |
| Lookup.AskBatch | includes/dht.py:1012-1039 | The replies of a round extend the shortlist and the peers by exactly what they teach |
| Lookup.BatchByXor | includes/dht.py:999-1001 | The nodes asked in a round are strictly nearer to the key, in the metric, than every node that may be asked and is not, of which there is one only when the batch is full |
| NearestFirst.NearestUnique | includes/dht.py:284-289 | Where no two members of a set are at one distance, two lists of its nearest members are the same list |
| NearestFirst.TakeIsNearest | includes/dht.py:999-1001 | A prefix of a strictly ascending list of all members of a set is the list of its nearest members |
| Lookup.NearestNodesUnique | includes/dht.py:999-1001 | For nodes the condition always holds: there is only one list of the nearest nodes of a set |
| Packing.EntrySize | includes/bencode.py:169-189 | A new entry lengthens an encoded dictionary by exactly its encoded key and value |
| Packing.FitsAntitone | includes/dht.py:855-876 | If a reply fits, so does one with a shorter value in the same entry |
| Packing.PackValues | includes/dht.py:856-867 | The values are the longest prefix of the allowed stored peers that fits |
| Packing.AllowedExactly | includes/dht.py:857-860 | The entries that are packed are exactly the allowed peers, in the order of the store |
| Packing.JoinConcat | includes/dht.py:868-876 | Joined compact nodes and samples follow one another in order |
| Packing.GetPeersReply | includes/dht.py:849-877 | The reply encodes to at most 1024 bytes around a two-byte transaction number; values, or else nodes, are the longest prefix that fits |
| Packing.SamplesSize | includes/dht.py:908-935 | The exact encoded size of a sample reply |
| Packing.SampleReply | includes/dht.py:908-935 | Nodes are the longest prefix that fits beside the whole cached sample; the samples are the longest prefix that fits with those nodes; the reply encodes to at most 1024 bytes, provided its two numbers have at most 900 digits together |
| Packing.SentExactly | includes/dht.py:712-716 | A built reply passes the final size check if and only if the real transaction number takes no more room than the trial left; with at most two bytes it always does |
| Packing.LongTransactionRefused | includes/dht.py:712-716 | A reply that passed every trial is still refused for a 1000-byte transaction number |
| LogRotation.RotationDropsTheOldest | includes/storage.py:530-547 | A rotation loses exactly the lines of the oldest backup |
| LogRotation.LoggedKeeps | includes/storage.py:628-638 | A logged line is appended to what is on disk, and only the oldest backup can go |
| LogRotation.DiskIsASuffix | includes/storage.py:530-547 | After every run from no files, backups oldest first followed by the live file are a whole-line suffix of everything written; nothing is dropped without backups or while a backup number is still free |
| LogRotation.Retention | includes/storage.py:530-547 | Once anything has been dropped, at least the backup count times the size limit in bytes is on disk |
| LogRotation.SizeIsLength | includes/storage.py:628-638 | The size that decides about rotation is the number of bytes of the lines with their newlines |
| LogRotation.EventLog.Rotate | includes/storage.py:530-547 | Without a live file, or with one below the size limit, nothing happens; else the descending loop of renames moves every file up by one number and removes the oldest |
| LogRotation.EventLog.Append | includes/storage.py:628-638 | A line goes to the end of the live file, which is created if there is none; no other file changes |
| LogRotation.EventLog.Write | includes/storage.py:628-638 | Writing a line gives the files that the log of written lines determines |

## Left out

- Sockets, asyncio streams, UDP transport, DNS and Telegram: messages arrive as bytes or values and replies are values.
- SQLite: every row operation is one atomic step that executes once, and its reopen-and-retry recovery, the size check and the file and notification tables are not modelled; of a stored torrent only its last sighting is.
- Evidence records (`_emit`, `_emit_*`, `emit_error`) and log output: nothing that is proved depends on them.
- SHA-1, HMAC and `secrets`: a token is the pair it is derived from and every secret is new, so collisions are excluded.
- Clock readings inside one `observe` call: the source reads the clock several times, the model once.
- Task cancellation in the candidate life cycle: it happens only when the process stops, which the restart step covers.
- `mark_unsupported` has no caller and no step; the state it would write is treated as settled.
- `due_candidates` and the retry scan: submissions of any key, retry or not, at any time are allowed instead, which includes it.
- Choice and order of hints and peers within one candidate, and the metadata hash check: the fetch is one step that may succeed or fail.
- BencodeEncoder.EncodeValue: a string is the bytes of its UTF-8 form, so one with lone surrogates, which has none and raises in the source, cannot be written down.
- CandidateManagers.CandidateTable.Persist: the file and notification rows of the same transaction and the other columns of the torrent are not modelled, because no other modelled operation reads them.
- Bencode.Parse: integers are unbounded; the limit of Python on converting more than 4300 digits is not modelled.
- Metadata.ParseMessage: `True` and `1.0` cannot come out of the decoder, so a message type is an integer, bytes, list or dictionary; the last two raise TypeError in the source, and the model has that failure too.
- Lookup.GetPeers: which returned nodes the routing table accepts, and where it says a node is, are arbitrary per round rather than computed by the routing model.
- Packing.SampleReply: the cached sample is a parameter; its random choice and its expiry are not modelled. The size bound holds when the two numbers in the reply have at most 900 digits together.
- RateLimiter.TokenBucket.Try: `acquire` repeats attempts with sleeps in between; each attempt is one step, sleeping is the gap between steps. Numbers are reals, not floats.
- LogRotation.EventLog.Write: a restart with existing files, failed writes that are repeated and the flush interval are not modelled.
- Compact peer and node codecs, the BitTorrent handshake, the indexer, keyword monitoring and BEP 51 query scheduling: mostly straight-line code.

# Hefur tracker, verified model

Hefur is a BitTorrent tracker that keeps everything in memory. This project models the parts
of it that carry its guarantees and proves properties of them over all inputs, all histories
and all runs:

- the swarm of one torrent: an LRU cache of peers with a capacity and a time-to-live, a
  bounded query for the most recent peers, and its counters;
- the torrent database, which sends each request to at most one torrent;
- addresses, their index keys, and their compact encodings for UDP and HTTP;
- the UDP server: connection ids from rotating secrets, its packets, its outbound queue and
  its loop.

Each imperative part exists twice: as a value with functions that say what one operation does,
and as an object whose methods do it in place and are proved to agree with those functions.
The theorems are about the functions, so they hold of the objects.

| file | content |
|---|---|
| `Bytes.dfy`, `Sequences.dfy`, `Records.dfy` | machine integers, byte orders, `memcpy`; list operations; strings of fixed-size records |
| `Addresses.dfy`, `InfoHashes.dfy` | the address union and its key; info hashes and the 20-byte torrent key |
| `Swarms.dfy` | the swarm as a value: entries, announces, cleanups, runs |
| `SwarmLists.dfy`, `SwarmRuns.dfy` | list facts; invariants over runs, LRU inclusion, completion counting |
| `SwarmHistory.dfy`, `SwarmPromises.dfy` | what is tracked, read off the history; what peers may rely on |
| `SwarmSelection.dfy` | which peers a reply names |
| `Torrents.dfy` | the torrent object: peers on the heap, list, index, counters |
| `TorrentDbs.dfy`, `TorrentDbRuns.dfy` | the database object; its runs as side-by-side runs of torrents |
| `ConnectionIds.dfy`, `UdpPackets.dfy` | connection ids; BEP 15 packets read and written |
| `UdpSteps.dfy`, `UdpServers.dfy` | the UDP server as a step machine, and as an object |
| `UdpRuns.dfy` | queue, replies, and how long ids stay good at least |
| `UdpTurns.dfy` | who is answered, rounds and turns of the loop, which secrets are held, how long ids stay good at most |
| `UdpExchanges.dfy` | whole exchanges as clients see them |
| `AnnounceHandlers.dfy` | `numwant` and the compact split of the HTTP handler |

## What the code does not promise

Five expectations do not hold of the code as it is. Each has an exact condition.

- **UDP announces.** `UdpServer::handleAnnounce` copies the hash bytes but never sets the type
  of the hash, so the database is asked for the empty key. An announce is granted if and only
  if a torrent is stored under the empty key (`UdpExchanges.AnnounceIsGrantedIff`); when all
  torrents have version 1 or version 2 hashes, every UDP announce is refused
  (`UdpExchanges.TrackedTorrentIsRefused`), even with the very hash it carries tracked
  (`UdpExchanges.OwnTorrentIsRefused`), and no run of the UDP server changes the database
  (`UdpExchanges.UdpTracksNobody`). The encoding of granted replies is proved for any
  answer of the database.
- **Advertised interval.** The expiry of a peer is computed without overflow, and the peer is
  safe from cleanups for the advertised interval plus five minutes, if and only if two things
  hold: `ANNOUNCE_INTERVAL + 5` is at most 153,722,867 minutes, the most whose nanoseconds fit
  64 signed bits, and the clock reading plus those minutes fits them too
  (`SwarmPromises.ExpiryCoversPatience`; `SwarmPromises.LifetimeCoversPatience` for the
  lifetime alone). Past the first bound the minutes may wrap at 32 bits, their nanoseconds at
  64 and the advertised seconds at 32; for every interval `SwarmPromises.LifetimeAccount`
  gives the balance, taking signed overflow to wrap. `SwarmPromises.OverflowingInterval` is an
  interval whose lifetime is 26 seconds; `SwarmPromises.OverflowingClock` is one within the
  bound whose expiry overflows 20 seconds after the clock started;
  `SwarmPromises.ShortLifetimeDropsEarly` shows what any expiry that falls short does.
- **Scrape replies.** BEP 15 matches reply triples to requested hashes by position. The reply
  has one triple per hash if and only if all of them are tracked
  (`UdpExchanges.ScrapeReplyTellsCounts`); the triple of a tracked hash is at its own position
  if and only if no hash before it is unknown (`UdpExchanges.ScrapeReplyPlaces`). Asked for an
  unknown torrent and a tracked one, the reply shows the second one's counts where the client
  reads the first's (`UdpExchanges.ScrapeTellsTheWrongTorrent`).
- **Lost peers.** An address without a family (an unreadable `ip` parameter with
  `-allow-proxy`) is dropped by the compact split and blank in a UDP reply; all peers are told
  if and only if every address has a family (`AnnounceHandlers.CompactSplitIsComplete`,
  `UdpPackets.AnnounceReplyExact`). Such a peer is tracked and chosen for the next reply
  (`AnnounceHandlers.FamilylessPeerIsLost`); tracked peers all have a family if and only if
  every surviving announce came with one (`UdpExchanges.RoutableIffSurvivorsAre`).
- **Blank `ip` over UDP.** BEP 15 lets a client leave `ip` zero for "use the sender's address".
  With `-allow-proxy` the zeroes are taken as the address
  (`UdpSteps.BlankClaimIsTakenLiterally`); a peer is tracked under its sender's address if and
  only if the option is off or it claims that very address (`UdpSteps.TrackedUnderItsSender`).

The comment on `peers_` in `hefur/torrent.hh` speaks of an index by peer id; the code indexes
by address key, and so does the model.

## Assumptions on the environment

- Time is a signed 64-bit count of nanoseconds, and a peer's expiry is computed at that width.
- The monotonic clock does not go back and its readings leave room for a lifetime in 64 bits
  (`Timely`, `ClockForward`, `Orderly`, `Prompt`). The sorted list needs it:
  `SwarmRuns.ClockStepBackLeavesExpired` shows an expired peer that stays when it does, and
  `SwarmLists.PrefixScanExact` says exactly when the scan of `cleanup` is a filter.
- A `poll` that times out has let its delay pass, short of the `lag` by which the coarse clock
  the server reads may trail the clock `poll` waits on. The lag is a parameter of the results.
- For the longest life of an id, clock readings follow each other, or the time the next secret
  is due, within some `gap` (`Prompt`), a parameter as well, and the random source does not fail.
- `MIN_NUMWANT <= MAX_NUMWANT < 2^31` and `MAX_PEERS < 2^32 - 1` (`Options.Valid`): the first is
  what `std::clamp<int>` demands, the second keeps the 32-bit sum of the counters exact.
- The host is little-endian where the code stores an integer without swapping it.

## Model

| member | source | states |
|---|---|---|
| `Torrents.Torrent.Announce` | hefur/torrent.cc:52-105 | in place: the new list, completion counter and reply are those of the value model; the reply holds the counters from before the request |
| `Torrents.Torrent.Cleanup` | hefur/torrent.cc:37-50 | the loop that removes the front while it is expired leaves exactly the list after the prefix scan, and terminates |
| `Torrents.Torrent.CreateOrUpdatePeer` | hefur/torrent.cc:107-138 | the requester ends at the back with the fields of the request; list, index and counters agree again |
| `Torrents.Torrent.WritePeer` | hefur/torrent.cc:107-138 | the stores themselves: counters moved from the old to the new side, peer filled, index untouched on update, list re-pushed |
| `Torrents.Torrent.UpdateTimeout` | hefur/torrent.cc:140-145 | optional erase, new expiry, push at the back |
| `Torrents.Torrent.RemovePeer` | hefur/torrent.cc:147-159 | the peer leaves list, index and counters, and nothing else changes |
| `Torrents.Torrent.Uncount` | hefur/torrent.cc:148-154 | the decrement of an unsigned counter starts from a positive value, so it never wraps |
| `Torrents.Torrent.SelectPeers` | hefur/torrent.cc:88-98 | the early-exit walk from the back returns the first `numwant` eligible addresses |
| `Torrents.IndexIsExact` | hefur/torrent.cc:64 | the index has exactly the keys of the listed peers |
| `Torrents.NeverShared` | hefur/torrent.cc:121-122 | no peer object belongs to two torrents |
| `SwarmRuns.RunWellFormed` | hefur/torrent.cc:100-102 | in every reachable state keys are unique and the capacity holds |
| `SwarmRuns.RunSorted` | hefur/torrent.hh:82 | in every reachable state the list is sorted by expiry, within one lifetime of the clock |
| `SwarmLists.PrefixScanExact` | hefur/torrent.cc:41-49 | the scan that stops at the first live peer is a filter if and only if no expired peer sits behind a live one |
| `SwarmRuns.CleanupIsExact` | hefur/torrent.cc:37-50 | a cleanup in any reachable state removes all expired peers and no other, in order |
| `SwarmRuns.ClockStepBackLeavesExpired` | hefur/torrent.cc:41-49 | a run in which the clock steps back and an expired peer survives a cleanup |
| `SwarmLists.CountersAddUp` | hefur/torrent.hh:86-87 | every tracked peer is a seeder or a leecher, and counted once |
| `SwarmRuns.EvictionTakesTheFront` | hefur/torrent.cc:100-102 | an announce evicts nobody, or the front of a full list the requester is new to; never the requester unless the capacity is zero |
| `SwarmRuns.LruInclusion` | hefur/torrent.cc:37-145 | on any history, the list for a smaller capacity is, entry for entry, a suffix of the list for a larger one |
| `SwarmRuns.CompletionsAmortised` | hefur/torrent.cc:66-76 | for any set of peers, completions counted plus peers leeching never exceed announces made with something left |
| `SwarmRuns.CompletedCounts` | hefur/torrent.cc:66-69 | the 32-bit counter is the number of completions modulo its width |
| `SwarmRuns.CompletedPlusLeechers` | hefur/torrent.cc:66-159 | the same bound for the counters the torrent holds |
| `SwarmHistory.RankIsRecency` | hefur/torrent.cc:140-145 | the peers more recent than a surviving announce are exactly those announcing after it whose latest word is not a stop |
| `SwarmHistory.RunRefinesHistory` | hefur/torrent.cc:37-145 | after any run, stops included, the list is the list of surviving announces of the history, in order, with the fields of each peer's latest announce |
| `SwarmPromises.WithoutStops` | hefur/torrent.cc:100-145 | without stops, survivors are the last `MAX_PEERS` distinct peers less the expired ones |
| `SwarmPromises.TrackedIffSurvived` | hefur/torrent.cc:64-102 | an entry is tracked if and only if some surviving announce made it |
| `SwarmPromises.TrackedAsAnnounced` | hefur/torrent.cc:121-143 | a tracked peer has, field by field, what its latest announce said, and expires one lifetime after it |
| `SwarmPromises.LifetimeCoversPatience` | hefur/torrent.cc:143 | the lifetime covers the advertised interval plus five minutes, without overflow, if and only if the interval plus five is at most 153,722,867 minutes |
| `SwarmPromises.LifetimeAccount` | hefur/torrent.cc:143 | for every interval, how far the lifetime exceeds or misses the advertised interval plus five minutes: each wrap of the seconds adds, each wrap of the nanoseconds takes away |
| `SwarmPromises.OverflowingInterval` | hefur/torrent.cc:143 | an interval whose nanoseconds overflow: the lifetime is 26 seconds, the advertised interval 40 years |
| `SwarmPromises.OverflowingClock` | hefur/torrent.cc:143 | an interval within that bound and a clock at 20 seconds: the sum overflows and a cleanup at once drops the peer |
| `SwarmPromises.ExpiryCoversPatience` | hefur/torrent.cc:41-49 | product and sum do not overflow and a lone peer outlives every cleanup within the advertised interval plus five minutes if and only if the interval is within that bound and the clock leaves room for it |
| `SwarmPromises.OutlivesIffExpiryCovers` | hefur/torrent.cc:140-145 | for every interval and clock, a lone peer outlives those cleanups if and only if its expiry, wrapped as it may be, comes no earlier |
| `SwarmPromises.ShortLifetimeDropsEarly` | hefur/torrent-db.cc:33 | whenever the expiry falls short, from product or sum, a lone peer is dropped by a cleanup within the advertised interval plus five minutes |
| `SwarmPromises.RecentPeerIsTracked` | hefur/torrent.cc:41-49 | with no more peers than the capacity, a peer heard from within the advertised interval plus five minutes is tracked, for intervals up to that bound |
| `SwarmPromises.PatientPeerIsAlwaysTracked` | hefur/torrent.cc:37-145 | a peer that keeps re-announcing in time is tracked at every moment from its first announce |
| `SwarmPromises.StalenessBound` | hefur/torrent.cc:37-50 | after a cleanup every tracked peer announced less than a lifetime ago |
| `SwarmPromises.ToldAreFresh` | hefur/torrent.cc:85-98 | a reply names only peers whose latest announce is at most a lifetime, plus the age of the last cleanup, old |
| `SwarmPromises.EvictedIsLeastRecent` | hefur/torrent.cc:100-102 | a peer pushed out announced before every peer that stays |
| `SwarmPromises.CompletionIsCountedIff` | hefur/torrent.cc:66-69 | the counter moves, by one, exactly at a completed event with nothing left of a peer whose surviving announce was leeching |
| `SwarmPromises.LeechesBetweenCompletions` | hefur/torrent.cc:66-69 | between two counted completions of one peer it announced with something left |
| `SwarmSelection.SelectionIsMostRecent` | hefur/torrent.cc:88-98 | the last `n` entries of any kind are the one choice of most recent ones, in order |
| `SwarmSelection.ReplyIsMostRecent` | hefur/torrent.cc:71-98 | a stop is told nobody; any other request names, from the list before it, the most recent peers it can use (other key, other peer id, IPv6 only where allowed), in order, short of the clamped `numwant` only when all are named |
| `SwarmSelection.ShortReplyTellsAll` | hefur/torrent.cc:88-98 | a reply short of `numwant` names every tracked peer the requester can use, IPv6 ones included |
| `SwarmSelection.ReplySize` | hefur/torrent.cc:85-90 | as many peers are named as the requester can use, up to the clamped `numwant` |
| `SwarmSelection.ReplyIsSafe` | hefur/torrent.cc:92-97 | a reply repeats no peer, never names the requester, keeps to `numwant`, and has no IPv6 for those who cannot use it |
| `SwarmSelection.ToldWereTracked` | hefur/torrent.cc:92-97 | every address told is a peer tracked before, with another peer id and address than the requester's |
| `SwarmSelection.ClampNumwantMeaning` | hefur/torrent.cc:85-86 | `numwant` is kept within the operator's bounds; patterns of negative numbers ask for the minimum |
| `SwarmSelection.FamilylessPeerIsTold` | hefur/torrent.cc:92-97 | a peer whose address has no family is tracked and told to the next peer that asks |
| `Addresses.EqualsIffSameKey` | hefur/address.cc:12-26 | equality is equality of keys plus both sides having a family |
| `Addresses.KeyLengthTellsFamily` | hefur/address.hxx:7-11 | equal keys are both IPv4 or both not |
| `Addresses.AssignedKeyIsCanonical` | hefur/address.cc:103-130 | two socket addresses get the same key, and equal addresses, if and only if they agree after unmapping |
| `Addresses.MappedIffPrefixed` | hefur/address.cc:114-130 | an IPv6 address becomes an IPv4 one if and only if it starts with ten zero bytes and two of all ones |
| `Addresses.PortRoundTrip` | hefur/address.cc:155-165 | setting the port reads back and touches nothing else; without a family it touches nothing at all |
| `Addresses.AddressCell.AssignIn` | hefur/address.cc:103-112 | the union after assignment from an IPv4 socket address; null changes nothing |
| `Addresses.AddressCell.AssignIn6` | hefur/address.cc:114-130 | the union after assignment from an IPv6 socket address, mapped ones stored as IPv4 |
| `Addresses.AddressCell.Assign` | hefur/address.cc:132-153 | dispatch on the family; other families clear it and leave the bytes |
| `Addresses.AddressCell.SetPort` | hefur/address.cc:155-165 | the port bytes of the current layout are written, and no other |
| `InfoHashes.KeyTruncates` | hefur/torrent-db.hh:72-74 | a version 2 hash has the key of the version 1 hash of its first 20 bytes |
| `TorrentDbs.TorrentDb.Announce` | hefur/torrent-db.cc:20-35 | an unknown hash is refused and changes nothing; a known one updates its torrent alone, sharing no peer with the others, and is answered with the interval |
| `TorrentDbs.TorrentDb.Scrape` | hefur/torrent-db.cc:37-57 | one item per tracked hash, in the order asked, with the exact counters |
| `TorrentDbs.TorrentDb.AddTorrent` | hefur/torrent-db.cc:71-78 | insertion only under a free key; null is ignored |
| `TorrentDbs.TorrentDb.RemoveTorrent` | hefur/torrent-db.cc:80-84 | the torrent under the key goes, the others stay as they are |
| `TorrentDbs.TorrentDb.Cleanup` | hefur/torrent-db.cc:59-64 | every torrent is cleaned once, whatever the order |
| `TorrentDbRuns.DbRunIsItsLives` | hefur/torrent-db.cc:20-84 | a run of the database is, under every key, the run of that torrent's own life |
| `TorrentDbRuns.DbTorrentRefinesItsLife` | hefur/torrent-db.cc:20-84 | a torrent in a database tracks exactly the surviving announces of its own life, whatever reached other torrents |
| `TorrentDbRuns.DbRunWellFormed` | hefur/torrent-db.cc:20-84 | every torrent of a database keeps unique keys and its capacity |
| `TorrentDbRuns.FirstInsertionWins` | hefur/torrent-db.hh:54-58 | adding under a taken key, version 1 or 2 in either order, changes nothing |
| `TorrentDbRuns.KeysAreTwentyBytes` | hefur/torrent-db.hh:71-76 | with typed hashes, every key of a database has 20 bytes |
| `TorrentDbRuns.OnlyVersion1HashesFind` | hefur/torrent-db.cc:23 | only a version 1 hash can find a torrent |
| `TorrentDbRuns.AnswerTells` | hefur/torrent-db.cc:20-35 | an unknown hash gets "torrent not found"; a known one the configured minutes in seconds, which with the grace is the patience of the tracking results, the counts before the request, and the peers |
| `TorrentDbRuns.ScrapePlaces` | hefur/torrent-db.cc:42-54 | the item of a tracked hash carries that hash and sits behind those of the tracked hashes before it, at its own position if and only if all of those are tracked |
| `TorrentDbRuns.ScrapeIsAligned` | hefur/torrent-db.cc:42-54 | items match the hashes position by position if and only if all are tracked |
| `ConnectionIds.AccumulateId` | hefur/udp-server.cc:381-397 | the wrapping loop computes the unbounded sum and stays below its bound |
| `ConnectionIds.XorBits` | hefur/udp-server.cc:385-386 | the mixing step is exclusive or: each bit is set where exactly one operand has it |
| `ConnectionIds.OneByteSecret` | hefur/udp-server.cc:381-397 | with one non-zero secret byte, the id is that byte times its own address byte, plus once more for the byte before |
| `ConnectionIds.EqualBytesCancel` | hefur/udp-server.cc:385-386 | a secret of equal bytes gives a host of ones the id zero: product and next byte cancel |
| `ConnectionIds.OtherFamiliesShareAnId` | hefur/udp-server.cc:377-378 | senders of any other family have the id 42 |
| `ConnectionIds.ConnectionIdDependence` | hefur/udp-server.cc:372-397 | an id depends on the host but not the port, and on 17 secret bytes; it is at most 4 or 16 times 65279 |
| `UdpPackets.AnnounceRequestRoundTrip` | hefur/udp-server.hh:74-88 | every field a client writes into an announce is read back by the server |
| `UdpPackets.AnnounceRequestOnto` | hefur/udp-server.hh:74-88 | every 98-byte announce is the one a client writes from the fields the server reads |
| `UdpPackets.EventsUnderstood` | hefur/udp-server.cc:240-257 | the event numbers of BEP 15 are read as the events they stand for, all others as no event |
| `UdpPackets.ScrapeRequestRoundTrip` | hefur/udp-server.cc:326-329 | the server reads exactly the appended hashes, inside the packet, and ignores a ragged tail |
| `UdpPackets.ConnectReplyTells` | hefur/udp-server.cc:216-219 | 16 bytes: action 0, the transaction, and the id a client will send back |
| `UdpPackets.ErrorReplyTells` | hefur/udp-server.cc:232-236 | action 3, the transaction, and the message byte for byte |
| `UdpPackets.AnnounceReplyHead` | hefur/udp-server.cc:303-310 | size, transaction, interval, leechers and seeders decode from any announce reply |
| `UdpPackets.AnnounceReplyExact` | hefur/udp-server.cc:311-317 | the i-th record is the i-th address and port if and only if that address is IPv4 |
| `UdpPackets.BuildAnnounceReply` | hefur/udp-server.cc:297-317 | the stores into the zeroed buffer stay inside it and produce the reply |
| `UdpPackets.BuildConnectReply` | hefur/udp-server.cc:208-219 | the same for the connect reply |
| `UdpPackets.BuildErrorReply` | hefur/udp-server.cc:225-236 | the same for the error reply, whatever the length of the message |
| `UdpPackets.BuildScrapeReply` | hefur/udp-server.cc:342-359 | the same for the scrape reply |
| `UdpPackets.ScrapeReplyTriple` | hefur/udp-server.cc:350-359 | the i-th triple decodes to seeders, completed and leechers of the i-th item |
| `UdpSteps.TrackedUnderItsSender` | hefur/udp-server.cc:280-285 | a peer is tracked under its sender's address if and only if clients may not claim one or it claims that one |
| `UdpSteps.BlankClaimIsTakenLiterally` | hefur/udp-server.cc:280-282 | with `-allow-proxy`, a blank `ip` field is tracked as the address 0.0.0.0 |
| `UdpServers.UdpServer.GenSecret` | hefur/udp-server.cc:101-106 | secrets move back one place; a failed draw repeats the first; the next rotation is a second away |
| `UdpServers.UdpServer.CheckConnectionId` | hefur/udp-server.cc:259-263 | an id passes if it is the one of any of the three secrets |
| `UdpServers.UdpServer.HandleConnect` | hefur/udp-server.cc:203-221 | one reply, with the id of the newest secret |
| `UdpServers.UdpServer.HandleAnnounce` | hefur/udp-server.cc:265-319 | short packets and bad ids are ignored; otherwise the database is asked once and its answer, or its refusal, is enqueued |
| `UdpServers.UdpServer.HandleScrape` | hefur/udp-server.cc:321-361 | bad ids are ignored; otherwise one reply is enqueued |
| `UdpServers.UdpServer.SendFailure` | hefur/udp-server.cc:223-238 | the error reply with the message |
| `UdpServers.UdpServer.Receive` | hefur/udp-server.cc:155-201 | the loop over datagrams stops at 64 queued replies, when blocked, or on an error |
| `UdpServers.UdpServer.Send` | hefur/udp-server.cc:139-153 | the loop over the queue stops on a retry and drops on other errors |
| `UdpServers.UdpServer.Run` | hefur/udp-server.cc:108-137 | any number of turns of the loop do what the step machine says |
| `UdpRuns.ReplyIsFaithful` | hefur/udp-server.cc:183-238 | at most one reply to a packet, sent to its origin, with its transaction id, and its own action, or for an announce the error action |
| `UdpTurns.AnsweredIff` | hefur/udp-server.cc:170-201 | one reply exactly to a connect, and to an announce of full size or a scrape whose id its host has under one of the three secrets; only such an announce can change the database |
| `UdpTurns.ConnectIsAnswered` | hefur/udp-server.cc:183-219 | a connect gets action 0, its transaction, and the id of its host under the newest secret |
| `UdpTurns.LongDatagramsAreCut` | hefur/udp-server.cc:156-171 | of a datagram over 4096 bytes only the first 4096 matter |
| `UdpTurns.FloodFillsQueue` | hefur/udp-server.cc:169-201 | a flood of connects fills the queue to exactly 64 |
| `UdpTurns.SendsUntilRetry` | hefur/udp-server.cc:139-153 | a round takes off one buffer for each outcome before the first retry |
| `UdpTurns.DueTurnRotates` | hefur/udp-server.cc:101-131 | a turn that finds a secret due, or times out, generates one whatever the socket is ready for; a good draw comes first, the next is due a second later, queue and database stay |
| `UdpTurns.WritableTurnSends` | hefur/udp-server.cc:132-133 | otherwise a writable socket is served, before a readable one |
| `UdpTurns.ReadableTurnReceives` | hefur/udp-server.cc:134-135 | otherwise a readable one; each datagram has its whole effect while the queue has room |
| `UdpTurns.IdleTurnChangesNothing` | hefur/udp-server.cc:126-135 | otherwise nothing changes |
| `UdpTurns.SecretsAreLatestDraws` | hefur/udp-server.cc:101-106 | over any run whose draws succeed, the secrets are the latest draws, newest first, then the earlier secrets |
| `UdpTurns.StartsWithThreeDraws` | hefur/udp-server.cc:91-93 | a started server holds three draws, the last one first |
| `UdpTurns.ThreeDueTurnsReplaceAll` | hefur/udp-server.cc:115-119 | after three turns that found a secret due, no earlier secret is held |
| `UdpTurns.RotationsComeInTime` | hefur/udp-server.cc:114-136 | in a prompt run, rotations come at least every second and two gaps |
| `UdpTurns.ConnectionIdExpires` | hefur/udp-server.cc:101-137 | three seconds and five gaps on, an accepted id is one that a later draw gives its sender: earlier ids pass only by coincidence |
| `UdpRuns.QueueConserved` | hefur/udp-server.cc:139-201 | over any run the queue holds at most 64 buffers, and what was enqueued is what was taken off followed by what is left, in order |
| `UdpRuns.PushesAnswerArrivals` | hefur/udp-server.cc:155-238 | over any run, each buffer enqueued is a faithful reply to a datagram of its own, in the order of arrival |
| `UdpRuns.PopsAnswerArrivals` | hefur/udp-server.cc:139-201 | from an empty queue, the same of everything taken off it by sending |
| `UdpRuns.AcceptedUntilThirdRotation` | hefur/udp-server.cc:259-263 | an id is accepted in every state with fewer than three later rotations |
| `UdpRuns.RotationIsNotEarly` | hefur/udp-server.cc:116-131 | a secret is never generated a millisecond plus the clock's lag, or more, before its time |
| `UdpRuns.ConnectionIdLifetime` | hefur/udp-server.cc:101-137 | over any run an id is accepted from its host for at least 1998 milliseconds, less twice the clock's lag |
| `UdpExchanges.ConnectThenAnnounce` | hefur/udp-server.cc:203-319 | a client that connects and announces in time with the id it read gets the database's answer |
| `UdpExchanges.AnnounceIsGrantedIff` | hefur/udp-server.cc:265-295 | an accepted announce is granted if and only if a torrent sits under the empty key |
| `UdpExchanges.TrackedTorrentIsRefused` | hefur/udp-server.cc:270-295 | in a database of typed hashes every UDP announce is refused |
| `UdpExchanges.OwnTorrentIsRefused` | hefur/udp-server.cc:270-295 | an accepted announce is refused though the torrent with the hash it carries is tracked |
| `UdpExchanges.GrantedAnnounceTakesEffect` | hefur/udp-server.cc:270-295 | where the announce is granted: event 3 removes its peer; any other puts it at the back with the fields the client wrote; event 1 counts a download of a leeching peer with nothing left |
| `UdpExchanges.GrantedAnnounceIsAnswered` | hefur/udp-server.cc:289-317 | its reply tells the interval, the counts before it, and as many peers as it asked for within bounds, or all there are; none after a stop |
| `UdpExchanges.GrantedAnnounceNamesPeers` | hefur/udp-server.cc:311-317 | its records are the most recent peers a UDP client can use, in order |
| `UdpExchanges.UdpTracksNobody` | hefur/udp-server.cc:108-201 | over any run the UDP server leaves a database of typed hashes as it is |
| `UdpExchanges.AnnounceReplyTellsPeers` | hefur/udp-server.cc:297-317 | with IPv6 skipped, cutting the body into records gives exactly the selected addresses in order |
| `UdpExchanges.RunIsRoutable` | hefur/torrent.cc:126 | tracked addresses have a family when all announced ones do |
| `UdpExchanges.RoutableIffSurvivorsAre` | hefur/torrent.cc:126 | tracked addresses all have a family if and only if those of the surviving announces do |
| `UdpExchanges.ScrapeReplyPlaces` | hefur/udp-server.cc:321-361 | the triple of every tracked hash tells its counts, at the position that counts the tracked hashes before it; that is its own position if and only if all of those are tracked |
| `UdpExchanges.ScrapeTellsTheWrongTorrent` | hefur/udp-server.cc:342-359 | a request for an unknown and a tracked torrent whose first and only triple tells the second torrent's counts |
| `UdpExchanges.ScrapeReplyTellsCounts` | hefur/udp-server.cc:321-361 | one triple per hash if and only if all are tracked; then the i-th tells the i-th torrent's counts |
| `AnnounceHandlers.NumwantSurvives` | hefur/announce-handler.cc:29-35 | the number given reaches the torrent, clamped, through the unsigned field, negative ones included |
| `AnnounceHandlers.CompactPeers` | hefur/announce-handler.cc:112-123 | the loop packs IPv4 and IPv6 addresses into their two strings |
| `AnnounceHandlers.CompactSplitRecovers` | hefur/announce-handler.cc:112-123 | cutting the strings into 6- and 18-byte records recovers both families in order |
| `AnnounceHandlers.CompactSplitIsComplete` | hefur/announce-handler.cc:115-123 | the record counts add up to the number of peers if and only if every address has a family |
| `AnnounceHandlers.FamilylessPeerIsLost` | hefur/announce-handler.cc:115-123 | a run and a request whose reply names a peer that neither compact string holds |

## Left out

- The containers of the mimosa library (trie, intrusive lists) are not part of this model; the index is a map with
  insertion only under a free key, the lists are sequences with erase, push and front.
- The clock of the UDP server plus one second is taken not to overflow 64 bits.
- Allocation failure, and with it the "internal error" replies of `Torrent::announce` and the UDP handlers.
- The pointer to the database in `UdpServer` is never null, as `Hefur` creates it before the server.
- Changes other threads make to the database between two turns of the UDP loop; the statements about one packet hold for any database.
- Locks and memory-level races: every operation on a torrent or the database is one step.
- Socket set-up, `stop()`, logging, and the contents of `poll`, `recvfrom` and `sendto` beyond their outcomes.
- Uniqueness and secrecy of connection ids: only the acceptance of issued ids is stated.
- The two-minute id validity of BEP 15: the code rotates about every second, and the bound proved is the one the code gives.
- The white list (`FsTreeWhiteList`), HTTP parsing, bencoding, the non-compact peer list, the stat, peers and file pages, and the control server: thin wrappers around libraries that are not part of this model.
- Text forms of addresses (`str`, `ipStr`).

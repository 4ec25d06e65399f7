/**
 Whole exchanges over UDP, as a client sees them: connecting and then announcing, the
 peers an announce reply tells, the counts a scrape reply tells.
 */
module UdpExchanges {
  import opened Bytes
  import opened Sequences
  import opened Addresses
  import opened InfoHashes
  import opened ConnectionIds
  import opened Swarms
  import opened SwarmLists
  import opened SwarmSelection
  import opened SwarmHistory
  import opened SwarmPromises
  import opened TorrentDbs
  import opened TorrentDbRuns
  import opened UdpPackets
  import opened UdpSteps
  import opened UdpRuns
  import opened Records

  // ------------------------------------------------------------ connect, then announce

  /**
   A client that connects, and within 1998 milliseconds, less twice the lag of the clock,
   announces from the same host with the id it was given, gets an answer, whatever the
   server did in between.
   */
  lemma ConnectThenAnnounce(setup: Setup, s: ServerState, ticks: seq<Tick>, lag: nat,
                            issued: int, presented: int, connect: seq<byte>, from: SockAddr, again: SockAddr,
                            transaction: Word, f: AnnounceFields, key: Word)
    requires |connect| >= CONNECT_REQUEST && ActionOf(connect) == CONNECT && SameHost(from, again)
    requires Orderly(setup, s, ticks, lag, issued, presented)
    requires presented <= issued + 1998 * MILLISECOND - 2 * lag
    ensures var replies := PacketEffect(setup, s.secrets, s.db, connect, from, issued).replies;
            && |replies| == 1 && replies[0].to == from && |replies[0].data| == 16
            && var packet := WriteAnnounce(IdInReply(replies[0].data), transaction, f, key);
               var later := AfterTicks(setup, s, ticks);
               var effect := PacketEffect(setup, later.secrets, later.db, packet, again, presented);
               var hash, r := CopiedHash(f.infoHash), AskedFor(setup, f, again);
               && effect.db == DbAnnounced(setup.options, later.db, hash, r, presented)
               && effect.replies ==
                  [AnnounceAnswer(packet, again, Answered(setup.options, later.db, hash, r, presented))]
  {
    hide ConnectReply, WriteAnnounce, ReadAnnounce, IdOf, ActionOf, TransactionOf, IdInReply;
    hide DbAnnounced, Answered, AnnounceAnswer, ConnectionId, Accepts, AfterTicks, CopiedHash, AskedFor;
    var id := ConnectionId(s.secrets[0], from);
    ConnectReplyTells(TransactionOf(connect), id);
    AnnounceRequestRoundTrip(id, transaction, f, key);
    ConnectionIdLifetime(setup, s, ticks, lag, issued, presented, from, again);
  }

  // ---------------------------------------------------------- what an announce gets back

  /**
   An accepted announce is answered with the torrent's peers exactly when some torrent is
   stored under the empty key; otherwise it is refused and changes nothing.  The handler
   leaves the type of the hash unset, so the hash in the packet does not matter.
   */
  lemma AnnounceIsGrantedIff(setup: Setup, secrets: Secrets, db: Db, packet: seq<byte>, from: SockAddr, now: int)
    requires |packet| >= ANNOUNCE_REQUEST && ActionOf(packet) == ANNOUNCE && Accepts(secrets, IdOf(packet), from)
    ensures var effect := PacketEffect(setup, secrets, db, packet, from, now);
            var refusal := SendBuffer(from, ErrorReply(TransactionOf(packet), NOT_FOUND));
            && |effect.replies| == 1
            && ([] in db <==> effect.replies[0] != refusal)
            && ([] !in db ==> effect.db == db)
  {
    hide ReadAnnounce, IdOf, AskedFor, Announced, Accepts, Head, Concat, PeerSlots, Ascii, At32, Counts, NOT_FOUND;
    var f := ReadAnnounce(packet);
    var hash := CopiedHash(f.infoHash);
    var transaction := TransactionOf(packet);
    assert hash.Significant() == [];
    HeadDecodes(ERROR, transaction, Ascii(NOT_FOUND));
    match Answered(setup.options, db, hash, AskedFor(setup, f, from), now)
    case Refused(message) =>
    case Granted(interval, reply) => AnnounceReplyHead(transaction, interval, reply);
  }

  /**
   So in a database filled with version 1 and version 2 hashes, every UDP announce is
   refused, even one for a torrent that is tracked.
   */
  lemma TrackedTorrentIsRefused(setup: Setup, secrets: Secrets, history: seq<DbEvent>, packet: seq<byte>,
                                from: SockAddr, now: int)
    requires AllTyped(history)
    requires |packet| >= ANNOUNCE_REQUEST && ActionOf(packet) == ANNOUNCE && Accepts(secrets, IdOf(packet), from)
    ensures var db := DbRun(setup.options, history);
            PacketEffect(setup, secrets, db, packet, from, now)
            == Effect(db, [SendBuffer(from, ErrorReply(TransactionOf(packet), NOT_FOUND))])
  {
    var db := DbRun(setup.options, history);
    if [] in db {
      KeysAreTwentyBytes(setup.options, history, []);
      assert false;
    }
    AnnounceIsGrantedIff(setup, secrets, db, packet, from, now);
  }

  /**
   For one: the torrent whose version 1 hash is the very one in the packet was added and is
   tracked, and the announce, for all that it passed the checks, is told it is not found.
   */
  lemma OwnTorrentIsRefused(setup: Setup, secrets: Secrets, packet: seq<byte>, from: SockAddr, now: int)
    requires |packet| >= ANNOUNCE_REQUEST && ActionOf(packet) == ANNOUNCE && Accepts(secrets, IdOf(packet), from)
    ensures var hash := MakeInfoHash(Sha1, ReadAnnounce(packet).infoHash);
            var db := DbRun(setup.options, [Add(hash)]);
            && hash.Significant() == ReadAnnounce(packet).infoHash
            && hash.Significant() in db
            && PacketEffect(setup, secrets, db, packet, from, now)
               == Effect(db, [SendBuffer(from, ErrorReply(TransactionOf(packet), NOT_FOUND))])
  {
    hide ReadAnnounce, PacketEffect, ErrorReply, IdOf, Accepts;
    var bytes := ReadAnnounce(packet).infoHash;
    var hash := MakeInfoHash(Sha1, bytes);
    assert hash.Significant() == bytes && hash.TorrentKey() == bytes;
    DbRunAppend(setup.options, [], Add(hash));
    assert [] + [Add(hash)] == [Add(hash)];
    TrackedTorrentIsRefused(setup, secrets, [Add(hash)], packet, from, now);
  }

  lemma PacketKeepsDb(setup: Setup, secrets: Secrets, db: Db, packet: seq<byte>, from: SockAddr, now: int)
    requires [] !in db
    ensures PacketEffect(setup, secrets, db, packet, from, now).db == db
  {
    hide ReadAnnounce, DbAnnounced, Answered, AnnounceAnswer, ConnectAnswer, ScrapeAnswer, Accepts, IdOf;
    if |packet| >= ANNOUNCE_REQUEST {
      var f := ReadAnnounce(packet);
      var hash := CopiedHash(f.infoHash);
      assert hash.Significant() == [];
      AnnounceIsFramed(setup.options, db, hash, AskedFor(setup, f, from), now, []);
    }
  }

  lemma {:induction false} ReceiveKeepsDb(setup: Setup, s: ServerState, inputs: seq<Received>)
    requires [] !in s.db
    ensures AfterReceive(setup, s, inputs).db == s.db
    decreases |inputs|
  {
    hide PacketEffect;
    if |s.queue| < QUEUE_LIMIT && inputs != [] && inputs[0].Got? {
      var d := inputs[0].datagram;
      PacketKeepsDb(setup, s.secrets, s.db, Take(d.payload, BUFFER_SIZE), d.from, d.now);
      ReceiveKeepsDb(setup, AfterEffect(s, DatagramEffect(setup, s, d)), inputs[1..]);
    }
  }

  lemma TickKeepsDb(setup: Setup, s: ServerState, t: Tick)
    requires [] !in s.db
    ensures AfterTick(setup, s, t).db == s.db
  {
    hide AfterReceive, AfterSend, Rotated, PollDelay;
    ReceiveKeepsDb(setup, s, t.receives);
  }

  lemma {:induction false} TicksKeepDb(setup: Setup, s: ServerState, ticks: seq<Tick>)
    requires [] !in s.db
    ensures AfterTicks(setup, s, ticks).db == s.db
    decreases |ticks|
  {
    hide AfterTick;
    if ticks != [] {
      TickKeepsDb(setup, s, ticks[0]);
      TicksKeepDb(setup, AfterTick(setup, s, ticks[0]), ticks[1..]);
    }
  }

  /**
   Over whole runs: whatever arrives, and however long the server runs, it never changes
   a database filled with version 1 and version 2 hashes.  Nobody is tracked by UDP.
   */
  lemma UdpTracksNobody(setup: Setup, s: ServerState, history: seq<DbEvent>, ticks: seq<Tick>)
    requires AllTyped(history) && s.db == DbRun(setup.options, history)
    ensures AfterTicks(setup, s, ticks).db == s.db
  {
    if [] in s.db {
      KeysAreTwentyBytes(setup.options, history, []);
      assert false;
    }
    TicksKeepDb(setup, s, ticks);
  }

  // ------------------------------------------------------------- the peers in a reply

  ghost predicate Routable(list: seq<Entry>) {
    forall e :: e in list ==> !e.addr.family.Unspec?
  }

  /** All addresses told over UDP are IPv4, when every tracked peer has a family. */
  lemma ToldOverUdpAreIpv4(o: Options, list: seq<Entry>, r: Request, now: int)
    requires r.skipIpv6 && Routable(list)
    ensures forall a :: a in RepliedAddresses(o, list, r, now) ==> a.family.Inet?
  {
    ToldWereTracked(o, list, r, now);
  }

  /**
   So cutting the body of an announce reply into 6-byte records gives exactly the address
   and port bytes of the selected peers, in order, one record each.
   */
  lemma AnnounceReplyTellsPeers(o: Options, s: Swarm, r: Request, now: int, transaction: Word)
    requires r.skipIpv6 && Routable(s.list)
    ensures var reply := Counts(s, RepliedAddresses(o, s.list, r, now));
            var body := AnnounceReply(transaction, o.AdvertisedInterval(), reply)[ANNOUNCE_HEADER..];
            && |body| == PEER_SLOT * |reply.addrs|
            && forall i :: 0 <= i < |reply.addrs| ==>
                 && (i + 1) * PEER_SLOT <= |body|
                 && RecordAt(body, PEER_SLOT, i) == reply.addrs[i].Key()
  {
    hide AnnounceReply, RecordAt, RepliedAddresses;
    var reply := Counts(s, RepliedAddresses(o, s.list, r, now));
    AnnounceReplyHead(transaction, o.AdvertisedInterval(), reply);
    ToldOverUdpAreIpv4(o, s.list, r, now);
    forall i | 0 <= i < |reply.addrs|
      ensures (i + 1) * PEER_SLOT <= |AnnounceReply(transaction, o.AdvertisedInterval(), reply)[ANNOUNCE_HEADER..]|
      ensures RecordAt(AnnounceReply(transaction, o.AdvertisedInterval(), reply)[ANNOUNCE_HEADER..], PEER_SLOT, i)
              == reply.addrs[i].Key()
    {
      assert reply.addrs[i] in RepliedAddresses(o, s.list, r, now);
      AnnounceReplyExact(transaction, o.AdvertisedInterval(), reply, i);
    }
  }

  // --------------------------------------------- a granted announce, from field to field

  /** The peers a UDP client can be told: others by key and id, and none on IPv6. */
  function UdpUsable(a: Address, peerid: PeerId): Entry -> bool {
    (e: Entry) => e.Key() != a.Key() && e.peerid != peerid && !e.addr.family.Inet6?
  }

  /**
   What a granted announce does to the torrent, from the fields the client wrote: a stop,
   event 3, takes its peer out; anything else puts at the back the peer as the client
   described it; and event 1 counts a download if the peer was leeching and has nothing
   left.
   */
  lemma GrantedAnnounceTakesEffect(setup: Setup, secrets: Secrets, db: Db, id: uint64, transaction: Word,
                                   f: AnnounceFields, key: Word, from: SockAddr, now: int)
    requires Accepts(secrets, id, from) && [] in db && setup.options.maxPeers >= 1
    ensures var packet := WriteAnnounce(id, transaction, f, key);
            var s, effect := db[[]], PacketEffect(setup, secrets, db, packet, from, now);
            var a := ClaimedAddress(setup, f, from);
            && effect.db.Keys == db.Keys
            && var s' := effect.db[[]];
               && (f.event == 3 ==> forall e :: e in s'.list <==> e in s.list && e.Key() != a.Key())
               && (f.event != 3 ==>
                     && s'.list != []
                     && var e := s'.list[|s'.list| - 1];
                        && e.addr == a && e.peerid == f.peerid && e.left == f.left
                        && e.downloaded == f.downloaded && e.uploaded == f.uploaded
                        && e.timeoutTs == setup.options.Expiry(now))
               && s'.completed == (s.completed + if f.event == 1 && f.left == 0 && Leeching(s.list, a.Key())
                                                 then 1 else 0) % WRAP32
  {
    hide ReadAnnounce, WriteAnnounce, IdOf, ActionOf, Accepts, ClaimedAddress, Answered, AnnounceAnswer, Options.Expiry;
    AnnounceRequestRoundTrip(id, transaction, f, key);
    assert CopiedHash(f.infoHash).Significant() == [];
    var s, r := db[[]], AskedFor(setup, f, from);
    LeechingIsFound(s.list, r.addr.Key());
    JoinedLast(setup.options, s.list, r, now);
  }

  /** The list holds a peer under the key, and the first such has something left. */
  ghost predicate Leeching(list: seq<Entry>, key: Key) {
    exists i :: 0 <= i < |list| && list[i].Key() == key && list[i].left > 0
                && forall j :: 0 <= j < i ==> list[j].Key() != key
  }

  lemma LeechingIsFound(list: seq<Entry>, key: Key)
    ensures Leeching(list, key) <==> Tracks(list, key) && list[IndexOf(list, key)].left > 0
  {
  }

  lemma JoinedLast(o: Options, list: seq<Entry>, r: Request, now: int)
    requires o.maxPeers >= 1
    ensures var list' := Evicted(Joined(o, list, r, now), o.maxPeers);
            list' != [] && list'[|list'| - 1] == EntryOf(o, r, now)
  {
  }

  /**
   What a client reads in the reply: the interval; the counts of the torrent before the
   request; after a stop no peer; else as many peers as it asked for within the
   operator's bounds, or all that there are.
   */
  lemma GrantedAnnounceIsAnswered(setup: Setup, secrets: Secrets, db: Db, id: uint64, transaction: Word,
                                  f: AnnounceFields, key: Word, from: SockAddr, now: int)
    requires Accepts(secrets, id, from) && [] in db && Fits(db)
    ensures var packet := WriteAnnounce(id, transaction, f, key);
            var s, replies := db[[]], PacketEffect(setup, secrets, db, packet, from, now).replies;
            var usable := |Filter(s.list, UdpUsable(ClaimedAddress(setup, f, from), f.peerid))|;
            var wanted := setup.options.ClampNumwant(f.numWant);
            && |replies| == 1 && replies[0].to == from
            && var data := replies[0].data;
               && |data| == 20 + 6 * (if f.event == 3 then 0 else if usable < wanted then usable else wanted)
               && At32(data, 0) == 1 && data[4..8] == transaction
               && At32(data, 8) * SECOND + GRACE == Patience(setup.options)
               && At32(data, 12) == Leechers(s.list) && At32(data, 16) == Seeders(s.list)
  {
    hide ReadAnnounce, WriteAnnounce, IdOf, ActionOf, Accepts, ClaimedAddress, Answered, At32, DbAnnounced;
    hide RepliedAddresses, Seeders, Leechers, Patience, Options.ClampNumwant, AnnounceReply;
    AnnounceRequestRoundTrip(id, transaction, f, key);
    var s, r := db[[]], AskedFor(setup, f, from);
    var hash := CopiedHash(f.infoHash);
    assert hash.Significant() == [];
    AnswerTells(setup.options, db, hash, r, now);
    var answer := Answered(setup.options, db, hash, r, now);
    AnnounceReplyHead(transaction, answer.interval, answer.reply);
    ReplyIsMostRecent(setup.options, s.list, r, now, []);
    if f.event != 3 {
      ReplySize(setup.options, s.list, r, now);
      FilterAgrees(s.list, Usable(r), UdpUsable(r.addr, f.peerid));
    }
  }

  /**
   And which peers: when all tracked peers have a family, the 6-byte records behind the
   header are, address and port, the most recently announced ones the client can use.
   */
  lemma GrantedAnnounceNamesPeers(setup: Setup, secrets: Secrets, db: Db, id: uint64, transaction: Word,
                                  f: AnnounceFields, key: Word, from: SockAddr, now: int, picks: seq<nat>)
    requires Accepts(secrets, id, from) && [] in db && Routable(db[[]].list) && f.event != 3
    requires MostRecentOf(db[[]].list, UdpUsable(ClaimedAddress(setup, f, from), f.peerid),
                          setup.options.ClampNumwant(f.numWant), picks)
    ensures var packet := WriteAnnounce(id, transaction, f, key);
            var list, replies := db[[]].list, PacketEffect(setup, secrets, db, packet, from, now).replies;
            && |replies| == 1
            && |replies[0].data| == 20 + 6 * |picks|
            && forall i :: 0 <= i < |picks| ==>
                 && (i + 1) * 6 <= |replies[0].data[20..]|
                 && picks[i] < |list|
                 && RecordAt(replies[0].data[20..], 6, i) == list[picks[i]].Key()
  {
    hide ReadAnnounce, WriteAnnounce, IdOf, ActionOf, Accepts, ClaimedAddress, DbAnnounced, Picks;
    hide RepliedAddresses, Seeders, Leechers, Options.ClampNumwant, AnnounceReply, RecordAt, Options.AdvertisedInterval;
    AnnounceRequestRoundTrip(id, transaction, f, key);
    var o, s, r := setup.options, db[[]], AskedFor(setup, f, from);
    assert CopiedHash(f.infoHash).Significant() == [];
    assert MostRecentOf(s.list, Usable(r), o.ClampNumwant(r.numWant), picks);
    ReplyIsMostRecent(o, s.list, r, now, picks);
    var reply := Counts(s, RepliedAddresses(o, s.list, r, now));
    AnnounceReplyTellsPeers(o, s, r, now, transaction);
    AnnounceReplyHead(transaction, o.AdvertisedInterval(), reply);
  }

  /** Peers have a family in every run whose announces all have one. */
  lemma {:induction false} RunIsRoutable(o: Options, history: seq<Event>)
    requires forall i :: 0 <= i < |history| && history[i].Announce? ==> !history[i].r.addr.family.Unspec?
    ensures Routable(Run(o, history).list)
  {
    if history != [] {
      var before, ev := history[..|history| - 1], history[|history| - 1];
      var list := Run(o, before).list;
      assert forall i :: 0 <= i < |before| ==> before[i] == history[i];
      RunIsRoutable(o, before);
      if ev.Cleanup? {
        DropExpiredSuffix(list, ev.now);
        assert forall e :: e in DropExpired(list, ev.now) ==> e in list;
      }
    }
  }

  /**
   Exactly: all tracked peers have a family if and only if every announce that survives,
   in the sense of the history theorem, came with one.
   */
  lemma RoutableIffSurvivorsAre(o: Options, history: seq<Event>)
    requires Timely(o, history)
    ensures Routable(Run(o, history).list) <==>
            forall i :: 0 <= i < |history| && Survives(o, history, i) ==> !history[i].r.addr.family.Unspec?
  {
    hide Run, Unexpired, Uncrowded;
    var list := Run(o, history).list;
    forall i | 0 <= i < |history| && Survives(o, history, i) ensures EntryAt(o, history, i) in list {
      TrackedIffSurvived(o, history, EntryAt(o, history, i));
    }
    forall e | e in list
      ensures exists i :: 0 <= i < |history| && Survives(o, history, i) && EntryAt(o, history, i) == e
    {
      TrackedIffSurvived(o, history, e);
    }
    assert forall i :: 0 <= i < |history| && Survives(o, history, i) ==>
                       EntryAt(o, history, i).addr == history[i].r.addr;
  }

  // ------------------------------------------------------------------ scraping by UDP

  /**
   A scrape reply has one triple for each requested hash exactly when all of them are
   tracked; then the i-th triple tells the counts of the i-th requested torrent.
   */
  lemma ScrapeReplyTellsCounts(setup: Setup, secrets: Secrets, db: Db, packet: seq<byte>, from: SockAddr, now: int)
    requires |packet| >= CONNECT_REQUEST && ActionOf(packet) == SCRAPE
    requires Accepts(secrets, IdOf(packet), from) && Fits(db)
    ensures var n := HashCount(packet);
            var hashes := ScrapeHashes(packet, n);
            var effect := PacketEffect(setup, secrets, db, packet, from, now);
            && |effect.replies| == 1
            && var data := effect.replies[0].data;
               && (|data| == SCRAPE_HEADER + SCRAPE_SLOT * n <==>
                     forall h :: h in hashes ==> h.Significant() in db)
               && (|data| == SCRAPE_HEADER + SCRAPE_SLOT * n ==>
                     forall i :: 0 <= i < n ==>
                       && hashes[i].Significant() in db
                       && var s := db[hashes[i].Significant()];
                          && At32(data, SCRAPE_HEADER + SCRAPE_SLOT * i) == Seeders(s.list)
                          && At32(data, SCRAPE_HEADER + SCRAPE_SLOT * i + 4) == s.completed
                          && At32(data, SCRAPE_HEADER + SCRAPE_SLOT * i + 8) == Leechers(s.list))
  {
    hide ScrapeHashes, Scraped, ScrapeReply, At32, Accepts, IdOf, Counts, Seeders, Leechers;
    var hashes := ScrapeHashes(packet, HashCount(packet));
    var items := Scraped(db, hashes);
    ScrapeIsAligned(db, hashes);
    ScrapeReplySize(TransactionOf(packet), items);
    if |items| == |hashes| {
      var data := ScrapeReply(TransactionOf(packet), items);
      forall i | 0 <= i < |items|
        ensures var s, at := db[hashes[i].Significant()], SCRAPE_HEADER + SCRAPE_SLOT * i;
                && At32(data, at) == Seeders(s.list)
                && At32(data, at + 4) == s.completed
                && At32(data, at + 8) == Leechers(s.list)
      {
        ScrapeReplyTriple(TransactionOf(packet), items, i);
        CountsAre(db[hashes[i].Significant()], []);
      }
    }
  }

  /** The triple at some position of a scrape reply tells the counts of the torrent. */
  ghost predicate TripleTells(data: seq<byte>, place: nat, s: Swarm) {
    var at := SCRAPE_HEADER + SCRAPE_SLOT * place;
    && at + SCRAPE_SLOT <= |data|
    && At32(data, at) == Seeders(s.list)
    && At32(data, at + 4) == s.completed
    && At32(data, at + 8) == Leechers(s.list)
  }

  /**
   Where a client finds the counts of a tracked hash, for every request: at the position
   that counts the tracked hashes before it, which is where BEP 15 has the client look
   exactly when no hash before it is unknown.
   */
  lemma ScrapeReplyPlaces(setup: Setup, secrets: Secrets, db: Db, packet: seq<byte>, from: SockAddr, now: int, i: nat)
    requires |packet| >= CONNECT_REQUEST && ActionOf(packet) == SCRAPE
    requires Accepts(secrets, IdOf(packet), from) && Fits(db)
    requires i < HashCount(packet) && ScrapeHashes(packet, HashCount(packet))[i].Significant() in db
    ensures var hashes := ScrapeHashes(packet, HashCount(packet));
            var place := |Filter(hashes[..i], TrackedIn(db))|;
            && |PacketEffect(setup, secrets, db, packet, from, now).replies| == 1
            && TripleTells(PacketEffect(setup, secrets, db, packet, from, now).replies[0].data, place,
                           db[hashes[i].Significant()])
            && (place == i <==> forall h :: h in hashes[..i] ==> h.Significant() in db)
  {
    hide ScrapeHashes, Scraped, ScrapeReply, At32, Accepts, IdOf, Counts, Seeders, Leechers, Filter;
    var hashes := ScrapeHashes(packet, HashCount(packet));
    ScrapePlaces(db, hashes, i);
    ScrapeReplyTriple(TransactionOf(packet), Scraped(db, hashes), |Filter(hashes[..i], TrackedIn(db))|);
    CountsAre(db[hashes[i].Significant()], []);
  }

  /**
   The harm: asked for an unknown torrent and a tracked one, the server sends one triple,
   and a client that reads by position takes the second torrent's counts for the first's.
   */
  lemma ScrapeTellsTheWrongTorrent(setup: Setup, secrets: Secrets, db: Db, packet: seq<byte>, from: SockAddr, now: int)
    requires |packet| >= CONNECT_REQUEST && ActionOf(packet) == SCRAPE
    requires Accepts(secrets, IdOf(packet), from) && Fits(db)
    requires HashCount(packet) == 2
    requires ScrapeHashes(packet, 2)[0].Significant() !in db && ScrapeHashes(packet, 2)[1].Significant() in db
    ensures |PacketEffect(setup, secrets, db, packet, from, now).replies| == 1
    ensures var data := PacketEffect(setup, secrets, db, packet, from, now).replies[0].data;
            && |data| == SCRAPE_HEADER + SCRAPE_SLOT
            && TripleTells(data, 0, db[ScrapeHashes(packet, 2)[1].Significant()])
  {
    hide ScrapeHashes, Scraped, ScrapeReply, At32, Accepts, IdOf, Counts, Seeders, Leechers, TripleTells;
    var hashes := ScrapeHashes(packet, 2);
    var tracked := TrackedIn(db);
    ScrapeReplyPlaces(setup, secrets, db, packet, from, now, 1);
    assert hashes[..1] == [hashes[0]] && hashes == [hashes[0], hashes[1]];
    assert Filter(hashes[..1], tracked) == [] && Filter(hashes, tracked) == [hashes[1]];
    ScrapedAreTheTracked(db, hashes);
    ScrapeReplySize(TransactionOf(packet), Scraped(db, hashes));
  }

  lemma ScrapeReplySize(transaction: Word, items: seq<ScrapeItem>)
    ensures |ScrapeReply(transaction, items)| == SCRAPE_HEADER + SCRAPE_SLOT * |items|
  {
    ConcatSize(ItemSlots(items), SCRAPE_SLOT);
  }
}

/**
 The torrent database: torrents under the first 20 bytes of their info hash.  The first
 torrent added under a key stays; every request reaches at most one torrent.
 */
module TorrentDbs {
  import opened Bytes
  import opened Sequences
  import opened Addresses
  import opened InfoHashes
  import opened Swarms
  import opened Torrents

  // ------------------------------------------------------------- the database as a value

  type HashKey = seq<byte>
  type Db = map<HashKey, Swarm>

  datatype AnnounceResponse =
    | Refused(message: string)
    | Granted(interval: uint32, reply: Reply)

  datatype ScrapeItem = ScrapeItem(hash: InfoHash, leechers: uint32, seeders: uint32, downloaded: uint32)

  const NOT_FOUND: string := "torrent not found"

  function DbAnnounced(o: Options, db: Db, hash: InfoHash, r: Request, now: int): Db {
    var key := hash.Significant();
    if key in db then db[key := Announced(o, db[key], r, now)] else db
  }

  /** The counters of every swarm fit their 32-bit fields, so nothing below wraps. */
  ghost predicate Fits(db: Db) {
    forall key :: key in db ==> |db[key].list| < WRAP32
  }

  /** The counters of a torrent, at their 32-bit width. */
  function Counts(s: Swarm, addrs: seq<Address>): Reply {
    Reply(Leechers(s.list) % WRAP32, Seeders(s.list) % WRAP32, s.completed, addrs)
  }

  function Answered(o: Options, db: Db, hash: InfoHash, r: Request, now: int): AnnounceResponse
  {
    var key := hash.Significant();
    if key !in db then Refused(NOT_FOUND)
    else Granted(o.AdvertisedInterval(), Counts(db[key], RepliedAddresses(o, db[key].list, r, now)))
  }

  function Item(s: Swarm, hash: InfoHash): ScrapeItem {
    var counts := Counts(s, []);
    ScrapeItem(hash, counts.leechers, counts.seeders, counts.completed)
  }

  /** For a list of 32-bit size the counts are exact. */
  lemma CountsAre(s: Swarm, addrs: seq<Address>)
    requires |s.list| < WRAP32
    ensures Counts(s, addrs) == Reply(Leechers(s.list), Seeders(s.list), s.completed, addrs)
  {
  }

  /** One item per tracked hash, in the order asked; unknown hashes leave no trace. */
  function Scraped(db: Db, hashes: seq<InfoHash>): seq<ScrapeItem> {
    if hashes == [] then []
    else
      var last := hashes[|hashes| - 1];
      Scraped(db, hashes[..|hashes| - 1]) +
      if last.Significant() in db then [Item(db[last.Significant()], last)] else []
  }

  function DbSwept(db: Db, clock: HashKey -> int): Db {
    map key | key in db :: CleanedUp(db[key], clock(key))
  }

  // ------------------------------------------------------------- the database object

  class TorrentDb {
    const options: Options
    var torrents: map<HashKey, Torrent>

    /** The swarms of the torrents, by key. */
    ghost var swarms: Db
    /** This object, the torrents and their peers. */
    ghost var Repr: set<object>

    ghost predicate Holds(key: HashKey)
      reads this, Repr
      requires key in torrents
    {
      var t := torrents[key];
      && t in Repr && t.Within(Repr)
      && t.Valid() && t.options == options
      && t.infoHash.TorrentKey() == key
      && key in swarms && t.Swarm() == swarms[key]
    }

    ghost predicate Valid()
      reads this, Repr
    {
      && this in Repr
      && options.Valid()
      && torrents.Keys == swarms.Keys
      && forall key :: key in torrents ==> Holds(key)
    }

    constructor (options: Options)
      requires options.Valid()
      ensures Valid() && fresh(Repr)
      ensures this.options == options && swarms == map[]
    {
      this.options := options;
      torrents, swarms := map[], map[];
      Repr := {this};
    }

    method Announce(hash: InfoHash, r: Request, now: int) returns (response: AnnounceResponse)
      requires Valid()
      modifies Repr
      ensures Valid() && fresh(Repr - old(Repr))
      ensures Fits(old(swarms)) && response == Answered(options, old(swarms), hash, r, now)
      ensures swarms == DbAnnounced(options, old(swarms), hash, r, now)
    {
      hide Torrent.Valid, Announced, Leechers, Seeders, RepliedAddresses, Counts;
      hide InfoHash.Significant, InfoHash.TorrentKey, Peer.Value;
      SwarmsFit();
      var key := hash.Significant();
      if key !in torrents {
        return Refused(NOT_FOUND);
      }
      var torrent := torrents[key];
      assert Holds(key);
      CountsAre(swarms[key], RepliedAddresses(options, swarms[key].list, r, now));
      forall other | other in torrents && other != key
        ensures torrents[other] != torrent
        ensures forall i, j :: 0 <= i < |torrents[other].timeouts| && 0 <= j < |torrent.timeouts|
                  ==> torrents[other].timeouts[i] != torrent.timeouts[j]
      {
        assert Holds(other);
        NeverShared(torrents[other], torrent);
      }
      swarms := DbAnnounced(options, swarms, hash, r, now);
      var reply := torrent.Announce(r, now);
      Repr := Repr + set p: Peer | p in torrent.timeouts :: p as object;
      response := Granted(options.AdvertisedInterval(), reply);
      forall other | other in torrents ensures Holds(other) {
        if other != key {
          assert old(Holds(other)) && unchanged(torrents[other]);
          assert torrents[other].Valid();
        }
      }
    }

    lemma SwarmsFit()
      requires Valid()
      ensures Fits(swarms)
    {
      forall key | key in swarms ensures |swarms[key].list| < WRAP32 {
        assert Holds(key);
        CountersFit(torrents[key]);
      }
    }
  
    method Scrape(hashes: seq<InfoHash>) returns (items: seq<ScrapeItem>)
      requires Valid()
      ensures Fits(swarms) && items == Scraped(swarms, hashes)
    {
      hide Torrent.Valid, Leechers, Seeders, Counts;
      SwarmsFit();
      items := [];
      for i := 0 to |hashes|
        invariant items == Scraped(swarms, hashes[..i])
      {
        assert hashes[..i + 1][..i] == hashes[..i];
        var key := hashes[i].Significant();
        if key !in torrents {
          continue;
        }
        var torrent := torrents[key];
        assert Holds(key);
        CountersFit(torrent);
        CountsAre(torrent.Swarm(), []);
        items := items + [ScrapeItem(hashes[i], torrent.leechers, torrent.seeders, torrent.completed)];
      }
      assert hashes[..|hashes|] == hashes;
    }

    /** A torrent whose key is taken is dropped; a null pointer is ignored. */
    method AddTorrent(torrent: Torrent?)
      requires Valid()
      requires torrent != null ==> torrent.Valid() && torrent.options == options
      modifies this
      ensures Valid()
      ensures torrent == null ==> swarms == old(swarms) && Repr == old(Repr)
      ensures torrent != null ==>
                && swarms == InsertIfAbsent(old(swarms), torrent.infoHash.TorrentKey(), torrent.Swarm())
                && Repr == old(Repr) + {torrent} + set p: Peer | p in torrent.timeouts :: p as object
    {
      hide Torrent.Valid;
      if torrent == null {
        return;
      }
      ghost var torrents0 := torrents;
      Repr := Repr + {torrent} + set p: Peer | p in torrent.timeouts :: p as object;
      swarms := InsertIfAbsent(swarms, torrent.infoHash.TorrentKey(), torrent.Swarm());
      torrents := InsertIfAbsent(torrents, torrent.infoHash.TorrentKey(), torrent);
      forall key | key in torrents ensures Holds(key) {
        if key in torrents0 {
          assert old(Holds(key));
        }
      }
    }

    method RemoveTorrent(key: HashKey)
      requires Valid()
      modifies this
      ensures Valid() && Repr == old(Repr)
      ensures swarms == old(swarms) - {key}
    {
      hide Torrent.Valid;
      torrents := torrents - {key};
      swarms := swarms - {key};
      forall other | other in torrents ensures Holds(other) {
        assert old(Holds(other));
      }
    }

    method CleanupOne(key: HashKey, now: int)
      requires Valid() && key in torrents
      modifies `swarms, torrents[key]
      ensures Valid()
      ensures swarms == old(swarms)[key := CleanedUp(old(swarms)[key], now)]
    {
      hide Torrent.Valid, CleanedUp;
      assert Holds(key);
      var torrent := torrents[key];
      swarms := swarms[key := CleanedUp(swarms[key], now)];
      torrent.Cleanup(now);
      forall other | other in torrents ensures Holds(other) {
        assert old(Holds(other));
        assert other != key ==> torrents[other] != torrent;
      }
    }

    /** Every torrent is cleaned, in some order, each against its own clock reading. */
    method Cleanup(clock: HashKey -> int)
      requires Valid()
      modifies Repr
      ensures Valid() && Repr == old(Repr)
      ensures swarms == DbSwept(old(swarms), clock)
    {
      hide CleanedUp, Torrent.Valid;
      var pending := torrents.Keys;
      while pending != {}
        invariant Valid() && Repr == old(Repr) && torrents == old(torrents)
        invariant pending <= torrents.Keys
        invariant forall key :: key in swarms ==>
                    swarms[key] == if key in pending then old(swarms)[key]
                                   else CleanedUp(old(swarms)[key], clock(key))
      {
        var key :| key in pending;
        assert Holds(key);
        CleanupOne(key, clock(key));
        pending := pending - {key};
      }
    }
  }
}

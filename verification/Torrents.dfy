/**
 The torrent object: peers on the heap, held at once in a list ordered by expiry, in an
 index by address key, and in two counters, all updated in place.
 */
module Torrents {
  import opened Bytes
  import opened Sequences
  import opened Addresses
  import opened InfoHashes
  import opened Swarms
  import opened SwarmLists
  import opened SwarmSelection

  class Peer {
    /** The torrent that allocated this peer: peers are never shared. */
    ghost const home: object

    var addr: Address
    var left: uint64
    var downloaded: uint64
    var uploaded: uint64
    var timeoutTs: int
    var peerid: PeerId

    constructor (addr: Address, ghost home: object)
      ensures Value() == Entry(addr, 0, 0, 0, 0, Zeroes(20))
      ensures this.home == home
    {
      this.home := home;
      this.addr := addr;
      left, downloaded, uploaded, timeoutTs, peerid := 0, 0, 0, 0, Zeroes(20);
    }

    /** Takes over what the request says; the timeout is set separately. */
    method Fill(r: Request)
      modifies this
      ensures Value() == Entry(r.addr, r.left, r.downloaded, r.uploaded, old(timeoutTs), r.peerid)
    {
      left := r.left;
      downloaded := r.downloaded;
      uploaded := r.uploaded;
      addr := r.addr;
      peerid := r.peerid;
    }

    function Value(): Entry
      reads this
    {
      Entry(addr, left, downloaded, uploaded, timeoutTs, peerid)
    }
  }

  /** The entries are the values of the listed peers. */
  ghost predicate Mirrors(timeouts: seq<Peer>, list: seq<Entry>)
    reads timeouts
  {
    |list| == |timeouts| && forall i :: 0 <= i < |list| ==> timeouts[i].Value() == list[i]
  }

  /** List and index hold the same peers, each indexed under its own key, none twice. */
  ghost predicate Indexes(timeouts: seq<Peer>, peers: map<Key, Peer>, list: seq<Entry>) {
    && |list| == |timeouts|
    && Distinct(list)
    && |peers.Keys| == |list|
    && forall i :: 0 <= i < |list| ==> list[i].Key() in peers && peers[list[i].Key()] == timeouts[i]
  }

  /** With as many keys as entries, the index holds no key beside those of the list. */
  lemma IndexIsExact(timeouts: seq<Peer>, peers: map<Key, Peer>, list: seq<Entry>)
    requires Indexes(timeouts, peers, list)
    ensures peers.Keys == Keys(list)
  {
    DistinctSize(list);
    assert Keys(list) <= peers.Keys;
    SetsOfEqualSize(Keys(list), peers.Keys);
  }

  lemma SetsOfEqualSize<T>(a: set<T>, b: set<T>)
    requires a <= b && |a| == |b|
    ensures a == b
  {
    assert b == a + (b - a);
  }

  function Spliced<T>(s: seq<T>, i: nat): seq<T>
    requires i < |s|
  {
    s[..i] + s[i + 1..]
  }

  lemma {:induction false} EraseMembers(s: seq<Peer>, x: Peer)
    ensures forall p :: p in Erase(s, x) ==> p in s
  {
    if s != [] {
      EraseMembers(s[1..], x);
    }
  }

  lemma CountersAfterErase(list: seq<Entry>, i: nat)
    requires i < |list|
    ensures Seeders(list) == Seeders(Spliced(list, i)) + (if list[i].left == 0 then 1 else 0)
    ensures Leechers(list) == Leechers(Spliced(list, i)) + (if list[i].left > 0 then 1 else 0)
  {
    FilterSplice(list, i, IsSeeder);
    FilterSplice(list, i, IsLeecher);
  }

  /** Each object appears once in the list. */
  lemma ListedOnce(timeouts: seq<Peer>, list: seq<Entry>, i: nat, j: nat)
    requires Mirrors(timeouts, list) && Distinct(list)
    requires i < |list| && j < |list| && i != j
    ensures timeouts[i] != timeouts[j]
  {
    assert timeouts[i].Value() == list[i] && timeouts[j].Value() == list[j];
  }

  lemma MirrorsAfterErase(timeouts: seq<Peer>, list: seq<Entry>, i: nat)
    requires Mirrors(timeouts, list) && Distinct(list) && i < |list|
    ensures Erase(timeouts, timeouts[i]) == Spliced(timeouts, i)
    ensures Mirrors(Spliced(timeouts, i), Spliced(list, i))
    ensures timeouts[i] !in Spliced(timeouts, i)
  {
    forall j | 0 <= j < |list| && j != i ensures timeouts[j] != timeouts[i] {
      ListedOnce(timeouts, list, i, j);
    }
    EraseSplices(timeouts, i);
  }

  lemma IndexesAfterErase(timeouts: seq<Peer>, peers: map<Key, Peer>, list: seq<Entry>, i: nat)
    requires Indexes(timeouts, peers, list) && i < |list|
    ensures Without(list, list[i].Key()) == Spliced(list, i)
    ensures Indexes(Spliced(timeouts, i), peers - {list[i].Key()}, Spliced(list, i))
  {
    var key := list[i].Key();
    WithoutSplices(list, i);
    FilterDistinct(list, NotKeyed(key));
    assert (peers - {key}).Keys == peers.Keys - {key};
  }

  /** The peer of a key, if there is one, and a null pointer otherwise. */
  function Lookup(peers: map<Key, Peer>, key: Key): Peer? {
    if key in peers then peers[key] else null
  }

  /** The list without the peer found under a key, which may be nobody. */
  function Others(timeouts: seq<Peer>, found: Peer?): seq<Peer> {
    if found == null then timeouts else Erase<Peer>(timeouts, found)
  }

  lemma FoundIsListed(timeouts: seq<Peer>, peers: map<Key, Peer>, list: seq<Entry>, key: Key) returns (i: nat)
    requires Indexes(timeouts, peers, list) && key in peers
    ensures i < |list| && list[i].Key() == key && timeouts[i] == peers[key]
  {
    IndexIsExact(timeouts, peers, list);
    i :| 0 <= i < |list| && list[i].Key() == key;
  }

  /** What is left of the counters when the peer of a key is set aside. */
  lemma CountersSetAside(timeouts: seq<Peer>, peers: map<Key, Peer>, list: seq<Entry>, key: Key)
    requires Mirrors(timeouts, list) && Indexes(timeouts, peers, list)
    ensures var found, rest := Lookup(peers, key), Without(list, key);
            && Seeders(list) == Seeders(rest) + (if found != null && found.left == 0 then 1 else 0)
            && Leechers(list) == Leechers(rest) + (if found != null && found.left > 0 then 1 else 0)
            && (found != null ==> found in timeouts && found.addr.Key() == key)
  {
    if key in peers {
      var i := FoundIsListed(timeouts, peers, list, key);
      assert timeouts[i].Value() == list[i];
      IndexesAfterErase(timeouts, peers, list, i);
      CountersAfterErase(list, i);
    } else {
      IndexIsExact(timeouts, peers, list);
      WithoutAbsent(list, key);
    }
  }

  /** What is left of list and index when the peer of a key is set aside. */
  lemma SetAside(timeouts: seq<Peer>, peers: map<Key, Peer>, list: seq<Entry>, key: Key)
    requires Mirrors(timeouts, list) && Indexes(timeouts, peers, list)
    ensures var found := Lookup(peers, key);
            var others, rest := Others(timeouts, found), Without(list, key);
            && Mirrors(others, rest)
            && Indexes(others, peers - {key}, rest)
            && found !in others
  {
    if key in peers {
      var i := FoundIsListed(timeouts, peers, list, key);
      assert timeouts[i].Value() == list[i];
      MirrorsAfterErase(timeouts, list, i);
      IndexesAfterErase(timeouts, peers, list, i);
    } else {
      IndexIsExact(timeouts, peers, list);
      WithoutAbsent(list, key);
      assert peers - {key} == peers;
    }
  }

  lemma SetAsideSize(timeouts: seq<Peer>, peers: map<Key, Peer>, list: seq<Entry>, key: Key)
    requires Indexes(timeouts, peers, list)
    ensures |Without(list, key)| <= |list|
    ensures key !in peers ==> Without(list, key) == list
  {
    if key !in peers {
      IndexIsExact(timeouts, peers, list);
      WithoutAbsent(list, key);
    }
  }

  lemma MirrorsAppend(timeouts: seq<Peer>, list: seq<Entry>, peer: Peer)
    requires Mirrors(timeouts, list)
    ensures Mirrors(timeouts + [peer], list + [peer.Value()])
  {
  }

  lemma IndexesAppend(timeouts: seq<Peer>, peers: map<Key, Peer>, list: seq<Entry>, peer: Peer, e: Entry)
    requires Indexes(timeouts, peers, list) && e.Key() !in peers
    ensures Indexes(timeouts + [peer], peers[e.Key() := peer], list + [e])
  {
    var key, more := e.Key(), peers[e.Key() := peer];
    assert more.Keys == peers.Keys + {key};
    forall i | 0 <= i < |list| ensures list[i].Key() != key {
      assert list[i].Key() in peers;
    }
  }

  lemma CountersAppend(list: seq<Entry>, e: Entry)
    ensures Seeders(list + [e]) == Seeders(list) + (if e.left == 0 then 1 else 0)
    ensures Leechers(list + [e]) == Leechers(list) + (if e.left > 0 then 1 else 0)
  {
    FilterConcat(list, [e], IsSeeder);
    FilterConcat(list, [e], IsLeecher);
  }

  lemma NothingCollected(list: seq<Entry>, r: Request)
    ensures Collected(list, r, |list|) == []
  {
    assert list[|list|..] == [];
  }

  /** Finding the requester in the index is finding it in the list. */
  lemma FoundMeansTracked(timeouts: seq<Peer>, peers: map<Key, Peer>, list: seq<Entry>, r: Request)
    requires Mirrors(timeouts, list) && Indexes(timeouts, peers, list)
    ensures var found := Lookup(peers, r.addr.Key());
            Completes(list, r) <==> found != null && found.left > 0 && r.left == 0 && r.kind.Completed?
  {
    var key := r.addr.Key();
    var i := IndexOf(list, key);
    IndexIsExact(timeouts, peers, list);
    TracksIffKey(list, key);
    if key in peers {
      assert list[i].Key() == key && peers[list[i].Key()] == timeouts[i];
      assert timeouts[i].Value() == list[i];
    }
  }

  /** The front of the list is indexed, and removing it is dropping the first entry. */
  lemma FrontIsIndexed(timeouts: seq<Peer>, peers: map<Key, Peer>, list: seq<Entry>)
    requires Mirrors(timeouts, list) && Indexes(timeouts, peers, list) && list != []
    ensures timeouts != [] && timeouts[0].Value() == list[0]
    ensures Lookup(peers, timeouts[0].addr.Key()) == timeouts[0]
    ensures Without(list, timeouts[0].addr.Key()) == list[1..]
  {
    assert timeouts[0].Value() == list[0];
    WithoutSplices(list, 0);
    assert list[..0] + list[1..] == list[1..];
  }

  lemma JoinedSize(o: Options, list: seq<Entry>, r: Request, now: int)
    ensures |Joined(o, list, r, now)| <= |list| + 1
  {
  }

  lemma EntryFields(o: Options, list: seq<Entry>, r: Request, now: int)
    ensures EntryOf(o, r, now).Key() == r.addr.Key() && EntryOf(o, r, now).left == r.left
    ensures Joined(o, list, r, now) == Without(list, r.addr.Key()) + [EntryOf(o, r, now)]
  {
  }

  /** Updating in place and inserting anew leave the same index. */
  lemma IndexAfterWrite(peers: map<Key, Peer>, key: Key, peer: Peer)
    requires key in peers ==> peer == peers[key]
    ensures InsertIfAbsent(peers, key, peer) == (peers - {key})[key := peer]
    ensures key in peers ==> peers == (peers - {key})[key := peer]
  {
  }

  /** A written peer goes to the back of the list, and into the index if it was not there. */
  lemma Rejoined(others: seq<Peer>, peers: map<Key, Peer>, rest: seq<Entry>, key: Key, peer: Peer)
    requires Mirrors(others, rest) && Indexes(others, peers - {key}, rest)
    requires peer.Value().Key() == key && (key in peers ==> peer == peers[key])
    ensures Mirrors(others + [peer], rest + [peer.Value()])
    ensures Indexes(others + [peer], if key in peers then peers else InsertIfAbsent(peers, key, peer),
                    rest + [peer.Value()])
  {
    IndexAfterWrite(peers, key, peer);
    MirrorsAppend(others, rest, peer);
    IndexesAppend(others, peers - {key}, rest, peer, peer.Value());
  }

  class Torrent {
    const options: Options
    const infoHash: InfoHash

    var timeouts: seq<Peer>
    var peers: map<Key, Peer>
    var leechers: uint32
    var seeders: uint32
    var completed: uint32

    /** The values of the peers in `timeouts`. */
    ghost var list: seq<Entry>

    ghost predicate Linked()
      reads this, timeouts
    {
      Mirrors(timeouts, list) && Indexes(timeouts, peers, list)
    }

    /** The counters are exact. */
    ghost predicate Counted()
      reads this
    {
      seeders == Seeders(list) && leechers == Leechers(list)
    }

    ghost predicate Valid()
      reads this, timeouts
    {
      options.Valid() && Linked() && Counted() && Owned() && |list| <= options.maxPeers
    }

    /** The torrent and its peers are among some set of objects. */
    ghost predicate Within(objects: set<object>)
      reads this
    {
      this in objects && forall p :: p in timeouts ==> p in objects
    }

    ghost predicate Owned()
      reads this
    {
      forall p :: p in timeouts ==> p.home == this
    }

    ghost function Swarm(): Swarm
      reads this
    {
      Swarms.Swarm(list, completed)
    }

    constructor (options: Options, infoHash: InfoHash)
      requires options.Valid()
      ensures Valid() && this.options == options && this.infoHash == infoHash
      ensures Swarm() == EMPTY_SWARM && timeouts == []
    {
      this.options, this.infoHash := options, infoHash;
      timeouts, peers, leechers, seeders, completed := [], map[], 0, 0, 0;
      list := [];
    }

    /** One peer fewer in the counters; the decrement is from a positive value. */
    method Uncount(left: uint64)
      requires if left == 0 then seeders > 0 else leechers > 0
      modifies `seeders, `leechers
      ensures seeders == old(seeders) - (if left == 0 then 1 else 0)
      ensures leechers == old(leechers) - (if left == 0 then 0 else 1)
    {
      if left == 0 {
        seeders := Decrement(seeders);
      } else {
        leechers := Decrement(leechers);
      }
    }

    /** One peer more in the counters; the increment does not wrap. */
    method Count(left: uint64)
      requires seeders + leechers < WRAP32 - 1
      modifies `seeders, `leechers
      ensures seeders == old(seeders) + (if left == 0 then 1 else 0)
      ensures leechers == old(leechers) + (if left == 0 then 0 else 1)
    {
      if left == 0 {
        seeders := Increment(seeders);
      } else {
        leechers := Increment(leechers);
      }
    }

    /** The peer leaves list, index and counters. */
    method RemovePeer(peer: Peer)
      requires Linked() && Counted()
      requires Lookup(peers, peer.addr.Key()) == peer
      modifies this
      ensures Linked() && Counted()
      ensures list == Without(old(list), peer.addr.Key())
      ensures completed == old(completed)
      ensures forall p :: p in timeouts ==> p in old(timeouts)
    {
      hide Mirrors, Indexes, Seeders, Leechers, Without, Erase;
      ghost var timeouts0, peers0, list0 := timeouts, peers, list;
      CountersSetAside(timeouts, peers, list, peer.addr.Key());

      Uncount(peer.left);
      timeouts := Erase(timeouts, peer);
      peers := peers - {peer.addr.Key()};

      list := Without(list, peer.addr.Key());
      assert Mirrors(timeouts0, list0);
      SetAside(timeouts0, peers0, list0, peer.addr.Key());
      EraseMembers(timeouts0, peer);
    }

    /** A new timeout, and the back of the list. */
    method UpdateTimeout(peer: Peer, remove: bool, now: int)
      modifies `timeouts, peer`timeoutTs
      ensures timeouts == (if remove then Erase(old(timeouts), peer) else old(timeouts)) + [peer]
      ensures peer.timeoutTs == options.Expiry(now)
    {
      if remove {
        timeouts := Erase(timeouts, peer);
      }
      peer.timeoutTs := options.Expiry(now);
      timeouts := timeouts + [peer];
    }
  
    /** The writes of `CreateOrUpdatePeer`, on counters, peer, index and list. */
    method WritePeer(r: Request, found: Peer?, now: int) returns (peer: Peer)
      requires found != null ==> found.home == this && if found.left == 0 then seeders > 0 else leechers > 0
      requires seeders + leechers < WRAP32 - 1
      modifies `timeouts, `peers, `seeders, `leechers, if found == null then {} else {found}
      ensures if found == null then fresh(peer) && peer.home == this else peer == found
      ensures peer.Value() == EntryOf(options, r, now)
      ensures old(Owned()) ==> Owned()
      ensures forall p :: p in timeouts ==> p in old(timeouts) || p == peer
      ensures timeouts == Others(old(timeouts), found) + [peer]
      ensures peers == if found == null then InsertIfAbsent(old(peers), r.addr.Key(), peer) else old(peers)
      ensures seeders == old(seeders) - (if found != null && old(found.left) == 0 then 1 else 0)
                                      + (if r.left == 0 then 1 else 0)
      ensures leechers == old(leechers) - (if found != null && old(found.left) > 0 then 1 else 0)
                                        + (if r.left > 0 then 1 else 0)
    {
      if found != null {
        Uncount(found.left);
        peer := found;
      } else {
        peer := new Peer(r.addr, this);
      }
      peer.Fill(r);
      Count(peer.left);
      if found == null {
        peers := InsertIfAbsent(peers, peer.addr.Key(), peer);
      }
      UpdateTimeout(peer, found != null, now);
      EraseMembers(old(timeouts), peer);
    }

    /** Creates the requester's peer or updates the one found, and moves it to the back. */
    method CreateOrUpdatePeer(r: Request, found: Peer?, now: int) returns (peer: Peer)
      requires Valid() && found == Lookup(peers, r.addr.Key())
      modifies this, timeouts
      ensures Linked() && Counted()
      ensures list == Joined(options, old(list), r, now)
      ensures completed == old(completed)
      ensures Owned() && forall p :: p in timeouts ==> p in old(timeouts) || fresh(p)
    {
      hide Mirrors, Indexes, Seeders, Leechers, Without, Erase, EntryOf, Peer.Value;
      hide Filter, Others, InsertIfAbsent, Joined, Touched;
      ghost var key := r.addr.Key();
      ghost var others, rest := Others(timeouts, found), Without(list, key);
      ghost var e := EntryOf(options, r, now);
      CountersSetAside(timeouts, peers, list, key);
      SetAside(timeouts, peers, list, key);
      CountersAddUp(list);
      EntryFields(options, list, r, now);

      peer := WritePeer(r, found, now);
      assert Mirrors(others, rest);
      Relist(others, old(peers), rest, key, peer);
    }

    /** Bookkeeping: the written peer is listed behind the others. */
    ghost method Relist(others: seq<Peer>, peers0: map<Key, Peer>, rest: seq<Entry>, key: Key, peer: Peer)
      requires Mirrors(others, rest) && Indexes(others, peers0 - {key}, rest)
      requires peer.Value().Key() == key && (key in peers0 ==> peer == peers0[key])
      requires timeouts == others + [peer]
      requires peers == if key in peers0 then peers0 else InsertIfAbsent(peers0, key, peer)
      requires seeders == Seeders(rest) + (if peer.Value().left == 0 then 1 else 0)
      requires leechers == Leechers(rest) + (if peer.Value().left > 0 then 1 else 0)
      modifies `list
      ensures Linked() && Counted() && list == rest + [peer.Value()]
    {
      hide Mirrors, Indexes, Seeders, Leechers, InsertIfAbsent;
      list := rest + [peer.Value()];
      Rejoined(others, peers0, rest, key, peer);
      CountersAppend(rest, peer.Value());
    }
  
    /** The loop over the list from its back, with its early exit. */
    method SelectPeers(r: Request, numWant: nat) returns (addrs: seq<Address>)
      requires Mirrors(timeouts, list)
      ensures addrs == Selected(list, r, numWant)
    {
      hide Selected, Collected;
      addrs := [];
      var j := |timeouts|;
      NothingCollected(list, r);
      while j > 0
        invariant 0 <= j <= |timeouts|
        invariant addrs == Collected(list, r, j)
        invariant |addrs| <= numWant
      {
        if |addrs| >= numWant {
          break;
        }
        j := j - 1;
        var it := timeouts[j];
        CollectedStep(list, r, j);
        assert it.Value() == list[j];
        if ((r.addr.family.Inet? || r.skipIpv6) && it.addr.family.Inet6?)
           || it.peerid == r.peerid || r.addr.Equals(it.addr) {
          continue;
        }
        addrs := addrs + [it.addr];
      }
      StoppedWalk(list, r, numWant, j);
    }
  
    method Announce(r: Request, now: int) returns (reply: Reply)
      requires Valid()
      modifies this, timeouts
      ensures Valid()
      ensures Swarm() == Announced(options, old(Swarm()), r, now)
      ensures reply == Reply(Leechers(old(list)), Seeders(old(list)), old(completed),
                             RepliedAddresses(options, old(list), r, now))
      ensures forall p :: p in timeouts ==> p in old(timeouts) || fresh(p)
    {
      hide Mirrors, Indexes, Seeders, Leechers, Without, Joined, Selected, Completes;
      ghost var list0 := list;
      reply := Reply(leechers, seeders, completed, []);
      var found := Lookup(peers, r.addr.Key());
      FoundMeansTracked(timeouts, peers, list, r);
      CountersSetAside(timeouts, peers, list, r.addr.Key());
      SetAsideSize(timeouts, peers, list, r.addr.Key());

      if found != null && found.left > 0 && r.left == 0 && r.kind.Completed? {
        completed := Increment(completed);
      }
      if r.kind.Stopped? {
        if found != null {
          RemovePeer(found);
        }
        return;
      }
      var _ := CreateOrUpdatePeer(r, found, now);
      JoinedSize(options, list0, r, now);
      var addrs := SelectPeers(r, options.ClampNumwant(r.numWant));
      reply := reply.(addrs := addrs);
      CountersAddUp(list);
      if (leechers + seeders) % WRAP32 > options.maxPeers {
        FrontIsIndexed(timeouts, peers, list);
        RemovePeer(timeouts[0]);
      }
    }

    method Cleanup(now: int)
      requires Valid()
      modifies this
      ensures Valid()
      ensures Swarm() == CleanedUp(old(Swarm()), now)
      ensures forall p :: p in timeouts ==> p in old(timeouts)
    {
      while timeouts != []
        invariant Valid()
        invariant DropExpired(list, now) == DropExpired(old(list), now)
        invariant completed == old(completed)
        invariant forall p :: p in timeouts ==> p in old(timeouts)
        decreases |timeouts|
      {
        var peer := timeouts[0];
        FrontIsIndexed(timeouts, peers, list);
        if peer.timeoutTs > now {
          return;
        }
        RemovePeer(peer);
      }
    }
  }

  /** No peer belongs to two torrents. */
  lemma NeverShared(a: Torrent, b: Torrent)
    requires a.Valid() && b.Valid() && a != b
    ensures forall i, j :: 0 <= i < |a.timeouts| && 0 <= j < |b.timeouts| ==> a.timeouts[i] != b.timeouts[j]
  {
    forall i, j | 0 <= i < |a.timeouts| && 0 <= j < |b.timeouts| ensures a.timeouts[i] != b.timeouts[j] {
      assert a.timeouts[i].home == a && b.timeouts[j].home == b;
    }
  }

  /** A valid torrent's counters fit 32 bits. */
  lemma CountersFit(t: Torrent)
    requires t.Valid()
    ensures |t.list| < WRAP32 && t.leechers == Leechers(t.list) && t.seeders == Seeders(t.list)
  {
  }
}

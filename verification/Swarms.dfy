/**
 The state of one torrent's swarm as a value, and what one announce or one cleanup
 does to it.  The tracked peers form a list, least recently announced first.
 */
module Swarms {
  import opened Bytes
  import opened Sequences
  import opened Addresses

  // --------------------------------------------------------------------- the data

  /** Time is a signed 64-bit count of nanoseconds on a monotonic clock. */
  const MILLISECOND: nat := 1_000_000
  const SECOND: nat := 1000 * MILLISECOND
  const MINUTE: nat := 60 * SECOND

  type PeerId = s: seq<byte> | |s| == 20 witness Zeroes(20)

  datatype AnnounceKind = Plain | Started | Completed | Stopped

  /** The part of an announce request that reaches a torrent. */
  datatype Request = Request(
    peerid: PeerId,
    numWant: uint32,
    kind: AnnounceKind,
    downloaded: uint64,
    uploaded: uint64,
    left: uint64,
    addr: Address,
    skipIpv6: bool)

  /** A tracked peer. */
  datatype Entry = Entry(
    addr: Address,
    left: uint64,
    downloaded: uint64,
    uploaded: uint64,
    timeoutTs: int,
    peerid: PeerId)
  {
    function Key(): Key { addr.Key() }
  }

  /** The command line options a torrent reads. */
  datatype Options = Options(
    maxPeers: uint32,
    minNumwant: uint32,
    maxNumwant: uint32,
    announceInterval: uint32,
    scrapeInterval: uint32)
  {
    /**
     `std::clamp<int>` demands ordered bounds that are `int`s, and the 32-bit sum of
     the counters may reach one more than the capacity.
     */
    ghost predicate Valid() {
      minNumwant <= maxNumwant < 0x8000_0000 && maxPeers < WRAP32 - 1
    }

    /** Lifetime of a peer that stays silent: 32-bit minutes, times nanoseconds in 64 bits. */
    function Lifetime(): int {
      AsInt64(MINUTE * ((announceInterval + 5) % WRAP32))
    }

    /** When a peer that announces now expires: a 64-bit sum. */
    function Expiry(now: int): int {
      AsInt64(now + Lifetime())
    }

    /** The interval told to peers, in seconds, also 32-bit. */
    function AdvertisedInterval(): uint32 {
      (announceInterval * 60) % WRAP32
    }

    /** `std::clamp<int>(numWant, MIN_NUMWANT, MAX_NUMWANT)`. */
    function ClampNumwant(numWant: uint32): uint32 {
      var want := AsInt32(numWant);
      if want < minNumwant then minNumwant else if want > maxNumwant then maxNumwant else want
    }
  }

  /**
   The tracked peers and the 32-bit count of downloads that completed.  The seeder and
   leecher counters are not part of the value: they are counts over the list.
   */
  datatype Swarm = Swarm(list: seq<Entry>, completed: uint32)

  const EMPTY_SWARM := Swarm([], 0)

  // --------------------------------------------------------- predicates on entries

  predicate IsSeeder(e: Entry) { e.left == 0 }

  predicate IsLeecher(e: Entry) { e.left > 0 }

  function NotKeyed(key: Key): Entry -> bool {
    (e: Entry) => e.Key() != key
  }

  function AliveAt(now: int): Entry -> bool {
    (e: Entry) => e.timeoutTs > now
  }

  function Seeders(list: seq<Entry>): nat { |Filter(list, IsSeeder)| }

  function Leechers(list: seq<Entry>): nat { |Filter(list, IsLeecher)| }

  // ---------------------------------------------------------- invariants of a list

  ghost predicate Distinct(list: seq<Entry>) {
    forall i, j :: 0 <= i < j < |list| ==> list[i].Key() != list[j].Key()
  }

  ghost predicate Sorted(list: seq<Entry>) {
    forall i, j :: 0 <= i < j < |list| ==> list[i].timeoutTs <= list[j].timeoutTs
  }

  function Keys(list: seq<Entry>): set<Key> {
    set i | 0 <= i < |list| :: list[i].Key()
  }

  // -------------------------------------------------------------------- operations

  function Without(list: seq<Entry>, key: Key): seq<Entry> {
    Filter(list, NotKeyed(key))
  }

  function IndexOf(list: seq<Entry>, key: Key): (i: nat)
    ensures i <= |list|
    ensures i < |list| ==> list[i].Key() == key
    ensures forall j :: 0 <= j < i ==> list[j].Key() != key
  {
    if list == [] || list[0].Key() == key then 0 else 1 + IndexOf(list[1..], key)
  }

  predicate Tracks(list: seq<Entry>, key: Key) {
    IndexOf(list, key) < |list|
  }

  function EntryOf(o: Options, r: Request, now: int): Entry {
    Entry(r.addr, r.left, r.downloaded, r.uploaded, o.Expiry(now), r.peerid)
  }

  /** The entry moves to the back of the list, with fresh fields. */
  function Touched(list: seq<Entry>, e: Entry): seq<Entry> {
    Without(list, e.Key()) + [e]
  }

  /** Over capacity, the front of the list goes. */
  function Evicted(list: seq<Entry>, maxPeers: nat): seq<Entry> {
    if |list| > maxPeers then list[1..] else list
  }

  /** The scan of `cleanup`: drop from the front, stop at the first live peer. */
  function DropExpired(list: seq<Entry>, now: int): seq<Entry> {
    if list == [] || list[0].timeoutTs > now then list else DropExpired(list[1..], now)
  }

  function CleanedUp(s: Swarm, now: int): Swarm {
    s.(list := DropExpired(s.list, now))
  }

  /** The announce turns a tracked leecher into a seeder and says so. */
  predicate Completes(list: seq<Entry>, r: Request) {
    && Tracks(list, r.addr.Key())
    && list[IndexOf(list, r.addr.Key())].left > 0
    && r.left == 0
    && r.kind.Completed?
  }

  /** The list right after the requester was added or moved, before any eviction. */
  function Joined(o: Options, list: seq<Entry>, r: Request, now: int): seq<Entry> {
    Touched(list, EntryOf(o, r, now))
  }

  function Announced(o: Options, s: Swarm, r: Request, now: int): Swarm {
    Swarm(
      if r.kind.Stopped? then Without(s.list, r.addr.Key())
      else Evicted(Joined(o, s.list, r, now), o.maxPeers),
      if Completes(s.list, r) then Increment(s.completed) else s.completed)
  }

  // ---------------------------------------------------------------- peer selection

  /** Which tracked peers may be told to a requester. */
  predicate MayTell(r: Request, e: Entry) {
    && !((r.addr.family.Inet? || r.skipIpv6) && e.addr.family.Inet6?)
    && e.peerid != r.peerid
    && !r.addr.Equals(e.addr)
  }

  function Eligible(r: Request): Entry -> bool {
    (e: Entry) => MayTell(r, e)
  }

  function AddressesOf(list: seq<Entry>): (a: seq<Address>)
    ensures |a| == |list|
    ensures forall i :: 0 <= i < |a| ==> a[i] == list[i].addr
  {
    seq(|list|, i requires 0 <= i < |list| => list[i].addr)
  }

  /** The first `n` entries of some kind, counting from the back of the list. */
  function LastOf(list: seq<Entry>, p: Entry -> bool, n: nat): seq<Address> {
    AddressesOf(Take(Filter(Reverse(list), p), n))
  }

  function Selected(list: seq<Entry>, r: Request, n: nat): seq<Address> {
    LastOf(list, Eligible(r), n)
  }

  /** What a torrent answers; the counters are those before the request took effect. */
  datatype Reply = Reply(leechers: uint32, seeders: uint32, completed: uint32, addrs: seq<Address>)

  function RepliedAddresses(o: Options, list: seq<Entry>, r: Request, now: int): seq<Address> {
    if r.kind.Stopped? then []
    else Selected(Joined(o, list, r, now), r, o.ClampNumwant(r.numWant))
  }

  // -------------------------------------------------------------------------- runs

  /** One operation on a torrent, with the clock value it reads. */
  datatype Event =
    | Announce(r: Request, now: int)
    | Cleanup(now: int)
  {
    predicate Mentions(key: Key) { Announce? && r.addr.Key() == key }

    /** A non-stopping announce. */
    predicate Joins() { Announce? && !r.kind.Stopped? }
  }

  function Step(o: Options, s: Swarm, ev: Event): Swarm {
    match ev
    case Announce(r, now) => Announced(o, s, r, now)
    case Cleanup(now) => CleanedUp(s, now)
  }

  /** The state after a history of operations on a new torrent. */
  function Run(o: Options, history: seq<Event>): Swarm {
    if history == [] then EMPTY_SWARM
    else Step(o, Run(o, history[..|history| - 1]), history[|history| - 1])
  }

  /** The clock never goes back. */
  ghost predicate Nondecreasing(history: seq<Event>) {
    forall i, j :: 0 <= i < j < |history| ==> history[i].now <= history[j].now
  }

  /** The clock never goes back, and its readings leave room for a lifetime in 64 bits. */
  ghost predicate Timely(o: Options, history: seq<Event>) {
    && Nondecreasing(history)
    && forall i :: 0 <= i < |history| && history[i].Announce? ==> IsInt64(history[i].now + o.Lifetime())
  }
}

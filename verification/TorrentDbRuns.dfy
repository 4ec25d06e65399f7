/**
 Runs of the torrent database: each torrent lives its own life, untouched by requests
 for others, from the addition that created it to its removal.
 */
module TorrentDbRuns {
  import opened Bytes
  import opened Sequences
  import opened InfoHashes
  import opened Swarms
  import opened SwarmLists
  import opened SwarmRuns
  import opened SwarmHistory
  import opened SwarmPromises
  import opened TorrentDbs

  /** An operation on the database; additions bring new torrents. */
  datatype DbEvent =
    | Add(hash: InfoHash)
    | Remove(key: HashKey)
    | Ask(hash: InfoHash, r: Request, now: int)
    | Sweep(clock: HashKey -> int)

  ghost function DbStep(o: Options, db: Db, ev: DbEvent): Db {
    match ev
    case Add(hash) => InsertIfAbsent(db, hash.TorrentKey(), EMPTY_SWARM)
    case Remove(key) => db - {key}
    case Ask(hash, r, now) => DbAnnounced(o, db, hash, r, now)
    case Sweep(clock) => DbSwept(db, clock)
  }

  ghost function DbRun(o: Options, history: seq<DbEvent>): Db {
    if |history| == 0 then map[]
    else DbStep(o, DbRun(o, history[..|history| - 1]), history[|history| - 1])
  }

  /**
   The life of the torrent under one key, read off the history: nothing while there is
   none; from the first addition on, the announces for its key and the sweeps; nothing
   again after a removal.
   */
  ghost function Life(history: seq<DbEvent>, key: HashKey): Option<seq<Event>> {
    if |history| == 0 then None
    else
      var before := Life(history[..|history| - 1], key);
      match history[|history| - 1]
      case Add(hash) => if hash.TorrentKey() == key && before.None? then Some([]) else before
      case Remove(removed) => if removed == key then None else before
      case Ask(hash, r, now) =>
        if hash.Significant() == key then Extended(before, Announce(r, now)) else before
      case Sweep(clock) => Extended(before, Cleanup(clock(key)))
  }

  /** What the database holds under `key`, as an option. */
  ghost predicate Holding(o: Options, db: Db, key: HashKey, life: Option<seq<Event>>) {
    && (key in db <==> life.Some?)
    && (key in db ==> db[key] == Run(o, life.value))
  }

  function Extended(life: Option<seq<Event>>, ev: Event): Option<seq<Event>> {
    if life.Some? then Some(life.value + [ev]) else None
  }

  lemma AskKeepsHolding(o: Options, db: Db, key: HashKey, life: Option<seq<Event>>, r: Request, now: int)
    requires Holding(o, db, key, life)
    ensures Holding(o, if key in db then db[key := Announced(o, db[key], r, now)] else db, key,
                    Extended(life, Announce(r, now)))
  {
    hide Run, Announced;
    if life.Some? {
      RunAppend(o, life.value, Announce(r, now));
    }
  }

  lemma SweepKeepsHolding(o: Options, db: Db, key: HashKey, life: Option<seq<Event>>, clock: HashKey -> int)
    requires Holding(o, db, key, life)
    ensures Holding(o, DbSwept(db, clock), key, Extended(life, Cleanup(clock(key))))
  {
    hide Run, CleanedUp;
    if life.Some? {
      RunAppend(o, life.value, Cleanup(clock(key)));
    }
  }

  lemma StepKeepsHolding(o: Options, history: seq<DbEvent>, db: Db, key: HashKey)
    requires |history| > 0
    requires Holding(o, db, key, Life(history[..|history| - 1], key))
    ensures Holding(o, DbStep(o, db, history[|history| - 1]), key, Life(history, key))
  {
    hide Run, Announced, DbSwept;
    var life := Life(history[..|history| - 1], key);
    match history[|history| - 1]
    case Add(hash) => NothingYet(o);
    case Remove(removed) =>
    case Ask(hash, r, now) =>
      if hash.Significant() == key {
        AskKeepsHolding(o, db, key, life, r, now);
      }
    case Sweep(clock) =>
      SweepKeepsHolding(o, db, key, life, clock);
  }

  lemma NothingYet(o: Options)
    ensures Run(o, []) == EMPTY_SWARM
  {
  }

  /**
   A run of the database is the runs of its torrents, side by side: under every key sits
   exactly the torrent whose life the history tells, in the state of that life alone.
   */
  lemma {:induction false} DbRunIsItsLives(o: Options, history: seq<DbEvent>, key: HashKey)
    ensures key in DbRun(o, history) <==> Life(history, key).Some?
    ensures key in DbRun(o, history) ==> DbRun(o, history)[key] == Run(o, Life(history, key).value)
  {
    if |history| > 0 {
      DbRunIsItsLives(o, history[..|history| - 1], key);
      StepKeepsHolding(o, history, DbRun(o, history[..|history| - 1]), key);
    }
  }

  /** So every torrent of a database keeps the invariants of a torrent. */
  lemma DbRunWellFormed(o: Options, history: seq<DbEvent>, key: HashKey)
    requires key in DbRun(o, history)
    ensures WellFormed(o, DbRun(o, history)[key].list)
  {
    DbRunIsItsLives(o, history, key);
    RunWellFormed(o, Life(history, key).value);
  }

  /** The clock reading an operation makes for the torrent under `key`, if it makes one. */
  ghost function Reading(ev: DbEvent, key: HashKey): Option<int> {
    match ev
    case Ask(_, _, now) => Some(now)
    case Sweep(clock) => Some(clock(key))
    case _ => None
  }

  /**
   The readings for one torrent never go back, and those of its announces leave room for
   a lifetime in 64 bits.
   */
  ghost predicate ClockForward(o: Options, history: seq<DbEvent>, key: HashKey) {
    && (forall i, j :: 0 <= i < j < |history| && Reading(history[i], key).Some? && Reading(history[j], key).Some?
          ==> Reading(history[i], key).value <= Reading(history[j], key).value)
    && (forall i :: 0 <= i < |history| && history[i].Ask? ==> IsInt64(history[i].now + o.Lifetime()))
  }

  /** Every time in a life was read by some operation of the history, an announce's by a request. */
  lemma {:induction false} LifeTimesWereRead(history: seq<DbEvent>, key: HashKey, e: Event)
    requires Life(history, key).Some? && e in Life(history, key).value
    ensures exists i :: 0 <= i < |history| && Reading(history[i], key) == Some(e.now)
                        && (e.Announce? ==> history[i].Ask?)
  {
    var before, n := history[..|history| - 1], |history| - 1;
    var life := Life(before, key);
    if life.Some? && e in life.value {
      LifeTimesWereRead(before, key, e);
      var i :| 0 <= i < |before| && Reading(before[i], key) == Some(e.now) && (e.Announce? ==> before[i].Ask?);
      assert history[i] == before[i];
    } else {
      assert Reading(history[n], key) == Some(e.now);
    }
  }

  lemma {:induction false} LifeIsNondecreasing(o: Options, history: seq<DbEvent>, key: HashKey)
    requires ClockForward(o, history, key) && Life(history, key).Some?
    ensures Nondecreasing(Life(history, key).value)
  {
    var before, n := history[..|history| - 1], |history| - 1;
    var life := Life(before, key);
    assert forall i :: 0 <= i < n ==> before[i] == history[i];
    if life.Some? {
      LifeIsNondecreasing(o, before, key);
      forall e | e in life.value && Reading(history[n], key).Some?
        ensures e.now <= Reading(history[n], key).value
      {
        LifeTimesWereRead(before, key, e);
      }
    }
  }

  lemma LifeIsTimely(o: Options, history: seq<DbEvent>, key: HashKey)
    requires ClockForward(o, history, key) && Life(history, key).Some?
    ensures Timely(o, Life(history, key).value)
  {
    hide Options.Lifetime;
    var life := Life(history, key).value;
    LifeIsNondecreasing(o, history, key);
    forall i | 0 <= i < |life| && life[i].Announce? ensures IsInt64(life[i].now + o.Lifetime()) {
      LifeTimesWereRead(history, key, life[i]);
    }
  }

  /**
   The history theorem, for a torrent in a database: what it tracks is what survives of
   its own life, whatever happened to other torrents in between.
   */
  lemma DbTorrentRefinesItsLife(o: Options, history: seq<DbEvent>, key: HashKey)
    requires key in DbRun(o, history) && ClockForward(o, history, key)
    ensures Life(history, key).Some?
    ensures var life := Life(history, key).value;
            DbRun(o, history)[key].list == Survivors(o, life, 0, |life|)
  {
    DbRunIsItsLives(o, history, key);
    LifeIsTimely(o, history, key);
    RunRefinesHistory(o, Life(history, key).value);
  }

  // ------------------------------------------------------- keys, and what reaches them

  /**
   First insertion wins: adding a torrent whose key is taken leaves the database as it
   is.  A version 2 hash takes the key of the version 1 hash made of its first 20 bytes,
   whichever comes first, and that version 1 hash then finds the torrent.
   */
  lemma FirstInsertionWins(o: Options, history: seq<DbEvent>, bytes: seq<byte>, v1First: bool)
    requires |bytes| == V2_SIZE
    ensures var v1, v2 := MakeInfoHash(Sha1, bytes[..V1_SIZE]), MakeInfoHash(Sha256, bytes);
            var first, second := if v1First then v1 else v2, if v1First then v2 else v1;
            var once := DbRun(o, history + [Add(first)]);
            && DbRun(o, history + [Add(first), Add(second)]) == once
            && v1.Significant() in once
            && (v1.Significant() in DbRun(o, history) ==> once == DbRun(o, history))
            && v2.Significant() != v1.Significant()
  {
    var v1, v2 := MakeInfoHash(Sha1, bytes[..V1_SIZE]), MakeInfoHash(Sha256, bytes);
    var first, second := if v1First then v1 else v2, if v1First then v2 else v1;
    KeyTruncates(bytes);
    assert v1.Significant() == bytes[..V1_SIZE];
    DbRunAppend(o, history, Add(first));
    DbRunAppend(o, history + [Add(first)], Add(second));
    assert history + [Add(first), Add(second)] == (history + [Add(first)]) + [Add(second)];
  }

  lemma DbRunAppend(o: Options, history: seq<DbEvent>, ev: DbEvent)
    ensures DbRun(o, history + [ev]) == DbStep(o, DbRun(o, history), ev)
  {
    assert (history + [ev])[..|history|] == history;
  }

  /** An announce changes at most the torrent it finds, and never the set of keys. */
  lemma AnnounceIsFramed(o: Options, db: Db, hash: InfoHash, r: Request, now: int, other: HashKey)
    ensures DbAnnounced(o, db, hash, r, now).Keys == db.Keys
    ensures other in db && other != hash.Significant() ==> DbAnnounced(o, db, hash, r, now)[other] == db[other]
    ensures hash.Significant() !in db ==> DbAnnounced(o, db, hash, r, now) == db
  {
    assert hash.Significant() in db ==> db.Keys + {hash.Significant()} == db.Keys;
  }

  /**
   What an announce is answered.  For a hash that finds nothing, "torrent not found".  For
   one that finds a torrent: an interval that, in clock units and with the grace, is the
   very patience the tracking promises speak of, and is the configured minutes in seconds
   unless those wrap; the counts of the torrent before the request; and its peers.
   */
  lemma AnswerTells(o: Options, db: Db, hash: InfoHash, r: Request, now: int)
    requires Fits(db)
    ensures var answer := Answered(o, db, hash, r, now);
            && (hash.Significant() !in db ==> answer == Refused("torrent not found"))
            && (hash.Significant() in db ==>
                  && var s := db[hash.Significant()];
                  && answer.Granted?
                  && answer.interval * SECOND + GRACE == Patience(o)
                  && (o.announceInterval * 60 < WRAP32 ==> answer.interval * SECOND == o.announceInterval * MINUTE)
                  && answer.reply.seeders == Seeders(s.list) && answer.reply.leechers == Leechers(s.list)
                  && answer.reply.completed == s.completed
                  && answer.reply.addrs == RepliedAddresses(o, s.list, r, now))
  {
    hide RepliedAddresses, Seeders, Leechers;
    if hash.Significant() in db {
      CountsAre(db[hash.Significant()], RepliedAddresses(o, db[hash.Significant()].list, r, now));
    }
  }

  /** All torrents were added with a version 1 or version 2 hash. */
  ghost predicate AllTyped(history: seq<DbEvent>) {
    forall i :: 0 <= i < |history| && history[i].Add? ==> !history[i].hash.kind.NoType?
  }

  /** Then every key has 20 bytes. */
  lemma {:induction false} KeysAreTwentyBytes(o: Options, history: seq<DbEvent>, key: HashKey)
    requires AllTyped(history) && key in DbRun(o, history)
    ensures |key| == V1_SIZE
  {
    if |history| > 0 {
      var before, ev := history[..|history| - 1], history[|history| - 1];
      assert forall i :: 0 <= i < |before| ==> before[i] == history[i];
      if key in DbRun(o, before) {
        KeysAreTwentyBytes(o, before, key);
      } else {
        assert ev.Add? && key == ev.hash.TorrentKey();
        KeySize(ev.hash);
      }
    }
  }

  /**
   Hence a hash finds a torrent only if it is a version 1 hash: one whose type was never
   set has no significant byte, and a version 2 hash has twelve too many.
   */
  lemma OnlyVersion1HashesFind(o: Options, history: seq<DbEvent>, hash: InfoHash)
    requires AllTyped(history) && hash.Significant() in DbRun(o, history)
    ensures hash.kind.Sha1?
  {
    KeysAreTwentyBytes(o, history, hash.Significant());
  }

  // -------------------------------------------------------------------------- scrapes

  function TrackedIn(db: Db): InfoHash -> bool {
    (h: InfoHash) => h.Significant() in db
  }

  /** The items of a scrape are those of the tracked hashes, in the order asked. */
  lemma {:induction false} ScrapedAreTheTracked(db: Db, hashes: seq<InfoHash>)
    ensures var known := Filter(hashes, TrackedIn(db));
            && |Scraped(db, hashes)| == |known|
            && forall i :: 0 <= i < |known| ==>
                 known[i].Significant() in db && Scraped(db, hashes)[i] == Item(db[known[i].Significant()], known[i])
  {
    hide Item;
    if hashes != [] {
      var before, last := hashes[..|hashes| - 1], hashes[|hashes| - 1];
      ScrapedAreTheTracked(db, before);
      assert hashes == before + [last];
      FilterConcat(before, [last], TrackedIn(db));
      assert Filter([last], TrackedIn(db)) == if last.Significant() in db then [last] else [];
    }
  }

  /** There is one item per hash asked exactly when all of them are tracked. */
  lemma ScrapeIsAligned(db: Db, hashes: seq<InfoHash>)
    ensures |Scraped(db, hashes)| == |hashes| <==> forall h :: h in hashes ==> h.Significant() in db
    ensures |Scraped(db, hashes)| == |hashes| ==>
              forall i :: 0 <= i < |hashes| ==>
                hashes[i].Significant() in db && Scraped(db, hashes)[i] == Item(db[hashes[i].Significant()], hashes[i])
  {
    ScrapedAreTheTracked(db, hashes);
    if forall h :: h in hashes ==> h.Significant() in db {
      FilterAll(hashes, TrackedIn(db));
    } else {
      var h :| h in hashes && h.Significant() !in db;
      FilterMisses(hashes, TrackedIn(db), h);
    }
  }

  /**
   Where the item of a tracked hash ends up: behind those of the tracked hashes asked
   before it.  That is the position of the hash itself exactly when all of those are.
   */
  lemma ScrapePlaces(db: Db, hashes: seq<InfoHash>, i: nat)
    requires i < |hashes| && hashes[i].Significant() in db
    ensures var place := |Filter(hashes[..i], TrackedIn(db))|;
            && place < |Scraped(db, hashes)|
            && Scraped(db, hashes)[place] == Item(db[hashes[i].Significant()], hashes[i])
            && Scraped(db, hashes)[place].hash == hashes[i]
            && (place == i <==> forall h :: h in hashes[..i] ==> h.Significant() in db)
  {
    hide Scraped;
    var p, before, rest := TrackedIn(db), hashes[..i], hashes[i + 1..];
    assert hashes == before + ([hashes[i]] + rest);
    FilterConcat(before, [hashes[i]] + rest, p);
    assert Filter([hashes[i]] + rest, p)[0] == hashes[i];
    ScrapedAreTheTracked(db, hashes);
    if forall h :: h in before ==> h.Significant() in db {
      FilterAll(before, p);
    } else {
      var h :| h in before && h.Significant() !in db;
      FilterMisses(before, p, h);
    }
  }

  lemma {:induction false} FilterMisses<T(!new)>(s: seq<T>, p: T -> bool, x: T)
    requires x in s && !p(x)
    ensures |Filter(s, p)| < |s|
  {
    if s[0] != x {
      FilterMisses(s[1..], p, x);
    }
  }
}

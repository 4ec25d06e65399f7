/**
 What peers and operators may rely on, drawn from the history theorem: who is
 tracked, who is dropped first, how stale a tracked peer can be.
 */
module SwarmPromises {
  import opened Bytes
  import opened Addresses
  import opened Swarms
  import opened SwarmLists
  import opened SwarmRuns
  import opened SwarmHistory
  import opened SwarmSelection

  // ------------------------------------------------------------ tracked and survived

  lemma {:induction false} SurvivorsEntries(o: Options, history: seq<Event>, a: nat, b: nat, e: Entry)
    requires a <= b <= |history|
    ensures e in Survivors(o, history, a, b) <==>
            exists i :: a <= i < b && Survives(o, history, i) && EntryAt(o, history, i) == e
    decreases b - a
  {
    if a < b {
      SurvivorsEntries(o, history, a + 1, b, e);
      if i :| a <= i < b && Survives(o, history, i) && EntryAt(o, history, i) == e {
        assert i == a || a + 1 <= i < b;
      }
    }
  }

  /** A tracked entry is the entry of a surviving announce, and the other way round. */
  lemma TrackedIffSurvived(o: Options, history: seq<Event>, e: Entry)
    requires Timely(o, history)
    ensures e in Run(o, history).list <==>
            exists i :: 0 <= i < |history| && Survives(o, history, i) && EntryAt(o, history, i) == e
  {
    RunRefinesHistory(o, history);
    SurvivorsEntries(o, history, 0, |history|, e);
  }

  /**
   What is known of a tracked peer is what it said itself, field by field, in its latest
   announce, and its time is up one lifetime after that.
   */
  lemma TrackedAsAnnounced(o: Options, history: seq<Event>, e: Entry)
    requires Timely(o, history) && e in Run(o, history).list
    ensures exists i :: 0 <= i < |history| && Latest(history, i)
              && e.addr == history[i].r.addr && e.peerid == history[i].r.peerid
              && e.left == history[i].r.left
              && e.downloaded == history[i].r.downloaded && e.uploaded == history[i].r.uploaded
              && e.timeoutTs == history[i].now + o.Lifetime()
  {
    hide Run, Unexpired, Uncrowded, Options.Lifetime;
    TrackedIffSurvived(o, history, e);
    var i :| 0 <= i < |history| && Survives(o, history, i) && EntryAt(o, history, i) == e;
  }

  lemma KeyTrackedIffSurvived(o: Options, history: seq<Event>, key: Key)
    requires Timely(o, history)
    ensures Tracks(Run(o, history).list, key) <==>
            exists i :: 0 <= i < |history| && Survives(o, history, i) && KeyAt(history, i) == key
  {
    RunRefinesHistory(o, history);
    SurvivorsMember(o, history, 0, |history|, key);
    TracksIffKey(Run(o, history).list, key);
  }

  // --------------------------------------------------------- runs in which nobody stops

  function Mentioned(history: seq<Event>): set<Key> {
    set i | 0 <= i < |history| && history[i].Announce? :: KeyAt(history, i)
  }

  lemma {:induction false} LiveAreMentioned(history: seq<Event>)
    ensures LiveKeys(history) <= Mentioned(history)
    ensures (forall ev :: ev in history && ev.Announce? ==> ev.Joins()) ==> LiveKeys(history) == Mentioned(history)
  {
    if history != [] {
      var before, ev := history[..|history| - 1], history[|history| - 1];
      LiveAreMentioned(before);
      forall key
        ensures key in Mentioned(history) <==>
                key in Mentioned(before) || (ev.Announce? && key == ev.r.addr.Key())
      {
        if i :| 0 <= i < |before| && before[i].Announce? && KeyAt(before, i) == key {
          assert history[i] == before[i] && KeyAt(history, i) == key;
        }
        if ev.Announce? && key == ev.r.addr.Key() {
          assert KeyAt(history, |history| - 1) == key;
        }
        if i :| 0 <= i < |history| && history[i].Announce? && KeyAt(history, i) == key && i < |before| {
          assert before[i].Announce? && KeyAt(before, i) == key;
        }
      }
    }
  }

  /**
   When no announce is a stop, an announce survives exactly when it is its peer's
   latest, no cleanup found it expired, and fewer than `maxPeers` distinct peers
   announced after it: the last `maxPeers` distinct peers, less the expired ones.
   */
  lemma WithoutStops(o: Options, history: seq<Event>, i: nat)
    requires i < |history|
    requires forall ev :: ev in history && ev.Announce? ==> ev.Joins()
    ensures Survives(o, history, i) <==>
            && Latest(history, i)
            && Unexpired(o, history, i)
            && |Mentioned(history[i + 1..])| < o.maxPeers
  {
    var later := history[i + 1..];
    assert later == history[i + 1..|history|];
    LiveAreMentioned(later);
    assert Crowd(history, i, |history|) == |Mentioned(later)|;
    if Crowd(history, i, |history|) < o.maxPeers {
      forall j | i < j <= |history| ensures Crowd(history, i, j) < o.maxPeers {
        var part := history[i + 1..j];
        LiveAreMentioned(part);
        forall key | key in Mentioned(part) ensures key in Mentioned(later) {
          var m :| 0 <= m < |part| && part[m].Announce? && KeyAt(part, m) == key;
          assert later[m] == part[m] && KeyAt(later, m) == key;
        }
        SubsetSize(LiveKeys(part), Mentioned(later));
      }
    }
  }

  // -------------------------------------------------------------- no premature expiry

  /** The grace a peer has beyond the advertised interval. */
  const GRACE: nat := 5 * MINUTE

  /** What the tracker tells peers to keep to, in clock units, plus the grace. */
  function Patience(o: Options): nat {
    o.AdvertisedInterval() * SECOND + GRACE
  }

  /** The largest number of minutes whose nanoseconds fit 64 signed bits. */
  const MAX_MINUTES: nat := 153_722_867

  /** Multiplying the minutes out overflows 64 bits. */
  predicate LifetimeOverflows(o: Options) {
    !IsInt64(MINUTE * ((o.announceInterval + 5) % WRAP32))
  }

  /**
   The lifetime is computed without overflow and covers the advertised interval and the
   grace exactly when the interval, with its five minutes, is at most `MAX_MINUTES`.
   */
  lemma LifetimeCoversPatience(o: Options)
    ensures !LifetimeOverflows(o) && o.Lifetime() >= Patience(o) <==> o.announceInterval + 5 <= MAX_MINUTES
  {
    var a := o.announceInterval;
    assert MINUTE * MAX_MINUTES < 0x8000_0000_0000_0000 <= MINUTE * (MAX_MINUTES + 1);
    if a + 5 < WRAP32 {
      assert (a + 5) % WRAP32 == a + 5;
      assert (a * 60) % WRAP32 <= a * 60;
    } else {
      assert (a + 5) % WRAP32 == a + 5 - WRAP32;
    }
  }

  /** How often the advertised seconds wrap, less the 60 times they would at 2^32 minutes. */
  function Laps(o: Options): int {
    o.announceInterval * 60 / WRAP32 - (if o.announceInterval + 5 < WRAP32 then 0 else 60)
  }

  /** How often the 64-bit product wraps. */
  function Turns(o: Options): nat {
    (MINUTE * ((o.announceInterval + 5) % WRAP32) + 0x8000_0000_0000_0000) / WRAP64
  }

  /**
   The whole account, for every interval, when 64-bit arithmetic wraps: each lap of the
   advertised seconds lets the lifetime gain on patience, each turn of the product makes
   it lose; the sign of the balance says whether patience is covered.
   */
  lemma LifetimeAccount(o: Options)
    ensures o.Lifetime() - Patience(o) == Laps(o) * (SECOND * WRAP32) - Turns(o) * WRAP64
  {
    var a := o.announceInterval;
    var seconds := a * 60;
    assert seconds == seconds / WRAP32 * WRAP32 + seconds % WRAP32;
    var product := MINUTE * ((a + 5) % WRAP32);
    if a + 5 < WRAP32 {
      assert product == SECOND * seconds + GRACE;
    } else {
      assert product == SECOND * seconds + GRACE - 60 * (SECOND * WRAP32);
    }
    SignedByTurns(product);
  }

  lemma SignedByTurns(x: nat)
    ensures AsInt64(x) == x - (x + 0x8000_0000_0000_0000) / WRAP64 * WRAP64
  {
  }

  /** At 307445730 minutes the product overflows, and the lifetime is 26 seconds. */
  lemma OverflowingInterval(o: Options)
    requires o.announceInterval == 307_445_730
    ensures LifetimeOverflows(o)
    ensures o.Lifetime() == 26_290_448_384
    ensures o.AdvertisedInterval() == 1_266_874_616
    ensures o.Lifetime() < Patience(o)
  {
  }

  /** Alone in its swarm, a peer is dropped by exactly the cleanups from its expiry on. */
  lemma LonePeerCleaned(o: Options, r: Request, now: int, cleanup: int)
    requires o.maxPeers >= 1 && !r.kind.Stopped?
    ensures Run(o, [Announce(r, now), Cleanup(cleanup)]).list ==
            if o.Expiry(now) <= cleanup then [] else [EntryOf(o, r, now)]
  {
    hide AsInt64;
    var a, c := Announce(r, now), Cleanup(cleanup);
    var e := EntryOf(o, r, now);
    assert [a, c][..1] == [a];
    LonePeer(o, r, now);
    assert e.timeoutTs <= cleanup ==> DropExpired([e], cleanup) == DropExpired([], cleanup);
  }

  /**
   Whenever the expiry falls short, from product or sum, patience is not enough: alone, a
   peer is dropped by a cleanup that comes within the advertised interval and the grace.
   */
  lemma ShortLifetimeDropsEarly(o: Options, r: Request, now: int)
    requires o.Expiry(now) < now + Patience(o)
    requires o.maxPeers >= 1 && !r.kind.Stopped?
    ensures var cleanup := if o.Expiry(now) < now then now else o.Expiry(now);
            && now <= cleanup < now + Patience(o)
            && Run(o, [Announce(r, now), Cleanup(cleanup)]).list == []
            && (IsInt64(now + o.Lifetime()) ==> Timely(o, [Announce(r, now), Cleanup(cleanup)]))
  {
    hide Run, Options.Expiry;
    LonePeerCleaned(o, r, now, if o.Expiry(now) < now then now else o.Expiry(now));
  }

  /** With the largest interval whose product fits, twenty seconds of uptime overflow the sum. */
  lemma OverflowingClock(o: Options, r: Request)
    requires o.announceInterval == 153_722_862 && o.maxPeers >= 1 && !r.kind.Stopped?
    ensures o.announceInterval + 5 <= MAX_MINUTES && !IsInt64(20 * SECOND + o.Lifetime())
    ensures Run(o, [Announce(r, 20 * SECOND), Cleanup(20 * SECOND)]).list == []
  {
    hide Run;
    LonePeerCleaned(o, r, 20 * SECOND, 20 * SECOND);
  }

  /** Alone in its swarm, a peer outlives all cleanups within the interval and the grace. */
  ghost predicate OutlivesPatience(o: Options, r: Request, now: int) {
    forall cleanup :: now <= cleanup < now + Patience(o) ==>
      Run(o, [Announce(r, now), Cleanup(cleanup)]).list == [EntryOf(o, r, now)]
  }

  /** It does so exactly when its expiry, as computed, is no earlier. */
  lemma OutlivesIffExpiryCovers(o: Options, r: Request, now: int)
    requires o.maxPeers >= 1 && !r.kind.Stopped?
    ensures OutlivesPatience(o, r, now) <==> o.Expiry(now) >= now + Patience(o)
  {
    hide Run, Options.Expiry, EntryOf;
    forall cleanup | now <= cleanup < now + Patience(o)
      ensures Run(o, [Announce(r, now), Cleanup(cleanup)]).list ==
              if o.Expiry(now) <= cleanup then [] else [EntryOf(o, r, now)]
    {
      LonePeerCleaned(o, r, now, cleanup);
    }
    if o.Expiry(now) < now + Patience(o) {
      ShortLifetimeDropsEarly(o, r, now);
    }
  }

  /**
   The condition in full: product and sum are computed without overflow and a lone peer
   outlives every cleanup within the interval and the grace, exactly when the interval is
   within the bound and the clock leaves room for its minutes.
   */
  lemma ExpiryCoversPatience(o: Options, r: Request, now: int)
    requires o.maxPeers >= 1 && !r.kind.Stopped?
    ensures !LifetimeOverflows(o) && IsInt64(now + o.Lifetime()) && OutlivesPatience(o, r, now) <==>
            o.announceInterval + 5 <= MAX_MINUTES && IsInt64(now + MINUTE * (o.announceInterval + 5))
  {
    hide OutlivesPatience;
    OutlivesIffExpiryCovers(o, r, now);
    LifetimeCoversPatience(o);
    if o.announceInterval + 5 <= MAX_MINUTES {
      assert o.Lifetime() == MINUTE * (o.announceInterval + 5);
    }
  }

  lemma OthersAreFewer(history: seq<Event>, i: nat, j: nat)
    requires i < j <= |history| && Latest(history, i)
    ensures Crowd(history, i, j) < |Mentioned(history)|
  {
    hide LiveKeys;
    var part, key := history[i + 1..j], KeyAt(history, i);
    LiveAreMentioned(part);
    forall k | k in Mentioned(part) ensures k in Mentioned(history) - {key} {
      var m :| 0 <= m < |part| && part[m].Announce? && KeyAt(part, m) == k;
      assert history[i + 1 + m] == part[m] && KeyAt(history, i + 1 + m) == k;
      assert !history[i + 1 + m].Mentions(key);
    }
    assert key in Mentioned(history);
    SubsetSize(LiveKeys(part), Mentioned(history) - {key});
  }

  /**
   No premature loss: in a run that mentions no more peers than the capacity, a peer
   whose latest announce was not a stop and is younger than the advertised interval
   plus five minutes is tracked, with the fields of that announce.
   */
  lemma RecentPeerIsTracked(o: Options, history: seq<Event>, i: nat)
    requires Timely(o, history)
    requires |Mentioned(history)| <= o.maxPeers && o.announceInterval + 5 <= MAX_MINUTES
    requires i < |history| && Latest(history, i)
    requires history[|history| - 1].now < history[i].now + Patience(o)
    ensures EntryAt(o, history, i) in Run(o, history).list
  {
    LifetimeCoversPatience(o);
    forall j | i < j <= |history| ensures Crowd(history, i, j) < o.maxPeers {
      OthersAreFewer(history, i, j);
    }
    forall j | i < j < |history| && history[j].Cleanup?
      ensures history[j].now < EntryAt(o, history, i).timeoutTs
    {
      assert history[j].now <= history[|history| - 1].now;
    }
    assert Survives(o, history, i);
    TrackedIffSurvived(o, history, EntryAt(o, history, i));
  }

  /** The peer never stops, and lets no event come `Patience` after its last announce. */
  ghost predicate KeepsAnnouncing(o: Options, history: seq<Event>, key: Key) {
    && (forall i :: 0 <= i < |history| && history[i].Mentions(key) ==> history[i].Joins())
    && forall n, i :: 0 <= i < n <= |history| && history[i].Mentions(key) && Latest(history[..n], i)
         ==> history[n - 1].now < history[i].now + Patience(o)
  }

  lemma LatestMention(history: seq<Event>, key: Key, first: nat) returns (i: nat)
    requires first < |history| && history[first].Mentions(key)
    requires forall i :: 0 <= i < |history| && history[i].Mentions(key) ==> history[i].Joins()
    ensures i < |history| && history[i].Mentions(key) && Latest(history, i)
  {
    i := |history| - 1;
    while !history[i].Mentions(key)
      invariant first <= i < |history|
      invariant forall j :: i < j < |history| ==> !history[j].Mentions(key)
      decreases i
    {
      i := i - 1;
    }
  }

  /** Such a peer is tracked at every moment from its first announce on. */
  lemma PatientPeerIsAlwaysTracked(o: Options, history: seq<Event>, key: Key, first: nat, n: nat)
    requires Timely(o, history)
    requires |Mentioned(history)| <= o.maxPeers && o.announceInterval + 5 <= MAX_MINUTES
    requires KeepsAnnouncing(o, history, key)
    requires first < n <= |history| && history[first].Mentions(key)
    ensures Tracks(Run(o, history[..n]).list, key)
  {
    var prefix := history[..n];
    var i := LatestMention(prefix, key, first);
    forall k | k in Mentioned(prefix) ensures k in Mentioned(history) {
      var m :| 0 <= m < |prefix| && prefix[m].Announce? && KeyAt(prefix, m) == k;
      assert history[m].Announce? && KeyAt(history, m) == k;
    }
    SubsetSize(Mentioned(prefix), Mentioned(history));
    assert history[i].Mentions(key) && Latest(history[..n], i);
    RecentPeerIsTracked(o, prefix, i);
    KeysMember(Run(o, prefix).list, key);
    TracksIffKey(Run(o, prefix).list, key);
  }

  // --------------------------------------------------------------- bounded staleness

  /** Right after a cleanup, every tracked peer announced less than a lifetime ago. */
  lemma StalenessBound(o: Options, history: seq<Event>, now: int, e: Entry)
    requires Timely(o, history + [Cleanup(now)])
    requires e in Run(o, history + [Cleanup(now)]).list
    ensures exists i :: 0 <= i < |history| && Latest(history, i) && EntryAt(o, history, i) == e
                        && now < history[i].now + o.Lifetime()
  {
    var longer := history + [Cleanup(now)];
    assert forall i :: 0 <= i < |history| ==> history[i] == longer[i];
    CleanupIsExact(o, history, now);
    TrackedIffSurvived(o, history, e);
  }

  /**
   What clients see: when the last cleanup is at most `gap` old, every address told is
   that of a peer whose latest announce is no older than a lifetime and the gap.
   */
  lemma ToldAreFresh(o: Options, history: seq<Event>, last: nat, gap: nat, r: Request, now: int, a: Address)
    requires Timely(o, history)
    requires last < |history| && history[last].Cleanup?
    requires history[|history| - 1].now <= now <= history[last].now + gap
    requires a in RepliedAddresses(o, Run(o, history).list, r, now)
    ensures exists i :: 0 <= i < |history| && Latest(history, i) && history[i].r.addr == a
                        && now <= history[i].now + gap + (if o.Lifetime() < 0 then 0 else o.Lifetime())
  {
    hide RepliedAddresses, Run;
    ToldWereTracked(o, Run(o, history).list, r, now);
    var e :| e in Run(o, history).list && e.addr == a;
    TrackedIffSurvived(o, history, e);
    var i :| 0 <= i < |history| && Survives(o, history, i) && EntryAt(o, history, i) == e;
    if last < i {
      assert history[last].now <= history[i].now;
    } else {
      assert i < last && history[last].now < EntryAt(o, history, i).timeoutTs;
    }
  }

  // ----------------------------------------------------------- who is dropped first

  /** A peer pushed out by an announce announced before every peer that stays. */
  lemma EvictedIsLeastRecent(o: Options, history: seq<Event>, ev: Event, out: Key, kept: Key)
    requires Timely(o, history + [ev]) && ev.Joins() && !ev.Mentions(out)
    requires Tracks(Run(o, history).list, out)
    requires !Tracks(Run(o, history + [ev]).list, out)
    requires Tracks(Run(o, history + [ev]).list, kept)
    ensures exists i, j ::
              && 0 <= i < j <= |history|
              && Latest(history + [ev], i) && KeyAt(history + [ev], i) == out
              && Latest(history + [ev], j) && KeyAt(history + [ev], j) == kept
  {
    hide Run, Tracks, Unexpired, Uncrowded;
    var longer := history + [ev];
    assert forall i :: 0 <= i < |history| ==> history[i] == longer[i];
    KeyTrackedIffSurvived(o, history, out);
    KeyTrackedIffSurvived(o, longer, out);
    KeyTrackedIffSurvived(o, longer, kept);
    var i :| 0 <= i < |history| && Survives(o, history, i) && KeyAt(history, i) == out;
    var j :| 0 <= j < |longer| && Survives(o, longer, j) && KeyAt(longer, j) == kept;
    assert Latest(longer, i);
    if j < i {
      SurvivalIsUpward(o, longer, j, i);
      assert false;
    }
  }

  // ----------------------------------------------------- when a download is counted

  /** The latest standing announce of the peer, in the sense of the history theorem, leeches. */
  ghost predicate LastHeardLeeching(o: Options, history: seq<Event>, key: Key) {
    exists i :: 0 <= i < |history| && Survives(o, history, i) && KeyAt(history, i) == key && history[i].r.left > 0
  }

  /**
   The completion counter moves at an announce exactly when it says completed, has nothing
   left, and its peer is tracked and was last heard leeching; it moves by one, with wrap.
   No cleanup moves it.
   */
  lemma CompletionIsCountedIff(o: Options, history: seq<Event>, ev: Event)
    requires Timely(o, history)
    ensures var counted := ev.Announce? && ev.r.kind.Completed? && ev.r.left == 0
                           && LastHeardLeeching(o, history, ev.r.addr.Key());
            Run(o, history + [ev]).completed == (Run(o, history).completed + (if counted then 1 else 0)) % WRAP32
  {
    hide Run, Step, LastHeardLeeching;
    RunAppend(o, history, ev);
    StepCompleted(o, Run(o, history), ev);
    if ev.Announce? {
      LeechingIsTracked(o, history, ev.r.addr.Key());
    }
  }

  lemma LeechingIsTracked(o: Options, history: seq<Event>, key: Key)
    requires Timely(o, history)
    ensures var list := Run(o, history).list;
            Tracks(list, key) && list[IndexOf(list, key)].left > 0 <==> LastHeardLeeching(o, history, key)
  {
    hide Run, Unexpired, Uncrowded;
    var list := Run(o, history).list;
    var i := IndexOf(list, key);
    if Tracks(list, key) {
      TrackedIffSurvived(o, history, list[i]);
    }
    if m :| 0 <= m < |history| && Survives(o, history, m) && KeyAt(history, m) == key && history[m].r.left > 0 {
      var e := EntryAt(o, history, m);
      TrackedIffSurvived(o, history, e);
      var j :| 0 <= j < |list| && list[j] == e;
      RunWellFormed(o, history);
      assert list[j].Key() == key;
    }
  }

  // ------------------------------------------------- completions need leeching between

  /** Event `i` makes the torrent count a download as complete. */
  ghost predicate CompletesAt(o: Options, history: seq<Event>, i: nat)
    requires i < |history|
  {
    history[i].Announce? && Completes(Run(o, history[..i]).list, history[i].r)
  }

  /** Between two counted completions of one peer, it announced something left. */
  lemma LeechesBetweenCompletions(o: Options, history: seq<Event>, i: nat, j: nat)
    requires Timely(o, history)
    requires i < j < |history| && CompletesAt(o, history, i) && CompletesAt(o, history, j)
    requires KeyAt(history, i) == KeyAt(history, j)
    ensures exists m :: i < m < j && history[m].Joins() && history[m].r.left > 0
                        && KeyAt(history, m) == KeyAt(history, j)
  {
    hide Run, Completes;
    var prefix, key := history[..j], KeyAt(history, j);
    assert Completes(Run(o, prefix).list, history[j].r) && history[i].r.left == 0 by {
      CompletingMeansDone(Run(o, history[..i]).list, history[i].r);
    }
    var m := OriginOfLeecher(o, prefix, history[j].r);
    assert prefix[i] == history[i] && prefix[i].Mentions(key);
    assert history[m] == prefix[m];
    assert m >= i;
  }

  lemma CompletingMeansDone(list: seq<Entry>, r: Request)
    requires Completes(list, r)
    ensures r.left == 0
  {
  }

  lemma OriginOfLeecher(o: Options, history: seq<Event>, r: Request) returns (m: nat)
    requires Timely(o, history) && Completes(Run(o, history).list, r)
    ensures m < |history| && Latest(history, m)
    ensures KeyAt(history, m) == r.addr.Key() && history[m].r.left > 0
  {
    var list := Run(o, history).list;
    var e := list[IndexOf(list, r.addr.Key())];
    assert e in list;
    TrackedIffSurvived(o, history, e);
    m :| 0 <= m < |history| && Survives(o, history, m) && EntryAt(o, history, m) == e;
  }
}

/**
 What every run of a torrent keeps, how runs with different capacities compare, and
 how often downloads can be counted as completed.
 */
module SwarmRuns {
  import opened Bytes
  import opened Sequences
  import opened Addresses
  import opened Swarms
  import opened SwarmLists

  // -------------------------------------------------------------------- invariants

  ghost predicate WellFormed(o: Options, list: seq<Entry>) {
    Distinct(list) && |list| <= o.maxPeers
  }

  lemma StepKeepsWellFormed(o: Options, s: Swarm, ev: Event)
    requires WellFormed(o, s.list)
    ensures WellFormed(o, Step(o, s, ev).list)
  {
    match ev
    case Announce(r, now) =>
      FilterDistinct(s.list, NotKeyed(r.addr.Key()));
      TouchedShape(s.list, EntryOf(o, r, now));
    case Cleanup(now) =>
      DropExpiredSuffix(s.list, now);
  }

  /** In every reachable state keys are unique and the capacity is respected. */
  lemma {:induction false} RunWellFormed(o: Options, history: seq<Event>)
    ensures WellFormed(o, Run(o, history).list)
  {
    if history != [] {
      RunWellFormed(o, history[..|history| - 1]);
      StepKeepsWellFormed(o, Run(o, history[..|history| - 1]), history[|history| - 1]);
    }
  }

  /** Every timeout lies within one lifetime of the clock. */
  ghost predicate WithinLifetime(o: Options, list: seq<Entry>, now: int) {
    forall e :: e in list ==> e.timeoutTs <= now + o.Lifetime()
  }

  lemma StepKeepsSorted(o: Options, s: Swarm, ev: Event)
    requires Sorted(s.list) && WithinLifetime(o, s.list, ev.now)
    requires ev.Announce? ==> IsInt64(ev.now + o.Lifetime())
    ensures Sorted(Step(o, s, ev).list) && WithinLifetime(o, Step(o, s, ev).list, ev.now)
  {
    match ev
    case Announce(r, now) =>
      FilterSorted(s.list, NotKeyed(r.addr.Key()));
      if !r.kind.Stopped? {
        assert Sorted(Joined(o, s.list, r, now));
      }
    case Cleanup(now) =>
      PrefixScanIsFilter(s.list, now);
      FilterSorted(s.list, AliveAt(now));
  }

  /** Under a clock that never goes back the list stays sorted by expiry. */
  lemma {:induction false} RunSorted(o: Options, history: seq<Event>)
    requires Timely(o, history)
    ensures Sorted(Run(o, history).list)
    ensures history != [] ==> WithinLifetime(o, Run(o, history).list, history[|history| - 1].now)
  {
    if history != [] {
      var before := history[..|history| - 1];
      RunSorted(o, before);
      StepKeepsSorted(o, Run(o, before), history[|history| - 1]);
    }
  }

  /**
   So in every reachable state a cleanup removes all expired peers and no other, and
   keeps the rest in order.
   */
  lemma CleanupIsExact(o: Options, history: seq<Event>, now: int)
    requires Timely(o, history)
    ensures Run(o, history + [Cleanup(now)]).list == Filter(Run(o, history).list, AliveAt(now))
  {
    RunSorted(o, history);
    PrefixScanIsFilter(Run(o, history).list, now);
    assert (history + [Cleanup(now)])[..|history|] == history;
  }

  /** The clock condition matters: when the clock steps back, an expired peer can stay. */
  lemma ClockStepBackLeavesExpired(o: Options, r1: Request, r2: Request)
    requires o.maxPeers >= 2 && IsInt64(10 + o.Lifetime())
    requires r1.kind.Plain? && r2.kind.Plain? && r1.addr.Key() != r2.addr.Key()
    ensures var history := [Announce(r1, 10), Announce(r2, 0), Cleanup(o.Lifetime())];
            exists e :: e in Run(o, history).list && e.timeoutTs <= o.Lifetime()
  {
    var a, b, c := Announce(r1, 10), Announce(r2, 0), Cleanup(o.Lifetime());
    var e1, e2 := EntryOf(o, r1, 10), EntryOf(o, r2, 0);
    assert [a, b, c][..2] == [a, b] && [a, b][..1] == [a] && [a][..0] == [];
    assert Run(o, [a]).list == [e1] by { assert Touched([], e1) == [e1]; }
    assert Run(o, [a, b]).list == [e1, e2] by {
      assert Without([e1], e2.Key()) == [e1] by { FilterAll([e1], NotKeyed(e2.Key())); }
    }
    assert e2 in Run(o, [a, b, c]).list;
  }

  // ---------------------------------------------------------------------- eviction

  /**
   A joining announce evicts nobody, or exactly the front peer of a full list to which
   the requester is new; with a positive capacity the requester stays, at the back, and
   with capacity zero nobody does.
   */
  lemma EvictionTakesTheFront(o: Options, list: seq<Entry>, r: Request, now: int)
    requires WellFormed(o, list)
    ensures var e := EntryOf(o, r, now);
            var after := Evicted(Joined(o, list, r, now), o.maxPeers);
            if o.maxPeers == 0 then after == []
            else
              && after != [] && after[|after| - 1] == e
              && Keys(after) ==
                 if |list| == o.maxPeers && e.Key() !in Keys(list)
                 then Keys(list) - {list[0].Key()} + {e.Key()}
                 else Keys(list) + {e.Key()}
  {
    var e := EntryOf(o, r, now);
    var key := e.Key();
    var joined := Joined(o, list, r, now);
    TouchedShape(list, e);
    WithoutKeys(list, key);
    KeysConcat(Without(list, key), [e]);
    KeysOfOne(e);
    if o.maxPeers > 0 && |list| == o.maxPeers && key !in Keys(list) {
      WithoutAbsent(list, key);
      assert joined[1..] == list[1..] + [e];
      KeysConcat(list[1..], [e]);
      WithoutSplices(list, 0);
      WithoutKeys(list, list[0].Key());
      assert list[..0] + list[1..] == list[1..];
    }
  }

  // ----------------------------------------------------------------- LRU inclusion

  /** The two configurations differ in capacity only, as far as a swarm can tell. */
  ghost predicate Smaller(o1: Options, o2: Options) {
    o1.maxPeers <= o2.maxPeers && o1.announceInterval == o2.announceInterval
  }

  lemma EvictedSuffix(a: seq<Entry>, b: seq<Entry>, k1: nat, k2: nat)
    requires IsSuffix(a, b) && k1 <= k2 && |a| <= k1 + 1 && |b| <= k2 + 1
    ensures IsSuffix(Evicted(a, k1), Evicted(b, k2))
  {
  }

  lemma SuffixSorted(a: seq<Entry>, b: seq<Entry>)
    requires IsSuffix(a, b) && Sorted(b)
    ensures Sorted(a)
  {
    var d := |b| - |a|;
    forall i, j | 0 <= i < j < |a| ensures a[i].timeoutTs <= a[j].timeoutTs {
      assert a[i] == b[d + i] && a[j] == b[d + j];
    }
  }

  lemma AppendSuffix(a: seq<Entry>, b: seq<Entry>, e: Entry)
    requires IsSuffix(a, b)
    ensures IsSuffix(a + [e], b + [e])
  {
    assert b + [e] == b[..|b| - |a|] + (a + [e]);
    SuffixOfConcat(b[..|b| - |a|], a + [e]);
  }

  lemma JoinKeepsInclusion(a: seq<Entry>, b: seq<Entry>, e: Entry, k1: nat, k2: nat)
    requires IsSuffix(a, b) && |a| <= k1 <= k2 && |b| <= k2
    ensures IsSuffix(Evicted(Touched(a, e), k1), Evicted(Touched(b, e), k2))
  {
    var w1, w2 := Without(a, e.Key()), Without(b, e.Key());
    SuffixFilter(a, b, NotKeyed(e.Key()));
    AppendSuffix(w1, w2, e);
    EvictedSuffix(w1 + [e], w2 + [e], k1, k2);
  }

  lemma CleanupKeepsInclusion(a: seq<Entry>, b: seq<Entry>, now: int)
    requires IsSuffix(a, b) && Sorted(b)
    ensures IsSuffix(DropExpired(a, now), DropExpired(b, now))
  {
    SuffixSorted(a, b);
    PrefixScanIsFilter(a, now);
    PrefixScanIsFilter(b, now);
    SuffixFilter(a, b, AliveAt(now));
  }

  lemma StepKeepsInclusion(o1: Options, o2: Options, s1: Swarm, s2: Swarm, ev: Event)
    requires Smaller(o1, o2)
    requires |s1.list| <= o1.maxPeers && |s2.list| <= o2.maxPeers && Sorted(s2.list)
    requires IsSuffix(s1.list, s2.list)
    ensures IsSuffix(Step(o1, s1, ev).list, Step(o2, s2, ev).list)
  {
    match ev
    case Announce(r, now) =>
      if r.kind.Stopped? {
        SuffixFilter(s1.list, s2.list, NotKeyed(r.addr.Key()));
      } else {
        assert EntryOf(o1, r, now) == EntryOf(o2, r, now);
        JoinKeepsInclusion(s1.list, s2.list, EntryOf(o1, r, now), o1.maxPeers, o2.maxPeers);
      }
    case Cleanup(now) =>
      CleanupKeepsInclusion(s1.list, s2.list, now);
  }

  /**
   Inclusion: on one history, a torrent with the smaller capacity tracks, entry for
   entry, the most recent part of what a torrent with the larger capacity tracks.
   */
  lemma {:induction false} LruInclusion(o1: Options, o2: Options, history: seq<Event>)
    requires Smaller(o1, o2) && Timely(o1, history)
    ensures IsSuffix(Run(o1, history).list, Run(o2, history).list)
  {
    if history != [] {
      var before := history[..|history| - 1];
      LruInclusion(o1, o2, before);
      RunWellFormed(o1, before);
      RunWellFormed(o2, before);
      RunSorted(o2, before);
      StepKeepsInclusion(o1, o2, Run(o1, before), Run(o2, before), history[|history| - 1]);
    }
  }

  // ----------------------------------------------------------- completed downloads

  function LeecherAmong(keys: Key -> bool): Entry -> bool {
    (e: Entry) => e.left > 0 && keys(e.Key())
  }

  /** How often the history makes the torrent count a download of these peers as complete. */
  function Completions(o: Options, history: seq<Event>, keys: Key -> bool): nat {
    if history == [] then 0
    else
      var before, ev := history[..|history| - 1], history[|history| - 1];
      Completions(o, before, keys) +
      if ev.Announce? && keys(ev.r.addr.Key()) && Completes(Run(o, before).list, ev.r) then 1 else 0
  }

  /** The non-stopping announces of these peers with something left to download. */
  function LeechAnnounces(history: seq<Event>, keys: Key -> bool): nat {
    if history == [] then 0
    else
      var before, ev := history[..|history| - 1], history[|history| - 1];
      LeechAnnounces(before, keys) +
      if ev.Joins() && ev.r.left > 0 && keys(ev.r.addr.Key()) then 1 else 0
  }

  lemma FilterSuffixSize(a: seq<Entry>, b: seq<Entry>, p: Entry -> bool)
    requires IsSuffix(a, b)
    ensures |Filter(a, p)| <= |Filter(b, p)|
  {
    SuffixFilter(a, b, p);
  }

  /** One step moves at most one unit from "leeching now" to "completed". */
  lemma StepAmortised(o: Options, list: seq<Entry>, r: Request, now: int, keys: Key -> bool)
    requires WellFormed(o, list) && !r.kind.Stopped?
    ensures var p := LeecherAmong(keys);
            var counted := keys(r.addr.Key());
            |Filter(Evicted(Joined(o, list, r, now), o.maxPeers), p)|
              + (if counted && Completes(list, r) then 1 else 0)
            <= |Filter(list, p)| + (if counted && r.left > 0 then 1 else 0)
  {
    var p, key := LeecherAmong(keys), r.addr.Key();
    var e, w := EntryOf(o, r, now), Without(list, key);
    var joined := Joined(o, list, r, now);
    var i := IndexOf(list, key);
    if i < |list| {
      WithoutSplices(list, i);
      FilterSplice(list, i, p);
    } else {
      WithoutAbsent(list, key);
    }
    FilterConcat(w, [e], p);
    FilterSuffixSize(Evicted(joined, o.maxPeers), joined, p);
  }

  /**
   Amortised bound, for any set of peers: downloads counted complete, plus peers now
   leeching, never exceed the announces made with something left.
   */
  lemma {:induction false} CompletionsAmortised(o: Options, history: seq<Event>, keys: Key -> bool)
    ensures Completions(o, history, keys) + |Filter(Run(o, history).list, LeecherAmong(keys))|
            <= LeechAnnounces(history, keys)
  {
    if history != [] {
      var before, ev := history[..|history| - 1], history[|history| - 1];
      var list := Run(o, before).list;
      CompletionsAmortised(o, before, keys);
      RunWellFormed(o, before);
      match ev
      case Announce(r, now) =>
        if r.kind.Stopped? {
          var key := r.addr.Key();
          var i := IndexOf(list, key);
          if i < |list| {
            WithoutSplices(list, i);
            FilterSplice(list, i, LeecherAmong(keys));
          } else {
            WithoutAbsent(list, key);
          }
        } else {
          StepAmortised(o, list, r, now, keys);
        }
      case Cleanup(now) =>
        DropExpiredSuffix(list, now);
        FilterSuffixSize(DropExpired(list, now), list, LeecherAmong(keys));
    }
  }

  function Everyone(): Key -> bool { (key: Key) => true }

  lemma IncrementWraps(n: nat)
    ensures Increment(n % WRAP32) == (n + 1) % WRAP32
  {
  }

  lemma StepCompleted(o: Options, s: Swarm, ev: Event)
    ensures Step(o, s, ev).completed ==
            if ev.Announce? && Completes(s.list, ev.r) then Increment(s.completed) else s.completed
  {
  }

  /** The 32-bit counter is the true number of completions, modulo its width. */
  lemma {:induction false} CompletedCounts(o: Options, history: seq<Event>)
    ensures Run(o, history).completed == Completions(o, history, Everyone()) % WRAP32
  {
    hide Step, Completes, Increment;
    if history != [] {
      var before, ev := history[..|history| - 1], history[|history| - 1];
      CompletedCounts(o, before);
      IncrementWraps(Completions(o, before, Everyone()));
      StepCompleted(o, Run(o, before), ev);
    }
  }

  lemma RemainderIsSmaller(n: nat)
    ensures n % WRAP32 <= n
  {
  }

  /** The bound for the counters the torrent really holds. */
  lemma CompletedPlusLeechers(o: Options, history: seq<Event>)
    ensures Run(o, history).completed + Leechers(Run(o, history).list)
            <= LeechAnnounces(history, Everyone())
  {
    hide Run, Completions, LeechAnnounces;
    var list := Run(o, history).list;
    CompletionsAmortised(o, history, Everyone());
    CompletedCounts(o, history);
    RemainderIsSmaller(Completions(o, history, Everyone()));
    FilterSame(list, IsLeecher, LeecherAmong(Everyone()));
  }

  lemma {:induction false} FilterSame(list: seq<Entry>, p: Entry -> bool, q: Entry -> bool)
    requires forall e :: p(e) == q(e)
    ensures Filter(list, p) == Filter(list, q)
  {
    if list != [] {
      FilterSame(list[1..], p, q);
    }
  }
}

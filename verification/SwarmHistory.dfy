/**
 What a torrent tracks, told from the history alone: which announces survive, in
 order, with no reference to the list the torrent maintains.
 */
module SwarmHistory {
  import opened Sequences
  import opened Addresses
  import opened Swarms
  import opened SwarmLists
  import opened SwarmRuns

  // ------------------------------------------------------- the reference definition

  /** The peers whose latest announce in `history` is not a stop. */
  function LiveKeys(history: seq<Event>): set<Key> {
    if history == [] then {}
    else
      var before, ev := LiveKeys(history[..|history| - 1]), history[|history| - 1];
      if ev.Cleanup? then before
      else if ev.Joins() then before + {ev.r.addr.Key()}
      else before - {ev.r.addr.Key()}
  }

  function KeyAt(history: seq<Event>, i: nat): Key
    requires i < |history| && history[i].Announce?
  {
    history[i].r.addr.Key()
  }

  function EntryAt(o: Options, history: seq<Event>, i: nat): Entry
    requires i < |history| && history[i].Announce?
  {
    EntryOf(o, history[i].r, history[i].now)
  }

  /** Event `i` is the latest one of its peer, and is not a stop. */
  ghost predicate Latest(history: seq<Event>, i: nat)
    requires i < |history|
  {
    history[i].Joins() && forall j :: i < j < |history| ==> !history[j].Mentions(KeyAt(history, i))
  }

  /** No cleanup after event `i` found its peer expired. */
  ghost predicate Unexpired(o: Options, history: seq<Event>, i: nat)
    requires i < |history| && history[i].Announce?
  {
    forall j :: i < j < |history| && history[j].Cleanup? ==> history[j].now < EntryAt(o, history, i).timeoutTs
  }

  /** How many other peers were more recent than the peer of event `i` just before event `j`. */
  function Crowd(history: seq<Event>, i: nat, j: nat): nat
    requires i < j <= |history|
  {
    |LiveKeys(history[i + 1..j])|
  }

  /** At no time since event `i` were `maxPeers` other peers more recent than its peer. */
  ghost predicate Uncrowded(o: Options, history: seq<Event>, i: nat)
    requires i < |history|
  {
    forall j :: i < j <= |history| ==> Crowd(history, i, j) < o.maxPeers
  }

  ghost predicate Survives(o: Options, history: seq<Event>, i: nat)
    requires i < |history|
  {
    Latest(history, i) && Unexpired(o, history, i) && Uncrowded(o, history, i)
  }

  /** The entries of the surviving announces among events `a` up to `b`, oldest first. */
  ghost function Survivors(o: Options, history: seq<Event>, a: nat, b: nat): seq<Entry>
    requires a <= b <= |history|
    decreases b - a
  {
    if a == b then []
    else if Survives(o, history, a) then [EntryAt(o, history, a)] + Survivors(o, history, a + 1, b)
    else Survivors(o, history, a + 1, b)
  }

  // ---------------------------------------------------------------- facts about it

  lemma {:induction false} LiveKeysOfLater(a: seq<Event>, b: seq<Event>)
    ensures LiveKeys(b) <= LiveKeys(a + b)
  {
    if b != [] {
      LiveKeysOfLater(a, b[..|b| - 1]);
      assert (a + b)[..|a + b| - 1] == a + b[..|b| - 1];
    }
  }

  /** Live peers are exactly those with a latest joining announce. */
  lemma {:induction false} LiveKeysExact(history: seq<Event>, key: Key)
    ensures key in LiveKeys(history) <==>
            exists i :: 0 <= i < |history| && Latest(history, i) && KeyAt(history, i) == key
  {
    if history != [] {
      var before, n := history[..|history| - 1], |history| - 1;
      LiveKeysExact(before, key);
      if history[n].Mentions(key) {
        assert forall i :: 0 <= i < n && Latest(history, i) ==> KeyAt(history, i) != key;
        if history[n].Joins() {
          assert Latest(history, n) && KeyAt(history, n) == key;
        }
      } else {
        forall i | 0 <= i < n && history[i].Joins() && KeyAt(history, i) == key
          ensures Latest(history, i) <==> Latest(before, i)
        {
          assert forall j :: i < j < n ==> history[j] == before[j];
        }
      }
    }
  }

  /** A peer that announced after a survivor, and whose announce stands, survives too. */
  lemma SurvivalIsUpward(o: Options, history: seq<Event>, i: nat, i': nat)
    requires Timely(o, history)
    requires i < i' < |history| && Survives(o, history, i) && Latest(history, i')
    ensures Survives(o, history, i')
  {
    forall j | i' < j <= |history| ensures Crowd(history, i', j) < o.maxPeers {
      assert history[i + 1..j] == history[i + 1..i' + 1] + history[i' + 1..j];
      LiveKeysOfLater(history[i + 1..i' + 1], history[i' + 1..j]);
      SubsetSize(LiveKeys(history[i' + 1..j]), LiveKeys(history[i + 1..j]));
      assert Crowd(history, i, j) < o.maxPeers;
    }
    assert history[i].now <= history[i'].now;
  }

  lemma SubsetSize<T>(a: set<T>, b: set<T>)
    requires a <= b
    ensures |a| <= |b|
  {
    assert b == a + (b - a);
  }

  lemma {:induction false} SurvivorsMember(o: Options, history: seq<Event>, a: nat, b: nat, key: Key)
    requires a <= b <= |history|
    ensures key in Keys(Survivors(o, history, a, b)) <==>
            exists i :: a <= i < b && Survives(o, history, i) && KeyAt(history, i) == key
    decreases b - a
  {
    if a < b {
      var first := if Survives(o, history, a) then [EntryAt(o, history, a)] else [];
      var rest := Survivors(o, history, a + 1, b);
      SurvivorsMember(o, history, a + 1, b, key);
      KeysConcat(first, rest);
      KeysMember(first, key);
      if key in Keys(first) {
        assert Survives(o, history, a) && KeyAt(history, a) == key;
      }
      if i :| a <= i < b && Survives(o, history, i) && KeyAt(history, i) == key {
        if i == a {
          assert EntryAt(o, history, a) in first;
        } else {
          assert a + 1 <= i < b;
        }
      }
    }
  }

  lemma {:induction false} SurvivorsDistinct(o: Options, history: seq<Event>, a: nat, b: nat)
    requires a <= b <= |history|
    ensures Distinct(Survivors(o, history, a, b))
    decreases b - a
  {
    if a < b {
      var rest := Survivors(o, history, a + 1, b);
      SurvivorsDistinct(o, history, a + 1, b);
      if Survives(o, history, a) {
        var key := KeyAt(history, a);
        SurvivorsMember(o, history, a + 1, b, key);
        assert key !in Keys(rest);
      }
    }
  }

  /** The peers more recent than a survivor are exactly the survivors after it. */
  lemma RankIsRecency(o: Options, history: seq<Event>, i: nat)
    requires Timely(o, history)
    requires i < |history| && Survives(o, history, i)
    ensures LiveKeys(history[i + 1..]) == Keys(Survivors(o, history, i + 1, |history|))
  {
    var live, survivors := LiveKeys(history[i + 1..]), Keys(Survivors(o, history, i + 1, |history|));
    forall key ensures key in live <==> key in survivors {
      LiveKeysExact(history[i + 1..], key);
      SurvivorsMember(o, history, i + 1, |history|, key);
      if key in live {
        var d :| 0 <= d < |history[i + 1..]| && Latest(history[i + 1..], d) && KeyAt(history[i + 1..], d) == key;
        LaterKeySurvives(o, history, i, d);
      }
      if m :| i + 1 <= m < |history| && Survives(o, history, m) && KeyAt(history, m) == key {
        SurvivorIsLater(o, history, i + 1, m);
      }
    }
  }

  lemma LaterKeySurvives(o: Options, history: seq<Event>, i: nat, d: nat)
    requires Timely(o, history)
    requires i < |history| && Survives(o, history, i)
    requires d < |history[i + 1..]| && Latest(history[i + 1..], d)
    ensures Survives(o, history, i + 1 + d) && KeyAt(history, i + 1 + d) == KeyAt(history[i + 1..], d)
  {
    LatestInSuffix(history, i + 1, d);
    SurvivalIsUpward(o, history, i, i + 1 + d);
  }

  lemma SurvivorIsLater(o: Options, history: seq<Event>, from: nat, m: nat)
    requires from <= m < |history| && Survives(o, history, m)
    ensures exists d :: 0 <= d < |history[from..]| && Latest(history[from..], d)
                        && KeyAt(history[from..], d) == KeyAt(history, m)
  {
    LatestInSuffix(history, from, m - from);
    assert Latest(history[from..], m - from);
  }

  lemma LatestInSuffix(history: seq<Event>, from: nat, d: nat)
    requires from + d < |history|
    ensures Latest(history[from..], d) <==> Latest(history, from + d)
  {
    var later := history[from..];
    if Latest(later, d) {
      forall j | from + d < j < |history| ensures !history[j].Mentions(KeyAt(history, from + d)) {
        assert history[j] == later[j - from];
      }
    }
    if Latest(history, from + d) {
      forall j | d < j < |later| ensures !later[j].Mentions(KeyAt(later, d)) {
        assert later[j] == history[from + j];
      }
    }
  }

  // ------------------------------------------------------- one more event, case by case

  lemma CrowdedOneMore(o: Options, history: seq<Event>, ev: Event, i: nat)
    requires i < |history|
    ensures Uncrowded(o, history + [ev], i) <==>
            Uncrowded(o, history, i) && |LiveKeys(history[i + 1..] + [ev])| < o.maxPeers
  {
    var n, longer := |history|, history + [ev];
    forall j | i < j <= n ensures Crowd(longer, i, j) == Crowd(history, i, j) {
      assert longer[i + 1..j] == history[i + 1..j];
    }
    assert longer[i + 1..n + 1] == history[i + 1..] + [ev];
    assert Crowd(longer, i, n + 1) == |LiveKeys(history[i + 1..] + [ev])|;
  }

  /** How one more event decides about the survivors so far. */
  lemma SurvivesOneMore(o: Options, history: seq<Event>, ev: Event, i: nat)
    requires i < |history|
    ensures Survives(o, history + [ev], i) <==>
            && Survives(o, history, i)
            && !ev.Mentions(KeyAt(history, i))
            && (ev.Cleanup? ==> ev.now < EntryAt(o, history, i).timeoutTs)
            && |LiveKeys(history[i + 1..] + [ev])| < o.maxPeers
  {
    var n, longer := |history|, history + [ev];
    assert forall j :: 0 <= j < n ==> longer[j] == history[j];
    assert longer[n] == ev;
    CrowdedOneMore(o, history, ev, i);
  }

  lemma LiveKeysAppend(history: seq<Event>, ev: Event)
    ensures LiveKeys(history + [ev]) ==
            if ev.Cleanup? then LiveKeys(history)
            else if ev.Joins() then LiveKeys(history) + {ev.r.addr.Key()}
            else LiveKeys(history) - {ev.r.addr.Key()}
  {
    assert (history + [ev])[..|history|] == history;
  }

  /** An event that just happened survives as soon as there is room for one peer. */
  lemma NewestSurvives(o: Options, history: seq<Event>, ev: Event)
    ensures Survives(o, history + [ev], |history|) <==> ev.Joins() && o.maxPeers > 0
  {
    var n, longer := |history|, history + [ev];
    assert longer[n + 1..n + 1] == [];
    assert Crowd(longer, n, n + 1) == 0;
  }

  lemma KeysWithOrWithout(list: seq<Entry>, key: Key)
    requires Distinct(list)
    ensures |Keys(list) - {key}| <= |Keys(list)|
    ensures |Keys(list) + {key}| == |Without(list, key)| + 1
  {
    FilterDistinct(list, NotKeyed(key));
    DistinctSize(Without(list, key));
    WithoutKeys(list, key);
    SubsetSize(Keys(list) - {key}, Keys(list));
    assert Keys(list) + {key} == (Keys(list) - {key}) + {key};
  }

  /** The crowd around a survivor after one more event is known before that event. */
  lemma CrowdOneMore(o: Options, history: seq<Event>, ev: Event, i: nat)
    requires Timely(o, history)
    requires i < |history| && Survives(o, history, i)
    ensures |LiveKeys(history[i + 1..])| < o.maxPeers
    ensures !ev.Joins() ==> |LiveKeys(history[i + 1..] + [ev])| < o.maxPeers
    ensures ev.Joins() ==>
              |LiveKeys(history[i + 1..] + [ev])| ==
              |Without(Survivors(o, history, i + 1, |history|), ev.r.addr.Key())| + 1
  {
    var rest := Survivors(o, history, i + 1, |history|);
    assert history[i + 1..|history|] == history[i + 1..];
    assert Crowd(history, i, |history|) < o.maxPeers;
    LiveKeysAppend(history[i + 1..], ev);
    if ev.Announce? {
      RankIsRecency(o, history, i);
      SurvivorsDistinct(o, history, i + 1, |history|);
      KeysWithOrWithout(rest, ev.r.addr.Key());
    }
  }

  function MostRecent(list: seq<Entry>, k: nat): seq<Entry> {
    if |list| > k then list[|list| - k..] else list
  }

  /** An older entry stays in sight exactly when fewer than `k` entries follow it. */
  lemma MostRecentOfCons(head: Entry, rest: seq<Entry>, e: Entry, k: nat)
    ensures MostRecent(Touched([head] + rest, e), k) ==
            if head.Key() != e.Key() && |Without(rest, e.Key())| + 1 < k
            then [head] + MostRecent(Touched(rest, e), k)
            else MostRecent(Touched(rest, e), k)
  {
    var w := Without(rest, e.Key());
    FilterConcat([head], rest, NotKeyed(e.Key()));
    if head.Key() != e.Key() {
      assert Touched([head] + rest, e) == [head] + (w + [e]);
    } else {
      assert Touched([head] + rest, e) == w + [e];
    }
  }

  /** A joining announce lets an earlier one survive unless it supersedes or crowds it out. */
  lemma JoinDecides(o: Options, history: seq<Event>, ev: Event, m: nat)
    requires Timely(o, history) && ev.Joins() && m < |history|
    ensures (history + [ev])[m] == history[m]
    ensures Survives(o, history + [ev], m) <==>
            && Survives(o, history, m)
            && EntryAt(o, history, m).Key() != ev.r.addr.Key()
            && |Without(Survivors(o, history, m + 1, |history|), ev.r.addr.Key())| + 1 < o.maxPeers
  {
    SurvivesOneMore(o, history, ev, m);
    if Survives(o, history, m) {
      CrowdOneMore(o, history, ev, m);
    }
  }

  lemma {:induction false} SurvivorsJoin(o: Options, history: seq<Event>, ev: Event, m: nat)
    requires Timely(o, history) && o.maxPeers > 0
    requires ev.Joins() && m <= |history|
    ensures Survivors(o, history + [ev], m, |history| + 1) ==
            MostRecent(Touched(Survivors(o, history, m, |history|), EntryOf(o, ev.r, ev.now)), o.maxPeers)
    decreases |history| - m
  {
    var n, longer := |history|, history + [ev];
    var e := EntryOf(o, ev.r, ev.now);
    if m == n {
      NewestSurvives(o, history, ev);
      assert Touched([], e) == [e];
      assert Survivors(o, longer, n + 1, n + 1) == [];
    } else {
      SurvivorsJoin(o, history, ev, m + 1);
      JoinDecides(o, history, ev, m);
      if Survives(o, history, m) {
        MostRecentOfCons(EntryAt(o, history, m), Survivors(o, history, m + 1, n), e, o.maxPeers);
      }
    }
  }

  lemma {:induction false} SurvivorsStop(o: Options, history: seq<Event>, ev: Event, m: nat)
    requires Timely(o, history)
    requires ev.Announce? && ev.r.kind.Stopped? && m <= |history|
    ensures Survivors(o, history + [ev], m, |history| + 1) ==
            Without(Survivors(o, history, m, |history|), ev.r.addr.Key())
    decreases |history| - m
  {
    var n, longer := |history|, history + [ev];
    if m == n {
      NewestSurvives(o, history, ev);
      assert Survivors(o, longer, n + 1, n + 1) == [];
    } else {
      SurvivorsStop(o, history, ev, m + 1);
      assert longer[m] == history[m];
      SurvivesOneMore(o, history, ev, m);
      if Survives(o, history, m) {
        CrowdOneMore(o, history, ev, m);
        FilterConcat([EntryAt(o, history, m)], Survivors(o, history, m + 1, n), NotKeyed(ev.r.addr.Key()));
      }
    }
  }

  lemma {:induction false} SurvivorsCleanup(o: Options, history: seq<Event>, ev: Event, m: nat)
    requires Timely(o, history)
    requires ev.Cleanup? && m <= |history|
    ensures Survivors(o, history + [ev], m, |history| + 1) ==
            Filter(Survivors(o, history, m, |history|), AliveAt(ev.now))
    decreases |history| - m
  {
    var n, longer := |history|, history + [ev];
    if m == n {
      NewestSurvives(o, history, ev);
      assert Survivors(o, longer, n + 1, n + 1) == [];
    } else {
      SurvivorsCleanup(o, history, ev, m + 1);
      assert longer[m] == history[m];
      SurvivesOneMore(o, history, ev, m);
      if Survives(o, history, m) {
        CrowdOneMore(o, history, ev, m);
        FilterConcat([EntryAt(o, history, m)], Survivors(o, history, m + 1, n), AliveAt(ev.now));
      }
    }
  }

  lemma {:induction false} NobodyFits(o: Options, history: seq<Event>, a: nat, b: nat)
    requires o.maxPeers == 0 && a <= b <= |history|
    ensures Survivors(o, history, a, b) == []
    decreases b - a
  {
    if a < b {
      assert Crowd(history, a, a + 1) >= 0;
      NobodyFits(o, history, a + 1, b);
    }
  }

  // ------------------------------------------------------------------- the theorem

  lemma EvictedIsMostRecent(list: seq<Entry>, k: nat)
    requires |list| <= k + 1
    ensures Evicted(list, k) == MostRecent(list, k)
  {
  }

  lemma StepRefines(o: Options, history: seq<Event>, ev: Event)
    requires Timely(o, history) && o.maxPeers > 0
    requires Run(o, history).list == Survivors(o, history, 0, |history|)
    ensures Step(o, Run(o, history), ev).list == Survivors(o, history + [ev], 0, |history| + 1)
  {
    var list := Run(o, history).list;
    match ev
    case Announce(r, now) =>
      if r.kind.Stopped? {
        SurvivorsStop(o, history, ev, 0);
      } else {
        RunWellFormed(o, history);
        TouchedShape(list, EntryOf(o, r, now));
        EvictedIsMostRecent(Joined(o, list, r, now), o.maxPeers);
        SurvivorsJoin(o, history, ev, 0);
      }
    case Cleanup(now) =>
      RunSorted(o, history);
      PrefixScanIsFilter(list, now);
      SurvivorsCleanup(o, history, ev, 0);
  }

  /**
   History refinement, for every run under a clock that never goes back, stops and
   cleanups included: the list of the torrent is the list of surviving announces, in
   the order they were made, each with the fields of its latest announce.
   */
  lemma {:induction false} RunRefinesHistory(o: Options, history: seq<Event>)
    requires Timely(o, history)
    ensures Run(o, history).list == Survivors(o, history, 0, |history|)
  {
    if history != [] {
      var before, ev := history[..|history| - 1], history[|history| - 1];
      assert history == before + [ev];
      RunRefinesHistory(o, before);
      if o.maxPeers == 0 {
        RunWellFormed(o, history);
        NobodyFits(o, history, 0, |history|);
      } else {
        StepRefines(o, before, ev);
      }
    }
  }
}

/**
 Facts about lists of peers that the run theorems and the imperative torrent share.
 */
module SwarmLists {
  import opened Sequences
  import opened Addresses
  import opened Swarms

  lemma {:induction false} FilterDistinct(list: seq<Entry>, p: Entry -> bool)
    requires Distinct(list)
    ensures Distinct(Filter(list, p))
  {
    if list != [] {
      var rest := Filter(list[1..], p);
      FilterDistinct(list[1..], p);
      forall e | e in rest ensures e.Key() != list[0].Key() {
        assert e in list[1..];
      }
    }
  }

  lemma {:induction false} FilterSorted(list: seq<Entry>, p: Entry -> bool)
    requires Sorted(list)
    ensures Sorted(Filter(list, p))
  {
    if list != [] {
      var rest := Filter(list[1..], p);
      FilterSorted(list[1..], p);
      forall e | e in rest ensures list[0].timeoutTs <= e.timeoutTs {
        assert e in list[1..];
      }
    }
  }

  lemma KeysMember(list: seq<Entry>, key: Key)
    ensures key in Keys(list) <==> exists e :: e in list && e.Key() == key
  {
    if e :| e in list && e.Key() == key {
      var i :| 0 <= i < |list| && list[i] == e;
      assert list[i].Key() == key;
    }
  }

  lemma TracksIffKey(list: seq<Entry>, key: Key)
    ensures Tracks(list, key) <==> key in Keys(list)
  {
  }

  lemma KeysConcat(a: seq<Entry>, b: seq<Entry>)
    ensures Keys(a + b) == Keys(a) + Keys(b)
  {
    forall key ensures key in Keys(a + b) <==> key in Keys(a) + Keys(b) {
      KeysMember(a, key);
      KeysMember(b, key);
      KeysMember(a + b, key);
    }
  }

  /** Removing a key from a list without duplicates removes at most that one entry. */
  lemma {:induction false} WithoutSplices(list: seq<Entry>, i: nat)
    requires Distinct(list) && i < |list|
    ensures Without(list, list[i].Key()) == list[..i] + list[i + 1..]
  {
    var key, rest := list[i].Key(), list[1..];
    if i == 0 {
      FilterAll(rest, NotKeyed(key));
      assert list[..0] + list[1..] == rest;
    } else {
      WithoutSplices(rest, i - 1);
      assert list[..i] + list[i + 1..] == [list[0]] + (rest[..i - 1] + rest[i..]);
    }
  }

  lemma WithoutAbsent(list: seq<Entry>, key: Key)
    requires key !in Keys(list)
    ensures Without(list, key) == list
  {
    forall e | e in list ensures NotKeyed(key)(e) {
      KeysMember(list, key);
    }
    FilterAll(list, NotKeyed(key));
  }

  lemma WithoutKeys(list: seq<Entry>, key: Key)
    ensures Keys(Without(list, key)) == Keys(list) - {key}
  {
    var w := Without(list, key);
    forall k ensures k in Keys(w) <==> k in Keys(list) - {key} {
      KeysMember(list, k);
      KeysMember(w, k);
      if k in Keys(list) && k != key {
        var e :| e in list && e.Key() == k;
        assert e in w;
      }
    }
  }

  lemma KeysOfOne(e: Entry)
    ensures Keys([e]) == {e.Key()}
  {
    assert [e][0].Key() == e.Key();
  }

  /** A list without duplicate keys has as many keys as entries. */
  lemma {:induction false} DistinctSize(list: seq<Entry>)
    requires Distinct(list)
    ensures |Keys(list)| == |list|
  {
    if list == [] {
      assert Keys(list) == {};
    } else {
      var key := list[0].Key();
      DistinctSize(list[1..]);
      assert list == [list[0]] + list[1..];
      KeysConcat([list[0]], list[1..]);
      KeysOfOne(list[0]);
      assert key !in Keys(list[1..]);
    }
  }

  /** How the size changes when a key is removed. */
  lemma WithoutSize(list: seq<Entry>, key: Key)
    requires Distinct(list)
    ensures |Without(list, key)| == |list| - (if key in Keys(list) then 1 else 0)
  {
    if key in Keys(list) {
      var i :| 0 <= i < |list| && list[i].Key() == key;
      WithoutSplices(list, i);
    } else {
      WithoutAbsent(list, key);
    }
  }

  lemma TouchedShape(list: seq<Entry>, e: Entry)
    requires Distinct(list)
    ensures Distinct(Touched(list, e))
    ensures |Touched(list, e)| == |list| + (if e.Key() in Keys(list) then 0 else 1)
  {
    var rest := Without(list, e.Key());
    FilterDistinct(list, NotKeyed(e.Key()));
    WithoutSize(list, e.Key());
    assert forall x :: x in rest ==> x.Key() != e.Key();
  }

  /** Every tracked peer is counted exactly once, as a seeder or as a leecher. */
  lemma CountersAddUp(list: seq<Entry>)
    ensures Seeders(list) + Leechers(list) == |list|
  {
    FilterSplit(list, IsSeeder, IsLeecher);
  }

  /** Once a peer is alive, all peers behind it are. */
  ghost predicate ExpiredComeFirst(list: seq<Entry>, now: int) {
    forall i, j :: 0 <= i < j < |list| && list[i].timeoutTs > now ==> list[j].timeoutTs > now
  }

  lemma ExpiredComeFirstTail(list: seq<Entry>, now: int)
    requires list != [] && list[0].timeoutTs <= now
    ensures ExpiredComeFirst(list, now) <==> ExpiredComeFirst(list[1..], now)
  {
    if ExpiredComeFirst(list[1..], now) {
      forall i, j | 0 <= i < j < |list| && list[i].timeoutTs > now ensures list[j].timeoutTs > now {
        assert list[i] == list[1..][i - 1] && list[j] == list[1..][j - 1];
      }
    }
  }

  /**
   The scan that stops at the first live peer equals filtering the whole list exactly
   when no expired peer sits behind a live one.
   */
  lemma {:induction false} PrefixScanExact(list: seq<Entry>, now: int)
    ensures DropExpired(list, now) == Filter(list, AliveAt(now)) <==> ExpiredComeFirst(list, now)
  {
    if list == [] {
    } else if list[0].timeoutTs <= now {
      PrefixScanExact(list[1..], now);
      ExpiredComeFirstTail(list, now);
    } else if ExpiredComeFirst(list, now) {
      FilterAll(list, AliveAt(now));
    } else {
      var i, j :| 0 <= i < j < |list| && list[i].timeoutTs > now && list[j].timeoutTs <= now;
      assert list[j] in list && list[j] !in Filter(list, AliveAt(now));
    }
  }

  /** On a sorted list the scan removes exactly the expired peers, and keeps the order. */
  lemma PrefixScanIsFilter(list: seq<Entry>, now: int)
    requires Sorted(list)
    ensures DropExpired(list, now) == Filter(list, AliveAt(now))
  {
    PrefixScanExact(list, now);
  }

  /** The scan leaves a suffix, sorted or not. */
  lemma {:induction false} DropExpiredSuffix(list: seq<Entry>, now: int)
    ensures IsSuffix(DropExpired(list, now), list)
    ensures Distinct(list) ==> Distinct(DropExpired(list, now))
  {
    if list != [] && list[0].timeoutTs <= now {
      DropExpiredSuffix(list[1..], now);
    }
  }

  lemma RunAppend(o: Options, history: seq<Event>, ev: Event)
    ensures Run(o, history + [ev]) == Step(o, Run(o, history), ev)
  {
    assert (history + [ev])[..|history|] == history;
  }

  /** The first peer of a new torrent is tracked alone. */
  lemma LonePeer(o: Options, r: Request, now: int)
    requires o.maxPeers >= 1 && !r.kind.Stopped?
    ensures Run(o, [Announce(r, now)]).list == [EntryOf(o, r, now)]
  {
    hide EntryOf;
    var e := EntryOf(o, r, now);
    assert [Announce(r, now)][..0] == [];
    assert Touched([], e) == [e];
  }
}

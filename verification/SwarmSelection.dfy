/**
 Which peers an announce is told about: the most recently announced eligible ones.
 */
module SwarmSelection {
  import opened Bytes
  import opened Sequences
  import opened Addresses
  import opened Swarms
  import opened SwarmLists

  /**
   `picks` names, from the back of the list to the front, entries of some kind, at most
   `n`; one of that kind is left out only when all `n` places went to more recent ones.
   */
  ghost predicate MostRecentOf(list: seq<Entry>, p: Entry -> bool, n: nat, picks: seq<nat>) {
    && |picks| <= n
    && (forall x :: 0 <= x < |picks| ==> picks[x] < |list| && p(list[picks[x]]))
    && (forall x, y :: 0 <= x < y < |picks| ==> picks[x] > picks[y])
    && (forall j :: 0 <= j < |list| && p(list[j]) && j !in picks
          ==> |picks| == n && forall x :: 0 <= x < n ==> j < picks[x])
  }

  function Picks(list: seq<Entry>, p: Entry -> bool, n: nat): seq<nat> {
    if list == [] || n == 0 then []
    else
      var last := |list| - 1;
      if p(list[last]) then [last] + Picks(list[..last], p, n - 1)
      else Picks(list[..last], p, n)
  }

  lemma PickTheLast(list: seq<Entry>, p: Entry -> bool, n: nat, more: seq<nat>)
    requires list != [] && n > 0 && p(list[|list| - 1])
    requires MostRecentOf(list[..|list| - 1], p, n - 1, more)
    ensures MostRecentOf(list, p, n, [|list| - 1] + more)
  {
    var last := |list| - 1;
    var rest, picks := list[..last], [last] + more;
    forall j | 0 <= j < |list| && p(list[j]) && j !in picks
      ensures |picks| == n && forall x :: 0 <= x < n ==> j < picks[x]
    {
      assert picks[0] == last && forall x :: x in more ==> x in picks;
      assert rest[j] == list[j];
    }
  }

  lemma UnpickTheLast(list: seq<Entry>, p: Entry -> bool, n: nat, picks: seq<nat>)
    requires list != [] && n > 0 && picks != [] && picks[0] == |list| - 1
    requires MostRecentOf(list, p, n, picks)
    ensures MostRecentOf(list[..|list| - 1], p, n - 1, picks[1..])
  {
    var last := |list| - 1;
    var rest, more := list[..last], picks[1..];
    assert forall x :: 0 <= x < |more| ==> more[x] == picks[x + 1] < last;
    forall j | 0 <= j < |rest| && p(rest[j]) && j !in more
      ensures |more| == n - 1 && forall x :: 0 <= x < n - 1 ==> j < more[x]
    {
      assert list[j] == rest[j];
      assert j !in picks by { assert picks == [last] + more; }
    }
  }

  lemma SkipTheLast(list: seq<Entry>, p: Entry -> bool, n: nat, picks: seq<nat>)
    requires list != [] && !p(list[|list| - 1])
    ensures MostRecentOf(list, p, n, picks) <==> MostRecentOf(list[..|list| - 1], p, n, picks)
  {
    var rest := list[..|list| - 1];
    assert forall j :: 0 <= j < |rest| ==> rest[j] == list[j];
  }

  /** The definition by choices has exactly one solution, found from the back. */
  lemma {:induction false} MostRecentUnique(list: seq<Entry>, p: Entry -> bool, n: nat, picks: seq<nat>)
    ensures MostRecentOf(list, p, n, picks) <==> picks == Picks(list, p, n)
  {
    if n == 0 {
      assert |picks| == 0 <==> picks == [];
    } else if list == [] {
      assert picks != [] ==> picks[0] >= |list|;
    } else {
      var last := |list| - 1;
      var rest := list[..last];
      if p(list[last]) {
        var more := Picks(rest, p, n - 1);
        MostRecentUnique(rest, p, n - 1, more);
        PickTheLast(list, p, n, more);
        if MostRecentOf(list, p, n, picks) {
          LastIsPickedFirst(list, p, n, picks);
          UnpickTheLast(list, p, n, picks);
          MostRecentUnique(rest, p, n - 1, picks[1..]);
        }
      } else {
        MostRecentUnique(rest, p, n, picks);
        SkipTheLast(list, p, n, picks);
      }
    }
  }

  lemma LastIsPickedFirst(list: seq<Entry>, p: Entry -> bool, n: nat, picks: seq<nat>)
    requires list != [] && n > 0 && p(list[|list| - 1])
    requires MostRecentOf(list, p, n, picks)
    ensures picks != [] && picks == [|list| - 1] + picks[1..]
  {
    assert |list| - 1 in picks;
    assert picks[0] == |list| - 1;
  }

  lemma FilterReverseStep(list: seq<Entry>, p: Entry -> bool)
    requires list != []
    ensures var last := |list| - 1;
            Filter(Reverse(list), p) ==
            (if p(list[last]) then [list[last]] else []) + Filter(Reverse(list[..last]), p)
  {
    assert Reverse(list)[1..] == Reverse(list[..|list| - 1]);
  }

  lemma TakeCons(e: Entry, tail: seq<Entry>, n: nat)
    requires n > 0
    ensures AddressesOf(Take([e] + tail, n)) == [e.addr] + AddressesOf(Take(tail, n - 1))
  {
    assert Take([e] + tail, n) == [e] + Take(tail, n - 1);
  }

  lemma LastOfStep(list: seq<Entry>, p: Entry -> bool, n: nat)
    requires list != [] && n > 0
    ensures var last := |list| - 1;
            LastOf(list, p, n) ==
            if p(list[last]) then [list[last].addr] + LastOf(list[..last], p, n - 1)
            else LastOf(list[..last], p, n)
  {
    var last := |list| - 1;
    var tail := Filter(Reverse(list[..last]), p);
    FilterReverseStep(list, p);
    if p(list[last]) {
      TakeCons(list[last], tail, n);
    } else {
      assert [] + tail == tail;
    }
  }

  /** What a walk from the back has collected once it reaches position `j`. */
  function Collected(list: seq<Entry>, r: Request, j: nat): seq<Address>
    requires j <= |list|
  {
    AddressesOf(Filter(Reverse(list[j..]), Eligible(r)))
  }

  lemma CollectedStep(list: seq<Entry>, r: Request, j: nat)
    requires j < |list|
    ensures MayTell(r, list[j]) ==> Collected(list, r, j) == Collected(list, r, j + 1) + [list[j].addr]
    ensures !MayTell(r, list[j]) ==> Collected(list, r, j) == Collected(list, r, j + 1)
  {
    hide AddressesOf;
    var seen, e := Filter(Reverse(list[j + 1..]), Eligible(r)), list[j];
    assert list[j..] == [e] + list[j + 1..];
    ReverseConcat([e], list[j + 1..]);
    assert Reverse([e]) == [e];
    FilterConcat(Reverse(list[j + 1..]), [e], Eligible(r));
    if MayTell(r, e) {
      AddressesConcat(seen, [e]);
      AddressesOne(e);
    } else {
      assert seen + [] == seen;
    }
  }

  lemma AddressesOne(e: Entry)
    ensures AddressesOf([e]) == [e.addr]
  {
  }

  lemma AddressesConcat(a: seq<Entry>, b: seq<Entry>)
    ensures AddressesOf(a + b) == AddressesOf(a) + AddressesOf(b)
  {
  }

  /** Stopping the walk early, once `n` are collected, loses nothing. */
  lemma StoppedWalk(list: seq<Entry>, r: Request, n: nat, j: nat)
    requires j <= |list| && |Collected(list, r, j)| <= n
    requires j == 0 || |Collected(list, r, j)| == n
    ensures Collected(list, r, j) == Selected(list, r, n)
  {
    var seen, unseen := Filter(Reverse(list[j..]), Eligible(r)), Filter(Reverse(list[..j]), Eligible(r));
    assert list == list[..j] + list[j..];
    ReverseConcat(list[..j], list[j..]);
    FilterConcat(Reverse(list[j..]), Reverse(list[..j]), Eligible(r));
    assert Filter(Reverse(list), Eligible(r)) == seen + unseen;
    assert Take(seen + unseen, n) == seen;
  }

  /** `told` are the addresses of the entries that `picks` names. */
  ghost predicate Names(list: seq<Entry>, told: seq<Address>, picks: seq<nat>) {
    && |told| == |picks|
    && forall p :: 0 <= p < |picks| ==> picks[p] < |list| && told[p] == list[picks[p]].addr
  }

  lemma NamesLonger(list: seq<Entry>, told: seq<Address>, picks: seq<nat>)
    requires list != [] && Names(list[..|list| - 1], told, picks)
    ensures Names(list, told, picks)
    ensures Names(list, [list[|list| - 1].addr] + told, [|list| - 1] + picks)
  {
  }

  lemma {:induction false} LastArePicked(list: seq<Entry>, p: Entry -> bool, n: nat)
    ensures Names(list, LastOf(list, p, n), Picks(list, p, n))
  {
    if list != [] && n > 0 {
      var last := |list| - 1;
      var m := if p(list[last]) then n - 1 else n;
      LastOfStep(list, p, n);
      LastArePicked(list[..last], p, m);
      NamesLonger(list, LastOf(list[..last], p, m), Picks(list[..last], p, m));
    }
  }

  /** The last entries of a kind are the one choice of most recent ones, named in order. */
  lemma SelectionIsMostRecent(list: seq<Entry>, p: Entry -> bool, n: nat, picks: seq<nat>)
    ensures MostRecentOf(list, p, n, picks) <==> picks == Picks(list, p, n)
    ensures MostRecentOf(list, p, n, picks) ==> Names(list, LastOf(list, p, n), picks)
  {
    MostRecentUnique(list, p, n, picks);
    LastArePicked(list, p, n);
  }

  // ------------------------------------------------ a reply, told from the list before it

  /**
   The peers a requester can use: other peers, by index key and by peer id, and IPv6 ones
   only when the requester did not come by IPv4 and did not ask to be spared them.
   */
  function Usable(r: Request): Entry -> bool {
    (e: Entry) =>
      && e.Key() != r.addr.Key()
      && e.peerid != r.peerid
      && (e.addr.family.Inet6? ==> !r.addr.family.Inet? && !r.skipIpv6)
  }

  lemma {:induction false} FilterAgrees(s: seq<Entry>, p: Entry -> bool, q: Entry -> bool)
    requires forall e :: e in s ==> p(e) == q(e)
    ensures Filter(s, p) == Filter(s, q)
  {
    if s != [] {
      FilterAgrees(s[1..], p, q);
    }
  }

  lemma {:induction false} FilterTwice(s: seq<Entry>, p: Entry -> bool, q: Entry -> bool)
    requires forall e :: q(e) ==> p(e)
    ensures Filter(Filter(s, p), q) == Filter(s, q)
  {
    if s != [] {
      FilterTwice(s[1..], p, q);
      FilterConcat(if p(s[0]) then [s[0]] else [], Filter(s[1..], p), q);
    }
  }

  lemma {:induction false} FilterReverse(s: seq<Entry>, p: Entry -> bool)
    ensures Filter(Reverse(s), p) == Reverse(Filter(s, p))
  {
    if s != [] {
      var last := |s| - 1;
      FilterReverse(s[..last], p);
      FilterReverseStep(s, p);
      assert s == s[..last] + [s[last]];
      FilterConcat(s[..last], [s[last]], p);
      ReverseConcat(Filter(s[..last], p), Filter([s[last]], p));
    }
  }

  /** Nobody but the requester has its key once it joined, so its own key is all that is barred. */
  lemma EligibleAreUsable(r: Request, e: Entry)
    requires e.Key() != r.addr.Key()
    ensures MayTell(r, e) == Usable(r)(e)
  {
    EqualsIffSameKey(r.addr, e.addr);
  }

  /** The walk after the requester joined finds the last usable peers of the list before. */
  lemma RepliedFromBefore(o: Options, list: seq<Entry>, r: Request, now: int)
    requires !r.kind.Stopped?
    ensures RepliedAddresses(o, list, r, now) == LastOf(list, Usable(r), o.ClampNumwant(r.numWant))
  {
    hide Options.ClampNumwant, Usable, MayTell, AddressesOf, Take;
    var key, e := r.addr.Key(), EntryOf(o, r, now);
    var rest := Without(list, key);
    assert Filter(Reverse(rest + [e]), Eligible(r)) == Filter(Reverse(rest), Eligible(r)) by {
      assert !Eligible(r)(e) by { RequesterIsNotEligible(o, r, now); }
      FilterReverseStep(rest + [e], Eligible(r));
      assert (rest + [e])[..|rest|] == rest;
    }
    forall x | x in rest ensures Eligible(r)(x) == Usable(r)(x) {
      EligibleAreUsable(r, x);
    }
    FilterAgrees(Reverse(rest), Eligible(r), Usable(r));
    UsableAreOthers(r);
    FilterReverse(rest, Usable(r));
    FilterTwice(list, NotKeyed(key), Usable(r));
    FilterReverse(list, Usable(r));
  }

  lemma RequesterIsNotEligible(o: Options, r: Request, now: int)
    ensures !MayTell(r, EntryOf(o, r, now)) && EntryOf(o, r, now).Key() == r.addr.Key()
  {
  }

  lemma UsableAreOthers(r: Request)
    ensures forall e :: Usable(r)(e) ==> NotKeyed(r.addr.Key())(e)
  {
  }

  /**
   Whom a reply names, in terms of the list before the request: a stopping peer is told
   nobody; any other is told the most recently announced peers it can use, most recent
   first, as many as its clamped `numwant`, and fewer only when it is told all of them.
   */
  lemma ReplyIsMostRecent(o: Options, list: seq<Entry>, r: Request, now: int, picks: seq<nat>)
    ensures r.kind.Stopped? ==> RepliedAddresses(o, list, r, now) == []
    ensures var n := o.ClampNumwant(r.numWant);
            && (MostRecentOf(list, Usable(r), n, picks) <==> picks == Picks(list, Usable(r), n))
            && (!r.kind.Stopped? && MostRecentOf(list, Usable(r), n, picks) ==>
                  Names(list, RepliedAddresses(o, list, r, now), picks))
  {
    hide MostRecentOf, Names, Usable, Options.ClampNumwant, LastOf, Picks;
    var n := o.ClampNumwant(r.numWant);
    SelectionIsMostRecent(list, Usable(r), n, picks);
    if !r.kind.Stopped? {
      RepliedFromBefore(o, list, r, now);
    }
  }

  /** A reply short of `numwant` names every tracked peer the requester can use. */
  lemma ShortReplyTellsAll(o: Options, list: seq<Entry>, r: Request, now: int, e: Entry)
    requires !r.kind.Stopped? && e in list
    requires e.Key() != r.addr.Key() && e.peerid != r.peerid
    requires e.addr.family.Inet6? ==> !r.addr.family.Inet? && !r.skipIpv6
    requires |RepliedAddresses(o, list, r, now)| < o.ClampNumwant(r.numWant)
    ensures e.addr in RepliedAddresses(o, list, r, now)
  {
    hide RepliedAddresses, Options.ClampNumwant, Picks;
    var picks := Picks(list, Usable(r), o.ClampNumwant(r.numWant));
    ReplyIsMostRecent(o, list, r, now, picks);
    var j :| 0 <= j < |list| && list[j] == e;
    assert j in picks;
  }

  /** How many peers are told: those the requester can use, up to its clamped `numwant`. */
  lemma ReplySize(o: Options, list: seq<Entry>, r: Request, now: int)
    requires !r.kind.Stopped?
    ensures var usable, n := |Filter(list, Usable(r))|, o.ClampNumwant(r.numWant);
            |RepliedAddresses(o, list, r, now)| == if usable < n then usable else n
  {
    hide RepliedAddresses, Options.ClampNumwant, Usable;
    RepliedFromBefore(o, list, r, now);
    FilterReverse(list, Usable(r));
  }

  /**
   What a reply never holds, for a well-formed swarm: the same peer twice, the requester
   itself (by index key, whatever its family), more than the clamped `numwant`
   addresses, or an IPv6 address for a requester that cannot use it.
   */
  lemma ReplyIsSafe(o: Options, list: seq<Entry>, r: Request, now: int)
    requires Distinct(list)
    ensures var addrs := RepliedAddresses(o, list, r, now);
            && |addrs| <= o.ClampNumwant(r.numWant)
            && (forall p, q :: 0 <= p < q < |addrs| ==> addrs[p].Key() != addrs[q].Key())
            && (forall a :: a in addrs ==> a.Key() != r.addr.Key())
            && (r.addr.family.Inet? || r.skipIpv6 ==> forall a :: a in addrs ==> !a.family.Inet6?)
  {
    hide RepliedAddresses, Options.ClampNumwant, Picks;
    ReplyIsMostRecent(o, list, r, now, Picks(list, Usable(r), o.ClampNumwant(r.numWant)));
  }

  /**
   Every address told is that of a peer tracked before the announce, under another peer
   id and another address than the requester's, and of a usable family.
   */
  lemma ToldWereTracked(o: Options, list: seq<Entry>, r: Request, now: int)
    ensures forall a :: a in RepliedAddresses(o, list, r, now) ==>
              && (exists e :: e in list && e.addr == a && e.peerid != r.peerid)
              && !r.addr.Equals(a)
              && (r.addr.family.Inet? || r.skipIpv6 ==> !a.family.Inet6?)
  {
    hide RepliedAddresses, Options.ClampNumwant, Picks, Address.Equals;
    var told := RepliedAddresses(o, list, r, now);
    ReplyIsMostRecent(o, list, r, now, Picks(list, Usable(r), o.ClampNumwant(r.numWant)));
    forall a | a in told ensures !r.addr.Equals(a) {
      EqualsIffSameKey(r.addr, a);
    }
  }

  /**
   A peer whose address has no family is tracked, and told to the next peer that asks: the
   check against the requester's address never matches it.
   */
  lemma FamilylessPeerIsTold(o: Options, r1: Request, t1: int, r2: Request, t2: int)
    requires o.Valid() && o.maxPeers >= 1 && o.minNumwant >= 1
    requires !r1.kind.Stopped? && !r2.kind.Stopped? && r1.addr.family.Unspec?
    requires r1.peerid != r2.peerid && r1.addr.Key() != r2.addr.Key()
    ensures var list := Run(o, [Announce(r1, t1)]).list;
            && list == [EntryOf(o, r1, t1)]
            && RepliedAddresses(o, list, r2, t2) == [r1.addr]
  {
    hide Run, LastOf, Address.Key, AsInt64, Options.ClampNumwant;
    var e1, e2, n := EntryOf(o, r1, t1), EntryOf(o, r2, t2), o.ClampNumwant(r2.numWant);
    LonePeer(o, r1, t1);
    assert n >= 1 by { ClampNumwantMeaning(o, r2.numWant); }
    assert Joined(o, [e1], r2, t2) == [e1, e2];
    assert [e1, e2][..1] == [e1] && [e1][..0] == [];
    LastOfStep([e1, e2], Eligible(r2), n);
    LastOfStep([e1], Eligible(r2), n);
    NobodyToTell(Eligible(r2), n - 1);
  }

  lemma NobodyToTell(p: Entry -> bool, n: nat)
    ensures LastOf([], p, n) == []
  {
  }

  /**
   `numwant` is respected within the operator's bounds; in particular the 32-bit pattern
   of -1, which clients send for "default", asks for the minimum.
   */
  lemma ClampNumwantMeaning(o: Options, want: uint32)
    requires o.Valid()
    ensures o.minNumwant <= o.ClampNumwant(want) <= o.maxNumwant
    ensures o.minNumwant <= want <= o.maxNumwant ==> o.ClampNumwant(want) == want
    ensures want < o.minNumwant || want >= 0x8000_0000 ==> o.ClampNumwant(want) == o.minNumwant
    ensures o.maxNumwant < want < 0x8000_0000 ==> o.ClampNumwant(want) == o.maxNumwant
  {
  }
}

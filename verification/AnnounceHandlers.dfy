/**
 Two parts of the HTTP announce handler: reading `numwant`, and the compact peer strings
 (`peers` of BEP 23 for IPv4, `peers6` of BEP 7 for IPv6).
 */
module AnnounceHandlers {
  import opened Bytes
  import opened Sequences
  import opened Addresses
  import opened Swarms
  import opened SwarmSelection
  import opened Records

  // --------------------------------------------------------------------------- numwant

  type int32 = x: int | -0x8000_0000 <= x < 0x8000_0000

  /**
   The field of the request: the minimum when the query does not say, else the number
   given, cut to the maximum as an `int` and stored unsigned.
   */
  function ParsedNumwant(o: Options, given: Option<int32>): uint32 {
    match given
    case None => o.minNumwant
    case Some(want) => (if want < o.maxNumwant then want as int else o.maxNumwant as int) % WRAP32
  }

  /**
   The detour over an unsigned field loses nothing: the torrent ends up with the number
   given, clamped to the operator's bounds, also when that number is negative.
   */
  lemma NumwantSurvives(o: Options, given: Option<int32>)
    requires o.Valid()
    ensures o.ClampNumwant(ParsedNumwant(o, given)) ==
            match given {
              case None => o.minNumwant
              case Some(want) =>
                if want < o.minNumwant then o.minNumwant else if want > o.maxNumwant then o.maxNumwant else want
            }
  {
    if given.Some? && given.value < 0 {
      assert given.value % WRAP32 == given.value + WRAP32;
    }
  }

  // --------------------------------------------------------------------- compact peers

  predicate IsIpv4(a: Address) { a.family.Inet? }

  predicate IsIpv6(a: Address) { a.family.Inet6? }

  /** The address and port bytes of each address. */
  function KeysOf(addrs: seq<Address>): (keys: seq<seq<byte>>)
    ensures |keys| == |addrs|
    ensures forall i :: 0 <= i < |keys| ==> keys[i] == addrs[i].Key()
  {
    seq(|addrs|, i requires 0 <= i < |addrs| => addrs[i].Key())
  }

  /** The joined bytes of the addresses of one family. */
  function Packed(addrs: seq<Address>, family: Address -> bool): seq<byte> {
    Concat(KeysOf(Filter(addrs, family)))
  }

  lemma PackedStep(addrs: seq<Address>, last: Address, family: Address -> bool)
    ensures family(last) ==> Packed(addrs + [last], family) == Packed(addrs, family) + last.Key()
    ensures !family(last) ==> Packed(addrs + [last], family) == Packed(addrs, family)
  {
    var chosen := Filter(addrs, family);
    FilterConcat(addrs, [last], family);
    if family(last) {
      assert Filter([last], family) == [last];
      assert KeysOf(chosen + [last])[..|chosen|] == KeysOf(chosen);
    } else {
      assert Filter([last], family) == [];
      assert chosen + [] == chosen;
    }
  }

  lemma PackedEnds(addrs: seq<Address>, family: Address -> bool)
    ensures Packed(addrs[..0], family) == []
    ensures addrs[..|addrs|] == addrs
  {
    assert addrs[..0] == [];
    assert KeysOf(Filter([], family)) == [];
  }

  /** Appending the two parts of an address is appending its key. */
  lemma KeyInTwoParts(data: seq<byte>, it: Address, ipSize: nat)
    requires ipSize + 2 == |it.Key()|
    ensures data + it.storage[..ipSize] + it.storage[ipSize..ipSize + 2] == data + it.Key()
  {
  }

  /** The loop that appends each address to the string of its family. */
  method CompactPeers(addrs: seq<Address>) returns (data: seq<byte>, data6: seq<byte>)
    ensures data == Packed(addrs, IsIpv4) && data6 == Packed(addrs, IsIpv6)
  {
    hide Packed, Address.Key;
    data, data6 := [], [];
    PackedEnds(addrs, IsIpv4);
    PackedEnds(addrs, IsIpv6);
    for i := 0 to |addrs|
      invariant data == Packed(addrs[..i], IsIpv4)
      invariant data6 == Packed(addrs[..i], IsIpv6)
    {
      var it := addrs[i];
      assert addrs[..i + 1] == addrs[..i] + [it];
      PackedStep(addrs[..i], it, IsIpv4);
      PackedStep(addrs[..i], it, IsIpv6);
      KeySizes(it);
      if it.family.Inet? {
        KeyInTwoParts(data, it, 4);
        data := data + it.storage[..4];
        data := data + it.storage[4..6];
      } else if it.family.Inet6? {
        KeyInTwoParts(data6, it, 16);
        data6 := data6 + it.storage[..16];
        data6 := data6 + it.storage[16..18];
      }
    }
  }

  lemma KeySizes(a: Address)
    ensures |a.Key()| == if a.family.Inet? then IN_SIZE else IN6_SIZE
  {
  }

  /** Cutting one string into records gives the addresses of its family, in order. */
  lemma PackedRecovers(addrs: seq<Address>, family: Address -> bool, size: nat, i: nat)
    requires forall a: Address :: family(a) ==> |a.Key()| == size
    requires i < |Filter(addrs, family)|
    ensures |Packed(addrs, family)| == |Filter(addrs, family)| * size
    ensures (i + 1) * size <= |Packed(addrs, family)|
    ensures RecordAt(Packed(addrs, family), size, i) == Filter(addrs, family)[i].Key()
  {
    var chosen := Filter(addrs, family);
    forall j | 0 <= j < |chosen| ensures |KeysOf(chosen)[j]| == size {
      assert chosen[j] in chosen;
    }
    RecordsRecovered(KeysOf(chosen), size, i);
  }

  lemma PackedSize(addrs: seq<Address>, family: Address -> bool, size: nat)
    requires size > 0 && forall a: Address :: family(a) ==> |a.Key()| == size
    ensures |Packed(addrs, family)| / size == |Filter(addrs, family)|
  {
    var chosen := Filter(addrs, family);
    forall j | 0 <= j < |chosen| ensures |KeysOf(chosen)[j]| == size {
      assert chosen[j] in chosen;
    }
    RecordCount(KeysOf(chosen), size);
  }

  /** Both strings together recover the reply's addresses, family by family, in order. */
  lemma CompactSplitRecovers(addrs: seq<Address>)
    ensures var v4, v6 := Filter(addrs, IsIpv4), Filter(addrs, IsIpv6);
            var data, data6 := Packed(addrs, IsIpv4), Packed(addrs, IsIpv6);
            && |data| == |v4| * IN_SIZE && |data6| == |v6| * IN6_SIZE
            && (forall i :: 0 <= i < |v4| ==>
                  (i + 1) * IN_SIZE <= |data| && RecordAt(data, IN_SIZE, i) == v4[i].Key())
            && (forall i :: 0 <= i < |v6| ==>
                  (i + 1) * IN6_SIZE <= |data6| && RecordAt(data6, IN6_SIZE, i) == v6[i].Key())
  {
    hide Packed;
    var v4, v6 := Filter(addrs, IsIpv4), Filter(addrs, IsIpv6);
    forall i | 0 <= i < |v4|
      ensures (i + 1) * IN_SIZE <= |Packed(addrs, IsIpv4)|
      ensures RecordAt(Packed(addrs, IsIpv4), IN_SIZE, i) == v4[i].Key()
    {
      PackedRecovers(addrs, IsIpv4, IN_SIZE, i);
    }
    forall i | 0 <= i < |v6|
      ensures (i + 1) * IN6_SIZE <= |Packed(addrs, IsIpv6)|
      ensures RecordAt(Packed(addrs, IsIpv6), IN6_SIZE, i) == v6[i].Key()
    {
      PackedRecovers(addrs, IsIpv6, IN6_SIZE, i);
    }
    PackedExactSize(addrs, IsIpv4, IN_SIZE);
    PackedExactSize(addrs, IsIpv6, IN6_SIZE);
  }

  lemma PackedExactSize(addrs: seq<Address>, family: Address -> bool, size: nat)
    requires forall a: Address :: family(a) ==> |a.Key()| == size
    ensures |Packed(addrs, family)| == |Filter(addrs, family)| * size
  {
    var chosen := Filter(addrs, family);
    forall j | 0 <= j < |chosen| ensures |KeysOf(chosen)[j]| == size {
      assert chosen[j] in chosen;
    }
    ConcatSize(KeysOf(chosen), size);
  }

  /** No peer is lost, exactly when every address has a family. */
  lemma CompactSplitIsComplete(addrs: seq<Address>)
    ensures |Packed(addrs, IsIpv4)| / IN_SIZE + |Packed(addrs, IsIpv6)| / IN6_SIZE == |addrs| <==>
            forall a :: a in addrs ==> !a.family.Unspec?
  {
    hide Packed;
    PackedSize(addrs, IsIpv4, IN_SIZE);
    PackedSize(addrs, IsIpv6, IN6_SIZE);
    FamiliesCount(addrs);
  }

  /**
   And one may have none: a peer that announced an address without a family is chosen for
   the next requester's reply, and neither string holds a record for it.
   */
  lemma FamilylessPeerIsLost(o: Options, r1: Request, t1: int, r2: Request, t2: int)
    requires o.Valid() && o.maxPeers >= 1 && o.minNumwant >= 1
    requires !r1.kind.Stopped? && !r2.kind.Stopped? && r1.addr.family.Unspec?
    requires r1.peerid != r2.peerid && r1.addr.Key() != r2.addr.Key()
    ensures var addrs := RepliedAddresses(o, Run(o, [Announce(r1, t1)]).list, r2, t2);
            && addrs == [r1.addr]
            && Packed(addrs, IsIpv4) == [] && Packed(addrs, IsIpv6) == []
  {
    FamilylessPeerIsTold(o, r1, t1, r2, t2);
    var addrs := [r1.addr];
    assert Filter(addrs, IsIpv4) == [] && Filter(addrs, IsIpv6) == [];
  }

  lemma {:induction false} FamiliesCount(addrs: seq<Address>)
    ensures |Filter(addrs, IsIpv4)| + |Filter(addrs, IsIpv6)| <= |addrs|
    ensures |Filter(addrs, IsIpv4)| + |Filter(addrs, IsIpv6)| == |addrs| <==>
            forall a :: a in addrs ==> !a.family.Unspec?
  {
    if addrs != [] {
      FamiliesCount(addrs[1..]);
      assert addrs == [addrs[0]] + addrs[1..];
    }
  }
}

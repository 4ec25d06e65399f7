/**
 Internet addresses as the tracker stores them: a family tag beside a union of
 two packed layouts (4 address bytes and 2 port bytes, or 16 and 2) over the same
 18 bytes of storage.  The significant prefix of the storage is the peer index key.
 */
module Addresses {
  import opened Bytes
  import opened Sequences

  datatype Family = Unspec | Inet | Inet6

  const IN_SIZE: nat := 6
  const IN6_SIZE: nat := 18

  type Storage = s: seq<byte> | |s| == IN6_SIZE witness Zeroes(IN6_SIZE)
  type PortBytes = s: seq<byte> | |s| == 2 witness Zeroes(2)
  type Ipv4 = s: seq<byte> | |s| == 4 witness Zeroes(4)
  type Ipv6 = s: seq<byte> | |s| == 16 witness Zeroes(16)
  type Key = seq<byte>

  datatype Address = Address(family: Family, storage: Storage) {

    /** The index key: the 6-byte layout for IPv4, the 18-byte layout otherwise. */
    function Key(): Key {
      if family.Inet? then storage[..IN_SIZE] else storage
    }

    /** `operator==`: an address without a family equals nothing, itself included. */
    predicate Equals(other: Address) {
      && family == other.family
      && match family {
           case Inet => storage[..IN_SIZE] == other.storage[..IN_SIZE]
           case Inet6 => storage == other.storage
           case Unspec => false
         }
    }

    /** The port in host byte order. */
    function Port(): uint16 {
      match family
      case Inet => U16(storage[4..6])
      case Inet6 => U16(storage[16..18])
      case Unspec => 0
    }

    function WithPort(port: uint16): Address {
      match family
      case Inet => Address(family, Overwrite(storage, 4, BigEndian(port, 2)))
      case Inet6 => Address(family, Overwrite(storage, 16, BigEndian(port, 2)))
      case Unspec => this
    }

    /** Assignment from a socket address; only the bytes of the chosen layout change. */
    function Assigned(source: SockAddr): Address {
      match source
      case SockIn(port, ip) => Address(Inet, ip + port + storage[IN_SIZE..])
      case SockIn6(port, ip) =>
        if IsMapped(ip) then Address(Inet, ip[12..] + port + storage[IN_SIZE..])
        else Address(Inet6, ip + port)
      case SockOther => Address(Unspec, storage)
    }
  }

  /** What the kernel hands over; the port is in network byte order. */
  datatype SockAddr =
    | SockIn(port: PortBytes, ip: Ipv4)
    | SockIn6(port: PortBytes, ip6: Ipv6)
    | SockOther

  /** The IPv4-mapped prefix of RFC 4291 section 2.5.5.2. */
  const MAPPED_PREFIX: seq<byte> := Zeroes(10) + [0xFF, 0xFF]

  predicate IsMapped(ip: Ipv6) {
    ip[..12] == MAPPED_PREFIX
  }

  /** The plain IPv4 socket address that a mapped IPv6 one stands for. */
  function Canonical(source: SockAddr): SockAddr {
    match source
    case SockIn6(port, ip) => if IsMapped(ip) then SockIn(port, ip[12..]) else source
    case _ => source
  }

  // ------------------------------------------------------------------- properties

  /** Equality is exactly equality of keys, once both sides carry a family. */
  lemma EqualsIffSameKey(a: Address, b: Address)
    ensures a.Equals(b) <==> a.Key() == b.Key() && !a.family.Unspec? && !b.family.Unspec?
  {
    assert |a.Key()| == if a.family.Inet? then IN_SIZE else IN6_SIZE;
    assert |b.Key()| == if b.family.Inet? then IN_SIZE else IN6_SIZE;
  }

  /** The length of a key tells IPv4 from everything else, so keys never mix the two. */
  lemma KeyLengthTellsFamily(a: Address, b: Address)
    requires a.Key() == b.Key()
    ensures a.family.Inet? <==> b.family.Inet?
  {
    assert |a.Key()| == |b.Key()|;
  }

  /**
   Two socket addresses lead to the same key exactly when they are the same after
   unmapping, whatever bytes the union held before.
   */
  lemma AssignedKeyIsCanonical(old1: Address, old2: Address, s1: SockAddr, s2: SockAddr)
    requires !s1.SockOther? && !s2.SockOther?
    ensures old1.Assigned(s1).Key() == old2.Assigned(s2).Key() <==> Canonical(s1) == Canonical(s2)
    ensures old1.Assigned(s1).Equals(old2.Assigned(s2)) <==> Canonical(s1) == Canonical(s2)
  {
    var a, b := old1.Assigned(s1), old2.Assigned(s2);
    EqualsIffSameKey(a, b);
    AssignedFields(old1, s1);
    AssignedFields(old2, s2);
    var c, d := Canonical(s1), Canonical(s2);
    if a.Key() == b.Key() {
      KeyLengthTellsFamily(a, b);
      if c.SockIn? {
        assert c.ip == a.Key()[..4] && c.port == a.Key()[4..];
        assert d.ip == b.Key()[..4] && d.port == b.Key()[4..];
      } else {
        assert c.ip6 == a.Key()[..16] && c.port == a.Key()[16..];
        assert d.ip6 == b.Key()[..16] && d.port == b.Key()[16..];
      }
    }
  }

  /**
   An IPv6 socket address is stored as IPv4 exactly when it is ten zero bytes and two of
   all ones before four others, and then it is the IPv4 address of those four.
   */
  lemma MappedIffPrefixed(previous: Address, port: PortBytes, ip: Ipv6)
    ensures var a := previous.Assigned(SockIn6(port, ip));
            var prefixed := (forall i :: 0 <= i < 10 ==> ip[i] == 0) && ip[10] == 255 && ip[11] == 255;
            && (a.family.Inet? <==> prefixed)
            && (a.family.Inet6? <==> !prefixed)
            && (prefixed ==> a == previous.Assigned(SockIn(port, ip[12..])))
  {
    var prefix := ip[..12];
    assert forall i :: 0 <= i < 12 ==> ip[i] == prefix[i];
    assert |MAPPED_PREFIX| == 12 && MAPPED_PREFIX[10] == 255 && MAPPED_PREFIX[11] == 255;
    assert forall i :: 0 <= i < 10 ==> MAPPED_PREFIX[i] == 0;
  }

  /** The key of an assigned address is the canonical address bytes, then the port. */
  lemma AssignedFields(previous: Address, source: SockAddr)
    requires !source.SockOther?
    ensures match Canonical(source) {
              case SockIn(port, ip) =>
                previous.Assigned(source).family.Inet? && previous.Assigned(source).Key() == ip + port
              case SockIn6(port, ip) =>
                previous.Assigned(source).family.Inet6? && previous.Assigned(source).Key() == ip + port
              case SockOther => false
            }
  {
    var a := previous.Assigned(source);
    match Canonical(source)
    case SockIn(port, ip) =>
      assert a.storage == ip + port + previous.storage[IN_SIZE..];
      assert a.Key() == ip + port;
    case SockIn6(port, ip) =>
  }

  /** Setting the port reads back, and touches nothing else; without a family, nothing at all. */
  lemma PortRoundTrip(a: Address, port: uint16)
    ensures a.WithPort(port).family == a.family
    ensures a.family.Inet? ==> a.WithPort(port).storage[..4] == a.storage[..4]
    ensures a.family.Inet? ==> a.WithPort(port).storage[6..] == a.storage[6..]
    ensures a.family.Inet6? ==> a.WithPort(port).storage[..16] == a.storage[..16]
    ensures a.family.Unspec? ==> a.WithPort(port) == a
    ensures a.WithPort(port).Port() == if a.family.Unspec? then 0 else port
  {
    Pow256Values();
    BigEndianRoundTrip(port, 2);
    match a.family
    case Inet => assert a.WithPort(port).storage[4..6] == BigEndian(port, 2);
    case Inet6 => assert a.WithPort(port).storage[16..18] == BigEndian(port, 2);
    case Unspec =>
  }

  // ----------------------------------------------------------- the mutable structure

  /** An `Address` object whose union is written in place. */
  class AddressCell {
    var family: Family
    const union: array<byte>

    ghost predicate Valid()
      reads this, union
    {
      union.Length == IN6_SIZE
    }

    function Value(): Address
      reads this, union
      requires Valid()
    {
      Address(family, union[..])
    }

    /** The default constructor sets the family only; `garbage` is what the union holds. */
    constructor (garbage: Storage)
      ensures Valid() && fresh(union)
      ensures Value() == Address(Unspec, garbage)
    {
      family := Unspec;
      var u := new byte[IN6_SIZE](i requires 0 <= i < IN6_SIZE => garbage[i]);
      union := u;
      new;
      assert union[..] == garbage;
    }

    /** Assignment from a `sockaddr_in`; a null pointer changes nothing. */
    method AssignIn(source: Option<SockAddr>)
      requires Valid()
      requires source.Some? ==> source.value.SockIn?
      modifies this, union
      ensures Valid()
      ensures Value() == if source.None? then old(Value()) else old(Value()).Assigned(source.value)
    {
      if source.None? {
        return;
      }
      family := Inet;
      CopyInto(union, 4, source.value.port);
      CopyInto(union, 0, source.value.ip);
      assert union[..] == source.value.ip + source.value.port + old(union[..])[IN_SIZE..];
    }

    /** Assignment from a `sockaddr_in6`, which unmaps IPv4-mapped addresses. */
    method AssignIn6(source: Option<SockAddr>)
      requires Valid()
      requires source.Some? ==> source.value.SockIn6?
      modifies this, union
      ensures Valid()
      ensures Value() == if source.None? then old(Value()) else old(Value()).Assigned(source.value)
    {
      if source.None? {
        return;
      }
      var ip := source.value.ip6;
      if ip[..12] != MAPPED_PREFIX {
        family := Inet6;
        CopyInto(union, 16, source.value.port);
        CopyInto(union, 0, ip);
        assert union[..] == ip + source.value.port;
      } else {
        family := Inet;
        CopyInto(union, 4, source.value.port);
        CopyInto(union, 0, ip[12..]);
        assert union[..] == ip[12..] + source.value.port + old(union[..])[IN_SIZE..];
      }
    }

    /** Assignment from a generic `sockaddr`, dispatching on its family. */
    method Assign(source: Option<SockAddr>)
      requires Valid()
      modifies this, union
      ensures Valid()
      ensures Value() == if source.None? then old(Value()) else old(Value()).Assigned(source.value)
    {
      if source.None? {
        return;
      }
      match source.value {
        case SockIn(_, _) => AssignIn(source);
        case SockIn6(_, _) => AssignIn6(source);
        case SockOther => family := Unspec;
      }
    }

    /** Writes an IPv4 family and address bytes directly, leaving the port bytes alone. */
    method OverrideIpv4(ip: Ipv4)
      requires Valid()
      modifies this, union
      ensures Valid()
      ensures Value() == Address(Inet, ip + old(union[..])[4..])
    {
      family := Inet;
      CopyInto(union, 0, ip);
      assert union[..] == ip + old(union[..])[4..];
    }

    method SetPort(port: uint16)
      requires Valid()
      modifies union
      ensures Valid()
      ensures Value() == old(Value()).WithPort(port)
    {
      match family {
        case Inet => CopyInto(union, 4, BigEndian(port, 2));
        case Inet6 => CopyInto(union, 16, BigEndian(port, 2));
        case Unspec =>
      }
    }
  }
}

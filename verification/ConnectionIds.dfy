/**
 Connection ids of the UDP protocol: a sum, over the bytes of the caller's address,
 of byte products mixed with the next byte of a 32-byte secret.
 */
module ConnectionIds {
  import opened Bytes
  import opened Addresses

  const SECRET_SIZE: nat := 32

  type Secret = s: seq<byte> | |s| == SECRET_SIZE witness Zeroes(SECRET_SIZE)

  /** Bitwise exclusive or of two non-negative integers. */
  function Xor(a: nat, b: nat): nat
    decreases a + b
  {
    if a == 0 && b == 0 then 0
    else (if a % 2 == b % 2 then 0 else 1) + 2 * Xor(a / 2, b / 2)
  }

  /** Bit `n` of a non-negative integer, counted from the lowest. */
  predicate Bit(a: nat, n: nat) {
    if n == 0 then a % 2 == 1 else Bit(a / 2, n - 1)
  }

  lemma XorUnfolds(a: nat, b: nat)
    ensures Xor(a, b) == (if a % 2 == b % 2 then 0 else 1) + 2 * Xor(a / 2, b / 2)
  {
    assert a == 0 && b == 0 ==> Xor(0, 0) == 0;
  }

  lemma Halving(low: nat, high: nat)
    requires low < 2
    ensures (low + 2 * high) % 2 == low && (low + 2 * high) / 2 == high
  {
  }

  lemma XorHalves(a: nat, b: nat)
    ensures Xor(a, b) % 2 == 1 <==> a % 2 != b % 2
    ensures Xor(a, b) / 2 == Xor(a / 2, b / 2)
  {
    hide Xor;
    XorUnfolds(a, b);
    Halving(if a % 2 == b % 2 then 0 else 1, Xor(a / 2, b / 2));
  }

  /** Bit by bit, the result is set where exactly one operand is. */
  lemma {:induction false} XorBits(a: nat, b: nat, n: nat)
    ensures Bit(Xor(a, b), n) <==> Bit(a, n) != Bit(b, n)
    decreases n
  {
    hide Xor;
    XorHalves(a, b);
    if n > 0 {
      XorBits(a / 2, b / 2, n - 1);
    }
  }

  /** No carries: exclusive or never exceeds the sum, and loses a common low bit. */
  lemma {:induction false} XorBelowSum(a: nat, b: nat)
    ensures Xor(a, b) <= a + b - 2 * (a % 2) * (b % 2)
    decreases a + b
  {
    if a != 0 || b != 0 {
      XorBelowSum(a / 2, b / 2);
    }
  }

  /** A product of bytes, after promotion to a wider integer. */
  function Product(x: int, y: int): int {
    x * y
  }

  /** The contribution of address byte `j`: `(ip[j] * s[j]) ^ s[j + 1]` in C precedence. */
  function Term(secret: seq<byte>, ip: seq<byte>, j: nat): nat
    requires j < |ip| && j + 1 < |secret|
  {
    ByteProduct(ip[j], secret[j]);
    Xor(Product(ip[j], secret[j]), secret[j + 1])
  }

  /** The sum of the first `n` contributions, over unbounded integers. */
  function IdSum(secret: seq<byte>, ip: seq<byte>, n: nat): nat
    requires n <= |ip| && n < |secret|
  {
    if n == 0 then 0 else IdSum(secret, ip, n - 1) + Term(secret, ip, n - 1)
  }

  const MAX_TERM: nat := 65279

  lemma TermBound(secret: seq<byte>, ip: seq<byte>, j: nat)
    requires j < |ip| && j + 1 < |secret|
    ensures Term(secret, ip, j) <= MAX_TERM
  {
    ByteProduct(ip[j], secret[j]);
    XorBelowSum(Product(ip[j], secret[j]), secret[j + 1]);
  }

  lemma ByteProduct(x: byte, y: byte)
    ensures 0 <= Product(x, y) <= 65025
  {
    assert Product(x, y) <= 255 * y;
  }

  lemma {:induction false} IdSumBound(secret: seq<byte>, ip: seq<byte>, n: nat)
    requires n <= |ip| && n < |secret|
    ensures IdSum(secret, ip, n) <= n * MAX_TERM
  {
    if n > 0 {
      IdSumBound(secret, ip, n - 1);
      TermBound(secret, ip, n - 1);
    }
  }

  /** Only the first `n + 1` bytes of the secret are read. */
  lemma {:induction false} IdSumReadsPrefix(s1: seq<byte>, s2: seq<byte>, ip: seq<byte>, n: nat)
    requires n <= |ip| && n < |s1| && n < |s2|
    requires s1[..n + 1] == s2[..n + 1]
    ensures IdSum(s1, ip, n) == IdSum(s2, ip, n)
  {
    if n > 0 {
      assert s1[..n] == s1[..n + 1][..n] == s2[..n + 1][..n] == s2[..n];
      assert s1[n - 1] == s1[..n + 1][n - 1] && s1[n] == s1[..n + 1][n];
      IdSumReadsPrefix(s1, s2, ip, n - 1);
    }
  }

  /** The id of an address: IPv4 and IPv6 by their bytes, 42 for any other family. */
  function ConnectionId(secret: Secret, from: SockAddr): uint64 {
    match from
    case SockIn(_, ip) => IdSumBound(secret, ip, 4); IdSum(secret, ip, 4)
    case SockIn6(_, ip) => IdSumBound(secret, ip, 16); IdSum(secret, ip, 16)
    case SockOther => 42
  }

  lemma SumStaysSmall(sum: nat, j: nat, term: nat)
    requires j < 16 && sum <= j * MAX_TERM && term <= MAX_TERM
    ensures sum + term <= (j + 1) * MAX_TERM < WRAP64
  {
  }

  /** The accumulating loop, with the 64-bit wrap of `+=` written out. */
  method AccumulateId(secret: Secret, ip: seq<byte>) returns (id: uint64)
    requires |ip| == 4 || |ip| == 16
    ensures id == IdSum(secret, ip, |ip|)
    ensures id <= |ip| * MAX_TERM
  {
    hide Xor, Product;
    id := 0;
    for j := 0 to |ip|
      invariant id == IdSum(secret, ip, j)
      invariant id <= j * MAX_TERM
    {
      ByteProduct(ip[j], secret[j]);
      TermBound(secret, ip, j);
      SumStaysSmall(id, j, Term(secret, ip, j));
      id := (id + Xor(Product(ip[j], secret[j]), secret[j + 1])) % WRAP64;
    }
  }

  method ComputeId(secret: Secret, from: SockAddr) returns (id: uint64)
    ensures id == ConnectionId(secret, from)
  {
    match from {
      case SockIn(_, ip) => id := AccumulateId(secret, ip);
      case SockIn6(_, ip) => id := AccumulateId(secret, ip);
      case SockOther => id := 42;
    }
  }

  /** Same family and address bytes: the port does not count. */
  predicate SameHost(a: SockAddr, b: SockAddr) {
    match (a, b)
    case (SockIn(_, x), SockIn(_, y)) => x == y
    case (SockIn6(_, x), SockIn6(_, y)) => x == y
    case (SockOther, SockOther) => true
    case _ => false
  }

  /**
   What an id depends on: the host but not the port, and the first 17 bytes of the
   secret; and how large it can get.
   */
  lemma ConnectionIdDependence(s1: Secret, s2: Secret, a: SockAddr, b: SockAddr)
    requires SameHost(a, b)
    requires s1[..17] == s2[..17]
    ensures ConnectionId(s1, a) == ConnectionId(s2, b)
    ensures a.SockIn? ==> ConnectionId(s1, a) <= 4 * MAX_TERM
    ensures a.SockIn6? ==> ConnectionId(s1, a) <= 16 * MAX_TERM
  {
    match a
    case SockIn(_, ip) =>
      assert s1[..5] == s1[..17][..5] == s2[..17][..5] == s2[..5];
      IdSumReadsPrefix(s1, s2, ip, 4);
      IdSumBound(s1, ip, 4);
    case SockIn6(_, ip) =>
      IdSumReadsPrefix(s1, s2, ip, 16);
      IdSumBound(s1, ip, 16);
    case SockOther =>
  }

  lemma {:induction false} XorWithZero(a: nat)
    ensures Xor(a, 0) == a && Xor(0, a) == a
  {
    if a != 0 {
      XorWithZero(a / 2);
    }
  }

  lemma {:induction false} XorWithItself(a: nat)
    ensures Xor(a, a) == 0
  {
    if a != 0 {
      XorWithItself(a / 2);
    }
  }

  /** The bytes of the address that an id is made of. */
  function HostBytes(from: SockAddr): seq<byte> {
    match from
    case SockIn(_, ip) => ip
    case SockIn6(_, ip) => ip
    case SockOther => []
  }

  /** How one secret byte counts: times its own address byte, and once for the byte before. */
  function Share(ip: seq<byte>, n: nat, k: nat, x: byte): nat
    requires n <= |ip|
  {
    (if k < n then ip[k] * x else 0) + (if 1 <= k <= n then x else 0)
  }

  lemma {:induction false} OneByteSum(secret: Secret, ip: seq<byte>, n: nat, k: nat)
    requires n <= |ip| <= 16 && k < SECRET_SIZE
    requires forall j :: 0 <= j < SECRET_SIZE && j != k ==> secret[j] == 0
    ensures IdSum(secret, ip, n) == Share(ip, n, k, secret[k])
  {
    if n > 0 {
      OneByteSum(secret, ip, n - 1, k);
      var product := Product(ip[n - 1], secret[n - 1]);
      ByteProduct(ip[n - 1], secret[n - 1]);
      XorWithZero(product);
      XorWithZero(secret[n]);
      if k != n - 1 {
        assert product == 0;
      }
    }
  }

  /** With one secret byte that is not zero, the id is that byte's share. */
  lemma OneByteSecret(secret: Secret, from: SockAddr, k: nat)
    requires !from.SockOther? && k < SECRET_SIZE
    requires forall j :: 0 <= j < SECRET_SIZE && j != k ==> secret[j] == 0
    ensures ConnectionId(secret, from) == Share(HostBytes(from), |HostBytes(from)|, k, secret[k])
  {
    OneByteSum(secret, HostBytes(from), |HostBytes(from)|, k);
  }

  lemma {:induction false} EqualBytesSum(secret: Secret, ip: seq<byte>, n: nat)
    requires n <= |ip| <= 16
    requires (forall j :: 0 <= j < n ==> ip[j] == 1) && (forall j :: 0 <= j < n ==> secret[j + 1] == secret[j])
    ensures IdSum(secret, ip, n) == 0
  {
    if n > 0 {
      EqualBytesSum(secret, ip, n - 1);
      assert Product(ip[n - 1], secret[n - 1]) == secret[n];
      XorWithItself(secret[n]);
    }
  }

  /** A secret of equal bytes cancels out for a host of ones, 1.1.1.1 or its IPv6 like. */
  lemma EqualBytesCancel(secret: Secret, from: SockAddr)
    requires !from.SockOther? && forall j :: 0 <= j < |HostBytes(from)| ==> HostBytes(from)[j] == 1
    requires forall j :: 0 <= j < SECRET_SIZE ==> secret[j] == secret[0]
    ensures ConnectionId(secret, from) == 0
  {
    EqualBytesSum(secret, HostBytes(from), |HostBytes(from)|);
  }

  /** Senders of any other family share one id, whatever the secret. */
  lemma OtherFamiliesShareAnId(secret: Secret)
    ensures ConnectionId(secret, SockOther) == 42
  {
  }
}

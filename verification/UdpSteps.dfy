/**
 The UDP server as a step machine: its state, what it does with one datagram, one
 round of receiving or sending, one turn of its loop, and any number of turns.
 Sockets, clock and randomness appear only as the outcomes the kernel hands back.
 */
module UdpSteps {
  import opened Bytes
  import opened Sequences
  import opened Addresses
  import opened InfoHashes
  import opened ConnectionIds
  import opened Swarms
  import opened TorrentDbs
  import opened UdpPackets

  const SECRETS: nat := 3
  /** The outbound queue stops the receiver at this length. */
  const QUEUE_LIMIT: nat := 64
  /** The receive buffer; longer datagrams are cut. */
  const BUFFER_SIZE: nat := 4096

  const NO_SECRET: Secret := Zeroes(SECRET_SIZE)

  type Secrets = s: seq<Secret> | |s| == SECRETS witness [NO_SECRET, NO_SECRET, NO_SECRET]

  datatype SendBuffer = SendBuffer(to: SockAddr, data: seq<byte>)

  datatype Datagram = Datagram(payload: seq<byte>, from: SockAddr, now: int)

  /** What `recvfrom` returns; after the last listed outcome it would block. */
  datatype Received = Got(datagram: Datagram) | WouldBlock | ReceiveError

  /** What `sendto` returns: sent, try again later, or an error that drops the packet. */
  datatype SendOutcome = Sent | Again | Dropped

  datatype Poll = PollError | PollTimeout | PollReady(canSend: bool, canReceive: bool)

  /** What one turn of the loop meets: clock readings, randomness, socket outcomes. */
  datatype Tick = Tick(
    now: int,
    poll: Poll,
    random: Option<Secret>,
    rotationTime: int,
    sends: seq<SendOutcome>,
    receives: seq<Received>)

  datatype ServerState = ServerState(secrets: Secrets, queue: seq<SendBuffer>, nextTimeout: int, db: Db)

  /** The configuration: the torrent options, and whether clients may name their address. */
  datatype Setup = Setup(options: Options, allowProxy: bool)

  // ------------------------------------------------------------------- one datagram

  predicate Accepts(secrets: Secrets, id: uint64, from: SockAddr) {
    || id == ConnectionId(secrets[0], from)
    || id == ConnectionId(secrets[1], from)
    || id == ConnectionId(secrets[2], from)
  }

  /** The address of a new request object, before anything is assigned to it. */
  const BLANK := Address(Unspec, Zeroes(IN6_SIZE))

  function ClaimedAddress(setup: Setup, f: AnnounceFields, from: SockAddr): Address {
    var a := if setup.allowProxy then Address(Inet, f.ip + BLANK.storage[4..]) else BLANK.Assigned(from);
    a.WithPort(f.port)
  }

  /**
   The peer is tracked under its sender's address, with the port it names, exactly when
   clients may not claim an address or it claims the very address it sends from.
   */
  lemma TrackedUnderItsSender(setup: Setup, f: AnnounceFields, from: SockAddr)
    ensures ClaimedAddress(setup, f, from).Key() == BLANK.Assigned(from).WithPort(f.port).Key() <==>
            !setup.allowProxy || (Canonical(from).SockIn? && Canonical(from).ip == f.ip)
  {
    var claimed, sender := ClaimedAddress(setup, f, from), BLANK.Assigned(from).WithPort(f.port);
    if setup.allowProxy {
      assert claimed.Key()[..4] == f.ip && claimed.Key()[4..] == BigEndian(f.port, 2);
      if Canonical(from).SockIn? {
        AssignedFields(BLANK, from);
        assert sender.Key()[..4] == BLANK.Assigned(from).Key()[..4] == Canonical(from).ip;
        assert sender.Key()[4..] == BigEndian(f.port, 2);
        assert claimed.Key() == claimed.Key()[..4] + claimed.Key()[4..];
        assert sender.Key() == sender.Key()[..4] + sender.Key()[4..];
      } else {
        assert |sender.Key()| == IN6_SIZE && |claimed.Key()| == IN_SIZE;
      }
    }
  }

  /** A blank `ip` field, BEP 15's "use the sender's address", is taken as an address too. */
  lemma BlankClaimIsTakenLiterally(setup: Setup, f: AnnounceFields, from: SockAddr)
    requires setup.allowProxy && f.ip == Zeroes(4)
    ensures ClaimedAddress(setup, f, from).Key() == Zeroes(4) + BigEndian(f.port, 2)
  {
  }

  function AskedFor(setup: Setup, f: AnnounceFields, from: SockAddr): Request {
    Request(f.peerid, f.numWant, Convert(f.event), f.downloaded, f.uploaded, f.left,
            ClaimedAddress(setup, f, from), true)
  }

  /** The handler copies the hash bytes and leaves the type of the hash unset. */
  function CopiedHash(bytes: HashBytes): InfoHash {
    InfoHash(bytes + Zeroes(V2_SIZE - HASH_SIZE), NoType)
  }

  function ConnectAnswer(secrets: Secrets, packet: seq<byte>, from: SockAddr): SendBuffer
    requires |packet| >= CONNECT_REQUEST
  {
    SendBuffer(from, ConnectReply(TransactionOf(packet), ConnectionId(secrets[0], from)))
  }

  /** The reply to an announce that passed the checks, for any answer of the database. */
  function AnnounceAnswer(packet: seq<byte>, from: SockAddr, answer: AnnounceResponse): SendBuffer
    requires |packet| >= CONNECT_REQUEST
  {
    SendBuffer(from,
      match answer
      case Refused(message) => ErrorReply(TransactionOf(packet), message)
      case Granted(interval, reply) => AnnounceReply(TransactionOf(packet), interval, reply))
  }

  function ScrapeAnswer(packet: seq<byte>, from: SockAddr, db: Db): SendBuffer
    requires |packet| >= CONNECT_REQUEST
  {
    SendBuffer(from, ScrapeReply(TransactionOf(packet), Scraped(db, ScrapeHashes(packet, HashCount(packet)))))
  }

  datatype Effect = Effect(db: Db, replies: seq<SendBuffer>)

  function AnnounceEffect(setup: Setup, secrets: Secrets, db: Db, packet: seq<byte>, from: SockAddr, now: int): Effect
    requires |packet| >= CONNECT_REQUEST
  {
    if |packet| < ANNOUNCE_REQUEST || !Accepts(secrets, IdOf(packet), from) then Effect(db, [])
    else
      var f := ReadAnnounce(packet);
      var hash, r := CopiedHash(f.infoHash), AskedFor(setup, f, from);
      Effect(DbAnnounced(setup.options, db, hash, r, now),
             [AnnounceAnswer(packet, from, Answered(setup.options, db, hash, r, now))])
  }

  function ScrapeEffect(secrets: Secrets, db: Db, packet: seq<byte>, from: SockAddr): Effect
    requires |packet| >= CONNECT_REQUEST
  {
    if Accepts(secrets, IdOf(packet), from) then Effect(db, [ScrapeAnswer(packet, from, db)]) else Effect(db, [])
  }

  /** What a packet does, by its action; packets too short for a head do nothing. */
  function PacketEffect(setup: Setup, secrets: Secrets, db: Db, packet: seq<byte>, from: SockAddr, now: int): Effect {
    if |packet| < CONNECT_REQUEST then Effect(db, [])
    else
      var action := ActionOf(packet);
      if action == CONNECT then Effect(db, [ConnectAnswer(secrets, packet, from)])
      else if action == ANNOUNCE then AnnounceEffect(setup, secrets, db, packet, from, now)
      else if action == SCRAPE then ScrapeEffect(secrets, db, packet, from)
      else Effect(db, [])
  }

  function DatagramEffect(setup: Setup, s: ServerState, d: Datagram): Effect {
    PacketEffect(setup, s.secrets, s.db, Take(d.payload, BUFFER_SIZE), d.from, d.now)
  }

  function AfterEffect(s: ServerState, effect: Effect): ServerState {
    s.(db := effect.db, queue := s.queue + effect.replies)
  }

  // ---------------------------------------------------------- receiving, sending, turns

  function AfterReceive(setup: Setup, s: ServerState, inputs: seq<Received>): ServerState
    decreases |inputs|
  {
    if |s.queue| >= QUEUE_LIMIT || inputs == [] || !inputs[0].Got? then s
    else AfterReceive(setup, AfterEffect(s, DatagramEffect(setup, s, inputs[0].datagram)), inputs[1..])
  }

  function AfterSend(queue: seq<SendBuffer>, outcomes: seq<SendOutcome>): seq<SendBuffer> {
    if queue == [] || outcomes == [] || outcomes[0].Again? then queue
    else AfterSend(queue[1..], outcomes[1..])
  }

  /** When the random source fails, the first secret stays and is also the second. */
  function Rotated(secrets: Secrets, random: Option<Secret>): Secrets {
    [if random.Some? then random.value else secrets[0], secrets[0], secrets[1]]
  }

  function AfterRotation(s: ServerState, random: Option<Secret>, now: int): ServerState {
    s.(secrets := Rotated(s.secrets, random), nextTimeout := now + SECOND)
  }

  /** Division of C++, which truncates toward zero. */
  function Truncated(a: int, b: int): int
    requires b > 0
  {
    if a >= 0 then a / b else -((-a) / b)
  }

  /** The poll timeout in milliseconds, narrowed to an `int`. */
  function PollDelay(nextTimeout: int, now: int): int {
    AsInt32(Truncated(nextTimeout - now, MILLISECOND))
  }

  /** Whether this turn of the loop generates a secret. */
  predicate Rotates(s: ServerState, t: Tick) {
    PollDelay(s.nextTimeout, t.now) <= 0 || t.poll.PollTimeout?
  }

  function AfterTick(setup: Setup, s: ServerState, t: Tick): ServerState {
    if Rotates(s, t) then AfterRotation(s, t.random, t.rotationTime)
    else match t.poll
      case PollError => s
      case PollTimeout => s
      case PollReady(canSend, canReceive) =>
        if canSend then s.(queue := AfterSend(s.queue, t.sends))
        else if canReceive then AfterReceive(setup, s, t.receives)
        else s
  }

  function AfterTicks(setup: Setup, s: ServerState, ticks: seq<Tick>): ServerState
    decreases |ticks|
  {
    if ticks == [] then s else AfterTicks(setup, AfterTick(setup, s, ticks[0]), ticks[1..])
  }
}

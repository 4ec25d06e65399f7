/**
 The UDP server object: three secrets rotated in place, an outbound queue, and handlers
 that write replies into it.  Each method does what the step machine says.
 */
module UdpServers {
  import opened Bytes
  import opened Sequences
  import opened Addresses
  import opened InfoHashes
  import opened ConnectionIds
  import opened Swarms
  import opened TorrentDbs
  import opened UdpPackets
  import opened UdpSteps

  class UdpServer {
    const allowProxy: bool
    const db: TorrentDb
    const secrets: array<Secret>
    var sbufs: seq<SendBuffer>
    var nextTimeout: int

    ghost predicate Valid()
      reads this, db, db.Repr
    {
      && secrets.Length == SECRETS
      && db.Valid() && this !in db.Repr && secrets !in db.Repr
    }

    ghost function State(): ServerState
      reads this, secrets, db
      requires secrets.Length == SECRETS
    {
      ServerState(secrets[..], sbufs, nextTimeout, db.swarms)
    }

    ghost function Config(): Setup {
      Setup(db.options, allowProxy)
    }

    /** Construction and start: three secrets are generated before the loop runs. */
    constructor (db: TorrentDb, allowProxy: bool, randoms: seq<Option<Secret>>, now: int)
      requires db.Valid() && |randoms| == SECRETS
      ensures Valid() && this.db == db && this.allowProxy == allowProxy
      ensures fresh(this) && fresh(secrets) && sbufs == []
      ensures secrets[..] == Rotated(Rotated(Rotated([NO_SECRET, NO_SECRET, NO_SECRET],
                                                     randoms[0]), randoms[1]), randoms[2])
      ensures nextTimeout == now + SECOND
    {
      hide TorrentDb.Valid;
      this.db, this.allowProxy := db, allowProxy;
      secrets := new Secret[SECRETS](_ => NO_SECRET);
      sbufs, nextTimeout := [], 0;
      new;
      assert secrets[..] == [NO_SECRET, NO_SECRET, NO_SECRET];
      GenSecret(randoms[0], now);
      GenSecret(randoms[1], now);
      GenSecret(randoms[2], now);
    }

    method GenSecret(random: Option<Secret>, now: int)
      requires Valid()
      modifies secrets, `nextTimeout
      ensures Valid()
      ensures State() == AfterRotation(old(State()), random, now)
    {
      hide Rotated, TorrentDb.Valid;
      ShiftSecrets(random);
      nextTimeout := now + SECOND;
    }

    /** The move within the array, and the draw into its first place. */
    method ShiftSecrets(random: Option<Secret>)
      requires secrets.Length == SECRETS
      modifies secrets
      ensures secrets[..] == Rotated(old(secrets[..]), random)
    {
      secrets[2] := secrets[1];
      secrets[1] := secrets[0];
      if random.Some? {
        secrets[0] := random.value;
      }
      assert secrets[..] == [secrets[0], secrets[1], secrets[2]];
    }

    method CheckConnectionId(id: uint64, from: SockAddr) returns (ok: bool)
      requires Valid()
      ensures ok <==> Accepts(secrets[..], id, from)
    {
      var id0 := ComputeId(secrets[0], from);
      var id1 := ComputeId(secrets[1], from);
      var id2 := ComputeId(secrets[2], from);
      ok := id == id0 || id == id1 || id == id2;
    }

    method HandleConnect(packet: seq<byte>, from: SockAddr)
      requires Valid() && |packet| >= CONNECT_REQUEST
      modifies `sbufs
      ensures State() == AfterEffect(old(State()),
                           Effect(old(db.swarms), [ConnectAnswer(old(secrets[..]), packet, from)]))
    {
      var id := ComputeId(secrets[0], from);
      var data := BuildConnectReply(TransactionOf(packet), id);
      sbufs := sbufs + [SendBuffer(from, data)];
    }

    method SendFailure(packet: seq<byte>, from: SockAddr, message: string)
      requires |packet| >= CONNECT_REQUEST
      modifies `sbufs
      ensures sbufs == old(sbufs) + [AnnounceAnswer(packet, from, Refused(message))]
    {
      var data := BuildErrorReply(TransactionOf(packet), message);
      sbufs := sbufs + [SendBuffer(from, data)];
    }

    /** The request's address: what the client claims, or where the datagram came from. */
    method ClaimAddress(f: AnnounceFields, from: SockAddr) returns (a: Address)
      ensures a == ClaimedAddress(Setup(db.options, allowProxy), f, from)
    {
      var cell := new AddressCell(Zeroes(IN6_SIZE));
      if allowProxy {
        cell.OverrideIpv4(f.ip);
      } else {
        cell.Assign(Some(from));
      }
      cell.SetPort(f.port);
      a := cell.Value();
    }

    method HandleAnnounce(packet: seq<byte>, from: SockAddr, now: int)
      requires Valid() && |packet| >= CONNECT_REQUEST
      modifies `sbufs, db.Repr
      ensures Valid() && fresh(db.Repr - old(db.Repr))
      ensures State() == AfterEffect(old(State()),
                           AnnounceEffect(Config(), old(secrets[..]), old(db.swarms), packet, from, now))
    {
      hide Answered, DbAnnounced, Accepts, AnnounceAnswer, ClaimedAddress, ReadAnnounce, IdOf, Convert;
      hide TorrentDb.Holds, Fits, CopiedHash;
      if |packet| < ANNOUNCE_REQUEST {
        return;
      }
      var ok := CheckConnectionId(IdOf(packet), from);
      if !ok {
        return;
      }
      var f := ReadAnnounce(packet);
      var addr := ClaimAddress(f, from);
      var r := Request(f.peerid, f.numWant, Convert(f.event), f.downloaded, f.uploaded, f.left, addr, true);
      var answer := db.Announce(CopiedHash(f.infoHash), r, now);
      PushAnswer(packet, from, answer);
    }

    /** The failure message, or the reply with the peers. */
    method PushAnswer(packet: seq<byte>, from: SockAddr, answer: AnnounceResponse)
      requires |packet| >= CONNECT_REQUEST
      modifies `sbufs
      ensures sbufs == old(sbufs) + [AnnounceAnswer(packet, from, answer)]
    {
      match answer {
        case Refused(message) =>
          SendFailure(packet, from, message);
        case Granted(interval, reply) =>
          var data := BuildAnnounceReply(TransactionOf(packet), interval, reply);
          sbufs := sbufs + [SendBuffer(from, data)];
      }
    }

    method HandleScrape(packet: seq<byte>, from: SockAddr)
      requires Valid() && |packet| >= CONNECT_REQUEST
      modifies `sbufs
      ensures State() == AfterEffect(old(State()), ScrapeEffect(old(secrets[..]), old(db.swarms), packet, from))
    {
      hide Scraped, ScrapeReply, ConnectionId, ScrapeHashes, TorrentDb.Valid, IdOf;
      var ok := CheckConnectionId(IdOf(packet), from);
      if !ok {
        return;
      }
      var hashes := ReadHashes(packet);
      var items := db.Scrape(hashes);
      var data := BuildScrapeReply(TransactionOf(packet), items);
      sbufs := sbufs + [SendBuffer(from, data)];
    }

    /** The loop over the hashes of a scrape packet. */
    static method ReadHashes(packet: seq<byte>) returns (hashes: seq<InfoHash>)
      requires |packet| >= CONNECT_REQUEST
      ensures hashes == ScrapeHashes(packet, HashCount(packet))
    {
      hashes := [];
      for i := 0 to (|packet| - CONNECT_REQUEST) / HASH_SIZE
        invariant hashes == ScrapeHashes(packet, i)
      {
        var at := CONNECT_REQUEST + i * HASH_SIZE;
        assert packet[at..at + HASH_SIZE] == packet[CONNECT_REQUEST..][i * HASH_SIZE..i * HASH_SIZE + HASH_SIZE];
        hashes := hashes + [ScrapeHash(packet[at..at + HASH_SIZE])];
      }
    }

    /** Drains the outcomes of `recvfrom` until one blocks or fails, or the queue is full. */
    method Receive(inputs: seq<Received>)
      requires Valid()
      modifies `sbufs, db.Repr
      ensures Valid() && fresh(db.Repr - old(db.Repr))
      ensures State() == AfterReceive(Config(), old(State()), inputs)
    {
      hide PacketEffect, AnnounceEffect, ScrapeEffect;
      var i := 0;
      while |sbufs| < QUEUE_LIMIT && i < |inputs|
        invariant i <= |inputs|
        invariant Valid() && fresh(db.Repr - old(db.Repr)) && unchanged(secrets)
        invariant AfterReceive(Config(), State(), inputs[i..]) == AfterReceive(Config(), old(State()), inputs)
      {
        if !inputs[i].Got? {
          return;
        }
        var d := inputs[i].datagram;
        HandleDatagram(d);
        assert inputs[i..][1..] == inputs[i + 1..];
        i := i + 1;
      }
    }

    /** One datagram: short ones and unknown actions are ignored. */
    method HandleDatagram(d: Datagram)
      requires Valid()
      modifies `sbufs, db.Repr
      ensures Valid() && fresh(db.Repr - old(db.Repr))
      ensures State() == AfterEffect(old(State()), DatagramEffect(Config(), old(State()), d))
    {
      hide AnnounceEffect, ScrapeEffect, ConnectAnswer;
      var packet := Take(d.payload, BUFFER_SIZE);
      if |packet| < CONNECT_REQUEST {
        return;
      }
      var action := ActionOf(packet);
      if action == CONNECT {
        HandleConnect(packet, d.from);
      } else if action == ANNOUNCE {
        HandleAnnounce(packet, d.from, d.now);
      } else if action == SCRAPE {
        HandleScrape(packet, d.from);
      }
    }

    /** Sends from the front until the socket would block; other errors drop the packet. */
    method Send(outcomes: seq<SendOutcome>)
      modifies `sbufs
      ensures sbufs == AfterSend(old(sbufs), outcomes)
    {
      var i := 0;
      while sbufs != [] && i < |outcomes|
        invariant i <= |outcomes|
        invariant AfterSend(sbufs, outcomes[i..]) == AfterSend(old(sbufs), outcomes)
      {
        if outcomes[i].Again? {
          return;
        }
        assert outcomes[i..][1..] == outcomes[i + 1..];
        sbufs := sbufs[1..];
        i := i + 1;
      }
    }

    /** The server loop, for as many turns as there are ticks. */
    method Run(ticks: seq<Tick>)
      requires Valid()
      modifies this, secrets, db.Repr
      ensures Valid() && fresh(db.Repr - old(db.Repr))
      ensures State() == AfterTicks(Config(), old(State()), ticks)
    {
      hide AfterReceive, AfterSend, Rotated;
      for i := 0 to |ticks|
        invariant Valid() && fresh(db.Repr - old(db.Repr))
        invariant AfterTicks(Config(), State(), ticks[i..]) == AfterTicks(Config(), old(State()), ticks)
      {
        assert ticks[i..][1..] == ticks[i + 1..];
        Turn(ticks[i]);
      }
    }

    method Turn(t: Tick)
      requires Valid()
      modifies this, secrets, db.Repr
      ensures Valid() && fresh(db.Repr - old(db.Repr))
      ensures State() == AfterTick(Config(), old(State()), t)
    {
      hide AfterReceive, AfterSend, AfterRotation;
      var timeout := AsInt32(Truncated(nextTimeout - t.now, MILLISECOND));
      if timeout <= 0 {
        GenSecret(t.random, t.rotationTime);
        return;
      }
      match t.poll {
        case PollError =>
        case PollTimeout => GenSecret(t.random, t.rotationTime);
        case PollReady(canSend, canReceive) =>
          if canSend {
            Send(t.sends);
          } else if canReceive {
            Receive(t.receives);
          }
      }
    }
  }
}

/**
 What every run of the UDP server keeps: its outbound queue, its replies, and how long
 a connection id it gave out stays good.
 */
module UdpRuns {
  import opened Bytes
  import opened Sequences
  import opened Addresses
  import opened ConnectionIds
  import opened Swarms
  import opened TorrentDbs
  import opened UdpPackets
  import opened UdpSteps
  import Records

  // ---------------------------------------------------------------- one reply at most

  /**
   The reply goes to where the packet came from, carries its transaction id, and its
   action is the packet's own, or, for an announce, that of an error.
   */
  ghost predicate Faithful(b: SendBuffer, packet: seq<byte>, from: SockAddr)
    requires |packet| >= CONNECT_REQUEST
  {
    && b.to == from
    && |b.data| >= 8
    && b.data[4..8] == TransactionOf(packet)
    && (At32(b.data, 0) == ActionOf(packet) || (ActionOf(packet) == ANNOUNCE && At32(b.data, 0) == ERROR))
  }

  lemma AnswersAreFaithful(packet: seq<byte>, from: SockAddr, secrets: Secrets, answer: AnnounceResponse, db: Db)
    requires |packet| >= CONNECT_REQUEST
    ensures ActionOf(packet) == CONNECT ==> Faithful(ConnectAnswer(secrets, packet, from), packet, from)
    ensures ActionOf(packet) == ANNOUNCE ==> Faithful(AnnounceAnswer(packet, from, answer), packet, from)
    ensures ActionOf(packet) == SCRAPE ==> Faithful(ScrapeAnswer(packet, from, db), packet, from)
  {
    hide At32, ScrapeHashes, Scraped, ConnectionId, ItemSlots, PeerSlots, HostOrder, Ascii, Head, BigEndian;
    var transaction := TransactionOf(packet);
    var items := Scraped(db, ScrapeHashes(packet, HashCount(packet)));
    HeadDecodes(CONNECT, transaction, HostOrder(ConnectionId(secrets[0], from), 8));
    HeadDecodes(SCRAPE, transaction, Records.Concat(ItemSlots(items)));
    match answer
    case Refused(message) =>
      HeadDecodes(ERROR, transaction, Ascii(message));
    case Granted(interval, reply) =>
      AnnounceReplyHead(transaction, interval, reply);
  }

  /** A packet gets at most one reply, and a faithful one. */
  lemma ReplyIsFaithful(setup: Setup, secrets: Secrets, db: Db, packet: seq<byte>, from: SockAddr, now: int)
    ensures var replies := PacketEffect(setup, secrets, db, packet, from, now).replies;
            && |replies| <= 1
            && (replies != [] ==> |packet| >= CONNECT_REQUEST && Faithful(replies[0], packet, from))
  {
    hide Accepts, ReadAnnounce, Answered, DbAnnounced, Faithful, ConnectAnswer, AnnounceAnswer, ScrapeAnswer;
    if |packet| >= CONNECT_REQUEST {
      AnswersAreFaithful(packet, from, secrets, Refused(NOT_FOUND), db);
      if |packet| >= ANNOUNCE_REQUEST {
        var f := ReadAnnounce(packet);
        var answer := Answered(setup.options, db, CopiedHash(f.infoHash), AskedFor(setup, f, from), now);
        AnswersAreFaithful(packet, from, secrets, answer, db);
      }
    }
  }

  lemma OneReplyAtMost(setup: Setup, s: ServerState, d: Datagram)
    ensures |DatagramEffect(setup, s, d).replies| <= 1
  {
    hide PacketEffect;
    ReplyIsFaithful(setup, s.secrets, s.db, Take(d.payload, BUFFER_SIZE), d.from, d.now);
  }

  // --------------------------------------------------------------- the outbound queue

  lemma {:induction false} ReceiveKeepsBound(setup: Setup, s: ServerState, inputs: seq<Received>)
    requires |s.queue| <= QUEUE_LIMIT
    ensures |AfterReceive(setup, s, inputs).queue| <= QUEUE_LIMIT
    decreases |inputs|
  {
    hide DatagramEffect;
    if |s.queue| < QUEUE_LIMIT && inputs != [] && inputs[0].Got? {
      var effect := DatagramEffect(setup, s, inputs[0].datagram);
      OneReplyAtMost(setup, s, inputs[0].datagram);
      ReceiveKeepsBound(setup, AfterEffect(s, effect), inputs[1..]);
    }
  }

  /** The replies one round of receiving enqueues, in order. */
  function Replies(setup: Setup, s: ServerState, inputs: seq<Received>): seq<SendBuffer>
    decreases |inputs|
  {
    if |s.queue| >= QUEUE_LIMIT || inputs == [] || !inputs[0].Got? then []
    else
      var effect := DatagramEffect(setup, s, inputs[0].datagram);
      effect.replies + Replies(setup, AfterEffect(s, effect), inputs[1..])
  }

  /** The buffers one round of sending takes off the queue: one for each send or drop. */
  function Popped(queue: seq<SendBuffer>, outcomes: seq<SendOutcome>): seq<SendBuffer> {
    if queue == [] || outcomes == [] || outcomes[0].Again? then []
    else [queue[0]] + Popped(queue[1..], outcomes[1..])
  }

  function TickPushes(setup: Setup, s: ServerState, t: Tick): seq<SendBuffer> {
    if !Rotates(s, t) && t.poll.PollReady? && !t.poll.canSend && t.poll.canReceive
    then Replies(setup, s, t.receives) else []
  }

  function TickPops(s: ServerState, t: Tick): seq<SendBuffer> {
    if !Rotates(s, t) && t.poll.PollReady? && t.poll.canSend then Popped(s.queue, t.sends) else []
  }

  function Pushes(setup: Setup, s: ServerState, ticks: seq<Tick>): seq<SendBuffer>
    decreases |ticks|
  {
    if ticks == [] then []
    else TickPushes(setup, s, ticks[0]) + Pushes(setup, AfterTick(setup, s, ticks[0]), ticks[1..])
  }

  function Pops(setup: Setup, s: ServerState, ticks: seq<Tick>): seq<SendBuffer>
    decreases |ticks|
  {
    if ticks == [] then []
    else TickPops(s, ticks[0]) + Pops(setup, AfterTick(setup, s, ticks[0]), ticks[1..])
  }

  lemma {:induction false} ReceiveAppends(setup: Setup, s: ServerState, inputs: seq<Received>)
    ensures AfterReceive(setup, s, inputs).queue == s.queue + Replies(setup, s, inputs)
    ensures AfterReceive(setup, s, inputs).secrets == s.secrets
    ensures AfterReceive(setup, s, inputs).nextTimeout == s.nextTimeout
    decreases |inputs|
  {
    hide DatagramEffect;
    if |s.queue| < QUEUE_LIMIT && inputs != [] && inputs[0].Got? {
      ReceiveAppends(setup, AfterEffect(s, DatagramEffect(setup, s, inputs[0].datagram)), inputs[1..]);
    }
  }

  lemma {:induction false} SendTakesFront(queue: seq<SendBuffer>, outcomes: seq<SendOutcome>)
    ensures queue == Popped(queue, outcomes) + AfterSend(queue, outcomes)
  {
    if queue != [] && outcomes != [] && !outcomes[0].Again? {
      SendTakesFront(queue[1..], outcomes[1..]);
      assert queue == [queue[0]] + queue[1..];
    }
  }

  lemma TickConserves(setup: Setup, s: ServerState, t: Tick)
    ensures s.queue + TickPushes(setup, s, t) == TickPops(s, t) + AfterTick(setup, s, t).queue
    ensures |s.queue| <= QUEUE_LIMIT ==> |AfterTick(setup, s, t).queue| <= QUEUE_LIMIT
  {
    hide AfterReceive, Replies;
    if !Rotates(s, t) && t.poll.PollReady? {
      if t.poll.canSend {
        SendTakesFront(s.queue, t.sends);
      } else if t.poll.canReceive {
        ReceiveAppends(setup, s, t.receives);
        if |s.queue| <= QUEUE_LIMIT {
          ReceiveKeepsBound(setup, s, t.receives);
        }
      }
    }
  }

  /**
   Over every run the queue stays within its limit, and what was in it plus everything
   enqueued is everything taken off plus what is in it now, in order: nothing is lost on
   a retry, sent twice or reordered.
   */
  lemma {:induction false} QueueConserved(setup: Setup, s: ServerState, ticks: seq<Tick>)
    requires |s.queue| <= QUEUE_LIMIT
    ensures |AfterTicks(setup, s, ticks).queue| <= QUEUE_LIMIT
    ensures s.queue + Pushes(setup, s, ticks) == Pops(setup, s, ticks) + AfterTicks(setup, s, ticks).queue
    decreases |ticks|
  {
    hide AfterTick, TickPushes, TickPops;
    if ticks == [] {
      assert s.queue + [] == [] + s.queue;
    } else {
      var next := AfterTick(setup, s, ticks[0]);
      TickConserves(setup, s, ticks[0]);
      QueueConserved(setup, next, ticks[1..]);
      Regroup(s.queue, TickPushes(setup, s, ticks[0]), Pushes(setup, next, ticks[1..]),
              TickPops(s, ticks[0]), Pops(setup, next, ticks[1..]), next.queue,
              AfterTicks(setup, next, ticks[1..]).queue);
    }
  }

  lemma Regroup<T>(q0: seq<T>, in1: seq<T>, in2: seq<T>, out1: seq<T>, out2: seq<T>, q1: seq<T>, q2: seq<T>)
    requires q0 + in1 == out1 + q1 && q1 + in2 == out2 + q2
    ensures q0 + (in1 + in2) == (out1 + out2) + q2
  {
    calc {
      q0 + (in1 + in2);
      (q0 + in1) + in2;
      (out1 + q1) + in2;
      out1 + (q1 + in2);
      out1 + (out2 + q2);
      (out1 + out2) + q2;
    }
  }

  // ------------------------------------------------------ whom the queued replies answer

  /** A place in a run where a datagram arrives: a turn of the loop, and a place in its round. */
  datatype Arrival = Arrival(turn: nat, place: nat) {
    predicate Before(other: Arrival) {
      turn < other.turn || (turn == other.turn && place < other.place)
    }
  }

  /** The buffer is a faithful reply to the datagram that arrives there, cut to the receive buffer. */
  ghost predicate Answers(b: SendBuffer, ticks: seq<Tick>, a: Arrival) {
    && a.turn < |ticks|
    && a.place < |ticks[a.turn].receives|
    && ticks[a.turn].receives[a.place].Got?
    && var d := ticks[a.turn].receives[a.place].datagram;
       var packet := Take(d.payload, BUFFER_SIZE);
       |packet| >= CONNECT_REQUEST && Faithful(b, packet, d.from)
  }

  /** Each buffer answers its own datagram, and they come in the order of arrival. */
  ghost predicate AnswerInOrder(buffers: seq<SendBuffer>, ticks: seq<Tick>, arrivals: seq<Arrival>) {
    && |buffers| == |arrivals|
    && (forall k :: 0 <= k < |buffers| ==> Answers(buffers[k], ticks, arrivals[k]))
    && (forall k, l :: 0 <= k < l < |arrivals| ==> arrivals[k].Before(arrivals[l]))
  }

  lemma AnswersJoin(b1: seq<SendBuffer>, b2: seq<SendBuffer>, ticks: seq<Tick>, a1: seq<Arrival>, a2: seq<Arrival>)
    requires AnswerInOrder(b1, ticks, a1) && AnswerInOrder(b2, ticks, a2)
    requires forall x, y :: x in a1 && y in a2 ==> x.Before(y)
    ensures AnswerInOrder(b1 + b2, ticks, a1 + a2)
  {
    hide Answers, Arrival.Before;
    var arrivals := a1 + a2;
    forall k, l | 0 <= k < l < |arrivals| ensures arrivals[k].Before(arrivals[l]) {
      if k < |a1| <= l {
        assert a1[k] in a1 && a2[l - |a1|] in a2;
      }
    }
  }

  lemma {:induction false} RoundAnswers(setup: Setup, s: ServerState, ticks: seq<Tick>, turn: nat, place: nat)
    returns (arrivals: seq<Arrival>)
    requires turn < |ticks| && place <= |ticks[turn].receives|
    ensures AnswerInOrder(Replies(setup, s, ticks[turn].receives[place..]), ticks, arrivals)
    ensures forall a :: a in arrivals ==> a.turn == turn && a.place >= place
    decreases |ticks[turn].receives| - place
  {
    hide DatagramEffect, PacketEffect, Faithful;
    var inputs := ticks[turn].receives[place..];
    if |s.queue| >= QUEUE_LIMIT || inputs == [] || !inputs[0].Got? {
      arrivals := [];
    } else {
      var d := inputs[0].datagram;
      var effect := DatagramEffect(setup, s, d);
      var here := if effect.replies == [] then [] else [Arrival(turn, place)];
      assert AnswerInOrder(effect.replies, ticks, here) by { DatagramAnswers(setup, s, ticks, turn, place); }
      assert inputs[1..] == ticks[turn].receives[place + 1..];
      var later := RoundAnswers(setup, AfterEffect(s, effect), ticks, turn, place + 1);
      AnswersJoin(effect.replies, Replies(setup, AfterEffect(s, effect), inputs[1..]), ticks, here, later);
      arrivals := here + later;
    }
  }

  lemma DatagramAnswers(setup: Setup, s: ServerState, ticks: seq<Tick>, turn: nat, place: nat)
    requires turn < |ticks| && place < |ticks[turn].receives| && ticks[turn].receives[place].Got?
    ensures var replies := DatagramEffect(setup, s, ticks[turn].receives[place].datagram).replies;
            AnswerInOrder(replies, ticks, if replies == [] then [] else [Arrival(turn, place)])
  {
    hide PacketEffect, Faithful;
    var d := ticks[turn].receives[place].datagram;
    ReplyIsFaithful(setup, s.secrets, s.db, Take(d.payload, BUFFER_SIZE), d.from, d.now);
  }

  lemma {:induction false} TurnsAnswer(setup: Setup, s: ServerState, ticks: seq<Tick>, turn: nat)
    returns (arrivals: seq<Arrival>)
    requires turn <= |ticks|
    ensures AnswerInOrder(Pushes(setup, s, ticks[turn..]), ticks, arrivals)
    ensures forall a :: a in arrivals ==> a.turn >= turn
    decreases |ticks| - turn
  {
    hide AfterTick, Answers, Replies;
    arrivals := [];
    if turn < |ticks| {
      var t, rest := ticks[turn], ticks[turn + 1..];
      var now: seq<Arrival> := [];
      if TickPushes(setup, s, t) != [] {
        assert t.receives[0..] == t.receives;
        now := RoundAnswers(setup, s, ticks, turn, 0);
      }
      var later := TurnsAnswer(setup, AfterTick(setup, s, t), ticks, turn + 1);
      assert ticks[turn..] == [t] + rest;
      AnswersJoin(TickPushes(setup, s, t), Pushes(setup, AfterTick(setup, s, t), rest), ticks, now, later);
      arrivals := now + later;
    }
  }

  /**
   Everything a run enqueues is a faithful reply to a datagram that arrived, each to its
   own, in the order of arrival: no datagram is answered twice, nobody is written to
   unasked, and no reply overtakes another.
   */
  lemma PushesAnswerArrivals(setup: Setup, s: ServerState, ticks: seq<Tick>)
    ensures exists arrivals :: AnswerInOrder(Pushes(setup, s, ticks), ticks, arrivals)
  {
    hide Pushes, AnswerInOrder;
    assert ticks[0..] == ticks;
    var arrivals := TurnsAnswer(setup, s, ticks, 0);
  }

  /** So does everything a server that starts with an empty queue hands to the socket. */
  lemma PopsAnswerArrivals(setup: Setup, s: ServerState, ticks: seq<Tick>)
    requires s.queue == []
    ensures exists arrivals :: AnswerInOrder(Pops(setup, s, ticks), ticks, arrivals)
  {
    hide Pushes, Pops, AfterTicks, Answers, Arrival.Before;
    var pushes, pops := Pushes(setup, s, ticks), Pops(setup, s, ticks);
    QueueConserved(setup, s, ticks);
    PushesAnswerArrivals(setup, s, ticks);
    var arrivals :| AnswerInOrder(pushes, ticks, arrivals);
    assert pushes == pops + AfterTicks(setup, s, ticks).queue;
    assert AnswerInOrder(pops, ticks, arrivals[..|pops|]);
  }

  // -------------------------------------------------------- lifetime of connection ids

  function Rotations(setup: Setup, s: ServerState, ticks: seq<Tick>): nat
    decreases |ticks|
  {
    if ticks == [] then 0
    else (if Rotates(s, ticks[0]) then 1 else 0) + Rotations(setup, AfterTick(setup, s, ticks[0]), ticks[1..])
  }

  lemma TickSecrets(setup: Setup, s: ServerState, t: Tick)
    ensures Rotates(s, t) ==> AfterTick(setup, s, t) == AfterRotation(s, t.random, t.rotationTime)
    ensures !Rotates(s, t) ==> AfterTick(setup, s, t).secrets == s.secrets
    ensures !Rotates(s, t) ==> AfterTick(setup, s, t).nextTimeout == s.nextTimeout
  {
    hide AfterReceive, AfterSend, Replies, PollDelay, Rotated;
    ReceiveAppends(setup, s, t.receives);
  }

  /** A secret moves back one place with every rotation, and is otherwise kept. */
  lemma {:induction false} SecretsShift(setup: Setup, s: ServerState, ticks: seq<Tick>, k: nat)
    requires k + Rotations(setup, s, ticks) < SECRETS
    ensures AfterTicks(setup, s, ticks).secrets[k + Rotations(setup, s, ticks)] == s.secrets[k]
    decreases |ticks|
  {
    hide AfterTick, Rotates;
    if ticks != [] {
      var next := AfterTick(setup, s, ticks[0]);
      TickSecrets(setup, s, ticks[0]);
      SecretsShift(setup, next, ticks[1..], if Rotates(s, ticks[0]) then k + 1 else k);
    }
  }

  /** An id is accepted in every state with fewer than three later rotations. */
  lemma AcceptedUntilThirdRotation(setup: Setup, s: ServerState, ticks: seq<Tick>, from: SockAddr, again: SockAddr)
    requires SameHost(from, again)
    requires Rotations(setup, s, ticks) < SECRETS
    ensures Accepts(AfterTicks(setup, s, ticks).secrets, ConnectionId(s.secrets[0], from), again)
  {
    hide ConnectionId;
    var later := AfterTicks(setup, s, ticks).secrets;
    SecretsShift(setup, s, ticks, 0);
    ConnectionIdDependence(s.secrets[0], s.secrets[0], from, again);
  }

  /**
   A poll that times out has let its delay pass before the clock is read again, on a clock
   that may lag behind the one `poll` waits on by as much as `lag`.
   */
  predicate WaitedLongEnough(s: ServerState, t: Tick, lag: nat) {
    var delay := PollDelay(s.nextTimeout, t.now);
    delay > 0 && t.poll.PollTimeout? ==> t.rotationTime + lag >= t.now + delay * MILLISECOND
  }

  /**
   The environment behaves: clock readings never go back, from `from` before the run to
   `to` after it, and a poll that times out has let its delay pass, short of the lag.
   */
  ghost predicate Orderly(setup: Setup, s: ServerState, ticks: seq<Tick>, lag: nat, from: int, to: int)
    decreases |ticks|
  {
    if ticks == [] then from <= to
    else
      var t := ticks[0];
      && from <= t.now
      && (Rotates(s, t) ==> t.now <= t.rotationTime)
      && WaitedLongEnough(s, t, lag)
      && Orderly(setup, AfterTick(setup, s, t), ticks[1..], lag, if Rotates(s, t) then t.rotationTime else t.now, to)
  }

  /** A secret is not generated a millisecond and the lag, or more, before its time. */
  lemma RotationIsNotEarly(s: ServerState, t: Tick, lag: nat)
    requires s.nextTimeout <= t.now + SECOND && Rotates(s, t) && t.now <= t.rotationTime
    requires WaitedLongEnough(s, t, lag)
    ensures t.rotationTime > s.nextTimeout - MILLISECOND - lag
  {
    var gap := s.nextTimeout - t.now;
    var delay := Truncated(gap, MILLISECOND);
    if gap >= 0 {
      assert delay == gap / MILLISECOND <= 1000;
      assert AsInt32(delay) == delay;
      assert gap < (delay + 1) * MILLISECOND;
    }
  }

  lemma {:induction false} OrderlyEnds(setup: Setup, s: ServerState, ticks: seq<Tick>, lag: nat, from: int, to: int)
    requires Orderly(setup, s, ticks, lag, from, to)
    ensures from <= to
    decreases |ticks|
  {
    hide AfterTick, Rotates, PollDelay;
    if ticks != [] {
      var t := ticks[0];
      OrderlyEnds(setup, AfterTick(setup, s, t), ticks[1..], lag,
                  if Rotates(s, t) then t.rotationTime else t.now, to);
    }
  }

  const SPACING: nat := SECOND - MILLISECOND

  /** Each rotation after the first comes more than the spacing after the one before. */
  lemma {:induction false} RotationsTakeTime(setup: Setup, s: ServerState, ticks: seq<Tick>, lag: nat,
                                             from: int, to: int)
    requires Orderly(setup, s, ticks, lag, from, to) && s.nextTimeout <= from + SECOND
    requires Rotations(setup, s, ticks) >= 1
    ensures to > s.nextTimeout - MILLISECOND - lag + (Rotations(setup, s, ticks) - 1) * (SPACING - lag)
    decreases |ticks|
  {
    hide AfterTick, Rotates, PollDelay;
    var t := ticks[0];
    var next := AfterTick(setup, s, t);
    TickSecrets(setup, s, t);
    if Rotates(s, t) {
      RotationIsNotEarly(s, t, lag);
      OrderlyEnds(setup, next, ticks[1..], lag, t.rotationTime, to);
      if Rotations(setup, next, ticks[1..]) >= 1 {
        RotationsTakeTime(setup, next, ticks[1..], lag, t.rotationTime, to);
      }
    } else {
      RotationsTakeTime(setup, next, ticks[1..], lag, t.now, to);
    }
  }

  lemma AtLeastOnce(n: nat, x: nat)
    requires n >= 1
    ensures n * x >= x
  {
  }

  lemma {:induction false} ThreeRotationsTakeTime(setup: Setup, s: ServerState, ticks: seq<Tick>, lag: nat,
                                                  from: int, to: int)
    requires Orderly(setup, s, ticks, lag, from, to)
    requires Rotations(setup, s, ticks) >= SECRETS
    ensures to > from + 2 * (SPACING - lag)
    decreases |ticks|
  {
    hide AfterTick, Rotates, PollDelay;
    var t := ticks[0];
    var next := AfterTick(setup, s, t);
    TickSecrets(setup, s, t);
    if Rotates(s, t) {
      OrderlyEnds(setup, next, ticks[1..], lag, t.rotationTime, to);
      if lag <= SPACING {
        RotationsTakeTime(setup, next, ticks[1..], lag, t.rotationTime, to);
        AtLeastOnce(Rotations(setup, next, ticks[1..]) - 1, SPACING - lag);
      }
    } else {
      ThreeRotationsTakeTime(setup, next, ticks[1..], lag, t.now, to);
    }
  }

  /**
   Lifetime of a connection id: given out at one time to a host and presented by that host
   at most 1998 milliseconds, less twice the lag, later, after any turns of the loop, it is
   accepted.
   */
  lemma ConnectionIdLifetime(setup: Setup, s: ServerState, ticks: seq<Tick>, lag: nat,
                             issued: int, presented: int, from: SockAddr, again: SockAddr)
    requires SameHost(from, again)
    requires Orderly(setup, s, ticks, lag, issued, presented)
    requires presented <= issued + 1998 * MILLISECOND - 2 * lag
    ensures Accepts(AfterTicks(setup, s, ticks).secrets, ConnectionId(s.secrets[0], from), again)
  {
    if Rotations(setup, s, ticks) >= SECRETS {
      ThreeRotationsTakeTime(setup, s, ticks, lag, issued, presented);
      assert false;
    }
    AcceptedUntilThirdRotation(setup, s, ticks, from, again);
  }
}

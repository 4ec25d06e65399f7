/**
 Which datagrams the server answers, how much one round takes in, what one turn of the
 loop does, and when secrets come and go: the server from the outside.
 */
module UdpTurns {
  import opened Bytes
  import opened Sequences
  import opened Addresses
  import opened ConnectionIds
  import opened Swarms
  import opened UdpPackets
  import opened UdpSteps
  import opened UdpRuns

  // --------------------------------------------------------------- who gets an answer

  /** The id is one the sender's host would be given under one of the three secrets. */
  ghost predicate KnownId(secrets: Secrets, id: uint64, from: SockAddr) {
    exists k :: 0 <= k < SECRETS && id == ConnectionId(secrets[k], from)
  }

  /** By BEP 15: a connect, or an announce of full size or a scrape under a known id. */
  ghost predicate DeservesAnswer(secrets: Secrets, packet: seq<byte>, from: SockAddr) {
    && |packet| >= 16
    && (|| ActionOf(packet) == 0
        || (ActionOf(packet) == 1 && |packet| >= 98 && KnownId(secrets, IdOf(packet), from))
        || (ActionOf(packet) == 2 && KnownId(secrets, IdOf(packet), from)))
  }

  lemma AcceptsIffKnown(secrets: Secrets, id: uint64, from: SockAddr)
    ensures Accepts(secrets, id, from) <==> KnownId(secrets, id, from)
  {
    hide ConnectionId;
    if Accepts(secrets, id, from) {
      assert id == ConnectionId(secrets[0], from) || id == ConnectionId(secrets[1], from)
             || id == ConnectionId(secrets[2], from);
    }
  }

  /**
   A datagram is answered once if it deserves an answer, else not at all; and nothing
   happens to the database unless it is an announce that does.
   */
  lemma AnsweredIff(setup: Setup, s: ServerState, d: Datagram)
    ensures var packet, effect := Take(d.payload, 4096), DatagramEffect(setup, s, d);
            && |effect.replies| == (if DeservesAnswer(s.secrets, packet, d.from) then 1 else 0)
            && (effect.db != s.db ==> DeservesAnswer(s.secrets, packet, d.from) && ActionOf(packet) == 1)
  {
    hide Accepts, KnownId, IdOf, ReadAnnounce, ConnectAnswer, AnnounceAnswer, ScrapeAnswer;
    var packet := Take(d.payload, 4096);
    if |packet| >= CONNECT_REQUEST {
      AcceptsIffKnown(s.secrets, IdOf(packet), d.from);
    }
  }

  /** A connect gets the id that its host has under the newest secret. */
  lemma ConnectIsAnswered(setup: Setup, s: ServerState, d: Datagram)
    requires 16 <= |d.payload| <= 4096 && ActionOf(d.payload) == 0
    ensures var effect := DatagramEffect(setup, s, d);
            && effect.db == s.db
            && |effect.replies| == 1
            && effect.replies[0].to == d.from
            && var data := effect.replies[0].data;
               && |data| == 16
               && At32(data, 0) == 0
               && data[4..8] == d.payload[12..16]
               && IdInReply(data) == ConnectionId(s.secrets[0], d.from)
  {
    hide ConnectReply, ConnectionId, At32, IdInReply, ActionOf;
    assert Take(d.payload, BUFFER_SIZE) == d.payload;
    ConnectReplyTells(TransactionOf(d.payload), ConnectionId(s.secrets[0], d.from));
  }

  /** Of a datagram larger than the buffer, only the first 4096 bytes exist. */
  lemma LongDatagramsAreCut(setup: Setup, s: ServerState, d: Datagram)
    requires |d.payload| > 4096
    ensures DatagramEffect(setup, s, d) == DatagramEffect(setup, s, d.(payload := d.payload[..4096]))
  {
    hide PacketEffect;
    assert Take(d.payload, 4096) == d.payload[..4096] == Take(d.payload[..4096], 4096);
  }

  // ------------------------------------------------------------------------ one round

  ghost predicate IsConnect(input: Received) {
    && input.Got?
    && 16 <= |input.datagram.payload| <= 4096
    && ActionOf(input.datagram.payload) == 0
  }

  /** A flood of connects fills the queue up to 64 replies, and not one further. */
  lemma {:induction false} FloodFillsQueue(setup: Setup, s: ServerState, inputs: seq<Received>)
    requires |s.queue| <= 64 && forall i :: 0 <= i < |inputs| ==> IsConnect(inputs[i])
    ensures var room := 64 - |s.queue|;
            |AfterReceive(setup, s, inputs).queue| == |s.queue| + if |inputs| < room then |inputs| else room
    decreases |inputs|
  {
    hide DatagramEffect, ActionOf;
    if inputs != [] && |s.queue| < 64 {
      var effect := DatagramEffect(setup, s, inputs[0].datagram);
      assert IsConnect(inputs[0]);
      ConnectIsAnswered(setup, s, inputs[0].datagram);
      FloodFillsQueue(setup, AfterEffect(s, effect), inputs[1..]);
    }
  }

  /** One round of sending takes off as many buffers as there are outcomes before a retry. */
  lemma {:induction false} SendsUntilRetry(queue: seq<SendBuffer>, outcomes: seq<SendOutcome>, k: nat)
    requires k <= |outcomes| && (k < |outcomes| ==> outcomes[k].Again?)
    requires forall j :: 0 <= j < k ==> !outcomes[j].Again?
    ensures AfterSend(queue, outcomes) == queue[if k < |queue| then k else |queue|..]
    decreases |queue|
  {
    if queue != [] && k > 0 {
      SendsUntilRetry(queue[1..], outcomes[1..], k - 1);
    }
  }

  // ------------------------------------------------------------------------- one turn

  /** How many nanoseconds an `int` of milliseconds spans, some 24 days. */
  const INT_SPAN: nat := 0x8000_0000 * MILLISECOND

  /** The next secret is due: within the millisecond, or any time in the past 24 days. */
  ghost predicate Due(s: ServerState, t: Tick) {
    s.nextTimeout - MILLISECOND < t.now < s.nextTimeout + INT_SPAN
  }

  /** The next secret is a millisecond or more away, and less than 24 days. */
  ghost predicate NotDue(s: ServerState, t: Tick) {
    MILLISECOND <= s.nextTimeout - t.now < INT_SPAN
  }

  lemma DueMeansNoDelay(s: ServerState, t: Tick)
    requires Due(s, t)
    ensures PollDelay(s.nextTimeout, t.now) <= 0
  {
  }

  lemma NotDueMeansDelay(s: ServerState, t: Tick)
    requires NotDue(s, t)
    ensures PollDelay(s.nextTimeout, t.now) > 0
  {
  }

  /**
   A turn that finds the secret due, or whose poll times out, generates one, whatever the
   socket is ready for: a good draw comes first, a failed one repeats the first; the next
   is due a second later, and neither queue nor database is touched.
   */
  lemma DueTurnRotates(setup: Setup, s: ServerState, t: Tick)
    requires Due(s, t) || t.poll.PollTimeout?
    ensures var next := AfterTick(setup, s, t);
            && next.secrets[0] == (if t.random.Some? then t.random.value else s.secrets[0])
            && next.secrets[1] == s.secrets[0] && next.secrets[2] == s.secrets[1]
            && next.nextTimeout == t.rotationTime + SECOND
            && next.queue == s.queue && next.db == s.db
  {
    hide PollDelay;
    if Due(s, t) {
      DueMeansNoDelay(s, t);
    }
  }

  /** Otherwise a writable socket is served first: buffers leave until a retry, none arrives. */
  lemma WritableTurnSends(setup: Setup, s: ServerState, t: Tick, k: nat)
    requires NotDue(s, t) && t.poll.PollReady? && t.poll.canSend
    requires k <= |t.sends| && (k < |t.sends| ==> t.sends[k].Again?)
    requires forall j :: 0 <= j < k ==> !t.sends[j].Again?
    ensures AfterTick(setup, s, t) == s.(queue := s.queue[if k < |s.queue| then k else |s.queue|..])
  {
    hide PollDelay;
    NotDueMeansDelay(s, t);
    SendsUntilRetry(s.queue, t.sends, k);
  }

  /** Else a readable one: with room in the queue, the next datagram has its whole effect. */
  lemma ReadableTurnReceives(setup: Setup, s: ServerState, t: Tick, d: Datagram, more: seq<Received>)
    requires NotDue(s, t) && t.poll == PollReady(false, true)
    requires |s.queue| < 64 && t.receives == [Got(d)] + more
    ensures var effect := PacketEffect(setup, s.secrets, s.db, Take(d.payload, 4096), d.from, d.now);
            AfterTick(setup, s, t) ==
            AfterTick(setup, s.(db := effect.db, queue := s.queue + effect.replies), t.(receives := more))
  {
    hide PollDelay, PacketEffect;
    NotDueMeansDelay(s, t);
    assert t.receives[1..] == more;
  }

  /** And a turn with nothing to do, or nothing left to read, changes nothing. */
  lemma IdleTurnChangesNothing(setup: Setup, s: ServerState, t: Tick)
    requires NotDue(s, t)
    requires || t.poll.PollError? || t.poll == PollReady(false, false)
             || (t.poll == PollReady(false, true) && (t.receives == [] || !t.receives[0].Got? || |s.queue| >= 64))
    ensures AfterTick(setup, s, t) == s
  {
    hide PollDelay, PacketEffect;
    NotDueMeansDelay(s, t);
  }

  // ------------------------------------------------------------- which secrets are held

  /** The draws of a run, in order. */
  function Draws(setup: Setup, s: ServerState, ticks: seq<Tick>): (draws: seq<Option<Secret>>)
    ensures |draws| == Rotations(setup, s, ticks)
    decreases |ticks|
  {
    if ticks == [] then []
    else (if Rotates(s, ticks[0]) then [ticks[0].random] else [])
         + Draws(setup, AfterTick(setup, s, ticks[0]), ticks[1..])
  }

  ghost predicate AllDrawn(draws: seq<Option<Secret>>) {
    forall i :: 0 <= i < |draws| ==> draws[i].Some?
  }

  lemma DrawsStep(setup: Setup, s: ServerState, ticks: seq<Tick>)
    requires ticks != [] && AllDrawn(Draws(setup, s, ticks))
    ensures var rest := Draws(setup, AfterTick(setup, s, ticks[0]), ticks[1..]);
            && AllDrawn(rest)
            && (Rotates(s, ticks[0]) ==> ticks[0].random.Some? && Draws(setup, s, ticks) == [ticks[0].random] + rest)
            && (!Rotates(s, ticks[0]) ==> Draws(setup, s, ticks) == rest)
  {
    hide AfterTick, Rotates, Rotations;
    var draws, rest := Draws(setup, s, ticks), Draws(setup, AfterTick(setup, s, ticks[0]), ticks[1..]);
    if Rotates(s, ticks[0]) {
      assert draws == [ticks[0].random] + rest && draws[0] == ticks[0].random && draws[1..] == rest;
    } else {
      assert draws == [] + rest == rest;
    }
  }

  /** The k-th of the latest draws, newest first, and behind them the secrets there were. */
  function Held(draws: seq<Option<Secret>>, before: Secrets, k: nat): Secret
    requires k < SECRETS && AllDrawn(draws)
  {
    if k < |draws| then draws[|draws| - 1 - k].value else before[k - |draws|]
  }

  lemma HeldAfterDraw(draw: Option<Secret>, rest: seq<Option<Secret>>, before: Secrets, k: nat)
    requires k < SECRETS && draw.Some? && AllDrawn(rest)
    ensures AllDrawn([draw] + rest) && Held([draw] + rest, before, k) == Held(rest, Rotated(before, draw), k)
  {
    assert k < |rest| ==> ([draw] + rest)[|rest| - k] == rest[|rest| - 1 - k];
  }

  /** The three secrets are the latest draws, newest first, then what there was before. */
  lemma {:induction false} SecretsAreLatestDraws(setup: Setup, s: ServerState, ticks: seq<Tick>, k: nat)
    requires AllDrawn(Draws(setup, s, ticks)) && k < SECRETS
    ensures AfterTicks(setup, s, ticks).secrets[k] == Held(Draws(setup, s, ticks), s.secrets, k)
    decreases |ticks|
  {
    hide AfterTick, Rotates, Rotations, AllDrawn;
    if ticks != [] {
      var t := ticks[0];
      var next := AfterTick(setup, s, t);
      TickSecrets(setup, s, t);
      DrawsStep(setup, s, ticks);
      SecretsAreLatestDraws(setup, next, ticks[1..], k);
      if Rotates(s, t) {
        HeldAfterDraw(t.random, Draws(setup, next, ticks[1..]), s.secrets, k);
      }
    }
  }

  /** How many turns find a secret due. */
  ghost function DueTurns(setup: Setup, s: ServerState, ticks: seq<Tick>): nat
    decreases |ticks|
  {
    if ticks == [] then 0
    else (if Due(s, ticks[0]) then 1 else 0) + DueTurns(setup, AfterTick(setup, s, ticks[0]), ticks[1..])
  }

  lemma {:induction false} DueTurnsAllRotate(setup: Setup, s: ServerState, ticks: seq<Tick>)
    ensures DueTurns(setup, s, ticks) <= Rotations(setup, s, ticks)
    decreases |ticks|
  {
    hide AfterTick, PollDelay, Due;
    if ticks != [] {
      DueTurnsAllRotate(setup, AfterTick(setup, s, ticks[0]), ticks[1..]);
      if Due(s, ticks[0]) {
        DueMeansNoDelay(s, ticks[0]);
      }
    }
  }

  /** After three turns that found a secret due, however busy, no earlier secret is held. */
  lemma ThreeDueTurnsReplaceAll(setup: Setup, s: ServerState, ticks: seq<Tick>, k: nat)
    requires DueTurns(setup, s, ticks) >= 3 && AllDrawn(Draws(setup, s, ticks)) && k < SECRETS
    ensures var draws := Draws(setup, s, ticks);
            |draws| >= 3 && AfterTicks(setup, s, ticks).secrets[k] == draws[|draws| - 1 - k].value
  {
    hide AfterTicks;
    DueTurnsAllRotate(setup, s, ticks);
    SecretsAreLatestDraws(setup, s, ticks, k);
  }

  /** The server starts with three draws, the last one first. */
  lemma StartsWithThreeDraws(secrets: Secrets, a: Secret, b: Secret, c: Secret)
    ensures Rotated(Rotated(Rotated(secrets, Some(a)), Some(b)), Some(c)) == [c, b, a]
  {
  }

  // --------------------------------------------------------- how long ids stay good, at most

  function Max(a: int, b: int): int {
    if a >= b then a else b
  }

  /**
   The loop is prompt: each reading of its clock comes at most `gap` after the one before
   it, or after the time the next secret is due, for which `poll` may sleep.
   */
  ghost predicate Prompt(setup: Setup, s: ServerState, ticks: seq<Tick>, gap: nat, from: int, to: int)
    decreases |ticks|
  {
    if ticks == [] then to <= Max(from, s.nextTimeout) + gap
    else
      var t := ticks[0];
      && from <= t.now <= Max(from, s.nextTimeout) + gap
      && (Rotates(s, t) ==> t.now <= t.rotationTime <= Max(t.now, s.nextTimeout) + gap)
      && Prompt(setup, AfterTick(setup, s, t), ticks[1..], gap, if Rotates(s, t) then t.rotationTime else t.now, to)
  }

  /** A turn that does not rotate was in time, when the secret is due within a second. */
  lemma NoRotationMeansEarly(s: ServerState, t: Tick)
    requires !Rotates(s, t) && s.nextTimeout <= t.now + SECOND
    requires t.now < s.nextTimeout + INT_SPAN
    ensures t.now < s.nextTimeout
  {
    if t.now >= s.nextTimeout {
      DueMeansNoDelay(s, t);
      assert false;
    }
  }

  /** Time does not run far without rotations: at most a second and two gaps for each. */
  lemma {:induction false} RotationsComeInTime(setup: Setup, s: ServerState, ticks: seq<Tick>, gap: nat,
                                               from: int, to: int)
    requires Prompt(setup, s, ticks, gap, from, to)
    requires s.nextTimeout <= from + SECOND && gap < INT_SPAN && from + gap < s.nextTimeout + INT_SPAN
    ensures to <= Max(from, s.nextTimeout) + gap + Rotations(setup, s, ticks) * (SECOND + 2 * gap)
    decreases |ticks|
  {
    hide AfterTick, Rotates, PollDelay;
    if ticks != [] {
      var t := ticks[0];
      var next := AfterTick(setup, s, t);
      TickSecrets(setup, s, t);
      if Rotates(s, t) {
        RotationsComeInTime(setup, next, ticks[1..], gap, t.rotationTime, to);
        OneMore(Rotations(setup, next, ticks[1..]), SECOND + 2 * gap);
      } else {
        NoRotationMeansEarly(s, t);
        RotationsComeInTime(setup, next, ticks[1..], gap, t.now, to);
      }
    }
  }

  lemma OneMore(n: nat, x: nat)
    ensures (1 + n) * x == x + n * x
  {
  }

  /**
   An id is not good for much longer than it must be: three seconds and five gaps after
   one point of a prompt run, an accepted id is one that a secret drawn since then gives
   the sender; ids from before pass only by coincidence.
   */
  lemma ConnectionIdExpires(setup: Setup, s: ServerState, ticks: seq<Tick>, gap: nat, from: int, to: int,
                            id: uint64, sender: SockAddr)
    requires Prompt(setup, s, ticks, gap, from, to) && AllDrawn(Draws(setup, s, ticks))
    requires s.nextTimeout <= from + SECOND && gap < INT_SPAN && from + gap < s.nextTimeout + INT_SPAN
    requires to > from + 3 * SECOND + 5 * gap
    requires Accepts(AfterTicks(setup, s, ticks).secrets, id, sender)
    ensures var draws := Draws(setup, s, ticks);
            |draws| >= 3
            && exists j :: |draws| - 3 <= j < |draws| && id == ConnectionId(draws[j].value, sender)
  {
    hide ConnectionId, AfterTicks, Prompt, AllDrawn, Accepts;
    var draws, later := Draws(setup, s, ticks), AfterTicks(setup, s, ticks).secrets;
    RotationsComeInTime(setup, s, ticks, gap, from, to);
    AtLeastThree(|draws|, SECOND + 2 * gap, to - Max(from, s.nextTimeout) - gap);
    AcceptsIffKnown(later, id, sender);
    var k :| 0 <= k < SECRETS && id == ConnectionId(later[k], sender);
    SecretsAreLatestDraws(setup, s, ticks, k);
  }

  lemma AtLeastThree(n: nat, x: nat, y: int)
    requires 2 * x < y <= n * x
    ensures n >= 3
  {
    assert n == 2 ==> n * x == 2 * x;
  }
}
